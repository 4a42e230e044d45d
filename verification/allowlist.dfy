/** The effective allow-list of the filesystem server and two containment
    tests on it: the string-prefix test the server performs, and the
    segment-boundary test under which "outside allowed directories" means
    what the server's error messages say. */
module AllowList {
  import opened Paths

  predicate NoDuplicates(xs: seq<string>) {
    forall i, j :: 0 <= i < j < |xs| ==> xs[i] != xs[j]
  }

  /** `[...new Set(xs)]`: every distinct element of `xs` once, at the place
      of its first occurrence (a JavaScript `Set` iterates in insertion
      order). */
  function Dedupe(xs: seq<string>): (r: seq<string>)
    ensures forall x :: x in r <==> x in xs
    ensures NoDuplicates(r)
    ensures |r| <= |xs|
  {
    if xs == [] then []
    else
      var d := Dedupe(xs[..|xs| - 1]);
      var x := xs[|xs| - 1];
      assert forall y :: y in xs <==> y in xs[..|xs| - 1] || y == x;
      if x in d then d else d + [x]
  }

  /** Deduplicating a concatenation keeps the deduplicated first part as a
      prefix, and everything after it comes from the second part and is
      new. */
  lemma {:induction false} DedupeAppend(a: seq<string>, b: seq<string>)
    ensures Dedupe(a) <= Dedupe(a + b)
    ensures forall i :: |Dedupe(a)| <= i < |Dedupe(a + b)| ==>
      Dedupe(a + b)[i] in b && Dedupe(a + b)[i] !in a
    decreases |b|
  {
    if b != [] {
      var b', x := b[..|b| - 1], b[|b| - 1];
      assert (a + b)[..|a + b| - 1] == a + b';
      DedupeAppend(a, b');
      var d := Dedupe(a + b');
      assert (a + b)[|a + b| - 1] == x;
      assert Dedupe(a + b) == if x in d then d else d + [x];
      assert forall i :: |Dedupe(a)| <= i < |d| ==> d[i] in b;
      if x !in d {
        assert x !in a;
        assert Dedupe(a) <= d + [x];
      }
    } else {
      assert a + b == a;
    }
  }

  /** A list without repeats is its own deduplication. */
  lemma {:induction false} DedupeDistinct(xs: seq<string>)
    requires NoDuplicates(xs)
    ensures Dedupe(xs) == xs
  {
    if xs != [] {
      var init := xs[..|xs| - 1];
      DedupeDistinct(init);
      assert xs[|xs| - 1] !in init;
      assert init + [xs[|xs| - 1]] == xs;
    }
  }

  /** Appending elements that are already present changes nothing. */
  lemma {:induction false} DedupeAbsorbs(a: seq<string>, b: seq<string>)
    requires forall x :: x in b ==> x in a
    ensures Dedupe(a + b) == Dedupe(a)
    decreases |b|
  {
    if b != [] {
      var b', x := b[..|b| - 1], b[|b| - 1];
      assert (a + b)[..|a + b| - 1] == a + b';
      assert (a + b)[|a + b| - 1] == x;
      DedupeAbsorbs(a, b');
      assert x in Dedupe(a + b');
    } else {
      assert a + b == a;
    }
  }

  /** Listing the same directories twice adds nothing. */
  lemma DedupeRepeated(a: seq<string>)
    ensures Dedupe(a + a) == Dedupe(a)
  {
    DedupeAbsorbs(a, a);
  }

  /** `[...new Set([...boot, ...stored])]` computed the way the runtime does
      it: walk the concatenation once, appending each element not seen
      before. */
  method MergeAllowed(boot: seq<string>, stored: seq<string>) returns (all: seq<string>)
    ensures all == Dedupe(boot + stored)
    ensures Dedupe(boot) <= all
    ensures forall x :: x in all <==> x in boot || x in stored
  {
    var xs := boot + stored;
    var seen: set<string> := {};
    all := [];
    var i := 0;
    while i < |xs|
      invariant 0 <= i <= |xs|
      invariant all == Dedupe(xs[..i])
      invariant forall x :: x in seen <==> x in all
    {
      assert xs[..i + 1][..i] == xs[..i];
      if xs[i] !in seen {
        seen := seen + {xs[i]};
        all := all + [xs[i]];
      }
      i := i + 1;
    }
    assert xs[..|xs|] == xs;
    DedupeAppend(boot, stored);
  }

  /** `dirs.some(dir => p.startsWith(dir))`: a plain string-prefix test. */
  predicate StartsWithAny(dirs: seq<string>, p: string) {
    exists i :: 0 <= i < |dirs| && dirs[i] <= p
  }

  /** `p` equals `dir` or lies below it on a segment boundary. */
  predicate Within(dir: string, p: string) {
    dir <= p && (|p| == |dir| || p[|dir|] == '/' || (|dir| > 0 && dir[|dir| - 1] == '/'))
  }

  predicate WithinAny(dirs: seq<string>, p: string) {
    exists i :: 0 <= i < |dirs| && Within(dirs[i], p)
  }

  /** The segment-boundary test admits no path the prefix test rejects. */
  lemma WithinIsStricter(dirs: seq<string>, p: string)
    ensures WithinAny(dirs, p) ==> StartsWithAny(dirs, p)
  {
  }

  /** The prefix test admits a sibling whose name merely extends an allowed
      directory's last segment. */
  lemma PrefixAdmitsSibling()
    ensures StartsWithAny(["/a/b"], "/a/bc/f")
    ensures !WithinAny(["/a/b"], "/a/bc/f")
  {
    assert ["/a/b"][0] <= "/a/bc/f";
    assert !Within("/a/b", "/a/bc/f");
  }

  /** `a` is a prefix of `b` that ends where `b` ends or at a slash of `b`. */
  predicate BoundaryPrefix(a: string, b: string) {
    a <= b && (|b| == |a| || b[|a|] == '/')
  }

  /** The layout of `"/" + x + a`: a slash, the piece `x` with no slash in
      it, then `a`, which starts with a slash when it is not empty. */
  lemma SlashPiece(x: string, a: string)
    requires IsPiece(x)
    requires a == [] || a[0] == '/'
    ensures var u := "/" + x + a;
      && |u| == 1 + |x| + |a|
      && (forall k :: 0 <= k < |x| ==> u[1 + k] == x[k] && x[k] != '/')
      && (forall k :: 0 <= k < |a| ==> u[1 + |x| + k] == a[k])
      && (|a| > 0 ==> u[1 + |x|] == '/')
  {
    var u := "/" + x + a;
    forall k | 0 <= k < |x|
      ensures u[1 + k] == x[k] && x[k] != '/'
    {
      assert x[k] in x;
    }
  }

  lemma ConsBoundaryPrefix(x: string, y: string, a: string, b: string)
    requires IsPiece(x) && IsPiece(y)
    requires a == [] || a[0] == '/'
    requires b == [] || b[0] == '/'
    ensures BoundaryPrefix("/" + x + a, "/" + y + b) <==> x == y && BoundaryPrefix(a, b)
  {
    var u, v := "/" + x + a, "/" + y + b;
    SlashPiece(x, a);
    SlashPiece(y, b);
    assert |y| > |x| ==> v[1 + |x|] != '/';
    assert |x| > |y| ==> u[1 + |y|] != '/';
    if BoundaryPrefix(u, v) {
      assert forall k :: 0 <= k < |u| ==> u[k] == v[k];
      assert |x| == |y|;
      assert x == u[1..1 + |x|] == v[1..1 + |y|] == y;
    }
    if x == y && BoundaryPrefix(a, b) {
      assert forall k :: 0 <= k < |a| ==> u[1 + |x| + k] == a[k];
    }
  }

  lemma {:induction false} JoinBoundaryPrefix(ds: seq<string>, ps: seq<string>)
    requires AllPieces(ds) && AllPieces(ps)
    ensures BoundaryPrefix(Join(ds), Join(ps)) <==> ds <= ps
  {
    if ds == [] {
      JoinLength(ps);
    } else if ps == [] {
      JoinLength(ds);
    } else {
      JoinLength(ds[1..]);
      JoinLength(ps[1..]);
      ConsBoundaryPrefix(ds[0], ps[0], Join(ds[1..]), Join(ps[1..]));
      JoinBoundaryPrefix(ds[1..], ps[1..]);
      assert ds <= ps <==> ds[0] == ps[0] && ds[1..] <= ps[1..];
    }
  }

  /** On normal-form paths the segment-boundary test is exactly "the
      directory's segments are a prefix of the path's segments". */
  lemma WithinIffSegmentPrefix(ds: seq<string>, ps: seq<string>)
    requires AllNames(ds) && AllNames(ps)
    ensures Within(Render(ds), Render(ps)) <==> ds <= ps
  {
    JoinLength(ds);
    JoinLength(ps);
    if ds != [] {
      var last := ds[|ds| - 1];
      assert IsName(last);
      JoinSnoc(ds[..|ds| - 1], last);
      assert ds[..|ds| - 1] + [last] == ds;
      assert Join(ds)[|Join(ds)| - 1] == last[|last| - 1];
      assert last[|last| - 1] in last;
      if ps != [] {
        JoinBoundaryPrefix(ds, ps);
      }
    }
  }
}
