/** POSIX path strings as Node's `path` module treats them on the paths the
    filesystem server handles: splitting into segments, `path.resolve`
    against the process's working directory, and `path.dirname`. */
module Paths {

  /** `path.isAbsolute` on POSIX: the string starts with a slash. */
  predicate IsAbsolute(p: string) {
    |p| > 0 && p[0] == '/'
  }

  /** An absolute path, such as `process.cwd()` always returns. */
  type AbsPath = p: string | IsAbsolute(p) witness "/"

  /** A segment that survives normalisation: non-empty, slash-free, and
      neither `.` nor `..`. */
  predicate IsName(s: string) {
    |s| > 0 && '/' !in s && s != "." && s != ".."
  }

  predicate AllNames(segs: seq<string>) {
    forall i :: 0 <= i < |segs| ==> IsName(segs[i])
  }

  /** Non-empty and slash-free, as every piece of a split path is. */
  predicate IsPiece(s: string) {
    |s| > 0 && '/' !in s
  }

  predicate AllPieces(segs: seq<string>) {
    forall i :: 0 <= i < |segs| ==> IsPiece(segs[i])
  }

  /** Length of the leading run of non-slash characters of `s`. */
  function RunLength(s: string): (n: nat)
    ensures n <= |s|
    ensures forall i :: 0 <= i < n ==> s[i] != '/'
    ensures n < |s| ==> s[n] == '/'
  {
    if |s| == 0 || s[0] == '/' then 0 else 1 + RunLength(s[1..])
  }

  /** The slash-separated pieces of `s`, in order; empty pieces (from a
      leading, trailing or doubled slash) are dropped. */
  function Pieces(s: string): (r: seq<string>)
    ensures AllPieces(r)
    decreases |s|
  {
    if |s| == 0 then []
    else if s[0] == '/' then Pieces(s[1..])
    else
      var n := RunLength(s);
      assert forall j :: 0 <= j < n ==> s[..n][j] != '/';
      [s[..n]] + Pieces(s[n..])
  }

  /** `/s1/s2/.../sk`; the empty string for no segments. */
  function Join(segs: seq<string>): string {
    if segs == [] then "" else "/" + segs[0] + Join(segs[1..])
  }

  /** The absolute path with the given segments; the root `/` for none. */
  function Render(segs: seq<string>): (p: AbsPath) {
    if segs == [] then "/" else Join(segs)
  }

  /** Applies `.` (stay) and `..` (go up, staying at the root) to the
      segments, on top of the already collapsed `stack`. */
  function Collapse(stack: seq<string>, segs: seq<string>): (r: seq<string>)
    ensures AllNames(stack) && AllPieces(segs) ==> AllNames(r)
    ensures AllNames(segs) ==> r == stack + segs
    ensures |r| <= |stack| + |segs|
    decreases |segs|
  {
    if segs == [] then stack
    else if segs[0] == "." then Collapse(stack, segs[1..])
    else if segs[0] == ".." then
      Collapse(if stack == [] then [] else stack[..|stack| - 1], segs[1..])
    else
      var r := Collapse(stack + [segs[0]], segs[1..]);
      assert AllNames(segs) ==> stack + segs == (stack + [segs[0]]) + segs[1..];
      r
  }

  /** A path already in the form `path.resolve` produces: absolute, with no
      empty, `.` or `..` segment and no trailing slash. */
  predicate NormalForm(p: string) {
    AllNames(Pieces(p)) && Render(Pieces(p)) == p
  }

  /** Normalisation of a string read as rooted at `/`. */
  function Normalize(p: string): (r: AbsPath) {
    Render(Collapse([], Pieces(p)))
  }

  /** `path.resolve(p)` (equivalently `path.resolve(cwd, p)`) with
      `process.cwd()` equal to `cwd`: a relative `p` is read below `cwd`,
      then `.`, `..`, empty segments and the trailing slash are collapsed;
      `..` at the root stays at the root. */
  function Resolve(cwd: AbsPath, p: string): (r: AbsPath)
    ensures NormalForm(r)
    ensures IsAbsolute(p) ==> r == Normalize(p)
  {
    var segs := Collapse([], Pieces(if IsAbsolute(p) then p else cwd + "/" + p));
    PiecesOfRender(segs);
    Render(segs)
  }

  /** `path.resolve(process.cwd(), p)` and `path.resolve(p)` agree: a
      relative `p` is read below the working directory either way. */
  lemma ResolveFromCwd(cwd: AbsPath, p: string)
    ensures Resolve(cwd, if IsAbsolute(p) then p else cwd + "/" + p) == Resolve(cwd, p)
  {
    if !IsAbsolute(p) {
      assert IsAbsolute(cwd + "/" + p);
    }
  }

  /** `ds.map(d => path.resolve(d))`. */
  function ResolveAll(cwd: AbsPath, ds: seq<string>): (r: seq<string>)
    ensures |r| == |ds|
    ensures forall i :: 0 <= i < |r| ==> r[i] == Resolve(cwd, ds[i]) && NormalForm(r[i])
  {
    seq(|ds|, i requires 0 <= i < |ds| => Resolve(cwd, ds[i]))
  }

  /** Resolving an already resolved list changes nothing. */
  lemma ResolveAllIdempotent(cwd: AbsPath, ds: seq<string>)
    ensures ResolveAll(cwd, ResolveAll(cwd, ds)) == ResolveAll(cwd, ds)
  {
    var r := ResolveAll(cwd, ds);
    forall i | 0 <= i < |r|
      ensures Resolve(cwd, r[i]) == r[i]
    {
      ResolveNormal(cwd, r[i]);
    }
  }

  lemma RunLengthOfPiece(s: string, t: string)
    requires IsPiece(s)
    requires t == [] || t[0] == '/'
    ensures RunLength(s + t) == |s|
  {
    forall i | 0 <= i < |s|
      ensures (s + t)[i] != '/'
    {
      assert s[i] in s;
    }
    if t != [] {
      assert (s + t)[|s|] == '/';
    }
  }

  lemma {:induction false} PiecesOfJoin(segs: seq<string>)
    requires AllPieces(segs)
    ensures Pieces(Join(segs)) == segs
  {
    if segs != [] {
      var rest := Join(segs[1..]);
      var s := segs[0] + rest;
      assert IsPiece(segs[0]);
      assert Join(segs) == "/" + s;
      assert Join(segs)[1..] == s;
      assert rest == [] || rest[0] == '/';
      RunLengthOfPiece(segs[0], rest);
      assert s[..|segs[0]|] == segs[0];
      assert s[|segs[0]|..] == rest;
      PiecesOfJoin(segs[1..]);
      assert Pieces(s) == [segs[0]] + segs[1..];
    }
  }

  /** Splitting a rendered path gives back its segments. */
  lemma PiecesOfRender(segs: seq<string>)
    requires AllPieces(segs)
    ensures Pieces(Render(segs)) == segs
  {
    if segs == [] {
      assert Pieces("/") == Pieces("/"[1..]);
    } else {
      PiecesOfJoin(segs);
    }
  }

  /** Resolving a path that is already in normal form returns it unchanged,
      whatever the working directory. */
  lemma {:induction false} ResolveNormal(cwd: AbsPath, p: string)
    requires NormalForm(p)
    ensures Resolve(cwd, p) == p
  {
    assert IsAbsolute(p);
    assert Collapse([], Pieces(p)) == Pieces(p);
  }

  /** `path.resolve` is idempotent. */
  lemma ResolveIdempotent(cwd: AbsPath, p: string)
    ensures Resolve(cwd, Resolve(cwd, p)) == Resolve(cwd, p)
  {
    ResolveNormal(cwd, Resolve(cwd, p));
  }

  /** `RunLength` is determined by its contract: `n` is the leading run of
      non-slash characters of `u` as soon as `u[n]` ends it. */
  lemma RunLengthUnique(u: string, n: nat)
    requires n <= |u|
    requires forall i :: 0 <= i < n ==> u[i] != '/'
    requires n < |u| ==> u[n] == '/'
    ensures RunLength(u) == n
  {
  }

  /** Splitting at an explicit slash: the pieces of `s + "/" + t` are the
      pieces of `s` followed by the pieces of `t`. */
  lemma {:induction false} PiecesOfSlash(s: string, t: string)
    ensures Pieces(s + "/" + t) == Pieces(s) + Pieces(t)
    decreases |s|
  {
    var u := s + "/" + t;
    if s == [] {
      assert u[1..] == t;
    } else if s[0] == '/' {
      assert u[0] == '/' && u[1..] == s[1..] + "/" + t;
      PiecesOfSlash(s[1..], t);
    } else {
      var n := RunLength(s);
      assert n > 0;
      RunLengthUnique(u, n);
      assert u[0] == s[0];
      assert u[..n] == s[..n];
      assert u[n..] == s[n..] + "/" + t;
      assert Pieces(u) == [s[..n]] + Pieces(s[n..] + "/" + t);
      assert Pieces(s) == [s[..n]] + Pieces(s[n..]);
      PiecesOfSlash(s[n..], t);
    }
  }

  /** A single piece splits into itself. */
  lemma PieceAlone(x: string)
    requires IsPiece(x)
    ensures Pieces(x) == [x]
  {
    PiecesOfSlash("", x);
    assert "" + "/" + x == Join([x]);
    PiecesOfJoin([x]);
  }

  /** Collapsing proper names only pushes them; what follows is collapsed on
      top of them. */
  lemma {:induction false} CollapseNames(stack: seq<string>, names: seq<string>, rest: seq<string>)
    requires AllNames(names)
    ensures Collapse(stack, names + rest) == Collapse(stack + names, rest)
    decreases |names|
  {
    if names != [] {
      var segs := names + rest;
      assert IsName(names[0]);
      assert segs[0] == names[0] && segs[1..] == names[1..] + rest;
      CollapseNames(stack + [names[0]], names[1..], rest);
      assert stack + [names[0]] + names[1..] == stack + names;
    } else {
      assert names + rest == rest && stack + names == stack;
    }
  }

  /** `path.resolve(p, t)` for a normal-form `p` and a relative `t`: the
      pieces of `t` are collapsed on top of the segments of `p`. */
  lemma ResolveBelow(cwd: AbsPath, p: string, t: string)
    requires NormalForm(p)
    ensures Resolve(cwd, p + "/" + t) == Render(Collapse(Pieces(p), Pieces(t)))
  {
    assert IsAbsolute(p + "/" + t);
    PiecesOfSlash(p, t);
    CollapseNames([], Pieces(p), Pieces(t));
    assert [] + Pieces(p) == Pieces(p);
  }

  /** Collapsing runs piece by piece: collapsing `a + b` is collapsing `b`
      on top of the result for `a`. */
  lemma {:induction false} CollapseAppend(stack: seq<string>, a: seq<string>, b: seq<string>)
    ensures Collapse(stack, a + b) == Collapse(Collapse(stack, a), b)
    decreases |a|
  {
    if a == [] {
      assert a + b == b;
    } else {
      var ab := a + b;
      assert ab[0] == a[0] && ab[1..] == a[1..] + b;
      if a[0] == "." {
        CollapseAppend(stack, a[1..], b);
      } else if a[0] == ".." {
        CollapseAppend(if stack == [] then [] else stack[..|stack| - 1], a[1..], b);
      } else {
        CollapseAppend(stack + [a[0]], a[1..], b);
      }
    }
  }

  /** Resolving step by step: `p/s/t` resolves to `t` resolved below the
      resolution of `p/s`, whatever `s` and `t` contain. */
  lemma ResolveStep(cwd: AbsPath, p: string, s: string, t: string)
    requires NormalForm(p)
    ensures Resolve(cwd, p + "/" + s + "/" + t) == Resolve(cwd, Resolve(cwd, p + "/" + s) + "/" + t)
  {
    var c := Collapse(Pieces(p), Pieces(s));
    assert p + "/" + s + "/" + t == p + "/" + (s + "/" + t);
    ResolveBelow(cwd, p, s + "/" + t);
    PiecesOfSlash(s, t);
    CollapseAppend(Pieces(p), Pieces(s), Pieces(t));
    ResolveBelow(cwd, p, s);
    var q := Resolve(cwd, p + "/" + s);
    assert q == Render(c);
    assert AllNames(c);
    assert AllPieces(c);
    PiecesOfRender(c);
    ResolveBelow(cwd, q, t);
  }

  /** `..` leads to the directory part: `path.resolve(p, "..")` is
      `path.dirname(p)`, which for the root is the root itself. */
  lemma ParentSegment(cwd: AbsPath, p: string)
    requires NormalForm(p)
    ensures Resolve(cwd, p + "/..") == Dirname(p)
  {
    var segs := Pieces(p);
    assert p + "/.." == p + "/" + "..";
    ResolveBelow(cwd, p, "..");
    PieceAlone("..");
    assert [".."][1..] == [];
    assert Collapse(segs, [".."]) == if segs == [] then [] else segs[..|segs| - 1];
    DirnameOfRender(segs);
  }

  /** `.` stays where it is. */
  lemma CurrentSegment(cwd: AbsPath, p: string)
    requires NormalForm(p)
    ensures Resolve(cwd, p + "/.") == p
  {
    var segs := Pieces(p);
    assert p + "/." == p + "/" + ".";
    ResolveBelow(cwd, p, ".");
    PieceAlone(".");
    assert ["."][1..] == [];
    assert Collapse(segs, ["."]) == segs;
  }

  /** A trailing slash is dropped. */
  lemma TrailingSlash(cwd: AbsPath, p: string)
    requires NormalForm(p)
    ensures Resolve(cwd, p + "/") == p
  {
    ResolveBelow(cwd, p, "");
    assert p + "/" + "" == p + "/";
  }

  /** A proper name goes one level down. */
  lemma NameSegment(cwd: AbsPath, p: string, name: string)
    requires NormalForm(p) && IsName(name)
    ensures Resolve(cwd, p + "/" + name) == Child(p, name)
  {
    ResolveBelow(cwd, p, name);
    PieceAlone(name);
    ChildIsNormal(p, name);
    ResolveNormal(cwd, Child(p, name));
    if p != "/" {
      assert Child(p, name) == p + "/" + name;
    } else {
      PiecesOfRender([name]);
      assert Pieces(p) == [];
      assert Render([name]) == "/" + name == Child(p, name);
    }
  }

  /** A path rendered from proper names is in normal form: it resolves to
      itself, and its directory part drops the last name. */
  lemma RenderIsNormal(cwd: AbsPath, segs: seq<string>)
    requires AllNames(segs)
    ensures Resolve(cwd, Render(segs)) == Render(segs)
    ensures segs != [] ==> Dirname(Render(segs)) == Render(segs[..|segs| - 1])
  {
    PiecesOfRender(segs);
    ResolveNormal(cwd, Render(segs));
    DirnameOfRender(segs);
  }

  /** The path one name below `p` (`path.join(p, name)` for a normal-form
      `p`). */
  function Child(p: string, name: string): string {
    if p == "/" then "/" + name else p + "/" + name
  }

  /** A name below a normal-form path is again in normal form, and its
      directory part is that path. */
  lemma {:induction false} ChildIsNormal(p: string, name: string)
    requires NormalForm(p) && IsName(name)
    ensures NormalForm(Child(p, name))
    ensures Dirname(Child(p, name)) == p
  {
    var segs := Pieces(p);
    JoinLength(segs);
    JoinSnoc(segs, name);
    assert [name][1..] == [];
    assert Render(segs + [name]) == Child(p, name);
    PiecesOfRender(segs + [name]);
    DirnameOfRender(segs + [name]);
    assert (segs + [name])[..|segs|] == segs;
  }

  /** Index of the slash that ends the directory part of `p`, scanning down
      from `i` as Node's `path.dirname` does; -1 when there is none past
      index 0. */
  function DirEnd(p: string, i: int, matchedSlash: bool): (e: int)
    requires i < |p|
    ensures e == -1 || (1 <= e <= i && p[e] == '/')
    decreases i
  {
    if i < 1 then -1
    else if p[i] == '/' then
      if !matchedSlash then i else DirEnd(p, i - 1, matchedSlash)
    else DirEnd(p, i - 1, false)
  }

  /** Node's POSIX `path.dirname`. The directory part of an absolute path is
      an absolute leading part of it; a relative path with no directory part
      has `.`. */
  function Dirname(p: string): (d: string)
    ensures IsAbsolute(p) ==> IsAbsolute(d) && d <= p
    ensures !IsAbsolute(p) && '/' !in p ==> d == "."
  {
    if |p| == 0 then "."
    else
      var end := DirEnd(p, |p| - 1, true);
      if end == -1 then (if p[0] == '/' then "/" else ".")
      else if p[0] == '/' && end == 1 then "//"
      else p[..end]
  }

  lemma {:induction false} DirEndSkipsName(p: string, i: int, m: bool, k: nat)
    requires k < i < |p|
    requires forall j :: k < j <= i ==> p[j] != '/'
    ensures DirEnd(p, i, m) == DirEnd(p, k, false)
    decreases i
  {
    if i - 1 > k {
      DirEndSkipsName(p, i - 1, false, k);
    }
  }

  lemma {:induction false} JoinSnoc(segs: seq<string>, x: string)
    ensures Join(segs + [x]) == Join(segs) + "/" + x
  {
    if segs != [] {
      assert (segs + [x])[1..] == segs[1..] + [x];
      JoinSnoc(segs[1..], x);
    }
  }

  lemma {:induction false} JoinLength(segs: seq<string>)
    requires AllPieces(segs)
    ensures |Join(segs)| >= 2 * |segs|
    ensures segs != [] ==> Join(segs)[0] == '/'
  {
    if segs != [] {
      assert IsPiece(segs[0]);
      JoinLength(segs[1..]);
    }
  }

  /** Scanning `q + "/" + last` from its end stops at the slash before
      `last`, or finds none past index 0 when `q` is empty. */
  lemma DirEndOfSnoc(q: string, last: string)
    requires IsPiece(last)
    ensures var p := q + "/" + last;
      DirEnd(p, |p| - 1, true) == if |q| < 1 then -1 else |q|
  {
    var p := q + "/" + last;
    var k := |q|;
    assert p[k] == '/';
    forall j | k < j < |p|
      ensures p[j] != '/'
    {
      assert p[j] == last[j - k - 1];
      assert last[j - k - 1] in last;
    }
    DirEndSkipsName(p, |p| - 1, true, k);
  }

  /** The directory part of a normal-form path drops its last segment; the
      root is its own parent. */
  lemma DirnameOfRender(segs: seq<string>)
    requires AllNames(segs)
    ensures Dirname(Render(segs)) == Render(if segs == [] then [] else segs[..|segs| - 1])
  {
    if segs != [] {
      var init, last := segs[..|segs| - 1], segs[|segs| - 1];
      assert segs == init + [last];
      assert IsName(last);
      JoinSnoc(init, last);
      var p := Render(segs);
      var k := |Join(init)|;
      assert p == Join(init) + "/" + last;
      DirEndOfSnoc(Join(init), last);
      JoinLength(init);
      if init != [] {
        assert k >= 2 && p[0] == '/';
        assert p[..k] == Join(init);
      }
    }
  }
}
