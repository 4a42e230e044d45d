/** Worked examples of the gate on small directory trees: the three places
    where the code accepts or reports differently from what its own error
    messages say. */
module Scenarios {
  import opened Optional
  import opened Paths
  import opened AllowList
  import opened ConfigStore
  import opened Validator
  import opened Hardened

  lemma OneEntryList(d: string)
    ensures EffectiveDirs([d], None) == [d]
  {
    assert [d] + GetAllowedDirectories(None) == [d];
    DedupeDistinct([d]);
  }

  lemma Root()
    ensures NormalForm("/")
  {
    RenderIsNormal("/", []);
    PiecesOfRender([]);
  }

  /** One name below a normal-form path: normal, its own resolution, and
      `p` is its directory part. */
  lemma Below(p: string, name: string, child: string)
    requires NormalForm(p) && IsName(name) && child == Child(p, name)
    ensures NormalForm(child) && Dirname(child) == p && Resolve("/", child) == child
  {
    ChildIsNormal(p, name);
    ResolveNormal("/", child);
  }

  lemma PathA()
    ensures NormalForm("/a") && Resolve("/", "/a") == "/a"
  {
    Root();
    Below("/", "a", "/a");
  }

  lemma PathEtc()
    ensures Resolve("/", "/etc") == "/etc"
  {
    Root();
    Below("/", "etc", "/etc");
  }

  lemma PathLink()
    ensures Resolve("/", "/a/link") == "/a/link" && Dirname("/a/link") == "/a"
  {
    PathA();
    Below("/a", "link", "/a/link");
  }

  lemma PathDirLink()
    ensures NormalForm("/a/d")
  {
    PathA();
    Below("/a", "d", "/a/d");
  }

  lemma PathDirLinkNew()
    ensures Resolve("/", "/a/d/f") == "/a/d/f" && Dirname("/a/d/f") == "/a/d"
  {
    PathDirLink();
    Below("/a/d", "f", "/a/d/f");
  }

  lemma PathBc()
    ensures NormalForm("/a/bc") && Resolve("/", "/a/bc") == "/a/bc"
  {
    PathA();
    Below("/a", "bc", "/a/bc");
  }

  lemma PathBcF()
    ensures Resolve("/", "/a/bc/f") == "/a/bc/f" && Dirname("/a/bc/f") == "/a/bc"
  {
    PathBc();
    Below("/a/bc", "f", "/a/bc/f");
  }

  lemma LinkPrefixes()
    ensures StartsWithAny(["/a"], "/a/link") && StartsWithAny(["/a"], "/a")
    ensures WithinAny(["/a"], "/a/link")
    ensures !StartsWithAny(["/a"], "/etc") && !WithinAny(["/a"], "/etc")
  {
    assert ["/a"][0] <= "/a/link" && ["/a"][0] <= "/a";
    assert Within(["/a"][0], "/a/link");
    assert "/a"[1] != "/etc"[1];
  }

  lemma DirLinkPrefixes()
    ensures StartsWithAny(["/a"], "/a/d/f") && WithinAny(["/a"], "/a/d/f")
    ensures !StartsWithAny(["/a"], "/etc") && !WithinAny(["/a"], "/etc")
  {
    assert ["/a"][0] <= "/a/d/f";
    assert Within(["/a"][0], "/a/d/f");
    assert "/a"[1] != "/etc"[1];
  }

  lemma SiblingPrefixes()
    ensures StartsWithAny(["/a/b"], "/a/bc/f") && StartsWithAny(["/a/b"], "/a/bc")
    ensures !WithinAny(["/a/b"], "/a/bc/f")
  {
    assert ["/a/b"][0] <= "/a/bc/f" && ["/a/b"][0] <= "/a/bc";
    assert !Within("/a/b", "/a/bc/f");
  }

  // Each example below is split so that no single proof sees both the literal
  // arguments and the whole gate: the example pins the parameters of a
  // setup lemma to the literals, the setup gathers the path and list facts
  // from small lemmas and applies the general lemma about the gate.

  /** Allow-list `/a`; `/a/link` is a symlink to `/etc`. The original gate
      accepts the link; the corrected one denies it. */
  lemma SymlinkEscapeExample()
    ensures ValidatePath("/", ["/a"], None, map["/a/link" := "/etc", "/a" := "/a"], "/a/link") == Normal("/a/link")
    ensures ValidatePathHardened("/", ["/a"], None, map["/a/link" := "/etc", "/a" := "/a"], "/a/link") == Abrupt(SymlinkTargetOutside)
  {
    SymlinkSetup("/", ["/a"], map["/a/link" := "/etc", "/a" := "/a"], "/a/link", "/a", "/etc");
  }

  lemma SymlinkSetup(cwd: AbsPath, boot: seq<string>, fs: RealpathOracle, link: string, dir: string, target: string)
    requires cwd == "/" && boot == ["/a"] && link == "/a/link" && dir == "/a" && target == "/etc"
    requires fs == map["/a/link" := "/etc", "/a" := "/a"]
    ensures ValidatePath(cwd, boot, None, fs, link) == Normal(link)
    ensures ValidatePathHardened(cwd, boot, None, fs, link) == Abrupt(SymlinkTargetOutside)
  {
    assert "/a/link" != "/a";
    SymlinkPaths(cwd, link, dir, target);
    SymlinkLists(boot, link, dir, target);
    SymlinkEscapes(cwd, boot, None, fs, link);
  }

  lemma SymlinkPaths(cwd: AbsPath, link: string, dir: string, target: string)
    requires cwd == "/" && link == "/a/link" && dir == "/a" && target == "/etc"
    ensures Resolve(cwd, link) == link && Dirname(link) == dir
    ensures Resolve(cwd, target) == target && Resolve(cwd, dir) == dir
  {
    PathA();
    PathEtc();
    PathLink();
  }

  lemma SymlinkLists(boot: seq<string>, link: string, dir: string, target: string)
    requires boot == ["/a"] && link == "/a/link" && dir == "/a" && target == "/etc"
    ensures EffectiveDirs(boot, None) == [dir]
    ensures StartsWithAny([dir], link) && StartsWithAny([dir], dir) && WithinAny([dir], link)
    ensures !StartsWithAny([dir], target) && !WithinAny([dir], target)
  {
    OneEntryList("/a");
    LinkPrefixes();
  }

  /** Allow-list `/a`; `/a/d` is a symlink to the directory `/etc`, and
      `/a/d/f` does not exist. The original gate reports the parent
      as missing although it exists; the corrected one denies access. */
  lemma ParentOutsideExample()
    ensures ValidatePath("/", ["/a"], None, map["/a/d" := "/etc"], "/a/d/f") == Abrupt(ParentMissing("/a/d"))
    ensures ValidatePathHardened("/", ["/a"], None, map["/a/d" := "/etc"], "/a/d/f") == Abrupt(ParentOutside)
  {
    ParentOutsideSetup("/", ["/a"], map["/a/d" := "/etc"], "/a/d/f", "/a/d", "/a", "/etc");
  }

  lemma ParentOutsideSetup(cwd: AbsPath, boot: seq<string>, fs: RealpathOracle, file: string, parent: string, dir: string, target: string)
    requires cwd == "/" && boot == ["/a"] && file == "/a/d/f" && parent == "/a/d" && dir == "/a" && target == "/etc"
    requires fs == map["/a/d" := "/etc"]
    ensures ValidatePath(cwd, boot, None, fs, file) == Abrupt(ParentMissing(parent))
    ensures ValidatePathHardened(cwd, boot, None, fs, file) == Abrupt(ParentOutside)
  {
    assert "/a/d/f" != "/a/d";
    ParentOutsidePaths(cwd, file, parent, target);
    ParentOutsideLists(boot, file, dir, target);
    ParentOutsideReportedMissing(cwd, boot, None, fs, file);
  }

  lemma ParentOutsidePaths(cwd: AbsPath, file: string, parent: string, target: string)
    requires cwd == "/" && file == "/a/d/f" && parent == "/a/d" && target == "/etc"
    ensures Resolve(cwd, file) == file && Dirname(file) == parent && Resolve(cwd, target) == target
  {
    PathEtc();
    PathDirLinkNew();
  }

  lemma ParentOutsideLists(boot: seq<string>, file: string, dir: string, target: string)
    requires boot == ["/a"] && file == "/a/d/f" && dir == "/a" && target == "/etc"
    ensures EffectiveDirs(boot, None) == [dir]
    ensures StartsWithAny([dir], file) && WithinAny([dir], file)
    ensures !StartsWithAny([dir], target) && !WithinAny([dir], target)
  {
    OneEntryList("/a");
    DirLinkPrefixes();
  }

  /** Allow-list `/a/b`; `/a/bc` is an existing directory. The original gate
      lets `/a/bc/f` through; the corrected one denies it at the pre-check. */
  lemma SiblingPrefixExample()
    ensures ValidatePath("/", ["/a/b"], None, map["/a/bc" := "/a/bc"], "/a/bc/f") == Normal("/a/bc/f")
    ensures ValidatePathHardened("/", ["/a/b"], None, map["/a/bc" := "/a/bc"], "/a/bc/f")
      == Abrupt(OutsideAllowed("/a/bc/f", ["/a/b"]))
  {
    SiblingSetup("/", ["/a/b"], map["/a/bc" := "/a/bc"], "/a/bc/f", "/a/bc", "/a/b");
  }

  lemma SiblingSetup(cwd: AbsPath, boot: seq<string>, fs: RealpathOracle, file: string, parent: string, dir: string)
    requires cwd == "/" && boot == ["/a/b"] && file == "/a/bc/f" && parent == "/a/bc" && dir == "/a/b"
    requires fs == map["/a/bc" := "/a/bc"]
    ensures ValidatePath(cwd, boot, None, fs, file) == Normal(file)
    ensures ValidatePathHardened(cwd, boot, None, fs, file) == Abrupt(OutsideAllowed(file, boot))
  {
    assert "/a/bc/f" != "/a/bc";
    SiblingPaths(cwd, file, parent);
    SiblingLists(boot, file, parent, dir);
    FallbackDecidedByParent(cwd, boot, None, fs, file);
  }

  lemma SiblingPaths(cwd: AbsPath, file: string, parent: string)
    requires cwd == "/" && file == "/a/bc/f" && parent == "/a/bc"
    ensures Resolve(cwd, file) == file && Dirname(file) == parent && Resolve(cwd, parent) == parent
  {
    PathBc();
    PathBcF();
  }

  lemma SiblingLists(boot: seq<string>, file: string, parent: string, dir: string)
    requires boot == ["/a/b"] && file == "/a/bc/f" && parent == "/a/bc" && dir == "/a/b"
    ensures EffectiveDirs(boot, None) == [dir] && boot == [dir]
    ensures StartsWithAny([dir], file) && StartsWithAny([dir], parent)
    ensures !WithinAny([dir], file)
  {
    OneEntryList("/a/b");
    SiblingPrefixes();
  }
}
