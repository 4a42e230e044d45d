/** The filesystem server's start-up normalisation and its `validatePath`
    gate, as written: string-prefix containment, and `try`/`catch` blocks
    whose catches swallow the access-denied errors thrown inside them. */
module Validator {
  import opened Optional
  import opened Paths
  import opened AllowList
  import opened ConfigStore

  /** `fs.realpath` as an oracle: the paths that resolve, each mapped to its
      real path. A path outside the domain makes `fs.realpath` reject, for
      whatever reason (absent, permission denied, I/O error). */
  type RealpathOracle = map<string, string>

  /** What a `throw` in the gate carries, by kind and payload. */
  datatype Failure =
    | OutsideAllowed(path: string, dirs: seq<string>)
    | RealpathFailed(path: string)
    | SymlinkTargetOutside
    | ParentOutside
    | ParentMissing(parent: string)

  /** How a block finishes: it returns a value or throws. */
  datatype Completion = Normal(value: string) | Abrupt(failure: Failure)

  /** An oracle whose real paths are absolute and normalised, as the real
      `fs.realpath` guarantees. */
  predicate WellFormedOracle(fs: RealpathOracle) {
    forall p :: p in fs ==> NormalForm(fs[p])
  }

  function Realpath(fs: RealpathOracle, p: string): Completion {
    if p in fs then Normal(fs[p]) else Abrupt(RealpathFailed(p))
  }

  /** The allow-list one validation uses: the boot list followed by the
      stored list, without repeats. */
  function EffectiveDirs(boot: seq<string>, file: ConfigFile): (all: seq<string>)
    ensures forall d :: d in all <==> d in boot || d in GetAllowedDirectories(file)
    ensures NoDuplicates(all)
    ensures Dedupe(boot) <= all
  {
    DedupeAppend(boot, GetAllowedDirectories(file));
    Dedupe(boot + GetAllowedDirectories(file))
  }

  /** The first `try` block: realpath the candidate and re-check the prefix
      test on the normalised real path; return the real path itself. */
  function TryRealpath(cwd: AbsPath, all: seq<string>, fs: RealpathOracle, absolute: string): (c: Completion)
    ensures c.Normal? <==> absolute in fs && StartsWithAny(all, Resolve(cwd, fs[absolute]))
    ensures c.Normal? ==> c.value == fs[absolute]
  {
    match Realpath(fs, absolute)
    case Abrupt(e) => Abrupt(e)
    case Normal(realPath) =>
      var normalizedReal := Resolve(cwd, realPath);
      if StartsWithAny(all, normalizedReal) then Normal(realPath)
      else Abrupt(SymlinkTargetOutside)
  }

  /** The inner `try` of the `catch`: realpath the parent directory and check
      it; return the unresolved candidate. */
  function TryParent(cwd: AbsPath, all: seq<string>, fs: RealpathOracle, absolute: string): (c: Completion)
    ensures c.Normal? <==> Dirname(absolute) in fs && StartsWithAny(all, Resolve(cwd, fs[Dirname(absolute)]))
    ensures c.Normal? ==> c.value == absolute
  {
    var parentDir := Dirname(absolute);
    match Realpath(fs, parentDir)
    case Abrupt(e) => Abrupt(e)
    case Normal(realParentPath) =>
      var normalizedParent := Resolve(cwd, realParentPath);
      if StartsWithAny(all, normalizedParent) then Normal(absolute)
      else Abrupt(ParentOutside)
  }

  /** `validatePath(requestedPath)` against the boot list, the config file
      and the realpath oracle. */
  function ValidatePath(cwd: AbsPath, boot: seq<string>, file: ConfigFile, fs: RealpathOracle, requested: string): (c: Completion)
    ensures c.Abrupt? ==> c.failure.OutsideAllowed? || c.failure.ParentMissing?
    ensures c.Normal? ==> StartsWithAny(EffectiveDirs(boot, file), Resolve(cwd, requested))
    ensures var cand, all := Resolve(cwd, requested), EffectiveDirs(boot, file);
      c.Abrupt? && c.failure.OutsideAllowed? <==> !StartsWithAny(all, cand)
    ensures var cand, all := Resolve(cwd, requested), EffectiveDirs(boot, file);
      !StartsWithAny(all, cand) ==> c == Abrupt(OutsideAllowed(cand, all))
    ensures c.Normal? ==>
      var cand, all := Resolve(cwd, requested), EffectiveDirs(boot, file);
      || (cand in fs && c.value == fs[cand] && StartsWithAny(all, Resolve(cwd, fs[cand])))
      || (c.value == cand && Dirname(cand) in fs && StartsWithAny(all, Resolve(cwd, fs[Dirname(cand)])))
  {
    var absolute := if IsAbsolute(requested) then Resolve(cwd, requested) else Resolve(cwd, cwd + "/" + requested);
    ResolveFromCwd(cwd, requested);
    var normalizedRequested := Resolve(cwd, absolute);
    var configDirs := GetAllowedDirectories(file);
    var allAllowedDirs := Dedupe(boot + configDirs);
    if !StartsWithAny(allAllowedDirs, normalizedRequested) then
      Abrupt(OutsideAllowed(absolute, allAllowedDirs))
    else
      match TryRealpath(cwd, allAllowedDirs, fs, absolute)
      case Normal(realPath) => Normal(realPath)
      case Abrupt(_) =>
        // the catch takes every error of the block, including its own
        // "symlink target outside" denial
        match TryParent(cwd, allAllowedDirs, fs, absolute)
        case Normal(p) => Normal(p)
        case Abrupt(_) =>
          // every error of the parent check, its own "parent directory
          // outside" denial included, becomes "parent does not exist"
          Abrupt(ParentMissing(Dirname(absolute)))
  }

  /** The candidate is absolute and normalised, so normalising it again
      (`normalizedRequested`) gives it back. */
  lemma CandidateIsNormal(cwd: AbsPath, requested: string)
    ensures IsAbsolute(Resolve(cwd, requested))
    ensures Resolve(cwd, Resolve(cwd, requested)) == Resolve(cwd, requested)
  {
    ResolveIdempotent(cwd, requested);
  }

  /** The pre-check: a candidate no allow-list entry is a string prefix of is
      denied with the candidate and the list, and only then; the denial does
      not depend on the filesystem at all. */
  lemma PrecheckDenies(cwd: AbsPath, boot: seq<string>, file: ConfigFile, fs: RealpathOracle, fs': RealpathOracle, requested: string)
    ensures var cand, all := Resolve(cwd, requested), EffectiveDirs(boot, file);
      ValidatePath(cwd, boot, file, fs, requested) == Abrupt(OutsideAllowed(cand, all))
      <==> !StartsWithAny(all, cand)
    ensures !StartsWithAny(EffectiveDirs(boot, file), Resolve(cwd, requested)) ==>
      ValidatePath(cwd, boot, file, fs, requested) == ValidatePath(cwd, boot, file, fs', requested)
  {
    CandidateIsNormal(cwd, requested);
  }

  /** An existing candidate whose real path passes the prefix test validates
      to its real path. */
  lemma ExistingPathResolves(cwd: AbsPath, boot: seq<string>, file: ConfigFile, fs: RealpathOracle, requested: string)
    requires var cand := Resolve(cwd, requested);
      && StartsWithAny(EffectiveDirs(boot, file), cand)
      && cand in fs
      && StartsWithAny(EffectiveDirs(boot, file), Resolve(cwd, fs[cand]))
    ensures ValidatePath(cwd, boot, file, fs, requested) == Normal(fs[Resolve(cwd, requested)])
  {
    CandidateIsNormal(cwd, requested);
  }

  /** Once the pre-check passes and the candidate's own realpath check fails,
      for any reason, only the parent directory decides: its real path passing
      the prefix test accepts the unresolved candidate, anything else is
      "parent does not exist". The candidate's entry in the oracle plays no
      further part. */
  lemma FallbackDecidedByParent(cwd: AbsPath, boot: seq<string>, file: ConfigFile, fs: RealpathOracle, requested: string)
    requires var cand, all := Resolve(cwd, requested), EffectiveDirs(boot, file);
      && StartsWithAny(all, cand)
      && (cand !in fs || !StartsWithAny(all, Resolve(cwd, fs[cand])))
    ensures var cand, all := Resolve(cwd, requested), EffectiveDirs(boot, file);
      var parent := Dirname(cand);
      && (parent in fs && StartsWithAny(all, Resolve(cwd, fs[parent])) ==>
            ValidatePath(cwd, boot, file, fs, requested) == Normal(cand))
      && (parent !in fs || !StartsWithAny(all, Resolve(cwd, fs[parent])) ==>
            ValidatePath(cwd, boot, file, fs, requested) == Abrupt(ParentMissing(parent)))
      && ValidatePath(cwd, boot, file, fs, requested) == ValidatePath(cwd, boot, file, fs - {cand}, requested)
  {
    var cand, all := Resolve(cwd, requested), EffectiveDirs(boot, file);
    var parent := Dirname(cand);
    FallsBackToParent(cwd, boot, file, fs, requested);
    FallsBackToParent(cwd, boot, file, fs - {cand}, requested);
    if parent != cand {
      assert parent in fs - {cand} <==> parent in fs;
      assert parent in fs ==> (fs - {cand})[parent] == fs[parent];
    }
    assert TryParent(cwd, all, fs - {cand}, cand).Normal? <==> TryParent(cwd, all, fs, cand).Normal?;
  }

  /** Past the pre-check, a failed first block hands the decision to the
      parent block, whose success returns the candidate unchanged. */
  lemma FallsBackToParent(cwd: AbsPath, boot: seq<string>, file: ConfigFile, fs: RealpathOracle, requested: string)
    requires var cand, all := Resolve(cwd, requested), EffectiveDirs(boot, file);
      && StartsWithAny(all, cand)
      && (cand !in fs || !StartsWithAny(all, Resolve(cwd, fs[cand])))
    ensures var cand, all := Resolve(cwd, requested), EffectiveDirs(boot, file);
      ValidatePath(cwd, boot, file, fs, requested)
        == if TryParent(cwd, all, fs, cand).Normal? then Normal(cand) else Abrupt(ParentMissing(Dirname(cand)))
  {
    CandidateIsNormal(cwd, requested);
    ResolveFromCwd(cwd, requested);
  }

  /** With a well-formed oracle, every accepted result is absolute, and some
      allow-list entry is a string prefix of the result itself or of the
      real path of its parent directory. */
  lemma AcceptedIsPrefixed(cwd: AbsPath, boot: seq<string>, file: ConfigFile, fs: RealpathOracle, requested: string)
    requires WellFormedOracle(fs)
    ensures var c := ValidatePath(cwd, boot, file, fs, requested);
      c.Normal? ==>
        && IsAbsolute(c.value)
        && (|| StartsWithAny(EffectiveDirs(boot, file), c.value)
            || (Dirname(c.value) in fs && StartsWithAny(EffectiveDirs(boot, file), fs[Dirname(c.value)])))
  {
    var c := ValidatePath(cwd, boot, file, fs, requested);
    var cand := Resolve(cwd, requested);
    if c.Normal? {
      if cand in fs {
        ResolveNormal(cwd, fs[cand]);
      }
      if Dirname(cand) in fs {
        ResolveNormal(cwd, fs[Dirname(cand)]);
      }
    }
  }

  /** A new file directly inside a boot directory that exists and is not a
      symlink is accepted as requested. */
  lemma NewFileAccepted(cwd: AbsPath, boot: seq<string>, file: ConfigFile, fs: RealpathOracle, dir: string, name: string)
    requires dir in boot && NormalForm(dir) && IsName(name)
    requires dir in fs && fs[dir] == dir
    requires Child(dir, name) !in fs
    ensures ValidatePath(cwd, boot, file, fs, Child(dir, name)) == Normal(Child(dir, name))
  {
    var p := Child(dir, name);
    ChildIsNormal(dir, name);
    ResolveNormal(cwd, p);
    ResolveNormal(cwd, dir);
    var all := EffectiveDirs(boot, file);
    var i :| 0 <= i < |all| && all[i] == dir;
    assert all[i] <= p;
    assert all[i] <= Resolve(cwd, fs[dir]);
    FallbackDecidedByParent(cwd, boot, file, fs, p);
  }

  /** A symlink inside an allowed directory whose target lies outside every
      allowed directory is accepted through the parent fallback, and the
      unresolved link path is returned. */
  lemma SymlinkEscapes(cwd: AbsPath, boot: seq<string>, file: ConfigFile, fs: RealpathOracle, requested: string)
    requires var cand, all := Resolve(cwd, requested), EffectiveDirs(boot, file);
      && StartsWithAny(all, cand)
      && cand in fs && !StartsWithAny(all, Resolve(cwd, fs[cand]))
      && Dirname(cand) in fs && StartsWithAny(all, Resolve(cwd, fs[Dirname(cand)]))
    ensures ValidatePath(cwd, boot, file, fs, requested) == Normal(Resolve(cwd, requested))
  {
    FallbackDecidedByParent(cwd, boot, file, fs, requested);
  }

  /** A parent directory that exists but lies outside every allowed
      directory is reported as not existing. */
  lemma ParentOutsideReportedMissing(cwd: AbsPath, boot: seq<string>, file: ConfigFile, fs: RealpathOracle, requested: string)
    requires var cand, all := Resolve(cwd, requested), EffectiveDirs(boot, file);
      && StartsWithAny(all, cand)
      && cand !in fs
      && Dirname(cand) in fs && !StartsWithAny(all, Resolve(cwd, fs[Dirname(cand)]))
    ensures ValidatePath(cwd, boot, file, fs, requested) == Abrupt(ParentMissing(Dirname(Resolve(cwd, requested))))
  {
    FallbackDecidedByParent(cwd, boot, file, fs, requested);
  }

  /** The outcome of start-up. */
  datatype Startup =
    | Started(boot: seq<string>, file: ConfigFile)
    | NoArguments
    | NotADirectory(dir: string)

  /** The first argument that `fs.stat` does not report as a directory. */
  function FirstNonDirectory(args: seq<string>, directories: set<string>): (r: Option<string>)
    ensures r.None? <==> forall a :: a in args ==> a in directories
    ensures r.Some? ==> r.value in args && r.value !in directories
  {
    if args == [] then None
    else if args[0] !in directories then Some(args[0])
    else FirstNonDirectory(args[1..], directories)
  }

  /** Start-up: at least one argument, each argument a directory, the boot
      list is the arguments resolved, and it replaces the stored list. */
  function Start(cwd: AbsPath, args: seq<string>, directories: set<string>, file: ConfigFile): (s: Startup)
    ensures s.NoArguments? <==> args == []
    ensures s.Started? <==> args != [] && forall a :: a in args ==> a in directories
    ensures s.NotADirectory? ==> s.dir in args && s.dir !in directories
    ensures s.Started? ==>
      && |s.boot| == |args|
      && (forall i :: 0 <= i < |args| ==> s.boot[i] == Resolve(cwd, args[i]) && IsAbsolute(s.boot[i]))
      && GetAllowedDirectories(s.file) == s.boot
      && ReadConfig(s.file).others == ReadConfig(file).others
  {
    if args == [] then NoArguments
    else
      var allowedDirectories := ResolveAll(cwd, args);
      match FirstNonDirectory(args, directories)
      case Some(dir) => NotADirectory(dir)
      case None =>
        var file' := UpdateAllowedDirectories(file, cwd, allowedDirectories);
        GetAfterUpdate(file, cwd, allowedDirectories);
        ResolveAllIdempotent(cwd, args);
        Started(allowedDirectories, file')
  }

  /** Right after start-up, with no outside edit of the file, the effective
      allow-list is the boot list without repeats. */
  lemma EffectiveDirsAfterStart(cwd: AbsPath, args: seq<string>, directories: set<string>, file: ConfigFile)
    requires Start(cwd, args, directories, file).Started?
    ensures var s := Start(cwd, args, directories, file);
      EffectiveDirs(s.boot, s.file) == Dedupe(s.boot)
  {
    var s := Start(cwd, args, directories, file);
    DedupeRepeated(s.boot);
  }
}
