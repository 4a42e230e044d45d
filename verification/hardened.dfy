/** The gate as its own error messages say it should behave: containment on
    segment boundaries, a symlink whose target is outside is denied, only a
    candidate whose realpath fails falls back to its parent, and a parent
    outside the allow-list is denied rather than reported missing. */
module Hardened {
  import opened Paths
  import opened AllowList
  import opened ConfigStore
  import opened Validator

  function ValidatePathHardened(cwd: AbsPath, boot: seq<string>, file: ConfigFile, fs: RealpathOracle, requested: string): (c: Completion)
    ensures var cand, all := Resolve(cwd, requested), EffectiveDirs(boot, file);
      c.Normal? ==>
        && WithinAny(all, cand)
        && (cand in fs ==> c.value == fs[cand] && WithinAny(all, Resolve(cwd, fs[cand])))
        && (cand !in fs ==>
              c.value == cand && Dirname(cand) in fs && WithinAny(all, Resolve(cwd, fs[Dirname(cand)])))
    ensures var cand, all := Resolve(cwd, requested), EffectiveDirs(boot, file);
      WithinAny(all, cand) && cand in fs && !WithinAny(all, Resolve(cwd, fs[cand])) ==>
        c == Abrupt(SymlinkTargetOutside)
    ensures var cand, all := Resolve(cwd, requested), EffectiveDirs(boot, file);
      var parent := Dirname(cand);
      WithinAny(all, cand) && cand !in fs && parent in fs && !WithinAny(all, Resolve(cwd, fs[parent])) ==>
        c == Abrupt(ParentOutside)
  {
    var absolute := Resolve(cwd, requested);
    var all := EffectiveDirs(boot, file);
    if !WithinAny(all, absolute) then
      Abrupt(OutsideAllowed(absolute, all))
    else
      match Realpath(fs, absolute)
      case Normal(realPath) =>
        if WithinAny(all, Resolve(cwd, realPath)) then Normal(realPath)
        else Abrupt(SymlinkTargetOutside)
      case Abrupt(_) =>
        var parentDir := Dirname(absolute);
        match Realpath(fs, parentDir)
        case Abrupt(_) => Abrupt(ParentMissing(parentDir))
        case Normal(realParentPath) =>
          if WithinAny(all, Resolve(cwd, realParentPath)) then Normal(absolute)
          else Abrupt(ParentOutside)
  }

  /** With a well-formed oracle, what the corrected gate accepts really lives
      inside the allow-list: an existing candidate's real path, or a new
      candidate's parent's real path, has an allow-list entry as a whole
      leading run of segments. */
  lemma HardenedConfines(cwd: AbsPath, boot: seq<string>, file: ConfigFile, fs: RealpathOracle, requested: string)
    requires WellFormedOracle(fs)
    ensures var c, cand, all := ValidatePathHardened(cwd, boot, file, fs, requested), Resolve(cwd, requested), EffectiveDirs(boot, file);
      c.Normal? ==>
        && (cand in fs ==> c.value == fs[cand] && WithinAny(all, fs[cand]))
        && (cand !in fs ==> c.value == cand && Dirname(cand) in fs && WithinAny(all, fs[Dirname(cand)]))
  {
    var cand := Resolve(cwd, requested);
    if cand in fs {
      ResolveNormal(cwd, fs[cand]);
    }
    if Dirname(cand) in fs {
      ResolveNormal(cwd, fs[Dirname(cand)]);
    }
  }

  /** The corrected gate only narrows the original: whatever it accepts, the
      original accepts with the same result. */
  lemma HardenedOnlyNarrows(cwd: AbsPath, boot: seq<string>, file: ConfigFile, fs: RealpathOracle, requested: string)
    ensures var c := ValidatePathHardened(cwd, boot, file, fs, requested);
      c.Normal? ==> ValidatePath(cwd, boot, file, fs, requested) == c
  {
    var c := ValidatePathHardened(cwd, boot, file, fs, requested);
    var cand, all := Resolve(cwd, requested), EffectiveDirs(boot, file);
    WithinIsStricter(all, cand);
    if cand in fs {
      WithinIsStricter(all, Resolve(cwd, fs[cand]));
      if c.Normal? {
        ExistingPathResolves(cwd, boot, file, fs, requested);
      }
    } else if Dirname(cand) in fs {
      WithinIsStricter(all, Resolve(cwd, fs[Dirname(cand)]));
      if c.Normal? {
        FallbackDecidedByParent(cwd, boot, file, fs, requested);
      }
    }
  }

  /** On an allow-list of normal-form directories and a normal-form path, the
      corrected containment test holds exactly when some entry's segments
      lead the path's segments. */
  lemma WithinAnyIsSegmentPrefix(dirs: seq<string>, p: string)
    requires forall i :: 0 <= i < |dirs| ==> NormalForm(dirs[i])
    requires NormalForm(p)
    ensures WithinAny(dirs, p) <==> exists i :: 0 <= i < |dirs| && Pieces(dirs[i]) <= Pieces(p)
  {
    forall i | 0 <= i < |dirs|
      ensures Within(dirs[i], p) <==> Pieces(dirs[i]) <= Pieces(p)
    {
      WithinIffSegmentPrefix(Pieces(dirs[i]), Pieces(p));
    }
  }
}
