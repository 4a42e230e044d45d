# Filesystem server allow-list gate — a Dafny model

The filesystem server of the MCP servers collection exposes file operations
to an assistant and confines them to a list of allowed directories. This
project models the part that decides what is allowed:

- **start-up** (`src/filesystem/index.ts`): the command-line directories are
  resolved to absolute paths, checked to be directories, and written into the
  config store, replacing the stored list;
- **`validatePath`** (`src/filesystem/index.ts`): the requested path is
  resolved against the working directory. The effective allow-list is the
  boot list followed by the stored list, without repeats. The candidate must
  pass a string-prefix pre-check. Then `fs.realpath` is consulted, falling
  back to the parent directory inside a `catch`;
- **`ConfigManager`** (`src/filesystem/config.ts`): one persisted record with
  an optional `allowedDirectories` list. It supports read with defaulting,
  wholesale write, update of the list, and get with defaulting.

Everything is pure functions over immutable values:

- Paths are strings. `path.resolve` and `path.dirname` are modelled on the
  POSIX rules (`Paths`).
- `fs.realpath` is a map from the paths that resolve to their real paths
  (`Validator.RealpathOracle`). A missing key means `realpath` rejects.
- The config file is `Option<Config>`. `None` means missing, unreadable or
  unparseable (`ConfigStore`).
- The working directory is a parameter. So is the set of arguments that
  `fs.stat` reports as directories.
- A `throw` is the `Abrupt` case of `Validator.Completion`. Each `try` block
  is its own function, so the model keeps the code's catch nesting.

The gate is modelled **as written** (`Validator`), with these behaviours:

- Start-up writes the resolved boot list into the config file, replacing
  whatever list was stored there (`src/filesystem/config.ts:27`, called
  from `src/filesystem/index.ts:42`). The effective list at validation time
  is the boot list followed by that stored list.
- Containment is `startsWith`, with no segment boundary.
- A symlink whose target is outside is not denied: the denial thrown at
  line 68 is caught at line 71.
- A parent outside the list is reported as missing: the denial thrown at
  line 79 is caught at line 82.
- Any `realpath` failure takes the parent fallback, not only the "file does
  not exist yet" case the comment at line 72 names.
- The access-denied error carries `absolute`.
- An accepted existing path is returned as `fs.realpath` gave it. The prefix
  test runs on its re-resolved form.

Three of these contradict the server's own error messages: the `startsWith`
containment, the caught symlink denial and the caught parent denial. They
are the rows under Findings. A corrected gate is in `Hardened`, and worked
examples of each are in `Scenarios`.

## Model

| member | source | states |
|---|---|---|
| Paths.IsAbsolute | src/filesystem/index.ts:46 | `path.isAbsolute` on POSIX: the path starts with a slash. It has no contract of its own; Paths.ResolveFromCwd and the contract of Paths.Resolve state what each arm of the ternary does with it |
| Paths.Resolve | src/filesystem/index.ts:46-50 | the resolved candidate is absolute and in normal form: no empty, `.` or `..` segment and no trailing slash; an absolute input does not depend on the working directory |
| Paths.Collapse | src/filesystem/index.ts:46-50 | collapsing over split pieces leaves only proper names, never grows the list, and pushes proper names unchanged |
| Paths.PiecesOfRender | src/filesystem/index.ts:46-50 | splitting a rendered segment list gives the list back, so a normal-form path has exactly one segment reading |
| Paths.PiecesOfSlash | src/filesystem/index.ts:46-50 | splitting `s + "/" + t` gives the pieces of `s` followed by the pieces of `t`, for every `s` and `t` |
| Paths.ResolveBelow | src/filesystem/index.ts:46-50 | resolving `t` below a normal-form `p` collapses the pieces of `t` on top of the segments of `p` |
| Paths.ParentSegment | src/filesystem/index.ts:46-50 | `p/..` resolves to `path.dirname(p)` for every normal-form `p`; at the root `..` stays at the root |
| Paths.CurrentSegment | src/filesystem/index.ts:46-50 | `p/.` resolves to `p` |
| Paths.TrailingSlash | src/filesystem/index.ts:46-50 | `p/` resolves to `p`: a trailing slash, and the empty piece it leaves, vanish |
| Paths.NameSegment | src/filesystem/index.ts:46-50 | `p/name` resolves to the child one level below `p` for every proper name |
| Paths.CollapseAppend | src/filesystem/index.ts:46-50 | collapsing `a + b` equals collapsing `b` on top of the result for `a`, for every stack and piece lists: the single-piece rules compose, so `..` after `..` climbs two levels |
| Paths.ResolveStep | src/filesystem/index.ts:46-50 | `p/s/t` resolves to `t` resolved below the resolution of `p/s`, for every normal-form `p` and any `s` and `t` |
| Paths.ResolveNormal | src/filesystem/index.ts:50 | a path already in normal form resolves to itself under every working directory |
| Paths.ResolveIdempotent | src/filesystem/index.ts:50 | resolving twice equals resolving once, which is why `normalizedRequested` equals `absolute` |
| Paths.ResolveFromCwd | src/filesystem/index.ts:46-48 | both arms of the ternary give the same path: `path.resolve(p)`, and `path.resolve(process.cwd(), p)`, which reads a relative `p` below the working directory |
| Paths.ResolveAll | src/filesystem/index.ts:23-25 | the list keeps its length and order; entry `i` is argument `i` resolved, absolute and normal |
| Paths.ResolveAllIdempotent | src/filesystem/config.ts:27 | resolving an already resolved list changes nothing |
| Paths.Dirname | src/filesystem/index.ts:73 | Node's POSIX `path.dirname`: for an absolute path the result is absolute and a leading part of it; a relative path without a slash gives `.`. What it drops is stated by Paths.DirnameOfRender |
| Paths.DirnameOfRender | src/filesystem/index.ts:73 | `path.dirname` of a normal-form path drops exactly its last segment; the root is its own parent |
| Paths.ChildIsNormal | src/filesystem/index.ts:73 | a name below a normal-form path is again normal, and `path.dirname` gives the path back |
| AllowList.Dedupe | src/filesystem/index.ts:54 | the merged list has exactly the members of the concatenation, none twice |
| AllowList.DedupeAppend | src/filesystem/index.ts:54 | the deduplicated boot list is a prefix of the merged list; every later entry comes from the stored list and is not a boot entry |
| AllowList.DedupeDistinct | src/filesystem/index.ts:54 | a list without repeats is its own deduplication |
| AllowList.DedupeAbsorbs | src/filesystem/index.ts:54 | appending entries that are already present leaves the merged list unchanged |
| AllowList.DedupeRepeated | src/filesystem/index.ts:54 | a stored list equal to the boot list adds nothing to it |
| AllowList.MergeAllowed | src/filesystem/index.ts:54 | building the `Set` in insertion order yields the deduplicated concatenation, boot entries first, with exactly the boot and stored members |
| AllowList.StartsWithAny | src/filesystem/index.ts:57 | `dirs.some(dir => p.startsWith(dir))`, the test at lines 57, 66 and 77. It has no contract of its own; AllowList.WithinIsStricter and AllowList.PrefixAdmitsSibling state how it relates to segment containment |
| AllowList.WithinIsStricter | src/filesystem/index.ts:57 | the segment-boundary test never admits a path the `startsWith` test rejects |
| AllowList.PrefixAdmitsSibling | src/filesystem/index.ts:57 | with allowed `/a/b`, `/a/bc/f` passes `startsWith` but not the segment-boundary test |
| AllowList.WithinIffSegmentPrefix | src/filesystem/index.ts:57 | on normal-form paths the segment-boundary test holds exactly when the directory's segments lead the path's segments |
| ConfigStore.ReadConfig | src/filesystem/config.ts:11-18 | a missing or unparseable file reads as `{ allowedDirectories: [] }`; a parsed file reads as its record |
| ConfigStore.MissingFileIsEmpty | src/filesystem/config.ts:12-17 | with no usable file, the record has an empty list and `getAllowedDirectories` returns `[]` |
| ConfigStore.WriteConfig | src/filesystem/config.ts:20-23 | reading after a write returns exactly the written record |
| ConfigStore.UpdateAllowedDirectories | src/filesystem/config.ts:25-29 | afterwards the stored list has the inputs' length and order, each entry is the input resolved and absolute, and every other field of the record read is kept |
| ConfigStore.GetAllowedDirectories | src/filesystem/config.ts:31-34 | the stored list when the field is present, `[]` when it is absent |
| ConfigStore.GetAfterUpdate | src/filesystem/config.ts:25-34 | after an update, get returns the inputs mapped through `path.resolve` |
| ConfigStore.UpdateWithResolvedList | src/filesystem/config.ts:27 | updating with pre-resolved inputs stores the same record as with the raw ones, and a repeated identical update changes nothing |
| ConfigStore.QueriesAreStable | src/filesystem/config.ts:11-18 | reads and gets do not change the file; with no write between them, every read returns the same record and every get the same list |
| ConfigStore.WriteThenRead | src/filesystem/config.ts:13-23 | a write followed, after any reads and gets, by a read returns the written record |
| Validator.EffectiveDirs | src/filesystem/index.ts:53-54 | the effective list has exactly the boot and stored members, no duplicates, and the boot entries first |
| Validator.ValidatePath | src/filesystem/index.ts:45-86 | it denies as outside the allowed directories, with the candidate and the list, exactly when no entry is a string prefix of the candidate; the only other failure is parent missing; an accepted result is either the candidate's real path, whose resolved form passes the prefix test, or the candidate itself, whose parent's resolved real path passes it |
| Validator.TryRealpath | src/filesystem/index.ts:63-70 | the first block returns exactly when the candidate exists and its resolved real path passes the prefix test, and then returns the real path |
| Validator.TryParent | src/filesystem/index.ts:73-81 | the parent block returns exactly when the parent exists and its resolved real path passes the prefix test, and then returns the unresolved candidate |
| Validator.FallsBackToParent | src/filesystem/index.ts:71-84 | past the pre-check, a failed first block leaves the result to the parent block: the candidate if it returns, otherwise parent missing |
| Validator.CandidateIsNormal | src/filesystem/index.ts:46-50 | the candidate is absolute, and resolving it again gives it back |
| Validator.PrecheckDenies | src/filesystem/index.ts:56-60 | the result is the access-denied failure with the candidate and the list exactly when no entry is a string prefix of the candidate; that outcome is the same for every realpath oracle |
| Validator.ExistingPathResolves | src/filesystem/index.ts:63-70 | an existing candidate whose real path passes the prefix test validates to its real path |
| Validator.FallbackDecidedByParent | src/filesystem/index.ts:71-84 | after the pre-check, a candidate that is missing or whose real path fails the prefix test is decided by its parent alone: accepted as the candidate when the parent's real path passes, otherwise parent missing; the candidate's own oracle entry is irrelevant |
| Validator.AcceptedIsPrefixed | src/filesystem/index.ts:57-81 | with a well-formed oracle, every accepted result is absolute and some entry is a string prefix of it or of its parent's real path |
| Validator.NewFileAccepted | src/filesystem/index.ts:72-81 | a new file directly inside an existing, non-symlinked boot directory is accepted as requested |
| Validator.SymlinkEscapes | src/filesystem/index.ts:63-81 | a candidate whose real path fails the prefix test, under a parent that passes it, is accepted as the unresolved candidate |
| Validator.ParentOutsideReportedMissing | src/filesystem/index.ts:74-84 | a missing candidate whose existing parent resolves outside every entry is reported as parent missing, not as access denied |
| Validator.FirstNonDirectory | src/filesystem/index.ts:28-39 | there is no failing argument exactly when every argument is a directory; a reported one is an argument that is not |
| Validator.Start | src/filesystem/index.ts:16-42 | start-up succeeds exactly when there are arguments and all are directories; the boot list is the arguments resolved, and the stored list then equals it, other config fields kept |
| Validator.EffectiveDirsAfterStart | src/filesystem/index.ts:42-54 | right after start-up, the effective list is the boot list without repeats |
| Hardened.ValidatePathHardened | src/filesystem/index.ts:56-84 | corrected gate: an accepted candidate is inside an entry on segment boundaries, and so is its real path or its parent's; a symlink target outside is denied; a parent outside is denied |
| Hardened.HardenedConfines | src/filesystem/index.ts:62-81 | with a well-formed oracle, the corrected gate's result has its real location, or its parent's, inside an allowed directory |
| Hardened.HardenedOnlyNarrows | src/filesystem/index.ts:56-84 | whatever the corrected gate accepts, the original accepts with the same result |
| Hardened.WithinAnyIsSegmentPrefix | src/filesystem/index.ts:57 | on normal-form entries and path, the corrected containment holds exactly when some entry's segments lead the path's |
| Scenarios.SymlinkEscapeExample | src/filesystem/index.ts:63-81 | allow-list `/a`, `/a/link` pointing at `/etc`: the original accepts `/a/link`, the corrected gate denies it |
| Scenarios.ParentOutsideExample | src/filesystem/index.ts:74-84 | allow-list `/a`, `/a/d` pointing at `/etc`: for `/a/d/f` the original reports parent `/a/d` missing, the corrected gate denies access |
| Scenarios.SiblingPrefixExample | src/filesystem/index.ts:57-81 | allow-list `/a/b`, existing `/a/bc`: the original accepts `/a/bc/f`, the corrected gate denies it at the pre-check |

## Left out

- Paths.Resolve: its own contract states only the shape of the result. Paths.ParentSegment, Paths.CurrentSegment, Paths.TrailingSlash and Paths.NameSegment state what a single `..`, `.`, empty piece or name does. Paths.ResolveBelow, Paths.CollapseAppend and Paths.ResolveStep state that these steps compose, piece after piece.
- Paths.Collapse: its own contract states only that the output is proper names. The meaning of each kind of piece, and the composition of pieces, is stated by the lemmas on the line above.

- The MCP `Server`, stdio transport, request schemas and zod conversion (`src/filesystem/index.ts:3-13`) are transport and library plumbing. The tool handlers after line 86 are not part of this model.
- Console output and `process.exit` become the `Startup` outcomes `NoArguments` and `NotADirectory`.
- Validator.FirstNonDirectory: it reports the first failing argument in order. The source stats all arguments concurrently and exits on whichever failure comes first.
- `fs.stat` is reduced to the set of arguments it reports as directories. Its error kinds are not modelled.
- The real filesystem behind `fs.realpath`, `fs.readFile`, `fs.writeFile` and `fs.mkdir` is reduced to the oracle map and the `Option<Config>` value. A failing `mkdir` or `writeFile` is not modelled: the update always succeeds.
- The hard-coded config path (`src/filesystem/config.ts:9`) is not modelled.
- JSON text, formatting and `JSON.parse` are treated as an exact round trip. Other top-level fields are kept as opaque text.
- Parse results that are not an object are not modelled. For JSON `null`, reading a field throws.
- An `allowedDirectories` value that is not an array of strings is not modelled. For example, a string would be spread into single characters.
- Async sequencing, concurrent requests, and the gap between validation and use (TOCTOU) are not modelled.
- Error message wording is not modelled. Only the failure kind and its payload are kept.
- `realpath` failures are not told apart, because the source does not tell them apart either. Every failure goes to the same `catch`.
- Windows path rules are not modelled.

## Findings

| source | as written | input that shows it | evidently intended | confidence | as-written member | corrected member |
|---|---|---|---|---|---|---|
| src/filesystem/index.ts:63-71 | the "symlink target outside allowed directories" error is thrown inside the `try` whose own `catch` handles it by checking only the parent | allow-list `/a`, `/a/link` a symlink to `/etc`, request `/a/link`: accepted as `/a/link` | access denied, as the thrown message says | high; not executed | Scenarios.SymlinkEscapeExample | Hardened.ValidatePathHardened |
| src/filesystem/index.ts:74-83 | the "parent directory outside allowed directories" error is caught by the `catch` at line 82 and rethrown as "Parent directory does not exist" | allow-list `/a`, `/a/d` a symlink to the directory `/etc`, request `/a/d/f`: rejected as parent `/a/d` missing | access denied for a parent outside the list | high; not executed | Scenarios.ParentOutsideExample | Hardened.ValidatePathHardened |
| src/filesystem/index.ts:57 | containment is `startsWith`, with no segment boundary | allow-list `/a/b`, existing directory `/a/bc`, request `/a/bc/f`: accepted | only paths equal to or below an allowed directory | medium; not executed | Scenarios.SiblingPrefixExample | Hardened.ValidatePathHardened |
