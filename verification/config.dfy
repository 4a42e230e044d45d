/** `ConfigManager`: the persisted allow-list record. The file is abstracted
    to the value it parses to; reading and writing are pure functions of that
    value, so no read can change it. */
module ConfigStore {
  import opened Optional
  import opened Paths

  /** The parsed record (`ClaudeDesktopConfig`): the optional
      `allowedDirectories` array, and every other top-level field kept as
      opaque serialised text so that writing the record back preserves it. */
  datatype Config = Config(allowedDirectories: Option<seq<string>>, others: map<string, string>)

  /** The persisted file: `None` when it is missing, unreadable or does not
      parse; `Some(c)` when it parses to `c`. */
  type ConfigFile = Option<Config>

  /** `readConfig`: the parsed record, or `{ allowedDirectories: [] }` when
      the file cannot be read or parsed. */
  function ReadConfig(file: ConfigFile): (c: Config)
    ensures file.None? ==> c.allowedDirectories == Some([]) && c.others == map[]
    ensures file.Some? ==> c == file.value
  {
    match file
    case Some(parsed) => parsed
    case None => Config(Some([]), map[])
  }

  /** `writeConfig`: replaces the whole file with the serialised record. */
  function WriteConfig(file: ConfigFile, config: Config): (file': ConfigFile)
    ensures ReadConfig(file') == config
  {
    Some(config)
  }

  /** `updateAllowedDirectories`: reads the record, replaces its
      `allowedDirectories` with the resolved inputs, and writes the same
      record back. */
  function UpdateAllowedDirectories(file: ConfigFile, cwd: AbsPath, dirs: seq<string>): (file': ConfigFile)
    ensures file'.Some?
    ensures ReadConfig(file').others == ReadConfig(file).others
    ensures ReadConfig(file').allowedDirectories.Some?
    ensures var stored := ReadConfig(file').allowedDirectories.value;
      && |stored| == |dirs|
      && forall i :: 0 <= i < |dirs| ==> stored[i] == Resolve(cwd, dirs[i]) && IsAbsolute(stored[i])
  {
    var config := ReadConfig(file);
    WriteConfig(file, config.(allowedDirectories := Some(ResolveAll(cwd, dirs))))
  }

  /** `getAllowedDirectories`: the stored list, or `[]` when the field is
      absent. */
  function GetAllowedDirectories(file: ConfigFile): (dirs: seq<string>)
    ensures ReadConfig(file).allowedDirectories.None? ==> dirs == []
    ensures ReadConfig(file).allowedDirectories.Some? ==> dirs == ReadConfig(file).allowedDirectories.value
  {
    match ReadConfig(file).allowedDirectories
    case Some(stored) => stored
    case None => []
  }

  /** A missing or unparseable file reads as an empty allow-list. */
  lemma MissingFileIsEmpty()
    ensures GetAllowedDirectories(None) == []
    ensures ReadConfig(None).allowedDirectories == Some([])
  {
  }

  /** After an update, the stored list is the resolved input list, and it
      reads back as such. */
  lemma GetAfterUpdate(file: ConfigFile, cwd: AbsPath, dirs: seq<string>)
    ensures GetAllowedDirectories(UpdateAllowedDirectories(file, cwd, dirs)) == ResolveAll(cwd, dirs)
  {
  }

  /** Updating with a list that is already resolved stores the same record as
      updating with the raw list; in particular a second identical update is
      a no-op. */
  lemma UpdateWithResolvedList(file: ConfigFile, cwd: AbsPath, dirs: seq<string>)
    ensures UpdateAllowedDirectories(file, cwd, ResolveAll(cwd, dirs)) == UpdateAllowedDirectories(file, cwd, dirs)
    ensures var once := UpdateAllowedDirectories(file, cwd, dirs);
      UpdateAllowedDirectories(once, cwd, dirs) == once
  {
    ResolveAllIdempotent(cwd, dirs);
  }

  /** The store's operations, as a caller issues them. */
  datatype Op = Read | Write(config: Config) | Update(dirs: seq<string>) | Get

  datatype Reply = ConfigReply(config: Config) | DirsReply(dirs: seq<string>) | Done

  predicate IsQuery(op: Op) {
    op.Read? || op.Get?
  }

  /** One operation against the file: the file afterwards and the reply. */
  function Step(file: ConfigFile, cwd: AbsPath, op: Op): (ConfigFile, Reply) {
    match op
    case Read => (file, ConfigReply(ReadConfig(file)))
    case Write(c) => (WriteConfig(file, c), Done)
    case Update(ds) => (UpdateAllowedDirectories(file, cwd, ds), Done)
    case Get => (file, DirsReply(GetAllowedDirectories(file)))
  }

  /** A sequence of operations, issued one after another. */
  function Run(file: ConfigFile, cwd: AbsPath, ops: seq<Op>): (r: (ConfigFile, seq<Reply>))
    ensures |r.1| == |ops|
    decreases |ops|
  {
    if ops == [] then (file, [])
    else
      var (file', reply) := Step(file, cwd, ops[0]);
      var (final, replies) := Run(file', cwd, ops[1..]);
      (final, [reply] + replies)
  }

  /** Reads and gets leave the file as it was, and as long as nothing writes,
      every read returns the same record and every get the same list. */
  lemma {:induction false} QueriesAreStable(file: ConfigFile, cwd: AbsPath, ops: seq<Op>)
    requires forall i :: 0 <= i < |ops| ==> IsQuery(ops[i])
    ensures Run(file, cwd, ops).0 == file
    ensures forall i :: 0 <= i < |ops| ==>
      Run(file, cwd, ops).1[i] ==
        if ops[i].Read? then ConfigReply(ReadConfig(file)) else DirsReply(GetAllowedDirectories(file))
    decreases |ops|
  {
    if ops != [] {
      assert IsQuery(ops[0]);
      QueriesAreStable(file, cwd, ops[1..]);
      var replies := Run(file, cwd, ops).1;
      assert replies[1..] == Run(file, cwd, ops[1..]).1;
      forall i | 1 <= i < |ops|
        ensures replies[i] == Run(file, cwd, ops[1..]).1[i - 1]
      {
      }
    }
  }

  /** A write followed by a read returns what was written, whatever reads or
      gets come in between. */
  lemma WriteThenRead(file: ConfigFile, cwd: AbsPath, config: Config, queries: seq<Op>)
    requires forall i :: 0 <= i < |queries| ==> IsQuery(queries[i])
    ensures Run(file, cwd, [Write(config)] + queries + [Read]).1[|queries| + 1] == ConfigReply(config)
  {
    var ops := [Write(config)] + queries + [Read];
    var written := WriteConfig(file, config);
    assert ops[1..] == queries + [Read];
    QueriesAreStable(written, cwd, queries + [Read]);
  }
}
