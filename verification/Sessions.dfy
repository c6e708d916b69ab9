/** Recorded sessions. */
module Sessions {
  import opened Encoders

  datatype CommandRecord = CommandRecord(ts: int, feat: Feature, rawCmd: string, ip: string)

  /** A session as it is stored and loaded. */
  datatype Recorded = Recorded(startTS: int, endTS: int, commands: seq<CommandRecord>)

  class Session {
    var startTS: int
    var endTS: int
    var commands: seq<CommandRecord>
    var valid: bool

    constructor (startTS: int)
      ensures this.startTS == startTS && endTS == 0 && commands == [] && valid
    {
      this.startTS, endTS, commands, valid := startTS, 0, [], true;
    }

    method Add(rec: CommandRecord)
      modifies this`commands
      ensures commands == old(commands) + [rec]
    {
      commands := commands + [rec];
    }
  }

  // ----- flattening for training

  /** The training row of a stored command; the time and spacing features are reused as stored. */
  function RowOf(country: string -> string, c: CommandRecord): TrainRow {
    TrainRow(c.rawCmd, country(c.ip), c.feat.timeCos, c.feat.timeSin, c.feat.secsSinceLast)
  }

  function RowsOf(country: string -> string, cs: seq<CommandRecord>): seq<TrainRow> {
    seq(|cs|, i requires 0 <= i < |cs| => RowOf(country, cs[i]))
  }

  function AllCommands(ss: seq<Recorded>): seq<CommandRecord> {
    if ss == [] then [] else AllCommands(ss[..|ss| - 1]) + ss[|ss| - 1].commands
  }

  /** One row per stored command, sessions and commands in order. */
  method FlattenRows(ss: seq<Recorded>, country: string -> string) returns (rows: seq<TrainRow>)
    ensures rows == RowsOf(country, AllCommands(ss))
  {
    rows := [];
    for i := 0 to |ss|
      invariant rows == RowsOf(country, AllCommands(ss[..i]))
    {
      var cs := ss[i].commands;
      ghost var before := rows;
      for j := 0 to |cs|
        invariant rows == before + RowsOf(country, cs[..j])
      {
        assert RowsOf(country, cs[..j + 1]) == RowsOf(country, cs[..j]) + [RowOf(country, cs[j])];
        rows := rows + [RowOf(country, cs[j])];
      }
      assert cs[..|cs|] == cs;
      assert ss[..i + 1][..i] == ss[..i];
      assert RowsOf(country, AllCommands(ss[..i]) + cs) == RowsOf(country, AllCommands(ss[..i])) + RowsOf(country, cs);
    }
    assert ss[..|ss|] == ss;
  }

  /** A command is trained on exactly as it was scored: with the dictionaries of the session and the
      same country, its matrix row is the vector the daemon built from its feature. */
  lemma StoredCommandsTrainAsScored(d: Dicts, timeCos: real, timeSin: real, geo: string -> string,
                                    line: string, ip: string, ts: int, secs: int)
    ensures var (cmd, args) := SplitCommand(line);
            var feat := BuildFeature(d, timeCos, timeSin, geo(ip), cmd, args, secs);
            DaemonVector(FeatureFields(feat)).Some? &&
            DaemonVector(FeatureFields(feat)).value == MatrixRow(RowOf(geo, CommandRecord(ts, feat, line, ip)), d)
  {
    TrainServeAgreement(TrainRow(line, geo(ip), timeCos, timeSin, secs), d);
  }
}
