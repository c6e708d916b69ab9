/** The life of a user's model: sessions are recorded and saved, training keeps the newest of them and
    rebuilds the dictionaries, and later sessions are judged by these. */
module Pipeline {
  import opened Text
  import opened Encoders
  import opened Sessions
  import S = Store
  import M = ModelCache
  import Repl

  /** One login, with everything the outside world does during it. */
  datatype Login = Login(deps: Repl.Deps, oracle: Repl.Oracle, input: string) {
    function End(): Repl.State {
      Repl.RunSession(deps, oracle, input)
    }

    /** What is stored of it. */
    function Record(): Recorded {
      Recorded(oracle.now(0), oracle.now(End().k), End().commands)
    }
  }

  datatype Event = Visit(login: Login) | Train(keep: int)

  /** What the events do to the store: clean, non-empty sessions are saved; each training prunes
      to the number then configured. */
  function Ops(events: seq<Event>): seq<S.Op> {
    if events == [] then []
    else
      Ops(events[..|events| - 1]) +
      match events[|events| - 1]
      case Train(keep) => [S.Prune(keep)]
      case Visit(login) => if Repl.Persisted(login.End()) then [S.Save(login.Record())] else []
  }

  /** The session is the record of a login in these events that stayed valid and recorded commands. */
  ghost predicate PersistedIn(r: Recorded, events: seq<Event>) {
    exists i :: 0 <= i < |events| && Persists(events[i], r)
  }

  predicate Persists(e: Event, r: Recorded) {
    e.Visit? && e.login.End().valid && e.login.End().commands != [] && r == e.login.Record()
  }

  lemma PersistedMore(r: Recorded, events: seq<Event>, e: Event)
    ensures PersistedIn(r, events + [e]) <==> PersistedIn(r, events) || Persists(e, r)
  {
    hide Persists;
    var more := events + [e];
    assert more[|events|] == e && forall i :: 0 <= i < |events| ==> more[i] == events[i];
  }

  lemma EverSavedSnoc(ops: seq<S.Op>, op: S.Op)
    ensures S.EverSaved(ops + [op]) == if op.Save? then S.EverSaved(ops) + [op.r] else S.EverSaved(ops)
  {
    assert (ops + [op])[..|ops|] == ops;
  }

  /** A session is saved if and only if it is the record of a login that stayed valid and recorded
      commands. */
  lemma {:induction false} SavedIffPersisted(events: seq<Event>, r: Recorded)
    ensures r in S.EverSaved(Ops(events)) <==> PersistedIn(r, events)
  {
    if events != [] {
      var front, last := events[..|events| - 1], events[|events| - 1];
      assert events == front + [last];
      SavedIffPersisted(front, r);
      PersistedMore(r, front, last);
      hide PersistedIn, Repl.RunSession;
      var ops := Ops(front);
      match last
      case Train(keep) => EverSavedSnoc(ops, S.Prune(keep));
      case Visit(login) =>
        if Repl.Persisted(login.End()) {
          EverSavedSnoc(ops, S.Save(login.Record()));
        } else {
          assert ops + [] == ops;
        }
    }
  }

  /** What a training run loads after these events when it keeps `keep` sessions. */
  function TrainingSet(events: seq<Event>, keep: int): seq<Recorded> {
    S.Loaded(S.Pruned(S.Run(Ops(events)), keep))
  }

  lemma TrainingSetIsPersisted(events: seq<Event>, keep: int)
    ensures forall r :: r in TrainingSet(events, keep) ==> PersistedIn(r, events)
  {
    var ops := Ops(events);
    hide PersistedIn, S.Loaded, S.Pruned, Ops;
    assert (ops + [S.Prune(keep)])[..|ops|] == ops;
    EverSavedSnoc(ops, S.Prune(keep));
    S.LoadedWereSaved(ops + [S.Prune(keep)]);
    forall r | r in TrainingSet(events, keep)
      ensures PersistedIn(r, events)
    {
      SavedIffPersisted(events, r);
    }
  }

  /** The session is the record of a login in these events: its commands are exactly the login's
      successful runs, and every hard line that ran had been passed before, right after a password that was
      accepted. */
  ghost predicate AuthorisedIn(r: Recorded, events: seq<Event>) {
    exists i :: 0 <= i < |events| && events[i].Visit? &&
                r.startTS == events[i].login.oracle.now(0) &&
                r.endTS == events[i].login.oracle.now(events[i].login.End().k) &&
                r.commands == events[i].login.End().commands &&
                Repl.RawLines(r.commands) == Repl.Succeeded(events[i].login.End().log) &&
                Repl.PassedByPassword(events[i].login.End().log) &&
                Repl.HardRunsPassed(events[i].login.End().log)
  }

  lemma PersistedIsAuthorised(r: Recorded, events: seq<Event>)
    ensures PersistedIn(r, events) ==> AuthorisedIn(r, events)
  {
    hide Repl.HardRunsPassed, Repl.PassedByPassword, Repl.RunSession;
    if PersistedIn(r, events) {
      var i :| 0 <= i < |events| && Persists(events[i], r);
      var l := events[i].login;
      Repl.SavedSessionsAreAuthorised(l.deps, l.oracle, l.input);
    }
  }

  /** Models learn only from authorised behaviour: over every history of logins and trainings, however
      many sessions each of them keeps, each session that a training run loads is authorised. */
  lemma TrainingSeesOnlyAuthorisedSessions(events: seq<Event>, keep: int)
    ensures forall r :: r in TrainingSet(events, keep) ==> AuthorisedIn(r, events)
  {
    TrainingSetIsPersisted(events, keep);
    hide PersistedIn, AuthorisedIn, TrainingSet;
    forall r | r in TrainingSet(events, keep)
      ensures AuthorisedIn(r, events)
    {
      PersistedIsAuthorised(r, events);
    }
  }

  // ----- users without a model

  /** The score of a user without a model reads as normal, like a missing score, if and only if both
      thresholds lie below it. */
  lemma NoModelReadsAsNormal(softThr: real, hardThr: real)
    ensures Repl.Decide(None, softThr, hardThr) == SevNone
    ensures Repl.Decide(Some(M.NO_MODEL_SCORE), softThr, hardThr) == SevNone <==>
            softThr < 1000000000.0 && hardThr < 1000000000.0
  {
  }

  // ----- training rows

  /** The dictionaries that training on these sessions publishes. */
  function Trained(ss: seq<Recorded>, country: string -> string): Dicts {
    DictsOf(RowsOf(country, AllCommands(ss)))
  }

  lemma {:induction false} CommandsAreCollected(ss: seq<Recorded>, r: Recorded, c: CommandRecord)
    requires r in ss && c in r.commands
    ensures c in AllCommands(ss)
  {
    var front, last := ss[..|ss| - 1], ss[|ss| - 1];
    if r != last {
      assert r in front by {
        assert ss == front + [last];
      }
      CommandsAreCollected(front, r, c);
    }
  }

  /** A command the model was trained on is never escalated by the novelty gate: in any later session
      from the same country its severity is what rules and model say, and no novelty alert is sent. */
  lemma TrainedCommandsAreNotNovel(ss: seq<Recorded>, r: Recorded, c: CommandRecord, country: string -> string,
                                   d: Repl.Deps, o: Repl.Oracle, st: Repl.State, secs: int)
    requires r in ss && c in r.commands
    requires d.dicts == Trained(ss, country) && d.country == country(c.ip)
    ensures var outcome := Repl.R.CheckOf(d.rules, c.rawCmd, d.country, secs);
            var (sev, st1) := Repl.RuleSeverity(d, o, st, c.rawCmd, outcome);
            Repl.Assess(d, o, st, c.rawCmd, secs) == (sev, st1.Log(Repl.Evaluated(c.rawCmd, sev)))
  {
    CommandsAreCollected(ss, r, c);
    var all := AllCommands(ss);
    var i :| 0 <= i < |all| && all[i] == c;
    var rows := RowsOf(country, all);
    assert rows[i] == RowOf(country, c);
    TrainingRowsAreNeverNovel(rows, i, d.novelty);
    hide DictsOf, SplitCommand, DetectPath, NoveltySeverity, Repl.R.CheckOf, Repl.RuleSeverity;
  }

  /** Every command of every login is trained on exactly as it was scored: under the dictionaries of
      that login and the same country, its matrix row is the vector the daemon was sent. */
  lemma LoginsTrainAsScored(l: Login, country: string -> string)
    requires country(l.deps.ip) == l.deps.country
    ensures forall i :: 0 <= i < |l.End().commands| ==>
              TrainsAsScored(l.End().commands[i], country, l.deps.dicts)
  {
    Repl.SessionsRecordWell(l.deps, l.oracle, l.input);
    hide Repl.RunSession;
    var cs := l.End().commands;
    forall i | 0 <= i < |cs|
      ensures TrainsAsScored(cs[i], country, l.deps.dicts)
    {
      RecordTrainsAsScored(l.deps, cs[i], country);
    }
  }

  predicate TrainsAsScored(c: CommandRecord, country: string -> string, d: Dicts) {
    DaemonVector(FeatureFields(c.feat)) == Some(MatrixRow(RowOf(country, c), d))
  }

  lemma RecordTrainsAsScored(deps: Repl.Deps, c: CommandRecord, country: string -> string)
    requires country(deps.ip) == deps.country && Repl.RecordedWell(deps, c)
    ensures TrainsAsScored(c, country, deps.dicts)
  {
    hide DaemonVector, FeatureFields, MatrixRow, SplitCommand, BuildFeature;
    TrainServeAgreement(RowOf(country, c), deps.dicts);
  }
}
