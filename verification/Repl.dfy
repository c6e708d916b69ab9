/** The command loop of a session: rules, model and novelty decide a severity, hard commands ask for a
    one-time password, commands run and are recorded.

    The outside world answers through an `Oracle`; every answer is arbitrary.  `log` lists in order
    what the loop does towards the outside: alerts it tries to send, passwords it has validated,
    commands it runs; and, as an observation, the severity it settles on for each line. */
module Repl {
  import opened Text
  import R = Rules
  import L = LineCompleteness
  import opened Encoders
  import opened Sessions

  datatype Deps = Deps(rules: R.Rules, dicts: Dicts, softThr: real, hardThr: real, otpRetries: int,
                       novelty: Severity, ip: string, country: string)

  datatype OtpReply = Passed | Wrong | BackendError

  /** Whether the shell ran the command, and how much typed input the command swallowed. */
  datatype RunReply = RunReply(ok: bool, eaten: nat)

  /** Answers of the outside world, by the number of answers given before. */
  datatype Oracle = Oracle(now: nat -> int, mono: nat -> real, timeCycle: int -> (real, real),
                           score: nat -> Option<real>, otp: nat -> OtpReply, run: nat -> RunReply)

  datatype Event =
    | Evaluated(line: string, sev: Severity)
    | RuleDeny(line: string)
    | Novelty(reason: string, line: string)
    | ScorerTimeout
    | SoftLog(line: string)
    | OtpCached(line: string)
    | HardOtp(line: string)
    | BadOtp(line: string)
    | ShellError(line: string)
    | Validated(reply: OtpReply)
    | Ran(line: string, sev: Severity, ok: bool)

  datatype State = State(input: string, valid: bool, commands: seq<CommandRecord>, authorized: set<string>,
                         log: seq<Event>, last: real, k: nat)
  {
    function Log(e: Event): State {
      this.(log := log + [e])
    }
  }

  // ----- reading lines

  /** A line without its line break, the bytes after it, and whether the input ended first. */
  datatype Line = Line(text: string, rest: string, eof: bool)

  function ReadLineOf(input: string): (l: Line)
    ensures |l.rest| <= |input|
    ensures !l.eof ==> |l.rest| < |input|
    ensures input == if l.eof then l.text else l.text + "\n" + l.rest
    ensures '\n' !in l.text
  {
    var i := IndexOf(input, '\n');
    if i < 0 then Line(input, "", true) else Line(input[..i], input[i + 1..], false)
  }

  /** Reads byte by byte and never past the line break. */
  method ReadLine(input: string) returns (l: Line)
    ensures l == ReadLineOf(input)
  {
    var text := "";
    var i := 0;
    while i < |input|
      invariant i <= |input| && text == input[..i] && '\n' !in text
    {
      if input[i] == '\n' {
        assert IndexOf(input, '\n') == i by {
          assert forall j :: 0 <= j < i ==> input[j] == text[j];
        }
        return Line(text, input[i + 1..], false);
      }
      text := text + [input[i]];
      i := i + 1;
    }
    assert text == input;
    return Line(input, "", true);
  }

  // ----- severity

  /** Low scores are anomalous; a threshold itself counts.  No score reads as infinitely normal. */
  function Decide(score: Option<real>, softThr: real, hardThr: real): Severity {
    if score.None? then SevNone
    else if score.value <= hardThr then SevHard
    else if score.value <= softThr then SevSoft
    else SevNone
  }

  function ScoreSeverity(d: Deps, o: Oracle, st: State): (Severity, State) {
    var score := o.score(st.k);
    var st' := st.(k := st.k + 1);
    (Decide(score, d.softThr, d.hardThr), if score.None? then st'.Log(ScorerTimeout) else st')
  }

  function RuleSeverity(d: Deps, o: Oracle, st: State, line: string, outcome: R.Outcome): (Severity, State) {
    match outcome
    case RuleChallengeHard => (SevHard, st.Log(RuleDeny(line)))
    case RuleChallengeSoft => (SevSoft, st)
    case RuleAllow => (SevNone, st)
    case RuleNone => ScoreSeverity(d, o, st)
  }

  function Seconds(elapsed: real): nat {
    if elapsed.Floor < 0 then 0 else elapsed.Floor
  }

  /** Rules, then the model when the rules are silent, then novelty unless a rule allows the line. */
  function Assess(d: Deps, o: Oracle, st: State, line: string, secs: int): (Severity, State) {
    var outcome := R.CheckOf(d.rules, line, d.country, secs);
    var (sev, st1) := RuleSeverity(d, o, st, line, outcome);
    var (cmd, args) := SplitCommand(line);
    var (nsev, reason) := NoveltySeverity(d.novelty, d.dicts, cmd, d.country, DetectPath(args));
    if outcome != R.RuleAllow && nsev.Rank() > sev.Rank()
    then (nsev, st1.Log(Novelty(reason, line)).Log(Evaluated(line, nsev)))
    else (sev, st1.Log(Evaluated(line, sev)))
  }

  function Strongest(a: nat, b: nat): nat {
    if a < b then b else a
  }

  /** How the verdicts combine: a deny rule always makes the line hard; an allow rule always lets it
      pass without asking the model; otherwise the line is as severe as the stronger of the rule or
      model on one side and novelty on the other, and a missing score counts for nothing. */
  lemma SeverityIsStrongest(d: Deps, o: Oracle, st: State, line: string, secs: int)
    ensures var (sev, st') := Assess(d, o, st, line, secs);
            var outcome := R.CheckOf(d.rules, line, d.country, secs);
            var (cmd, args) := SplitCommand(line);
            var novelty := NoveltySeverity(d.novelty, d.dicts, cmd, d.country, DetectPath(args)).0.Rank();
            (outcome.RuleChallengeHard? ==> sev == SevHard && RuleDeny(line) in st'.log && st'.k == st.k) &&
            (outcome.RuleAllow? ==> sev == SevNone && st'.k == st.k && st'.log == st.log + [Evaluated(line, sev)]) &&
            (outcome.RuleChallengeSoft? ==> sev.Rank() == Strongest(1, novelty) && st'.k == st.k) &&
            (outcome.RuleNone? ==>
               sev.Rank() == Strongest(Decide(o.score(st.k), d.softThr, d.hardThr).Rank(), novelty) &&
               st'.k == st.k + 1)
  {
    hide R.CheckOf, SplitCommand, DetectPath, NoveltySeverity, Decide;
  }

  /** What is logged while a line is judged: a denial by rule, a model that gave no score, and novelty that
      is stronger than rule or model, each exactly when it happens and in this order; then the verdict. */
  lemma AlertsWhileJudging(d: Deps, o: Oracle, st: State, line: string, secs: int)
    ensures var (sev, st') := Assess(d, o, st, line, secs);
            var outcome := R.CheckOf(d.rules, line, d.country, secs);
            var (cmd, args) := SplitCommand(line);
            var (nsev, reason) := NoveltySeverity(d.novelty, d.dicts, cmd, d.country, DetectPath(args));
            var base := if outcome.RuleChallengeHard? then 2
                        else if outcome.RuleChallengeSoft? then 1
                        else if outcome.RuleAllow? then 0
                        else Decide(o.score(st.k), d.softThr, d.hardThr).Rank();
            st'.log == st.log +
              (if outcome.RuleChallengeHard? then [RuleDeny(line)] else []) +
              (if outcome.RuleNone? && o.score(st.k) == None then [ScorerTimeout] else []) +
              (if !outcome.RuleAllow? && nsev.Rank() > base then [Novelty(reason, line)] else []) +
              [Evaluated(line, sev)]
  {
    hide R.CheckOf, SplitCommand, DetectPath, NoveltySeverity, Decide;
  }

  /** A lower score is never judged less severe, and each threshold itself counts. */
  lemma LowerScoresAreWorse(low: real, high: real, softThr: real, hardThr: real)
    requires low <= high
    ensures Decide(Some(high), softThr, hardThr).Rank() <= Decide(Some(low), softThr, hardThr).Rank()
    ensures Decide(Some(hardThr), softThr, hardThr) == SevHard
    ensures hardThr < softThr ==> Decide(Some(softThr), softThr, hardThr) == SevSoft
  {
  }

  // ----- the challenge

  /** Up to `left` attempts; an empty answer at the end of input gives up at once. */
  function Challenge(o: Oracle, st: State, line: string, left: int): (bool, State)
    decreases left
  {
    if left <= 0 then (false, st)
    else
      var l := ReadLineOf(st.input);
      var st1 := st.(input := l.rest);
      if TrimSpace(l.text) == "" && l.eof then (false, st1)
      else
        var reply := o.otp(st1.k);
        var st2 := st1.(k := st1.k + 1).Log(Validated(reply));
        if reply == Passed then (true, st2.Log(HardOtp(line))) else Challenge(o, st2, line, left - 1)
  }

  /** A soft line is logged.  A hard line needs a password once per session; when it is not given the
      session is spoiled, but the line goes on to the shell all the same. */
  function Authorize(d: Deps, o: Oracle, st: State, line: string, sev: Severity): State {
    match sev
    case SevNone => st
    case SevSoft => st.Log(SoftLog(line))
    case SevHard =>
      if line in st.authorized then st.Log(OtpCached(line))
      else
        var (passed, st') := Challenge(o, st, line, d.otpRetries);
        if passed then st'.(authorized := st'.authorized + {line})
        else st'.(valid := false).Log(BadOtp(line))
  }

  /** Runs the line; a shell error spoils and ends the session and records nothing. */
  function Execute(o: Oracle, st: State, line: string, sev: Severity, rec: CommandRecord): (bool, State) {
    var reply := o.run(st.k);
    var input := if reply.eaten <= |st.input| then st.input[reply.eaten..] else "";
    var st' := st.(k := st.k + 1, input := input).Log(Ran(line, sev, reply.ok));
    if reply.ok then (true, st'.(commands := st'.commands + [rec], last := o.mono(st'.k), k := st'.k + 1))
    else (false, st'.(valid := false).Log(ShellError(line)))
  }

  /** One command line, from clock to shell. */
  function Process(d: Deps, o: Oracle, st: State, line: string): (bool, State) {
    var now := o.now(st.k);
    var secs := Seconds(o.mono(st.k) - st.last);
    var (cmd, args) := SplitCommand(line);
    var time := o.timeCycle(now);
    var feat := BuildFeature(d.dicts, time.0, time.1, d.country, cmd, args, secs);
    var (sev, st1) := Assess(d, o, st.(k := st.k + 1), line, secs);
    var st2 := Authorize(d, o, st1, line, sev);
    Execute(o, st2, line, sev, CommandRecord(now, feat, line, d.ip))
  }

  /** One turn of the loop; false when the loop is left. */
  function Turn(d: Deps, o: Oracle, st: State): (bool, State) {
    var l := ReadLineOf(st.input);
    var line := TrimRightEol(l.text);
    var st1 := st.(input := l.rest);
    if line == "exit" || (l.eof && line == "") then (false, st1)
    else if TrimSpace(line) == "" then (!l.eof, st1)
    else if L.VerdictOn(line) != L.Complete then (!l.eof, st1)
    else
      var (alive, st2) := Process(d, o, st1, line);
      (alive && !l.eof, st2)
  }

  lemma {:induction false} ChallengeConsumes(o: Oracle, st: State, line: string, left: int)
    ensures |Challenge(o, st, line, left).1.input| <= |st.input|
    decreases left
  {
    hide ReadLineOf, TrimSpace;
    if left > 0 {
      var st1 := st.(input := ReadLineOf(st.input).rest);
      ChallengeConsumes(o, st1.(k := st1.k + 1).Log(Validated(o.otp(st1.k))), line, left - 1);
    }
  }

  lemma AssessKeeps(d: Deps, o: Oracle, st: State, line: string, secs: int)
    ensures var st' := Assess(d, o, st, line, secs).1;
            st'.input == st.input && st'.valid == st.valid && st'.commands == st.commands &&
            st'.authorized == st.authorized && st'.last == st.last && st'.k >= st.k
  {
    hide R.CheckOf, SplitCommand, DetectPath, NoveltySeverity, Decide;
  }

  lemma AuthorizeConsumes(d: Deps, o: Oracle, st: State, line: string, sev: Severity)
    ensures |Authorize(d, o, st, line, sev).input| <= |st.input|
  {
    ChallengeConsumes(o, st, line, d.otpRetries);
    hide Challenge;
  }

  lemma ExecuteConsumes(o: Oracle, st: State, line: string, sev: Severity, rec: CommandRecord)
    ensures |Execute(o, st, line, sev, rec).1.input| <= |st.input|
  {
  }

  lemma ProcessConsumes(d: Deps, o: Oracle, st: State, line: string)
    ensures |Process(d, o, st, line).1.input| <= |st.input|
  {
    hide Assess, Authorize, Execute, SplitCommand, BuildFeature, Seconds;
    var now := o.now(st.k);
    var secs := Seconds(o.mono(st.k) - st.last);
    var (cmd, args) := SplitCommand(line);
    var time := o.timeCycle(now);
    var feat := BuildFeature(d.dicts, time.0, time.1, d.country, cmd, args, secs);
    AssessKeeps(d, o, st.(k := st.k + 1), line, secs);
    var (sev, st1) := Assess(d, o, st.(k := st.k + 1), line, secs);
    AuthorizeConsumes(d, o, st1, line, sev);
    ExecuteConsumes(o, Authorize(d, o, st1, line, sev), line, sev, CommandRecord(now, feat, line, d.ip));
  }

  /** A turn that does not leave the loop consumes at least one byte. */
  lemma TurnConsumes(d: Deps, o: Oracle, st: State)
    ensures Turn(d, o, st).0 ==> |Turn(d, o, st).1.input| < |st.input|
  {
    hide Process, TrimSpace, L.VerdictOn, ReadLineOf, TrimRightEol;
    var l := ReadLineOf(st.input);
    ProcessConsumes(d, o, st.(input := l.rest), TrimRightEol(l.text));
  }

  /** The whole loop.  It terminates on every input and every behaviour of the outside world. */
  function Loop(d: Deps, o: Oracle, st: State): State
    decreases |st.input|
  {
    var (more, st') := Turn(d, o, st);
    TurnConsumes(d, o, st);
    if more then Loop(d, o, st') else st'
  }

  function Start(o: Oracle, input: string): State {
    State(input, true, [], {}, [], o.mono(0), 1)
  }

  // ----- what the log says

  predicate EndsBad(log: seq<Event>) {
    log != [] && log[|log| - 1].BadOtp?
  }

  /** The last thing that happened was that a password was accepted. */
  predicate EndsPassed(log: seq<Event>) {
    log != [] && log[|log| - 1] == Validated(Passed)
  }

  /** Neither a challenge that failed nor an accepted password waits for what must follow it. */
  predicate Settled(log: seq<Event>) {
    !EndsBad(log) && !EndsPassed(log)
  }

  /** The line that has been evaluated and not run yet, and its severity. */
  function Current(log: seq<Event>): Option<(string, Severity)> {
    if log == [] then None else Follow(Current(log[..|log| - 1]), log[|log| - 1])
  }

  function Follow(c: Option<(string, Severity)>, e: Event): Option<(string, Severity)> {
    match e
    case Evaluated(line, sev) => Some((line, sev))
    case Ran(_, _, _) => None
    case _ => c
  }

  /** A line is evaluated once before it is run; what is logged and asked in between is about that line and
      its severity, and so is the run. */
  predicate Fits(c: Option<(string, Severity)>, e: Event) {
    match e
    case Evaluated(_, _) => c == None
    case SoftLog(line) => c == Some((line, SevSoft))
    case OtpCached(line) => c == Some((line, SevHard))
    case HardOtp(line) => c == Some((line, SevHard))
    case BadOtp(line) => c == Some((line, SevHard))
    case Validated(_) => c.Some? && c.value.1 == SevHard
    case Ran(line, sev, _) => c == Some((line, sev))
    case _ => true
  }

  /** When `e` may follow `log`:
      - it is about the line evaluated last;
      - a line counts as passed exactly when a password has just been accepted;
      - a failed challenge is followed at once by the attempt to run that very line;
      - a line is challenged, with either outcome, only while it has not been passed;
      - a hard line is run only after it has been passed or right after its challenge failed. */
  predicate MayFollow(log: seq<Event>, e: Event) {
    && Fits(Current(log), e)
    && (e.HardOtp? <==> EndsPassed(log))
    && (EndsBad(log) ==> e.Ran? && e.sev == SevHard && e.line == log[|log| - 1].line)
    && (e.BadOtp? || e.HardOtp? ==> HardOtp(e.line) !in log)
    && (e.Ran? && e.sev == SevHard ==> HardOtp(e.line) in log || (EndsBad(log) && log[|log| - 1].line == e.line))
  }

  predicate Ordered(log: seq<Event>) {
    forall i {:trigger log[..i]} :: 0 <= i < |log| ==> MayFollow(log[..i], log[i])
  }

  predicate Spoils(e: Event) {
    e.BadOtp? || e.ShellError?
  }

  predicate Spoiled(log: seq<Event>) {
    exists i :: 0 <= i < |log| && Spoils(log[i])
  }

  /** The lines the shell ran successfully, in order. */
  function Succeeded(log: seq<Event>): seq<string> {
    if log == [] then []
    else
      var e := log[|log| - 1];
      Succeeded(log[..|log| - 1]) + if e.Ran? && e.ok then [e.line] else []
  }

  function RawLines(commands: seq<CommandRecord>): seq<string> {
    seq(|commands|, i requires 0 <= i < |commands| => commands[i].rawCmd)
  }

  datatype Tally = Tally(hard: nat, soft: nat, hardOtp: nat, cached: nat, bad: nat, softLog: nat, validated: nat) {
    function Count(e: Event): Tally {
      match e
      case Evaluated(_, SevHard) => this.(hard := hard + 1)
      case Evaluated(_, SevSoft) => this.(soft := soft + 1)
      case HardOtp(_) => this.(hardOtp := hardOtp + 1)
      case OtpCached(_) => this.(cached := cached + 1)
      case BadOtp(_) => this.(bad := bad + 1)
      case SoftLog(_) => this.(softLog := softLog + 1)
      case Validated(_) => this.(validated := validated + 1)
      case _ => this
    }
  }

  /** How often each kind of event occurs. */
  function TallyOf(log: seq<Event>): Tally {
    if log == [] then Tally(0, 0, 0, 0, 0, 0, 0) else TallyOf(log[..|log| - 1]).Count(log[|log| - 1])
  }

  /** What holds between the stages of a turn. */
  ghost predicate Core(st: State) {
    && Ordered(st.log)
    && Succeeded(st.log) == RawLines(st.commands)
    && (forall l :: l in st.authorized <==> HardOtp(l) in st.log)
    && (st.valid <==> !Spoiled(st.log))
  }

  lemma OrderedGrows(log: seq<Event>, e: Event)
    requires Ordered(log) && MayFollow(log, e)
    ensures Ordered(log + [e])
  {
    hide MayFollow;
    var log' := log + [e];
    forall i | 0 <= i < |log'|
      ensures MayFollow(log'[..i], log'[i])
    {
      if i < |log| {
        assert log'[..i] == log[..i];
      } else {
        assert log'[..i] == log;
      }
    }
  }

  lemma SpoiledGrows(log: seq<Event>, e: Event)
    ensures Spoiled(log + [e]) <==> Spoiled(log) || Spoils(e)
  {
    var log' := log + [e];
    assert log'[|log|] == e;
    assert forall i :: 0 <= i < |log| ==> log'[i] == log[i];
  }

  lemma LogGrows(log: seq<Event>, e: Event)
    ensures TallyOf(log + [e]) == TallyOf(log).Count(e)
    ensures Succeeded(log + [e]) == Succeeded(log) + if e.Ran? && e.ok then [e.line] else []
    ensures Spoiled(log + [e]) <==> Spoiled(log) || Spoils(e)
    ensures Current(log + [e]) == Follow(Current(log), e)
    ensures Ordered(log) && MayFollow(log, e) ==> Ordered(log + [e])
  {
    assert (log + [e])[..|log|] == log;
    SpoiledGrows(log, e);
    hide Spoiled, Ordered, MayFollow;
    if Ordered(log) && MayFollow(log, e) {
      OrderedGrows(log, e);
    }
  }

  /** Events that change nothing but the log. */
  predicate Neutral(e: Event) {
    !e.HardOtp? && !e.BadOtp? && !e.ShellError? && !e.Ran? && e != Validated(Passed)
  }

  lemma NeutralMayFollow(log: seq<Event>, e: Event)
    requires Settled(log) && Neutral(e) && Fits(Current(log), e)
    ensures MayFollow(log, e)
  {
    hide Current, Fits;
  }

  /** Which lines have been passed, after one more event. */
  lemma PassesAfter(log: seq<Event>, e: Event)
    ensures forall l :: HardOtp(l) in log + [e] <==> HardOtp(l) in log || e == HardOtp(l)
  {
  }

  lemma LogNeutral(st: State, e: Event)
    requires Core(st) && Settled(st.log) && Neutral(e) && Fits(Current(st.log), e)
    ensures Core(st.Log(e)) && Settled(st.Log(e).log) && Current(st.Log(e).log) == Follow(Current(st.log), e)
    ensures TallyOf(st.Log(e).log) == TallyOf(st.log).Count(e)
  {
    NeutralMayFollow(st.log, e);
    LogGrows(st.log, e);
    PassesAfter(st.log, e);
    hide Ordered, Spoiled, Succeeded, TallyOf, MayFollow, Fits, Current, Follow;
  }

  lemma AssessCore(d: Deps, o: Oracle, st: State, line: string, secs: int)
    requires Core(st) && Settled(st.log) && Current(st.log) == None
    ensures var (sev, st') := Assess(d, o, st, line, secs);
            Core(st') && Settled(st'.log) && Current(st'.log) == Some((line, sev)) &&
            TallyOf(st'.log) == TallyOf(st.log).Count(Evaluated(line, sev))
  {
    hide Core, TallyOf, Settled, Current, R.CheckOf, SplitCommand, DetectPath, NoveltySeverity, Decide;
    var outcome := R.CheckOf(d.rules, line, d.country, secs);
    var (sev, st1) := RuleSeverity(d, o, st, line, outcome);
    if outcome == R.RuleChallengeHard {
      LogNeutral(st, RuleDeny(line));
    } else if outcome == R.RuleNone {
      CoreCounter(st, st.k + 1);
      if o.score(st.k).None? {
        LogNeutral(st.(k := st.k + 1), ScorerTimeout);
      }
    }
    assert Core(st1) && Settled(st1.log) && Current(st1.log) == None && TallyOf(st1.log) == TallyOf(st.log);
    var (cmd, args) := SplitCommand(line);
    var (nsev, reason) := NoveltySeverity(d.novelty, d.dicts, cmd, d.country, DetectPath(args));
    if outcome != R.RuleAllow && nsev.Rank() > sev.Rank() {
      LogNeutral(st1, Novelty(reason, line));
      LogNeutral(st1.Log(Novelty(reason, line)), Evaluated(line, nsev));
    } else {
      LogNeutral(st1, Evaluated(line, sev));
    }
  }

  lemma CoreCounter(st: State, k: nat)
    requires Core(st)
    ensures Core(st.(k := k))
  {
  }

  lemma CoreInput(st: State, input: string)
    requires Core(st)
    ensures Core(st.(input := input))
  {
  }

  lemma LogAccepted(st: State, line: string)
    requires Core(st) && Settled(st.log) && HardOtp(line) !in st.log && Current(st.log) == Some((line, SevHard))
    ensures var st' := st.Log(Validated(Passed));
            Core(st') && EndsPassed(st'.log) && HardOtp(line) !in st'.log && Current(st'.log) == Current(st.log) &&
            TallyOf(st'.log) == TallyOf(st.log).Count(Validated(Passed))
  {
    LogGrows(st.log, Validated(Passed));
    assert MayFollow(st.log, Validated(Passed));
    PassesAfter(st.log, Validated(Passed));
    hide Ordered, Spoiled, Succeeded, TallyOf, Current, MayFollow, Fits;
  }

  lemma LogAuthorized(st: State, line: string)
    requires Core(st) && EndsPassed(st.log) && HardOtp(line) !in st.log && Current(st.log) == Some((line, SevHard))
    ensures var st' := st.Log(HardOtp(line));
            Core(st'.(authorized := st'.authorized + {line})) && Settled(st'.log) &&
            Current(st'.log) == Current(st.log) && HardOtp(line) in st'.log &&
            TallyOf(st'.log) == TallyOf(st.log).Count(HardOtp(line))
  {
    hide Ordered, Spoiled, Succeeded, TallyOf, Current;
    assert MayFollow(st.log, HardOtp(line));
    hide MayFollow, Fits;
    LogGrows(st.log, HardOtp(line));
    PassesAfter(st.log, HardOtp(line));
  }

  /** A password is accepted, and with it the line. */
  lemma LogPassed(st: State, line: string)
    requires Core(st) && Settled(st.log) && HardOtp(line) !in st.log && Current(st.log) == Some((line, SevHard))
    ensures var st' := st.Log(Validated(Passed)).Log(HardOtp(line));
            Core(st'.(authorized := st'.authorized + {line})) && Settled(st'.log) &&
            Current(st'.log) == Current(st.log) && HardOtp(line) in st'.log &&
            TallyOf(st'.log) == TallyOf(st.log).Count(Validated(Passed)).Count(HardOtp(line))
  {
    hide Core, Settled, EndsPassed, Current, TallyOf;
    LogAccepted(st, line);
    LogAuthorized(st.Log(Validated(Passed)), line);
  }

  lemma LogFailed(st: State, line: string)
    requires Core(st) && Settled(st.log) && HardOtp(line) !in st.log && Current(st.log) == Some((line, SevHard))
    ensures var st' := st.(valid := false).Log(BadOtp(line));
            Core(st') && EndsBad(st'.log) && st'.log[|st'.log| - 1].line == line &&
            Current(st'.log) == Current(st.log) &&
            TallyOf(st'.log) == TallyOf(st.log).Count(BadOtp(line))
  {
    LogGrows(st.log, BadOtp(line));
    hide Ordered, Spoiled, Succeeded, TallyOf;
  }

  lemma LogRejected(st: State, line: string, reply: OtpReply)
    requires Core(st) && Settled(st.log) && HardOtp(line) !in st.log && Current(st.log) == Some((line, SevHard))
    requires reply != Passed
    ensures var st' := st.Log(Validated(reply));
            Core(st') && Settled(st'.log) && HardOtp(line) !in st'.log && Current(st'.log) == Current(st.log) &&
            TallyOf(st'.log) == TallyOf(st.log).(validated := TallyOf(st.log).validated + 1)
  {
    LogNeutral(st, Validated(reply));
    PassesAfter(st.log, Validated(reply));
    hide Core, Current, TallyOf, Settled;
  }

  /** A challenge validates at most `left` passwords and passes a line at most once. */
  lemma {:induction false} ChallengeCore(o: Oracle, st: State, line: string, left: int)
    requires Core(st) && Settled(st.log) && HardOtp(line) !in st.log && Current(st.log) == Some((line, SevHard))
    ensures var (passed, st') := Challenge(o, st, line, left);
            var t, t' := TallyOf(st.log), TallyOf(st'.log);
            Settled(st'.log) && Current(st'.log) == Current(st.log) &&
            st'.authorized == st.authorized && st'.valid == st.valid &&
            t.validated <= t'.validated <= t.validated + (if left > 0 then left else 0) &&
            (if passed then
               Core(st'.(authorized := st'.authorized + {line})) && HardOtp(line) in st'.log &&
               t' == t.(validated := t'.validated, hardOtp := t.hardOtp + 1)
             else
               Core(st') && HardOtp(line) !in st'.log && t' == t.(validated := t'.validated))
    decreases left
  {
    hide Core, TallyOf, Settled, Current, ReadLineOf, TrimSpace, Fits, Follow, MayFollow;
    if left > 0 {
      var l := ReadLineOf(st.input);
      var st1 := st.(input := l.rest);
      CoreInput(st, l.rest);
      if !(TrimSpace(l.text) == "" && l.eof) {
        var reply := o.otp(st1.k);
        CoreCounter(st1, st1.k + 1);
        if reply == Passed {
          LogPassed(st1.(k := st1.k + 1), line);
        } else {
          LogRejected(st1.(k := st1.k + 1), line, reply);
          ChallengeCore(o, st1.(k := st1.k + 1).Log(Validated(reply)), line, left - 1);
        }
      }
    }
  }

  /** What a challenge adds to the log, as long as nobody is let in: passwords that were not accepted. */
  predicate Rejections(log: seq<Event>, from: nat, to: nat)
    requires from <= to <= |log|
  {
    forall i :: from <= i < to ==> log[i].Validated? && log[i].reply != Passed
  }

  /** A challenge that starts at `log` and ends at `log'`: it logs at most `left` validations, of which only
      the last can be an acceptance, and then the pass; it fails only after all `left` attempts or at the
      end of the input. */
  predicate ChallengeLog(log: seq<Event>, log': seq<Event>, line: string, left: nat, passed: bool, atEnd: bool) {
    && log <= log'
    && if passed then
         |log| + 2 <= |log'| <= |log| + left + 1 &&
         log'[|log'| - 2] == Validated(Passed) && log'[|log'| - 1] == HardOtp(line) &&
         Rejections(log', |log|, |log'| - 2)
       else
         |log'| <= |log| + left && Rejections(log', |log|, |log'|) && (|log'| == |log| + left || atEnd)
  }

  lemma OneMoreRejection(log: seq<Event>, reply: OtpReply, log': seq<Event>, line: string, left: nat,
                         passed: bool, atEnd: bool)
    requires reply != Passed && ChallengeLog(log + [Validated(reply)], log', line, left, passed, atEnd)
    ensures ChallengeLog(log, log', line, left + 1, passed, atEnd)
  {
    assert log'[..|log|] == log'[..|log| + 1][..|log|];
    assert log'[|log|] == log'[..|log| + 1][|log|];
  }

  lemma AcceptedAtOnce(log: seq<Event>, line: string, left: nat, atEnd: bool)
    requires left > 0
    ensures ChallengeLog(log, log + [Validated(Passed)] + [HardOtp(line)], line, left, true, atEnd)
  {
  }

  lemma FailedAtOnce(log: seq<Event>, line: string, left: nat, atEnd: bool)
    requires left == 0 || atEnd
    ensures ChallengeLog(log, log, line, left, false, atEnd)
  {
  }

  lemma EofLeavesNothing(input: string)
    ensures ReadLineOf(input).eof ==> ReadLineOf(input).rest == ""
  {
  }

  /** A challenge passes with the first password that is accepted and not otherwise. */
  lemma {:induction false} ChallengeLogs(o: Oracle, st: State, line: string, left: int)
    ensures var (passed, st') := Challenge(o, st, line, left);
            ChallengeLog(st.log, st'.log, line, if left > 0 then left else 0, passed, st'.input == "")
    decreases left
  {
    hide ReadLineOf, TrimSpace, ChallengeLog;
    if left <= 0 {
      FailedAtOnce(st.log, line, 0, st.input == "");
    } else {
      var l := ReadLineOf(st.input);
      EofLeavesNothing(st.input);
      var st1 := st.(input := l.rest);
      if TrimSpace(l.text) == "" && l.eof {
        FailedAtOnce(st.log, line, left, true);
      } else {
        var reply := o.otp(st1.k);
        var st2 := st1.(k := st1.k + 1).Log(Validated(reply));
        if reply == Passed {
          AcceptedAtOnce(st.log, line, left, st1.input == "");
        } else {
          ChallengeLogs(o, st2, line, left - 1);
          var (passed, st') := Challenge(o, st2, line, left - 1);
          OneMoreRejection(st.log, reply, st'.log, line, left - 1, passed, st'.input == "");
        }
      }
    }
  }

  /** After authorisation the line evaluated last is to be run: a hard one has been passed, or its challenge
      has just failed. */
  predicate MayRun(log: seq<Event>, line: string, sev: Severity) {
    !EndsPassed(log) && Current(log) == Some((line, sev)) &&
    if EndsBad(log) then sev == SevHard && log[|log| - 1].line == line
    else sev == SevHard ==> HardOtp(line) in log
  }

  /** Between turns nothing waits: every line that was evaluated has been run. */
  predicate Resting(log: seq<Event>) {
    Settled(log) && Current(log) == None
  }

  /** Passwords that `n` challenges may validate. */
  function Allowance(d: Deps, n: nat): nat {
    if n == 0 || d.otpRetries <= 0 then 0 else Allowance(d, n - 1) + d.otpRetries
  }

  /** The books are balanced: every hard and every soft evaluation is accounted for. */
  predicate Balanced(d: Deps, t: Tally) {
    && t.hard == t.hardOtp + t.cached + t.bad
    && t.soft == t.softLog
    && t.validated <= Allowance(d, t.hardOtp + t.bad)
  }

  lemma OneMoreChallenge(d: Deps, t: Tally, v: nat)
    requires Balanced(d, t) && t.validated <= v <= t.validated + if d.otpRetries > 0 then d.otpRetries else 0
    ensures Balanced(d, t.(hard := t.hard + 1, hardOtp := t.hardOtp + 1, validated := v))
    ensures Balanced(d, t.(hard := t.hard + 1, bad := t.bad + 1, validated := v))
  {
    var n := t.hardOtp + t.bad;
    assert Allowance(d, n + 1) == Allowance(d, n) + if d.otpRetries > 0 then d.otpRetries else 0;
  }

  lemma AuthorizeHard(d: Deps, o: Oracle, st: State, line: string, t: Tally)
    requires Core(st) && Settled(st.log) && line !in st.authorized && HardOtp(line) !in st.log
    requires Current(st.log) == Some((line, SevHard))
    requires Balanced(d, t) && TallyOf(st.log) == t.Count(Evaluated(line, SevHard))
    ensures var st' := Authorize(d, o, st, line, SevHard);
            Core(st') && MayRun(st'.log, line, SevHard) && Balanced(d, TallyOf(st'.log))
  {
    hide Core, TallyOf, Challenge, Balanced, Ordered, Allowance, Current;
    ChallengeCore(o, st, line, d.otpRetries);
    var (passed, st1) := Challenge(o, st, line, d.otpRetries);
    OneMoreChallenge(d, t, TallyOf(st1.log).validated);
    if !passed {
      LogFailed(st1, line);
    }
  }

  lemma AuthorizeSoft(d: Deps, o: Oracle, st: State, line: string, t: Tally)
    requires Core(st) && Settled(st.log) && Current(st.log) == Some((line, SevSoft))
    requires Balanced(d, t) && TallyOf(st.log) == t.Count(Evaluated(line, SevSoft))
    ensures var st' := Authorize(d, o, st, line, SevSoft);
            Core(st') && MayRun(st'.log, line, SevSoft) && Balanced(d, TallyOf(st'.log))
  {
    hide Core, EndsBad, EndsPassed, Current, TallyOf, Challenge, Allowance;
    LogNeutral(st, SoftLog(line));
  }

  lemma AuthorizeCached(d: Deps, o: Oracle, st: State, line: string, t: Tally)
    requires Core(st) && Settled(st.log) && line in st.authorized && HardOtp(line) in st.log
    requires Current(st.log) == Some((line, SevHard))
    requires Balanced(d, t) && TallyOf(st.log) == t.Count(Evaluated(line, SevHard))
    ensures var st' := Authorize(d, o, st, line, SevHard);
            Core(st') && MayRun(st'.log, line, SevHard) && Balanced(d, TallyOf(st'.log))
  {
    hide Core, EndsBad, EndsPassed, Current, TallyOf, Challenge, Allowance;
    LogNeutral(st, OtpCached(line));
  }

  lemma AuthorizeCore(d: Deps, o: Oracle, st: State, line: string, sev: Severity, t: Tally)
    requires Core(st) && Settled(st.log) && Current(st.log) == Some((line, sev))
    requires Balanced(d, t) && TallyOf(st.log) == t.Count(Evaluated(line, sev))
    ensures var st' := Authorize(d, o, st, line, sev);
            Core(st') && MayRun(st'.log, line, sev) && Balanced(d, TallyOf(st'.log))
  {
    assert line in st.authorized <==> HardOtp(line) in st.log;
    hide Core, EndsBad, EndsPassed, Current, TallyOf, Challenge, Balanced;
    match sev
    case SevNone =>
    case SevSoft => AuthorizeSoft(d, o, st, line, t);
    case SevHard =>
      if line in st.authorized {
        AuthorizeCached(d, o, st, line, t);
      } else {
        AuthorizeHard(d, o, st, line, t);
      }
  }

  lemma RanMayFollow(log: seq<Event>, line: string, sev: Severity, ok: bool)
    requires MayRun(log, line, sev)
    ensures MayFollow(log, Ran(line, sev, ok))
  {
  }

  lemma RanWell(d: Deps, st: State, line: string, sev: Severity, rec: CommandRecord)
    requires Core(st) && MayRun(st.log, line, sev) && rec.rawCmd == line && Balanced(d, TallyOf(st.log))
    ensures var st' := st.Log(Ran(line, sev, true)).(commands := st.commands + [rec]);
            Core(st') && Resting(st'.log) && Balanced(d, TallyOf(st'.log))
  {
    RanMayFollow(st.log, line, sev, true);
    LogGrows(st.log, Ran(line, sev, true));
    assert RawLines(st.commands + [rec]) == RawLines(st.commands) + [line];
    hide Ordered, Spoiled, Succeeded, TallyOf, RawLines, Balanced, MayFollow;
  }

  lemma RanBadly(d: Deps, st: State, line: string, sev: Severity)
    requires Core(st) && MayRun(st.log, line, sev) && Balanced(d, TallyOf(st.log))
    ensures var st' := st.(valid := false).Log(Ran(line, sev, false)).Log(ShellError(line));
            Core(st') && Resting(st'.log) && Balanced(d, TallyOf(st'.log))
  {
    hide Ordered, Spoiled, Succeeded, TallyOf, RawLines, Balanced;
    RanMayFollow(st.log, line, sev, false);
    LogGrows(st.log, Ran(line, sev, false));
    assert MayFollow(st.log + [Ran(line, sev, false)], ShellError(line));
    hide MayFollow, MayRun;
    LogGrows(st.log + [Ran(line, sev, false)], ShellError(line));
    assert Succeeded(st.log) + [] == Succeeded(st.log);
  }

  lemma ExecuteCore(d: Deps, o: Oracle, st: State, line: string, sev: Severity, rec: CommandRecord)
    requires Core(st) && MayRun(st.log, line, sev) && rec.rawCmd == line && Balanced(d, TallyOf(st.log))
    ensures var (ok, st') := Execute(o, st, line, sev, rec);
            Core(st') && Resting(st'.log) && Balanced(d, TallyOf(st'.log))
  {
    if o.run(st.k).ok {
      RanWell(d, st, line, sev, rec);
    } else {
      RanBadly(d, st, line, sev);
    }
    hide Ordered, Spoiled, Succeeded, TallyOf, RawLines, Balanced;
  }

  lemma ProcessCore(d: Deps, o: Oracle, st: State, line: string)
    requires Core(st) && Resting(st.log) && Balanced(d, TallyOf(st.log))
    ensures var st' := Process(d, o, st, line).1;
            Core(st') && Resting(st'.log) && Balanced(d, TallyOf(st'.log))
  {
    hide Core, Settled, MayRun, Current, Balanced, TallyOf, Assess, Authorize, Execute, BuildFeature, SplitCommand;
    hide Seconds;
    var now := o.now(st.k);
    var secs := Seconds(o.mono(st.k) - st.last);
    var (cmd, args) := SplitCommand(line);
    var time := o.timeCycle(now);
    var feat := BuildFeature(d.dicts, time.0, time.1, d.country, cmd, args, secs);
    var st0 := st.(k := st.k + 1);
    CoreCounter(st, st.k + 1);
    AssessCore(d, o, st0, line, secs);
    var (sev, st1) := Assess(d, o, st0, line, secs);
    AuthorizeCore(d, o, st1, line, sev, TallyOf(st.log));
    ExecuteCore(d, o, Authorize(d, o, st1, line, sev), line, sev, CommandRecord(now, feat, line, d.ip));
  }

  ghost predicate Inv(d: Deps, st: State) {
    Core(st) && Resting(st.log) && Balanced(d, TallyOf(st.log))
  }

  lemma TurnKeepsInv(d: Deps, o: Oracle, st: State)
    requires Inv(d, st)
    ensures Inv(d, Turn(d, o, st).1)
  {
    hide Core, Resting, Balanced, TallyOf, Process, ReadLineOf, TrimSpace, TrimRightEol, L.VerdictOn;
    var l := ReadLineOf(st.input);
    CoreInput(st, l.rest);
    ProcessCore(d, o, st.(input := l.rest), TrimRightEol(l.text));
  }

  lemma {:induction false} LoopKeepsInv(d: Deps, o: Oracle, st: State)
    requires Inv(d, st)
    ensures Inv(d, Loop(d, o, st))
    decreases |st.input|
  {
    hide Inv, Turn;
    TurnKeepsInv(d, o, st);
    TurnConsumes(d, o, st);
    if Turn(d, o, st).0 {
      LoopKeepsInv(d, o, Turn(d, o, st).1);
    }
  }

  // ----- whole sessions

  function RunSession(d: Deps, o: Oracle, input: string): State {
    Loop(d, o, Start(o, input))
  }

  lemma StartInv(d: Deps, o: Oracle, input: string)
    ensures Inv(d, Start(o, input))
  {
    assert RawLines([]) == [];
    hide MayFollow;
  }

  lemma SessionInv(d: Deps, o: Oracle, input: string)
    ensures Inv(d, RunSession(d, o, input))
  {
    hide Loop, Inv, Start;
    StartInv(d, o, input);
    LoopKeepsInv(d, o, Start(o, input));
  }

  /** Only clean sessions with commands are saved. */
  predicate Persisted(st: State) {
    st.valid && st.commands != []
  }

  predicate PassedBefore(log: seq<Event>, i: nat, line: string)
    requires i <= |log|
  {
    exists j :: 0 <= j < i && log[j] == HardOtp(line)
  }

  /** Every hard line that was run had been passed before. */
  predicate HardRunsPassed(log: seq<Event>) {
    forall i :: 0 <= i < |log| && log[i].Ran? && log[i].sev == SevHard ==> PassedBefore(log, i, log[i].line)
  }

  /** Passing is by password: whatever is logged as passed comes right after a password that was accepted,
      for the line evaluated last, which was found hard; and every accepted password is followed by such
      a pass. */
  predicate PassedByPassword(log: seq<Event>) {
    && (forall i :: 0 <= i < |log| ==> (log[i].HardOtp? <==> i > 0 && log[i - 1] == Validated(Passed)))
    && (log != [] ==> log[|log| - 1] != Validated(Passed))
    && (forall i {:trigger log[..i]} :: 0 <= i < |log| && log[i].HardOtp? ==>
          LastEvaluated(log[..i]) == Some(Evaluated(log[i].line, SevHard)))
  }

  function LastEvaluated(log: seq<Event>): Option<Event> {
    if log == [] then None
    else if log[|log| - 1].Evaluated? then Some(log[|log| - 1])
    else LastEvaluated(log[..|log| - 1])
  }

  lemma {:induction false} CurrentIsLast(log: seq<Event>)
    ensures Current(log).Some? ==>
              LastEvaluated(log) == Some(Evaluated(Current(log).value.0, Current(log).value.1))
  {
    if log != [] {
      CurrentIsLast(log[..|log| - 1]);
    }
  }

  lemma OrderedIsByPassword(log: seq<Event>)
    requires Ordered(log) && Settled(log)
    ensures PassedByPassword(log)
  {
    hide Current, LastEvaluated;
    forall i | 0 <= i < |log|
      ensures log[i].HardOtp? <==> i > 0 && log[i - 1] == Validated(Passed)
      ensures log[i].HardOtp? ==> LastEvaluated(log[..i]) == Some(Evaluated(log[i].line, SevHard))
    {
      assert MayFollow(log[..i], log[i]);
      assert i > 0 ==> log[..i][|log[..i]| - 1] == log[i - 1];
      CurrentIsLast(log[..i]);
    }
  }

  predicate HasBadOtp(log: seq<Event>) {
    exists i :: 0 <= i < |log| && log[i].BadOtp?
  }

  lemma InBefore(log: seq<Event>, i: nat, line: string)
    requires i <= |log|
    ensures HardOtp(line) in log[..i] <==> PassedBefore(log, i, line)
  {
    assert forall j :: 0 <= j < i ==> log[..i][j] == log[j];
  }

  lemma NoBadMeansPassed(log: seq<Event>)
    requires Ordered(log) && !HasBadOtp(log)
    ensures HardRunsPassed(log)
  {
    forall i | 0 <= i < |log| && log[i].Ran? && log[i].sev == SevHard
      ensures PassedBefore(log, i, log[i].line)
    {
      assert MayFollow(log[..i], log[i]);
      InBefore(log, i, log[i].line);
    }
  }

  lemma BadMeansNotPassed(log: seq<Event>, j: nat)
    requires Ordered(log) && !EndsBad(log) && j < |log| && log[j].BadOtp?
    ensures !HardRunsPassed(log)
  {
    var line := log[j].line;
    assert log[..j + 1][j] == log[j];
    assert MayFollow(log[..j], log[j]);
    assert MayFollow(log[..j + 1], log[j + 1]);
    InBefore(log, j, line);
    assert log[j + 1].Ran? && log[j + 1].sev == SevHard && log[j + 1].line == line;
    assert !PassedBefore(log, j + 1, line);
  }

  /** "Hard commands run only after a password" holds of a session exactly when no challenge failed in
      it: the loop goes on to run a line whose challenge has just failed. */
  lemma HardRunsPassedIffNoBadOtp(d: Deps, o: Oracle, input: string)
    ensures var log := RunSession(d, o, input).log; HardRunsPassed(log) <==> !HasBadOtp(log)
  {
    SessionInv(d, o, input);
    hide RunSession, HardRunsPassed;
    var log := RunSession(d, o, input).log;
    if HasBadOtp(log) {
      var j :| 0 <= j < |log| && log[j].BadOtp?;
      BadMeansNotPassed(log, j);
    } else {
      NoBadMeansPassed(log);
    }
  }

  /** A password is accepted in this stretch of the log. */
  predicate AcceptedIn(log: seq<Event>, from: nat, to: nat)
    requires from <= to <= |log|
  {
    exists i :: from <= i < to && log[i] == Validated(Passed)
  }

  /** The same for one line: a line that turns out hard is run with a pass for it on record exactly when it
      was authorised before or a password is accepted now; otherwise it is run without one. */
  lemma HardRunPassedIff(d: Deps, o: Oracle, st: State, line: string)
    requires Inv(d, st)
    ensures var (sev, st1) := Assess(d, o, st.(k := st.k + 1), line, Seconds(o.mono(st.k) - st.last));
            var at := |Authorize(d, o, st1, line, sev).log|;
            var log := Process(d, o, st, line).1.log;
            sev == SevHard ==>
              |st1.log| <= at < |log| && log[at].Ran? && log[at].line == line && log[at].sev == SevHard &&
              (PassedBefore(log, at, line) <==> line in st.authorized || AcceptedIn(log, |st1.log|, at))
  {
    hide Core, EndsBad, Balanced, TallyOf, Assess, Authorize, Execute, Challenge, BuildFeature, SplitCommand, Seconds;
    var secs := Seconds(o.mono(st.k) - st.last);
    CoreCounter(st, st.k + 1);
    AssessCore(d, o, st.(k := st.k + 1), line, secs);
    AssessKeeps(d, o, st.(k := st.k + 1), line, secs);
    var (sev, st1) := Assess(d, o, st.(k := st.k + 1), line, secs);
    if sev == SevHard {
      var (cmd, args) := SplitCommand(line);
      var time := o.timeCycle(o.now(st.k));
      var feat := BuildFeature(d.dicts, time.0, time.1, d.country, cmd, args, secs);
      BranchPassedIff(d, o, st1, line, CommandRecord(o.now(st.k), feat, line, d.ip));
    }
  }

  lemma BranchPassedIff(d: Deps, o: Oracle, st: State, line: string, rec: CommandRecord)
    requires Core(st) && Settled(st.log) && Current(st.log) == Some((line, SevHard))
    ensures var st2 := Authorize(d, o, st, line, SevHard);
            var (ok, st3) := Execute(o, st2, line, SevHard, rec);
            |st.log| <= |st2.log| < |st3.log| && st3.log[|st2.log|] == Ran(line, SevHard, ok) &&
            (PassedBefore(st3.log, |st2.log|, line) <==>
               line in st.authorized || AcceptedIn(st3.log, |st.log|, |st2.log|))
  {
    var st2 := Authorize(d, o, st, line, SevHard);
    var (ok, st3) := Execute(o, st2, line, SevHard, rec);
    AuthorizedIffPassed(d, o, st, line);
    ExecuteLogs(o, st2, line, SevHard, rec);
    hide Authorize, Execute, Challenge, Core;
    InBefore(st3.log, |st2.log|, line);
    assert forall i :: 0 <= i < |st2.log| ==> st3.log[i] == st2.log[i];
  }

  lemma AcceptedIffPassed(log: seq<Event>, log': seq<Event>, line: string, left: nat, passed: bool, atEnd: bool)
    requires ChallengeLog(log, log', line, left, passed, atEnd)
    ensures |log| <= |log'|
    ensures passed ==> AcceptedIn(log', |log|, |log'|)
    ensures !passed ==> !AcceptedIn(log' + [BadOtp(line)], |log|, |log'| + 1)
  {
    if passed {
      assert log'[|log'| - 2] == Validated(Passed);
    } else {
      var more := log' + [BadOtp(line)];
      assert forall i :: 0 <= i < |log'| ==> more[i] == log'[i];
    }
  }

  /** After authorisation the line has a pass on record exactly when it had one or a password is accepted. */
  lemma AuthorizedIffPassed(d: Deps, o: Oracle, st: State, line: string)
    requires Core(st) && Settled(st.log) && Current(st.log) == Some((line, SevHard))
    ensures var log := Authorize(d, o, st, line, SevHard).log;
            |st.log| <= |log| &&
            (HardOtp(line) in log <==> line in st.authorized || AcceptedIn(log, |st.log|, |log|))
  {
    assert line in st.authorized <==> HardOtp(line) in st.log;
    hide Core, TallyOf, Challenge, Current, Settled, AcceptedIn, ChallengeLog, Rejections;
    if line !in st.authorized {
      ChallengeCore(o, st, line, d.otpRetries);
      ChallengeLogs(o, st, line, d.otpRetries);
      var (passed, st') := Challenge(o, st, line, d.otpRetries);
      AcceptedIffPassed(st.log, st'.log, line, if d.otpRetries > 0 then d.otpRetries else 0, passed, st'.input == "");
      PassesAfter(st'.log, BadOtp(line));
    }
  }

  lemma ExecuteLogs(o: Oracle, st: State, line: string, sev: Severity, rec: CommandRecord)
    ensures var (ok, st') := Execute(o, st, line, sev, rec);
            |st.log| < |st'.log| && st'.log[..|st.log|] == st.log && st'.log[|st.log|] == Ran(line, sev, ok)
  {
  }

  /** Saved sessions are authorised: the recorded commands are exactly the successful runs in order, a
      session is valid exactly when no challenge and no run failed in it, whatever passes does so right
      after a password that was accepted, and in a saved session every hard line that ran had been passed
      before, by a challenge for the identical line. */
  lemma SavedSessionsAreAuthorised(d: Deps, o: Oracle, input: string)
    ensures var end := RunSession(d, o, input);
            RawLines(end.commands) == Succeeded(end.log) &&
            (end.valid <==> !Spoiled(end.log)) &&
            PassedByPassword(end.log) &&
            (Persisted(end) ==> HardRunsPassed(end.log))
  {
    SessionInv(d, o, input);
    hide RunSession, HardRunsPassed, PassedByPassword;
    var end := RunSession(d, o, input);
    OrderedIsByPassword(end.log);
    if Persisted(end) {
      assert !Spoiled(end.log);
      assert forall i :: 0 <= i < |end.log| && end.log[i].BadOtp? ==> Spoils(end.log[i]);
      NoBadMeansPassed(end.log);
    }
  }

  lemma AllowanceIsProduct(d: Deps, n: nat)
    ensures Allowance(d, n) == (if d.otpRetries > 0 then d.otpRetries else 0) * n
  {
    if n > 0 {
      AllowanceIsProduct(d, n - 1);
    }
  }

  /** Conservation: hard evaluations are the passed, cached and failed challenges together, soft
      evaluations are the soft-log alerts, and passwords are validated at most `otpRetries` times per
      hard evaluation that was not cached. */
  lemma AlertsAndChallengesBalance(d: Deps, o: Oracle, input: string)
    ensures var t := TallyOf(RunSession(d, o, input).log);
            t.hard == t.hardOtp + t.cached + t.bad &&
            t.soft == t.softLog &&
            t.validated <= (if d.otpRetries > 0 then d.otpRetries else 0) * (t.hard - t.cached)
  {
    SessionInv(d, o, input);
    hide RunSession, TallyOf, Core, Allowance;
    var t := TallyOf(RunSession(d, o, input).log);
    AllowanceIsProduct(d, t.hardOtp + t.bad);
  }

  /** No two passed challenges are for the same line. */
  predicate PassesDiffer(log: seq<Event>) {
    forall i, j :: 0 <= i < j < |log| && log[i].HardOtp? && log[j].HardOtp? ==> log[i].line != log[j].line
  }

  lemma OrderedPassesDiffer(log: seq<Event>)
    requires Ordered(log)
    ensures PassesDiffer(log)
  {
    forall i, j | 0 <= i < j < |log| && log[i].HardOtp? && log[j].HardOtp?
      ensures log[i].line != log[j].line
    {
      assert MayFollow(log[..j], log[j]);
      assert log[..j][i] == log[i];
    }
  }

  /** Each line is passed at most once in a session. */
  lemma PassedOnce(d: Deps, o: Oracle, input: string)
    ensures PassesDiffer(RunSession(d, o, input).log)
  {
    SessionInv(d, o, input);
    hide RunSession;
    OrderedPassesDiffer(RunSession(d, o, input).log);
  }

  /** A line whose challenge fails is run, and recorded when the run succeeds; the loop goes on. */
  lemma FailedChallengeGoesOn(d: Deps, o: Oracle, st: State, line: string)
    ensures var (sev, st1) := Assess(d, o, st.(k := st.k + 1), line, Seconds(o.mono(st.k) - st.last));
            var (passed, st2) := Challenge(o, st1, line, d.otpRetries);
            var reply := o.run(st2.k);
            var (alive, st') := Process(d, o, st, line);
            sev == SevHard && line !in st1.authorized && !passed && reply.ok ==>
              alive && !st'.valid &&
              st'.log == st2.log + [BadOtp(line), Ran(line, SevHard, true)] &&
              |st'.commands| == |st2.commands| + 1 && st'.commands[|st2.commands|].rawCmd == line &&
              st'.input == if reply.eaten <= |st2.input| then st2.input[reply.eaten..] else ""
  {
    hide Assess, Challenge, Seconds, SplitCommand, BuildFeature;
  }

  lemma NoRules(line: string)
    ensures R.CheckOf(R.Rules([], [], 0, [], []), line, "", 0) == R.RuleNone
  {
    hide R.Segments, R.HasShellExpansion;
    var segs := R.Segments(line);
    assert segs != [] ==> !R.Allowed(R.Rules([], [], 0, [], []), segs[0]);
  }

  lemma XIsALine()
    ensures ReadLineOf("x\n") == Line("x", "", false) && ReadLineOf("") == Line("", "", true)
    ensures TrimRightEol("x") == "x" && TrimSpace("x") == "x" && L.VerdictOn("x") == L.Complete
  {
    assert "x\n"[1] == '\n';
    assert "x"[..0] == "";
  }

  /** A filter without rules, a trained vocabulary with novelty off, thresholds below zero and the default
      of three attempts; and a model that finds every line anomalous. */
  function HardDeps(): Deps {
    Deps(R.Rules([], [], 0, [], []), Dicts(map[], map["x" := 1], map[]), -0.5, -0.6, 3, SevNone, "", "")
  }

  function HardOracle(): Oracle {
    Oracle(n => 0, n => 0.0, t => (1.0, 0.0), n => Some(-0.7), n => Wrong, n => RunReply(true, 0))
  }

  lemma HardAssess(st: State, line: string)
    ensures Assess(HardDeps(), HardOracle(), st, line, 0) ==
            (SevHard, st.(k := st.k + 1, log := st.log + [Evaluated(line, SevHard)]))
  {
    NoRules(line);
    hide R.CheckOf, SplitCommand, DetectPath, NovelItems;
    assert NoveltySeverity(SevNone, HardDeps().dicts, SplitCommand(line).0, "", DetectPath(SplitCommand(line).1)).0
        == SevNone;
  }

  /** A challenge at the end of the input gives up at once, however many attempts are left. */
  lemma ChallengeAtTheEnd(o: Oracle, st: State, line: string, left: int)
    requires st.input == ""
    ensures Challenge(o, st, line, left) == (false, st)
  {
    assert ReadLineOf("") == Line("", "", true) && TrimSpace("") == "";
  }

  lemma InputEndsAtPrompt(d: Deps, o: Oracle, st: State, st1: State, line: string)
    requires Assess(d, o, st.(k := st.k + 1), line, Seconds(o.mono(st.k) - st.last)) == (SevHard, st1)
    requires line !in st1.authorized && o.run(st1.k) == RunReply(true, 0)
    requires st1.commands == [] && st1.input == ""
    ensures var (alive, st') := Process(d, o, st, line);
            alive && !st'.valid && st'.input == "" && |st'.commands| == 1 && st'.commands[0].rawCmd == line &&
            st'.log == st1.log + [BadOtp(line), Ran(line, SevHard, true)]
  {
    ChallengeAtTheEnd(o, st1, line, d.otpRetries);
    hide Assess, Seconds, Process, Challenge;
    FailedChallengeGoesOn(d, o, st, line);
  }

  lemma HardProcess(st: State)
    requires st.last == 0.0 && st.authorized == {} && st.commands == [] && st.log == [] && st.input == ""
    ensures var (alive, st') := Process(HardDeps(), HardOracle(), st, "x");
            alive && !st'.valid && st'.input == "" && |st'.commands| == 1 && st'.commands[0].rawCmd == "x" &&
            st'.log == [Evaluated("x", SevHard), BadOtp("x"), Ran("x", SevHard, true)]
  {
    hide Assess, Process;
    var st0 := st.(k := st.k + 1);
    HardAssess(st0, "x");
    assert Seconds(HardOracle().mono(st.k) - st.last) == 0;
    assert st0.log + [Evaluated("x", SevHard)] == [Evaluated("x", SevHard)];
    InputEndsAtPrompt(HardDeps(), HardOracle(), st, st0.(k := st0.k + 1, log := [Evaluated("x", SevHard)]), "x");
  }

  /** For instance: the input ends at the password prompt for `x`, the challenge fails, and `x` is run and
      recorded all the same. */
  lemma FailedChallengeStillRuns()
    ensures var end := RunSession(HardDeps(), HardOracle(), "x\n");
            end.log == [Evaluated("x", SevHard), BadOtp("x"), Ran("x", SevHard, true)] &&
            |end.commands| == 1 && end.commands[0].rawCmd == "x" && !end.valid
  {
    XIsALine();
    var st := Start(HardOracle(), "x\n");
    HardProcess(st.(input := ""));
    hide ReadLineOf, TrimRightEol, TrimSpace, L.VerdictOn, Process, HardDeps;
    var st2 := Process(HardDeps(), HardOracle(), st.(input := ""), "x").1;
    assert Turn(HardDeps(), HardOracle(), st) == (true, st2);
    assert Turn(HardDeps(), HardOracle(), st2) == (false, st2);
  }

  /** Validity is lost for good: a spoiled session stays spoiled. */
  lemma {:induction false} ValidityNeverReturns(d: Deps, o: Oracle, st: State)
    requires !st.valid
    ensures !Loop(d, o, st).valid
    decreases |st.input|
  {
    TurnConsumes(d, o, st);
    TurnNeverRevives(d, o, st);
    hide Turn;
    if Turn(d, o, st).0 {
      ValidityNeverReturns(d, o, Turn(d, o, st).1);
    }
  }

  lemma {:induction false} ChallengeKeepsValid(o: Oracle, st: State, line: string, left: int)
    ensures Challenge(o, st, line, left).1.valid == st.valid
    decreases left
  {
    hide ReadLineOf, TrimSpace;
    if left > 0 {
      var st1 := st.(input := ReadLineOf(st.input).rest);
      ChallengeKeepsValid(o, st1.(k := st1.k + 1).Log(Validated(o.otp(st1.k))), line, left - 1);
    }
  }

  lemma TurnNeverRevives(d: Deps, o: Oracle, st: State)
    requires !st.valid
    ensures !Turn(d, o, st).1.valid
  {
    hide ReadLineOf, TrimSpace, TrimRightEol, L.VerdictOn, Assess, Challenge, Seconds, SplitCommand, BuildFeature;
    var l := ReadLineOf(st.input);
    var line := TrimRightEol(l.text);
    var st0 := st.(input := l.rest);
    var secs := Seconds(o.mono(st0.k) - st0.last);
    AssessKeeps(d, o, st0.(k := st0.k + 1), line, secs);
    var (sev, st1) := Assess(d, o, st0.(k := st0.k + 1), line, secs);
    ChallengeKeepsValid(o, st1, line, d.otpRetries);
  }

  // ----- what is recorded

  /** The record carries the session's address and the feature its own line has under the session's
      dictionaries; only the clock readings come from outside. */
  predicate RecordedWell(d: Deps, c: CommandRecord) {
    var (cmd, args) := SplitCommand(c.rawCmd);
    && c.ip == d.ip
    && c.feat == BuildFeature(d.dicts, c.feat.timeCos, c.feat.timeSin, d.country, cmd, args, c.feat.secsSinceLast)
    && c.feat.secsSinceLast >= 0
  }

  predicate AllRecordedWell(d: Deps, commands: seq<CommandRecord>) {
    forall i :: 0 <= i < |commands| ==> RecordedWell(d, commands[i])
  }

  lemma {:induction false} ChallengeKeepsCommands(o: Oracle, st: State, line: string, left: int)
    ensures var st' := Challenge(o, st, line, left).1;
            st'.commands == st.commands && st'.last == st.last && st'.k >= st.k
    decreases left
  {
    hide ReadLineOf, TrimSpace;
    if left > 0 {
      var st1 := st.(input := ReadLineOf(st.input).rest);
      ChallengeKeepsCommands(o, st1.(k := st1.k + 1).Log(Validated(o.otp(st1.k))), line, left - 1);
    }
  }

  lemma AuthorizeKeepsCommands(d: Deps, o: Oracle, st: State, line: string, sev: Severity)
    ensures var st' := Authorize(d, o, st, line, sev);
            st'.commands == st.commands && st'.last == st.last && st'.k >= st.k
  {
    ChallengeKeepsCommands(o, st, line, d.otpRetries);
    hide Challenge;
  }

  lemma ExecuteRecords(d: Deps, o: Oracle, st: State, line: string, sev: Severity, rec: CommandRecord)
    requires AllRecordedWell(d, st.commands) && RecordedWell(d, rec)
    ensures AllRecordedWell(d, Execute(o, st, line, sev, rec).1.commands)
  {
    hide RecordedWell;
  }

  lemma ProcessRecords(d: Deps, o: Oracle, st: State, line: string)
    requires AllRecordedWell(d, st.commands)
    ensures AllRecordedWell(d, Process(d, o, st, line).1.commands)
  {
    hide Assess, Authorize, Execute, SplitCommand, Seconds, AllRecordedWell;
    var now := o.now(st.k);
    var secs := Seconds(o.mono(st.k) - st.last);
    var (cmd, args) := SplitCommand(line);
    var time := o.timeCycle(now);
    var feat := BuildFeature(d.dicts, time.0, time.1, d.country, cmd, args, secs);
    AssessKeeps(d, o, st.(k := st.k + 1), line, secs);
    var (sev, st1) := Assess(d, o, st.(k := st.k + 1), line, secs);
    AuthorizeKeepsCommands(d, o, st1, line, sev);
    assert RecordedWell(d, CommandRecord(now, feat, line, d.ip));
    ExecuteRecords(d, o, Authorize(d, o, st1, line, sev), line, sev, CommandRecord(now, feat, line, d.ip));
  }

  lemma {:induction false} LoopRecords(d: Deps, o: Oracle, st: State)
    requires AllRecordedWell(d, st.commands)
    ensures AllRecordedWell(d, Loop(d, o, st).commands)
    decreases |st.input|
  {
    TurnConsumes(d, o, st);
    TurnRecords(d, o, st);
    hide Turn, AllRecordedWell;
    if Turn(d, o, st).0 {
      LoopRecords(d, o, Turn(d, o, st).1);
    }
  }

  lemma TurnRecords(d: Deps, o: Oracle, st: State)
    requires AllRecordedWell(d, st.commands)
    ensures AllRecordedWell(d, Turn(d, o, st).1.commands)
  {
    hide Process, ReadLineOf, TrimSpace, TrimRightEol, L.VerdictOn, AllRecordedWell;
    var l := ReadLineOf(st.input);
    ProcessRecords(d, o, st.(input := l.rest), TrimRightEol(l.text));
  }

  /** Every command of every session is recorded with the feature it was scored by. */
  lemma SessionsRecordWell(d: Deps, o: Oracle, input: string)
    ensures AllRecordedWell(d, RunSession(d, o, input).commands)
  {
    hide Loop;
    LoopRecords(d, o, Start(o, input));
  }

  // ----- when commands are timed

  /** `secs` is the elapsed time in whole seconds, cut off, and never negative. */
  predicate Elapsed(secs: int, elapsed: real) {
    if elapsed < 0.0 then secs == 0 else secs as real <= elapsed < secs as real + 1.0
  }

  lemma SecondsElapse(elapsed: real)
    ensures Elapsed(Seconds(elapsed), elapsed)
  {
  }

  /** When the clock was last set: at the start of the session, or after the last of these runs. */
  function LastReset(setAt: seq<nat>): nat {
    if setAt == [] then 0 else setAt[|setAt| - 1]
  }

  /** Command `i` was read at `readAt[i]` and had been run successfully just before `setAt[i]`: its time and
      its distance are those of the reading, the distance counted from the previous reset. */
  ghost predicate Timed(o: Oracle, cs: seq<CommandRecord>, readAt: seq<nat>, setAt: seq<nat>) {
    && |readAt| == |setAt| == |cs|
    && forall i {:trigger cs[i]} :: 0 <= i < |cs| ==>
         && LastReset(setAt[..i]) < readAt[i] && readAt[i] + 1 < setAt[i]
         && o.run(setAt[i] - 1).ok
         && cs[i].ts == o.now(readAt[i])
         && (cs[i].feat.timeCos, cs[i].feat.timeSin) == o.timeCycle(o.now(readAt[i]))
         && Elapsed(cs[i].feat.secsSinceLast, o.mono(readAt[i]) - o.mono(LastReset(setAt[..i])))
  }

  /** So far all commands are timed, and the clock was set at the last reset. */
  ghost predicate TimedSoFar(o: Oracle, st: State, readAt: seq<nat>, setAt: seq<nat>) {
    Timed(o, st.commands, readAt, setAt) && st.last == o.mono(LastReset(setAt)) && LastReset(setAt) < st.k
  }

  lemma OneMoreTimed(o: Oracle, cs: seq<CommandRecord>, readAt: seq<nat>, setAt: seq<nat>,
                     c: CommandRecord, read: nat, reset: nat)
    requires Timed(o, cs, readAt, setAt)
    requires LastReset(setAt) < read && read + 1 < reset && o.run(reset - 1).ok && c.ts == o.now(read)
    requires (c.feat.timeCos, c.feat.timeSin) == o.timeCycle(o.now(read))
    requires Elapsed(c.feat.secsSinceLast, o.mono(read) - o.mono(LastReset(setAt)))
    ensures Timed(o, cs + [c], readAt + [read], setAt + [reset])
  {
    hide Elapsed;
    var cs', readAt', setAt' := cs + [c], readAt + [read], setAt + [reset];
    forall i | 0 <= i < |cs'|
      ensures cs'[i] == (if i < |cs| then cs[i] else c) && setAt'[..i] == setAt[..i]
    {
    }
    assert setAt[..|cs|] == setAt;
    hide LastReset;
  }

  lemma ProcessTimes(d: Deps, o: Oracle, st: State, line: string, readAt: seq<nat>, setAt: seq<nat>)
    requires TimedSoFar(o, st, readAt, setAt)
    ensures var st' := Process(d, o, st, line).1;
            TimedSoFar(o, st', readAt, setAt) ||
            exists reset: nat :: TimedSoFar(o, st', readAt + [st.k], setAt + [reset])
  {
    var now := o.now(st.k);
    var secs := Seconds(o.mono(st.k) - st.last);
    var (cmd, args) := SplitCommand(line);
    var time := o.timeCycle(now);
    var feat := BuildFeature(d.dicts, time.0, time.1, d.country, cmd, args, secs);
    hide Assess, Authorize, SplitCommand, Seconds, Timed, LastReset;
    SecondsElapse(o.mono(st.k) - st.last);
    AssessKeeps(d, o, st.(k := st.k + 1), line, secs);
    var (sev, st1) := Assess(d, o, st.(k := st.k + 1), line, secs);
    AuthorizeKeepsCommands(d, o, st1, line, sev);
    var st2 := Authorize(d, o, st1, line, sev);
    if o.run(st2.k).ok {
      OneMoreTimed(o, st.commands, readAt, setAt, CommandRecord(now, feat, line, d.ip), st.k, st2.k + 1);
      NewReset(setAt, st2.k + 1);
      assert TimedSoFar(o, Process(d, o, st, line).1, readAt + [st.k], setAt + [st2.k + 1]);
    }
  }

  lemma NewReset(setAt: seq<nat>, reset: nat)
    ensures LastReset(setAt + [reset]) == reset
  {
  }

  lemma TurnTimes(d: Deps, o: Oracle, st: State, readAt: seq<nat>, setAt: seq<nat>)
    requires TimedSoFar(o, st, readAt, setAt)
    ensures exists readAt', setAt' :: TimedSoFar(o, Turn(d, o, st).1, readAt', setAt')
  {
    hide Process, ReadLineOf, TrimSpace, TrimRightEol, L.VerdictOn;
    var l := ReadLineOf(st.input);
    var line, st0 := TrimRightEol(l.text), st.(input := l.rest);
    assert TimedSoFar(o, st0, readAt, setAt);
    ProcessTimes(d, o, st0, line, readAt, setAt);
    hide TimedSoFar;
    var end := Turn(d, o, st).1;
    if end != st0 && !TimedSoFar(o, end, readAt, setAt) {
      assert end == Process(d, o, st0, line).1;
      var reset: nat :| TimedSoFar(o, end, readAt + [st0.k], setAt + [reset]);
    }
  }

  lemma {:induction false} LoopTimes(d: Deps, o: Oracle, st: State, readAt: seq<nat>, setAt: seq<nat>)
    requires TimedSoFar(o, st, readAt, setAt)
    ensures exists readAt', setAt' :: TimedSoFar(o, Loop(d, o, st), readAt', setAt')
    decreases |st.input|
  {
    hide Turn, TimedSoFar;
    TurnTimes(d, o, st, readAt, setAt);
    TurnConsumes(d, o, st);
    var readAt', setAt' :| TimedSoFar(o, Turn(d, o, st).1, readAt', setAt');
    if Turn(d, o, st).0 {
      LoopTimes(d, o, Turn(d, o, st).1, readAt', setAt');
      assert Loop(d, o, st) == Loop(d, o, Turn(d, o, st).1);
    } else {
      assert Loop(d, o, st) == Turn(d, o, st).1;
    }
  }

  /** In every session each command is recorded with the time at which it was read, and with the whole
      seconds since the previous successful run ended, or since the session began. */
  lemma CommandsAreTimed(d: Deps, o: Oracle, input: string)
    ensures exists readAt, setAt :: Timed(o, RunSession(d, o, input).commands, readAt, setAt)
  {
    hide Loop, Elapsed;
    assert TimedSoFar(o, Start(o, input), [], []);
    LoopTimes(d, o, Start(o, input), [], []);
    var readAt, setAt :| TimedSoFar(o, RunSession(d, o, input), readAt, setAt);
    assert Timed(o, RunSession(d, o, input).commands, readAt, setAt);
  }

  // ----- which lines are run

  /** A line that is worth a turn: not `exit`, not blank, without its line break, and complete. */
  predicate Enterable(line: string) {
    && line != "exit" && !AllSpace(line) && L.VerdictOn(line) == L.Complete
    && line[|line| - 1] != '\r' && line[|line| - 1] != '\n'
  }

  predicate AllEnterable(log: seq<Event>) {
    forall e :: e in log ==> (e.Evaluated? || e.Ran? ==> Enterable(e.line))
  }

  lemma EnterableMore(log: seq<Event>, e: Event)
    requires AllEnterable(log) && (e.Evaluated? || e.Ran? ==> Enterable(e.line))
    ensures AllEnterable(log + [e])
  {
    hide Enterable;
  }

  lemma AssessEnters(d: Deps, o: Oracle, st: State, line: string, secs: int)
    requires AllEnterable(st.log) && Enterable(line)
    ensures AllEnterable(Assess(d, o, st, line, secs).1.log)
  {
    hide R.CheckOf, SplitCommand, DetectPath, NoveltySeverity, Decide, Enterable;
  }

  lemma {:induction false} ChallengeEnters(o: Oracle, st: State, line: string, left: int)
    requires AllEnterable(st.log)
    ensures AllEnterable(Challenge(o, st, line, left).1.log)
    decreases left
  {
    hide ReadLineOf, TrimSpace, Enterable;
    if left > 0 {
      var st1 := st.(input := ReadLineOf(st.input).rest);
      var e := Validated(o.otp(st1.k));
      EnterableMore(st.log, e);
      EnterableMore(st.log + [e], HardOtp(line));
      hide AllEnterable;
      ChallengeEnters(o, st1.(k := st1.k + 1).Log(e), line, left - 1);
    }
  }

  lemma AuthorizeEnters(d: Deps, o: Oracle, st: State, line: string, sev: Severity)
    requires AllEnterable(st.log)
    ensures AllEnterable(Authorize(d, o, st, line, sev).log)
  {
    ChallengeEnters(o, st, line, d.otpRetries);
    hide Challenge, Enterable;
  }

  lemma ExecuteEnters(o: Oracle, st: State, line: string, sev: Severity, rec: CommandRecord)
    requires AllEnterable(st.log) && Enterable(line)
    ensures AllEnterable(Execute(o, st, line, sev, rec).1.log)
  {
    hide Enterable;
  }

  lemma ProcessEnters(d: Deps, o: Oracle, st: State, line: string)
    requires AllEnterable(st.log) && Enterable(line)
    ensures AllEnterable(Process(d, o, st, line).1.log)
  {
    hide Assess, Authorize, Execute, SplitCommand, BuildFeature, Seconds, AllEnterable, Enterable;
    var now := o.now(st.k);
    var secs := Seconds(o.mono(st.k) - st.last);
    var (cmd, args) := SplitCommand(line);
    var time := o.timeCycle(now);
    var feat := BuildFeature(d.dicts, time.0, time.1, d.country, cmd, args, secs);
    AssessEnters(d, o, st.(k := st.k + 1), line, secs);
    var (sev, st1) := Assess(d, o, st.(k := st.k + 1), line, secs);
    AuthorizeEnters(d, o, st1, line, sev);
    ExecuteEnters(o, Authorize(d, o, st1, line, sev), line, sev, CommandRecord(now, feat, line, d.ip));
  }

  lemma TurnEnters(d: Deps, o: Oracle, st: State)
    requires AllEnterable(st.log)
    ensures AllEnterable(Turn(d, o, st).1.log)
  {
    hide Process, ReadLineOf, TrimSpace, L.VerdictOn, AllEnterable;
    var l := ReadLineOf(st.input);
    var line := TrimRightEol(l.text);
    hide TrimRightEol;
    TrimmedEmpty(line);
    if line != "exit" && TrimSpace(line) != "" && L.VerdictOn(line) == L.Complete {
      assert line != "";
      ProcessEnters(d, o, st.(input := l.rest), line);
    }
  }

  lemma {:induction false} LoopEnters(d: Deps, o: Oracle, st: State)
    requires AllEnterable(st.log)
    ensures AllEnterable(Loop(d, o, st).log)
    decreases |st.input|
  {
    hide Turn, AllEnterable;
    TurnEnters(d, o, st);
    TurnConsumes(d, o, st);
    if Turn(d, o, st).0 {
      LoopEnters(d, o, Turn(d, o, st).1);
    }
  }

  /** Each run is of the line evaluated last, with the severity it was found to have. */
  predicate RunAsEvaluated(log: seq<Event>) {
    forall i {:trigger log[..i]} :: 0 <= i < |log| && log[i].Ran? ==>
      LastEvaluated(log[..i]) == Some(Evaluated(log[i].line, log[i].sev))
  }

  /** In every session only complete, non-blank lines other than `exit` are judged and run, each judged
      before it is run. */
  lemma OnlyJudgedLinesRun(d: Deps, o: Oracle, input: string)
    ensures var log := RunSession(d, o, input).log; AllEnterable(log) && RunAsEvaluated(log)
  {
    LoopEnters(d, o, Start(o, input));
    SessionInv(d, o, input);
    hide RunSession, AllEnterable, RunAsEvaluated;
    OrderedRunsEvaluated(RunSession(d, o, input).log);
  }

  lemma OrderedRunsEvaluated(log: seq<Event>)
    requires Ordered(log)
    ensures RunAsEvaluated(log)
  {
    hide LastEvaluated, Current, EndsBad, EndsPassed;
    forall i | 0 <= i < |log| && log[i].Ran?
      ensures LastEvaluated(log[..i]) == Some(Evaluated(log[i].line, log[i].sev))
    {
      assert MayFollow(log[..i], log[i]);
      CurrentIsLast(log[..i]);
    }
  }

  /** A line of its own: `exit` ends the session with the rest unread; a blank or incomplete line has no
      effect at all. */
  lemma ExitOrSkip(d: Deps, o: Oracle, st: State, text: string, rest: string)
    requires st.input == text + "\n" + rest && '\n' !in text
    ensures TrimRightEol(text) == "exit" ==> Loop(d, o, st) == st.(input := rest)
    ensures var line := TrimRightEol(text);
            line != "exit" && (AllSpace(line) || L.VerdictOn(line) != L.Complete) ==>
              Loop(d, o, st) == Loop(d, o, st.(input := rest))
  {
    assert st.input[|text|] == '\n' && st.input[..|text|] == text && st.input[|text| + 1..] == rest;
    assert forall i :: 0 <= i < |text| ==> st.input[i] == text[i];
    assert ReadLineOf(st.input) == Line(text, rest, false);
    TrimmedEmpty(TrimRightEol(text));
    hide ReadLineOf, TrimRightEol, TrimSpace, L.VerdictOn, Process;
  }

  // ----- the loop as it runs

  /** The loop's surroundings: typed input, the log, and the answers given so far. */
  class Runner {
    const d: Deps
    const o: Oracle
    var input: string
    var log: seq<Event>
    var k: nat

    constructor (d: Deps, o: Oracle, input: string)
      ensures this.d == d && this.o == o && this.input == input && log == [] && k == 0
    {
      this.d, this.o, this.input, log, k := d, o, input, [], 0;
    }

    ghost function View(s: Session, authorized: set<string>, last: real): State
      reads this, s
    {
      State(input, s.valid, s.commands, authorized, log, last, k)
    }

    /** `st` brought up to date with the runner. */
    ghost function Now(st: State): State
      reads this
    {
      st.(input := input, log := log, k := k)
    }

    method ReadInput() returns (l: Line)
      modifies this`input
      ensures l == ReadLineOf(old(input)) && input == l.rest
    {
      l := ReadLine(input);
      input := l.rest;
    }

    method Emit(e: Event)
      modifies this`log
      ensures log == old(log) + [e]
    {
      log := log + [e];
    }

    /** Asks for a password up to the allowed number of times. */
    method ChallengeUser(line: string, ghost st: State) returns (passed: bool)
      requires st == Now(st)
      modifies this
      ensures Challenge(o, st, line, d.otpRetries) == (passed, Now(st))
    {
      hide ReadLineOf, TrimSpace;
      var i := 0;
      while i < d.otpRetries
        invariant 0 <= i && (d.otpRetries >= 0 ==> i <= d.otpRetries)
        invariant Challenge(o, st, line, d.otpRetries) == Challenge(o, Now(st), line, d.otpRetries - i)
        decreases d.otpRetries - i
      {
        var l := ReadInput();
        if TrimSpace(l.text) == "" && l.eof {
          return false;
        }
        var reply := o.otp(k);
        k := k + 1;
        Emit(Validated(reply));
        if reply == Passed {
          Emit(HardOtp(line));
          return true;
        }
        i := i + 1;
      }
      return false;
    }

    method AskModel(ghost st: State) returns (sev: Severity)
      requires st == Now(st)
      modifies this`log, this`k
      ensures ScoreSeverity(d, o, st) == (sev, Now(st))
    {
      var score := o.score(k);
      k := k + 1;
      if score == None {
        Emit(ScorerTimeout);
      }
      sev := Decide(score, d.softThr, d.hardThr);
    }

    method AssessLine(line: string, secs: int, ghost st: State) returns (sev: Severity)
      requires st == Now(st)
      modifies this`log, this`k
      ensures Assess(d, o, st, line, secs) == (sev, Now(st))
    {
      hide Decide, SplitCommand, DetectPath, NoveltySeverity;
      var outcome := R.Check(d.rules, line, d.country, secs);
      hide R.CheckOf;
      match outcome {
        case RuleChallengeHard => sev := SevHard;
        case RuleChallengeSoft => sev := SevSoft;
        case RuleAllow => sev := SevNone;
        case RuleNone => sev := AskModel(st);
      }
      if outcome == R.RuleChallengeHard {
        Emit(RuleDeny(line));
      }
      assert RuleSeverity(d, o, st, line, outcome) == (sev, Now(st));
      if outcome != R.RuleAllow {
        var (cmd, args) := SplitCommand(line);
        var (nsev, reason) := NoveltySeverity(d.novelty, d.dicts, cmd, d.country, DetectPath(args));
        if nsev.Rank() > sev.Rank() {
          sev := nsev;
          Emit(Novelty(reason, line));
        }
      }
      Emit(Evaluated(line, sev));
    }

    method AuthorizeLine(line: string, sev: Severity, s: Session, authorized: set<string>, ghost last: real)
      returns (authorized': set<string>)
      modifies this, s`valid
      ensures View(s, authorized', last) == Authorize(d, o, old(View(s, authorized, last)), line, sev)
    {
      hide Challenge;
      authorized' := authorized;
      match sev {
        case SevNone =>
        case SevSoft =>
          Emit(SoftLog(line));
        case SevHard =>
          if line in authorized {
            Emit(OtpCached(line));
          } else {
            var passed := ChallengeUser(line, View(s, authorized, last));
            if passed {
              authorized' := authorized + {line};
            } else {
              // The source's `break` leaves the switch here, not the loop.
              s.valid := false;
              Emit(BadOtp(line));
            }
          }
      }
    }

    method ExecuteLine(line: string, sev: Severity, rec: CommandRecord, s: Session,
                       ghost authorized: set<string>, last: real)
      returns (alive: bool, last': real)
      modifies this, s
      ensures (alive, View(s, authorized, last')) == Execute(o, old(View(s, authorized, last)), line, sev, rec)
      ensures s.startTS == old(s.startTS)
    {
      var reply := o.run(k);
      k := k + 1;
      input := if reply.eaten <= |input| then input[reply.eaten..] else "";
      Emit(Ran(line, sev, reply.ok));
      last' := last;
      alive := reply.ok;
      if !alive {
        Emit(ShellError(line));
        s.valid := false;
        return;
      }
      s.Add(rec);
      last' := o.mono(k);
      k := k + 1;
    }

    /** One complete command line. */
    method ProcessLine(line: string, s: Session, authorized: set<string>, last: real)
      returns (alive: bool, authorized': set<string>, last': real)
      modifies this, s
      ensures (alive, View(s, authorized', last')) == Process(d, o, old(View(s, authorized, last)), line)
      ensures s.startTS == old(s.startTS)
    {
      hide Assess, Authorize, Execute, BuildFeature, SplitCommand, Seconds;
      ghost var st := View(s, authorized, last);
      var now := o.now(k);
      var secs := Seconds(o.mono(k) - last);
      k := k + 1;
      var (cmd, args) := SplitCommand(line);
      var time := o.timeCycle(now);
      var feat := BuildFeature(d.dicts, time.0, time.1, d.country, cmd, args, secs);
      var sev := AssessLine(line, secs, View(s, authorized, last));
      AssessKeeps(d, o, st.(k := st.k + 1), line, secs);
      authorized' := AuthorizeLine(line, sev, s, authorized, last);
      alive, last' := ExecuteLine(line, sev, CommandRecord(now, feat, line, d.ip), s, authorized', last);
    }

    /** One turn of the loop: a line is read and, when it is a complete command, processed. */
    method TakeTurn(s: Session, authorized: set<string>, last: real)
      returns (running: bool, authorized': set<string>, last': real)
      modifies this, s
      ensures (running, View(s, authorized', last')) == Turn(d, o, old(View(s, authorized, last)))
      ensures s.startTS == old(s.startTS)
    {
      hide Process, ReadLineOf, TrimRightEol, TrimSpace, L.VerdictOn;
      authorized', last' := authorized, last;
      var l := ReadInput();
      var line := TrimRightEol(l.text);
      if line == "exit" || (l.eof && line == "") {
        return false, authorized', last';
      }
      if TrimSpace(line) == "" {
        return !l.eof, authorized', last';
      }
      var verdict := L.LineComplete(line);
      if verdict != L.Complete {
        return !l.eof, authorized', last';
      }
      var alive;
      alive, authorized', last' := ProcessLine(line, s, authorized, last);
      running := alive && !l.eof;
    }

    /** The command loop until `exit`, the end of input or a dead shell. */
    method RunREPL() returns (s: Session)
      requires log == [] && k == 0
      modifies this
      ensures fresh(s)
      ensures var end := RunSession(d, o, old(input));
              input == end.input && log == end.log && s.valid == end.valid && s.commands == end.commands &&
              s.startTS == o.now(0) && s.endTS == o.now(end.k)
    {
      s := new Session(o.now(0));
      var authorized: set<string>, last := {}, o.mono(0);
      k := 1;
      ghost var end := RunSession(d, o, input);
      var running := true;
      hide Turn;
      while running
        invariant fresh(s) && s.startTS == o.now(0)
        invariant running ==> Loop(d, o, View(s, authorized, last)) == end
        invariant !running ==> View(s, authorized, last) == end
        decreases running, |input|
      {
        TurnConsumes(d, o, View(s, authorized, last));
        running, authorized, last := TakeTurn(s, authorized, last);
      }
      s.endTS := o.now(k);
    }
  }
}
