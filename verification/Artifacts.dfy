/** The generation protocol of a user's artifacts: a training run that may stop at any point writes
    model, signature, thresholds, meta and dictionaries in this order; sessions read two of them at
    login; the daemon guards every score by generation and then asks the cache for the model.

    The state contains the whole cache protocol, so what is proved here holds for every interleaving
    of training, logins, requests and cache steps. */
module Artifacts {
  import opened Text
  import C = CacheProtocol

  type Sid = int

  /** How far the current training run has come.  `Resting` remembers whether the last one finished. */
  datatype Writer =
    | Resting(completed: bool)
    | Fitted(gen: int)
    | ModelOut(gen: int)
    | SignatureOut(gen: int)
    | ThresholdsOut(gen: int)
    | MetaOut(gen: int)

  /** A login reads dicts.json first and thresholds.json second; both are kept for the session. */
  datatype Login = HalfRead(dicts: Option<int>) | LoggedIn(dicts: Option<int>, thresholds: Option<int>)

  /** What the guard of a request saw: the thresholds' generation at login, the meta file, and whether
      training was at rest after a completed run. */
  datatype Guarded = Guarded(thresholds: Option<int>, meta: Option<int>, atRest: bool, starts: nat)

  datatype World = World(
    cache: C.State,
    user: C.User,
    signs: bool,
    thresholds: Option<int>,
    meta: Option<int>,
    dicts: Option<int>,
    writer: Writer,
    lastGen: int,
    starts: nat,
    logins: map<Sid, Login>,
    requests: map<C.Tid, Guarded>)
  {
    function Disk(): C.Disk {
      C.DiskOf(cache.disks, user)
    }

    function History(): seq<C.Version> {
      Disk().history
    }
  }

  datatype Step =
    | StartTraining(gen: int)
    | WriteModel(v: C.Version)
    | WriteSignature(mac: C.Mac)
    | WriteThresholds
    | WriteMeta
    | PublishDicts
    | Crash
    | ReadDicts(sid: Sid)
    | ReadThresholds(sid: Sid)
    | Request(t: C.Tid, sid: Sid, now: int)
    | CacheStep(step: C.Step)

  /** The generation a session sends: zero when it found no thresholds. */
  function SentGen(thresholds: Option<int>): int {
    if thresholds.Some? then thresholds.value else 0
  }

  /** The daemon scores unless the meta file is there and names another generation. */
  predicate GuardPasses(meta: Option<int>, sent: int) {
    meta.Some? ==> meta.value == sent
  }

  /** Cache steps that do not belong to the writer or start a request for the user. */
  predicate Outside(w: World, step: C.Step) {
    match step
    case Rewrite(u, _) => u != w.user
    case Resign(u, _) => u != w.user
    case Begin(_, u, _) => u != w.user
    case _ => true
  }

  /** A training run: the trainer's four writes, then the dictionaries.  It may stop anywhere. */
  function Train(cfg: C.Config, w: World, step: Step): World {
    match (step, w.writer)
    case (StartTraining(gen), Resting(_)) =>
      if gen >= w.lastGen && gen > 0 then w.(writer := Fitted(gen), lastGen := gen, starts := w.starts + 1) else w
    case (WriteModel(v), Fitted(gen)) =>
      if v.gen == gen then w.(cache := C.Next(cfg, w.cache, C.Rewrite(w.user, v)), writer := ModelOut(gen)) else w
    case (WriteSignature(mac), ModelOut(gen)) =>
      if w.signs then w.(cache := C.Next(cfg, w.cache, C.Resign(w.user, Some(mac))), writer := SignatureOut(gen)) else w
    case (WriteThresholds, ModelOut(gen)) =>
      if !w.signs then w.(thresholds := Some(gen), writer := ThresholdsOut(gen)) else w
    case (WriteThresholds, SignatureOut(gen)) => w.(thresholds := Some(gen), writer := ThresholdsOut(gen))
    case (WriteMeta, ThresholdsOut(gen)) => w.(meta := Some(gen), writer := MetaOut(gen))
    case (PublishDicts, MetaOut(gen)) => w.(dicts := Some(gen), writer := Resting(true))
    case (Crash, Resting(_)) => w
    case (Crash, _) => w.(writer := Resting(false))
    case _ => w
  }

  /** One step of the world; a step that is not enabled changes nothing. */
  function Next(cfg: C.Config, w: World, step: Step): World {
    match step
    case ReadDicts(sid) => w.(logins := w.logins[sid := HalfRead(w.dicts)])
    case ReadThresholds(sid) =>
      if sid in w.logins && w.logins[sid].HalfRead?
      then w.(logins := w.logins[sid := LoggedIn(w.logins[sid].dicts, w.thresholds)])
      else w
    case Request(t, sid, now) =>
      if sid in w.logins && w.logins[sid].LoggedIn? && GuardPasses(w.meta, SentGen(w.logins[sid].thresholds))
      then w.(cache := C.Next(cfg, w.cache, C.Begin(t, w.user, now)),
              requests := w.requests[t := Guarded(w.logins[sid].thresholds, w.meta,
                                                  w.writer == Resting(true), w.starts)])
      else w
    case CacheStep(s) =>
      if !Outside(w, s) then w
      else w.(cache := C.Next(cfg, w.cache, s), requests := if s.Begin? then w.requests - {s.t} else w.requests)
    case _ => Train(cfg, w, step)
  }

  function Run(cfg: C.Config, w: World, steps: seq<Step>): World {
    if steps == [] then w else Next(cfg, Run(cfg, w, steps[..|steps| - 1]), steps[|steps| - 1])
  }

  predicate Initial(w: World) {
    && C.Initial(w.cache) && (forall u :: u in w.cache.disks ==> C.GoodSidecar(w.cache.disks[u]))
    && w.History() == []
    && w.thresholds == None && w.meta == None && w.dicts == None
    && w.writer == Resting(false) && w.lastGen == 0
    && w.logins == map[] && w.requests == map[]
  }

  // ----- the chain of generations

  /** `a` is no newer than `b`, and `b` is there when `a` is. */
  predicate Older(a: Option<int>, b: Option<int>) {
    a.Some? ==> b.Some? && a.value <= b.value
  }

  /** Generation of the latest model ever put in place. */
  function ModelGen(h: seq<C.Version>): Option<int> {
    if h == [] then None else Some(h[|h| - 1].gen)
  }

  predicate Ascending(h: seq<C.Version>) {
    forall i, j :: 0 <= i <= j < |h| ==> h[i].gen <= h[j].gen
  }

  /** gen(model) >= gen(thresholds) >= gen(meta) >= gen(dicts). */
  predicate Chain(w: World) {
    && Older(w.thresholds, ModelGen(w.History()))
    && Older(w.meta, w.thresholds)
    && Older(w.dicts, w.meta)
  }

  predicate Progress(w: World) {
    var model := ModelGen(w.History());
    match w.writer
    case Resting(completed) => completed ==> model.Some? && w.thresholds == w.meta == w.dicts == model
    case Fitted(gen) => gen == w.lastGen
    case ModelOut(gen) => gen == w.lastGen && model == Some(gen)
    case SignatureOut(gen) => gen == w.lastGen && model == Some(gen)
    case ThresholdsOut(gen) => gen == w.lastGen && model == w.thresholds == Some(gen)
    case MetaOut(gen) => gen == w.lastGen && model == w.thresholds == w.meta == Some(gen)
  }

  predicate WriterInv(w: World) {
    && Ascending(w.History()) && Chain(w) && Progress(w)
    && (ModelGen(w.History()).Some? ==> ModelGen(w.History()).value <= w.lastGen)
    && w.lastGen >= 0 && (w.meta.Some? ==> w.meta.value > 0) && (w.writer.Resting? || w.writer.gen > 0)
  }

  /** A login's dictionaries are never newer than its thresholds, nor these than the files. */
  predicate LoginInv(w: World, l: Login) {
    match l
    case HalfRead(dicts) => Older(dicts, w.thresholds)
    case LoggedIn(dicts, thresholds) => Older(dicts, thresholds) && Older(thresholds, w.thresholds)
  }

  /** What a guarded request knows of the version its stat saw. */
  predicate RequestInv(w: World, g: Guarded, pc: C.Pc) {
    && Older(g.thresholds, w.thresholds) && Older(g.meta, w.meta)
    && GuardPasses(g.meta, SentGen(g.thresholds))
    && pc.u == w.user
    && (g.atRest && g.starts == w.starts ==> w.writer == Resting(true) && g.meta == w.meta)
    && g.starts <= w.starts
    && (SawVersion(pc) ==> SeenAt(pc) < |w.History()| && RecentEnough(w, g, SeenAt(pc)))
  }

  predicate RecentEnough(w: World, g: Guarded, at: nat)
    requires at < |w.History()|
  {
    && Older(g.thresholds, Some(w.History()[at].gen))
    && Older(g.meta, Some(w.History()[at].gen))
    && (g.atRest && g.starts == w.starts ==> at == |w.History()| - 1)
  }

  predicate SawVersion(pc: C.Pc) {
    pc.Statted? || pc.Missed? || pc.Loaded? || pc.Signed? || pc.Ready? || pc.Returned?
  }

  function SeenAt(pc: C.Pc): nat
    requires SawVersion(pc)
  {
    match pc
    case Statted(_, _, _, at) => at
    case Missed(_, _, _, at) => at
    case Loaded(_, _, _, at, _) => at
    case Signed(_, _, _, at, _) => at
    case Ready(_, _, _, at, _) => at
    case Returned(_, at, _) => at
  }

  predicate Inv(cfg: C.Config, w: World) {
    && C.Inv(cfg, w.cache)
    && WriterInv(w)
    && (forall sid :: sid in w.logins ==> LoginInv(w, w.logins[sid]))
    && (forall t :: t in w.requests ==> t in w.cache.threads && RequestInv(w, w.requests[t], w.cache.threads[t]))
  }

  // ----- steps of the cache

  /** A cache step outside the writer's reach leaves the user's versions alone. */
  lemma OutsideKeepsHistory(cfg: C.Config, w: World, step: C.Step)
    requires Outside(w, step)
    ensures C.DiskOf(C.Next(cfg, w.cache, step).disks, w.user).history == w.History()
  {
    hide C.Evicted;
  }

  /** A step moves at most its own thread, which stays with its user and, once it has seen a version,
      with that version; a stat sees the latest. */
  lemma ThreadMoves(cfg: C.Config, s: C.State, step: C.Step, t: C.Tid)
    requires t in s.threads && !(step.Begin? && step.t == t)
    ensures var s' := C.Next(cfg, s, step);
            t in s'.threads &&
            var pc, pc' := s.threads[t], s'.threads[t];
            pc'.u == pc.u &&
            (SawVersion(pc') ==>
               if SawVersion(pc) then SeenAt(pc') == SeenAt(pc)
               else SeenAt(pc') == |C.DiskOf(s.disks, pc.u).history| - 1)
  {
    hide C.Evicted, C.SidecarAccepts, C.KeyOf, C.DiskOf;
    if !C.Moves(step, t) {
      C.OthersStay(cfg, s, step, t);
      hide C.Next, SawVersion, SeenAt;
    }
  }

  /** Whatever a request's guard saw, the version now in place is recent enough. */
  lemma LatestIsRecent(w: World, g: Guarded)
    requires Chain(w) && Older(g.thresholds, w.thresholds) && Older(g.meta, w.meta) && w.History() != []
    ensures RecentEnough(w, g, |w.History()| - 1)
  {
  }

  lemma RequestMoves(cfg: C.Config, w: World, step: C.Step, t: C.Tid)
    requires WriterInv(w) && Outside(w, step) && !(step.Begin? && step.t == t)
    requires t in w.requests && t in w.cache.threads && RequestInv(w, w.requests[t], w.cache.threads[t])
    ensures var w' := w.(cache := C.Next(cfg, w.cache, step));
            t in w'.cache.threads && RequestInv(w', w.requests[t], w'.cache.threads[t])
  {
    hide C.Next, C.DiskOf, Ascending, Progress, Outside, GuardPasses;
    OutsideKeepsHistory(cfg, w, step);
    ThreadMoves(cfg, w.cache, step, t);
    var g, pc := w.requests[t], w.cache.threads[t];
    var w' := w.(cache := C.Next(cfg, w.cache, step));
    assert w'.History() == w.History();
    if w.History() != [] {
      LatestIsRecent(w, g);
    }
    hide WriterInv, RecentEnough, Older;
  }

  /** The files and the writer are the same. */
  predicate SameFiles(w: World, w': World) {
    && w'.user == w.user && w'.History() == w.History() && w'.thresholds == w.thresholds && w'.meta == w.meta
    && w'.dicts == w.dicts && w'.writer == w.writer && w'.lastGen == w.lastGen && w'.starts == w.starts
  }

  lemma SameFilesKeepWriterInv(w: World, w': World)
    requires WriterInv(w) && SameFiles(w, w')
    ensures WriterInv(w')
  {
    hide C.DiskOf;
  }

  lemma SameFilesKeepRequest(w: World, w': World, g: Guarded, pc: C.Pc)
    requires RequestInv(w, g, pc) && SameFiles(w, w')
    ensures RequestInv(w', g, pc)
  {
    hide C.DiskOf;
  }

  lemma SameFilesKeepLogin(w: World, w': World, l: Login)
    requires LoginInv(w, l) && SameFiles(w, w')
    ensures LoginInv(w', l)
  {
    hide C.DiskOf;
  }

  lemma CacheStepKeepsInv(cfg: C.Config, w: World, step: C.Step)
    requires Inv(cfg, w) && Outside(w, step)
    ensures Inv(cfg, Next(cfg, w, CacheStep(step)))
  {
    hide C.Inv, C.Next, WriterInv, RequestInv, Outside, C.DiskOf;
    C.StepKeepsInv(cfg, w.cache, step);
    OutsideKeepsHistory(cfg, w, step);
    var w' := Next(cfg, w, CacheStep(step));
    assert SameFiles(w, w') && SameFiles(w.(cache := w'.cache), w');
    SameFilesKeepWriterInv(w, w');
    hide SameFiles;
    forall t | t in w'.requests
      ensures t in w'.cache.threads && RequestInv(w', w'.requests[t], w'.cache.threads[t])
    {
      RequestMoves(cfg, w, step, t);
      SameFilesKeepRequest(w.(cache := w'.cache), w', w'.requests[t], w'.cache.threads[t]);
    }
    assert forall sid :: sid in w.logins ==> LoginInv(w, w.logins[sid]);
  }

  // ----- steps of the writer

  /** The writer only moves files forward; after a completed run it can only start another. */
  predicate Forward(w: World, w': World) {
    && w'.user == w.user
    && w.History() <= w'.History()
    && Older(w.thresholds, w'.thresholds) && Older(w.meta, w'.meta)
    && w.starts <= w'.starts
    && (w.writer == Resting(true) && w.starts == w'.starts ==>
          w'.writer == Resting(true) && w'.meta == w.meta && w'.History() == w.History())
  }

  lemma RequestSurvives(w: World, w': World, g: Guarded, pc: C.Pc)
    requires RequestInv(w, g, pc) && Forward(w, w')
    ensures RequestInv(w', g, pc)
  {
    if SawVersion(pc) {
      assert w'.History()[SeenAt(pc)] == w.History()[SeenAt(pc)];
    }
  }

  lemma LoginSurvives(w: World, w': World, l: Login)
    requires LoginInv(w, l) && Older(w.thresholds, w'.thresholds)
    ensures LoginInv(w', l)
  {
  }

  lemma ForwardKeepsInv(cfg: C.Config, w: World, w': World)
    requires Inv(cfg, w) && Forward(w, w') && WriterInv(w') && C.Inv(cfg, w'.cache)
    requires w'.logins == w.logins && w'.requests == w.requests && w'.cache.threads == w.cache.threads
    ensures Inv(cfg, w')
  {
    forall t | t in w'.requests
      ensures RequestInv(w', w'.requests[t], w'.cache.threads[t])
    {
      RequestSurvives(w, w', w.requests[t], w.cache.threads[t]);
    }
    forall sid | sid in w'.logins
      ensures LoginInv(w', w'.logins[sid])
    {
      LoginSurvives(w, w', w.logins[sid]);
    }
  }

  lemma ModelWritten(cfg: C.Config, w: World, v: C.Version)
    requires WriterInv(w) && w.writer.Fitted? && v.gen == w.writer.gen
    ensures var w' := Train(cfg, w, WriteModel(v));
            WriterInv(w') && Forward(w, w') && w'.History() == w.History() + [v]
  {
    var w' := Train(cfg, w, WriteModel(v));
    assert w'.History() == w.History() + [v];
  }

  lemma ForwardReflexive(w: World)
    ensures Forward(w, w)
  {
  }

  lemma SignatureWritten(cfg: C.Config, w: World, mac: C.Mac)
    requires WriterInv(w)
    ensures var w' := Train(cfg, w, WriteSignature(mac)); WriterInv(w') && Forward(w, w')
  {
    assert Train(cfg, w, WriteSignature(mac)).History() == w.History();
  }

  lemma PlainWrite(cfg: C.Config, w: World, step: Step)
    requires WriterInv(w) && !step.WriteModel? && !step.WriteSignature?
    ensures var w' := Train(cfg, w, step); WriterInv(w') && Forward(w, w')
  {
    hide C.Next, C.DiskOf, Ascending, ModelGen;
    assert Train(cfg, w, step).cache == w.cache;
    assert Train(cfg, w, step).History() == w.History();
  }

  lemma TrainMovesForward(cfg: C.Config, w: World, step: Step)
    requires WriterInv(w)
    ensures var w' := Train(cfg, w, step);
            WriterInv(w') && Forward(w, w') &&
            w'.logins == w.logins && w'.requests == w.requests && w'.cache.threads == w.cache.threads
  {
    hide WriterInv, Forward, C.Act, C.Evicted;
    if step.WriteSignature? {
      SignatureWritten(cfg, w, step.mac);
    } else if !step.WriteModel? {
      PlainWrite(cfg, w, step);
    } else if w.writer.Fitted? && step.v.gen == w.writer.gen {
      ModelWritten(cfg, w, step.v);
    } else {
      ForwardReflexive(w);
    }
  }

  lemma TrainKeepsInv(cfg: C.Config, w: World, step: Step)
    requires Inv(cfg, w)
    ensures Inv(cfg, Train(cfg, w, step))
  {
    TrainMovesForward(cfg, w, step);
    var w' := Train(cfg, w, step);
    if step.WriteModel? {
      C.StepKeepsInv(cfg, w.cache, C.Rewrite(w.user, step.v));
    } else if step.WriteSignature? {
      C.StepKeepsInv(cfg, w.cache, C.Resign(w.user, Some(step.mac)));
    }
    hide C.Inv, WriterInv, Forward, RequestInv, LoginInv, C.Next;
    assert C.Inv(cfg, w'.cache);
    ForwardKeepsInv(cfg, w, w');
  }

  // ----- steps of sessions

  /** A request that has just passed the guard. */
  lemma NewRequest(w: World, l: Login, now: int)
    requires WriterInv(w) && l.LoggedIn? && LoginInv(w, l) && GuardPasses(w.meta, SentGen(l.thresholds))
    ensures RequestInv(w, Guarded(l.thresholds, w.meta, w.writer == Resting(true), w.starts), C.Started(w.user, now))
  {
    hide C.DiskOf, Ascending, Chain, Progress;
  }

  lemma RequestKeepsInv(cfg: C.Config, w: World, t: C.Tid, sid: Sid, now: int)
    requires Inv(cfg, w)
    ensures Inv(cfg, Next(cfg, w, Request(t, sid, now)))
  {
    hide C.Inv, WriterInv, RequestInv, LoginInv, GuardPasses, C.DiskOf;
    C.StepKeepsInv(cfg, w.cache, C.Begin(t, w.user, now));
    var w' := Next(cfg, w, Request(t, sid, now));
    assert SameFiles(w, w');
    if sid in w.logins && w.logins[sid].LoggedIn? && GuardPasses(w.meta, SentGen(w.logins[sid].thresholds)) {
      NewRequest(w, w.logins[sid], now);
      hide SameFiles;
      SameFilesKeepWriterInv(w, w');
      forall r | r in w'.requests
        ensures r in w'.cache.threads && RequestInv(w', w'.requests[r], w'.cache.threads[r])
      {
        SameFilesKeepRequest(w, w', w'.requests[r], w'.cache.threads[r]);
      }
      forall l | l in w'.logins
        ensures LoginInv(w', w'.logins[l])
      {
        SameFilesKeepLogin(w, w', w'.logins[l]);
      }
    }
  }

  /** Dictionaries are read before thresholds, and thresholds are always at least as new. */
  lemma NewLogin(w: World, sid: Sid, step: Step)
    requires WriterInv(w) && (forall l :: l in w.logins ==> LoginInv(w, w.logins[l]))
    requires step == ReadDicts(sid) || (step == ReadThresholds(sid) && sid in w.logins && w.logins[sid].HalfRead?)
    ensures LoginInv(w, if step.ReadDicts? then HalfRead(w.dicts) else LoggedIn(w.logins[sid].dicts, w.thresholds))
  {
    hide C.DiskOf, Ascending, Progress;
  }

  function TrainingSteps(v: C.Version): seq<Step> {
    [StartTraining(v.gen), WriteModel(v), WriteThresholds, WriteMeta, PublishDicts]
  }

  lemma RunSnoc(cfg: C.Config, w: World, steps: seq<Step>, last: Step)
    ensures Run(cfg, w, steps + [last]) == Next(cfg, Run(cfg, w, steps), last)
  {
    assert (steps + [last])[..|steps|] == steps;
  }

  /** A whole training run of an unsigned model. */
  lemma TrainingCompletes(cfg: C.Config, w: World, v: C.Version)
    requires w.writer.Resting? && !w.signs && v.gen > 0 && v.gen >= w.lastGen
    ensures Run(cfg, w, TrainingSteps(v)).dicts == Some(v.gen)
  {
    var steps := TrainingSteps(v);
    hide Next;
    assert Run(cfg, w, []) == w;
    RunSnoc(cfg, w, [], steps[0]);
    RunSnoc(cfg, w, steps[..1], steps[1]);
    RunSnoc(cfg, w, steps[..2], steps[2]);
    RunSnoc(cfg, w, steps[..3], steps[3]);
    RunSnoc(cfg, w, steps[..4], steps[4]);
    assert steps[..1] == [] + [steps[0]] && steps[..2] == steps[..1] + [steps[1]];
    assert steps[..3] == steps[..2] + [steps[2]];
    assert steps[..4] == steps[..3] + [steps[3]] && steps == steps[..4] + [steps[4]];
    hide Run, TrainingSteps;
    FiveSteps(cfg, w, v);
  }

  lemma FiveSteps(cfg: C.Config, w: World, v: C.Version)
    requires w.writer.Resting? && !w.signs && v.gen > 0 && v.gen >= w.lastGen
    ensures var w2 := Next(cfg, Next(cfg, w, StartTraining(v.gen)), WriteModel(v));
            Next(cfg, Next(cfg, Next(cfg, w2, WriteThresholds), WriteMeta), PublishDicts).dicts == Some(v.gen)
  {
    hide C.Next;
  }

  /** The other order does not do: a login that reads thresholds, lets a training run of a newer
      generation complete, and then reads dictionaries, has dictionaries newer than its thresholds. */
  lemma ThresholdsFirstIsInconsistent(cfg: C.Config, w: World, v: C.Version)
    requires WriterInv(w) && w.writer.Resting? && !w.signs && v.gen > w.lastGen
    ensures var end := Run(cfg, w, TrainingSteps(v)); !LoginInv(end, LoggedIn(end.dicts, w.thresholds))
  {
    TrainingCompletes(cfg, w, v);
    hide Run, TrainingSteps, C.DiskOf, Ascending, Progress;
  }

  lemma LoginKeepsInv(cfg: C.Config, w: World, step: Step)
    requires Inv(cfg, w) && (step.ReadDicts? || step.ReadThresholds?)
    ensures Inv(cfg, Next(cfg, w, step))
  {
    hide C.Inv, WriterInv, RequestInv, LoginInv, C.DiskOf;
    var w' := Next(cfg, w, step);
    assert SameFiles(w, w');
    if step.ReadDicts? || (step.sid in w.logins && w.logins[step.sid].HalfRead?) {
      NewLogin(w, step.sid, step);
    }
    hide SameFiles;
    SameFilesKeepWriterInv(w, w');
    forall t | t in w'.requests
      ensures RequestInv(w', w'.requests[t], w'.cache.threads[t])
    {
      SameFilesKeepRequest(w, w', w'.requests[t], w'.cache.threads[t]);
    }
    forall l | l in w'.logins
      ensures LoginInv(w', w'.logins[l])
    {
      SameFilesKeepLogin(w, w', w'.logins[l]);
    }
  }

  /** Every step of the world keeps the invariant. */
  lemma StepKeepsInv(cfg: C.Config, w: World, step: Step)
    requires Inv(cfg, w)
    ensures Inv(cfg, Next(cfg, w, step))
  {
    hide Inv, Train;
    match step
    case ReadDicts(_) => LoginKeepsInv(cfg, w, step);
    case ReadThresholds(_) => LoginKeepsInv(cfg, w, step);
    case Request(t, sid, now) => RequestKeepsInv(cfg, w, t, sid, now);
    case CacheStep(s) => if Outside(w, s) { CacheStepKeepsInv(cfg, w, s); }
    case _ => TrainKeepsInv(cfg, w, step);
  }

  lemma InitialInv(cfg: C.Config, w: World)
    requires Initial(w)
    ensures Inv(cfg, w)
  {
  }

  lemma {:induction false} RunKeepsInv(cfg: C.Config, w: World, steps: seq<Step>)
    requires Initial(w)
    ensures Inv(cfg, Run(cfg, w, steps))
    decreases |steps|
  {
    hide Inv, Initial;
    if steps == [] {
      InitialInv(cfg, w);
    } else {
      var before, last := steps[..|steps| - 1], steps[|steps| - 1];
      RunKeepsInv(cfg, w, before);
      StepKeepsInv(cfg, Run(cfg, w, before), last);
    }
  }

  // ----- a login is two reads

  predicate ReadsFor(step: Step, sid: Sid) {
    step == ReadDicts(sid) || step == ReadThresholds(sid)
  }

  lemma {:induction false} HalfReadStays(cfg: C.Config, w: World, steps: seq<Step>, sid: Sid)
    requires sid in w.logins && forall i :: 0 <= i < |steps| ==> !ReadsFor(steps[i], sid)
    ensures sid in Run(cfg, w, steps).logins && Run(cfg, w, steps).logins[sid] == w.logins[sid]
    decreases |steps|
  {
    if steps != [] {
      HalfReadStays(cfg, w, steps[..|steps| - 1], sid);
      hide C.Next;
    }
  }

  /** A session has the dictionaries that were there at its first read and the thresholds that were there at
      its second, whatever training, requests and other logins do in between. */
  lemma LoginIsTwoReads(cfg: C.Config, w: World, steps: seq<Step>, sid: Sid)
    requires forall i :: 0 <= i < |steps| ==> !ReadsFor(steps[i], sid)
    ensures var before := Run(cfg, Next(cfg, w, ReadDicts(sid)), steps);
            var after := Next(cfg, before, ReadThresholds(sid));
            sid in after.logins && after.logins[sid] == LoggedIn(w.dicts, before.thresholds)
  {
    HalfReadStays(cfg, Next(cfg, w, ReadDicts(sid)), steps, sid);
    hide Run;
  }

  // ----- the theorems

  /** Over every run, crashes included and whatever the times of the files:
      gen(model) >= gen(thresholds) >= gen(meta) >= gen(dicts), each present only if the one before it has
      been; and a login snapshot never pairs dictionaries with older thresholds. */
  lemma GenerationsAreChained(cfg: C.Config, w: World, steps: seq<Step>)
    requires Initial(w)
    ensures var end := Run(cfg, w, steps);
            Chain(end) &&
            forall sid :: sid in end.logins && end.logins[sid].LoggedIn? ==>
              Older(end.logins[sid].dicts, end.logins[sid].thresholds)
  {
    RunKeepsInv(cfg, w, steps);
    var end := Run(cfg, w, steps);
    forall sid | sid in end.logins && end.logins[sid].LoggedIn?
      ensures Older(end.logins[sid].dicts, end.logins[sid].thresholds)
    {
      assert LoginInv(end, end.logins[sid]);
    }
  }

  /** A reply scored with model `found` to a request whose guard saw `g`.  If the version of the file that
      its stat saw can be told from every earlier one:
      - the model is never older than the thresholds the session compares the score with;
      - its generation is the one the session sent, or it belongs to a run that had not published its
        meta file when the guard read it;
      - if training was at rest after a completed run then, and no run has started since, the model is
        the latest one and its generation is exactly the one the session sent. */
  lemma RepliesAreGuarded(cfg: C.Config, w: World, steps: seq<Step>, t: C.Tid)
    requires Initial(w)
    requires var end := Run(cfg, w, steps);
             t in end.requests && t in end.cache.threads && end.cache.threads[t].Returned?
    ensures var end := Run(cfg, w, steps);
            var g, at, src := end.requests[t], end.cache.threads[t].at, end.cache.threads[t].found.src;
            at < |end.History()| && src < |end.History()| &&
            end.cache.threads[t].found.raw == end.History()[src].raw &&
            (C.NewAt(end.Disk(), at) ==>
               var gen, sent := end.History()[src].gen, if g.thresholds.Some? then g.thresholds.value else 0;
               Older(g.thresholds, Some(gen)) &&
               (gen == sent || g.meta.None? || g.meta.value < gen) &&
               (g.atRest && g.starts == end.starts ==>
                  src == |end.History()| - 1 && gen == sent))
  {
    RunKeepsInv(cfg, w, steps);
    var end := Run(cfg, w, steps);
    var g, pc := end.requests[t], end.cache.threads[t];
    assert RequestInv(end, g, pc);
    assert C.GoodThread(cfg, C.DiskOf(end.cache.disks, pc.u), pc);
    assert Ascending(end.History());
    hide C.NewAt;
    if C.NewAt(end.Disk(), pc.at) {
      assert end.History()[pc.at].gen <= end.History()[pc.found.src].gen;
    }
  }
}
