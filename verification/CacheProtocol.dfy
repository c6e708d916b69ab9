/** The per-user model cache as a protocol: any number of threads run `_get_model` in atomic steps,
    interleaved with evictions and with rewrites and removals of the files.

    `Version.gen`, `Model.src` and the `at` fields are bookkeeping: they number the versions of a
    file and remember which one a thread saw, and no step depends on them. */
module CacheProtocol {
  import opened Text

  type User = string
  type Bytes = seq<int>
  type Mac = seq<int>
  type Tid = int

  // ----- files

  /** One version of model.pkl, as put in place by a rename. */
  datatype Version = Version(raw: Bytes, mtime: int, size: nat, gen: int)

  /** A user's directory: every version model.pkl ever had, whether the latest is still there, every
      signature its sidecar ever held, and the one it holds now. */
  datatype Disk = Disk(history: seq<Version>, present: bool, macs: seq<Mac>, sidecar: Option<Mac>) {
    function Last(): nat
      requires history != []
    {
      |history| - 1
    }

    predicate Exists() {
      present && history != []
    }
  }

  const NO_DISK := Disk([], false, [], None)

  /** What `os.stat` tells: the cache compares nothing else. */
  datatype Key = Key(mtime: int, size: nat)

  function KeyOf(v: Version): Key {
    Key(v.mtime, v.size)
  }

  /** Version `at` can be told from every earlier one: none has the same time and size, none a later time. */
  predicate NewAt(d: Disk, at: nat)
    requires at < |d.history|
  {
    forall i :: 0 <= i < at ==>
      var v, w := d.history[i], d.history[at];
      v.mtime < w.mtime || (v.mtime == w.mtime && v.size != w.size)
  }

  /** Modification times never decrease, and no two versions share time and size. */
  predicate HonestDisk(d: Disk) {
    forall at :: 0 <= at < |d.history| ==> NewAt(d, at)
  }

  // ----- the cache

  datatype Config = Config(signed: bool, macOk: (Bytes, Mac) -> bool, usable: Bytes -> bool, ttl: int)

  datatype Model = Model(raw: Bytes, src: nat)

  datatype Entry = Entry(model: Model, key: Key, atime: int, at: nat)

  datatype Pc =
    | Started(u: User, now: int)
    | NoFile(u: User)                                            // stat failed; the entry is to go
    | Statted(u: User, now: int, key: Key, at: nat)
    | Missed(u: User, now: int, key: Key, at: nat)
    | Loaded(u: User, now: int, key: Key, at: nat, model: Model) // bytes read, not yet checked
    | Signed(u: User, now: int, key: Key, at: nat, model: Model) // signature accepted or not wanted
    | Ready(u: User, now: int, key: Key, at: nat, model: Model)  // decoded
    | Refused(u: User)                                           // signature refused; the entry is to go
    | Unusable(u: User)                                          // not a model; the file is to go
    | Returned(u: User, at: nat, found: Model)
    | ReturnedNone(u: User)
    | Raised(u: User)                                            // an error went to the caller

  datatype State = State(disks: map<User, Disk>, entries: map<User, Entry>, threads: map<Tid, Pc>)

  function DiskOf(disks: map<User, Disk>, u: User): Disk {
    if u in disks then disks[u] else NO_DISK
  }

  datatype Step =
    | Begin(t: Tid, u: User, now: int)
    | Stat(t: Tid)
    | Lookup(t: Tid)
    | Read(t: Tid)
    | ReadError(t: Tid)
    | CheckSignature(t: Tid)
    | Decode(t: Tid)
    | DecodeError(t: Tid)
    | RemoveFile(t: Tid)
    | Drop(t: Tid)
    | Publish(t: Tid)
    | Evict(now: int)
    | Rewrite(u: User, v: Version)
    | Resign(u: User, mac: Option<Mac>)
    | Delete(u: User)

  function SidecarAccepts(cfg: Config, d: Disk, raw: Bytes): bool {
    d.sidecar.Some? && cfg.macOk(raw, d.sidecar.value)
  }

  function Evicted(cfg: Config, entries: map<User, Entry>, now: int): map<User, Entry> {
    map u | u in entries && now - entries[u].atime <= cfg.ttl :: entries[u]
  }

  function WithRemoved(d: Disk): Disk {
    d.(present := false)
  }

  function WithVersion(d: Disk, v: Version): Disk {
    d.(history := d.history + [v], present := true)
  }

  function WithSidecar(d: Disk, mac: Option<Mac>): Disk {
    d.(sidecar := mac, macs := if mac.Some? then d.macs + [mac.value] else d.macs)
  }

  /** The step of a thread that stands at `pc`: the new entries, disks and program point. */
  function Act(cfg: Config, s: State, step: Step, t: Tid, pc: Pc): State {
    match (step, pc)
    case (Stat(_), Started(u, now)) =>
      var d := DiskOf(s.disks, u);
      Goto(s, t, if d.Exists() then Statted(u, now, KeyOf(d.history[d.Last()]), d.Last()) else NoFile(u))
    case (Lookup(_), Statted(u, now, key, at)) =>
      if u in s.entries && s.entries[u].key == key then
        Goto(s.(entries := s.entries[u := s.entries[u].(atime := now)]), t, Returned(u, at, s.entries[u].model))
      else Goto(s, t, Missed(u, now, key, at))
    case (Read(_), Missed(u, now, key, at)) =>
      var d := DiskOf(s.disks, u);
      Goto(s, t, if d.Exists() then Loaded(u, now, key, at, Model(d.history[d.Last()].raw, d.Last())) else Raised(u))
    case (ReadError(_), Missed(u, now, key, at)) =>
      Goto(s, t, Raised(u))
    case (CheckSignature(_), Loaded(u, now, key, at, model)) =>
      Goto(s, t, if cfg.signed && !SidecarAccepts(cfg, DiskOf(s.disks, u), model.raw) then Refused(u)
                 else Signed(u, now, key, at, model))
    case (Decode(_), Signed(u, now, key, at, model)) =>
      Goto(s, t, if cfg.usable(model.raw) then Ready(u, now, key, at, model) else Unusable(u))
    case (DecodeError(_), Signed(u, now, key, at, model)) =>
      Goto(s, t, Raised(u))
    case (RemoveFile(_), Unusable(u)) =>
      Goto(s.(disks := s.disks[u := WithRemoved(DiskOf(s.disks, u))]), t, Refused(u))
    case (Drop(_), NoFile(u)) =>
      Goto(s.(entries := s.entries - {u}), t, ReturnedNone(u))
    case (Drop(_), Refused(u)) =>
      Goto(s.(entries := s.entries - {u}), t, ReturnedNone(u))
    case (Publish(_), Ready(u, now, key, at, model)) =>
      if u !in s.entries || key.mtime >= s.entries[u].key.mtime then
        Goto(s.(entries := s.entries[u := Entry(model, key, now, at)]), t, Returned(u, at, model))
      else
        Goto(s.(entries := s.entries[u := s.entries[u].(atime := now)]), t, Returned(u, at, s.entries[u].model))
    case _ => s
  }

  function Goto(s: State, t: Tid, pc: Pc): State {
    s.(threads := s.threads[t := pc])
  }

  /** One atomic step; a step that is not enabled changes nothing. */
  function Next(cfg: Config, s: State, step: Step): State {
    match step
    case Begin(t, u, now) => Goto(s, t, Started(u, now))
    case Evict(now) => s.(entries := Evicted(cfg, s.entries, now))
    case Rewrite(u, v) => s.(disks := s.disks[u := WithVersion(DiskOf(s.disks, u), v)])
    case Resign(u, mac) => s.(disks := s.disks[u := WithSidecar(DiskOf(s.disks, u), mac)])
    case Delete(u) => s.(disks := s.disks[u := WithRemoved(DiskOf(s.disks, u))])
    case _ => if step.t in s.threads then Act(cfg, s, step, step.t, s.threads[step.t]) else s
  }

  function Run(cfg: Config, s: State, steps: seq<Step>): State {
    if steps == [] then s else Next(cfg, Run(cfg, s, steps[..|steps| - 1]), steps[|steps| - 1])
  }

  predicate Initial(s: State) {
    s.entries == map[] && s.threads == map[]
  }

  // ----- the invariant

  /** `model` was read from version `src` or, as a stat at `at` allows, from a later one. */
  predicate FreshModel(d: Disk, at: nat, model: Model) {
    at <= model.src < |d.history| && model.raw == d.history[model.src].raw
  }

  predicate KeyAt(d: Disk, key: Key, at: nat) {
    at < |d.history| && key == KeyOf(d.history[at])
  }

  /** The bytes passed the signature check against a signature that was on disk. */
  predicate Passed(cfg: Config, d: Disk, raw: Bytes) {
    cfg.signed ==> exists i :: 0 <= i < |d.macs| && cfg.macOk(raw, d.macs[i])
  }

  predicate GoodModel(cfg: Config, d: Disk, at: nat, model: Model) {
    FreshModel(d, at, model) && Passed(cfg, d, model.raw) && cfg.usable(model.raw)
  }

  /** `model` is the content of a version of the file that passed the checks. */
  predicate Checked(cfg: Config, d: Disk, model: Model) {
    && model.src < |d.history| && model.raw == d.history[model.src].raw
    && Passed(cfg, d, model.raw) && cfg.usable(model.raw)
  }

  predicate GoodEntry(cfg: Config, d: Disk, e: Entry) {
    KeyAt(d, e.key, e.at) && GoodModel(cfg, d, e.at, e.model)
  }

  predicate GoodThread(cfg: Config, d: Disk, pc: Pc) {
    match pc
    case Statted(_, _, key, at) => KeyAt(d, key, at)
    case Missed(_, _, key, at) => KeyAt(d, key, at)
    case Loaded(_, _, key, at, model) => KeyAt(d, key, at) && FreshModel(d, at, model)
    case Signed(_, _, key, at, model) => KeyAt(d, key, at) && FreshModel(d, at, model) && Passed(cfg, d, model.raw)
    case Ready(_, _, key, at, model) => KeyAt(d, key, at) && GoodModel(cfg, d, at, model)
    case Returned(_, at, model) =>
      at < |d.history| && Checked(cfg, d, model) && (NewAt(d, at) ==> at <= model.src)
    case _ => true
  }

  /** The sidecar's content is among the signatures it ever held. */
  predicate GoodSidecar(d: Disk) {
    d.sidecar.Some? ==> d.sidecar.value in d.macs
  }

  predicate Inv(cfg: Config, s: State) {
    && (forall u :: u in s.disks ==> GoodSidecar(s.disks[u]))
    && (forall u :: u in s.entries ==> GoodEntry(cfg, DiskOf(s.disks, u), s.entries[u]))
    && (forall t :: t in s.threads ==> GoodThread(cfg, DiskOf(s.disks, s.threads[t].u), s.threads[t]))
  }

  /** Histories only grow. */
  predicate Extends(d: Disk, d': Disk) {
    d.history <= d'.history && d.macs <= d'.macs
  }

  lemma GoodGrows(cfg: Config, d: Disk, d': Disk)
    requires Extends(d, d')
    ensures forall e :: GoodEntry(cfg, d, e) ==> GoodEntry(cfg, d', e)
    ensures forall pc :: GoodThread(cfg, d, pc) ==> GoodThread(cfg, d', pc)
    ensures HonestDisk(d') ==> HonestDisk(d)
  {
    assert forall i :: 0 <= i < |d.history| ==> d.history[i] == d'.history[i];
    assert forall raw :: Passed(cfg, d, raw) ==> Passed(cfg, d', raw) by {
      forall raw | Passed(cfg, d, raw)
        ensures Passed(cfg, d', raw)
      {
        if cfg.signed {
          var i :| 0 <= i < |d.macs| && cfg.macOk(raw, d.macs[i]);
          assert d'.macs[i] == d.macs[i];
        }
      }
    }
    assert forall at: nat :: at < |d.history| ==> (NewAt(d', at) <==> NewAt(d, at));
    assert forall at, m :: FreshModel(d, at, m) ==> FreshModel(d', at, m);
    assert forall key, at :: KeyAt(d, key, at) ==> KeyAt(d', key, at);
  }

  lemma DiskStep(cfg: Config, s: State, u: User, d': Disk)
    requires Inv(cfg, s) && Extends(DiskOf(s.disks, u), d') && GoodSidecar(d')
    ensures Inv(cfg, s.(disks := s.disks[u := d']))
  {
    GoodGrows(cfg, DiskOf(s.disks, u), d');
    hide GoodEntry, GoodThread, GoodSidecar;
  }

  lemma EntryStep(cfg: Config, s: State, u: User, e: Entry)
    requires Inv(cfg, s) && GoodEntry(cfg, DiskOf(s.disks, u), e)
    ensures Inv(cfg, s.(entries := s.entries[u := e]))
  {
    hide GoodEntry, GoodThread, GoodSidecar;
  }

  lemma GotoStep(cfg: Config, s: State, t: Tid, pc: Pc)
    requires Inv(cfg, s) && GoodThread(cfg, DiskOf(s.disks, pc.u), pc)
    ensures Inv(cfg, Goto(s, t, pc))
  {
    hide GoodEntry, GoodThread, GoodSidecar;
  }

  lemma DropStep(cfg: Config, s: State, u: User)
    requires Inv(cfg, s)
    ensures Inv(cfg, s.(entries := s.entries - {u}))
  {
    hide GoodEntry, GoodThread, GoodSidecar;
  }

  lemma StatStep(cfg: Config, s: State, t: Tid, u: User, now: int)
    requires Inv(cfg, s)
    ensures Inv(cfg, Act(cfg, s, Stat(t), t, Started(u, now)))
  {
    var d := DiskOf(s.disks, u);
    GotoStep(cfg, s, t, if d.Exists() then Statted(u, now, KeyOf(d.history[d.Last()]), d.Last()) else NoFile(u));
  }

  lemma ReadStep(cfg: Config, s: State, t: Tid, u: User, now: int, key: Key, at: nat)
    requires Inv(cfg, s) && KeyAt(DiskOf(s.disks, u), key, at)
    ensures Inv(cfg, Act(cfg, s, Read(t), t, Missed(u, now, key, at)))
  {
    var d := DiskOf(s.disks, u);
    GotoStep(cfg, s, t, if d.Exists() then Loaded(u, now, key, at, Model(d.history[d.Last()].raw, d.Last()))
                        else Raised(u));
  }

  /** A call that gets the entry because the keys agree, or because the entry's time is later, gets a
      checked model, and a recent enough one if the version its stat saw is new. */
  lemma EntryServes(cfg: Config, d: Disk, e: Entry, u: User, key: Key, at: nat, now: int)
    requires GoodEntry(cfg, d, e) && KeyAt(d, key, at) && (e.key == key || key.mtime < e.key.mtime)
    ensures GoodEntry(cfg, d, e.(atime := now)) && GoodThread(cfg, d, Returned(u, at, e.model))
  {
    if e.at < at {
      assert e.key == KeyOf(d.history[e.at]);
    }
  }

  lemma LookupStep(cfg: Config, s: State, t: Tid, u: User, now: int, key: Key, at: nat)
    requires Inv(cfg, s) && KeyAt(DiskOf(s.disks, u), key, at)
    ensures Inv(cfg, Act(cfg, s, Lookup(t), t, Statted(u, now, key, at)))
  {
    if u in s.entries && s.entries[u].key == key {
      var e := s.entries[u];
      assert GoodEntry(cfg, DiskOf(s.disks, u), e);
      EntryServes(cfg, DiskOf(s.disks, u), e, u, key, at, now);
      assert Act(cfg, s, Lookup(t), t, Statted(u, now, key, at))
          == Goto(s.(entries := s.entries[u := e.(atime := now)]), t, Returned(u, at, e.model));
      hide Act, Inv, GoodEntry, GoodThread, KeyAt, DiskOf;
      EntryStep(cfg, s, u, e.(atime := now));
      GotoStep(cfg, s.(entries := s.entries[u := e.(atime := now)]), t, Returned(u, at, e.model));
    } else {
      GotoStep(cfg, s, t, Missed(u, now, key, at));
    }
  }

  lemma PublishStep(cfg: Config, s: State, t: Tid, u: User, now: int, key: Key, at: nat, model: Model)
    requires Inv(cfg, s)
    requires KeyAt(DiskOf(s.disks, u), key, at) && GoodModel(cfg, DiskOf(s.disks, u), at, model)
    ensures Inv(cfg, Act(cfg, s, Publish(t), t, Ready(u, now, key, at, model)))
  {
    var kept := u in s.entries && key.mtime < s.entries[u].key.mtime;
    var e := if kept then s.entries[u].(atime := now) else Entry(model, key, now, at);
    assert Act(cfg, s, Publish(t), t, Ready(u, now, key, at, model))
        == Goto(s.(entries := s.entries[u := e]), t, Returned(u, at, e.model));
    assert u in s.entries ==> GoodEntry(cfg, DiskOf(s.disks, u), s.entries[u]);
    var d := DiskOf(s.disks, u);
    hide Act, Inv, DiskOf;
    if kept {
      EntryServes(cfg, d, s.entries[u], u, key, at, now);
    } else {
      assert GoodThread(cfg, d, Returned(u, at, e.model));
    }
    assert GoodEntry(cfg, d, e);
    hide GoodEntry, GoodThread;
    EntryStep(cfg, s, u, e);
    GotoStep(cfg, s.(entries := s.entries[u := e]), t, Returned(u, at, e.model));
  }

  lemma SignatureStep(cfg: Config, s: State, t: Tid, u: User, now: int, key: Key, at: nat, model: Model)
    requires Inv(cfg, s) && KeyAt(DiskOf(s.disks, u), key, at) && FreshModel(DiskOf(s.disks, u), at, model)
    ensures Inv(cfg, Act(cfg, s, CheckSignature(t), t, Loaded(u, now, key, at, model)))
  {
    var d := DiskOf(s.disks, u);
    if cfg.signed && SidecarAccepts(cfg, d, model.raw) {
      assert GoodSidecar(d);
      var i :| 0 <= i < |d.macs| && d.macs[i] == d.sidecar.value;
      assert cfg.macOk(model.raw, d.macs[i]);
    }
    GotoStep(cfg, s, t, if cfg.signed && !SidecarAccepts(cfg, d, model.raw) then Refused(u)
                        else Signed(u, now, key, at, model));
  }

  lemma LoadingStep(cfg: Config, s: State, step: Step, t: Tid, pc: Pc)
    requires step.Stat? || step.Lookup? || step.Read? || step.ReadError? || step.CheckSignature?
    requires Inv(cfg, s) && GoodThread(cfg, DiskOf(s.disks, pc.u), pc)
    ensures Inv(cfg, Act(cfg, s, step, t, pc))
  {
    hide Inv, GoodModel, KeyAt, FreshModel, Passed;
    match (step, pc)
    case (Stat(_), Started(u, now)) => StatStep(cfg, s, t, u, now);
    case (Lookup(_), Statted(u, now, key, at)) => LookupStep(cfg, s, t, u, now, key, at);
    case (Read(_), Missed(u, now, key, at)) => ReadStep(cfg, s, t, u, now, key, at);
    case (ReadError(_), Missed(u, now, key, at)) => GotoStep(cfg, s, t, Raised(u));
    case (CheckSignature(_), Loaded(u, now, key, at, model)) => SignatureStep(cfg, s, t, u, now, key, at, model);
    case _ =>
  }

  lemma EndingStep(cfg: Config, s: State, step: Step, t: Tid, pc: Pc)
    requires step.Decode? || step.DecodeError? || step.RemoveFile? || step.Drop? || step.Publish?
    requires Inv(cfg, s) && GoodThread(cfg, DiskOf(s.disks, pc.u), pc)
    ensures Inv(cfg, Act(cfg, s, step, t, pc))
  {
    hide Inv, GoodModel, KeyAt, FreshModel, Passed;
    match (step, pc)
    case (Decode(_), Signed(u, now, key, at, model)) => DecodeStep(cfg, s, t, u, now, key, at, model);
    case (DecodeError(_), Signed(u, now, key, at, model)) => GotoStep(cfg, s, t, Raised(u));
    case (RemoveFile(_), Unusable(u)) =>
      RemoveStep(cfg, s, u);
      GotoStep(cfg, s.(disks := s.disks[u := WithRemoved(DiskOf(s.disks, u))]), t, Refused(u));
    case (Drop(_), NoFile(u)) =>
      DropStep(cfg, s, u);
      GotoStep(cfg, s.(entries := s.entries - {u}), t, ReturnedNone(u));
    case (Drop(_), Refused(u)) =>
      DropStep(cfg, s, u);
      GotoStep(cfg, s.(entries := s.entries - {u}), t, ReturnedNone(u));
    case (Publish(_), Ready(u, now, key, at, model)) => PublishStep(cfg, s, t, u, now, key, at, model);
    case _ =>
  }

  lemma ThreadStep(cfg: Config, s: State, step: Step, t: Tid)
    requires step.Stat? || step.Lookup? || step.Read? || step.ReadError? || step.CheckSignature? ||
             step.Decode? || step.DecodeError? || step.RemoveFile? || step.Drop? || step.Publish?
    requires Inv(cfg, s) && t in s.threads
    ensures Inv(cfg, Act(cfg, s, step, t, s.threads[t]))
  {
    hide Act;
    var pc := s.threads[t];
    if step.Decode? || step.DecodeError? || step.RemoveFile? || step.Drop? || step.Publish? {
      EndingStep(cfg, s, step, t, pc);
    } else {
      LoadingStep(cfg, s, step, t, pc);
    }
  }

  lemma RemoveStep(cfg: Config, s: State, u: User)
    requires Inv(cfg, s)
    ensures Inv(cfg, s.(disks := s.disks[u := WithRemoved(DiskOf(s.disks, u))]))
  {
    DiskStep(cfg, s, u, WithRemoved(DiskOf(s.disks, u)));
  }

  lemma DecodeStep(cfg: Config, s: State, t: Tid, u: User, now: int, key: Key, at: nat, model: Model)
    requires Inv(cfg, s) && GoodThread(cfg, DiskOf(s.disks, u), Signed(u, now, key, at, model))
    ensures Inv(cfg, Act(cfg, s, Decode(t), t, Signed(u, now, key, at, model)))
  {
    GotoStep(cfg, s, t, if cfg.usable(model.raw) then Ready(u, now, key, at, model) else Unusable(u));
  }

  /** Every step keeps the invariant, whatever the other threads are doing and whatever the times of the
      files are. */
  lemma StepKeepsInv(cfg: Config, s: State, step: Step)
    requires Inv(cfg, s)
    ensures Inv(cfg, Next(cfg, s, step))
  {
    match step
    case Begin(t, u, now) =>
    case Evict(now) =>
    case Rewrite(u, v) => DiskStep(cfg, s, u, WithVersion(DiskOf(s.disks, u), v));
    case Resign(u, mac) => DiskStep(cfg, s, u, WithSidecar(DiskOf(s.disks, u), mac));
    case Delete(u) => DiskStep(cfg, s, u, WithRemoved(DiskOf(s.disks, u)));
    case _ => if step.t in s.threads { ThreadStep(cfg, s, step, step.t); }
  }

  predicate DisksExtend(disks: map<User, Disk>, disks': map<User, Disk>) {
    forall u :: u in disks ==> u in disks' && Extends(disks[u], disks'[u])
  }

  lemma StepExtends(cfg: Config, s: State, step: Step)
    ensures DisksExtend(s.disks, Next(cfg, s, step).disks)
  {
  }

  lemma {:induction false} RunKeepsInv(cfg: Config, s: State, steps: seq<Step>)
    requires Inv(cfg, s)
    ensures Inv(cfg, Run(cfg, s, steps))
    decreases |steps|
  {
    if steps != [] {
      var before, last := steps[..|steps| - 1], steps[|steps| - 1];
      RunKeepsInv(cfg, s, before);
      StepKeepsInv(cfg, Run(cfg, s, before), last);
    }
  }

  lemma {:induction false} RunExtends(cfg: Config, s: State, steps: seq<Step>)
    ensures DisksExtend(s.disks, Run(cfg, s, steps).disks)
    decreases |steps|
  {
    if steps != [] {
      var before, last := steps[..|steps| - 1], steps[|steps| - 1];
      RunExtends(cfg, s, before);
      StepExtends(cfg, Run(cfg, s, before), last);
      hide Next;
    }
  }

  /** Whether a version is new is settled when it is written. */
  lemma SeenIsKept(disks: map<User, Disk>, disks': map<User, Disk>, u: User)
    requires DisksExtend(disks, disks') && DiskOf(disks, u).history != []
    ensures var d, d' := DiskOf(disks, u), DiskOf(disks', u);
            |d.history| <= |d'.history| && (NewAt(d, d.Last()) <==> NewAt(d', d.Last()))
  {
    var d, d' := DiskOf(disks, u), DiskOf(disks', u);
    assert forall i :: 0 <= i < |d.history| ==> d.history[i] == d'.history[i];
  }

  // ----- one call among others

  /** `pc` belongs to the call for `u` whose stat saw version `at`. */
  predicate OfCall(pc: Pc, u: User, at: nat) {
    match pc
    case Started(_, _) => false
    case NoFile(_) => false
    case Statted(v, _, _, k) => v == u && k == at
    case Missed(v, _, _, k) => v == u && k == at
    case Loaded(v, _, _, k, _) => v == u && k == at
    case Signed(v, _, _, k, _) => v == u && k == at
    case Ready(v, _, _, k, _) => v == u && k == at
    case Returned(v, k, _) => v == u && k == at
    case _ => pc.u == u
  }

  /** The step belongs to this thread. */
  predicate Moves(step: Step, t: Tid) {
    match step
    case Evict(_) => false
    case Rewrite(_, _) => false
    case Resign(_, _) => false
    case Delete(_) => false
    case _ => step.t == t
  }

  /** A step leaves every thread but its own where it is. */
  lemma OthersStay(cfg: Config, s: State, step: Step, t: Tid)
    requires t in s.threads && !Moves(step, t)
    ensures t in Next(cfg, s, step).threads && Next(cfg, s, step).threads[t] == s.threads[t]
  {
    hide Evicted, SidecarAccepts, KeyOf, DiskOf;
  }

  lemma CallStep(cfg: Config, s: State, step: Step, t: Tid, u: User, at: nat)
    requires t in s.threads && OfCall(s.threads[t], u, at)
    requires !(step.Begin? && step.t == t)
    ensures t in Next(cfg, s, step).threads && OfCall(Next(cfg, s, step).threads[t], u, at)
  {
    hide Evicted, SidecarAccepts, KeyOf, DiskOf;
    if !Moves(step, t) {
      OthersStay(cfg, s, step, t);
      hide Next, OfCall;
    }
  }

  lemma {:induction false} CallContinues(cfg: Config, s: State, steps: seq<Step>, t: Tid, u: User, at: nat)
    requires t in s.threads && OfCall(s.threads[t], u, at)
    requires forall i :: 0 <= i < |steps| ==> !(steps[i].Begin? && steps[i].t == t)
    ensures t in Run(cfg, s, steps).threads && OfCall(Run(cfg, s, steps).threads[t], u, at)
    decreases |steps|
  {
    if steps != [] {
      CallContinues(cfg, s, steps[..|steps| - 1], t, u, at);
      CallStep(cfg, Run(cfg, s, steps[..|steps| - 1]), steps[|steps| - 1], t, u, at);
    }
  }

  lemma {:induction false} RunAppend(cfg: Config, s: State, a: seq<Step>, b: seq<Step>)
    ensures Run(cfg, s, a + b) == Run(cfg, Run(cfg, s, a), b)
    decreases |b|
  {
    if b == [] {
      assert a + b == a;
    } else {
      assert (a + b)[..|a + b| - 1] == a + b[..|b| - 1];
      RunAppend(cfg, s, a, b[..|b| - 1]);
    }
  }

  lemma RunOne(cfg: Config, s: State, step: Step)
    ensures Run(cfg, s, [step]) == Next(cfg, s, step)
  {
    assert [step][..0] == [];
    assert Run(cfg, s, []) == s;
  }

  // ----- freshness

  /** After its stat a call stays with the version it saw until it ends. */
  lemma StatThenRun(cfg: Config, s: State, before: seq<Step>, t: Tid, after: seq<Step>)
    requires var mid := Run(cfg, s, before);
             t in mid.threads && mid.threads[t].Started? && DiskOf(mid.disks, mid.threads[t].u).Exists()
    requires forall i :: 0 <= i < |after| ==> !(after[i].Begin? && after[i].t == t)
    ensures var mid := Run(cfg, s, before);
            var u := mid.threads[t].u;
            var end := Run(cfg, s, before + [Stat(t)] + after);
            t in end.threads && OfCall(end.threads[t], u, DiskOf(mid.disks, u).Last())
  {
    var mid := Run(cfg, s, before);
    var u := mid.threads[t].u;
    RunAppend(cfg, s, before, [Stat(t)]);
    RunOne(cfg, mid, Stat(t));
    RunAppend(cfg, s, before + [Stat(t)], after);
    assert OfCall(Next(cfg, mid, Stat(t)).threads[t], u, DiskOf(mid.disks, u).Last());
    hide Run, Next, OfCall, DiskOf;
    CallContinues(cfg, Next(cfg, mid, Stat(t)), after, t, u, DiskOf(mid.disks, u).Last());
  }

  lemma InitialInv(cfg: Config, s: State)
    requires Initial(s) && (forall u :: u in s.disks ==> GoodSidecar(s.disks[u]))
    ensures Inv(cfg, s)
  {
  }

  lemma LaterDisksExtend(cfg: Config, s: State, before: seq<Step>, after: seq<Step>)
    ensures DisksExtend(Run(cfg, s, before).disks, Run(cfg, s, before + after).disks)
  {
    hide Run;
    RunAppend(cfg, s, before, after);
    RunExtends(cfg, Run(cfg, s, before), after);
  }

  lemma FreshReturn(cfg: Config, disks: map<User, Disk>, end: State, t: Tid, u: User)
    requires Inv(cfg, end) && DisksExtend(disks, end.disks) && DiskOf(disks, u).history != []
    requires t in end.threads && OfCall(end.threads[t], u, DiskOf(disks, u).Last()) && end.threads[t].Returned?
    requires NewAt(DiskOf(disks, u), DiskOf(disks, u).Last())
    ensures end.threads[t].u == u
    ensures GoodModel(cfg, DiskOf(end.disks, u), DiskOf(disks, u).Last(), end.threads[t].found)
  {
    assert GoodThread(cfg, DiskOf(end.disks, u), end.threads[t]);
    hide Inv, Passed, NewAt;
    SeenIsKept(disks, end.disks, u);
    hide DiskOf, DisksExtend;
  }

  /** Freshness: when a call's stat finds a version of the file that can be told from every earlier one, a
      model the call returns comes from that version or from a later one, whatever loads, evictions,
      rewrites and removals other threads do before, in between and after.  Nothing is asked of later
      versions or of other users' files. */
  lemma ReturnedModelsAreFresh(cfg: Config, s: State, before: seq<Step>, t: Tid, after: seq<Step>)
    requires Initial(s) && (forall u :: u in s.disks ==> GoodSidecar(s.disks[u]))
    requires var mid := Run(cfg, s, before);
             t in mid.threads && mid.threads[t].Started? && DiskOf(mid.disks, mid.threads[t].u).Exists()
    requires forall i :: 0 <= i < |after| ==> !(after[i].Begin? && after[i].t == t)
    ensures var mid := Run(cfg, s, before);
            var u := mid.threads[t].u;
            var seen := DiskOf(mid.disks, u);
            var end := Run(cfg, s, before + [Stat(t)] + after);
            t in end.threads &&
            (end.threads[t].Returned? && NewAt(seen, seen.Last()) ==>
               end.threads[t].u == u && GoodModel(cfg, DiskOf(end.disks, u), seen.Last(), end.threads[t].found))
  {
    hide Inv, Initial, Run, Next, OfCall, NewAt, DiskOf, GoodModel, GoodSidecar, DisksExtend;
    var mid, steps := Run(cfg, s, before), before + [Stat(t)] + after;
    var u, end := mid.threads[t].u, Run(cfg, s, steps);
    StatThenRun(cfg, s, before, t, after);
    InitialInv(cfg, s);
    RunKeepsInv(cfg, s, steps);
    assert steps == before + ([Stat(t)] + after);
    LaterDisksExtend(cfg, s, before, [Stat(t)] + after);
    if end.threads[t].Returned? && NewAt(DiskOf(mid.disks, u), DiskOf(mid.disks, u).Last()) {
      FreshReturn(cfg, mid.disks, end, t, u);
    }
  }

  // ----- gating

  /** Gating: over every run, whatever the times of the files, every cached model is the content of some
      version of the file, decodes, and, when a key is set, passed the signature check against a
      signature the sidecar held ... */
  lemma CachedModelsWereChecked(cfg: Config, s: State, steps: seq<Step>, u: User)
    requires Initial(s) && (forall v :: v in s.disks ==> GoodSidecar(s.disks[v]))
    requires u in Run(cfg, s, steps).entries
    ensures var end := Run(cfg, s, steps);
            var d, model := DiskOf(end.disks, u), end.entries[u].model;
            model.src < |d.history| && model.raw == d.history[model.src].raw && cfg.usable(model.raw) &&
            (cfg.signed ==> exists i :: 0 <= i < |d.macs| && cfg.macOk(model.raw, d.macs[i]))
  {
    RunKeepsInv(cfg, s, steps);
    assert GoodEntry(cfg, DiskOf(Run(cfg, s, steps).disks, u), Run(cfg, s, steps).entries[u]);
  }

  /** ... and so is every model that a call returns. */
  lemma ReturnedModelsWereChecked(cfg: Config, s: State, steps: seq<Step>, t: Tid)
    requires Initial(s) && (forall v :: v in s.disks ==> GoodSidecar(s.disks[v]))
    requires var end := Run(cfg, s, steps); t in end.threads && end.threads[t].Returned?
    ensures var pc := Run(cfg, s, steps).threads[t];
            var d := DiskOf(Run(cfg, s, steps).disks, pc.u);
            pc.found.src < |d.history| && pc.found.raw == d.history[pc.found.src].raw && cfg.usable(pc.found.raw) &&
            (cfg.signed ==> exists i :: 0 <= i < |d.macs| && cfg.macOk(pc.found.raw, d.macs[i]))
  {
    RunKeepsInv(cfg, s, steps);
    var end := Run(cfg, s, steps);
    assert GoodThread(cfg, DiskOf(end.disks, end.threads[t].u), end.threads[t]);
  }
}
