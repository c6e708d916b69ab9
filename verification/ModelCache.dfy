/** The model cache as the daemon calls it, and what a caller who does not race with anybody sees:
    the cache is invisible. */
module ModelCache {
  import opened Text
  import opened CacheProtocol

  /** Returned when a user has no model: a high score reads as normal. */
  const NO_MODEL_SCORE := 1000000000.0

  // ----- one call without interruption

  datatype Slot = Slot(disk: Disk, entry: Option<Entry>)

  /** What an uninterrupted `_get_model` returns and leaves of one user's files and entry. */
  function CallOnce(cfg: Config, s: Slot, now: int): (r: (Option<Model>, Slot)) {
    if !s.disk.Exists() then (None, s.(entry := None))
    else
      var last := s.disk.Last();
      var key := KeyOf(s.disk.history[last]);
      var model := Model(s.disk.history[last].raw, last);
      if s.entry.Some? && s.entry.value.key == key then
        (Some(s.entry.value.model), s.(entry := Some(s.entry.value.(atime := now))))
      else if cfg.signed && !SidecarAccepts(cfg, s.disk, model.raw) then (None, s.(entry := None))
      else if !cfg.usable(model.raw) then (None, Slot(WithRemoved(s.disk), None))
      else if s.entry.None? || key.mtime >= s.entry.value.key.mtime then
        (Some(model), s.(entry := Some(Entry(model, key, now, last))))
      else (Some(s.entry.value.model), s.(entry := Some(s.entry.value.(atime := now))))
  }

  /** Loading the file directly, without a cache; an unusable file is removed as well. */
  function LoadDirectly(cfg: Config, d: Disk): (Option<Model>, Disk) {
    if !d.Exists() then (None, d)
    else
      var model := Model(d.history[d.Last()].raw, d.Last());
      if cfg.signed && !SidecarAccepts(cfg, d, model.raw) then (None, d)
      else if !cfg.usable(model.raw) then (None, WithRemoved(d))
      else (Some(model), d)
  }

  class ModelCache {
    const cfg: Config
    var entries: map<User, Entry>
    var disks: map<User, Disk>

    constructor (cfg: Config)
      ensures this.cfg == cfg && entries == map[] && disks == map[]
    {
      this.cfg := cfg;
      entries, disks := map[], map[];
    }

    ghost function SlotOf(u: User): Slot
      reads this
    {
      Slot(DiskOf(disks, u), if u in entries then Some(entries[u]) else None)
    }

    /** Returns the user's current model, or None when there is no usable one.  `readable` is false
        when opening or reading the file fails although it was there, `decodes` when decoding raises
        an error other than those that mark a file as unusable: then the error goes to the caller and
        nothing is changed. */
    method GetModel(user: User, now: int, readable: bool, decodes: bool) returns (r: Result<Option<Model>, ()>)
      modifies this
      ensures readable && decodes ==> r == Ok(CallOnce(cfg, old(SlotOf(user)), now).0)
      ensures r.Ok? ==> r.value == CallOnce(cfg, old(SlotOf(user)), now).0 &&
                        SlotOf(user) == CallOnce(cfg, old(SlotOf(user)), now).1
      ensures r.Err? ==> entries == old(entries) && disks == old(disks)
      ensures forall u :: u != user ==> SlotOf(u) == old(SlotOf(u))
    {
      var d := DiskOf(disks, user);
      if !d.Exists() {
        entries := entries - {user};
        return Ok(None);
      }
      var key := KeyOf(d.history[d.Last()]);
      if user in entries && entries[user].key == key {
        entries := entries[user := entries[user].(atime := now)];
        return Ok(Some(entries[user].model));
      }
      if !readable {
        return Err(());
      }
      var model := Model(d.history[d.Last()].raw, d.Last());
      if cfg.signed && !SidecarAccepts(cfg, d, model.raw) {
        entries := entries - {user};
        return Ok(None);
      }
      if !decodes {
        return Err(());
      }
      if !cfg.usable(model.raw) {
        disks := disks[user := WithRemoved(d)];
        entries := entries - {user};
        return Ok(None);
      }
      if user !in entries || key.mtime >= entries[user].key.mtime {
        entries := entries[user := Entry(model, key, now, d.Last())];
        return Ok(Some(model));
      }
      entries := entries[user := entries[user].(atime := now)];
      return Ok(Some(entries[user].model));
    }

    /** The score of a feature vector under the user's model. */
    method Score(user: User, features: seq<real>, scoreSamples: (Bytes, seq<real>) -> real, now: int,
                 readable: bool, decodes: bool)
      returns (r: Result<real, ()>)
      modifies this
      ensures readable && decodes ==>
                r == Ok(match CallOnce(cfg, old(SlotOf(user)), now).0
                        case None => NO_MODEL_SCORE
                        case Some(m) => scoreSamples(m.raw, features))
      ensures r.Ok? ==> SlotOf(user) == CallOnce(cfg, old(SlotOf(user)), now).1
      ensures r.Err? ==> entries == old(entries) && disks == old(disks)
      ensures forall u :: u != user ==> SlotOf(u) == old(SlotOf(u))
    {
      var model := GetModel(user, now, readable, decodes);
      if model.Err? {
        return Err(());
      }
      match model.value
      case None => r := Ok(NO_MODEL_SCORE);
      case Some(m) => r := Ok(scoreSamples(m.raw, features));
    }

    /** Removes the entries that have been idle for longer than the time to live. */
    method EvictIdle(now: int) returns (n: nat)
      modifies this`entries
      ensures forall u :: u in entries <==> u in old(entries) && now - old(entries)[u].atime <= cfg.ttl
      ensures forall u :: u in entries ==> entries[u] == old(entries)[u]
      ensures entries == Evicted(cfg, old(entries), now)
      ensures n == |old(entries)| - |entries|
    {
      var todo := entries.Keys;
      n := 0;
      while todo != {}
        invariant todo <= entries.Keys <= old(entries).Keys
        invariant forall u :: u in entries ==> entries[u] == old(entries)[u]
        invariant forall u :: u in entries && u !in todo ==> now - entries[u].atime <= cfg.ttl
        invariant forall u :: u in old(entries) && now - old(entries)[u].atime <= cfg.ttl ==> u in entries
        invariant n + |entries| == |old(entries)|
        decreases todo
      {
        var u :| u in todo;
        todo := todo - {u};
        if now - entries[u].atime > cfg.ttl {
          assert (entries - {u}).Keys == entries.Keys - {u};
          entries := entries - {u};
          n := n + 1;
        }
      }
    }
  }

  // ----- the call is a run of the protocol

  function CallSteps(t: Tid, u: User, now: int): seq<Step> {
    [Begin(t, u, now), Stat(t), Lookup(t)] + [Read(t), CheckSignature(t), Decode(t)] +
    [RemoveFile(t), Publish(t), Drop(t)]
  }

  lemma RunThree(cfg: Config, s: State, a: Step, b: Step, c: Step)
    ensures Run(cfg, s, [a, b, c]) == Next(cfg, Next(cfg, Next(cfg, s, a), b), c)
  {
    hide Next;
    assert [a, b, c][..2] == [a, b];
    assert [a, b][..1] == [a];
    RunOne(cfg, s, a);
  }

  function SlotIn(s: State, u: User): Slot {
    Slot(DiskOf(s.disks, u), if u in s.entries then Some(s.entries[u]) else None)
  }

  /** The state shows this slot for the user and this program point for the thread. */
  ghost predicate At(s: State, t: Tid, u: User, slot: Slot, pc: Pc) {
    SlotIn(s, u) == slot && t in s.threads && s.threads[t] == pc && pc.u == u
  }

  lemma LookingUp(cfg: Config, s: State, t: Tid, u: User, now: int)
    ensures var slot := SlotIn(s, u);
            var s' := Run(cfg, s, [Begin(t, u, now), Stat(t), Lookup(t)]);
            if !slot.disk.Exists() then At(s', t, u, slot, NoFile(u))
            else
              var at := slot.disk.Last();
              var key := KeyOf(slot.disk.history[at]);
              if slot.entry.Some? && slot.entry.value.key == key then
                At(s', t, u, slot.(entry := Some(slot.entry.value.(atime := now))),
                   Returned(u, at, slot.entry.value.model))
              else At(s', t, u, slot, Missed(u, now, key, at))
  {
    RunThree(cfg, s, Begin(t, u, now), Stat(t), Lookup(t));
  }

  lemma LoadingMissed(cfg: Config, s: State, t: Tid, u: User, slot: Slot, now: int, key: Key, at: nat)
    requires At(s, t, u, slot, Missed(u, now, key, at)) && slot.disk.Exists()
    ensures var s' := Run(cfg, s, [Read(t), CheckSignature(t), Decode(t)]);
            var model := Model(slot.disk.history[slot.disk.Last()].raw, slot.disk.Last());
            At(s', t, u, slot,
               if cfg.signed && !SidecarAccepts(cfg, slot.disk, model.raw) then Refused(u)
               else if !cfg.usable(model.raw) then Unusable(u)
               else Ready(u, now, key, at, model))
  {
    RunThree(cfg, s, Read(t), CheckSignature(t), Decode(t));
  }

  lemma LoadingNothing(cfg: Config, s: State, t: Tid, u: User, slot: Slot, pc: Pc)
    requires At(s, t, u, slot, pc) && (pc.NoFile? || pc.Returned?)
    ensures At(Run(cfg, s, [Read(t), CheckSignature(t), Decode(t)]), t, u, slot, pc)
  {
    RunThree(cfg, s, Read(t), CheckSignature(t), Decode(t));
  }

  /** Steps for which the thread is not waiting change nothing. */
  lemma Idle(cfg: Config, s: State, t: Tid)
    requires t in s.threads
    ensures !s.threads[t].Unusable? ==> Next(cfg, s, RemoveFile(t)) == s
    ensures !s.threads[t].Ready? ==> Next(cfg, s, Publish(t)) == s
    ensures !s.threads[t].NoFile? && !s.threads[t].Refused? ==> Next(cfg, s, Drop(t)) == s
  {
  }

  lemma PublishOnce(cfg: Config, s: State, t: Tid, u: User, slot: Slot, now: int, key: Key, at: nat, model: Model)
    requires At(s, t, u, slot, Ready(u, now, key, at, model))
    ensures var s' := Next(cfg, s, Publish(t));
            if slot.entry.None? || key.mtime >= slot.entry.value.key.mtime then
              At(s', t, u, slot.(entry := Some(Entry(model, key, now, at))), Returned(u, at, model))
            else
              At(s', t, u, slot.(entry := Some(slot.entry.value.(atime := now))),
                 Returned(u, at, slot.entry.value.model))
  {
    hide DiskOf;
  }

  lemma DropOnce(cfg: Config, s: State, t: Tid, u: User, slot: Slot, pc: Pc)
    requires At(s, t, u, slot, pc) && (pc.NoFile? || pc.Refused?)
    ensures At(Next(cfg, s, Drop(t)), t, u, Slot(slot.disk, None), ReturnedNone(u))
  {
    hide DiskOf;
  }

  lemma RemoveOnce(cfg: Config, s: State, t: Tid, u: User, slot: Slot)
    requires At(s, t, u, slot, Unusable(u))
    ensures At(Next(cfg, s, RemoveFile(t)), t, u, Slot(WithRemoved(slot.disk), slot.entry), Refused(u))
  {
  }

  lemma Publishing(cfg: Config, s: State, t: Tid, u: User, slot: Slot, now: int, key: Key, at: nat, model: Model)
    requires At(s, t, u, slot, Ready(u, now, key, at, model))
    ensures var s' := Run(cfg, s, [RemoveFile(t), Publish(t), Drop(t)]);
            if slot.entry.None? || key.mtime >= slot.entry.value.key.mtime then
              At(s', t, u, slot.(entry := Some(Entry(model, key, now, at))), Returned(u, at, model))
            else
              At(s', t, u, slot.(entry := Some(slot.entry.value.(atime := now))),
                 Returned(u, at, slot.entry.value.model))
  {
    hide Next, SlotIn, Run;
    RunThree(cfg, s, RemoveFile(t), Publish(t), Drop(t));
    Idle(cfg, s, t);
    PublishOnce(cfg, s, t, u, slot, now, key, at, model);
    Idle(cfg, Next(cfg, s, Publish(t)), t);
  }

  lemma Dropping(cfg: Config, s: State, t: Tid, u: User, slot: Slot, pc: Pc)
    requires At(s, t, u, slot, pc) && (pc.NoFile? || pc.Refused?)
    ensures At(Run(cfg, s, [RemoveFile(t), Publish(t), Drop(t)]), t, u, Slot(slot.disk, None), ReturnedNone(u))
  {
    hide Next, SlotIn, Run;
    RunThree(cfg, s, RemoveFile(t), Publish(t), Drop(t));
    Idle(cfg, s, t);
    DropOnce(cfg, s, t, u, slot, pc);
  }

  lemma Removing(cfg: Config, s: State, t: Tid, u: User, slot: Slot)
    requires At(s, t, u, slot, Unusable(u))
    ensures At(Run(cfg, s, [RemoveFile(t), Publish(t), Drop(t)]), t, u,
               Slot(WithRemoved(slot.disk), None), ReturnedNone(u))
  {
    hide Next, SlotIn, Run;
    RunThree(cfg, s, RemoveFile(t), Publish(t), Drop(t));
    RemoveOnce(cfg, s, t, u, slot);
    var s1 := Next(cfg, s, RemoveFile(t));
    Idle(cfg, s1, t);
    DropOnce(cfg, s1, t, u, Slot(WithRemoved(slot.disk), slot.entry), Refused(u));
  }

  lemma Resting(cfg: Config, s: State, t: Tid, u: User, slot: Slot, pc: Pc)
    requires At(s, t, u, slot, pc) && pc.Returned?
    ensures At(Run(cfg, s, [RemoveFile(t), Publish(t), Drop(t)]), t, u, slot, pc)
  {
    hide Next, SlotIn, Run;
    RunThree(cfg, s, RemoveFile(t), Publish(t), Drop(t));
    Idle(cfg, s, t);
  }

  /** An uninterrupted call is a run of the protocol: same result, same files, same entry. */
  lemma CallIsRun(cfg: Config, s: State, t: Tid, u: User, now: int)
    ensures var s' := Run(cfg, s, CallSteps(t, u, now));
            var (found, slot) := CallOnce(cfg, SlotIn(s, u), now);
            SlotIn(s', u) == slot && t in s'.threads &&
            match found
            case None => s'.threads[t] == ReturnedNone(u)
            case Some(m) => s'.threads[t].Returned? && s'.threads[t].u == u && s'.threads[t].found == m
  {
    var a, b, c := [Begin(t, u, now), Stat(t), Lookup(t)], [Read(t), CheckSignature(t), Decode(t)],
                   [RemoveFile(t), Publish(t), Drop(t)];
    RunAppend(cfg, s, a + b, c);
    RunAppend(cfg, s, a, b);
    var s1 := Run(cfg, s, a);
    var s2 := Run(cfg, s1, b);
    LookingUp(cfg, s, t, u, now);
    hide Run, SidecarAccepts, DiskOf;
    var pc, slot := s1.threads[t], SlotIn(s1, u);
    match pc {
      case Missed(_, _, key, at) => LoadingMissed(cfg, s1, t, u, slot, now, key, at);
      case _ => LoadingNothing(cfg, s1, t, u, slot, pc);
    }
    var pc', slot' := s2.threads[t], SlotIn(s2, u);
    if pc'.Ready? {
      Publishing(cfg, s2, t, u, slot', now, pc'.key, pc'.at, pc'.model);
    } else if pc'.Returned? {
      Resting(cfg, s2, t, u, slot', pc');
    } else if pc'.Unusable? {
      Removing(cfg, s2, t, u, slot');
    } else {
      Dropping(cfg, s2, t, u, slot', pc');
    }
  }

  // ----- histories of uninterrupted operations

  /** What can happen to one user's model between calls.  A new version comes with its sidecar. */
  datatype Op = Call(now: int) | Write(v: Version, mac: Option<Mac>) | Remove | Sweep(now: int)

  function AfterWrite(d: Disk, v: Version, mac: Option<Mac>): Disk {
    WithSidecar(WithVersion(d, v), mac)
  }

  /** The results of the calls, and the final files, when calls go through the cache ... */
  function Cached(cfg: Config, s: Slot, ops: seq<Op>): (seq<Option<Model>>, Disk)
    decreases |ops|
  {
    if ops == [] then ([], s.disk)
    else
      match ops[0]
      case Call(now) =>
        var (found, s') := CallOnce(cfg, s, now);
        var (rest, d) := Cached(cfg, s', ops[1..]);
        ([found] + rest, d)
      case Write(v, mac) => Cached(cfg, s.(disk := AfterWrite(s.disk, v, mac)), ops[1..])
      case Remove => Cached(cfg, s.(disk := WithRemoved(s.disk)), ops[1..])
      case Sweep(now) => Cached(cfg, Swept(cfg, s, now), ops[1..])
  }

  /** ... and when they load the file directly. */
  function Uncached(cfg: Config, d: Disk, ops: seq<Op>): (seq<Option<Model>>, Disk)
    decreases |ops|
  {
    if ops == [] then ([], d)
    else
      match ops[0]
      case Call(_) =>
        var (found, d') := LoadDirectly(cfg, d);
        var (rest, end) := Uncached(cfg, d', ops[1..]);
        ([found] + rest, end)
      case Write(v, mac) => Uncached(cfg, AfterWrite(d, v, mac), ops[1..])
      case Remove => Uncached(cfg, WithRemoved(d), ops[1..])
      case Sweep(_) => Uncached(cfg, d, ops[1..])
  }

  /** An entry of the current version is what a direct load would accept. */
  predicate GoodSlot(cfg: Config, s: Slot) {
    s.entry.Some? ==>
      var e := s.entry.value;
      && KeyAt(s.disk, e.key, e.at)
      && e.model == Model(s.disk.history[e.at].raw, e.at)
      && cfg.usable(e.model.raw)
      && (e.at == s.disk.Last() ==> cfg.signed ==> SidecarAccepts(cfg, s.disk, e.model.raw))
  }

  /** The direct load of the file would return its model. */
  predicate Accepts(cfg: Config, d: Disk)
    requires d.Exists()
  {
    var raw := d.history[d.Last()].raw;
    (cfg.signed ==> SidecarAccepts(cfg, d, raw)) && cfg.usable(raw)
  }

  /** The entry is of an earlier version than the file, and the cache cannot tell or will not believe it:
      time and size are the same, or the file's time lies before the entry's.  Versions count as
      different even if their bytes are equal; `Wrong` below compares bytes. */
  predicate Stale(cfg: Config, s: Slot) {
    && s.disk.Exists() && s.entry.Some?
    && var e, last := s.entry.value, s.disk.history[s.disk.Last()];
       e.at != s.disk.Last() && (e.key == KeyOf(last) || (last.mtime < e.key.mtime && Accepts(cfg, s.disk)))
  }

  /** One call selects what loading the file selects if and only if the slot is not stale; then it leaves
      the file as the direct load does; and in any case the slot stays good. */
  lemma CallIsDirectUnlessStale(cfg: Config, s: Slot, now: int)
    requires GoodSlot(cfg, s)
    ensures var (found, s') := CallOnce(cfg, s, now);
            (found == LoadDirectly(cfg, s.disk).0 <==> !Stale(cfg, s)) &&
            (!Stale(cfg, s) ==> s'.disk == LoadDirectly(cfg, s.disk).1) &&
            GoodSlot(cfg, s')
  {
    hide SidecarAccepts;
  }

  /** The file's latest version can be told from every earlier one. */
  predicate LatestIsNew(d: Disk) {
    d.history != [] ==> NewAt(d, d.Last())
  }

  /** When the latest version is new the slot is not stale. */
  lemma NewIsNotStale(cfg: Config, s: Slot)
    requires GoodSlot(cfg, s) && LatestIsNew(s.disk)
    ensures !Stale(cfg, s)
  {
    hide SidecarAccepts, Accepts;
    if s.disk.Exists() && s.entry.Some? {
      assert s.entry.value.key == KeyOf(s.disk.history[s.entry.value.at]);
    }
  }

  /** Exactly: whatever good entry there is, the slot is not stale, if and only if no earlier version that
      decodes has the latest one's time and size, or a later time when the latest one would be accepted. */
  lemma NoGoodSlotIsStaleIff(cfg: Config, d: Disk)
    requires d.Exists()
    ensures (forall e :: GoodSlot(cfg, Slot(d, Some(e))) ==> !Stale(cfg, Slot(d, Some(e)))) <==>
            (forall i :: 0 <= i < d.Last() && cfg.usable(d.history[i].raw) ==>
               var v, last := d.history[i], d.history[|d.history| - 1];
               (v.mtime != last.mtime || v.size != last.size) && (Accepts(cfg, d) ==> v.mtime <= last.mtime))
  {
    hide SidecarAccepts, Accepts;
    forall i | 0 <= i < d.Last() && cfg.usable(d.history[i].raw)
      ensures var v, last := d.history[i], d.history[d.Last()];
              var s := Slot(d, Some(Entry(Model(v.raw, i), KeyOf(v), 0, i)));
              GoodSlot(cfg, s) &&
              (Stale(cfg, s) <==> KeyOf(v) == KeyOf(last) || (Accepts(cfg, d) && last.mtime < v.mtime))
    {
    }
  }

  /** One call when the latest version is new: the cache answers what the file says, and stays good. */
  lemma CallIsDirect(cfg: Config, s: Slot, now: int)
    requires GoodSlot(cfg, s) && LatestIsNew(s.disk)
    ensures var (found, s') := CallOnce(cfg, s, now);
            (found, s'.disk) == LoadDirectly(cfg, s.disk) && GoodSlot(cfg, s')
  {
    hide CallOnce, LoadDirectly, GoodSlot, LatestIsNew, Stale;
    NewIsNotStale(cfg, s);
    CallIsDirectUnlessStale(cfg, s, now);
  }

  lemma WriteKeepsGood(cfg: Config, s: Slot, v: Version, mac: Option<Mac>)
    requires GoodSlot(cfg, s)
    ensures GoodSlot(cfg, s.(disk := AfterWrite(s.disk, v, mac)))
  {
  }

  lemma {:induction false} UncachedExtends(cfg: Config, d: Disk, ops: seq<Op>)
    ensures Extends(d, Uncached(cfg, d, ops).1)
    decreases |ops|
  {
    if ops != [] {
      match ops[0]
      case Call(_) => UncachedExtends(cfg, LoadDirectly(cfg, d).1, ops[1..]);
      case Write(v, mac) => UncachedExtends(cfg, AfterWrite(d, v, mac), ops[1..]);
      case Remove => UncachedExtends(cfg, WithRemoved(d), ops[1..]);
      case Sweep(_) => UncachedExtends(cfg, d, ops[1..]);
    }
  }

  function Swept(cfg: Config, s: Slot, now: int): Slot {
    if s.entry.Some? && now - s.entry.value.atime > cfg.ttl then s.(entry := None) else s
  }

  /** A sweep of a history is what an eviction does to the one user. */
  lemma SweepIsEviction(cfg: Config, s: State, u: User, now: int)
    ensures SlotIn(Next(cfg, s, Evict(now)), u) == Swept(cfg, SlotIn(s, u), now)
  {
  }

  /** No call of the history meets a stale slot. */
  predicate NeverStale(cfg: Config, s: Slot, ops: seq<Op>)
    decreases |ops|
  {
    ops == [] ||
    match ops[0]
    case Call(now) => !Stale(cfg, s) && NeverStale(cfg, CallOnce(cfg, s, now).1, ops[1..])
    case Write(v, mac) => NeverStale(cfg, s.(disk := AfterWrite(s.disk, v, mac)), ops[1..])
    case Remove => NeverStale(cfg, s.(disk := WithRemoved(s.disk)), ops[1..])
    case Sweep(now) => NeverStale(cfg, Swept(cfg, s, now), ops[1..])
  }

  /** Transparency, exactly: over any history of rewrites, removals, sweeps and calls, every call through
      the cache returns what loading the file directly would have returned, if and only if no call meets
      a stale slot. */
  lemma {:induction false} TransparentIffNeverStale(cfg: Config, s: Slot, ops: seq<Op>)
    requires GoodSlot(cfg, s)
    ensures Cached(cfg, s, ops) == Uncached(cfg, s.disk, ops) <==> NeverStale(cfg, s, ops)
    decreases |ops|
  {
    if ops != [] {
      hide CallOnce, LoadDirectly, GoodSlot, Stale, AfterWrite, WithRemoved;
      match ops[0]
      case Call(now) =>
        CallIsDirectUnlessStale(cfg, s, now);
        TransparentIffNeverStale(cfg, CallOnce(cfg, s, now).1, ops[1..]);
        var (found, s') := CallOnce(cfg, s, now);
        var (loaded, d) := LoadDirectly(cfg, s.disk);
        OneMoreResult(found, Cached(cfg, s', ops[1..]).0, loaded, Uncached(cfg, d, ops[1..]).0);
      case Write(v, mac) =>
        WriteKeepsGood(cfg, s, v, mac);
        TransparentIffNeverStale(cfg, s.(disk := AfterWrite(s.disk, v, mac)), ops[1..]);
      case Remove =>
        RemoveKeepsGood(cfg, s);
        TransparentIffNeverStale(cfg, s.(disk := WithRemoved(s.disk)), ops[1..]);
      case Sweep(now) =>
        DropKeepsGood(cfg, s);
        TransparentIffNeverStale(cfg, Swept(cfg, s, now), ops[1..]);
    }
  }

  lemma OneMoreResult(a: Option<Model>, s: seq<Option<Model>>, b: Option<Model>, t: seq<Option<Model>>)
    ensures [a] + s == [b] + t <==> a == b && s == t
  {
    assert ([a] + s)[0] == a && ([a] + s)[1..] == s;
    assert ([b] + t)[0] == b && ([b] + t)[1..] == t;
  }

  /** Where modification times never decrease and time and size tell versions apart, no history ever
      meets a stale slot. */
  lemma {:induction false} HonestIsNeverStale(cfg: Config, s: Slot, ops: seq<Op>)
    requires GoodSlot(cfg, s) && HonestDisk(Uncached(cfg, s.disk, ops).1)
    ensures NeverStale(cfg, s, ops)
    decreases |ops|
  {
    if ops != [] {
      UncachedExtends(cfg, s.disk, ops);
      GoodGrows(cfg, s.disk, Uncached(cfg, s.disk, ops).1);
      assert LatestIsNew(s.disk);
      hide CallOnce, LoadDirectly, GoodSlot, HonestDisk, LatestIsNew, Extends, Stale, AfterWrite, WithRemoved;
      match ops[0]
      case Call(now) =>
        NewIsNotStale(cfg, s);
        CallIsDirect(cfg, s, now);
        HonestIsNeverStale(cfg, CallOnce(cfg, s, now).1, ops[1..]);
      case Write(v, mac) =>
        WriteKeepsGood(cfg, s, v, mac);
        HonestIsNeverStale(cfg, s.(disk := AfterWrite(s.disk, v, mac)), ops[1..]);
      case Remove =>
        RemoveKeepsGood(cfg, s);
        HonestIsNeverStale(cfg, s.(disk := WithRemoved(s.disk)), ops[1..]);
      case Sweep(now) =>
        DropKeepsGood(cfg, s);
        HonestIsNeverStale(cfg, Swept(cfg, s, now), ops[1..]);
    }
  }

  /** The honest case: the cache is invisible over every history. */
  lemma CacheIsTransparent(cfg: Config, s: Slot, ops: seq<Op>)
    requires GoodSlot(cfg, s) && HonestDisk(Uncached(cfg, s.disk, ops).1)
    ensures Cached(cfg, s, ops) == Uncached(cfg, s.disk, ops)
  {
    hide GoodSlot, HonestDisk, NeverStale, Cached, Uncached;
    HonestIsNeverStale(cfg, s, ops);
    TransparentIffNeverStale(cfg, s, ops);
  }

  lemma RemoveKeepsGood(cfg: Config, s: Slot)
    requires GoodSlot(cfg, s)
    ensures GoodSlot(cfg, s.(disk := WithRemoved(s.disk)))
  {
  }

  lemma DropKeepsGood(cfg: Config, s: Slot)
    ensures GoodSlot(cfg, s.(entry := None))
  {
  }

  // ----- the same in terms of bytes

  /** What a score depends on. */
  function RawOf(found: Option<Model>): Option<Bytes> {
    if found.Some? then Some(found.value.raw) else None
  }

  function RawsOf(found: seq<Option<Model>>): seq<Option<Bytes>> {
    seq(|found|, i requires 0 <= i < |found| => RawOf(found[i]))
  }

  /** The cache takes its entry for the file's, or will not believe an earlier time, while loading the file
      would give other bytes or none. */
  predicate Wrong(cfg: Config, s: Slot) {
    && s.disk.Exists() && s.entry.Some?
    && var e, last := s.entry.value, s.disk.history[s.disk.Last()];
       if e.key == KeyOf(last) then !(Accepts(cfg, s.disk) && e.model.raw == last.raw)
       else last.mtime < e.key.mtime && Accepts(cfg, s.disk) && e.model.raw != last.raw
  }

  /** Whatever the slot, one call selects the bytes that loading the file selects if and only if the slot
      is not wrong; then it leaves the file as the direct load does. */
  lemma SameBytesUnlessWrong(cfg: Config, s: Slot, now: int)
    ensures var (found, s') := CallOnce(cfg, s, now);
            (RawOf(found) == RawOf(LoadDirectly(cfg, s.disk).0) <==> !Wrong(cfg, s)) &&
            (!Wrong(cfg, s) ==> s'.disk == LoadDirectly(cfg, s.disk).1)
  {
    hide SidecarAccepts;
  }

  /** A slot that is not stale is not wrong; a stale one need not be, if the versions have equal bytes. */
  lemma WrongIsStale(cfg: Config, s: Slot)
    requires GoodSlot(cfg, s) && Wrong(cfg, s)
    ensures Stale(cfg, s)
  {
    hide SidecarAccepts;
  }

  /** No call of the history meets a wrong slot. */
  predicate NeverWrong(cfg: Config, s: Slot, ops: seq<Op>)
    decreases |ops|
  {
    ops == [] ||
    match ops[0]
    case Call(now) => !Wrong(cfg, s) && NeverWrong(cfg, CallOnce(cfg, s, now).1, ops[1..])
    case Write(v, mac) => NeverWrong(cfg, s.(disk := AfterWrite(s.disk, v, mac)), ops[1..])
    case Remove => NeverWrong(cfg, s.(disk := WithRemoved(s.disk)), ops[1..])
    case Sweep(now) => NeverWrong(cfg, Swept(cfg, s, now), ops[1..])
  }

  lemma OneMoreRaw(a: Option<Model>, s: seq<Option<Model>>, b: Option<Model>, t: seq<Option<Model>>)
    ensures RawsOf([a] + s) == RawsOf([b] + t) <==> RawOf(a) == RawOf(b) && RawsOf(s) == RawsOf(t)
  {
    hide RawOf;
    assert RawsOf([a] + s) == [RawOf(a)] + RawsOf(s);
    assert RawsOf([b] + t) == [RawOf(b)] + RawsOf(t);
    assert ([RawOf(a)] + RawsOf(s))[0] == RawOf(a) && ([RawOf(a)] + RawsOf(s))[1..] == RawsOf(s);
    assert ([RawOf(b)] + RawsOf(t))[0] == RawOf(b) && ([RawOf(b)] + RawsOf(t))[1..] == RawsOf(t);
  }

  /** Over any history, from any slot, every call through the cache selects the bytes that loading the file
      directly would have selected if and only if no call meets a wrong slot; the files then end up the
      same as well. */
  lemma {:induction false} SameBytesIffNeverWrong(cfg: Config, s: Slot, ops: seq<Op>)
    ensures RawsOf(Cached(cfg, s, ops).0) == RawsOf(Uncached(cfg, s.disk, ops).0) <==> NeverWrong(cfg, s, ops)
    ensures NeverWrong(cfg, s, ops) ==> Cached(cfg, s, ops).1 == Uncached(cfg, s.disk, ops).1
    decreases |ops|
  {
    if ops != [] {
      hide CallOnce, LoadDirectly, Wrong, AfterWrite, WithRemoved, RawsOf, RawOf;
      match ops[0]
      case Call(now) =>
        SameBytesUnlessWrong(cfg, s, now);
        SameBytesIffNeverWrong(cfg, CallOnce(cfg, s, now).1, ops[1..]);
        var (found, s') := CallOnce(cfg, s, now);
        var (loaded, d) := LoadDirectly(cfg, s.disk);
        OneMoreRaw(found, Cached(cfg, s', ops[1..]).0, loaded, Uncached(cfg, d, ops[1..]).0);
      case Write(v, mac) => SameBytesIffNeverWrong(cfg, s.(disk := AfterWrite(s.disk, v, mac)), ops[1..]);
      case Remove => SameBytesIffNeverWrong(cfg, s.(disk := WithRemoved(s.disk)), ops[1..]);
      case Sweep(now) => SameBytesIffNeverWrong(cfg, Swept(cfg, s, now), ops[1..]);
    }
  }

  // ----- what is loaded

  /** The file is there, and its latest version is `m`, which decodes and, when a key is set, has a sidecar
      that accepts its very bytes. */
  ghost predicate Loadable(cfg: Config, d: Disk, m: Model) {
    && d.present && d.history != []
    && m == Model(d.history[|d.history| - 1].raw, |d.history| - 1)
    && cfg.usable(m.raw)
    && (cfg.signed ==> exists mac :: d.sidecar == Some(mac) && cfg.macOk(m.raw, mac))
  }

  lemma LoadsIff(cfg: Config, d: Disk, m: Model)
    ensures LoadDirectly(cfg, d).0 == Some(m) <==> Loadable(cfg, d, m)
  {
    if d.sidecar.Some? {
      assert SidecarAccepts(cfg, d, m.raw) <==> cfg.macOk(m.raw, d.sidecar.value);
    }
  }

  /** Without an entry a call returns exactly the models that are loadable, and remembers them under the
      file's time and size. */
  lemma FirstCallLoadsIff(cfg: Config, d: Disk, now: int, m: Model)
    ensures var (found, s') := CallOnce(cfg, Slot(d, None), now);
            (found == Some(m) <==> Loadable(cfg, d, m)) &&
            (Loadable(cfg, d, m) ==>
               var v := d.history[|d.history| - 1];
               s' == Slot(d, Some(Entry(m, Key(v.mtime, v.size), now, |d.history| - 1))))
  {
    LoadsIff(cfg, d, m);
    hide SidecarAccepts;
  }

  /** The same of the steps of a thread that nobody interrupts. */
  lemma FirstRunLoadsIff(cfg: Config, s: State, t: Tid, u: User, now: int, m: Model)
    requires u !in s.entries
    ensures var s' := Run(cfg, s, CallSteps(t, u, now));
            t in s'.threads &&
            (s'.threads[t].Returned? && s'.threads[t].found == m <==> Loadable(cfg, DiskOf(s.disks, u), m))
  {
    CallIsRun(cfg, s, t, u, now);
    FirstCallLoadsIff(cfg, DiskOf(s.disks, u), now, m);
    hide Run, CallOnce, Loadable, CallSteps, DiskOf;
  }

  /** After a rewrite whose version can be told from all before it, whatever entry there was, the next call
      returns exactly the new bytes if they decode and their sidecar accepts them, and no model otherwise;
      a file that does not decode is gone after that call. */
  lemma RewriteIsServed(cfg: Config, s: Slot, v: Version, mac: Option<Mac>, now: int)
    requires GoodSlot(cfg, s)
    requires forall i :: 0 <= i < |s.disk.history| ==>
               var w := s.disk.history[i]; w.mtime < v.mtime || (w.mtime == v.mtime && w.size != v.size)
    ensures var (found, s') := CallOnce(cfg, s.(disk := AfterWrite(s.disk, v, mac)), now);
            var accepted := cfg.signed ==> mac.Some? && cfg.macOk(v.raw, mac.value);
            RawOf(found) == (if accepted && cfg.usable(v.raw) then Some(v.raw) else None) &&
            s'.disk.history == s.disk.history + [v] && s'.disk.sidecar == mac &&
            (s'.disk.present <==> !accepted || cfg.usable(v.raw)) &&
            (found == None ==> s'.entry == None)
  {
    var d := AfterWrite(s.disk, v, mac);
    WriteKeepsGood(cfg, s, v, mac);
    assert d.history[..|s.disk.history|] == s.disk.history;
    assert forall i :: 0 <= i < |s.disk.history| ==> d.history[i] == s.disk.history[i];
    assert LatestIsNew(d);
    hide NewAt, LatestIsNew, GoodSlot, AfterWrite;
    CallIsDirect(cfg, s.(disk := d), now);
  }

  // ----- stale slots

  /** Two versions with the same time and size cannot be told apart: the call after the second write still
      gets the first. */
  lemma SharedKeyHidesRewrite(cfg: Config, v: Version, w: Version)
    requires !cfg.signed && cfg.usable(v.raw) && v.mtime == w.mtime && v.size == w.size
    ensures Cached(cfg, Slot(NO_DISK, None), [Write(v, None), Call(0), Write(w, None), Call(1)]).0
         == [Some(Model(v.raw, 0)), Some(Model(v.raw, 0))]
  {
    var d := AfterWrite(NO_DISK, v, None);
    var e := Entry(Model(v.raw, 0), KeyOf(v), 0, 0);
    var d' := AfterWrite(d, w, None);
    assert d.history == [v] && d'.history == [v, w];
    var s0, s1, s2 := Slot(d, None), Slot(d, Some(e)), Slot(d', Some(e));
    assert CallOnce(cfg, s0, 0) == (Some(Model(v.raw, 0)), s1);
    assert CallOnce(cfg, s2, 1).0 == Some(Model(v.raw, 0));
    UnfoldFour(cfg, v, w, s1, s2);
  }

  /** Nor does the call after a rewrite whose time goes backwards get the new version: the older entry is
      kept. */
  lemma BackwardTimeHidesRewrite(cfg: Config, v: Version, w: Version)
    requires !cfg.signed && cfg.usable(v.raw) && cfg.usable(w.raw) && w.mtime < v.mtime
    ensures Cached(cfg, Slot(NO_DISK, None), [Write(v, None), Call(0), Write(w, None), Call(1)]).0
         == [Some(Model(v.raw, 0)), Some(Model(v.raw, 0))]
  {
    var d := AfterWrite(NO_DISK, v, None);
    var e := Entry(Model(v.raw, 0), KeyOf(v), 0, 0);
    var d' := AfterWrite(d, w, None);
    assert d.history == [v] && d'.history == [v, w];
    var s0, s1, s2 := Slot(d, None), Slot(d, Some(e)), Slot(d', Some(e));
    assert CallOnce(cfg, s0, 0) == (Some(Model(v.raw, 0)), s1);
    assert CallOnce(cfg, s2, 1).0 == Some(Model(v.raw, 0));
    UnfoldFour(cfg, v, w, s1, s2);
  }

  lemma UnfoldFour(cfg: Config, v: Version, w: Version, s1: Slot, s2: Slot)
    requires s1 == CallOnce(cfg, Slot(AfterWrite(NO_DISK, v, None), None), 0).1
    requires s2 == s1.(disk := AfterWrite(s1.disk, w, None))
    ensures Cached(cfg, Slot(NO_DISK, None), [Write(v, None), Call(0), Write(w, None), Call(1)]).0
         == [CallOnce(cfg, Slot(AfterWrite(NO_DISK, v, None), None), 0).0, CallOnce(cfg, s2, 1).0]
  {
    hide CallOnce, AfterWrite;
    var ops := [Write(v, None), Call(0), Write(w, None), Call(1)];
    var s0 := Slot(AfterWrite(NO_DISK, v, None), None);
    assert ops[1..] == [Call(0), Write(w, None), Call(1)];
    assert ops[1..][1..] == [Write(w, None), Call(1)];
    assert ops[1..][1..][1..] == [Call(1)];
    assert [Call(1)][1..] == [];
    var f := CallOnce(cfg, s2, 1);
    assert Cached(cfg, f.1, []) == ([], f.1.disk);
    assert Cached(cfg, s2, [Call(1)]).0 == [f.0] + [];
    assert Cached(cfg, s1, [Write(w, None), Call(1)]) == Cached(cfg, s2, [Call(1)]);
  }
}
