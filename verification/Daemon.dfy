/** One request to the inference daemon, from the session's feature to the score in the reply. */
module Daemon {
  import opened Text
  import opened Encoders
  import C = CacheProtocol
  import M = ModelCache
  import A = Artifacts

  type Scorer = (C.Bytes, seq<real>) -> real

  /** The generation a request carries is compared with the meta file when both are there. */
  predicate Guarded(meta: Option<int>, gen: Option<int>) {
    gen.Some? ==> A.GuardPasses(meta, gen.value)
  }

  function ScoreOf(model: Option<C.Model>, scoreSamples: Scorer, vec: seq<real>): real {
    match model
    case None => M.NO_MODEL_SCORE
    case Some(m) => scoreSamples(m.raw, vec)
  }

  /** The reply to a request, or None when the connection is closed without one. */
  function Reply(cfg: C.Config, s: M.Slot, meta: Option<int>, gen: Option<int>, fields: map<string, real>,
                 scoreSamples: Scorer, now: int): Option<real>
  {
    if !Guarded(meta, gen) || DaemonVector(fields).None? then None
    else Some(ScoreOf(M.CallOnce(cfg, s, now).0, scoreSamples, DaemonVector(fields).value))
  }

  class Server {
    const cache: M.ModelCache
    var metas: map<C.User, int>

    constructor (cache: M.ModelCache)
      ensures this.cache == cache && metas == map[]
    {
      this.cache := cache;
      metas := map[];
    }

    function Meta(user: C.User): Option<int>
      reads this
    {
      if user in metas then Some(metas[user]) else None
    }

    /** Guards by generation, then builds the vector, then asks the cache.  An error in the cache closes
        the connection as well. */
    method Process(user: C.User, gen: Option<int>, fields: map<string, real>, scoreSamples: Scorer,
                   now: int, readable: bool, decodes: bool)
      returns (r: Option<real>)
      modifies cache
      ensures readable && decodes ==>
                r == Reply(cache.cfg, old(cache.SlotOf(user)), Meta(user), gen, fields, scoreSamples, now)
      ensures gen.Some? && user in metas && metas[user] != gen.value ==> r == None
      ensures DaemonVector(fields).None? ==> r == None
      ensures readable && decodes && (gen == None || user !in metas || metas[user] == gen.value) ==>
                (r == None <==> DaemonVector(fields).None?)
      ensures r.Some? ==> cache.SlotOf(user) == M.CallOnce(cache.cfg, old(cache.SlotOf(user)), now).1
      ensures r.None? ==> cache.entries == old(cache.entries) && cache.disks == old(cache.disks)
      ensures forall u :: u != user ==> cache.SlotOf(u) == old(cache.SlotOf(u))
    {
      if gen.Some? {
        var mgen := Meta(user);
        if mgen.Some? && mgen.value != gen.value {
          return None;
        }
      }
      hide DaemonVector, M.CallOnce;
      var vec := DaemonVector(fields);
      if vec == None {
        return None;
      }
      var score := cache.Score(user, vec.value, scoreSamples, now, readable, decodes);
      match score
      case Err(_) => r := None;
      case Ok(value) => r := Some(value);
    }
  }

  lemma ScoreByBytes(a: Option<C.Model>, b: Option<C.Model>, scoreSamples: Scorer, vec: seq<real>)
    requires M.RawOf(a) == M.RawOf(b)
    ensures ScoreOf(a, scoreSamples, vec) == ScoreOf(b, scoreSamples, vec)
  {
  }

  /** Without interleaving and with a slot that is not wrong, a session gets a reply exactly when the
      generations agree or there is no meta file, and the reply is the score that the model now on disk
      gives to the row training would have used for the same line, country, time and spacing. */
  lemma ServedAsTrained(cfg: C.Config, s: M.Slot, meta: Option<int>, gen: int, r: TrainRow, d: Dicts,
                        scoreSamples: Scorer, now: int)
    requires !M.Wrong(cfg, s)
    ensures var (cmd, args) := SplitCommand(r.rawCmd);
            var fields := FeatureFields(BuildFeature(d, r.timeCos, r.timeSin, r.country, cmd, args, r.secsSinceLast));
            Reply(cfg, s, meta, Some(gen), fields, scoreSamples, now) ==
              if meta.Some? && meta.value != gen then None
              else Some(ScoreOf(M.LoadDirectly(cfg, s.disk).0, scoreSamples, MatrixRow(r, d)))
  {
    hide DaemonVector, FeatureFields, BuildFeature, MatrixRow, SplitCommand;
    hide M.CallOnce, M.LoadDirectly, M.Wrong, M.RawOf, ScoreOf;
    M.SameBytesUnlessWrong(cfg, s, now);
    TrainServeAgreement(r, d);
    ScoreByBytes(M.CallOnce(cfg, s, now).0, M.LoadDirectly(cfg, s.disk).0, scoreSamples, MatrixRow(r, d));
  }
}
