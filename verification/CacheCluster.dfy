/** Every interleaving of writes, invalidations, deliveries, losses and cache fills on many workers. */
module CacheCluster {
  import opened Prelude
  import opened StatsCache

  /** A cached answer: how many committed writes its query saw, the invalidations its worker applied
      between that query and the store, and when it was stored. */
  datatype Answer = Answer(seen: nat, spanned: set<nat>, storedAt: int)

  /** A produce() in flight inside wrap; `seen` is absent until its query has read. */
  datatype Produce = Produce(key: string, owner: Option<int>, seen: Option<nat>, spanned: set<nat>)

  /** A committed write; `invalidated` once its handler has called invalidate. */
  datatype Write = Write(user: Option<int>, worker: nat, invalidated: bool)

  datatype Worker = Worker(cache: Entries<Answer>, producing: map<nat, Produce>)

  /** `flying` and `lost` hold (write, target worker) messages. */
  datatype Cluster = Cluster(workers: seq<Worker>, writes: seq<Write>, flying: set<(nat, nat)>, lost: set<(nat, nat)>)

  datatype Step =
    | Commit(user: Option<int>, at: nat)
    | CallInvalidate(write: nat, sentTo: set<nat>, lostTo: set<nat>)
    | Deliver(write: nat, to: nat)
    | Lose(write: nat, to: nat)
    | Lookup(at: nat, key: string, now: int)
    | StartProduce(at: nat, id: nat, key: string, owner: Option<int>)
    | ReadDatabase(at: nat, id: nat)
    | Store(at: nat, id: nat, now: int)

  const MAX_ENTRIES: nat := 500
  const TTL_MS: int := 60_000

  predicate Enabled(c: Cluster, s: Step) {
    match s
    case Commit(_, w) => w < |c.workers|
    case CallInvalidate(n, sentTo, lostTo) =>
      // every other worker's copy of the message is either on its way or gone
      && n < |c.writes| && !c.writes[n].invalidated && c.writes[n].worker < |c.workers|
      && forall w :: 0 <= w < |c.workers| && w != c.writes[n].worker ==> w in sentTo || w in lostTo
    case Deliver(n, w) => (n, w) in c.flying && n < |c.writes| && w < |c.workers|
    case Lose(n, w) => (n, w) in c.flying
    case Lookup(w, _, _) => w < |c.workers|
    case StartProduce(w, id, _, _) => w < |c.workers| && id !in c.workers[w].producing
    case ReadDatabase(w, id) =>
      w < |c.workers| && id in c.workers[w].producing && c.workers[w].producing[id].seen.None?
    case Store(w, id, _) =>
      w < |c.workers| && id in c.workers[w].producing && c.workers[w].producing[id].seen.Some?
  }

  /** Applying write `n`'s invalidation on a worker: entries go at once, a produce in flight does not notice. */
  function Invalidated(w: Worker, user: Option<int>, n: nat): Worker {
    Worker(Purge(w.cache, user),
           map id | id in w.producing :: w.producing[id].(spanned := w.producing[id].spanned + {n}))
  }

  function Apply(c: Cluster, s: Step): Cluster
    requires Enabled(c, s)
  {
    match s
    case Commit(user, w) => c.(writes := c.writes + [Write(user, w, false)])
    case CallInvalidate(n, sentTo, lostTo) =>
      var write := c.writes[n];
      c.(workers := c.workers[write.worker := Invalidated(c.workers[write.worker], write.user, n)],
         writes := c.writes[n := write.(invalidated := true)],
         flying := c.flying + (set w | w in sentTo :: (n, w)),
         lost := c.lost + (set w | w in lostTo :: (n, w)))
    case Deliver(n, w) =>
      c.(workers := c.workers[w := Invalidated(c.workers[w], c.writes[n].user, n)], flying := c.flying - {(n, w)})
    case Lose(n, w) => c.(flying := c.flying - {(n, w)}, lost := c.lost + {(n, w)})
    case Lookup(w, key, now) =>
      c.(workers := c.workers[w := c.workers[w].(cache := AfterGet(c.workers[w].cache, key, now))])
    case StartProduce(w, id, key, owner) =>
      var p := Produce(key, owner, None, {});
      c.(workers := c.workers[w := c.workers[w].(producing := c.workers[w].producing[id := p])])
    case ReadDatabase(w, id) =>
      var p := c.workers[w].producing[id].(seen := Some(|c.writes|), spanned := {});
      c.(workers := c.workers[w := c.workers[w].(producing := c.workers[w].producing[id := p])])
    case Store(w, id, now) =>
      var p := c.workers[w].producing[id];
      var slot := Slot(p.key, Answer(p.seen.value, p.spanned, now), p.owner, now + TTL_MS);
      c.(workers := c.workers[w := Worker(AfterSet(c.workers[w].cache, slot, MAX_ENTRIES),
                                          c.workers[w].producing - {id})])
  }

  function Next(c: Cluster, s: Step): Cluster {
    if Enabled(c, s) then Apply(c, s) else c
  }

  function Start(workers: nat): Cluster {
    Cluster(seq(workers, _ => Worker([], map[])), [], {}, {})
  }

  /** The cluster after any sequence of steps; a step that is not enabled does nothing. */
  function After(workers: nat, steps: seq<Step>): Cluster {
    if steps == [] then Start(workers) else Next(After(workers, steps[..|steps| - 1]), steps[|steps| - 1])
  }

  // ---- the safety invariant --------------------------------------------------------------

  /** Why data read after `seen` writes may still miss write `n` on worker `w`. */
  predicate HasCause(c: Cluster, n: nat, w: nat, spanned: set<nat>)
    requires n < |c.writes|
  {
    !c.writes[n].invalidated || (n, w) in c.flying || (n, w) in c.lost || n in spanned
  }

  predicate Explained(c: Cluster, w: nat, owner: Option<int>, seen: nat, spanned: set<nat>) {
    seen <= |c.writes| &&
    forall n :: seen <= n < |c.writes| && (owner.None? || c.writes[n].user.None? || owner == c.writes[n].user) ==>
      HasCause(c, n, w, spanned)
  }

  predicate SlotOk(c: Cluster, w: nat, s: Slot<Answer>) {
    Explained(c, w, s.owner, s.value.seen, s.value.spanned) && s.expiresAt == s.value.storedAt + TTL_MS
  }

  predicate ProduceOk(c: Cluster, w: nat, p: Produce) {
    p.seen.Some? ==> Explained(c, w, p.owner, p.seen.value, p.spanned)
  }

  predicate WorkerOk(c: Cluster, w: nat)
    requires w < |c.workers|
  {
    && (forall s :: s in c.workers[w].cache ==> SlotOk(c, w, s))
    && (forall id :: id in c.workers[w].producing ==> ProduceOk(c, w, c.workers[w].producing[id]))
  }

  predicate Safe(c: Cluster) {
    && (forall w :: 0 <= w < |c.workers| ==> WorkerOk(c, w))
    && (forall m :: m in c.flying ==> m.0 < |c.writes|)
  }

  /** A later state explains at least what an earlier one did, on one worker. */
  ghost predicate Carries(c: Cluster, d: Cluster, w: nat) {
    && |c.writes| <= |d.writes|
    && (forall n :: 0 <= n < |c.writes| ==> d.writes[n].user == c.writes[n].user)
    && (forall n :: 0 <= n < |c.writes| && HasCause(c, n, w, {}) ==> HasCause(d, n, w, {}))
    && (forall n :: |c.writes| <= n < |d.writes| ==> !d.writes[n].invalidated)
  }

  lemma ExplainedCarries(c: Cluster, d: Cluster, w: nat, owner: Option<int>, seen: nat, spanned: set<nat>)
    requires Carries(c, d, w) && Explained(c, w, owner, seen, spanned)
    ensures Explained(d, w, owner, seen, spanned)
  {
    forall n | seen <= n < |d.writes| && (owner.None? || d.writes[n].user.None? || owner == d.writes[n].user)
      ensures HasCause(d, n, w, spanned) {
      if n < |c.writes| {
        assert HasCause(c, n, w, spanned);
        assert n !in spanned ==> HasCause(c, n, w, {});
      }
    }
  }

  /** Workers the step leaves alone stay explained. */
  lemma OtherWorker(c: Cluster, d: Cluster, w: nat)
    requires w < |c.workers| && w < |d.workers| && WorkerOk(c, w) && Carries(c, d, w)
    requires forall s :: s in d.workers[w].cache ==> s in c.workers[w].cache
    requires forall id :: id in d.workers[w].producing ==>
      id in c.workers[w].producing && d.workers[w].producing[id] == c.workers[w].producing[id]
    ensures WorkerOk(d, w)
  {
    forall s | s in d.workers[w].cache ensures SlotOk(d, w, s) {
      ExplainedCarries(c, d, w, s.owner, s.value.seen, s.value.spanned);
    }
    forall id | id in d.workers[w].producing ensures ProduceOk(d, w, d.workers[w].producing[id]) {
      var p := c.workers[w].producing[id];
      if p.seen.Some? {
        ExplainedCarries(c, d, w, p.owner, p.seen.value, p.spanned);
      }
    }
  }

  /** Everything but one write is carried over. */
  ghost predicate CarriesBut(c: Cluster, d: Cluster, w: nat, n0: nat) {
    && |c.writes| == |d.writes| && n0 < |c.writes|
    && (forall n :: 0 <= n < |c.writes| ==> d.writes[n].user == c.writes[n].user)
    && (forall n :: 0 <= n < |c.writes| && n != n0 && HasCause(c, n, w, {}) ==> HasCause(d, n, w, {}))
  }

  /** On the worker that applies write `n0`, what survives either does not depend on it or spans it. */
  lemma InvalidatedWorker(c: Cluster, d: Cluster, w: nat, n0: nat)
    requires w < |c.workers| && w < |d.workers| && WorkerOk(c, w) && CarriesBut(c, d, w, n0)
    requires d.workers[w] == Invalidated(c.workers[w], c.writes[n0].user, n0)
    ensures WorkerOk(d, w)
  {
    var user := c.writes[n0].user;
    SelectMembers(c.workers[w].cache, Spared(user));
    forall s | s in d.workers[w].cache ensures SlotOk(d, w, s) {
      SurvivorExplained(c, d, w, n0, s.owner, s.value.seen, s.value.spanned, s.value.spanned);
    }
    forall id | id in d.workers[w].producing ensures ProduceOk(d, w, d.workers[w].producing[id]) {
      var p := c.workers[w].producing[id];
      if p.seen.Some? {
        SurvivorExplained(c, d, w, n0, p.owner, p.seen.value, p.spanned, p.spanned + {n0});
      }
    }
  }

  lemma SurvivorExplained(c: Cluster, d: Cluster, w: nat, n0: nat, owner: Option<int>, seen: nat,
                          spanned: set<nat>, spanned': set<nat>)
    requires CarriesBut(c, d, w, n0) && Explained(c, w, owner, seen, spanned) && spanned <= spanned'
    requires n0 in spanned' || !(owner.None? || c.writes[n0].user.None? || owner == c.writes[n0].user)
    ensures Explained(d, w, owner, seen, spanned')
  {
    forall n | seen <= n < |d.writes| && (owner.None? || d.writes[n].user.None? || owner == d.writes[n].user)
      ensures HasCause(d, n, w, spanned') {
      assert HasCause(c, n, w, spanned);
      assert n !in spanned ==> HasCause(c, n, w, {});
    }
  }

  lemma AfterGetMembers(c: Entries<Answer>, key: string, now: int)
    ensures forall s :: s in AfterGet(c, key, now) ==> s in c
  {
    SelectMembers(c, NotKey<Answer>(key));
    FoundIsMember(c, key);
  }

  lemma {:induction false} FoundIsMember(c: Entries<Answer>, key: string)
    ensures Find(c, key).Some? ==> Find(c, key).value in c
  {
    if c != [] && c[|c| - 1].key != key {
      FoundIsMember(c[..|c| - 1], key);
    }
  }

  lemma AfterSetMembers(c: Entries<Answer>, slot: Slot<Answer>, max: nat)
    ensures forall s :: s in AfterSet(c, slot, max) ==> s == slot || s in c
  {
    SelectMembers(c, NotKey<Answer>(slot.key));
  }

  lemma CommitIsSafe(c: Cluster, user: Option<int>, at: nat)
    requires Safe(c) && Enabled(c, Commit(user, at))
    ensures Safe(Apply(c, Commit(user, at)))
  {
    var d := Apply(c, Commit(user, at));
    forall w | 0 <= w < |d.workers| ensures WorkerOk(d, w) {
      OtherWorker(c, d, w);
    }
  }

  lemma CallIsSafe(c: Cluster, n: nat, sentTo: set<nat>, lostTo: set<nat>)
    requires Safe(c) && Enabled(c, CallInvalidate(n, sentTo, lostTo))
    ensures Safe(Apply(c, CallInvalidate(n, sentTo, lostTo)))
  {
    var d := Apply(c, CallInvalidate(n, sentTo, lostTo));
    forall w | 0 <= w < |d.workers| ensures WorkerOk(d, w) {
      if w == c.writes[n].worker {
        InvalidatedWorker(c, d, w, n);
      } else {
        assert (n, w) in d.flying || (n, w) in d.lost;
        OtherWorker(c, d, w);
      }
    }
  }

  lemma DeliverIsSafe(c: Cluster, n: nat, to: nat)
    requires Safe(c) && Enabled(c, Deliver(n, to))
    ensures Safe(Apply(c, Deliver(n, to)))
  {
    var d := Apply(c, Deliver(n, to));
    forall w | 0 <= w < |d.workers| ensures WorkerOk(d, w) {
      if w == to {
        InvalidatedWorker(c, d, w, n);
      } else {
        OtherWorker(c, d, w);
      }
    }
  }

  lemma LoseIsSafe(c: Cluster, n: nat, to: nat)
    requires Safe(c) && Enabled(c, Lose(n, to))
    ensures Safe(Apply(c, Lose(n, to)))
  {
    var d := Apply(c, Lose(n, to));
    forall w | 0 <= w < |d.workers| ensures WorkerOk(d, w) {
      OtherWorker(c, d, w);
    }
  }

  /** A step that changes one worker's cache or produces and nothing shared. */
  lemma LocalStepIsSafe(c: Cluster, s: Step)
    requires Safe(c) && Enabled(c, s) && (s.Lookup? || s.StartProduce? || s.ReadDatabase? || s.Store?)
    ensures Safe(Apply(c, s))
  {
    var d := Apply(c, s);
    forall w | 0 <= w < |d.workers| ensures WorkerOk(d, w) {
      if w != s.at {
        OtherWorker(c, d, w);
      } else {
        LocalWorkerOk(c, s);
      }
    }
  }

  lemma LocalWorkerOk(c: Cluster, s: Step)
    requires Safe(c) && Enabled(c, s) && (s.Lookup? || s.StartProduce? || s.ReadDatabase? || s.Store?)
    ensures WorkerOk(Apply(c, s), s.at)
  {
    var d := Apply(c, s);
    var w := s.at;
    assert WorkerOk(c, w);
    forall x | SlotOk(c, w, x) ensures SlotOk(d, w, x) {
      ExplainedCarries(c, d, w, x.owner, x.value.seen, x.value.spanned);
    }
    forall p | ProduceOk(c, w, p) ensures ProduceOk(d, w, p) {
      if p.seen.Some? {
        ExplainedCarries(c, d, w, p.owner, p.seen.value, p.spanned);
      }
    }
    match s
    case Lookup(_, key, now) => AfterGetMembers(c.workers[w].cache, key, now);
    case StartProduce(_, id, key, owner) =>
    case ReadDatabase(_, id) =>
    case Store(_, id, now) =>
      var p := c.workers[w].producing[id];
      var slot := Slot(p.key, Answer(p.seen.value, p.spanned, now), p.owner, now + TTL_MS);
      assert ProduceOk(d, w, p);
      AfterSetMembers(c.workers[w].cache, slot, MAX_ENTRIES);
  }

  lemma StepIsSafe(c: Cluster, s: Step)
    requires Safe(c)
    ensures Safe(Next(c, s))
  {
    if Enabled(c, s) {
      match s
      case Commit(user, at) => CommitIsSafe(c, user, at);
      case CallInvalidate(n, sentTo, lostTo) => CallIsSafe(c, n, sentTo, lostTo);
      case Deliver(n, to) => DeliverIsSafe(c, n, to);
      case Lose(n, to) => LoseIsSafe(c, n, to);
      case _ => LocalStepIsSafe(c, s);
    }
  }

  lemma {:induction false} EveryRunIsSafe(workers: nat, steps: seq<Step>)
    ensures Safe(After(workers, steps))
  {
    if steps != [] {
      EveryRunIsSafe(workers, steps[..|steps| - 1]);
      StepIsSafe(After(workers, steps[..|steps| - 1]), steps[|steps| - 1]);
    }
  }

  // ---- what it means for a reader ----------------------------------------------------------

  /** On any worker after any run, a hit at `now` was stored less than a TTL before, and each committed
      write it misses has not been invalidated yet, has its message in flight or lost, or was
      invalidated between the answer's query and its store. */
  lemma StaleHitHasCause(workers: nat, steps: seq<Step>, w: nat, key: string, now: int, n: nat)
    requires var c := After(workers, steps);
      w < |c.workers| && IsHit(c.workers[w].cache, key, now) && n < |c.writes|
    ensures var c := After(workers, steps); var s := Find(c.workers[w].cache, key).value;
      && now < s.value.storedAt + TTL_MS
      && (n >= s.value.seen && (s.owner.None? || c.writes[n].user.None? || s.owner == c.writes[n].user) ==>
            !c.writes[n].invalidated || (n, w) in c.flying || (n, w) in c.lost || n in s.value.spanned)
  {
    EveryRunIsSafe(workers, steps);
    var c := After(workers, steps);
    FoundIsMember(c.workers[w].cache, key);
    assert WorkerOk(c, w);
    assert SlotOk(c, w, Find(c.workers[w].cache, key).value);
  }

  /** Once every write is invalidated and every message delivered without loss, only an answer whose
      produce spanned an invalidation can be stale. */
  lemma QuietClusterIsFresh(workers: nat, steps: seq<Step>, w: nat, s: Slot<Answer>, n: nat)
    requires var c := After(workers, steps);
      && (forall k :: 0 <= k < |c.writes| ==> c.writes[k].invalidated)
      && c.flying == {} && c.lost == {}
      && w < |c.workers| && s in c.workers[w].cache && s.value.spanned == {}
      && n < |c.writes| && (s.owner.None? || c.writes[n].user.None? || s.owner == c.writes[n].user)
    ensures n < s.value.seen
  {
    EveryRunIsSafe(workers, steps);
    var c := After(workers, steps);
    assert WorkerOk(c, w) && SlotOk(c, w, s);
    assert !HasCause(c, n, w, s.value.spanned);
  }

  /** Deliveries and losses drain the channel, and only a handler's own call ever adds to it. */
  lemma MessagesDrain(c: Cluster, s: Step)
    requires Enabled(c, s)
    ensures s.Deliver? || s.Lose? ==> |Apply(c, s).flying| == |c.flying| - 1
    ensures !s.CallInvalidate? ==> Apply(c, s).flying <= c.flying
  {
  }

  function Steps(c: Cluster, steps: seq<Step>): Cluster {
    if steps == [] then c else Next(Steps(c, steps[..|steps| - 1]), steps[|steps| - 1])
  }

  predicate IsTransit(s: Step) {
    s.Deliver? || s.Lose?
  }

  /** Messages feed nothing back: from any state at most as many can be delivered or lost as are in flight. */
  lemma {:induction false} DeliveriesEnd(c: Cluster, steps: seq<Step>)
    requires forall k :: 0 <= k < |steps| ==> IsTransit(steps[k]) && Enabled(Steps(c, steps[..k]), steps[k])
    ensures |Steps(c, steps).flying| == |c.flying| - |steps|
  {
    if steps != [] {
      var n := |steps| - 1;
      forall k | 0 <= k < n ensures IsTransit(steps[..n][k]) && Enabled(Steps(c, steps[..n][..k]), steps[..n][k]) {
        assert steps[..n][..k] == steps[..k];
      }
      DeliveriesEnd(c, steps[..n]);
      MessagesDrain(Steps(c, steps[..n]), steps[n]);
    }
  }

  /** The window the code leaves open, from any state: a produce that has read, then a write by its
      owner committed and fully invalidated on its own worker, then the store. The next lookup serves
      an answer that misses the write. */
  lemma SpanningProduceIsServedStale(c: Cluster, w: nat, id: nat, user: int, sentTo: set<nat>, lostTo: set<nat>,
                                     now: int)
    requires w < |c.workers| && id in c.workers[w].producing && Keyed(c.workers[w].cache)
    requires |c.workers[w].cache| <= MAX_ENTRIES
    requires c.workers[w].producing[id].seen == Some(|c.writes|)
    requires forall v :: 0 <= v < |c.workers| && v != w ==> v in sentTo || v in lostTo
    ensures var n, key := |c.writes|, c.workers[w].producing[id].key;
      var f := Next(Next(Next(c, Commit(Some(user), w)), CallInvalidate(n, sentTo, lostTo)), Store(w, id, now));
      && |f.writes| == n + 1 && f.writes[n].invalidated && |f.workers| == |c.workers|
      && IsHit(f.workers[w].cache, key, now) && Find(f.workers[w].cache, key).value.value.seen == n
  {
    var n, p := |c.writes|, c.workers[w].producing[id];
    var d := Next(c, Commit(Some(user), w));
    var e := Next(d, CallInvalidate(n, sentTo, lostTo));
    assert e.workers[w] == Invalidated(c.workers[w], Some(user), n);
    var q := e.workers[w].producing[id];
    assert q == p.(spanned := p.spanned + {n});
    var slot := Slot(q.key, Answer(n, q.spanned, now), q.owner, now + TTL_MS);
    FindSelect(c.workers[w].cache, Spared<Answer>(Some(user)), q.key);
    FindAfterSet(e.workers[w].cache, slot, MAX_ENTRIES, q.key);
  }

  // ---- what each step does ---------------------------------------------------------------------

  /** At most worker `w` differs. */
  predicate OnlyWorker(c: Cluster, d: Cluster, w: nat) {
    && w < |c.workers| == |d.workers|
    && forall v :: 0 <= v < |c.workers| && v != w ==> d.workers[v] == c.workers[v]
  }

  /** A served entry moves to the back, an expired one goes, and every other one stays. */
  predicate LookedUp(was: Entries<Answer>, key: string, now: int, cache: Entries<Answer>) {
    && (forall s :: s in cache ==> s in was)
    && (forall s :: s in was && s.key != key ==> s in cache)
    && (forall s :: s in was && s.key == key && s.expiresAt <= now ==> s !in cache)
    && (forall s :: s in was && s.key == key && s.expiresAt > now ==> cache != [] && cache[|cache| - 1] == s)
  }

  /** The answer is at the back, nothing else has its key, and below the bound nothing is evicted. */
  predicate Stored(was: Entries<Answer>, slot: Slot<Answer>, cache: Entries<Answer>) {
    && cache != [] && cache[|cache| - 1] == slot && |cache| <= 500
    && (forall i :: 0 <= i < |cache| - 1 ==> cache[i] in was && cache[i].key != slot.key)
    && (|was| < 500 ==> forall s :: s in was && s.key != slot.key ==> s in cache)
  }

  /** Every entry that is not somebody else's goes; every fill in flight has spanned the write. */
  predicate Invalidates(was: Worker, user: Option<int>, n: nat, now: Worker) {
    && now.cache == Left(was.cache, user) && now.producing.Keys == was.producing.Keys
    && forall id :: id in was.producing ==>
         now.producing[id] == was.producing[id].(spanned := was.producing[id].spanned + {n})
  }

  predicate Fills(c: Cluster, s: Step, d: Cluster)
    requires Enabled(c, s)
  {
    match s
    case Commit(user, at) => d == Cluster(c.workers, c.writes + [Write(user, at, false)], c.flying, c.lost)
    case CallInvalidate(n, sentTo, lostTo) =>
      var w := c.writes[n].worker;
      && OnlyWorker(c, d, w) && Invalidates(c.workers[w], c.writes[n].user, n, d.workers[w])
      && d.writes == c.writes[n := Write(c.writes[n].user, w, true)]
      && d.flying == c.flying + (set v | v in sentTo :: (n, v)) && d.lost == c.lost + (set v | v in lostTo :: (n, v))
    case Deliver(n, w) =>
      && OnlyWorker(c, d, w) && Invalidates(c.workers[w], c.writes[n].user, n, d.workers[w])
      && d.writes == c.writes && d.flying == c.flying - {(n, w)} && d.lost == c.lost
    case Lose(n, w) => d == Cluster(c.workers, c.writes, c.flying - {(n, w)}, c.lost + {(n, w)})
    case Lookup(w, key, now) =>
      && OnlyWorker(c, d, w) && d == c.(workers := d.workers)
      && d.workers[w].producing == c.workers[w].producing
      && (Keyed(c.workers[w].cache) ==> LookedUp(c.workers[w].cache, key, now, d.workers[w].cache))
    case StartProduce(w, id, key, owner) =>
      && OnlyWorker(c, d, w) && d == c.(workers := d.workers) && d.workers[w].cache == c.workers[w].cache
      && d.workers[w].producing == c.workers[w].producing[id := Produce(key, owner, None, {})]
    case ReadDatabase(w, id) =>
      var p := c.workers[w].producing[id];
      && OnlyWorker(c, d, w) && d == c.(workers := d.workers) && d.workers[w].cache == c.workers[w].cache
      && d.workers[w].producing == c.workers[w].producing[id := Produce(p.key, p.owner, Some(|c.writes|), {})]
    case Store(w, id, now) =>
      var p := c.workers[w].producing[id];
      var slot := Slot(p.key, Answer(p.seen.value, p.spanned, now), p.owner, now + 60000);
      && OnlyWorker(c, d, w) && d == c.(workers := d.workers)
      && d.workers[w].producing == c.workers[w].producing - {id}
      && Stored(c.workers[w].cache, slot, d.workers[w].cache)
  }

  lemma LookupLooks(was: Entries<Answer>, key: string, now: int)
    requires Keyed(was)
    ensures LookedUp(was, key, now, AfterGet(was, key, now))
  {
    FoundExactly(was, key);
    SelectMembers(was, NotKey<Answer>(key));
    AfterGetMembers(was, key, now);
  }

  lemma StoreStores(was: Entries<Answer>, slot: Slot<Answer>)
    ensures Stored(was, slot, AfterSet(was, slot, MAX_ENTRIES))
  {
    var rest := Without(was, slot.key);
    var whole, cache := rest + [slot], AfterSet(was, slot, MAX_ENTRIES);
    SelectMembers(was, NotKey<Answer>(slot.key));
    FewerSelected(was, NotKey<Answer>(slot.key));
    assert cache == whole[|whole| - |cache|..];
    forall i | 0 <= i < |cache| - 1 ensures cache[i] in was && cache[i].key != slot.key {
      assert cache[i] == rest[i + (|whole| - |cache|)];
    }
  }

  lemma {:induction false} FewerSelected<T>(s: seq<T>, p: T -> bool)
    ensures |Select(s, p)| <= |s|
  {
    if s != [] {
      FewerSelected(s[..|s| - 1], p);
    }
  }

  /** What each step of the cluster does to the one worker, the writes and the messages it concerns: a fill starts
      blind, reads every write committed so far, and is stored with its owner for a minute. */
  lemma StepFills(c: Cluster, s: Step)
    requires Enabled(c, s)
    ensures Fills(c, s, Next(c, s))
  {
    match s
    case Commit(user, at) =>
    case CallInvalidate(n, sentTo, lostTo) =>
      PurgeLeavesOthers(c.workers[c.writes[n].worker].cache, c.writes[n].user);
    case Deliver(n, w) => PurgeLeavesOthers(c.workers[w].cache, c.writes[n].user);
    case Lose(n, w) =>
    case Lookup(w, key, now) =>
      if Keyed(c.workers[w].cache) {
        LookupLooks(c.workers[w].cache, key, now);
      }
    case StartProduce(w, id, key, owner) =>
    case ReadDatabase(w, id) =>
    case Store(w, id, now) =>
      var p := c.workers[w].producing[id];
      StoreStores(c.workers[w].cache, Slot(p.key, Answer(p.seen.value, p.spanned, now), p.owner, now + 60000));
  }
}
