/**
 Runs of the window.  A history keeps, beside the ring, the log of accepted
 events and the latest instant the window was expired at.  The theorems say when
 the ring agrees with the log.
 */
module History {
  import opened Wrappers
  import opened Arithmetic
  import opened Bags
  import opened Text
  import opened Ring

  /** `onTime`: no event was accepted into a bucket already below the window at the latest expiry. */
  datatype History = History(cfg: Config, ring: seq<Slot>, log: seq<Entry>, clock: Option<int>, onTime: bool)

  function Start(c: Config): History {
    History(c, seq(BucketCount(c), _ => Vacant), [], None, true)
  }

  function Later(clock: Option<int>, now: int): int {
    if clock.Some? && clock.value > now then clock.value else now
  }

  function ExpireAt(h: History, now: int): History {
    h.(ring := Expire(h.ring, MinBucketId(h.cfg, now)), clock := Some(Later(h.clock, now)))
  }

  function Accept(h: History, e: Entry): History
    requires |h.ring| > 0 && h.clock.Some?
  {
    h.(
      ring := Put(h.ring, e.bucket, e),
      log := h.log + [e],
      onTime := h.onTime && e.bucket >= MinBucketId(h.cfg, h.clock.value))
  }

  /** `AddAt`: the bucket is made or recycled before its own limit is checked. */
  ghost function AddAt(u: Unicode, h: History, ev: Event, now: int): (r: History)
    requires |h.ring| > 0
    ensures |r.ring| == |h.ring| && r.cfg == h.cfg
  {
    var e := EntryOf(u, h.cfg, ev, now);
    match Decision(u, h.cfg, h.ring, ev, now)
    case NotDropped => Accept(ExpireAt(h, now), e)
    case EmptyQuery => h
    case FromFuture => h
    case BucketCardinalityLimit =>
      var r := ExpireAt(h, now);
      r.(ring := Recycle(r.ring, e.bucket))
    case _ => ExpireAt(h, now)
  }

  // ---------- the log as reference ----------

  /** The log restricted to the buckets at or above `min`. */
  ghost function Live(log: seq<Entry>, min: int): multiset<Entry> {
    if log == [] then multiset{} else
      var e := log[|log| - 1];
      var front := Live(log[..|log| - 1], min);
      if e.bucket >= min then front + multiset{e} else front
  }

  /** The number of logged events for `q` at or above `min`. */
  function CountLive(log: seq<Entry>, min: int, q: string): nat {
    if log == [] then 0 else
      var e := log[|log| - 1];
      CountLive(log[..|log| - 1], min, q) + (if e.bucket >= min && e.query == q then 1 else 0)
  }

  /** Likewise for one query of one actor; events without an actor key are nobody's. */
  function CountLiveActor(log: seq<Entry>, min: int, k: ActorQuery): nat {
    if log == [] then 0 else
      var e := log[|log| - 1];
      CountLiveActor(log[..|log| - 1], min, k) +
      (if e.bucket >= min && e.actor != "" && ActorQuery(e.query, e.actor) == k then 1 else 0)
  }

  function CountAllLive(log: seq<Entry>, min: int): nat {
    if log == [] then 0 else
      var e := log[|log| - 1];
      CountAllLive(log[..|log| - 1], min) + (if e.bucket >= min then 1 else 0)
  }

  lemma {:induction false} LiveQueryCount(log: seq<Entry>, min: int, q: string)
    ensures Queries(Live(log, min))[q] == CountLive(log, min, q)
  {
    if log != [] {
      var front, e := log[..|log| - 1], log[|log| - 1];
      LiveQueryCount(front, min, q);
      if e.bucket >= min {
        CollectAdd(QueryOf, Live(front, min), e);
      }
    }
  }

  lemma {:induction false} LiveActorCount(log: seq<Entry>, min: int, k: ActorQuery)
    ensures Actors(Live(log, min))[k] == CountLiveActor(log, min, k)
  {
    if log != [] {
      var front, e := log[..|log| - 1], log[|log| - 1];
      LiveActorCount(front, min, k);
      if e.bucket >= min {
        CollectAdd(ActorOf, Live(front, min), e);
      }
    }
  }

  lemma {:induction false} LiveSize(log: seq<Entry>, min: int)
    ensures |Live(log, min)| == CountAllLive(log, min)
  {
    if log != [] { LiveSize(log[..|log| - 1], min); }
  }

  lemma {:induction false} LiveAt(log: seq<Entry>, min: int, e: Entry)
    ensures Live(log, min)[e] == if e.bucket >= min then multiset(log)[e] else 0
  {
    if log != [] {
      LiveAt(log[..|log| - 1], min, e);
      assert log == log[..|log| - 1] + [log[|log| - 1]];
    }
  }

  lemma {:induction false} CountLivePositive(log: seq<Entry>, min: int, q: string)
    ensures CountLive(log, min, q) > 0 <==> exists e :: e in log && e.bucket >= min && e.query == q
  {
    if log != [] {
      var front, last := log[..|log| - 1], log[|log| - 1];
      CountLivePositive(front, min, q);
      assert log == front + [last];
    }
  }

  // ---------- invariant ----------

  /** The ring counts exactly the logged events of the buckets still in the window at the clock. */
  ghost predicate Exact(h: History) {
    match h.clock
    case None => h.log == [] && Contents(h.ring) == multiset{}
    case Some(t) => Contents(h.ring) == Live(h.log, MinBucketId(h.cfg, t))
  }

  /** The clamped time of an entry is not after the clock. */
  predicate Dated(h: History, e: Entry) {
    h.clock.Some? && e.time <= h.clock.value
  }

  /** What holds after any run, whatever the clock does. */
  ghost predicate Inv(h: History) {
    && Filed(h.ring)
    && |h.ring| == BucketCount(h.cfg)
    && (forall e :: e in multiset(h.log) ==> Stamped(h.cfg, e) && Dated(h, e))
    && WithinLimits(h.cfg, h.ring)
    && Contents(h.ring) <= multiset(h.log)
    && Bounded(h)
    && (h.onTime ==> Exact(h))
  }

  lemma StartInv(c: Config)
    ensures Inv(Start(c))
  {
    var ring := Start(c).ring;
    EmptyContents(ring);
    EmptyLimits(c, ring);
  }

  /** A history some run leads to satisfies `Inv`; the window carries one. */
  type Reached = h: History | Inv(h) ghost witness (StartInv(SMALLEST); Start(SMALLEST))

  lemma QueriesWithinLimit(h: Reached)
    ensures |Support(Queries(Contents(h.ring)))| <= h.cfg.maxUniqueQueries
  {
  }

  lemma EmptyLimits(c: Config, ring: seq<Slot>)
    requires Contents(ring) == multiset{} && forall i :: 0 <= i < |ring| ==> ring[i] == Vacant
    ensures WithinLimits(c, ring)
  {
    var none: multiset<Entry> := multiset{};
    assert Queries(none) == multiset{} && Actors(none) == multiset{};
    assert Support(Queries(none)) == {};
  }

  lemma {:induction false} EmptyContents(ring: seq<Slot>)
    requires forall i :: 0 <= i < |ring| ==> ring[i] == Vacant
    ensures Contents(ring) == multiset{}
  {
    if ring != [] { EmptyContents(ring[..|ring| - 1]); }
  }

  /** The window's floor at the later of two instants is the higher of their floors. */
  lemma LaterFloor(c: Config, a: int, b: int)
    ensures MinBucketId(c, Later(Some(a), b)) == if a > b then MinBucketId(c, a) else MinBucketId(c, b)
    ensures MinBucketId(c, Later(Some(a), b)) >= MinBucketId(c, a)
    ensures MinBucketId(c, Later(Some(a), b)) >= MinBucketId(c, b)
  {
    if a <= b {
      BucketIdMonotone(c, a - c.windowSize, b - c.windowSize);
    } else {
      BucketIdMonotone(c, b - c.windowSize, a - c.windowSize);
    }
  }

  /** The part of a bag above one floor and then above another, read off the log. */
  lemma LiveAboveBoth(log: seq<Entry>, floor: int, now: int, e: Entry)
    ensures Live(log, if floor > now then floor else now)[e] ==
            if e.bucket >= now then Live(log, floor)[e] else 0
  {
    LiveAt(log, floor, e);
    LiveAt(log, if floor > now then floor else now, e);
  }

  lemma ExpireExactAt(h: History, now: int, e: Entry)
    requires Filed(h.ring) && Exact(h)
    ensures var h' := ExpireAt(h, now);
            Contents(h'.ring)[e] == Live(h.log, MinBucketId(h.cfg, h'.clock.value))[e]
  {
    var min := MinBucketId(h.cfg, now);
    ExpireContentsAt(h.ring, min, e);
    match h.clock
    case None =>
      assert Live(h.log, min)[e] == 0;
    case Some(t) =>
      LaterFloor(h.cfg, t, now);
      LiveAboveBoth(h.log, MinBucketId(h.cfg, t), min, e);
  }

  /** Expiry keeps the ring exact: what it drops is what leaves the window, even when the clock runs back. */
  lemma ExpireExact(h: History, now: int)
    requires Filed(h.ring) && Exact(h)
    ensures Exact(ExpireAt(h, now))
  {
    var h' := ExpireAt(h, now);
    var seen, live := Contents(h'.ring), Live(h.log, MinBucketId(h.cfg, h'.clock.value));
    forall e ensures seen[e] == live[e] { ExpireExactAt(h, now, e); }
    assert seen == live;
  }

  /** Nothing counted is in a later bucket than the clock's. */
  ghost predicate Bounded(h: History) {
    forall e :: e in Contents(h.ring) ==> h.clock.Some? && e.bucket <= BucketId(h.cfg, h.clock.value)
  }

  lemma ExpireBounded(h: History, now: int)
    requires Filed(h.ring) && Bounded(h)
    ensures Bounded(ExpireAt(h, now))
  {
    var h' := ExpireAt(h, now);
    ExpireContents(h.ring, MinBucketId(h.cfg, now));
    if h.clock.Some? { BucketIdMonotone(h.cfg, h.clock.value, h'.clock.value); }
    forall e | e in Contents(h'.ring) ensures e.bucket <= BucketId(h.cfg, h'.clock.value) {
      assert e in Contents(h.ring);
    }
  }

  lemma ExpireInv(h: History, now: int)
    requires Inv(h)
    ensures Inv(ExpireAt(h, now))
  {
    ExpireBounded(h, now);
    ExpireLimits(h.cfg, h.ring, MinBucketId(h.cfg, now));
    if h.onTime { ExpireExact(h, now); }
    ExpireFiled(h.ring, MinBucketId(h.cfg, now));
    ExpireContents(h.ring, MinBucketId(h.cfg, now));
  }

  /** An event inside the window at the clock never displaces a bucket that still counts something. */
  lemma OnTimeDisplacesNothing(h: History, e: Entry)
    requires Filed(h.ring) && |h.ring| == BucketCount(h.cfg) && Exact(h) && h.clock.Some? && Bounded(h)
    requires MinBucketId(h.cfg, h.clock.value) <= e.bucket <= BucketId(h.cfg, h.clock.value)
    ensures Undisplaced(h.ring, e)
  {
    var t := h.clock.value;
    var slot := h.ring[SlotOf(h.ring, e)];
    if Entries(slot) != multiset{} {
      var x :| x in Entries(slot);
      ContentsAt(h.ring, x);
      LiveAt(h.log, MinBucketId(h.cfg, t), x);
      LiveSpan(h.cfg, t);
      SameSlotSameId(|h.ring|, x.bucket, e.bucket);
    }
  }

  lemma AcceptExact(h: History, e: Entry)
    requires Filed(h.ring) && h.clock.Some? && Undisplaced(h.ring, e) && Exact(h)
    requires e.bucket >= MinBucketId(h.cfg, h.clock.value)
    ensures Exact(Accept(h, e))
  {
    PutContents(h.ring, e);
    assert (h.log + [e])[..|h.log|] == h.log;
  }

  lemma AcceptBounded(h: History, e: Entry)
    requires Filed(h.ring) && Bounded(h) && Contents(h.ring) <= multiset(h.log)
    requires h.clock.Some? && e.bucket <= BucketId(h.cfg, h.clock.value)
    ensures Bounded(Accept(h, e)) && Contents(Accept(h, e).ring) <= multiset(h.log + [e])
  {
    var left := Survivors(h.ring, e);
    PutContents(h.ring, e);
    forall x | x in Contents(Accept(h, e).ring) ensures x.bucket <= BucketId(h.cfg, h.clock.value) {
      assert x == e || left[x] > 0;
      assert left[x] <= Contents(h.ring)[x];
    }
    assert multiset(h.log + [e]) == multiset(h.log) + multiset{e};
  }

  lemma AcceptInv(h: History, e: Entry, now: int)
    requires Inv(h) && h.clock.Some? && Stamped(h.cfg, e) && e.time <= h.clock.value
    requires Verdict(h.cfg, h.ring, e, now) == NotDropped
    ensures Inv(Accept(h, e))
  {
    hide WithinLimits, Filed, Bounded, Exact, Contents, Put, Verdict, MinBucketId, BucketId;
    PutFiled(h.ring, e);
    BucketIdMonotone(h.cfg, e.time, h.clock.value);
    PutLimits(h.cfg, h.ring, e, now);
    AcceptBounded(h, e);
    assert multiset(h.log + [e]) == multiset(h.log) + multiset{e};
    if Accept(h, e).onTime {
      OnTimeDisplacesNothing(h, e);
      AcceptExact(h, e);
    }
  }

  lemma AddInv(u: Unicode, h: History, ev: Event, now: int)
    requires Inv(h)
    ensures Inv(AddAt(u, h, ev, now))
  {
    ExpireInv(h, now);
    if Decision(u, h.cfg, h.ring, ev, now) != NotDropped {
      RejectionOnlyExpires(u, h, ev, now);
    } else {
      AcceptInv(ExpireAt(h, now), EntryOf(u, h.cfg, ev, now), now);
    }
  }

  /** The two operations on reached histories. */
  ghost function Expired(h: Reached, now: int): Reached {
    ExpireInv(h, now);
    ExpireAt(h, now)
  }

  ghost function Added(u: Unicode, h: Reached, ev: Event, now: int): Reached {
    AddInv(u, h, ev, now);
    AddAt(u, h, ev, now)
  }

  // ---------- runs ----------

  /** Queries expire the window at their own `now` and change nothing else. */
  datatype Op = Look(now: int) | Add(event: Event, now: int)

  ghost function Step(u: Unicode, h: History, op: Op): (r: History)
    requires |h.ring| > 0
    ensures |r.ring| == |h.ring| && r.cfg == h.cfg
  {
    match op
    case Look(now) => ExpireAt(h, now)
    case Add(ev, now) => AddAt(u, h, ev, now)
  }

  ghost function Run(u: Unicode, c: Config, ops: seq<Op>): (h: History)
    ensures |h.ring| == BucketCount(c) && h.cfg == c
  {
    if ops == [] then Start(c) else Step(u, Run(u, c, ops[..|ops| - 1]), ops[|ops| - 1])
  }

  /** Conservation, the limits and the bound by the log hold in every reachable state, for any clock. */
  lemma {:induction false} RunInv(u: Unicode, c: Config, ops: seq<Op>)
    ensures Inv(Run(u, c, ops))
  {
    if ops == [] {
      StartInv(c);
    } else {
      RunInv(u, c, ops[..|ops| - 1]);
      StepInv(u, Run(u, c, ops[..|ops| - 1]), ops[|ops| - 1]);
    }
  }

  lemma StepInv(u: Unicode, h: History, op: Op)
    requires Inv(h)
    ensures Inv(Step(u, h, op))
  {
    match op
    case Look(now) => ExpireInv(h, now);
    case Add(ev, now) => AddInv(u, h, ev, now);
  }

  /** Splitting the last step off a run. */
  lemma RunSnoc(u: Unicode, c: Config, ops: seq<Op>, op: Op)
    ensures Run(u, c, ops + [op]) == Step(u, Run(u, c, ops), op)
  {
    assert (ops + [op])[..|ops|] == ops;
  }

  ghost predicate Ordered(ops: seq<Op>) {
    forall i, j :: 0 <= i <= j < |ops| ==> ops[i].now <= ops[j].now
  }

  lemma OnTimeStep(u: Unicode, h: History, op: Op)
    requires |h.ring| > 0 && h.onTime && (h.clock.Some? ==> h.clock.value <= op.now)
    ensures var h' := Step(u, h, op); h'.onTime && (h'.clock.Some? ==> h'.clock.value <= op.now)
  {
    hide Verdict, Put, Expire, Recycle, MinBucketId, BucketId;
    if op.Add? && Decision(u, h.cfg, h.ring, op.event, op.now) == NotDropped {
      var h', e := ExpireAt(h, op.now), EntryOf(u, h.cfg, op.event, op.now);
      assert Step(u, h, op) == Accept(h', e);
      assert h'.clock == Some(op.now);
      AcceptedIsInWindow(h.cfg, h'.ring, e, op.now);
    }
  }

  lemma AddedPunctual(u: Unicode, h: Reached, ev: Event, now: int)
    requires h.onTime && (h.clock.Some? ==> h.clock.value <= now)
    ensures var r := Added(u, h, ev, now); r.onTime && (r.clock.Some? ==> r.clock.value <= now)
  {
    OnTimeStep(u, h, Add(ev, now));
  }

  /** A clock that never runs back keeps every run on time. */
  lemma {:induction false} OrderedIsOnTime(u: Unicode, c: Config, ops: seq<Op>)
    requires Ordered(ops)
    ensures var h := Run(u, c, ops);
            h.onTime && (h.clock.Some? ==> ops != [] && h.clock.value <= ops[|ops| - 1].now)
  {
    hide Step;
    if ops != [] {
      var front, op := ops[..|ops| - 1], ops[|ops| - 1];
      OrderedIsOnTime(u, c, front);
      assert front != [] ==> front[|front| - 1] == ops[|ops| - 2];
      assert ops == front + [op];
      RunSnoc(u, c, front, op);
      OnTimeStep(u, Run(u, c, front), op);
    }
  }

  /** What a reader sees at `now`: the counts the window answers from. */
  ghost predicate Agrees(ring: seq<Slot>, log: seq<Entry>, min: int) {
    && (forall q :: Queries(Contents(ring))[q] == CountLive(log, min, q))
    && (forall k :: Actors(Contents(ring))[k] == CountLiveActor(log, min, k))
    && |Contents(ring)| == CountAllLive(log, min)
  }

  lemma LiveAgrees(ring: seq<Slot>, log: seq<Entry>, min: int)
    requires Contents(ring) == Live(log, min)
    ensures Agrees(ring, log, min)
  {
    forall q ensures Queries(Contents(ring))[q] == CountLive(log, min, q) {
      LiveQueryCount(log, min, q);
    }
    forall k ensures Actors(Contents(ring))[k] == CountLiveActor(log, min, k) {
      LiveActorCount(log, min, k);
    }
    LiveSize(log, min);
  }

  /** The ring refines the log: looking at any instant of an ordered run sees exactly the live accepted events. */
  lemma RingRefinesLog(u: Unicode, c: Config, ops: seq<Op>, now: int)
    requires Ordered(ops + [Look(now)])
    ensures var h := Run(u, c, ops + [Look(now)]); Agrees(h.ring, h.log, MinBucketId(c, now))
  {
    OrderedIsOnTime(u, c, ops + [Look(now)]);
    RunInv(u, c, ops + [Look(now)]);
    RunSnoc(u, c, ops, Look(now));
    LiveAgrees(Run(u, c, ops + [Look(now)]).ring, Run(u, c, ops + [Look(now)]).log, MinBucketId(c, now));
  }

  lemma SeenIsLive(h: History, now: int)
    requires Inv(h)
    ensures Contents(ExpireAt(h, now).ring) <= Live(h.log, MinBucketId(h.cfg, now))
  {
    var min := MinBucketId(h.cfg, now);
    var seen, live := Contents(Expire(h.ring, min)), Live(h.log, min);
    ExpireContents(h.ring, min);
    forall e ensures seen[e] <= live[e] {
      LiveAt(h.log, min, e);
      assert Contents(h.ring)[e] <= multiset(h.log)[e];
    }
  }

  ghost predicate AtMost(ring: seq<Slot>, log: seq<Entry>, min: int) {
    && (forall q :: Queries(Contents(ring))[q] <= CountLive(log, min, q))
    && (forall k :: Actors(Contents(ring))[k] <= CountLiveActor(log, min, k))
    && |Contents(ring)| <= CountAllLive(log, min)
  }

  lemma PartOfLive(ring: seq<Slot>, log: seq<Entry>, min: int)
    requires Contents(ring) <= Live(log, min)
    ensures AtMost(ring, log, min)
  {
    var seen, live := Contents(ring), Live(log, min);
    LimitsAntitone(seen, live);
    forall q ensures Queries(seen)[q] <= CountLive(log, min, q) {
      LiveQueryCount(log, min, q);
    }
    forall k ensures Actors(seen)[k] <= CountLiveActor(log, min, k) {
      LiveActorCount(log, min, k);
    }
    LiveSize(log, min);
    assert |live| == |seen| + |live - seen|;
  }

  /** Whatever the clock did, looking at `now` never sees more than the live accepted events. */
  lemma NeverOvercounts(u: Unicode, c: Config, ops: seq<Op>, now: int)
    ensures var h := Run(u, c, ops + [Look(now)]); AtMost(h.ring, h.log, MinBucketId(c, now))
  {
    RunSnoc(u, c, ops, Look(now));
    RunInv(u, c, ops);
    SeenIsLive(Run(u, c, ops), now);
    PartOfLive(Run(u, c, ops + [Look(now)]).ring, Run(u, c, ops).log, MinBucketId(c, now));
  }

  // ---------- exactly when a look is right ----------

  /** Every event accepted into a bucket at or above `min` is still counted, as often as it was accepted. */
  ghost predicate Kept(h: History, min: int) {
    forall e: Entry :: e.bucket >= min ==> Contents(h.ring)[e] == multiset(h.log)[e]
  }

  lemma SameSizeSameBag<T>(a: multiset<T>, b: multiset<T>)
    requires a <= b && |a| == |b|
    ensures a == b
  {
    assert b == a + (b - a);
  }

  lemma KeptSeen(h: History, now: int)
    requires Inv(h)
    ensures var min := MinBucketId(h.cfg, now);
            Contents(ExpireAt(h, now).ring) == Live(h.log, min) <==> Kept(h, min)
  {
    hide WithinLimits, Contents, Live, Bounded, Exact, Filed, MinBucketId;
    var min := MinBucketId(h.cfg, now);
    var seen, live := Contents(Expire(h.ring, min)), Live(h.log, min);
    forall e
      ensures seen[e] == if e.bucket >= min then Contents(h.ring)[e] else 0
      ensures live[e] == if e.bucket >= min then multiset(h.log)[e] else 0
    {
      ExpireContentsAt(h.ring, min, e);
      LiveAt(h.log, min, e);
    }
    if Kept(h, min) {
      assert seen == live;
    }
  }

  /**
   What a look at `now` sees, for any history a run leads to: never too much, and
   exactly the live accepted events if and only if none of them has been lost; the
   counts per query tell.
   */
  lemma LookBound(h: History, now: int)
    requires Inv(h)
    ensures var seen, min := ExpireAt(h, now), MinBucketId(h.cfg, now);
            && AtMost(seen.ring, h.log, min)
            && (Agrees(seen.ring, h.log, min) <==> Kept(h, min))
            && ((forall q :: Queries(Contents(seen.ring))[q] == CountLive(h.log, min, q)) <==> Kept(h, min))
  {
    hide Inv, Contents, Live, Kept, Queries, CountLive, CountLiveActor, CountAllLive, MinBucketId;
    var ring, min := ExpireAt(h, now).ring, MinBucketId(h.cfg, now);
    SeenIsLive(h, now);
    PartOfLive(ring, h.log, min);
    KeptSeen(h, now);
    if Kept(h, min) {
      LiveAgrees(ring, h.log, min);
    } else if forall q :: Queries(Contents(ring))[q] == CountLive(h.log, min, q) {
      forall q ensures Queries(Contents(ring))[q] == Queries(Live(h.log, min))[q] { LiveQueryCount(h.log, min, q); }
      assert Queries(Contents(ring)) == Queries(Live(h.log, min));
      QueriesSize(Contents(ring));
      QueriesSize(Live(h.log, min));
      SameSizeSameBag(Contents(ring), Live(h.log, min));
    }
  }

  /** On time and not ahead of `now`, a history has lost nothing that is live at `now`. */
  lemma OnTimeIsKept(h: History, now: int)
    requires Inv(h) && h.onTime && (h.clock.Some? ==> h.clock.value <= now)
    ensures Kept(h, MinBucketId(h.cfg, now))
  {
    hide WithinLimits;
    ExpireExact(h, now);
    KeptSeen(h, now);
  }

  /** The event takes the slot of a bucket that an accepted event at or above `min` was counted in. */
  predicate Displaces(c: Config, log: seq<Entry>, e: Entry, min: int) {
    exists x :: x in log && x.bucket >= min && x.bucket != e.bucket &&
                BucketIndex(BucketCount(c), x.bucket) == BucketIndex(BucketCount(c), e.bucket)
  }

  /** An accepted event at or above `min` is below the window at `now`. */
  predicate Outlives(c: Config, log: seq<Entry>, now: int, min: int) {
    exists x :: x in log && min <= x.bucket < MinBucketId(c, now)
  }

  /** Whether the operation gets as far as expiring the window. */
  predicate Expires(u: Unicode, c: Config, op: Op) {
    op.Look? || Screened(u, c, op.event, op.now) == NotDropped
  }

  ghost predicate Accepts(u: Unicode, h: History, op: Op)
    requires |h.ring| > 0
  {
    op.Add? && Decision(u, h.cfg, h.ring, op.event, op.now) == NotDropped
  }

  /** The operation loses an accepted event at or above `min`: it expires it or takes its slot. */
  ghost predicate Loses(u: Unicode, h: History, op: Op, min: int)
    requires |h.ring| > 0
  {
    || (Expires(u, h.cfg, op) && Outlives(h.cfg, h.log, op.now, min))
    || (Accepts(u, h, op) && Displaces(h.cfg, h.log, EntryOf(u, h.cfg, op.event, op.now), min))
  }

  /** No operation of the run lost an event at or above `min`, judging by what was accepted before it. */
  ghost predicate NothingLost(u: Unicode, c: Config, ops: seq<Op>, min: int) {
    ops == [] ||
    (NothingLost(u, c, ops[..|ops| - 1], min) && !Loses(u, Run(u, c, ops[..|ops| - 1]), ops[|ops| - 1], min))
  }

  lemma ExpireKept(h: History, now: int, min: int)
    requires Inv(h)
    ensures Kept(ExpireAt(h, now), min) <==> Kept(h, min) && !Outlives(h.cfg, h.log, now, min)
  {
    hide WithinLimits, Contents, Bounded, Exact, Filed, MinBucketId, Stamped, Dated;
    var r, floor := ExpireAt(h, now), MinBucketId(h.cfg, now);
    ExpireContents(h.ring, floor);
    if Kept(r, min) {
      forall e: Entry | e.bucket >= min
        ensures Contents(h.ring)[e] == multiset(h.log)[e] && (e in h.log ==> e.bucket >= floor)
      {
        assert Contents(r.ring)[e] <= Contents(h.ring)[e] <= multiset(h.log)[e];
        assert e in h.log ==> e in multiset(h.log);
      }
    } else if Kept(h, min) {
      var e: Entry :| e.bucket >= min && Contents(r.ring)[e] != multiset(r.log)[e];
      assert e in multiset(h.log);
    }
  }

  /** The entry is stored; what is lost of another one is what the slot held of it. */
  lemma AcceptedAt(h: History, e: Entry, x: Entry)
    requires Filed(h.ring)
    ensures var gone := SlotOf(h.ring, x) == SlotOf(h.ring, e) && x.bucket != e.bucket;
            Contents(Put(h.ring, e.bucket, e))[x] ==
            (if gone then 0 else Contents(h.ring)[x]) + (if x == e then 1 else 0)
  {
    hide Contents;
    PutFiled(h.ring, e);
    ContentsAt(h.ring, x);
    ContentsAt(Put(h.ring, e.bucket, e), x);
  }

  lemma AcceptKept(h: History, e: Entry, min: int)
    requires Inv(h) && h.clock.Some?
    ensures Kept(Accept(h, e), min) <==> Kept(h, min) && !Displaces(h.cfg, h.log, e, min)
  {
    hide WithinLimits, Contents, Bounded, Exact, Filed, Put, BucketIndex, BucketCount, Stamped, Dated;
    var r := Accept(h, e);
    assert multiset(r.log) == multiset(h.log) + multiset{e};
    if Kept(r, min) {
      forall x: Entry | x.bucket >= min
        ensures Contents(h.ring)[x] == multiset(h.log)[x]
        ensures x in h.log && SlotOf(h.ring, x) == SlotOf(h.ring, e) ==> x.bucket == e.bucket
      {
        AcceptedAt(h, e, x);
        assert Contents(r.ring)[x] == multiset(r.log)[x];
        assert x in h.log ==> x in multiset(h.log);
      }
    } else if Kept(h, min) {
      var x: Entry :| x.bucket >= min && Contents(r.ring)[x] != multiset(r.log)[x];
      AcceptedAt(h, e, x);
      assert x in multiset(h.log);
    }
  }

  lemma StepKept(u: Unicode, h: History, op: Op, min: int)
    requires Inv(h)
    ensures Kept(Step(u, h, op), min) <==> Kept(h, min) && !Loses(u, h, op, min)
  {
    hide Inv, Kept, Displaces, Outlives, Verdict;
    assert |h.ring| > 0 by { InvRing(h); }
    if !Expires(u, h.cfg, op) {
      assert Step(u, h, op) == h;
    } else {
      ExpireKept(h, op.now, min);
      if Accepts(u, h, op) {
        var e := EntryOf(u, h.cfg, op.event, op.now);
        ExpireInv(h, op.now);
        AcceptKept(ExpireAt(h, op.now), e, min);
        assert Step(u, h, op) == Accept(ExpireAt(h, op.now), e);
      } else if op.Add? {
        RejectionOnlyExpires(u, h, op.event, op.now);
      }
    }
  }

  lemma InvRing(h: History)
    requires Inv(h)
    ensures |h.ring| == BucketCount(h.cfg)
  {
  }

  /** For any clock, the events at or above `min` are all still counted if and only if none was lost on the way. */
  lemma {:induction false} RunKept(u: Unicode, c: Config, ops: seq<Op>, min: int)
    ensures Kept(Run(u, c, ops), min) <==> NothingLost(u, c, ops, min)
  {
    hide Inv, Loses, Step;
    if ops == [] {
      StartKept(c, min);
    } else {
      var front, op := ops[..|ops| - 1], ops[|ops| - 1];
      RunKept(u, c, front, min);
      RunInv(u, c, front);
      StepKept(u, Run(u, c, front), op, min);
    }
  }

  lemma StartKept(c: Config, min: int)
    ensures Kept(Start(c), min)
  {
    EmptyContents(Start(c).ring);
  }

  /**
   Clock regression, exactly.  After any run, for any clock, a look at `now` shows
   the accepted events in the window, per query, per actor and in total, if and only
   if no operation expired one of them or took its slot for another bucket.  Both can
   be read off the accepted events and the instants of the operations.
   */
  lemma LookAgreesIffNothingLost(u: Unicode, c: Config, ops: seq<Op>, now: int)
    ensures var h := Run(u, c, ops + [Look(now)]);
            Agrees(h.ring, h.log, MinBucketId(c, now)) <==> NothingLost(u, c, ops, MinBucketId(c, now))
  {
    hide Inv, Agrees, Kept, NothingLost, MinBucketId, Run;
    RunSnoc(u, c, ops, Look(now));
    RunInv(u, c, ops);
    LookBound(Run(u, c, ops), now);
    RunKept(u, c, ops, MinBucketId(c, now));
  }

  /** No accepted event of the run took the slot of an accepted event at or above `min`. */
  ghost predicate NothingDisplaced(u: Unicode, c: Config, ops: seq<Op>, min: int) {
    ops == [] ||
      var front, op := ops[..|ops| - 1], ops[|ops| - 1];
      var h := Run(u, c, front);
      && NothingDisplaced(u, c, front, min)
      && !(Accepts(u, h, op) && Displaces(c, h.log, EntryOf(u, c, op.event, op.now), min))
  }

  /** A look not before any operation of the run is wrong only about events whose slot was taken. */
  lemma LookAgreesIffNothingDisplaced(u: Unicode, c: Config, ops: seq<Op>, now: int)
    requires forall i :: 0 <= i < |ops| ==> ops[i].now <= now
    ensures var h := Run(u, c, ops + [Look(now)]);
            Agrees(h.ring, h.log, MinBucketId(c, now)) <==> NothingDisplaced(u, c, ops, MinBucketId(c, now))
  {
    hide Agrees, MinBucketId, Run;
    LookAgreesIffNothingLost(u, c, ops, now);
    LostIsDisplaced(u, c, ops, now);
  }

  lemma {:induction false} LostIsDisplaced(u: Unicode, c: Config, ops: seq<Op>, now: int)
    requires forall i :: 0 <= i < |ops| ==> ops[i].now <= now
    ensures NothingLost(u, c, ops, MinBucketId(c, now)) <==> NothingDisplaced(u, c, ops, MinBucketId(c, now))
  {
    hide Run, Accepts, Expires, MinBucketId, Displaces;
    if ops != [] {
      var op := ops[|ops| - 1];
      LostIsDisplaced(u, c, ops[..|ops| - 1], now);
      LaterFloor(c, op.now, now);
      LaterFloor(c, now, op.now);
    }
  }

  /** In particular a run on time has lost nothing of a window that is not behind its latest expiry. */
  lemma OnTimeLosesNothing(u: Unicode, c: Config, ops: seq<Op>, now: int)
    requires var h := Run(u, c, ops); h.onTime && (h.clock.Some? ==> h.clock.value <= now)
    ensures NothingLost(u, c, ops, MinBucketId(c, now))
  {
    hide Inv, Kept, NothingLost, Run, MinBucketId;
    RunInv(u, c, ops);
    OnTimeIsKept(Run(u, c, ops), now);
    RunKept(u, c, ops, MinBucketId(c, now));
  }

  // ---------- what a clock that runs back can lose ----------

  const PLAIN: Unicode := Tables(c => c == ' ', c => false, c => c)
  const TINY: Config := WindowConfig(1, 1, 0, 2, 2, 1)
  const EVENT_A := Event("a", 10, "")
  const EVENT_B := Event("b", 8, "")

  lemma PlainTrim(c: char)
    requires c != ' '
    ensures TrimSpace(PLAIN, [c]) == [c] && TrimSpace(PLAIN, "") == ""
  {
  }

  const ENTRY_A := Entry("a", "", 10, 10)
  const ENTRY_B := Entry("b", "", 8, 8)

  /** The two-slot ring once bucket 10 counts the first event. */
  ghost predicate CountsA(h: History) {
    && h.cfg == TINY && h.log == [ENTRY_A] && h.clock == Some(10) && |h.ring| == 2
    && h.ring[0] == Slot(10, multiset{ENTRY_A}) && h.ring[1] == Vacant && Contents(h.ring) == multiset{ENTRY_A}
  }

  lemma TinyIds()
    ensures BucketCount(TINY) == 2
    ensures MinBucketId(TINY, 10) == 9 && BucketId(TINY, 10) == 10 && BucketIndex(2, 10) == 0
    ensures MinBucketId(TINY, 8) == 7 && BucketId(TINY, 8) == 8 && BucketIndex(2, 8) == 0
  {
  }

  lemma TinyStart()
    ensures Start(TINY) == History(TINY, [Vacant, Vacant], [], None, true)
    ensures Contents([Vacant, Vacant]) == multiset{}
  {
    TinyIds();
    EmptyContents([Vacant, Vacant]);
  }

  lemma RoomForA()
    ensures var h := Start(TINY);
            && Decision(PLAIN, TINY, h.ring, EVENT_A, 10) == NotDropped
            && EntryOf(PLAIN, TINY, EVENT_A, 10) == ENTRY_A && ExpireAt(h, 10).ring == h.ring
            && SlotOf(h.ring, ENTRY_A) == 0
  {
    hide TrimSpace, Queries, Contents, Verdict, MinBucketId, BucketId, BucketIndex, Expire, Start;
    PlainTrim('a');
    TinyIds();
    TinyStart();
    ExpireNothing([Vacant, Vacant], 9);
    RoomForOne(TINY, [Vacant, Vacant], ENTRY_A, 10);
  }

  lemma AcceptsA()
    ensures CountsA(AddAt(PLAIN, Start(TINY), EVENT_A, 10))
  {
    hide TrimSpace, Queries, Contents, Decision, BucketIndex, Start;
    TinyStart();
    RoomForA();
    var h := Start(TINY);
    ContentsUpdate(h.ring, 0, Slot(10, multiset{ENTRY_A}));
    assert multiset{} + multiset{ENTRY_A} == multiset{ENTRY_A};
    assert Put(h.ring, 10, ENTRY_A) == h.ring[0 := Slot(10, multiset{ENTRY_A})];
    assert [] + [ENTRY_A] == [ENTRY_A];
  }

  lemma RoomForB(h: History)
    requires CountsA(h)
    ensures Decision(PLAIN, TINY, h.ring, EVENT_B, 8) == NotDropped
    ensures EntryOf(PLAIN, TINY, EVENT_B, 8) == ENTRY_B && ExpireAt(h, 8).ring == h.ring
    ensures SlotOf(h.ring, ENTRY_B) == 0
  {
    hide TrimSpace, Queries, Contents, Verdict, MinBucketId, BucketId, BucketIndex, Expire;
    PlainTrim('b');
    TinyIds();
    ExpireNothing(h.ring, 7);
    RoomForOne(TINY, h.ring, ENTRY_B, 8);
  }

  /** The second event takes the slot over, and the first is no longer counted. */
  lemma AcceptsB(h: History)
    requires CountsA(h)
    ensures var r := AddAt(PLAIN, h, EVENT_B, 8);
            r.cfg == TINY && r.log == [ENTRY_A, ENTRY_B] && |r.ring| == 2 && Contents(r.ring) == multiset{ENTRY_B}
  {
    hide TrimSpace, Queries, Contents, Decision, BucketIndex;
    RoomForB(h);
    ContentsUpdate(h.ring, 0, Slot(8, multiset{ENTRY_B}));
    assert multiset{} + multiset{ENTRY_B} == multiset{ENTRY_B};
    assert Put(h.ring, 8, ENTRY_B) == h.ring[0 := Slot(8, multiset{ENTRY_B})];
    assert multiset{ENTRY_A} - multiset{ENTRY_A} + multiset{ENTRY_B} == multiset{ENTRY_B};
    assert [ENTRY_A] + [ENTRY_B] == [ENTRY_A, ENTRY_B];
  }

  lemma ExpireNothing(ring: seq<Slot>, min: int)
    requires forall i :: 0 <= i < |ring| && ring[i].Slot? ==> ring[i].id >= min
    ensures Expire(ring, min) == ring
  {
  }

  /**
   Without the condition of `LookAgreesIffNothingDisplaced` events are missing: one
   clock reading that runs back takes the slot of an event that is still live.
   */
  lemma ClockRegressionLosesAnEvent()
    ensures var h := Run(PLAIN, TINY, [Add(EVENT_A, 10), Add(EVENT_B, 8), Look(10)]);
            CountLive(h.log, MinBucketId(TINY, 10), "a") == 1 && Queries(Contents(h.ring))["a"] == 0
  {
    hide Queries, Contents, AddAt, ExpireAt, CountLive, MinBucketId, Run;
    AcceptsA();
    var h1 := AddAt(PLAIN, Start(TINY), EVENT_A, 10);
    AcceptsB(h1);
    var h2 := AddAt(PLAIN, h1, EVENT_B, 8);
    OnlyBSeen(h2);
    OneALive();
    ThreeSteps(EVENT_A, 10, EVENT_B, 8, 10);
  }

  lemma ThreeSteps(a: Event, s: int, b: Event, t: int, now: int)
    ensures Run(PLAIN, TINY, [Add(a, s), Add(b, t), Look(now)]) ==
            ExpireAt(AddAt(PLAIN, AddAt(PLAIN, Start(TINY), a, s), b, t), now)
  {
    hide AddAt, ExpireAt;
    var x, y, z := Add(a, s), Add(b, t), Look(now);
    RunSnoc(PLAIN, TINY, [], x);
    RunSnoc(PLAIN, TINY, [x], y);
    RunSnoc(PLAIN, TINY, [x, y], z);
    assert [] + [x] == [x] && [x] + [y] == [x, y] && [x, y] + [z] == [x, y, z];
  }

  lemma OneALive()
    ensures CountLive([ENTRY_A, ENTRY_B], MinBucketId(TINY, 10), "a") == 1
  {
    TinyIds();
    assert [ENTRY_A, ENTRY_B][..1] == [ENTRY_A] && [ENTRY_A][..0] == [];
    assert CountLive([ENTRY_A], 9, "a") == CountLive([], 9, "a") + 1;
    assert CountLive([ENTRY_A, ENTRY_B], 9, "a") == CountLive([ENTRY_A], 9, "a");
  }

  lemma OnlyBSeen(h: History)
    requires Contents(h.ring) == multiset{ENTRY_B} && |h.ring| > 0
    ensures Queries(Contents(ExpireAt(h, 10).ring))["a"] == 0 && ExpireAt(h, 10).log == h.log
  {
    hide Queries, Contents;
    ExpireShrinks(h.ring, MinBucketId(h.cfg, 10));
    OnlyB(Contents(ExpireAt(h, 10).ring), ENTRY_B);
  }

  lemma {:induction false} ExpireShrinks(ring: seq<Slot>, min: int)
    ensures Contents(Expire(ring, min)) <= Contents(ring)
  {
    if ring != [] {
      var n := |ring| - 1;
      ExpireShrinks(ring[..n], min);
      assert Expire(ring, min)[..n] == Expire(ring[..n], min);
    }
  }

  lemma OnlyB(es: multiset<Entry>, f: Entry)
    requires es <= multiset{f} && f.query == "b"
    ensures Queries(es)["a"] == 0
  {
    forall x | x in es ensures x == f { assert multiset{f}[x] > 0; }
    CollectNowhere(QueryOf, es, "a");
  }

  // ---------- rejections ----------

  /** A rejected event leaves the history as it was or as plain expiry leaves it, whatever the clock. */
  lemma RejectionOnlyExpires(u: Unicode, h: History, ev: Event, now: int)
    requires |h.ring| > 0
    requires Decision(u, h.cfg, h.ring, ev, now) != NotDropped
    ensures var r := AddAt(u, h, ev, now);
            r == if Screened(u, h.cfg, ev, now) != NotDropped then h else ExpireAt(h, now)
  {
    hide Queries, Contents, Verdict;
    var e, ring := EntryOf(u, h.cfg, ev, now), ExpireAt(h, now).ring;
    VerdictKinds(h.cfg, ring, e, now);
    if Verdict(h.cfg, ring, e, now) == BucketCardinalityLimit {
      FullBucketWasNotRecycled(h.cfg, ring, e, now);
    }
  }

  /** A bucket is full only if it was already this event's bucket, so a full bucket was never recycled to find out. */
  lemma FullBucketWasNotRecycled(c: Config, r: seq<Slot>, e: Entry, now: int)
    requires |r| > 0 && Verdict(c, r, e, now) == BucketCardinalityLimit
    ensures Recycle(r, e.bucket) == r
  {
    assert Support(Queries(multiset{})) == {};
  }

  // ---------- one accepted event ----------

  lemma SurvivorsCount(ring: seq<Slot>, e: Entry, q: string)
    requires |ring| > 0
    ensures var slot := ring[SlotOf(ring, e)];
            Queries(Survivors(ring, e))[q] + Queries(Entries(slot))[q] ==
              Queries(Contents(ring))[q] + Queries(Entries(RecycleSlot(slot, e.bucket)))[q]
  {
    var k := SlotOf(ring, e);
    var all, part, kept := Contents(ring), Entries(ring[k]), Entries(RecycleSlot(ring[k], e.bucket));
    ContentsUpdate(ring, k, RecycleSlot(ring[k], e.bucket));
    CollectDifference(QueryOf, all, part);
    CollectUnion(QueryOf, all - part, kept);
    assert Queries(part)[q] <= Queries(all)[q];
  }

  /** Storing an event adds one to its query's count, if and only if recycling its slot lost nothing of that query. */
  lemma PutCountsOnce(ring: seq<Slot>, e: Entry)
    requires |ring| > 0
    ensures var slot := ring[SlotOf(ring, e)];
            Queries(Contents(Put(ring, e.bucket, e)))[e.query] == Queries(Contents(ring))[e.query] + 1 <==>
              slot == RecycleSlot(slot, e.bucket) || e.query !in Queries(Entries(slot))
  {
    PutContents(ring, e);
    SurvivorsCount(ring, e, e.query);
    CollectAdd(QueryOf, Survivors(ring, e), e);
    assert Queries(multiset{}) == multiset{};
  }

  /** What was just accepted at `now` does not expire at `now`. */
  lemma ExpireAfterPut(ring: seq<Slot>, e: Entry, min: int)
    requires |ring| > 0 && e.bucket >= min
    ensures Expire(Put(Expire(ring, min), e.bucket, e), min) == Put(Expire(ring, min), e.bucket, e)
  {
  }

  /**
   The count reported with an accepted event is one more than the count just before,
   if and only if the recycled slot held nothing for that query.
   */
  lemma AcceptedCountsOnce(u: Unicode, h: History, ev: Event, now: int)
    requires |h.ring| > 0 && Decision(u, h.cfg, h.ring, ev, now) == NotDropped
    ensures var e := EntryOf(u, h.cfg, ev, now);
            var before, after := ExpireAt(h, now).ring, ExpireAt(AddAt(u, h, ev, now), now).ring;
            var slot := before[SlotOf(before, e)];
            Queries(Contents(after))[e.query] == Queries(Contents(before))[e.query] + 1 <==>
              slot == RecycleSlot(slot, e.bucket) || e.query !in Queries(Entries(slot))
  {
    var e, min := EntryOf(u, h.cfg, ev, now), MinBucketId(h.cfg, now);
    assert AddAt(u, h, ev, now) == Accept(ExpireAt(h, now), e);
    PutCountsOnce(Expire(h.ring, min), e);
    ExpireAfterPut(h.ring, e, min);
  }

  /** Looking again at the same instant changes nothing, also right after an event was accepted at it. */
  lemma AcceptedSurvives(u: Unicode, h: History, ev: Event, now: int)
    requires |h.ring| > 0 && Decision(u, h.cfg, h.ring, ev, now) == NotDropped
    ensures ExpireAt(AddAt(u, h, ev, now), now) == AddAt(u, h, ev, now)
  {
    var e, min := EntryOf(u, h.cfg, ev, now), MinBucketId(h.cfg, now);
    assert AddAt(u, h, ev, now) == Accept(ExpireAt(h, now), e);
    ExpireAfterPut(h.ring, e, min);
  }

  lemma LookTwice(h: History, now: int)
    ensures ExpireAt(ExpireAt(h, now), now) == ExpireAt(h, now)
  {
    ExpireTwice(h.cfg, h.ring, now, now);
  }

  /** With a clock that has not run back, an accepted event always adds exactly one to its query's count. */
  lemma OnTimeCountsOnce(u: Unicode, h: Reached, ev: Event, now: int)
    requires h.onTime && (h.clock.Some? ==> h.clock.value <= now)
    requires Decision(u, h.cfg, h.ring, ev, now) == NotDropped
    ensures var q := TrimSpace(u, ev.query);
            Queries(Contents(AddAt(u, h, ev, now).ring))[q] == Queries(Contents(ExpireAt(h, now).ring))[q] + 1
  {
    hide Queries, Contents, WithinLimits;
    var e, before := EntryOf(u, h.cfg, ev, now), ExpireAt(h, now);
    assert AddAt(u, h, ev, now) == Accept(before, e);
    ExpireInv(h, now);
    BucketIdMonotone(h.cfg, e.time, now);
    OnTimeDisplacesNothing(before, e);
    PutContents(before.ring, e);
    AddedQueryCount(before.ring, e);
  }

  lemma AddedQueryCount(ring: seq<Slot>, e: Entry)
    ensures Queries(Contents(ring) + multiset{e})[e.query] == Queries(Contents(ring))[e.query] + 1
  {
    CollectAdd(QueryOf, Contents(ring), e);
  }

  // ---------- time accuracy ----------

  /** Everything that happened inside `[now - W, now]` is in a counted bucket. */
  lemma InWindowIsCounted(c: Config, now: int, t: int)
    requires now - c.windowSize <= t
    ensures BucketId(c, t) >= MinBucketId(c, now)
  {
    BucketIdMonotone(c, now - c.windowSize, t);
  }

  /**
   Counted buckets reach back less than one bucket beyond the window, if and only if
   the window does not start inside the first bucket after the epoch (whose
   neighbour below zero shares its id under truncating division).
   */
  lemma CountedIsNearlyInWindow(c: Config, now: int)
    ensures (forall t :: t <= now && BucketId(c, t) >= MinBucketId(c, now) ==> t > now - c.windowSize - c.bucketSize)
            <==> !(0 < now - c.windowSize < c.bucketSize)
  {
    var n, start := c.bucketSize, now - c.windowSize;
    if 0 < start < n {
      var t := -n + 1;
      assert BucketId(c, t) == 0 == MinBucketId(c, now);
      assert t <= now && t <= start - n;
    } else {
      forall t | t <= now && BucketId(c, t) >= MinBucketId(c, now) ensures t > start - n {
        NearlyInWindow(n, start, t);
      }
    }
  }

  /** The first instant of its bucket; below zero truncating division ends a bucket where it begins above. */
  predicate StartsBucket(c: Config, t: int) {
    if t > 0 then Mod(t, c.bucketSize) == 0 else Mod(-t, c.bucketSize) == c.bucketSize - 1
  }

  /** An instant starts its bucket if and only if the instant before it is in another one. */
  lemma StartsBucketIsFirst(c: Config, t: int)
    ensures StartsBucket(c, t) <==> BucketId(c, t - 1) < BucketId(c, t)
  {
    var n := c.bucketSize;
    if t > 0 {
      NextQuotient(t - 1, n);
    } else {
      NextQuotient(-t, n);
    }
  }

  lemma NextQuotient(a: nat, n: nat)
    requires n > 0
    ensures Div(a + 1, n) == Div(a, n) + (if Mod(a, n) == n - 1 then 1 else 0)
    ensures Mod(a + 1, n) == 0 <==> Mod(a, n) == n - 1
  {
    DivMod(a, n);
    if Mod(a, n) == n - 1 {
      Distribute(n, Div(a, n), 1);
      DivUnique(a + 1, n, Div(a, n) + 1, 0);
    } else {
      DivUnique(a + 1, n, Div(a, n), Mod(a, n) + 1);
    }
  }

  /** The counted buckets are the window `[now - W, now]` if and only if the window starts with its bucket. */
  lemma CountedIsInWindow(c: Config, now: int)
    ensures (forall t :: t <= now && BucketId(c, t) >= MinBucketId(c, now) ==> t >= now - c.windowSize)
            <==> StartsBucket(c, now - c.windowSize)
  {
    hide BucketId, StartsBucket;
    var start := now - c.windowSize;
    StartsBucketIsFirst(c, start);
    if StartsBucket(c, start) {
      forall t | t <= now && BucketId(c, t) >= MinBucketId(c, now) ensures t >= start {
        if t < start { BucketIdMonotone(c, t, start - 1); }
      }
    } else {
      assert BucketId(c, start - 1) >= MinBucketId(c, now);
    }
  }

  /** The documented promise at `now`: no run in clock order counts an event from before `now - W`. */
  ghost predicate PromiseHolds(u: Unicode, c: Config, now: int) {
    forall ops, e :: Ordered(ops + [Look(now)]) && e in Contents(Run(u, c, ops + [Look(now)]).ring) ==>
                       e.time >= now - c.windowSize
  }

  /** The last instant before the window that an event may carry and still not be refused as from the future. */
  function LastBefore(c: Config, now: int): int {
    if c.maxFutureSkew < -c.windowSize - 1 then now + c.maxFutureSkew else now - c.windowSize - 1
  }

  /** The promise holds if and only if that instant is in a bucket that is no longer counted. */
  lemma PromiseHoldsIff(u: Unicode, c: Config, now: int, q: string)
    requires TrimSpace(u, q) != ""
    ensures PromiseHolds(u, c, now) <==> BucketId(c, LastBefore(c, now)) < MinBucketId(c, now)
  {
    hide Run, Contents, BucketId;
    var last := LastBefore(c, now);
    if BucketId(c, last) < MinBucketId(c, now) {
      forall ops, e | Ordered(ops + [Look(now)]) && e in Contents(Run(u, c, ops + [Look(now)]).ring)
        ensures e.time >= now - c.windowSize
      {
        CountedIsFiled(u, c, ops, now, e);
        if e.time < now - c.windowSize { BucketIdMonotone(c, e.time, last); }
      }
    } else {
      LoneEventIsCounted(u, c, q, last, now);
      assert Ordered([Add(Event(q, last, ""), now)] + [Look(now)]);
    }
  }

  /**
   The documentation counts the events inside `[now - W, now]`.  Unless the future
   skew is so negative that it refuses events of the whole window, the code does so in
   every run if and only if the window starts on the first instant of a bucket.
   */
  lemma PromiseHoldsIffAligned(u: Unicode, c: Config, now: int, q: string)
    requires TrimSpace(u, q) != "" && c.maxFutureSkew >= -c.windowSize - 1
    ensures PromiseHolds(u, c, now) <==> StartsBucket(c, now - c.windowSize)
  {
    hide PromiseHolds, BucketId, StartsBucket;
    PromiseHoldsIff(u, c, now, q);
    StartsBucketIsFirst(c, now - c.windowSize);
  }

  /** No accepted event is from after the latest expiry, nor from beyond the future skew at it. */
  ghost predicate Skewed(h: History) {
    forall e :: e in h.log ==> h.clock.Some? && e.time <= h.clock.value && e.time <= h.clock.value + Slack(h.cfg)
  }

  /** How far below `now` a negative skew pushes what is accepted. */
  function Slack(c: Config): int {
    if c.maxFutureSkew < 0 then c.maxFutureSkew else 0
  }

  lemma {:induction false} RunSkewed(u: Unicode, c: Config, ops: seq<Op>)
    ensures Skewed(Run(u, c, ops))
  {
    hide Verdict, Expire, Put, Recycle, BucketId, MinBucketId, TrimSpace;
    if ops != [] {
      var front, op := ops[..|ops| - 1], ops[|ops| - 1];
      var h := Run(u, c, front);
      RunSkewed(u, c, front);
      if op.Add? && Decision(u, c, h.ring, op.event, op.now) == NotDropped {
        assert Step(u, h, op) == Accept(ExpireAt(h, op.now), EntryOf(u, c, op.event, op.now));
      }
    }
  }

  /** What a look counts is in a counted bucket, and not from after the look or beyond the skew. */
  lemma CountedIsFiled(u: Unicode, c: Config, ops: seq<Op>, now: int, e: Entry)
    requires Ordered(ops + [Look(now)]) && e in Contents(Run(u, c, ops + [Look(now)]).ring)
    ensures e.time <= now && e.time <= now + Slack(c) && BucketId(c, e.time) >= MinBucketId(c, now)
  {
    hide Run, WithinLimits, Filed, Contents, BucketId;
    var all := ops + [Look(now)];
    OrderedIsOnTime(u, c, all);
    RunInv(u, c, all);
    RunSkewed(u, c, all);
    RunSnoc(u, c, ops, Look(now));
    LiveAt(Run(u, c, all).log, MinBucketId(c, now), e);
    assert e in multiset(Run(u, c, all).log);
  }

  /** A lone event in a counted bucket is accepted and counted, however old. */
  lemma LoneEventIsCounted(u: Unicode, c: Config, q: string, t: int, now: int)
    requires TrimSpace(u, q) != ""
    requires t <= now && t <= now + c.maxFutureSkew && BucketId(c, t) >= MinBucketId(c, now)
    ensures Entry(TrimSpace(u, q), "", t, BucketId(c, t)) in
            Contents(Run(u, c, [Add(Event(q, t, ""), now)] + [Look(now)]).ring)
  {
    hide Contents, Expire, Put, BucketId, Verdict, Recycle;
    var ev, e := Event(q, t, ""), Entry(TrimSpace(u, q), "", t, BucketId(c, t));
    var h := Start(c);
    StartTakes(u, c, ev, e, now);
    PutContents(ExpireAt(h, now).ring, e);
    AcceptedSurvives(u, h, ev, now);
    RunSnoc(u, c, [], Add(ev, now));
    RunSnoc(u, c, [Add(ev, now)], Look(now));
    assert [] + [Add(ev, now)] == [Add(ev, now)];
  }

  /** A fresh window takes any event without an actor that is in a counted bucket. */
  lemma StartTakes(u: Unicode, c: Config, ev: Event, e: Entry, now: int)
    requires TrimSpace(u, ev.query) != "" && ev.actorKey == ""
    requires ev.occurredAt <= now && ev.occurredAt <= now + c.maxFutureSkew
    requires e == EntryOf(u, c, ev, now) && e.bucket >= MinBucketId(c, now)
    ensures Decision(u, c, Start(c).ring, ev, now) == NotDropped
    ensures AddAt(u, Start(c), ev, now) == Accept(ExpireAt(Start(c), now), e)
  {
    hide Contents, BucketId, Verdict;
    var ring := Start(c).ring;
    EmptyContents(ring);
    ExpireNothing(ring, MinBucketId(c, now));
    assert TrimSpace(u, "") == "";
    RoomForOne(c, ring, e, now);
  }

  const SECOND := 1_000_000_000

  lemma DefaultsUsable()
    ensures Usable(DEFAULTS)
  {
    DivUnique(DEFAULTS.windowSize, SECOND, 300, 0);
  }

  const DEFAULT: Config := (DefaultsUsable(); DEFAULTS)

  /**
   So the documented window is not what is counted: with the default sizes, an event
   from 1.2 s after the epoch is counted at 301.5 s, when the window starts at 1.5 s.
   */
  lemma DefaultCountsOlderEvent(u: Unicode, q: string)
    requires TrimSpace(u, q) != ""
    ensures var past, now := 1_200_000_000, 301_500_000_000;
            && past < now - DEFAULT.windowSize
            && Entry(TrimSpace(u, q), "", past, 1) in
               Contents(Run(u, DEFAULT, [Add(Event(q, past, ""), now)] + [Look(now)]).ring)
  {
    hide Run, Contents;
    DivUnique(1_200_000_000, SECOND, 1, 200_000_000);
    DivUnique(1_500_000_000, SECOND, 1, 500_000_000);
    LoneEventIsCounted(u, DEFAULT, q, 1_200_000_000, 301_500_000_000);
  }

  /**
   Time accuracy of a run whose clock does not go back: at `now` every accepted
   event from inside `[now - W, now]` is counted as often as it was accepted, and
   whatever is counted happened at most one bucket before the window.
   */
  lemma TimeAccuracy(u: Unicode, c: Config, ops: seq<Op>, now: int, e: Entry)
    requires Ordered(ops + [Look(now)])
    ensures var h := Run(u, c, ops + [Look(now)]);
            && (e in h.log && now - c.windowSize <= e.time ==> Contents(h.ring)[e] == multiset(h.log)[e])
            && (e in Contents(h.ring) ==>
                  && e.time <= now
                  && (!(0 < now - c.windowSize < c.bucketSize) ==> e.time > now - c.windowSize - c.bucketSize))
  {
    hide Run, WithinLimits, Filed, Contents;
    var all := ops + [Look(now)];
    var h := Run(u, c, all);
    OrderedIsOnTime(u, c, all);
    RunInv(u, c, all);
    RunSnoc(u, c, ops, Look(now));
    LiveAt(h.log, MinBucketId(c, now), e);
    if e in h.log && now - c.windowSize <= e.time {
      InWindowIsCounted(c, now, e.time);
    }
    if e in Contents(h.ring) {
      assert e in multiset(h.log);
      CountedIsNearlyInWindow(c, now);
    }
  }

  lemma NearlyInWindow(n: nat, start: int, t: int)
    requires n > 0 && TruncDiv(t, n) >= TruncDiv(start, n) && !(0 < start < n)
    ensures t > start - n
  {
    if t < 0 && start <= 0 {
      DivShift(-start, n, 1);
      if -start + n <= -t { DivMonotone(-start + n, -t, n); }
    } else if t >= 0 && start >= 0 {
      DivShift(t, n, 1);
      if t + n <= start { DivMonotone(t + n, start, n); }
    }
  }
}
