/**
 The ring of time buckets of internal/aggregator/window.go as a value: what each
 slot holds is the bag of accepted events counted in it.  The arithmetic of
 bucket ids, the decision `AddAt` takes and the ring it leaves behind.
 */
module Ring {
  import opened Wrappers
  import opened Arithmetic
  import opened Bags
  import opened Text

  // ---------- configuration ----------

  /** Durations in nanoseconds, as in Go's `time.Duration`. */
  datatype WindowConfig = WindowConfig(
    windowSize: int,
    bucketSize: int,
    maxFutureSkew: int,
    maxUniqueQueries: int,
    maxUniqueQueriesPerBucket: int,
    perActorQueryLimit: int)

  const DEFAULTS := WindowConfig(300_000_000_000, 1_000_000_000, 10_000_000_000, 1_000_000, 100_000, 3)

  function WithDefaults(c: WindowConfig): WindowConfig {
    WindowConfig(
      if c.windowSize == 0 then DEFAULTS.windowSize else c.windowSize,
      if c.bucketSize == 0 then DEFAULTS.bucketSize else c.bucketSize,
      if c.maxFutureSkew == 0 then DEFAULTS.maxFutureSkew else c.maxFutureSkew,
      if c.maxUniqueQueries == 0 then DEFAULTS.maxUniqueQueries else c.maxUniqueQueries,
      if c.maxUniqueQueriesPerBucket == 0 then DEFAULTS.maxUniqueQueriesPerBucket else c.maxUniqueQueriesPerBucket,
      if c.perActorQueryLimit == 0 then DEFAULTS.perActorQueryLimit else c.perActorQueryLimit)
  }

  /** What holds of every configuration that passes the checks of `NewWindow`. */
  predicate Usable(c: WindowConfig) {
    && 0 < c.bucketSize <= c.windowSize
    && TruncMod(c.windowSize, c.bucketSize) == 0
    && 0 < c.maxUniqueQueries
    && 0 < c.maxUniqueQueriesPerBucket
    && 0 < c.perActorQueryLimit
  }

  const SMALLEST := WindowConfig(1, 1, 0, 1, 1, 1)

  type Config = c: WindowConfig | Usable(c) witness SMALLEST

  datatype ConfigError =
    | WindowNotPositive
    | BucketNotPositive
    | BucketExceedsWindow
    | WindowNotDivisible
    | NegativeMaxUniqueQueries
    | NegativeMaxUniqueQueriesPerBucket
    | NegativePerActorQueryLimit

  /** The checks of `NewWindow`, in its order, on a configuration with defaults filled in. */
  function CheckConfig(c: WindowConfig): Option<ConfigError> {
    if c.windowSize <= 0 then Some(WindowNotPositive)
    else if c.bucketSize <= 0 then Some(BucketNotPositive)
    else if c.bucketSize > c.windowSize then Some(BucketExceedsWindow)
    else if TruncMod(c.windowSize, c.bucketSize) != 0 then Some(WindowNotDivisible)
    else if c.maxUniqueQueries < 0 then Some(NegativeMaxUniqueQueries)
    else if c.maxUniqueQueriesPerBucket < 0 then Some(NegativeMaxUniqueQueriesPerBucket)
    else if c.perActorQueryLimit < 0 then Some(NegativePerActorQueryLimit)
    else None
  }

  /** The defaults: five minutes in buckets of a second, ten seconds of skew, and the three limits. */
  lemma DefaultsFilled(c: WindowConfig)
    ensures var d := WithDefaults(c);
            && d.windowSize == (if c.windowSize == 0 then 5 * 60 * 1_000_000_000 else c.windowSize)
            && d.bucketSize == (if c.bucketSize == 0 then 1_000_000_000 else c.bucketSize)
            && d.maxFutureSkew == (if c.maxFutureSkew == 0 then 10 * 1_000_000_000 else c.maxFutureSkew)
            && d.maxUniqueQueries == (if c.maxUniqueQueries == 0 then 1_000_000 else c.maxUniqueQueries)
            && d.maxUniqueQueriesPerBucket ==
               (if c.maxUniqueQueriesPerBucket == 0 then 100_000 else c.maxUniqueQueriesPerBucket)
            && d.perActorQueryLimit == (if c.perActorQueryLimit == 0 then 3 else c.perActorQueryLimit)
  {
  }

  lemma DefaultsTwice(c: WindowConfig)
    ensures WithDefaults(WithDefaults(c)) == WithDefaults(c)
  {
  }

  /** With the defaults filled in, the checks pass exactly for the usable configurations. */
  lemma CheckedIffUsable(c: WindowConfig)
    ensures var d := WithDefaults(c);
            CheckConfig(d) == None <==>
              && d.bucketSize > 0 && d.windowSize >= d.bucketSize && d.windowSize % d.bucketSize == 0
              && d.maxUniqueQueries > 0 && d.maxUniqueQueriesPerBucket > 0 && d.perActorQueryLimit > 0
    ensures CheckConfig(WithDefaults(c)) == None <==> Usable(WithDefaults(c))
  {
    hide TruncMod;
    var d := WithDefaults(c);
    if d.windowSize > 0 && d.bucketSize > 0 { TruncIsQuotient(d.windowSize, d.bucketSize); }
  }

  /** The sizes are checked before the limits, and the first failing check is reported. */
  lemma CheckedInOrder(c: WindowConfig)
    ensures var sized := 0 < c.bucketSize <= c.windowSize && c.windowSize % c.bucketSize == 0;
            && (CheckConfig(c) == Some(WindowNotPositive) <==> c.windowSize <= 0)
            && (CheckConfig(c) == Some(BucketNotPositive) <==> c.windowSize > 0 >= c.bucketSize)
            && (CheckConfig(c) == Some(BucketExceedsWindow) <==> 0 < c.windowSize < c.bucketSize)
            && (CheckConfig(c) == Some(WindowNotDivisible) <==> 0 < c.bucketSize <= c.windowSize && !sized)
            && (CheckConfig(c) == Some(NegativeMaxUniqueQueries) <==> sized && c.maxUniqueQueries < 0)
            && (CheckConfig(c) == Some(NegativeMaxUniqueQueriesPerBucket) <==>
                  sized && c.maxUniqueQueries >= 0 > c.maxUniqueQueriesPerBucket)
            && (CheckConfig(c) == Some(NegativePerActorQueryLimit) <==>
                  sized && c.maxUniqueQueries >= 0 && c.maxUniqueQueriesPerBucket >= 0 > c.perActorQueryLimit)
  {
    hide TruncMod;
    if c.windowSize > 0 && c.bucketSize > 0 { TruncIsQuotient(c.windowSize, c.bucketSize); }
  }

  // ---------- bucket arithmetic ----------

  function BucketCount(c: Config): (n: int)
    ensures n >= 2
  {
    TruncDiv(c.windowSize, c.bucketSize) + 1
  }

  function BucketId(c: Config, ts: int): int {
    TruncDiv(ts, c.bucketSize)
  }

  function MinBucketId(c: Config, now: int): int {
    BucketId(c, now - c.windowSize)
  }

  /** The ring has one slot more than the window has buckets; ids and floor are quotients rounded toward zero. */
  lemma IdsAreQuotients(c: Config, t: int)
    ensures BucketCount(c) == c.windowSize / c.bucketSize + 1
    ensures BucketId(c, t) == if t >= 0 then t / c.bucketSize else -(-t / c.bucketSize)
    ensures MinBucketId(c, t) == BucketId(c, t - c.windowSize)
  {
    TruncIsQuotient(c.windowSize, c.bucketSize);
    TruncIsQuotient(t, c.bucketSize);
  }

  /** The slot of a bucket id: Go's remainder, moved up when negative. */
  function BucketIndex(n: nat, id: int): (index: nat)
    requires n > 0
    ensures index < n
  {
    var index := TruncMod(id, n);
    if index < 0 then index + n else index
  }

  /** That is the Euclidean remainder: the id minus a multiple of the ring size, for negative ids too. */
  lemma BucketIndexIsEuclidean(n: nat, id: int)
    requires n > 0
    ensures BucketIndex(n, id) == id % n
  {
    var k := FullTurns(n, id);
    QuotientUnique(n, k, BucketIndex(n, id), id / n, id % n);
  }

  /** How many full turns of the ring lie below an id. */
  lemma FullTurns(n: nat, id: int) returns (k: int)
    requires n > 0
    ensures id == n * k + BucketIndex(n, id)
  {
    if id >= 0 {
      DivMod(id, n);
      k := Div(id, n);
    } else {
      DivMod(-id, n);
      var q: int := Div(-id, n);
      Distribute(n, 0, q);
      Distribute(n, -q, 1);
      k := if Mod(-id, n) == 0 then -q else -q - 1;
    }
  }

  /** Two ids that are less than a full ring apart share a slot only if they are equal. */
  lemma SameSlotSameId(n: nat, a: int, b: int)
    requires n > 0 && BucketIndex(n, a) == BucketIndex(n, b) && a - b < n && b - a < n
    ensures a == b
  {
    var j := FullTurns(n, a);
    var k := FullTurns(n, b);
    MultipleSize(n, j - k);
    Distribute(n, j, k);
  }

  lemma BucketIdMonotone(c: Config, a: int, b: int)
    requires a <= b
    ensures BucketId(c, a) <= BucketId(c, b)
  {
    TruncDivMonotone(a, b, c.bucketSize);
  }

  /** The live ids span at most `W/B`, for every `now`, also below zero and across it. */
  lemma LiveSpan(c: Config, now: int)
    ensures 0 <= BucketId(c, now) - MinBucketId(c, now) < BucketCount(c)
  {
    var n, w := c.bucketSize, c.windowSize;
    DivMod(w, n);
    BucketIdMonotone(c, now - w, now);
    TruncDivSpan(n, Div(w, n), now);
  }

  lemma TruncDivSpan(n: nat, k: nat, now: int)
    requires n > 0
    ensures TruncDiv(now, n) - TruncDiv(now - n * k, n) <= k
  {
    var start := now - n * k;
    assert n * k >= 0;
    if start >= 0 {
      DivShift(start, n, k);
    } else if now < 0 {
      DivShift(-now, n, k);
    } else {
      // now >= 0 > start: the two quotients round toward zero from both sides
      DivMod(now, n);
      DivMod(-start, n);
      var p, q := Div(now, n), Div(-start, n);
      Distribute(n, p, q);
      Distribute(n, p + q, k);
      MultipleSize(n, p + q - k);
    }
  }

  // ---------- the ring ----------

  /** An accepted event as counted: trimmed query and actor key (blank when absent), clamped time, its bucket id. */
  datatype Entry = Entry(query: string, actor: string, time: int, bucket: int)

  /** The bucket id of an entry is that of its time. */
  predicate Stamped(c: Config, e: Entry) {
    e.bucket == BucketId(c, e.time)
  }

  datatype ActorQuery = ActorQuery(query: string, actor: string)

  /** A slot is vacant until its maps are first made. */
  datatype Slot = Vacant | Slot(id: int, entries: multiset<Entry>)

  function QueryOf(e: Entry): multiset<string> {
    multiset{e.query}
  }

  function ActorOf(e: Entry): multiset<ActorQuery> {
    if e.actor == "" then multiset{} else multiset{ActorQuery(e.query, e.actor)}
  }

  ghost function Queries(es: multiset<Entry>): multiset<string> {
    Collect(QueryOf, es)
  }

  ghost function Actors(es: multiset<Entry>): multiset<ActorQuery> {
    Collect(ActorOf, es)
  }

  lemma QueriesSize(es: multiset<Entry>)
    ensures |Queries(es)| == |es|
  {
    CollectSize(QueryOf, es);
  }

  function Entries(s: Slot): multiset<Entry> {
    if s.Vacant? then multiset{} else s.entries
  }

  /** Everything the ring counts. */
  ghost function Contents(ring: seq<Slot>): multiset<Entry> {
    if ring == [] then multiset{} else Contents(ring[..|ring| - 1]) + Entries(ring[|ring| - 1])
  }

  function ExpireSlot(s: Slot, min: int): Slot {
    if s.Slot? && s.id < min then Slot(s.id, multiset{}) else s
  }

  function Expire(ring: seq<Slot>, min: int): (r: seq<Slot>)
    ensures |r| == |ring|
  {
    seq(|ring|, i requires 0 <= i < |ring| => ExpireSlot(ring[i], min))
  }

  /** The slot `ensureBucket` hands out: kept when it is this bucket's, emptied otherwise. */
  function RecycleSlot(s: Slot, id: int): Slot {
    if s.Slot? && s.id == id then s else Slot(id, multiset{})
  }

  function Recycle(ring: seq<Slot>, id: int): seq<Slot>
    requires |ring| > 0
  {
    var i := BucketIndex(|ring|, id);
    ring[i := RecycleSlot(ring[i], id)]
  }

  function Put(ring: seq<Slot>, id: int, e: Entry): (r: seq<Slot>)
    requires |ring| > 0
    ensures |r| == |ring|
  {
    var i := BucketIndex(|ring|, id);
    ring[i := Slot(id, Entries(RecycleSlot(ring[i], id)) + multiset{e})]
  }

  lemma RecycleFacts(ring: seq<Slot>, id: int)
    requires |ring| > 0
    ensures var i := BucketIndex(|ring|, id);
            && |Recycle(ring, id)| == |ring|
            && Recycle(ring, id)[i] == RecycleSlot(ring[i], id)
            && (ring[i].Slot? && ring[i].id == id ==> Recycle(ring, id) == ring)
            && (!(ring[i].Slot? && ring[i].id == id) ==> Recycle(ring, id) == ring[i := Slot(id, multiset{})])
  {
  }

  lemma PutRecycled(ring: seq<Slot>, e: Entry)
    requires |ring| > 0
    ensures Put(Recycle(ring, e.bucket), e.bucket, e) == Put(ring, e.bucket, e)
  {
  }

  // ---------- AddAt ----------

  datatype Event = Event(query: string, occurredAt: int, actorKey: string)

  datatype DropReason =
    | NotDropped
    | EmptyQuery
    | TooOld
    | FromFuture
    | CardinalityLimit
    | BucketCardinalityLimit
    | ActorQueryLimit

  datatype AddResult = AddResult(accepted: bool, reason: DropReason)

  function Outcome(reason: DropReason): AddResult {
    AddResult(reason == NotDropped, reason)
  }

  function Clamped(ev: Event, now: int): int {
    if ev.occurredAt > now then now else ev.occurredAt
  }

  function EntryOf(u: Unicode, c: Config, ev: Event, now: int): Entry {
    var time := Clamped(ev, now);
    Entry(TrimSpace(u, ev.query), TrimSpace(u, ev.actorKey), time, BucketId(c, time))
  }

  /** The verdict on an event once expiry at `now` has left the ring `r`. */
  ghost function Verdict(c: Config, r: seq<Slot>, e: Entry, now: int): DropReason
    requires |r| > 0
  {
    var all := Contents(r);
    var bucket := Entries(RecycleSlot(r[BucketIndex(|r|, e.bucket)], e.bucket));
    if e.bucket < MinBucketId(c, now) then TooOld
    else if e.actor != "" && Actors(all)[ActorQuery(e.query, e.actor)] >= c.perActorQueryLimit then ActorQueryLimit
    else if Queries(all)[e.query] == 0 && |Support(Queries(all))| >= c.maxUniqueQueries then CardinalityLimit
    else if Queries(bucket)[e.query] == 0 && |Support(Queries(bucket))| >= c.maxUniqueQueriesPerBucket
    then BucketCardinalityLimit
    else NotDropped
  }

  lemma LastVerdict(c: Config, r: seq<Slot>, e: Entry, now: int)
    requires |r| > 0 && Verdict(c, r, e, now) in {BucketCardinalityLimit, NotDropped}
    ensures var bucket := Queries(Entries(RecycleSlot(r[SlotOf(r, e)], e.bucket)));
            Verdict(c, r, e, now) == BucketCardinalityLimit <==>
              bucket[e.query] == 0 && |Support(bucket)| >= c.maxUniqueQueriesPerBucket
  {
  }

  lemma AcceptedIsInWindow(c: Config, r: seq<Slot>, e: Entry, now: int)
    requires |r| > 0 && Verdict(c, r, e, now) == NotDropped
    ensures e.bucket >= MinBucketId(c, now)
  {
  }

  lemma VerdictKinds(c: Config, r: seq<Slot>, e: Entry, now: int)
    requires |r| > 0
    ensures Verdict(c, r, e, now) !in {EmptyQuery, FromFuture}
  {
  }

  /** Few entries leave room for an event without an actor. */
  lemma RoomForOne(c: Config, r: seq<Slot>, e: Entry, now: int)
    requires |r| > 0 && e.actor == "" && e.bucket >= MinBucketId(c, now)
    requires |Contents(r)| < c.maxUniqueQueries
    requires |Entries(RecycleSlot(r[SlotOf(r, e)], e.bucket))| < c.maxUniqueQueriesPerBucket
    ensures Verdict(c, r, e, now) == NotDropped
  {
    hide Queries, Contents;
    var bucket := Entries(RecycleSlot(r[SlotOf(r, e)], e.bucket));
    QueriesSize(Contents(r));
    QueriesSize(bucket);
    SupportSize(Queries(Contents(r)));
    SupportSize(Queries(bucket));
  }

  /** Whether the event is refused before the window is even expired. */
  function Screened(u: Unicode, c: Config, ev: Event, now: int): DropReason {
    if TrimSpace(u, ev.query) == "" then EmptyQuery
    else if ev.occurredAt > now + c.maxFutureSkew then FromFuture
    else NotDropped
  }

  ghost function Decision(u: Unicode, c: Config, ring: seq<Slot>, ev: Event, now: int): DropReason
    requires |ring| > 0
  {
    if Screened(u, c, ev, now) != NotDropped then Screened(u, c, ev, now)
    else Verdict(c, Expire(ring, MinBucketId(c, now)), EntryOf(u, c, ev, now), now)
  }

  // ---------- the ring as a bag ----------

  lemma {:induction false} ContentsUpdate(ring: seq<Slot>, i: nat, s: Slot)
    requires i < |ring|
    ensures Entries(ring[i]) <= Contents(ring)
    ensures Contents(ring[i := s]) == Contents(ring) - Entries(ring[i]) + Entries(s)
  {
    hide Entries;
    var n := |ring| - 1;
    if i == n {
      assert ring[i := s][..n] == ring[..n];
      SwapPart(Contents(ring[..n]), multiset{}, Entries(ring[i]), Entries(s));
    } else {
      ContentsUpdate(ring[..n], i, s);
      assert ring[i := s][..n] == ring[..n][i := s];
      SwapPart(Contents(ring[..n]) - Entries(ring[i]), Entries(ring[n]), Entries(ring[i]), Entries(s));
      assert Contents(ring[..n]) - Entries(ring[i]) + Entries(ring[i]) == Contents(ring[..n]);
    }
  }

  lemma SwapPart(a: multiset<Entry>, b: multiset<Entry>, part: multiset<Entry>, other: multiset<Entry>)
    ensures part <= a + part + b
    ensures a + part + b - part + other == a + other + b
  {
  }

  /** Every entry sits in the one slot its bucket id selects, under that id. */
  ghost predicate Filed(ring: seq<Slot>) {
    && |ring| > 0
    && forall i, e :: 0 <= i < |ring| && e in Entries(ring[i]) ==> ring[i].id == e.bucket && SlotOf(ring, e) == i
  }

  function SlotOf(ring: seq<Slot>, e: Entry): (i: nat)
    requires |ring| > 0
    ensures i < |ring|
  {
    BucketIndex(|ring|, e.bucket)
  }

  lemma {:induction false} ContentsOfPrefix(ring: seq<Slot>, k: nat, e: Entry)
    requires Filed(ring) && k <= |ring|
    ensures Contents(ring[..k])[e] == if SlotOf(ring, e) < k then Entries(ring[SlotOf(ring, e)])[e] else 0
  {
    if k > 0 {
      ContentsOfPrefix(ring, k - 1, e);
      assert ring[..k][..k - 1] == ring[..k - 1];
      if k - 1 != SlotOf(ring, e) {
        assert e !in Entries(ring[k - 1]);
      }
    } else {
      assert ring[..k] == [];
    }
  }

  /** So how often an entry is counted can be read off its own slot. */
  lemma ContentsAt(ring: seq<Slot>, e: Entry)
    requires Filed(ring)
    ensures Contents(ring)[e] == Entries(ring[SlotOf(ring, e)])[e]
  {
    ContentsOfPrefix(ring, |ring|, e);
    assert ring[..|ring|] == ring;
  }

  lemma ExpireFiled(ring: seq<Slot>, min: int)
    requires Filed(ring)
    ensures Filed(Expire(ring, min))
  {
    var r := Expire(ring, min);
    forall i, e | 0 <= i < |r| && e in Entries(r[i]) ensures r[i].id == e.bucket && SlotOf(r, e) == i {
      assert e in Entries(ring[i]);
    }
  }

  lemma ExpireContentsAt(ring: seq<Slot>, min: int, e: Entry)
    requires Filed(ring)
    ensures Contents(Expire(ring, min))[e] == if e.bucket >= min then Contents(ring)[e] else 0
  {
    ExpireFiled(ring, min);
    ContentsAt(ring, e);
    ContentsAt(Expire(ring, min), e);
    var slot := ring[SlotOf(ring, e)];
    assert Expire(ring, min)[SlotOf(ring, e)] == ExpireSlot(slot, min);
    assert e in Entries(slot) ==> slot.id == e.bucket;
  }

  /** Expiry keeps exactly the entries whose bucket id reaches `min`. */
  lemma ExpireContents(ring: seq<Slot>, min: int)
    requires Filed(ring)
    ensures forall e :: Contents(Expire(ring, min))[e] == if e.bucket >= min then Contents(ring)[e] else 0
    ensures Contents(Expire(ring, min)) <= Contents(ring)
  {
    var seen, all := Contents(Expire(ring, min)), Contents(ring);
    forall e ensures seen[e] == if e.bucket >= min then all[e] else 0 {
      ExpireContentsAt(ring, min, e);
    }
  }

  /** What is still counted after the slot for `e` has been recycled. */
  ghost function Survivors(ring: seq<Slot>, e: Entry): multiset<Entry>
    requires |ring| > 0
  {
    Contents(Recycle(ring, e.bucket))
  }

  /** The event's slot is not taken by another bucket that still counts something. */
  ghost predicate Undisplaced(ring: seq<Slot>, e: Entry)
    requires |ring| > 0
  {
    var slot := ring[SlotOf(ring, e)];
    Entries(slot) == multiset{} || slot.id == e.bucket
  }

  lemma PutFiled(ring: seq<Slot>, e: Entry)
    requires Filed(ring)
    ensures Filed(Put(ring, e.bucket, e))
  {
  }

  /** Storing an entry loses what the recycled slot held, and nothing else. */
  lemma PutContents(ring: seq<Slot>, e: Entry)
    requires |ring| > 0
    ensures Survivors(ring, e) <= Contents(ring)
    ensures Contents(Put(ring, e.bucket, e)) == Survivors(ring, e) + multiset{e}
    ensures Survivors(ring, e) == Contents(ring) <==> Undisplaced(ring, e)
  {
    var k := SlotOf(ring, e);
    var kept := RecycleSlot(ring[k], e.bucket);
    ContentsUpdate(ring, k, Slot(e.bucket, Entries(kept) + multiset{e}));
    ContentsUpdate(ring, k, kept);
    Shrink(Contents(ring), Entries(ring[k]), Entries(kept), e);
  }

  // ---------- expiry algebra ----------

  /** Expiring twice is expiring once at the later instant; in particular expiry is idempotent. */
  lemma ExpireTwice(c: Config, ring: seq<Slot>, a: int, b: int)
    ensures Expire(Expire(ring, MinBucketId(c, a)), MinBucketId(c, b)) ==
            Expire(ring, MinBucketId(c, if a < b then b else a))
  {
    if a < b {
      BucketIdMonotone(c, a - c.windowSize, b - c.windowSize);
    } else {
      BucketIdMonotone(c, b - c.windowSize, a - c.windowSize);
    }
  }

  // ---------- limits ----------

  /** The cardinality and per-actor limits. */
  ghost predicate WithinLimits(c: Config, ring: seq<Slot>) {
    && |Support(Queries(Contents(ring)))| <= c.maxUniqueQueries
    && (forall i :: 0 <= i < |ring| ==> |Support(Queries(Entries(ring[i])))| <= c.maxUniqueQueriesPerBucket)
    && (forall k :: Actors(Contents(ring))[k] <= c.perActorQueryLimit)
  }

  /** Fewer entries cannot break a limit. */
  lemma LimitsAntitone(a: multiset<Entry>, b: multiset<Entry>)
    requires a <= b
    ensures Queries(a) <= Queries(b) && Actors(a) <= Actors(b)
    ensures |Support(Queries(a))| <= |Support(Queries(b))|
  {
    CollectDifference(QueryOf, b, a);
    CollectDifference(ActorOf, b, a);
    SupportMonotone(Queries(a), Queries(b));
  }

  lemma ExpireLimits(c: Config, ring: seq<Slot>, min: int)
    requires Filed(ring) && WithinLimits(c, ring)
    ensures WithinLimits(c, Expire(ring, min))
  {
    var r := Expire(ring, min);
    ExpireContents(ring, min);
    LimitsAntitone(Contents(r), Contents(ring));
    forall i | 0 <= i < |r| ensures |Support(Queries(Entries(r[i])))| <= c.maxUniqueQueriesPerBucket {
      LimitsAntitone(Entries(r[i]), Entries(ring[i]));
    }
  }

  lemma AddedQuery(checked: multiset<Entry>, left: multiset<Entry>, e: Entry, limit: int)
    requires left <= checked
    requires Queries(checked)[e.query] == 0 ==> |Support(Queries(checked))| < limit
    requires |Support(Queries(checked))| <= limit
    ensures |Support(Queries(left + multiset{e}))| <= limit
  {
    CollectDifference(QueryOf, checked, left);
    CollectAdd(QueryOf, left, e);
    AddedKey(Queries(checked), Queries(left), e.query, limit);
  }

  lemma AddedActor(left: multiset<Entry>, checked: multiset<Entry>, e: Entry, limit: int)
    requires left <= checked
    requires forall k :: Actors(checked)[k] <= limit
    requires e.actor != "" ==> Actors(checked)[ActorQuery(e.query, e.actor)] < limit
    ensures forall k :: Actors(left + multiset{e})[k] <= limit
  {
    CollectDifference(ActorOf, checked, left);
    CollectAdd(ActorOf, left, e);
    forall k ensures Actors(left + multiset{e})[k] <= limit {
      assert Actors(left)[k] <= Actors(checked)[k];
    }
  }

  lemma TotalLimits(c: Config, r: seq<Slot>, e: Entry, now: int)
    requires Filed(r) && WithinLimits(c, r)
    requires Verdict(c, r, e, now) == NotDropped
    ensures var all := Contents(Put(r, e.bucket, e));
            && |Support(Queries(all))| <= c.maxUniqueQueries
            && forall k :: Actors(all)[k] <= c.perActorQueryLimit
  {
    PutContents(r, e);
    AddedQuery(Contents(r), Survivors(r, e), e, c.maxUniqueQueries);
    AddedActor(Survivors(r, e), Contents(r), e, c.perActorQueryLimit);
  }

  lemma BucketLimit(c: Config, r: seq<Slot>, e: Entry, now: int)
    requires Filed(r) && WithinLimits(c, r)
    requires Verdict(c, r, e, now) == NotDropped
    ensures var kept := Entries(RecycleSlot(r[SlotOf(r, e)], e.bucket));
            |Support(Queries(kept + multiset{e}))| <= c.maxUniqueQueriesPerBucket
  {
    var s := r[SlotOf(r, e)];
    var kept := Entries(RecycleSlot(s, e.bucket));
    LimitsAntitone(kept, Entries(s));
    AddedQuery(kept, kept, e, c.maxUniqueQueriesPerBucket);
  }

  /** An accepted event never pushes the ring over a limit, also when its slot is recycled in between. */
  lemma PutLimits(c: Config, r: seq<Slot>, e: Entry, now: int)
    requires Filed(r) && WithinLimits(c, r)
    requires Verdict(c, r, e, now) == NotDropped
    ensures WithinLimits(c, Put(r, e.bucket, e))
  {
    TotalLimits(c, r, e, now);
    BucketLimit(c, r, e, now);
    var r' := Put(r, e.bucket, e);
    forall i | 0 <= i < |r'| ensures |Support(Queries(Entries(r'[i])))| <= c.maxUniqueQueriesPerBucket {
      if i != SlotOf(r, e) { assert r'[i] == r[i]; }
    }
  }
}
