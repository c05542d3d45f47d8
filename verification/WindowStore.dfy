/** internal/aggregator/window.go: the exact sliding window, updated in place. */
module WindowStore {
  import opened Wrappers
  import opened Bags
  import opened Text
  import opened Ring
  import opened Selection
  import History

  // ---------- what the maps store, as values ----------

  datatype BucketView = BucketView(made: bool, id: int, counts: map<string, int>, actorCounts: map<ActorQuery, int>)

  /** The bucket whose maps count exactly the entries of the slot. */
  ghost function ViewOf(s: Slot): BucketView {
    BucketView(s.Slot?, if s.Slot? then s.id else 0, CountsOf(Queries(Entries(s))), CountsOf(Actors(Entries(s))))
  }

  lemma EmptyView(s: Slot)
    requires Entries(s) == multiset{}
    ensures ViewOf(s) == BucketView(s.Slot?, if s.Slot? then s.id else 0, map[], map[])
  {
    assert Queries(multiset{}) == multiset{} && Actors(multiset{}) == multiset{};
  }

  lemma ViewFields(s: Slot)
    ensures ViewOf(s).made == s.Slot?
    ensures s.Slot? ==> ViewOf(s).id == s.id
    ensures ViewOf(s).counts == CountsOf(Queries(Entries(s)))
    ensures ViewOf(s).actorCounts == CountsOf(Actors(Entries(s)))
  {
  }

  /** A bucket after counting one more entry. */
  function Tallied(b: BucketView, e: Entry): BucketView {
    b.(counts := Bump(b.counts, e.query),
       actorCounts := if e.actor == "" then b.actorCounts else Bump(b.actorCounts, ActorQuery(e.query, e.actor)))
  }

  lemma TalliedView(s: Slot, e: Entry)
    requires s.Slot?
    ensures ViewOf(Slot(s.id, s.entries + multiset{e})) == Tallied(ViewOf(s), e)
  {
    CountOne(s.entries, e);
  }

  lemma EmptiedContents(ring: seq<Slot>, i: nat, id: int)
    requires i < |ring|
    ensures Entries(ring[i]) <= Contents(ring)
    ensures Contents(ring[i := Slot(id, multiset{})]) == Contents(ring) - Entries(ring[i])
  {
    ContentsUpdate(ring, i, Slot(id, multiset{}));
  }

  lemma CountOne(es: multiset<Entry>, e: Entry)
    ensures CountsOf(Queries(es + multiset{e})) == Bump(CountsOf(Queries(es)), e.query)
    ensures CountsOf(Actors(es + multiset{e})) ==
            if e.actor == "" then CountsOf(Actors(es)) else Bump(CountsOf(Actors(es)), ActorQuery(e.query, e.actor))
  {
    CollectAdd(QueryOf, es, e);
    CollectAdd(ActorOf, es, e);
    BumpCounts(Queries(es), e.query);
    BumpCounts(Actors(es), ActorQuery(e.query, e.actor));
    assert Actors(es) + multiset{} == Actors(es);
  }

  lemma CountedContents(ring: seq<Slot>, e: Entry)
    requires |ring| > 0 && ring[SlotOf(ring, e)].Slot? && ring[SlotOf(ring, e)].id == e.bucket
    ensures Contents(Put(ring, e.bucket, e)) == Contents(ring) + multiset{e}
    ensures Put(ring, e.bucket, e)[SlotOf(ring, e)] == Slot(e.bucket, Entries(ring[SlotOf(ring, e)]) + multiset{e})
  {
    PutContents(ring, e);
  }

  lemma NoneCounted()
    ensures CountsOf(Queries(multiset{})) == map[] && CountsOf(Actors(multiset{})) == map[]
  {
    EmptyView(Vacant);
  }

  function PartlyExpired(ring: seq<Slot>, min: int, k: nat): seq<Slot> {
    seq(|ring|, i requires 0 <= i < |ring| => if i < k then ExpireSlot(ring[i], min) else ring[i])
  }

  lemma ExpireOneMore(ring: seq<Slot>, min: int, k: nat)
    requires k < |ring|
    ensures PartlyExpired(ring, min, k + 1) == PartlyExpired(ring, min, k)[k := ExpireSlot(ring[k], min)]
  {
  }

  lemma PartlyExpiredEnds(ring: seq<Slot>, min: int)
    ensures PartlyExpired(ring, min, 0) == ring
    ensures PartlyExpired(ring, min, |ring|) == Expire(ring, min)
  {
  }

  // ---------- the objects ----------

  /** One time bucket; `made` is false while its maps are nil. */
  class Bucket {
    var made: bool
    var id: int
    var counts: map<string, int>
    var actorCounts: map<ActorQuery, int>

    ghost function View(): BucketView
      reads this
    {
      BucketView(made, id, counts, actorCounts)
    }

    constructor ()
      ensures View() == BucketView(false, 0, map[], map[])
    {
      made, id, counts, actorCounts := false, 0, map[], map[];
    }
  }

  class Window {
    const text: Unicode
    const cfg: Config
    const buckets: array<Bucket>
    var totals: map<string, int>
    var actorTotals: map<ActorQuery, int>
    ghost const cells: set<Bucket>
    ghost var hist: History.Reached

    ghost function Footprint(): set<object> {
      {this} + cells
    }

    /** The bucket objects are pairwise different and show the slots of `ring`. */
    ghost predicate Shows(ring: seq<Slot>)
      reads buckets, cells
    {
      && buckets.Length == |ring| == BucketCount(cfg)
      && (forall i :: 0 <= i < |ring| ==> buckets[i] in cells)
      && (forall i, j :: 0 <= i < j < |ring| ==> buckets[i] != buckets[j])
      && (forall i :: 0 <= i < |ring| ==> buckets[i].View() == ViewOf(ring[i]))
    }

    /** The totals count everything. */
    ghost predicate Indexes(all: multiset<Entry>)
      reads this
    {
      totals == CountsOf(Queries(all)) && actorTotals == CountsOf(Actors(all))
    }

    ghost predicate Valid()
      reads this, buckets, cells
    {
      hist.cfg == cfg && Shows(hist.ring) && Indexes(Contents(hist.ring))
    }

    constructor (text: Unicode, cfg: Config)
      ensures Valid() && fresh(Footprint())
      ensures this.text == text && this.cfg == cfg && hist == History.Start(cfg)
    {
      hide Queries, Actors, Contents, History.Inv, ViewOf;
      var made := MakeBuckets(BucketCount(cfg));
      this.text, this.cfg := text, cfg;
      buckets := new Bucket[|made|](i requires 0 <= i < |made| => made[i]);
      cells := set b | b in made;
      totals, actorTotals := map[], map[];
      History.StartInv(cfg);
      hist := History.Start(cfg);
      new;
      History.EmptyContents(hist.ring);
      NoneCounted();
      EmptyView(Vacant);
    }

    method SubtractBucket(current: Bucket, ghost s: Slot, ghost all: multiset<Entry>)
      requires current.View() == ViewOf(s) && Indexes(all) && Entries(s) <= all
      modifies `totals, `actorTotals
      ensures Indexes(all - Entries(s))
    {
      CollectDifference(QueryOf, all, Entries(s));
      CollectDifference(ActorOf, all, Entries(s));
      totals := SubtractCounts(totals, current.counts, Queries(all), Queries(Entries(s)));
      actorTotals := SubtractCounts(actorTotals, current.actorCounts, Actors(all), Actors(Entries(s)));
    }

    /** Takes bucket `i` out of the totals, empties it and gives it the id `id`. */
    method ResetBucket(i: nat, id: int, ghost ring: seq<Slot>)
      requires Shows(ring) && Indexes(Contents(ring)) && i < |ring| && ring[i].Slot?
      modifies `totals, `actorTotals, buckets[i]
      ensures var r := ring[i := Slot(id, multiset{})]; Shows(r) && Indexes(Contents(r))
    {
      hide Queries, Actors, Contents;
      var current := buckets[i];
      EmptiedContents(ring, i, id);
      EmptyView(Slot(id, multiset{}));
      SubtractBucket(current, ring[i], Contents(ring));
      current.counts, current.actorCounts, current.id := map[], map[], id;
      assert current.View() == ViewOf(Slot(id, multiset{}));
      forall j | 0 <= j < |ring| && j != i ensures buckets[j].View() == ViewOf(ring[j]) {
        assert buckets[j].View() == old(buckets[j].View());
      }
    }

    /** One turn of the expiry loop. */
    method ExpireBucket(i: nat, minBucketId: int, ghost ring: seq<Slot>)
      requires Shows(ring) && Indexes(Contents(ring)) && i < |ring|
      modifies `totals, `actorTotals, buckets[i]
      ensures var r := ring[i := ExpireSlot(ring[i], minBucketId)]; Shows(r) && Indexes(Contents(r))
    {
      hide Queries, Actors, Contents;
      var current := buckets[i];
      assert current.View() == ViewOf(ring[i]);
      if !current.made || current.id >= minBucketId {
        assert ring[i := ring[i]] == ring;
        return;
      }
      ResetBucket(i, current.id, ring);
    }

    method ExpireAt(now: int)
      requires Valid()
      modifies Footprint()
      ensures Valid() && hist == History.ExpireAt(old(hist), now)
    {
      hide Queries, Actors, Contents, History.Inv;
      var minBucketId := MinBucketId(cfg, now);
      ghost var ring := hist.ring;
      PartlyExpiredEnds(hist.ring, minBucketId);
      for i := 0 to buckets.Length
        invariant Shows(ring) && Indexes(Contents(ring)) && hist == old(hist)
        invariant ring == PartlyExpired(hist.ring, minBucketId, i)
      {
        ExpireBucket(i, minBucketId, ring);
        ExpireOneMore(hist.ring, minBucketId, i);
        ring := PartlyExpired(hist.ring, minBucketId, i + 1);
      }
      History.ExpireInv(hist, now);
      hist := History.ExpireAt(hist, now);
    }

    /** The bucket for `id`: made on first use, recycled when it still belongs to another id. */
    method EnsureBucket(id: int, ghost ring: seq<Slot>) returns (current: Bucket)
      requires Shows(ring) && Indexes(Contents(ring))
      modifies `totals, `actorTotals, cells
      ensures Shows(Recycle(ring, id)) && Indexes(Contents(Recycle(ring, id)))
      ensures current == buckets[BucketIndex(|ring|, id)]
      ensures current.View() == ViewOf(RecycleSlot(ring[BucketIndex(|ring|, id)], id))
    {
      hide Queries, Actors, Contents, ViewOf, BucketIndex, Recycle;
      var index := BucketIndex(buckets.Length, id);
      current := buckets[index];
      ViewFields(ring[index]);
      RecycleFacts(ring, id);
      assert current.View() == ViewOf(ring[index]);
      if !current.made {
        EmptiedContents(ring, index, id);
        assert Contents(ring) - multiset{} == Contents(ring);
        EmptyView(Slot(id, multiset{}));
        current.made, current.id, current.counts, current.actorCounts := true, id, map[], map[];
        return;
      }
      if current.id != id {
        ResetBucket(index, id, ring);
      }
    }

    /** Counts one more entry in the bucket and in the totals. */
    method Increment(current: Bucket, e: Entry, ghost ring: seq<Slot>)
      requires Shows(ring) && Indexes(Contents(ring))
      requires var s := ring[SlotOf(ring, e)]; s.Slot? && s.id == e.bucket
      requires current == buckets[SlotOf(ring, e)]
      modifies `totals, `actorTotals, current
      ensures var r := Put(ring, e.bucket, e); Shows(r) && Indexes(Contents(r))
    {
      hide Queries, Actors, Contents, ViewOf;
      CountedContents(ring, e);
      CountOne(Contents(ring), e);
      TalliedView(ring[SlotOf(ring, e)], e);
      assert current.View() == ViewOf(ring[SlotOf(ring, e)]);
      current.counts := Bump(current.counts, e.query);
      totals := Bump(totals, e.query);
      if e.actor != "" && cfg.perActorQueryLimit > 0 {
        var key := ActorQuery(e.query, e.actor);
        current.actorCounts := Bump(current.actorCounts, key);
        actorTotals := Bump(actorTotals, key);
      }
      assert current.View() == Tallied(old(current.View()), e);
    }

    method AddAt(event: Event, now: int) returns (result: AddResult)
      requires Valid()
      modifies Footprint()
      ensures Valid() && hist == History.AddAt(text, old(hist), event, now)
      ensures result == Outcome(Decision(text, cfg, old(hist.ring), event, now))
    {
      hide Queries, Actors, Contents, Verdict, History.Inv;
      var query := TrimSpace(text, event.query);
      if query == "" {
        return AddResult(false, EmptyQuery);
      }
      var eventTime := event.occurredAt;
      if eventTime > now + cfg.maxFutureSkew {
        return AddResult(false, FromFuture);
      }
      if eventTime > now {
        eventTime := now;
      }
      ExpireAt(now);
      var actorKey := TrimSpace(text, event.actorKey);
      var e := Entry(query, actorKey, eventTime, BucketId(cfg, eventTime));
      VerdictKinds(cfg, hist.ring, e, now);
      if Decision(text, cfg, old(hist.ring), event, now) != NotDropped {
        History.RejectionOnlyExpires(text, old(hist), event, now);
      }
      result := AddExpired(e, now);
    }

    /** The rest of `AddAt`, once the window is expired: the limits, then the counters. */
    method AddExpired(e: Entry, now: int) returns (result: AddResult)
      requires Valid() && Stamped(cfg, e) && e.time <= now
      requires hist.clock.Some? && now <= hist.clock.value
      modifies Footprint()
      ensures Valid()
      ensures result == Outcome(Verdict(cfg, old(hist.ring), e, now))
      ensures hist == if result.accepted then History.Accept(old(hist), e) else old(hist)
    {
      hide Queries, Actors, Contents, History.Inv;
      ghost var ring := hist.ring;
      CountsOfSize(Queries(Contents(ring)));
      CountsOfGet(Queries(Contents(ring)), e.query);
      CountsOfGet(Actors(Contents(ring)), ActorQuery(e.query, e.actor));
      if e.bucket < MinBucketId(cfg, now) {
        return AddResult(false, TooOld);
      }
      if e.actor != "" && cfg.perActorQueryLimit > 0 {
        if Get(actorTotals, ActorQuery(e.query, e.actor)) >= cfg.perActorQueryLimit {
          return AddResult(false, ActorQueryLimit);
        }
      }
      if Get(totals, e.query) == 0 && cfg.maxUniqueQueries > 0 && |totals| >= cfg.maxUniqueQueries {
        return AddResult(false, CardinalityLimit);
      }
      result := AddToBucket(e, now);
    }

    /** The end of `AddAt`: finds the bucket, checks its own limit and counts the event. */
    method AddToBucket(e: Entry, now: int) returns (result: AddResult)
      requires Valid() && Stamped(cfg, e) && e.time <= now
      requires hist.clock.Some? && now <= hist.clock.value
      requires Verdict(cfg, hist.ring, e, now) in {BucketCardinalityLimit, NotDropped}
      modifies Footprint()
      ensures Valid()
      ensures result == Outcome(Verdict(cfg, old(hist.ring), e, now))
      ensures hist == if result.accepted then History.Accept(old(hist), e) else old(hist)
    {
      hide Queries, Actors, Contents, ViewOf, Verdict, BucketIndex, Recycle, Put, History.Inv;
      ghost var ring := hist.ring;
      ghost var recycled := Recycle(ring, e.bucket);
      ghost var slot := RecycleSlot(ring[SlotOf(ring, e)], e.bucket);
      var target := EnsureBucket(e.bucket, ring);
      assert target.View() == ViewOf(slot);
      ViewFields(slot);
      RecycleFacts(ring, e.bucket);
      LastVerdict(cfg, ring, e, now);
      CountsOfSize(Queries(Entries(slot)));
      CountsOfGet(Queries(Entries(slot)), e.query);
      if Get(target.counts, e.query) == 0
        && cfg.maxUniqueQueriesPerBucket > 0
        && |target.counts| >= cfg.maxUniqueQueriesPerBucket {
        History.FullBucketWasNotRecycled(cfg, ring, e, now);
        return AddResult(false, BucketCardinalityLimit);
      }
      PutRecycled(ring, e);
      Increment(target, e, recycled);
      History.AcceptInv(hist, e, now);
      hist := History.Accept(hist, e);
      return AddResult(true, NotDropped);
    }

    /** The items of the totals that the filter admits, in whatever order the map yields them. */
    method LiveItems(keep: Item -> bool, ghost bag: multiset<string>) returns (items: seq<Item>)
      requires totals == CountsOf(bag)
      ensures multiset(items) == ItemsOf(bag, keep)
    {
      items := [];
      var todo := totals.Keys;
      while todo != {}
        invariant todo <= totals.Keys
        invariant forall x :: multiset(items)[x] ==
                    (if x.query in totals && x.query !in todo && x.count == bag[x.query] && keep(x) then 1 else 0)
        decreases todo
      {
        var query :| query in todo;
        todo := todo - {query};
        var count := totals[query];
        if count <= 0 {
          continue;
        }
        var item := Item(query, count);
        if !keep(item) {
          continue;
        }
        items := items + [item];
      }
      forall x ensures multiset(items)[x] == ItemsOf(bag, keep)[x] { ItemsOfMember(bag, keep, x); }
    }

    method TopFilteredAt(limit: int, now: int, keep: Item -> bool) returns (items: seq<Item>)
      requires Valid()
      modifies Footprint()
      ensures Valid() && hist == if limit <= 0 then old(hist) else History.ExpireAt(old(hist), now)
      ensures items == if limit <= 0 then [] else TopItems(ItemsOf(Queries(Contents(hist.ring)), keep), limit)
      ensures limit > 0 ==> Best(ItemsOf(Queries(Contents(hist.ring)), keep), items, limit)
    {
      hide Queries, Actors, Contents, Best, ItemsOf, TopItems, History.Inv;
      if limit <= 0 {
        return [];
      }
      ExpireAt(now);
      items := LiveItems(keep, Queries(Contents(hist.ring)));
      TopItemsIffBest(multiset(items), TopItems(multiset(items), limit), limit);
      items := SortItems(items);
      if |items| > limit {
        items := items[..limit];
      }
    }

    method CountAt(query: string, now: int) returns (count: int)
      requires Valid()
      modifies Footprint()
      ensures Valid() && hist == History.ExpireAt(old(hist), now)
      ensures count == Queries(Contents(hist.ring))[query]
      ensures History.AtMost(hist.ring, hist.log, MinBucketId(cfg, now))
      ensures History.Kept(old(hist), MinBucketId(cfg, now)) ==>
                count == History.CountLive(hist.log, MinBucketId(cfg, now), query)
    {
      hide Queries, Actors, Contents, History.Inv, History.Kept;
      History.LookBound(hist, now);
      ExpireAt(now);
      count := Get(totals, query);
    }

    method ActorCountAt(query: string, actorKey: string, now: int) returns (count: int)
      requires Valid()
      modifies Footprint()
      ensures Valid() && hist == History.ExpireAt(old(hist), now)
      ensures count == Actors(Contents(hist.ring))[ActorQuery(query, actorKey)]
      ensures History.Kept(old(hist), MinBucketId(cfg, now)) ==>
                count == History.CountLiveActor(hist.log, MinBucketId(cfg, now), ActorQuery(query, actorKey))
    {
      hide Queries, Actors, Contents, History.Inv, History.Kept;
      History.LookBound(hist, now);
      ExpireAt(now);
      count := Get(actorTotals, ActorQuery(query, actorKey));
    }

    method UniqueQueriesAt(now: int) returns (n: nat)
      requires Valid()
      modifies Footprint()
      ensures Valid() && hist == History.ExpireAt(old(hist), now)
      ensures n == |Support(Queries(Contents(hist.ring)))| <= cfg.maxUniqueQueries
    {
      hide Queries, Contents, History.Inv;
      ExpireAt(now);
      CountsOfSize(Queries(Contents(hist.ring)));
      History.QueriesWithinLimit(hist);
      n := |totals|;
    }

    method ActorCountersAt(now: int) returns (n: nat)
      requires Valid()
      modifies Footprint()
      ensures Valid() && hist == History.ExpireAt(old(hist), now)
      ensures n == |Support(Actors(Contents(hist.ring)))|
    {
      hide Actors, Contents, History.Inv;
      ExpireAt(now);
      CountsOfSize(Actors(Contents(hist.ring)));
      n := |actorTotals|;
    }

    method WindowEventsAt(now: int) returns (total: int)
      requires Valid()
      modifies Footprint()
      ensures Valid() && hist == History.ExpireAt(old(hist), now)
      ensures total == |Contents(hist.ring)|
      ensures History.Kept(old(hist), MinBucketId(cfg, now)) ==>
                total == History.CountAllLive(hist.log, MinBucketId(cfg, now))
    {
      hide Queries, Actors, Contents, History.Inv, History.Kept;
      History.LookBound(hist, now);
      ExpireAt(now);
      total := SumCounts(totals, Queries(Contents(hist.ring)));
      QueriesSize(Contents(hist.ring));
    }
  }

  method MakeBuckets(n: nat) returns (made: seq<Bucket>)
    ensures |made| == n && fresh(set b | b in made)
    ensures forall i :: 0 <= i < n ==> made[i].View() == BucketView(false, 0, map[], map[])
    ensures forall i, j :: 0 <= i < j < n ==> made[i] != made[j]
  {
    made := [];
    for k := 0 to n
      invariant |made| == k
      invariant forall i :: 0 <= i < k ==> fresh(made[i]) && made[i].View() == BucketView(false, 0, map[], map[])
      invariant forall i, j :: 0 <= i < j < k ==> made[i] != made[j]
    {
      var b := new Bucket();
      made := made + [b];
    }
  }

  /** Fills in the defaults, checks, and makes an empty window. */
  method NewWindow(text: Unicode, raw: WindowConfig) returns (w: Window?, err: Option<ConfigError>)
    ensures err == CheckConfig(WithDefaults(raw))
    ensures w != null <==> err == None
    ensures w != null ==> w.Valid() && fresh(w.Footprint()) && w.text == text
    ensures w != null ==> w.cfg == WithDefaults(raw) && w.hist == History.Start(w.cfg)
  {
    var cfg := WithDefaults(raw);
    err := CheckConfig(cfg);
    if err.Some? {
      return null, err;
    }
    w := new Window(text, cfg);
  }

  // ---------- conservation ----------

  /** What the first `k` buckets count for a query, added up. */
  ghost function SumQuery(w: Window, k: nat, q: string): int
    requires k <= w.buckets.Length
    reads w.buckets, w.buckets[..]
  {
    if k == 0 then 0 else SumQuery(w, k - 1, q) + Get(w.buckets[k - 1].counts, q)
  }

  ghost function SumActor(w: Window, k: nat, key: ActorQuery): int
    requires k <= w.buckets.Length
    reads w.buckets, w.buckets[..]
  {
    if k == 0 then 0 else SumActor(w, k - 1, key) + Get(w.buckets[k - 1].actorCounts, key)
  }

  lemma ContentsOfNone(ring: seq<Slot>)
    ensures Queries(Contents(ring[..0])) == multiset{} && Actors(Contents(ring[..0])) == multiset{}
  {
    assert Contents(ring[..0]) == multiset{};
  }

  lemma ContentsOfOneMore(ring: seq<Slot>, k: nat)
    requires 0 < k <= |ring|
    ensures Queries(Contents(ring[..k])) == Queries(Contents(ring[..k - 1])) + Queries(Entries(ring[k - 1]))
    ensures Actors(Contents(ring[..k])) == Actors(Contents(ring[..k - 1])) + Actors(Entries(ring[k - 1]))
  {
    assert ring[..k][..k - 1] == ring[..k - 1];
    CollectUnion(QueryOf, Contents(ring[..k - 1]), Entries(ring[k - 1]));
    CollectUnion(ActorOf, Contents(ring[..k - 1]), Entries(ring[k - 1]));
  }

  lemma {:induction false} SumOfPrefix(w: Window, k: nat, q: string, key: ActorQuery)
    requires w.Valid() && k <= w.buckets.Length
    ensures SumQuery(w, k, q) == Queries(Contents(w.hist.ring[..k]))[q]
    ensures SumActor(w, k, key) == Actors(Contents(w.hist.ring[..k]))[key]
  {
    hide Queries, Actors, Contents;
    var ring := w.hist.ring;
    if k == 0 {
      ContentsOfNone(ring);
    } else {
      SumOfPrefix(w, k - 1, q, key);
      ContentsOfOneMore(ring, k);
      assert w.buckets[k - 1].View() == ViewOf(ring[k - 1]);
      CountsOfGet(Queries(Entries(ring[k - 1])), q);
      CountsOfGet(Actors(Entries(ring[k - 1])), key);
    }
  }

  /** The totals are the pointwise sums of the buckets, and store only positive counts. */
  lemma TotalsAreBucketSums(w: Window, q: string, key: ActorQuery)
    requires w.Valid()
    ensures Get(w.totals, q) == SumQuery(w, w.buckets.Length, q)
    ensures Get(w.actorTotals, key) == SumActor(w, w.buckets.Length, key)
    ensures q in w.totals ==> w.totals[q] > 0
    ensures key in w.actorTotals ==> w.actorTotals[key] > 0
  {
    hide Queries, Actors, Contents, History.Inv;
    SumOfPrefix(w, w.buckets.Length, q, key);
    assert w.hist.ring[..|w.hist.ring|] == w.hist.ring;
    CountsOfGet(Queries(Contents(w.hist.ring)), q);
    CountsOfGet(Actors(Contents(w.hist.ring)), key);
  }

  function KeyQuery(k: ActorQuery): multiset<string> {
    multiset{k.query}
  }

  lemma {:induction false} ActorsWithin(es: multiset<Entry>)
    ensures Collect(KeyQuery, Actors(es)) <= Queries(es)
    decreases |es|
  {
    if es == multiset{} {
      assert Actors(es) == multiset{};
    } else {
      var e :| e in es;
      var rest := es - multiset{e};
      assert es == rest + multiset{e};
      ActorsWithin(rest);
      CollectAdd(QueryOf, rest, e);
      CollectAdd(ActorOf, rest, e);
      if e.actor != "" {
        CollectAdd(KeyQuery, Actors(rest), ActorQuery(e.query, e.actor));
      } else {
        assert Actors(es) == Actors(rest);
      }
    }
  }

  /** What a map counts for all actors of a query, added up. */
  ghost function SumOfActors(m: map<ActorQuery, int>, q: string): int
    decreases |m|
  {
    if m == map[] then 0 else
      var k :| k in m;
      SumOfActors(m - {k}, q) + (if k.query == q then m[k] else 0)
  }

  lemma {:induction false} CollectCopies(k: ActorQuery, n: nat, q: string)
    ensures Collect(KeyQuery, multiset{}[k := n])[q] == if k.query == q then n else 0
  {
    hide Collect;
    var none: multiset<ActorQuery> := multiset{};
    if n == 0 {
      CollectNone(KeyQuery);
      assert none[k := 0] == none;
    } else {
      CollectCopies(k, n - 1, q);
      CollectAdd(KeyQuery, none[k := n - 1], k);
      assert none[k := n] == none[k := n - 1] + multiset{k};
    }
  }

  lemma {:induction false} SumOfActorsIs(b: multiset<ActorQuery>, q: string)
    ensures SumOfActors(CountsOf(b), q) == Collect(KeyQuery, b)[q]
    decreases |b|
  {
    hide Collect;
    var m := CountsOf(b);
    if b == multiset{} {
      CollectNone(KeyQuery);
      assert m == map[];
    } else {
      var some :| some in b;
      assert some in m;
      var k :| k in m && SumOfActors(m, q) == SumOfActors(m - {k}, q) + (if k.query == q then m[k] else 0);
      var none: multiset<ActorQuery> := multiset{};
      SumOfActorsIs(b[k := 0], q);
      assert m - {k} == CountsOf(b[k := 0]);
      CollectUnion(KeyQuery, b[k := 0], none[k := b[k]]);
      assert b[k := 0] + none[k := b[k]] == b;
      CollectCopies(k, b[k], q);
    }
  }

  /** In every bucket, and in the totals, the actor counts of a query add up to at most the query's own count. */
  lemma ActorsWithinQueries(w: Window, i: nat, q: string)
    requires w.Valid() && i < w.buckets.Length
    ensures SumOfActors(w.buckets[i].actorCounts, q) <= Get(w.buckets[i].counts, q)
    ensures SumOfActors(w.actorTotals, q) <= Get(w.totals, q)
  {
    hide Queries, Actors, Contents, History.Inv, SumOfActors, Collect;
    assert w.buckets[i].View() == ViewOf(w.hist.ring[i]);
    BagActorsWithin(Entries(w.hist.ring[i]), q);
    BagActorsWithin(Contents(w.hist.ring), q);
  }

  lemma BagActorsWithin(es: multiset<Entry>, q: string)
    ensures SumOfActors(CountsOf(Actors(es)), q) <= Get(CountsOf(Queries(es)), q)
  {
    hide Queries, Actors, Collect, SumOfActors;
    ActorsWithin(es);
    SumOfActorsIs(Actors(es), q);
    CountsOfGet(Queries(es), q);
    assert Collect(KeyQuery, Actors(es))[q] <= Queries(es)[q];
  }
}
