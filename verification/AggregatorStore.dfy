/** internal/aggregator/aggregator.go: windows sharded by a hash of the query. */
module AggregatorStore {
  import opened Wrappers
  import opened Arithmetic
  import opened Bags
  import opened Text
  import opened Ring
  import opened Selection
  import opened WindowStore
  import History

  const DEFAULT_SHARD_COUNT := 32

  datatype AggregatorError = InvalidShardCount | InvalidWindow(error: ConfigError)

  /** internal/hash/hash.go with the hash left abstract. */
  function Index(hash: string -> nat, value: string, size: int): (i: int)
    ensures size > 0 ==> 0 <= i < size
  {
    if size <= 0 then 0 else Mod(hash(value), size)
  }

  lemma IndexIsRemainder(hash: string -> nat, value: string, size: int)
    ensures Index(hash, value, size) == if size > 0 then hash(value) % size else 0
  {
    if size > 0 { DivIsQuotient(hash(value), size); }
  }

  // ---------- the aggregator as a value ----------

  ghost function BagOf(h: History.History): multiset<string> {
    Queries(Contents(h.ring))
  }

  ghost function BagsOf(hs: seq<History.Reached>): (bags: seq<multiset<string>>)
    ensures |bags| == |hs|
  {
    seq(|hs|, i requires 0 <= i < |hs| => BagOf(hs[i]))
  }

  /** Every shard expired at `now`. */
  ghost function ExpireShards(hs: seq<History.Reached>, now: int): (r: seq<History.Reached>)
    ensures |r| == |hs|
  {
    seq(|hs|, i requires 0 <= i < |hs| => History.Expired(hs[i], now))
  }

  ghost function ExpireFirst(hs: seq<History.Reached>, k: nat, now: int): (r: seq<History.Reached>)
    ensures |r| == |hs|
  {
    seq(|hs|, i requires 0 <= i < |hs| => if i < k then History.Expired(hs[i], now) else hs[i])
  }

  lemma ExpireFirstSteps(hs: seq<History.Reached>, now: int)
    ensures ExpireFirst(hs, 0, now) == hs && ExpireFirst(hs, |hs|, now) == ExpireShards(hs, now)
    ensures forall k :: 0 <= k < |hs| ==>
              ExpireFirst(hs, k + 1, now) == ExpireFirst(hs, k, now)[k := History.Expired(hs[k], now)]
  {
  }

  /** What a reader sees of all shards together at `now`. */
  ghost function SeenAt(hs: seq<History.Reached>, now: int): seq<multiset<string>> {
    BagsOf(ExpireShards(hs, now))
  }

  lemma FreshAccepts(u: Unicode, h: History.Reached, ev: Event, now: int)
    requires h == History.Start(h.cfg) && h.cfg.maxFutureSkew >= 0
    requires ev.occurredAt == now && ev.actorKey == "" && TrimSpace(u, ev.query) != ""
    ensures TrimSpace(u, ev.query) in BagOf(History.Added(u, h, ev, now))
  {
    hide Queries, TrimSpace, Verdict;
    var c := h.cfg;
    var e, before := EntryOf(u, c, ev, now), History.ExpireAt(h, now);
    NoActor(u);
    History.EmptyContents(before.ring);
    LiveSpan(c, now);
    RoomForOne(c, before.ring, e, now);
    assert History.AddAt(u, h, ev, now) == History.Accept(before, e);
    PutContents(before.ring, e);
    History.AddedQueryCount(before.ring, e);
    assert Survivors(before.ring, e) == multiset{};
  }

  lemma NoActor(u: Unicode)
    ensures TrimSpace(u, "") == ""
  {
  }

  /** `AddAt` on the shards: the event goes to the shard its query, as given, hashes to. */
  ghost function Routed(u: Unicode, hash: string -> nat, hs: seq<History.Reached>, ev: Event, now: int)
    : (r: seq<History.Reached>)
    requires |hs| > 0
    ensures |r| == |hs|
  {
    var i := Index(hash, ev.query, |hs|);
    hs[i := History.Added(u, hs[i], ev, now)]
  }

  ghost predicate SameConfig(c: Config, hists: seq<History.Reached>) {
    forall i :: 0 <= i < |hists| ==> hists[i].cfg == c
  }

  /** No shard was handed an event late, and none has a clock beyond `now`. */
  ghost predicate Punctual(hists: seq<History.Reached>, now: int) {
    forall i :: 0 <= i < |hists| ==>
      hists[i].onTime && (hists[i].clock.Some? ==> hists[i].clock.value <= now)
  }

  /** No shard lost an accepted event that is in the window at `now`. */
  ghost predicate AllKept(c: Config, hists: seq<History.Reached>, now: int) {
    forall i :: 0 <= i < |hists| ==> History.Kept(hists[i], MinBucketId(c, now))
  }

  lemma PunctualIsKept(c: Config, hists: seq<History.Reached>, now: int)
    requires Punctual(hists, now) && SameConfig(c, hists)
    ensures AllKept(c, hists, now)
  {
    hide History.Inv, History.Kept, MinBucketId;
    forall i | 0 <= i < |hists| ensures History.Kept(hists[i], MinBucketId(c, now)) {
      History.OnTimeIsKept(hists[i], now);
    }
  }

  lemma AddedLog(u: Unicode, h: History.Reached, ev: Event, now: int)
    ensures var r := History.Added(u, h, ev, now);
            && r.cfg == h.cfg
            && r.log == (if Decision(u, h.cfg, h.ring, ev, now) == NotDropped
                         then h.log + [EntryOf(u, h.cfg, ev, now)] else h.log)
  {
    hide Decision, History.Inv;
  }

  /** A scan leaves the logs alone and moves no clock beyond its own instant. */
  lemma ScanKeeps(hists: seq<History.Reached>, now: int)
    ensures var r := ExpireShards(hists, now);
            forall i :: 0 <= i < |hists| ==>
              && r[i].log == hists[i].log
              && r[i].cfg == hists[i].cfg
              && r[i].onTime == hists[i].onTime
              && r[i].clock == Some(History.Later(hists[i].clock, now))
  {
    hide History.Inv;
  }

  /**
   Routing hashes the query as given, storing trims it: two spellings of one key
   that hash apart end up live in two shards.
   */
  lemma UntrimmedQuerySplits(u: Unicode, hash: string -> nat, h: History.Reached, a: string, b: string, now: int)
    requires h == History.Start(h.cfg) && h.cfg.maxFutureSkew >= 0
    requires TrimSpace(u, a) == TrimSpace(u, b) != "" && Index(hash, a, 2) == 0 && Index(hash, b, 2) == 1
    ensures var first := Routed(u, hash, [h, h], Event(a, now, ""), now);
            !Disjoint(BagsOf(Routed(u, hash, first, Event(b, now, ""), now)))
  {
    hide BagOf, History.Added, History.Inv, TrimSpace, Index;
    FreshAccepts(u, h, Event(a, now, ""), now);
    FreshAccepts(u, h, Event(b, now, ""), now);
    var second := Routed(u, hash, Routed(u, hash, [h, h], Event(a, now, ""), now), Event(b, now, ""), now);
    assert TrimSpace(u, a) in BagsOf(second)[0] && TrimSpace(u, a) in BagsOf(second)[1];
  }

  class Aggregator {
    const text: Unicode
    const hash: string -> nat
    const cfg: Config
    const shards: seq<Window>
    ghost var hists: seq<History.Reached>
    ghost const repr: set<object>

    ghost predicate Separate()
      reads set w | w in shards :: w
    {
      && |shards| > 0
      && (forall i :: 0 <= i < |shards| ==> shards[i].text == text && shards[i].cfg == cfg)
      && (forall i :: 0 <= i < |shards| ==> shards[i].Footprint() <= repr)
      && (forall i, j :: 0 <= i < j < |shards| ==> shards[i].Footprint() !! shards[j].Footprint())
      && this !in repr
    }

    ghost predicate Valid()
      reads this, repr, set w | w in shards :: w, set w | w in shards :: w.buckets
    {
      && Separate()
      && |hists| == |shards|
      && (forall i :: 0 <= i < |shards| ==> shards[i].Valid() && shards[i].hist == hists[i])
    }

    constructor (text: Unicode, hash: string -> nat, cfg: Config, made: seq<Window>,
                 ghost hs: seq<History.Reached>, ghost footprint: set<object>)
      requires 0 < |made| == |hs|
      requires forall i :: 0 <= i < |made| ==> made[i].Valid() && made[i].hist == hs[i]
      requires forall i :: 0 <= i < |made| ==> made[i].text == text && made[i].cfg == cfg
      requires forall i :: 0 <= i < |made| ==> made[i].Footprint() <= footprint
      requires forall i, j :: 0 <= i < j < |made| ==> made[i].Footprint() !! made[j].Footprint()
      ensures Valid() && this.text == text && this.hash == hash && this.cfg == cfg
      ensures shards == made && hists == hs && repr == footprint
    {
      hide Window.Valid, Window.Footprint;
      this.text, this.hash, this.cfg, shards := text, hash, cfg, made;
      hists, repr := hs, footprint;
    }

    function ShardIndex(query: string): (i: nat)
      requires |shards| > 0
      ensures i < |shards|
    {
      Index(hash, query, |shards|)
    }

    method AddAt(event: Event, now: int) returns (result: AddResult)
      requires Valid()
      modifies this, repr
      ensures Valid()
      ensures hists == Routed(text, hash, old(hists), event, now)
      ensures result == Outcome(Decision(text, cfg, old(hists)[ShardIndex(event.query)].ring, event, now))
    {
      hide Window.Valid, Decision, History.AddAt, History.Inv;
      var i := ShardIndex(event.query);
      result := shards[i].AddAt(event, now);
      hists := hists[i := shards[i].hist];
    }

    /** One shard's turn in a scan. */
    method ShardTop(i: nat, limit: int, now: int, keep: Item -> bool) returns (items: seq<Item>)
      requires Valid() && i < |shards| && limit > 0
      modifies this, repr
      ensures Valid() && hists == old(hists)[i := History.Expired(old(hists)[i], now)]
      ensures items == TopItems(ItemsOf(BagOf(hists[i]), keep), limit)
    {
      hide Window.Valid, History.Inv, Queries, Contents, ItemsOf, TopItems;
      items := shards[i].TopFilteredAt(limit, now, keep);
      hists := hists[i := shards[i].hist];
    }

    method TopFilteredAt(limit: int, now: int, keep: Item -> bool) returns (items: seq<Item>)
      requires Valid()
      modifies this, repr
      ensures Valid() && hists == if limit <= 0 then old(hists) else ExpireShards(old(hists), now)
      ensures items == if limit <= 0 then [] else TopItems(ShardItems(SeenAt(old(hists), now), keep), limit)
      ensures limit > 0 ==> Best(ShardItems(SeenAt(old(hists), now), keep), items, limit)
    {
      hide Valid, History.Inv, BagOf, ItemsOf, TopItems, Best;
      if limit <= 0 {
        return [];
      }
      ghost var start := hists;
      ghost var seen := SeenAt(start, now);
      ExpireFirstSteps(start, now);
      HistPerShard();
      var candidates: seq<Item> := [];
      for i := 0 to |shards|
        invariant Valid() && hists == ExpireFirst(start, i, now)
        invariant TopItems(multiset(candidates), limit) == TopItems(ShardItems(seen[..i], keep), limit)
      {
        var top := ShardTop(i, limit, now, keep);
        CandidatesSuffice(multiset(candidates), ShardItems(seen[..i], keep), ItemsOf(seen[i], keep), limit);
        assert seen[..i + 1][..i] == seen[..i];
        candidates := candidates + top;
      }
      assert seen[..|shards|] == seen;
      TopItemsIffBest(ShardItems(seen, keep), TopItems(ShardItems(seen, keep), limit), limit);
      items := SortItems(candidates);
      if |items| > limit {
        items := items[..limit];
      }
    }

    lemma HistPerShard()
      requires Valid()
      ensures |hists| == |shards| > 0
    {
    }

    method CountAt(query: string, now: int) returns (count: int)
      requires Valid()
      modifies this, repr
      ensures Valid()
      ensures hists == old(hists)[ShardIndex(query) := History.Expired(old(hists)[ShardIndex(query)], now)]
      ensures count == BagOf(hists[ShardIndex(query)])[query]
    {
      hide Window.Valid, History.Inv, History.AtMost, Queries, Contents;
      var i := ShardIndex(query);
      count := shards[i].CountAt(query, now);
      hists := hists[i := shards[i].hist];
    }

    method ShardUnique(i: nat, now: int) returns (n: nat)
      requires Valid() && i < |shards|
      modifies this, repr
      ensures Valid() && hists == old(hists)[i := History.Expired(old(hists)[i], now)]
      ensures n == |Support(BagOf(hists[i]))| <= cfg.maxUniqueQueries
    {
      hide Window.Valid, History.Inv, Queries, Contents;
      n := shards[i].UniqueQueriesAt(now);
      hists := hists[i := shards[i].hist];
    }

    /** The live queries of all shards, counted per shard; bounded by the per-shard limit. */
    method UniqueQueriesAt(now: int) returns (total: nat)
      requires Valid()
      modifies this, repr
      ensures Valid() && hists == ExpireShards(old(hists), now)
      ensures total == SumUnique(SeenAt(old(hists), now))
    {
      hide Valid, History.Inv, BagOf;
      ghost var start := hists;
      ghost var seen := SeenAt(start, now);
      ExpireFirstSteps(start, now);
      HistPerShard();
      total := 0;
      for i := 0 to |shards|
        invariant Valid() && hists == ExpireFirst(start, i, now)
        invariant total == SumUnique(seen[..i])
      {
        var n := ShardUnique(i, now);
        assert seen[..i + 1][..i] == seen[..i];
        total := total + n;
      }
      assert seen[..|shards|] == seen;
    }

    method ShardActors(i: nat, now: int) returns (n: nat)
      requires Valid() && i < |shards|
      modifies this, repr
      ensures Valid() && hists == old(hists)[i := History.Expired(old(hists)[i], now)]
      ensures n == ActorCounters(hists[i])
    {
      hide Window.Valid, History.Inv, Actors, Contents;
      n := shards[i].ActorCountersAt(now);
      hists := hists[i := shards[i].hist];
    }

    method ActorCountersAt(now: int) returns (total: nat)
      requires Valid()
      modifies this, repr
      ensures Valid() && hists == ExpireShards(old(hists), now)
      ensures total == SumActorCounters(hists)
    {
      hide Valid, History.Inv, ActorCounters;
      ghost var start := hists;
      ghost var seen := ExpireShards(start, now);
      ExpireFirstSteps(start, now);
      HistPerShard();
      total := 0;
      for i := 0 to |shards|
        invariant Valid() && hists == ExpireFirst(start, i, now)
        invariant total == SumActorCounters(seen[..i])
      {
        var n := ShardActors(i, now);
        assert seen[..i + 1][..i] == seen[..i];
        total := total + n;
      }
      assert seen[..|shards|] == seen;
    }

    method ShardEvents(i: nat, now: int) returns (n: int)
      requires Valid() && i < |shards|
      modifies this, repr
      ensures Valid() && hists == old(hists)[i := History.Expired(old(hists)[i], now)]
      ensures n == |BagOf(hists[i])|
    {
      hide Window.Valid, History.Inv, History.CountAllLive, Queries, Contents;
      n := shards[i].WindowEventsAt(now);
      hists := hists[i := shards[i].hist];
      QueriesSize(Contents(hists[i].ring));
    }

    method WindowEventsAt(now: int) returns (total: int)
      requires Valid()
      modifies this, repr
      ensures Valid() && hists == ExpireShards(old(hists), now)
      ensures total == |Union(SeenAt(old(hists), now))|
    {
      hide Valid, History.Inv, BagOf;
      ghost var start := hists;
      ghost var seen := SeenAt(start, now);
      ExpireFirstSteps(start, now);
      HistPerShard();
      total := 0;
      for i := 0 to |shards|
        invariant Valid() && hists == ExpireFirst(start, i, now)
        invariant total == |Union(seen[..i])|
      {
        var n := ShardEvents(i, now);
        assert seen[..i + 1][..i] == seen[..i];
        total := total + n;
      }
      assert seen[..|shards|] == seen;
    }
  }

  ghost function SumUnique(bags: seq<multiset<string>>): nat {
    if bags == [] then 0 else SumUnique(bags[..|bags| - 1]) + |Support(bags[|bags| - 1])|
  }

  /** The (query, actor) pairs a shard counts. */
  ghost function ActorCounters(h: History.Reached): nat {
    |Support(Actors(Contents(h.ring)))|
  }

  ghost function SumActorCounters(hs: seq<History.Reached>): nat {
    if hs == [] then 0 else SumActorCounters(hs[..|hs| - 1]) + ActorCounters(hs[|hs| - 1])
  }

  /** The gauges of several shards are added up. */
  lemma {:induction false} GaugesAdd(a: seq<History.Reached>, b: seq<History.Reached>, h: History.Reached)
    ensures SumActorCounters(a + b) == SumActorCounters(a) + SumActorCounters(b)
    ensures SumActorCounters([h]) == |Support(Actors(Contents(h.ring)))|
  {
    hide History.Inv, Actors, Contents;
    assert [h][..0] == [] && SumActorCounters([]) == 0;
    if b == [] {
      assert a + b == a;
    } else {
      GaugesAdd(a, b[..|b| - 1], h);
      assert (a + b)[..|a + b| - 1] == a + b[..|b| - 1];
    }
  }

  /** When no query lives in two shards, the shards' numbers of queries add up to the number of different queries. */
  lemma {:induction false} DisjointUnique(bags: seq<multiset<string>>)
    requires Disjoint(bags)
    ensures SumUnique(bags) == |Support(Union(bags))|
  {
    if bags == [] {
      assert Support(Union(bags)) == {};
    } else {
      var front, last := bags[..|bags| - 1], bags[|bags| - 1];
      DisjointUnique(front);
      forall q ensures !(q in Union(front) && q in last) { UnionHas(front, q); }
      assert Support(Union(bags)) == Support(Union(front)) + Support(last);
      assert Support(Union(front)) !! Support(last);
    }
  }

  /** In every reachable state the aggregator tracks at most shards times `MaxUniqueQueries` queries. */
  lemma UniqueQueriesBounded(hs: seq<History.Reached>, limit: nat)
    requires forall i :: 0 <= i < |hs| ==> hs[i].cfg.maxUniqueQueries == limit
    ensures SumUnique(BagsOf(hs)) <= |hs| * limit
  {
    hide History.Inv, SumUnique, BagOf;
    forall i | 0 <= i < |hs| ensures |Support(BagsOf(hs)[i])| <= limit {
      OneShardBounded(hs[i]);
    }
    SumUniqueBounded(BagsOf(hs), limit);
  }

  lemma {:induction false} SumUniqueBounded(bags: seq<multiset<string>>, limit: nat)
    requires forall i :: 0 <= i < |bags| ==> |Support(bags[i])| <= limit
    ensures SumUnique(bags) <= |bags| * limit
  {
    if bags != [] {
      var n := |bags| - 1;
      SumUniqueBounded(bags[..n], limit);
      Distribute(limit, n, 1);
    }
  }

  lemma OneShardBounded(h: History.Reached)
    ensures |Support(BagOf(h))| <= h.cfg.maxUniqueQueries
  {
    hide History.Inv, Queries, Contents;
    History.QueriesWithinLimit(h);
  }

  /** Makes the shards one by one, failing like `NewWindow`. */
  method NewAggregator(text: Unicode, hash: string -> nat, shardCount: int, raw: WindowConfig)
    returns (a: Aggregator?, err: Option<AggregatorError>)
    ensures err == NewError(shardCount, raw)
    ensures err == Some(InvalidShardCount) <==> shardCount < 0
    ensures shardCount >= 0 ==>
              err == match CheckConfig(WithDefaults(raw)) case Some(e) => Some(InvalidWindow(e)) case None => None
    ensures a != null <==> err == None
    ensures a != null ==> fresh(a) && a.Valid() && fresh(a.repr) && a.text == text && a.hash == hash
    ensures a != null ==> a.cfg == WithDefaults(raw)
    ensures a != null ==> |a.shards| == if shardCount == 0 then 32 else shardCount
    ensures a != null ==> forall i :: 0 <= i < |a.hists| ==> a.hists[i] == History.Start(a.cfg)
  {
    hide Window.Valid, Window.Footprint, History.Inv, WithDefaults, CheckConfig;
    var count := if shardCount == 0 then DEFAULT_SHARD_COUNT else shardCount;
    var window := WithDefaults(raw);
    DefaultsTwice(raw);
    if count <= 0 {
      return null, Some(InvalidShardCount);
    }
    var made: seq<Window> := [];
    ghost var hs: seq<History.Reached> := [];
    ghost var footprint: set<object> := {};
    for i := 0 to count
      invariant |made| == |hs| == i
      invariant i > 0 ==> Usable(window) && CheckConfig(window) == None
      invariant fresh(footprint)
      invariant forall j :: 0 <= j < i ==> made[j].Valid() && made[j].hist == hs[j] == History.Start(window)
      invariant forall j :: 0 <= j < i ==> made[j].text == text && made[j].cfg == window
      invariant forall j :: 0 <= j < i ==> made[j].Footprint() <= footprint
      invariant forall j, k :: 0 <= j < k < i ==> made[j].Footprint() !! made[k].Footprint()
    {
      var shard, problem := NewWindow(text, window);
      if problem.Some? {
        return null, Some(InvalidWindow(problem.value));
      }
      made, hs := made + [shard], hs + [shard.hist];
      footprint := footprint + shard.Footprint();
    }
    a := new Aggregator(text, hash, window, made, hs, footprint);
    return a, None;
  }

  function NewError(shardCount: int, raw: WindowConfig): Option<AggregatorError> {
    if shardCount < 0 then Some(InvalidShardCount)
    else match CheckConfig(WithDefaults(raw))
      case Some(e) => Some(InvalidWindow(e))
      case None => None
  }
}
