/** cmd/trendstream/main.go: the snapshot rebuild, and what a reader sees in the end. */
module Refresh {
  import opened Wrappers
  import opened Text
  import opened Ring
  import opened Ordering
  import opened Selection
  import opened AggregatorStore
  import opened SnapshotStore
  import History
  import Ingest
  import Stoplist

  /** The filter a rebuild uses while the stop-list stands at `stop`. */
  function Unlisted(u: Unicode, stop: Stoplist.Snapshot): Item -> bool {
    (item: Item) => !Stoplist.Suppresses(u, stop, item.query)
  }

  /** What the shards show at `now`, ranked after filtering. */
  ghost function Ranking(u: Unicode, hists: seq<History.Reached>, stop: Stoplist.Snapshot, now: int): multiset<Item> {
    ShardItems(SeenAt(hists, now), Unlisted(u, stop))
  }

  /** The gauges a rebuild sets. */
  datatype Stats = Stats(uniqueQueries: int, windowEvents: int, actorCounters: int, stopListRules: int)

  /**
   One tick: rank, build, publish, measure.  The snapshot published serves, for
   every limit, the best unlisted items; the statistics read the same instant.
   */
  method Rebuild(aggregator: Aggregator, stopList: Stoplist.Service, publisher: Publisher, encode: Encoder, now: int)
    returns (published: bool, stats: Stats)
    requires aggregator.Valid() && stopList.text == aggregator.text
    requires publisher !in aggregator.repr && stopList.list !in aggregator.repr
    modifies aggregator, aggregator.repr, publisher
    ensures aggregator.Valid() && aggregator.hists == ExpireShards(old(aggregator.hists), now)
    ensures !published ==> publisher.current == old(publisher.current)
    ensures (forall r :: encode(r).Some?) ==> published
    ensures published ==> Fresh(publisher.current, encode,
                                Ranking(aggregator.text, old(aggregator.hists), old(stopList.list.current), now), now)
    ensures published ==> stats.windowEvents == |Union(SeenAt(old(aggregator.hists), now))|
    ensures published ==> stats.uniqueQueries == SumUnique(SeenAt(old(aggregator.hists), now))
    ensures published ==> stats.actorCounters == SumActorCounters(ExpireShards(old(aggregator.hists), now))
    ensures published ==> stats.stopListRules == |stopList.list.current.exact|
  {
    hide Aggregator.Valid, History.Inv, BagOf, TopItems, ItemsOf, Unlisted, ActorCounters, Stoplist.Listing;
    ghost var start := aggregator.hists;
    var stop := stopList.list.current;
    var items := aggregator.TopFilteredAt(MAX_LIMIT, now, Unlisted(stopList.text, stop));
    var next := New(items, now, DEFAULT_OPTIONS, encode);
    if next.Failure? {
      NewNeedsOnlyEncoding(items, now, encode);
      return false, Stats(0, 0, 0, 0);
    }
    WantedByDefault();
    NewIsFresh(next.value, items, encode, ShardItems(SeenAt(start, now), Unlisted(stopList.text, stop)), now);
    publisher.Publish(next.value);
    ExpireShardsTwice(start, now);
    published := true;
    stats := Measure(aggregator, stopList, now);
  }

  /** Reads the gauges; on shards that were just expired at `now` this changes nothing. */
  method Measure(aggregator: Aggregator, stopList: Stoplist.Service, now: int) returns (stats: Stats)
    requires aggregator.Valid() && ExpireShards(aggregator.hists, now) == aggregator.hists
    requires stopList.list !in aggregator.repr
    modifies aggregator, aggregator.repr
    ensures aggregator.Valid() && aggregator.hists == old(aggregator.hists)
    ensures stats.windowEvents == |Union(SeenAt(old(aggregator.hists), now))|
    ensures stats.uniqueQueries == SumUnique(SeenAt(old(aggregator.hists), now))
    ensures stats.actorCounters == SumActorCounters(old(aggregator.hists))
    ensures stats.stopListRules == |stopList.list.current.exact|
  {
    hide *;
    var unique := aggregator.UniqueQueriesAt(now);
    var events := aggregator.WindowEventsAt(now);
    var actors := aggregator.ActorCountersAt(now);
    var terms := stopList.list.Terms();
    Stoplist.ListingSize(stopList.list.current.exact);
    stats := Stats(unique, events, actors, |terms|);
  }

  /** A snapshot that serves `ranking` at every limit, and whose payloads are those responses encoded. */
  ghost predicate Fresh(s: Snapshot, encode: Encoder, ranking: multiset<Item>, now: int) {
    && (forall n :: 1 <= n <= 100 ==>
          && ResponseFor(s, n) == Success(Response(300, now, TopItems(ranking, n)))
          && Best(ranking, TopItems(ranking, n), n))
    && (forall n :: PrecomputedJSON(s, n).Some? <==> n in {10, 20, 50, 100})
    && (forall n :: n in {10, 20, 50, 100} ==>
          encode(Response(300, now, TopItems(ranking, n))) == PrecomputedJSON(s, n))
  }

  /** With the default options a snapshot fails only if encoding does. */
  lemma NewNeedsOnlyEncoding(items: seq<Item>, now: int, encode: Encoder)
    ensures WithDefaultOptions(DEFAULT_OPTIONS) == DEFAULT_OPTIONS
    ensures (forall r :: encode(r).Some?) ==> Buildable(items, now, DEFAULT_OPTIONS, encode)
  {
    BuildableIffServable(items, now, DEFAULT_OPTIONS, encode);
  }

  lemma NewIsFresh(s: Snapshot, items: seq<Item>, encode: Encoder, ranking: multiset<Item>, now: int)
    requires items == TopItems(ranking, MAX_LIMIT)
    requires s.generatedAt == now && s.windowSeconds == 300 && s.items == Take(items, 100)
    requires forall l :: l in s.jsonByLimit <==> l in {10, 20, 50, 100}
    requires forall l :: l in s.jsonByLimit ==>
                           encode(Response(300, now, Take(items, l))) == Some(s.jsonByLimit[l])
    ensures Fresh(s, encode, ranking, now)
  {
    hide TopItems, Best, Take;
    TopOfFewer(ranking, MAX_LIMIT, MAX_LIMIT);
    forall n | 1 <= n <= 100
      ensures ResponseFor(s, n) == Success(Response(300, now, TopItems(ranking, n)))
      ensures Take(items, n) == TopItems(ranking, n) && Best(ranking, TopItems(ranking, n), n)
    {
      ResponseRanks(s, ranking, n);
      TopOfFewer(ranking, n, MAX_LIMIT);
      TopItemsIffBest(ranking, TopItems(ranking, n), n);
    }
  }

  lemma WantedByDefault()
    ensures forall l :: 0 < l <= DEFAULT_OPTIONS.maxLimit && l in DEFAULT_OPTIONS.precomputedLimits <==>
              l in {10, 20, 50, 100}
  {
  }

  lemma ExpireShardsTwice(hists: seq<History.Reached>, now: int)
    ensures ExpireShards(ExpireShards(hists, now), now) == ExpireShards(hists, now)
    ensures SeenAt(ExpireShards(hists, now), now) == SeenAt(hists, now)
  {
    hide History.Inv, History.ExpireAt;
    forall i | 0 <= i < |hists|
      ensures History.Expired(History.Expired(hists[i], now), now) == History.Expired(hists[i], now)
    {
      History.LookTwice(hists[i], now);
    }
  }

  // ---------- end to end ----------

  /** No item that a fresh snapshot serves is on the stop-list. */
  lemma NothingListedIsServed(u: Unicode, hists: seq<History.Reached>, stop: Stoplist.Snapshot, now: int,
                              n: nat, i: nat)
    requires i < |TopItems(Ranking(u, hists, stop, now), n)|
    ensures !Stoplist.Suppresses(u, stop, TopItems(Ranking(u, hists, stop, now), n)[i].query)
  {
    hide Stoplist.Suppresses, SeenAt, ItemsOf;
    var ranking := Ranking(u, hists, stop, now);
    var x := TopItems(ranking, n)[i];
    TopItemsAreItems(ranking, n, i);
    ShardItemsKept(SeenAt(hists, now), Unlisted(u, stop), x);
  }

  lemma TopItemsAreItems(items: multiset<Item>, n: nat, i: nat)
    requires i < |TopItems(items, n)|
    ensures TopItems(items, n)[i] in items
  {
    ItemBeforeIsStrictTotal();
    var all := Ranked(ItemBefore, items);
    assert TopItems(items, n)[i] == all[i];
    assert all[i] in multiset(all);
  }

  lemma {:induction false} ShardItemsKept(bags: seq<multiset<string>>, keep: Item -> bool, x: Item)
    requires x in ShardItems(bags, keep)
    ensures keep(x)
  {
    var n := |bags| - 1;
    ItemsOfMember(bags[n], keep, x);
    if x !in ItemsOf(bags[n], keep) { ShardItemsKept(bags[..n], keep, x); }
  }

  /**
   The end-to-end statement.  After any run of events whose clock does not go back,
   what a rebuild at `now` serves at limit `n` is the ranking of the accepted events
   in the window, by query, filtered by the stop-list and cut to `n`.
   */
  lemma ServedIsAcceptedRanking(s: Ingest.Setup, c: Config, shards: nat, inputs: seq<Ingest.Input>,
                                stop: Stoplist.Snapshot, now: int, n: nat)
    requires shards > 0
    requires Ingest.OrderedInputs(inputs) && (inputs != [] ==> inputs[|inputs| - 1].now <= now)
    ensures var p := Ingest.Run(s, c, shards, inputs);
            TopItems(Ranking(s.text, p.hists, stop, now), n) ==
            TopItems(ItemsOf(Ingest.AcceptedInWindow(c, p.log, now), Unlisted(s.text, stop)), n)
  {
    hide History.Inv, Ingest.Run, SeenAt, ItemsOf, TopItems, Unlisted;
    var p := Ingest.Run(s, c, shards, inputs);
    Ingest.SeenIsAccepted(s, c, shards, inputs, now);
    ShardsActAsOne(SeenAt(p.hists, now), Unlisted(s.text, stop));
  }

  /** For any clock, in any run in which no shard lost an event of the window, the same is served. */
  lemma ServedUnlessLost(s: Ingest.Setup, c: Config, shards: nat, inputs: seq<Ingest.Input>,
                         stop: Stoplist.Snapshot, now: int, n: nat)
    requires shards > 0 && Ingest.NothingLost(s, c, shards, inputs, now)
    ensures var p := Ingest.Run(s, c, shards, inputs);
            TopItems(Ranking(s.text, p.hists, stop, now), n) ==
            TopItems(ItemsOf(Ingest.AcceptedInWindow(c, p.log, now), Unlisted(s.text, stop)), n)
  {
    hide History.Inv, Ingest.Run, SeenAt, ItemsOf, TopItems, Unlisted, AllKept, Union, Ingest.AcceptedInWindow;
    hide Ingest.NothingLost, Disjoint;
    var p := Ingest.Run(s, c, shards, inputs);
    Ingest.AllKeptIffNothingLost(s, c, shards, inputs, now);
    Ingest.SeenIsAcceptedIffKept(s, c, shards, inputs, now);
    ShardsActAsOne(SeenAt(p.hists, now), Unlisted(s.text, stop));
  }

  /** Whatever the clock does, no count that is served exceeds the accepted events for its query in the window. */
  lemma ServedNeverOvercounts(s: Ingest.Setup, c: Config, shards: nat, inputs: seq<Ingest.Input>,
                              stop: Stoplist.Snapshot, now: int, n: nat, i: nat)
    requires shards > 0
    requires i < |TopItems(Ranking(s.text, Ingest.Run(s, c, shards, inputs).hists, stop, now), n)|
    ensures var p := Ingest.Run(s, c, shards, inputs);
            var item := TopItems(Ranking(s.text, p.hists, stop, now), n)[i];
            0 < item.count <= History.CountLive(p.log, MinBucketId(c, now), item.query)
  {
    hide History.Inv, Ingest.Run, SeenAt, ItemsOf, TopItems, Unlisted, AllKept, Union, MinBucketId, History.CountLive;
    hide History.Live, Queries, Disjoint;
    var p := Ingest.Run(s, c, shards, inputs);
    var seen := SeenAt(p.hists, now);
    var x := TopItems(Ranking(s.text, p.hists, stop, now), n)[i];
    Ingest.SeenIsAcceptedIffKept(s, c, shards, inputs, now);
    ShardsActAsOne(seen, Unlisted(s.text, stop));
    TopItemsAreItems(Ranking(s.text, p.hists, stop, now), n, i);
    ItemsOfMember(Union(seen), Unlisted(s.text, stop), x);
    History.LiveQueryCount(p.log, MinBucketId(c, now), x.query);
    assert Union(seen)[x.query] <= Ingest.AcceptedInWindow(c, p.log, now)[x.query];
  }

  // ---------- filterStopListedItems ----------

  function FilterItems(keep: Item -> bool, items: seq<Item>): (r: seq<Item>)
    ensures |r| <= |items|
  {
    if items == [] then [] else
      var front := FilterItems(keep, items[..|items| - 1]);
      if keep(items[|items| - 1]) then front + [items[|items| - 1]] else front
  }

  lemma FilterSnoc(keep: Item -> bool, items: seq<Item>, i: nat)
    requires i < |items|
    ensures FilterItems(keep, items[..i + 1]) ==
            if keep(items[i]) then FilterItems(keep, items[..i]) + [items[i]] else FilterItems(keep, items[..i])
  {
    assert items[..i + 1][..i] == items[..i];
  }

  /** What filtering is, item by item. */
  lemma {:induction false} FilterSplit(keep: Item -> bool, a: seq<Item>, b: seq<Item>, x: Item)
    ensures FilterItems(keep, a + b) == FilterItems(keep, a) + FilterItems(keep, b)
    ensures FilterItems(keep, [x]) == if keep(x) then [x] else []
  {
    assert [x][..0] == [] && FilterItems(keep, []) == [];
    if b == [] {
      assert a + b == a;
    } else {
      FilterSplit(keep, a, b[..|b| - 1], x);
      assert (a + b)[..|a + b| - 1] == a + b[..|b| - 1];
    }
  }

  /** Compacts the slice in place over its own prefix; the cells behind the result keep what they held. */
  method FilterStopListedItems(items: array<Item>, stopList: Stoplist.Service?) returns (n: nat)
    modifies items
    ensures n <= items.Length
    ensures items[..n] == if stopList == null then old(items[..])
                          else FilterItems(Unlisted(stopList.text, stopList.list.current), old(items[..]))
    ensures items[n..] == old(items[n..])
  {
    hide FilterItems, Stoplist.Suppresses;
    ghost var was := items[..];
    assert was[..items.Length] == was;
    if items.Length == 0 || stopList == null {
      if stopList != null { FilterNothing(Unlisted(stopList.text, stopList.list.current)); }
      return items.Length;
    }
    ghost var keep := Unlisted(stopList.text, stopList.list.current);
    FilterNothing(keep);
    n := 0;
    for i := 0 to items.Length
      invariant n <= i
      invariant items[..n] == FilterItems(keep, was[..i])
      invariant forall j :: n <= j < items.Length ==> items[j] == was[j]
    {
      var item := items[i];
      FilterSnoc(keep, was, i);
      if stopList.Contains(item.query) {
        continue;
      }
      items[n] := item;
      n := n + 1;
    }
  }

  lemma FilterNothing(keep: Item -> bool)
    ensures FilterItems(keep, []) == []
  {
  }

  // ---------- why filtering comes first ----------

  lemma {:induction false} FilterSorted(keep: Item -> bool, items: seq<Item>)
    requires SortedBy(ItemBefore, items)
    ensures SortedBy(ItemBefore, FilterItems(keep, items))
    ensures forall x :: multiset(FilterItems(keep, items))[x] == if keep(x) then multiset(items)[x] else 0
  {
    if items != [] {
      var front, last := items[..|items| - 1], items[|items| - 1];
      FilterSorted(keep, front);
      assert items == front + [last];
      var f := FilterItems(keep, front);
      forall i | 0 <= i < |f| ensures !ItemBefore(last, f[i]) {
        assert f[i] in multiset(f);
        assert f[i] in multiset(front);
      }
    }
  }

  lemma {:induction false} FilterPrefix(keep: Item -> bool, items: seq<Item>, k: nat)
    requires k <= |items|
    ensures FilterItems(keep, items[..k]) <= FilterItems(keep, items)
    decreases |items| - k
  {
    if k < |items| {
      FilterPrefix(keep, items, k + 1);
      assert items[..k + 1][..k] == items[..k];
    } else {
      assert items[..k] == items;
    }
  }

  /** Filtering a ranking is ranking what the filter keeps. */
  lemma FilterRanked(bag: multiset<string>, keep: Item -> bool)
    requires StrictTotal(ItemBefore)
    ensures FilterItems(keep, Ranked(ItemBefore, ItemsOf(bag, Any))) == Ranked(ItemBefore, ItemsOf(bag, keep))
  {
    hide Ranked, ItemsOf, FilterItems;
    var ranked := Ranked(ItemBefore, ItemsOf(bag, Any));
    FilterSorted(keep, ranked);
    var filtered := FilterItems(keep, ranked);
    forall x ensures multiset(filtered)[x] == ItemsOf(bag, keep)[x] {
      ItemsOfMember(bag, keep, x);
      ItemsOfMember(bag, Any, x);
    }
    assert multiset(filtered) == ItemsOf(bag, keep);
    RankedUnique(ItemBefore, filtered);
  }

  /** Filtering a finished list yields only a prefix of what filtering before the cut yields. */
  lemma FilterAfterCutIsPrefix(bag: multiset<string>, keep: Item -> bool, k: nat)
    ensures FilterItems(keep, TopItems(ItemsOf(bag, Any), k)) <= TopItems(ItemsOf(bag, keep), k)
  {
    hide Ranked, ItemsOf, FilterItems;
    ItemBeforeIsStrictTotal();
    var ranked := Ranked(ItemBefore, ItemsOf(bag, Any));
    var cut := Take(ranked, k);
    FilterRanked(bag, keep);
    FilterPrefix(keep, ranked, |cut|);
    assert ranked[..|cut|] == cut;
  }
}
