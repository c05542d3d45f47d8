/** The ranking of trend items, and how the rankings of the shards combine. */
module Selection {
  import opened Ordering

  datatype Item = Item(query: string, count: int)

  /** Higher counts first, equal counts by query. */
  predicate ItemBefore(a: Item, b: Item) {
    if a.count == b.count then StringLess(a.query, b.query) else a.count > b.count
  }

  /** The order of the ranking in counts and code points. */
  ghost predicate Outranks(a: Item, b: Item) {
    a.count > b.count || (a.count == b.count && CodePointsBefore(a.query, b.query))
  }

  lemma ItemBeforeIsStrictTotal()
    ensures StrictTotal(ItemBefore)
    ensures forall a, b :: ItemBefore(a, b) <==> Outranks(a, b)
  {
    StringLessIsStrictTotal();
    forall a, b ensures a == b || ItemBefore(a, b) || ItemBefore(b, a) {
      assert a.query == b.query || StringLess(a.query, b.query) || StringLess(b.query, a.query);
    }
    forall a, b ensures ItemBefore(a, b) <==> Outranks(a, b) {
      StringLessIsCodePointOrder(a.query, b.query);
    }
  }

  /** The filter of an unfiltered request. */
  predicate Any(x: Item) {
    true
  }

  /** The items of a bag of queries that a filter lets through. */
  ghost function ItemsOf(bag: multiset<string>, keep: Item -> bool): multiset<Item> {
    multiset(set q | q in bag && keep(Item(q, bag[q])) :: Item(q, bag[q]))
  }

  lemma ItemsOfMember(bag: multiset<string>, keep: Item -> bool, x: Item)
    ensures ItemsOf(bag, keep)[x] == if x.query in bag && x.count == bag[x.query] && keep(x) then 1 else 0
  {
    assert x.query in bag && x.count == bag[x.query] ==> x == Item(x.query, bag[x.query]);
  }

  /** The `k` best of a bag of items. */
  ghost function TopItems(items: multiset<Item>, k: nat): seq<Item> {
    ItemBeforeIsStrictTotal();
    Top(ItemBefore, items, k)
  }

  /**
   `top` holds the best `k` of the items: higher counts first, equal counts in
   code-point order, and nothing that is left out comes before anything listed.
   */
  ghost predicate Best(items: multiset<Item>, top: seq<Item>, k: nat) {
    && |top| == (if k < |items| then k else |items|)
    && multiset(top) <= items
    && (forall i, j :: 0 <= i < j < |top| ==> top[i] == top[j] || Outranks(top[i], top[j]))
    && (forall x, i :: x in items - multiset(top) && 0 <= i < |top| ==> top[i] == x || Outranks(top[i], x))
  }

  lemma TopItemsAreBest(items: multiset<Item>, k: nat)
    ensures Best(items, TopItems(items, k), k)
  {
    hide ItemBefore, Outranks, Ranked, Take;
    ItemBeforeIsStrictTotal();
    TopIsBest(ItemBefore, items, k);
  }

  lemma BestThenRest(items: multiset<Item>, top: seq<Item>, rest: seq<Item>, k: nat)
    requires Best(items, top, k) && SortedBy(ItemBefore, rest) && multiset(rest) == items - multiset(top)
    ensures SortedBy(ItemBefore, top + rest)
  {
    hide ItemBefore, Outranks;
    ItemBeforeIsStrictTotal();
    var all := top + rest;
    forall i, j | 0 <= i < j < |all| ensures !ItemBefore(all[j], all[i]) {
      if i < |top| <= j { assert rest[j - |top|] in multiset(rest); }
    }
  }

  /** A list is the best `k` exactly when it is what sorting and cutting gives. */
  lemma TopItemsIffBest(items: multiset<Item>, top: seq<Item>, k: nat)
    ensures Best(items, top, k) <==> top == TopItems(items, k)
  {
    hide ItemBefore, Outranks, Ranked, SortedBy;
    TopItemsAreBest(items, k);
    if Best(items, top, k) {
      ItemBeforeIsStrictTotal();
      var rest := Ranked(ItemBefore, items - multiset(top));
      BestThenRest(items, top, rest, k);
      assert multiset(top + rest) == items;
      RankedUnique(ItemBefore, top + rest);
      assert |rest| == |items| - |top| by { assert |multiset(rest)| == |rest|; }
    }
  }

  /** Sorting all items and cutting the list gives the `k` best, in whatever order they were listed. */
  method SortItems(items: seq<Item>) returns (sorted: seq<Item>)
    ensures forall k: nat :: Take(sorted, k) == TopItems(multiset(items), k)
  {
    ItemBeforeIsStrictTotal();
    sorted := Sort(ItemBefore, items);
  }

  /** The item list cut from the `k` best is the shorter best list. */
  lemma TopOfFewer(items: multiset<Item>, k: nat, n: nat)
    requires k <= n
    ensures Take(TopItems(items, n), k) == TopItems(items, k)
  {
    ItemBeforeIsStrictTotal();
    TakeTake(Ranked(ItemBefore, items), n, k);
  }

  // ---------- shards ----------

  /** The items of every shard, each with the count its own shard has. */
  ghost function ShardItems(bags: seq<multiset<string>>, keep: Item -> bool): multiset<Item> {
    if bags == [] then multiset{}
    else ShardItems(bags[..|bags| - 1], keep) + ItemsOf(bags[|bags| - 1], keep)
  }

  /** All queries of all shards together. */
  ghost function Union(bags: seq<multiset<string>>): multiset<string> {
    if bags == [] then multiset{} else Union(bags[..|bags| - 1]) + bags[|bags| - 1]
  }

  ghost predicate Disjoint(bags: seq<multiset<string>>) {
    forall i, j, q :: 0 <= i < j < |bags| && q in bags[i] ==> q !in bags[j]
  }

  lemma TopItemsAbsorb(a: multiset<Item>, b: multiset<Item>, k: nat)
    ensures TopItems(multiset(TopItems(a, k)) + b, k) == TopItems(a + b, k)
  {
    ItemBeforeIsStrictTotal();
    TopAbsorbs(ItemBefore, a, b, k);
  }

  /**
   Merging one shard's best into the candidates loses nothing: if the candidates so
   far rank like `seen`, then with the shard's `k` best they rank like `seen` and
   all of the shard's items.
   */
  lemma CandidatesSuffice(candidates: multiset<Item>, seen: multiset<Item>, shard: multiset<Item>, k: nat)
    requires TopItems(candidates, k) == TopItems(seen, k)
    ensures TopItems(candidates + multiset(TopItems(shard, k)), k) == TopItems(seen + shard, k)
  {
    hide TopItems;
    var cut := multiset(TopItems(shard, k));
    TopItemsAbsorb(candidates, cut, k);
    TopItemsAbsorb(seen, cut, k);
    assert seen + cut == cut + seen && shard + seen == seen + shard;
    TopItemsAbsorb(shard, seen, k);
  }

  lemma {:induction false} UnionHas(bags: seq<multiset<string>>, q: string)
    ensures q in Union(bags) <==> exists i :: 0 <= i < |bags| && q in bags[i]
  {
    if bags != [] { UnionHas(bags[..|bags| - 1], q); }
  }

  lemma {:induction false} DisjointItemsAt(bags: seq<multiset<string>>, keep: Item -> bool, x: Item)
    requires Disjoint(bags)
    ensures ShardItems(bags, keep)[x] == ItemsOf(Union(bags), keep)[x]
  {
    ItemsOfMember(Union(bags), keep, x);
    if bags != [] {
      var front, last := bags[..|bags| - 1], bags[|bags| - 1];
      DisjointItemsAt(front, keep, x);
      ItemsOfMember(Union(front), keep, x);
      ItemsOfMember(last, keep, x);
      UnionHas(front, x.query);
    }
  }

  lemma {:induction false} PartsOfUnion(bags: seq<multiset<string>>, i: nat, j: nat, q: string, keep: Item -> bool)
    requires i < j < |bags|
    ensures bags[j][q] <= Union(bags)[q] && bags[i][q] + bags[j][q] <= Union(bags)[q]
    ensures ItemsOf(bags[i], keep) <= ShardItems(bags, keep)
  {
    var n := |bags| - 1;
    if j < n {
      PartsOfUnion(bags[..n], i, j, q, keep);
    } else {
      OnePartOfUnion(bags[..n], i, q, keep);
    }
  }

  lemma {:induction false} OnePartOfUnion(bags: seq<multiset<string>>, i: nat, q: string, keep: Item -> bool)
    requires i < |bags|
    ensures bags[i][q] <= Union(bags)[q] && ItemsOf(bags[i], keep) <= ShardItems(bags, keep)
  {
    var n := |bags| - 1;
    if i < n { OnePartOfUnion(bags[..n], i, q, keep); }
  }

  /** A query of one of several disjoint shards has that shard's count overall. */
  lemma {:induction false} DisjointUnionAt(bags: seq<multiset<string>>, i: nat, q: string)
    requires Disjoint(bags) && i < |bags| && q in bags[i]
    ensures Union(bags)[q] == bags[i][q]
  {
    var n := |bags| - 1;
    UnionHas(bags[..n], q);
    if i < n { DisjointUnionAt(bags[..n], i, q); }
  }

  /** When no query lives in two shards, the shards' items are those of one undivided window, under any filter. */
  lemma ShardsActAsOne(bags: seq<multiset<string>>, keep: Item -> bool)
    requires Disjoint(bags)
    ensures ShardItems(bags, keep) == ItemsOf(Union(bags), keep)
  {
    forall x ensures ShardItems(bags, keep)[x] == ItemsOf(Union(bags), keep)[x] {
      DisjointItemsAt(bags, keep, x);
    }
  }

  /** And only then: a query split over two shards is listed with a partial count. */
  lemma ShardsActAsOneIffDisjoint(bags: seq<multiset<string>>)
    ensures ShardItems(bags, Any) == ItemsOf(Union(bags), Any) <==> Disjoint(bags)
  {
    if Disjoint(bags) {
      ShardsActAsOne(bags, Any);
    } else {
      var i, j, q :| 0 <= i < j < |bags| && q in bags[i] && q in bags[j];
      SplitQueryShows(bags, i, j, q);
    }
  }

  lemma SplitQueryShows(bags: seq<multiset<string>>, i: nat, j: nat, q: string)
    requires i < j < |bags| && q in bags[i] && q in bags[j]
    ensures ShardItems(bags, Any) != ItemsOf(Union(bags), Any)
  {
    var x := Item(q, bags[i][q]);
    PartsOfUnion(bags, i, j, q, Any);
    ItemsOfMember(bags[i], Any, x);
    ItemsOfMember(Union(bags), Any, x);
    assert ItemsOf(bags[i], Any)[x] <= ShardItems(bags, Any)[x];
  }
}
