/**
 From the events as they arrive to what a reader is served, without the state in
 between: every count, every reason and every place in the list is read off the
 accepted events, their canonical queries and the instants they were accepted at.
 */
module EndToEnd {
  import opened Wrappers
  import opened Bags
  import opened Contract
  import opened Text
  import opened Normalize
  import opened Privacy
  import opened Ring
  import opened Selection
  import opened AggregatorStore
  import opened Ingest
  import History
  import Ledger
  import Refresh
  import Stoplist

  /** An accepted event, with the instant and the stop-list it was accepted under. */
  datatype Acceptance = Acceptance(event: SearchEvent, now: int, stop: Option<Stoplist.Snapshot>)

  ghost function Acceptances(s: Setup, c: Config, shards: nat, inputs: seq<Input>): seq<Acceptance>
    requires shards > 0
  {
    if inputs == [] then [] else
      var front, input := inputs[..|inputs| - 1], inputs[|inputs| - 1];
      if input.Arrive? && Answer(s, Run(s, c, shards, front).hists, input).accepted
      then Acceptances(s, c, shards, front) + [Acceptance(input.event, input.now, input.stop)]
      else Acceptances(s, c, shards, front)
  }

  /** The bucket an acceptance is counted in. */
  function BucketOf(c: Config, a: Acceptance): int {
    Ledger.BucketAt(c, if a.event.occurredAt.Some? && a.event.occurredAt.value <= a.now
                       then a.event.occurredAt.value else a.now)
  }

  predicate CountsFor(u: Unicode, c: Config, floor: int, q: string, a: Acceptance) {
    BucketOf(c, a) >= floor && Normalized(u, a.event.query) == Some(q)
  }

  /** How many events with the canonical query `q` were accepted into the buckets at or above `floor`. */
  function Accepted(u: Unicode, c: Config, taken: seq<Acceptance>, floor: int, q: string): nat {
    if taken == [] then 0 else
      Accepted(u, c, taken[..|taken| - 1], floor, q) +
      if CountsFor(u, c, floor, q, taken[|taken| - 1]) then 1 else 0
  }

  /** How many were accepted there in all. */
  function InWindow(c: Config, taken: seq<Acceptance>, floor: int): nat {
    if taken == [] then 0 else
      InWindow(c, taken[..|taken| - 1], floor) + if BucketOf(c, taken[|taken| - 1]) >= floor then 1 else 0
  }

  /** The different canonical queries accepted there. */
  function AcceptedQueries(u: Unicode, c: Config, taken: seq<Acceptance>, floor: int): set<string> {
    set i | 0 <= i < |taken| && BucketOf(c, taken[i]) >= floor && Normalized(u, taken[i].event.query).Some? ::
      Normalized(u, taken[i].event.query).value
  }

  // ---------- the log is what was accepted ----------

  /** The entry logged for an acceptance. */
  predicate Stands(u: Unicode, c: Config, e: Entry, a: Acceptance) {
    && Normalized(u, a.event.query) == Some(e.query)
    && e.actor == TrimSpace(u, ActorKey(a.event))
    && e.bucket == BucketOf(c, a)
  }

  ghost predicate StandsAll(u: Unicode, c: Config, log: seq<Entry>, taken: seq<Acceptance>) {
    |log| == |taken| && forall i :: 0 <= i < |taken| ==> Stands(u, c, log[i], taken[i])
  }

  /** What every accepted event was: well formed, not a bot's, insensitive and not on the stop-list of the moment. */
  predicate Fit(s: Setup, a: Acceptance) {
    && WellFormed(s.text, a.event, a.now)
    && !a.event.isBot
    && var n := Normalized(s.text, a.event.query);
       n.Some? && !Sensitive(s.text, s.rules, n.value) &&
       !(a.stop.Some? && Stoplist.Suppresses(s.text, a.stop.value, n.value))
  }

  lemma AdmittedIsFit(s: Setup, input: Input)
    requires input.Arrive? && Screen(s, input.event, input.now, input.stop).Admitted?
    ensures Fit(s, Acceptance(input.event, input.now, input.stop))
    ensures Normalized(s.text, input.event.query) == Some(Screen(s, input.event, input.now, input.stop).query)
  {
    hide TrimSpace, Normalized, Sensitive, Stoplist.Suppresses, ValidateAt;
    ValidMeans(s.text, input.event, input.now);
  }

  lemma AdmittedStands(s: Setup, c: Config, input: Input)
    requires input.Arrive? && Screen(s, input.event, input.now, input.stop).Admitted?
    ensures Stands(s.text, c, EntryOf(s.text, c, AdmittedEvent(s, input), input.now),
                   Acceptance(input.event, input.now, input.stop))
  {
    hide TrimSpace, Normalized, Screen, Ledger.BucketAt, EntryOf;
    AdmittedIsFit(s, input);
    AdmittedIsPresentable(s, input.event, input.now, input.stop);
    Ledger.EntryIsBooked(s.text, c, AdmittedEvent(s, input), input.now);
  }

  lemma StepLogs(s: Setup, c: Config, p: Pipeline, input: Input)
    requires |p.hists| > 0 && SameConfig(c, p.hists)
    ensures !(input.Arrive? && Answer(s, p.hists, input).accepted) ==> Step(s, p, input).log == p.log
    ensures input.Arrive? && Answer(s, p.hists, input).accepted ==>
              var a := Acceptance(input.event, input.now, input.stop);
              Fit(s, a) && exists e :: Step(s, p, input).log == p.log + [e] && Stands(s.text, c, e, a)
  {
    hide Screen, Decision, Stands, Fit, Routed, History.Inv, BagOf, EntryOf, Index, ExpireShards;
    if input.Arrive? && Screen(s, input.event, input.now, input.stop).Admitted? {
      AnswerMeans(s, p.hists, input);
      AdmittedStands(s, c, input);
      AdmittedIsFit(s, input);
    } else if input.Arrive? {
      RefusedAnswer(s, input.event, input.now, input.stop);
    }
  }

  lemma RefusedAnswer(s: Setup, e: SearchEvent, now: int, stop: Option<Stoplist.Snapshot>)
    ensures Screen(s, e, now, stop).Refused? ==> !Screen(s, e, now, stop).result.accepted
  {
    hide ValidateAt, Normalized, Sensitive, Stoplist.Suppresses;
  }

  /** An event refused before the aggregator touches nothing; a dropped one at most expires its own shard. */
  lemma NotAcceptedChangesLittle(s: Setup, p: Pipeline, input: Input)
    requires |p.hists| > 0 && input.Arrive? && !Answer(s, p.hists, input).accepted
    ensures var r := Step(s, p, input);
            && r.log == p.log
            && (r.hists == p.hists ||
                exists i :: 0 <= i < |p.hists| && r.hists == p.hists[i := History.Expired(p.hists[i], input.now)])
    ensures Screen(s, input.event, input.now, input.stop).Refused? ==> Step(s, p, input) == p
  {
    hide Screen, Decision, History.Inv, BagOf, Index, History.AddAt, History.ExpireAt;
    if Screen(s, input.event, input.now, input.stop).Admitted? {
      AnswerMeans(s, p.hists, input);
      var ev := AdmittedEvent(s, input);
      var i := ShardOf(s, ev.query, |p.hists|);
      History.RejectionOnlyExpires(s.text, p.hists[i], ev, input.now);
      assert p.hists[i := p.hists[i]] == p.hists;
    }
  }

  /** Each entry of the log stands for one accepted event, in order, and each of these was fit to be counted. */
  lemma {:induction false} LogIsAcceptances(s: Setup, c: Config, shards: nat, inputs: seq<Input>)
    requires shards > 0
    ensures StandsAll(s.text, c, Run(s, c, shards, inputs).log, Acceptances(s, c, shards, inputs))
    ensures forall a :: a in Acceptances(s, c, shards, inputs) ==> Fit(s, a)
  {
    hide Step, Stands, Fit, Answer, History.Inv, SameConfig, Split;
    if inputs != [] {
      var front, input := inputs[..|inputs| - 1], inputs[|inputs| - 1];
      LogIsAcceptances(s, c, shards, front);
      RunSplits(s, c, shards, front);
      StepLogs(s, c, Run(s, c, shards, front), input);
    }
  }

  lemma {:induction false} StandsCounts(u: Unicode, c: Config, log: seq<Entry>, taken: seq<Acceptance>,
                                        floor: int, q: string)
    requires StandsAll(u, c, log, taken)
    ensures History.CountLive(log, floor, q) == Accepted(u, c, taken, floor, q)
    ensures History.CountAllLive(log, floor) == InWindow(c, taken, floor)
    ensures History.CountLive(log, floor, q) > 0 <==> q in AcceptedQueries(u, c, taken, floor)
  {
    hide Normalized, BucketOf, TrimSpace;
    if taken != [] {
      var n := |taken| - 1;
      StandsCounts(u, c, log[..n], taken[..n], floor, q);
      assert Stands(u, c, log[n], taken[n]);
      QueriesSnoc(u, c, taken, floor, q);
    }
  }

  lemma QueriesSnoc(u: Unicode, c: Config, taken: seq<Acceptance>, floor: int, q: string)
    requires taken != []
    ensures var n := |taken| - 1;
            q in AcceptedQueries(u, c, taken, floor) <==>
              q in AcceptedQueries(u, c, taken[..n], floor) || CountsFor(u, c, floor, q, taken[n])
  {
    hide Normalized, BucketOf;
    var n := |taken| - 1;
    if q in AcceptedQueries(u, c, taken[..n], floor) {
      var i :| 0 <= i < n && CountsFor(u, c, floor, q, taken[..n][i]);
      assert CountsFor(u, c, floor, q, taken[i]);
    }
    if q in AcceptedQueries(u, c, taken, floor) {
      var i :| 0 <= i < |taken| && CountsFor(u, c, floor, q, taken[i]);
      assert i < n ==> taken[..n][i] == taken[i];
    }
  }

  /** The pipeline's log counts, per canonical query, the events that were accepted. */
  lemma LogAsAccepted(s: Setup, c: Config, shards: nat, inputs: seq<Input>, floor: int, q: string)
    requires shards > 0
    ensures History.CountLive(Run(s, c, shards, inputs).log, floor, q) ==
            Accepted(s.text, c, Acceptances(s, c, shards, inputs), floor, q)
  {
    LogIsAcceptances(s, c, shards, inputs);
    StandsCounts(s.text, c, Run(s, c, shards, inputs).log, Acceptances(s, c, shards, inputs), floor, q);
  }

  /** A clock that does not go back loses nothing. */
  lemma OrderedLosesNothing(s: Setup, c: Config, shards: nat, inputs: seq<Input>, now: int)
    requires shards > 0 && OrderedInputs(inputs) && (inputs != [] ==> inputs[|inputs| - 1].now <= now)
    ensures NothingLost(s, c, shards, inputs, now)
  {
    hide History.Inv, Run, NothingLost, AllKept, Punctual, Split, OrderedInputs;
    RunIsPunctual(s, c, shards, inputs, now);
    RunSplits(s, c, shards, inputs);
    PunctualIsKept(c, Run(s, c, shards, inputs).hists, now);
    AllKeptIffNothingLost(s, c, shards, inputs, now);
  }

  // ---------- what is served ----------

  /** What the ranking is drawn from: each accepted, unlisted query once, with its number of accepted events. */
  lemma RankedItems(s: Setup, c: Config, shards: nat, inputs: seq<Input>, terms: set<string>, now: int, x: Item)
    requires shards > 0
    ensures var bag := AcceptedInWindow(c, Run(s, c, shards, inputs).log, now);
            var n := Accepted(s.text, c, Acceptances(s, c, shards, inputs), Ledger.Floor(c, now), x.query);
            ItemsOf(bag, Refresh.Unlisted(s.text, Stoplist.IndexOf(s.text, terms)))[x] ==
            if 0 < x.count == n && !Listed(s.text, Some(terms), x.query) then 1 else 0
  {
    hide Run, Acceptances, Accepted, Stoplist.Suppresses, Queries, History.Live, History.CountLive;
    hide Ledger.Floor, MinBucketId, ItemsOf, Listed, Stoplist.IndexOf;
    var p := Run(s, c, shards, inputs);
    var bag := AcceptedInWindow(c, p.log, now);
    var stop := Stoplist.IndexOf(s.text, terms);
    Ledger.FloorIs(c, now);
    LogAsAccepted(s, c, shards, inputs, Ledger.Floor(c, now), x.query);
    History.LiveQueryCount(p.log, MinBucketId(c, now), x.query);
    ItemsOfMember(bag, Refresh.Unlisted(s.text, stop), x);
    if Accepted(s.text, c, Acceptances(s, c, shards, inputs), Ledger.Floor(c, now), x.query) > 0 {
      var a := SomeAcceptance(s.text, c, Acceptances(s, c, shards, inputs), Ledger.Floor(c, now), x.query);
      ListedMeans(s.text, Some(terms), a.event.query);
    }
  }

  lemma {:induction false} SomeAcceptance(u: Unicode, c: Config, taken: seq<Acceptance>, floor: int, q: string)
    returns (a: Acceptance)
    requires Accepted(u, c, taken, floor, q) > 0
    ensures a in taken && CountsFor(u, c, floor, q, a)
  {
    a := taken[|taken| - 1];
    if !CountsFor(u, c, floor, q, a) {
      a := SomeAcceptance(u, c, taken[..|taken| - 1], floor, q);
    }
  }

  /** Right at limit `n`: the `n` most frequent unlisted queries of the window, with their counts, in order. */
  ghost predicate Right(u: Unicode, c: Config, taken: seq<Acceptance>, terms: set<string>, now: int,
                        list: seq<Item>, n: nat) {
    && |list| <= n
    && (forall i :: 0 <= i < |list| ==>
          && 0 < list[i].count == Accepted(u, c, taken, Ledger.Floor(c, now), list[i].query)
          && !Listed(u, Some(terms), list[i].query))
    && (forall i, j :: 0 <= i < j < |list| ==> Outranks(list[i], list[j]))
    && (forall q :: MissedBy(u, c, taken, terms, now, list, q) ==>
          |list| == n && forall i :: 0 <= i < |list| ==>
            Outranks(list[i], Item(q, Accepted(u, c, taken, Ledger.Floor(c, now), q))))
  }

  /** The query could be listed and is not. */
  ghost predicate MissedBy(u: Unicode, c: Config, taken: seq<Acceptance>, terms: set<string>, now: int,
                           list: seq<Item>, q: string) {
    && Accepted(u, c, taken, Ledger.Floor(c, now), q) > 0
    && !Listed(u, Some(terms), q)
    && forall i :: 0 <= i < |list| ==> list[i].query != q
  }

  /**
   The whole service in its own terms.  If no operation lost an event of the window,
   and so whenever the clock does not go back, the list a rebuild at `now` serves for
   a limit holds the most frequent unlisted queries with their numbers of accepted
   events, higher counts first, equal counts in code-point order, and misses none.
   */
  lemma ServedIsRight(s: Setup, c: Config, shards: nat, inputs: seq<Input>, terms: set<string>, now: int, n: nat)
    requires shards > 0 && NothingLost(s, c, shards, inputs, now)
    ensures var stop := Stoplist.IndexOf(s.text, terms);
            var served := TopItems(Refresh.Ranking(s.text, Run(s, c, shards, inputs).hists, stop, now), n);
            Right(s.text, c, Acceptances(s, c, shards, inputs), terms, now, served, n)
  {
    hide Run, Acceptances, NothingLost, AcceptedInWindow, TopItems, Refresh.Ranking, Stoplist.IndexOf, ItemsOf, Right;
    hide Refresh.Unlisted;
    var stop := Stoplist.IndexOf(s.text, terms);
    var bag := AcceptedInWindow(c, Run(s, c, shards, inputs).log, now);
    var items := ItemsOf(bag, Refresh.Unlisted(s.text, stop));
    Refresh.ServedUnlessLost(s, c, shards, inputs, stop, now, n);
    TopItemsAreBest(items, n);
    forall x ensures ItemFor(s.text, c, Acceptances(s, c, shards, inputs), terms, now, items, x) {
      RankedItems(s, c, shards, inputs, terms, now, x);
    }
    BestIsRight(s.text, c, Acceptances(s, c, shards, inputs), terms, now, items, TopItems(items, n), n);
  }

  ghost predicate ItemFor(u: Unicode, c: Config, taken: seq<Acceptance>, terms: set<string>, now: int,
                          items: multiset<Item>, x: Item) {
    items[x] == if 0 < x.count == Accepted(u, c, taken, Ledger.Floor(c, now), x.query) &&
                   !Listed(u, Some(terms), x.query) then 1 else 0
  }

  lemma BestIsRight(u: Unicode, c: Config, taken: seq<Acceptance>, terms: set<string>, now: int,
                    items: multiset<Item>, list: seq<Item>, n: nat)
    requires forall x :: ItemFor(u, c, taken, terms, now, items, x)
    requires Best(items, list, n)
    ensures Right(u, c, taken, terms, now, list, n)
  {
    hide Accepted, Listed, Outranks, Ledger.Floor;
    forall i | 0 <= i < |list|
      ensures 0 < list[i].count == Accepted(u, c, taken, Ledger.Floor(c, now), list[i].query)
      ensures !Listed(u, Some(terms), list[i].query)
    {
      assert list[i] in multiset(list) && multiset(list)[list[i]] <= items[list[i]];
      assert ItemFor(u, c, taken, terms, now, items, list[i]);
    }
    forall i, j | 0 <= i < j < |list| ensures list[i] != list[j] {
      TwiceListed(list, i, j);
      assert multiset(list)[list[i]] <= items[list[i]];
      assert ItemFor(u, c, taken, terms, now, items, list[i]);
    }
    forall q | MissedBy(u, c, taken, terms, now, list, q)
      ensures |list| == n
      ensures forall i :: 0 <= i < |list| ==> Outranks(list[i], Item(q, Accepted(u, c, taken, Ledger.Floor(c, now), q)))
    {
      var x := Item(q, Accepted(u, c, taken, Ledger.Floor(c, now), q));
      assert ItemFor(u, c, taken, terms, now, items, x);
      assert x !in list;
      assert x in items - multiset(list);
      assert |items - multiset(list)| == |items| - |list| by { assert |multiset(list)| == |list|; }
    }
  }

  lemma TwiceListed(list: seq<Item>, i: nat, j: nat)
    requires i < j < |list|
    ensures list[i] == list[j] ==> multiset(list)[list[i]] >= 2
  {
    assert list == list[..i] + [list[i]] + list[i + 1..j] + [list[j]] + list[j + 1..];
  }

  /** The count an accepted event is answered with is the number of events accepted for its query, this one included. */
  lemma ReportedIsAccepted(s: Setup, c: Config, shards: nat, inputs: seq<Input>, input: Input)
    requires shards > 0 && OrderedInputs(inputs + [input]) && input.Arrive?
    requires Answer(s, Run(s, c, shards, inputs).hists, input).accepted
    ensures var a := Answer(s, Run(s, c, shards, inputs).hists, input);
            var taken := Acceptances(s, c, shards, inputs + [input]);
            a.count == Accepted(s.text, c, taken, Ledger.Floor(c, input.now), a.query)
  {
    hide Run, Acceptances, Answer, OrderedInputs, History.CountLive, Accepted, Ledger.Floor, MinBucketId;
    var a := Answer(s, Run(s, c, shards, inputs).hists, input);
    ReportedCount(s, c, shards, inputs, input);
    Ledger.FloorIs(c, input.now);
    LogAsAccepted(s, c, shards, inputs + [input], Ledger.Floor(c, input.now), a.query);
  }

  /** What the gauges show: the number of accepted events in the window, and of different queries among them. */
  lemma GaugesAreRight(s: Setup, c: Config, shards: nat, inputs: seq<Input>, now: int)
    requires shards > 0 && NothingLost(s, c, shards, inputs, now)
    ensures var seen, taken := SeenAt(Run(s, c, shards, inputs).hists, now), Acceptances(s, c, shards, inputs);
            && |Union(seen)| == InWindow(c, taken, Ledger.Floor(c, now))
            && SumUnique(seen) == |AcceptedQueries(s.text, c, taken, Ledger.Floor(c, now))|
  {
    hide Run, Acceptances, NothingLost, SeenAt, Union, SumUnique, AllKept, Queries, History.Live, Accepted, StandsAll;
    hide AcceptedQueries, History.CountLive, History.CountAllLive, InWindow, Ledger.Floor, MinBucketId, Fit, Disjoint;
    var p, taken, floor := Run(s, c, shards, inputs), Acceptances(s, c, shards, inputs), Ledger.Floor(c, now);
    AllKeptIffNothingLost(s, c, shards, inputs, now);
    SeenIsAcceptedIffKept(s, c, shards, inputs, now);
    DisjointUnique(SeenAt(p.hists, now));
    Ledger.FloorIs(c, now);
    LogIsAcceptances(s, c, shards, inputs);
    QueriesSize(History.Live(p.log, floor));
    History.LiveSize(p.log, floor);
    StandsCounts(s.text, c, p.log, taken, floor, "");
    var live := Union(SeenAt(p.hists, now));
    forall q ensures q in Support(live) <==> q in AcceptedQueries(s.text, c, taken, floor) {
      History.LiveQueryCount(p.log, floor, q);
      StandsCounts(s.text, c, p.log, taken, floor, q);
      assert q in Support(live) <==> live[q] > 0;
    }
    assert Support(live) == AcceptedQueries(s.text, c, taken, floor);
  }
}
