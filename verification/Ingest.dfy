/** internal/ingest/processor.go: the pipeline in front of the aggregator. */
module Ingest {
  import opened Wrappers
  import opened Bags
  import opened Contract
  import opened Text
  import opened Normalize
  import opened Privacy
  import opened Ring
  import opened Selection
  import opened AggregatorStore
  import History
  import Stoplist

  // ---------- the verdict ----------

  datatype Reason =
    | NoReason
    | InvalidEvent
    | EmptyQueryReason
    | PrivacyFilter
    | StopListed
    | Bot
    | Dropped(why: DropReason)

  datatype Result = Result(accepted: bool, reason: Reason, query: string, count: int)

  /** `mapAggregatorDropReason`. */
  function MapDropReason(reason: DropReason): Reason {
    match reason
    case EmptyQuery => EmptyQueryReason
    case NotDropped => InvalidEvent
    case _ => Dropped(reason)
  }

  datatype Screening = Refused(result: Result) | Admitted(query: string)

  /** What the service is made of, apart from its state. */
  datatype Setup = Setup(text: Unicode, rules: Rules, hash: string -> nat)

  /** Everything that happens before the aggregator sees the event; `stop` is the stop-list of the moment. */
  function Screen(s: Setup, e: SearchEvent, now: int, stop: Option<Stoplist.Snapshot>): Screening {
    if ValidateAt(s.text, e, now).Some? then Refused(Result(false, InvalidEvent, "", 0))
    else match Normalized(s.text, e.query)
      case None => Refused(Result(false, EmptyQueryReason, "", 0))
      case Some(q) =>
        if Sensitive(s.text, s.rules, q) then Refused(Result(false, PrivacyFilter, q, 0))
        else if e.isBot then Refused(Result(false, Bot, q, 0))
        else if stop.Some? && Stoplist.Suppresses(s.text, stop.value, q) then Refused(Result(false, StopListed, q, 0))
        else Admitted(q)
  }

  function AggregatorEvent(e: SearchEvent, query: string): Event
    requires e.occurredAt.Some?
  {
    Event(query, e.occurredAt.value, ActorKey(e))
  }

  // ---------- who gets in ----------

  /** The stop-list of a set of terms, as the pipeline meets it. */
  function StopOf(u: Unicode, terms: Option<set<string>>): Option<Stoplist.Snapshot> {
    if terms.Some? then Some(Stoplist.IndexOf(u, terms.value)) else None
  }

  /** A term is the query or one of its words. */
  predicate Listed(u: Unicode, terms: Option<set<string>>, q: string) {
    terms.Some? && (q in terms.value || exists i :: 0 <= i < |Fields(u, q)| && Fields(u, q)[i] in terms.value)
  }

  /** The event is well formed, of schema version 1, and not from more than ten seconds ahead. */
  predicate WellFormed(u: Unicode, e: SearchEvent, now: int) {
    && e.schemaVersion == 1
    && TrimSpace(u, e.eventId) != ""
    && e.occurredAt.Some?
    && 1 <= |TrimSpace(u, e.query)| <= 256
    && e.occurredAt.value <= now + 10_000_000_000
  }

  lemma ListedMeans(u: Unicode, terms: Option<set<string>>, raw: string)
    requires Normalized(u, raw).Some?
    ensures var n, stop := Normalized(u, raw).value, StopOf(u, terms);
            stop.Some? && Stoplist.Suppresses(u, stop.value, n) <==> Listed(u, terms, n)
  {
    hide Normalized, Fields, Tokens, Stoplist.Suppresses;
    NormalizedIsFixed(u, raw);
    if terms.Some? { Stoplist.ContainsMeaning(u, terms.value, Normalized(u, raw).value); }
  }

  /**
   Which events reach the aggregator, and what it is handed: those that are well
   formed, normalise to an insensitive query that is not listed, and are not a bot's.
   */
  lemma AdmittedMeans(s: Setup, e: SearchEvent, now: int, terms: Option<set<string>>)
    ensures var n, screening := Normalized(s.text, e.query), Screen(s, e, now, StopOf(s.text, terms));
            && (screening.Admitted? <==>
                  && WellFormed(s.text, e, now)
                  && n.Some?
                  && !Sensitive(s.text, s.rules, n.value)
                  && !e.isBot
                  && !Listed(s.text, terms, n.value))
            && (screening.Admitted? ==>
                  && screening.query == n.value
                  && var ev := AggregatorEvent(e, screening.query);
                     ev.query == n.value && ev.occurredAt == e.occurredAt.value && ev.actorKey == ActorKey(e))
  {
    hide TrimSpace, Normalized, Sensitive, Stoplist.Suppresses, ValidateAt;
    ValidMeans(s.text, e, now);
    if Normalized(s.text, e.query).Some? { ListedMeans(s.text, terms, e.query); }
  }

  /** Why an event is refused before the aggregator, and what the answer carries. */
  lemma RefusedMeans(s: Setup, e: SearchEvent, now: int, terms: Option<set<string>>)
    requires Screen(s, e, now, StopOf(s.text, terms)).Refused?
    ensures var n, r := Normalized(s.text, e.query), Screen(s, e, now, StopOf(s.text, terms)).result;
            var fit := WellFormed(s.text, e, now);
            var private := n.Some? && Sensitive(s.text, s.rules, n.value);
            && (r.reason == InvalidEvent <==> !fit)
            && (r.reason == EmptyQueryReason <==> fit && n == None)
            && (r.reason == PrivacyFilter <==> fit && private)
            && (r.reason == Bot <==> fit && n.Some? && !private && e.isBot)
            && (r.reason == StopListed <==> fit && n.Some? && !private && !e.isBot && Listed(s.text, terms, n.value))
            && !r.accepted && r.count == 0
            && r.query == (if fit && n.Some? then n.value else "")
  {
    hide TrimSpace, Normalized, Sensitive, Stoplist.Suppresses, ValidateAt;
    ValidMeans(s.text, e, now);
    if Normalized(s.text, e.query).Some? { ListedMeans(s.text, terms, e.query); }
  }

  /** What a stored query is: canonical, at most 256 runes, not sensitive. */
  ghost predicate Presentable(s: Setup, q: string) {
    && Normalized(s.text, q) == Some(q)
    && 1 <= |q| <= MAX_QUERY_RUNES
    && !Sensitive(s.text, s.rules, q)
  }

  lemma AdmittedIsPresentable(s: Setup, e: SearchEvent, now: int, stop: Option<Stoplist.Snapshot>)
    requires Screen(s, e, now, stop).Admitted?
    ensures var q := Screen(s, e, now, stop).query; Presentable(s, q) && TrimSpace(s.text, q) == q
    ensures e.occurredAt.Some?
  {
    hide Normalized, Canonical, Sensitive, TrimSpace, Stoplist.Suppresses;
    NormalizedIsFixed(s.text, e.query);
    NormalizedIsCanonical(s.text, e.query);
  }

  /** No stored query carries a card number, nine digits in a row, or ten digits that make up 40 per cent of it. */
  lemma PresentableIsClean(s: Setup, q: string)
    requires Presentable(s, q)
    ensures !(13 <= |DigitsOf(q)| <= 19 && DoubleAddDouble(DigitsOf(q), false) % 10 == 0)
    ensures !exists a: string, b: string, c: string :: q == a + b + c && |b| == 9 && DigitsOf(b) == b
    ensures CountWhere(s.rules.isDigit, q) >= 10 ==> 5 * CountWhere(s.rules.isDigit, q) < 2 * |q|
  {
    hide Luhn, DigitsOf, Normalized, CountWhere, Sensitive, TrimSpace, DoubleAddDouble;
    NormalizedIsFixed(s.text, q);
    InsensitiveIsClean(s.text, s.rules, q);
  }

  // ---------- the pipeline as a state machine ----------

  /** The shards, and the log of all accepted events in order of acceptance. */
  datatype Pipeline = Pipeline(hists: seq<History.Reached>, log: seq<Entry>)

  /** An event with the instant and the stop-list it is processed under, or a scan of all shards. */
  datatype Input =
    | Arrive(event: SearchEvent, now: int, stop: Option<Stoplist.Snapshot>)
    | Scan(now: int)

  ghost function Begin(c: Config, shards: nat): Pipeline {
    Pipeline(seq(shards, _ => Fresh(c)), [])
  }

  ghost function Fresh(c: Config): History.Reached {
    History.StartInv(c);
    History.Start(c)
  }

  function ShardOf(s: Setup, q: string, shards: nat): (i: nat)
    requires shards > 0
    ensures i < shards
  {
    Index(s.hash, q, shards)
  }

  ghost function Step(s: Setup, p: Pipeline, input: Input): (r: Pipeline)
    requires |p.hists| > 0
    ensures |r.hists| == |p.hists|
  {
    if input.Scan? then Scanned(p, input.now)
    else if Screen(s, input.event, input.now, input.stop).Refused? then p
    else Ingested(s, p, AdmittedEvent(s, input), input.now)
  }

  /** A scan expires every shard. */
  ghost function Scanned(p: Pipeline, now: int): Pipeline {
    p.(hists := ExpireShards(p.hists, now))
  }

  /** What the aggregator is handed for an admitted event. */
  function AdmittedEvent(s: Setup, input: Input): Event
    requires input.Arrive? && Screen(s, input.event, input.now, input.stop).Admitted?
  {
    AdmittedIsPresentable(s, input.event, input.now, input.stop);
    AggregatorEvent(input.event, Screen(s, input.event, input.now, input.stop).query)
  }

  ghost function Ingested(s: Setup, p: Pipeline, ev: Event, now: int): (r: Pipeline)
    requires |p.hists| > 0
    ensures |r.hists| == |p.hists|
  {
    var i := ShardOf(s, ev.query, |p.hists|);
    var h := p.hists[i];
    Pipeline(
      Routed(s.text, s.hash, p.hists, ev, now),
      if Decision(s.text, h.cfg, h.ring, ev, now) == NotDropped
      then p.log + [EntryOf(s.text, h.cfg, ev, now)] else p.log)
  }

  ghost function Run(s: Setup, c: Config, shards: nat, inputs: seq<Input>): (p: Pipeline)
    requires shards > 0
    ensures |p.hists| == shards
  {
    if inputs == [] then Begin(c, shards)
    else Step(s, Run(s, c, shards, inputs[..|inputs| - 1]), inputs[|inputs| - 1])
  }

  // ---------- what every run keeps ----------

  /** Each shard logs only presentable queries that hash to it. */
  ghost predicate Sound(s: Setup, hists: seq<History.Reached>) {
    forall i, e :: 0 <= i < |hists| && e in hists[i].log ==> SoundEntry(s, |hists|, i, e)
  }

  ghost predicate SoundEntry(s: Setup, shards: nat, i: nat, e: Entry)
    requires shards > 0
  {
    Presentable(s, e.query) && ShardOf(s, e.query, shards) == i
  }

  /** The events for `q` in all shards' logs at or above `min`. */
  ghost function CountShards(hists: seq<History.Reached>, min: int, q: string): nat {
    if hists == [] then 0
    else CountShards(hists[..|hists| - 1], min, q) + History.CountLive(hists[|hists| - 1].log, min, q)
  }

  /** The shards' logs split the pipeline's log. */
  ghost predicate Split(p: Pipeline) {
    forall min, q :: CountShards(p.hists, min, q) == History.CountLive(p.log, min, q)
  }

  lemma IngestedSound(s: Setup, p: Pipeline, ev: Event, now: int)
    requires |p.hists| > 0 && Sound(s, p.hists)
    requires Presentable(s, ev.query) && TrimSpace(s.text, ev.query) == ev.query
    ensures Sound(s, Ingested(s, p, ev, now).hists)
  {
    hide History.Inv, Decision, Presentable, Index;
    var i := ShardOf(s, ev.query, |p.hists|);
    AddedLog(s.text, p.hists[i], ev, now);
    var r := Ingested(s, p, ev, now);
    forall j, e | 0 <= j < |r.hists| && e in r.hists[j].log ensures SoundEntry(s, |r.hists|, j, e) {
      if j != i || e in p.hists[i].log {
        assert e in p.hists[j].log;
      }
    }
  }

  /**
   Whatever the clock and the stop-list do, every key of every shard is canonical,
   has 1 to 256 runes, is not sensitive and lives only in its hash shard.
   */
  lemma {:induction false} RunIsSound(s: Setup, c: Config, shards: nat, inputs: seq<Input>)
    requires shards > 0
    ensures Sound(s, Run(s, c, shards, inputs).hists)
  {
    hide History.Inv, Screen, Ingested, Presentable, SoundEntry;
    if inputs != [] {
      var front, input := inputs[..|inputs| - 1], inputs[|inputs| - 1];
      RunIsSound(s, c, shards, front);
      if input.Scan? {
        ScanKeeps(Run(s, c, shards, front).hists, input.now);
      } else if Screen(s, input.event, input.now, input.stop).Admitted? {
        AdmittedIsPresentable(s, input.event, input.now, input.stop);
        IngestedSound(s, Run(s, c, shards, front), AdmittedEvent(s, input), input.now);
      }
    }
  }

  // ---------- the log behind the shards ----------

  lemma {:induction false} CountShardsUpdate(hists: seq<History.Reached>, i: nat, h: History.Reached,
                                             min: int, q: string)
    requires i < |hists|
    ensures CountShards(hists[i := h], min, q) + History.CountLive(hists[i].log, min, q) ==
            CountShards(hists, min, q) + History.CountLive(h.log, min, q)
  {
    hide History.Inv, History.CountLive;
    var n := |hists| - 1;
    if i == n {
      assert hists[i := h][..n] == hists[..n];
    } else {
      CountShardsUpdate(hists[..n], i, h, min, q);
      assert hists[i := h][..n] == hists[..n][i := h];
    }
  }

  lemma CountLiveSnoc(log: seq<Entry>, e: Entry, min: int, q: string)
    ensures History.CountLive(log + [e], min, q) ==
            History.CountLive(log, min, q) + (if e.bucket >= min && e.query == q then 1 else 0)
  {
    assert (log + [e])[..|log|] == log;
  }

  lemma {:induction false} SameLogsSameCounts(a: seq<History.Reached>, b: seq<History.Reached>, min: int, q: string)
    requires |a| == |b| && forall i :: 0 <= i < |a| ==> a[i].log == b[i].log
    ensures CountShards(a, min, q) == CountShards(b, min, q)
  {
    hide History.Inv, History.CountLive;
    if a != [] { SameLogsSameCounts(a[..|a| - 1], b[..|b| - 1], min, q); }
  }

  lemma ScanSplits(p: Pipeline, now: int)
    requires Split(p)
    ensures Split(Scanned(p, now))
  {
    hide History.Inv, History.CountLive, CountShards, ExpireShards;
    ScanKeeps(p.hists, now);
    var r := Scanned(p, now);
    forall min, q ensures CountShards(r.hists, min, q) == History.CountLive(r.log, min, q) {
      SameLogsSameCounts(r.hists, p.hists, min, q);
    }
  }

  lemma IngestedSplit(s: Setup, p: Pipeline, ev: Event, now: int)
    requires |p.hists| > 0 && Split(p)
    ensures Split(Ingested(s, p, ev, now))
  {
    hide History.Inv, Decision, History.Added, History.CountLive, CountShards;
    var i := ShardOf(s, ev.query, |p.hists|);
    var h := p.hists[i];
    var r := Ingested(s, p, ev, now);
    AddedLog(s.text, h, ev, now);
    forall min, q ensures CountShards(r.hists, min, q) == History.CountLive(r.log, min, q) {
      CountShardsUpdate(p.hists, i, History.Added(s.text, h, ev, now), min, q);
      var e := EntryOf(s.text, h.cfg, ev, now);
      CountLiveSnoc(h.log, e, min, q);
      CountLiveSnoc(p.log, e, min, q);
    }
  }

  lemma {:induction false} BeginCounts(c: Config, shards: nat, min: int, q: string)
    ensures CountShards(Begin(c, shards).hists, min, q) == 0
  {
    hide History.Inv;
    if shards > 0 {
      var hists := Begin(c, shards).hists;
      BeginCounts(c, shards - 1, min, q);
      assert hists[..shards - 1] == Begin(c, shards - 1).hists;
    }
  }

  /** The shards' logs together are the pipeline's log, in every run. */
  lemma {:induction false} RunSplits(s: Setup, c: Config, shards: nat, inputs: seq<Input>)
    requires shards > 0
    ensures Split(Run(s, c, shards, inputs)) && SameConfig(c, Run(s, c, shards, inputs).hists)
  {
    hide History.Inv, Screen, Ingested, Split, Fresh;
    if inputs == [] {
      StartSplit(c, shards);
    } else {
      var front, input := inputs[..|inputs| - 1], inputs[|inputs| - 1];
      RunSplits(s, c, shards, front);
      StepSplits(s, c, Run(s, c, shards, front), input);
    }
  }

  lemma StartSplit(c: Config, shards: nat)
    ensures Split(Begin(c, shards)) && SameConfig(c, Begin(c, shards).hists)
  {
    hide History.Inv;
    forall min, q ensures CountShards(Begin(c, shards).hists, min, q) == History.CountLive([], min, q) {
      BeginCounts(c, shards, min, q);
    }
  }

  lemma StepSplits(s: Setup, c: Config, p: Pipeline, input: Input)
    requires |p.hists| > 0 && Split(p) && SameConfig(c, p.hists)
    ensures Split(Step(s, p, input)) && SameConfig(c, Step(s, p, input).hists)
  {
    hide History.Inv, Screen, Split, Decision, History.Added;
    if input.Scan? {
      ScanSplits(p, input.now);
      ScanKeeps(p.hists, input.now);
    } else if Screen(s, input.event, input.now, input.stop).Admitted? {
      var ev := AdmittedEvent(s, input);
      IngestedSplit(s, p, ev, input.now);
      AddedLog(s.text, p.hists[ShardOf(s, ev.query, |p.hists|)], ev, input.now);
    }
  }

  // ---------- a clock that does not run back ----------

  ghost predicate OrderedInputs(inputs: seq<Input>) {
    forall i, j :: 0 <= i <= j < |inputs| ==> inputs[i].now <= inputs[j].now
  }

  lemma StepPunctual(s: Setup, p: Pipeline, input: Input, now: int)
    requires |p.hists| > 0 && Punctual(p.hists, now) && now <= input.now
    ensures Punctual(Step(s, p, input).hists, input.now)
  {
    hide History.Inv, Screen, Decision, History.AddAt;
    if input.Scan? {
      ScanKeeps(p.hists, input.now);
    } else if Screen(s, input.event, input.now, input.stop).Admitted? {
      var ev := AdmittedEvent(s, input);
      History.AddedPunctual(s.text, p.hists[ShardOf(s, ev.query, |p.hists|)], ev, input.now);
    }
  }

  lemma {:induction false} RunIsPunctual(s: Setup, c: Config, shards: nat, inputs: seq<Input>, now: int)
    requires shards > 0 && OrderedInputs(inputs) && (inputs != [] ==> inputs[|inputs| - 1].now <= now)
    ensures Punctual(Run(s, c, shards, inputs).hists, now)
  {
    hide History.Inv, Step;
    if inputs != [] {
      var front, input := inputs[..|inputs| - 1], inputs[|inputs| - 1];
      assert front != [] ==> front[|front| - 1] == inputs[|inputs| - 2];
      RunIsPunctual(s, c, shards, front, input.now);
      StepPunctual(s, Run(s, c, shards, front), input, input.now);
    }
  }

  // ---------- what readers see ----------

  lemma SeenEntry(h: History.Reached, now: int, q: string)
    requires q in BagOf(History.Expired(h, now))
    ensures exists e :: e in h.log && e.query == q
  {
    hide WithinLimits, Filed;
    var r := History.Expired(h, now);
    CollectSource(QueryOf, Contents(r.ring), q);
    var e :| e in Contents(r.ring) && q in QueryOf(e);
    assert multiset(r.log)[e] >= Contents(r.ring)[e];
    assert e in r.log;
  }

  /** In a sound state a query is seen only in its home shard. */
  lemma SeenAtHome(s: Setup, hists: seq<History.Reached>, now: int, i: nat, q: string)
    requires Sound(s, hists) && i < |hists|
    ensures q in SeenAt(hists, now)[i] ==> ShardOf(s, q, |hists|) == i
  {
    hide History.Inv, BagOf, History.Expired, Presentable, Index;
    if q in SeenAt(hists, now)[i] {
      SeenEntry(hists[i], now, q);
      var e :| e in hists[i].log && e.query == q;
      assert SoundEntry(s, |hists|, i, e);
    }
  }

  /** In a sound state no query is live in two shards. */
  lemma SoundIsDisjoint(s: Setup, hists: seq<History.Reached>, now: int)
    requires Sound(s, hists)
    ensures Disjoint(SeenAt(hists, now))
  {
    hide History.Inv, BagOf, ExpireShards, Sound, ShardOf;
    var seen := SeenAt(hists, now);
    forall i, j, q | 0 <= i < j < |seen| && q in seen[i] ensures q !in seen[j] {
      SeenAtHome(s, hists, now, i, q);
      SeenAtHome(s, hists, now, j, q);
    }
  }

  /** The shards never show more than their logs, and as much for every query if and only if no shard lost anything. */
  lemma {:induction false} SeenCounts(c: Config, hists: seq<History.Reached>, now: int, q: string)
    requires SameConfig(c, hists)
    ensures Union(SeenAt(hists, now))[q] <= CountShards(hists, MinBucketId(c, now), q)
    ensures Union(SeenAt(hists, now))[q] == CountShards(hists, MinBucketId(c, now), q) <==>
              forall i :: 0 <= i < |hists| ==> ShowsAll(c, hists[i], now, q)
  {
    hide History.Inv, BagOf, History.Expired, History.CountLive, MinBucketId;
    if hists != [] {
      var n := |hists| - 1;
      SeenCounts(c, hists[..n], now, q);
      assert SeenAt(hists, now)[..n] == SeenAt(hists[..n], now);
      SeenCount(c, hists[n], now, q);
    }
  }

  ghost predicate ShowsAll(c: Config, h: History.Reached, now: int, q: string) {
    BagOf(History.Expired(h, now))[q] == History.CountLive(h.log, MinBucketId(c, now), q)
  }

  lemma SeenCount(c: Config, h: History.Reached, now: int, q: string)
    requires h.cfg == c
    ensures BagOf(History.Expired(h, now))[q] <= History.CountLive(h.log, MinBucketId(c, now), q)
    ensures History.Kept(h, MinBucketId(c, now)) ==> ShowsAll(c, h, now, q)
    ensures (forall p :: ShowsAll(c, h, now, p)) ==> History.Kept(h, MinBucketId(c, now))
  {
    hide History.Inv, History.CountLive, Queries, Contents, History.Kept, MinBucketId;
    History.LookBound(h, now);
    if forall p :: ShowsAll(c, h, now, p) {
      forall p ensures Queries(Contents(History.ExpireAt(h, now).ring))[p] ==
                       History.CountLive(h.log, MinBucketId(c, now), p) {
        assert ShowsAll(c, h, now, p);
      }
    }
  }

  /** The queries of the accepted events that are in the window at `now`. */
  ghost function AcceptedInWindow(c: Config, log: seq<Entry>, now: int): multiset<string> {
    Queries(History.Live(log, MinBucketId(c, now)))
  }

  /**
   The whole path, for any clock: what all shards show at `now` is never more than
   the bag of accepted queries in the window, each query is in one shard only, and
   they show all of the bag if and only if no shard lost an event in the window.
   */
  lemma SeenIsAcceptedIffKept(s: Setup, c: Config, shards: nat, inputs: seq<Input>, now: int)
    requires shards > 0
    ensures var p := Run(s, c, shards, inputs);
            var seen, accepted := Union(SeenAt(p.hists, now)), AcceptedInWindow(c, p.log, now);
            && Disjoint(SeenAt(p.hists, now))
            && seen <= accepted
            && (seen == accepted <==> AllKept(c, p.hists, now))
  {
    hide History.Inv, Run, Sound, SeenAt, Queries, MinBucketId, History.Live, ShowsAll, History.Kept, CountShards;
    var p := Run(s, c, shards, inputs);
    RunSplits(s, c, shards, inputs);
    RunIsSound(s, c, shards, inputs);
    SoundIsDisjoint(s, p.hists, now);
    var seen, accepted := Union(SeenAt(p.hists, now)), AcceptedInWindow(c, p.log, now);
    forall q
      ensures seen[q] <= accepted[q]
      ensures seen[q] == accepted[q] <==> forall i :: 0 <= i < |p.hists| ==> ShowsAll(c, p.hists[i], now, q)
    {
      SeenCounts(c, p.hists, now, q);
      History.LiveQueryCount(p.log, MinBucketId(c, now), q);
      assert CountShards(p.hists, MinBucketId(c, now), q) == History.CountLive(p.log, MinBucketId(c, now), q);
    }
    forall i, q | 0 <= i < |p.hists|
      ensures History.Kept(p.hists[i], MinBucketId(c, now)) ==> ShowsAll(c, p.hists[i], now, q)
      ensures seen == accepted ==> ShowsAll(c, p.hists[i], now, q)
    {
      SeenCount(c, p.hists[i], now, q);
      assert seen == accepted ==> seen[q] == accepted[q];
    }
    if AllKept(c, p.hists, now) {
      assert seen == accepted;
    }
    if seen == accepted {
      forall i | 0 <= i < |p.hists| ensures History.Kept(p.hists[i], MinBucketId(c, now)) {
        SeenCount(c, p.hists[i], now, "");
      }
    }
  }

  /** The operations of the run that reach shard `i`. */
  function Reaching(s: Setup, shards: nat, i: nat, inputs: seq<Input>): seq<History.Op>
    requires shards > 0
  {
    if inputs == [] then [] else
      var front, input := Reaching(s, shards, i, inputs[..|inputs| - 1]), inputs[|inputs| - 1];
      if input.Scan? then front + [History.Look(input.now)]
      else if Screen(s, input.event, input.now, input.stop).Refused? then front
      else if ShardOf(s, AdmittedEvent(s, input).query, shards) != i then front
      else front + [History.Add(AdmittedEvent(s, input), input.now)]
  }

  /** A shard is a window run by the operations that reach it. */
  lemma {:induction false} ShardIsRun(s: Setup, c: Config, shards: nat, inputs: seq<Input>, i: nat)
    requires i < shards
    ensures Run(s, c, shards, inputs).hists[i] == History.Run(s.text, c, Reaching(s, shards, i, inputs))
  {
    hide History.Inv, History.Run, Screen, Index, History.AddAt, History.ExpireAt, Decision;
    if inputs == [] {
      RunOfNone(s.text, c);
    } else {
      var front, input := inputs[..|inputs| - 1], inputs[|inputs| - 1];
      ShardIsRun(s, c, shards, front, i);
      var ops := Reaching(s, shards, i, front);
      if input.Scan? {
        History.RunSnoc(s.text, c, ops, History.Look(input.now));
      } else if Screen(s, input.event, input.now, input.stop).Admitted? {
        History.RunSnoc(s.text, c, ops, History.Add(AdmittedEvent(s, input), input.now));
      }
    }
  }

  lemma RunOfNone(u: Unicode, c: Config)
    ensures History.Run(u, c, []) == History.Start(c)
  {
  }

  /** No operation lost an event of the window at `now` from the shard it reached. */
  ghost predicate NothingLost(s: Setup, c: Config, shards: nat, inputs: seq<Input>, now: int)
    requires shards > 0
  {
    forall i :: 0 <= i < shards ==> History.NothingLost(s.text, c, Reaching(s, shards, i, inputs), MinBucketId(c, now))
  }

  /** And that is so exactly when no operation that reached a shard expired such an event or took its slot. */
  lemma AllKeptIffNothingLost(s: Setup, c: Config, shards: nat, inputs: seq<Input>, now: int)
    requires shards > 0
    ensures AllKept(c, Run(s, c, shards, inputs).hists, now) <==> NothingLost(s, c, shards, inputs, now)
  {
    hide History.Inv, History.Run, Run, Reaching, History.Kept, History.NothingLost, MinBucketId;
    forall i | 0 <= i < shards
      ensures History.Kept(Run(s, c, shards, inputs).hists[i], MinBucketId(c, now)) <==>
                History.NothingLost(s.text, c, Reaching(s, shards, i, inputs), MinBucketId(c, now))
    {
      ShardIsRun(s, c, shards, inputs, i);
      History.RunKept(s.text, c, Reaching(s, shards, i, inputs), MinBucketId(c, now));
    }
  }

  /** In a run whose clock does not go back, all shards show at `now` the bag of accepted queries in the window. */
  lemma SeenIsAccepted(s: Setup, c: Config, shards: nat, inputs: seq<Input>, now: int)
    requires shards > 0 && OrderedInputs(inputs) && (inputs != [] ==> inputs[|inputs| - 1].now <= now)
    ensures var p := Run(s, c, shards, inputs);
            Union(SeenAt(p.hists, now)) == AcceptedInWindow(c, p.log, now) && Disjoint(SeenAt(p.hists, now))
  {
    hide History.Inv, Run, SeenAt, Split, AllKept, AcceptedInWindow, Union, Disjoint;
    RunIsPunctual(s, c, shards, inputs, now);
    RunSplits(s, c, shards, inputs);
    PunctualIsKept(c, Run(s, c, shards, inputs).hists, now);
    SeenIsAcceptedIffKept(s, c, shards, inputs, now);
  }

  // ---------- the object ----------

  /** The answer to an event; `hists` are the shards as the event finds them. */
  ghost function Answer(s: Setup, hists: seq<History.Reached>, input: Input): Result
    requires |hists| > 0 && input.Arrive?
  {
    match Screen(s, input.event, input.now, input.stop)
    case Refused(r) => r
    case Admitted(q) => IngestAnswer(s, hists[ShardOf(s, q, |hists|)], AdmittedEvent(s, input), input.now)
  }

  ghost function IngestAnswer(s: Setup, h: History.Reached, ev: Event, now: int): Result {
    var why := Decision(s.text, h.cfg, h.ring, ev, now);
    if why != NotDropped then Result(false, MapDropReason(why), ev.query, 0)
    else Result(true, NoReason, ev.query, BagOf(History.Added(s.text, h, ev, now))[ev.query])
  }

  /** In a run whose clock does not go back, the count reported is one more than just before the call. */
  lemma AnswerCountsOne(s: Setup, h: History.Reached, ev: Event, now: int)
    requires h.onTime && (h.clock.Some? ==> h.clock.value <= now)
    requires TrimSpace(s.text, ev.query) == ev.query && IngestAnswer(s, h, ev, now).accepted
    ensures IngestAnswer(s, h, ev, now).count == BagOf(History.Expired(h, now))[ev.query] + 1
  {
    hide History.Inv, Queries, Contents, Decision, TrimSpace;
    History.OnTimeCountsOnce(s.text, h, ev, now);
  }

  /**
   In a run whose clock does not go back, the count an accepted event is answered
   with is one more than a look just before would show, and is the number of
   accepted events for the query in the window, this one included.
   */
  lemma ReportedCount(s: Setup, c: Config, shards: nat, inputs: seq<Input>, input: Input)
    requires shards > 0 && OrderedInputs(inputs + [input]) && input.Arrive?
    requires Answer(s, Run(s, c, shards, inputs).hists, input).accepted
    ensures var p, r := Run(s, c, shards, inputs), Run(s, c, shards, inputs + [input]);
            var a := Answer(s, p.hists, input);
            && a.count == BagOf(History.Expired(p.hists[ShardOf(s, a.query, shards)], input.now))[a.query] + 1
            && a.count == History.CountLive(r.log, MinBucketId(c, input.now), a.query)
  {
    hide History.Inv, Run, Screen, Decision, BagOf, MinBucketId, ShardOf, SeenAt, Ingested, History.CountLive;
    hide IngestAnswer, History.Expired, ValidateAt;
    var p, r := Run(s, c, shards, inputs), Run(s, c, shards, inputs + [input]);
    AcceptedWasAdmitted(s, p.hists, input);
    AdmittedIsPresentable(s, input.event, input.now, input.stop);
    var q := Screen(s, input.event, input.now, input.stop).query;
    var ev := AdmittedEvent(s, input);
    RunSnoc(s, c, shards, inputs, input);
    OrderedFront(inputs, input);
    RunIsPunctual(s, c, shards, inputs, input.now);
    AnswerCountsOne(s, p.hists[ShardOf(s, q, shards)], ev, input.now);
    SeenInShard(s, p, ev, input.now);
    SeenCountIsAccepted(s, c, shards, inputs + [input], input.now, ShardOf(s, q, shards), q);
  }

  /** An admitted event is accepted exactly when the aggregator does not drop it; otherwise its reason is passed on. */
  lemma AnswerMeans(s: Setup, hists: seq<History.Reached>, input: Input)
    requires |hists| > 0 && input.Arrive? && Screen(s, input.event, input.now, input.stop).Admitted?
    ensures var q := Screen(s, input.event, input.now, input.stop).query;
            var h := hists[ShardOf(s, q, |hists|)];
            |h.ring| > 0 &&
            var why := Decision(s.text, h.cfg, h.ring, AdmittedEvent(s, input), input.now);
            var a := Answer(s, hists, input);
            && a.query == q
            && why != EmptyQuery
            && (a.accepted <==> why == NotDropped)
            && (a.reason == NoReason <==> why == NotDropped)
            && (a.reason == Dropped(TooOld) <==> why == TooOld)
            && (a.reason == Dropped(FromFuture) <==> why == FromFuture)
            && (a.reason == Dropped(ActorQueryLimit) <==> why == ActorQueryLimit)
            && (a.reason == Dropped(CardinalityLimit) <==> why == CardinalityLimit)
            && (a.reason == Dropped(BucketCardinalityLimit) <==> why == BucketCardinalityLimit)
            && (!a.accepted ==> a.count == 0)
  {
    hide BagOf, ValidateAt, Normalized, Sensitive, Stoplist.Suppresses, TrimSpace, Verdict, History.Inv, Screen, Index;
    AdmittedIsPresentable(s, input.event, input.now, input.stop);
    var q := Screen(s, input.event, input.now, input.stop).query;
    var h := hists[ShardOf(s, q, |hists|)];
    History.InvRing(h);
    PresentableIsNotBlank(s, q);
    VerdictKinds(h.cfg, Expire(h.ring, MinBucketId(h.cfg, input.now)),
                 EntryOf(s.text, h.cfg, AdmittedEvent(s, input), input.now), input.now);
  }

  lemma PresentableIsNotBlank(s: Setup, q: string)
    requires Presentable(s, q)
    ensures TrimSpace(s.text, q) != ""
  {
    hide Normalized, Sensitive;
    NormalizedIsFixed(s.text, q);
  }

  lemma AcceptedWasAdmitted(s: Setup, hists: seq<History.Reached>, input: Input)
    requires |hists| > 0 && input.Arrive? && Answer(s, hists, input).accepted
    ensures Screen(s, input.event, input.now, input.stop).Admitted?
    ensures Answer(s, hists, input).query == Screen(s, input.event, input.now, input.stop).query
  {
    hide History.Inv, Decision, BagOf, ValidateAt, Normalized, Sensitive, Stoplist.Suppresses;
  }

  lemma OrderedFront(inputs: seq<Input>, input: Input)
    requires OrderedInputs(inputs + [input])
    ensures OrderedInputs(inputs) && (inputs != [] ==> inputs[|inputs| - 1].now <= input.now)
  {
    var all := inputs + [input];
    assert forall i :: 0 <= i < |inputs| ==> all[i] == inputs[i];
    assert all[|inputs|] == input;
  }

  /** A query's count in its shard is its number of accepted events in the window. */
  lemma SeenCountIsAccepted(s: Setup, c: Config, shards: nat, inputs: seq<Input>, now: int, i: nat, q: string)
    requires shards > 0 && OrderedInputs(inputs) && (inputs != [] ==> inputs[|inputs| - 1].now <= now)
    requires i < shards && q in SeenAt(Run(s, c, shards, inputs).hists, now)[i]
    ensures var p := Run(s, c, shards, inputs);
            SeenAt(p.hists, now)[i][q] == History.CountLive(p.log, MinBucketId(c, now), q)
  {
    hide History.Inv, Run, MinBucketId, Queries, ExpireShards, BagOf, Union, Disjoint, History.Live, History.CountLive;
    var p := Run(s, c, shards, inputs);
    SeenIsAccepted(s, c, shards, inputs, now);
    DisjointUnionAt(SeenAt(p.hists, now), i, q);
    History.LiveQueryCount(p.log, MinBucketId(c, now), q);
  }

  lemma RunSnoc(s: Setup, c: Config, shards: nat, inputs: seq<Input>, input: Input)
    requires shards > 0
    ensures Run(s, c, shards, inputs + [input]) == Step(s, Run(s, c, shards, inputs), input)
  {
    assert (inputs + [input])[..|inputs|] == inputs;
  }

  /** Right after an accepted event its shard shows the new count. */
  lemma SeenInShard(s: Setup, p: Pipeline, ev: Event, now: int)
    requires |p.hists| > 0
    requires IngestAnswer(s, p.hists[ShardOf(s, ev.query, |p.hists|)], ev, now).accepted
    ensures var i := ShardOf(s, ev.query, |p.hists|);
            SeenAt(Ingested(s, p, ev, now).hists, now)[i][ev.query] == IngestAnswer(s, p.hists[i], ev, now).count
  {
    hide History.Inv, Decision, BagOf, Index;
    History.AcceptedSurvives(s.text, p.hists[ShardOf(s, ev.query, |p.hists|)], ev, now);
  }

  class Processor {
    const service: Setup
    const aggregator: Aggregator
    const stopList: Stoplist.Service?
    ghost var log: seq<Entry>

    constructor (service: Setup, aggregator: Aggregator, stopList: Stoplist.Service?)
      ensures this.service == service && this.aggregator == aggregator && this.stopList == stopList && log == []
    {
      this.service, this.aggregator, this.stopList := service, aggregator, stopList;
      log := [];
    }

    ghost predicate Valid()
      reads this, aggregator, aggregator.repr, set w | w in aggregator.shards :: w,
            set w | w in aggregator.shards :: w.buckets
    {
      && aggregator.Valid()
      && this !in aggregator.repr
      && aggregator.text == service.text
      && aggregator.hash == service.hash
      && |aggregator.hists| == |aggregator.shards| > 0
      && SameConfig(aggregator.cfg, aggregator.hists)
    }

    ghost function State(): Pipeline
      reads this, aggregator
    {
      Pipeline(aggregator.hists, log)
    }

    /** The stop-list as the event meets it. */
    function StopNow(): Option<Stoplist.Snapshot>
      reads if stopList == null then {} else {stopList.list}
    {
      if stopList == null then None else Some(stopList.list.current)
    }

    method ProcessAt(event: SearchEvent, now: int) returns (result: Result)
      requires Valid() && (stopList != null ==> stopList.text == service.text)
      modifies this, aggregator, aggregator.repr
      ensures Valid()
      ensures State() == Step(service, old(State()), Arrive(event, now, old(StopNow())))
      ensures result == Answer(service, old(aggregator.hists), Arrive(event, now, old(StopNow())))
    {
      hide Aggregator.Valid, History.Inv, Normalized, Sensitive, Stoplist.Suppresses, Decision;
      ghost var input := Arrive(event, now, StopNow());
      if ValidateAt(service.text, event, now).Some? {
        return Result(false, InvalidEvent, "", 0);
      }
      var query, ok := Query(service.text, event.query);
      if !ok {
        return Result(false, EmptyQueryReason, "", 0);
      }
      var sensitive := ContainsSensitiveData(service.text, service.rules, query);
      if sensitive {
        return Result(false, PrivacyFilter, query, 0);
      }
      if event.isBot {
        return Result(false, Bot, query, 0);
      }
      if stopList != null && stopList.Contains(query) {
        return Result(false, StopListed, query, 0);
      }
      AdmittedIsPresentable(service, event, now, input.stop);
      result := Ingest(AggregatorEvent(event, query), now);
    }

    method Ingest(ev: Event, now: int) returns (result: Result)
      requires Valid()
      modifies this, aggregator, aggregator.repr
      ensures Valid()
      ensures State() == Ingested(service, old(State()), ev, now)
      ensures var shards := old(aggregator.hists);
              result == IngestAnswer(service, shards[ShardOf(service, ev.query, |shards|)], ev, now)
    {
      hide Aggregator.Valid, History.Inv, Decision, BagOf, Index;
      ghost var i := ShardOf(service, ev.query, |aggregator.hists|);
      ghost var h := aggregator.hists[i];
      AddedLog(service.text, h, ev, now);
      var added := aggregator.AddAt(ev, now);
      if !added.accepted {
        return Result(false, MapDropReason(added.reason), ev.query, 0);
      }
      log := log + [EntryOf(service.text, h.cfg, ev, now)];
      History.AcceptedSurvives(service.text, h, ev, now);
      var count := aggregator.CountAt(ev.query, now);
      return Result(true, NoReason, ev.query, count);
    }
  }
}
