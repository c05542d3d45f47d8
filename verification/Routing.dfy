/**
 Runs of the sharded aggregator on events as callers give them.  Routing hashes
 the query as given, storing trims it; the theorems say exactly when a key is
 split over shards, and that callers who trim never split one.
 */
module Routing {
  import opened Text
  import opened Ring
  import opened Selection
  import opened AggregatorStore
  import History

  /** An accepted event: the query as given, which selects the shard, and the entry the shard counts. */
  datatype Arrival = Arrival(raw: string, entry: Entry)

  datatype Fleet = Fleet(hists: seq<History.Reached>, log: seq<Arrival>)

  datatype Op = Add(event: Event, now: int) | Scan(now: int) | Count(query: string, now: int)

  ghost function Begin(c: Config, shards: nat): Fleet {
    Fleet(seq(shards, _ => FreshShard(c)), [])
  }

  ghost function FreshShard(c: Config): History.Reached {
    History.StartInv(c);
    History.Start(c)
  }

  ghost function Added(u: Unicode, hash: string -> nat, f: Fleet, ev: Event, now: int): (r: Fleet)
    requires |f.hists| > 0
    ensures |r.hists| == |f.hists|
  {
    var h := f.hists[Index(hash, ev.query, |f.hists|)];
    Fleet(
      Routed(u, hash, f.hists, ev, now),
      if Decision(u, h.cfg, h.ring, ev, now) == NotDropped
      then f.log + [Arrival(ev.query, EntryOf(u, h.cfg, ev, now))] else f.log)
  }

  ghost function Counted(hash: string -> nat, f: Fleet, query: string, now: int): (r: Fleet)
    requires |f.hists| > 0
    ensures |r.hists| == |f.hists|
  {
    var i := Index(hash, query, |f.hists|);
    f.(hists := f.hists[i := History.Expired(f.hists[i], now)])
  }

  /** Each operation of the aggregator; every scan expires all shards, a count only the query's own. */
  ghost function Step(u: Unicode, hash: string -> nat, f: Fleet, op: Op): (r: Fleet)
    requires |f.hists| > 0
    ensures |r.hists| == |f.hists|
  {
    match op
    case Add(ev, now) => Added(u, hash, f, ev, now)
    case Scan(now) => f.(hists := ExpireShards(f.hists, now))
    case Count(query, now) => Counted(hash, f, query, now)
  }

  ghost function Run(u: Unicode, hash: string -> nat, c: Config, shards: nat, ops: seq<Op>): (f: Fleet)
    requires shards > 0
    ensures |f.hists| == shards
  {
    if ops == [] then Begin(c, shards)
    else Step(u, hash, Run(u, hash, c, shards, ops[..|ops| - 1]), ops[|ops| - 1])
  }

  // ---------- the shards' logs are the routed log ----------

  predicate Sent(hash: string -> nat, log: seq<Arrival>, shards: nat, i: nat, e: Entry) {
    exists a :: a in log && a.entry == e && Index(hash, a.raw, shards) == i
  }

  /** Each shard's log holds exactly the accepted events routed to it, each under its trimmed query. */
  ghost predicate Delivered(u: Unicode, hash: string -> nat, f: Fleet) {
    && (forall i, e :: 0 <= i < |f.hists| ==> (e in f.hists[i].log <==> Sent(hash, f.log, |f.hists|, i, e)))
    && (forall a :: a in f.log ==> a.entry.query == TrimSpace(u, a.raw))
  }

  lemma SentSnoc(hash: string -> nat, log: seq<Arrival>, a: Arrival, shards: nat, i: nat, e: Entry)
    ensures Sent(hash, log + [a], shards, i, e) <==>
              Sent(hash, log, shards, i, e) || (a.entry == e && Index(hash, a.raw, shards) == i)
  {
    hide Index;
    if Sent(hash, log, shards, i, e) {
      var b :| b in log && b.entry == e && Index(hash, b.raw, shards) == i;
      assert b in log + [a];
    }
    assert a in log + [a];
  }

  lemma AddedDelivered(u: Unicode, hash: string -> nat, f: Fleet, ev: Event, now: int)
    requires |f.hists| > 0 && Delivered(u, hash, f)
    ensures Delivered(u, hash, Added(u, hash, f, ev, now))
  {
    hide History.Inv, Decision, Index, TrimSpace, Sent, Clamped, BucketId;
    var n, k := |f.hists|, Index(hash, ev.query, |f.hists|);
    var h, r := f.hists[k], Added(u, hash, f, ev, now);
    History.InvRing(h);
    AddedLog(u, h, ev, now);
    if Decision(u, h.cfg, h.ring, ev, now) == NotDropped {
      var a := Arrival(ev.query, EntryOf(u, h.cfg, ev, now));
      forall i, e | 0 <= i < n ensures e in r.hists[i].log <==> Sent(hash, r.log, n, i, e) {
        SentSnoc(hash, f.log, a, n, i, e);
      }
    }
  }

  lemma ExpiredDelivered(u: Unicode, hash: string -> nat, f: Fleet, op: Op)
    requires |f.hists| > 0 && Delivered(u, hash, f) && !op.Add?
    ensures Delivered(u, hash, Step(u, hash, f, op))
  {
    hide History.Inv, Index, TrimSpace, Sent, Expire, MinBucketId;
    if op.Scan? { ScanKeeps(f.hists, op.now); }
  }

  lemma {:induction false} RunDelivers(u: Unicode, hash: string -> nat, c: Config, shards: nat, ops: seq<Op>)
    requires shards > 0
    ensures var f := Run(u, hash, c, shards, ops);
            Delivered(u, hash, f) && SameConfig(c, f.hists)
  {
    hide History.Inv, Delivered, Added, Index;
    if ops == [] {
      BeginDelivered(u, hash, c, shards);
    } else {
      var front, op := ops[..|ops| - 1], ops[|ops| - 1];
      var f := Run(u, hash, c, shards, front);
      RunDelivers(u, hash, c, shards, front);
      StepConfig(u, hash, c, f, op);
      if op.Add? {
        AddedDelivered(u, hash, f, op.event, op.now);
      } else {
        ExpiredDelivered(u, hash, f, op);
      }
    }
  }

  lemma BeginDelivered(u: Unicode, hash: string -> nat, c: Config, shards: nat)
    ensures Delivered(u, hash, Begin(c, shards)) && SameConfig(c, Begin(c, shards).hists)
  {
    hide History.Inv, Index;
  }

  lemma StepConfig(u: Unicode, hash: string -> nat, c: Config, f: Fleet, op: Op)
    requires |f.hists| > 0 && SameConfig(c, f.hists)
    ensures SameConfig(c, Step(u, hash, f, op).hists)
  {
    hide History.Inv, Index, Decision;
    match op
    case Add(ev, now) => AddedLog(u, f.hists[Index(hash, ev.query, |f.hists|)], ev, now);
    case Scan(now) => ScanKeeps(f.hists, now);
    case Count(_, _) =>
  }

  // ---------- when a key is split ----------

  /** Two accepted events in the window at `now` have one trimmed query and hash to different shards. */
  predicate SplitAt(hash: string -> nat, c: Config, shards: nat, log: seq<Arrival>, now: int) {
    exists a, b :: a in log && b in log && Parted(hash, shards, a, b) &&
                   a.entry.bucket >= MinBucketId(c, now) && b.entry.bucket >= MinBucketId(c, now)
  }

  predicate Parted(hash: string -> nat, shards: nat, a: Arrival, b: Arrival) {
    a.entry.query == b.entry.query && Index(hash, a.raw, shards) != Index(hash, b.raw, shards)
  }

  /** A shard shows a query only for a live accepted event, and for each one if it lost none. */
  lemma SeenIffLogged(h: History.Reached, now: int, q: string)
    ensures var logged := exists e :: e in h.log && e.bucket >= MinBucketId(h.cfg, now) && e.query == q;
            && (q in BagOf(History.Expired(h, now)) ==> logged)
            && (History.Kept(h, MinBucketId(h.cfg, now)) && logged ==> q in BagOf(History.Expired(h, now)))
  {
    hide History.Inv, History.CountLive, Queries, Contents, History.Kept, MinBucketId;
    History.LookBound(h, now);
    History.CountLivePositive(h.log, MinBucketId(h.cfg, now), q);
  }

  /** A query seen in a shard was sent there by a live accepted event. */
  lemma SeenWasSent(u: Unicode, hash: string -> nat, c: Config, f: Fleet, now: int, i: nat, q: string)
    returns (a: Arrival)
    requires Delivered(u, hash, f) && SameConfig(c, f.hists) && i < |f.hists| && q in SeenAt(f.hists, now)[i]
    ensures a in f.log && a.entry.query == q && a.entry.bucket >= MinBucketId(c, now)
    ensures Index(hash, a.raw, |f.hists|) == i
  {
    hide History.Inv, BagOf, History.Expired, Index, MinBucketId, TrimSpace;
    SeenIffLogged(f.hists[i], now, q);
    var e :| e in f.hists[i].log && e.bucket >= MinBucketId(c, now) && e.query == q;
    assert Sent(hash, f.log, |f.hists|, i, e);
    a :| a in f.log && a.entry == e && Index(hash, a.raw, |f.hists|) == i;
  }

  /** For any clock: shards overlap only over a split key. */
  lemma OverlapIsSplit(u: Unicode, hash: string -> nat, c: Config, f: Fleet, now: int)
    requires Delivered(u, hash, f) && SameConfig(c, f.hists) && !SplitAt(hash, c, |f.hists|, f.log, now)
    ensures Disjoint(SeenAt(f.hists, now))
  {
    hide History.Inv, BagOf, History.Expired, Index, MinBucketId, TrimSpace, Delivered, SameConfig, ExpireShards;
    var seen := SeenAt(f.hists, now);
    forall i, j, q | 0 <= i < j < |seen| && q in seen[i] ensures q !in seen[j] {
      if q in seen[j] { SeenTwiceIsSplit(u, hash, c, f, now, i, j, q); }
    }
  }

  lemma SeenTwiceIsSplit(u: Unicode, hash: string -> nat, c: Config, f: Fleet, now: int, i: nat, j: nat, q: string)
    requires Delivered(u, hash, f) && SameConfig(c, f.hists) && i < j < |f.hists|
    requires q in SeenAt(f.hists, now)[i] && q in SeenAt(f.hists, now)[j]
    ensures SplitAt(hash, c, |f.hists|, f.log, now)
  {
    hide History.Inv, BagOf, History.Expired, Index, MinBucketId, TrimSpace, Delivered, SameConfig, ExpireShards;
    var a := SeenWasSent(u, hash, c, f, now, i, q);
    var b := SeenWasSent(u, hash, c, f, now, j, q);
    assert Parted(hash, |f.hists|, a, b);
  }

  /** A live accepted event is seen in its shard, if that shard lost nothing. */
  lemma SentIsSeen(u: Unicode, hash: string -> nat, c: Config, f: Fleet, now: int, a: Arrival)
    requires |f.hists| > 0 && Delivered(u, hash, f) && SameConfig(c, f.hists)
    requires a in f.log && a.entry.bucket >= MinBucketId(c, now)
    requires History.Kept(f.hists[Index(hash, a.raw, |f.hists|)], MinBucketId(c, now))
    ensures a.entry.query in SeenAt(f.hists, now)[Index(hash, a.raw, |f.hists|)]
  {
    hide History.Inv, BagOf, History.Expired, Index, MinBucketId, TrimSpace, History.Kept;
    var i := Index(hash, a.raw, |f.hists|);
    assert Sent(hash, f.log, |f.hists|, i, a.entry);
    SeenIffLogged(f.hists[i], now, a.entry.query);
  }

  lemma DisjointIffNotSplit(u: Unicode, hash: string -> nat, c: Config, f: Fleet, now: int)
    requires |f.hists| > 0 && Delivered(u, hash, f) && SameConfig(c, f.hists) && AllKept(c, f.hists, now)
    ensures Disjoint(SeenAt(f.hists, now)) <==> !SplitAt(hash, c, |f.hists|, f.log, now)
  {
    hide History.Inv, BagOf, Index, MinBucketId, TrimSpace, Delivered, SameConfig, ExpireShards, History.Kept;
    if SplitAt(hash, c, |f.hists|, f.log, now) {
      var a, b :| a in f.log && b in f.log && Parted(hash, |f.hists|, a, b) &&
                  a.entry.bucket >= MinBucketId(c, now) && b.entry.bucket >= MinBucketId(c, now);
      SentIsSeen(u, hash, c, f, now, a);
      SentIsSeen(u, hash, c, f, now, b);
      var seen := SeenAt(f.hists, now);
      var i, j := Index(hash, a.raw, |f.hists|), Index(hash, b.raw, |f.hists|);
      assert i < j || j < i;
      assert a.entry.query in seen[i] && a.entry.query in seen[j];
    } else {
      OverlapIsSplit(u, hash, c, f, now);
    }
  }

  // ---------- runs ----------

  ghost predicate OrderedOps(ops: seq<Op>) {
    forall i, j :: 0 <= i <= j < |ops| ==> ops[i].now <= ops[j].now
  }

  lemma StepPunctual(u: Unicode, hash: string -> nat, f: Fleet, op: Op, now: int)
    requires |f.hists| > 0 && Punctual(f.hists, now) && now <= op.now
    ensures Punctual(Step(u, hash, f, op).hists, op.now)
  {
    hide History.Inv, Decision, History.AddAt, Index;
    match op
    case Add(ev, t) => History.AddedPunctual(u, f.hists[Index(hash, ev.query, |f.hists|)], ev, t);
    case Scan(t) => ScanKeeps(f.hists, t);
    case Count(_, _) =>
  }

  lemma {:induction false} RunIsPunctual(u: Unicode, hash: string -> nat, c: Config, shards: nat,
                                         ops: seq<Op>, now: int)
    requires shards > 0 && OrderedOps(ops) && (ops != [] ==> ops[|ops| - 1].now <= now)
    ensures Punctual(Run(u, hash, c, shards, ops).hists, now)
  {
    hide History.Inv, Step;
    if ops != [] {
      var front, op := ops[..|ops| - 1], ops[|ops| - 1];
      assert front != [] ==> front[|front| - 1] == ops[|ops| - 2];
      RunIsPunctual(u, hash, c, shards, front, op.now);
      StepPunctual(u, hash, Run(u, hash, c, shards, front), op, op.now);
    }
  }

  /**
   The failure of routing, exactly.  In a run of the aggregator whose clock does not
   go back, a scan at `now` lists the shards like one undivided window if and only if
   no two accepted events in the window share a trimmed query and hash apart.
   */
  lemma RunActsAsOneIffNotSplit(u: Unicode, hash: string -> nat, c: Config, shards: nat, ops: seq<Op>, now: int)
    requires shards > 0 && OrderedOps(ops) && (ops != [] ==> ops[|ops| - 1].now <= now)
    ensures var f := Run(u, hash, c, shards, ops);
            var seen := SeenAt(f.hists, now);
            && (Disjoint(seen) <==> !SplitAt(hash, c, shards, f.log, now))
            && (ShardItems(seen, Any) == ItemsOf(Union(seen), Any) <==> !SplitAt(hash, c, shards, f.log, now))
  {
    hide History.Inv, Run, SeenAt, ShardItems, ItemsOf, Union, Disjoint, SplitAt, AllKept, Delivered;
    var f := Run(u, hash, c, shards, ops);
    RunIsPunctual(u, hash, c, shards, ops, now);
    RunDelivers(u, hash, c, shards, ops);
    PunctualIsKept(c, f.hists, now);
    DisjointIffNotSplit(u, hash, c, f, now);
    ShardsActAsOneIffDisjoint(SeenAt(f.hists, now));
  }

  /** Every event arrives with its query trimmed. */
  predicate Trimmed(u: Unicode, ops: seq<Op>) {
    forall i :: 0 <= i < |ops| && ops[i].Add? ==> TrimSpace(u, ops[i].event.query) == ops[i].event.query
  }

  lemma {:induction false} RunTrimmed(u: Unicode, hash: string -> nat, c: Config, shards: nat, ops: seq<Op>)
    requires shards > 0 && Trimmed(u, ops)
    ensures forall a :: a in Run(u, hash, c, shards, ops).log ==> a.entry.query == a.raw
  {
    hide History.Inv, Decision, Index, TrimSpace, Routed, ExpireShards;
    if ops != [] { RunTrimmed(u, hash, c, shards, ops[..|ops| - 1]); }
  }

  /** What callers owe: if all queries arrive trimmed, no key is ever split, whatever the clock does. */
  lemma TrimmedNeverSplits(u: Unicode, hash: string -> nat, c: Config, shards: nat, ops: seq<Op>, now: int)
    requires shards > 0 && Trimmed(u, ops)
    ensures Disjoint(SeenAt(Run(u, hash, c, shards, ops).hists, now))
  {
    hide History.Inv, Run, SeenAt, Disjoint, Index, MinBucketId, Delivered, Trimmed;
    var f := Run(u, hash, c, shards, ops);
    RunTrimmed(u, hash, c, shards, ops);
    RunDelivers(u, hash, c, shards, ops);
    OverlapIsSplit(u, hash, c, f, now);
  }
}
