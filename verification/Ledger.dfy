/**
 The window against the events as callers give them.  A receipt is an accepted
 event with the instant it was accepted at; counts and decisions are stated on
 receipts, trimmed text and quotients, without the entries the window files.
 */
module Ledger {
  import opened Bags
  import opened Text
  import opened Ring
  import History

  datatype Receipt = Receipt(event: Event, now: int)

  ghost function Receipts(u: Unicode, c: Config, ops: seq<History.Op>): seq<Receipt> {
    if ops == [] then [] else
      var front, op := ops[..|ops| - 1], ops[|ops| - 1];
      if History.Accepts(u, History.Run(u, c, front), op)
      then Receipts(u, c, front) + [Receipt(op.event, op.now)] else Receipts(u, c, front)
  }

  /** The number of the bucket an instant falls into, rounding toward zero. */
  function BucketAt(c: Config, t: int): int {
    if t >= 0 then t / c.bucketSize else -(-t / c.bucketSize)
  }

  /** An event from the future is filed under the instant it arrives at. */
  function BucketOf(c: Config, r: Receipt): int {
    BucketAt(c, if r.event.occurredAt > r.now then r.now else r.event.occurredAt)
  }

  /** The first bucket of the window at `now`. */
  function Floor(c: Config, now: int): int {
    BucketAt(c, now - c.windowSize)
  }

  /** How many receipts satisfy `p`. */
  function Tally(p: Receipt -> bool, rs: seq<Receipt>): nat {
    if rs == [] then 0 else Tally(p, rs[..|rs| - 1]) + if p(rs[|rs| - 1]) then 1 else 0
  }

  function ForQuery(u: Unicode, c: Config, floor: int, q: string): Receipt -> bool {
    (r: Receipt) => BucketOf(c, r) >= floor && TrimSpace(u, r.event.query) == q
  }

  function ForActor(u: Unicode, c: Config, floor: int, q: string, a: string): Receipt -> bool {
    (r: Receipt) =>
      BucketOf(c, r) >= floor && TrimSpace(u, r.event.query) == q && TrimSpace(u, r.event.actorKey) == a
  }

  function ForAny(c: Config, floor: int): Receipt -> bool {
    (r: Receipt) => BucketOf(c, r) >= floor
  }

  /** The different queries accepted at or above a bucket. */
  function LiveQueries(u: Unicode, c: Config, floor: int, rs: seq<Receipt>): set<string> {
    set i | 0 <= i < |rs| && BucketOf(c, rs[i]) >= floor :: TrimSpace(u, rs[i].event.query)
  }

  /** The different queries accepted into one bucket. */
  function BucketQueries(u: Unicode, c: Config, id: int, rs: seq<Receipt>): set<string> {
    set i | 0 <= i < |rs| && BucketOf(c, rs[i]) == id :: TrimSpace(u, rs[i].event.query)
  }

  // ---------- the log is the receipts ----------

  predicate Booked(u: Unicode, c: Config, e: Entry, r: Receipt) {
    && e.query == TrimSpace(u, r.event.query)
    && e.actor == TrimSpace(u, r.event.actorKey)
    && e.time <= r.now && e.time <= r.event.occurredAt && (e.time == r.now || e.time == r.event.occurredAt)
    && e.bucket == BucketOf(c, r)
  }

  ghost predicate BookedAll(u: Unicode, c: Config, log: seq<Entry>, rs: seq<Receipt>) {
    |log| == |rs| && forall i :: 0 <= i < |rs| ==> Booked(u, c, log[i], rs[i])
  }

  lemma EntryIsBooked(u: Unicode, c: Config, ev: Event, now: int)
    ensures Booked(u, c, EntryOf(u, c, ev, now), Receipt(ev, now))
    ensures Floor(c, now) == MinBucketId(c, now)
  {
    hide BucketId, TrimSpace, BucketAt;
    BucketIsQuotient(c, Clamped(ev, now));
    BucketIsQuotient(c, now - c.windowSize);
  }

  lemma BucketIsQuotient(c: Config, t: int)
    ensures BucketAt(c, t) == BucketId(c, t)
  {
    IdsAreQuotients(c, t);
  }

  lemma {:induction false} RunBooks(u: Unicode, c: Config, ops: seq<History.Op>)
    ensures BookedAll(u, c, History.Run(u, c, ops).log, Receipts(u, c, ops))
  {
    hide Decision, Booked, EntryOf, Expire, Put, Recycle, MinBucketId;
    if ops != [] {
      var front, op := ops[..|ops| - 1], ops[|ops| - 1];
      RunBooks(u, c, front);
      if op.Add? { EntryIsBooked(u, c, op.event, op.now); }
    }
  }

  lemma {:induction false} BookedCounts(u: Unicode, c: Config, log: seq<Entry>, rs: seq<Receipt>,
                                       floor: int, q: string, a: string)
    requires BookedAll(u, c, log, rs)
    ensures History.CountLive(log, floor, q) == Tally(ForQuery(u, c, floor, q), rs)
    ensures a != "" ==> History.CountLiveActor(log, floor, ActorQuery(q, a)) == Tally(ForActor(u, c, floor, q, a), rs)
    ensures History.CountAllLive(log, floor) == Tally(ForAny(c, floor), rs)
  {
    hide TrimSpace, BucketOf;
    if rs != [] {
      var n := |rs| - 1;
      BookedCounts(u, c, log[..n], rs[..n], floor, q, a);
      assert Booked(u, c, log[n], rs[n]);
    }
  }

  /**
   What a run logs is what it was given: for every query and every actor that is not
   blank, and in total, as many events at or above a bucket as were accepted there.
   */
  lemma LoggedAsGiven(u: Unicode, c: Config, ops: seq<History.Op>, floor: int, q: string, a: string)
    ensures var log, rs := History.Run(u, c, ops).log, Receipts(u, c, ops);
            && History.CountLive(log, floor, q) == Tally(ForQuery(u, c, floor, q), rs)
            && (a != "" ==>
                  History.CountLiveActor(log, floor, ActorQuery(q, a)) == Tally(ForActor(u, c, floor, q, a), rs))
            && History.CountAllLive(log, floor) == Tally(ForAny(c, floor), rs)
  {
    RunBooks(u, c, ops);
    BookedCounts(u, c, History.Run(u, c, ops).log, Receipts(u, c, ops), floor, q, a);
  }

  /** A look at `now` shows the receipts of the window, if no operation lost one of them. */
  lemma SeenAsGiven(u: Unicode, c: Config, ops: seq<History.Op>, now: int, q: string, a: string)
    requires History.NothingLost(u, c, ops, Floor(c, now))
    ensures var seen := Contents(History.Run(u, c, ops + [History.Look(now)]).ring);
            var rs := Receipts(u, c, ops);
            && Queries(seen)[q] == Tally(ForQuery(u, c, Floor(c, now), q), rs)
            && (a != "" ==> Actors(seen)[ActorQuery(q, a)] == Tally(ForActor(u, c, Floor(c, now), q, a), rs))
            && |seen| == Tally(ForAny(c, Floor(c, now)), rs)
  {
    hide History.Run, Queries, Actors, Contents, Floor, MinBucketId, History.NothingLost;
    FloorIs(c, now);
    History.LookAgreesIffNothingLost(u, c, ops, now);
    History.RunSnoc(u, c, ops, History.Look(now));
    LoggedAsGiven(u, c, ops, Floor(c, now), q, a);
  }

  lemma FloorIs(c: Config, now: int)
    ensures Floor(c, now) == MinBucketId(c, now)
  {
    BucketIsQuotient(c, now - c.windowSize);
  }

  // ---------- why an event is refused ----------

  /** The entries of one bucket in the ring are the logged ones, if none at or above it was lost. */
  lemma BucketHolds(h: History.History, e: Entry, x: Entry, now: int)
    requires History.Inv(h) && History.Kept(h, MinBucketId(h.cfg, now)) && e.bucket >= MinBucketId(h.cfg, now)
    ensures var r := History.ExpireAt(h, now).ring;
            Entries(RecycleSlot(r[SlotOf(r, e)], e.bucket))[x] == if x.bucket == e.bucket then multiset(h.log)[x] else 0
  {
    hide Contents, WithinLimits, History.Bounded, History.Exact, BucketIndex, MinBucketId, Expire;
    var min := MinBucketId(h.cfg, now);
    var r := Expire(h.ring, min);
    var slot := r[SlotOf(r, e)];
    ExpireFiled(h.ring, min);
    ExpireContentsAt(h.ring, min, x);
    ContentsAt(r, x);
    assert x in Entries(slot) ==> slot.id == x.bucket;
    assert x.bucket == e.bucket ==> SlotOf(r, x) == SlotOf(r, e);
  }

  /** For any clock it holds no more than the logged ones of that bucket. */
  lemma BucketHoldsAtMost(h: History.History, e: Entry, x: Entry, now: int)
    requires History.Inv(h)
    ensures var r := History.ExpireAt(h, now).ring;
            x in Entries(RecycleSlot(r[SlotOf(r, e)], e.bucket)) ==> x.bucket == e.bucket && x in h.log
  {
    hide Contents, WithinLimits, History.Bounded, History.Exact, BucketIndex, MinBucketId, Expire;
    var min := MinBucketId(h.cfg, now);
    var r := Expire(h.ring, min);
    var slot := r[SlotOf(r, e)];
    ExpireFiled(h.ring, min);
    ExpireContents(h.ring, min);
    ContentsAt(r, x);
    if x in Entries(RecycleSlot(slot, e.bucket)) {
      assert slot.id == x.bucket;
      assert Contents(r)[x] <= Contents(h.ring)[x] <= multiset(h.log)[x];
      assert x in multiset(h.log);
    }
  }

  /** The queries of a bag of entries are those of its members. */
  lemma QueriesHas(es: multiset<Entry>, q: string)
    ensures q in Queries(es) <==> exists x :: x in es && x.query == q
  {
    if q in Queries(es) {
      CollectSource(QueryOf, es, q);
      var x :| x in es && q in QueryOf(x);
      assert x.query == q;
    } else if x :| x in es && x.query == q {
      var rest := es - multiset{x};
      assert rest + multiset{x} == es;
      CollectAdd(QueryOf, rest, x);
    }
  }

  /** The different queries of the bucket an event goes to. */
  lemma BucketQueriesAre(u: Unicode, c: Config, h: History.Reached, rs: seq<Receipt>, e: Entry, now: int)
    requires h.cfg == c && BookedAll(u, c, h.log, rs)
    ensures var r := History.ExpireAt(h, now).ring;
            var held := Support(Queries(Entries(RecycleSlot(r[SlotOf(r, e)], e.bucket))));
            && held <= BucketQueries(u, c, e.bucket, rs)
            && (History.Kept(h, MinBucketId(c, now)) && e.bucket >= MinBucketId(c, now) ==>
                  held == BucketQueries(u, c, e.bucket, rs))
  {
    hide Contents, Queries, History.Kept, MinBucketId, BucketOf, BucketIndex, TrimSpace, Expire;
    History.InvRing(h);
    var r := History.ExpireAt(h, now).ring;
    var held := Entries(RecycleSlot(r[SlotOf(r, e)], e.bucket));
    forall q | q in Queries(held) ensures q in BucketQueries(u, c, e.bucket, rs) {
      QueriesHas(held, q);
      var x :| x in held && x.query == q;
      BucketHoldsAtMost(h, e, x, now);
      var i :| 0 <= i < |h.log| && h.log[i] == x;
      assert Booked(u, c, h.log[i], rs[i]);
    }
    if History.Kept(h, MinBucketId(c, now)) && e.bucket >= MinBucketId(c, now) {
      forall q | q in BucketQueries(u, c, e.bucket, rs) ensures q in Queries(held) {
        var i :| 0 <= i < |rs| && BucketOf(c, rs[i]) == e.bucket && TrimSpace(u, rs[i].event.query) == q;
        assert Booked(u, c, h.log[i], rs[i]);
        BucketHolds(h, e, h.log[i], now);
        assert h.log[i] in multiset(h.log);
        QueriesHas(held, q);
      }
    }
  }

  /** The different queries of the window. */
  lemma LiveQueriesAre(u: Unicode, c: Config, h: History.Reached, rs: seq<Receipt>, now: int)
    requires h.cfg == c && BookedAll(u, c, h.log, rs)
    ensures var seen := Support(Queries(Contents(History.ExpireAt(h, now).ring)));
            var all := LiveQueries(u, c, Floor(c, now), rs);
            seen <= all && (History.Kept(h, MinBucketId(c, now)) ==> seen == all)
  {
    hide Contents, Queries, History.Kept, MinBucketId, BucketOf, TrimSpace, Expire, Floor;
    hide History.CountLive, History.Inv;
    FloorIs(c, now);
    History.LookBound(h, now);
    var seen, min := Queries(Contents(History.ExpireAt(h, now).ring)), MinBucketId(c, now);
    forall q
      ensures q in LiveQueries(u, c, min, rs) <==> History.CountLive(h.log, min, q) > 0
      ensures seen[q] <= History.CountLive(h.log, min, q)
    {
      History.CountLivePositive(h.log, min, q);
      if e :| e in h.log && e.bucket >= min && e.query == q {
        var i :| 0 <= i < |h.log| && h.log[i] == e;
        assert Booked(u, c, h.log[i], rs[i]);
      }
      if q in LiveQueries(u, c, min, rs) {
        var i :| 0 <= i < |rs| && BucketOf(c, rs[i]) >= min && TrimSpace(u, rs[i].event.query) == q;
        assert Booked(u, c, h.log[i], rs[i]);
      }
    }
  }

  /** What the events accepted so far say of an event at `now`. */
  datatype Standing = Standing(
    blank: bool,     // no query is left after trimming
    early: bool,     // from beyond the future skew
    late: bool,      // in a bucket below the window
    tired: bool,     // the actor has reached the limit for the query
    full: bool,      // the query is new to the window and the window has no room for another
    crowded: bool)   // the query is new to its bucket and the bucket has no room for another

  ghost function StandingOf(u: Unicode, c: Config, rs: seq<Receipt>, ev: Event, now: int): Standing {
    var q, a := TrimSpace(u, ev.query), TrimSpace(u, ev.actorKey);
    var floor, id := Floor(c, now), BucketOf(c, Receipt(ev, now));
    Standing(
      q == "",
      ev.occurredAt > now + c.maxFutureSkew,
      id < floor,
      a != "" && Tally(ForActor(u, c, floor, q, a), rs) >= c.perActorQueryLimit,
      q !in LiveQueries(u, c, floor, rs) && |LiveQueries(u, c, floor, rs)| >= c.maxUniqueQueries,
      q !in BucketQueries(u, c, id, rs) && |BucketQueries(u, c, id, rs)| >= c.maxUniqueQueriesPerBucket)
  }

  /**
   Why an event is refused, read off the events accepted before.  The first three
   reasons depend on the event alone.  The limits are applied in the order actor,
   window, bucket, and each exactly when it is reached, if the window has lost nothing.
   */
  lemma DecidedAsGiven(u: Unicode, c: Config, ops: seq<History.Op>, ev: Event, now: int)
    ensures var d := Decision(u, c, History.Run(u, c, ops).ring, ev, now);
            var st := StandingOf(u, c, Receipts(u, c, ops), ev, now);
            var sound := !st.blank && !st.early && !st.late;
            && (d == EmptyQuery <==> st.blank)
            && (d == FromFuture <==> !st.blank && st.early)
            && (d == TooOld <==> !st.blank && !st.early && st.late)
            && (History.NothingLost(u, c, ops, Floor(c, now)) ==>
                  && (d == ActorQueryLimit <==> sound && st.tired)
                  && (d == CardinalityLimit <==> sound && !st.tired && st.full)
                  && (d == BucketCardinalityLimit <==> sound && !st.tired && !st.full && st.crowded)
                  && (d == NotDropped <==> sound && !st.tired && !st.full && !st.crowded))
  {
    hide History.Run, StandingOf, Receipts, Decision, History.NothingLost, Floor, MinBucketId;
    var h, rs := History.Run(u, c, ops), Receipts(u, c, ops);
    FloorIs(c, now);
    RunBooks(u, c, ops);
    History.RunInv(u, c, ops);
    History.RunKept(u, c, ops, Floor(c, now));
    ReachedDecides(u, c, h, rs, ev, now);
  }

  lemma ReachedDecides(u: Unicode, c: Config, h: History.Reached, rs: seq<Receipt>, ev: Event, now: int)
    requires h.cfg == c && BookedAll(u, c, h.log, rs)
    ensures |h.ring| > 0
    ensures var d, st := Decision(u, c, h.ring, ev, now), StandingOf(u, c, rs, ev, now);
            var sound := !st.blank && !st.early && !st.late;
            && (d == EmptyQuery <==> st.blank)
            && (d == FromFuture <==> !st.blank && st.early)
            && (d == TooOld <==> !st.blank && !st.early && st.late)
            && (History.Kept(h, Floor(c, now)) ==>
                  && (d == ActorQueryLimit <==> sound && st.tired)
                  && (d == CardinalityLimit <==> sound && !st.tired && st.full)
                  && (d == BucketCardinalityLimit <==> sound && !st.tired && !st.full && st.crowded)
                  && (d == NotDropped <==> sound && !st.tired && !st.full && !st.crowded))
  {
    hide Contents, Queries, Actors, History.Kept, MinBucketId, BucketOf, TrimSpace, Expire, Floor, Tally;
    hide LiveQueries, BucketQueries, History.Inv, BucketIndex;
    History.InvRing(h);
    var e, r := EntryOf(u, c, ev, now), History.ExpireAt(h, now).ring;
    EntryIsBooked(u, c, ev, now);
    FloorIs(c, now);
    ActorIs(u, c, h, rs, e.query, e.actor, now);
    LiveQueriesAre(u, c, h, rs, now);
    BucketQueriesAre(u, c, h, rs, e, now);
  }

  lemma ActorIs(u: Unicode, c: Config, h: History.Reached, rs: seq<Receipt>, q: string, a: string, now: int)
    requires h.cfg == c && BookedAll(u, c, h.log, rs)
    ensures History.Kept(h, Floor(c, now)) && a != "" ==>
              Actors(Contents(History.ExpireAt(h, now).ring))[ActorQuery(q, a)] ==
              Tally(ForActor(u, c, Floor(c, now), q, a), rs)
  {
    hide Contents, Queries, Actors, History.Kept, MinBucketId, Expire, Floor, Tally;
    hide History.Inv, History.CountLiveActor;
    FloorIs(c, now);
    History.LookBound(h, now);
    BookedCounts(u, c, h.log, rs, Floor(c, now), q, a);
  }

  /**
   For any clock, lost events only make the window more generous: the actor limit
   refuses no earlier, and the cardinality limits need as many different queries.
   */
  lemma RefusedOnlyAtLimit(u: Unicode, c: Config, ops: seq<History.Op>, ev: Event, now: int)
    ensures var d, rs := Decision(u, c, History.Run(u, c, ops).ring, ev, now), Receipts(u, c, ops);
            var st := StandingOf(u, c, rs, ev, now);
            && (d == ActorQueryLimit ==> st.tired)
            && (d == CardinalityLimit ==> |LiveQueries(u, c, Floor(c, now), rs)| >= c.maxUniqueQueries)
            && (d == BucketCardinalityLimit ==>
                  |BucketQueries(u, c, BucketOf(c, Receipt(ev, now)), rs)| >= c.maxUniqueQueriesPerBucket)
  {
    hide Contents, Queries, Actors, History.Kept, MinBucketId, BucketOf, TrimSpace, Expire, Floor, Tally;
    hide LiveQueries, BucketQueries, History.Inv, BucketIndex, History.Run, Receipts, History.CountLiveActor;
    var h, rs := History.Run(u, c, ops), Receipts(u, c, ops);
    var e, r := EntryOf(u, c, ev, now), History.ExpireAt(h, now).ring;
    var slot := r[SlotOf(r, e)];
    RunBooks(u, c, ops);
    History.RunInv(u, c, ops);
    EntryIsBooked(u, c, ev, now);
    FloorIs(c, now);
    History.LookBound(h, now);
    BookedCounts(u, c, h.log, rs, Floor(c, now), e.query, e.actor);
    LiveQueriesAre(u, c, h, rs, now);
    BucketQueriesAre(u, c, h, rs, e, now);
    SubsetSize(Support(Queries(Contents(r))), LiveQueries(u, c, Floor(c, now), rs));
    SubsetSize(Support(Queries(Entries(RecycleSlot(slot, e.bucket)))), BucketQueries(u, c, e.bucket, rs));
  }

  /** An accepted event is the next receipt; a refused one and a look leave none. */
  lemma NextReceipt(u: Unicode, c: Config, ops: seq<History.Op>, op: History.Op)
    ensures Receipts(u, c, ops + [op]) ==
            Receipts(u, c, ops) +
            if op.Add? && Decision(u, c, History.Run(u, c, ops).ring, op.event, op.now) == NotDropped
            then [Receipt(op.event, op.now)] else []
  {
    hide Decision;
    assert (ops + [op])[..|ops|] == ops;
  }
}
