/** internal/snapshot: the immutable ranking that readers are served from. */
module SnapshotStore {
  import opened Wrappers
  import opened Ordering
  import opened Selection

  const MAX_LIMIT := 100

  datatype Options = Options(windowSeconds: int, maxLimit: int, precomputedLimits: seq<int>)

  const DEFAULT_OPTIONS := Options(300, MAX_LIMIT, [10, 20, 50, 100])

  function WithDefaultOptions(o: Options): Options {
    Options(
      if o.windowSeconds == 0 then DEFAULT_OPTIONS.windowSeconds else o.windowSeconds,
      if o.maxLimit == 0 then DEFAULT_OPTIONS.maxLimit else o.maxLimit,
      if |o.precomputedLimits| == 0 then DEFAULT_OPTIONS.precomputedLimits else o.precomputedLimits)
  }

  datatype SnapshotError = InvalidLimit | LimitTooLarge | InvalidWindowSeconds | EncodingFailed

  datatype Attempt<+T> = Success(value: T) | Failure(error: SnapshotError)

  datatype Response = Response(windowSeconds: int, generatedAt: int, items: seq<Item>)

  /** JSON encoding is some function of the response; `None` is an encoding error. */
  type Encoder = Response -> Option<string>

  datatype Snapshot = Snapshot(generatedAt: int, windowSeconds: int, items: seq<Item>, jsonByLimit: map<int, string>)

  function ValidateLimit(limit: int): Option<SnapshotError> {
    if limit <= 0 then Some(InvalidLimit)
    else if limit > MAX_LIMIT then Some(LimitTooLarge)
    else None
  }

  function ItemsForLimit(s: Snapshot, limit: nat): seq<Item> {
    if |s.items| == 0 then [] else
      var n := if limit > |s.items| then |s.items| else limit;
      s.items[..n]
  }

  function ResponseFor(s: Snapshot, limit: int): Attempt<Response> {
    match ValidateLimit(limit)
    case Some(e) => Failure(e)
    case None => Success(Response(s.windowSeconds, s.generatedAt, ItemsForLimit(s, limit)))
  }

  function MarshalLimit(encode: Encoder, s: Snapshot, limit: int): Attempt<string> {
    match ResponseFor(s, limit)
    case Failure(e) => Failure(e)
    case Success(r) =>
      match encode(r)
      case None => Failure(EncodingFailed)
      case Some(payload) => Success(payload)
  }

  function PrecomputedJSON(s: Snapshot, limit: int): Option<string> {
    if limit in s.jsonByLimit then Some(s.jsonByLimit[limit]) else None
  }

  /** What `New` keeps of the items it is given. */
  function Bare(items: seq<Item>, generatedAt: int, o: Options): Snapshot
    requires o.maxLimit > 0
  {
    Snapshot(generatedAt, o.windowSeconds, Take(items, o.maxLimit), map[])
  }

  /** A limit `New` encodes ahead of time. */
  predicate Wanted(o: Options, limit: int) {
    0 < limit <= o.maxLimit && limit in o.precomputedLimits
  }

  /** Whether `New` succeeds: positive sizes, and every wanted limit can be encoded. */
  ghost predicate Buildable(items: seq<Item>, generatedAt: int, raw: Options, encode: Encoder) {
    var o := WithDefaultOptions(raw);
    && o.windowSeconds > 0
    && o.maxLimit > 0
    && forall l :: Wanted(o, l) ==> MarshalLimit(encode, Bare(items, generatedAt, o), l).Success?
  }

  /** No limit that `New` would encode ahead of time is above the limit readers may ask for. */
  predicate LimitsServable(o: Options) {
    forall l :: l in o.precomputedLimits ==> !(MAX_LIMIT < l <= o.maxLimit)
  }

  /**
   A larger `MaxLimit` does not raise what can be asked for: `New` fails for options
   that precompute a limit above 100 within it.  With an encoder that never fails
   this, and sizes that are not positive, is all it fails for.
   */
  lemma BuildableIffServable(items: seq<Item>, generatedAt: int, raw: Options, encode: Encoder)
    ensures var o := WithDefaultOptions(raw);
            Buildable(items, generatedAt, raw, encode) ==> LimitsServable(o)
    ensures var o := WithDefaultOptions(raw);
            (forall r :: encode(r).Some?) ==>
              (Buildable(items, generatedAt, raw, encode) <==>
                 o.windowSeconds > 0 && o.maxLimit > 0 && LimitsServable(o))
  {
    var o := WithDefaultOptions(raw);
    if o.windowSeconds > 0 && o.maxLimit > 0 {
      var s := Bare(items, generatedAt, o);
      if l :| l in o.precomputedLimits && MAX_LIMIT < l <= o.maxLimit {
        assert Wanted(o, l) && MarshalLimit(encode, s, l) == Failure(LimitTooLarge);
      } else if forall r :: encode(r).Some? {
        forall l | Wanted(o, l) ensures MarshalLimit(encode, s, l).Success? {
          assert ResponseFor(s, l).Success?;
        }
      }
    }
  }

  /** Options that allow 200 items and precompute the first 150 of them: no encoder helps. */
  lemma LargeLimitFails(items: seq<Item>, generatedAt: int, encode: Encoder)
    ensures !Buildable(items, generatedAt, Options(300, 200, [150]), encode)
  {
    BuildableIffServable(items, generatedAt, Options(300, 200, [150]), encode);
    assert 150 in [150];
  }

  /**
   `New` succeeds exactly when the options are positive and every wanted limit can
   be encoded; the snapshot then holds the first items and one payload per wanted
   limit, each the encoding of what `Response` returns for that limit.
   */
  method New(items: seq<Item>, generatedAt: int, raw: Options, encode: Encoder) returns (r: Attempt<Snapshot>)
    ensures r.Success? <==> Buildable(items, generatedAt, raw, encode)
    ensures var o := WithDefaultOptions(raw);
            r.Success? ==>
              && r.value.generatedAt == generatedAt
              && r.value.windowSeconds == o.windowSeconds
              && r.value.items == Take(items, o.maxLimit)
              && (forall l :: l in r.value.jsonByLimit <==> 0 < l <= o.maxLimit && l in o.precomputedLimits)
              && (forall l :: l in r.value.jsonByLimit ==>
                    && l <= MAX_LIMIT
                    && encode(Response(o.windowSeconds, generatedAt, Take(items, l))) == Some(r.value.jsonByLimit[l]))
    ensures var o := WithDefaultOptions(raw);
            r.Failure? ==>
              if o.windowSeconds <= 0 then r.error == InvalidWindowSeconds
              else if o.maxLimit <= 0 then r.error == InvalidLimit
              else exists l :: Wanted(o, l) && MarshalLimit(encode, Bare(items, generatedAt, o), l) == Failure(r.error)
  {
    var o := WithDefaultOptions(raw);
    if o.windowSeconds <= 0 {
      return Failure(InvalidWindowSeconds);
    }
    if o.maxLimit <= 0 {
      return Failure(InvalidLimit);
    }
    var copied := items;
    if |copied| > o.maxLimit {
      copied := copied[..o.maxLimit];
    }
    var s := Snapshot(generatedAt, o.windowSeconds, copied, map[]);
    var json: map<int, string> := map[];
    for i := 0 to |o.precomputedLimits|
      invariant forall l :: l in json <==> 0 < l <= o.maxLimit && l in o.precomputedLimits[..i]
      invariant forall l :: l in json ==> MarshalLimit(encode, s, l) == Success(json[l])
    {
      var limit := o.precomputedLimits[i];
      assert o.precomputedLimits[..i + 1] == o.precomputedLimits[..i] + [limit];
      if limit <= 0 || limit > o.maxLimit {
        continue;
      }
      var payload := MarshalLimit(encode, s, limit);
      if payload.Failure? {
        assert Wanted(o, limit);
        return Failure(payload.error);
      }
      json := json[limit := payload.value];
    }
    assert o.precomputedLimits[..|o.precomputedLimits|] == o.precomputedLimits;
    r := Success(s.(jsonByLimit := json));
    forall l | l in json
      ensures l <= MAX_LIMIT && encode(Response(o.windowSeconds, generatedAt, Take(items, l))) == Some(json[l])
    {
      PayloadEncodesResponse(encode, s, l);
      TakeTake(items, o.maxLimit, l);
    }
  }

  /** A limit outside 1 to 100 is refused; for any other, the payload encodes the response with the first items. */
  lemma PayloadEncodesResponse(encode: Encoder, s: Snapshot, limit: int)
    ensures limit <= 0 ==> ResponseFor(s, limit) == Failure(InvalidLimit)
    ensures limit > 100 ==> ResponseFor(s, limit) == Failure(LimitTooLarge)
    ensures limit <= 0 || limit > 100 ==> !MarshalLimit(encode, s, limit).Success?
    ensures 1 <= limit <= 100 ==>
              && ResponseFor(s, limit) == Success(Response(s.windowSeconds, s.generatedAt, Take(s.items, limit)))
              && MarshalLimit(encode, s, limit) ==
                 match encode(Response(s.windowSeconds, s.generatedAt, Take(s.items, limit)))
                 case Some(payload) => Success(payload)
                 case None => Failure(EncodingFailed)
  {
    if 1 <= limit <= 100 { ResponseIsPrefix(s, limit); }
  }

  lemma OptionDefaults(o: Options)
    ensures var d := WithDefaultOptions(o);
            && d.windowSeconds == (if o.windowSeconds == 0 then 300 else o.windowSeconds)
            && d.maxLimit == (if o.maxLimit == 0 then 100 else o.maxLimit)
            && d.precomputedLimits == (if o.precomputedLimits == [] then [10, 20, 50, 100] else o.precomputedLimits)
  {
  }

  /** A response is the prefix of the kept items. */
  lemma ResponseIsPrefix(s: Snapshot, limit: int)
    requires 1 <= limit <= MAX_LIMIT
    ensures ResponseFor(s, limit) == Success(Response(s.windowSeconds, s.generatedAt, Take(s.items, limit)))
  {
    assert s.items[..|s.items|] == s.items;
  }

  /** Served from the ranking of a bag cut to the maximum, every limit gets that bag's best items. */
  lemma ResponseRanks(s: Snapshot, items: multiset<Item>, limit: int)
    requires s.items == TopItems(items, MAX_LIMIT) && 1 <= limit <= MAX_LIMIT
    ensures ResponseFor(s, limit).Success? && ResponseFor(s, limit).value.items == TopItems(items, limit)
  {
    ResponseIsPrefix(s, limit);
    TopOfFewer(items, limit, MAX_LIMIT);
  }

  class Publisher {
    var current: Snapshot

    constructor (initial: Snapshot)
      ensures current == initial
    {
      current := initial;
    }

    method Publish(snapshot: Snapshot)
      modifies this
      ensures current == snapshot
    {
      current := snapshot;
    }
  }
}
