/**
 Sorting by a strict total order, selection of the first `k`, and how selection
 commutes with merging.
 */
module Ordering {

  ghost predicate StrictTotal<T(!new)>(lt: (T, T) -> bool) {
    && (forall a :: !lt(a, a))
    && (forall a, b, c :: lt(a, b) && lt(b, c) ==> lt(a, c))
    && (forall a, b :: a == b || lt(a, b) || lt(b, a))
  }

  ghost predicate SortedBy<T(!new)>(lt: (T, T) -> bool, s: seq<T>) {
    forall i, j :: 0 <= i < j < |s| ==> !lt(s[j], s[i])
  }

  /** The first `k` elements, or all of them when there are fewer. */
  function Take<T>(s: seq<T>, k: nat): (r: seq<T>)
    ensures |r| <= k && r <= s
  {
    if k < |s| then s[..k] else s
  }

  // ---------- Go's sort on strings: byte order of UTF-8 is code-point order ----------

  predicate StringLess(a: string, b: string) {
    && b != ""
    && (a == "" || a[0] < b[0] || (a[0] == b[0] && StringLess(a[1..], b[1..])))
  }

  /** `a` is a proper prefix of `b`, or has the smaller code point where they first differ. */
  ghost predicate CodePointsBefore(a: string, b: string) {
    exists n :: 0 <= n <= |a| && n < |b| && FirstDifference(a, b, n)
  }

  /** The strings agree before `n`, where `a` ends or has the smaller code point. */
  ghost predicate FirstDifference(a: string, b: string, n: nat)
    requires n <= |a| && n < |b|
  {
    a[..n] == b[..n] && (n == |a| || a[n] < b[n])
  }

  lemma {:induction false} StringLessIsCodePointOrder(a: string, b: string)
    ensures StringLess(a, b) <==> CodePointsBefore(a, b)
  {
    if a == "" || b == "" || a[0] != b[0] {
      assert b != "" ==> (FirstDifference(a, b, 0) <==> a == "" || a[0] < b[0]);
    } else {
      StringLessIsCodePointOrder(a[1..], b[1..]);
      SameFirst(a[0], a[1..], b[1..]);
      assert [a[0]] + a[1..] == a && [b[0]] + b[1..] == b;
    }
  }

  lemma SameFirst(c: char, a: string, b: string)
    ensures CodePointsBefore([c] + a, [c] + b) <==> CodePointsBefore(a, b)
  {
    hide FirstDifference;
    var ca, cb := [c] + a, [c] + b;
    if n :| 0 <= n <= |ca| && n < |cb| && FirstDifference(ca, cb, n) {
      assert n > 0 by { NoDifferenceAtFirst(c, a, b); }
      DifferenceLater(c, a, b, n - 1);
    }
    if m :| 0 <= m <= |a| && m < |b| && FirstDifference(a, b, m) {
      DifferenceLater(c, a, b, m);
    }
  }

  lemma NoDifferenceAtFirst(c: char, a: string, b: string)
    ensures !FirstDifference([c] + a, [c] + b, 0)
  {
  }

  lemma DifferenceLater(c: char, a: string, b: string, m: nat)
    requires m <= |a| && m < |b|
    ensures FirstDifference([c] + a, [c] + b, m + 1) <==> FirstDifference(a, b, m)
  {
    assert ([c] + a)[..m + 1] == [c] + a[..m] && ([c] + b)[..m + 1] == [c] + b[..m];
    assert ([c] + a[..m])[1..] == a[..m] && ([c] + b[..m])[1..] == b[..m];
  }

  lemma {:induction false} StringLessTransitive(a: string, b: string, c: string)
    requires StringLess(a, b) && StringLess(b, c)
    ensures StringLess(a, c)
  {
    if a != "" && a[0] == b[0] == c[0] {
      StringLessTransitive(a[1..], b[1..], c[1..]);
    }
  }

  lemma {:induction false} StringLessIrreflexive(a: string)
    ensures !StringLess(a, a)
  {
    if a != "" { StringLessIrreflexive(a[1..]); }
  }

  lemma {:induction false} StringLessTotal(a: string, b: string)
    ensures a == b || StringLess(a, b) || StringLess(b, a)
  {
    if a != "" && b != "" && a[0] == b[0] {
      StringLessTotal(a[1..], b[1..]);
      assert a == [a[0]] + a[1..] && b == [b[0]] + b[1..];
    }
  }

  lemma StringLessIsStrictTotal()
    ensures StrictTotal(StringLess)
  {
    forall a ensures !StringLess(a, a) { StringLessIrreflexive(a); }
    forall a, b ensures a == b || StringLess(a, b) || StringLess(b, a) { StringLessTotal(a, b); }
    forall a, b, c | StringLess(a, b) && StringLess(b, c) ensures StringLess(a, c) {
      StringLessTransitive(a, b, c);
    }
  }

  // ---------- sorting ----------

  function Insert<T(!new)>(lt: (T, T) -> bool, s: seq<T>, x: T): (r: seq<T>)
    ensures multiset(r) == multiset(s) + multiset{x}
  {
    if s == [] then [x]
    else if lt(x, s[0]) then
      [x] + s
    else
      assert s == [s[0]] + s[1..];
      [s[0]] + Insert(lt, s[1..], x)
  }

  lemma {:induction false} InsertSorted<T(!new)>(lt: (T, T) -> bool, s: seq<T>, x: T)
    requires StrictTotal(lt) && SortedBy(lt, s)
    ensures SortedBy(lt, Insert(lt, s, x))
  {
    if s != [] && !lt(x, s[0]) {
      InsertSorted(lt, s[1..], x);
      var r := Insert(lt, s[1..], x);
      forall j | 0 <= j < |r| ensures !lt(r[j], s[0]) {
        assert r[j] in multiset(r);
        assert r[j] in multiset(s[1..]) || r[j] == x;
      }
    }
  }

  /** Stands for Go's `sort.Slice` and `sort.Strings`: some sorted permutation. */
  method Sort<T(!new)>(lt: (T, T) -> bool, s: seq<T>) returns (r: seq<T>)
    requires StrictTotal(lt)
    ensures SortedBy(lt, r) && multiset(r) == multiset(s)
    ensures r == Ranked(lt, multiset(s))
  {
    r := [];
    for i := 0 to |s|
      invariant SortedBy(lt, r) && multiset(r) == multiset(s[..i])
    {
      InsertSorted(lt, r, s[i]);
      r := Insert(lt, r, s[i]);
      assert s[..i + 1] == s[..i] + [s[i]];
    }
    assert s[..|s|] == s;
    RankedUnique(lt, r);
  }

  /** The elements of a bag in order; unique by `RankedUnique`. */
  ghost function Ranked<T(!new)>(lt: (T, T) -> bool, bag: multiset<T>): (r: seq<T>)
    requires StrictTotal(lt)
    ensures SortedBy(lt, r) && multiset(r) == bag
    decreases |bag|
  {
    if bag == multiset{} then [] else
      var x :| x in bag;
      var rest := Ranked(lt, bag - multiset{x});
      InsertSorted(lt, rest, x);
      Insert(lt, rest, x)
  }

  lemma {:induction false} SortedUnique<T(!new)>(lt: (T, T) -> bool, a: seq<T>, b: seq<T>)
    requires StrictTotal(lt) && SortedBy(lt, a) && SortedBy(lt, b)
    requires multiset(a) == multiset(b)
    ensures a == b
  {
    if a == [] {
      assert |multiset(b)| == 0;
    } else {
      assert b != [] by { assert a[0] in multiset(a); }
      SameHead(lt, a, b);
      var x, a', b' := a[0], a[1..], b[1..];
      TailBag(a);
      TailBag(b);
      SortedUnique(lt, a', b');
      assert a == [x] + a' && b == [x] + b';
    }
  }

  lemma TailBag<T>(s: seq<T>)
    requires s != []
    ensures multiset(s[1..]) == multiset(s) - multiset{s[0]}
  {
    assert s == [s[0]] + s[1..];
  }

  lemma SameHead<T(!new)>(lt: (T, T) -> bool, a: seq<T>, b: seq<T>)
    requires StrictTotal(lt) && SortedBy(lt, a) && SortedBy(lt, b)
    requires multiset(a) == multiset(b) && a != [] && b != []
    ensures a[0] == b[0]
  {
    assert a[0] in multiset(b) && b[0] in multiset(a);
    assert !lt(a[0], b[0]) && !lt(b[0], a[0]);
  }

  /** Whatever order an unstable sort or a map iteration takes, the sorted list is the same. */
  lemma RankedUnique<T(!new)>(lt: (T, T) -> bool, s: seq<T>)
    requires StrictTotal(lt) && SortedBy(lt, s)
    ensures s == Ranked(lt, multiset(s))
  {
    SortedUnique(lt, s, Ranked(lt, multiset(s)));
  }

  // ---------- the first k ----------

  ghost function Top<T(!new)>(lt: (T, T) -> bool, bag: multiset<T>, k: nat): seq<T>
    requires StrictTotal(lt)
  {
    Take(Ranked(lt, bag), k)
  }

  /** `Top` is the `k` best: sorted, taken from the bag, and beaten by nothing that was left out. */
  lemma TopIsBest<T(!new)>(lt: (T, T) -> bool, bag: multiset<T>, k: nat)
    requires StrictTotal(lt)
    ensures var top := Top(lt, bag, k);
            && SortedBy(lt, top)
            && |top| == (if k < |bag| then k else |bag|)
            && multiset(top) <= bag
            && forall x, i :: x in bag - multiset(top) && 0 <= i < |top| ==> !lt(x, top[i])
  {
    var all := Ranked(lt, bag);
    var top := Take(all, k);
    assert |multiset(all)| == |all|;
    SplitBag(all, |top|);
    forall x, i | x in bag - multiset(top) && 0 <= i < |top| ensures !lt(x, top[i]) {
      LeftOutIsLater(lt, all, |top|, x, i);
    }
  }

  lemma SplitBag<T>(s: seq<T>, n: nat)
    requires n <= |s|
    ensures multiset(s) == multiset(s[..n]) + multiset(s[n..])
  {
    assert s == s[..n] + s[n..];
  }

  lemma LeftOutIsLater<T(!new)>(lt: (T, T) -> bool, s: seq<T>, n: nat, x: T, i: nat)
    requires SortedBy(lt, s) && i < n <= |s| && x in multiset(s) - multiset(s[..n])
    ensures !lt(x, s[i])
  {
    SplitBag(s, n);
    var rest := s[n..];
    assert x in multiset(rest);
    var j :| 0 <= j < |rest| && rest[j] == x;
    assert s[n + j] == x;
  }

  ghost function Merge<T(!new)>(lt: (T, T) -> bool, xs: seq<T>, ys: seq<T>): (r: seq<T>)
    ensures multiset(r) == multiset(xs) + multiset(ys)
    decreases |xs| + |ys|
  {
    if xs == [] then ys
    else if ys == [] then xs
    else if lt(ys[0], xs[0]) then
      assert ys == [ys[0]] + ys[1..];
      [ys[0]] + Merge(lt, xs, ys[1..])
    else
      assert xs == [xs[0]] + xs[1..];
      [xs[0]] + Merge(lt, xs[1..], ys)
  }

  lemma {:induction false} MergeSorted<T(!new)>(lt: (T, T) -> bool, xs: seq<T>, ys: seq<T>)
    requires StrictTotal(lt) && SortedBy(lt, xs) && SortedBy(lt, ys)
    ensures SortedBy(lt, Merge(lt, xs, ys))
    decreases |xs| + |ys|
  {
    if xs != [] && ys != [] {
      var first, r;
      if lt(ys[0], xs[0]) {
        MergeSorted(lt, xs, ys[1..]);
        first, r := ys[0], Merge(lt, xs, ys[1..]);
        MergeBound(lt, first, r, xs, ys[1..]);
      } else {
        MergeSorted(lt, xs[1..], ys);
        first, r := xs[0], Merge(lt, xs[1..], ys);
        MergeBound(lt, first, r, xs[1..], ys);
      }
    }
  }

  lemma MergeBound<T(!new)>(lt: (T, T) -> bool, first: T, r: seq<T>, xs: seq<T>, ys: seq<T>)
    requires StrictTotal(lt) && multiset(r) == multiset(xs) + multiset(ys)
    requires forall i :: 0 <= i < |xs| ==> !lt(xs[i], first)
    requires forall i :: 0 <= i < |ys| ==> !lt(ys[i], first)
    ensures forall i :: 0 <= i < |r| ==> !lt(r[i], first)
  {
    forall i | 0 <= i < |r| ensures !lt(r[i], first) {
      assert r[i] in multiset(r);
      assert r[i] in multiset(xs) || r[i] in multiset(ys);
    }
  }

  /** Only the first `k` of one operand can reach the first `k` of a merge. */
  lemma {:induction false} MergeTake<T(!new)>(lt: (T, T) -> bool, xs: seq<T>, ys: seq<T>, k: nat)
    ensures CutsAlike(lt, xs, ys, k)
    decreases k, |ys|
  {
    hide Merge;
    MergeNil(lt, xs);
    MergeNil(lt, ys);
    MergeNil(lt, Take(xs, k));
    if k == 0 || xs == [] {
    } else if ys == [] {
      TakeTake(xs, k, k);
    } else {
      assert xs == [xs[0]] + xs[1..] && ys == [ys[0]] + ys[1..];
      if lt(ys[0], xs[0]) {
        MergeTake(lt, xs, ys[1..], k - 1);
        MergeTake(lt, Take(xs, k), ys[1..], k - 1);
        CutRight(lt, xs, ys[0], ys[1..], k);
      } else {
        MergeTake(lt, xs[1..], ys, k - 1);
        CutLeft(lt, xs[0], xs[1..], ys, k);
      }
    }
  }

  lemma MergeNil<T(!new)>(lt: (T, T) -> bool, s: seq<T>)
    ensures Merge(lt, s, []) == s && Merge(lt, [], s) == s
  {
  }

  ghost predicate CutsAlike<T(!new)>(lt: (T, T) -> bool, xs: seq<T>, ys: seq<T>, k: nat) {
    Take(Merge(lt, xs, ys), k) == Take(Merge(lt, Take(xs, k), ys), k)
  }

  lemma CutRight<T(!new)>(lt: (T, T) -> bool, xs: seq<T>, y: T, ys: seq<T>, k: nat)
    requires k > 0 && xs != [] && lt(y, xs[0])
    requires CutsAlike(lt, xs, ys, k - 1) && CutsAlike(lt, Take(xs, k), ys, k - 1)
    ensures CutsAlike(lt, xs, [y] + ys, k)
  {
    hide Merge;
    TakeTake(xs, k, k - 1);
    MergeConsRight(lt, xs, y, ys, k);
    MergeConsRight(lt, Take(xs, k), y, ys, k);
  }

  lemma CutLeft<T(!new)>(lt: (T, T) -> bool, x: T, xs: seq<T>, ys: seq<T>, k: nat)
    requires k > 0 && ys != [] && !lt(ys[0], x)
    requires CutsAlike(lt, xs, ys, k - 1)
    ensures CutsAlike(lt, [x] + xs, ys, k)
  {
    hide Merge;
    TakeCons(x, xs, k);
    MergeConsLeft(lt, x, xs, ys, k);
    MergeConsLeft(lt, x, Take(xs, k - 1), ys, k);
  }

  lemma MergeConsLeft<T(!new)>(lt: (T, T) -> bool, x: T, xs: seq<T>, ys: seq<T>, k: nat)
    requires k > 0 && ys != [] && !lt(ys[0], x)
    ensures Take(Merge(lt, [x] + xs, ys), k) == [x] + Take(Merge(lt, xs, ys), k - 1)
  {
    assert ([x] + xs)[1..] == xs;
    TakeCons(x, Merge(lt, xs, ys), k);
  }

  lemma MergeConsRight<T(!new)>(lt: (T, T) -> bool, xs: seq<T>, y: T, ys: seq<T>, k: nat)
    requires k > 0 && xs != [] && lt(y, xs[0])
    ensures Take(Merge(lt, xs, [y] + ys), k) == [y] + Take(Merge(lt, xs, ys), k - 1)
  {
    assert ([y] + ys)[1..] == ys;
    TakeCons(y, Merge(lt, xs, ys), k);
  }

  lemma TakeTake<T>(s: seq<T>, k: nat, j: nat)
    requires j <= k
    ensures Take(Take(s, k), j) == Take(s, j)
  {
  }

  lemma TakeCons<T>(x: T, s: seq<T>, k: nat)
    requires k > 0
    ensures Take([x] + s, k) == [x] + Take(s, k - 1)
  {
  }

  lemma RankedSum<T(!new)>(lt: (T, T) -> bool, a: multiset<T>, b: multiset<T>)
    requires StrictTotal(lt)
    ensures Ranked(lt, a + b) == Merge(lt, Ranked(lt, a), Ranked(lt, b))
  {
    MergeSorted(lt, Ranked(lt, a), Ranked(lt, b));
    RankedUnique(lt, Merge(lt, Ranked(lt, a), Ranked(lt, b)));
  }

  /** Selection commutes with merging: one operand may be cut to its own first `k` beforehand. */
  lemma TopAbsorbs<T(!new)>(lt: (T, T) -> bool, a: multiset<T>, b: multiset<T>, k: nat)
    requires StrictTotal(lt)
    ensures Top(lt, multiset(Top(lt, a, k)) + b, k) == Top(lt, a + b, k)
  {
    var cut := Top(lt, a, k);
    TakeSorted(lt, Ranked(lt, a), k);
    RankedUnique(lt, cut);
    RankedSum(lt, a, b);
    RankedSum(lt, multiset(cut), b);
    MergeTake(lt, Ranked(lt, a), Ranked(lt, b), k);
  }

  lemma TakeSorted<T(!new)>(lt: (T, T) -> bool, s: seq<T>, k: nat)
    requires SortedBy(lt, s)
    ensures SortedBy(lt, Take(s, k))
  {
  }
}
