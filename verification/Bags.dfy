/**
 Counter maps and the bags they stand for.  A Go map from keys to counts
 represents the bag in which every key occurs as often as its count says.
 */
module Bags {

  /** Go's map read: the zero value when the key is absent. */
  function Get<K>(m: map<K, int>, k: K): int {
    if k in m then m[k] else 0
  }

  ghost function Support<K>(b: multiset<K>): set<K> {
    set k | k in b
  }

  /** The map that stores exactly the keys of the bag, each with its multiplicity. */
  ghost function CountsOf<K>(b: multiset<K>): map<K, int> {
    map k | k in b :: b[k]
  }

  lemma CountsOfGet<K>(b: multiset<K>, k: K)
    ensures Get(CountsOf(b), k) == b[k]
    ensures k in CountsOf(b) <==> k in b
    ensures k in CountsOf(b) ==> CountsOf(b)[k] > 0
  {
  }

  lemma CountsOfSize<K>(b: multiset<K>)
    ensures |CountsOf(b)| == |Support(b)|
  {
    assert CountsOf(b).Keys == Support(b);
  }

  /** The sum of `f` over a bag. */
  ghost function Collect<A, B>(f: A -> multiset<B>, ms: multiset<A>): multiset<B>
    decreases |ms|
  {
    if ms == multiset{} then multiset{} else
      var x :| x in ms;
      Collect(f, ms - multiset{x}) + f(x)
  }

  lemma CollectNone<A, B>(f: A -> multiset<B>)
    ensures Collect(f, multiset{}) == multiset{}
  {
  }

  lemma {:induction false} CollectAdd<A, B>(f: A -> multiset<B>, ms: multiset<A>, x: A)
    ensures Collect(f, ms + multiset{x}) == Collect(f, ms) + f(x)
    decreases |ms|
  {
    var all := ms + multiset{x};
    var y :| y in all && Collect(f, all) == Collect(f, all - multiset{y}) + f(y);
    if y == x {
      assert all - multiset{y} == ms;
    } else {
      var rest := ms - multiset{y};
      assert all - multiset{y} == rest + multiset{x};
      CollectAdd(f, rest, x);
      CollectAdd(f, rest, y);
      assert rest + multiset{y} == ms;
    }
  }

  lemma {:induction false} CollectUnion<A, B>(f: A -> multiset<B>, a: multiset<A>, b: multiset<A>)
    ensures Collect(f, a + b) == Collect(f, a) + Collect(f, b)
    decreases |b|
  {
    if b == multiset{} {
      assert a + b == a;
    } else {
      var x :| x in b;
      var b' := b - multiset{x};
      assert b == b' + multiset{x};
      assert a + b == (a + b') + multiset{x};
      CollectUnion(f, a, b');
      calc {
        Collect(f, a + b);
        { CollectAdd(f, a + b', x); }
        Collect(f, a + b') + f(x);
        (Collect(f, a) + Collect(f, b')) + f(x);
        Collect(f, a) + (Collect(f, b') + f(x));
        { CollectAdd(f, b', x); }
        Collect(f, a) + Collect(f, b);
      }
    }
  }

  lemma CollectDifference<A, B>(f: A -> multiset<B>, a: multiset<A>, b: multiset<A>)
    requires b <= a
    ensures Collect(f, b) <= Collect(f, a)
    ensures Collect(f, a - b) == Collect(f, a) - Collect(f, b)
  {
    CollectUnion(f, a - b, b);
    assert (a - b) + b == a;
  }

  lemma {:induction false} CollectSize<A, B>(f: A -> multiset<B>, ms: multiset<A>)
    requires forall x :: x in ms ==> |f(x)| == 1
    ensures |Collect(f, ms)| == |ms|
    decreases |ms|
  {
    if ms != multiset{} {
      var x :| x in ms && Collect(f, ms) == Collect(f, ms - multiset{x}) + f(x);
      CollectSize(f, ms - multiset{x});
    }
  }

  lemma {:induction false} CollectSource<A, B>(f: A -> multiset<B>, ms: multiset<A>, y: B)
    requires y in Collect(f, ms)
    ensures exists x :: x in ms && y in f(x)
    decreases |ms|
  {
    var x :| x in ms && Collect(f, ms) == Collect(f, ms - multiset{x}) + f(x);
    if y !in f(x) { CollectSource(f, ms - multiset{x}, y); }
  }

  lemma {:induction false} CollectNowhere<A, B>(f: A -> multiset<B>, ms: multiset<A>, y: B)
    requires forall x :: x in ms ==> y !in f(x)
    ensures y !in Collect(f, ms)
    decreases |ms|
  {
    if ms != multiset{} {
      var x :| x in ms && Collect(f, ms) == Collect(f, ms - multiset{x}) + f(x);
      CollectNowhere(f, ms - multiset{x}, y);
    }
  }

  lemma {:induction false} SubsetSize<T>(a: set<T>, b: set<T>)
    requires a <= b
    ensures |a| <= |b|
  {
    if a != {} {
      var x :| x in a;
      SubsetSize(a - {x}, b - {x});
    }
  }

  lemma SupportMonotone<K>(a: multiset<K>, b: multiset<K>)
    requires a <= b
    ensures Support(a) <= Support(b) && |Support(a)| <= |Support(b)|
  {
    forall k | k in a ensures k in b { assert a[k] <= b[k]; }
    SubsetSize(Support(a), Support(b));
  }

  lemma {:induction false} SupportSize<K>(b: multiset<K>)
    ensures |Support(b)| <= |b|
    decreases |b|
  {
    if b == multiset{} {
      assert Support(b) == {};
    } else {
      var k :| k in b;
      var rest := b[k := 0];
      SupportSize(rest);
      assert Support(b) == Support(rest) + {k};
    }
  }

  /** Replacing a part of a bag by less of it, then adding one element. */
  lemma Shrink<T>(all: multiset<T>, part: multiset<T>, kept: multiset<T>, x: T)
    requires kept <= part <= all
    ensures all - part + kept <= all
    ensures all - part + (kept + multiset{x}) == (all - part + kept) + multiset{x}
    ensures all - part + kept == all <==> kept == part
  {
    if all - part + kept == all {
      forall y ensures kept[y] == part[y] { assert (all - part + kept)[y] == all[y]; }
    }
  }

  /** One more key keeps a bag with room within its limit, even if the bag lost keys since room was checked. */
  lemma AddedKey<K>(checked: multiset<K>, left: multiset<K>, k: K, limit: int)
    requires left <= checked
    requires k !in checked ==> |Support(checked)| < limit
    requires |Support(checked)| <= limit
    ensures |Support(left + multiset{k})| <= limit
  {
    SupportMonotone(left, checked);
    assert Support(left + multiset{k}) == Support(left) + {k};
    SubsetSize(Support(left) + {k}, Support(checked) + {k});
    if k in checked {
      assert Support(checked) + {k} == Support(checked);
    }
  }

  /** Go's `m[k]++`. */
  function Bump<K>(m: map<K, int>, k: K): map<K, int> {
    m[k := Get(m, k) + 1]
  }

  lemma BumpCounts<K>(b: multiset<K>, k: K)
    ensures Bump(CountsOf(b), k) == CountsOf(b + multiset{k})
  {
  }

  /** Subtracts the counts of `gone` from `totals`, deleting what reaches zero, in any order. */
  method SubtractCounts<K(!new)>(totals: map<K, int>, gone: map<K, int>, ghost a: multiset<K>, ghost b: multiset<K>)
    returns (r: map<K, int>)
    requires totals == CountsOf(a) && gone == CountsOf(b) && b <= a
    ensures r == CountsOf(a - b)
  {
    r := totals;
    var todo := gone.Keys;
    while todo != {}
      invariant todo <= gone.Keys
      invariant forall k :: k in r ==> r[k] > 0
      invariant forall k :: Get(r, k) == if k in todo then a[k] else a[k] - b[k]
      decreases todo
    {
      var key :| key in todo;
      todo := todo - {key};
      r := r[key := Get(r, key) - gone[key]];
      if r[key] <= 0 {
        r := r - {key};
      }
    }
    forall k ensures k in r <==> k in CountsOf(a - b) {
      assert Get(r, k) == a[k] - b[k];
    }
  }

  /** Adds up all counts, in any order. */
  method SumCounts<K(!new)>(m: map<K, int>, ghost b: multiset<K>) returns (total: int)
    requires m == CountsOf(b)
    ensures total == |b|
  {
    total := 0;
    var todo := m.Keys;
    ghost var rest := b;
    while todo != {}
      invariant todo <= m.Keys
      invariant forall k :: rest[k] == if k in todo then b[k] else 0
      invariant total + |rest| == |b|
      decreases todo
    {
      var key :| key in todo;
      todo := todo - {key};
      if m[key] > 0 {
        total := total + m[key];
      }
      rest := rest[key := 0];
    }
    assert rest == multiset{};
  }
}
