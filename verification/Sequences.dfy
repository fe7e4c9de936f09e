/** Counting, mapping, distinctness and sorting of sequences, up to permutation. */
module Sequences {
  function Filter<T>(p: T -> bool, xs: seq<T>): (r: seq<T>)
    ensures |r| <= |xs|
  {
    if xs == [] then []
    else
      var r := Filter(p, xs[..|xs| - 1]);
      if p(xs[|xs| - 1]) then r + [xs[|xs| - 1]] else r
  }

  function MapOver<T, U>(f: T -> U, xs: seq<T>): (r: seq<U>)
    ensures |r| == |xs|
    ensures forall i :: 0 <= i < |xs| ==> r[i] == f(xs[i])
  {
    seq(|xs|, i requires 0 <= i < |xs| => f(xs[i]))
  }

  ghost predicate Distinct<T>(xs: seq<T>) {
    forall i, j :: 0 <= i < j < |xs| ==> xs[i] != xs[j]
  }

  ghost predicate ExactlyOne<T>(p: T -> bool, xs: seq<T>) {
    |Filter(p, xs)| == 1
  }

  ghost function TheOne<T>(p: T -> bool, xs: seq<T>): T
    requires ExactlyOne(p, xs)
  {
    Filter(p, xs)[0]
  }

  // ---------------------------------------------------------------- filtering

  lemma FilterSnoc<T>(p: T -> bool, xs: seq<T>, x: T)
    ensures Filter(p, xs + [x]) == Filter(p, xs) + if p(x) then [x] else []
  {
    assert (xs + [x])[..|xs|] == xs;
  }

  lemma {:induction false} FilterAppend<T>(p: T -> bool, xs: seq<T>, ys: seq<T>)
    ensures Filter(p, xs + ys) == Filter(p, xs) + Filter(p, ys)
  {
    if ys == [] {
      assert xs + ys == xs;
    } else {
      var front, last := ys[..|ys| - 1], ys[|ys| - 1];
      var tail := if p(last) then [last] else [];
      calc {
        Filter(p, xs + ys);
        { assert xs + ys == (xs + front) + [last]; FilterSnoc(p, xs + front, last); }
        Filter(p, xs + front) + tail;
        { FilterAppend(p, xs, front); }
        (Filter(p, xs) + Filter(p, front)) + tail;
        { Regroup(Filter(p, xs), Filter(p, front), tail); }
        Filter(p, xs) + (Filter(p, front) + tail);
        { FilterSnoc(p, front, last); assert ys == front + [last]; }
        Filter(p, xs) + Filter(p, ys);
      }
    }
  }

  lemma Regroup<T>(a: seq<T>, b: seq<T>, c: seq<T>)
    ensures (a + b) + c == a + (b + c)
  {
  }

  lemma {:induction false} FilterMembers<T>(p: T -> bool, xs: seq<T>)
    ensures forall x :: x in Filter(p, xs) <==> x in xs && p(x)
    ensures forall i :: 0 <= i < |Filter(p, xs)| ==> Filter(p, xs)[i] in xs && p(Filter(p, xs)[i])
  {
    if xs != [] {
      FilterMembers(p, xs[..|xs| - 1]);
      assert xs == xs[..|xs| - 1] + [xs[|xs| - 1]];
    }
  }

  lemma FilterAround<T>(p: T -> bool, whole: seq<T>, a: seq<T>, x: T, b: seq<T>)
    requires whole == a + [x] + b
    ensures Filter(p, whole) == Filter(p, a) + (if p(x) then [x] else []) + Filter(p, b)
  {
    FilterAppend(p, a + [x], b);
    FilterSnoc(p, a, x);
  }

  lemma FilterSplit<T>(p: T -> bool, whole: seq<T>, rest: seq<T>, a: seq<T>, x: T, b: seq<T>)
    requires whole == a + [x] + b && rest == a + b
    ensures multiset(Filter(p, whole)) == multiset(Filter(p, rest)) + if p(x) then multiset{x} else multiset{}
  {
    FilterAround(p, whole, a, x, b);
    FilterAppend(p, a, b);
    JoinMultisets(Filter(p, a), if p(x) then [x] else [], Filter(p, b));
  }

  lemma Around<T>(xs: seq<T>, k: nat)
    requires k < |xs|
    ensures xs == xs[..k] + [xs[k]] + xs[k + 1..]
  {
  }

  lemma FilterRemoveAt<T>(p: T -> bool, xs: seq<T>, k: nat)
    requires k < |xs|
    ensures multiset(Filter(p, xs)) == multiset(Filter(p, Without(xs, k))) +
                                       if p(xs[k]) then multiset{xs[k]} else multiset{}
  {
    Around(xs, k);
    FilterSplit(p, xs, Without(xs, k), xs[..k], xs[k], xs[k + 1..]);
  }

  lemma JoinMultisets<T>(a: seq<T>, m: seq<T>, b: seq<T>)
    ensures multiset(a + m + b) == multiset(a + b) + multiset(m)
  {
  }

  lemma {:induction false} FilterPermuted<T>(p: T -> bool, xs: seq<T>, ys: seq<T>)
    requires multiset(xs) == multiset(ys)
    ensures multiset(Filter(p, xs)) == multiset(Filter(p, ys))
    decreases |xs|
  {
    if xs == [] {
      assert |multiset(ys)| == 0;
    } else {
      var k := PositionOfFirst(xs, ys);
      FilterPermuted(p, Without(xs, 0), Without(ys, k));
      FilterRemoveAt(p, xs, 0);
      FilterRemoveAt(p, ys, k);
    }
  }

  lemma {:induction false} FilterSame<T>(p: T -> bool, q: T -> bool, xs: seq<T>)
    requires forall x :: x in xs ==> p(x) == q(x)
    ensures Filter(p, xs) == Filter(q, xs)
  {
    if xs != [] {
      FilterSame(p, q, xs[..|xs| - 1]);
    }
  }

  lemma {:induction false} NoneKept<T>(p: T -> bool, xs: seq<T>)
    ensures Filter(p, xs) == [] <==> forall j :: 0 <= j < |xs| ==> !p(xs[j])
  {
    if xs != [] {
      NoneKept(p, xs[..|xs| - 1]);
      assert forall j :: 0 <= j < |xs| - 1 ==> xs[..|xs| - 1][j] == xs[j];
    }
  }

  ghost predicate OnlyAt<T>(p: T -> bool, xs: seq<T>, i: int) {
    0 <= i < |xs| && p(xs[i]) && forall j :: 0 <= j < |xs| && p(xs[j]) ==> j == i
  }

  lemma {:induction false} PositionOfTheOne<T>(p: T -> bool, xs: seq<T>) returns (i: nat)
    requires ExactlyOne(p, xs)
    ensures OnlyAt(p, xs, i) && xs[i] == TheOne(p, xs)
  {
    var front, last := xs[..|xs| - 1], |xs| - 1;
    assert forall j :: 0 <= j < last ==> front[j] == xs[j];
    if p(xs[last]) {
      NoneKept(p, front);
      i := last;
    } else {
      i := PositionOfTheOne(p, front);
    }
  }

  lemma {:induction false} OnlyAtMakesOne<T>(p: T -> bool, xs: seq<T>, i: nat)
    requires OnlyAt(p, xs, i)
    ensures ExactlyOne(p, xs) && TheOne(p, xs) == xs[i]
  {
    var front, last := xs[..|xs| - 1], |xs| - 1;
    assert forall j :: 0 <= j < last ==> front[j] == xs[j];
    if i == last {
      NoneKept(p, front);
    } else {
      OnlyAtMakesOne(p, front, i);
    }
  }

  /** Counting one by filtering is having one position, and one only, that fits; the one stands there. */
  lemma ExactlyOneByPosition<T>(p: T -> bool, xs: seq<T>)
    ensures ExactlyOne(p, xs) <==> exists i :: OnlyAt(p, xs, i)
    ensures forall i :: OnlyAt(p, xs, i) ==> ExactlyOne(p, xs) && TheOne(p, xs) == xs[i]
  {
    if ExactlyOne(p, xs) {
      var i := PositionOfTheOne(p, xs);
    }
    forall i | OnlyAt(p, xs, i)
      ensures ExactlyOne(p, xs) && TheOne(p, xs) == xs[i]
    {
      OnlyAtMakesOne(p, xs, i);
    }
  }

  lemma SingletonPermuted<T>(xs: seq<T>, ys: seq<T>)
    requires multiset(xs) == multiset(ys)
    ensures |xs| == |ys|
    ensures |xs| == 1 ==> xs == ys
  {
    assert |xs| == |multiset(xs)| == |multiset(ys)| == |ys|;
    if |xs| == 1 {
      assert xs == [xs[0]] && ys == [ys[0]];
      assert xs[0] in multiset(xs);
    }
  }

  lemma OnePermuted<T>(p: T -> bool, xs: seq<T>, ys: seq<T>)
    requires multiset(xs) == multiset(ys)
    ensures ExactlyOne(p, xs) <==> ExactlyOne(p, ys)
    ensures ExactlyOne(p, xs) ==> TheOne(p, xs) == TheOne(p, ys)
  {
    FilterPermuted(p, xs, ys);
    SingletonPermuted(Filter(p, xs), Filter(p, ys));
  }

  lemma TheOneFits<T>(p: T -> bool, xs: seq<T>)
    requires ExactlyOne(p, xs)
    ensures TheOne(p, xs) in xs && p(TheOne(p, xs))
    ensures forall x :: x in xs && p(x) ==> x == TheOne(p, xs)
  {
    FilterMembers(p, xs);
    assert TheOne(p, xs) in Filter(p, xs);
  }

  // ---------------------------------------------------------------- permutations

  lemma SamePermutedMembers<T>(xs: seq<T>, ys: seq<T>)
    requires multiset(xs) == multiset(ys)
    ensures forall x :: x in xs <==> x in ys
  {
    forall x: T
      ensures x in xs <==> x in ys
    {
      assert x in xs <==> x in multiset(xs);
      assert x in ys <==> x in multiset(ys);
    }
  }

  function Without<T>(xs: seq<T>, k: nat): (r: seq<T>)
    requires k < |xs|
    ensures |r| == |xs| - 1
  {
    xs[..k] + xs[k + 1..]
  }

  lemma RemoveAt<T>(xs: seq<T>, k: nat)
    requires k < |xs|
    ensures multiset(xs) == multiset(Without(xs, k)) + multiset{xs[k]}
  {
    Around(xs, k);
  }

  /** Where a permutation puts the first element, and that the rests are permutations again. */
  lemma PositionOfFirst<T>(xs: seq<T>, ys: seq<T>) returns (k: nat)
    requires multiset(xs) == multiset(ys) && xs != []
    ensures k < |ys| && ys[k] == xs[0]
    ensures multiset(Without(xs, 0)) == multiset(Without(ys, k))
  {
    assert xs[0] in multiset(xs);
    k :| 0 <= k < |ys| && ys[k] == xs[0];
    RemoveAt(xs, 0);
    RemoveAt(ys, k);
    assert multiset(Without(xs, 0)) == multiset(xs) - multiset{xs[0]};
    assert multiset(Without(ys, k)) == multiset(ys) - multiset{xs[0]};
  }

  lemma MapRemoveAt<T, U>(f: T -> U, xs: seq<T>, k: nat)
    requires k < |xs|
    ensures multiset(MapOver(f, xs)) == multiset(MapOver(f, Without(xs, k))) + multiset{f(xs[k])}
  {
    RemoveAt(MapOver(f, xs), k);
    assert MapOver(f, Without(xs, k)) == Without(MapOver(f, xs), k);
  }

  lemma {:induction false} MapPermuted<T, U>(f: T -> U, xs: seq<T>, ys: seq<T>)
    requires multiset(xs) == multiset(ys)
    ensures multiset(MapOver(f, xs)) == multiset(MapOver(f, ys))
    decreases |xs|
  {
    if xs == [] {
      assert |multiset(ys)| == 0;
    } else {
      var k := PositionOfFirst(xs, ys);
      MapPermuted(f, Without(xs, 0), Without(ys, k));
      MapRemoveAt(f, xs, 0);
      MapRemoveAt(f, ys, k);
    }
  }

  lemma {:induction false} MapInjective<T(!new), U>(f: T -> U, xs: seq<T>, ys: seq<T>)
    requires forall x, y :: f(x) == f(y) ==> x == y
    requires multiset(MapOver(f, xs)) == multiset(MapOver(f, ys))
    ensures multiset(xs) == multiset(ys)
    decreases |xs|
  {
    var us, vs := MapOver(f, xs), MapOver(f, ys);
    assert |multiset(us)| == |xs| && |multiset(vs)| == |ys|;
    if xs != [] {
      var k := PositionOfFirst(us, vs);
      assert MapOver(f, Without(xs, 0)) == Without(us, 0);
      assert MapOver(f, Without(ys, k)) == Without(vs, k);
      MapInjective(f, Without(xs, 0), Without(ys, k));
      RemoveAt(xs, 0);
      RemoveAt(ys, k);
    }
  }

  /** Two permutations with the same distinct keys in the same order are one list. */
  lemma KeyedListsAgree<T, K>(key: T -> K, a: seq<T>, b: seq<T>)
    requires multiset(a) == multiset(b) && Distinct(MapOver(key, a)) && MapOver(key, a) == MapOver(key, b)
    ensures a == b
  {
    var ids := MapOver(key, a);
    assert |a| == |ids| == |b|;
    SamePermutedMembers(a, b);
    forall k | 0 <= k < |a|
      ensures a[k] == b[k]
    {
      assert a[k] in a;
      var m :| 0 <= m < |b| && b[m] == a[k];
      assert ids[m] == key(b[m]) && ids[k] == key(a[k]);
    }
  }

  lemma DistinctIsOnce<T>(xs: seq<T>)
    ensures Distinct(xs) <==> forall x :: multiset(xs)[x] <= 1
  {
    if Distinct(xs) {
      forall x: T
        ensures multiset(xs)[x] <= 1
      {
        if i :| 0 <= i < |xs| && xs[i] == x {
          RemoveAt(xs, i);
          assert x !in Without(xs, i);
          assert multiset(Without(xs, i))[x] == 0;
        } else {
          assert x !in multiset(xs);
        }
      }
    } else {
      var i, j :| 0 <= i < j < |xs| && xs[i] == xs[j];
      RemoveAt(xs, i);
      var rest := Without(xs, i);
      assert rest[j - 1] == xs[j] && xs[j] in multiset(rest);
      assert multiset(xs)[xs[i]] >= 2;
    }
  }

  lemma DistinctPermuted<T>(xs: seq<T>, ys: seq<T>)
    requires multiset(xs) == multiset(ys)
    ensures Distinct(xs) <==> Distinct(ys)
  {
    DistinctIsOnce(xs);
    DistinctIsOnce(ys);
  }

  /** Distinct lists with the same members are permutations of each other. */
  lemma DistinctSameMembers<T>(xs: seq<T>, ys: seq<T>)
    requires Distinct(xs) && Distinct(ys)
    requires forall x :: x in xs <==> x in ys
    ensures multiset(xs) == multiset(ys) && |xs| == |ys|
  {
    DistinctIsOnce(xs);
    DistinctIsOnce(ys);
    forall x: T
      ensures multiset(xs)[x] == multiset(ys)[x]
    {
      assert x in multiset(xs) <==> x in xs;
      assert x in multiset(ys) <==> x in ys;
    }
    assert multiset(xs) == multiset(ys);
    assert |multiset(xs)| == |xs| && |multiset(ys)| == |ys|;
  }

  // ---------------------------------------------------------------- sorting

  ghost predicate StrictWeakOrder<T(!new)>(less: (T, T) -> bool) {
    && (forall x :: !less(x, x))
    && (forall x, y :: less(x, y) ==> !less(y, x))
    && (forall x, y, z :: !less(y, x) && !less(z, y) ==> !less(z, x))
  }

  ghost predicate SortedBy<T>(less: (T, T) -> bool, xs: seq<T>) {
    forall i, j :: 0 <= i < j < |xs| ==> !less(xs[j], xs[i])
  }

  /** std::sort: a permutation whatever the comparison answers, sorted when it is a strict weak order. */
  method Sort<T(!new)>(less: (T, T) -> bool, xs: seq<T>) returns (r: seq<T>)
    ensures multiset(r) == multiset(xs) && |r| == |xs|
    ensures StrictWeakOrder(less) ==> SortedBy(less, r)
  {
    r := [];
    for i := 0 to |xs|
      invariant |r| == i && multiset(r) == multiset(xs[..i])
      invariant StrictWeakOrder(less) ==> SortedBy(less, r)
    {
      assert xs[..i + 1] == xs[..i] + [xs[i]];
      r := Insert(less, r, xs[i]);
    }
    assert xs[..|xs|] == xs;
  }

  method Insert<T(!new)>(less: (T, T) -> bool, xs: seq<T>, x: T) returns (r: seq<T>)
    ensures multiset(r) == multiset(xs + [x]) && |r| == |xs| + 1
    ensures StrictWeakOrder(less) && SortedBy(less, xs) ==> SortedBy(less, r)
  {
    var k := |xs|;
    while k > 0 && less(x, xs[k - 1])
      invariant 0 <= k <= |xs|
      invariant forall i :: k <= i < |xs| ==> less(x, xs[i])
    {
      k := k - 1;
    }
    r := xs[..k] + [x] + xs[k..];
    assert xs == xs[..k] + xs[k..];
    if StrictWeakOrder(less) && SortedBy(less, xs) {
      InsertedSorted(less, xs, x, k);
    }
  }

  lemma InsertedSorted<T(!new)>(less: (T, T) -> bool, xs: seq<T>, x: T, k: nat)
    requires StrictWeakOrder(less) && SortedBy(less, xs)
    requires k <= |xs|
    requires k > 0 ==> !less(x, xs[k - 1])
    requires forall i :: k <= i < |xs| ==> less(x, xs[i])
    ensures SortedBy(less, xs[..k] + [x] + xs[k..])
  {
    forall i | 0 <= i < k
      ensures !less(x, xs[i])
    {
      assert i < k - 1 ==> !less(xs[k - 1], xs[i]);
    }
  }
}
