/** Sequence operations the report relies on: selecting the elements that
    satisfy a condition (a boolean mask over a column), the distinct values of
    a column in first-seen order (`unique()`), and the ordering of strings that
    a `groupby` uses for its keys. */
module Collections {

  /** No value occurs twice in xs. */
  predicate NoDuplicates<T(==)>(xs: seq<T>)
  {
    forall i, j :: 0 <= i < j < |xs| ==> xs[i] != xs[j]
  }

  /** The values occurring in xs. */
  function Elements<T>(xs: seq<T>): set<T>
  {
    set x | x in xs
  }

  // ---------------------------------------------------------------------------
  // Selection by a condition

  /** The positions of the elements of xs that satisfy p, in ascending order. */
  function Positions<T>(xs: seq<T>, p: T -> bool): (idx: seq<nat>)
    ensures forall k :: 0 <= k < |idx| ==> idx[k] < |xs|
    ensures forall i: int :: i in idx <==> 0 <= i < |xs| && p(xs[i])
    ensures forall k, l :: 0 <= k < l < |idx| ==> idx[k] < idx[l]
  {
    if xs == [] then []
    else
      var n := |xs| - 1;
      var before := Positions(xs[..n], p);
      before + (if p(xs[n]) then [n] else [])
  }

  /** The elements of xs that satisfy p, in their original order. */
  function Filter<T>(xs: seq<T>, p: T -> bool): (ys: seq<T>)
    ensures |ys| <= |xs|
    ensures forall y :: y in ys ==> y in xs && p(y)
    ensures forall i :: 0 <= i < |xs| && p(xs[i]) ==> xs[i] in ys
  {
    if xs == [] then []
    else
      var n := |xs| - 1;
      assert xs == xs[..n] + [xs[n]];
      Filter(xs[..n], p) + (if p(xs[n]) then [xs[n]] else [])
  }

  /** Filter keeps exactly the elements at Positions, in the same order: its
      k-th result is the element at the k-th matching position. */
  lemma {:induction false} FilterSelectsPositions<T>(xs: seq<T>, p: T -> bool)
    ensures |Filter(xs, p)| == |Positions(xs, p)|
    ensures forall k :: 0 <= k < |Filter(xs, p)| ==> Filter(xs, p)[k] == xs[Positions(xs, p)[k]]
  {
    if xs != [] {
      var n := |xs| - 1;
      var prefix := xs[..n];
      FilterSelectsPositions(prefix, p);
      var ys, idx := Filter(prefix, p), Positions(prefix, p);
      forall k | 0 <= k < |ys|
        ensures ys[k] == xs[idx[k]]
      {
        assert prefix[idx[k]] == xs[idx[k]];
      }
    }
  }

  /** Nothing is kept when no element satisfies p. */
  lemma {:induction false} FilterNone<T>(xs: seq<T>, p: T -> bool)
    requires forall i :: 0 <= i < |xs| ==> !p(xs[i])
    ensures Filter(xs, p) == []
  {
    if xs != [] {
      FilterNone(xs[..|xs| - 1], p);
    }
  }

  /** Filtering a list without repetitions gives one without repetitions. */
  lemma FilterNoDuplicates<T>(xs: seq<T>, p: T -> bool)
    requires NoDuplicates(xs)
    ensures NoDuplicates(Filter(xs, p))
  {
    FilterSelectsPositions(xs, p);
  }

  /** Filtering a list without repetitions keeps the order of first occurrence. */
  lemma FilterKeepsOrder<T>(xs: seq<T>, p: T -> bool)
    requires NoDuplicates(xs)
    ensures forall k, l :: 0 <= k < l < |Filter(xs, p)| ==>
              FirstIndex(xs, Filter(xs, p)[k]) < FirstIndex(xs, Filter(xs, p)[l])
  {
    var ys, idx := Filter(xs, p), Positions(xs, p);
    FilterSelectsPositions(xs, p);
    forall k | 0 <= k < |ys|
      ensures FirstIndex(xs, ys[k]) == idx[k]
    {
      var f := FirstIndex(xs, ys[k]);
      assert xs[f] == xs[idx[k]];
    }
  }

  /** Filter splits over a final element. */
  lemma FilterSnoc<T>(xs: seq<T>, x: T, p: T -> bool)
    ensures Filter(xs + [x], p) == Filter(xs, p) + (if p(x) then [x] else [])
  {
    assert (xs + [x])[..|xs|] == xs;
  }

  // ---------------------------------------------------------------------------
  // Distinct values in first-seen order

  /** The index of the first occurrence of x in xs. */
  function FirstIndex<T(==)>(xs: seq<T>, x: T): (k: nat)
    requires x in xs
    ensures k < |xs| && xs[k] == x
    ensures forall j :: 0 <= j < k ==> xs[j] != x
  {
    if xs[0] == x then 0 else 1 + FirstIndex(xs[1..], x)
  }

  /** The distinct values of xs, each at the place where it first occurs. */
  function Unique<T(==)>(xs: seq<T>): (u: seq<T>)
    ensures NoDuplicates(u)
    ensures forall i :: 0 <= i < |u| ==> u[i] in xs
    ensures forall i :: 0 <= i < |xs| ==> xs[i] in u
    ensures |u| <= |xs|
  {
    if xs == [] then []
    else
      var n := |xs| - 1;
      assert xs == xs[..n] + [xs[n]];
      var seen := Unique(xs[..n]);
      if xs[n] in seen then seen else seen + [xs[n]]
  }

  lemma UniqueSnoc<T>(xs: seq<T>, x: T)
    ensures Unique(xs + [x]) == if x in Unique(xs) then Unique(xs) else Unique(xs) + [x]
  {
    assert (xs + [x])[..|xs|] == xs;
  }

  /** unique() of a single value. */
  lemma UniqueOfOne<T>(x: T)
    ensures Unique([x]) == [x]
  {
    UniqueSnoc([], x);
    assert [] + [x] == [x];
  }

  /** unique() of a value, a different one, then the first again. */
  lemma UniqueOfThree<T>(x: T, y: T)
    requires x != y
    ensures Unique([x, y, x]) == [x, y]
  {
    UniqueOfPair(x, y);
    UniqueSnoc([x, y], x);
    assert [x, y] + [x] == [x, y, x];
  }

  /** unique() of two different values. */
  lemma UniqueOfPair<T>(x: T, y: T)
    requires x != y
    ensures Unique([x, y]) == [x, y]
  {
    UniqueOfOne(x);
    UniqueSnoc([x], y);
    assert [x] + [y] == [x, y];
  }

  /** unique() of two equal values and a third. */
  lemma UniqueOfRepeatThenOther<T>(x: T, z: T)
    requires x != z
    ensures Unique([x, x, z]) == [x, z]
  {
    UniqueOfRepeat(x);
    UniqueSnoc([x, x], z);
    assert [x, x] + [z] == [x, x, z];
  }

  /** unique() of a value given twice. */
  lemma UniqueOfRepeat<T>(x: T)
    ensures Unique([x, x]) == [x]
  {
    UniqueOfOne(x);
    UniqueSnoc([x], x);
    assert [x] + [x] == [x, x];
  }

  /** Appending an element does not move the first occurrence of an earlier value. */
  lemma FirstIndexSnoc<T>(xs: seq<T>, z: T, x: T)
    requires x in xs
    ensures FirstIndex(xs + [z], x) == FirstIndex(xs, x)
  {
    var k, k' := FirstIndex(xs + [z], x), FirstIndex(xs, x);
    assert (xs + [z])[k'] == x;
  }

  /** Unique lists the values in the order of their first occurrence in xs. */
  lemma {:induction false} UniqueFirstSeenOrder<T>(xs: seq<T>)
    ensures forall i, j :: 0 <= i < j < |Unique(xs)| ==>
              FirstIndex(xs, Unique(xs)[i]) < FirstIndex(xs, Unique(xs)[j])
  {
    if xs != [] {
      var n := |xs| - 1;
      var prefix, last := xs[..n], xs[n];
      assert xs == prefix + [last];
      UniqueFirstSeenOrder(prefix);
      UniqueSnoc(prefix, last);
      var u := Unique(prefix);
      forall y | y in u
        ensures FirstIndex(xs, y) == FirstIndex(prefix, y)
      {
        FirstIndexSnoc(prefix, last, y);
      }
      if last !in u {
        assert FirstIndex(xs, last) == n;
      }
    }
  }

  lemma {:induction false} DistinctLength<T>(xs: seq<T>)
    requires NoDuplicates(xs)
    ensures |Elements(xs)| == |xs|
  {
    if xs != [] {
      var n := |xs| - 1;
      DistinctLength(xs[..n]);
      assert Elements(xs) == Elements(xs[..n]) + {xs[n]};
      assert xs[n] !in Elements(xs[..n]);
    }
  }

  /** The number of values unique() returns is the number of distinct values. */
  lemma UniqueCountsDistinct<T>(xs: seq<T>)
    ensures |Unique(xs)| == |Elements(xs)|
    ensures xs != [] ==> |Unique(xs)| >= 1
  {
    DistinctLength(Unique(xs));
    assert Elements(Unique(xs)) == Elements(xs) by {
      forall x | x in Elements(xs) ensures x in Elements(Unique(xs)) {
        var i :| 0 <= i < |xs| && xs[i] == x;
      }
    }
    if xs != [] {
      assert xs[0] in Unique(xs);
    }
  }

  // ---------------------------------------------------------------------------
  // Ordering of strings and sorting of distinct keys

  /** The order of str values: lexicographic by code point, a proper prefix first. */
  predicate StrLess(a: string, b: string)
  {
    if b == [] then false
    else if a == [] then true
    else if a[0] != b[0] then a[0] < b[0]
    else StrLess(a[1..], b[1..])
  }

  lemma {:induction false} StrLessTransitive(a: string, b: string, c: string)
    requires StrLess(a, b) && StrLess(b, c)
    ensures StrLess(a, c)
  {
    if a != [] && a[0] == b[0] && b[0] == c[0] {
      StrLessTransitive(a[1..], b[1..], c[1..]);
    }
  }

  lemma {:induction false} StrLessTotal(a: string, b: string)
    requires a != b
    ensures StrLess(a, b) || StrLess(b, a)
  {
    if a != [] && b != [] && a[0] == b[0] {
      assert a == [a[0]] + a[1..] && b == [b[0]] + b[1..];
      StrLessTotal(a[1..], b[1..]);
    }
  }

  lemma {:induction false} StrLessAsymmetric(a: string, b: string)
    requires StrLess(a, b)
    ensures !StrLess(b, a)
  {
    if a != [] && a[0] == b[0] {
      StrLessAsymmetric(a[1..], b[1..]);
    }
  }

  /** Each string is strictly below the next one, hence all are distinct. */
  predicate StrictlySorted(s: seq<string>)
  {
    forall i, j :: 0 <= i < j < |s| ==> StrLess(s[i], s[j])
  }

  /** Places x in front of the first element that is not below it. */
  function Insert(x: string, s: seq<string>): (r: seq<string>)
    ensures multiset(r) == multiset(s) + multiset{x}
  {
    if s == [] then [x]
    else if StrLess(x, s[0]) then [x] + s
    else
      assert s == [s[0]] + s[1..];
      [s[0]] + Insert(x, s[1..])
  }

  /** Sorts s by StrLess (an insertion sort). */
  function SortStrings(s: seq<string>): (r: seq<string>)
    ensures multiset(r) == multiset(s)
  {
    if s == [] then []
    else
      assert s == [s[0]] + s[1..];
      Insert(s[0], SortStrings(s[1..]))
  }

  lemma {:induction false} InsertSorted(x: string, s: seq<string>)
    requires StrictlySorted(s) && x !in s
    ensures StrictlySorted(Insert(x, s))
  {
    if s == [] {
    } else if StrLess(x, s[0]) {
      forall j | 0 <= j < |s|
        ensures StrLess(x, s[j])
      {
        if j > 0 { StrLessTransitive(x, s[0], s[j]); }
      }
    } else {
      StrLessTotal(x, s[0]);
      InsertSorted(x, s[1..]);
      var r := Insert(x, s[1..]);
      forall v | v in multiset(r)
        ensures StrLess(s[0], v)
      {
        assert v in multiset(s[1..]) + multiset{x};
        if v != x {
          var j :| 0 <= j < |s[1..]| && s[1..][j] == v;
          assert s[j + 1] == v;
        }
      }
      forall j | 0 <= j < |r|
        ensures StrLess(s[0], r[j])
      {
        assert r[j] in multiset(r);
      }
    }
  }

  /** Sorting distinct strings yields a strictly ascending list of the same strings. */
  lemma {:induction false} SortStringsSorted(s: seq<string>)
    requires NoDuplicates(s)
    ensures StrictlySorted(SortStrings(s))
  {
    if s != [] {
      assert NoDuplicates(s[1..]);
      SortStringsSorted(s[1..]);
      assert s[0] !in multiset(s[1..]);
      assert s[0] !in multiset(SortStrings(s[1..]));
      InsertSorted(s[0], SortStrings(s[1..]));
    }
  }

  /** Two strictly ascending lists of the same strings start alike. */
  lemma SortedHeadsAgree(a: seq<string>, b: seq<string>)
    requires StrictlySorted(a) && StrictlySorted(b)
    requires multiset(a) == multiset(b) && a != []
    ensures b != [] && a[0] == b[0]
  {
    assert a[0] in multiset(b);
    var i :| 0 <= i < |b| && b[i] == a[0];
    assert b[0] in multiset(a);
    var j :| 0 <= j < |a| && a[j] == b[0];
    if a[0] != b[0] {
      assert StrLess(b[0], b[i]) && StrLess(a[0], a[j]);
      StrLessAsymmetric(a[0], a[j]);
      assert false;
    }
  }

  /** Two strictly ascending lists of the same strings are the same list: the
      result does not depend on how the sorting is done. */
  lemma {:induction false} StrictlySortedUnique(a: seq<string>, b: seq<string>)
    requires StrictlySorted(a) && StrictlySorted(b)
    requires multiset(a) == multiset(b)
    ensures a == b
  {
    if a != [] {
      SortedHeadsAgree(a, b);
      var x := a[0];
      assert a == [x] + a[1..] && b == [x] + b[1..];
      assert multiset(a[1..]) == multiset(a) - multiset{x};
      assert multiset(b[1..]) == multiset(b) - multiset{x};
      StrictlySortedUnique(a[1..], b[1..]);
    }
  }
}
