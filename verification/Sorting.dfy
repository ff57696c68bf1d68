/** Stable sorting by an integer key, as `sort.SliceStable` promises it. */
module Sorting {

  ghost predicate Sorted<T>(s: seq<T>, key: T -> int) {
    forall i, j :: 0 <= i < j < |s| ==> key(s[i]) <= key(s[j])
  }

  function Keep<T>(s: seq<T>, p: T -> bool): seq<T> {
    if s == [] then [] else (if p(s[0]) then [s[0]] else []) + Keep(s[1..], p)
  }

  /** Puts `x` in front of the first element whose key is not smaller. */
  function Insert<T>(x: T, s: seq<T>, key: T -> int): seq<T> {
    if s == [] || key(x) <= key(s[0]) then [x] + s else [s[0]] + Insert(x, s[1..], key)
  }

  function Sort<T>(s: seq<T>, key: T -> int): seq<T> {
    if s == [] then [] else Insert(s[0], Sort(s[1..], key), key)
  }

  lemma ConsElems<T>(x: T, s: seq<T>)
    ensures multiset([x] + s) == multiset{x} + multiset(s)
  {
  }

  lemma {:induction false} InsertElems<T(!new)>(x: T, s: seq<T>, key: T -> int)
    ensures multiset(Insert(x, s, key)) == multiset(s) + multiset{x}
  {
    if s == [] || key(x) <= key(s[0]) {
      ConsElems(x, s);
    } else {
      hide Insert;
      var y, tail := s[0], s[1..];
      assert s == [y] + tail;
      InsertCons(x, y, tail, key);
      InsertElems(x, tail, key);
      ConsElems(y, Insert(x, tail, key));
      ConsElems(y, tail);
    }
  }

  lemma {:induction false} SortElems<T(!new)>(s: seq<T>, key: T -> int)
    ensures multiset(Sort(s, key)) == multiset(s)
    ensures |Sort(s, key)| == |s|
  {
    if s != [] {
      SortElems(s[1..], key);
      InsertElems(s[0], Sort(s[1..], key), key);
      ConsElems(s[0], s[1..]);
      assert s == [s[0]] + s[1..];
    }
    SameLength(Sort(s, key), s);
  }

  lemma SameLength<T>(s: seq<T>, t: seq<T>)
    requires multiset(s) == multiset(t)
    ensures |s| == |t|
  {
    assert |multiset(s)| == |s| && |multiset(t)| == |t|;
  }

  ghost predicate Distinct<T>(s: seq<T>) {
    forall i, j :: 0 <= i < j < |s| ==> s[i] != s[j]
  }

  lemma {:induction false} InsertDistinct<T>(x: T, s: seq<T>, key: T -> int)
    requires Distinct(s) && x !in s
    ensures var r := Insert(x, s, key); |r| == |s| + 1 && Distinct(r) && forall i :: 0 <= i < |r| ==> r[i] == x || r[i] in s
  {
    if s != [] && key(x) > key(s[0]) {
      InsertDistinct(x, s[1..], key);
    }
  }

  /** Sorting loses, repeats and invents nothing. */
  lemma {:induction false} SortDistinct<T>(s: seq<T>, key: T -> int)
    requires Distinct(s)
    ensures var r := Sort(s, key); |r| == |s| && Distinct(r) && forall i :: 0 <= i < |r| ==> r[i] in s
  {
    if s != [] {
      SortDistinct(s[1..], key);
      InsertDistinct(s[0], Sort(s[1..], key), key);
    }
  }

  lemma SameElems<T(!new)>(s: seq<T>, t: seq<T>)
    requires multiset(s) == multiset(t)
    ensures forall x :: x in s <==> x in t
  {
    forall x ensures x in s <==> x in t {
      assert x in s <==> x in multiset(s);
      assert x in t <==> x in multiset(t);
    }
  }

  lemma {:induction false} InsertSorted<T(!new)>(x: T, s: seq<T>, key: T -> int)
    requires Sorted(s, key)
    ensures Sorted(Insert(x, s, key), key)
  {
    if s != [] && key(x) > key(s[0]) {
      var t := Insert(x, s[1..], key);
      InsertSorted(x, s[1..], key);
      InsertKeeps(x, s[1..], key);
      SortedCons(s[0], t, key);
    } else {
      SortedCons(x, s, key);
    }
  }

  /** Whatever is inserted, the elements are the old ones and the new one. */
  lemma {:induction false} InsertKeeps<T(!new)>(x: T, s: seq<T>, key: T -> int)
    ensures forall y :: y in Insert(x, s, key) ==> y == x || y in s
  {
    if s != [] && key(x) > key(s[0]) {
      InsertKeeps(x, s[1..], key);
    }
  }

  lemma SortedCons<T>(x: T, s: seq<T>, key: T -> int)
    requires Sorted(s, key) && forall y <- s :: key(x) <= key(y)
    ensures Sorted([x] + s, key)
  {
    forall i, j | 0 <= i < j < |[x] + s| ensures key(([x] + s)[i]) <= key(([x] + s)[j]) {
      if i == 0 {
        assert s[j - 1] in s;
      }
    }
  }

  lemma {:induction false} SortSorted<T(!new)>(s: seq<T>, key: T -> int)
    ensures Sorted(Sort(s, key), key)
  {
    if s != [] {
      SortSorted(s[1..], key);
      InsertSorted(s[0], Sort(s[1..], key), key);
    }
  }

  lemma {:induction false} SortOfSorted<T(!new)>(s: seq<T>, key: T -> int)
    requires Sorted(s, key)
    ensures Sort(s, key) == s
  {
    if s != [] {
      SortOfSorted(s[1..], key);
    }
  }

  lemma {:induction false} KeepIn<T(!new)>(s: seq<T>, p: T -> bool)
    ensures forall x :: x in Keep(s, p) <==> x in s && p(x)
  {
    if s != [] {
      KeepIn(s[1..], p);
      forall x ensures x in s <==> x == s[0] || x in s[1..] {
      }
    }
  }

  lemma KeepCons<T(!new)>(x: T, s: seq<T>, p: T -> bool)
    ensures Keep([x] + s, p) == (if p(x) then [x] else []) + Keep(s, p)
  {
    assert ([x] + s)[1..] == s;
  }

  lemma InsertCons<T(!new)>(x: T, y: T, s: seq<T>, key: T -> int)
    ensures Insert(x, [y] + s, key) == if key(x) <= key(y) then [x] + ([y] + s) else [y] + Insert(x, s, key)
  {
    assert ([y] + s)[1..] == s;
  }

  lemma InsertFirst<T(!new)>(x: T, s: seq<T>, key: T -> int)
    requires forall y :: y in s ==> key(x) <= key(y)
    ensures Insert(x, s, key) == [x] + s
  {
  }

  lemma {:induction false} KeepInsert<T(!new)>(x: T, s: seq<T>, key: T -> int, p: T -> bool)
    requires Sorted(s, key)
    ensures Keep(Insert(x, s, key), p) == if p(x) then Insert(x, Keep(s, p), key) else Keep(s, p)
  {
    if s == [] || key(x) <= key(s[0]) {
      KeepCons(x, s, p);
      KeepIn(s, p);
      NoneFirst(Keep(s, p));
      if p(x) {
        InsertFirst(x, Keep(s, p), key);
      }
    } else {
      hide Keep, Insert;
      var y, tail := s[0], s[1..];
      assert s == [y] + tail;
      var k := Keep(tail, p);
      InsertCons(x, y, tail, key);
      KeepCons(y, tail, p);
      KeepCons(y, Insert(x, tail, key), p);
      KeepInsert(x, tail, key, p);
      InsertCons(x, y, k, key);
      NoneFirst(k);
      NoneFirst(Insert(x, k, key));
    }
  }

  /** Selecting and sorting commute. */
  lemma {:induction false} KeepSort<T(!new)>(s: seq<T>, key: T -> int, p: T -> bool)
    ensures Keep(Sort(s, key), p) == Sort(Keep(s, p), key)
  {
    if s != [] {
      KeepSort(s[1..], key, p);
      SortSorted(s[1..], key);
      KeepInsert(s[0], Sort(s[1..], key), key, p);
      var k := Keep(s[1..], p);
      if p(s[0]) {
        assert ([s[0]] + k)[1..] == k;
      } else {
        assert [] + k == k;
      }
    }
  }

  lemma {:induction false} KeepKeep<T(!new)>(s: seq<T>, p: T -> bool, q: T -> bool, pq: T -> bool)
    requires forall x :: x in s ==> pq(x) == (p(x) && q(x))
    ensures Keep(Keep(s, p), q) == Keep(s, pq)
  {
    if s != [] {
      hide Keep;
      var x, tail := s[0], s[1..];
      assert s == [x] + tail;
      KeepKeep(tail, p, q, pq);
      KeepCons(x, tail, p);
      KeepCons(x, tail, pq);
      KeepCons(x, Keep(tail, p), q);
      NoneFirst(Keep(tail, p));
      NoneFirst(Keep(tail, pq));
    }
  }

  lemma NoneFirst<T>(s: seq<T>)
    ensures [] + s == s
  {
  }

  lemma {:induction false} KeepAll<T(!new)>(s: seq<T>, p: T -> bool)
    requires forall x :: x in s ==> p(x)
    ensures Keep(s, p) == s
  {
    if s != [] {
      KeepAll(s[1..], p);
    }
  }

  // ---------------------------------------------------------------- uniqueness

  /** The elements with key `k`, in order. */
  function Of<T(!new)>(s: seq<T>, key: T -> int, k: int): seq<T> {
    Keep(s, x => key(x) == k)
  }

  lemma OfIn<T(!new)>(s: seq<T>, key: T -> int, k: int)
    ensures forall x :: x in Of(s, key, k) <==> x in s && key(x) == k
  {
    KeepIn(s, x => key(x) == k);
  }

  lemma OfCons<T(!new)>(s: seq<T>, key: T -> int, k: int)
    requires s != []
    ensures Of(s, key, k) == (if key(s[0]) == k then [s[0]] else []) + Of(s[1..], key, k)
  {
  }

  /** A stable sort is determined: sorted sequences with the same elements of
      each key, in the same order, are equal. */
  lemma {:induction false} SortedUnique<T(!new)>(s: seq<T>, t: seq<T>, key: T -> int)
    requires Sorted(s, key) && Sorted(t, key)
    requires forall k :: Of(s, key, k) == Of(t, key, k)
    ensures s == t
  {
    hide Of;
    if s != [] {
      OfIn(s, key, key(s[0]));
      OfIn(t, key, key(s[0]));
      assert s[0] in t;
      OfIn(s, key, key(t[0]));
      OfIn(t, key, key(t[0]));
      assert key(s[0]) == key(t[0]);
      OfCons(s, key, key(s[0]));
      OfCons(t, key, key(s[0]));
      assert Of(s, key, key(s[0]))[0] == s[0] && Of(t, key, key(s[0]))[0] == t[0];
      forall k ensures Of(s[1..], key, k) == Of(t[1..], key, k) {
        OfCons(s, key, k);
        OfCons(t, key, k);
        var head := if key(s[0]) == k then [s[0]] else [];
        assert Of(s, key, k)[|head|..] == Of(s[1..], key, k);
        assert Of(t, key, k)[|head|..] == Of(t[1..], key, k);
      }
      SortedUnique(s[1..], t[1..], key);
    } else {
      SomethingIn(s, t, key);
    }
  }

  lemma SomethingIn<T(!new)>(s: seq<T>, t: seq<T>, key: T -> int)
    requires forall k :: Of(s, key, k) == Of(t, key, k)
    ensures t != [] ==> s != []
  {
    hide Of;
    if t != [] {
      OfIn(t, key, key(t[0]));
      OfIn(s, key, key(t[0]));
      assert t[0] in s;
    }
  }

  ghost predicate DistinctKeys<T(!new)>(s: seq<T>, key: T -> int) {
    forall i, j :: 0 <= i < j < |s| ==> key(s[i]) != key(s[j])
  }

  lemma {:induction false} OfDistinct<T(!new)>(s: seq<T>, key: T -> int, x: T)
    requires DistinctKeys(s, key) && x in s
    ensures Of(s, key, key(x)) == [x]
  {
    OfCons(s, key, key(x));
    if s[0] == x {
      OfIn(s[1..], key, key(x));
      SomeIn(Of(s[1..], key, key(x)));
    } else {
      var i :| 0 <= i < |s| && s[i] == x;
      assert x == s[1..][i - 1] && key(s[0]) != key(x);
      OfDistinct(s[1..], key, x);
    }
  }

  /** With distinct keys, the order in which elements arrived leaves no trace. */
  lemma SortForgetsOrder<T(!new)>(s: seq<T>, t: seq<T>, key: T -> int)
    requires multiset(s) == multiset(t)
    requires DistinctKeys(s, key) && DistinctKeys(t, key)
    ensures Sort(s, key) == Sort(t, key)
  {
    SortSorted(s, key);
    SortSorted(t, key);
    SameElems(s, t);
    forall k ensures Of(Sort(s, key), key, k) == Of(Sort(t, key), key, k) {
      KeepSort(s, key, x => key(x) == k);
      KeepSort(t, key, x => key(x) == k);
      OfIn(s, key, k);
      OfIn(t, key, k);
      if x :| x in s && key(x) == k {
        OfDistinct(s, key, x);
        OfDistinct(t, key, x);
      } else {
        SomeIn(Of(s, key, k));
        SomeIn(Of(t, key, k));
      }
    }
    SortedUnique(Sort(s, key), Sort(t, key), key);
  }

  lemma SomeIn<T(!new)>(s: seq<T>)
    ensures s == [] || exists x :: x in s
  {
    if s != [] {
      assert s[0] in s;
    }
  }
}
