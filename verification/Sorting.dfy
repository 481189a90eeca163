/**
 Python's `sorted` on a total preorder, as insertion from the right, and the facts the
 rest of the project takes from it: the answer is ordered, it is a permutation, and it is
 the only ordered permutation when equivalent elements are equal.
 */
module Sorting {
  ghost predicate TotalPreorder<T(!new)>(le: (T, T) -> bool) {
    && (forall a, b :: le(a, b) || le(b, a))
    && (forall a, b, c :: le(a, b) && le(b, c) ==> le(a, c))
  }

  ghost predicate Ordered<T>(s: seq<T>, le: (T, T) -> bool) {
    forall i, j :: 0 <= i < j < |s| ==> le(s[i], s[j])
  }

  function Insert<T>(x: T, s: seq<T>, le: (T, T) -> bool): (r: seq<T>)
    ensures |r| == |s| + 1
    ensures multiset(r) == multiset(s) + multiset{x}
  {
    if s == [] then [x]
    else if le(x, s[0]) then [x] + s
    else
      assert s == [s[0]] + s[1..];
      [s[0]] + Insert(x, s[1..], le)
  }

  /** `sorted(s)`: stable, since an element goes before its later equivalents. */
  function Sort<T>(s: seq<T>, le: (T, T) -> bool): (r: seq<T>)
    ensures |r| == |s|
    ensures multiset(r) == multiset(s)
  {
    if s == [] then []
    else
      assert s == [s[0]] + s[1..];
      Insert(s[0], Sort(s[1..], le), le)
  }

  lemma {:induction false} InsertKeepsOrder<T(!new)>(x: T, s: seq<T>, le: (T, T) -> bool)
    requires TotalPreorder(le) && Ordered(s, le)
    ensures Ordered(Insert(x, s, le), le)
  {
    if s != [] && !le(x, s[0]) {
      var rest := Insert(x, s[1..], le);
      InsertKeepsOrder(x, s[1..], le);
      forall y | y in rest
        ensures le(s[0], y)
      {
        assert y in multiset(s[1..]) + multiset{x};
      }
    }
  }

  lemma {:induction false} SortIsOrdered<T(!new)>(s: seq<T>, le: (T, T) -> bool)
    requires TotalPreorder(le)
    ensures Ordered(Sort(s, le), le)
  {
    if s != [] {
      SortIsOrdered(s[1..], le);
      InsertKeepsOrder(s[0], Sort(s[1..], le), le);
    }
  }

  // Stability

  /** The elements of one key, in the order they stand. */
  function Class<T, K(==)>(s: seq<T>, keyOf: T -> K, key: K): seq<T> {
    if s == [] then [] else (if keyOf(s[0]) == key then [s[0]] else []) + Class(s[1..], keyOf, key)
  }

  function IfOf<T, K(==)>(x: T, keyOf: T -> K, key: K): seq<T> { if keyOf(x) == key then [x] else [] }

  lemma ClassHead<T, K>(x: T, s: seq<T>, keyOf: T -> K, key: K)
    ensures Class([x] + s, keyOf, key) == IfOf(x, keyOf, key) + Class(s, keyOf, key)
  {
    assert ([x] + s)[1..] == s;
  }

  lemma {:induction false} InClass<T, K>(s: seq<T>, keyOf: T -> K, key: K)
    ensures forall x :: x in Class(s, keyOf, key) <==> x in s && keyOf(x) == key
  {
    if s != [] {
      InClass(s[1..], keyOf, key);
      assert s == [s[0]] + s[1..];
    }
  }

  lemma {:induction false} InsertKeepsClass<T(!new), K(!new)>(x: T, s: seq<T>, le: (T, T) -> bool, keyOf: T -> K, key: K)
    requires forall a, b :: keyOf(a) == keyOf(b) ==> le(a, b)
    ensures Class(Insert(x, s, le), keyOf, key) == Class([x] + s, keyOf, key)
  {
    if s != [] && !le(x, s[0]) {
      var rest := s[1..];
      var first, mine, others := IfOf(s[0], keyOf, key), IfOf(x, keyOf, key), Class(rest, keyOf, key);
      assert keyOf(x) != keyOf(s[0]);
      assert Class(Insert(x, s, le), keyOf, key) == first + (mine + others) by {
        InsertKeepsClass(x, rest, le, keyOf, key);
        ClassHead(s[0], Insert(x, rest, le), keyOf, key);
        ClassHead(x, rest, keyOf, key);
      }
      assert Class([x] + s, keyOf, key) == mine + (first + others) by { ClassHead(x, s, keyOf, key); }
      assert first == [] || mine == [];
    }
  }

  /** A sort that holds elements of one key equal leaves them in the order they stood. */
  lemma {:induction false} SortKeepsClasses<T(!new), K(!new)>(s: seq<T>, le: (T, T) -> bool, keyOf: T -> K, key: K)
    requires forall a, b :: keyOf(a) == keyOf(b) ==> le(a, b)
    ensures Class(Sort(s, le), keyOf, key) == Class(s, keyOf, key)
  {
    if s != [] {
      var rest := s[1..];
      SortKeepsClasses(rest, le, keyOf, key);
      InsertKeepsClass(s[0], Sort(rest, le), le, keyOf, key);
      ClassHead(s[0], Sort(rest, le), keyOf, key);
    }
  }

  ghost predicate SameClasses<T(!new), K(!new)>(s: seq<T>, t: seq<T>, keyOf: T -> K) {
    forall key :: Class(s, keyOf, key) == Class(t, keyOf, key)
  }

  lemma HeadOfClass<T, K>(s: seq<T>, t: seq<T>, keyOf: T -> K)
    requires s != [] && Class(s, keyOf, keyOf(s[0])) == Class(t, keyOf, keyOf(s[0]))
    ensures s[0] in t
    ensures t != [] && keyOf(t[0]) == keyOf(s[0]) ==> t[0] == s[0]
  {
    var key := keyOf(s[0]);
    assert Class(s, keyOf, key)[0] == s[0];
    InClass(t, keyOf, key);
    assert Class(t, keyOf, key)[0] in Class(t, keyOf, key);
  }

  lemma NothingInClasses<T(!new), K(!new)>(s: seq<T>, t: seq<T>, keyOf: T -> K)
    requires SameClasses(s, t, keyOf) && (s == [] || t == [])
    ensures s == t
  {
    assert s != [] ==> Class(s, keyOf, keyOf(s[0])) == Class(t, keyOf, keyOf(s[0]));
    assert t != [] ==> Class(s, keyOf, keyOf(t[0])) == Class(t, keyOf, keyOf(t[0]));
  }

  lemma FirstBelow<T>(s: seq<T>, le: (T, T) -> bool, x: T)
    requires Ordered(s, le) && x in s
    ensures s[0] == x || le(s[0], x)
  {
  }

  lemma HeadsAgree<T(!new), K(!new)>(s: seq<T>, t: seq<T>, le: (T, T) -> bool, keyOf: T -> K)
    requires s != [] && t != [] && Ordered(s, le) && Ordered(t, le) && SameClasses(s, t, keyOf)
    requires forall a, b :: a in s && b in t && le(a, b) && le(b, a) ==> keyOf(a) == keyOf(b)
    ensures s[0] == t[0]
  {
    assert Class(s, keyOf, keyOf(s[0])) == Class(t, keyOf, keyOf(s[0]));
    assert Class(s, keyOf, keyOf(t[0])) == Class(t, keyOf, keyOf(t[0]));
    HeadOfClass(s, t, keyOf);
    HeadOfClass(t, s, keyOf);
    FirstBelow(s, le, t[0]);
    FirstBelow(t, le, s[0]);
  }

  /** Two ordered listings with the same elements of each key, in the same order, are one listing. */
  lemma {:induction false} OrderedByClasses<T(!new), K(!new)>(s: seq<T>, t: seq<T>, le: (T, T) -> bool, keyOf: T -> K)
    requires Ordered(s, le) && Ordered(t, le) && SameClasses(s, t, keyOf)
    requires forall a, b :: a in s && b in t && le(a, b) && le(b, a) ==> keyOf(a) == keyOf(b)
    ensures s == t
  {
    if s == [] || t == [] {
      NothingInClasses(s, t, keyOf);
    } else {
      HeadsAgree(s, t, le, keyOf);
      forall key: K
        ensures Class(s[1..], keyOf, key) == Class(t[1..], keyOf, key)
      {
        var one := IfOf(s[0], keyOf, key);
        assert Class(s, keyOf, key) == Class(t, keyOf, key);
        assert one + Class(s[1..], keyOf, key) == one + Class(t[1..], keyOf, key);
        assert Class(s[1..], keyOf, key) == (one + Class(s[1..], keyOf, key))[|one|..];
        assert Class(t[1..], keyOf, key) == (one + Class(t[1..], keyOf, key))[|one|..];
      }
      OrderedByClasses(s[1..], t[1..], le, keyOf);
      assert s == [s[0]] + s[1..] && t == [t[0]] + t[1..];
    }
  }

  lemma TailMultiset<T>(s: seq<T>)
    requires s != []
    ensures multiset(s[1..]) == multiset(s) - multiset{s[0]}
  {
    assert s == [s[0]] + s[1..];
  }

  /** Two ordered listings of one multiset are one listing, when no two different elements are equivalent. */
  lemma {:induction false} OrderedListingIsUnique<T>(s: seq<T>, t: seq<T>, le: (T, T) -> bool)
    requires multiset(s) == multiset(t)
    requires Ordered(s, le) && Ordered(t, le)
    requires forall a, b :: a in s && b in s && le(a, b) && le(b, a) ==> a == b
    ensures s == t
  {
    if s == [] {
      assert |multiset(t)| == |t|;
    } else {
      assert s[0] in multiset(t) && t[0] in multiset(s);
      assert s[0] == t[0];
      TailMultiset(s);
      TailMultiset(t);
      OrderedListingIsUnique(s[1..], t[1..], le);
    }
  }

  // Listings of ids

  ghost predicate StrictlyAscending(s: seq<int>) {
    forall i, j :: 0 <= i < j < |s| ==> s[i] < s[j]
  }

  function SortIds(s: seq<int>): seq<int> {
    Sort(s, (a: int, b: int) => a <= b)
  }

  /** `sorted` of distinct ids: strictly ascending, the same ids. */
  lemma SortIdsAscends(s: seq<int>)
    requires forall i, j :: 0 <= i < j < |s| ==> s[i] != s[j]
    ensures StrictlyAscending(SortIds(s))
    ensures |SortIds(s)| == |s|
    ensures forall x :: x in SortIds(s) <==> x in s
  {
    var le := (a: int, b: int) => a <= b;
    var r := SortIds(s);
    SortIsOrdered(s, le);
    forall x ensures x in r <==> x in s {
      assert x in multiset(r) <==> x in multiset(s);
    }
    forall i, j | 0 <= i < j < |r|
      ensures r[i] < r[j]
    {
      if r[i] == r[j] {
        DuplicateCountsTwice(r, i, j);
        DistinctCountsOnce(s, r[i]);
        assert false;
      }
    }
  }

  lemma DuplicateCountsTwice<T>(s: seq<T>, i: nat, j: nat)
    requires i < j < |s| && s[i] == s[j]
    ensures multiset(s)[s[i]] >= 2
  {
    assert s == s[..i] + [s[i]] + s[i + 1..j] + [s[j]] + s[j + 1..];
    assert multiset(s) == multiset(s[..i]) + multiset{s[i]} + multiset(s[i + 1..j]) + multiset{s[j]} + multiset(s[j + 1..]);
  }

  lemma {:induction false} DistinctCountsOnce<T>(s: seq<T>, x: T)
    requires forall i, j :: 0 <= i < j < |s| ==> s[i] != s[j]
    ensures multiset(s)[x] <= 1
  {
    if s != [] {
      assert s == [s[0]] + s[1..];
      DistinctCountsOnce(s[1..], x);
      if x == s[0] {
        assert x !in s[1..];
        assert multiset(s[1..])[x] == 0;
      }
    }
  }

  /** A set of ids has one ascending listing. */
  lemma {:induction false} AscendingListingIsUnique(s: seq<int>, t: seq<int>)
    requires StrictlyAscending(s) && StrictlyAscending(t)
    requires forall x :: x in s <==> x in t
    ensures s == t
  {
    assert s != [] ==> s[0] in s;
    assert t != [] ==> t[0] in t;
    if s != [] {
      assert s[0] == t[0];
      forall x
        ensures x in s[1..] <==> x in t[1..]
      {
        if x in s[1..] { assert x in t && x != s[0]; }
        if x in t[1..] { assert x in s && x != s[0]; }
      }
      AscendingListingIsUnique(s[1..], t[1..]);
    }
  }
}
