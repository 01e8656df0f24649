/** The relevance sort of `searchBooks`. `Array.prototype.sort` is stable,
    and the comparator `bMatches - aMatches` orders by a key, largest
    first, so the sorted array is the unique arrangement that is ordered by
    key and keeps each group of equal keys in input order. The model
    computes it by stable insertion. */
module Ranking {

  /** Keys never increase along `s`. */
  predicate SortedDesc<T>(s: seq<T>, key: T -> nat)
  {
    forall i, j :: 0 <= i < j < |s| ==> key(s[i]) >= key(s[j])
  }

  /** The elements of `s` whose key is `n`, in order. */
  function WithKey<T>(s: seq<T>, key: T -> nat, n: nat): (r: seq<T>)
    ensures |r| <= |s|
  {
    if s == [] then []
    else (if key(s[0]) == n then [s[0]] else []) + WithKey(s[1..], key, n)
  }

  /** Put `x` before the first element whose key is not larger than its
      own. */
  function Insert<T>(x: T, s: seq<T>, key: T -> nat): (r: seq<T>)
    ensures |r| == |s| + 1
  {
    if s == [] then [x]
    else if key(x) >= key(s[0]) then [x] + s
    else [s[0]] + Insert(x, s[1..], key)
  }

  /** The stable sort by key, largest first. */
  function SortByKeyDesc<T>(s: seq<T>, key: T -> nat): (r: seq<T>)
    ensures |r| == |s|
  {
    if s == [] then [] else Insert(s[0], SortByKeyDesc(s[1..], key), key)
  }

  lemma {:induction false} InsertPermutes<T>(x: T, s: seq<T>, key: T -> nat)
    ensures multiset(Insert(x, s, key)) == multiset(s) + multiset{x}
  {
    if s != [] && key(x) < key(s[0]) {
      InsertPermutes(x, s[1..], key);
      assert s == [s[0]] + s[1..];
    }
  }

  /** Inserting an element no larger than `b` into elements no larger than
      `b` keeps every key at most `b`. */
  lemma {:induction false} InsertBounded<T>(x: T, s: seq<T>, key: T -> nat, b: nat)
    requires key(x) <= b
    requires forall j :: 0 <= j < |s| ==> key(s[j]) <= b
    ensures forall j :: 0 <= j < |s| + 1 ==> key(Insert(x, s, key)[j]) <= b
  {
    if s != [] && key(x) < key(s[0]) {
      InsertBounded(x, s[1..], key, b);
      var r := Insert(x, s[1..], key);
      assert Insert(x, s, key) == [s[0]] + r;
      assert forall j :: 1 <= j < |s| + 1 ==> Insert(x, s, key)[j] == r[j - 1];
    }
  }

  lemma {:induction false} InsertSorted<T>(x: T, s: seq<T>, key: T -> nat)
    requires SortedDesc(s, key)
    ensures SortedDesc(Insert(x, s, key), key)
  {
    if s != [] {
      if key(x) >= key(s[0]) {
        assert forall j :: 0 <= j < |s| ==> key(s[0]) >= key(s[j]);
      } else {
        var tail := s[1..];
        assert SortedDesc(tail, key);
        InsertSorted(x, tail, key);
        assert forall j :: 0 <= j < |tail| ==> key(tail[j]) <= key(s[0]);
        InsertBounded(x, tail, key, key(s[0]));
        var r := Insert(x, tail, key);
        assert Insert(x, s, key) == [s[0]] + r;
      }
    }
  }

  /** The sort orders by key, largest first. */
  lemma {:induction false} SortSorted<T>(s: seq<T>, key: T -> nat)
    ensures SortedDesc(SortByKeyDesc(s, key), key)
  {
    if s != [] {
      SortSorted(s[1..], key);
      InsertSorted(s[0], SortByKeyDesc(s[1..], key), key);
    }
  }

  /** The sort only rearranges. */
  lemma {:induction false} SortPermutes<T>(s: seq<T>, key: T -> nat)
    ensures multiset(SortByKeyDesc(s, key)) == multiset(s)
  {
    if s != [] {
      SortPermutes(s[1..], key);
      InsertPermutes(s[0], SortByKeyDesc(s[1..], key), key);
      assert s == [s[0]] + s[1..];
    }
  }

  lemma {:induction false} InsertWithKey<T>(x: T, s: seq<T>, key: T -> nat, n: nat)
    ensures WithKey(Insert(x, s, key), key, n) == (if key(x) == n then [x] else []) + WithKey(s, key, n)
  {
    var head: seq<T> := if key(x) == n then [x] else [];
    if s == [] {
      assert [x][1..] == [];
      assert WithKey([x], key, n) == head + WithKey([], key, n);
    } else if key(x) >= key(s[0]) {
      assert ([x] + s)[0] == x && ([x] + s)[1..] == s;
    } else {
      InsertWithKey(x, s[1..], key, n);
      var rest := Insert(x, s[1..], key);
      var r := [s[0]] + rest;
      assert r[0] == s[0] && r[1..] == rest;
      var first: seq<T> := if key(s[0]) == n then [s[0]] else [];
      assert WithKey(r, key, n) == first + WithKey(rest, key, n);
      assert WithKey(s, key, n) == first + WithKey(s[1..], key, n);
      assert first == [] || head == [];
    }
  }

  /** The sort is stable: elements with equal keys keep their input order. */
  lemma {:induction false} SortStable<T>(s: seq<T>, key: T -> nat, n: nat)
    ensures WithKey(SortByKeyDesc(s, key), key, n) == WithKey(s, key, n)
  {
    if s != [] {
      SortStable(s[1..], key, n);
      InsertWithKey(s[0], SortByKeyDesc(s[1..], key), key, n);
    }
  }

  lemma {:induction false} WithKeyMember<T>(s: seq<T>, key: T -> nat, n: nat, i: int)
    requires 0 <= i < |s| && key(s[i]) == n
    ensures WithKey(s, key, n) != []
  {
    if i > 0 { WithKeyMember(s[1..], key, n, i - 1); }
  }

  lemma {:induction false} WithKeyHasKey<T>(s: seq<T>, key: T -> nat, n: nat)
    requires WithKey(s, key, n) != []
    ensures exists i :: 0 <= i < |s| && key(s[i]) == n
  {
    if key(s[0]) != n {
      WithKeyHasKey(s[1..], key, n);
      var i :| 0 <= i < |s[1..]| && key(s[1..][i]) == n;
      assert key(s[i + 1]) == n;
    }
  }

  /** A non-empty sequence has a non-empty group: its first element's. */
  lemma HeadGroup<T>(s: seq<T>, key: T -> nat)
    ensures s != [] ==> WithKey(s, key, key(s[0])) != []
  {
  }

  /** Two ordered sequences with the same groups start with the same
      element. */
  lemma SameHead<T>(a: seq<T>, b: seq<T>, key: T -> nat)
    requires a != [] && b != []
    requires SortedDesc(a, key) && SortedDesc(b, key)
    requires WithKey(a, key, key(a[0])) == WithKey(b, key, key(a[0]))
    requires WithKey(a, key, key(b[0])) == WithKey(b, key, key(b[0]))
    ensures a[0] == b[0]
  {
    var ka, kb := key(a[0]), key(b[0]);
    WithKeyMember(a, key, ka, 0);
    WithKeyHasKey(b, key, ka);
    var i :| 0 <= i < |b| && key(b[i]) == ka;
    WithKeyMember(b, key, kb, 0);
    WithKeyHasKey(a, key, kb);
    var j :| 0 <= j < |a| && key(a[j]) == kb;
    assert ka == kb;
    assert WithKey(a, key, ka)[0] == a[0] && WithKey(b, key, ka)[0] == b[0];
  }

  /** Sequences with the same first element and the same groups have the
      same groups after it. */
  lemma SameTailGroups<T>(a: seq<T>, b: seq<T>, key: T -> nat, n: nat)
    requires a != [] && b != [] && a[0] == b[0]
    requires WithKey(a, key, n) == WithKey(b, key, n)
    ensures WithKey(a[1..], key, n) == WithKey(b[1..], key, n)
  {
    var head: seq<T> := if key(a[0]) == n then [a[0]] else [];
    assert WithKey(a, key, n) == head + WithKey(a[1..], key, n);
    assert WithKey(b, key, n) == head + WithKey(b[1..], key, n);
    assert (head + WithKey(a[1..], key, n))[|head|..] == WithKey(a[1..], key, n);
    assert (head + WithKey(b[1..], key, n))[|head|..] == WithKey(b[1..], key, n);
  }

  /** A stable sort's result is unique: two sequences that are both ordered
      by key and have the same elements, in the same order, within every
      group of equal keys are equal. So any stable sort by this key, such as
      `Array.prototype.sort`, yields `SortByKeyDesc`. */
  lemma {:induction false} StableSortUnique<T>(a: seq<T>, b: seq<T>, key: T -> nat)
    requires SortedDesc(a, key) && SortedDesc(b, key)
    requires forall n: nat :: WithKey(a, key, n) == WithKey(b, key, n)
    ensures a == b
    decreases |a|
  {
    if a == [] {
      HeadGroup(b, key);
    } else if b == [] {
      HeadGroup(a, key);
    } else {
      SameHead(a, b, key);
      forall n: nat ensures WithKey(a[1..], key, n) == WithKey(b[1..], key, n) {
        SameTailGroups(a, b, key, n);
      }
      assert SortedDesc(a[1..], key) && SortedDesc(b[1..], key);
      StableSortUnique(a[1..], b[1..], key);
      assert a == [a[0]] + a[1..] && b == [b[0]] + b[1..];
    }
  }
}
