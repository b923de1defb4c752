/** The two sorts the services use. `SortByKey` is Python's stable
    `list.sort(key=...)` on a numeric key: the result is ordered, is a
    permutation of the input, and elements with equal keys keep their
    relative order. `SortStrings` is `sorted()` on a list of names. */
module Sorting {
  import Text

  predicate SortedByKey<T>(s: seq<T>, key: T -> real) {
    forall i, j :: 0 <= i < j < |s| ==> key(s[i]) <= key(s[j])
  }

  /** The elements of `s` whose key is `k`, in their order in `s`. */
  function Ties<T>(s: seq<T>, k: real, key: T -> real): seq<T> {
    if |s| == 0 then []
    else (if key(s[0]) == k then [s[0]] else []) + Ties(s[1..], k, key)
  }

  lemma TiesOfCons<T>(a: T, s: seq<T>, k: real, key: T -> real)
    ensures Ties([a] + s, k, key) == (if key(a) == k then [a] else []) + Ties(s, k, key)
  {
    assert ([a] + s)[1..] == s;
  }

  /** Places `x` before the first element whose key is not below its own:
      after every element with a smaller key and before all its ties. */
  function InsertByKey<T>(x: T, s: seq<T>, key: T -> real): (r: seq<T>)
    requires SortedByKey(s, key)
    ensures SortedByKey(r, key)
    ensures multiset(r) == multiset(s) + multiset{x}
    ensures forall k :: Ties(r, k, key) == (if key(x) == k then [x] else []) + Ties(s, k, key)
  {
    if |s| == 0 || key(x) <= key(s[0]) then
      forall k ensures Ties([x] + s, k, key) == (if key(x) == k then [x] else []) + Ties(s, k, key) {
        TiesOfCons(x, s, k, key);
      }
      [x] + s
    else
      var rest := InsertByKey(x, s[1..], key);
      InsertBehind(x, s, rest, key);
      [s[0]] + rest
  }

  lemma InsertBehind<T>(x: T, s: seq<T>, rest: seq<T>, key: T -> real)
    requires SortedByKey(s, key)
    requires |s| > 0 && key(s[0]) < key(x)
    requires SortedByKey(rest, key)
    requires multiset(rest) == multiset(s[1..]) + multiset{x}
    requires forall k :: Ties(rest, k, key) == (if key(x) == k then [x] else []) + Ties(s[1..], k, key)
    ensures SortedByKey([s[0]] + rest, key)
    ensures multiset([s[0]] + rest) == multiset(s) + multiset{x}
    ensures forall k :: Ties([s[0]] + rest, k, key) == (if key(x) == k then [x] else []) + Ties(s, k, key)
  {
    HeadBelowRest(x, s, rest, key);
    HeadCount(x, s, rest);
    HeadTies(x, s, rest, key);
  }

  lemma HeadCount<T>(x: T, s: seq<T>, rest: seq<T>)
    requires |s| > 0 && multiset(rest) == multiset(s[1..]) + multiset{x}
    ensures multiset([s[0]] + rest) == multiset(s) + multiset{x}
  {
    assert s == [s[0]] + s[1..];
  }

  lemma HeadTies<T>(x: T, s: seq<T>, rest: seq<T>, key: T -> real)
    requires |s| > 0 && key(s[0]) < key(x)
    requires forall k :: Ties(rest, k, key) == (if key(x) == k then [x] else []) + Ties(s[1..], k, key)
    ensures forall k :: Ties([s[0]] + rest, k, key) == (if key(x) == k then [x] else []) + Ties(s, k, key)
  {
    forall k ensures Ties([s[0]] + rest, k, key) == (if key(x) == k then [x] else []) + Ties(s, k, key) {
      HeadTiesAt(x, s, rest, key, k);
    }
  }

  lemma HeadTiesAt<T>(x: T, s: seq<T>, rest: seq<T>, key: T -> real, k: real)
    requires |s| > 0 && key(s[0]) < key(x)
    requires Ties(rest, k, key) == (if key(x) == k then [x] else []) + Ties(s[1..], k, key)
    ensures Ties([s[0]] + rest, k, key) == (if key(x) == k then [x] else []) + Ties(s, k, key)
  {
    assert s == [s[0]] + s[1..];
    TiesOfCons(s[0], rest, k, key);
    TiesOfCons(s[0], s[1..], k, key);
  }

  lemma HeadBelowRest<T>(x: T, s: seq<T>, rest: seq<T>, key: T -> real)
    requires SortedByKey(s, key)
    requires |s| > 0 && key(s[0]) < key(x)
    requires SortedByKey(rest, key)
    requires multiset(rest) == multiset(s[1..]) + multiset{x}
    ensures SortedByKey([s[0]] + rest, key)
  {
    forall j | 0 <= j < |rest|
      ensures key(s[0]) <= key(rest[j])
    {
      assert rest[j] in multiset(rest);
      if rest[j] != x {
        assert rest[j] in multiset(s[1..]);
        var i :| 0 <= i < |s[1..]| && s[1..][i] == rest[j];
        assert s[i + 1] == rest[j];
      }
    }
    var r := [s[0]] + rest;
    forall i, j | 0 <= i < j < |r| ensures key(r[i]) <= key(r[j]) {
      assert r[j] == rest[j - 1];
      if i > 0 {
        assert r[i] == rest[i - 1];
      }
    }
  }

  /** Insertion sort from the back: each head is inserted ahead of its
      ties, all of which came after it in the input. */
  function SortByKey<T>(s: seq<T>, key: T -> real): (r: seq<T>)
    ensures SortedByKey(r, key)
    ensures multiset(r) == multiset(s)
    ensures |r| == |s|
    ensures forall k :: Ties(r, k, key) == Ties(s, k, key)
  {
    if |s| == 0 then []
    else
      var rest := SortByKey(s[1..], key);
      assert s == [s[0]] + s[1..];
      var r := InsertByKey(s[0], rest, key);
      assert |r| == |multiset(r)| == |s|;
      forall k ensures Ties(r, k, key) == Ties(s, k, key) {
        TiesOfCons(s[0], s[1..], k, key);
      }
      r
  }

  /** Sorting a sorted sequence leaves it as it is. */
  lemma {:induction false} SortByKeyOfSorted<T>(s: seq<T>, key: T -> real)
    requires SortedByKey(s, key)
    ensures SortByKey(s, key) == s
  {
    if |s| > 0 {
      SortedByKeyTail(s, key);
      SortByKeyOfSorted(s[1..], key);
      if |s| > 1 {
        assert key(s[0]) <= key(s[1..][0]);
      }
      InsertByKeyFront(s[0], s[1..], key);
      assert s == [s[0]] + s[1..];
    }
  }

  lemma SortedByKeyTail<T>(s: seq<T>, key: T -> real)
    requires SortedByKey(s, key) && |s| > 0
    ensures SortedByKey(s[1..], key)
  {
    assert forall i :: 0 <= i < |s| - 1 ==> s[1..][i] == s[i + 1];
  }

  lemma InsertByKeyFront<T>(x: T, s: seq<T>, key: T -> real)
    requires SortedByKey(s, key)
    requires |s| == 0 || key(x) <= key(s[0])
    ensures InsertByKey(x, s, key) == [x] + s
  {
  }

  predicate LexSorted(s: seq<string>) {
    forall i, j :: 0 <= i < j < |s| ==> Text.LexLe(s[i], s[j])
  }

  function InsertString(x: string, s: seq<string>): (r: seq<string>)
    requires LexSorted(s)
    ensures LexSorted(r)
    ensures multiset(r) == multiset(s) + multiset{x}
  {
    if |s| == 0 || Text.LexLe(x, s[0]) then
      forall j | 0 <= j < |s| ensures Text.LexLe(x, s[j]) {
        if j > 0 {
          Text.LexLeTransitive(x, s[0], s[j]);
        }
      }
      [x] + s
    else
      var rest := InsertString(x, s[1..]);
      assert s == [s[0]] + s[1..];
      Text.LexLeTotal(x, s[0]);
      forall j | 0 <= j < |rest|
        ensures Text.LexLe(s[0], rest[j])
      {
        assert rest[j] in multiset(rest);
        if rest[j] != x {
          assert rest[j] in multiset(s[1..]);
          var i :| 0 <= i < |s[1..]| && s[1..][i] == rest[j];
          assert s[i + 1] == rest[j];
        }
      }
      [s[0]] + rest
  }

  /** `sorted()` on strings: code-point order, a permutation of the input. */
  function SortStrings(s: seq<string>): (r: seq<string>)
    ensures LexSorted(r)
    ensures multiset(r) == multiset(s)
    ensures |r| == |s|
  {
    if |s| == 0 then []
    else
      assert s == [s[0]] + s[1..];
      var r := InsertString(s[0], SortStrings(s[1..]));
      assert |r| == |multiset(r)| == |s|;
      r
  }
}
