/** `ORDER BY major ASC, middle ASC, minor ASC` where `minor` may be NULL. SQLite sorts
    NULL before every other value; rows with equal keys come out in an order
    SQL leaves open, so only sortedness and "same rows" are promised. */
module Sorting {
  import opened Wrappers

  datatype Key = Key(major: int, middle: int, minor: Option<int>)

  predicate MinorLe(a: Option<int>, b: Option<int>) {
    a.None? || (b.Some? && a.value <= b.value)
  }

  predicate KeyLe(a: Key, b: Key) {
    || a.major < b.major
    || (a.major == b.major && a.middle < b.middle)
    || (a.major == b.major && a.middle == b.middle && MinorLe(a.minor, b.minor))
  }

  /** The key order is total and transitive, as an ORDER BY needs. */
  lemma KeyLeTotalPreorder(a: Key, b: Key, c: Key)
    ensures KeyLe(a, b) || KeyLe(b, a)
    ensures KeyLe(a, b) && KeyLe(b, c) ==> KeyLe(a, c)
  {
  }

  ghost predicate SortedBy<T>(s: seq<T>, key: T -> Key) {
    forall i, j :: 0 <= i < j < |s| ==> KeyLe(key(s[i]), key(s[j]))
  }

  /** Places `x` into the sorted `s` after every element whose key is not greater. */
  function Insert<T(==)>(x: T, s: seq<T>, key: T -> Key): (r: seq<T>)
    requires SortedBy(s, key)
    ensures SortedBy(r, key)
    ensures multiset(r) == multiset(s) + multiset{x}
    ensures |r| == |s| + 1
  {
    if |s| == 0 then [x]
    else if KeyLe(key(x), key(s[0])) && !KeyLe(key(s[0]), key(x)) then
      assert forall j :: 0 < j < |s| ==> KeyLe(key(s[0]), key(s[j]));
      [x] + s
    else
      assert s == [s[0]] + s[1..];
      var tail := Insert(x, s[1..], key);
      InsertBelow(s, x, tail, key);
      PrependSorted(s[0], tail, key);
      [s[0]] + tail
  }

  /** The head of `s` stays below everything inserted after it. */
  lemma InsertBelow<T>(s: seq<T>, x: T, tail: seq<T>, key: T -> Key)
    requires |s| > 0 && SortedBy(s, key)
    requires !(KeyLe(key(x), key(s[0])) && !KeyLe(key(s[0]), key(x)))
    requires multiset(tail) == multiset(s[1..]) + multiset{x}
    ensures forall j :: 0 <= j < |tail| ==> KeyLe(key(s[0]), key(tail[j]))
  {
    forall j | 0 <= j < |tail| ensures KeyLe(key(s[0]), key(tail[j])) {
      assert tail[j] in multiset(tail);
      if tail[j] != x {
        var k :| 0 <= k < |s[1..]| && s[1..][k] == tail[j];
        assert s[k + 1] == tail[j];
      } else {
        KeyLeTotalPreorder(key(s[0]), key(x), key(x));
      }
    }
  }

  /** A sorted sequence stays sorted under a new least element. */
  lemma PrependSorted<T>(y: T, t: seq<T>, key: T -> Key)
    requires SortedBy(t, key)
    requires forall j :: 0 <= j < |t| ==> KeyLe(key(y), key(t[j]))
    ensures SortedBy([y] + t, key)
  {
    var r := [y] + t;
    forall i, j | 0 <= i < j < |r| ensures KeyLe(key(r[i]), key(r[j])) {
      assert r[j] == t[j - 1];
      if i > 0 {
        assert r[i] == t[i - 1];
      }
    }
  }

  /** Insertion sort. */
  function Sort<T(==)>(s: seq<T>, key: T -> Key): (r: seq<T>)
    ensures SortedBy(r, key)
    ensures multiset(r) == multiset(s)
    ensures |r| == |s|
  {
    if |s| == 0 then []
    else
      assert s == [s[0]] + s[1..];
      Insert(s[0], Sort(s[1..], key), key)
  }

  /** Keys that strictly increase already fix the order: sorting changes nothing. */
  lemma {:induction false} SortStrict<T>(s: seq<T>, key: T -> Key)
    requires forall i, j :: 0 <= i < j < |s| ==> !KeyLe(key(s[j]), key(s[i]))
    ensures Sort(s, key) == s
  {
    if |s| > 0 {
      var tail := s[1..];
      assert forall i, j :: 0 <= i < j < |tail| ==> !KeyLe(key(tail[j]), key(tail[i])) by {
        assert forall i :: 0 <= i < |tail| ==> tail[i] == s[i + 1];
      }
      SortStrict(tail, key);
      assert s == [s[0]] + tail;
      if |tail| > 0 {
        KeyLeTotalPreorder(key(s[0]), key(tail[0]), key(tail[0]));
      }
    }
  }
}
