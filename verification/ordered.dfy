/** Finite sets of integers listed in ascending order, as an
    `ORDER BY ... ASC` over a column with distinct values returns them. */
module Ordered {
  /** Strictly ascending. */
  predicate Increasing(xs: seq<int>) {
    forall i, j :: 0 <= i < j < |xs| ==> xs[i] < xs[j]
  }

  /** Some element of a non-empty set. */
  lemma Pick(xs: set<int>) returns (x: int)
    requires xs != {}
    ensures x in xs
  {
    if forall y :: y !in xs {
      assert false;
    }
    x :| x in xs;
  }

  /** Every non-empty finite set of integers has a least element. */
  lemma {:induction false} MinExists(xs: set<int>)
    requires xs != {}
    ensures exists m :: m in xs && forall y :: y in xs ==> m <= y
    decreases |xs|
  {
    var x := Pick(xs);
    var rest := xs - {x};
    assert forall y :: y in xs && y != x ==> y in rest;
    if rest == {} {
      assert forall y :: y in xs ==> x <= y;
    } else {
      MinExists(rest);
      var m :| m in rest && forall y :: y in rest ==> m <= y;
      var least := if x < m then x else m;
      assert least in xs && forall y :: y in xs ==> least <= y;
    }
  }

  /** The elements of a finite set, smallest first. */
  function Ascending(xs: set<int>): (r: seq<int>)
    ensures Increasing(r)
    ensures forall i :: 0 <= i < |r| ==> r[i] in xs
    ensures forall k :: k in xs ==> k in r
    decreases |xs|
  {
    if xs == {} then []
    else
      MinExists(xs);
      var m :| m in xs && forall y :: y in xs ==> m <= y;
      var rest := Ascending(xs - {m});
      assert forall i :: 0 <= i < |rest| ==> m < rest[i];
      PrependIncreasing(m, rest);
      assert forall k :: k in xs ==> k == m || k in xs - {m};
      [m] + rest
  }

  /** A value below every element of an ascending list extends it. */
  lemma PrependIncreasing(m: int, rest: seq<int>)
    requires Increasing(rest)
    requires forall i :: 0 <= i < |rest| ==> m < rest[i]
    ensures Increasing([m] + rest)
  {
    var r := [m] + rest;
    forall i, j | 0 <= i < j < |r| ensures r[i] < r[j] {
      assert r[j] == rest[j - 1];
      if i > 0 {
        assert r[i] == rest[i - 1];
      }
    }
  }

  /** An ascending list is determined by its elements, so two ascending
      sequences with the same elements are equal. */
  lemma {:induction false} AscendingUnique(a: seq<int>, b: seq<int>)
    requires Increasing(a) && Increasing(b)
    requires forall k :: k in a <==> k in b
    ensures a == b
    decreases |a|
  {
    assert |a| > 0 ==> a[0] in a;
    assert |b| > 0 ==> b[0] in b;
    if |a| > 0 && |b| > 0 {
      SameHead(a, b);
      SameTail(a, b);
      AscendingUnique(a[1..], b[1..]);
      assert a == [a[0]] + a[1..];
      assert b == [b[0]] + b[1..];
    }
  }

  /** Two ascending lists of the same elements start alike. */
  lemma SameHead(a: seq<int>, b: seq<int>)
    requires Increasing(a) && Increasing(b) && |a| > 0 && |b| > 0
    requires forall k :: k in a <==> k in b
    ensures a[0] == b[0]
  {
    assert a[0] in a && b[0] in b;
    var i :| 0 <= i < |b| && b[i] == a[0];
    var j :| 0 <= j < |a| && a[j] == b[0];
    assert a[0] <= a[j];
    assert b[0] <= b[i];
  }

  /** ... and, once the shared head is dropped, hold the same elements. */
  lemma SameTail(a: seq<int>, b: seq<int>)
    requires Increasing(a) && Increasing(b) && |a| > 0 && |b| > 0
    requires forall k :: k in a <==> k in b
    requires a[0] == b[0]
    ensures forall k :: k in a[1..] <==> k in b[1..]
  {
    forall k ensures k in a[1..] <==> k in b[1..] {
      if k in a[1..] {
        var p :| 1 <= p < |a| && a[p] == k;
        assert k in b && k != b[0];
      }
      if k in b[1..] {
        var p :| 1 <= p < |b| && b[p] == k;
        assert k in a && k != a[0];
      }
    }
  }

}
