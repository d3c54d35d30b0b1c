/** `_next_roll_number` (db.py:88-103): one past the largest roll number in
    use (1 when there are no members), stepping over skipped numbers. */
module Allocator {
  import opened Wrappers
  import opened Schema
  import Seqs

  /** `SELECT MAX(roll_number) FROM members`, with NULL read as 1. */
  function LastRoll(s: Store): (r: int)
    ensures forall i :: 0 <= i < |s.members| ==> s.members[i].roll <= r
    ensures |s.members| == 0 ==> r == 1
    ensures |s.members| > 0 ==> exists i :: 0 <= i < |s.members| && s.members[i].roll == r
  {
    Seqs.MaxWhere(s.members, (m: Member) => true, (m: Member) => m.roll).GetOr(1)
  }

  /** The skipped numbers at or above `n`; it shrinks as the search moves up. */
  function SkippedFrom(skipped: set<int>, n: int): set<int> {
    set x | x in skipped && x >= n
  }

  /** The smallest number at or above `n` that is not skipped. */
  function FirstUnskipped(skipped: set<int>, n: int): (r: int)
    ensures r >= n && r !in skipped
    ensures forall k :: n <= k < r ==> k in skipped
    decreases |SkippedFrom(skipped, n)|
  {
    if n in skipped then
      assert SkippedFrom(skipped, n + 1) == SkippedFrom(skipped, n) - {n};
      FirstUnskipped(skipped, n + 1)
    else n
  }

  /** `r` is the allocator's answer for `s`: above the last roll number, not
      skipped, and every number strictly between the two is skipped. */
  ghost predicate IsNextRoll(s: Store, r: int) {
    var last := LastRoll(s);
    && r > last
    && r !in s.skipped
    && forall k :: last < k < r ==> k in s.skipped
  }

  /** At most one number is the allocator's answer. */
  lemma NextRollUnique(s: Store, a: int, b: int)
    requires IsNextRoll(s, a) && IsNextRoll(s, b)
    ensures a == b
  {
  }

  /** The roll number the next `add_member` will assign. */
  function NextRoll(s: Store): (r: int)
    ensures IsNextRoll(s, r)
    ensures forall i :: 0 <= i < |s.members| ==> s.members[i].roll < r
  {
    FirstUnskipped(s.skipped, LastRoll(s) + 1)
  }

  /** The roll numbers the rows `ms` carry. */
  function Rolls(ms: seq<Member>): set<int> {
    set m | m in ms :: m.roll
  }

  /** A table has rows exactly when it has roll numbers. */
  lemma RollsEmpty(ms: seq<Member>)
    ensures |ms| == 0 <==> Rolls(ms) == {}
  {
    if |ms| > 0 {
      assert ms[0].roll in Rolls(ms);
    }
  }

  /** The allocator reads only the roll numbers in use and the skipped set:
      which rows carry them, and everything else in the store, is irrelevant. */
  lemma NextRollReads(a: Store, b: Store)
    requires Rolls(a.members) == Rolls(b.members) && a.skipped == b.skipped
    ensures NextRoll(a) == NextRoll(b)
  {
    RollsEmpty(a.members);
    RollsEmpty(b.members);
    LastRollReads(a, b);
    LastRollReads(b, a);
  }

  /** `MAX` over equal sets of roll numbers: one direction. */
  lemma LastRollReads(a: Store, b: Store)
    requires Rolls(a.members) == Rolls(b.members)
    requires |a.members| > 0 <==> |b.members| > 0
    ensures LastRoll(a) <= LastRoll(b)
  {
    if |a.members| > 0 {
      var i :| 0 <= i < |a.members| && a.members[i].roll == LastRoll(a);
      assert a.members[i] in a.members;
      assert LastRoll(a) in Rolls(b.members);
      var m :| m in b.members && m.roll == LastRoll(a);
      var k :| 0 <= k < |b.members| && b.members[k] == m;
    }
  }

  /** `_next_roll_number` step by step: the same loop over the skipped set. */
  method NextRollNumber(s: Store) returns (next: int)
    ensures IsNextRoll(s, next)
    ensures next == NextRoll(s)
  {
    var max := Seqs.MaxWhere(s.members, (m: Member) => true, (m: Member) => m.roll);
    var last := if max.None? then 1 else max.value;
    var skipped := s.skipped;
    next := last + 1;
    while next in skipped
      invariant next > last
      invariant forall k :: last < k < next ==> k in skipped
      decreases |SkippedFrom(skipped, next)|
    {
      assert SkippedFrom(skipped, next + 1) == SkippedFrom(skipped, next) - {next};
      next := next + 1;
    }
    NextRollUnique(s, next, NextRoll(s));
  }

  /** With no members the first roll number handed out is 2, unless 2 is skipped. */
  lemma FirstRollIsTwo(s: Store)
    requires |s.members| == 0
    ensures 2 !in s.skipped ==> NextRoll(s) == 2
    ensures NextRoll(s) == FirstUnskipped(s.skipped, 2)
  {
  }

  /** Skipping or un-skipping a number no greater than the last roll number
      does not change what is allocated next: the search starts above it. */
  lemma {:induction false} SkipBelowLastHasNoEffect(s: Store, k: int)
    requires k <= LastRoll(s)
    ensures NextRoll(s.(skipped := s.skipped + {k})) == NextRoll(s)
    ensures NextRoll(s.(skipped := s.skipped - {k})) == NextRoll(s)
  {
    var added := s.(skipped := s.skipped + {k});
    var removed := s.(skipped := s.skipped - {k});
    assert LastRoll(added) == LastRoll(s) && LastRoll(removed) == LastRoll(s);
    NextRollUnique(added, NextRoll(added), NextRoll(s));
    NextRollUnique(removed, NextRoll(removed), NextRoll(s));
  }
}
