/** `add_skipped_number`, `remove_skipped_number` and `get_skipped_numbers`
    (db.py:352-365): the set of roll numbers the allocator steps over. */
module Skipped {
  import opened Schema
  import Allocator
  import Ordered

  /** `INSERT OR IGNORE`: `n` becomes skipped, no other number changes
      status and no other table is touched. */
  function AddSkipped(s: Store, n: int): (r: Store)
    ensures n in r.skipped
    ensures forall k :: k != n ==> (k in r.skipped <==> k in s.skipped)
    ensures r == s.(skipped := r.skipped)
  {
    s.(skipped := s.skipped + {n})
  }

  /** `DELETE ... WHERE roll_number = ?`: `n` is no longer skipped, no other
      number changes status. */
  function RemoveSkipped(s: Store, n: int): (r: Store)
    ensures n !in r.skipped
    ensures forall k :: k != n ==> (k in r.skipped <==> k in s.skipped)
    ensures r == s.(skipped := r.skipped)
  {
    s.(skipped := s.skipped - {n})
  }

  /** `get_skipped_numbers`: `ORDER BY roll_number ASC`, each number once. */
  function GetSkippedNumbers(s: Store): (r: seq<int>)
    ensures Ordered.Increasing(r)
    ensures forall k :: k in r <==> k in s.skipped
  {
    Ordered.Ascending(s.skipped)
  }

  /** The listing is the only ascending sequence of exactly the skipped
      numbers, so callers may rely on it element by element. */
  lemma SkippedListingUnique(s: Store, xs: seq<int>)
    requires Ordered.Increasing(xs)
    requires forall k :: k in xs <==> k in s.skipped
    ensures xs == GetSkippedNumbers(s)
  {
    Ordered.AscendingUnique(xs, GetSkippedNumbers(s));
  }

  /** `INSERT OR IGNORE` makes adding a skipped number idempotent. */
  lemma AddSkippedIdempotent(s: Store, n: int)
    ensures AddSkipped(AddSkipped(s, n), n) == AddSkipped(s, n)
  {
  }

  /** Un-skipping a number that was just skipped restores the store, when
      it was not skipped before. */
  lemma RemoveUndoesAdd(s: Store, n: int)
    requires n !in s.skipped
    ensures RemoveSkipped(AddSkipped(s, n), n) == s
  {
    assert s.skipped + {n} - {n} == s.skipped;
  }

  /** Skipping the number the allocator would hand out next moves it to
      the next free number above. */
  lemma SkippingNextMovesPast(s: Store)
    ensures var n := Allocator.NextRoll(s);
            Allocator.NextRoll(AddSkipped(s, n)) == Allocator.FirstUnskipped(s.skipped + {n}, n + 1)
    ensures Allocator.NextRoll(AddSkipped(s, Allocator.NextRoll(s))) > Allocator.NextRoll(s)
  {
    var n := Allocator.NextRoll(s);
    var t := AddSkipped(s, n);
    var r := Allocator.FirstUnskipped(t.skipped, n + 1);
    assert Allocator.LastRoll(t) == Allocator.LastRoll(s);
    assert Allocator.IsNextRoll(t, r);
    Allocator.NextRollUnique(t, r, Allocator.NextRoll(t));
  }

  /** Skipped numbers are never handed out. */
  lemma SkippedNeverAllocated(s: Store, n: int)
    requires n in s.skipped
    ensures Allocator.NextRoll(s) != n
  {
  }

  lemma AddSkippedValid(s: Store, n: int)
    requires Valid(s)
    ensures Valid(AddSkipped(s, n)) && Valid(RemoveSkipped(s, n))
  {
  }
}
