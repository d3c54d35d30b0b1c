/** The cascading delete shared by `remove_member` (db.py:174-182) and
    `remove_class` (db.py:113-135): the members' rows, their social handles,
    and every family edge with one of them on either end. */
module Cascade {
  import opened Wrappers
  import opened Schema
  import Seqs

  /** The edge's big is one of the removed members. */
  predicate PointsInto(big: Option<Id>, gone: set<Id>) {
    big.Some? && big.value in gone
  }

  /** The row filter of `DELETE FROM members WHERE id IN gone`. */
  function Survivor(gone: set<Id>): Member -> bool {
    (m: Member) => m.id !in gone
  }

  function Purge(s: Store, gone: set<Id>): (r: Store)
    ensures r.classes == s.classes && r.skipped == s.skipped
    ensures r.nextClassId == s.nextClassId && r.nextMemberId == s.nextMemberId
    ensures forall i :: 0 <= i < |r.members| ==> r.members[i] in s.members && r.members[i].id !in gone
    ensures forall i :: 0 <= i < |s.members| && s.members[i].id !in gone ==> s.members[i] in r.members
    ensures forall k :: k in r.socials <==> k in s.socials && k.0 !in gone
    ensures forall k :: k in r.socials ==> r.socials[k] == s.socials[k]
    ensures forall k :: k in r.family <==> k in s.family && k !in gone && !PointsInto(s.family[k], gone)
    ensures forall k :: k in r.family ==> r.family[k] == s.family[k]
  {
    Store(
      s.classes,
      Seqs.Filter(s.members, Survivor(gone)),
      map k | k in s.socials && k.0 !in gone :: s.socials[k],
      map k | k in s.family && k !in gone && !PointsInto(s.family[k], gone) :: s.family[k],
      s.skipped,
      s.nextClassId,
      s.nextMemberId)
  }

  /** Removing a single member: its row, its handles, and the edges at
      either end of it. */
  lemma PurgeOne(s: Store, mid: Id)
    ensures var r := Purge(s, {mid});
      && (forall i :: 0 <= i < |r.members| ==> r.members[i] in s.members && r.members[i].id != mid)
      && (forall i :: 0 <= i < |s.members| && s.members[i].id != mid ==> s.members[i] in r.members)
      && (forall k :: k in r.socials <==> k in s.socials && k.0 != mid)
      && (forall k :: k in r.family <==> k in s.family && k != mid && s.family[k] != Some(mid))
  {
    var r := Purge(s, {mid});
    forall k | k in s.family ensures PointsInto(s.family[k], {mid}) <==> s.family[k] == Some(mid) {
    }
  }

  /** The surviving member ids are the old ones minus the removed ones. */
  lemma PurgeMemberIds(s: Store, gone: set<Id>)
    ensures MemberIds(Purge(s, gone)) == MemberIds(s) - gone
  {
    var r := Purge(s, gone);
    forall id | id in MemberIds(s) - gone ensures id in MemberIds(r) {
      var m :| m in s.members && m.id == id;
      var i :| 0 <= i < |s.members| && s.members[i] == m;
    }
  }

  /** Removing nobody removes nothing. */
  lemma PurgeNothing(s: Store)
    ensures Purge(s, {}) == s
  {
    Seqs.FilterAll(s.members, Survivor({}));
    var r := Purge(s, {});
    assert r.socials == s.socials;
    assert r.family == s.family;
  }

  /** A cascading delete leaves a valid store valid: no handle or edge is
      left pointing at a removed member. */
  lemma PurgeValid(s: Store, gone: set<Id>)
    requires Valid(s)
    ensures Valid(Purge(s, gone))
  {
    var r := Purge(s, gone);
    Seqs.FilterPairwise(s.members, Survivor(gone), MemberPrecedes);
    PurgeMemberIds(s, gone);
    assert ClassIds(r) == ClassIds(s);
  }
}
