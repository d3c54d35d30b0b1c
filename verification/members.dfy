/** `add_member` and `remove_member` (db.py:143-182). */
module Members {
  import opened Wrappers
  import opened Schema
  import Text
  import Seqs
  import Allocator
  import Cascade

  /** `j` is one more than the largest join order in class `cid`, or 1 when
      the class has no members. */
  ghost predicate IsNextJoinOrder(s: Store, cid: Id, j: int) {
    && (forall i :: 0 <= i < |s.members| && s.members[i].classId == cid ==> s.members[i].joinOrder < j)
    && ((forall i :: 0 <= i < |s.members| ==> s.members[i].classId != cid) ==> j == 1)
    && ((exists i :: 0 <= i < |s.members| && s.members[i].classId == cid) ==>
          exists i :: 0 <= i < |s.members| && s.members[i].classId == cid && s.members[i].joinOrder == j - 1)
  }

  /** `SELECT COALESCE(MAX(join_order), 0) + 1 FROM members WHERE class_id=?` */
  function NextJoinOrder(s: Store, cid: Id): (j: int)
    ensures IsNextJoinOrder(s, cid, j)
  {
    Seqs.MaxWhere(s.members, (m: Member) => m.classId == cid, (m: Member) => m.joinOrder).GetOr(0) + 1
  }

  /** At most one number is the next join order of a class. */
  lemma NextJoinOrderUnique(s: Store, cid: Id, a: int, b: int)
    requires IsNextJoinOrder(s, cid, a) && IsNextJoinOrder(s, cid, b)
    ensures a == b
  {
    if exists i :: 0 <= i < |s.members| && s.members[i].classId == cid {
      var i :| 0 <= i < |s.members| && s.members[i].classId == cid && s.members[i].joinOrder == a - 1;
      var j :| 0 <= j < |s.members| && s.members[j].classId == cid && s.members[j].joinOrder == b - 1;
    }
  }

  /** Some member of class `cid` already has exactly this nickname. */
  predicate NickTaken(s: Store, cid: Id, nick: string) {
    exists i :: 0 <= i < |s.members| && s.members[i].classId == cid && s.members[i].nick == nick
  }

  /** `m` is the row `add_member(className, first, last, nick, bio)` inserts into `s`. */
  ghost predicate IsNewMember(s: Store, m: Member, className: string, first: string, last: string, nick: string, bio: Option<string>) {
    && ClassIdByName(s, className) == Some(m.classId)
    && m.id == s.nextMemberId
    && m.first == Text.Strip(first)
    && m.last == Text.Strip(last)
    && m.nick == Text.Strip(nick)
    && m.fullName == m.first + " " + m.last
    && m.honorific == DefaultHonorific
    && m.bio == bio
    && IsNextJoinOrder(s, m.classId, m.joinOrder)
    && Allocator.IsNextRoll(s, m.roll)
  }

  /** `add_member`: fails when the class does not exist (`ValueError`) or
      already has a member with the trimmed nickname (`UNIQUE(class_id,
      nickname)`); otherwise appends one row and changes nothing else. */
  function AddMember(s: Store, className: string, first: string, last: string, nick: string, bio: Option<string>): (r: Result<Store, Error>)
    ensures r == Err(ClassNotFound) <==> ClassIdByName(s, className).None?
    ensures r == Err(DuplicateNickname) <==> ClassIdByName(s, className).Some? && NickTaken(s, ClassIdByName(s, className).value, Text.Strip(nick))
    ensures r.Err? ==> r.error == ClassNotFound || r.error == DuplicateNickname
    ensures r.Ok? ==> |r.value.members| == |s.members| + 1 && r.value.members[..|s.members|] == s.members
    ensures r.Ok? ==> IsNewMember(s, r.value.members[|s.members|], className, first, last, nick, bio)
    ensures r.Ok? ==> forall i :: 0 <= i < |s.members| ==> s.members[i].roll < r.value.members[|s.members|].roll
    ensures r.Ok? ==> r.value == s.(members := r.value.members, nextMemberId := s.nextMemberId + 1)
  {
    match ClassIdByName(s, className)
    case None => Err(ClassNotFound)
    case Some(cid) =>
      var f := Text.Strip(first);
      var l := Text.Strip(last);
      var n := Text.Strip(nick);
      if NickTaken(s, cid, n) then Err(DuplicateNickname)
      else
        var m := Member(s.nextMemberId, cid, f, l, n, f + " " + l, NextJoinOrder(s, cid), Allocator.NextRoll(s), DefaultHonorific, bio);
        assert (s.members + [m])[..|s.members|] == s.members;
        Ok(s.(members := s.members + [m], nextMemberId := s.nextMemberId + 1))
  }

  /** The new row's numbers are the allocator's answer and the class's
      next join order. */
  lemma AddMemberUsesAllocator(s: Store, className: string, first: string, last: string, nick: string, bio: Option<string>)
    ensures AddMember(s, className, first, last, nick, bio).Ok? ==>
            var m := AddMember(s, className, first, last, nick, bio).value.members[|s.members|];
            m.roll == Allocator.NextRoll(s) && m.joinOrder == NextJoinOrder(s, m.classId)
  {
    if AddMember(s, className, first, last, nick, bio).Ok? {
      var m := AddMember(s, className, first, last, nick, bio).value.members[|s.members|];
      Allocator.NextRollUnique(s, m.roll, Allocator.NextRoll(s));
      NextJoinOrderUnique(s, m.classId, m.joinOrder, NextJoinOrder(s, m.classId));
    }
  }

  /** `add_member` keeps the store valid: the new row has the largest id and
      roll number, the largest join order in its class, and a nickname not
      yet used in that class. */
  lemma AddMemberValid(s: Store, className: string, first: string, last: string, nick: string, bio: Option<string>)
    requires Valid(s)
    ensures AddMember(s, className, first, last, nick, bio).Ok? ==>
            Valid(AddMember(s, className, first, last, nick, bio).value)
  {
    if AddMember(s, className, first, last, nick, bio).Ok? {
      var r := AddMember(s, className, first, last, nick, bio).value;
      var m := r.members[|s.members|];
      assert r.members == s.members + [m] by {
        assert r.members == r.members[..|s.members|] + [m];
      }
      assert !NickTaken(s, m.classId, m.nick);
      NewMemberFits(s, m, className, first, last, nick, bio);
      AppendValid(s, m);
      assert r == s.(members := s.members + [m], nextMemberId := s.nextMemberId + 1);
    }
  }

  /** The row `add_member` builds fits after every existing row. */
  lemma NewMemberFits(s: Store, m: Member, className: string, first: string, last: string, nick: string, bio: Option<string>)
    requires Valid(s)
    ensures IsNewMember(s, m, className, first, last, nick, bio) ==>
      && m.classId in ClassIds(s)
      && m.roll >= 2 && m.joinOrder >= 1
      && (forall i :: 0 <= i < |s.members| ==> s.members[i].roll < m.roll)
      && (forall i :: 0 <= i < |s.members| && s.members[i].classId == m.classId ==> s.members[i].joinOrder < m.joinOrder)
  {
    if IsNewMember(s, m, className, first, last, nick, bio) {
      NamedClassExists(s, className);
      RollAtLeastTwo(s, m.roll);
      JoinOrderPositive(s, m.classId, m.joinOrder);
    }
  }

  /** A class found by name is one of the class rows. */
  lemma NamedClassExists(s: Store, name: string)
    ensures ClassIdByName(s, name).Some? ==> ClassIdByName(s, name).value in ClassIds(s)
  {
    if ClassIdByName(s, name).Some? {
      var i :| 0 <= i < |s.classes| && s.classes[i].name == name && s.classes[i].id == ClassIdByName(s, name).value;
      assert s.classes[i] in s.classes;
    }
  }

  /** Roll numbers start at 2, so the next one is at least 2. */
  lemma RollAtLeastTwo(s: Store, r: int)
    requires forall m :: m in s.members ==> m.roll >= 2
    requires Allocator.IsNextRoll(s, r)
    ensures r >= 2
  {
    if |s.members| > 0 {
      var i :| 0 <= i < |s.members| && s.members[i].roll == Allocator.LastRoll(s);
      assert s.members[i] in s.members;
    }
  }

  /** Join orders start at 1, so the next one is at least 1. */
  lemma JoinOrderPositive(s: Store, cid: Id, j: int)
    requires forall m :: m in s.members ==> m.joinOrder >= 1
    requires IsNextJoinOrder(s, cid, j)
    ensures j >= 1
  {
    if exists i :: 0 <= i < |s.members| && s.members[i].classId == cid {
      var i :| 0 <= i < |s.members| && s.members[i].classId == cid && s.members[i].joinOrder == j - 1;
      assert s.members[i] in s.members;
    }
  }

  /** Appending a row that fits after every existing one keeps the store valid. */
  lemma AppendValid(s: Store, m: Member)
    requires Valid(s)
    requires m.id == s.nextMemberId && m.classId in ClassIds(s)
    requires m.roll >= 2 && m.joinOrder >= 1
    requires forall i :: 0 <= i < |s.members| ==> s.members[i].roll < m.roll
    requires forall i :: 0 <= i < |s.members| && s.members[i].classId == m.classId ==> s.members[i].joinOrder < m.joinOrder
    requires !NickTaken(s, m.classId, m.nick)
    ensures Valid(s.(members := s.members + [m], nextMemberId := s.nextMemberId + 1))
  {
    var r := s.(members := s.members + [m], nextMemberId := s.nextMemberId + 1);
    assert ClassIds(r) == ClassIds(s);
    assert MemberIds(r) == MemberIds(s) + {m.id};
    assert forall i :: 0 <= i < |s.members| ==> MemberPrecedes(s.members[i], m);
    Seqs.PairwiseAppend(s.members, m, MemberPrecedes);
  }

  /** `remove_member`: a no-op when no nickname matches ignoring case;
      otherwise the matched member, all of its social handles and every
      family edge with it as little or as big are deleted. */
  function RemoveMember(s: Store, nick: string): (r: Store)
    ensures MemberIdByNick(s, nick).None? ==> r == s
    ensures MemberIdByNick(s, nick).Some? ==>
      var mid := MemberIdByNick(s, nick).value;
      && r.classes == s.classes && r.skipped == s.skipped
      && r.nextClassId == s.nextClassId && r.nextMemberId == s.nextMemberId
      && (forall i :: 0 <= i < |r.members| ==> r.members[i] in s.members && r.members[i].id != mid)
      && (forall i :: 0 <= i < |s.members| && s.members[i].id != mid ==> s.members[i] in r.members)
      && (forall k :: k in r.socials <==> k in s.socials && k.0 != mid)
      && (forall k :: k in r.socials ==> r.socials[k] == s.socials[k])
      && (forall k :: k in r.family <==> k in s.family && k != mid && s.family[k] != Some(mid))
      && (forall k :: k in r.family ==> r.family[k] == s.family[k])
  {
    match MemberIdByNick(s, nick)
    case None => s
    case Some(mid) =>
      Cascade.PurgeOne(s, mid);
      Cascade.Purge(s, {mid})
  }

  lemma RemoveMemberValid(s: Store, nick: string)
    requires Valid(s)
    ensures Valid(RemoveMember(s, nick))
  {
    match MemberIdByNick(s, nick)
    case None =>
    case Some(mid) => Cascade.PurgeValid(s, {mid});
  }

  /** After `remove_member`, a former little of the removed member has no
      big: its edge row is gone. */
  lemma RemoveMemberOrphansLittles(s: Store, nick: string, little: Id)
    requires MemberIdByNick(s, nick).Some?
    requires little in s.family && s.family[little] == MemberIdByNick(s, nick)
    ensures little !in RemoveMember(s, nick).family
  {
  }

  /** Removing the newest row by a nickname that resolves to it leaves the
      older rows exactly as they were. */
  lemma RemoveNewestRow(t: Store, nick: string)
    requires |t.members| > 0
    requires NickIndex(t, nick) == Some(|t.members| - 1)
    requires forall i :: 0 <= i < |t.members| - 1 ==> t.members[i].id != t.members[|t.members| - 1].id
    ensures RemoveMember(t, nick).members == t.members[..|t.members| - 1]
    ensures RemoveMember(t, nick).skipped == t.skipped
  {
    var n := |t.members| - 1;
    var m := t.members[n];
    var pre := t.members[..n];
    assert t.members == pre + [m];
    Seqs.FilterAppend(pre, [m], Cascade.Survivor({m.id}));
    Seqs.FilterAll(pre, Cascade.Survivor({m.id}));
    assert Seqs.Filter([m], Cascade.Survivor({m.id})) == [];
  }

  /** So after removing the newest row the allocator answers as it did
      before that row existed. */
  lemma RemoveNewestNextRoll(t: Store, nick: string)
    requires |t.members| > 0
    requires NickIndex(t, nick) == Some(|t.members| - 1)
    requires forall i :: 0 <= i < |t.members| - 1 ==> t.members[i].id != t.members[|t.members| - 1].id
    ensures Allocator.NextRoll(RemoveMember(t, nick)) == Allocator.NextRoll(t.(members := t.members[..|t.members| - 1]))
  {
    RemoveNewestRow(t, nick);
    var u := RemoveMember(t, nick);
    Allocator.NextRollReads(u, t.(members := u.members));
  }

  /** Roll numbers are not reserved for life: when the newest member got
      its roll number from the allocator, removing that member hands the
      same number to the next `add_member`, because the allocator only looks
      at the members still present. */
  lemma RemovingNewestFreesItsRoll(t: Store, nick: string)
    requires Valid(t) && |t.members| > 0
    requires NickIndex(t, nick) == Some(|t.members| - 1)
    ensures var n := |t.members| - 1;
            t.members[n].roll == Allocator.NextRoll(t.(members := t.members[..n])) ==>
            Allocator.NextRoll(RemoveMember(t, nick)) == t.members[n].roll
  {
    MemberIdsDistinct(t);
    RemoveNewestNextRoll(t, nick);
  }
}
