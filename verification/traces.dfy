/** Sequences of `db.py` calls against one database. Each call is atomic:
    one that raises leaves the database as it was, because it either fails
    before writing or its connection's transaction is rolled back. */
module Traces {
  import opened Wrappers
  import opened Schema
  import Allocator
  import Classes
  import Members
  import Socials
  import Family
  import Skipped

  datatype Op =
    | AddClassOp(name: string, orderIndex: int)
    | RemoveClassOp(name: string)
    | AddMemberOp(className: string, first: string, last: string, nick: string, bio: Option<string>)
    | RemoveMemberOp(nick: string)
    | SetSocialOp(nick: string, platform: string, handle: string)
    | RemoveSocialOp(nick: string, platform: string)
    | SetBigOp(nick: string, big: Option<string>)
    | AddSkippedOp(n: int)
    | RemoveSkippedOp(n: int)

  /** The database after a successful call, or unchanged after a failed one. */
  function Commit(s: Store, r: Result<Store, Error>): Store {
    if r.Ok? then r.value else s
  }

  function Step(s: Store, op: Op): Store {
    match op
    case AddClassOp(name, orderIndex) => Commit(s, Classes.AddClass(s, name, orderIndex))
    case RemoveClassOp(name) => Classes.RemoveClass(s, name)
    case AddMemberOp(className, first, last, nick, bio) => Commit(s, Members.AddMember(s, className, first, last, nick, bio))
    case RemoveMemberOp(nick) => Members.RemoveMember(s, nick)
    case SetSocialOp(nick, platform, handle) => Commit(s, Socials.SetSocial(s, nick, platform, handle))
    case RemoveSocialOp(nick, platform) => Socials.RemoveSocial(s, nick, platform)
    case SetBigOp(nick, big) => Commit(s, Family.SetBig(s, nick, big))
    case AddSkippedOp(n) => Skipped.AddSkipped(s, n)
    case RemoveSkippedOp(n) => Skipped.RemoveSkipped(s, n)
  }

  function Run(s: Store, ops: seq<Op>): Store
    decreases |ops|
  {
    if |ops| == 0 then s else Run(Step(s, ops[0]), ops[1..])
  }

  /** Every call keeps the database valid. */
  lemma StepValid(s: Store, op: Op)
    requires Valid(s)
    ensures Valid(Step(s, op))
  {
    match op
    case AddClassOp(name, orderIndex) =>
      if Classes.AddClass(s, name, orderIndex).Ok? { Classes.AddClassValid(s, name, orderIndex); }
    case RemoveClassOp(name) => Classes.RemoveClassValid(s, name);
    case AddMemberOp(className, first, last, nick, bio) =>
      if Members.AddMember(s, className, first, last, nick, bio).Ok? { Members.AddMemberValid(s, className, first, last, nick, bio); }
    case RemoveMemberOp(nick) => Members.RemoveMemberValid(s, nick);
    case SetSocialOp(nick, platform, handle) =>
      if Socials.SetSocial(s, nick, platform, handle).Ok? { Socials.SetSocialValid(s, nick, platform, handle); }
    case RemoveSocialOp(nick, platform) => Socials.RemoveSocialValid(s, nick, platform);
    case SetBigOp(nick, big) =>
      if Family.SetBig(s, nick, big).Ok? { Family.SetBigValid(s, nick, big); }
    case AddSkippedOp(n) => Skipped.AddSkippedValid(s, n);
    case RemoveSkippedOp(n) => Skipped.AddSkippedValid(s, n);
  }

  /** Every database reachable from a fresh one is valid. */
  lemma {:induction false} RunValid(s: Store, ops: seq<Op>)
    requires Valid(s)
    ensures Valid(Run(s, ops))
    decreases |ops|
  {
    if |ops| > 0 {
      StepValid(s, ops[0]);
      RunValid(Step(s, ops[0]), ops[1..]);
    }
  }

  /** The call deletes no member row. */
  predicate KeepsMembers(op: Op) {
    !op.RemoveClassOp? && !op.RemoveMemberOp?
  }

  /** A call that deletes no member leaves the member table as it was or
      appends one row. */
  lemma StepKeepsMembers(s: Store, op: Op)
    requires KeepsMembers(op)
    ensures |s.members| <= |Step(s, op).members| <= |s.members| + 1
    ensures Step(s, op).members[..|s.members|] == s.members
  {
  }

  /** Without deletions, the rows present before a run are still the
      first rows of the table after it. */
  lemma {:induction false} RunKeepsMembers(s: Store, ops: seq<Op>)
    requires forall i :: 0 <= i < |ops| ==> KeepsMembers(ops[i])
    ensures |s.members| <= |Run(s, ops).members|
    ensures Run(s, ops).members[..|s.members|] == s.members
    decreases |ops|
  {
    if |ops| > 0 {
      var t := Step(s, ops[0]);
      StepKeepsMembers(s, ops[0]);
      RunKeepsMembers(t, ops[1..]);
      var u := Run(s, ops);
      assert u.members[..|t.members|] == t.members;
      assert u.members[..|s.members|] == u.members[..|t.members|][..|s.members|];
    }
  }

  /** Roll numbers handed out over a run without deletions strictly
      increase, all lie above every roll number in use before the run, and
      no two members share one. */
  lemma RollsIncreaseOverRun(s: Store, ops: seq<Op>)
    requires Valid(s)
    requires forall i :: 0 <= i < |ops| ==> KeepsMembers(ops[i])
    ensures var t := Run(s, ops);
            && (forall i :: |s.members| <= i < |t.members| ==> t.members[i].roll > Allocator.LastRoll(s))
            && (forall i, j :: 0 <= i < j < |t.members| ==> t.members[i].roll < t.members[j].roll)
  {
    var t := Run(s, ops);
    RunValid(s, ops);
    RunKeepsMembers(s, ops);
    assert forall i, j :: 0 <= i < j < |t.members| ==> MemberPrecedes(t.members[i], t.members[j]);
    forall i | |s.members| <= i < |t.members| ensures t.members[i].roll > Allocator.LastRoll(s) {
      if |s.members| > 0 {
        var k :| 0 <= k < |s.members| && s.members[k].roll == Allocator.LastRoll(s);
        assert t.members[k] == s.members[k];
      }
    }
  }

  /** Skipping the number just above the last roll number makes the next
      member get the one after it: with rolls up to 3, skipping 4 makes the
      next member 5 (when 5 is not skipped too). */
  lemma SkipThenAdd(s: Store, className: string, first: string, last: string, nick: string, bio: Option<string>)
    requires Allocator.LastRoll(s) + 2 !in s.skipped
    ensures var r := Members.AddMember(Skipped.AddSkipped(s, Allocator.LastRoll(s) + 1), className, first, last, nick, bio);
            r.Ok? ==> r.value.members[|s.members|].roll == Allocator.LastRoll(s) + 2
  {
    var n := Allocator.LastRoll(s) + 1;
    var u := Skipped.AddSkipped(s, n);
    Members.AddMemberUsesAllocator(u, className, first, last, nick, bio);
    NextAfterSkip(s, n);
  }

  /** The allocator after skipping the number just above the last roll. */
  lemma NextAfterSkip(s: Store, n: int)
    requires n == Allocator.LastRoll(s) + 1 && n + 1 !in s.skipped
    ensures Allocator.NextRoll(Skipped.AddSkipped(s, n)) == n + 1
  {
    var u := Skipped.AddSkipped(s, n);
    assert Allocator.LastRoll(u) == Allocator.LastRoll(s);
    Allocator.NextRollUnique(u, n + 1, Allocator.NextRoll(u));
  }
}
