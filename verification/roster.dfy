/** `get_roster` and `get_class_roster` (db.py:185-228): the members of
    every class, or of one class, in display order. */
module Roster {
  import opened Wrappers
  import opened Schema
  import Seqs
  import Sorting
  import Classes

  /** A row of `classes c LEFT JOIN members m ON m.class_id = c.id`. */
  datatype Joined = Joined(cls: ClassRow, member: Option<Member>)

  /** A row `get_roster` returns; the member columns are NULL for a class
      without members. */
  datatype RosterRow = RosterRow(
    className: string,
    first: Option<string>,
    nick: Option<string>,
    last: Option<string>,
    roll: Option<int>,
    honorific: Option<string>)

  /** A row `get_class_roster` returns. */
  datatype ClassRosterRow = ClassRosterRow(first: string, nick: string, last: string, roll: int, honorific: string)

  /** The row filter `m.class_id = c.id`. */
  function InClass(cid: Id): Member -> bool {
    (m: Member) => m.classId == cid
  }

  /** Class `c` paired with each of `ms`. */
  function Pair(c: ClassRow, ms: seq<Member>): (r: seq<Joined>)
    ensures |r| == |ms|
    ensures forall i :: 0 <= i < |r| ==> r[i] == Joined(c, Some(ms[i]))
  {
    if |ms| == 0 then [] else [Joined(c, Some(ms[0]))] + Pair(c, ms[1..])
  }

  /** A joined row holds: its member belongs to its class, and a
      memberless row stands for a class nobody belongs to. */
  ghost predicate RowOk(s: Store, j: Joined) {
    && (j.member.Some? ==> j.member.value in s.members && j.member.value.classId == j.cls.id)
    && (j.member.None? ==> forall k :: 0 <= k < |s.members| ==> s.members[k].classId != j.cls.id)
  }

  /** What one class contributes to the left join: a row per member of
      the class, or a single row with no member when it has none. */
  function ClassRows(s: Store, c: ClassRow): (r: seq<Joined>)
    ensures forall i :: 0 <= i < |r| ==> r[i].cls == c && RowOk(s, r[i])
    ensures (forall k :: 0 <= k < |s.members| ==> s.members[k].classId != c.id) ==> r == [Joined(c, None)]
    ensures Seqs.NoDuplicates(s.members) ==> Seqs.NoDuplicates(r)
  {
    var ms := Seqs.Filter(s.members, InClass(c.id));
    Seqs.FilterNoDuplicates(s.members, InClass(c.id));
    if |ms| == 0 then [Joined(c, None)] else Pair(c, ms)
  }

  /** A class contributes a row for each of its members, and a memberless
      row when it has none. */
  lemma ClassRowsComplete(s: Store, c: ClassRow)
    ensures forall k :: 0 <= k < |s.members| && s.members[k].classId == c.id ==> Joined(c, Some(s.members[k])) in ClassRows(s, c)
    ensures (forall k :: 0 <= k < |s.members| ==> s.members[k].classId != c.id) ==> Joined(c, None) in ClassRows(s, c)
  {
    var ms := Seqs.Filter(s.members, InClass(c.id));
    var r := ClassRows(s, c);
    forall k | 0 <= k < |s.members| && s.members[k].classId == c.id
      ensures Joined(c, Some(s.members[k])) in r
    {
      assert InClass(c.id)(s.members[k]);
      var j :| 0 <= j < |ms| && ms[j] == s.members[k];
      assert r[j] == Joined(c, Some(s.members[k]));
    }
  }

  /** The rows of the left join of the classes `cs` with the members of
      `s`, class by class. */
  function LeftJoin(s: Store, cs: seq<ClassRow>): (r: seq<Joined>)
    ensures forall i :: 0 <= i < |r| ==> r[i].cls in cs && RowOk(s, r[i])
    ensures Seqs.NoDuplicates(cs) && Seqs.NoDuplicates(s.members) ==> Seqs.NoDuplicates(r)
  {
    if |cs| == 0 then []
    else
      var head := ClassRows(s, cs[0]);
      var rest := LeftJoin(s, cs[1..]);
      var r := head + rest;
      forall i | 0 <= i < |r| ensures r[i].cls in cs && RowOk(s, r[i]) {
        if i < |head| {
          assert r[i] == head[i];
        } else {
          assert r[i] == rest[i - |head|] && rest[i - |head|].cls in cs[1..];
        }
      }
      AppendDistinctClasses(head, rest, cs);
      r
  }

  /** The rows of the first class and those of later, different classes
      never coincide. */
  lemma AppendDistinctClasses(head: seq<Joined>, rest: seq<Joined>, cs: seq<ClassRow>)
    requires |cs| > 0
    requires forall i :: 0 <= i < |head| ==> head[i].cls == cs[0]
    requires forall i :: 0 <= i < |rest| ==> rest[i].cls in cs[1..]
    ensures Seqs.NoDuplicates(cs) ==> Seqs.NoDuplicates(cs[1..])
    ensures Seqs.NoDuplicates(cs) && Seqs.NoDuplicates(head) && Seqs.NoDuplicates(rest) ==> Seqs.NoDuplicates(head + rest)
  {
    if !Seqs.NoDuplicates(cs) {
      return;
    }
    assert Seqs.NoDuplicates(cs[1..]) by {
      forall i, j | 0 <= i < j < |cs[1..]| ensures cs[1..][i] != cs[1..][j] {
        assert cs[1..][i] == cs[i + 1] && cs[1..][j] == cs[j + 1];
      }
    }
    assert cs[0] !in cs[1..] by {
      forall k | 0 <= k < |cs[1..]| ensures cs[1..][k] != cs[0] {
        assert cs[1..][k] == cs[k + 1];
      }
    }
    if Seqs.NoDuplicates(head) && Seqs.NoDuplicates(rest) {
      var r := head + rest;
      forall i, j | 0 <= i < j < |r| ensures r[i] != r[j] {
        if j < |head| {
          assert r[i] == head[i] && r[j] == head[j];
        } else if i >= |head| {
          assert r[i] == rest[i - |head|] && r[j] == rest[j - |head|];
        } else {
          assert r[i].cls == cs[0] && r[j] == rest[j - |head|];
        }
      }
    }
  }

  /** In a valid store the left join yields every row once. */
  lemma LeftJoinDistinct(s: Store)
    requires Valid(s)
    ensures Seqs.NoDuplicates(LeftJoin(s, s.classes))
  {
    MemberIdsDistinct(s);
    assert Seqs.NoDuplicates(s.classes) by {
      forall i, j | 0 <= i < j < |s.classes| ensures s.classes[i] != s.classes[j] {
        assert ClassPrecedes(s.classes[i], s.classes[j]);
      }
    }
  }

  /** Every row the join should produce is there: one per (class, member
      of that class), and a memberless one for each class nobody belongs to. */
  lemma {:induction false} LeftJoinComplete(s: Store, cs: seq<ClassRow>, c: ClassRow)
    requires c in cs
    ensures forall k :: 0 <= k < |s.members| && s.members[k].classId == c.id ==> Joined(c, Some(s.members[k])) in LeftJoin(s, cs)
    ensures (forall k :: 0 <= k < |s.members| ==> s.members[k].classId != c.id) ==> Joined(c, None) in LeftJoin(s, cs)
  {
    var head := ClassRows(s, cs[0]);
    var r := LeftJoin(s, cs);
    assert r == head + LeftJoin(s, cs[1..]);
    if c == cs[0] {
      ClassRowsComplete(s, c);
    } else {
      LeftJoinComplete(s, cs[1..], c);
    }
  }

  /** The `ORDER BY` key `get_roster` uses: `c.order_index`, then
      `m.join_order` (NULL first). */
  function AsWrittenKey(j: Joined): Sorting.Key {
    Sorting.Key(j.cls.orderIndex, 0, if j.member.Some? then Some(j.member.value.joinOrder) else None)
  }

  /** The same key with the class id inserted before the join order:
      `ORDER BY c.order_index, c.id, m.join_order`. */
  function GroupedKey(j: Joined): Sorting.Key {
    Sorting.Key(j.cls.orderIndex, j.cls.id, if j.member.Some? then Some(j.member.value.joinOrder) else None)
  }

  /** The selected columns of one joined row: the member's columns, or
      NULL in all of them for a class without members. */
  function ProjectRow(j: Joined): (r: RosterRow)
    ensures r.className == j.cls.name
    ensures j.member.None? ==> r == RosterRow(j.cls.name, None, None, None, None, None)
    ensures j.member.Some? ==>
              var m := j.member.value;
              r == RosterRow(j.cls.name, Some(m.first), Some(m.nick), Some(m.last), Some(m.roll), Some(m.honorific))
  {
    match j.member
    case None => RosterRow(j.cls.name, None, None, None, None, None)
    case Some(m) => RosterRow(j.cls.name, Some(m.first), Some(m.nick), Some(m.last), Some(m.roll), Some(m.honorific))
  }

  /** The selected columns of each joined row. */
  function Project(js: seq<Joined>): (r: seq<RosterRow>)
    ensures |r| == |js|
    ensures forall i :: 0 <= i < |r| ==> r[i].className == js[i].cls.name
    ensures forall i :: 0 <= i < |r| ==> (r[i].first.None? <==> js[i].member.None?)
    ensures forall i :: 0 <= i < |r| && js[i].member.None? ==> r[i] == RosterRow(js[i].cls.name, None, None, None, None, None)
    ensures forall i :: 0 <= i < |r| && js[i].member.Some? ==>
              var m := js[i].member.value;
              r[i] == RosterRow(js[i].cls.name, Some(m.first), Some(m.nick), Some(m.last), Some(m.roll), Some(m.honorific))
  {
    seq(|js|, i requires 0 <= i < |js| => ProjectRow(js[i]))
  }

  /** Every class's rows are consecutive: what the display code needs,
      since it starts a new section whenever the class name changes. */
  predicate Grouped(rows: seq<RosterRow>) {
    forall i, j, k :: 0 <= i < j < k < |rows| && rows[i].className == rows[k].className ==>
      rows[j].className == rows[i].className
  }

  /** The joined rows in the order `get_roster`'s query returns them: sorted
      by class order and then join order, and exactly the rows of the join. */
  function AsWrittenOrder(s: Store): (r: seq<Joined>)
    ensures Sorting.SortedBy(r, AsWrittenKey)
    ensures multiset(r) == multiset(LeftJoin(s, s.classes))
  {
    Sorting.Sort(LeftJoin(s, s.classes), AsWrittenKey)
  }

  /** `get_roster` as written. */
  function GetRosterAsWritten(s: Store): seq<RosterRow> {
    Project(AsWrittenOrder(s))
  }

  /** The joined rows sorted with the class id as a tie-break between
      classes of equal order index. */
  function GroupedOrder(s: Store): (r: seq<Joined>)
    ensures Sorting.SortedBy(r, GroupedKey)
    ensures multiset(r) == multiset(LeftJoin(s, s.classes))
  {
    Sorting.Sort(LeftJoin(s, s.classes), GroupedKey)
  }

  /** `get_roster` with its rows grouped by class, as its docstring and
      its caller expect. */
  function GetRosterByClass(s: Store): seq<RosterRow> {
    Project(GroupedOrder(s))
  }

  /** The corrected roster keeps every class's rows together. */
  lemma GetRosterGrouped(s: Store)
    requires Valid(s)
    ensures Grouped(GetRosterByClass(s))
  {
    var js := GroupedOrder(s);
    var rows := GetRosterByClass(s);
    var all := LeftJoin(s, s.classes);
    assert forall x :: 0 <= x < |js| ==> js[x].cls in s.classes by {
      forall x | 0 <= x < |js| ensures js[x].cls in s.classes {
        assert js[x] in multiset(js);
        assert js[x] in all;
      }
    }
    forall i, j, k | 0 <= i < j < k < |rows| && rows[i].className == rows[k].className
      ensures rows[j].className == rows[i].className
    {
      ClassIdentified(s, js[i].cls, js[k].cls);
      assert Sorting.KeyLe(GroupedKey(js[i]), GroupedKey(js[j]));
      assert Sorting.KeyLe(GroupedKey(js[j]), GroupedKey(js[k]));
      ClassIdentified(s, js[i].cls, js[j].cls);
    }
  }

  /** Two classes sharing order index 0, each with members of join order
      1 and 2. */
  const ClassA := ClassRow(1, "A", 0)
  const ClassB := ClassRow(2, "B", 0)
  const A1 := Member(1, 1, "Al", "Ames", "a1", "Al Ames", 1, 2, DefaultHonorific, None)
  const A2 := Member(2, 1, "Ann", "Ames", "a2", "Ann Ames", 2, 3, DefaultHonorific, None)
  const B1 := Member(3, 2, "Bo", "Bell", "b1", "Bo Bell", 1, 4, DefaultHonorific, None)
  const B2 := Member(4, 2, "Bea", "Bell", "b2", "Bea Bell", 2, 5, DefaultHonorific, None)
  const TiedClasses := Store([ClassA, ClassB], [A1, A2, B1, B2], map[], map[], {}, 3, 5)

  lemma TiedClassesValid()
    ensures Valid(TiedClasses)
  {
    var s := TiedClasses;
    assert Seqs.Pairwise(s.members, MemberPrecedes) by {
      forall i, j | 0 <= i < j < |s.members| ensures MemberPrecedes(s.members[i], s.members[j]) {
      }
    }
    assert ClassIds(s) == {1, 2} by {
      assert ClassA in s.classes && ClassB in s.classes;
    }
  }

  /** The join of the tied store holds each member with its class. */
  lemma TiedRowsPresent()
    ensures Joined(ClassA, Some(A1)) in LeftJoin(TiedClasses, TiedClasses.classes)
    ensures Joined(ClassA, Some(A2)) in LeftJoin(TiedClasses, TiedClasses.classes)
    ensures Joined(ClassB, Some(B1)) in LeftJoin(TiedClasses, TiedClasses.classes)
    ensures Joined(ClassB, Some(B2)) in LeftJoin(TiedClasses, TiedClasses.classes)
  {
    var s := TiedClasses;
    assert s.members[0] == A1 && s.members[1] == A2 && s.members[2] == B1 && s.members[3] == B2;
    LeftJoinComplete(s, s.classes, ClassA);
    LeftJoinComplete(s, s.classes, ClassB);
  }

  /** With tied order indexes, EVERY order the as-written query may return
      splits a class: the two join-order-1 rows come before both
      join-order-2 rows, so one class's rows surround the other's. */
  lemma TiedClassesInterleave(r: seq<Joined>)
    requires Sorting.SortedBy(r, AsWrittenKey)
    requires multiset(r) == multiset(LeftJoin(TiedClasses, TiedClasses.classes))
    ensures !Grouped(Project(r))
  {
    TiedRowsPresent();
    var a1, a2, b1, b2 := Joined(ClassA, Some(A1)), Joined(ClassA, Some(A2)), Joined(ClassB, Some(B1)), Joined(ClassB, Some(B2));
    assert a1 in multiset(r) && a2 in multiset(r) && b1 in multiset(r) && b2 in multiset(r);
    assert ClassA.name != ClassB.name by {
      assert ClassA.name[0] != ClassB.name[0];
    }
    Crossed(r, a1, a2, b1, b2);
  }

  /** Two classes whose first rows both sort before the other's second rows
      cannot each be kept together. */
  lemma Crossed(r: seq<Joined>, a1: Joined, a2: Joined, b1: Joined, b2: Joined)
    requires Sorting.SortedBy(r, AsWrittenKey)
    requires a1 in r && a2 in r && b1 in r && b2 in r
    requires a1.cls.name == a2.cls.name != b1.cls.name == b2.cls.name
    requires !Sorting.KeyLe(AsWrittenKey(a2), AsWrittenKey(b1))
    requires !Sorting.KeyLe(AsWrittenKey(b2), AsWrittenKey(a1))
    ensures !Grouped(Project(r))
  {
    var ia :| 0 <= ia < |r| && r[ia] == a1;
    var ja :| 0 <= ja < |r| && r[ja] == a2;
    var ib :| 0 <= ib < |r| && r[ib] == b1;
    var jb :| 0 <= jb < |r| && r[jb] == b2;
    SortedAfter(r, ja, ib);
    SortedAfter(r, jb, ia);
    assert ia != ib by {
      assert r[ia].cls.name != r[ib].cls.name;
    }
    var rows := Project(r);
    if ia < ib {
      SplitAt(rows, ia, ib, ja, a1.cls.name, b1.cls.name);
    } else {
      SplitAt(rows, ib, ia, jb, b1.cls.name, a1.cls.name);
    }
  }

  /** In a sorted sequence a row whose key exceeds another's comes after it. */
  lemma SortedAfter(r: seq<Joined>, i: nat, j: nat)
    requires Sorting.SortedBy(r, AsWrittenKey)
    requires i < |r| && j < |r|
    requires !Sorting.KeyLe(AsWrittenKey(r[i]), AsWrittenKey(r[j]))
    ensures j < i
  {
  }

  /** A row of another class between two rows of one class splits it. */
  lemma SplitAt(rows: seq<RosterRow>, i: int, j: int, k: int, outer: string, inner: string)
    requires 0 <= i < j < k < |rows|
    requires rows[i].className == outer == rows[k].className
    requires rows[j].className == inner
    requires inner != outer
    ensures !Grouped(rows)
  {
  }

  /** In particular the as-written roster of that valid store is not grouped. */
  lemma GetRosterAsWrittenSplitsClasses()
    ensures Valid(TiedClasses)
    ensures !Grouped(GetRosterAsWritten(TiedClasses))
  {
    TiedClassesValid();
    TiedClassesInterleave(AsWrittenOrder(TiedClasses));
  }

  /** `get_class_roster`'s rows before projection: the members of the
      classes called exactly `name` (the inner join), sorted by join order. */
  function ClassMembers(s: Store, name: string): (r: seq<Member>)
    ensures multiset(r) == multiset(Seqs.Filter(s.members, InClasses(Classes.ClassIdsNamed(s, name))))
    ensures Sorting.SortedBy(r, JoinKey)
  {
    Sorting.Sort(Seqs.Filter(s.members, InClasses(Classes.ClassIdsNamed(s, name))), JoinKey)
  }

  /** The class roster holds exactly the members of the named class, with
      join orders never decreasing. */
  lemma ClassMembersContents(s: Store, name: string)
    ensures forall i :: 0 <= i < |ClassMembers(s, name)| ==>
              ClassMembers(s, name)[i] in s.members && ClassMembers(s, name)[i].classId in Classes.ClassIdsNamed(s, name)
    ensures forall i :: 0 <= i < |s.members| && s.members[i].classId in Classes.ClassIdsNamed(s, name) ==>
              s.members[i] in ClassMembers(s, name)
    ensures forall i, j :: 0 <= i < j < |ClassMembers(s, name)| ==>
              ClassMembers(s, name)[i].joinOrder <= ClassMembers(s, name)[j].joinOrder
  {
    var cids := Classes.ClassIdsNamed(s, name);
    var ms := Seqs.Filter(s.members, InClasses(cids));
    var r := ClassMembers(s, name);
    SameElements(r, ms);
    forall i | 0 <= i < |r| ensures r[i] in s.members && r[i].classId in cids {
      assert r[i] in ms;
    }
    forall i | 0 <= i < |s.members| && s.members[i].classId in cids ensures s.members[i] in r {
      assert InClasses(cids)(s.members[i]);
    }
    JoinOrdersAscend(r);
  }

  /** Two sequences with the same multiset hold the same elements. */
  lemma SameElements(a: seq<Member>, b: seq<Member>)
    requires multiset(a) == multiset(b)
    ensures forall x :: x in a <==> x in b
  {
    forall x ensures x in a <==> x in b {
      assert x in a <==> x in multiset(a);
      assert x in b <==> x in multiset(b);
    }
  }

  /** Sorted by join-order key means join orders never decrease. */
  lemma JoinOrdersAscend(r: seq<Member>)
    requires Sorting.SortedBy(r, JoinKey)
    ensures forall i, j :: 0 <= i < j < |r| ==> r[i].joinOrder <= r[j].joinOrder
  {
    forall i, j | 0 <= i < j < |r| ensures r[i].joinOrder <= r[j].joinOrder {
      assert Sorting.KeyLe(JoinKey(r[i]), JoinKey(r[j]));
    }
  }

  /** The row filter `c.name = ?` of the inner join. */
  function InClasses(cids: set<Id>): Member -> bool {
    (m: Member) => m.classId in cids
  }

  /** `ORDER BY m.join_order`. */
  function JoinKey(m: Member): Sorting.Key {
    Sorting.Key(m.joinOrder, 0, None)
  }

  /** `get_class_roster`. */
  function GetClassRoster(s: Store, name: string): (r: seq<ClassRosterRow>)
    ensures |r| == |ClassMembers(s, name)|
    ensures forall i :: 0 <= i < |r| ==>
      var m := ClassMembers(s, name)[i];
      r[i] == ClassRosterRow(m.first, m.nick, m.last, m.roll, m.honorific)
  {
    var ms := ClassMembers(s, name);
    seq(|ms|, i requires 0 <= i < |ms| => ClassRosterRow(ms[i].first, ms[i].nick, ms[i].last, ms[i].roll, ms[i].honorific))
  }

  /** In a valid store the class's members already appear in join order in
      the table, with no ties, so the sorted roster is exactly the table
      scan and join orders strictly increase down it. */
  lemma ClassRosterIsTableOrder(s: Store, name: string)
    requires Valid(s)
    ensures ClassMembers(s, name) == Seqs.Filter(s.members, InClasses(Classes.ClassIdsNamed(s, name)))
    ensures forall i, j :: 0 <= i < j < |ClassMembers(s, name)| ==>
              ClassMembers(s, name)[i].joinOrder < ClassMembers(s, name)[j].joinOrder
  {
    var cids := Classes.ClassIdsNamed(s, name);
    var ms := Seqs.Filter(s.members, InClasses(cids));
    Seqs.FilterPairwise(s.members, InClasses(cids), MemberPrecedes);
    forall i, j | 0 <= i < j < |ms| ensures ms[i].joinOrder < ms[j].joinOrder {
      assert InClasses(cids)(ms[i]) && InClasses(cids)(ms[j]);
      var ci :| ci in s.classes && ci.name == name && ci.id == ms[i].classId;
      var cj :| cj in s.classes && cj.name == name && cj.id == ms[j].classId;
      ClassIdentified(s, ci, cj);
      assert MemberPrecedes(ms[i], ms[j]);
    }
    Sorting.SortStrict(ms, JoinKey);
  }
}
