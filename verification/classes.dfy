/** `add_class`, `remove_class` and `list_classes` (db.py:106-140). */
module Classes {
  import opened Wrappers
  import opened Schema
  import Text
  import Seqs
  import Sorting
  import Cascade

  /** `add_class`: the trimmed name must not already be taken (`name UNIQUE`). */
  function AddClass(s: Store, name: string, orderIndex: int): (r: Result<Store, Error>)
    ensures r.Err? <==> exists i :: 0 <= i < |s.classes| && s.classes[i].name == Text.Strip(name)
    ensures r.Err? ==> r.error == DuplicateClassName
    ensures r.Ok? ==> r.value == s.(classes := r.value.classes, nextClassId := s.nextClassId + 1)
    ensures r.Ok? ==> r.value.classes == s.classes + [ClassRow(s.nextClassId, Text.Strip(name), orderIndex)]
  {
    var n := Text.Strip(name);
    if exists i :: 0 <= i < |s.classes| && s.classes[i].name == n then Err(DuplicateClassName)
    else Ok(s.(classes := s.classes + [ClassRow(s.nextClassId, n, orderIndex)], nextClassId := s.nextClassId + 1))
  }

  /** After `add_class`, looking the trimmed name up finds the new class. */
  lemma AddClassThenLookup(s: Store, name: string, orderIndex: int)
    requires AddClass(s, name, orderIndex).Ok?
    ensures ClassIdByName(AddClass(s, name, orderIndex).value, Text.Strip(name)) == Some(s.nextClassId)
  {
    var r := AddClass(s, name, orderIndex).value;
    var n := Text.Strip(name);
    var i :| 0 <= i < |r.classes| && r.classes[i].name == n && r.classes[i].id == ClassIdByName(r, n).value;
    assert forall j :: 0 <= j < |s.classes| ==> r.classes[j].name != n;
  }

  lemma AddClassValid(s: Store, name: string, orderIndex: int)
    requires Valid(s)
    requires AddClass(s, name, orderIndex).Ok?
    ensures Valid(AddClass(s, name, orderIndex).value)
  {
    var c := ClassRow(s.nextClassId, Text.Strip(name), orderIndex);
    assert forall i :: 0 <= i < |s.classes| ==> s.classes[i].name != c.name;
    ClassAppendValid(s, c);
  }

  /** Appending a class row with a fresh id and an unused name keeps the
      store valid. */
  lemma ClassAppendValid(s: Store, c: ClassRow)
    requires Valid(s)
    requires c.id == s.nextClassId
    requires forall i :: 0 <= i < |s.classes| ==> s.classes[i].name != c.name
    ensures Valid(s.(classes := s.classes + [c], nextClassId := s.nextClassId + 1))
  {
    var r := s.(classes := s.classes + [c], nextClassId := s.nextClassId + 1);
    forall i | 0 <= i < |s.classes| ensures ClassPrecedes(s.classes[i], c) {
      assert s.classes[i] in s.classes;
    }
    Seqs.PairwiseAppend(s.classes, c, ClassPrecedes);
    assert ClassIds(r) == ClassIds(s) + {c.id};
    assert MemberIds(r) == MemberIds(s);
  }

  /** The ids of the classes called exactly `name`. */
  function ClassIdsNamed(s: Store, name: string): set<Id> {
    set c | c in s.classes && c.name == name :: c.id
  }

  /** The ids of the members of those classes. */
  function MembersOfClassesNamed(s: Store, name: string): set<Id> {
    set m | m in s.members && m.classId in ClassIdsNamed(s, name) :: m.id
  }

  /** `remove_class`: every member of the class goes, with their social
      handles and every family edge touching them on either side; then the
      class row goes. Members of other classes stay, minus any edge into
      the removed class. */
  function RemoveClass(s: Store, name: string): (r: Store)
    ensures (forall i :: 0 <= i < |s.classes| ==> s.classes[i].name != name) ==> r == s
    ensures forall i :: 0 <= i < |r.classes| ==> r.classes[i] in s.classes && r.classes[i].name != name
    ensures forall i :: 0 <= i < |s.classes| && s.classes[i].name != name ==> s.classes[i] in r.classes
    ensures forall i :: 0 <= i < |r.members| ==> r.members[i] in s.members && r.members[i].classId !in ClassIdsNamed(s, name)
    ensures forall i :: 0 <= i < |s.members| && s.members[i].classId !in ClassIdsNamed(s, name) ==> s.members[i] in r.members
    ensures forall k :: k in r.socials <==> k in s.socials && k.0 !in MembersOfClassesNamed(s, name)
    ensures forall k :: k in r.family <==> k in s.family && k !in MembersOfClassesNamed(s, name) && !Cascade.PointsInto(s.family[k], MembersOfClassesNamed(s, name))
    ensures forall k :: k in r.family ==> r.family[k] == s.family[k]
    ensures r.skipped == s.skipped && r.nextClassId == s.nextClassId && r.nextMemberId == s.nextMemberId
  {
    var gone := MembersOfClassesNamed(s, name);
    var purged := Cascade.Purge(s, gone);
    var classes := Seqs.Filter(s.classes, Unnamed(name));
    var members := Seqs.Filter(s.members, OutsideClasses(ClassIdsNamed(s, name)));
    if forall i :: 0 <= i < |s.classes| ==> s.classes[i].name != name then
      assert gone == {};
      Cascade.PurgeNothing(s);
      Seqs.FilterAll(s.classes, Unnamed(name));
      Seqs.FilterAll(s.members, OutsideClasses(ClassIdsNamed(s, name)));
      purged.(classes := classes, members := members)
    else
      purged.(classes := classes, members := members)
  }

  /** The row filter of `DELETE FROM classes WHERE name=?`. */
  function Unnamed(name: string): ClassRow -> bool {
    (c: ClassRow) => c.name != name
  }

  /** The row filter of `DELETE FROM members WHERE class_id=...`. */
  function OutsideClasses(cids: set<Id>): Member -> bool {
    (m: Member) => m.classId !in cids
  }

  lemma RemoveClassValid(s: Store, name: string)
    requires Valid(s)
    ensures Valid(RemoveClass(s, name))
  {
    var gone := MembersOfClassesNamed(s, name);
    var named := ClassIdsNamed(s, name);
    var r := RemoveClass(s, name);
    assert ClassTableOk(r) by {
      Seqs.FilterPairwise(s.classes, Unnamed(name), ClassPrecedes);
    }
    RemoveClassIds(s, name);
    assert MemberTableOk(r) by {
      Seqs.FilterPairwise(s.members, OutsideClasses(named), MemberPrecedes);
    }
    RemoveClassMemberIds(s, name);
    Cascade.PurgeValid(s, gone);
    Cascade.PurgeMemberIds(s, gone);
    RemoveClassPurges(s, name);
  }

  /** The surviving class ids are the old ones minus those of the named classes. */
  lemma RemoveClassIds(s: Store, name: string)
    requires ClassTableOk(s)
    ensures ClassIds(RemoveClass(s, name)) == ClassIds(s) - ClassIdsNamed(s, name)
  {
    var r := RemoveClass(s, name);
    var named := ClassIdsNamed(s, name);
    forall id | id in ClassIds(s) - named ensures id in ClassIds(r) {
      var c :| c in s.classes && c.id == id;
      var i :| 0 <= i < |s.classes| && s.classes[i] == c;
    }
    forall id | id in ClassIds(r) ensures id in ClassIds(s) - named {
      var c :| c in r.classes && c.id == id;
      var i :| 0 <= i < |r.classes| && r.classes[i] == c;
      if id in named {
        var d :| d in s.classes && d.name == name && d.id == id;
        ClassIdentified(s, c, d);
      }
    }
  }

  /** The handles and edges left are those of the cascading delete. */
  lemma RemoveClassPurges(s: Store, name: string)
    ensures var gone := MembersOfClassesNamed(s, name);
      && RemoveClass(s, name).socials == Cascade.Purge(s, gone).socials
      && RemoveClass(s, name).family == Cascade.Purge(s, gone).family
  {
  }

  /** Every member outside the removed class is still there. */
  lemma RemoveClassMemberIds(s: Store, name: string)
    ensures MemberIds(s) - MembersOfClassesNamed(s, name) <= MemberIds(RemoveClass(s, name))
  {
    var r := RemoveClass(s, name);
    var gone := MembersOfClassesNamed(s, name);
    forall id | id in MemberIds(s) - gone ensures id in MemberIds(r) {
      var m :| m in s.members && m.id == id;
      var i :| 0 <= i < |s.members| && s.members[i] == m;
    }
  }

  /** `list_classes`: every class row, by `order_index` ascending. */
  function ListClasses(s: Store): (r: seq<ClassRow>)
    ensures multiset(r) == multiset(s.classes)
    ensures forall i, j :: 0 <= i < j < |r| ==> r[i].orderIndex <= r[j].orderIndex
  {
    var r := Sorting.Sort(s.classes, ClassKey);
    assert forall i, j :: 0 <= i < j < |r| ==> Sorting.KeyLe(ClassKey(r[i]), ClassKey(r[j]));
    r
  }

  function ClassKey(c: ClassRow): Sorting.Key {
    Sorting.Key(c.orderIndex, 0, None)
  }
}
