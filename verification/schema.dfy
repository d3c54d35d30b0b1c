/** The store's tables (db.py, `init_db`) as one immutable value, the
    invariants its constraints and operations keep, and the id helpers
    `_class_id` and `_member_id_by_nick`. */
module Schema {
  import opened Wrappers
  import Text
  import Seqs

  /** Row ids: `INTEGER PRIMARY KEY AUTOINCREMENT`. */
  type Id = nat

  /** A row of `classes`. */
  datatype ClassRow = ClassRow(id: Id, name: string, orderIndex: int)

  /** A row of `members`. */
  datatype Member = Member(
    id: Id,
    classId: Id,
    first: string,
    last: string,
    nick: string,
    fullName: string,
    joinOrder: int,
    roll: int,
    honorific: string,
    bio: Option<string>)

  /** The whole database. `classes` and `members` are kept in rowid order,
      the order a table scan visits them; `socials` is keyed by
      (member id, platform), `family` by member id (the big may be NULL);
      the counters are AUTOINCREMENT's next ids. */
  datatype Store = Store(
    classes: seq<ClassRow>,
    members: seq<Member>,
    socials: map<(Id, string), string>,
    family: map<Id, Option<Id>>,
    skipped: set<int>,
    nextClassId: Id,
    nextMemberId: Id)

  /** What the Python code raises: `ValueError` from a failed lookup, or
      `sqlite3.IntegrityError` from a UNIQUE constraint. */
  datatype Error = ClassNotFound | MemberNotFound | BigNotFound | DuplicateClassName | DuplicateNickname

  /** Column default of `members.honorific`. */
  const DefaultHonorific: string := "Mr."

  /** A freshly initialised database. */
  function Empty(): Store {
    Store([], [], map[], map[], {}, 1, 1)
  }

  function ClassIds(s: Store): set<Id> {
    set c | c in s.classes :: c.id
  }

  function MemberIds(s: Store): set<Id> {
    set m | m in s.members :: m.id
  }

  /** How an older `members` row relates to a newer one: smaller rowid,
      smaller roll number, and within one class a smaller join order and a
      different nickname (`UNIQUE(class_id, nickname)`). */
  ghost predicate MemberPrecedes(a: Member, b: Member) {
    && a.id < b.id
    && a.roll < b.roll
    && (a.classId == b.classId ==> a.joinOrder < b.joinOrder && a.nick != b.nick)
  }

  /** How an older `classes` row relates to a newer one (`name UNIQUE`). */
  ghost predicate ClassPrecedes(a: ClassRow, b: ClassRow) {
    a.id < b.id && a.name != b.name
  }

  /** The `classes` table: ids below the AUTOINCREMENT counter, rowid
      order, unique names. */
  ghost predicate ClassTableOk(s: Store) {
    && Seqs.Pairwise(s.classes, ClassPrecedes)
    && (forall c :: c in s.classes ==> c.id < s.nextClassId)
  }

  /** The `members` table: rowid order with rising roll and join numbers,
      every member in an existing class. */
  ghost predicate MemberTableOk(s: Store) {
    && Seqs.Pairwise(s.members, MemberPrecedes)
    && (forall m :: m in s.members ==> m.id < s.nextMemberId && m.classId in ClassIds(s))
    && (forall m :: m in s.members ==> m.roll >= 2 && m.joinOrder >= 1)
  }

  /** Every social handle belongs to an existing member. */
  ghost predicate SocialsOk(s: Store) {
    forall k :: k in s.socials ==> k.0 in MemberIds(s)
  }

  /** Both ends of every family edge are existing members. */
  ghost predicate FamilyOk(s: Store) {
    && (forall k :: k in s.family ==> k in MemberIds(s))
    && (forall k :: k in s.family && s.family[k].Some? ==> s.family[k].value in MemberIds(s))
  }

  /** What every reachable database satisfies. */
  ghost predicate Valid(s: Store) {
    ClassTableOk(s) && MemberTableOk(s) && SocialsOk(s) && FamilyOk(s)
  }

  /** The database `init_db` creates is valid. */
  lemma EmptyValid()
    ensures Valid(Empty())
  {
  }

  /** Python truthiness of an optional string: neither None nor empty. */
  predicate Given(o: Option<string>) {
    o.Some? && o.value != ""
  }

  /** In the `classes` table a row is named both by its id (`INTEGER
      PRIMARY KEY`) and by its name (`UNIQUE`). */
  lemma ClassIdentified(s: Store, a: ClassRow, b: ClassRow)
    requires ClassTableOk(s) && a in s.classes && b in s.classes
    ensures a.id == b.id || a.name == b.name ==> a == b
  {
    var i :| 0 <= i < |s.classes| && s.classes[i] == a;
    var j :| 0 <= j < |s.classes| && s.classes[j] == b;
    assert i < j ==> ClassPrecedes(s.classes[i], s.classes[j]);
    assert j < i ==> ClassPrecedes(s.classes[j], s.classes[i]);
  }

  /** No two rows of the `members` table share an id. */
  lemma MemberIdsDistinct(s: Store)
    requires MemberTableOk(s)
    ensures forall i, j :: 0 <= i < |s.members| && 0 <= j < |s.members| && i != j ==> s.members[i].id != s.members[j].id
  {
    forall i, j | 0 <= i < |s.members| && 0 <= j < |s.members| && i != j
      ensures s.members[i].id != s.members[j].id
    {
      if i < j {
        assert MemberPrecedes(s.members[i], s.members[j]);
      } else {
        assert MemberPrecedes(s.members[j], s.members[i]);
      }
    }
  }

  /** So a member id identifies one row. */
  lemma MemberIdentified(s: Store, a: Member, b: Member)
    requires MemberTableOk(s) && a in s.members && b in s.members
    ensures a.id == b.id ==> a == b
  {
    MemberIdsDistinct(s);
  }

  /** Case-insensitive nickname match, `LOWER(nickname)=LOWER(?)`. */
  predicate NickMatches(m: Member, nick: string) {
    Text.Lower(m.nick) == Text.Lower(nick)
  }

  /** `_class_id`: the class with exactly this name (no trimming, case-sensitive). */
  function ClassIdByName(s: Store, name: string): (r: Option<Id>)
    ensures r.None? <==> forall i :: 0 <= i < |s.classes| ==> s.classes[i].name != name
    ensures r.Some? ==> exists i :: 0 <= i < |s.classes| && s.classes[i].name == name && s.classes[i].id == r.value
  {
    match Seqs.FindFirst(s.classes, (c: ClassRow) => c.name == name)
    case None => None
    case Some(i) => Some(s.classes[i].id)
  }

  /** Position in the table of the member `_member_id_by_nick` picks: the
      first one, in scan order, whose nickname matches ignoring case. */
  function NickIndex(s: Store, nick: string): (r: Option<nat>)
    ensures r.None? <==> forall i :: 0 <= i < |s.members| ==> !NickMatches(s.members[i], nick)
    ensures r.Some? ==> r.value < |s.members| && NickMatches(s.members[r.value], nick)
    ensures r.Some? ==> forall i :: 0 <= i < r.value ==> !NickMatches(s.members[i], nick)
  {
    Seqs.FindFirst(s.members, Nicknamed(nick))
  }

  /** The row condition `LOWER(nickname)=LOWER(?)`. */
  function Nicknamed(nick: string): Member -> bool {
    (m: Member) => NickMatches(m, nick)
  }

  /** `_member_id_by_nick`. */
  function MemberIdByNick(s: Store, nick: string): (r: Option<Id>)
    ensures r.None? <==> forall m :: m in s.members ==> !NickMatches(m, nick)
    ensures r.Some? ==> r.value in MemberIds(s)
    ensures r.Some? ==> exists i :: 0 <= i < |s.members| && s.members[i].id == r.value && NickMatches(s.members[i], nick)
  {
    match NickIndex(s, nick)
    case None => None
    case Some(i) => Some(s.members[i].id)
  }

  /** Nickname lookups read only the `members` table. */
  lemma LookupReadsMembersOnly(s: Store, t: Store, nick: string)
    requires s.members == t.members
    ensures NickIndex(s, nick) == NickIndex(t, nick)
    ensures MemberIdByNick(s, nick) == MemberIdByNick(t, nick)
  {
  }

  /** The `members` row with this id (`WHERE id=?`). */
  function MemberById(s: Store, id: Id): (r: Option<Member>)
    ensures r.None? <==> id !in MemberIds(s)
    ensures r.Some? ==> r.value in s.members && r.value.id == id
  {
    match Seqs.FindFirst(s.members, (m: Member) => m.id == id)
    case None => None
    case Some(i) => Some(s.members[i])
  }

  /** The `classes` row with this id (`JOIN classes c ON m.class_id=c.id`). */
  function ClassById(s: Store, id: Id): (r: Option<ClassRow>)
    ensures r.None? <==> id !in ClassIds(s)
    ensures r.Some? ==> r.value in s.classes && r.value.id == id
  {
    match Seqs.FindFirst(s.classes, (c: ClassRow) => c.id == id)
    case None => None
    case Some(i) => Some(s.classes[i])
  }
}
