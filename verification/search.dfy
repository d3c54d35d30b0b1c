/** `get_member_card_by` (db.py:231-284): search by roll number, first,
    last or nickname, the supplied criteria joined with OR, and the full
    card of the first member found. */
module Search {
  import opened Wrappers
  import opened Schema
  import Text
  import Seqs
  import Socials
  import Family

  /** The `fields` dict: absent keys are `None`. */
  datatype Query = Query(number: Option<int>, first: Option<string>, last: Option<string>, nick: Option<string>)

  /** A criterion is used when `number` is not None, or a name field is
      truthy (neither None nor empty). */
  predicate HasCriteria(q: Query) {
    q.number.Some? || Given(q.first) || Given(q.last) || Given(q.nick)
  }

  /** The WHERE clause: the used criteria joined with OR; names compare
      with `LOWER(col) = LOWER(?)`. */
  predicate Matches(q: Query, m: Member) {
    || (q.number.Some? && m.roll == q.number.value)
    || (Given(q.first) && Text.Lower(m.first) == Text.Lower(q.first.value))
    || (Given(q.last) && Text.Lower(m.last) == Text.Lower(q.last.value))
    || (Given(q.nick) && Text.Lower(m.nick) == Text.Lower(q.nick.value))
  }

  /** A row the query returns: it matches and survives the join with its class. */
  predicate Hit(s: Store, q: Query, m: Member) {
    Matches(q, m) && m.classId in ClassIds(s)
  }

  function Hits(s: Store, q: Query): Member -> bool {
    (m: Member) => Hit(s, q, m)
  }

  /** The dict `get_member_card_by` returns. */
  datatype Card = Card(
    first: string,
    last: string,
    nick: string,
    roll: int,
    honor: string,
    className: string,
    bio: Option<string>,
    socials: map<string, string>,
    big: Option<string>,
    littles: seq<string>)

  /** `c` is the card of member `m`: its own columns, its class's name, its
      handles by platform, its big's nickname and its littles' nicknames. */
  ghost predicate CardOf(s: Store, c: Card, m: Member) {
    && c.first == m.first && c.last == m.last && c.nick == m.nick
    && c.roll == m.roll && c.honor == m.honorific && c.bio == m.bio
    && (exists k :: k in s.classes && k.id == m.classId && k.name == c.className)
    && c.socials == Socials.SocialsOf(s, m.id)
    && c.big == Family.BigOf(s, m.id)
    && c.littles == Family.LittlesOf(s, m.id)
  }

  /** `get_member_card_by`: nothing without a criterion or without a hit;
      otherwise the card of the first hit in table order (`LIMIT 1`). */
  function GetMemberCardBy(s: Store, q: Query): (r: Option<Card>)
    ensures r.None? <==> !HasCriteria(q) || forall i :: 0 <= i < |s.members| ==> !Hit(s, q, s.members[i])
    ensures r.Some? ==> exists i :: 0 <= i < |s.members| && Hit(s, q, s.members[i]) && CardOf(s, r.value, s.members[i])
                                   && forall j :: 0 <= j < i ==> !Hit(s, q, s.members[j])
  {
    if !HasCriteria(q) then None
    else
      match Seqs.FindFirst(s.members, Hits(s, q))
      case None => None
      case Some(i) =>
        var m := s.members[i];
        var c := ClassById(s, m.classId).value;
        Some(Card(m.first, m.last, m.nick, m.roll, m.honorific, c.name, m.bio,
                  Socials.SocialsOf(s, m.id), Family.BigOf(s, m.id), Family.LittlesOf(s, m.id)))
  }

  /** The query with only its roll-number criterion, and so on. */
  function OnlyNumber(q: Query): Query { Query(q.number, None, None, None) }
  function OnlyFirst(q: Query): Query { Query(None, q.first, None, None) }
  function OnlyLast(q: Query): Query { Query(None, None, q.last, None) }
  function OnlyNick(q: Query): Query { Query(None, None, None, q.nick) }

  /** OR, not AND: a query finds a member exactly when one of its criteria
      on its own would. */
  lemma SearchIsDisjunction(s: Store, q: Query)
    ensures GetMemberCardBy(s, q).Some? <==>
      || GetMemberCardBy(s, OnlyNumber(q)).Some?
      || GetMemberCardBy(s, OnlyFirst(q)).Some?
      || GetMemberCardBy(s, OnlyLast(q)).Some?
      || GetMemberCardBy(s, OnlyNick(q)).Some?
  {
    assert forall m :: Hit(s, q, m) <==>
      Hit(s, OnlyNumber(q), m) || Hit(s, OnlyFirst(q), m) || Hit(s, OnlyLast(q), m) || Hit(s, OnlyNick(q), m);
  }

  /** `q2` uses every criterion `q1` uses, with the same value. */
  predicate Extends(q2: Query, q1: Query) {
    && (q1.number.Some? ==> q2.number == q1.number)
    && (Given(q1.first) ==> q2.first == q1.first)
    && (Given(q1.last) ==> q2.last == q1.last)
    && (Given(q1.nick) ==> q2.nick == q1.nick)
  }

  /** Supplying more criteria never loses a result. */
  lemma MoreCriteriaFindMore(s: Store, q1: Query, q2: Query)
    requires Extends(q2, q1)
    requires GetMemberCardBy(s, q1).Some?
    ensures GetMemberCardBy(s, q2).Some?
  {
    var i :| 0 <= i < |s.members| && Hit(s, q1, s.members[i]);
    assert Matches(q2, s.members[i]);
    assert HasCriteria(q2);
  }

  /** In a valid store, searching by nickname alone finds a member exactly
      when `_member_id_by_nick` does, and it is the same member. */
  lemma NickSearchAgreesWithLookup(s: Store, nick: string)
    requires Valid(s) && nick != ""
    ensures var r := GetMemberCardBy(s, Query(None, None, None, Some(nick)));
            && (r.Some? <==> MemberIdByNick(s, nick).Some?)
            && (r.Some? ==> CardOf(s, r.value, s.members[NickIndex(s, nick).value]))
  {
    var q := Query(None, None, None, Some(nick));
    forall i | 0 <= i < |s.members| ensures Hits(s, q)(s.members[i]) == Nicknamed(nick)(s.members[i]) {
      assert s.members[i] in s.members;
    }
    Seqs.FindFirstAgree(s.members, Hits(s, q), Nicknamed(nick));
  }

  /** A blank nickname is no criterion: `if fields.get("nick")` skips it,
      so the search finds nothing even when `_member_id_by_nick` would find
      a member stored with a blank nickname. */
  lemma BlankNickSearchFindsNothing(s: Store)
    ensures GetMemberCardBy(s, Query(None, None, None, Some(""))).None?
  {
  }

  /** When one member alone has the nickname ignoring case, searching by it
      returns that member's card, whichever order the rows are read in. */
  lemma NickSearchFindsSoleMatch(s: Store, nick: string, k: nat)
    requires Valid(s) && nick != ""
    requires k < |s.members| && NickMatches(s.members[k], nick)
    requires forall j :: 0 <= j < |s.members| && j != k ==> !NickMatches(s.members[j], nick)
    ensures var r := GetMemberCardBy(s, Query(None, None, None, Some(nick)));
            r.Some? && CardOf(s, r.value, s.members[k])
  {
    var q := Query(None, None, None, Some(nick));
    assert s.members[k] in s.members;
    assert Hit(s, q, s.members[k]);
    var r := GetMemberCardBy(s, q);
    var i :| 0 <= i < |s.members| && Hit(s, q, s.members[i]) && CardOf(s, r.value, s.members[i]);
    assert NickMatches(s.members[i], nick);
  }
}
