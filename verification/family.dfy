/** `set_big`, `get_big` and `get_littles` (db.py:308-350): each member
    has at most one family row naming its big (possibly NULL); its littles
    are the members whose row names it. */
module Family {
  import opened Wrappers
  import opened Schema
  import Text
  import Seqs

  /** `set_big`: fails when the member is missing, or when a big nickname is
      given and matches nobody; otherwise the member's single edge row is
      inserted or overwritten, with a NULL big when none is given. */
  function SetBig(s: Store, nick: string, big: Option<string>): (r: Result<Store, Error>)
    ensures r == Err(MemberNotFound) <==> MemberIdByNick(s, nick).None?
    ensures r == Err(BigNotFound) <==> MemberIdByNick(s, nick).Some? && Given(big) && MemberIdByNick(s, big.value).None?
    ensures r.Err? ==> r.error == MemberNotFound || r.error == BigNotFound
    ensures r.Ok? ==> r.value == s.(family := r.value.family)
    ensures r.Ok? ==>
      var mid := MemberIdByNick(s, nick).value;
      && r.value.family.Keys == s.family.Keys + {mid}
      && r.value.family[mid] == (if Given(big) then MemberIdByNick(s, big.value) else None)
      && (forall k :: k in s.family && k != mid ==> r.value.family[k] == s.family[k])
  {
    match MemberIdByNick(s, nick)
    case None => Err(MemberNotFound)
    case Some(mid) =>
      if Given(big) then
        match MemberIdByNick(s, big.value)
        case None => Err(BigNotFound)
        case Some(bid) => Ok(s.(family := s.family[mid := Some(bid)]))
      else Ok(s.(family := s.family[mid := None]))
  }

  /** The nickname of member `mid`'s big, through `family JOIN members ON
      big_id = id`: nothing when there is no row, the big is NULL, or the big
      row is gone. */
  function BigOf(s: Store, mid: Id): (r: Option<string>)
    ensures r.Some? <==> mid in s.family && s.family[mid].Some? && s.family[mid].value in MemberIds(s)
    ensures r.Some? ==> exists m :: m in s.members && m.id == s.family[mid].value && m.nick == r.value
  {
    if mid in s.family && s.family[mid].Some? then
      match MemberById(s, s.family[mid].value)
      case None => None
      case Some(m) => Some(m.nick)
    else None
  }

  /** `get_big`: nothing for an unknown nickname; otherwise the nickname of
      the looked-up member's big, when its edge names a live member. */
  function GetBig(s: Store, nick: string): (r: Option<string>)
    ensures MemberIdByNick(s, nick).None? ==> r.None?
    ensures MemberIdByNick(s, nick).Some? ==>
              var mid := MemberIdByNick(s, nick).value;
              && (r.Some? <==> mid in s.family && s.family[mid].Some? && s.family[mid].value in MemberIds(s))
              && (r.Some? ==> exists m :: m in s.members && m.id == s.family[mid].value && m.nick == r.value)
  {
    match MemberIdByNick(s, nick)
    case None => None
    case Some(mid) => BigOf(s, mid)
  }

  /** `m`'s family row names member `mid` as its big. */
  predicate IsLittleOf(s: Store, m: Member, mid: Id) {
    m.id in s.family && s.family[m.id] == Some(mid)
  }

  /** How many rows of `ms` are littles of `mid` nicknamed exactly `n`. */
  function LittleCount(s: Store, ms: seq<Member>, mid: Id, n: string): nat {
    if |ms| == 0 then 0
    else (if IsLittleOf(s, ms[0], mid) && ms[0].nick == n then 1 else 0) + LittleCount(s, ms[1..], mid, n)
  }

  /** The nicknames of member `mid`'s littles, in table order: exactly the
      members whose edge points at `mid`, one entry per little row, so a
      nickname shared by two littles occurs twice. */
  function LittlesOf(s: Store, mid: Id): (r: seq<string>)
    ensures forall i :: 0 <= i < |s.members| && IsLittleOf(s, s.members[i], mid) ==> s.members[i].nick in r
    ensures forall i :: 0 <= i < |r| ==> exists m :: m in s.members && IsLittleOf(s, m, mid) && m.nick == r[i]
    ensures forall n :: multiset(r)[n] == LittleCount(s, s.members, mid, n)
  {
    var p := (m: Member) => IsLittleOf(s, m, mid);
    var littles := Seqs.Filter(s.members, p);
    NicksOfMembers(s.members, littles, p);
    forall n ensures multiset(Nicks(littles))[n] == LittleCount(s, s.members, mid, n) {
      NicksCounted(s, s.members, mid, n, p);
    }
    Nicks(littles)
  }

  /** The nickname column of the filtered rows holds each nickname once per
      little row carrying it. */
  lemma {:induction false} NicksCounted(s: Store, ms: seq<Member>, mid: Id, n: string, p: Member -> bool)
    requires forall m :: p(m) == IsLittleOf(s, m, mid)
    ensures multiset(Nicks(Seqs.Filter(ms, p)))[n] == LittleCount(s, ms, mid, n)
  {
    if |ms| > 0 {
      NicksCounted(s, ms[1..], mid, n, p);
      var head := if p(ms[0]) then [ms[0]] else [];
      var tail := Seqs.Filter(ms[1..], p);
      assert Seqs.Filter(ms, p) == head + tail;
      NicksAppend(head, tail);
    }
  }

  /** The nickname column of two row sequences laid end to end. */
  lemma NicksAppend(a: seq<Member>, b: seq<Member>)
    ensures Nicks(a + b) == Nicks(a) + Nicks(b)
  {
    assert |Nicks(a + b)| == |Nicks(a) + Nicks(b)|;
    forall i | 0 <= i < |a + b| ensures Nicks(a + b)[i] == (Nicks(a) + Nicks(b))[i] {
      if i < |a| {
        assert (a + b)[i] == a[i];
      } else {
        assert (a + b)[i] == b[i - |a|];
      }
    }
  }

  /** The nickname column of some rows. */
  function Nicks(ms: seq<Member>): (r: seq<string>)
    ensures |r| == |ms|
    ensures forall i :: 0 <= i < |ms| ==> r[i] == ms[i].nick
  {
    if |ms| == 0 then [] else [ms[0].nick] + Nicks(ms[1..])
  }

  /** The nicknames of the rows a filter keeps are the nicknames of the
      rows satisfying its condition. */
  lemma NicksOfMembers(all: seq<Member>, kept: seq<Member>, p: Member -> bool)
    requires forall i :: 0 <= i < |kept| ==> kept[i] in all && p(kept[i])
    requires forall i :: 0 <= i < |all| && p(all[i]) ==> all[i] in kept
    ensures forall i :: 0 <= i < |all| && p(all[i]) ==> all[i].nick in Nicks(kept)
    ensures forall i :: 0 <= i < |kept| ==> exists m :: m in all && p(m) && m.nick == Nicks(kept)[i]
  {
    var r := Nicks(kept);
    forall i | 0 <= i < |all| && p(all[i]) ensures all[i].nick in r {
      var j :| 0 <= j < |kept| && kept[j] == all[i];
      assert r[j] == all[i].nick;
    }
    forall i | 0 <= i < |kept| ensures exists m :: m in all && p(m) && m.nick == r[i] {
      assert kept[i] in all && p(kept[i]) && kept[i].nick == r[i];
    }
  }

  /** `get_littles`: empty when the nickname matches nobody; otherwise one
      nickname per little of the looked-up member. */
  function GetLittles(s: Store, nick: string): (r: seq<string>)
    ensures MemberIdByNick(s, nick).None? ==> r == []
    ensures MemberIdByNick(s, nick).Some? ==>
              forall n :: multiset(r)[n] == LittleCount(s, s.members, MemberIdByNick(s, nick).value, n)
  {
    match MemberIdByNick(s, nick)
    case None => []
    case Some(mid) => LittlesOf(s, mid)
  }

  /** `get_big` reads back what `set_big` stored: the big's nickname as
      stored, which equals the given one ignoring case. */
  lemma GetBigAfterSetBig(s: Store, nick: string, big: string)
    requires Valid(s)
    requires big != ""
    ensures SetBig(s, nick, Some(big)).Ok? ==>
            var got := GetBig(SetBig(s, nick, Some(big)).value, nick);
            got.Some? && Text.Lower(got.value) == Text.Lower(big)
  {
    if SetBig(s, nick, Some(big)).Ok? {
      var t := SetBig(s, nick, Some(big)).value;
      var bid := MemberIdByNick(s, big).value;
      var i :| 0 <= i < |s.members| && s.members[i].id == bid && NickMatches(s.members[i], big);
      var m :| m in t.members && m.id == bid && m.nick == BigOf(t, MemberIdByNick(s, nick).value).value;
      MemberIdentified(s, m, s.members[i]);
    }
  }

  /** Clearing the big (None or empty) makes `get_big` return nothing. */
  lemma GetBigAfterClear(s: Store, nick: string, big: Option<string>)
    requires !Given(big)
    requires SetBig(s, nick, big).Ok?
    ensures GetBig(SetBig(s, nick, big).value, nick) == None
  {
  }

  /** After `set_big`, the member is among the big's littles. */
  lemma LittlesAfterSetBig(s: Store, nick: string, big: string)
    requires big != ""
    ensures SetBig(s, nick, Some(big)).Ok? ==>
            var t := SetBig(s, nick, Some(big)).value;
            s.members[NickIndex(s, nick).value].nick in GetLittles(t, big)
  {
    if SetBig(s, nick, Some(big)).Ok? {
      var t := SetBig(s, nick, Some(big)).value;
      var k := NickIndex(s, nick).value;
      assert IsLittleOf(t, t.members[k], MemberIdByNick(s, big).value);
    }
  }

  /** A member has one edge: setting the big twice keeps only the second. */
  lemma SetBigOverwrites(s: Store, nick: string, b1: Option<string>, b2: Option<string>)
    requires SetBig(s, nick, b1).Ok?
    ensures SetBig(SetBig(s, nick, b1).value, nick, b2) == SetBig(s, nick, b2)
  {
    if !Given(b2) || MemberIdByNick(s, b2.value).Some? {
      OverwriteWithKnownBig(s, nick, b1, b2);
    } else {
      OverwriteWithUnknownBig(s, nick, b1, b2.value);
    }
  }

  lemma OverwriteWithKnownBig(s: Store, nick: string, b1: Option<string>, b2: Option<string>)
    requires SetBig(s, nick, b1).Ok?
    requires !Given(b2) || MemberIdByNick(s, b2.value).Some?
    ensures SetBig(SetBig(s, nick, b1).value, nick, b2) == SetBig(s, nick, b2)
  {
    var mid := MemberIdByNick(s, nick).value;
    var e1 := if Given(b1) then MemberIdByNick(s, b1.value) else None;
    SetBigStores(s, nick, b1);
    SetBigAfterUpdate(s, nick, b2, mid, e1);
  }

  /** `set_big` on a store whose own edge was already overwritten gives
      the same store as on the original. */
  lemma SetBigAfterUpdate(s: Store, nick: string, b2: Option<string>, mid: Id, e1: Option<Id>)
    requires MemberIdByNick(s, nick) == Some(mid)
    requires Given(b2) ==> MemberIdByNick(s, b2.value).Some?
    ensures SetBig(s.(family := s.family[mid := e1]), nick, b2) == SetBig(s, nick, b2)
  {
    var t := s.(family := s.family[mid := e1]);
    var e2 := if Given(b2) then MemberIdByNick(s, b2.value) else None;
    LookupReadsMembersOnly(s, t, nick);
    if Given(b2) {
      LookupReadsMembersOnly(s, t, b2.value);
    }
    SetBigStores(t, nick, b2);
    SetBigStores(s, nick, b2);
    UpdateTwice(s.family, mid, e1, e2);
  }

  /** Writing a key twice keeps only the second value. */
  lemma UpdateTwice(m: map<Id, Option<Id>>, k: Id, a: Option<Id>, b: Option<Id>)
    ensures m[k := a][k := b] == m[k := b]
  {
  }

  lemma OverwriteWithUnknownBig(s: Store, nick: string, b1: Option<string>, b2: string)
    requires SetBig(s, nick, b1).Ok?
    requires b2 != "" && MemberIdByNick(s, b2).None?
    ensures SetBig(SetBig(s, nick, b1).value, nick, Some(b2)) == Err(BigNotFound)
  {
    var t := SetBig(s, nick, b1).value;
    LookupReadsMembersOnly(s, t, nick);
    LookupReadsMembersOnly(s, t, b2);
  }

  /** When both lookups succeed, `set_big` is a plain upsert of one edge. */
  lemma SetBigStores(s: Store, nick: string, big: Option<string>)
    requires MemberIdByNick(s, nick).Some?
    requires Given(big) ==> MemberIdByNick(s, big.value).Some?
    ensures SetBig(s, nick, big) == Ok(s.(family := s.family[MemberIdByNick(s, nick).value := if Given(big) then MemberIdByNick(s, big.value) else None]))
  {
  }

  lemma SetBigValid(s: Store, nick: string, big: Option<string>)
    requires Valid(s)
    requires SetBig(s, nick, big).Ok?
    ensures Valid(SetBig(s, nick, big).value)
  {
    var e := if Given(big) then MemberIdByNick(s, big.value) else None;
    SetBigStores(s, nick, big);
    EdgeValid(s, MemberIdByNick(s, nick).value, e);
  }

  /** Upserting an edge between existing members keeps the store valid. */
  lemma EdgeValid(s: Store, mid: Id, e: Option<Id>)
    requires Valid(s)
    requires mid in MemberIds(s)
    requires e.Some? ==> e.value in MemberIds(s)
    ensures Valid(s.(family := s.family[mid := e]))
  {
    var t := s.(family := s.family[mid := e]);
    assert t.classes == s.classes && t.members == s.members;
    assert ClassIds(t) == ClassIds(s) && MemberIds(t) == MemberIds(s);
    assert ClassTableOk(t) && MemberTableOk(t) && SocialsOk(t);
  }
}
