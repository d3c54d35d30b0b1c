/** `set_social` and `remove_social` (db.py:287-305), and the per-member
    platform-to-handle view `get_member_card_by` reads (db.py:263-265). */
module Socials {
  import opened Wrappers
  import opened Schema
  import Text

  /** `set_social`: fails when no member matches the nickname; otherwise
      inserts or overwrites the one handle stored for (member, lower-cased
      platform), leaving every other handle and table alone. */
  function SetSocial(s: Store, nick: string, platform: string, handle: string): (r: Result<Store, Error>)
    ensures r.Err? <==> MemberIdByNick(s, nick).None?
    ensures r.Err? ==> r.error == MemberNotFound
    ensures r.Ok? ==> r.value == s.(socials := r.value.socials)
    ensures r.Ok? ==>
      var key := (MemberIdByNick(s, nick).value, Text.Lower(platform));
      && key in r.value.socials && r.value.socials[key] == handle
      && r.value.socials.Keys == s.socials.Keys + {key}
      && (forall k :: k in s.socials && k != key ==> r.value.socials[k] == s.socials[k])
  {
    match MemberIdByNick(s, nick)
    case None => Err(MemberNotFound)
    case Some(mid) => Ok(s.(socials := s.socials[(mid, Text.Lower(platform)) := handle]))
  }

  /** `remove_social`: deletes the handle for (member, lower-cased platform)
      if there is one; a no-op when no member matches. */
  function RemoveSocial(s: Store, nick: string, platform: string): (r: Store)
    ensures MemberIdByNick(s, nick).None? ==> r == s
    ensures r == s.(socials := r.socials)
    ensures MemberIdByNick(s, nick).Some? ==>
      var key := (MemberIdByNick(s, nick).value, Text.Lower(platform));
      && r.socials.Keys == s.socials.Keys - {key}
      && (forall k :: k in r.socials ==> r.socials[k] == s.socials[k])
  {
    match MemberIdByNick(s, nick)
    case None => s
    case Some(mid) => s.(socials := s.socials - {(mid, Text.Lower(platform))})
  }

  /** The handles of member `mid` as a platform-to-handle dictionary. */
  function SocialsOf(s: Store, mid: Id): (r: map<string, string>)
    ensures forall p :: p in r <==> (mid, p) in s.socials
    ensures forall p :: p in r ==> r[p] == s.socials[(mid, p)]
  {
    map k | k in s.socials.Keys && k.0 == mid :: k.1 := s.socials[k]
  }

  /** Setting a handle again overwrites it: only the last write counts, and
      the platform's case does not matter. */
  lemma SetSocialOverwrites(s: Store, nick: string, p1: string, p2: string, h1: string, h2: string)
    requires SetSocial(s, nick, p1, h1).Ok?
    requires Text.Lower(p1) == Text.Lower(p2)
    ensures SetSocial(SetSocial(s, nick, p1, h1).value, nick, p2, h2) == SetSocial(s, nick, p2, h2)
  {
    var mid := MemberIdByNick(s, nick).value;
    assert s.socials[(mid, Text.Lower(p1)) := h1][(mid, Text.Lower(p2)) := h2] == s.socials[(mid, Text.Lower(p2)) := h2];
  }

  /** The stored handle reads back through the member's dictionary, under
      the lower-cased platform name. */
  lemma SetSocialReadBack(s: Store, nick: string, platform: string, handle: string)
    requires SetSocial(s, nick, platform, handle).Ok?
    ensures var t := SetSocial(s, nick, platform, handle).value;
            var d := SocialsOf(t, MemberIdByNick(s, nick).value);
            Text.Lower(platform) in d && d[Text.Lower(platform)] == handle
  {
  }

  /** Removing right after setting leaves what removing alone would. */
  lemma RemoveUndoesSet(s: Store, nick: string, platform: string, handle: string)
    requires SetSocial(s, nick, platform, handle).Ok?
    ensures RemoveSocial(SetSocial(s, nick, platform, handle).value, nick, platform) == RemoveSocial(s, nick, platform)
  {
    var mid := MemberIdByNick(s, nick).value;
    var key := (mid, Text.Lower(platform));
    assert s.socials[key := handle] - {key} == s.socials - {key};
  }

  lemma SetSocialValid(s: Store, nick: string, platform: string, handle: string)
    requires Valid(s)
    requires SetSocial(s, nick, platform, handle).Ok?
    ensures Valid(SetSocial(s, nick, platform, handle).value)
  {
  }

  lemma RemoveSocialValid(s: Store, nick: string, platform: string)
    requires Valid(s)
    ensures Valid(RemoveSocial(s, nick, platform))
  {
  }
}
