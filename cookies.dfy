/**
 * The session store: a list of records binding an email to a token until an
 * expiry time. Saving replaces the email's earlier records; lookups never
 * remove anything, expired or not.
 */
module Cookies {
  import opened Wrappers
  import opened Seqs
  import opened Data

  /** A session lasts 24 hours. */
  const SessionLifetime: int := 24 * 60 * 60 * 1000

  /** The characters a session token is made of. */
  const Alphabet: string := "ABCDEFGHIJKLMNOPQRSTUVWXYZabcdefghijklmnopqrstuvwxyz0123456789_."

  /** The length of a session token. */
  const TokenLength: nat := 64

  /** The records of one email, in order. */
  function SessionsOf(cs: seq<Cookie>, email: string): seq<Cookie> {
    Filter((c: Cookie) => c.email == email, cs)
  }

  /** The records of every other email, in order. */
  function OtherSessions(cs: seq<Cookie>, email: string): seq<Cookie> {
    Filter((c: Cookie) => c.email != email, cs)
  }

  /** The table after `saveCookie`: the email's records are dropped and a new one is appended. */
  function Saved(cs: seq<Cookie>, email: string, token: string, now: int): seq<Cookie> {
    OtherSessions(cs, email) + [Cookie(email, token, now + SessionLifetime)]
  }

  /** Record `c` is a live session for `token` at `now`. */
  predicate LiveToken(c: Cookie, token: string, now: int) {
    c.cookie == token && c.expiresAt > now
  }

  /**
   * `validateCookie`: the email of the first record holding the token and not
   * yet expired, or None when there is none.
   */
  function ValidateCookie(cs: seq<Cookie>, token: string, now: int): (r: Option<string>)
    ensures r.None? <==> forall i :: 0 <= i < |cs| ==> !LiveToken(cs[i], token, now)
    ensures r.Some? ==> exists i :: 0 <= i < |cs| && LiveToken(cs[i], token, now) && r.value == cs[i].email &&
                                    forall j :: 0 <= j < i ==> !LiveToken(cs[j], token, now)
  {
    match FirstIndex((c: Cookie) => LiveToken(c, token, now), cs)
    case None => None
    case Some(i) => Some(cs[i].email)
  }

  /**
   * `getCookieByEmail`: the token of the first record of the email, provided
   * that record has not expired; an expired first record hides any later one.
   */
  function GetCookieByEmail(cs: seq<Cookie>, email: string, now: int): (r: Option<string>)
    ensures r.Some? ==> exists i :: 0 <= i < |cs| && cs[i].email == email && cs[i].expiresAt > now &&
                                    r.value == cs[i].cookie && forall j :: 0 <= j < i ==> cs[j].email != email
    ensures (forall i :: 0 <= i < |cs| ==> cs[i].email != email) ==> r.None?
    ensures forall i :: 0 <= i < |cs| && cs[i].email == email && (forall j :: 0 <= j < i ==> cs[j].email != email) ==>
                        r == (if cs[i].expiresAt > now then Some(cs[i].cookie) else None)
  {
    match FirstIndex((c: Cookie) => c.email == email, cs)
    case None => None
    case Some(i) => if cs[i].expiresAt > now then Some(cs[i].cookie) else None
  }

  /**
   * After `saveCookie` the email has exactly one record, the new one, and every
   * other email keeps its records in order.
   */
  lemma SavedSingleRecord(cs: seq<Cookie>, email: string, token: string, now: int, other: string)
    ensures SessionsOf(Saved(cs, email, token, now), email) == [Cookie(email, token, now + SessionLifetime)]
    ensures other != email ==> SessionsOf(Saved(cs, email, token, now), other) == SessionsOf(cs, other)
  {
    var rest := OtherSessions(cs, email);
    var newRecord := Cookie(email, token, now + SessionLifetime);
    FilterConcat((c: Cookie) => c.email == email, rest, [newRecord]);
    FilterNone((c: Cookie) => c.email == email, rest);
    if other != email {
      FilterConcat((c: Cookie) => c.email == other, rest, [newRecord]);
      FilterFilter((c: Cookie) => c.email == other, (c: Cookie) => c.email != email, cs);
    }
  }

  /** After `saveCookie`, looking the email up returns the new token until it expires. */
  lemma SavedCookieByEmail(cs: seq<Cookie>, email: string, token: string, now: int, later: int)
    ensures later < now + SessionLifetime ==> GetCookieByEmail(Saved(cs, email, token, now), email, later) == Some(token)
    ensures later >= now + SessionLifetime ==> GetCookieByEmail(Saved(cs, email, token, now), email, later) == None
  {
    var s := Saved(cs, email, token, now);
    var rest := OtherSessions(cs, email);
    assert forall j :: 0 <= j < |rest| ==> s[j] == rest[j];
    var k := FirstIndex((c: Cookie) => c.email == email, s);
    assert s[|rest|].email == email;
    assert k == Some(|rest|);
  }

  /**
   * The round trip of a login: after `saveCookie(email, token)` at `now`, the
   * token validates to the email at any time before it expires, provided no
   * other email holds a live record with the same token.
   */
  lemma SavedTokenValidates(cs: seq<Cookie>, email: string, token: string, now: int, later: int)
    requires later < now + SessionLifetime
    requires forall i :: 0 <= i < |cs| && cs[i].email != email ==> !LiveToken(cs[i], token, later)
    ensures ValidateCookie(Saved(cs, email, token, now), token, later) == Some(email)
  {
    var s := Saved(cs, email, token, now);
    var rest := OtherSessions(cs, email);
    forall j | 0 <= j < |rest| ensures !LiveToken(s[j], token, later) {
      assert s[j] == rest[j];
      assert rest[j] in cs && rest[j].email != email;
    }
    assert LiveToken(s[|rest|], token, later);
  }

  /** The store of session records. */
  class SessionStore {
    var cookies: seq<Cookie>

    /** An empty store. */
    constructor ()
      ensures cookies == []
    {
      cookies := [];
    }

    /** `saveCookie`: the email's records are removed, then one valid for 24 hours is appended. */
    method SaveCookie(email: string, token: string, now: int)
      modifies this
      ensures cookies == Saved(old(cookies), email, token, now)
    {
      cookies := OtherSessions(cookies, email);
      cookies := cookies + [Cookie(email, token, now + SessionLifetime)];
    }
  }

  /**
   * `generateCookie` with its random draws given as `picks`: 64 characters,
   * the i-th being the alphabet's character at position `picks[i]`.
   */
  method GenerateCookie(picks: seq<nat>) returns (token: string)
    requires |picks| == TokenLength
    requires forall i :: 0 <= i < |picks| ==> picks[i] < |Alphabet|
    ensures |token| == TokenLength
    ensures forall i :: 0 <= i < |token| ==> token[i] == Alphabet[picks[i]] && token[i] in Alphabet
  {
    token := "";
    var i := 0;
    while i < TokenLength
      invariant 0 <= i <= TokenLength
      invariant |token| == i
      invariant forall j :: 0 <= j < i ==> token[j] == Alphabet[picks[j]]
    {
      token := token + [Alphabet[picks[i]]];
      i := i + 1;
    }
  }
}
