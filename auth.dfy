/** Bearer-token authentication: the before_action authenticate_user!. */
module Auth {
  import opened Wrappers
  import opened Strings
  import opened Models
  import opened Responses

  /** The literal part of the pattern /Bearer (\w+)/. */
  const Scheme: string := "Bearer "

  /** Ruby's \w: [A-Za-z0-9_]. */
  predicate IsWordChar(c: char) {
    ('a' <= c <= 'z') || ('A' <= c <= 'Z') || ('0' <= c <= '9') || c == '_'
  }

  predicate IsWord(s: string) {
    forall i :: 0 <= i < |s| ==> IsWordChar(s[i])
  }

  /** What the greedy (\w+) consumes: the longest prefix of word characters. */
  function WordPrefix(s: string): (w: string)
    ensures w <= s && IsWord(w)
    ensures |w| == |s| || !IsWordChar(s[|w|])
  {
    if s != [] && IsWordChar(s[0]) then [s[0]] + WordPrefix(s[1..]) else []
  }

  /** The pattern matches at index i: "Bearer " there, then at least one word character. */
  predicate MatchesAt(header: string, i: int): (r: bool)
    ensures r <==> OccursAt(header, Scheme, i) && WordPrefix(header[i + |Scheme|..]) != []
  {
    0 <= i && i + |Scheme| < |header| && header[i..i + |Scheme|] == Scheme && IsWordChar(header[i + |Scheme|])
  }

  /** The unanchored search: the leftmost index at or after `from` where the pattern matches. */
  function FirstMatch(header: string, from: nat): (r: Option<nat>)
    decreases |header| - from
    ensures r.Some? ==> from <= r.value && MatchesAt(header, r.value)
    ensures forall j :: from <= j && (r.Some? ==> j < r.value) ==> !MatchesAt(header, j)
  {
    if from >= |header| then None
    else if MatchesAt(header, from) then Some(from)
    else FirstMatch(header, from + 1)
  }

  /** header.match(/Bearer (\w+)/)[1], or None when the header does not match. */
  function ExtractToken(header: string): (token: Option<string>)
    ensures token.None? <==> forall i :: !MatchesAt(header, i)
    ensures token.Some? ==> token.value != [] && IsWord(token.value)
  {
    match FirstMatch(header, 0)
    case None => None
    case Some(i) => Some(WordPrefix(header[i + |Scheme|..]))
  }

  /** The token is the word run after the leftmost match. */
  lemma ExtractTokenAtFirstMatch(header: string, i: int)
    requires MatchesAt(header, i)
    requires forall j :: 0 <= j < i ==> !MatchesAt(header, j)
    ensures ExtractToken(header) == Some(WordPrefix(header[i + |Scheme|..]))
  {
    var r := FirstMatch(header, 0);
    assert r.Some?;
    assert r.value == i;
  }

  /** A word followed by the end or by a non-word character is exactly what (\w+) takes. */
  lemma {:induction false} WordPrefixOfWord(t: string, rest: string)
    requires IsWord(t)
    requires rest == [] || !IsWordChar(rest[0])
    ensures WordPrefix(t + rest) == t
  {
    if t == [] {
      assert t + rest == rest;
    } else {
      assert (t + rest)[1..] == t[1..] + rest;
      WordPrefixOfWord(t[1..], rest);
    }
  }

  /** The token stops at the first non-word character after it. */
  lemma TokenEndsAtNonWord(t: string, rest: string)
    requires t != [] && IsWord(t)
    requires rest == [] || !IsWordChar(rest[0])
    ensures ExtractToken(Scheme + t + rest) == Some(t)
  {
    var h := Scheme + t + rest;
    assert h[..|Scheme|] == Scheme;
    assert MatchesAt(h, 0);
    assert h[|Scheme|..] == t + rest;
    WordPrefixOfWord(t, rest);
  }

  /** Round trip: the header a client builds from a token gives that token back. */
  lemma RoundTrip(t: string)
    requires t != [] && IsWord(t)
    ensures ExtractToken(Scheme + t) == Some(t)
  {
    TokenEndsAtNonWord(t, []);
    assert Scheme + t + [] == Scheme + t;
  }

  /** "Bearer abc-def" yields "abc". */
  lemma HyphenEndsToken()
    ensures ExtractToken("Bearer abc-def") == Some("abc")
  {
    var t, rest := "abc", "-def";
    assert IsWord(t) && !IsWordChar(rest[0]);
    TokenEndsAtNonWord(t, rest);
    assert Scheme + t + rest == "Bearer abc-def";
  }

  /** The match is unanchored: "Bearer <word>" anywhere in the header is accepted. */
  lemma AcceptsAnywhere(before: string, t: string, after: string)
    requires t != [] && IsWord(t)
    ensures ExtractToken(before + Scheme + t + after).Some?
  {
    var h := before + Scheme + t + after;
    assert h[|before|..|before| + |Scheme|] == Scheme;
    assert h[|before| + |Scheme|] == t[0];
    assert MatchesAt(h, |before|);
  }

  /** A header without the text "Bearer " is rejected. */
  lemma RejectsWithoutScheme(header: string)
    requires !Contains(header, Scheme)
    ensures ExtractToken(header).None?
  {
    ContainsIffOccurs(header, Scheme);
  }

  /** A blank header is rejected; so a header that matches is always present?. */
  lemma BlankHasNoToken(header: string)
    requires Blank(header)
    ensures ExtractToken(header).None?
  {
    assert forall i :: 0 <= i < |header| ==> header[i] != Scheme[0];
    forall i | 0 <= i < |header| ensures !MatchesAt(header, i) {
      assert i + |Scheme| <= |header| ==> header[i..i + |Scheme|][0] == header[i];
    }
  }

  /** The token the guard on the Authorization header yields (nil when absent, blank or not matching). */
  function BearerToken(authorization: Option<string>): (token: Option<string>)
    ensures token == if authorization.Some? then ExtractToken(authorization.value) else None
  {
    if Present(authorization) then ExtractToken(authorization.value)
    else if authorization.Some? then BlankHasNoToken(authorization.value); None
    else None
  }

  /** User.find_by_auth_token: the first user holding the token. */
  function FindByAuthToken(users: seq<User>, token: string): (found: Option<User>)
    ensures found.Some? ==> found.value in users && found.value.authToken == token
    ensures found.None? ==> forall u :: u in users ==> u.authToken != token
  {
    if users == [] then None
    else if users[0].authToken == token then Some(users[0])
    else FindByAuthToken(users[1..], token)
  }

  /** The user a request authenticates as, if any. */
  function Authenticated(users: seq<User>, authorization: Option<string>): (user: Option<User>)
    ensures user.Some? <==> exists u :: u in users && BearerToken(authorization) == Some(u.authToken)
    ensures user.Some? ==> user.value in users && BearerToken(authorization) == Some(user.value.authToken)
  {
    match BearerToken(authorization)
    case None => None
    case Some(token) => FindByAuthToken(users, token)
  }

  /** authenticate_user!: given Current.user at entry, yields Current.user at exit and the response it
      renders, if any; a rendered response halts the action. */
  method Authenticate(users: seq<User>, authorization: Option<string>, current: Option<User>)
    returns (user: Option<User>, halt: Option<Outcome>)
    ensures halt.None? <==> Authenticated(users, authorization).Some?
    ensures halt.Some? ==> halt.value == Unauthorized(UnauthorizedMessage)
    ensures BearerToken(authorization).Some? ==> user == Authenticated(users, authorization)
    ensures BearerToken(authorization).None? ==> user == current
  {
    user := current;
    if Present(authorization) && ExtractToken(authorization.value).Some? {
      var token := ExtractToken(authorization.value).value;
      user := FindByAuthToken(users, token);
      if user.Some? {
        halt := None;
        return;
      }
    }
    halt := Some(Unauthorized(UnauthorizedMessage));
  }
}
