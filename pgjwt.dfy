/** pgjwt/pgjwt.go: taking a token out of a request (the Authorization
    header, a parsed body field or a cookie) and accepting the request when
    the token verifies.

    Signature and expiry checking belong to the JWT library and stay
    abstract: a `Verifier` says what `jwt.ParseWithClaims` reports for a
    token string and a key. A missing Authorization header reads as "", as
    `Header.Get` returns it. */
module PgJwt {
  import opened Common
  import opened Text

  /** What `jwt.ParseWithClaims` reports: an error (bad signature, expired,
      malformed), or a parsed token with its `Valid` flag and the username
      claim it carries. */
  datatype ParseOutcome = ParseFailed(message: string) | Parsed(valid: bool, username: string)

  type Verifier = (string, string) -> ParseOutcome

  /** What `r.Cookie(name)` reports. */
  datatype CookieLookup = NoCookie | CookieError(message: string) | Cookie(value: string)

  const NoHeader: string := "no valid header found"
  const NoToken: string := "no token found"
  const NotValid: string := "token is not valid"
  const NoCookieFound: string := "no cookie found"
  const MinTokenLength: nat := 10

  /** `CheckToken`: the username claimed by a token that parses and is
      valid; "fail" with an error otherwise. */
  function CheckToken(tokenstr: string, jwtKey: string, parse: Verifier): (r: Ret<string>)
    ensures r.err.None? <==> parse(tokenstr, jwtKey).Parsed? && parse(tokenstr, jwtKey).valid
    ensures r.err.None? ==> r.value == parse(tokenstr, jwtKey).username
    ensures r.err.Some? ==> r.value == "fail"
    ensures parse(tokenstr, jwtKey).ParseFailed? ==> r.err == Some(parse(tokenstr, jwtKey).message)
  {
    match parse(tokenstr, jwtKey)
    case ParseFailed(message) => Ret("fail", Some(message))
    case Parsed(valid, username) =>
      if valid then Ret(username, None) else Ret("fail", Some(NotValid))
  }

  /** `CheckBearer`: the second space-separated field of the Authorization
      header, provided the header has a space and that field is at least ten
      bytes long. */
  function CheckBearer(authorization: string): (r: Ret<string>)
    ensures ' ' !in authorization <==> r == Ret("", Some(NoHeader))
    ensures r.err.None? ==> |r.value| >= MinTokenLength && ' ' !in r.value && r.value in Split(authorization, ' ')
    ensures r.err.Some? ==> r.value == ""
  {
    if ' ' !in authorization then Ret("", Some(NoHeader))
    else
      SplitAtLeastTwo(authorization, ' ');
      SplitPiecesFree(authorization, ' ');
      var reqToken := Split(authorization, ' ')[1];
      if |reqToken| < MinTokenLength then Ret("", Some(NoToken)) else Ret(reqToken, None)
  }

  /** The token is the field after the first space, whatever the first word
      is (it is never checked to be "Bearer"), and anything after a further
      space is ignored. */
  lemma BearerField(scheme: string, token: string, tail: string)
    requires ' ' !in scheme && ' ' !in token
    requires tail == "" || tail[0] == ' '
    ensures CheckBearer(scheme + " " + token + tail) ==
      if |token| < MinTokenLength then Ret("", Some(NoToken)) else Ret(token, None)
  {
    var h := scheme + " " + token + tail;
    assert h == scheme + [' '] + (token + tail);
    SplitAt(scheme, token + tail, ' ');
    if tail == "" {
      assert token + tail == token;
      SplitWithout(token, ' ');
    } else {
      assert token + tail == token + [' '] + tail[1..];
      SplitAt(token, tail[1..], ' ');
    }
  }

  /** Two spaces after the first word give an empty token, which is too
      short. */
  lemma BearerDoubleSpace(scheme: string, rest: string)
    requires ' ' !in scheme
    ensures CheckBearer(scheme + "  " + rest) == Ret("", Some(NoToken))
  {
    var h := scheme + "  " + rest;
    assert h == scheme + [' '] + ([' '] + rest);
    SplitAt(scheme, [' '] + rest, ' ');
    assert [' '] + rest == [] + [' '] + rest;
    SplitAt([], rest, ' ');
  }

  lemma BearerTooShortExample()
    ensures CheckBearer("Bearer short") == Ret("", Some(NoToken))
  {
    assert "Bearer short" == "Bearer" + " " + "short" + "";
    BearerField("Bearer", "short", "");
  }

  lemma BearerExample()
    ensures CheckBearer("Bearer abcdefghijk") == Ret("abcdefghijk", None)
  {
    assert "Bearer abcdefghijk" == "Bearer" + " " + "abcdefghijk" + "";
    BearerField("Bearer", "abcdefghijk", "");
  }

  /** `CheckBearerToken`: "ok" exactly when the header yields a token and
      that token verifies; an extraction error is returned as it is. */
  function CheckBearerToken(authorization: string, jwtKeystring: string, parse: Verifier): (r: Ret<string>)
    ensures r.err.None? <==>
      CheckBearer(authorization).err.None? && CheckToken(CheckBearer(authorization).value, jwtKeystring, parse).err.None?
    ensures r.err.None? ==> r.value == "ok"
    ensures r.err.Some? ==> r.value == ""
    ensures CheckBearer(authorization).err.Some? ==> r.err == CheckBearer(authorization).err
  {
    var bearer := CheckBearer(authorization);
    if bearer.err.Some? then Ret("", bearer.err)
    else
      var checked := CheckToken(bearer.value, jwtKeystring, parse);
      if checked.err.Some? then Ret("", checked.err) else Ret("ok", None)
  }

  /** The token `CheckAuth` verifies: the body's "token" entry whenever the
      key exists, even when it is empty; otherwise the bearer token. */
  function AuthToken(authorization: string, keys: map<string, string>): Ret<string>
  {
    if "token" in keys then Ret(keys["token"], None) else CheckBearer(authorization)
  }

  /** `CheckAuth`: "ok" exactly when a token is found and verifies. */
  function CheckAuth(authorization: string, keys: map<string, string>, jwtKeystring: string, parse: Verifier): (r: Ret<string>)
    ensures r.err.None? <==>
      AuthToken(authorization, keys).err.None? &&
      parse(AuthToken(authorization, keys).value, jwtKeystring).Parsed? &&
      parse(AuthToken(authorization, keys).value, jwtKeystring).valid
    ensures r.err.None? ==> r.value == "ok"
    ensures r.err.Some? ==> r.value == ""
  {
    var token := AuthToken(authorization, keys);
    if token.err.Some? then Ret("", token.err)
    else
      var checked := CheckToken(token.value, jwtKeystring, parse);
      if checked.err.Some? then Ret("", checked.err) else Ret("ok", None)
  }

  /** A "token" key in the body decides alone: the header is never looked
      at, so any two headers give the same answer. */
  lemma CheckAuthPrefersBody(h1: string, h2: string, keys: map<string, string>, jwtKeystring: string, parse: Verifier)
    requires "token" in keys
    ensures CheckAuth(h1, keys, jwtKeystring, parse) == CheckAuth(h2, keys, jwtKeystring, parse)
  {
  }

  /** Without a body token, a header error is returned before any
      verification: the verifier cannot influence the answer. */
  lemma CheckAuthShortCircuits(authorization: string, keys: map<string, string>, jwtKeystring: string, p1: Verifier, p2: Verifier)
    requires "token" !in keys && CheckBearer(authorization).err.Some?
    ensures CheckAuth(authorization, keys, jwtKeystring, p1) == CheckAuth(authorization, keys, jwtKeystring, p2)
    ensures CheckAuth(authorization, keys, jwtKeystring, p1).err == CheckBearer(authorization).err
  {
  }

  /** `CheckCookie`: the cookie's value, "no cookie found" when there is
      none, or the lookup's own error. */
  function CheckCookie(lookup: CookieLookup): (r: Ret<string>)
    ensures r.err.None? <==> lookup.Cookie?
    ensures lookup.Cookie? ==> r.value == lookup.value
    ensures lookup.NoCookie? ==> r.err == Some(NoCookieFound)
    ensures lookup.CookieError? ==> r == Ret("", Some(lookup.message))
    ensures r.err.Some? ==> r.value == ""
  {
    match lookup
    case NoCookie => Ret("", Some(NoCookieFound))
    case CookieError(message) => Ret("", Some(message))
    case Cookie(value) => Ret(value, None)
  }

  /** `CheckGuiaccess`: "ok" exactly when the session cookie exists and its
      token verifies; a lookup error is returned as it is, before any
      verification. */
  function CheckGuiaccess(lookup: CookieLookup, jwtKeystring: string, parse: Verifier): (r: Ret<string>)
    ensures r.err.None? <==>
      lookup.Cookie? && parse(lookup.value, jwtKeystring).Parsed? && parse(lookup.value, jwtKeystring).valid
    ensures r.err.None? ==> r.value == "ok"
    ensures r.err.Some? ==> r.value == ""
    ensures !lookup.Cookie? ==> r == Ret("", CheckCookie(lookup).err)
    ensures lookup.Cookie? ==> r.err == CheckToken(lookup.value, jwtKeystring, parse).err
  {
    var cookie := CheckCookie(lookup);
    if cookie.err.Some? then Ret("", cookie.err)
    else
      var checked := CheckToken(cookie.value, jwtKeystring, parse);
      if checked.err.Some? then Ret("", checked.err) else Ret("ok", None)
  }
}
