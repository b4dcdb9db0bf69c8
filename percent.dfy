/** Form-value decoding as Go's `url.QueryUnescape` does it (percent
    encoding of section 2.1 of RFC 3986, plus `+` for a space as in
    `application/x-www-form-urlencoded`), and `url.QueryEscape` as the
    reference encoder it inverts. */
module Percent {
  import opened Common

  predicate IsHex(c: char)
  {
    '0' <= c <= '9' || 'a' <= c <= 'f' || 'A' <= c <= 'F'
  }

  function Unhex(c: char): (n: nat)
    requires IsHex(c)
    ensures n < 16
  {
    if '0' <= c <= '9' then c as int - '0' as int
    else if 'a' <= c <= 'f' then c as int - 'a' as int + 10
    else c as int - 'A' as int + 10
  }

  /** `url.QueryUnescape`: `%XX` becomes the byte XX, `+` becomes a space,
      anything else is copied; a `%` not followed by two hex digits makes
      the whole decoding fail. Only a `%` can make it fail, and it never
      lengthens its input. */
  function Unescape(s: string): (r: Option<string>)
    ensures r.None? ==> '%' in s
    ensures r.Some? ==> |r.value| <= |s|
    decreases |s|
  {
    if |s| == 0 then Some("")
    else if s[0] == '%' then
      if |s| >= 3 && IsHex(s[1]) && IsHex(s[2]) then
        match Unescape(s[3..])
        case None => None
        case Some(t) => Some([(Unhex(s[1]) * 16 + Unhex(s[2])) as char] + t)
      else None
    else
      match Unescape(s[1..])
      case None => None
      case Some(t) => Some([if s[0] == '+' then ' ' else s[0]] + t)
  }

  /** A string free of `%` always decodes, with every `+` read as a space. */
  lemma {:induction false} UnescapePlain(s: string)
    requires '%' !in s
    ensures Unescape(s).Some?
    ensures |Unescape(s).value| == |s|
    ensures forall i :: 0 <= i < |s| ==>
      Unescape(s).value[i] == if s[i] == '+' then ' ' else s[i]
    decreases |s|
  {
    if |s| > 0 {
      assert '%' !in s[1..] by {
        forall i | 0 <= i < |s[1..]| ensures s[1..][i] != '%' {
          assert s[1..][i] == s[i + 1];
        }
      }
      UnescapePlain(s[1..]);
    }
  }

  predicate IsBytes(s: string)
  {
    forall i :: 0 <= i < |s| ==> s[i] as int < 256
  }

  const UpperHex: string := "0123456789ABCDEF"

  /** The bytes `url.QueryEscape` leaves as they are. */
  predicate Unreserved(c: char)
  {
    'A' <= c <= 'Z' || 'a' <= c <= 'z' || '0' <= c <= '9' ||
    c == '-' || c == '_' || c == '.' || c == '~'
  }

  function EscapeByte(c: char): string
    requires c as int < 256
  {
    if Unreserved(c) then [c]
    else if c == ' ' then "+"
    else ['%', UpperHex[c as int / 16], UpperHex[c as int % 16]]
  }

  /** `url.QueryEscape`. */
  function Escape(s: string): string
    requires IsBytes(s)
    decreases |s|
  {
    if |s| == 0 then "" else EscapeByte(s[0]) + Escape(s[1..])
  }

  lemma UpperHexDigit(n: nat)
    requires n < 16
    ensures IsHex(UpperHex[n]) && Unhex(UpperHex[n]) == n
  {
  }

  /** Decoding one escaped byte followed by anything yields that byte in
      front of the decoding of the rest. */
  lemma UnescapeEscapedByte(c: char, rest: string)
    requires c as int < 256
    ensures Unescape(EscapeByte(c) + rest) ==
      match Unescape(rest)
      case None => None
      case Some(t) => Some([c] + t)
  {
    var e := EscapeByte(c);
    var s := e + rest;
    if Unreserved(c) || c == ' ' {
      assert s[1..] == rest;
    } else {
      var hi, lo := c as int / 16, c as int % 16;
      UpperHexDigit(hi);
      UpperHexDigit(lo);
      assert s[0] == '%' && s[1] == UpperHex[hi] && s[2] == UpperHex[lo];
      assert s[3..] == rest;
      assert (hi * 16 + lo) as char == c;
    }
  }

  /** Round trip: decoding what the encoder produced gives back the bytes. */
  lemma {:induction false} UnescapeEscape(s: string)
    requires IsBytes(s)
    ensures Unescape(Escape(s)) == Some(s)
    decreases |s|
  {
    if |s| > 0 {
      UnescapeEscape(s[1..]);
      UnescapeEscapedByte(s[0], Escape(s[1..]));
      assert [s[0]] + s[1..] == s;
    }
  }
}
