/** pgparse/pgparse.go: small helpers for HTTP handlers: a ten-byte
    suffix, the two required-field checks, key lower-casing and the parsing
    of a request body that is either JSON or an URL-encoded form.

    JSON handling is external: `decodeJson(body)` is `None` when
    `json.Valid(body)` is false and otherwise `Some(m)`, where `m` is what
    `json.Unmarshal` leaves in the fresh map. */
module PgParse {
  import opened Common
  import opened Text
  import Percent
  import RequiredFields

  /** A value of Go type `any` as `json.Unmarshal` produces it (numbers are
      kept as their text). */
  datatype JsonValue =
    | JNull
    | JBool(b: bool)
    | JNumber(text: string)
    | JString(s: string)
    | JArray(items: seq<JsonValue>)
    | JObject(fields: map<string, JsonValue>)

  const ParseBodyError: string := "unable to parse body. is it nil?"

  /** `Last10`: the last ten bytes of the input, or all of it when it is
      shorter. */
  function Last10(val: string): (r: string)
    ensures |r| == if |val| >= 10 then 10 else |val|
    ensures IsSuffix(r, val)
  {
    if |val| >= 10 then val[|val| - 10..] else val
  }

  /** Taking the last ten bytes twice is taking them once. */
  lemma Last10Idempotent(val: string)
    ensures Last10(Last10(val)) == Last10(val)
  {
  }

  /** The keys `CheckFields` accepts: present with a non-empty value. */
  function NonEmptyKeys(m: map<string, string>): set<string>
  {
    set k | k in m && m[k] != ""
  }

  /** `CheckFields`: a required key is missing when it is absent or mapped
      to ""; succeeds exactly when no required key is missing, and otherwise
      fails with `key + " is missing. "` for each missing key, in order. */
  method CheckFields(mapstring: map<string, string>, reqfields: seq<string>) returns (ok: bool, err: Option<string>)
    ensures ok <==> forall k :: k in reqfields ==> k in mapstring && mapstring[k] != ""
    ensures ok ==> err == None
    ensures !ok ==> err == Some(RequiredFields.Missing(NonEmptyKeys(mapstring), reqfields))
  {
    var errstring := RequiredFields.CollectMissing(NonEmptyKeys(mapstring), reqfields);
    if |errstring| > 0 {
      ok, err := false, Some(errstring);
    } else {
      ok, err := true, None;
    }
  }

  /** The keys `CheckFieldsAny` accepts: `mapstring[key] != ""` compares an
      interface value with a string, so only the string "" fails; any
      non-string value passes. */
  function NonEmptyAnyKeys(m: map<string, JsonValue>): set<string>
  {
    set k | k in m && m[k] != JString("")
  }

  /** `CheckFieldsAny`: as `CheckFields`, over a map of JSON values. */
  method CheckFieldsAny(mapstring: map<string, JsonValue>, reqfields: seq<string>) returns (ok: bool, err: Option<string>)
    ensures ok <==> forall k :: k in reqfields ==> k in mapstring && mapstring[k] != JString("")
    ensures ok ==> err == None
    ensures !ok ==> err == Some(RequiredFields.Missing(NonEmptyAnyKeys(mapstring), reqfields))
  {
    var errstring := RequiredFields.CollectMissing(NonEmptyAnyKeys(mapstring), reqfields);
    if |errstring| > 0 {
      ok, err := false, Some(errstring);
    } else {
      ok, err := true, None;
    }
  }

  /** `LowerKeys`: copies the map under lower-cased keys. Go visits the keys
      in an unspecified order, so when two keys lower-case alike either value
      may survive; the loop picks the next key arbitrarily. */
  method LowerKeys(keyVal: map<string, string>) returns (lf: map<string, string>)
    ensures forall k :: k in keyVal ==> ToLower(k) in lf
    ensures forall k' :: k' in lf ==> exists k :: k in keyVal && ToLower(k) == k' && lf[k'] == keyVal[k]
    ensures forall k :: k in keyVal && (forall k2 :: k2 in keyVal && ToLower(k2) == ToLower(k) ==> k2 == k)
              ==> lf[ToLower(k)] == keyVal[k]
    ensures |lf| <= |keyVal|
  {
    lf := map[];
    var rest := keyVal.Keys;
    // origin[k'] is the input key whose value lf[k'] currently holds
    ghost var origin: map<string, string> := map[];
    while rest != {}
      invariant rest <= keyVal.Keys
      invariant LoweredFrom(keyVal, rest, lf, origin)
      invariant |lf.Keys| + |rest| <= |keyVal.Keys|
      decreases rest
    {
      var k :| k in rest;
      LoweredStep(keyVal, rest, lf, origin, k);
      CountStep(lf, rest, ToLower(k), keyVal[k], k);
      lf := lf[ToLower(k) := keyVal[k]];
      origin := origin[ToLower(k) := k];
      rest := rest - {k};
    }
    LoweredDone(keyVal, lf, origin);
  }

  /** The loop invariant of `LowerKeys`: every key no longer in `rest` is
      copied, and `origin` names, for each output key, the input key it was
      copied from. */
  ghost predicate LoweredFrom(keyVal: map<string, string>, rest: set<string>, lf: map<string, string>, origin: map<string, string>)
  {
    && origin.Keys == lf.Keys
    && (forall k :: k in keyVal && k !in rest ==> ToLower(k) in lf)
    && (forall k' :: k' in origin ==>
          origin[k'] !in rest && origin[k'] in keyVal && ToLower(origin[k']) == k' && lf[k'] == keyVal[origin[k']])
  }

  lemma LoweredStep(keyVal: map<string, string>, rest: set<string>, lf: map<string, string>, origin: map<string, string>, k: string)
    requires LoweredFrom(keyVal, rest, lf, origin)
    requires k in keyVal
    ensures LoweredFrom(keyVal, rest - {k}, lf[ToLower(k) := keyVal[k]], origin[ToLower(k) := k])
  {
  }

  lemma LoweredDone(keyVal: map<string, string>, lf: map<string, string>, origin: map<string, string>)
    requires LoweredFrom(keyVal, {}, lf, origin)
    ensures forall k :: k in keyVal ==> ToLower(k) in lf
    ensures forall k' :: k' in lf ==> exists k :: k in keyVal && ToLower(k) == k' && lf[k'] == keyVal[k]
    ensures forall k :: k in keyVal && (forall k2 :: k2 in keyVal && ToLower(k2) == ToLower(k) ==> k2 == k)
              ==> lf[ToLower(k)] == keyVal[k]
  {
    forall k' | k' in lf ensures exists k :: k in keyVal && ToLower(k) == k' && lf[k'] == keyVal[k] {
      assert ToLower(origin[k']) == k';
    }
  }

  /** Storing one key in a map while taking one element out of a set
      keeps their combined size from growing. */
  lemma CountStep(m: map<string, string>, r: set<string>, x: string, v: string, k: string)
    requires k in r
    ensures |m[x := v].Keys| + |r - {k}| <= |m.Keys| + |r|
  {
    assert m[x := v].Keys == m.Keys + {x};
  }

  /** The raw value of a form pair decoded as `url.QueryUnescape` does, or
      kept raw when decoding fails. */
  function DecodeValue(raw: string): (v: string)
    ensures Percent.Unescape(raw).None? ==> v == raw
    ensures Percent.Unescape(raw).Some? ==> v == Percent.Unescape(raw).value
    ensures |v| <= |raw|
  {
    match Percent.Unescape(raw)
    case Some(d) => d
    case None => raw
  }

  /** The key of a form pair: `strings.Split(pair, "=")[0]`. */
  function PairKey(pair: string): string
  {
    Split(pair, '=')[0]
  }

  /** The stored value of a form pair: `strings.Split(pair, "=")[1]`,
      decoded. The source indexes `[1]` unguarded, so the pair must contain
      an "=". */
  function PairValue(pair: string): string
    requires '=' in pair
  {
    SplitAtLeastTwo(pair, '=');
    DecodeValue(Split(pair, '=')[1])
  }

  /** The key is the text before the first "=", the value the text between
      the first and the second "="; anything after a second "=" is dropped. */
  lemma PairParts(key: string, value: string, tail: string)
    requires '=' !in key && '=' !in value
    ensures PairKey(key + "=" + value + tail) == key
    ensures tail == "" || tail[0] == '=' ==> PairValue(key + "=" + value + tail) == DecodeValue(value)
  {
    var pair := key + "=" + value + tail;
    assert pair == key + ['='] + (value + tail);
    SplitAt(key, value + tail, '=');
    if tail == "" {
      assert value + tail == value;
      SplitWithout(value, '=');
    } else if tail[0] == '=' {
      assert value + tail == value + ['='] + tail[1..];
      SplitAt(value, tail[1..], '=');
    }
  }

  predicate PairsWellFormed(pairs: seq<string>)
  {
    forall i :: 0 <= i < |pairs| ==> '=' in pairs[i]
  }

  /** A form body the parser can handle: every "&"-separated piece holds an
      "=". */
  predicate FormWellFormed(body: string)
  {
    PairsWellFormed(Split(body, '&'))
  }

  /** The map the form loop builds from its pairs, stored left to right. */
  function FormMap(pairs: seq<string>): map<string, string>
    requires PairsWellFormed(pairs)
    decreases |pairs|
  {
    if |pairs| == 0 then map[]
    else
      var last := pairs[|pairs| - 1];
      FormMap(pairs[..|pairs| - 1])[PairKey(last) := PairValue(last)]
  }

  /** Every key comes from some pair and every pair's key is stored. */
  lemma {:induction false} FormMapKeys(pairs: seq<string>)
    requires PairsWellFormed(pairs)
    ensures forall k :: k in FormMap(pairs) <==> exists i :: 0 <= i < |pairs| && PairKey(pairs[i]) == k
    decreases |pairs|
  {
    if |pairs| > 0 {
      var n := |pairs| - 1;
      FormMapKeys(pairs[..n]);
      forall k | k in FormMap(pairs) ensures exists i :: 0 <= i < |pairs| && PairKey(pairs[i]) == k {
        if k != PairKey(pairs[n]) {
          assert k in FormMap(pairs[..n]);
          var i :| 0 <= i < n && PairKey(pairs[..n][i]) == k;
          assert PairKey(pairs[i]) == k;
        }
      }
      forall k | exists i :: 0 <= i < |pairs| && PairKey(pairs[i]) == k ensures k in FormMap(pairs) {
        var i :| 0 <= i < |pairs| && PairKey(pairs[i]) == k;
        if i < n {
          assert PairKey(pairs[..n][i]) == k;
        }
      }
    }
  }

  /** A later pair with the same key overwrites an earlier one: a key holds
      the value of its last pair. */
  lemma {:induction false} FormMapLastWins(pairs: seq<string>, j: nat)
    requires PairsWellFormed(pairs)
    requires j < |pairs|
    requires forall j' :: j < j' < |pairs| ==> PairKey(pairs[j']) != PairKey(pairs[j])
    ensures PairKey(pairs[j]) in FormMap(pairs)
    ensures FormMap(pairs)[PairKey(pairs[j])] == PairValue(pairs[j])
    decreases |pairs|
  {
    var n := |pairs| - 1;
    if j < n {
      FormMapLastWins(pairs[..n], j);
    }
  }

  /** The form branch of `ParseBody`: split on "&", split each piece on
      "=", and store the decoded (or raw) value under the key. */
  method ParseForm(body: string) returns (bodyVal: map<string, string>)
    requires FormWellFormed(body)
    ensures bodyVal == FormMap(Split(body, '&'))
  {
    var stringsplit := Split(body, '&');
    bodyVal := map[];
    var i := 0;
    while i < |stringsplit|
      invariant 0 <= i <= |stringsplit|
      invariant bodyVal == FormMap(stringsplit[..i])
    {
      var pair := stringsplit[i];
      SplitAtLeastTwo(pair, '=');
      var z := Split(pair, '=');
      var decoded := Percent.Unescape(z[1]);
      assert stringsplit[..i + 1][..i] == stringsplit[..i];
      if decoded.None? {
        bodyVal := bodyVal[z[0] := z[1]];
      } else {
        bodyVal := bodyVal[z[0] := decoded.value];
      }
      i := i + 1;
    }
    assert stringsplit[..i] == stringsplit;
  }

  /** `ParseBody`: a JSON body is unmarshalled, anything else is parsed as
      a form. */
  method ParseBody(body: string, decodeJson: string -> Option<map<string, string>>) returns (bodyVal: map<string, string>)
    requires decodeJson(body).None? ==> FormWellFormed(body)
    ensures decodeJson(body).Some? ==> bodyVal == decodeJson(body).value
    ensures decodeJson(body).None? ==> bodyVal == FormMap(Split(body, '&'))
  {
    var json := decodeJson(body);
    if json.Some? {
      bodyVal := json.value;
    } else {
      bodyVal := ParseForm(body);
    }
  }

  /** `ParseBodyErr`: as `ParseBody`, except that a body that is neither
      JSON nor contains "&" is refused, even a single `k=v` pair. */
  method ParseBodyErr(body: string, decodeJson: string -> Option<map<string, string>>) returns (r: Ret<map<string, string>>)
    requires decodeJson(body).None? && '&' in body ==> FormWellFormed(body)
    ensures decodeJson(body).Some? ==> r == Ret(decodeJson(body).value, None)
    ensures decodeJson(body).None? && '&' in body ==> r == Ret(FormMap(Split(body, '&')), None)
    ensures decodeJson(body).None? && '&' !in body ==> r == Ret(map[], Some(ParseBodyError))
  {
    var json := decodeJson(body);
    if json.Some? {
      r := Ret(json.value, None);
    } else if '&' in body {
      var bodyVal := ParseForm(body);
      r := Ret(bodyVal, None);
    } else {
      r := Ret(map[], Some(ParseBodyError));
    }
  }

  /** A form map seen as a map of `any`: every value is a string. */
  function AsAny(m: map<string, string>): (a: map<string, JsonValue>)
    ensures a.Keys == m.Keys
    ensures forall k :: k in m ==> a[k] == JString(m[k])
  {
    map k | k in m :: JString(m[k])
  }

  /** `ParseBodyErrAny`: `ParseBodyErr` producing a map of `any`. */
  method ParseBodyErrAny(body: string, decodeJson: string -> Option<map<string, JsonValue>>) returns (r: Ret<map<string, JsonValue>>)
    requires decodeJson(body).None? && '&' in body ==> FormWellFormed(body)
    ensures decodeJson(body).Some? ==> r == Ret(decodeJson(body).value, None)
    ensures decodeJson(body).None? && '&' in body ==> r == Ret(AsAny(FormMap(Split(body, '&'))), None)
    ensures decodeJson(body).None? && '&' !in body ==> r == Ret(map[], Some(ParseBodyError))
  {
    var json := decodeJson(body);
    if json.Some? {
      r := Ret(json.value, None);
    } else if '&' in body {
      var bodyVal := ParseForm(body);
      r := Ret(AsAny(bodyVal), None);
    } else {
      r := Ret(map[], Some(ParseBodyError));
    }
  }

  /** `ParseBodyFields`: read the body (`read` is the outcome of
      `io.ReadAll`), parse it, then check the required fields. A read or
      parse error is returned before any field is checked; a failed check
      still returns the parsed map with its error. */
  method ParseBodyFields(read: Result<string>, decodeJson: string -> Option<map<string, string>>, reqfields: seq<string>)
    returns (r: Ret<map<string, string>>)
    requires read.Ok? && decodeJson(read.value).None? && '&' in read.value ==> FormWellFormed(read.value)
    ensures read.Err? ==> r == Ret(map[], Some(read.error))
    ensures read.Ok? && decodeJson(read.value).None? && '&' !in read.value ==> r == Ret(map[], Some(ParseBodyError))
    ensures read.Ok? && (decodeJson(read.value).Some? || '&' in read.value) ==>
      var parsed := if decodeJson(read.value).Some? then decodeJson(read.value).value
                    else FormMap(Split(read.value, '&'));
      r.value == parsed &&
      r.err == (if forall k :: k in reqfields ==> k in parsed && parsed[k] != "" then None
                else Some(RequiredFields.Missing(NonEmptyKeys(parsed), reqfields)))
  {
    if read.Err? {
      return Ret(map[], Some(read.error));
    }
    var parsed := ParseBodyErr(read.value, decodeJson);
    if parsed.err.Some? {
      return parsed;
    }
    var _, err := CheckFields(parsed.value, reqfields);
    if err.Some? {
      return Ret(parsed.value, err);
    }
    return Ret(parsed.value, None);
  }

  /** `ParseBodyFieldsAny`: `ParseBodyFields` over a map of `any`. */
  method ParseBodyFieldsAny(read: Result<string>, decodeJson: string -> Option<map<string, JsonValue>>, reqfields: seq<string>)
    returns (r: Ret<map<string, JsonValue>>)
    requires read.Ok? && decodeJson(read.value).None? && '&' in read.value ==> FormWellFormed(read.value)
    ensures read.Err? ==> r == Ret(map[], Some(read.error))
    ensures read.Ok? && decodeJson(read.value).None? && '&' !in read.value ==> r == Ret(map[], Some(ParseBodyError))
    ensures read.Ok? && (decodeJson(read.value).Some? || '&' in read.value) ==>
      var parsed := if decodeJson(read.value).Some? then decodeJson(read.value).value
                    else AsAny(FormMap(Split(read.value, '&')));
      r.value == parsed &&
      r.err == (if forall k :: k in reqfields ==> k in parsed && parsed[k] != JString("") then None
                else Some(RequiredFields.Missing(NonEmptyAnyKeys(parsed), reqfields)))
  {
    if read.Err? {
      return Ret(map[], Some(read.error));
    }
    var parsed := ParseBodyErrAny(read.value, decodeJson);
    if parsed.err.Some? {
      return parsed;
    }
    var _, err := CheckFieldsAny(parsed.value, reqfields);
    if err.Some? {
      return Ret(parsed.value, err);
    }
    return Ret(parsed.value, None);
  }
}
