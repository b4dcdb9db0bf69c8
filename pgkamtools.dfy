/** pgkamtools/pgkamtools.go: JSON-RPC calls to a Kamailio SIP server
    (dispatcher, htable, usrloc, core) and the reshaping of its dump
    responses.

    The JSON libraries stay abstract. A `JsonLib` says whether a text is
    valid JSON, what its `error.message` member is (when it exists, even
    when it is empty) and what `json.Unmarshal` yields. The response
    structs are modelled already unmarshalled, each `json.RawMessage` as
    its raw text. A reshaper returns the Go slice it would marshal; the
    indented text `json.MarshalIndent` makes of it is not modelled. The
    HTTP round trip is a `Transport`, and the request id `getId` reads from
    the clock is a parameter. */
module KamTools {
  import opened Common
  import RequiredFields

  // ---------------------------------------------------------------------
  // CheckFields

  /** `CheckFields`: (true, nil) exactly when every required key is in the
      map, whatever its value; otherwise false with `key + " is missing. "`
      for each absent key, in `reqfields` order. */
  method CheckFields(mapstring: map<string, string>, reqfields: seq<string>) returns (ok: bool, err: Option<string>)
    ensures ok <==> forall k :: k in reqfields ==> k in mapstring
    ensures ok ==> err == None
    ensures !ok ==> err == Some(RequiredFields.Missing(mapstring.Keys, reqfields))
  {
    var errstring := RequiredFields.CollectMissing(mapstring.Keys, reqfields);
    if |errstring| > 0 {
      return false, Some(errstring);
    } else {
      return true, None;
    }
  }

  // ---------------------------------------------------------------------
  // RemoveDuplicatesUnordered

  predicate NoDuplicates(s: seq<string>)
  {
    forall i, j :: 0 <= i < j < |s| ==> s[i] != s[j]
  }

  /** `RemoveDuplicatesUnordered`: every element once. The first loop
      records the elements as map keys; the second drains the keys in the
      map's (unspecified) iteration order, modelled as an arbitrary choice. */
  method RemoveDuplicatesUnordered(elements: seq<string>) returns (result: seq<string>)
    ensures forall x :: x in result <==> x in elements
    ensures NoDuplicates(result)
    ensures |result| <= |elements|
  {
    var encountered: map<string, bool> := map[];
    for v := 0 to |elements|
      invariant forall x :: x in encountered <==> x in elements[..v]
      invariant |encountered.Keys| <= v
    {
      assert encountered[elements[v] := true].Keys == encountered.Keys + {elements[v]};
      encountered := encountered[elements[v] := true];
    }
    assert elements[..|elements|] == elements;

    result := [];
    var rest := encountered.Keys;
    while rest != {}
      invariant rest <= encountered.Keys
      invariant forall x :: x in result <==> x in encountered && x !in rest
      invariant NoDuplicates(result)
      invariant |result| + |rest| == |encountered.Keys|
      decreases |rest|
    {
      var key :| key in rest;
      result := result + [key];
      rest := rest - {key};
    }
  }

  // ---------------------------------------------------------------------
  // The validation prelude of every dump reshaper

  /** What the JSON libraries report about a response text. */
  datatype JsonLib<T> = JsonLib(
    valid: string -> bool,
    errorMessage: string -> Option<string>,
    unmarshal: string -> Result<T>)

  const InvalidJson: string := "invalid json"
  const InvalidJsonReceived: string := "invalid json received"

  /** The shared prelude: invalid JSON is rejected first, with the
      reshaper's own message; then an `error.message` member, even an empty
      one, fails with its text; then an unmarshal error is returned. Only
      when all three pass is the dump handed on. */
  function Prelude<T>(jsonval: string, lib: JsonLib<T>, invalidMessage: string): (r: Result<T>)
    ensures r.Ok? <==> lib.valid(jsonval) && lib.errorMessage(jsonval).None? && lib.unmarshal(jsonval).Ok?
    ensures !lib.valid(jsonval) ==> r == Err(invalidMessage)
    ensures lib.valid(jsonval) && lib.errorMessage(jsonval).Some? ==> r == Err(lib.errorMessage(jsonval).value)
    ensures r.Ok? ==> r.value == lib.unmarshal(jsonval).value
  {
    if !lib.valid(jsonval) then Err(invalidMessage)
    else if lib.errorMessage(jsonval).Some? then Err(lib.errorMessage(jsonval).value)
    else lib.unmarshal(jsonval)
  }

  /** The order of the checks: an invalid text is refused with the
      reshaper's message whatever error envelope the library would find,
      and an envelope is reported whatever the unmarshalling would give. */
  lemma PreludeOrder<T>(jsonval: string, lib1: JsonLib<T>, lib2: JsonLib<T>, invalidMessage: string)
    requires lib1.valid(jsonval) == lib2.valid(jsonval)
    requires lib1.errorMessage(jsonval) == lib2.errorMessage(jsonval)
    requires !lib1.valid(jsonval) || lib1.errorMessage(jsonval).Some?
    ensures Prelude(jsonval, lib1, invalidMessage) == Prelude(jsonval, lib2, invalidMessage)
  {
  }

  // ---------------------------------------------------------------------
  // htable dumps

  /** One `slot` of an `htable.dump` result; `name` and `value` are raw
      JSON. */
  datatype Slot = Slot(name: string, value: string, slotType: string)

  /** One element of `result`; its `entry` and `size` are never read. */
  datatype HtableResult = HtableResult(slots: seq<Slot>)

  datatype HtableDumpReply = HtableDumpReply(jsonrpc: string, id: string, result: seq<HtableResult>)

  datatype NameValue = NameValue(name: string, value: string)
  datatype NameEntry = NameEntry(name: string)
  datatype ValueEntry = ValueEntry(value: string)

  /** The slots of all results: results in order, slots in order within a
      result. */
  function AllSlots(results: seq<HtableResult>): seq<Slot>
    decreases |results|
  {
    if |results| == 0 then []
    else AllSlots(results[..|results| - 1]) + results[|results| - 1].slots
  }

  /** The sum of the slot counts. */
  function SlotCount(results: seq<HtableResult>): nat
    decreases |results|
  {
    if |results| == 0 then 0
    else SlotCount(results[..|results| - 1]) + |results[|results| - 1].slots|
  }

  /** Every slot is visited once: there are as many as the counts add up
      to. */
  lemma {:induction false} AllSlotsCount(results: seq<HtableResult>)
    ensures |AllSlots(results)| == SlotCount(results)
    decreases |results|
  {
    if |results| > 0 {
      AllSlotsCount(results[..|results| - 1]);
    }
  }

  /** Slot j of result i comes right after the slots of the results before
      it. */
  lemma {:induction false} AllSlotsPosition(results: seq<HtableResult>, i: nat, j: nat)
    requires i < |results| && j < |results[i].slots|
    ensures SlotCount(results[..i]) + j < |AllSlots(results)|
    ensures AllSlots(results)[SlotCount(results[..i]) + j] == results[i].slots[j]
    decreases |results|
  {
    var n := |results| - 1;
    AllSlotsCount(results[..i]);
    if i == n {
      assert results[..n] == results[..i];
    } else {
      assert results[..n][..i] == results[..i];
      AllSlotsPosition(results[..n], i, j);
    }
  }

  /** `items` holds one entry per slot, made by `pick`, in slot order. */
  ghost predicate Picked<E>(items: seq<E>, slots: seq<Slot>, pick: Slot -> E)
  {
    |items| == |slots| && forall k :: 0 <= k < |items| ==> items[k] == pick(slots[k])
  }

  /** The nested loop of the htable reshapers: one entry per slot, appended
      to a slice that stays nil when there is no slot. */
  method CollectSlots<E>(results: seq<HtableResult>, pick: Slot -> E) returns (parsed: Slice<E>)
    ensures parsed.Nil? <==> |AllSlots(results)| == 0
    ensures Picked(parsed.Items(), AllSlots(results), pick)
  {
    parsed := Nil;
    for i := 0 to |results|
      invariant parsed.Nil? <==> |AllSlots(results[..i])| == 0
      invariant Picked(parsed.Items(), AllSlots(results[..i]), pick)
    {
      var done := AllSlots(results[..i]);
      var slots := results[i].slots;
      assert results[..i + 1][..i] == results[..i];
      assert AllSlots(results[..i + 1]) == done + slots;
      for j := 0 to |slots|
        invariant parsed.Nil? <==> |done + slots[..j]| == 0
        invariant Picked(parsed.Items(), done + slots[..j], pick)
      {
        assert done + slots[..j + 1] == (done + slots[..j]) + [slots[j]];
        parsed := parsed.Append(pick(slots[j]));
      }
      assert slots[..|slots|] == slots;
    }
    assert results[..|results|] == results;
  }

  /** `HtableParseNameValue`: after the prelude, one {name, value} per slot,
      both copied unchanged. */
  method HtableParseNameValue(jsonval: string, lib: JsonLib<HtableDumpReply>) returns (r: Result<Slice<NameValue>>)
    ensures var p := Prelude(jsonval, lib, InvalidJsonReceived);
      && (p.Err? ==> r == Err(p.error))
      && (p.Ok? ==>
            && r.Ok?
            && (r.value.Nil? <==> |AllSlots(p.value.result)| == 0)
            && Picked(r.value.Items(), AllSlots(p.value.result), (s: Slot) => NameValue(s.name, s.value)))
  {
    var dump := Prelude(jsonval, lib, InvalidJsonReceived);
    if dump.Err? {
      return Err(dump.error);
    }
    var parsed := CollectSlots(dump.value.result, (s: Slot) => NameValue(s.name, s.value));
    return Ok(parsed);
  }

  /** `HtableParseNameOnly`: after the prelude, one {name} per slot, whose
      name is the slot's VALUE. */
  method HtableParseNameOnly(jsonval: string, lib: JsonLib<HtableDumpReply>) returns (r: Result<Slice<NameEntry>>)
    ensures var p := Prelude(jsonval, lib, InvalidJson);
      && (p.Err? ==> r == Err(p.error))
      && (p.Ok? ==>
            && r.Ok?
            && (r.value.Nil? <==> |AllSlots(p.value.result)| == 0)
            && Picked(r.value.Items(), AllSlots(p.value.result), (s: Slot) => NameEntry(s.value)))
  {
    var dump := Prelude(jsonval, lib, InvalidJson);
    if dump.Err? {
      return Err(dump.error);
    }
    var parsed := CollectSlots(dump.value.result, (s: Slot) => NameEntry(s.value));
    return Ok(parsed);
  }

  /** `HtableParseValueOnly`: after the prelude, one {value} per slot. */
  method HtableParseValueOnly(jsonval: string, lib: JsonLib<HtableDumpReply>) returns (r: Result<Slice<ValueEntry>>)
    ensures var p := Prelude(jsonval, lib, InvalidJsonReceived);
      && (p.Err? ==> r == Err(p.error))
      && (p.Ok? ==>
            && r.Ok?
            && (r.value.Nil? <==> |AllSlots(p.value.result)| == 0)
            && Picked(r.value.Items(), AllSlots(p.value.result), (s: Slot) => ValueEntry(s.value)))
  {
    var dump := Prelude(jsonval, lib, InvalidJsonReceived);
    if dump.Err? {
      return Err(dump.error);
    }
    var parsed := CollectSlots(dump.value.result, (s: Slot) => ValueEntry(s.value));
    return Ok(parsed);
  }

  // ---------------------------------------------------------------------
  // usrloc dumps

  /** The contact fields the reshaper reads, as raw JSON. */
  datatype Contact = Contact(address: string, expires: string, userAgent: string, lastModified: string)

  /** An `Info` of an AoR: its name and its contacts. */
  datatype AoRInfo = AoRInfo(aor: string, contacts: seq<Contact>)

  datatype Domain = Domain(domain: string, aors: seq<AoRInfo>)

  datatype UserDump = UserDump(domains: seq<Domain>)

  /** One output record of `RegAorParse`. */
  datatype AoRRecord = AoRRecord(aor: string, address: string, expires: string, userAgent: string, lastModified: string)

  /** `formatLastModifed`: a readable time, or an error. */
  type Formatter = string -> Result<string>

  /** The last-modified text stored: the formatted time, or "" when
      formatting fails (the error is dropped). */
  function LastModified(raw: string, format: Formatter): string
  {
    match format(raw)
    case Ok(text) => text
    case Err(_) => ""
  }

  function ContactRecord(aor: string, c: Contact, format: Formatter): AoRRecord
  {
    AoRRecord(aor, c.address, c.expires, c.userAgent, LastModified(c.lastModified, format))
  }

  /** The records of one AoR: one per contact, in order. */
  function AorRecords(a: AoRInfo, format: Formatter): seq<AoRRecord>
  {
    seq(|a.contacts|, k requires 0 <= k < |a.contacts| => ContactRecord(a.aor, a.contacts[k], format))
  }

  function AorsRecords(aors: seq<AoRInfo>, format: Formatter): seq<AoRRecord>
    decreases |aors|
  {
    if |aors| == 0 then []
    else AorsRecords(aors[..|aors| - 1], format) + AorRecords(aors[|aors| - 1], format)
  }

  function DomainsRecords(domains: seq<Domain>, format: Formatter): seq<AoRRecord>
    decreases |domains|
  {
    if |domains| == 0 then []
    else DomainsRecords(domains[..|domains| - 1], format) + AorsRecords(domains[|domains| - 1].aors, format)
  }

  function AorsContactCount(aors: seq<AoRInfo>): nat
    decreases |aors|
  {
    if |aors| == 0 then 0
    else AorsContactCount(aors[..|aors| - 1]) + |aors[|aors| - 1].contacts|
  }

  /** The number of contacts over all domains and AoRs. */
  function ContactCount(domains: seq<Domain>): nat
    decreases |domains|
  {
    if |domains| == 0 then 0
    else ContactCount(domains[..|domains| - 1]) + AorsContactCount(domains[|domains| - 1].aors)
  }

  lemma {:induction false} AorsRecordsCount(aors: seq<AoRInfo>, format: Formatter)
    ensures |AorsRecords(aors, format)| == AorsContactCount(aors)
    decreases |aors|
  {
    if |aors| > 0 {
      AorsRecordsCount(aors[..|aors| - 1], format);
    }
  }

  /** Exactly one record per contact. */
  lemma {:induction false} RecordCount(domains: seq<Domain>, format: Formatter)
    ensures |DomainsRecords(domains, format)| == ContactCount(domains)
    decreases |domains|
  {
    if |domains| > 0 {
      RecordCount(domains[..|domains| - 1], format);
      AorsRecordsCount(domains[|domains| - 1].aors, format);
    }
  }

  /** Within one domain, contact c of AoR a is the record right after the
      contacts of the AoRs before it. */
  lemma {:induction false} AorsRecordsPosition(aors: seq<AoRInfo>, a: nat, c: nat, format: Formatter)
    requires a < |aors| && c < |aors[a].contacts|
    ensures AorsContactCount(aors[..a]) + c < |AorsRecords(aors, format)|
    ensures AorsRecords(aors, format)[AorsContactCount(aors[..a]) + c] ==
      ContactRecord(aors[a].aor, aors[a].contacts[c], format)
    decreases |aors|
  {
    var n := |aors| - 1;
    AorsRecordsCount(aors[..a], format);
    if a == n {
      assert aors[..n] == aors[..a];
    } else {
      assert aors[..n][..a] == aors[..a];
      AorsRecordsPosition(aors[..n], a, c, format);
    }
  }

  /** Exactly one record per contact, in order: contact c of AoR a of
      domain d is the record after the contacts of every domain before d
      and of every AoR before a in d. */
  lemma {:induction false} RecordPosition(domains: seq<Domain>, d: nat, a: nat, c: nat, format: Formatter)
    requires d < |domains| && a < |domains[d].aors| && c < |domains[d].aors[a].contacts|
    ensures ContactCount(domains[..d]) + AorsContactCount(domains[d].aors[..a]) + c < |DomainsRecords(domains, format)|
    ensures DomainsRecords(domains, format)[ContactCount(domains[..d]) + AorsContactCount(domains[d].aors[..a]) + c] ==
      ContactRecord(domains[d].aors[a].aor, domains[d].aors[a].contacts[c], format)
    decreases |domains|
  {
    var n := |domains| - 1;
    RecordCount(domains[..d], format);
    AorsRecordsPosition(domains[d].aors, a, c, format);
    if d == n {
      assert domains[..n] == domains[..d];
    } else {
      assert domains[..n][..d] == domains[..d];
      RecordPosition(domains[..n], d, a, c, format);
    }
  }

  /** Within one domain, every record is a contact of one of its AoRs,
      tagged with that AoR. */
  lemma {:induction false} AorsRecordsTagged(aors: seq<AoRInfo>, format: Formatter, rec: AoRRecord)
    requires rec in AorsRecords(aors, format)
    ensures exists a, c ::
      && 0 <= a < |aors| && 0 <= c < |aors[a].contacts|
      && rec == ContactRecord(aors[a].aor, aors[a].contacts[c], format)
    decreases |aors|
  {
    var n := |aors| - 1;
    if rec in AorsRecords(aors[..n], format) {
      AorsRecordsTagged(aors[..n], format, rec);
      var a, c :| 0 <= a < n && 0 <= c < |aors[..n][a].contacts| &&
        rec == ContactRecord(aors[..n][a].aor, aors[..n][a].contacts[c], format);
      assert aors[..n][a] == aors[a];
    } else {
      var c :| 0 <= c < |AorRecords(aors[n], format)| && AorRecords(aors[n], format)[c] == rec;
      assert rec == ContactRecord(aors[n].aor, aors[n].contacts[c], format);
    }
  }

  /** Every record is a contact of some AoR of some domain, tagged with
      that AoR, its last-modified time formatted. */
  lemma {:induction false} RecordsTagged(domains: seq<Domain>, format: Formatter, rec: AoRRecord)
    requires rec in DomainsRecords(domains, format)
    ensures exists d, a, c ::
      && 0 <= d < |domains| && 0 <= a < |domains[d].aors| && 0 <= c < |domains[d].aors[a].contacts|
      && rec == ContactRecord(domains[d].aors[a].aor, domains[d].aors[a].contacts[c], format)
    decreases |domains|
  {
    var n := |domains| - 1;
    if rec in DomainsRecords(domains[..n], format) {
      RecordsTagged(domains[..n], format, rec);
      var d, a, c :| 0 <= d < n && 0 <= a < |domains[..n][d].aors| &&
        0 <= c < |domains[..n][d].aors[a].contacts| &&
        rec == ContactRecord(domains[..n][d].aors[a].aor, domains[..n][d].aors[a].contacts[c], format);
      assert domains[..n][d] == domains[d];
    } else {
      AorsRecordsTagged(domains[n].aors, format, rec);
      var a, c :| 0 <= a < |domains[n].aors| && 0 <= c < |domains[n].aors[a].contacts| &&
        rec == ContactRecord(domains[n].aors[a].aor, domains[n].aors[a].contacts[c], format);
    }
  }

  lemma {:induction false} AorsRecordsAppend(x: seq<AoRInfo>, y: seq<AoRInfo>, format: Formatter)
    ensures AorsRecords(x + y, format) == AorsRecords(x, format) + AorsRecords(y, format)
    decreases |y|
  {
    if |y| == 0 {
      assert x + y == x;
    } else {
      var n := |y| - 1;
      assert (x + y)[..|x + y| - 1] == x + y[..n];
      AorsRecordsAppend(x, y[..n], format);
    }
  }

  /** An AoR without contacts contributes nothing: dropping it leaves the
      records unchanged. */
  lemma AorWithoutContacts(aors: seq<AoRInfo>, a: nat, format: Formatter)
    requires a < |aors| && aors[a].contacts == []
    ensures AorsRecords(aors, format) == AorsRecords(aors[..a] + aors[a + 1..], format)
  {
    var before, after := aors[..a], aors[a + 1..];
    assert aors == before + ([aors[a]] + after);
    calc {
      AorsRecords(aors, format);
      { AorsRecordsAppend(before, [aors[a]] + after, format); }
      AorsRecords(before, format) + AorsRecords([aors[a]] + after, format);
      { AorsRecordsAppend([aors[a]], after, format); AorsRecordsSingle(aors[a], format); }
      AorsRecords(before, format) + AorsRecords(after, format);
      { AorsRecordsAppend(before, after, format); }
      AorsRecords(before + after, format);
    }
  }

  lemma AorsRecordsSingle(info: AoRInfo, format: Formatter)
    requires info.contacts == []
    ensures AorsRecords([info], format) == []
  {
    assert [info][..0] == [];
    assert AorRecords(info, format) == [];
  }

  /** A last-modified value that cannot be formatted is stored as "". */
  lemma UnformattableIsEmpty(aor: string, c: Contact, format: Formatter)
    requires format(c.lastModified).Err?
    ensures ContactRecord(aor, c, format).lastModified == ""
    ensures ContactRecord(aor, c, format).address == c.address
  {
  }

  /** `RegAorParse`: after the prelude, one record per contact, walking
      domains, AoRs and contacts in order. A formatting failure never makes
      the call fail. */
  method RegAorParse(jsonval: string, lib: JsonLib<UserDump>, format: Formatter) returns (r: Result<Slice<AoRRecord>>)
    ensures var p := Prelude(jsonval, lib, InvalidJson);
      && (p.Err? ==> r == Err(p.error))
      && (p.Ok? ==>
            && r.Ok?
            && r.value.Items() == DomainsRecords(p.value.domains, format)
            && (r.value.Nil? <==> |r.value.Items()| == 0))
  {
    var dump := Prelude(jsonval, lib, InvalidJson);
    if dump.Err? {
      return Err(dump.error);
    }
    var domains := dump.value.domains;
    var parsedUsers: Slice<AoRRecord> := Nil;
    for d := 0 to |domains|
      invariant parsedUsers.Items() == DomainsRecords(domains[..d], format)
      invariant parsedUsers.Nil? <==> |parsedUsers.Items()| == 0
    {
      var before := parsedUsers.Items();
      var aors := domains[d].aors;
      assert domains[..d + 1][..d] == domains[..d];
      for a := 0 to |aors|
        invariant parsedUsers.Items() == before + AorsRecords(aors[..a], format)
        invariant parsedUsers.Nil? <==> |parsedUsers.Items()| == 0
      {
        var mid := parsedUsers.Items();
        var info := aors[a];
        var recs := AorRecords(info, format);
        assert aors[..a + 1][..a] == aors[..a];
        for c := 0 to |info.contacts|
          invariant parsedUsers.Items() == mid + recs[..c]
          invariant parsedUsers.Nil? <==> |parsedUsers.Items()| == 0
        {
          assert recs[..c + 1] == recs[..c] + [recs[c]];
          parsedUsers := parsedUsers.Append(ContactRecord(info.aor, info.contacts[c], format));
        }
        assert recs[..|info.contacts|] == recs;
        assert AorsRecords(aors[..a + 1], format) == AorsRecords(aors[..a], format) + recs;
      }
      assert aors[..|aors|] == aors;
      assert DomainsRecords(domains[..d + 1], format) == before + AorsRecords(aors, format);
    }
    assert domains[..|domains|] == domains;
    return Ok(parsedUsers);
  }

  // ---------------------------------------------------------------------
  // JSON-RPC requests

  datatype Param = Param(name: string, value: string)

  /** The request object the sjson chains build: "jsonrpc", "method", the
      members of "params" in the order they were set, and "id". */
  datatype RpcRequest = RpcRequest(jsonrpc: string, methodName: string, params: seq<Param>, id: string)

  function Lookup(params: seq<Param>, name: string): Option<string>
    decreases |params|
  {
    if |params| == 0 then None
    else if params[0].name == name then Some(params[0].value)
    else Lookup(params[1..], name)
  }

  predicate Unnamed(params: seq<Param>, name: string)
  {
    forall i :: 0 <= i < |params| ==> params[i].name != name
  }

  /** `sjson.Set(json, "params.<name>", value)`: replaces the member in
      place when it exists, and otherwise appends it. */
  function SetParam(params: seq<Param>, name: string, value: string): seq<Param>
    decreases |params|
  {
    if |params| == 0 then [Param(name, value)]
    else if params[0].name == name then [Param(name, value)] + params[1..]
    else [params[0]] + SetParam(params[1..], name, value)
  }

  /** After a set, the member reads back as the value just set, and every
      other member as before. */
  lemma {:induction false} SetParamLookup(params: seq<Param>, name: string, value: string, other: string)
    ensures Lookup(SetParam(params, name, value), name) == Some(value)
    ensures other != name ==> Lookup(SetParam(params, name, value), other) == Lookup(params, other)
    decreases |params|
  {
    if |params| > 0 && params[0].name != name {
      SetParamLookup(params[1..], name, value, other);
      assert SetParam(params, name, value)[1..] == SetParam(params[1..], name, value);
    }
  }

  /** Setting a member that is not there yet appends it. */
  lemma {:induction false} SetParamFresh(params: seq<Param>, name: string, value: string)
    requires Unnamed(params, name)
    ensures SetParam(params, name, value) == params + [Param(name, value)]
    decreases |params|
  {
    if |params| > 0 {
      SetParamFresh(params[1..], name, value);
      assert params == [params[0]] + params[1..];
    }
  }

  /** The `sjson.Set` calls of one builder, in order. */
  function SetAll(params: seq<Param>, settings: seq<Param>): seq<Param>
    decreases |settings|
  {
    if |settings| == 0 then params
    else SetAll(SetParam(params, settings[0].name, settings[0].value), settings[1..])
  }

  predicate DistinctNames(settings: seq<Param>)
  {
    forall i, j :: 0 <= i < j < |settings| ==> settings[i].name != settings[j].name
  }

  /** Members set once each, none already there, end up in the order set. */
  lemma {:induction false} SetAllFresh(params: seq<Param>, settings: seq<Param>)
    requires DistinctNames(settings)
    requires forall i :: 0 <= i < |settings| ==> Unnamed(params, settings[i].name)
    ensures SetAll(params, settings) == params + settings
    decreases |settings|
  {
    if |settings| == 0 {
      assert params + settings == params;
    } else {
      var s := settings[0];
      SetParamFresh(params, s.name, s.value);
      var next := params + [s];
      forall i | 0 <= i < |settings[1..]| ensures Unnamed(next, settings[1..][i].name) {
        assert settings[1..][i] == settings[i + 1];
      }
      SetAllFresh(next, settings[1..]);
      assert next + settings[1..] == params + settings;
    }
  }

  /** A request for `methodName` with the given parameters and id. */
  function Request(methodName: string, settings: seq<Param>, id: string): RpcRequest
  {
    RpcRequest("2.0", methodName, SetAll([], settings), id)
  }

  /** Every builder's request: version "2.0", its method, exactly the
      parameters given, in order, each reading back as set, and the id. */
  lemma RequestShape(methodName: string, settings: seq<Param>, id: string)
    requires DistinctNames(settings)
    ensures Request(methodName, settings, id).jsonrpc == "2.0"
    ensures Request(methodName, settings, id).methodName == methodName
    ensures Request(methodName, settings, id).params == settings
    ensures Request(methodName, settings, id).id == id
    ensures forall i :: 0 <= i < |settings| ==> Lookup(Request(methodName, settings, id).params, settings[i].name) == Some(settings[i].value)
  {
    SetAllFresh([], settings);
    forall i | 0 <= i < |settings|
      ensures Lookup(settings, settings[i].name) == Some(settings[i].value)
    {
      LookupFirst(settings, i);
    }
  }

  /** With distinct names, a member is found at its own position. */
  lemma {:induction false} LookupFirst(settings: seq<Param>, i: nat)
    requires DistinctNames(settings) && i < |settings|
    ensures Lookup(settings, settings[i].name) == Some(settings[i].value)
    decreases i
  {
    if i > 0 {
      assert settings[0].name != settings[i].name;
      var tl := settings[1..];
      assert tl[i - 1] == settings[i];
      LookupFirst(tl, i - 1);
    }
  }

  function DispatcherAddRequest(groupval: string, addressval: string, id: string): RpcRequest
  {
    Request("dispatcher.add", [Param("group", groupval), Param("address", addressval)], id)
  }

  function DispatcherRemoveRequest(groupval: string, addressval: string, id: string): RpcRequest
  {
    Request("dispatcher.remove", [Param("group", groupval), Param("address", addressval)], id)
  }

  function DispatcherListRequest(id: string): RpcRequest
  {
    Request("dispatcher.list", [], id)
  }

  function HtableDeleteRequest(tableval: string, keyval: string, id: string): RpcRequest
  {
    Request("htable.delete", [Param("htable", tableval), Param("key", keyval)], id)
  }

  function HtableDumpRequest(tableval: string, id: string): RpcRequest
  {
    Request("htable.dump", [Param("htable", tableval)], id)
  }

  function HtableFlushRequest(tableval: string, id: string): RpcRequest
  {
    Request("htable.flush", [Param("htable", tableval)], id)
  }

  function HtableGetRequest(tableval: string, keyval: string, id: string): RpcRequest
  {
    Request("htable.get", [Param("htable", tableval), Param("key", keyval)], id)
  }

  /** `htable.seti`: the value is sent as a JSON string, exactly as
      `htable.sets` sends it. */
  function HtableSetIntRequest(tableval: string, keyval: string, valval: string, id: string): RpcRequest
  {
    Request("htable.seti", [Param("htable", tableval), Param("key", keyval), Param("value", valval)], id)
  }

  function HtableSetStringRequest(tableval: string, keyval: string, valval: string, id: string): RpcRequest
  {
    Request("htable.sets", [Param("htable", tableval), Param("key", keyval), Param("value", valval)], id)
  }

  /** `ul.rm` and `ul.lookup` always name the "location" table. */
  function RegDeleteAORRequest(aorval: string, id: string): RpcRequest
  {
    Request("ul.rm", [Param("table", "location"), Param("AOR", aorval)], id)
  }

  function RegGetAORRequest(aorval: string, id: string): RpcRequest
  {
    Request("ul.lookup", [Param("table", "location"), Param("AOR", aorval)], id)
  }

  function UptimeRequest(id: string): RpcRequest
  {
    Request("core.uptime", [], id)
  }

  function VersionRequest(id: string): RpcRequest
  {
    Request("core.version", [], id)
  }

  /** The dispatcher builders. */
  lemma DispatcherRequests(groupval: string, addressval: string, id: string)
    ensures DispatcherAddRequest(groupval, addressval, id) ==
      RpcRequest("2.0", "dispatcher.add", [Param("group", groupval), Param("address", addressval)], id)
    ensures DispatcherRemoveRequest(groupval, addressval, id) ==
      RpcRequest("2.0", "dispatcher.remove", [Param("group", groupval), Param("address", addressval)], id)
    ensures DispatcherListRequest(id) == RpcRequest("2.0", "dispatcher.list", [], id)
  {
    RequestShape("dispatcher.add", [Param("group", groupval), Param("address", addressval)], id);
    RequestShape("dispatcher.remove", [Param("group", groupval), Param("address", addressval)], id);
  }

  /** The htable builders; "seti" and "sets" differ only in the method. */
  lemma HtableRequests(tableval: string, keyval: string, valval: string, id: string)
    ensures HtableDeleteRequest(tableval, keyval, id) ==
      RpcRequest("2.0", "htable.delete", [Param("htable", tableval), Param("key", keyval)], id)
    ensures HtableDumpRequest(tableval, id) == RpcRequest("2.0", "htable.dump", [Param("htable", tableval)], id)
    ensures HtableFlushRequest(tableval, id) == RpcRequest("2.0", "htable.flush", [Param("htable", tableval)], id)
    ensures HtableGetRequest(tableval, keyval, id) ==
      RpcRequest("2.0", "htable.get", [Param("htable", tableval), Param("key", keyval)], id)
    ensures HtableSetIntRequest(tableval, keyval, valval, id) ==
      RpcRequest("2.0", "htable.seti", [Param("htable", tableval), Param("key", keyval), Param("value", valval)], id)
    ensures HtableSetIntRequest(tableval, keyval, valval, id) ==
      HtableSetStringRequest(tableval, keyval, valval, id).(methodName := "htable.seti")
  {
    RequestShape("htable.delete", [Param("htable", tableval), Param("key", keyval)], id);
    RequestShape("htable.dump", [Param("htable", tableval)], id);
    RequestShape("htable.flush", [Param("htable", tableval)], id);
    RequestShape("htable.get", [Param("htable", tableval), Param("key", keyval)], id);
    RequestShape("htable.seti", [Param("htable", tableval), Param("key", keyval), Param("value", valval)], id);
    RequestShape("htable.sets", [Param("htable", tableval), Param("key", keyval), Param("value", valval)], id);
  }

  /** The usrloc builders always name the "location" table. */
  lemma RegRequests(aorval: string, id: string)
    ensures RegDeleteAORRequest(aorval, id) ==
      RpcRequest("2.0", "ul.rm", [Param("table", "location"), Param("AOR", aorval)], id)
    ensures Lookup(RegDeleteAORRequest(aorval, id).params, "table") == Some("location")
    ensures RegGetAORRequest(aorval, id) ==
      RpcRequest("2.0", "ul.lookup", [Param("table", "location"), Param("AOR", aorval)], id)
  {
    RequestShape("ul.rm", [Param("table", "location"), Param("AOR", aorval)], id);
    RequestShape("ul.lookup", [Param("table", "location"), Param("AOR", aorval)], id);
  }

  // ---------------------------------------------------------------------
  // Calls

  /** `SendJsonhttp`: the response body, or the transport error. */
  type Transport = RpcRequest -> Result<string>

  /** The calls that return the response body as it is. */
  function Forward(req: RpcRequest, send: Transport): (r: Ret<string>)
    ensures r.err.None? <==> send(req).Ok?
    ensures send(req).Ok? ==> r.value == send(req).value
    ensures send(req).Err? ==> r == Ret("", Some(send(req).error))
  {
    match send(req)
    case Ok(body) => Ret(body, None)
    case Err(e) => Ret("", Some(e))
  }

  /** The calls that only report success: true exactly when the transport
      succeeds, whatever the response body says. */
  function Acknowledge(req: RpcRequest, send: Transport): (r: Ret<bool>)
    ensures r.value <==> send(req).Ok?
    ensures r.err.None? <==> send(req).Ok?
    ensures send(req).Err? ==> r.err == Some(send(req).error)
  {
    match send(req)
    case Ok(_) => Ret(true, None)
    case Err(e) => Ret(false, Some(e))
  }

  /** A Kamailio error reply is still a success for these calls. */
  lemma AcknowledgeIgnoresBody(req: RpcRequest, send1: Transport, send2: Transport)
    requires send1(req).Ok? && send2(req).Ok?
    ensures Acknowledge(req, send1) == Acknowledge(req, send2) == Ret(true, None)
  {
  }

  function DispatcherAdd(groupval: string, addressval: string, id: string, send: Transport): (r: Ret<string>)
    ensures r.err.None? <==> send(DispatcherAddRequest(groupval, addressval, id)).Ok?
    ensures send(DispatcherAddRequest(groupval, addressval, id)).Ok? ==> r.value == send(DispatcherAddRequest(groupval, addressval, id)).value
  {
    Forward(DispatcherAddRequest(groupval, addressval, id), send)
  }

  function DispatcherRemove(groupval: string, addressval: string, id: string, send: Transport): (r: Ret<string>)
    ensures r.err.None? <==> send(DispatcherRemoveRequest(groupval, addressval, id)).Ok?
    ensures send(DispatcherRemoveRequest(groupval, addressval, id)).Ok? ==> r.value == send(DispatcherRemoveRequest(groupval, addressval, id)).value
  {
    Forward(DispatcherRemoveRequest(groupval, addressval, id), send)
  }

  function DispatcherList(id: string, send: Transport): (r: Ret<string>)
    ensures r.err.None? <==> send(DispatcherListRequest(id)).Ok?
    ensures send(DispatcherListRequest(id)).Ok? ==> r.value == send(DispatcherListRequest(id)).value
  {
    Forward(DispatcherListRequest(id), send)
  }

  function HtableDump(tableval: string, id: string, send: Transport): (r: Ret<string>)
    ensures r.err.None? <==> send(HtableDumpRequest(tableval, id)).Ok?
    ensures send(HtableDumpRequest(tableval, id)).Ok? ==> r.value == send(HtableDumpRequest(tableval, id)).value
  {
    Forward(HtableDumpRequest(tableval, id), send)
  }

  function HtableDelete(tableval: string, keyval: string, id: string, send: Transport): (r: Ret<bool>)
    ensures r.value <==> send(HtableDeleteRequest(tableval, keyval, id)).Ok?
    ensures r.err.None? <==> send(HtableDeleteRequest(tableval, keyval, id)).Ok?
  {
    Acknowledge(HtableDeleteRequest(tableval, keyval, id), send)
  }

  function HtableFlush(tableval: string, id: string, send: Transport): (r: Ret<bool>)
    ensures r.value <==> send(HtableFlushRequest(tableval, id)).Ok?
    ensures r.err.None? <==> send(HtableFlushRequest(tableval, id)).Ok?
  {
    Acknowledge(HtableFlushRequest(tableval, id), send)
  }

  function HtableSetInt(tableval: string, keyval: string, valval: string, id: string, send: Transport): (r: Ret<bool>)
    ensures r.value <==> send(HtableSetIntRequest(tableval, keyval, valval, id)).Ok?
    ensures r.err.None? <==> send(HtableSetIntRequest(tableval, keyval, valval, id)).Ok?
  {
    Acknowledge(HtableSetIntRequest(tableval, keyval, valval, id), send)
  }

  function HtableSetString(tableval: string, keyval: string, valval: string, id: string, send: Transport): (r: Ret<bool>)
    ensures r.value <==> send(HtableSetStringRequest(tableval, keyval, valval, id)).Ok?
    ensures r.err.None? <==> send(HtableSetStringRequest(tableval, keyval, valval, id)).Ok?
  {
    Acknowledge(HtableSetStringRequest(tableval, keyval, valval, id), send)
  }

  function RegDeleteAOR(aorval: string, id: string, send: Transport): (r: Ret<bool>)
    ensures r.value <==> send(RegDeleteAORRequest(aorval, id)).Ok?
    ensures r.err.None? <==> send(RegDeleteAORRequest(aorval, id)).Ok?
  {
    Acknowledge(RegDeleteAORRequest(aorval, id), send)
  }

  /** `HtableGet`: a transport error, else whatever the value extractor
      (`HtableParseValueSingle`) reports, its error included. */
  function HtableGet(tableval: string, keyval: string, id: string, send: Transport, extract: string -> Ret<string>): (r: Ret<string>)
    ensures send(HtableGetRequest(tableval, keyval, id)).Err? ==>
      r == Ret("", Some(send(HtableGetRequest(tableval, keyval, id)).error))
    ensures send(HtableGetRequest(tableval, keyval, id)).Ok? ==>
      r.err == extract(send(HtableGetRequest(tableval, keyval, id)).value).err
    ensures send(HtableGetRequest(tableval, keyval, id)).Ok? ==>
      r.value == (if r.err.Some? then "" else extract(send(HtableGetRequest(tableval, keyval, id)).value).value)
  {
    match send(HtableGetRequest(tableval, keyval, id))
    case Err(e) => Ret("", Some(e))
    case Ok(body) =>
      var parsed := extract(body);
      if parsed.err.Some? then Ret("", parsed.err) else Ret(parsed.value, None)
  }

  /** `Uptime` and `Version` drop the extractor's error: once the transport
      succeeds they never fail, even on a reply that is not JSON. */
  function Uptime(id: string, send: Transport, extract: string -> Ret<string>): (r: Ret<string>)
    ensures r.err.None? <==> send(UptimeRequest(id)).Ok?
    ensures send(UptimeRequest(id)).Ok? ==> r.value == extract(send(UptimeRequest(id)).value).value
  {
    match send(UptimeRequest(id))
    case Err(e) => Ret("", Some(e))
    case Ok(body) => Ret(extract(body).value, None)
  }

  function Version(id: string, send: Transport, extract: string -> Ret<string>): (r: Ret<string>)
    ensures r.err.None? <==> send(VersionRequest(id)).Ok?
    ensures send(VersionRequest(id)).Ok? ==> r.value == extract(send(VersionRequest(id)).value).value
  {
    match send(VersionRequest(id))
    case Err(e) => Ret("", Some(e))
    case Ok(body) => Ret(extract(body).value, None)
  }

  /** `RegGetAOR`: a transport error, else what `RegAorParse` makes of the
      reply. */
  method RegGetAOR(aorval: string, id: string, send: Transport, lib: JsonLib<UserDump>, format: Formatter)
    returns (r: Result<Slice<AoRRecord>>)
    ensures send(RegGetAORRequest(aorval, id)).Err? ==> r == Err(send(RegGetAORRequest(aorval, id)).error)
    ensures send(RegGetAORRequest(aorval, id)).Ok? ==>
      var p := Prelude(send(RegGetAORRequest(aorval, id)).value, lib, InvalidJson);
      && (p.Err? ==> r == Err(p.error))
      && (p.Ok? ==> r.Ok? && r.value.Items() == DomainsRecords(p.value.domains, format)
                    && (r.value.Nil? <==> |r.value.Items()| == 0))
  {
    var aorresult := send(RegGetAORRequest(aorval, id));
    if aorresult.Err? {
      return Err(aorresult.error);
    }
    r := RegAorParse(aorresult.value, lib, format);
  }
}
