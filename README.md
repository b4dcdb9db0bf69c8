# pgrtools core, modelled in Dafny

pgrtools is a set of Go helper packages used by HTTP services around a
Kamailio SIP server and a Linux firewall. This project models the parts of
those packages that do deterministic work and proves what they promise:

- **Required-field checks** (`CheckFields` in pgkamtools, pgparse, pgsqljson
  and sqljson, plus pgparse's `CheckFieldsAny`). Each builds the report
  `key + " is missing. "` in the order of the required keys. The variants
  differ only in which keys pass: present at all, or present with a
  non-empty value. The shared loop is `RequiredFields.CollectMissing`.
- **Request-body parsing** (pgparse): `Last10`, `LowerKeys`, and the form
  branch of `ParseBody`/`ParseBodyErr`/`ParseBodyErrAny`. The form branch
  splits on `&` and then on `=`, and decodes each value as
  `url.QueryUnescape` does (`Percent.Unescape`, with `Percent.Escape` as its
  round-trip partner). The model also covers the error order of
  `ParseBodyFields`.
- **Token extraction** (pgjwt): the bearer field of the Authorization
  header, the choice between a body token and the header, and the cookie.
  What the JWT library reports is an abstract `Verifier`.
- **Kamailio JSON-RPC** (pgkamtools): the shape of every request object and
  what the call wrappers return on transport success and failure. It also
  covers the validation prelude shared by the dump reshapers and the
  flattening loops of `HtableParseNameValue`/`NameOnly`/`ValueOnly` and
  `RegAorParse`, over the already-unmarshalled reply structs.
  `RemoveDuplicatesUnordered` is modelled too.
- **Firewall handling** (pgiptables): `Contains`, `CheckIPAddressv4`, and
  the ordered checks and updates of `InitializeIPTables` and
  `IPtableHandle`. These run on a `Firewall` object holding the chain list
  and each chain's rules. They are specified by the functions
  `Initialize`/`Handle` on a `Table` value.
- **SQL row projection** (`ProcessResults`/`processResults`): one map per
  row, each column name bound to the row's value in that column.

Layout:

- `common.dfy`: `Option`, `Result`, Go's `(T, error)` as `Ret`, and Go
  slices as `Slice`, which tells nil from empty.
- `text.dfy`: `strings.Split`/`Join` and ASCII lower-casing.
- `percent.dfy`: `url.QueryUnescape` and `url.QueryEscape`.
- `required_fields.dfy`, `rows.dfy`: the shared loops.
- One file per Go package: `pgkamtools.dfy`, `pgparse.dfy`, `pgjwt.dfy`,
  `pgiptables.dfy`, `pgsqljson.dfy`, `sqljson.dfy`.

Conventions:

- A Go string is a byte string. Here each `char` stands for one byte.
- Library calls and inputs from outside the code become parameters:
  - in the Kamailio reshapers, `gjson.Valid`, the gjson `error.message`
    lookup and `json.Unmarshal` (`JsonLib`);
  - in the body parsers, `json.Valid` and `json.Unmarshal` (`decodeJson`);
  - the HTTP round trip (`Transport`);
  - `jwt.ParseWithClaims` (`Verifier`);
  - `r.Cookie`;
  - `net.ParseIP`;
  - `formatLastModifed`;
  - the clock-based request id.
- Go map iteration order is an arbitrary choice (`:|`).

The sqljson package's lower-case `checkFields` and `processResults` are
modelled as `SqlJson.CheckFields` and `SqlJson.ProcessResults`.

## Model

| member | source | states |
|---|---|---|
| KamTools.CheckFields | pgkamtools/pgkamtools.go:121-135 | true with no error exactly when every required key is in the map, even with value ""; otherwise false with the missing-key report in `reqfields` order |
| RequiredFields.CollectMissing | pgkamtools/pgkamtools.go:122-127 | the loop's text is the ordered report of absent keys, and it is "" exactly when every required key passes |
| RequiredFields.MissingEmpty | pgkamtools/pgkamtools.go:129-134 | the report is empty if and only if every required key passes |
| RequiredFields.MissingConcat | pgkamtools/pgkamtools.go:123-127 | the report follows `reqfields` order: the report of a concatenation is the concatenation of the reports, so a repeated missing key is repeated |
| RequiredFields.MissingOne | pgkamtools/pgkamtools.go:124-126 | one key contributes "" when present and `key + " is missing. "` otherwise |
| KamTools.RemoveDuplicatesUnordered | pgkamtools/pgkamtools.go:595-610 | the result has no duplicates, holds exactly the input's elements and is no longer than the input; the order is any |
| KamTools.Prelude | pgkamtools/pgkamtools.go:328-342 | invalid JSON fails first with the reshaper's message; then an `error.message` member, even "", fails with its text; then an unmarshal error; only then is the dump used |
| KamTools.PreludeOrder | pgkamtools/pgkamtools.go:364-372 | once the text is invalid or carries an error envelope, the outcome does not depend on what unmarshalling would give |
| KamTools.CollectSlots | pgkamtools/pgkamtools.go:380-388 | one entry per slot, results in order and slots in order, each made from its slot; the slice stays nil when there is no slot |
| KamTools.AllSlotsCount | pgkamtools/pgkamtools.go:382-387 | the number of entries is the sum of the slot counts |
| KamTools.AllSlotsPosition | pgkamtools/pgkamtools.go:382-387 | slot j of result i is entry (slots of results before i) + j |
| KamTools.HtableParseNameValue | pgkamtools/pgkamtools.go:364-399 | prelude errors are returned ("invalid json received"); otherwise one {name, value} per slot, both copied unchanged |
| KamTools.HtableParseNameOnly | pgkamtools/pgkamtools.go:328-362 | prelude errors are returned ("invalid json"); otherwise one {name} per slot whose name is the slot's value |
| KamTools.HtableParseValueOnly | pgkamtools/pgkamtools.go:401-435 | prelude errors are returned ("invalid json received"); otherwise one {value} per slot, in slot order |
| KamTools.RegAorParse | pgkamtools/pgkamtools.go:487-526 | prelude errors are returned; otherwise the records of all contacts, walking domains, AoRs and contacts in order, whatever the formatter reports |
| KamTools.RecordCount | pgkamtools/pgkamtools.go:505-517 | exactly one record per contact over all domains and AoRs |
| KamTools.AorsRecordsPosition | pgkamtools/pgkamtools.go:506-514 | within a domain, contact c of AoR a is the record right after the contacts of the AoRs before a |
| KamTools.RecordPosition | pgkamtools/pgkamtools.go:505-517 | contact c of AoR a of domain d is the one record at the position after all contacts of earlier domains and of earlier AoRs of d |
| KamTools.RecordsTagged | pgkamtools/pgkamtools.go:505-514 | every record is a contact of some AoR of some domain, tagged with that AoR's name |
| KamTools.AorsRecordsTagged | pgkamtools/pgkamtools.go:506-514 | within a domain, every record is a contact of one of its AoRs, tagged with that AoR |
| KamTools.AorWithoutContacts | pgkamtools/pgkamtools.go:506-516 | an AoR with no contacts contributes nothing: dropping it leaves the records unchanged |
| KamTools.UnformattableIsEmpty | pgkamtools/pgkamtools.go:512-513 | a last-modified value that fails to format is stored as "" |
| KamTools.SetParamLookup | pgkamtools/pgkamtools.go:140-141 | after setting a parameter it reads back as the value set, and every other parameter reads as before |
| KamTools.SetParamFresh | pgkamtools/pgkamtools.go:140-141 | setting a parameter not yet present appends it |
| KamTools.SetAllFresh | pgkamtools/pgkamtools.go:138-142 | parameters set once each end up in the order they were set |
| KamTools.RequestShape | pgkamtools/pgkamtools.go:138-142 | every request has "jsonrpc" "2.0", its method, exactly the given parameters, each readable by name, and the id |
| KamTools.DispatcherRequests | pgkamtools/pgkamtools.go:137-142 | dispatcher.add/remove carry group then address; dispatcher.list carries none |
| KamTools.HtableRequests | pgkamtools/pgkamtools.go:232-326 | the htable requests and their parameters; seti and sets differ only in the method, the value being a string in both |
| KamTools.RegRequests | pgkamtools/pgkamtools.go:451-471 | ul.rm and ul.lookup always carry table "location" and then the AOR |
| KamTools.Forward | pgkamtools/pgkamtools.go:144-149 | the response body when transport succeeds, "" with the transport error otherwise |
| KamTools.Acknowledge | pgkamtools/pgkamtools.go:238-244 | true with no error exactly when transport succeeds |
| KamTools.AcknowledgeIgnoresBody | pgkamtools/pgkamtools.go:238-244 | any successful response body, even an error reply, yields true |
| KamTools.DispatcherAdd | pgkamtools/pgkamtools.go:137-150 | fails exactly when transport fails; otherwise returns the body |
| KamTools.DispatcherList | pgkamtools/pgkamtools.go:152-164 | fails exactly when transport fails; otherwise returns the body |
| KamTools.DispatcherRemove | pgkamtools/pgkamtools.go:217-230 | fails exactly when transport fails; otherwise returns the body |
| KamTools.HtableDelete | pgkamtools/pgkamtools.go:232-245 | true exactly when transport succeeds |
| KamTools.HtableDump | pgkamtools/pgkamtools.go:247-259 | fails exactly when transport fails; otherwise returns the body |
| KamTools.HtableFlush | pgkamtools/pgkamtools.go:261-273 | true exactly when transport succeeds |
| KamTools.HtableGet | pgkamtools/pgkamtools.go:275-293 | a transport error is returned with ""; otherwise the extractor's error is passed on with "", and without one its value is returned |
| KamTools.HtableSetInt | pgkamtools/pgkamtools.go:296-310 | true exactly when transport succeeds |
| KamTools.HtableSetString | pgkamtools/pgkamtools.go:312-326 | true exactly when transport succeeds |
| KamTools.RegDeleteAOR | pgkamtools/pgkamtools.go:451-464 | true exactly when transport succeeds |
| KamTools.RegGetAOR | pgkamtools/pgkamtools.go:466-485 | a transport error is returned; otherwise what `RegAorParse` makes of the reply: its prelude error, or one record per contact in order, nil (marshalled as `null`) exactly when there is none |
| KamTools.Uptime | pgkamtools/pgkamtools.go:733-745 | fails exactly when transport fails; the extractor's error is dropped |
| KamTools.Version | pgkamtools/pgkamtools.go:761-773 | fails exactly when transport fails; the extractor's error is dropped |
| PgParse.Last10 | pgparse/pgparse.go:40-47 | the result is a suffix of the input, ten bytes long or the whole input when shorter |
| PgParse.Last10Idempotent | pgparse/pgparse.go:40-47 | applying `Last10` twice equals applying it once |
| PgParse.CheckFields | pgparse/pgparse.go:49-69 | succeeds exactly when every required key is present with a non-empty value; otherwise the ordered report of the keys that are absent or "" |
| PgParse.CheckFieldsAny | pgparse/pgparse.go:71-91 | the same over JSON values: a key fails only when absent or the string ""; a non-string value passes |
| PgParse.LowerKeys | pgparse/pgparse.go:120-127 | every input key's lowercase is a key; every output key is the lowercase of an input key and maps to its value; keys that collide with no other key keep their value; no more entries than the input |
| PgParse.PairParts | pgparse/pgparse.go:136-137 | the key is the text before the first "="; the value is the decoded text between the first and second "=" |
| PgParse.FormMapKeys | pgparse/pgparse.go:134-143 | the keys of the form map are exactly the keys of the pairs |
| PgParse.FormMapLastWins | pgparse/pgparse.go:135-142 | a key holds the value of its last pair |
| PgParse.ParseForm | pgparse/pgparse.go:134-143 | the loop builds the form map of the "&"-separated pairs |
| PgParse.ParseBody | pgparse/pgparse.go:129-147 | a JSON body gives its unmarshalled map; any other body gives the form map |
| PgParse.ParseBodyErr | pgparse/pgparse.go:149-171 | JSON is unmarshalled; a body with "&" is parsed as a form; any other body fails with "unable to parse body. is it nil?" and an empty map |
| PgParse.ParseBodyErrAny | pgparse/pgparse.go:173-195 | as `ParseBodyErr`, with the form values as strings in a map of `any` |
| PgParse.ParseBodyFields | pgparse/pgparse.go:197-215 | a read error, then a parse error, are returned before any field check; a failed field check returns the parsed map with the report |
| PgParse.ParseBodyFieldsAny | pgparse/pgparse.go:217-235 | the same order over a map of `any` |
| Percent.UnescapeEscape | pgparse/pgparse.go:137 | decoding what `url.QueryEscape` produces gives the bytes back |
| Percent.UnescapePlain | pgparse/pgparse.go:137-142 | a value without "%" always decodes, each "+" becoming a space |
| Percent.Unescape | pgparse/pgparse.go:137 | decoding fails only on a value holding "%", and never lengthens a value |
| PgParse.DecodeValue | pgparse/pgparse.go:137-142 | the decoded value when `url.QueryUnescape` succeeds, the raw value when it fails; never longer than the raw value |
| Text.JoinSplit | pgparse/pgparse.go:134 | joining the pieces of a split gives the string back |
| Text.SplitAt | pgparse/pgparse.go:136 | the first piece is the text before the first separator; the rest are the pieces of what follows |
| PgJwt.CheckToken | pgjwt/pgjwt.go:185-215 | no error exactly when the token parses and is valid, and then the claimed username; otherwise "fail" with the parse error or "token is not valid" |
| PgJwt.CheckBearer | pgjwt/pgjwt.go:58-72 | "no valid header found" exactly when the header has no space; a token returned is at least ten bytes, space-free and one of the header's fields |
| PgJwt.BearerField | pgjwt/pgjwt.go:65-71 | the token is the field after the first space whatever the first word, and text after a further space is ignored; shorter than ten bytes gives "no token found" |
| PgJwt.BearerDoubleSpace | pgjwt/pgjwt.go:65-68 | a double space after the first word gives an empty token and "no token found" |
| PgJwt.BearerTooShortExample | pgjwt/pgjwt.go:66-68 | "Bearer short" is refused with "no token found" |
| PgJwt.BearerExample | pgjwt/pgjwt.go:65-71 | "Bearer abcdefghijk" yields "abcdefghijk" |
| PgJwt.CheckBearerToken | pgjwt/pgjwt.go:74-91 | "ok" exactly when the header yields a token that verifies; a header error is returned as it is |
| PgJwt.CheckAuth | pgjwt/pgjwt.go:37-56 | "ok" exactly when the token (the body's when it has a "token" key, else the header's) verifies |
| PgJwt.CheckAuthPrefersBody | pgjwt/pgjwt.go:41-43 | with a "token" key in the body, even an empty one, the header never matters |
| PgJwt.CheckAuthShortCircuits | pgjwt/pgjwt.go:43-47 | without a body token, a header error is returned and the verifier is never consulted |
| PgJwt.CheckCookie | pgjwt/pgjwt.go:108-122 | the cookie's value; "no cookie found" when there is none; the lookup's other errors as they are, always with "" as the value |
| PgJwt.CheckGuiaccess | pgjwt/pgjwt.go:93-106 | "ok" exactly when the cookie exists and its token verifies; a cookie-lookup error is returned with "" before any verification, and otherwise the token check's error is returned |
| PgIptables.Contains | pgiptables/pgiptables.go:39-46 | true exactly when some element equals the value |
| PgIptables.CheckIPAddressv4 | pgiptables/pgiptables.go:56-70 | "Not an IP address" when the address does not parse; otherwise the family of the first separator, or "unknown error" without one |
| PgIptables.FamilyFirstSeparator | pgiptables/pgiptables.go:60-67 | "ipv4" exactly when a '.' precedes every ':', "ipv6" exactly when a ':' comes first, none without separators |
| PgIptables.MappedAddressIsIpv6 | pgiptables/pgiptables.go:60-67 | "::ffff:1.2.3.4" counts as "ipv6" |
| PgIptables.ProtocolOf | pgiptables/pgiptables.go:120-126 | IPv6 exactly for "ipv6", IPv4 for every other string |
| PgIptables.Cleared | pgiptables/pgiptables.go:99 | clearing keeps the chain list and rule lists consistent, creating the chain when it is missing |
| PgIptables.Inserted | pgiptables/pgiptables.go:105 | inserting keeps the table consistent |
| PgIptables.AppendedUniqueIdempotent | pgiptables/pgiptables.go:141 | after an append-unique the rule is present, and repeating it changes nothing |
| PgIptables.DeletedRemovesOne | pgiptables/pgiptables.go:148 | a delete removes exactly one copy of a present rule and leaves a chain without it unchanged |
| PgIptables.DeleteUndoesAdd | pgiptables/pgiptables.go:140-153 | deleting a rule just appended, that was absent before, restores the chain |
| PgIptables.Initialize | pgiptables/pgiptables.go:72-117 | errors leave the table unchanged with status "error"; it succeeds exactly when INPUT and FORWARD exist, then APIBANLOCAL is present and "chain exists" is reported exactly when it already was |
| PgIptables.InitializeChecksInputFirst | pgiptables/pgiptables.go:80-89 | a missing INPUT is reported even when FORWARD is missing too |
| PgIptables.InitializeChecksForward | pgiptables/pgiptables.go:86-89 | with INPUT present and FORWARD missing, the FORWARD error is returned and the table is unchanged |
| PgIptables.InitializeFindsChain | pgiptables/pgiptables.go:91-96 | a table with INPUT, FORWARD and APIBANLOCAL gives "chain exists" and is unchanged |
| PgIptables.InitializeIdempotent | pgiptables/pgiptables.go:91-96 | a second initialisation reports "chain exists" and changes nothing |
| PgIptables.InitializeCreates | pgiptables/pgiptables.go:98-116 | creation adds an empty APIBANLOCAL to the chains (in no stated order), puts the jump first in INPUT and in FORWARD, leaves other chains alone and reports "chain created" |
| PgIptables.Handle | pgiptables/pgiptables.go:119-164 | every task keeps the table consistent |
| PgIptables.HandleInitError | pgiptables/pgiptables.go:134-137 | an initialisation error is returned with "" and no task is attempted: the table is unchanged |
| PgIptables.HandleAdd | pgiptables/pgiptables.go:140-146 | "add" returns "added"; the address's rule is then in APIBANLOCAL after the rules already there, other chains unchanged |
| PgIptables.HandleFlush | pgiptables/pgiptables.go:154-160 | "flush" returns "flushed"; APIBANLOCAL is then empty, other chains unchanged |
| PgIptables.HandleAddIdempotent | pgiptables/pgiptables.go:140-146 | adding the same address twice leaves the table as one add does |
| PgIptables.HandleDeleteUndoesAdd | pgiptables/pgiptables.go:140-153 | deleting an address just added, not banned before, restores the ban chain |
| PgIptables.HandleDeleteAbsent | pgiptables/pgiptables.go:147-153 | deleting an address that is not banned succeeds and changes nothing beyond initialisation |
| PgIptables.HandleUnknownTaskKeepsInitialization | pgiptables/pgiptables.go:134-163 | an unknown task fails, after initialisation has already changed the table; once initialisation succeeded the result is ("", "unknown task") |
| PgIptables.Firewall.constructor | pgiptables/pgiptables.go:129 | the object holds the given consistent table |
| PgIptables.Firewall.ListChains | pgiptables/pgiptables.go:74 | the current chain list |
| PgIptables.Firewall.ClearChain | pgiptables/pgiptables.go:99 | the new state is the cleared table |
| PgIptables.Firewall.Insert | pgiptables/pgiptables.go:105 | the new state is the table with the rule inserted at the position |
| PgIptables.Firewall.AppendUnique | pgiptables/pgiptables.go:141 | only the chain's rules change, to their append-unique |
| PgIptables.Firewall.DeleteIfExists | pgiptables/pgiptables.go:148 | only the chain's rules change, to their delete |
| PgIptables.InitializeIPTables | pgiptables/pgiptables.go:72-117 | the status, error and new firewall state are those of `Initialize` on the old state |
| PgIptables.IPtableHandle | pgiptables/pgiptables.go:119-164 | the chosen protocol's firewall ends as `Handle` says, with its value and error; the other protocol's firewall is untouched |
| PgSqlJson.CheckFields | pgsqljson/pgsqljson.go:37-46 | "" exactly when every required key is present, even with value ""; otherwise the ordered report |
| PgSqlJson.ProcessResults | pgsqljson/pgsqljson.go:48-80 | a non-nil list with one map per row, in row order, each the row's column map |
| Rows.Project | pgsqljson/pgsqljson.go:51-70 | the loop builds one column map per row, in order, and the list is non-nil |
| Rows.RowMapKeys | pgsqljson/pgsqljson.go:64-67 | a row's map has exactly the column names as keys |
| Rows.RowMapLastWins | pgsqljson/pgsqljson.go:64-67 | a column name is bound to the value of its last occurrence |
| SqlJson.CheckFields | sqljson/sqljson.go:33-46 | "" exactly when every required key is present; otherwise the ordered report; logging plays no part |
| SqlJson.ProcessResults | sqljson/sqljson.go:48-87 | a non-nil list with one map per row, in row order, each the row's column map |

## Left out

- HTTP transport is a `Transport` parameter: `SendJsonhttp`, `SendJsonhttpIgnoreCert`, `SendGethttp`, `SendGethttpIgnoreCert` and `SendJsonHttp` do network I/O, TLS and timeouts.
- JWT signing, signature and expiry checks, `GenerateToken` and `GenerateApitoken` are cryptography plus the clock. What `jwt.ParseWithClaims` reports is the `Verifier` parameter.
- The gjson path extractors are not modelled: `DispatcherListSimple`, `DispatcherListByGroup`, `HtableParseValueSingle`, `RegsAors`, `RegsFullContactInfo`, `RegsSimpleParse`, `RegsTotal`, `UptimeParse` and `VersionParse`. Their meaning lives in the gjson path language. Where `HtableGet`, `Uptime` and `Version` call one, it is a parameter.
- `RegsGet` is not modelled. It is hand-written request text with an unquoted id, sent over the transport.
- `formatLastModifed` is a `Formatter` parameter. It does big-float parsing, rounding and time-zone formatting.
- `getId`, `getNanoID`, `getNanoIDSmall` and `GetUUID` read the clock or randomness. The request id is a parameter.
- `gjson.Valid`, the gjson `error.message` lookup and `json.Unmarshal` of the Kamailio reshapers are the `JsonLib` parameter; `json.Valid` and `json.Unmarshal` of the body parsers are the `decodeJson` parameter. The structs they fill are modelled directly.
- KamTools.HtableParseNameValue: returns the slice that is marshalled, not the `json.MarshalIndent` text. The same holds for `HtableParseNameOnly`, `HtableParseValueOnly`, `RegAorParse`, `ProcessResults` and `processResults`.
- KamTools.HtableParseNameOnly, KamTools.HtableParseNameValue, KamTools.HtableParseValueOnly: the `json.MarshalIndent` error branch (an `{"error": true, "details": ...}` text with the error) is not modelled. Marshalling values taken from a successful unmarshal does not fail.
- KamTools.RegAorParse: the `json.MarshalIndent` error branch (`return "", err`) is not modelled, for the same reason.
- KamTools.RequestShape: the request is a record, not sjson text. Member order inside the JSON text and the quoting of values are not modelled.
- `PgParseForm`, `PgParseFormFields` and the cookie parsing inside `r.Cookie` are `net/http` form and cookie parsing. `CheckCookie` takes the lookup's outcome.
- All logging is left out, including `log.Fatal` in the row loops and the `log.Print` calls of sqljson.
- `sql.Rows` scanning is left out: the rows arrive as sequences of strings, and NULL columns are not modelled.
- PgSqlJson.ProcessResults: requires every row to have one value per column, because a `Scan` error ends the process through `log.Fatal`. The same applies to `SqlJson.ProcessResults`.
- PgParse.ParseBody: requires every "&"-piece of a non-JSON body to contain "=". Without one, `z[1]` panics. The same applies to `ParseBodyErr`, `ParseBodyErrAny` and `ParseBodyFields*`.
- PgParse.LowerKeys: lower-cases ASCII letters only. Go's `strings.ToLower` also folds non-ASCII letters.
- PgIptables.IPtableHandle: failures of the iptables commands are not modelled: `NewWithProtocol`, `ListChains`, `ClearChain`, `Insert`, `AppendUnique` and `DeleteIfExists` all succeed here. The two protocols' tables are two distinct `Firewall` objects.
- PgIptables.Firewall.AppendUnique: rules are compared as rulespec argument lists. iptables compares the rules it has normalised.
- `CheckIPAddress` is `net.ParseIP(ip) != nil`, which is exactly the `isIP` parameter. It has no further content.
