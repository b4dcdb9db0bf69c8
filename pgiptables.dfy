/** pgiptables/pgiptables.go: the decision logic of a local ban list kept
    in a dedicated packet-filter chain, APIBANLOCAL, linked from INPUT and
    FORWARD.

    The firewall is an in-memory `filter` table: the list of chain names
    and, per chain, its rules in order, a rule being its rulespec (the
    argument list go-iptables passes to the iptables command). `net.ParseIP`
    is the abstract predicate `isIP`. */
module PgIptables {
  import opened Common

  type Rule = seq<string>

  /** The action of a ban rule: REJECT or DROP. */
  const TargetChain: string := "REJECT"
  const InputChain: string := "INPUT"
  const ForwardChain: string := "FORWARD"
  const BanChain: string := "APIBANLOCAL"

  const NotAnIP: string := "Not an IP address"
  const UnknownError: string := "unknown error"
  const MissingInput: string := "iptables does not contain expected INPUT chain"
  const MissingForward: string := "iptables does not contain expected FORWARD chain"
  const UnknownTask: string := "unknown task"

  /** The rule that sends a base chain's traffic through the ban chain. */
  const JumpToBan: Rule := ["-j", BanChain]

  /** The rule that bans one source address. */
  function BanRule(ip: string): Rule
  {
    ["-s", ip, "-d", "0/0", "-j", TargetChain]
  }

  // ---------------------------------------------------------------------
  // Read-only helpers

  /** `Contains`: whether some element equals the value. */
  method Contains(list: seq<string>, value: string) returns (found: bool)
    ensures found <==> value in list
  {
    for i := 0 to |list|
      invariant value !in list[..i]
    {
      if list[i] == value {
        return true;
      }
    }
    assert list[..|list|] == list;
    return false;
  }

  /** The address family the first '.' or ':' of an address announces. */
  function Family(ip: string): (f: Option<string>)
    decreases |ip|
  {
    if |ip| == 0 then None
    else if ip[0] == '.' then Some("ipv4")
    else if ip[0] == ':' then Some("ipv6")
    else Family(ip[1..])
  }

  predicate NoSeparatorBefore(ip: string, i: int)
    requires i <= |ip|
  {
    forall j :: 0 <= j < i ==> ip[j] != '.' && ip[j] != ':'
  }

  /** The family is decided by the FIRST separator: "ipv4" exactly when a
      '.' comes before any ':', "ipv6" exactly when a ':' comes first, and
      none when there is no separator at all. */
  lemma {:induction false} FamilyFirstSeparator(ip: string)
    ensures Family(ip) == Some("ipv4") <==>
      exists i :: 0 <= i < |ip| && ip[i] == '.' && NoSeparatorBefore(ip, i)
    ensures Family(ip) == Some("ipv6") <==>
      exists i :: 0 <= i < |ip| && ip[i] == ':' && NoSeparatorBefore(ip, i)
    ensures Family(ip) == None <==> NoSeparatorBefore(ip, |ip|)
    decreases |ip|
  {
    if |ip| > 0 {
      FamilyFirstSeparator(ip[1..]);
      var tl := ip[1..];
      if ip[0] != '.' && ip[0] != ':' {
        forall i | 0 < i <= |ip| ensures NoSeparatorBefore(ip, i) <==> NoSeparatorBefore(tl, i - 1) {
          if NoSeparatorBefore(tl, i - 1) {
            forall j | 0 <= j < i ensures ip[j] != '.' && ip[j] != ':' {
              if j > 0 { assert ip[j] == tl[j - 1]; }
            }
          }
          if NoSeparatorBefore(ip, i) {
            forall j | 0 <= j < i - 1 ensures tl[j] != '.' && tl[j] != ':' {
              assert tl[j] == ip[j + 1];
            }
          }
        }
        if exists i :: 0 <= i < |ip| && ip[i] == '.' && NoSeparatorBefore(ip, i) {
          var i :| 0 <= i < |ip| && ip[i] == '.' && NoSeparatorBefore(ip, i);
          assert i > 0 && tl[i - 1] == '.';
        }
        if exists i :: 0 <= i < |tl| && tl[i] == '.' && NoSeparatorBefore(tl, i) {
          var i :| 0 <= i < |tl| && tl[i] == '.' && NoSeparatorBefore(tl, i);
          assert ip[i + 1] == '.';
        }
        if exists i :: 0 <= i < |ip| && ip[i] == ':' && NoSeparatorBefore(ip, i) {
          var i :| 0 <= i < |ip| && ip[i] == ':' && NoSeparatorBefore(ip, i);
          assert i > 0 && tl[i - 1] == ':';
        }
        if exists i :: 0 <= i < |tl| && tl[i] == ':' && NoSeparatorBefore(tl, i) {
          var i :| 0 <= i < |tl| && tl[i] == ':' && NoSeparatorBefore(tl, i);
          assert ip[i + 1] == ':';
        }
      } else {
        assert !NoSeparatorBefore(ip, |ip|);
        assert NoSeparatorBefore(ip, 0);
        if ip[0] == '.' {
          forall i | 0 <= i < |ip| && ip[i] == ':' ensures !NoSeparatorBefore(ip, i) {
            assert i > 0;
          }
        } else {
          forall i | 0 <= i < |ip| && ip[i] == '.' ensures !NoSeparatorBefore(ip, i) {
            assert i > 0;
          }
        }
      }
    }
  }

  /** An IPv4-mapped IPv6 address counts as "ipv6": its ':' comes first. */
  lemma MappedAddressIsIpv6()
    ensures Family("::ffff:1.2.3.4") == Some("ipv6")
  {
  }

  /** `CheckIPAddressv4`: "Not an IP address" when the address does not
      parse; otherwise the family announced by the first separator, or
      "unknown error" when there is none. */
  method CheckIPAddressv4(ip: string, isIP: string -> bool) returns (r: Ret<string>)
    ensures !isIP(ip) ==> r == Ret("", Some(NotAnIP))
    ensures isIP(ip) && Family(ip).Some? ==> r == Ret(Family(ip).value, None)
    ensures isIP(ip) && Family(ip).None? ==> r == Ret("", Some(UnknownError))
  {
    if !isIP(ip) {
      return Ret("", Some(NotAnIP));
    }
    for i := 0 to |ip|
      invariant Family(ip) == Family(ip[i..])
    {
      assert ip[i..][1..] == ip[i + 1..];
      if ip[i] == '.' {
        return Ret("ipv4", None);
      } else if ip[i] == ':' {
        return Ret("ipv6", None);
      }
    }
    return Ret("", Some(UnknownError));
  }

  datatype Protocol = IPv4 | IPv6

  /** The table family `IPtableHandle` opens: IPv6 only for "ipv6". */
  function ProtocolOf(proto: string): (p: Protocol)
    ensures p == IPv6 <==> proto == "ipv6"
  {
    if proto == "ipv6" then IPv6 else IPv4
  }

  // ---------------------------------------------------------------------
  // The filter table and what the go-iptables calls do to it

  datatype Table = Table(chains: seq<string>, rules: map<string, seq<Rule>>)

  /** Every listed chain has a rule list and every rule list a chain. */
  ghost predicate Consistent(t: Table)
  {
    forall c :: c in t.chains <==> c in t.rules
  }

  /** `ClearChain`: creates the chain empty when it is missing, and
      otherwise flushes it. */
  function Cleared(t: Table, chain: string): (u: Table)
    requires Consistent(t)
    ensures Consistent(u)
  {
    if chain in t.chains then t.(rules := t.rules[chain := []])
    else Table(t.chains + [chain], t.rules[chain := []])
  }

  /** `Insert` at a 1-based position. */
  function Inserted(t: Table, chain: string, pos: nat, rule: Rule): (u: Table)
    requires Consistent(t) && chain in t.rules && 1 <= pos <= |t.rules[chain]| + 1
    ensures Consistent(u)
  {
    var rs := t.rules[chain];
    t.(rules := t.rules[chain := rs[..pos - 1] + [rule] + rs[pos - 1..]])
  }

  /** `AppendUnique`: appends the rule unless it is already there. */
  function AppendedUnique(rs: seq<Rule>, rule: Rule): seq<Rule>
  {
    if rule in rs then rs else rs + [rule]
  }

  /** `DeleteIfExists`: removes the first occurrence of the rule, if any. */
  function Deleted(rs: seq<Rule>, rule: Rule): seq<Rule>
    decreases |rs|
  {
    if |rs| == 0 then []
    else if rs[0] == rule then rs[1..]
    else [rs[0]] + Deleted(rs[1..], rule)
  }

  /** Appending a rule that is already there changes nothing, so repeated
      adds are idempotent, and after the call the rule is present. */
  lemma AppendedUniqueIdempotent(rs: seq<Rule>, rule: Rule)
    ensures rule in AppendedUnique(rs, rule)
    ensures AppendedUnique(AppendedUnique(rs, rule), rule) == AppendedUnique(rs, rule)
  {
  }

  /** Deleting takes out exactly one copy of a present rule and leaves a
      chain without it unchanged. */
  lemma {:induction false} DeletedRemovesOne(rs: seq<Rule>, rule: Rule)
    ensures multiset(Deleted(rs, rule)) == multiset(rs) - multiset{rule}
    ensures rule !in rs ==> Deleted(rs, rule) == rs
    decreases |rs|
  {
    if |rs| > 0 {
      DeletedRemovesOne(rs[1..], rule);
      assert rs == [rs[0]] + rs[1..];
      if rs[0] != rule && rule !in rs {
        assert rule !in rs[1..];
      }
    }
  }

  /** Adding a rule that was not there and deleting it again restores the
      chain. */
  lemma {:induction false} DeleteUndoesAdd(rs: seq<Rule>, rule: Rule)
    requires rule !in rs
    ensures Deleted(AppendedUnique(rs, rule), rule) == rs
    decreases |rs|
  {
    if |rs| > 0 {
      assert (rs + [rule])[1..] == rs[1..] + [rule];
      DeleteUndoesAdd(rs[1..], rule);
      assert rs == [rs[0]] + rs[1..];
    }
  }

  /** The outcome of a call: Go's (string, error) and the table after it. */
  datatype Outcome = Outcome(value: string, err: Option<string>, table: Table)

  /** `InitializeIPTables`: INPUT is checked before FORWARD, both must
      exist; an existing APIBANLOCAL is reported as "chain exists";
      otherwise the chain is created empty and a jump to it is inserted at
      position 1 of INPUT, then of FORWARD. */
  function Initialize(t: Table): (o: Outcome)
    requires Consistent(t)
    ensures Consistent(o.table)
    ensures o.err.Some? ==> o.value == "error" && o.table == t
    ensures o.err.None? <==> InputChain in t.chains && ForwardChain in t.chains
    ensures o.err.None? ==> BanChain in o.table.chains
    ensures o.err.None? ==> (o.value == "chain exists" <==> BanChain in t.chains)
  {
    if InputChain !in t.chains then Outcome("error", Some(MissingInput), t)
    else if ForwardChain !in t.chains then Outcome("error", Some(MissingForward), t)
    else if BanChain in t.chains then Outcome("chain exists", None, t)
    else
      var created := Cleared(t, BanChain);
      var linkedInput := Inserted(created, InputChain, 1, JumpToBan);
      var linkedBoth := Inserted(linkedInput, ForwardChain, 1, JumpToBan);
      Outcome("chain created", None, linkedBoth)
  }

  /** What a successful creation leaves behind: the new chain, empty, added
      to the chains (the order iptables lists them in is not modelled), the
      jump first in INPUT and in FORWARD, every other chain untouched. */
  lemma InitializeCreates(t: Table)
    requires Consistent(t)
    requires InputChain in t.chains && ForwardChain in t.chains && BanChain !in t.chains
    ensures var o := Initialize(t);
      && o.value == "chain created" && o.err == None
      && (forall c :: c in o.table.chains <==> c in t.chains || c == BanChain)
      && o.table.rules[BanChain] == []
      && o.table.rules[InputChain] == [JumpToBan] + t.rules[InputChain]
      && o.table.rules[ForwardChain] == [JumpToBan] + t.rules[ForwardChain]
      && forall c :: c in t.rules && c != InputChain && c != ForwardChain ==> o.table.rules[c] == t.rules[c]
  {
  }

  /** A missing INPUT is reported even when FORWARD is missing too. */
  lemma InitializeChecksInputFirst(t: Table)
    requires Consistent(t) && InputChain !in t.chains
    ensures Initialize(t) == Outcome("error", Some(MissingInput), t)
  {
  }

  /** With INPUT present and FORWARD missing, the FORWARD error is
      returned and nothing changes. */
  lemma InitializeChecksForward(t: Table)
    requires Consistent(t) && InputChain in t.chains && ForwardChain !in t.chains
    ensures Initialize(t) == Outcome("error", Some(MissingForward), t)
  {
  }

  /** A table that already has INPUT, FORWARD and APIBANLOCAL is reported
      as "chain exists" and left exactly as it was. */
  lemma InitializeFindsChain(t: Table)
    requires Consistent(t)
    requires InputChain in t.chains && ForwardChain in t.chains && BanChain in t.chains
    ensures Initialize(t) == Outcome("chain exists", None, t)
  {
  }

  /** Initialising twice: the second call finds the chain and changes
      nothing. */
  lemma InitializeIdempotent(t: Table)
    requires Consistent(t) && Initialize(t).err.None?
    ensures Initialize(Initialize(t).table) == Outcome("chain exists", None, Initialize(t).table)
  {
  }

  /** `IPtableHandle` after the table is opened: initialise (returning its
      error, if any), then carry out the task on APIBANLOCAL. An unknown
      task is refused only after initialisation has run. */
  function Handle(t: Table, task: string, ip: string): (o: Outcome)
    requires Consistent(t)
    ensures Consistent(o.table)
  {
    var init := Initialize(t);
    if init.err.Some? then Outcome("", init.err, t)
    else
      var u := init.table;
      if task == "add" then
        Outcome("added", None, u.(rules := u.rules[BanChain := AppendedUnique(u.rules[BanChain], BanRule(ip))]))
      else if task == "delete" then
        Outcome("deleted", None, u.(rules := u.rules[BanChain := Deleted(u.rules[BanChain], BanRule(ip))]))
      else if task == "flush" then
        Outcome("flushed", None, Cleared(u, BanChain))
      else
        Outcome("", Some(UnknownTask), u)
  }

  /** A failed initialisation is returned with an empty value, and the
      task is not attempted: the table is unchanged. */
  lemma HandleInitError(t: Table, task: string, ip: string)
    requires Consistent(t) && Initialize(t).err.Some?
    ensures Handle(t, task, ip) == Outcome("", Initialize(t).err, t)
  {
  }

  /** "add" succeeds with "added": the address's rule is then in
      APIBANLOCAL after the rules already there, and no other chain
      changes. */
  lemma HandleAdd(t: Table, ip: string)
    requires Consistent(t) && Initialize(t).err.None?
    ensures var u, o := Initialize(t).table, Handle(t, "add", ip);
      && o.value == "added" && o.err == None
      && BanRule(ip) in o.table.rules[BanChain]
      && u.rules[BanChain] <= o.table.rules[BanChain]
      && o.table.chains == u.chains
      && forall c :: c in u.rules && c != BanChain ==> c in o.table.rules && o.table.rules[c] == u.rules[c]
  {
  }

  /** "flush" succeeds with "flushed": APIBANLOCAL is then empty and no
      other chain changes. */
  lemma HandleFlush(t: Table, ip: string)
    requires Consistent(t) && Initialize(t).err.None?
    ensures var u, o := Initialize(t).table, Handle(t, "flush", ip);
      && o.value == "flushed" && o.err == None
      && o.table.rules[BanChain] == []
      && o.table.chains == u.chains
      && forall c :: c in u.rules && c != BanChain ==> c in o.table.rules && o.table.rules[c] == u.rules[c]
  {
  }

  /** Adding the same address twice leaves the table as one add does. */
  lemma HandleAddIdempotent(t: Table, ip: string)
    requires Consistent(t) && Initialize(t).err.None?
    ensures Handle(Handle(t, "add", ip).table, "add", ip) == Handle(t, "add", ip)
  {
    var u := Initialize(t).table;
    var once := Handle(t, "add", ip).table;
    AppendedUniqueIdempotent(u.rules[BanChain], BanRule(ip));
    assert Initialize(once) == Outcome("chain exists", None, once);
  }

  /** Deleting an address that was just added, and that was not banned
      before, restores the ban chain. */
  lemma HandleDeleteUndoesAdd(t: Table, ip: string)
    requires Consistent(t) && Initialize(t).err.None?
    requires BanRule(ip) !in Initialize(t).table.rules[BanChain]
    ensures Handle(Handle(t, "add", ip).table, "delete", ip).table == Initialize(t).table
  {
    var u := Initialize(t).table;
    DeleteUndoesAdd(u.rules[BanChain], BanRule(ip));
    var once := Handle(t, "add", ip).table;
    assert Initialize(once) == Outcome("chain exists", None, once);
  }

  /** Deleting an address that is not banned succeeds and changes nothing
      beyond initialisation. */
  lemma HandleDeleteAbsent(t: Table, ip: string)
    requires Consistent(t) && Initialize(t).err.None?
    requires BanRule(ip) !in Initialize(t).table.rules[BanChain]
    ensures Handle(t, "delete", ip) == Outcome("deleted", None, Initialize(t).table)
  {
    var u := Initialize(t).table;
    DeletedRemovesOne(u.rules[BanChain], BanRule(ip));
    assert u.rules[BanChain := u.rules[BanChain]] == u.rules;
  }

  /** An unknown task fails, with "unknown task" once initialisation has
      succeeded, but the initialisation it ran first stays. */
  lemma HandleUnknownTaskKeepsInitialization(t: Table, task: string, ip: string)
    requires Consistent(t)
    requires task != "add" && task != "delete" && task != "flush"
    ensures Handle(t, task, ip).table == Initialize(t).table
    ensures Handle(t, task, ip).err.Some?
    ensures Initialize(t).err.None? ==> Handle(t, task, ip) == Outcome("", Some(UnknownTask), Initialize(t).table)
  {
  }

  // ---------------------------------------------------------------------
  // The firewall object and the two operations

  /** One protocol's `filter` table, as go-iptables changes it. */
  class Firewall {
    var chains: seq<string>
    var rules: map<string, seq<Rule>>

    ghost predicate Valid()
      reads this
    {
      Consistent(State())
    }

    function State(): Table
      reads this
    {
      Table(chains, rules)
    }

    constructor (t: Table)
      requires Consistent(t)
      ensures Valid() && State() == t
    {
      chains := t.chains;
      rules := t.rules;
    }

    method ListChains() returns (list: seq<string>)
      ensures list == chains
    {
      list := chains;
    }

    method ClearChain(chain: string)
      requires Valid()
      modifies this
      ensures Valid() && State() == Cleared(old(State()), chain)
    {
      if chain !in chains {
        chains := chains + [chain];
      }
      rules := rules[chain := []];
    }

    method Insert(chain: string, pos: nat, rule: Rule)
      requires Valid() && chain in chains && 1 <= pos <= |rules[chain]| + 1
      modifies this
      ensures Valid() && State() == Inserted(old(State()), chain, pos, rule)
    {
      var rs := rules[chain];
      rules := rules[chain := rs[..pos - 1] + [rule] + rs[pos - 1..]];
    }

    method AppendUnique(chain: string, rule: Rule)
      requires Valid() && chain in chains
      modifies this
      ensures Valid() && chains == old(chains)
      ensures rules == old(rules)[chain := AppendedUnique(old(rules)[chain], rule)]
    {
      if rule !in rules[chain] {
        rules := rules[chain := rules[chain] + [rule]];
      }
    }

    method DeleteIfExists(chain: string, rule: Rule)
      requires Valid() && chain in chains
      modifies this
      ensures Valid() && chains == old(chains)
      ensures rules == old(rules)[chain := Deleted(old(rules)[chain], rule)]
    {
      rules := rules[chain := Deleted(rules[chain], rule)];
    }
  }

  /** `InitializeIPTables`, step by step on the firewall object. */
  method InitializeIPTables(ipt: Firewall) returns (status: string, err: Option<string>)
    requires ipt.Valid()
    modifies ipt
    ensures ipt.Valid()
    ensures Outcome(status, err, ipt.State()) == Initialize(old(ipt.State()))
  {
    var originalListChain := ipt.ListChains();
    var found := Contains(originalListChain, InputChain);
    if !found {
      return "error", Some(MissingInput);
    }
    found := Contains(originalListChain, ForwardChain);
    if !found {
      return "error", Some(MissingForward);
    }
    found := Contains(originalListChain, BanChain);
    if found {
      return "chain exists", None;
    }
    ipt.ClearChain(BanChain);
    ipt.Insert(InputChain, 1, JumpToBan);
    ipt.Insert(ForwardChain, 1, JumpToBan);
    return "chain created", None;
  }

  /** `IPtableHandle`: open the table of the protocol ("ipv6" selects IPv6,
      anything else IPv4), initialise it, then add, delete or flush the ban
      rule for `ipvar`. The other protocol's table is not touched. */
  method IPtableHandle(proto: string, task: string, ipvar: string, v4: Firewall, v6: Firewall)
    returns (value: string, err: Option<string>)
    requires v4 != v6 && v4.Valid() && v6.Valid()
    modifies v4, v6
    ensures v4.Valid() && v6.Valid()
    ensures ProtocolOf(proto) == IPv6 ==>
      Outcome(value, err, v6.State()) == Handle(old(v6.State()), task, ipvar) && v4.State() == old(v4.State())
    ensures ProtocolOf(proto) == IPv4 ==>
      Outcome(value, err, v4.State()) == Handle(old(v4.State()), task, ipvar) && v6.State() == old(v6.State())
  {
    var ipt := if ProtocolOf(proto) == IPv6 then v6 else v4;
    var _, initErr := InitializeIPTables(ipt);
    if initErr.Some? {
      return "", initErr;
    }
    if task == "add" {
      ipt.AppendUnique(BanChain, BanRule(ipvar));
      return "added", None;
    } else if task == "delete" {
      ipt.DeleteIfExists(BanChain, BanRule(ipvar));
      return "deleted", None;
    } else if task == "flush" {
      ipt.ClearChain(BanChain);
      return "flushed", None;
    }
    return "", Some(UnknownTask);
  }
}
