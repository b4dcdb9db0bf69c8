/** The required-field report every `CheckFields` variant builds: for each
    required key, in order, that does not pass the variant's presence test,
    the text `key + " is missing. "`. The variants differ only in which keys
    pass (present at all, or present with a non-empty value), so the report
    is stated over the set of keys that pass. */
module RequiredFields {

  const Suffix: string := " is missing. "

  /** The error text for the required keys `req` when exactly the keys in
      `present` pass the check. */
  function Missing(present: set<string>, req: seq<string>): string
    decreases |req|
  {
    if |req| == 0 then ""
    else
      var key := req[|req| - 1];
      Missing(present, req[..|req| - 1]) + (if key in present then "" else key + Suffix)
  }

  /** The report is empty exactly when every required key passes. */
  lemma {:induction false} MissingEmpty(present: set<string>, req: seq<string>)
    ensures Missing(present, req) == "" <==> forall k :: k in req ==> k in present
    decreases |req|
  {
    if |req| > 0 {
      var init := req[..|req| - 1];
      MissingEmpty(present, init);
      assert req == init + [req[|req| - 1]];
      forall k | k in init ensures k in req { }
    }
  }

  /** The report follows the order of the required keys: the report for a
      concatenation is the concatenation of the reports, so a key listed
      twice and missing is reported twice. */
  lemma {:induction false} MissingConcat(present: set<string>, a: seq<string>, b: seq<string>)
    ensures Missing(present, a + b) == Missing(present, a) + Missing(present, b)
    decreases |b|
  {
    if |b| > 0 {
      var ab := a + b;
      assert ab[..|ab| - 1] == a + b[..|b| - 1];
      assert ab[|ab| - 1] == b[|b| - 1];
      MissingConcat(present, a, b[..|b| - 1]);
    } else {
      assert a + b == a;
    }
  }

  /** The report for a single key. */
  lemma MissingOne(present: set<string>, key: string)
    ensures Missing(present, [key]) == if key in present then "" else key + " is missing. "
  {
    assert [key][..0] == [];
  }

  /** The loop every variant runs: append `key + " is missing. "` to the
      error text for each required key that does not pass. */
  method CollectMissing(present: set<string>, req: seq<string>) returns (errstring: string)
    ensures errstring == Missing(present, req)
    ensures errstring == "" <==> forall k :: k in req ==> k in present
  {
    errstring := "";
    var i := 0;
    while i < |req|
      invariant 0 <= i <= |req|
      invariant errstring == Missing(present, req[..i])
    {
      var key := req[i];
      assert req[..i + 1][..i] == req[..i];
      if key !in present {
        errstring := errstring + key + Suffix;
      }
      i := i + 1;
    }
    assert req[..i] == req;
    MissingEmpty(present, req);
  }
}
