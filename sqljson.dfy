/** sqljson/sqljson.go: the older, logging copy of the pgsqljson helpers.
    Its log output does not influence any result and is not modelled. */
module SqlJson {
  import opened Common
  import RequiredFields
  import Rows

  /** `checkFields`: "" when every required key is present (an empty value
      counts as present), otherwise `key + " is missing. "` for each absent
      key, in the order of `reqfields`. */
  method CheckFields(mapstring: map<string, string>, reqfields: seq<string>) returns (errstring: string)
    ensures errstring == RequiredFields.Missing(mapstring.Keys, reqfields)
    ensures errstring == "" <==> forall k :: k in reqfields ==> k in mapstring
  {
    errstring := RequiredFields.CollectMissing(mapstring.Keys, reqfields);
  }

  /** `processResults`: one map per row, in row order, `cols[i]` bound to
      the row's i-th value, later duplicate columns winning; `[]` (not
      `null`) when there are no rows. */
  method ProcessResults(cols: seq<string>, rows: seq<seq<string>>) returns (list: Slice<map<string, string>>)
    requires Rows.Rectangular(cols, rows)
    ensures list.Slice? && |list.Items()| == |rows|
    ensures forall r :: 0 <= r < |rows| ==> list.Items()[r] == Rows.RowMap(cols, rows[r])
  {
    list := Rows.Project(cols, rows);
  }
}
