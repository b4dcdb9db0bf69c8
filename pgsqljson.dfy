/** pgsqljson/pgsqljson.go: the required-field check and the conversion of
    a SQL result set into a list of column-name-to-value maps. */
module PgSqlJson {
  import opened Common
  import RequiredFields
  import Rows

  /** `CheckFields`: a key counts as present when the map has it, whatever
      its value; the result is "" when every required key is present, and
      otherwise `key + " is missing. "` for each absent key, in the order
      of `reqfields`. */
  method CheckFields(mapstring: map<string, string>, reqfields: seq<string>) returns (errstring: string)
    ensures errstring == RequiredFields.Missing(mapstring.Keys, reqfields)
    ensures errstring == "" <==> forall k :: k in reqfields ==> k in mapstring
  {
    errstring := RequiredFields.CollectMissing(mapstring.Keys, reqfields);
  }

  /** `ProcessResults`: one map per row, in row order, each binding
      `cols[i]` to the row's i-th value (a later duplicate column wins); the
      list is a non-nil slice even without rows. */
  method ProcessResults(cols: seq<string>, rows: seq<seq<string>>) returns (list: Slice<map<string, string>>)
    requires Rows.Rectangular(cols, rows)
    ensures list.Slice? && |list.Items()| == |rows|
    ensures forall r :: 0 <= r < |rows| ==> list.Items()[r] == Rows.RowMap(cols, rows[r])
  {
    list := Rows.Project(cols, rows);
  }
}
