/** The row-to-object projection shared by `ProcessResults` (pgsqljson) and
    `processResults` (sqljson): every result row becomes a map from column
    name to that row's value, and the maps are collected in row order. Rows
    are given already scanned, one string per column. */
module Rows {
  import opened Common

  /** The map built for one row: column `cols[i]` bound to `row[i]`,
      assigned left to right, so a later column overwrites an earlier one of
      the same name. */
  function RowMap(cols: seq<string>, row: seq<string>): map<string, string>
    requires |row| == |cols|
    decreases |cols|
  {
    if |cols| == 0 then map[]
    else
      RowMap(cols[..|cols| - 1], row[..|row| - 1])[cols[|cols| - 1] := row[|row| - 1]]
  }

  /** The keys of a row's map are exactly the column names. */
  lemma {:induction false} RowMapKeys(cols: seq<string>, row: seq<string>)
    requires |row| == |cols|
    ensures forall k :: k in RowMap(cols, row) <==> k in cols
    decreases |cols|
  {
    if |cols| > 0 {
      var n := |cols| - 1;
      RowMapKeys(cols[..n], row[..n]);
      assert cols == cols[..n] + [cols[n]];
    }
  }

  /** A column name is bound to the value of its LAST occurrence among the
      columns. */
  lemma {:induction false} RowMapLastWins(cols: seq<string>, row: seq<string>, j: nat)
    requires |row| == |cols|
    requires j < |cols|
    requires forall j' :: j < j' < |cols| ==> cols[j'] != cols[j]
    ensures cols[j] in RowMap(cols, row) && RowMap(cols, row)[cols[j]] == row[j]
    decreases |cols|
  {
    var n := |cols| - 1;
    if j < n {
      RowMapLastWins(cols[..n], row[..n], j);
    }
  }

  predicate Rectangular(cols: seq<string>, rows: seq<seq<string>>)
  {
    forall r :: 0 <= r < |rows| ==> |rows[r]| == |cols|
  }

  /** The scan-and-project loop: for each row, scan its values into a
      buffer of `len(cols)` slots, bind each column name to its slot, and
      append the map. The list starts as an empty, non-nil slice
      (`make(..., 0)`), so no rows give `[]` rather than `null`. */
  method Project(cols: seq<string>, rows: seq<seq<string>>) returns (list: Slice<map<string, string>>)
    requires Rectangular(cols, rows)
    ensures list.Slice?
    ensures |list.Items()| == |rows|
    ensures forall r :: 0 <= r < |rows| ==> list.Items()[r] == RowMap(cols, rows[r])
  {
    list := Slice([]);
    var r := 0;
    while r < |rows|
      invariant 0 <= r <= |rows|
      invariant list.Slice? && |list.Items()| == r
      invariant forall q :: 0 <= q < r ==> list.Items()[q] == RowMap(cols, rows[q])
    {
      var vals := new string[|cols|];
      var i := 0;
      while i < |cols|
        invariant 0 <= i <= |cols|
        invariant vals[..i] == rows[r][..i]
      {
        vals[i] := rows[r][i];
        i := i + 1;
      }
      assert vals[..] == rows[r];
      var m := map[];
      i := 0;
      while i < vals.Length
        invariant 0 <= i <= vals.Length
        invariant m == RowMap(cols[..i], vals[..i])
      {
        assert cols[..i + 1][..i] == cols[..i];
        assert vals[..i + 1][..i] == vals[..i];
        m := m[cols[i] := vals[i]];
        i := i + 1;
      }
      assert cols[..i] == cols;
      assert vals[..i] == rows[r];
      list := list.Append(m);
      r := r + 1;
    }
  }
}
