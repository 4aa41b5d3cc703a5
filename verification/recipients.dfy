/** The recipient loader `read_csv`: the rows of the recipient file, kept in
    file order, restricted to one department and to well-formed addresses. */
module Recipients {
  import opened EmailFormat

  /** One data row of the recipient file: the values `csv.DictReader` gives
      for the three required keys. */
  datatype Row = Row(email: string, name: string, departmentCode: string)

  /** The department code that selects every row. */
  const AllDepartments: string := "all"

  /** A row is kept when its department matches the requested code (or the
      code is `all`) and its address is well formed. */
  predicate Selected(departmentCode: string, row: Row) {
    (departmentCode == AllDepartments || row.departmentCode == departmentCode)
    && IsValidEmail(row.email)
  }

  /** `read_csv`: the selected rows in their original order. */
  function ReadCsv(rows: seq<Row>, departmentCode: string): (r: seq<Row>)
    ensures |r| <= |rows|
  {
    if |rows| == 0 then []
    else
      var rest := ReadCsv(rows[1..], departmentCode);
      if Selected(departmentCode, rows[0]) then [rows[0]] + rest else rest
  }

  /** A row is loaded exactly when it is in the file and selected. */
  lemma {:induction false} ReadCsvMembers(rows: seq<Row>, departmentCode: string, x: Row)
    ensures x in ReadCsv(rows, departmentCode) <==> x in rows && Selected(departmentCode, x)
    decreases |rows|
  {
    if |rows| > 0 {
      ReadCsvMembers(rows[1..], departmentCode, x);
      assert x in rows <==> x == rows[0] || x in rows[1..];
    }
  }

  /** Which rows `read_csv` keeps, position by position. */
  function SelectionMask(rows: seq<Row>, departmentCode: string): (keep: seq<bool>)
    ensures |keep| == |rows|
    ensures forall j :: 0 <= j < |rows| ==> (keep[j] <==> Selected(departmentCode, rows[j]))
  {
    seq(|rows|, j requires 0 <= j < |rows| => Selected(departmentCode, rows[j]))
  }

  /** `idx` lists, in increasing order, exactly the positions marked in
      `keep`, and `r` holds the rows at those positions in that order. */
  ghost predicate FilterWitness(rows: seq<Row>, keep: seq<bool>, r: seq<Row>, idx: seq<int>) {
    && |keep| == |rows|
    && |idx| == |r|
    && (forall k :: 0 <= k < |idx| ==> 0 <= idx[k] < |rows| && r[k] == rows[idx[k]])
    && (forall a, b :: 0 <= a < b < |idx| ==> idx[a] < idx[b])
    && (forall j :: 0 <= j < |rows| ==> (keep[j] <==> j in idx))
  }

  function Shift(idx: seq<int>): (r: seq<int>)
    ensures |r| == |idx|
    ensures forall k :: 0 <= k < |idx| ==> r[k] == idx[k] + 1
  {
    seq(|idx|, k requires 0 <= k < |idx| => idx[k] + 1)
  }

  /** Shifting a witness for the rows after the first by one accounts for
      every row but the first. */
  lemma ShiftWitness(rows: seq<Row>, keep: seq<bool>, rest: seq<Row>, idx: seq<int>)
    requires |rows| > 0 && |keep| == |rows|
    requires FilterWitness(rows[1..], keep[1..], rest, idx)
    ensures forall k :: 0 <= k < |idx| ==> 1 <= Shift(idx)[k] < |rows| && rest[k] == rows[Shift(idx)[k]]
    ensures forall a, b :: 0 <= a < b < |idx| ==> Shift(idx)[a] < Shift(idx)[b]
    ensures forall j :: 1 <= j < |rows| ==> (keep[j] <==> j in Shift(idx))
    ensures 0 !in Shift(idx)
  {
    var shifted := Shift(idx);
    forall j | 1 <= j < |rows|
      ensures keep[j] <==> j in shifted
    {
      assert keep[j] == keep[1..][j - 1];
      if j - 1 in idx {
        var k :| 0 <= k < |idx| && idx[k] == j - 1;
        assert shifted[k] == j;
      }
    }
  }

  lemma WitnessKeep(rows: seq<Row>, keep: seq<bool>, rest: seq<Row>, idx: seq<int>)
    requires |rows| > 0 && |keep| == |rows| && keep[0]
    requires FilterWitness(rows[1..], keep[1..], rest, idx)
    ensures FilterWitness(rows, keep, [rows[0]] + rest, [0] + Shift(idx))
  {
    ShiftWitness(rows, keep, rest, idx);
    var all := [0] + Shift(idx);
    assert forall j :: 1 <= j < |rows| ==> (j in all <==> j in Shift(idx));
  }

  lemma WitnessSkip(rows: seq<Row>, keep: seq<bool>, rest: seq<Row>, idx: seq<int>)
    requires |rows| > 0 && |keep| == |rows| && !keep[0]
    requires FilterWitness(rows[1..], keep[1..], rest, idx)
    ensures FilterWitness(rows, keep, rest, Shift(idx))
  {
    ShiftWitness(rows, keep, rest, idx);
  }

  /** The result of `read_csv` is the order-preserving subsequence of exactly
      the selected rows. */
  lemma {:induction false} ReadCsvIsOrderedSubsequence(rows: seq<Row>, departmentCode: string)
    ensures exists idx :: FilterWitness(rows, SelectionMask(rows, departmentCode), ReadCsv(rows, departmentCode), idx)
    decreases |rows|
  {
    var keep := SelectionMask(rows, departmentCode);
    if |rows| == 0 {
      assert ReadCsv(rows, departmentCode) == [];
      assert FilterWitness(rows, keep, [], []);
    } else {
      ReadCsvIsOrderedSubsequence(rows[1..], departmentCode);
      assert keep[1..] == SelectionMask(rows[1..], departmentCode);
      var rest := ReadCsv(rows[1..], departmentCode);
      var idx :| FilterWitness(rows[1..], keep[1..], rest, idx);
      if keep[0] {
        WitnessKeep(rows, keep, rest, idx);
        assert ReadCsv(rows, departmentCode) == [rows[0]] + rest;
      } else {
        WitnessSkip(rows, keep, rest, idx);
        assert ReadCsv(rows, departmentCode) == rest;
      }
    }
  }

  /** Filtering twice with the same code keeps the same rows as filtering once. */
  lemma {:induction false} ReadCsvIdempotent(rows: seq<Row>, departmentCode: string)
    ensures ReadCsv(ReadCsv(rows, departmentCode), departmentCode) == ReadCsv(rows, departmentCode)
    decreases |rows|
  {
    if |rows| > 0 {
      ReadCsvIdempotent(rows[1..], departmentCode);
      var rest := ReadCsv(rows[1..], departmentCode);
      if Selected(departmentCode, rows[0]) {
        assert ([rows[0]] + rest)[1..] == rest;
      }
    }
  }

  /** The department code `all` keeps exactly the rows with a valid address. */
  lemma ReadCsvAll(rows: seq<Row>)
    ensures forall x :: x in ReadCsv(rows, AllDepartments) <==> x in rows && IsValidEmail(x.email)
  {
    forall x {
      ReadCsvMembers(rows, AllDepartments, x);
    }
  }
}
