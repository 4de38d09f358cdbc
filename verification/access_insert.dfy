/** The statement text of `insert_data` in ey_playground.py: the column names of
    `Table1` as the cursor describes them, without the first (the key column the
    database fills in), joined by commas, and one `?` placeholder per column. */
module AccessInsert {
  import opened Wrappers
  import opened Text

  /** `del column_names[0]` on a table without columns raises IndexError. */
  datatype InsertError = NoColumns

  /** The column names that receive values: all but the first. */
  function ValueColumns(columnNames: seq<string>): (r: Result<seq<string>, InsertError>)
    ensures r.Failure? <==> |columnNames| == 0
    ensures r.Success? ==> |r.value| == |columnNames| - 1
    ensures r.Success? ==> forall i :: 0 <= i < |r.value| ==> r.value[i] == columnNames[i + 1]
  {
    if |columnNames| == 0 then Failure(NoColumns) else Success(columnNames[1..])
  }

  /** `["?"] * n`. */
  function Placeholders(n: nat): (r: seq<string>)
    ensures |r| == n
    ensures forall i :: 0 <= i < n ==> r[i] == "?"
  {
    seq(n, _ => "?")
  }

  /** `columns_db` and `values_db`. */
  datatype InsertParts = InsertParts(columns: string, values: string)

  function Parts(columnNames: seq<string>): Result<InsertParts, InsertError> {
    var cols :- ValueColumns(columnNames);
    Success(InsertParts(Join(",", cols), Join(",", Placeholders(|cols|))))
  }

  /** `INSERT INTO Table1 (<columns>) VALUES (<placeholders>)`. */
  function InsertStatement(columnNames: seq<string>): Result<string, InsertError> {
    var p :- Parts(columnNames);
    Success("INSERT INTO Table1 (" + p.columns + ") VALUES (" + p.values + ")")
  }

  /** The statement exists exactly when the table has a column. */
  lemma InsertStatementFails(columnNames: seq<string>)
    ensures InsertStatement(columnNames).Failure? ==> |columnNames| == 0
    ensures |columnNames| == 0 ==> InsertStatement(columnNames) == Failure(NoColumns)
  {
  }

  /** Splitting the column text at its commas gives back the value columns, in
      order, when no name holds a comma. */
  lemma ColumnsRoundTrip(columnNames: seq<string>)
    requires |columnNames| >= 2
    requires forall i :: 0 <= i < |columnNames| ==> ',' !in columnNames[i]
    ensures Parts(columnNames).Success?
    ensures Split(Parts(columnNames).value.columns, ',') == columnNames[1..]
  {
    var cols := columnNames[1..];
    assert forall k :: 0 <= k < |cols| ==> cols[k] == columnNames[k + 1];
    SplitJoin(cols, ',');
  }

  /** There are as many placeholders as value columns. */
  lemma PlaceholdersMatchColumns(columnNames: seq<string>)
    requires |columnNames| >= 2
    requires forall i :: 0 <= i < |columnNames| ==> ',' !in columnNames[i]
    ensures Parts(columnNames).Success?
    ensures var p := Parts(columnNames).value;
      && Split(p.values, ',') == Placeholders(|columnNames| - 1)
      && |Split(p.values, ',')| == |Split(p.columns, ',')|
  {
    ColumnsRoundTrip(columnNames);
    var n := |columnNames| - 1;
    assert forall k :: 0 <= k < n ==> Placeholders(n)[k] == "?";
    SplitJoin(Placeholders(n), ',');
  }

  /** A table whose only column is the key gets empty lists. */
  lemma KeyColumnOnly(key: string)
    ensures InsertStatement([key]) == Success("INSERT INTO Table1 () VALUES ()")
  {
    assert Parts([key]) == Success(InsertParts("", ""));
    assert "INSERT INTO Table1 (" + "" + ") VALUES (" + "" + ")" == "INSERT INTO Table1 () VALUES ()";
  }

  /** The three value columns of a four-column table. */
  lemma ThreeColumns()
    ensures InsertStatement(["id", "a", "b", "c"]) == Success("INSERT INTO Table1 (a,b,c) VALUES (?,?,?)")
  {
    var cols: seq<string> := ["a", "b", "c"];
    assert ["id", "a", "b", "c"][1..] == cols;
    assert cols[1..][1..] == ["c"];
    assert Join(",", cols[1..][1..]) == "c";
    assert Join(",", cols[1..]) == "b" + "," + "c";
    assert Join(",", cols) == "a" + "," + ("b" + "," + "c") == "a,b,c";
    var q := Placeholders(3);
    assert q == ["?", "?", "?"];
    assert q[1..] == ["?", "?"] && q[1..][1..] == ["?"];
    assert Join(",", q[1..]) == "?" + "," + "?";
    assert Join(",", q) == "?" + "," + ("?" + "," + "?") == "?,?,?";
    assert Parts(["id", "a", "b", "c"]) == Success(InsertParts("a,b,c", "?,?,?"));
    assert "INSERT INTO Table1 (" + "a,b,c" + ") VALUES (" + "?,?,?" + ")" ==
           "INSERT INTO Table1 (a,b,c) VALUES (?,?,?)";
  }
}
