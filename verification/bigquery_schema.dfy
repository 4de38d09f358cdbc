/** The BigQuery side of the schema tools (gcp_data_load.py): the type table, the
    total type lookup, and the part of `build_schema_from_csv` that turns an
    already-read schema-definition frame into one table name, an ordered list of
    BigQuery schema fields and the list of field names turned away as duplicates. */
module BigQuerySchema {
  import opened Wrappers
  import opened Text
  import opened Dedup

  // ---------------------------------------------------------------------------
  // Type mapping
  // ---------------------------------------------------------------------------

  /** Schema-definition type (upper-cased) to BigQuery type. */
  const TypeMap: map<string, string> := map[
    "CHAR" := "STRING", "VARCHAR" := "STRING", "STRING" := "STRING", "TEXT" := "STRING",
    "INT" := "INTEGER", "INTEGER" := "INTEGER", "INT64" := "INTEGER",
    "FLOAT" := "FLOAT", "FLOAT64" := "FLOAT",
    "DECIMAL" := "NUMERIC", "NUMERIC" := "NUMERIC",
    "DATE" := "DATE", "DATETIME" := "DATETIME", "TIMESTAMP" := "TIMESTAMP",
    "BOOLEAN" := "BOOLEAN", "BOOL" := "BOOLEAN",
    "BYTES" := "BYTES"
  ]

  /** Every BigQuery type the tool can produce. */
  const BigQueryTypes: set<string> :=
    {"STRING", "INTEGER", "FLOAT", "NUMERIC", "DATE", "DATETIME", "TIMESTAMP", "BOOLEAN", "BYTES"}

  /** The total lookup: whitespace and letter case are ignored, and anything the
      table does not know becomes STRING rather than an error. */
  function MapType(t: string): (r: string)
    ensures r in BigQueryTypes
    ensures r in TypeMap.Values || r == "STRING"
    ensures Upper(Strip(t)) !in TypeMap ==> r == "STRING"
    ensures Upper(Strip(t)) in TypeMap ==> r == TypeMap[Upper(Strip(t))]
  {
    var key := Upper(Strip(t));
    if key in TypeMap then TypeMap[key] else "STRING"
  }

  lemma UpperCharSpace(c: char)
    ensures IsSpace(UpperChar(c)) == IsSpace(c)
  {
  }

  lemma {:induction false} TrimStartUpper(s: string)
    ensures TrimStart(Upper(s)) == Upper(TrimStart(s))
    decreases |s|
  {
    if |s| > 0 {
      var u := Upper(s);
      assert u[0] == UpperChar(s[0]);
      UpperCharSpace(s[0]);
      if IsSpace(s[0]) {
        assert u[1..] == Upper(s[1..]);
        TrimStartUpper(s[1..]);
      }
    }
  }

  lemma {:induction false} TrimEndUpper(s: string)
    ensures TrimEnd(Upper(s)) == Upper(TrimEnd(s))
    decreases |s|
  {
    if |s| > 0 {
      if IsSpace(s[|s| - 1]) {
        TrimEndUpperSpace(s);
        TrimEndUpper(s[..|s| - 1]);
      } else {
        TrimEndUpperStop(s);
      }
    }
  }

  lemma TrimEndUpperSpace(s: string)
    requires |s| > 0 && IsSpace(s[|s| - 1])
    ensures TrimEnd(s) == TrimEnd(s[..|s| - 1])
    ensures TrimEnd(Upper(s)) == TrimEnd(Upper(s[..|s| - 1]))
  {
    var n, u := |s| - 1, Upper(s);
    assert u[n] == UpperChar(s[n]);
    UpperCharSpace(s[n]);
    assert u[..n] == Upper(s[..n]);
  }

  lemma TrimEndUpperStop(s: string)
    requires |s| > 0 && !IsSpace(s[|s| - 1])
    ensures TrimEnd(s) == s
    ensures TrimEnd(Upper(s)) == Upper(s)
  {
    var n, u := |s| - 1, Upper(s);
    assert u[n] == UpperChar(s[n]);
    UpperCharSpace(s[n]);
  }

  /** Upper-casing and stripping commute. */
  lemma StripUpper(s: string)
    ensures Strip(Upper(s)) == Upper(Strip(s))
  {
    TrimStartUpper(s);
    TrimEndUpper(TrimStart(s));
  }

  /** Two spellings that differ only in letter case map to the same type. */
  lemma MapTypeIgnoresCase(t: string, u: string)
    requires Upper(t) == Upper(u)
    ensures MapType(t) == MapType(u)
  {
    StripUpper(t);
    StripUpper(u);
  }

  /** Surrounding whitespace never changes the mapped type. */
  lemma MapTypeIgnoresPadding(ws1: string, t: string, ws2: string)
    requires AllSpace(ws1) && AllSpace(ws2)
    ensures MapType(ws1 + t + ws2) == MapType(t)
  {
    StripPadding(ws1, t, ws2);
  }

  /** A type cell without surrounding whitespace is looked up by its upper-case
      form; in particular DATETIME stays DATETIME (the module's header comment lists
      it under TIMESTAMP, but the table is what the code uses). */
  lemma MapTypeTrimmed(t: string)
    requires Trimmed(t)
    ensures MapType(t) == if Upper(t) in TypeMap then TypeMap[Upper(t)] else "STRING"
  {
    StripTrimmed(t);
  }

  lemma UpperDatetime()
    ensures Trimmed("datetime") && Upper("datetime") == "DATETIME"
  {
  }

  lemma UpperUuid()
    ensures Trimmed("uuid") && Upper("uuid") == "UUID"
  {
  }

  /** DATETIME maps to DATETIME, not to TIMESTAMP. */
  lemma MapTypeDatetime()
    ensures MapType("datetime") == "DATETIME"
  {
    UpperDatetime();
    MapTypeTrimmed("datetime");
  }

  /** No key of the table starts with U. */
  lemma UuidUnknown()
    ensures "UUID" !in TypeMap
  {
    assert forall k :: k in TypeMap ==> |k| > 0 && k[0] != 'U';
  }

  /** An unknown type, and an empty one, fall back to STRING. */
  lemma MapTypeFallback()
    ensures MapType("uuid") == "STRING"
    ensures MapType("") == "STRING"
  {
    UpperUuid();
    UuidUnknown();
    StripTrimmed("uuid");
    MapTypeDefault();
  }

  // ---------------------------------------------------------------------------
  // The schema-definition frame
  // ---------------------------------------------------------------------------

  /** One record of the frame, keyed by (already stripped) column header. */
  type Row = map<string, string>

  /** The frame after reading: its column headers and its records. */
  datatype Frame = Frame(columns: set<string>, rows: seq<Row>)

  /** Python's `row.get(column, default)`. */
  function Get(row: Row, column: string, default: string): string {
    if column in row then row[column] else default
  }

  /** Every cell of a record with surrounding whitespace removed. */
  function StripCells(row: Row): (r: Row)
    ensures r.Keys == row.Keys
    ensures forall c :: c in row ==> r[c] == Strip(row[c]) && Trimmed(r[c])
  {
    map c | c in row :: Strip(row[c])
  }

  function StripRows(rows: seq<Row>): (r: seq<Row>)
    ensures |r| == |rows|
    ensures forall i :: 0 <= i < |rows| ==> r[i] == StripCells(rows[i])
  {
    seq(|rows|, i requires 0 <= i < |rows| => StripCells(rows[i]))
  }

  lemma GetStripped(row: Row, column: string)
    ensures Get(StripCells(row), column, "") == Strip(Get(row, column, ""))
  {
    if column !in row {
      assert Strip("") == "";
    }
  }

  function FieldNameOf(row: Row): string {
    Get(row, "Field Name", "")
  }

  /** The records that keep a field name; the others are dropped, in order. */
  function Survivors(rows: seq<Row>): (r: seq<Row>)
    ensures |r| <= |rows|
    ensures forall i :: 0 <= i < |r| ==> FieldNameOf(r[i]) != ""
    ensures forall i :: 0 <= i < |r| ==> r[i] in rows
    ensures forall i :: 0 <= i < |rows| && FieldNameOf(rows[i]) != "" ==> rows[i] in r
  {
    if |rows| == 0 then []
    else
      var p := rows[..|rows| - 1];
      var row := rows[|rows| - 1];
      assert rows == p + [row];
      if FieldNameOf(row) != "" then Survivors(p) + [row] else Survivors(p)
  }

  /** Dropping records is a filter: it works piecewise and keeps relative order. */
  lemma {:induction false} SurvivorsAppend(a: seq<Row>, b: seq<Row>)
    ensures Survivors(a + b) == Survivors(a) + Survivors(b)
    decreases |b|
  {
    if |b| == 0 {
      assert a + b == a;
    } else {
      var n := |b| - 1;
      assert (a + b)[..|a + b| - 1] == a + b[..n];
      assert (a + b)[|a + b| - 1] == b[n];
      SurvivorsAppend(a, b[..n]);
    }
  }

  // ---------------------------------------------------------------------------
  // Fields
  // ---------------------------------------------------------------------------

  /** The cells of one record the field loop reads, with their defaults. */
  datatype SchemaRow = SchemaRow(
    fieldName: string,
    keyFlag: string,
    typeName: string,
    length: string,
    decimals: string,
    description: string)

  /** Reads one record: key flag upper-cased, an empty or absent type read as STRING,
      and absent Len, Dec and Description cells read as empty. */
  function ReadRow(row: Row): (r: SchemaRow)
    ensures r.fieldName == FieldNameOf(row)
    ensures r.keyFlag == Upper(Get(row, "KEYFLAG", ""))
    ensures forall i :: 0 <= i < |r.keyFlag| ==> !('a' <= r.keyFlag[i] <= 'z')
    ensures r.typeName != ""
    ensures Get(row, "Type", "") == "" ==> r.typeName == "STRING"
    ensures Get(row, "Type", "") != "" ==> r.typeName == row["Type"]
    ensures r.length == Get(row, "Len", "")
    ensures r.decimals == Get(row, "Dec", "")
    ensures r.description == Get(row, "Description", "")
  {
    var t := Get(row, "Type", "STRING");
    var keyFlag := Get(row, "KEYFLAG", "");
    UpperIdempotent(keyFlag);
    SchemaRow(
      FieldNameOf(row),
      Upper(keyFlag),
      if t == "" then "STRING" else t,
      Get(row, "Len", ""),
      Get(row, "Dec", ""),
      Get(row, "Description", ""))
  }

  datatype Mode = Required | Nullable

  datatype SchemaField = SchemaField(
    name: string,
    fieldType: string,
    mode: Mode,
    description: Option<string>)

  /** Key-flag spellings (after upper-casing) that make a field REQUIRED. */
  const RequiredFlags: set<string> := {"TRUE", "1", "YES", "X"}

  /** The precision text for a NUMERIC field. */
  function Precision(length: string, decimals: string): string {
    "(Len=" + length + ", Dec=" + decimals + ")"
  }

  /** The note as the code builds it: with a leading blank, which `strip()` removes
      when there is no description to follow. */
  function PrecisionNote(length: string, decimals: string): string {
    " " + Precision(length, decimals)
  }

  lemma PrecisionTrimmed(length: string, decimals: string)
    ensures Trimmed(Precision(length, decimals))
  {
    var p := Precision(length, decimals);
    assert p[0] == '(';
    assert p[|p| - 1] == ')';
  }

  lemma OneBlank()
    ensures AllSpace(" ")
  {
  }

  lemma StripPrecisionNote(length: string, decimals: string)
    ensures Strip(PrecisionNote(length, decimals)) == Precision(length, decimals)
  {
    var q := Precision(length, decimals);
    OneBlank();
    StripLeading(" ", q);
    PrecisionTrimmed(length, decimals);
    StripTrimmed(q);
  }

  /** The final description: precision text appended for NUMERIC fields that
      carry a length or a scale, and an empty description read as none. */
  function Describe(bqType: string, length: string, decimals: string, description: string): (r: Option<string>)
    ensures bqType == "NUMERIC" && (length != "" || decimals != "") ==>
      r == Some(if description == "" then Precision(length, decimals)
                else description + " " + Precision(length, decimals))
    ensures !(bqType == "NUMERIC" && (length != "" || decimals != "")) ==>
      r == if description == "" then None else Some(description)
    ensures r != Some("")
  {
    var note := PrecisionNote(length, decimals);
    StripPrecisionNote(length, decimals);
    assert description + note == description + " " + Precision(length, decimals);
    var d :=
      if bqType == "NUMERIC" && (length != "" || decimals != "") then
        if description != "" then description + note else Strip(note)
      else description;
    if d == "" then None else Some(d)
  }

  /** One BigQuery schema field from one record. */
  function MakeField(row: SchemaRow): SchemaField {
    var bqType := MapType(row.typeName);
    SchemaField(
      row.fieldName,
      bqType,
      if row.keyFlag in RequiredFlags then Required else Nullable,
      Describe(bqType, row.length, row.decimals, row.description))
  }

  /** What a field built from one record carries: the record's name, a BigQuery
      type from the table (STRING when unknown), REQUIRED exactly for the four key-flag
      spellings, and the description with precision text for NUMERIC fields. */
  lemma MakeFieldSpec(row: SchemaRow)
    ensures MakeField(row).name == row.fieldName
    ensures MakeField(row).fieldType in BigQueryTypes
    ensures MakeField(row).fieldType == MapType(row.typeName)
    ensures MakeField(row).mode == Required <==> row.keyFlag in RequiredFlags
    ensures MakeField(row).fieldType == "NUMERIC" && (row.length != "" || row.decimals != "") ==>
      MakeField(row).description ==
        Some(if row.description == "" then Precision(row.length, row.decimals)
             else row.description + " " + Precision(row.length, row.decimals))
    ensures !(MakeField(row).fieldType == "NUMERIC" && (row.length != "" || row.decimals != "")) ==>
      MakeField(row).description == if row.description == "" then None else Some(row.description)
  {
  }

  /** The STRING default for a missing type looks up the same as an empty type. */
  lemma MapTypeDefault()
    ensures MapType("STRING") == "STRING" && MapType("") == "STRING"
  {
    assert Upper("STRING") == "STRING";
    MapTypeTrimmed("STRING");
    StripTrimmed("");
  }

  /** The field built from one record, in terms of the record's own cells: its name,
      REQUIRED exactly when the upper-cased KEYFLAG cell is one of the four spellings,
      the mapped Type cell (STRING when that cell is empty or absent), and the
      description from the Len, Dec and Description cells. */
  lemma RecordField(row: Row)
    ensures var f := MakeField(ReadRow(row));
      && f.name == FieldNameOf(row)
      && (f.mode == Required <==> Upper(Get(row, "KEYFLAG", "")) in RequiredFlags)
      && f.fieldType == MapType(Get(row, "Type", ""))
      && (Get(row, "Type", "") == "" ==> f.fieldType == "STRING")
      && f.description == Describe(f.fieldType, Get(row, "Len", ""), Get(row, "Dec", ""), Get(row, "Description", ""))
  {
    MakeFieldSpec(ReadRow(row));
    MapTypeDefault();
  }

  // ---------------------------------------------------------------------------
  // Duplicate guard
  // ---------------------------------------------------------------------------

  function FieldNames(rows: seq<SchemaRow>): (r: seq<string>)
    ensures |r| == |rows|
    ensures forall i :: 0 <= i < |rows| ==> r[i] == rows[i].fieldName
  {
    seq(|rows|, i requires 0 <= i < |rows| => rows[i].fieldName)
  }

  function Names(fields: seq<SchemaField>): (r: seq<string>)
    ensures |r| == |fields|
    ensures forall i :: 0 <= i < |fields| ==> r[i] == fields[i].name
  {
    seq(|fields|, i requires 0 <= i < |fields| => fields[i].name)
  }

  datatype Guarded = Guarded(fields: seq<SchemaField>, duplicates: seq<string>)

  /** What the field loop has built after reading `rows`: the accepted names are
      the distinct names in first-seen order, each field comes from the FIRST record
      bearing its name, and the duplicates are the later occurrences in input order. */
  ghost predicate Accounts(rows: seq<SchemaRow>, g: Guarded) {
    && Names(g.fields) == FirstSeen(FieldNames(rows))
    && g.duplicates == Repeats(FieldNames(rows))
    && forall k :: 0 <= k < |g.fields| ==>
         g.fields[k].name in FieldNames(rows) &&
         g.fields[k] == MakeField(rows[FirstIndex(FieldNames(rows), g.fields[k].name)])
  }

  lemma NamesSnoc(fields: seq<SchemaField>, f: SchemaField)
    ensures Names(fields + [f]) == Names(fields) + [f.name]
  {
  }

  lemma FieldNamesSnoc(rows: seq<SchemaRow>, row: SchemaRow)
    ensures FieldNames(rows + [row]) == FieldNames(rows) + [row.fieldName]
  {
  }

  lemma FieldNamesAppend(rows: seq<SchemaRow>, more: seq<SchemaRow>)
    ensures FieldNames(rows + more) == FieldNames(rows) + FieldNames(more)
  {
  }

  /** The loop body on one record. */
  function GuardTurn(g: Guarded, row: SchemaRow): Guarded {
    if row.fieldName in Names(g.fields) then Guarded(g.fields, g.duplicates + [row.fieldName])
    else Guarded(g.fields + [MakeField(row)], g.duplicates)
  }

  /** A field already built from `p` still comes from the first record bearing its
      name once `row` is read. */
  lemma GuardTurnKeepsOrigin(p: seq<SchemaRow>, row: SchemaRow, f: SchemaField)
    requires f.name in FieldNames(p)
    requires f == MakeField(p[FirstIndex(FieldNames(p), f.name)])
    ensures f.name in FieldNames(p + [row])
    ensures f == MakeField((p + [row])[FirstIndex(FieldNames(p + [row]), f.name)])
  {
    FieldNamesSnoc(p, row);
    FirstIndexAppend(FieldNames(p), [row.fieldName], f.name);
  }

  /** A record with a new name is the first record bearing it. */
  lemma GuardTurnNewOrigin(p: seq<SchemaRow>, row: SchemaRow)
    requires row.fieldName !in FieldNames(p)
    ensures row.fieldName in FieldNames(p + [row])
    ensures MakeField(row) == MakeField((p + [row])[FirstIndex(FieldNames(p + [row]), row.fieldName)])
  {
    FieldNamesSnoc(p, row);
    FirstIndexLast(FieldNames(p), row.fieldName);
  }

  lemma GuardStepNames(p: seq<SchemaRow>, row: SchemaRow, g: Guarded)
    requires Names(g.fields) == FirstSeen(FieldNames(p))
    ensures Names(GuardTurn(g, row).fields) == FirstSeen(FieldNames(p + [row]))
  {
    FieldNamesSnoc(p, row);
    FirstSeenSnoc(FieldNames(p), row.fieldName);
    NamesSnoc(g.fields, MakeField(row));
  }

  lemma GuardStepDuplicates(p: seq<SchemaRow>, row: SchemaRow, g: Guarded)
    requires Names(g.fields) == FirstSeen(FieldNames(p))
    requires g.duplicates == Repeats(FieldNames(p))
    ensures GuardTurn(g, row).duplicates == Repeats(FieldNames(p + [row]))
  {
    FieldNamesSnoc(p, row);
    RepeatsSnoc(FieldNames(p), row.fieldName);
  }

  lemma GuardStepOrigins(p: seq<SchemaRow>, row: SchemaRow, g: Guarded)
    requires Names(g.fields) == FirstSeen(FieldNames(p))
    requires forall k :: 0 <= k < |g.fields| ==>
      g.fields[k].name in FieldNames(p) &&
      g.fields[k] == MakeField(p[FirstIndex(FieldNames(p), g.fields[k].name)])
    ensures var h := GuardTurn(g, row);
      forall k :: 0 <= k < |h.fields| ==>
        h.fields[k].name in FieldNames(p + [row]) &&
        h.fields[k] == MakeField((p + [row])[FirstIndex(FieldNames(p + [row]), h.fields[k].name)])
  {
    var h := GuardTurn(g, row);
    forall k | 0 <= k < |h.fields|
      ensures h.fields[k].name in FieldNames(p + [row])
      ensures h.fields[k] == MakeField((p + [row])[FirstIndex(FieldNames(p + [row]), h.fields[k].name)])
    {
      if k < |g.fields| {
        assert h.fields[k] == g.fields[k];
        GuardTurnKeepsOrigin(p, row, g.fields[k]);
      } else {
        assert row.fieldName !in FieldNames(p);
        assert h.fields[k] == MakeField(row);
        GuardTurnNewOrigin(p, row);
      }
    }
  }

  /** One turn of the loop keeps `Accounts`. */
  lemma GuardStep(p: seq<SchemaRow>, row: SchemaRow, g: Guarded)
    requires Accounts(p, g)
    ensures Accounts(p + [row], GuardTurn(g, row))
  {
    GuardStepNames(p, row, g);
    GuardStepDuplicates(p, row, g);
    GuardStepOrigins(p, row, g);
  }

  /** The field loop: a record whose name is already among the accepted fields (the
      source's `seen_fields`) is recorded as a duplicate, any other becomes a field.
      The accepted names are the distinct names in first-seen order, each field comes
      from the FIRST record bearing its name, and the duplicates are the later
      occurrences in input order. */
  function Guard(rows: seq<SchemaRow>): (g: Guarded)
    ensures Names(g.fields) == FirstSeen(FieldNames(rows))
    ensures g.duplicates == Repeats(FieldNames(rows))
    ensures forall k :: 0 <= k < |g.fields| ==>
      g.fields[k].name in FieldNames(rows) &&
      g.fields[k] == MakeField(rows[FirstIndex(FieldNames(rows), g.fields[k].name)])
  {
    if |rows| == 0 then Guarded([], [])
    else
      var p := rows[..|rows| - 1];
      var row := rows[|rows| - 1];
      assert rows == p + [row];
      var g := Guard(p);
      GuardStep(p, row, g);
      GuardTurn(g, row)
  }

  /** Accepted field names are pairwise distinct, and nothing is lost: every record
      is either a field or a duplicate. */
  lemma GuardPartition(rows: seq<SchemaRow>)
    ensures Distinct(Names(Guard(rows).fields))
    ensures |Guard(rows).fields| + |Guard(rows).duplicates| == |rows|
    ensures forall i :: 0 <= i < |rows| ==> rows[i].fieldName in Names(Guard(rows).fields)
  {
    var ns := FieldNames(rows);
    forall i | 0 <= i < |rows|
      ensures rows[i].fieldName in Names(Guard(rows).fields)
    {
      assert ns[i] in ns;
    }
  }

  /** Records whose names are already distinct pass the guard untouched. */
  lemma GuardDistinct(rows: seq<SchemaRow>)
    requires Distinct(FieldNames(rows))
    ensures Guard(rows).duplicates == []
    ensures |Guard(rows).fields| == |rows|
    ensures forall i :: 0 <= i < |rows| ==> Guard(rows).fields[i] == MakeField(rows[i])
  {
    var ns := FieldNames(rows);
    DistinctFixpoint(ns);
    forall i | 0 <= i < |rows|
      ensures Guard(rows).fields[i] == MakeField(rows[i])
    {
      assert Names(Guard(rows).fields)[i] == ns[i];
      assert ns[i] !in ns[..i];
      FirstIndexUnique(ns, ns[i], i);
    }
  }

  /** Guarding the fields a guard let through changes nothing. */
  lemma GuardIdempotent(rows: seq<SchemaRow>)
    ensures Repeats(Names(Guard(rows).fields)) == []
    ensures FirstSeen(Names(Guard(rows).fields)) == Names(Guard(rows).fields)
  {
    FirstSeenIdempotent(FieldNames(rows));
  }

  /** The guard reads its input once, front to back: more records only extend its
      field list and its duplicate list. */
  lemma GuardPrefix(rows: seq<SchemaRow>, more: seq<SchemaRow>)
    ensures Names(Guard(rows).fields) <= Names(Guard(rows + more).fields)
    ensures Guard(rows).duplicates <= Guard(rows + more).duplicates
  {
    FieldNamesAppend(rows, more);
    PrefixStable(FieldNames(rows), FieldNames(more));
  }

  // ---------------------------------------------------------------------------
  // build_schema_from_csv after parsing
  // ---------------------------------------------------------------------------

  datatype SchemaError =
    | MissingFieldNameColumn  // `dropna(subset=["Field Name"])` on a frame without that column
    | NoFields                // "No fields were found in the CSV file."
    | NoTableName             // "'Table Name' column not found or empty in the CSV file."

  datatype Schema = Schema(tableName: string, fields: seq<SchemaField>, duplicates: seq<string>)

  function ReadRows(rows: seq<Row>): (r: seq<SchemaRow>)
    ensures |r| == |rows|
    ensures forall i :: 0 <= i < |rows| ==> r[i] == ReadRow(rows[i])
  {
    seq(|rows|, i requires 0 <= i < |rows| => ReadRow(rows[i]))
  }

  /** Everything from stripping the cells to the returned (table name, schema):
      the three ways the source raises, checked in the source's order. */
  function BuildSchema(frame: Frame): (r: Result<Schema, SchemaError>)
    ensures r == Failure(MissingFieldNameColumn) <==> "Field Name" !in frame.columns
    ensures r == Failure(NoFields) <==>
      "Field Name" in frame.columns && Survivors(StripRows(frame.rows)) == []
    ensures r == Failure(NoTableName) <==>
      && "Field Name" in frame.columns
      && Survivors(StripRows(frame.rows)) != []
      && ("Table Name" !in frame.columns || Get(Survivors(StripRows(frame.rows))[0], "Table Name", "") == "")
    ensures r.Success? ==>
      && r.value.tableName == Get(Survivors(StripRows(frame.rows))[0], "Table Name", "")
      && r.value.fields == Guard(ReadRows(Survivors(StripRows(frame.rows)))).fields
      && r.value.duplicates == Guard(ReadRows(Survivors(StripRows(frame.rows)))).duplicates
  {
    if "Field Name" !in frame.columns then Failure(MissingFieldNameColumn)
    else
      var kept := Survivors(StripRows(frame.rows));
      if |kept| == 0 then Failure(NoFields)
      else
        var tableName := if "Table Name" in frame.columns then Get(kept[0], "Table Name", "") else "";
        if tableName == "" then Failure(NoTableName)
        else
          var g := Guard(ReadRows(kept));
          Success(Schema(tableName, g.fields, g.duplicates))
  }

  lemma StrippedName(rows: seq<Row>, i: nat)
    requires i < |rows|
    ensures FieldNameOf(StripRows(rows)[i]) == Strip(FieldNameOf(rows[i]))
  {
    GetStripped(rows[i], "Field Name");
  }

  /** Nothing survives exactly when every field name is empty. */
  lemma SurvivorsEmpty(rows: seq<Row>)
    ensures Survivors(rows) == [] <==> forall i :: 0 <= i < |rows| ==> FieldNameOf(rows[i]) == ""
  {
  }

  /** A record survives exactly when its stripped field name is not empty. */
  lemma SurvivorsOfStripped(rows: seq<Row>)
    ensures Survivors(StripRows(rows)) == [] <==>
      forall i :: 0 <= i < |rows| ==> Strip(FieldNameOf(rows[i])) == ""
  {
    var stripped := StripRows(rows);
    forall i | 0 <= i < |rows|
      ensures FieldNameOf(stripped[i]) == Strip(FieldNameOf(rows[i]))
    {
      StrippedName(rows, i);
    }
    SurvivorsEmpty(stripped);
  }

  /** Only whitespace-only field names everywhere is the "No fields" error. */
  lemma BuildSchemaNoFields(frame: Frame)
    requires "Field Name" in frame.columns
    ensures BuildSchema(frame) == Failure(NoFields) <==>
      forall i :: 0 <= i < |frame.rows| ==> Strip(FieldNameOf(frame.rows[i])) == ""
  {
    SurvivorsOfStripped(frame.rows);
  }

  /** A successful run yields one non-empty, stripped table name and pairwise
      distinct, non-empty, stripped field names; every record with a non-blank field
      name is represented, and every surviving record is either a field or a
      duplicate. */
  lemma BuildSchemaSuccess(frame: Frame)
    requires BuildSchema(frame).Success?
    ensures var s := BuildSchema(frame).value;
      && "Table Name" in frame.columns
      && s.tableName != "" && Trimmed(s.tableName)
      && Distinct(Names(s.fields))
      && |s.fields| + |s.duplicates| == |Survivors(StripRows(frame.rows))|
      && (forall k :: 0 <= k < |s.fields| ==> s.fields[k].name != "" && Trimmed(s.fields[k].name))
      && (forall i :: 0 <= i < |frame.rows| && Strip(FieldNameOf(frame.rows[i])) != "" ==>
            Strip(FieldNameOf(frame.rows[i])) in Names(s.fields))
  {
    var kept := Survivors(StripRows(frame.rows));
    var rows := ReadRows(kept);
    GuardPartition(rows);
    KeptCellTrimmed(frame.rows, 0, "Table Name");
    forall k | 0 <= k < |Guard(rows).fields|
      ensures Guard(rows).fields[k].name != "" && Trimmed(Guard(rows).fields[k].name)
    {
      FieldNameTrimmed(frame.rows, Guard(rows).fields[k]);
    }
    forall i | 0 <= i < |frame.rows| && Strip(FieldNameOf(frame.rows[i])) != ""
      ensures Strip(FieldNameOf(frame.rows[i])) in Names(Guard(rows).fields)
    {
      NamedRowKept(frame.rows, i);
    }
  }

  /** Field `k` of a successful run comes from the first kept record bearing its
      name, and its mode, type and description are read from that record's cells. */
  lemma BuildSchemaFieldOrigin(frame: Frame, k: nat)
    requires BuildSchema(frame).Success? && k < |BuildSchema(frame).value.fields|
    ensures var kept := Survivors(StripRows(frame.rows));
      var f := BuildSchema(frame).value.fields[k];
      && f.name in FieldNames(ReadRows(kept))
      && var j := FirstIndex(FieldNames(ReadRows(kept)), f.name);
      && FieldNameOf(kept[j]) == f.name
      && (forall i :: 0 <= i < j ==> FieldNameOf(kept[i]) != f.name)
      && (f.mode == Required <==> Upper(Get(kept[j], "KEYFLAG", "")) in RequiredFlags)
      && f.fieldType == MapType(Get(kept[j], "Type", ""))
      && (Get(kept[j], "Type", "") == "" ==> f.fieldType == "STRING")
      && f.description == Describe(f.fieldType, Get(kept[j], "Len", ""), Get(kept[j], "Dec", ""), Get(kept[j], "Description", ""))
  {
    var kept := Survivors(StripRows(frame.rows));
    var rows := ReadRows(kept);
    var ns := FieldNames(rows);
    var f := Guard(rows).fields[k];
    var j := FirstIndex(ns, f.name);
    assert f == MakeField(ReadRow(kept[j]));
    RecordField(kept[j]);
    forall i | 0 <= i < j
      ensures FieldNameOf(kept[i]) != f.name
    {
      assert ns[..j][i] == ns[i];
    }
  }

  /** A field built from the kept records carries a kept record's (stripped,
      non-empty) field name. */
  lemma FieldNameTrimmed(raw: seq<Row>, f: SchemaField)
    requires f in Guard(ReadRows(Survivors(StripRows(raw)))).fields
    ensures f.name != "" && Trimmed(f.name)
  {
    var kept := Survivors(StripRows(raw));
    var rows := ReadRows(kept);
    var k :| 0 <= k < |Guard(rows).fields| && Guard(rows).fields[k] == f;
    var j := FirstIndex(FieldNames(rows), f.name);
    MakeFieldSpec(rows[j]);
    assert f.name == FieldNameOf(kept[j]);
    KeptCellTrimmed(raw, j, "Field Name");
  }

  /** A record whose stripped field name is not blank contributes its name. */
  lemma NamedRowKept(raw: seq<Row>, i: nat)
    requires i < |raw| && Strip(FieldNameOf(raw[i])) != ""
    ensures Strip(FieldNameOf(raw[i])) in Names(Guard(ReadRows(Survivors(StripRows(raw)))).fields)
  {
    var stripped := StripRows(raw);
    var kept := Survivors(stripped);
    var rows := ReadRows(kept);
    StrippedName(raw, i);
    assert stripped[i] in kept;
    var j :| 0 <= j < |kept| && kept[j] == stripped[i];
    assert rows[j].fieldName == Strip(FieldNameOf(raw[i]));
    GuardPartition(rows);
  }

  /** Every cell of a kept record is stripped. */
  lemma KeptCellTrimmed(raw: seq<Row>, j: nat, c: string)
    requires j < |Survivors(StripRows(raw))|
    ensures Trimmed(Get(Survivors(StripRows(raw))[j], c, ""))
  {
    var stripped := StripRows(raw);
    var kept := Survivors(stripped);
    if c in kept[j] {
      assert kept[j] in stripped;
      var i :| 0 <= i < |stripped| && stripped[i] == kept[j];
      assert stripped[i] == StripCells(raw[i]);
      assert c in raw[i];
    }
  }

  // ---------------------------------------------------------------------------
  // Two records worked through
  // ---------------------------------------------------------------------------

  lemma UpperCharType()
    ensures Trimmed("char") && Upper("char") == "CHAR"
  {
  }

  lemma UpperDecimalType()
    ensures Trimmed("decimal") && Upper("decimal") == "DECIMAL"
  {
  }

  lemma GuardOne(r: SchemaRow)
    ensures Guard([r]) == Guarded([MakeField(r)], [])
  {
    assert [r][..0] == [];
  }

  /** A record given twice: one field, and its name once as a duplicate. */
  lemma GuardTwice(r: SchemaRow)
    ensures Guard([r, r]) == Guarded([MakeField(r)], [r.fieldName])
  {
    assert [r, r][..1] == [r];
    GuardOne(r);
    assert Names([MakeField(r)]) == [r.fieldName];
  }

  lemma CharKeyField()
    ensures MakeField(SchemaRow("id", "X", "char", "10", "", "")) == SchemaField("id", "STRING", Required, None)
  {
    var r := SchemaRow("id", "X", "char", "10", "", "");
    UpperCharType();
    MapTypeTrimmed("char");
    assert MapType(r.typeName) == "STRING";
    MakeFieldSpec(r);
  }

  lemma NoFlagNullable()
    ensures "" !in RequiredFlags
  {
    assert forall f :: f in RequiredFlags ==> |f| > 0;
  }

  /** The key field `id` given twice with type `char`: one REQUIRED STRING field
      without a description, and `id` reported once as a duplicate. */
  lemma DuplicateKeyRecords()
    ensures var r := SchemaRow("id", "X", "char", "10", "", "");
      Guard([r, r]) == Guarded([SchemaField("id", "STRING", Required, None)], ["id"])
  {
    var r := SchemaRow("id", "X", "char", "10", "", "");
    GuardTwice(r);
    CharKeyField();
  }

  /** A `decimal` field with length 10 and scale 2 and no description: a NULLABLE
      NUMERIC field described as `(Len=10, Dec=2)`. */
  lemma DecimalPrecisionRecord()
    ensures MakeField(SchemaRow("amt", "", "decimal", "10", "2", "")) ==
            SchemaField("amt", "NUMERIC", Nullable, Some("(Len=10, Dec=2)"))
  {
    var r := SchemaRow("amt", "", "decimal", "10", "2", "");
    UpperDecimalType();
    MapTypeTrimmed("decimal");
    assert MapType(r.typeName) == "NUMERIC";
    assert Precision("10", "2") == "(Len=10, Dec=2)";
    MakeFieldSpec(r);
    var f := MakeField(r);
    assert f.name == "amt";
    assert f.fieldType == "NUMERIC";
    NoFlagNullable();
    assert f.mode == Nullable;
    assert f.description == Some("(Len=10, Dec=2)");
  }
}
