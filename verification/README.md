# Schema-definition tools, modelled in Dafny

The repository turns a schema-definition table into table definitions in two
independent places. This project models both as pure functions over records that
have already been read, and proves what they produce.

- **BigQuery schema builder** (`gcp_data_load.py`). This covers `TYPE_MAP`,
  `map_type`, and the body of `build_schema_from_csv` after the CSV has been read.
  - Cells are stripped.
  - Records without a field name are dropped.
  - The table name comes from the first kept record.
  - A `seen_fields` guard keeps the first record of each field name and lists later ones as duplicates.
  - The mode comes from `KEYFLAG`.
  - NUMERIC fields get precision text in their description.
- **Access DDL generator** (`ey_playground.py`, `create_tables`). This is a left fold over
  the records, read by position: table, field name, type, length.
  - A `Counter` of the table column gives the group sizes in first-seen order.
  - The loop variables `ct`, `field` and `field_list` cut the records into groups.
  - Each group yields one `CREATE TABLE` statement, executed at once.
  - A small related piece is the statement text of `insert_data`.

Modules:

| file | module | what it holds |
|---|---|---|
| `wrappers.dfy` | `Wrappers` | `Option` and `Result` |
| `text.dfy` | `Text` | Python's `strip` (the full `isspace` set), `upper` (ASCII), substring test, `join` and `split` |
| `dedup.dfy` | `Dedup` | first-seen order, repeats, occurrence counts, and the blocks a contiguous sequence cuts into |
| `bigquery_schema.dfy` | `BigQuerySchema` | type mapping, field building, the duplicate guard, `build_schema_from_csv` after parsing |
| `access_tables.dfy` | `AccessTables` | column fragments, the `create_tables` fold, its reference definition by groups, and the corrected variant |
| `access_insert.dfy` | `AccessInsert` | the `INSERT` statement text of `insert_data` |

Choices of representation:

- **Database outcome.** What the database answers to a statement is a function parameter, `execute: string -> Outcome`. A refusal is recorded and the loop goes on, as the `try`/`except pyodbc.Error` does.
- **Early stops.** How the script can stop early is the `Crash` datatype. A missing cell is `IndexError`. The `str + method` concatenation on line 101 is `TypeError`.
- **Duplicates report.** The BigQuery result carries the duplicate list. The source only prints it.
- **DATETIME.** The module's header comment lists DATETIME under TIMESTAMP. The table that `map_type` consults maps DATETIME to DATETIME, and the model follows the table (`MapTypeDatetime`).

## Model

| member | source | states |
|---|---|---|
| `BigQuerySchema.MapType` | gcp_data_load.py:36-59 | The result is `TYPE_MAP[upper(strip(t))]` when that key exists and `STRING` otherwise. It is always one of the nine BigQuery types, and it is defined for every string. |
| `BigQuerySchema.MapTypeIgnoresCase` | gcp_data_load.py:59 | Two type spellings that differ only in letter case map to the same BigQuery type. |
| `BigQuerySchema.MapTypeIgnoresPadding` | gcp_data_load.py:59 | Whitespace around a type never changes its mapping. |
| `BigQuerySchema.MapTypeDatetime` | gcp_data_load.py:49 | `datetime` maps to DATETIME, not TIMESTAMP. |
| `BigQuerySchema.MapTypeFallback` | gcp_data_load.py:59 | An unknown type (`uuid`) and the empty type both fall back to STRING. |
| `BigQuerySchema.StripCells` | gcp_data_load.py:77 | Stripping keeps a record's columns and leaves every cell stripped of the same text. |
| `BigQuerySchema.Survivors` | gcp_data_load.py:80-81 | Kept records have a non-empty field name. Every record with a non-empty name is kept, and nothing else is. |
| `BigQuerySchema.SurvivorsAppend` | gcp_data_load.py:80-81 | Dropping records is a filter: it distributes over concatenation, so relative order is kept. |
| `BigQuerySchema.ReadRow` | gcp_data_load.py:96-101 | The key flag is the upper-cased KEYFLAG cell. An empty or absent Type cell reads as STRING, and a non-empty one is taken as is. Len, Dec and Description are their cells, empty when absent. |
| `BigQuerySchema.MapTypeDefault` | gcp_data_load.py:98 | The STRING default for a missing type maps to STRING, the same as an empty type does. |
| `BigQuerySchema.RecordField` | gcp_data_load.py:96-125 | The field built from one record is described by that record's cells. It has the Field Name cell as its name. It is REQUIRED exactly when the upper-cased KEYFLAG cell is TRUE, 1, YES or X. Its type is the mapped Type cell, STRING when that cell is empty or absent. Its description follows from the Len, Dec and Description cells. |
| `BigQuerySchema.Describe` | gcp_data_load.py:113-124 | A NUMERIC type with a length or scale gets `(Len=L, Dec=D)`, after a blank when there is a description and alone otherwise. Other types keep the description. An empty description becomes none, and `Some("")` never occurs. |
| `BigQuerySchema.MakeFieldSpec` | gcp_data_load.py:109-125 | A field carries the record's name and the mapped type. Its mode is REQUIRED exactly when the upper-cased key flag is TRUE, 1, YES or X. Its description follows the precision rule. |
| `BigQuerySchema.Guard` | gcp_data_load.py:91-107 | Accepted names are the distinct field names in first-seen order. Each field is built from the first record with its name. The duplicates are the later occurrences, in input order. |
| `BigQuerySchema.GuardPartition` | gcp_data_load.py:92-106 | Accepted names are pairwise distinct. Fields plus duplicates number the records. Every record's name is accepted. |
| `BigQuerySchema.GuardDistinct` | gcp_data_load.py:104-107 | Records with distinct names pass unchanged, one field each, with no duplicates. |
| `BigQuerySchema.GuardIdempotent` | gcp_data_load.py:104-107 | Guarding the accepted names again changes nothing and finds no duplicates. |
| `BigQuerySchema.GuardPrefix` | gcp_data_load.py:95-107 | More records only extend the field list and the duplicate list. |
| `BigQuerySchema.BuildSchema` | gcp_data_load.py:79-131 | Each of the three errors occurs exactly under its condition, checked in the source's order: no `Field Name` column, no kept record, no or empty table name. On success the table name is the first kept record's, and fields and duplicates are the guard's. |
| `BigQuerySchema.BuildSchemaNoFields` | gcp_data_load.py:79-84 | "No fields" occurs exactly when every field name is blank after stripping. |
| `BigQuerySchema.BuildSchemaSuccess` | gcp_data_load.py:87-126 | On success the table name is non-empty and stripped. Field names are distinct, non-empty and stripped. Every non-blank field name appears, and fields plus duplicates number the kept records. |
| `BigQuerySchema.BuildSchemaFieldOrigin` | gcp_data_load.py:87-126 | In a successful run, field k comes from the first kept record bearing its name. Its mode, type and description are read from that record's KEYFLAG, Type, Len, Dec and Description cells. |
| `BigQuerySchema.DuplicateKeyRecords` | gcp_data_load.py:104-126 | Two identical `id` records of type `char` with flag `X` give one REQUIRED STRING field without description, and `id` once as a duplicate. |
| `BigQuerySchema.DecimalPrecisionRecord` | gcp_data_load.py:109-124 | A `decimal` record with length 10 and scale 2 gives a NULLABLE NUMERIC field described `(Len=10, Dec=2)`. |
| `Dedup.FirstSeen` | gcp_data_load.py:104-107 | The result has no repeats and holds exactly the input's values. |
| `Dedup.FirstSeenOrder` | gcp_data_load.py:104-107 | The values of the result appear in the order of their first occurrence in the input. |
| `Dedup.Repeats` | gcp_data_load.py:104-105 | Distinct values plus repeats account for the input as a multiset, and every repeat occurs at least twice. |
| `Dedup.CounterTotal` | ey_playground.py:84-85 | The Counter's counts, taken in key order, add up to the number of records. |
| `Dedup.BlockedContiguous` | ey_playground.py:85-94 | Conversely, a sequence cut into consecutive blocks that each hold one of a list of distinct values has its equal values adjacent. |
| `Dedup.ContiguousBlocked` | ey_playground.py:85-94 | When equal values are adjacent, cutting the sequence into blocks of the Counter's sizes in key order gives blocks holding one value each: the k-th block holds only the k-th key. |
| `Text.Strip` | gcp_data_load.py:77 | The result is a stretch of the input with only whitespace before and after it, and it neither starts nor ends with whitespace. So exactly the surrounding whitespace is removed. |
| `AccessTables.Fragment` | ey_playground.py:95-111 | A record without a type cell fails with IndexError. Only a field that is not the last of its table can fail with TypeError. |
| `AccessTables.FragmentText` | ey_playground.py:95-106 | `char`/`text` gives `name TEXT(len)`, followed by a comma unless last. Without a length cell it fails with IndexError. |
| `AccessTables.FragmentDecimal` | ey_playground.py:97-108 | `dec`/`decimal` gives `name DOUBLE`. Length and scale never appear. |
| `AccessTables.FragmentYesNo` | ey_playground.py:99-110 | Any other piece of the word `boolean` gives `name YESNO`. |
| `AccessTables.FragmentFallback` | ey_playground.py:101-111 | Other types give `name TYPE`, upper-cased, for the last field. Every other field fails with TypeError. |
| `AccessTables.FragmentTypeError` | ey_playground.py:95-101 | A field that is not the last fails with TypeError exactly when its type reaches the fallback branch. |
| `AccessTables.FragmentComma` | ey_playground.py:95-111 | Whenever the text for a field that is not the last exists, it is the last-position text plus a comma. |
| `AccessTables.FragmentUpperChar` | ey_playground.py:105-111 | The type test is case-sensitive. `CHAR` reaches the fallback and gives `name CHAR`. |
| `AccessTables.FragmentYesNoPieces` | ey_playground.py:109-110 | `bool`, `lean` and the empty type all give YESNO. |
| `AccessTables.FoldGroup` | ey_playground.py:90-127 | Inside a group the loop accumulates exactly that group's field list. On its last record it emits and executes the statement, then resets. |
| `AccessTables.FoldGroups` | ey_playground.py:90-127 | From a group boundary on, the loop is the reference run over the remaining groups. |
| `AccessTables.RunByGroups` | ey_playground.py:84-127 | The row-by-row loop equals cutting the records into consecutive groups of the Counter's sizes, in key order, with one statement per group. |
| `AccessTables.RunTablesCount` | ey_playground.py:84-127 | There is at most one statement per distinct table name. The run ends without a crash exactly when there is one for each. |
| `AccessTables.RunTablesAttempts` | ey_playground.py:115-123 | Statement i is `CREATE TABLE key_i (field list of group i)`, and its outcome is what the database answered. |
| `AccessTables.RunTablesCrash` | ey_playground.py:90-112 | A crash happens while building the field list of the group after the last statement, with that group's error. |
| `AccessTables.RunTablesEmptyRecord` | ey_playground.py:84 | A record with no cell at all stops the script with IndexError before any statement. |
| `AccessTables.RunTablesIgnoresOutcomes` | ey_playground.py:118-127 | The statements and where the run stops do not depend on what the database answers. |
| `AccessTables.FieldListJoin` | ey_playground.py:102-112 | A field list that can be built is the group's column texts, each after one blank, joined by commas. |
| `AccessTables.CreateTablesStatement` | ey_playground.py:102-115 | Statement i of the script as written is `CREATE TABLE key_i (" c1, c2, …")` over the columns of group i. |
| `AccessTables.ContiguousGroups` | ey_playground.py:85-94 | When each table's records are adjacent, every record of group k belongs to table key_k. |
| `AccessTables.ContiguousIffGrouped` | ey_playground.py:85-94 | For every input, each group the loop cuts holds only its table's records exactly when each table's records are adjacent in the file. |
| `AccessTables.InterleavedTables` | ey_playground.py:84-115 | For records of tables `A, B, A`, table A is created with the fields of the first two records and table B with the third. |
| `AccessTables.UncalledUpper` | ey_playground.py:101 | A non-last `int` field fails with TypeError as written. With the call it would be `qty INT,`. |
| `AccessTables.SubstringBoolean` | ey_playground.py:99-110 | The type `bool` gives YESNO as written. Compared as a whole word it would give `flag BOOL`. |
| `AccessTables.FragmentIntended` | ey_playground.py:95-111 | The corrected text fails only with IndexError, and never on a record with a length cell. |
| `AccessTables.FragmentIntendedComma` | ey_playground.py:95-111 | The corrected text does not depend on position, apart from the trailing comma. |
| `AccessTables.FragmentIntendedAgrees` | ey_playground.py:95-111 | Wherever the script as written produces a column and the type is not a mere piece of `boolean`, the corrected text is the same. |
| `AccessTables.CreateTablesIntendedNoTypeError` | ey_playground.py:90-112 | With the corrected text the script can only stop on a short record. |
| `AccessTables.CreateTablesIntendedComplete` | ey_playground.py:84-127 | With the corrected text and a length cell in every record, every table name gets its statement, with no crash. |
| `AccessTables.CreateTablesIntendedStatement` | ey_playground.py:102-115 | With the corrected text, statement i creates key_i with the columns of group i, each after a blank, joined by commas. |
| `AccessInsert.ValueColumns` | ey_playground.py:42-43 | The value columns are all result-set columns but the first. A table with no column fails. |
| `AccessInsert.InsertStatementFails` | ey_playground.py:42-55 | The statement exists exactly when the table has a column. |
| `AccessInsert.ColumnsRoundTrip` | ey_playground.py:44 | Splitting the column text at its commas gives back the value columns in order, when no name holds a comma. |
| `AccessInsert.PlaceholdersMatchColumns` | ey_playground.py:44-45 | The placeholder text is that many `?` joined by commas, exactly as many as the value columns. |
| `AccessInsert.KeyColumnOnly` | ey_playground.py:42-55 | A table whose only column is the key gives `INSERT INTO Table1 () VALUES ()`. |
| `AccessInsert.ThreeColumns` | ey_playground.py:42-55 | Columns `id, a, b, c` give `INSERT INTO Table1 (a,b,c) VALUES (?,?,?)`. |

## Left out

- **CSV reading.** This covers pandas `read_csv` with delimiter sniffing and `utf-8-sig` (gcp_data_load.py:73-75), and `csv.DictReader` (ey_playground.py:83). Records arrive already split.
  - BigQuery records are maps from stripped header names to cells; line 76 strips the header names.
  - Access records are lists of cell values by position.
- **pandas NaN.** The model covers plain string cells only, so the `or` defaults on lines 98-101 act on empty strings. In pandas, `read_csv` turns an empty cell into NaN. It does the same for cells spelled `NA`, `N/A`, `NULL`, `null`, `nan` or `#N/A`, among others. NaN is truthy and stringifies to `nan`. None of the following is modelled:
  - A field named `NA` is dropped by `dropna` on line 80. The model keeps it.
  - A Description of `N/A` becomes the text `nan` on line 101. The model keeps `N/A`.
  - A KEYFLAG cell of `NULL` becomes `NAN` on line 97.
  - An empty or `NULL` Type cell reaches `map_type` as NaN, and `.strip()` on line 59 raises AttributeError. Only a whitespace-only Type cell, which line 77 strips to empty, reaches the `or "STRING"` default on line 98. `ReadRow`, `RecordField` and `BuildSchemaFieldOrigin` read an empty Type cell as STRING, so they describe the whitespace-only case.
  - A column whose cells are all NaN has a numeric dtype, so line 77 does not strip it.
- BigQuerySchema.ReadRow: takes every cell as a string, so an empty Type cell reads as STRING. Under pandas that cell would be NaN, and line 59 would raise instead.
- **DictReader padding.** `csv.DictReader` pads a short line with `None` cells and collects extra cells under a `None` key. The `None` cells would make the script raise TypeError rather than IndexError. The model treats a record as the list of its cells, so a short record gives IndexError.
- **Non-ASCII upper-casing.** `Text.Upper` upper-cases ASCII letters only. Python's `str.upper` also maps other scripts and can change a string's length (`ß` becomes `SS`).
- **Database and cloud calls.** This covers `create_table_in_bigquery` (including its `exists_ok=True` default, gcp_data_load.py:138-155), the BigQuery client, credentials, and the pyodbc `connect`/`commit`/`close` calls.
  - `cursor.execute` is the `execute` parameter.
  - An exception other than `pyodbc.Error` from the database is not modelled.
  - `cursor.description` for `insert_data` is given as a list of column names.
- **The rest of insert_data.** It also reads the data file, builds six-cell tuples (line 53), deletes and inserts rows (lines 56-59) and commits. These are file and database effects; only the statement text is modelled.
- **Console output, paths, UI.** All `print` output, including the duplicate warning on lines 128-129, is left out. So are the hard-coded paths, `web_app` and `web_app1.py` (Streamlit UI), `file_csv` and `file_txt` (print-only file I/O), and `hana_odata` (an HTTP request and XML parsing).

## Findings

| source | as written | input that shows it | evidently intended | confidence | as-written member | corrected member |
|---|---|---|---|---|---|---|
| ey_playground.py:101 | `lines[1] + ' ' + field_type.upper + ','` concatenates the method object, which raises TypeError | a field of type `int` that is not the last of its table | `field_type.upper()`, as on line 111 | high; not executed | `AccessTables.UncalledUpper` | `AccessTables.FragmentIntended` |
| ey_playground.py:99 | `field_type in ('boolean')` tests for a substring, since `('boolean')` is a plain string; line 109 does the same | type `bool` (also `lean`, or an empty type) becomes YESNO | membership in the one-element tuple `('boolean',)`, i.e. equality with `boolean` | medium; not executed | `AccessTables.SubstringBoolean` | `AccessTables.FragmentIntended` |

`AccessTables.CreateTablesIntended` runs the same fold with `FragmentIntended`. With it, the script never stops with TypeError (`CreateTablesIntendedNoTypeError`). When every record has a length cell, it creates every table, each with all of its columns (`CreateTablesIntendedComplete`, `CreateTablesIntendedStatement`).
