/** The desktop-database side of the schema tools (`create_tables` in
    ey_playground.py): a left fold over the records of a table-definition file,
    read by position (0 = table, 1 = field name, 2 = type, 3 = length), that builds
    one `CREATE TABLE` statement per table, closing a table after as many records
    as the file holds for that table name, and executes each statement as soon as
    it is built. */
module AccessTables {
  import opened Wrappers
  import opened Text
  import opened Dedup

  /** One record of the file, its cells in column order. */
  type Record = seq<string>

  /** How the script can stop early: a cell read past the end of a record, or the
      string-plus-method concatenation in the fallback branch for a field that is
      not the last of its table. */
  datatype Crash = IndexError | TypeError

  /** What the database answers to one statement; a refusal is reported and the
      loop carries on. */
  datatype Outcome = Created | Failed(cause: string)

  datatype Attempt = Attempt(statement: string, outcome: Outcome)

  /** What a run leaves behind: the statements tried, with their outcomes, and the
      crash that stopped it, if any. */
  datatype Run = Run(attempts: seq<Attempt>, crash: Option<Crash>)

  // ---------------------------------------------------------------------------
  // Column fragments
  // ---------------------------------------------------------------------------

  /** Column text generator: from a record and whether it is the last of its table. */
  type FragmentFn = (Record, bool) -> Result<string, Crash>

  function Separator(last: bool): string {
    if last then "" else ","
  }

  /** The column text as the script builds it. The type is compared exactly (so
      `CHAR` is not `char`); the YESNO test is `t in ('boolean')`, which is a
      substring test because `('boolean')` is a plain string; the fallback for a
      field that is not the last concatenates the method `field_type.upper` itself
      and raises. */
  function Fragment(row: Record, last: bool): (r: Result<string, Crash>)
    ensures |row| < 3 ==> r == Failure(IndexError)
    ensures r.Failure? && r.error == TypeError ==> !last
  {
    if |row| < 3 then Failure(IndexError)
    else
      var t := row[2];
      if t == "char" || t == "text" then
        if |row| < 4 then Failure(IndexError)
        else Success(row[1] + " TEXT(" + row[3] + ")" + Separator(last))
      else if t == "dec" || t == "decimal" then Success(row[1] + " DOUBLE" + Separator(last))
      else if IsSubstring(t, "boolean") then Success(row[1] + " YESNO" + Separator(last))
      else if last then Success(row[1] + " " + Upper(t))
      else Failure(TypeError)
  }

  /** A `dec`/`decimal` field becomes a DOUBLE column; its length and decimals never appear. */
  lemma FragmentDecimal(row: Record, last: bool)
    requires |row| >= 3 && (row[2] == "dec" || row[2] == "decimal")
    ensures Fragment(row, last) == Success(row[1] + " DOUBLE" + Separator(last))
  {
  }

  /** A type none of the named branches claims: not `char`, `text`, `dec` or
      `decimal`, and not a piece of `boolean`. */
  predicate FallsBack(t: string) {
    t != "char" && t != "text" && t != "dec" && t != "decimal" && !IsSubstring(t, "boolean")
  }

  /** A `char`/`text` field becomes a TEXT column of the record's length; without a
      length cell the script fails. */
  lemma FragmentText(row: Record, last: bool)
    requires |row| >= 3 && (row[2] == "char" || row[2] == "text")
    ensures |row| >= 4 ==> Fragment(row, last) == Success(row[1] + " TEXT(" + row[3] + ")" + Separator(last))
    ensures |row| == 3 ==> Fragment(row, last) == Failure(IndexError)
  {
  }

  /** Any other piece of the word `boolean` becomes a YESNO column. */
  lemma FragmentYesNo(row: Record, last: bool)
    requires |row| >= 3 && row[2] != "char" && row[2] != "text" && row[2] != "dec" && row[2] != "decimal"
    requires IsSubstring(row[2], "boolean")
    ensures Fragment(row, last) == Success(row[1] + " YESNO" + Separator(last))
  {
  }

  /** The remaining types: upper-cased for the last field of a table, a TypeError
      for any other field. */
  lemma FragmentFallback(row: Record)
    requires |row| >= 3 && FallsBack(row[2])
    ensures Fragment(row, true) == Success(row[1] + " " + Upper(row[2]))
    ensures Fragment(row, false) == Failure(TypeError)
  {
  }

  /** A field that is not the last fails with TypeError exactly when its type falls
      through to the fallback branch. */
  lemma FragmentTypeError(row: Record)
    ensures Fragment(row, false) == Failure(TypeError) ==> |row| >= 3 && FallsBack(row[2])
    ensures |row| >= 3 && FallsBack(row[2]) ==> Fragment(row, false) == Failure(TypeError)
  {
  }

  /** Where the column text of a field that is not the last exists, it is the text of
      the same field in last position followed by a comma. */
  lemma FragmentComma(row: Record)
    requires Fragment(row, false).Success?
    ensures Fragment(row, true).Success?
    ensures Fragment(row, false).value == Fragment(row, true).value + ","
  {
  }

  /** The type test is case-sensitive: `CHAR` is not `char`, so it reaches the
      fallback and is copied, upper-cased, as the column type. */
  lemma FragmentUpperChar()
    ensures Fragment(["T", "name", "CHAR", "10"], true) == Success("name CHAR")
  {
    var row: Record := ["T", "name", "CHAR", "10"];
    assert row[2][0] != "char"[0] && row[2][0] != "text"[0];
    NotSubstringFirstChar("CHAR", "boolean");
    assert FallsBack(row[2]);
    FragmentFallback(row);
    assert Upper("CHAR") == "CHAR";
    assert row[1] + " " + "CHAR" == "name CHAR";
  }

  /** `bool`, `lean` and the empty type are all pieces of `boolean`. */
  lemma FragmentYesNoPieces()
    ensures Fragment(["T", "a", "bool"], true) == Success("a YESNO")
    ensures Fragment(["T", "b", "lean"], true) == Success("b YESNO")
    ensures Fragment(["T", "c", ""], true) == Success("c YESNO")
  {
    var r0: Record, r1: Record, r2: Record := ["T", "a", "bool"], ["T", "b", "lean"], ["T", "c", ""];
    assert OccursAt("bool", "boolean", 0);
    assert OccursAt("lean", "boolean", 3);
    assert OccursAt("", "boolean", 0);
    assert r0[2][0] != "char"[0] && r0[2][0] != "text"[0] && r0[2][0] != "dec"[0];
    assert r1[2][0] != "char"[0] && r1[2][0] != "text"[0] && r1[2][0] != "dec"[0];
    FragmentYesNo(r0, true);
    FragmentYesNo(r1, true);
    FragmentYesNo(r2, true);
    assert r0[1] + " YESNO" + Separator(true) == "a YESNO";
    assert r1[1] + " YESNO" + Separator(true) == "b YESNO";
    assert r2[1] + " YESNO" + Separator(true) == "c YESNO";
  }

  /** `CREATE TABLE <table> (<field list>)`. */
  function CreateTable(table: string, fieldList: string): string {
    "CREATE TABLE " + table + " (" + fieldList + ")"
  }

  // ---------------------------------------------------------------------------
  // The fold
  // ---------------------------------------------------------------------------

  /** The loop variables `ct`, `field` and `field_list`, plus what has been executed. */
  datatype State = State(ct: nat, field: nat, fieldList: string, attempts: seq<Attempt>)

  const Start: State := State(0, 0, "", [])

  /** One turn of the loop on one record. `keys` and `counts` are the Counter's keys
      and values in first-seen order; `execute` stands for the database. */
  function Step(fragment: FragmentFn, keys: seq<string>, counts: seq<nat>, execute: string -> Outcome,
                st: State, row: Record): Result<State, Crash>
    requires |keys| == |counts|
  {
    var field := st.field + 1;
    if |row| < 3 then Failure(IndexError)
    else if st.ct >= |counts| then Failure(IndexError)
    else if field < counts[st.ct] then
      match fragment(row, false)
      case Failure(e) => Failure(e)
      case Success(f) => Success(State(st.ct, field, st.fieldList + " " + f, st.attempts))
    else
      match fragment(row, true)
      case Failure(e) => Failure(e)
      case Success(f) =>
        var stmt := CreateTable(keys[st.ct], st.fieldList + " " + f);
        Success(State(st.ct + 1, 0, "", st.attempts + [Attempt(stmt, execute(stmt))]))
  }

  function Fold(fragment: FragmentFn, keys: seq<string>, counts: seq<nat>, execute: string -> Outcome,
                st: State, rows: seq<Record>): Run
    requires |keys| == |counts|
    decreases |rows|
  {
    if |rows| == 0 then Run(st.attempts, None)
    else
      match Step(fragment, keys, counts, execute, st, rows[0])
      case Failure(e) => Run(st.attempts, Some(e))
      case Success(next) => Fold(fragment, keys, counts, execute, next, rows[1..])
  }

  function TableColumn(rows: seq<Record>): (r: seq<string>)
    requires forall i :: 0 <= i < |rows| ==> |rows[i]| >= 1
    ensures |r| == |rows|
    ensures forall i :: 0 <= i < |rows| ==> r[i] == rows[i][0]
  {
    seq(|rows|, i requires 0 <= i < |rows| => rows[i][0])
  }

  /** The Counter's keys: the table names in first-seen order. */
  function TableKeys(rows: seq<Record>): seq<string>
    requires forall i :: 0 <= i < |rows| ==> |rows[i]| >= 1
  {
    FirstSeen(TableColumn(rows))
  }

  /** The Counter's values: records per table name, in the same order. */
  function TableCounts(rows: seq<Record>): seq<nat>
    requires forall i :: 0 <= i < |rows| ==> |rows[i]| >= 1
  {
    CountsOf(TableKeys(rows), TableColumn(rows))
  }

  /** The whole loop with a given fragment generator; an empty record fails while
      the Counter is built, before any statement. */
  function RunTables(fragment: FragmentFn, rows: seq<Record>, execute: string -> Outcome): Run {
    if exists i :: 0 <= i < |rows| && |rows[i]| == 0 then Run([], Some(IndexError))
    else
      var keys := TableKeys(rows);
      Fold(fragment, keys, TableCounts(rows), execute, Start, rows)
  }

  /** `create_tables` as written. */
  function CreateTables(rows: seq<Record>, execute: string -> Outcome): Run {
    RunTables(Fragment, rows, execute)
  }

  // ---------------------------------------------------------------------------
  // Reference: tables as consecutive groups of records
  // ---------------------------------------------------------------------------

  /** Where group `k` starts: the sum of the first `k` counts. */
  function GroupStart(counts: seq<nat>, k: nat): nat
    requires k <= |counts|
  {
    Sum(counts[..k])
  }

  lemma GroupStartNext(counts: seq<nat>, k: nat)
    requires k < |counts|
    ensures GroupStart(counts, k + 1) == GroupStart(counts, k) + counts[k]
  {
    assert counts[..k + 1][..k] == counts[..k];
  }

  lemma {:induction false} GroupStartBound(counts: seq<nat>, k: nat)
    requires k <= |counts|
    ensures GroupStart(counts, k) <= Sum(counts)
    decreases |counts| - k
  {
    if k < |counts| {
      GroupStartNext(counts, k);
      GroupStartBound(counts, k + 1);
    } else {
      assert counts[..k] == counts;
    }
  }

  /** The `k`-th group: the `counts[k]` records after the first `k` groups. */
  function Group(rows: seq<Record>, counts: seq<nat>, k: nat): (g: seq<Record>)
    requires Sum(counts) == |rows| && k < |counts|
    ensures |g| == counts[k]
  {
    GroupStartNext(counts, k);
    GroupStartBound(counts, k + 1);
    rows[GroupStart(counts, k)..GroupStart(counts, k + 1)]
  }

  /** The field list of one group: every fragment preceded by a blank, all but the
      last followed by a comma; a record without a type cell, or the first failing
      fragment, stops it. */
  function FieldList(fragment: FragmentFn, group: seq<Record>): Result<string, Crash>
    decreases |group|
  {
    if |group| == 0 then Success("")
    else if |group[0]| < 3 then Failure(IndexError)
    else if |group| == 1 then
      match fragment(group[0], true)
      case Failure(e) => Failure(e)
      case Success(f) => Success(" " + f)
    else
      match fragment(group[0], false)
      case Failure(e) => Failure(e)
      case Success(f) =>
        match FieldList(fragment, group[1..])
        case Failure(e) => Failure(e)
        case Success(rest) => Success(" " + f + rest)
  }

  /** The reference run: groups in Counter order, one statement each, stopping at
      the first group whose field list fails. */
  function GroupRun(fragment: FragmentFn, keys: seq<string>, counts: seq<nat>, execute: string -> Outcome,
                    rows: seq<Record>, k: nat, attempts: seq<Attempt>): Run
    requires |keys| == |counts| && Sum(counts) == |rows| && k <= |counts|
    decreases |counts| - k
  {
    if k == |counts| then Run(attempts, None)
    else
      match FieldList(fragment, Group(rows, counts, k))
      case Failure(e) => Run(attempts, Some(e))
      case Success(fl) =>
        var stmt := CreateTable(keys[k], fl);
        GroupRun(fragment, keys, counts, execute, rows, k + 1, attempts + [Attempt(stmt, execute(stmt))])
  }

  /** Inside a group, the fold accumulates exactly the group's field list and closes
      the group on its last record. */
  lemma {:induction false} FoldGroup(fragment: FragmentFn, keys: seq<string>, counts: seq<nat>,
                                     execute: string -> Outcome, k: nat, j: nat, group: seq<Record>,
                                     rest: seq<Record>, acc: string, attempts: seq<Attempt>)
    requires |keys| == |counts| && k < |counts| && |group| == counts[k] && j < |group|
    ensures Fold(fragment, keys, counts, execute, State(k, j, acc, attempts), group[j..] + rest) ==
      match FieldList(fragment, group[j..])
      case Failure(e) => Run(attempts, Some(e))
      case Success(fl) =>
        var stmt := CreateTable(keys[k], acc + fl);
        Fold(fragment, keys, counts, execute, State(k + 1, 0, "", attempts + [Attempt(stmt, execute(stmt))]), rest)
    decreases |group| - j
  {
    var rows := group[j..] + rest;
    var st := State(k, j, acc, attempts);
    assert rows[0] == group[j];
    assert rows[1..] == group[j + 1..] + rest;
    var row := group[j];
    var g := group[j..];
    assert g[0] == row;
    if |row| >= 3 && j + 1 < |group| {
      assert g[1..] == group[j + 1..];
      match fragment(row, false)
      case Failure(e) =>
      case Success(f) =>
        FoldGroup(fragment, keys, counts, execute, k, j + 1, group, rest, acc + " " + f, attempts);
        match FieldList(fragment, group[j + 1..])
        case Failure(e) =>
        case Success(fl) =>
          assert acc + " " + f + fl == acc + (" " + f + fl);
    } else if |row| >= 3 {
      assert |g| == 1;
      assert group[j + 1..] + rest == rest;
      match fragment(row, true)
      case Failure(e) =>
      case Success(f) =>
        assert acc + " " + f == acc + (" " + f);
    }
  }

  /** Group by group, the fold is the reference run. */
  lemma {:induction false} FoldGroups(fragment: FragmentFn, keys: seq<string>, counts: seq<nat>,
                                      execute: string -> Outcome, rows: seq<Record>, k: nat,
                                      attempts: seq<Attempt>)
    requires |keys| == |counts| && Sum(counts) == |rows| && k <= |counts|
    requires forall m :: 0 <= m < |counts| ==> counts[m] >= 1
    ensures GroupStart(counts, k) <= |rows|
    ensures Fold(fragment, keys, counts, execute, State(k, 0, "", attempts), rows[GroupStart(counts, k)..]) ==
            GroupRun(fragment, keys, counts, execute, rows, k, attempts)
    decreases |counts| - k
  {
    GroupStartBound(counts, k);
    if k == |counts| {
      assert counts[..k] == counts;
      assert rows[|rows|..] == [];
    } else {
      GroupStartNext(counts, k);
      GroupStartBound(counts, k + 1);
      var g := Group(rows, counts, k);
      var rest := rows[GroupStart(counts, k + 1)..];
      assert rows[GroupStart(counts, k)..] == g + rest;
      assert g[0..] == g;
      FoldGroup(fragment, keys, counts, execute, k, 0, g, rest, "", attempts);
      match FieldList(fragment, g)
      case Failure(e) =>
      case Success(fl) =>
        assert "" + fl == fl;
        var stmt := CreateTable(keys[k], fl);
        FoldGroups(fragment, keys, counts, execute, rows, k + 1, attempts + [Attempt(stmt, execute(stmt))]);
    }
  }

  /** Every table name occurs at least once, and the counts cover every record. */
  lemma CounterFacts(rows: seq<Record>)
    requires forall i :: 0 <= i < |rows| ==> |rows[i]| >= 1
    ensures |TableCounts(rows)| == |TableKeys(rows)|
    ensures Sum(TableCounts(rows)) == |rows|
    ensures forall m :: 0 <= m < |TableCounts(rows)| ==> TableCounts(rows)[m] >= 1
  {
    CounterTotal(TableColumn(rows));
  }

  /** The script's row-by-row loop, with its `ct`/`field` bookkeeping, is the same as
      cutting the records into consecutive groups of Counter sizes, in Counter order,
      and emitting one statement per group. */
  lemma RunByGroups(fragment: FragmentFn, rows: seq<Record>, execute: string -> Outcome)
    requires forall i :: 0 <= i < |rows| ==> |rows[i]| >= 1
    ensures Sum(TableCounts(rows)) == |rows| && |TableCounts(rows)| == |TableKeys(rows)|
    ensures RunTables(fragment, rows, execute) ==
            GroupRun(fragment, TableKeys(rows), TableCounts(rows), execute, rows, 0, [])
  {
    CounterFacts(rows);
    var counts := TableCounts(rows);
    FoldGroups(fragment, TableKeys(rows), counts, execute, rows, 0, []);
    assert counts[..0] == [];
    assert rows[0..] == rows;
  }

  /** The attempt for group `m`, when its field list can be built. */
  function GroupAttempt(fragment: FragmentFn, keys: seq<string>, counts: seq<nat>, execute: string -> Outcome,
                        rows: seq<Record>, m: nat): Option<Attempt>
    requires |keys| == |counts| && Sum(counts) == |rows| && m < |counts|
  {
    match FieldList(fragment, Group(rows, counts, m))
    case Failure(_) => None
    case Success(fl) => Some(Attempt(CreateTable(keys[m], fl), execute(CreateTable(keys[m], fl))))
  }

  /** The reference run only appends, at most one attempt per remaining group. */
  lemma {:induction false} GroupRunExtends(fragment: FragmentFn, keys: seq<string>, counts: seq<nat>,
                                           execute: string -> Outcome, rows: seq<Record>, k: nat,
                                           attempts: seq<Attempt>)
    requires |keys| == |counts| && Sum(counts) == |rows| && k <= |counts|
    ensures var r := GroupRun(fragment, keys, counts, execute, rows, k, attempts);
      && |attempts| <= |r.attempts| <= |attempts| + |counts| - k
      && r.attempts[..|attempts|] == attempts
      && (r.crash == None <==> |r.attempts| == |attempts| + |counts| - k)
    decreases |counts| - k
  {
    if k < |counts| {
      match FieldList(fragment, Group(rows, counts, k))
      case Failure(e) =>
      case Success(fl) =>
        var a := Attempt(CreateTable(keys[k], fl), execute(CreateTable(keys[k], fl)));
        GroupRunExtends(fragment, keys, counts, execute, rows, k + 1, attempts + [a]);
        var r := GroupRun(fragment, keys, counts, execute, rows, k + 1, attempts + [a]);
        assert r.attempts[..|attempts| + 1][..|attempts|] == r.attempts[..|attempts|];
    }
  }

  /** Attempt `i` of the reference run is the statement of group `i`, executed. */
  lemma {:induction false} GroupRunAttempts(fragment: FragmentFn, keys: seq<string>, counts: seq<nat>,
                                            execute: string -> Outcome, rows: seq<Record>, k: nat,
                                            attempts: seq<Attempt>)
    requires |keys| == |counts| && Sum(counts) == |rows| && k <= |counts|
    ensures var r := GroupRun(fragment, keys, counts, execute, rows, k, attempts);
      forall i :: |attempts| <= i < |r.attempts| ==>
        k + i - |attempts| < |counts| &&
        GroupAttempt(fragment, keys, counts, execute, rows, k + i - |attempts|) == Some(r.attempts[i])
    decreases |counts| - k
  {
    GroupRunExtends(fragment, keys, counts, execute, rows, k, attempts);
    if k < |counts| && FieldList(fragment, Group(rows, counts, k)).Success? {
      var fl := FieldList(fragment, Group(rows, counts, k)).value;
      var a := Attempt(CreateTable(keys[k], fl), execute(CreateTable(keys[k], fl)));
      var more := attempts + [a];
      GroupRunAttempts(fragment, keys, counts, execute, rows, k + 1, more);
      GroupRunExtends(fragment, keys, counts, execute, rows, k + 1, more);
      var r := GroupRun(fragment, keys, counts, execute, rows, k + 1, more);
      assert r == GroupRun(fragment, keys, counts, execute, rows, k, attempts);
      assert GroupAttempt(fragment, keys, counts, execute, rows, k) == Some(a);
      forall i | |attempts| <= i < |r.attempts|
        ensures k + i - |attempts| < |counts|
        ensures GroupAttempt(fragment, keys, counts, execute, rows, k + i - |attempts|) == Some(r.attempts[i])
      {
        if i == |attempts| {
          assert r.attempts[..|more|][i] == more[i];
        } else {
          assert (k + 1) + i - |more| == k + i - |attempts|;
        }
      }
    }
  }

  /** A reference run that crashed did so on the group right after its last attempt. */
  lemma {:induction false} GroupRunCrash(fragment: FragmentFn, keys: seq<string>, counts: seq<nat>,
                                         execute: string -> Outcome, rows: seq<Record>, k: nat,
                                         attempts: seq<Attempt>)
    requires |keys| == |counts| && Sum(counts) == |rows| && k <= |counts|
    ensures var r := GroupRun(fragment, keys, counts, execute, rows, k, attempts);
      r.crash.Some? ==>
        && |attempts| <= |r.attempts|
        && k + |r.attempts| - |attempts| < |counts|
        && FieldList(fragment, Group(rows, counts, k + |r.attempts| - |attempts|)) == Failure(r.crash.value)
    decreases |counts| - k
  {
    GroupRunExtends(fragment, keys, counts, execute, rows, k, attempts);
    if k < |counts| {
      match FieldList(fragment, Group(rows, counts, k))
      case Failure(e) =>
      case Success(fl) =>
        var a := Attempt(CreateTable(keys[k], fl), execute(CreateTable(keys[k], fl)));
        GroupRunCrash(fragment, keys, counts, execute, rows, k + 1, attempts + [a]);
    }
  }

  // ---------------------------------------------------------------------------
  // What a run produces
  // ---------------------------------------------------------------------------

  /** For records that all have a table cell, the run makes at most one statement
      per table name, and ends without a crash exactly when it made one for each. */
  lemma RunTablesCount(fragment: FragmentFn, rows: seq<Record>, execute: string -> Outcome)
    requires forall i :: 0 <= i < |rows| ==> |rows[i]| >= 1
    ensures |RunTables(fragment, rows, execute).attempts| <= |TableKeys(rows)|
    ensures RunTables(fragment, rows, execute).crash == None ==>
            |RunTables(fragment, rows, execute).attempts| == |TableKeys(rows)|
    ensures |RunTables(fragment, rows, execute).attempts| == |TableKeys(rows)| ==>
            RunTables(fragment, rows, execute).crash == None
  {
    RunByGroups(fragment, rows, execute);
    GroupRunExtends(fragment, TableKeys(rows), TableCounts(rows), execute, rows, 0, []);
  }

  /** Statement `i` creates the `i`-th table name of the file with the field list of
      the `i`-th group of records, and is executed. */
  lemma RunTablesAttempts(fragment: FragmentFn, rows: seq<Record>, execute: string -> Outcome, i: nat)
    requires forall j :: 0 <= j < |rows| ==> |rows[j]| >= 1
    requires i < |RunTables(fragment, rows, execute).attempts|
    ensures Sum(TableCounts(rows)) == |rows| && i < |TableCounts(rows)| == |TableKeys(rows)|
    ensures FieldList(fragment, Group(rows, TableCounts(rows), i)).Success?
    ensures var stmt := CreateTable(TableKeys(rows)[i], FieldList(fragment, Group(rows, TableCounts(rows), i)).value);
            RunTables(fragment, rows, execute).attempts[i] == Attempt(stmt, execute(stmt))
  {
    RunByGroups(fragment, rows, execute);
    GroupRunAt(fragment, TableKeys(rows), TableCounts(rows), execute, rows, i);
  }

  lemma GroupRunAt(fragment: FragmentFn, keys: seq<string>, counts: seq<nat>, execute: string -> Outcome,
                   rows: seq<Record>, i: nat)
    requires |keys| == |counts| && Sum(counts) == |rows|
    requires i < |GroupRun(fragment, keys, counts, execute, rows, 0, []).attempts|
    ensures i < |counts|
    ensures FieldList(fragment, Group(rows, counts, i)).Success?
    ensures var stmt := CreateTable(keys[i], FieldList(fragment, Group(rows, counts, i)).value);
            GroupRun(fragment, keys, counts, execute, rows, 0, []).attempts[i] == Attempt(stmt, execute(stmt))
  {
    GroupRunExtends(fragment, keys, counts, execute, rows, 0, []);
    GroupRunAttempts(fragment, keys, counts, execute, rows, 0, []);
    var r := GroupRun(fragment, keys, counts, execute, rows, 0, []);
    assert GroupAttempt(fragment, keys, counts, execute, rows, i) == Some(r.attempts[i]);
    GroupAttemptSome(fragment, keys, counts, execute, rows, i);
  }

  lemma GroupAttemptSome(fragment: FragmentFn, keys: seq<string>, counts: seq<nat>, execute: string -> Outcome,
                         rows: seq<Record>, m: nat)
    requires |keys| == |counts| && Sum(counts) == |rows| && m < |counts|
    requires GroupAttempt(fragment, keys, counts, execute, rows, m).Some?
    ensures FieldList(fragment, Group(rows, counts, m)).Success?
    ensures var stmt := CreateTable(keys[m], FieldList(fragment, Group(rows, counts, m)).value);
            GroupAttempt(fragment, keys, counts, execute, rows, m) == Some(Attempt(stmt, execute(stmt)))
  {
  }

  /** A run that crashed did so while building the field list of the group after its
      last statement, with that group's error. */
  lemma RunTablesCrash(fragment: FragmentFn, rows: seq<Record>, execute: string -> Outcome)
    requires forall j :: 0 <= j < |rows| ==> |rows[j]| >= 1
    requires RunTables(fragment, rows, execute).crash.Some?
    ensures Sum(TableCounts(rows)) == |rows| && |TableCounts(rows)| == |TableKeys(rows)|
    ensures |RunTables(fragment, rows, execute).attempts| < |TableCounts(rows)|
    ensures var r := RunTables(fragment, rows, execute);
            FieldList(fragment, Group(rows, TableCounts(rows), |r.attempts|)) == Failure(r.crash.value)
  {
    RunByGroups(fragment, rows, execute);
    GroupRunCrash(fragment, TableKeys(rows), TableCounts(rows), execute, rows, 0, []);
  }

  /** A record without even a table cell stops the script before any statement. */
  lemma RunTablesEmptyRecord(fragment: FragmentFn, rows: seq<Record>, execute: string -> Outcome, i: nat)
    requires i < |rows| && |rows[i]| == 0
    ensures RunTables(fragment, rows, execute).attempts == []
    ensures RunTables(fragment, rows, execute).crash == Some(IndexError)
  {
  }

  function Statements(attempts: seq<Attempt>): (r: seq<string>)
    ensures |r| == |attempts|
    ensures forall i :: 0 <= i < |attempts| ==> r[i] == attempts[i].statement
  {
    seq(|attempts|, i requires 0 <= i < |attempts| => attempts[i].statement)
  }

  lemma {:induction false} GroupRunIgnoresOutcomes(fragment: FragmentFn, keys: seq<string>, counts: seq<nat>,
                                                   e1: string -> Outcome, e2: string -> Outcome,
                                                   rows: seq<Record>, k: nat, a1: seq<Attempt>, a2: seq<Attempt>)
    requires |keys| == |counts| && Sum(counts) == |rows| && k <= |counts|
    requires Statements(a1) == Statements(a2)
    ensures Statements(GroupRun(fragment, keys, counts, e1, rows, k, a1).attempts) ==
            Statements(GroupRun(fragment, keys, counts, e2, rows, k, a2).attempts)
    ensures GroupRun(fragment, keys, counts, e1, rows, k, a1).crash ==
            GroupRun(fragment, keys, counts, e2, rows, k, a2).crash
    decreases |counts| - k
  {
    if k < |counts| {
      match FieldList(fragment, Group(rows, counts, k))
      case Failure(e) =>
      case Success(fl) =>
        var stmt := CreateTable(keys[k], fl);
        var b1, b2 := a1 + [Attempt(stmt, e1(stmt))], a2 + [Attempt(stmt, e2(stmt))];
        assert Statements(b1) == Statements(a1) + [stmt];
        assert Statements(b2) == Statements(a2) + [stmt];
        GroupRunIgnoresOutcomes(fragment, keys, counts, e1, e2, rows, k + 1, b1, b2);
    }
  }

  /** A statement the database refuses is reported and the loop goes on: the
      statements built, and where the run stops, do not depend on what the database
      answers. */
  lemma RunTablesIgnoresOutcomes(fragment: FragmentFn, rows: seq<Record>, e1: string -> Outcome,
                                 e2: string -> Outcome)
    ensures Statements(RunTables(fragment, rows, e1).attempts) == Statements(RunTables(fragment, rows, e2).attempts)
    ensures RunTables(fragment, rows, e1).crash == RunTables(fragment, rows, e2).crash
  {
    if forall i :: 0 <= i < |rows| ==> |rows[i]| >= 1 {
      RunByGroups(fragment, rows, e1);
      RunByGroups(fragment, rows, e2);
      GroupRunIgnoresOutcomes(fragment, TableKeys(rows), TableCounts(rows), e1, e2, rows, 0, [], []);
    }
  }

  // ---------------------------------------------------------------------------
  // Which records go into which table
  // ---------------------------------------------------------------------------

  /** When the records of each table are adjacent in the file, every record of the
      `k`-th group belongs to the `k`-th table name. */
  lemma ContiguousGroups(rows: seq<Record>, k: nat, i: nat)
    requires forall j :: 0 <= j < |rows| ==> |rows[j]| >= 1
    requires Contiguous(TableColumn(rows))
    requires k < |TableKeys(rows)|
    ensures Sum(TableCounts(rows)) == |rows| && k < |TableCounts(rows)|
    ensures i < |Group(rows, TableCounts(rows), k)| ==>
            |Group(rows, TableCounts(rows), k)[i]| >= 1 &&
            Group(rows, TableCounts(rows), k)[i][0] == TableKeys(rows)[k]
  {
    CounterFacts(rows);
    var counts := TableCounts(rows);
    if i < counts[k] {
      var names := TableColumn(rows);
      ContiguousBlocked(names);
      GroupStartNext(counts, k);
      var p := GroupStart(counts, k) + i;
      assert InBlock(counts, k, p);
      assert names[p] == TableKeys(rows)[k];
      GroupAt(rows, counts, k, i);
    }
  }

  lemma GroupAt(rows: seq<Record>, counts: seq<nat>, k: nat, i: nat)
    requires Sum(counts) == |rows| && k < |counts| && i < counts[k]
    ensures GroupStart(counts, k) + i < |rows|
    ensures Group(rows, counts, k)[i] == rows[GroupStart(counts, k) + i]
  {
    GroupStartNext(counts, k);
    GroupStartBound(counts, k + 1);
  }

  /** Every record of the `k`-th group names the `k`-th table. */
  ghost predicate GroupedByKey(rows: seq<Record>)
    requires forall j :: 0 <= j < |rows| ==> |rows[j]| >= 1
  {
    var keys, counts := TableKeys(rows), TableCounts(rows);
    && Sum(counts) == |rows|
    && forall k: nat, i: nat :: k < |keys| && k < |counts| && i < counts[k] ==>
         |Group(rows, counts, k)[i]| >= 1 && Group(rows, counts, k)[i][0] == keys[k]
  }

  /** The groups the loop cuts hold one table each exactly when the records of each
      table are adjacent in the file. */
  lemma ContiguousIffGrouped(rows: seq<Record>)
    requires forall j :: 0 <= j < |rows| ==> |rows[j]| >= 1
    ensures Contiguous(TableColumn(rows)) <==> GroupedByKey(rows)
  {
    CounterFacts(rows);
    if Contiguous(TableColumn(rows)) {
      forall k: nat, i: nat | k < |TableKeys(rows)| && k < |TableCounts(rows)| && i < TableCounts(rows)[k]
        ensures |Group(rows, TableCounts(rows), k)[i]| >= 1
        ensures Group(rows, TableCounts(rows), k)[i][0] == TableKeys(rows)[k]
      {
        ContiguousGroups(rows, k, i);
      }
    }
    if GroupedByKey(rows) {
      GroupedBlocked(rows);
      BlockedContiguous(TableColumn(rows), TableKeys(rows), TableCounts(rows));
    }
  }

  lemma GroupedBlocked(rows: seq<Record>)
    requires forall j :: 0 <= j < |rows| ==> |rows[j]| >= 1
    requires GroupedByKey(rows)
    ensures Distinct(TableKeys(rows))
    ensures Blocked(TableColumn(rows), TableKeys(rows), TableCounts(rows))
  {
    CounterFacts(rows);
    var names, keys, counts := TableColumn(rows), TableKeys(rows), TableCounts(rows);
    forall k: nat, p: nat | k < |keys| && InBlock(counts, k, p)
      ensures p < |names| && names[p] == keys[k]
    {
      var i := p - GroupStart(counts, k);
      GroupStartNext(counts, k);
      GroupAt(rows, counts, k, i);
      assert Group(rows, counts, k)[i][0] == keys[k];
    }
  }

  /** Three records of two tables, the second table's record in between. */
  const Interleaved: seq<Record> := [["A", "x", "dec"], ["B", "y", "dec"], ["A", "z", "dec"]]

  lemma InterleavedNames()
    ensures TableColumn(Interleaved) == ["A", "B", "A"]
  {
  }

  lemma InterleavedKeys()
    ensures TableKeys(Interleaved) == ["A", "B"]
  {
    InterleavedNames();
    FirstSeenABA("A", "B");
  }

  lemma InterleavedCounts()
    ensures TableCounts(Interleaved) == [2, 1]
  {
    InterleavedKeys();
    InterleavedNames();
    CountABA("A", "B");
  }

  lemma FirstSeenABA<T>(a: T, b: T)
    requires a != b
    ensures FirstSeen([a, b, a]) == [a, b]
  {
    FirstSeenSnoc([], a);
    assert [] + [a] == [a];
    FirstSeenSnoc([a], b);
    assert [a] + [b] == [a, b];
    FirstSeenSnoc([a, b], a);
    assert [a, b] + [a] == [a, b, a];
  }

  lemma CountABA<T>(a: T, b: T)
    requires a != b
    ensures Count([a, b, a], a) == 2 && Count([a, b, a], b) == 1
  {
    var s3, s2, s1: seq<T> := [a, b, a], [a, b], [a];
    assert s3[..2] == s2;
    assert s2[..1] == s1;
    assert s1[..0] == [];
  }

  lemma InterleavedGroups()
    requires Sum([2, 1]) == |Interleaved|
    ensures Group(Interleaved, [2, 1], 0) == Interleaved[..2]
    ensures Group(Interleaved, [2, 1], 1) == Interleaved[2..]
  {
    var c: seq<nat> := [2, 1];
    assert c[..0] == [] && c[..1] == [2] && c[..2] == c;
    assert Sum([2]) == 2 by { assert [2][..0] == []; }
  }

  lemma FieldListOne(fragment: FragmentFn, row: Record, f: string)
    requires |row| >= 3 && fragment(row, true) == Success(f)
    ensures FieldList(fragment, [row]) == Success(" " + f)
  {
  }

  lemma FieldListCons(fragment: FragmentFn, row: Record, rest: seq<Record>, f: string, fl: string)
    requires |row| >= 3 && |rest| > 0 && fragment(row, false) == Success(f) && FieldList(fragment, rest) == Success(fl)
    ensures FieldList(fragment, [row] + rest) == Success(" " + f + fl)
  {
    assert ([row] + rest)[1..] == rest;
  }

  lemma DoubleColumn(row: Record, name: string, last: bool)
    requires |row| == 3 && row[1] == name && row[2] == "dec"
    ensures Fragment(row, last) == Success(name + " DOUBLE" + Separator(last))
  {
    FragmentDecimal(row, last);
  }

  lemma InterleavedFirstGroup()
    ensures FieldList(Fragment, Interleaved[..2]) == Success(" x DOUBLE, y DOUBLE")
  {
    var r0, r1: Record := ["A", "x", "dec"], ["B", "y", "dec"];
    DoubleColumn(r0, "x", false);
    DoubleColumn(r1, "y", true);
    assert "x" + " DOUBLE" + Separator(false) == "x DOUBLE,";
    assert "y" + " DOUBLE" + Separator(true) == "y DOUBLE";
    FieldListOne(Fragment, r1, "y DOUBLE");
    assert " " + "y DOUBLE" == " y DOUBLE";
    FieldListCons(Fragment, r0, [r1], "x DOUBLE,", " y DOUBLE");
    assert [r0] + [r1] == Interleaved[..2];
    assert " " + "x DOUBLE," + " y DOUBLE" == " x DOUBLE, y DOUBLE";
  }

  lemma InterleavedSecondGroup()
    ensures FieldList(Fragment, Interleaved[2..]) == Success(" z DOUBLE")
  {
    var r2: Record := ["A", "z", "dec"];
    DoubleColumn(r2, "z", true);
    assert "z" + " DOUBLE" + Separator(true) == "z DOUBLE";
    FieldListOne(Fragment, r2, "z DOUBLE");
    assert Interleaved[2..] == [r2];
    assert " " + "z DOUBLE" == " z DOUBLE";
  }

  /** When a table's records are not adjacent the groups cut across tables: for the
      records `A, B, A` the first statement creates table `A` with the fields of the
      first two records, and table `B` gets the last record's field. */
  lemma InterleavedRun(execute: string -> Outcome)
    requires Sum([2, 1]) == |Interleaved|
    ensures GroupRun(Fragment, ["A", "B"], [2, 1], execute, Interleaved, 0, []) ==
            Run([Attempt("CREATE TABLE A ( x DOUBLE, y DOUBLE)", execute("CREATE TABLE A ( x DOUBLE, y DOUBLE)")),
                 Attempt("CREATE TABLE B ( z DOUBLE)", execute("CREATE TABLE B ( z DOUBLE)"))], None)
  {
    InterleavedGroups();
    InterleavedFirstGroup();
    InterleavedSecondGroup();
    var keys: seq<string>, counts: seq<nat> := ["A", "B"], [2, 1];
    var s0, s1 := CreateTable("A", " x DOUBLE, y DOUBLE"), CreateTable("B", " z DOUBLE");
    assert s0 == "CREATE TABLE A ( x DOUBLE, y DOUBLE)";
    assert s1 == "CREATE TABLE B ( z DOUBLE)";
    var a0, a1 := Attempt(s0, execute(s0)), Attempt(s1, execute(s1));
    assert GroupRun(Fragment, keys, counts, execute, Interleaved, 0, []) ==
           GroupRun(Fragment, keys, counts, execute, Interleaved, 1, [a0]);
    assert GroupRun(Fragment, keys, counts, execute, Interleaved, 1, [a0]) ==
           GroupRun(Fragment, keys, counts, execute, Interleaved, 2, [a0] + [a1]);
    assert [a0] + [a1] == [a0, a1];
  }

  lemma InterleavedTables(execute: string -> Outcome)
    ensures Statements(CreateTables(Interleaved, execute).attempts) ==
            ["CREATE TABLE A ( x DOUBLE, y DOUBLE)", "CREATE TABLE B ( z DOUBLE)"]
    ensures CreateTables(Interleaved, execute).crash == None
  {
    RunByGroups(Fragment, Interleaved, execute);
    InterleavedKeys();
    InterleavedCounts();
    InterleavedRun(execute);
  }

  // ---------------------------------------------------------------------------
  // Field lists
  // ---------------------------------------------------------------------------

  /** The column texts of a group, each as in last position and preceded by a blank. */
  function Columns(fragment: FragmentFn, group: seq<Record>): (r: seq<string>)
    requires forall i :: 0 <= i < |group| ==> fragment(group[i], true).Success?
    ensures |r| == |group|
    ensures forall i :: 0 <= i < |group| ==> r[i] == " " + fragment(group[i], true).value
  {
    seq(|group|, i requires 0 <= i < |group| => " " + fragment(group[i], true).value)
  }

  /** The text for a field that is not the last is its last-position text plus a comma. */
  ghost predicate CommaConsistent(fragment: FragmentFn) {
    forall row: Record :: fragment(row, false).Success? ==>
      fragment(row, true).Success? && fragment(row, false).value == fragment(row, true).value + ","
  }

  lemma FragmentCommaConsistent()
    ensures CommaConsistent(Fragment)
  {
    forall row: Record | Fragment(row, false).Success?
      ensures Fragment(row, true).Success? && Fragment(row, false).value == Fragment(row, true).value + ","
    {
      FragmentComma(row);
    }
  }

  /** A field list that can be built is the group's columns, each preceded by a blank,
      joined by commas. */
  lemma {:induction false} FieldListJoin(fragment: FragmentFn, group: seq<Record>)
    requires CommaConsistent(fragment)
    requires FieldList(fragment, group).Success?
    ensures forall i :: 0 <= i < |group| ==> |group[i]| >= 3 && fragment(group[i], true).Success?
    ensures FieldList(fragment, group).value == Join(",", Columns(fragment, group))
    decreases |group|
  {
    if |group| >= 2 {
      var row, rest := group[0], group[1..];
      var f := fragment(row, false).value;
      FieldListJoin(fragment, rest);
      assert forall i :: 1 <= i < |group| ==> group[i] == rest[i - 1];
      var c := Columns(fragment, group);
      assert c[1..] == Columns(fragment, rest);
      var fl := FieldList(fragment, rest).value;
      assert f == fragment(row, true).value + ",";
      assert " " + f + fl == c[0] + "," + fl;
    }
  }

  /** A group whose records all have a type cell and whose fragments all succeed has
      a field list. */
  lemma {:induction false} FieldListSucceeds(fragment: FragmentFn, group: seq<Record>)
    requires forall i :: 0 <= i < |group| ==> |group[i]| >= 3
    requires forall i :: 0 <= i < |group| ==> fragment(group[i], true).Success? && fragment(group[i], false).Success?
    ensures FieldList(fragment, group).Success?
    decreases |group|
  {
    if |group| >= 2 {
      FieldListSucceeds(fragment, group[1..]);
    }
  }

  /** Statement `i` of the script as written creates the `i`-th table name with the
      columns of its group, each preceded by a blank, joined by commas, and its
      outcome is what the database answered. */
  lemma CreateTablesStatement(rows: seq<Record>, execute: string -> Outcome, i: nat)
    requires forall j :: 0 <= j < |rows| ==> |rows[j]| >= 1
    requires i < |CreateTables(rows, execute).attempts|
    ensures Sum(TableCounts(rows)) == |rows| && i < |TableCounts(rows)| == |TableKeys(rows)|
    ensures var g := Group(rows, TableCounts(rows), i);
      && (forall j :: 0 <= j < |g| ==> Fragment(g[j], true).Success?)
      && CreateTables(rows, execute).attempts[i].statement ==
         CreateTable(TableKeys(rows)[i], Join(",", Columns(Fragment, g)))
    ensures var a := CreateTables(rows, execute).attempts[i]; a.outcome == execute(a.statement)
  {
    RunTablesAttempts(Fragment, rows, execute, i);
    FragmentCommaConsistent();
    FieldListJoin(Fragment, Group(rows, TableCounts(rows), i));
  }

  // ---------------------------------------------------------------------------
  // The script as evidently intended
  // ---------------------------------------------------------------------------

  /** The column text the script evidently means: the type upper-cased by a call on
      line 101 as on line 111, and the YESNO branch taken for the word `boolean`
      only, as membership in a one-element tuple would. */
  function FragmentIntended(row: Record, last: bool): (r: Result<string, Crash>)
    ensures r.Failure? ==> r.error == IndexError
    ensures |row| >= 4 ==> r.Success?
  {
    if |row| < 3 then Failure(IndexError)
    else
      var t := row[2];
      if t == "char" || t == "text" then
        if |row| < 4 then Failure(IndexError)
        else Success(row[1] + " TEXT(" + row[3] + ")" + Separator(last))
      else if t == "dec" || t == "decimal" then Success(row[1] + " DOUBLE" + Separator(last))
      else if t == "boolean" then Success(row[1] + " YESNO" + Separator(last))
      else Success(row[1] + " " + Upper(t) + Separator(last))
  }

  /** The intended column text does not depend on position, apart from the comma. */
  lemma FragmentIntendedComma(row: Record)
    ensures FragmentIntended(row, false).Success? == FragmentIntended(row, true).Success?
    ensures FragmentIntended(row, false).Success? ==>
            FragmentIntended(row, false).value == FragmentIntended(row, true).value + ","
  {
  }

  lemma FragmentIntendedCommaConsistent()
    ensures CommaConsistent(FragmentIntended)
  {
    forall row: Record | FragmentIntended(row, false).Success?
      ensures FragmentIntended(row, true).Success?
      ensures FragmentIntended(row, false).value == FragmentIntended(row, true).value + ","
    {
      FragmentIntendedComma(row);
    }
  }

  /** Where the script as written produces a column and the type is not a mere piece
      of `boolean`, the intended text is the same. */
  lemma FragmentIntendedAgrees(row: Record, last: bool)
    requires Fragment(row, last).Success?
    requires row[2] == "boolean" || !IsSubstring(row[2], "boolean")
    ensures FragmentIntended(row, last) == Fragment(row, last)
  {
    if row[2] == "boolean" {
      assert OccursAt(row[2], "boolean", 0);
    }
    assert row[1] + " " + Upper(row[2]) + Separator(true) == row[1] + " " + Upper(row[2]);
  }

  /** Line 101 concatenates the method `field_type.upper` instead of calling it: a
      field of type `int` that is not the last of its table stops the script. */
  lemma UncalledUpper()
    ensures Fragment(["T", "qty", "int"], false) == Failure(TypeError)
    ensures FragmentIntended(["T", "qty", "int"], false) == Success("qty INT,")
  {
    var row: Record := ["T", "qty", "int"];
    assert row[2][0] != "char"[0] && row[2][0] != "text"[0] && row[2][0] != "dec"[0] && row[2][0] != "boolean"[0];
    NotSubstringFirstChar("int", "boolean");
    FragmentFallback(row);
    assert Upper("int") == "INT";
    assert row[1] + " " + "INT" + Separator(false) == "qty INT,";
  }

  /** Lines 99 and 109 test `field_type in ('boolean')`, a substring test: the type
      `bool` becomes YESNO instead of reaching the fallback. */
  lemma SubstringBoolean()
    ensures Fragment(["T", "flag", "bool"], true) == Success("flag YESNO")
    ensures FragmentIntended(["T", "flag", "bool"], true) == Success("flag BOOL")
  {
    var row: Record := ["T", "flag", "bool"];
    assert row[2][0] != "char"[0] && row[2][0] != "text"[0] && row[2][0] != "dec"[0];
    assert row[2] != "boolean" by { assert |row[2]| != |"boolean"|; }
    assert OccursAt("bool", "boolean", 0);
    FragmentYesNo(row, true);
    assert row[1] + " YESNO" + Separator(true) == "flag YESNO";
    assert Upper("bool") == "BOOL";
    assert row[1] + " " + "BOOL" + Separator(true) == "flag BOOL";
  }

  /** `create_tables` with the intended column text. */
  function CreateTablesIntended(rows: seq<Record>, execute: string -> Outcome): Run {
    RunTables(FragmentIntended, rows, execute)
  }

  lemma {:induction false} FieldListIntendedError(group: seq<Record>)
    ensures FieldList(FragmentIntended, group).Failure? ==> FieldList(FragmentIntended, group).error == IndexError
    decreases |group|
  {
    if |group| >= 2 {
      FieldListIntendedError(group[1..]);
    }
  }

  /** With the intended column text the script can only stop on a short record. */
  lemma CreateTablesIntendedNoTypeError(rows: seq<Record>, execute: string -> Outcome)
    ensures CreateTablesIntended(rows, execute).crash != Some(TypeError)
  {
    if (forall i :: 0 <= i < |rows| ==> |rows[i]| >= 1) && CreateTablesIntended(rows, execute).crash.Some? {
      RunTablesCrash(FragmentIntended, rows, execute);
      var r := CreateTablesIntended(rows, execute);
      FieldListIntendedError(Group(rows, TableCounts(rows), |r.attempts|));
    }
  }

  lemma {:induction false} GroupRunComplete(fragment: FragmentFn, keys: seq<string>, counts: seq<nat>,
                                            execute: string -> Outcome, rows: seq<Record>, k: nat,
                                            attempts: seq<Attempt>)
    requires |keys| == |counts| && Sum(counts) == |rows| && k <= |counts|
    requires forall m :: k <= m < |counts| ==> FieldList(fragment, Group(rows, counts, m)).Success?
    ensures GroupRun(fragment, keys, counts, execute, rows, k, attempts).crash == None
    decreases |counts| - k
  {
    if k < |counts| {
      var stmt := CreateTable(keys[k], FieldList(fragment, Group(rows, counts, k)).value);
      GroupRunComplete(fragment, keys, counts, execute, rows, k + 1, attempts + [Attempt(stmt, execute(stmt))]);
    }
  }

  /** With the intended column text and a length cell in every record, the script
      creates every table of the file, in first-seen order, each with all of its
      group's columns joined by commas. */
  lemma CreateTablesIntendedComplete(rows: seq<Record>, execute: string -> Outcome)
    requires forall i :: 0 <= i < |rows| ==> |rows[i]| >= 4
    ensures CreateTablesIntended(rows, execute).crash == None
    ensures |CreateTablesIntended(rows, execute).attempts| == |TableKeys(rows)|
  {
    RunByGroups(FragmentIntended, rows, execute);
    var keys, counts := TableKeys(rows), TableCounts(rows);
    forall m | 0 <= m < |counts|
      ensures FieldList(FragmentIntended, Group(rows, counts, m)).Success?
    {
      var g := Group(rows, counts, m);
      forall i | 0 <= i < |g|
        ensures |g[i]| >= 4
      {
        GroupAt(rows, counts, m, i);
      }
      FieldListSucceeds(FragmentIntended, g);
    }
    GroupRunComplete(FragmentIntended, keys, counts, execute, rows, 0, []);
    RunTablesCount(FragmentIntended, rows, execute);
  }

  /** Statement `i` of the intended script creates the `i`-th table name with the
      columns of its group, each preceded by a blank, joined by commas. */
  lemma CreateTablesIntendedStatement(rows: seq<Record>, execute: string -> Outcome, i: nat)
    requires forall j :: 0 <= j < |rows| ==> |rows[j]| >= 4
    requires i < |TableKeys(rows)|
    ensures Sum(TableCounts(rows)) == |rows| && i < |TableCounts(rows)| == |TableKeys(rows)|
    ensures var g := Group(rows, TableCounts(rows), i);
      && (forall j :: 0 <= j < |g| ==> FragmentIntended(g[j], true).Success?)
      && i < |CreateTablesIntended(rows, execute).attempts|
      && CreateTablesIntended(rows, execute).attempts[i].statement ==
         CreateTable(TableKeys(rows)[i], Join(",", Columns(FragmentIntended, g)))
  {
    CreateTablesIntendedComplete(rows, execute);
    RunTablesAttempts(FragmentIntended, rows, execute, i);
    FragmentIntendedCommaConsistent();
    FieldListJoin(FragmentIntended, Group(rows, TableCounts(rows), i));
  }
}
