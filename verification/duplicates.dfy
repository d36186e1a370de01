/** `find_duplicate_columns`: which column names occur more than once
    within one table of a form's table tree.

    The scan of one table keeps the first entry seen per name; at the
    second occurrence the name enters the report with that first entry,
    and every further occurrence is appended. The reports of the loop
    tables are then merged in with `dict.update`, so a name reported by a
    later table replaces the list of an earlier one. The report is printed
    with sorted keys, so a map models it. */
module Duplicates {
  import opened Wrappers
  import opened Flatten

  /** One reported occurrence: the column name and its question text. */
  datatype Entry = Entry(id: string, text: Option<string>)

  type Report = map<string, seq<Entry>>

  function EntryOf(c: Column): Entry {
    Entry(c.databaseColumn, c.questionText)
  }

  // ---------------------------------------------------------------------
  // Reference definitions
  // ---------------------------------------------------------------------

  /** The entries of the columns named `name`, in column order. */
  function Occurrences(columns: seq<Column>, name: string): seq<Entry>
    decreases |columns|
  {
    if |columns| == 0 then []
    else
      var last := columns[|columns| - 1];
      Occurrences(columns[..|columns| - 1], name) + (if last.databaseColumn == name then [EntryOf(last)] else [])
  }

  /** The column names of a table. */
  function Names(columns: seq<Column>): set<string>
    decreases |columns|
  {
    if |columns| == 0 then {}
    else Names(columns[..|columns| - 1]) + {columns[|columns| - 1].databaseColumn}
  }

  predicate IsDuplicated(columns: seq<Column>, name: string) {
    |Occurrences(columns, name)| >= 2
  }

  /** The report of one table: every name occurring at least twice, with
      all its occurrences. */
  function TableDuplicates(columns: seq<Column>): Report {
    map name | name in Names(columns) && IsDuplicated(columns, name) :: Occurrences(columns, name)
  }

  /** The report of a table tree: the table's own report, updated with the
      report of each loop table in turn. */
  function TreeDuplicates(t: TableSpec): Report
    decreases t, 1
  {
    TableDuplicates(t.columns) + TreeDuplicatesIn(t.children)
  }

  function TreeDuplicatesIn(ts: seq<TableSpec>): Report
    decreases ts, 0
  {
    if |ts| == 0 then map[]
    else TreeDuplicatesIn(ts[..|ts| - 1]) + TreeDuplicates(ts[|ts| - 1])
  }

  // ---------------------------------------------------------------------
  // The scan
  // ---------------------------------------------------------------------

  lemma OccurrencesNonEmpty(columns: seq<Column>, name: string)
    ensures |Occurrences(columns, name)| >= 1 <==> name in Names(columns)
    decreases |columns|
  {
    if |columns| > 0 {
      OccurrencesNonEmpty(columns[..|columns| - 1], name);
    }
  }

  /** Appending a column adds one entry to that column's occurrences only. */
  lemma OccurrencesSnoc(before: seq<Column>, c: Column)
    ensures Names(before + [c]) == Names(before) + {c.databaseColumn}
    ensures Occurrences(before + [c], c.databaseColumn) == Occurrences(before, c.databaseColumn) + [EntryOf(c)]
    ensures forall n :: n != c.databaseColumn ==> Occurrences(before + [c], n) == Occurrences(before, n)
  {
    assert (before + [c])[..|before|] == before;
  }

  /** A column with a new name leaves the report as it was. */
  lemma SnocNewName(before: seq<Column>, c: Column)
    requires c.databaseColumn !in Names(before)
    ensures TableDuplicates(before + [c]) == TableDuplicates(before)
  {
    var d, d' := TableDuplicates(before), TableDuplicates(before + [c]);
    OccurrencesSnoc(before, c);
    OccurrencesNonEmpty(before, c.databaseColumn);
    assert forall n :: n in d' <==> n in d;
  }

  /** A column whose name was seen once reports both occurrences. */
  lemma SnocSecond(before: seq<Column>, c: Column)
    requires c.databaseColumn in Names(before) && c.databaseColumn !in TableDuplicates(before)
    ensures |Occurrences(before, c.databaseColumn)| == 1
    ensures TableDuplicates(before + [c])
         == TableDuplicates(before)[c.databaseColumn := [Occurrences(before, c.databaseColumn)[0], EntryOf(c)]]
  {
    var name := c.databaseColumn;
    var d, d' := TableDuplicates(before), TableDuplicates(before + [c]);
    OccurrencesSnoc(before, c);
    OccurrencesNonEmpty(before, name);
    assert Occurrences(before, name) == [Occurrences(before, name)[0]];
    var m := d[name := [Occurrences(before, name)[0], EntryOf(c)]];
    assert forall n :: n in d' <==> n in m;
    assert forall n :: n in d' ==> d'[n] == m[n];
  }

  /** A further occurrence of a reported name is appended to its list. */
  lemma SnocFurther(before: seq<Column>, c: Column)
    requires c.databaseColumn in TableDuplicates(before)
    ensures TableDuplicates(before + [c])
         == TableDuplicates(before)[c.databaseColumn := TableDuplicates(before)[c.databaseColumn] + [EntryOf(c)]]
  {
    var name := c.databaseColumn;
    var d, d' := TableDuplicates(before), TableDuplicates(before + [c]);
    OccurrencesSnoc(before, c);
    var m := d[name := d[name] + [EntryOf(c)]];
    assert forall n :: n in d' <==> n in m;
    assert forall n :: n in d' ==> d'[n] == m[n];
  }

  /** The state of the scan after the columns `seen`: the first entry of
      every name seen so far, and the report of the columns seen. */
  predicate Scanned(seen: seq<Column>, existing: map<string, Entry>, dups: Report) {
    && existing.Keys == Names(seen)
    && (forall name :: name in existing ==>
          |Occurrences(seen, name)| >= 1 && existing[name] == Occurrences(seen, name)[0])
    && dups == TableDuplicates(seen)
  }

  lemma ScannedNewName(seen: seq<Column>, existing: map<string, Entry>, dups: Report, column: Column)
    requires Scanned(seen, existing, dups) && column.databaseColumn !in existing
    ensures Scanned(seen + [column], existing[column.databaseColumn := EntryOf(column)], dups)
  {
    OccurrencesSnoc(seen, column);
    OccurrencesNonEmpty(seen, column.databaseColumn);
    SnocNewName(seen, column);
    assert Occurrences(seen + [column], column.databaseColumn) == [EntryOf(column)];
  }

  lemma ScannedSecond(seen: seq<Column>, existing: map<string, Entry>, dups: Report, column: Column)
    requires Scanned(seen, existing, dups)
    requires column.databaseColumn in existing && column.databaseColumn !in dups
    ensures Scanned(seen + [column], existing,
                    dups[column.databaseColumn := [existing[column.databaseColumn], EntryOf(column)]])
  {
    OccurrencesSnoc(seen, column);
    SnocSecond(seen, column);
  }

  lemma ScannedFurther(seen: seq<Column>, existing: map<string, Entry>, dups: Report, column: Column)
    requires Scanned(seen, existing, dups) && column.databaseColumn in dups
    ensures column.databaseColumn in existing
    ensures Scanned(seen + [column], existing,
                    dups[column.databaseColumn := dups[column.databaseColumn] + [EntryOf(column)]])
  {
    OccurrencesSnoc(seen, column);
    OccurrencesNonEmpty(seen, column.databaseColumn);
    SnocFurther(seen, column);
  }

  /** One turn of the scan over a column. */
  method ScanColumn(ghost seen: seq<Column>, existing: map<string, Entry>, dups: Report, column: Column)
    returns (existing': map<string, Entry>, dups': Report)
    requires Scanned(seen, existing, dups)
    ensures Scanned(seen + [column], existing', dups')
  {
    var name := column.databaseColumn;
    var entry := Entry(name, column.questionText);
    existing', dups' := existing, dups;
    if name in existing {
      if name !in dups {
        ScannedSecond(seen, existing, dups, column);
        dups' := dups'[name := [existing[name]]];
        assert dups'[name] + [entry] == [existing[name], entry];
        dups' := dups'[name := dups'[name] + [entry]];
        assert dups' == dups[name := [existing[name], entry]];
      } else {
        ScannedFurther(seen, existing, dups, column);
        dups' := dups'[name := dups'[name] + [entry]];
      }
    } else {
      ScannedNewName(seen, existing, dups, column);
      existing' := existing'[name := entry];
    }
  }

  /** The scan of one table's columns. */
  method ScanColumns(columns: seq<Column>) returns (dups: Report)
    ensures dups == TableDuplicates(columns)
  {
    var existing: map<string, Entry> := map[];
    dups := map[];
    for i := 0 to |columns|
      invariant Scanned(columns[..i], existing, dups)
    {
      assert columns[..i + 1] == columns[..i] + [columns[i]];
      existing, dups := ScanColumn(columns[..i], existing, dups, columns[i]);
    }
    assert columns[..|columns|] == columns;
  }

  lemma UnionAssociates(a: Report, b: Report, c: Report)
    ensures a + (b + c) == (a + b) + c
  {
  }

  /** `find_duplicate_columns` on a table tree. */
  method FindDuplicateColumns(t: TableSpec) returns (dups: Report)
    ensures dups == TreeDuplicates(t)
    decreases t
  {
    dups := ScanColumns(t.columns);
    for i := 0 to |t.children|
      invariant dups == TableDuplicates(t.columns) + TreeDuplicatesIn(t.children[..i])
    {
      var childDups := FindDuplicateColumns(t.children[i]);
      assert t.children[..i + 1][..i] == t.children[..i];
      UnionAssociates(TableDuplicates(t.columns), TreeDuplicatesIn(t.children[..i]), childDups);
      dups := dups + childDups;
    }
    assert t.children[..|t.children|] == t.children;
  }

  // ---------------------------------------------------------------------
  // What the report of a tree holds
  // ---------------------------------------------------------------------

  /** Some table of `ts` has `name` at least twice. */
  ghost predicate SomeDuplicates(ts: seq<TableSpec>, name: string) {
    exists i :: 0 <= i < |ts| && IsDuplicated(ts[i].columns, name)
  }

  /** `entries` are the occurrences of `name` in the last table of `ts`
      that has it twice. */
  ghost predicate FromLastDuplicating(ts: seq<TableSpec>, name: string, entries: seq<Entry>) {
    exists i :: 0 <= i < |ts| && IsDuplicated(ts[i].columns, name) && entries == Occurrences(ts[i].columns, name)
      && !SomeDuplicates(ts[i + 1..], name)
  }

  /** `report` is what merging the reports of the tables `ts` in order
      gives: a name is reported iff some table has it twice, and its list
      comes from the last such table. */
  ghost predicate Summarizes(ts: seq<TableSpec>, report: Report) {
    && (forall name :: name in report <==> SomeDuplicates(ts, name))
    && (forall name :: name in report ==> FromLastDuplicating(ts, name, report[name]))
  }

  lemma SomeDuplicatesAppend(a: seq<TableSpec>, b: seq<TableSpec>, name: string)
    ensures SomeDuplicates(a + b, name) <==> SomeDuplicates(a, name) || SomeDuplicates(b, name)
  {
    var ab := a + b;
    if SomeDuplicates(a, name) {
      var i :| 0 <= i < |a| && IsDuplicated(a[i].columns, name);
      assert ab[i] == a[i];
    }
    if SomeDuplicates(b, name) {
      var i :| 0 <= i < |b| && IsDuplicated(b[i].columns, name);
      assert ab[|a| + i] == b[i];
    }
    if SomeDuplicates(ab, name) {
      var i :| 0 <= i < |ab| && IsDuplicated(ab[i].columns, name);
      if i < |a| {
        assert ab[i] == a[i];
      } else {
        assert ab[i] == b[i - |a|];
      }
    }
  }

  lemma LastInRight(a: seq<TableSpec>, b: seq<TableSpec>, name: string, entries: seq<Entry>)
    requires FromLastDuplicating(b, name, entries)
    ensures FromLastDuplicating(a + b, name, entries)
  {
    var i :| 0 <= i < |b| && IsDuplicated(b[i].columns, name) && entries == Occurrences(b[i].columns, name)
      && !SomeDuplicates(b[i + 1..], name);
    var ab := a + b;
    assert ab[|a| + i] == b[i];
    assert ab[|a| + i + 1..] == b[i + 1..];
  }

  lemma LastInLeft(a: seq<TableSpec>, b: seq<TableSpec>, name: string, entries: seq<Entry>)
    requires FromLastDuplicating(a, name, entries) && !SomeDuplicates(b, name)
    ensures FromLastDuplicating(a + b, name, entries)
  {
    var i :| 0 <= i < |a| && IsDuplicated(a[i].columns, name) && entries == Occurrences(a[i].columns, name)
      && !SomeDuplicates(a[i + 1..], name);
    var ab := a + b;
    assert ab[i] == a[i];
    assert ab[i + 1..] == a[i + 1..] + b;
    SomeDuplicatesAppend(a[i + 1..], b, name);
  }

  lemma SummarizesOne(t: TableSpec)
    ensures Summarizes([t], TableDuplicates(t.columns))
  {
    forall name
      ensures name in TableDuplicates(t.columns) <==> SomeDuplicates([t], name)
    {
      OccurrencesNonEmpty(t.columns, name);
      assert [t][0] == t;
    }
    forall name | name in TableDuplicates(t.columns)
      ensures FromLastDuplicating([t], name, TableDuplicates(t.columns)[name])
    {
      assert [t][0] == t;
      assert [t][1..] == [];
    }
  }

  /** Merging two reports summarizes the two table lists one after the
      other. */
  lemma SummarizesAppend(a: seq<TableSpec>, ra: Report, b: seq<TableSpec>, rb: Report)
    requires Summarizes(a, ra) && Summarizes(b, rb)
    ensures Summarizes(a + b, ra + rb)
  {
    forall name
      ensures name in ra + rb <==> SomeDuplicates(a + b, name)
    {
      SomeDuplicatesAppend(a, b, name);
    }
    forall name | name in ra + rb
      ensures FromLastDuplicating(a + b, name, (ra + rb)[name])
    {
      if name in rb {
        LastInRight(a, b, name, rb[name]);
      } else {
        LastInLeft(a, b, name, ra[name]);
      }
    }
  }

  lemma {:induction false} TreeSummary(t: TableSpec)
    ensures Summarizes(Tables(t), TreeDuplicates(t))
    decreases t, 1
  {
    SummarizesOne(t);
    TreeSummaryIn(t.children);
    SummarizesAppend([t], TableDuplicates(t.columns), TablesIn(t.children), TreeDuplicatesIn(t.children));
  }

  lemma {:induction false} TreeSummaryIn(ts: seq<TableSpec>)
    ensures Summarizes(TablesIn(ts), TreeDuplicatesIn(ts))
    decreases ts, 0
  {
    if |ts| > 0 {
      var init, last := ts[..|ts| - 1], ts[|ts| - 1];
      TreeSummaryIn(init);
      TreeSummary(last);
      SummarizesAppend(TablesIn(init), TreeDuplicatesIn(init), Tables(last), TreeDuplicates(last));
    }
  }

  /** A column name is reported iff it occurs at least twice within one
      table of the tree. */
  lemma ReportedIffDuplicatedInATable(t: TableSpec, name: string)
    ensures name in TreeDuplicates(t) <==>
      exists i :: 0 <= i < |Tables(t)| && IsDuplicated(Tables(t)[i].columns, name)
  {
    TreeSummary(t);
  }

  /** A name that only the top table has twice is reported with every
      occurrence in that table, in column order. */
  lemma TopTableListsAllOccurrences(t: TableSpec, name: string)
    requires IsDuplicated(t.columns, name)
    requires forall i :: 1 <= i < |Tables(t)| ==> !IsDuplicated(Tables(t)[i].columns, name)
    ensures name in TreeDuplicates(t)
    ensures TreeDuplicates(t)[name] == Occurrences(t.columns, name)
  {
    var ts := Tables(t);
    TreeSummary(t);
    assert ts[0] == t;
    assert name in TreeDuplicates(t);
    var i :| 0 <= i < |ts| && IsDuplicated(ts[i].columns, name)
      && TreeDuplicates(t)[name] == Occurrences(ts[i].columns, name)
      && !SomeDuplicates(ts[i + 1..], name);
    assert i == 0;
  }

  /** A name that no table has twice is not reported, even when a parent
      and a loop table each have it once. */
  lemma SingleOccurrencesNotReported(t: TableSpec, name: string)
    requires forall i :: 0 <= i < |Tables(t)| ==> |Occurrences(Tables(t)[i].columns, name)| <= 1
    ensures name !in TreeDuplicates(t)
  {
    TreeSummary(t);
  }
}
