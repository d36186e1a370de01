/** Schema reconciliation against the warehouse database. The database is
    abstract state: a map from table names to tables, and a table is a map
    from column names to column types. A run of the reconciliation either
    fails (the database raised an error, or the Python code crashed) or
    yields the new state together with the statements it issued. */
module Reconcile {
  import opened Wrappers
  import Flatten

  datatype ColType =
    | Text
    | BooleanDefaultFalse
    | Timestamp
    | VarChar(maxLength: nat)

  type Table = map<string, ColType>
  type Database = map<string, Table>

  /** The schema statements a column sync issues, in order (drops aside). */
  datatype Ddl =
    | AddColumn(column: string, colType: ColType)
    | AlterIdType(length: nat)

  datatype DbError =
    | TableExists(table: string)
    | NoColumns
    | DuplicateColumn
    | NoSuchTable(table: string)
    | IdNotVarChar
    | NotComparable(column: string)

  const ID: string := "id"
  const IMPORTED_ON: string := "imported_on"
  const CLOSED: string := "closed"
  /** Length of the key column of a case table. */
  const CASE_ID_LENGTH: nat := 255
  /** The columns every case table gets after its properties. */
  const CASE_TAIL: seq<string> := ["imported_on", "opened_date", "closed", "owner_id"]

  /** The names a sequence of column names holds. */
  function Names(columns: seq<string>): set<string> {
    set c | c in columns
  }

  predicate Distinct(names: seq<string>) {
    forall i, j :: 0 <= i < j < |names| ==> names[i] != names[j]
  }

  // ---------------------------------------------------------------------
  // Table creation
  // ---------------------------------------------------------------------

  /** The text columns of a new table: the given columns from the second
      to the next-to-last, then the last one. With a single column that
      column itself is emitted; otherwise the first one is skipped. */
  function CreatedColumns(columns: seq<string>): (r: seq<string>)
    requires |columns| > 0
    ensures |columns| == 1 ==> r == columns
    ensures |columns| >= 2 ==> r == columns[1..]
  {
    (if |columns| >= 2 then columns[1..|columns| - 1] else [])
      + [columns[|columns| - 1]]
  }

  /** The table a create statement with the given key length and text
      columns defines: `id` a bounded varchar, `imported_on` a timestamp,
      the text columns TEXT. */
  function NewTable(idLength: nat, text: seq<string>): Table {
    map c | c in Names(text) + {ID, IMPORTED_ON} ::
      if c == ID then VarChar(idLength) else if c == IMPORTED_ON then Timestamp else Text
  }

  /** Issues the create statement for a table; the database refuses an
      existing table and a repeated column name, and an empty column list
      makes the statement text itself impossible to build. */
  function CreateWith(db: Database, table: string, columns: seq<string>, idLength: nat): (r: Result<Database, DbError>)
    ensures r.Success? <==>
      && table !in db
      && |columns| > 0
      && Distinct([ID, IMPORTED_ON] + CreatedColumns(columns))
    ensures r.Success? ==>
      && r.value.Keys == db.Keys + {table}
      && (forall other :: other in db ==> r.value[other] == db[other])
      && table in r.value
      && r.value[table].Keys == Names(CreatedColumns(columns)) + {ID, IMPORTED_ON}
      && ID in r.value[table] && IMPORTED_ON in r.value[table]
      && r.value[table][ID] == VarChar(idLength)
      && r.value[table][IMPORTED_ON] == Timestamp
      && (forall c :: c in r.value[table] && c != ID && c != IMPORTED_ON ==> r.value[table][c] == Text)
  {
    if table in db then Failure(TableExists(table))
    else if |columns| == 0 then Failure(NoColumns)
    else
      var all := [ID, IMPORTED_ON] + CreatedColumns(columns);
      if !Distinct(all) then Failure(DuplicateColumn)
      else
        Success(db[table := NewTable(idLength, CreatedColumns(columns))])
  }

  /** `create_table`: the key column is a varchar of the configured bound. */
  function CreateTable(db: Database, table: string, columns: seq<string>, bound: nat): (r: Result<Database, DbError>)
    ensures r.Success? ==> table in r.value && ID in r.value[table] && r.value[table][ID] == VarChar(bound)
  {
    CreateWith(db, table, columns, bound)
  }

  /** `create_case_table`: the key column is a varchar of 255. */
  function CreateCaseTable(db: Database, table: string, properties: seq<string>): (r: Result<Database, DbError>)
    ensures r.Success? ==> table in r.value && ID in r.value[table] && r.value[table][ID] == VarChar(CASE_ID_LENGTH)
  {
    CreateWith(db, table, properties, CASE_ID_LENGTH)
  }

  /** `confirm_table_schema`: create the table only when it is absent; the
      result tells whether a table was created. */
  function ConfirmTableSchema(db: Database, table: string, columns: seq<string>, bound: nat): (r: Result<(Database, bool), DbError>)
    ensures table in db ==> r == Success((db, false))
    ensures r.Success? ==> table in r.value.0 && forall other :: other in db ==> other in r.value.0 && r.value.0[other] == db[other]
    ensures r.Success? && r.value.1 ==> table !in db && ID in r.value.0[table] && r.value.0[table][ID] == VarChar(bound)
  {
    if table in db then Success((db, false))
    else
      var db' :- CreateTable(db, table, columns, bound);
      Success((db', true))
  }

  /** `confirm_case_table_schema`: likewise for a case table. */
  function ConfirmCaseTableSchema(db: Database, table: string, properties: seq<string>): (r: Result<(Database, bool), DbError>)
    ensures table in db ==> r == Success((db, false))
    ensures r.Success? ==> table in r.value.0 && forall other :: other in db ==> other in r.value.0 && r.value.0[other] == db[other]
    ensures r.Success? && r.value.1 ==> table !in db && ID in r.value.0[table] && r.value.0[table][ID] == VarChar(CASE_ID_LENGTH)
  {
    if table in db then Success((db, false))
    else
      var db' :- CreateCaseTable(db, table, properties);
      Success((db', true))
  }

  // ---------------------------------------------------------------------
  // Column sync
  // ---------------------------------------------------------------------

  /** The two flavours of the column sync: form tables widen the key
      column to the configured bound; case tables add `closed` as a
      boolean and never touch the key column. */
  datatype Flavour = FormColumns(bound: nat) | CaseColumns

  /** The live columns the sync never lists, and so never drops. */
  function Retained(f: Flavour): set<string> {
    if f.FormColumns? then {IMPORTED_ON} else {IMPORTED_ON, ID, CLOSED}
  }

  /** The type of a column the sync adds. */
  function NewColumnType(f: Flavour, c: string): ColType {
    if f.CaseColumns? && c == CLOSED then BooleanDefaultFalse else Text
  }

  /** The type of the key column once a form sync has seen it. */
  function Widened(t: ColType, bound: nat): ColType {
    if t.VarChar? && t.maxLength < bound then VarChar(bound) else t
  }

  /** A key column the form sync cannot read a maximum length from. */
  predicate BadId(t: Table, f: Flavour) {
    f.FormColumns? && ID in t && !t[ID].VarChar?
  }

  /** A column type whose values Postgres can compare with the empty
      string. The literal '' is read as a value of the column's type, which
      a timestamp or a boolean column rejects. */
  predicate Comparable(ty: ColType) {
    ty.Text? || ty.VarChar?
  }

  /** A live expected column the form sync cannot get past: a key column
      without a maximum length, or another column the count of non-empty
      values cannot compare with ''. */
  predicate Unsyncable(t: Table, c: string, f: Flavour) {
    f.FormColumns? && c in t && (if c == ID then !t[c].VarChar? else !Comparable(t[c]))
  }

  datatype Step = Step(table: Table, issued: seq<Ddl>)

  /** The work done for one expected column: add it when the existence
      check does not find it. A form sync then goes on with a live column:
      the key column is widened when its maximum length is below the bound,
      and every live column has its non-empty values counted. */
  function SyncOne(t: Table, c: string, f: Flavour): (r: Result<Step, DbError>)
    ensures r.Failure? <==> Unsyncable(t, c, f)
    ensures r.Success? ==> r.value.table.Keys == t.Keys + {c}
    ensures r.Success? ==> forall d :: d in t && d != ID ==> r.value.table[d] == t[d]
    ensures r.Success? ==> forall d :: d in r.value.table && d !in t ==> d == c && r.value.table[d] == NewColumnType(f, c)
  {
    if c !in t then
      Success(Step(t[c := NewColumnType(f, c)], [AddColumn(c, NewColumnType(f, c))]))
    else if f.FormColumns? && c == ID then
      if !t[c].VarChar? then Failure(IdNotVarChar)
      else if t[c].maxLength < f.bound then Success(Step(t[c := VarChar(f.bound)], [AlterIdType(f.bound)]))
      else Success(Step(t, []))
    else if f.FormColumns? && !Comparable(t[c]) then
      Failure(NotComparable(c))
    else
      Success(Step(t, []))
  }

  /** The loop over the expected columns, in order. */
  function SyncAll(t: Table, columns: seq<string>, f: Flavour): (r: Result<Step, DbError>)
    ensures r.Success? ==> r.value.table.Keys == t.Keys + Names(columns)
    decreases |columns|
  {
    if |columns| == 0 then Success(Step(t, []))
    else
      var first :- SyncOne(t, columns[0], f);
      var rest :- SyncAll(first.table, columns[1..], f);
      assert Names(columns) == {columns[0]} + Names(columns[1..]);
      Success(Step(rest.table, first.issued + rest.issued))
  }

  /** The outcome of a column sync: the new table, the add and alter
      statements in order, and the dropped columns (the source lists them
      in no particular order). */
  datatype Sync = Sync(table: Table, issued: seq<Ddl>, dropped: set<string>)

  /** A whole column sync of one live table against the expected columns:
      list the live columns outside the retained ones, run the loop, and
      drop what the expected columns did not claim. */
  function SyncColumns(t: Table, columns: seq<string>, f: Flavour): (r: Result<Sync, DbError>)
    ensures r.Success? ==> r.value.table.Keys == Names(columns) + (t.Keys * Retained(f))
    ensures r.Success? ==> r.value.dropped == t.Keys - Retained(f) - Names(columns)
  {
    var listed := t.Keys - Retained(f);
    var step :- SyncAll(t, columns, f);
    var leftovers := listed - Names(columns);
    Success(Sync(map c | c in step.table && c !in leftovers :: step.table[c], step.issued, leftovers))
  }

  /** The database after a sync, with what it issued. */
  datatype Reconciled = Reconciled(db: Database, issued: seq<Ddl>, dropped: set<string>)

  /** Runs a sync against a named table. When the table is missing the
      column listing comes back empty and the existence checks find
      nothing, so the first add statement fails; with no expected columns
      nothing is issued at all. */
  function SyncTable(db: Database, table: string, columns: seq<string>, f: Flavour): (r: Result<Reconciled, DbError>)
    ensures table !in db ==> (r.Success? <==> |columns| == 0)
    ensures table !in db && r.Success? ==> r.value == Reconciled(db, [], {})
    ensures r.Success? ==> r.value.db.Keys == db.Keys
    ensures r.Success? && table in db ==> table in r.value.db
    ensures r.Success? ==> forall other :: other in db && other != table ==> r.value.db[other] == db[other]
  {
    if table !in db then
      if |columns| == 0 then Success(Reconciled(db, [], {})) else Failure(NoSuchTable(table))
    else
      var s :- SyncColumns(db[table], columns, f);
      Success(Reconciled(db[table := s.table], s.issued, s.dropped))
  }

  /** `confirm_table_columns` for a table spec. */
  function ConfirmTableColumns(db: Database, spec: Flatten.TableSpec, bound: nat): (r: Result<Reconciled, DbError>)
    ensures r.Success? && spec.tableTarget in db ==>
      && spec.tableTarget in r.value.db
      && r.value.db[spec.tableTarget].Keys == Names(DatabaseColumns(spec)) + (db[spec.tableTarget].Keys * {IMPORTED_ON})
  {
    SyncTable(db, spec.tableTarget, DatabaseColumns(spec), FormColumns(bound))
  }

  /** The database column names of a table spec, in order. */
  function DatabaseColumns(spec: Flatten.TableSpec): (r: seq<string>)
    ensures |r| == |spec.columns|
    ensures forall i :: 0 <= i < |r| ==> r[i] == spec.columns[i].databaseColumn
  {
    seq(|spec.columns|, i requires 0 <= i < |spec.columns| => spec.columns[i].databaseColumn)
  }

  /** `confirm_case_table_columns`: the properties followed by the four
      fixed case columns. */
  function ConfirmCaseTableColumns(db: Database, table: string, properties: seq<string>): (r: Result<Reconciled, DbError>)
    ensures r.Success? <==> table in db
    ensures r.Success? ==>
      && table in r.value.db
      && r.value.db[table].Keys == Names(properties) + Names(CASE_TAIL) + (db[table].Keys * {ID})
  {
    var columns := properties + CASE_TAIL;
    assert CASE_TAIL[0] in columns;
    NamesAppend(properties, CASE_TAIL);
    if table in db then
      SyncNeverFailsForCases(db[table], columns);
      SyncTable(db, table, columns, CaseColumns)
    else
      SyncTable(db, table, columns, CaseColumns)
  }

  lemma NamesAppend(a: seq<string>, b: seq<string>)
    ensures Names(a + b) == Names(a) + Names(b)
  {
  }

  // ---------------------------------------------------------------------
  // Properties of the sync loop
  // ---------------------------------------------------------------------

  /** A case sync never fails: only the form flavour reads the key
      column's length. */
  lemma {:induction false} SyncNeverFailsForCases(t: Table, columns: seq<string>)
    ensures SyncAll(t, columns, CaseColumns).Success?
    ensures SyncColumns(t, columns, CaseColumns).Success?
    decreases |columns|
  {
    if |columns| > 0 {
      var first := SyncOne(t, columns[0], CaseColumns).value;
      SyncNeverFailsForCases(first.table, columns[1..]);
    }
  }

  /** The key column is expected and, when it is reached, it is not a
      varchar: either it was live with another type, or it was missing, got
      added as TEXT, and is expected a second time. */
  predicate KeyFails(t: Table, columns: seq<string>) {
    ID in columns && (if ID in t then !t[ID].VarChar? else ID in columns[FirstIndex(columns, ID) + 1..])
  }

  /** Some expected column other than the key is live with a type the
      count query cannot compare with ''. */
  predicate CountFails(t: Table, columns: seq<string>) {
    exists c :: c in columns && c != ID && c in t && !Comparable(t[c])
  }

  /** The form sync fails exactly when it meets a key column it cannot
      read a maximum length from, or a live column it cannot count; the
      case sync never fails. */
  lemma {:induction false} SyncAllFails(t: Table, columns: seq<string>, f: Flavour)
    ensures SyncAll(t, columns, f).Failure? <==>
      f.FormColumns? && (KeyFails(t, columns) || CountFails(t, columns))
    decreases |columns|
  {
    if |columns| > 0 {
      var c := columns[0];
      var one := SyncOne(t, c, f);
      if one.Success? {
        SyncAllFails(one.value.table, columns[1..], f);
        SyncOneKeepsKey(t, c, f);
        if c == ID {
          assert FirstIndex(columns, ID) == 0;
        } else if ID in columns {
          assert columns[1..][FirstIndex(columns[1..], ID) + 1..] == columns[FirstIndex(columns, ID) + 1..];
        }
        if f.FormColumns? {
          CountFailsAfterFirst(t, columns, f, one.value);
        }
      } else if c == ID {
        assert FirstIndex(columns, ID) == 0;
      } else {
        assert c in columns;
      }
    }
  }

  /** Once the first column is through, the columns still to come meet a
      column they cannot count exactly when the whole list did. */
  lemma CountFailsAfterFirst(t: Table, columns: seq<string>, f: Flavour, first: Step)
    requires |columns| > 0 && f.FormColumns?
    requires SyncOne(t, columns[0], f) == Success(first)
    ensures CountFails(first.table, columns[1..]) <==> CountFails(t, columns)
  {
    if CountFails(first.table, columns[1..]) {
      var c :| c in columns[1..] && c != ID && c in first.table && !Comparable(first.table[c]);
      assert c in columns;
    }
    if CountFails(t, columns) {
      var c :| c in columns && c != ID && c in t && !Comparable(t[c]);
      assert c != columns[0];
      assert c in columns[1..];
    }
  }

  /** The index of the first occurrence of a name. */
  function FirstIndex(columns: seq<string>, c: string): (i: nat)
    requires c in columns
    ensures i < |columns| && columns[i] == c
    ensures forall j :: 0 <= j < i ==> columns[j] != c
  {
    if columns[0] == c then 0 else 1 + FirstIndex(columns[1..], c)
  }

  /** What one step does to the key column's type. */
  lemma SyncOneKeepsKey(t: Table, c: string, f: Flavour)
    requires SyncOne(t, c, f).Success?
    ensures ID in t ==> ID in SyncOne(t, c, f).value.table
    ensures ID in t && c != ID ==> SyncOne(t, c, f).value.table[ID] == t[ID]
    ensures ID !in t && c == ID ==> SyncOne(t, c, f).value.table[ID] == NewColumnType(f, ID)
    ensures ID !in t && c != ID ==> ID !in SyncOne(t, c, f).value.table
  {
  }

  /** The type every column has after the loop: a live column keeps its
      type, except the key column of a form table, which is widened when
      expected; an added column gets the type the flavour gives it. */
  function TypeAfter(t: Table, columns: seq<string>, f: Flavour, c: string): ColType
    requires c in t || c in columns
  {
    if c !in t then NewColumnType(f, c)
    else if f.FormColumns? && c == ID && ID in columns then Widened(t[c], f.bound)
    else t[c]
  }

  lemma {:induction false} SyncAllTypes(t: Table, columns: seq<string>, f: Flavour)
    requires SyncAll(t, columns, f).Success?
    ensures forall c :: c in SyncAll(t, columns, f).value.table ==>
      (c in t || c in columns) && SyncAll(t, columns, f).value.table[c] == TypeAfter(t, columns, f, c)
    decreases |columns|
  {
    if |columns| > 0 {
      var first := SyncOne(t, columns[0], f).value;
      SyncAllTypes(first.table, columns[1..], f);
      forall c | c in SyncAll(t, columns, f).value.table
        ensures (c in t || c in columns) && SyncAll(t, columns, f).value.table[c] == TypeAfter(t, columns, f, c)
      {
        assert c in first.table || c in columns[1..];
        if c == columns[0] && c in t && f.FormColumns? && c == ID {
          assert first.table[c] == Widened(t[c], f.bound);
          if ID in columns[1..] {
            SyncAllFails(first.table, columns[1..], f);
          }
        } else if c == columns[0] && c !in t && c == ID && f.FormColumns? && ID in columns[1..] {
          SyncAllFails(first.table, columns[1..], f);
          assert false;
        }
      }
    }
  }

  /** The add statements of a sync: one per expected column the table
      lacks, each with the flavour's type, and no column added twice. */
  ghost predicate AddsExactly(t: Table, columns: seq<string>, f: Flavour, issued: seq<Ddl>) {
    && (forall d :: d in issued && d.AddColumn? ==>
          d.column in columns && d.column !in t && d.colType == NewColumnType(f, d.column))
    && (forall c :: c in columns && c !in t ==> AddColumn(c, NewColumnType(f, c)) in issued)
    && (forall i, j :: 0 <= i < j < |issued| && issued[i].AddColumn? && issued[j].AddColumn? ==>
          issued[i].column != issued[j].column)
  }

  lemma AddsAppend(t: Table, c: string, columns: seq<string>, f: Flavour, first: Step, rest: seq<Ddl>)
    requires |columns| > 0 && c == columns[0]
    requires SyncOne(t, c, f) == Success(first)
    requires AddsExactly(first.table, columns[1..], f, rest)
    ensures AddsExactly(t, columns, f, first.issued + rest)
  {
    var all := first.issued + rest;
    assert forall d :: d in first.issued ==> d.AddColumn? ==> d == AddColumn(c, NewColumnType(f, c)) && c !in t;
    assert forall k :: 0 <= k < |rest| && rest[k].AddColumn? ==> rest[k].column != c;
    forall i, j | 0 <= i < j < |all| && all[i].AddColumn? && all[j].AddColumn?
      ensures all[i].column != all[j].column
    {
      if i < |first.issued| {
        assert all[j] == rest[j - |first.issued|];
      } else {
        assert all[i] == rest[i - |first.issued|] && all[j] == rest[j - |first.issued|];
      }
    }
    forall x | x in columns && x !in t
      ensures AddColumn(x, NewColumnType(f, x)) in all
    {
      if x != c {
        assert x in columns[1..];
      }
    }
  }

  lemma {:induction false} SyncAllAdds(t: Table, columns: seq<string>, f: Flavour)
    requires SyncAll(t, columns, f).Success?
    ensures AddsExactly(t, columns, f, SyncAll(t, columns, f).value.issued)
    decreases |columns|
  {
    if |columns| > 0 {
      var first := SyncOne(t, columns[0], f).value;
      SyncAllAdds(first.table, columns[1..], f);
      AddsAppend(t, columns[0], columns, f, first, SyncAll(first.table, columns[1..], f).value.issued);
    }
  }

  /** The form sync meets a live key column whose length is below the bound. */
  predicate NeedsWidening(t: Table, columns: seq<string>, f: Flavour) {
    f.FormColumns? && ID in columns && ID in t && t[ID].VarChar? && t[ID].maxLength < f.bound
  }

  /** The alter statements of a sync: exactly one, to the bound, when the
      key column needs widening, and none otherwise. */
  ghost predicate AltersExactly(t: Table, columns: seq<string>, f: Flavour, issued: seq<Ddl>) {
    && (forall i :: 0 <= i < |issued| && issued[i].AlterIdType? ==>
          NeedsWidening(t, columns, f) && issued[i].length == f.bound)
    && (NeedsWidening(t, columns, f) ==> AlterIdType(f.bound) in issued)
    && (forall i, j :: 0 <= i < j < |issued| ==> !(issued[i].AlterIdType? && issued[j].AlterIdType?))
  }

  /** What the first step means for the widening still to come. */
  lemma WideningAfterFirst(t: Table, columns: seq<string>, f: Flavour, first: Step)
    requires |columns| > 0
    requires SyncOne(t, columns[0], f) == Success(first)
    ensures NeedsWidening(first.table, columns[1..], f) ==> columns[0] != ID && NeedsWidening(t, columns, f)
    ensures columns[0] == ID ==> !NeedsWidening(first.table, columns[1..], f)
    ensures columns[0] != ID && NeedsWidening(t, columns, f) ==> NeedsWidening(first.table, columns[1..], f)
    ensures forall d :: d in first.issued && d.AlterIdType? ==>
      columns[0] == ID && NeedsWidening(t, columns, f) && d.length == f.bound
    ensures columns[0] == ID && NeedsWidening(t, columns, f) ==> first.issued == [AlterIdType(f.bound)]
    ensures |first.issued| <= 1
  {
    SyncOneKeepsKey(t, columns[0], f);
  }

  lemma AltersAppend(t: Table, columns: seq<string>, f: Flavour, first: Step, rest: seq<Ddl>)
    requires |columns| > 0
    requires SyncOne(t, columns[0], f) == Success(first)
    requires AltersExactly(first.table, columns[1..], f, rest)
    ensures AltersExactly(t, columns, f, first.issued + rest)
  {
    WideningAfterFirst(t, columns, f, first);
    var all := first.issued + rest;
    forall i | 0 <= i < |all| && all[i].AlterIdType?
      ensures NeedsWidening(t, columns, f) && all[i].length == f.bound
    {
      if i >= |first.issued| {
        assert all[i] == rest[i - |first.issued|];
      } else {
        assert all[i] in first.issued;
      }
    }
    forall i, j | 0 <= i < j < |all|
      ensures !(all[i].AlterIdType? && all[j].AlterIdType?)
    {
      if i < |first.issued| {
        assert all[j] == rest[j - |first.issued|];
        if all[i].AlterIdType? {
          assert all[i] in first.issued;
          assert !NeedsWidening(first.table, columns[1..], f);
        }
      } else {
        assert all[i] == rest[i - |first.issued|] && all[j] == rest[j - |first.issued|];
      }
    }
  }

  lemma {:induction false} SyncAllAlters(t: Table, columns: seq<string>, f: Flavour)
    requires SyncAll(t, columns, f).Success?
    ensures AltersExactly(t, columns, f, SyncAll(t, columns, f).value.issued)
    decreases |columns|
  {
    if |columns| > 0 {
      var first := SyncOne(t, columns[0], f).value;
      SyncAllAlters(first.table, columns[1..], f);
      AltersAppend(t, columns, f, first, SyncAll(first.table, columns[1..], f).value.issued);
    }
  }

  /** Every column after a sync has the type `TypeAfter` gives it. */
  lemma SyncColumnsTypes(t: Table, columns: seq<string>, f: Flavour)
    requires SyncColumns(t, columns, f).Success?
    ensures forall c :: c in SyncColumns(t, columns, f).value.table ==>
      (c in t || c in columns) && SyncColumns(t, columns, f).value.table[c] == TypeAfter(t, columns, f, c)
  {
    SyncAllTypes(t, columns, f);
  }

  /** With every expected column live, a well-typed key column and nothing
      to widen, the loop leaves the table as it is and issues nothing. */
  lemma {:induction false} SyncAllInPlace(t: Table, columns: seq<string>, f: Flavour)
    requires Names(columns) <= t.Keys
    requires ID in columns ==> !BadId(t, f) && !NeedsWidening(t, columns, f)
    requires f.FormColumns? ==> forall c :: c in columns && c != ID ==> Comparable(t[c])
    ensures SyncAll(t, columns, f) == Success(Step(t, []))
    decreases |columns|
  {
    if |columns| > 0 {
      assert columns[0] in Names(columns);
      assert Names(columns[1..]) <= Names(columns);
      if ID in columns[1..] {
        assert ID in columns;
      }
      assert SyncOne(t, columns[0], f) == Success(Step(t, []));
      SyncAllInPlace(t, columns[1..], f);
      var empty: seq<Ddl> := [];
      assert empty + empty == empty;
    }
  }

  /** A second sync with the same columns on the result of a successful
      one issues nothing, drops nothing and changes nothing, provided the
      key column was live whenever a form sync expects it. */
  lemma Rerun(t: Table, columns: seq<string>, f: Flavour)
    requires SyncColumns(t, columns, f).Success?
    requires f.FormColumns? && ID in columns ==> ID in t
    ensures var s := SyncColumns(t, columns, f).value;
      SyncColumns(s.table, columns, f) == Success(Sync(s.table, [], {}))
  {
    var s := SyncColumns(t, columns, f).value;
    SyncColumnsTypes(t, columns, f);
    SyncAllFails(t, columns, f);
    if ID in columns && f.FormColumns? {
      assert ID in s.table;
      assert s.table[ID] == Widened(t[ID], f.bound);
    }
    if f.FormColumns? {
      forall c | c in columns && c != ID
        ensures Comparable(s.table[c])
      {
        assert c in Names(columns);
      }
    }
    SyncAllInPlace(s.table, columns, f);
    var leftovers := s.table.Keys - Retained(f) - Names(columns);
    assert leftovers == {};
    assert (map c | c in s.table && c !in leftovers :: s.table[c]) == s.table;
  }

  /** Without that proviso the second run fails: an expected key column
      missing from the table is added as TEXT, and the next form sync
      cannot read a maximum length from it. */
  lemma RerunAfterAddingIdFails(t: Table, columns: seq<string>, bound: nat)
    requires t == map[IMPORTED_ON := Timestamp]
    requires columns == [ID]
    ensures SyncColumns(t, columns, FormColumns(bound)).Success?
    ensures var s := SyncColumns(t, columns, FormColumns(bound)).value;
      && s.table == map[IMPORTED_ON := Timestamp, ID := Text]
      && SyncColumns(s.table, columns, FormColumns(bound)) == Failure(IdNotVarChar)
  {
    var f := FormColumns(bound);
    var added := map[IMPORTED_ON := Timestamp, ID := Text];
    assert ID !in t;
    assert SyncOne(t, ID, f) == Success(Step(added, [AddColumn(ID, Text)]));
    assert columns[1..] == [];
    assert SyncAll(added, [], f) == Success(Step(added, []));
    assert [AddColumn(ID, Text)] + [] == [AddColumn(ID, Text)];
    assert SyncAll(t, columns, f) == Success(Step(added, [AddColumn(ID, Text)]));
    assert Names(columns) == {ID};
    var s := SyncColumns(t, columns, f).value;
    assert s.table == added;
    assert SyncOne(added, ID, f) == Failure(IdNotVarChar);
  }

  /** A spec column named `imported_on` meets the live timestamp column of
      that name, and counting its non-empty values fails. */
  lemma ImportedOnColumnFails(t: Table, columns: seq<string>, bound: nat)
    requires t == map[ID := VarChar(bound), IMPORTED_ON := Timestamp]
    requires columns == [ID, IMPORTED_ON]
    ensures SyncColumns(t, columns, FormColumns(bound)) == Failure(NotComparable(IMPORTED_ON))
  {
    var f := FormColumns(bound);
    assert SyncOne(t, ID, f) == Success(Step(t, []));
    assert columns[1..] == [IMPORTED_ON];
    assert SyncOne(t, IMPORTED_ON, f) == Failure(NotComparable(IMPORTED_ON));
    assert SyncAll(t, columns[1..], f) == Failure(NotComparable(IMPORTED_ON));
    assert SyncAll(t, columns, f) == Failure(NotComparable(IMPORTED_ON));
  }

  /** A live table {id, imported_on, old_field} synced against the columns
      [id, received_on, new_field] keeps id and imported_on, adds the two
      new columns as TEXT, in order, and drops old_field. */
  lemma SyncScenario(t: Table, columns: seq<string>, bound: nat)
    requires t == map["id" := VarChar(bound), "imported_on" := Timestamp, "old_field" := Text]
    requires columns == ["id", "received_on", "new_field"]
    ensures SyncColumns(t, columns, FormColumns(bound)).Success?
    ensures var s := SyncColumns(t, columns, FormColumns(bound)).value;
      && s.table == map["id" := VarChar(bound), "imported_on" := Timestamp, "received_on" := Text, "new_field" := Text]
      && s.issued == [AddColumn("received_on", Text), AddColumn("new_field", Text)]
      && s.dropped == {"old_field"}
  {
    var t2 := ScenarioLoop(t, columns, bound);
    ScenarioDrops(t, columns, bound);
    ScenarioFinal(t2, bound);
  }

  lemma ScenarioDrops(t: Table, columns: seq<string>, bound: nat)
    requires t == map["id" := VarChar(bound), "imported_on" := Timestamp, "old_field" := Text]
    requires columns == ["id", "received_on", "new_field"]
    ensures t.Keys - Retained(FormColumns(bound)) - Names(columns) == {"old_field"}
  {
    assert Names(columns) == {"id", "received_on", "new_field"};
    assert "old_field"[0] != "new_field"[0];
  }

  lemma ScenarioFinal(t2: Table, bound: nat)
    requires t2 == map["id" := VarChar(bound), "imported_on" := Timestamp, "old_field" := Text]["received_on" := Text]["new_field" := Text]
    ensures (map c | c in t2 && c !in {"old_field"} :: t2[c])
      == map["id" := VarChar(bound), "imported_on" := Timestamp, "received_on" := Text, "new_field" := Text]
  {
    assert "old_field"[0] != "new_field"[0];
  }

  /** The loop of that scenario, one column at a time. */
  lemma ScenarioLoop(t: Table, columns: seq<string>, bound: nat) returns (t2: Table)
    requires t == map["id" := VarChar(bound), "imported_on" := Timestamp, "old_field" := Text]
    requires columns == ["id", "received_on", "new_field"]
    ensures t2 == t["received_on" := Text]["new_field" := Text]
    ensures SyncAll(t, columns, FormColumns(bound)) == Success(Step(t2, [AddColumn("received_on", Text), AddColumn("new_field", Text)]))
  {
    var f := FormColumns(bound);
    var t1 := t["received_on" := Text];
    t2 := t1["new_field" := Text];
    assert "old_field"[0] != "new_field"[0];
    assert "new_field" !in t1;
    assert "received_on" !in t;
    var none: seq<Ddl> := [];
    assert SyncAll(t2, [], f) == Success(Step(t2, none));
    assert [AddColumn("new_field", Text)] + none == [AddColumn("new_field", Text)];
    assert SyncAll(t1, ["new_field"], f) == Success(Step(t2, [AddColumn("new_field", Text)]));
    assert columns[1..] == ["received_on", "new_field"] && columns[1..][1..] == ["new_field"];
    assert SyncOne(t, "received_on", f) == Success(Step(t1, [AddColumn("received_on", Text)]));
    assert [AddColumn("received_on", Text)] + [AddColumn("new_field", Text)] == [AddColumn("received_on", Text), AddColumn("new_field", Text)];
    assert SyncAll(t, columns[1..], f) == Success(Step(t2, [AddColumn("received_on", Text), AddColumn("new_field", Text)]));
    assert SyncOne(t, "id", f) == Success(Step(t, []));
    assert none + [AddColumn("received_on", Text), AddColumn("new_field", Text)] == [AddColumn("received_on", Text), AddColumn("new_field", Text)];
  }

  /** A table just created from columns that start with the key column is
      already in sync with them: the column sync issues nothing and drops
      nothing. */
  lemma CreatedTableIsInSync(db: Database, spec: Flatten.TableSpec, bound: nat)
    requires spec.tableTarget !in db
    requires |spec.columns| >= 2 && spec.columns[0].databaseColumn == ID
    requires ConfirmTableSchema(db, spec.tableTarget, DatabaseColumns(spec), bound).Success?
    ensures var created := ConfirmTableSchema(db, spec.tableTarget, DatabaseColumns(spec), bound).value.0;
      ConfirmTableColumns(created, spec, bound) == Success(Reconciled(created, [], {}))
  {
    var columns := DatabaseColumns(spec);
    var created := ConfirmTableSchema(db, spec.tableTarget, columns, bound).value.0;
    var t := created[spec.tableTarget];
    assert IMPORTED_ON !in columns by {
      var all := [ID, IMPORTED_ON] + CreatedColumns(columns);
      forall k | 1 <= k < |columns|
        ensures columns[k] != IMPORTED_ON
      {
        assert all[k + 1] == columns[k] && all[1] == IMPORTED_ON;
      }
    }
    NewTableIsInSync(t, columns, bound);
    assert created[spec.tableTarget := t] == created;
  }

  lemma NewTableIsInSync(t: Table, columns: seq<string>, bound: nat)
    requires |columns| >= 2 && columns[0] == ID && IMPORTED_ON !in columns
    requires t.Keys == Names(columns[1..]) + {ID, IMPORTED_ON}
    requires t[ID] == VarChar(bound)
    requires forall c :: c in t && c != ID && c != IMPORTED_ON ==> t[c] == Text
    ensures SyncColumns(t, columns, FormColumns(bound)) == Success(Sync(t, [], {}))
  {
    assert columns == [columns[0]] + columns[1..];
    assert Names(columns) == {ID} + Names(columns[1..]);
    SyncAllInPlace(t, columns, FormColumns(bound));
    var leftovers := t.Keys - Retained(FormColumns(bound)) - Names(columns);
    assert leftovers == {};
    assert (map c | c in t && c !in leftovers :: t[c]) == t;
  }

  /** A case sync adds a missing `closed` column as a boolean defaulting to
      false, every other missing column as TEXT, and leaves the types of the
      live columns alone. */
  lemma CaseSyncTypes(db: Database, table: string, properties: seq<string>)
    requires table in db
    ensures var r := ConfirmCaseTableColumns(db, table, properties).value.db[table];
      && (CLOSED !in db[table] ==> CLOSED in r && r[CLOSED] == BooleanDefaultFalse)
      && (forall c :: c in r && c in db[table] ==> r[c] == db[table][c])
      && (forall c :: c in r && c !in db[table] && c != CLOSED ==> r[c] == Text)
  {
    var columns := properties + CASE_TAIL;
    SyncNeverFailsForCases(db[table], columns);
    SyncColumnsTypes(db[table], columns, CaseColumns);
    assert CLOSED in columns by { assert columns[|properties| + 2] == CLOSED; }
  }

  /** `confirm_table_columns` run a second time with the same spec issues
      nothing and drops nothing, provided the table had its key column
      whenever the spec lists one. */
  lemma RerunConfirmTableColumns(db: Database, spec: Flatten.TableSpec, bound: nat)
    requires ConfirmTableColumns(db, spec, bound).Success?
    requires spec.tableTarget in db && ID in DatabaseColumns(spec) ==> ID in db[spec.tableTarget]
    ensures var first := ConfirmTableColumns(db, spec, bound).value;
      ConfirmTableColumns(first.db, spec, bound) == Success(Reconciled(first.db, [], {}))
  {
    var target := spec.tableTarget;
    if target in db {
      var s := SyncColumns(db[target], DatabaseColumns(spec), FormColumns(bound)).value;
      Rerun(db[target], DatabaseColumns(spec), FormColumns(bound));
      assert db[target := s.table][target := s.table] == db[target := s.table];
    }
  }

  /** Likewise for `confirm_case_table_columns`, with no proviso. */
  lemma RerunConfirmCaseTableColumns(db: Database, table: string, properties: seq<string>)
    requires table in db
    ensures var first := ConfirmCaseTableColumns(db, table, properties).value;
      ConfirmCaseTableColumns(first.db, table, properties) == Success(Reconciled(first.db, [], {}))
  {
    var columns := properties + CASE_TAIL;
    SyncNeverFailsForCases(db[table], columns);
    var s := SyncColumns(db[table], columns, CaseColumns).value;
    Rerun(db[table], columns, CaseColumns);
    assert db[table := s.table][table := s.table] == db[table := s.table];
  }
}
