/** Flattening a normalised form tree into table specifications
    (`generate_form_spreadsheet`, the naming, column and source-path parts
    of `create_form_spreadsheet`, and `get_group_questions`).

    Every form and every loop becomes one table. A table starts with fixed
    system columns, continues with one column per plain question, and ends
    with the questions of its groups, collected depth first: groups never
    make tables of their own. Each loop becomes a child table whose name is
    prefixed with its parent's table name. The run-wide list of issued table
    names is threaded through explicitly. */
module Flatten {
  import opened Wrappers
  import opened Strings
  import opened QuestionTree
  import opened SheetNames

  const HIDDEN: string := "Hidden"
  const AUTO_GENERATED: string := "auto-generated"
  const XMLNS_FILTER: string := "xmlns.exact"

  /** One entry of a table's `columns` list. */
  datatype Column = Column(
    questionId: string,
    questionText: Option<string>,
    questionType: string,
    calculation: Option<string>,
    databaseColumn: string)

  /** One data row of the query sheet: the column written ("Field") and the
      path the export tool reads it from ("Source Field"). */
  datatype Field = Field(name: string, source: string)

  /** The values of the query sheet: data source, filter and field rows. */
  datatype Query = Query(dataSource: string, filterName: string, filterValue: string, fields: seq<Field>)

  /** The relationship record of one table and its loop tables. */
  datatype TableSpec = TableSpec(
    formName: string,
    spreadsheetFile: string,
    tableTarget: string,
    columns: seq<Column>,
    query: Query,
    children: seq<TableSpec>)

  datatype FlattenError =
    | BadTableName(nameError: NameError)  // the `exit()` when no name fits
    | LoopInsideGroup(loop: string)       // the call of the missing `generate_spreadsheets`

  // ---------------------------------------------------------------------
  // Column names
  // ---------------------------------------------------------------------

  /** A column name the database accepts as written: lower-case, and free
      of the path separators '/' and '.' and of '-'. */
  predicate ValidColumnName(s: string) {
    forall i :: 0 <= i < |s| ==> ValidColumnChar(s[i])
  }

  predicate ValidColumnChar(c: char) {
    !IsUpper(c) && c != '/' && c != '.' && c != '-'
  }

  /** The id lower-cased, with '/' turned into '.' and '-' into '_'. */
  function Dotted(id: string): (r: string)
    ensures IsLower(r) && '/' !in r && '-' !in r
  {
    var a := Lower(id);
    var b := Replace(a, "/", ".");
    ReplaceCharSubst(a, '/', '.', '/');
    ReplaceKeepsLower(a, "/", ".");
    var c := Replace(b, "-", "_");
    ReplaceCharSubst(b, '-', '_', '-');
    ReplaceCharSubst(b, '-', '_', '/');
    ReplaceKeepsLower(b, "-", "_");
    c
  }

  /** The database column of a question: the last segment of its dotted
      id. */
  function ColumnName(id: string): (r: string)
    ensures ValidColumnName(r)
    ensures r == Last(Split(Dotted(id), '.'))
  {
    var s := Dotted(id);
    var words := Split(s, '.');
    if '.' in s then
      var r := Last(words);
      assert forall i :: 0 <= i < |r| ==> r[i] in s;
      assert IsLower(r) by {
        forall i | 0 <= i < |r|
          ensures !IsUpper(r[i])
        {
          var j :| 0 <= j < |s| && s[j] == r[i];
        }
      }
      r
    else
      SplitSingleWord(s, '.');
      s
  }

  /** Lower-casing keeps a '/' between two texts. */
  lemma LowerAroundSlash(x: string, y: string)
    ensures Lower(x + "/" + y) == Lower(x) + "/" + Lower(y)
  {
    LowerAppend(x, "/" + y);
    LowerAppend("/", y);
    assert Lower("/") == "/";
    assert x + "/" + y == x + ("/" + y);
  }

  /** A one-character replacement applied around a separator character. */
  lemma ReplaceAroundChar(x: string, y: string, sep: char, a: char, b: char)
    ensures Replace(x + [sep] + y, [a], [b])
         == Replace(x, [a], [b]) + Replace([sep], [a], [b]) + Replace(y, [a], [b])
  {
    ReplaceCharAppend(x, [sep] + y, a, b);
    ReplaceCharAppend([sep], y, a, b);
    assert x + [sep] + y == x + ([sep] + y);
  }

  /** The column depends only on the id's last '/'-segment, which is why
      two questions of different groups can share a column name. */
  lemma ColumnNameOfPath(path: string, word: string)
    requires '/' !in word && '.' !in word
    ensures ColumnName(path + "/" + word) == ColumnName(word)
  {
    var lp, lw := Lower(path), Lower(word);
    LowerAroundSlash(path, word);
    LowerKeepsOther(word, '/');
    LowerKeepsOther(word, '.');
    ReplaceAroundChar(lp, lw, '/', '/', '.');
    assert Replace("/", "/", ".") == ".";
    var bp, bw := Replace(lp, "/", "."), Replace(lw, "/", ".");
    ReplaceAbsent(lw, "/", ".");
    ReplaceAroundChar(bp, bw, '.', '-', '_');
    ReplaceAbsent(".", "-", "_");
    var cp, cw := Replace(bp, "-", "_"), Replace(bw, "-", "_");
    assert Dotted(path + "/" + word) == cp + "." + cw;
    assert Dotted(word) == cw;
    ReplaceCharSubst(bw, '-', '_', '.');
    SplitAppendSep(cp, '.', cw);
    SplitSingleWord(cw, '.');
  }

  // ---------------------------------------------------------------------
  // Source paths
  // ---------------------------------------------------------------------

  /** The source field of a plain question: in a loop table the last
      segment of the lower-cased id, otherwise "form." and the lower-cased
      id with '/' read as '.'. */
  function QuestionSource(id: string, isLoop: bool): (r: string)
    ensures '/' !in r
    ensures isLoop ==> r == Lower(Last(Split(id, '/')))
    ensures !isLoop ==> "form." <= r && |r| == |id| + 5
  {
    if isLoop then
      LowerSplit(id, '/');
      Last(Split(Lower(id), '/'))
    else
      var r := Replace(Lower(id), "/", ".");
      ReplaceCharSubst(Lower(id), '/', '.', '/');
      ReplaceCharByChar(Lower(id), '/', '.');
      "form." + r
  }

  /** The last two entries of a list (Python's `xs[-2:]`). */
  function LastTwo<T>(xs: seq<T>): (r: seq<T>)
    ensures |xs| >= 2 ==> r == [xs[|xs| - 2], xs[|xs| - 1]]
    ensures |xs| < 2 ==> r == xs
  {
    if |xs| >= 2 then xs[|xs| - 2..] else xs
  }

  /** The `form_column` of a group question: in a loop table the last two
      segments of the id, otherwise the same path as a plain question. */
  function GroupFormColumn(id: string, isLoop: bool): (r: string)
    ensures '/' !in r
    ensures !isLoop ==> r == QuestionSource(id, false)
  {
    var qid := if isLoop then Join(LastTwo(Split(id, '/')), '/') else id;
    var r := Replace(Lower(qid), "/", ".");
    ReplaceCharSubst(Lower(qid), '/', '.', '/');
    if isLoop then r else "form." + r
  }

  /** In a loop table a group question is read from its parent segment and
      its own segment, lower-cased and joined by '.'. */
  lemma GroupFormColumnInLoop(id: string)
    requires |Split(id, '/')| >= 2
    ensures var parts := Split(id, '/');
      GroupFormColumn(id, true) == Lower(parts[|parts| - 2]) + "." + Lower(parts[|parts| - 1])
  {
    var parts := Split(id, '/');
    var a, b := parts[|parts| - 2], parts[|parts| - 1];
    JoinLastTwo(parts, a, b);
    DottedPair(a, b);
  }

  lemma JoinLastTwo(parts: seq<string>, a: string, b: string)
    requires |parts| >= 2 && a == parts[|parts| - 2] && b == parts[|parts| - 1]
    ensures Join(LastTwo(parts), '/') == a + "/" + b
  {
    assert LastTwo(parts) == [a, b];
    JoinTwo(a, b, '/');
  }

  /** Two segments joined by '/', lower-cased, with '/' read as '.'. */
  lemma DottedPair(a: string, b: string)
    requires '/' !in a && '/' !in b
    ensures Replace(Lower(a + "/" + b), "/", ".") == Lower(a) + "." + Lower(b)
  {
    LowerAroundSlash(a, b);
    LowerKeepsOther(a, '/');
    LowerKeepsOther(b, '/');
    ReplaceAroundChar(Lower(a), Lower(b), '/', '/', '.');
    assert Replace("/", "/", ".") == ".";
    ReplaceAbsent(Lower(a), "/", ".");
    ReplaceAbsent(Lower(b), "/", ".");
  }

  /** A segment of a loop path is marked repeating when it mentions "loop". */
  function MarkSegment(segment: string): string {
    if Contains(segment, "loop") then segment + "[*]" else segment
  }

  /** The segments of a loop's id, with '/' read as '.'. */
  function LoopSegments(id: string): seq<string> {
    Split(Replace(id, "/", "."), '.')
  }

  /** The loop path: every segment marked, joined by '.' again. */
  function LoopPath(id: string): string {
    var segments := LoopSegments(id);
    Join(seq(|segments|, i requires 0 <= i < |segments| => MarkSegment(segments[i])), '.')
  }

  /** The data source of a table: "form" for a form, and the marked loop
      path between "form.form." and a final "[*]" for a loop. */
  function DataSource(id: string, isLoop: bool): string {
    if isLoop then "form.form." + LoopPath(id) + "[*]" else "form"
  }

  /** The loop path keeps the number of segments; each segment is the
      original one, with "[*]" appended exactly when it contains "loop". */
  lemma LoopPathSegments(id: string)
    ensures var segments := LoopSegments(id);
      && |Split(LoopPath(id), '.')| == |segments|
      && forall i :: 0 <= i < |segments| ==>
           Split(LoopPath(id), '.')[i] == (if Contains(segments[i], "loop") then segments[i] + "[*]" else segments[i])
  {
    var segments := LoopSegments(id);
    var marked := seq(|segments|, i requires 0 <= i < |segments| => MarkSegment(segments[i]));
    forall i | 0 <= i < |marked|
      ensures '.' !in marked[i]
    {
      assert '.' !in segments[i];
      assert '.' !in "[*]";
    }
    SplitJoin(marked, '.');
  }

  // ---------------------------------------------------------------------
  // Group questions
  // ---------------------------------------------------------------------

  /** The name a loop's table is derived from: its id. */
  function LoopName(loop: Node): string {
    match loop.info
    case QuestionInfo(q) => q.id
    case FormInfo(name, _) => name
  }

  /** `get_group_questions`: the group's own questions, then those of its
      subgroups depth first. A loop in the group aborts the run. */
  function GroupQuestions(g: Node): (r: Result<seq<Question>, FlattenError>)
    ensures r.Success? <==> LoopFree(Groups(g))
    ensures r.Success? ==> r.value == QuestionsOf(Groups(g))
    decreases g, 1
  {
    NoLoopsAppend([g], GroupsIn(g.groups));
    QuestionsOfAppend([g], GroupsIn(g.groups));
    var sub :- GroupQuestionsIn(g.groups);
    if |g.loops| > 0 then Failure(LoopInsideGroup(LoopName(g.loops[0])))
    else Success(g.questions + sub)
  }

  function GroupQuestionsIn(gs: seq<Node>): (r: Result<seq<Question>, FlattenError>)
    ensures r.Success? <==> LoopFree(GroupsIn(gs))
    ensures r.Success? ==> r.value == QuestionsOf(GroupsIn(gs))
    decreases gs, 0
  {
    if |gs| == 0 then Success([])
    else
      NoLoopsAppend(Groups(gs[0]), GroupsIn(gs[1..]));
      QuestionsOfAppend(Groups(gs[0]), GroupsIn(gs[1..]));
      var first :- GroupQuestions(gs[0]);
      var rest :- GroupQuestionsIn(gs[1..]);
      Success(first + rest)
  }

  /** Reference order: a group and its subgroups, depth first. */
  function Groups(g: Node): seq<Node>
    decreases g, 1
  {
    [g] + GroupsIn(g.groups)
  }

  function GroupsIn(gs: seq<Node>): seq<Node>
    decreases gs, 0
  {
    if |gs| == 0 then [] else Groups(gs[0]) + GroupsIn(gs[1..])
  }

  /** No group of the list holds a loop. */
  predicate LoopFree(gs: seq<Node>) {
    forall i :: 0 <= i < |gs| ==> |gs[i].loops| == 0
  }

  /** The plain questions of the listed groups, group after group. */
  function QuestionsOf(gs: seq<Node>): seq<Question> {
    if |gs| == 0 then [] else gs[0].questions + QuestionsOf(gs[1..])
  }

  lemma NoLoopsAppend(a: seq<Node>, b: seq<Node>)
    ensures LoopFree(a + b) <==> LoopFree(a) && LoopFree(b)
  {
    assert forall i :: 0 <= i < |a| ==> (a + b)[i] == a[i];
    assert forall i :: 0 <= i < |b| ==> (a + b)[|a| + i] == b[i];
  }

  lemma {:induction false} QuestionsOfAppend(a: seq<Node>, b: seq<Node>)
    ensures QuestionsOf(a + b) == QuestionsOf(a) + QuestionsOf(b)
    decreases |a|
  {
    if |a| > 0 {
      assert (a + b)[1..] == a[1..] + b;
      QuestionsOfAppend(a[1..], b);
    } else {
      assert a + b == b;
    }
  }

  // ---------------------------------------------------------------------
  // System columns and field rows
  // ---------------------------------------------------------------------

  function SystemColumn(questionId: string, databaseColumn: string): Column {
    Column(questionId, Some(""), HIDDEN, Some(AUTO_GENERATED), databaseColumn)
  }

  /** The fixed leading columns; the received-on column keeps the
      misspelt question id "recieved_on". */
  function SystemColumns(isLoop: bool): (cs: seq<Column>)
    ensures |cs| == if isLoop then 8 else 9
    ensures forall i :: 0 <= i < |cs| ==>
      cs[i].questionType == HIDDEN && cs[i].calculation == Some(AUTO_GENERATED)
  {
    SharedSystemColumns() + if isLoop then LoopSystemColumns() else FormSystemColumns()
  }

  /** The system columns of every table. */
  function SharedSystemColumns(): seq<Column> {
    [ SystemColumn("id", "id"),
      SystemColumn("recieved_on", "received_on"),
      SystemColumn("case_id", "case_id"),
      SystemColumn("username", "meta_username"),
      SystemColumn("app_id", "meta_app_id"),
      SystemColumn("device_id", "meta_device_id"),
      SystemColumn("gps_location", "meta_gps") ]
  }

  function LoopSystemColumns(): seq<Column> {
    [SystemColumn("parent_form_id", "parent_form_id")]
  }

  function FormSystemColumns(): seq<Column> {
    [SystemColumn("started_time", "meta_started_time"),
     SystemColumn("completed_time", "meta_completed_time")]
  }

  /** The field rows of the system columns. The id is read from "$.id" in
      a form table whose name does not end in "_form", and from "id"
      otherwise; loop tables read the submission's own fields through "$.". */
  function SystemFields(formName: string, isLoop: bool): seq<Field> {
    [ Field("id", if !isLoop && !EndsWith(formName, "_form") then "$.id" else "id"),
      Field("received_on", if isLoop then "$.received_on" else "received_on"),
      Field("case_id", if isLoop then "$.form.case.@case_id" else "form.case.@case_id"),
      Field("meta_username", "$.metadata.username"),
      Field("meta_app_id", "app_id"),
      Field("meta_device_id", "form.meta.deviceID"),
      Field("meta_gps", "form.meta.location") ]
    + if isLoop then [Field("parent_form_id", "$.id")]
      else [Field("meta_started_time", "form.meta.timeStart"),
            Field("meta_completed_time", "form.meta.timeEnd")]
  }

  function QuestionColumn(q: Question): Column {
    Column(q.id, q.text, q.qtype, q.calculation, ColumnName(q.id))
  }

  function QuestionColumns(qs: seq<Question>): seq<Column> {
    seq(|qs|, i requires 0 <= i < |qs| => QuestionColumn(qs[i]))
  }

  function QuestionFields(qs: seq<Question>, isLoop: bool): seq<Field> {
    seq(|qs|, i requires 0 <= i < |qs| => Field(ColumnName(qs[i].id), QuestionSource(qs[i].id, isLoop)))
  }

  function GroupFields(qs: seq<Question>, isLoop: bool): seq<Field> {
    seq(|qs|, i requires 0 <= i < |qs| =>
      Field(ColumnName(qs[i].id), Replace(GroupFormColumn(qs[i].id, isLoop), "/", ".")))
  }

  /** The sheet's field rows name the table's columns, one for one. */
  predicate Aligned(columns: seq<Column>, fields: seq<Field>) {
    |columns| == |fields| && forall i :: 0 <= i < |columns| ==> fields[i].name == columns[i].databaseColumn
  }

  lemma AlignedAppend(c1: seq<Column>, f1: seq<Field>, c2: seq<Column>, f2: seq<Field>)
    requires Aligned(c1, f1) && Aligned(c2, f2)
    ensures Aligned(c1 + c2, f1 + f2)
  {
    assert forall i :: |c1| <= i < |c1| + |c2| ==> (c1 + c2)[i] == c2[i - |c1|] && (f1 + f2)[i] == f2[i - |f1|];
  }

  /** The system columns and their field rows agree. */
  lemma SystemColumnsAligned(formName: string, isLoop: bool)
    ensures Aligned(SystemColumns(isLoop), SystemFields(formName, isLoop))
  {
  }

  /** The system columns' names are valid column names. */
  lemma SystemColumnsValid(isLoop: bool)
    ensures forall i :: 0 <= i < |SystemColumns(isLoop)| ==> ValidColumnName(SystemColumns(isLoop)[i].databaseColumn)
  {
    SharedSystemColumnsValid();
    KindSystemColumnsValid(isLoop);
    ValidColumnsAppend(SharedSystemColumns(), if isLoop then LoopSystemColumns() else FormSystemColumns());
  }

  // Each name is checked in a context of its own: the checks of several
  // literals in one context cost far more than their sum.
  lemma SharedSystemColumnsValid()
    ensures ValidColumns(SharedSystemColumns())
  {
    assert ValidColumnName("id") by {}
    assert ValidColumnName("received_on") by {}
    assert ValidColumnName("case_id") by {}
    assert ValidColumnName("meta_username") by {}
    assert ValidColumnName("meta_app_id") by {}
    assert ValidColumnName("meta_device_id") by {}
    assert ValidColumnName("meta_gps") by {}
  }

  lemma KindSystemColumnsValid(isLoop: bool)
    ensures ValidColumns(if isLoop then LoopSystemColumns() else FormSystemColumns())
  {
    if isLoop {
      assert ValidColumnName("parent_form_id") by {}
    } else {
      assert ValidColumnName("meta_started_time") by {}
      assert ValidColumnName("meta_completed_time") by {}
    }
  }

  // ---------------------------------------------------------------------
  // Tables
  // ---------------------------------------------------------------------

  /** The table names of a table tree, parent before children, in the
      order they are issued. */
  function Targets(t: TableSpec): seq<string>
    decreases t, 1
  {
    [t.tableTarget] + TargetsIn(t.children)
  }

  function TargetsIn(ts: seq<TableSpec>): seq<string>
    decreases ts, 0
  {
    if |ts| == 0 then [] else Targets(ts[0]) + TargetsIn(ts[1..])
  }

  /** The tables of a tree, parent before children. */
  function Tables(t: TableSpec): seq<TableSpec>
    decreases t, 1
  {
    [t] + TablesIn(t.children)
  }

  function TablesIn(ts: seq<TableSpec>): seq<TableSpec>
    decreases ts, 0
  {
    if |ts| == 0 then [] else TablesIn(ts[..|ts| - 1]) + Tables(ts[|ts| - 1])
  }

  /** `added` holds names that are new to `registry` and to each other. */
  predicate Fresh(registry: seq<string>, added: seq<string>) {
    forall i :: 0 <= i < |added| ==> added[i] !in registry && added[i] !in added[..i]
  }

  lemma FreshAppend(registry: seq<string>, a: seq<string>, b: seq<string>)
    requires Fresh(registry, a) && Fresh(registry + a, b)
    ensures Fresh(registry, a + b)
  {
    var ab := a + b;
    forall i | 0 <= i < |ab|
      ensures ab[i] !in registry && ab[i] !in ab[..i]
    {
      if i < |a| {
        assert ab[..i] == a[..i];
      } else {
        var j := i - |a|;
        assert ab[i] == b[j];
        assert ab[..i] == a + b[..j];
        assert b[j] !in registry + a;
      }
    }
  }

  /** Every table of the tree lists its columns in its query sheet, one
      row per column, and every column name is valid. */
  predicate WellFormed(t: TableSpec)
    decreases t
  {
    && Aligned(t.columns, t.query.fields)
    && ValidColumns(t.columns)
    && forall k :: 0 <= k < |t.children| ==> WellFormed(t.children[k])
  }

  lemma QuestionColumnsFacts(qs: seq<Question>, isLoop: bool)
    ensures Aligned(QuestionColumns(qs), QuestionFields(qs, isLoop))
    ensures Aligned(QuestionColumns(qs), GroupFields(qs, isLoop))
    ensures forall i :: 0 <= i < |qs| ==> ValidColumnName(QuestionColumns(qs)[i].databaseColumn)
  {
  }

  /** Every column of the list has a valid name. */
  predicate ValidColumns(columns: seq<Column>) {
    forall i :: 0 <= i < |columns| ==> ValidColumnName(columns[i].databaseColumn)
  }

  lemma ValidColumnsAppend(a: seq<Column>, b: seq<Column>)
    requires ValidColumns(a) && ValidColumns(b)
    ensures ValidColumns(a + b)
  {
    assert forall i :: |a| <= i < |a| + |b| ==> (a + b)[i] == b[i - |a|];
  }

  /** The columns and the query sheet of one table: system columns, plain
      questions, then group questions, each listed in the sheet. */
  function Sheet(name: string, xmlns: string, questions: seq<Question>, groupQuestions: seq<Question>, isLoop: bool)
    : (r: (seq<Column>, Query))
    ensures Aligned(r.0, r.1.fields)
    ensures ValidColumns(r.0)
    ensures r.1.dataSource == DataSource(name, isLoop)
    ensures r.1.filterName == XMLNS_FILTER && r.1.filterValue == xmlns
  {
    var formName := FormName(name);
    var system, plain, grouped := SystemColumns(isLoop), QuestionColumns(questions), QuestionColumns(groupQuestions);
    var systemFields := SystemFields(formName, isLoop);
    var plainFields := QuestionFields(questions, isLoop);
    var groupedFields := GroupFields(groupQuestions, isLoop);
    SystemColumnsAligned(formName, isLoop);
    SystemColumnsValid(isLoop);
    QuestionColumnsFacts(questions, isLoop);
    QuestionColumnsFacts(groupQuestions, isLoop);
    AlignedAppend(system, systemFields, plain, plainFields);
    AlignedAppend(system + plain, systemFields + plainFields, grouped, groupedFields);
    ValidColumnsAppend(system, plain);
    ValidColumnsAppend(system + plain, grouped);
    (system + plain + grouped,
     Query(DataSource(name, isLoop), XMLNS_FILTER, xmlns, systemFields + plainFields + groupedFields))
  }

  /** Where a sheet's columns sit: the system columns first, then one
      column per plain question, then one per group question, in order. */
  lemma SheetColumns(name: string, xmlns: string, questions: seq<Question>, groupQuestions: seq<Question>, isLoop: bool)
    ensures var cs, s := Sheet(name, xmlns, questions, groupQuestions, isLoop).0, |SystemColumns(isLoop)|;
      && |cs| == s + |questions| + |groupQuestions|
      && cs[..s] == SystemColumns(isLoop)
      && (forall k :: 0 <= k < |questions| ==> cs[s + k] == QuestionColumn(questions[k]))
      && (forall k :: 0 <= k < |groupQuestions| ==> cs[s + |questions| + k] == QuestionColumn(groupQuestions[k]))
  {
  }

  /** `t` is the table of `node` under `name`: its file is the cleaned
      name plus ".xlsx", and its columns and sheet are laid out from the
      node's plain questions and its groups' questions. */
  predicate LaidOut(t: TableSpec, name: string, xmlns: string, node: Node, isLoop: bool) {
    && t.formName == name
    && t.spreadsheetFile == FormName(name) + ".xlsx"
    && GroupQuestionsIn(node.groups).Success?
    && (t.columns, t.query) == Sheet(name, xmlns, node.questions, GroupQuestionsIn(node.groups).value, isLoop)
  }

  /** One table per loop, in order, each carrying its loop's name. */
  predicate NamedAfter(ts: seq<TableSpec>, loops: seq<Node>) {
    |ts| == |loops| && forall k :: 0 <= k < |ts| ==> ts[k].formName == LoopName(loops[k])
  }

  /** One table per loop, in order, each the loop table of its loop: named
      after the loop and filtered by the form's xmlns. */
  predicate TablesFor(ts: seq<TableSpec>, loops: seq<Node>, xmlns: string) {
    |ts| == |loops| && forall k :: 0 <= k < |ts| ==> LaidOut(ts[k], LoopName(loops[k]), xmlns, loops[k], true)
  }

  /** The table name of a form or loop, issued against the registry; a
      name that cannot be shortened enough aborts the run. */
  function IssueTableName(formName: string, parentName: string, registry: seq<string>)
    : (r: Result<(string, seq<string>), FlattenError>)
    ensures r.Success? ==> r.value.0 !in registry && r.value.1 == registry + [r.value.0]
    ensures r.Failure? <==> FormTableName(formName, parentName, registry).Failure?
  {
    match FormTableName(formName, parentName, registry)
    case Failure(e) => Failure(BadTableName(e))
    case Success(reserved) => Success(reserved)
  }

  /** `generate_form_spreadsheet` with `create_form_spreadsheet`: the table
      of one form or loop, then its loop tables, in order. A table's name
      is issued before those of its loops. The name and xmlns are passed
      in rather than read from the node: a form's come from its record,
      and a loop takes its own id as name and its form's xmlns. */
  function Table(name: string, xmlns: string, node: Node, isLoop: bool, parentName: string, registry: seq<string>)
    : (r: Result<(TableSpec, seq<string>), FlattenError>)
    ensures r.Success? ==> r.value.1 == registry + Targets(r.value.0) && Fresh(registry, Targets(r.value.0))
    ensures r.Success? ==> WellFormed(r.value.0)
    ensures r.Success? ==> r.value.0.formName == name
    ensures r.Success? ==> NamedAfter(r.value.0.children, node.loops)
    decreases node, 1
  {
    var formName := FormName(name);
    var reserved :- IssueTableName(formName, parentName, registry);
    var (target, registry1) := reserved;
    var groupQuestions :- GroupQuestionsIn(node.groups);
    var (columns, query) := Sheet(name, xmlns, node.questions, groupQuestions, isLoop);
    var loops :- Loops(node.loops, xmlns, target, registry1);
    var (children, registry') := loops;
    var t := TableSpec(name, formName + ".xlsx", target, columns, query, children);
    TableAssembled(registry, registry1, registry', t);
    Success((t, registry'))
  }

  /** A table whose own name was issued first and whose children's names
      after it registers its whole tree, and is well formed when its
      columns and children are. */
  lemma TableAssembled(registry: seq<string>, middle: seq<string>, registry': seq<string>, t: TableSpec)
    requires t.tableTarget !in registry && middle == registry + [t.tableTarget]
    requires registry' == middle + TargetsIn(t.children) && Fresh(middle, TargetsIn(t.children))
    requires Aligned(t.columns, t.query.fields) && ValidColumns(t.columns)
    requires forall k :: 0 <= k < |t.children| ==> WellFormed(t.children[k])
    ensures registry' == registry + Targets(t) && Fresh(registry, Targets(t))
    ensures WellFormed(t)
  {
    assert Targets(t) == [t.tableTarget] + TargetsIn(t.children);
    FreshAppend(registry, [t.tableTarget], TargetsIn(t.children));
  }

  /** The layout of a table tree: the table is laid out from its node, and
      each child table is the table of its loop, under the loop's name and
      the form's xmlns. The sheet's group questions are those of the
      node's groups, and a loop inside one of them makes the build fail. */
  lemma {:induction false} TableLayout(name: string, xmlns: string, node: Node, isLoop: bool, parentName: string, registry: seq<string>)
    ensures var r := Table(name, xmlns, node, isLoop, parentName, registry);
      && (r.Success? ==>
           && LaidOut(r.value.0, name, xmlns, node, isLoop)
           && TablesFor(r.value.0.children, node.loops, xmlns)
           && (r.value.0.columns, r.value.0.query)
              == Sheet(name, xmlns, node.questions, QuestionsOf(GroupsIn(node.groups)), isLoop))
      && (!LoopFree(GroupsIn(node.groups)) ==> r.Failure?)
    decreases node, 1
  {
    var issued := IssueTableName(FormName(name), parentName, registry);
    if issued.Success? && GroupQuestionsIn(node.groups).Success? {
      LoopsLayout(node.loops, xmlns, issued.value.0, issued.value.1);
    }
  }

  lemma {:induction false} LoopsLayout(loops: seq<Node>, xmlns: string, parentTarget: string, registry: seq<string>)
    ensures var r := Loops(loops, xmlns, parentTarget, registry);
      r.Success? ==> TablesFor(r.value.0, loops, xmlns)
    decreases loops, 0
  {
    if |loops| > 0 {
      var first := Table(LoopName(loops[0]), xmlns, loops[0], true, parentTarget, registry);
      if first.Success? {
        var rest := Loops(loops[1..], xmlns, parentTarget, first.value.1);
        if rest.Success? {
          assert LaidOut(first.value.0, LoopName(loops[0]), xmlns, loops[0], true) by {
            TableLayout(LoopName(loops[0]), xmlns, loops[0], true, parentTarget, registry);
          }
          assert TablesFor(rest.value.0, loops[1..], xmlns) by {
            LoopsLayout(loops[1..], xmlns, parentTarget, first.value.1);
          }
          LoopsCons(loops, xmlns, parentTarget, registry);
          TablesForCons(first.value.0, rest.value.0, loops[0], loops[1..], xmlns);
        }
      }
    }
  }

  /** Unfolds one step of the loop tables of a parent. */
  lemma LoopsCons(loops: seq<Node>, xmlns: string, parentTarget: string, registry: seq<string>)
    requires |loops| > 0
    ensures var first := Table(LoopName(loops[0]), xmlns, loops[0], true, parentTarget, registry);
      first.Success? ==>
        var rest := Loops(loops[1..], xmlns, parentTarget, first.value.1);
        rest.Success? ==>
          && loops == [loops[0]] + loops[1..]
          && Loops(loops, xmlns, parentTarget, registry) == Success(([first.value.0] + rest.value.0, rest.value.1))
  {
    assert loops == [loops[0]] + loops[1..];
  }

  lemma TablesForCons(t: TableSpec, ts: seq<TableSpec>, loop: Node, loops: seq<Node>, xmlns: string)
    requires LaidOut(t, LoopName(loop), xmlns, loop, true) && TablesFor(ts, loops, xmlns)
    ensures TablesFor([t] + ts, [loop] + loops, xmlns)
  {
    var all, ls := [t] + ts, [loop] + loops;
    forall k | 0 <= k < |all|
      ensures LaidOut(all[k], LoopName(ls[k]), xmlns, ls[k], true)
    {
      if k > 0 {
        assert all[k] == ts[k - 1] && ls[k] == loops[k - 1];
      }
    }
  }

  /** Putting a loop's table in front of its siblings' keeps the names
      issued fresh. */
  lemma FreshCons(registry: seq<string>, first: TableSpec, middle: seq<string>, rest: seq<TableSpec>, after: seq<string>)
    requires middle == registry + Targets(first) && Fresh(registry, Targets(first))
    requires after == middle + TargetsIn(rest) && Fresh(middle, TargetsIn(rest))
    ensures after == registry + TargetsIn([first] + rest) && Fresh(registry, TargetsIn([first] + rest))
  {
    var ts := [first] + rest;
    assert ts[0] == first && ts[1..] == rest;
    FreshAppend(registry, Targets(first), TargetsIn(rest));
  }

  lemma WellFormedCons(first: TableSpec, rest: seq<TableSpec>)
    requires WellFormed(first) && forall k :: 0 <= k < |rest| ==> WellFormed(rest[k])
    ensures forall k :: 0 <= k < |[first] + rest| ==> WellFormed(([first] + rest)[k])
  {
    var ts := [first] + rest;
    forall k | 1 <= k < |ts|
      ensures WellFormed(ts[k])
    {
      assert ts[k] == rest[k - 1];
    }
  }

  lemma NamedAfterCons(first: TableSpec, rest: seq<TableSpec>, loop: Node, loops: seq<Node>)
    requires first.formName == LoopName(loop) && NamedAfter(rest, loops)
    ensures NamedAfter([first] + rest, [loop] + loops)
  {
    var ts, ls := [first] + rest, [loop] + loops;
    forall k | 1 <= k < |ts|
      ensures ts[k].formName == LoopName(ls[k])
    {
      assert ts[k] == rest[k - 1] && ls[k] == loops[k - 1];
    }
  }

  /** The loop tables of one parent, each named after the parent's table. */
  function Loops(loops: seq<Node>, xmlns: string, parentTarget: string, registry: seq<string>)
    : (r: Result<(seq<TableSpec>, seq<string>), FlattenError>)
    ensures r.Success? ==> r.value.1 == registry + TargetsIn(r.value.0) && Fresh(registry, TargetsIn(r.value.0))
    ensures r.Success? ==> NamedAfter(r.value.0, loops)
    ensures r.Success? ==> forall k :: 0 <= k < |loops| ==> WellFormed(r.value.0[k])
    decreases loops, 0
  {
    if |loops| == 0 then Success(([], registry))
    else
      var first :- Table(LoopName(loops[0]), xmlns, loops[0], true, parentTarget, registry);
      var rest :- Loops(loops[1..], xmlns, parentTarget, first.1);
      FreshCons(registry, first.0, first.1, rest.0, rest.1);
      WellFormedCons(first.0, rest.0);
      NamedAfterCons(first.0, rest.0, loops[0], loops[1..]);
      assert loops == [loops[0]] + loops[1..];
      Success(([first.0] + rest.0, rest.1))
  }

  /** The tables of a form: the root table, named after the form, then its
      loop tables. */
  function FormTables(name: string, xmlns: string, tree: Node, registry: seq<string>)
    : (r: Result<(TableSpec, seq<string>), FlattenError>)
    ensures r.Success? ==>
      && r.value.1 == registry + Targets(r.value.0)
      && Fresh(registry, Targets(r.value.0))
      && WellFormed(r.value.0)
      && |r.value.0.columns| >= 9
      && r.value.0.columns[..9] == SystemColumns(false)
      && LaidOut(r.value.0, name, xmlns, tree, false)
      && TablesFor(r.value.0.children, tree.loops, xmlns)
  {
    var r := Table(name, xmlns, tree, false, "", registry);
    if r.Success? then
      TableLayout(name, xmlns, tree, false, "", registry);
      SheetColumns(name, xmlns, tree.questions, GroupQuestionsIn(tree.groups).value, false);
      r
    else r
  }
}
