# django-commcare schema core, in Dafny

This project models the core of django-commcare's `scrape` management
command and its database helpers. It covers three steps:

- turning the question records of a CommCare application into a tree of
  groups, loops and questions;
- flattening each form of that tree into export table specifications:
  system columns, question columns, group questions, one child table per
  loop, and table names that are shortened to 31 characters and made
  unique against a run-wide registry;
- reconciling a live warehouse table with such a specification. The
  reconciliation creates the table when it is absent, adds missing
  columns, widens the `id` column and drops leftover columns.

The model also covers:

- the case list of an application (one case per case type, with the
  parent properties filtered out);
- the duplicate-column report;
- finding the relationship record of a spreadsheet.

Everything is written as immutable datatypes and pure functions. The
table-name registry is threaded through explicitly. The database is
abstract state: a map from table names to tables, where each table maps
column names to column types. Each operation returns its errors as a
`Result`: an abort, a crash of the Python code, or an error raised by
the database.

Modules, one per file:

- `Wrappers` (`wrappers.dfy`): `Option` and `Result`.
- `Strings` (`strings.dfy`): ASCII lower-casing, `str.replace`,
  `str.split` and `str.join`, substring tests, `str(int)`, and their laws.
- `QuestionTree` (`question_tree.dfy`):
  - the question record and the tree node;
  - the parent key chosen from the group and repeat hints;
  - `find_parent`;
  - placing a record into the groups, loops and questions lists;
  - the pass over a form's records.
- `SheetNames` (`sheet_names.dfy`):
  - `strip_sheet_name`;
  - the fallback to the bare name;
  - the counter that makes a name unique;
  - form and case table names.
- `Flatten` (`flatten.dfy`):
  - column names and source paths;
  - the loop data source;
  - `get_group_questions`;
  - system columns;
  - the table tree built by `generate_form_spreadsheet` and
    `create_form_spreadsheet`.
- `Duplicates` (`duplicates.dfy`): `find_duplicate_columns`, checked
  against a reference definition.
- `Cases` (`cases.dfy`): `get_all_cases` on already-fetched modules.
- `Reconcile` (`reconcile.dfy`):
  - `create_table` and `create_case_table`;
  - `confirm_table_schema` and `confirm_case_table_schema`;
  - `confirm_table_columns` and `confirm_case_table_columns`, which share
    one column-sync definition in two flavours.
- `FormLookup` (`form_lookup.dfy`): `get_form_info` and the search part
  of `get_form_table`.

The model follows the code in these details:

- The shortening chain of `strip_sheet_name` applies all four
  replacements unconditionally. It does not stop once the name is short
  enough.
- The shortening chain is not idempotent.
- The name counter cuts the last character of the previous attempt and
  appends the counter. Up to 9 the length stays the same. From the tenth
  attempt on, each further attempt adds one character, because every
  counter from 10 on has two digits but only one character is cut. It
  does not overwrite two characters in place.
- `create_case_table` creates only `id`, `imported_on` and the
  properties after the first. The fixed case columns (`opened_date`,
  `closed`, `owner_id`) come from the later column sync.

## Model

| member | source | states |
|---|---|---|
| QuestionTree.ParentKey | management/commands/scrape.py:240-256 | The key is present exactly when there is a group hint. With both hints, the group wins exactly when the loop path is a substring of the group path and strictly shorter; otherwise the loop wins. With a group hint only, the group is used. |
| QuestionTree.FindParentIsFirstInPreorder | management/commands/scrape.py:70-88 | `find_parent` returns the first node, in the order self, then groups, then loops, whose value is the key. It returns None exactly when no node of the tree has that value. |
| QuestionTree.Classification | management/commands/scrape.py:264-275 | Every non-Trigger record goes to at least one list. A group never also goes to loops or questions. A Repeat goes to both loops and questions exactly when its group flag is false. |
| QuestionTree.Place | management/commands/scrape.py:258-275 | Placing succeeds exactly when `find_parent` finds a node. Afterwards the first match is that same node with the record attached. The root keeps its identity. |
| QuestionTree.PlaceAtFirstMatch | management/commands/scrape.py:70-88 | Placing attaches the record at the first preorder position whose value is the key, and fails exactly when there is no such position. |
| QuestionTree.PlaceFrame | management/commands/scrape.py:258-275 | After a successful placement the preorder of the tree is the old preorder with the subtree of the node `find_parent` chose replaced by that node with the record attached. Every node before and after it keeps its groups, loops and questions, in order. |
| QuestionTree.PlaceMembers | management/commands/scrape.py:258-275 | Placing a record changes the multiset of groups, loops or questions entries across the tree only by the record itself, in the lists its kind selects. No other entry appears or disappears. |
| QuestionTree.PlaceRecord | management/commands/scrape.py:258-275 | A Trigger leaves the tree unchanged. Otherwise placing fails exactly when `find_parent` finds nothing, and a record without a group hint goes onto the form root. |
| QuestionTree.NormalizeMembers | management/commands/scrape.py:188-277 | A successful pass over a form's records adds exactly the non-Trigger records, each to the lists its kind selects, and keeps the root. |
| QuestionTree.NormalizeFormIsTriggerFree | management/commands/scrape.py:260-262 | No list anywhere in a normalised form holds a Trigger. |
| QuestionTree.UngroupedRecordsNeverFail | management/commands/scrape.py:248-258 | Records without a group hint always resolve to the form root, so the pass cannot fail on them. |
| SheetNames.TruncateFacts | management/commands/scrape.py:293-303 | The truncation loop keeps the word count and the last word, and turns each other word into itself or its first character. It never lengthens the name. It ends at 31 characters or less, or once every word but the last has one character at most. |
| SheetNames.StripSheetName | management/commands/scrape.py:280-305 | Stripping never lengthens a name. |
| SheetNames.StripIsNotIdempotent | management/commands/scrape.py:286-290 | "enrollmentment" strips to "enrollment", which strips to "enroll". |
| SheetNames.AbbreviateFrom | management/commands/scrape.py:298-302 | One pass shortens the first non-last word longer than one character to its first character and leaves every other word unchanged. If there is no such word, it changes nothing. |
| SheetNames.Fit | management/commands/scrape.py:402-414 | A name of 31 characters or less is kept. Otherwise the stripped name is used, then the stripped fallback. The result is at most 31 characters, and it fails exactly when both stripped forms are longer. |
| SheetNames.Reserve | management/commands/scrape.py:416-423 | The issued name was not in the registry, and the registry gains exactly that name at its end. A free name is issued unchanged. |
| SheetNames.ReserveIsFirstFreeCandidate | management/commands/scrape.py:416-420 | The issued name is the first free one in the sequence of counter attempts. |
| SheetNames.ReservePatientVisitTwice | management/commands/scrape.py:416-423 | Reserving "patient_visit" twice gives "patient_visit" and then "patient_visi1". |
| SheetNames.ReserveLengthKeptBelowTen | management/commands/scrape.py:416-420 | The issued name keeps its length exactly when the counter stops at 9 or below. |
| SheetNames.ReserveCanExceedBound | management/commands/scrape.py:416-420 | With the first ten attempts of a 31-character name taken, the issued name has 32 characters. |
| SheetNames.FormTableName | management/commands/scrape.py:388-425 | The table name of a form is built from the optional parent prefix and the cleaned form name. It fails exactly when neither the stripped prefixed name nor the stripped form name fits in 31 characters. A short free name is issued as is, and the name is new to the registry. |
| SheetNames.CaseTableName | management/commands/scrape.py:692-715 | The case table name is "case_" plus the lower-cased type, shortened with the underscore-free fallback. It fails exactly when neither form fits. It is appended to the registry without a uniqueness check. |
| SheetNames.CaseNamesCanRepeat | management/commands/scrape.py:692-715 | The case types "Patient" and "patient" both yield "case_patient", and the registry holds it twice. |
| Flatten.ColumnName | management/commands/scrape.py:575-577 | A column name is lower-case and holds no '/', '.' or '-'. It is the last '.'-separated word of the dotted id. |
| Flatten.ColumnNameOfPath | management/commands/scrape.py:575-577 | A question's column name depends only on the last word of its path. |
| Flatten.QuestionSource | management/commands/scrape.py:589-592 | In a loop table the source is the lower-cased last path segment. Otherwise it is "form." followed by the dotted id. It never holds a '/'. |
| Flatten.GroupFormColumnInLoop | management/commands/scrape.py:639-644 | In a loop, a group question's source is the last two path segments, lower-cased and joined by '.'. |
| Flatten.LoopPathSegments | management/commands/scrape.py:435-448 | The loop data source keeps the number of segments. Each segment is unchanged, or gets "[*]" appended exactly when it contains "loop". |
| Flatten.GroupQuestions | management/commands/scrape.py:621-663 | The group questions are the group's own questions, then those of its subgroups depth first. The call fails exactly when some group in that walk holds a loop. |
| Flatten.SystemColumns | management/commands/scrape.py:456-571 | A root table has 9 system columns and a loop table has 8. All are Hidden and auto-generated. |
| Flatten.SystemColumnsValid | management/commands/scrape.py:456-571 | Every system column name is lower-case and holds no '/', '.' or '-'. |
| Flatten.Sheet | management/commands/scrape.py:435-615 | The sheet has one field row per column, naming that column, and every column name is valid. The data source is the form's or the loop's, and the query filters on the form's xmlns. |
| Flatten.SheetColumns | management/commands/scrape.py:456-615 | The sheet's columns are the system columns, then one column per plain question in order, then one per group question in order, and nothing else. |
| Flatten.Table | management/commands/scrape.py:353-373 | Building a table succeeds only with fresh names. The registry grows by exactly the table names of the tree, in order. Every table in the tree is well formed, and there is one child table per loop, named after it. |
| Flatten.TableLayout | management/commands/scrape.py:353-389 | A built table carries its name, its spreadsheet file is the cleaned name plus ".xlsx", and its columns and query are the sheet of the node's own questions and its groups' questions. It has one child table per loop, in order, and each child is laid out from its loop node under the loop's id and the form's xmlns. A loop inside a group makes the build fail. |
| Flatten.LoopsLayout | management/commands/scrape.py:363-371 | The loop tables of a parent are, in order, the tables laid out from its loops, each under the loop's id and the form's xmlns. |
| Flatten.FormTables | management/commands/scrape.py:353-373 | A form's table tree registers only fresh names and is well formed. Its first nine columns are the root system columns. The root is laid out from the form's tree, and each loop table from its loop node. |
| Duplicates.ScanColumns | management/commands/scrape.py:768-785 | The scan of one table's columns reports exactly the names occurring at least twice, each with all its occurrences in order. |
| Duplicates.FindDuplicateColumns | management/commands/scrape.py:768-792 | The recursive scan computes the reference report of the table tree. |
| Duplicates.ReportedIffDuplicatedInATable | management/commands/scrape.py:768-792 | A name is reported exactly when it occurs at least twice within one table of the tree. |
| Duplicates.TopTableListsAllOccurrences | management/commands/scrape.py:768-792 | A name duplicated only in the top table is reported with every one of its occurrences. |
| Duplicates.SingleOccurrencesNotReported | management/commands/scrape.py:768-792 | A name occurring at most once in each table is not reported, even when a parent and a child table both have it. |
| Cases.GetAllCases | management/commands/scrape.py:103-128 | The loop over the modules computes the reference case list. |
| Cases.OwnProperties | management/commands/scrape.py:121-124 | The kept properties are exactly those not starting with "parent/". A list without such a property is kept whole, and one property is kept or dropped alone. |
| Cases.OwnPropertiesAppend | management/commands/scrape.py:121-124 | Filtering a concatenation filters each part and concatenates the results, so the kept properties keep their order and their repeats. |
| Cases.ListedIffSomeModule | management/commands/scrape.py:105-115 | A case type is listed exactly when it is non-empty and some module has it. |
| Cases.CaseListNamesDistinct | management/commands/scrape.py:105-115 | Listed names are non-empty and no name is listed twice. |
| Cases.CaseListFirstModules | management/commands/scrape.py:105-126 | Each case carries the own properties of the first module of its type. The cases come in the order of those first modules. |
| Reconcile.CreateWith | utils.py:8-27 | Creation succeeds exactly when the table is absent, the column list is non-empty and the emitted names are distinct. The new table has `id` as a bounded varchar, `imported_on` as a timestamp, and TEXT for the columns after the first, or for the only column. Other tables are untouched. |
| Reconcile.CreatedColumns | utils.py:193-199 | With two or more columns the emitted text columns skip the first one. With one column, that column is emitted. |
| Reconcile.CreateTable | utils.py:183-202 | A created form table's key column is a varchar of the configured bound. |
| Reconcile.CreateCaseTable | utils.py:8-27 | A created case table's key column is a varchar of 255. |
| Reconcile.ConfirmTableSchema | utils.py:204-233 | An existing table is left untouched. Otherwise the table is created, and no other table changes. |
| Reconcile.ConfirmCaseTableSchema | utils.py:29-58 | Likewise for case tables. |
| Reconcile.SyncColumns | utils.py:250-326 | After the sync the column set is the expected columns plus the live retained columns. The dropped columns are the live, unretained, unexpected ones. |
| Reconcile.SyncAllAdds | utils.py:266-317 | A column is added only when the existence check finds it missing, with TEXT type, or boolean default false for the case `closed`. Every missing expected column is added, and none is added twice. |
| Reconcile.SyncAllAlters | utils.py:283-302 | The key column is altered exactly once, to the bound, exactly when it is live with a shorter maximum length. Otherwise it is never altered. |
| Reconcile.SyncColumnsTypes | utils.py:266-317 | A live column keeps its type, except that the expected key column of a form table is widened and never narrowed. An added column gets the flavour's type. |
| Reconcile.SyncAllFails | utils.py:284-306 | The form sync fails exactly when the expected key column is not a varchar when it is checked, or when another expected column is live as a timestamp or a boolean, which the count of non-empty values cannot compare with `''`. The case sync never fails. |
| Reconcile.ImportedOnColumnFails | utils.py:266-306 | A live table {id, imported_on} synced with the columns [id, imported_on] fails on counting the timestamp column `imported_on`. |
| Reconcile.ConfirmTableColumns | utils.py:235-326 | After `confirm_table_columns` the live column set is the spec's column names plus `imported_on` if it was live. |
| Reconcile.SyncScenario | utils.py:250-326 | {id, imported_on, old_field} synced with [id, received_on, new_field] becomes {id, imported_on, received_on, new_field}. The two new columns are added as TEXT, in order, and old_field is dropped. |
| Reconcile.Rerun | utils.py:235-326 | A second sync on the result of a first, with the same columns, issues nothing and drops nothing, given the key column was live when expected. |
| Reconcile.RerunAfterAddingIdFails | utils.py:283-294 | Without that proviso a second form sync fails: an `id` column added as TEXT has no maximum length. |
| Reconcile.RerunConfirmTableColumns | utils.py:235-326 | Running `confirm_table_columns` twice issues nothing the second time, with the same proviso. |
| Reconcile.RerunConfirmCaseTableColumns | utils.py:60-132 | Running `confirm_case_table_columns` twice issues nothing the second time. |
| Reconcile.ConfirmCaseTableColumns | utils.py:60-132 | The case sync succeeds exactly when the table exists. The live set becomes the properties plus imported_on, opened_date, closed and owner_id, plus `id` if it was live. |
| Reconcile.CaseSyncTypes | utils.py:110-122 | A missing `closed` is added as boolean default false and every other added column as TEXT. Live columns keep their types. |
| Reconcile.CreatedTableIsInSync | utils.py:183-326 | A table just created from a spec starting with `id` needs no column change. |
| FormLookup.GetFormInfoIsFirstInPreorder | utils.py:142-158 | `get_form_info` returns the first record, parent before children, whose spreadsheet file matches. |
| FormLookup.GetFormInfo | utils.py:150-151 | A matching root is returned itself, and any result has the asked spreadsheet file. |
| FormLookup.GetFormInfoNone | utils.py:142-158 | The lookup returns None exactly when no record of the tree matches. |
| FormLookup.GetFormTable | utils.py:160-181 | A missing relationship file is an error. Otherwise the result is the first match over the forms in list order. |
| FormLookup.EarlierFormWins | utils.py:176-179 | A match in an earlier form wins over a match in any later form. |

## Left out

- Fetching the application over HTTP and walking its XML and JSON. The
  model starts from already-parsed question and module records.
- Credential prompting, Django settings and environment lookups. The
  `MAX_CHARVAR_LENGTH` setting is the `bound` parameter.
- Writing workbooks and sheets. Only the values written are modelled.
- Reading spreadsheets with pandas, and dumping JSON files. The
  relationship file of `get_form_table` is an optional parameter.
- The Django models, form controls and generated model code.
- psycopg2 connections, SQL text and the transaction boundaries. A
  failure is modelled as a failed result without the partially committed
  state a crash would leave.
- The value of the `COUNT(*)` query of `confirm_table_columns`, which is
  never used. Only whether the query fails is modelled: it compares the
  column with `''`, which Postgres rejects for a timestamp or boolean
  column.
- Postgres system columns such as `xmin`. The existence check would find
  them; the model only sees the table's own columns.
- Identifier length limits and schemas other than `public`.
- Printing and timing output.
- The order of the dropped columns. The source lists them without an
  ORDER BY, so the model gives them as a set.
- The key order of the duplicate report. The report is a map, as the
  dictionary is printed with sorted keys.
- Lower-casing is ASCII only. The source's `str.lower` also folds other
  letters.
- QuestionTree.PlaceRecord: the source appends the same dict to several
  lists, so later changes to a loop node would also show through its
  `questions` entry. The model stores the question record, because only
  its id, text, type and calculation are read later.
- Flatten.LoopName: the model names a loop table after the loop's id, as
  the source does. A form root in a loop list, which cannot arise, would
  be named after the form.
- Flatten.TableLayout: the layout facts are stated in separate lemmas,
  not in the contract of `Table`. Stating them on `Table` itself makes
  its proof far more expensive.
- Flatten.SystemColumns: the field rows' source paths are stated by
  definition, not by a contract.
- Reconcile.Rerun: holds only when the `id` column was live whenever the
  spec lists it. The counterexample lemma shows the second run failing
  otherwise.
- Reconcile.ConfirmCaseTableColumns: the source also appends the four
  fixed columns to the caller's property list, so a second call on the
  same dict would see them twice. The model takes the properties afresh.
