/** Finding the relationship record of a spreadsheet: the record whose
    spreadsheet file is the given one, searched parent before children and,
    across the forms, in list order. */
module FormLookup {
  import opened Wrappers
  import opened Flatten

  /** Reference definition: the first record of a list with the given
      spreadsheet file. */
  function FirstFor(ts: seq<TableSpec>, sheet: string): (r: Option<TableSpec>)
    ensures r.None? <==> forall i :: 0 <= i < |ts| ==> ts[i].spreadsheetFile != sheet
    ensures r.Some? ==> exists i :: 0 <= i < |ts| && ts[i] == r.value && ts[i].spreadsheetFile == sheet &&
                                    forall j :: 0 <= j < i ==> ts[j].spreadsheetFile != sheet
  {
    if |ts| == 0 then None
    else if ts[0].spreadsheetFile == sheet then Some(ts[0])
    else
      var r := FirstFor(ts[1..], sheet);
      assert forall i :: 0 < i < |ts| ==> ts[i] == ts[1..][i - 1];
      r
  }

  lemma {:induction false} FirstForAppend(a: seq<TableSpec>, b: seq<TableSpec>, sheet: string)
    ensures FirstFor(a + b, sheet) == if FirstFor(a, sheet).Some? then FirstFor(a, sheet) else FirstFor(b, sheet)
    decreases |a|
  {
    if |a| == 0 {
      assert a + b == b;
    } else {
      assert (a + b)[0] == a[0];
      assert (a + b)[1..] == a[1..] + b;
      FirstForAppend(a[1..], b, sheet);
    }
  }

  /** `get_form_info`: the record itself when its spreadsheet file matches,
      otherwise the first match among its children, in order. */
  function GetFormInfo(sheet: string, t: TableSpec): (r: Option<TableSpec>)
    ensures r.Some? ==> r.value.spreadsheetFile == sheet
    ensures t.spreadsheetFile == sheet ==> r == Some(t)
    decreases t, 1
  {
    if t.spreadsheetFile == sheet then Some(t) else GetFormInfoIn(sheet, t.children)
  }

  /** The loop over a record's children (or over the forms): the first
      child with a match decides. */
  function GetFormInfoIn(sheet: string, ts: seq<TableSpec>): (r: Option<TableSpec>)
    ensures r.Some? ==> r.value.spreadsheetFile == sheet
    decreases ts, 0
  {
    if |ts| == 0 then None
    else
      var before := GetFormInfoIn(sheet, ts[..|ts| - 1]);
      if before.Some? then before else GetFormInfo(sheet, ts[|ts| - 1])
  }

  /** The search finds the first record of the tree's preorder with the
      given spreadsheet file, and nothing when no record has it. */
  lemma {:induction false} GetFormInfoIsFirstInPreorder(sheet: string, t: TableSpec)
    ensures GetFormInfo(sheet, t) == FirstFor(Tables(t), sheet)
    decreases t, 1
  {
    GetFormInfoInIsFirstInPreorder(sheet, t.children);
    FirstForAppend([t], TablesIn(t.children), sheet);
  }

  lemma {:induction false} GetFormInfoInIsFirstInPreorder(sheet: string, ts: seq<TableSpec>)
    ensures GetFormInfoIn(sheet, ts) == FirstFor(TablesIn(ts), sheet)
    decreases ts, 0
  {
    if |ts| > 0 {
      var init, last := ts[..|ts| - 1], ts[|ts| - 1];
      GetFormInfoInIsFirstInPreorder(sheet, init);
      GetFormInfoIsFirstInPreorder(sheet, last);
      FirstForAppend(TablesIn(init), Tables(last), sheet);
    }
  }

  /** The lookup finds nothing exactly when no record of the tree has the
      given spreadsheet file. */
  lemma GetFormInfoNone(sheet: string, t: TableSpec)
    ensures GetFormInfo(sheet, t).None? <==>
      forall i :: 0 <= i < |Tables(t)| ==> Tables(t)[i].spreadsheetFile != sheet
  {
    GetFormInfoIsFirstInPreorder(sheet, t);
  }

  datatype LookupError = MissingRelationships

  /** `get_form_table`: the relationship file's forms, when the file
      exists, searched in list order. */
  function GetFormTable(forms: Option<seq<TableSpec>>, sheet: string): (r: Result<Option<TableSpec>, LookupError>)
    ensures r.Failure? <==> forms.None?
    ensures r.Success? ==> r.value == FirstFor(TablesIn(forms.value), sheet)
  {
    match forms
    case None => Failure(MissingRelationships)
    case Some(fs) =>
      GetFormInfoInIsFirstInPreorder(sheet, fs);
      Success(GetFormInfoIn(sheet, fs))
  }

  /** A match in an earlier form wins over any match in a later one. */
  lemma EarlierFormWins(forms: seq<TableSpec>, k: nat, sheet: string)
    requires k < |forms|
    requires GetFormInfo(sheet, forms[k]).Some?
    requires forall j :: 0 <= j < k ==> GetFormInfo(sheet, forms[j]).None?
    ensures GetFormTable(Some(forms), sheet) == Success(GetFormInfo(sheet, forms[k]))
  {
    EarlierFormWinsIn(forms, k, sheet);
  }

  lemma {:induction false} EarlierFormWinsIn(forms: seq<TableSpec>, k: nat, sheet: string)
    requires k < |forms|
    requires GetFormInfo(sheet, forms[k]).Some?
    requires forall j :: 0 <= j < k ==> GetFormInfo(sheet, forms[j]).None?
    ensures GetFormInfoIn(sheet, forms) == GetFormInfo(sheet, forms[k])
    decreases |forms|
  {
    var n := |forms| - 1;
    if k == n {
      NoneBefore(forms[..n], sheet);
    } else {
      assert forms[..n][k] == forms[k];
      assert forall j :: 0 <= j < k ==> forms[..n][j] == forms[j];
      EarlierFormWinsIn(forms[..n], k, sheet);
    }
  }

  lemma {:induction false} NoneBefore(forms: seq<TableSpec>, sheet: string)
    requires forall j :: 0 <= j < |forms| ==> GetFormInfo(sheet, forms[j]).None?
    ensures GetFormInfoIn(sheet, forms).None?
    decreases |forms|
  {
    if |forms| > 0 {
      var n := |forms| - 1;
      assert forall j :: 0 <= j < n ==> forms[..n][j] == forms[j];
      NoneBefore(forms[..n], sheet);
    }
  }
}
