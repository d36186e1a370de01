/** The case list of an application (`get_all_cases`): one case per case
    type, in the order the types first appear among the modules. A module
    without a case type is skipped; for a type seen before, the later
    module is ignored, so the first module decides the properties; a
    property that refers to the parent case ("parent/...") is left out. */
module Cases {

  /** The part of an application module the case list reads. */
  datatype AppModule = AppModule(caseType: string, caseProperties: seq<string>)

  /** One case of the list: its type and its own properties. */
  datatype CaseInfo = CaseInfo(name: string, properties: seq<string>)

  const PARENT_PREFIX: string := "parent/"

  /** The properties that do not start with "parent/", in order. */
  function OwnProperties(properties: seq<string>): (r: seq<string>)
    ensures forall p :: p in r <==> p in properties && !(PARENT_PREFIX <= p)
    ensures |r| <= |properties|
    ensures (forall i :: 0 <= i < |properties| ==> !(PARENT_PREFIX <= properties[i])) ==> r == properties
    ensures |properties| == 1 ==> r == (if PARENT_PREFIX <= properties[0] then [] else properties)
    decreases |properties|
  {
    if |properties| == 0 then []
    else
      var init, last := properties[..|properties| - 1], properties[|properties| - 1];
      assert properties == init + [last];
      OwnProperties(init) + (if PARENT_PREFIX <= last then [] else [last])
  }

  /** Filtering a concatenation filters each part and keeps them in order;
      with the one-property case of `OwnProperties` this fixes the order
      and the repeats of the kept properties. */
  lemma {:induction false} OwnPropertiesAppend(a: seq<string>, b: seq<string>)
    ensures OwnProperties(a + b) == OwnProperties(a) + OwnProperties(b)
    decreases |b|
  {
    if |b| == 0 {
      assert a + b == a;
    } else {
      var init, last := b[..|b| - 1], b[|b| - 1];
      assert (a + b)[..|a + b| - 1] == a + init;
      assert (a + b)[|a + b| - 1] == last;
      OwnPropertiesAppend(a, init);
    }
  }

  /** Some case of the list has the given name. */
  predicate Listed(cases: seq<CaseInfo>, name: string) {
    exists c :: c in cases && c.name == name
  }

  /** Reference definition: the case list of the first modules, built one
      module at a time. */
  function CaseList(modules: seq<AppModule>): seq<CaseInfo>
    decreases |modules|
  {
    if |modules| == 0 then []
    else
      var cases := CaseList(modules[..|modules| - 1]);
      var m := modules[|modules| - 1];
      if m.caseType == "" || Listed(cases, m.caseType) then cases
      else cases + [CaseInfo(m.caseType, OwnProperties(m.caseProperties))]
  }

  /** `get_all_cases` on the already-fetched modules. */
  method GetAllCases(modules: seq<AppModule>) returns (cases: seq<CaseInfo>)
    ensures cases == CaseList(modules)
  {
    cases := [];
    for i := 0 to |modules|
      invariant cases == CaseList(modules[..i])
    {
      var m := modules[i];
      assert modules[..i + 1][..i] == modules[..i];
      if m.caseType == "" {
        continue;
      }
      var found := false;
      for k := 0 to |cases|
        invariant found <==> exists j :: 0 <= j < k && cases[j].name == m.caseType
      {
        if cases[k].name == m.caseType {
          found := true;
          break;
        }
      }
      if found {
        continue;
      }
      cases := cases + [CaseInfo(m.caseType, OwnProperties(m.caseProperties))];
    }
    assert modules[..|modules|] == modules;
  }

  /** The index of the first module of the given case type. */
  function FirstModule(modules: seq<AppModule>, caseType: string): (r: nat)
    ensures r <= |modules|
    ensures r < |modules| ==> modules[r].caseType == caseType
    ensures forall j :: 0 <= j < r ==> modules[j].caseType != caseType
  {
    if |modules| == 0 then 0
    else if modules[0].caseType == caseType then 0
    else 1 + FirstModule(modules[1..], caseType)
  }

  lemma FirstModuleOfPrefix(modules: seq<AppModule>, n: nat, caseType: string)
    requires n <= |modules|
    ensures FirstModule(modules[..n], caseType) < n ==> FirstModule(modules, caseType) == FirstModule(modules[..n], caseType)
    ensures FirstModule(modules[..n], caseType) == n ==> FirstModule(modules, caseType) >= n
  {
    assert forall j :: 0 <= j < n ==> modules[j] == modules[..n][j];
  }

  /** A case type is listed iff it is non-empty and some module has it. */
  lemma {:induction false} ListedIffSomeModule(modules: seq<AppModule>, caseType: string)
    ensures Listed(CaseList(modules), caseType) <==> caseType != "" && FirstModule(modules, caseType) < |modules|
    decreases |modules|
  {
    if |modules| > 0 {
      var n := |modules| - 1;
      var init, m := modules[..n], modules[n];
      ListedIffSomeModule(init, caseType);
      ListedIffSomeModule(init, m.caseType);
      FirstModuleOfPrefix(modules, n, caseType);
      var before := CaseList(init);
      if m.caseType != "" && !Listed(before, m.caseType) {
        var c := CaseInfo(m.caseType, OwnProperties(m.caseProperties));
        assert c in before + [c];
        assert forall d :: d in before + [c] <==> d in before || d == c;
      }
    }
  }

  /** Every case has a non-empty name, and no name occurs twice. */
  predicate NamesDistinct(cases: seq<CaseInfo>) {
    && (forall p :: 0 <= p < |cases| ==> cases[p].name != "")
    && (forall p, q :: 0 <= p < q < |cases| ==> cases[p].name != cases[q].name)
  }

  /** Every listed case has a non-empty name, and no name is listed twice. */
  lemma {:induction false} CaseListNamesDistinct(modules: seq<AppModule>)
    ensures NamesDistinct(CaseList(modules))
    decreases |modules|
  {
    if |modules| > 0 {
      var n := |modules| - 1;
      var init, m := modules[..n], modules[n];
      CaseListNamesDistinct(init);
      var before := CaseList(init);
      if m.caseType != "" && !Listed(before, m.caseType) {
        var cases := before + [CaseInfo(m.caseType, OwnProperties(m.caseProperties))];
        assert CaseList(modules) == cases;
        forall p | 0 <= p < |before|
          ensures cases[p] == before[p] && before[p].name != m.caseType
        {
          assert before[p] in before;
        }
      } else {
        assert CaseList(modules) == before;
      }
    }
  }

  /** The case carries the own properties of the first module of its type. */
  ghost predicate FromFirstModule(modules: seq<AppModule>, c: CaseInfo) {
    && FirstModule(modules, c.name) < |modules|
    && c.properties == OwnProperties(modules[FirstModule(modules, c.name)].caseProperties)
  }

  /** Each case carries the own properties of the first module of its type. */
  ghost predicate PropertiesFromFirstModules(modules: seq<AppModule>, cases: seq<CaseInfo>) {
    forall p :: 0 <= p < |cases| ==> FromFirstModule(modules, cases[p])
  }

  /** The cases come in order of the first modules of their types. */
  ghost predicate OrderedByFirstModules(modules: seq<AppModule>, cases: seq<CaseInfo>) {
    forall p, q :: 0 <= p < q < |cases| ==>
      FirstModule(modules, cases[p].name) < FirstModule(modules, cases[q].name)
  }

  ghost predicate FromFirstModules(modules: seq<AppModule>, cases: seq<CaseInfo>) {
    PropertiesFromFirstModules(modules, cases) && OrderedByFirstModules(modules, cases)
  }

  /** Lengthening the module list keeps the first modules of the listed
      types. */
  lemma FirstModulesOfPrefix(modules: seq<AppModule>, cases: seq<CaseInfo>)
    requires |modules| > 0
    requires FromFirstModules(modules[..|modules| - 1], cases)
    ensures FromFirstModules(modules, cases)
  {
    var n := |modules| - 1;
    forall p | 0 <= p < |cases|
      ensures FirstModule(modules, cases[p].name) == FirstModule(modules[..n], cases[p].name) < n
    {
      FirstModuleOfPrefix(modules, n, cases[p].name);
    }
    assert forall j :: 0 <= j < n ==> modules[j] == modules[..n][j];
  }

  /** A type first met in the last module goes to the end of the list. */
  lemma FirstModulesAppend(modules: seq<AppModule>, cases: seq<CaseInfo>, c: CaseInfo)
    requires |modules| > 0
    requires FromFirstModules(modules, cases)
    requires forall p :: 0 <= p < |cases| ==> FirstModule(modules, cases[p].name) < |modules| - 1
    requires c.name == modules[|modules| - 1].caseType
    requires c.properties == OwnProperties(modules[|modules| - 1].caseProperties)
    requires FirstModule(modules, c.name) == |modules| - 1
    ensures FromFirstModules(modules, cases + [c])
  {
    PropertiesAppend(modules, cases, c);
    OrderAppend(modules, cases, c);
  }

  lemma PropertiesAppend(modules: seq<AppModule>, cases: seq<CaseInfo>, c: CaseInfo)
    requires PropertiesFromFirstModules(modules, cases)
    requires FromFirstModule(modules, c)
    ensures PropertiesFromFirstModules(modules, cases + [c])
  {
    var r := cases + [c];
    forall p | 0 <= p < |r|
      ensures FromFirstModule(modules, r[p])
    {
      if p < |cases| {
        assert r[p] == cases[p];
      } else {
        assert r[p] == c;
      }
    }
  }

  lemma OrderAppend(modules: seq<AppModule>, cases: seq<CaseInfo>, c: CaseInfo)
    requires OrderedByFirstModules(modules, cases)
    requires forall p :: 0 <= p < |cases| ==> FirstModule(modules, cases[p].name) < FirstModule(modules, c.name)
    ensures OrderedByFirstModules(modules, cases + [c])
  {
    var r := cases + [c];
    forall p, q | 0 <= p < q < |r|
      ensures FirstModule(modules, r[p].name) < FirstModule(modules, r[q].name)
    {
      assert r[p] == cases[p];
      if q < |cases| {
        assert r[q] == cases[q];
      } else {
        assert r[q] == c;
      }
    }
  }

  /** Each listed case carries the own properties of the first module of
      its type, and the cases come in order of their first modules. */
  lemma {:induction false} CaseListFirstModules(modules: seq<AppModule>)
    ensures FromFirstModules(modules, CaseList(modules))
    decreases |modules|
  {
    if |modules| > 0 {
      var n := |modules| - 1;
      var init, m := modules[..n], modules[n];
      var before := CaseList(init);
      CaseListFirstModules(init);
      FirstModulesOfPrefix(modules, before);
      if m.caseType != "" && !Listed(before, m.caseType) {
        ListedIffSomeModule(init, m.caseType);
        FirstModuleOfPrefix(modules, n, m.caseType);
        forall p | 0 <= p < |before|
          ensures FirstModule(modules, before[p].name) < n
        {
          FirstModuleOfPrefix(modules, n, before[p].name);
        }
        FirstModulesAppend(modules, before, CaseInfo(m.caseType, OwnProperties(m.caseProperties)));
      }
    }
  }
}
