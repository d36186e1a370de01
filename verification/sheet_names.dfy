/** Table (sheet) names: the legacy 31-character bound, the chain of
    shortening rules of `strip_sheet_name`, the fallback to the bare form
    name, and the run-wide registry of issued names with its counter
    disambiguation (management/commands/scrape.py). */
module SheetNames {
  import opened Wrappers
  import opened Strings

  /** Longest sheet name, and so table name, the export format accepts. */
  const MAX_SHEET_NAME: nat := 31

  datatype NameError = NameTooLong(candidate: string)

  // ---------------------------------------------------------------------
  // strip_sheet_name
  // ---------------------------------------------------------------------

  function RemoveParens(s: string): string {
    Replace(Replace(s, "(", ""), ")", "")
  }

  /** The fixed replacements: "and" to "&", parentheses removed,
      "enrollment" to "enroll", "change" to "chng". */
  function Shorthands(s: string): string {
    Replace(Replace(RemoveParens(Replace(s, "and", "&")), "enrollment", "enroll"), "change", "chng")
  }

  lemma ShorthandsNoLonger(s: string)
    ensures |Shorthands(s)| <= |s|
  {
    var a := Replace(s, "and", "&");
    ReplaceNoLonger(s, "and", "&");
    var b := Replace(a, "(", "");
    ReplaceNoLonger(a, "(", "");
    var c := Replace(b, ")", "");
    ReplaceNoLonger(b, ")", "");
    var d := Replace(c, "enrollment", "enroll");
    ReplaceNoLonger(c, "enrollment", "enroll");
    ReplaceNoLonger(d, "change", "chng");
  }

  /** `words` after the first word before the last, from position `i` on,
      that is longer than one character has been cut to its first
      character (the body of the `for ... break` loop). */
  function AbbreviateFrom(words: seq<string>, i: nat): (r: seq<string>)
    requires |words| >= 1 && i <= |words| - 1
    ensures |r| == |words| && Last(r) == Last(words)
    ensures forall k :: 0 <= k < |words| - 1 ==>
      r[k] == words[k] || (i <= k && |words[k]| > 1 && r[k] == words[k][..1])
    ensures r == words <==> forall k :: i <= k < |words| - 1 ==> |words[k]| <= 1
    ensures r != words ==>
      (exists k :: i <= k < |words| - 1 && |words[k]| > 1 && r == words[k := words[k][..1]])
    decreases |words| - i
  {
    if i == |words| - 1 then words
    else if |words[i]| > 1 then
      assert words[i := words[i][..1]][i] != words[i];
      words[i := words[i][..1]]
    else AbbreviateFrom(words, i + 1)
  }

  /** One pass of the truncation loop: split on "_", abbreviate, rejoin. */
  function AbbreviateOnce(s: string): string {
    Join(AbbreviateFrom(Split(s, '_'), 0), '_')
  }

  lemma {:induction false} JoinUpdateLength(words: seq<string>, k: nat, w: string, sep: char)
    requires k < |words|
    ensures |Join(words[k := w], sep)| == |Join(words, sep)| - |words[k]| + |w|
    decreases |words|
  {
    if |words| > 1 {
      if k == 0 {
        assert words[k := w][1..] == words[1..];
      } else {
        assert words[k := w][1..] == words[1..][k - 1 := w];
        JoinUpdateLength(words[1..], k - 1, w, sep);
      }
    }
  }

  /** A pass either changes nothing or makes the text strictly shorter,
      and its words are those of the abbreviation. */
  lemma AbbreviateOnceFacts(s: string)
    ensures Split(AbbreviateOnce(s), '_') == AbbreviateFrom(Split(s, '_'), 0)
    ensures AbbreviateOnce(s) != s ==> |AbbreviateOnce(s)| < |s|
  {
    var words := Split(s, '_');
    var r := AbbreviateFrom(words, 0);
    forall k | 0 <= k < |r|
      ensures '_' !in r[k]
    {
      if r[k] != words[k] {
        assert r[k] == words[k][..1];
      }
    }
    SplitJoin(r, '_');
    JoinSplit(s, '_');
    if r != words {
      var k :| 0 <= k < |words| - 1 && |words[k]| > 1 && r == words[k := words[k][..1]];
      JoinUpdateLength(words, k, words[k][..1], '_');
    }
  }

  /** The `while len(sheet_name) > 31 and sheet_name != last_name` loop. */
  function Truncate(s: string): string
    decreases |s|
  {
    if |s| <= MAX_SHEET_NAME then s
    else
      var t := AbbreviateOnce(s);
      AbbreviateOnceFacts(s);
      if t == s then s else Truncate(t)
  }

  /** `r` is `w` with some words before the last one cut to their first
      character: same word count, same last word. */
  ghost predicate AbbreviationOf(r: seq<string>, w: seq<string>) {
    && |w| >= 1 && |r| == |w| && Last(r) == Last(w)
    && forall k :: 0 <= k < |w| - 1 ==> r[k] == w[k] || (|w[k]| > 1 && r[k] == w[k][..1])
  }

  /** The truncation loop keeps the number of words and the last word,
      turns each other word into either itself or its first character,
      never lengthens, and stops at 31 characters or once every word but
      the last has at most one character. */
  lemma {:induction false} TruncateFacts(s: string)
    ensures AbbreviationOf(Split(Truncate(s), '_'), Split(s, '_'))
    ensures |Truncate(s)| <= |s|
    ensures |Truncate(s)| <= MAX_SHEET_NAME
      || forall k :: 0 <= k < |Split(Truncate(s), '_')| - 1 ==> |Split(Truncate(s), '_')[k]| <= 1
    decreases |s|
  {
    var w := Split(s, '_');
    if |s| <= MAX_SHEET_NAME {
    } else {
      var t := AbbreviateOnce(s);
      AbbreviateOnceFacts(s);
      if t == s {
      } else {
        TruncateFacts(t);
        var m := Split(t, '_');
        var r := Split(Truncate(t), '_');
        assert Truncate(s) == Truncate(t);
        forall k | 0 <= k < |w| - 1
          ensures r[k] == w[k] || (|w[k]| > 1 && r[k] == w[k][..1])
        {
          if m[k] != w[k] {
            assert |m[k]| == 1;
          }
        }
      }
    }
  }

  /** `strip_sheet_name`. It always terminates and never lengthens. */
  function StripSheetName(s: string): (r: string)
    ensures |r| <= |s|
  {
    ShorthandsNoLonger(s);
    TruncateFacts(Shorthands(s));
    Truncate(Shorthands(s))
  }

  // The concrete texts below are passed as parameters so that the
  // verifier does not unfold `Replace` on literals eagerly.

  lemma ReplaceEnrollmentment(s: string)
    requires s == "enrollmentment"
    ensures Replace(s, "enrollment", "enroll") == "enrollment"
  {
    assert s[..10] == "enrollment" && s[10..] == "ment";
    assert Replace("ment", "enrollment", "enroll") == "ment";
  }

  lemma ReplaceEnrollment(s: string)
    requires s == "enrollment"
    ensures Replace(s, "enrollment", "enroll") == "enroll"
  {
    assert s[..10] == "enrollment" && s[10..] == "";
  }

  /** Texts without 'a', '(', ')' and 'c' pass the other shorthands unchanged. */
  lemma ShorthandsOnlyEnrollment(s: string)
    requires 'a' !in s && '(' !in s && ')' !in s
    requires 'c' !in Replace(s, "enrollment", "enroll")
    ensures Shorthands(s) == Replace(s, "enrollment", "enroll")
  {
    ReplaceAbsent(s, "and", "&");
    ReplaceAbsent(s, "(", "");
    ReplaceAbsent(s, ")", "");
    ReplaceAbsent(Replace(s, "enrollment", "enroll"), "change", "chng");
  }

  lemma ShorthandsEnrollmentment(s: string)
    requires s == "enrollmentment"
    ensures Shorthands(s) == "enrollment"
  {
    ReplaceEnrollmentment(s);
    ShorthandsOnlyEnrollment(s);
  }

  lemma ShorthandsEnrollment(s: string)
    requires s == "enrollment"
    ensures Shorthands(s) == "enroll"
  {
    ReplaceEnrollment(s);
    ShorthandsOnlyEnrollment(s);
  }

  /** Stripping twice can shorten further: "enrollmentment" strips to
      "enrollment", which strips to "enroll". */
  lemma StripIsNotIdempotent(s: string)
    requires s == "enrollmentment"
    ensures StripSheetName(s) == "enrollment"
    ensures StripSheetName(StripSheetName(s)) == "enroll"
  {
    ShorthandsEnrollmentment(s);
    ShorthandsEnrollment("enrollment");
  }

  // ---------------------------------------------------------------------
  // Fitting a candidate under the bound
  // ---------------------------------------------------------------------

  /** `.replace("(", '').replace(')', '').replace('-', '')`. */
  function CleanSheetName(s: string): (r: string)
    ensures '(' !in r && ')' !in r && '-' !in r
    ensures |r| <= |s|
  {
    var a := Replace(s, "(", "");
    ReplaceCharDeletes(s, '(');
    var b := Replace(a, ")", "");
    ReplaceCharDeletes(a, ')');
    var c := Replace(b, "-", "");
    ReplaceCharDeletes(b, '-');
    forall x | x in c ensures x != '(' && x != ')' {
      ReplaceChars(b, "-", "", x);
      ReplaceChars(a, ")", "", x);
    }
    c
  }

  /** The candidate if it fits; otherwise its stripped form if that fits;
      otherwise the stripped fallback if that fits; otherwise an error. */
  function Fit(candidate: string, fallback: string): (r: Result<string, NameError>)
    ensures r.Success? ==> |r.value| <= MAX_SHEET_NAME
    ensures |candidate| <= MAX_SHEET_NAME ==> r == Success(candidate)
    ensures r.Failure? <==>
      |StripSheetName(candidate)| > MAX_SHEET_NAME && |StripSheetName(fallback)| > MAX_SHEET_NAME
  {
    if |candidate| <= MAX_SHEET_NAME then Success(candidate)
    else
      var first := StripSheetName(candidate);
      if |first| <= MAX_SHEET_NAME then Success(first)
      else
        var second := StripSheetName(fallback);
        if |second| <= MAX_SHEET_NAME then Success(second)
        else Failure(NameTooLong(fallback))
  }

  // ---------------------------------------------------------------------
  // The registry and the counter
  // ---------------------------------------------------------------------

  function MaxLength(names: seq<string>): (m: nat)
    ensures forall k :: 0 <= k < |names| ==> |names[k]| <= m
  {
    if |names| == 0 then 0
    else
      var rest := MaxLength(names[1..]);
      assert forall k :: 1 <= k < |names| ==> names[k] == names[1..][k - 1];
      if |names[0]| > rest then |names[0]| else rest
  }

  /** The name tried at counter value `k`: each step overwrites the last
      character of the previous attempt with `str(k)`. */
  function Candidate(base: string, k: nat): string {
    if k == 0 then base else DropLast(Candidate(base, k - 1)) + NatToString(k)
  }

  /** The `while sheet_name in registry` loop, from counter `k` with the
      current attempt `cur`; it answers the free name and the counter at
      which it was found. Up to nine the attempts keep their length; from
      ten on each one is longer than the last, so the loop ends. */
  function ReserveFrom(cur: string, k: nat, registry: seq<string>): (r: (string, nat))
    ensures r.0 !in registry && r.1 >= k
    ensures cur !in registry ==> r == (cur, k)
    decreases if k < 9 then 1 else 0, if k < 9 then 9 - k else MaxLength(registry) + 1 - |cur|
  {
    if cur !in registry then (cur, k)
    else
      var next := DropLast(cur) + NatToString(k + 1);
      assert |cur| <= MaxLength(registry) by {
        var i :| 0 <= i < |registry| && registry[i] == cur;
      }
      ReserveFrom(next, k + 1, registry)
  }

  /** Reserves a name: the result was not yet issued, and the registry
      gains exactly that name at its end. */
  function Reserve(name: string, registry: seq<string>): (r: (string, seq<string>))
    ensures r.0 !in registry
    ensures r.1 == registry + [r.0]
    ensures name !in registry ==> r.0 == name
  {
    var found := ReserveFrom(name, 0, registry);
    (found.0, registry + [found.0])
  }

  /** The loop answers the first free attempt in counter order. */
  lemma {:induction false} ReserveIsFirstFreeCandidate(base: string, k: nat, registry: seq<string>)
    ensures var r := ReserveFrom(Candidate(base, k), k, registry);
      && r.0 == Candidate(base, r.1)
      && forall j :: k <= j < r.1 ==> Candidate(base, j) in registry
    decreases if k < 9 then 1 else 0,
      if k < 9 then 9 - k else MaxLength(registry) + 1 - |Candidate(base, k)|
  {
    var cur := Candidate(base, k);
    if cur in registry {
      assert |cur| <= MaxLength(registry) by {
        var i :| 0 <= i < |registry| && registry[i] == cur;
      }
      var next := Candidate(base, k + 1);
      assert next == DropLast(cur) + NatToString(k + 1);
      ReserveIsFirstFreeCandidate(base, k + 1, registry);
      var r := ReserveFrom(next, k + 1, registry);
      assert ReserveFrom(cur, k, registry) == r;
      assert forall j :: k + 1 <= j < r.1 ==> Candidate(base, j) in registry;
    }
  }

  /** Attempts one to nine keep the base's length; from ten on each
      attempt is one character longer than the previous. */
  lemma {:induction false} CandidateLength(base: string, k: nat)
    requires |base| >= 1
    ensures k <= 9 ==> |Candidate(base, k)| == |base|
    ensures k == 10 ==> |Candidate(base, k)| == |base| + 1
    ensures k >= 10 ==> |Candidate(base, k)| >= |base| + k - 9
  {
    if k > 0 {
      CandidateLength(base, k - 1);
    }
  }

  /** The reserved name keeps the length of the requested one exactly
      while the counter stays below ten. */
  lemma ReserveLengthKeptBelowTen(name: string, registry: seq<string>)
    requires |name| >= 1
    ensures |Reserve(name, registry).0| == |name| <==> ReserveFrom(name, 0, registry).1 <= 9
  {
    ReserveIsFirstFreeCandidate(name, 0, registry);
    CandidateLength(name, ReserveFrom(name, 0, registry).1);
  }

  /** Reserving "patient_visit" twice yields "patient_visit" and then
      "patient_visi1". */
  lemma ReservePatientVisitTwice()
    ensures Reserve("patient_visit", []).0 == "patient_visit"
    ensures Reserve("patient_visit", Reserve("patient_visit", []).1).0 == "patient_visi1"
  {
    var reg := Reserve("patient_visit", []).1;
    assert reg == ["patient_visit"];
    assert DropLast("patient_visit") == "patient_visi";
    assert NatToString(1) == "1";
    assert "patient_visi1" !in reg;
  }

  /** The counter can break the bound: when a 31-character name and its
      nine one-digit variants are taken, the next name has 32 characters. */
  lemma ReserveCanExceedBound(base: string)
    requires |base| == MAX_SHEET_NAME
    ensures var registry := seq(10, i requires 0 <= i < 10 => Candidate(base, i));
      |Reserve(base, registry).0| == MAX_SHEET_NAME + 1
  {
    var registry := seq(10, i requires 0 <= i < 10 => Candidate(base, i));
    assert Candidate(base, 0) == base;
    ReserveIsFirstFreeCandidate(base, 0, registry);
    var e := ReserveFrom(base, 0, registry).1;
    assert Reserve(base, registry).0 == Candidate(base, e);
    assert Candidate(base, e) !in registry;
    forall i | 0 <= i < 10
      ensures |registry[i]| == MAX_SHEET_NAME
      ensures Candidate(base, i) in registry
    {
      CandidateLength(base, i);
      assert registry[i] == Candidate(base, i);
    }
    assert e >= 10;
    CandidateLength(base, 10);
    assert Candidate(base, 10) !in registry;
    assert e <= 10;
    CandidateLength(base, e);
  }

  // ---------------------------------------------------------------------
  // Form and case table names
  // ---------------------------------------------------------------------

  /** `form_name`: spaces and slashes become "_", then lower-cased. */
  function FormName(name: string): (r: string)
    ensures |r| == |name| && IsLower(r)
  {
    var a := Replace(name, " ", "_");
    ReplaceCharByChar(name, ' ', '_');
    var b := Replace(a, "/", "_");
    ReplaceCharByChar(a, '/', '_');
    Lower(b)
  }

  /** The table name of a form or loop sheet: the parent's table name and
      "_" (when nested) before the form name, cleaned; shortened by the
      chain, or the bare form name shortened, when over the bound; then
      made unique against the registry, which gains it. */
  function FormTableName(formName: string, parentName: string, registry: seq<string>)
    : (r: Result<(string, seq<string>), NameError>)
    ensures r.Success? ==> r.value.0 !in registry && r.value.1 == registry + [r.value.0]
    ensures var cleaned := CleanSheetName((if parentName != "" then parentName + "_" else "") + formName);
      && (r.Failure? <==> |StripSheetName(cleaned)| > MAX_SHEET_NAME
                          && |StripSheetName(formName)| > MAX_SHEET_NAME)
      && (|cleaned| <= MAX_SHEET_NAME && cleaned !in registry ==> r == Success((cleaned, registry + [cleaned])))
  {
    var prefix := if parentName != "" then parentName + "_" else "";
    var name :- Fit(CleanSheetName(prefix + formName), formName);
    Success(Reserve(name, registry))
  }

  /** The table name of a case sheet: "case_" and the lower-cased case
      type, cleaned; when over the bound, stripped, or else the name with
      its underscores removed stripped; appended to the registry without
      any uniqueness check. */
  function CaseTableName(caseType: string, registry: seq<string>)
    : (r: Result<(string, seq<string>), NameError>)
    ensures r.Success? ==> |r.value.0| <= MAX_SHEET_NAME && r.value.1 == registry + [r.value.0]
    ensures var caseName := "case_" + Lower(caseType);
      && (r.Failure? <==> |StripSheetName(CleanSheetName(caseName))| > MAX_SHEET_NAME
                          && |StripSheetName(Replace(caseName, "_", ""))| > MAX_SHEET_NAME)
      && (|CleanSheetName(caseName)| <= MAX_SHEET_NAME ==> r.Success? && r.value.0 == CleanSheetName(caseName))
  {
    var caseName := "case_" + Lower(caseType);
    var name :- Fit(CleanSheetName(caseName), Replace(caseName, "_", ""));
    Success((name, registry + [name]))
  }

  lemma LowerPatient(t: string)
    requires t == "Patient" || t == "patient"
    ensures Lower(t) == "patient"
  {
  }

  lemma CleanCasePatient(n: string)
    requires n == "case_patient"
    ensures CleanSheetName(n) == n
  {
    ReplaceAbsent(n, "(", "");
    ReplaceAbsent(n, ")", "");
    ReplaceAbsent(n, "-", "");
  }

  lemma CaseNamePatient(caseType: string, registry: seq<string>)
    requires caseType == "Patient" || caseType == "patient"
    ensures CaseTableName(caseType, registry) == Success(("case_patient", registry + ["case_patient"]))
  {
    LowerPatient(caseType);
    CleanCasePatient("case_" + Lower(caseType));
  }

  /** Two case types that differ only in letter case get the same table
      name, and the registry then holds it twice. */
  lemma CaseNamesCanRepeat(first: string, second: string)
    requires first == "Patient" && second == "patient"
    ensures var r1 := CaseTableName(first, []);
      && r1.Success?
      && var r2 := CaseTableName(second, r1.value.1);
      && r2.Success?
      && r2.value.0 == r1.value.0
      && r2.value.1 == [r1.value.0, r1.value.0]
  {
    CaseNamePatient(first, []);
    CaseNamePatient(second, ["case_patient"]);
  }
}
