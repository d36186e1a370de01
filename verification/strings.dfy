/** The handful of Python string operations the scraper relies on,
    written out over `seq<char>`: `str.lower`, `str.replace`, the `in`
    substring test, `str.split` / `str.join` on a one-character separator,
    `str(n)` for a natural number and slicing off the last character. */
module Strings {

  // ---------------------------------------------------------------------
  // Lower-casing (ASCII letters only)
  // ---------------------------------------------------------------------

  predicate IsUpper(c: char) {
    'A' <= c <= 'Z'
  }

  function LowerChar(c: char): char {
    if IsUpper(c) then (c as int + 32) as char else c
  }

  /** No upper-case ASCII letter anywhere in `s`. */
  predicate IsLower(s: string) {
    forall i :: 0 <= i < |s| ==> !IsUpper(s[i])
  }

  /** `s.lower()` for ASCII text: letters A-Z become a-z, every other
      character is kept, and the length does not change. */
  function Lower(s: string): (r: string)
    ensures |r| == |s|
    ensures IsLower(r)
    ensures forall i :: 0 <= i < |s| && !IsUpper(s[i]) ==> r[i] == s[i]
  {
    seq(|s|, i requires 0 <= i < |s| => LowerChar(s[i]))
  }

  // ---------------------------------------------------------------------
  // str.replace
  // ---------------------------------------------------------------------

  /** `s.replace(pat, rep)`: every non-overlapping occurrence of `pat`,
      scanning left to right, is replaced by `rep`. */
  function Replace(s: string, pat: string, rep: string): string
    requires |pat| > 0
    decreases |s|
  {
    if |s| < |pat| then s
    else if s[..|pat|] == pat then rep + Replace(s[|pat|..], pat, rep)
    else [s[0]] + Replace(s[1..], pat, rep)
  }

  /** A replacement that is no longer than the pattern never lengthens. */
  lemma {:induction false} ReplaceNoLonger(s: string, pat: string, rep: string)
    requires |pat| > 0 && |rep| <= |pat|
    ensures |Replace(s, pat, rep)| <= |s|
    decreases |s|
  {
    if |s| < |pat| {
    } else if s[..|pat|] == pat {
      ReplaceNoLonger(s[|pat|..], pat, rep);
    } else {
      ReplaceNoLonger(s[1..], pat, rep);
    }
  }

  /** Every character of the result comes from `s` or from `rep`. */
  lemma {:induction false} ReplaceChars(s: string, pat: string, rep: string, c: char)
    requires |pat| > 0
    requires c in Replace(s, pat, rep)
    ensures c in s || c in rep
    decreases |s|
  {
    if |s| < |pat| {
    } else if s[..|pat|] == pat {
      if c !in rep {
        ReplaceChars(s[|pat|..], pat, rep, c);
      }
    } else {
      if c != s[0] {
        ReplaceChars(s[1..], pat, rep, c);
      }
    }
  }

  /** Replacing one character by one character is a character-wise map. */
  lemma {:induction false} ReplaceCharByChar(s: string, a: char, b: char)
    ensures |Replace(s, [a], [b])| == |s|
    ensures forall i :: 0 <= i < |s| ==>
      Replace(s, [a], [b])[i] == (if s[i] == a then b else s[i])
    decreases |s|
  {
    if |s| == 0 {
    } else {
      ReplaceCharByChar(s[1..], a, b);
    }
  }

  /** Deleting a character (`replace(c, '')`) leaves no occurrence of it. */
  lemma {:induction false} ReplaceCharDeletes(s: string, a: char)
    ensures a !in Replace(s, [a], [])
    ensures |Replace(s, [a], [])| <= |s|
    decreases |s|
  {
    if |s| == 0 {
    } else {
      ReplaceCharDeletes(s[1..], a);
    }
  }

  /** A text without the pattern's first character is left unchanged. */
  lemma {:induction false} ReplaceAbsent(s: string, pat: string, rep: string)
    requires |pat| > 0 && pat[0] !in s
    ensures Replace(s, pat, rep) == s
    decreases |s|
  {
    if |s| >= |pat| {
      assert s[..|pat|][0] == s[0];
      ReplaceAbsent(s[1..], pat, rep);
    }
  }

  /** A lower-case text stays lower-case under a lower-case replacement. */
  lemma ReplaceKeepsLower(s: string, pat: string, rep: string)
    requires |pat| > 0 && IsLower(s) && IsLower(rep)
    ensures IsLower(Replace(s, pat, rep))
  {
    var r := Replace(s, pat, rep);
    forall i | 0 <= i < |r|
      ensures !IsUpper(r[i])
    {
      ReplaceChars(s, pat, rep, r[i]);
    }
  }

  /** Lower-casing works character by character, so it distributes over
      concatenation. */
  lemma LowerAppend(a: string, b: string)
    ensures Lower(a + b) == Lower(a) + Lower(b)
  {
    assert forall i :: 0 <= i < |a| ==> (a + b)[i] == a[i];
    assert forall i :: |a| <= i < |a| + |b| ==> (a + b)[i] == b[i - |a|];
  }

  /** A character that is not an upper-case letter is in the lower-cased
      text exactly when it is in the text. */
  lemma LowerKeepsOther(s: string, c: char)
    requires !IsUpper(c) && ('a' > c || c > 'z')
    ensures c in Lower(s) <==> c in s
  {
    if c in Lower(s) {
      var i :| 0 <= i < |s| && Lower(s)[i] == c;
      assert LowerChar(s[i]) == c;
    }
    if c in s {
      var i :| 0 <= i < |s| && s[i] == c;
      assert Lower(s)[i] == c;
    }
  }

  /** Replacing one character by another removes the first and brings in
      nothing but the second. */
  lemma ReplaceCharSubst(s: string, a: char, b: char, c: char)
    requires a != b
    ensures c in Replace(s, [a], [b]) <==> (c == b && (a in s || b in s)) || (c != a && c != b && c in s)
  {
    ReplaceCharByChar(s, a, b);
    var r := Replace(s, [a], [b]);
    if c in r {
      var i :| 0 <= i < |r| && r[i] == c;
      assert r[i] == (if s[i] == a then b else s[i]);
    }
    if c == b && a in s {
      var i :| 0 <= i < |s| && s[i] == a;
      assert r[i] == b;
    }
    if c == b && b in s {
      var i :| 0 <= i < |s| && s[i] == b;
      assert r[i] == b;
    }
    if c != a && c != b && c in s {
      var i :| 0 <= i < |s| && s[i] == c;
      assert r[i] == c;
    }
  }

  /** A one-character replacement distributes over concatenation. */
  lemma ReplaceCharAppend(x: string, y: string, a: char, b: char)
    ensures Replace(x + y, [a], [b]) == Replace(x, [a], [b]) + Replace(y, [a], [b])
  {
    ReplaceCharByChar(x + y, a, b);
    ReplaceCharByChar(x, a, b);
    ReplaceCharByChar(y, a, b);
    var l := Replace(x + y, [a], [b]);
    var r := Replace(x, [a], [b]) + Replace(y, [a], [b]);
    forall i | 0 <= i < |l|
      ensures l[i] == r[i]
    {
      if i < |x| {
        assert (x + y)[i] == x[i];
      } else {
        assert (x + y)[i] == y[i - |x|];
      }
    }
  }

  // ---------------------------------------------------------------------
  // Substring test and prefixes
  // ---------------------------------------------------------------------

  /** Python's `sub in s` for two strings. */
  predicate Contains(s: string, sub: string)
    decreases |s|
  {
    if sub <= s then true
    else if |s| == 0 then false
    else Contains(s[1..], sub)
  }

  /** Python's `s.endswith(suffix)`. */
  predicate EndsWith(s: string, suffix: string) {
    |suffix| <= |s| && s[|s| - |suffix|..] == suffix
  }

  // ---------------------------------------------------------------------
  // split / join on a one-character separator
  // ---------------------------------------------------------------------

  /** `s.split(sep)`: always at least one word, and no word holds `sep`. */
  function Split(s: string, sep: char): (words: seq<string>)
    ensures |words| >= 1
    ensures forall k :: 0 <= k < |words| ==> sep !in words[k]
    ensures forall k, c :: 0 <= k < |words| && c in words[k] ==> c in s
    decreases |s|
  {
    if |s| == 0 then [[]]
    else
      var rest := Split(s[1..], sep);
      assert forall c :: c in s[1..] ==> c in s;
      if s[0] == sep then [[]] + rest
      else [[s[0]] + rest[0]] + rest[1..]
  }

  /** `sep.join(words)`. */
  function Join(words: seq<string>, sep: char): string
    requires |words| >= 1
    decreases |words|
  {
    if |words| == 1 then words[0]
    else words[0] + [sep] + Join(words[1..], sep)
  }

  function Last<T>(xs: seq<T>): T
    requires |xs| >= 1
  {
    xs[|xs| - 1]
  }

  /** Joining the words of a split gives back the original text. */
  lemma {:induction false} JoinSplit(s: string, sep: char)
    ensures Join(Split(s, sep), sep) == s
    decreases |s|
  {
    if |s| == 0 {
    } else {
      var rest := Split(s[1..], sep);
      JoinSplit(s[1..], sep);
      if s[0] == sep {
        assert Split(s, sep) == [[]] + rest;
        assert s == [sep] + s[1..];
      } else {
        var words := Split(s, sep);
        assert words == [[s[0]] + rest[0]] + rest[1..];
        if |rest| == 1 {
          assert s == [s[0]] + s[1..];
        } else {
          assert words[1..] == rest[1..];
          calc {
            Join(words, sep);
            ([s[0]] + rest[0]) + [sep] + Join(rest[1..], sep);
            [s[0]] + (rest[0] + [sep] + Join(rest[1..], sep));
            [s[0]] + Join(rest, sep);
            s;
          }
        }
      }
    }
  }

  /** A text without the separator is a single word. */
  lemma {:induction false} SplitSingleWord(w: string, sep: char)
    requires sep !in w
    ensures Split(w, sep) == [w]
    decreases |w|
  {
    if |w| != 0 {
      SplitSingleWord(w[1..], sep);
      assert w == [w[0]] + w[1..];
    }
  }

  /** Splitting `w + sep + t` peels off the separator-free word `w`. */
  lemma {:induction false} SplitFirstWord(w: string, sep: char, t: string)
    requires sep !in w
    ensures Split(w + [sep] + t, sep) == [w] + Split(t, sep)
    decreases |w|
  {
    var s := w + [sep] + t;
    if |w| == 0 {
      assert s[1..] == t;
    } else {
      assert s[1..] == w[1..] + [sep] + t;
      SplitFirstWord(w[1..], sep, t);
      assert w == [w[0]] + w[1..];
    }
  }

  /** Splitting a join of separator-free words gives back the words. */
  lemma {:induction false} SplitJoin(words: seq<string>, sep: char)
    requires |words| >= 1
    requires forall k :: 0 <= k < |words| ==> sep !in words[k]
    ensures Split(Join(words, sep), sep) == words
    decreases |words|
  {
    if |words| == 1 {
      SplitSingleWord(words[0], sep);
    } else {
      SplitJoin(words[1..], sep);
      SplitFirstWord(words[0], sep, Join(words[1..], sep));
      assert words == [words[0]] + words[1..];
    }
  }

  /** Splitting at a separator splits both sides independently. */
  lemma {:induction false} SplitAppendSep(a: string, sep: char, b: string)
    ensures Split(a + [sep] + b, sep) == Split(a, sep) + Split(b, sep)
    decreases |a|
  {
    var s := a + [sep] + b;
    if |a| == 0 {
      assert s[1..] == b;
    } else {
      assert s[0] == a[0];
      assert s[1..] == a[1..] + [sep] + b;
      SplitAppendSep(a[1..], sep, b);
    }
  }

  /** Lower-casing commutes with splitting at a separator that is not a
      letter: the words of the lowered text are the lowered words. */
  lemma {:induction false} LowerSplit(s: string, sep: char)
    requires !IsUpper(sep) && !('a' <= sep <= 'z')
    ensures |Split(Lower(s), sep)| == |Split(s, sep)|
    ensures forall k :: 0 <= k < |Split(s, sep)| ==> Split(Lower(s), sep)[k] == Lower(Split(s, sep)[k])
    decreases |s|
  {
    if |s| > 0 {
      var l := Lower(s);
      assert l[1..] == Lower(s[1..]);
      assert l[0] == LowerChar(s[0]);
      assert l[0] == sep <==> s[0] == sep;
      LowerSplit(s[1..], sep);
      var rest := Split(s[1..], sep);
      if s[0] != sep {
        LowerAppend([s[0]], rest[0]);
        assert Lower([s[0]]) == [LowerChar(s[0])];
      }
    }
  }

  /** Joining two words puts the separator between them. */
  lemma JoinTwo(a: string, b: string, sep: char)
    ensures Join([a, b], sep) == a + [sep] + b
  {
    assert [a, b][1..] == [b];
  }

  /** The length of a join: the words plus one separator between each pair. */
  lemma {:induction false} JoinLength(words: seq<string>, sep: char, k: nat)
    requires |words| >= 1 && k < |words|
    ensures |Join(words, sep)| >= |words[k]|
    decreases |words|
  {
    if |words| > 1 && k > 0 {
      JoinLength(words[1..], sep, k - 1);
    }
  }

  // ---------------------------------------------------------------------
  // str(n) and s[:-1]
  // ---------------------------------------------------------------------

  function DigitChar(d: nat): char
    requires d < 10
  {
    "0123456789"[d]
  }

  /** `str(n)`: one digit below ten, at least two from ten on. */
  function NatToString(n: nat): (r: string)
    ensures |r| >= 1
    ensures n < 10 <==> |r| == 1
    decreases n
  {
    if n < 10 then [DigitChar(n)]
    else NatToString(n / 10) + [DigitChar(n % 10)]
  }

  /** Python's `s[:-1]`, which is the empty string for an empty `s`. */
  function DropLast(s: string): (r: string)
    ensures |s| >= 1 ==> |r| == |s| - 1
    ensures |s| == 0 ==> r == []
    ensures r <= s
  {
    if |s| == 0 then s else s[..|s| - 1]
  }
}
