/**
 * The heading slug generator: every maximal run of non-word characters becomes a single
 * hyphen, except a run at the very start or the very end, which is deleted; the result is
 * then lower-cased. There is no de-duplication of equal slugs.
 */
module Slug {

  /** JavaScript's `\w` without the `u` flag: `[A-Za-z0-9_]`. `\W` is its complement. */
  predicate IsWordChar(c: char) {
    ('A' <= c <= 'Z') || ('a' <= c <= 'z') || ('0' <= c <= '9') || c == '_'
  }

  /** The alphabet of slugs: `[a-z0-9_-]`. */
  predicate IsSlugChar(c: char) {
    ('a' <= c <= 'z') || ('0' <= c <= '9') || c == '_' || c == '-'
  }

  /** `toLowerCase` on one character; the slug text it is applied to is ASCII only. */
  function LowerChar(c: char): (d: char)
    ensures IsWordChar(c) ==> IsWordChar(d) && IsSlugChar(d)
    ensures (d == '-') == (c == '-')
  {
    if 'A' <= c <= 'Z' then (c as int - 'A' as int + 'a' as int) as char else c
  }

  function Lower(s: string): (r: string)
    ensures |r| == |s|
    ensures forall i :: 0 <= i < |s| ==> r[i] == LowerChar(s[i])
  {
    if s == [] then [] else [LowerChar(s[0])] + Lower(s[1..])
  }

  /** Length of the maximal run of non-word characters at the front of `s`. */
  function RunLength(s: string): (n: nat)
    ensures n <= |s|
  {
    if s != [] && !IsWordChar(s[0]) then 1 + RunLength(s[1..]) else 0
  }

  /** The run is maximal: non-word characters up to `n`, then a word character or the end. */
  lemma {:induction false} RunLengthSpec(s: string)
    ensures var n := RunLength(s);
      && (forall i :: 0 <= i < n ==> !IsWordChar(s[i]))
      && (n < |s| ==> IsWordChar(s[n]))
  {
    if s != [] && !IsWordChar(s[0]) {
      RunLengthSpec(s[1..]);
      var n := RunLength(s);
      forall i | 1 <= i < n ensures !IsWordChar(s[i]) {
        assert s[i] == s[1..][i - 1];
      }
      if n < |s| {
        assert s[n] == s[1..][n - 1];
      }
    }
  }

  /**
   * `text.replace(/\W+/g, (match, i) => i == 0 || i + match.length === text.length ? "" : "-")`
   * applied to the part of `text` that is left, where `atStart` says whether that part begins
   * at index 0 of the whole text.
   */
  function Hyphenate(s: string, atStart: bool): string
    decreases |s|
  {
    if s == [] then []
    else if IsWordChar(s[0]) then [s[0]] + Hyphenate(s[1..], false)
    else
      var n := RunLength(s);
      RunLengthSpec(s);
      (if atStart || n == |s| then "" else "-") + Hyphenate(s[n..], false)
  }

  /**
   * What `Hyphenate` leaves: word characters and hyphens, ending in a word character, starting
   * as `s` does when `s` starts with one, with no hyphen at the start of the text and never two
   * hyphens in a row.
   */
  lemma HyphenateSpec(s: string, atStart: bool)
    ensures var r := Hyphenate(s, atStart);
      && (forall i :: 0 <= i < |r| ==> IsWordChar(r[i]) || r[i] == '-')
      && (r != [] ==> IsWordChar(r[|r| - 1]))
      && (s != [] && IsWordChar(s[0]) ==> r != [] && r[0] == s[0])
      && (r != [] && r[0] == '-' ==> !atStart)
      && (forall i :: 0 <= i < |r| - 1 && r[i] == '-' ==> r[i + 1] != '-')
  {
    HyphenateShape(s, atStart);
    HyphenateSingleHyphens(s, atStart);
    assert SingleHyphens(Hyphenate(s, atStart));
  }

  lemma {:induction false} HyphenateShape(s: string, atStart: bool)
    ensures var r := Hyphenate(s, atStart);
      && (forall i :: 0 <= i < |r| ==> IsWordChar(r[i]) || r[i] == '-')
      && (r != [] ==> IsWordChar(r[|r| - 1]))
      && (s != [] && IsWordChar(s[0]) ==> r != [] && r[0] == s[0])
      && (r != [] && r[0] == '-' ==> !atStart)
    decreases |s|
  {
    if s == [] {
    } else if IsWordChar(s[0]) {
      HyphenateShape(s[1..], false);
    } else {
      RunLengthSpec(s);
      HyphenateShape(s[RunLength(s)..], false);
    }
  }

  /** Never two hyphens in a row. */
  predicate SingleHyphens(r: string) {
    forall i :: 0 <= i < |r| - 1 && r[i] == '-' ==> r[i + 1] != '-'
  }

  lemma {:induction false} HyphenateSingleHyphens(s: string, atStart: bool)
    ensures SingleHyphens(Hyphenate(s, atStart))
    decreases |s|
  {
    if s == [] {
    } else if IsWordChar(s[0]) {
      var t := Hyphenate(s[1..], false);
      HyphenateSingleHyphens(s[1..], false);
      var r := Hyphenate(s, atStart);
      assert r == [s[0]] + t;
      forall i | 0 <= i < |r| - 1 && r[i] == '-' ensures r[i + 1] != '-' {
        assert r[i] == t[i - 1] && r[i + 1] == t[i];
      }
    } else {
      var n := RunLength(s);
      RunLengthSpec(s);
      var t := Hyphenate(s[n..], false);
      HyphenateSingleHyphens(s[n..], false);
      if !atStart && n < |s| {
        HyphenateShape(s[n..], false);
        assert s[n..][0] == s[n];
        var r := Hyphenate(s, atStart);
        assert r == "-" + t;
        forall i | 0 <= i < |r| - 1 && r[i] == '-' ensures r[i + 1] != '-' {
          if i > 0 {
            assert r[i] == t[i - 1] && r[i + 1] == t[i];
          }
        }
      }
    }
  }

  /** The heading slug of `text`. */
  function Slugify(text: string): (r: string)
    ensures forall i :: 0 <= i < |r| ==> IsSlugChar(r[i])
    ensures r != [] ==> r[0] != '-' && r[|r| - 1] != '-'
    ensures forall i :: 0 <= i < |r| - 1 && r[i] == '-' ==> r[i + 1] != '-'
  {
    HyphenateSpec(text, true);
    Lower(Hyphenate(text, true))
  }

  /** What a slug looks like: its alphabet, and hyphens only singly and between other characters. */
  predicate IsSlug(s: string) {
    && (forall i :: 0 <= i < |s| ==> IsSlugChar(s[i]))
    && (s != [] ==> s[0] != '-' && s[|s| - 1] != '-')
    && SingleHyphens(s)
  }

  /** The word characters of `s`, in order. */
  function Words(s: string): (r: string)
    ensures |r| <= |s|
  {
    if s == [] then [] else (if IsWordChar(s[0]) then [s[0]] else []) + Words(s[1..])
  }

  lemma {:induction false} WordsAppend(a: string, b: string)
    ensures Words(a + b) == Words(a) + Words(b)
  {
    if a != [] {
      assert (a + b)[1..] == a[1..] + b;
      WordsAppend(a[1..], b);
    } else {
      assert a + b == b;
    }
  }

  lemma {:induction false} WordsOfRun(s: string, n: nat)
    requires n <= |s|
    requires forall i :: 0 <= i < n ==> !IsWordChar(s[i])
    ensures Words(s) == Words(s[n..])
  {
    if n > 0 {
      assert s[1..][n - 1..] == s[n..];
      WordsOfRun(s[1..], n - 1);
    }
  }

  /** Replacing the non-word runs keeps every word character, in order. */
  lemma {:induction false} HyphenateKeepsWords(s: string, atStart: bool)
    ensures Words(Hyphenate(s, atStart)) == Words(s)
    decreases |s|
  {
    if s == [] {
    } else if IsWordChar(s[0]) {
      WordsAppend([s[0]], Hyphenate(s[1..], false));
      HyphenateKeepsWords(s[1..], false);
    } else {
      var n := RunLength(s);
      RunLengthSpec(s);
      var sep: string := if atStart || n == |s| then "" else "-";
      WordsAppend(sep, Hyphenate(s[n..], false));
      HyphenateKeepsWords(s[n..], false);
      WordsOfRun(s, n);
    }
  }

  lemma {:induction false} LowerWords(s: string)
    ensures Words(Lower(s)) == Lower(Words(s))
  {
    if s != [] {
      assert Lower(s)[1..] == Lower(s[1..]);
      LowerWords(s[1..]);
      assert IsWordChar(LowerChar(s[0])) <==> IsWordChar(s[0]);
    }
  }

  /**
   * A slug keeps exactly the word characters of the heading text, lower-cased and in order;
   * everything else it holds is separating hyphens.
   */
  lemma SlugifyKeepsWords(text: string)
    ensures Words(Slugify(text)) == Lower(Words(text))
  {
    HyphenateKeepsWords(text, true);
    LowerWords(Hyphenate(text, true));
  }

  /** Text with no word character at all has the empty slug. */
  lemma SlugifyOfNonWordText(text: string)
    requires forall i :: 0 <= i < |text| ==> !IsWordChar(text[i])
    ensures Slugify(text) == ""
  {
    SlugifyKeepsWords(text);
    WordsOfRun(text, |text|);
  }

  /** Text of word characters only keeps every character; upper-case letters are lowered. */
  lemma SlugifyOfWordText(w: string)
    requires AllWord(w)
    ensures Slugify(w) == Lower(w)
  {
    if w != [] {
      HyphenateWordFirst(w, [], true);
      assert w + [] == w;
    }
  }

  lemma {:induction false} HyphenateFixesSlugs(s: string, atStart: bool)
    requires forall i :: 0 <= i < |s| ==> IsWordChar(s[i]) || s[i] == '-'
    requires s != [] ==> s[|s| - 1] != '-'
    requires forall i :: 0 <= i < |s| - 1 && s[i] == '-' ==> s[i + 1] != '-'
    requires atStart && s != [] ==> s[0] != '-'
    ensures Hyphenate(s, atStart) == s
    decreases |s|
  {
    if s == [] {
    } else if IsWordChar(s[0]) {
      HyphenateFixesSlugs(s[1..], false);
    } else {
      assert |s| > 1 && IsWordChar(s[1]);
      assert RunLength(s) == 1;
      HyphenateFixesSlugs(s[1..], false);
    }
  }

  lemma {:induction false} LowerFixesSlugChars(s: string)
    requires forall i :: 0 <= i < |s| ==> IsSlugChar(s[i])
    ensures Lower(s) == s
  {
    if s != [] {
      LowerFixesSlugChars(s[1..]);
    }
  }

  /** A string that already is a slug is its own slug. */
  lemma SlugifyFixesSlugs(s: string)
    requires IsSlug(s)
    ensures Slugify(s) == s
  {
    HyphenateFixesSlugs(s, true);
    LowerFixesSlugChars(s);
  }

  /** Slugifying is idempotent. */
  lemma SlugifyIdempotent(text: string)
    ensures Slugify(Slugify(text)) == Slugify(text)
  {
    SlugifyFixesSlugs(Slugify(text));
  }

  /** Slugs collide: two different heading texts can share one slug. */
  lemma SlugifyNotInjective()
    ensures Slugify("Step 1!") == Slugify("Step 1?") == "step-1"
  {
    HyphenateTwoWords("Step", " ", "1", "!");
    HyphenateTwoWords("Step", " ", "1", "?");
    assert "Step" + " " + "1" + "!" == "Step 1!";
    assert "Step" + " " + "1" + "?" == "Step 1?";
    LowerStep1("Step" + "-" + "1");
  }

  lemma LowerStep1(s: string)
    requires s == "Step-1"
    ensures Lower(s) == "step-1"
  {
    var r := Lower(s);
    assert |r| == 6;
    forall i | 0 <= i < 6 ensures r[i] == "step-1"[i] {
      assert r[i] == LowerChar(s[i]);
    }
  }

  predicate AllWord(s: string) {
    forall i :: 0 <= i < |s| ==> IsWordChar(s[i])
  }

  predicate NoWord(s: string) {
    forall i :: 0 <= i < |s| ==> !IsWordChar(s[i])
  }

  /** Word characters at the front are copied as they are. */
  lemma {:induction false} HyphenateWordFirst(w: string, rest: string, atStart: bool)
    requires w != [] && AllWord(w)
    ensures Hyphenate(w + rest, atStart) == w + Hyphenate(rest, false)
    decreases |w|
  {
    assert (w + rest)[0] == w[0] && (w + rest)[1..] == w[1..] + rest;
    if |w| == 1 {
      assert w[1..] + rest == rest;
    } else {
      HyphenateWordFirst(w[1..], rest, false);
      assert w == [w[0]] + w[1..];
    }
  }

  /** A run of non-word characters before a word character, not at the start, becomes one `-`. */
  lemma HyphenateRunBeforeWord(m: string, rest: string)
    requires m != [] && NoWord(m) && rest != [] && IsWordChar(rest[0])
    ensures Hyphenate(m + rest, false) == "-" + Hyphenate(rest, false)
  {
    var s := m + rest;
    var n := RunLength(s);
    RunLengthSpec(s);
    assert s[|m|] == rest[0];
    assert forall i :: 0 <= i < |m| ==> s[i] == m[i];
    assert n == |m|;
    assert s[n..] == rest;
  }

  /** A run of non-word characters at the very end is deleted. */
  lemma HyphenateTrailingRun(m: string)
    requires m != [] && NoWord(m)
    ensures Hyphenate(m, false) == ""
  {
    var n := RunLength(m);
    RunLengthSpec(m);
    assert n == |m| && m[n..] == [];
  }

  /** Two words, each followed by a run of non-word characters, become the words joined by `-`. */
  lemma HyphenateTwoWords(a: string, m1: string, b: string, m2: string)
    requires a != [] && AllWord(a) && b != [] && AllWord(b)
    requires m1 != [] && NoWord(m1) && m2 != [] && NoWord(m2)
    ensures Hyphenate(a + m1 + b + m2, true) == a + "-" + b
  {
    assert a + m1 + b + m2 == a + (m1 + (b + m2));
    HyphenateWordFirst(a, m1 + (b + m2), true);
    assert (b + m2)[0] == b[0];
    HyphenateRunBeforeWord(m1, b + m2);
    HyphenateWordFirst(b, m2, false);
    HyphenateTrailingRun(m2);
    assert b + "" == b;
  }

  /** The run at the front of `x + y` is the run at the front of `x` when `x` holds a word character. */
  lemma RunLengthPrefix(x: string, y: string)
    requires RunLength(x) < |x|
    ensures RunLength(x + y) == RunLength(x)
  {
    var n, k := RunLength(x), RunLength(x + y);
    RunLengthSpec(x);
    RunLengthSpec(x + y);
    assert (x + y)[n] == x[n];
  }

  /** Text that ends in a word character is hyphenated independently of what follows it. */
  lemma {:induction false} HyphenateSplit(x: string, y: string, atStart: bool)
    requires x != [] && IsWordChar(x[|x| - 1])
    ensures Hyphenate(x + y, atStart) == Hyphenate(x, atStart) + Hyphenate(y, false)
    decreases |x|
  {
    if IsWordChar(x[0]) {
      if |x| > 1 {
        HyphenateSplit(x[1..], y, false);
      }
      SplitWordStep(x, y, atStart);
    } else {
      var n := RunLength(x);
      RunLengthSpec(x);
      SplitRunLength(x);
      HyphenateSplit(x[n..], y, false);
      SplitRunStep(x, y, atStart);
    }
  }

  /** `HyphenateSplit` over a leading word character, given the split of the rest. */
  lemma SplitWordStep(x: string, y: string, atStart: bool)
    requires x != [] && IsWordChar(x[0]) && IsWordChar(x[|x| - 1])
    requires |x| > 1 ==> Hyphenate(x[1..] + y, false) == Hyphenate(x[1..], false) + Hyphenate(y, false)
    ensures Hyphenate(x + y, atStart) == Hyphenate(x, atStart) + Hyphenate(y, false)
  {
    var c, hx, hy := [x[0]], Hyphenate(x[1..], false), Hyphenate(y, false);
    DropAppend(x, y, 1);
    WordUnfold(x + y, atStart);
    WordUnfold(x, atStart);
    if |x| == 1 {
      assert x[1..] == [];
      assert hx == [];
    }
    ConcatAssoc(c, hx, hy);
  }

  /** Inside text that ends in a word character, the leading run stops before the end. */
  lemma SplitRunLength(x: string)
    requires x != [] && IsWordChar(x[|x| - 1])
    ensures RunLength(x) < |x| && IsWordChar(x[RunLength(x)..][|x[RunLength(x)..]| - 1])
  {
    var n := RunLength(x);
    RunLengthSpec(x);
    assert n < |x|;
    assert x[n..][|x| - n - 1] == x[|x| - 1];
  }

  /** `HyphenateSplit` over a leading run of non-word characters, given the split of the rest. */
  lemma SplitRunStep(x: string, y: string, atStart: bool)
    requires x != [] && !IsWordChar(x[0]) && IsWordChar(x[|x| - 1])
    requires RunLength(x) < |x|
    requires var n := RunLength(x);
      Hyphenate(x[n..] + y, false) == Hyphenate(x[n..], false) + Hyphenate(y, false)
    ensures Hyphenate(x + y, atStart) == Hyphenate(x, atStart) + Hyphenate(y, false)
  {
    var n, c, hy := RunLength(x), if atStart then "" else "-", Hyphenate(y, false);
    RunLengthPrefix(x, y);
    DropAppend(x, y, n);
    RunUnfold(x + y, atStart);
    RunUnfold(x, atStart);
    var hx := Hyphenate(x[n..], false);
    ConcatAssoc(c, hx, hy);
  }

  /** A word character at the front is copied. */
  lemma WordUnfold(s: string, atStart: bool)
    requires s != [] && IsWordChar(s[0])
    ensures Hyphenate(s, atStart) == [s[0]] + Hyphenate(s[1..], false)
  {
  }

  lemma DropAppend(x: string, y: string, n: nat)
    requires n <= |x|
    ensures (x + y)[n..] == x[n..] + y
    ensures x != [] ==> (x + y)[0] == x[0]
  {
  }

  lemma ConcatAssoc(a: string, b: string, c: string)
    ensures a + (b + c) == (a + b) + c
  {
  }

  /** A leading run that stops before the end becomes `-`, or nothing at the start of the text. */
  lemma RunUnfold(s: string, atStart: bool)
    requires s != [] && !IsWordChar(s[0]) && RunLength(s) < |s|
    ensures Hyphenate(s, atStart) == (if atStart then "" else "-") + Hyphenate(s[RunLength(s)..], false)
  {
  }

  /** Text that starts with a word character is hyphenated the same wherever it starts. */
  lemma HyphenateWordStart(b: string, atStart: bool)
    requires b != [] && IsWordChar(b[0])
    ensures Hyphenate(b, atStart) == Hyphenate(b, false)
  {
  }

  lemma LowerAppend(x: string, y: string)
    ensures Lower(x + y) == Lower(x) + Lower(y)
  {
    var l, r := Lower(x + y), Lower(x) + Lower(y);
    forall i | 0 <= i < |l| ensures l[i] == r[i] {
      if i < |x| { assert (x + y)[i] == x[i]; } else { assert (x + y)[i] == y[i - |x|]; }
    }
  }

  /**
   * A run of non-word characters between two word characters becomes exactly one `-`, and the
   * slugs of the two sides are joined by it.
   */
  lemma SlugifyJoinsAtRun(a: string, m: string, b: string)
    requires a != [] && IsWordChar(a[|a| - 1])
    requires m != [] && NoWord(m)
    requires b != [] && IsWordChar(b[0])
    ensures Slugify(a + m + b) == Slugify(a) + "-" + Slugify(b)
  {
    var ha, hb := Hyphenate(a, true), Hyphenate(b, true);
    assert Hyphenate(a + m + b, true) == ha + "-" + hb by {
      assert a + m + b == a + (m + b);
      HyphenateSplit(a, m + b, true);
      HyphenateRunBeforeWord(m, b);
      HyphenateWordStart(b, true);
    }
    assert Lower(ha + "-" + hb) == Lower(ha) + "-" + Lower(hb) by {
      LowerAppend(ha + "-", hb);
      LowerAppend(ha, "-");
    }
  }

  /** A run of non-word characters at the start of the text vanishes. */
  lemma SlugifyDropsLeadingRun(m: string, b: string)
    requires m != [] && NoWord(m)
    requires b == [] || IsWordChar(b[0])
    ensures Slugify(m + b) == Slugify(b)
  {
    var s := m + b;
    var n := RunLength(s);
    RunLengthSpec(s);
    assert s[0] == m[0];
    if b == [] {
      assert s == m;
      HyphenateTrailingRun(m);
      assert Hyphenate(s, true) == Hyphenate(s, false);
    } else {
      assert s[|m|] == b[0];
      assert forall i :: 0 <= i < |m| ==> s[i] == m[i];
      assert n == |m|;
      assert s[n..] == b;
      HyphenateWordStart(b, true);
    }
  }

  /** A run of non-word characters at the end of the text vanishes. */
  lemma SlugifyDropsTrailingRun(a: string, m: string)
    requires a == [] || IsWordChar(a[|a| - 1])
    requires m != [] && NoWord(m)
    ensures Slugify(a + m) == Slugify(a)
  {
    if a == [] {
      assert a + m == m;
      SlugifyDropsLeadingRun(m, a);
      assert m + a == m;
    } else {
      HyphenateSplit(a, m, true);
      HyphenateTrailingRun(m);
      assert Hyphenate(a, true) + "" == Hyphenate(a, true);
    }
  }
}

