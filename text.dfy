/**
 * The Python string built-ins the governor relies on: `str.split`,
 * `str.strip`, `str.rfind`, `int()`, `float()` and `str()` on integers.
 * Strings are sequences of Unicode scalar values, as Python's `str` is.
 */
module Text {
  import opened Wrappers

  /** `str.isspace()` for one character: the Unicode white-space set Python uses. */
  predicate IsSpace(c: char) {
    || c == ' '
    || ('\t' <= c <= '\r')
    || ('\U{1C}' <= c <= '\U{1F}')
    || c == '\U{85}' || c == '\U{A0}' || c == '\U{1680}'
    || ('\U{2000}' <= c <= '\U{200A}')
    || c == '\U{2028}' || c == '\U{2029}' || c == '\U{202F}' || c == '\U{205F}' || c == '\U{3000}'
  }

  predicate IsDigit(c: char) { '0' <= c <= '9' }

  predicate NoSpace(s: string) { forall i :: 0 <= i < |s| ==> !IsSpace(s[i]) }

  predicate AllDigits(s: string) { forall i :: 0 <= i < |s| ==> IsDigit(s[i]) }

  predicate StartsWith(s: string, prefix: string) {
    |prefix| <= |s| && s[..|prefix|] == prefix
  }

  /** `pat` occurs in `s` at index `i`. */
  predicate OccursAt(s: string, pat: string, i: nat) {
    i + |pat| <= |s| && s[i..i + |pat|] == pat
  }

  // ---------------------------------------------------------------------
  // str.split(sep) with a one-character separator, and its inverse

  function Join(parts: seq<string>, sep: char): string
    requires |parts| >= 1
  {
    if |parts| == 1 then parts[0] else parts[0] + [sep] + Join(parts[1..], sep)
  }

  /** `s.split(sep)`: the pieces between separators, empty pieces included. */
  function SplitOn(s: string, sep: char): (parts: seq<string>)
    ensures |parts| >= 1
    ensures forall i :: 0 <= i < |parts| ==> sep !in parts[i]
    ensures Join(parts, sep) == s
  {
    if s == [] then [""]
    else if s[0] == sep then
      var rest := SplitOn(s[1..], sep);
      assert Join([""] + rest, sep) == [sep] + Join(rest, sep) by { assert ([""] + rest)[1..] == rest; }
      [""] + rest
    else
      var rest := SplitOn(s[1..], sep);
      var parts := [[s[0]] + rest[0]] + rest[1..];
      assert Join(parts, sep) == [s[0]] + Join(rest, sep) by {
        if |rest| > 1 { assert parts[1..] == rest[1..]; }
      }
      parts
  }


  /** Splitting a join of separator-free pieces gives the pieces back. */
  lemma {:induction false} SplitOnJoin(parts: seq<string>, sep: char)
    requires |parts| >= 1
    requires forall i :: 0 <= i < |parts| ==> sep !in parts[i]
    ensures SplitOn(Join(parts, sep), sep) == parts
    decreases |parts|
  {
    if |parts| == 1 {
      SplitOnPiece(parts[0], sep);
    } else {
      SplitOnJoin(parts[1..], sep);
      SplitOnPrefix(parts[0], Join(parts[1..], sep), sep);
      assert [parts[0]] + parts[1..] == parts;
    }
  }

  lemma {:induction false} SplitOnPiece(w: string, sep: char)
    requires sep !in w
    ensures SplitOn(w, sep) == [w]
    decreases |w|
  {
    if w != [] {
      SplitOnPiece(w[1..], sep);
      assert [w[0]] + w[1..] == w;
    }
  }

  lemma {:induction false} SplitOnPrefix(w: string, t: string, sep: char)
    requires sep !in w
    ensures SplitOn(w + [sep] + t, sep) == [w] + SplitOn(t, sep)
    decreases |w|
  {
    var s := w + [sep] + t;
    if w == [] {
      assert s[1..] == t;
    } else {
      assert s[1..] == w[1..] + [sep] + t;
      SplitOnPrefix(w[1..], t, sep);
      assert [w[0]] + w[1..] == w;
    }
  }

  // ---------------------------------------------------------------------
  // str.split() on runs of white space, with an optional maxsplit

  /** The first index at or after `i` that does not hold white space. */
  function SkipSpaces(s: string, i: nat): (j: nat)
    requires i <= |s|
    ensures i <= j <= |s|
    ensures forall k :: i <= k < j ==> IsSpace(s[k])
    ensures j < |s| ==> !IsSpace(s[j])
    decreases |s| - i
  {
    if i == |s| || !IsSpace(s[i]) then i else SkipSpaces(s, i + 1)
  }

  /** The first index at or after `i` that holds white space. */
  function SkipWord(s: string, i: nat): (j: nat)
    requires i <= |s|
    ensures i <= j <= |s|
    ensures forall k :: i <= k < j ==> !IsSpace(s[k])
    ensures j < |s| ==> IsSpace(s[j])
    decreases |s| - i
  {
    if i == |s| || IsSpace(s[i]) then i else SkipWord(s, i + 1)
  }

  /**
   * CPython's whitespace split from index `i` with `budget` splits left
   * (a negative budget is unlimited): skip white space, take a word, and
   * once the budget is spent take the rest of the string as one field,
   * trailing white space included.
   */
  function SplitWsFrom(s: string, i: nat, budget: int): seq<string>
    requires i <= |s|
    decreases |s| - i
  {
    var j := SkipSpaces(s, i);
    if j == |s| then []
    else if budget == 0 then [s[j..]]
    else
      var k := SkipWord(s, j);
      [s[j..k]] + SplitWsFrom(s, k, if budget < 0 then budget else budget - 1)
  }

  /** `s.split(maxsplit=m)`; `m < 0` is plain `s.split()`. */
  function SplitWs(s: string, maxsplit: int): seq<string> {
    SplitWsFrom(s, 0, maxsplit)
  }

  /**
   * Shape of a split of `s` with `b` splits allowed (negative: unlimited):
   * at most b + 1 fields, none empty and none starting with white space;
   * every field but the last is free of white space; when the budget is
   * exhausted the last field is a suffix of `s`, else it is a word too.
   */
  ghost predicate SplitShaped(r: seq<string>, s: string, b: int) {
    && (b >= 0 ==> |r| <= b + 1)
    && (forall k :: 0 <= k < |r| ==> |r[k]| > 0 && !IsSpace(r[k][0]))
    && (forall k :: 0 <= k < |r| - 1 ==> NoSpace(r[k]))
    && (b < 0 || |r| <= b ==> forall k :: 0 <= k < |r| ==> NoSpace(r[k]))
    && (b >= 0 && |r| == b + 1 ==> |r[b]| <= |s| && r[b] == s[|s| - |r[b]|..])
  }

  /** The shape of `s.split(maxsplit=m)`. */
  lemma SplitWsShape(s: string, m: int)
    ensures SplitShaped(SplitWs(s, m), s, m)
  {
    SplitWsFromShape(s, 0, m);
  }

  lemma {:induction false} SplitWsFromShape(s: string, i: nat, b: int)
    requires i <= |s|
    ensures SplitShaped(SplitWsFrom(s, i, b), s, b)
    decreases |s| - i
  {
    var j := SkipSpaces(s, i);
    if j < |s| && b != 0 {
      var k := SkipWord(s, j);
      var b' := if b < 0 then b else b - 1;
      SplitWsFromShape(s, k, b');
      assert SplitWsFrom(s, i, b) == [s[j..k]] + SplitWsFrom(s, k, b');
      ShapedCons(s[j..k], SplitWsFrom(s, k, b'), s, b);
    } else if j < |s| {
      var r := [s[j..]];
      assert SplitWsFrom(s, i, b) == r;
      assert r[0][0] == s[j] && |r[0]| == |s| - j;
    }
  }

  /** A word in front of a split with one split fewer. */
  lemma ShapedCons(w: string, rest: seq<string>, s: string, b: int)
    requires b != 0 && SplitShaped(rest, s, if b < 0 then b else b - 1)
    requires |w| > 0 && NoSpace(w)
    ensures SplitShaped([w] + rest, s, b)
  {
    var r := [w] + rest;
    assert forall t :: 1 <= t < |r| ==> r[t] == rest[t - 1];
    assert !IsSpace(w[0]);
  }

  /** A word that runs from `i` up to white space at `j`, or to the end, ends at `j`. */
  lemma {:induction false} SkipWordRun(s: string, i: nat, j: nat)
    requires i <= j <= |s| && (j < |s| ==> IsSpace(s[j]))
    requires forall k :: i <= k < j ==> !IsSpace(s[k])
    ensures SkipWord(s, i) == j
    decreases j - i
  {
    if i < j {
      SkipWordRun(s, i + 1, j);
    }
  }

  /** White space that runs from `i` up to a non-space at `j`, or to the end, ends at `j`. */
  lemma {:induction false} SkipSpacesRun(s: string, i: nat, j: nat)
    requires i <= j <= |s| && (j < |s| ==> !IsSpace(s[j]))
    requires forall k :: i <= k < j ==> IsSpace(s[k])
    ensures SkipSpaces(s, i) == j
    decreases j - i
  {
    if i < j {
      SkipSpacesRun(s, i + 1, j);
    }
  }

  /** A word `w` found at `i` and followed by white space or the end is skipped whole. */
  lemma WordAt(s: string, i: nat, w: string)
    requires i + |w| <= |s| && s[i..i + |w|] == w && NoSpace(w)
    requires i + |w| < |s| ==> IsSpace(s[i + |w|])
    ensures SkipWord(s, i) == i + |w|
  {
    forall k | i <= k < i + |w| ensures !IsSpace(s[k]) {
      assert s[k] == s[i..i + |w|][k - i];
    }
    SkipWordRun(s, i, i + |w|);
  }

  /**
   * White space from `i` to `j`, then a last word `w`, then nothing but
   * white space: splitting from `i` gives `[w]`.
   */
  lemma LastWordAt(s: string, i: nat, j: nat, w: string)
    requires i <= j && |w| > 0 && j + |w| <= |s| && s[j..j + |w|] == w && NoSpace(w)
    requires forall k :: i <= k < j ==> IsSpace(s[k])
    requires forall k :: j + |w| <= k < |s| ==> IsSpace(s[k])
    ensures SplitWsFrom(s, i, -1) == [w]
  {
    var n := j + |w|;
    assert SkipSpaces(s, i) == j by {
      assert s[j] == w[0];
      SkipSpacesRun(s, i, j);
    }
    WordAt(s, j, w);
    SkipSpacesRun(s, n, |s|);
    assert SplitWsFrom(s, n, -1) == [];
  }

  /**
   * Two words with one white-space character between them and only white
   * space after them split into exactly those two words.
   */
  lemma SplitTwoWords(a: string, sep: char, b: string, end: string)
    requires |a| > 0 && NoSpace(a) && IsSpace(sep) && |b| > 0 && NoSpace(b)
    requires forall k :: 0 <= k < |end| ==> IsSpace(end[k])
    ensures SplitWs(a + [sep] + b + end, -1) == [a, b]
  {
    var out := a + [sep] + b + end;
    var m := |a|;
    var n := m + 1 + |b|;
    assert out[0..m] == a && out[m] == sep && out[m + 1..n] == b;
    assert SplitWsFrom(out, 0, -1) == [a] + SplitWsFrom(out, m, -1) by {
      assert SkipSpaces(out, 0) == 0 by { assert out[0] == a[0]; }
      WordAt(out, 0, a);
    }
    assert SplitWsFrom(out, m, -1) == [b] by {
      forall k | n <= k < |out| ensures IsSpace(out[k]) { assert out[k] == end[k - n]; }
      LastWordAt(out, m, m + 1, b);
    }
  }

  predicate AllSpace(s: string) { forall i :: 0 <= i < |s| ==> IsSpace(s[i]) }

  /**
   * The text `gaps[0] + words[0] + gaps[1] + ... + words[n-1] + gaps[n]`:
   * words interleaved with runs of white space.
   */
  function Layout(gaps: seq<string>, words: seq<string>): string
    requires |gaps| == |words| + 1
    decreases |words|
  {
    if words == [] then gaps[0] else gaps[0] + words[0] + Layout(gaps[1..], words[1..])
  }

  /**
   * A well-formed layout: non-empty words without white space, gaps of
   * white space only, and at least one white-space character between two
   * words (the gaps before the first word and after the last may be empty).
   */
  predicate Spaced(gaps: seq<string>, words: seq<string>) {
    && |gaps| == |words| + 1
    && (forall i :: 0 <= i < |words| ==> |words[i]| > 0 && NoSpace(words[i]))
    && (forall i :: 0 <= i < |gaps| ==> AllSpace(gaps[i]))
    && (forall i :: 0 < i < |words| ==> |gaps[i]| > 0)
  }

  /**
   * `s.split()` of a laid-out text gives exactly its words; with
   * `maxsplit=m` below the number of words it gives the first `m` words and
   * then, as one field, the rest of the text from word `m` on, white space
   * included.
   */
  lemma SplitWsLayout(gaps: seq<string>, words: seq<string>, m: int)
    requires Spaced(gaps, words)
    ensures m < 0 || m >= |words| ==> SplitWs(Layout(gaps, words), m) == words
    ensures 0 <= m < |words| ==>
      SplitWs(Layout(gaps, words), m) == words[..m] + [words[m] + Layout(gaps[m + 1..], words[m + 1..])]
  {
    var s := Layout(gaps, words);
    assert s[0..] == s;
    SplitLayoutFrom(s, 0, gaps, words, m);
  }

  /**
   * The fields `SplitWsLayout` promises for a layout split with `maxsplit=b`:
   * all words, or the first `b` words and the rest of the text.
   */
  function LayoutFields(gaps: seq<string>, words: seq<string>, b: int): seq<string>
    requires |gaps| == |words| + 1
  {
    if b < 0 || b >= |words| then words
    else words[..b] + [words[b] + Layout(gaps[b + 1..], words[b + 1..])]
  }

  /** The step of `SplitWsLayout`: splitting from `i`, where the laid-out text begins. */
  lemma {:induction false} SplitLayoutFrom(s: string, i: nat, gaps: seq<string>, words: seq<string>, b: int)
    requires i <= |s| && Spaced(gaps, words) && s[i..] == Layout(gaps, words)
    ensures SplitWsFrom(s, i, b) == LayoutFields(gaps, words, b)
    decreases |words|, 1
  {
    if words == [] {
      assert AllSpace(gaps[0]);
      SplitAllSpace(s, i, b);
    } else if b == 0 {
      SplitLayoutLast(s, i, gaps, words);
    } else {
      SplitLayoutNext(s, i, gaps, words, b);
    }
  }

  /** With no split left, the rest of the text from the next word on is one field. */
  lemma SplitLayoutLast(s: string, i: nat, gaps: seq<string>, words: seq<string>)
    requires i <= |s| && Spaced(gaps, words) && s[i..] == Layout(gaps, words) && words != []
    ensures SplitWsFrom(s, i, 0) == LayoutFields(gaps, words, 0)
  {
    LayoutHead(s, i, gaps, words);
    SplitStep(s, i, i + |gaps[0]|, words[0], 0);
    assert LayoutFields(gaps, words, 0) == [words[0] + Layout(gaps[1..], words[1..])];
  }

  /** With a split left, the next word is a field and splitting goes on after it. */
  lemma {:induction false} SplitLayoutNext(s: string, i: nat, gaps: seq<string>, words: seq<string>, b: int)
    requires i <= |s| && Spaced(gaps, words) && s[i..] == Layout(gaps, words) && words != [] && b != 0
    ensures SplitWsFrom(s, i, b) == LayoutFields(gaps, words, b)
    decreases |words|, 0
  {
    var k := i + |gaps[0]| + |words[0]|;
    var b' := if b < 0 then b else b - 1;
    LayoutHead(s, i, gaps, words);
    SplitStep(s, i, i + |gaps[0]|, words[0], b);
    SpacedTail(gaps, words);
    SplitLayoutFrom(s, k, gaps[1..], words[1..], b');
    SplitCons(gaps, words, b);
  }

  /** Putting the first word in front of the fields of the rest of a layout. */
  lemma SplitCons(gaps: seq<string>, words: seq<string>, b: int)
    requires |gaps| == |words| + 1 && words != [] && b != 0
    ensures [words[0]] + LayoutFields(gaps[1..], words[1..], if b < 0 then b else b - 1)
         == LayoutFields(gaps, words, b)
  {
    var b' := if b < 0 then b else b - 1;
    if 0 <= b < |words| {
      assert words[1..][..b'] == words[1..b];
      assert words[1..][b'] == words[b];
      assert gaps[1..][b' + 1..] == gaps[b + 1..] && words[1..][b' + 1..] == words[b + 1..];
      assert [words[0]] + words[1..b] == words[..b];
    } else {
      assert [words[0]] + words[1..] == words;
    }
  }

  /** Splitting what is left of a text gives no fields once only white space is left. */
  lemma SplitAllSpace(s: string, i: nat, b: int)
    requires i <= |s| && AllSpace(s[i..])
    ensures SplitWsFrom(s, i, b) == []
  {
    assert s[i..i + |s[i..]|] == s[i..];
    SpacesAt(s, i, s[i..]);
  }

  /** One step of `SplitWsFrom`: the field found between `j` and `k`. */
  lemma SplitStep(s: string, i: nat, j: nat, w: string, b: int)
    requires i <= j && j + |w| <= |s| && |w| > 0 && SkipSpaces(s, i) == j && SkipWord(s, j) == j + |w|
    requires s[j..j + |w|] == w
    ensures b == 0 ==> SplitWsFrom(s, i, b) == [s[j..]]
    ensures b != 0 ==> SplitWsFrom(s, i, b) == [w] + SplitWsFrom(s, j + |w|, if b < 0 then b else b - 1)
  { }

  /** Where the first word of a laid-out text starts and ends. */
  lemma LayoutHead(s: string, i: nat, gaps: seq<string>, words: seq<string>)
    requires i <= |s| && Spaced(gaps, words) && s[i..] == Layout(gaps, words) && words != []
    ensures i + |gaps[0]| + |words[0]| <= |s|
    ensures SkipSpaces(s, i) == i + |gaps[0]|
    ensures s[i + |gaps[0]|..i + |gaps[0]| + |words[0]|] == words[0]
    ensures s[i + |gaps[0]|..] == words[0] + Layout(gaps[1..], words[1..])
    ensures s[i + |gaps[0]| + |words[0]|..] == Layout(gaps[1..], words[1..])
    ensures SkipWord(s, i + |gaps[0]|) == i + |gaps[0]| + |words[0]|
  {
    var g, w, rest := gaps[0], words[0], Layout(gaps[1..], words[1..]);
    assert |w| > 0 && NoSpace(w) && AllSpace(g);
    var j := i + |g|;
    var k := j + |w|;
    assert s[i..] == g + (w + rest);
    DropPrefix(s, i, g, w + rest);
    DropPrefix(s, j, w, rest);
    assert s[j] == s[j..k][0];
    SpacesAt(s, i, g);
    if k < |s| {
      assert s[k] == rest[0];
      if words[1..] == [] {
        assert rest == gaps[1] && AllSpace(gaps[1]);
      } else {
        assert |gaps[1]| > 0 && AllSpace(gaps[1]);
        assert rest[0] == gaps[1][0];
      }
    }
    WordAt(s, j, w);
  }

  lemma DropPrefix(s: string, i: nat, a: string, b: string)
    requires i <= |s| && s[i..] == a + b
    ensures i + |a| <= |s| && s[i..i + |a|] == a && s[i + |a|..] == b
  {
    assert s[i..i + |a|] == s[i..][..|a|];
    assert s[i + |a|..] == s[i..][|a|..];
  }

  /** A run `g` of white space found at `i` and followed by a non-space or the end is skipped whole. */
  lemma SpacesAt(s: string, i: nat, g: string)
    requires i + |g| <= |s| && s[i..i + |g|] == g && AllSpace(g)
    requires i + |g| < |s| ==> !IsSpace(s[i + |g|])
    ensures SkipSpaces(s, i) == i + |g|
  {
    forall k | i <= k < i + |g| ensures IsSpace(s[k]) {
      assert s[k] == s[i..i + |g|][k - i];
    }
    SkipSpacesRun(s, i, i + |g|);
  }

  lemma SpacedTail(gaps: seq<string>, words: seq<string>)
    requires Spaced(gaps, words) && words != []
    ensures Spaced(gaps[1..], words[1..])
  {
    forall t | 0 < t < |words[1..]| ensures |gaps[1..][t]| > 0 { assert gaps[1..][t] == gaps[t + 1]; }
  }

  /** `s.strip()`: remove white space at both ends. */
  function Strip(s: string): (r: string)
    ensures r == [] || (!IsSpace(r[0]) && !IsSpace(r[|r| - 1]))
    ensures exists i, j ::
      && 0 <= i <= j <= |s| && r == s[i..j]
      && (forall k :: 0 <= k < i ==> IsSpace(s[k]))
      && (forall k :: j <= k < |s| ==> IsSpace(s[k]))
    ensures NoSpace(s) ==> r == s
  {
    var i := SkipSpaces(s, 0);
    var r := StripEnd(s[i..]);
    assert r == s[i..i + |r|];
    assert forall k :: i + |r| <= k < |s| ==> s[k] == s[i..][k - i];
    r
  }

  function StripEnd(s: string): (r: string)
    ensures r == [] || !IsSpace(r[|r| - 1])
    ensures |r| <= |s| && r == s[..|r|]
    ensures forall k :: |r| <= k < |s| ==> IsSpace(s[k])
    ensures s == [] || !IsSpace(s[0]) ==> r == [] || !IsSpace(r[0])
    ensures NoSpace(s) ==> r == s
  {
    if s == [] || !IsSpace(s[|s| - 1]) then s else StripEnd(s[..|s| - 1])
  }

  /** The index of the last occurrence of `pat` in `s`, or -1: `s.rfind(pat)`. */
  function RFind(s: string, pat: string): (i: int)
    ensures -1 <= i <= |s|
    ensures i >= 0 ==> OccursAt(s, pat, i)
    ensures forall k :: i < k <= |s| ==> !OccursAt(s, pat, k)
  {
    RFindBelow(s, pat, |s|)
  }

  function RFindBelow(s: string, pat: string, n: nat): (i: int)
    requires n <= |s|
    ensures -1 <= i <= n
    ensures i >= 0 ==> OccursAt(s, pat, i)
    ensures forall k :: i < k <= n ==> !OccursAt(s, pat, k)
    decreases n
  {
    if OccursAt(s, pat, n) then n else if n == 0 then -1 else RFindBelow(s, pat, n - 1)
  }


  /** The index of the first occurrence of `pat` at or after `i`, or -1: `s.find(pat, i)`. */
  function FindFrom(s: string, pat: string, i: nat): (j: int)
    requires i <= |s|
    ensures j == -1 || (i <= j <= |s| && OccursAt(s, pat, j))
    ensures forall k :: i <= k <= |s| && (j == -1 || k < j) ==> !OccursAt(s, pat, k)
    decreases |s| - i
  {
    if OccursAt(s, pat, i) then i else if i == |s| then -1 else FindFrom(s, pat, i + 1)
  }

  // ---------------------------------------------------------------------
  // int(), str() on integers, float()

  function DigitValue(c: char): nat
    requires IsDigit(c)
  {
    (c as int - '0' as int) as nat
  }

  function Digit(d: nat): (c: char)
    requires d < 10
    ensures IsDigit(c) && DigitValue(c) == d
  {
    ('0' as int + d) as char
  }

  /** The value of a string of decimal digits, leading zeros allowed. */
  function DigitsValue(s: string): nat
    requires AllDigits(s)
    decreases |s|
  {
    if s == [] then 0 else DigitsValue(s[..|s| - 1]) * 10 + DigitValue(s[|s| - 1])
  }

  /** `str(n)` for a natural number: decimal digits without leading zeros. */
  function NatToString(n: nat): (s: string)
    ensures |s| >= 1 && AllDigits(s)
    ensures |s| > 1 ==> s[0] != '0'
    decreases n
  {
    if n < 10 then [Digit(n)] else NatToString(n / 10) + [Digit(n % 10)]
  }

  /** `str(n)` for an integer. */
  function IntToString(n: int): string {
    if n < 0 then "-" + NatToString(-n) else NatToString(n)
  }

  /** `int(s)` for text without surrounding white space: a sign, then ASCII digits. */
  function ParseInt(s: string): Option<int> {
    if |s| >= 2 && (s[0] == '-' || s[0] == '+') && AllDigits(s[1..]) then
      Some(if s[0] == '-' then -(DigitsValue(s[1..]) as int) else DigitsValue(s[1..]))
    else if |s| >= 1 && AllDigits(s) then Some(DigitsValue(s))
    else None
  }

  function Pow10(n: nat): (r: nat)
    ensures r >= 1
  {
    if n == 0 then 1 else 10 * Pow10(n - 1)
  }

  /** The value of an unsigned decimal `digits[.digits]`, `digits.` or `.digits`. */
  function UnsignedDecimal(s: string): Option<real> {
    var dot := if '.' in s then IndexOf(s, '.') else |s|;
    var whole := s[..dot];
    var frac := if dot < |s| then s[dot + 1..] else "";
    if AllDigits(whole) && AllDigits(frac) && |whole| + |frac| >= 1 then
      Some(DigitsValue(whole) as real + DigitsValue(frac) as real / Pow10(|frac|) as real)
    else None
  }

  /** `float(s)` for text without surrounding white space, as an exact decimal value. */
  function ParseDecimal(s: string): Option<real> {
    if |s| >= 1 && (s[0] == '-' || s[0] == '+') then
      match UnsignedDecimal(s[1..])
      case Some(v) => Some(if s[0] == '-' then -v else v)
      case None => None
    else UnsignedDecimal(s)
  }

  function IndexOf(s: string, c: char): (i: nat)
    requires c in s
    ensures i < |s| && s[i] == c && c !in s[..i]
  {
    if s[0] == c then 0 else 1 + IndexOf(s[1..], c)
  }

  /** `int(s)`: surrounding white space is ignored. */
  function Int(s: string): Option<int> {
    ParseInt(Strip(s))
  }

  /** `float(s)`: surrounding white space is ignored. */
  function Float(s: string): Option<real> {
    ParseDecimal(Strip(s))
  }

  lemma {:induction false} NatToStringDigits(n: nat)
    ensures DigitsValue(NatToString(n)) == n
    decreases n
  {
    var s := NatToString(n);
    if n >= 10 {
      NatToStringDigits(n / 10);
      assert s[..|s| - 1] == NatToString(n / 10);
    }
  }

  /** `int(str(n)) == n`; the text of `str(n)` holds no white space. */
  lemma IntRoundTrip(n: int)
    ensures NoSpace(IntToString(n))
    ensures ParseInt(IntToString(n)) == Some(n)
    ensures Int(IntToString(n)) == Some(n)
  {
    var s := IntToString(n);
    var digits := NatToString(if n < 0 then -n else n);
    NatToStringDigits(if n < 0 then -n else n);
    assert forall i :: 0 <= i < |digits| ==> !IsSpace(digits[i]) by {
      forall i | 0 <= i < |digits| ensures !IsSpace(digits[i]) {
        assert IsDigit(digits[i]);
      }
    }
    if n < 0 {
      assert s == "-" + digits;
      assert s[1..] == digits;
      assert NoSpace(s) by {
        forall i | 0 <= i < |s| ensures !IsSpace(s[i]) {
          if i > 0 { assert s[i] == digits[i - 1]; }
        }
      }
      assert Strip(s) == s;
      assert ParseInt(s) == Some(n);
    } else {
      assert s == digits;
      assert Strip(s) == s;
      assert s[0] != '-' && s[0] != '+' by { assert IsDigit(s[0]); }
      assert ParseInt(s) == Some(n);
    }
  }
}
