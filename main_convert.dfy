/** `convert_equation` of main.py: the power-operator rewrite followed by
    Python's `str.strip()`, which removes whitespace from both ends. Unlike
    the converter of equation_utils.py it adds no `math.` prefixes. */
module MainConvert {
  import opened Caret

  /** Python's `str.isspace` on one character: the ASCII blanks and
      separators U+0009..U+000D and U+001C..U+001F, the space, and the
      Unicode spaces and line and paragraph separators. */
  predicate IsSpace(ch: char) {
    ('\U{9}' <= ch <= '\U{D}') || ('\U{1C}' <= ch <= '\U{20}') ||
    ch == '\U{85}' || ch == '\U{A0}' || ch == '\U{1680}' ||
    ('\U{2000}' <= ch <= '\U{200A}') || ch == '\U{2028}' || ch == '\U{2029}' ||
    ch == '\U{202F}' || ch == '\U{205F}' || ch == '\U{3000}'
  }

  /** Every character of `s` is whitespace. */
  predicate AllSpace(s: string) {
    forall i :: 0 <= i < |s| ==> IsSpace(s[i])
  }

  /** `s` is empty or starts and ends with a character that is not
      whitespace: nothing is left for `strip` to remove. */
  predicate Trimmed(s: string) {
    s == [] || (!IsSpace(s[0]) && !IsSpace(s[|s| - 1]))
  }

  /** Python's `s.lstrip()`: the whitespace in front is dropped, and only
      that. */
  function StripLeading(s: string): (r: string)
    ensures |r| <= |s| && r == s[|s| - |r|..]
    ensures AllSpace(s[..|s| - |r|])
    ensures r == [] || !IsSpace(r[0])
  {
    if s != [] && IsSpace(s[0]) then
      var r := StripLeading(s[1..]);
      assert s[..|s| - |r|] == [s[0]] + s[1..][..|s| - 1 - |r|];
      r
    else s
  }

  /** Python's `s.rstrip()`: the whitespace at the end is dropped, and only
      that. */
  function StripTrailing(s: string): (r: string)
    ensures |r| <= |s| && r == s[..|r|]
    ensures AllSpace(s[|r|..])
    ensures r == [] || !IsSpace(r[|r| - 1])
  {
    if s != [] && IsSpace(s[|s| - 1]) then
      var r := StripTrailing(s[..|s| - 1]);
      assert s[|r|..] == s[..|s| - 1][|r|..] + [s[|s| - 1]];
      r
    else s
  }

  /** Python's `s.strip()`. */
  function Strip(s: string): (r: string)
  {
    StripTrailing(StripLeading(s))
  }

  /** main.py's converter: `^` becomes `**`, then surrounding whitespace is
      stripped. */
  function ConvertEquation(s: string): (r: string)
    ensures '^' !in r
    ensures Trimmed(r)
  {
    var powered := ReplaceCaret(s);
    StripIsSlice(powered);
    StripTrimmed(powered);
    Strip(powered)
  }

  // ---------------------------------------------------------------------
  // Properties of strip

  /** `strip` returns a slice of its input with only whitespace cut off on
      either side. */
  lemma StripIsSlice(s: string)
    ensures exists i, j :: (0 <= i <= j <= |s| && Strip(s) == s[i..j] &&
      AllSpace(s[..i]) && AllSpace(s[j..]))
  {
    var l := StripLeading(s);
    var i := |s| - |l|;
    var j := i + |StripTrailing(l)|;
    assert l == s[i..];
    assert StripTrailing(l) == s[i..j];
    assert l[|StripTrailing(l)|..] == s[j..];
  }

  /** What `strip` leaves starts and ends with non-whitespace. */
  lemma StripTrimmed(s: string)
    ensures Trimmed(Strip(s))
  {
    var l := StripLeading(s);
    var r := StripTrailing(l);
    if r != [] {
      assert r[0] == l[0];
    }
  }

  /** Whitespace in front is skipped whatever follows it. */
  lemma {:induction false} StripLeadingSkips(p: string, s: string)
    requires AllSpace(p)
    ensures StripLeading(p + s) == StripLeading(s)
  {
    if p != [] {
      assert IsSpace(p[0]);
      assert (p + s)[1..] == p[1..] + s;
      StripLeadingSkips(p[1..], s);
    } else {
      assert p + s == s;
    }
  }

  /** Once a non-whitespace character is reached, the rest is kept. */
  lemma {:induction false} StripLeadingKeeps(s: string, q: string)
    requires StripLeading(s) != []
    ensures StripLeading(s + q) == StripLeading(s) + q
  {
    if IsSpace(s[0]) {
      assert (s + q)[1..] == s[1..] + q;
      StripLeadingKeeps(s[1..], q);
    }
  }

  /** Whitespace at the end is skipped whatever precedes it. */
  lemma {:induction false} StripTrailingSkips(s: string, q: string)
    requires AllSpace(q)
    ensures StripTrailing(s + q) == StripTrailing(s)
    decreases |q|
  {
    if q != [] {
      var n := |q| - 1;
      assert IsSpace(q[n]);
      assert (s + q)[..|s + q| - 1] == s + q[..n];
      StripTrailingSkips(s, q[..n]);
    } else {
      assert s + q == s;
    }
  }

  /** Text made only of whitespace strips to nothing. */
  lemma {:induction false} StripLeadingAllSpace(s: string)
    requires AllSpace(s)
    ensures StripLeading(s) == []
  {
    if s != [] {
      assert IsSpace(s[0]);
      StripLeadingAllSpace(s[1..]);
    }
  }

  /** Whitespace around the text does not change what `strip` returns. */
  lemma StripIgnoresSurrounding(p: string, s: string, q: string)
    requires AllSpace(p) && AllSpace(q)
    ensures Strip(p + s + q) == Strip(s)
  {
    AppendAssoc(p, s, q);
    StripLeadingSkips(p, s + q);
    if StripLeading(s) == [] {
      var l := StripLeading(s);
      assert AllSpace(s) by {
        assert s[..|s| - |l|] == s;
      }
      StripLeadingAllSpace(s + q);
    } else {
      StripLeadingKeeps(s, q);
      StripTrailingSkips(StripLeading(s), q);
    }
  }

  /** Text with nothing to cut off is returned unchanged. */
  lemma StripTrimmedIdentity(s: string)
    requires Trimmed(s)
    ensures Strip(s) == s
  {
  }

  /** The slice of StripIsSlice is the only one: cutting whitespace off
      either side so that nothing is left to cut gives exactly `strip`. */
  lemma StripUnique(s: string, i: nat, j: nat)
    requires i <= j <= |s| && AllSpace(s[..i]) && AllSpace(s[j..]) && Trimmed(s[i..j])
    ensures Strip(s) == s[i..j]
  {
    assert s == s[..i] + s[i..j] + s[j..];
    StripIgnoresSurrounding(s[..i], s[i..j], s[j..]);
    StripTrimmedIdentity(s[i..j]);
  }

  /** `strip` is idempotent. */
  lemma StripIdempotent(s: string)
    ensures Strip(Strip(s)) == Strip(s)
  {
    StripTrimmed(s);
    StripTrimmedIdentity(Strip(s));
  }

  // ---------------------------------------------------------------------
  // Properties of the converter

  /** An equation without a caret and without surrounding whitespace comes
      out unchanged. */
  lemma ConvertIdentity(s: string)
    requires '^' !in s && Trimmed(s)
    ensures ConvertEquation(s) == s
  {
    ReplaceCaretIdentity(s);
    StripTrimmedIdentity(s);
  }

  /** Converting twice gives what converting once gives. */
  lemma ConvertIdempotent(s: string)
    ensures ConvertEquation(ConvertEquation(s)) == ConvertEquation(s)
  {
    ConvertIdentity(ConvertEquation(s));
  }

  /** Surrounding whitespace is dropped whatever it is. */
  lemma ConvertIgnoresSurrounding(p: string, s: string, q: string)
    requires AllSpace(p) && AllSpace(q)
    ensures ConvertEquation(p + s + q) == ConvertEquation(s)
  {
    ReplaceCaretConcat(p + s, q);
    ReplaceCaretConcat(p, s);
    ReplaceCaretSpaces(p);
    ReplaceCaretSpaces(q);
    StripIgnoresSurrounding(p, ReplaceCaret(s), q);
  }

  /** Whitespace has no caret, so the rewrite keeps it. */
  lemma {:induction false} ReplaceCaretSpaces(s: string)
    requires AllSpace(s)
    ensures ReplaceCaret(s) == s
  {
    if s != [] {
      assert IsSpace(s[0]);
      ReplaceCaretSpaces(s[1..]);
    }
  }

  /** The rewrite of a non-empty text starts with its first character, or
      with `*` when that is a caret. */
  lemma ReplaceCaretFirst(x: string)
    requires x != []
    ensures ReplaceCaret(x) != []
    ensures ReplaceCaret(x)[0] == if x[0] == '^' then '*' else x[0]
  {
  }

  /** The rewrite of a non-empty text ends with its last character, or with
      `*` when that is a caret. */
  lemma ReplaceCaretLast(y: string)
    requires y != []
    ensures ReplaceCaret(y) != []
    ensures ReplaceCaret(y)[|ReplaceCaret(y)| - 1] ==
      if y[|y| - 1] == '^' then '*' else y[|y| - 1]
  {
    var n := |y| - 1;
    assert y[..n] + [y[n]] == y;
    ReplaceCaretConcat(y[..n], [y[n]]);
  }

  /** Text that starts and ends with non-whitespace is trimmed whatever
      lies between. */
  lemma TrimmedJoin(a: string, m: string, b: string)
    requires a != [] && !IsSpace(a[0]) && b != [] && !IsSpace(b[|b| - 1])
    ensures Trimmed(a + m + b)
  {
    assert (a + m + b)[0] == a[0];
    assert (a + m + b)[|a + m + b| - 1] == b[|b| - 1];
  }

  /** Once the rewrite leaves nothing to strip, the converter returns the
      rewrite itself. */
  lemma ConvertTrimmed(s: string)
    requires Trimmed(ReplaceCaret(s))
    ensures ConvertEquation(s) == ReplaceCaret(s)
  {
    StripTrimmedIdentity(ReplaceCaret(s));
  }

  /** The rewritten halves joined by `**` leave nothing to strip when the
      halves themselves start and end with non-whitespace. */
  lemma PowerTrimmed(x: string, y: string)
    requires x != [] && !IsSpace(x[0]) && y != [] && !IsSpace(y[|y| - 1])
    ensures Trimmed(ReplaceCaret(x) + "**" + ReplaceCaret(y))
  {
    ReplaceCaretFirst(x);
    ReplaceCaretLast(y);
    TrimmedJoin(ReplaceCaret(x), "**", ReplaceCaret(y));
  }

  /** Inside trimmed text each caret becomes `**` in place. */
  lemma ConvertPower(x: string, y: string)
    requires x != [] && !IsSpace(x[0]) && y != [] && !IsSpace(y[|y| - 1])
    ensures ConvertEquation(x + "^" + y) == ReplaceCaret(x) + "**" + ReplaceCaret(y)
  {
    CaretBecomesPower(x, y);
    PowerTrimmed(x, y);
    ConvertTrimmed(x + "^" + y);
  }

  /** The form's default equation `x^3 - x - 2` becomes `x**3 - x - 2`. */
  lemma FormEquation()
    ensures ConvertEquation("x^3 - x - 2") == "x**3 - x - 2"
  {
    var x, y := "x", "3 - x - 2";
    FormEquationParts(x, y);
    ReplaceCaretIdentity(x);
    ReplaceCaretIdentity(y);
    ConvertPower(x, y);
    FormEquationText(x, y);
  }

  /** The pieces of the default equation around its caret. */
  lemma FormEquationParts(x: string, y: string)
    requires x == "x" && y == "3 - x - 2"
    ensures x != [] && !IsSpace(x[0]) && y != [] && !IsSpace(y[|y| - 1])
    ensures '^' !in x && '^' !in y
    ensures "x^3 - x - 2" == x + "^" + y
  {
  }

  lemma FormEquationText(x: string, y: string)
    requires x == "x" && y == "3 - x - 2"
    ensures x + "**" + y == "x**3 - x - 2"
  {
  }
}
