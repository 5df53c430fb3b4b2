/** `convert_equation` of equation_utils.py: a chain of rewrites over the
    equation text, each scanning left to right for non-overlapping matches
    as Python's `re.sub` does:
      1. `^` becomes `**`;
      2. `sqrt(E)` and then `√(E)` become `math.sqrt(E)`, where E is a
         non-empty run of characters other than `)`;
      3. each of sin, cos, tan, exp, log, sqrt standing as a whole word
         (between `\b` word boundaries) gets the prefix `math.`.
    Step 3 also meets the `sqrt` that step 2 wrote, so square roots come out
    as `math.math.sqrt(E)`. */
module EquationUtils {
  import opened Caret

  datatype Option<T> = None | Some(value: T)

  /** The square-root sign U+221A. */
  const RootSign: char := '\U{221A}'

  /** The names step 3 prefixes, in the order it prefixes them. */
  const MathNames: seq<string> := ["sin", "cos", "tan", "exp", "log", "sqrt"]

  /** Python's `\w`, restricted to ASCII: letters, digits and underscore. */
  predicate IsWordChar(ch: char) {
    'a' <= ch <= 'z' || 'A' <= ch <= 'Z' || '0' <= ch <= '9' || ch == '_'
  }

  /** A non-empty run of word characters, such as the names in MathNames. */
  predicate IsName(w: string) {
    w != [] && forall i :: 0 <= i < |w| ==> IsWordChar(w[i])
  }

  /** The text after the first k characters, where a scan resumes after a
      match. */
  function Drop(s: string, k: nat): (r: string)
    requires k <= |s|
    ensures |r| == |s| - k
  {
    s[k..]
  }

  // ---------------------------------------------------------------------
  // Step 2: `re.sub(head + r"\(([^)]+)\)", r"math.sqrt(\1)", s)`

  /** How much of `s` the class `[^)]` can consume: the length of its longest
      prefix without a closing parenthesis. */
  function ArgRun(s: string): (n: nat)
    ensures n <= |s|
  {
    if s == [] || s[0] == ')' then 0 else 1 + ArgRun(s[1..])
  }

  /** The run holds no `)` and stops only at a `)` or at the end. */
  lemma {:induction false} ArgRunStops(s: string)
    ensures forall i :: 0 <= i < ArgRun(s) ==> s[i] != ')'
    ensures ArgRun(s) < |s| ==> s[ArgRun(s)] == ')'
  {
    if s != [] && s[0] != ')' {
      ArgRunStops(s[1..]);
      assert forall i :: 1 <= i < ArgRun(s) ==> s[i] == s[1..][i - 1];
    }
  }

  /** `s` begins with a match of `head\(([^)]+)\)` whose group has length n. */
  predicate CallMatch(s: string, head: string, n: nat) {
    0 < n && |head| + n + 2 <= |s| && s[..|head| + 1] == head + "(" &&
    (forall i :: |head| + 1 <= i < |head| + 1 + n ==> s[i] != ')') &&
    s[|head| + 1 + n] == ')'
  }

  /** The regex tried at the start of `s`: the length of the group when it
      matches there, and None when no match starts there. */
  function CallAt(s: string, head: string): (r: Option<nat>)
    ensures r.Some? ==> 0 < r.value && |head| + r.value + 2 <= |s|
  {
    if |head| + 1 <= |s| && s[..|head| + 1] == head + "(" then
      var n := ArgRun(s[|head| + 1..]);
      if 0 < n && |head| + 1 + n < |s| then Some(n)
      else None
    else None
  }

  /** CallAt finds a match exactly when one starts at the front of `s`, and
      then reports the length of its group. */
  lemma CallAtMatches(s: string, head: string)
    ensures CallAt(s, head).Some? ==> CallMatch(s, head, CallAt(s, head).value)
    ensures CallAt(s, head).None? ==> forall n :: !CallMatch(s, head, n)
  {
    var k := |head| + 1;
    if k <= |s| {
      ArgRunStops(s[k..]);
      assert forall i :: k <= i < |s| ==> s[i] == s[k..][i - k];
    }
  }

  /** Step 2 with one pattern head: scanning from the left, each match
      `head(E)` becomes `math.sqrt(E)` and the scan resumes after it; where
      no match starts, one character is kept and the scan moves on. */
  function RewriteCalls(s: string, head: string): string
    decreases |s|, 1
  {
    if s == [] then []
    else match CallAt(s, head)
      case Some(n) => Rewritten(s, head, n)
      case None => [s[0]] + RewriteCalls(s[1..], head)
  }

  /** The scan at a match whose group has length n: the match becomes
      `math.sqrt(E)` and the scan resumes after its `)`. */
  function Rewritten(s: string, head: string, n: nat): string
    requires |head| + n + 2 <= |s|
    decreases |s|, 0
  {
    "math.sqrt(" + s[|head| + 1..|head| + 1 + n] + ")" + RewriteCalls(Drop(s, |head| + n + 2), head)
  }

  // ---------------------------------------------------------------------
  // Step 3: `re.sub(rf"\b{w}\b", f"math.{w}", s)` for one name w

  /** `s` begins with the name w, not followed by a word character: the
      match of `w\b` once the `\b` before it holds. */
  predicate NameAt(s: string, w: string) {
    |w| <= |s| && s[..|w|] == w && (|s| == |w| || !IsWordChar(s[|w|]))
  }

  /** Step 3 for one name. `afterWord` says whether the character before `s`
      is a word character; the `\b` before w holds exactly when it is not,
      since w starts with a word character. */
  function PrefixName(s: string, w: string, afterWord: bool): string
    requires IsName(w)
    decreases |s|, 1
  {
    if s == [] then []
    else if !afterWord && NameAt(s, w) then Prefixed(s, w)
    else [s[0]] + PrefixName(s[1..], w, IsWordChar(s[0]))
  }

  /** The scan at a match of w: the name gets its prefix and the scan
      resumes after it, where a word character (the end of w) precedes. */
  function Prefixed(s: string, w: string): string
    requires IsName(w) && |w| <= |s|
    decreases |s|, 0
  {
    "math." + w + PrefixName(Drop(s, |w|), w, true)
  }

  /** The loop over the names: each pass rewrites the output of the one
      before it. */
  function PrefixNames(s: string, names: seq<string>): string
    requires forall i :: 0 <= i < |names| ==> IsName(names[i])
    decreases |names|
  {
    if names == [] then s
    else PrefixNames(PrefixName(s, names[0], false), names[1..])
  }

  predicate MathNamesValid() {
    forall i :: 0 <= i < |MathNames| ==> IsName(MathNames[i])
  }

  lemma MathNamesAreNames()
    ensures MathNamesValid()
  {
  }

  /** The whole conversion. It adds only characters of `math.sqrt()`, so
      the caret that step 1 removed never comes back. */
  function ConvertEquation(s: string): (r: string)
    ensures '^' !in r
  {
    var powered := ReplaceCaret(s);
    var sqrts := RewriteCalls(powered, "sqrt");
    var rooted := RewriteCalls(sqrts, [RootSign]);
    MathNamesAreNames();
    RewriteCallsAbsent(powered, "sqrt", '^');
    RewriteCallsAbsent(sqrts, [RootSign], '^');
    PrefixNamesAbsent(rooted, MathNames, '^');
    PrefixNames(rooted, MathNames)
  }

  // ---------------------------------------------------------------------
  // Step 2 properties

  /** Step 2 adds only characters of `math.sqrt()`: any other character
      missing from the input is missing from the output. */
  lemma {:induction false} RewriteCallsAbsent(s: string, head: string, c: char)
    requires c !in s && c !in "math.sqrt()"
    ensures c !in RewriteCalls(s, head)
    decreases |s|
  {
    if s != [] {
      match CallAt(s, head)
      case Some(n) =>
        RewriteCallsUnfold(s, head, n);
        assert c !in s[|head| + 1..|head| + 1 + n];
        RewriteCallsAbsent(Drop(s, |head| + n + 2), head, c);
      case None =>
        RewriteCallsAbsent(s[1..], head, c);
    }
  }

  /** A match `head(E)` at the front, with E non-empty and free of `)`, is
      rewritten to `math.sqrt(E)`, and the scan resumes after its `)`.
      Nothing is asked of the text before `head`, so `mysqrt(x)` is hit. */
  lemma RewriteCallsMatch(head: string, e: string, rest: string)
    requires e != [] && ')' !in e
    ensures RewriteCalls(head + "(" + e + ")" + rest, head) ==
            "math.sqrt(" + e + ")" + RewriteCalls(rest, head)
  {
    CallAtFront(head, e, rest);
    RewriteCallsUnfold(head + "(" + e + ")" + rest, head, |e|);
  }

  /** The pattern matches `head(E)` at the front, with group E, and what
      follows the match is the rest. */
  lemma CallAtFront(head: string, e: string, rest: string)
    requires e != [] && ')' !in e
    ensures CallAt(head + "(" + e + ")" + rest, head) == Some(|e|)
    ensures (head + "(" + e + ")" + rest)[|head| + 1..|head| + 1 + |e|] == e
    ensures Drop(head + "(" + e + ")" + rest, |head| + |e| + 2) == rest
  {
    var s := head + "(" + e + ")" + rest;
    var k := |head| + 1;
    assert s[..k] == head + "(";
    assert s[k..k + |e|] == e;
    assert s[k + |e|] == ')';
    ArgRunStops(s[k..]);
    assert s[k..][|e|] == ')';
    assert forall i :: 0 <= i < |e| ==> s[k..][i] == e[i];
    assert s[|head| + |e| + 2..] == rest;
  }

  /** Where the pattern matches at no position, step 2 changes nothing:
      in particular `sqrt()` and a `√` not followed by `(E)` are kept. */
  lemma {:induction false} RewriteCallsIdentity(s: string, head: string)
    requires forall i, n :: 0 <= i <= |s| ==> !CallMatch(s[i..], head, n)
    ensures RewriteCalls(s, head) == s
    decreases |s|
  {
    if s != [] {
      assert s[0..] == s;
      CallAtMatches(s, head);
      assert CallAt(s, head).None?;
      forall i, n | 0 <= i <= |s[1..]| ensures !CallMatch(s[1..][i..], head, n) {
        assert s[1..][i..] == s[1 + i..];
      }
      RewriteCallsIdentity(s[1..], head);
    }
  }

  /** A character that cannot start the pattern passes through in front. */
  lemma RewriteCallsCons(c: char, s: string, head: string)
    requires head != [] && c != head[0]
    ensures RewriteCalls([c] + s, head) == [c] + RewriteCalls(s, head)
  {
    var t := [c] + s;
    assert t[1..] == s;
    if |head| + 1 <= |t| {
      assert t[..|head| + 1][0] == c;
    }
  }

  /** The `[^)]` run of a string with one more character, not `)`, at its
      end: unchanged if it stopped at a `)`, one longer if it reached the end. */
  lemma {:induction false} ArgRunSnoc(t: string, c: char)
    requires c != ')'
    ensures ArgRun(t + [c]) == if ArgRun(t) < |t| then ArgRun(t) else |t| + 1
  {
    if t != [] {
      assert (t + [c])[1..] == t[1..] + [c];
      ArgRunSnoc(t[1..], c);
    }
  }

  /** Appending a character other than `)` decides no match differently:
      every match ends at a `)` already in the string. */
  lemma CallAtSnoc(s: string, c: char, head: string)
    requires c != ')'
    ensures CallAt(s + [c], head) == CallAt(s, head)
  {
    var k := |head| + 1;
    var u := s + [c];
    if k <= |s| {
      assert u[..k] == s[..k];
      assert u[k..] == s[k..] + [c];
      ArgRunSnoc(s[k..], c);
    } else if k == |u| {
      assert u[k..] == [];
    }
  }

  /** Text holding no first character of the pattern passes through in
      front. */
  lemma {:induction false} RewriteCallsSkip(pre: string, s: string, head: string)
    requires head != [] && head[0] !in pre
    ensures RewriteCalls(pre + s, head) == pre + RewriteCalls(s, head)
  {
    if pre != [] {
      assert pre + s == [pre[0]] + (pre[1..] + s);
      RewriteCallsCons(pre[0], pre[1..] + s, head);
      RewriteCallsSkip(pre[1..], s, head);
      assert pre == [pre[0]] + pre[1..];
    } else {
      assert pre + s == s;
    }
  }

  /** Text holding no first character of the pattern is kept whole. */
  lemma RewriteCallsNoHead(s: string, head: string)
    requires head != [] && head[0] !in s
    ensures RewriteCalls(s, head) == s
  {
    RewriteCallsSkip(s, [], head);
    assert s + [] == s;
  }

  /** Text without an open parenthesis is kept whole. */
  lemma RewriteCallsNoOpen(s: string, head: string)
    requires '(' !in s
    ensures RewriteCalls(s, head) == s
  {
    forall i, n | 0 <= i <= |s| ensures !CallMatch(s[i..], head, n) {
      if |head| + 1 <= |s| - i {
        assert s[i..][..|head| + 1][|head|] == s[i + |head|];
      }
    }
    RewriteCallsIdentity(s, head);
  }

  /** Where no match starts, the first character is kept. */
  lemma RewriteCallsKeep(c: char, s: string, head: string)
    requires CallAt([c] + s, head).None?
    ensures RewriteCalls([c] + s, head) == [c] + RewriteCalls(s, head)
  {
    assert ([c] + s)[1..] == s;
  }

  /** A character other than `)` appended to the input is appended to the
      output. */
  lemma {:induction false} RewriteCallsSnoc(s: string, c: char, head: string)
    requires c != ')'
    ensures RewriteCalls(s + [c], head) == RewriteCalls(s, head) + [c]
    decreases |s|
  {
    var u := s + [c];
    CallAtSnoc(s, c, head);
    if s == [] {
      assert u[1..] == [];
    } else if CallAt(s, head).Some? {
      var n := CallAt(s, head).value;
      RewriteCallsSnoc(Drop(s, |head| + n + 2), c, head);
      RewriteCallsSnocMatch(s, c, head, n);
    } else {
      assert u[1..] == s[1..] + [c];
      RewriteCallsSnoc(s[1..], c, head);
    }
  }

  /** The match case of RewriteCallsSnoc: the rewritten call is the same,
      and the appended character lands in the text after it. */
  lemma RewriteCallsSnocMatch(s: string, c: char, head: string, n: nat)
    requires c != ')' && CallAt(s, head) == Some(n)
    requires |head| + n + 2 <= |s|
    requires RewriteCalls(Drop(s, |head| + n + 2) + [c], head) == RewriteCalls(Drop(s, |head| + n + 2), head) + [c]
    ensures RewriteCalls(s + [c], head) == RewriteCalls(s, head) + [c]
  {
    var u := s + [c];
    CallAtSnoc(s, c, head);
    var arg := s[|head| + 1..|head| + 1 + n];
    assert u[|head| + 1..|head| + 1 + n] == arg;
    assert Drop(u, |head| + n + 2) == Drop(s, |head| + n + 2) + [c];
    RewriteCallsUnfold(u, head, n);
    RewriteCallsUnfold(s, head, n);
  }

  /** One step of the scan at a match. */
  lemma RewriteCallsUnfold(s: string, head: string, n: nat)
    requires CallAt(s, head) == Some(n)
    ensures |head| + n + 2 <= |s|
    ensures RewriteCalls(s, head) ==
            "math.sqrt(" + s[|head| + 1..|head| + 1 + n] + ")" + RewriteCalls(Drop(s, |head| + n + 2), head)
  {
    assert s != [];
    assert RewriteCalls(s, head) == Rewritten(s, head, n);
  }

  // ---------------------------------------------------------------------
  // Step 3 properties

  /** One step of the scan at a match of w. */
  lemma PrefixNameUnfoldMatch(s: string, w: string)
    requires IsName(w) && NameAt(s, w)
    ensures |w| <= |s|
    ensures PrefixName(s, w, false) == "math." + w + PrefixName(Drop(s, |w|), w, true)
  {
    assert s != [];
    assert PrefixName(s, w, false) == Prefixed(s, w);
  }

  /** One step of the scan where no match of w starts: the first character
      is kept. */
  lemma PrefixNameUnfoldSkip(s: string, w: string, afterWord: bool)
    requires IsName(w) && s != [] && (afterWord || !NameAt(s, w))
    ensures PrefixName(s, w, afterWord) == [s[0]] + PrefixName(s[1..], w, IsWordChar(s[0]))
  {
  }

  /** A bare occurrence of w at the front, followed by a non-word character
      or by nothing, gets the prefix `math.`. */
  lemma PrefixNameMatch(w: string, rest: string)
    requires IsName(w) && (rest == [] || !IsWordChar(rest[0]))
    ensures PrefixName(w + rest, w, false) == "math." + w + PrefixName(rest, w, true)
  {
    var s := w + rest;
    assert s[..|w|] == w && s[|w|..] == rest;
    assert |s| == |w| || s[|w|] == rest[0];
  }

  /** A non-word character passes through in front, and the character after
      it starts at a word boundary. */
  lemma PrefixNameCons(c: char, s: string, w: string, afterWord: bool)
    requires IsName(w) && !IsWordChar(c)
    ensures PrefixName([c] + s, w, afterWord) == [c] + PrefixName(s, w, false)
  {
    var t := [c] + s;
    assert t[1..] == s;
    if |w| <= |t| {
      assert t[..|w|][0] == c;
    }
  }

  /** A non-word character appended to the input is appended to the output:
      it can only confirm a `\b` that the end of the text confirmed already. */
  lemma {:induction false} PrefixNameSnoc(s: string, c: char, w: string, afterWord: bool)
    requires IsName(w) && !IsWordChar(c)
    ensures PrefixName(s + [c], w, afterWord) == PrefixName(s, w, afterWord) + [c]
    decreases |s|
  {
    var u := s + [c];
    if s == [] {
      if |w| == 1 {
        assert u[..1][0] == c;
      }
      assert u[1..] == [];
    } else {
      assert NameAt(u, w) == NameAt(s, w) by {
        if |w| <= |s| {
          assert u[..|w|] == s[..|w|];
          assert |s| > |w| ==> u[|w|] == s[|w|];
        } else if |w| == |u| {
          assert u[..|w|][|w| - 1] == c;
        }
      }
      if !afterWord && NameAt(s, w) {
        PrefixNameUnfoldMatch(u, w);
        PrefixNameUnfoldMatch(s, w);
        assert Drop(u, |w|) == Drop(s, |w|) + [c];
        PrefixNameSnoc(Drop(s, |w|), c, w, true);
        AppendAssoc("math." + w, PrefixName(Drop(s, |w|), w, true), [c]);
      } else {
        PrefixNameUnfoldSkip(u, w, afterWord);
        PrefixNameUnfoldSkip(s, w, afterWord);
        assert u[1..] == s[1..] + [c];
        PrefixNameSnoc(s[1..], c, w, IsWordChar(s[0]));
        AppendAssoc([s[0]], PrefixName(s[1..], w, IsWordChar(s[0])), [c]);
      }
    }
  }

  /** A name whose first letter does not occur in the text is never found. */
  lemma {:induction false} PrefixNameNoHead(s: string, w: string, afterWord: bool)
    requires IsName(w) && w[0] !in s
    ensures PrefixName(s, w, afterWord) == s
    decreases |s|
  {
    if s != [] {
      if |w| <= |s| {
        assert s[..|w|][0] == s[0];
      }
      PrefixNameNoHead(s[1..], w, IsWordChar(s[0]));
    }
  }

  /** Step 3 adds only characters of `math.`: any other character missing
      from the input is missing from the output. */
  lemma {:induction false} PrefixNameAbsent(s: string, w: string, afterWord: bool, c: char)
    requires IsName(w) && c !in s && c !in "math."
    ensures c !in PrefixName(s, w, afterWord)
    decreases |s|
  {
    if s != [] {
      if !afterWord && NameAt(s, w) {
        assert s[..|w|] == w;
        PrefixNameAbsent(s[|w|..], w, true, c);
      } else {
        PrefixNameAbsent(s[1..], w, IsWordChar(s[0]), c);
      }
    }
  }

  lemma {:induction false} PrefixNamesAbsent(s: string, names: seq<string>, c: char)
    requires forall i :: 0 <= i < |names| ==> IsName(names[i])
    requires c !in s && c !in "math."
    ensures c !in PrefixNames(s, names)
    decreases |names|
  {
    if names != [] {
      PrefixNameAbsent(s, names[0], false, c);
      PrefixNamesAbsent(PrefixName(s, names[0], false), names[1..], c);
    }
  }

  /** w occurs bare at position i of s: at a word boundary, and not followed
      by a word character. */
  ghost predicate BareAt(s: string, i: int, w: string)
    requires 0 <= i <= |s|
  {
    (i == 0 || !IsWordChar(s[i - 1])) && NameAt(s[i..], w)
  }

  lemma {:induction false} PrefixNameIdentityFrom(s: string, i: nat, w: string)
    requires IsName(w) && i <= |s|
    requires forall j :: i <= j <= |s| ==> !BareAt(s, j, w)
    ensures PrefixName(s[i..], w, i > 0 && IsWordChar(s[i - 1])) == s[i..]
    decreases |s| - i
  {
    if i < |s| {
      assert !BareAt(s, i, w);
      assert s[i..][1..] == s[i + 1..];
      PrefixNameIdentityFrom(s, i + 1, w);
      assert s[i..] == [s[i]] + s[i + 1..];
    }
  }

  /** Where w occurs bare nowhere, step 3 leaves the text unchanged: `sine`,
      `xsin` and `sin2` hold no bare `sin`. */
  lemma PrefixNameIdentity(s: string, w: string)
    requires IsName(w)
    requires forall j :: 0 <= j <= |s| ==> !BareAt(s, j, w)
    ensures PrefixName(s, w, false) == s
  {
    PrefixNameIdentityFrom(s, 0, w);
    assert s[0..] == s;
  }

  lemma {:induction false} PrefixNamesCons(c: char, s: string, names: seq<string>)
    requires forall i :: 0 <= i < |names| ==> IsName(names[i])
    requires !IsWordChar(c)
    ensures PrefixNames([c] + s, names) == [c] + PrefixNames(s, names)
    decreases |names|
  {
    if names != [] {
      PrefixNameCons(c, s, names[0], false);
      PrefixNamesCons(c, PrefixName(s, names[0], false), names[1..]);
    }
  }

  lemma {:induction false} PrefixNamesSnoc(s: string, c: char, names: seq<string>)
    requires forall i :: 0 <= i < |names| ==> IsName(names[i])
    requires !IsWordChar(c)
    ensures PrefixNames(s + [c], names) == PrefixNames(s, names) + [c]
    decreases |names|
  {
    if names != [] {
      PrefixNameSnoc(s, c, names[0], false);
      PrefixNamesSnoc(PrefixName(s, names[0], false), c, names[1..]);
    }
  }

  /** Whether a bare name starts the text is decided before a non-word
      character: the name cannot reach past it. */
  lemma NameAtCut(p: string, q: string, w: string)
    requires IsName(w) && p != [] && !IsWordChar(p[|p| - 1])
    ensures NameAt(p + q, w) == NameAt(p, w)
  {
    var s := p + q;
    if |w| <= |p| {
      assert s[..|w|] == p[..|w|];
      assert |w| < |p| ==> s[|w|] == p[|w|];
    }
    if |p| <= |w| <= |s| {
      assert s[..|w|][|p| - 1] == p[|p| - 1];
    }
  }

  /** A cut after a non-word character is a word boundary that no match of
      step 3 crosses: the text on either side is rewritten on its own. */
  lemma {:induction false} PrefixNameSplit(p: string, q: string, w: string, afterWord: bool)
    requires IsName(w) && p != [] && !IsWordChar(p[|p| - 1])
    ensures PrefixName(p + q, w, afterWord) == PrefixName(p, w, afterWord) + PrefixName(q, w, false)
    decreases |p|
  {
    if |p| == 1 {
      assert p + q == [p[0]] + q && p == [p[0]] + [];
      PrefixNameCons(p[0], q, w, afterWord);
      PrefixNameCons(p[0], [], w, afterWord);
    } else {
      NameAtCut(p, q, w);
      if !afterWord && NameAt(p, w) {
        var d := p[|w|..];
        assert p == w + d && p + q == w + (d + q);
        assert d != [] && d[|d| - 1] == p[|p| - 1] && d[0] == p[|w|];
        PrefixNameSplit(d, q, w, true);
        PrefixNameSplitMatch(w, d, q);
      } else {
        PrefixNameSplit(p[1..], q, w, IsWordChar(p[0]));
        PrefixNameSplitSkip(p, q, w, afterWord);
      }
    }
  }

  /** The step of PrefixNameSplit at a match of w. */
  lemma PrefixNameSplitMatch(w: string, d: string, q: string)
    requires IsName(w) && d != [] && !IsWordChar(d[0])
    requires PrefixName(d + q, w, true) == PrefixName(d, w, true) + PrefixName(q, w, false)
    ensures PrefixName(w + (d + q), w, false) == PrefixName(w + d, w, false) + PrefixName(q, w, false)
  {
    PrefixNameMatch(w, d + q);
    PrefixNameMatch(w, d);
    AppendAssoc("math." + w, PrefixName(d, w, true), PrefixName(q, w, false));
  }

  /** The step of PrefixNameSplit where no match of w starts. */
  lemma PrefixNameSplitSkip(p: string, q: string, w: string, afterWord: bool)
    requires IsName(w) && p != [] && (afterWord || !NameAt(p, w)) && (afterWord || !NameAt(p + q, w))
    requires PrefixName(p[1..] + q, w, IsWordChar(p[0])) == PrefixName(p[1..], w, IsWordChar(p[0])) + PrefixName(q, w, false)
    ensures PrefixName(p + q, w, afterWord) == PrefixName(p, w, afterWord) + PrefixName(q, w, false)
  {
    PrefixNameUnfoldSkip(p + q, w, afterWord);
    PrefixNameUnfoldSkip(p, w, afterWord);
    assert (p + q)[1..] == p[1..] + q;
    AppendAssoc([p[0]], PrefixName(p[1..], w, IsWordChar(p[0])), PrefixName(q, w, false));
  }

  lemma {:induction false} PrefixNamesSplit(p: string, q: string, names: seq<string>)
    requires forall i :: 0 <= i < |names| ==> IsName(names[i])
    requires p != [] && !IsWordChar(p[|p| - 1])
    ensures PrefixNames(p + q, names) == PrefixNames(p, names) + PrefixNames(q, names)
    decreases |names|
  {
    if names != [] {
      var w := names[0];
      PrefixNameSplit(p, q, w, false);
      var c := p[|p| - 1];
      assert p == p[..|p| - 1] + [c];
      PrefixNameSnoc(p[..|p| - 1], c, w, false);
      var p' := PrefixName(p, w, false);
      assert p'[|p'| - 1] == c;
      PrefixNamesSplit(p', PrefixName(q, w, false), names[1..]);
    }
  }

  // ---------------------------------------------------------------------
  // Properties of the whole conversion

  /** No strip: a leading character that no step can match (a blank, an
      operator, an open parenthesis) is kept in front, unchanged. */
  lemma ConvertKeepsLeading(c: char, s: string)
    requires !IsWordChar(c) && c != '^' && c != RootSign
    ensures ConvertEquation([c] + s) == [c] + ConvertEquation(s)
  {
    ReplaceCaretConcat([c], s);
    assert ReplaceCaret([c]) == [c];
    var p := ReplaceCaret(s);
    RewriteCallsCons(c, p, "sqrt");
    RewriteCallsCons(c, RewriteCalls(p, "sqrt"), [RootSign]);
    MathNamesAreNames();
    PrefixNamesCons(c, RewriteCalls(RewriteCalls(p, "sqrt"), [RootSign]), MathNames);
  }

  /** No strip: a trailing character that ends no match (a blank, an
      operator other than `^`, an open parenthesis) is kept at the end. */
  lemma ConvertKeepsTrailing(s: string, c: char)
    requires !IsWordChar(c) && c != '^' && c != ')'
    ensures ConvertEquation(s + [c]) == ConvertEquation(s) + [c]
  {
    ReplaceCaretConcat(s, [c]);
    assert ReplaceCaret([c]) == [c];
    var p := ReplaceCaret(s);
    RewriteCallsSnoc(p, c, "sqrt");
    RewriteCallsSnoc(RewriteCalls(p, "sqrt"), c, [RootSign]);
    MathNamesAreNames();
    PrefixNamesSnoc(RewriteCalls(RewriteCalls(p, "sqrt"), [RootSign]), c, MathNames);
  }

  /** Characters that neither start nor end a match, such as surrounding
      blanks, survive the conversion on both sides. */
  lemma ConvertKeepsSurrounding(c: char, s: string, d: char)
    requires !IsWordChar(c) && c != '^' && c != RootSign
    requires !IsWordChar(d) && d != '^' && d != ')'
    ensures ConvertEquation([c] + s + [d]) == [c] + ConvertEquation(s) + [d]
  {
    ConvertKeepsLeading(c, s + [d]);
    ConvertKeepsTrailing(s, d);
    AppendAssoc([c], s, [d]);
    AppendAssoc([c], ConvertEquation(s), [d]);
  }

  /** Text with no caret, no square-root call of either form and no bare
      math name comes out unchanged. */
  lemma ConvertIdentity(s: string)
    requires '^' !in s
    requires forall i, n :: 0 <= i <= |s| ==> !CallMatch(s[i..], "sqrt", n) && !CallMatch(s[i..], [RootSign], n)
    requires forall k, j :: 0 <= k < |MathNames| && 0 <= j <= |s| ==> !BareAt(s, j, MathNames[k])
    ensures ConvertEquation(s) == s
  {
    ReplaceCaretIdentity(s);
    RewriteCallsIdentity(s, "sqrt");
    RewriteCallsIdentity(s, [RootSign]);
    MathNamesAreNames();
    PrefixNamesIdentity(s, MathNames);
  }

  lemma {:induction false} PrefixNamesIdentity(s: string, names: seq<string>)
    requires forall i :: 0 <= i < |names| ==> IsName(names[i])
    requires forall k, j :: 0 <= k < |names| && 0 <= j <= |s| ==> !BareAt(s, j, names[k])
    ensures PrefixNames(s, names) == s
    decreases |names|
  {
    if names != [] {
      PrefixNameIdentity(s, names[0]);
      PrefixNamesIdentity(s, names[1..]);
    }
  }

  // ---------------------------------------------------------------------
  // Worked cases

  /** Step 2 has no `\b`: a call is rewritten even where a word runs into
      it, so `mysqrt(x)` becomes `mymath.sqrt(x)`. */
  lemma SquareRootInsideWord(pre: string, e: string)
    requires 's' !in pre && e != [] && ')' !in e
    ensures RewriteCalls(pre + "sqrt(" + e + ")", "sqrt") == pre + "math.sqrt(" + e + ")"
  {
    var tail := "sqrt" + "(" + e + ")" + "";
    RewriteCallsMatch("sqrt", e, "");
    assert RewriteCalls("", "sqrt") == [];
    RewriteCallsSkip(pre, tail, "sqrt");
    assert pre + tail == pre + "sqrt(" + e + ")";
  }

  /** Step 2 needs a non-empty argument: `sqrt()` is kept. */
  lemma EmptyArgumentKept()
    ensures RewriteCalls("sqrt()", "sqrt") == "sqrt()"
  {
    forall i, n | 0 <= i <= 6 ensures !CallMatch("sqrt()"[i..], "sqrt", n) {
    }
    RewriteCallsIdentity("sqrt()", "sqrt");
  }

  /** `√(x)` is rewritten like `sqrt(x)`; a `√` without `(E)` is kept. */
  lemma RootSignCalls()
    ensures RewriteCalls([RootSign] + "(x)", [RootSign]) == "math.sqrt(x)"
    ensures RewriteCalls([RootSign] + "x", [RootSign]) == [RootSign] + "x"
  {
    assert [RootSign] + "(x)" == [RootSign] + "(" + "x" + ")" + "";
    RewriteCallsMatch([RootSign], "x", "");
    assert RewriteCalls("", [RootSign]) == [];
    forall i, n | 0 <= i <= 2 ensures !CallMatch(([RootSign] + "x")[i..], [RootSign], n) {
    }
    RewriteCallsIdentity([RootSign] + "x", [RootSign]);
  }

  /** A `√` that does not start a match of `√\(([^)]+)\)` is kept, and the
      scan goes on with the text after it. */
  lemma RootSignKept(s: string)
    requires forall n :: !CallMatch([RootSign] + s, [RootSign], n)
    ensures RewriteCalls([RootSign] + s, [RootSign]) == [RootSign] + RewriteCalls(s, [RootSign])
  {
    CallAtMatches([RootSign] + s, [RootSign]);
    assert CallAt([RootSign] + s, [RootSign]).None?;
    RewriteCallsKeep(RootSign, s, [RootSign]);
  }

  /** Step 3 prefixes a name followed by a parenthesis. */
  lemma NameBeforeParenthesis()
    ensures PrefixName("sin(x)", "sin", false) == "math.sin(x)"
  {
    assert "sin(x)" == "sin" + "(x)";
    PrefixNameMatch("sin", "(x)");
    assert "(x)" == ['('] + "x)";
    PrefixNameCons('(', "x)", "sin", true);
    PrefixNameNoHead("x)", "sin", false);
  }

  /** Step 3 leaves `sin` alone where a word character touches it on either
      side. */
  lemma NameInsideWordKept()
    ensures PrefixName("sine", "sin", false) == "sine"
    ensures PrefixName("xsin", "sin", false) == "xsin"
    ensures PrefixName("sin2", "sin", false) == "sin2"
  {
    forall j | 0 <= j <= 4 ensures !BareAt("sine", j, "sin") {
    }
    PrefixNameIdentity("sine", "sin");
    forall j | 0 <= j <= 4 ensures !BareAt("xsin", j, "sin") {
    }
    PrefixNameIdentity("xsin", "sin");
    forall j | 0 <= j <= 4 ensures !BareAt("sin2", j, "sin") {
    }
    PrefixNameIdentity("sin2", "sin");
  }

  /** An argument E with no parentheses, no caret, no `√` and no bare math
      name: the conversion leaves it alone wherever it stands. */
  ghost predicate PlainArgument(e: string) {
    e != [] && '(' !in e && ')' !in e && '^' !in e && RootSign !in e &&
    forall k, j :: 0 <= k < |MathNames| && 0 <= j <= |e| ==> !BareAt(e, j, MathNames[k])
  }

  /** One pass of the loop over the names. */
  lemma PrefixNamesStep(s: string, names: seq<string>)
    requires names != [] && forall i :: 0 <= i < |names| ==> IsName(names[i])
    ensures PrefixNames(s, names) == PrefixNames(PrefixName(s, names[0], false), names[1..])
  {
  }

  /** The loop over `xs + ys` is the loop over xs followed by the loop over
      ys. */
  lemma {:induction false} PrefixNamesAppend(s: string, xs: seq<string>, ys: seq<string>)
    requires forall i :: 0 <= i < |xs| ==> IsName(xs[i])
    requires forall i :: 0 <= i < |ys| ==> IsName(ys[i])
    ensures forall i :: 0 <= i < |xs + ys| ==> IsName((xs + ys)[i])
    ensures PrefixNames(s, xs + ys) == PrefixNames(PrefixNames(s, xs), ys)
    decreases |xs|
  {
    if xs != [] {
      assert (xs + ys)[1..] == xs[1..] + ys;
      PrefixNamesAppend(PrefixName(s, xs[0], false), xs[1..], ys);
    } else {
      assert xs + ys == ys;
    }
  }

  /** No match of w starts at a position inside a word. */
  lemma NotBareInWord(s: string, j: nat, w: string)
    requires 0 < j <= |s| && IsWordChar(s[j - 1])
    ensures !BareAt(s, j, w)
  {
  }

  /** No match of w starts where the first letter of w is not. */
  lemma NotBareFirst(s: string, j: nat, w: string)
    requires IsName(w) && j < |s| && s[j] != w[0]
    ensures !BareAt(s, j, w)
  {
    if |w| <= |s| - j {
      assert s[j..][..|w|][0] == s[j];
    }
  }

  /** No match of w starts where the second letter of w does not follow. */
  lemma NotBareSecond(s: string, j: nat, w: string)
    requires IsName(w) && j + 1 < |s| && |w| >= 2 && s[j + 1] != w[1]
    ensures !BareAt(s, j, w)
  {
    if |w| <= |s| - j {
      assert s[j..][..|w|][1] == s[j + 1];
    }
  }

  /** No match of a name starts at the very end. */
  lemma NotBareAtEnd(s: string, w: string)
    requires IsName(w)
    ensures !BareAt(s, |s|, w)
  {
  }

  lemma MathNameCases(k: nat)
    requires k < |MathNames|
    ensures MathNames[k] in {"sin", "cos", "tan", "exp", "log", "sqrt"}
  {
  }

  /** Step 3 finds no bare name in `math.` itself: its `t` and `s` sit inside
      a word. */
  lemma MathDotKept()
    ensures PrefixNames("math.", MathNames) == "math."
  {
    MathNamesAreNames();
    var s := "math.";
    forall k, j | 0 <= k < |MathNames| && 0 <= j <= |s| ensures !BareAt(s, j, MathNames[k]) {
      var w := MathNames[k];
      MathNameCases(k);
      if j == 0 {
        NotBareFirst(s, 0, w);
      } else if j < |s| {
        NotBareInWord(s, j, w);
      } else {
        NotBareAtEnd(s, w);
      }
    }
    PrefixNamesIdentity(s, MathNames);
  }

  /** The passes after the first leave `math.` alone. */
  lemma MathDotLater()
    ensures PrefixNames("math.", MathNames[1..]) == "math."
  {
    MathNamesAreNames();
    var ns := MathNames[1..];
    var s := "math.";
    forall k, j | 0 <= k < |ns| && 0 <= j <= |s| ensures !BareAt(s, j, ns[k]) {
      var w := ns[k];
      MathNameCases(k + 1);
      if j == 0 {
        NotBareFirst(s, 0, w);
      } else if j < |s| {
        NotBareInWord(s, j, w);
      } else {
        NotBareAtEnd(s, w);
      }
    }
    PrefixNamesIdentity(s, ns);
  }

  /** Step 3 on the head of a square-root call: only `sqrt` is bare in it. */
  lemma SqrtOpenPrefixed()
    ensures PrefixNames("sqrt(", MathNames) == "math.sqrt("
  {
    MathNamesAreNames();
    assert MathNames == MathNames[..5] + ["sqrt"];
    PrefixNamesAppend("sqrt(", MathNames[..5], ["sqrt"]);
    SqrtOpenFirst();
    SqrtOpenSqrt();
  }

  /** The passes before the `sqrt` pass leave `sqrt(` alone. */
  lemma SqrtOpenFirst()
    ensures PrefixNames("sqrt(", MathNames[..5]) == "sqrt("
  {
    MathNamesAreNames();
    var ns := MathNames[..5];
    var s := "sqrt(";
    forall k, j | 0 <= k < |ns| && 0 <= j <= |s| ensures !BareAt(s, j, ns[k]) {
      var w := ns[k];
      MathNameCases(k);
      if j == 0 && w == "sin" {
        NotBareSecond(s, 0, w);
      } else if j == 0 || j == 4 {
        NotBareFirst(s, j, w);
      } else if j < |s| {
        NotBareInWord(s, j, w);
      } else {
        NotBareAtEnd(s, w);
      }
    }
    PrefixNamesIdentity(s, ns);
  }

  /** The `sqrt` pass on `sqrt(`. */
  lemma SqrtOpenSqrt()
    ensures PrefixNames("sqrt(", ["sqrt"]) == "math.sqrt("
  {
    MathNamesAreNames();
    assert "sqrt(" == "sqrt" + "(";
    PrefixNameMatch("sqrt", "(");
    assert PrefixName("(", "sqrt", true) == "(";
    assert PrefixNames("sqrt(", ["sqrt"]) == PrefixNames(PrefixName("sqrt(", "sqrt", false), []);
  }

  /** The passes after the first leave `sin(` alone. */
  lemma SinOpenLater()
    ensures PrefixNames("sin(", MathNames[1..]) == "sin("
  {
    MathNamesAreNames();
    var ns := MathNames[1..];
    var s := "sin(";
    forall k, j | 0 <= k < |ns| && 0 <= j <= |s| ensures !BareAt(s, j, ns[k]) {
      var w := ns[k];
      MathNameCases(k + 1);
      if j == 0 && w == "sqrt" {
        NotBareSecond(s, 0, w);
      } else if j == 0 || j == 3 {
        NotBareFirst(s, j, w);
      } else if j < |s| {
        NotBareInWord(s, j, w);
      } else {
        NotBareAtEnd(s, w);
      }
    }
    PrefixNamesIdentity(s, ns);
  }

  /** Step 3 on the head of a sine call: `sin` is prefixed, and the `math.`
      it gains holds no bare name for the later passes. */
  lemma SinOpenPrefixed()
    ensures PrefixNames("sin(", MathNames) == "math.sin("
  {
    MathNamesAreNames();
    SinOpenSin();
    PrefixNamesStep("sin(", MathNames);
    assert MathNames[0] == "sin";
    SinOpenAfterSin();
  }

  /** The passes after `sin` on `math.sin(`. */
  lemma SinOpenAfterSin()
    ensures PrefixNames("math." + "sin(", MathNames[1..]) == "math." + "sin("
  {
    MathNamesAreNames();
    PrefixNamesSplit("math.", "sin(", MathNames[1..]);
    MathDotLater();
    SinOpenLater();
  }

  /** The `sin` pass on `sin(`. */
  lemma SinOpenSin()
    ensures PrefixName("sin(", "sin", false) == "math." + "sin("
  {
    assert "sin(" == "sin" + "(";
    PrefixNameMatch("sin", "(");
    assert PrefixName("(", "sin", true) == "(";
  }

  /** Step 3 on a plain argument and its closing parenthesis. */
  lemma PlainArgumentKept(e: string)
    requires PlainArgument(e)
    ensures PrefixNames(e + ")", MathNames) == e + ")"
  {
    MathNamesAreNames();
    PrefixNamesSnoc(e, ')', MathNames);
    PrefixNamesIdentity(e, MathNames);
  }

  /** `math.` in front of any text holds no bare name for step 3. */
  lemma MathDotPassed(q: string)
    ensures PrefixNames("math." + q, MathNames) == "math." + PrefixNames(q, MathNames)
  {
    MathNamesAreNames();
    PrefixNamesSplit("math.", q, MathNames);
    MathDotKept();
  }

  /** Step 3 prefixes the `sqrt` of a `sqrt(` in front of any text. */
  lemma SqrtOpenPassed(q: string)
    ensures PrefixNames("sqrt(" + q, MathNames) == "math.sqrt(" + PrefixNames(q, MathNames)
  {
    MathNamesAreNames();
    PrefixNamesSplit("sqrt(", q, MathNames);
    SqrtOpenPrefixed();
  }

  /** Step 3 prefixes the `sin` of a `sin(` in front of any text. */
  lemma SinOpenPassed(q: string)
    ensures PrefixNames("sin(" + q, MathNames) == "math.sin(" + PrefixNames(q, MathNames)
  {
    MathNamesAreNames();
    PrefixNamesSplit("sin(", q, MathNames);
    SinOpenPrefixed();
  }

  /** Text after `math.` is converted as if the `math.` were not there: the
      conversion has no notion of what is already qualified. */
  lemma ConvertAfterMathDot(s: string)
    ensures ConvertEquation("math." + s) == "math." + ConvertEquation(s)
  {
    var p := ReplaceCaret(s);
    var q := RewriteCalls(p, "sqrt");
    var r := RewriteCalls(q, [RootSign]);
    assert ReplaceCaret("math." + s) == "math." + p by {
      ReplaceCaretConcat("math.", s);
      ReplaceCaretIdentity("math.");
    }
    RewriteCallsSkip("math.", p, "sqrt");
    RewriteCallsSkip("math.", q, [RootSign]);
    MathDotPassed(r);
  }

  /** The ways the texts below are cut into pieces. */
  lemma CallShapes(e: string)
    ensures "math.sqrt(" + e + ")" == "math." + ("sqrt(" + (e + ")"))
    ensures "math.math.sqrt(" + e + ")" == "math." + ("math.sqrt(" + (e + ")"))
    ensures "sqrt(" + e + ")" == "sqrt" + "(" + e + ")" + ""
    ensures [RootSign] + "(" + e + ")" == [RootSign] + "(" + e + ")" + ""
    ensures [RootSign] + "(" + e + ")" == [RootSign] + (['('] + (e + ")"))
    ensures "sin(" + e + ")" == ['s'] + ("in" + (['('] + (e + ")")))
    ensures "sin(" + e + ")" == "sin(" + (e + ")")
    ensures "math.sin(" + e + ")" == "math.sin(" + (e + ")")
    ensures "math.sin(" + e + ")" == "math." + ("sin(" + e + ")")
    ensures "math.math.sin(" + e + ")" == "math." + ("math.sin(" + e + ")")
  {
  }

  /** The conversion, given what each step returns. */
  lemma ConvertSteps(s: string, powered: string, sqrts: string, rooted: string, r: string)
    requires ReplaceCaret(s) == powered
    requires RewriteCalls(powered, "sqrt") == sqrts
    requires RewriteCalls(sqrts, [RootSign]) == rooted
    requires MathNamesValid() && PrefixNames(rooted, MathNames) == r
    ensures ConvertEquation(s) == r
  {
  }

  /** Step 3 prefixes once more the `math.sqrt(` that step 2 writes,
      whatever text follows it. */
  lemma RewrittenRootAnyTail(q: string)
    ensures PrefixNames("math.sqrt(" + q, MathNames) == "math.math.sqrt(" + PrefixNames(q, MathNames)
  {
    MathNamesAreNames();
    var x := PrefixNames(q, MathNames);
    MathDotShapes(q, x);
    SqrtOpenPassed(q);
    MathDotPassed("sqrt(" + q);
  }

  /** The ways `math.sqrt(` is cut for RewrittenRootAnyTail. */
  lemma MathDotShapes(q: string, x: string)
    ensures "math.sqrt(" + q == "math." + ("sqrt(" + q)
    ensures "math." + ("math.sqrt(" + x) == "math.math.sqrt(" + x
  {
  }

  lemma RewrittenRootPrefixedAgain(e: string)
    requires PlainArgument(e)
    ensures PrefixNames("math.sqrt(" + e + ")", MathNames) == "math.math.sqrt(" + e + ")"
  {
    var tail := e + ")";
    PlainArgumentKept(e);
    SqrtOpenPassed(tail);
    MathDotPassed("sqrt(" + tail);
    CallShapes(e);
  }

  /** Both square-root spellings come out as `math.math.sqrt(E)`: step 3
      re-prefixes the `sqrt` that step 2 produced. */
  lemma SquareRootDoublePrefixed(e: string)
    requires PlainArgument(e)
    ensures ConvertEquation("sqrt(" + e + ")") == "math.math.sqrt(" + e + ")"
  {
    CallShapes(e);
    var t := "sqrt(" + e + ")";
    var m := "math.sqrt(" + e + ")";
    ReplaceCaretIdentity(t);
    assert RewriteCalls(t, "sqrt") == m by {
      RewriteCallsMatch("sqrt", e, "");
      assert RewriteCalls("", "sqrt") == [];
    }
    RewriteCallsNoHead(m, [RootSign]);
    RewrittenRootPrefixedAgain(e);
    MathNamesAreNames();
    ConvertSteps(t, t, m, m, "math.math.sqrt(" + e + ")");
  }

  /** The same for the sign: `√(E)` comes out as `math.math.sqrt(E)`. */
  lemma RootSignDoublePrefixed(e: string)
    requires PlainArgument(e)
    ensures ConvertEquation([RootSign] + "(" + e + ")") == "math.math.sqrt(" + e + ")"
  {
    CallShapes(e);
    var r := [RootSign] + "(" + e + ")";
    var m := "math.sqrt(" + e + ")";
    ReplaceCaretIdentity(r);
    assert RewriteCalls(r, "sqrt") == r by {
      RewriteCallsCons(RootSign, ['('] + (e + ")"), "sqrt");
      RewriteCallsCons('(', e + ")", "sqrt");
      RewriteCallsNoOpen(e + ")", "sqrt");
    }
    assert RewriteCalls(r, [RootSign]) == m by {
      RewriteCallsMatch([RootSign], e, "");
      assert RewriteCalls("", [RootSign]) == [];
    }
    RewrittenRootPrefixedAgain(e);
    MathNamesAreNames();
    ConvertSteps(r, r, r, m, "math.math.sqrt(" + e + ")");
  }

  /** Step 2 finds no square-root call in a sine call on a plain argument. */
  lemma SinCallNoSquareRoot(e: string)
    requires PlainArgument(e)
    ensures RewriteCalls("sin(" + e + ")", "sqrt") == "sin(" + e + ")"
  {
    CallShapes(e);
    var t := "sin(" + e + ")";
    var tail := e + ")";
    assert t[..5][1] == 'i';
    RewriteCallsKeep('s', "in" + (['('] + tail), "sqrt");
    RewriteCallsSkip("in", ['('] + tail, "sqrt");
    RewriteCallsCons('(', tail, "sqrt");
    RewriteCallsNoOpen(tail, "sqrt");
  }

  /** A call of a math function on a plain argument gets one prefix. */
  lemma NameCallPrefixed(e: string)
    requires PlainArgument(e)
    ensures ConvertEquation("sin(" + e + ")") == "math.sin(" + e + ")"
  {
    CallShapes(e);
    var t := "sin(" + e + ")";
    var tail := e + ")";
    ReplaceCaretIdentity(t);
    SinCallNoSquareRoot(e);
    RewriteCallsNoHead(t, [RootSign]);
    SinOpenPassed(tail);
    PlainArgumentKept(e);
  }

  /** Not idempotent: converting already converted text prefixes again. */
  lemma SecondPassPrefixesAgain(e: string)
    requires PlainArgument(e)
    ensures ConvertEquation("math.sin(" + e + ")") == "math.math.sin(" + e + ")"
    ensures ConvertEquation(ConvertEquation("sin(" + e + ")")) != ConvertEquation("sin(" + e + ")")
  {
    CallShapes(e);
    NameCallPrefixed(e);
    ConvertAfterMathDot("sin(" + e + ")");
  }
}
