# Bisection root finder: equation conversion and the bisection loop

This project models the core of a small root-finding calculator.

The user types an equation in `x`. A converter rewrites it into a Python expression. The bisection loop `bisection_method(f, a, b, tol)` then looks for a root of the resulting function inside `[a, b]`. The model has four files:

- `bisection.dfy` (module `Bisection`) is the bisection loop of `bisection.py:22-36`.
  - `main.py:33-50` is the same loop, copied statement for statement. It is modelled once, by the same members.
  - The loop is an imperative method, `BisectionMethod`. It is proved equal to a recursive specification, `Bisection`, over exact reals.
  - The specification is built from three functions:
    - `Run` is one run of the loop at `bisection.py:26-34`, as a value;
    - `Kept` is the endpoint update of lines 33-34;
    - `Bisection` adds the sign check of line 23 and the return of line 36.
  - The outcome is `Solved(trace, root)`, or one of two failures:
    - `NoBracket`, the `ValueError` raised when `f(a) * f(b) >= 0`;
    - `UnboundRoot`, the `UnboundLocalError` of `return data, c` when the loop body never ran.
  - Lemmas about the trace establish:
    - the record-by-record rules, which uniquely determine the trace;
    - the sign-change invariant;
    - nesting and halving of the brackets;
    - the iteration bound;
    - the meaning of the returned root;
    - the form's default run.
- `equation_utils.dfy` (module `EquationUtils`) is `convert_equation` of `equation_utils.py:4-34`. It applies three steps in order:
  1. `^` becomes `**` (line 23, `ReplaceCaret`).
  2. `sqrt(E)` and then `√(E)` become `math.sqrt(E)`, where E is a non-empty run of characters other than `)` (lines 26-27).
     - `RewriteCalls` and `Rewritten` compute it.
     - `CallAt` and `ArgRun` find the match.
  3. Each of `sin`, `cos`, `tan`, `exp`, `log`, `sqrt` standing as a whole word gets a `math.` prefix (lines 30-32).
     - `PrefixName` and `Prefixed` compute one name's pass; `PrefixNames` is the loop over the six names.
     - `IsWordChar` models `\w`, and `NameAt` together with the `afterWord` flag models the two `\b`.

  Each `re.sub` is a left-to-right scan for non-overlapping matches.
- `main_convert.dfy` (module `MainConvert`) is the other `convert_equation`, at `main.py:12-13`. It replaces `^` with `**` and then applies Python's `str.strip()`.
  - `Strip`, built from `StripLeading` and `StripTrailing`, models `strip()`.
  - `IsSpace` is the set of characters Python's `str.isspace` accepts.
- `caret.dfy` (module `Caret`) holds the `replace("^", "**")` step that both converters share.

The model follows the code where the code and its documentation disagree:

- **Square roots are prefixed twice.** The docstring at `equation_utils.py:8` promises `math.sqrt`. Step 3, however, runs the `sqrt` pass over the `math.sqrt(` that step 2 wrote. So `sqrt(x)` and `√(x)` both come out as `math.math.sqrt(x)`, which the model reproduces.
  - For the same reason the converter is not idempotent: `math.sin(x)` becomes `math.math.sin(x)`.
- **The loop can fail after the bracket check.** The only explicit raise is the `ValueError` at `bisection.py:24`. The code also fails when the bracket passes the sign check but `(b - a) / 2 <= tol`: the loop body never runs, and `return data, c` at line 36 reads an unbound `c`. The model returns `Failed(UnboundRoot)` in that case.

## Model

| member | source | states |
|---|---|---|
| Caret.ReplaceCaret | equation_utils.py:23 | the result of `replace("^", "**")` holds no caret and is at least as long as the input |
| Caret.ReplaceCaretConcat | equation_utils.py:23 | the caret rewrite distributes over concatenation: it works character by character |
| Caret.CaretBecomesPower | main.py:13 | each caret becomes exactly `**` in place, with the text on either side rewritten independently |
| Caret.ReplaceCaretIdentity | equation_utils.py:23 | text without a caret is returned unchanged |
| Bisection.HalvingDecreases | bisection.py:27 | while the half-width exceeds tol, halving removes at least one whole tol-unit of width, so the loop terminates |
| Bisection.Budget | bisection.py:27 | the number of halvings left is zero exactly when the half-width is within tol |
| Bisection.BisectionMethod | bisection.py:22-36 | the loop, with endpoints reassigned in place and the trace appended, returns exactly the specified outcome: NoBracket, UnboundRoot, or the trace and its last midpoint |
| Bisection.KeptNarrower | bisection.py:33-34 | the bracket kept after a pass is exactly half as wide, so fewer halvings remain |
| Bisection.RunAppends | bisection.py:26-30 | the trace is append-only: a run keeps the records made before it and adds exactly the records of the loop from the current bracket |
| Bisection.TraceValid | bisection.py:27-34 | the loop's trace obeys the per-record rules: it is empty iff the first half-width is within tol; it starts at [a, b]; each record is (a, b, midpoint, f(midpoint)) of a bracket wider than 2·tol; consecutive records replace exactly one endpoint by the midpoint; and the last record hit f(c) == 0 or left a bracket of half-width within tol |
| Bisection.ValidTraceUnique | bisection.py:27-34 | those rules determine the trace: any sequence that obeys them is the loop's trace |
| Bisection.BisectionOutcomes | bisection.py:23-36 | ValueError (NoBracket) iff f(a) * f(b) >= 0, with no trace; UnboundLocalError (UnboundRoot) iff the sign check passes and (b - a) / 2 <= tol; otherwise a non-empty trace whose last record's midpoint is the returned root |
| Bisection.SignChangeKept | bisection.py:23-34 | given f(a) * f(b) < 0, every record's bracket still has f(a) * f(b) < 0 |
| Bisection.SignChangeAt | bisection.py:23-34 | the sign change holds at the head of the i-th pass |
| Bisection.NestedHalving | bisection.py:27-34 | each record's bracket is one half of the previous one: it is nested inside it, shares one endpoint with it, and has exactly half its width |
| Bisection.WidthAt | bisection.py:27-34 | the i-th bracket is the starting bracket halved i times |
| Bisection.IterationBound | bisection.py:27 | a trace of n records needs a starting width above 2 · tol · 2^(n-1), so the loop runs O(log2((b - a) / tol)) passes |
| Bisection.RootBracketed | bisection.py:27-36 | the returned root is an exact zero of f, or an endpoint of a final bracket with a sign change across it and a half-width within tol |
| Bisection.FormDefaults | main.py:143-146 | on the form's defaults (x^3 - x - 2 on [1, 2], tol 0.01): the first record is (1, 2, 1.5, -0.125), the next bracket is [1.5, 2], and six passes end at 1.515625 |
| Bisection.NoSignChangeRejected | bisection.py:23-24 | x^2 + 1 on [-1, 1] is rejected with NoBracket |
| EquationUtils.ArgRun | equation_utils.py:26 | the greedy `[^)]+` run is never longer than the text |
| EquationUtils.ArgRunStops | equation_utils.py:26 | the greedy `[^)]` run contains no `)`, and it stops only at a `)` or at the end of the text |
| EquationUtils.CallAt | equation_utils.py:26-27 | a match of `head\(([^)]+)\)` found at the front has a non-empty group and fits in the text |
| EquationUtils.CallAtMatches | equation_utils.py:26-27 | CallAt reports a match exactly when one starts at the front, and gives that match's group length |
| EquationUtils.ConvertEquation | equation_utils.py:4-34 | the conversion is total, and its output holds no caret: no step after the first brings one back |
| EquationUtils.RewriteCallsAbsent | equation_utils.py:26-27 | step 2, with either pattern, adds only characters of `math.sqrt()` |
| EquationUtils.RewriteCallsMatch | equation_utils.py:26 | a match `head(E)` at the front, with E non-empty and free of `)`, becomes `math.sqrt(E)`, and the scan goes on after it |
| EquationUtils.CallAtFront | equation_utils.py:26 | `head(E)` at the front matches with group E, and the scan resumes right after its `)` |
| EquationUtils.RewriteCallsIdentity | equation_utils.py:26-27 | where the pattern matches at no position, step 2 changes nothing |
| EquationUtils.RewriteCallsCons | equation_utils.py:26-27 | a character that cannot start the pattern passes through in front |
| EquationUtils.ArgRunSnoc | equation_utils.py:26 | appending a character other than `)` extends the `[^)]` run only when the run reached the end |
| EquationUtils.CallAtSnoc | equation_utils.py:26-27 | appending a character other than `)` changes no match decision |
| EquationUtils.RewriteCallsSkip | equation_utils.py:26-27 | text holding no first character of the pattern passes through in front |
| EquationUtils.RewriteCallsNoHead | equation_utils.py:26-27 | text without the pattern's first character is kept whole |
| EquationUtils.RewriteCallsNoOpen | equation_utils.py:26-27 | text without `(` is kept whole |
| EquationUtils.RewriteCallsSnoc | equation_utils.py:26-27 | a trailing character other than `)` is kept at the end |
| EquationUtils.PrefixNameMatch | equation_utils.py:32 | a bare name at the front, at a word boundary, gets `math.` in front |
| EquationUtils.PrefixNameCons | equation_utils.py:32 | a non-word character passes through, and a word boundary follows it |
| EquationUtils.PrefixNameSnoc | equation_utils.py:32 | a trailing non-word character is kept at the end |
| EquationUtils.PrefixNameNoHead | equation_utils.py:32 | a name whose first letter does not occur in the text is never prefixed |
| EquationUtils.PrefixNameAbsent | equation_utils.py:32 | one name pass adds only characters of `math.` |
| EquationUtils.PrefixNamesAbsent | equation_utils.py:30-32 | the loop over the names adds only characters of `math.` |
| EquationUtils.PrefixNameIdentity | equation_utils.py:32 | where the name occurs bare nowhere, the pass changes nothing |
| EquationUtils.PrefixNameIdentityFrom | equation_utils.py:32 | the same, for the scan resumed at any position |
| EquationUtils.PrefixNamesCons | equation_utils.py:30-32 | a leading non-word character passes through all six passes |
| EquationUtils.PrefixNamesSnoc | equation_utils.py:30-32 | a trailing non-word character passes through all six passes |
| EquationUtils.NameAtCut | equation_utils.py:32 | whether a bare name starts the text is decided before a non-word character |
| EquationUtils.PrefixNameSplit | equation_utils.py:32 | text cut after a non-word character is prefixed piecewise |
| EquationUtils.PrefixNamesSplit | equation_utils.py:30-32 | the same for the loop over all names |
| EquationUtils.PrefixNamesAppend | equation_utils.py:31-32 | the loop over xs + ys is the loop over xs followed by the loop over ys |
| EquationUtils.ConvertKeepsLeading | equation_utils.py:23-34 | no strip: a leading character that no step can match is kept in front |
| EquationUtils.ConvertKeepsTrailing | equation_utils.py:23-34 | no strip: a trailing character that ends no match is kept at the end |
| EquationUtils.ConvertKeepsSurrounding | equation_utils.py:23-34 | surrounding characters that neither start nor end a match, such as blanks, are kept in place |
| EquationUtils.ConvertIdentity | equation_utils.py:23-34 | text with no caret, no square-root call in either spelling and no bare math name comes out unchanged |
| EquationUtils.PrefixNamesIdentity | equation_utils.py:30-32 | where no name occurs bare, the loop over the names changes nothing |
| EquationUtils.SquareRootInsideWord | equation_utils.py:26 | step 2 has no `\b`, so `mysqrt(E)` is rewritten to `mymath.sqrt(E)` |
| EquationUtils.EmptyArgumentKept | equation_utils.py:26 | `sqrt()` does not match and is kept |
| EquationUtils.RootSignCalls | equation_utils.py:27 | worked example: `√(x)` becomes `math.sqrt(x)`, and `√x` is kept |
| EquationUtils.RootSignKept | equation_utils.py:27 | any `√` that does not start a `√(E)` match, with E non-empty and free of `)`, is kept, and the scan goes on after it |
| EquationUtils.NameBeforeParenthesis | equation_utils.py:32 | `sin(x)` gets its prefix: `math.sin(x)` |
| EquationUtils.NameInsideWordKept | equation_utils.py:32 | `sine`, `xsin` and `sin2` are left alone |
| EquationUtils.MathDotKept | equation_utils.py:30-32 | no bare name occurs in `math.` itself |
| EquationUtils.SqrtOpenPrefixed | equation_utils.py:30-32 | among the six names, only `sqrt` is prefixed in `sqrt(` |
| EquationUtils.SinOpenPrefixed | equation_utils.py:30-32 | `sin(` becomes `math.sin(`, and no later pass touches the result |
| EquationUtils.PlainArgumentKept | equation_utils.py:30-32 | a plain argument and its `)` go through the name passes unchanged |
| EquationUtils.MathDotPassed | equation_utils.py:30-32 | `math.` in front of any text is kept, and the rest is converted on its own |
| EquationUtils.SqrtOpenPassed | equation_utils.py:30-32 | a leading `sqrt(` is prefixed, and the rest is converted on its own |
| EquationUtils.SinOpenPassed | equation_utils.py:30-32 | a leading `sin(` is prefixed, and the rest is converted on its own |
| EquationUtils.ConvertAfterMathDot | equation_utils.py:23-34 | text after a `math.` is converted as if the `math.` were not there |
| EquationUtils.RewrittenRootAnyTail | equation_utils.py:26-32 | step 3 prefixes once more the `math.sqrt(` that step 2 writes, giving `math.math.sqrt(`, whatever text follows; that text goes through step 3 on its own |
| EquationUtils.RewrittenRootPrefixedAgain | equation_utils.py:26-32 | on a plain argument E, the `math.sqrt(E)` that step 2 writes is prefixed again by step 3 |
| EquationUtils.SquareRootDoublePrefixed | equation_utils.py:26-32 | on a plain argument E, `sqrt(E)` comes out as `math.math.sqrt(E)` |
| EquationUtils.RootSignDoublePrefixed | equation_utils.py:27-32 | on a plain argument E, `√(E)` comes out as `math.math.sqrt(E)` |
| EquationUtils.NameCallPrefixed | equation_utils.py:23-34 | `sin(E)` on a plain argument comes out as `math.sin(E)` |
| EquationUtils.SecondPassPrefixesAgain | equation_utils.py:31-32 | not idempotent: on a plain argument E, `math.sin(E)` becomes `math.math.sin(E)`, so converting twice differs from converting once |
| MainConvert.StripLeading | main.py:13 | `lstrip`: the result is a suffix of the input, only whitespace is cut off, and the result does not start with whitespace |
| MainConvert.StripTrailing | main.py:13 | `rstrip`: the result is a prefix of the input, only whitespace is cut off, and the result does not end with whitespace |
| MainConvert.StripIsSlice | main.py:13 | `strip` returns a contiguous slice of its input, so inner characters keep their order, with only whitespace cut off on either side |
| MainConvert.StripTrimmed | main.py:13 | what `strip` returns neither starts nor ends with whitespace |
| MainConvert.StripUnique | main.py:13 | any cut of whitespace from both sides that leaves nothing to strip gives exactly `strip` |
| MainConvert.StripIgnoresSurrounding | main.py:13 | whitespace added on either side does not change what `strip` returns |
| MainConvert.StripTrimmedIdentity | main.py:13 | text with nothing to strip is returned unchanged |
| MainConvert.StripIdempotent | main.py:13 | stripping twice is stripping once |
| MainConvert.ConvertEquation | main.py:12-13 | the output holds no caret and has no leading or trailing whitespace |
| MainConvert.ConvertTrimmed | main.py:12-13 | when the caret rewrite leaves nothing to strip, the output is that rewrite |
| MainConvert.ConvertIdentity | main.py:12-13 | function names are not touched: text with no caret and no surrounding whitespace is returned unchanged |
| MainConvert.ConvertIdempotent | main.py:13 | converting twice is converting once |
| MainConvert.ConvertIgnoresSurrounding | main.py:13 | surrounding whitespace, whatever it is, does not change the output |
| MainConvert.ReplaceCaretSpaces | main.py:13 | the caret rewrite keeps whitespace |
| MainConvert.ConvertPower | main.py:13 | inside trimmed text each caret becomes `**` in place |
| MainConvert.FormEquation | main.py:143 | the form's default equation `x^3 - x - 2` becomes `x**3 - x - 2` |

## Left out

- `build_function` (`eval` of the converted text) is not part of this model. The evaluated equation is an arbitrary total function `f: real -> real`, so math-domain errors raised inside `f` (such as the square root of a negative number) are not modelled.
- All arithmetic is over exact reals. IEEE-754 rounding of the midpoint, bit-exact `fc == 0`, and stalling once the bracket is one ulp wide are not modelled.
- Bisection.BisectionMethod: requires tol > 0, and so do `Bisection`, `Run`, `Trace` and `Budget`. With tol <= 0 the loop over exact reals need not terminate. The source does not check tol: `main.py:79` passes whatever `float()` returns. With tol <= 0 the source loops forever unless some midpoint is an exact zero. For example, f(x) = x on [-1, 1] with tol = 0 returns `([(-1, 1, 0, 0)], 0)` at once. The model leaves out every tol <= 0 call, including the ones that end like this.
- Bisection.BisectionMethod: takes `tol` as a required parameter. The default `tol=0.01`, at `bisection.py:22` and `main.py:33`, is not modelled. The program's only call, at `main.py:81`, calls main.py's own copy and always passes `tol`. main.py imports neither bisection.py nor equation_utils.py.
- Bisection.BisectionMethod: the copy at `main.py:33-50` matches, statement for statement, `bisection.py:22-36`, so one member models both.
- Plotting (`plot_function`), CSV/PDF export, the GUI form, `float()` parsing of the form fields and the file system are not part of this model.
- EquationUtils.IsWordChar: `\w` and `\b` are modelled over ASCII letters, digits and `_`. Python's `\w` on `str` also accepts non-ASCII letters and digits.
- EquationUtils.RewrittenRootPrefixedAgain: stated for a plain argument E, meaning one with no parenthesis, no caret, no `√` and no bare math name. `EquationUtils.RewrittenRootAnyTail` states the general form, for any text after `math.sqrt(`.
- EquationUtils.SquareRootDoublePrefixed: stated for a plain argument E only. The whole conversion of `sqrt(E)` with E arbitrary is not stated as one lemma.
- EquationUtils.RootSignDoublePrefixed: stated for a plain argument E only. The whole conversion of `√(E)` with E arbitrary is not stated as one lemma.
- EquationUtils.NameCallPrefixed: stated for a plain argument E only. With another name, or a `sqrt(`, inside E, the passes also rewrite E.
- EquationUtils.SecondPassPrefixesAgain: stated for a plain argument E only. It shows non-idempotence by one family of inputs, not for every input.
- EquationUtils.ConvertKeepsSurrounding states preservation one character at a time on each side. The general "characters outside matches are kept in order" is given by the scanning lemmas, such as `RewriteCallsSkip` and `PrefixNameSplit`, rather than by one statement.
