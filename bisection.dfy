/** The bisection loop `bisection_method(f, a, b, tol)`: check that f changes
    sign across [a, b], then halve the bracket while its half-width exceeds
    tol, recording (a, b, c, f(c)) for every pass, and return the records
    with the last midpoint. Arithmetic is over exact reals and the evaluated
    equation is an arbitrary total function `f`. */
module Bisection {

  /** One row of the convergence trace: the bracket as it entered the pass,
      its midpoint and the value of f there. */
  datatype Record = Record(a: real, b: real, c: real, fc: real)

  /** The two ways the source fails: the `ValueError` raised when f does not
      change sign, and the `UnboundLocalError` of `return data, c` when the
      loop body never ran. */
  datatype Failure = NoBracket | UnboundRoot

  datatype Outcome = Solved(trace: seq<Record>, root: real) | Failed(reason: Failure)

  /** The halving step bounds the loop: while the half-width exceeds tol,
      the width measured in units of tol loses at least one whole unit. */
  lemma HalvingDecreases(w: real, tol: real)
    requires tol > 0.0 && w / 2.0 > tol
    ensures 0 <= ((w / 2.0) / tol).Floor < (w / tol).Floor
  {
    var x := w / tol;
    assert (w / 2.0) / tol == x / 2.0;
    assert x > 2.0 by {
      assert w > 2.0 * tol;
      assert x * tol == w;
    }
  }

  /** How many times a bracket of width w can still be halved before its
      half-width is within tol: the number of passes the loop has left
      unless it meets an exact zero. */
  function Budget(w: real, tol: real): (n: nat)
    requires tol > 0.0
    ensures n == 0 <==> w / 2.0 <= tol
    decreases (w / tol).Floor
  {
    if w / 2.0 <= tol then 0
    else
      HalvingDecreases(w, tol);
      1 + Budget(w / 2.0, tol)
  }

  /** The loop run as a value: the list `data` holds when the loop is entered
      with bracket [a, b] and `data` already recorded. A pass appends
      (a, b, c, f(c)) for the midpoint c, stops on an exact zero, and
      otherwise keeps [a, c] when `f(a) * f(c) < 0` and [c, b] when not. */
  function Run(f: real -> real, a: real, b: real, tol: real, data: seq<Record>): seq<Record>
    requires tol > 0.0
    decreases Budget(b - a, tol)
  {
    if (b - a) / 2.0 <= tol then data
    else
      var c := (a + b) / 2.0;
      var fc := f(c);
      var data' := data + [Record(a, b, c, fc)];
      if fc == 0.0 then data'
      else if f(a) * fc < 0.0 then Run(f, a, c, tol, data')
      else Run(f, c, b, tol, data')
  }

  /** The bracket a non-terminal pass that recorded `rec` goes on with:
      `b = c` when `f(a) * fc < 0`, and `a = c` otherwise. */
  function Kept(f: real -> real, rec: Record): (real, real) {
    if f(rec.a) * rec.fc < 0.0 then (rec.a, rec.c) else (rec.c, rec.b)
  }

  /** The records of a whole run from bracket [a, b]. */
  function Trace(f: real -> real, a: real, b: real, tol: real): seq<Record>
    requires tol > 0.0
  {
    Run(f, a, b, tol, [])
  }

  /** One pass of a run, unfolded: the midpoint record is appended and, unless
      it is an exact zero, the run goes on from the half `Kept` names. */
  lemma RunStep(f: real -> real, a: real, b: real, tol: real, data: seq<Record>)
    requires tol > 0.0 && (b - a) / 2.0 > tol
    ensures var c := (a + b) / 2.0;
      var rec := Record(a, b, c, f(c));
      Run(f, a, b, tol, data) ==
        if rec.fc == 0.0 then data + [rec]
        else Run(f, Kept(f, rec).0, Kept(f, rec).1, tol, data + [rec])
  {
  }

  /** What `bisection_method(f, a, b, tol)` does, as a value: `NoBracket`
      unless f(a) * f(b) < 0, `UnboundRoot` when the loop body never runs,
      and otherwise the trace with the midpoint of its last record. */
  function Bisection(f: real -> real, a: real, b: real, tol: real): (r: Outcome)
    requires tol > 0.0
  {
    if f(a) * f(b) >= 0.0 then Failed(NoBracket)
    else
      var t := Trace(f, a, b, tol);
      if t == [] then Failed(UnboundRoot) else Solved(t, t[|t| - 1].c)
  }

  /** The loop of the source, with the endpoints reassigned in place and the
      trace grown by appending. `f(a)` is evaluated afresh on every pass, as
      in the source; f is a mathematical function, so this is the value a
      cached f(a) would have. */
  method BisectionMethod(f: real -> real, a0: real, b0: real, tol: real) returns (r: Outcome)
    requires tol > 0.0
    ensures r == Bisection(f, a0, b0, tol)
  {
    if f(a0) * f(b0) >= 0.0 {
      return Failed(NoBracket);
    }
    var data: seq<Record> := [];
    var a, b := a0, b0;
    var c: real := 0.0;
    var cBound := false;  // whether Python's local `c` has been assigned
    while (b - a) / 2.0 > tol
      invariant Run(f, a, b, tol, data) == Trace(f, a0, b0, tol)
      invariant cBound <==> data != []
      invariant cBound ==> c == data[|data| - 1].c
      decreases Budget(b - a, tol)
    {
      c := (a + b) / 2.0;
      var fc := f(c);
      data := data + [Record(a, b, c, fc)];
      cBound := true;
      if fc == 0.0 {
        break;
      } else if f(a) * fc < 0.0 {
        b := c;
      } else {
        a := c;
      }
    }
    if !cBound {
      return Failed(UnboundRoot);
    }
    return Solved(data, c);
  }

  /** The bracket a pass goes on with is half as wide, so the run's budget
      of passes shrinks. */
  lemma KeptNarrower(f: real -> real, rec: Record, tol: real)
    requires tol > 0.0 && (rec.b - rec.a) / 2.0 > tol && rec.c == (rec.a + rec.b) / 2.0
    ensures Kept(f, rec).1 - Kept(f, rec).0 == (rec.b - rec.a) / 2.0
    ensures Budget(Kept(f, rec).1 - Kept(f, rec).0, tol) < Budget(rec.b - rec.a, tol)
  {
  }

  /** The trace only grows: a run keeps what was recorded before it and
      appends the records of its own passes after them. */
  lemma {:induction false} RunAppends(f: real -> real, a: real, b: real, tol: real, data: seq<Record>)
    requires tol > 0.0
    ensures Run(f, a, b, tol, data) == data + Trace(f, a, b, tol)
    decreases Budget(b - a, tol)
  {
    if (b - a) / 2.0 > tol {
      var c := (a + b) / 2.0;
      var rec := Record(a, b, c, f(c));
      if rec.fc != 0.0 {
        var (a', b') := Kept(f, rec);
        KeptNarrower(f, rec, tol);
        RunAppends(f, a', b', tol, data + [rec]);
        RunAppends(f, a', b', tol, [rec]);
        RunAppendsStep(f, a, b, tol, data, rec, a', b', Trace(f, a', b', tol));
      } else {
        RunStep(f, a, b, tol, data);
        RunStep(f, a, b, tol, []);
        assert [] + [rec] == [rec];
      }
    }
  }

  /** The step of RunAppends at a pass that goes on: both runs continue from
      the same half and so append the same records. */
  lemma RunAppendsStep(f: real -> real, a: real, b: real, tol: real, data: seq<Record>,
                       rec: Record, a': real, b': real, rest: seq<Record>)
    requires tol > 0.0 && (b - a) / 2.0 > tol
    requires rec == Record(a, b, (a + b) / 2.0, f((a + b) / 2.0)) && rec.fc != 0.0
    requires (a', b') == Kept(f, rec)
    requires Run(f, a', b', tol, data + [rec]) == data + [rec] + rest
    requires Run(f, a', b', tol, [rec]) == [rec] + rest
    ensures Run(f, a, b, tol, data) == data + Trace(f, a, b, tol)
  {
    RunStep(f, a, b, tol, data);
    RunStep(f, a, b, tol, []);
    assert [] + [rec] == [rec];
    assert data + [rec] + rest == data + ([rec] + rest);
  }

  /** The record a pass appends when it enters with bracket [a, b]: the
      bracket itself, its midpoint and the value of f there. */
  ghost predicate Probes(f: real -> real, rec: Record) {
    rec.c == (rec.a + rec.b) / 2.0 && rec.fc == f(rec.c)
  }

  /** How one non-terminal pass turns the record `rec` into the bracket of
      the next record: exactly one endpoint is replaced by the midpoint. */
  ghost predicate Narrows(f: real -> real, rec: Record, next: Record) {
    rec.fc != 0.0 && (next.a, next.b) == Kept(f, rec)
  }

  /** The rules a trace of the loop obeys, stated record by record: it is
      empty exactly when the first half-width is within tol; it starts at
      [a, b]; every record holds its bracket's midpoint and f there, for a
      bracket whose half-width exceeded tol; consecutive records follow
      `Narrows`; and the last record either hit an exact zero or left a
      bracket whose half-width is within tol. */
  ghost predicate ValidTrace(f: real -> real, a: real, b: real, tol: real, t: seq<Record>) {
    (t == [] <==> (b - a) / 2.0 <= tol) &&
    (t != [] ==> t[0].a == a && t[0].b == b) &&
    (forall i :: 0 <= i < |t| ==> Probes(f, t[i]) && (t[i].b - t[i].a) / 2.0 > tol) &&
    (forall i :: 0 <= i < |t| - 1 ==> Narrows(f, t[i], t[i + 1])) &&
    (t != [] ==> t[|t| - 1].fc == 0.0 || (t[|t| - 1].b - t[|t| - 1].a) / 4.0 <= tol)
  }

  /** The loop's trace obeys the rules. */
  lemma {:induction false} TraceValid(f: real -> real, a: real, b: real, tol: real)
    requires tol > 0.0
    ensures ValidTrace(f, a, b, tol, Trace(f, a, b, tol))
    decreases Budget(b - a, tol)
  {
    var t := Trace(f, a, b, tol);
    if (b - a) / 2.0 > tol {
      var c := (a + b) / 2.0;
      var rec := Record(a, b, c, f(c));
      RunStep(f, a, b, tol, []);
      assert [] + [rec] == [rec];
      if rec.fc != 0.0 {
        var (a', b') := Kept(f, rec);
        assert b' - a' == (b - a) / 2.0;
        TraceValid(f, a', b', tol);
        RunAppends(f, a', b', tol, [rec]);
        var u := Trace(f, a', b', tol);
        assert t == [rec] + u;
        if u != [] {
          assert Narrows(f, t[0], t[1]);
          forall i | 1 <= i < |t| - 1 ensures Narrows(f, t[i], t[i + 1]) {
            assert t[i] == u[i - 1] && t[i + 1] == u[i];
          }
        }
      }
    }
  }

  /** The rules leave no freedom: a trace that obeys them is the loop's. */
  lemma {:induction false} ValidTraceUnique(f: real -> real, a: real, b: real, tol: real, t: seq<Record>)
    requires tol > 0.0
    requires ValidTrace(f, a, b, tol, t)
    ensures t == Trace(f, a, b, tol)
    decreases |t|
  {
    if t != [] {
      var c := (a + b) / 2.0;
      var rec := Record(a, b, c, f(c));
      assert t[0] == rec;
      RunStep(f, a, b, tol, []);
      assert [] + [rec] == [rec];
      if rec.fc == 0.0 {
        forall i | 0 <= i < |t| - 1 ensures t[i].fc != 0.0 {
          assert Narrows(f, t[i], t[i + 1]);
        }
        assert |t| == 1;
      } else {
        var (a', b') := Kept(f, rec);
        assert b' - a' == (b - a) / 2.0;
        RunAppends(f, a', b', tol, [rec]);
        if |t| == 1 {
          assert Trace(f, a', b', tol) == [];
        } else {
          assert Narrows(f, t[0], t[1]);
          var u := t[1..];
          forall i | 0 <= i < |u| - 1 ensures Narrows(f, u[i], u[i + 1]) {
            assert u[i] == t[i + 1] && u[i + 1] == t[i + 2];
          }
          assert ValidTrace(f, a', b', tol, u);
          ValidTraceUnique(f, a', b', tol, u);
          assert t == [rec] + u;
        }
      }
    }
  }

  /** The three exits of `bisection_method`: `ValueError` exactly when
      f(a) * f(b) >= 0, `UnboundLocalError` exactly when the sign check
      passes but the body never runs, and otherwise the whole trace with the
      midpoint of its last record as the root. */
  lemma BisectionOutcomes(f: real -> real, a: real, b: real, tol: real)
    requires tol > 0.0
    ensures Bisection(f, a, b, tol) == Failed(NoBracket) <==> f(a) * f(b) >= 0.0
    ensures Bisection(f, a, b, tol) == Failed(UnboundRoot) <==> f(a) * f(b) < 0.0 && (b - a) / 2.0 <= tol
    ensures Bisection(f, a, b, tol).Solved? <==> f(a) * f(b) < 0.0 && (b - a) / 2.0 > tol
    ensures Bisection(f, a, b, tol).Solved? ==>
      var t := Bisection(f, a, b, tol).trace;
      t == Trace(f, a, b, tol) && t != [] && Bisection(f, a, b, tol).root == t[|t| - 1].c
  {
    TraceValid(f, a, b, tol);
  }

  /** Signs of three nonzero-product values: when f changes sign across
      [a, b] and f(c) is not zero, f changes sign across [a, c] or else
      across [c, b]. */
  lemma SignSplit(fa: real, fb: real, fc: real)
    requires fa * fb < 0.0 && fc != 0.0
    ensures fa * fc < 0.0 || fc * fb < 0.0
  {
    if fa < 0.0 {
      assert fb > 0.0;
      if fc < 0.0 { assert fc * fb < 0.0; } else { assert fa * fc < 0.0; }
    } else {
      assert fa > 0.0 && fb < 0.0;
      if fc < 0.0 { assert fa * fc < 0.0; } else { assert fc * fb < 0.0; }
    }
  }

  /** The bracketing invariant: when f(a) * f(b) < 0 at the start, every
      record's bracket still has f of opposite signs at its two ends. */
  lemma {:induction false} SignChangeKept(f: real -> real, a: real, b: real, tol: real, t: seq<Record>)
    requires tol > 0.0 && ValidTrace(f, a, b, tol, t)
    requires f(a) * f(b) < 0.0
    ensures forall i :: 0 <= i < |t| ==> f(t[i].a) * f(t[i].b) < 0.0
  {
    forall i | 0 <= i < |t| ensures f(t[i].a) * f(t[i].b) < 0.0 {
      SignChangeAt(f, a, b, tol, t, i);
    }
  }

  lemma {:induction false} SignChangeAt(f: real -> real, a: real, b: real, tol: real, t: seq<Record>, i: nat)
    requires tol > 0.0 && ValidTrace(f, a, b, tol, t)
    requires f(a) * f(b) < 0.0 && i < |t|
    ensures f(t[i].a) * f(t[i].b) < 0.0
  {
    if i > 0 {
      SignChangeAt(f, a, b, tol, t, i - 1);
      var rec := t[i - 1];
      assert Narrows(f, rec, t[i]);
      assert Probes(f, rec);
      SignSplit(f(rec.a), f(rec.b), rec.fc);
    }
  }

  /** `inner` is one half of `outer`: it lies inside it, shares one endpoint
      with it and is exactly half as wide. */
  ghost predicate HalfOf(inner: Record, outer: Record) {
    outer.a <= inner.a < inner.b <= outer.b &&
    inner.b - inner.a == (outer.b - outer.a) / 2.0 &&
    (inner.a == outer.a || inner.b == outer.b)
  }

  /** Consecutive records are nested and halving. */
  lemma NestedHalving(f: real -> real, a: real, b: real, tol: real, t: seq<Record>)
    requires tol > 0.0 && ValidTrace(f, a, b, tol, t)
    ensures forall i :: 0 <= i < |t| - 1 ==> HalfOf(t[i + 1], t[i])
  {
    forall i | 0 <= i < |t| - 1 ensures HalfOf(t[i + 1], t[i]) {
      assert Narrows(f, t[i], t[i + 1]);
      assert Probes(f, t[i]);
    }
  }

  /** 2 to the power n, as a real. */
  function Pow2(n: nat): (p: real)
    ensures p >= 1.0
  {
    if n == 0 then 1.0 else 2.0 * Pow2(n - 1)
  }

  /** The i-th record's bracket is the starting bracket halved i times. */
  lemma {:induction false} WidthAt(f: real -> real, a: real, b: real, tol: real, t: seq<Record>, i: nat)
    requires tol > 0.0 && ValidTrace(f, a, b, tol, t) && i < |t|
    ensures (t[i].b - t[i].a) * Pow2(i) == b - a
  {
    if i > 0 {
      WidthAt(f, a, b, tol, t, i - 1);
      NestedHalving(f, a, b, tol, t);
      assert HalfOf(t[i], t[i - 1]);
      HalveDouble(t[i - 1].b - t[i - 1].a, Pow2(i - 1));
    }
  }

  /** Halving a width while doubling its multiplier keeps the product. */
  lemma HalveDouble(w: real, p: real)
    ensures (w / 2.0) * (2.0 * p) == w * p
  {
  }

  /** The loop runs O(log2((b - a) / tol)) times: a trace of n records
      needs a starting width above 2 * tol * 2^(n-1). */
  lemma IterationBound(f: real -> real, a: real, b: real, tol: real)
    requires tol > 0.0
    ensures var n := |Trace(f, a, b, tol)|;
      n > 0 ==> 2.0 * tol * Pow2(n - 1) < b - a
  {
    var t := Trace(f, a, b, tol);
    TraceValid(f, a, b, tol);
    if t != [] {
      var n := |t|;
      WidthAt(f, a, b, tol, t, n - 1);
      var w := t[n - 1].b - t[n - 1].a;
      assert w > 2.0 * tol;
      var p := Pow2(n - 1);
      assert w * p > (2.0 * tol) * p by {
        assert (w - 2.0 * tol) * p > 0.0;
      }
    }
  }

  /** What the returned root means: either f is exactly zero there, or it is
      an endpoint of the final bracket, which still has a sign change of f
      across it and a half-width within tol. */
  lemma RootBracketed(f: real -> real, a: real, b: real, tol: real)
    requires tol > 0.0
    requires Bisection(f, a, b, tol).Solved?
    ensures var root := Bisection(f, a, b, tol).root;
      f(root) == 0.0 ||
      exists lo: real, hi: real :: (root == lo || root == hi) &&
        (hi - lo) / 2.0 <= tol && lo < hi && f(lo) * f(hi) < 0.0
  {
    var t := Trace(f, a, b, tol);
    TraceValid(f, a, b, tol);
    SignChangeKept(f, a, b, tol, t);
    var last := t[|t| - 1];
    assert Probes(f, last);
    if last.fc != 0.0 {
      var (lo, hi) := Kept(f, last);
      SignSplit(f(last.a), f(last.b), last.fc);
      assert f(lo) * f(hi) < 0.0;
      assert last.c == lo || last.c == hi;
    }
  }

  /** The form's default run, f(x) = x^3 - x - 2 on [1, 2] with tol 0.01:
      the first record is (1, 2, 1.5, -0.125), the second bracket is
      [1.5, 2], and six passes end at the root estimate 1.515625. */
  lemma FormDefaults()
    ensures var f := (x: real) => x * x * x - x - 2.0;
      var r := Bisection(f, 1.0, 2.0, 0.01);
      r.Solved? && |r.trace| == 6 &&
      r.trace[0] == Record(1.0, 2.0, 1.5, -0.125) &&
      r.trace[1].a == 1.5 && r.trace[1].b == 2.0 &&
      r.root == 1.515625
  {
    var f := (x: real) => x * x * x - x - 2.0;
    var tol := 0.01;
    var r0 := Record(1.0, 2.0, 1.5, -0.125);
    var r1 := Record(1.5, 2.0, 1.75, f(1.75));
    var r2 := Record(1.5, 1.75, 1.625, f(1.625));
    var r3 := Record(1.5, 1.625, 1.5625, f(1.5625));
    var r4 := Record(1.5, 1.5625, 1.53125, f(1.53125));
    var r5 := Record(1.5, 1.53125, 1.515625, f(1.515625));
    assert f(1.0) * f(2.0) < 0.0;
    RunStep(f, 1.0, 2.0, tol, []);
    assert [] + [r0] == [r0];
    RunStep(f, 1.5, 2.0, tol, [r0]);
    RunStep(f, 1.5, 1.75, tol, [r0, r1]);
    RunStep(f, 1.5, 1.625, tol, [r0, r1, r2]);
    RunStep(f, 1.5, 1.5625, tol, [r0, r1, r2, r3]);
    RunStep(f, 1.5, 1.53125, tol, [r0, r1, r2, r3, r4]);
    assert Trace(f, 1.0, 2.0, tol) == [r0, r1, r2, r3, r4, r5];
  }

  /** f(x) = x^2 + 1 on [-1, 1] has no sign change and is rejected. */
  lemma NoSignChangeRejected()
    ensures Bisection((x: real) => x * x + 1.0, -1.0, 1.0, 0.01) == Failed(NoBracket)
  {
    var f := (x: real) => x * x + 1.0;
    assert f(-1.0) * f(1.0) == 4.0;
  }
}
