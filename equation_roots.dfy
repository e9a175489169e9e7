/**
 * The nonlinear equation solver of lab 4 (lab4/lab_4.py): a scanner that looks
 * for sign changes of f on a grid over [-1000, 1000], a guarded Newton
 * (tangent) method that refines one interval, the batch filter that runs the
 * refiner over every bracket, and the session object whose list of roots grows
 * when the user tries an interval of their own.
 *
 * The equation and its first and second derivatives, which the program builds
 * with sympy, are parameters `f`, `df` and `d2f` of type real -> real, and all
 * arithmetic is exact real arithmetic instead of IEEE doubles.
 */
module EquationRoots {
  import opened Wrappers
  import opened RealArith

  /** Ends of the scanned range and the default grid step. */
  const ScanLow: real := -1000.0
  const ScanHigh: real := 1000.0
  const DefaultStep: real := 1.0

  /** The Newton loop runs `range(1000)`. */
  const MaxNewtonSteps: nat := 1000

  /** An iterate further than this outside [a, b] stops the Newton loop. */
  const EscapeMargin: real := 3.0

  /** A pair (a, b), the Python tuple the scanner appends. */
  datatype Interval = Interval(lo: real, hi: real)

  // ---------------------------------------------------------------------------
  // Bracket scanner: find_solution_intervals
  // ---------------------------------------------------------------------------

  /** Python's `int(x)` on a real: truncation toward zero. */
  function Trunc(x: real): (n: int)
    ensures x >= 0.0 ==> 0 <= n && n as real <= x < n as real + 1.0
    ensures x < 0.0 ==> n <= 0 && n as real - 1.0 < x <= n as real
  {
    if x >= 0.0 then x.Floor else -((-x).Floor)
  }

  /**
   * How many sample pairs the scanner visits: `range(int(2000 / step))`,
   * which is empty when the count is negative.
   */
  function SampleCount(step: real): (n: nat)
    requires step != 0.0
    ensures step > 0.0 ==> n as real * step <= ScanHigh - ScanLow < (n + 1) as real * step
    ensures step < 0.0 ==> n == 0
  {
    var t := Trunc((ScanHigh - ScanLow) / step);
    if t < 0 then 0 else t
  }

  /** The left end of the k-th sample pair: -1000 + k * step. */
  function GridPoint(step: real, k: nat): real
  {
    ScanLow + k as real * step
  }

  /** The k-th sample pair (a, a + step). */
  function GridInterval(step: real, k: nat): Interval
  {
    Interval(GridPoint(step, k), GridPoint(step, k) + step)
  }

  /** The test of the scanner: f(a) * f(b) < 0, so a zero sample never qualifies. */
  predicate SignChange(f: real -> real, iv: Interval)
  {
    f(iv.lo) * f(iv.hi) < 0.0
  }

  /** The brackets found among the first k sample pairs, in scan order. */
  function Brackets(f: real -> real, step: real, k: nat): seq<Interval>
  {
    if k == 0 then []
    else
      Brackets(f, step, k - 1) +
      (if SignChange(f, GridInterval(step, k - 1)) then [GridInterval(step, k - 1)] else [])
  }

  /**
   * find_solution_intervals: sweep the grid left to right, evaluating f twice
   * per pair, and keep each pair across which f changes sign. The Python code's
   * `num_epoch` argument is never read and is not a parameter here.
   */
  method FindSolutionIntervals(f: real -> real, step: real) returns (intervals: seq<Interval>)
    requires step != 0.0
    ensures intervals == Brackets(f, step, SampleCount(step))
  {
    intervals := [];
    var a, b := ScanLow, ScanHigh;
    var n := Trunc((b - a) / step);
    b := a + step;
    var k := 0;
    while k < n
      invariant 0 <= k <= SampleCount(step)
      invariant a == GridPoint(step, k) && b == a + step
      invariant intervals == Brackets(f, step, k)
    {
      if f(a) * f(b) < 0.0 {
        intervals := intervals + [Interval(a, b)];
      }
      a := b;
      b := b + step;
      k := k + 1;
    }
  }

  /** Every reported bracket has a strict sign change across its ends. */
  lemma {:induction false} BracketsChangeSign(f: real -> real, step: real, k: nat)
    ensures forall iv :: iv in Brackets(f, step, k) ==> SignChange(f, iv)
  {
    if k > 0 {
      BracketsChangeSign(f, step, k - 1);
    }
  }

  /** A grid point where f is exactly zero is never the end of a bracket. */
  lemma ZeroSampleNeverBounds(f: real -> real, step: real, k: nat, x: real)
    requires f(x) == 0.0
    ensures forall iv :: iv in Brackets(f, step, k) ==> iv.lo != x && iv.hi != x
  {
    BracketsChangeSign(f, step, k);
  }

  /**
   * The brackets are exactly the sign-changing sample pairs (-1000 + j * step,
   * -1000 + (j + 1) * step) with j < k.
   */
  lemma {:induction false} BracketsAreSignChangingPairs(f: real -> real, step: real, k: nat)
    ensures forall j: nat :: j < k && SignChange(f, GridInterval(step, j)) ==>
      GridInterval(step, j) in Brackets(f, step, k)
    ensures forall iv :: iv in Brackets(f, step, k) ==>
      exists j: nat :: j < k && iv == GridInterval(step, j) && SignChange(f, iv)
  {
    if k > 0 {
      BracketsAreSignChangingPairs(f, step, k - 1);
    }
  }

  /** There are at most as many brackets as sample pairs. */
  lemma {:induction false} BracketsCount(f: real -> real, step: real, k: nat)
    ensures |Brackets(f, step, k)| <= k
  {
    if k > 0 {
      BracketsCount(f, step, k - 1);
    }
  }

  /** The scan comes back empty exactly when no sample pair changes sign. */
  lemma {:induction false} BracketsEmptyIff(f: real -> real, step: real, k: nat)
    ensures Brackets(f, step, k) == [] <==>
      forall j: nat :: j < k ==> !SignChange(f, GridInterval(step, j))
  {
    BracketsAreSignChangingPairs(f, step, k);
    if Brackets(f, step, k) != [] {
      assert Brackets(f, step, k)[0] in Brackets(f, step, k);
    }
  }

  lemma GridPointMonotone(step: real, j: nat, k: nat)
    requires step > 0.0 && j <= k
    ensures GridPoint(step, j) <= GridPoint(step, k)
  {
    assert (k - j) as real * step >= 0.0;
  }

  /** Every bracket among the first k pairs lies within [-1000, -1000 + k * step]. */
  lemma {:induction false} BracketsBelow(f: real -> real, step: real, k: nat)
    requires step > 0.0
    ensures forall iv :: iv in Brackets(f, step, k) ==>
      ScanLow <= iv.lo < iv.hi <= GridPoint(step, k)
  {
    if k > 0 {
      BracketsBelow(f, step, k - 1);
      GridPointMonotone(step, 0, k - 1);
      GridPointMonotone(step, k - 1, k);
      forall iv | iv in Brackets(f, step, k - 1)
        ensures iv.hi <= GridPoint(step, k)
      {
        assert iv.hi <= GridPoint(step, k - 1);
      }
    }
  }

  /** Each interval is proper and ends where or before the next one starts. */
  predicate NonOverlapping(s: seq<Interval>)
  {
    && (forall p :: 0 <= p < |s| ==> s[p].lo < s[p].hi)
    && (forall p, q :: 0 <= p < q < |s| ==> s[p].hi <= s[q].lo)
  }

  /** A proper interval that starts after every interval of s can be appended. */
  lemma AppendAfter(s: seq<Interval>, iv: Interval)
    requires NonOverlapping(s) && iv.lo < iv.hi
    requires forall p :: 0 <= p < |s| ==> s[p].hi <= iv.lo
    ensures NonOverlapping(s + [iv])
  {
    var t := s + [iv];
    forall p, q | 0 <= p < q < |t|
      ensures t[p].hi <= t[q].lo
    {
      if q < |s| {
        assert t[p] == s[p] && t[q] == s[q];
      } else {
        assert t[p] == s[p] && t[q] == iv;
      }
    }
  }

  /**
   * With a positive step the brackets come in strictly increasing order and do
   * not overlap: each one ends where or before the next one starts.
   */
  lemma {:induction false} BracketsIncreasing(f: real -> real, step: real, k: nat)
    requires step > 0.0
    ensures NonOverlapping(Brackets(f, step, k))
  {
    if k > 0 {
      BracketsIncreasing(f, step, k - 1);
      if SignChange(f, GridInterval(step, k - 1)) {
        AppendNextBracket(f, step, k - 1);
      } else {
        assert Brackets(f, step, k) == Brackets(f, step, k - 1);
      }
    }
  }

  /** The k-th pair starts where every earlier bracket has already ended. */
  lemma AppendNextBracket(f: real -> real, step: real, k: nat)
    requires step > 0.0 && NonOverlapping(Brackets(f, step, k))
    ensures NonOverlapping(Brackets(f, step, k) + [GridInterval(step, k)])
  {
    var prefix := Brackets(f, step, k);
    BracketsBelow(f, step, k);
    assert forall p :: 0 <= p < |prefix| ==> prefix[p] in prefix;
    AppendAfter(prefix, GridInterval(step, k));
  }

  // ---------------------------------------------------------------------------
  // Root refiner: neuton_method
  // ---------------------------------------------------------------------------

  /**
   * How one Newton run ends. `Escaped` and `Exhausted` are the two ways the
   * program returns None; `DivisionByZero` is the ZeroDivisionError that the
   * program raises when f'(prev) is zero.
   */
  datatype NewtonOutcome =
    | Converged(root: real)
    | Escaped
    | Exhausted
    | DivisionByZero(at: real)

  /** The start rule: a when f(a) * f''(a) >= 0, otherwise b. */
  function StartPoint(f: real -> real, d2f: real -> real, a: real, b: real): (x0: real)
    ensures x0 == a || x0 == b
    ensures f(a) * d2f(a) >= 0.0 ==> x0 == a
    ensures f(a) * d2f(a) < 0.0 ==> x0 == b
  {
    if f(a) * d2f(a) >= 0.0 then a else b
  }

  /** One tangent step x - f(x) / f'(x). */
  function NewtonStep(f: real -> real, df: real -> real, x: real): real
    requires df(x) != 0.0
  {
    x - f(x) / df(x)
  }

  /** The divergence guard of the program, `x + 3 < a or x - 3 > b`. */
  predicate OutOfReach(a: real, b: real, x: real): (out: bool)
    ensures out <==> !(a - EscapeMargin <= x <= b + EscapeMargin)
  {
    x + EscapeMargin < a || x - EscapeMargin > b
  }

  /** The Newton loop from the iterate `prev` with `fuel` steps left. */
  function Iterate(f: real -> real, df: real -> real, a: real, b: real, eps: real,
                   prev: real, fuel: nat): (r: NewtonOutcome)
    ensures r.Converged? ==> a - EscapeMargin <= r.root <= b + EscapeMargin
    ensures r.DivisionByZero? ==> df(r.at) == 0.0
    decreases fuel
  {
    if fuel == 0 then Exhausted
    else if df(prev) == 0.0 then DivisionByZero(prev)
    else
      var x := NewtonStep(f, df, prev);
      if OutOfReach(a, b, x) then Escaped
      else if Abs(x - prev) <= eps then Converged(x)
      else Iterate(f, df, a, b, eps, x, fuel - 1)
  }

  /** The whole refinement of [a, b]: at most 1000 steps from the start point. */
  function Newton(f: real -> real, df: real -> real, d2f: real -> real,
                  a: real, b: real, eps: real): (r: NewtonOutcome)
    ensures r.Converged? ==> a - EscapeMargin <= r.root <= b + EscapeMargin
    ensures r.DivisionByZero? ==> df(r.at) == 0.0
    ensures df(StartPoint(f, d2f, a, b)) == 0.0 ==> r == DivisionByZero(StartPoint(f, d2f, a, b))
  {
    Iterate(f, df, a, b, eps, StartPoint(f, d2f, a, b), MaxNewtonSteps)
  }

  /** x is one tangent step, of length at most eps, away from p. */
  predicate ConvergedAfter(f: real -> real, df: real -> real, eps: real, p: real, x: real)
  {
    df(p) != 0.0 && x == NewtonStep(f, df, p) && Abs(x - p) <= eps
  }

  /**
   * The iterate reached after m tangent steps from x0; a zero derivative stops
   * the sequence where it is (the run itself fails there).
   */
  function NthIterate(f: real -> real, df: real -> real, x0: real, m: nat): real
    decreases m
  {
    if m == 0 || df(x0) == 0.0 then x0
    else NthIterate(f, df, NewtonStep(f, df, x0), m - 1)
  }

  /** The loop goes on after the iterate p: the step is defined, stays in reach and is longer than eps. */
  predicate Continues(f: real -> real, df: real -> real, a: real, b: real, eps: real, p: real)
  {
    df(p) != 0.0 && !OutOfReach(a, b, NewtonStep(f, df, p)) && Abs(NewtonStep(f, df, p) - p) > eps
  }

  /** The run from `prev` goes on after each of its first m iterates, so it reaches iterate m. */
  ghost predicate Reaches(f: real -> real, df: real -> real, a: real, b: real, eps: real, prev: real, m: nat)
  {
    forall i: nat :: i < m ==> Continues(f, df, a, b, eps, NthIterate(f, df, prev, i))
  }

  /** Going on after `prev` and then reaching iterate m from the next point reaches iterate m + 1. */
  lemma ReachesStep(f: real -> real, df: real -> real, a: real, b: real, eps: real, prev: real, m: nat)
    requires Continues(f, df, a, b, eps, prev)
    requires Reaches(f, df, a, b, eps, NewtonStep(f, df, prev), m)
    ensures Reaches(f, df, a, b, eps, prev, m + 1)
    ensures NthIterate(f, df, prev, m + 1) == NthIterate(f, df, NewtonStep(f, df, prev), m)
  {
    var y := NewtonStep(f, df, prev);
    forall i: nat | i < m + 1
      ensures Continues(f, df, a, b, eps, NthIterate(f, df, prev, i))
    {
      if i > 0 {
        assert NthIterate(f, df, prev, i) == NthIterate(f, df, y, i - 1);
      }
    }
  }

  /** Reaching iterate m > 0 means going on after `prev` and reaching iterate m - 1 from the next point. */
  lemma ReachesTail(f: real -> real, df: real -> real, a: real, b: real, eps: real, prev: real, m: nat)
    requires m > 0 && Reaches(f, df, a, b, eps, prev, m)
    ensures Continues(f, df, a, b, eps, prev)
    ensures Reaches(f, df, a, b, eps, NewtonStep(f, df, prev), m - 1)
    ensures NthIterate(f, df, prev, m) == NthIterate(f, df, NewtonStep(f, df, prev), m - 1)
  {
    assert NthIterate(f, df, prev, 0) == prev;
    var y := NewtonStep(f, df, prev);
    forall i: nat | i < m - 1
      ensures Continues(f, df, a, b, eps, NthIterate(f, df, y, i))
    {
      assert NthIterate(f, df, prev, i + 1) == NthIterate(f, df, y, i);
    }
  }

  /**
   * A run that has reached iterate m within its budget goes on exactly as a
   * run started there with the remaining budget.
   */
  lemma {:induction false} IterateSkip(f: real -> real, df: real -> real, a: real, b: real,
                                       eps: real, prev: real, fuel: nat, m: nat)
    requires m <= fuel && Reaches(f, df, a, b, eps, prev, m)
    ensures Iterate(f, df, a, b, eps, prev, fuel) ==
      Iterate(f, df, a, b, eps, NthIterate(f, df, prev, m), fuel - m)
    decreases m
  {
    if m > 0 {
      ReachesTail(f, df, a, b, eps, prev, m);
      IterateSkip(f, df, a, b, eps, NewtonStep(f, df, prev), fuel - 1, m - 1);
    }
  }

  /**
   * A converged run returns a point within [a - 3, b + 3] that is one tangent
   * step, no longer than eps, away from the m-th iterate from `prev`, for some
   * m below the step budget that the run reaches: every earlier step went on.
   */
  lemma {:induction false} IterateConverged(f: real -> real, df: real -> real, a: real, b: real,
                                            eps: real, prev: real, fuel: nat, x: real)
    requires Iterate(f, df, a, b, eps, prev, fuel) == Converged(x)
    ensures a - EscapeMargin <= x <= b + EscapeMargin
    ensures exists m: nat :: (m < fuel && Reaches(f, df, a, b, eps, prev, m) &&
      ConvergedAfter(f, df, eps, NthIterate(f, df, prev, m), x))
    decreases fuel
  {
    if Continues(f, df, a, b, eps, prev) {
      var y := NewtonStep(f, df, prev);
      IterateConverged(f, df, a, b, eps, y, fuel - 1, x);
      var m: nat :| m < fuel - 1 && Reaches(f, df, a, b, eps, y, m) &&
        ConvergedAfter(f, df, eps, NthIterate(f, df, y, m), x);
      ReachesStep(f, df, a, b, eps, prev, m);
    } else {
      assert NthIterate(f, df, prev, 0) == prev;
      assert Reaches(f, df, a, b, eps, prev, 0);
    }
  }

  /**
   * An escaped run reached some iterate m below the budget whose tangent step
   * leaves [a - 3, b + 3].
   */
  lemma {:induction false} IterateEscaped(f: real -> real, df: real -> real, a: real, b: real,
                                          eps: real, prev: real, fuel: nat)
    requires Iterate(f, df, a, b, eps, prev, fuel) == Escaped
    ensures exists m: nat :: (m < fuel && Reaches(f, df, a, b, eps, prev, m) &&
      df(NthIterate(f, df, prev, m)) != 0.0 &&
      OutOfReach(a, b, NewtonStep(f, df, NthIterate(f, df, prev, m))))
    decreases fuel
  {
    if Continues(f, df, a, b, eps, prev) {
      var y := NewtonStep(f, df, prev);
      IterateEscaped(f, df, a, b, eps, y, fuel - 1);
      var m: nat :| m < fuel - 1 && Reaches(f, df, a, b, eps, y, m) &&
        df(NthIterate(f, df, y, m)) != 0.0 && OutOfReach(a, b, NewtonStep(f, df, NthIterate(f, df, y, m)));
      ReachesStep(f, df, a, b, eps, prev, m);
    } else {
      assert NthIterate(f, df, prev, 0) == prev;
      assert Reaches(f, df, a, b, eps, prev, 0);
    }
  }

  /** A run that divided by zero reached some iterate m below the budget where f' is 0. */
  lemma {:induction false} IterateDividedByZero(f: real -> real, df: real -> real, a: real, b: real,
                                                eps: real, prev: real, fuel: nat, p: real)
    requires Iterate(f, df, a, b, eps, prev, fuel) == DivisionByZero(p)
    ensures exists m: nat :: (m < fuel && Reaches(f, df, a, b, eps, prev, m) &&
      p == NthIterate(f, df, prev, m) && df(p) == 0.0)
    decreases fuel
  {
    if Continues(f, df, a, b, eps, prev) {
      var y := NewtonStep(f, df, prev);
      IterateDividedByZero(f, df, a, b, eps, y, fuel - 1, p);
      var m: nat :| m < fuel - 1 && Reaches(f, df, a, b, eps, y, m) &&
        p == NthIterate(f, df, y, m) && df(p) == 0.0;
      ReachesStep(f, df, a, b, eps, prev, m);
    } else {
      assert NthIterate(f, df, prev, 0) == prev;
      assert Reaches(f, df, a, b, eps, prev, 0);
    }
  }

  /** An exhausted run went on after every one of its `fuel` iterates. */
  lemma {:induction false} IterateExhausted(f: real -> real, df: real -> real, a: real, b: real,
                                            eps: real, prev: real, fuel: nat)
    requires Iterate(f, df, a, b, eps, prev, fuel) == Exhausted
    ensures Reaches(f, df, a, b, eps, prev, fuel)
    decreases fuel
  {
    if fuel > 0 {
      var y := NewtonStep(f, df, prev);
      IterateExhausted(f, df, a, b, eps, y, fuel - 1);
      ReachesStep(f, df, a, b, eps, prev, fuel - 1);
    }
  }

  /**
   * A run that stopped (converged, escaped or hit a zero derivative) within
   * its step budget ends the same way with any larger budget: the cap of 1000
   * only ever turns a still-running iteration into `Exhausted`.
   */
  lemma {:induction false} IterateDecidedWithinFuel(f: real -> real, df: real -> real, a: real, b: real,
                                                    eps: real, prev: real, fuel: nat, extra: nat)
    requires Iterate(f, df, a, b, eps, prev, fuel) != Exhausted
    ensures Iterate(f, df, a, b, eps, prev, fuel + extra) == Iterate(f, df, a, b, eps, prev, fuel)
    decreases fuel
  {
    if df(prev) != 0.0 {
      var y := NewtonStep(f, df, prev);
      if !OutOfReach(a, b, y) && Abs(y - prev) > eps {
        IterateDecidedWithinFuel(f, df, a, b, eps, y, fuel - 1, extra);
      }
    }
  }

  /**
   * The run starts at a when f(a) * f''(a) >= 0 and at b otherwise: a zero
   * derivative there fails at once, and a first step out of [a - 3, b + 3]
   * escapes at once.
   */
  lemma NewtonFirstStep(f: real -> real, df: real -> real, d2f: real -> real,
                        a: real, b: real, eps: real)
    ensures var start := if f(a) * d2f(a) >= 0.0 then a else b;
      && (df(start) == 0.0 ==> Newton(f, df, d2f, a, b, eps) == DivisionByZero(start))
      && (df(start) != 0.0 && OutOfReach(a, b, start - f(start) / df(start)) ==>
            Newton(f, df, d2f, a, b, eps) == Escaped)
  {
  }

  /**
   * When a is an exact root, f(a) * f''(a) is 0, the run starts at a, the first
   * step does not move, and a itself is returned.
   */
  lemma ExactRootAtLeftEnd(f: real -> real, df: real -> real, d2f: real -> real,
                           a: real, b: real, eps: real)
    requires f(a) == 0.0 && df(a) != 0.0
    requires eps >= 0.0 && a - EscapeMargin <= b
    ensures Newton(f, df, d2f, a, b, eps) == Converged(a)
  {
    assert StartPoint(f, d2f, a, b) == a;
    assert NewtonStep(f, df, a) == a;
  }

  /**
   * A converged refinement of [a, b] lies within [a - 3, b + 3] and is one
   * tangent step, of length at most eps, away from the m-th iterate of the run
   * from the chosen start point, with m below the cap of 1000 steps, and the
   * run reached that iterate: every earlier step went on.
   */
  lemma NewtonConverged(f: real -> real, df: real -> real, d2f: real -> real,
                        a: real, b: real, eps: real)
    ensures Newton(f, df, d2f, a, b, eps).Converged? ==>
      var x := Newton(f, df, d2f, a, b, eps).root;
      a - EscapeMargin <= x <= b + EscapeMargin &&
      exists m: nat :: m < MaxNewtonSteps && Reaches(f, df, a, b, eps, StartPoint(f, d2f, a, b), m) &&
        ConvergedAfter(f, df, eps, NthIterate(f, df, StartPoint(f, d2f, a, b), m), x)
  {
    var r := Newton(f, df, d2f, a, b, eps);
    if r.Converged? {
      IterateConverged(f, df, a, b, eps, StartPoint(f, d2f, a, b), MaxNewtonSteps, r.root);
    }
  }

  /**
   * The two ways a refinement returns None, and its ZeroDivisionError: an
   * escape happens at the first reached iterate whose step leaves
   * [a - 3, b + 3]; exhaustion means all 1000 steps went on; a division by
   * zero happens at a reached iterate where f' is 0.
   */
  lemma NewtonStops(f: real -> real, df: real -> real, d2f: real -> real,
                    a: real, b: real, eps: real)
    ensures var x0 := StartPoint(f, d2f, a, b);
      Newton(f, df, d2f, a, b, eps) == Escaped ==>
        exists m: nat :: m < MaxNewtonSteps && Reaches(f, df, a, b, eps, x0, m) &&
          df(NthIterate(f, df, x0, m)) != 0.0 && OutOfReach(a, b, NewtonStep(f, df, NthIterate(f, df, x0, m)))
    ensures var x0 := StartPoint(f, d2f, a, b);
      Newton(f, df, d2f, a, b, eps) == Exhausted ==> Reaches(f, df, a, b, eps, x0, MaxNewtonSteps)
    ensures var x0 := StartPoint(f, d2f, a, b);
      Newton(f, df, d2f, a, b, eps).DivisionByZero? ==>
        exists m: nat :: m < MaxNewtonSteps && Reaches(f, df, a, b, eps, x0, m) &&
          Newton(f, df, d2f, a, b, eps).at == NthIterate(f, df, x0, m)
  {
    var x0 := StartPoint(f, d2f, a, b);
    var r := Newton(f, df, d2f, a, b, eps);
    if r == Escaped {
      IterateEscaped(f, df, a, b, eps, x0, MaxNewtonSteps);
    } else if r == Exhausted {
      IterateExhausted(f, df, a, b, eps, x0, MaxNewtonSteps);
    } else if r.DivisionByZero? {
      IterateDividedByZero(f, df, a, b, eps, x0, MaxNewtonSteps, r.at);
    }
  }

  /**
   * Conversely, the outcome is decided at the first reached iterate where the
   * loop does not go on: a run that reaches iterate m < 1000 ends exactly as a
   * run of 1000 - m steps from there.
   */
  lemma NewtonFromReached(f: real -> real, df: real -> real, d2f: real -> real,
                          a: real, b: real, eps: real, m: nat)
    requires m <= MaxNewtonSteps && Reaches(f, df, a, b, eps, StartPoint(f, d2f, a, b), m)
    ensures Newton(f, df, d2f, a, b, eps) ==
      Iterate(f, df, a, b, eps, NthIterate(f, df, StartPoint(f, d2f, a, b), m), MaxNewtonSteps - m)
  {
    IterateSkip(f, df, a, b, eps, StartPoint(f, d2f, a, b), MaxNewtonSteps, m);
  }

  /**
   * neuton_method: pick the start point, then take up to 1000 tangent steps,
   * stopping when an iterate escapes [a - 3, b + 3] or moves by at most eps.
   */
  method NewtonMethod(f: real -> real, df: real -> real, d2f: real -> real,
                      a: real, b: real, eps: real) returns (r: NewtonOutcome)
    ensures r == Newton(f, df, d2f, a, b, eps)
  {
    var prev := StartPoint(f, d2f, a, b);
    var i := 0;
    while i < MaxNewtonSteps
      invariant 0 <= i <= MaxNewtonSteps
      invariant Iterate(f, df, a, b, eps, prev, MaxNewtonSteps - i) == Newton(f, df, d2f, a, b, eps)
    {
      if df(prev) == 0.0 {
        return DivisionByZero(prev);
      }
      var x := NewtonStep(f, df, prev);
      if OutOfReach(a, b, x) {
        // the program breaks out of the loop and falls through to `return None`
        return Escaped;
      }
      if Abs(x - prev) <= eps {
        return Converged(x);
      }
      prev := x;
      i := i + 1;
    }
    return Exhausted;
  }

  // ---------------------------------------------------------------------------
  // Batch filter: get_results
  // ---------------------------------------------------------------------------

  /** The exception that escapes get_results when a refinement divides by zero. */
  datatype Fault = ZeroDerivativeAt(x: real)

  /** Refine one interval with the session's precision. */
  function Refine(f: real -> real, df: real -> real, d2f: real -> real, eps: real,
                  iv: Interval): NewtonOutcome
  {
    Newton(f, df, d2f, iv.lo, iv.hi, eps)
  }

  /** The list `results` of get_results: one refinement per interval, in order. */
  function RefineAll(f: real -> real, df: real -> real, d2f: real -> real, eps: real,
                     ivs: seq<Interval>): (outs: seq<NewtonOutcome>)
    ensures |outs| == |ivs|
    ensures forall i :: 0 <= i < |ivs| ==> outs[i] == Newton(f, df, d2f, ivs[i].lo, ivs[i].hi, eps)
  {
    seq(|ivs|, i requires 0 <= i < |ivs| => Refine(f, df, d2f, eps, ivs[i]))
  }

  /** `if result` keeps a result that is neither None nor 0.0. */
  predicate Kept(o: NewtonOutcome)
  {
    o.Converged? && o.root != 0.0
  }

  /**
   * `[result for result in results if result]`, where a refinement that divided
   * by zero has already aborted the whole call with its exception.
   */
  function CleanResults(outs: seq<NewtonOutcome>): (r: Result<seq<real>, Fault>)
    ensures r.Ok? ==> |r.value| <= |outs| && forall i :: 0 <= i < |r.value| ==> r.value[i] != 0.0
    ensures r.Err? ==> DivisionByZero(r.error.x) in outs
  {
    if outs == [] then Ok([])
    else if outs[0].DivisionByZero? then Err(ZeroDerivativeAt(outs[0].at))
    else
      match CleanResults(outs[1..])
      case Err(e) => Err(e)
      case Ok(rest) => Ok((if Kept(outs[0]) then [outs[0].root] else []) + rest)
  }

  /** get_results: no intervals (None or an empty list) give no roots. */
  function GetResults(f: real -> real, df: real -> real, d2f: real -> real, eps: real,
                      intervals: Option<seq<Interval>>): (r: Result<seq<real>, Fault>)
    ensures r.Ok? ==> forall i :: 0 <= i < |r.value| ==> r.value[i] != 0.0
    ensures r.Ok? && intervals.Some? ==> |r.value| <= |intervals.value|
    ensures r.Err? ==> intervals.Some? && df(r.error.x) == 0.0
  {
    if intervals.None? || intervals.value == [] then Ok([])
    else CleanResults(RefineAll(f, df, d2f, eps, intervals.value))
  }

  /** The batch fails exactly when some refinement divides by zero. */
  lemma {:induction false} CleanResultsFailsIff(outs: seq<NewtonOutcome>)
    ensures CleanResults(outs).Err? <==> exists i :: 0 <= i < |outs| && outs[i].DivisionByZero?
  {
    if outs != [] {
      CleanResultsFailsIff(outs[1..]);
      if exists i :: 0 <= i < |outs| && outs[i].DivisionByZero? {
        var i :| 0 <= i < |outs| && outs[i].DivisionByZero?;
        if i > 0 {
          assert outs[1..][i - 1] == outs[i];
        }
      } else {
        forall i | 0 <= i < |outs[1..]|
          ensures !outs[1..][i].DivisionByZero?
        {
          assert outs[1..][i] == outs[i + 1];
        }
      }
    }
  }

  /** A successful batch over a non-empty list: the first kept root, then the rest. */
  lemma CleanResultsCons(outs: seq<NewtonOutcome>)
    requires outs != [] && CleanResults(outs).Ok?
    ensures !outs[0].DivisionByZero? && CleanResults(outs[1..]).Ok?
    ensures CleanResults(outs).value ==
      (if Kept(outs[0]) then [outs[0].root] else []) + CleanResults(outs[1..]).value
  {
  }

  predicate StrictlyIncreasing(s: seq<nat>)
  {
    forall j, m :: 0 <= j < m < |s| ==> s[j] < s[m]
  }

  lemma PrependZeroIncreasing(s: seq<nat>)
    requires StrictlyIncreasing(s)
    requires forall j :: 0 <= j < |s| ==> s[j] > 0
    ensures StrictlyIncreasing([0] + s)
  {
    var t := [0] + s;
    forall j, m | 0 <= j < m < |t|
      ensures t[j] < t[m]
    {
      assert t[m] == s[m - 1];
      if j > 0 {
        assert t[j] == s[j - 1];
      }
    }
  }

  /**
   * `picked` lists, in increasing order, the indices of exactly the kept
   * outcomes of `outs`, and `roots` holds their roots in that order.
   */
  ghost predicate PicksKeptRoots(outs: seq<NewtonOutcome>, roots: seq<real>, picked: seq<nat>)
  {
    && |picked| == |roots|
    && (forall j :: 0 <= j < |picked| ==>
         picked[j] < |outs| && outs[picked[j]] == Converged(roots[j]) && roots[j] != 0.0)
    && StrictlyIncreasing(picked)
    && (forall i :: 0 <= i < |outs| && Kept(outs[i]) ==> i in picked)
  }

  /** Every index moved up by one. */
  function ShiftUp(s: seq<nat>): (r: seq<nat>)
    ensures |r| == |s| && forall j :: 0 <= j < |s| ==> r[j] == s[j] + 1
  {
    if s == [] then [] else [s[0] + 1] + ShiftUp(s[1..])
  }

  /** Indices into `outs[1..]` moved up by one index into `outs`: same roots, same order. */
  lemma ShiftPicks(outs: seq<NewtonOutcome>, roots: seq<real>, tail: seq<nat>)
    requires outs != [] && PicksKeptRoots(outs[1..], roots, tail)
    ensures |ShiftUp(tail)| == |roots| && StrictlyIncreasing(ShiftUp(tail))
    ensures forall j :: 0 <= j < |roots| ==>
      0 < ShiftUp(tail)[j] < |outs| && outs[ShiftUp(tail)[j]] == Converged(roots[j]) && roots[j] != 0.0
  {
    ShiftUpIncreasing(tail);
    var shifted := ShiftUp(tail);
    forall j | 0 <= j < |shifted|
      ensures outs[shifted[j]] == outs[1..][tail[j]]
    {
    }
  }

  lemma ShiftUpIncreasing(s: seq<nat>)
    requires StrictlyIncreasing(s)
    ensures StrictlyIncreasing(ShiftUp(s))
  {
  }

  /** Every kept outcome after the first is among the shifted indices. */
  lemma ShiftPicksCovers(outs: seq<NewtonOutcome>, roots: seq<real>, tail: seq<nat>)
    requires outs != [] && PicksKeptRoots(outs[1..], roots, tail)
    ensures forall i :: 1 <= i < |outs| && Kept(outs[i]) ==> i in ShiftUp(tail)
  {
    var shifted := ShiftUp(tail);
    forall i | 1 <= i < |outs| && Kept(outs[i])
      ensures i in shifted
    {
      assert outs[1..][i - 1] == outs[i];
      var j :| 0 <= j < |tail| && tail[j] == i - 1;
      assert shifted[j] == i;
    }
  }

  /** Adding a kept first outcome: its index 0 goes in front. */
  lemma PickHead(outs: seq<NewtonOutcome>, roots: seq<real>, shifted: seq<nat>)
    requires outs != [] && Kept(outs[0])
    requires |shifted| == |roots| && StrictlyIncreasing(shifted)
    requires forall j :: 0 <= j < |shifted| ==>
      0 < shifted[j] < |outs| && outs[shifted[j]] == Converged(roots[j]) && roots[j] != 0.0
    requires forall i :: 1 <= i < |outs| && Kept(outs[i]) ==> i in shifted
    ensures PicksKeptRoots(outs, [outs[0].root] + roots, [0] + shifted)
  {
    var picked := [0] + shifted;
    var all := [outs[0].root] + roots;
    forall j | 0 <= j < |picked|
      ensures picked[j] < |outs| && outs[picked[j]] == Converged(all[j]) && all[j] != 0.0
    {
      if j > 0 {
        assert picked[j] == shifted[j - 1] && all[j] == roots[j - 1];
      }
    }
    PrependZeroIncreasing(shifted);
    forall i | 0 <= i < |outs| && Kept(outs[i])
      ensures i in picked
    {
      if i > 0 {
        var j :| 0 <= j < |shifted| && shifted[j] == i;
        assert picked[j + 1] == i;
      }
    }
  }

  /**
   * A successful batch returns exactly the non-zero converged roots, in the
   * order of their refinements: `picked` gives, for each returned root, the
   * index of the outcome it came from.
   */
  lemma {:induction false} CleanResultsInOrder(outs: seq<NewtonOutcome>) returns (picked: seq<nat>)
    requires CleanResults(outs).Ok?
    ensures PicksKeptRoots(outs, CleanResults(outs).value, picked)
  {
    if outs == [] {
      return [];
    }
    CleanResultsCons(outs);
    var rest := CleanResults(outs[1..]).value;
    var tail := CleanResultsInOrder(outs[1..]);
    ShiftPicks(outs, rest, tail);
    ShiftPicksCovers(outs, rest, tail);
    var shifted := ShiftUp(tail);
    if Kept(outs[0]) {
      PickHead(outs, rest, shifted);
      picked := [0] + shifted;
    } else {
      picked := shifted;
      assert CleanResults(outs).value == rest;
    }
  }

  /** No intervals, or None, give an empty batch. */
  lemma GetResultsNoIntervals(f: real -> real, df: real -> real, d2f: real -> real, eps: real)
    ensures GetResults(f, df, d2f, eps, None) == Ok([])
    ensures GetResults(f, df, d2f, eps, Some([])) == Ok([])
  {
  }

  /** The batch result for a single interval: its kept root, or nothing. */
  lemma GetResultsSingle(f: real -> real, df: real -> real, d2f: real -> real, eps: real, iv: Interval)
    ensures GetResults(f, df, d2f, eps, Some([iv])) ==
      if Refine(f, df, d2f, eps, iv).DivisionByZero? then Err(ZeroDerivativeAt(Refine(f, df, d2f, eps, iv).at))
      else if Kept(Refine(f, df, d2f, eps, iv)) then Ok([Refine(f, df, d2f, eps, iv).root])
      else Ok([])
  {
    var outs := RefineAll(f, df, d2f, eps, [iv]);
    var o := Refine(f, df, d2f, eps, iv);
    assert outs == [o] && outs[1..] == [];
    assert CleanResults(outs[1..]) == Ok([]);
    if !o.DivisionByZero? {
      var head: seq<real> := if Kept(o) then [o.root] else [];
      assert head + [] == head;
      assert CleanResults(outs) == Ok(head);
    }
  }

  // ---------------------------------------------------------------------------
  // Root set: the session's results and update_plot
  // ---------------------------------------------------------------------------

  /**
   * round(x, 3) over exact reals: the nearest multiple of 0.001, a tie going
   * to the even multiple.
   */
  function Round3(x: real): (r: real)
    ensures Abs(r - x) <= 0.0005
    ensures (r * 1000.0).Floor as real == r * 1000.0
  {
    var m := x * 1000.0;
    var n := m.Floor;
    var frac := m - n as real;
    var k := if frac < 0.5 then n else if frac > 0.5 then n + 1 else if n % 2 == 0 then n else n + 1;
    k as real / 1000.0
  }

  /** Rounding twice is rounding once. */
  lemma Round3Idempotent(x: real)
    ensures Round3(Round3(x)) == Round3(x)
  {
    var r := Round3(x);
    var k := (r * 1000.0).Floor;
    assert r * 1000.0 == k as real;
  }

  /** `list(map(partial(round, ndigits=3), results))` */
  function RoundAll(s: seq<real>): (r: seq<real>)
    ensures |r| == |s|
    ensures forall i :: 0 <= i < |s| ==> r[i] == Round3(s[i]) && Abs(r[i] - s[i]) <= 0.0005
  {
    seq(|s|, i requires 0 <= i < |s| => Round3(s[i]))
  }

  /** What one "Search in new interval" press does to the session. */
  datatype TryOutcome =
    | InvalidInterval       // a >= b: the "a >= b!" error
    | EvaluationFailed      // the refinement raised; caught as "Use correct values"
    | NoSolution            // "Can't find any solutions"
    | NewRoot(x: real)      // plotted and listed as a new root
    | AlreadyFound(x: real) // "x = ... has been already found!"

  /**
   * The solver window of lab 4, reduced to its state: the equation with its
   * derivatives, the precision, and the list of roots found so far.
   */
  class Lab4 {
    var f: real -> real
    var df: real -> real
    var d2f: real -> real
    var precision: real
    var results: seq<real>

    /** A window whose equation and precision have been read, before any solve. */
    constructor (f: real -> real, df: real -> real, d2f: real -> real, precision: real)
      ensures this.f == f && this.df == df && this.d2f == d2f && this.precision == precision
      ensures results == []
    {
      this.f := f;
      this.df := df;
      this.d2f := d2f;
      this.precision := precision;
      results := [];
    }

    /**
     * solve_equ: read the precision and the equation with its derivatives
     * again, scan with the default step, refine every bracket and keep the
     * batch's roots. When a refinement raises, the new equation is already in
     * place but the roots are not replaced.
     */
    method SolveEqu(f: real -> real, df: real -> real, d2f: real -> real, precision: real) returns (ok: bool)
      modifies this
      ensures this.f == f && this.df == df && this.d2f == d2f && this.precision == precision
      ensures ok <==> GetResults(f, df, d2f, precision, Some(Brackets(f, DefaultStep, SampleCount(DefaultStep)))).Ok?
      ensures results == if ok
        then GetResults(f, df, d2f, precision, Some(Brackets(f, DefaultStep, SampleCount(DefaultStep)))).value
        else old(results)
    {
      this.precision := precision;
      this.f := f;
      this.df := df;
      this.d2f := d2f;
      var intervals := FindSolutionIntervals(f, DefaultStep);
      var r := GetResults(f, df, d2f, precision, Some(intervals));
      ok := r.Ok?;
      if ok {
        results := r.value;
      }
    }

    /**
     * update_plot without its widgets: validate a < b, refine [a, b] once, and
     * append the root to the results, whether or not a root equal to it at three
     * decimals was already there; the rounding check only chooses the message.
     */
    method UpdatePlot(a: real, b: real) returns (outcome: TryOutcome)
      modifies this`results
      ensures outcome == InvalidInterval <==> a >= b
      ensures a < b ==>
        (outcome == EvaluationFailed <==> Newton(f, df, d2f, a, b, precision).DivisionByZero?)
      ensures a < b ==>
        (outcome == NoSolution <==>
          !Newton(f, df, d2f, a, b, precision).DivisionByZero? && !Kept(Newton(f, df, d2f, a, b, precision)))
      ensures outcome.NewRoot? || outcome.AlreadyFound? ==>
        a < b && Newton(f, df, d2f, a, b, precision) == Converged(outcome.x) && outcome.x != 0.0
      ensures outcome.NewRoot? ==> Round3(outcome.x) !in RoundAll(old(results))
      ensures outcome.AlreadyFound? ==> Round3(outcome.x) in RoundAll(old(results))
      ensures results == if outcome.NewRoot? || outcome.AlreadyFound?
        then old(results) + [outcome.x]
        else old(results)
    {
      if a >= b {
        return InvalidInterval;
      }
      var result := GetResults(f, df, d2f, precision, Some([Interval(a, b)]));
      GetResultsSingle(f, df, d2f, precision, Interval(a, b));
      if result.Err? {
        return EvaluationFailed;
      }
      if result.value != [] {
        var x := result.value[0];
        if Round3(x) !in RoundAll(results) {
          outcome := NewRoot(x);
        } else {
          outcome := AlreadyFound(x);
        }
        results := results + [x];
      } else {
        outcome := NoSolution;
      }
    }
  }

  /**
   * Trying the same interval twice: a root that was new the first time is
   * reported as already found the second time (and appended again).
   */
  method TrySameIntervalTwice(session: Lab4, a: real, b: real) returns (first: TryOutcome, second: TryOutcome)
    modifies session
    ensures first.NewRoot? ==> second == AlreadyFound(first.x)
    ensures first.NewRoot? ==> session.results == old(session.results) + [first.x, first.x]
  {
    first := session.UpdatePlot(a, b);
    second := session.UpdatePlot(a, b);
    if first.NewRoot? {
      assert RoundAll(old(session.results) + [first.x])[|old(session.results)|] == Round3(first.x);
    }
  }
}
