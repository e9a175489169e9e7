# Numerical-methods labs, modelled in Dafny

This project models the algorithmic core of four numerical-methods lab programs (AMOLabs, Python) and proves what they promise. The graphical front ends are stripped off. All arithmetic is exact `real` arithmetic.

- **Equation root finder** (`equation_roots.dfy`, module `EquationRoots`, from lab 4):
  - a bracket scanner that walks a grid over [-1000, 1000] looking for sign changes of f;
  - a guarded Newton (tangent) method that refines one bracket;
  - a batch filter that refines every bracket and keeps the non-zero roots;
  - a session class `Lab4` whose list of roots is replaced by a full solve or grown when the user tries an interval of their own.
  The equation and its first two derivatives are parameters `f`, `df`, `d2f: real -> real`.
- **Cocktail shaker sort** (`shaker_sort.dfy`, module `ShakerSort`, from lab 2): in place on an `array`. Passes alternate forward and backward until one of them swaps nothing. It is proved sorted, a permutation, stable, and terminating.
- **Newton divided differences** (`divided_differences.dfy`, module `NewtonInterpolation`, from lab 3): the n x n table on an `array2<real>`, filled column by column. Its first row holds the coefficients of the interpolating polynomial.
- **Lab 1 formulas** (`formulas.dfy`, module `Formulas`):
  - the piecewise `branch` formula;
  - the two `reduce` folds of `cycle`;
  - how `cycle` takes its two arrays from its entry fields or from a `cycle...` file text.
- `wrappers.dfy` (module `Wrappers`) holds `Option` and `Result`.

Choices the model makes explicit:

- **Zero derivative.** The Newton step divides by f'(x). When f'(x) is 0, Python raises `ZeroDivisionError` (lab4/lab_4.py:69-71). The model returns the outcome `DivisionByZero(x)` instead of requiring df(x) != 0.
  - That exception escapes `get_results`, which is modelled as `Err(ZeroDerivativeAt(x))`.
  - In `update_plot` it is caught by `except Exception`: the session's roots are unchanged (`EvaluationFailed`).
  - In `solve_equ` it is not caught, so `self.results` is not replaced.
- **Newton outcomes.** `Newton` returns `Converged(x)`, `Escaped` (the `break` at line 74), `Exhausted` (1000 steps without convergence) or `DivisionByZero(x)`. The source returns `None` for both `Escaped` and `Exhausted`.
- **Root list in `update_plot`.** The code appends the new root in both the "new root" and the "already found" branch (line 228). The rounding comparison only selects the message. This is modelled as written: `results` can hold the same root twice.
- **`round(x, 3)`.** It is modelled as exact rounding of a real to the nearest multiple of 0.001, with ties to the even multiple.
- **Scanner grid.** The scanner's samples are the exact grid points -1000 + k * step. There are `int(2000 / step)` pairs: truncation, not ceiling, and 0 when that is negative. `step` must not be 0, since Python would raise `ZeroDivisionError`.
- **Empty table.** With no data (`n == 0`), `_getNDDCoeffs` raises IndexError at lab3/lab_3.py:57, where `pyramid[::, 0] = y` indexes column 0 of a 0 x 0 table. The model returns `None` in that case.
- **Divided-difference preconditions.**
  - The divided differences require distinct nodes and at least `len(y)` nodes. With equal nodes numpy would produce inf/nan rather than a number.
  - `requires DistinctNodes(x, |y|)` is exactly the condition for every denominator at lab3/lab_3.py:61-62 to be non-zero: the table subtracts x[q] - x[p] for every pair p < q < n, at i = p and j = q - p.
- **Manual `cycle` input.** Both `a` and `b` are read from the entry of `a` (lab1/lab_1.py:133-134). This is modelled as written: `b == a` whatever the second entry holds.

## Model

| member | source | states |
|---|---|---|
| EquationRoots.Trunc | lab4/lab_4.py:122 | `int()` truncates toward zero: for x >= 0 the result n satisfies n <= x < n + 1, for x < 0 it satisfies n - 1 < x <= n |
| EquationRoots.SampleCount | lab4/lab_4.py:121-122 | the scanner visits n pairs with n * step <= 2000 < (n + 1) * step for a positive step, and none for a negative step |
| EquationRoots.Brackets | lab4/lab_4.py:120-133 | the scan's result over the first k sample pairs: the pairs whose ends satisfy f(lo) * f(hi) < 0, in scan order (no contract of its own; the lemmas below characterise it) |
| EquationRoots.FindSolutionIntervals | lab4/lab_4.py:106-133 | the sweep (advance a and b, append (a, b) on a strict sign change) returns exactly `Brackets(f, step, SampleCount(step))`, the sign-changing grid pairs in scan order |
| EquationRoots.BracketsChangeSign | lab4/lab_4.py:126-128 | every reported interval has f(lo) * f(hi) < 0 |
| EquationRoots.ZeroSampleNeverBounds | lab4/lab_4.py:127-128 | a point where f is exactly 0 is never an end of a reported interval |
| EquationRoots.BracketsAreSignChangingPairs | lab4/lab_4.py:124-131 | both directions: every sign-changing pair (-1000 + j*step, -1000 + (j+1)*step) with j < k is reported, and every reported interval is such a pair |
| EquationRoots.BracketsCount | lab4/lab_4.py:126-128 | at most one interval per sample pair |
| EquationRoots.BracketsEmptyIff | lab4/lab_4.py:120-133 | the result is empty exactly when no sample pair changes sign |
| EquationRoots.BracketsBelow | lab4/lab_4.py:121-131 | with a positive step every interval lies in [-1000, -1000 + k*step] and has lo < hi |
| EquationRoots.BracketsIncreasing | lab4/lab_4.py:124-131 | with a positive step the intervals are proper, come in increasing order, and do not overlap |
| EquationRoots.StartPoint | lab4/lab_4.py:65-66 | the run starts at an end of the interval: a when f(a) * f''(a) >= 0, b otherwise |
| EquationRoots.OutOfReach | lab4/lab_4.py:73-74 | the guard `x + 3 < a or x - 3 > b` holds exactly when x lies outside [a - 3, b + 3] |
| EquationRoots.Iterate | lab4/lab_4.py:68-81 | the loop from a given iterate with a step budget: a converged run ends inside [a - 3, b + 3], and a division-by-zero outcome names a point where f' is 0 |
| EquationRoots.Newton | lab4/lab_4.py:60-81 | the whole refinement: a converged root lies in [a - 3, b + 3], a division by zero happens at a point where f' is 0, and a zero derivative at the start point fails at once |
| EquationRoots.NewtonMethod | lab4/lab_4.py:60-81 | the loop (start point, at most 1000 tangent steps, escape test, convergence test) returns exactly the outcome `Newton` defines |
| EquationRoots.NewtonFirstStep | lab4/lab_4.py:65-73 | the run starts at a when f(a) * f''(a) >= 0 and at b otherwise; a zero derivative there fails at once and a first step out of [a - 3, b + 3] escapes at once |
| EquationRoots.IterateSkip | lab4/lab_4.py:68-81 | a run that has reached iterate m (every earlier step had f' != 0, stayed in [a - 3, b + 3] and moved more than eps) continues exactly as a run from that iterate with the remaining steps |
| EquationRoots.IterateConverged | lab4/lab_4.py:68-79 | a converged iteration returns x with a - 3 <= x <= b + 3 and x = p - f(p)/f'(p), abs(x - p) <= eps, f'(p) != 0, where p is the m-th iterate for some m below the step budget and the run reached it |
| EquationRoots.IterateEscaped | lab4/lab_4.py:68-74 | an escaped iteration reached some iterate m below the budget, with f' != 0 there, whose tangent step leaves [a - 3, b + 3] |
| EquationRoots.IterateDividedByZero | lab4/lab_4.py:68-71 | a division by zero happens at a reached iterate m below the budget where f' is 0 |
| EquationRoots.IterateExhausted | lab4/lab_4.py:68-81 | an exhausted iteration went on after every one of its budgeted iterates |
| EquationRoots.NewtonConverged | lab4/lab_4.py:60-81 | the converged facts for a whole run: p is a reached m-th tangent iterate from the chosen start point, with m < 1000 |
| EquationRoots.NewtonStops | lab4/lab_4.py:60-81 | for a whole run from the chosen start point: an escape happens at a reached iterate m < 1000 whose step leaves [a - 3, b + 3]; exhaustion means all 1000 steps went on; a division by zero is at a reached iterate m < 1000 |
| EquationRoots.NewtonFromReached | lab4/lab_4.py:60-81 | conversely, a run that reaches iterate m <= 1000 ends as the iteration from that iterate with 1000 - m steps left, so the outcome is decided at the first iterate where the loop stops |
| EquationRoots.IterateDecidedWithinFuel | lab4/lab_4.py:68-81 | an outcome reached within the step budget is the same under any larger budget: the 1000-step cap only turns an unfinished run into `Exhausted` |
| EquationRoots.ExactRootAtLeftEnd | lab4/lab_4.py:65-77 | when a is an exact root with f'(a) != 0 (and eps >= 0, a - 3 <= b) the run starts at a and returns a |
| EquationRoots.RefineAll | lab4/lab_4.py:97-101 | one refinement per interval, in the same order, each the Newton run on that interval with the session's precision |
| EquationRoots.CleanResults | lab4/lab_4.py:97-103 | a successful filter returns at most one root per outcome and never 0; a failure names a division-by-zero outcome of the list |
| EquationRoots.GetResults | lab4/lab_4.py:83-104 | a successful batch has at most one root per interval and never a 0 root; it fails only when there are intervals, at a point where f' is 0 |
| EquationRoots.GetResultsNoIntervals | lab4/lab_4.py:94-95 | None or an empty interval list gives an empty result |
| EquationRoots.CleanResultsFailsIff | lab4/lab_4.py:97-103 | the batch fails exactly when some refinement divides by zero |
| EquationRoots.CleanResultsInOrder | lab4/lab_4.py:97-103 | a successful batch lists, in interval order, the roots of exactly the refinements that converged to a non-zero value (`if result` drops None and 0.0) |
| EquationRoots.GetResultsSingle | lab4/lab_4.py:94-104 | a one-interval batch is the refinement's root if it converged to a non-zero value, an empty list if not, and a failure if it divided by zero |
| EquationRoots.Round3 | lab4/lab_4.py:209-210 | `round(x, 3)` is within 0.0005 of x and is a multiple of 0.001 |
| EquationRoots.Round3Idempotent | lab4/lab_4.py:209-210 | rounding an already rounded value changes nothing |
| EquationRoots.RoundAll | lab4/lab_4.py:209-210 | `map(partial(round, ndigits=3), results)`: same length, each entry the 3-decimal rounding of the corresponding root and within 0.0005 of it |
| EquationRoots.Lab4.constructor | lab4/lab_4.py:178-183 | a session holds the equation, its derivatives and the precision, with no roots yet |
| EquationRoots.Lab4.SolveEqu | lab4/lab_4.py:172-188 | the session takes the newly read equation, derivatives and precision; the roots become the batch result over the default scan when it succeeds, and stay as they were when a refinement raises |
| EquationRoots.Lab4.UpdatePlot | lab4/lab_4.py:196-233 | a >= b is rejected and changes nothing; a failed or rootless refinement changes nothing; a found root (non-zero, converged) is appended last whether its 3-decimal rounding was new (`NewRoot`) or already present (`AlreadyFound`) |
| EquationRoots.TrySameIntervalTwice | lab4/lab_4.py:206-228 | trying the same interval twice reports a new root first and "already found" second, and appends it both times |
| ShakerSort.ExchangeOutOfOrder | lab2/lab_2.py:49-51 | swapping an out-of-order neighbour pair keeps the multiset and the order within each key, and removes exactly one inversion |
| ShakerSort.SwapRemovesOneInversion | lab2/lab_2.py:49-50 | exchanging a[i] > a[i+1] lowers the inversion count by exactly one |
| ShakerSort.SwapKeepsKeyOrder | lab2/lab_2.py:49-50 | exchanging neighbours of different keys keeps the relative order of equal keys |
| ShakerSort.SortedIffNoInversions | lab2/lab_2.py:46-53 | a sequence is sorted exactly when it has no inversion |
| ShakerSort.ForwardPass | lab2/lab_2.py:46-53 | a forward pass over range(len - 1) swaps exactly when the array was unsorted, then lowers the inversion count, keeps the multiset and stability, and changes nothing otherwise; afterwards the last element has a greatest key |
| ShakerSort.BackwardPass | lab2/lab_2.py:46-53 | the same for the pass over reversed(range(len - 1)), except that afterwards the first element has a least key |
| ShakerSort.ShakeSort | lab2/lab_2.py:43-53 | the result is sorted, a permutation of the input, and stable; a sorted input (every list of length 0 or 1 included) is left unchanged |
| NewtonInterpolation.DividedDifference | lab3/lab_3.py:57-62 | the recurrence of the table: order 0 is y[i], order j is (f[x_{i+1}..x_{i+j}] - f[x_i..x_{i+j-1}]) / (x[i+j] - x[i]) (no contract of its own; the lemmas below state its properties) |
| NewtonInterpolation.FillColumn | lab3/lab_3.py:59-62 | the inner loop fills column j with the divided differences of order j from column j - 1 |
| NewtonInterpolation.BuildPyramid | lab3/lab_3.py:55-62 | entry (i, j) of the n x n table is the divided difference f[x_i..x_{i+j}] when i + j < n and stays 0 otherwise |
| NewtonInterpolation.GetNDDCoeffs | lab3/lab_3.py:52-63 | no data gives no row; otherwise the row has n entries and entry k is f[x_0..x_k] |
| NewtonInterpolation.FirstCoefficients | lab3/lab_3.py:57-63 | coefficient 0 is y[0], and coefficient 1 is (y[1] - y[0]) / (x[1] - x[0]) |
| NewtonInterpolation.LinearDataDifferences | lab3/lab_3.py:58-62 | for data on a line c*x + d the first-order differences are c and all higher ones are 0 |
| NewtonInterpolation.DifferencesAdd | lab3/lab_3.py:58-62 | divided differences are additive in the data |
| Formulas.Branch | lab1/lab_1.py:121 | the square root is taken exactly when k > 10, with argument k * (abs(d) + d) >= 0 (0 when d <= 0); otherwise the value is (k + d)^2 >= 0 |
| Formulas.Zip | lab1/lab_1.py:143-144 | `zip` pairs the two lists up to the shorter length |
| Formulas.F1 | lab1/lab_1.py:143 | f1 = reduce of x * (y[0] + y[1]) over zip(a, b[1:]) from 1 (no contract of its own; F1IsProduct gives its closed form) |
| Formulas.F2 | lab1/lab_1.py:144 | f2 = reduce of x + y[0] * y[1] over zip(a[1:], b) from 0 (no contract of its own; F2IsSum gives its closed form) |
| Formulas.Cycle | lab1/lab_1.py:143-145 | F = f1 + f2 (no contract of its own; CycleIsProductPlusSum gives its closed form) |
| Formulas.FoldProductSnoc | lab1/lab_1.py:143 | folding one more pair applies the product step to the fold so far |
| Formulas.FoldSumSnoc | lab1/lab_1.py:144 | folding one more pair applies the sum step to the fold so far |
| Formulas.F1IsProduct | lab1/lab_1.py:143 | f1 is the product of a[i] + b[i+1] over i < min(len a, len b - 1), and 1 when that range is empty |
| Formulas.F2IsSum | lab1/lab_1.py:144 | f2 is the sum of a[i+1] * b[i] over i < min(len a - 1, len b), and 0 when that range is empty |
| Formulas.CycleIsProductPlusSum | lab1/lab_1.py:143-145 | F = f1 + f2 is that product plus that sum |
| Formulas.Split | lab1/lab_1.py:133-138 | `str.split(sep)` gives at least one piece, none containing sep, which joined back with sep give the text; there is more than one piece exactly when sep occurs |
| Formulas.CycleFields | lab1/lab_1.py:131-138 | the text pieces of a and b in entry mode and in file mode, or why there are none (no contract of its own; CycleFieldsMeaning characterises it) |
| Formulas.CycleFieldsMeaning | lab1/lab_1.py:132-138 | no piece of a or b contains ','; entry mode reads b from a's entry (b == a); file mode needs the `cycle` prefix and a `;`, and then a and b are the text up to the first `;` and from there up to the next `;` or the end |

## Left out

- Symbolic parsing and differentiation of the equation (sympy) are left out. `f`, `df` and `d2f` are parameters, and nothing relates `df` to `f`.
- The Tk, matplotlib and PyQt front ends are left out: plots, labels, message boxes, layouts, `results_window`, `show_results`, `show_plot`, `init_UI`.
- Reading numbers from entry fields and files is left out, and so are the `float()` conversions and their exceptions. `cycle`'s fields are kept as text pieces.
- `branch` reading `k` and `d` from a `branch...` file text (lab1/lab_1.py:114-120) is left out. It is float parsing only.
- Lab 1 `linear`, the file reading and the image display are left out: float roots of possibly negative numbers, and I/O.
- Lab 2's timing decorator, random samples and the theoretical-time formula are left out: clock, randomness and floating point.
- Lab 3 `interpolate` and `plot_interpolation` are left out: numpy polynomial objects, `polyval` and `eval` of user-typed code.
- Lab 5 `solve` is left out: numpy determinants and floating-point elimination, with a pivot index that can be unbound.
- IEEE double behaviour is left out:
  - rounding error in `x - f(x)/f'(x)`;
  - accumulated error in `b += step`, where the model uses exact grid points;
  - `round` on binary values.
- EquationRoots.FindSolutionIntervals: the `num_epoch` argument is never read by the source and is not a parameter.
- EquationRoots.Lab4.constructor: `self.results` starts as an empty list. The source leaves the attribute unset until `solve_equ` runs, which always happens before the button that calls `update_plot` is shown (the button is created at lab4/lab_4.py:166-168 and packed only at line 288).
- EquationRoots.FindSolutionIntervals: `f` is a total function to the reals. A sympy value that is not real or is infinite (log of a negative number, 1/x at 0) makes the comparison at lab4/lab_4.py:127 raise TypeError; that failure is not modelled.
- EquationRoots.NewtonMethod: `f`, `df` and `d2f` are total functions to the reals. Non-real or infinite values, which make the test at lab4/lab_4.py:66 raise TypeError and `float()` at lines 70-71 raise, are not modelled; only the zero derivative is an error outcome. Such an exception escapes `solve_equ` and is caught by `update_plot` like any other.
- EquationRoots.Lab4.UpdatePlot: an `a` or `b` that does not parse as a float, which the source also reports through `except Exception`, is not modelled; the model takes the two reals.
- ShakerSort.ShakeSort: it is generic over the element type with a real-valued key, so that stability can be stated. The program sorts numbers, which is the identity key. NaN and the other IEEE special values, which `>` does not order, are not modelled.
- ShakerSort.ShakeSort: each `for indices in (up, reversed(up))` pass is a separate method, `ForwardPass` or `BackwardPass`, called in turn.
- NewtonInterpolation.GetNDDCoeffs: nodes that are not distinct, or fewer nodes than values, are excluded by precondition. numpy would return inf/nan or raise.
