/**
 * The two computations of lab 1 (lab1/lab_1.py) that have a proper contract:
 * the piecewise formula of `branch` and the two folds of `cycle`, together
 * with how `cycle` takes its arrays apart, either from its entry fields or
 * from a file text that starts with `cycle`. Converting the fields to floats
 * is not part of this model; the folds work on exact reals.
 */
module Formulas {
  import opened Wrappers
  import opened RealArith

  function Min(p: int, q: int): int
  {
    if p < q then p else q
  }

  // ---------------------------------------------------------------------------
  // branch: y = sqrt(k*|d| + d*|k|) if k > 10 else (k + d)**2
  // ---------------------------------------------------------------------------

  /**
   * The value of `branch`, with the square root left unevaluated: the real
   * numbers of this model have no square root function.
   */
  datatype BranchValue = SquareRootOf(radicand: real) | Value(y: real)

  /**
   * The square root is taken exactly when k > 10, and then its argument is
   * k * (|d| + d): never negative (so math.sqrt does not fail), and 0 whenever
   * d <= 0. Otherwise the value is the square (k + d)^2, never negative either.
   */
  function Branch(k: real, d: real): (r: BranchValue)
    ensures r.SquareRootOf? <==> k > 10.0
    ensures r.SquareRootOf? ==> r.radicand == k * (Abs(d) + d)
    ensures r.SquareRootOf? ==> r.radicand >= 0.0 && (d <= 0.0 ==> r.radicand == 0.0)
    ensures r.Value? ==> r.y >= 0.0 && r.y == (k + d) * (k + d)
  {
    if k > 10.0 then SquareRootOf(k * Abs(d) + d * Abs(k))
    else
      SquareNonNegative(k + d);
      Value((k + d) * (k + d))
  }

  lemma SquareNonNegative(v: real)
    ensures v * v >= 0.0
  {
    if v < 0.0 {
      assert v * v == (-v) * (-v);
    }
  }

  // ---------------------------------------------------------------------------
  // cycle: f1 = reduce(x * (a_i + b_{i+1})), f2 = reduce(x + a_{i+1} * b_i)
  // ---------------------------------------------------------------------------

  /** Python's `zip`: pairs up to the shorter of the two lists. */
  function Zip(a: seq<real>, b: seq<real>): (z: seq<(real, real)>)
    ensures |z| == Min(|a|, |b|)
    ensures forall i :: 0 <= i < |z| ==> z[i] == (a[i], b[i])
  {
    if a == [] || b == [] then [] else [(a[0], b[0])] + Zip(a[1..], b[1..])
  }

  /** Python's `s[1:]`, which is empty for an empty list. */
  function Rest(s: seq<real>): seq<real>
  {
    if s == [] then [] else s[1..]
  }

  /** The lambda of f1's reduce: `lambda x, y: x * (y[0] + y[1])`. */
  function ProductStep(x: real, y: (real, real)): real
  {
    x * (y.0 + y.1)
  }

  /** The lambda of f2's reduce: `lambda x, y: x + (y[0] * y[1])`. */
  function SumStep(x: real, y: (real, real)): real
  {
    x + y.0 * y.1
  }

  /** `reduce(ProductStep, (acc, *pairs))` */
  function FoldProduct(acc: real, pairs: seq<(real, real)>): real
    decreases |pairs|
  {
    if pairs == [] then acc else FoldProduct(ProductStep(acc, pairs[0]), pairs[1..])
  }

  /** `reduce(SumStep, (acc, *pairs))` */
  function FoldSum(acc: real, pairs: seq<(real, real)>): real
    decreases |pairs|
  {
    if pairs == [] then acc else FoldSum(SumStep(acc, pairs[0]), pairs[1..])
  }

  function F1(a: seq<real>, b: seq<real>): real
  {
    FoldProduct(1.0, Zip(a, Rest(b)))
  }

  function F2(a: seq<real>, b: seq<real>): real
  {
    FoldSum(0.0, Zip(Rest(a), b))
  }

  /** F = f1 + f2 */
  function Cycle(a: seq<real>, b: seq<real>): real
  {
    F1(a, b) + F2(a, b)
  }

  /** The product of a[i] + b[i+1] over i < m. */
  function ProductUpTo(a: seq<real>, b: seq<real>, m: nat): real
    requires m == 0 || (m <= |a| && m < |b|)
  {
    if m == 0 then 1.0 else ProductStep(ProductUpTo(a, b, m - 1), (a[m - 1], b[m]))
  }

  /** The sum of a[i+1] * b[i] over i < m. */
  function SumUpTo(a: seq<real>, b: seq<real>, m: nat): real
    requires m == 0 || (m < |a| && m <= |b|)
  {
    if m == 0 then 0.0 else SumStep(SumUpTo(a, b, m - 1), (a[m], b[m - 1]))
  }

  /** Folding one more pair multiplies the product by that pair's sum. */
  lemma {:induction false} FoldProductSnoc(acc: real, pairs: seq<(real, real)>, p: (real, real))
    ensures FoldProduct(acc, pairs + [p]) == ProductStep(FoldProduct(acc, pairs), p)
    decreases |pairs|
  {
    if pairs != [] {
      assert (pairs + [p])[0] == pairs[0] && (pairs + [p])[1..] == pairs[1..] + [p];
      FoldProductSnoc(ProductStep(acc, pairs[0]), pairs[1..], p);
    }
  }

  /** Folding one more pair adds that pair's product to the sum. */
  lemma {:induction false} FoldSumSnoc(acc: real, pairs: seq<(real, real)>, p: (real, real))
    ensures FoldSum(acc, pairs + [p]) == SumStep(FoldSum(acc, pairs), p)
    decreases |pairs|
  {
    if pairs != [] {
      assert (pairs + [p])[0] == pairs[0] && (pairs + [p])[1..] == pairs[1..] + [p];
      FoldSumSnoc(SumStep(acc, pairs[0]), pairs[1..], p);
    }
  }

  /** Folding the first m pairs is folding the first m - 1, then pair m - 1. */
  lemma FoldProductPrefix(acc: real, pairs: seq<(real, real)>, m: nat)
    requires 0 < m <= |pairs|
    ensures FoldProduct(acc, pairs[..m]) == ProductStep(FoldProduct(acc, pairs[..m - 1]), pairs[m - 1])
  {
    assert pairs[..m] == pairs[..m - 1] + [pairs[m - 1]];
    FoldProductSnoc(acc, pairs[..m - 1], pairs[m - 1]);
  }

  lemma FoldSumPrefix(acc: real, pairs: seq<(real, real)>, m: nat)
    requires 0 < m <= |pairs|
    ensures FoldSum(acc, pairs[..m]) == SumStep(FoldSum(acc, pairs[..m - 1]), pairs[m - 1])
  {
    assert pairs[..m] == pairs[..m - 1] + [pairs[m - 1]];
    FoldSumSnoc(acc, pairs[..m - 1], pairs[m - 1]);
  }

  lemma {:induction false} F1Prefix(a: seq<real>, b: seq<real>, m: nat)
    requires m <= |Zip(a, Rest(b))|
    ensures m == 0 || (m <= |a| && m < |b|)
    ensures FoldProduct(1.0, Zip(a, Rest(b))[..m]) == ProductUpTo(a, b, m)
  {
    if m > 0 {
      F1Prefix(a, b, m - 1);
      F1PrefixStep(a, b, m);
    }
  }

  lemma F1PrefixStep(a: seq<real>, b: seq<real>, m: nat)
    requires 0 < m <= |Zip(a, Rest(b))| && m <= |a| && m < |b|
    requires FoldProduct(1.0, Zip(a, Rest(b))[..m - 1]) == ProductUpTo(a, b, m - 1)
    ensures FoldProduct(1.0, Zip(a, Rest(b))[..m]) == ProductUpTo(a, b, m)
  {
    var z := Zip(a, Rest(b));
    assert Rest(b)[m - 1] == b[m];
    assert z[m - 1] == (a[m - 1], b[m]);
    FoldProductPrefix(1.0, z, m);
  }

  lemma {:induction false} F2Prefix(a: seq<real>, b: seq<real>, m: nat)
    requires m <= |Zip(Rest(a), b)|
    ensures m == 0 || (m < |a| && m <= |b|)
    ensures FoldSum(0.0, Zip(Rest(a), b)[..m]) == SumUpTo(a, b, m)
  {
    if m > 0 {
      F2Prefix(a, b, m - 1);
      F2PrefixStep(a, b, m);
    }
  }

  lemma F2PrefixStep(a: seq<real>, b: seq<real>, m: nat)
    requires 0 < m <= |Zip(Rest(a), b)| && m < |a| && m <= |b|
    requires FoldSum(0.0, Zip(Rest(a), b)[..m - 1]) == SumUpTo(a, b, m - 1)
    ensures FoldSum(0.0, Zip(Rest(a), b)[..m]) == SumUpTo(a, b, m)
  {
    var z := Zip(Rest(a), b);
    assert Rest(a)[m - 1] == a[m];
    assert z[m - 1] == (a[m], b[m - 1]);
    FoldSumPrefix(0.0, z, m);
  }

  /**
   * f1 is the product of a[i] + b[i+1] over i < min(len a, len b - 1), and 1
   * when that range is empty.
   */
  lemma F1IsProduct(a: seq<real>, b: seq<real>)
    ensures F1(a, b) == ProductUpTo(a, b, if |b| == 0 then 0 else Min(|a|, |b| - 1))
    ensures |a| == 0 || |b| <= 1 ==> F1(a, b) == 1.0
  {
    var z := Zip(a, Rest(b));
    F1Prefix(a, b, |z|);
    assert z[..|z|] == z;
  }

  /**
   * f2 is the sum of a[i+1] * b[i] over i < min(len a - 1, len b), and 0 when
   * that range is empty.
   */
  lemma F2IsSum(a: seq<real>, b: seq<real>)
    ensures F2(a, b) == SumUpTo(a, b, if |a| == 0 then 0 else Min(|a| - 1, |b|))
    ensures |a| <= 1 || |b| == 0 ==> F2(a, b) == 0.0
  {
    var z := Zip(Rest(a), b);
    F2Prefix(a, b, |z|);
    assert z[..|z|] == z;
  }

  /** F = f1 + f2: the product over its range plus the sum over its range. */
  lemma CycleIsProductPlusSum(a: seq<real>, b: seq<real>)
    ensures Cycle(a, b) ==
      ProductUpTo(a, b, if |b| == 0 then 0 else Min(|a|, |b| - 1)) +
      SumUpTo(a, b, if |a| == 0 then 0 else Min(|a| - 1, |b|))
  {
    F1IsProduct(a, b);
    F2IsSum(a, b);
  }

  // ---------------------------------------------------------------------------
  // Where cycle's arrays come from
  // ---------------------------------------------------------------------------

  /** The inverse of Split: the parts with one separator between neighbours. */
  function Join(parts: seq<string>, sep: char): string
    requires |parts| >= 1
  {
    if |parts| == 1 then parts[0] else parts[0] + [sep] + Join(parts[1..], sep)
  }

  /**
   * Python's `str.split(sep)`: the pieces between occurrences of sep, at least
   * one; joining them back with sep gives the text again.
   */
  function Split(s: string, sep: char): (parts: seq<string>)
    ensures |parts| >= 1
    ensures forall i :: 0 <= i < |parts| ==> sep !in parts[i]
    ensures Join(parts, sep) == s
    ensures |parts| == 1 <==> sep !in s
  {
    if s == [] then [""]
    else
      var rest := Split(s[1..], sep);
      if s[0] == sep then [""] + rest
      else
        assert s == [s[0]] + s[1..];
        [[s[0]] + rest[0]] + rest[1..]
  }

  /** The two ways `cycle` reads its input. */
  datatype CycleSource =
    | Entries(entryA: string, entryB: string)  // the two entry fields (from_file is False)
    | FileText(text: string)                   // the text read from input.txt

  /**
   * Why there are no arrays: the file text does not start with `cycle` (a and
   * b are never bound), or it has no `;` (`data[1]` raises IndexError).
   */
  datatype CycleError = NotCycleInput | MissingSemicolon

  predicate HasCyclePrefix(text: string)
  {
    |text| >= 5 && text[..5] == "cycle"
  }

  /** The text pieces of a and b, before each is converted to floats. */
  function CycleFields(src: CycleSource): Result<(seq<string>, seq<string>), CycleError>
  {
    match src
    case Entries(entryA, _) =>
      // both lists are read from the entry of a
      Ok((Split(entryA, ','), Split(entryA, ',')))
    case FileText(text) =>
      if !HasCyclePrefix(text) then Err(NotCycleInput)
      else
        var data := Split(text[5..], ';');
        if |data| < 2 then Err(MissingSemicolon)
        else Ok((Split(data[0], ','), Split(data[1], ',')))
  }

  /** Joining at least two parts: the first, a separator, then the rest. */
  lemma JoinTwo(parts: seq<string>, sep: char)
    requires |parts| >= 2
    ensures Join(parts, sep) ==
      parts[0] + [sep] + parts[1] + (if |parts| == 2 then [] else [sep] + Join(parts[2..], sep))
  {
    assert parts[1..][1..] == parts[2..];
  }

  /**
   * The pieces of a and b never contain a comma: each list is split on ','.
   * In entry mode b is the same list as a, whatever the entry of b holds. In
   * file mode the text must start with `cycle` and hold a `;`; then the pieces
   * of a and b joined back with commas are the text between the prefix and
   * the first `;` and the text after it up to the next `;` or the end.
   */
  lemma CycleFieldsMeaning(src: CycleSource)
    ensures src.Entries? ==>
      CycleFields(src).Ok? && CycleFields(src).value.0 == CycleFields(src).value.1 &&
      Join(CycleFields(src).value.0, ',') == src.entryA
    ensures CycleFields(src).Ok? ==>
      (forall p :: p in CycleFields(src).value.0 ==> ',' !in p) &&
      (forall p :: p in CycleFields(src).value.1 ==> ',' !in p)
    ensures src.FileText? ==> (CycleFields(src) == Err(NotCycleInput) <==> !HasCyclePrefix(src.text))
    ensures src.FileText? ==>
      (CycleFields(src) == Err(MissingSemicolon) <==> HasCyclePrefix(src.text) && ';' !in src.text[5..])
    ensures src.FileText? && CycleFields(src).Ok? ==>
      var body := src.text[5..];
      var a := Join(CycleFields(src).value.0, ',');
      var b := Join(CycleFields(src).value.1, ',');
      var n := |a| + 1 + |b|;
      ';' !in a && ';' !in b && n <= |body| && body[..n] == a + [';'] + b && (n == |body| || body[n] == ';')
  {
    if src.FileText? && HasCyclePrefix(src.text) {
      var body := src.text[5..];
      var data := Split(body, ';');
      if |data| >= 2 {
        JoinTwo(data, ';');
        var n := |data[0]| + 1 + |data[1]|;
        assert body == data[0] + [';'] + data[1] + (if |data| == 2 then [] else [';'] + Join(data[2..], ';'));
        assert body[..n] == data[0] + [';'] + data[1];
      }
    }
  }
}
