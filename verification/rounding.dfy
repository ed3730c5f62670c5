/**
 * The rounding engine. Rule "none" quantizes to a whole rupiah with
 * ROUND_HALF_UP, which rounds ties away from zero; rules "100" and "1000"
 * divide by the step, apply Python's built-in `round` (ties to the even
 * integer) and multiply back, so ties go to the even multiple of the step.
 */
module Rounding {

  /** The three choices of the rounding selector. */
  datatype Rule = NoRounding | Nearest100 | Nearest1000

  function Abs(x: real): real
  {
    if x < 0.0 then -x else x
  }

  /** The granularity a rule rounds to. */
  function Step(rule: Rule): (step: int)
    ensures step >= 1
  {
    match rule
    case NoRounding => 1
    case Nearest100 => 100
    case Nearest1000 => 1000
  }

  /** `k` is an integer nearest to `x`, and on a tie the one farther from zero. */
  predicate NearestAwayFromZero(x: real, k: int)
  {
    && Abs(k as real - x) <= 0.5
    && (Abs(k as real - x) == 0.5 ==> Abs(k as real) > Abs(x))
  }

  /** `k` is an integer nearest to `x`, and on a tie the even one. */
  predicate NearestEven(x: real, k: int)
  {
    && Abs(k as real - x) <= 0.5
    && (Abs(k as real - x) == 0.5 ==> k % 2 == 0)
  }

  /** `Decimal(x).quantize(Decimal("1"), rounding=ROUND_HALF_UP)`. */
  function RoundHalfAway(x: real): (r: int)
    ensures NearestAwayFromZero(x, r)
  {
    if x >= 0.0 then (x + 0.5).Floor else -((0.5 - x).Floor)
  }

  /** Python's built-in `round` on a number: the nearest integer, ties to even. */
  function RoundHalfEven(x: real): (r: int)
    ensures NearestEven(x, r)
  {
    var f := x.Floor;
    var frac := x - f as real;
    if frac < 0.5 then f
    else if frac > 0.5 then f + 1
    else if f % 2 == 0 then f
    else f + 1
  }

  /** `step * round(x / step)`: the nearest multiple of `step`, ties to the even multiple. */
  function RoundToMultiple(x: real, step: int): (r: int)
    requires step == 100 || step == 1000
    ensures r % step == 0
    ensures Abs(r as real - x) <= step as real / 2.0
    ensures Abs(r as real - x) == step as real / 2.0 ==> (r / step) % 2 == 0
  {
    var k := RoundHalfEven(x / step as real);
    ScaleDistance(x, step, k);
    assert (step * k) % step == 0 && (step * k) / step == k;
    ScaledTie(step as real, Abs(k as real - x / step as real));
    step * k
  }

  /** A distance of half a step at scale `s` is a distance of one half at scale one. */
  lemma ScaledTie(s: real, d: real)
    requires s >= 1.0 && d >= 0.0
    ensures d <= 0.5 <==> s * d <= s / 2.0
    ensures s * d == s / 2.0 ==> d == 0.5
  {
  }

  /** `round_rule(amount, rule)`. */
  function RoundRule(x: real, rule: Rule): (r: int)
    ensures r % Step(rule) == 0
    ensures Abs(r as real - x) <= Step(rule) as real / 2.0
    ensures rule == NoRounding ==> NearestAwayFromZero(x, r)
    ensures rule != NoRounding && Abs(r as real - x) == Step(rule) as real / 2.0 ==> (r / Step(rule)) % 2 == 0
  {
    match rule
    case NoRounding => RoundHalfAway(x)
    case Nearest100 => RoundToMultiple(x, 100)
    case Nearest1000 => RoundToMultiple(x, 1000)
  }

  /** Distances scale with the step: `|s*k - x| = s * |k - x/s|`. */
  lemma ScaleDistance(x: real, step: int, k: int)
    requires step == 100 || step == 1000
    ensures Abs((step * k) as real - x) == step as real * Abs(k as real - x / step as real)
  {
    var s := step as real;
    assert (step * k) as real == s * k as real;
    assert (step * k) as real - x == s * (k as real - x / s);
  }

  // ---------------------------------------------------------------------------
  // The rounding functions are determined by their characterisations

  /** Only one integer is nearest to `x` with ties away from zero. */
  lemma RoundHalfAwayUnique(x: real, k: int)
    requires NearestAwayFromZero(x, k)
    ensures k == RoundHalfAway(x)
  {
  }

  /** Only one integer is nearest to `x` with ties to even. */
  lemma RoundHalfEvenUnique(x: real, k: int)
    requires NearestEven(x, k)
    ensures k == RoundHalfEven(x)
  {
  }

  /** `RoundHalfAway(x) == k` exactly when `k` is the nearest integer with ties away from zero. */
  lemma RoundHalfAwayIff(x: real, k: int)
    ensures RoundHalfAway(x) == k <==> NearestAwayFromZero(x, k)
  {
    if NearestAwayFromZero(x, k) {
      RoundHalfAwayUnique(x, k);
    }
  }

  /** `RoundHalfEven(x) == k` exactly when `k` is the nearest integer with ties to even. */
  lemma RoundHalfEvenIff(x: real, k: int)
    ensures RoundHalfEven(x) == k <==> NearestEven(x, k)
  {
    if NearestEven(x, k) {
      RoundHalfEvenUnique(x, k);
    }
  }

  /**
   * `r` is what a rule should produce for `x`: a multiple of the step within
   * half a step of `x`; on a tie, farther from zero for rule "none" and the
   * even multiple of the step for the other rules.
   */
  predicate NearestMultiple(x: real, rule: Rule, r: int)
  {
    var step := Step(rule);
    && r % step == 0
    && Abs(r as real - x) <= step as real / 2.0
    && (rule == NoRounding ==> NearestAwayFromZero(x, r))
    && (rule != NoRounding && Abs(r as real - x) == step as real / 2.0 ==> (r / step) % 2 == 0)
  }

  /** Only one step multiple is nearest with ties to the even multiple. */
  lemma RoundToMultipleUnique(x: real, step: int, r: int)
    requires step == 100 || step == 1000
    requires r % step == 0 && Abs(r as real - x) <= step as real / 2.0
    requires Abs(r as real - x) == step as real / 2.0 ==> (r / step) % 2 == 0
    ensures r == RoundToMultiple(x, step)
  {
    var s := step as real;
    var k := r / step;
    assert r == step * k;
    ScaleDistance(x, step, k);
    var d := Abs(k as real - x / s);
    ScaledTie(s, d);
    assert NearestEven(x / s, k);
    RoundHalfEvenUnique(x / s, k);
  }

  /** `RoundRule(x, rule) == r` exactly when `r` is the nearest step multiple under the rule's tie policy. */
  lemma RoundRuleIff(x: real, rule: Rule, r: int)
    ensures RoundRule(x, rule) == r <==> NearestMultiple(x, rule, r)
  {
    if NearestMultiple(x, rule, r) {
      match rule
      case NoRounding =>
        RoundHalfAwayUnique(x, r);
      case Nearest100 =>
        RoundToMultipleUnique(x, 100, r);
      case Nearest1000 =>
        RoundToMultipleUnique(x, 1000, r);
    }
  }

  // ---------------------------------------------------------------------------
  // Sign symmetry: negative amounts round like their magnitudes

  lemma RoundHalfAwayOdd(x: real)
    ensures RoundHalfAway(-x) == -RoundHalfAway(x)
  {
    var r := RoundHalfAway(x);
    assert Abs((-r) as real - (-x)) == Abs(r as real - x);
    RoundHalfAwayUnique(-x, -r);
  }

  lemma RoundHalfEvenOdd(x: real)
    ensures RoundHalfEven(-x) == -RoundHalfEven(x)
  {
    var r := RoundHalfEven(x);
    assert Abs((-r) as real - (-x)) == Abs(r as real - x);
    assert r % 2 == 0 ==> (-r) % 2 == 0;
    RoundHalfEvenUnique(-x, -r);
  }

  /** Every rule rounds `-x` to the negation of what it rounds `x` to. */
  lemma RoundRuleOdd(x: real, rule: Rule)
    ensures RoundRule(-x, rule) == -RoundRule(x, rule)
  {
    match rule
    case NoRounding =>
      RoundHalfAwayOdd(x);
    case Nearest100 =>
      RoundToMultipleOdd(x, 100);
    case Nearest1000 =>
      RoundToMultipleOdd(x, 1000);
  }

  lemma RoundToMultipleOdd(x: real, step: int)
    requires step == 100 || step == 1000
    ensures RoundToMultiple(-x, step) == -RoundToMultiple(x, step)
  {
    var s := step as real;
    assert -x / s == -(x / s);
    RoundHalfEvenOdd(x / s);
    var k := RoundHalfEven(x / s);
    assert step * -k == -(step * k);
  }

  /** An amount that is already a multiple of the step is left unchanged. */
  lemma RoundRuleFixesMultiples(k: int, rule: Rule)
    ensures RoundRule((k * Step(rule)) as real, rule) == k * Step(rule)
  {
    var step := Step(rule);
    var x := (k * step) as real;
    match rule
    case NoRounding =>
      RoundHalfAwayUnique(x, k);
    case Nearest100 =>
      assert x / 100.0 == k as real;
      RoundHalfEvenUnique(x / 100.0, k);
    case Nearest1000 =>
      assert x / 1000.0 == k as real;
      RoundHalfEvenUnique(x / 1000.0, k);
  }

  /** Tie cases that tell the two tie policies apart. */
  lemma RoundRuleTies()
    ensures RoundRule(250.0, Nearest100) == 200
    ensures RoundRule(350.0, Nearest100) == 400
    ensures RoundRule(-150.0, Nearest100) == -200
    ensures RoundRule(2500.0, Nearest1000) == 2000
    ensures RoundRule(2.5, NoRounding) == 3
    ensures RoundRule(-2.5, NoRounding) == -3
  {
    RoundHalfEvenUnique(2.5, 2);
    RoundHalfEvenUnique(3.5, 4);
    RoundHalfEvenUnique(-1.5, -2);
    RoundHalfAwayUnique(2.5, 3);
    RoundHalfAwayUnique(-2.5, -3);
  }
}
