/** Fixed-point probabilities, and scaling 64-bit numbers by them with 32-bit
    digits. */
module BranchProbability {
  import opened Words

  const DENOMINATOR: nat := 0x8000_0000
  const DIGIT: nat := 0x1_0000_0000
  const UINT64_MAX: nat := 0xFFFF_FFFF_FFFF_FFFF

  lemma {:induction false} Product(a: nat, b: nat, c: nat)
    requires a <= b
    ensures a * c <= b * c
  {
    assert (b - a) * c >= 0;
  }

  // ----- scaling -----

  /** `num * n / d`, or the largest 64-bit number if that is too much. */
  function Scaled(num: nat, n: nat, d: nat): nat
    requires d > 0
  {
    if num * n / d > UINT64_MAX then UINT64_MAX else num * n / d
  }

  /** The three digits of a 64-bit number times a 32-bit number. */
  function Digits(upper: nat, mid: nat, lower: nat): nat {
    (upper * DIGIT + mid) * DIGIT + lower
  }

  lemma {:induction false} SmallProduct(a: nat, n: nat)
    requires a < DIGIT && n < DIGIT
    ensures a * n <= (DIGIT - 1) * (DIGIT - 1)
  {
    Product(a, DIGIT - 1, n);
    Product(n, DIGIT - 1, DIGIT - 1);
  }

  lemma {:induction false} ProductParts(num: nat, a: nat, b: nat, n: nat)
    requires num == a * DIGIT + b
    ensures num * n == (a * n) * DIGIT + b * n
  {
    Distribute(a * DIGIT, b, n);
    assert (a * DIGIT) * n == (a * n) * DIGIT;
  }

  /** Adding the middle digits of two products, with the carry. */
  lemma {:induction false} Carried(h1: nat, h0: nat, l1: nat, l0: nat, sum: nat, carry: nat)
    requires h0 < DIGIT && l1 < DIGIT && sum == if h0 + l1 < DIGIT then h0 + l1 else h0 + l1 - DIGIT
    requires carry == if sum < h0 then 1 else 0
    ensures Digits(h1 + carry, sum, l0) == (h1 * DIGIT + h0) * DIGIT + (l1 * DIGIT + l0)
  {
  }

  lemma {:induction false} WrappedSum(x: nat, y: nat)
    requires x < DIGIT && y < DIGIT
    ensures (x + y) % DIGIT == if x + y < DIGIT then x + y else x + y - DIGIT
  {
  }

  lemma {:induction false} UpperBelow(h1: nat, h0: nat, l1: nat, carry: nat)
    requires h1 * DIGIT + h0 <= (DIGIT - 1) * (DIGIT - 1) && carry <= 1
    ensures h1 + carry < DIGIT
  {
  }

  /** Multiplying digit by digit, with the carry into the upper one. */
  lemma {:induction false} Multiplied(num: nat, n: nat, high: nat, low: nat, carry: nat)
    requires num <= UINT64_MAX && n < DIGIT
    requires high == (num / DIGIT) * n && low == (num % DIGIT) * n
    requires carry == if (high % DIGIT + low / DIGIT) % DIGIT < high % DIGIT then 1 else 0
    ensures high / DIGIT + carry < DIGIT
    ensures Digits(high / DIGIT + carry, (high % DIGIT + low / DIGIT) % DIGIT, low % DIGIT) == num * n
  {
    SmallProduct(num / DIGIT, n);
    SmallProduct(num % DIGIT, n);
    ProductParts(num, num / DIGIT, num % DIGIT, n);
    var h1, h0, l1, l0 := high / DIGIT, high % DIGIT, low / DIGIT, low % DIGIT;
    WrappedSum(h0, l1);
    UpperBelow(h1, h0, l1, carry);
    Carried(h1, h0, l1, l0, (h0 + l1) % DIGIT, carry);
  }

  /** Two digits of a quotient, the remainder of the first brought down. */
  lemma {:induction false} LongDivision(rem: int, p: int, s: int, q: int, s': int, lower: int, d: int)
    requires d > 0 && rem == p * d + s && s * DIGIT + lower == q * d + s' && 0 <= s' < d
    ensures (rem * DIGIT + lower) / d == p * DIGIT + q
  {
    Distribute(p * DIGIT, q, d);
    assert (p * d) * DIGIT == (p * DIGIT) * d;
    DivisionUnique(rem * DIGIT + lower, d, p * DIGIT + q, s');
  }

  /** Dividing digit by digit; no quotient digit exceeds 32 bits. */
  lemma {:induction false} Divided(upper: nat, mid: nat, lower: nat, d: nat)
    requires 0 < d < DIGIT && upper < d && mid < DIGIT && lower < DIGIT
    ensures var rem := upper * DIGIT + mid;
      var rem' := (rem % d) * DIGIT + lower;
      rem / d < DIGIT && rem' / d < DIGIT && Digits(upper, mid, lower) / d == (rem / d) * DIGIT + rem' / d
  {
    var rem := upper * DIGIT + mid;
    var rem' := (rem % d) * DIGIT + lower;
    DigitQuotient(upper, mid, d);
    DigitQuotient(rem % d, lower, d);
    var p, q, s, s' := rem / d, rem' / d, rem % d, rem' % d;
    assert rem == p * d + s;
    assert rem' == q * d + s';
    LongDivision(rem, p, s, q, s', lower, d);
  }

  lemma {:induction false} DigitQuotient(a: nat, b: nat, d: nat)
    requires a < d && b < DIGIT
    ensures (a * DIGIT + b) / d < DIGIT
  {
    DivisionMonotonic(a * DIGIT + b, DIGIT * d - 1, d);
    assert DIGIT * d - 1 == (DIGIT - 1) * d + (d - 1);
    DivisionUnique(DIGIT * d - 1, d, DIGIT - 1, d - 1);
  }

  /** A product this large is more than 64 bits even after the division. */
  lemma {:induction false} TooLarge(upper: nat, mid: nat, lower: nat, d: nat)
    requires d > 0 && upper >= d
    ensures Digits(upper, mid, lower) / d > UINT64_MAX
  {
    var word := DIGIT * DIGIT;
    Product(d, upper, word);
    assert Digits(upper, mid, lower) >= word * d;
    DivisionMonotonic(word * d, Digits(upper, mid, lower), d);
    ExactDivision(word, d);
  }

  lemma {:induction false} Recombined(upper: nat, lower: nat)
    requires upper < DIGIT && lower < DIGIT
    ensures lower <= upper * DIGIT + lower <= UINT64_MAX
    ensures (upper * DIGIT + lower) % (UINT64_MAX + 1) == upper * DIGIT + lower
  {
  }

  lemma {:induction false} ByOne(num: nat, d: nat)
    requires d > 0
    ensures num * d / d == num && 0 * d / d == 0
  {
    ExactDivision(num, d);
    ExactDivision(0, d);
  }

  lemma {:induction false} ZeroScaled(n: nat, d: nat)
    requires d > 0
    ensures 0 * n / d == 0
  {
    ExactDivision(0, d);
  }

  /** The product, in 32-bit digits. */
  method Multiply(num: nat, n: nat) returns (upper32: nat, mid32: nat, lower32: nat)
    requires num <= UINT64_MAX && n < DIGIT
    ensures Digits(upper32, mid32, lower32) == num * n
    ensures upper32 < DIGIT && mid32 < DIGIT && lower32 < DIGIT
  {
    hide Digits;
    var productHigh := (num / DIGIT) * n;
    var productLow := (num % DIGIT) * n;
    upper32 := productHigh / DIGIT;
    lower32 := productLow % DIGIT;
    var mid32Partial := productHigh % DIGIT;
    mid32 := (mid32Partial + productLow / DIGIT) % DIGIT;
    ghost var carry: nat := if mid32 < mid32Partial then 1 else 0;
    Multiplied(num, n, productHigh, productLow, carry);
    if mid32 < mid32Partial {
      upper32 := (upper32 + 1) % DIGIT;
    }
  }

  /** The quotient of a number in 32-bit digits. */
  method Divide(upper32: nat, mid32: nat, lower32: nat, d: nat) returns (r: nat)
    requires 0 < d < DIGIT && mid32 < DIGIT && lower32 < DIGIT
    ensures var q := Digits(upper32, mid32, lower32) / d; r == if q > UINT64_MAX then UINT64_MAX else q
  {
    if upper32 >= d {
      TooLarge(upper32, mid32, lower32, d);
      return UINT64_MAX;
    }
    Divided(upper32, mid32, lower32, d);
    var rem := upper32 * DIGIT + mid32;
    var upperQ := rem / d;
    if upperQ > DIGIT - 1 {
      return UINT64_MAX;
    }
    rem := (rem % d) * DIGIT + lower32;
    var lowerQ := rem / d;
    Recombined(upperQ, lowerQ);
    var q := (upperQ * DIGIT + lowerQ) % (UINT64_MAX + 1);
    if q < lowerQ {
      return UINT64_MAX;
    }
    return q;
  }

  /** Scales `num` by n/d, in 64-bit arithmetic. */
  method Scale(num: nat, n: nat, d: nat) returns (r: nat)
    requires num <= UINT64_MAX && n < DIGIT && 0 < d < DIGIT
    ensures r == Scaled(num, n, d)
  {
    if num == 0 || d == n {
      ByOne(num, d);
      ZeroScaled(n, d);
      return num;
    }
    var upper32, mid32, lower32 := Multiply(num, n);
    r := Divide(upper32, mid32, lower32, d);
  }

  // ----- probabilities -----

  /** The numerator of weight/total over 2^31, rounded to nearest. */
  function Numerator(weight: nat, total: nat): nat
    requires weight <= total && total > 0
  {
    if total == DENOMINATOR then weight else (weight * DENOMINATOR + total / 2) / total
  }

  lemma {:induction false} NumeratorBound(weight: nat, total: nat)
    requires weight <= total && total > 0
    ensures Numerator(weight, total) <= DENOMINATOR
    ensures weight == total ==> Numerator(weight, total) == DENOMINATOR
  {
    if total != DENOMINATOR {
      var most := total * DENOMINATOR + total / 2;
      Product(weight, total, DENOMINATOR);
      DivisionMonotonic(weight * DENOMINATOR + total / 2, most, total);
      assert most == DENOMINATOR * total + total / 2;
      DivisionUnique(most, total, DENOMINATOR, total / 2);
    }
  }

  /** Rounding is off by half a unit at most. */
  lemma {:induction false} NumeratorNear(weight: nat, total: nat)
    requires weight <= total && total > 0
    ensures 2 * (weight * DENOMINATOR) - total <= 2 * (Numerator(weight, total) * total)
         <= 2 * (weight * DENOMINATOR) + total
  {
    if total != DENOMINATOR {
      var x := weight * DENOMINATOR + total / 2;
      var q := x / total;
      assert x == q * total + x % total;
    }
  }

  /** A mass times weight/total. */
  function Portion(mass: nat, weight: nat, total: nat): nat
    requires weight <= total && total > 0
  {
    Scaled(mass, Numerator(weight, total), DENOMINATOR)
  }

  /** At most the mass, and all of it for the whole. */
  lemma {:induction false} PortionBound(mass: nat, weight: nat, total: nat)
    requires mass <= UINT64_MAX && weight <= total && total > 0
    ensures Portion(mass, weight, total) <= mass
    ensures weight == total ==> Portion(mass, weight, total) == mass
  {
    var n := Numerator(weight, total);
    NumeratorBound(weight, total);
    Product(n, DENOMINATOR, mass);
    DivisionMonotonic(mass * n, mass * DENOMINATOR, DENOMINATOR);
    ExactDivision(mass, DENOMINATOR);
  }

  /** `p` is, within `k` roundings, the part of `mass` that `weight` is of `total`; one
      rounding is half a numerator's unit of the mass, and one. */
  predicate NearShare(p: int, mass: int, weight: int, total: int, k: int) {
    -(k * ((mass + 2 * DENOMINATOR) * total)) <= 2 * DENOMINATOR * (p * total - mass * weight)
    <= k * ((mass + 2 * DENOMINATOR) * total)
  }

  lemma {:induction false} Unsaturated(mass: nat, weight: nat, total: nat)
    requires mass <= UINT64_MAX && weight <= total && total > 0
    ensures Portion(mass, weight, total) == mass * Numerator(weight, total) / DENOMINATOR
  {
    var n := Numerator(weight, total);
    NumeratorBound(weight, total);
    Product(n, DENOMINATOR, mass);
    DivisionMonotonic(mass * n, mass * DENOMINATOR, DENOMINATOR);
    ExactDivision(mass, DENOMINATOR);
  }

  lemma {:induction false} QuotientTimes(x: int, d: int, q: int)
    requires d > 0 && q == x / d
    ensures x - d <= q * d <= x
  {
    assert x == q * d + x % d;
  }

  /** Scaling a mass by weight/total is in proportion. */
  lemma {:induction false} PortionNear(mass: nat, weight: nat, total: nat)
    requires mass <= UINT64_MAX && weight <= total && total > 0
    ensures NearShare(Portion(mass, weight, total), mass, weight, total, 1)
  {
    hide Portion, Numerator, NearShare;
    var n, p := Numerator(weight, total), Portion(mass, weight, total);
    Unsaturated(mass, weight, total);
    QuotientTimes(mass * n, DENOMINATOR, p);
    NumeratorNear(weight, total);
    PortionRounded(mass, weight, total, n, p);
  }

  lemma {:induction false} PortionRounded(mass: int, weight: int, total: int, n: int, p: int)
    requires mass >= 0 && total > 0 && mass * n - DENOMINATOR <= p * DENOMINATOR <= mass * n
    requires 2 * (weight * DENOMINATOR) - total <= 2 * (n * total) <= 2 * (weight * DENOMINATOR) + total
    ensures NearShare(p, mass, weight, total, 1)
  {
    var a, b := mass * n - p * DENOMINATOR, 2 * (n * total) - 2 * (weight * DENOMINATOR);
    PortionProducts(mass, weight, total, n, p);
    Within(b, total, mass);
    Within(a, DENOMINATOR, total);
    ProductAtLeastZero(a, total);
    Distribute(mass, 2 * DENOMINATOR, total);
    Associate(2, DENOMINATOR, total);
    assert total * mass == mass * total;
  }

  lemma {:induction false} PortionProducts(mass: int, weight: int, total: int, n: int, p: int)
    ensures 2 * DENOMINATOR * (p * total - mass * weight)
         == (2 * (n * total) - 2 * (weight * DENOMINATOR)) * mass - 2 * ((mass * n - p * DENOMINATOR) * total)
  {
    Distribute(mass * n, p * DENOMINATOR, total);
    Distribute(2 * (n * total), 2 * (weight * DENOMINATOR), mass);
    Associate(2, n * total, mass);
    Associate(2, weight * DENOMINATOR, mass);
    Swapped(n, total, mass);
    Swapped(p, DENOMINATOR, total);
    Swapped(weight, DENOMINATOR, mass);
    assert mass * n == n * mass && weight * mass == mass * weight;
  }

  /** A product of something small. */
  lemma {:induction false} Within(d: int, t: int, m: int)
    requires -t <= d <= t && m >= 0
    ensures -(t * m) <= d * m <= t * m
  {
    ProductAtLeastZero(t + d, m);
    ProductAtLeastZero(t - d, m);
    Distribute(t, d, m);
  }

  /** Another rounding, of a part of something that was rounded `k` times: `x` is made
      from the error `e` so far and the new one, `d`, in proportion. */
  lemma {:induction false} OneMoreRounding(x: int, e: int, d: int, a: int, rest: int, total: int, unit: int, k: int)
    requires rest > 0 && 0 <= a <= rest && total > 0 && unit >= 0 && k >= 0
    requires x * rest == e * a + d * total
    requires -(k * (unit * total)) <= 2 * DENOMINATOR * e <= k * (unit * total)
    requires -(unit * rest) <= 2 * DENOMINATOR * d <= unit * rest
    ensures -((k + 1) * (unit * total)) <= 2 * DENOMINATOR * x <= (k + 1) * (unit * total)
  {
    var b := unit * total;
    var x2, e2, d2 := 2 * DENOMINATOR * x, 2 * DENOMINATOR * e, 2 * DENOMINATOR * d;
    assert x2 * rest == e2 * a + d2 * total by {
      Associate(2 * DENOMINATOR, x, rest);
      Associate(2 * DENOMINATOR, e, a);
      Associate(2 * DENOMINATOR, d, total);
    }
    ProductAtLeastZero(unit, total);
    ProductAtLeastZero(k, b);
    Within(e2, k * b, a);
    ProductAtLeastZero(rest - a, k * b);
    Distribute(rest, a, k * b);
    Within(d2, unit * rest, total);
    Swapped(unit, rest, total);
    Distribute(k, 1, b);
    Distribute(k * b, b, rest);
    AtMostTimes(x2, (k + 1) * b, rest);
    assert (-x2) * rest == -(x2 * rest);
    AtMostTimes(-x2, (k + 1) * b, rest);
  }

  /** What is taken of the rest is in proportion to the whole. */
  lemma {:induction false} TakenNear(p: int, mass: int, weight: int, rest: int, whole: int, total: int, k: int)
    requires 0 <= weight <= rest && rest > 0 && total > 0 && 0 <= mass <= whole && k >= 0
    requires NearShare(p, mass, weight, rest, 1) && NearShare(mass, whole, rest, total, k)
    ensures NearShare(p, whole, weight, total, k + 1)
    ensures NearShare(mass - p, whole, rest - weight, total, k + 1)
  {
    var unit := whole + 2 * DENOMINATOR;
    var e, d := mass * total - whole * rest, p * rest - mass * weight;
    ProductAtLeastZero(whole - mass, rest);
    Distribute(unit, mass + 2 * DENOMINATOR, rest);
    TakenProducts(p, mass, weight, rest, whole, total);
    OneMoreRounding(p * total - whole * weight, e, d, weight, rest, total, unit, k);
    OneMoreRounding((mass - p) * total - whole * (rest - weight), e, -d, rest - weight, rest, total, unit, k);
  }

  lemma {:induction false} TakenProducts(p: int, mass: int, weight: int, rest: int, whole: int, total: int)
    ensures (p * total - whole * weight) * rest
         == (mass * total - whole * rest) * weight + (p * rest - mass * weight) * total
    ensures ((mass - p) * total - whole * (rest - weight)) * rest
         == (mass * total - whole * rest) * (rest - weight) + (-(p * rest - mass * weight)) * total
  {
    var e, d := mass * total - whole * rest, p * rest - mass * weight;
    Distribute(p * total, whole * weight, rest);
    Distribute(mass * total, whole * rest, weight);
    Distribute(p * rest, mass * weight, total);
    Swapped(p, total, rest);
    Swapped(whole, weight, rest);
    Swapped(mass, total, weight);
    Distribute(mass, p, total);
    Distribute(rest, weight, whole);
    var f := (mass - p) * total - whole * (rest - weight);
    assert f == e - (p * total - whole * weight);
    Distribute(e, p * total - whole * weight, rest);
    Distribute(rest, weight, e);
    assert (-d) * total == -(d * total);
  }
}
