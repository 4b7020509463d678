/** Machine words: residues modulo powers of two, their signed reading, and the
    bitwise operations on them. */
module Words {

  function Pow2(n: nat): (r: nat)
    ensures r > 0
  {
    if n == 0 then 1 else 2 * Pow2(n - 1)
  }

  // ----- multiplication -----

  lemma {:induction false} Distribute(a: int, b: int, c: int)
    ensures (a + b) * c == a * c + b * c && (a - b) * c == a * c - b * c
  {
  }

  lemma {:induction false} Associate(a: int, b: int, c: int)
    ensures (a * b) * c == a * (b * c)
  {
  }

  lemma {:induction false} Swapped(a: int, b: int, c: int)
    ensures (a * b) * c == (a * c) * b
  {
  }

  lemma {:induction false} ProductAtLeastZero(a: int, b: int)
    requires a >= 0 && b >= 0
    ensures a * b >= 0
  {
  }

  // ----- congruence -----

  /** `a` and `b` differ by a multiple of `m`. */
  predicate Congruent(m: int, a: int, b: int)
    requires m > 0
  {
    (a - b) % m == 0
  }

  lemma {:induction false} MultipleAtLeast(m: int, k: int)
    requires m > 0 && k > 0
    ensures k * m >= m
    decreases k
  {
    if k > 1 {
      MultipleAtLeast(m, k - 1);
      assert k * m == (k - 1) * m + m;
    }
  }

  lemma {:induction false} AtMostTimes(x: int, y: int, m: int)
    requires m > 0 && x * m <= y * m
    ensures x <= y
  {
    if x > y {
      Distribute(x, y, m);
      MultipleAtLeast(m, x - y);
    }
  }

  /** The only multiple of `m` between -m and m is zero. */
  lemma {:induction false} SmallMultiple(m: int, k: int)
    requires m > 0 && -m < k * m < m
    ensures k == 0
  {
    assert (-k) * m == -(k * m);
    if k > 0 {
      MultipleAtLeast(m, k);
    } else if k < 0 {
      MultipleAtLeast(m, -k);
    }
  }

  lemma {:induction false} MultipleMod(m: int, k: int)
    requires m > 0
    ensures (k * m) % m == 0
  {
    var x := k * m;
    var q, r := x / m, x % m;
    assert x == q * m + r;
    assert (k - q) * m == k * m - q * m;
    SmallMultiple(m, k - q);
  }

  lemma {:induction false} CongruentBy(m: int, a: int, b: int, k: int)
    requires m > 0 && a - b == k * m
    ensures Congruent(m, a, b)
  {
    MultipleMod(m, k);
  }

  lemma {:induction false} Factor(m: int, a: int, b: int) returns (k: int)
    requires m > 0 && Congruent(m, a, b)
    ensures a - b == k * m
  {
    k := (a - b) / m;
  }

  lemma {:induction false} CongruentMod(m: int, a: int)
    requires m > 0
    ensures Congruent(m, a % m, a) && Congruent(m, a, a % m)
  {
    var k := a / m;
    assert a - a % m == k * m;
    CongruentBy(m, a, a % m, k);
    assert a % m - a == (-k) * m;
    CongruentBy(m, a % m, a, -k);
  }

  lemma {:induction false} CongruentSym(m: int, a: int, b: int)
    requires m > 0 && Congruent(m, a, b)
    ensures Congruent(m, b, a)
  {
    var k := Factor(m, a, b);
    assert b - a == (-k) * m;
    CongruentBy(m, b, a, -k);
  }

  lemma {:induction false} CongruentTrans(m: int, a: int, b: int, c: int)
    requires m > 0 && Congruent(m, a, b) && Congruent(m, b, c)
    ensures Congruent(m, a, c)
  {
    var k := Factor(m, a, b);
    var l := Factor(m, b, c);
    assert a - c == (k + l) * m;
    CongruentBy(m, a, c, k + l);
  }

  lemma {:induction false} CongruentAdd(m: int, a: int, b: int, c: int, d: int)
    requires m > 0 && Congruent(m, a, b) && Congruent(m, c, d)
    ensures Congruent(m, a + c, b + d) && Congruent(m, a - c, b - d)
  {
    var k := Factor(m, a, b);
    var l := Factor(m, c, d);
    assert a + c - (b + d) == (k + l) * m;
    CongruentBy(m, a + c, b + d, k + l);
    assert a - c - (b - d) == (k - l) * m;
    CongruentBy(m, a - c, b - d, k - l);
  }

  lemma {:induction false} CongruentMul(m: int, a: int, b: int, c: int, d: int)
    requires m > 0 && Congruent(m, a, b) && Congruent(m, c, d)
    ensures Congruent(m, a * c, b * d)
  {
    var k := Factor(m, a, b);
    var l := Factor(m, c, d);
    calc {
      a * c - b * d;
    ==
      (a - b) * c + b * (c - d);
    ==
      (k * m) * c + b * (l * m);
    ==
      (k * c + b * l) * m;
    }
    CongruentBy(m, a * c, b * d, k * c + b * l);
  }

  /** Congruence survives taking a divisor of the modulus. */
  lemma {:induction false} CongruentDivisor(m: int, n: int, q: int, a: int, b: int)
    requires m > 0 && n > 0 && m == q * n && Congruent(m, a, b)
    ensures Congruent(n, a, b)
  {
    var k := Factor(m, a, b);
    assert a - b == (k * q) * n;
    CongruentBy(n, a, b, k * q);
  }

  /** Two residues that are congruent are equal. */
  lemma {:induction false} CongruentEqual(m: int, a: int, b: int)
    requires m > 0 && Congruent(m, a, b) && -m < a - b < m
    ensures a == b
  {
    var k := Factor(m, a, b);
    SmallMultiple(m, k);
  }

  lemma {:induction false} Pow2Add(a: nat, b: nat)
    ensures Pow2(a + b) == Pow2(a) * Pow2(b)
  {
    if a > 0 {
      Pow2Add(a - 1, b);
      assert Pow2(a + b) == 2 * (Pow2(a - 1) * Pow2(b));
    }
  }

  lemma {:induction false} Pow2Monotonic(a: nat, b: nat)
    requires a <= b
    ensures Pow2(a) <= Pow2(b)
  {
    if a < b {
      Pow2Monotonic(a, b - 1);
    }
  }

  lemma {:induction false} WordIsPow2()
    ensures Pow2(64) == WORD && Pow2(63) == HALF_WORD
  {
    assert Pow2(8) == 0x100;
    Pow2Add(8, 8);
    Pow2Add(16, 16);
    Pow2Add(32, 32);
    assert Pow2(64) == 2 * Pow2(63);
  }

  // ----- division -----

  lemma {:induction false} OwnResidue(m: int, x: int)
    requires 0 <= x < m
    ensures x % m == x
  {
  }

  /** Quotient and remainder are the only ones. */
  lemma {:induction false} DivisionUnique(x: int, d: int, q: int, r: int)
    requires d > 0 && x == q * d + r && 0 <= r < d
    ensures x / d == q && x % d == r
  {
    var q', r' := x / d, x % d;
    assert x == q' * d + r';
    if q < q' {
      assert (q' - q) * d >= d by { MultipleAtLeast(d, q' - q); }
    } else if q' < q {
      assert (q - q') * d >= d by { MultipleAtLeast(d, q - q'); }
    }
  }

  function Quotient(x: nat, d: nat): nat
    requires d > 0
  {
    x / d
  }

  lemma {:induction false} DivisionMonotonic(x: int, y: int, d: int)
    requires d > 0 && x <= y
    ensures x / d <= y / d
  {
    var p, q := x / d, y / d;
    assert x == p * d + x % d && y == q * d + y % d;
    assert p * d - q * d == (p - q) * d;
    if q < p {
      MultipleAtLeast(d, p - q);
    }
  }

  lemma {:induction false} ExactDivision(q: int, d: int)
    requires d > 0
    ensures (q * d) / d == q
  {
    DivisionUnique(q * d, d, q, 0);
  }

  // ----- signed reading -----

  /** The value of the low `n` bits of `x` as a signed number. */
  function Signed(n: nat, x: int): (r: int)
    requires n > 0
    ensures 0 - Pow2(n - 1) <= r < Pow2(n - 1)
  {
    var u := x % Pow2(n);
    assert Pow2(n) == 2 * Pow2(n - 1);
    if u < Pow2(n - 1) then u else u - Pow2(n)
  }

  lemma {:induction false} SignedCongruent(n: nat, x: int)
    requires n > 0
    ensures Congruent(Pow2(n), Signed(n, x), x) && Congruent(Pow2(n), x, Signed(n, x))
  {
    var m, u := Pow2(n), x % Pow2(n);
    CongruentMod(m, x);
    if u != Signed(n, x) {
      CongruentBy(m, Signed(n, x), u, -1);
      CongruentTrans(m, Signed(n, x), u, x);
    }
    CongruentSym(m, Signed(n, x), x);
  }

  // ----- 64-bit words -----

  const WORD := 0x1_0000_0000_0000_0000
  const HALF_WORD := 0x8000_0000_0000_0000

  /** Signed reading depends on the residue alone. */
  lemma {:induction false} SignedSame(n: nat, x: int, y: int)
    requires n > 0 && Congruent(Pow2(n), x, y)
    ensures Signed(n, x) == Signed(n, y)
  {
    SignedCongruent(n, x);
    SignedCongruent(n, y);
    CongruentTrans(Pow2(n), Signed(n, x), x, y);
    CongruentTrans(Pow2(n), Signed(n, x), y, Signed(n, y));
    assert Pow2(n) == 2 * Pow2(n - 1);
    CongruentEqual(Pow2(n), Signed(n, x), Signed(n, y));
  }

  /** The low 64 bits of `x` as a signed number. */
  function Wrap64(x: int): (r: int)
    ensures -HALF_WORD <= r < HALF_WORD
  {
    if x % WORD < HALF_WORD then x % WORD else x % WORD - WORD
  }

  lemma {:induction false} Wrap64Congruent(x: int)
    ensures Congruent(WORD, Wrap64(x), x) && Congruent(WORD, x, Wrap64(x))
  {
  }

  lemma {:induction false} Wrap64Unique(x: int, y: int)
    requires Congruent(WORD, x, y) && -HALF_WORD <= y < HALF_WORD
    ensures Wrap64(x) == y
  {
  }

  /** A word is 2^w, 64 - w times doubled. */
  lemma {:induction false} WordSplits(w: nat)
    requires 0 < w <= 64
    ensures Pow2(64 - w) * Pow2(w) == WORD && Pow2(64 - w) * Pow2(w - 1) == HALF_WORD
  {
    Pow2Add(64 - w, w);
    Pow2Add(64 - w, w - 1);
    WordIsPow2();
  }

  // ----- bitwise operations -----

  function And(x: nat, y: nat): nat {
    if x == 0 || y == 0 then 0 else (x % 2) * (y % 2) + 2 * And(x / 2, y / 2)
  }

  function Or(x: nat, y: nat): nat
    decreases x + y
  {
    if x == 0 then y else if y == 0 then x
    else (if x % 2 == 1 || y % 2 == 1 then 1 else 0) + 2 * Or(x / 2, y / 2)
  }

  function Xor(x: nat, y: nat): nat
    decreases x + y
  {
    if x == 0 then y else if y == 0 then x
    else (if x % 2 != y % 2 then 1 else 0) + 2 * Xor(x / 2, y / 2)
  }

  /** Without common bits, or is addition. */
  lemma {:induction false} OrIsAdd(x: nat, y: nat)
    requires And(x, y) == 0
    ensures Or(x, y) == x + y
  {
    if x > 0 && y > 0 {
      OrIsAdd(x / 2, y / 2);
    }
  }

  lemma {:induction false} AndZero(x: nat)
    ensures And(x, 0) == 0 && And(0, x) == 0
  {
  }

  /** Masking with 2^k - 1 is taking the remainder. */
  lemma {:induction false} MaskIsMod(x: nat, k: nat)
    ensures And(x, Pow2(k) - 1) == x % Pow2(k)
  {
    if k == 0 {
      assert x % 1 == 0;
    } else if x == 0 {
    } else {
      MaskIsMod(x / 2, k - 1);
      assert (Pow2(k) - 1) / 2 == Pow2(k - 1) - 1 && (Pow2(k) - 1) % 2 == 1;
      HalfMod(x, Pow2(k - 1));
    }
  }

  lemma {:induction false} HalfMod(x: nat, m: nat)
    requires m > 0
    ensures x % (2 * m) == x % 2 + 2 * ((x / 2) % m)
  {
    var h := x / 2;
    var r := x % 2 + 2 * (h % m);
    var q := h / m;
    assert h == q * m + h % m;
    assert x == 2 * h + x % 2;
    assert x - r == q * (2 * m) by {
      assert 2 * (q * m) == q * (2 * m);
    }
    CongruentBy(2 * m, x, r, q);
    CongruentMod(2 * m, x);
    CongruentTrans(2 * m, x % (2 * m), x, r);
    CongruentEqual(2 * m, x % (2 * m), r);
  }

  /** A power of two divides an or exactly when it divides both sides. */
  lemma {:induction false} OrDivisible(x: nat, y: nat, k: nat)
    ensures Or(x, y) % Pow2(k) == 0 <==> x % Pow2(k) == 0 && y % Pow2(k) == 0
  {
    if k == 0 {
      assert Or(x, y) % 1 == 0 && x % 1 == 0 && y % 1 == 0;
    } else if x > 0 && y > 0 {
      OrDivisible(x / 2, y / 2, k - 1);
      HalfMod(x, Pow2(k - 1));
      HalfMod(y, Pow2(k - 1));
      HalfMod(Or(x, y), Pow2(k - 1));
    } else {
      ZeroMod(Pow2(k));
    }
  }

  lemma {:induction false} ZeroMod(m: int)
    requires m > 0
    ensures 0 % m == 0
  {
  }

  // ----- the lowest set bit -----

  /** What `Modulo ^ (Modulo & (Modulo - 1))` computes. */
  function LowestBit(x: nat): nat
    requires x > 0
  {
    Xor(x, And(x, x - 1))
  }

  /** The position of the lowest set bit. */
  function TrailingZeros(x: nat): nat
    requires x > 0
  {
    if x % 2 == 1 then 0 else 1 + TrailingZeros(x / 2)
  }

  lemma {:induction false} XorSelf(x: nat)
    ensures Xor(x, x) == 0
  {
    if x > 0 {
      XorSelf(x / 2);
    }
  }

  lemma {:induction false} BitSquared(b: nat)
    requires b < 2
    ensures b * b == b
  {
    assert b == 0 || b == 1;
  }

  lemma {:induction false} AndSelf(x: nat)
    ensures And(x, x) == x
  {
    if x > 0 {
      BitSquared(x % 2);
      AndSelf(x / 2);
    }
  }

  lemma {:induction false} LowestBitIsPow2(x: nat)
    requires x > 0
    ensures LowestBit(x) == Pow2(TrailingZeros(x))
  {
    var y := And(x, x - 1);
    if x % 2 == 1 {
      AndSelf(x / 2);
      assert (x - 1) / 2 == x / 2 && (x - 1) % 2 == 0;
      assert x > 1 ==> y == 2 * And(x / 2, x / 2);
      XorSelf(x / 2);
    } else {
      LowestBitIsPow2(x / 2);
      assert (x - 1) / 2 == x / 2 - 1;
      assert y == 2 * And(x / 2, x / 2 - 1);
    }
  }

  lemma {:induction false} TrailingZerosDivide(x: nat)
    requires x > 0
    ensures x % Pow2(TrailingZeros(x)) == 0 && Pow2(TrailingZeros(x)) <= x
  {
    if x % 2 == 0 {
      TrailingZerosDivide(x / 2);
      HalfMod(x, Pow2(TrailingZeros(x / 2)));
    } else {
      assert x % 1 == 0;
    }
  }

  lemma {:induction false} OrBelow(x: nat, y: nat, k: nat)
    requires x < Pow2(k) && y < Pow2(k)
    ensures y <= Or(x, y) < Pow2(k)
  {
    if x > 0 && y > 0 {
      OrBelow(x / 2, y / 2, k - 1);
    }
  }

  lemma {:induction false} OrWord(x: nat, y: nat)
    requires x < WORD && y < WORD
    ensures y <= Or(x, y) < WORD
  {
    WordIsPow2();
    var k: nat := 64;
    OrBelow(x, y, k);
  }

  /** The bit above the lowest one set does not divide. */
  lemma {:induction false} TrailingZerosAll(x: nat)
    requires x > 0
    ensures x % Pow2(TrailingZeros(x) + 1) != 0
  {
    HalfMod(x, Pow2(TrailingZeros(x)));
    if x % 2 == 0 {
      TrailingZerosAll(x / 2);
    }
  }

  lemma {:induction false} TrailingZerosBound(x: nat, k: nat)
    requires 0 < x < Pow2(k)
    ensures TrailingZeros(x) < k
  {
    if x % 2 == 0 {
      TrailingZerosBound(x / 2, k - 1);
    }
  }

  lemma {:induction false} NextInverse(a: int, b: int, c: int, h: int) returns (b': int, d: int)
    requires a % 2 == 1 && a * b - 1 == c * h
    ensures a * b' - 1 == d * (2 * h)
  {
    if c % 2 == 0 {
      b', d := b, c / 2;
      assert d * 2 == c;
      Associate(d, 2, h);
    } else {
      b', d := b + h, (c + a) / 2;
      assert d * 2 == c + a;
      Associate(d, 2, h);
      Distribute(c, a, h);
      Distribute(b, h, a);
    }
  }

  /** An odd number has an inverse modulo every power of two. */
  lemma {:induction false} OddInverse(a: int, k: nat) returns (b: int)
    requires a % 2 == 1
    ensures Congruent(Pow2(k), a * b, 1)
  {
    if k == 0 {
      b := 0;
      CongruentBy(1, a * b, 1, -1);
    } else {
      b := OddInverse(a, k - 1);
      var c := Factor(Pow2(k - 1), a * b, 1);
      var d;
      b, d := NextInverse(a, b, c, Pow2(k - 1));
      CongruentBy(Pow2(k), a * b, 1, d);
    }
  }
}
