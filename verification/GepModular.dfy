/** The test that looks at the lowest bit set in any scale, which fixes the difference
    of two addresses modulo a power of two. */
module GepModular {
  import opened Words
  import opened GepDecomposition
  import opened GepDifference

  // ----- the lowest bit set in any scale -----

  ghost predicate DividesAll(m: int, vars: Variables)
    requires m > 0
  {
    forall i :: 0 <= i < |vars| ==> Congruent(m, vars[i].scale, 0)
  }

  /** The powers of two that divide `modulo` are those that divide every scale. */
  ghost predicate Gathers(modulo: nat, vars: Variables) {
    forall k: nat {:trigger Pow2(k)} :: k <= 64 ==> (modulo % Pow2(k) == 0 <==> DividesAll(Pow2(k), vars))
  }

  lemma {:induction false} ScaleWord(scale: int, k: nat)
    requires k <= 64
    ensures (scale % WORD) % Pow2(k) == 0 <==> Congruent(Pow2(k), scale, 0)
  {
    var m, q := Pow2(k), Pow2(64 - k);
    Pow2Add(64 - k, k);
    WordIsPow2();
    assert q * m == WORD;
    CongruentMod(WORD, scale);
    CongruentDivisor(WORD, m, q, scale, scale % WORD);
    ResidueZero(m, scale, scale % WORD);
  }

  lemma {:induction false} ResidueZero(m: int, a: int, b: int)
    requires m > 0 && Congruent(m, a, b)
    ensures b % m == 0 <==> Congruent(m, a, 0)
  {
    if b % m == 0 {
      CongruentTrans(m, a, b, 0);
    }
    if Congruent(m, a, 0) {
      CongruentSym(m, a, b);
      CongruentTrans(m, b, a, 0);
    }
  }

  lemma {:induction false} GathersOne(modulo: nat, vars: Variables, x: VariableGEPIndex)
    requires Gathers(modulo, vars) && modulo < WORD
    ensures Gathers(Words.Or(modulo, x.scale % WORD), vars + [x])
  {
    var more := vars + [x];
    forall k: nat {:trigger Pow2(k)} | k <= 64
      ensures Words.Or(modulo, x.scale % WORD) % Pow2(k) == 0 <==> DividesAll(Pow2(k), more)
    {
      OrDivisible(modulo, x.scale % WORD, k);
      ScaleWord(x.scale, k);
      assert more[|vars|] == x && forall i :: 0 <= i < |vars| ==> more[i] == vars[i];
    }
  }

  /** All scales or'ed together. */
  function OrScales(vars: Variables): (r: nat)
    ensures r < WORD && (vars != [] && SignedWords(vars) && NoZeroScale(vars) ==> r > 0)
  {
    if vars == [] then 0
    else
      var modulo, scale := OrScales(vars[..|vars| - 1]), vars[|vars| - 1].scale % WORD;
      OrWord(modulo, scale);
      Words.Or(modulo, scale)
  }

  lemma {:induction false} OrScalesGathers(vars: Variables)
    ensures Gathers(OrScales(vars), vars)
    decreases |vars|
  {
    if vars == [] {
      GathersNone();
    } else {
      var init, last := vars[..|vars| - 1], vars[|vars| - 1];
      OrScalesGathers(init);
      GathersOne(OrScales(init), init, last);
      assert init + [last] == vars;
    }
  }

  lemma {:induction false} GathersNone()
    ensures Gathers(0, [])
  {
    forall k: nat {:trigger Pow2(k)} | k <= 64
      ensures 0 % Pow2(k) == 0
    {
      ZeroMod(Pow2(k));
    }
  }

  lemma {:induction false} SumMultiple(m: int, vars: Variables, w: nat, env: Valuation)
    requires m > 0 && DividesAll(m, vars)
    ensures Congruent(m, Sum(vars, w, env), 0)
    decreases |vars|
  {
    if vars != [] {
      var n := |vars| - 1;
      var x := Eval(vars[n].v, w, env);
      SumMultiple(m, vars[..n], w, env);
      CongruentBy(m, x, x, 0);
      CongruentMul(m, vars[n].scale, 0, x, x);
      CongruentAdd(m, Sum(vars[..n], w, env), 0, vars[n].scale * x, 0);
    } else {
      CongruentBy(m, 0, 0, 0);
    }
  }

  /** Knowing the difference modulo `m`, the ranges are apart where they are apart
      in every stretch of `m` bytes. */
  lemma {:induction false} ModularDisjoint(m: int, q: int, d: int, r: int, size1: nat, size2: nat)
    requires m > 0 && q * m == WORD && Congruent(m, d, r) && size2 <= r && size1 <= m - r
    ensures Disjoint(d, size1, size2)
  {
    forall i: nat, j: nat | i < size1 && j < size2
      ensures !SameByte(d, i, j)
    {
      if SameByte(d, i, j) {
        CongruentDivisor(WORD, m, q, d + i, j);
        CongruentSym(m, d, r);
        CongruentBy(m, i, i, 0);
        CongruentAdd(m, r, d, i, i);
        CongruentTrans(m, r + i, d + i, j);
        CongruentEqual(m, r + i, j);
      }
    }
  }

  // ----- the modular test is exact -----

  /** The difference modulo the lowest bit set in any scale: what
      `GEP1BaseOffset & (Modulo - 1)` computes. */
  function ModOffset(offs: int, modulo: nat): nat
    requires modulo > 0
  {
    var m := LowestBit(modulo);
    if m == 0 then 0 else Words.And(offs % WORD, m - 1)
  }

  predicate ModularTest(offs: int, modulo: nat, size1: nat, size2: nat)
    requires modulo > 0
  {
    ModOffset(offs, modulo) >= size2 && size1 <= LowestBit(modulo) - ModOffset(offs, modulo)
  }

  /** The lowest bit: a power of two that divides 2^64. */
  lemma {:induction false} LowestBitWord(modulo: nat) returns (t: nat, q: int)
    requires 0 < modulo < WORD
    ensures t < 64 && LowestBit(modulo) == Pow2(t) && q > 0 && q * Pow2(t) == WORD
    ensures modulo % Pow2(t) == 0 && modulo % Pow2(t + 1) != 0
  {
    t := TrailingZeros(modulo);
    LowestBitIsPow2(modulo);
    TrailingZerosDivide(modulo);
    TrailingZerosAll(modulo);
    WordIsPow2();
    var k: nat := 64;
    TrailingZerosBound(modulo, k);
    Pow2Add(64 - t, t);
    q := Pow2(64 - t);
  }

  lemma {:induction false} ModOffsetCongruent(offs: int, modulo: nat, t: nat, q: int)
    requires modulo > 0 && LowestBit(modulo) == Pow2(t) && q * Pow2(t) == WORD
    ensures Congruent(Pow2(t), offs, ModOffset(offs, modulo)) && 0 <= ModOffset(offs, modulo) < Pow2(t)
  {
    var m := Pow2(t);
    MaskIsMod(offs % WORD, t);
    CongruentMod(WORD, offs);
    CongruentDivisor(WORD, m, q, offs, offs % WORD);
    CongruentMod(m, offs % WORD);
    CongruentTrans(m, offs, offs % WORD, (offs % WORD) % m);
  }

  lemma {:induction false} ModularTestSound(w: nat, offs: int, vars: Variables, modulo: nat, size1: nat, size2: nat,
                                            env: Valuation)
    requires 0 < modulo < WORD && Gathers(modulo, vars) && ModularTest(offs, modulo, size1, size2)
    ensures Disjoint(offs + Sum(vars, w, env), size1, size2)
  {
    var t, q := LowestBitWord(modulo);
    var m := Pow2(t);
    ModOffsetCongruent(offs, modulo, t, q);
    SumMultiple(m, vars, w, env);
    CongruentAdd(m, offs, ModOffset(offs, modulo), Sum(vars, w, env), 0);
    ModularDisjoint(m, q, offs + Sum(vars, w, env), ModOffset(offs, modulo), size1, size2);
  }

  /** Some scale is an odd multiple of the lowest bit. */
  lemma {:induction false} OddScale(modulo: nat, vars: Variables, t: nat) returns (i: nat, a: int)
    requires Gathers(modulo, vars) && t < 64 && modulo % Pow2(t) == 0 && modulo % Pow2(t + 1) != 0
    ensures i < |vars| && vars[i].scale == a * Pow2(t) && a % 2 == 1
  {
    var m, m2 := Pow2(t), Pow2(t + 1);
    assert !DividesAll(m2, vars);
    var j :| 0 <= j < |vars| && !Congruent(m2, vars[j].scale, 0);
    assert DividesAll(m, vars);
    i := j;
    a := Factor(m, vars[i].scale, 0);
    if a % 2 == 0 {
      assert a == (a / 2) * 2;
      Associate(a / 2, 2, m);
      CongruentBy(m2, vars[i].scale, 0, a / 2);
    }
  }

  /** An odd multiple of `m` reaches every multiple of `m` modulo 2^64. */
  lemma {:induction false} Reaches(m: int, a: int, y: int) returns (x: nat)
    requires a % 2 == 1
    ensures x < WORD && Congruent(WORD, (a * m) * x, y * m)
  {
    WordIsPow2();
    var k: nat := 64;
    var b := OddInverse(a, k);
    x := (y * b) % WORD;
    var s := y * m;
    CongruentMod(WORD, y * b);
    CongruentBy(WORD, a * m, a * m, 0);
    CongruentMul(WORD, a * m, a * m, x, y * b);
    CongruentBy(WORD, s, s, 0);
    CongruentMul(WORD, s, s, a * b, 1);
    Reordered(a, m, y, b);
    CongruentTrans(WORD, (a * m) * x, (a * m) * (y * b), s);
  }

  lemma {:induction false} Reordered(a: int, m: int, y: int, b: int)
    ensures (a * m) * (y * b) == (y * m) * (a * b)
  {
    Associate(a, m, y * b);
    Associate(m, y, b);
    Associate(y, m, a * b);
    Associate(m, a, b);
    assert a * (m * (y * b)) == y * (m * (a * b)) by {
      assert m * (y * b) == (m * b) * y;
      assert m * (a * b) == (m * b) * a;
      Associate(m * b, y, a);
      Associate(m * b, a, y);
    }
  }

  /** A variable whose sign bit is masked off, so that it is known to be zero. */
  function Masked(id: nat): Expr {
    Bin(And, Var(id), Const(HALF_WORD - 1))
  }

  predicate IsMasked(v: Expr) {
    v.Bin? && v.lhs.Var? && v == Masked(v.lhs.id)
  }

  /** Every index is a variable, masked or not, and no two are of the same one. */
  ghost predicate Independent(vars: Variables) {
    (forall i :: 0 <= i < |vars| ==> vars[i].v.Var? || IsMasked(vars[i].v)) && DifferentIds(vars)
  }

  function IdOf(v: Expr): nat {
    if v.Var? then v.id else if v.Bin? && v.lhs.Var? then v.lhs.id else 0
  }

  ghost predicate DifferentIds(vars: Variables) {
    forall i, j :: 0 <= i < j < |vars| ==> IdOf(vars[i].v) != IdOf(vars[j].v)
  }

  ghost predicate NoneMasked(vars: Variables) {
    forall i :: 0 <= i < |vars| ==> vars[i].v.Var?
  }

  /** What a variable's value reads as, masked or not. */
  function Cut(v: Expr, x: int): nat {
    if v.Var? then x % WORD else x % HALF_WORD
  }

  lemma {:induction false} ResidueOfResidue(x: int, m: int, q: int, word: int)
    requires m > 0 && word > 0 && word == q * m
    ensures (x % word) % m == x % m
  {
    CongruentMod(word, x);
    CongruentDivisor(word, m, q, x % word, x);
    CongruentMod(m, x);
    CongruentMod(m, x % word);
    CongruentTrans(m, (x % word) % m, x % word, x);
    CongruentTrans(m, (x % word) % m, x, x % m);
    CongruentEqual(m, (x % word) % m, x % m);
  }

  lemma {:induction false} MaskedValue(x: int, mask: nat, k: nat)
    requires Pow2(k) == mask + 1 && 2 * (mask + 1) == WORD
    ensures Words.And(x % WORD, mask) == x % (mask + 1)
  {
    MaskIsMod(x % WORD, k);
    ResidueOfResidue(x, mask + 1, 2, WORD);
  }

  lemma {:induction false} EvalMasked(id: nat, mask: nat, w: nat, env: Valuation)
    requires Pow2(w) == WORD && mask == HALF_WORD - 1
    ensures Eval(Bin(And, Var(id), Const(mask)), w, env) == env(id) % HALF_WORD
  {
    var k: nat := 63;
    WordIsPow2();
    MaskedValue(env(id), mask, k);
    OwnResidue(WORD, mask);
    OwnResidue(WORD, env(id) % HALF_WORD);
  }

  lemma {:induction false} EvalCut(v: Expr, w: nat, env: Valuation)
    requires Pow2(w) == WORD && (v.Var? || IsMasked(v))
    ensures Eval(v, w, env) == Cut(v, env(IdOf(v)))
  {
    if !v.Var? {
      EvalMasked(v.lhs.id, HALF_WORD - 1, w, env);
    }
  }

  /** The valuation that is zero everywhere but at `id`. */
  function Only(id: nat, x: int): Valuation {
    v => if v == id then x else 0
  }

  lemma {:induction false} SumOthers(vars: Variables, w: nat, id: nat, x: int)
    requires Pow2(w) == WORD && Independent(vars) && forall i :: 0 <= i < |vars| ==> IdOf(vars[i].v) != id
    ensures Sum(vars, w, Only(id, x)) == 0
    decreases |vars|
  {
    if vars != [] {
      var n := |vars| - 1;
      SumOthers(vars[..n], w, id, x);
      EvalCut(vars[n].v, w, Only(id, x));
    }
  }

  lemma {:induction false} SumOnly(vars: Variables, i: nat, w: nat, x: int)
    requires Pow2(w) == WORD && Independent(vars) && i < |vars|
    ensures Sum(vars, w, Only(IdOf(vars[i].v), x)) == vars[i].scale * Cut(vars[i].v, x)
    decreases |vars|
  {
    hide Cut;
    var n, id := |vars| - 1, IdOf(vars[i].v);
    EvalCut(vars[n].v, w, Only(id, x));
    if i == n {
      SumOthers(vars[..n], w, id, x);
    } else {
      SumOnly(vars[..n], i, w, x);
    }
  }

  lemma {:induction false} Differ(s: int, x: int, y: int, c: int)
    requires x == 0 && y == s && Congruent(WORD, x, c) && Congruent(WORD, y, c)
    requires -HALF_WORD <= s < HALF_WORD
    ensures s == 0
  {
  }

  /** A sum of scaled variables that are independent is constant only if there is none. */
  lemma {:induction false} NothingVaries(vars: Variables, w: nat, c: int)
    requires Pow2(w) == WORD && Independent(vars) && SignedWords(vars) && NoZeroScale(vars)
    requires forall env :: Congruent(WORD, Sum(vars, w, env), c)
    ensures vars == []
  {
    if vars != [] {
      var id, s := IdOf(vars[0].v), vars[0].scale;
      SumOnly(vars, 0, w, 0);
      SumOnly(vars, 0, w, 1);
      assert Congruent(WORD, Sum(vars, w, Only(id, 0)), c) && Congruent(WORD, Sum(vars, w, Only(id, 1)), c);
      Differ(s, Sum(vars, w, Only(id, 0)), Sum(vars, w, Only(id, 1)), c);
    }
  }

  /** An even scale does not see the sign bit. */
  lemma {:induction false} ScaledCut(v: Expr, s: int, x: int)
    requires 0 <= x < WORD && (v.Var? || s % 2 == 0)
    ensures Congruent(WORD, s * Cut(v, x), s * x)
  {
    if v.Var? || x < HALF_WORD {
      CongruentBy(WORD, s * x, s * x, 0);
    } else {
      DivisionUnique(x, HALF_WORD, 1, x - HALF_WORD);
      Distribute(x - HALF_WORD, x, s);
      assert s * HALF_WORD == (s / 2) * WORD;
      CongruentBy(WORD, s * Cut(v, x), s * x, -(s / 2));
    }
  }

  /** The scales are even, or no variable is masked: the lowest bit says all there is
      to know. */
  ghost predicate LowestBitDecides(vars: Variables, modulo: nat)
    requires modulo > 0
  {
    Independent(vars) && (NoneMasked(vars) || LowestBit(modulo) > 1)
  }

  lemma {:induction false} EvenMultiple(a: int, t: nat)
    requires Pow2(t) > 1
    ensures (a * Pow2(t)) % 2 == 0
  {
    assert a * Pow2(t) == (a * Pow2(t - 1)) * 2;
  }

  /** With independent variables, every address that is right modulo the lowest bit
      is taken by some valuation. */
  lemma {:induction false} Attained(w: nat, offs: int, vars: Variables, modulo: nat, r: int) returns (env: Valuation)
    requires Pow2(w) == WORD && 0 < modulo < WORD && Gathers(modulo, vars) && LowestBitDecides(vars, modulo)
    requires LowestBit(modulo) > 0 && Congruent(LowestBit(modulo), r, offs)
    ensures Congruent(WORD, offs + Sum(vars, w, env), r)
  {
    var t, q := LowestBitWord(modulo);
    var i, a := OddScale(modulo, vars, t);
    var y := Factor(Pow2(t), r, offs);
    var x := Reaches(Pow2(t), a, y);
    env := Only(IdOf(vars[i].v), x);
    SumOnly(vars, i, w, x);
    if !vars[i].v.Var? {
      EvenMultiple(a, t);
    }
    ScaledCut(vars[i].v, vars[i].scale, x);
    CongruentTrans(WORD, Sum(vars, w, env), vars[i].scale * x, y * Pow2(t));
    Shifted(Sum(vars, w, env), y * Pow2(t), offs, r);
  }

  /** An address right modulo the lowest bit at which the ranges meet, if the test
      fails. */
  lemma {:induction false} Meeting(offs: int, modulo: nat, size1: nat, size2: nat) returns (r: int)
    requires 0 < modulo < WORD && size1 > 0 && size2 > 0 && !ModularTest(offs, modulo, size1, size2)
    ensures LowestBit(modulo) > 0 && Congruent(LowestBit(modulo), r, offs)
    ensures 0 <= r < WORD && !(size2 <= r <= WORD - size1)
  {
    var t, q := LowestBitWord(modulo);
    var m, s := Pow2(t), ModOffset(offs, modulo);
    ModOffsetCongruent(offs, modulo, t, q);
    CongruentSym(m, offs, s);
    TopStretch(m, q);
    if s < size2 {
      r := s;
    } else {
      r := WORD - m + s;
      Distribute(q, 1, m);
      CongruentBy(m, r, s, q - 1);
      CongruentTrans(m, r, s, offs);
    }
  }

  lemma {:induction false} TopStretch(m: int, q: int)
    requires m > 0 && q > 0 && q * m == WORD
    ensures m <= WORD
  {
    MultipleAtLeast(m, q);
  }

  lemma {:induction false} ModularTestComplete(w: nat, offs: int, vars: Variables, size1: nat, size2: nat)
    returns (env: Valuation)
    requires Pow2(w) == WORD && vars != [] && SignedWords(vars) && NoZeroScale(vars)
    requires LowestBitDecides(vars, OrScales(vars))
    requires size1 > 0 && size2 > 0 && !ModularTest(offs, OrScales(vars), size1, size2)
    ensures !Disjoint(offs + Sum(vars, w, env), size1, size2)
  {
    OrScalesGathers(vars);
    var r := Meeting(offs, OrScales(vars), size1, size2);
    env := Attained(w, offs, vars, OrScales(vars), r);
    DisjointResidue(offs + Sum(vars, w, env), r, size1, size2);
  }

  /** For independent variables the lowest-set-bit test succeeds exactly when the
      ranges are disjoint under every valuation. */
  lemma {:induction false} ModularTestExact(w: nat, offs: int, vars: Variables, size1: nat, size2: nat)
    requires Pow2(w) == WORD && vars != [] && SignedWords(vars) && NoZeroScale(vars)
    requires LowestBitDecides(vars, OrScales(vars)) && size1 > 0 && size2 > 0
    ensures ModularTest(offs, OrScales(vars), size1, size2) <==> AlwaysDisjoint(w, offs, vars, size1, size2)
  {
    if ModularTest(offs, OrScales(vars), size1, size2) {
      OrScalesGathers(vars);
      forall env
        ensures Disjoint(offs + Sum(vars, w, env), size1, size2)
      {
        ModularTestSound(w, offs, vars, OrScales(vars), size1, size2, env);
      }
    } else {
      var env := ModularTestComplete(w, offs, vars, size1, size2);
    }
  }
}
