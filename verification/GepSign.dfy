/** The test that relies on the sign of every variable, and when its answer is right. */
module GepSign {
  import opened Words
  import opened GepDecomposition
  import opened GepDifference
  import opened GepModular

  datatype Sign = Zero | One | Unclear

  /** ComputeSignBit. */
  type KnownSign = Expr -> Sign

  ghost predicate SignRight(sign: KnownSign, w: nat) {
    forall e, env :: (sign(e).Zero? ==> Eval(e, w, env) < HALF_WORD) && (sign(e).One? ==> HALF_WORD <= Eval(e, w, env))
  }

  predicate Positive(x: VariableGEPIndex, sign: KnownSign) {
    (sign(x.v).Zero? && x.scale >= 0) || (sign(x.v).One? && x.scale < 0)
  }

  /** The signed words that a known sign leaves. */
  predicate HasSign(sign: Sign, y: int) {
    -HALF_WORD <= y < HALF_WORD && (sign.Zero? ==> y >= 0) && (sign.One? ==> y < 0)
  }

  /** A term is taken for positive exactly if nothing that is known of its variable lets
      it be negative. */
  lemma {:induction false} PositiveExactly(x: VariableGEPIndex, sign: KnownSign)
    requires x.scale != 0
    ensures Positive(x, sign) <==> forall y :: HasSign(sign(x.v), y) ==> x.scale * y >= 0
  {
    if Positive(x, sign) {
      forall y | HasSign(sign(x.v), y)
        ensures x.scale * y >= 0
      {
        if x.scale >= 0 {
          ProductAtLeastZero(x.scale, y);
        } else {
          ProductAtLeastZero(-x.scale, -y);
          assert (-x.scale) * (-y) == x.scale * y;
        }
      }
    } else {
      var y := if x.scale > 0 then -1 else 1;
      assert HasSign(sign(x.v), y) && x.scale * y < 0;
    }
  }

  predicate AllPositive(vars: Variables, sign: KnownSign) {
    forall i :: 0 <= i < |vars| ==> Positive(vars[i], sign)
  }

  /** The test: the second access fits before the first, which is no lower than its
      constant offset. */
  predicate PositiveTest(offs: int, vars: Variables, size2: nat, sign: KnownSign) {
    vars != [] && AllPositive(vars, sign) && offs > 0 && size2 <= offs
  }

  /** The variables' part with the values read as signed numbers. */
  function SignedSum(vars: Variables, w: nat, env: Valuation): int {
    if vars == [] then 0
    else SignedSum(vars[..|vars| - 1], w, env) + vars[|vars| - 1].scale * Wrap64(Eval(vars[|vars| - 1].v, w, env))
  }

  lemma {:induction false} SignedSumCongruent(vars: Variables, w: nat, env: Valuation)
    ensures Congruent(WORD, Sum(vars, w, env), SignedSum(vars, w, env))
    decreases |vars|
  {
    if vars != [] {
      var n := |vars| - 1;
      var x := Eval(vars[n].v, w, env);
      SignedSumCongruent(vars[..n], w, env);
      Wrap64Congruent(x);
      CongruentBy(WORD, vars[n].scale, vars[n].scale, 0);
      CongruentMul(WORD, vars[n].scale, vars[n].scale, x, Wrap64(x));
      CongruentAdd(WORD, Sum(vars[..n], w, env), SignedSum(vars[..n], w, env), vars[n].scale * x,
                   vars[n].scale * Wrap64(x));
    }
  }

  lemma {:induction false} SignedSumPositive(vars: Variables, w: nat, sign: KnownSign, env: Valuation)
    requires Pow2(w) == WORD && SignRight(sign, w) && AllPositive(vars, sign)
    ensures SignedSum(vars, w, env) >= 0
    decreases |vars|
  {
    if vars != [] {
      var n := |vars| - 1;
      var s, x := vars[n].scale, Eval(vars[n].v, w, env);
      SignedSumPositive(vars[..n], w, sign, env);
      assert Positive(vars[n], sign);
      if s >= 0 {
        ProductAtLeastZero(s, Wrap64(x));
      } else {
        ProductAtLeastZero(-s, -Wrap64(x));
        assert (-s) * (-Wrap64(x)) == s * Wrap64(x);
      }
    }
  }

  /** In a run in which the first address is not a whole turn past the second access,
      the ranges are disjoint exactly when the first does not reach round. */
  lemma {:induction false} PositiveOffsetExact(w: nat, offs: int, vars: Variables, size1: nat, size2: nat,
                                               sign: KnownSign, env: Valuation)
    requires Pow2(w) == WORD && SignRight(sign, w) && PositiveTest(offs, vars, size2, sign)
    requires size1 > 0 && size2 > 0 && offs + SignedSum(vars, w, env) < WORD + size2
    ensures Disjoint(offs + Sum(vars, w, env), size1, size2) <==> offs + SignedSum(vars, w, env) + size1 <= WORD
  {
    var d, r := offs + Sum(vars, w, env), offs + SignedSum(vars, w, env);
    SignedSumCongruent(vars, w, env);
    SignedSumPositive(vars, w, sign, env);
    CongruentBy(WORD, offs, offs, 0);
    CongruentAdd(WORD, offs, offs, Sum(vars, w, env), SignedSum(vars, w, env));
    DisjointShift(d, r, size1, size2);
    DisjointExactly(r, size1, size2);
  }

  // ----- what the sign test leaves out -----

  /** The most that the variables' part can be. */
  function MaxSum(vars: Variables): int {
    if vars == [] then 0
    else MaxSum(vars[..|vars| - 1]) + MaxTerm(vars[|vars| - 1].scale)
  }

  function MaxTerm(scale: int): (r: nat) {
    if scale >= 0 then ProductAtLeastZero(scale, HALF_WORD - 1); scale * (HALF_WORD - 1)
    else -scale * HALF_WORD
  }

  lemma {:induction false} TermBelow(scale: int, x: int)
    requires -HALF_WORD <= x < HALF_WORD
    ensures scale * x <= MaxTerm(scale)
  {
    if scale >= 0 {
      ProductAtLeastZero(scale, HALF_WORD - 1 - x);
      Distribute(HALF_WORD - 1, x, scale);
    } else {
      ProductAtLeastZero(-scale, HALF_WORD + x);
      assert -scale * (HALF_WORD + x) == -scale * HALF_WORD - scale * x;
    }
  }

  lemma {:induction false} SignedSumBelow(vars: Variables, w: nat, env: Valuation)
    ensures SignedSum(vars, w, env) <= MaxSum(vars)
    decreases |vars|
  {
    if vars != [] {
      var n := |vars| - 1;
      SignedSumBelow(vars[..n], w, env);
      TermBelow(vars[n].scale, Wrap64(Eval(vars[n].v, w, env)));
    }
  }

  /** The test is right where even the largest sum leaves room for the first access
      below the end of the address space. */
  lemma {:induction false} PositiveTestSound(w: nat, offs: int, vars: Variables, size1: nat, size2: nat,
                                             sign: KnownSign)
    requires Pow2(w) == WORD && SignRight(sign, w) && PositiveTest(offs, vars, size2, sign)
    requires size1 > 0 && size2 > 0 && offs + MaxSum(vars) + size1 <= WORD
    ensures AlwaysDisjoint(w, offs, vars, size1, size2)
  {
    forall env
      ensures Disjoint(offs + Sum(vars, w, env), size1, size2)
    {
      SignedSumBelow(vars, w, env);
      PositiveOffsetExact(w, offs, vars, size1, size2, sign, env);
    }
  }

  /** With even scales there is no such room, unless the lowest bit has told the
      ranges apart already: what the sign test adds is then always wrong. */
  lemma {:induction false} EvenScalesAddNothing(w: nat, offs: int, vars: Variables, size1: nat, size2: nat,
                                                sign: KnownSign)
    requires Pow2(w) == WORD && SignRight(sign, w) && PositiveTest(offs, vars, size2, sign)
    requires SignedWords(vars) && NoZeroScale(vars) && Independent(vars) && LowestBit(OrScales(vars)) > 1
    requires size1 > 0 && size2 > 0 && !ModularTest(offs, OrScales(vars), size1, size2)
    ensures !AlwaysDisjoint(w, offs, vars, size1, size2) && offs + MaxSum(vars) + size1 > WORD
  {
    ModularTestExact(w, offs, vars, size1, size2);
    if offs + MaxSum(vars) + size1 <= WORD {
      PositiveTestSound(w, offs, vars, size1, size2, sign);
    }
  }

  /** Variables known not to be negative, with scales that are not either and do not
      step over a window of `window` bytes. */
  ghost predicate SmallSteps(vars: Variables, window: nat) {
    forall i :: 0 <= i < |vars| ==> IsMasked(vars[i].v) && 0 < vars[i].scale <= window
  }

  /** All variables as large as can be. */
  function Largest(): Valuation {
    id => HALF_WORD - 1
  }

  function Update(env: Valuation, id: nat, x: int): Valuation {
    (v: nat) => if v == id then x else env(v)
  }

  lemma {:induction false} LargestSum(vars: Variables, w: nat, window: nat)
    requires Pow2(w) == WORD && SmallSteps(vars, window)
    ensures Sum(vars, w, Largest()) == MaxSum(vars)
    decreases |vars|
  {
    if vars != [] {
      var n := |vars| - 1;
      LargestSum(vars[..n], w, window);
      EvalCut(vars[n].v, w, Largest());
      OwnResidue(HALF_WORD, HALF_WORD - 1);
    }
  }

  lemma {:induction false} SumUpdated(vars: Variables, w: nat, env: Valuation, id: nat, x: int)
    requires Pow2(w) == WORD && Independent(vars) && forall i :: 0 <= i < |vars| ==> IdOf(vars[i].v) != id
    ensures Sum(vars, w, Update(env, id, x)) == Sum(vars, w, env)
    decreases |vars|
  {
    if vars != [] {
      var n := |vars| - 1;
      SumUpdated(vars[..n], w, env, id, x);
      EvalCut(vars[n].v, w, Update(env, id, x));
      EvalCut(vars[n].v, w, env);
    }
  }

  /** How many steps of `s` it takes to get from `low` to `y`, or just past it. */
  lemma {:induction false} StepsTo(low: int, s: int, y: int) returns (x: nat)
    requires s > 0 && low < y <= low + s * (HALF_WORD - 1)
    ensures x < HALF_WORD && y <= low + s * x < y + s
  {
    x := (y - low + s - 1) / s;
    var r := (y - low + s - 1) % s;
    assert y - low + s - 1 == s * x + r;
    if x >= HALF_WORD {
      ProductAtLeastZero(s, x - HALF_WORD);
      Distribute(x, HALF_WORD, s);
    }
  }

  /** Some sum falls into any window between zero and the largest. */
  lemma {:induction false} ReachWindow(vars: Variables, w: nat, window: nat, y: int) returns (env: Valuation)
    requires Pow2(w) == WORD && Independent(vars) && SmallSteps(vars, window) && window > 0
    requires 0 <= y <= MaxSum(vars)
    ensures y <= Sum(vars, w, env) < y + window
    decreases |vars|
  {
    if vars == [] {
      env := Largest();
    } else {
      var n := |vars| - 1;
      var init, last := vars[..n], vars[n];
      var id, rest, x: nat := IdOf(last.v), Largest(), 0;
      if y <= MaxSum(init) {
        rest := ReachWindow(init, w, window, y);
      } else {
        LargestSum(init, w, window);
        x := StepsTo(MaxSum(init), last.scale, y);
      }
      env := Update(rest, id, x);
      SumUpdated(init, w, rest, id, x);
      EvalCut(last.v, w, env);
      OwnResidue(HALF_WORD, x);
    }
  }

  /** An address in the window around the end of the address space. */
  lemma {:induction false} MeetsAround(d: int, size1: nat, size2: nat)
    requires 0 < size1 <= WORD && 0 < size2 <= WORD && WORD - size1 < d < WORD + size2
    ensures !Disjoint(d, size1, size2)
  {
    DisjointExactly(d, size1, size2);
    if d >= WORD {
      DivisionUnique(d, WORD, 1, d - WORD);
    } else {
      OwnResidue(WORD, d);
    }
  }

  /** For independent variables known not to be negative, and scales below the size of
      both accesses together, the answer is right exactly when there is that room. */
  lemma {:induction false} PositiveTestExact(w: nat, offs: int, vars: Variables, size1: nat, size2: nat,
                                             sign: KnownSign)
    requires Pow2(w) == WORD && SignRight(sign, w) && PositiveTest(offs, vars, size2, sign) && offs < HALF_WORD
    requires 0 < size1 < WORD && 0 < size2 && Independent(vars) && SmallSteps(vars, size1 + size2 - 1)
    ensures AlwaysDisjoint(w, offs, vars, size1, size2) <==> offs + MaxSum(vars) + size1 <= WORD
  {
    if offs + MaxSum(vars) + size1 <= WORD {
      PositiveTestSound(w, offs, vars, size1, size2, sign);
    } else {
      var y := WORD - size1 + 1 - offs;
      if y >= 0 {
        var env := ReachWindow(vars, w, size1 + size2 - 1, y);
        MeetsAround(offs + Sum(vars, w, env), size1, size2);
      } else {
        var env := Only(0, 0);
        AllZero(vars, w);
        MeetsAround(offs + Sum(vars, w, env), size1, size2);
      }
    }
  }

  lemma {:induction false} AllZero(vars: Variables, w: nat)
    requires Pow2(w) == WORD && Independent(vars)
    ensures Sum(vars, w, Only(0, 0)) == 0
    decreases |vars|
  {
    if vars != [] {
      AllZero(vars[..|vars| - 1], w);
      EvalCut(vars[|vars| - 1].v, w, Only(0, 0));
    }
  }
}
