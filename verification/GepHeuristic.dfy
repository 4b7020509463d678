/** Two indices that differ by a constant: the gap that the constant keeps between the
    accesses, at any width of the indices. */
module GepHeuristic {
  import opened Words
  import opened GepDecomposition
  import opened GepDifference

  // ----- gaps -----

  function Abs(x: int): nat {
    if x < 0 then -x else x
  }

  /** Both accesses fit in the gap of `distance` bytes on either side. */
  predicate FitsGap(offs: int, distance: int, size1: nat, size2: nat) {
    size1 + Abs(offs) <= Abs(distance) && size2 + Abs(offs) <= Abs(distance)
  }

  /** When both fit in the gap, they are disjoint exactly when the far side does
      not come round to them; at most half the address space is safe. */
  lemma {:induction false} GapExact(offs: int, distance: int, size1: nat, size2: nat)
    requires FitsGap(offs, distance, size1, size2) && Abs(distance) < WORD && size1 > 0 && size2 > 0
    ensures Disjoint(offs + distance, size1, size2) <==>
      if distance >= 0 then offs + distance + size1 <= WORD || WORD + size2 <= offs + distance
      else size2 - offs - distance <= WORD || WORD + size1 <= -offs - distance
  {
    DisjointExactly(offs + distance, size1, size2);
  }

  lemma {:induction false} GapOfHalf(offs: int, distance: int, size1: nat, size2: nat)
    requires FitsGap(offs, distance, size1, size2) && 2 * Abs(distance) <= WORD
    ensures Disjoint(offs + distance, size1, size2)
  {
    if size1 > 0 && size2 > 0 {
      GapExact(offs, distance, size1, size2);
    }
  }

  lemma {:induction false} ScaledBetween(s: int, least: int, x: int, m: int)
    requires s >= 0 && least <= x <= m - least
    ensures s * least <= s * x <= s * m - s * least
  {
    ProductAtLeastZero(s, x - least);
    ProductAtLeastZero(s, m - least - x);
    Distribute(x, least, s);
    Distribute(m, least, s);
    Distribute(m - least, x, s);
  }

  lemma {:induction false} AbsProduct(a: int, b: int)
    ensures Abs(a * b) == Abs(a) * Abs(b)
  {
    if a >= 0 {
      if b >= 0 { ProductAtLeastZero(a, b); } else { ProductAtLeastZero(a, -b); assert a * -b == -(a * b); }
    } else {
      assert -a * b == -(a * b);
      if b >= 0 { ProductAtLeastZero(-a, b); } else { ProductAtLeastZero(-a, -b); assert -a * -b == a * b; }
    }
  }

  lemma {:induction false} GapBetween(offs: int, distance: int, gap: int, size1: nat, size2: nat)
    requires gap <= Abs(distance) <= WORD - gap
    requires size1 + Abs(offs) <= gap && size2 + Abs(offs) <= gap
    ensures Disjoint(offs + distance, size1, size2)
  {
    if size1 > 0 && size2 > 0 {
      DisjointExactly(offs + distance, size1, size2);
    }
  }

  // ----- the least distance of two numbers of the same width -----

  /** The smaller way round from zero to `delta` on a circle of `m`. */
  function Least(m: int, delta: int): nat
    requires m > 0
  {
    var d := delta % m;
    if 2 * d <= m then d else m - d
  }

  /** The same, with its direction. */
  function Nearest(m: int, delta: int): int
    requires m > 0
  {
    var d := delta % m;
    if 2 * d <= m then d else d - m
  }

  lemma {:induction false} NearestIsLeast(m: int, delta: int)
    requires m > 0
    ensures Abs(Nearest(m, delta)) == Least(m, delta) && Congruent(m, Nearest(m, delta), delta)
    ensures 2 * Least(m, delta) <= m
  {
    CongruentMod(m, delta);
    if Nearest(m, delta) != delta % m {
      CongruentBy(m, Nearest(m, delta), delta % m, -1);
      CongruentTrans(m, Nearest(m, delta), delta % m, delta);
    }
  }

  /** The lesser of a residue and its negative. */
  lemma {:induction false} LesserResidue(m: int, delta: int)
    requires m > 0
    ensures var d := delta % m; (if d <= (-d) % m then d else (-d) % m) == Least(m, delta)
  {
    var d := delta % m;
    if d == 0 {
      ZeroMod(m);
    } else {
      DivisionUnique(-d, m, -1, m - d);
    }
  }

  // ----- the test -----

  const UNKNOWN_SIZE := WORD - 1

  /** The test, on 64-bit numbers. */
  predicate MeasuresGap(offs: int, bytes: nat, size1: nat, size2: nat) {
    (size1 + Abs(offs)) % WORD <= bytes % WORD && (size2 + Abs(offs)) % WORD <= bytes % WORD
  }

  /** None of the test's sums and products exceeds 64 bits. */
  predicate NoOverflow(offs: int, distance: int, size1: nat, size2: nat) {
    Abs(distance) < WORD && size1 + Abs(offs) < WORD && size2 + Abs(offs) < WORD
  }

  lemma {:induction false} GapMeasured(offs: int, distance: int, size1: nat, size2: nat)
    requires NoOverflow(offs, distance, size1, size2)
    ensures MeasuresGap(offs, Abs(distance), size1, size2) <==> FitsGap(offs, distance, size1, size2)
  {
    OwnResidue(WORD, size1 + Abs(offs));
    OwnResidue(WORD, size2 + Abs(offs));
    OwnResidue(WORD, Abs(distance));
  }

  /** The list is two indices with opposite scales that, as numbers of the given width,
      are the same line but for a constant. */
  predicate Parallel(vars: Variables, width: nat, known: KnownBits, same: SameValue) {
    |vars| == 2 && vars[0].scale == Wrap64(-vars[1].scale) &&
    var line0, line1 := Linearize(vars[0].v, width, known, 0), Linearize(vars[1].v, width, known, 0);
    line0.scale == line1.scale && same(line0.v, line1.v)
  }

  /** The constant that the first index is ahead of the second, modulo 2^width. */
  function Ahead(vars: Variables, width: nat, known: KnownBits): int
    requires |vars| == 2
  {
    Linearize(vars[0].v, width, known, 0).offset - Linearize(vars[1].v, width, known, 0).offset
  }

  /** How far apart the test takes the two variables' parts to be. */
  function Distance(vars: Variables, width: nat, known: KnownBits): int
    requires |vars| == 2
  {
    vars[0].scale * Nearest(Pow2(width), Ahead(vars, width, known))
  }

  predicate HeuristicHolds(vars: Variables, size1: nat, size2: nat, offs: int, width: nat, known: KnownBits,
                           same: SameValue) {
    size1 != UNKNOWN_SIZE && size2 != UNKNOWN_SIZE && Parallel(vars, width, known, same) &&
    MeasuresGap(offs, Abs(vars[0].scale) * Least(Pow2(width), Ahead(vars, width, known)), size1, size2)
  }

  lemma {:induction false} DistanceMeasured(vars: Variables, size1: nat, size2: nat, offs: int, width: nat,
                                            known: KnownBits, same: SameValue)
    requires HeuristicHolds(vars, size1, size2, offs, width, known, same)
    requires NoOverflow(offs, Distance(vars, width, known), size1, size2)
    ensures FitsGap(offs, Distance(vars, width, known), size1, size2)
  {
    GapOf(vars[0].scale, Pow2(width), Ahead(vars, width, known), size1, size2, offs);
  }

  /** Whether both accesses fit in the gap that two offsets of a width leave, the other
      way round included. */
  method MeasureGap(scale: int, m: nat, offset0: int, offset1: int, size1: nat, size2: nat, offs: int) returns (r: bool)
    requires m > 0
    ensures r <==> MeasuresGap(offs, Abs(scale) * Least(m, offset0 - offset1), size1, size2)
    ensures NoOverflow(offs, scale * Nearest(m, offset0 - offset1), size1, size2) ==>
            (r <==> FitsGap(offs, scale * Nearest(m, offset0 - offset1), size1, size2))
  {
    hide NoOverflow, FitsGap, Nearest, MeasuresGap;
    var minDiff: int := (offset0 - offset1) % m;
    var wrapped := (-minDiff) % m;
    LesserResidue(m, offset0 - offset1);
    minDiff := if minDiff <= wrapped then minDiff else wrapped;
    GapOf(scale, m, offset0 - offset1, size1, size2, offs);
    r := MeasuresGap(offs, Abs(scale) * minDiff, size1, size2);
  }

  lemma {:induction false} GapOf(scale: int, m: nat, ahead: int, size1: nat, size2: nat, offs: int)
    requires m > 0
    ensures NoOverflow(offs, scale * Nearest(m, ahead), size1, size2) ==>
            (MeasuresGap(offs, Abs(scale) * Least(m, ahead), size1, size2)
         <==> FitsGap(offs, scale * Nearest(m, ahead), size1, size2))
  {
    NearestIsLeast(m, ahead);
    AbsProduct(scale, Nearest(m, ahead));
    if NoOverflow(offs, scale * Nearest(m, ahead), size1, size2) {
      GapMeasured(offs, scale * Nearest(m, ahead), size1, size2);
    }
  }

  /** Gives up unless there are two indices and both sizes are known. */
  method ConstantOffsetHeuristic(vars: Variables, size1: nat, size2: nat, offs: int, width: nat, known: KnownBits,
                                 same: SameValue)
    returns (r: bool)
    requires width > 0 && KnownRight(known, width)
    ensures r <==> HeuristicHolds(vars, size1, size2, offs, width, known, same)
  {
    if |vars| != 2 || size1 == UNKNOWN_SIZE || size2 == UNKNOWN_SIZE {
      return false;
    }
    var var0, var1 := vars[0], vars[1];
    if var0.scale != Wrap64(-var1.scale) {
      return false;
    }
    var v0, scale0, offset0 := GetLinearExpression(var0.v, width, known, 0);
    var v1, scale1, offset1 := GetLinearExpression(var1.v, width, known, 0);
    if scale0 != scale1 || !same(v0, v1) {
      return false;
    }
    r := MeasureGap(var0.scale, Pow2(width), offset0, offset1, size1, size2, offs);
  }

  // ----- indices of the pointer's width -----

  /** The variables' part is `distance` under every valuation. */
  ghost predicate Constant(w: nat, vars: Variables, distance: int) {
    forall env :: Congruent(WORD, Sum(vars, w, env), distance)
  }

  lemma {:induction false} OppositeScales(s0: int, s1: int, x0: int, x1: int, near: int)
    requires s0 == Wrap64(-s1) && Congruent(WORD, x0 - x1, near)
    ensures Congruent(WORD, s0 * x0 + s1 * x1, s0 * near)
  {
    Wrap64Congruent(-s1);
    var k := Factor(WORD, s0, -s1);
    var l := Factor(WORD, x0 - x1, near);
    assert s1 == k * WORD - s0;
    Distribute(k * WORD, s0, x1);
    Distribute(x0, x1, s0);
    Distribute(x0 - x1, near, s0);
    Associate(k, WORD, x1);
    Associate(l, WORD, s0);
    CongruentBy(WORD, s0 * x0 + s1 * x1, s0 * near, l * s0 + k * x1);
  }

  lemma {:induction false} SameLine(m: int, x0: int, x1: int, line: int, o0: int, o1: int)
    requires m > 0 && Congruent(m, x0, line + o0) && Congruent(m, x1, line + o1)
    ensures Congruent(m, x0 - x1, o0 - o1)
  {
    CongruentAdd(m, x0, line + o0, x1, line + o1);
  }

  /** As numbers of their width the two indices are that constant apart. */
  lemma {:induction false} AheadRight(vars: Variables, width: nat, known: KnownBits, same: SameValue, env: Valuation)
    requires KnownRight(known, width) && SameRight(same) && Parallel(vars, width, known, same)
    ensures Congruent(Pow2(width), Eval(vars[0].v, width, env) as int - Eval(vars[1].v, width, env),
                      Nearest(Pow2(width), Ahead(vars, width, known)))
  {
    var m, x0: int, x1: int := Pow2(width), Eval(vars[0].v, width, env), Eval(vars[1].v, width, env);
    var line0, line1 := Linearize(vars[0].v, width, known, 0), Linearize(vars[1].v, width, known, 0);
    LinearizeRight(vars[0].v, width, known, 0);
    LinearizeRight(vars[1].v, width, known, 0);
    SameLine(m, x0, x1, line0.scale * Eval(line0.v, width, env), line0.offset, line1.offset);
    var ahead := Ahead(vars, width, known);
    NearestIsLeast(m, ahead);
    CongruentSym(m, Nearest(m, ahead), ahead);
    CongruentTrans(m, x0 - x1, ahead, Nearest(m, ahead));
  }

  lemma {:induction false} DistanceRight(vars: Variables, w: nat, known: KnownBits, same: SameValue)
    requires Pow2(w) == WORD && KnownRight(known, w) && SameRight(same) && Parallel(vars, w, known, same)
    ensures Constant(w, vars, Distance(vars, w, known))
  {
    forall env
      ensures Congruent(WORD, Sum(vars, w, env), Distance(vars, w, known))
    {
      var x0: int, x1: int := Eval(vars[0].v, w, env), Eval(vars[1].v, w, env);
      AheadRight(vars, w, known, same, env);
      OppositeScales(vars[0].scale, vars[1].scale, x0, x1, Nearest(WORD, Ahead(vars, w, known)));
      assert vars[..1][..0] == [];
      assert Sum(vars[..1], w, env) == vars[0].scale * x0;
    }
  }

  /** For indices of the pointer's width the exact condition, overflow or not: the
      ranges are apart at the distance taken. */
  lemma {:induction false} HeuristicExact(vars: Variables, size1: nat, size2: nat, offs: int, w: nat, known: KnownBits,
                                          same: SameValue)
    requires Pow2(w) == WORD && KnownRight(known, w) && SameRight(same) && Parallel(vars, w, known, same)
    requires size1 > 0 && size2 > 0
    ensures AlwaysDisjoint(w, offs, vars, size1, size2) <==>
            size2 <= (offs + Distance(vars, w, known)) % WORD <= WORD - size1
  {
    var d := Distance(vars, w, known);
    DistanceRight(vars, w, known, same);
    DisjointExactly(offs + d, size1, size2);
    ConstantDecides(w, vars, d, offs, size1, size2);
  }

  lemma {:induction false} ConstantDecides(w: nat, vars: Variables, d: int, offs: int, size1: nat, size2: nat)
    requires Constant(w, vars, d)
    ensures AlwaysDisjoint(w, offs, vars, size1, size2) <==> Disjoint(offs + d, size1, size2)
  {
    forall env
      ensures Disjoint(offs + Sum(vars, w, env), size1, size2) <==> Disjoint(offs + d, size1, size2)
    {
      Shifted(Sum(vars, w, env), d, offs, offs + d);
      DisjointShift(offs + Sum(vars, w, env), offs + d, size1, size2);
    }
    assert Disjoint(offs + Sum(vars, w, Everywhere(0)), size1, size2) <==> Disjoint(offs + d, size1, size2);
  }

  /** Every variable has this value. */
  function Everywhere(x: int): Valuation {
    id => x
  }

  /** The answer true is right if nothing overflows and the distance is at most half
      the address space. */
  lemma {:induction false} HeuristicSound(vars: Variables, size1: nat, size2: nat, offs: int, w: nat, known: KnownBits,
                                          same: SameValue)
    requires Pow2(w) == WORD && KnownRight(known, w) && SameRight(same)
    requires HeuristicHolds(vars, size1, size2, offs, w, known, same)
    requires NoOverflow(offs, Distance(vars, w, known), size1, size2) && 2 * Abs(Distance(vars, w, known)) <= WORD
    ensures size1 > 0 && size2 > 0 ==> AlwaysDisjoint(w, offs, vars, size1, size2)
  {
    if size1 > 0 && size2 > 0 {
      DistanceMeasured(vars, size1, size2, offs, w, known, same);
      GapOfHalf(offs, Distance(vars, w, known), size1, size2);
      DisjointExactly(offs + Distance(vars, w, known), size1, size2);
      HeuristicExact(vars, size1, size2, offs, w, known, same);
    }
  }

  // ----- narrower indices -----

  /** How an index is brought to the pointer's width. */
  datatype Extension = ZeroExtended | SignExtended

  function Extend(ext: Extension, width: nat, x: nat): int
    requires width > 0
  {
    if ext.ZeroExtended? then x else Signed(width, x)
  }

  /** The variables' part with indices of the given width, both extended alike. */
  function ExtendedSum(ext: Extension, vars: Variables, width: nat, env: Valuation): int
    requires width > 0 && |vars| == 2
  {
    vars[0].scale * Extend(ext, width, Eval(vars[0].v, width, env)) +
    vars[1].scale * Extend(ext, width, Eval(vars[1].v, width, env))
  }

  lemma {:induction false} ExtendedClose(ext: Extension, width: nat, x0: nat, x1: nat)
    requires width > 0 && x0 < Pow2(width) && x1 < Pow2(width)
    ensures Abs(Extend(ext, width, x0) - Extend(ext, width, x1)) < Pow2(width)
    ensures Congruent(Pow2(width), Extend(ext, width, x0) - Extend(ext, width, x1), x0 - x1)
  {
    var m := Pow2(width);
    assert m == 2 * Pow2(width - 1);
    if ext.ZeroExtended? {
      CongruentBy(m, x0 - x1, x0 - x1, 0);
    } else {
      SignedCongruent(width, x0);
      SignedCongruent(width, x1);
      CongruentAdd(m, Signed(width, x0), x0, Signed(width, x1), x1);
    }
  }

  /** With opposite scales only the difference of the two counts. */
  lemma {:induction false} OppositeSum(s0: int, s1: int, y0: int, y1: int)
    requires s0 == Wrap64(-s1)
    ensures Congruent(WORD, s0 * y0 + s1 * y1, s0 * (y0 - y1))
  {
    Wrap64Congruent(-s1);
    var k := Factor(WORD, s0, -s1);
    assert s1 == k * WORD - s0;
    Distribute(k * WORD, s0, y1);
    Distribute(y0, y1, s0);
    Associate(k, WORD, y1);
    CongruentBy(WORD, s0 * y0 + s1 * y1, s0 * (y0 - y1), k * y1);
  }

  /** The least distance of the two numbers, whatever the shared variable is. */
  lemma {:induction false} LeastKept(m: int, a: int, ahead: int)
    requires m > 0 && Abs(a) < m && Congruent(m, a, ahead)
    ensures Least(m, ahead) <= Abs(a) <= m - Least(m, ahead)
  {
    var d := ahead % m;
    CongruentMod(m, ahead);
    CongruentTrans(m, a, ahead, d);
    if a >= 0 {
      CongruentEqual(m, a, d);
    } else {
      CongruentBy(m, a + m, a, 1);
      CongruentTrans(m, a + m, a, d);
      CongruentEqual(m, a + m, d);
    }
  }

  /** No closer than the least distance, and less than a turn apart. */
  ghost predicate Apart(m: int, a: int, ahead: int)
    requires m > 0
  {
    Least(m, ahead) <= Abs(a) <= m - Least(m, ahead)
  }

  lemma {:induction false} ApartBy(m: int, a: int, x: int, ahead: int)
    requires m > 0 && Abs(a) < m && Congruent(m, a, x) && Congruent(m, x, Nearest(m, ahead))
    ensures Apart(m, a, ahead)
  {
    NearestIsLeast(m, ahead);
    CongruentTrans(m, a, x, Nearest(m, ahead));
    CongruentTrans(m, a, Nearest(m, ahead), ahead);
    LeastKept(m, a, ahead);
  }

  /** Two indices of a width, extended alike. */
  lemma {:induction false} ExtendedApart(ext: Extension, width: nat, x0: nat, x1: nat, ahead: int)
    requires width > 0 && x0 < Pow2(width) && x1 < Pow2(width)
    requires Congruent(Pow2(width), x0 - x1, Nearest(Pow2(width), ahead))
    ensures Apart(Pow2(width), Extend(ext, width, x0) - Extend(ext, width, x1), ahead)
  {
    ExtendedClose(ext, width, x0, x1);
    ApartBy(Pow2(width), Extend(ext, width, x0) - Extend(ext, width, x1), x0 - x1, ahead);
  }

  /** The gap that is left between the accesses by two numbers `a` apart. */
  lemma {:induction false} ScaledApart(scale: int, a: int, m: int, ahead: int, offs: int, size1: nat, size2: nat)
    requires m > 0 && Apart(m, a, ahead) && Abs(scale) * m <= WORD
    requires size1 + Abs(offs) < WORD && size2 + Abs(offs) < WORD
    requires MeasuresGap(offs, Abs(scale) * Least(m, ahead), size1, size2)
    ensures Disjoint(offs + scale * a, size1, size2)
  {
    NearestIsLeast(m, ahead);
    GapApart(scale, a, m, Least(m, ahead), offs, size1, size2);
  }

  lemma {:induction false} GapApart(scale: int, a: int, m: int, least: nat, offs: int, size1: nat, size2: nat)
    requires least <= Abs(a) <= m - least && 2 * least <= m && Abs(scale) * m <= WORD
    requires size1 + Abs(offs) < WORD && size2 + Abs(offs) < WORD
    requires MeasuresGap(offs, Abs(scale) * least, size1, size2)
    ensures Disjoint(offs + scale * a, size1, size2)
  {
    ScaledBetween(Abs(scale), least, Abs(a), m);
    AbsProduct(scale, a);
    HalfTurn(Abs(scale), m, least);
    OwnResidue(WORD, Abs(scale) * least);
    OwnResidue(WORD, size1 + Abs(offs));
    OwnResidue(WORD, size2 + Abs(offs));
    GapBetween(offs, scale * a, Abs(scale) * least, size1, size2);
  }

  /** The variables' part is the first scale times a number that far from zero. */
  lemma {:induction false} OppositeDisjoint(scale0: int, scale1: int, y0: int, y1: int, offs: int, size1: nat,
                                            size2: nat)
    requires scale0 == Wrap64(-scale1) && Disjoint(offs + scale0 * (y0 - y1), size1, size2)
    ensures Disjoint(offs + (scale0 * y0 + scale1 * y1), size1, size2)
  {
    OppositeSum(scale0, scale1, y0, y1);
    Shifted(scale0 * y0 + scale1 * y1, scale0 * (y0 - y1), offs, offs + scale0 * (y0 - y1));
    DisjointShift(offs + (scale0 * y0 + scale1 * y1), offs + scale0 * (y0 - y1), size1, size2);
  }

  /** For indices of any width, wrapping around at that width included, the answer true
      is right as long as a turn of the index stays within the address space. */
  lemma {:induction false} NarrowHeuristicSound(ext: Extension, vars: Variables, size1: nat, size2: nat, offs: int,
                                                width: nat, known: KnownBits, same: SameValue, env: Valuation)
    requires width > 0 && KnownRight(known, width) && SameRight(same)
    requires HeuristicHolds(vars, size1, size2, offs, width, known, same)
    requires Abs(vars[0].scale) * Pow2(width) <= WORD && size1 + Abs(offs) < WORD && size2 + Abs(offs) < WORD
    ensures Disjoint(offs + ExtendedSum(ext, vars, width, env), size1, size2)
  {
    var x0, x1 := Eval(vars[0].v, width, env), Eval(vars[1].v, width, env);
    var y0, y1 := Extend(ext, width, x0), Extend(ext, width, x1);
    var ahead := Ahead(vars, width, known);
    AheadRight(vars, width, known, same, env);
    ExtendedApart(ext, width, x0, x1, ahead);
    ScaledApart(vars[0].scale, y0 - y1, Pow2(width), ahead, offs, size1, size2);
    OppositeDisjoint(vars[0].scale, vars[1].scale, y0, y1, offs, size1, size2);
  }

  lemma {:induction false} HalfTurn(s: int, m: int, least: int)
    requires s >= 0 && s * m <= WORD && 0 <= 2 * least <= m
    ensures 0 <= 2 * (s * least) <= WORD
  {
    ProductAtLeastZero(s, least);
    ProductAtLeastZero(s, m - 2 * least);
    Distribute(m, 2 * least, s);
    assert s * (2 * least) == 2 * (s * least);
  }

  // ----- the exact condition for an index and the same index plus a constant -----

  /** The ranges are apart when the first access is `d` after the second. */
  predicate ApartAt(d: int, size1: nat, size2: nat) {
    size2 <= d % WORD <= WORD - size1
  }

  /** Apart at either of the two distances that numbers of a width, `d` apart modulo `m`,
      can have. */
  predicate ApartBothWays(scale: int, m: int, d: int, offs: int, size1: nat, size2: nat) {
    ApartAt(offs + scale * d, size1, size2) && (d != 0 ==> ApartAt(offs + scale * (d - m), size1, size2))
  }

  /** No byte in common, whatever the variables are. */
  ghost predicate ExtendedDisjoint(ext: Extension, vars: Variables, width: nat, offs: int, size1: nat, size2: nat)
    requires width > 0 && |vars| == 2
  {
    forall env :: Disjoint(offs + ExtendedSum(ext, vars, width, env), size1, size2)
  }

  lemma {:induction false} OneOfTwo(m: int, a: int, d: int)
    requires 0 <= d < m && Abs(a) < m && Congruent(m, a, d)
    ensures a == d || (d != 0 && a == d - m)
  {
    if a >= 0 {
      CongruentEqual(m, a, d);
    } else {
      CongruentBy(m, a + m, a, 1);
      CongruentTrans(m, a + m, a, d);
      CongruentEqual(m, a + m, d);
    }
  }

  /** One run, by the two extended indices. */
  lemma {:induction false} OppositeExactly(scale0: int, scale1: int, y0: int, y1: int, offs: int, size1: nat,
                                           size2: nat)
    requires scale0 == Wrap64(-scale1) && size1 > 0 && size2 > 0
    ensures Disjoint(offs + (scale0 * y0 + scale1 * y1), size1, size2) <==>
            ApartAt(offs + scale0 * (y0 - y1), size1, size2)
  {
    OppositeSum(scale0, scale1, y0, y1);
    Shifted(scale0 * y0 + scale1 * y1, scale0 * (y0 - y1), offs, offs + scale0 * (y0 - y1));
    DisjointShift(offs + (scale0 * y0 + scale1 * y1), offs + scale0 * (y0 - y1), size1, size2);
    DisjointExactly(offs + scale0 * (y0 - y1), size1, size2);
  }

  /** `x + d` on a circle of `m`. */
  function Plus(m: nat, x: nat, d: nat): (r: nat)
    requires x < m && d < m
    ensures r < m
  {
    if x + d < m then x + d else x + d - m
  }

  lemma {:induction false} PlusIsMod(m: nat, x: nat, d: nat)
    requires x < m && d < m
    ensures (x + d) % m == Plus(m, x, d) && Congruent(m, Plus(m, x, d) - x, d)
  {
    if x + d < m {
      OwnResidue(m, x + d);
      CongruentBy(m, Plus(m, x, d) - x, d, 0);
    } else {
      DivisionUnique(x + d, m, 1, x + d - m);
      CongruentBy(m, Plus(m, x, d) - x, d, -1);
    }
  }

  /** The extended numbers are one of the two distances apart. */
  lemma {:induction false} ExtendedOneOfTwo(ext: Extension, width: nat, x: nat, d: nat)
    requires width > 0 && x < Pow2(width) && d < Pow2(width)
    ensures var a := Extend(ext, width, Plus(Pow2(width), x, d)) - Extend(ext, width, x);
      a == d || (d != 0 && a == d - Pow2(width))
  {
    var m := Pow2(width);
    var y := Plus(m, x, d);
    var a := Extend(ext, width, y) - Extend(ext, width, x);
    PlusIsMod(m, x, d);
    ExtendedClose(ext, width, y, x);
    CongruentTrans(m, a, y - x, d);
    OneOfTwo(m, a, d);
  }

  /** The index that makes the first distance, or the second one. */
  function Extreme(ext: Extension, width: nat, second: bool): (r: nat)
    requires width > 0
    ensures r < Pow2(width)
  {
    if ext.ZeroExtended? then (if second then Pow2(width) - 1 else 0)
    else if second then Pow2(width - 1) - 1 else Pow2(width - 1)
  }

  lemma {:induction false} ExtendIs(ext: Extension, width: nat, x: nat)
    requires width > 0 && x < Pow2(width)
    ensures Extend(ext, width, x) == if ext.ZeroExtended? || x < Pow2(width - 1) then x else x - Pow2(width)
  {
    OwnResidue(Pow2(width), x);
  }

  lemma {:induction false} ExtremeDistance(ext: Extension, width: nat, d: nat, second: bool)
    requires width > 0 && d < Pow2(width) && (second ==> d != 0)
    ensures var m, x := Pow2(width), Extreme(ext, width, second);
      Extend(ext, width, Plus(m, x, d)) - Extend(ext, width, x) == if second then d - m else d
  {
    var m, h, x := Pow2(width), Pow2(width - 1), Extreme(ext, width, second);
    ExtendIs(ext, width, x);
    ExtendIs(ext, width, Plus(m, x, d));
  }

  /** An index plus a constant, and the index. */
  ghost predicate PlusConstant(vars: Variables, id: nat, c: nat) {
    |vars| == 2 && vars[0].scale == Wrap64(-vars[1].scale) &&
    vars[0].v == Bin(Add, Var(id), Const(c)) && vars[1].v == Var(id)
  }

  /** One run: the variable's value decides between the two distances. */
  lemma {:induction false} ExtendedRun(ext: Extension, vars: Variables, id: nat, c: nat, width: nat, env: Valuation,
                                       x: nat, d: nat, offs: int, size1: nat, size2: nat)
    requires width > 0 && size1 > 0 && size2 > 0 && PlusConstant(vars, id, c)
    requires x == env(id) % Pow2(width) && d == c % Pow2(width)
    ensures Disjoint(offs + ExtendedSum(ext, vars, width, env), size1, size2) <==>
            ApartAt(offs + vars[0].scale * (Extend(ext, width, Plus(Pow2(width), x, d)) - Extend(ext, width, x)),
                    size1, size2)
  {
    var m := Pow2(width);
    PlusIsMod(m, x, d);
    assert Eval(vars[1].v, width, env) == x;
    assert Eval(vars[0].v, width, env) == Plus(m, x, d);
    OppositeExactly(vars[0].scale, vars[1].scale, Extend(ext, width, Plus(m, x, d)), Extend(ext, width, x),
                    offs, size1, size2);
  }

  /** Some value of the variable makes either distance. */
  lemma {:induction false} DistanceTaken(ext: Extension, vars: Variables, id: nat, c: nat, width: nat, d: nat,
                                         offs: int, size1: nat, size2: nat, second: bool)
    requires width > 0 && size1 > 0 && size2 > 0 && PlusConstant(vars, id, c) && d == c % Pow2(width)
    requires ExtendedDisjoint(ext, vars, width, offs, size1, size2) && (second ==> d != 0)
    ensures ApartAt(offs + vars[0].scale * (if second then d - Pow2(width) else d), size1, size2)
  {
    var x := Extreme(ext, width, second);
    var env: Valuation := Everywhere(x);
    OwnResidue(Pow2(width), x);
    ExtremeDistance(ext, width, d, second);
    assert Disjoint(offs + ExtendedSum(ext, vars, width, env), size1, size2);
    ExtendedRun(ext, vars, id, c, width, env, x, d, offs, size1, size2);
  }

  lemma {:induction false} BothTaken(ext: Extension, vars: Variables, id: nat, c: nat, width: nat, d: nat, offs: int,
                                     size1: nat, size2: nat)
    requires width > 0 && size1 > 0 && size2 > 0 && PlusConstant(vars, id, c) && d == c % Pow2(width)
    requires ExtendedDisjoint(ext, vars, width, offs, size1, size2)
    ensures ApartBothWays(vars[0].scale, Pow2(width), d, offs, size1, size2)
  {
    DistanceTaken(ext, vars, id, c, width, d, offs, size1, size2, false);
    if d != 0 {
      DistanceTaken(ext, vars, id, c, width, d, offs, size1, size2, true);
    }
  }

  lemma {:induction false} TwoWays(scale: int, m: int, d: int, a: int, offs: int, size1: nat, size2: nat)
    requires ApartBothWays(scale, m, d, offs, size1, size2) && (a == d || (d != 0 && a == d - m))
    ensures ApartAt(offs + scale * a, size1, size2)
  {
  }

  lemma {:induction false} EitherDistance(ext: Extension, vars: Variables, id: nat, c: nat, width: nat, env: Valuation,
                                          d: nat, offs: int, size1: nat, size2: nat)
    requires width > 0 && size1 > 0 && size2 > 0 && PlusConstant(vars, id, c) && d == c % Pow2(width)
    requires ApartBothWays(vars[0].scale, Pow2(width), d, offs, size1, size2)
    ensures Disjoint(offs + ExtendedSum(ext, vars, width, env), size1, size2)
  {
    var x := env(id) % Pow2(width);
    ExtendedOneOfTwo(ext, width, x, d);
    TwoWays(vars[0].scale, Pow2(width), d, Extend(ext, width, Plus(Pow2(width), x, d)) - Extend(ext, width, x),
            offs, size1, size2);
    ExtendedRun(ext, vars, id, c, width, env, x, d, offs, size1, size2);
  }

  lemma {:induction false} EitherDistances(ext: Extension, vars: Variables, id: nat, c: nat, width: nat, d: nat,
                                           offs: int, size1: nat, size2: nat)
    requires width > 0 && size1 > 0 && size2 > 0 && PlusConstant(vars, id, c) && d == c % Pow2(width)
    requires ApartBothWays(vars[0].scale, Pow2(width), d, offs, size1, size2)
    ensures ExtendedDisjoint(ext, vars, width, offs, size1, size2)
  {
    forall env
      ensures Disjoint(offs + ExtendedSum(ext, vars, width, env), size1, size2)
    {
      EitherDistance(ext, vars, id, c, width, env, d, offs, size1, size2);
    }
  }

  /** An index plus a constant against the same index: the accesses are always disjoint
      exactly when they are at both distances. */
  lemma {:induction false} NarrowIndicesExact(ext: Extension, vars: Variables, id: nat, c: nat, width: nat, d: nat,
                                              offs: int, size1: nat, size2: nat)
    requires width > 0 && size1 > 0 && size2 > 0 && PlusConstant(vars, id, c) && d == c % Pow2(width)
    ensures ExtendedDisjoint(ext, vars, width, offs, size1, size2) <==>
            ApartBothWays(vars[0].scale, Pow2(width), d, offs, size1, size2)
  {
    if ExtendedDisjoint(ext, vars, width, offs, size1, size2) {
      BothTaken(ext, vars, id, c, width, d, offs, size1, size2);
    } else if ApartBothWays(vars[0].scale, Pow2(width), d, offs, size1, size2) {
      EitherDistances(ext, vars, id, c, width, d, offs, size1, size2);
    }
  }
}
