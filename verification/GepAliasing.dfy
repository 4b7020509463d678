/** What is answered about two accesses: test after test on the symbolic difference of
    their addresses, and what each answer means. */
module GepAliasing {
  import opened Words
  import opened GepDecomposition
  import opened GepDifference
  import opened GepModular
  import opened GepSign
  import opened GepHeuristic

  datatype AliasResult = NoAlias | MayAlias | PartialAlias | MustAlias

  /** What other analyses know of values. */
  datatype Facts = Facts(known: KnownBits, same: SameValue, sign: KnownSign)

  ghost predicate FactsRight(f: Facts, w: nat) {
    KnownRight(f.known, w) && SameRight(f.same) && SignRight(f.sign, w)
  }

  /** The test an answer comes from. */
  datatype Reason = ConstantOffset | LowestBitTest | KnownSigns | Gap | Nothing

  /** The test of that name tells the accesses apart. */
  predicate Grounds(why: Reason, offs: int, vars: Variables, size1: nat, size2: nat, w: nat, f: Facts)
    requires SignedWords(vars) && NoZeroScale(vars)
  {
    match why
    case ConstantOffset => vars == [] && offs != 0 && ConstantTest(offs, size1, size2)
    case LowestBitTest =>
      vars != [] && size1 != UNKNOWN_SIZE && size2 != UNKNOWN_SIZE && ModularTest(offs, OrScales(vars), size1, size2)
    case KnownSigns => PositiveTest(offs, vars, size2, f.sign)
    case Gap => HeuristicHolds(vars, size1, size2, offs, w, f.known, f.same)
    case Nothing => false
  }

  predicate ConstantTest(offs: int, size1: nat, size2: nat) {
    if offs >= 0 then size2 != UNKNOWN_SIZE && size2 <= offs
    else size1 != UNKNOWN_SIZE && size2 != UNKNOWN_SIZE && size1 <= -offs
  }

  /** How many bytes an access of the given size may touch. */
  predicate Accesses(size: nat, bytes: nat) {
    size != UNKNOWN_SIZE ==> bytes <= size
  }

  /** What an answer rests on, besides its test, in a run in which the accesses touch
      that many bytes. */
  ghost predicate Proviso(why: Reason, offs: int, vars: Variables, size1: nat, size2: nat, w: nat, f: Facts,
                          env: Valuation, bytes1: nat, bytes2: nat) {
    match why
    case ConstantOffset => bytes1 <= HALF_WORD && bytes2 <= HALF_WORD
    case LowestBitTest => true
    case KnownSigns => offs + SignedSum(vars, w, env) + bytes1 <= WORD
    case Gap => |vars| == 2 && NoOverflow(offs, Distance(vars, w, f.known), size1, size2)
             && 2 * Abs(Distance(vars, w, f.known)) <= WORD
    case Nothing => false
  }

  /** The accesses have no byte in common, under any valuation. */
  ghost predicate ToldApart(why: Reason, offs: int, vars: Variables, size1: nat, size2: nat, w: nat, f: Facts) {
    forall env, bytes1: nat, bytes2: nat ::
      Accesses(size1, bytes1) && Accesses(size2, bytes2) &&
      Proviso(why, offs, vars, size1, size2, w, f, env, bytes1, bytes2) ==>
      Disjoint(offs + Sum(vars, w, env), bytes1, bytes2)
  }

  // ----- each test is right -----

  /** The accesses of one run, for one test. */
  lemma {:induction false} GroundsRight(why: Reason, offs: int, vars: Variables, size1: nat, size2: nat, w: nat,
                                        f: Facts, env: Valuation, bytes1: nat, bytes2: nat)
    requires Pow2(w) == WORD && FactsRight(f, w) && -HALF_WORD <= offs < HALF_WORD
    requires SignedWords(vars) && NoZeroScale(vars) && Grounds(why, offs, vars, size1, size2, w, f)
    requires 0 < bytes1 && 0 < bytes2 && Accesses(size1, bytes1) && Accesses(size2, bytes2)
    requires Proviso(why, offs, vars, size1, size2, w, f, env, bytes1, bytes2)
    ensures Disjoint(offs + Sum(vars, w, env), bytes1, bytes2)
  {
    match why {
      case ConstantOffset =>
        ConstantOffsetRight(offs, size1, size2, bytes1, bytes2);
      case LowestBitTest =>
        OrScalesGathers(vars);
        ModularTestSound(w, offs, vars, OrScales(vars), bytes1, bytes2, env);
      case KnownSigns =>
        KnownSignsRight(offs, vars, size2, w, f.sign, env, bytes1, bytes2);
      case Gap =>
        GapRight(offs, vars, size1, size2, w, f.known, f.same, env, bytes1, bytes2);
    }
  }

  /** Accesses of those sizes, each at most half the address space, are always apart. */
  ghost predicate ApartWithin(offs: int, size1: nat, size2: nat) {
    forall bytes1: nat, bytes2: nat ::
      0 < bytes1 <= HALF_WORD && 0 < bytes2 <= HALF_WORD && Accesses(size1, bytes1) && Accesses(size2, bytes2) ==>
      Disjoint(offs, bytes1, bytes2)
  }

  /** The constant test holds exactly for such accesses, except that it wants to know both
      sizes if the first access comes first. */
  lemma {:induction false} ConstantTestExact(offs: int, size1: nat, size2: nat)
    requires -HALF_WORD < offs < HALF_WORD && offs != 0 && size1 > 0 && size2 > 0
    ensures ConstantTest(offs, size1, size2) <==>
            ApartWithin(offs, size1, size2) && (offs < 0 ==> size1 != UNKNOWN_SIZE && size2 != UNKNOWN_SIZE)
  {
    if ConstantTest(offs, size1, size2) {
      forall bytes1: nat, bytes2: nat | 0 < bytes1 <= HALF_WORD && 0 < bytes2 <= HALF_WORD &&
                                        Accesses(size1, bytes1) && Accesses(size2, bytes2)
        ensures Disjoint(offs, bytes1, bytes2)
      {
        ConstantOffsetRight(offs, size1, size2, bytes1, bytes2);
      }
    } else if offs >= 0 {
      ConstantOffsetExact(offs, 1, offs + 1);
    } else {
      ConstantOffsetExact(offs, -offs + 1, 1);
    }
  }

  lemma {:induction false} ConstantOffsetRight(offs: int, size1: nat, size2: nat, bytes1: nat, bytes2: nat)
    requires -HALF_WORD <= offs < HALF_WORD && ConstantTest(offs, size1, size2)
    requires 0 < bytes1 <= HALF_WORD && 0 < bytes2 <= HALF_WORD
    requires Accesses(size1, bytes1) && Accesses(size2, bytes2)
    ensures Disjoint(offs, bytes1, bytes2)
  {
    ConstantOffsetExact(offs, bytes1, bytes2);
  }

  lemma {:induction false} KnownSignsRight(offs: int, vars: Variables, size2: nat, w: nat, sign: KnownSign,
                                           env: Valuation, bytes1: nat, bytes2: nat)
    requires Pow2(w) == WORD && SignRight(sign, w) && PositiveTest(offs, vars, size2, sign) && offs < HALF_WORD
    requires 0 < bytes1 && 0 < bytes2 && Accesses(size2, bytes2) && offs + SignedSum(vars, w, env) + bytes1 <= WORD
    ensures Disjoint(offs + Sum(vars, w, env), bytes1, bytes2)
  {
    PositiveOffsetExact(w, offs, vars, bytes1, bytes2, sign, env);
  }

  lemma {:induction false} GapRight(offs: int, vars: Variables, size1: nat, size2: nat, w: nat, known: KnownBits,
                                    same: SameValue, env: Valuation, bytes1: nat, bytes2: nat)
    requires Pow2(w) == WORD && KnownRight(known, w) && SameRight(same)
    requires HeuristicHolds(vars, size1, size2, offs, w, known, same)
    requires NoOverflow(offs, Distance(vars, w, known), size1, size2) && 2 * Abs(Distance(vars, w, known)) <= WORD
    requires bytes1 <= size1 && bytes2 <= size2
    ensures Disjoint(offs + Sum(vars, w, env), bytes1, bytes2)
  {
    var d := Distance(vars, w, known);
    DistanceMeasured(vars, size1, size2, offs, w, known, same);
    GapOfHalf(offs, d, bytes1, bytes2);
    DistanceRight(vars, w, known, same);
    Shifted(Sum(vars, w, env), d, offs, offs + d);
    DisjointShift(offs + Sum(vars, w, env), offs + d, bytes1, bytes2);
  }

  lemma {:induction false} GroundsTell(why: Reason, offs: int, vars: Variables, size1: nat, size2: nat, w: nat,
                                       f: Facts)
    requires Pow2(w) == WORD && FactsRight(f, w) && -HALF_WORD <= offs < HALF_WORD
    requires SignedWords(vars) && NoZeroScale(vars) && Grounds(why, offs, vars, size1, size2, w, f)
    ensures ToldApart(why, offs, vars, size1, size2, w, f)
  {
    forall env, bytes1: nat, bytes2: nat | Accesses(size1, bytes1) && Accesses(size2, bytes2) &&
                                           Proviso(why, offs, vars, size1, size2, w, f, env, bytes1, bytes2)
      ensures Disjoint(offs + Sum(vars, w, env), bytes1, bytes2)
    {
      if bytes1 > 0 && bytes2 > 0 {
        GroundsRight(why, offs, vars, size1, size2, w, f, env, bytes1, bytes2);
      }
    }
  }

  // ----- test after test -----

  /** The loop over the variables: the or of the scales, and whether every term is known
      not to be negative. */
  method ScanVariables(vars: Variables, sign: KnownSign) returns (modulo: nat, allPositive: bool)
    requires SignedWords(vars) && NoZeroScale(vars)
    ensures modulo == OrScales(vars) && Gathers(modulo, vars)
    ensures allPositive <==> AllPositive(vars, sign)
  {
    modulo, allPositive := 0, true;
    for i := 0 to |vars|
      invariant modulo == OrScales(vars[..i])
      invariant allPositive <==> AllPositive(vars[..i], sign)
    {
      assert vars[..i + 1][..i] == vars[..i];
      modulo := Words.Or(modulo, vars[i].scale % WORD);
      OnePositive(vars, i, sign);
      if allPositive {
        allPositive := Positive(vars[i], sign);
      }
    }
    assert vars[..|vars|] == vars;
    OrScalesGathers(vars);
  }

  lemma {:induction false} OnePositive(vars: Variables, i: nat, sign: KnownSign)
    requires i < |vars|
    ensures AllPositive(vars[..i + 1], sign) <==> AllPositive(vars[..i], sign) && Positive(vars[i], sign)
  {
    if AllPositive(vars[..i + 1], sign) {
      forall j | 0 <= j < i
        ensures Positive(vars[..i][j], sign)
      {
        assert vars[..i][j] == vars[..i + 1][j];
      }
      assert vars[..i + 1][i] == vars[i];
    }
  }

  /** A constant difference that is not zero: apart, overlapping, or not known since a
      size is not. */
  method AliasConstant(offs: int, size1: nat, size2: nat) returns (r: AliasResult)
    requires -HALF_WORD <= offs < HALF_WORD && offs != 0
    ensures r.NoAlias? || r.PartialAlias?
    ensures r.NoAlias? <==> ConstantTest(offs, size1, size2)
    ensures r.PartialAlias? && 0 < size1 < UNKNOWN_SIZE && 0 < size2 < UNKNOWN_SIZE ==> !Disjoint(offs, size1, size2)
  {
    if size1 > 0 && size2 > 0 {
      ConstantOffsetExact(offs, size1, size2);
    }
    if offs >= 0 {
      if size2 != UNKNOWN_SIZE {
        return if offs < size2 then PartialAlias else NoAlias;
      }
    } else if size1 != UNKNOWN_SIZE && size2 != UNKNOWN_SIZE {
      return if -offs < size1 then PartialAlias else NoAlias;
    }
    return PartialAlias;
  }

  /** The tests for a difference with variables, in turn. */
  method AliasVariables(offs: int, vars: Variables, size1: nat, size2: nat, w: nat, f: Facts) returns (why: Reason)
    requires w > 0 && FactsRight(f, w) && SignedWords(vars) && NoZeroScale(vars) && vars != []
    ensures why.Nothing? || Grounds(why, offs, vars, size1, size2, w, f)
    ensures why.Nothing? ==> NoGrounds(offs, vars, size1, size2, w, f)
  {
    var modulo, allPositive := ScanVariables(vars, f.sign);
    if size1 != UNKNOWN_SIZE && size2 != UNKNOWN_SIZE && ModularTest(offs, modulo, size1, size2) {
      return LowestBitTest;
    }
    if allPositive && offs > 0 && size2 <= offs {
      return KnownSigns;
    }
    var fits := ConstantOffsetHeuristic(vars, size1, size2, offs, w, f.known, f.same);
    return if fits then Gap else Nothing;
  }

  /** No test tells the accesses apart. */
  ghost predicate NoGrounds(offs: int, vars: Variables, size1: nat, size2: nat, w: nat, f: Facts)
    requires SignedWords(vars) && NoZeroScale(vars)
  {
    forall why :: !Grounds(why, offs, vars, size1, size2, w, f)
  }

  /** What the difference of two addresses, an offset and scaled variables, says of the
      accesses. */
  method AliasDifference(offs: int, vars: Variables, size1: nat, size2: nat, w: nat, f: Facts)
    returns (r: AliasResult, why: Reason)
    requires w > 0 && Pow2(w) == WORD && FactsRight(f, w)
    requires -HALF_WORD <= offs < HALF_WORD && SignedWords(vars) && NoZeroScale(vars)
    ensures r.MustAlias? <==> offs == 0 && vars == []
    ensures r.NoAlias? ==>
            Grounds(why, offs, vars, size1, size2, w, f) && ToldApart(why, offs, vars, size1, size2, w, f)
    ensures r.PartialAlias? ==> NoGrounds(offs, vars, size1, size2, w, f)
    ensures r.PartialAlias? && vars == [] && 0 < size1 < UNKNOWN_SIZE && 0 < size2 < UNKNOWN_SIZE ==>
            !Disjoint(offs, size1, size2)
    ensures !r.MayAlias?
  {
    if offs == 0 && vars == [] {
      return MustAlias, Nothing;
    }
    if vars == [] {
      r := AliasConstant(offs, size1, size2);
      why := if r.NoAlias? then ConstantOffset else Nothing;
    } else {
      why := AliasVariables(offs, vars, size1, size2, w, f);
      r := if why.Nothing? then PartialAlias else NoAlias;
    }
    if r.NoAlias? {
      GroundsTell(why, offs, vars, size1, size2, w, f);
    }
  }

  // ----- two addresses -----

  /** The first address less the second. */
  ghost predicate Difference(w: nat, p1: Pointer, p2: Pointer, offs: int, vars: Variables) {
    forall base, env :: Congruent(WORD, Address(p1, w, base, env) - Address(p2, w, base, env), offs + Sum(vars, w, env))
  }

  lemma {:induction false} Subtracted(a1: int, a2: int, v: int, o1: int, o2: int, s1: int, s2: int, o: int, s: int)
    requires Congruent(WORD, a1, v + o1 + s1) && Congruent(WORD, a2, v + o2 + s2)
    requires Congruent(WORD, s1 - s2, s) && Congruent(WORD, o1 - o2, o)
    ensures Congruent(WORD, a1 - a2, o + s)
  {
    var j := Factor(WORD, a1, v + o1 + s1);
    var k := Factor(WORD, a2, v + o2 + s2);
    var l := Factor(WORD, s1 - s2, s);
    var n := Factor(WORD, o1 - o2, o);
    CongruentBy(WORD, a1 - a2, o + s, j - k + l + n);
  }

  lemma {:induction false} DifferenceOf(w: nat, p1: Pointer, p2: Pointer, v: Pointer, offs1: int, offs2: int,
                                        vars1: Variables, vars2: Variables, vars: Variables)
    requires Pow2(w) == WORD && Decomposed(w, p1, v, offs1, vars1) && Decomposed(w, p2, v, offs2, vars2)
    requires SumDiffers(w, vars1, vars2, vars)
    ensures Difference(w, p1, p2, Wrap64(offs1 - offs2), vars)
  {
    Wrap64Congruent(offs1 - offs2);
    forall base, env
      ensures Congruent(WORD, Address(p1, w, base, env) - Address(p2, w, base, env),
                        Wrap64(offs1 - offs2) + Sum(vars, w, env))
    {
      Subtracted(Address(p1, w, base, env), Address(p2, w, base, env), Address(v, w, base, env), offs1, offs2,
                 Sum(vars1, w, env), Sum(vars2, w, env), Wrap64(offs1 - offs2), Sum(vars, w, env));
    }
  }

  /** NoAlias, for the addresses themselves. */
  ghost predicate AddressesApart(why: Reason, p1: Pointer, p2: Pointer, offs: int, vars: Variables, size1: nat,
                                 size2: nat, w: nat, f: Facts) {
    forall base, env, bytes1: nat, bytes2: nat ::
      Accesses(size1, bytes1) && Accesses(size2, bytes2) &&
      Proviso(why, offs, vars, size1, size2, w, f, env, bytes1, bytes2) ==>
      Disjoint(Address(p1, w, base, env) - Address(p2, w, base, env), bytes1, bytes2)
  }

  lemma {:induction false} AddressesToldApart(why: Reason, p1: Pointer, p2: Pointer, offs: int, vars: Variables,
                                              size1: nat, size2: nat, w: nat, f: Facts)
    requires Difference(w, p1, p2, offs, vars) && ToldApart(why, offs, vars, size1, size2, w, f)
    ensures AddressesApart(why, p1, p2, offs, vars, size1, size2, w, f)
  {
    forall base, env, bytes1: nat, bytes2: nat |
      Accesses(size1, bytes1) && Accesses(size2, bytes2) &&
      Proviso(why, offs, vars, size1, size2, w, f, env, bytes1, bytes2)
      ensures Disjoint(Address(p1, w, base, env) - Address(p2, w, base, env), bytes1, bytes2)
    {
      DisjointShift(Address(p1, w, base, env) - Address(p2, w, base, env), offs + Sum(vars, w, env), bytes1, bytes2);
    }
  }

  ghost predicate SameAddress(w: nat, p1: Pointer, p2: Pointer) {
    forall base, env :: Congruent(WORD, Address(p1, w, base, env), Address(p2, w, base, env))
  }

  /** Under every valuation some byte is touched by both accesses. */
  ghost predicate AlwaysMeet(w: nat, p1: Pointer, p2: Pointer, size1: nat, size2: nat) {
    forall base, env :: !Disjoint(Address(p1, w, base, env) - Address(p2, w, base, env), size1, size2)
  }

  lemma {:induction false} ConstantMeets(w: nat, p1: Pointer, p2: Pointer, offs: int, size1: nat, size2: nat)
    requires Difference(w, p1, p2, offs, []) && !Disjoint(offs, size1, size2)
    ensures AlwaysMeet(w, p1, p2, size1, size2)
  {
    forall base, env
      ensures !Disjoint(Address(p1, w, base, env) - Address(p2, w, base, env), size1, size2)
    {
      DisjointShift(Address(p1, w, base, env) - Address(p2, w, base, env), offs + Sum([], w, env), size1, size2);
    }
  }

  lemma {:induction false} NothingBetween(w: nat, p1: Pointer, p2: Pointer)
    requires Difference(w, p1, p2, 0, [])
    ensures SameAddress(w, p1, p2)
  {
    forall base, env
      ensures Congruent(WORD, Address(p1, w, base, env), Address(p2, w, base, env))
    {
      assert Sum([], w, env) == 0;
    }
  }

  // ----- what is left of the variables -----

  /** Each variable known to be itself is left with the difference of what the two pointers'
      steps add up to, if that is not zero. */
  ghost predicate ScalesDiffer(w: nat, p1: Pointer, p2: Pointer, f: Facts, vars: Variables)
    requires w > 0
  {
    forall v :: f.same(v, v) ==>
      Scales(vars, v) ==
      Term(Wrap64(PointerScale(p1, v, w, f.known, MAX_LOOKUP) - PointerScale(p2, v, w, f.known, MAX_LOOKUP)))
  }

  lemma {:induction false} SignedIsWrapped(w: nat, x: int)
    requires w > 0 && Pow2(w) == WORD && Pow2(w - 1) == HALF_WORD
    ensures Signed(w, x) == Wrap64(x)
  {
  }

  lemma {:induction false} WrappedDifference(x: int, y: int)
    ensures Wrap64(Wrap64(x) - Wrap64(y)) == Wrap64(x - y)
  {
  }

  lemma {:induction false} LeftOver(w: nat, p1: Pointer, p2: Pointer, f: Facts, vars1: Variables, vars2: Variables,
                                    vars: Variables)
    requires w > 0 && Pow2(w) == WORD && Pow2(w - 1) == HALF_WORD
    requires ScalesOf(w, p1, f.known, vars1) && ScalesOf(w, p2, f.known, vars2)
    requires Differences(vars1, vars2, f.same, vars)
    ensures ScalesDiffer(w, p1, p2, f, vars)
  {
    hide Wrap64, Signed, Scales, PointerScale;
    forall v | f.same(v, v)
      ensures Scales(vars, v) ==
        Term(Wrap64(PointerScale(p1, v, w, f.known, MAX_LOOKUP) - PointerScale(p2, v, w, f.known, MAX_LOOKUP)))
    {
      var s, t := PointerScale(p1, v, w, f.known, MAX_LOOKUP), PointerScale(p2, v, w, f.known, MAX_LOOKUP);
      assert Listed(w, vars1, v, s) && Listed(w, vars2, v, t);
      SignedIsWrapped(w, s);
      SignedIsWrapped(w, t);
      WrappedDifference(s, t);
    }
  }

  /** Without scales there are no entries. */
  lemma {:induction false} NoScales(vars: Variables)
    requires forall v :: Scales(vars, v) == []
    ensures vars == []
  {
    if vars != [] {
      ScalesIn(vars, 0);
    }
  }

  lemma {:induction false} ConstantsCancel(w: nat, p1: Pointer, p2: Pointer, f: Facts, vars: Variables)
    requires w > 0 && KnowsAll(f.same) && ScalesDiffer(w, p1, p2, f, vars)
    requires ApartByConstants(p1, p2, w, f.known)
    ensures vars == []
  {
    forall v
      ensures Scales(vars, v) == []
    {
      SameScales(p1, p2, v, w, f.known, MAX_LOOKUP);
    }
    NoScales(vars);
  }

  lemma {:induction false} AffineIndependent(w: nat, p1: Pointer, p2: Pointer, f: Facts, vars: Variables)
    requires w > 0 && KnowsAll(f.same) && ScalesDiffer(w, p1, p2, f, vars) && NoRepeats(vars)
    requires AffinePointer(p1) && AffinePointer(p2)
    ensures Independent(vars)
  {
    forall i | 0 <= i < |vars|
      ensures vars[i].v.Var?
    {
      var v := vars[i].v;
      ScalesIn(vars, i);
      if !v.Var? {
        OnlyVariables(p1, v, w, f.known, MAX_LOOKUP);
        OnlyVariables(p2, v, w, f.known, MAX_LOOKUP);
      }
    }
  }

  /** The addresses are the same distance apart under every valuation. */
  ghost predicate AtConstantDistance(w: nat, p1: Pointer, p2: Pointer) {
    exists d :: DistanceIs(w, p1, p2, d)
  }

  ghost predicate DistanceIs(w: nat, p1: Pointer, p2: Pointer, d: int) {
    forall base, env :: Congruent(WORD, Address(p1, w, base, env) - Address(p2, w, base, env), d)
  }

  /** For independent variables the list is empty exactly then. */
  lemma {:induction false} ConstantExactly(w: nat, p1: Pointer, p2: Pointer, offs: int, vars: Variables)
    requires Pow2(w) == WORD && Difference(w, p1, p2, offs, vars)
    requires Independent(vars) && SignedWords(vars) && NoZeroScale(vars)
    ensures vars == [] <==> AtConstantDistance(w, p1, p2)
  {
    if vars == [] {
      ConstantDistance(w, p1, p2, offs);
    } else if AtConstantDistance(w, p1, p2) {
      var d :| DistanceIs(w, p1, p2, d);
      forall env
        ensures Congruent(WORD, Sum(vars, w, env), d - offs)
      {
        var base: Valuation := x => 0;
        SumOfDistance(Address(p1, w, base, env) - Address(p2, w, base, env), offs, Sum(vars, w, env), d);
      }
      NothingVaries(vars, w, d - offs);
    }
  }

  lemma {:induction false} SumOfDistance(a: int, offs: int, sum: int, d: int)
    requires Congruent(WORD, a, offs + sum) && Congruent(WORD, a, d)
    ensures Congruent(WORD, sum, d - offs)
  {
    var j := Factor(WORD, a, offs + sum);
    var k := Factor(WORD, a, d);
    CongruentBy(WORD, sum, d - offs, k - j);
  }

  lemma {:induction false} ConstantDistance(w: nat, p1: Pointer, p2: Pointer, offs: int)
    requires Difference(w, p1, p2, offs, [])
    ensures AtConstantDistance(w, p1, p2)
  {
    forall base, env
      ensures Congruent(WORD, Address(p1, w, base, env) - Address(p2, w, base, env), offs)
    {
      assert offs + Sum([], w, env) == offs;
    }
    assert DistanceIs(w, p1, p2, offs);
  }

  /** A constant distance is zero exactly for the same address. */
  lemma {:induction false} SameExactly(w: nat, p1: Pointer, p2: Pointer, offs: int)
    requires Difference(w, p1, p2, offs, []) && -HALF_WORD <= offs < HALF_WORD
    ensures offs == 0 <==> SameAddress(w, p1, p2)
  {
    if offs == 0 {
      NothingBetween(w, p1, p2);
    } else if SameAddress(w, p1, p2) {
      var base: Valuation, env: Valuation := x => 0, x => 0;
      var a1, a2 := Address(p1, w, base, env), Address(p2, w, base, env);
      assert Congruent(WORD, a1, a2) && Congruent(WORD, a1 - a2, offs + Sum([], w, env));
      ZeroApart(a1, a2, offs);
    }
  }

  lemma {:induction false} ZeroApart(a1: int, a2: int, offs: int)
    requires Congruent(WORD, a1, a2) && Congruent(WORD, a1 - a2, offs) && -HALF_WORD <= offs < HALF_WORD
    ensures offs == 0
  {
  }

  /** What the list of variables tells, if every value is known to be itself: equal indices
      and indices that differ by constants leave none; and for variables with constants,
      the list is empty exactly if the distance is constant. */
  ghost predicate TellsConstants(w: nat, p1: Pointer, p2: Pointer, f: Facts, vars: Variables)
    requires w > 0
  {
    KnowsAll(f.same) ==>
      && NoRepeats(vars)
      && (ApartByConstants(p1, p2, w, f.known) ==> vars == [])
      && (AffinePointer(p1) && AffinePointer(p2) ==> (vars == [] <==> AtConstantDistance(w, p1, p2)))
  }

  lemma {:induction false} ConstantsTold(w: nat, p1: Pointer, p2: Pointer, f: Facts, offs: int, vars: Variables)
    requires w > 0 && Pow2(w) == WORD && Difference(w, p1, p2, offs, vars)
    requires SignedWords(vars) && NoZeroScale(vars) && ScalesDiffer(w, p1, p2, f, vars)
    requires KnowsAll(f.same) ==> NoRepeats(vars)
    ensures TellsConstants(w, p1, p2, f, vars)
  {
    hide Difference, ScalesDiffer, NoRepeats, AtConstantDistance, ApartByConstants, AffinePointer, KnowsAll;
    if KnowsAll(f.same) {
      if ApartByConstants(p1, p2, w, f.known) {
        ConstantsCancel(w, p1, p2, f, vars);
      }
      if AffinePointer(p1) && AffinePointer(p2) {
        AffineIndependent(w, p1, p2, f, vars);
        ConstantExactly(w, p1, p2, offs, vars);
      }
    }
  }

  /** No difference is taken: the pointers are not known to have one base, a walk was
      cut short, or there is no size to go by. */
  predicate GivesUp(p1: Pointer, size1: nat, p2: Pointer, size2: nat) {
    (!p2.Gep? && size1 == UNKNOWN_SIZE && size2 == UNKNOWN_SIZE) ||
    Underlying(p1, MAX_LOOKUP) != Underlying(p2, MAX_LOOKUP) ||
    Links(p1) >= MAX_LOOKUP || Links(p2) >= MAX_LOOKUP
  }

  /** Two accesses through GEP chains: NoAlias means disjoint byte ranges under every
      valuation of the variables and every address of the base. */
  method AliasGEP(p1: Pointer, size1: nat, p2: Pointer, size2: nat, w: nat, f: Facts)
    returns (r: AliasResult, why: Reason, offs: int, vars: Variables)
    requires 0 < w <= 64 && Pow2(w) == WORD && Pow2(w - 1) == HALF_WORD
    requires FactsRight(f, w) && PointerOk(p1) && PointerOk(p2)
    ensures r.MayAlias? <==> GivesUp(p1, size1, p2, size2)
    ensures SignedWords(vars) && NoZeroScale(vars)
    ensures !r.MayAlias? ==> Difference(w, p1, p2, offs, vars) && -HALF_WORD <= offs < HALF_WORD
    ensures !r.MayAlias? ==> ScalesDiffer(w, p1, p2, f, vars) && TellsConstants(w, p1, p2, f, vars)
    ensures r.MustAlias? <==> !GivesUp(p1, size1, p2, size2) && offs == 0 && vars == []
    ensures !r.MayAlias? && vars == [] ==> (r.MustAlias? <==> SameAddress(w, p1, p2))
    ensures r.NoAlias? ==> Grounds(why, offs, vars, size1, size2, w, f)
    ensures r.NoAlias? ==> AddressesApart(why, p1, p2, offs, vars, size1, size2, w, f)
    ensures r.PartialAlias? ==> NoGrounds(offs, vars, size1, size2, w, f)
    ensures r.PartialAlias? && vars == [] && 0 < size1 < UNKNOWN_SIZE && 0 < size2 < UNKNOWN_SIZE ==>
            AlwaysMeet(w, p1, p2, size1, size2)
  {
    hide ScalesDiffer, Differences, KnowsAll, ScalesOf, Decomposed, SumDiffers, TellsConstants, SameAddress,
         AllSubtracted, AddressesApart, ToldApart, NoGrounds, AlwaysMeet;
    why, offs, vars := Nothing, 0, [];
    if !p2.Gep? && size1 == UNKNOWN_SIZE && size2 == UNKNOWN_SIZE {
      return MayAlias, why, offs, vars;
    }
    var v1, baseOffset1, vars1, max1 := DecomposeGEPExpression(p1, w, f.known);
    var v2, baseOffset2, vars2, max2 := DecomposeGEPExpression(p2, w, f.known);
    if v1 != v2 || max1 || max2 {
      return MayAlias, why, offs, vars;
    }
    offs := Wrap64(baseOffset1 - baseOffset2);
    vars := GetIndexDifference(vars1, vars2, w, f.same);
    DifferenceOf(w, p1, p2, v1, baseOffset1, baseOffset2, vars1, vars2, vars);
    LeftOver(w, p1, p2, f, vars1, vars2, vars);
    ConstantsTold(w, p1, p2, f, offs, vars);
    if vars == [] {
      SameExactly(w, p1, p2, offs);
    }
    r, why := AliasDifference(offs, vars, size1, size2, w, f);
    if r.NoAlias? {
      AddressesToldApart(why, p1, p2, offs, vars, size1, size2, w, f);
    } else if r.PartialAlias? && vars == [] && 0 < size1 < UNKNOWN_SIZE && 0 < size2 < UNKNOWN_SIZE {
      ConstantMeets(w, p1, p2, offs, size1, size2);
    }
  }

  // ----- inputs at which NoAlias is wrong -----

  /** Nothing is known of any value, but that an expression is itself and that the
      variable 0 without its sign bit is not negative. */
  function FewFacts(): Facts {
    Facts((e, mask) => false, (a, b) => a == b, e => if e == Masked(0) then Zero else Unclear)
  }

  lemma {:induction false} FewFactsRight(w: nat)
    requires Pow2(w) == WORD
    ensures FactsRight(FewFacts(), w)
  {
    forall env
      ensures Eval(Masked(0), w, env) < HALF_WORD
    {
      EvalCut(Masked(0), w, env);
    }
  }

  /** A constant offset of 4, and an access that is longer than what is left of the
      address space: its bytes come round to the other access. */
  method ConstantOffsetWraps(w: nat) returns (r: AliasResult, why: Reason)
    requires w > 0 && Pow2(w) == WORD
    ensures r.NoAlias? && why.ConstantOffset? && !Disjoint(4, WORD - 2, 4)
  {
    FewFactsRight(w);
    assert Grounds(ConstantOffset, 4, [], WORD - 2, 4, w, FewFacts());
    r, why := AliasDifference(4, [], WORD - 2, 4, w, FewFacts());
    ConstantOffsetExact(4, WORD - 2, 4);
  }

  /** Eight-byte elements and an index known not to be negative: byte 8 + 8 * i comes
      round to byte 0. */
  method PositiveOffsetWraps(w: nat) returns (r: AliasResult, why: Reason, ghost vars: Variables)
    requires w > 0 && Pow2(w) == WORD
    ensures vars == [VariableGEPIndex(Masked(0), 8)] && Independent(vars) && SignedWords(vars) && NoZeroScale(vars)
    ensures r.NoAlias? && why.KnownSigns? && !AlwaysDisjoint(w, 8, vars, 16, 8)
  {
    FewFactsRight(w);
    var list := [VariableGEPIndex(Masked(0), 8)];
    vars := list;
    LowestBitOf8(list);
    assert Grounds(KnownSigns, 8, list, 16, 8, w, FewFacts());
    r, why := AliasDifference(8, list, 16, 8, w, FewFacts());
    EvenScalesAddNothing(w, 8, list, 16, 8, FewFacts().sign);
  }

  lemma {:induction false} LowestBitOf8(vars: Variables)
    requires vars == [VariableGEPIndex(Masked(0), 8)]
    ensures OrScales(vars) == 8 && LowestBit(8) == 8 && ModOffset(8, 8) == 0
  {
    assert vars[..0] == [];
    LowestBitIsPow2(8);
    MaskIsMod(8, 3);
  }

  /** 3 * (i + 0x5555555555555555) and 3 * i are one byte apart, and the heuristic takes
      them for 2^64 - 1 bytes apart. */
  method GapBeyondHalf(w: nat) returns (r: AliasResult, why: Reason, ghost vars: Variables)
    requires w > 0 && Pow2(w) == WORD
    ensures vars == [VariableGEPIndex(Bin(Add, Var(0), Const(0x5555_5555_5555_5555)), 3), VariableGEPIndex(Var(0), -3)]
    ensures r.NoAlias? && why.Gap? && !AlwaysDisjoint(w, 0, vars, 2, 2)
  {
    FewFactsRight(w);
    var list := [VariableGEPIndex(Bin(Add, Var(0), Const(0x5555_5555_5555_5555)), 3), VariableGEPIndex(Var(0), -3)];
    vars := list;
    ThirdApart(w, list);
    assert Grounds(Gap, 0, list, 2, 2, w, FewFacts());
    r, why := AliasDifference(0, list, 2, 2, w, FewFacts());
    HeuristicExact(list, 2, 2, 0, w, FewFacts().known, FewFacts().same);
  }

  lemma {:induction false} ThirdApart(w: nat, vars: Variables)
    requires w > 0 && Pow2(w) == WORD
    requires vars == [VariableGEPIndex(Bin(Add, Var(0), Const(0x5555_5555_5555_5555)), 3), VariableGEPIndex(Var(0), -3)]
    ensures Parallel(vars, w, FewFacts().known, FewFacts().same)
    ensures Ahead(vars, w, FewFacts().known) == 0x5555_5555_5555_5555
    ensures Distance(vars, w, FewFacts().known) == WORD - 1
    ensures HeuristicHolds(vars, 2, 2, 0, w, FewFacts().known, FewFacts().same)
    ensures !ModularTest(0, OrScales(vars), 2, 2)
  {
  }
}
