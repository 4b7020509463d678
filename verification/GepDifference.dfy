/** Byte ranges on the circle of 2^64 addresses, and the symbolic difference of two
    addresses that were taken apart. */
module GepDifference {
  import opened Words
  import opened GepDecomposition

  // ----- byte ranges on the circle of 2^64 addresses -----

  /** Byte `i` of the first access is byte `j` of the second, the first access
      starting `d` after the second. */
  predicate SameByte(d: int, i: nat, j: nat) {
    Congruent(WORD, d + i, j)
  }

  ghost predicate Disjoint(d: int, size1: nat, size2: nat) {
    forall i: nat, j: nat :: i < size1 && j < size2 ==> !SameByte(d, i, j)
  }

  lemma {:induction false} SameByteResidue(d: int, r: int, i: nat, j: nat)
    requires Congruent(WORD, d, r)
    ensures SameByte(d, i, j) <==> Congruent(WORD, r + i, j)
  {
  }

  /** Two non-empty ranges are disjoint exactly when the second ends before the
      first starts, and the first ends before the second comes round again. */
  lemma {:induction false} DisjointExactly(d: int, size1: nat, size2: nat)
    requires size1 > 0 && size2 > 0
    ensures Disjoint(d, size1, size2) <==> size2 <= d % WORD <= WORD - size1
  {
    var r := d % WORD;
    CongruentMod(WORD, d);
    if r < size2 {
      assert SameByte(d, 0, r);
    } else if r + size1 > WORD {
      SameByteResidue(d, r, WORD - r, 0);
      assert SameByte(d, WORD - r, 0);
    } else {
      forall i: nat, j: nat | i < size1 && j < size2
        ensures !SameByte(d, i, j)
      {
        SameByteResidue(d, r, i, j);
      }
    }
  }

  /** The same, for a difference known up to a multiple of 2^64. */
  lemma {:induction false} DisjointResidue(d: int, r: int, size1: nat, size2: nat)
    requires size1 > 0 && size2 > 0 && Congruent(WORD, d, r) && 0 <= r < WORD
    ensures Disjoint(d, size1, size2) <==> size2 <= r <= WORD - size1
  {
    DisjointExactly(d, size1, size2);
  }

  lemma {:induction false} DisjointShift(d: int, r: int, size1: nat, size2: nat)
    requires Congruent(WORD, d, r)
    ensures Disjoint(d, size1, size2) <==> Disjoint(r, size1, size2)
  {
    forall i: nat, j: nat
      ensures SameByte(d, i, j) <==> SameByte(r, i, j)
    {
      SameByteResidue(d, r, i, j);
    }
  }

  lemma {:induction false} Shifted(sum: int, s: int, offs: int, r: int)
    requires Congruent(WORD, sum, s) && r - offs == s
    ensures Congruent(WORD, offs + sum, r)
  {
  }

  // ----- a constant difference -----

  /** The constant branches, and what else they rest on: neither range may reach
      round the address space. */
  lemma {:induction false} ConstantOffsetExact(offs: int, size1: nat, size2: nat)
    requires -HALF_WORD <= offs < HALF_WORD && size1 > 0 && size2 > 0
    ensures offs >= 0 ==> (Disjoint(offs, size1, size2) <==> size2 <= offs && offs + size1 <= WORD)
    ensures offs < 0 ==> (Disjoint(offs, size1, size2) <==> size1 <= -offs && size2 - offs <= WORD)
  {
    DisjointExactly(offs, size1, size2);
  }

  // ----- GetIndexDifference -----

  /** isValueEqualInPotentialCycles: only ever said of one and the same value. */
  type SameValue = (Expr, Expr) -> bool

  ghost predicate SameRight(same: SameValue) {
    forall a, b :: same(a, b) ==> a == b
  }

  ghost predicate SignedWords(vars: Variables) {
    forall i :: 0 <= i < |vars| ==> -HALF_WORD <= vars[i].scale < HALF_WORD
  }

  /** `r` is worth what `vars` is, less `scale * v`. */
  ghost predicate SumShrinks(w: nat, vars: Variables, v: Expr, scale: int, r: Variables) {
    forall env :: Congruent(WORD, Sum(vars, w, env) - scale * Eval(v, w, env), Sum(r, w, env))
  }

  lemma {:induction false} SumReplace(vars: Variables, i: nat, scale: int, w: nat, env: Valuation)
    requires i < |vars|
    ensures Sum(vars[i := VariableGEPIndex(vars[i].v, scale)], w, env)
         == Sum(vars, w, env) + (scale - vars[i].scale) * Eval(vars[i].v, w, env)
    decreases |vars|
  {
    var n := |vars| - 1;
    var r := vars[i := VariableGEPIndex(vars[i].v, scale)];
    if i == n {
      assert r[..n] == vars[..n];
      Distribute(scale, vars[i].scale, Eval(vars[i].v, w, env));
    } else {
      SumReplace(vars[..n], i, scale, w, env);
      assert r[..n] == vars[..n][i := VariableGEPIndex(vars[i].v, scale)];
    }
  }

  /** Scaling by a wrapped difference. */
  lemma {:induction false} WrappedTerm(sum: int, s: int, t: int, x: int)
    requires Congruent(WORD, t, s)
    ensures Congruent(WORD, sum + s * x, sum + t * x)
  {
    var k := Factor(WORD, t, s);
    Distribute(t, s, x);
    Associate(k, WORD, x);
    CongruentBy(WORD, sum + s * x, sum + t * x, (-k) * x);
  }

  lemma {:induction false} EntryReduced(w: nat, vars: Variables, i: nat, scale: int)
    requires i < |vars|
    ensures SumShrinks(w, vars, vars[i].v, scale, vars[i := VariableGEPIndex(vars[i].v, Wrap64(vars[i].scale - scale))])
  {
    var r := vars[i := VariableGEPIndex(vars[i].v, Wrap64(vars[i].scale - scale))];
    forall env
      ensures Congruent(WORD, Sum(vars, w, env) - scale * Eval(vars[i].v, w, env), Sum(r, w, env))
    {
      SumReplace(vars, i, Wrap64(vars[i].scale - scale), w, env);
      ReducedTerm(Sum(vars, w, env), Sum(r, w, env), vars[i].scale, scale, Eval(vars[i].v, w, env));
    }
  }

  lemma {:induction false} ReducedTerm(sum: int, r: int, s: int, t: int, x: int)
    requires r == sum + (Wrap64(s - t) - s) * x
    ensures Congruent(WORD, sum - t * x, r)
  {
    Wrap64Congruent(s - t);
    WrappedTerm(sum - s * x, s - t, Wrap64(s - t), x);
    Distribute(s, t, x);
    Distribute(Wrap64(s - t), s, x);
  }

  lemma {:induction false} EntryRemoved(w: nat, vars: Variables, i: nat)
    requires i < |vars|
    ensures SumShrinks(w, vars, vars[i].v, vars[i].scale, Without(vars, i))
  {
    hide Sum, Without, Eval, Congruent;
    forall env
      ensures Congruent(WORD, Sum(vars, w, env) - vars[i].scale * Eval(vars[i].v, w, env),
                        Sum(Without(vars, i), w, env))
    {
      SumWithout(vars, i, w, env);
      CongruentBy(WORD, Sum(Without(vars, i), w, env), Sum(Without(vars, i), w, env), 0);
    }
  }

  lemma {:induction false} EntryAppended(w: nat, vars: Variables, v: Expr, scale: int)
    ensures SumShrinks(w, vars, v, scale, vars + [VariableGEPIndex(v, Wrap64(-scale))])
  {
    forall env
      ensures Congruent(WORD, Sum(vars, w, env) - scale * Eval(v, w, env),
                        Sum(vars + [VariableGEPIndex(v, Wrap64(-scale))], w, env))
    {
      SumAppend(vars, VariableGEPIndex(v, Wrap64(-scale)), w, env);
      NegatedTerm(Sum(vars, w, env), scale, Eval(v, w, env));
    }
  }

  lemma {:induction false} NegatedTerm(sum: int, s: int, x: int)
    ensures Congruent(WORD, sum - s * x, sum + Wrap64(-s) * x)
  {
    Wrap64Congruent(-s);
    WrappedTerm(sum, -s, Wrap64(-s), x);
    Distribute(0, s, x);
  }

  /** What is left of a variable's scales when one more is taken off. */
  function Less(scales: seq<int>, s: int, known: bool): seq<int> {
    if !known || scales == [] then scales + [Wrap64(-s)] else Term(Wrap64(scales[0] - s)) + scales[1..]
  }

  /** The entry is taken off its variable's scales, and off nothing else. */
  ghost predicate Subtracted(dest0: Variables, entry: VariableGEPIndex, same: SameValue, dest: Variables) {
    forall v :: Scales(dest, v) ==
      if v == entry.v then Less(Scales(dest0, v), entry.scale, same(v, v)) else Scales(dest0, v)
  }

  lemma {:induction false} AppendedSubtracted(dest0: Variables, entry: VariableGEPIndex, same: SameValue)
    requires Scales(dest0, entry.v) == [] || !same(entry.v, entry.v)
    ensures Subtracted(dest0, entry, same, dest0 + [VariableGEPIndex(entry.v, Wrap64(-entry.scale))])
  {
    hide Wrap64, Scales;
    forall v
      ensures Scales(dest0 + [VariableGEPIndex(entry.v, Wrap64(-entry.scale))], v) ==
        if v == entry.v then Less(Scales(dest0, v), entry.scale, same(v, v)) else Scales(dest0, v)
    {
      ScalesAppend(dest0, VariableGEPIndex(entry.v, Wrap64(-entry.scale)), v);
    }
  }

  /** Two signed words differ by a multiple of 2^64 only if they are the same. */
  lemma {:induction false} ZeroDifference(s: int, t: int)
    requires -HALF_WORD <= s < HALF_WORD && -HALF_WORD <= t < HALF_WORD
    ensures Wrap64(s - t) == 0 <==> s == t
  {
  }

  lemma {:induction false} NothingLeft(s: int)
    ensures Wrap64(s - s) == 0
  {
  }

  lemma {:induction false} RemovedSubtracted(dest0: Variables, j: nat, entry: VariableGEPIndex, same: SameValue)
    requires j < |dest0| && dest0[j] == entry && forall k :: 0 <= k < j ==> dest0[k].v != entry.v
    requires same(entry.v, entry.v)
    ensures Subtracted(dest0, entry, same, Without(dest0, j))
  {
    hide Wrap64, Scales, Without;
    NothingLeft(entry.scale);
    forall v
      ensures Scales(Without(dest0, j), v) ==
        if v == entry.v then Less(Scales(dest0, v), entry.scale, same(v, v)) else Scales(dest0, v)
    {
      ScalesWithout(dest0, j, v);
    }
  }

  /** Giving a variable's first entry another scale. */
  lemma {:induction false} ScalesReplaced(vars: Variables, i: nat, s: int, v: Expr)
    requires i < |vars| && forall k :: 0 <= k < i ==> vars[k].v != vars[i].v
    ensures var r := vars[i := VariableGEPIndex(vars[i].v, s)];
      && (v != vars[i].v ==> Scales(r, v) == Scales(vars, v))
      && (v == vars[i].v ==> Scales(vars, v) != [] && Scales(r, v) == [s] + Scales(vars, v)[1..])
  {
    var r := vars[i := VariableGEPIndex(vars[i].v, s)];
    ScalesWithout(vars, i, v);
    ScalesWithout(r, i, v);
    assert Without(r, i) == Without(vars, i);
  }

  lemma {:induction false} ReplacedSubtracted(dest0: Variables, j: nat, entry: VariableGEPIndex, same: SameValue)
    requires j < |dest0| && dest0[j].v == entry.v && forall k :: 0 <= k < j ==> dest0[k].v != entry.v
    requires same(entry.v, entry.v) && dest0[j].scale != entry.scale
    requires -HALF_WORD <= dest0[j].scale < HALF_WORD && -HALF_WORD <= entry.scale < HALF_WORD
    ensures Subtracted(dest0, entry, same,
                       dest0[j := VariableGEPIndex(entry.v, Wrap64(dest0[j].scale - entry.scale))])
  {
    var s := Wrap64(dest0[j].scale - entry.scale);
    ZeroDifference(dest0[j].scale, entry.scale);
    hide Wrap64, Scales, Without;
    forall v
      ensures Scales(dest0[j := VariableGEPIndex(entry.v, s)], v) ==
        if v == entry.v then Less(Scales(dest0, v), entry.scale, same(v, v)) else Scales(dest0, v)
    {
      ScalesReplaced(dest0, j, s, v);
      ScalesWithout(dest0, j, v);
      if v == entry.v {
        assert Scales(dest0, v)[0] == dest0[j].scale && Term(s) == [s];
      }
    }
  }

  /** Takes one entry off the list. */
  method SubtractIndex(dest0: Variables, entry: VariableGEPIndex, w: nat, same: SameValue) returns (dest: Variables)
    requires SameRight(same) && SignedWords(dest0) && NoZeroScale(dest0)
    requires entry.scale != 0 && -HALF_WORD <= entry.scale < HALF_WORD
    ensures SignedWords(dest) && NoZeroScale(dest) && SumShrinks(w, dest0, entry.v, entry.scale, dest)
    ensures Subtracted(dest0, entry, same, dest)
  {
    hide SumShrinks, Subtracted, Wrap64;
    dest := dest0;
    var scale := entry.scale;
    var j := FindSame(dest, entry.v, same);
    if j < |dest| {
      if dest[j].scale != scale {
        EntryReduced(w, dest, j, scale);
        ReplacedSubtracted(dest, j, entry, same);
        ZeroDifference(dest[j].scale, scale);
        dest := dest[j := VariableGEPIndex(dest[j].v, Wrap64(dest[j].scale - scale))];
      } else {
        EntryRemoved(w, dest, j);
        RemovedSubtracted(dest, j, entry, same);
        dest := Without(dest, j);
      }
      scale := 0;
    }
    if scale != 0 {
      EntryAppended(w, dest, entry.v, scale);
      AppendedSubtracted(dest, entry, same);
      ZeroDifference(0, scale);
      dest := dest + [VariableGEPIndex(entry.v, Wrap64(-scale))];
    }
  }

  /** The first entry for a value that is known to be the same. */
  method FindSame(vars: Variables, v: Expr, same: SameValue) returns (j: nat)
    requires SameRight(same)
    ensures j <= |vars| && (j < |vars| ==> vars[j].v == v && same(v, v))
    ensures forall k :: 0 <= k < j ==> vars[k].v != v || !same(v, v)
    ensures j == |vars| ==> Scales(vars, v) == [] || !same(v, v)
  {
    j := 0;
    while j < |vars| && !same(vars[j].v, v)
      invariant j <= |vars| && forall k :: 0 <= k < j ==> !same(vars[k].v, v)
    {
      j := j + 1;
    }
    if j == |vars| && same(v, v) {
      ScalesNone(vars, v);
    }
  }

  /** `r` is worth the difference of the two lists. */
  ghost predicate SumDiffers(w: nat, dest: Variables, src: Variables, r: Variables) {
    forall env :: Congruent(WORD, Sum(dest, w, env) - Sum(src, w, env), Sum(r, w, env))
  }

  lemma {:induction false} SumDiffersMore(w: nat, dest: Variables, src: Variables, r: Variables, r': Variables)
    requires src != [] && SumDiffers(w, dest, src[..|src| - 1], r)
    requires SumShrinks(w, r, src[|src| - 1].v, src[|src| - 1].scale, r')
    ensures SumDiffers(w, dest, src, r')
  {
    var init, last := src[..|src| - 1], src[|src| - 1];
    forall env
      ensures Congruent(WORD, Sum(dest, w, env) - Sum(src, w, env), Sum(r', w, env))
    {
      MoreDiffers(Sum(dest, w, env), Sum(init, w, env), Sum(r, w, env), last.scale * Eval(last.v, w, env),
                  Sum(r', w, env));
    }
  }

  lemma {:induction false} SumDiffersNone(w: nat, dest: Variables)
    ensures SumDiffers(w, dest, [], dest)
  {
  }

  lemma {:induction false} MoreDiffers(dest: int, src: int, r: int, x: int, r': int)
    requires Congruent(WORD, dest - src, r) && Congruent(WORD, r - x, r')
    ensures Congruent(WORD, dest - (src + x), r')
  {
  }

  /** All of a variable's scales taken off, one after the other. */
  function LessAll(scales: seq<int>, less: seq<int>, known: bool): seq<int> {
    if less == [] then scales else Less(LessAll(scales, less[..|less| - 1], known), less[|less| - 1], known)
  }

  ghost predicate AllSubtracted(dest0: Variables, src: Variables, same: SameValue, dest: Variables) {
    forall v :: Scales(dest, v) == LessAll(Scales(dest0, v), Scales(src, v), same(v, v))
  }

  lemma {:induction false} NoneSubtracted(dest0: Variables, same: SameValue)
    ensures AllSubtracted(dest0, [], same, dest0)
  {
  }

  lemma {:induction false} OneMoreSubtracted(dest0: Variables, src: Variables, same: SameValue, r: Variables,
                                             r': Variables)
    requires src != [] && AllSubtracted(dest0, src[..|src| - 1], same, r)
    requires Subtracted(r, src[|src| - 1], same, r')
    ensures AllSubtracted(dest0, src, same, r')
  {
    var init, last := src[..|src| - 1], src[|src| - 1];
    forall v
      ensures Scales(r', v) == LessAll(Scales(dest0, v), Scales(src, v), same(v, v))
    {
      if v == last.v {
        assert Scales(src, v) == Scales(init, v) + [last.scale];
        assert Scales(src, v)[..|Scales(src, v)| - 1] == Scales(init, v);
      } else {
        assert Scales(src, v) == Scales(init, v);
      }
    }
  }

  /** The only scale, or zero. */
  function ScaleIn(scales: seq<int>): int {
    if scales == [] then 0 else scales[0]
  }

  /** A variable known to be the same in both lists is left with the difference. */
  lemma {:induction false} DifferenceLeft(scales: seq<int>, less: seq<int>)
    requires |scales| <= 1 && |less| <= 1
    requires forall k :: 0 <= k < |scales| ==> scales[k] != 0 && -HALF_WORD <= scales[k] < HALF_WORD
    requires forall k :: 0 <= k < |less| ==> less[k] != 0 && -HALF_WORD <= less[k] < HALF_WORD
    ensures LessAll(scales, less, true) == Term(Wrap64(ScaleIn(scales) - ScaleIn(less)))
  {
    if less != [] {
      assert LessAll(scales, less[..0], true) == scales;
      ZeroDifference(0, less[0]);
    }
  }

  lemma {:induction false} ScalesWords(vars: Variables, v: Expr)
    requires SignedWords(vars) && NoZeroScale(vars)
    ensures forall k :: 0 <= k < |Scales(vars, v)| ==>
      Scales(vars, v)[k] != 0 && -HALF_WORD <= Scales(vars, v)[k] < HALF_WORD
    decreases |vars|
  {
    if vars != [] {
      ScalesWords(vars[..|vars| - 1], v);
    }
  }

  /** With no repeats, and every value known to be itself: the list has each variable with
      the difference of its scales, once, and not at all if that is zero. */
  ghost predicate Differences(dest0: Variables, src: Variables, same: SameValue, dest: Variables) {
    forall v :: same(v, v) ==> Scales(dest, v) == Term(Wrap64(ScaleIn(Scales(dest0, v)) - ScaleIn(Scales(src, v))))
  }

  lemma {:induction false} DifferencesLeft(dest0: Variables, src: Variables, same: SameValue, dest: Variables)
    requires SignedWords(dest0) && NoZeroScale(dest0) && NoRepeats(dest0)
    requires SignedWords(src) && NoZeroScale(src) && NoRepeats(src)
    requires AllSubtracted(dest0, src, same, dest)
    ensures Differences(dest0, src, same, dest)
    ensures KnowsAll(same) ==> NoRepeats(dest)
  {
    forall v | same(v, v)
      ensures Scales(dest, v) == Term(Wrap64(ScaleIn(Scales(dest0, v)) - ScaleIn(Scales(src, v))))
    {
      ScalesOnce(dest0, v);
      ScalesOnce(src, v);
      ScalesWords(dest0, v);
      ScalesWords(src, v);
      DifferenceLeft(Scales(dest0, v), Scales(src, v));
    }
    if KnowsAll(same) {
      OnceEach(dest);
    }
  }

  /** No value is in a cycle, so each is known to be itself. */
  ghost predicate KnowsAll(same: SameValue) {
    forall v :: same(v, v)
  }

  /** The variables of one address less those of another. */
  method GetIndexDifference(dest0: Variables, src: Variables, w: nat, same: SameValue) returns (dest: Variables)
    requires SameRight(same)
    requires SignedWords(dest0) && NoZeroScale(dest0) && SignedWords(src) && NoZeroScale(src)
    ensures SumDiffers(w, dest0, src, dest) && SignedWords(dest) && NoZeroScale(dest)
    ensures AllSubtracted(dest0, src, same, dest)
    ensures NoRepeats(dest0) && NoRepeats(src) ==>
      Differences(dest0, src, same, dest) && (KnowsAll(same) ==> NoRepeats(dest))
  {
    hide SumDiffers, SumShrinks, Subtracted, AllSubtracted, SameRight, Differences, KnowsAll, NoRepeats;
    dest := dest0;
    NoneSubtracted(dest0, same);
    SumDiffersNone(w, dest0);
    for i := 0 to |src|
      invariant SumDiffers(w, dest0, src[..i], dest) && SignedWords(dest) && NoZeroScale(dest)
      invariant AllSubtracted(dest0, src[..i], same, dest)
    {
      ghost var r := dest;
      dest := SubtractIndex(dest, src[i], w, same);
      assert src[..i + 1][..i] == src[..i];
      SumDiffersMore(w, dest0, src[..i + 1], r, dest);
      OneMoreSubtracted(dest0, src[..i + 1], same, r, dest);
    }
    assert src[..|src|] == src;
    if NoRepeats(dest0) && NoRepeats(src) {
      DifferencesLeft(dest0, src, same, dest);
    }
  }

  /** No byte in common, whatever the variables are. */
  ghost predicate AlwaysDisjoint(w: nat, offs: int, vars: Variables, size1: nat, size2: nat) {
    forall env :: Disjoint(offs + Sum(vars, w, env), size1, size2)
  }
}
