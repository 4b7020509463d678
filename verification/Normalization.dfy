/** The successors of a block being collected, and brought down to 32-bit weights. */
module Normalization {
  import opened Words
  import opened CombiningWeights

  // ----- shifting -----

  function ShiftRightAndRound(n: nat, shift: nat): nat {
    if shift == 0 then n else Quotient(n, Pow2(shift)) + Quotient(n, Pow2(shift - 1)) % 2
  }

  lemma {:induction false} HalvedQuotient(n: nat, h: nat)
    requires h > 0
    ensures (n + h) / (2 * h) == n / (2 * h) + (n / h) % 2
  {
    var q, r := n / h, n % h;
    var p := q / 2;
    assert n == q * h + r;
    Associate(p, 2, h);
    if q % 2 == 0 {
      assert q == p * 2;
      DivisionUnique(n, 2 * h, p, r);
      DivisionUnique(n + h, 2 * h, p, h + r);
    } else {
      assert q == p * 2 + 1;
      Distribute(p * 2, 1, h);
      Distribute(p, 1, 2 * h);
      DivisionUnique(n, 2 * h, p, h + r);
      DivisionUnique(n + h, 2 * h, p + 1, r);
    }
  }

  /** It rounds to nearest, halves up. */
  lemma {:induction false} RoundsHalfUp(n: nat, shift: nat)
    requires shift > 0
    ensures ShiftRightAndRound(n, shift) == (n + Pow2(shift - 1)) / Pow2(shift)
  {
    HalvedQuotient(n, Pow2(shift - 1));
  }

  function Amount(n: nat, shift: nat): nat {
    if ShiftRightAndRound(n, shift) > 1 then ShiftRightAndRound(n, shift) else 1
  }

  lemma {:induction false} QuotientNear(n: nat, m: nat)
    requires m > 0
    ensures (n / m) * m <= n < (n / m) * m + m
  {
  }

  lemma {:induction false} RoundedNear(n: nat, shift: nat)
    ensures var m, q := Pow2(shift), ShiftRightAndRound(n, shift);
      n < q * m + m && q * m <= n + m
  {
    if shift > 0 {
      RoundsHalfUp(n, shift);
      QuotientNear(n + Pow2(shift - 1), Pow2(shift));
    }
  }

  /** Scaling down is off by at most one, and is never down to nothing. */
  lemma {:induction false} AmountNear(n: nat, shift: nat)
    ensures Amount(n, shift) >= 1
    ensures Amount(n, shift) * Pow2(shift) <= n + Pow2(shift)
    ensures n < Amount(n, shift) * Pow2(shift) + Pow2(shift)
  {
    RoundedNear(n, shift);
  }

  // ----- totals -----

  /** What the weights to the targets of `r` come to. */
  function TotalToAll(ws: Weights, r: Weights): nat {
    if r == [] then 0 else TotalToAll(ws, r[..|r| - 1]) + TotalTo(ws, r[|r| - 1].target)
  }

  lemma {:induction false} TotalToAllAppend(ws: Weights, w: Weight, r: Weights)
    requires Distinct(r)
    ensures TotalToAll(ws + [w], r) == TotalToAll(ws, r) + (if HasTarget(r, w.target) then w.amount else 0)
    decreases |r|
  {
    if r != [] {
      var n := |r| - 1;
      TotalToAllAppend(ws, w, r[..n]);
      TotalToAppend(ws, w, r[n].target);
      if HasTarget(r, w.target) {
        var i :| 0 <= i < |r| && r[i].target == w.target;
        assert i < n ==> r[..n][i].target == w.target;
      }
      if HasTarget(r[..n], w.target) {
        var i :| 0 <= i < n && r[..n][i].target == w.target;
        assert r[i].target == w.target;
      }
    }
  }

  lemma {:induction false} TotalToNothing(r: Weights)
    ensures TotalToAll([], r) == 0
    decreases |r|
  {
    if r != [] {
      TotalToNothing(r[..|r| - 1]);
    }
  }

  ghost predicate Covers(r: Weights, ws: Weights) {
    forall i :: 0 <= i < |ws| ==> HasTarget(r, ws[i].target)
  }

  lemma {:induction false} TotalSplits(ws: Weights, r: Weights)
    requires Distinct(r) && Covers(r, ws)
    ensures TotalToAll(ws, r) == Total(ws)
    decreases |ws|
  {
    if ws == [] {
      TotalToNothing(r);
    } else {
      var n := |ws| - 1;
      TotalSplits(ws[..n], r);
      TotalToAllAppend(ws[..n], ws[n], r);
      assert ws == ws[..n] + [ws[n]];
    }
  }

  lemma {:induction false} TotalToLimit(ws: Weights, t: nat)
    ensures TotalTo(ws, t) <= Total(ws)
    decreases |ws|
  {
    if ws != [] {
      TotalToLimit(ws[..|ws| - 1], t);
    }
  }

  lemma {:induction false} SaturatedTotals(ws: Weights, r: Weights)
    requires forall i :: 0 <= i < |r| ==> Merged(ws, r[i])
    ensures Total(r) <= TotalToAll(ws, r)
    ensures Total(ws) <= UINT64_MAX ==> Total(r) == TotalToAll(ws, r)
    decreases |r|
  {
    if r != [] {
      var n := |r| - 1;
      assert Merged(ws, r[n]);
      SaturatedTotals(ws, r[..n]);
      TotalToLimit(ws, r[n].target);
    }
  }

  /** Combining loses weight only to saturation. */
  lemma {:induction false} CombinedTotal(ws: Weights, r: Weights)
    requires Combines(ws, r)
    ensures Total(r) <= Total(ws)
    ensures Total(ws) <= UINT64_MAX ==> Total(r) == Total(ws)
  {
    TotalSplits(ws, r);
    SaturatedTotals(ws, r);
  }

  lemma {:induction false} CombinedPositive(ws: Weights, r: Weights)
    requires Combines(ws, r) && Positive(ws)
    ensures Positive(r)
  {
    forall i | 0 <= i < |r|
      ensures 0 < r[i].amount <= UINT64_MAX
    {
      assert Merged(ws, r[i]);
      TotalToSome(ws, r[i].target);
    }
  }

  // ----- scaling a whole distribution -----

  /** `r` is `ws` scaled down. */
  ghost predicate ShrinksTo(ws: Weights, shift: nat, r: Weights) {
    |r| == |ws| && forall i :: 0 <= i < |ws| ==> r[i] == ws[i].(amount := Amount(ws[i].amount, shift))
  }

  lemma {:induction false} ShrunkTotal(ws: Weights, shift: nat, r: Weights)
    requires ShrinksTo(ws, shift, r)
    ensures |ws| <= Total(r)
    ensures Total(r) * Pow2(shift) <= Total(ws) + |ws| * Pow2(shift)
    decreases |ws|
  {
    var m := Pow2(shift);
    if ws != [] {
      var n := |ws| - 1;
      ShrunkTotal(ws[..n], shift, r[..n]);
      AmountNear(ws[n].amount, shift);
      Distribute(Total(r[..n]), r[n].amount, m);
      Distribute(n, 1, m);
    }
  }

  /** How many bits a number takes. */
  function BitLength(x: nat): nat {
    if x == 0 then 0 else 1 + BitLength(x / 2)
  }

  lemma {:induction false} BitLengthBounds(x: nat)
    ensures x < Pow2(BitLength(x))
    ensures x > 0 ==> BitLength(x) > 0 && Pow2(BitLength(x) - 1) <= x
  {
    if x > 1 {
      BitLengthBounds(x / 2);
    }
  }

  lemma {:induction false} BitLengthAtLeast(x: nat, k: nat)
    requires x >= Pow2(k)
    ensures BitLength(x) > k
  {
    BitLengthBounds(x);
    if BitLength(x) <= k {
      Pow2Monotonic(BitLength(x), k);
    }
  }

  function CountLeadingZeros(x: nat): int {
    64 - BitLength(x)
  }

  lemma {:induction false} Pow31(k: nat)
    requires k == 31
    ensures Pow2(k - 1) == 0x4000_0000 && Pow2(k) == 0x8000_0000 && Pow2(k + 1) == UINT32_MAX + 1 &&
            Pow2(k + 2) == 0x2_0000_0000
  {
    assert Pow2(7) == 0x80;
    assert Pow2(8) == 0x100;
    Pow2Add(7, 8);
    Pow2Add(8, 8);
    Pow2Add(15, 16);
  }

  /** Shifting by 33 less the leading zeros leaves just 31 bits. */
  lemma {:induction false} ShiftFits(total: nat) returns (shift: nat)
    requires UINT32_MAX < total <= UINT64_MAX
    ensures shift == 33 - CountLeadingZeros(total) && 2 <= shift
    ensures 0x4000_0000 * Pow2(shift) <= total < 0x8000_0000 * Pow2(shift)
  {
    var k: nat := 31;
    Pow31(k);
    BitLengthAtLeast(total, k + 1);
    BitLengthBounds(total);
    shift := BitLength(total) - k;
    Pow2Add(k, shift);
    Pow2Add(k - 1, shift);
  }

  /** Room for rounding up: at most 2^31 weights, or on overflow a sum that leaves
      2^33 for each weight. */
  predicate Fits(total: nat, count: nat) {
    if total <= UINT64_MAX then count <= 0x8000_0000
    else total + count * 0x2_0000_0000 <= UINT32_MAX * 0x2_0000_0000
  }

  lemma {:induction false} Below31(total: nat, m: nat, s: nat, n: nat)
    requires m > 0 && total * m <= s + n * m && s < 0x8000_0000 * m && n <= 0x8000_0000
    ensures total <= UINT32_MAX
  {
    Distribute(total, n, m);
    Distribute(total - n, 0x8000_0000, m);
    if total - n >= 0x8000_0000 {
      ProductAtLeastZero(total - n - 0x8000_0000, m);
    }
  }

  lemma {:induction false} Below32(total: nat, s: nat, n: nat)
    requires total * 0x2_0000_0000 <= s + n * 0x2_0000_0000 && s + n * 0x2_0000_0000 <= UINT32_MAX * 0x2_0000_0000
    ensures total <= UINT32_MAX
  {
  }

  lemma {:induction false} ShrunkFits(ws: Weights, shift: nat, r: Weights, total: nat)
    requires ShrinksTo(ws, shift, r) && Total(ws) <= total && Fits(total, |ws|)
    requires total <= UINT64_MAX ==> total < 0x8000_0000 * Pow2(shift)
    requires total > UINT64_MAX ==> shift == 33
    ensures Total(r) <= UINT32_MAX
  {
    var m := Pow2(shift);
    ShrunkTotal(ws, shift, r);
    if total <= UINT64_MAX {
      Below31(Total(r), m, Total(ws), |ws|);
    } else {
      var k: nat := 31;
      Pow31(k);
      assert m == 0x2_0000_0000;
      Below32(Total(r), total, |ws|);
    }
  }

  // ----- what normalizing means -----

  ghost predicate AtLeastOne(ws: Weights) {
    forall i :: 0 <= i < |ws| ==> 1 <= ws[i].amount
  }

  /** By how many bits the total is too large: one more than brings it down to 32, so
      that just 31 are left, or 33 if 64 bits did not hold it. */
  ghost predicate ShiftRight(total: nat, shift: nat) {
    && (shift == 0 <==> total <= UINT32_MAX)
    && (UINT32_MAX < total <= UINT64_MAX ==> 0x4000_0000 * Pow2(shift) <= total < 0x8000_0000 * Pow2(shift))
    && (total > UINT64_MAX ==> shift == 33)
  }

  lemma {:induction false} ShiftGrows(a: nat, b: nat)
    requires a < b
    ensures 0x8000_0000 * Pow2(a) <= 0x4000_0000 * Pow2(b)
  {
    Pow2Monotonic(a + 1, b);
  }

  /** There is but one such shift. */
  lemma {:induction false} ShiftUnique(total: nat, a: nat, b: nat)
    requires ShiftRight(total, a) && ShiftRight(total, b)
    ensures a == b
  {
    if UINT32_MAX < total <= UINT64_MAX {
      if a < b {
        ShiftGrows(a, b);
      } else if b < a {
        ShiftGrows(b, a);
      }
    }
  }

  /** `r` is `ws` with one weight for each target, scaled down to fit 32 bits, none
      to nothing; `total` is its total. */
  ghost predicate Normalized(ws: Weights, combined: Weights, shift: nat, r: Weights, total: nat) {
    && Combines(ws, combined) && ShiftRight(Total(ws), shift)
    && (|combined| == 1 ==> r == [combined[0].(amount := 1)])
    && (|combined| != 1 ==> ShrinksTo(combined, shift, r))
    && AtLeastOne(r) && total == Total(r)
    && (Fits(Total(ws), |combined|) ==> total <= UINT32_MAX)
  }

  lemma {:induction false} NormalizedSingle(ws: Weights, combined: Weights, shift: nat)
    requires Combines(ws, combined) && ShiftRight(Total(ws), shift) && |combined| == 1
    ensures Normalized(ws, combined, shift, [combined[0].(amount := 1)], 1)
  {
    assert [combined[0].(amount := 1)][..0] == [];
  }

  lemma {:induction false} NormalizedAsIs(ws: Weights, combined: Weights)
    requires Combines(ws, combined) && Positive(ws) && Total(ws) <= UINT32_MAX && |combined| != 1
    ensures Normalized(ws, combined, 0, combined, Total(ws))
  {
    CombinedTotal(ws, combined);
    CombinedPositive(ws, combined);
    forall i | 0 <= i < |combined|
      ensures combined[i] == combined[i].(amount := Amount(combined[i].amount, 0))
    {
      assert 0 < combined[i].amount;
    }
  }

  lemma {:induction false} NormalizedShrunk(ws: Weights, combined: Weights, shift: nat, r: Weights)
    requires Combines(ws, combined) && ShiftRight(Total(ws), shift) && shift > 0 && |combined| != 1
    requires ShrinksTo(combined, shift, r)
    ensures Normalized(ws, combined, shift, r, Total(r))
  {
    CombinedTotal(ws, combined);
    if Fits(Total(ws), |combined|) {
      ShrunkFits(combined, shift, r, Total(ws));
    }
    forall i | 0 <= i < |r|
      ensures 1 <= r[i].amount
    {
      AmountNear(combined[i].amount, shift);
    }
  }

  /** One weight for each target of the original. */
  lemma {:induction false} NormalizedDistinct(ws: Weights, combined: Weights, shift: nat, r: Weights, total: nat)
    requires Normalized(ws, combined, shift, r, total)
    ensures Distinct(r) && forall t: nat :: HasTarget(r, t) <==> HasTarget(ws, t)
  {
    forall t: nat
      ensures HasTarget(r, t) <==> HasTarget(ws, t)
    {
      if HasTarget(r, t) {
        var i :| 0 <= i < |r| && r[i].target == t;
        assert Merged(ws, combined[i]);
      }
      if HasTarget(ws, t) {
        var i :| 0 <= i < |ws| && ws[i].target == t;
        var j :| 0 <= j < |combined| && combined[j].target == t;
        assert r[j].target == t;
      }
    }
  }

  // ----- the distribution -----

  /** The sum in 64 bits is less than a summand exactly if it overflowed. */
  lemma {:induction false} WrappedAdd(sum: int, total: int, amount: int)
    requires 0 <= sum < 2 * (UINT64_MAX + 1) && total == sum % (UINT64_MAX + 1) && 0 < amount <= UINT64_MAX
    requires sum > UINT64_MAX ==> total + amount <= UINT64_MAX
    ensures sum + amount < 2 * (UINT64_MAX + 1)
    ensures (total + amount) % (UINT64_MAX + 1) == (sum + amount) % (UINT64_MAX + 1)
    ensures sum > UINT64_MAX || (total + amount) % (UINT64_MAX + 1) < total <==> sum + amount > UINT64_MAX
  {
  }

  class Distribution {
    var weights: Weights
    var total: nat
    var didOverflow: bool

    /** The total is that of the weights, with the one overflow noted. */
    ghost predicate Valid()
      reads this
    {
      && Positive(weights) && Total(weights) < 2 * (UINT64_MAX + 1)
      && total == Total(weights) % (UINT64_MAX + 1) && (didOverflow <==> Total(weights) > UINT64_MAX)
    }

    constructor ()
      ensures Valid() && weights == []
    {
      weights, total, didOverflow := [], 0, false;
    }

    method Add(node: nat, amount: nat, kind: DistType)
      requires Valid() && 0 < amount <= UINT64_MAX
      requires didOverflow ==> total + amount <= UINT64_MAX
      modifies this
      ensures Valid() && weights == old(weights) + [Weight(kind, node, amount)]
    {
      var newTotal := (total + amount) % (UINT64_MAX + 1);
      var isOverflow := newTotal < total;
      didOverflow := didOverflow || isOverflow;
      total := newTotal;
      WrappedAdd(Total(weights), old(total), amount);
      TotalAppend(weights, Weight(kind, node, amount));
      weights := weights + [Weight(kind, node, amount)];
    }

    /** Leaves one weight for each target, shifted so that their sum is a 32-bit number. */
    method Normalize() returns (ghost combined: Weights, ghost shift: nat)
      requires Valid() && OneType(weights)
      modifies this
      ensures Normalized(old(weights), combined, shift, weights, total)
    {
      ghost var ws := weights;
      combined := weights;
      var needed := Shift();
      shift := needed;
      if weights == [] {
        DistinctCombines(weights);
        NormalizedAsIs(ws, combined);
        return;
      }
      if |weights| > 1 {
        weights := CombineWeights(weights);
      } else {
        DistinctCombines(weights);
      }
      combined := weights;
      if |weights| == 1 {
        NormalizedSingle(ws, combined, shift);
        total := 1;
        weights := [weights[0].(amount := 1)];
        return;
      }
      if needed == 0 {
        NormalizedAsIs(ws, combined);
        return;
      }
      ShrinkAll(needed);
      NormalizedShrunk(ws, combined, shift, weights);
    }

    /** The shift, from the total or from the overflow it had. */
    method Shift() returns (shift: nat)
      requires Valid()
      ensures ShiftRight(Total(weights), shift)
    {
      if didOverflow {
        shift := 33;
      } else if total > UINT32_MAX {
        ghost var s := ShiftFits(total);
        shift := 33 - CountLeadingZeros(total);
      } else {
        shift := 0;
      }
    }

    /** Scales every weight down by the shift, and takes the total anew. */
    method ShrinkAll(shift: nat)
      modifies this`weights, this`total
      ensures ShrinksTo(old(weights), shift, weights) && total == Total(weights)
    {
      ghost var ws := weights;
      total := 0;
      var i := 0;
      while i < |weights|
        invariant i <= |weights| == |ws| && total == Total(weights[..i])
        invariant forall k :: 0 <= k < i ==> weights[k] == ws[k].(amount := Amount(ws[k].amount, shift))
        invariant forall k :: i <= k < |ws| ==> weights[k] == ws[k]
      {
        ghost var done := weights[..i];
        weights := weights[i := weights[i].(amount := Amount(weights[i].amount, shift))];
        assert weights[..i + 1] == done + [weights[i]];
        TotalAppend(done, weights[i]);
        total := total + weights[i].amount;
        i := i + 1;
      }
      assert weights[..i] == weights;
    }
  }

  // ----- an overflow that does not fit -----

  lemma {:induction false} HalfOfWord(shift: nat)
    requires shift == 33
    ensures Amount(UINT64_MAX, shift) == 0x8000_0000
  {
    var k: nat := 31;
    Pow31(k);
    assert Pow2(shift) == 0x2_0000_0000 && Pow2(shift - 1) == UINT32_MAX + 1;
    RoundsHalfUp(UINT64_MAX, shift);
  }

  /** Full weights to different targets are combined with none. */
  lemma {:induction false} TwoCombined(ws: Weights, r: Weights)
    requires ws == [Weight(Local, 0, UINT64_MAX), Weight(Local, 1, UINT64_MAX)] && Combines(ws, r)
    ensures |r| == 2 && r[0].amount == UINT64_MAX && r[1].amount == UINT64_MAX
  {
    DistinctCombines(ws);
    CombinedAlike(ws, r, ws);
    assert r[0] in ws && r[1] in ws;
  }

  lemma {:induction false} TwoShrunk(ws: Weights, combined: Weights, shift: nat, r: Weights, total: nat)
    requires ws == [Weight(Local, 0, UINT64_MAX), Weight(Local, 1, UINT64_MAX)]
    requires Normalized(ws, combined, shift, r, total)
    ensures total == UINT32_MAX + 1
  {
    TwoCombined(ws, combined);
    assert ws[..1][..0] == [] && ws[..1] + [ws[1]] == ws;
    assert Total(ws[..1]) == UINT64_MAX;
    HalfOfWord(shift);
    assert r[..1][..0] == [];
    assert Total(r[..1]) == r[0].amount;
  }

  /** Two weights of 64 bits, added one after the other: the sum of the scaled ones is
      one more than 32 bits hold. */
  method OverflowTooLarge() returns (d: Distribution)
    ensures d.total == UINT32_MAX + 1
  {
    d := new Distribution();
    d.Add(0, UINT64_MAX, Local);
    d.Add(1, UINT64_MAX, Local);
    ghost var ws := d.weights;
    assert ws == [Weight(Local, 0, UINT64_MAX), Weight(Local, 1, UINT64_MAX)];
    ghost var combined, shift := d.Normalize();
    TwoShrunk(ws, combined, shift, d.weights, d.total);
  }
}
