/** Branch probabilities: blocks that lead to an unreachable end, and weights turned
    into probabilities that add up. */
module BranchWeights {
  import opened Words
  import opened Wrappers
  import opened Cfg
  import opened BranchProbability

  const UINT32_MAX: nat := 0xFFFF_FFFF
  const UR_TAKEN_WEIGHT: nat := 1
  const UR_NONTAKEN_WEIGHT: nat := 1024 * 1024 - 1
  const UR_TOTAL: nat := UR_TAKEN_WEIGHT + UR_NONTAKEN_WEIGHT

  datatype Kind = Plain | Unreachable | Invoke

  /** A function with how its blocks end; an invoke's first successor is its normal
      destination, and successors are counted in 32 bits. */
  ghost predicate Ok(f: Graph, kind: seq<Kind>) {
    && WellFormed(f) && |kind| == |f|
    && (forall b :: 0 <= b < |f| ==> |f[b]| <= UINT32_MAX)
    && (forall b :: 0 <= b < |f| && kind[b].Invoke? ==> |f[b]| == 2)
    && (forall b :: 0 <= b < |f| && kind[b].Unreachable? ==> f[b] == [])
  }

  /** The successors that are expected to be taken. */
  function Expected(f: Graph, kind: seq<Kind>, b: nat): seq<nat>
    requires b < |f| && |kind| == |f| && (kind[b].Invoke? ==> |f[b]| == 2)
  {
    if kind[b].Invoke? then [f[b][0]] else f[b]
  }

  // ----- leading to an unreachable end -----

  /** Every way on, taking expected edges, is over after at most `n` steps, in a block
      that ends in unreachable. */
  ghost predicate Doomed(f: Graph, kind: seq<Kind>, b: nat, n: nat)
    requires Ok(f, kind)
    decreases n, 0
  {
    b < |f| && (kind[b].Unreachable? || (n > 0 && f[b] != [] && AllDoomed(f, kind, Expected(f, kind, b), n - 1)))
  }

  ghost predicate AllDoomed(f: Graph, kind: seq<Kind>, bs: seq<nat>, n: nat)
    requires Ok(f, kind)
    decreases n, 1
  {
    forall i :: 0 <= i < |bs| ==> Doomed(f, kind, bs[i], n)
  }

  lemma {:induction false} DoomedLater(f: Graph, kind: seq<Kind>, b: nat, n: nat, m: nat)
    requires Ok(f, kind) && Doomed(f, kind, b, n) && n <= m
    ensures Doomed(f, kind, b, m)
    decreases n
  {
    if !kind[b].Unreachable? {
      var bs := Expected(f, kind, b);
      forall i | 0 <= i < |bs|
        ensures Doomed(f, kind, bs[i], m - 1)
      {
        DoomedLater(f, kind, bs[i], n - 1, m - 1);
      }
    }
  }

  /** What decides whether the block joins the set. */
  ghost predicate Joins(f: Graph, kind: seq<Kind>, b: nat, dead: set<nat>)
    requires Ok(f, kind) && b < |f|
  {
    kind[b].Unreachable? || (f[b] != [] && forall s :: s in Expected(f, kind, b) ==> s in dead)
  }

  /** The blocks so far, each doomed within its number of steps. */
  ghost predicate DeadOk(f: Graph, kind: seq<Kind>, dead: set<nat>, n: nat)
    requires Ok(f, kind)
  {
    forall b :: b in dead ==> Doomed(f, kind, b, n)
  }

  lemma {:induction false} DeadMore(f: Graph, kind: seq<Kind>, b: nat, dead: set<nat>, n: nat)
    requires Ok(f, kind) && b < |f| && DeadOk(f, kind, dead, n)
    ensures DeadOk(f, kind, if Joins(f, kind, b, dead) then dead + {b} else dead, n + 1)
  {
    forall c | c in dead
      ensures Doomed(f, kind, c, n + 1)
    {
      DoomedLater(f, kind, c, n, n + 1);
    }
    if Joins(f, kind, b, dead) && !kind[b].Unreachable? {
      var bs := Expected(f, kind, b);
      forall i | 0 <= i < |bs|
        ensures Doomed(f, kind, bs[i], n)
      {
        assert bs[i] in dead;
      }
      assert AllDoomed(f, kind, bs, n);
    }
  }

  // ----- the order -----

  predicate Before(order: seq<nat>, s: nat, b: nat) {
    exists i, j :: 0 <= i < j < |order| && order[i] == s && order[j] == b
  }

  predicate NoRepeat(order: seq<nat>) {
    forall i, j :: 0 <= i < j < |order| ==> order[i] != order[j]
  }

  /** In a depth-first post-order an edge leads to an earlier block, or back to one
      that leads here. */
  ghost predicate PostOrder(f: Graph, order: seq<nat>) {
    && NoRepeat(order)
    && (forall b, s :: b in order && b < |f| && s in f[b] ==> s in order && (Before(order, s, b) || Reach(f, s, b)))
  }

  /** From a doomed block, following edges only leads to blocks doomed sooner. */
  lemma {:induction false} DoomedAlong(f: Graph, kind: seq<Kind>, p: seq<nat>, n: nat, i: nat)
    requires Ok(f, kind) && NoInvokes(kind) && IsPath(f, p) && i < |p| && Doomed(f, kind, p[0], n)
    ensures i <= n && Doomed(f, kind, p[i], n - i)
    decreases i
  {
    if i > 0 {
      DoomedAlong(f, kind, p, n, i - 1);
      assert Hop(f, p, i - 1);
      var b := p[i - 1];
      assert Expected(f, kind, b) == f[b];
      var k :| 0 <= k < |f[b]| && f[b][k] == p[i];
    }
  }

  ghost predicate NoInvokes(kind: seq<Kind>) {
    forall b :: 0 <= b < |kind| ==> !kind[b].Invoke?
  }

  /** The fewest steps a doomed block takes. */
  lemma {:induction false} FewestSteps(f: Graph, kind: seq<Kind>, b: nat, n: nat) returns (m: nat)
    requires Ok(f, kind) && Doomed(f, kind, b, n)
    ensures Doomed(f, kind, b, m) && (m > 0 ==> !Doomed(f, kind, b, m - 1))
    decreases n
  {
    if n > 0 && Doomed(f, kind, b, n - 1) {
      m := FewestSteps(f, kind, b, n - 1);
    } else {
      m := n;
    }
  }

  /** A block doomed sooner leads to none that takes longer. */
  lemma {:induction false} NotBack(f: Graph, kind: seq<Kind>, s: nat, b: nat, m: nat)
    requires Ok(f, kind) && NoInvokes(kind) && Doomed(f, kind, s, m) && !Doomed(f, kind, b, m)
    ensures !Reach(f, s, b)
  {
    if Reach(f, s, b) {
      var p :| PathFrom(f, p, s, b);
      DoomedAlong(f, kind, p, m, |p| - 1);
      DoomedLater(f, kind, b, m - (|p| - 1), m);
    }
  }

  lemma {:induction false} DoomedNext(f: Graph, kind: seq<Kind>, b: nat, s: nat, n: nat)
    requires Ok(f, kind) && NoInvokes(kind) && b < |f| && s in f[b] && Doomed(f, kind, b, n)
    ensures n > 0 && Doomed(f, kind, s, n - 1)
  {
    assert Expected(f, kind, b) == f[b];
    var k :| 0 <= k < |f[b]| && f[b][k] == s;
    assert AllDoomed(f, kind, f[b], n - 1);
  }

  /** A doomed block is on no cycle: its successors come before it. */
  lemma {:induction false} DoomedSuccessor(f: Graph, kind: seq<Kind>, order: seq<nat>, b: nat, s: nat, n: nat)
    requires Ok(f, kind) && NoInvokes(kind) && PostOrder(f, order) && b in order && b < |f| && s in f[b]
    requires Doomed(f, kind, b, n)
    ensures Before(order, s, b) && n > 0 && Doomed(f, kind, s, n - 1)
  {
    DoomedNext(f, kind, b, s, n);
    var m := FewestSteps(f, kind, b, n);
    DoomedNext(f, kind, b, s, m);
    NotBack(f, kind, s, b, m - 1);
  }

  /** The doomed among the first `i` blocks are in the set. */
  ghost predicate Complete(f: Graph, kind: seq<Kind>, order: seq<nat>, i: nat, dead: set<nat>)
    requires Ok(f, kind) && i <= |order|
  {
    forall j, n :: 0 <= j < i && Doomed(f, kind, order[j], n) ==> order[j] in dead
  }

  lemma {:induction false} CompleteMore(f: Graph, kind: seq<Kind>, order: seq<nat>, i: nat, dead: set<nat>)
    requires Ok(f, kind) && NoInvokes(kind) && PostOrder(f, order) && i < |order| && order[i] < |f|
    requires Complete(f, kind, order, i, dead)
    ensures Complete(f, kind, order, i + 1, if Joins(f, kind, order[i], dead) then dead + {order[i]} else dead)
  {
    var b := order[i];
    if n: nat :| Doomed(f, kind, b, n) && !kind[b].Unreachable? {
      forall s | s in Expected(f, kind, b)
        ensures s in dead
      {
        DoomedSuccessor(f, kind, order, b, s, n);
        var j, k :| 0 <= j < k < |order| && order[j] == s && order[k] == b;
        assert k == i;
        assert Doomed(f, kind, order[j], n - 1);
      }
    }
  }

  // ----- probabilities that add up -----

  function Sum(ns: seq<nat>): nat {
    if ns == [] then 0 else Sum(ns[..|ns| - 1]) + ns[|ns| - 1]
  }

  lemma {:induction false} SumAppend(ns: seq<nat>, n: nat)
    ensures Sum(ns + [n]) == Sum(ns) + n
  {
    assert (ns + [n])[..|ns|] == ns;
  }

  /** Numerators over 2^31 whose sum is off one by at most half for each. */
  ghost predicate AddsUp(ns: seq<nat>) {
    2 * DENOMINATOR - |ns| <= 2 * Sum(ns) <= 2 * DENOMINATOR + |ns|
  }

  /** `ns` are the probabilities of `ws` out of `total`. */
  ghost predicate Shares(ws: seq<nat>, total: nat, ns: seq<nat>)
    requires total > 0
  {
    |ns| == |ws| && forall i :: 0 <= i < |ws| ==> ws[i] <= total && ns[i] == Numerator(ws[i], total)
  }

  lemma {:induction false} SharesNear(ws: seq<nat>, total: nat, ns: seq<nat>)
    requires total > 0 && Shares(ws, total, ns)
    ensures 2 * (Sum(ws) * DENOMINATOR) - |ws| * total <= 2 * (Sum(ns) * total)
         <= 2 * (Sum(ws) * DENOMINATOR) + |ws| * total
    decreases |ws|
  {
    if ws != [] {
      var n := |ws| - 1;
      SharesNear(ws[..n], total, ns[..n]);
      NumeratorNear(ws[n], total);
      Distribute(Sum(ws[..n]), ws[n], DENOMINATOR);
      Distribute(Sum(ns[..n]), ns[n], total);
      Distribute(n, 1, total);
    }
  }

  lemma {:induction false} Cancel(a: int, b: int, n: int, t: int)
    requires t > 0 && 2 * (b * t) - n * t <= 2 * (a * t) <= 2 * (b * t) + n * t
    ensures 2 * b - n <= 2 * a <= 2 * b + n
  {
    var u, v := 2 * a - 2 * b + n, 2 * b + n - 2 * a;
    assert u * t == 2 * (a * t) - 2 * (b * t) + n * t;
    assert v * t == 2 * (b * t) + n * t - 2 * (a * t);
    if u < 0 {
      MultipleAtLeast(t, -u);
    }
    if v < 0 {
      MultipleAtLeast(t, -v);
    }
  }

  /** Weights that are the whole total give probabilities that add up. */
  lemma {:induction false} SharesAddUp(ws: seq<nat>, total: nat, ns: seq<nat>)
    requires total > 0 && Shares(ws, total, ns) && Sum(ws) == total
    ensures AddsUp(ns)
  {
    SharesNear(ws, total, ns);
    Cancel(Sum(ns), DENOMINATOR, |ws|, total);
  }

  // ----- metadata weights -----

  function Scaled(ws: seq<nat>, factor: nat): (r: seq<nat>)
    requires factor > 0
    ensures |r| == |ws| && forall i :: 0 <= i < |ws| ==> r[i] == ws[i] / factor
  {
    if ws == [] then [] else Scaled(ws[..|ws| - 1], factor) + [ws[|ws| - 1] / factor]
  }

  lemma {:induction false} ScaledSum(ws: seq<nat>, factor: nat)
    requires factor > 0
    ensures Sum(ws) - |ws| * factor <= Sum(Scaled(ws, factor)) * factor <= Sum(ws)
    decreases |ws|
  {
    if ws != [] {
      var n := |ws| - 1;
      ScaledSum(ws[..n], factor);
      LastScaled(ws, factor);
      OneMoreQuotient(Sum(ws[..n]), ws[n], Sum(Scaled(ws[..n], factor)), Scaled(ws, factor)[n],
                      Sum(Scaled(ws, factor)), |ws[..n]|, |ws|, factor);
    }
  }

  lemma {:induction false} LastScaled(ws: seq<nat>, factor: nat)
    requires factor > 0 && ws != []
    ensures Sum(Scaled(ws, factor)) == Sum(Scaled(ws[..|ws| - 1], factor)) + Scaled(ws, factor)[|ws| - 1]
  {
    SumAppend(Scaled(ws[..|ws| - 1], factor), ws[|ws| - 1] / factor);
  }

  lemma {:induction false} OneMoreQuotient(sum: int, w: int, t: int, q: int, t': int, n: int, n': int, d: int)
    requires d > 0 && q == w / d && sum - n * d <= t * d <= sum && t' == t + q && n' == n + 1
    ensures sum + w - n' * d <= t' * d <= sum + w
  {
    assert w == q * d + w % d;
    Distribute(t, q, d);
    Distribute(n, 1, d);
  }

  function ScalingFactor(sum: nat): nat {
    if sum > UINT32_MAX then sum / UINT32_MAX + 1 else 1
  }

  /** The factor brings the sum down to 32 bits, and changes nothing if it fits. */
  lemma {:induction false} ScalesDown(ws: seq<nat>)
    ensures Sum(Scaled(ws, ScalingFactor(Sum(ws)))) <= UINT32_MAX
    ensures Sum(ws) <= UINT32_MAX ==> Scaled(ws, ScalingFactor(Sum(ws))) == ws
    ensures Sum(ws) > UINT32_MAX ==> UINT32_MAX - 2 * |ws| <= 2 * Sum(Scaled(ws, ScalingFactor(Sum(ws))))
  {
    var sum, factor := Sum(ws), ScalingFactor(Sum(ws));
    ScaledSum(ws, factor);
    if sum > UINT32_MAX {
      MuchLeft(sum, factor, Sum(Scaled(ws, factor)), |ws|);
    }
    var r := Sum(Scaled(ws, factor));
    if sum > UINT32_MAX && r > UINT32_MAX {
      Distribute(r, UINT32_MAX + 1, factor);
      ProductAtLeastZero(r - (UINT32_MAX + 1), factor);
    }
  }

  lemma {:induction false} SumParts(ws: seq<nat>, i: nat)
    requires i < |ws|
    ensures ws[i] <= Sum(ws)
    decreases |ws|
  {
    if i < |ws| - 1 {
      SumParts(ws[..|ws| - 1], i);
    }
  }

  lemma {:induction false} SumOnes(ws: seq<nat>)
    requires forall i :: 0 <= i < |ws| ==> ws[i] == 1
    ensures Sum(ws) == |ws|
    decreases |ws|
  {
    if ws != [] {
      SumOnes(ws[..|ws| - 1]);
    }
  }

  /** The same probability for each of `n` edges. */
  method Uniform(n: nat) returns (probs: seq<nat>)
    requires n > 0
    ensures |probs| == n && AddsUp(probs) && AllSame(probs)
  {
    probs := seq(n, _ => Numerator(1, n));
    ghost var ones := seq(n, _ => 1);
    SumOnes(ones);
    SharesAddUp(ones, n, probs);
  }

  method SumOf(ws: seq<nat>) returns (sum: nat)
    ensures sum == Sum(ws)
  {
    sum := 0;
    for i := 0 to |ws|
      invariant sum == Sum(ws[..i])
    {
      assert ws[..i + 1] == ws[..i] + [ws[i]];
      SumAppend(ws[..i], ws[i]);
      sum := sum + ws[i];
    }
    assert ws[..|ws|] == ws;
  }

  /** The shares of the weights divided by the scaling factor, or all the same if
      nothing is left of them. */
  ghost predicate ScaledShares(ws: seq<nat>, probs: seq<nat>) {
    && |probs| == |ws|
    && var scaled := Scaled(ws, ScalingFactor(Sum(ws)));
      if Sum(scaled) > 0 then Sum(scaled) <= UINT32_MAX && Shares(scaled, Sum(scaled), probs) else AllSame(probs)
  }

  ghost predicate AllSame(probs: seq<nat>) {
    forall i :: 0 <= i < |probs| ==> probs[i] == Numerator(1, |probs|)
  }

  /** Probability `p` is within 2 * `n` and a half units of `w` out of `sum`. */
  predicate Nearly(p: nat, w: nat, sum: nat, n: nat) {
    -((4 * n + 1) * sum) <= 2 * (p * sum) - 2 * (w * DENOMINATOR) <= (4 * n + 1) * sum
  }

  /** Probabilities in proportion to the weights: rounded to nearest if the weights sum
      to a 32-bit number, and up to a few units otherwise. */
  ghost predicate InProportion(ws: seq<nat>, probs: seq<nat>) {
    && |probs| == |ws|
    && if Sum(ws) == 0 then AllSame(probs)
       else if Sum(ws) <= UINT32_MAX then Shares(ws, Sum(ws), probs)
       else forall i :: 0 <= i < |ws| ==> Nearly(probs[i], ws[i], Sum(ws), |ws|)
  }

  lemma {:induction false} ScaledByOne(ws: seq<nat>)
    ensures Scaled(ws, 1) == ws
  {
  }

  /** `s` out of `t` against `w` out of `sum`, where `s` is `w` less `a` and `t` the sum
      less `b`, both divided by the factor. */
  lemma {:induction false} CrossProducts(w: int, sum: int, factor: int, s: int, t: int, a: int, b: int)
    requires s * factor == w - a && t * factor == sum - b
    ensures (s * sum - w * t) * factor == w * b - a * sum
  {
    Distribute(s * sum, w * t, factor);
    Swapped(s, sum, factor);
    Associate(w, t, factor);
    Distribute(w, a, sum);
    Distribute(sum, b, w);
  }

  lemma {:induction false} BetweenProducts(a: int, b: int, c: int)
    requires 0 <= a <= b && c >= 0
    ensures 0 <= a * c <= b * c
  {
    ProductAtLeastZero(a, c);
    ProductAtLeastZero(b - a, c);
    Distribute(b, a, c);
  }

  /** Cutting off is off by at most that many wholes. */
  lemma {:induction false} QuotientNear(w: int, sum: int, factor: int, s: int, t: int, n: int)
    requires factor > 0 && 0 <= w <= sum && n > 0
    requires w - factor <= s * factor <= w && sum - n * factor <= t * factor <= sum
    ensures -(n * sum) <= s * sum - w * t <= n * sum
  {
    var a, b, x := w - s * factor, sum - t * factor, s * sum - w * t;
    CrossProducts(w, sum, factor, s, t, a, b);
    AtMostWhole(a, factor, sum, n);
    AtMostParts(b, factor, w, sum, n);
    assert (-x) * factor == -(x * factor);
    AtMostTimes(x, n * sum, factor);
    AtMostTimes(-x, n * sum, factor);
  }

  lemma {:induction false} AtMostWhole(a: int, factor: int, sum: int, n: int)
    requires 0 <= a <= factor && sum >= 0 && n > 0
    ensures 0 <= a * sum <= (n * sum) * factor
  {
    BetweenProducts(a, factor, sum);
    ProductAtLeastZero(factor, sum);
    BetweenProducts(1, n, factor * sum);
    Associate(n, sum, factor);
  }

  lemma {:induction false} AtMostParts(b: int, factor: int, w: int, sum: int, n: int)
    requires 0 <= b <= n * factor && 0 <= w <= sum
    ensures 0 <= w * b <= (n * sum) * factor
  {
    BetweenProducts(b, n * factor, w);
    BetweenProducts(w, sum, n * factor);
    Swapped(n, factor, sum);
  }

  /** Half of a sum beyond 32 bits is left of it by the factor, less one for each weight. */
  lemma {:induction false} MuchLeft(sum: int, factor: int, t: int, n: int)
    requires sum > UINT32_MAX && factor == sum / UINT32_MAX + 1 && sum - n * factor <= t * factor
    ensures UINT32_MAX - 2 * n <= 2 * t
  {
    var q := sum / UINT32_MAX;
    assert sum == q * UINT32_MAX + sum % UINT32_MAX;
    assert 2 * sum >= factor * UINT32_MAX;
    Distribute(UINT32_MAX, 2 * n, factor);
    Associate(2, n, factor);
    Associate(2, t, factor);
    AtMostTimes(UINT32_MAX - 2 * n, 2 * t, factor);
  }

  /** A share of what is left, against that of the whole. */
  lemma {:induction false} ShareProducts(p: int, w: int, sum: int, s: int, t: int)
    ensures (2 * (p * sum) - 2 * (w * DENOMINATOR)) * t
         == (2 * (p * t) - 2 * (s * DENOMINATOR)) * sum + 2 * DENOMINATOR * (s * sum - w * t)
  {
    Distribute(2 * (p * sum), 2 * (w * DENOMINATOR), t);
    Distribute(2 * (p * t), 2 * (s * DENOMINATOR), sum);
    Swapped(p, sum, t);
    Swapped(w, DENOMINATOR, t);
    Swapped(s, DENOMINATOR, sum);
    Associate(2, p * sum, t);
    Associate(2, p * t, sum);
    Associate(2, w * DENOMINATOR, t);
    Associate(2, s * DENOMINATOR, sum);
  }

  /** Rounding a share of what is left. */
  lemma {:induction false} ShareNear(p: int, w: int, sum: int, s: int, t: int, n: int)
    requires sum > 0 && n > 0 && 4 * t >= 2 * DENOMINATOR
    requires -(n * sum) <= s * sum - w * t <= n * sum
    requires 2 * (s * DENOMINATOR) - t <= 2 * (p * t) <= 2 * (s * DENOMINATOR) + t
    ensures -((4 * n + 1) * sum) <= 2 * (p * sum) - 2 * (w * DENOMINATOR) <= (4 * n + 1) * sum
  {
    var x, e, d := 2 * (p * sum) - 2 * (w * DENOMINATOR), s * sum - w * t, 2 * (p * t) - 2 * (s * DENOMINATOR);
    ShareProducts(p, w, sum, s, t);
    RoundedAtMost(d, t, sum);
    ProductAtLeastZero(n, sum);
    BetweenProducts(2 * DENOMINATOR, 4 * t, n * sum);
    Bound(n, sum, t);
    assert (-x) * t == -(x * t);
    AtMostTimes(x, (4 * n + 1) * sum, t);
    AtMostTimes(-x, (4 * n + 1) * sum, t);
  }

  lemma {:induction false} RoundedAtMost(d: int, t: int, sum: int)
    requires -t <= d <= t && sum >= 0
    ensures -(t * sum) <= d * sum <= t * sum
  {
    BetweenProducts(t + d, 2 * t, sum);
    Distribute(t, d, sum);
    Associate(2, t, sum);
  }

  lemma {:induction false} Bound(n: int, sum: int, t: int)
    ensures ((4 * n + 1) * sum) * t == (4 * t) * (n * sum) + t * sum
  {
    Distribute(4 * n, 1, sum);
    Associate(4, n, sum);
    Distribute(4 * (n * sum), sum, t);
    Associate(4, n * sum, t);
    Associate(4, t, n * sum);
  }

  /** With this many edges a few units each are the whole. */
  lemma {:induction false} ManyNear(p: int, w: int, sum: int, n: int)
    requires 0 <= p <= DENOMINATOR && 0 <= w <= sum && 4 * n >= 2 * DENOMINATOR
    ensures -((4 * n + 1) * sum) <= 2 * (p * sum) - 2 * (w * DENOMINATOR) <= (4 * n + 1) * sum
  {
    BetweenProducts(p, DENOMINATOR, sum);
    BetweenProducts(2 * DENOMINATOR, 4 * n + 1, sum);
  }

  lemma {:induction false} OneNear(ws: seq<nat>, probs: seq<nat>, i: nat)
    requires ScaledShares(ws, probs) && i < |ws| && Sum(ws) > UINT32_MAX
    ensures Nearly(probs[i], ws[i], Sum(ws), |ws|)
  {
    var sum, factor := Sum(ws), ScalingFactor(Sum(ws));
    var scaled := Scaled(ws, factor);
    var t := Sum(scaled);
    ScaledSum(ws, factor);
    SumParts(ws, i);
    MuchLeft(sum, factor, t, |ws|);
    if |ws| < 0x4000_0000 {
      OneMoreQuotient(0, ws[i], 0, scaled[i], scaled[i], 0, 1, factor);
      QuotientNear(ws[i], sum, factor, scaled[i], t, |ws|);
      NumeratorNear(scaled[i], t);
      ShareNear(probs[i], ws[i], sum, scaled[i], t, |ws|);
    } else {
      NumeratorBound(if t > 0 then scaled[i] else 1, if t > 0 then t else |ws|);
      ManyNear(probs[i], ws[i], sum, |ws|);
    }
  }

  /** What dividing by the factor leaves is in proportion to the weights. */
  lemma {:induction false} ScaledInProportion(ws: seq<nat>, probs: seq<nat>)
    requires ScaledShares(ws, probs)
    ensures InProportion(ws, probs)
  {
    if Sum(ws) <= UINT32_MAX {
      ScaledByOne(ws);
    } else {
      forall i | 0 <= i < |ws|
        ensures Nearly(probs[i], ws[i], Sum(ws), |ws|)
      {
        OneNear(ws, probs, i);
      }
    }
  }

  /** Probabilities from explicit weights, one for each successor. */
  method CalcMetadataWeights(weights: seq<nat>) returns (probs: seq<nat>)
    requires |weights| > 1
    ensures InProportion(weights, probs) && ScaledShares(weights, probs) && AddsUp(probs)
  {
    var weightSum := SumOf(weights);
    var scalingFactor := ScalingFactor(weightSum);
    var scaled := Scaled(weights, scalingFactor);
    ScalesDown(weights);
    var total := SumOf(scaled);
    if total == 0 {
      probs := Uniform(|weights|);
    } else {
      probs := Portions(scaled, total);
      SharesAddUp(scaled, total, probs);
    }
    ScaledInProportion(weights, probs);
  }

  method Portions(ws: seq<nat>, total: nat) returns (probs: seq<nat>)
    requires total == Sum(ws) > 0
    ensures Shares(ws, total, probs)
  {
    forall i | 0 <= i < |ws|
      ensures ws[i] <= total
    {
      SumParts(ws, i);
    }
    probs := seq(|ws|, i requires 0 <= i < |ws| => Numerator(ws[i], total));
  }

  /** The successors in the set, and the others. */
  function Dead(bs: seq<nat>, dead: set<nat>): (r: nat)
    ensures r <= |bs|
  {
    if bs == [] then 0 else Dead(bs[..|bs| - 1], dead) + (if bs[|bs| - 1] in dead then 1 else 0)
  }

  lemma {:induction false} DeadAll(bs: seq<nat>, dead: set<nat>)
    ensures Dead(bs, dead) == |bs| <==> forall i :: 0 <= i < |bs| ==> bs[i] in dead
    ensures Dead(bs, dead) == 0 <==> forall i :: 0 <= i < |bs| ==> bs[i] !in dead
    decreases |bs|
  {
    if bs != [] {
      var n := |bs| - 1;
      DeadAll(bs[..n], dead);
      assert forall i :: 0 <= i < n ==> bs[..n][i] == bs[i];
    }
  }

  // ----- the likely and the unlikely share -----

  /** The denominator for `k` edges, a 32-bit number: it counts them modulo 4096. */
  function Denominator(k: nat): (r: nat)
    ensures r == UR_TOTAL * (k % 4096) <= UINT32_MAX
  {
    DenominatorWraps(k);
    (UR_TOTAL * k) % (UINT32_MAX + 1)
  }

  lemma {:induction false} DenominatorWraps(k: nat)
    ensures (UR_TOTAL * k) % (UINT32_MAX + 1) == UR_TOTAL * (k % 4096)
  {
    var q, r := k / 4096, k % 4096;
    assert UR_TOTAL * k == q * (UINT32_MAX + 1) + UR_TOTAL * r;
    DivisionUnique(UR_TOTAL * k, UINT32_MAX + 1, q, UR_TOTAL * r);
  }

  /** An edge to a block in the set is unlikely, any other likely. */
  function EdgeProbability(s: nat, dead: set<nat>, u: nat, r: nat): nat
    requires Denominator(u) > 0 && Denominator(r) > 0
  {
    if s in dead then Numerator(UR_TAKEN_WEIGHT, Denominator(u)) else Numerator(UR_NONTAKEN_WEIGHT, Denominator(r))
  }

  /** Every successor has the probability of its kind of edge. */
  ghost predicate Weighed(bs: seq<nat>, dead: set<nat>, u: nat, r: nat, probs: seq<nat>)
    requires Denominator(u) > 0 && Denominator(r) > 0
  {
    |probs| == |bs| && forall i :: 0 <= i < |bs| ==> probs[i] == EdgeProbability(bs[i], dead, u, r)
  }

  lemma {:induction false} WeighedSum(bs: seq<nat>, dead: set<nat>, x: nat, y: nat, probs: seq<nat>)
    requires |probs| == |bs| && forall i :: 0 <= i < |bs| ==> probs[i] == if bs[i] in dead then x else y
    ensures Sum(probs) == Dead(bs, dead) * x + (|bs| - Dead(bs, dead)) * y
    decreases |bs|
  {
    if bs != [] {
      var n := |bs| - 1;
      var k := Dead(bs[..n], dead);
      WeighedSum(bs[..n], dead, x, y, probs[..n]);
      Distribute(k, 1, x);
      Distribute(n - k, 1, y);
    }
  }

  /** `n` edges of one kind together have that part of the whole, up to half a unit for
      each. */
  predicate ShareRight(weight: nat, n: nat, part: nat)
    requires Denominator(n) > 0 && weight <= UR_TOTAL
  {
    2 * part - n <= 2 * (n * Numerator(weight, Denominator(n))) <= 2 * part + n
  }

  const UR_PART: nat := 2048

  /** The edges of both kinds together have the part of the whole that is meant for them. */
  predicate SplitsRight(u: nat, r: nat)
    requires Denominator(u) > 0 && Denominator(r) > 0
  {
    ShareRight(UR_TAKEN_WEIGHT, u, UR_PART) && ShareRight(UR_NONTAKEN_WEIGHT, r, DENOMINATOR - UR_PART)
  }

  /** Fewer than 4096 edges share as they should. */
  lemma {:induction false} PartNear(weight: nat, n: nat, part: nat)
    requires 0 < n < 4096 && weight <= UR_TOTAL && weight * DENOMINATOR == part * UR_TOTAL
    ensures Denominator(n) > 0 && ShareRight(weight, n, part)
  {
    var q := Numerator(weight, UR_TOTAL * n);
    NumeratorNear(weight, UR_TOTAL * n);
    assert q * (UR_TOTAL * n) == (n * q) * UR_TOTAL by {
      Associate(n, q, UR_TOTAL);
      Associate(q, UR_TOTAL, n);
    }
    Cancel(n * q, part, n, UR_TOTAL);
  }

  /** A numerator is never zero, so with more unlikely edges than that they get too much. */
  lemma {:induction false} TooManyUnlikely(u: nat)
    requires u >= 4096 && Denominator(u) > 0
    ensures 2 * (u * Numerator(UR_TAKEN_WEIGHT, Denominator(u))) > 2 * UR_PART + u
  {
    var d := Denominator(u);
    var q := Numerator(UR_TAKEN_WEIGHT, d);
    if d != DENOMINATOR {
      DivisionMonotonic(d, DENOMINATOR + d / 2, d);
      DivisionUnique(d, d, 1, 0);
    }
    Distribute(q, 1, u);
    ProductAtLeastZero(q - 1, u);
  }

  /** What the likely edges get at least, `k` being their number modulo 4096. */
  lemma {:induction false} LikelyAtLeast(k: nat, q: nat)
    requires 0 < k < 4096 && q == Numerator(UR_NONTAKEN_WEIGHT, UR_TOTAL * k)
    ensures 2 * (k * q) >= 2 * (DENOMINATOR - UR_PART) - k && q >= 0x8_0040
  {
    var d := UR_TOTAL * k;
    NumeratorNear(UR_NONTAKEN_WEIGHT, d);
    assert q * d == UR_TOTAL * (k * q) by {
      Associate(q, UR_TOTAL, k);
      Associate(UR_TOTAL, k, q);
    }
    if q < 0x8_0040 {
      ProductAtLeastZero(4095 - k, q);
      Distribute(4095, k, q);
    }
  }

  lemma {:induction false} MoreLikely(j: nat, k: nat, q: nat)
    requires j > 0 && k < 4096 && 2 * (k * q) >= 2 * (DENOMINATOR - UR_PART) - k && q >= 0x8_0040
    ensures (j * 4096 + k) * q > 2 * DENOMINATOR
    ensures 2 * ((j * 4096 + k) * q) > 2 * (DENOMINATOR - UR_PART) + (j * 4096 + k)
  {
    Distribute(j * 4096, k, q);
    Associate(j, 4096, q);
    Distribute(j - 1, 1, 4096 * q);
    ProductAtLeastZero(j - 1, 4096 * q - 4096);
    Distribute(4096 * q, 4096, j - 1);
  }

  /** With more likely edges than that they get more than twice the whole. */
  lemma {:induction false} TooManyLikely(r: nat)
    requires r >= 4096 && Denominator(r) > 0
    ensures var q := Numerator(UR_NONTAKEN_WEIGHT, Denominator(r));
      r * q > 2 * DENOMINATOR && 2 * (r * q) > 2 * (DENOMINATOR - UR_PART) + r
  {
    var q := Numerator(UR_NONTAKEN_WEIGHT, Denominator(r));
    LikelyAtLeast(r % 4096, q);
    MoreLikely(r / 4096, r % 4096, q);
  }

  /** The shares are right exactly with fewer than 4096 edges of either kind. */
  lemma {:induction false} SplitsRightExactly(u: nat, r: nat)
    requires Denominator(u) > 0 && Denominator(r) > 0
    ensures SplitsRight(u, r) <==> u < 4096 && r < 4096
  {
    if u >= 4096 {
      TooManyUnlikely(u);
    } else if r >= 4096 {
      TooManyLikely(r);
    } else {
      PartNear(UR_TAKEN_WEIGHT, u, UR_PART);
      PartNear(UR_NONTAKEN_WEIGHT, r, DENOMINATOR - UR_PART);
    }
  }

  /** Right shares add up; with 4096 likely edges or more nothing does. */
  lemma {:induction false} WeighedAddsUp(bs: seq<nat>, dead: set<nat>, probs: seq<nat>)
    requires |bs| <= UINT32_MAX
    requires var u := Dead(bs, dead);
      Denominator(u) > 0 && Denominator(|bs| - u) > 0 && Weighed(bs, dead, u, |bs| - u, probs)
    ensures var u := Dead(bs, dead);
      (u < 4096 && |bs| - u < 4096 ==> AddsUp(probs)) && (AddsUp(probs) ==> |bs| - u < 4096)
  {
    var u := Dead(bs, dead);
    var r := |bs| - u;
    WeighedSum(bs, dead, Numerator(UR_TAKEN_WEIGHT, Denominator(u)),
               Numerator(UR_NONTAKEN_WEIGHT, Denominator(r)), probs);
    SplitsRightExactly(u, r);
    if r >= 4096 {
      TooManyLikely(r);
      ProductAtLeastZero(u, Numerator(UR_TAKEN_WEIGHT, Denominator(u)));
    }
  }

  /** Beyond that, too many unlikely edges may still add up with the others ... */
  lemma {:induction false} WrappedAddsUp(bs: seq<nat>, dead: set<nat>, probs: seq<nat>)
    requires Dead(bs, dead) == 5462 && |bs| == 5462 + 701 && Weighed(bs, dead, 5462, 701, probs)
    ensures AddsUp(probs) && !SplitsRight(5462, 701)
  {
    var d: nat, e: nat := UR_TOTAL * 1366, UR_TOTAL * 701;
    DivisionUnique(DENOMINATOR + d / 2, d, 1, 1431306240);
    DivisionUnique(UR_NONTAKEN_WEIGHT * DENOMINATOR + e / 2, e, 3063454, 730333184);
    WeighedSum(bs, dead, Numerator(UR_TAKEN_WEIGHT, d), Numerator(UR_NONTAKEN_WEIGHT, e), probs);
    SplitsRightExactly(5462, 701);
  }

  /** ... or not. */
  lemma {:induction false} WrappedDoesNot(bs: seq<nat>, dead: set<nat>, probs: seq<nat>)
    requires Dead(bs, dead) == 8191 && |bs| == 8191 + 1 && Weighed(bs, dead, 8191, 1, probs)
    ensures !AddsUp(probs)
  {
    var d: nat, e: nat := UR_TOTAL * 4095, UR_TOTAL;
    DivisionUnique(DENOMINATOR + d / 2, d, 1, 524288);
    DivisionUnique(UR_NONTAKEN_WEIGHT * DENOMINATOR + e / 2, e, 2147481600, 524288);
    WeighedSum(bs, dead, Numerator(UR_TAKEN_WEIGHT, d), Numerator(UR_NONTAKEN_WEIGHT, e), probs);
  }

  // ----- the unreachable heuristic -----

  /** What a rule comes to for a block; `Failed` is a probability with denominator zero. */
  datatype Decision = Undecided | Decided(probs: seq<nat>) | Failed

  /** The rule has nothing to say. */
  predicate Skips(f: Graph, kind: seq<Kind>, b: nat, dead: set<nat>)
    requires b < |f| && |kind| == |f| && (kind[b].Invoke? ==> |f[b]| == 2)
  {
    |f[b]| <= 1 || Dead(f[b], dead) == 0 || (kind[b].Invoke? && f[b][0] in dead)
  }

  /** The block's successors are of both kinds, as many of one kind as make its
      denominator zero. */
  predicate Fails(f: Graph, kind: seq<Kind>, b: nat, dead: set<nat>)
    requires b < |f| && |kind| == |f| && (kind[b].Invoke? ==> |f[b]| == 2)
  {
    var u := Dead(f[b], dead);
    !Skips(f, kind, b, dead) && u < |f[b]| && (u % 4096 == 0 || (|f[b]| - u) % 4096 == 0)
  }

  /** The decision for a block, given the blocks that lead to an unreachable end. */
  ghost predicate DecisionRight(f: Graph, kind: seq<Kind>, b: nat, dead: set<nat>, decision: Decision)
    requires Ok(f, kind) && b < |f|
  {
    var bs := f[b];
    var u := Dead(bs, dead);
    match decision
    case Undecided => Skips(f, kind, b, dead)
    case Failed => Fails(f, kind, b, dead)
    case Decided(probs) =>
      !Skips(f, kind, b, dead) && |probs| == |bs| &&
      if u == |bs| then AllSame(probs)
      else Denominator(u) > 0 && Denominator(|bs| - u) > 0 && Weighed(bs, dead, u, |bs| - u, probs)
  }

  /** Fewer than 4096 successors of either kind, or all of one. */
  predicate FewOfEach(bs: seq<nat>, dead: set<nat>) {
    Dead(bs, dead) == |bs| || (Dead(bs, dead) < 4096 && |bs| - Dead(bs, dead) < 4096)
  }

  /** Decides whether the block leads to an unreachable end, and if some ways do, how
      likely each is. */
  method CalcUnreachableHeuristics(f: Graph, kind: seq<Kind>, b: nat, dead0: set<nat>)
    returns (dead: set<nat>, decision: Decision)
    requires Ok(f, kind) && b < |f|
    ensures dead == if Joins(f, kind, b, dead0) then dead0 + {b} else dead0
    ensures DecisionRight(f, kind, b, dead0, decision)
    ensures decision.Decided? && FewOfEach(f[b], dead0) ==> AddsUp(decision.probs)
  {
    dead, decision := dead0, Undecided;
    var bs := f[b];
    if bs == [] {
      if kind[b].Unreachable? {
        dead := dead + {b};
      }
      return;
    }
    var u := Dead(bs, dead);
    DeadAll(bs, dead);
    InvokeNormal(f, kind, b);
    if u == |bs| {
      dead := dead + {b};
    }
    if |bs| == 1 || u == 0 {
      return;
    }
    if kind[b].Invoke? {
      if bs[0] in dead {
        dead := dead + {b};
        return;
      }
    }
    if u == |bs| {
      var uniform := Uniform(|bs|);
      decision := Decided(uniform);
      return;
    }
    decision := WeighEdges(bs, dead0, u);
  }

  /** One probability for each kind of edge. */
  method WeighEdges(bs: seq<nat>, dead: set<nat>, u: nat) returns (decision: Decision)
    requires 0 < u == Dead(bs, dead) < |bs| <= UINT32_MAX
    ensures decision.Failed? <==> u % 4096 == 0 || (|bs| - u) % 4096 == 0
    ensures !decision.Failed? ==> decision.Decided? && Denominator(u) > 0 && Denominator(|bs| - u) > 0 &&
                                  Weighed(bs, dead, u, |bs| - u, decision.probs)
    ensures decision.Decided? && FewOfEach(bs, dead) ==> AddsUp(decision.probs)
  {
    if Denominator(u) == 0 || Denominator(|bs| - u) == 0 {
      return Failed;
    }
    var probs := seq(|bs|, i requires 0 <= i < |bs| => EdgeProbability(bs[i], dead, u, |bs| - u));
    WeighedAddsUp(bs, dead, probs);
    decision := Decided(probs);
  }

  lemma {:induction false} InvokeNormal(f: Graph, kind: seq<Kind>, b: nat)
    requires Ok(f, kind) && b < |f|
    ensures kind[b].Invoke? ==> Expected(f, kind, b) == [f[b][0]] && f[b][0] in f[b]
  {
  }

  // ----- the whole function -----

  /** The set after the first `i` blocks. */
  ghost function DeadAfter(f: Graph, kind: seq<Kind>, order: seq<nat>, i: nat): set<nat>
    requires Ok(f, kind) && i <= |order| && InGraph(f, order)
  {
    if i == 0 then {}
    else
      var dead, b := DeadAfter(f, kind, order, i - 1), order[i - 1];
      if Joins(f, kind, b, dead) then dead + {b} else dead
  }

  ghost predicate InGraph(f: Graph, order: seq<nat>) {
    forall i :: 0 <= i < |order| ==> order[i] < |f|
  }

  /** What is known of the probabilities of the `i`-th block. */
  ghost predicate BlockRight(f: Graph, kind: seq<Kind>, order: seq<nat>, weights: seq<Option<seq<nat>>>, i: nat,
                             probs: map<nat, seq<nat>>)
    requires Ok(f, kind) && i < |order| && InGraph(f, order) && |weights| == |f|
  {
    var b, dead := order[i], DeadAfter(f, kind, order, i);
    if !Skips(f, kind, b, dead) then b in probs && DecisionRight(f, kind, b, dead, Decided(probs[b]))
    else if weights[b].Some? then
      b in probs && InProportion(weights[b].value, probs[b]) && ScaledShares(weights[b].value, probs[b])
    else b !in probs
  }

  /** The probabilities of the `i`-th block add up, unless its unlikely or likely edges
      are too many. */
  ghost predicate BlockAddsUp(f: Graph, kind: seq<Kind>, order: seq<nat>, i: nat, probs: map<nat, seq<nat>>)
    requires Ok(f, kind) && i < |order| && InGraph(f, order)
  {
    var b, dead := order[i], DeadAfter(f, kind, order, i);
    b in probs && (Skips(f, kind, b, dead) || FewOfEach(f[b], dead)) ==> AddsUp(probs[b])
  }

  ghost predicate BlockDone(f: Graph, kind: seq<Kind>, order: seq<nat>, weights: seq<Option<seq<nat>>>, i: nat,
                            probs: map<nat, seq<nat>>)
    requires Ok(f, kind) && i < |order| && InGraph(f, order) && |weights| == |f|
  {
    !Fails(f, kind, order[i], DeadAfter(f, kind, order, i)) &&
    BlockRight(f, kind, order, weights, i, probs) && BlockAddsUp(f, kind, order, i, probs)
  }

  ghost predicate ProbabilitiesRight(f: Graph, kind: seq<Kind>, order: seq<nat>, weights: seq<Option<seq<nat>>>,
                                     n: nat, probs: map<nat, seq<nat>>)
    requires Ok(f, kind) && n <= |order| && InGraph(f, order) && |weights| == |f|
  {
    && (forall b :: b in probs ==> b in order[..n])
    && forall i :: 0 <= i < n ==> BlockDone(f, kind, order, weights, i, probs)
  }

  /** What a turn does to the probabilities, by the decision for its block. */
  ghost predicate NextRight(f: Graph, kind: seq<Kind>, b: nat, dead: set<nat>, weights: seq<Option<seq<nat>>>,
                            decision: Decision, probs: map<nat, seq<nat>>, probs': map<nat, seq<nat>>)
    requires Ok(f, kind) && b < |f| && |weights| == |f|
  {
    DecisionRight(f, kind, b, dead, decision) &&
    match decision
    case Failed => false
    case Decided(p) => probs' == probs[b := p] && (FewOfEach(f[b], dead) ==> AddsUp(p))
    case Undecided =>
      if weights[b].None? then probs' == probs
      else
        b in probs' && probs' == probs[b := probs'[b]] &&
        InProportion(weights[b].value, probs'[b]) && ScaledShares(weights[b].value, probs'[b]) && AddsUp(probs'[b])
  }

  /** Setting a block's probabilities leaves those of the blocks before. */
  lemma {:induction false} OneMoreBlock(f: Graph, kind: seq<Kind>, order: seq<nat>, weights: seq<Option<seq<nat>>>,
                                        i: nat, decision: Decision, probs: map<nat, seq<nat>>,
                                        probs': map<nat, seq<nat>>)
    requires Ok(f, kind) && NoRepeat(order) && InGraph(f, order) && |weights| == |f| && i < |order|
    requires ProbabilitiesRight(f, kind, order, weights, i, probs)
    requires NextRight(f, kind, order[i], DeadAfter(f, kind, order, i), weights, decision, probs, probs')
    ensures ProbabilitiesRight(f, kind, order, weights, i + 1, probs')
  {
    var b := order[i];
    assert order[..i + 1] == order[..i] + [b];
    assert b !in order[..i];
    NewBlock(f, kind, order, weights, i, decision, probs, probs');
    forall j | 0 <= j < i
      ensures BlockDone(f, kind, order, weights, j, probs')
    {
      assert order[j] != b;
      BlockStays(f, kind, order, weights, j, probs, probs');
    }
  }

  lemma {:induction false} BlockStays(f: Graph, kind: seq<Kind>, order: seq<nat>, weights: seq<Option<seq<nat>>>,
                                      j: nat, probs: map<nat, seq<nat>>, probs': map<nat, seq<nat>>)
    requires Ok(f, kind) && InGraph(f, order) && |weights| == |f| && j < |order|
    requires BlockDone(f, kind, order, weights, j, probs)
    requires order[j] in probs <==> order[j] in probs'
    requires order[j] in probs ==> probs'[order[j]] == probs[order[j]]
    ensures BlockDone(f, kind, order, weights, j, probs')
  {
  }

  lemma {:induction false} NewBlock(f: Graph, kind: seq<Kind>, order: seq<nat>, weights: seq<Option<seq<nat>>>, i: nat,
                                    decision: Decision, probs: map<nat, seq<nat>>, probs': map<nat, seq<nat>>)
    requires Ok(f, kind) && InGraph(f, order) && |weights| == |f| && i < |order| && order[i] !in probs
    requires NextRight(f, kind, order[i], DeadAfter(f, kind, order, i), weights, decision, probs, probs')
    ensures BlockDone(f, kind, order, weights, i, probs')
  {
  }

  lemma {:induction false} DoomedAll(f: Graph, kind: seq<Kind>, dead: set<nat>, n: nat, m: nat)
    requires Ok(f, kind) && DeadOk(f, kind, dead, n) && n <= m
    ensures DeadOk(f, kind, dead, m)
  {
    forall b | b in dead
      ensures Doomed(f, kind, b, m)
    {
      DoomedLater(f, kind, b, n, m);
    }
  }

  lemma {:induction false} AllFound(f: Graph, kind: seq<Kind>, order: seq<nat>, dead: set<nat>)
    requires Ok(f, kind)
    ensures Complete(f, kind, order, |order|, dead) ==> NoneMissed(f, kind, order, dead)
  {
    if Complete(f, kind, order, |order|, dead) {
      forall b, n | b in order && Doomed(f, kind, b, n)
        ensures b in dead
      {
        var j :| 0 <= j < |order| && order[j] == b;
        assert Doomed(f, kind, order[j], n);
      }
    }
  }

  /** What the blocks that were found have in common. */
  ghost predicate Found(f: Graph, kind: seq<Kind>, order: seq<nat>, i: nat, dead: set<nat>)
    requires Ok(f, kind) && i <= |order|
  {
    && (forall b :: b in dead ==> b in order)
    && DeadOk(f, kind, dead, i)
    && (NoInvokes(kind) ==> Complete(f, kind, order, i, dead))
  }

  lemma {:induction false} AfterFound(f: Graph, kind: seq<Kind>, order: seq<nat>, i: nat)
    requires Ok(f, kind) && PostOrder(f, order) && InGraph(f, order) && i <= |order|
    ensures Found(f, kind, order, i, DeadAfter(f, kind, order, i))
  {
    if i > 0 {
      var dead := DeadAfter(f, kind, order, i - 1);
      AfterFound(f, kind, order, i - 1);
      DeadMore(f, kind, order[i - 1], dead, i - 1);
      if NoInvokes(kind) {
        CompleteMore(f, kind, order, i - 1, dead);
      }
    }
  }

  ghost predicate LeadToEnd(f: Graph, kind: seq<Kind>, order: seq<nat>, dead: set<nat>)
    requires Ok(f, kind)
  {
    forall b :: b in dead ==> b in order && Doomed(f, kind, b, |order|)
  }

  ghost predicate NoneMissed(f: Graph, kind: seq<Kind>, order: seq<nat>, dead: set<nat>)
    requires Ok(f, kind)
  {
    forall b, n :: b in order && Doomed(f, kind, b, n) ==> b in dead
  }

  /** The rule for the `i`-th block fails. */
  ghost predicate FailsAt(f: Graph, kind: seq<Kind>, order: seq<nat>, i: nat)
    requires Ok(f, kind) && InGraph(f, order) && i < |order|
  {
    Fails(f, kind, order[i], DeadAfter(f, kind, order, i))
  }

  ghost predicate NoFailure(f: Graph, kind: seq<Kind>, order: seq<nat>)
    requires Ok(f, kind) && InGraph(f, order)
  {
    forall i :: 0 <= i < |order| ==> !FailsAt(f, kind, order, i)
  }

  /** All that are found lead to an unreachable end, and without invokes none is missed. */
  lemma {:induction false} DeadRight(f: Graph, kind: seq<Kind>, order: seq<nat>, i: nat)
    requires Ok(f, kind) && PostOrder(f, order) && InGraph(f, order) && i <= |order|
    ensures LeadToEnd(f, kind, order, DeadAfter(f, kind, order, i))
    ensures i == |order| && NoInvokes(kind) ==> NoneMissed(f, kind, order, DeadAfter(f, kind, order, i))
  {
    var dead := DeadAfter(f, kind, order, i);
    AfterFound(f, kind, order, i);
    DoomedAll(f, kind, dead, i, |order|);
    if i == |order| {
      AllFound(f, kind, order, dead);
    }
  }

  /** The rules for one block, in turn. */
  method CalcBlock(f: Graph, kind: seq<Kind>, b: nat, weights: seq<Option<seq<nat>>>, dead0: set<nat>,
                   probs0: map<nat, seq<nat>>)
    returns (dead: set<nat>, decision: Decision, probs: map<nat, seq<nat>>)
    requires Ok(f, kind) && b < |f| && |weights| == |f| && (weights[b].Some? ==> |weights[b].value| == |f[b]| > 1)
    ensures dead == if Joins(f, kind, b, dead0) then dead0 + {b} else dead0
    ensures if decision.Failed? then Fails(f, kind, b, dead0)
            else NextRight(f, kind, b, dead0, weights, decision, probs0, probs)
  {
    probs := probs0;
    dead, decision := CalcUnreachableHeuristics(f, kind, b, dead0);
    match decision {
      case Failed =>
      case Decided(p) =>
        probs := probs[b := p];
      case Undecided =>
        if weights[b].Some? {
          var explicit := CalcMetadataWeights(weights[b].value);
          probs := probs[b := explicit];
        }
    }
  }

  /** One turn of the walk. */
  method Turn(f: Graph, kind: seq<Kind>, order: seq<nat>, weights: seq<Option<seq<nat>>>, i: nat, dead0: set<nat>,
              probs0: map<nat, seq<nat>>)
    returns (ok: bool, dead: set<nat>, probs: map<nat, seq<nat>>)
    requires Ok(f, kind) && NoRepeat(order) && InGraph(f, order) && |weights| == |f| && i < |order|
    requires forall b :: 0 <= b < |f| && weights[b].Some? ==> |weights[b].value| == |f[b]| > 1
    requires dead0 == DeadAfter(f, kind, order, i) && ProbabilitiesRight(f, kind, order, weights, i, probs0)
    ensures dead == DeadAfter(f, kind, order, i + 1)
    ensures if ok then ProbabilitiesRight(f, kind, order, weights, i + 1, probs) else FailsAt(f, kind, order, i)
  {
    var decision;
    dead, decision, probs := CalcBlock(f, kind, order[i], weights, dead0, probs0);
    ok := !decision.Failed?;
    if ok {
      OneMoreBlock(f, kind, order, weights, i, decision, probs0, probs);
    }
  }

  /** The walk over the blocks in post-order. Without invokes a block is in the set
      exactly if every way on leads to an unreachable end, and with them those in it do
      if nothing is thrown; every block has just the probabilities of the first rule
      that has something to say; the walk fails exactly if some block's rule does. */
  method Calculate(f: Graph, kind: seq<Kind>, order: seq<nat>, weights: seq<Option<seq<nat>>>)
    returns (ok: bool, dead: set<nat>, probs: map<nat, seq<nat>>)
    requires Ok(f, kind) && PostOrder(f, order) && InGraph(f, order) && |weights| == |f|
    requires forall b :: 0 <= b < |f| && weights[b].Some? ==> |weights[b].value| == |f[b]| > 1
    ensures ok <==> NoFailure(f, kind, order)
    ensures ok ==> ProbabilitiesRight(f, kind, order, weights, |order|, probs)
    ensures LeadToEnd(f, kind, order, dead) && (ok && NoInvokes(kind) ==> NoneMissed(f, kind, order, dead))
  {
    ok, dead, probs := true, {}, map[];
    var i := 0;
    while i < |order| && ok
      invariant i <= |order| && dead == DeadAfter(f, kind, order, i)
      invariant ok ==> ProbabilitiesRight(f, kind, order, weights, i, probs)
      invariant !ok ==> i > 0 && FailsAt(f, kind, order, i - 1)
      decreases |order| - i
    {
      ok, dead, probs := Turn(f, kind, order, weights, i, dead, probs);
      i := i + 1;
    }
    DeadRight(f, kind, order, i);
    if ok {
      NoneFails(f, kind, order, weights, probs);
    }
  }

  lemma {:induction false} NoneFails(f: Graph, kind: seq<Kind>, order: seq<nat>, weights: seq<Option<seq<nat>>>,
                                     probs: map<nat, seq<nat>>)
    requires Ok(f, kind) && InGraph(f, order) && |weights| == |f|
    requires ProbabilitiesRight(f, kind, order, weights, |order|, probs)
    ensures NoFailure(f, kind, order)
  {
    forall i | 0 <= i < |order|
      ensures !Fails(f, kind, order[i], DeadAfter(f, kind, order, i))
    {
      assert BlockDone(f, kind, order, weights, i, probs);
    }
  }
}
