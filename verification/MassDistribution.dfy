/** Mass flowing through a loop or a function: each node's mass is shared out to its
    successors without loss. */
module MassDistribution {
  import opened Words
  import opened CombiningWeights
  import opened Normalization
  import BranchProbability

  // ----- masses -----

  /** Addition that stops at full mass. */
  function AddMass(x: nat, y: nat): nat {
    var sum := (x + y) % (UINT64_MAX + 1);
    if sum < x then UINT64_MAX else sum
  }

  function Sum(ms: seq<nat>): nat {
    if ms == [] then 0 else ms[0] + Sum(ms[1..])
  }

  lemma {:induction false} SumUpdate(ms: seq<nat>, i: nat, m: nat)
    requires i < |ms|
    ensures Sum(ms[i := m]) == Sum(ms) - ms[i] + m
    decreases |ms|
  {
    if i > 0 {
      SumUpdate(ms[1..], i - 1, m);
      assert ms[i := m][1..] == ms[1..][i - 1 := m];
    } else {
      assert ms[i := m][1..] == ms[1..];
    }
  }

  lemma {:induction false} SumAtLeast(ms: seq<nat>, i: nat)
    requires i < |ms|
    ensures ms[i] <= Sum(ms)
    decreases |ms|
  {
    if i > 0 {
      SumAtLeast(ms[1..], i - 1);
    }
  }

  lemma {:induction false} SumAppend(ms: seq<nat>, m: nat)
    ensures Sum(ms + [m]) == Sum(ms) + m
    decreases |ms|
  {
    if ms == [] {
      assert ms + [m] == [m];
    } else {
      SumAppend(ms[1..], m);
      assert (ms + [m])[1..] == ms[1..] + [m];
    }
  }

  // ----- dithering -----

  lemma {:induction false} TotalFront(ws: Weights)
    requires ws != []
    ensures Total(ws) == ws[0].amount + Total(ws[1..])
    decreases |ws|
  {
    var n := |ws| - 1;
    if n > 0 {
      TotalFront(ws[..n]);
      assert ws[..n][1..] == ws[1..][..n - 1];
    }
  }

  lemma {:induction false} TotalAtLeast(ws: Weights)
    requires AtLeastOne(ws)
    ensures Total(ws) >= |ws|
    decreases |ws|
  {
    if ws != [] {
      TotalAtLeast(ws[..|ws| - 1]);
    }
  }

  ghost predicate Shareable(ws: Weights, weight: nat) {
    AtLeastOne(ws) && Total(ws) == weight
  }

  lemma {:induction false} ShareableRest(ws: Weights, weight: nat)
    requires Shareable(ws, weight) && ws != []
    ensures ws[0].amount <= weight && Shareable(ws[1..], weight - ws[0].amount)
    ensures ws[0].amount == weight <==> |ws| == 1
  {
    TotalFront(ws);
    TotalAtLeast(ws[1..]);
  }

  /** What each successor takes of the mass remaining, by its share of the weight
      remaining. */
  function Portions(ws: Weights, remWeight: nat, remMass: nat): seq<nat>
    requires remMass <= UINT64_MAX
    decreases |ws|
  {
    if ws == [] || ws[0].amount > remWeight || remWeight == 0 then []
    else
      var taken := BranchProbability.Portion(remMass, ws[0].amount, remWeight);
      [taken] + Portions(ws[1..], remWeight - ws[0].amount, if taken <= remMass then remMass - taken else 0)
  }

  /** The portions add up to the mass, with nothing left over. */
  lemma {:induction false} PortionsSum(ws: Weights, weight: nat, mass: nat)
    requires Shareable(ws, weight) && mass <= UINT64_MAX
    ensures |Portions(ws, weight, mass)| == |ws|
    ensures ws != [] ==> Sum(Portions(ws, weight, mass)) == mass
    decreases |ws|
  {
    if ws != [] {
      ShareableRest(ws, weight);
      TotalAtLeast(ws);
      var taken := BranchProbability.Portion(mass, ws[0].amount, weight);
      BranchProbability.PortionBound(mass, ws[0].amount, weight);
      PortionsSum(ws[1..], weight - ws[0].amount, mass - taken);
      assert Portions(ws, weight, mass)[1..] == Portions(ws[1..], weight - ws[0].amount, mass - taken);
    }
  }

  /** Each successor's portion is its share of the whole, within a rounding for itself
      and each before it. */
  ghost predicate Proportional(ws: Weights, total: nat, whole: nat, taken: seq<nat>, k: nat) {
    |taken| == |ws| &&
    forall i :: 0 <= i < |ws| ==> BranchProbability.NearShare(taken[i], whole, ws[i].amount, total, k + i + 1)
  }

  lemma {:induction false} NothingTaken(mass: nat, weight: nat)
    ensures BranchProbability.NearShare(mass, mass, weight, weight, 0)
  {
  }

  /** The rest of a mass, and of the weight, after `k` portions. */
  lemma {:induction false} PortionsProportional(ws: Weights, weight: nat, mass: nat, total: nat, whole: nat, k: nat)
    requires Shareable(ws, weight) && mass <= whole <= UINT64_MAX && total > 0
    requires BranchProbability.NearShare(mass, whole, weight, total, k)
    ensures Proportional(ws, total, whole, Portions(ws, weight, mass), k)
    decreases |ws|
  {
    if ws != [] {
      hide BranchProbability.NearShare, BranchProbability.Portion;
      ShareableRest(ws, weight);
      TotalAtLeast(ws);
      var taken := BranchProbability.Portion(mass, ws[0].amount, weight);
      BranchProbability.PortionBound(mass, ws[0].amount, weight);
      BranchProbability.PortionNear(mass, ws[0].amount, weight);
      BranchProbability.TakenNear(taken, mass, ws[0].amount, weight, whole, total, k);
      var rest := Portions(ws[1..], weight - ws[0].amount, mass - taken);
      PortionsProportional(ws[1..], weight - ws[0].amount, mass - taken, total, whole, k + 1);
      FirstTaken(ws, total, whole, taken, rest, k);
    }
  }

  lemma {:induction false} FirstTaken(ws: Weights, total: nat, whole: nat, taken: nat, rest: seq<nat>, k: nat)
    requires ws != [] && BranchProbability.NearShare(taken, whole, ws[0].amount, total, k + 1)
    requires Proportional(ws[1..], total, whole, rest, k + 1)
    ensures Proportional(ws, total, whole, [taken] + rest, k)
  {
    hide BranchProbability.NearShare;
    var all := [taken] + rest;
    forall i | 0 <= i < |ws|
      ensures BranchProbability.NearShare(all[i], whole, ws[i].amount, total, k + i + 1)
    {
      if i > 0 {
        assert all[i] == rest[i - 1] && ws[1..][i - 1] == ws[i];
      }
    }
  }

  /** The portions are in proportion to the weights. */
  lemma {:induction false} PortionsNear(ws: Weights, weight: nat, mass: nat)
    requires Shareable(ws, weight) && mass <= UINT64_MAX
    ensures Proportional(ws, weight, mass, Portions(ws, weight, mass), 0)
  {
    if ws != [] {
      TotalAtLeast(ws);
      NothingTaken(mass, weight);
      PortionsProportional(ws, weight, mass, weight, mass, 0);
    }
  }

  class DitheringDistributer {
    var remWeight: nat
    var remMass: nat

    constructor (weight: nat, mass: nat)
      ensures remWeight == weight && remMass == mass
    {
      remWeight, remMass := weight, mass;
    }

    /** The portion of the remaining mass for a weight; all of it for the last. */
    method TakeMass(weight: nat) returns (mass: nat)
      requires 0 < weight <= remWeight <= UINT32_MAX && remMass <= UINT64_MAX
      modifies this
      ensures mass == BranchProbability.Portion(old(remMass), weight, old(remWeight))
      ensures BranchProbability.NearShare(mass, old(remMass), weight, old(remWeight), 1)
      ensures remWeight == old(remWeight) - weight && remMass == old(remMass) - mass
      ensures remWeight == 0 ==> remMass == 0
    {
      BranchProbability.PortionNear(remMass, weight, remWeight);
      BranchProbability.NumeratorBound(weight, remWeight);
      BranchProbability.PortionBound(remMass, weight, remWeight);
      mass := BranchProbability.Scale(remMass, BranchProbability.Numerator(weight, remWeight),
                                      BranchProbability.DENOMINATOR);
      remWeight := remWeight - weight;
      remMass := remMass - mass;
    }
  }

  // ----- where the mass goes -----

  datatype ExitEdge = ExitEdge(target: nat, mass: nat)

  /** The masses of the nodes in the order they are processed, the mass that flows
      back to each header, and the mass that leaves. */
  datatype Ledger = Ledger(working: seq<nat>, backedge: seq<nat>, exits: seq<ExitEdge>)

  predicate TargetOk(l: Ledger, w: Weight) {
    && (w.kind.Local? ==> w.target < |l.working|)
    && (w.kind.Backedge? ==> w.target < |l.backedge|)
  }

  predicate TargetsOk(l: Ledger, ws: Weights) {
    forall i :: 0 <= i < |ws| ==> TargetOk(l, ws[i])
  }

  function Give(l: Ledger, w: Weight, mass: nat): Ledger
    requires TargetOk(l, w)
  {
    match w.kind
    case Local => l.(working := l.working[w.target := AddMass(l.working[w.target], mass)])
    case Backedge => l.(backedge := l.backedge[w.target := AddMass(l.backedge[w.target], mass)])
    case Exit => l.(exits := l.exits + [ExitEdge(w.target, mass)])
  }

  lemma {:induction false} GiveTargets(l: Ledger, w: Weight, mass: nat, ws: Weights)
    requires TargetOk(l, w) && TargetsOk(l, ws)
    ensures TargetsOk(Give(l, w, mass), ws)
  {
    var g := Give(l, w, mass);
    assert |g.working| == |l.working| && |g.backedge| == |l.backedge|;
    forall i | 0 <= i < |ws|
      ensures TargetOk(g, ws[i])
    {
      assert TargetOk(l, ws[i]);
    }
  }

  function GiveAll(l: Ledger, ws: Weights, taken: seq<nat>): Ledger
    requires TargetsOk(l, ws)
    decreases |ws|
  {
    if ws == [] || taken == [] then l
    else
      GiveTargets(l, ws[0], taken[0], ws[1..]);
      GiveAll(Give(l, ws[0], taken[0]), ws[1..], taken[1..])
  }

  predicate LocalTarget(ws: Weights, t: nat) {
    exists i :: 0 <= i < |ws| && ws[i].kind.Local? && ws[i].target == t
  }

  /** A node that is no local target keeps its mass. */
  lemma {:induction false} NotGiven(l: Ledger, ws: Weights, taken: seq<nat>, t: nat)
    requires TargetsOk(l, ws) && t < |l.working| && !LocalTarget(ws, t)
    ensures |GiveAll(l, ws, taken).working| == |l.working| && GiveAll(l, ws, taken).working[t] == l.working[t]
    decreases |ws|
  {
    if ws != [] && taken != [] {
      GiveTargets(l, ws[0], taken[0], ws[1..]);
      assert !(ws[0].kind.Local? && ws[0].target == t);
      NotGiven(Give(l, ws[0], taken[0]), ws[1..], taken[1..], t);
    }
  }

  /** With one weight for each target, a local target gains exactly its portion. */
  lemma {:induction false} Given(l: Ledger, ws: Weights, taken: seq<nat>, i: nat)
    requires TargetsOk(l, ws) && Distinct(ws) && |taken| == |ws| && i < |ws| && ws[i].kind.Local?
    ensures var t := ws[i].target;
      t < |l.working| && |GiveAll(l, ws, taken).working| == |l.working|
      && GiveAll(l, ws, taken).working[t] == AddMass(l.working[t], taken[i])
    decreases |ws|
  {
    var t := ws[i].target;
    assert TargetOk(l, ws[i]);
    var g := Give(l, ws[0], taken[0]);
    GiveTargets(l, ws[0], taken[0], ws[1..]);
    if i == 0 {
      NotGiven(g, ws[1..], taken[1..], t);
    } else {
      assert ws[0].target != t;
      Given(g, ws[1..], taken[1..], i - 1);
    }
  }

  predicate BackedgeTarget(ws: Weights, t: nat) {
    exists i :: 0 <= i < |ws| && ws[i].kind.Backedge? && ws[i].target == t
  }

  lemma {:induction false} NotGivenBack(l: Ledger, ws: Weights, taken: seq<nat>, t: nat)
    requires TargetsOk(l, ws) && t < |l.backedge| && !BackedgeTarget(ws, t)
    ensures |GiveAll(l, ws, taken).backedge| == |l.backedge| && GiveAll(l, ws, taken).backedge[t] == l.backedge[t]
    decreases |ws|
  {
    if ws != [] && taken != [] {
      GiveTargets(l, ws[0], taken[0], ws[1..]);
      assert !(ws[0].kind.Backedge? && ws[0].target == t);
      NotGivenBack(Give(l, ws[0], taken[0]), ws[1..], taken[1..], t);
    }
  }

  /** A header that is a target gains exactly its portion. */
  lemma {:induction false} GivenBack(l: Ledger, ws: Weights, taken: seq<nat>, i: nat)
    requires TargetsOk(l, ws) && Distinct(ws) && |taken| == |ws| && i < |ws| && ws[i].kind.Backedge?
    ensures var t := ws[i].target;
      t < |l.backedge| && |GiveAll(l, ws, taken).backedge| == |l.backedge|
      && GiveAll(l, ws, taken).backedge[t] == AddMass(l.backedge[t], taken[i])
    decreases |ws|
  {
    var t := ws[i].target;
    assert TargetOk(l, ws[i]);
    var g := Give(l, ws[0], taken[0]);
    GiveTargets(l, ws[0], taken[0], ws[1..]);
    if i == 0 {
      NotGivenBack(g, ws[1..], taken[1..], t);
    } else {
      assert ws[0].target != t;
      GivenBack(g, ws[1..], taken[1..], i - 1);
    }
  }

  /** Each portion that leaves is one more exit, to its target, in order. */
  ghost predicate Leaves(exits: seq<ExitEdge>, ws: Weights, taken: seq<nat>, more: seq<ExitEdge>)
    requires |taken| == |ws|
    decreases |ws|
  {
    if ws == [] then more == exits
    else
      Leaves(if ws[0].kind.Exit? then exits + [ExitEdge(ws[0].target, taken[0])] else exits, ws[1..], taken[1..], more)
  }

  lemma {:induction false} GivenOut(l: Ledger, ws: Weights, taken: seq<nat>)
    requires TargetsOk(l, ws) && |taken| == |ws|
    ensures Leaves(l.exits, ws, taken, GiveAll(l, ws, taken).exits)
    decreases |ws|
  {
    if ws != [] {
      GiveTargets(l, ws[0], taken[0], ws[1..]);
      GivenOut(Give(l, ws[0], taken[0]), ws[1..], taken[1..]);
    }
  }

  function ExitMass(exits: seq<ExitEdge>): nat {
    if exits == [] then 0 else ExitMass(exits[..|exits| - 1]) + exits[|exits| - 1].mass
  }

  lemma {:induction false} ExitMassAppend(exits: seq<ExitEdge>, e: ExitEdge)
    ensures ExitMass(exits + [e]) == ExitMass(exits) + e.mass
  {
    assert (exits + [e])[..|exits|] == exits;
  }

  /** The mass still to be processed from node `k` on, gone back to a header, or
      gone out. */
  function Account(l: Ledger, k: nat): nat
    requires k <= |l.working|
  {
    Sum(l.working[k..]) + Sum(l.backedge) + ExitMass(l.exits)
  }

  /** Local targets are still to be processed. */
  predicate Later(ws: Weights, k: nat) {
    forall i :: 0 <= i < |ws| && ws[i].kind.Local? ==> k <= ws[i].target
  }

  /** Nodes before those keep their mass. */
  lemma {:induction false} EarlierKept(l: Ledger, ws: Weights, taken: seq<nat>, k: nat)
    requires TargetsOk(l, ws) && Later(ws, k) && k <= |l.working|
    ensures |GiveAll(l, ws, taken).working| == |l.working| && GiveAll(l, ws, taken).working[..k] == l.working[..k]
  {
    GiveAllLength(l, ws, taken);
    forall t | 0 <= t < k
      ensures GiveAll(l, ws, taken).working[t] == l.working[t]
    {
      NotGiven(l, ws, taken, t);
    }
  }

  lemma {:induction false} GiveAllLength(l: Ledger, ws: Weights, taken: seq<nat>)
    requires TargetsOk(l, ws)
    ensures |GiveAll(l, ws, taken).working| == |l.working|
    decreases |ws|
  {
    if ws != [] && taken != [] {
      GiveTargets(l, ws[0], taken[0], ws[1..]);
      GiveAllLength(Give(l, ws[0], taken[0]), ws[1..], taken[1..]);
    }
  }

  lemma {:induction false} GiveAccounts(l: Ledger, w: Weight, mass: nat, k: nat)
    requires TargetOk(l, w) && k <= |l.working| && (w.kind.Local? ==> k <= w.target)
    requires Account(l, k) + mass <= UINT64_MAX
    ensures Account(Give(l, w, mass), k) == Account(l, k) + mass
  {
    match w.kind {
      case Local =>
        var rest := l.working[k..];
        SumAtLeast(rest, w.target - k);
        SumUpdate(rest, w.target - k, rest[w.target - k] + mass);
        assert Give(l, w, mass).working[k..] == rest[w.target - k := rest[w.target - k] + mass];
      case Backedge =>
        SumAtLeast(l.backedge, w.target);
        SumUpdate(l.backedge, w.target, l.backedge[w.target] + mass);
      case Exit =>
        ExitMassAppend(l.exits, ExitEdge(w.target, mass));
    }
  }

  /** No mass is lost, and none saturates. */
  lemma {:induction false} GiveAllAccounts(l: Ledger, ws: Weights, taken: seq<nat>, k: nat)
    requires TargetsOk(l, ws) && |taken| == |ws| && k <= |l.working| && Later(ws, k)
    requires Account(l, k) + Sum(taken) <= UINT64_MAX
    ensures |GiveAll(l, ws, taken).working| == |l.working| && |GiveAll(l, ws, taken).backedge| == |l.backedge|
    ensures Account(GiveAll(l, ws, taken), k) == Account(l, k) + Sum(taken)
    decreases |ws|
  {
    if ws != [] {
      GiveTargets(l, ws[0], taken[0], ws[1..]);
      GiveAccounts(l, ws[0], taken[0], k);
      GiveAllAccounts(Give(l, ws[0], taken[0]), ws[1..], taken[1..], k);
    }
  }

  lemma {:induction false} SourceLeaves(l: Ledger, s: nat)
    requires s < |l.working|
    ensures Account(l, s) == l.working[s] + Account(l, s + 1)
  {
    assert l.working[s..][1..] == l.working[s + 1..];
  }

  /** A node's mass, handed on to later nodes, headers and exits, changes nothing in
      the account. */
  lemma {:induction false} Conserves(l: Ledger, s: nat, ws: Weights, weight: nat)
    requires s < |l.working| && TargetsOk(l, ws) && Later(ws, s + 1) && Shareable(ws, weight) && ws != []
    requires Account(l, s) <= UINT64_MAX
    ensures l.working[s] <= UINT64_MAX
    ensures var after := GiveAll(l, ws, Portions(ws, weight, l.working[s]));
      |after.working| == |l.working| && |after.backedge| == |l.backedge| && Account(after, s + 1) == Account(l, s)
  {
    SourceLeaves(l, s);
    PortionsSum(ws, weight, l.working[s]);
    GiveAllAccounts(l, ws, Portions(ws, weight, l.working[s]), s + 1);
  }
}
