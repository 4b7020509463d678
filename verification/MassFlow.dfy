/** Computing the masses of a loop's or a function's nodes, in order. */
module MassFlow {
  import opened CombiningWeights
  import opened Normalization
  import opened MassDistribution
  import BranchProbability
  import Sets

  /** A successor: below the number of headers a loop header, below the number of
      nodes another node of the loop, and beyond that a node outside. */
  datatype Edge = Edge(succ: nat, weight: nat)

  type Edges = seq<Edge>

  /** What normalizing leaves for a target was there for it, with its type. */
  lemma {:induction false} NormalizedTarget(ws: Weights, combined: Weights, shift: nat, r: Weights, total: nat, i: nat)
    returns (j: nat)
    requires Normalized(ws, combined, shift, r, total) && i < |r|
    ensures j < |ws| && ws[j].target == r[i].target && ws[j].kind == r[i].kind
  {
    assert r[i].target == combined[i].target && r[i].kind == combined[i].kind;
    assert Merged(ws, combined[i]);
    j :| 0 <= j < |ws| && ws[j].target == combined[i].target;
  }

  lemma {:induction false} NormalizedTargets(l: Ledger, ws: Weights, combined: Weights, shift: nat, r: Weights,
                                             total: nat, k: nat)
    requires Normalized(ws, combined, shift, r, total) && TargetsOk(l, ws) && Later(ws, k)
    ensures TargetsOk(l, r) && Later(r, k)
  {
    forall i | 0 <= i < |r|
      ensures TargetOk(l, r[i]) && (r[i].kind.Local? ==> k <= r[i].target)
    {
      var j := NormalizedTarget(ws, combined, shift, r, total, i);
      assert TargetOk(l, ws[j]);
    }
  }

  class MassFlow {
    /** The number of loop headers, which come first; none in a function. */
    const headers: nat
    const working: array<nat>
    const backedge: array<nat>
    var exits: seq<ExitEdge>

    ghost predicate Valid()
    {
      working != backedge && backedge.Length == headers <= working.Length
    }

    function View(): Ledger
      reads this, working, backedge
    {
      Ledger(working[..], backedge[..], exits)
    }

    constructor (headers: nat, nodes: nat)
      requires headers <= nodes
      ensures Valid() && this.headers == headers && working.Length == nodes && fresh(working) && fresh(backedge)
      ensures exits == [] && (forall i :: 0 <= i < nodes ==> working[i] == 0) &&
              forall i :: 0 <= i < headers ==> backedge[i] == 0
    {
      this.headers := headers;
      working := new nat[nodes](_ => 0);
      backedge := new nat[headers](_ => 0);
      exits := [];
    }

    // ----- sorting out the edges -----

    function KindOf(succ: nat): DistType
    {
      if succ < headers then Backedge else if succ >= working.Length then Exit else Local
    }

    /** An edge back to a node that is no header. */
    predicate Irreducible(pred: nat, succ: nat)
    {
      headers <= succ < working.Length && succ < pred && headers <= pred
    }

    function WeightOf(e: Edge): Weight
    {
      Weight(KindOf(e.succ), e.succ, if e.weight == 0 then 1 else e.weight)
    }

    function WeightsOf(edges: Edges): (ws: Weights)
      ensures |ws| == |edges| && forall i :: 0 <= i < |edges| ==> ws[i] == WeightOf(edges[i])
    {
      if edges == [] then [] else WeightsOf(edges[..|edges| - 1]) + [WeightOf(edges[|edges| - 1])]
    }

    /** Classes an edge; one that goes back to no header is refused. */
    method AddToDist(dist: Distribution, pred: nat, e: Edge) returns (ok: bool)
      requires Valid() && dist.Valid() && e.weight <= UINT64_MAX
      requires dist.didOverflow ==> dist.total + WeightOf(e).amount <= UINT64_MAX
      modifies dist
      ensures dist.Valid() && ok == !Irreducible(pred, e.succ)
      ensures dist.weights == if ok then old(dist.weights) + [WeightOf(e)] else old(dist.weights)
      ensures WeightOf(e).target == e.succ && WeightOf(e).amount == (if e.weight > 0 then e.weight else 1)
      ensures WeightOf(e).kind.Backedge? <==> e.succ < headers
      ensures WeightOf(e).kind.Exit? <==> e.succ >= working.Length
    {
      var weight := if e.weight == 0 then 1 else e.weight;
      if e.succ < headers {
        dist.Add(e.succ, weight, Backedge);
        return true;
      }
      if e.succ >= working.Length {
        dist.Add(e.succ, weight, Exit);
        return true;
      }
      if e.succ < pred {
        if !(pred < headers) {
          return false;
        }
      }
      dist.Add(e.succ, weight, Local);
      return true;
    }

    // ----- distributing -----

    /** Hands one portion to its target. */
    method Assign(w: Weight, taken: nat)
      requires Valid() && TargetOk(View(), w)
      modifies this`exits, working, backedge
      ensures View() == Give(old(View()), w, taken)
    {
      if w.kind == Local {
        working[w.target] := AddMass(working[w.target], taken);
        return;
      }
      if w.kind == Backedge {
        backedge[w.target] := AddMass(backedge[w.target], taken);
        return;
      }
      exits := exits + [ExitEdge(w.target, taken)];
    }

    /** Shares a mass out by weights. */
    method ShareOut(ws: Weights, weight: nat, mass: nat)
      requires Valid() && Shareable(ws, weight) && weight <= UINT32_MAX && mass <= UINT64_MAX && TargetsOk(View(), ws)
      modifies this`exits, working, backedge
      ensures View() == GiveAll(old(View()), ws, Portions(ws, weight, mass))
    {
      ghost var after := GiveAll(View(), ws, Portions(ws, weight, mass));
      var d := new DitheringDistributer(weight, mass);
      var i := 0;
      assert ws[i..] == ws;
      while i < |ws|
        invariant i <= |ws| && d.remWeight <= UINT32_MAX && d.remMass <= UINT64_MAX
        invariant Shareable(ws[i..], d.remWeight) && TargetsOk(View(), ws[i..])
        invariant GiveAll(View(), ws[i..], Portions(ws[i..], d.remWeight, d.remMass)) == after
      {
        ghost var v, remWeight, remMass := View(), d.remWeight, d.remMass;
        assert ws[i..][1..] == ws[i + 1..] && ws[i..][0] == ws[i];
        ShareableRest(ws[i..], remWeight);
        var taken := d.TakeMass(ws[i].amount);
        OneGiven(v, ws[i..], remWeight, remMass, taken);
        Assign(ws[i], taken);
        i := i + 1;
      }
      assert ws[i..] == [];
    }

    /** Hands the portions of the node's mass to their targets. */
    method DistributeMass(source: nat, dist: Distribution) returns (ghost combined: Weights, ghost shift: nat)
      requires Valid() && dist.Valid() && OneType(dist.weights) && source < working.Length
      requires TargetsOk(View(), dist.weights) && Later(dist.weights, source + 1)
      requires Fits(Total(dist.weights), |dist.weights|) && working[source] <= UINT64_MAX
      modifies this`exits, working, backedge, dist
      ensures Normalized(old(dist.weights), combined, shift, dist.weights, dist.total)
      ensures TargetsOk(old(View()), dist.weights) && Later(dist.weights, source + 1)
      ensures View() == GiveAll(old(View()), dist.weights, Portions(dist.weights, dist.total, old(working[source])))
      ensures Proportional(dist.weights, dist.total, old(working[source]),
                           Portions(dist.weights, dist.total, old(working[source])), 0)
    {
      hide Proportional;
      var mass := working[source];
      combined, shift := dist.Normalize();
      CombinedFewer(old(dist.weights), combined);
      NormalizedTargets(View(), old(dist.weights), combined, shift, dist.weights, dist.total, source + 1);
      PortionsNear(dist.weights, dist.total, mass);
      ShareOut(dist.weights, dist.total, mass);
    }

    /** No edge is an irreducible backedge. */
    ghost predicate Reducible(node: nat, edges: Edges) {
      forall i :: 0 <= i < |edges| ==> !Irreducible(node, edges[i].succ)
    }

    /** Collects a node's edges. */
    method CollectEdges(node: nat, edges: Edges) returns (ok: bool, dist: Distribution)
      requires Valid() && EdgesOk(node, edges)
      ensures fresh(dist) && ok == Reducible(node, edges)
      ensures ok ==> dist.Valid() && dist.weights == WeightsOf(edges)
    {
      hide KindOf, Irreducible, BranchProbability.NearShare;
      dist := new Distribution();
      ghost var ws := WeightsOf(edges);
      var i := 0;
      while i < |edges|
        invariant i <= |edges| && dist.Valid() && fresh(dist) && dist.weights == ws[..i]
        invariant forall j :: 0 <= j < i ==> !Irreducible(node, edges[j].succ)
      {
        OneMoreWeight(ws, i);
        NoSecondOverflow(Total(dist.weights), ws[i].amount);
        var added := AddToDist(dist, node, edges[i]);
        if !added {
          return false, dist;
        }
        i := i + 1;
      }
      ok := true;
    }

    /** The node's mass is shared out, in proportion, over what its edges' weights come to
        when normalized. */
    ghost predicate HandedOn(l: Ledger, node: nat, edges: Edges, after: Ledger)
      requires node < |l.working| && l.working[node] <= UINT64_MAX
    {
      exists combined, shift, ws, total :: Shares(l, node, edges, combined, shift, ws, total, after)
    }

    ghost predicate Shares(l: Ledger, node: nat, edges: Edges, combined: Weights, shift: nat, ws: Weights, total: nat,
                           after: Ledger)
      requires node < |l.working| && l.working[node] <= UINT64_MAX
    {
      && Normalized(WeightsOf(edges), combined, shift, ws, total) && TargetsOk(l, ws)
      && Proportional(ws, total, l.working[node], Portions(ws, total, l.working[node]), 0)
      && after == GiveAll(l, ws, Portions(ws, total, l.working[node]))
    }

    /** What a step does to the account. */
    lemma {:induction false} StepConserves(l: Ledger, node: nat, edges: Edges, combined: Weights, shift: nat,
                                           ws: Weights, total: nat)
      requires node < |l.working| && TargetsOk(l, ws) && Later(ws, node + 1) && Account(l, node) <= UINT64_MAX
      requires Normalized(WeightsOf(edges), combined, shift, ws, total)
      ensures l.working[node] <= UINT64_MAX
      ensures var after := GiveAll(l, ws, Portions(ws, total, l.working[node]));
        && (edges == [] ==> after == l)
        && (edges != [] ==> |after.working| == |l.working| && Account(after, node + 1) == Account(l, node))
    {
      SourceLeaves(l, node);
      if edges != [] {
        NormalizedNonEmpty(WeightsOf(edges), combined, shift, ws, total);
        Conserves(l, node, ws, total);
      } else {
        NormalizedEmpty(combined, shift, ws, total);
      }
    }

    /** Hands a node's mass on along its edges. */
    method PropagateMassToSuccessors(node: nat, edges: Edges) returns (ok: bool)
      requires Valid() && node < working.Length && EdgesOk(node, edges) && Account(View(), node) <= UINT64_MAX
      modifies this`exits, working, backedge
      ensures ok == Reducible(node, edges) && old(working[node]) <= UINT64_MAX
      ensures ok ==> HandedOn(old(View()), node, edges, View())
      ensures ok && edges != [] ==> Account(View(), node + 1) == old(Account(View(), node))
      ensures !ok || edges == [] ==> View() == old(View())
      ensures working[..node + 1] == old(working[..node + 1])
    {
      hide Proportional, Portions;
      var dist;
      ok, dist := CollectEdges(node, edges);
      if !ok {
        return;
      }
      LocalTargets(node, edges);
      SourceLeaves(View(), node);
      ghost var l := View();
      ghost var combined, shift := DistributeMass(node, dist);
      assert Shares(l, node, edges, combined, shift, dist.weights, dist.total, View());
      StepConserves(l, node, edges, combined, shift, dist.weights, dist.total);
      EarlierKept(l, dist.weights, Portions(dist.weights, dist.total, l.working[node]), node + 1);
    }

    /** A node that stands for a packaged loop hands its mass on along the loop's exits,
        by the masses that left there. */
    method PropagatePackage(node: nat, loopExits: seq<ExitEdge>) returns (ok: bool)
      requires Valid() && node < working.Length && Account(View(), node) <= UINT64_MAX
      requires ExitMass(loopExits) <= UINT64_MAX && |loopExits| <= 0x7FFF_FFFE
      requires forall i :: 0 <= i < |loopExits| && loopExits[i].target == node ==> node < headers
      modifies this`exits, working, backedge
      ensures ok == Reducible(node, EdgesOf(loopExits)) && old(working[node]) <= UINT64_MAX
      ensures ok ==> HandedOn(old(View()), node, EdgesOf(loopExits), View())
      ensures ok && loopExits != [] ==> Account(View(), node + 1) == old(Account(View(), node))
      ensures !ok || loopExits == [] ==> View() == old(View())
      ensures working[..node + 1] == old(working[..node + 1])
    {
      ExitsFit(loopExits);
      ok := PropagateMassToSuccessors(node, EdgesOf(loopExits));
    }

    /** No more than full mass leaves a loop, so its exits' weights have room, even if
        those of no mass count as one. */
    lemma {:induction false} ExitsTotal(loopExits: seq<ExitEdge>)
      ensures Total(WeightsOf(EdgesOf(loopExits))) <= ExitMass(loopExits) + |loopExits|
      decreases |loopExits|
    {
      var es := EdgesOf(loopExits);
      if loopExits != [] {
        var n := |loopExits| - 1;
        ExitsTotal(loopExits[..n]);
        LastWeight(es);
      }
    }

    lemma {:induction false} LastWeight(edges: Edges)
      requires edges != []
      ensures Total(WeightsOf(edges))
           == Total(WeightsOf(edges[..|edges| - 1])) + WeightOf(edges[|edges| - 1]).amount
    {
      TotalAppend(WeightsOf(edges[..|edges| - 1]), WeightOf(edges[|edges| - 1]));
    }

    lemma {:induction false} ExitsFit(loopExits: seq<ExitEdge>)
      requires ExitMass(loopExits) <= UINT64_MAX && |loopExits| <= 0x7FFF_FFFE
      ensures Fits(Total(WeightsOf(EdgesOf(loopExits))), |loopExits|)
      ensures forall i :: 0 <= i < |loopExits| ==> loopExits[i].mass <= UINT64_MAX
    {
      ExitsTotal(loopExits);
      forall i | 0 <= i < |loopExits|
        ensures loopExits[i].mass <= UINT64_MAX
      {
        ExitMassAtLeast(loopExits, i);
      }
    }

    /** Weights are 64-bit numbers whose sum can be brought down to 32 bits, and no
        node but a header is its own successor. */
    ghost predicate EdgesOk(node: nat, edges: Edges)
    {
      && (forall i :: 0 <= i < |edges| ==> edges[i].weight <= UINT64_MAX && (edges[i].succ == node ==> node < headers))
      && Fits(Total(WeightsOf(edges)), |edges|)
    }

    lemma {:induction false} LocalTargets(node: nat, edges: Edges)
      requires Valid() && node < working.Length && EdgesOk(node, edges)
      requires Reducible(node, edges)
      ensures OneType(WeightsOf(edges)) && TargetsOk(View(), WeightsOf(edges)) && Later(WeightsOf(edges), node + 1)
    {
      var ws := WeightsOf(edges);
      forall i | 0 <= i < |ws|
        ensures KindRight(ws, ws[i].target, ws[i].kind) && TargetOk(View(), ws[i])
        ensures ws[i].kind.Local? ==> node + 1 <= ws[i].target
      {
        assert ws[i] == WeightOf(edges[i]);
        assert !Irreducible(node, edges[i].succ);
      }
    }

    // ----- a whole loop or function -----

    /** The headers share the full mass evenly. */
    method StartMass()
      requires Valid() && working.Length > 0 && forall i :: 0 <= i < working.Length ==> working[i] == 0
      modifies working
      ensures Sum(working[..]) == UINT64_MAX
      ensures headers <= 1 ==> working[0] == UINT64_MAX
      ensures forall h :: 0 <= h < headers ==>
        BranchProbability.NearShare(working[h], UINT64_MAX, 1, headers, h + 1)
      ensures forall i :: headers <= i < working.Length && i > 0 ==> working[i] == 0
    {
      hide BranchProbability.NearShare, BranchProbability.Portion;
      AllZero(working[..]);
      if headers > 1 {
        var remaining: nat := UINT64_MAX;
        var h := 0;
        NothingTaken(UINT64_MAX, headers);
        while h < headers
          invariant h <= headers && remaining <= UINT64_MAX && (h == headers ==> remaining == 0)
          invariant Sum(working[..]) + remaining == UINT64_MAX
          invariant BranchProbability.NearShare(remaining, UINT64_MAX, headers - h, headers, h)
          invariant forall i :: 0 <= i < h ==>
            BranchProbability.NearShare(working[i], UINT64_MAX, 1, headers, i + 1)
          invariant forall i :: h <= i < working.Length ==> working[i] == 0
        {
          BranchProbability.PortionBound(remaining, 1, headers - h);
          BranchProbability.PortionNear(remaining, 1, headers - h);
          var mass := BranchProbability.Portion(remaining, 1, headers - h);
          BranchProbability.TakenNear(mass, remaining, 1, headers - h, UINT64_MAX, headers, h);
          SumUpdate(working[..], h, mass);
          assert working[..][h := mass] == working[..h] + [mass] + working[h + 1..];
          working[h] := mass;
          assert working[..] == working[..h] + [mass] + working[h + 1..];
          remaining := remaining - mass;
          h := h + 1;
        }
      } else {
        SumUpdate(working[..], 0, UINT64_MAX);
        assert working[..][0 := UINT64_MAX] == [UINT64_MAX] + working[1..];
        working[0] := UINT64_MAX;
        assert working[..] == [UINT64_MAX] + working[1..];
        WholeShare(UINT64_MAX);
      }
    }

    ghost predicate AllEdgesOk(edges: seq<Edges>) {
      |edges| == working.Length && forall s :: 0 <= s < |edges| ==> EdgesOk(s, edges[s])
    }

    ghost predicate AllReducible(edges: seq<Edges>) {
      forall s :: 0 <= s < |edges| ==> Reducible(s, edges[s])
    }

    /** One node: its mass is handed on, or stays if there is nobody to have it. */
    method Visit(edges: seq<Edges>, s: nat) returns (ok: bool)
      requires Valid() && AllEdgesOk(edges) && s < working.Length && Account(View(), s) <= UINT64_MAX
      modifies this`exits, working, backedge
      ensures ok == Reducible(s, edges[s]) && working[..s + 1] == old(working[..s + 1])
      ensures ok ==> OneNode(old(View()), s, edges[s], View())
      ensures ok ==>
              Account(View(), s + 1) + (if edges[s] == [] then working[s] else 0) == old(Account(View(), s))
    {
      SourceLeaves(View(), s);
      ghost var before := working[..s + 1];
      ok := PropagateMassToSuccessors(s, edges[s]);
      assert working[s] == working[..s + 1][s] == before[s];
    }

    ghost predicate OneNode(l: Ledger, node: nat, edges: Edges, after: Ledger) {
      node < |l.working| && l.working[node] <= UINT64_MAX && HandedOn(l, node, edges, after)
    }

    /** Each of the first `n` nodes has handed its mass on, one after the other. */
    ghost predicate Flows(edges: seq<Edges>, l: Ledger, n: nat, after: Ledger)
      requires n <= |edges|
      decreases n, 0
    {
      if n == 0 then after == l else exists between :: FlowsOn(edges, l, n, between, after)
    }

    ghost predicate FlowsOn(edges: seq<Edges>, l: Ledger, n: nat, between: Ledger, after: Ledger)
      requires 0 < n <= |edges|
      decreases n - 1, 1
    {
      Flows(edges, l, n - 1, between) && OneNode(between, n - 1, edges[n - 1], after)
    }

    lemma {:induction false} FlowsMore(edges: seq<Edges>, l: Ledger, n: nat, between: Ledger, after: Ledger)
      requires n < |edges| && Flows(edges, l, n, between) && OneNode(between, n, edges[n], after)
      ensures Flows(edges, l, n + 1, after)
    {
      assert FlowsOn(edges, l, n + 1, between, after);
    }

    lemma {:induction false} FlowsStart(edges: seq<Edges>, l: Ledger)
      ensures Flows(edges, l, 0, l)
    {
    }

    /** Visits the nodes in order; whatever mass there was has gone back to a header,
        out of the loop, or has stayed in a block without successors. */
    method ComputeMass(edges: seq<Edges>) returns (ok: bool)
      requires Valid() && AllEdgesOk(edges) && Account(View(), 0) <= UINT64_MAX
      modifies this`exits, working, backedge
      ensures ok == AllReducible(edges)
      ensures ok ==> Flows(edges, old(View()), |edges|, View())
      ensures ok ==>
              Sum(backedge[..]) + ExitMass(exits) + Returned(edges, working[..], |edges|) == old(Account(View(), 0))
    {
      hide EdgesOk, Irreducible, Flows, OneNode;
      ghost var all, l := Account(View(), 0), View();
      FlowsStart(edges, l);
      var s := 0;
      while s < working.Length
        invariant s <= working.Length && Account(View(), s) + Returned(edges, working[..], s) == all
        invariant forall t :: 0 <= t < s ==> Reducible(t, edges[t])
        invariant Flows(edges, l, s, View())
      {
        ghost var before, between := working[..], View();
        ok := Visit(edges, s);
        if !ok {
          return;
        }
        FlowsMore(edges, l, s, between, View());
        SamePrefix(before, working[..], s);
        ReturnedStays(edges, before, working[..], s);
        s := s + 1;
      }
      ok := true;
    }

    /** Full mass at the headers, each with its share, and nothing elsewhere. */
    ghost predicate Started(l: Ledger) {
      && |l.working| == working.Length > 0 && |l.backedge| == headers && l.exits == [] && Sum(l.working) == UINT64_MAX
      && (headers <= 1 ==> l.working[0] == UINT64_MAX)
      && (forall h :: 0 <= h < headers && h < |l.working| ==>
            BranchProbability.NearShare(l.working[h], UINT64_MAX, 1, headers, h + 1))
      && (forall i :: headers <= i < |l.working| && i > 0 ==> l.working[i] == 0)
      && forall i :: 0 <= i < headers ==> l.backedge[i] == 0
    }

    ghost predicate FlowsFromStart(edges: seq<Edges>, after: Ledger) {
      exists start :: Started(start) && Flows(edges, start, |edges|, after)
    }

    /** From full mass at the headers, the mass that flows back and the mass that
        leaves add up to full mass. */
    method ComputeMassInLoop(edges: seq<Edges>) returns (ok: bool)
      requires Valid() && AllEdgesOk(edges) && working.Length > 0 && exits == []
      requires (forall i :: 0 <= i < working.Length ==> working[i] == 0) &&
               forall i :: 0 <= i < headers ==> backedge[i] == 0
      modifies this`exits, working, backedge
      ensures ok == AllReducible(edges)
      ensures ok ==> FlowsFromStart(edges, View())
      ensures ok ==> Sum(backedge[..]) + ExitMass(exits) + Returned(edges, working[..], |edges|) == UINT64_MAX
      ensures ok && [] !in edges ==> Sum(backedge[..]) + ExitMass(exits) == UINT64_MAX
    {
      hide Flows, BranchProbability.NearShare, EdgesOk;
      StartMass();
      AllZero(backedge[..]);
      assert Started(View());
      assert working[..][0..] == working[..];
      ok := ComputeMass(edges);
      NothingReturned(edges, working[..], |edges|);
    }
  }

  /** A loop's exits, as edges of the node that stands for it. */
  function EdgesOf(loopExits: seq<ExitEdge>): (r: Edges)
    ensures |r| == |loopExits|
    ensures forall i :: 0 <= i < |r| ==> r[i] == Edge(loopExits[i].target, loopExits[i].mass)
  {
    if loopExits == [] then []
    else
      var last := loopExits[|loopExits| - 1];
      EdgesOf(loopExits[..|loopExits| - 1]) + [Edge(last.target, last.mass)]
  }

  lemma {:induction false} ExitMassAtLeast(loopExits: seq<ExitEdge>, i: nat)
    requires i < |loopExits|
    ensures loopExits[i].mass <= ExitMass(loopExits)
    decreases |loopExits|
  {
    if i < |loopExits| - 1 {
      ExitMassAtLeast(loopExits[..|loopExits| - 1], i);
    }
  }

  /** The masses of those of the first `n` nodes that have no successors. */
  function Returned(edges: seq<Edges>, ms: seq<nat>, n: nat): nat
    requires n <= |edges| == |ms|
  {
    if n == 0 then 0 else Returned(edges, ms, n - 1) + (if edges[n - 1] == [] then ms[n - 1] else 0)
  }

  lemma {:induction false} ReturnedStays(edges: seq<Edges>, ms: seq<nat>, ms': seq<nat>, n: nat)
    requires n <= |edges| == |ms| == |ms'| && ms[..n] == ms'[..n]
    ensures Returned(edges, ms, n) == Returned(edges, ms', n)
  {
    if n > 0 {
      assert ms[..n - 1] == ms[..n][..n - 1] && ms'[..n - 1] == ms'[..n][..n - 1];
      assert ms[n - 1] == ms[..n][n - 1] && ms'[n - 1] == ms'[..n][n - 1];
      ReturnedStays(edges, ms, ms', n - 1);
    }
  }

  lemma {:induction false} SamePrefix(ms: seq<nat>, ms': seq<nat>, n: nat)
    requires n < |ms| == |ms'| && ms[..n + 1] == ms'[..n + 1]
    ensures ms[..n] == ms'[..n]
  {
    assert ms[..n] == ms[..n + 1][..n] && ms'[..n] == ms'[..n + 1][..n];
  }

  lemma {:induction false} NothingReturned(edges: seq<Edges>, ms: seq<nat>, n: nat)
    requires n <= |edges| == |ms|
    ensures [] !in edges ==> Returned(edges, ms, n) == 0
  {
    if n > 0 {
      NothingReturned(edges, ms, n - 1);
      assert edges[n - 1] in edges;
    }
  }

  lemma {:induction false} WholeShare(mass: nat)
    ensures BranchProbability.NearShare(mass, mass, 1, 1, 1)
  {
  }

  lemma {:induction false} AllZero(ms: seq<nat>)
    requires forall i :: 0 <= i < |ms| ==> ms[i] == 0
    ensures Sum(ms) == 0
    decreases |ms|
  {
    if ms != [] {
      AllZero(ms[1..]);
    }
  }

  /** One step of the walk over the weights. */
  lemma {:induction false} OneGiven(l: Ledger, ws: Weights, weight: nat, mass: nat, taken: nat)
    requires ws != [] && Shareable(ws, weight) && TargetsOk(l, ws) && mass <= UINT64_MAX
    requires ws[0].amount <= weight && taken == BranchProbability.Portion(mass, ws[0].amount, weight) <= mass
    ensures TargetOk(l, ws[0]) && TargetsOk(Give(l, ws[0], taken), ws[1..])
    ensures GiveAll(Give(l, ws[0], taken), ws[1..], Portions(ws[1..], weight - ws[0].amount, mass - taken))
         == GiveAll(l, ws, Portions(ws, weight, mass))
  {
    GiveTargets(l, ws[0], taken, ws[1..]);
    var rest := Portions(ws[1..], weight - ws[0].amount, mass - taken);
    assert ([taken] + rest)[1..] == rest;
  }

  lemma {:induction false} CombinedFewer(ws: Weights, r: Weights)
    requires Combines(ws, r)
    ensures |r| <= |ws|
  {
    TargetsDistinct(ws);
    DistinctTargets(r);
    assert Targets(r) <= Targets(ws) by {
      forall t: nat | t in Targets(r)
        ensures t in Targets(ws)
      {
        var w :| w in r && w.target == t;
        var i :| 0 <= i < |r| && r[i] == w;
        assert Merged(ws, r[i]);
        var j :| 0 <= j < |ws| && ws[j].target == t;
        assert ws[j] in ws;
      }
    }
    Sets.SubsetSize(Targets(r), Targets(ws));
  }

  lemma {:induction false} DistinctTargets(ws: Weights)
    requires Distinct(ws)
    ensures |Targets(ws)| == |ws|
    decreases |ws|
  {
    if ws != [] {
      var n := |ws| - 1;
      DistinctTargets(ws[..n]);
      assert Targets(ws) == Targets(ws[..n]) + {ws[n].target};
      assert ws[n].target !in Targets(ws[..n]);
    }
  }

  lemma {:induction false} NormalizedNonEmpty(ws: Weights, combined: Weights, shift: nat, r: Weights, total: nat)
    requires Normalized(ws, combined, shift, r, total) && ws != []
    ensures r != []
  {
    assert HasTarget(combined, ws[0].target);
  }

  lemma {:induction false} NormalizedEmpty(combined: Weights, shift: nat, r: Weights, total: nat)
    requires Normalized([], combined, shift, r, total)
    ensures r == []
  {
    CombinedFewer([], combined);
  }

  lemma {:induction false} PrefixTotal(ws: Weights, i: nat)
    requires i <= |ws|
    ensures Total(ws[..i]) <= Total(ws)
    decreases |ws|
  {
    if i == |ws| {
      assert ws[..i] == ws;
    } else {
      PrefixTotal(ws[..|ws| - 1], i);
      assert ws[..|ws| - 1][..i] == ws[..i];
    }
  }

  lemma {:induction false} OneMoreWeight(ws: Weights, i: nat)
    requires i < |ws|
    ensures Total(ws[..i]) + ws[i].amount <= Total(ws) && ws[..i + 1] == ws[..i] + [ws[i]]
  {
    PrefixTotal(ws, i + 1);
    TotalAppend(ws[..i], ws[i]);
    assert ws[..i + 1] == ws[..i] + [ws[i]];
  }

  /** A sum below 2^65 overflows only once. */
  lemma {:induction false} NoSecondOverflow(total: nat, amount: nat)
    requires total + amount < 2 * (UINT64_MAX + 1)
    ensures total > UINT64_MAX ==> total % (UINT64_MAX + 1) + amount <= UINT64_MAX
  {
  }
}
