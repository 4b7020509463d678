/** The search for the back edges of a function. */
module Backedges {
  import opened Cfg

  type Edge = (nat, nat)

  /** No edge of the path is in `cut`. */
  ghost predicate Avoids(p: seq<nat>, cut: seq<Edge>) {
    !exists i :: Uses(p, i, cut)
  }

  predicate Uses(p: seq<nat>, i: int, cut: seq<Edge>) {
    0 <= i < |p| - 1 && (p[i], p[i + 1]) in cut
  }

  ghost predicate IsCycle(f: Graph, p: seq<nat>) {
    IsPath(f, p) && |p| > 1 && p[0] == p[|p| - 1] && Reach(f, 0, p[0])
  }

  /** An edge of the reachable part of the graph that closes a cycle. */
  ghost predicate ClosesCycle(f: Graph, e: Edge) {
    e.0 < |f| && e.1 in f[e.0] && Reach(f, 0, e.0) && Reach(f, e.1, e.0)
  }

  /** A stack entry is a block and the position of its successor iterator. */
  type Stack = seq<(nat, nat)>

  ghost predicate StackOk(f: Graph, stack: Stack, inStack: set<nat>) {
    && (forall i :: 0 <= i < |stack| ==> stack[i].0 < |f| && stack[i].1 <= |f[stack[i].0]| && stack[i].0 in inStack)
    && (forall b {:trigger OnStack(stack, b)} :: b in inStack ==> OnStack(stack, b))
    && (forall i, j :: 0 <= i < j < |stack| ==> stack[i].0 != stack[j].0)
    && (forall i :: 0 <= i < |stack| - 1 ==> Linked(f, stack, i))
  }

  ghost predicate OnStack(stack: Stack, b: nat) {
    exists i :: 0 <= i < |stack| && stack[i].0 == b
  }

  /** The block at height `i` is being searched through the one above it. */
  predicate Linked(f: Graph, stack: Stack, i: int) {
    && 0 <= i < |stack| - 1
    && var (u, k) := stack[i];
    && u < |f| && 0 < k <= |f[u]| && f[u][k - 1] == stack[i + 1].0
  }

  /** An edge has been dealt with: reported, or it leads to a block that was
      left before `limit` blocks had been. */
  ghost predicate Settled(result: seq<Edge>, rank: map<nat, nat>, u: nat, v: nat, limit: nat) {
    (u, v) in result || (v in rank && rank[v] < limit)
  }

  /** Successor `k` of the block at height `i` of the stack has been dealt with;
      the one that leads to the next height is still being. */
  predicate Passed(stack: Stack, i: int, k: int) {
    0 <= i < |stack| && 0 <= k < stack[i].1 && !(i < |stack| - 1 && k == stack[i].1 - 1)
  }

  ghost predicate Dealt(f: Graph, visited: set<nat>, rank: map<nat, nat>, result: seq<Edge>, u: nat, k: int,
                        limit: nat) {
    0 <= k && u < |f| && k < |f[u]| ==> f[u][k] in visited && Settled(result, rank, u, f[u][k], limit)
  }

  ghost predicate ScannedOk(f: Graph, stack: Stack, visited: set<nat>, rank: map<nat, nat>, result: seq<Edge>) {
    forall i, k :: Passed(stack, i, k) ==> Dealt(f, visited, rank, result, stack[i].0, k, |rank|)
  }

  /** `rank` numbers the blocks the search has left, in that order. */
  ghost predicate LeftOk(f: Graph, visited: set<nat>, rank: map<nat, nat>, result: seq<Edge>) {
    && (forall b :: b in rank ==> b < |f| && rank[b] < |rank|)
    && (forall u, k :: u in rank ==> Dealt(f, visited, rank, result, u, k, rank[u]))
  }

  /** Visited blocks are on the stack or have been left, and never both. */
  ghost predicate Partition(inStack: set<nat>, visited: set<nat>, rank: map<nat, nat>) {
    visited == inStack + rank.Keys && inStack !! rank.Keys
  }

  ghost predicate VisitedOk(f: Graph, visited: set<nat>) {
    0 in visited && forall b :: b in visited ==> b < |f| && Reach(f, 0, b)
  }

  ghost predicate ReportedOk(f: Graph, result: seq<Edge>) {
    forall e :: e in result ==> ClosesCycle(f, e)
  }

  ghost predicate SearchOk(f: Graph, stack: Stack, inStack: set<nat>, visited: set<nat>, rank: map<nat, nat>,
                           result: seq<Edge>) {
    && StackOk(f, stack, inStack)
    && Partition(inStack, visited, rank)
    && VisitedOk(f, visited)
    && ReportedOk(f, result)
    && LeftOk(f, visited, rank, result)
    && ScannedOk(f, stack, visited, rank, result)
  }

  lemma {:induction false} PartitionEnter(inStack: set<nat>, visited: set<nat>, rank: map<nat, nat>, v: nat)
    requires Partition(inStack, visited, rank) && v !in visited
    ensures Partition(inStack + {v}, visited + {v}, rank)
  {
  }

  lemma {:induction false} PartitionLeave(inStack: set<nat>, visited: set<nat>, rank: map<nat, nat>,
                                          rank': map<nat, nat>, u: nat)
    requires Partition(inStack, visited, rank) && u in inStack && rank' == rank[u := |rank|]
    ensures Partition(inStack - {u}, visited, rank') && u !in rank
  {
    assert rank'.Keys == rank.Keys + {u};
  }

  /** An edge from the top of the stack back into it closes a cycle. */
  lemma {:induction false} Reported(f: Graph, stack: Stack, inStack: set<nat>, visited: set<nat>, result: seq<Edge>,
                                    u: nat, i: nat)
    requires WellFormed(f) && StackOk(f, stack, inStack) && VisitedOk(f, visited) && ReportedOk(f, result)
    requires stack != [] && stack[|stack| - 1].0 == u && u in visited && i < |f[u]| && f[u][i] in inStack
    ensures ReportedOk(f, result + [(u, f[u][i])])
  {
    assert OnStack(stack, f[u][i]);
    var j :| 0 <= j < |stack| && stack[j].0 == f[u][i];
    StackReaches(f, stack, inStack, j);
    assert ClosesCycle(f, (u, f[u][i]));
  }

  lemma {:induction false} StackMoves(f: Graph, stack: Stack, inStack: set<nat>)
    requires WellFormed(f) && StackOk(f, stack, inStack) && stack != []
    requires stack[|stack| - 1].1 < |f[stack[|stack| - 1].0]|
    ensures var (u, i) := stack[|stack| - 1]; StackOk(f, stack[|stack| - 1 := (u, i + 1)], inStack)
  {
    var (u, i) := stack[|stack| - 1];
    var stack' := stack[|stack| - 1 := (u, i + 1)];
    forall k | 0 <= k < |stack'| - 1
      ensures Linked(f, stack', k)
    {
      assert k < |stack| - 1 ==> Linked(f, stack, k);
    }
    forall b | b in inStack
      ensures OnStack(stack', b)
    {
      assert OnStack(stack, b);
      var k :| 0 <= k < |stack| && stack[k].0 == b;
      assert stack'[k].0 == b;
    }
  }

  lemma {:induction false} StackPushes(f: Graph, stack: Stack, inStack: set<nat>)
    requires WellFormed(f) && StackOk(f, stack, inStack) && stack != []
    requires var (u, i) := stack[|stack| - 1]; i < |f[u]| && f[u][i] !in inStack
    ensures var (u, i) := stack[|stack| - 1];
      StackOk(f, stack[|stack| - 1 := (u, i + 1)] + [(f[u][i], 0)], inStack + {f[u][i]})
  {
    var (u, i) := stack[|stack| - 1];
    var v := f[u][i];
    var stack' := stack[|stack| - 1 := (u, i + 1)] + [(v, 0)];
    forall k | 0 <= k < |stack'| - 1
      ensures Linked(f, stack', k)
    {
      assert k < |stack| - 1 ==> Linked(f, stack, k);
    }
    forall b | b in inStack + {v}
      ensures OnStack(stack', b)
    {
      if b == v {
        assert stack'[|stack|].0 == b;
      } else {
        assert OnStack(stack, b);
        var k :| 0 <= k < |stack| && stack[k].0 == b;
        assert stack'[k].0 == b;
      }
    }
  }

  lemma {:induction false} StackPops(f: Graph, stack: Stack, inStack: set<nat>)
    requires WellFormed(f) && StackOk(f, stack, inStack) && stack != []
    ensures StackOk(f, stack[..|stack| - 1], inStack - {stack[|stack| - 1].0})
  {
    var stack' := stack[..|stack| - 1];
    forall k | 0 <= k < |stack'| - 1
      ensures Linked(f, stack', k)
    {
      assert k < |stack| - 1 ==> Linked(f, stack, k);
    }
    var rest := inStack - {stack[|stack| - 1].0};
    forall b | b in rest
      ensures OnStack(stack', b)
    {
      assert OnStack(stack, b);
      var k :| 0 <= k < |stack| && stack[k].0 == b;
      assert stack'[k].0 == b;
    }
  }

  /** The blocks on the stack are linked by edges, from the bottom up. */
  lemma {:induction false} StackReaches(f: Graph, stack: Stack, inStack: set<nat>, i: nat)
    requires WellFormed(f) && StackOk(f, stack, inStack) && i < |stack|
    ensures Reach(f, stack[i].0, stack[|stack| - 1].0)
    decreases |stack| - i
  {
    if i == |stack| - 1 {
      ReachSelf(f, stack[i].0);
    } else {
      assert Linked(f, stack, i);
      ReachSelf(f, stack[i].0);
      ReachStep(f, stack[i].0, stack[i].0, stack[i + 1].0);
      StackReaches(f, stack, inStack, i + 1);
      ReachTransitive(f, stack[i].0, stack[i + 1].0, stack[|stack| - 1].0);
    }
  }

  lemma {:induction false} DealtStays(f: Graph, visited: set<nat>, rank: map<nat, nat>, result: seq<Edge>,
                                      visited': set<nat>, rank': map<nat, nat>, result': seq<Edge>, u: nat, k: int,
                                      limit: nat, limit': nat)
    requires Dealt(f, visited, rank, result, u, k, limit)
    requires visited <= visited' && result <= result' && limit <= limit'
    requires forall b :: b in rank ==> b in rank' && rank'[b] == rank[b]
    ensures Dealt(f, visited', rank', result', u, k, limit')
  {
  }

  lemma {:induction false} LeftStays(f: Graph, visited: set<nat>, rank: map<nat, nat>, result: seq<Edge>,
                                     visited': set<nat>, result': seq<Edge>)
    requires LeftOk(f, visited, rank, result) && visited <= visited' && result <= result'
    ensures LeftOk(f, visited', rank, result')
  {
    forall u, k | u in rank
      ensures Dealt(f, visited', rank, result', u, k, rank[u])
    {
      DealtStays(f, visited, rank, result, visited', rank, result', u, k, rank[u], rank[u]);
    }
  }

  lemma {:induction false} ScannedSeen(f: Graph, stack: Stack, visited: set<nat>, rank: map<nat, nat>,
                                       result: seq<Edge>, stack': Stack, result': seq<Edge>, u: nat, i: nat)
    requires ScannedOk(f, stack, visited, rank, result) && result <= result'
    requires stack != [] && stack[|stack| - 1].0 == u && stack[|stack| - 1].1 == i &&
             stack' == stack[|stack| - 1 := (u, i + 1)]
    requires Dealt(f, visited, rank, result', u, i, |rank|)
    ensures ScannedOk(f, stack', visited, rank, result')
  {
    forall h, k | Passed(stack', h, k)
      ensures Dealt(f, visited, rank, result', stack'[h].0, k, |rank|)
    {
      if !(h == |stack| - 1 && k == i) {
        assert Passed(stack, h, k);
        DealtStays(f, visited, rank, result, visited, rank, result', stack[h].0, k, |rank|, |rank|);
      }
    }
  }

  lemma {:induction false} ScannedNew(f: Graph, stack: Stack, visited: set<nat>, rank: map<nat, nat>,
                                      result: seq<Edge>, stack': Stack, u: nat, i: nat, v: nat)
    requires ScannedOk(f, stack, visited, rank, result)
    requires stack != [] && stack[|stack| - 1].0 == u && stack[|stack| - 1].1 == i &&
             stack' == stack[|stack| - 1 := (u, i + 1)] + [(v, 0)]
    ensures ScannedOk(f, stack', visited + {v}, rank, result)
  {
    forall h, k | Passed(stack', h, k)
      ensures Dealt(f, visited + {v}, rank, result, stack'[h].0, k, |rank|)
    {
      assert Passed(stack, h, k);
      DealtStays(f, visited, rank, result, visited + {v}, rank, result, stack[h].0, k, |rank|, |rank|);
    }
  }

  lemma {:induction false} ScannedLeft(f: Graph, stack: Stack, visited: set<nat>, rank: map<nat, nat>,
                                       result: seq<Edge>, rank': map<nat, nat>, u: nat)
    requires ScannedOk(f, stack, visited, rank, result) && u !in rank && rank' == rank[u := |rank|] && u in visited
    requires stack != [] && stack[|stack| - 1].0 == u && (|stack| > 1 ==> Linked(f, stack, |stack| - 2))
    ensures ScannedOk(f, stack[..|stack| - 1], visited, rank', result)
  {
    var stack' := stack[..|stack| - 1];
    assert rank'.Keys == rank.Keys + {u} && |rank'.Keys| == |rank.Keys| + 1;
    forall h, k | Passed(stack', h, k)
      ensures Dealt(f, visited, rank', result, stack'[h].0, k, |rank'|)
    {
      if Passed(stack, h, k) {
        DealtStays(f, visited, rank, result, visited, rank', result, stack[h].0, k, |rank|, |rank'|);
      } else {
        assert h == |stack| - 2 && Settled(result, rank', stack[h].0, u, |rank'|);
      }
    }
  }

  lemma {:induction false} LeftMore(f: Graph, stack: Stack, visited: set<nat>, rank: map<nat, nat>, result: seq<Edge>,
                                    rank': map<nat, nat>, u: nat)
    requires ScannedOk(f, stack, visited, rank, result) && LeftOk(f, visited, rank, result)
    requires u < |f| && u !in rank && rank' == rank[u := |rank|]
    requires stack != [] && stack[|stack| - 1].0 == u && stack[|stack| - 1].1 == |f[u]|
    ensures LeftOk(f, visited, rank', result)
  {
    assert rank'.Keys == rank.Keys + {u} && |rank'.Keys| == |rank.Keys| + 1;
    forall a, k | a in rank'
      ensures Dealt(f, visited, rank', result, a, k, rank'[a])
    {
      if a == u {
        if 0 <= k < |f[u]| {
          assert Passed(stack, |stack| - 1, k);
          DealtStays(f, visited, rank, result, visited, rank', result, u, k, |rank|, |rank|);
        }
      } else {
        DealtStays(f, visited, rank, result, visited, rank', result, a, k, rank[a], rank[a]);
      }
    }
  }

  lemma {:induction false} TopVisited(f: Graph, stack: Stack, inStack: set<nat>, visited: set<nat>,
                                      rank: map<nat, nat>)
    requires StackOk(f, stack, inStack) && Partition(inStack, visited, rank) && stack != []
    ensures stack[|stack| - 1].0 in visited
  {
  }

  lemma {:induction false} SeenSettled(f: Graph, inStack: set<nat>, visited: set<nat>, rank: map<nat, nat>,
                                       result: seq<Edge>, result': seq<Edge>, u: nat, v: nat)
    requires Partition(inStack, visited, rank) && LeftOk(f, visited, rank, result) && v in visited
    requires result' == if v in inStack then result + [(u, v)] else result
    ensures result <= result' && Settled(result', rank, u, v, |rank|)
  {
    if v in inStack {
      assert result'[|result|] == (u, v);
    }
  }

  /** The top block's next successor has been seen before: if it is still on
      the stack, the edge is reported. */
  lemma {:induction false} SeenSuccessor(f: Graph, stack: Stack, inStack: set<nat>, visited: set<nat>,
                                         rank: map<nat, nat>, result: seq<Edge>, result': seq<Edge>, u: nat, i: nat)
    requires WellFormed(f) && SearchOk(f, stack, inStack, visited, rank, result) && stack != []
    requires stack[|stack| - 1].0 == u && stack[|stack| - 1].1 == i
    requires u < |f| && i < |f[u]| && f[u][i] in visited
    requires result' == if f[u][i] in inStack then result + [(u, f[u][i])] else result
    ensures SearchOk(f, stack[|stack| - 1 := (u, i + 1)], inStack, visited, rank, result')
  {
    hide StackOk, Partition, VisitedOk, ReportedOk, LeftOk, ScannedOk, Settled;
    var v := f[u][i];
    TopVisited(f, stack, inStack, visited, rank);
    StackMoves(f, stack, inStack);
    if v in inStack {
      Reported(f, stack, inStack, visited, result, u, i);
    }
    SeenSettled(f, inStack, visited, rank, result, result', u, v);
    LeftStays(f, visited, rank, result, visited, result');
    ScannedSeen(f, stack, visited, rank, result, stack[|stack| - 1 := (u, i + 1)], result', u, i);
  }

  /** It has not been seen: it goes onto the stack. */
  lemma {:induction false} NewSuccessor(f: Graph, stack: Stack, inStack: set<nat>, visited: set<nat>,
                                        rank: map<nat, nat>, result: seq<Edge>, u: nat, i: nat, v: nat)
    requires WellFormed(f) && SearchOk(f, stack, inStack, visited, rank, result) && stack != []
    requires stack[|stack| - 1].0 == u && stack[|stack| - 1].1 == i
    requires u < |f| && i < |f[u]| && f[u][i] == v && v !in visited
    ensures SearchOk(f, stack[|stack| - 1 := (u, i + 1)] + [(v, 0)], inStack + {v}, visited + {v}, rank, result)
  {
    ReachStep(f, 0, u, v);
    StackPushes(f, stack, inStack);
    PartitionEnter(inStack, visited, rank, v);
    LeftStays(f, visited, rank, result, visited + {v}, result);
    ScannedNew(f, stack, visited, rank, result, stack[|stack| - 1 := (u, i + 1)] + [(v, 0)], u, i, v);
  }

  /** All successors of the top block have been seen: the search leaves it. */
  lemma {:induction false} LeaveBlock(f: Graph, stack: Stack, inStack: set<nat>, visited: set<nat>,
                                      rank: map<nat, nat>, result: seq<Edge>, u: nat)
    requires WellFormed(f) && SearchOk(f, stack, inStack, visited, rank, result) && stack != []
    requires u < |f| && stack[|stack| - 1].0 == u && stack[|stack| - 1].1 == |f[u]|
    ensures SearchOk(f, stack[..|stack| - 1], inStack - {u}, visited, rank[u := |rank|], result)
  {
    var rank': map<nat, nat> := rank[u := |rank|];
    StackPops(f, stack, inStack);
    PartitionLeave(inStack, visited, rank, rank', u);
    assert |stack| > 1 ==> Linked(f, stack, |stack| - 2);
    LeftMore(f, stack, visited, rank, result, rank', u);
    ScannedLeft(f, stack, visited, rank, result, rank', u);
  }

  // ----- no edge too many -----

  predicate Above(stack: Stack, x: nat, y: nat) {
    exists i, j :: 0 <= i < j < |stack| && stack[i].0 == x && stack[j].0 == y
  }

  /** The search leaves `y` before `x`. */
  predicate Sooner(stack: Stack, rank: map<nat, nat>, x: nat, y: nat) {
    (y in rank && (x in rank ==> rank[y] < rank[x])) || Above(stack, x, y)
  }

  predicate Falls(stack: Stack, rank: map<nat, nat>, p: seq<nat>, i: int) {
    0 <= i < |p| - 1 && Sooner(stack, rank, p[i], p[i + 1])
  }

  /** There is a path along which blocks are left ever sooner. */
  ghost predicate FallsTo(f: Graph, stack: Stack, rank: map<nat, nat>, a: nat, b: nat) {
    exists p :: PathFrom(f, p, a, b) && FallsAlong(stack, rank, p)
  }

  ghost predicate FallsAlong(stack: Stack, rank: map<nat, nat>, p: seq<nat>) {
    forall i :: 0 <= i < |p| - 1 ==> Falls(stack, rank, p, i)
  }

  /** Reported edges go up, and such a path leads down again. */
  ghost predicate UpAndDown(f: Graph, stack: Stack, visited: set<nat>, rank: map<nat, nat>, result: seq<Edge>) {
    forall e :: e in result ==>
      e.0 in visited && e.1 in visited && !Sooner(stack, rank, e.0, e.1) && FallsTo(f, stack, rank, e.1, e.0)
  }

  /** An edge up is reported as often as it has been seen: in blocks that were left, and
      in those on the stack. */
  ghost predicate CountedLeft(f: Graph, stack: Stack, visited: set<nat>, rank: map<nat, nat>, result: seq<Edge>)
    requires forall u :: u in rank ==> u < |f|
  {
    forall u: nat, v: nat :: u in rank && v in visited && !Sooner(stack, rank, u, v) ==>
      multiset(result)[(u, v)] == multiset(f[u])[v]
  }

  ghost predicate CountedOn(f: Graph, stack: Stack, visited: set<nat>, rank: map<nat, nat>, result: seq<Edge>)
    requires forall i :: 0 <= i < |stack| ==> stack[i].0 < |f| && stack[i].1 <= |f[stack[i].0]|
  {
    forall i, v: nat :: 0 <= i < |stack| && v in visited && !Sooner(stack, rank, stack[i].0, v) ==>
      multiset(result)[(stack[i].0, v)] == multiset(f[stack[i].0][..stack[i].1])[v]
  }

  ghost predicate Exact(f: Graph, stack: Stack, visited: set<nat>, rank: map<nat, nat>, result: seq<Edge>) {
    && (forall u :: u in rank ==> u < |f|)
    && (forall i :: 0 <= i < |stack| ==> stack[i].0 < |f| && stack[i].1 <= |f[stack[i].0]|)
    && UpAndDown(f, stack, visited, rank, result)
    && CountedLeft(f, stack, visited, rank, result)
    && CountedOn(f, stack, visited, rank, result)
  }

  /** A step keeps what was sooner, and among the blocks visited makes nothing sooner. */
  ghost predicate SameOrder(stack: Stack, visited: set<nat>, rank: map<nat, nat>, stack': Stack, rank': map<nat, nat>) {
    && (forall x: nat, y: nat :: Sooner(stack, rank, x, y) ==> Sooner(stack', rank', x, y))
    && (forall x: nat, y: nat :: x in visited && y in visited && Sooner(stack', rank', x, y) ==>
        Sooner(stack, rank, x, y))
  }

  lemma {:induction false} FallsStill(f: Graph, stack: Stack, visited: set<nat>, rank: map<nat, nat>, stack': Stack,
                                      rank': map<nat, nat>, a: nat, b: nat)
    requires SameOrder(stack, visited, rank, stack', rank') && FallsTo(f, stack, rank, a, b)
    ensures FallsTo(f, stack', rank', a, b)
  {
    var p :| PathFrom(f, p, a, b) && FallsAlong(stack, rank, p);
    forall i | 0 <= i < |p| - 1
      ensures Falls(stack', rank', p, i)
    {
      assert Falls(stack, rank, p, i);
    }
  }

  lemma {:induction false} UpAndDownStays(f: Graph, stack: Stack, visited: set<nat>, rank: map<nat, nat>,
                                          result: seq<Edge>, stack': Stack, visited': set<nat>, rank': map<nat, nat>)
    requires UpAndDown(f, stack, visited, rank, result) && SameOrder(stack, visited, rank, stack', rank')
    requires visited <= visited'
    ensures UpAndDown(f, stack', visited', rank', result)
  {
    forall e | e in result
      ensures FallsTo(f, stack', rank', e.1, e.0) && !Sooner(stack', rank', e.0, e.1)
    {
      FallsStill(f, stack, visited, rank, stack', rank', e.1, e.0);
    }
  }

  lemma {:induction false} OrderMoves(stack: Stack, visited: set<nat>, rank: map<nat, nat>, u: nat, k: nat)
    requires stack != [] && stack[|stack| - 1].0 == u
    ensures SameOrder(stack, visited, rank, stack[|stack| - 1 := (u, k)], rank)
  {
    var stack' := stack[|stack| - 1 := (u, k)];
    assert forall i :: 0 <= i < |stack| ==> stack'[i].0 == stack[i].0;
    forall x: nat, y: nat
      ensures Above(stack, x, y) <==> Above(stack', x, y)
    {
    }
  }

  lemma {:induction false} OrderPushes(stack: Stack, visited: set<nat>, rank: map<nat, nat>, v: nat)
    requires v !in visited
    ensures SameOrder(stack, visited, rank, stack + [(v, 0)], rank)
  {
    var stack' := stack + [(v, 0)];
    assert forall i :: 0 <= i < |stack| ==> stack'[i] == stack[i];
    forall x: nat, y: nat
      ensures Above(stack, x, y) ==> Above(stack', x, y)
    {
      if Above(stack, x, y) {
        var i, j :| 0 <= i < j < |stack| && stack[i].0 == x && stack[j].0 == y;
        assert stack'[i].0 == x && stack'[j].0 == y;
      }
    }
  }

  lemma {:induction false} OrderPops(f: Graph, stack: Stack, inStack: set<nat>, visited: set<nat>, rank: map<nat, nat>,
                                     u: nat)
    requires StackOk(f, stack, inStack) && Partition(inStack, visited, rank)
    requires forall b :: b in rank ==> rank[b] < |rank|
    requires stack != [] && stack[|stack| - 1].0 == u
    ensures SameOrder(stack, visited, rank, stack[..|stack| - 1], rank[u := |rank|])
  {
    var stack', rank' := stack[..|stack| - 1], rank[u := |rank|];
    forall x: nat, y: nat | Sooner(stack, rank, x, y)
      ensures Sooner(stack', rank', x, y)
    {
      SoonerPops(f, stack, inStack, visited, rank, u, x, y);
    }
    forall x: nat, y: nat | x in visited && y in visited && Sooner(stack', rank', x, y)
      ensures Sooner(stack, rank, x, y)
    {
      PopsSooner(f, stack, inStack, visited, rank, u, x, y);
    }
  }

  lemma {:induction false} AbovePops(f: Graph, stack: Stack, inStack: set<nat>, x: nat, y: nat)
    requires StackOk(f, stack, inStack) && Above(stack, x, y)
    ensures stack != [] && x in inStack && x != stack[|stack| - 1].0
    ensures Above(stack[..|stack| - 1], x, y) || y == stack[|stack| - 1].0
  {
    var i, j :| 0 <= i < j < |stack| && stack[i].0 == x && stack[j].0 == y;
    if j < |stack| - 1 {
      assert stack[..|stack| - 1][i].0 == x && stack[..|stack| - 1][j].0 == y;
    }
  }

  lemma {:induction false} SoonerPops(f: Graph, stack: Stack, inStack: set<nat>, visited: set<nat>,
                                      rank: map<nat, nat>, u: nat, x: nat, y: nat)
    requires StackOk(f, stack, inStack) && Partition(inStack, visited, rank)
    requires forall b :: b in rank ==> rank[b] < |rank|
    requires stack != [] && stack[|stack| - 1].0 == u && Sooner(stack, rank, x, y)
    ensures Sooner(stack[..|stack| - 1], rank[u := |rank|], x, y)
  {
    hide Above, Linked, OnStack;
    if Above(stack, x, y) {
      AbovePops(f, stack, inStack, x, y);
    }
  }

  lemma {:induction false} PopsSooner(f: Graph, stack: Stack, inStack: set<nat>, visited: set<nat>,
                                      rank: map<nat, nat>, u: nat, x: nat, y: nat)
    requires StackOk(f, stack, inStack) && Partition(inStack, visited, rank)
    requires forall b :: b in rank ==> rank[b] < |rank|
    requires stack != [] && stack[|stack| - 1].0 == u && x in visited && y in visited
    requires Sooner(stack[..|stack| - 1], rank[u := |rank|], x, y)
    ensures Sooner(stack, rank, x, y)
  {
    var stack' := stack[..|stack| - 1];
    if Above(stack', x, y) {
      var i, j :| 0 <= i < j < |stack'| && stack'[i].0 == x && stack'[j].0 == y;
      assert stack[i].0 == x && stack[j].0 == y;
    } else if y == u && x != u {
      assert OnStack(stack, x);
      var i :| 0 <= i < |stack| && stack[i].0 == x;
      assert stack[|stack| - 1].0 == y;
    }
  }

  /** From a block on the stack the links lead to the top. */
  lemma {:induction false} StackFalls(f: Graph, stack: Stack, inStack: set<nat>, rank: map<nat, nat>, i: nat)
    requires WellFormed(f) && StackOk(f, stack, inStack) && i < |stack|
    ensures FallsTo(f, stack, rank, stack[i].0, stack[|stack| - 1].0)
    decreases |stack| - i
  {
    if i == |stack| - 1 {
      assert PathFrom(f, [stack[i].0], stack[i].0, stack[i].0) && FallsAlong(stack, rank, [stack[i].0]);
    } else {
      StackFalls(f, stack, inStack, rank, i + 1);
      assert Linked(f, stack, i) && Above(stack, stack[i].0, stack[i + 1].0);
      var q :| PathFrom(f, q, stack[i + 1].0, stack[|stack| - 1].0) && FallsAlong(stack, rank, q);
      FallsFurther(f, stack, rank, stack[i].0, q);
    }
  }

  lemma {:induction false} FallsFurther(f: Graph, stack: Stack, rank: map<nat, nat>, a: nat, q: seq<nat>)
    requires IsPath(f, q) && FallsAlong(stack, rank, q)
    requires a < |f| && q[0] in f[a] && Sooner(stack, rank, a, q[0])
    ensures FallsTo(f, stack, rank, a, q[|q| - 1])
  {
    var p := [a] + q;
    forall i | 0 <= i < |p| - 1
      ensures Hop(f, p, i) && Falls(stack, rank, p, i)
    {
      if i > 0 {
        assert Hop(f, q, i - 1) && Falls(stack, rank, q, i - 1);
      }
    }
    assert PathFrom(f, p, a, q[|q| - 1]);
  }

  /** At the top of the stack, the blocks on it are those not left sooner. */
  lemma {:induction false} TopIsLast(f: Graph, stack: Stack, inStack: set<nat>, visited: set<nat>, rank: map<nat, nat>,
                                     u: nat, v: nat)
    requires StackOk(f, stack, inStack) && Partition(inStack, visited, rank) && v in visited
    requires stack != [] && stack[|stack| - 1].0 == u
    ensures v in inStack <==> !Sooner(stack, rank, u, v)
  {
  }

  lemma {:induction false} ReportedUp(f: Graph, stack: Stack, inStack: set<nat>, visited: set<nat>,
                                      rank: map<nat, nat>, result: seq<Edge>, u: nat, v: nat)
    requires WellFormed(f) && StackOk(f, stack, inStack) && Partition(inStack, visited, rank)
    requires UpAndDown(f, stack, visited, rank, result)
    requires stack != [] && stack[|stack| - 1].0 == u && v in inStack
    ensures UpAndDown(f, stack, visited, rank, result + [(u, v)])
  {
    assert OnStack(stack, v);
    var j :| 0 <= j < |stack| && stack[j].0 == v;
    StackFalls(f, stack, inStack, rank, j);
    TopIsLast(f, stack, inStack, visited, rank, u, v);
  }

  lemma {:induction false} CountsMove(f: Graph, stack: Stack, inStack: set<nat>, visited: set<nat>,
                                      rank: map<nat, nat>, result: seq<Edge>, result': seq<Edge>, u: nat, i: nat)
    requires StackOk(f, stack, inStack) && Partition(inStack, visited, rank)
    requires Exact(f, stack, visited, rank, result) && stack != [] && stack[|stack| - 1] == (u, i)
    requires i < |f[u]| && f[u][i] in visited
    requires result' == if f[u][i] in inStack then result + [(u, f[u][i])] else result
    ensures var stack' := stack[|stack| - 1 := (u, i + 1)];
      CountedLeft(f, stack', visited, rank, result') && CountedOn(f, stack', visited, rank, result')
  {
    hide Above, FallsTo, Linked;
    var stack' := stack[|stack| - 1 := (u, i + 1)];
    OrderMoves(stack, visited, rank, u, i + 1);
    assert f[u][..i + 1] == f[u][..i] + [f[u][i]];
    forall h, v: nat | 0 <= h < |stack'| && v in visited && !Sooner(stack', rank, stack'[h].0, v)
      ensures multiset(result')[(stack'[h].0, v)] == multiset(f[stack'[h].0][..stack'[h].1])[v]
    {
      assert !Sooner(stack, rank, stack[h].0, v);
      if h == |stack| - 1 {
        TopIsLast(f, stack, inStack, visited, rank, u, f[u][i]);
      } else {
        assert stack[h].0 != u;
      }
    }
    forall a: nat, v: nat | a in rank && v in visited && !Sooner(stack', rank, a, v)
      ensures multiset(result')[(a, v)] == multiset(f[a])[v]
    {
      assert !Sooner(stack, rank, a, v);
    }
  }

  lemma {:induction false} SeenExact(f: Graph, stack: Stack, inStack: set<nat>, visited: set<nat>, rank: map<nat, nat>,
                                     result: seq<Edge>, result': seq<Edge>, u: nat, i: nat)
    requires WellFormed(f) && StackOk(f, stack, inStack) && Partition(inStack, visited, rank)
    requires Exact(f, stack, visited, rank, result) && stack != [] && stack[|stack| - 1] == (u, i)
    requires i < |f[u]| && f[u][i] in visited
    requires result' == if f[u][i] in inStack then result + [(u, f[u][i])] else result
    ensures Exact(f, stack[|stack| - 1 := (u, i + 1)], visited, rank, result')
  {
    hide CountedLeft, CountedOn, UpAndDown;
    if f[u][i] in inStack {
      ReportedUp(f, stack, inStack, visited, rank, result, u, f[u][i]);
    }
    OrderMoves(stack, visited, rank, u, i + 1);
    UpAndDownStays(f, stack, visited, rank, result', stack[|stack| - 1 := (u, i + 1)], visited, rank);
    CountsMove(f, stack, inStack, visited, rank, result, result', u, i);
  }

  lemma {:induction false} AbovePushed(stack: Stack, i: nat, v: nat)
    requires i < |stack|
    ensures Above(stack + [(v, 0)], stack[i].0, v)
  {
    var stack' := stack + [(v, 0)];
    assert stack'[i].0 == stack[i].0 && stack'[|stack|].0 == v;
  }

  lemma {:induction false} CountsPush(f: Graph, stack: Stack, inStack: set<nat>, visited: set<nat>,
                                      rank: map<nat, nat>, result: seq<Edge>, v: nat)
    requires StackOk(f, stack, inStack) && Partition(inStack, visited, rank) && LeftOk(f, visited, rank, result)
    requires Exact(f, stack, visited, rank, result) && v < |f| && v !in visited
    ensures CountedLeft(f, stack + [(v, 0)], visited + {v}, rank, result)
    ensures CountedOn(f, stack + [(v, 0)], visited + {v}, rank, result)
  {
    hide Above, FallsTo, Linked;
    var stack' := stack + [(v, 0)];
    OrderPushes(stack, visited, rank, v);
    forall h, b: nat | 0 <= h < |stack'| && b in visited + {v} && !Sooner(stack', rank, stack'[h].0, b)
      ensures multiset(result)[(stack'[h].0, b)] == multiset(f[stack'[h].0][..stack'[h].1])[b]
    {
      if h == |stack| {
        assert (v, b) !in result;
      } else {
        AbovePushed(stack, h, v);
        assert stack'[h] == stack[h] && b != v;
      }
    }
    forall a: nat, b: nat | a in rank && b in visited + {v} && !Sooner(stack', rank, a, b)
      ensures multiset(result)[(a, b)] == multiset(f[a])[b]
    {
      if b == v {
        SuccessorsVisited(f, visited, rank, result, a);
        assert (a, v) !in result;
      }
    }
  }

  lemma {:induction false} SuccessorsVisited(f: Graph, visited: set<nat>, rank: map<nat, nat>, result: seq<Edge>,
                                             u: nat)
    requires LeftOk(f, visited, rank, result) && u in rank
    ensures forall v :: v in f[u] ==> v in visited
  {
    forall v | v in f[u]
      ensures v in visited
    {
      var k :| 0 <= k < |f[u]| && f[u][k] == v;
      assert Dealt(f, visited, rank, result, u, k, rank[u]);
    }
  }

  /** The top block's iterator moves past a block not visited yet. */
  lemma {:induction false} CountsPass(f: Graph, stack: Stack, visited: set<nat>, rank: map<nat, nat>,
                                      result: seq<Edge>, u: nat, i: nat)
    requires Exact(f, stack, visited, rank, result) && stack != [] && stack[|stack| - 1] == (u, i)
    requires i < |f[u]| && f[u][i] !in visited
    ensures Exact(f, stack[|stack| - 1 := (u, i + 1)], visited, rank, result)
  {
    hide Above, FallsTo, Linked;
    var stack' := stack[|stack| - 1 := (u, i + 1)];
    OrderMoves(stack, visited, rank, u, i + 1);
    UpAndDownStays(f, stack, visited, rank, result, stack', visited, rank);
    assert f[u][..i + 1] == f[u][..i] + [f[u][i]];
    forall h, v: nat | 0 <= h < |stack'| && v in visited && !Sooner(stack', rank, stack'[h].0, v)
      ensures multiset(result)[(stack'[h].0, v)] == multiset(f[stack'[h].0][..stack'[h].1])[v]
    {
      assert !Sooner(stack, rank, stack[h].0, v);
    }
    forall a: nat, v: nat | a in rank && v in visited && !Sooner(stack', rank, a, v)
      ensures multiset(result)[(a, v)] == multiset(f[a])[v]
    {
      assert !Sooner(stack, rank, a, v);
    }
  }

  lemma {:induction false} NewExact(f: Graph, stack: Stack, inStack: set<nat>, visited: set<nat>, rank: map<nat, nat>,
                                    result: seq<Edge>, u: nat, i: nat, v: nat)
    requires WellFormed(f) && StackOk(f, stack, inStack) && Partition(inStack, visited, rank)
    requires LeftOk(f, visited, rank, result)
    requires Exact(f, stack, visited, rank, result) && stack != [] && stack[|stack| - 1] == (u, i)
    requires i < |f[u]| && f[u][i] == v && v !in visited
    ensures Exact(f, stack[|stack| - 1 := (u, i + 1)] + [(v, 0)], visited + {v}, rank, result)
  {
    hide CountedLeft, CountedOn, UpAndDown, LeftOk;
    var moved := stack[|stack| - 1 := (u, i + 1)];
    CountsPass(f, stack, visited, rank, result, u, i);
    StackMoves(f, stack, inStack);
    CountsPush(f, moved, inStack, visited, rank, result, v);
    OrderPushes(moved, visited, rank, v);
    UpAndDownStays(f, moved, visited, rank, result, moved + [(v, 0)], visited + {v}, rank);
  }

  lemma {:induction false} CountsPop(f: Graph, stack: Stack, inStack: set<nat>, visited: set<nat>, rank: map<nat, nat>,
                                     result: seq<Edge>, u: nat)
    requires StackOk(f, stack, inStack) && Partition(inStack, visited, rank)
    requires Exact(f, stack, visited, rank, result) && stack != [] && u < |f| && stack[|stack| - 1] == (u, |f[u]|)
    requires SameOrder(stack, visited, rank, stack[..|stack| - 1], rank[u := |rank|])
    ensures CountedLeft(f, stack[..|stack| - 1], visited, rank[u := |rank|], result)
    ensures CountedOn(f, stack[..|stack| - 1], visited, rank[u := |rank|], result)
  {
    hide Above, FallsTo, Linked;
    var stack', rank' := stack[..|stack| - 1], rank[u := |rank|];
    assert f[u][..|f[u]|] == f[u];
    forall h, v: nat | 0 <= h < |stack'| && v in visited && !Sooner(stack', rank', stack'[h].0, v)
      ensures multiset(result)[(stack'[h].0, v)] == multiset(f[stack'[h].0][..stack'[h].1])[v]
    {
      assert !Sooner(stack, rank, stack[h].0, v);
    }
    forall a: nat, v: nat | a in rank' && v in visited && !Sooner(stack', rank', a, v)
      ensures multiset(result)[(a, v)] == multiset(f[a])[v]
    {
      assert !Sooner(stack, rank, a, v);
      if a == u {
        assert stack[|stack| - 1].0 == a;
      }
    }
  }

  lemma {:induction false} LeaveExact(f: Graph, stack: Stack, inStack: set<nat>, visited: set<nat>,
                                      rank: map<nat, nat>, result: seq<Edge>, u: nat)
    requires StackOk(f, stack, inStack) && Partition(inStack, visited, rank) && LeftOk(f, visited, rank, result)
    requires Exact(f, stack, visited, rank, result) && stack != [] && u < |f| && stack[|stack| - 1] == (u, |f[u]|)
    ensures Exact(f, stack[..|stack| - 1], visited, rank[u := |rank|], result)
  {
    hide CountedLeft, CountedOn, UpAndDown, SameOrder;
    OrderPops(f, stack, inStack, visited, rank, u);
    UpAndDownStays(f, stack, visited, rank, result, stack[..|stack| - 1], visited, rank[u := |rank|]);
    CountsPop(f, stack, inStack, visited, rank, result, u);
  }

  /** Without the edge, some cycle is left that no other reported edge cuts. */
  ghost predicate Needed(f: Graph, result: seq<Edge>, e: Edge) {
    exists p :: PathFrom(f, p, e.1, e.0) && Avoids(p, result)
  }

  lemma {:induction false} NoneTooMany(f: Graph, visited: set<nat>, rank: map<nat, nat>, result: seq<Edge>)
    requires Exact(f, [], visited, rank, result) && visited == rank.Keys
    ensures forall e :: e in result ==> Needed(f, result, e)
    ensures forall e: Edge :: e in result ==> e.0 < |f| && multiset(result)[e] == multiset(f[e.0])[e.1]
  {
    forall e: Edge | e in result
      ensures Needed(f, result, e) && e.0 < |f| && multiset(result)[e] == multiset(f[e.0])[e.1]
    {
      var p :| PathFrom(f, p, e.1, e.0) && FallsAlong([], rank, p);
      forall i
        ensures !Uses(p, i, result)
      {
        assert 0 <= i < |p| - 1 ==> Falls([], rank, p, i);
      }
      assert e == (e.0, e.1);
    }
  }

  /** Off the reported edges, paths only lead to blocks left earlier. */
  lemma {:induction false} RankFalls(f: Graph, rank: map<nat, nat>, result: seq<Edge>, p: seq<nat>)
    requires IsPath(f, p) && p[0] in rank && Avoids(p, result) && LeftOk(f, rank.Keys, rank, result)
    ensures p[|p| - 1] in rank && (|p| > 1 ==> rank[p[|p| - 1]] < rank[p[0]])
    decreases |p|
  {
    if |p| > 1 {
      var q := p[1..];
      assert Hop(f, p, 0) && !Uses(p, 0, result);
      var k :| 0 <= k < |f[p[0]]| && f[p[0]][k] == p[1];
      assert Dealt(f, rank.Keys, rank, result, p[0], k, rank[p[0]]);
      forall i | 0 <= i < |q| - 1
        ensures Hop(f, q, i)
      {
        assert Hop(f, p, i + 1);
      }
      forall i
        ensures !Uses(q, i, result)
      {
        assert !Uses(p, i + 1, result);
      }
      RankFalls(f, rank, result, q);
    }
  }

  lemma {:induction false} SearchDone(f: Graph, inStack: set<nat>, visited: set<nat>, rank: map<nat, nat>,
                                      result: seq<Edge>, p: seq<nat>)
    requires WellFormed(f) && SearchOk(f, [], inStack, visited, rank, result) && IsCycle(f, p)
    ensures !Avoids(p, result)
  {
    assert forall b :: b in inStack ==> OnStack([], b);
    assert visited == rank.Keys;
    var q :| PathFrom(f, q, 0, p[0]);
    forall b, c | b in visited && b < |f| && c in f[b]
      ensures c in visited
    {
      var k :| 0 <= k < |f[b]| && f[b][k] == c;
      assert Dealt(f, visited, rank, result, b, k, rank[b]);
    }
    ClosedUnderPath(f, visited, q);
    if Avoids(p, result) {
      RankFalls(f, rank, result, p);
    }
  }

  /** The inner loop: advances the top block's iterator to its next unvisited
      successor, reporting edges to blocks on the stack on the way. */
  method NextUnvisited(f: Graph, stack0: Stack, inStack: set<nat>, visited: set<nat>, result0: seq<Edge>,
                       ghost rank: map<nat, nat>)
    returns (foundNew: bool, bb: nat, i: nat, result: seq<Edge>)
    requires WellFormed(f) && SearchOk(f, stack0, inStack, visited, rank, result0) && stack0 != []
    requires Exact(f, stack0, visited, rank, result0)
    ensures var u := stack0[|stack0| - 1].0;
      && Exact(f, stack0[|stack0| - 1 := (u, i)], visited, rank, result)
      && SearchOk(f, stack0[|stack0| - 1 := (u, i)], inStack, visited, rank, result)
      && i <= |f[u]| && (foundNew ==> i < |f[u]| && f[u][i] == bb && bb !in visited) && (!foundNew ==> i == |f[u]|)
  {
    hide UpAndDown, CountedLeft, CountedOn, LeftOk, ScannedOk, ReportedOk, Partition;
    var parentBB := stack0[|stack0| - 1].0;
    i, bb, foundNew, result := stack0[|stack0| - 1].1, parentBB, false, result0;
    ghost var stack := stack0;
    assert stack0[|stack0| - 1 := (parentBB, i)] == stack0;
    while i < |f[parentBB]|
      invariant i <= |f[parentBB]| && !foundNew
      invariant stack == stack0[|stack0| - 1 := (parentBB, i)]
      invariant SearchOk(f, stack, inStack, visited, rank, result) && Exact(f, stack, visited, rank, result)
    {
      bb := f[parentBB][i];
      if bb !in visited {
        foundNew := true;
        break;
      }
      ghost var reported := result;
      if bb in inStack {
        result := result + [(parentBB, bb)];
      }
      SeenSuccessor(f, stack, inStack, visited, rank, reported, result, parentBB, i);
      SeenExact(f, stack, inStack, visited, rank, reported, result, parentBB, i);
      stack := stack[|stack| - 1 := (parentBB, i + 1)];
      i := i + 1;
    }
  }

  /** One turn of the outer loop: down to a new block, or back up. */
  method Turn(f: Graph, stack0: Stack, inStack0: set<nat>, visited0: set<nat>, result0: seq<Edge>,
              ghost rank0: map<nat, nat>)
    returns (stack: Stack, inStack: set<nat>, visited: set<nat>, result: seq<Edge>, ghost rank: map<nat, nat>)
    requires WellFormed(f) && SearchOk(f, stack0, inStack0, visited0, rank0, result0) && stack0 != []
    requires Exact(f, stack0, visited0, rank0, result0)
    ensures SearchOk(f, stack, inStack, visited, rank, result) && Exact(f, stack, visited, rank, result)
    ensures Blocks(f) - visited < Blocks(f) - visited0 || (visited == visited0 && |stack| < |stack0|)
  {
    hide Partition, ReportedOk, LeftOk, ScannedOk, UpAndDown, CountedLeft, CountedOn;
    var top := |stack0| - 1;
    var parentBB := stack0[top].0;
    var foundNew, bb, i;
    foundNew, bb, i, result := NextUnvisited(f, stack0, inStack0, visited0, result0, rank0);
    stack := stack0[top := (parentBB, i)];
    if foundNew {
      NewSuccessor(f, stack, inStack0, visited0, rank0, result, parentBB, i, bb);
      NewExact(f, stack, inStack0, visited0, rank0, result, parentBB, i, bb);
      FewerBlocks(f, visited0, bb);
      stack := stack[top := (parentBB, i + 1)] + [(bb, 0)];
      inStack, visited, rank := inStack0 + {bb}, visited0 + {bb}, rank0;
    } else {
      LeaveBlock(f, stack, inStack0, visited0, rank0, result, parentBB);
      LeaveExact(f, stack, inStack0, visited0, rank0, result, parentBB);
      stack := stack[..top];
      inStack, visited, rank := inStack0 - {parentBB}, visited0, rank0[parentBB := |rank0|];
    }
  }

  /** The reported edges are edges that close cycles, and every cycle of the
      reachable part uses one of them. None is reported that the others make
      unnecessary, or more often than it is there. */
  method FindFunctionBackedges(f: Graph) returns (result: seq<Edge>)
    requires WellFormed(f)
    ensures forall e :: e in result ==> ClosesCycle(f, e)
    ensures forall p :: IsCycle(f, p) ==> !Avoids(p, result)
    ensures forall e :: e in result ==> Needed(f, result, e)
    ensures forall e: Edge :: e in result ==> e.0 < |f| && multiset(result)[e] == multiset(f[e.0])[e.1]
    ensures result == [] <==> forall p :: !IsCycle(f, p)
  {
    hide StackOk, Partition, VisitedOk, LeftOk, ScannedOk, Exact, Needed;
    result := [];
    if |f[0]| == 0 {
      forall p | IsPath(f, p)
        ensures !IsCycle(f, p)
      {
        EntryAlone(f, p);
      }
      return;
    }
    var visited: set<nat>, visitStack: Stack, inStack: set<nat> := {0}, [(0, 0)], {0};
    ghost var rank: map<nat, nat> := map[];
    SearchStarts(f);
    ExactStarts(f);
    while visitStack != []
      invariant SearchOk(f, visitStack, inStack, visited, rank, result) && Exact(f, visitStack, visited, rank, result)
      decreases Blocks(f) - visited, |visitStack|
    {
      visitStack, inStack, visited, result, rank := Turn(f, visitStack, inStack, visited, result, rank);
    }
    CutsAllCycles(f, inStack, visited, rank, result);
    AllLeft(f, inStack, visited, rank, result);
    NoneTooMany(f, visited, rank, result);
  }

  lemma {:induction false} AllLeft(f: Graph, inStack: set<nat>, visited: set<nat>, rank: map<nat, nat>,
                                   result: seq<Edge>)
    requires SearchOk(f, [], inStack, visited, rank, result)
    ensures visited == rank.Keys
  {
    assert forall b :: b in inStack ==> OnStack([], b);
  }

  lemma {:induction false} CutsAllCycles(f: Graph, inStack: set<nat>, visited: set<nat>, rank: map<nat, nat>,
                                         result: seq<Edge>)
    requires WellFormed(f) && SearchOk(f, [], inStack, visited, rank, result)
    ensures forall p :: IsCycle(f, p) ==> !Avoids(p, result)
    ensures result == [] <==> forall p :: !IsCycle(f, p)
  {
    forall p | IsCycle(f, p)
      ensures !Avoids(p, result)
    {
      SearchDone(f, inStack, visited, rank, result, p);
    }
    if result == [] {
      assert forall p :: Avoids(p, result);
    } else {
      var p := CycleThrough(f, result[0]);
    }
  }

  lemma {:induction false} CycleThrough(f: Graph, e: Edge) returns (p: seq<nat>)
    requires WellFormed(f) && ClosesCycle(f, e)
    ensures IsCycle(f, p)
  {
    var q :| PathFrom(f, q, e.1, e.0);
    p := [e.0] + q;
    forall i | 0 <= i < |p| - 1
      ensures Hop(f, p, i)
    {
      assert i > 0 ==> Hop(f, q, i - 1);
    }
  }

  lemma {:induction false} FewerBlocks(f: Graph, visited: set<nat>, b: nat)
    requires b < |f| && b !in visited
    ensures Blocks(f) - (visited + {b}) < Blocks(f) - visited
  {
    assert b in Blocks(f) - visited;
  }

  lemma {:induction false} SearchStarts(f: Graph)
    requires WellFormed(f)
    ensures SearchOk(f, [(0, 0)], {0}, {0}, map[], [])
  {
    ReachSelf(f, 0);
    var stack: Stack := [(0, 0)];
    assert stack[0].0 == 0;
  }

  lemma {:induction false} ExactStarts(f: Graph)
    requires WellFormed(f)
    ensures Exact(f, [(0, 0)], {0}, map[], [])
  {
    assert f[0][..0] == [];
  }

  lemma {:induction false} EntryAlone(f: Graph, p: seq<nat>)
    requires WellFormed(f) && f[0] == []
    ensures !IsCycle(f, p)
  {
    if |p| > 1 && Reach(f, 0, p[0]) {
      var q :| PathFrom(f, q, 0, p[0]);
      ClosedUnderPath(f, {0}, q);
      assert !Hop(f, p, 0);
    }
  }
}
