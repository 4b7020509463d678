/** The bounded walk that tells whether a block can be reached from others. */
module Reachability {
  import opened Cfg
  import Sets
  import opened Wrappers

  // ----- loops -----

  /** Loops are numbered so that an outer loop comes before the ones inside it;
      `loopFor` gives the innermost loop of a block. */
  datatype LoopInfo = LoopInfo(loopFor: map<nat, nat>, parent: seq<Option<nat>>)

  predicate LoopsOk(li: LoopInfo) {
    && (forall b :: b in li.loopFor ==> li.loopFor[b] < |li.parent|)
    && (forall l :: 0 <= l < |li.parent| && li.parent[l].Some? ==> li.parent[l].value < l)
  }

  function Outermost(li: LoopInfo, l: nat): (r: nat)
    requires LoopsOk(li) && l < |li.parent|
    ensures r < |li.parent| && li.parent[r].None?
  {
    if li.parent[l].None? then l else Outermost(li, li.parent[l].value)
  }

  /** The outermost loop a block is in. */
  function OutermostFor(li: LoopInfo, b: nat): Option<nat>
    requires LoopsOk(li)
  {
    if b in li.loopFor then Some(Outermost(li, li.loopFor[b])) else None
  }

  method GetOutermostLoop(li: LoopInfo, bb: nat) returns (r: Option<nat>)
    requires LoopsOk(li)
    ensures r == OutermostFor(li, bb)
  {
    if bb !in li.loopFor {
      return None;
    }
    var l: nat := li.loopFor[bb];
    while li.parent[l].Some?
      invariant l < |li.parent| && Outermost(li, l) == Outermost(li, li.loopFor[bb])
      decreases l
    {
      l := li.parent[l].value;
    }
    return Some(l);
  }

  method LoopContainsBoth(li: LoopInfo, bb1: nat, bb2: nat) returns (r: bool)
    requires LoopsOk(li)
    ensures r <==> OutermostFor(li, bb1).Some? && OutermostFor(li, bb1) == OutermostFor(li, bb2)
  {
    var l1 := GetOutermostLoop(li, bb1);
    var l2 := GetOutermostLoop(li, bb2);
    return l1 != None && l1 == l2;
  }

  /** An edge from inside the loop `l` leads to `x`, which is outside. */
  ghost predicate ExitOf(f: Graph, li: LoopInfo, l: nat, x: nat)
    requires LoopsOk(li)
  {
    OutermostFor(li, x) != Some(l) && exists b, k :: ExitEdge(f, li, l, x, b, k)
  }

  predicate ExitEdge(f: Graph, li: LoopInfo, l: nat, x: nat, b: nat, k: nat)
    requires LoopsOk(li)
  {
    b < |f| && k < |f[b]| && f[b][k] == x && OutermostFor(li, b) == Some(l)
  }

  /** Loop::getExitBlocks, for an outermost loop. */
  method GetExitBlocks(f: Graph, li: LoopInfo, l: nat) returns (exits: seq<nat>)
    requires LoopsOk(li)
    ensures forall x :: x in exits <==> ExitOf(f, li, l, x)
  {
    exits := [];
    for b: nat := 0 to |f|
      invariant forall x :: x in exits ==> ExitOf(f, li, l, x)
      invariant forall x: nat, c: nat, k: nat ::
                  c < b && ExitEdge(f, li, l, x, c, k) && OutermostFor(li, x) != Some(l) ==> x in exits
    {
      var own := GetOutermostLoop(li, b);
      if own == Some(l) {
        var more := ExitsFrom(f, li, l, b);
        exits := exits + more;
      }
    }
  }

  method ExitsFrom(f: Graph, li: LoopInfo, l: nat, b: nat) returns (exits: seq<nat>)
    requires LoopsOk(li) && b < |f| && OutermostFor(li, b) == Some(l)
    ensures forall x :: x in exits ==> ExitOf(f, li, l, x)
    ensures forall x: nat, k: nat :: ExitEdge(f, li, l, x, b, k) && OutermostFor(li, x) != Some(l) ==> x in exits
  {
    exits := [];
    for k: nat := 0 to |f[b]|
      invariant forall x :: x in exits ==> ExitOf(f, li, l, x)
      invariant forall x: nat, j: nat :: j < k && ExitEdge(f, li, l, x, b, j) && OutermostFor(li, x) != Some(l) ==>
                x in exits
    {
      var target := GetOutermostLoop(li, f[b][k]);
      if target != Some(l) {
        assert ExitEdge(f, li, l, f[b][k], b, k);
        exits := exits + [f[b][k]];
      }
    }
  }

  /** What a dominator tree answers. */
  datatype DominatorTree = DominatorTree(reachable: set<nat>, dominated: set<(nat, nat)>)

  /** The analyses are right about this function: blocks of one loop reach each
      other, and themselves, along edges, and a dominator is on every path from the
      entry. */
  ghost predicate LoopsRight(f: Graph, li: LoopInfo)
    requires LoopsOk(li)
  {
    forall a: nat, b: nat ::
      a < |f| && b < |f| && OutermostFor(li, a).Some? && OutermostFor(li, a) == OutermostFor(li, b) ==>
      Reach(f, a, b) && ReachFromAny(f, f[a], b)
  }

  ghost predicate DominanceRight(f: Graph, dt: DominatorTree) {
    && (forall b :: b in dt.reachable ==> Reach(f, 0, b))
    && (forall a, b, p :: (a, b) in dt.dominated && PathFrom(f, p, 0, b) ==> a in p)
  }

  // ----- isPotentiallyReachableFromMany -----

  ghost predicate ReachFromAny(f: Graph, starts: seq<nat>, b: nat) {
    exists a :: a in starts && Reach(f, a, b)
  }

  /** A block whose continuation the walk has taken care of: it was visited, or
      it is in a loop of which a block was. */
  ghost predicate Covered(li: Option<LoopInfo>, visited: set<nat>, b: nat)
    requires li.Some? ==> LoopsOk(li.value)
  {
    || b in visited
    || (li.Some? && OutermostFor(li.value, b).Some? &&
        exists v :: v in visited && OutermostFor(li.value, v) == OutermostFor(li.value, b))
  }

  /** Edges from covered blocks lead to covered blocks, or to the worklist. */
  ghost predicate WalkOk(f: Graph, li: Option<LoopInfo>, starts: seq<nat>, stop: nat, visited: set<nat>,
                         worklist: seq<nat>)
    requires li.Some? ==> LoopsOk(li.value)
  {
    && (forall a :: a in starts ==> a in worklist || Covered(li, visited, a))
    && (forall b, k :: 0 <= b < |f| && 0 <= k < |f[b]| && Covered(li, visited, b) ==>
          f[b][k] in worklist || Covered(li, visited, f[b][k]))
    && !Covered(li, visited, stop)
  }

  /** Everything the walk has met can be reached. */
  ghost predicate WalkReaches(f: Graph, starts: seq<nat>, visited: set<nat>, worklist: seq<nat>) {
    && (forall b :: b in visited ==> ReachFromAny(f, starts, b))
    && (forall b :: b in worklist ==> ReachFromAny(f, starts, b))
  }

  lemma {:induction false} WalkDone(f: Graph, li: Option<LoopInfo>, starts: seq<nat>, stop: nat, visited: set<nat>)
    requires WellFormed(f) && (li.Some? ==> LoopsOk(li.value))
    requires WalkOk(f, li, starts, stop, visited, [])
    ensures !ReachFromAny(f, starts, stop)
  {
    if ReachFromAny(f, starts, stop) {
      var a :| a in starts && Reach(f, a, stop);
      var p :| PathFrom(f, p, a, stop);
      var covered := set b | b in Blocks(f) && Covered(li, visited, b);
      ClosedUnderPath(f, covered, p);
    }
  }

  /** The walk moves on from `bb`: `next` is what it puts on the worklist. */
  ghost predicate Continuation(f: Graph, li: Option<LoopInfo>, bb: nat, next: seq<nat>)
    requires (li.Some? ==> LoopsOk(li.value)) && bb < |f|
  {
    if li.Some? && OutermostFor(li.value, bb).Some? then
      forall x :: x in next <==> ExitOf(f, li.value, OutermostFor(li.value, bb).value, x)
    else next == f[bb]
  }

  lemma {:induction false} WalkStep(f: Graph, li: Option<LoopInfo>, starts: seq<nat>, stop: nat, visited: set<nat>,
                                    worklist: seq<nat>, bb: nat, next: seq<nat>)
    requires WellFormed(f) && (li.Some? ==> LoopsOk(li.value))
    requires WalkOk(f, li, starts, stop, visited, worklist + [bb]) && bb < |f| && bb != stop
    requires li.Some? && OutermostFor(li.value, bb).Some? ==> OutermostFor(li.value, stop) != OutermostFor(li.value, bb)
    requires Continuation(f, li, bb, next)
    ensures WalkOk(f, li, starts, stop, visited + {bb}, worklist + next)
  {
    var visited' := visited + {bb};
    forall b, k | 0 <= b < |f| && 0 <= k < |f[b]| && Covered(li, visited', b)
      ensures f[b][k] in worklist + next || Covered(li, visited', f[b][k])
    {
      if !Covered(li, visited, b) {
        if li.Some? && OutermostFor(li.value, bb).Some? {
          var l := OutermostFor(li.value, bb).value;
          if OutermostFor(li.value, f[b][k]) != Some(l) {
            assert ExitEdge(f, li.value, l, f[b][k], b, k);
          }
        } else {
          assert b == bb;
        }
      }
    }
  }

  lemma {:induction false} WalkStepReaches(f: Graph, li: Option<LoopInfo>, starts: seq<nat>, visited: set<nat>,
                                           worklist: seq<nat>, bb: nat, next: seq<nat>)
    requires WellFormed(f) && (li.Some? ==> LoopsOk(li.value) && LoopsRight(f, li.value))
    requires bb < |f| && WalkReaches(f, starts, visited, worklist + [bb]) && Continuation(f, li, bb, next)
    ensures WalkReaches(f, starts, visited + {bb}, worklist + next)
  {
    assert bb in worklist + [bb];
    var a :| a in starts && Reach(f, a, bb);
    forall x | x in next
      ensures ReachFromAny(f, starts, x)
    {
      if li.Some? && OutermostFor(li.value, bb).Some? {
        var l := OutermostFor(li.value, bb).value;
        var b: nat, k: nat :| ExitEdge(f, li.value, l, x, b, k);
        ReachTransitive(f, a, bb, b);
        ReachStep(f, a, b, x);
      } else {
        ReachStep(f, a, bb, x);
      }
    }
    forall x | x in worklist
      ensures ReachFromAny(f, starts, x)
    {
      assert x in worklist + [bb];
    }
  }

  lemma {:induction false} DominatorReaches(f: Graph, dt: DominatorTree, a: nat, b: nat)
    requires WellFormed(f) && DominanceRight(f, dt) && b in dt.reachable && (a, b) in dt.dominated
    ensures Reach(f, a, b)
  {
    var p :| PathFrom(f, p, 0, b);
    var i :| 0 <= i < |p| && p[i] == a;
    var q := p[i..];
    forall k | 0 <= k < |q| - 1
      ensures Hop(f, q, k)
    {
      assert Hop(f, p, i + k);
    }
    assert PathFrom(f, q, a, b);
  }

  /** What the walk may rely on. */
  ghost predicate AnalysesRight(f: Graph, dt: Option<DominatorTree>, li: Option<LoopInfo>)
    requires li.Some? ==> LoopsOk(li.value)
  {
    (dt.Some? ==> DominanceRight(f, dt.value)) && (li.Some? ==> LoopsRight(f, li.value))
  }

  ghost predicate InRange(f: Graph, s: seq<nat>) {
    forall b :: b in s ==> b < |f|
  }

  /** The three reasons to answer "reachable" on meeting `bb`. */
  method Finds(f: Graph, bb: nat, stopBB: nat, dt: Option<DominatorTree>, li: Option<LoopInfo>) returns (r: bool)
    requires WellFormed(f) && bb < |f| && stopBB < |f|
    requires li.Some? ==> LoopsOk(li.value)
    requires dt.Some? ==> stopBB in dt.value.reachable
    ensures !r ==> bb != stopBB
    ensures !r ==> (li.Some? && OutermostFor(li.value, bb).Some? ==>
                    OutermostFor(li.value, stopBB) != OutermostFor(li.value, bb))
    ensures r && AnalysesRight(f, dt, li) ==> Reach(f, bb, stopBB)
  {
    if bb == stopBB {
      ReachSelf(f, bb);
      return true;
    }
    if dt.Some? && (bb, stopBB) in dt.value.dominated {
      if DominanceRight(f, dt.value) {
        DominatorReaches(f, dt.value, bb, stopBB);
      }
      return true;
    }
    if li.Some? {
      r := LoopContainsBoth(li.value, bb, stopBB);
      return r;
    }
    return false;
  }

  /** What goes onto the worklist after `bb`. */
  method MoveOn(f: Graph, bb: nat, li: Option<LoopInfo>) returns (next: seq<nat>)
    requires WellFormed(f) && bb < |f|
    requires li.Some? ==> LoopsOk(li.value)
    ensures Continuation(f, li, bb, next) && InRange(f, next)
  {
    var outer := None;
    if li.Some? {
      outer := GetOutermostLoop(li.value, bb);
    }
    next := f[bb];
    if outer.Some? {
      next := GetExitBlocks(f, li.value, outer.value);
    }
  }

  const LIMIT := 32

  /** Between two turns of the walk. */
  ghost predicate Walking(f: Graph, starts: seq<nat>, stop: nat, dt: Option<DominatorTree>, li: Option<LoopInfo>,
                          visited: set<nat>, worklist: seq<nat>)
    requires li.Some? ==> LoopsOk(li.value)
  {
    && InRange(f, worklist)
    && WalkOk(f, li, starts, stop, visited, worklist)
    && (AnalysesRight(f, dt, li) ==> WalkReaches(f, starts, visited, worklist))
  }

  lemma {:induction false} WalkStarts(f: Graph, starts: seq<nat>, stop: nat, dt: Option<DominatorTree>,
                                      li: Option<LoopInfo>)
    requires InRange(f, starts) && (li.Some? ==> LoopsOk(li.value))
    ensures Walking(f, starts, stop, dt, li, {}, starts)
  {
    forall a | a in starts
      ensures ReachFromAny(f, starts, a)
    {
      ReachSelf(f, a);
    }
  }

  /** A block that was visited before is dropped. */
  lemma {:induction false} WalkSkips(f: Graph, starts: seq<nat>, stop: nat, dt: Option<DominatorTree>,
                                     li: Option<LoopInfo>, visited: set<nat>, worklist: seq<nat>, bb: nat)
    requires (li.Some? ==> LoopsOk(li.value)) && bb in visited
    requires Walking(f, starts, stop, dt, li, visited, worklist + [bb])
    ensures Walking(f, starts, stop, dt, li, visited, worklist)
  {
    assert Covered(li, visited, bb);
    assert forall b :: b in worklist ==> b in worklist + [bb];
  }

  lemma {:induction false} WalkGoesOn(f: Graph, starts: seq<nat>, stop: nat, dt: Option<DominatorTree>,
                                      li: Option<LoopInfo>, visited: set<nat>, worklist: seq<nat>, bb: nat,
                                      next: seq<nat>)
    requires WellFormed(f) && (li.Some? ==> LoopsOk(li.value)) && bb < |f| && bb != stop
    requires Walking(f, starts, stop, dt, li, visited, worklist + [bb])
    requires li.Some? && OutermostFor(li.value, bb).Some? ==> OutermostFor(li.value, stop) != OutermostFor(li.value, bb)
    requires Continuation(f, li, bb, next) && InRange(f, next)
    ensures Walking(f, starts, stop, dt, li, visited + {bb}, worklist + next)
  {
    WalkStep(f, li, starts, stop, visited, worklist, bb, next);
    if AnalysesRight(f, dt, li) {
      WalkStepReaches(f, li, starts, visited, worklist, bb, next);
    }
    assert forall b :: b in worklist ==> b in worklist + [bb];
  }

  /** If the analyses are right, the blocks can all be reached. */
  ghost predicate AllReached(f: Graph, starts: seq<nat>, dt: Option<DominatorTree>, li: Option<LoopInfo>,
                             blocks: set<nat>)
    requires li.Some? ==> LoopsOk(li.value)
  {
    AnalysesRight(f, dt, li) ==> forall b :: b in blocks ==> ReachFromAny(f, starts, b)
  }

  lemma {:induction false} NextReached(f: Graph, starts: seq<nat>, stop: nat, dt: Option<DominatorTree>,
                                       li: Option<LoopInfo>, visited: set<nat>, worklist: seq<nat>)
    requires (li.Some? ==> LoopsOk(li.value)) && Walking(f, starts, stop, dt, li, visited, worklist)
    ensures AllReached(f, starts, dt, li, visited)
    ensures worklist != [] ==>
      var n := |worklist| - 1;
      && worklist[n] < |f| && worklist == worklist[..n] + [worklist[n]]
      && AllReached(f, starts, dt, li, visited + {worklist[n]})
  {
    if worklist != [] {
      assert worklist[|worklist| - 1] in worklist;
    }
  }

  /** `false` is always right, whatever the analyses say.  If they are right,
      `true` is right too, unless the walk gave up after 32 blocks. */
  method IsPotentiallyReachableFromMany(f: Graph, starts: seq<nat>, stopBB: nat, dt: Option<DominatorTree>,
                                        li: Option<LoopInfo>)
    returns (r: bool, ghost visited: set<nat>)
    requires WellFormed(f) && InRange(f, starts) && stopBB < |f| && starts != []
    requires li.Some? ==> LoopsOk(li.value)
    ensures !r ==> !ReachFromAny(f, starts, stopBB)
    ensures AllReached(f, starts, dt, li, visited)
    ensures r && AnalysesRight(f, dt, li) ==> ReachFromAny(f, starts, stopBB) || |visited| == LIMIT
  {
    hide WellFormed, LoopsOk, WalkReaches, WalkOk, ReachFromAny;
    var dom := if dt.Some? && stopBB !in dt.value.reachable then None else dt;
    var limit := LIMIT;
    var seen: set<nat> := {};
    var worklist := starts;
    visited := {};
    WalkStarts(f, starts, stopBB, dt, li);
    while worklist != []
      invariant limit == LIMIT - |seen| && limit > 0 && visited == seen
      invariant Walking(f, starts, stopBB, dt, li, seen, worklist)
      decreases limit, |worklist|
    {
      var bb := worklist[|worklist| - 1];
      NextReached(f, starts, stopBB, dt, li, seen, worklist);
      worklist := worklist[..|worklist| - 1];
      if bb in seen {
        WalkSkips(f, starts, stopBB, dt, li, seen, worklist, bb);
        continue;
      }
      visited := seen + {bb};
      Sets.OneMore(seen, bb);
      var found := Finds(f, bb, stopBB, dom, li);
      if found {
        FoundReach(f, starts, stopBB, dt, dom, li, visited, bb);
        return true, visited;
      }
      limit := limit - 1;
      if limit == 0 {
        return true, visited;
      }
      var next := MoveOn(f, bb, li);
      WalkGoesOn(f, starts, stopBB, dt, li, seen, worklist, bb, next);
      seen := seen + {bb};
      assert seen == visited;
      worklist := worklist + next;
    }
    WalkDone(f, li, starts, stopBB, seen);
    NextReached(f, starts, stopBB, dt, li, seen, []);
    return false, visited;
  }

  lemma {:induction false} FoundReach(f: Graph, starts: seq<nat>, stop: nat, dt: Option<DominatorTree>,
                                      dom: Option<DominatorTree>, li: Option<LoopInfo>, blocks: set<nat>, bb: nat)
    requires li.Some? ==> LoopsOk(li.value)
    requires dom == dt || dom == None
    requires AnalysesRight(f, dom, li) ==> Reach(f, bb, stop)
    requires bb in blocks && AllReached(f, starts, dt, li, blocks)
    ensures AnalysesRight(f, dt, li) ==> ReachFromAny(f, starts, stop)
  {
    if AnalysesRight(f, dt, li) {
      assert ReachFromAny(f, starts, bb);
      var a :| a in starts && Reach(f, a, bb);
      ReachTransitive(f, a, bb, stop);
    }
  }

  // ----- isPotentiallyReachable, for two instructions -----

  datatype Position = Position(block: nat, index: nat)

  /** Execution can get from instruction `a` to instruction `b`, or is there. */
  ghost predicate Executes(f: Graph, a: Position, b: Position)
    requires a.block < |f|
  {
    (a.block == b.block && a.index <= b.index) || ReachFromAny(f, f[a.block], b.block)
  }

  /** The entry block has no predecessors. */
  ghost predicate NoWayBack(f: Graph) {
    forall b, k :: 0 <= b < |f| && 0 <= k < |f[b]| ==> f[b][k] != 0
  }

  lemma {:induction false} EntryUnreachable(f: Graph, a: nat)
    requires WellFormed(f) && NoWayBack(f) && a < |f|
    ensures !ReachFromAny(f, f[a], 0)
  {
    if ReachFromAny(f, f[a], 0) {
      var c :| c in f[a] && Reach(f, c, 0);
      var p :| PathFrom(f, p, c, 0);
      ClosedUnderPath(f, Blocks(f) - {0}, p);
    }
  }

  /** `false` is always right. If the analyses are right, `true` is right too, unless the
      walk gave up after 32 blocks, or the first instruction is in the entry block and
      the second in one that is never reached. */
  method IsPotentiallyReachable(f: Graph, a: Position, b: Position, dt: Option<DominatorTree>, li: Option<LoopInfo>)
    returns (r: bool, ghost visited: set<nat>)
    requires WellFormed(f) && NoWayBack(f) && a.block < |f| && b.block < |f|
    requires li.Some? ==> LoopsOk(li.value)
    ensures !r ==> !Executes(f, a, b)
    ensures r && AnalysesRight(f, dt, li) ==>
            Executes(f, a, b) || |visited| == LIMIT || (a.block == 0 && !Reach(f, 0, b.block))
  {
    var worklist: seq<nat>;
    visited := {};
    if a.block == b.block {
      if li.Some? && a.block in li.value.loopFor {
        assert OutermostFor(li.value, a.block).Some?;
        return true, visited;
      }
      if a.index <= b.index {
        return true, visited;
      }
      EntryUnreachable(f, a.block);
      if a.block == 0 {
        return false, visited;
      }
      worklist := f[a.block];
      if worklist == [] {
        return false, visited;
      }
    } else {
      worklist := [a.block];
      SuccessorsReach(f, a.block, b.block);
    }
    EntryUnreachable(f, a.block);
    if a.block == 0 {
      return true, visited;
    }
    if b.block == 0 {
      return false, visited;
    }
    r, visited := IsPotentiallyReachableFromMany(f, worklist, b.block, dt, li);
  }

  /** From a block to another one, it is the successors that lead on. */
  lemma {:induction false} SuccessorsReach(f: Graph, a: nat, b: nat)
    requires WellFormed(f) && a < |f| && a != b
    ensures ReachFromAny(f, f[a], b) <==> ReachFromAny(f, [a], b)
    ensures ReachFromAny(f, [a], b) <==> Reach(f, a, b)
  {
    assert a in [a];
    if ReachFromAny(f, f[a], b) {
      var c :| c in f[a] && Reach(f, c, b);
      ReachSelf(f, a);
      ReachStep(f, a, a, c);
      ReachTransitive(f, a, c, b);
    }
    if Reach(f, a, b) {
      var p :| PathFrom(f, p, a, b);
      assert Hop(f, p, 0);
      RestOfPath(f, p);
    }
  }

  lemma {:induction false} RestOfPath(f: Graph, p: seq<nat>)
    requires IsPath(f, p) && |p| > 1
    ensures Reach(f, p[1], p[|p| - 1])
  {
    var q := p[1..];
    forall i | 0 <= i < |q| - 1
      ensures Hop(f, q, i)
    {
      assert Hop(f, p, i + 1);
    }
    assert PathFrom(f, q, p[1], p[|p| - 1]);
  }
}
