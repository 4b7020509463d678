/** The call graph: edge lists edited in place, with a count of the references to
    each node. */
module CallGraphs {
  import opened Wrappers

  type Value = nat
  type Func = nat

  /** A call instruction, unless it is gone or the edge is abstract, and the node
      being called. */
  datatype CallRecord = CallRecord(site: Option<Value>, target: nat)

  type Records = seq<CallRecord>

  // ----- counting edges -----

  /** How many of the records are to node `n`. */
  function Count(l: Records, n: nat): nat {
    if l == [] then 0 else Count(l[..|l| - 1], n) + (if l[|l| - 1].target == n then 1 else 0)
  }

  lemma {:induction false} CountAppend(l: Records, r: CallRecord, n: nat)
    ensures Count(l + [r], n) == Count(l, n) + (if r.target == n then 1 else 0)
  {
    assert (l + [r])[..|l|] == l;
  }

  lemma {:induction false} CountUpdate(l: Records, i: nat, r: CallRecord, n: nat)
    requires i < |l|
    ensures Count(l[i := r], n) == Count(l, n) - (if l[i].target == n then 1 else 0) + (if r.target == n then 1 else 0)
    ensures l[i].target == n ==> Count(l, n) > 0
    decreases |l|
  {
    var k := |l| - 1;
    if i == k {
      assert l[i := r][..k] == l[..k];
    } else {
      CountUpdate(l[..k], i, r, n);
      assert l[i := r][..k] == l[..k][i := r];
    }
  }

  /** Removal moves the last record into the gap. */
  function RemoveAt(l: Records, i: nat): Records
    requires i < |l|
  {
    l[i := l[|l| - 1]][..|l| - 1]
  }

  lemma {:induction false} CountRemove(l: Records, i: nat, n: nat)
    requires i < |l|
    ensures Count(RemoveAt(l, i), n) == Count(l, n) - (if l[i].target == n then 1 else 0)
    ensures l[i].target == n ==> Count(l, n) > 0
  {
    CountUpdate(l, i, l[|l| - 1], n);
  }

  lemma {:induction false} CountNone(l: Records, n: nat)
    requires forall i :: 0 <= i < |l| ==> l[i].target != n
    ensures Count(l, n) == 0
    decreases |l|
  {
    if l != [] {
      CountNone(l[..|l| - 1], n);
    }
  }

  /** How many edges of the whole graph are to node `n`. */
  function Incoming(callees: seq<Records>, n: nat): nat {
    if callees == [] then 0 else Incoming(callees[..|callees| - 1], n) + Count(callees[|callees| - 1], n)
  }

  lemma {:induction false} IncomingUpdate(callees: seq<Records>, m: nat, l: Records, n: nat)
    requires m < |callees|
    ensures Incoming(callees[m := l], n) == Incoming(callees, n) - Count(callees[m], n) + Count(l, n)
    ensures Count(callees[m], n) <= Incoming(callees, n)
    decreases |callees|
  {
    var k := |callees| - 1;
    if m == k {
      assert callees[m := l][..k] == callees[..k];
    } else {
      IncomingUpdate(callees[..k], m, l, n);
      assert callees[m := l][..k] == callees[..k][m := l];
    }
  }

  lemma {:induction false} IncomingAppend(callees: seq<Records>, n: nat)
    ensures Incoming(callees + [[]], n) == Incoming(callees, n)
  {
    assert (callees + [[]])[..|callees|] == callees;
  }

  lemma {:induction false} IncomingNone(callees: seq<Records>, n: nat)
    requires forall m, i :: 0 <= m < |callees| && 0 <= i < |callees[m]| ==> callees[m][i].target != n
    ensures Incoming(callees, n) == 0
    decreases |callees|
  {
    if callees != [] {
      IncomingNone(callees[..|callees| - 1], n);
      CountNone(callees[|callees| - 1], n);
    }
  }

  /** Every reference count is the number of incoming edges. */
  ghost predicate CountsRight(callees: seq<Records>, references: seq<nat>) {
    |callees| == |references| && forall n :: 0 <= n < |references| ==> references[n] == Incoming(callees, n)
  }

  lemma {:induction false} CountsAdded(callees: seq<Records>, references: seq<nat>, m: nat, r: CallRecord)
    requires CountsRight(callees, references) && m < |callees| && r.target < |callees|
    ensures CountsRight(callees[m := callees[m] + [r]], references[r.target := references[r.target] + 1])
  {
    var references', callees' := references[r.target := references[r.target] + 1], callees[m := callees[m] + [r]];
    forall n | 0 <= n < |references|
      ensures references'[n] == Incoming(callees', n)
    {
      IncomingUpdate(callees, m, callees[m] + [r], n);
      CountAppend(callees[m], r, n);
    }
  }

  lemma {:induction false} CountsRemoved(callees: seq<Records>, references: seq<nat>, m: nat, i: nat)
    requires CountsRight(callees, references) && m < |callees| && i < |callees[m]| && callees[m][i].target < |callees|
    ensures references[callees[m][i].target] > 0
    ensures CountsRight(callees[m := RemoveAt(callees[m], i)],
                        references[callees[m][i].target := references[callees[m][i].target] - 1])
  {
    var t := callees[m][i].target;
    IncomingUpdate(callees, m, RemoveAt(callees[m], i), t);
    CountRemove(callees[m], i, t);
    var references', callees' := references[t := references[t] - 1], callees[m := RemoveAt(callees[m], i)];
    forall n | 0 <= n < |references|
      ensures references'[n] == Incoming(callees', n)
    {
      IncomingUpdate(callees, m, RemoveAt(callees[m], i), n);
      CountRemove(callees[m], i, n);
    }
  }

  /** What replacing an edge's target does to the counts: the old target first. */
  function Moved(references: seq<nat>, from: nat, to: nat): seq<nat>
    requires from < |references| && to < |references| && references[from] > 0
  {
    var dropped := references[from := references[from] - 1];
    dropped[to := dropped[to] + 1]
  }

  lemma {:induction false} CountsReplaced(callees: seq<Records>, references: seq<nat>, m: nat, i: nat, r: CallRecord)
    requires CountsRight(callees, references) && m < |callees| && i < |callees[m]|
    requires callees[m][i].target < |callees| && r.target < |callees|
    ensures references[callees[m][i].target] > 0
    ensures CountsRight(callees[m := callees[m][i := r]], Moved(references, callees[m][i].target, r.target))
  {
    var t := callees[m][i].target;
    IncomingUpdate(callees, m, callees[m][i := r], t);
    CountUpdate(callees[m], i, r, t);
    var references', callees' := Moved(references, t, r.target), callees[m := callees[m][i := r]];
    forall n | 0 <= n < |references|
      ensures references'[n] == Incoming(callees', n)
    {
      IncomingUpdate(callees, m, callees[m][i := r], n);
      CountUpdate(callees[m], i, r, n);
    }
  }

  // ----- the graph -----

  /** The node that stands for calls of unknown functions. */
  const CALLS_EXTERNAL: nat := 0

  /** The node that calls whatever can be called from outside. */
  const EXTERNAL_CALLING: nat := 1

  ghost predicate TargetsOk(function_: seq<Option<Func>>, l: Records) {
    forall i :: 0 <= i < |l| ==>
      l[i].target < |function_| && (function_[l[i].target].None? ==> l[i].target == CALLS_EXTERNAL)
  }

  ghost predicate MapOk(function_: seq<Option<Func>>, functionMap: map<Func, nat>) {
    && (forall f :: f in functionMap ==> functionMap[f] < |function_| && function_[functionMap[f]] == Some(f))
    && (forall n :: 0 <= n < |function_| && function_[n].Some? ==>
          function_[n].value in functionMap && functionMap[function_[n].value] == n)
  }

  class CallGraph {
    /** By node: its function, its edges, and how often it is referenced. */
    var function_: seq<Option<Func>>
    var callees: seq<Records>
    var references: seq<nat>
    var functionMap: map<Func, nat>

    ghost predicate Valid()
      reads this
    {
      && |function_| == |callees| && EXTERNAL_CALLING < |function_| && function_[CALLS_EXTERNAL].None? &&
        function_[EXTERNAL_CALLING].None?
      && (forall m :: 0 <= m < |callees| ==> TargetsOk(function_, callees[m]))
      && MapOk(function_, functionMap) && CountsRight(callees, references)
    }

    constructor ()
      ensures Valid() && functionMap == map[] && callees == [[], []]
    {
      function_, callees, references, functionMap := [None, None], [[], []], [0, 0], map[];
      new;
      IncomingNone(callees, 0);
      IncomingNone(callees, 1);
    }

    /** The function's node; a new one, that nothing references, if it has none. */
    method GetOrInsertFunction(f: Func) returns (n: nat)
      requires Valid()
      modifies this
      ensures Valid() && f in functionMap && functionMap[f] == n && |callees| >= |old(callees)|
      ensures f in old(functionMap) ==> unchanged(this)
      ensures f !in old(functionMap) ==> n == |old(callees)|
      ensures callees[..|old(callees)|] == old(callees) && function_[..|old(callees)|] == old(function_)
      ensures forall m :: |old(callees)| <= m < |callees| ==> callees[m] == []
      ensures functionMap.Keys == old(functionMap.Keys) + {f}
    {
      if f in functionMap {
        return functionMap[f];
      }
      n := |function_|;
      NodeAdded(callees, references, function_);
      function_, callees, references := function_ + [Some(f)], callees + [[]], references + [0];
      functionMap := functionMap[f := n];
    }

    /** One more edge at the end of the list of `m`, which its target counts. */
    method AddCalledFunction(m: nat, r: CallRecord)
      requires Valid() && m < |callees| && TargetsOk(function_, [r])
      modifies this`callees, this`references
      ensures Valid() && callees == old(callees)[m := old(callees)[m] + [r]]
    {
      assert r == [r][0];
      CountsAdded(callees, references, m, r);
      references := references[r.target := references[r.target] + 1];
      callees := callees[m := callees[m] + [r]];
    }

    method RemoveCallEdge(m: nat, i: nat)
      requires Valid() && m < |callees| && i < |callees[m]|
      modifies this`callees, this`references
      ensures Valid() && callees == old(callees)[m := RemoveAt(old(callees)[m], i)]
    {
      assert TargetsOk(function_, callees[m]);
      CountsRemoved(callees, references, m, i);
      references := references[callees[m][i].target := references[callees[m][i].target] - 1];
      callees := callees[m := RemoveAt(callees[m], i)];
    }

    /** Drops the first edge recorded for `site`. */
    method RemoveCallEdgeFor(m: nat, site: Value) returns (ghost i: nat)
      requires Valid() && m < |callees| && exists k :: 0 <= k < |callees[m]| && callees[m][k].site == Some(site)
      modifies this`callees, this`references
      ensures Valid() && i < |old(callees)[m]| && old(callees)[m][i].site == Some(site)
      ensures forall k :: 0 <= k < i ==> old(callees)[m][k].site != Some(site)
      ensures callees == old(callees)[m := RemoveAt(old(callees)[m], i)]
    {
      var k := FindSite(m, site);
      i := k;
      RemoveCallEdge(m, k);
    }

    method FindSite(m: nat, site: Value) returns (k: nat)
      requires m < |callees| && exists k :: 0 <= k < |callees[m]| && callees[m][k].site == Some(site)
      ensures k < |callees[m]| && callees[m][k].site == Some(site)
      ensures forall j :: 0 <= j < k ==> callees[m][j].site != Some(site)
    {
      k := 0;
      while callees[m][k].site != Some(site)
        invariant k < |callees[m]| && forall j :: 0 <= j < k ==> callees[m][j].site != Some(site)
        decreases |callees[m]| - k
      {
        k := k + 1;
      }
    }

    /** Drops the first edge to the callee that has no call site. */
    method RemoveOneAbstractEdgeTo(m: nat, callee: nat) returns (ghost i: nat)
      requires Valid() && m < |callees| && CallRecord(None, callee) in callees[m]
      modifies this`callees, this`references
      ensures Valid() && i < |old(callees)[m]| && old(callees)[m][i] == CallRecord(None, callee)
      ensures callees == old(callees)[m := RemoveAt(old(callees)[m], i)]
    {
      var k := 0;
      while callees[m][k] != CallRecord(None, callee)
        invariant k < |callees[m]| && CallRecord(None, callee) !in callees[m][..k]
        decreases |callees[m]| - k
      {
        assert callees[m][..k + 1] == callees[m][..k] + [callees[m][k]];
        k := k + 1;
      }
      i := k;
      RemoveCallEdge(m, k);
    }

    /** Removes any edges to the callee, and no other. */
    method RemoveAnyCallEdgeTo(m: nat, callee: nat)
      requires Valid() && m < |callees|
      modifies this`callees, this`references
      ensures Valid() && |callees| == |old(callees)|
      ensures forall k :: 0 <= k < |callees| && k != m ==> callees[k] == old(callees)[k]
      ensures forall r: CallRecord ::
                multiset(callees[m])[r] == if r.target == callee then 0 else multiset(old(callees)[m])[r]
    {
      ghost var l := callees[m];
      var i := 0;
      while i != |callees[m]|
        invariant Valid() && |callees| == |old(callees)| && i <= |callees[m]|
        invariant forall k :: 0 <= k < |callees| && k != m ==> callees[k] == old(callees)[k]
        invariant forall k :: 0 <= k < i ==> callees[m][k].target != callee
        invariant Remains(l, callees[m], callee)
        decreases |callees[m]| - i
      {
        if callees[m][i].target == callee {
          RemainsLess(l, callees[m], callee, i);
          RemoveCallEdge(m, i);
        } else {
          i := i + 1;
        }
      }
    }

    /** The first edge recorded for `site` gets another site and target. */
    method ReplaceCallEdge(m: nat, site: Value, newSite: Value, newNode: nat) returns (ghost i: nat)
      requires Valid() && m < |callees| && exists k :: 0 <= k < |callees[m]| && callees[m][k].site == Some(site)
      requires TargetsOk(function_, [CallRecord(Some(newSite), newNode)])
      modifies this`callees, this`references
      ensures Valid() && i < |old(callees)[m]| && old(callees)[m][i].site == Some(site)
      ensures forall k :: 0 <= k < i ==> old(callees)[m][k].site != Some(site)
      ensures callees == old(callees)[m := old(callees)[m][i := CallRecord(Some(newSite), newNode)]]
    {
      var r := CallRecord(Some(newSite), newNode);
      assert [r][0] == r;
      var k := FindSite(m, site);
      i := k;
      assert TargetsOk(function_, callees[m]);
      CountsReplaced(callees, references, m, k, r);
      var oldNode := callees[m][k].target;
      references := references[oldNode := references[oldNode] - 1];
      references := references[newNode := references[newNode] + 1];
      callees := callees[m := callees[m][k := r]];
    }
  }

  lemma {:induction false} NodeAdded(callees: seq<Records>, references: seq<nat>, function_: seq<Option<Func>>)
    requires CountsRight(callees, references) && |function_| == |callees|
    requires forall m :: 0 <= m < |callees| ==> TargetsOk(function_, callees[m])
    ensures CountsRight(callees + [[]], references + [0])
  {
    forall n | 0 <= n <= |references|
      ensures (references + [0])[n] == Incoming(callees + [[]], n)
    {
      IncomingAppend(callees, n);
      if n == |references| {
        forall m, i | 0 <= m < |callees| && 0 <= i < |callees[m]|
          ensures callees[m][i].target != n
        {
          assert TargetsOk(function_, callees[m]);
        }
        IncomingNone(callees, n);
      }
    }
  }

  /** Of the records `l`, only some to the callee have gone. */
  ghost predicate Remains(l: Records, r: Records, callee: nat) {
    forall x: CallRecord :: x.target != callee ==> multiset(r)[x] == multiset(l)[x]
  }

  lemma {:induction false} RemainsLess(l: Records, r: Records, callee: nat, i: nat)
    requires Remains(l, r, callee) && i < |r| && r[i].target == callee
    ensures Remains(l, RemoveAt(r, i), callee)
  {
    RemovedMultiset(r, i);
  }

  lemma {:induction false} RemovedMultiset(l: Records, i: nat)
    requires i < |l|
    ensures multiset(RemoveAt(l, i)) == multiset(l) - multiset{l[i]}
  {
    var n := |l| - 1;
    if i == n {
      assert l == l[..n] + [l[n]];
      assert RemoveAt(l, i) == l[..n];
    } else {
      assert l == l[..i] + [l[i]] + l[i + 1..n] + [l[n]];
      assert RemoveAt(l, i) == l[..i] + [l[n]] + l[i + 1..n];
    }
  }
}
