/** Control-flow graphs and the paths through them. */
module Cfg {
  /** A function's blocks, numbered from the entry block 0; each lists the
      successors of its terminator, in order and with repetitions. */
  type Graph = seq<seq<nat>>

  predicate WellFormed(f: Graph) {
    |f| > 0 && forall b, k :: 0 <= b < |f| && 0 <= k < |f[b]| ==> f[b][k] < |f|
  }

  /** All blocks of the function. */
  function Blocks(f: Graph): (r: set<nat>)
    ensures forall b: nat :: b in r <==> b < |f|
  {
    set b: nat {:trigger f[b]} | b < |f|
  }

  // ----- paths -----

  /** The step from `p[i]` to `p[i + 1]` is along an edge. */
  predicate Hop(f: Graph, p: seq<nat>, i: int) {
    0 <= i < |p| - 1 && p[i] < |f| && p[i + 1] in f[p[i]]
  }

  ghost predicate IsPath(f: Graph, p: seq<nat>) {
    && |p| > 0
    && (forall i :: 0 <= i < |p| ==> p[i] < |f|)
    && (forall i :: 0 <= i < |p| - 1 ==> Hop(f, p, i))
  }

  ghost predicate PathFrom(f: Graph, p: seq<nat>, a: nat, b: nat) {
    IsPath(f, p) && p[0] == a && p[|p| - 1] == b
  }

  /** `b` can be reached from `a` along zero or more edges. */
  ghost predicate Reach(f: Graph, a: nat, b: nat) {
    exists p :: PathFrom(f, p, a, b)
  }

  lemma {:induction false} ReachSelf(f: Graph, a: nat)
    requires a < |f|
    ensures Reach(f, a, a)
  {
    assert PathFrom(f, [a], a, a);
  }

  lemma {:induction false} ReachStep(f: Graph, a: nat, b: nat, c: nat)
    requires Reach(f, a, b) && c in f[b] && c < |f|
    requires b < |f|
    ensures Reach(f, a, c)
  {
    var p :| PathFrom(f, p, a, b);
    var q := p + [c];
    forall i | 0 <= i < |q| - 1
      ensures Hop(f, q, i)
    {
      assert i < |p| - 1 ==> Hop(f, p, i);
    }
    assert PathFrom(f, q, a, c);
  }

  lemma {:induction false} ReachTransitive(f: Graph, a: nat, b: nat, c: nat)
    requires Reach(f, a, b) && Reach(f, b, c)
    ensures Reach(f, a, c)
  {
    var p :| PathFrom(f, p, a, b);
    var q :| PathFrom(f, q, b, c);
    var r := p + q[1..];
    forall i | 0 <= i < |r| - 1
      ensures Hop(f, r, i)
    {
      if i < |p| - 1 {
        assert Hop(f, p, i);
      } else {
        assert Hop(f, q, i - (|p| - 1));
      }
    }
    assert PathFrom(f, r, a, c);
  }

  /** A set of blocks that edges do not leave holds everything reachable from it. */
  lemma {:induction false} ClosedUnderPath(f: Graph, s: set<nat>, p: seq<nat>)
    requires IsPath(f, p) && p[0] in s
    requires forall b :: b in s && b < |f| ==> forall c :: c in f[b] ==> c in s
    ensures forall i :: 0 <= i < |p| ==> p[i] in s
    decreases |p|
  {
    if |p| > 1 {
      var q := p[..|p| - 1];
      forall i | 0 <= i < |q| - 1
        ensures Hop(f, q, i)
      {
        assert Hop(f, p, i);
      }
      ClosedUnderPath(f, s, q);
      assert Hop(f, p, |p| - 2) && q[|p| - 2] == p[|p| - 2];
    }
  }
}
