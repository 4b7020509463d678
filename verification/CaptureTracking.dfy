/** Whether a pointer may be captured: a walk over its uses, and over those of the
    values made from it. */
module CaptureTracking {
  import Sets

  type Value = nat

  /** Operand `operand` of the instruction `user` is the value. */
  datatype Use = Use(user: Value, operand: nat)

  /** What matters of an instruction. A call has, for each data operand, the value
      and whether it is not captured; `Forward` is a bitcast, an address space cast,
      a GEP, a phi or a select; a comparison may be against the null pointer. */
  datatype Instr =
    | Call(quiet: bool, operands: seq<(Value, bool)>)
    | Load
    | VAArg
    | Store(stored: Value)
    | Atomic(address: Value)
    | Forward
    | ICmp(againstNull: bool)
    | Return
    | Other

  /** The code: each instruction, the uses of each value, which value a use is of,
      and whether a value, casts apart, is a call's fresh memory. */
  datatype Code = Code(instr: Value -> Instr, uses: Value -> seq<Use>, of: Use -> Value, noAlias: Value -> bool)

  const THRESHOLD := 20

  /** The use may let the pointer out: as a call's operand that may be captured, as what is
      stored rather than where, in a comparison that tells something, or in ways that
      are not known. */
  ghost predicate Captures(c: Code, u: Use, returnCaptures: bool) {
    var v := c.of(u);
    match c.instr(u.user)
    case Call(quiet, operands) => !quiet && exists k :: 0 <= k < |operands| && operands[k].0 == v && !operands[k].1
    case Load => false
    case VAArg => false
    case Store(stored) => v == stored
    case Atomic(address) => v != address
    case Forward => false
    case ICmp(againstNull) => !(againstNull && c.noAlias(v))
    case Return => returnCaptures
    case Other => true
  }

  predicate TooMany(c: Code, v: Value) {
    |c.uses(v)| > THRESHOLD
  }

  // ----- reachable uses -----

  /** From use `p[i]` on to a use of the value its user makes of it. */
  predicate Hop(c: Code, p: seq<Use>, i: int) {
    0 <= i < |p| - 1 && c.instr(p[i].user).Forward? && p[i + 1] in c.uses(p[i].user)
  }

  ghost predicate IsChain(c: Code, v: Value, p: seq<Use>) {
    |p| > 0 && p[0] in c.uses(v) && forall i :: 0 <= i < |p| - 1 ==> Hop(c, p, i)
  }

  /** The use is of `v`, or of a value made from it through casts, GEPs, phis and
      selects. */
  ghost predicate Reachable(c: Code, v: Value, u: Use) {
    exists p :: IsChain(c, v, p) && p[|p| - 1] == u
  }

  lemma {:induction false} ReachableRoot(c: Code, v: Value, u: Use)
    requires u in c.uses(v)
    ensures Reachable(c, v, u)
  {
    assert IsChain(c, v, [u]);
  }

  lemma {:induction false} ReachableOn(c: Code, v: Value, u: Use, w: Use)
    requires Reachable(c, v, u) && c.instr(u.user).Forward? && w in c.uses(u.user)
    ensures Reachable(c, v, w)
  {
    var p :| IsChain(c, v, p) && p[|p| - 1] == u;
    var q := p + [w];
    forall i | 0 <= i < |q| - 1
      ensures Hop(c, q, i)
    {
      assert i < |p| - 1 ==> Hop(c, p, i);
    }
    assert IsChain(c, v, q);
  }

  /** A set of uses that has those of `v`, and with a use those of the value made
      from it, has every reachable use. */
  ghost predicate Closed(c: Code, s: set<Use>) {
    forall u :: u in s && c.instr(u.user).Forward? ==> AllIn(c.uses(u.user), s)
  }

  ghost predicate AllIn(us: seq<Use>, s: set<Use>) {
    forall i :: 0 <= i < |us| ==> us[i] in s
  }

  lemma {:induction false} ChainInside(c: Code, v: Value, s: set<Use>, p: seq<Use>, i: nat)
    requires Closed(c, s) && AllIn(c.uses(v), s) && IsChain(c, v, p) && i < |p|
    ensures p[i] in s
    decreases i
  {
    if i > 0 {
      ChainInside(c, v, s, p, i - 1);
      assert Hop(c, p, i - 1);
    }
  }

  // ----- what the answer means -----

  /** Some reachable use captures the pointer, or there is a value on the way with
      too many uses. */
  ghost predicate MayBeCaptured(c: Code, v: Value, returnCaptures: bool) {
    || TooMany(c, v)
    || exists u ::
         Reachable(c, v, u) && (Captures(c, u, returnCaptures) || (c.instr(u.user).Forward? && TooMany(c, u.user)))
  }

  /** Uses that neither capture nor lead on to too many. */
  ghost predicate Harmless(c: Code, u: Use, returnCaptures: bool) {
    !Captures(c, u, returnCaptures) && !(c.instr(u.user).Forward? && TooMany(c, u.user))
  }

  lemma {:induction false} NotCaptured(c: Code, v: Value, returnCaptures: bool, s: set<Use>)
    requires !TooMany(c, v) && Closed(c, s) && AllIn(c.uses(v), s) &&
             forall u :: u in s ==> Harmless(c, u, returnCaptures)
    ensures !MayBeCaptured(c, v, returnCaptures)
  {
    forall u | Reachable(c, v, u)
      ensures Harmless(c, u, returnCaptures)
    {
      var p :| IsChain(c, v, p) && p[|p| - 1] == u;
      ChainInside(c, v, s, p, |p| - 1);
    }
  }

  // ----- the walk -----

  /** Visited uses are reachable; those no longer on the worklist are done with. */
  ghost predicate Walked(c: Code, v: Value, returnCaptures: bool, visited: set<Use>, worklist: seq<Use>) {
    && (forall u :: u in visited ==> Reachable(c, v, u))
    && (forall u :: u in worklist ==> u in visited)
    && (forall u :: u in visited && u !in worklist ==>
          Harmless(c, u, returnCaptures) && (c.instr(u.user).Forward? ==> AllIn(c.uses(u.user), visited)))
    && AllIn(c.uses(v), visited)
  }

  /** Adds the uses not seen yet; `false` if there are too many. */
  method AddUses(us: seq<Use>, visited0: set<Use>, worklist0: seq<Use>)
    returns (ok: bool, visited: set<Use>, worklist: seq<Use>)
    ensures ok <==> |us| <= THRESHOLD
    ensures ok ==> visited == visited0 + (set u | u in us) && AllIn(us, visited)
    ensures ok ==> forall u :: u in worklist <==> u in worklist0 || (u in us && u !in visited0)
    ensures ok ==> (visited == visited0 ==> worklist == worklist0)
  {
    visited, worklist := visited0, worklist0;
    var count := 0;
    for i := 0 to |us|
      invariant count == i <= THRESHOLD
      invariant visited == visited0 + (set u | u in us[..i])
      invariant forall u :: u in worklist <==> u in worklist0 || (u in us[..i] && u !in visited0)
      invariant visited == visited0 ==> worklist == worklist0
    {
      if count >= THRESHOLD {
        return false, visited, worklist;
      }
      count := count + 1;
      assert us[..i + 1] == us[..i] + [us[i]];
      if us[i] !in visited {
        visited := visited + {us[i]};
        worklist := worklist + [us[i]];
      }
    }
    assert us[..|us|] == us;
    ok := true;
  }

  lemma {:induction false} WalkStarts(c: Code, v: Value, returnCaptures: bool, visited: set<Use>, worklist: seq<Use>)
    requires visited == (set u | u in c.uses(v)) && forall u :: u in worklist <==> u in c.uses(v)
    ensures Walked(c, v, returnCaptures, visited, worklist)
  {
    forall u | u in visited
      ensures Reachable(c, v, u)
    {
      ReachableRoot(c, v, u);
    }
  }

  /** A use that leads nowhere. */
  lemma {:induction false} WalkPasses(c: Code, v: Value, returnCaptures: bool, visited: set<Use>, worklist: seq<Use>,
                                      u: Use)
    requires Walked(c, v, returnCaptures, visited, worklist) && worklist != [] && u == worklist[|worklist| - 1]
    requires !Captures(c, u, returnCaptures) && !c.instr(u.user).Forward?
    ensures Walked(c, v, returnCaptures, visited, worklist[..|worklist| - 1])
  {
    var n := |worklist| - 1;
    assert worklist == worklist[..n] + [worklist[n]];
  }

  /** A use by an instruction that passes the pointer on. */
  lemma {:induction false} WalkOn(c: Code, v: Value, returnCaptures: bool, visited: set<Use>, worklist: seq<Use>,
                                  u: Use, visited': set<Use>, worklist': seq<Use>)
    requires Walked(c, v, returnCaptures, visited, worklist) && worklist != [] && u == worklist[|worklist| - 1]
    requires c.instr(u.user).Forward? && !TooMany(c, u.user)
    requires visited' == visited + (set w | w in c.uses(u.user))
    requires forall w :: w in worklist' <==> w in worklist[..|worklist| - 1] || (w in c.uses(u.user) && w !in visited)
    ensures Walked(c, v, returnCaptures, visited', worklist')
  {
    hide Reachable;
    var n := |worklist| - 1;
    assert worklist == worklist[..n] + [u];
    forall w | w in visited'
      ensures Reachable(c, v, w)
    {
      if w in c.uses(u.user) {
        ReachableOn(c, v, u, w);
      }
    }
    forall w | w in visited' && w !in worklist'
      ensures Harmless(c, w, returnCaptures) && (c.instr(w.user).Forward? ==> AllIn(c.uses(w.user), visited'))
    {
      if w != u {
        assert w in visited && w !in worklist;
      }
    }
  }

  /** A finite function: `all` are its uses. */
  ghost predicate UsesIn(c: Code, all: set<Use>) {
    forall v, i :: 0 <= i < |c.uses(v)| ==> c.uses(v)[i] in all
  }

  lemma {:induction false} VisitedIn(c: Code, v: Value, visited: set<Use>, all: set<Use>)
    requires UsesIn(c, all) && forall u :: u in visited ==> Reachable(c, v, u)
    ensures visited <= all
  {
    forall u | u in visited
      ensures u in all
    {
      var p :| IsChain(c, v, p) && p[|p| - 1] == u;
      if |p| > 1 {
        assert Hop(c, p, |p| - 2);
      }
    }
  }

  /** Whether the tracker is told of a capture at this use, and takes it for one. */
  method Examine(c: Code, u: Use, returnCaptures: bool) returns (captured: bool)
    ensures captured <==> Captures(c, u, returnCaptures)
  {
    var v := c.of(u);
    match c.instr(u.user) {
      case Call(quiet, operands) =>
        if quiet {
          return false;
        }
        for k := 0 to |operands|
          invariant forall j :: 0 <= j < k ==> operands[j].0 != v || operands[j].1
        {
          if operands[k].0 == v && !operands[k].1 {
            return true;
          }
        }
        return false;
      case Store(stored) =>
        return v == stored;
      case Atomic(address) =>
        return v != address;
      case ICmp(againstNull) =>
        if againstNull {
          if c.noAlias(v) {
            return false;
          }
        }
        return true;
      case Return =>
        return returnCaptures;
      case Other =>
        return true;
      case _ =>
        return false;
    }
  }

  /** Whether the pointer may be captured; terminates on cyclic use graphs. */
  method PointerMayBeCaptured(c: Code, v: Value, returnCaptures: bool, ghost all: set<Use>) returns (captured: bool)
    requires UsesIn(c, all)
    ensures captured <==> MayBeCaptured(c, v, returnCaptures)
  {
    var ok, visited, worklist := AddUses(c.uses(v), {}, []);
    if !ok {
      return true;
    }
    WalkStarts(c, v, returnCaptures, visited, worklist);
    while worklist != []
      invariant Walked(c, v, returnCaptures, visited, worklist) && visited <= all
      decreases |all| - |visited|, |worklist|
    {
      var n := |worklist| - 1;
      var u := worklist[n];
      assert Reachable(c, v, u);
      if c.instr(u.user).Forward? {
        ghost var visited0, worklist0 := visited, worklist;
        ok, visited, worklist := AddUses(c.uses(u.user), visited, worklist[..n]);
        if !ok {
          return true;
        }
        WalkOn(c, v, returnCaptures, visited0, worklist0, u, visited, worklist);
        VisitedIn(c, v, visited, all);
        if visited != visited0 {
          Sets.ProperSubsetSize(visited0, visited);
          Sets.SubsetSize(visited, all);
        }
      } else {
        var reported := Examine(c, u, returnCaptures);
        if reported {
          return true;
        }
        WalkPasses(c, v, returnCaptures, visited, worklist, u);
        worklist := worklist[..n];
      }
    }
    NotCaptured(c, v, returnCaptures, visited);
    captured := false;
  }
}
