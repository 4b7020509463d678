/** The alias-set tracker: a partition of the pointers seen so far, kept up to
    date as pointers arrive, with merged sets forwarding to the set that took
    their pointers over. */
module AliasSets {
  import opened Wrappers

  type Ptr = nat

  datatype AliasResult = NoAlias | MayAlias | PartialAlias | MustAlias

  /** What alias analysis answers about two pointers. */
  type Oracle = (Ptr, Ptr) -> AliasResult

  predicate Aliases(alias: Oracle, p: Ptr, q: Ptr) { alias(p, q) != NoAlias }

  /** The order of the arguments does not matter, and pointers that must alias
      alias the same things. */
  ghost predicate Sane(alias: Oracle) {
    && (forall p, q :: alias(p, q) == alias(q, p))
    && (forall p, q, r :: alias(p, q) == MustAlias ==> alias(p, r) == alias(q, r))
  }

  // ----- the simple notion -----

  predicate Link(alias: Oracle, path: seq<Ptr>, i: int) {
    0 <= i < |path| - 1 && Aliases(alias, path[i], path[i + 1])
  }

  /** `path` goes from `p` to `q` through pointers of `universe`, each aliasing
      the next. */
  ghost predicate Chain(alias: Oracle, universe: set<Ptr>, path: seq<Ptr>, p: Ptr, q: Ptr) {
    && |path| > 0 && path[0] == p && path[|path| - 1] == q
    && (forall i :: 0 <= i < |path| ==> path[i] in universe)
    && (forall i :: 0 <= i < |path| - 1 ==> Link(alias, path, i))
  }

  ghost predicate Connected(alias: Oracle, universe: set<Ptr>, p: Ptr, q: Ptr) {
    exists path :: Chain(alias, universe, path, p, q)
  }

  lemma {:induction false} ConnectedSelf(alias: Oracle, universe: set<Ptr>, p: Ptr)
    requires p in universe
    ensures Connected(alias, universe, p, p)
  {
    assert Chain(alias, universe, [p], p, p);
  }

  lemma {:induction false} ConnectedPair(alias: Oracle, universe: set<Ptr>, p: Ptr, q: Ptr)
    requires p in universe && q in universe && Aliases(alias, p, q)
    ensures Connected(alias, universe, p, q)
  {
    var path := [p, q];
    assert Link(alias, path, 0);
    assert Chain(alias, universe, path, p, q);
  }

  lemma {:induction false} ConnectedTransitive(alias: Oracle, universe: set<Ptr>, p: Ptr, q: Ptr, r: Ptr)
    requires Connected(alias, universe, p, q) && Connected(alias, universe, q, r)
    ensures Connected(alias, universe, p, r)
  {
    var a :| Chain(alias, universe, a, p, q);
    var b :| Chain(alias, universe, b, q, r);
    var path := a + b[1..];
    forall i | 0 <= i < |path| - 1
      ensures Link(alias, path, i)
    {
      if i < |a| - 1 {
        assert Link(alias, a, i);
      } else {
        assert Link(alias, b, i - (|a| - 1));
      }
    }
    assert Chain(alias, universe, path, p, r);
  }

  lemma {:induction false} ConnectedMore(alias: Oracle, universe: set<Ptr>, universe': set<Ptr>, p: Ptr, q: Ptr)
    requires Connected(alias, universe, p, q) && universe <= universe'
    ensures Connected(alias, universe', p, q)
  {
    var path :| Chain(alias, universe, path, p, q);
    assert Chain(alias, universe', path, p, q);
  }

  lemma {:induction false} ConnectedBack(alias: Oracle, universe: set<Ptr>, p: Ptr, q: Ptr)
    requires Sane(alias) && Connected(alias, universe, p, q)
    ensures Connected(alias, universe, q, p)
  {
    var a :| Chain(alias, universe, a, p, q);
    var path := seq(|a|, i requires 0 <= i < |a| => a[|a| - 1 - i]);
    forall i | 0 <= i < |path| - 1
      ensures Link(alias, path, i)
    {
      assert Link(alias, a, |a| - 2 - i);
    }
    assert Chain(alias, universe, path, q, p);
  }

  // ----- the data structure -----

  /** `may` is the flag SetMayAlias; a set that forwards has given its pointers
      away. */
  datatype AliasSet = AliasSet(ptrs: seq<Ptr>, forward: Option<nat>, may: bool)

  /** Links go from later sets to earlier ones, so following them ends. */
  predicate ForwardsBack(sets: seq<AliasSet>) {
    forall s :: 0 <= s < |sets| && sets[s].forward.Some? ==> sets[s].forward.value < s && sets[s].ptrs == []
  }

  /** The set that pointers of `s` are in now. */
  function Target(sets: seq<AliasSet>, s: nat): (t: nat)
    requires ForwardsBack(sets) && s < |sets|
    ensures t <= s && sets[t].forward.None?
  {
    if sets[s].forward.None? then s else Target(sets, sets[s].forward.value)
  }

  /** A pointer's record names a set that leads to the one listing it. */
  ghost predicate Recorded(sets: seq<AliasSet>, entries: map<Ptr, nat>)
    requires ForwardsBack(sets)
  {
    && (forall p :: p in entries ==> entries[p] < |sets| && p in sets[Target(sets, entries[p])].ptrs)
    && (forall s, p :: 0 <= s < |sets| && p in sets[s].ptrs ==>
        p in entries && entries[p] < |sets| && Target(sets, entries[p]) == s)
    && (forall s :: 0 <= s < |sets| && sets[s].forward.None? ==> sets[s].ptrs != [])
  }

  /** Pointers of different sets do not alias. */
  ghost predicate Apart(alias: Oracle, sets: seq<AliasSet>) {
    forall s, t, p, q :: 0 <= s < |sets| && 0 <= t < |sets| && s != t && p in sets[s].ptrs && q in sets[t].ptrs ==>
      !Aliases(alias, p, q)
  }

  /** Pointers of one set are connected. */
  ghost predicate Together(alias: Oracle, universe: set<Ptr>, sets: seq<AliasSet>) {
    forall s, p, q :: 0 <= s < |sets| && p in sets[s].ptrs && q in sets[s].ptrs ==> Connected(alias, universe, p, q)
  }

  /** Different pointers of a set that is still a must-alias set must alias. */
  ghost predicate MustPairs(alias: Oracle, ptrs: seq<Ptr>) {
    forall p, q :: p in ptrs && q in ptrs && p != q ==> alias(p, q) == MustAlias
  }

  /** The flag of a set in use is exact. */
  ghost predicate FlagOk(alias: Oracle, a: AliasSet) {
    (!a.may ==> MustPairs(alias, a.ptrs)) && (a.may && a.forward.None? ==> !MustPairs(alias, a.ptrs))
  }

  ghost predicate FlagsOk(alias: Oracle, sets: seq<AliasSet>) {
    forall s :: 0 <= s < |sets| ==> FlagOk(alias, sets[s])
  }

  ghost predicate Valid(alias: Oracle, universe: set<Ptr>, sets: seq<AliasSet>, entries: map<Ptr, nat>) {
    && ForwardsBack(sets)
    && Recorded(sets, entries)
    && Apart(alias, sets)
    && Together(alias, universe, sets)
    && FlagsOk(alias, sets)
  }

  // ----- path compression -----

  lemma {:induction false} Compressed(sets: seq<AliasSet>, s: nat, t: nat)
    requires ForwardsBack(sets) && s < |sets| && sets[s].forward.Some? && t < |sets|
    ensures var sets' := sets[s := sets[s].(forward := Some(Target(sets, s)))];
      ForwardsBack(sets') && Target(sets', t) == Target(sets, t)
  {
    var sets' := sets[s := sets[s].(forward := Some(Target(sets, s)))];
    assert ForwardsBack(sets');
    if sets[t].forward.Some? {
      Compressed(sets, s, sets[t].forward.value);
    }
  }

  // ----- merging -----

  function Merged(alias: Oracle, sets: seq<AliasSet>, found: nat, cur: nat): seq<AliasSet>
    requires found < |sets| && cur < |sets| && sets[found].ptrs != [] && sets[cur].ptrs != []
  {
    var a, b := sets[found], sets[cur];
    var may := a.may || b.may || alias(a.ptrs[0], b.ptrs[0]) != MustAlias;
    sets[found := AliasSet(a.ptrs + b.ptrs, a.forward, may)][cur := AliasSet([], Some(found), b.may)]
  }

  lemma {:induction false} MergedTarget(alias: Oracle, sets: seq<AliasSet>, found: nat, cur: nat, t: nat)
    requires ForwardsBack(sets) && found < cur < |sets| && sets[found].ptrs != [] && sets[cur].ptrs != [] && t < |sets|
    requires sets[found].forward.None? && sets[cur].forward.None?
    ensures ForwardsBack(Merged(alias, sets, found, cur))
    ensures Target(Merged(alias, sets, found, cur), t) == if Target(sets, t) == cur then found else Target(sets, t)
  {
    var sets' := Merged(alias, sets, found, cur);
    if sets[t].forward.Some? {
      assert sets'[t].forward == sets[t].forward;
      MergedTarget(alias, sets, found, cur, sets[t].forward.value);
    } else if t == cur {
      assert Target(sets', found) == found;
    }
  }

  lemma {:induction false} MergedRecorded(alias: Oracle, sets: seq<AliasSet>, entries: map<Ptr, nat>, found: nat,
                                          cur: nat)
    requires ForwardsBack(sets) && Recorded(sets, entries) && found < cur < |sets|
    requires sets[found].forward.None? && sets[cur].forward.None?
    ensures ForwardsBack(Merged(alias, sets, found, cur)) && Recorded(Merged(alias, sets, found, cur), entries)
  {
    var sets' := Merged(alias, sets, found, cur);
    MergedTarget(alias, sets, found, cur, 0);
    forall p | p in entries
      ensures p in sets'[Target(sets', entries[p])].ptrs
    {
      MergedTarget(alias, sets, found, cur, entries[p]);
    }
    forall s, p | 0 <= s < |sets'| && p in sets'[s].ptrs
      ensures p in entries && Target(sets', entries[p]) == s
    {
      assert p in sets[s].ptrs || (s == found && p in sets[cur].ptrs);
      MergedTarget(alias, sets, found, cur, entries[p]);
    }
  }

  lemma {:induction false} MergedApart(alias: Oracle, sets: seq<AliasSet>, found: nat, cur: nat)
    requires Apart(alias, sets) && found < cur < |sets| && sets[found].ptrs != [] && sets[cur].ptrs != []
    ensures Apart(alias, Merged(alias, sets, found, cur))
  {
    var sets' := Merged(alias, sets, found, cur);
    forall s, t, p, q | 0 <= s < |sets'| && 0 <= t < |sets'| && s != t && p in sets'[s].ptrs && q in sets'[t].ptrs
      ensures !Aliases(alias, p, q)
    {
      assert p in sets[s].ptrs || (s == found && p in sets[cur].ptrs);
      assert q in sets[t].ptrs || (t == found && q in sets[cur].ptrs);
    }
  }

  /** Two sets that both have a pointer aliasing `hub` make one connected set. */
  lemma {:induction false} MergedTogether(alias: Oracle, universe: set<Ptr>, sets: seq<AliasSet>, found: nat, cur: nat,
                                          hub: Ptr, a: Ptr, b: Ptr)
    requires Sane(alias) && Together(alias, universe, sets) && found < cur < |sets|
    requires a in sets[found].ptrs && b in sets[cur].ptrs && Aliases(alias, a, hub) && Aliases(alias, b, hub)
    requires a in universe && b in universe && hub in universe
    ensures Together(alias, universe, Merged(alias, sets, found, cur))
  {
    var sets' := Merged(alias, sets, found, cur);
    ConnectedPair(alias, universe, a, hub);
    ConnectedPair(alias, universe, b, hub);
    forall s, p, q | 0 <= s < |sets'| && p in sets'[s].ptrs && q in sets'[s].ptrs
      ensures Connected(alias, universe, p, q)
    {
      if s == found {
        ToHub(alias, universe, sets, found, cur, hub, a, b, p);
        ToHub(alias, universe, sets, found, cur, hub, a, b, q);
        ConnectedBack(alias, universe, q, hub);
        ConnectedTransitive(alias, universe, p, hub, q);
      }
    }
  }

  lemma {:induction false} ToHub(alias: Oracle, universe: set<Ptr>, sets: seq<AliasSet>, found: nat, cur: nat,
                                 hub: Ptr, a: Ptr, b: Ptr, p: Ptr)
    requires Together(alias, universe, sets) && found < |sets| && cur < |sets|
    requires a in sets[found].ptrs && b in sets[cur].ptrs
    requires Connected(alias, universe, a, hub) && Connected(alias, universe, b, hub)
    requires p in sets[found].ptrs + sets[cur].ptrs
    ensures Connected(alias, universe, p, hub)
  {
    if p in sets[found].ptrs {
      ConnectedTransitive(alias, universe, p, a, hub);
    } else {
      ConnectedTransitive(alias, universe, p, b, hub);
    }
  }

  lemma {:induction false} MustPairsJoin(alias: Oracle, xs: seq<Ptr>, ys: seq<Ptr>)
    requires Sane(alias) && MustPairs(alias, xs) && MustPairs(alias, ys)
    requires xs != [] && ys != [] && alias(xs[0], ys[0]) == MustAlias
    ensures MustPairs(alias, xs + ys)
  {
    forall p, q | p in xs && q in ys && p != q
      ensures alias(p, q) == MustAlias && alias(q, p) == MustAlias
    {
      assert p != xs[0] ==> alias(p, xs[0]) == MustAlias;
      assert q != ys[0] ==> alias(q, ys[0]) == MustAlias;
      assert alias(p, ys[0]) == MustAlias;
      assert q != ys[0] ==> alias(q, p) == alias(ys[0], p);
    }
    forall p, q | p in xs + ys && q in xs + ys && p != q
      ensures alias(p, q) == MustAlias
    {
      assert p in xs || p in ys;
      assert q in xs || q in ys;
    }
  }

  lemma {:induction false} MustPairsParts(alias: Oracle, xs: seq<Ptr>, ys: seq<Ptr>)
    requires MustPairs(alias, xs + ys)
    ensures MustPairs(alias, xs) && MustPairs(alias, ys)
    ensures xs != [] && ys != [] && xs[0] != ys[0] ==> alias(xs[0], ys[0]) == MustAlias
  {
    assert forall p :: p in xs || p in ys ==> p in xs + ys;
    assert xs != [] ==> xs[0] in xs;
    assert ys != [] ==> ys[0] in ys;
  }

  lemma {:induction false} MergedFlags(alias: Oracle, sets: seq<AliasSet>, found: nat, cur: nat)
    requires Sane(alias) && FlagsOk(alias, sets) && found < cur < |sets| && sets[found].ptrs != [] &&
             sets[cur].ptrs != []
    requires sets[found].forward.None? && sets[cur].forward.None? && sets[found].ptrs[0] != sets[cur].ptrs[0]
    ensures FlagsOk(alias, Merged(alias, sets, found, cur))
  {
    var sets' := Merged(alias, sets, found, cur);
    assert FlagOk(alias, sets[found]) && FlagOk(alias, sets[cur]);
    if !sets'[found].may {
      MustPairsJoin(alias, sets[found].ptrs, sets[cur].ptrs);
    } else if MustPairs(alias, sets'[found].ptrs) {
      MustPairsParts(alias, sets[found].ptrs, sets[cur].ptrs);
    }
    forall s | 0 <= s < |sets'|
      ensures FlagOk(alias, sets'[s])
    {
      assert s != found && s != cur ==> FlagOk(alias, sets[s]);
    }
  }

  // ----- a new pointer -----

  function Added(sets: seq<AliasSet>, s: nat, p: Ptr, may: bool): seq<AliasSet>
    requires s < |sets|
  {
    sets[s := sets[s].(ptrs := sets[s].ptrs + [p], may := may)]
  }

  lemma {:induction false} AddedTarget(sets: seq<AliasSet>, s: nat, p: Ptr, may: bool, t: nat)
    requires ForwardsBack(sets) && s < |sets| && sets[s].forward.None? && t < |sets|
    ensures ForwardsBack(Added(sets, s, p, may)) && Target(Added(sets, s, p, may), t) == Target(sets, t)
  {
    assert ForwardsBack(Added(sets, s, p, may));
    if sets[t].forward.Some? {
      AddedTarget(sets, s, p, may, sets[t].forward.value);
    }
  }

  lemma {:induction false} AddedRecorded(sets: seq<AliasSet>, entries: map<Ptr, nat>, s: nat, p: Ptr, may: bool)
    requires ForwardsBack(sets) && Recorded(sets, entries) && s < |sets| && sets[s].forward.None? && p !in entries
    ensures ForwardsBack(Added(sets, s, p, may)) && Recorded(Added(sets, s, p, may), entries[p := s])
  {
    var sets', entries' := Added(sets, s, p, may), entries[p := s];
    AddedTarget(sets, s, p, may, s);
    forall q | q in entries'
      ensures q in sets'[Target(sets', entries'[q])].ptrs
    {
      AddedTarget(sets, s, p, may, entries'[q]);
    }
    forall t, q | 0 <= t < |sets'| && q in sets'[t].ptrs
      ensures q in entries' && Target(sets', entries'[q]) == t
    {
      if q != p {
        assert q in sets[t].ptrs;
        AddedTarget(sets, s, p, may, entries[q]);
      }
    }
  }

  /** No pointer outside set `s` aliases `p`. */
  ghost predicate OnlyHere(alias: Oracle, sets: seq<AliasSet>, s: nat, p: Ptr) {
    forall t, q :: 0 <= t < |sets| && t != s && q in sets[t].ptrs ==> !Aliases(alias, p, q)
  }

  lemma {:induction false} AddedApart(alias: Oracle, sets: seq<AliasSet>, s: nat, p: Ptr, may: bool)
    requires Sane(alias) && Apart(alias, sets) && s < |sets| && OnlyHere(alias, sets, s, p)
    ensures Apart(alias, Added(sets, s, p, may))
  {
    var sets' := Added(sets, s, p, may);
    forall t, u, q, r | 0 <= t < |sets'| && 0 <= u < |sets'| && t != u && q in sets'[t].ptrs && r in sets'[u].ptrs
      ensures !Aliases(alias, q, r)
    {
      assert q in sets[t].ptrs || (t == s && q == p);
      assert r in sets[u].ptrs || (u == s && r == p);
      assert alias(q, r) == alias(r, q);
      if q !in sets[t].ptrs {
        assert r in sets[u].ptrs && u != s && !Aliases(alias, p, r);
      } else if r !in sets[u].ptrs {
        assert !Aliases(alias, p, q);
      } else {
        assert !Aliases(alias, q, r);
      }
    }
  }

  lemma {:induction false} AddedTogether(alias: Oracle, universe: set<Ptr>, sets: seq<AliasSet>, s: nat, p: Ptr,
                                         may: bool)
    requires Sane(alias) && Together(alias, universe, sets) && s < |sets| && p in universe
    requires sets[s].ptrs == [] || exists a :: a in sets[s].ptrs && a in universe && Aliases(alias, a, p)
    ensures Together(alias, universe, Added(sets, s, p, may))
  {
    var sets' := Added(sets, s, p, may);
    ConnectedSelf(alias, universe, p);
    forall q | q in sets[s].ptrs
      ensures Connected(alias, universe, q, p) && Connected(alias, universe, p, q)
    {
      var a :| a in sets[s].ptrs && a in universe && Aliases(alias, a, p);
      ConnectedPair(alias, universe, a, p);
      ConnectedTransitive(alias, universe, q, a, p);
      ConnectedBack(alias, universe, q, p);
    }
    forall t, q, r | 0 <= t < |sets'| && q in sets'[t].ptrs && r in sets'[t].ptrs
      ensures Connected(alias, universe, q, r)
    {
      assert t == s ==> (q in sets[s].ptrs || q == p) && (r in sets[s].ptrs || r == p);
    }
  }

  /** The may-alias flag of `a` once `ptr` is in it. */
  function MayAfter(alias: Oracle, a: AliasSet, ptr: Ptr): bool {
    a.may || (a.ptrs != [] && alias(a.ptrs[0], ptr) != MustAlias)
  }

  lemma {:induction false} AddedFlags(alias: Oracle, sets: seq<AliasSet>, s: nat, p: Ptr)
    requires Sane(alias) && FlagsOk(alias, sets) && s < |sets| && p !in sets[s].ptrs && sets[s].forward.None?
    ensures FlagsOk(alias, Added(sets, s, p, MayAfter(alias, sets[s], p)))
  {
    var sets' := Added(sets, s, p, MayAfter(alias, sets[s], p));
    assert FlagOk(alias, sets[s]);
    if sets[s].ptrs != [] {
      if !sets'[s].may {
        MustPairsJoin(alias, sets[s].ptrs, [p]);
      } else if MustPairs(alias, sets'[s].ptrs) {
        assert sets[s].ptrs[0] in sets[s].ptrs;
        MustPairsParts(alias, sets[s].ptrs, [p]);
      }
    }
    forall t | 0 <= t < |sets'|
      ensures FlagOk(alias, sets'[t])
    {
      assert t != s ==> FlagOk(alias, sets[t]);
    }
  }

  // ----- the sets are the components -----

  lemma {:induction false} TogetherMore(alias: Oracle, universe: set<Ptr>, universe': set<Ptr>, sets: seq<AliasSet>)
    requires Together(alias, universe, sets) && universe <= universe'
    ensures Together(alias, universe', sets)
  {
    forall s, p, q | 0 <= s < |sets| && p in sets[s].ptrs && q in sets[s].ptrs
      ensures Connected(alias, universe', p, q)
    {
      ConnectedMore(alias, universe, universe', p, q);
    }
  }

  lemma {:induction false} ChainStaysInside(alias: Oracle, sets: seq<AliasSet>, entries: map<Ptr, nat>, path: seq<Ptr>)
    requires ForwardsBack(sets) && Recorded(sets, entries) && Apart(alias, sets)
    requires |path| > 0 && (forall i :: 0 <= i < |path| ==> path[i] in entries)
    requires forall i :: 0 <= i < |path| - 1 ==> Link(alias, path, i)
    ensures Target(sets, entries[path[0]]) == Target(sets, entries[path[|path| - 1]])
    decreases |path|
  {
    if |path| > 1 {
      var rest := path[1..];
      assert Link(alias, path, 0);
      assert path[0] in entries && path[1] in entries;
      forall i | 0 <= i < |rest| - 1
        ensures Link(alias, rest, i)
      {
        assert Link(alias, path, i + 1);
      }
      ChainStaysInside(alias, sets, entries, rest);
    }
  }

  /** Two pointers are in one set exactly when they are connected. */
  lemma {:induction false} SetsAreComponents(alias: Oracle, sets: seq<AliasSet>, entries: map<Ptr, nat>, p: Ptr, q: Ptr)
    requires Valid(alias, entries.Keys, sets, entries) && p in entries && q in entries
    ensures Target(sets, entries[p]) == Target(sets, entries[q]) <==> Connected(alias, entries.Keys, p, q)
  {
    if Connected(alias, entries.Keys, p, q) {
      var path :| Chain(alias, entries.Keys, path, p, q);
      ChainStaysInside(alias, sets, entries, path);
    }
  }

  // ----- the tracker -----

  class AliasSetTracker {
    const alias: Oracle
    /** All sets ever made, in order, and the set each pointer's record names. */
    var sets: seq<AliasSet>
    var entries: map<Ptr, nat>

    constructor (alias: Oracle)
      ensures this.alias == alias && sets == [] && entries == map[]
      ensures Valid(alias, {}, sets, entries)
    {
      this.alias, sets, entries := alias, [], map[];
    }

    /** AliasSet::getForwardedTarget: follows the links and shortens them. */
    method GetForwardedTarget(s: nat) returns (dest: nat)
      requires ForwardsBack(sets) && s < |sets|
      modifies this`sets
      ensures |sets| == |old(sets)| && ForwardsBack(sets) && dest == Target(old(sets), s)
      ensures forall t: nat :: t < |sets| ==> Target(sets, t) == Target(old(sets), t)
      ensures forall t: nat :: t < |sets| ==> sets[t].ptrs == old(sets)[t].ptrs && sets[t].may == old(sets)[t].may
      decreases s
    {
      if sets[s].forward.None? {
        return s;
      }
      ghost var before := sets;
      var forward := sets[s].forward.value;
      dest := GetForwardedTarget(forward);
      if sets[s].forward != Some(dest) {
        ghost var between := sets;
        assert Target(sets, s) == dest;
        forall t: nat | t < |sets|
          ensures ForwardsBack(sets[s := sets[s].(forward := Some(dest))])
          ensures Target(sets[s := sets[s].(forward := Some(dest))], t) == Target(sets, t)
        {
          Compressed(sets, s, t);
        }
        sets := sets[s := sets[s].(forward := Some(dest))];
      }
    }

    /** AliasSet::aliasesPointer */
    method AliasesPointer(s: nat, ptr: Ptr) returns (r: bool)
      requires Sane(alias) && s < |sets| && sets[s].ptrs != [] && FlagsOk(alias, sets)
      ensures r <==> exists q :: q in sets[s].ptrs && Aliases(alias, q, ptr)
    {
      var ptrs := sets[s].ptrs;
      assert FlagOk(alias, sets[s]);
      if !sets[s].may {
        MustSpeaksForAll(alias, ptrs, ptr);
        return Aliases(alias, ptrs[0], ptr);
      }
      r := false;
      for i := 0 to |ptrs|
        invariant forall j :: 0 <= j < i ==> !Aliases(alias, ptr, ptrs[j])
      {
        if Aliases(alias, ptr, ptrs[i]) {
          assert alias(ptr, ptrs[i]) == alias(ptrs[i], ptr) && ptrs[i] in sets[s].ptrs;
          return true;
        }
      }
      forall q | q in ptrs
        ensures !Aliases(alias, q, ptr)
      {
        var j :| 0 <= j < |ptrs| && ptrs[j] == q;
        assert alias(ptr, q) == alias(q, ptr);
      }
    }

    /** AliasSet::mergeSetIn */
    method MergeSetIn(found: nat, cur: nat)
      requires found < |sets| && cur < |sets| && found != cur
      requires sets[found].forward.None? && sets[cur].forward.None?
      requires sets[found].ptrs != [] && sets[cur].ptrs != []
      modifies this`sets
      ensures sets == Merged(alias, old(sets), found, cur)
    {
      var a, b := sets[found], sets[cur];
      var may := a.may || b.may;
      if !may {
        if alias(a.ptrs[0], b.ptrs[0]) != MustAlias {
          may := true;
        }
      }
      sets := sets[cur := b.(forward := Some(found), ptrs := [])];
      sets := sets[found := AliasSet(a.ptrs + b.ptrs, a.forward, may)];
    }

    /** AliasSetTracker::findAliasSetForPointer.  `universe` is the pointers seen
        so far and the one looked up. */
    method FindAliasSetForPointer(ptr: Ptr, ghost universe: set<Ptr>) returns (found: Option<nat>)
      requires Sane(alias) && Valid(alias, universe, sets, entries) && universe == entries.Keys + {ptr} &&
               ptr !in entries
      modifies this`sets
      ensures Valid(alias, universe, sets, entries)
      ensures found.Some? ==> Hit(alias, sets, found.value, ptr) && OnlyHere(alias, sets, found.value, ptr)
      ensures found.None? ==> OnlyHere(alias, sets, |sets|, ptr)
      ensures |sets| == |old(sets)|
    {
      hide ForwardsBack, Recorded, Apart, Together, Hit, Cleared, OnlyHere;
      found := None;
      NoneCleared(alias, sets, ptr);
      for cur := 0 to |sets|
        invariant |sets| == |old(sets)|
        invariant Valid(alias, universe, sets, entries)
        invariant found.Some? ==> found.value < cur && Hit(alias, sets, found.value, ptr)
        invariant Cleared(alias, sets, cur, found, ptr)
      {
        UsedOrEmpty(sets, entries, cur);
        if sets[cur].forward.None? {
          var hit := AliasesPointer(cur, ptr);
          NextCleared(alias, sets, cur, found, ptr, hit);
          if hit {
            if found.None? {
              found := Some(cur);
            } else {
              HitUsed(alias, sets, found.value, ptr);
              MergeValid(alias, universe, sets, entries, found.value, cur, ptr);
              MergeClears(alias, sets, found.value, cur, ptr);
              MergeSetIn(found.value, cur);
            }
          }
        } else {
          NextCleared(alias, sets, cur, found, ptr, false);
        }
      }
      AllCleared(alias, sets, found, ptr);
    }

    /** AliasSet::addPointer, for a set the pointer aliases or a new one. */
    method AddPointer(s: nat, ptr: Ptr)
      requires Sane(alias) && s < |sets| && ptr !in entries
      requires sets[s].ptrs == [] || Hit(alias, sets, s, ptr)
      requires FlagsOk(alias, sets)
      modifies this`sets, this`entries
      ensures sets == Added(old(sets), s, ptr, MayAfter(alias, old(sets[s]), ptr))
      ensures entries == old(entries)[ptr := s]
    {
      var may := sets[s].may;
      if !may && sets[s].ptrs != [] {
        var result := alias(sets[s].ptrs[0], ptr);
        if result != MustAlias {
          may := true;
        }
        assert FlagOk(alias, sets[s]);
        MustSpeaksForAll(alias, sets[s].ptrs, ptr);
        assert result != NoAlias;
      }
      sets := sets[s := sets[s].(ptrs := sets[s].ptrs + [ptr], may := may)];
      entries := entries[ptr := s];
      assert sets == Added(old(sets), s, ptr, may);
    }

    /** AliasSetTracker::getAliasSetForPointer */
    method GetAliasSetForPointer(ptr: Ptr) returns (s: nat, isNew: bool)
      requires Sane(alias) && Valid(alias, entries.Keys, sets, entries)
      modifies this`sets, this`entries
      ensures Valid(alias, entries.Keys, sets, entries)
      ensures entries.Keys == old(entries.Keys) + {ptr}
      ensures s < |sets| && ptr in sets[s].ptrs
      ensures isNew <==> ptr !in old(entries) && !AliasedBy(alias, old(entries.Keys), ptr)
    {
      if ptr in entries {
        s := GetKnown(ptr);
        isNew := false;
      } else {
        s, isNew := GetUnknown(ptr, entries.Keys + {ptr});
      }
    }

    method GetUnknown(ptr: Ptr, ghost universe: set<Ptr>) returns (s: nat, isNew: bool)
      requires Sane(alias) && Valid(alias, entries.Keys, sets, entries) && ptr !in entries &&
               universe == entries.Keys + {ptr}
      modifies this`sets, this`entries
      ensures Valid(alias, universe, sets, entries) && entries.Keys == universe
      ensures s < |sets| && ptr in sets[s].ptrs
      ensures isNew <==> !AliasedBy(alias, old(entries.Keys), ptr)
    {
      TogetherMore(alias, entries.Keys, universe, sets);
      var found := FindAliasSetForPointer(ptr, universe);
      isNew := found.None?;
      if found.Some? {
        s := found.value;
        AddToFound(s, ptr, universe);
      } else {
        s := AddToNew(ptr, universe);
      }
    }

    method AddToFound(s: nat, ptr: Ptr, ghost universe: set<Ptr>)
      requires Sane(alias) && Valid(alias, universe, sets, entries) && universe == entries.Keys + {ptr} &&
               ptr !in entries
      requires Hit(alias, sets, s, ptr) && OnlyHere(alias, sets, s, ptr)
      modifies this`sets, this`entries
      ensures Valid(alias, universe, sets, entries) && entries == old(entries)[ptr := s] && entries.Keys == universe
      ensures s < |sets| && ptr in sets[s].ptrs && AliasedBy(alias, old(entries.Keys), ptr)
    {
      hide Sane, ForwardsBack, Recorded, Apart, Together, FlagsOk, OnlyHere, AliasedBy;
      ghost var before, known := sets, entries;
      HitMember(alias, sets, entries, s, ptr);
      AddPointer(s, ptr);
      AddValid(alias, universe, before, known, s, ptr);
    }

    method AddToNew(ptr: Ptr, ghost universe: set<Ptr>) returns (s: nat)
      requires Sane(alias) && Valid(alias, universe, sets, entries) && universe == entries.Keys + {ptr} &&
               ptr !in entries
      requires OnlyHere(alias, sets, |sets|, ptr)
      modifies this`sets, this`entries
      ensures Valid(alias, universe, sets, entries) && entries == old(entries)[ptr := s] && entries.Keys == universe
      ensures s < |sets| && ptr in sets[s].ptrs && !AliasedBy(alias, old(entries.Keys), ptr)
    {
      hide Sane, ForwardsBack, Recorded, Apart, Together, OnlyHere, AliasedBy;
      ghost var before, known := sets, entries;
      NobodyAliases(alias, sets, entries, ptr);
      s := |sets|;
      sets := sets + [AliasSet([], None, false)];
      AddPointer(s, ptr);
      NewValid(alias, universe, before, known, ptr);
      assert sets[s].ptrs == [ptr];
      assert sets == before + [AliasSet([ptr], None, false)];
    }

    /** A record that names a set which forwards is redirected. */
    method GetKnown(ptr: Ptr) returns (s: nat)
      requires ptr in entries && Valid(alias, entries.Keys, sets, entries)
      modifies this`sets, this`entries
      ensures Valid(alias, entries.Keys, sets, entries) && entries.Keys == old(entries.Keys)
      ensures s < |sets| && ptr in sets[s].ptrs
    {
      ghost var before, known := sets, entries;
      s := GetForwardedTarget(entries[ptr]);
      entries := entries[ptr := s];
      assert entries.Keys == known.Keys;
      RedirectValid(alias, known.Keys, before, sets, known, ptr, s);
    }
  }

  ghost predicate AliasedBy(alias: Oracle, known: set<Ptr>, ptr: Ptr) {
    exists q :: q in known && Aliases(alias, ptr, q)
  }

  lemma {:induction false} HitMember(alias: Oracle, sets: seq<AliasSet>, entries: map<Ptr, nat>, s: nat, ptr: Ptr)
    requires ForwardsBack(sets) && Recorded(sets, entries) && Hit(alias, sets, s, ptr) && Sane(alias)
    ensures AliasedBy(alias, entries.Keys, ptr)
  {
    var q :| q in sets[s].ptrs && Aliases(alias, q, ptr);
    Member(sets, entries, s, q);
    assert alias(q, ptr) == alias(ptr, q);
  }

  lemma {:induction false} NobodyAliases(alias: Oracle, sets: seq<AliasSet>, entries: map<Ptr, nat>, ptr: Ptr)
    requires ForwardsBack(sets) && Recorded(sets, entries) && OnlyHere(alias, sets, |sets|, ptr)
    ensures !AliasedBy(alias, entries.Keys, ptr)
  {
    forall q | q in entries
      ensures !Aliases(alias, ptr, q)
    {
      var t := Target(sets, entries[q]);
      assert q in sets[t].ptrs;
    }
  }

  lemma {:induction false} AddValid(alias: Oracle, universe: set<Ptr>, sets: seq<AliasSet>, entries: map<Ptr, nat>,
                                    s: nat, ptr: Ptr)
    requires Sane(alias) && Valid(alias, universe, sets, entries) && universe == entries.Keys + {ptr} && ptr !in entries
    requires Hit(alias, sets, s, ptr) && OnlyHere(alias, sets, s, ptr)
    ensures Valid(alias, universe, Added(sets, s, ptr, MayAfter(alias, sets[s], ptr)), entries[ptr := s])
  {
    var may := MayAfter(alias, sets[s], ptr);
    var a :| a in sets[s].ptrs && Aliases(alias, a, ptr);
    Member(sets, entries, s, a);
    AddedRecorded(sets, entries, s, ptr, may);
    AddedApart(alias, sets, s, ptr, may);
    AddedTogether(alias, universe, sets, s, ptr, may);
    assert ptr !in sets[s].ptrs;
    AddedFlags(alias, sets, s, ptr);
  }

  lemma {:induction false} LongerTarget(sets: seq<AliasSet>, extra: AliasSet, t: nat)
    requires ForwardsBack(sets) && extra.forward.None? && t < |sets|
    ensures ForwardsBack(sets + [extra]) && Target(sets + [extra], t) == Target(sets, t)
  {
    assert ForwardsBack(sets + [extra]);
    if sets[t].forward.Some? {
      LongerTarget(sets, extra, sets[t].forward.value);
    }
  }

  lemma {:induction false} NewRecorded(sets: seq<AliasSet>, entries: map<Ptr, nat>, ptr: Ptr)
    requires ForwardsBack(sets) && Recorded(sets, entries) && ptr !in entries
    ensures var sets' := sets + [AliasSet([ptr], None, false)];
      ForwardsBack(sets') && Recorded(sets', entries[ptr := |sets|])
  {
    var extra := AliasSet([ptr], None, false);
    var sets', entries' := sets + [extra], entries[ptr := |sets|];
    assert ForwardsBack(sets');
    forall q | q in entries'
      ensures q in sets'[Target(sets', entries'[q])].ptrs
    {
      if q != ptr {
        LongerTarget(sets, extra, entries[q]);
      }
    }
    forall t, q | 0 <= t < |sets'| && q in sets'[t].ptrs
      ensures q in entries' && Target(sets', entries'[q]) == t
    {
      if t < |sets| {
        Member(sets, entries, t, q);
        LongerTarget(sets, extra, entries[q]);
      }
    }
  }

  lemma {:induction false} NewApart(alias: Oracle, sets: seq<AliasSet>, ptr: Ptr)
    requires Sane(alias) && Apart(alias, sets) && OnlyHere(alias, sets, |sets|, ptr)
    ensures Apart(alias, sets + [AliasSet([ptr], None, false)])
  {
    var sets' := sets + [AliasSet([ptr], None, false)];
    forall t, u, q, r | 0 <= t < |sets'| && 0 <= u < |sets'| && t != u && q in sets'[t].ptrs && r in sets'[u].ptrs
      ensures !Aliases(alias, q, r)
    {
      assert alias(q, r) == alias(r, q);
      if t == |sets| {
        assert r in sets[u].ptrs && !Aliases(alias, ptr, r);
      } else if u == |sets| {
        assert q in sets[t].ptrs && !Aliases(alias, ptr, q);
      } else {
        assert q in sets[t].ptrs && r in sets[u].ptrs;
      }
    }
  }

  lemma {:induction false} NewValid(alias: Oracle, universe: set<Ptr>, sets: seq<AliasSet>, entries: map<Ptr, nat>,
                                    ptr: Ptr)
    requires Sane(alias) && Valid(alias, universe, sets, entries) && universe == entries.Keys + {ptr} && ptr !in entries
    requires OnlyHere(alias, sets, |sets|, ptr)
    ensures Valid(alias, universe, sets + [AliasSet([ptr], None, false)], entries[ptr := |sets|])
  {
    NewRecorded(sets, entries, ptr);
    NewApart(alias, sets, ptr);
    ConnectedSelf(alias, universe, ptr);
    assert FlagOk(alias, AliasSet([ptr], None, false));
  }

  lemma {:induction false} RedirectValid(alias: Oracle, universe: set<Ptr>, sets: seq<AliasSet>, sets': seq<AliasSet>,
                                         entries: map<Ptr, nat>, ptr: Ptr, s: nat)
    requires Valid(alias, universe, sets, entries) && ptr in entries && s == Target(sets, entries[ptr])
    requires |sets'| == |sets| && ForwardsBack(sets')
    requires forall t: nat :: t < |sets| ==> Target(sets', t) == Target(sets, t)
    requires forall t: nat :: t < |sets| ==> sets'[t].ptrs == sets[t].ptrs && sets'[t].may == sets[t].may
    ensures Valid(alias, universe, sets', entries[ptr := s])
    ensures s < |sets'| && ptr in sets'[s].ptrs
  {
    var entries' := entries[ptr := s];
    assert Target(sets', s) == s;
    assert Recorded(sets', entries') by {
      forall t | 0 <= t < |sets'| && sets'[t].forward.None?
        ensures sets'[t].ptrs != []
      {
        assert Target(sets', t) == t && Target(sets, t) == t;
      }
    }
  }

  /** The set at `s` is in use and has a pointer that aliases `ptr`. */
  ghost predicate Hit(alias: Oracle, sets: seq<AliasSet>, s: nat, ptr: Ptr) {
    s < |sets| && sets[s].forward.None? && exists q :: q in sets[s].ptrs && Aliases(alias, q, ptr)
  }

  /** None of the first `n` sets but `found` has a pointer that aliases `ptr`. */
  ghost predicate Cleared(alias: Oracle, sets: seq<AliasSet>, n: nat, found: Option<nat>, ptr: Ptr) {
    forall t, q :: 0 <= t < |sets| && t < n && found != Some(t) && q in sets[t].ptrs ==> !Aliases(alias, ptr, q)
  }

  lemma {:induction false} NoneCleared(alias: Oracle, sets: seq<AliasSet>, ptr: Ptr)
    ensures Cleared(alias, sets, 0, None, ptr)
  {
  }

  lemma {:induction false} AllCleared(alias: Oracle, sets: seq<AliasSet>, found: Option<nat>, ptr: Ptr)
    requires Cleared(alias, sets, |sets|, found, ptr)
    ensures OnlyHere(alias, sets, if found.Some? then found.value else |sets|, ptr)
  {
  }

  lemma {:induction false} UsedOrEmpty(sets: seq<AliasSet>, entries: map<Ptr, nat>, s: nat)
    requires ForwardsBack(sets) && Recorded(sets, entries) && s < |sets|
    ensures sets[s].forward.None? <==> sets[s].ptrs != []
  {
  }

  /** One more set has been asked. */
  lemma {:induction false} NextCleared(alias: Oracle, sets: seq<AliasSet>, n: nat, found: Option<nat>, ptr: Ptr,
                                       hit: bool)
    requires Sane(alias) && Cleared(alias, sets, n, found, ptr) && n < |sets|
    requires hit <==> exists q :: q in sets[n].ptrs && Aliases(alias, q, ptr)
    ensures !hit ==> Cleared(alias, sets, n + 1, found, ptr)
    ensures hit && sets[n].forward.None? ==> Hit(alias, sets, n, ptr)
    ensures hit && found.None? ==> Cleared(alias, sets, n + 1, Some(n), ptr)
  {
  }

  lemma {:induction false} HitUsed(alias: Oracle, sets: seq<AliasSet>, s: nat, ptr: Ptr)
    requires Hit(alias, sets, s, ptr)
    ensures s < |sets| && sets[s].forward.None? && sets[s].ptrs != []
  {
  }

  /** A set that is hit goes into the one found first. */
  lemma {:induction false} MergeClears(alias: Oracle, sets: seq<AliasSet>, found: nat, cur: nat, ptr: Ptr)
    requires found < cur < |sets| && Hit(alias, sets, found, ptr) && sets[cur].ptrs != []
    requires Cleared(alias, sets, cur, Some(found), ptr)
    ensures Hit(alias, Merged(alias, sets, found, cur), found, ptr)
    ensures Cleared(alias, Merged(alias, sets, found, cur), cur + 1, Some(found), ptr)
  {
    var q :| q in sets[found].ptrs && Aliases(alias, q, ptr);
    assert q in Merged(alias, sets, found, cur)[found].ptrs;
  }

  lemma {:induction false} MustSpeaksForAll(alias: Oracle, ptrs: seq<Ptr>, ptr: Ptr)
    requires Sane(alias) && MustPairs(alias, ptrs) && ptrs != []
    ensures Aliases(alias, ptrs[0], ptr) <==> exists q :: q in ptrs && Aliases(alias, q, ptr)
  {
    forall q | q in ptrs && Aliases(alias, q, ptr)
      ensures Aliases(alias, ptrs[0], ptr)
    {
      assert q != ptrs[0] ==> alias(q, ptrs[0]) == MustAlias;
    }
    assert ptrs[0] in ptrs;
  }

  lemma {:induction false} Member(sets: seq<AliasSet>, entries: map<Ptr, nat>, s: nat, p: Ptr)
    requires ForwardsBack(sets) && Recorded(sets, entries) && s < |sets| && p in sets[s].ptrs
    ensures p in entries
  {
  }

  lemma {:induction false} FirstsDiffer(sets: seq<AliasSet>, entries: map<Ptr, nat>, s: nat, t: nat)
    requires ForwardsBack(sets) && Recorded(sets, entries) && s < |sets| && t < |sets| && s != t
    requires sets[s].ptrs != [] && sets[t].ptrs != []
    ensures sets[s].ptrs[0] != sets[t].ptrs[0]
  {
    var p, q := sets[s].ptrs[0], sets[t].ptrs[0];
    assert p in sets[s].ptrs && q in sets[t].ptrs;
    assert Target(sets, entries[p]) == s && Target(sets, entries[q]) == t;
  }

  lemma {:induction false} MergeValid(alias: Oracle, universe: set<Ptr>, sets: seq<AliasSet>, entries: map<Ptr, nat>,
                                      found: nat, cur: nat, ptr: Ptr)
    requires Sane(alias) && Valid(alias, universe, sets, entries) && universe == entries.Keys + {ptr}
    requires found < cur < |sets| && Hit(alias, sets, found, ptr) && Hit(alias, sets, cur, ptr)
    ensures Valid(alias, universe, Merged(alias, sets, found, cur), entries)
  {
    var a :| a in sets[found].ptrs && Aliases(alias, a, ptr);
    var b :| b in sets[cur].ptrs && Aliases(alias, b, ptr);
    Member(sets, entries, found, a);
    Member(sets, entries, cur, b);
    MergedRecorded(alias, sets, entries, found, cur);
    MergedApart(alias, sets, found, cur);
    MergedTogether(alias, universe, sets, found, cur, ptr, a, b);
    FirstsDiffer(sets, entries, found, cur);
    MergedFlags(alias, sets, found, cur);
  }

  function Elements(ptrs: seq<Ptr>): set<Ptr> {
    set p | p in ptrs
  }

  /** The sets in use. */
  function Partition(sets: seq<AliasSet>): set<set<Ptr>> {
    set s | 0 <= s < |sets| && sets[s].forward.None? :: Elements(sets[s].ptrs)
  }

  ghost function Component(alias: Oracle, universe: set<Ptr>, p: Ptr): set<Ptr> {
    set q | q in universe && Connected(alias, universe, p, q)
  }

  /** The connected components of the may-alias relation on `universe`. */
  ghost function Components(alias: Oracle, universe: set<Ptr>): set<set<Ptr>> {
    set p | p in universe :: Component(alias, universe, p)
  }

  lemma {:induction false} OneComponent(alias: Oracle, sets: seq<AliasSet>, entries: map<Ptr, nat>, p: Ptr)
    requires Valid(alias, entries.Keys, sets, entries) && p in entries
    ensures Component(alias, entries.Keys, p) == Elements(sets[Target(sets, entries[p])].ptrs)
  {
    var t := Target(sets, entries[p]);
    forall q
      ensures q in sets[t].ptrs <==> q in entries.Keys && Connected(alias, entries.Keys, p, q)
    {
      if q in entries {
        SetsAreComponents(alias, sets, entries, p, q);
      } else if q in sets[t].ptrs {
        Member(sets, entries, t, q);
      }
    }
  }

  lemma {:induction false} PartitionIsComponents(alias: Oracle, sets: seq<AliasSet>, entries: map<Ptr, nat>)
    requires Valid(alias, entries.Keys, sets, entries)
    ensures Partition(sets) == Components(alias, entries.Keys)
  {
    forall c | c in Partition(sets)
      ensures c in Components(alias, entries.Keys)
    {
      var s :| 0 <= s < |sets| && sets[s].forward.None? && c == Elements(sets[s].ptrs);
      var p := sets[s].ptrs[0];
      assert p in sets[s].ptrs;
      Member(sets, entries, s, p);
      OneComponent(alias, sets, entries, p);
    }
    forall c | c in Components(alias, entries.Keys)
      ensures c in Partition(sets)
    {
      var p :| p in entries.Keys && c == Component(alias, entries.Keys, p);
      OneComponent(alias, sets, entries, p);
      var t := Target(sets, entries[p]);
      assert 0 <= t < |sets| && sets[t].forward.None? && c == Elements(sets[t].ptrs);
    }
  }

  /** The sets in use that are marked must-alias. */
  function MustSets(sets: seq<AliasSet>): set<set<Ptr>> {
    set s | 0 <= s < |sets| && sets[s].forward.None? && !sets[s].may :: Elements(sets[s].ptrs)
  }

  ghost predicate AllMust(alias: Oracle, c: set<Ptr>) {
    forall p, q :: p in c && q in c && p != q ==> alias(p, q) == MustAlias
  }

  lemma {:induction false} MustSetsExact(alias: Oracle, sets: seq<AliasSet>)
    requires FlagsOk(alias, sets)
    ensures forall c :: c in MustSets(sets) <==> c in Partition(sets) && AllMust(alias, c)
  {
    forall c | c in Partition(sets) && AllMust(alias, c)
      ensures c in MustSets(sets)
    {
      var s :| 0 <= s < |sets| && sets[s].forward.None? && c == Elements(sets[s].ptrs);
      assert FlagOk(alias, sets[s]);
    }
    forall c | c in MustSets(sets)
      ensures c in Partition(sets) && AllMust(alias, c)
    {
      var s :| 0 <= s < |sets| && sets[s].forward.None? && !sets[s].may && c == Elements(sets[s].ptrs);
      assert FlagOk(alias, sets[s]);
    }
  }

  lemma {:induction false} ElementsPrefix(ptrs: seq<Ptr>, i: nat)
    requires i < |ptrs|
    ensures Elements(ptrs[..i + 1]) == Elements(ptrs[..i]) + {ptrs[i]}
  {
    assert ptrs[..i + 1] == ptrs[..i] + [ptrs[i]];
  }

  /** Adding pointers one after the other, repetitions included, leaves the
      connected components, and those marked must-alias are the ones whose
      pointers all must alias. */
  method Track(alias: Oracle, pointers: seq<Ptr>) returns (partition: set<set<Ptr>>, musts: set<set<Ptr>>)
    requires Sane(alias)
    ensures partition == Components(alias, Elements(pointers))
    ensures forall c :: c in musts <==> c in partition && AllMust(alias, c)
  {
    var tracker := new AliasSetTracker(alias);
    for i := 0 to |pointers|
      invariant fresh(tracker) && tracker.alias == alias
      invariant tracker.entries.Keys == Elements(pointers[..i])
      invariant Valid(alias, tracker.entries.Keys, tracker.sets, tracker.entries)
    {
      ElementsPrefix(pointers, i);
      var _, _ := tracker.GetAliasSetForPointer(pointers[i]);
    }
    assert pointers[..|pointers|] == pointers;
    assert tracker.entries.Keys == Elements(pointers);
    PartitionIsComponents(alias, tracker.sets, tracker.entries);
    MustSetsExact(alias, tracker.sets);
    partition, musts := Partition(tracker.sets), MustSets(tracker.sets);
  }
}
