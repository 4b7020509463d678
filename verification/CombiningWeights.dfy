/** Weights on the edges out of a block: combining those to the same target, and
    scaling them down to 32 bits. */
module CombiningWeights {
  import opened Words

  const UINT64_MAX: nat := 0xFFFF_FFFF_FFFF_FFFF
  const UINT32_MAX: nat := 0xFFFF_FFFF

  datatype DistType = Local | Exit | Backedge

  datatype Weight = Weight(kind: DistType, target: nat, amount: nat)

  type Weights = seq<Weight>

  // ----- sums -----

  function Total(ws: Weights): nat {
    if ws == [] then 0 else Total(ws[..|ws| - 1]) + ws[|ws| - 1].amount
  }

  /** What all edges to `t` weigh. */
  function TotalTo(ws: Weights, t: nat): nat {
    if ws == [] then 0
    else TotalTo(ws[..|ws| - 1], t) + (if ws[|ws| - 1].target == t then ws[|ws| - 1].amount else 0)
  }

  function Saturated(x: nat): nat {
    if x > UINT64_MAX then UINT64_MAX else x
  }

  ghost predicate Positive(ws: Weights) {
    forall i :: 0 <= i < |ws| ==> 0 < ws[i].amount <= UINT64_MAX
  }

  ghost predicate HasTarget(ws: Weights, t: nat) {
    exists i :: 0 <= i < |ws| && ws[i].target == t
  }

  /** Every edge to `t` is of this type. */
  ghost predicate KindRight(ws: Weights, t: nat, kind: DistType) {
    forall i :: 0 <= i < |ws| && ws[i].target == t ==> ws[i].kind == kind
  }

  ghost predicate OneType(ws: Weights) {
    forall i :: 0 <= i < |ws| ==> KindRight(ws, ws[i].target, ws[i].kind)
  }

  ghost predicate Distinct(ws: Weights) {
    forall i, j :: 0 <= i < j < |ws| ==> ws[i].target != ws[j].target
  }

  lemma {:induction false} TotalToAppend(ws: Weights, w: Weight, t: nat)
    ensures TotalTo(ws + [w], t) == TotalTo(ws, t) + (if w.target == t then w.amount else 0)
  {
    assert (ws + [w])[..|ws|] == ws;
  }

  lemma {:induction false} TotalAppend(ws: Weights, w: Weight)
    ensures Total(ws + [w]) == Total(ws) + w.amount
  {
    assert (ws + [w])[..|ws|] == ws;
  }

  lemma {:induction false} TotalToNone(ws: Weights, t: nat)
    requires !HasTarget(ws, t)
    ensures TotalTo(ws, t) == 0
    decreases |ws|
  {
    if ws != [] {
      var n := |ws| - 1;
      assert !HasTarget(ws[..n], t) by {
        assert forall i :: 0 <= i < n ==> ws[..n][i] == ws[i];
      }
      TotalToNone(ws[..n], t);
    }
  }

  lemma {:induction false} TotalToSome(ws: Weights, t: nat)
    requires Positive(ws) && HasTarget(ws, t)
    ensures TotalTo(ws, t) > 0
    decreases |ws|
  {
    var n := |ws| - 1;
    if ws[n].target != t {
      var i :| 0 <= i < |ws| && ws[i].target == t;
      assert ws[..n][i].target == t;
      TotalToSome(ws[..n], t);
    }
  }

  // ----- what combining means -----

  /** `w` is all that `ws` has for its target. */
  ghost predicate Merged(ws: Weights, w: Weight) {
    HasTarget(ws, w.target) && KindRight(ws, w.target, w.kind) && w.amount == Saturated(TotalTo(ws, w.target))
  }

  /** One weight for each target, the saturated sum of its weights. */
  ghost predicate Combines(ws: Weights, r: Weights) {
    && Distinct(r)
    && (forall i :: 0 <= i < |r| ==> Merged(ws, r[i]))
    && (forall i :: 0 <= i < |ws| ==> HasTarget(r, ws[i].target))
  }

  /** The amount for a target does not depend on how the weights were combined. */
  lemma {:induction false} CombinedAmount(ws: Weights, r: Weights, w: Weight)
    requires Combines(ws, r)
    ensures w in r <==> Merged(ws, w)
  {
    if w in r {
      var i :| 0 <= i < |r| && r[i] == w;
    }
    if Merged(ws, w) {
      var i :| 0 <= i < |ws| && ws[i].target == w.target;
      var j :| 0 <= j < |r| && r[j].target == w.target;
      assert ws[i].kind == w.kind;
      assert Merged(ws, r[j]);
      assert r[j] == w;
    }
  }

  /** Any two ways of combining give the same weights, in some order. */
  lemma {:induction false} CombinedAlike(ws: Weights, r: Weights, s: Weights)
    requires Combines(ws, r) && Combines(ws, s)
    ensures forall w :: w in r <==> w in s
    ensures |r| == |s|
  {
    forall w
      ensures w in r <==> w in s
    {
      CombinedAmount(ws, r, w);
      CombinedAmount(ws, s, w);
    }
    DistinctSize(r);
    DistinctSize(s);
    assert Elements(r) == Elements(s);
  }

  function Elements(ws: Weights): set<Weight> {
    set w | w in ws
  }

  lemma {:induction false} DistinctSize(ws: Weights)
    requires Distinct(ws)
    ensures |Elements(ws)| == |ws|
    decreases |ws|
  {
    if ws != [] {
      var n := |ws| - 1;
      DistinctSize(ws[..n]);
      assert Elements(ws) == Elements(ws[..n]) + {ws[n]};
      assert ws[n] !in ws[..n];
    }
  }

  // ----- combining two weights -----

  /** W, in place of which the result is put, and another weight for its target. */
  function CombineWeight(w: Weight, other: Weight): Weight {
    if w.amount == 0 then other
    else if w.amount > (w.amount + other.amount) % (UINT64_MAX + 1)
    then w.(amount := UINT64_MAX)
    else w.(amount := (w.amount + other.amount) % (UINT64_MAX + 1))
  }

  lemma {:induction false} CombinedSaturates(w: Weight, other: Weight, sum: nat)
    requires w.amount == Saturated(sum) && w.amount > 0 && 0 < other.amount <= UINT64_MAX
    ensures CombineWeight(w, other) == w.(amount := Saturated(sum + other.amount))
  {
  }

  // ----- by sorting -----

  ghost predicate Sorted(ws: Weights) {
    forall i, j :: 0 <= i < j < |ws| ==> ws[i].target <= ws[j].target
  }

  function Insert(w: Weight, ws: Weights): Weights {
    if ws == [] || ws[|ws| - 1].target <= w.target then ws + [w]
    else Insert(w, ws[..|ws| - 1]) + [ws[|ws| - 1]]
  }

  /** std::sort; the order among equals is not specified, and not relied on. */
  function Sort(ws: Weights): Weights {
    if ws == [] then [] else Insert(ws[|ws| - 1], Sort(ws[..|ws| - 1]))
  }

  lemma {:induction false} InsertElements(w: Weight, ws: Weights)
    ensures multiset(Insert(w, ws)) == multiset(ws) + multiset{w}
    decreases |ws|
  {
    if !(ws == [] || ws[|ws| - 1].target <= w.target) {
      var n := |ws| - 1;
      InsertElements(w, ws[..n]);
      assert ws == ws[..n] + [ws[n]];
    }
  }

  /** No target is above this one. */
  ghost predicate UpTo(ws: Weights, t: nat) {
    forall i :: 0 <= i < |ws| ==> ws[i].target <= t
  }

  lemma {:induction false} InsertUpTo(w: Weight, ws: Weights, t: nat)
    requires UpTo(ws, t) && w.target <= t
    ensures UpTo(Insert(w, ws), t)
    decreases |ws|
  {
    if !(ws == [] || ws[|ws| - 1].target <= w.target) {
      InsertUpTo(w, ws[..|ws| - 1], t);
    }
  }

  lemma {:induction false} SortedAppend(ws: Weights, w: Weight)
    requires Sorted(ws) && UpTo(ws, w.target)
    ensures Sorted(ws + [w])
  {
  }

  lemma {:induction false} SortedUpTo(ws: Weights, t: nat)
    requires ws != [] && Sorted(ws) && ws[|ws| - 1].target <= t
    ensures UpTo(ws, t)
  {
  }

  lemma {:induction false} InsertSorts(w: Weight, ws: Weights)
    requires Sorted(ws)
    ensures Sorted(Insert(w, ws))
    decreases |ws|
  {
    if ws == [] {
    } else if ws[|ws| - 1].target <= w.target {
      SortedUpTo(ws, w.target);
      SortedAppend(ws, w);
    } else {
      var init, last := ws[..|ws| - 1], ws[|ws| - 1];
      InsertSorts(w, init);
      SortedUpTo(ws, last.target);
      InsertUpTo(w, init, last.target);
      SortedAppend(Insert(w, init), last);
    }
  }

  lemma {:induction false} SortSorts(ws: Weights)
    ensures Sorted(Sort(ws)) && multiset(Sort(ws)) == multiset(ws)
    decreases |ws|
  {
    if ws != [] {
      var n := |ws| - 1;
      SortSorts(ws[..n]);
      InsertSorts(ws[n], Sort(ws[..n]));
      InsertElements(ws[n], Sort(ws[..n]));
      assert ws == ws[..n] + [ws[n]];
    }
  }

  /** The weights met so far, all targets below the next. */
  ghost predicate Below(ws: Weights, t: nat) {
    forall i :: 0 <= i < |ws| ==> ws[i].target < t
  }

  ghost predicate AllTo(ws: Weights, t: nat) {
    forall i :: 0 <= i < |ws| ==> ws[i].target == t
  }

  /** A finished group adds one weight. */
  lemma {:induction false} GroupCombines(init: Weights, group: Weights, r: Weights, w: Weight)
    requires Combines(init, r) && Below(init, w.target) && AllTo(group, w.target) && group != []
    requires w.amount == Saturated(TotalTo(init + group, w.target)) && KindRight(group, w.target, w.kind)
    ensures Combines(init + group, r + [w])
  {
    var ws := init + group;
    forall i | 0 <= i < |r|
      ensures Merged(ws, r[i]) && r[i].target < w.target
    {
      assert Merged(init, r[i]);
      var j :| 0 <= j < |init| && init[j].target == r[i].target;
      assert ws[j].target == r[i].target;
      GroupElsewhere(init, group, w.target, r[i].target);
    }
    assert ws[|init|] == group[0];
    assert Merged(ws, w);
    forall i | 0 <= i < |ws|
      ensures HasTarget(r + [w], ws[i].target)
    {
      if i < |init| {
        var j :| 0 <= j < |r| && r[j].target == init[i].target;
        assert (r + [w])[j].target == ws[i].target;
      } else {
        assert ws[i] == group[i - |init|];
        assert (r + [w])[|r|].target == ws[i].target;
      }
    }
  }

  lemma {:induction false} GroupElsewhere(init: Weights, group: Weights, t: nat, u: nat)
    requires AllTo(group, t) && u != t
    ensures TotalTo(init + group, u) == TotalTo(init, u)
    decreases |group|
  {
    if group == [] {
      assert init + group == init;
    } else {
      var n := |group| - 1;
      GroupElsewhere(init, group[..n], t, u);
      TotalToAppend(init + group[..n], group[n], u);
      assert init + group == (init + group[..n]) + [group[n]];
    }
  }

  /** What the first weights of a group come to. */
  ghost predicate GroupSum(init: Weights, group: Weights, w: Weight) {
    && AllTo(group, w.target) && KindRight(group, w.target, w.kind) && group != []
    && w.amount == Saturated(TotalTo(init + group, w.target)) && w.amount > 0
  }

  lemma {:induction false} GroupStarts(init: Weights, w: Weight)
    requires Below(init, w.target) && 0 < w.amount <= UINT64_MAX
    ensures GroupSum(init, [w], w)
  {
    TotalToNone(init, w.target);
    TotalToAppend(init, w, w.target);
  }

  lemma {:induction false} GroupGrows(init: Weights, group: Weights, w: Weight, x: Weight)
    requires GroupSum(init, group, w) && x.target == w.target && x.kind == w.kind && 0 < x.amount <= UINT64_MAX
    ensures GroupSum(init, group + [x], CombineWeight(w, x)) && CombineWeight(w, x).target == w.target
  {
    assert init + (group + [x]) == (init + group) + [x];
    TotalToAppend(init + group, x, w.target);
    CombinedSaturates(w, x, TotalTo(init + group, w.target));
  }

  /** Starting at `i`, adds up one group of equal targets, in the place at `o`. */
  method CombineGroup(a: array<Weight>, o: nat, i: nat, ghost ws: Weights) returns (l: nat)
    requires |ws| == a.Length && o <= i < a.Length && a[i..] == ws[i..]
    requires Positive(ws) && OneType(ws) && Below(ws[..i], ws[i].target)
    modifies a
    ensures i < l <= a.Length && a[..o] == old(a[..o]) && a[l..] == ws[l..]
    ensures GroupSum(ws[..i], ws[i..l], a[o]) && a[o].target == ws[i].target
    ensures l < a.Length ==> ws[l].target != ws[i].target
  {
    SuffixAt(a[..], ws, i);
    ghost var r := a[..o];
    a[o] := a[i];
    l := i + 1;
    GroupStarts(ws[..i], ws[i]);
    assert ws[i..l] == [ws[i]];
    while l != a.Length && a[i].target == a[l].target
      invariant i < l <= a.Length
      invariant forall k :: l <= k < a.Length ==> a[k] == ws[k]
      invariant a[..o] == r
      invariant a[i].target == ws[i].target == a[o].target && a[o].kind == ws[i].kind
      invariant GroupSum(ws[..i], ws[i..l], a[o])
    {
      GroupGrows(ws[..i], ws[i..l], a[o], ws[l]) by {
        assert KindRight(ws, ws[i].target, ws[i].kind);
      }
      assert ws[i..l] + [ws[l]] == ws[i..l + 1];
      a[o] := CombineWeight(a[o], a[l]);
      l := l + 1;
    }
  }

  lemma {:induction false} SuffixAt(a: Weights, ws: Weights, i: nat)
    requires |a| == |ws| && i <= |a| && a[i..] == ws[i..]
    ensures forall k :: i <= k < |a| ==> a[k] == ws[k]
  {
    forall k | i <= k < |a|
      ensures a[k] == ws[k]
    {
      assert a[k] == a[i..][k - i] && ws[k] == ws[i..][k - i];
    }
  }

  /** One group after the other, each result behind where the next is read. */
  method CombineAdjacent(a: array<Weight>) returns (o: nat)
    requires Sorted(a[..]) && Positive(a[..]) && OneType(a[..])
    modifies a
    ensures o <= a.Length && Combines(old(a[..]), a[..o])
  {
    ghost var ws := a[..];
    o := 0;
    var i := 0;
    while i != a.Length
      invariant o <= i <= a.Length
      invariant a[i..] == ws[i..]
      invariant Combines(ws[..i], a[..o])
      invariant i < a.Length ==> Below(ws[..i], ws[i].target)
    {
      ghost var r := a[..o];
      var l := CombineGroup(a, o, i, ws);
      GroupDone(ws, i, l, r, a[o]);
      assert a[..o + 1] == r + [a[o]];
      o, i := o + 1, l;
    }
    assert ws[..i] == ws;
  }

  lemma {:induction false} GroupDone(ws: Weights, i: nat, l: nat, r: Weights, w: Weight)
    requires Sorted(ws) && i < l <= |ws| && Combines(ws[..i], r) && Below(ws[..i], ws[i].target)
    requires GroupSum(ws[..i], ws[i..l], w) && w.target == ws[i].target
    requires l < |ws| ==> ws[l].target != ws[i].target
    ensures Combines(ws[..l], r + [w]) && (l < |ws| ==> Below(ws[..l], ws[l].target))
  {
    GroupCombines(ws[..i], ws[i..l], r, w);
    assert ws[..i] + ws[i..l] == ws[..l];
    NextGroup(ws, i, l);
  }

  lemma {:induction false} NextGroup(ws: Weights, i: nat, l: nat)
    requires Sorted(ws) && i < l <= |ws| && Below(ws[..i], ws[i].target) && AllTo(ws[i..l], ws[i].target)
    requires l < |ws| ==> ws[l].target != ws[i].target
    ensures l < |ws| ==> Below(ws[..l], ws[l].target)
  {
    if l < |ws| {
      forall k | 0 <= k < l
        ensures ws[..l][k].target < ws[l].target
      {
        assert k < i ==> ws[..i][k] == ws[k];
        assert k >= i ==> ws[i..l][k - i] == ws[k];
      }
    }
  }

  // ----- sorting, then combining -----

  lemma {:induction false} TotalToRemove(ws: Weights, i: nat, t: nat)
    requires i < |ws|
    ensures TotalTo(ws, t) == TotalTo(ws[..i] + ws[i + 1..], t) + (if ws[i].target == t then ws[i].amount else 0)
    decreases |ws|
  {
    var n := |ws| - 1;
    if i == n {
      assert ws[..i] + ws[i + 1..] == ws[..n];
    } else {
      TotalToRemove(ws[..n], i, t);
      TotalToAppend(ws[..n][..i] + ws[..n][i + 1..], ws[n], t);
      assert ws[..i] + ws[i + 1..] == (ws[..n][..i] + ws[..n][i + 1..]) + [ws[n]];
    }
  }

  lemma {:induction false} WithoutOne(ws: Weights, i: nat)
    requires i < |ws|
    ensures multiset(ws[..i] + ws[i + 1..]) == multiset(ws) - multiset{ws[i]}
  {
    assert ws == ws[..i] + [ws[i]] + ws[i + 1..];
  }

  /** Totals do not depend on the order. */
  lemma {:induction false} TotalToPermuted(ws: Weights, r: Weights, t: nat)
    requires multiset(ws) == multiset(r)
    ensures TotalTo(ws, t) == TotalTo(r, t)
    decreases |ws|
  {
    if ws == [] {
      assert |multiset(r)| == 0;
      assert r == [];
    } else {
      var n := |ws| - 1;
      assert ws[n] in multiset(ws);
      var i :| 0 <= i < |r| && r[i] == ws[n];
      WithoutOne(ws, n);
      WithoutOne(r, i);
      assert ws[..n] + ws[n + 1..] == ws[..n];
      TotalToPermuted(ws[..n], r[..i] + r[i + 1..], t);
      TotalToRemove(r, i, t);
    }
  }

  lemma {:induction false} PermutedElements(ws: Weights, r: Weights)
    requires multiset(ws) == multiset(r)
    ensures forall x :: x in ws <==> x in r
  {
    forall x
      ensures x in ws <==> x in r
    {
      assert x in ws <==> x in multiset(ws);
      assert x in r <==> x in multiset(r);
    }
  }

  lemma {:induction false} PermutedMerged(ws: Weights, r: Weights, w: Weight)
    requires multiset(ws) == multiset(r) && Merged(ws, w)
    ensures Merged(r, w)
  {
    TotalToPermuted(ws, r, w.target);
    PermutedElements(ws, r);
    var i :| 0 <= i < |ws| && ws[i].target == w.target;
    assert ws[i] in r;
    forall j | 0 <= j < |r| && r[j].target == w.target
      ensures r[j].kind == w.kind
    {
      assert r[j] in ws;
    }
  }

  lemma {:induction false} CombinesPermuted(ws: Weights, s: Weights, r: Weights)
    requires multiset(ws) == multiset(s) && Combines(s, r)
    ensures Combines(ws, r)
  {
    PermutedElements(ws, s);
    forall i | 0 <= i < |r|
      ensures Merged(ws, r[i])
    {
      PermutedMerged(s, ws, r[i]);
    }
    forall i | 0 <= i < |ws|
      ensures HasTarget(r, ws[i].target)
    {
      assert ws[i] in s;
      var j :| 0 <= j < |s| && s[j] == ws[i];
      assert HasTarget(r, s[j].target);
    }
  }

  lemma {:induction false} PermutedOk(ws: Weights, s: Weights)
    requires multiset(ws) == multiset(s) && Positive(ws) && OneType(ws)
    ensures Positive(s) && OneType(s)
  {
    PermutedElements(ws, s);
    forall i | 0 <= i < |s|
      ensures 0 < s[i].amount <= UINT64_MAX
    {
      assert s[i] in ws;
    }
    forall i, j | 0 <= i < |s| && 0 <= j < |s| && s[j].target == s[i].target
      ensures s[j].kind == s[i].kind
    {
      assert s[i] in ws && s[j] in ws;
      var k :| 0 <= k < |ws| && ws[k] == s[i];
      var l :| 0 <= l < |ws| && ws[l] == s[j];
      assert KindRight(ws, ws[k].target, ws[k].kind);
    }
  }

  method CombineWeightsBySorting(ws: Weights) returns (r: Weights)
    requires Positive(ws) && OneType(ws)
    ensures Combines(ws, r)
  {
    var s := Sort(ws);
    SortSorts(ws);
    PermutedOk(ws, s);
    var a := new Weight[|s|](i requires 0 <= i < |s| => s[i]);
    assert a[..] == s;
    var o := CombineAdjacent(a);
    r := a[..o];
    CombinesPermuted(ws, s, r);
  }

  // ----- by hashing -----

  type Table = map<nat, Weight>

  /** The table holds what the weights met so far come to. */
  ghost predicate Tabulates(ws: Weights, m: Table) {
    && (forall t: nat :: t in m ==> m[t].target == t && m[t].amount > 0 && Merged(ws, m[t]))
    && (forall i :: 0 <= i < |ws| ==> ws[i].target in m)
  }

  lemma {:induction false} TabulatesMore(ws: Weights, m: Table, w: Weight)
    requires Tabulates(ws, m) && 0 < w.amount <= UINT64_MAX && KindRight(ws, w.target, w.kind)
    ensures var found := if w.target in m then m[w.target] else Weight(Local, 0, 0);
      Tabulates(ws + [w], m[w.target := CombineWeight(found, w)])
  {
    var more := ws + [w];
    var found := if w.target in m then m[w.target] else Weight(Local, 0, 0);
    var c := CombineWeight(found, w);
    assert more[|ws|] == w;
    TotalToAppend(ws, w, w.target);
    if w.target in m {
      var i :| 0 <= i < |ws| && ws[i].target == w.target;
      CombinedSaturates(found, w, TotalTo(ws, w.target));
    } else {
      TotalToNone(ws, w.target);
    }
    assert Merged(more, c);
    forall t: nat | t in m && t != w.target
      ensures Merged(more, m[t])
    {
      assert Merged(ws, m[t]);
      TotalToAppend(ws, w, t);
      var i :| 0 <= i < |ws| && ws[i].target == t;
      assert more[i].target == t;
    }
  }

  lemma {:induction false} KindKnown(ws: Weights, i: nat)
    requires OneType(ws) && i < |ws|
    ensures KindRight(ws[..i], ws[i].target, ws[i].kind)
  {
    assert KindRight(ws, ws[i].target, ws[i].kind);
  }

  function Targets(ws: Weights): set<nat> {
    set w | w in ws :: w.target
  }

  lemma {:induction false} TargetsLast(ws: Weights)
    requires ws != []
    ensures Targets(ws) == Targets(ws[..|ws| - 1]) + {ws[|ws| - 1].target}
  {
    assert ws == ws[..|ws| - 1] + [ws[|ws| - 1]];
  }

  lemma {:induction false} TargetsDistinct(ws: Weights)
    ensures |Targets(ws)| <= |ws|
    ensures |Targets(ws)| == |ws| ==> Distinct(ws)
    decreases |ws|
  {
    if ws != [] {
      var n := |ws| - 1;
      var init, t := ws[..n], ws[n].target;
      TargetsDistinct(init);
      TargetsLast(ws);
      if t in Targets(init) {
        assert Targets(init) + {t} == Targets(init);
      } else {
        forall i | 0 <= i < n
          ensures ws[i].target != t
        {
          assert init[i] in init;
        }
      }
    }
  }

  lemma {:induction false} TotalToOnly(ws: Weights, i: nat)
    requires Distinct(ws) && i < |ws|
    ensures TotalTo(ws, ws[i].target) == ws[i].amount
    decreases |ws|
  {
    var n := |ws| - 1;
    if i == n {
      assert !HasTarget(ws[..n], ws[n].target);
      TotalToNone(ws[..n], ws[n].target);
    } else {
      TotalToOnly(ws[..n], i);
    }
  }

  /** With one edge for each target there is nothing to combine. */
  lemma {:induction false} DistinctCombines(ws: Weights)
    requires Distinct(ws) && Positive(ws) && OneType(ws)
    ensures Combines(ws, ws)
  {
    forall i | 0 <= i < |ws|
      ensures Merged(ws, ws[i])
    {
      TotalToOnly(ws, i);
      assert KindRight(ws, ws[i].target, ws[i].kind);
    }
  }

  /** The weights taken out of the table so far, and the targets still in it. */
  ghost predicate Drains(m: Table, rest: set<nat>, r: Weights) {
    && rest <= m.Keys && Distinct(r)
    && (forall i :: 0 <= i < |r| ==> r[i].target in m && r[i].target !in rest && m[r[i].target] == r[i])
    && (forall t: nat :: t in m && t !in rest ==> HasTarget(r, t))
  }

  lemma {:induction false} DrainsMore(m: Table, rest: set<nat>, r: Weights, t: nat)
    requires Drains(m, rest, r) && t in rest && m[t].target == t
    ensures Drains(m, rest - {t}, r + [m[t]])
  {
    var more := r + [m[t]];
    forall u: nat | u in m && u !in rest - {t}
      ensures HasTarget(more, u)
    {
      if u == t {
        assert more[|r|].target == t;
      } else {
        var i :| 0 <= i < |r| && r[i].target == u;
        assert more[i].target == u;
      }
    }
  }

  lemma {:induction false} DrainedCombines(ws: Weights, m: Table, r: Weights)
    requires Tabulates(ws, m) && Drains(m, {}, r)
    ensures Combines(ws, r)
  {
    forall i | 0 <= i < |r|
      ensures Merged(ws, r[i])
    {
      assert r[i].target in m;
    }
  }

  method CombineWeightsByHashing(ws: Weights) returns (r: Weights)
    requires Positive(ws) && OneType(ws)
    ensures Combines(ws, r)
  {
    var combined: Table := map[];
    for i := 0 to |ws|
      invariant Tabulates(ws[..i], combined)
    {
      KindKnown(ws, i);
      TabulatesMore(ws[..i], combined, ws[i]);
      assert ws[..i] + [ws[i]] == ws[..i + 1];
      var w := if ws[i].target in combined then combined[ws[i].target] else Weight(Local, 0, 0);
      combined := combined[ws[i].target := CombineWeight(w, ws[i])];
    }
    assert ws[..|ws|] == ws;
    if |ws| == |combined| {
      TableKeys(ws, combined);
      TargetsDistinct(ws);
      DistinctCombines(ws);
      return ws;
    }
    r := [];
    var rest := combined.Keys;
    while rest != {}
      invariant Drains(combined, rest, r)
      decreases |rest|
    {
      var t :| t in rest;
      DrainsMore(combined, rest, r, t);
      r := r + [combined[t]];
      rest := rest - {t};
    }
    DrainedCombines(ws, combined, r);
  }

  lemma {:induction false} TableKeys(ws: Weights, m: Table)
    requires Tabulates(ws, m)
    ensures m.Keys == Targets(ws) && |m| == |Targets(ws)|
  {
    forall t: nat
      ensures t in m.Keys <==> t in Targets(ws)
    {
      if t in m {
        assert Merged(ws, m[t]);
        var i :| 0 <= i < |ws| && ws[i].target == t;
        assert ws[i] in ws;
      }
    }
    assert |m| == |m.Keys|;
  }

  const SORT_LIMIT := 128

  /** One weight for each target, by whichever way the number of weights asks for. */
  method CombineWeights(ws: Weights) returns (r: Weights)
    requires Positive(ws) && OneType(ws)
    ensures Combines(ws, r)
  {
    if |ws| > SORT_LIMIT {
      r := CombineWeightsByHashing(ws);
    } else {
      r := CombineWeightsBySorting(ws);
    }
  }
}
