/** Choosing the headers of an irreducible strongly connected component. */
module IrreducibleHeaders {
  import Sets

  type Node = nat

  /** The predecessors of each node of an irreducible graph. */
  type Preds = Node -> seq<Node>

  ghost predicate NoRepeat(scc: seq<Node>) {
    forall i, j :: 0 <= i < j < |scc| ==> scc[i] != scc[j]
  }

  /** A node of the component with a predecessor outside it. */
  ghost predicate IsEntry(preds: Preds, scc: seq<Node>, v: Node) {
    exists p :: p in preds(v) && p !in scc
  }

  /** An edge that is not forward, and not from an entry. */
  ghost predicate IsBack(preds: Preds, scc: seq<Node>, v: Node, p: Node) {
    p in preds(v) && v <= p && !IsEntry(preds, scc, p)
  }

  ghost predicate IsHeader(preds: Preds, scc: seq<Node>, v: Node) {
    IsEntry(preds, scc, v) || exists p :: IsBack(preds, scc, v, p)
  }

  // ----- sorting -----

  ghost predicate Increasing(s: seq<Node>) {
    forall i, j :: 0 <= i < j < |s| ==> s[i] < s[j]
  }

  function Insert(x: Node, s: seq<Node>): seq<Node> {
    if s == [] || s[|s| - 1] <= x then s + [x] else Insert(x, s[..|s| - 1]) + [s[|s| - 1]]
  }

  /** std::sort. */
  function Sort(s: seq<Node>): seq<Node> {
    if s == [] then [] else Insert(s[|s| - 1], Sort(s[..|s| - 1]))
  }

  lemma {:induction false} InsertSorts(x: Node, s: seq<Node>)
    requires Increasing(s) && x !in s
    ensures Increasing(Insert(x, s)) && forall y :: y in Insert(x, s) <==> y in s || y == x
    decreases |s|
  {
    if s != [] && s[|s| - 1] > x {
      var n := |s| - 1;
      InsertSorts(x, s[..n]);
      assert s == s[..n] + [s[n]];
      var r := Insert(x, s[..n]);
      forall i | 0 <= i < |r|
        ensures r[i] < s[n]
      {
        assert r[i] in r;
      }
    }
  }

  lemma {:induction false} SortSorts(s: seq<Node>)
    requires NoRepeat(s)
    ensures Increasing(Sort(s)) && forall y :: y in Sort(s) <==> y in s
    decreases |s|
  {
    if s != [] {
      var n := |s| - 1;
      SortSorts(s[..n]);
      assert s == s[..n] + [s[n]];
      InsertSorts(s[n], Sort(s[..n]));
    }
  }

  // ----- the two passes -----

  /** The nodes of the component, with whether they are known to be entries. */
  type Component = map<Node, bool>

  ghost predicate Seeded(preds: Preds, scc: seq<Node>, inScc: Component, done: nat)
    requires done <= |scc|
  {
    && (forall v: Node :: v in inScc <==> v in scc)
    && (forall i :: 0 <= i < done ==> inScc[scc[i]] == IsEntry(preds, scc, scc[i]))
    && (forall i :: done <= i < |scc| ==> !inScc[scc[i]])
  }

  /** Whether some predecessor is outside the component. */
  method FindEntry(preds: Preds, ghost scc: seq<Node>, inScc: Component, v: Node) returns (r: bool)
    requires forall u: Node :: u in inScc <==> u in scc
    ensures r == IsEntry(preds, scc, v)
  {
    var ps: seq<Node> := preds(v);
    for i := 0 to |ps|
      invariant forall j :: 0 <= j < i ==> ps[j] in scc
    {
      if ps[i] !in inScc {
        return true;
      }
    }
    r := false;
  }

  /** Whether some predecessor other than an entry comes no earlier. */
  method FindBack(preds: Preds, ghost scc: seq<Node>, inScc: Component, v: Node) returns (r: bool)
    requires NoRepeat(scc) && Seeded(preds, scc, inScc, |scc|) && v in scc && !IsEntry(preds, scc, v)
    ensures r <==> exists p :: IsBack(preds, scc, v, p)
  {
    var ps: seq<Node> := preds(v);
    for i := 0 to |ps|
      invariant forall j :: 0 <= j < i ==> !IsBack(preds, scc, v, ps[j])
    {
      if ps[i] < v {
        continue;
      }
      assert ps[i] in scc;
      EntryKnown(preds, scc, inScc, ps[i]);
      if ps[i] in inScc && inScc[ps[i]] {
        continue;
      }
      assert IsBack(preds, scc, v, ps[i]);
      return true;
    }
    r := false;
  }

  lemma {:induction false} EntryKnown(preds: Preds, scc: seq<Node>, inScc: Component, v: Node)
    requires Seeded(preds, scc, inScc, |scc|) && v in scc
    ensures v in inScc && inScc[v] == IsEntry(preds, scc, v)
  {
    var i :| 0 <= i < |scc| && scc[i] == v;
  }

  /** `headers` are the entries among the first `done` nodes. */
  ghost predicate Entries(preds: Preds, scc: seq<Node>, headers: seq<Node>, done: nat)
    requires done <= |scc|
  {
    && NoRepeat(headers)
    && forall v: Node :: v in headers <==> v in scc[..done] && IsEntry(preds, scc, v)
  }

  lemma {:induction false} OneOfPrefix(scc: seq<Node>, i: nat)
    requires NoRepeat(scc) && i < |scc|
    ensures scc[i] !in scc[..i] && forall v: Node :: v in scc[..i + 1] <==> v in scc[..i] || v == scc[i]
  {
    assert scc[..i + 1] == scc[..i] + [scc[i]];
  }

  method FindEntries(preds: Preds, scc: seq<Node>) returns (inScc: Component, headers: seq<Node>)
    requires NoRepeat(scc)
    ensures Seeded(preds, scc, inScc, |scc|) && Entries(preds, scc, headers, |scc|)
  {
    inScc := map v | v in scc :: false;
    headers := [];
    for i := 0 to |scc|
      invariant Seeded(preds, scc, inScc, i) && Entries(preds, scc, headers, i)
    {
      OneOfPrefix(scc, i);
      var entry := FindEntry(preds, scc, inScc, scc[i]);
      if entry {
        inScc := inScc[scc[i] := true];
        headers := headers + [scc[i]];
      }
    }
    assert scc[..|scc|] == scc;
  }

  /** The first `done` nodes are split; entries still to come are headers already. */
  ghost predicate Split(preds: Preds, scc: seq<Node>, headers: seq<Node>, others: seq<Node>, done: nat)
    requires done <= |scc|
  {
    && NoRepeat(headers) && NoRepeat(others)
    && (forall v: Node :: v in headers <==>
        v in scc && (IsEntry(preds, scc, v) || (v in scc[..done] && IsHeader(preds, scc, v))))
    && (forall v: Node :: v in others <==> v in scc[..done] && !IsHeader(preds, scc, v))
  }

  lemma {:induction false} SplitHeader(preds: Preds, scc: seq<Node>, headers: seq<Node>, others: seq<Node>, i: nat)
    requires NoRepeat(scc) && i < |scc| && Split(preds, scc, headers, others, i)
    requires !IsEntry(preds, scc, scc[i]) && IsHeader(preds, scc, scc[i])
    ensures Split(preds, scc, headers + [scc[i]], others, i + 1)
  {
    OneOfPrefix(scc, i);
  }

  lemma {:induction false} SplitOther(preds: Preds, scc: seq<Node>, headers: seq<Node>, others: seq<Node>, i: nat)
    requires NoRepeat(scc) && i < |scc| && Split(preds, scc, headers, others, i) && !IsHeader(preds, scc, scc[i])
    ensures Split(preds, scc, headers, others + [scc[i]], i + 1)
  {
    OneOfPrefix(scc, i);
  }

  lemma {:induction false} SplitEntry(preds: Preds, scc: seq<Node>, headers: seq<Node>, others: seq<Node>, i: nat)
    requires NoRepeat(scc) && i < |scc| && Split(preds, scc, headers, others, i) && IsEntry(preds, scc, scc[i])
    ensures Split(preds, scc, headers, others, i + 1)
  {
    OneOfPrefix(scc, i);
  }

  /** What is promised of the two lists. */
  ghost predicate HeadersAndOthers(preds: Preds, scc: seq<Node>, headers: seq<Node>, others: seq<Node>) {
    && Increasing(headers) && Increasing(others)
    && (forall v: Node :: v in headers <==> v in scc && IsHeader(preds, scc, v))
    && (forall v: Node :: v in others <==> v in scc && !IsHeader(preds, scc, v))
  }

  /** Splits an irreducible component, given in any order, into headers and others. */
  method FindIrreducibleHeaders(preds: Preds, scc: seq<Node>) returns (headers: seq<Node>, others: seq<Node>)
    requires NoRepeat(scc)
    requires exists a, b :: a in scc && b in scc && a != b && IsEntry(preds, scc, a) && IsEntry(preds, scc, b)
    ensures HeadersAndOthers(preds, scc, headers, others)
  {
    var inScc;
    inScc, headers := FindEntries(preds, scc);
    others := [];
    assert scc[..|scc|] == scc;
    if |headers| == |inScc| {
      AllEntries(preds, scc, headers, inScc);
      SortSorts(headers);
      headers := Sort(headers);
      return;
    }
    for i := 0 to |scc|
      invariant Split(preds, scc, headers, others, i) && headers != []
    {
      EntryKnown(preds, scc, inScc, scc[i]);
      if inScc[scc[i]] {
        SplitEntry(preds, scc, headers, others, i);
        continue;
      }
      OneOfPrefix(scc, i);
      var back := FindBack(preds, scc, inScc, scc[i]);
      if back {
        SplitHeader(preds, scc, headers, others, i);
        headers := headers + [scc[i]];
      } else {
        SplitOther(preds, scc, headers, others, i);
      }
      if headers[|headers| - 1] == scc[i] {
        continue;
      }
      others := others + [scc[i]];
    }
    SortSorts(headers);
    SortSorts(others);
    headers, others := Sort(headers), Sort(others);
  }

  lemma {:induction false} AllEntries(preds: Preds, scc: seq<Node>, headers: seq<Node>, inScc: Component)
    requires NoRepeat(scc) && Seeded(preds, scc, inScc, |scc|) && Entries(preds, scc, headers, |scc|) &&
             |headers| == |inScc|
    ensures forall v: Node :: v in scc <==> v in headers
  {
    assert scc[..|scc|] == scc;
    var hs := Members(headers);
    MembersSize(headers);
    assert hs <= inScc.Keys;
    assert |inScc| == |inScc.Keys|;
    Sets.SubsetEqual(hs, inScc.Keys);
    forall v: Node
      ensures v in scc <==> v in headers
    {
      assert v in scc <==> v in inScc.Keys;
      assert v in headers <==> v in hs;
    }
  }

  function Members(s: seq<Node>): set<Node> {
    set v | v in s
  }

  lemma {:induction false} MembersSize(s: seq<Node>)
    requires NoRepeat(s)
    ensures |Members(s)| == |s|
    decreases |s|
  {
    if s != [] {
      var n := |s| - 1;
      MembersSize(s[..n]);
      assert s[n] !in s[..n];
      assert Members(s) == Members(s[..n]) + {s[n]};
    }
  }

  // ----- every cycle has a header -----

  /** The step from `c[i]` to `c[i + 1]` is along an edge. */
  predicate Hop(preds: Preds, c: seq<Node>, i: int) {
    0 <= i < |c| - 1 && c[i] in preds(c[i + 1])
  }

  /** A walk inside the component that comes back to where it started. */
  ghost predicate IsCycle(preds: Preds, scc: seq<Node>, c: seq<Node>) {
    && |c| > 1 && c[0] == c[|c| - 1]
    && (forall i :: 0 <= i < |c| ==> c[i] in scc)
    && (forall i :: 0 <= i < |c| - 1 ==> Hop(preds, c, i))
  }

  /** Edges between others strictly increase. */
  lemma {:induction false} OthersIncrease(preds: Preds, scc: seq<Node>, headers: seq<Node>, others: seq<Node>, u: Node,
                                          v: Node)
    requires HeadersAndOthers(preds, scc, headers, others) && u in others && v in others && u in preds(v)
    ensures u < v
  {
    assert !IsBack(preds, scc, v, u);
    assert !IsHeader(preds, scc, u);
  }

  lemma {:induction false} Climbs(preds: Preds, scc: seq<Node>, headers: seq<Node>, others: seq<Node>, c: seq<Node>,
                                  i: nat)
    requires HeadersAndOthers(preds, scc, headers, others) && 0 < i < |c|
    requires forall j :: 0 <= j < |c| ==> c[j] in others
    requires forall j :: 0 <= j < |c| - 1 ==> Hop(preds, c, j)
    ensures c[0] < c[i]
    decreases i
  {
    assert Hop(preds, c, i - 1);
    OthersIncrease(preds, scc, headers, others, c[i - 1], c[i]);
    if i > 1 {
      Climbs(preds, scc, headers, others, c, i - 1);
    }
  }

  /** Headers and others are all of the component and share no node, and every cycle
      in it passes through a header. */
  lemma {:induction false} EveryCycleHasHeader(preds: Preds, scc: seq<Node>, headers: seq<Node>, others: seq<Node>,
                                               c: seq<Node>)
    requires HeadersAndOthers(preds, scc, headers, others) && IsCycle(preds, scc, c)
    ensures forall v: Node :: v in scc <==> v in headers || v in others
    ensures !exists v :: v in headers && v in others
    ensures exists i :: 0 <= i < |c| && c[i] in headers
  {
    if forall i :: 0 <= i < |c| ==> c[i] !in headers {
      forall i | 0 <= i < |c|
        ensures c[i] in others
      {
        assert c[i] in scc;
      }
      Climbs(preds, scc, headers, others, c, |c| - 1);
    }
  }
}
