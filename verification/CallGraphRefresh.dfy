/** Bringing the call graph's edges back in line with the call sites that are in the
    functions. */
module CallGraphRefresh {
  import opened Wrappers
  import opened CallGraphs

  type Sites = map<Value, nat>

  /** The functions as they now are: the instructions of those that are defined,
      which values are calls, and of what. */
  datatype Module = Module(body: Func -> Option<seq<Value>>, isCall: Value -> bool, callee: Value -> Option<Func>,
                           intrinsic: Func -> bool, leaf: Func -> bool)
  {
    predicate IsIntrinsic(v: Value) {
      callee(v).Some? && intrinsic(callee(v).value)
    }

    /** A call that is to have an edge. */
    predicate Tracked(v: Value) {
      isCall(v) && !IsIntrinsic(v)
    }

    /** The call is gone, or is one that never has an edge. */
    predicate Gone(r: CallRecord) {
      r.site.None? || !isCall(r.site.value) || (IsIntrinsic(r.site.value) && leaf(callee(r.site.value).value))
    }

    predicate Tracks(r: CallRecord) {
      r.site.Some? && Tracked(r.site.value)
    }
  }

  ghost predicate NoRepeat(s: seq<nat>) {
    forall i, j :: 0 <= i < j < |s| ==> s[i] != s[j]
  }

  // ----- the records of a node -----

  ghost predicate NoneGone(mod: Module, l: Records, n: nat)
    requires n <= |l|
  {
    forall k :: 0 <= k < n ==> !mod.Gone(l[k])
  }

  /** A tracked call has but one record. */
  ghost predicate Unique(mod: Module, l: Records, n: nat)
    requires n <= |l|
  {
    forall j, k :: 0 <= j < k < n && mod.Tracks(l[k]) ==> l[j].site != l[k].site
  }

  ghost predicate Clean(mod: Module, l: Records) {
    NoneGone(mod, l, |l|) && Unique(mod, l, |l|)
  }

  /** `sites` is what the first `n` records say of tracked calls. */
  ghost predicate Collected(mod: Module, l: Records, n: nat, sites: Sites)
    requires n <= |l|
  {
    && (forall k :: 0 <= k < n && mod.Tracks(l[k]) ==>
        l[k].site.value in sites && sites[l[k].site.value] == l[k].target)
    && (forall v: Value :: v in sites ==> Recorded(mod, l[..n], v, sites[v]))
  }

  /** Some record has the tracked call go to `t`. */
  ghost predicate Recorded(mod: Module, l: Records, v: Value, t: nat) {
    mod.Tracked(v) && CallRecord(Some(v), t) in l
  }

  lemma {:induction false} CollectedTracked(mod: Module, l: Records, n: nat, sites: Sites)
    requires n < |l| && Collected(mod, l, n, sites) && mod.Tracks(l[n]) && l[n].site.value !in sites
    requires NoneGone(mod, l, n) && Unique(mod, l, n) && !mod.Gone(l[n])
    ensures Collected(mod, l, n + 1, sites[l[n].site.value := l[n].target]) && NoneGone(mod, l, n + 1) &&
            Unique(mod, l, n + 1)
  {
    var w, more := l[n].site.value, sites[l[n].site.value := l[n].target];
    forall v: Value | v in more
      ensures Recorded(mod, l[..n + 1], v, more[v])
    {
      if v != w {
        RecordedLonger(mod, l, n, v, sites[v]);
      } else {
        assert l[..n + 1][n] == CallRecord(Some(w), l[n].target);
      }
    }
    forall j | 0 <= j < n
      ensures l[j].site != l[n].site
    {
      assert mod.Tracks(l[j]) ==> l[j].site.value in sites;
    }
  }

  lemma {:induction false} CollectedOther(mod: Module, l: Records, n: nat, sites: Sites)
    requires n < |l| && Collected(mod, l, n, sites) && !mod.Tracks(l[n])
    requires NoneGone(mod, l, n) && Unique(mod, l, n) && !mod.Gone(l[n])
    ensures Collected(mod, l, n + 1, sites) && NoneGone(mod, l, n + 1) && Unique(mod, l, n + 1)
  {
    forall v: Value | v in sites
      ensures Recorded(mod, l[..n + 1], v, sites[v])
    {
      RecordedLonger(mod, l, n, v, sites[v]);
    }
  }

  lemma {:induction false} RecordedLonger(mod: Module, l: Records, n: nat, v: Value, t: nat)
    requires n < |l| && Recorded(mod, l[..n], v, t)
    ensures Recorded(mod, l[..n + 1], v, t)
  {
    assert l[..n + 1] == l[..n] + [l[n]];
  }

  /** Changing records from `n` on changes nothing before. */
  lemma {:induction false} CollectedPrefix(mod: Module, l: Records, l': Records, n: nat, sites: Sites)
    requires n <= |l| && n <= |l'| && l[..n] == l'[..n]
    requires Collected(mod, l, n, sites) && NoneGone(mod, l, n) && Unique(mod, l, n)
    ensures Collected(mod, l', n, sites) && NoneGone(mod, l', n) && Unique(mod, l', n)
  {
    assert forall k :: 0 <= k < n ==> l'[k] == l'[..n][k] == l[..n][k] == l[k];
  }

  /** A live record of a call that needs no edge but may have one. */
  predicate Other(mod: Module, r: CallRecord) {
    !mod.Gone(r) && !mod.Tracks(r)
  }

  /** Both lists have the same records of such calls, each as often. */
  ghost predicate SameOthers(mod: Module, l0: Records, l: Records) {
    forall r: CallRecord :: Other(mod, r) ==> multiset(l)[r] == multiset(l0)[r]
  }

  lemma {:induction false} OthersReplaced(mod: Module, l: Records, i: nat, x: CallRecord)
    requires i < |l| && !Other(mod, l[i]) && !Other(mod, x)
    ensures SameOthers(mod, l, l[i := x])
  {
    assert l == l[..i] + [l[i]] + l[i + 1..];
    assert l[i := x] == l[..i] + [x] + l[i + 1..];
  }

  lemma {:induction false} OthersAppended(mod: Module, l: Records, x: CallRecord)
    requires !Other(mod, x)
    ensures SameOthers(mod, l, l + [x])
  {
  }

  /** Some record is left of the site of a live tracked call. */
  ghost predicate SiteKept(mod: Module, l: Records, r: CallRecord) {
    r in l || (mod.Tracks(r) && HasSite(l, r.site))
  }

  ghost predicate HasSite(l: Records, site: Option<Value>) {
    exists s :: s in l && s.site == site
  }

  /** What is left of the records: nothing new, and everything live; a tracked call
      may have lost repetitions. */
  ghost predicate Kept(mod: Module, old_: Records, l: Records) {
    && SameOthers(mod, old_, l)
    && (forall r :: r in l ==> r in old_)
    && (forall r :: r in old_ && !mod.Gone(r) ==> SiteKept(mod, l, r))
  }

  /** Removal loses no other record. */
  lemma {:induction false} InRemoved(l: Records, i: nat, r: CallRecord)
    requires i < |l|
    ensures r in RemoveAt(l, i) ==> r in l
    ensures r in l && r != l[i] ==> r in RemoveAt(l, i)
  {
    var n, l' := |l| - 1, RemoveAt(l, i);
    if r in l' {
      var k :| 0 <= k < |l'| && l'[k] == r;
      assert l'[k] == if k == i then l[n] else l[k];
    }
    if r in l && r != l[i] {
      var k :| 0 <= k < |l| && l[k] == r;
      assert l'[if k == n then i else k] == r;
    }
  }

  lemma {:induction false} OthersRemoved(mod: Module, l0: Records, l: Records, i: nat)
    requires SameOthers(mod, l0, l) && i < |l| && !Other(mod, l[i])
    ensures SameOthers(mod, l0, RemoveAt(l, i))
  {
    RemovedMultiset(l, i);
  }

  lemma {:induction false} SiteRemoved(l: Records, i: nat, j: nat, site: Option<Value>)
    requires HasSite(l, site) && j < i < |l| && l[j].site == l[i].site
    ensures HasSite(RemoveAt(l, i), site) && HasSite(RemoveAt(l, i), l[i].site)
  {
    var s :| s in l && s.site == site;
    assert RemoveAt(l, i)[j] == l[j];
    InRemoved(l, i, s);
  }

  lemma {:induction false} KeptRemoved(mod: Module, old_: Records, l: Records, i: nat)
    requires Kept(mod, old_, l) && i < |l|
    requires mod.Gone(l[i]) || (mod.Tracks(l[i]) && exists j :: 0 <= j < i && l[j].site == l[i].site)
    ensures Kept(mod, old_, RemoveAt(l, i))
  {
    OthersRemoved(mod, old_, l, i);
    forall r | r in RemoveAt(l, i)
      ensures r in old_
    {
      InRemoved(l, i, r);
    }
    forall r | r in old_ && !mod.Gone(r)
      ensures SiteKept(mod, RemoveAt(l, i), r)
    {
      StillKept(mod, l, i, r);
    }
  }

  lemma {:induction false} StillKept(mod: Module, l: Records, i: nat, r: CallRecord)
    requires SiteKept(mod, l, r) && i < |l| && !mod.Gone(r)
    requires mod.Gone(l[i]) || (mod.Tracks(l[i]) && exists j :: 0 <= j < i && l[j].site == l[i].site)
    ensures SiteKept(mod, RemoveAt(l, i), r)
  {
    InRemoved(l, i, r);
    if mod.Gone(l[i]) {
      if r !in l {
        var s :| s in l && s.site == r.site;
        assert !mod.Gone(s);
        InRemoved(l, i, s);
      }
    } else {
      var j :| 0 <= j < i && l[j].site == l[i].site;
      SiteRemoved(l, i, j, if r in l then l[i].site else r.site);
    }
  }

  /** A site that is known already has an earlier record. */
  lemma {:induction false} SeenBefore(mod: Module, l: Records, i: nat, sites: Sites)
    requires i < |l| && Collected(mod, l, i, sites) && l[i].site.Some?
    ensures l[i].site.value in sites ==> mod.Tracks(l[i]) && exists j :: 0 <= j < i && l[j].site == l[i].site
  {
    var v := l[i].site.value;
    if v in sites {
      assert Recorded(mod, l[..i], v, sites[v]);
      var j :| 0 <= j < i && l[..i][j] == CallRecord(Some(v), sites[v]);
      assert l[j].site == l[i].site;
    }
  }

  /** A clean list has nothing to remove. */
  lemma {:induction false} CleanStays(mod: Module, l: Records, i: nat, sites: Sites)
    requires Clean(mod, l) && i < |l| && Collected(mod, l, i, sites)
    ensures !mod.Gone(l[i]) && l[i].site.value !in sites
  {
    SeenBefore(mod, l, i, sites);
  }

  /** The sweep has got to record `i`. */
  ghost predicate Sweeping(mod: Module, l0: Records, l: Records, i: nat, sites: Sites) {
    && i <= |l| && Collected(mod, l, i, sites) && NoneGone(mod, l, i) && Unique(mod, l, i) && Kept(mod, l0, l)
  }

  lemma {:induction false} SweepRemoves(mod: Module, l0: Records, l: Records, i: nat, sites: Sites)
    requires Sweeping(mod, l0, l, i, sites) && i < |l| && (mod.Gone(l[i]) || l[i].site.value in sites)
    ensures Sweeping(mod, l0, RemoveAt(l, i), i, sites)
  {
    if !mod.Gone(l[i]) {
      SeenBefore(mod, l, i, sites);
    }
    KeptRemoved(mod, l0, l, i);
    assert RemoveAt(l, i)[..i] == l[..i];
    CollectedPrefix(mod, l, RemoveAt(l, i), i, sites);
  }

  lemma {:induction false} SweepPasses(mod: Module, l0: Records, l: Records, i: nat, sites: Sites)
    requires Sweeping(mod, l0, l, i, sites) && i < |l| && !mod.Gone(l[i]) && l[i].site.value !in sites
    ensures Sweeping(mod, l0, l, i + 1, if mod.Tracks(l[i]) then sites[l[i].site.value := l[i].target] else sites)
  {
    if mod.Tracks(l[i]) {
      CollectedTracked(mod, l, i, sites);
    } else {
      CollectedOther(mod, l, i, sites);
    }
  }

  // ----- what is removed -----

  /** The record's target stands for a function, or not. */
  predicate Goes(function_: seq<Option<Func>>, r: CallRecord, direct: bool) {
    r.target < |function_| && function_[r.target].Some? == direct
  }

  /** The number of records of that kind. */
  function Count(function_: seq<Option<Func>>, l: Records, direct: bool): nat {
    if l == [] then 0
    else Count(function_, l[..|l| - 1], direct) + (if Goes(function_, l[|l| - 1], direct) then 1 else 0)
  }

  lemma {:induction false} CountReplaced(function_: seq<Option<Func>>, l: Records, i: nat, x: CallRecord, direct: bool)
    requires i < |l|
    ensures Count(function_, l[i := x], direct)
         == Count(function_, l, direct) - (if Goes(function_, l[i], direct) then 1 else 0)
            + (if Goes(function_, x, direct) then 1 else 0)
    decreases |l|
  {
    var n := |l| - 1;
    if i == n {
      assert l[i := x][..n] == l[..n];
    } else {
      CountReplaced(function_, l[..n], i, x, direct);
      assert l[i := x][..n] == l[..n][i := x];
    }
  }

  lemma {:induction false} CountRemoved(function_: seq<Option<Func>>, l: Records, i: nat, direct: bool)
    requires i < |l|
    ensures Count(function_, RemoveAt(l, i), direct)
         == Count(function_, l, direct) - (if Goes(function_, l[i], direct) then 1 else 0)
  {
    var n := |l| - 1;
    if i < n {
      CountReplaced(function_, l[..n], i, l[n], direct);
      assert RemoveAt(l, i) == l[..n][i := l[n]];
    } else {
      assert RemoveAt(l, i) == l[..n];
    }
  }

  /** What the sweep leaves of the list from record `i` on, when the calls in `seen` have
      a record before. */
  function SweptFrom(mod: Module, l: Records, i: nat, seen: set<Value>): Records
    requires i <= |l|
    decreases |l| - i
  {
    if i == |l| then l
    else if mod.Gone(l[i]) || l[i].site.value in seen then SweptFrom(mod, RemoveAt(l, i), i, seen)
    else SweptFrom(mod, l, i + 1, if mod.Tracks(l[i]) then seen + {l[i].site.value} else seen)
  }

  function SweptList(mod: Module, l: Records): Records {
    SweptFrom(mod, l, 0, {})
  }

  /** The number of records of that kind whose call is gone. */
  function CountGone(mod: Module, function_: seq<Option<Func>>, l: Records, direct: bool): nat {
    if l == [] then 0
    else
      CountGone(mod, function_, l[..|l| - 1], direct)
      + (if mod.Gone(l[|l| - 1]) && Goes(function_, l[|l| - 1], direct) then 1 else 0)
  }

  lemma {:induction false} GoneReplaced(mod: Module, function_: seq<Option<Func>>, l: Records, i: nat, x: CallRecord,
                                        direct: bool)
    requires i < |l|
    ensures CountGone(mod, function_, l[i := x], direct)
         == CountGone(mod, function_, l, direct) - (if mod.Gone(l[i]) && Goes(function_, l[i], direct) then 1 else 0)
            + (if mod.Gone(x) && Goes(function_, x, direct) then 1 else 0)
    decreases |l|
  {
    var n := |l| - 1;
    if i == n {
      assert l[i := x][..n] == l[..n];
    } else {
      GoneReplaced(mod, function_, l[..n], i, x, direct);
      assert l[i := x][..n] == l[..n][i := x];
    }
  }

  lemma {:induction false} GoneRemoved(mod: Module, function_: seq<Option<Func>>, l: Records, i: nat, direct: bool)
    requires i < |l|
    ensures CountGone(mod, function_, RemoveAt(l, i), direct)
         == CountGone(mod, function_, l, direct) - (if mod.Gone(l[i]) && Goes(function_, l[i], direct) then 1 else 0)
  {
    var n := |l| - 1;
    if i < n {
      GoneReplaced(mod, function_, l[..n], i, l[n], direct);
      assert RemoveAt(l, i) == l[..n][i := l[n]];
    } else {
      assert RemoveAt(l, i) == l[..n];
    }
  }

  lemma {:induction false} NoneGoneCount(mod: Module, function_: seq<Option<Func>>, l: Records, direct: bool)
    requires NoneGone(mod, l, |l|)
    ensures CountGone(mod, function_, l, direct) == 0
    decreases |l|
  {
    if l != [] {
      NoneGoneCount(mod, function_, l[..|l| - 1], direct);
    }
  }

  lemma {:induction false} UniqueRemoved(mod: Module, l: Records, i: nat)
    requires Unique(mod, l, |l|) && i < |l|
    ensures Unique(mod, RemoveAt(l, i), |l| - 1)
  {
    var n, l' := |l| - 1, RemoveAt(l, i);
    forall j, k | 0 <= j < k < n && mod.Tracks(l'[k])
      ensures l'[j].site != l'[k].site
    {
      var a, b := if j == i then n else j, if k == i then n else k;
      assert l'[j] == l[a] && l'[k] == l[b];
    }
  }

  /** If no call has two records, what the sweep removes is the records of calls that
      are gone. */
  lemma {:induction false} OnlyGoneRemoved(mod: Module, function_: seq<Option<Func>>, l: Records, i: nat,
                                           seen: set<Value>, direct: bool)
    requires i <= |l| && Unique(mod, l, |l|) && NoneGone(mod, l, i)
    requires forall v :: v in seen ==> SeenIn(mod, l, i, v)
    ensures Count(function_, l, direct) - Count(function_, SweptFrom(mod, l, i, seen), direct)
         == CountGone(mod, function_, l, direct)
    decreases |l| - i
  {
    if i == |l| {
      NoneGoneCount(mod, function_, l, direct);
    } else if mod.Gone(l[i]) {
      CountRemoved(function_, l, i, direct);
      GoneRemoved(mod, function_, l, i, direct);
      UniqueRemoved(mod, l, i);
      forall v | v in seen
        ensures SeenIn(mod, RemoveAt(l, i), i, v)
      {
        var j :| 0 <= j < i && l[j].site == Some(v) && mod.Tracks(l[j]);
        assert RemoveAt(l, i)[j] == l[j];
      }
      OnlyGoneRemoved(mod, function_, RemoveAt(l, i), i, seen, direct);
    } else {
      var v := l[i].site.value;
      assert v in seen ==> SeenIn(mod, l, i, v);
      var more := if mod.Tracks(l[i]) then seen + {v} else seen;
      forall u | u in more
        ensures SeenIn(mod, l, i + 1, u)
      {
        if u in seen {
          var j :| 0 <= j < i && l[j].site == Some(u) && mod.Tracks(l[j]);
        }
      }
      OnlyGoneRemoved(mod, function_, l, i + 1, more, direct);
    }
  }

  ghost predicate SeenIn(mod: Module, l: Records, i: nat, v: Value)
    requires i <= |l|
  {
    exists j :: 0 <= j < i && l[j].site == Some(v) && mod.Tracks(l[j])
  }

  /** The sweep's counts are the records it takes out, by kind. */
  ghost predicate RemovedRight(function_: seq<Option<Func>>, l0: Records, l: Records, directRemoved: nat,
                               indirectRemoved: nat) {
    Count(function_, l0, true) == Count(function_, l, true) + directRemoved &&
    Count(function_, l0, false) == Count(function_, l, false) + indirectRemoved
  }

  /** One edge: removed, or noted and passed. */
  method SweepEdge(g: CallGraph, mod: Module, m: nat, i: nat, sites0: Sites, ghost l0: Records)
    returns (removed: bool, indirect: bool, sites: Sites)
    requires g.Valid() && m < |g.callees| && i < |g.callees[m]| && Sweeping(mod, l0, g.callees[m], i, sites0)
    modifies g`callees, g`references
    ensures g.Valid() && |g.callees| == |old(g.callees)| && (Clean(mod, old(g.callees)[m]) ==> !removed)
    ensures removed ==> g.callees == old(g.callees)[m := RemoveAt(old(g.callees)[m], i)]
    ensures !removed ==> unchanged(g)
    ensures Sweeping(mod, l0, g.callees[m], if removed then i else i + 1, sites)
    ensures var r := old(g.callees)[m][i];
      && r.target < |g.function_| && (removed ==> indirect == g.function_[r.target].None?)
      && (removed <==> mod.Gone(r) || r.site.value in sites0)
      && sites.Keys == sites0.Keys + (if !removed && mod.Tracks(r) then {r.site.value} else {})
  {
    hide Collected, Kept, NoneGone, Unique, MapOk, CountsRight;
    var r := g.callees[m][i];
    assert TargetsOk(g.function_, g.callees[m]);
    sites, removed, indirect := sites0, mod.Gone(r) || r.site.value in sites0, false;
    if Clean(mod, g.callees[m]) {
      CleanStays(mod, g.callees[m], i, sites);
    }
    if removed {
      indirect := g.function_[r.target].None?;
      SweepRemoves(mod, l0, g.callees[m], i, sites);
      g.RemoveCallEdge(m, i);
    } else {
      SweepPasses(mod, l0, g.callees[m], i, sites);
      if mod.Tracked(r.site.value) {
        sites := sites[r.site.value := r.target];
      }
    }
  }

  /** Walks the edges of node `m`: those of calls that are gone, or had an edge before,
      are removed on the way; the sites of the others are returned. */
  method Sweep(g: CallGraph, mod: Module, m: nat, callSites: Sites)
    returns (sites: Sites, directRemoved: nat, indirectRemoved: nat)
    requires g.Valid() && m < |g.callees| && callSites == map[]
    modifies g`callees, g`references
    ensures g.Valid() && |g.callees| == |old(g.callees)| && g.callees == old(g.callees)[m := g.callees[m]]
    ensures Sweeping(mod, old(g.callees)[m], g.callees[m], |g.callees[m]|, sites)
    ensures Clean(mod, old(g.callees)[m]) ==> unchanged(g) && directRemoved == 0 && indirectRemoved == 0
    ensures g.callees[m] == SweptList(mod, old(g.callees)[m])
    ensures RemovedRight(g.function_, old(g.callees)[m], g.callees[m], directRemoved, indirectRemoved)
  {
    hide Collected, Kept, Clean, SweptFrom, Count;
    sites, directRemoved, indirectRemoved := callSites, 0, 0;
    SweepStarts(mod, g.callees[m]);
    assert sites.Keys == {};
    ghost var callees0, l0 := g.callees, g.callees[m];
    var i := 0;
    while i != |g.callees[m]|
      invariant g.Valid() && |g.callees| == |callees0| && g.callees == callees0[m := g.callees[m]]
      invariant Sweeping(mod, l0, g.callees[m], i, sites)
      invariant Clean(mod, l0) ==> unchanged(g) && directRemoved == 0 && indirectRemoved == 0
      invariant SweptList(mod, l0) == SweptFrom(mod, g.callees[m], i, sites.Keys)
      invariant RemovedRight(g.function_, l0, g.callees[m], directRemoved, indirectRemoved)
      decreases |g.callees[m]| - i
    {
      var removed, indirect;
      ghost var l, seen := g.callees[m], sites.Keys;
      removed, indirect, sites := SweepEdge(g, mod, m, i, sites, l0);
      SweptNext(mod, g.function_, l, i, seen, removed, g.callees[m], sites.Keys);
      if !removed {
        i := i + 1;
      } else if indirect {
        indirectRemoved := indirectRemoved + 1;
      } else {
        directRemoved := directRemoved + 1;
      }
    }
    SweptAll(mod, g.callees[m], sites.Keys);
  }

  lemma {:induction false} SweepStarts(mod: Module, l: Records)
    ensures Sweeping(mod, l, l, 0, map[])
  {
  }

  lemma {:induction false} SweptAll(mod: Module, l: Records, seen: set<Value>)
    ensures SweptFrom(mod, l, |l|, seen) == l
  {
  }

  /** One step of the sweep. */
  lemma {:induction false} SweptNext(mod: Module, function_: seq<Option<Func>>, l: Records, i: nat, seen: set<Value>,
                                     removed: bool, l': Records, seen': set<Value>)
    requires i < |l| && l[i].target < |function_| && (removed <==> mod.Gone(l[i]) || l[i].site.value in seen)
    requires l' == if removed then RemoveAt(l, i) else l
    requires seen' == seen + (if !removed && mod.Tracks(l[i]) then {l[i].site.value} else {})
    ensures SweptFrom(mod, l, i, seen) == SweptFrom(mod, l', if removed then i else i + 1, seen')
    ensures removed ==> Count(function_, l, true) == Count(function_, l', true) +
                                                     (if function_[l[i].target].Some? then 1 else 0)
    ensures removed ==> Count(function_, l, false) == Count(function_, l', false) +
                                                      (if function_[l[i].target].None? then 1 else 0)
  {
    if removed {
      CountRemoved(function_, l, i, true);
      CountRemoved(function_, l, i, false);
      assert seen' == seen;
    } else if !mod.Tracks(l[i]) {
      assert seen' == seen;
    }
  }

  // ----- the call sites in the body -----

  /** Node `t` is the callee's, or stands for a function that is not known. */
  predicate Right(mod: Module, function_: seq<Option<Func>>, v: Value, t: nat) {
    t < |function_| && function_[t] == mod.callee(v)
  }

  /** The call has a record, and it has the right target. */
  ghost predicate HasEdge(mod: Module, function_: seq<Option<Func>>, l: Records, v: Value) {
    exists t :: CallRecord(Some(v), t) in l && Right(mod, function_, v, t)
  }

  /** Every record is of a live call; the calls in the body that are no intrinsics
      have one record each, with the right target; and no other such call has one. */
  ghost predicate Synced(mod: Module, function_: seq<Option<Func>>, l: Records, body: seq<Value>) {
    && Clean(mod, l)
    && (forall r :: r in l && mod.Tracks(r) ==> r.site.value in body)
    && (forall v :: v in body && mod.Tracked(v) ==> HasEdge(mod, function_, l, v))
  }

  /** The walk has got to instruction `k`; `sites` are recorded and still to come. */
  ghost predicate Syncing(mod: Module, function_: seq<Option<Func>>, l: Records, body: seq<Value>, k: nat,
                          sites: Sites) {
    && k <= |body| && Clean(mod, l)
    && (forall v: Value :: v in sites ==> v in body[k..] && Recorded(mod, l, v, sites[v]))
    && (forall r :: r in l && mod.Tracks(r) ==> r.site.value in sites || r.site.value in body[..k])
    && (forall v :: v in body[..k] && mod.Tracked(v) ==> HasEdge(mod, function_, l, v))
  }

  lemma {:induction false} OneMore(body: seq<Value>, k: nat)
    requires NoRepeat(body) && k < |body|
    ensures body[k] !in body[..k] && body[k] !in body[k + 1..]
    ensures forall v: Value :: v in body[..k + 1] <==> v in body[..k] || v == body[k]
    ensures forall v: Value :: v in body[k..] <==> v in body[k + 1..] || v == body[k]
  {
    assert body[..k + 1] == body[..k] + [body[k]];
    assert body[k..] == [body[k]] + body[k + 1..];
  }

  lemma {:induction false} SyncStarts(mod: Module, function_: seq<Option<Func>>, l0: Records, l: Records,
                                      body: seq<Value>, sites: Sites)
    requires Sweeping(mod, l0, l, |l|, sites) && InBody(mod, l0, body)
    ensures Syncing(mod, function_, l, body, 0, sites)
  {
    assert body[0..] == body && l[..|l|] == l;
    forall v: Value | v in sites
      ensures v in body && Recorded(mod, l, v, sites[v])
    {
      assert Recorded(mod, l[..|l|], v, sites[v]);
      assert CallRecord(Some(v), sites[v]) in l0;
    }
    forall r | r in l && mod.Tracks(r)
      ensures r.site.value in sites
    {
      var i :| 0 <= i < |l| && l[i] == r;
    }
  }

  /** Recorded call sites are still in the body. */
  ghost predicate InBody(mod: Module, l: Records, body: seq<Value>) {
    forall r :: r in l && mod.Tracks(r) ==> r.site.value in body
  }

  lemma {:induction false} SyncEnds(mod: Module, function_: seq<Option<Func>>, l: Records, body: seq<Value>,
                                    sites: Sites)
    requires Syncing(mod, function_, l, body, |body|, sites)
    ensures Synced(mod, function_, l, body) && sites == map[]
  {
    assert body[..|body|] == body && body[|body|..] == [];
    assert forall v: Value :: v !in sites;
  }

  /** An instruction that needs no edge. */
  lemma {:induction false} SyncOther(mod: Module, function_: seq<Option<Func>>, l: Records, body: seq<Value>, k: nat,
                                     sites: Sites)
    requires NoRepeat(body) && Syncing(mod, function_, l, body, k, sites) && k < |body| && !mod.Tracked(body[k])
    ensures Syncing(mod, function_, l, body, k + 1, sites)
  {
    OneMore(body, k);
    forall v: Value | v in sites
      ensures v in body[k + 1..]
    {
      assert Recorded(mod, l, v, sites[v]);
    }
  }

  /** A call recorded with the right target. */
  lemma {:induction false} SyncMatches(mod: Module, function_: seq<Option<Func>>, l: Records, body: seq<Value>, k: nat,
                                       sites: Sites)
    requires NoRepeat(body) && Syncing(mod, function_, l, body, k, sites) && k < |body|
    requires body[k] in sites && Right(mod, function_, body[k], sites[body[k]])
    ensures Syncing(mod, function_, l, body, k + 1, sites - {body[k]})
  {
    OneMore(body, k);
    assert Recorded(mod, l, body[k], sites[body[k]]);
    assert HasEdge(mod, function_, l, body[k]);
  }

  lemma {:induction false} InUpdated(l: Records, i: nat, x: CallRecord, r: CallRecord)
    requires i < |l|
    ensures r in l[i := x] ==> r in l || r == x
    ensures r in l && r != l[i] ==> r in l[i := x]
    ensures x in l[i := x]
  {
    assert l[i := x][i] == x;
    if r in l && r != l[i] {
      var j :| 0 <= j < |l| && l[j] == r;
      assert l[i := x][j] == r;
    }
  }

  lemma {:induction false} CleanReplaced(mod: Module, l: Records, i: nat, v: Value, t: nat)
    requires Clean(mod, l) && i < |l| && l[i].site == Some(v) && mod.Tracked(v)
    ensures Clean(mod, l[i := CallRecord(Some(v), t)])
  {
    assert !mod.Gone(l[i]);
  }

  /** A call recorded with the wrong target. */
  lemma {:induction false} SyncReplaces(mod: Module, function_: seq<Option<Func>>, l: Records, body: seq<Value>,
                                        k: nat, sites: Sites, i: nat, t: nat)
    requires NoRepeat(body) && Syncing(mod, function_, l, body, k, sites) && k < |body| && body[k] in sites
    requires i < |l| && l[i].site == Some(body[k]) && Right(mod, function_, body[k], t)
    ensures Syncing(mod, function_, l[i := CallRecord(Some(body[k]), t)], body, k + 1, sites - {body[k]})
  {
    var v, x, l' := body[k], CallRecord(Some(body[k]), t), l[i := CallRecord(Some(body[k]), t)];
    OneMore(body, k);
    assert Recorded(mod, l, v, sites[v]);
    CleanReplaced(mod, l, i, v, t);
    forall u: Value | u in sites && u != v
      ensures u in body[k + 1..] && Recorded(mod, l', u, sites[u])
    {
      assert Recorded(mod, l, u, sites[u]);
      InUpdated(l, i, x, CallRecord(Some(u), sites[u]));
    }
    forall r | r in l' && mod.Tracks(r)
      ensures r.site.value in sites - {v} || r.site.value in body[..k + 1]
    {
      InUpdated(l, i, x, r);
    }
    forall u | u in body[..k + 1] && mod.Tracked(u)
      ensures HasEdge(mod, function_, l', u)
    {
      InUpdated(l, i, x, x);
      if u != v {
        var s: nat :| CallRecord(Some(u), s) in l && Right(mod, function_, u, s);
        InUpdated(l, i, x, CallRecord(Some(u), s));
      }
    }
  }

  /** A call not recorded. */
  lemma {:induction false} SyncAdds(mod: Module, function_: seq<Option<Func>>, l: Records, body: seq<Value>, k: nat,
                                    sites: Sites, t: nat)
    requires NoRepeat(body) && Syncing(mod, function_, l, body, k, sites) && k < |body| && body[k] !in sites
    requires mod.Tracked(body[k]) && Right(mod, function_, body[k], t)
    ensures Syncing(mod, function_, l + [CallRecord(Some(body[k]), t)], body, k + 1, sites)
  {
    var v, x := body[k], CallRecord(Some(body[k]), t);
    var l' := l + [x];
    OneMore(body, k);
    forall j | 0 <= j < |l|
      ensures l[j].site != x.site
    {
      assert l[j] in l;
    }
    assert l'[|l|] == x;
    forall u: Value | u in sites
      ensures u in body[k + 1..] && Recorded(mod, l', u, sites[u])
    {
      assert Recorded(mod, l, u, sites[u]);
    }
    forall u | u in body[..k + 1] && mod.Tracked(u)
      ensures HasEdge(mod, function_, l', u)
    {
      if u != v {
        var s: nat :| CallRecord(Some(u), s) in l && Right(mod, function_, u, s);
        assert CallRecord(Some(u), s) in l';
      } else {
        assert CallRecord(Some(u), t) in l';
      }
    }
  }

  /** New nodes change nothing for the edges there are. */
  lemma {:induction false} SyncExtends(mod: Module, function_: seq<Option<Func>>, more: seq<Option<Func>>, l: Records,
                                       body: seq<Value>, k: nat, sites: Sites)
    requires Syncing(mod, function_, l, body, k, sites) && |function_| <= |more| && more[..|function_|] == function_
    ensures Syncing(mod, more, l, body, k, sites)
  {
    forall v | v in body[..k] && mod.Tracked(v)
      ensures HasEdge(mod, more, l, v)
    {
      var t: nat :| CallRecord(Some(v), t) in l && Right(mod, function_, v, t);
      assert more[t] == more[..|function_|][t];
    }
  }

  lemma {:induction false} SyncedExtends(mod: Module, function_: seq<Option<Func>>, more: seq<Option<Func>>,
                                         l: Records, body: seq<Value>)
    requires Synced(mod, function_, l, body) && |function_| <= |more| && more[..|function_|] == function_
    ensures Synced(mod, more, l, body)
  {
    forall v | v in body && mod.Tracked(v)
      ensures HasEdge(mod, more, l, v)
    {
      var t: nat :| CallRecord(Some(v), t) in l && Right(mod, function_, v, t);
      assert more[t] == more[..|function_|][t];
    }
  }

  // ----- a node that is in line already -----

  /** Every call still to come is recorded, with the right target. */
  ghost predicate AllMatch(mod: Module, function_: seq<Option<Func>>, body: seq<Value>, k: nat, sites: Sites) {
    k <= |body| && forall v :: v in body[k..] && mod.Tracked(v) ==> v in sites && Right(mod, function_, v, sites[v])
  }

  lemma {:induction false} MatchStarts(mod: Module, function_: seq<Option<Func>>, l: Records, body: seq<Value>,
                                       sites: Sites)
    requires Synced(mod, function_, l, body) && Collected(mod, l, |l|, sites)
    ensures AllMatch(mod, function_, body, 0, sites)
  {
    forall v | v in body[0..] && mod.Tracked(v)
      ensures v in sites && Right(mod, function_, v, sites[v])
    {
      var t: nat :| CallRecord(Some(v), t) in l && Right(mod, function_, v, t);
      var i :| 0 <= i < |l| && l[i] == CallRecord(Some(v), t);
      assert mod.Tracks(l[i]);
    }
  }

  lemma {:induction false} MatchGoesOn(mod: Module, function_: seq<Option<Func>>, body: seq<Value>, k: nat,
                                       sites: Sites)
    requires AllMatch(mod, function_, body, k, sites) && k < |body| && NoRepeat(body)
    ensures AllMatch(mod, function_, body, k + 1, sites - {body[k]})
    ensures !mod.Tracked(body[k]) ==> AllMatch(mod, function_, body, k + 1, sites)
  {
    OneMore(body, k);
  }

  // ----- the walk over the body -----

  /** Only node `m` has changed, and nodes without edges were added. */
  ghost predicate OnlyChanges(m: nat, function0: seq<Option<Func>>, callees0: seq<Records>,
                              function1: seq<Option<Func>>, callees1: seq<Records>) {
    && |function0| == |callees0| <= |function1| == |callees1| && function1[..|function0|] == function0
    && (forall k :: 0 <= k < |callees0| && k != m ==> callees1[k] == callees0[k])
    && (forall k :: |callees0| <= k < |callees1| && k != m ==> callees1[k] == [])
  }

  lemma {:induction false} OnlyChangesOn(m: nat, function0: seq<Option<Func>>, callees0: seq<Records>,
                                         function1: seq<Option<Func>>, callees1: seq<Records>,
                                         function2: seq<Option<Func>>, callees2: seq<Records>)
    requires OnlyChanges(m, function0, callees0, function1, callees1) &&
             OnlyChanges(m, function1, callees1, function2, callees2)
    ensures OnlyChanges(m, function0, callees0, function2, callees2)
  {
    assert function2[..|function0|] == function2[..|function1|][..|function0|];
  }

  /** The node a call goes to. */
  method CalleeNode(g: CallGraph, mod: Module, ghost m: nat, v: Value) returns (t: nat)
    requires g.Valid() && m < |g.callees|
    modifies g
    ensures g.Valid() && Right(mod, g.function_, v, t) && TargetsOk(g.function_, [CallRecord(Some(v), t)])
    ensures OnlyChanges(m, old(g.function_), old(g.callees), g.function_, g.callees) &&
            g.callees[m] == old(g.callees)[m]
  {
    var callee := mod.callee(v);
    if callee.Some? {
      t := g.GetOrInsertFunction(callee.value);
    } else {
      t := CALLS_EXTERNAL;
    }
    assert g.callees[m] == g.callees[..|old(g.callees)|][m];
    forall k | 0 <= k < |old(g.callees)|
      ensures g.callees[k] == old(g.callees)[k]
    {
      assert g.callees[k] == g.callees[..|old(g.callees)|][k];
    }
  }

  /** Some record of the call shows it to have been indirect. */
  predicate TurnsDirect(mod: Module, function_: seq<Option<Func>>, v: Value, t: nat) {
    t < |function_| && function_[t].None? && mod.callee(v).Some?
  }

  /** The recorded edge of a call gets its new callee's node as target. */
  method Retarget(g: CallGraph, mod: Module, m: nat, ghost body: seq<Value>, ghost k: nat, v: Value, sites0: Sites)
    requires g.Valid() && m < |g.callees| && NoRepeat(body) && k < |body| && v == body[k] && mod.Tracked(v)
    requires Syncing(mod, g.function_, g.callees[m], body, k, sites0) && v in sites0
    modifies g
    ensures g.Valid() && OnlyChanges(m, old(g.function_), old(g.callees), g.function_, g.callees)
    ensures Syncing(mod, g.function_, g.callees[m], body, k + 1, sites0 - {v})
    ensures SameOthers(mod, old(g.callees)[m], g.callees[m])
  {
    ghost var function0, l := g.function_, g.callees[m];
    assert Recorded(mod, l, v, sites0[v]);
    RecordedTarget(function0, l, CallRecord(Some(v), sites0[v]));
    var t := CalleeNode(g, mod, m, v);
    SyncExtends(mod, function0, g.function_, l, body, k, sites0);
    ghost var i := g.ReplaceCallEdge(m, v, v, t);
    SyncReplaces(mod, g.function_, l, body, k, sites0, i, t);
    OthersReplaced(mod, l, i, CallRecord(Some(v), t));
  }

  /** A call without an edge gets one. */
  method AddSite(g: CallGraph, mod: Module, m: nat, ghost body: seq<Value>, ghost k: nat, v: Value, ghost sites0: Sites)
    requires g.Valid() && m < |g.callees| && NoRepeat(body) && k < |body| && v == body[k] && mod.Tracked(v)
    requires Syncing(mod, g.function_, g.callees[m], body, k, sites0) && v !in sites0
    modifies g
    ensures g.Valid() && OnlyChanges(m, old(g.function_), old(g.callees), g.function_, g.callees)
    ensures Syncing(mod, g.function_, g.callees[m], body, k + 1, sites0)
    ensures SameOthers(mod, old(g.callees)[m], g.callees[m])
  {
    ghost var function0, l := g.function_, g.callees[m];
    var t := CalleeNode(g, mod, m, v);
    SyncExtends(mod, function0, g.function_, l, body, k, sites0);
    g.AddCalledFunction(m, CallRecord(Some(v), t));
    SyncAdds(mod, g.function_, l, body, k, sites0, t);
    OthersAppended(mod, l, CallRecord(Some(v), t));
  }

  /** One call site in the body. */
  method SyncSite(g: CallGraph, mod: Module, m: nat, ghost body: seq<Value>, ghost k: nat, v: Value, sites0: Sites)
    returns (sites: Sites, added: bool, devirtualized: bool)
    requires g.Valid() && m < |g.callees| && NoRepeat(body) && k < |body| && v == body[k] && mod.Tracked(v)
    requires Syncing(mod, g.function_, g.callees[m], body, k, sites0)
    modifies g
    ensures g.Valid() && OnlyChanges(m, old(g.function_), old(g.callees), g.function_, g.callees)
    ensures Syncing(mod, g.function_, g.callees[m], body, k + 1, sites) && sites == sites0 - {v}
    ensures SameOthers(mod, old(g.callees)[m], g.callees[m])
    ensures added <==> v !in sites0
    ensures devirtualized <==> v in sites0 && TurnsDirect(mod, old(g.function_), v, sites0[v])
    ensures v in sites0 && Right(mod, old(g.function_), v, sites0[v]) ==> unchanged(g) && !added
  {
    sites, added, devirtualized := sites0 - {v}, v !in sites0, false;
    if added {
      AddSite(g, mod, m, body, k, v, sites0);
      assert sites == sites0;
      return;
    }
    assert Recorded(mod, g.callees[m], v, sites0[v]);
    RecordedTarget(g.function_, g.callees[m], CallRecord(Some(v), sites0[v]));
    var existing := sites0[v];
    if g.function_[existing] == mod.callee(v) {
      SyncMatches(mod, g.function_, g.callees[m], body, k, sites0);
      return;
    }
    devirtualized := mod.callee(v).Some? && g.function_[existing].None?;
    Retarget(g, mod, m, body, k, v, sites0);
  }

  lemma {:induction false} RecordedTarget(function_: seq<Option<Func>>, l: Records, r: CallRecord)
    requires TargetsOk(function_, l) && r in l
    ensures r.target < |function_| && exists k :: 0 <= k < |l| && l[k].site == r.site
  {
    var k :| 0 <= k < |l| && l[k] == r;
  }

  lemma {:induction false} SitesValid(mod: Module, function_: seq<Option<Func>>, l: Records, body: seq<Value>,
                                      sites: Sites)
    requires TargetsOk(function_, l) && Syncing(mod, function_, l, body, 0, sites)
    ensures forall v: Value :: v in sites ==> sites[v] < |function_|
  {
    forall v: Value | v in sites
      ensures sites[v] < |function_|
    {
      assert Recorded(mod, l, v, sites[v]);
      RecordedTarget(function_, l, CallRecord(Some(v), sites[v]));
    }
  }

  /** New nodes change nothing for a node there is. */
  lemma {:induction false} TargetStays(mod: Module, function_: seq<Option<Func>>, more: seq<Option<Func>>, v: Value,
                                       t: nat)
    requires t < |function_| <= |more| && more[..|function_|] == function_
    ensures TurnsDirect(mod, more, v, t) == TurnsDirect(mod, function_, v, t) &&
            Right(mod, more, v, t) == Right(mod, function_, v, t)
  {
    assert more[t] == more[..|function_|][t];
  }

  /** An indirect call that is now direct is among the sites. */
  ghost predicate AnyTurnsDirect(mod: Module, function_: seq<Option<Func>>, sites: Sites) {
    exists v: Value :: v in sites && TurnsDirect(mod, function_, v, sites[v])
  }

  /** Whether an indirect call that is now direct was among the sites seen. */
  ghost predicate Turning(mod: Module, function_: seq<Option<Func>>, sites0: Sites, sites: Sites, devirtualized: bool) {
    && (forall v: Value :: v in sites0 ==> sites0[v] < |function_|)
    && (forall v: Value :: v in sites ==> v in sites0 && sites[v] == sites0[v])
    && (devirtualized ==> AnyTurnsDirect(mod, function_, sites0))
    && (forall v: Value :: v in sites0 && v !in sites && TurnsDirect(mod, function_, v, sites0[v]) ==> devirtualized)
  }

  lemma {:induction false} TurningGoesOn(mod: Module, function_: seq<Option<Func>>, sites0: Sites, sites: Sites,
                                         devirtualized: bool, v: Value)
    requires Turning(mod, function_, sites0, sites, devirtualized)
    ensures Turning(mod, function_, sites0, sites - {v},
                    devirtualized || (v in sites && TurnsDirect(mod, function_, v, sites[v])))
  {
  }

  lemma {:induction false} TurningEnds(mod: Module, function_: seq<Option<Func>>, sites0: Sites, devirtualized: bool)
    requires Turning(mod, function_, sites0, map[], devirtualized)
    ensures devirtualized <==> AnyTurnsDirect(mod, function_, sites0)
  {
  }

  /** The number of calls in the body, of that kind, that are to have an edge and are not
      recorded. */
  function Missing(mod: Module, body: seq<Value>, recorded: set<Value>, direct: bool): nat {
    if body == [] then 0
    else
      var v := body[|body| - 1];
      Missing(mod, body[..|body| - 1], recorded, direct)
      + (if mod.Tracked(v) && v !in recorded && mod.callee(v).Some? == direct then 1 else 0)
  }

  /** The counts are those of the calls seen that were not recorded; what was recorded and
      is still to come is among the sites. */
  ghost predicate Adding(mod: Module, body: seq<Value>, k: nat, sites0: Sites, sites: Sites, directAdded: nat,
                         indirectAdded: nat)
    requires k <= |body|
  {
    && directAdded == Missing(mod, body[..k], sites0.Keys, true)
    && indirectAdded == Missing(mod, body[..k], sites0.Keys, false)
    && (forall v: Value :: v in sites ==> v in sites0)
    && (forall v: Value :: v in sites0 && v !in body[..k] ==> v in sites)
  }

  lemma {:induction false} AddingStarts(mod: Module, body: seq<Value>, sites: Sites)
    ensures Adding(mod, body, 0, sites, sites, 0, 0)
  {
    assert body[..0] == [];
  }

  lemma {:induction false} AddingOn(mod: Module, body: seq<Value>, k: nat, sites0: Sites, sites: Sites, sites': Sites,
                                    directAdded: nat, indirectAdded: nat)
    requires NoRepeat(body) && k < |body| && Adding(mod, body, k, sites0, sites, directAdded, indirectAdded)
    requires sites' == if mod.Tracked(body[k]) then sites - {body[k]} else sites
    ensures var added, direct := mod.Tracked(body[k]) && body[k] !in sites, mod.callee(body[k]).Some?;
      Adding(mod, body, k + 1, sites0, sites', directAdded + (if added && direct then 1 else 0),
             indirectAdded + (if added && !direct then 1 else 0))
  {
    OneMore(body, k);
    assert body[..k + 1] == body[..k] + [body[k]];
    assert body[..k + 1][..k] == body[..k];
  }

  ghost predicate AddedRight(mod: Module, body: seq<Value>, sites: Sites, directAdded: nat, indirectAdded: nat) {
    directAdded == Missing(mod, body, sites.Keys, true) && indirectAdded == Missing(mod, body, sites.Keys, false)
  }

  lemma {:induction false} AddingEnds(mod: Module, body: seq<Value>, sites0: Sites, sites: Sites, directAdded: nat,
                                      indirectAdded: nat)
    requires Adding(mod, body, |body|, sites0, sites, directAdded, indirectAdded)
    ensures AddedRight(mod, body, sites0, directAdded, indirectAdded)
  {
    assert body[..|body|] == body;
  }

  /** Walks a body, bringing the edge of each call in line. */
  method Sync(g: CallGraph, mod: Module, m: nat, body: seq<Value>, sites0: Sites)
    returns (sites: Sites, directAdded: nat, indirectAdded: nat, devirtualized: bool)
    requires g.Valid() && m < |g.callees| && NoRepeat(body)
    requires Syncing(mod, g.function_, g.callees[m], body, 0, sites0)
    modifies g
    ensures g.Valid() && OnlyChanges(m, old(g.function_), old(g.callees), g.function_, g.callees)
    ensures Synced(mod, g.function_, g.callees[m], body) && sites == map[]
    ensures SameOthers(mod, old(g.callees)[m], g.callees[m])
    ensures devirtualized <==> AnyTurnsDirect(mod, old(g.function_), sites0)
    ensures AllMatch(mod, old(g.function_), body, 0, sites0) ==> unchanged(g) && directAdded == 0 && indirectAdded == 0
    ensures AddedRight(mod, body, sites0, directAdded, indirectAdded)
  {
    hide Adding, AddedRight, Syncing, Synced, TurnsDirect, Right, AnyTurnsDirect;
    AddingStarts(mod, body, sites0);
    sites, directAdded, indirectAdded, devirtualized := sites0, 0, 0, false;
    ghost var function0 := g.function_;
    SitesValid(mod, function0, g.callees[m], body, sites0);
    for k := 0 to |body|
      invariant g.Valid() && OnlyChanges(m, function0, old(g.callees), g.function_, g.callees)
      invariant Syncing(mod, g.function_, g.callees[m], body, k, sites)
      invariant SameOthers(mod, old(g.callees)[m], g.callees[m])
      invariant Turning(mod, function0, sites0, sites, devirtualized)
      invariant Adding(mod, body, k, sites0, sites, directAdded, indirectAdded)
      invariant AllMatch(mod, function0, body, 0, sites0) ==>
        unchanged(g) && AllMatch(mod, function0, body, k, sites) && directAdded == 0 && indirectAdded == 0
    {
      var v := body[k];
      AddingOn(mod, body, k, sites0, sites, if mod.Tracked(v) then sites - {v} else sites, directAdded, indirectAdded);
      if AllMatch(mod, function0, body, k, sites) {
        MatchGoesOn(mod, function0, body, k, sites);
      }
      if mod.Tracked(v) {
        ghost var function1, callees1 := g.function_, g.callees;
        if v in sites {
          TargetStays(mod, function0, function1, v, sites[v]);
        }
        TurningGoesOn(mod, function0, sites0, sites, devirtualized, v);
        var added, devirtualizes;
        sites, added, devirtualizes := SyncSite(g, mod, m, body, k, v, sites);
        OnlyChangesOn(m, function0, old(g.callees), function1, callees1, g.function_, g.callees);
        devirtualized := devirtualized || devirtualizes;
        if added {
          if mod.callee(v).Some? {
            directAdded := directAdded + 1;
          } else {
            indirectAdded := indirectAdded + 1;
          }
        }
      } else {
        SyncOther(mod, g.function_, g.callees[m], body, k, sites);
      }
    }
    SyncEnds(mod, g.function_, g.callees[m], body, sites);
    TurningEnds(mod, function0, sites0, devirtualized);
    AddingEnds(mod, body, sites0, sites, directAdded, indirectAdded);
  }

  // ----- refreshing -----

  /** The body of a node's function, if it is defined. */
  function BodyOf(mod: Module, function_: seq<Option<Func>>, m: nat): Option<seq<Value>> {
    if m < |function_| && function_[m].Some? then mod.body(function_[m].value) else None
  }

  /** Some call that was known to be indirect is now direct. */
  ghost predicate Devirtualizes(mod: Module, function_: seq<Option<Func>>, l: Records) {
    exists r :: r in l && mod.Tracks(r) && mod.callee(r.site.value).Some? && AllIndirect(function_, l, r.site)
  }

  ghost predicate AllIndirect(function_: seq<Option<Func>>, l: Records, site: Option<Value>) {
    forall r :: r in l && r.site == site ==> r.target < |function_| && function_[r.target].None?
  }

  lemma {:induction false} DevirtualizesIsFound(mod: Module, function_: seq<Option<Func>>, l0: Records, l: Records,
                                                sites: Sites)
    requires Sweeping(mod, l0, l, |l|, sites) && Devirtualizes(mod, function_, l0)
    ensures AnyTurnsDirect(mod, function_, sites)
  {
    var r :| r in l0 && mod.Tracks(r) && mod.callee(r.site.value).Some? && AllIndirect(function_, l0, r.site);
    var v := r.site.value;
    var s :| s in l && s.site == r.site;
    var i :| 0 <= i < |l| && l[i] == s;
    assert mod.Tracks(l[i]);
    assert TurnsDirect(mod, function_, v, sites[v]);
  }

  /** What the sweep tells the walk over the body. */
  lemma {:induction false} Swept(mod: Module, function_: seq<Option<Func>>, l0: Records, l: Records, body: seq<Value>,
                                 sites: Sites)
    requires Sweeping(mod, l0, l, |l|, sites) && InBody(mod, l0, body)
    ensures Syncing(mod, function_, l, body, 0, sites) && SameOthers(mod, l0, l)
    ensures Synced(mod, function_, l0, body) && l == l0 ==>
      AllMatch(mod, function_, body, 0, sites) && !AnyTurnsDirect(mod, function_, sites)
    ensures Devirtualizes(mod, function_, l0) ==> AnyTurnsDirect(mod, function_, sites)
  {
    SyncStarts(mod, function_, l0, l, body, sites);
    if Synced(mod, function_, l0, body) && l == l0 {
      MatchStarts(mod, function_, l, body, sites);
      NoneTurns(mod, function_, l, body, sites);
    }
    if Devirtualizes(mod, function_, l0) {
      DevirtualizesIsFound(mod, function_, l0, l, sites);
    }
  }

  /** What the two walks change together. */
  lemma {:induction false} BothWalks(mod: Module, m: nat, function0: seq<Option<Func>>, callees0: seq<Records>,
                                     callees1: seq<Records>, function2: seq<Option<Func>>, callees2: seq<Records>)
    requires m < |callees0| == |callees1| && callees1 == callees0[m := callees1[m]]
    requires OnlyChanges(m, function0, callees1, function2, callees2)
    requires SameOthers(mod, callees0[m], callees1[m]) && SameOthers(mod, callees1[m], callees2[m])
    ensures OnlyChanges(m, function0, callees0, function2, callees2) && SameOthers(mod, callees0[m], callees2[m])
  {
  }

  /** The calls that are recorded. */
  function RecordedCalls(mod: Module, l: Records): set<Value> {
    set r | r in l && mod.Tracks(r) :: r.site.value
  }

  /** Some recorded call that was indirect is now direct. */
  ghost predicate TurnsIn(mod: Module, function_: seq<Option<Func>>, l: Records) {
    exists r :: r in l && mod.Tracks(r) && TurnsDirect(mod, function_, r.site.value, r.target)
  }

  /** What a refresh of the node answers: among the records the sweep leaves is an indirect
      one of a call that is now direct; or there are more indirect records to remove than
      to add, and fewer direct ones. */
  ghost predicate Answers(mod: Module, function_: seq<Option<Func>>, l: Records, body: seq<Value>) {
    var kept := SweptList(mod, l);
    var recorded := RecordedCalls(mod, kept);
    TurnsIn(mod, function_, kept) ||
    (Count(function_, l, false) - Count(function_, kept, false) > Missing(mod, body, recorded, false) &&
     Count(function_, l, true) - Count(function_, kept, true) < Missing(mod, body, recorded, true))
  }

  lemma {:induction false} SitesRecorded(mod: Module, function_: seq<Option<Func>>, l0: Records, l: Records,
                                         sites: Sites)
    requires Sweeping(mod, l0, l, |l|, sites)
    ensures sites.Keys == RecordedCalls(mod, l)
    ensures AnyTurnsDirect(mod, function_, sites) <==> TurnsIn(mod, function_, l)
  {
    hide Kept, NoneGone;
    assert l[..|l|] == l;
    forall v: Value | v in sites
      ensures v in RecordedCalls(mod, l) && CallRecord(Some(v), sites[v]) in l
    {
      assert Recorded(mod, l[..|l|], v, sites[v]);
      assert mod.Tracks(CallRecord(Some(v), sites[v]));
    }
    forall r | r in l && mod.Tracks(r)
      ensures r.site.value in sites && sites[r.site.value] == r.target
    {
      var k :| 0 <= k < |l| && l[k] == r;
    }
    if AnyTurnsDirect(mod, function_, sites) {
      var v: Value :| v in sites && TurnsDirect(mod, function_, v, sites[v]);
      assert CallRecord(Some(v), sites[v]) in l && Recorded(mod, l[..|l|], v, sites[v]);
      assert mod.Tracks(CallRecord(Some(v), sites[v]));
    }
    if TurnsIn(mod, function_, l) {
      var r :| r in l && mod.Tracks(r) && TurnsDirect(mod, function_, r.site.value, r.target);
      assert TurnsDirect(mod, function_, r.site.value, sites[r.site.value]);
    }
  }

  lemma {:induction false} Answered(mod: Module, function_: seq<Option<Func>>, l0: Records, l: Records,
                                    body: seq<Value>, sites: Sites, directRemoved: nat, indirectRemoved: nat,
                                    directAdded: nat, indirectAdded: nat)
    requires Sweeping(mod, l0, l, |l|, sites) && l == SweptList(mod, l0)
    requires RemovedRight(function_, l0, l, directRemoved, indirectRemoved)
    requires AddedRight(mod, body, sites, directAdded, indirectAdded)
    ensures Answers(mod, function_, l0, body) <==>
            AnyTurnsDirect(mod, function_, sites) ||
            (indirectRemoved > indirectAdded && directRemoved < directAdded)
  {
    hide Sweeping, SweptList, Count, Missing, AnyTurnsDirect, TurnsIn, RecordedCalls;
    SitesRecorded(mod, function_, l0, l, sites);
  }

  /** New nodes change nothing in the answer. */
  lemma {:induction false} AnswersStill(mod: Module, function_: seq<Option<Func>>, more: seq<Option<Func>>, l: Records,
                                        body: seq<Value>)
    requires TargetsOk(function_, l) && |function_| <= |more| && more[..|function_|] == function_
    ensures Answers(mod, more, l, body) <==> Answers(mod, function_, l, body)
  {
    hide Missing, RecordedCalls;
    var kept := SweptList(mod, l);
    SweptInside(mod, l, 0, {});
    CountStays(function_, more, l, true);
    CountStays(function_, more, l, false);
    CountStays(function_, more, kept, true);
    CountStays(function_, more, kept, false);
    TurnsStays(mod, function_, more, kept);
  }

  lemma {:induction false} TurnsStays(mod: Module, function_: seq<Option<Func>>, more: seq<Option<Func>>, l: Records)
    requires TargetsInside(function_, l) && |function_| <= |more| && more[..|function_|] == function_
    ensures TurnsIn(mod, more, l) <==> TurnsIn(mod, function_, l)
  {
    forall r | r in l && mod.Tracks(r)
      ensures TurnsDirect(mod, more, r.site.value, r.target) <==> TurnsDirect(mod, function_, r.site.value, r.target)
    {
      TargetStays(mod, function_, more, r.site.value, r.target);
    }
  }

  ghost predicate TargetsInside(function_: seq<Option<Func>>, l: Records) {
    forall r :: r in l ==> r.target < |function_|
  }

  lemma {:induction false} CountStays(function_: seq<Option<Func>>, more: seq<Option<Func>>, l: Records, direct: bool)
    requires TargetsInside(function_, l) && |function_| <= |more| && more[..|function_|] == function_
    ensures Count(more, l, direct) == Count(function_, l, direct)
    decreases |l|
  {
    if l != [] {
      var r := l[|l| - 1];
      assert r in l && more[r.target] == more[..|function_|][r.target];
      assert TargetsInside(function_, l[..|l| - 1]);
      CountStays(function_, more, l[..|l| - 1], direct);
    }
  }

  /** The sweep adds no record. */
  lemma {:induction false} SweptInside(mod: Module, l: Records, i: nat, seen: set<Value>)
    requires i <= |l|
    ensures forall r :: r in SweptFrom(mod, l, i, seen) ==> r in l
    decreases |l| - i
  {
    if i < |l| {
      if mod.Gone(l[i]) || l[i].site.value in seen {
        SweptInside(mod, RemoveAt(l, i), i, seen);
        forall r | r in RemoveAt(l, i)
          ensures r in l
        {
          InRemoved(l, i, r);
        }
      } else {
        SweptInside(mod, l, i + 1, if mod.Tracks(l[i]) then seen + {l[i].site.value} else seen);
      }
    }
  }

  /** One function of the component. */
  method RefreshNode(g: CallGraph, mod: Module, m: nat, body: seq<Value>, callSites0: Sites)
    returns (callSites: Sites, devirtualized: bool)
    requires g.Valid() && m < |g.callees| && callSites0 == map[]
    requires NoRepeat(body) && InBody(mod, g.callees[m], body)
    modifies g
    ensures g.Valid() && OnlyChanges(m, old(g.function_), old(g.callees), g.function_, g.callees)
    ensures Synced(mod, g.function_, g.callees[m], body) && callSites == map[]
    ensures SameOthers(mod, old(g.callees)[m], g.callees[m])
    ensures Synced(mod, old(g.function_), old(g.callees)[m], body) ==> unchanged(g) && !devirtualized
    ensures Devirtualizes(mod, old(g.function_), old(g.callees)[m]) ==> devirtualized
    ensures devirtualized <==> Answers(mod, old(g.function_), old(g.callees)[m], body)
  {
    hide Answers, RemovedRight, AddedRight, Sweeping, Syncing;
    ghost var function0, l0, callees0 := g.function_, g.callees[m], g.callees;
    var directRemoved, indirectRemoved;
    callSites, directRemoved, indirectRemoved := Sweep(g, mod, m, callSites0);
    ghost var sites, l := callSites, g.callees[m];
    Swept(mod, function0, l0, l, body, sites);
    ghost var callees1 := g.callees;
    var directAdded, indirectAdded;
    callSites, directAdded, indirectAdded, devirtualized := Sync(g, mod, m, body, callSites);
    BothWalks(mod, m, function0, callees0, callees1, g.function_, g.callees);
    Answered(mod, function0, l0, l, body, sites, directRemoved, indirectRemoved, directAdded, indirectAdded);
    if indirectRemoved > indirectAdded && directRemoved < directAdded {
      devirtualized := true;
    }
  }

  /** A node in line has no indirect record of a direct call. */
  lemma {:induction false} NoneTurns(mod: Module, function_: seq<Option<Func>>, l: Records, body: seq<Value>,
                                     sites: Sites)
    requires Synced(mod, function_, l, body) && Syncing(mod, function_, l, body, 0, sites) &&
             AllMatch(mod, function_, body, 0, sites)
    ensures !AnyTurnsDirect(mod, function_, sites)
  {
    forall v: Value | v in sites
      ensures !TurnsDirect(mod, function_, v, sites[v])
    {
      assert Recorded(mod, l, v, sites[v]);
      assert v in body[0..];
    }
  }

  /** Every defined function of the component is in line. */
  ghost predicate AllSynced(mod: Module, function_: seq<Option<Func>>, callees: seq<Records>, scc: seq<nat>) {
    |callees| == |function_| && forall i :: 0 <= i < |scc| ==> NodeSynced(mod, function_, callees, scc[i])
  }

  ghost predicate NodeSynced(mod: Module, function_: seq<Option<Func>>, callees: seq<Records>, m: nat) {
    m < |callees| && (BodyOf(mod, function_, m).Some? ==>
                      Synced(mod, function_, callees[m], BodyOf(mod, function_, m).value))
  }

  /** What a refresh expects: no instruction is twice in a body, and call sites with
      a record are still in the body. */
  ghost predicate NodeReady(mod: Module, function_: seq<Option<Func>>, callees: seq<Records>, m: nat) {
    && m < |callees|
    && (BodyOf(mod, function_, m).Some? ==>
          NoRepeat(BodyOf(mod, function_, m).value) && InBody(mod, callees[m], BodyOf(mod, function_, m).value))
  }

  ghost predicate AnyDevirtualizes(mod: Module, function_: seq<Option<Func>>, callees: seq<Records>, scc: seq<nat>,
                                   n: nat)
    requires |callees| == |function_| && n <= |scc|
  {
    exists i :: 0 <= i < n && NodeDevirtualizes(mod, function_, callees, scc[i])
  }

  ghost predicate NodeAnswers(mod: Module, function_: seq<Option<Func>>, callees: seq<Records>, m: nat) {
    m < |callees| && BodyOf(mod, function_, m).Some? &&
    Answers(mod, function_, callees[m], BodyOf(mod, function_, m).value)
  }

  /** A refresh of one of the first `n` nodes of the component answers yes. */
  ghost predicate AnyAnswers(mod: Module, function_: seq<Option<Func>>, callees: seq<Records>, scc: seq<nat>, n: nat)
    requires n <= |scc|
  {
    exists i :: 0 <= i < n && NodeAnswers(mod, function_, callees, scc[i])
  }

  lemma {:induction false} NoneAnswers(mod: Module, function_: seq<Option<Func>>, callees: seq<Records>, scc: seq<nat>)
    ensures !AnyAnswers(mod, function_, callees, scc, 0)
  {
  }

  lemma {:induction false} AnyAnswersOn(mod: Module, function_: seq<Option<Func>>, callees: seq<Records>,
                                        scc: seq<nat>, n: nat)
    requires n < |scc|
    ensures AnyAnswers(mod, function_, callees, scc, n + 1) <==>
            AnyAnswers(mod, function_, callees, scc, n) || NodeAnswers(mod, function_, callees, scc[n])
  {
    hide NodeAnswers;
  }

  ghost predicate NodeDevirtualizes(mod: Module, function_: seq<Option<Func>>, callees: seq<Records>, m: nat) {
    m < |callees| && BodyOf(mod, function_, m).Some? && Devirtualizes(mod, function_, callees[m])
  }

  /** The first `i` nodes of the component are in line, with the edges they had of calls
      that need none; other nodes are as they were, and new ones have no edges. */
  ghost predicate Refreshing(mod: Module, scc: seq<nat>, i: nat, function0: seq<Option<Func>>, callees0: seq<Records>,
                             function1: seq<Option<Func>>, callees1: seq<Records>) {
    && i <= |scc| && |function0| == |callees0| <= |function1| == |callees1| && function1[..|function0|] == function0
    && (forall k :: 0 <= k < |callees0| && (k !in scc[..i] || BodyOf(mod, function0, k).None?) ==>
        callees1[k] == callees0[k])
    && (forall k :: |callees0| <= k < |callees1| ==> callees1[k] == [])
    && (forall k :: 0 <= k < |callees0| ==> SameOthers(mod, callees0[k], callees1[k]))
    && (forall j :: 0 <= j < i ==> NodeSynced(mod, function1, callees1, scc[j]))
  }

  lemma {:induction false} RefreshingOn(mod: Module, scc: seq<nat>, i: nat, function0: seq<Option<Func>>,
                                        callees0: seq<Records>, function1: seq<Option<Func>>, callees1: seq<Records>,
                                        function2: seq<Option<Func>>, callees2: seq<Records>)
    requires NoRepeat(scc) && i < |scc| && scc[i] < |callees0|
    requires Refreshing(mod, scc, i, function0, callees0, function1, callees1)
    requires OnlyChanges(scc[i], function1, callees1, function2, callees2)
    requires NodeSynced(mod, function2, callees2, scc[i]) && SameOthers(mod, callees1[scc[i]], callees2[scc[i]])
    requires BodyOf(mod, function0, scc[i]).None? ==> callees2 == callees1
    ensures Refreshing(mod, scc, i + 1, function0, callees0, function2, callees2)
  {
    assert scc[..i + 1] == scc[..i] + [scc[i]];
    assert function2[..|function0|] == function2[..|function1|][..|function0|];
    forall j | 0 <= j < i
      ensures NodeSynced(mod, function2, callees2, scc[j])
    {
      NodeStaysSynced(mod, scc[j], scc[i], function1, callees1, function2, callees2);
    }
    forall k | 0 <= k < |callees0|
      ensures SameOthers(mod, callees0[k], callees2[k])
    {
      assert SameOthers(mod, callees0[k], callees1[k]);
    }
  }

  lemma {:induction false} NodeStaysSynced(mod: Module, k: nat, m: nat, function1: seq<Option<Func>>,
                                           callees1: seq<Records>, function2: seq<Option<Func>>,
                                           callees2: seq<Records>)
    requires k != m && NodeSynced(mod, function1, callees1, k) &&
             OnlyChanges(m, function1, callees1, function2, callees2)
    ensures NodeSynced(mod, function2, callees2, k)
  {
    assert function2[k] == function2[..|function1|][k];
    if BodyOf(mod, function1, k).Some? {
      SyncedExtends(mod, function1, function2, callees1[k], BodyOf(mod, function1, k).value);
    }
  }

  lemma {:induction false} NothingChanges(m: nat, function_: seq<Option<Func>>, callees: seq<Records>)
    requires |function_| == |callees|
    ensures OnlyChanges(m, function_, callees, function_, callees)
  {
  }

  /** Brings every function of the component in line, ready for another refresh, which
      then changes nothing; true if an indirect call was found to be direct, or the
      numbers of edges removed and added suggest it. */
  method RefreshCallGraph(g: CallGraph, mod: Module, scc: seq<nat>) returns (devirtualized: bool)
    requires g.Valid() && NoRepeat(scc)
    requires forall i :: 0 <= i < |scc| ==> NodeReady(mod, g.function_, g.callees, scc[i])
    modifies g
    ensures g.Valid() && Refreshing(mod, scc, |scc|, old(g.function_), old(g.callees), g.function_, g.callees)
    ensures AllSynced(mod, g.function_, g.callees, scc)
    ensures forall i :: 0 <= i < |scc| ==> NodeReady(mod, g.function_, g.callees, scc[i])
    ensures old(AllSynced(mod, g.function_, g.callees, scc)) ==> unchanged(g) && !devirtualized
    ensures old(AnyDevirtualizes(mod, g.function_, g.callees, scc, |scc|)) ==> devirtualized
    ensures devirtualized <==> old(AnyAnswers(mod, g.function_, g.callees, scc, |scc|))
  {
    hide AnyAnswers, Answers, CountsRight, MapOk, Synced;
    var callSites: Sites := map[];
    devirtualized := false;
    ghost var function0, callees0 := g.function_, g.callees;
    NoneAnswers(mod, function0, callees0, scc);
    assert forall m :: 0 <= m < |callees0| ==> TargetsOk(function0, callees0[m]);
    for i := 0 to |scc|
      invariant g.Valid() && callSites == map[]
      invariant Refreshing(mod, scc, i, function0, callees0, g.function_, g.callees)
      invariant AllSynced(mod, function0, callees0, scc) ==> unchanged(g) && !devirtualized
      invariant AnyDevirtualizes(mod, function0, callees0, scc, i) ==> devirtualized
      invariant devirtualized <==> AnyAnswers(mod, function0, callees0, scc, i)
    {
      ghost var function1, callees1 := g.function_, g.callees;
      var m := scc[i];
      assert NodeReady(mod, function0, callees0, m);
      Untouched(mod, scc, i, function0, callees0, function1, callees1);
      AnyAnswersOn(mod, function0, callees0, scc, i);
      var body := BodyOf(mod, g.function_, m);
      if body.Some? {
        var devirtualizes;
        DevirtualizesStill(mod, function0, function1, callees0[m]);
        AnswersStill(mod, function0, function1, callees0[m], body.value);
        assert AllSynced(mod, function0, callees0, scc) ==> NodeSynced(mod, function0, callees0, scc[i]);
        callSites, devirtualizes := RefreshNode(g, mod, m, body.value, callSites);
        devirtualized := devirtualized || devirtualizes;
      } else {
        NothingChanges(m, function1, callees1);
      }
      RefreshingOn(mod, scc, i, function0, callees0, function1, callees1, g.function_, g.callees);
      if i % 16 == 15 {
        callSites := map[];
      }
    }
    forall i | 0 <= i < |scc|
      ensures NodeReady(mod, g.function_, g.callees, scc[i])
    {
      assert NodeReady(mod, function0, callees0, scc[i]);
      assert NodeSynced(mod, g.function_, g.callees, scc[i]);
      SyncedIsReady(mod, function0, callees0, g.function_, g.callees, scc[i]);
    }
  }

  /** A node still to come is as it was. */
  lemma {:induction false} Untouched(mod: Module, scc: seq<nat>, i: nat, function0: seq<Option<Func>>,
                                     callees0: seq<Records>, function1: seq<Option<Func>>, callees1: seq<Records>)
    requires NoRepeat(scc) && i < |scc| && scc[i] < |callees0| &&
             Refreshing(mod, scc, i, function0, callees0, function1, callees1)
    ensures callees1[scc[i]] == callees0[scc[i]] && BodyOf(mod, function1, scc[i]) == BodyOf(mod, function0, scc[i])
  {
    assert scc[i] !in scc[..i];
    assert function1[scc[i]] == function1[..|function0|][scc[i]];
  }

  lemma {:induction false} DevirtualizesStill(mod: Module, function_: seq<Option<Func>>, more: seq<Option<Func>>,
                                              l: Records)
    requires |function_| <= |more| && more[..|function_|] == function_
    ensures Devirtualizes(mod, function_, l) ==> Devirtualizes(mod, more, l)
  {
    if Devirtualizes(mod, function_, l) {
      var r :| r in l && mod.Tracks(r) && mod.callee(r.site.value).Some? && AllIndirect(function_, l, r.site);
      forall s | s in l && s.site == r.site
        ensures s.target < |more| && more[s.target].None?
      {
        assert more[s.target] == more[..|function_|][s.target];
      }
      assert AllIndirect(more, l, r.site);
    }
  }

  /** What is in line is ready. */
  lemma {:induction false} SyncedIsReady(mod: Module, function0: seq<Option<Func>>, callees0: seq<Records>,
                                         function1: seq<Option<Func>>, callees1: seq<Records>, m: nat)
    requires NodeReady(mod, function0, callees0, m) && NodeSynced(mod, function1, callees1, m)
    requires |callees0| <= |function0| <= |function1| && function1[..|function0|] == function0
    ensures NodeReady(mod, function1, callees1, m)
  {
    assert function1[m] == function1[..|function0|][m];
  }

  // ----- building -----

  /** The first `k` instructions have the edges they need. */
  ghost predicate Building(mod: Module, function_: seq<Option<Func>>, l: Records, body: seq<Value>, k: nat) {
    && k <= |body| && Clean(mod, l)
    && (forall r :: r in l && r.site.Some? ==> r.site.value in body[..k])
    && (forall v :: v in body[..k] && mod.Tracked(v) ==> HasEdge(mod, function_, l, v))
  }

  lemma {:induction false} BuildSkips(mod: Module, function_: seq<Option<Func>>, l: Records, body: seq<Value>, k: nat)
    requires NoRepeat(body) && Building(mod, function_, l, body, k) && k < |body| && !mod.Tracked(body[k])
    ensures Building(mod, function_, l, body, k + 1)
  {
    OneMore(body, k);
  }

  lemma {:induction false} BuildAdds(mod: Module, function_: seq<Option<Func>>, more: seq<Option<Func>>, l: Records,
                                     body: seq<Value>, k: nat, t: nat)
    requires NoRepeat(body) && Building(mod, function_, l, body, k) && k < |body|
    requires |function_| <= |more| && more[..|function_|] == function_
    requires !mod.Gone(CallRecord(Some(body[k]), t)) && (mod.Tracked(body[k]) ==> Right(mod, more, body[k], t))
    ensures Building(mod, more, l + [CallRecord(Some(body[k]), t)], body, k + 1)
  {
    var v, x := body[k], CallRecord(Some(body[k]), t);
    var l' := l + [x];
    OneMore(body, k);
    forall j | 0 <= j < |l|
      ensures l[j].site != x.site
    {
      assert l[j] in l;
    }
    forall u | u in body[..k + 1] && mod.Tracked(u)
      ensures HasEdge(mod, more, l', u)
    {
      if u == v {
        assert l'[|l|] == x;
      } else {
        var s: nat :| CallRecord(Some(u), s) in l && Right(mod, function_, u, s);
        assert more[s] == more[..|function_|][s];
        assert CallRecord(Some(u), s) in l';
      }
    }
  }

  /** Every function that is no intrinsic counts as a leaf. */
  ghost predicate LeavesOk(mod: Module) {
    forall f :: !mod.intrinsic(f) ==> mod.leaf(f)
  }

  /** Looks for calls by a function that has no edges yet: afterwards it is in line. */
  method AddCalls(g: CallGraph, mod: Module, n: nat, body: seq<Value>)
    requires g.Valid() && n < |g.callees| && g.callees[n] == [] && NoRepeat(body) && LeavesOk(mod)
    modifies g
    ensures g.Valid() && OnlyChanges(n, old(g.function_), old(g.callees), g.function_, g.callees)
    ensures Synced(mod, g.function_, g.callees[n], body)
  {
    ghost var function0, callees0 := g.function_, g.callees;
    for k := 0 to |body|
      invariant g.Valid() && OnlyChanges(n, function0, callees0, g.function_, g.callees)
      invariant Building(mod, g.function_, g.callees[n], body, k)
    {
      var v := body[k];
      ghost var function1, callees1, l := g.function_, g.callees, g.callees[n];
      var callee := mod.callee(v);
      if mod.isCall(v) && (callee.None? || !mod.leaf(callee.value)) {
        assert [CallRecord(Some(v), CALLS_EXTERNAL)][0] == CallRecord(Some(v), CALLS_EXTERNAL);
        g.AddCalledFunction(n, CallRecord(Some(v), CALLS_EXTERNAL));
        BuildAdds(mod, function1, g.function_, l, body, k, CALLS_EXTERNAL);
      } else if mod.isCall(v) && !mod.intrinsic(callee.value) {
        var t := CalleeNode(g, mod, n, v);
        OnlyChangesOn(n, function0, callees0, function1, callees1, g.function_, g.callees);
        g.AddCalledFunction(n, CallRecord(Some(v), t));
        BuildAdds(mod, function1, g.function_, l, body, k, t);
      } else {
        BuildSkips(mod, g.function_, l, body, k);
      }
    }
    assert body[..|body|] == body;
  }

  // ----- the whole graph -----

  function Callers(n: nat, localLinkage: bool, addressTaken: bool): Records {
    (if localLinkage then [] else [CallRecord(None, n)]) + (if addressTaken then [CallRecord(None, n)] else [])
  }

  /** Nodes other than `n` and the one that calls from outside are as they were, and new
      ones have no edges. */
  ghost predicate OthersStay(n: nat, function0: seq<Option<Func>>, callees0: seq<Records>,
                             function1: seq<Option<Func>>, callees1: seq<Records>) {
    && |function0| == |callees0| <= |function1| == |callees1| && function1[..|function0|] == function0
    && (forall k :: 0 <= k < |callees0| && k != n && k != EXTERNAL_CALLING ==> callees1[k] == callees0[k])
    && (forall k :: |callees0| <= k < |callees1| && k != n && k != EXTERNAL_CALLING ==> callees1[k] == [])
  }

  lemma {:induction false} OthersStayOn(n: nat, function0: seq<Option<Func>>, callees0: seq<Records>,
                                        function1: seq<Option<Func>>, callees1: seq<Records>,
                                        function2: seq<Option<Func>>, callees2: seq<Records>)
    requires OthersStay(n, function0, callees0, function1, callees1)
    requires OnlyChanges(n, function1, callees1, function2, callees2)
    ensures OthersStay(n, function0, callees0, function2, callees2)
  {
    assert function2[..|function0|] == function2[..|function1|][..|function0|];
  }

  /** Edges to a node from outside. */
  method AddCallers(g: CallGraph, n: nat, localLinkage: bool, addressTaken: bool)
    requires g.Valid() && n < |g.callees| && TargetsOk(g.function_, [CallRecord(None, n)])
    modifies g`callees, g`references
    ensures g.Valid() && g.callees == old(g.callees)[EXTERNAL_CALLING :=
              old(g.callees)[EXTERNAL_CALLING] + Callers(n, localLinkage, addressTaken)]
  {
    if !localLinkage {
      g.AddCalledFunction(EXTERNAL_CALLING, CallRecord(None, n));
    }
    if addressTaken {
      g.AddCalledFunction(EXTERNAL_CALLING, CallRecord(None, n));
    }
    assert g.callees[EXTERNAL_CALLING] ==
           old(g.callees)[EXTERNAL_CALLING] + Callers(n, localLinkage, addressTaken);
  }

  /** A function's node without edges, and who calls it from outside. */
  method AddNode(g: CallGraph, f: Func, localLinkage: bool, addressTaken: bool) returns (n: nat)
    requires g.Valid() && (f in g.functionMap ==> g.callees[g.functionMap[f]] == [])
    modifies g
    ensures g.Valid() && EXTERNAL_CALLING < n < |g.function_| && g.function_[n] == Some(f) && g.callees[n] == []
    ensures OthersStay(n, old(g.function_), old(g.callees), g.function_, g.callees)
    ensures g.callees[EXTERNAL_CALLING] == old(g.callees)[EXTERNAL_CALLING] + Callers(n, localLinkage, addressTaken)
  {
    ghost var callees0 := g.callees;
    n := g.GetOrInsertFunction(f);
    ghost var callees1 := g.callees;
    forall k | 0 <= k < |callees0|
      ensures callees1[k] == callees0[k]
    {
      assert callees1[k] == callees1[..|callees0|][k];
    }
    assert [CallRecord(None, n)][0] == CallRecord(None, n);
    AddCallers(g, n, localLinkage, addressTaken);
  }

  /** The edges of a function's node: one for each of its calls, or one to the outside if
      it is defined elsewhere. */
  ghost predicate FunctionDone(mod: Module, function_: seq<Option<Func>>, callees: seq<Records>, n: nat, f: Func) {
    && n < |callees| && n < |function_| && function_[n] == Some(f) && NodeSynced(mod, function_, callees, n)
    && (mod.body(f).None? ==> callees[n] == if mod.intrinsic(f) then [] else [CallRecord(None, CALLS_EXTERNAL)])
  }

  /** Adds a function whose node, if an earlier caller made one, has no edges yet: what
      calls it and what it calls. */
  method AddToCallGraph(g: CallGraph, mod: Module, f: Func, localLinkage: bool, addressTaken: bool) returns (n: nat)
    requires g.Valid() && (f in g.functionMap ==> g.callees[g.functionMap[f]] == []) && LeavesOk(mod)
    requires mod.body(f).Some? ==> NoRepeat(mod.body(f).value)
    modifies g
    ensures g.Valid() && n > EXTERNAL_CALLING && FunctionDone(mod, g.function_, g.callees, n, f)
    ensures OthersStay(n, old(g.function_), old(g.callees), g.function_, g.callees)
    ensures g.callees[EXTERNAL_CALLING] == old(g.callees)[EXTERNAL_CALLING] + Callers(n, localLinkage, addressTaken)
  {
    ghost var function0, callees0 := g.function_, g.callees;
    n := AddNode(g, f, localLinkage, addressTaken);
    ghost var function1, callees1 := g.function_, g.callees;
    var body := mod.body(f);
    match body {
      case None =>
        if !mod.intrinsic(f) {
          assert [CallRecord(None, CALLS_EXTERNAL)][0] == CallRecord(None, CALLS_EXTERNAL);
          g.AddCalledFunction(n, CallRecord(None, CALLS_EXTERNAL));
        }
      case Some(instructions) =>
        AddCalls(g, mod, n, instructions);
        assert g.function_[n] == g.function_[..|function1|][n];
    }
    OthersStayOn(n, function0, callees0, function1, callees1, g.function_, g.callees);
  }

  /** A node keeps its number when others are made. */
  lemma {:induction false} MapGrows(function0: seq<Option<Func>>, map0: map<Func, nat>, function1: seq<Option<Func>>,
                                    map1: map<Func, nat>, f: Func)
    requires MapOk(function0, map0) && MapOk(function1, map1) && f in map0
    requires |function0| <= |function1| && function1[..|function0|] == function0
    ensures f in map1 && map1[f] == map0[f]
  {
    assert function1[map0[f]] == function1[..|function0|][map0[f]];
  }

  ghost predicate FunctionBuilt(mod: Module, f: Func, function_: seq<Option<Func>>, functionMap: map<Func, nat>,
                                callees: seq<Records>) {
    f in functionMap && FunctionDone(mod, function_, callees, functionMap[f], f)
  }

  /** The first `i` functions are done, and no other node has edges. */
  ghost predicate Built(mod: Module, functions: seq<Func>, i: nat, function_: seq<Option<Func>>,
                        functionMap: map<Func, nat>, callees: seq<Records>) {
    && i <= |functions| && |function_| == |callees|
    && (forall j :: 0 <= j < i ==> FunctionBuilt(mod, functions[j], function_, functionMap, callees))
    && (forall k :: 0 <= k < |callees| && k != EXTERNAL_CALLING && callees[k] != [] ==>
          HasFunction(function_, k, functions[..i]))
  }

  predicate HasFunction(function_: seq<Option<Func>>, k: nat, functions: seq<Func>) {
    k < |function_| && function_[k].Some? && function_[k].value in functions
  }

  lemma {:induction false} DoneStays(mod: Module, n: nat, k: nat, f: Func, function1: seq<Option<Func>>,
                                     callees1: seq<Records>, function2: seq<Option<Func>>, callees2: seq<Records>)
    requires OthersStay(n, function1, callees1, function2, callees2) && k != n && k != EXTERNAL_CALLING
    requires FunctionDone(mod, function1, callees1, k, f)
    ensures FunctionDone(mod, function2, callees2, k, f)
  {
    assert function2[k] == function2[..|function1|][k];
    if mod.body(f).Some? {
      SyncedExtends(mod, function1, function2, callees1[k], mod.body(f).value);
    }
  }

  lemma {:induction false} BuiltOn(mod: Module, functions: seq<Func>, i: nat, n: nat, function1: seq<Option<Func>>,
                                   map1: map<Func, nat>, callees1: seq<Records>, function2: seq<Option<Func>>,
                                   map2: map<Func, nat>, callees2: seq<Records>)
    requires NoRepeat(functions) && i < |functions| && Built(mod, functions, i, function1, map1, callees1)
    requires MapOk(function1, map1) && MapOk(function2, map2)
    requires OthersStay(n, function1, callees1, function2, callees2) && n > EXTERNAL_CALLING
    requires EXTERNAL_CALLING < |function1| && function1[EXTERNAL_CALLING].None?
    requires FunctionDone(mod, function2, callees2, n, functions[i])
    ensures Built(mod, functions, i + 1, function2, map2, callees2)
  {
    forall j | 0 <= j < i + 1
      ensures FunctionBuilt(mod, functions[j], function2, map2, callees2)
    {
      if j < i {
        var f := functions[j];
        MapGrows(function1, map1, function2, map2, f);
        assert function2[map1[f]] == function2[..|function1|][map1[f]];
        DoneStays(mod, n, map1[f], f, function1, callees1, function2, callees2);
      }
    }
    assert functions[..i + 1] == functions[..i] + [functions[i]];
    forall k | 0 <= k < |callees2| && k != EXTERNAL_CALLING && callees2[k] != []
      ensures HasFunction(function2, k, functions[..i + 1])
    {
      if k < |callees1| {
        assert function2[k] == function2[..|function1|][k];
      }
    }
  }

  /** The edges from outside, function by function. */
  ghost function OutsideCallers(functionMap: map<Func, nat>, functions: seq<Func>, localLinkage: Func -> bool,
                                addressTaken: Func -> bool): Records
    requires forall f :: f in functions ==> f in functionMap
  {
    if functions == [] then []
    else
      var f := functions[|functions| - 1];
      OutsideCallers(functionMap, functions[..|functions| - 1], localLinkage, addressTaken) +
      Callers(functionMap[f], localLinkage(f), addressTaken(f))
  }

  lemma {:induction false} OutsideStays(map1: map<Func, nat>, map2: map<Func, nat>, functions: seq<Func>,
                                        localLinkage: Func -> bool, addressTaken: Func -> bool)
    requires forall f :: f in functions ==> f in map1 && f in map2 && map2[f] == map1[f]
    ensures OutsideCallers(map2, functions, localLinkage, addressTaken)
         == OutsideCallers(map1, functions, localLinkage, addressTaken)
    decreases |functions|
  {
    if functions != [] {
      OutsideStays(map1, map2, functions[..|functions| - 1], localLinkage, addressTaken);
    }
  }

  /** No two functions have one node. */
  ghost predicate OneNodeEach(functionMap: map<Func, nat>) {
    forall f, h :: f in functionMap && h in functionMap && functionMap[f] == functionMap[h] ==> f == h
  }

  lemma {:induction false} NodesDiffer(function_: seq<Option<Func>>, functionMap: map<Func, nat>)
    requires MapOk(function_, functionMap)
    ensures OneNodeEach(functionMap)
  {
  }

  /** How often a function is called from outside: once if others can see it, and once if
      its address is taken. */
  function TimesCalled(localLinkage: bool, addressTaken: bool): nat {
    if localLinkage && !addressTaken then 0 else if !localLinkage && addressTaken then 2 else 1
  }

  lemma {:induction false} OutsideCount(functionMap: map<Func, nat>, functions: seq<Func>, localLinkage: Func -> bool,
                                        addressTaken: Func -> bool, f: Func)
    requires NoRepeat(functions) && OneNodeEach(functionMap) && f in functionMap
    requires forall h :: h in functions ==> h in functionMap
    ensures var calls := OutsideCallers(functionMap, functions, localLinkage, addressTaken);
      multiset(calls)[CallRecord(None, functionMap[f])]
        == if f in functions then TimesCalled(localLinkage(f), addressTaken(f)) else 0
    decreases |functions|
  {
    if functions != [] {
      var n := |functions| - 1;
      var init, last := functions[..n], functions[n];
      assert functions == init + [last];
      OutsideCount(functionMap, init, localLinkage, addressTaken, f);
      CallersCount(functionMap[last], localLinkage(last), addressTaken(last), functionMap[f]);
      if f == last {
        assert last !in init;
      } else {
        assert f in functions <==> f in init;
      }
    }
  }

  lemma {:induction false} CallersCount(n: nat, localLinkage: bool, addressTaken: bool, m: nat)
    ensures multiset(Callers(n, localLinkage, addressTaken))[CallRecord(None, m)]
         == if m == n then TimesCalled(localLinkage, addressTaken) else 0
    ensures forall r :: r in Callers(n, localLinkage, addressTaken) ==> r == CallRecord(None, n)
  {
  }

  lemma {:induction false} OutsideOnly(functionMap: map<Func, nat>, functions: seq<Func>, localLinkage: Func -> bool,
                                       addressTaken: Func -> bool)
    requires forall h :: h in functions ==> h in functionMap
    ensures forall r :: r in OutsideCallers(functionMap, functions, localLinkage, addressTaken) ==>
      exists f :: f in functions && r == CallRecord(None, functionMap[f])
    decreases |functions|
  {
    if functions != [] {
      var n := |functions| - 1;
      OutsideOnly(functionMap, functions[..n], localLinkage, addressTaken);
      CallersCount(functionMap[functions[n]], localLinkage(functions[n]), addressTaken(functions[n]), 0);
    }
  }

  /** The node that calls from outside calls each function as often as it is to, and
      nothing else. */
  ghost predicate CalledFromOutside(functionMap: map<Func, nat>, functions: seq<Func>, localLinkage: Func -> bool,
                                    addressTaken: Func -> bool, calls: Records) {
    && (forall f :: f in functions ==> f in functionMap)
    && (forall f :: f in functions ==> multiset(calls)[CallRecord(None, functionMap[f])] ==
                                         TimesCalled(localLinkage(f), addressTaken(f)))
    && (forall r :: r in calls ==> exists f :: f in functions && r == CallRecord(None, functionMap[f]))
  }

  /** Every function has its node and edges, no other node has any, and the node that
      calls from outside calls just what can be called from there. */
  method BuildCallGraph(mod: Module, functions: seq<Func>, localLinkage: Func -> bool, addressTaken: Func -> bool)
    returns (g: CallGraph)
    requires NoRepeat(functions) && LeavesOk(mod)
    requires forall f :: f in functions && mod.body(f).Some? ==> NoRepeat(mod.body(f).value)
    ensures fresh(g) && g.Valid() && Built(mod, functions, |functions|, g.function_, g.functionMap, g.callees)
    ensures forall f :: f in functions ==> f in g.functionMap
    ensures g.callees[EXTERNAL_CALLING] == OutsideCallers(g.functionMap, functions, localLinkage, addressTaken)
    ensures CalledFromOutside(g.functionMap, functions, localLinkage, addressTaken, g.callees[EXTERNAL_CALLING])
  {
    hide MapOk, CalledFromOutside, OutsideCallers, CountsRight;
    g := new CallGraph();
    NoneOutside(g.functionMap, localLinkage, addressTaken);
    for i := 0 to |functions|
      invariant fresh(g) && g.Valid() && Built(mod, functions, i, g.function_, g.functionMap, g.callees)
      invariant forall f :: f in functions[..i] ==> f in g.functionMap
      invariant g.callees[EXTERNAL_CALLING] == OutsideCallers(g.functionMap, functions[..i], localLinkage, addressTaken)
    {
      AddFunction(g, mod, functions, i, localLinkage, addressTaken);
    }
    assert functions[..|functions|] == functions;
    NodesDiffer(g.function_, g.functionMap);
    OutsideRight(g.functionMap, functions, localLinkage, addressTaken);
  }

  lemma {:induction false} NoneOutside(functionMap: map<Func, nat>, localLinkage: Func -> bool,
                                       addressTaken: Func -> bool)
    ensures OutsideCallers(functionMap, [], localLinkage, addressTaken) == []
  {
  }

  lemma {:induction false} OutsideRight(functionMap: map<Func, nat>, functions: seq<Func>, localLinkage: Func -> bool,
                                        addressTaken: Func -> bool)
    requires NoRepeat(functions) && OneNodeEach(functionMap) && forall f :: f in functions ==> f in functionMap
    ensures CalledFromOutside(functionMap, functions, localLinkage, addressTaken,
                              OutsideCallers(functionMap, functions, localLinkage, addressTaken))
  {
    forall f | f in functions
      ensures multiset(OutsideCallers(functionMap, functions, localLinkage, addressTaken))[
                CallRecord(None, functionMap[f])] == TimesCalled(localLinkage(f), addressTaken(f))
    {
      OutsideCount(functionMap, functions, localLinkage, addressTaken, f);
    }
    OutsideOnly(functionMap, functions, localLinkage, addressTaken);
  }

  method AddFunction(g: CallGraph, mod: Module, functions: seq<Func>, i: nat, localLinkage: Func -> bool,
                     addressTaken: Func -> bool)
    requires g.Valid() && NoRepeat(functions) && LeavesOk(mod) && i < |functions|
    requires mod.body(functions[i]).Some? ==> NoRepeat(mod.body(functions[i]).value)
    requires Built(mod, functions, i, g.function_, g.functionMap, g.callees)
    requires forall f :: f in functions[..i] ==> f in g.functionMap
    requires g.callees[EXTERNAL_CALLING] == OutsideCallers(g.functionMap, functions[..i], localLinkage, addressTaken)
    modifies g
    ensures g.Valid() && Built(mod, functions, i + 1, g.function_, g.functionMap, g.callees)
    ensures forall f :: f in functions[..i + 1] ==> f in g.functionMap
    ensures g.callees[EXTERNAL_CALLING] ==
            OutsideCallers(g.functionMap, functions[..i + 1], localLinkage, addressTaken)
  {
    ghost var function1, map1, callees1 := g.function_, g.functionMap, g.callees;
    var f := functions[i];
    NotYetBuilt(mod, functions, i, function1, map1, callees1);
    var n := AddToCallGraph(g, mod, f, localLinkage(f), addressTaken(f));
    BuiltOn(mod, functions, i, n, function1, map1, callees1, g.function_, g.functionMap, g.callees);
    OutsideOn(functions, i, function1, map1, g.function_, g.functionMap, localLinkage, addressTaken);
  }

  lemma {:induction false} OutsideOn(functions: seq<Func>, i: nat, function1: seq<Option<Func>>, map1: map<Func, nat>,
                                     function2: seq<Option<Func>>, map2: map<Func, nat>, localLinkage: Func -> bool,
                                     addressTaken: Func -> bool)
    requires i < |functions| && MapOk(function1, map1) && MapOk(function2, map2) && functions[i] in map2
    requires |function1| <= |function2| && function2[..|function1|] == function1
    requires forall f :: f in functions[..i] ==> f in map1
    ensures forall f :: f in functions[..i + 1] ==> f in map2
    ensures OutsideCallers(map2, functions[..i + 1], localLinkage, addressTaken)
         == OutsideCallers(map1, functions[..i], localLinkage, addressTaken)
          + Callers(map2[functions[i]], localLinkage(functions[i]), addressTaken(functions[i]))
  {
    forall f | f in functions[..i]
      ensures f in map2 && map2[f] == map1[f]
    {
      MapGrows(function1, map1, function2, map2, f);
    }
    OutsideStays(map1, map2, functions[..i], localLinkage, addressTaken);
    assert functions[..i + 1][..i] == functions[..i] && functions[..i + 1][i] == functions[i];
    assert functions[..i + 1] == functions[..i] + [functions[i]];
  }

  /** The node of a function still to come, if there is one, has no edges. */
  lemma {:induction false} NotYetBuilt(mod: Module, functions: seq<Func>, i: nat, function_: seq<Option<Func>>,
                                       functionMap: map<Func, nat>, callees: seq<Records>)
    requires NoRepeat(functions) && i < |functions| && Built(mod, functions, i, function_, functionMap, callees)
    requires MapOk(function_, functionMap) && EXTERNAL_CALLING < |function_| && function_[EXTERNAL_CALLING].None?
    ensures functions[i] in functionMap ==> callees[functionMap[functions[i]]] == []
  {
    if functions[i] in functionMap {
      var k := functionMap[functions[i]];
      assert functions[i] !in functions[..i];
      assert !HasFunction(function_, k, functions[..i]);
    }
  }
}
