/** What the compiler promises about whole runs. */
module BrainFCorrectness {
  import opened BrainFLanguage
  import IR = BrainFIr
  import opened BrainFLayout
  import opened BrainFSimulation
  import opened BrainFCompiler

  /** What `malloc` can hand out: anything, inside the tape. */
  ghost predicate Garbage(cfg: Config, memory: map<int, int>) {
    forall a :: a in memory ==> 0 <= a < cfg.memtotal
  }

  function Source(text: string, cfg: Config, input: seq<int>, n: nat): State {
    Run(text, cfg, Initial(cfg, input), n)
  }

  function Target(f: Code, memory: map<int, int>, input: seq<int>, m: nat): IR.Machine {
    IR.Run(f, IR.Boot(memory, input), m)
  }

  // ----- the start -----

  lemma {:induction false} HeaderRuns(cfg: Config, f: Code, l: Loc, memory: map<int, int>, input: seq<int>)
    requires Header(cfg, f, l) && Garbage(cfg, memory)
    ensures Placed(cfg, Initial(cfg, input), Target(f, memory, input, l.pc), l)
    ensures IR.RunInside(f, IR.Boot(memory, input), l.pc, cfg.memtotal)
  {
    var t := IR.Boot(memory, input);
    var t1 := IR.Exec(f, t, IR.Malloc(ARR));
    var t2 := IR.Exec(f, t1, IR.Memset(ARR, cfg.memtotal));
    assert t2.memory == map[];
    var t3 := if cfg.bounds then IR.Exec(f, t2, IR.Gep(ARRMAX, ARR, cfg.memtotal)) else t2;
    var t4 := IR.Exec(f, t3, IR.Gep(l.head, ARR, cfg.memtotal / 2));
    NoSteps(f, t4, cfg.memtotal);
    StepThen(f, t3, t4, 0, cfg.memtotal);
    if cfg.bounds {
      StepThen(f, t2, t3, 1, cfg.memtotal);
    }
    StepThen(f, t1, t2, l.pc - 2, cfg.memtotal);
    StepThen(f, t, t1, l.pc - 1, cfg.memtotal);
  }

  // ----- arbitrarily far -----

  /** After at least `k` characters and `k` instructions the two runs are in the
      same place, or both are over. */
  ghost predicate InStep(text: string, cfg: Config, f: Code, at: map<nat, Loc>, input: seq<int>, memory: map<int, int>,
                         n: nat, m: nat)
  {
    var s, t := Source(text, cfg, input, n), Target(f, memory, input, m);
    && (Matches(cfg, at, s, t) || Ended(s, t))
    && (cfg.bounds ==> IR.RunInside(f, IR.Boot(memory, input), m, cfg.memtotal))
  }

  lemma {:induction false} OverStays(f: Code, t: IR.Machine, m: nat, size: int)
    requires t.status != IR.Executing
    ensures IR.RunInside(f, t, m, size)
  {
    forall k: nat | k < m
      ensures IR.AccessInside(f, IR.Run(f, t, k), size)
    {
      IR.RunEnded(f, t, k);
    }
  }

  lemma {:induction false} Further(text: string, cfg: Config, f: Code, at: map<nat, Loc>, item: map<nat, Item>,
                                   input: seq<int>, memory: map<int, int>, n: nat, m: nat)
    returns (n': nat, m': nat)
    requires Complete(text, cfg, f, at, item) && InStep(text, cfg, f, at, input, memory, n, m)
    ensures n' > n && m' > m && InStep(text, cfg, f, at, input, memory, n', m')
  {
    hide AllOk, Header, Footer, Matches, SameWorld, Run, IR.Run, IR.RunInside;
    var s0, t0 := Initial(cfg, input), IR.Boot(memory, input);
    var s, t := Run(text, cfg, s0, n), IR.Run(f, t0, m);
    var a, b := 1, 1;
    if Matches(cfg, at, s, t) {
      a, b := Advance(text, cfg, f, at, item, s, t);
    } else {
      RunEnded(text, cfg, s, 1);
      IR.RunEnded(f, t, 1);
      OverStays(f, t, 1, cfg.memtotal);
    }
    n', m' := n + a, m + b;
    RunSplit(text, cfg, s0, n, a);
    IR.RunSplit(f, t0, m, b);
    if cfg.bounds {
      IR.RunInsideSplit(f, t0, m, b, cfg.memtotal);
    }
  }

  lemma {:induction false} ArbitrarilyFar(text: string, cfg: Config, f: Code, at: map<nat, Loc>, item: map<nat, Item>,
                                          input: seq<int>, memory: map<int, int>, k: nat)
    returns (n: nat, m: nat)
    requires Complete(text, cfg, f, at, item) && Garbage(cfg, memory) && (cfg.bounds ==> cfg.memtotal > 0)
    ensures n >= k && m >= k && InStep(text, cfg, f, at, input, memory, n, m)
    decreases k
  {
    if k == 0 {
      n, m := 0, at[0].pc;
      HeaderRuns(cfg, f, at[0], memory, input);
    } else {
      n, m := ArbitrarilyFar(text, cfg, f, at, item, input, memory, k - 1);
      n, m := Further(text, cfg, f, at, item, input, memory, n, m);
    }
  }

  // ----- the theorem -----

  ghost predicate SourceEnds(text: string, cfg: Config, f: Code, input: seq<int>, memory: map<int, int>, n: nat) {
    exists m :: Ended(Source(text, cfg, input, n), Target(f, memory, input, m))
  }

  ghost predicate TargetEnds(text: string, cfg: Config, f: Code, input: seq<int>, memory: map<int, int>, m: nat) {
    exists n :: Ended(Source(text, cfg, input, n), Target(f, memory, input, m))
  }

  ghost predicate SourceReached(text: string, cfg: Config, f: Code, input: seq<int>, memory: map<int, int>, n: nat) {
    exists m :: Source(text, cfg, input, n).output <= Target(f, memory, input, m).output
  }

  ghost predicate TargetReached(text: string, cfg: Config, f: Code, input: seq<int>, memory: map<int, int>, m: nat) {
    exists n :: Target(f, memory, input, m).output <= Source(text, cfg, input, n).output
  }

  /** The two runs on one input agree.  Neither side ends without the other, and
      then output, tape and unread input are the same; and since each output is
      caught up with by the other side, this also compares runs that never end. */
  ghost predicate Behaves(text: string, cfg: Config, f: Code, input: seq<int>, memory: map<int, int>) {
    && (forall m :: Target(f, memory, input, m).status != IR.Stuck)
    && (forall n :: Source(text, cfg, input, n).status != Running ==> SourceEnds(text, cfg, f, input, memory, n))
    && (forall m :: Target(f, memory, input, m).status == IR.Returned ==> TargetEnds(text, cfg, f, input, memory, m))
    && (forall n :: SourceReached(text, cfg, f, input, memory, n))
    && (forall m :: TargetReached(text, cfg, f, input, memory, m))
  }

  ghost predicate Implements(text: string, cfg: Config, f: Code) {
    forall input, memory :: Garbage(cfg, memory) ==> Behaves(text, cfg, f, input, memory)
  }

  /** No load or store of any run leaves the tape. */
  ghost predicate StaysInside(cfg: Config, f: Code) {
    forall input, memory, m :: Garbage(cfg, memory) ==> IR.AccessInside(f, Target(f, memory, input, m), cfg.memtotal)
  }

  /** What an early state has to do with a later pair in step. */
  lemma {:induction false} Earlier(text: string, cfg: Config, f: Code, at: map<nat, Loc>, input: seq<int>,
                                   memory: map<int, int>, n: nat, m: nat, k: nat)
    requires InStep(text, cfg, f, at, input, memory, n, m)
    ensures k <= n ==> Source(text, cfg, input, k).output <= Target(f, memory, input, m).output
    ensures k <= n && Source(text, cfg, input, k).status != Running ==>
      Ended(Source(text, cfg, input, k), Target(f, memory, input, m))
    ensures k <= m ==> Target(f, memory, input, k).output <= Source(text, cfg, input, n).output
    ensures k <= m ==> Target(f, memory, input, k).status != IR.Stuck
    ensures k <= m && Target(f, memory, input, k).status == IR.Returned ==>
      Ended(Source(text, cfg, input, n), Target(f, memory, input, k))
  {
    if k <= n {
      RunSplit(text, cfg, Initial(cfg, input), k, n - k);
      RunOutput(text, cfg, Source(text, cfg, input, k), n - k);
      if Source(text, cfg, input, k).status != Running {
        RunEnded(text, cfg, Source(text, cfg, input, k), n - k);
      }
    }
    if k <= m {
      IR.RunSplit(f, IR.Boot(memory, input), k, m - k);
      IR.RunOutput(f, Target(f, memory, input, k), m - k);
      if Target(f, memory, input, k).status != IR.Executing {
        IR.RunEnded(f, Target(f, memory, input, k), m - k);
      }
    }
  }

  /** A later pair in step, for any point of either run. */
  lemma {:induction false} Later(text: string, cfg: Config, f: Code, at: map<nat, Loc>, item: map<nat, Item>,
                                 input: seq<int>, memory: map<int, int>, k: nat)
    returns (n: nat, m: nat)
    requires Complete(text, cfg, f, at, item) && Garbage(cfg, memory) && (cfg.bounds ==> cfg.memtotal > 0)
    ensures Source(text, cfg, input, k).output <= Target(f, memory, input, m).output
    ensures Source(text, cfg, input, k).status != Running ==>
      Ended(Source(text, cfg, input, k), Target(f, memory, input, m))
    ensures Target(f, memory, input, k).output <= Source(text, cfg, input, n).output
    ensures Target(f, memory, input, k).status != IR.Stuck
    ensures Target(f, memory, input, k).status == IR.Returned ==>
      Ended(Source(text, cfg, input, n), Target(f, memory, input, k))
    ensures cfg.bounds ==> IR.AccessInside(f, Target(f, memory, input, k), cfg.memtotal)
  {
    n, m := ArbitrarilyFar(text, cfg, f, at, item, input, memory, k + 1);
    Earlier(text, cfg, f, at, input, memory, n, m, k);
  }

  lemma {:induction false} CompleteBehaves(text: string, cfg: Config, f: Code, at: map<nat, Loc>, item: map<nat, Item>,
                                           input: seq<int>, memory: map<int, int>)
    requires Complete(text, cfg, f, at, item) && Garbage(cfg, memory) && (cfg.bounds ==> cfg.memtotal > 0)
    ensures Behaves(text, cfg, f, input, memory)
  {
    forall k: nat
      ensures Target(f, memory, input, k).status != IR.Stuck
      ensures Target(f, memory, input, k).status == IR.Returned ==> TargetEnds(text, cfg, f, input, memory, k)
      ensures TargetReached(text, cfg, f, input, memory, k)
    {
      var n, _ := Later(text, cfg, f, at, item, input, memory, k);
    }
    forall k: nat
      ensures Source(text, cfg, input, k).status != Running ==> SourceEnds(text, cfg, f, input, memory, k)
      ensures SourceReached(text, cfg, f, input, memory, k)
    {
      var _, m := Later(text, cfg, f, at, item, input, memory, k);
    }
  }

  /** Every complete translation behaves like the program it translates; with
      bounds checking on, for every tape that has a cell. */
  lemma {:induction false} CompleteImplements(text: string, cfg: Config, f: Code, at: map<nat, Loc>,
                                              item: map<nat, Item>)
    requires Complete(text, cfg, f, at, item) && (cfg.bounds ==> cfg.memtotal > 0)
    ensures Implements(text, cfg, f)
    ensures cfg.bounds ==> StaysInside(cfg, f)
  {
    forall input, memory | Garbage(cfg, memory)
      ensures Behaves(text, cfg, f, input, memory)
    {
      CompleteBehaves(text, cfg, f, at, item, input, memory);
    }
    if cfg.bounds {
      forall input, memory, m | Garbage(cfg, memory)
        ensures IR.AccessInside(f, Target(f, memory, input, m), cfg.memtotal)
      {
        var _, _ := Later(text, cfg, f, at, item, input, memory, m);
      }
    }
  }

  // ----- a tape without cells -----

  /** The first command, if there is one, moves the head. */
  ghost predicate MovesFirst(text: string) {
    exists j :: 0 <= j <= |text| && Quiet(text, 0, j) && (j == |text| || IsMove(text[j]))
  }

  lemma {:induction false} FirstCommand(text: string, i: nat, j: nat)
    requires Quiet(text, 0, i) && i < j <= |text| && IsMove(text[j - 1])
    requires forall k :: i <= k < j ==> IsMove(text[k]) || !IsCommand(text[k])
    ensures MovesFirst(text)
    decreases j - i
  {
    if !IsMove(text[i]) {
      FirstCommand(text, i + 1, j);
    }
  }

  lemma {:induction false} StartsWithMove(text: string, cfg: Config, f: Code, at: map<nat, Loc>, item: map<nat, Item>)
    requires Complete(text, cfg, f, at, item)
    ensures !item[0].EndLoop?
    ensures MovesFirst(text) <==> item[0].Move? || item[0].Halt?
  {
    hide AllOk, Header, Footer, InstrAt, LoopEdges, LoopTest, Delta;
    Instantiate(text, cfg, f, at, item, 0);
    var it := item[0];
    if it.Move? {
      var k :| 0 <= k < it.next && IsMove(text[k]);
      FirstCommand(text, 0, k + 1);
    } else if it.EndLoop? {
      Instantiate(text, cfg, f, at, item, it.opening);
    }
  }

  lemma {:induction false} FirstStore(text: string, cfg: Config, f: Code, at: map<nat, Loc>, s: State, t: IR.Machine,
                                      it: Item)
    requires cfg.memtotal == 0 && s.pc in at && Placed(cfg, s, t, at[s.pc])
    requires it.Read? && ReadOk(text, cfg, f, at, s.pc, it)
    ensures !IR.AccessInside(f, IR.Run(f, t, 2), 0)
  {
    hide IR.RunInside, Quiet;
    var t1 := IR.Exec(f, t, IR.Getchar(it.t0));
    var t2 := IR.Exec(f, t1, IR.Trunc(it.t1, it.t0));
    assert IR.Run(f, t, 2) == IR.Run(f, t1, 1) == IR.Run(f, t2, 0) == t2;
  }

  lemma {:induction false} FirstLoad(text: string, cfg: Config, f: Code, at: map<nat, Loc>, s: State, t: IR.Machine,
                                     it: Item)
    requires cfg.memtotal == 0 && s.pc in at && Placed(cfg, s, t, at[s.pc])
    requires it.Loop? && LoopOk(text, cfg, f, at, s.pc, it)
    ensures !IR.AccessInside(f, IR.Run(f, t, 1), 0)
  {
    hide IR.RunInside, IR.Run, IR.Step, LoopText;
    var u := EntersTest(cfg, f, s, t, it.test, at[s.pc], at[it.closing], at[it.next], at[s.pc]);
  }

  /** Without a cell, the first access is already outside. */
  lemma {:induction false} FirstAccess(text: string, cfg: Config, f: Code, at: map<nat, Loc>, s: State, t: IR.Machine,
                                       it: Item)
    returns (k: nat)
    requires cfg.memtotal == 0 && s.pc in at && Placed(cfg, s, t, at[s.pc])
    requires match it
      case Read(_, _, _) => ReadOk(text, cfg, f, at, s.pc, it)
      case Write(_, _, _) => WriteOk(text, cfg, f, at, s.pc, it)
      case Change(_, _, _, _) => ChangeOk(text, cfg, f, at, s.pc, it)
      case Loop(_, _, _, _, _) => LoopOk(text, cfg, f, at, s.pc, it)
      case _ => false
    ensures !IR.AccessInside(f, IR.Run(f, t, k), 0)
  {
    hide ReadOk, LoopOk, Quiet, ChangeRun, Delta;
    k := 0;
    match it {
      case Read(_, _, _) =>
        FirstStore(text, cfg, f, at, s, t, it);
        k := 2;
      case Loop(_, _, _, _, _) =>
        FirstLoad(text, cfg, f, at, s, t, it);
        k := 1;
      case _ =>
    }
  }

  lemma {:induction false} EmptyTapeBreaks(text: string, cfg: Config, f: Code, at: map<nat, Loc>, item: map<nat, Item>)
    requires cfg.bounds && cfg.memtotal == 0 && Complete(text, cfg, f, at, item)
    requires !item[0].Move? && !item[0].Halt? && !item[0].EndLoop?
    ensures !StaysInside(cfg, f)
  {
    HeaderRuns(cfg, f, at[0], map[], []);
    var t := Target(f, map[], [], at[0].pc);
    Instantiate(text, cfg, f, at, item, 0);
    var k := FirstAccess(text, cfg, f, at, Initial(cfg, []), t, item[0]);
    IR.RunSplit(f, IR.Boot(map[], []), at[0].pc, k);
    assert !IR.AccessInside(f, Target(f, map[], [], at[0].pc + k), cfg.memtotal);
  }

  /** A first move, or the end, leads out of the program without an access. */
  lemma {:induction false} NoAccess(text: string, cfg: Config, f: Code, at: map<nat, Loc>, s: State, t: IR.Machine,
                                    it: Item)
    returns (k: nat)
    requires cfg.bounds && cfg.memtotal == 0 && Footer(cfg, f) && s.pc in at && Placed(cfg, s, t, at[s.pc])
    requires it.Move? || it.Halt?
    requires it.Move? ==> MoveOk(text, cfg, f, at, s.pc, it)
    requires it.Halt? ==> InstrAt(f, at[s.pc].block, at[s.pc].pc, IR.Br(END))
    ensures IR.RunInside(f, t, k, 0) && IR.Run(f, t, k).status == IR.Returned
  {
    if it.Move? {
      var next := at[it.next];
      var u := CheckedMoveRuns(cfg, f, t, at[s.pc].head, next.head, it.t0, it.t1, it.t2, it.value, next.block);
      ErrorRuns(cfg, f, u);
      k := 9;
      IR.RunSplit(f, t, 5, 4);
      IR.RunInsideSplit(f, t, 5, 4, 0);
    } else {
      var u := IR.Exec(f, t, IR.Br(END));
      EndRuns(cfg, f, u);
      StepThen(f, t, u, 2, 0);
      k := 3;
    }
  }

  lemma {:induction false} InsideForever(f: Code, t: IR.Machine, end: nat, m: nat, size: int)
    requires IR.RunInside(f, t, end, size) && IR.Run(f, t, end).status == IR.Returned
    ensures IR.AccessInside(f, IR.Run(f, t, m), size)
  {
    if m >= end {
      var u := IR.Run(f, t, end);
      IR.RunSplit(f, t, end, m - end);
      IR.RunEnded(f, u, m - end);
      assert IR.Run(f, t, m).status == IR.Returned;
    }
  }

  lemma {:induction false} EmptyTapeHolds(text: string, cfg: Config, f: Code, at: map<nat, Loc>, item: map<nat, Item>,
                                          input: seq<int>, memory: map<int, int>, m: nat)
    requires cfg.bounds && cfg.memtotal == 0 && Complete(text, cfg, f, at, item) && Garbage(cfg, memory)
    requires item[0].Move? || item[0].Halt?
    ensures IR.AccessInside(f, Target(f, memory, input, m), 0)
  {
    hide AllOk, Header, InstrAt, MoveOk, Placed, IR.Run, IR.RunInside, IR.AccessInside, Quiet;
    var l, t0 := at[0], IR.Boot(memory, input);
    HeaderRuns(cfg, f, l, memory, input);
    Instantiate(text, cfg, f, at, item, 0);
    var k := NoAccess(text, cfg, f, at, Initial(cfg, input), IR.Run(f, t0, l.pc), item[0]);
    IR.RunSplit(f, t0, l.pc, k);
    IR.RunInsideSplit(f, t0, l.pc, k, 0);
    InsideForever(f, t0, l.pc + k, m, 0);
  }

  /** Bounds checking keeps every access on the tape exactly when the tape has a
      cell, or when the program's first command is one the checks come with. */
  lemma {:induction false} BoundsCheckingWorks(text: string, cfg: Config, f: Code, at: map<nat, Loc>,
                                               item: map<nat, Item>)
    requires cfg.bounds && Complete(text, cfg, f, at, item)
    ensures StaysInside(cfg, f) <==> cfg.memtotal > 0 || MovesFirst(text)
  {
    StartsWithMove(text, cfg, f, at, item);
    if cfg.memtotal > 0 {
      CompleteImplements(text, cfg, f, at, item);
    } else if MovesFirst(text) {
      forall input, memory, m | Garbage(cfg, memory)
        ensures IR.AccessInside(f, Target(f, memory, input, m), cfg.memtotal)
      {
        EmptyTapeHolds(text, cfg, f, at, item, input, memory, m);
      }
    } else {
      EmptyTapeBreaks(text, cfg, f, at, item);
    }
  }

  /** Compiling a program: it fails exactly on unbalanced brackets, with the
      error found first, and otherwise yields code that behaves like it. */
  method Parse(text: string, cfg: Config) returns (r: Outcome, module_: Code)
    ensures r == if Scan(text, 0, 0) == Balanced then Done else Abort(Scan(text, 0, 0))
    ensures r.Done? && (cfg.bounds ==> cfg.memtotal > 0) ==> Implements(text, cfg, module_)
    ensures r.Done? && cfg.bounds ==> (StaysInside(cfg, module_) <==> cfg.memtotal > 0 || MovesFirst(text))
  {
    var compiler := new BrainF(text, cfg);
    r := compiler.Parse();
    module_ := compiler.blocks;
    if r.Done? {
      if cfg.bounds ==> cfg.memtotal > 0 {
        CompleteImplements(text, cfg, module_, compiler.at, compiler.item);
      }
      if cfg.bounds {
        BoundsCheckingWorks(text, cfg, module_, compiler.at, compiler.item);
      }
    }
  }
}
