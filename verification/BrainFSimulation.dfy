/** The emitted code does what the program says, boundary by boundary. */
module BrainFSimulation {
  import opened BrainFLanguage
  import IR = BrainFIr
  import opened BrainFLayout

  type Code = seq<IR.Block>

  /** The tape's limits are where the header put them. */
  ghost predicate Limits(cfg: Config, env: map<nat, int>) {
    && ARR in env && env[ARR] == 0
    && (cfg.bounds ==> ARRMAX in env && env[ARRMAX] == cfg.memtotal)
  }

  ghost predicate BytesOnly(tape: map<int, int>) {
    forall a :: a in tape ==> 0 <= tape[a] < 256
  }

  /** Same tape, same input still to come, same output so far. */
  ghost predicate SameWorld(s: State, t: IR.Machine) {
    t.memory == s.tape && t.input == s.input && t.output == s.output
  }

  /** The machine is about to execute the code at `l`, and the register there
      holds the program's head. */
  ghost predicate Placed(cfg: Config, s: State, t: IR.Machine, l: Loc) {
    && s.status == Running && t.status == IR.Executing
    && t.block == l.block && t.pc == l.pc
    && l.head in t.env && t.env[l.head] == s.head
    && Limits(cfg, t.env) && SameWorld(s, t) && BytesOnly(s.tape)
  }

  ghost predicate AtLoc(cfg: Config, s: State, t: IR.Machine, l: Loc) {
    Placed(cfg, s, t, l) && (cfg.bounds ==> 0 <= s.head < cfg.memtotal)
  }

  ghost predicate Matches(cfg: Config, at: map<nat, Loc>, s: State, t: IR.Machine) {
    s.pc in at && AtLoc(cfg, s, t, at[s.pc])
  }

  ghost predicate Ended(s: State, t: IR.Machine) {
    s.status != Running && t.status == IR.Returned && SameWorld(s, t)
  }

  /** From a matched pair, `n` characters and `m` instructions lead to the next. */
  ghost predicate Advances(text: string, cfg: Config, f: Code, at: map<nat, Loc>, s: State, t: IR.Machine, n: nat,
                           m: nat) {
    && n > 0 && m > 0
    && (Matches(cfg, at, Run(text, cfg, s, n), IR.Run(f, t, m)) || Ended(Run(text, cfg, s, n), IR.Run(f, t, m)))
    && (cfg.bounds ==> IR.RunInside(f, t, m, cfg.memtotal))
  }

  // ----- what stretches of text do -----

  lemma {:induction false} QuietRun(text: string, cfg: Config, s: State, j: nat)
    requires s.status == Running && s.pc <= j && Quiet(text, s.pc, j)
    ensures Run(text, cfg, s, j - s.pc) == s.(pc := j)
    decreases j - s.pc
  {
    if s.pc < j {
      assert Step(text, cfg, s) == s.(pc := s.pc + 1);
      QuietRun(text, cfg, s.(pc := s.pc + 1), j);
    }
  }

  /** Quiet text and then one more character. */
  lemma {:induction false} QuietThen(text: string, cfg: Config, s: State, j: nat)
    requires s.status == Running && s.pc <= j && Quiet(text, s.pc, j)
    ensures Run(text, cfg, s, j - s.pc + 1) == Step(text, cfg, s.(pc := j))
  {
    QuietRun(text, cfg, s, j);
    RunSplit(text, cfg, s, j - s.pc, 1);
    assert Run(text, cfg, s.(pc := j), 1) == Step(text, cfg, s.(pc := j));
  }

  /** The tape after the changes in `text[i..j]`. */
  function Changed(text: string, tape: map<int, int>, h: int, i: nat, j: nat): map<int, int>
    requires i <= j <= |text|
    decreases j
  {
    if i == j then tape
    else if IsChange(text[j - 1]) then tape[h := (Cell(tape, h) + Delta(text, i, j, '+', '-')) % 256]
    else Changed(text, tape, h, i, j - 1)
  }

  lemma {:induction false} ChangedOnce(text: string, tape: map<int, int>, h: int, i: nat, j: nat)
    requires i <= j <= |text|
    requires exists k :: i <= k < j && IsChange(text[k])
    ensures Changed(text, tape, h, i, j) == tape[h := (Cell(tape, h) + Delta(text, i, j, '+', '-')) % 256]
    decreases j
  {
    if !IsChange(text[j - 1]) {
      ChangedOnce(text, tape, h, i, j - 1);
    }
  }

  lemma {:induction false} ChangedCell(text: string, tape: map<int, int>, h: int, i: nat, j: nat)
    requires i <= j <= |text| && BytesOnly(tape)
    requires forall k :: i <= k < j ==> IsChange(text[k]) || !IsCommand(text[k])
    ensures Cell(Changed(text, tape, h, i, j), h) == (Cell(tape, h) + Delta(text, i, j, '+', '-')) % 256
    decreases j
  {
    if i < j && !IsChange(text[j - 1]) {
      ChangedCell(text, tape, h, i, j - 1);
    }
  }

  lemma {:induction false} ChangesRun(text: string, cfg: Config, s: State, j: nat)
    requires s.status == Running && s.pc <= j <= |text| && BytesOnly(s.tape)
    requires cfg.bounds ==> 0 <= s.head < cfg.memtotal
    requires forall k :: s.pc <= k < j ==> IsChange(text[k]) || !IsCommand(text[k])
    ensures Run(text, cfg, s, j - s.pc) == s.(pc := j, tape := Changed(text, s.tape, s.head, s.pc, j))
    decreases j
  {
    if s.pc < j {
      ChangesRun(text, cfg, s, j - 1);
      RunSplit(text, cfg, s, j - 1 - s.pc, 1);
      var u := s.(pc := j - 1, tape := Changed(text, s.tape, s.head, s.pc, j - 1));
      assert Run(text, cfg, u, 1) == Step(text, cfg, u);
      ChangeStep(text, cfg, s, u, j);
    }
  }

  lemma {:induction false} ChangedByOne(text: string, c: int, i: nat, j: nat)
    requires i < j <= |text| && IsChange(text[j - 1])
    ensures var sign := if text[j - 1] == '+' then 1 else -1;
      ((c + Delta(text, i, j - 1, '+', '-')) % 256 + sign) % 256 == (c + Delta(text, i, j, '+', '-')) % 256
  {
  }

  lemma {:induction false} ChangeStep(text: string, cfg: Config, s: State, u: State, j: nat)
    requires s.status == Running && s.pc < j <= |text| && BytesOnly(s.tape)
    requires cfg.bounds ==> 0 <= s.head < cfg.memtotal
    requires forall k :: s.pc <= k < j ==> IsChange(text[k]) || !IsCommand(text[k])
    requires u == s.(pc := j - 1, tape := Changed(text, s.tape, s.head, s.pc, j - 1))
    ensures Step(text, cfg, u) == s.(pc := j, tape := Changed(text, s.tape, s.head, s.pc, j))
  {
    hide Delta;
    ChangedCell(text, s.tape, s.head, s.pc, j - 1);
    assert !HeadLost(text, cfg, u);
    if IsChange(text[j - 1]) {
      ChangedAgain(text, s.tape, s.head, s.pc, j);
      ChangedByOne(text, Cell(s.tape, s.head), s.pc, j);
      assert Step(text, cfg, u) ==
             u.(pc := j, tape := u.tape[s.head := (Cell(s.tape, s.head) + Delta(text, s.pc, j, '+', '-')) % 256]);
    } else {
      assert Step(text, cfg, u) == u.(pc := j);
    }
  }

  lemma {:induction false} ChangedAgain(text: string, tape: map<int, int>, h: int, i: nat, j: nat)
    requires i < j <= |text| && IsChange(text[j - 1])
    ensures Changed(text, tape, h, i, j)
         == Changed(text, tape, h, i, j - 1)[h := (Cell(tape, h) + Delta(text, i, j, '+', '-')) % 256]
    decreases j
  {
    if exists k :: i <= k < j - 1 && IsChange(text[k]) {
      ChangedOnce(text, tape, h, i, j - 1);
    } else {
      Unchanged(text, tape, h, i, j - 1);
    }
  }

  lemma {:induction false} Unchanged(text: string, tape: map<int, int>, h: int, i: nat, j: nat)
    requires i <= j <= |text| && !exists k :: i <= k < j && IsChange(text[k])
    ensures Changed(text, tape, h, i, j) == tape
    decreases j
  {
    if i < j {
      Unchanged(text, tape, h, i, j - 1);
    }
  }

  lemma {:induction false} MovesRun(text: string, cfg: Config, s: State, j: nat)
    requires s.status == Running && s.pc <= j <= |text|
    requires forall k :: s.pc <= k < j ==> IsMove(text[k]) || !IsCommand(text[k])
    ensures Run(text, cfg, s, j - s.pc) == s.(pc := j, head := s.head + Delta(text, s.pc, j, '>', '<'))
    decreases j
  {
    if s.pc < j {
      MovesRun(text, cfg, s, j - 1);
      RunSplit(text, cfg, s, j - 1 - s.pc, 1);
      var u := s.(pc := j - 1, head := s.head + Delta(text, s.pc, j - 1, '>', '<'));
      assert Run(text, cfg, u, 1) == Step(text, cfg, u);
    }
  }

  // ----- what the code of each symbol does -----

  /** Three instructions in a row, seen one at a time. */
  lemma {:induction false} ThreeSteps(f: Code, t: IR.Machine, t1: IR.Machine, t2: IR.Machine, t3: IR.Machine, size: int)
    requires t1 == IR.Step(f, t) && t2 == IR.Step(f, t1) && t3 == IR.Step(f, t2)
    ensures IR.Run(f, t, 3) == t3
    ensures (IR.AccessInside(f, t, size) && IR.AccessInside(f, t1, size) && IR.AccessInside(f, t2, size))
        ==> IR.RunInside(f, t, 3, size)
  {
    assert IR.Run(f, t2, 1) == IR.Run(f, t3, 0) == t3;
    assert IR.Run(f, t1, 2) == IR.Run(f, t2, 1);
    assert IR.Run(f, t, 2) == IR.Run(f, t1, 1) == IR.Run(f, t2, 0) == t2;
    assert IR.Run(f, t, 1) == IR.Run(f, t1, 0) == t1;
    assert IR.Run(f, t, 0) == t;
  }

  /** The machine is at code that does `i`, `j`, `k`, with the head in `h`. */
  ghost predicate AtThree(f: Code, t: IR.Machine, i: IR.Instr, j: IR.Instr, k: IR.Instr, h: nat) {
    && t.status == IR.Executing && h in t.env
    && InstrAt(f, t.block, t.pc, i) && InstrAt(f, t.block, t.pc + 1, j) && InstrAt(f, t.block, t.pc + 2, k)
  }

  lemma {:induction false} ReadCode(f: Code, t: IR.Machine, r0: nat, r1: nat, h: nat, size: int)
    returns (env: map<nat, int>)
    requires AtThree(f, t, IR.Getchar(r0), IR.Trunc(r1, r0), IR.Store(r1, h), h) && h != r0 && h != r1
    ensures env.Keys >= t.env.Keys && forall r :: r in t.env && r != r0 && r != r1 ==> env[r] == t.env[r]
    ensures var byte := if t.input == [] then 255 else t.input[0] % 256;
      IR.Run(f, t, 3) == t.(pc := t.pc + 3, env := env, memory := t.memory[t.env[h] := byte],
                            input := if t.input == [] then [] else t.input[1..])
    ensures 0 <= t.env[h] < size ==> IR.RunInside(f, t, 3, size)
  {
    var t1 := IR.Exec(f, t, IR.Getchar(r0));
    var t2 := IR.Exec(f, t1, IR.Trunc(r1, r0));
    var t3 := IR.Exec(f, t2, IR.Store(r1, h));
    ThreeSteps(f, t, t1, t2, t3, size);
    env := t2.env;
  }

  lemma {:induction false} WriteCode(f: Code, t: IR.Machine, r0: nat, r1: nat, h: nat, size: int)
    returns (env: map<nat, int>)
    requires AtThree(f, t, IR.Load(r0, h), IR.SExt(r1, r0), IR.Putchar(r1), h) && h != r0 && h != r1
    requires 0 <= Cell(t.memory, t.env[h]) < 256
    ensures env.Keys >= t.env.Keys && forall r :: r in t.env && r != r0 && r != r1 ==> env[r] == t.env[r]
    ensures IR.Run(f, t, 3) == t.(pc := t.pc + 3, env := env, output := t.output + [Byte(Cell(t.memory, t.env[h]))])
    ensures 0 <= t.env[h] < size ==> IR.RunInside(f, t, 3, size)
  {
    var t1 := IR.Exec(f, t, IR.Load(r0, h));
    var t2 := IR.Exec(f, t1, IR.SExt(r1, r0));
    var t3 := IR.Exec(f, t2, IR.Putchar(r1));
    ThreeSteps(f, t, t1, t2, t3, size);
    env := t2.env;
  }

  lemma {:induction false} ChangeCode(f: Code, t: IR.Machine, r0: nat, r1: nat, h: nat, value: int, size: int)
    returns (env: map<nat, int>)
    requires AtThree(f, t, IR.Load(r0, h), IR.AddI8(r1, r0, value), IR.Store(r1, h), h) && h != r0 && h != r1
    ensures env.Keys >= t.env.Keys && forall r :: r in t.env && r != r0 && r != r1 ==> env[r] == t.env[r]
    ensures IR.Run(f, t, 3) == t.(pc := t.pc + 3, env := env,
                                  memory := t.memory[t.env[h] := (Cell(t.memory, t.env[h]) + value) % 256])
    ensures 0 <= t.env[h] < size ==> IR.RunInside(f, t, 3, size)
  {
    var t1 := IR.Exec(f, t, IR.Load(r0, h));
    var t2 := IR.Exec(f, t1, IR.AddI8(r1, r0, value));
    var t3 := IR.Exec(f, t2, IR.Store(r1, h));
    ThreeSteps(f, t, t1, t2, t3, size);
    env := t2.env;
  }

  lemma {:induction false} ReadAdvances(text: string, cfg: Config, f: Code, at: map<nat, Loc>, s: State, t: IR.Machine,
                                        it: Item)
    requires Matches(cfg, at, s, t) && it.Read? && ReadOk(text, cfg, f, at, s.pc, it)
    ensures Advances(text, cfg, f, at, s, t, it.next - s.pc, 3)
  {
    hide IR.Run, IR.Step, IR.AccessInside, IR.RunInside, InstrAt;
    QuietThen(text, cfg, s, it.next - 1);
    var env := ReadCode(f, t, it.t0, it.t1, at[s.pc].head, cfg.memtotal);
  }

  lemma {:induction false} WriteAdvances(text: string, cfg: Config, f: Code, at: map<nat, Loc>, s: State,
                                         t: IR.Machine, it: Item)
    requires Matches(cfg, at, s, t) && it.Write? && WriteOk(text, cfg, f, at, s.pc, it)
    ensures Advances(text, cfg, f, at, s, t, it.next - s.pc, 3)
  {
    hide IR.Run, IR.Step, IR.AccessInside, IR.RunInside, InstrAt;
    QuietThen(text, cfg, s, it.next - 1);
    var env := WriteCode(f, t, it.t0, it.t1, at[s.pc].head, cfg.memtotal);
  }

  lemma {:induction false} ChangeRuns(text: string, cfg: Config, s: State, j: nat) returns (s': State)
    requires s.status == Running && s.pc <= j && ChangeRun(text, s.pc, j) && BytesOnly(s.tape)
    requires cfg.bounds ==> 0 <= s.head < cfg.memtotal
    ensures s' == Run(text, cfg, s, j - s.pc) && BytesOnly(s'.tape)
    ensures s' == s.(pc := j, tape := s.tape[s.head := (Cell(s.tape, s.head) + Delta(text, s.pc, j, '+', '-')) % 256])
  {
    ChangesRun(text, cfg, s, j);
    ChangedOnce(text, s.tape, s.head, s.pc, j);
    s' := Run(text, cfg, s, j - s.pc);
  }

  lemma {:induction false} ChangeAdvances(text: string, cfg: Config, f: Code, at: map<nat, Loc>, s: State,
                                          t: IR.Machine, it: Item)
    requires Matches(cfg, at, s, t) && it.Change? && ChangeOk(text, cfg, f, at, s.pc, it)
    ensures Advances(text, cfg, f, at, s, t, it.next - s.pc, 3)
  {
    hide IR.Run, IR.Step, IR.AccessInside, IR.RunInside, InstrAt, Run, Step, Delta;
    var s' := ChangeRuns(text, cfg, s, it.next);
    var env := ChangeCode(f, t, it.t0, it.t1, at[s.pc].head, it.value, cfg.memtotal);
  }

  /** One instruction and then `n` more. */
  lemma {:induction false} StepThen(f: Code, t: IR.Machine, t1: IR.Machine, n: nat, size: int)
    requires t1 == IR.Step(f, t) && IR.AccessInside(f, t, size) && IR.RunInside(f, t1, n, size)
    ensures IR.Run(f, t, n + 1) == IR.Run(f, t1, n)
    ensures IR.RunInside(f, t, n + 1, size)
  {
    forall k: nat | k < n + 1
      ensures IR.AccessInside(f, IR.Run(f, t, k), size)
    {
      assert k > 0 ==> IR.Run(f, t, k) == IR.Run(f, t1, k - 1);
    }
  }

  /** An instruction that does not touch memory. */
  lemma {:induction false} StepsTo(f: Code, t: IR.Machine, i: IR.Instr, size: int)
    requires t.status == IR.Executing && InstrAt(f, t.block, t.pc, i) && IR.Operands(i) <= t.env.Keys
    requires !i.Load? && !i.Store?
    ensures IR.Exec(f, t, i) == IR.Step(f, t) && IR.AccessInside(f, t, size)
  {
    hide IR.Exec;
  }

  lemma {:induction false} NoSteps(f: Code, t: IR.Machine, size: int)
    ensures IR.Run(f, t, 0) == t && IR.RunInside(f, t, 0, size)
  {
  }

  lemma {:induction false} MoveAdvances(text: string, cfg: Config, f: Code, at: map<nat, Loc>, s: State, t: IR.Machine,
                                        it: Item)
    requires !cfg.bounds && Matches(cfg, at, s, t) && it.Move? && MoveOk(text, cfg, f, at, s.pc, it)
    ensures Advances(text, cfg, f, at, s, t, it.next - s.pc, 1)
  {
    MovesRun(text, cfg, s, it.next);
    var t1 := IR.Exec(f, t, IR.Gep(at[it.next].head, at[s.pc].head, it.value));
    NoSteps(f, t1, cfg.memtotal);
    StepThen(f, t, t1, 0, cfg.memtotal);
  }

  /** The instructions of a move with bounds check, up to its branch. */
  lemma {:induction false} CheckComputes(cfg: Config, f: Code, t: IR.Machine, h: nat, r: nat, r0: nat, r1: nat,
                                         r2: nat, value: int)
    returns (u: IR.Machine)
    requires cfg.bounds && Limits(cfg, t.env) && t.status == IR.Executing && h in t.env
    requires InstrAt(f, t.block, t.pc, IR.Gep(r, h, value))
    requires InstrAt(f, t.block, t.pc + 1, IR.ICmpUGE(r0, r, ARRMAX))
    requires InstrAt(f, t.block, t.pc + 2, IR.ICmpULT(r1, r, ARR))
    requires InstrAt(f, t.block, t.pc + 3, IR.OrI1(r2, r0, r1))
    requires Scratch(cfg, r) && Scratch(cfg, r0) && Scratch(cfg, r1) && Scratch(cfg, r2)
    requires r != r0 && r != r1 && r != r2 && r0 != r1
    ensures u == IR.Run(f, t, 4) && IR.RunInside(f, t, 4, cfg.memtotal)
    ensures u == t.(pc := t.pc + 4, env := u.env)
    ensures Limits(cfg, u.env) && r in u.env && u.env[r] == t.env[h] + value
    ensures r2 in u.env && (u.env[r2] != 0 <==> !(0 <= t.env[h] + value < cfg.memtotal))
  {
    hide IR.Run, IR.RunInside, IR.Step, IR.AccessInside, InstrAt;
    var t1 := IR.Exec(f, t, IR.Gep(r, h, value));
    StepsTo(f, t, IR.Gep(r, h, value), cfg.memtotal);
    var t2 := IR.Exec(f, t1, IR.ICmpUGE(r0, r, ARRMAX));
    StepsTo(f, t1, IR.ICmpUGE(r0, r, ARRMAX), cfg.memtotal);
    var t3 := IR.Exec(f, t2, IR.ICmpULT(r1, r, ARR));
    StepsTo(f, t2, IR.ICmpULT(r1, r, ARR), cfg.memtotal);
    u := IR.Exec(f, t3, IR.OrI1(r2, r0, r1));
    StepsTo(f, t3, IR.OrI1(r2, r0, r1), cfg.memtotal);
    NoSteps(f, u, cfg.memtotal);
    StepThen(f, t3, u, 0, cfg.memtotal);
    StepThen(f, t2, t3, 1, cfg.memtotal);
    StepThen(f, t1, t2, 2, cfg.memtotal);
    StepThen(f, t, t1, 3, cfg.memtotal);
  }

  /** A move with bounds check ends in block `l`, or in the error block. */
  lemma {:induction false} CheckedMoveRuns(cfg: Config, f: Code, t: IR.Machine, h: nat, r: nat, r0: nat, r1: nat,
                                           r2: nat, value: int, l: nat)
    returns (u: IR.Machine)
    requires cfg.bounds && Footer(cfg, f) && Limits(cfg, t.env) && t.status == IR.Executing && h in t.env
    requires InstrAt(f, t.block, t.pc, IR.Gep(r, h, value))
    requires InstrAt(f, t.block, t.pc + 1, IR.ICmpUGE(r0, r, ARRMAX))
    requires InstrAt(f, t.block, t.pc + 2, IR.ICmpULT(r1, r, ARR))
    requires InstrAt(f, t.block, t.pc + 3, IR.OrI1(r2, r0, r1))
    requires InstrAt(f, t.block, t.pc + 4, IR.CondBr(r2, ABERROR, l))
    requires Scratch(cfg, r) && Scratch(cfg, r0) && Scratch(cfg, r1) && Scratch(cfg, r2)
    requires r != r0 && r != r1 && r != r2 && r0 != r1
    requires l < |f| && f[l].phi.NoPhi?
    ensures u == IR.Run(f, t, 5) && IR.RunInside(f, t, 5, cfg.memtotal)
    ensures u == t.(block := if 0 <= t.env[h] + value < cfg.memtotal then l else ABERROR, pc := 0, env := u.env)
    ensures Limits(cfg, u.env) && r in u.env && u.env[r] == t.env[h] + value
  {
    var t4 := CheckComputes(cfg, f, t, h, r, r0, r1, r2, value);
    u := IR.Exec(f, t4, IR.CondBr(r2, ABERROR, l));
    NoSteps(f, u, cfg.memtotal);
    StepThen(f, t4, u, 0, cfg.memtotal);
    IR.RunSplit(f, t, 4, 1);
    IR.RunInsideSplit(f, t, 4, 1, cfg.memtotal);
  }

  /** From the end block the program frees the tape and returns. */
  lemma {:induction false} EndRuns(cfg: Config, f: Code, t: IR.Machine)
    requires Footer(cfg, f) && Limits(cfg, t.env) && t.status == IR.Executing && t.block == END && t.pc == 0
    ensures IR.Run(f, t, 2) == t.(pc := 1, status := IR.Returned)
    ensures IR.RunInside(f, t, 2, cfg.memtotal)
  {
    var t1 := IR.Exec(f, t, IR.Free(ARR));
    var t2 := IR.Exec(f, t1, IR.Ret);
    NoSteps(f, t2, cfg.memtotal);
    StepThen(f, t1, t2, 0, cfg.memtotal);
    StepThen(f, t, t1, 1, cfg.memtotal);
  }

  lemma {:induction false} ErrorRuns(cfg: Config, f: Code, t: IR.Machine)
    requires cfg.bounds && Footer(cfg, f) && Limits(cfg, t.env) && t.status == IR.Executing && t.block == ABERROR &&
             t.pc == 0
    ensures var u := IR.Run(f, t, 4);
      u.status == IR.Returned && u.output == t.output + [Line(ERROR_TEXT)] && u.memory == t.memory && u.input == t.input
    ensures IR.RunInside(f, t, 4, cfg.memtotal)
  {
    var t1 := IR.Exec(f, t, IR.Puts);
    var t2 := IR.Exec(f, t1, IR.Br(END));
    EndRuns(cfg, f, t2);
    StepThen(f, t1, t2, 2, cfg.memtotal);
    StepThen(f, t, t1, 3, cfg.memtotal);
  }

  lemma {:induction false} CheckedMoveAdvances(text: string, cfg: Config, f: Code, at: map<nat, Loc>, s: State,
                                               t: IR.Machine, it: Item)
    returns (n: nat, m: nat)
    requires cfg.bounds && Footer(cfg, f) && Matches(cfg, at, s, t) && it.Move? && MoveOk(text, cfg, f, at, s.pc, it)
    ensures Advances(text, cfg, f, at, s, t, n, m)
  {
    hide IR.Run, IR.Step, IR.AccessInside, IR.RunInside, InstrAt, Delta;
    MovesRun(text, cfg, s, it.next);
    var s1 := Run(text, cfg, s, it.next - s.pc);
    var next := at[it.next];
    var u := CheckedMoveRuns(cfg, f, t, at[s.pc].head, next.head, it.t0, it.t1, it.t2, it.value, next.block);
    if 0 <= s1.head < cfg.memtotal {
      n, m := it.next - s.pc, 5;
    } else {
      n, m := it.next - s.pc + 1, 9;
      RunSplit(text, cfg, s, it.next - s.pc, 1);
      assert Run(text, cfg, s1, 1) == Step(text, cfg, s1) ==
             s1.(status := OffTape, output := s1.output + [Line(ERROR_TEXT)]);
      ErrorRuns(cfg, f, u);
      IR.RunSplit(f, t, 5, 4);
      IR.RunInsideSplit(f, t, 5, 4, cfg.memtotal);
    }
  }

  lemma {:induction false} HaltAdvances(text: string, cfg: Config, f: Code, at: map<nat, Loc>, s: State, t: IR.Machine)
    returns (n: nat, m: nat)
    requires Footer(cfg, f) && Matches(cfg, at, s, t) && s.pc <= |text|
    requires Quiet(text, s.pc, |text|) && InstrAt(f, at[s.pc].block, at[s.pc].pc, IR.Br(END))
    ensures Advances(text, cfg, f, at, s, t, n, m)
  {
    n, m := |text| - s.pc + 1, 3;
    QuietThen(text, cfg, s, |text|);
    var t1 := IR.Exec(f, t, IR.Br(END));
    EndRuns(cfg, f, t1);
    StepThen(f, t, t1, 2, cfg.memtotal);
  }

  /** Either way into the test block carries the head into its phi. */
  lemma {:induction false} EntersTest(cfg: Config, f: Code, s: State, t: IR.Machine, test: nat, entry: Loc, back: Loc,
                                      body: Loc, from: Loc)
    returns (u: IR.Machine)
    requires LoopEdges(f, test, entry, back, body) && (from == entry || from == back)
    requires Placed(cfg, s, t, from) && Scratch(cfg, body.head)
    ensures u == IR.Run(f, t, 1) && IR.RunInside(f, t, 1, cfg.memtotal)
    ensures Placed(cfg, s, u, Loc(test, 0, body.head))
  {
    var incoming := f[test].phi.incoming;
    assert incoming[0] == (entry.head, entry.block) && incoming[1] == (back.head, back.block);
    assert incoming[1..][0] == incoming[1];
    assert IR.Incoming(incoming, from.block) == from.head;
    u := IR.Exec(f, t, IR.Br(test));
    NoSteps(f, u, cfg.memtotal);
    StepThen(f, t, u, 0, cfg.memtotal);
  }

  /** Where the test goes, for a head whose cell is given. */
  lemma {:induction false} TestRuns(cfg: Config, f: Code, s: State, t: IR.Machine, test: nat, t0: nat, t1: nat,
                                    body: Loc, exit: Loc)
    returns (u: IR.Machine)
    requires LoopTest(cfg, f, test, t0, t1, body, exit) && AtLoc(cfg, s, t, Loc(test, 0, body.head))
    ensures u == IR.Run(f, t, 3) && (cfg.bounds ==> IR.RunInside(f, t, 3, cfg.memtotal))
    ensures AtLoc(cfg, s, u, if Cell(s.tape, s.head) == 0 then exit else body)
  {
    var m1 := IR.Exec(f, t, IR.Load(t0, body.head));
    var m2 := IR.Exec(f, m1, IR.ICmpEqZero(t1, t0));
    u := IR.Exec(f, m2, IR.CondBr(t1, exit.block, body.block));
    ThreeSteps(f, t, m1, m2, u, cfg.memtotal);
    assert f[exit.block].phi.incoming[0] == (body.head, test);
  }

  /** From the '[' on, whichever way control came there. */
  lemma {:induction false} TestAdvances(text: string, cfg: Config, f: Code, at: map<nat, Loc>, s: State, t: IR.Machine,
                                        q: nat, test: nat, t0: nat, t1: nat)
    returns (u: IR.Machine)
    requires s.pc + 1 == q <= |text| && text[s.pc] == '['
    requires q in at && Close(text, q, 0) + 1 in at
    requires LoopTest(cfg, f, test, t0, t1, at[q], at[Close(text, q, 0) + 1])
    requires AtLoc(cfg, s, t, Loc(test, 0, at[q].head))
    ensures u == IR.Run(f, t, 3) && (cfg.bounds ==> IR.RunInside(f, t, 3, cfg.memtotal))
    ensures Matches(cfg, at, Step(text, cfg, s), u)
  {
    u := TestRuns(cfg, f, s, t, test, t0, t1, at[q], at[Close(text, q, 0) + 1]);
  }

  lemma {:induction false} LoopAdvances(text: string, cfg: Config, f: Code, at: map<nat, Loc>, s: State, t: IR.Machine,
                                        it: Item)
    returns (n: nat, m: nat)
    requires Matches(cfg, at, s, t) && it.Loop? && LoopOk(text, cfg, f, at, s.pc, it)
    ensures Advances(text, cfg, f, at, s, t, n, m)
  {
    var q := it.next;
    n, m := q - s.pc, 4;
    QuietThen(text, cfg, s, q - 1);
    var t1 := EntersTest(cfg, f, s, t, it.test, at[s.pc], at[it.closing], at[q], at[s.pc]);
    var t4 := TestAdvances(text, cfg, f, at, s.(pc := q - 1), t1, q, it.test, it.t0, it.t1);
    IR.RunSplit(f, t, 1, 3);
    if cfg.bounds {
      IR.RunInsideSplit(f, t, 1, 3, cfg.memtotal);
    }
  }

  lemma {:induction false} EndLoopAdvances(text: string, cfg: Config, f: Code, at: map<nat, Loc>, s: State,
                                           t: IR.Machine, p: nat, it: Item)
    returns (n: nat, m: nat)
    requires Matches(cfg, at, s, t) && p in at && it.Loop? && LoopOk(text, cfg, f, at, p, it) && it.closing == s.pc
    ensures Advances(text, cfg, f, at, s, t, n, m)
  {
    hide IR.Run, IR.Step, IR.AccessInside, IR.RunInside, InstrAt, LoopEdges;
    var q := it.next;
    var c := Close(text, q, 0);
    n, m := c - s.pc + 2, 4;
    QuietThen(text, cfg, s, c);
    var s1 := Step(text, cfg, s.(pc := c));
    assert s1 == s.(pc := q - 1);
    RunSplit(text, cfg, s, c - s.pc + 1, 1);
    assert Run(text, cfg, s1, 1) == Step(text, cfg, s1);
    var t1 := EntersTest(cfg, f, s, t, it.test, at[p], at[s.pc], at[q], at[s.pc]);
    var t4 := TestAdvances(text, cfg, f, at, s1, t1, q, it.test, it.t0, it.t1);
    IR.RunSplit(f, t, 1, 3);
    if cfg.bounds {
      IR.RunInsideSplit(f, t, 1, 3, cfg.memtotal);
    }
  }

  lemma {:induction false} ItemAdvances(text: string, cfg: Config, f: Code, at: map<nat, Loc>, s: State, t: IR.Machine,
                                        it: Item)
    returns (n: nat, m: nat)
    requires Footer(cfg, f) && Matches(cfg, at, s, t)
    requires match it
      case Read(_, _, _) => ReadOk(text, cfg, f, at, s.pc, it)
      case Write(_, _, _) => WriteOk(text, cfg, f, at, s.pc, it)
      case Change(_, _, _, _) => ChangeOk(text, cfg, f, at, s.pc, it)
      case Move(_, _, _, _, _) => MoveOk(text, cfg, f, at, s.pc, it)
      case _ => false
    ensures Advances(text, cfg, f, at, s, t, n, m)
  {
    hide InstrAt, Delta, Quiet, Scratch, Matches, Footer, Advances;
    n, m := it.next - s.pc, 3;
    match it
    case Read(_, _, _) => ReadAdvances(text, cfg, f, at, s, t, it);
    case Write(_, _, _) => WriteAdvances(text, cfg, f, at, s, t, it);
    case Change(_, _, _, _) => ChangeAdvances(text, cfg, f, at, s, t, it);
    case Move(_, _, _, _, _) =>
      if cfg.bounds {
        n, m := CheckedMoveAdvances(text, cfg, f, at, s, t, it);
      } else {
        m := 1;
        MoveAdvances(text, cfg, f, at, s, t, it);
      }
  }

  lemma {:induction false} Instantiate(text: string, cfg: Config, f: Code, at: map<nat, Loc>, item: map<nat, Item>,
                                       p: nat)
    requires AllOk(text, cfg, f, at, item) && p in item
    ensures p in at && ItemOk(text, cfg, f, at, item, p)
  {
    assert ItemOk(text, cfg, f, at, item, p);
  }

  /** One boundary to the next, whatever the symbol. */
  lemma {:induction false} Advance(text: string, cfg: Config, f: Code, at: map<nat, Loc>, item: map<nat, Item>,
                                   s: State, t: IR.Machine)
    returns (n: nat, m: nat)
    requires Footer(cfg, f) && at.Keys == item.Keys && AllOk(text, cfg, f, at, item) && Matches(cfg, at, s, t)
    ensures Advances(text, cfg, f, at, s, t, n, m)
  {
    var it := item[s.pc];
    Instantiate(text, cfg, f, at, item, s.pc);
    if it.Loop? {
      n, m := LoopAdvances(text, cfg, f, at, s, t, it);
    } else if it.EndLoop? {
      Instantiate(text, cfg, f, at, item, it.opening);
      n, m := EndLoopAdvances(text, cfg, f, at, s, t, it.opening, item[it.opening]);
    } else if it.Halt? {
      n, m := HaltAdvances(text, cfg, f, at, s, t);
    } else {
      n, m := ItemAdvances(text, cfg, f, at, s, t, it);
    }
  }
}
