/** The part of LLVM's intermediate representation that the BrainF compiler
    emits, and what it does.  A pointer is its distance from the tape that
    `malloc` returned; an i1 is 0 or 1; an i8 is 0..255. */
module BrainFIr {
  import opened BrainFLanguage

  type Reg = nat
  type Label = nat

  datatype Instr =
    | Malloc(dst: Reg)
    | Memset(ptr: Reg, size: nat)
    | Free(ptr: Reg)
    | Gep(dst: Reg, ptr: Reg, index: int)
    | Load(dst: Reg, ptr: Reg)
    | Store(src: Reg, ptr: Reg)
    | Getchar(dst: Reg)
    | Putchar(src: Reg)
    | Puts
    | Trunc(dst: Reg, src: Reg)
    | SExt(dst: Reg, src: Reg)
    | AddI8(dst: Reg, src: Reg, constant: int)
    | ICmpUGE(dst: Reg, lhs: Reg, rhs: Reg)
    | ICmpULT(dst: Reg, lhs: Reg, rhs: Reg)
    | OrI1(dst: Reg, lhs: Reg, rhs: Reg)
    | ICmpEqZero(dst: Reg, src: Reg)
    | Br(target: Label)
    | CondBr(cond: Reg, ifTrue: Label, ifFalse: Label)
    | Ret

  /** A phi takes the value that belongs to the block control came from. */
  datatype Phi = NoPhi | Phi(dst: Reg, incoming: seq<(Reg, Label)>)

  datatype Block = Block(phi: Phi, code: seq<Instr>)

  datatype MachineStatus = Executing | Returned | Stuck

  datatype Machine = Machine(
    block: Label, pc: nat, env: map<Reg, int>, memory: map<int, int>,
    input: seq<int>, output: seq<Output>, status: MachineStatus)

  /** Execution starts at the first instruction of block 0.  `memory` is what
      `malloc` happens to hand out. */
  function Boot(memory: map<int, int>, input: seq<int>): Machine {
    Machine(0, 0, map[], memory, input, [], Executing)
  }

  function Incoming(incoming: seq<(Reg, Label)>, from: Label): Reg
    requires exists k :: 0 <= k < |incoming| && incoming[k].1 == from
  {
    if incoming[0].1 == from then incoming[0].0 else Incoming(incoming[1..], from)
  }

  predicate Enters(b: Block, from: Label, env: map<Reg, int>) {
    b.phi.Phi? ==>
      && (exists k :: 0 <= k < |b.phi.incoming| && b.phi.incoming[k].1 == from)
      && Incoming(b.phi.incoming, from) in env
  }

  function Jump(f: seq<Block>, m: Machine, target: Label): Machine {
    if target >= |f| || !Enters(f[target], m.block, m.env) then m.(status := Stuck)
    else
      var b := f[target];
      var env := if b.phi.NoPhi? then m.env else m.env[b.phi.dst := m.env[Incoming(b.phi.incoming, m.block)]];
      m.(block := target, pc := 0, env := env)
  }

  function Set(m: Machine, r: Reg, v: int): Machine {
    m.(pc := m.pc + 1, env := m.env[r := v])
  }

  function AsBit(b: bool): int { if b then 1 else 0 }

  /** The registers an instruction reads. */
  function Operands(i: Instr): set<Reg> {
    match i
    case Memset(p, _) => {p}
    case Free(p) => {p}
    case Gep(_, p, _) => {p}
    case Load(_, p) => {p}
    case Store(s, p) => {s, p}
    case Putchar(s) => {s}
    case Trunc(_, s) => {s}
    case SExt(_, s) => {s}
    case AddI8(_, s, _) => {s}
    case ICmpUGE(_, a, b) => {a, b}
    case ICmpULT(_, a, b) => {a, b}
    case OrI1(_, a, b) => {a, b}
    case ICmpEqZero(_, s) => {s}
    case CondBr(c, _, _) => {c}
    case _ => {}
  }

  function Exec(f: seq<Block>, m: Machine, i: Instr): Machine
    requires Operands(i) <= m.env.Keys
  {
    match i
    case Malloc(d) => Set(m, d, 0)
    case Memset(p, n) =>
      m.(pc := m.pc + 1,
         memory := map a | a in m.memory && !(m.env[p] <= a < m.env[p] + n) :: m.memory[a])
    case Free(_) => m.(pc := m.pc + 1)
    case Gep(d, p, k) => Set(m, d, m.env[p] + k)
    case Load(d, p) => Set(m, d, Cell(m.memory, m.env[p]))
    case Store(s, p) => m.(pc := m.pc + 1, memory := m.memory[m.env[p] := m.env[s]])
    case Getchar(d) =>
      if m.input == [] then Set(m, d, -1) else Set(m.(input := m.input[1..]), d, m.input[0] % 256)
    case Putchar(s) => m.(pc := m.pc + 1, output := m.output + [Byte(m.env[s] % 256)])
    case Puts => m.(pc := m.pc + 1, output := m.output + [Line(ERROR_TEXT)])
    case Trunc(d, s) => Set(m, d, m.env[s] % 256)
    case SExt(d, s) => Set(m, d, if m.env[s] < 128 then m.env[s] else m.env[s] - 256)
    case AddI8(d, s, k) => Set(m, d, (m.env[s] + k) % 256)
    case ICmpUGE(d, a, b) => Set(m, d, AsBit(m.env[a] >= m.env[b]))
    case ICmpULT(d, a, b) => Set(m, d, AsBit(m.env[a] < m.env[b]))
    case OrI1(d, a, b) => Set(m, d, AsBit(m.env[a] != 0 || m.env[b] != 0))
    case ICmpEqZero(d, s) => Set(m, d, AsBit(m.env[s] == 0))
    case Br(l) => Jump(f, m, l)
    case CondBr(c, l, r) => Jump(f, m, if m.env[c] != 0 then l else r)
    case Ret => m.(status := Returned)
  }

  /** The instruction about to execute exists and its operands have values. */
  predicate Ready(f: seq<Block>, m: Machine) {
    && m.block < |f|
    && m.pc < |f[m.block].code|
    && Operands(f[m.block].code[m.pc]) <= m.env.Keys
  }

  function Step(f: seq<Block>, m: Machine): Machine {
    if m.status != Executing then m
    else if !Ready(f, m) then m.(status := Stuck)
    else Exec(f, m, f[m.block].code[m.pc])
  }

  function Run(f: seq<Block>, m: Machine, n: nat): Machine
    decreases n
  {
    if n == 0 then m else Run(f, Step(f, m), n - 1)
  }

  /** If the next instruction touches memory, it does so inside the tape. */
  predicate AccessInside(f: seq<Block>, m: Machine, size: int) {
    m.status == Executing && Ready(f, m) ==>
      match f[m.block].code[m.pc]
      case Load(_, p) => 0 <= m.env[p] < size
      case Store(_, p) => 0 <= m.env[p] < size
      case _ => true
  }

  /** Each of the first `n` instructions touches memory only inside the tape. */
  ghost predicate RunInside(f: seq<Block>, m: Machine, n: nat, size: int) {
    forall k: nat :: k < n ==> AccessInside(f, Run(f, m, k), size)
  }

  lemma {:induction false} RunSplit(f: seq<Block>, m: Machine, a: nat, b: nat)
    ensures Run(f, m, a + b) == Run(f, Run(f, m, a), b)
    decreases a
  {
    if a > 0 {
      RunSplit(f, Step(f, m), a - 1, b);
    }
  }

  lemma {:induction false} RunEnded(f: seq<Block>, m: Machine, n: nat)
    requires m.status != Executing
    ensures Run(f, m, n) == m
    decreases n
  {
    if n > 0 {
      RunEnded(f, m, n - 1);
    }
  }

  lemma {:induction false} StepOutput(f: seq<Block>, m: Machine)
    ensures m.output <= Step(f, m).output
  {
    if m.status == Executing && Ready(f, m) {
      match f[m.block].code[m.pc]
      case Putchar(_) =>
      case Puts =>
      case _ => assert Exec(f, m, f[m.block].code[m.pc]).output == m.output;
    }
  }

  lemma {:induction false} RunOutput(f: seq<Block>, m: Machine, n: nat)
    ensures m.output <= Run(f, m, n).output
    decreases n
  {
    if n > 0 {
      StepOutput(f, m);
      RunOutput(f, Step(f, m), n - 1);
    }
  }

  lemma {:induction false} RunInsideSplit(f: seq<Block>, m: Machine, a: nat, b: nat, size: int)
    requires RunInside(f, m, a, size)
    requires RunInside(f, Run(f, m, a), b, size)
    ensures RunInside(f, m, a + b, size)
  {
    forall k: nat | k < a + b
      ensures AccessInside(f, Run(f, m, k), size)
    {
      if k >= a {
        RunSplit(f, m, a, k - a);
      }
    }
  }
}
