/** How emitted code corresponds to program text.  A boundary is a position of
    the text at which the compiler has just finished one symbol; `at` says where
    in the code that is and which register holds the head there, and `item`
    says what the code from there to the next boundary does.  Every condition
    is about one boundary, so nesting needs no recursion here. */
module BrainFLayout {
  import opened BrainFLanguage
  import opened BrainFIr

  const ARR: Reg := 0
  const ARRMAX: Reg := 1
  const ENTRY: Label := 0
  const END: Label := 1
  const ABERROR: Label := 2

  datatype Loc = Loc(block: Label, pc: nat, head: Reg)

  datatype Item =
    | Read(next: nat, t0: Reg, t1: Reg)
    | Write(next: nat, t0: Reg, t1: Reg)
    | Change(next: nat, value: int, t0: Reg, t1: Reg)
    | Move(next: nat, value: int, t0: Reg, t1: Reg, t2: Reg)
    | Loop(next: nat, closing: nat, test: Label, t0: Reg, t1: Reg)
    | EndLoop(opening: nat)
    | Halt

  /** Registers of the tape's limits are never written again. */
  predicate Scratch(cfg: Config, r: Reg) {
    r != ARR && (cfg.bounds ==> r != ARRMAX)
  }

  ghost predicate InstrAt(f: seq<Block>, b: Label, pc: nat, i: Instr) {
    b < |f| && pc < |f[b].code| && f[b].code[pc] == i
  }

  ghost predicate ReadOk(text: string, cfg: Config, f: seq<Block>, at: map<nat, Loc>, p: nat, it: Item)
    requires p in at && it.Read?
  {
    var l := at[p];
    && p < it.next <= |text| && Quiet(text, p, it.next - 1) && text[it.next - 1] == ','
    && InstrAt(f, l.block, l.pc, Getchar(it.t0))
    && InstrAt(f, l.block, l.pc + 1, Trunc(it.t1, it.t0))
    && InstrAt(f, l.block, l.pc + 2, Store(it.t1, l.head))
    && Scratch(cfg, it.t0) && Scratch(cfg, it.t1) && l.head != it.t0 && l.head != it.t1
    && it.next in at && at[it.next] == Loc(l.block, l.pc + 3, l.head)
  }

  ghost predicate WriteOk(text: string, cfg: Config, f: seq<Block>, at: map<nat, Loc>, p: nat, it: Item)
    requires p in at && it.Write?
  {
    var l := at[p];
    && p < it.next <= |text| && Quiet(text, p, it.next - 1) && text[it.next - 1] == '.'
    && InstrAt(f, l.block, l.pc, Load(it.t0, l.head))
    && InstrAt(f, l.block, l.pc + 1, SExt(it.t1, it.t0))
    && InstrAt(f, l.block, l.pc + 2, Putchar(it.t1))
    && Scratch(cfg, it.t0) && Scratch(cfg, it.t1) && l.head != it.t0 && l.head != it.t1
    && it.next in at && at[it.next] == Loc(l.block, l.pc + 3, l.head)
  }

  ghost predicate ChangeOk(text: string, cfg: Config, f: seq<Block>, at: map<nat, Loc>, p: nat, it: Item)
    requires p in at && it.Change?
  {
    var l := at[p];
    && ChangeRun(text, p, it.next) && it.value == Delta(text, p, it.next, '+', '-')
    && InstrAt(f, l.block, l.pc, Load(it.t0, l.head))
    && InstrAt(f, l.block, l.pc + 1, AddI8(it.t1, it.t0, it.value))
    && InstrAt(f, l.block, l.pc + 2, Store(it.t1, l.head))
    && Scratch(cfg, it.t0) && Scratch(cfg, it.t1) && l.head != it.t0 && l.head != it.t1
    && it.next in at && at[it.next] == Loc(l.block, l.pc + 3, l.head)
  }

  /** A run of moves is followed by something else. */
  ghost predicate StopsMoving(text: string, j: nat) {
    j <= |text| && (j < |text| ==> IsCommand(text[j]) && !IsMove(text[j]))
  }

  ghost predicate MoveOk(text: string, cfg: Config, f: seq<Block>, at: map<nat, Loc>, p: nat, it: Item)
    requires p in at && it.Move?
  {
    var l := at[p];
    && MoveRun(text, p, it.next) && it.value == Delta(text, p, it.next, '>', '<') && StopsMoving(text, it.next)
    && it.next in at
    && var n := at[it.next];
    && InstrAt(f, l.block, l.pc, Gep(n.head, l.head, it.value))
    && Scratch(cfg, n.head)
    && (!cfg.bounds ==> n.block == l.block && n.pc == l.pc + 1)
    && (cfg.bounds ==>
          && InstrAt(f, l.block, l.pc + 1, ICmpUGE(it.t0, n.head, ARRMAX))
          && InstrAt(f, l.block, l.pc + 2, ICmpULT(it.t1, n.head, ARR))
          && InstrAt(f, l.block, l.pc + 3, OrI1(it.t2, it.t0, it.t1))
          && InstrAt(f, l.block, l.pc + 4, CondBr(it.t2, ABERROR, n.block))
          && Scratch(cfg, it.t0) && Scratch(cfg, it.t1) && Scratch(cfg, it.t2) && it.t0 != it.t1
          && n.head != it.t0 && n.head != it.t1 && n.head != it.t2
          && n.pc == 0 && n.block < |f| && f[n.block].phi.NoPhi?)
  }

  ghost predicate LoopText(text: string, p: nat, q: nat, k: nat) {
    && p < q <= k <= |text| && Quiet(text, p, q - 1) && text[q - 1] == '['
    && var c := Close(text, q, 0);
    && c < |text| && Quiet(text, k, c) && Open(text, c, 0) == q - 1
  }

  /** Both ways into the test block, and the heads they bring. */
  ghost predicate LoopEdges(f: seq<Block>, test: Label, entry: Loc, back: Loc, body: Loc) {
    && InstrAt(f, entry.block, entry.pc, Br(test))
    && InstrAt(f, back.block, back.pc, Br(test))
    && test < |f| && f[test].phi.Phi? && f[test].phi.dst == body.head
    && [(entry.head, entry.block), (back.head, back.block)] <= f[test].phi.incoming
    && entry.block != back.block
  }

  /** The test itself, and both ways out of it. */
  ghost predicate LoopTest(cfg: Config, f: seq<Block>, test: Label, t0: Reg, t1: Reg, body: Loc, exit: Loc) {
    && InstrAt(f, test, 0, Load(t0, body.head))
    && InstrAt(f, test, 1, ICmpEqZero(t1, t0))
    && InstrAt(f, test, 2, CondBr(t1, exit.block, body.block))
    && body.block < |f| && f[body.block].phi.NoPhi? && body.pc == 0
    && exit.block < |f| && f[exit.block].phi.Phi? && f[exit.block].phi.dst == exit.head
    && [(body.head, test)] <= f[exit.block].phi.incoming && exit.pc == 0
    && Scratch(cfg, t0) && Scratch(cfg, t1) && Scratch(cfg, body.head) && Scratch(cfg, exit.head)
    && body.head != t0 && body.head != t1
  }

  ghost predicate LoopOk(text: string, cfg: Config, f: seq<Block>, at: map<nat, Loc>, p: nat, it: Item)
    requires p in at && it.Loop?
  {
    && LoopText(text, p, it.next, it.closing)
    && it.next in at && it.closing in at && Close(text, it.next, 0) + 1 in at
    && LoopEdges(f, it.test, at[p], at[it.closing], at[it.next])
    && LoopTest(cfg, f, it.test, it.t0, it.t1, at[it.next], at[Close(text, it.next, 0) + 1])
  }

  ghost predicate ItemOk(text: string, cfg: Config, f: seq<Block>, at: map<nat, Loc>, item: map<nat, Item>, p: nat)
    requires p in at && p in item
  {
    match item[p]
    case Read(_, _, _) => ReadOk(text, cfg, f, at, p, item[p])
    case Write(_, _, _) => WriteOk(text, cfg, f, at, p, item[p])
    case Change(_, _, _, _) => ChangeOk(text, cfg, f, at, p, item[p])
    case Move(_, _, _, _, _) => MoveOk(text, cfg, f, at, p, item[p])
    case Loop(_, _, _, _, _) => LoopOk(text, cfg, f, at, p, item[p])
    case EndLoop(o) => o in at && o in item && item[o].Loop? && item[o].closing == p
    case Halt => Quiet(text, p, |text|) && InstrAt(f, at[p].block, at[p].pc, Br(END))
  }

  ghost predicate AllOk(text: string, cfg: Config, f: seq<Block>, at: map<nat, Loc>, item: map<nat, Item>) {
    item.Keys <= at.Keys &&
    forall p {:trigger ItemOk(text, cfg, f, at, item, p)} :: p in item ==> ItemOk(text, cfg, f, at, item, p)
  }

  /** The blocks `header` made besides the entry. */
  ghost predicate Footer(cfg: Config, f: seq<Block>) {
    && END < |f| && f[END] == Block(NoPhi, [Free(ARR), Ret])
    && (cfg.bounds ==> ABERROR < |f| && f[ABERROR] == Block(NoPhi, [Puts, Br(END)]))
  }

  ghost predicate Header(cfg: Config, f: seq<Block>, start: Loc) {
    && start.block == ENTRY < |f| && f[ENTRY].phi.NoPhi?
    && start.pc == (if cfg.bounds then 4 else 3)
    && InstrAt(f, ENTRY, 0, Malloc(ARR))
    && InstrAt(f, ENTRY, 1, Memset(ARR, cfg.memtotal))
    && (cfg.bounds ==> InstrAt(f, ENTRY, 2, Gep(ARRMAX, ARR, cfg.memtotal)))
    && InstrAt(f, ENTRY, start.pc - 1, Gep(start.head, ARR, cfg.memtotal / 2))
    && Scratch(cfg, start.head)
  }

  /** A complete translation: every boundary is accounted for. */
  ghost predicate Complete(text: string, cfg: Config, f: seq<Block>, at: map<nat, Loc>, item: map<nat, Item>) {
    && Footer(cfg, f)
    && 0 in at && Header(cfg, f, at[0])
    && at.Keys == item.Keys
    && AllOk(text, cfg, f, at, item)
  }

  // ----- code only grows -----

  ghost predicate PhiExtends(a: Phi, b: Phi) {
    match a
    case NoPhi => b.NoPhi?
    case Phi(d, inc) => b.Phi? && b.dst == d && inc <= b.incoming
  }

  ghost predicate Extends(f: seq<Block>, g: seq<Block>) {
    && |f| <= |g|
    && forall b :: 0 <= b < |f| ==> f[b].code <= g[b].code && PhiExtends(f[b].phi, g[b].phi)
  }

  ghost predicate Agrees<V>(m: map<nat, V>, n: map<nat, V>) {
    forall p :: p in m ==> p in n && m[p] == n[p]
  }

  lemma {:induction false} InstrStays(f: seq<Block>, g: seq<Block>, b: Label, pc: nat, i: Instr)
    requires Extends(f, g) && InstrAt(f, b, pc, i)
    ensures InstrAt(g, b, pc, i)
  {
  }

  lemma {:induction false} ExtendsTransitive(f: seq<Block>, g: seq<Block>, h: seq<Block>)
    requires Extends(f, g) && Extends(g, h)
    ensures Extends(f, h)
  {
    forall b | 0 <= b < |f|
      ensures f[b].code <= h[b].code && PhiExtends(f[b].phi, h[b].phi)
    {
      assert f[b].code <= g[b].code && g[b].code <= h[b].code;
      assert PhiExtends(f[b].phi, g[b].phi) && PhiExtends(g[b].phi, h[b].phi);
    }
  }

  lemma {:induction false} LoopStays(text: string, cfg: Config, f: seq<Block>, g: seq<Block>, at: map<nat, Loc>,
                                     at': map<nat, Loc>, p: nat, it: Item)
    requires p in at && it.Loop? && LoopOk(text, cfg, f, at, p, it)
    requires Extends(f, g) && Agrees(at, at')
    ensures LoopOk(text, cfg, g, at', p, it)
  {
    var exit := at[Close(text, it.next, 0) + 1];
    assert PhiExtends(f[it.test].phi, g[it.test].phi);
    assert PhiExtends(f[exit.block].phi, g[exit.block].phi);
    assert PhiExtends(f[at[it.next].block].phi, g[at[it.next].block].phi);
  }

  lemma {:induction false} ItemStays(text: string, cfg: Config, f: seq<Block>, g: seq<Block>, at: map<nat, Loc>,
                                     at': map<nat, Loc>, item: map<nat, Item>, item': map<nat, Item>, p: nat)
    requires p in at && p in item && ItemOk(text, cfg, f, at, item, p)
    requires Extends(f, g) && Agrees(at, at') && Agrees(item, item')
    ensures ItemOk(text, cfg, g, at', item', p)
  {
    match item[p]
    case Loop(_, _, _, _, _) => LoopStays(text, cfg, f, g, at, at', p, item[p]);
    case Move(next, _, _, _, _) =>
      if cfg.bounds {
        assert PhiExtends(f[at[next].block].phi, g[at[next].block].phi);
      }
    case _ =>
  }

  lemma {:induction false} AllStay(text: string, cfg: Config, f: seq<Block>, g: seq<Block>, at: map<nat, Loc>,
                                   at': map<nat, Loc>, item: map<nat, Item>, item': map<nat, Item>)
    requires AllOk(text, cfg, f, at, item)
    requires Extends(f, g) && Agrees(at, at') && Agrees(item, item')
    ensures forall p {:trigger ItemOk(text, cfg, g, at', item', p)} :: p in item ==> ItemOk(text, cfg, g, at', item', p)
  {
    forall p | p in item
      ensures ItemOk(text, cfg, g, at', item', p)
    {
      assert ItemOk(text, cfg, f, at, item, p);
      ItemStays(text, cfg, f, g, at, at', item, item', p);
    }
  }

  /** From `f` to `g` only the block instructions go to, and new blocks, changed. */
  ghost predicate Grown(f: seq<Block>, insert: Label, g: seq<Block>, insert': Label) {
    && Extends(f, g)
    && (forall b :: 0 <= b < |f| && b != insert ==> g[b] == f[b])
    && (insert' == insert || insert' >= |f|)
  }

  lemma {:induction false} GrownTransitive(f: seq<Block>, i: Label, g: seq<Block>, j: Label, h: seq<Block>, k: Label)
    requires Grown(f, i, g, j) && Grown(g, j, h, k)
    ensures Grown(f, i, h, k)
  {
    ExtendsTransitive(f, g, h);
  }

  // ----- instructions added at the end of a block -----

  function Appended(f: seq<Block>, b: Label, code: seq<Instr>): seq<Block>
    requires b < |f|
  {
    f[b := Block(f[b].phi, f[b].code + code)]
  }

  lemma {:induction false} AppendedTwice(f: seq<Block>, b: Label, c: seq<Instr>, d: seq<Instr>)
    requires b < |f|
    ensures Appended(Appended(f, b, c), b, d) == Appended(f, b, c + d)
  {
    assert f[b].code + c + d == f[b].code + (c + d);
  }

  lemma {:induction false} AppendedGrows(f: seq<Block>, b: Label, code: seq<Instr>)
    requires b < |f|
    ensures Grown(f, b, Appended(f, b, code), b)
    ensures forall k :: 0 <= k < |code| ==> InstrAt(Appended(f, b, code), b, |f[b].code| + k, code[k])
  {
    forall k | 0 <= k < |f|
      ensures PhiExtends(f[k].phi, Appended(f, b, code)[k].phi)
    {
    }
  }

  lemma {:induction false} AppendedThree(f: seq<Block>, b: Label, i: Instr, j: Instr, k: Instr)
    requires b < |f|
    ensures Appended(Appended(Appended(f, b, [i]), b, [j]), b, [k]) == Appended(f, b, [i, j, k])
  {
    AppendedTwice(f, b, [i], [j]);
    AppendedTwice(f, b, [i] + [j], [k]);
    assert [i] + [j] + [k] == [i, j, k];
  }

  lemma {:induction false} AppendedPast(f: seq<Block>, b: Label, code: seq<Instr>, extra: Block)
    requires b < |f|
    ensures Appended(f + [extra], b, code) == Appended(f, b, code) + [extra]
  {
  }
}
