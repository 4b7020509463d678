/** The compiler: one pass over the text, writing blocks as it goes. */
module BrainFCompiler {
  import opened BrainFLanguage
  import opened BrainFIr
  import opened BrainFLayout

  datatype Symbol = SymNone | SymRead | SymWrite | SymMove | SymChange | SymLoop | SymEndLoop | SymEof

  /** The arguments of `readloop`: the unfinished phi of the enclosing loop, the
      first block of its body and its test block; all null at the top. */
  datatype Enclosing = TopLevel | InLoop(phi: Reg, oldbb: Label, testbb: Label)

  /** `Abort` is a call of `abort()` after an error message. */
  datatype Outcome = Done | Abort(why: Verdict)

  /** `text[i..j]` is the symbol, with any ignored characters before it and,
      for the two kinds that are merged, between and after. */
  ghost predicate Covers(text: string, i: nat, j: nat, sym: Symbol, value: int) {
    && i <= j <= |text|
    && match sym
       case SymNone => Quiet(text, i, j)
       case SymRead => i < j && Quiet(text, i, j - 1) && text[j - 1] == ','
       case SymWrite => i < j && Quiet(text, i, j - 1) && text[j - 1] == '.'
       case SymMove => MoveRun(text, i, j) && value == Delta(text, i, j, '>', '<')
       case SymChange => ChangeRun(text, i, j) && value == Delta(text, i, j, '+', '-')
       case SymLoop => i < j && Quiet(text, i, j - 1) && text[j - 1] == '['
       case SymEndLoop => i < j && Quiet(text, i, j - 1) && text[j - 1] == ']'
       case SymEof => Quiet(text, i, j) && j == |text|
  }

  lemma {:induction false} CoversMore(text: string, i: nat, j: nat, sym: Symbol, value: int)
    requires Covers(text, i, j, sym, value) && !sym.SymNone? && !sym.SymEof?
    ensures i < j <= |text|
  {
  }

  predicate Merges(sym: Symbol) { sym == SymNone || sym == SymMove || sym == SymChange }

  lemma {:induction false} DeltaQuiet(text: string, i: nat, j: nat, up: char, down: char)
    requires Quiet(text, i, j) && IsCommand(up) && IsCommand(down)
    ensures Delta(text, i, j, up, down) == 0
    decreases j
  {
    if i < j {
      DeltaQuiet(text, i, j - 1, up, down);
    }
  }

  /** How far the brackets have been followed does not depend on text that has
      none. */
  lemma {:induction false} SkipPlain(text: string, i: nat, j: nat, d: nat)
    requires i <= j <= |text|
    requires forall k :: i <= k < j ==> text[k] != '[' && text[k] != ']'
    ensures Scan(text, i, d) == Scan(text, j, d)
    ensures Close(text, i, d) == Close(text, j, d)
    ensures Open(text, i, d) == Open(text, j, d)
    decreases j - i
  {
    if i < j {
      SkipPlain(text, i, j - 1, d);
    }
  }

  /** The builder's state together with the correspondence built so far. */
  datatype Draft = Draft(
    blocks: seq<Block>, insert: Label, curhead: Reg, nextReg: Reg,
    at: map<nat, Loc>, item: map<nat, Item>)
  {
    ghost function Here(): Loc
      requires insert < |blocks|
    {
      Loc(insert, |blocks[insert].code|, curhead)
    }
  }

  predicate Writable(cfg: Config, f: seq<Block>, b: Label) {
    b < |f| && b != END && (cfg.bounds ==> b != ABERROR)
  }

  ghost predicate Registers(cfg: Config, d: Draft) {
    && d.curhead < d.nextReg
    && d.nextReg > ARR && (cfg.bounds ==> d.nextReg > ARRMAX)
  }

  /** The keys of `at` are the finished boundaries, the boundaries of loops
      still open (`pending`) and the current one. */
  ghost predicate Boundaries(d: Draft, front: nat, pending: set<nat>) {
    && (forall p :: p in d.at ==> p <= front)
    && front !in d.item && front !in pending && d.item.Keys !! pending
    && d.at.Keys == d.item.Keys + pending + {front}
  }

  /** The text before `front` is translated, except that the loops whose
      boundaries are in `pending` are not closed yet. */
  ghost predicate Building(text: string, cfg: Config, d: Draft, front: nat, pending: set<nat>) {
    && Footer(cfg, d.blocks)
    && 0 in d.at && Header(cfg, d.blocks, d.at[0])
    && Writable(cfg, d.blocks, d.insert)
    && Registers(cfg, d)
    && front <= |text| && front in d.at && d.at[front] == d.Here()
    && Boundaries(d, front, pending)
    && AllOk(text, cfg, d.blocks, d.at, d.item)
  }

  /** `e` is `d` with more code, and its correspondence extends that of `d`. */
  ghost predicate Continues(d: Draft, e: Draft) {
    Grown(d.blocks, d.insert, e.blocks, e.insert) && Agrees(d.at, e.at) && Agrees(d.item, e.item)
    && e.nextReg >= d.nextReg
  }

  lemma {:induction false} ContinuesTransitive(d: Draft, e: Draft, g: Draft)
    requires Continues(d, e) && Continues(e, g)
    ensures Continues(d, g)
  {
    GrownTransitive(d.blocks, d.insert, e.blocks, e.insert, g.blocks, g.insert);
  }

  lemma {:induction false} HeaderStays(cfg: Config, f: seq<Block>, g: seq<Block>, start: Loc)
    requires Extends(f, g) && Header(cfg, f, start)
    ensures Header(cfg, g, start)
  {
    assert PhiExtends(f[ENTRY].phi, g[ENTRY].phi);
  }

  lemma {:induction false} FooterStays(cfg: Config, f: seq<Block>, insert: Label, g: seq<Block>, insert': Label)
    requires Footer(cfg, f) && Writable(cfg, f, insert) && Grown(f, insert, g, insert')
    ensures Footer(cfg, g)
  {
  }

  lemma {:induction false} NextIsNew(d: Draft, front: nat, next: nat, pending: set<nat>)
    requires Boundaries(d, front, pending) && front < next
    ensures next !in d.at && front !in d.item && d.item.Keys !! pending
  {
  }

  lemma {:induction false} BoundariesMove(d: Draft, e: Draft, front: nat, next: nat, it: Item, pending: set<nat>)
    requires Boundaries(d, front, pending) && front < next
    requires e.at.Keys == d.at.Keys + {next} && e.item == d.item[front := it]
    ensures Boundaries(e, next, pending)
  {
    assert e.item.Keys == d.item.Keys + {front};
  }

  lemma {:induction false} OneMoreOk(text: string, cfg: Config, f: seq<Block>, g: seq<Block>, at: map<nat, Loc>,
                                     at': map<nat, Loc>, item: map<nat, Item>, item': map<nat, Item>, front: nat,
                                     it: Item)
    requires AllOk(text, cfg, f, at, item) && Extends(f, g) && Agrees(at, at') && front !in item
    requires item' == item[front := it] && front in at' && ItemOk(text, cfg, g, at', item', front)
    ensures AllOk(text, cfg, g, at', item')
  {
    AllStay(text, cfg, f, g, at, at', item, item');
  }

  /** The code of the symbol between `front` and `next` is written. */
  lemma {:induction false} SymbolDone(text: string, cfg: Config, d: Draft, e: Draft, front: nat, next: nat, it: Item,
                                      pending: set<nat>)
    requires Building(text, cfg, d, front, pending)
    requires Grown(d.blocks, d.insert, e.blocks, e.insert) && Writable(cfg, e.blocks, e.insert) && Registers(cfg, e)
    requires e.nextReg >= d.nextReg && front < next <= |text|
    requires e.at == d.at[next := e.Here()] && e.item == d.item[front := it]
    requires ItemOk(text, cfg, e.blocks, e.at, e.item, front)
    ensures Building(text, cfg, e, next, pending)
    ensures Continues(d, e)
  {
    hide AllOk, Boundaries, Header, Footer, ItemOk, Extends;
    NextIsNew(d, front, next, pending);
    FooterStays(cfg, d.blocks, d.insert, e.blocks, e.insert);
    HeaderStays(cfg, d.blocks, e.blocks, d.at[0]);
    BoundariesMove(d, e, front, next, it, pending);
    OneMoreOk(text, cfg, d.blocks, e.blocks, d.at, e.at, d.item, e.item, front, it);
  }

  /** Three instructions are appended to the current block; the head stays in
      its register and two registers are used up. */
  ghost predicate ThreeMore(d: Draft, e: Draft, i: Instr, j: Instr, k: Instr) {
    && d.insert < |d.blocks|
    && e == d.(blocks := Appended(d.blocks, d.insert, [i, j, k]), nextReg := d.nextReg + 2, at := e.at, item := e.item)
  }

  lemma {:induction false} ThreeMoreCode(d: Draft, e: Draft, i: Instr, j: Instr, k: Instr)
    requires ThreeMore(d, e, i, j, k)
    ensures Grown(d.blocks, d.insert, e.blocks, e.insert) && e.insert < |e.blocks|
    ensures e.Here() == Loc(d.insert, |d.blocks[d.insert].code| + 3, d.curhead)
    ensures InstrAt(e.blocks, d.insert, |d.blocks[d.insert].code|, i)
    ensures InstrAt(e.blocks, d.insert, |d.blocks[d.insert].code| + 1, j)
    ensures InstrAt(e.blocks, d.insert, |d.blocks[d.insert].code| + 2, k)
  {
    AppendedGrows(d.blocks, d.insert, [i, j, k]);
    assert [i, j, k][0] == i && [i, j, k][1] == j && [i, j, k][2] == k;
  }

  lemma {:induction false} ReadCodeOk(text: string, cfg: Config, d: Draft, e: Draft, front: nat, next: nat)
    requires front in d.at && d.insert < |d.blocks| && d.at[front] == d.Here() && Registers(cfg, d)
    requires front < next && Covers(text, front, next, SymRead, 0)
    requires ThreeMore(d, e, Getchar(d.nextReg), Trunc(d.nextReg + 1, d.nextReg), Store(d.nextReg + 1, d.curhead))
    requires e.at == d.at[next := Loc(d.insert, |d.blocks[d.insert].code| + 3, d.curhead)]
    ensures ReadOk(text, cfg, e.blocks, e.at, front, Item.Read(next, d.nextReg, d.nextReg + 1))
  {
    ThreeMoreCode(d, e, Getchar(d.nextReg), Trunc(d.nextReg + 1, d.nextReg), Store(d.nextReg + 1, d.curhead));
  }

  lemma {:induction false} ReadDone(text: string, cfg: Config, d: Draft, e: Draft, front: nat, next: nat,
                                    pending: set<nat>)
    requires Building(text, cfg, d, front, pending) && Covers(text, front, next, SymRead, 0)
    requires ThreeMore(d, e, Getchar(d.nextReg), Trunc(d.nextReg + 1, d.nextReg), Store(d.nextReg + 1, d.curhead))
    requires e.at == d.at[next := e.Here()]
    requires e.item == d.item[front := Item.Read(next, d.nextReg, d.nextReg + 1)]
    ensures Building(text, cfg, e, next, pending)
    ensures Continues(d, e)
  {
    hide AllOk, Boundaries, Header, Covers, ReadOk, Extends, InstrAt;
    CoversMore(text, front, next, SymRead, 0);
    ThreeMoreCode(d, e, Getchar(d.nextReg), Trunc(d.nextReg + 1, d.nextReg), Store(d.nextReg + 1, d.curhead));
    ReadCodeOk(text, cfg, d, e, front, next);
    SymbolDone(text, cfg, d, e, front, next, e.item[front], pending);
  }

  lemma {:induction false} WriteCodeOk(text: string, cfg: Config, d: Draft, e: Draft, front: nat, next: nat)
    requires front in d.at && d.insert < |d.blocks| && d.at[front] == d.Here() && Registers(cfg, d)
    requires front < next && Covers(text, front, next, SymWrite, 0)
    requires ThreeMore(d, e, Load(d.nextReg, d.curhead), SExt(d.nextReg + 1, d.nextReg), Putchar(d.nextReg + 1))
    requires e.at == d.at[next := Loc(d.insert, |d.blocks[d.insert].code| + 3, d.curhead)]
    ensures WriteOk(text, cfg, e.blocks, e.at, front, Item.Write(next, d.nextReg, d.nextReg + 1))
  {
    ThreeMoreCode(d, e, Load(d.nextReg, d.curhead), SExt(d.nextReg + 1, d.nextReg), Putchar(d.nextReg + 1));
  }

  lemma {:induction false} WriteDone(text: string, cfg: Config, d: Draft, e: Draft, front: nat, next: nat,
                                     pending: set<nat>)
    requires Building(text, cfg, d, front, pending) && Covers(text, front, next, SymWrite, 0)
    requires ThreeMore(d, e, Load(d.nextReg, d.curhead), SExt(d.nextReg + 1, d.nextReg), Putchar(d.nextReg + 1))
    requires e.at == d.at[next := e.Here()]
    requires e.item == d.item[front := Item.Write(next, d.nextReg, d.nextReg + 1)]
    ensures Building(text, cfg, e, next, pending)
    ensures Continues(d, e)
  {
    hide AllOk, Boundaries, Header, Covers, WriteOk, Extends, InstrAt;
    CoversMore(text, front, next, SymWrite, 0);
    ThreeMoreCode(d, e, Load(d.nextReg, d.curhead), SExt(d.nextReg + 1, d.nextReg), Putchar(d.nextReg + 1));
    WriteCodeOk(text, cfg, d, e, front, next);
    SymbolDone(text, cfg, d, e, front, next, e.item[front], pending);
  }

  lemma {:induction false} ChangeCodeOk(text: string, cfg: Config, d: Draft, e: Draft, front: nat, next: nat,
                                        value: int)
    requires front in d.at && d.insert < |d.blocks| && d.at[front] == d.Here() && Registers(cfg, d)
    requires front < next && Covers(text, front, next, SymChange, value)
    requires ThreeMore(d, e, Load(d.nextReg, d.curhead), AddI8(d.nextReg + 1, d.nextReg, value),
                       Store(d.nextReg + 1, d.curhead))
    requires e.at == d.at[next := Loc(d.insert, |d.blocks[d.insert].code| + 3, d.curhead)]
    ensures ChangeOk(text, cfg, e.blocks, e.at, front, Item.Change(next, value, d.nextReg, d.nextReg + 1))
  {
    ThreeMoreCode(d, e, Load(d.nextReg, d.curhead), AddI8(d.nextReg + 1, d.nextReg, value),
                       Store(d.nextReg + 1, d.curhead));
  }

  lemma {:induction false} ChangeDone(text: string, cfg: Config, d: Draft, e: Draft, front: nat, next: nat,
                                      pending: set<nat>, value: int)
    requires Building(text, cfg, d, front, pending) && Covers(text, front, next, SymChange, value)
    requires ThreeMore(d, e, Load(d.nextReg, d.curhead), AddI8(d.nextReg + 1, d.nextReg, value),
                       Store(d.nextReg + 1, d.curhead))
    requires e.at == d.at[next := e.Here()]
    requires e.item == d.item[front := Item.Change(next, value, d.nextReg, d.nextReg + 1)]
    ensures Building(text, cfg, e, next, pending)
    ensures Continues(d, e)
  {
    hide AllOk, Boundaries, Header, Covers, ChangeOk, Extends, InstrAt;
    CoversMore(text, front, next, SymChange, value);
    ThreeMoreCode(d, e, Load(d.nextReg, d.curhead), AddI8(d.nextReg + 1, d.nextReg, value),
                       Store(d.nextReg + 1, d.curhead));
    ChangeCodeOk(text, cfg, d, e, front, next, value);
    SymbolDone(text, cfg, d, e, front, next, e.item[front], pending);
  }

  lemma {:induction false} MoveDone(text: string, cfg: Config, d: Draft, e: Draft, front: nat, next: nat,
                                    pending: set<nat>, value: int)
    requires Building(text, cfg, d, front, pending) && Covers(text, front, next, SymMove, value)
    requires StopsMoving(text, next) && !cfg.bounds
    requires e == d.(blocks := Appended(d.blocks, d.insert, [Gep(d.nextReg, d.curhead, value)]),
                     curhead := d.nextReg, nextReg := d.nextReg + 1, at := e.at, item := e.item)
    requires e.at == d.at[next := e.Here()] && e.item == d.item[front := Item.Move(next, value, 0, 0, 0)]
    ensures Building(text, cfg, e, next, pending)
    ensures Continues(d, e)
  {
    var code := [Gep(d.nextReg, d.curhead, value)];
    AppendedGrows(d.blocks, d.insert, code);
    assert code[0] == Gep(d.nextReg, d.curhead, value);
    assert MoveOk(text, cfg, e.blocks, e.at, front, e.item[front]);
    SymbolDone(text, cfg, d, e, front, next, e.item[front], pending);
  }

  /** A move with its bounds check: into `r`, tests in the next three registers,
      and on to block `l` when the head is on the tape. */
  function CheckedMove(r: Reg, h: Reg, value: int, l: Label): seq<Instr> {
    [Gep(r, h, value), ICmpUGE(r + 1, r, ARRMAX), ICmpULT(r + 2, r, ARR), OrI1(r + 3, r + 1, r + 2),
     CondBr(r + 3, ABERROR, l)]
  }

  /** Code at the end of a block, with another block added after it. */
  lemma {:induction false} AppendedThenBlock(f: seq<Block>, b: Label, code: seq<Instr>, extra: Block, g: seq<Block>)
    requires b < |f| && g == Appended(f, b, code) + [extra]
    ensures Grown(f, b, g, |f|) && g[|f|] == extra
    ensures forall k :: 0 <= k < |code| ==> InstrAt(g, b, |f[b].code| + k, code[k])
  {
    AppendedGrows(f, b, code);
    ExtendsTransitive(f, Appended(f, b, code), g);
    forall k | 0 <= k < |code|
      ensures InstrAt(g, b, |f[b].code| + k, code[k])
    {
      assert InstrAt(Appended(f, b, code), b, |f[b].code| + k, code[k]);
    }
  }

  lemma {:induction false} CheckedMoveCode(d: Draft, value: int, g: seq<Block>)
    requires d.insert < |d.blocks|
    requires g == Appended(d.blocks, d.insert, CheckedMove(d.nextReg, d.curhead, value, |d.blocks|)) +
             [Block(NoPhi, [])]
    ensures Grown(d.blocks, d.insert, g, |d.blocks|) && g[|d.blocks|] == Block(NoPhi, [])
    ensures InstrAt(g, d.insert, |d.blocks[d.insert].code|, Gep(d.nextReg, d.curhead, value))
    ensures InstrAt(g, d.insert, |d.blocks[d.insert].code| + 1, ICmpUGE(d.nextReg + 1, d.nextReg, ARRMAX))
    ensures InstrAt(g, d.insert, |d.blocks[d.insert].code| + 2, ICmpULT(d.nextReg + 2, d.nextReg, ARR))
    ensures InstrAt(g, d.insert, |d.blocks[d.insert].code| + 3, OrI1(d.nextReg + 3, d.nextReg + 1, d.nextReg + 2))
    ensures InstrAt(g, d.insert, |d.blocks[d.insert].code| + 4, CondBr(d.nextReg + 3, ABERROR, |d.blocks|))
  {
    hide InstrAt, Grown, Appended;
    var code := CheckedMove(d.nextReg, d.curhead, value, |d.blocks|);
    AppendedThenBlock(d.blocks, d.insert, code, Block(NoPhi, []), g);
    var n := |d.blocks[d.insert].code|;
    assert InstrAt(g, d.insert, n + 0, code[0]) && InstrAt(g, d.insert, n + 1, code[1]);
    assert InstrAt(g, d.insert, n + 2, code[2]) && InstrAt(g, d.insert, n + 3, code[3]);
    assert InstrAt(g, d.insert, n + 4, code[4]);
  }

  lemma {:induction false} CheckedMoveOk(text: string, cfg: Config, d: Draft, e: Draft, front: nat, next: nat,
                                         value: int)
    requires d.insert < |d.blocks| && front in d.at && d.at[front] == d.Here() && Registers(cfg, d)
    requires front < next && Covers(text, front, next, SymMove, value) && StopsMoving(text, next) && cfg.bounds
    requires e.blocks == Appended(d.blocks, d.insert, CheckedMove(d.nextReg, d.curhead, value, |d.blocks|)) +
             [Block(NoPhi, [])]
    requires e.at == d.at[next := Loc(|d.blocks|, 0, d.nextReg)]
    ensures MoveOk(text, cfg, e.blocks, e.at, front,
                   Item.Move(next, value, d.nextReg + 1, d.nextReg + 2, d.nextReg + 3))
  {
    CheckedMoveCode(d, value, e.blocks);
  }

  lemma {:induction false} CheckedMoveDone(text: string, cfg: Config, d: Draft, e: Draft, front: nat, next: nat,
                                           pending: set<nat>, value: int)
    requires Building(text, cfg, d, front, pending) && Covers(text, front, next, SymMove, value)
    requires StopsMoving(text, next) && cfg.bounds
    requires e.blocks == Appended(d.blocks, d.insert, CheckedMove(d.nextReg, d.curhead, value, |d.blocks|)) +
             [Block(NoPhi, [])]
    requires e.insert == |d.blocks| && e.curhead == d.nextReg && e.nextReg == d.nextReg + 4
    requires e.at == d.at[next := e.Here()]
    requires e.item == d.item[front := Item.Move(next, value, d.nextReg + 1, d.nextReg + 2, d.nextReg + 3)]
    ensures Building(text, cfg, e, next, pending)
    ensures Continues(d, e)
  {
    hide AllOk, Boundaries, Header, Covers, MoveOk, StopsMoving, Extends, InstrAt;
    CoversMore(text, front, next, SymMove, value);
    CheckedMoveOk(text, cfg, d, e, front, next, value);
    CheckedMoveCode(d, value, e.blocks);
    SymbolDone(text, cfg, d, e, front, next, e.item[front], pending);
  }

  /** Between the start of a loop at `p` and its end: the test block holds only
      its half-made phi, and `d` is at `front` inside the body that starts at `q`. */
  ghost predicate LoopOpen(text: string, cfg: Config, d: Draft, p: nat, q: nat, loop: Enclosing, front: nat)
    requires loop.InLoop?
  {
    && p < q <= front <= |text| && Quiet(text, p, q - 1) && text[q - 1] == '['
    && p in d.at && q in d.at && d.at[q] == Loc(loop.oldbb, 0, loop.phi)
    && InstrAt(d.blocks, d.at[p].block, d.at[p].pc, Br(loop.testbb))
    && loop.testbb < |d.blocks|
    && d.blocks[loop.testbb] == Block(Phi(loop.phi, [(d.at[p].head, d.at[p].block)]), [])
    && loop.oldbb < |d.blocks| && d.blocks[loop.oldbb].phi.NoPhi?
    && d.at[p].block < loop.testbb < loop.oldbb <= d.insert && Writable(cfg, d.blocks, loop.testbb)
    && Scratch(cfg, loop.phi) && loop.phi < d.nextReg
    && Close(text, q, 0) == Close(text, front, 0) && Open(text, front, 0) == q - 1
  }

  /** Where the code of an enclosing loop is when a longer stretch of its body
      has been translated. */
  lemma {:induction false} LoopOpenStays(text: string, cfg: Config, d: Draft, e: Draft, p: nat, q: nat,
                                         loop: Enclosing, front: nat, next: nat)
    requires loop.InLoop? && LoopOpen(text, cfg, d, p, q, loop, front)
    requires Continues(d, e) && front <= next <= |text|
    requires Close(text, front, 0) == Close(text, next, 0) && Open(text, front, 0) == Open(text, next, 0)
    ensures LoopOpen(text, cfg, e, p, q, loop, next)
  {
    assert PhiExtends(d.blocks[loop.oldbb].phi, e.blocks[loop.oldbb].phi);
  }

  /** The blocks after a '[' has been seen: a branch to a new test block whose
      phi knows the way in, and an empty body. */
  function LoopBegun(d: Draft): seq<Block>
    requires d.insert < |d.blocks|
  {
    Appended(d.blocks, d.insert, [Br(|d.blocks|)])
      + [Block(Phi(d.nextReg, [(d.curhead, d.insert)]), [])] + [Block(NoPhi, [])]
  }

  lemma {:induction false} LoopBegunCode(d: Draft, g: seq<Block>)
    requires d.insert < |d.blocks| && g == LoopBegun(d)
    ensures Grown(d.blocks, d.insert, g, |d.blocks| + 1) && |g| == |d.blocks| + 2
    ensures InstrAt(g, d.insert, |d.blocks[d.insert].code|, Br(|d.blocks|))
    ensures g[|d.blocks|] == Block(Phi(d.nextReg, [(d.curhead, d.insert)]), [])
    ensures g[|d.blocks| + 1] == Block(NoPhi, [])
  {
    var code := [Br(|d.blocks|)];
    var test := Block(Phi(d.nextReg, [(d.curhead, d.insert)]), []);
    AppendedThenBlock(d.blocks, d.insert, code, test, Appended(d.blocks, d.insert, code) + [test]);
    assert InstrAt(Appended(d.blocks, d.insert, code) + [test], d.insert, |d.blocks[d.insert].code| + 0, code[0]);
    ExtendsTransitive(d.blocks, Appended(d.blocks, d.insert, code) + [test], g);
  }

  lemma {:induction false} BegunBoundaries(d: Draft, e: Draft, front: nat, next: nat, pending: set<nat>)
    requires Boundaries(d, front, pending) && front < next
    requires e.at.Keys == d.at.Keys + {next} && e.item == d.item
    ensures Boundaries(e, next, pending + {front})
  {
  }

  lemma {:induction false} BegunOpen(text: string, cfg: Config, d: Draft, e: Draft, front: nat, next: nat)
    requires Writable(cfg, d.blocks, d.insert) && Registers(cfg, d) && front in d.at && d.at[front] == d.Here()
    requires Footer(cfg, d.blocks) && front < next && Covers(text, front, next, SymLoop, 0)
    requires e.blocks == LoopBegun(d) && e.insert == |d.blocks| + 1
    requires e.curhead == d.nextReg && e.nextReg == d.nextReg + 1
    requires e.at == d.at[next := Loc(|d.blocks| + 1, 0, d.nextReg)]
    ensures LoopOpen(text, cfg, e, front, next, InLoop(d.nextReg, |d.blocks| + 1, |d.blocks|), next)
  {
    LoopBegunCode(d, e.blocks);
  }

  lemma {:induction false} BeginLoopDone(text: string, cfg: Config, d: Draft, e: Draft, front: nat, next: nat,
                                         pending: set<nat>)
    requires Building(text, cfg, d, front, pending) && Covers(text, front, next, SymLoop, 0)
    requires e.blocks == LoopBegun(d) && e.insert == |d.blocks| + 1
    requires e.curhead == d.nextReg && e.nextReg == d.nextReg + 1
    requires e.at == d.at[next := e.Here()] && e.item == d.item
    ensures Building(text, cfg, e, next, pending + {front})
    ensures Continues(d, e)
  {
    hide Boundaries, Header, Extends, Covers, ItemOk;
    CoversMore(text, front, next, SymLoop, 0);
    NextIsNew(d, front, next, pending);
    LoopBegunCode(d, e.blocks);
    FooterStays(cfg, d.blocks, d.insert, e.blocks, e.insert);
    HeaderStays(cfg, d.blocks, e.blocks, d.at[0]);
    BegunBoundaries(d, e, front, next, pending);
    AllStay(text, cfg, d.blocks, e.blocks, d.at, e.at, d.item, e.item);
  }

  /** The blocks after the matching ']': a branch back, the finished phi and the
      test, and an empty block to go on in. */
  function LoopEnded(d: Draft, loop: Enclosing): seq<Block>
    requires loop.InLoop? && d.insert < |d.blocks| && loop.testbb < |d.blocks| && d.blocks[loop.testbb].phi.Phi?
  {
    var f := Appended(d.blocks, d.insert, [Br(loop.testbb)]);
    var t0, t1, exit := d.nextReg, d.nextReg + 1, |d.blocks|;
    f[loop.testbb := Block(
        Phi(loop.phi, d.blocks[loop.testbb].phi.incoming + [(d.curhead, d.insert)]),
        [Load(t0, loop.phi), ICmpEqZero(t1, t0), CondBr(t1, exit, loop.oldbb)])]
      + [Block(Phi(d.nextReg + 2, [(loop.phi, loop.testbb)]), [])]
  }

  /** The same, instruction by instruction. */
  ghost predicate TestWritten(d: Draft, loop: Enclosing, g: seq<Block>)
    requires loop.InLoop? && d.insert < |d.blocks| && loop.testbb < |d.blocks| && d.blocks[loop.testbb].phi.Phi?
  {
    && Extends(d.blocks, g)
    && (forall b :: 0 <= b < |d.blocks| && b != d.insert && b != loop.testbb ==> g[b] == d.blocks[b])
    && InstrAt(g, d.insert, |d.blocks[d.insert].code|, Br(loop.testbb))
    && InstrAt(g, loop.testbb, 0, Load(d.nextReg, loop.phi))
    && InstrAt(g, loop.testbb, 1, ICmpEqZero(d.nextReg + 1, d.nextReg))
    && InstrAt(g, loop.testbb, 2, CondBr(d.nextReg + 1, |d.blocks|, loop.oldbb))
    && g[loop.testbb].phi == Phi(loop.phi, d.blocks[loop.testbb].phi.incoming + [(d.curhead, d.insert)])
    && |g| == |d.blocks| + 1 && g[|d.blocks|] == Block(Phi(d.nextReg + 2, [(loop.phi, loop.testbb)]), [])
  }

  lemma {:induction false} LoopEndedCode(d: Draft, loop: Enclosing)
    requires loop.InLoop? && loop.testbb < |d.blocks| && d.insert < |d.blocks| && loop.testbb != d.insert
    requires d.blocks[loop.testbb].phi.Phi? && d.blocks[loop.testbb].phi.dst == loop.phi &&
             d.blocks[loop.testbb].code == []
    ensures TestWritten(d, loop, LoopEnded(d, loop))
  {
    var g := LoopEnded(d, loop);
    forall b | 0 <= b < |d.blocks|
      ensures d.blocks[b].code <= g[b].code && PhiExtends(d.blocks[b].phi, g[b].phi)
    {
    }
  }

  /** `e` is `d` with the loop at `p` closed by the ']' before `next`. */
  ghost predicate LoopClosed(d: Draft, e: Draft, p: nat, q: nat, loop: Enclosing, front: nat, next: nat) {
    && loop.InLoop? && d.insert < |d.blocks| && loop.testbb < |d.blocks| && d.blocks[loop.testbb].phi.Phi?
    && TestWritten(d, loop, e.blocks) && e.insert == |d.blocks|
    && e.curhead == d.nextReg + 2 && e.nextReg == d.nextReg + 3
    && e.at == d.at[next := Loc(|d.blocks|, 0, e.curhead)]
    && e.item == d.item[p := Item.Loop(q, front, loop.testbb, d.nextReg, d.nextReg + 1)][front := Item.EndLoop(p)]
  }

  lemma {:induction false} ClosedLoopEdges(text: string, cfg: Config, d: Draft, e: Draft, front: nat, next: nat,
                                           p: nat, q: nat, loop: Enclosing)
    requires d.insert < |d.blocks| && front in d.at && d.at[front] == d.Here()
    requires loop.InLoop? && LoopOpen(text, cfg, d, p, q, loop, front) && LoopClosed(d, e, p, q, loop, front, next)
    ensures LoopEdges(e.blocks, loop.testbb, d.at[p], d.at[front], d.at[q])
  {
    InstrStays(d.blocks, e.blocks, d.at[p].block, d.at[p].pc, Br(loop.testbb));
  }

  lemma {:induction false} ClosedLoopTest(text: string, cfg: Config, d: Draft, e: Draft, front: nat, next: nat, p: nat,
                                          q: nat, loop: Enclosing)
    requires Registers(cfg, d)
    requires loop.InLoop? && LoopOpen(text, cfg, d, p, q, loop, front) && LoopClosed(d, e, p, q, loop, front, next)
    ensures next in e.at && LoopTest(cfg, e.blocks, loop.testbb, d.nextReg, d.nextReg + 1, d.at[q], e.at[next])
  {
    assert PhiExtends(d.blocks[loop.oldbb].phi, e.blocks[loop.oldbb].phi);
  }

  lemma {:induction false} ClosedLoopText(text: string, cfg: Config, d: Draft, front: nat, next: nat, p: nat, q: nat,
                                          loop: Enclosing)
    requires Covers(text, front, next, SymEndLoop, 0)
    requires loop.InLoop? && LoopOpen(text, cfg, d, p, q, loop, front)
    ensures LoopText(text, p, q, front) && Close(text, q, 0) == next - 1
  {
    SkipPlain(text, front, next - 1, 0);
  }

  lemma {:induction false} ClosedLoopOk(text: string, cfg: Config, d: Draft, e: Draft, front: nat, next: nat, p: nat,
                                        q: nat, loop: Enclosing)
    requires Registers(cfg, d)
    requires d.insert < |d.blocks| && front in d.at && d.at[front] == d.Here() && next !in d.at
    requires p < front && Covers(text, front, next, SymEndLoop, 0)
    requires loop.InLoop? && LoopOpen(text, cfg, d, p, q, loop, front) && LoopClosed(d, e, p, q, loop, front, next)
    ensures p in e.at && p in e.item && e.item[p].Loop? && LoopOk(text, cfg, e.blocks, e.at, p, e.item[p])
  {
    ClosedLoopEdges(text, cfg, d, e, front, next, p, q, loop);
    ClosedLoopTest(text, cfg, d, e, front, next, p, q, loop);
    ClosedLoopText(text, cfg, d, front, next, p, q, loop);
  }

  lemma {:induction false} ClosedAllOk(text: string, cfg: Config, d: Draft, e: Draft, front: nat, next: nat, p: nat,
                                       q: nat, loop: Enclosing)
    requires AllOk(text, cfg, d.blocks, d.at, d.item) && Registers(cfg, d)
    requires d.insert < |d.blocks| && front in d.at && d.at[front] == d.Here() && next !in d.at
    requires p !in d.item && front !in d.item && p < front && Covers(text, front, next, SymEndLoop, 0)
    requires loop.InLoop? && LoopOpen(text, cfg, d, p, q, loop, front) && LoopClosed(d, e, p, q, loop, front, next)
    ensures AllOk(text, cfg, e.blocks, e.at, e.item)
  {
    hide Covers, LoopOk, InstrAt, Extends;
    forall b | b in e.item
      ensures ItemOk(text, cfg, e.blocks, e.at, e.item, b)
    {
      if b == p {
        ClosedLoopOk(text, cfg, d, e, front, next, p, q, loop);
      } else if b != front {
        assert ItemOk(text, cfg, d.blocks, d.at, d.item, b);
        ItemStays(text, cfg, d.blocks, e.blocks, d.at, e.at, d.item, e.item, b);
      }
    }
  }

  lemma {:induction false} ClosedBoundaries(d: Draft, e: Draft, front: nat, next: nat, pending: set<nat>, p: nat,
                                            it: Item, end: Item)
    requires Boundaries(d, front, pending) && front < next && p in pending
    requires e.at.Keys == d.at.Keys + {next} && e.item == d.item[p := it][front := end]
    ensures Boundaries(e, next, pending - {p})
  {
    assert e.item.Keys == d.item.Keys + {p, front};
  }

  lemma {:induction false} ClosedFooter(cfg: Config, d: Draft, loop: Enclosing, g: seq<Block>)
    requires Footer(cfg, d.blocks) && Writable(cfg, d.blocks, d.insert)
    requires loop.InLoop? && Writable(cfg, d.blocks, loop.testbb) && d.blocks[loop.testbb].phi.Phi?
    requires TestWritten(d, loop, g)
    ensures Footer(cfg, g)
  {
  }

  lemma {:induction false} EndLoopDone(text: string, cfg: Config, d: Draft, e: Draft, front: nat, next: nat,
                                       pending: set<nat>, p: nat, q: nat, loop: Enclosing)
    requires p in pending && loop.InLoop?
    requires Building(text, cfg, d, front, pending) && Covers(text, front, next, SymEndLoop, 0)
    requires LoopOpen(text, cfg, d, p, q, loop, front) && LoopClosed(d, e, p, q, loop, front, next)
    ensures Building(text, cfg, e, next, pending - {p})
    ensures Agrees(d.at, e.at) && Agrees(d.item, e.item) && Extends(d.blocks, e.blocks)
    ensures forall b :: 0 <= b < |d.blocks| && b != d.insert && b != loop.testbb ==> e.blocks[b] == d.blocks[b]
  {
    hide AllOk, Boundaries, Header, Footer, Covers, Extends, InstrAt;
    CoversMore(text, front, next, SymEndLoop, 0);
    NextIsNew(d, front, next, pending);
    ClosedFooter(cfg, d, loop, e.blocks);
    HeaderStays(cfg, d.blocks, e.blocks, d.at[0]);
    ClosedBoundaries(d, e, front, next, pending, p, e.item[p], e.item[front]);
    ClosedAllOk(text, cfg, d, e, front, next, p, q, loop);
  }

  // ----- the blocks `header` writes -----

  function HeaderCode(cfg: Config): seq<Instr> {
    if cfg.bounds then
      [Malloc(ARR), Memset(ARR, cfg.memtotal), Gep(ARRMAX, ARR, cfg.memtotal), Gep(2, ARR, cfg.memtotal / 2)]
    else
      [Malloc(ARR), Memset(ARR, cfg.memtotal), Gep(1, ARR, cfg.memtotal / 2)]
  }

  function HeaderBlocks(cfg: Config): seq<Block> {
    [Block(NoPhi, HeaderCode(cfg)), Block(NoPhi, [Free(ARR), Ret])]
      + (if cfg.bounds then [Block(NoPhi, [Puts, Br(END)])] else [])
  }

  lemma {:induction false} HeaderDone(text: string, cfg: Config, d: Draft)
    requires d.blocks == HeaderBlocks(cfg) && d.insert == ENTRY
    requires d.curhead == (if cfg.bounds then 2 else 1) && d.nextReg == d.curhead + 1
    requires d.at == map[0 := d.Here()] && d.item == map[]
    ensures InLevel(text, cfg, d, TopLevel, 0, 0, 0, {}, 0)
  {
    assert d.blocks[ENTRY].code == HeaderCode(cfg);
    assert Header(cfg, d.blocks, d.at[0]);
  }

  // ----- the reader -----

  /** The symbol in hand covers `text[front..mid]`; one that stopped a run has
      been read already and covers `text[mid..pos]`. */
  ghost predicate Lexed(text: string, front: nat, mid: nat, pos: nat, cursym: Symbol, curvalue: int, nextsym: Symbol,
                        nextvalue: int) {
    var lexed :=
      && mid <= pos <= |text| && Covers(text, front, mid, cursym, curvalue)
      && (nextsym.SymNone? ==> mid == pos && !cursym.SymMove? && !cursym.SymChange?)
      && (!nextsym.SymNone? ==>
            && (cursym.SymMove? || cursym.SymChange?)
            && Covers(text, mid, pos, nextsym, nextvalue)
            && (cursym.SymMove? ==> StopsMoving(text, mid)));
    lexed
  }

  lemma {:induction false} NothingLexed(text: string, cfg: Config, d: Draft, loop: Enclosing, depth: nat, p: nat,
                                        q: nat, pending: set<nat>, front: nat)
    requires InLevel(text, cfg, d, loop, depth, p, q, pending, front)
    ensures front <= |text| && Lexed(text, front, front, front, SymNone, 0, SymNone, 0)
  {
  }

  lemma {:induction false} LevelFacts(text: string, cfg: Config, d: Draft, loop: Enclosing, depth: nat, p: nat, q: nat,
                                      pending: set<nat>, front: nat)
    requires InLevel(text, cfg, d, loop, depth, p, q, pending, front)
    ensures Building(text, cfg, d, front, pending) && Scan(text, 0, 0) == Scan(text, front, depth)
    ensures front <= |text|
  {
  }

  lemma {:induction false} LexedFacts(text: string, front: nat, mid: nat, pos: nat, cursym: Symbol, curvalue: int,
                                      nextsym: Symbol, nextvalue: int)
    requires Lexed(text, front, mid, pos, cursym, curvalue, nextsym, nextvalue)
    ensures front <= mid <= pos <= |text| && Covers(text, front, mid, cursym, curvalue)
    ensures cursym.SymMove? ==> StopsMoving(text, mid)
    ensures cursym.SymLoop? || cursym.SymEndLoop? || cursym.SymEof? ==>
            mid == pos && Covers(text, front, mid, cursym, 0)
  {
  }

  /** Once the symbol in hand is written, the one read with it is in hand; after a loop
      there is none. */
  lemma {:induction false} NextInHand(text: string, front: nat, mid: nat, pos: nat, cursym: Symbol, curvalue: int,
                                      nextsym: Symbol, nextvalue: int, front': nat, pos': nat)
    requires Lexed(text, front, mid, pos, cursym, curvalue, nextsym, nextvalue)
    requires cursym.SymNone? ==> front == mid
    requires !cursym.SymEof? && !cursym.SymEndLoop? && pos' <= |text|
    requires if cursym.SymLoop? then pos' == front' > mid else pos' == pos && front' == mid
    ensures Covers(text, front', pos', nextsym, nextvalue) && front <= front' && (cursym.SymNone? || front < front')
  {
  }

  /** What follows a loop sees the same enclosing brackets as what precedes it. */
  lemma {:induction false} PastLoop(text: string, front: nat, q: nat, next: nat)
    requires Covers(text, front, q, SymLoop, 0) && q < next <= |text|
    requires Close(text, q, 0) == next - 1 && Open(text, next - 1, 0) == q - 1
    ensures Close(text, front, 0) == Close(text, next, 0) && Open(text, front, 0) == Open(text, next, 0)
  {
    SkipPlain(text, front, q - 1, 0);
    CloseNested(text, q, 0, 0);
    OpenNested(text, next - 1, 0, 0);
  }

  /** Any symbol but a bracket leaves the brackets as they were. */
  lemma {:induction false} PastPlain(text: string, front: nat, next: nat, sym: Symbol, value: int, d: nat)
    requires Covers(text, front, next, sym, value) && !sym.SymLoop? && !sym.SymEndLoop?
    ensures Scan(text, front, d) == Scan(text, next, d)
    ensures Close(text, front, d) == Close(text, next, d)
    ensures Open(text, front, d) == Open(text, next, d)
  {
    SkipPlain(text, front, next, d);
  }

  lemma {:induction false} PastQuiet(text: string, front: nat, next: nat, sym: Symbol, d: nat)
    requires Covers(text, front, next, sym, 0) && (sym.SymLoop? || sym.SymEndLoop?)
    ensures Scan(text, front, d) == Scan(text, next - 1, d)
    ensures Close(text, front, d) == Close(text, next - 1, d)
    ensures Open(text, front, d) == Open(text, next - 1, d)
  {
    SkipPlain(text, front, next - 1, d);
  }

  /** The state between two symbols, at nesting depth `depth`; `p` and `q` are
      the boundaries before and after the '[' of the enclosing loop. */
  ghost predicate InLevel(text: string, cfg: Config, d: Draft, loop: Enclosing, depth: nat, p: nat, q: nat,
                          pending: set<nat>, front: nat)
  {
    var inLevel :=
      && Building(text, cfg, d, front, pending)
      && Scan(text, 0, 0) == Scan(text, front, depth)
      && (loop.TopLevel? ==> depth == 0 && pending == {})
      && (loop.InLoop? ==> depth > 0 && p in pending && LoopOpen(text, cfg, d, p, q, loop, front));
    inLevel
  }

  lemma {:induction false} BodyLevel(text: string, cfg: Config, e: Draft, loop: Enclosing, depth: nat, p: nat, q: nat,
                                     pending: set<nat>)
    requires Building(text, cfg, e, q, pending + {p}) && Covers(text, p, q, SymLoop, 0)
    requires loop.InLoop? && LoopOpen(text, cfg, e, p, q, loop, q)
    requires Scan(text, 0, 0) == Scan(text, p, depth)
    ensures InLevel(text, cfg, e, loop, depth + 1, p, q, pending + {p}, q)
  {
    PastQuiet(text, p, q, SymLoop, depth);
  }

  /** More code of the same level. */
  lemma {:induction false} StillInLevel(text: string, cfg: Config, d: Draft, e: Draft, loop: Enclosing, depth: nat,
                                        p: nat, q: nat, pending: set<nat>, front: nat, next: nat)
    requires InLevel(text, cfg, d, loop, depth, p, q, pending, front)
    requires Building(text, cfg, e, next, pending) && Continues(d, e) && front <= next
    requires Scan(text, front, depth) == Scan(text, next, depth)
    requires Close(text, front, 0) == Close(text, next, 0) && Open(text, front, 0) == Open(text, next, 0)
    ensures InLevel(text, cfg, e, loop, depth, p, q, pending, next)
  {
    if loop.InLoop? {
      LoopOpenStays(text, cfg, d, e, p, q, loop, front, next);
    }
  }

  lemma {:induction false} ExtraBracket(text: string, cfg: Config, d: Draft, depth: nat, p: nat, q: nat,
                                        pending: set<nat>, front: nat, mid: nat)
    requires InLevel(text, cfg, d, TopLevel, depth, p, q, pending, front) && Covers(text, front, mid, SymEndLoop, 0)
    ensures Scan(text, 0, 0) == ExtraClose
  {
    PastQuiet(text, front, mid, SymEndLoop, depth);
  }

  lemma {:induction false} LoopEnds(text: string, cfg: Config, d: Draft, loop: Enclosing, depth: nat, p: nat, q: nat,
                                    pending: set<nat>, front: nat, mid: nat)
    requires loop.InLoop? && InLevel(text, cfg, d, loop, depth, p, q, pending, front)
    requires Covers(text, front, mid, SymEndLoop, 0)
    ensures p in pending && LoopOpen(text, cfg, d, p, q, loop, front) && front < mid && LoopRead(text, q, mid, depth)
  {
    PastQuiet(text, front, mid, SymEndLoop, depth);
    PastQuiet(text, front, mid, SymEndLoop, 0);
  }

  lemma {:induction false} TextEnds(text: string, cfg: Config, d: Draft, loop: Enclosing, depth: nat, p: nat, q: nat,
                                    pending: set<nat>, front: nat, mid: nat)
    requires InLevel(text, cfg, d, loop, depth, p, q, pending, front) && Covers(text, front, mid, SymEof, 0)
    ensures Scan(text, 0, 0) == if loop.InLoop? then MissingClose else Balanced
    ensures loop.TopLevel? ==> pending == {}
  {
    PastPlain(text, front, mid, SymEof, 0, depth);
  }

  /** What reading the body of `loop` to its end does to blocks made before. */
  ghost predicate LoopReturned(d: Draft, e: Draft, loop: Enclosing) {
    && loop.InLoop? && Agrees(d.at, e.at) && Agrees(d.item, e.item) && Extends(d.blocks, e.blocks)
    && (forall b :: 0 <= b < |d.blocks| && b != d.insert && b != loop.testbb ==> e.blocks[b] == d.blocks[b])
    && e.insert >= |d.blocks| && e.nextReg >= d.nextReg
  }

  /** The loop whose body starts at `q` has been read up to `next`. */
  ghost predicate LoopRead(text: string, q: nat, next: nat, depth: nat) {
    && 0 < q < next <= |text| && depth > 0
    && Scan(text, 0, 0) == Scan(text, next, depth - 1)
    && Close(text, q, 0) == next - 1 && Open(text, next - 1, 0) == q - 1
  }

  /** What comes of reading a level from `start` on, at which the builder was at `since`. */
  ghost predicate LevelRead(text: string, cfg: Config, since: Draft, now: Draft, loop: Enclosing, depth: nat, p: nat,
                            q: nat, pending: set<nat>, front: nat, r: Outcome)
  {
    var read :=
      match r
      case Abort(why) => why == Scan(text, 0, 0) && why != Balanced
      case Done =>
        if loop.TopLevel? then Scan(text, 0, 0) == Balanced && Complete(text, cfg, now.blocks, now.at, now.item)
        else
          && p in pending && Building(text, cfg, now, front, pending - {p})
          && LoopReturned(since, now, loop) && LoopRead(text, q, front, depth);
    read
  }

  lemma {:induction false} ContinuesReflexive(d: Draft)
    ensures Continues(d, d)
  {
  }

  lemma {:induction false} LoopReturnedAfter(d: Draft, e: Draft, g: Draft, loop: Enclosing)
    requires Continues(d, e) && LoopReturned(e, g, loop)
    ensures LoopReturned(d, g, loop)
  {
    ExtendsTransitive(d.blocks, e.blocks, g.blocks);
  }

  lemma {:induction false} BodyContinues(d: Draft, e: Draft, g: Draft, loop: Enclosing)
    requires Continues(d, e) && LoopReturned(e, g, loop)
    requires e.insert >= |d.blocks| && loop.testbb >= |d.blocks|
    ensures Continues(d, g)
  {
    ExtendsTransitive(d.blocks, e.blocks, g.blocks);
  }

  lemma {:induction false} HaltDone(text: string, cfg: Config, d: Draft, e: Draft, front: nat)
    requires Building(text, cfg, d, front, {}) && Quiet(text, front, |text|)
    requires e.blocks == Appended(d.blocks, d.insert, [Br(END)])
    requires e.at == d.at && e.item == d.item[front := Halt]
    ensures Complete(text, cfg, e.blocks, e.at, e.item)
  {
    hide Header, Extends;
    AppendedGrows(d.blocks, d.insert, [Br(END)]);
    assert InstrAt(e.blocks, d.insert, |d.blocks[d.insert].code| + 0, [Br(END)][0]);
    HeaderStays(cfg, d.blocks, e.blocks, d.at[0]);
    OneMoreOk(text, cfg, d.blocks, e.blocks, d.at, e.at, d.item, e.item, front, Halt);
  }

  class BrainF {
    const text: string
    const cfg: Config

    var pos: nat
    var blocks: seq<Block>
    var nextReg: Reg
    var insert: Label
    var curhead: Reg

    ghost var at: map<nat, Loc>
    ghost var item: map<nat, Item>

    constructor (text: string, cfg: Config)
      ensures this.text == text && this.cfg == cfg && pos == 0
      ensures blocks == [] && nextReg == 0 && at == map[] && item == map[]
    {
      this.text, this.cfg, pos := text, cfg, 0;
      blocks, nextReg, insert, curhead := [], 0, 0, 0;
      at, item := map[], map[];
    }

    ghost function Now(): Draft
      reads this
    {
      Draft(blocks, insert, curhead, nextReg, at, item)
    }

    // ----- IRBuilder -----

    method NewBlock() returns (b: Label)
      modifies this`blocks
      ensures b == |old(blocks)| && blocks == old(blocks) + [Block(NoPhi, [])]
    {
      b := |blocks|;
      blocks := blocks + [Block(NoPhi, [])];
    }

    method NewReg() returns (r: Reg)
      modifies this`nextReg
      ensures r == old(nextReg) && nextReg == r + 1
    {
      r := nextReg;
      nextReg := nextReg + 1;
    }

    method EmitTo(b: Label, i: Instr)
      requires b < |blocks|
      modifies this`blocks
      ensures blocks == Appended(old(blocks), b, [i])
    {
      blocks := blocks[b := blocks[b].(code := blocks[b].code + [i])];
    }

    method Emit(i: Instr)
      requires insert < |blocks|
      modifies this`blocks
      ensures blocks == Appended(old(blocks), insert, [i])
    {
      EmitTo(insert, i);
    }

    // ----- one method per symbol -----

    method EmitReadCode()
      requires insert < |blocks|
      modifies this`blocks, this`nextReg
      ensures nextReg == old(nextReg) + 2
      ensures blocks == Appended(old(blocks), insert, old([Getchar(nextReg), Trunc(nextReg + 1, nextReg),
                                                           Store(nextReg + 1, curhead)]))
    {
      ghost var before := blocks;
      var tape0 := NewReg();
      Emit(Getchar(tape0));
      var tape1 := NewReg();
      Emit(Trunc(tape1, tape0));
      Emit(Store(tape1, curhead));
      AppendedThree(before, insert, Getchar(tape0), Trunc(tape1, tape0), Store(tape1, curhead));
    }

    method EmitRead(ghost front: nat, ghost next: nat, ghost pending: set<nat>)
      requires Building(text, cfg, Now(), front, pending) && Covers(text, front, next, SymRead, 0)
      modifies this`blocks, this`nextReg, this`at, this`item
      ensures Building(text, cfg, Now(), next, pending) && Continues(old(Now()), Now())
    {
      ghost var d := Now();
      EmitReadCode();
      at, item := at[next := Now().Here()], item[front := Item.Read(next, d.nextReg, d.nextReg + 1)];
      ReadDone(text, cfg, d, Now(), front, next, pending);
    }

    method EmitWriteCode()
      requires insert < |blocks|
      modifies this`blocks, this`nextReg
      ensures nextReg == old(nextReg) + 2
      ensures blocks == Appended(old(blocks), insert, old([Load(nextReg, curhead), SExt(nextReg + 1, nextReg),
                                                           Putchar(nextReg + 1)]))
    {
      ghost var before := blocks;
      var tape0 := NewReg();
      Emit(Load(tape0, curhead));
      var tape1 := NewReg();
      Emit(SExt(tape1, tape0));
      Emit(Putchar(tape1));
      AppendedThree(before, insert, Load(tape0, curhead), SExt(tape1, tape0), Putchar(tape1));
    }

    method EmitWrite(ghost front: nat, ghost next: nat, ghost pending: set<nat>)
      requires Building(text, cfg, Now(), front, pending) && Covers(text, front, next, SymWrite, 0)
      modifies this`blocks, this`nextReg, this`at, this`item
      ensures Building(text, cfg, Now(), next, pending) && Continues(old(Now()), Now())
    {
      ghost var d := Now();
      EmitWriteCode();
      at, item := at[next := Now().Here()], item[front := Item.Write(next, d.nextReg, d.nextReg + 1)];
      WriteDone(text, cfg, d, Now(), front, next, pending);
    }

    method EmitChangeCode(curvalue: int)
      requires insert < |blocks|
      modifies this`blocks, this`nextReg
      ensures nextReg == old(nextReg) + 2
      ensures blocks == Appended(old(blocks), insert,
                                 old([Load(nextReg, curhead), AddI8(nextReg + 1, nextReg, curvalue),
                                      Store(nextReg + 1, curhead)]))
    {
      ghost var before := blocks;
      var tape0 := NewReg();
      Emit(Load(tape0, curhead));
      var tape1 := NewReg();
      Emit(AddI8(tape1, tape0, curvalue));
      Emit(Store(tape1, curhead));
      AppendedThree(before, insert, Load(tape0, curhead), AddI8(tape1, tape0, curvalue), Store(tape1, curhead));
    }

    method EmitChange(curvalue: int, ghost front: nat, ghost next: nat, ghost pending: set<nat>)
      requires Building(text, cfg, Now(), front, pending) && Covers(text, front, next, SymChange, curvalue)
      modifies this`blocks, this`nextReg, this`at, this`item
      ensures Building(text, cfg, Now(), next, pending) && Continues(old(Now()), Now())
    {
      ghost var d := Now();
      EmitChangeCode(curvalue);
      at, item := at[next := Now().Here()], item[front := Item.Change(next, curvalue, d.nextReg, d.nextReg + 1)];
      ChangeDone(text, cfg, d, Now(), front, next, pending, curvalue);
    }

    method EmitMove(curvalue: int, ghost front: nat, ghost next: nat, ghost pending: set<nat>)
      requires Building(text, cfg, Now(), front, pending) && Covers(text, front, next, SymMove, curvalue)
      requires StopsMoving(text, next)
      modifies this`blocks, this`nextReg, this`insert, this`curhead, this`at, this`item
      ensures Building(text, cfg, Now(), next, pending) && Continues(old(Now()), Now())
    {
      ghost var d := Now();
      EmitMoveCode(curvalue);
      at := at[next := Now().Here()];
      if cfg.bounds {
        item := item[front := Item.Move(next, curvalue, d.nextReg + 1, d.nextReg + 2, d.nextReg + 3)];
        CheckedMoveDone(text, cfg, d, Now(), front, next, pending, curvalue);
      } else {
        item := item[front := Item.Move(next, curvalue, 0, 0, 0)];
        MoveDone(text, cfg, d, Now(), front, next, pending, curvalue);
      }
    }

    /** The address computation, and the check if there is to be one. */
    method EmitMoveCode(curvalue: int)
      requires insert < |blocks|
      modifies this`blocks, this`nextReg, this`insert, this`curhead
      ensures curhead == old(nextReg)
      ensures cfg.bounds ==>
              blocks == Appended(old(blocks), old(insert),
                                 CheckedMove(old(nextReg), old(curhead), curvalue, |old(blocks)|)) +
                        [Block(NoPhi, [])] && insert == |old(blocks)| && nextReg == old(nextReg) + 4
      ensures !cfg.bounds ==>
              blocks == Appended(old(blocks), old(insert), [Gep(old(nextReg), old(curhead), curvalue)]) &&
              insert == old(insert) && nextReg == old(nextReg) + 1
    {
      ghost var d := Now();
      var head := NewReg();
      Emit(Gep(head, curhead, curvalue));
      curhead := head;
      if cfg.bounds {
        EmitBoundsCheck(d, curvalue);
      }
    }

    method EmitBoundsCheck(ghost d: Draft, ghost value: int)
      requires insert < |d.blocks| && insert == d.insert && curhead == d.nextReg && nextReg == d.nextReg + 1
      requires blocks == Appended(d.blocks, d.insert, [Gep(d.nextReg, d.curhead, value)])
      modifies this`blocks, this`nextReg, this`insert
      ensures blocks == Appended(d.blocks, d.insert, CheckedMove(d.nextReg, d.curhead, value, |d.blocks|)) +
              [Block(NoPhi, [])]
      ensures insert == |d.blocks| && nextReg == d.nextReg + 4
    {
      ghost var gep := Gep(d.nextReg, d.curhead, value);
      var test0 := NewReg();
      Emit(ICmpUGE(test0, curhead, ARRMAX));
      var test1 := NewReg();
      Emit(ICmpULT(test1, curhead, ARR));
      AppendedThree(d.blocks, insert, gep, ICmpUGE(test0, curhead, ARRMAX), ICmpULT(test1, curhead, ARR));
      var test2 := NewReg();
      Emit(OrI1(test2, test0, test1));
      var nextbb := NewBlock();
      Emit(CondBr(test2, ABERROR, nextbb));
      ghost var first := [gep, ICmpUGE(test0, curhead, ARRMAX), ICmpULT(test1, curhead, ARR)];
      AppendedTwice(d.blocks, insert, first, [OrI1(test2, test0, test1)]);
      ghost var four := first + [OrI1(test2, test0, test1)];
      AppendedPast(Appended(d.blocks, insert, four), insert, [CondBr(test2, ABERROR, nextbb)], Block(NoPhi, []));
      AppendedTwice(d.blocks, insert, four, [CondBr(test2, ABERROR, nextbb)]);
      assert four + [CondBr(test2, ABERROR, nextbb)] == CheckedMove(d.nextReg, d.curhead, value, |d.blocks|);
      insert := nextbb;
    }

    /** PHINode::Create in an empty block, with its first incoming value. */
    method CreatePhi(b: Label, value: Reg, from: Label) returns (phi: Reg)
      requires b < |blocks|
      modifies this`blocks, this`nextReg
      ensures phi == old(nextReg) && nextReg == phi + 1
      ensures blocks == old(blocks)[b := Block(Phi(phi, [(value, from)]), old(blocks[b].code))]
    {
      phi := NewReg();
      blocks := blocks[b := blocks[b].(phi := Phi(phi, [(value, from)]))];
    }

    method AddIncoming(b: Label, value: Reg, from: Label)
      requires b < |blocks| && blocks[b].phi.Phi?
      modifies this`blocks
      ensures blocks == old(blocks)[b := Block(Phi(old(blocks[b].phi.dst),
                                                   old(blocks[b].phi.incoming) + [(value, from)]),
                                               old(blocks[b].code))]
    {
      blocks := blocks[b := blocks[b].(phi := Phi(blocks[b].phi.dst, blocks[b].phi.incoming + [(value, from)]))];
    }

    method BeginLoop(ghost front: nat, ghost next: nat, ghost pending: set<nat>) returns (loop: Enclosing)
      requires Building(text, cfg, Now(), front, pending) && Covers(text, front, next, SymLoop, 0)
      modifies this`blocks, this`nextReg, this`insert, this`curhead, this`at
      ensures Building(text, cfg, Now(), next, pending + {front}) && Continues(old(Now()), Now())
      ensures loop.InLoop? && LoopOpen(text, cfg, Now(), front, next, loop, next)
      ensures loop.testbb >= |old(blocks)| && insert >= |old(blocks)|
    {
      ghost var d := Now();
      loop := EmitLoopStart();
      at := at[next := Now().Here()];
      BeginLoopDone(text, cfg, d, Now(), front, next, pending);
      BegunOpen(text, cfg, d, Now(), front, next);
    }

    /** The jump to the test block, its phi, and the empty body. */
    method EmitLoopStart() returns (loop: Enclosing)
      requires insert < |blocks|
      modifies this`blocks, this`nextReg, this`insert, this`curhead
      ensures blocks == LoopBegun(old(Now())) && insert == |old(blocks)| + 1
      ensures curhead == old(nextReg) && nextReg == old(nextReg) + 1
      ensures loop == InLoop(old(nextReg), |old(blocks)| + 1, |old(blocks)|)
    {
      var testbb := NewBlock();
      Emit(Br(testbb));
      var bb_0 := insert;
      var bb_1 := NewBlock();
      insert := bb_1;
      var phi_0 := CreatePhi(testbb, curhead, bb_0);
      curhead := phi_0;
      loop := InLoop(phi_0, bb_1, testbb);
    }

    method WriteLoopTest(loop: Enclosing)
      requires loop.InLoop? && insert < |blocks| && loop.testbb < |blocks| && loop.testbb != insert
      requires blocks[loop.testbb].phi.Phi? && blocks[loop.testbb].phi.dst == loop.phi && blocks[loop.testbb].code == []
      modifies this`blocks, this`nextReg, this`insert, this`curhead
      ensures blocks == LoopEnded(old(Now()), loop)
      ensures insert == |old(blocks)| && nextReg == old(nextReg) + 3 && curhead == old(nextReg) + 2
    {
      Emit(Br(loop.testbb));
      AddIncoming(loop.testbb, curhead, insert);
      var head_0 := loop.phi;
      var tape_0 := NewReg();
      EmitTo(loop.testbb, Load(tape_0, head_0));
      var test_0 := NewReg();
      EmitTo(loop.testbb, ICmpEqZero(test_0, tape_0));
      var bb_0 := NewBlock();
      EmitTo(loop.testbb, CondBr(test_0, bb_0, loop.oldbb));
      insert := bb_0;
      var phi_1 := CreatePhi(bb_0, head_0, loop.testbb);
      curhead := phi_1;
      assert blocks[loop.testbb].code ==
             [Load(tape_0, head_0), ICmpEqZero(test_0, tape_0), CondBr(test_0, bb_0, loop.oldbb)];
    }

    method EndLoop(loop: Enclosing, ghost front: nat, ghost next: nat, ghost pending: set<nat>, ghost p: nat,
                   ghost q: nat)
      requires loop.InLoop? && p in pending
      requires Building(text, cfg, Now(), front, pending) && Covers(text, front, next, SymEndLoop, 0)
      requires LoopOpen(text, cfg, Now(), p, q, loop, front)
      modifies this`blocks, this`nextReg, this`insert, this`curhead, this`at, this`item
      ensures Building(text, cfg, Now(), next, pending - {p})
      ensures LoopReturned(old(Now()), Now(), loop)
    {
      hide AllOk, Boundaries, Header, Footer, Covers, Extends, InstrAt;
      ghost var d := Now();
      WriteLoopTest(loop);
      LoopEndedCode(d, loop);
      item := item[p := Item.Loop(q, front, loop.testbb, d.nextReg, d.nextReg + 1)][front := Item.EndLoop(p)];
      at := at[next := Now().Here()];
      EndLoopDone(text, cfg, d, Now(), front, next, pending, p, q, loop);
    }

    // ----- header -----

    /** The tape, the head in its middle, and the blocks that end the program. */
    method WriteHeader()
      requires blocks == [] && nextReg == 0 && at == map[] && item == map[]
      modifies this`blocks, this`nextReg, this`insert, this`curhead, this`at
      ensures InLevel(text, cfg, Now(), TopLevel, 0, 0, 0, {}, 0)
    {
      WriteHeaderBlocks();
      at := map[0 := Now().Here()];
      HeaderDone(text, cfg, Now());
    }

    method WriteHeaderBlocks()
      requires blocks == [] && nextReg == 0
      modifies this`blocks, this`nextReg, this`insert, this`curhead
      ensures blocks == HeaderBlocks(cfg) && insert == ENTRY
      ensures curhead == (if cfg.bounds then 2 else 1) && nextReg == curhead + 1
    {
      insert := NewBlock();
      var arr := NewReg();
      Emit(Malloc(arr));
      Emit(Memset(arr, cfg.memtotal));
      if cfg.bounds {
        var arrmax := NewReg();
        Emit(Gep(arrmax, arr, cfg.memtotal));
      }
      curhead := NewReg();
      Emit(Gep(curhead, arr, cfg.memtotal / 2));
      assert blocks[0].code == HeaderCode(cfg);
      var endbb := NewBlock();
      EmitTo(endbb, Free(arr));
      EmitTo(endbb, Ret);
      assert blocks[endbb] == Block(NoPhi, [Free(ARR), Ret]);
      if cfg.bounds {
        var aberrorbb := NewBlock();
        EmitTo(aberrorbb, Puts);
        EmitTo(aberrorbb, Br(endbb));
        assert blocks[aberrorbb] == Block(NoPhi, [Puts, Br(END)]);
      }
    }

    // ----- readloop -----

    /** The stdin loop: completes the symbol in hand, and may read one more. */
    method ReadSymbols(first: Symbol, firstvalue: int, stale: int, ghost front: nat)
      returns (cursym: Symbol, curvalue: int, nextsym: Symbol, nextvalue: int, ghost mid: nat)
      requires Covers(text, front, pos, first, firstvalue)
      modifies this`pos
      ensures pos <= |text| && Lexed(text, front, mid, pos, cursym, curvalue, nextsym, nextvalue)
      ensures !cursym.SymNone?
    {
      cursym, curvalue, nextsym, nextvalue, mid := first, firstvalue, SymNone, stale, pos;
      var loop := Merges(cursym);
      while loop
        invariant pos <= |text|
        invariant loop ==>
                  Merges(cursym) && nextsym.SymNone? && mid == pos && Covers(text, front, mid, cursym, curvalue)
        invariant !loop ==> Lexed(text, front, mid, pos, cursym, curvalue, nextsym, nextvalue) && !cursym.SymNone?
        decreases |text| - pos, loop
      {
        if pos == |text| {
          if cursym == SymNone {
            cursym := SymEof;
          } else {
            nextsym := SymEof;
          }
          loop := false;
        } else {
          var c := text[pos];
          pos := pos + 1;
          if c == '-' || c == '+' {
            var direction := if c == '-' then -1 else 1;
            if cursym == SymChange {
              curvalue := curvalue + direction;
              mid := pos;
            } else if cursym == SymNone {
              DeltaQuiet(text, front, mid, '+', '-');
              cursym, curvalue, mid := SymChange, direction, pos;
              assert IsChange(text[pos - 1]);
            } else {
              assert Delta(text, mid, mid, '+', '-') == 0 && IsChange(text[mid]);
              nextsym, nextvalue, loop := SymChange, direction, false;
            }
          } else if c == '<' || c == '>' {
            var direction := if c == '<' then -1 else 1;
            if cursym == SymMove {
              curvalue := curvalue + direction;
              mid := pos;
            } else if cursym == SymNone {
              DeltaQuiet(text, front, mid, '>', '<');
              cursym, curvalue, mid := SymMove, direction, pos;
              assert IsMove(text[pos - 1]);
            } else {
              assert Delta(text, mid, mid, '>', '<') == 0 && IsMove(text[mid]);
              nextsym, nextvalue, loop := SymMove, direction, false;
            }
          } else if c == ',' || c == '.' || c == '[' || c == ']' {
            var sym :=
              if c == ',' then SymRead else if c == '.' then SymWrite else if c == '[' then SymLoop else SymEndLoop;
            if cursym == SymNone {
              cursym, mid := sym, pos;
            } else {
              nextsym := sym;
            }
            loop := false;
          } else {
            mid := pos;
          }
        }
      }
    }

    /** The cases of the switch that write straight-line code. */
    method WriteSymbol(cursym: Symbol, curvalue: int, ghost front: nat, ghost mid: nat, ghost pending: set<nat>)
      requires Building(text, cfg, Now(), front, pending) && Covers(text, front, mid, cursym, curvalue)
      requires cursym.SymRead? || cursym.SymWrite? || cursym.SymMove? || cursym.SymChange?
      requires cursym.SymMove? ==> StopsMoving(text, mid)
      modifies this`blocks, this`nextReg, this`insert, this`curhead, this`at, this`item
      ensures Building(text, cfg, Now(), mid, pending) && Continues(old(Now()), Now())
    {
      match cursym
      case SymRead => EmitRead(front, mid, pending);
      case SymWrite => EmitWrite(front, mid, pending);
      case SymMove => EmitMove(curvalue, front, mid, pending);
      case SymChange => EmitChange(curvalue, front, mid, pending);
    }

    /** The case that starts a loop and reads its body. */
    method WriteLoop(ghost depth: nat, ghost front: nat, ghost q: nat, ghost pending: set<nat>)
      returns (r: Outcome, ghost next: nat)
      requires Building(text, cfg, Now(), front, pending) && Covers(text, front, q, SymLoop, 0) && pos == q
      requires Scan(text, 0, 0) == Scan(text, front, depth)
      modifies this`pos, this`blocks, this`nextReg, this`insert, this`curhead, this`at, this`item
      ensures r.Abort? ==> r.why == Scan(text, 0, 0) && r.why != Balanced
      ensures r.Done? ==>
        && Building(text, cfg, Now(), next, pending) && Continues(old(Now()), Now())
        && pos == next && q < next && Scan(text, 0, 0) == Scan(text, next, depth)
        && Close(text, front, 0) == Close(text, next, 0) && Open(text, front, 0) == Open(text, next, 0)
      decreases |text| - front, 1
    {
      hide AllOk, Header, Footer, LoopOpen, LoopReturned, Continues;
      ghost var d := Now();
      var loop := BeginLoop(front, q, pending);
      ghost var e := Now();
      BodyLevel(text, cfg, e, loop, depth, front, q, pending);
      r, next := ReadLoop(loop, depth + 1, front, q, pending + {front}, q);
      if r.Done? {
        assert pending + {front} - {front} == pending;
        PastLoop(text, front, q, next);
        BodyContinues(d, e, Now(), loop);
      }
    }

    /** One turn of the switch. */
    method Write(loop: Enclosing, cursym: Symbol, curvalue: int, ghost since: Draft, ghost depth: nat, ghost p: nat,
                 ghost q: nat, ghost pending: set<nat>, ghost front: nat, ghost mid: nat)
      returns (r: Outcome, ghost next: nat)
      requires Continues(since, Now())
      requires InLevel(text, cfg, Now(), loop, depth, p, q, pending, front)
      requires Covers(text, front, mid, cursym, curvalue) && !cursym.SymEof? && !cursym.SymEndLoop?
      requires cursym.SymMove? ==> StopsMoving(text, mid)
      requires cursym.SymLoop? ==> pos == mid
      requires cursym.SymNone? ==> front == mid
      modifies this`pos, this`blocks, this`nextReg, this`insert, this`curhead, this`at, this`item
      ensures r.Abort? ==> r.why == Scan(text, 0, 0) && r.why != Balanced
      ensures r.Done? ==> InLevel(text, cfg, Now(), loop, depth, p, q, pending, next) && Continues(since, Now())
      ensures r.Done? ==> if cursym.SymLoop? then pos == next && next > mid else pos == old(pos) && next == mid
      decreases |text| - front, 2
    {
      hide InLevel, Building, LoopOpen, Continues;
      LevelFacts(text, cfg, Now(), loop, depth, p, q, pending, front);
      ghost var d := Now();
      r, next := Done, mid;
      if cursym == SymLoop {
        r, next := WriteLoop(depth, front, mid, pending);
        if r.Abort? {
          return;
        }
      } else if cursym != SymNone {
        WriteSymbol(cursym, curvalue, front, mid, pending);
        PastPlain(text, front, mid, cursym, curvalue, depth);
        PastPlain(text, front, mid, cursym, curvalue, 0);
      } else {
        ContinuesReflexive(d);
      }
      StillInLevel(text, cfg, d, Now(), loop, depth, p, q, pending, front, next);
      ContinuesTransitive(since, d, Now());
    }

    /** What comes after the big loop. */
    method Finish(loop: Enclosing, cursym: Symbol, ghost since: Draft, ghost depth: nat, ghost p: nat, ghost q: nat,
                  ghost pending: set<nat>, ghost front: nat, ghost mid: nat)
      returns (r: Outcome, ghost next: nat)
      requires Continues(since, Now())
      requires InLevel(text, cfg, Now(), loop, depth, p, q, pending, front)
      requires Covers(text, front, mid, cursym, 0) && (cursym.SymEof? || cursym.SymEndLoop?)
      modifies this`blocks, this`nextReg, this`insert, this`curhead, this`at, this`item
      ensures LevelRead(text, cfg, since, Now(), loop, depth, p, q, pending, next, r)
      ensures r.Done? && loop.InLoop? ==> front < next == mid && cursym.SymEndLoop?
    {
      hide InLevel, Building, LoopOpen, Continues, Covers, Complete, LoopReturned, LoopRead;
      next := mid;
      ghost var d := Now();
      LevelFacts(text, cfg, d, loop, depth, p, q, pending, front);
      if cursym == SymEndLoop {
        if loop.TopLevel? {
          ExtraBracket(text, cfg, d, depth, p, q, pending, front, mid);
          r := Abort(ExtraClose);
          return;
        }
        LoopEnds(text, cfg, d, loop, depth, p, q, pending, front, mid);
        EndLoop(loop, front, mid, pending, p, q);
        LoopReturnedAfter(since, d, Now(), loop);
        r := Done;
        return;
      }
      TextEnds(text, cfg, d, loop, depth, p, q, pending, front, mid);
      r := FinishProgram(loop, pending, front, mid);
    }

    /** At the end of the text. */
    method FinishProgram(loop: Enclosing, ghost pending: set<nat>, ghost front: nat, ghost mid: nat)
      returns (r: Outcome)
      requires Building(text, cfg, Now(), front, pending) && Covers(text, front, mid, SymEof, 0)
      requires loop.TopLevel? ==> pending == {}
      modifies this`blocks, this`item
      ensures r == if loop.InLoop? then Abort(MissingClose) else Done
      ensures r.Done? ==> Complete(text, cfg, blocks, at, item)
    {
      ghost var d := Now();
      Emit(Br(END));
      if loop.InLoop? {
        return Abort(MissingClose);
      }
      item := item[front := Halt];
      HaltDone(text, cfg, d, Now(), front);
      r := Done;
    }

    /** One turn of the big loop: the symbol in hand is written, the next one read. */
    method Turn(loop: Enclosing, cursym0: Symbol, curvalue0: int, nextsym0: Symbol, nextvalue0: int,
                ghost since: Draft, ghost depth: nat, ghost p: nat, ghost q: nat, ghost pending: set<nat>,
                ghost front0: nat, ghost mid0: nat)
      returns (r: Outcome, cursym: Symbol, curvalue: int, nextsym: Symbol, nextvalue: int, ghost front: nat,
               ghost mid: nat)
      requires pos <= |text| && Lexed(text, front0, mid0, pos, cursym0, curvalue0, nextsym0, nextvalue0)
      requires !cursym0.SymEof? && !cursym0.SymEndLoop? && (cursym0.SymNone? ==> front0 == mid0)
      requires InLevel(text, cfg, Now(), loop, depth, p, q, pending, front0) && Continues(since, Now())
      modifies this`pos, this`blocks, this`nextReg, this`insert, this`curhead, this`at, this`item
      ensures r.Abort? ==> r.why == Scan(text, 0, 0) && r.why != Balanced
      ensures r.Done? ==>
        && pos <= |text| && front0 <= front <= |text| &&
          Lexed(text, front, mid, pos, cursym, curvalue, nextsym, nextvalue)
        && !cursym.SymNone? && (cursym0.SymNone? || front0 < front)
        && InLevel(text, cfg, Now(), loop, depth, p, q, pending, front) && Continues(since, Now())
      decreases |text| - front0, 3
    {
      hide InLevel, Lexed, Continues, Covers;
      LexedFacts(text, front0, mid0, pos, cursym0, curvalue0, nextsym0, nextvalue0);
      cursym, curvalue, nextsym, nextvalue, mid := cursym0, curvalue0, nextsym0, nextvalue0, mid0;
      r, front := Write(loop, cursym, curvalue, since, depth, p, q, pending, front0, mid);
      if r.Done? {
        ghost var e := Now();
        LevelFacts(text, cfg, e, loop, depth, p, q, pending, front);
        NextInHand(text, front0, mid0, old(pos), cursym0, curvalue0, nextsym0, nextvalue0, front, pos);
        cursym, curvalue, nextsym, nextvalue, mid := ReadSymbols(nextsym, nextvalue, nextvalue, front);
        assert Now() == e;
      }
    }

    method ReadLoop(loop: Enclosing, ghost depth: nat, ghost p: nat, ghost q: nat, ghost pending: set<nat>,
                    ghost start: nat)
      returns (r: Outcome, ghost front: nat)
      requires InLevel(text, cfg, Now(), loop, depth, p, q, pending, start) && pos == start
      modifies this`pos, this`blocks, this`nextReg, this`insert, this`curhead, this`at, this`item
      ensures LevelRead(text, cfg, old(Now()), Now(), loop, depth, p, q, pending, front, r)
      ensures r.Done? && loop.InLoop? ==> start < front == pos
      decreases |text| - start, 4
    {
      hide InLevel, Lexed, Continues, Covers;
      NothingLexed(text, cfg, Now(), loop, depth, p, q, pending, start);
      ghost var d := Now();
      ContinuesReflexive(d);
      var cursym, curvalue, nextsym, nextvalue := SymNone, 0, SymNone, 0;
      front := start;
      ghost var mid := start;
      while cursym != SymEof && cursym != SymEndLoop
        invariant pos <= |text| && start <= front <= |text|
        invariant Lexed(text, front, mid, pos, cursym, curvalue, nextsym, nextvalue)
        invariant cursym.SymNone? ==> front == mid
        invariant InLevel(text, cfg, Now(), loop, depth, p, q, pending, front) && Continues(d, Now())
        decreases |text| - front, cursym.SymNone?
      {
        r, cursym, curvalue, nextsym, nextvalue, front, mid :=
          Turn(loop, cursym, curvalue, nextsym, nextvalue, d, depth, p, q, pending, front, mid);
        if r.Abort? {
          return;
        }
      }
      LexedFacts(text, front, mid, pos, cursym, curvalue, nextsym, nextvalue);
      r, front := Finish(loop, cursym, d, depth, p, q, pending, front, mid);
    }

    /** The whole translation, or the error the compiler aborts with. */
    method Parse() returns (r: Outcome)
      requires blocks == [] && nextReg == 0 && at == map[] && item == map[] && pos == 0
      modifies this
      ensures r == if Scan(text, 0, 0) == Balanced then Done else Abort(Scan(text, 0, 0))
      ensures r.Done? ==> Complete(text, cfg, blocks, at, item)
    {
      WriteHeader();
      ghost var front;
      r, front := ReadLoop(TopLevel, 0, 0, 0, {}, 0);
    }
  }
}
