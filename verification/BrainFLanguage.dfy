/** The BrainF language as its users know it: eight commands over a tape of
    bytes, executed one character at a time.  Nothing here knows about the
    compiler; brackets are paired by scanning the text. */
module BrainFLanguage {

  /** What `parse` is told besides the program: whether to emit bounds checks
      and how many cells the tape has. */
  datatype Config = Config(bounds: bool, memtotal: nat)

  datatype Status = Running | Finished | OffTape

  /** What reaches standard output: a byte by `putchar`, a line by `puts`. */
  datatype Output = Byte(value: int) | Line(text: string)

  datatype State = State(
    pc: nat, head: int, tape: map<int, int>,
    input: seq<int>, output: seq<Output>, status: Status)

  predicate IsChange(c: char) { c == '+' || c == '-' }

  predicate IsMove(c: char) { c == '<' || c == '>' }

  /** Every other character is ignored. */
  predicate IsCommand(c: char) {
    IsChange(c) || IsMove(c) || c == ',' || c == '.' || c == '[' || c == ']'
  }

  /** Cells never written hold zero. */
  function Cell(tape: map<int, int>, a: int): int {
    if a in tape then tape[a] else 0
  }

  const ERROR_TEXT := "Error: The head has left the tape."

  /** Index of the ']' that closes `d` + 1 loops open at `i`, or the length of
      the text when there is none. */
  function Close(text: string, i: nat, d: nat): (j: nat)
    requires i <= |text|
    ensures i <= j <= |text|
    ensures j < |text| ==> text[j] == ']'
    decreases |text| - i
  {
    if i == |text| then i
    else if text[i] == '[' then Close(text, i + 1, d + 1)
    else if text[i] == ']' then (if d == 0 then i else Close(text, i + 1, d - 1))
    else Close(text, i + 1, d)
  }

  /** Index of the '[' that opens the loop whose inside ends at `j`, seen from
      `d` loops further in, or the length of the text when there is none. */
  function Open(text: string, j: nat, d: nat): (i: nat)
    requires j <= |text|
    ensures i < j || i == |text|
    ensures i < |text| ==> text[i] == '['
    decreases j
  {
    if j == 0 then |text|
    else if text[j - 1] == ']' then Open(text, j - 1, d + 1)
    else if text[j - 1] == '[' then (if d == 0 then j - 1 else Open(text, j - 1, d - 1))
    else Open(text, j - 1, d)
  }

  datatype Verdict = Balanced | ExtraClose | MissingClose

  /** Whether the brackets of `text[i..]` balance when `d` loops are open. */
  function Scan(text: string, i: nat, d: nat): Verdict
    requires i <= |text|
    decreases |text| - i
  {
    if i == |text| then (if d == 0 then Balanced else MissingClose)
    else if text[i] == '[' then Scan(text, i + 1, d + 1)
    else if text[i] == ']' then (if d == 0 then ExtraClose else Scan(text, i + 1, d - 1))
    else Scan(text, i + 1, d)
  }

  function Initial(cfg: Config, input: seq<int>): State {
    State(0, cfg.memtotal / 2, map[], input, [], Running)
  }

  /** With bounds checking, the head is inspected whenever the program is about
      to do something other than move it, and when the program ends. */
  predicate HeadLost(text: string, cfg: Config, s: State) {
    && cfg.bounds
    && (s.pc >= |text| || (IsCommand(text[s.pc]) && !IsMove(text[s.pc])))
    && !(0 <= s.head < cfg.memtotal)
  }

  /** One character of the program. */
  function Step(text: string, cfg: Config, s: State): State {
    if s.status != Running then s
    else if HeadLost(text, cfg, s) then s.(status := OffTape, output := s.output + [Line(ERROR_TEXT)])
    else if s.pc >= |text| then s.(status := Finished)
    else Execute(text, s)
  }

  function Execute(text: string, s: State): State
    requires s.pc < |text|
  {
    var c := text[s.pc];
    if c == ',' then
      var byte := if s.input == [] then 255 else s.input[0] % 256;
      var rest := if s.input == [] then [] else s.input[1..];
      s.(pc := s.pc + 1, tape := s.tape[s.head := byte], input := rest)
    else if c == '.' then s.(pc := s.pc + 1, output := s.output + [Byte(Cell(s.tape, s.head))])
    else if c == '+' then s.(pc := s.pc + 1, tape := s.tape[s.head := (Cell(s.tape, s.head) + 1) % 256])
    else if c == '-' then s.(pc := s.pc + 1, tape := s.tape[s.head := (Cell(s.tape, s.head) - 1) % 256])
    else if c == '<' then s.(pc := s.pc + 1, head := s.head - 1)
    else if c == '>' then s.(pc := s.pc + 1, head := s.head + 1)
    else if c == '[' then
      (if Cell(s.tape, s.head) == 0 then s.(pc := Close(text, s.pc + 1, 0) + 1) else s.(pc := s.pc + 1))
    else if c == ']' then s.(pc := Open(text, s.pc, 0))
    else s.(pc := s.pc + 1)
  }

  function Run(text: string, cfg: Config, s: State, n: nat): State
    decreases n
  {
    if n == 0 then s else Run(text, cfg, Step(text, cfg, s), n - 1)
  }

  lemma {:induction false} RunSplit(text: string, cfg: Config, s: State, m: nat, n: nat)
    ensures Run(text, cfg, s, m + n) == Run(text, cfg, Run(text, cfg, s, m), n)
    decreases m
  {
    if m > 0 {
      RunSplit(text, cfg, Step(text, cfg, s), m - 1, n);
    }
  }

  /** A run that has ended stays where it is. */
  lemma {:induction false} RunEnded(text: string, cfg: Config, s: State, n: nat)
    requires s.status != Running
    ensures Run(text, cfg, s, n) == s
    decreases n
  {
    if n > 0 {
      RunEnded(text, cfg, s, n - 1);
    }
  }

  lemma {:induction false} RunOutput(text: string, cfg: Config, s: State, n: nat)
    ensures s.output <= Run(text, cfg, s, n).output
    decreases n
  {
    if n > 0 {
      RunOutput(text, cfg, Step(text, cfg, s), n - 1);
    }
  }

  // ----- brackets -----

  /** Leaving `e` + `d` + 2 loops is leaving `e` + 1 of them and then `d` + 1. */
  lemma {:induction false} CloseNested(text: string, i: nat, e: nat, d: nat)
    requires i <= |text|
    ensures Close(text, i, e) < |text| ==> Close(text, i, e + d + 1) == Close(text, Close(text, i, e) + 1, d)
    decreases |text| - i
  {
    if i < |text| && !(text[i] == ']' && e == 0) {
      CloseNested(text, i + 1, if text[i] == '[' then e + 1 else if text[i] == ']' then e - 1 else e, d);
    }
  }

  lemma {:induction false} OpenNested(text: string, j: nat, e: nat, d: nat)
    requires j <= |text|
    ensures Open(text, j, e) < |text| ==> Open(text, j, e + d + 1) == Open(text, Open(text, j, e), d)
    decreases j
  {
    if j > 0 && !(text[j - 1] == '[' && e == 0) {
      OpenNested(text, j - 1, if text[j - 1] == ']' then e + 1 else if text[j - 1] == '[' then e - 1 else e, d);
    }
  }

  // ----- stretches of text without commands, and runs of one kind -----

  ghost predicate Quiet(text: string, i: nat, j: nat) {
    i <= j <= |text| && forall k :: i <= k < j ==> !IsCommand(text[k])
  }

  ghost predicate ChangeRun(text: string, i: nat, j: nat) {
    && i <= j <= |text|
    && (forall k :: i <= k < j ==> IsChange(text[k]) || !IsCommand(text[k]))
    && (exists k :: i <= k < j && IsChange(text[k]))
  }

  ghost predicate MoveRun(text: string, i: nat, j: nat) {
    && i <= j <= |text|
    && (forall k :: i <= k < j ==> IsMove(text[k]) || !IsCommand(text[k]))
    && (exists k :: i <= k < j && IsMove(text[k]))
  }

  /** How often `up` occurs in `text[i..j]` minus how often `down` does. */
  function Delta(text: string, i: nat, j: nat, up: char, down: char): int
    requires i <= j <= |text|
    decreases j
  {
    if i == j then 0
    else Delta(text, i, j - 1, up, down) + (if text[j - 1] == up then 1 else if text[j - 1] == down then -1 else 0)
  }
}
