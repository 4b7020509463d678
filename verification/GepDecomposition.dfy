/** Pointer arithmetic seen through: an address as a base plus a constant plus
    scaled variables, modulo the pointer width. */
module GepDecomposition {
  import opened Words

  datatype Op = Add | Sub | Mul | Shl | Or | And

  /** Integer expressions of the pointer's width; `And` stands for the
      instructions the analysis does not look into. */
  datatype Expr = Const(value: nat) | Var(id: nat) | Bin(op: Op, lhs: Expr, rhs: Expr)

  /** The values of the variables. */
  type Valuation = nat -> int

  function Eval(e: Expr, w: nat, env: Valuation): (r: nat)
    ensures r < Pow2(w)
  {
    match e
    case Const(c) => c % Pow2(w)
    case Var(id) => env(id) % Pow2(w)
    case Bin(op, l, r) =>
      var x, y := Eval(l, w, env), Eval(r, w, env);
      match op
      case Add => (x + y) % Pow2(w)
      case Sub => (x - y) % Pow2(w)
      case Mul => (x * y) % Pow2(w)
      case Shl => (x * Pow2(y)) % Pow2(w)
      case Or => Words.Or(x, y) % Pow2(w)
      case And => Words.And(x, y) % Pow2(w)
  }

  /** MaskedValueIsZero: the expression is known to have no bit of the mask. */
  type KnownBits = (Expr, nat) -> bool

  ghost predicate KnownRight(known: KnownBits, w: nat) {
    forall e, mask, env :: known(e, mask) ==> Words.And(Eval(e, w, env), mask) == 0
  }

  // ----- linear expressions -----

  /** `e` is `scale * v + offset` for every valuation. */
  ghost predicate Linear(e: Expr, v: Expr, scale: int, offset: int, w: nat) {
    forall env :: Congruent(Pow2(w), Eval(e, w, env), scale * Eval(v, w, env) + offset)
  }

  predicate IsWord(w: nat, x: int) { 0 <= x < Pow2(w) }

  lemma {:induction false} LinearSelf(e: Expr, w: nat)
    ensures Linear(e, e, 1, 0, w)
  {
    forall env
      ensures Congruent(Pow2(w), Eval(e, w, env), 1 * Eval(e, w, env) + 0)
    {
      CongruentBy(Pow2(w), Eval(e, w, env), Eval(e, w, env), 0);
    }
  }

  lemma {:induction false} LinearConst(c: nat, w: nat)
    ensures Linear(Const(c), Const(c), 0, c % Pow2(w), w)
  {
    forall env
      ensures Congruent(Pow2(w), Eval(Const(c), w, env), 0 * Eval(Const(c), w, env) + c % Pow2(w))
    {
      CongruentBy(Pow2(w), c % Pow2(w), c % Pow2(w), 0);
    }
  }

  /** The operations that keep an expression linear, by a constant. */
  function Apply(op: Op, x: int, c: nat): int {
    match op
    case Add => x + c
    case Sub => x - c
    case Mul => x * c
    case Shl => x * Pow2(c)
    case Or => x + c
    case And => x
  }

  /** What the operation does to the scale. */
  function ApplyScale(op: Op, s: int, c: nat): int {
    if op == Mul then s * c else if op == Shl then s * Pow2(c) else s
  }

  lemma {:induction false} EvalApply(op: Op, l: Expr, c: nat, w: nat, env: Valuation)
    requires op != And
    requires op == Or ==> Words.And(Eval(l, w, env), c % Pow2(w)) == 0
    ensures Congruent(Pow2(w), Eval(Bin(op, l, Const(c)), w, env), Apply(op, Eval(l, w, env), c % Pow2(w)))
  {
    var m, x, y := Pow2(w), Eval(l, w, env), c % Pow2(w);
    if op == Or {
      OrIsAdd(x, y);
    }
    CongruentMod(m, Apply(op, x, y));
  }

  lemma {:induction false} ApplyLinear(op: Op, x: int, v: int, scale: int, offset: int, c: nat, m: int)
    requires op != And && m > 0 && Congruent(m, x, scale * v + offset)
    ensures Congruent(m, Apply(op, x, c), ApplyScale(op, scale, c) * v + Apply(op, offset, c))
  {
    var y := scale * v + offset;
    hide Congruent, Pow2;
    var f := if op == Shl then Pow2(c) else c;
    CongruentBy(m, f, f, 0);
    CongruentMul(m, x, y, f, f);
    CongruentAdd(m, x, y, f, f);
    Distribute(scale * v, offset, f);
    Swapped(scale, v, f);
  }

  /** Reducing scale and offset to words changes nothing. */
  lemma {:induction false} Reduced(m: int, x: int, v: int, scale: int, offset: int)
    requires m > 0 && Congruent(m, x, scale * v + offset)
    ensures Congruent(m, x, (scale % m) * v + offset % m)
  {
    CongruentMod(m, scale);
    CongruentMod(m, offset);
    CongruentBy(m, v, v, 0);
    CongruentMul(m, scale, scale % m, v, v);
    CongruentAdd(m, scale * v, (scale % m) * v, offset, offset % m);
    CongruentTrans(m, x, scale * v + offset, (scale % m) * v + offset % m);
  }

  lemma {:induction false} LinearApply(op: Op, l: Expr, c: nat, v: Expr, scale: int, offset: int, w: nat,
                                       known: KnownBits)
    requires Linear(l, v, scale, offset, w) && KnownRight(known, w)
    requires op != And && (op == Or ==> known(l, c % Pow2(w)))
    ensures var m, y := Pow2(w), c % Pow2(w);
      Linear(Bin(op, l, Const(c)), v, ApplyScale(op, scale, y) % m, Apply(op, offset, y) % m, w)
  {
    var m, y := Pow2(w), c % Pow2(w);
    var e := Bin(op, l, Const(c));
    forall env
      ensures Congruent(m, Eval(e, w, env), (ApplyScale(op, scale, y) % m) * Eval(v, w, env) + Apply(op, offset, y) % m)
    {
      var x, u := Eval(l, w, env), Eval(v, w, env);
      EvalApply(op, l, c, w, env);
      ApplyLinear(op, x, u, scale, offset, y, m);
      CongruentTrans(m, Eval(e, w, env), Apply(op, x, y), ApplyScale(op, scale, y) * u + Apply(op, offset, y));
      Reduced(m, Eval(e, w, env), u, ApplyScale(op, scale, y), Apply(op, offset, y));
    }
  }

  const MAX_DEPTH := 6

  /** An expression seen as `scale * v + offset`. */
  datatype Line = Line(v: Expr, scale: int, offset: int)

  /** Takes operations with a constant off an expression, `MAX_DEPTH` at most. */
  function Linearize(e: Expr, w: nat, known: KnownBits, depth: nat): Line
    requires depth <= MAX_DEPTH
    decreases e
  {
    if depth == MAX_DEPTH then Line(e, 1, 0)
    else if e.Const? then Line(e, 0, e.value % Pow2(w))
    else if !Peels(e, w, known) then Line(e, 1, 0)
    else
      var l, c := Linearize(e.lhs, w, known, depth + 1), e.rhs.value % Pow2(w);
      Line(l.v, ApplyScale(e.op, l.scale, c) % Pow2(w), Apply(e.op, l.offset, c) % Pow2(w))
  }

  /** The operation keeps an expression linear: its right side is a constant, and an
      or has no bit in common with it. */
  predicate Peels(e: Expr, w: nat, known: KnownBits) {
    e.Bin? && e.rhs.Const? && e.op != And && (e.op == Or ==> known(e.lhs, e.rhs.value % Pow2(w)))
  }

  /** A variable that is only added to, subtracted from, multiplied and shifted, by
      constants. */
  predicate Affine(e: Expr) {
    e.Var? || (e.Bin? && e.rhs.Const? && (e.op.Add? || e.op.Sub? || e.op.Mul? || e.op.Shl?) && Affine(e.lhs))
  }

  function Innermost(e: Expr): Expr {
    if e.Bin? then Innermost(e.lhs) else e
  }

  function Operations(e: Expr): nat {
    if e.Bin? then 1 + Operations(e.lhs) else 0
  }

  /** Up to six such operations are all taken off. */
  lemma {:induction false} LinearizeReaches(e: Expr, w: nat, known: KnownBits, depth: nat)
    requires Affine(e) && Operations(e) + depth <= MAX_DEPTH
    ensures Linearize(e, w, known, depth).v == Innermost(e) && Innermost(e).Var?
    decreases e
  {
    if e.Bin? {
      LinearizeReaches(e.lhs, w, known, depth + 1);
    }
  }

  lemma {:induction false} LinearizeRight(e: Expr, w: nat, known: KnownBits, depth: nat)
    requires KnownRight(known, w) && depth <= MAX_DEPTH
    ensures var l := Linearize(e, w, known, depth);
      Linear(e, l.v, l.scale, l.offset, w) && (w > 0 ==> IsWord(w, l.scale) && IsWord(w, l.offset))
    decreases MAX_DEPTH - depth
  {
    LinearSelf(e, w);
    if depth < MAX_DEPTH {
      if e.Const? {
        LinearConst(e.value, w);
      } else if Peels(e, w, known) {
        var l := Linearize(e.lhs, w, known, depth + 1);
        LinearizeRight(e.lhs, w, known, depth + 1);
        LinearApply(e.op, e.lhs, e.rhs.value, l.v, l.scale, l.offset, w, known);
      }
    }
  }

  /** The same, with the results in reference parameters. */
  method GetLinearExpression(e: Expr, w: nat, known: KnownBits, depth: nat)
    returns (v: Expr, scale: int, offset: int)
    requires KnownRight(known, w) && depth <= MAX_DEPTH && w > 0
    ensures Line(v, scale, offset) == Linearize(e, w, known, depth)
    ensures Linear(e, v, scale, offset, w) && IsWord(w, scale) && IsWord(w, offset)
    decreases MAX_DEPTH - depth
  {
    LinearizeRight(e, w, known, depth);
    if depth == MAX_DEPTH {
      return e, 1, 0;
    }
    if e.Const? {
      return e, 0, e.value % Pow2(w);
    }
    if e.Bin? && e.rhs.Const? {
      var rhs := e.rhs.value % Pow2(w);
      if e.op == And || (e.op == Or && !known(e.lhs, rhs)) {
        return e, 1, 0;
      }
      v, scale, offset := GetLinearExpression(e.lhs, w, known, depth + 1);
      scale, offset := ApplyScale(e.op, scale, rhs) % Pow2(w), Apply(e.op, offset, rhs) % Pow2(w);
      return;
    }
    return e, 1, 0;
  }

  // ----- pointers -----

  /** A step of a GEP: a struct field at a byte offset, or an element of an array
      whose elements have the given size. */
  datatype Index = Field(number: nat, offset: nat) | Element(size: nat, index: Expr)

  /** `Same` is a bitcast, an address space cast, an alias that cannot be
      overridden, or an instruction that simplifies; `Base` is anything the walk
      stops at. */
  datatype Pointer = Base(id: nat) | Same(of: Pointer) | Gep(of: Pointer, indices: seq<Index>)

  /** The first field of a struct is at its start. */
  ghost predicate LayoutOk(indices: seq<Index>) {
    forall i :: 0 <= i < |indices| && indices[i].Field? && indices[i].number == 0 ==> indices[i].offset == 0
  }

  ghost predicate PointerOk(p: Pointer) {
    match p
    case Base(_) => true
    case Same(q) => PointerOk(q)
    case Gep(q, indices) => PointerOk(q) && LayoutOk(indices)
  }

  function Step(i: Index, w: nat, env: Valuation): int {
    match i
    case Field(_, offset) => offset
    case Element(size, e) => size * Eval(e, w, env)
  }

  function Steps(indices: seq<Index>, w: nat, env: Valuation): int {
    if indices == [] then 0
    else Steps(indices[..|indices| - 1], w, env) + Step(indices[|indices| - 1], w, env)
  }

  /** The address, before it is cut down to the pointer's width. */
  function Address(p: Pointer, w: nat, base: Valuation, env: Valuation): int {
    match p
    case Base(id) => base(id)
    case Same(q) => Address(q, w, base, env)
    case Gep(q, indices) => Address(q, w, base, env) + Steps(indices, w, env)
  }

  // ----- scaled variables -----

  datatype VariableGEPIndex = VariableGEPIndex(v: Expr, scale: int)

  type Variables = seq<VariableGEPIndex>

  function Sum(vars: Variables, w: nat, env: Valuation): int {
    if vars == [] then 0
    else Sum(vars[..|vars| - 1], w, env) + vars[|vars| - 1].scale * Eval(vars[|vars| - 1].v, w, env)
  }

  ghost predicate NoZeroScale(vars: Variables) {
    forall i :: 0 <= i < |vars| ==> vars[i].scale != 0
  }

  ghost predicate NoRepeats(vars: Variables) {
    forall i, j :: 0 <= i < j < |vars| ==> vars[i].v != vars[j].v
  }

  ghost predicate InWord(w: nat, vars: Variables)
    requires w > 0
  {
    forall i :: 0 <= i < |vars| ==> -(Pow2(w - 1) as int) <= vars[i].scale < Pow2(w - 1)
  }

  lemma {:induction false} SumAppend(vars: Variables, x: VariableGEPIndex, w: nat, env: Valuation)
    ensures Sum(vars + [x], w, env) == Sum(vars, w, env) + x.scale * Eval(x.v, w, env)
  {
    assert (vars + [x])[..|vars|] == vars;
  }

  function Without(vars: Variables, i: nat): Variables
    requires i < |vars|
  {
    vars[..i] + vars[i + 1..]
  }

  lemma {:induction false} SumWithout(vars: Variables, i: nat, w: nat, env: Valuation)
    requires i < |vars|
    ensures Sum(Without(vars, i), w, env) == Sum(vars, w, env) - vars[i].scale * Eval(vars[i].v, w, env)
    decreases |vars|
  {
    var n := |vars| - 1;
    if i == n {
      assert Without(vars, i) == vars[..n];
    } else {
      SumWithout(vars[..n], i, w, env);
      SumAppend(Without(vars[..n], i), vars[n], w, env);
      assert Without(vars, i) == Without(vars[..n], i) + [vars[n]];
    }
  }

  // ----- what a list says of one variable -----

  /** The scales listed for a variable. */
  function Scales(vars: Variables, v: Expr): seq<int> {
    if vars == [] then []
    else
      var last := vars[|vars| - 1];
      Scales(vars[..|vars| - 1], v) + (if last.v == v then [last.scale] else [])
  }

  /** A term of scale zero is not listed. */
  function Term(s: int): seq<int> {
    if s == 0 then [] else [s]
  }

  lemma {:induction false} ScalesAppend(vars: Variables, x: VariableGEPIndex, v: Expr)
    ensures Scales(vars + [x], v) == Scales(vars, v) + (if x.v == v then [x.scale] else [])
  {
    assert (vars + [x])[..|vars|] == vars;
  }

  lemma {:induction false} ScalesNone(vars: Variables, v: Expr)
    requires forall j :: 0 <= j < |vars| ==> vars[j].v != v
    ensures Scales(vars, v) == []
    decreases |vars|
  {
    if vars != [] {
      ScalesNone(vars[..|vars| - 1], v);
    }
  }

  lemma {:induction false} ScalesIn(vars: Variables, i: nat)
    requires i < |vars|
    ensures Scales(vars, vars[i].v) != []
    decreases |vars|
  {
    if i < |vars| - 1 {
      ScalesIn(vars[..|vars| - 1], i);
    }
  }

  /** Taking out a variable's first entry. */
  lemma {:induction false} ScalesJoined(a: Variables, b: Variables, v: Expr)
    ensures Scales(a + b, v) == Scales(a, v) + Scales(b, v)
    decreases |b|
  {
    if b == [] {
      assert a + b == a;
    } else {
      var n := |b| - 1;
      ScalesJoined(a, b[..n], v);
      ScalesAppend(a + b[..n], b[n], v);
      assert a + b == (a + b[..n]) + [b[n]];
    }
  }

  lemma {:induction false} ScalesOne(x: VariableGEPIndex, v: Expr)
    ensures Scales([x], v) == if x.v == v then [x.scale] else []
  {
    assert [x][..0] == [];
  }

  lemma {:induction false} ScalesWithout(vars: Variables, i: nat, v: Expr)
    requires i < |vars| && forall j :: 0 <= j < i ==> vars[j].v != vars[i].v
    ensures v != vars[i].v ==> Scales(Without(vars, i), v) == Scales(vars, v)
    ensures v == vars[i].v ==> Scales(vars, v) == [vars[i].scale] + Scales(Without(vars, i), v)
  {
    hide Scales;
    var a, b := vars[..i], vars[i + 1..];
    assert vars == (a + [vars[i]]) + b;
    ScalesJoined(a, b, v);
    ScalesJoined(a + [vars[i]], b, v);
    ScalesJoined(a, [vars[i]], v);
    ScalesOne(vars[i], v);
    if v == vars[i].v {
      ScalesNone(a, v);
    }
  }

  /** In a list without repeats a variable has one scale at most. */
  lemma {:induction false} ScalesOnce(vars: Variables, v: Expr)
    requires NoRepeats(vars)
    ensures |Scales(vars, v)| <= 1
    decreases |vars|
  {
    if vars != [] {
      var n := |vars| - 1;
      ScalesOnce(vars[..n], v);
      if vars[n].v == v {
        ScalesNone(vars[..n], v);
      }
    }
  }

  lemma {:induction false} OnceEach(vars: Variables)
    requires forall v :: |Scales(vars, v)| <= 1
    ensures NoRepeats(vars)
    decreases |vars|
  {
    if vars != [] {
      var n := |vars| - 1;
      forall v
        ensures |Scales(vars[..n], v)| <= 1
      {
        assert |Scales(vars, v)| <= 1;
      }
      OnceEach(vars[..n]);
      forall i | 0 <= i < n
        ensures vars[i].v != vars[n].v
      {
        ScalesIn(vars[..n], i);
        assert |Scales(vars, vars[n].v)| <= 1;
      }
    }
  }

  /** The variable is listed with that scale, read as a signed word, unless it is zero. */
  ghost predicate Listed(w: nat, vars: Variables, v: Expr, s: int)
    requires w > 0
  {
    Scales(vars, v) == Term(Signed(w, s))
  }

  lemma {:induction false} ListedSame(w: nat, vars: Variables, v: Expr, s: int, t: int)
    requires w > 0 && Listed(w, vars, v, s) && Congruent(Pow2(w), s, t)
    ensures Listed(w, vars, v, t)
  {
    SignedSame(w, s, t);
  }

  /** The scale of `v` in `r` is that in `vars` and `scale`; other variables are listed
      as they were. */
  ghost predicate Gains(w: nat, vars: Variables, v: Expr, scale: int, r: Variables)
    requires w > 0
  {
    forall u, s :: Listed(w, vars, u, s) ==> Listed(w, r, u, if u == v then s + scale else s)
  }

  lemma {:induction false} MergedListed(w: nat, vars: Variables, i: nat, scale: int, r: Variables, u: Expr, s: int)
    requires 0 < w <= 64 && i < |vars| && forall j :: 0 <= j < i ==> vars[j].v != vars[i].v
    requires var t := Signed(w, (scale + vars[i].scale) % WORD);
      r == if t != 0 then Without(vars, i) + [VariableGEPIndex(vars[i].v, t)] else Without(vars, i)
    requires Listed(w, vars, u, s)
    ensures Listed(w, r, u, if u == vars[i].v then s + scale else s)
  {
    hide Signed, Scales, Without;
    ScalesWithout(vars, i, u);
    ScalesAppend(Without(vars, i), VariableGEPIndex(vars[i].v, Signed(w, (scale + vars[i].scale) % WORD)), u);
    if u == vars[i].v {
      var rest := Scales(Without(vars, i), u);
      assert Term(Signed(w, s)) == [vars[i].scale] + rest;
      assert |Term(Signed(w, s))| == 1 + |rest| && Term(Signed(w, s))[0] == vars[i].scale;
      MergedScale(w, scale, vars[i].scale, s);
    }
  }

  lemma {:induction false} MergedGains(w: nat, vars: Variables, i: nat, scale: int, r: Variables)
    requires 0 < w <= 64 && i < |vars| && forall j :: 0 <= j < i ==> vars[j].v != vars[i].v
    requires var t := Signed(w, (scale + vars[i].scale) % WORD);
      r == if t != 0 then Without(vars, i) + [VariableGEPIndex(vars[i].v, t)] else Without(vars, i)
    ensures Gains(w, vars, vars[i].v, scale, r)
  {
    hide Listed;
    forall u, s | Listed(w, vars, u, s)
      ensures Listed(w, r, u, if u == vars[i].v then s + scale else s)
    {
      MergedListed(w, vars, i, scale, r, u, s);
    }
  }

  lemma {:induction false} MergedScale(w: nat, scale: int, t: int, s: int)
    requires 0 < w <= 64 && t == Signed(w, s)
    ensures Signed(w, (scale + t) % WORD) == Signed(w, s + scale)
  {
    SignedCongruent(w, s);
    CongruentBy(Pow2(w), scale, scale, 0);
    CongruentAdd(Pow2(w), scale, scale, t, s);
    WrapNarrow(w, scale + t);
    CongruentTrans(Pow2(w), (scale + t) % WORD, scale + t, scale + s);
    SignedSame(w, (scale + t) % WORD, s + scale);
  }

  lemma {:induction false} NewGains(w: nat, vars: Variables, v: Expr, scale: int, r: Variables)
    requires w > 0 && forall j :: 0 <= j < |vars| ==> vars[j].v != v
    requires var t := Signed(w, scale); r == if t != 0 then vars + [VariableGEPIndex(v, t)] else vars
    ensures Gains(w, vars, v, scale, r)
  {
    var t := Signed(w, scale);
    forall u, s | Listed(w, vars, u, s)
      ensures Listed(w, r, u, if u == v then s + scale else s)
    {
      ScalesAppend(vars, VariableGEPIndex(v, t), u);
      if u == v {
        ScalesNone(vars, v);
        SignedCongruent(w, s);
        CongruentBy(Pow2(w), scale, scale, 0);
        CongruentAdd(Pow2(w), scale, scale, s, 0);
        SignedSame(w, scale + s, scale);
      }
    }
  }

  // ----- adjustToPointerSize -----

  /** Shifts the offset to the top of a 64-bit word and back, with its sign. */
  function AdjustToPointerSize(offset: int, w: nat): int
    requires 0 < w <= 64
  {
    Wrap64((offset % WORD) * Pow2(64 - w) % WORD) / Pow2(64 - w)
  }

  /** Multiplying by s turns congruence modulo m into congruence modulo s * m. */
  lemma {:induction false} CongruentScaled(m: int, s: int, word: int, a: int, b: int)
    requires m > 0 && s > 0 && word == s * m && Congruent(m, a, b)
    ensures word > 0 && Congruent(word, a * s, b * s)
  {
    var k := Factor(m, a, b);
    Distribute(a, b, s);
    Associate(k, m, s);
    MultipleAtLeast(m, s);
    CongruentBy(word, a * s, b * s, k);
  }

  lemma {:induction false} ShiftedUp(m: int, s: int, word: int, x: int, r: int)
    requires m > 0 && s > 0 && word > 0 && word == s * m && Congruent(m, x, r)
    ensures Congruent(word, (x % word) * s % word, r * s)
  {
    CongruentMod(word, x);
    CongruentDivisor(word, m, s, x % word, x);
    CongruentTrans(m, x % word, x, r);
    CongruentScaled(m, s, word, x % word, r);
    CongruentMod(word, (x % word) * s);
    CongruentTrans(word, (x % word) * s % word, (x % word) * s, r * s);
  }

  lemma {:induction false} ShiftedRange(r: int, h: int, s: int)
    requires s > 0 && -h <= r < h
    ensures -(h * s) <= r * s < h * s
  {
    Distribute(r, h, s);
    ProductAtLeastZero(r + h, s);
    Distribute(h, r, s);
    MultipleAtLeast(s, h - r);
  }

  lemma {:induction false} ShiftedBack(r: int, s: int)
    requires s > 0
    ensures (r * s) / s == r
  {
    MultipleMod(s, r);
    var q := (r * s) / s;
    Distribute(q, r, s);
    SmallMultiple(s, q - r);
  }

  lemma {:induction false} ShiftedUpAndBack(m: int, h: int, s: int, x: int, r: int)
    requires m > 0 && s > 0 && s * m == WORD && s * h == HALF_WORD && Congruent(m, x, r) && -h <= r < h
    ensures Wrap64((x % WORD) * s % WORD) / s == r
  {
    ShiftedUp(m, s, WORD, x, r);
    ShiftedRange(r, h, s);
    ShiftedBack(r, s);
    var y := r * s;
    assert h * s == HALF_WORD;
    Wrap64Unique((x % WORD) * s % WORD, y);
  }

  lemma {:induction false} AdjustIsSigned(offset: int, w: nat)
    requires 0 < w <= 64
    ensures AdjustToPointerSize(offset, w) == Signed(w, offset)
  {
    var m, h, s, r := Pow2(w), Pow2(w - 1), Pow2(64 - w), Signed(w, offset);
    WordSplits(w);
    SignedCongruent(w, offset);
    ShiftedUpAndBack(m, h, s, offset, r);
  }

  lemma {:induction false} WrapNarrow(w: nat, x: int)
    requires 0 < w <= 64
    ensures Congruent(Pow2(w), Wrap64(x), x) && Congruent(Pow2(w), x % WORD, x)
  {
    WordSplits(w);
    Wrap64Congruent(x);
    CongruentMod(WORD, x);
    CongruentDivisor(WORD, Pow2(w), Pow2(64 - w), Wrap64(x), x);
    CongruentDivisor(WORD, Pow2(w), Pow2(64 - w), x % WORD, x);
  }

  // ----- DecomposeGEPExpression -----

  /** Together, offset and variables stand for the same distance. */
  ghost predicate SameDistance(w: nat, offs: int, vars: Variables, more: seq<Index>, offs': int, vars': Variables) {
    forall env :: Congruent(Pow2(w), offs + Sum(vars, w, env) + Steps(more, w, env), offs' + Sum(vars', w, env))
  }

  ghost predicate VariablesOk(w: nat, vars: Variables)
    requires w > 0
  {
    NoZeroScale(vars) && NoRepeats(vars) && InWord(w, vars)
  }

  lemma {:induction false} ConstantStep(w: nat, offs: int, x: int, step: int)
    requires 0 < w <= 64 && Congruent(Pow2(w), step, x)
    ensures Congruent(Pow2(w), offs + x, Wrap64(offs + step))
  {
    var m := Pow2(w);
    CongruentBy(m, offs, offs, 0);
    CongruentSym(m, step, x);
    CongruentAdd(m, offs, offs, x, step);
    WrapNarrow(w, offs + step);
    CongruentSym(m, Wrap64(offs + step), offs + step);
    CongruentTrans(m, offs + x, offs + step, Wrap64(offs + step));
  }

  lemma {:induction false} ScaledSigned(w: nat, size: int, x: int)
    requires 0 < w <= 64
    ensures Congruent(Pow2(w), size * Signed(w, x), size * x)
  {
    SignedCongruent(w, x);
    CongruentBy(Pow2(w), size, size, 0);
    CongruentMul(Pow2(w), size, size, Signed(w, x), x);
  }

  /** Distributing the element size over scale * v + offset. */
  lemma {:induction false} ElementScaled(w: nat, size: int, x: int, v: int, scale: int, offset: int)
    requires 0 < w <= 64 && Congruent(Pow2(w), x, scale * v + offset)
    ensures Congruent(Pow2(w), size * x, (size * Signed(w, scale)) * v + size * Signed(w, offset))
  {
    var m := Pow2(w);
    var s, o := size * Signed(w, scale), size * Signed(w, offset);
    CongruentBy(m, size, size, 0);
    CongruentBy(m, v, v, 0);
    CongruentMul(m, size, size, x, scale * v + offset);
    ScaledSigned(w, size, scale);
    ScaledSigned(w, size, offset);
    CongruentMul(m, s, size * scale, v, v);
    CongruentAdd(m, s * v, (size * scale) * v, o, size * offset);
    assert size * (scale * v + offset) == (size * scale) * v + size * offset by {
      Distribute(scale * v, offset, size);
      Associate(size, scale, v);
    }
    CongruentSym(m, s * v + o, size * (scale * v + offset));
    CongruentTrans(m, size * x, size * (scale * v + offset), s * v + o);
  }

  /** Cutting a scale to 64 bits changes nothing modulo the pointer's width. */
  lemma {:induction false} ScaleCut(w: nat, s: int, v: int, o: int)
    requires 0 < w <= 64
    ensures Congruent(Pow2(w), s * v + o, (s % WORD) * v + o)
  {
    var m := Pow2(w);
    WrapNarrow(w, s);
    CongruentSym(m, s % WORD, s);
    CongruentBy(m, v, v, 0);
    CongruentBy(m, o, o, 0);
    CongruentMul(m, s, s % WORD, v, v);
    CongruentAdd(m, s * v, (s % WORD) * v, o, o);
  }

  /** An array step, with its index written as scale * v + offset. */
  lemma {:induction false} ElementStep(w: nat, size: int, x: int, v: int, scale: int, offset: int)
    requires 0 < w <= 64 && Congruent(Pow2(w), x, scale * v + offset)
    ensures Congruent(Pow2(w), size * x, ((size * Signed(w, scale)) % WORD) * v + size * Signed(w, offset))
  {
    var s, o := size * Signed(w, scale), size * Signed(w, offset);
    ElementScaled(w, size, x, v, scale, offset);
    ScaleCut(w, s, v, o);
    CongruentTrans(Pow2(w), size * x, s * v + o, (s % WORD) * v + o);
  }

  method FindVariable(vars: Variables, v: Expr) returns (i: nat)
    ensures i <= |vars| && (i < |vars| ==> vars[i].v == v)
    ensures forall j :: 0 <= j < i ==> vars[j].v != v
  {
    i := 0;
    while i < |vars| && vars[i].v != v
      invariant i <= |vars| && forall j :: 0 <= j < i ==> vars[j].v != v
    {
      i := i + 1;
    }
  }

  /** Merges `scale * v` into the list: an earlier entry for `v` is taken out and
      added, the sum is cut to the pointer's width, and kept unless it is zero. */
  method AddVariable(vars: Variables, v: Expr, scale0: int, w: nat) returns (r: Variables)
    requires 0 < w <= 64 && VariablesOk(w, vars)
    ensures VariablesOk(w, r) && SumGrows(w, vars, v, scale0, r) && Gains(w, vars, v, scale0, r)
  {
    hide Gains, SumGrows, SumShifts;
    var scale := scale0;
    r := vars;
    var i := FindVariable(vars, v);
    if i < |vars| {
      scale := (scale + vars[i].scale) % WORD;
      r := Without(vars, i);
      MergedRest(w, vars, i, v);
      MergedEntry(w, vars, i, v, scale0);
    } else {
      SameSum(w, vars, v, scale0);
    }
    ghost var unadjusted, rest := scale, r;
    AdjustIsSigned(scale, w);
    scale := AdjustToPointerSize(scale, w);
    if scale != 0 {
      r := r + [VariableGEPIndex(v, scale)];
    }
    AdjustedEntry(w, rest, v, unadjusted, r);
    SumGrowsOn(w, vars, v, scale0, rest, unadjusted, r);
    if i < |vars| {
      MergedGains(w, vars, i, scale0, r);
    } else {
      NewGains(w, vars, v, scale0, r);
    }
  }

  /** `r` is worth what `vars` is, and `scale * v`. */
  ghost predicate SumGrows(w: nat, vars: Variables, v: Expr, scale: int, r: Variables) {
    forall env :: Congruent(Pow2(w), Sum(vars, w, env) + scale * Eval(v, w, env), Sum(r, w, env))
  }

  /** Taking part of it over into the list first is worth the same. */
  ghost predicate SumShifts(w: nat, vars: Variables, v: Expr, scale: int, rest: Variables, scale': int) {
    forall env :: Congruent(Pow2(w), Sum(vars, w, env) + scale * Eval(v, w, env),
                            Sum(rest, w, env) + scale' * Eval(v, w, env))
  }

  lemma {:induction false} SumGrowsOn(w: nat, vars: Variables, v: Expr, scale: int, rest: Variables, scale': int,
                                      r: Variables)
    requires SumShifts(w, vars, v, scale, rest, scale') && SumGrows(w, rest, v, scale', r)
    ensures SumGrows(w, vars, v, scale, r)
  {
    forall env
      ensures Congruent(Pow2(w), Sum(vars, w, env) + scale * Eval(v, w, env), Sum(r, w, env))
    {
      CongruentTrans(Pow2(w), Sum(vars, w, env) + scale * Eval(v, w, env),
                     Sum(rest, w, env) + scale' * Eval(v, w, env), Sum(r, w, env));
    }
  }

  lemma {:induction false} SameSum(w: nat, vars: Variables, v: Expr, scale: int)
    ensures SumShifts(w, vars, v, scale, vars, scale)
  {
    forall env
      ensures Congruent(Pow2(w), Sum(vars, w, env) + scale * Eval(v, w, env),
                        Sum(vars, w, env) + scale * Eval(v, w, env))
    {
      CongruentBy(Pow2(w), Sum(vars, w, env) + scale * Eval(v, w, env), Sum(vars, w, env) + scale * Eval(v, w, env), 0);
    }
  }

  lemma {:induction false} MergedRest(w: nat, vars: Variables, i: nat, v: Expr)
    requires w > 0 && VariablesOk(w, vars) && i < |vars| && vars[i].v == v
    ensures VariablesOk(w, Without(vars, i))
    ensures forall j :: 0 <= j < |Without(vars, i)| ==> Without(vars, i)[j].v != v
  {
  }

  lemma {:induction false} MergedEntry(w: nat, vars: Variables, i: nat, v: Expr, scale: int)
    requires 0 < w <= 64 && i < |vars| && vars[i].v == v
    ensures SumShifts(w, vars, v, scale, Without(vars, i), (scale + vars[i].scale) % WORD)
  {
    var m, t := Pow2(w), scale + vars[i].scale;
    forall env
      ensures Congruent(m, Sum(vars, w, env) + scale * Eval(v, w, env),
                        Sum(Without(vars, i), w, env) + (t % WORD) * Eval(v, w, env))
    {
      var x, rest := Eval(v, w, env), Sum(Without(vars, i), w, env);
      SumWithout(vars, i, w, env);
      Distribute(scale, vars[i].scale, x);
      assert Sum(vars, w, env) + scale * x == rest + t * x;
      WrapNarrow(w, t);
      CongruentSym(m, t % WORD, t);
      CongruentBy(m, x, x, 0);
      CongruentBy(m, rest, rest, 0);
      CongruentMul(m, t, t % WORD, x, x);
      CongruentAdd(m, rest, rest, t * x, (t % WORD) * x);
    }
  }

  lemma {:induction false} AdjustedEntry(w: nat, rest: Variables, v: Expr, scale: int, r: Variables)
    requires 0 < w <= 64
    requires r == if Signed(w, scale) != 0 then rest + [VariableGEPIndex(v, Signed(w, scale))] else rest
    ensures SumGrows(w, rest, v, scale, r)
  {
    var m, t := Pow2(w), Signed(w, scale);
    SignedCongruent(w, scale);
    forall env
      ensures Congruent(m, Sum(rest, w, env) + scale * Eval(v, w, env), Sum(r, w, env))
    {
      var x := Eval(v, w, env);
      SumAppend(rest, VariableGEPIndex(v, t), w, env);
      CongruentBy(m, x, x, 0);
      CongruentBy(m, Sum(rest, w, env), Sum(rest, w, env), 0);
      CongruentMul(m, scale, t, x, x);
      CongruentAdd(m, Sum(rest, w, env), Sum(rest, w, env), scale * x, t * x);
    }
  }

  // ----- one step of a GEP -----

  /** Together, offset and variables have grown by the step. */
  ghost predicate StepTaken(w: nat, offs: int, vars: Variables, ix: Index, offs': int, vars': Variables) {
    forall env :: Congruent(Pow2(w), offs + Sum(vars, w, env) + Step(ix, w, env), offs' + Sum(vars', w, env))
  }

  lemma {:induction false} ConstantTaken(w: nat, offs: int, vars: Variables, ix: Index, step: int)
    requires 0 < w <= 64 && forall env :: Congruent(Pow2(w), step, Step(ix, w, env))
    ensures StepTaken(w, offs, vars, ix, Wrap64(offs + step), vars)
  {
    var m := Pow2(w);
    forall env
      ensures Congruent(m, offs + Sum(vars, w, env) + Step(ix, w, env), Wrap64(offs + step) + Sum(vars, w, env))
    {
      var x, sum := Step(ix, w, env), Sum(vars, w, env);
      ConstantStep(w, offs, x, step);
      CongruentBy(m, sum, sum, 0);
      CongruentAdd(m, offs + x, Wrap64(offs + step), sum, sum);
    }
  }

  lemma {:induction false} NothingTaken(w: nat, offs: int, vars: Variables, ix: Index)
    requires forall env :: Congruent(Pow2(w), Step(ix, w, env), 0)
    ensures StepTaken(w, offs, vars, ix, offs, vars)
  {
    forall env
      ensures Congruent(Pow2(w), offs + Sum(vars, w, env) + Step(ix, w, env), offs + Sum(vars, w, env))
    {
      var y := offs + Sum(vars, w, env);
      CongruentBy(Pow2(w), y, y, 0);
      CongruentAdd(Pow2(w), y, y, Step(ix, w, env), 0);
    }
  }

  lemma {:induction false} VariableTaken(w: nat, offs: int, vars: Variables, size: nat, e: Expr, v: Expr, scale: int,
                                         offset: int, r: Variables)
    requires 0 < w <= 64 && Linear(e, v, scale, offset, w)
    requires SumGrows(w, vars, v, (size * Signed(w, scale)) % WORD, r)
    ensures StepTaken(w, offs, vars, Element(size, e), Wrap64(offs + size * Signed(w, offset)), r)
  {
    var m, s, o := Pow2(w), (size * Signed(w, scale)) % WORD, size * Signed(w, offset);
    forall env
      ensures Congruent(m, offs + Sum(vars, w, env) + size * Eval(e, w, env), Wrap64(offs + o) + Sum(r, w, env))
    {
      var x, u, sum := Eval(e, w, env), Eval(v, w, env), Sum(vars, w, env);
      ElementStep(w, size, x, u, scale, offset);
      CongruentBy(m, offs + sum, offs + sum, 0);
      CongruentAdd(m, offs + sum, offs + sum, size * x, s * u + o);
      CongruentBy(m, o, o, 0);
      ConstantStep(w, offs, o, o);
      CongruentAdd(m, sum + s * u, Sum(r, w, env), offs + o, Wrap64(offs + o));
      CongruentTrans(m, offs + sum + size * x, offs + sum + (s * u + o), Wrap64(offs + o) + Sum(r, w, env));
    }
  }

  /** What the step adds to the scale of a variable. */
  function IndexScale(ix: Index, v: Expr, w: nat, known: KnownBits): int
    requires w > 0
  {
    match ix
    case Field(_, _) => 0
    case Element(size, e) =>
      var l := Linearize(e, w, known, 0);
      if e.Const? || l.v != v then 0 else size * Signed(w, l.scale)
  }

  function IndicesScale(indices: seq<Index>, v: Expr, w: nat, known: KnownBits): int
    requires w > 0
  {
    if indices == [] then 0
    else IndicesScale(indices[..|indices| - 1], v, w, known) + IndexScale(indices[|indices| - 1], v, w, known)
  }

  /** What the first `n` steps from the pointer add to the scale of a variable. */
  function PointerScale(p: Pointer, v: Expr, w: nat, known: KnownBits, n: nat): int
    requires w > 0
  {
    if n == 0 then 0
    else
      match p
      case Base(_) => 0
      case Same(q) => PointerScale(q, v, w, known, n - 1)
      case Gep(q, indices) => IndicesScale(indices, v, w, known) + PointerScale(q, v, w, known, n - 1)
  }

  // ----- pointers that differ by constants -----

  /** Two steps that differ by a constant at most. */
  predicate SameStep(a: Index, b: Index, w: nat, known: KnownBits) {
    match (a, b)
    case (Field(_, _), Field(_, _)) => true
    case (Element(s, e), Element(t, g)) =>
      var l, m := Linearize(e, w, known, 0), Linearize(g, w, known, 0);
      s == t && ((e.Const? && g.Const?) || (!e.Const? && !g.Const? && l.v == m.v && l.scale == m.scale))
    case _ => false
  }

  predicate SameSteps(a: seq<Index>, b: seq<Index>, w: nat, known: KnownBits) {
    |a| == |b| && forall i :: 0 <= i < |a| ==> SameStep(a[i], b[i], w, known)
  }

  /** One base, and step for step the same indices but for constants. */
  predicate ApartByConstants(p: Pointer, q: Pointer, w: nat, known: KnownBits) {
    match (p, q)
    case (Base(a), Base(b)) => a == b
    case (Same(a), Same(b)) => ApartByConstants(a, b, w, known)
    case (Gep(a, steps), Gep(b, others)) => ApartByConstants(a, b, w, known) && SameSteps(steps, others, w, known)
    case _ => false
  }

  lemma {:induction false} ApartFromItself(p: Pointer, w: nat, known: KnownBits)
    ensures ApartByConstants(p, p, w, known)
    decreases p
  {
    match p
    case Base(_) =>
    case Same(q) => ApartFromItself(q, w, known);
    case Gep(q, _) => ApartFromItself(q, w, known);
  }

  /** `a[i + c]` and `a[i]`, if `i` is not too deep an expression. */
  lemma {:induction false} ApartByAdding(p: Pointer, size: nat, e: Expr, c: nat, w: nat, known: KnownBits)
    requires w > 0 && Affine(e) && Operations(e) < MAX_DEPTH
    ensures ApartByConstants(Gep(p, [Element(size, Bin(Add, e, Const(c)))]), Gep(p, [Element(size, e)]), w, known)
  {
    ApartFromItself(p, w, known);
    DepthEnough(e, w, known, 0, 1);
    ScaleIsWord(e, w, known, 0);
  }

  lemma {:induction false} DepthEnough(e: Expr, w: nat, known: KnownBits, depth: nat, more: nat)
    requires Affine(e) && depth <= more && Operations(e) + more <= MAX_DEPTH
    ensures Linearize(e, w, known, depth) == Linearize(e, w, known, more)
    decreases e
  {
    if e.Bin? {
      DepthEnough(e.lhs, w, known, depth + 1, more + 1);
    }
  }

  lemma {:induction false} ScaleIsWord(e: Expr, w: nat, known: KnownBits, depth: nat)
    requires w > 0 && depth <= MAX_DEPTH
    ensures Linearize(e, w, known, depth).scale % Pow2(w) == Linearize(e, w, known, depth).scale
  {
    hide Pow2, ApplyScale, Apply;
    OneIsWord(w);
    if depth < MAX_DEPTH && !e.Const? && Peels(e, w, known) {
      var l := Linearize(e.lhs, w, known, depth + 1);
      ResidueTwice(ApplyScale(e.op, l.scale, e.rhs.value % Pow2(w)), Pow2(w));
    }
  }

  lemma {:induction false} ResidueTwice(x: int, m: int)
    requires m > 0
    ensures (x % m) % m == x % m
  {
    DivisionUnique(x % m, m, 0, x % m);
  }

  lemma {:induction false} OneIsWord(w: nat)
    requires w > 0
    ensures 1 % Pow2(w) == 1 && 0 % Pow2(w) == 0
  {
    var m: int := Pow2(w);
    assert m == 2 * Pow2(w - 1);
    hide Pow2;
    DivisionUnique(1, m, 0, 1);
    DivisionUnique(0, m, 0, 0);
  }

  lemma {:induction false} SameStepsScale(a: seq<Index>, b: seq<Index>, v: Expr, w: nat, known: KnownBits)
    requires w > 0 && SameSteps(a, b, w, known)
    ensures IndicesScale(a, v, w, known) == IndicesScale(b, v, w, known)
    decreases |a|
  {
    if a != [] {
      var n := |a| - 1;
      assert SameStep(a[n], b[n], w, known);
      SameStepsScale(a[..n], b[..n], v, w, known);
    }
  }

  /** They have each variable with the same scale, and one base. */
  lemma {:induction false} SameScales(p: Pointer, q: Pointer, v: Expr, w: nat, known: KnownBits, n: nat)
    requires w > 0 && ApartByConstants(p, q, w, known)
    ensures PointerScale(p, v, w, known, n) == PointerScale(q, v, w, known, n) && Links(p) == Links(q)
    decreases p
  {
    match (p, q)
    case (Same(a), Same(b)) => SameScales(a, b, v, w, known, if n > 0 then n - 1 else 0);
    case (Gep(a, steps), Gep(b, others)) =>
      SameStepsScale(steps, others, v, w, known);
      SameScales(a, b, v, w, known, if n > 0 then n - 1 else 0);
    case _ =>
  }

  /** Every array index is a constant, or a variable with constants. */
  predicate AffineIndex(ix: Index) {
    ix.Element? ==> ix.index.Const? || (Affine(ix.index) && Operations(ix.index) <= MAX_DEPTH)
  }

  predicate AffinePointer(p: Pointer) {
    match p
    case Base(_) => true
    case Same(q) => AffinePointer(q)
    case Gep(q, indices) => AffinePointer(q) && forall i :: 0 <= i < |indices| ==> AffineIndex(indices[i])
  }

  lemma {:induction false} OnlyVariablesStep(indices: seq<Index>, v: Expr, w: nat, known: KnownBits)
    requires w > 0 && !v.Var? && forall i :: 0 <= i < |indices| ==> AffineIndex(indices[i])
    ensures IndicesScale(indices, v, w, known) == 0
    decreases |indices|
  {
    if indices != [] {
      var last := indices[|indices| - 1];
      OnlyVariablesStep(indices[..|indices| - 1], v, w, known);
      assert AffineIndex(last);
      if last.Element? && !last.index.Const? {
        LinearizeReaches(last.index, w, known, 0);
      }
    }
  }

  /** Only variables have scales in such a pointer. */
  lemma {:induction false} OnlyVariables(p: Pointer, v: Expr, w: nat, known: KnownBits, n: nat)
    requires w > 0 && AffinePointer(p) && !v.Var?
    ensures PointerScale(p, v, w, known, n) == 0
    decreases p
  {
    if n > 0 {
      match p
      case Base(_) =>
      case Same(q) => OnlyVariables(q, v, w, known, n - 1);
      case Gep(q, indices) =>
        OnlyVariablesStep(indices, v, w, known);
        OnlyVariables(q, v, w, known, n - 1);
    }
  }

  /** The scales have grown by the step. */
  ghost predicate ScalesTaken(w: nat, vars: Variables, ix: Index, vars': Variables, known: KnownBits)
    requires w > 0
  {
    forall v, s :: Listed(w, vars, v, s) ==> Listed(w, vars', v, s + IndexScale(ix, v, w, known))
  }

  lemma {:induction false} GainsTaken(w: nat, vars: Variables, size: nat, e: Expr, vars': Variables, known: KnownBits)
    requires 0 < w <= 64 && !e.Const?
    requires var l := Linearize(e, w, known, 0); Gains(w, vars, l.v, (size * Signed(w, l.scale)) % WORD, vars')
    ensures ScalesTaken(w, vars, Element(size, e), vars', known)
  {
    var l := Linearize(e, w, known, 0);
    var x := size * Signed(w, l.scale);
    forall v, s | Listed(w, vars, v, s)
      ensures Listed(w, vars', v, s + IndexScale(Element(size, e), v, w, known))
    {
      if v == l.v {
        assert Listed(w, vars', v, s + x % WORD);
        WrapNarrow(w, x);
        CongruentBy(Pow2(w), s, s, 0);
        CongruentAdd(Pow2(w), s, s, x % WORD, x);
        ListedSame(w, vars', v, s + x % WORD, s + x);
      }
    }
  }

  ghost predicate ScalesGrown(w: nat, vars: Variables, indices: seq<Index>, vars': Variables, known: KnownBits)
    requires w > 0
  {
    forall v, s :: Listed(w, vars, v, s) ==> Listed(w, vars', v, s + IndicesScale(indices, v, w, known))
  }

  lemma {:induction false} ScalesGrowOn(w: nat, vars: Variables, indices: seq<Index>, vars1: Variables,
                                        vars2: Variables, known: KnownBits)
    requires w > 0 && indices != [] && ScalesGrown(w, vars, indices[..|indices| - 1], vars1, known)
    requires ScalesTaken(w, vars1, indices[|indices| - 1], vars2, known)
    ensures ScalesGrown(w, vars, indices, vars2, known)
  {
    hide Listed, IndexScale;
    forall v, s | Listed(w, vars, v, s)
      ensures Listed(w, vars2, v, s + IndicesScale(indices, v, w, known))
    {
      var a, b := IndicesScale(indices[..|indices| - 1], v, w, known), IndexScale(indices[|indices| - 1], v, w, known);
      assert Listed(w, vars1, v, s + a);
      assert Listed(w, vars2, v, (s + a) + b);
      assert s + IndicesScale(indices, v, w, known) == (s + a) + b;
    }
  }

  /** A constant array index. */
  method AddConstant(size: nat, index: Expr, offs0: int, ghost vars: Variables, w: nat) returns (offs: int)
    requires 0 < w <= 64 && index.Const?
    ensures StepTaken(w, offs0, vars, Element(size, index), offs, vars)
  {
    if index.value % Pow2(w) == 0 {
      CongruentBy(Pow2(w), 0, 0, 0);
      NothingTaken(w, offs0, vars, Element(size, index));
      return offs0;
    }
    ConstantIndex(w, size, index.value);
    ConstantTaken(w, offs0, vars, Element(size, index), size * Signed(w, index.value));
    offs := Wrap64(offs0 + size * Signed(w, index.value));
  }

  /** An array index that is not constant: its constant part goes into the offset,
      the rest into the list. */
  method AddScaled(size: nat, index: Expr, offs0: int, vars0: Variables, w: nat, known: KnownBits)
    returns (offs: int, vars: Variables)
    requires 0 < w <= 64 && KnownRight(known, w) && VariablesOk(w, vars0)
    requires !index.Const?
    ensures VariablesOk(w, vars) && StepTaken(w, offs0, vars0, Element(size, index), offs, vars)
    ensures ScalesTaken(w, vars0, Element(size, index), vars, known)
  {
    hide Gains, SumGrows, VariablesOk, ScalesTaken, StepTaken;
    var v, indexScale, indexOffset := GetLinearExpression(index, w, known, 0);
    vars := AddVariable(vars0, v, (size * Signed(w, indexScale)) % WORD, w);
    GainsTaken(w, vars0, size, index, vars, known);
    VariableTaken(w, offs0, vars0, size, index, v, indexScale, indexOffset, vars);
    offs := Wrap64(offs0 + size * Signed(w, indexOffset));
  }

  /** A struct field: its offset, unless it is the first. */
  method AddField(number: nat, offset: nat, offs0: int, ghost vars: Variables, w: nat) returns (offs: int)
    requires 0 < w <= 64 && (number == 0 ==> offset == 0)
    ensures StepTaken(w, offs0, vars, Field(number, offset), offs, vars)
  {
    CongruentBy(Pow2(w), offset, offset, 0);
    if number == 0 {
      NothingTaken(w, offs0, vars, Field(number, offset));
      return offs0;
    }
    ConstantTaken(w, offs0, vars, Field(number, offset), offset);
    offs := Wrap64(offs0 + offset);
  }

  /** One index of a GEP. */
  method AddIndex(ix: Index, offs0: int, vars0: Variables, w: nat, known: KnownBits)
    returns (offs: int, vars: Variables)
    requires 0 < w <= 64 && KnownRight(known, w) && VariablesOk(w, vars0)
    requires ix.Field? && ix.number == 0 ==> ix.offset == 0
    ensures VariablesOk(w, vars) && StepTaken(w, offs0, vars0, ix, offs, vars)
    ensures ScalesTaken(w, vars0, ix, vars, known)
  {
    hide VariablesOk, StepTaken, Listed;
    offs, vars := offs0, vars0;
    match ix {
      case Field(number, offset) =>
        offs := AddField(number, offset, offs, vars, w);
      case Element(size, index) =>
        if index.Const? {
          offs := AddConstant(size, index, offs, vars, w);
        } else {
          offs, vars := AddScaled(size, index, offs, vars, w, known);
        }
    }
  }

  lemma {:induction false} ConstantIndex(w: nat, size: nat, c: nat)
    requires 0 < w <= 64
    ensures Congruent(Pow2(w), size * Signed(w, c), size * (c % Pow2(w)))
  {
    var m := Pow2(w);
    ScaledSigned(w, size, c);
    CongruentMod(m, c);
    CongruentBy(m, size, size, 0);
    CongruentMul(m, size, size, c, c % m);
    CongruentTrans(m, size * Signed(w, c), size * c, size * (c % m));
  }

  /** The loop over a GEP's indices. */
  method AddIndices(indices: seq<Index>, offs0: int, vars0: Variables, w: nat, known: KnownBits)
    returns (offs: int, vars: Variables)
    requires 0 < w <= 64 && KnownRight(known, w) && VariablesOk(w, vars0) && LayoutOk(indices)
    ensures VariablesOk(w, vars) && SameDistance(w, offs0, vars0, indices, offs, vars)
    ensures ScalesGrown(w, vars0, indices, vars, known)
  {
    hide VariablesOk, SameDistance, Listed, ScalesTaken, StepTaken;
    offs, vars := offs0, vars0;
    NoSteps(w, offs, vars);
    for i := 0 to |indices|
      invariant VariablesOk(w, vars) && SameDistance(w, offs0, vars0, indices[..i], offs, vars)
      invariant ScalesGrown(w, vars0, indices[..i], vars, known)
    {
      ghost var offs1, vars1 := offs, vars;
      offs, vars := AddIndex(indices[i], offs, vars, w, known);
      assert indices[..i + 1][..i] == indices[..i];
      OneMore(w, offs0, vars0, indices[..i + 1], offs1, vars1, offs, vars);
      ScalesGrowOn(w, vars0, indices[..i + 1], vars1, vars, known);
    }
    assert indices[..|indices|] == indices;
  }

  lemma {:induction false} NoSteps(w: nat, offs: int, vars: Variables)
    ensures SameDistance(w, offs, vars, [], offs, vars)
  {
    forall env
      ensures Congruent(Pow2(w), offs + Sum(vars, w, env) + 0, offs + Sum(vars, w, env))
    {
      CongruentBy(Pow2(w), offs + Sum(vars, w, env), offs + Sum(vars, w, env), 0);
    }
  }

  lemma {:induction false} OneMore(w: nat, offs: int, vars: Variables, indices: seq<Index>, offs1: int,
                                   vars1: Variables, offs2: int, vars2: Variables)
    requires indices != [] && SameDistance(w, offs, vars, indices[..|indices| - 1], offs1, vars1)
    requires StepTaken(w, offs1, vars1, indices[|indices| - 1], offs2, vars2)
    ensures SameDistance(w, offs, vars, indices, offs2, vars2)
  {
    var m, init, last := Pow2(w), indices[..|indices| - 1], indices[|indices| - 1];
    forall env
      ensures Congruent(m, offs + Sum(vars, w, env) + Steps(indices, w, env), offs2 + Sum(vars2, w, env))
    {
      var x := Step(last, w, env);
      CongruentBy(m, x, x, 0);
      CongruentAdd(m, offs + Sum(vars, w, env) + Steps(init, w, env), offs1 + Sum(vars1, w, env), x, x);
      CongruentTrans(m, offs + Sum(vars, w, env) + Steps(indices, w, env), offs1 + Sum(vars1, w, env) + x,
                     offs2 + Sum(vars2, w, env));
    }
  }

  // ----- the whole walk -----

  /** The address of `p` is that of `v` plus offset plus variables. */
  ghost predicate Decomposed(w: nat, p: Pointer, v: Pointer, offs: int, vars: Variables) {
    forall base, env :: Congruent(Pow2(w), Address(p, w, base, env),
                                  Address(v, w, base, env) + offs + Sum(vars, w, env))
  }

  lemma {:induction false} BeyondGep(m: int, p: int, q: int, steps: int, offs: int, sum: int, offs': int, sum': int,
                                     o: int)
    requires m > 0 && Congruent(m, p, q + steps + offs + sum) && Congruent(m, offs + sum + steps, offs' + sum')
    requires Congruent(m, o, offs')
    ensures Congruent(m, p, q + o + sum')
  {
    var j := Factor(m, p, q + steps + offs + sum);
    var k := Factor(m, offs + sum + steps, offs' + sum');
    var l := Factor(m, o, offs');
    Distribute(j, k, m);
    Distribute(j + k, l, m);
    CongruentBy(m, p, q + o + sum', j + k - l);
  }

  lemma {:induction false} DecomposedGep(w: nat, p: Pointer, q: Pointer, indices: seq<Index>, offs: int,
                                         vars: Variables, offs': int, vars': Variables)
    requires 0 < w <= 64 && Decomposed(w, p, Gep(q, indices), offs, vars) &&
             SameDistance(w, offs, vars, indices, offs', vars')
    ensures Decomposed(w, p, q, AdjustToPointerSize(offs', w), vars')
  {
    hide Congruent, Pow2, Signed, AdjustToPointerSize;
    var m, o := Pow2(w), AdjustToPointerSize(offs', w);
    AdjustIsSigned(offs', w);
    SignedCongruent(w, offs');
    forall base, env
      ensures Congruent(m, Address(p, w, base, env), Address(q, w, base, env) + o + Sum(vars', w, env))
    {
      assert Address(Gep(q, indices), w, base, env) == Address(q, w, base, env) + Steps(indices, w, env);
      BeyondGep(m, Address(p, w, base, env), Address(q, w, base, env), Steps(indices, w, env),
                offs, Sum(vars, w, env), offs', Sum(vars', w, env), o);
    }
  }

  const MAX_LOOKUP := 6

  /** How many steps lead from the pointer to where a walk stops. */
  function Links(p: Pointer): nat {
    match p
    case Base(_) => 0
    case Same(q) => 1 + Links(q)
    case Gep(q, _) => 1 + Links(q)
  }

  /** The pointer after at most `n` steps. */
  function Underlying(p: Pointer, n: nat): Pointer {
    if n == 0 then p
    else
      match p
      case Base(_) => p
      case Same(q) => Underlying(q, n - 1)
      case Gep(q, _) => Underlying(q, n - 1)
  }

  /** Adding one GEP's indices, with the offset cut to the pointer's width. */
  method PassGep(ghost p: Pointer, q: Pointer, indices: seq<Index>, offs0: int, vars0: Variables, w: nat,
                 known: KnownBits)
    returns (offs: int, vars: Variables)
    requires 0 < w <= 64 && KnownRight(known, w) && VariablesOk(w, vars0) && LayoutOk(indices)
    requires Decomposed(w, p, Gep(q, indices), offs0, vars0)
    ensures Decomposed(w, p, q, offs, vars) && VariablesOk(w, vars) && ScalesGrown(w, vars0, indices, vars, known)
    ensures 0 - Pow2(w - 1) <= offs < Pow2(w - 1)
  {
    hide VariablesOk, Decomposed, SameDistance, ScalesGrown;
    offs, vars := AddIndices(indices, offs0, vars0, w, known);
    DecomposedGep(w, p, q, indices, offs0, vars0, offs, vars);
    AdjustIsSigned(offs, w);
    offs := AdjustToPointerSize(offs, w);
  }

  /** The list has for each variable what the pointer's steps add up to. */
  ghost predicate ScalesOf(w: nat, p: Pointer, known: KnownBits, vars: Variables)
    requires w > 0
  {
    forall v :: Listed(w, vars, v, PointerScale(p, v, w, known, MAX_LOOKUP))
  }

  /** All but what `n` more steps from `q` will add. */
  ghost predicate ScalesSoFar(w: nat, p: Pointer, q: Pointer, n: nat, known: KnownBits, vars: Variables)
    requires w > 0
  {
    forall v ::
      Listed(w, vars, v, PointerScale(p, v, w, known, MAX_LOOKUP) - PointerScale(q, v, w, known, n))
  }

  lemma {:induction false} NoneListed(w: nat, p: Pointer, known: KnownBits)
    requires w > 0
    ensures ScalesSoFar(w, p, p, MAX_LOOKUP, known, [])
  {
  }

  lemma {:induction false} ScalesBeyond(w: nat, p: Pointer, q: Pointer, indices: seq<Index>, n: nat, known: KnownBits,
                                        vars: Variables, vars': Variables)
    requires w > 0 && n > 0 && ScalesSoFar(w, p, Gep(q, indices), n, known, vars)
    requires ScalesGrown(w, vars, indices, vars', known)
    ensures ScalesSoFar(w, p, q, n - 1, known, vars')
  {
    hide Listed, IndicesScale;
    forall v
      ensures Listed(w, vars', v, PointerScale(p, v, w, known, MAX_LOOKUP) - PointerScale(q, v, w, known, n - 1))
    {
      var whole, rest := PointerScale(p, v, w, known, MAX_LOOKUP), PointerScale(Gep(q, indices), v, w, known, n);
      var a := IndicesScale(indices, v, w, known);
      assert Listed(w, vars, v, whole - rest);
      assert Listed(w, vars', v, (whole - rest) + a);
      assert whole - PointerScale(q, v, w, known, n - 1) == (whole - rest) + a;
    }
  }

  /** Walks from `p` towards its base; at every exit the address is that of the
      pointer reached, plus offset, plus variables. */
  method DecomposeGEPExpression(p: Pointer, w: nat, known: KnownBits)
    returns (v: Pointer, baseOffs: int, vars: Variables, maxLookupReached: bool)
    requires 0 < w <= 64 && KnownRight(known, w) && PointerOk(p)
    ensures Decomposed(w, p, v, baseOffs, vars) && VariablesOk(w, vars)
    ensures 0 - Pow2(w - 1) <= baseOffs < Pow2(w - 1)
    ensures ScalesOf(w, p, known, vars)
    ensures v == Underlying(p, MAX_LOOKUP) && (maxLookupReached <==> Links(p) >= MAX_LOOKUP)
    ensures !maxLookupReached ==> v.Base?
  {
    hide LayoutOk, Listed;
    v, baseOffs, vars := p, 0, [];
    DecomposedSelf(w, p);
    NoneListed(w, p, known);
    var maxLookup := MAX_LOOKUP;
    while maxLookup > 0
      invariant 0 <= maxLookup <= MAX_LOOKUP
      invariant PointerOk(v) && VariablesOk(w, vars) && Decomposed(w, p, v, baseOffs, vars)
      invariant 0 - Pow2(w - 1) <= baseOffs < Pow2(w - 1)
      invariant ScalesSoFar(w, p, v, maxLookup, known, vars)
      invariant Underlying(p, MAX_LOOKUP) == Underlying(v, maxLookup)
      invariant Links(p) == Links(v) + (MAX_LOOKUP - maxLookup)
    {
      match v {
        case Base(_) => return v, baseOffs, vars, false;
        case Same(q) => v := q;
        case Gep(q, indices) =>
          ghost var vars0 := vars;
          baseOffs, vars := PassGep(p, q, indices, baseOffs, vars, w, known);
          ScalesBeyond(w, p, q, indices, maxLookup, known, vars0, vars);
          v := q;
      }
      maxLookup := maxLookup - 1;
    }
    maxLookupReached := true;
  }

  lemma {:induction false} DecomposedSelf(w: nat, p: Pointer)
    ensures Decomposed(w, p, p, 0, [])
  {
    forall base, env
      ensures Congruent(Pow2(w), Address(p, w, base, env), Address(p, w, base, env) + 0 + Sum([], w, env))
    {
      CongruentBy(Pow2(w), Address(p, w, base, env), Address(p, w, base, env), 0);
    }
  }
}
