/**
 What filter programs compute, told without the machine: a language of
 expressions over a packet and of rules that decide on it, its value, and its
 compilation to programs. The language uses every instruction of the machine.
 */
module BpfLanguage {
  import opened Options
  import opened BpfFilter

  // ----- instruction codes, as class, size, mode, operation and source bits

  function SizeBits(size: Size): nat {
    match size
    case Word => 0x00
    case Half => 0x08
    case Byte => 0x10
  }

  function SourceBits(src: Operand): nat {
    match src
    case K => 0x00
    case X => 0x08
  }

  function ComparisonBits(cmp: Comparison): nat {
    match cmp
    case Jeq => 0x10
    case Jgt => 0x20
    case Jge => 0x30
    case Jset => 0x40
  }

  function ArithmeticBits(op: Arithmetic): nat {
    match op
    case Add => 0x00
    case Sub => 0x10
    case Mul => 0x20
    case Div => 0x30
    case Or => 0x40
    case And => 0x50
    case Lsh => 0x60
    case Rsh => 0x70
  }

  function CodeOf(op: Op): nat
    requires op != Unknown
  {
    match op
    case LdImm => 0 + 0x00
    case LdAbs(size) => 0 + SizeBits(size) + 0x20
    case LdInd(size) => 0 + SizeBits(size) + 0x40
    case LdMem => 0 + 0x60
    case LdLen => 0 + 0x80
    case LdxImm => 1 + 0x00
    case LdxMem => 1 + 0x60
    case LdxLen => 1 + 0x80
    case LdxMsh => 1 + 0x10 + 0xa0
    case St => 2
    case Stx => 3
    case Alu(a, src) => 4 + ArithmeticBits(a) + SourceBits(src)
    case Neg => 4 + 0x80
    case Ja => 5 + 0x00
    case Jump(cmp, src) => 5 + ComparisonBits(cmp) + SourceBits(src)
    case RetK => 6 + 0x00
    case RetA => 6 + 0x10
    case Tax => 7 + 0x00
    case Txa => 7 + 0x80
  }

  lemma DecodeOfAlu(a: Arithmetic)
    ensures Decode(4 + ArithmeticBits(a)) == Alu(a, K) && Decode(4 + ArithmeticBits(a) + 8) == Alu(a, X)
  {
  }

  lemma DecodeOfJump(cmp: Comparison)
    ensures Decode(5 + ComparisonBits(cmp)) == Jump(cmp, K) && Decode(5 + ComparisonBits(cmp) + 8) == Jump(cmp, X)
  {
  }

  lemma DecodeOfLoads(size: Size)
    ensures Decode(SizeBits(size) + 0x20) == LdAbs(size) && Decode(SizeBits(size) + 0x40) == LdInd(size)
  {
  }

  lemma DecodeOfLd()
    ensures Decode(0) == LdImm && Decode(0x60) == LdMem && Decode(0x80) == LdLen
    ensures Decode(1) == LdxImm && Decode(0x61) == LdxMem && Decode(0x81) == LdxLen && Decode(0xb1) == LdxMsh
  {
  }

  lemma DecodeOfOthers()
    ensures Decode(2) == St && Decode(3) == Stx && Decode(0x84) == Neg && Decode(5) == Ja
    ensures Decode(6) == RetK && Decode(0x16) == RetA && Decode(7) == Tax && Decode(0x87) == Txa
  {
  }

  /** The interpreter knows these codes and no others. */
  lemma DecodeOfCode(op: Op)
    requires op != Unknown
    ensures Decode(CodeOf(op)) == op
  {
    hide Decode;
    DecodeOfLd();
    DecodeOfOthers();
    match op
    case Alu(a, src) => DecodeOfAlu(a);
    case Jump(cmp, src) => DecodeOfJump(cmp);
    case LdAbs(size) => DecodeOfLoads(size);
    case LdInd(size) => DecodeOfLoads(size);
    case _ =>
  }

  lemma KnownCodes(code: nat)
    ensures Decode(code) != Unknown ==> CodeOf(Decode(code)) == code
  {
  }

  /** Any other code makes it abort. */
  lemma OtherCodesAbort(f: Program, m: Machine, st: State)
    requires 0 <= st.pc < |f| && forall op :: op != Unknown ==> f[st.pc].code != CodeOf(op)
    ensures Step(f, m, st) == Aborted
  {
    hide Decode, CodeOf;
    KnownCodes(f[st.pc].code);
  }

  // ----- expressions and rules

  datatype Expr =
    | Const(k: Int32)
    | Length
    | HeaderLength(offset: Int32) // four times the low half of a byte
    | Load(size: Size, offset: Int32)
    | LoadAt(size: Size, base: Expr, offset: Int32)
    | Var(i: nat)
    | Negative(e: Expr)
    | Binary(op: Arithmetic, l: Expr, r: Expr)
    | Compare(cmp: Comparison, l: Expr, r: Expr)
    | Choice(c: Expr, a: Expr, b: Expr)
    | Let(e: Expr, body: Expr)

  datatype Rule = Accept(k: Int32) | AcceptValue(e: Expr) | If(c: Expr, yes: Rule, no: Rule)

  function Unsigned(k: Int32): U32 {
    if k < 0 then k + 0x1_0000_0000 else k
  }

  function Difference(a: U32, b: U32): U32 {
    if a >= b then a - b else a + 0x1_0000_0000 - b
  }

  function Product(a: U32, b: U32): U32 {
    a * b % 0x1_0000_0000
  }

  function Share(a: U32, b: U32): U32
    requires b != 0
  {
    QuotientFits(a, b);
    a / b
  }

  function Both(a: U32, b: U32): U32 {
    (a as bv32 & b as bv32) as U32
  }

  function Either(a: U32, b: U32): U32 {
    (a as bv32 | b as bv32) as U32
  }

  function Upwards(a: U32, n: U32): U32
    requires n < 32
  {
    (a as bv32 << n) as U32
  }

  function Downwards(a: U32, n: U32): U32
    requires n < 32
  {
    (a as bv32 >> n) as U32
  }

  function Result(m: Machine, op: Arithmetic, a: U32, b: U32): U32
    requires op == Div ==> b != 0
  {
    match op
    case Add => (a + b) % 0x1_0000_0000
    case Sub => Difference(a, b)
    case Mul => Product(a, b)
    case Div => Share(a, b)
    case Or => Either(a, b)
    case And => Both(a, b)
    case Lsh => if b < 32 then Upwards(a, b) else m.wideShift(a, b)
    case Rsh => if b < 32 then Downwards(a, b) else m.wideShift(a, b)
  }

  predicate Holds(cmp: Comparison, a: U32, b: U32) {
    match cmp
    case Jeq => a == b
    case Jgt => a > b
    case Jge => a >= b
    case Jset => Both(a, b) != 0
  }

  /** The value of an expression on a packet; nothing if a load fails or a
      divisor is zero. */
  function Eval(e: Expr, m: Machine, env: seq<U32>): Option<U32> {
    match e
    case Const(k) => Some(Unsigned(k))
    case Length => Some(m.wireLen)
    case HeaderLength(o) =>
      (match m.load(Byte, Unsigned(o))
       case None => None
       case Some(b) => Some(b % 16 * 4))
    case Load(size, o) => m.load(size, Unsigned(o))
    case LoadAt(size, base, o) =>
      (match Eval(base, m, env)
       case None => None
       case Some(a) => m.load(size, (a + Unsigned(o)) % 0x1_0000_0000))
    case Var(i) => if i < |env| then Some(env[i]) else None
    case Negative(x) =>
      (match Eval(x, m, env)
       case None => None
       case Some(a) => Some(if a == 0 then 0 else 0x1_0000_0000 - a))
    case Binary(op, l, r) =>
      (match (Eval(l, m, env), Eval(r, m, env))
       case (Some(a), Some(b)) => if op == Div && b == 0 then None else Some(Result(m, op, a, b))
       case _ => None)
    case Compare(cmp, l, r) =>
      (match (Eval(l, m, env), Eval(r, m, env))
       case (Some(a), Some(b)) => Some(if Holds(cmp, a, b) then 1 else 0)
       case _ => None)
    case Choice(c, a, b) =>
      (match Eval(c, m, env)
       case None => None
       case Some(v) => if v != 0 then Eval(a, m, env) else Eval(b, m, env))
    case Let(x, body) =>
      (match Eval(x, m, env)
       case None => None
       case Some(v) => Eval(body, m, env + [v]))
  }

  /** What a rule returns for a packet; zero rejects it. */
  function Value(rule: Rule, m: Machine): U32 {
    match rule
    case Accept(k) => Unsigned(k)
    case AcceptValue(e) => (match Eval(e, m, []) case None => 0 case Some(v) => v)
    case If(c, yes, no) =>
      (match Eval(c, m, [])
       case None => 0
       case Some(v) => if v != 0 then Value(yes, m) else Value(no, m))
  }

  // ----- compilation

  function Ins(op: Op, k: Int32): Insn
    requires op != Unknown
  {
    Insn(CodeOf(op), 0, 0, k)
  }

  /** An unconditional jump over `n` instructions. */
  function Over(n: nat): Insn {
    Ins(Ja, if n < 0x8000_0000 then n else 0)
  }

  /** Slots of scratch memory are numbers of variables. */
  function Slot(d: nat): Int32 {
    if d < BPF_MEMWORDS then d else 0
  }

  predicate Immediate(op: Arithmetic, r: Expr) {
    r.Const? && !(op == Div && r.k == 0)
  }

  /** One or zero, by the comparison that was not followed or followed. */
  function Verdict(cmp: Comparison, src: Operand, k: Int32): seq<Insn> {
    [Insn(CodeOf(Jump(cmp, src)), 0, 2, k), Ins(LdImm, 1), Over(1), Ins(LdImm, 0)]
  }

  /** Jumps over `n` instructions if the accumulator is zero. */
  function Test(n: nat): seq<Insn> {
    [Insn(CodeOf(Jump(Jeq, K)), 0, 1, 0), Over(n)]
  }

  /** Code that leaves the value of `e` in the accumulator. Variable `i` is in
      slot `vars[i]`; the slots from `d` on are free. */
  function Compile(e: Expr, vars: seq<nat>, d: nat): seq<Insn>
    decreases e, 0
  {
    match e
    case Const(k) => [Ins(LdImm, k)]
    case Length => [Ins(LdLen, 0)]
    case HeaderLength(o) => [Ins(LdxMsh, o), Ins(Txa, 0)]
    case Load(size, o) => [Ins(LdAbs(size), o)]
    case LoadAt(size, base, o) => Compile(base, vars, d) + [Ins(Tax, 0), Ins(LdInd(size), o)]
    case Var(i) => [Ins(LdMem, Slot(if i < |vars| then vars[i] else 0))]
    case Negative(x) => Compile(x, vars, d) + [Ins(Neg, 0)]
    case Binary(op, l, r) =>
      if Immediate(op, r) then Compile(l, vars, d) + [Ins(Alu(op, K), r.k)]
      else Store(r, vars, d) + (Compile(l, vars, d + 1) + [Ins(LdxMem, Slot(d)), Ins(Alu(op, X), 0)])
    case Compare(cmp, l, r) =>
      if r.Const? then Compile(l, vars, d) + Verdict(cmp, K, r.k)
      else Store(r, vars, d) + (Compile(l, vars, d + 1) + ([Ins(LdxMem, Slot(d))] + Verdict(cmp, X, 0)))
    case Choice(c, a, b) =>
      var yes, no := Compile(a, vars, d), Compile(b, vars, d);
      Compile(c, vars, d) + (Test(|yes| + 1) + (yes + ([Over(|no|)] + no)))
    case Let(x, body) => Store(x, vars, d) + Compile(body, vars + [d], d + 1)
  }

  /** Code that leaves the value of `e` in slot `d`. */
  function Store(e: Expr, vars: seq<nat>, d: nat): seq<Insn>
    decreases e, 1
  {
    match e
    case Const(k) => [Ins(LdxImm, k), Ins(Stx, Slot(d))]
    case Length => [Ins(LdxLen, 0), Ins(Stx, Slot(d))]
    case HeaderLength(o) => [Ins(LdxMsh, o), Ins(Stx, Slot(d))]
    case _ => Compile(e, vars, d) + [Ins(St, Slot(d))]
  }

  function CompileRule(rule: Rule): seq<Insn> {
    match rule
    case Accept(k) => [Ins(RetK, k)]
    case AcceptValue(e) => Compile(e, [], 0) + [Ins(RetA, 0)]
    case If(c, yes, no) => Compile(c, [], 0) + (Test(|CompileRule(yes)|) + (CompileRule(yes) + CompileRule(no)))
  }

  /** Of `n` variables only these are used, and there is a free slot from `d`
      on wherever one is needed. */
  predicate Scoped(e: Expr, n: nat, d: nat) {
    match e
    case Const(_) => true
    case Length => true
    case HeaderLength(_) => true
    case Load(_, _) => true
    case LoadAt(_, base, _) => Scoped(base, n, d)
    case Var(i) => i < n
    case Negative(x) => Scoped(x, n, d)
    case Binary(op, l, r) =>
      if Immediate(op, r) then Scoped(l, n, d)
      else d < 16 && Scoped(r, n, d) && Scoped(l, n, d + 1)
    case Compare(_, l, r) =>
      if r.Const? then Scoped(l, n, d) else d < 16 && Scoped(r, n, d) && Scoped(l, n, d + 1)
    case Choice(c, a, b) => Scoped(c, n, d) && Scoped(a, n, d) && Scoped(b, n, d)
    case Let(x, body) => d < 16 && Scoped(x, n, d) && Scoped(body, n + 1, d + 1)
  }

  predicate ScopedRule(rule: Rule) {
    match rule
    case Accept(_) => true
    case AcceptValue(e) => Scoped(e, 0, 0)
    case If(c, yes, no) => Scoped(c, 0, 0) && ScopedRule(yes) && ScopedRule(no)
  }
}
