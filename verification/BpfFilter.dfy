/**
 The packet filter machine: the validator of filter programs and the
 user-space interpreter. Packet loads and shifts by 32 bits or more are
 parameters of the machine; everything else is computed.
 */
module BpfFilter {
  import opened Options

  const BPF_MEMWORDS: nat := 16

  // Instruction classes, and the bits the validator looks at.
  const BPF_LD: nat := 0
  const BPF_ST: nat := 2
  const BPF_JMP: nat := 5
  const BPF_RET: nat := 6
  const BPF_JA: nat := 0x00
  const BPF_MEM: nat := 0x60
  const BPF_DIV_K: nat := 0x34

  type Int32 = x: int | -0x8000_0000 <= x < 0x8000_0000
  const WORD: nat := 0x1_0000_0000

  type U32 = x: nat | x < WORD
  type Byte = x: nat | x < 256

  type Scratch = s: seq<U32> | |s| == BPF_MEMWORDS witness seq(BPF_MEMWORDS, _ => 0)

  /** The length of a program is an int. */
  type Program = f: seq<Insn> | |f| < 0x8000_0000

  datatype Insn = Insn(code: nat, jt: Byte, jf: Byte, k: Int32)

  function Class(code: nat): nat {
    code % 8
  }

  function Mode(code: nat): nat {
    code / 32 % 8 * 32
  }

  function OpBits(code: nat): nat {
    code / 16 % 16 * 16
  }

  datatype Size = Word | Half | Byte

  datatype Operand = K | X

  datatype Comparison = Jgt | Jge | Jeq | Jset

  datatype Arithmetic = Add | Sub | Mul | Div | Or | And | Lsh | Rsh

  datatype Op =
    | RetK | RetA
    | LdAbs(size: Size) | LdInd(size: Size) | LdLen | LdxLen | LdxMsh
    | LdImm | LdxImm | LdMem | LdxMem | St | Stx
    | Ja | Jump(cmp: Comparison, src: Operand)
    | Alu(op: Arithmetic, src: Operand) | Neg
    | Tax | Txa
    | Unknown

  /** The instruction the interpreter's switch selects for a code. */
  function Decode(code: nat): Op {
    match code
    case 0x06 => RetK
    case 0x16 => RetA
    case 0x20 => LdAbs(Word)
    case 0x28 => LdAbs(Half)
    case 0x30 => LdAbs(Byte)
    case 0x80 => LdLen
    case 0x81 => LdxLen
    case 0x40 => LdInd(Word)
    case 0x48 => LdInd(Half)
    case 0x50 => LdInd(Byte)
    case 0xb1 => LdxMsh
    case 0x00 => LdImm
    case 0x01 => LdxImm
    case 0x60 => LdMem
    case 0x61 => LdxMem
    case 0x02 => St
    case 0x03 => Stx
    case 0x05 => Ja
    case 0x25 => Jump(Jgt, K)
    case 0x35 => Jump(Jge, K)
    case 0x15 => Jump(Jeq, K)
    case 0x45 => Jump(Jset, K)
    case 0x2d => Jump(Jgt, X)
    case 0x3d => Jump(Jge, X)
    case 0x1d => Jump(Jeq, X)
    case 0x4d => Jump(Jset, X)
    case 0x0c => Alu(Add, X)
    case 0x1c => Alu(Sub, X)
    case 0x2c => Alu(Mul, X)
    case 0x3c => Alu(Div, X)
    case 0x5c => Alu(And, X)
    case 0x4c => Alu(Or, X)
    case 0x6c => Alu(Lsh, X)
    case 0x7c => Alu(Rsh, X)
    case 0x04 => Alu(Add, K)
    case 0x14 => Alu(Sub, K)
    case 0x24 => Alu(Mul, K)
    case 0x34 => Alu(Div, K)
    case 0x54 => Alu(And, K)
    case 0x44 => Alu(Or, K)
    case 0x64 => Alu(Lsh, K)
    case 0x74 => Alu(Rsh, K)
    case 0x84 => Neg
    case 0x07 => Tax
    case 0x87 => Txa
    case _ => Unknown
  }

  // ----- the validator

  /** A sum of ints compared with an unsigned number. */
  function AsUnsigned(x: int): int {
    if x < 0 then x + WORD else x
  }

  /** What the validator demands of instruction `i`. */
  predicate InsnAccepted(f: Program, i: nat)
    requires i < |f|
  {
    var p := f[i];
    && (Class(p.code) == BPF_JMP ==>
          if OpBits(p.code) == BPF_JA then AsUnsigned(i + 1 + p.k) < |f|
          else i + 1 + p.jt < |f| && i + 1 + p.jf < |f|)
    && (Class(p.code) == BPF_ST || (Class(p.code) == BPF_LD && Mode(p.code) == BPF_MEM) ==> 0 <= p.k < BPF_MEMWORDS)
    && (p.code == BPF_DIV_K ==> p.k != 0)
  }

  ghost predicate Accepted(f: Program) {
    && |f| > 0
    && (forall i :: 0 <= i < |f| ==> InsnAccepted(f, i))
    && Class(f[|f| - 1].code) == BPF_RET
  }

  method Validate(f: Program) returns (ok: bool)
    requires |f| > 0
    ensures ok <==> Accepted(f)
  {
    for i := 0 to |f|
      invariant forall m :: 0 <= m < i ==> InsnAccepted(f, m)
    {
      ghost var here := InsnAccepted(f, i);
      var p := f[i];
      if Class(p.code) == BPF_JMP {
        var from := i + 1;
        if OpBits(p.code) == BPF_JA {
          if AsUnsigned(from + p.k) >= |f| {
            return false;
          }
        } else if from + p.jt >= |f| || from + p.jf >= |f| {
          return false;
        }
      }
      if (Class(p.code) == BPF_ST || (Class(p.code) == BPF_LD && Mode(p.code) == BPF_MEM)) &&
         (p.k >= BPF_MEMWORDS || p.k < 0) {
        return false;
      }
      if p.code == BPF_DIV_K && p.k == 0 {
        return false;
      }
    }
    return Class(f[|f| - 1].code) == BPF_RET;
  }

  // ----- the machine

  /** The packet and what C leaves open. */
  datatype Machine = Machine(load: (Size, U32) -> Option<U32>, wireLen: U32, wideShift: (U32, U32) -> U32)

  datatype State = State(pc: int, a: U32, x: U32, mem: Scratch)

  datatype Trouble = OutsideProgram | OutsideScratch | DivisionByZero

  datatype Outcome = Next(state: State) | Return(value: U32) | Aborted | Fault(trouble: Trouble)

  /** An immediate operand as an unsigned word. */
  function Bits(k: Int32): U32 {
    if k < 0 then k + WORD else k
  }

  function BitAnd(a: U32, b: U32): U32 {
    (a as bv32 & b as bv32) as U32
  }

  function BitOr(a: U32, b: U32): U32 {
    (a as bv32 | b as bv32) as U32
  }

  function ShiftLeft(a: U32, n: nat): U32
    requires n < 32
  {
    (a as bv32 << n) as U32
  }

  function ShiftRight(a: U32, n: nat): U32
    requires n < 32
  {
    (a as bv32 >> n) as U32
  }

  predicate Taken(cmp: Comparison, a: U32, b: U32) {
    match cmp
    case Jgt => a > b
    case Jge => a >= b
    case Jeq => a == b
    case Jset => BitAnd(a, b) != 0
  }

  function Compute(m: Machine, op: Arithmetic, a: U32, b: U32): U32
    requires op.Div? ==> b != 0
  {
    match op
    case Add => (a + b) % WORD
    case Sub => (a - b) % WORD
    case Mul => a * b % WORD
    case Div => Quotient(a, b)
    case Or => BitOr(a, b)
    case And => BitAnd(a, b)
    case Lsh => if b < 32 then ShiftLeft(a, b) else m.wideShift(a, b)
    case Rsh => if b < 32 then ShiftRight(a, b) else m.wideShift(a, b)
  }

  function Quotient(a: U32, b: U32): U32
    requires b != 0
  {
    QuotientFits(a, b);
    a / b
  }

  lemma QuotientFits(a: nat, b: nat)
    requires b > 0
    ensures 0 <= a / b <= a
  {
    var q := a / b;
    assert a == q * b + a % b;
    TimesAtLeast(q, b);
  }

  lemma {:induction false} TimesAtLeast(q: int, b: nat)
    requires b > 0
    ensures q >= 0 ==> q * b >= q
    ensures q < 0 ==> q * b < 0
  {
    if b > 1 {
      TimesAtLeast(q, b - 1);
      assert q * b == q * (b - 1) + q;
    }
  }

  function LoadA(s: State, v: Option<U32>): Outcome {
    match v
    case None => Return(0)
    case Some(w) => Next(s.(a := w))
  }

  /** One instruction. The program counter of the result already points to
      the instruction after it, or to the target of the jump. */
  function Step(f: Program, m: Machine, st: State): Outcome
  {
    if !(0 <= st.pc < |f|) then Fault(OutsideProgram)
    else
      var p := f[st.pc];
      var s := st.(pc := st.pc + 1);
      match Decode(p.code)
      case RetK => Return(Bits(p.k))
      case RetA => Return(s.a)
      case LdAbs(size) => LoadA(s, m.load(size, Bits(p.k)))
      case LdInd(size) => LoadA(s, m.load(size, (s.x + Bits(p.k)) % WORD))
      case LdLen => Next(s.(a := m.wireLen))
      case LdxLen => Next(s.(x := m.wireLen))
      case LdxMsh =>
        (match m.load(Byte, Bits(p.k))
         case None => Return(0)
         case Some(b) => Next(s.(x := b % 16 * 4)))
      case LdImm => Next(s.(a := Bits(p.k)))
      case LdxImm => Next(s.(x := Bits(p.k)))
      case LdMem => if 0 <= p.k < BPF_MEMWORDS then Next(s.(a := s.mem[p.k])) else Fault(OutsideScratch)
      case LdxMem => if 0 <= p.k < BPF_MEMWORDS then Next(s.(x := s.mem[p.k])) else Fault(OutsideScratch)
      case St => if 0 <= p.k < BPF_MEMWORDS then Next(s.(mem := s.mem[p.k := s.a])) else Fault(OutsideScratch)
      case Stx => if 0 <= p.k < BPF_MEMWORDS then Next(s.(mem := s.mem[p.k := s.x])) else Fault(OutsideScratch)
      case Ja => Next(s.(pc := s.pc + p.k))
      case Jump(cmp, src) =>
        var b := if src == K then Bits(p.k) else s.x;
        Next(s.(pc := s.pc + if Taken(cmp, s.a, b) then p.jt else p.jf))
      case Alu(op, src) =>
        var b := if src == K then Bits(p.k) else s.x;
        if op == Div && b == 0 then (if src == K then Fault(DivisionByZero) else Return(0))
        else Next(s.(a := Compute(m, op, s.a, b)))
      case Neg => Next(s.(a := (WORD - s.a) % WORD))
      case Tax => Next(s.(x := s.a))
      case Txa => Next(s.(a := s.x))
      case Unknown => Aborted
  }

  // ----- safety of accepted programs

  ghost predicate ForwardJumps(f: Program) {
    forall i :: 0 <= i < |f| && Decode(f[i].code) == Ja ==> f[i].k >= 0
  }

  /** The scratch indices the validator does not look at. */
  ghost predicate IndexScratchOk(f: Program) {
    forall i :: 0 <= i < |f| && (Decode(f[i].code) == LdxMem || Decode(f[i].code) == Stx) ==>
      0 <= f[i].k < BPF_MEMWORDS
  }

  lemma DecodeClasses(code: nat)
    ensures Decode(code) == Ja ==> Class(code) == BPF_JMP && OpBits(code) == BPF_JA
    ensures Decode(code).Jump? ==> Class(code) == BPF_JMP && OpBits(code) != BPF_JA
    ensures Decode(code) == St ==> Class(code) == BPF_ST
    ensures Decode(code) == LdMem ==> Class(code) == BPF_LD && Mode(code) == BPF_MEM
    ensures Decode(code) == Alu(Div, K) <==> code == BPF_DIV_K
    ensures Class(code) == BPF_RET ==> Decode(code) in {RetK, RetA, Unknown}
  {
  }

  ghost predicate Inside(f: Program, st: State) {
    0 <= st.pc < |f|
  }

  /** Where an accepted instruction can lead to. */
  lemma TargetsInside(f: Program, i: nat)
    requires Accepted(f) && i < |f|
    ensures Decode(f[i].code) == Ja ==> 0 <= i + 1 + f[i].k < |f|
    ensures Decode(f[i].code).Jump? ==> i + 1 + f[i].jt < |f| && i + 1 + f[i].jf < |f|
    ensures Decode(f[i].code) in {RetK, RetA, Unknown} || i + 1 < |f|
    ensures Decode(f[i].code) in {St, LdMem} ==> 0 <= f[i].k < BPF_MEMWORDS
    ensures Decode(f[i].code) == Alu(Div, K) ==> f[i].k != 0
  {
    hide Decode;
    assert InsnAccepted(f, i);
    DecodeClasses(f[i].code);
  }

  /** The two scratch accesses whose index the validator does not look at. */
  predicate StraysAt(f: Program, i: nat)
    requires i < |f|
  {
    (Decode(f[i].code) == LdxMem || Decode(f[i].code) == Stx) && !(0 <= f[i].k < BPF_MEMWORDS)
  }

  /** An instruction of an accepted program: the program counter stays
      inside, and moves forward unless the instruction is an unconditional
      jump back; only the two unchecked scratch accesses can go wrong. */
  lemma StepOfAccepted(f: Program, m: Machine, st: State)
    requires Accepted(f) && Inside(f, st)
    ensures Step(f, m, st).Next? ==> Inside(f, Step(f, m, st).state)
    ensures Step(f, m, st).Next? ==>
              (Step(f, m, st).state.pc > st.pc <==> !(Decode(f[st.pc].code) == Ja && f[st.pc].k < 0))
    ensures Step(f, m, st).Fault? <==> StraysAt(f, st.pc)
    ensures Step(f, m, st).Fault? ==> Step(f, m, st) == Fault(OutsideScratch)
  {
    TargetsInside(f, st.pc);
    hide Decode, Accepted, Compute, Taken;
  }

  /** Accepted programs jump forward, as the validator means them to, exactly
      when no unconditional jump has a negative offset. */
  lemma ForwardExactly(f: Program, m: Machine, mem: Scratch)
    requires Accepted(f)
    ensures ForwardJumps(f) <==>
            forall st :: Inside(f, st) && st.mem == mem && Step(f, m, st).Next? ==> Step(f, m, st).state.pc > st.pc
  {
    if ForwardJumps(f) {
      forall st | Inside(f, st) && Step(f, m, st).Next? ensures Step(f, m, st).state.pc > st.pc {
        StepOfAccepted(f, m, st);
      }
    } else {
      var i :| 0 <= i < |f| && Decode(f[i].code) == Ja && f[i].k < 0;
      var st := State(i, 0, 0, mem);
      assert Inside(f, st) && Step(f, m, st).Next? && Step(f, m, st).state.pc <= st.pc;
    }
  }

  // ----- whole runs

  /** The outcome of the first `n` instructions. */
  ghost function Run(f: Program, m: Machine, st: State, n: nat): Outcome {
    if n == 0 then Next(st)
    else
      match Run(f, m, st, n - 1)
      case Next(s) => Step(f, m, s)
      case o => o
  }

  function Start(mem: Scratch): State {
    State(0, 0, 0, mem)
  }

  /** A run of an accepted program never leaves it and never divides by
      zero; what it can miss is the scratch memory, by LDX or STX. */
  lemma {:induction false} RunStaysInside(f: Program, m: Machine, mem: Scratch, n: nat)
    requires Accepted(f)
    ensures Run(f, m, Start(mem), n).Next? ==> Inside(f, Run(f, m, Start(mem), n).state)
    ensures Run(f, m, Start(mem), n).Fault? ==>
              Run(f, m, Start(mem), n) == Fault(OutsideScratch) && !IndexScratchOk(f)
  {
    hide Step, Accepted;
    if n == 0 {
      NotEmpty(f);
    } else {
      RunStaysInside(f, m, mem, n - 1);
      var o := Run(f, m, Start(mem), n - 1);
      if o.Next? {
        StepOfAccepted(f, m, o.state);
      }
    }
  }

  lemma NotEmpty(f: Program)
    requires Accepted(f)
    ensures |f| > 0
  {
  }

  lemma {:induction false} RunAdvances(f: Program, m: Machine, mem: Scratch, n: nat)
    requires Accepted(f) && ForwardJumps(f)
    ensures Run(f, m, Start(mem), n).Next? ==> n <= Run(f, m, Start(mem), n).state.pc < |f|
  {
    hide Step, Accepted;
    RunStaysInside(f, m, mem, n);
    if n > 0 {
      RunAdvances(f, m, mem, n - 1);
      var o := Run(f, m, Start(mem), n - 1);
      if o.Next? {
        StepOfAccepted(f, m, o.state);
      }
    }
  }

  /** On any packet and any scratch contents an accepted program with forward
      jumps ends within as many instructions as it has; unless an index of LDX
      or STX is out of range it returns or is aborted. */
  lemma AcceptedRunsToEnd(f: Program, m: Machine, mem: Scratch)
    requires Accepted(f) && ForwardJumps(f)
    ensures !Run(f, m, Start(mem), |f|).Next?
    ensures IndexScratchOk(f) ==> Run(f, m, Start(mem), |f|).Return? || Run(f, m, Start(mem), |f|).Aborted?
  {
    RunAdvances(f, m, mem, |f|);
    RunStaysInside(f, m, mem, |f|);
  }

  /** The interpreter's loop. Scratch memory starts with whatever it holds; a
      missing program accepts every packet. */
  method Filter(program: Option<Program>, m: Machine, mem: Scratch) returns (r: Outcome)
    requires program.Some? ==> Accepted(program.value) && ForwardJumps(program.value)
    ensures match program
            case None => r == Return(0xFFFF_FFFF)
            case Some(f) =>
              && r == Run(f, m, Start(mem), |f|) && !r.Next?
              && (r.Fault? ==> r == Fault(OutsideScratch) && !IndexScratchOk(f))
  {
    hide Step, Accepted, ForwardJumps, IndexScratchOk;
    if program.None? {
      return Return(WORD - 1);
    }
    var f := program.value;
    var st := Start(mem);
    RunStaysInside(f, m, mem, 0);
    ghost var n := 0;
    while true
      invariant Run(f, m, Start(mem), n) == Next(st) && Inside(f, st) && n <= st.pc
      decreases |f| - st.pc
    {
      RunAdvances(f, m, mem, n + 1);
      StepForward(f, m, st);
      r := Step(f, m, st);
      if !r.Next? {
        RunStays(f, m, Start(mem), n + 1, |f|);
        RunStaysInside(f, m, mem, |f|);
        return;
      }
      st := r.state;
      n := n + 1;
    }
  }

  lemma StepForward(f: Program, m: Machine, st: State)
    requires Accepted(f) && ForwardJumps(f) && Inside(f, st)
    ensures Step(f, m, st).Next? ==> st.pc < Step(f, m, st).state.pc < |f|
  {
    StepOfAccepted(f, m, st);
  }

  lemma {:induction false} RunStays(f: Program, m: Machine, st: State, n: nat, later: nat)
    requires !Run(f, m, st, n).Next? && n <= later
    ensures Run(f, m, st, later) == Run(f, m, st, n)
  {
    if n < later {
      RunStays(f, m, st, n, later - 1);
    }
  }

  // ----- why forward jumps have to be asked for

  const LOOP: Program := [Insn(0x05, 0, 0, -1), Insn(0x06, 0, 0, 0)]

  /** An accepted program that never ends: its jump goes back to itself. */
  lemma {:induction false} AcceptedLoop(m: Machine, mem: Scratch, n: nat)
    ensures Accepted(LOOP) && IndexScratchOk(LOOP) && !ForwardJumps(LOOP)
    ensures Run(LOOP, m, Start(mem), n) == Next(Start(mem))
  {
    assert InsnAccepted(LOOP, 0) && InsnAccepted(LOOP, 1);
    assert Decode(LOOP[0].code) == Ja && LOOP[0].k < 0;
    if n > 0 {
      AcceptedLoop(m, mem, n - 1);
    }
  }
}
