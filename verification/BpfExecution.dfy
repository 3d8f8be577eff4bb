/**
 Running compiled code: the interpreter computes the value of an expression
 and returns the value of a rule.
 */
module BpfExecution {
  import opened Options
  import opened BpfFilter
  import opened BpfLanguage

  // ----- running code that sits in a program

  ghost predicate Sits(f: Program, p: int, code: seq<Insn>) {
    && 0 <= p && p + |code| <= |f|
    && forall k :: 0 <= k < |code| ==> f[p + k] == code[k]
  }

  lemma SitsParts(f: Program, p: int, a: seq<Insn>, b: seq<Insn>)
    requires Sits(f, p, a + b)
    ensures Sits(f, p, a) && Sits(f, p + |a|, b)
  {
    forall k | 0 <= k < |a| ensures f[p + k] == a[k] {
      assert (a + b)[k] == a[k];
    }
    forall k | 0 <= k < |b| ensures f[p + |a| + k] == b[k] {
      assert (a + b)[|a| + k] == b[k];
    }
  }

  /** What an instruction sitting at the program counter does. */
  lemma Executes(f: Program, m: Machine, st: State, op: Op, jt: Byte, jf: Byte, k: Int32)
    requires op != Unknown && Sits(f, st.pc, [Insn(CodeOf(op), jt, jf, k)])
    ensures 0 <= st.pc < |f| && f[st.pc] == Insn(CodeOf(op), jt, jf, k)
    ensures Decode(f[st.pc].code) == op && Run(f, m, st, 1) == Step(f, m, st)
  {
    hide Decode, CodeOf, Step;
    assert f[st.pc + 0] == [Insn(CodeOf(op), jt, jf, k)][0];
    DecodeOfCode(op);
    assert Run(f, m, st, 0) == Next(st);
  }

  lemma {:induction false} RunOn(f: Program, m: Machine, st: State, n: nat, more: nat)
    ensures Run(f, m, st, n).Next? ==> Run(f, m, st, n + more) == Run(f, m, Run(f, m, st, n).state, more)
    ensures !Run(f, m, st, n).Next? ==> Run(f, m, st, n + more) == Run(f, m, st, n)
  {
    hide Step;
    if more > 0 {
      RunOn(f, m, st, n, more - 1);
    }
  }

  /** After `n` instructions the machine is at `pc`, and scratch memory below
      slot `d` is as before. */
  ghost predicate Gets(f: Program, m: Machine, st: State, n: nat, pc: int, d: nat) {
    && Run(f, m, st, n).Next?
    && var s := Run(f, m, st, n).state;
       s.pc == pc && forall j :: 0 <= j < d && j < BPF_MEMWORDS ==> s.mem[j] == st.mem[j]
  }

  /** ... with a value in the accumulator, or the packet is rejected. */
  ghost predicate Computes(f: Program, m: Machine, st: State, n: nat, pc: int, d: nat, v: Option<U32>) {
    match v
    case None => Run(f, m, st, n) == Return(0)
    case Some(a) => Gets(f, m, st, n, pc, d) && Run(f, m, st, n).state.a == a
  }

  /** ... with a value in slot `d`. */
  ghost predicate Stores(f: Program, m: Machine, st: State, n: nat, pc: int, d: nat, v: Option<U32>) {
    match v
    case None => Run(f, m, st, n) == Return(0)
    case Some(a) => Gets(f, m, st, n, pc, d) && d < BPF_MEMWORDS && Run(f, m, st, n).state.mem[d] == a
  }

  ghost predicate Bound(st: State, vars: seq<nat>, env: seq<U32>, d: nat) {
    && |vars| == |env|
    && forall i :: 0 <= i < |vars| ==> vars[i] < d && vars[i] < BPF_MEMWORDS && st.mem[vars[i]] == env[i]
  }

  lemma BitsAgree(a: U32, b: U32)
    ensures BitAnd(a, b) == Both(a, b) && BitOr(a, b) == Either(a, b)
  {
  }

  lemma ShiftsAgree(a: U32, n: U32)
    requires n < 32
    ensures ShiftLeft(a, n) == Upwards(a, n) && ShiftRight(a, n) == Downwards(a, n)
  {
  }

  lemma DifferenceAgrees(a: U32, b: U32)
    ensures (a - b) % WORD == Difference(a, b)
  {
  }

  lemma ProductAgrees(a: U32, b: U32)
    ensures a * b % WORD == Product(a, b)
  {
  }

  lemma ResultIsComputed(m: Machine, op: Arithmetic, a: U32, b: U32)
    requires op == Div ==> b != 0
    ensures Compute(m, op, a, b) == Result(m, op, a, b)
  {
    BitsAgree(a, b);
    DifferenceAgrees(a, b);
    ProductAgrees(a, b);
    if b < 32 {
      ShiftsAgree(a, b);
    }
    hide BitAnd, BitOr, Both, Either, ShiftLeft, ShiftRight, Upwards, Downwards, Difference, Product;
  }

  lemma HoldsIsTaken(cmp: Comparison, a: U32, b: U32)
    ensures Taken(cmp, a, b) <==> Holds(cmp, a, b)
  {
    BitsAgree(a, b);
    hide BitAnd, Both;
  }

  // ----- putting runs together

  lemma ThenComputes(f: Program, m: Machine, st: State, n: nat, pc: int, d: nat,
                     more: nat, pc': int, d': nat, v: Option<U32>)
    requires Gets(f, m, st, n, pc, d) && d <= d'
    requires Computes(f, m, Run(f, m, st, n).state, more, pc', d', v)
    ensures Computes(f, m, st, n + more, pc', d, v)
  {
    hide Run;
    RunOn(f, m, st, n, more);
  }

  lemma ThenStores(f: Program, m: Machine, st: State, n: nat, pc: int, d: nat, more: nat, pc': int, v: Option<U32>)
    requires Gets(f, m, st, n, pc, d) && Stores(f, m, Run(f, m, st, n).state, more, pc', d, v)
    ensures Stores(f, m, st, n + more, pc', d, v)
  {
    hide Run;
    RunOn(f, m, st, n, more);
  }

  lemma StillBound(f: Program, m: Machine, st: State, n: nat, pc: int, d: nat, vars: seq<nat>, env: seq<U32>)
    requires Gets(f, m, st, n, pc, d) && Bound(st, vars, env, d)
    ensures Bound(Run(f, m, st, n).state, vars, env, d)
  {
    hide Run;
  }

  // ----- single instructions

  lemma RunsConst(f: Program, m: Machine, st: State, d: nat, k: Int32)
    requires Sits(f, st.pc, [Ins(LdImm, k)])
    ensures Computes(f, m, st, 1, st.pc + 1, d, Some(Unsigned(k)))
  {
    Executes(f, m, st, LdImm, 0, 0, k);
    hide Decode, CodeOf, Run;
  }

  lemma RunsLength(f: Program, m: Machine, st: State, d: nat)
    requires Sits(f, st.pc, [Ins(LdLen, 0)])
    ensures Computes(f, m, st, 1, st.pc + 1, d, Some(m.wireLen))
  {
    Executes(f, m, st, LdLen, 0, 0, 0);
    hide Decode, CodeOf, Run;
  }

  lemma RunsLoad(f: Program, m: Machine, st: State, d: nat, size: Size, k: Int32)
    requires Sits(f, st.pc, [Ins(LdAbs(size), k)])
    ensures Computes(f, m, st, 1, st.pc + 1, d, m.load(size, Unsigned(k)))
  {
    Executes(f, m, st, LdAbs(size), 0, 0, k);
    hide Decode, CodeOf, Run;
  }

  lemma RunsVar(f: Program, m: Machine, st: State, d: nat, slot: nat)
    requires slot < BPF_MEMWORDS && Sits(f, st.pc, [Ins(LdMem, Slot(slot))])
    ensures Computes(f, m, st, 1, st.pc + 1, d, Some(st.mem[slot]))
  {
    Executes(f, m, st, LdMem, 0, 0, slot);
    hide Decode, CodeOf, Run;
  }

  lemma RunsNeg(f: Program, m: Machine, st: State, d: nat)
    requires Sits(f, st.pc, [Ins(Neg, 0)])
    ensures Computes(f, m, st, 1, st.pc + 1, d, Some(if st.a == 0 then 0 else 0x1_0000_0000 - st.a))
  {
    Executes(f, m, st, Neg, 0, 0, 0);
    hide Decode, CodeOf, Run;
  }

  lemma RunsSt(f: Program, m: Machine, st: State, d: nat)
    requires d < BPF_MEMWORDS && Sits(f, st.pc, [Ins(St, Slot(d))])
    ensures Stores(f, m, st, 1, st.pc + 1, d, Some(st.a))
  {
    Executes(f, m, st, St, 0, 0, d);
    hide Decode, CodeOf, Run;
  }

  /** An instruction that only sets X. */
  lemma RunsSetX(f: Program, m: Machine, st: State, op: Op, k: Int32, x: U32)
    requires op != Unknown && Sits(f, st.pc, [Ins(op, k)])
    requires || (op == Tax && x == st.a) || (op == LdxLen && x == m.wireLen) || (op == LdxImm && x == Unsigned(k))
             || (op == LdxMem && 0 <= k < BPF_MEMWORDS && x == st.mem[k])
             || (op == LdxMsh && m.load(Byte, Unsigned(k)).Some? && x == m.load(Byte, Unsigned(k)).value % 16 * 4)
    ensures Run(f, m, st, 1) == Next(st.(pc := st.pc + 1, x := x))
  {
    Executes(f, m, st, op, 0, 0, k);
    hide Decode, CodeOf, Run;
  }

  lemma RunsMshFails(f: Program, m: Machine, st: State, k: Int32)
    requires Sits(f, st.pc, [Ins(LdxMsh, k)]) && m.load(Byte, Unsigned(k)).None?
    ensures Run(f, m, st, 1) == Return(0)
  {
    Executes(f, m, st, LdxMsh, 0, 0, k);
    hide Decode, CodeOf, Run;
  }

  lemma RunsTxa(f: Program, m: Machine, st: State, d: nat)
    requires Sits(f, st.pc, [Ins(Txa, 0)])
    ensures Computes(f, m, st, 1, st.pc + 1, d, Some(st.x))
  {
    Executes(f, m, st, Txa, 0, 0, 0);
    hide Decode, CodeOf, Run;
  }

  lemma RunsStx(f: Program, m: Machine, st: State, d: nat)
    requires d < BPF_MEMWORDS && Sits(f, st.pc, [Ins(Stx, Slot(d))])
    ensures Stores(f, m, st, 1, st.pc + 1, d, Some(st.x))
  {
    Executes(f, m, st, Stx, 0, 0, d);
    hide Decode, CodeOf, Run;
  }

  lemma RunsLoadInd(f: Program, m: Machine, st: State, d: nat, size: Size, k: Int32)
    requires Sits(f, st.pc, [Ins(LdInd(size), k)])
    ensures Computes(f, m, st, 1, st.pc + 1, d, m.load(size, (st.x + Unsigned(k)) % 0x1_0000_0000))
  {
    Executes(f, m, st, LdInd(size), 0, 0, k);
    hide Decode, CodeOf, Run;
  }

  /** The value of an operation on two values. */
  function Operation(m: Machine, op: Arithmetic, a: U32, b: U32): Option<U32> {
    if op == Div && b == 0 then None else Some(Result(m, op, a, b))
  }

  lemma RunsAluK(f: Program, m: Machine, st: State, d: nat, op: Arithmetic, k: Int32)
    requires Sits(f, st.pc, [Ins(Alu(op, K), k)]) && !(op == Div && k == 0)
    ensures Computes(f, m, st, 1, st.pc + 1, d, Operation(m, op, st.a, Unsigned(k)))
  {
    Executes(f, m, st, Alu(op, K), 0, 0, k);
    ResultIsComputed(m, op, st.a, Unsigned(k));
    hide Decode, CodeOf, Run, Compute, Result;
  }

  lemma RunsAluX(f: Program, m: Machine, st: State, d: nat, op: Arithmetic)
    requires Sits(f, st.pc, [Ins(Alu(op, X), 0)])
    ensures Computes(f, m, st, 1, st.pc + 1, d, Operation(m, op, st.a, st.x))
  {
    Executes(f, m, st, Alu(op, X), 0, 0, 0);
    if !(op == Div && st.x == 0) {
      ResultIsComputed(m, op, st.a, st.x);
    }
    hide Decode, CodeOf, Run, Compute, Result;
  }

  lemma RunsOver(f: Program, m: Machine, st: State, d: nat, n: nat)
    requires Sits(f, st.pc, [Over(n)]) && n < 0x8000_0000
    ensures Run(f, m, st, 1) == Next(st.(pc := st.pc + 1 + n))
  {
    Executes(f, m, st, Ja, 0, 0, n);
    hide Decode, CodeOf, Run;
  }

  lemma RunsJump(f: Program, m: Machine, st: State, cmp: Comparison, src: Operand, jt: Byte, jf: Byte, k: Int32)
    requires Sits(f, st.pc, [Insn(CodeOf(Jump(cmp, src)), jt, jf, k)])
    ensures var b := if src == K then Unsigned(k) else st.x;
            Run(f, m, st, 1) == Next(st.(pc := st.pc + 1 + if Holds(cmp, st.a, b) then jt else jf))
  {
    hide Decode, CodeOf, Run, Holds, Taken, Compute;
    Executes(f, m, st, Jump(cmp, src), jt, jf, k);
    HoldsIsTaken(cmp, st.a, if src == K then Unsigned(k) else st.x);
  }

  // ----- the pieces of compiled code

  lemma RunsHeaderLength(f: Program, m: Machine, st: State, d: nat, k: Int32) returns (n: nat)
    requires Sits(f, st.pc, [Ins(LdxMsh, k), Ins(Txa, 0)])
    ensures Computes(f, m, st, n, st.pc + 2, d, Eval(HeaderLength(k), m, []))
  {
    hide CodeOf, Run, Decode;
    assert [Ins(LdxMsh, k), Ins(Txa, 0)] == [Ins(LdxMsh, k)] + [Ins(Txa, 0)];
    SitsParts(f, st.pc, [Ins(LdxMsh, k)], [Ins(Txa, 0)]);
    var v := m.load(Byte, Unsigned(k));
    n := 1;
    if v.None? {
      RunsMshFails(f, m, st, k);
    } else {
      RunsSetX(f, m, st, LdxMsh, k, v.value % 16 * 4);
      var s := Run(f, m, st, 1).state;
      RunsTxa(f, m, s, d);
      ThenComputes(f, m, st, 1, st.pc + 1, d, 1, st.pc + 2, d, Some(s.x));
      n := 2;
    }
  }

  /** Tax and an indexed load. */
  lemma RunsLoadAt(f: Program, m: Machine, st: State, d: nat, size: Size, k: Int32)
    requires Sits(f, st.pc, [Ins(Tax, 0), Ins(LdInd(size), k)])
    ensures Computes(f, m, st, 2, st.pc + 2, d, m.load(size, (st.a + Unsigned(k)) % 0x1_0000_0000))
  {
    hide CodeOf, Run, Decode;
    assert [Ins(Tax, 0), Ins(LdInd(size), k)] == [Ins(Tax, 0)] + [Ins(LdInd(size), k)];
    SitsParts(f, st.pc, [Ins(Tax, 0)], [Ins(LdInd(size), k)]);
    RunsSetX(f, m, st, Tax, 0, st.a);
    var s := Run(f, m, st, 1).state;
    RunsLoadInd(f, m, s, d, size, k);
    ThenComputes(f, m, st, 1, st.pc + 1, d, 1, st.pc + 2, d, m.load(size, (st.a + Unsigned(k)) % 0x1_0000_0000));
  }

  /** An operation with the value in slot `d`. */
  lemma RunsAluSlot(f: Program, m: Machine, st: State, d: nat, op: Arithmetic)
    requires d < BPF_MEMWORDS && Sits(f, st.pc, [Ins(LdxMem, Slot(d)), Ins(Alu(op, X), 0)])
    ensures Computes(f, m, st, 2, st.pc + 2, d, Operation(m, op, st.a, st.mem[d]))
  {
    hide CodeOf, Run, Decode, Operation;
    assert [Ins(LdxMem, Slot(d)), Ins(Alu(op, X), 0)] == [Ins(LdxMem, Slot(d))] + [Ins(Alu(op, X), 0)];
    SitsParts(f, st.pc, [Ins(LdxMem, Slot(d))], [Ins(Alu(op, X), 0)]);
    RunsSetX(f, m, st, LdxMem, d, st.mem[d]);
    var s := Run(f, m, st, 1).state;
    RunsAluX(f, m, s, d, op);
    ThenComputes(f, m, st, 1, st.pc + 1, d, 1, st.pc + 2, d, Operation(m, op, st.a, st.mem[d]));
  }

  /** One or zero by a comparison. */
  lemma RunsVerdict(f: Program, m: Machine, st: State, d: nat, cmp: Comparison, src: Operand, k: Int32) returns (n: nat)
    requires Sits(f, st.pc, Verdict(cmp, src, k))
    ensures var b := if src == K then Unsigned(k) else st.x;
            Computes(f, m, st, n, st.pc + 4, d, Some(if Holds(cmp, st.a, b) then 1 else 0))
  {
    hide CodeOf, Run, Decode, Holds;
    var jump, one, over, zero := Insn(CodeOf(Jump(cmp, src)), 0, 2, k), Ins(LdImm, 1), Over(1), Ins(LdImm, 0);
    assert Verdict(cmp, src, k) == [jump] + ([one] + ([over] + [zero]));
    SitsParts(f, st.pc, [jump], [one] + ([over] + [zero]));
    SitsParts(f, st.pc + 1, [one], [over] + [zero]);
    SitsParts(f, st.pc + 2, [over], [zero]);
    RunsJump(f, m, st, cmp, src, 0, 2, k);
    var b := if src == K then Unsigned(k) else st.x;
    var s := Run(f, m, st, 1).state;
    if Holds(cmp, st.a, b) {
      RunsConst(f, m, s, d, 1);
      ThenComputes(f, m, st, 1, st.pc + 1, d, 1, st.pc + 2, d, Some(1));
      var s2 := Run(f, m, st, 2).state;
      RunsOver(f, m, s2, d, 1);
      KeepsValue(f, m, st, 2, st.pc + 2, d, 1, st.pc + 4, Some(1));
      n := 3;
    } else {
      RunsConst(f, m, s, d, 0);
      ThenComputes(f, m, st, 1, st.pc + 3, d, 1, st.pc + 4, d, Some(0));
      n := 2;
    }
  }

  /** A jump after a value leaves the value. */
  lemma KeepsValue(f: Program, m: Machine, st: State, n: nat, pc: int, d: nat, more: nat, pc': int, v: Option<U32>)
    requires v.Some? && Computes(f, m, st, n, pc, d, v)
    requires var s := Run(f, m, st, n).state; Run(f, m, s, more) == Next(s.(pc := pc'))
    ensures Computes(f, m, st, n + more, pc', d, v)
  {
    hide Run;
    RunOn(f, m, st, n, more);
  }

  /** A test jumps over `n` instructions if the accumulator is zero, and else
      goes on behind itself; it changes nothing but the counter. */
  lemma RunsTest(f: Program, m: Machine, st: State, n: nat) returns (steps: nat)
    requires Sits(f, st.pc, Test(n)) && n < 0x8000_0000
    ensures Run(f, m, st, steps) == Next(st.(pc := st.pc + 2 + if st.a == 0 then n else 0))
  {
    hide CodeOf, Run, Decode;
    var jump := Insn(CodeOf(Jump(Jeq, K)), 0, 1, 0);
    assert Test(n) == [jump] + [Over(n)];
    SitsParts(f, st.pc, [jump], [Over(n)]);
    RunsJump(f, m, st, Jeq, K, 0, 1, 0);
    steps := 1;
    if st.a == 0 {
      var s := Run(f, m, st, 1).state;
      RunsOver(f, m, s, 0, n);
      RunOn(f, m, st, 1, 1);
      steps := 2;
    }
  }

  lemma JumpGets(f: Program, m: Machine, st: State, n: nat, pc: int, d: nat)
    requires Run(f, m, st, n) == Next(st.(pc := pc))
    ensures Gets(f, m, st, n, pc, d)
  {
    hide Run;
  }

  // ----- compiled expressions compute their values

  lemma {:induction false} CompileRuns(e: Expr, vars: seq<nat>, d: nat, f: Program, m: Machine, st: State,
                                       env: seq<U32>)
    returns (n: nat)
    requires Scoped(e, |vars|, d) && Bound(st, vars, env, d) && Sits(f, st.pc, Compile(e, vars, d))
    ensures Computes(f, m, st, n, st.pc + |Compile(e, vars, d)|, d, Eval(e, m, env))
    decreases e, 4
  {
    hide Run, Gets, Sits, CodeOf, Decode, Step, Verdict, Test, Over, Ins, Bound;
    match e
    case Const(k) =>
      RunsConst(f, m, st, d, k);
      n := 1;
    case Length =>
      RunsLength(f, m, st, d);
      n := 1;
    case HeaderLength(o) =>
      n := RunsHeaderLength(f, m, st, d, o);
    case Load(size, o) =>
      RunsLoad(f, m, st, d, size, o);
      n := 1;
    case LoadAt(_, _, _) =>
      n := LoadAtRuns(e, vars, d, f, m, st, env);
    case Var(i) =>
      VarBound(st, vars, env, d, i);
      RunsVar(f, m, st, d, vars[i]);
      n := 1;
    case Negative(_) =>
      n := NegativeRuns(e, vars, d, f, m, st, env);
    case Binary(op, l, r) =>
      if Immediate(op, r) {
        n := ImmediateRuns(e, vars, d, f, m, st, env);
      } else {
        n := BinaryRuns(e, vars, d, f, m, st, env);
      }
    case Compare(cmp, l, r) =>
      if r.Const? {
        n := CompareConstRuns(e, vars, d, f, m, st, env);
      } else {
        n := CompareRuns(e, vars, d, f, m, st, env);
      }
    case Choice(_, _, _) =>
      n := ChoiceRuns(e, vars, d, f, m, st, env);
    case Let(_, _) =>
      n := LetRuns(e, vars, d, f, m, st, env);
  }

  lemma VarBound(st: State, vars: seq<nat>, env: seq<U32>, d: nat, i: nat)
    requires Bound(st, vars, env, d) && i < |vars|
    ensures |env| == |vars| && vars[i] < BPF_MEMWORDS && st.mem[vars[i]] == env[i]
  {
  }

  /** The first part of some code computes its value; the rest follows. */
  lemma {:induction false} FirstRuns(e: Expr, rest: seq<Insn>, vars: seq<nat>, d: nat, f: Program, m: Machine,
                                     st: State, env: seq<U32>)
    returns (n: nat)
    requires Scoped(e, |vars|, d) && Bound(st, vars, env, d) && Sits(f, st.pc, Compile(e, vars, d) + rest)
    ensures Computes(f, m, st, n, st.pc + |Compile(e, vars, d)|, d, Eval(e, m, env))
    ensures Sits(f, st.pc + |Compile(e, vars, d)|, rest)
    decreases e, 5
  {
    hide Run, Gets, Compile, Eval, Scoped, Step;
    SitsParts(f, st.pc, Compile(e, vars, d), rest);
    n := CompileRuns(e, vars, d, f, m, st, env);
  }

  lemma {:induction false} LoadAtRuns(e: Expr, vars: seq<nat>, d: nat, f: Program, m: Machine, st: State,
                                      env: seq<U32>)
    returns (n: nat)
    requires e.LoadAt?
    requires Scoped(e, |vars|, d) && Bound(st, vars, env, d) && Sits(f, st.pc, Compile(e, vars, d))
    ensures Computes(f, m, st, n, st.pc + |Compile(e, vars, d)|, d, Eval(e, m, env))
    decreases e, 3
  {
    hide Run, Gets, Sits, Step, Ins;
    var size, base, o := e.size, e.base, e.offset;
    n := FirstRuns(base, [Ins(Tax, 0), Ins(LdInd(size), o)], vars, d, f, m, st, env);
    var v := Eval(base, m, env);
    if v.Some? {
      AtPlace(f, m, st, n, st.pc + |Compile(base, vars, d)|, d);
      var s := Run(f, m, st, n).state;
      RunsLoadAt(f, m, s, d, size, o);
      ThenComputes(f, m, st, n, s.pc, d, 2, s.pc + 2, d, m.load(size, (v.value + Unsigned(o)) % 0x1_0000_0000));
      n := n + 2;
    }
  }

  lemma AtPlace(f: Program, m: Machine, st: State, n: nat, pc: int, d: nat)
    requires Gets(f, m, st, n, pc, d)
    ensures Run(f, m, st, n).Next? && Run(f, m, st, n).state.pc == pc
  {
  }

  lemma {:induction false} NegativeRuns(e: Expr, vars: seq<nat>, d: nat, f: Program, m: Machine, st: State,
                                        env: seq<U32>)
    returns (n: nat)
    requires e.Negative?
    requires Scoped(e, |vars|, d) && Bound(st, vars, env, d) && Sits(f, st.pc, Compile(e, vars, d))
    ensures Computes(f, m, st, n, st.pc + |Compile(e, vars, d)|, d, Eval(e, m, env))
    decreases e, 3
  {
    hide Run, Gets, Sits, Step, Ins;
    var x := e.e;
    n := FirstRuns(x, [Ins(Neg, 0)], vars, d, f, m, st, env);
    var v := Eval(x, m, env);
    if v.Some? {
      AtPlace(f, m, st, n, st.pc + |Compile(x, vars, d)|, d);
      var s := Run(f, m, st, n).state;
      RunsNeg(f, m, s, d);
      ThenComputes(f, m, st, n, s.pc, d, 1, s.pc + 1, d, Eval(e, m, env));
      n := n + 1;
    }
  }

  lemma {:induction false} ImmediateRuns(e: Expr, vars: seq<nat>, d: nat, f: Program, m: Machine, st: State,
                                         env: seq<U32>)
    returns (n: nat)
    requires e.Binary? && Immediate(e.op, e.r)
    requires Scoped(e, |vars|, d) && Bound(st, vars, env, d) && Sits(f, st.pc, Compile(e, vars, d))
    ensures Computes(f, m, st, n, st.pc + |Compile(e, vars, d)|, d, Eval(e, m, env))
    decreases e, 3
  {
    hide Run, Gets, Sits, Step, Ins, Result;
    var op, l, r := e.op, e.l, e.r;
    n := FirstRuns(l, [Ins(Alu(op, K), r.k)], vars, d, f, m, st, env);
    if Eval(l, m, env).Some? {
      AtPlace(f, m, st, n, st.pc + |Compile(l, vars, d)|, d);
      var s := Run(f, m, st, n).state;
      RunsAluK(f, m, s, d, op, r.k);
      ThenComputes(f, m, st, n, s.pc, d, 1, s.pc + 1, d, Operation(m, op, s.a, Unsigned(r.k)));
      n := n + 1;
    }
  }

  /** Two values: the second is stored in slot `d`, then the first computed. */
  lemma {:induction false} BothRun(e: Expr, rest: seq<Insn>, vars: seq<nat>, d: nat, f: Program, m: Machine,
                                   st: State, env: seq<U32>)
    returns (n: nat)
    requires e.Binary? || e.Compare?
    requires d < BPF_MEMWORDS && Scoped(e.r, |vars|, d) && Scoped(e.l, |vars|, d + 1) && Bound(st, vars, env, d)
    requires Sits(f, st.pc, Store(e.r, vars, d) + (Compile(e.l, vars, d + 1) + rest))
    ensures var pc := st.pc + |Store(e.r, vars, d)| + |Compile(e.l, vars, d + 1)|;
            && Sits(f, pc, rest)
            && (Eval(e.l, m, env).None? || Eval(e.r, m, env).None? ==> Run(f, m, st, n) == Return(0))
            && (Eval(e.l, m, env).Some? && Eval(e.r, m, env).Some? ==>
                  && Computes(f, m, st, n, pc, d, Eval(e.l, m, env))
                  && Run(f, m, st, n).state.mem[d] == Eval(e.r, m, env).value)
    decreases e, 2
  {
    hide Run, Sits, Compile, Eval, Scoped, Step, Store, Bound;
    var l, r := e.l, e.r;
    var first, code := Store(r, vars, d), Compile(l, vars, d + 1);
    SitsParts(f, st.pc, first, code + rest);
    SitsParts(f, st.pc + |first|, code, rest);
    n := StoreRuns(r, vars, d, f, m, st, env);
    if Eval(r, m, env).Some? {
      var s, n1 := Run(f, m, st, n).state, n;
      StillBound(f, m, st, n, st.pc + |first|, d, vars, env);
      BoundMore(s, vars, env, d);
      var n2 := CompileRuns(l, vars, d + 1, f, m, s, env);
      ThenComputes(f, m, st, n1, st.pc + |first|, d, n2, s.pc + |code|, d + 1, Eval(l, m, env));
      RunOn(f, m, st, n1, n2);
      n := n1 + n2;
    }
  }

  lemma BoundMore(st: State, vars: seq<nat>, env: seq<U32>, d: nat)
    requires Bound(st, vars, env, d)
    ensures Bound(st, vars, env, d + 1)
  {
  }

  lemma {:induction false} BinaryRuns(e: Expr, vars: seq<nat>, d: nat, f: Program, m: Machine, st: State,
                                      env: seq<U32>)
    returns (n: nat)
    requires e.Binary? && !Immediate(e.op, e.r)
    requires Scoped(e, |vars|, d) && Bound(st, vars, env, d) && Sits(f, st.pc, Compile(e, vars, d))
    ensures Computes(f, m, st, n, st.pc + |Compile(e, vars, d)|, d, Eval(e, m, env))
    decreases e, 3
  {
    hide Run, Gets, Sits, Step, Ins, Result, Bound;
    var op, l, r := e.op, e.l, e.r;
    n := BothRun(e, [Ins(LdxMem, Slot(d)), Ins(Alu(op, X), 0)], vars, d, f, m, st, env);
    if Eval(l, m, env).Some? && Eval(r, m, env).Some? {
      var pc := st.pc + |Store(r, vars, d)| + |Compile(l, vars, d + 1)|;
      AtPlace(f, m, st, n, pc, d);
      var s := Run(f, m, st, n).state;
      RunsAluSlot(f, m, s, d, op);
      ThenComputes(f, m, st, n, pc, d, 2, pc + 2, d, Operation(m, op, s.a, s.mem[d]));
      n := n + 2;
    }
  }

  lemma {:induction false} CompareConstRuns(e: Expr, vars: seq<nat>, d: nat, f: Program, m: Machine, st: State,
                                            env: seq<U32>)
    returns (n: nat)
    requires e.Compare? && e.r.Const?
    requires Scoped(e, |vars|, d) && Bound(st, vars, env, d) && Sits(f, st.pc, Compile(e, vars, d))
    ensures Computes(f, m, st, n, st.pc + |Compile(e, vars, d)|, d, Eval(e, m, env))
    decreases e, 3
  {
    hide Run, Gets, Sits, Step, Ins, Holds, CodeOf, Over;
    var cmp, l, r := e.cmp, e.l, e.r;
    n := FirstRuns(l, Verdict(cmp, K, r.k), vars, d, f, m, st, env);
    if Eval(l, m, env).Some? {
      AtPlace(f, m, st, n, st.pc + |Compile(l, vars, d)|, d);
      var s := Run(f, m, st, n).state;
      var more := RunsVerdict(f, m, s, d, cmp, K, r.k);
      assert Eval(r, m, env) == Some(Unsigned(r.k));
      ThenComputes(f, m, st, n, s.pc, d, more, s.pc + 4, d, Eval(e, m, env));
      n := n + more;
    }
  }

  lemma {:induction false} CompareRuns(e: Expr, vars: seq<nat>, d: nat, f: Program, m: Machine, st: State,
                                       env: seq<U32>)
    returns (n: nat)
    requires e.Compare? && !e.r.Const?
    requires Scoped(e, |vars|, d) && Bound(st, vars, env, d) && Sits(f, st.pc, Compile(e, vars, d))
    ensures Computes(f, m, st, n, st.pc + |Compile(e, vars, d)|, d, Eval(e, m, env))
    decreases e, 3
  {
    hide Run, Gets, Sits, Step, Ins, Holds, CodeOf, Over, Bound;
    var cmp, l, r := e.cmp, e.l, e.r;
    n := BothRun(e, [Ins(LdxMem, Slot(d))] + Verdict(cmp, X, 0), vars, d, f, m, st, env);
    if Eval(l, m, env).Some? && Eval(r, m, env).Some? {
      var pc := st.pc + |Store(r, vars, d)| + |Compile(l, vars, d + 1)|;
      AtPlace(f, m, st, n, pc, d);
      var s := Run(f, m, st, n).state;
      var more := RunsVerdictSlot(f, m, s, d, cmp);
      ThenComputes(f, m, st, n, pc, d, more, pc + 5, d, Eval(e, m, env));
      n := n + more;
    }
  }

  lemma RunsVerdictSlot(f: Program, m: Machine, st: State, d: nat, cmp: Comparison) returns (n: nat)
    requires d < BPF_MEMWORDS && Sits(f, st.pc, [Ins(LdxMem, Slot(d))] + Verdict(cmp, X, 0))
    ensures Computes(f, m, st, n, st.pc + 5, d, Some(if Holds(cmp, st.a, st.mem[d]) then 1 else 0))
  {
    hide CodeOf, Run, Decode, Holds;
    SitsParts(f, st.pc, [Ins(LdxMem, Slot(d))], Verdict(cmp, X, 0));
    RunsSetX(f, m, st, LdxMem, d, st.mem[d]);
    var s := Run(f, m, st, 1).state;
    n := RunsVerdict(f, m, s, d, cmp, X, 0);
    ThenComputes(f, m, st, 1, st.pc + 1, d, n, st.pc + 5, d, Some(if Holds(cmp, st.a, st.mem[d]) then 1 else 0));
    n := n + 1;
  }

  lemma {:induction false} LetRuns(e: Expr, vars: seq<nat>, d: nat, f: Program, m: Machine, st: State,
                                   env: seq<U32>)
    returns (n: nat)
    requires e.Let?
    requires Scoped(e, |vars|, d) && Bound(st, vars, env, d) && Sits(f, st.pc, Compile(e, vars, d))
    ensures Computes(f, m, st, n, st.pc + |Compile(e, vars, d)|, d, Eval(e, m, env))
    decreases e, 3
  {
    hide Run, Sits, Step, Store, Bound;
    var x, body := e.e, e.body;
    var first, code := Store(x, vars, d), Compile(body, vars + [d], d + 1);
    SitsParts(f, st.pc, first, code);
    n := StoreRuns(x, vars, d, f, m, st, env);
    var v := Eval(x, m, env);
    if v.Some? {
      var s, n1 := Run(f, m, st, n).state, n;
      StillBound(f, m, st, n, st.pc + |first|, d, vars, env);
      BoundNew(s, vars, env, d, v.value);
      var n2 := CompileRuns(body, vars + [d], d + 1, f, m, s, env + [v.value]);
      ThenComputes(f, m, st, n1, st.pc + |first|, d, n2, s.pc + |code|, d + 1, Eval(body, m, env + [v.value]));
      n := n1 + n2;
    }
  }

  lemma BoundNew(st: State, vars: seq<nat>, env: seq<U32>, d: nat, v: U32)
    requires Bound(st, vars, env, d) && d < BPF_MEMWORDS && st.mem[d] == v
    ensures Bound(st, vars + [d], env + [v], d + 1)
  {
  }

  lemma {:induction false} ChoiceRuns(e: Expr, vars: seq<nat>, d: nat, f: Program, m: Machine, st: State,
                                      env: seq<U32>)
    returns (n: nat)
    requires e.Choice?
    requires Scoped(e, |vars|, d) && Bound(st, vars, env, d) && Sits(f, st.pc, Compile(e, vars, d))
    ensures Computes(f, m, st, n, st.pc + |Compile(e, vars, d)|, d, Eval(e, m, env))
    decreases e, 3
  {
    hide Run, Gets, Sits, Step, Bound, Over, Test;
    var c, yes, no := e.c, Compile(e.a, vars, d), Compile(e.b, vars, d);
    TestLength(|yes| + 1);
    n := FirstRuns(c, Test(|yes| + 1) + (yes + ([Over(|no|)] + no)), vars, d, f, m, st, env);
    var v := Eval(c, m, env);
    if v.Some? {
      var pc := st.pc + |Compile(c, vars, d)|;
      AtPlace(f, m, st, n, pc, d);
      StillBound(f, m, st, n, pc, d, vars, env);
      var s := Run(f, m, st, n).state;
      var more := BranchRuns(e, vars, d, f, m, s, env);
      ThenComputes(f, m, st, n, pc, d, more, pc + 3 + |yes| + |no|, d, Eval(e, m, env));
      n := n + more;
    }
  }

  /** The condition being in the accumulator, one of the branches runs. */
  lemma {:induction false} BranchRuns(e: Expr, vars: seq<nat>, d: nat, f: Program, m: Machine, st: State,
                                      env: seq<U32>)
    returns (n: nat)
    requires e.Choice? && Scoped(e, |vars|, d) && Bound(st, vars, env, d)
    requires var yes, no := Compile(e.a, vars, d), Compile(e.b, vars, d);
             Sits(f, st.pc, Test(|yes| + 1) + (yes + ([Over(|no|)] + no)))
    ensures Computes(f, m, st, n, st.pc + 3 + |Compile(e.a, vars, d)| + |Compile(e.b, vars, d)|, d,
                     if st.a != 0 then Eval(e.a, m, env) else Eval(e.b, m, env))
    decreases e, 2
  {
    hide Run, Gets, Sits, Step, Bound, Over, Test, Compile, Eval;
    var yes, no := Compile(e.a, vars, d), Compile(e.b, vars, d);
    TestLength(|yes| + 1);
    Lengths(f, st.pc, Test(|yes| + 1), yes, [Over(|no|)], no);
    var n1 := RunsTest(f, m, st, |yes| + 1);
    var s, end := Run(f, m, st, n1).state, st.pc + 3 + |yes| + |no|;
    JumpGets(f, m, st, n1, s.pc, d);
    StillBound(f, m, st, n1, s.pc, d, vars, env);
    if st.a == 0 {
      n := CompileRuns(e.b, vars, d, f, m, s, env);
      ThenComputes(f, m, st, n1, s.pc, d, n, end, d, Eval(e.b, m, env));
    } else {
      n := CompileRuns(e.a, vars, d, f, m, s, env);
      n := RunsOverRest(f, m, s, n, st.pc + 2 + |yes|, d, Eval(e.a, m, env), |no|);
      ThenComputes(f, m, st, n1, s.pc, d, n, end, d, Eval(e.a, m, env));
    }
    n := n1 + n;
  }

  lemma TestLength(n: nat)
    ensures |Test(n)| == 2
  {
  }

  /** Where the parts of a choice sit. */
  lemma Lengths(f: Program, pc: int, test: seq<Insn>, yes: seq<Insn>, over: seq<Insn>, no: seq<Insn>)
    requires Sits(f, pc, test + (yes + (over + no))) && |over| == 1
    ensures Sits(f, pc, test) && Sits(f, pc + |test|, yes)
    ensures Sits(f, pc + |test| + |yes|, over) && Sits(f, pc + |test| + |yes| + 1, no)
    ensures |yes| + 1 < 0x8000_0000 && |no| < 0x8000_0000
  {
    SitsParts(f, pc, test, yes + (over + no));
    SitsParts(f, pc + |test|, yes, over + no);
    SitsParts(f, pc + |test| + |yes|, over, no);
  }

  /** After the value the other branch is jumped over. */
  lemma RunsOverRest(f: Program, m: Machine, st: State, n: nat, pc: int, d: nat, v: Option<U32>, rest: nat)
    returns (more: nat)
    requires Computes(f, m, st, n, pc, d, v) && Sits(f, pc, [Over(rest)]) && rest < 0x8000_0000
    ensures Computes(f, m, st, more, pc + 1 + rest, d, v)
  {
    hide Run, Over;
    more := n;
    if v.Some? {
      var s := Run(f, m, st, n).state;
      RunsOver(f, m, s, d, rest);
      KeepsValue(f, m, st, n, pc, d, 1, pc + 1 + rest, v);
      more := n + 1;
    }
  }

  lemma {:induction false} StoreRuns(e: Expr, vars: seq<nat>, d: nat, f: Program, m: Machine, st: State, env: seq<U32>)
    returns (n: nat)
    requires d < BPF_MEMWORDS && Scoped(e, |vars|, d) && Bound(st, vars, env, d)
    requires Sits(f, st.pc, Store(e, vars, d))
    ensures Stores(f, m, st, n, st.pc + |Store(e, vars, d)|, d, Eval(e, m, env))
    decreases e, 6
  {
    hide Run, Sits, Step, Bound, Ins, Compile;
    if e.Const? || e.Length? || e.HeaderLength? {
      n := RunsStoreX(e, vars, d, f, m, st, env);
    } else {
      n := FirstRuns(e, [Ins(St, Slot(d))], vars, d, f, m, st, env);
      if Eval(e, m, env).Some? {
        var s := Run(f, m, st, n).state;
        RunsSt(f, m, s, d);
        ThenStores(f, m, st, n, s.pc, d, 1, s.pc + 1, Eval(e, m, env));
        n := n + 1;
      }
    }
  }

  /** Values that are stored from X. */
  lemma RunsStoreX(e: Expr, vars: seq<nat>, d: nat, f: Program, m: Machine, st: State, env: seq<U32>) returns (n: nat)
    requires e.Const? || e.Length? || e.HeaderLength?
    requires d < BPF_MEMWORDS && Sits(f, st.pc, Store(e, vars, d))
    ensures Stores(f, m, st, n, st.pc + |Store(e, vars, d)|, d, Eval(e, m, env))
  {
    hide Run, Step;
    var op := if e.Const? then LdxImm else if e.Length? then LdxLen else LdxMsh;
    var k := if e.Const? then e.k else if e.Length? then 0 else e.offset;
    assert Store(e, vars, d) == [Ins(op, k)] + [Ins(Stx, Slot(d))];
    SitsParts(f, st.pc, [Ins(op, k)], [Ins(Stx, Slot(d))]);
    var v := Eval(e, m, env);
    n := 1;
    if v.None? {
      RunsMshFails(f, m, st, k);
    } else {
      RunsSetX(f, m, st, op, k, v.value);
      var s := Run(f, m, st, 1).state;
      RunsStx(f, m, s, d);
      ThenStores(f, m, st, 1, s.pc, d, 1, s.pc + 1, v);
      n := 2;
    }
  }

  // ----- compiled rules return their values

  lemma {:induction false} RuleRuns(rule: Rule, f: Program, m: Machine, st: State) returns (n: nat)
    requires ScopedRule(rule) && Sits(f, st.pc, CompileRule(rule))
    ensures Run(f, m, st, n) == Return(Value(rule, m))
    decreases rule, 1
  {
    hide Run, Gets, Sits, Step, Test, CodeOf, Decode, Compile, Eval, Scoped, Ins;
    match rule
    case Accept(k) =>
      n := ReturnsK(f, m, st, k);
    case AcceptValue(e) =>
      n := FirstRuns(e, [Ins(RetA, 0)], [], 0, f, m, st, []);
      if Eval(e, m, []).Some? {
        AtPlace(f, m, st, n, st.pc + |Compile(e, [], 0)|, 0);
        var s := Run(f, m, st, n).state;
        ReturnsA(f, m, s);
        RunOn(f, m, st, n, 1);
        n := n + 1;
      }
    case If(c, yes, no) =>
      var test, a, b := Test(|CompileRule(yes)|), CompileRule(yes), CompileRule(no);
      TestLength(|a|);
      n := FirstRuns(c, test + (a + b), [], 0, f, m, st, []);
      if Eval(c, m, []).Some? {
        var pc := st.pc + |Compile(c, [], 0)|;
        AtPlace(f, m, st, n, pc, 0);
        var s := Run(f, m, st, n).state;
        var more := IfRuns(rule, f, m, s);
        RunOn(f, m, st, n, more);
        n := n + more;
      }
  }

  lemma {:induction false} IfRuns(rule: Rule, f: Program, m: Machine, st: State) returns (n: nat)
    requires rule.If? && ScopedRule(rule)
    requires var a, b := CompileRule(rule.yes), CompileRule(rule.no); Sits(f, st.pc, Test(|a|) + (a + b))
    ensures Run(f, m, st, n) == Return(if st.a != 0 then Value(rule.yes, m) else Value(rule.no, m))
    decreases rule, 0
  {
    hide Run, Sits, Step, Test, CodeOf, Decode, CompileRule, Value, Scoped;
    var a, b := CompileRule(rule.yes), CompileRule(rule.no);
    TestLength(|a|);
    RuleParts(f, st.pc, Test(|a|), a, b);
    var n1 := RunsTest(f, m, st, |a|);
    var s := Run(f, m, st, n1).state;
    if st.a == 0 {
      n := RuleRuns(rule.no, f, m, s);
    } else {
      n := RuleRuns(rule.yes, f, m, s);
    }
    RunOn(f, m, st, n1, n);
    n := n1 + n;
  }

  lemma RuleParts(f: Program, pc: int, test: seq<Insn>, a: seq<Insn>, b: seq<Insn>)
    requires Sits(f, pc, test + (a + b))
    ensures Sits(f, pc, test) && Sits(f, pc + |test|, a) && Sits(f, pc + |test| + |a|, b) && |a| < 0x8000_0000
  {
    SitsParts(f, pc, test, a + b);
    SitsParts(f, pc + |test|, a, b);
  }

  lemma ReturnsK(f: Program, m: Machine, st: State, k: Int32) returns (n: nat)
    requires Sits(f, st.pc, [Ins(RetK, k)])
    ensures Run(f, m, st, n) == Return(Unsigned(k))
  {
    Executes(f, m, st, RetK, 0, 0, k);
    hide Decode, CodeOf, Run;
    n := 1;
  }

  lemma ReturnsA(f: Program, m: Machine, st: State)
    requires Sits(f, st.pc, [Ins(RetA, 0)])
    ensures Run(f, m, st, 1) == Return(st.a)
  {
    Executes(f, m, st, RetA, 0, 0, 0);
    hide Decode, CodeOf, Run;
  }
}
