/**
 Compiled rules are accepted by the validator and only jump forward.
 */
module BpfAcceptance {
  import opened Options
  import opened BpfFilter
  import opened BpfLanguage

  // ----- compiled rules are accepted

  /** An instruction with `room` instructions behind it in its piece of code;
      it may jump to the end of the piece. */
  predicate InsnFine(i: Insn, room: nat) {
    var op := Decode(i.code);
    && op != Unknown && op != RetK && op != RetA
    && (op == Ja ==> 0 <= i.k <= room)
    && (op.Jump? ==> i.jt <= room && i.jf <= room)
    && (op in {LdMem, LdxMem, St, Stx} ==> 0 <= i.k < BPF_MEMWORDS)
    && (op == Alu(Div, K) ==> i.k != 0)
  }

  ghost predicate Fine(code: seq<Insn>) {
    forall j :: 0 <= j < |code| ==> InsnFine(code[j], |code| - j - 1)
  }

  /** ... in code that ends by returning. */
  predicate InsnClosed(i: Insn, room: nat) {
    var op := Decode(i.code);
    op == RetK || op == RetA || (room > 0 && InsnFine(i, room - 1))
  }

  ghost predicate Closed(code: seq<Insn>) {
    forall j :: 0 <= j < |code| ==> InsnClosed(code[j], |code| - j - 1)
  }

  lemma FineConcat(a: seq<Insn>, b: seq<Insn>)
    requires Fine(a) && Fine(b)
    ensures Fine(a + b)
  {
    hide Decode;
    forall j | 0 <= j < |a + b| ensures InsnFine((a + b)[j], |a + b| - j - 1) {
      if j < |a| {
        assert InsnFine(a[j], |a| - j - 1);
      } else {
        assert InsnFine(b[j - |a|], |b| - (j - |a|) - 1);
      }
    }
  }

  lemma FineThenClosed(a: seq<Insn>, b: seq<Insn>)
    requires Fine(a) && Closed(b) && b != []
    ensures Closed(a + b)
  {
    hide Decode;
    forall j | 0 <= j < |a + b| ensures InsnClosed((a + b)[j], |a + b| - j - 1) {
      if j < |a| {
        assert InsnFine(a[j], |a| - j - 1);
      } else {
        assert InsnClosed(b[j - |a|], |b| - (j - |a|) - 1);
      }
    }
  }

  lemma ClosedConcat(a: seq<Insn>, b: seq<Insn>)
    requires Closed(a) && Closed(b)
    ensures Closed(a + b)
  {
    hide Decode;
    forall j | 0 <= j < |a + b| ensures InsnClosed((a + b)[j], |a + b| - j - 1) {
      if j < |a| {
        assert InsnClosed(a[j], |a| - j - 1);
      } else {
        assert InsnClosed(b[j - |a|], |b| - (j - |a|) - 1);
      }
    }
  }

  lemma FineCons(i: Insn, rest: seq<Insn>)
    requires InsnFine(i, |rest|) && Fine(rest)
    ensures Fine([i] + rest)
  {
    hide InsnFine;
    var code := [i] + rest;
    forall j | 0 <= j < |code| ensures InsnFine(code[j], |code| - j - 1) {
      assert j > 0 ==> code[j] == rest[j - 1] && InsnFine(rest[j - 1], |rest| - (j - 1) - 1);
    }
  }

  lemma ClosedCons(i: Insn, rest: seq<Insn>)
    requires InsnClosed(i, |rest|) && Closed(rest)
    ensures Closed([i] + rest)
  {
    hide InsnClosed;
    var code := [i] + rest;
    forall j | 0 <= j < |code| ensures InsnClosed(code[j], |code| - j - 1) {
      assert j > 0 ==> code[j] == rest[j - 1] && InsnClosed(rest[j - 1], |rest| - (j - 1) - 1);
    }
  }

  /** Single instructions other than jumps and returns. */
  lemma FineOne(op: Op, k: Int32)
    requires op !in {Unknown, RetK, RetA, Ja} && !op.Jump?
    requires op in {LdMem, LdxMem, St, Stx} ==> 0 <= k < BPF_MEMWORDS
    requires op == Alu(Div, K) ==> k != 0
    ensures Fine([Ins(op, k)])
  {
    hide Decode, CodeOf;
    DecodeOfCode(op);
  }

  lemma FineTwo(op: Op, k: Int32, op': Op, k': Int32)
    requires op !in {Unknown, RetK, RetA, Ja} && !op.Jump? && op' !in {Unknown, RetK, RetA, Ja} && !op'.Jump?
    requires op in {LdMem, LdxMem, St, Stx} ==> 0 <= k < BPF_MEMWORDS
    requires op' in {LdMem, LdxMem, St, Stx} ==> 0 <= k' < BPF_MEMWORDS
    requires op == Alu(Div, K) ==> k != 0
    requires op' == Alu(Div, K) ==> k' != 0
    ensures Fine([Ins(op, k), Ins(op', k')])
  {
    hide Fine;
    FineOne(op, k);
    FineOne(op', k');
    FineConcat([Ins(op, k)], [Ins(op', k')]);
    assert [Ins(op, k)] + [Ins(op', k')] == [Ins(op, k), Ins(op', k')];
  }

  lemma FineJump(i: Insn, op: Op, rest: seq<Insn>)
    requires (op == Ja && 0 <= i.k <= |rest|) || (op.Jump? && i.jt <= |rest| && i.jf <= |rest|)
    requires i.code == CodeOf(op) && Fine(rest)
    ensures Fine([i] + rest)
  {
    hide Decode, CodeOf, Fine;
    DecodeOfCode(op);
    FineCons(i, rest);
  }

  lemma FineVerdict(cmp: Comparison, src: Operand, k: Int32)
    ensures Fine(Verdict(cmp, src, k))
  {
    hide CodeOf, Fine;
    FineOne(LdImm, 0);
    FineOne(LdImm, 1);
    var zero, over := [Ins(LdImm, 0)], Over(1);
    FineJump(over, Ja, zero);
    FineConcat([Ins(LdImm, 1)], [over] + zero);
    var rest := [Ins(LdImm, 1)] + ([over] + zero);
    var jump := Insn(CodeOf(Jump(cmp, src)), 0, 2, k);
    FineJump(jump, Jump(cmp, src), rest);
    assert Verdict(cmp, src, k) == [jump] + rest;
  }

  /** A test with the code it jumps over and the code behind. */
  lemma FineTest(skipped: seq<Insn>, rest: seq<Insn>)
    requires |skipped| < 0x8000_0000 && Fine(skipped + rest)
    ensures Fine(Test(|skipped|) + (skipped + rest))
  {
    hide CodeOf, Fine;
    var over, jump, code := Over(|skipped|), Insn(CodeOf(Jump(Jeq, K)), 0, 1, 0), skipped + rest;
    FineJump(over, Ja, code);
    FineJump(jump, Jump(Jeq, K), [over] + code);
    assert Test(|skipped|) + code == [jump] + ([over] + code);
  }

  lemma {:induction false} CompileFine(e: Expr, vars: seq<nat>, d: nat)
    requires Scoped(e, |vars|, d) && |Compile(e, vars, d)| < 0x8000_0000
    requires forall i :: 0 <= i < |vars| ==> vars[i] < BPF_MEMWORDS
    ensures Fine(Compile(e, vars, d))
    decreases e, 0
  {
    hide Fine, CodeOf, Verdict, Test;
    match e
    case Const(k) => FineOne(LdImm, k);
    case Length => FineOne(LdLen, 0);
    case HeaderLength(o) => FineTwo(LdxMsh, o, Txa, 0);
    case Load(size, o) => FineOne(LdAbs(size), o);
    case LoadAt(size, base, o) =>
      CompileFine(base, vars, d);
      FineTwo(Tax, 0, LdInd(size), o);
      FineConcat(Compile(base, vars, d), [Ins(Tax, 0), Ins(LdInd(size), o)]);
    case Var(i) => FineOne(LdMem, vars[i]);
    case Negative(x) =>
      CompileFine(x, vars, d);
      FineOne(Neg, 0);
      FineConcat(Compile(x, vars, d), [Ins(Neg, 0)]);
    case Binary(op, l, r) =>
      if Immediate(op, r) {
        CompileFine(l, vars, d);
        FineOne(Alu(op, K), r.k);
        FineConcat(Compile(l, vars, d), [Ins(Alu(op, K), r.k)]);
      } else {
        StoreFine(r, vars, d);
        CompileFine(l, vars, d + 1);
        FineTwo(LdxMem, d, Alu(op, X), 0);
        FineConcat(Compile(l, vars, d + 1), [Ins(LdxMem, Slot(d)), Ins(Alu(op, X), 0)]);
        FineConcat(Store(r, vars, d), Compile(l, vars, d + 1) + [Ins(LdxMem, Slot(d)), Ins(Alu(op, X), 0)]);
      }
    case Compare(cmp, l, r) =>
      if r.Const? {
        CompileFine(l, vars, d);
        FineVerdict(cmp, K, r.k);
        FineConcat(Compile(l, vars, d), Verdict(cmp, K, r.k));
      } else {
        StoreFine(r, vars, d);
        CompileFine(l, vars, d + 1);
        FineVerdict(cmp, X, 0);
        FineOne(LdxMem, d);
        var tail := [Ins(LdxMem, Slot(d))] + Verdict(cmp, X, 0);
        FineConcat([Ins(LdxMem, Slot(d))], Verdict(cmp, X, 0));
        FineConcat(Compile(l, vars, d + 1), tail);
        FineConcat(Store(r, vars, d), Compile(l, vars, d + 1) + tail);
      }
    case Choice(c, a, b) =>
      ChoiceFine(Compile(c, vars, d), Compile(a, vars, d), Compile(b, vars, d)) by {
        CompileFine(c, vars, d);
        CompileFine(a, vars, d);
        CompileFine(b, vars, d);
      }
    case Let(x, body) =>
      StoreFine(x, vars, d);
      CompileFine(body, vars + [d], d + 1);
      FineConcat(Store(x, vars, d), Compile(body, vars + [d], d + 1));
  }

  lemma ChoiceFine(c: seq<Insn>, yes: seq<Insn>, no: seq<Insn>)
    requires Fine(c) && Fine(yes) && Fine(no) && |yes| + |no| + 1 < 0x8000_0000
    ensures Fine(c + (Test(|yes| + 1) + (yes + ([Over(|no|)] + no))))
  {
    hide Fine, Test, CodeOf;
    var over := [Over(|no|)];
    FineJump(Over(|no|), Ja, no);
    FineConcat(yes, over + no);
    assert yes + (over + no) == (yes + over) + no;
    FineTest(yes + over, no);
    FineConcat(c, Test(|yes| + 1) + (yes + (over + no)));
  }

  lemma {:induction false} StoreFine(e: Expr, vars: seq<nat>, d: nat)
    requires d < BPF_MEMWORDS && Scoped(e, |vars|, d) && |Store(e, vars, d)| < 0x8000_0000
    requires forall i :: 0 <= i < |vars| ==> vars[i] < BPF_MEMWORDS
    ensures Fine(Store(e, vars, d))
    decreases e, 1
  {
    hide Fine, CodeOf, Compile;
    match e
    case Const(k) => FineTwo(LdxImm, k, Stx, d);
    case Length => FineTwo(LdxLen, 0, Stx, d);
    case HeaderLength(o) => FineTwo(LdxMsh, o, Stx, d);
    case _ =>
      CompileFine(e, vars, d);
      FineOne(St, d);
      FineConcat(Compile(e, vars, d), [Ins(St, Slot(d))]);
  }

  lemma ClosedReturn(op: Op, k: Int32)
    requires op == RetK || op == RetA
    ensures Closed([Ins(op, k)])
  {
    hide Decode, CodeOf;
    DecodeOfCode(op);
  }

  lemma {:induction false} RuleClosed(rule: Rule)
    requires ScopedRule(rule) && |CompileRule(rule)| < 0x8000_0000
    ensures Closed(CompileRule(rule)) && CompileRule(rule) != []
    decreases rule
  {
    hide Closed, Fine, CodeOf, Compile, Scoped;
    match rule
    case Accept(k) => ClosedReturn(RetK, k);
    case AcceptValue(e) =>
      CompileFine(e, [], 0);
      ClosedReturn(RetA, 0);
      FineThenClosed(Compile(e, [], 0), [Ins(RetA, 0)]);
    case If(c, yes, no) =>
      CompileFine(c, [], 0);
      RuleClosed(yes);
      RuleClosed(no);
      IfClosed(Compile(c, [], 0), CompileRule(yes), CompileRule(no));
  }

  lemma IfClosed(c: seq<Insn>, yes: seq<Insn>, no: seq<Insn>)
    requires Fine(c) && Closed(yes) && Closed(no) && no != [] && |yes| < 0x8000_0000
    ensures Closed(c + (Test(|yes|) + (yes + no)))
  {
    hide Closed, Fine, CodeOf, Decode;
    DecodeOfCode(Ja);
    DecodeOfCode(Jump(Jeq, K));
    var over, jump, code := Over(|yes|), Insn(CodeOf(Jump(Jeq, K)), 0, 1, 0), yes + no;
    ClosedConcat(yes, no);
    ClosedCons(over, code);
    ClosedCons(jump, [over] + code);
    assert Test(|yes|) + code == [jump] + ([over] + code);
    FineThenClosed(c, Test(|yes|) + code);
  }

  lemma ClassesKnown(code: nat)
    requires Decode(code) != Unknown
    ensures Class(code) == BPF_JMP ==> Decode(code).Jump? || Decode(code) == Ja
    ensures Decode(code).Jump? ==> OpBits(code) != BPF_JA
    ensures Decode(code) == Ja ==> OpBits(code) == BPF_JA
    ensures Class(code) == BPF_ST ==> Decode(code) == St
    ensures Class(code) == BPF_LD && Mode(code) == BPF_MEM ==> Decode(code) == LdMem
    ensures code == BPF_DIV_K ==> Decode(code) == Alu(Div, K)
    ensures Decode(code) == RetK || Decode(code) == RetA ==> Class(code) == BPF_RET
  {
  }

  lemma ClosedIsAccepted(f: Program)
    requires Closed(f) && |f| > 0
    ensures Accepted(f) && ForwardJumps(f) && IndexScratchOk(f)
  {
    hide Decode, Class, OpBits, Mode;
    forall i | 0 <= i < |f| ensures InsnAccepted(f, i) {
      assert InsnClosed(f[i], |f| - i - 1);
      ClassesKnown(f[i].code);
    }
    forall i | 0 <= i < |f| ensures InsnClosed(f[i], |f| - i - 1) {
    }
    assert InsnClosed(f[|f| - 1], 0);
    ClassesKnown(f[|f| - 1].code);
  }
}
