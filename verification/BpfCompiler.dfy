/**
 Compiling rules to filter programs keeps their meaning: the validator accepts
 the program, and the interpreter returns the value of the rule.
 */
module BpfCompiler {
  import opened Options
  import opened BpfFilter
  import opened BpfLanguage
  import opened BpfExecution
  import opened BpfAcceptance

  /** The program a rule is compiled to is accepted, and on every packet and
      whatever is in scratch memory it returns the value of the rule. */
  lemma CompiledReturnsValue(rule: Rule, m: Machine, mem: Scratch)
    requires ScopedRule(rule) && |CompileRule(rule)| < 0x8000_0000
    ensures var f: Program := CompileRule(rule);
            && Accepted(f) && ForwardJumps(f) && IndexScratchOk(f)
            && Run(f, m, Start(mem), |f|) == Return(Value(rule, m))
  {
    hide CompileRule, Closed, Step, Accepted, ForwardJumps, IndexScratchOk, Value;
    var f: Program := CompileRule(rule);
    RuleClosed(rule);
    ClosedIsAccepted(f);
    assert Sits(f, 0, f);
    var n := RuleRuns(rule, f, m, Start(mem));
    AcceptedRunsToEnd(f, m, mem);
    RunStays(f, m, Start(mem), if n < |f| then n else |f|, if n < |f| then |f| else n);
  }

  /** Compiling a rule, validating the program, and running it. */
  method FilterPacket(rule: Rule, m: Machine, mem: Scratch) returns (r: U32)
    requires ScopedRule(rule) && |CompileRule(rule)| < 0x8000_0000
    ensures r == Value(rule, m)
  {
    hide CompileRule, Accepted, ForwardJumps, IndexScratchOk, Value, Run, ScopedRule;
    RuleClosed(rule);
    CompiledReturnsValue(rule, m, mem);
    var program: Program := CompileRule(rule);
    var ok := Validate(program);
    assert ok;
    var outcome := Filter(Some(program), m, mem);
    r := outcome.value;
  }
}
