/** Runs with branches: the path constraint (EFlagsManager.cpp:743-814, thinctrl.cpp:656-695). */
module Paths {
  import opened Bytes
  import opened Exprs
  import opened Pieces
  import opened Assembly
  import opened Z3Handler
  import opened Branch
  import opened Arithmetic
  import opened Machines
  import opened Steps

  // ---- one decision ----

  /** The condition of a symbolic branch, from the saved expression. */
  function BranchCondition(cc: CC, f: FlagState): Expr
    requires f.Saved?
  {
    Condition(cc, Bin(AluOp(f.op), f.r, f.l))
  }

  predicate SavedOk(f: FlagState) {
    f.Saved? ==> WF(f.r) && WF(f.l) && Width(f.r) == Width(f.l) >= 1
  }

  lemma ConditionWF(cc: CC, f: FlagState)
    requires f.Saved? && SavedOk(f)
    ensures WFFormula(BranchCondition(cc, f))
  {
    var asg: Assignment := _ => 0;
    ConditionSays(cc, AluOp(f.op), f.r, f.l, asg);
  }

  /** The decision: a saved expression is evaluated at the seeds, known flags decide by the rule. */
  predicate Decision(cc: CC, f: FlagState, seeds: Assignment)
    requires SavedOk(f)
  {
    match f
    case Saved(_, _, _) => ConditionWF(cc, f); Holds(BranchCondition(cc, f), seeds)
    case Known(flags) => Rule(cc, flags)
  }

  /** A symbolic decision compares the two saved operands, as the solver reads them at the seeds, in the order the code
      names, signed codes as two's complement words; equality asks whether the saved result is zero. */
  ghost predicate Decided(cc: CC, f: FlagState, seeds: Assignment, taken: bool)
    requires f.Saved? && SavedOk(f)
  {
    var a, b := Z3Value(f.r, seeds), Z3Value(f.l, seeds);
    match cc
    case E => forall r {:trigger OpResults(f.op, a, b, r)} :: OpResults(f.op, a, b, r) ==> taken == AllZero(r)
    case NE => forall r {:trigger OpResults(f.op, a, b, r)} :: OpResults(f.op, a, b, r) ==> taken != AllZero(r)
    case _ => taken == Says(cc, a, b)
  }

  lemma DecisionIs(cc: CC, f: FlagState, seeds: Assignment)
    requires f.Saved? && SavedOk(f)
    ensures Decided(cc, f, seeds, Decision(cc, f, seeds))
  {
    hide Condition, Holds, Z3Value, Says, AllZero, OpResults, WF, Width, AluOp;
    var a, b := Z3Value(f.r, seeds), Z3Value(f.l, seeds);
    OrderSaid(cc, AluOp(f.op), f.r, f.l, seeds);
    EqualMeans(AluOp(f.op), f.r, f.l, seeds);
    forall r | OpResults(f.op, a, b, r) ensures AllZero(r) <==> AllZero(Alu(AluOp(f.op), a, b)) {
      OpResultsAre(f.op, a, b, r);
    }
  }

  /** The constraint that a symbolic decision adds. */
  function Constraint(cc: CC, f: FlagState, taken: bool): Expr
    requires f.Saved?
  {
    if taken then BranchCondition(cc, f) else LNot(BranchCondition(cc, f))
  }

  function Constrained(cs: set<Expr>, cc: CC, f: FlagState, taken: bool): set<Expr> {
    if f.Saved? then cs + {Constraint(cc, f, taken)} else cs
  }

  /** All constraints hold under an assignment. */
  ghost predicate AllHold(cs: set<Expr>, asg: Assignment) {
    forall c {:trigger c in cs} :: c in cs ==> WFFormula(c) && Holds(c, asg)
  }

  /** The part of the source's own state that decides branches. The evaluator is taken to substitute all seeds at once.
      */
  class EFlagsManager {
    var m_LastExpr: FlagState
    var m_Constraint: set<Expr>

    ghost predicate Valid()
      reads this
    {
      SavedOk(m_LastExpr)
    }

    constructor (flags: Flags)
      ensures Valid() && m_LastExpr == Known(flags) && m_Constraint == {}
    {
      m_LastExpr, m_Constraint := Known(flags), {};
    }

    /** SaveFlagChangingInstructionExpr: the flags become those of the expression. */
    method SaveFlagChangingInstructionExpr(op: FlagOp, r: Expr, l: Expr)
      requires WF(r) && WF(l) && Width(r) == Width(l) >= 1
      modifies this`m_LastExpr
      ensures Valid() && m_LastExpr == Saved(op, r, l)
    {
      m_LastExpr := Saved(op, r, l);
    }

    /** EvalCondition: decides at the seeds and remembers what was decided. */
    method EvalCondition(cc: CC, seeds: Assignment) returns (bExecute: bool)
      requires Valid() && m_LastExpr.Saved?
      modifies this`m_Constraint
      ensures bExecute == Decision(cc, m_LastExpr, seeds) && Decided(cc, m_LastExpr, seeds, bExecute)
      ensures m_Constraint == Constrained(old(m_Constraint), cc, m_LastExpr, bExecute)
      ensures old(AllHold(m_Constraint, seeds)) ==> AllHold(m_Constraint, seeds)
    {
      hide WF, Width, Condition, WFFormula, Holds, Decided;
      DecisionIs(cc, m_LastExpr, seeds);
      var exprPtr := BranchCondition(cc, m_LastExpr);
      ConditionWF(cc, m_LastExpr);
      bExecute := Holds(exprPtr, seeds);
      Negation(exprPtr, seeds);
      if !bExecute {
        exprPtr := LNot(exprPtr);
      }
      m_Constraint := m_Constraint + {exprPtr};
    }

    /** updateJCCDecision */
    method UpdateJCCDecision(cc: CC, eflags: bv64, seeds: Assignment) returns (bExecute: bool)
      requires Valid() && (m_LastExpr.Known? ==> m_LastExpr.flags == FlagsIn(eflags))
      modifies this`m_Constraint
      ensures bExecute == Decision(cc, m_LastExpr, seeds)
      ensures m_Constraint == Constrained(old(m_Constraint), cc, m_LastExpr, bExecute)
      ensures old(AllHold(m_Constraint, seeds)) ==> AllHold(m_Constraint, seeds)
    {
      hide AllHold, FlagsIn, ChkCondFail, Rule, Condition, WF, Width;
      if m_LastExpr.Saved? {
        bExecute := EvalCondition(cc, seeds);
      } else {
        ChkCondFailFollowsRule(cc, eflags);
        bExecute := !ChkCondFail(cc, eflags);
      }
    }
  }

  lemma Negation(e: Expr, asg: Assignment)
    requires WFFormula(e)
    ensures WFFormula(LNot(e)) && (Holds(LNot(e), asg) <==> !Holds(e, asg))
  {}

  // ---- programs ----

  datatype Line = Do(i: Instr) | Jump(cc: CC, target: nat)

  /** A symbolic run: place, machine, constraints so far, decisions so far. */
  datatype State = State(pc: nat, m: Machine, constraints: set<Expr>, trace: seq<bool>)

  datatype PlainState = PlainState(pc: nat, p: Plain, trace: seq<bool>)

  ghost predicate StateOk(s: State) { MachineOk(s.m) }

  lemma FlagsOk(s: State)
    requires StateOk(s)
    ensures SavedOk(s.m.flags)
  {
    hide WF, Width;
  }

  /** The next line can be taken. */
  ghost predicate LineOk(prog: seq<Line>, s: State) {
    StateOk(s) && (s.pc < |prog| && prog[s.pc].Do? ==> StepOk(s.m, prog[s.pc].i))
  }

  ghost function Advance(prog: seq<Line>, s: State, seeds: Assignment): State
    requires LineOk(prog, s)
  {
    if s.pc >= |prog| then s else
    match prog[s.pc]
    case Do(i) => State(s.pc + 1, Step(s.m, i), s.constraints, s.trace)
    case Jump(cc, target) =>
      FlagsOk(s);
      var taken := Decision(cc, s.m.flags, seeds);
      State(if taken then target else s.pc + 1, s.m, Constrained(s.constraints, cc, s.m.flags, taken),
            s.trace + [taken])
  }

  ghost predicate RunOk(prog: seq<Line>, s: State, n: nat, seeds: Assignment)
    decreases n
  {
    LineOk(prog, s) && (n > 0 ==> RunOk(prog, Advance(prog, s, seeds), n - 1, seeds))
  }

  ghost function RunPath(prog: seq<Line>, s: State, n: nat, seeds: Assignment): State
    requires RunOk(prog, s, n, seeds)
    decreases n
  {
    hide LineOk, Advance;
    if n == 0 then s else RunPath(prog, Advance(prog, s, seeds), n - 1, seeds)
  }

  /** A run goes on for one more line just when that line can be taken where it has led. */
  lemma {:induction false} RunExtends(prog: seq<Line>, s: State, n: nat, seeds: Assignment)
    requires RunOk(prog, s, n, seeds)
    ensures RunOk(prog, s, n + 1, seeds) <==>
            LineOk(prog, RunPath(prog, s, n, seeds)) && LineOk(prog, Advance(prog, RunPath(prog, s, n, seeds), seeds))
    decreases n
  {
    hide LineOk, Advance;
    if n > 0 {
      RunExtends(prog, Advance(prog, s, seeds), n - 1, seeds);
    }
  }

  /** The plain machine stops where a step is impossible for it. */
  function PlainAdvance(prog: seq<Line>, s: PlainState): PlainState {
    if s.pc >= |prog| then s else
    match prog[s.pc]
    case Do(i) => if PlainStepOk(s.p, i) then PlainState(s.pc + 1, PlainStep(s.p, i), s.trace) else s
    case Jump(cc, target) =>
      var taken := Rule(cc, s.p.flags);
      PlainState(if taken then target else s.pc + 1, s.p, s.trace + [taken])
  }

  function PlainRun(prog: seq<Line>, s: PlainState, n: nat): PlainState
    decreases n
  {
    if n == 0 then s else PlainRun(prog, PlainAdvance(prog, s), n - 1)
  }

  /** The plain state that a symbolic one stands for. */
  ghost function PlainOf(s: State, asg: Assignment): PlainState
    requires StateOk(s)
  {
    PlainState(s.pc, Meaning(s.m, asg), s.trace)
  }

  /** Under an assignment a branch is decided as the flags are: the flags are known, or the condition follows cmp or sub
      or only asks for equality, and the solver reads both saved operands right. */
  predicate JumpExact(cc: CC, f: FlagState, asg: Assignment)
    requires SavedOk(f)
  {
    f.Saved? ==>
      (f.op == FCmp || f.op == FSub || cc == E || cc == NE) && ReadsRight(f.r, asg) && ReadsRight(f.l, asg)
  }

  /** A condition that a look at the saved operands settles, for all assignments at once. */
  predicate JumpMirrored(cc: CC, f: FlagState)
    requires SavedOk(f)
  {
    f.Saved? ==> (f.op == FCmp || f.op == FSub || cc == E || cc == NE) && Mirrored(f.r) && Mirrored(f.l)
  }

  lemma MirroredExact(cc: CC, f: FlagState, asg: Assignment)
    requires SavedOk(f) && JumpMirrored(cc, f)
    ensures JumpExact(cc, f, asg)
  {
    hide Mirrored, WF, Width;
    if f.Saved? {
      MirroredReads(f.r, asg);
      MirroredReads(f.l, asg);
    }
  }

  /** Under an assignment the next line does what the plain machine does. */
  ghost predicate LineExact(prog: seq<Line>, s: State, asg: Assignment)
    requires LineOk(prog, s)
  {
    if s.pc >= |prog| then true else
    match prog[s.pc]
    case Do(i) => StepSimulates(s.m, i, asg); Exact(WriterOf(s.m, i), Meaning(s.m, asg), i)
    case Jump(cc, _) => FlagsOk(s); JumpExact(cc, s.m.flags, asg)
  }

  /** A step is exact when it means what the plain machine's does, and a branch on known flags always is. */
  lemma LineExactMeans(prog: seq<Line>, s: State, asg: Assignment)
    requires LineOk(prog, s) && s.pc < |prog|
    ensures match prog[s.pc]
            case Do(i) =>
              StepOk(s.m, i) && MachineOk(Step(s.m, i)) && PlainStepOk(Meaning(s.m, asg), i)
              && (LineExact(prog, s, asg) <==> Meaning(Step(s.m, i), asg) == PlainStep(Meaning(s.m, asg), i))
            case Jump(_, _) => s.m.flags.Known? ==> LineExact(prog, s, asg)
  {
    hide MachineOk, StepOk, Step, Meaning, PlainStep, PlainStepOk, StepBy, Exact, WriterOf;
    match prog[s.pc]
    case Do(i) => StepSimulates(s.m, i, asg);
    case Jump(_, _) => FlagsOk(s);
  }

  /** The plain machine, from what an assignment makes of the state, decides the next line as the seeds do. */
  ghost predicate GoesAlong(prog: seq<Line>, s: State, seeds: Assignment, asg: Assignment)
    requires LineOk(prog, s)
  {
    PlainAdvance(prog, PlainOf(s, asg)).trace == Advance(prog, s, seeds).trace
  }

  /** The same for every line of a run, up to a branch where the assignment leaves the path. */
  ghost predicate RunExact(prog: seq<Line>, s: State, n: nat, seeds: Assignment, asg: Assignment)
    requires RunOk(prog, s, n, seeds)
    decreases n
  {
    hide LineOk, Advance, LineExact, GoesAlong;
    n > 0 ==>
      && LineExact(prog, s, asg)
      && (GoesAlong(prog, s, seeds, asg) ==> RunExact(prog, Advance(prog, s, seeds), n - 1, seeds, asg))
  }

  /** Up to there the saved operands are mirrored at every branch, and the other lines are exact. */
  ghost predicate RunMirrored(prog: seq<Line>, s: State, n: nat, seeds: Assignment, asg: Assignment)
    requires RunOk(prog, s, n, seeds)
    decreases n
  {
    hide Advance, LineExact, StepOk, MachineOk, GoesAlong;
    n > 0 ==>
      && (if s.pc < |prog| && prog[s.pc].Jump? then FlagsOk(s); JumpMirrored(prog[s.pc].cc, s.m.flags)
          else LineExact(prog, s, asg))
      && (GoesAlong(prog, s, seeds, asg) ==> RunMirrored(prog, Advance(prog, s, seeds), n - 1, seeds, asg))
  }

  lemma {:induction false} MirroredRun(prog: seq<Line>, s: State, n: nat, seeds: Assignment, asg: Assignment)
    requires RunOk(prog, s, n, seeds) && RunMirrored(prog, s, n, seeds, asg)
    ensures RunExact(prog, s, n, seeds, asg)
    decreases n
  {
    hide Advance, StepOk, MachineOk, JumpMirrored, JumpExact, Exact, Meaning, WriterOf, GoesAlong;
    if n > 0 {
      if s.pc < |prog| && prog[s.pc].Jump? {
        FlagsOk(s);
        MirroredExact(prog[s.pc].cc, s.m.flags, asg);
      }
      if GoesAlong(prog, s, seeds, asg) {
        MirroredRun(prog, Advance(prog, s, seeds), n - 1, seeds, asg);
      }
    }
  }

  /** Decisions only grow. */
  lemma {:induction false} TraceGrows(prog: seq<Line>, s: State, n: nat, seeds: Assignment)
    requires RunOk(prog, s, n, seeds)
    ensures s.trace <= RunPath(prog, s, n, seeds).trace && s.constraints <= RunPath(prog, s, n, seeds).constraints
    decreases n
  {
    hide StepOk, Step, LineOk, Advance;
    if n > 0 {
      TraceGrows(prog, Advance(prog, s, seeds), n - 1, seeds);
      AdvanceGrows(prog, s, seeds);
    }
  }

  lemma AdvanceGrows(prog: seq<Line>, s: State, seeds: Assignment)
    requires LineOk(prog, s)
    ensures s.trace <= Advance(prog, s, seeds).trace && s.constraints <= Advance(prog, s, seeds).constraints
  {
    hide StepOk, Step, MachineOk, Decision;
    if s.pc < |prog| && prog[s.pc].Jump? {
      FlagsOk(s);
    }
  }

  lemma {:induction false} PlainTraceGrows(prog: seq<Line>, s: PlainState, n: nat)
    ensures s.trace <= PlainRun(prog, s, n).trace
    decreases n
  {
    hide PlainStep, PlainStepOk, Rule;
    if n > 0 {
      PlainTraceGrows(prog, PlainAdvance(prog, s), n - 1);
    }
  }

  // ---- the path constraint ----

  /** What an assignment makes of a branch that it reads right: if it decides as the seeds did, the plain machine goes
      along and the added constraint holds; if not, the plain machine goes the other way and the constraint fails. */
  lemma JumpAgrees(prog: seq<Line>, s: State, seeds: Assignment, asg: Assignment)
    requires LineOk(prog, s) && LineExact(prog, s, asg) && s.pc < |prog| && prog[s.pc].Jump?
    ensures var r := Advance(prog, s, seeds);
            StateOk(r) && |r.trace| == |s.trace| + 1
            && var q := PlainAdvance(prog, PlainOf(s, asg));
               || (q == PlainOf(r, asg) && (AllHold(r.constraints, asg) <==> AllHold(s.constraints, asg)))
               || (|q.trace| == |r.trace| && q.trace != r.trace && !AllHold(r.constraints, asg))
  {
    var cc, f := prog[s.pc].cc, s.m.flags;
    FlagsOk(s);
    var taken := Decision(cc, f, seeds);
    MeaningFlags(s.m, asg);
    assert (s.trace + [taken])[|s.trace|] == taken && (s.trace + [!taken])[|s.trace|] == !taken;
    assert Advance(prog, s, seeds).constraints == Constrained(s.constraints, cc, f, taken);
    hide MachineOk, Meaning, WF, Width, Rule, MeaningOfFlags, Condition, Holds, WFFormula, Decision, Constraint,
         AllHold;
    if f.Saved? {
      SavedAgrees(cc, f, taken, asg);
      AllHoldMore(s.constraints, Constraint(cc, f, taken), asg);
    } else {
    }
  }

  lemma MeaningFlags(m: Machine, asg: Assignment)
    requires MachineOk(m)
    ensures SavedOk(m.flags) && Meaning(m, asg).flags == MeaningOfFlags(m.flags, asg)
  {
    hide WF, Width, MeaningOfFlags;
  }

  /** The constraint holds exactly when the flags that the assignment gives decide the same way. */
  lemma SavedAgrees(cc: CC, f: FlagState, taken: bool, asg: Assignment)
    requires f.Saved? && SavedOk(f) && JumpExact(cc, f, asg)
    ensures WFFormula(Constraint(cc, f, taken))
    ensures Holds(Constraint(cc, f, taken), asg) <==> taken == Rule(cc, MeaningOfFlags(f, asg))
  {
    hide Rule, FlagsOf, Eval, WF, Width, ReadsRight;
    ConditionDecides(cc, f.op, f.r, f.l, asg);
  }

  lemma AllHoldMore(cs: set<Expr>, c: Expr, asg: Assignment)
    requires WFFormula(c)
    ensures AllHold(cs + {c}, asg) <==> AllHold(cs, asg) && Holds(c, asg)
  {
    hide Holds, WFFormula;
    if AllHold(cs + {c}, asg) {
      assert c in cs + {c};
      forall d | d in cs ensures WFFormula(d) && Holds(d, asg) {
        assert d in cs + {c};
      }
    }
  }

  lemma DoAgrees(prog: seq<Line>, s: State, seeds: Assignment, asg: Assignment)
    requires LineOk(prog, s) && LineExact(prog, s, asg) && (s.pc < |prog| ==> prog[s.pc].Do?)
    ensures var r := Advance(prog, s, seeds);
            && StateOk(r) && PlainAdvance(prog, PlainOf(s, asg)) == PlainOf(r, asg)
            && r.trace == s.trace && r.constraints == s.constraints
  {
    if s.pc < |prog| {
      StepSimulates(s.m, prog[s.pc].i, asg);
      hide MachineOk, Meaning, StepOk, Step, PlainStep, PlainStepOk, StepBy, Exact, WriterOf;
    }
  }

  lemma {:induction false} RunStateOk(prog: seq<Line>, s: State, n: nat, seeds: Assignment)
    requires RunOk(prog, s, n, seeds)
    ensures StateOk(s) && StateOk(RunPath(prog, s, n, seeds))
    decreases n
  {
    hide StateOk, Advance, StepOk;
    if n > 0 {
      RunStateOk(prog, Advance(prog, s, seeds), n - 1, seeds);
    }
  }

  /** For every program and every number of lines, under an assignment for which each line is exact up to where it
      leaves the path: it satisfies all the constraints of the symbolic run, as the solver reads them, exactly when it
      satisfies those the run began with and the plain machine, started from what the assignment makes of the symbolic
      one, takes the same decisions. It then ends where the symbolic run does, in what that stands for. */
  lemma {:induction false} PathConstraint(prog: seq<Line>, s: State, n: nat, seeds: Assignment, asg: Assignment)
    requires RunOk(prog, s, n, seeds) && RunExact(prog, s, n, seeds, asg)
    ensures var r := RunPath(prog, s, n, seeds);
            StateOk(s) && StateOk(r)
            && var q := PlainRun(prog, PlainOf(s, asg), n);
               && (AllHold(r.constraints, asg) <==> AllHold(s.constraints, asg) && q.trace == r.trace)
               && (AllHold(r.constraints, asg) ==> q == PlainOf(r, asg))
    decreases n
  {
    hide Exact, WriterOf, JumpExact, MachineOk, StepOk, Step, Meaning, PlainStep, PlainStepOk, StateOk;
    RunStateOk(prog, s, n, seeds);
    if n > 0 {
      var a, q := Advance(prog, s, seeds), PlainAdvance(prog, PlainOf(s, asg));
      if s.pc < |prog| && prog[s.pc].Jump? {
        JumpAgrees(prog, s, seeds, asg);
      } else {
        DoAgrees(prog, s, seeds, asg);
      }
      TraceGrows(prog, a, n - 1, seeds);
      PlainTraceGrows(prog, q, n - 1);
      hide LineOk, Advance, PlainAdvance, PlainOf, AllHold, LineExact;
      if q.trace == a.trace {
        assert GoesAlong(prog, s, seeds, asg);
        PathConstraint(prog, a, n - 1, seeds, asg);
      } else {
        Diverged(a.trace, q.trace, RunPath(prog, a, n - 1, seeds).trace, PlainRun(prog, q, n - 1).trace);
      }
    }
  }

  lemma Diverged(a: seq<bool>, b: seq<bool>, x: seq<bool>, y: seq<bool>)
    requires |a| == |b| && a != b && a <= x && b <= y
    ensures x != y
  {
    var i :| 0 <= i < |a| && a[i] != b[i];
    assert x[i] == a[i] && y[i] == b[i];
  }

  /** At the seeds every constraint holds, whatever the path. */
  lemma {:induction false} SeedsHold(prog: seq<Line>, s: State, n: nat, seeds: Assignment)
    requires RunOk(prog, s, n, seeds) && AllHold(s.constraints, seeds)
    ensures AllHold(RunPath(prog, s, n, seeds).constraints, seeds)
    decreases n
  {
    if n > 0 {
      var a := Advance(prog, s, seeds);
      if s.pc < |prog| && prog[s.pc].Jump? {
        SeedsJump(prog, s, seeds);
      }
      hide LineOk, AllHold, Step;
      SeedsHold(prog, a, n - 1, seeds);
    }
  }

  lemma SeedsJump(prog: seq<Line>, s: State, seeds: Assignment)
    requires LineOk(prog, s) && s.pc < |prog| && prog[s.pc].Jump? && AllHold(s.constraints, seeds)
    ensures AllHold(Advance(prog, s, seeds).constraints, seeds)
  {
    var cc, f := prog[s.pc].cc, s.m.flags;
    FlagsOk(s);
    if f.Saved? {
      ConditionWF(cc, f);
      var c := BranchCondition(cc, f);
      Negation(c, seeds);
      hide Holds, WFFormula, Condition, MachineOk, AllHold;
      AllHoldMore(s.constraints, Constraint(cc, f, Holds(c, seeds)), seeds);
    }
  }

  /** In a run that is exact at the seeds every decision is the decision of the plain machine at the seeds, the two end
      in the same place, and the accumulated constraints hold at the seeds. */
  lemma RunFollowsSeeds(prog: seq<Line>, s: State, n: nat, seeds: Assignment)
    requires RunOk(prog, s, n, seeds) && RunExact(prog, s, n, seeds, seeds) && AllHold(s.constraints, seeds)
    ensures var r := RunPath(prog, s, n, seeds);
            StateOk(s) && StateOk(r) && AllHold(r.constraints, seeds)
            && PlainRun(prog, PlainOf(s, seeds), n) == PlainOf(r, seeds)
  {
    hide *;
    SeedsHold(prog, s, n, seeds);
    PathConstraint(prog, s, n, seeds, seeds);
  }

  // ---- a branch that is misread ----

  /** cmp with a 16-bit operand whose low byte is an object and whose high byte is 0, read by GetExpr, against 1. At a
      seed of 1 the operands are equal and the processor takes je; the solver reads the operand as 256 and the executor
      does not. */
  lemma MisreadBranch(obj: Sym)
    requires obj.size == 1
    ensures var ps := [Piece(0, 1, UDef(obj))];
            Tidy(ps) && Within(ps, 0, 2)
            && var f := Saved(FCmp, Assemble(ps, 2, [0, 0]), Const(1, 2));
               var seeds: Assignment := _ => 1;
               SavedOk(f) && Rule(E, MeaningOfFlags(f, seeds)) && !Decision(E, f, seeds)
  {
    hide *;
    MisreadOperand(obj);
    MisreadDecided(UDef(obj), Const(0, 1), _ => 1);
  }

  lemma MisreadOperand(obj: Sym)
    requires obj.size == 1
    ensures var ps := [Piece(0, 1, UDef(obj))];
            Tidy(ps) && Within(ps, 0, 2) && Assemble(ps, 2, [0, 0]) == Misread(UDef(obj), Const(0, 1))
  {
    hide Eval, Z3Value, Num, ToBytes;
    var p, q := Piece(0, 1, UDef(obj)), Piece(1, 1, Const(0, 1));
    assert [p][1..] == [] && Fillers(0, 0, [0, 0]) == [] && Fillers(1, 2, [0, 0]) == [q];
    assert Fill([p], 0, 2, [0, 0]) == [p, q];
    PartLists(p, q);
  }

  lemma MisreadDecided(u: Expr, z: Expr, seeds: Assignment)
    requires u.UDef? && u.obj.size == 1 && seeds(u.obj) == 1 && z == Const(0, 1)
    ensures var f := Saved(FCmp, Misread(u, z), Const(1, 2));
            SavedOk(f) && Rule(E, MeaningOfFlags(f, seeds)) && !Decision(E, f, seeds)
  {
    hide Eval, Z3Value, Alu, Num, WF, Width, FlagsOf, Misread;
    MisreadValues(u, z, seeds);
  }

  function Misread(u: Expr, z: Expr): Expr { CombineMulti([u, z], [0, 1], [1, 1], 2) }

  lemma PartLists(p: Piece, q: Piece)
    ensures ExprsOf([p, q]) == [p.expr, q.expr] && AddrsOf([p, q]) == [p.addr, q.addr]
            && SizesOf([p, q]) == [p.size, q.size]
  {
    assert [p, q][1..] == [q] && [q][1..] == [];
  }

  lemma MisreadValues(u: Expr, z: Expr, seeds: Assignment)
    requires u.UDef? && u.obj.size == 1 && seeds(u.obj) == 1 && z == Const(0, 1)
    ensures var e, one := Misread(u, z), Const(1, 2);
            && WF(e) && WF(one) && Width(e) == Width(one) == 2
            && FlagsOf(FCmp, Eval(e, seeds), Eval(one, seeds)).zf
            && Num(Z3Value(Bin(Sub, e, one), seeds)) == 255
  {
    var e, one := Misread(u, z), Const(1, 2);
    MisreadOk(u, z);
    MisreadReads(u, z, seeds);
    assert ToBytes(1, 2) == [1, 0];
    hide Misread, WF, Width, ToBytes;
    assert Eval(one, seeds) == Z3Value(one, seeds) == [1, 0];
    assert Num([1, 0]) == 1 && Num([0, 1]) == 256 by { assert [1, 0][1..] == [0] && [0, 1][1..] == [1]; }
    SubWord([1, 0], [1, 0]);
    SubWord([0, 1], [1, 0]);
    Z3Bin(Sub, e, one, seeds);
    hide Alu, Num, Signed, Half, Eval, Z3Value;
  }

  lemma MisreadOk(u: Expr, z: Expr)
    requires WF(u) && WF(z) && Width(u) == Width(z) == 1
    ensures WF(Misread(u, z)) && Width(Misread(u, z)) == 2
  {
    assert [u, z] == [u] + [z] && [u, z][..0] == [] && [u, z][..1] == [u] && [] + [u] == [u];
    WidthSnoc([], u);
    WidthSnoc([u], z);
    assert TotalWidth([]) == 0;
  }

  lemma MisreadReads(u: Expr, z: Expr, seeds: Assignment)
    requires u.UDef? && u.obj.size == 1 && seeds(u.obj) == 1 && z == Const(0, 1) && WF(Misread(u, z))
    ensures Eval(Misread(u, z), seeds) == [1, 0] && Z3Value(Misread(u, z), seeds) == [0, 1]
  {
    assert [u, z] == [u] + [z] && [u][1..] == [] && [z][1..] == [];
    EvalSnoc([u], z, seeds);
    Z3Snoc([u], z, seeds);
    assert ToBytes(1, 1) == [1] && ToBytes(0, 1) == [0];
    assert EvalParts([], seeds) == [] && EvalParts([u], seeds) == [1];
    assert Z3Concat([], seeds) == [] && Z3Concat([u], seeds) == [1];
  }
}
