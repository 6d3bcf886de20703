/** What an instruction does, as the manual tells it (SDM Volume 2, MOV, ADD, SUB, AND, OR, XOR, CMP, TEST, XCHG, PUSH,
    POP; Volume 1, section 3.4.1.1): byte by byte, without the functions that the two machines are made of. Every step
    of either machine is held against it. */
module Manual {
  import opened Bytes
  import opened Addresses
  import opened Exprs
  import opened Branch
  import opened Arithmetic
  import opened Machines
  import opened Steps

  // ---- operands and destinations ----

  /** The width of a place. */
  predicate AsWide(loc: Loc, n: nat) {
    match loc
    case RegLoc(_, FULL) => n == 8
    case RegLoc(_, D) => n == 4
    case RegLoc(_, W) => n == 2
    case RegLoc(_, L) => n == 1
    case MemLoc(_, size) => n == size
  }

  /** The operand holds these bytes, lowest first. */
  ghost predicate Gives(p: Plain, o: Operand, bs: seq<byte>) {
    match o
    case Imm(v) => |bs| <= |v| && forall k :: 0 <= k < |bs| ==> bs[k] == v[k]
    case At(RegLoc(n, part)) =>
      && n < |p.regs| && AsWide(RegLoc(n, part), |bs|)
      && forall k :: 0 <= k < |bs| ==> k in p.regs[n] && bs[k] == p.regs[n][k]
    case At(MemLoc(a, size)) =>
      |bs| == size && forall k {:trigger bs[k]} :: 0 <= k < |bs| ==> a + k in p.mem && bs[k] == p.mem[a + k]
  }

  /** Byte k of a register is cleared when its lower half is written. */
  predicate Clears(w: Writer, n: nat, k: int) {
    4 <= k < 8 && w.Processor? && (n < |w.hidden| ==> k !in w.hidden[n])
  }

  /** From p to q the bytes bs are put at a place and nothing else changes, but for the upper half of a register. */
  ghost predicate Written(w: Writer, p: Plain, loc: Loc, bs: seq<byte>, q: Plain) {
    && AsWide(loc, |bs|) && q.flags == p.flags
    && match loc
       case RegLoc(n, part) =>
         && q.mem == p.mem && n < |p.regs| == |q.regs|
         && (forall r :: 0 <= r < |p.regs| && r != n ==> q.regs[r] == p.regs[r])
         && q.regs[n].Keys == p.regs[n].Keys
         && forall k :: k in p.regs[n] ==>
              q.regs[n][k] == if 0 <= k < |bs| then bs[k] else if part == D && Clears(w, n, k) then 0 else p.regs[n][k]
       case MemLoc(a, size) =>
         && q.regs == p.regs && q.mem.Keys == p.mem.Keys
         && forall k :: k in p.mem ==> q.mem[k] == if a <= k < a + size then bs[k - a] else p.mem[k]
  }

  /** One word is eight below another, in 64 bits. */
  predicate EightBelow(s: seq<byte>, t: seq<byte>) {
    |s| == |t| == 8 && (Num(s) + 8 == Num(t) || Num(s) + 8 == Num(t) + Pow256(8))
  }

  /** The signed address that a 64-bit word stands for. */
  predicate Points(s: seq<byte>, a: int) {
    |s| == 8 && 0 - Pow256(8) <= 2 * a < Pow256(8) && (a == Num(s) || a + Pow256(8) == Num(s))
  }

  // ---- instructions ----

  ghost predicate Moves(w: Writer, p: Plain, dst: Loc, src: Operand, v: seq<byte>, q: Plain) {
    Gives(p, src, v) && Written(w, p, dst, v, q)
  }

  /** cmp and test only set flags. */
  ghost predicate Operates(w: Writer, p: Plain, op: FlagOp, dst: Loc, src: Operand, a: seq<byte>, b: seq<byte>,
                           r: seq<byte>, q: Plain)
  {
    && Gives(p, At(dst), a) && Gives(p, src, b) && |a| == |b| >= 1
    && OpResults(op, a, b, r) && FlagsSay(op, a, b, r, q.flags)
    && match op
       case FCmp => q.regs == p.regs && q.mem == p.mem
       case FTest => q.regs == p.regs && q.mem == p.mem
       case _ => Written(w, p, dst, r, q.(flags := p.flags))
  }

  /** Both places are read before either is written. */
  ghost predicate Exchanges(w: Writer, p: Plain, a: Loc, b: Loc, x: seq<byte>, y: seq<byte>, t: Plain, q: Plain) {
    Gives(p, At(a), x) && Gives(p, At(b), y) && Written(w, p, a, y, t) && Written(w, t, b, x, q)
  }

  ghost predicate Pushes(w: Writer, p: Plain, src: Operand, v: seq<byte>, s: seq<byte>, s': seq<byte>, a: int,
                         t: Plain, q: Plain)
  {
    && Gives(p, src, v) && Gives(p, At(RegLoc(RSP, FULL)), s) && EightBelow(s', s) && Points(s', a)
    && Written(w, p, RegLoc(RSP, FULL), s', t) && Written(w, t, MemLoc(a, 8), v, q)
  }

  /** The processor raises rsp before it writes the destination, the executor after. */
  ghost predicate Pops(w: Writer, p: Plain, dst: Loc, v: seq<byte>, s: seq<byte>, s': seq<byte>, a: int, t: Plain,
                       q: Plain)
  {
    && Gives(p, At(RegLoc(RSP, FULL)), s) && EightBelow(s, s') && Points(s, a) && Gives(p, At(MemLoc(a, 8)), v)
    && if w.Executor? then Written(w, p, dst, v, t) && Written(w, t, RegLoc(RSP, FULL), s', q)
       else Written(w, p, RegLoc(RSP, FULL), s', t) && Written(w, t, dst, v, q)
  }

  /** From p the instruction, carried out by w, leads to q. */
  ghost predicate Effect(w: Writer, p: Plain, i: Instr, q: Plain) {
    match i
    case Mov(dst, src) => exists v :: Moves(w, p, dst, src, v, q)
    case Op(op, dst, src) => exists a, b, r :: Operates(w, p, op, dst, src, a, b, r, q)
    case Xchg(a, b) => exists x, y, t :: Exchanges(w, p, a, b, x, y, t, q)
    case Push(src) => exists v, s, s', a, t :: Pushes(w, p, src, v, s, s', a, t, q)
    case Pop(dst) => exists v, s, s', a, t :: Pops(w, p, dst, v, s, s', a, t, q)
  }

  // ---- the machines' functions are these ----

  lemma WidthIs(loc: Loc, n: nat)
    ensures AsWide(loc, n) <==> n == LocSize(loc)
  {}

  lemma GivesIs(p: Plain, o: Operand, n: nat, bs: seq<byte>)
    requires PlainOk(p, o, n)
    ensures Gives(p, o, bs) && |bs| == n <==> bs == PlainGet(p, o, n)
    ensures o.At? && Gives(p, o, bs) ==> |bs| == n
  {}

  lemma WrittenIs(w: Writer, p: Plain, loc: Loc, bs: seq<byte>, q: Plain)
    requires |p.regs| == NREGS && IsPlace(loc) && (w.Processor? ==> |w.hidden| == NREGS)
    ensures Written(w, p, loc, bs, q) <==> |bs| == LocSize(loc) && q == PutBy(w, p, loc, bs)
  {
    WidthIs(loc, |bs|);
    if |bs| == LocSize(loc) {
      var r := PutBy(w, p, loc, bs);
      if loc.RegLoc? {
        var n := loc.reg;
        forall k | k in p.regs[n]
          ensures k in r.regs[n]
          ensures r.regs[n][k] == if 0 <= k < |bs| then bs[k] else if loc.part == D && Clears(w, n, k) then 0
                                  else p.regs[n][k]
        {}
        SameMaps(p.regs[n], q.regs, r.regs, n);
      } else {
        SameMap(p.mem, q.mem, r.mem);
      }
    }
  }

  lemma SameMap(m: map<int, byte>, a: map<int, byte>, b: map<int, byte>)
    requires b.Keys == m.Keys
    ensures a == b <==> a.Keys == m.Keys && forall k :: k in m ==> a[k] == b[k]
  {
    if a.Keys == m.Keys && forall k :: k in m ==> a[k] == b[k] {
      forall k | k in a ensures k in m && a[k] == b[k] {}
    }
  }

  lemma SameMaps(m: map<int, byte>, a: seq<map<int, byte>>, b: seq<map<int, byte>>, n: nat)
    requires n < |b| && b[n].Keys == m.Keys
    ensures a == b <==> |a| == |b| && (forall r :: 0 <= r < |b| && r != n ==> a[r] == b[r]) && a[n].Keys == m.Keys
                        && forall k :: k in m ==> a[n][k] == b[n][k]
  {
    if |a| == |b| { SameMap(m, a[n], b[n]); }
  }

  lemma PointsIs(s: seq<byte>, a: int)
    requires |s| == 8
    ensures Points(s, a) <==> Slot(s) == MemLoc(a, 8)
  {
    hide Num, Pow256;
    Pow256Eight();
  }

  lemma EightIs(s: seq<byte>, t: seq<byte>)
    requires |s| == |t| == 8
    ensures EightBelow(s, t) <==> s == Down(t)
    ensures EightBelow(s, t) <==> t == Up(s)
  {
    hide Num, Pow256, Alu;
    NumEight();
    Pow256Eight();
    OpResultsAre(FSub, t, EIGHT, s);
    OpResultsAre(FAdd, s, EIGHT, t);
  }

  lemma FlagsAre(op: FlagOp, a: seq<byte>, b: seq<byte>, f: Flags)
    requires |a| == |b| >= 1
    ensures FlagsSay(op, a, b, Alu(AluOp(op), a, b), f) <==> f == FlagsOf(op, a, b)
  {
    hide FlagsOf, Alu, AllZero, Top, Num;
    FlagsMean(op, a, b);
  }

  lemma MoveIs(w: Writer, p: Plain, dst: Loc, src: Operand, q: Plain)
    requires PlainStepOk(p, Mov(dst, src)) && (w.Processor? ==> |w.hidden| == NREGS)
    ensures q == StepBy(w, p, Mov(dst, src)) <==> Effect(w, p, Mov(dst, src), q)
  {
    hide PlainOk, PlainGet, PutBy, Gives, Written, Mapped;
    var n := LocSize(dst);
    var v0 := PlainGet(p, src, n);
    GivesIs(p, src, n, v0);
    WrittenIs(w, p, dst, v0, q);
    assert q == StepBy(w, p, Mov(dst, src)) ==> Moves(w, p, dst, src, v0, q);
    if v :| Moves(w, p, dst, src, v, q) {
      WrittenIs(w, p, dst, v, q);
      GivesIs(p, src, n, v);
    }
  }

  lemma OperationIs(w: Writer, p: Plain, op: FlagOp, dst: Loc, src: Operand, q: Plain)
    requires PlainStepOk(p, Op(op, dst, src)) && (w.Processor? ==> |w.hidden| == NREGS) && LocSize(dst) >= 1
    ensures q == StepBy(w, p, Op(op, dst, src)) <==> Effect(w, p, Op(op, dst, src), q)
  {
    hide PlainGet, PutBy, Gives, Written, Mapped, Alu, FlagsOf, FlagsSay, OpResults, AluOp;
    var n := LocSize(dst);
    var a0, b0 := PlainGet(p, At(dst), n), PlainGet(p, src, n);
    var r0 := Alu(AluOp(op), a0, b0);
    GivesIs(p, At(dst), n, a0);
    GivesIs(p, src, n, b0);
    OpResultsAre(op, a0, b0, r0);
    FlagsAre(op, a0, b0, q.flags);
    WrittenIs(w, p, dst, r0, q.(flags := p.flags));
    assert q == StepBy(w, p, Op(op, dst, src)) ==> Operates(w, p, op, dst, src, a0, b0, r0, q);
    if a, b, r :| Operates(w, p, op, dst, src, a, b, r, q) {
      GivesIs(p, At(dst), n, a);
      GivesIs(p, src, n, b);
      OpResultsAre(op, a, b, r);
    }
  }

  lemma ExchangeIs(w: Writer, p: Plain, a: Loc, b: Loc, q: Plain)
    requires PlainStepOk(p, Xchg(a, b)) && (w.Processor? ==> |w.hidden| == NREGS)
    ensures q == StepBy(w, p, Xchg(a, b)) <==> Effect(w, p, Xchg(a, b), q)
  {
    hide PlainGet, PutBy, Gives, Written, Mapped;
    var n := LocSize(a);
    var x0, y0 := PlainGet(p, At(a), n), PlainGet(p, At(b), n);
    var t0 := PutBy(w, p, a, y0);
    GivesIs(p, At(a), n, x0);
    GivesIs(p, At(b), n, y0);
    WrittenIs(w, p, a, y0, t0);
    WrittenIs(w, t0, b, x0, q);
    assert q == StepBy(w, p, Xchg(a, b)) ==> Exchanges(w, p, a, b, x0, y0, t0, q);
    if x, y, t :| Exchanges(w, p, a, b, x, y, t, q) {
      GivesIs(p, At(a), n, x);
      GivesIs(p, At(b), n, y);
      WrittenIs(w, p, a, y, t);
    }
  }

  /** Eight-byte writes are the same by whoever makes them. */
  lemma WholeIs(w: Writer, p: Plain, loc: Loc, bs: seq<byte>, q: Plain)
    requires |p.regs| == NREGS && IsPlace(loc) && (w.Processor? ==> |w.hidden| == NREGS) && LocSize(loc) == 8
    ensures Written(w, p, loc, bs, q) <==> |bs| == 8 && q == PutPart(p, loc, bs)
  {
    hide PutPart, Written;
    WrittenIs(w, p, loc, bs, q);
  }

  /** The stack pointer as an operand. */
  lemma PointerGives(p: Plain, s: seq<byte>)
    requires |p.regs| == NREGS && Mapped(p.regs[RSP], 0, 8)
    ensures Gives(p, At(RegLoc(RSP, FULL)), s) <==> s == PlainSP(p)
  {
    GivesIs(p, At(RegLoc(RSP, FULL)), 8, s);
    hide Gives;
  }

  lemma PushIs(w: Writer, p: Plain, src: Operand, q: Plain)
    requires PlainStepOk(p, Push(src)) && (w.Processor? ==> |w.hidden| == NREGS)
    ensures q == StepBy(w, p, Push(src)) <==> Effect(w, p, Push(src), q)
  {
    hide PlainOk, PlainGet, PutPart, Gives, Written, Mapped, Down, PlainSP, EightBelow, Points;
    var v0, s0 := PlainGet(p, src, 8), PlainSP(p);
    var t0 := Down(s0);
    var u0, a0 := PutPart(p, SP_REG, t0), SignedAddr(Num(t0));
    PushVia(w, p, src, q, v0, s0, t0, a0, u0);
    if v, s, s', a, t :| Pushes(w, p, src, v, s, s', a, t, q) {
      PushVia(w, p, src, q, v, s, s', a, t);
    }
  }

  /** The one way to push. */
  lemma PushVia(w: Writer, p: Plain, src: Operand, q: Plain, v: seq<byte>, s: seq<byte>, s': seq<byte>, a: int,
                t: Plain)
    requires PlainStepOk(p, Push(src)) && (w.Processor? ==> |w.hidden| == NREGS)
    ensures Pushes(w, p, src, v, s, s', a, t, q)
            <==> v == PlainGet(p, src, 8) && s == PlainSP(p) && s' == Down(s) && t == PutPart(p, SP_REG, s')
                 && Slot(s') == MemLoc(a, 8) && q == PutPart(t, Slot(s'), v)
  {
    hide PlainOk, PlainGet, Put, Gives, Written, Mapped, Down, Slot, PlainSP, EightBelow, Points;
    GivesIs(p, src, 8, v);
    PointerGives(p, s);
    WholeIs(w, p, SP_REG, s', t);
    if |s| == |s'| == 8 {
      EightIs(s', s);
      PointsIs(s', a);
      if |t.regs| == NREGS {
        WholeIs(w, t, MemLoc(a, 8), v, q);
      }
    }
  }

  lemma PopIs(w: Writer, p: Plain, dst: Loc, q: Plain)
    requires PlainStepOk(p, Pop(dst)) && (w.Processor? ==> |w.hidden| == NREGS)
    ensures q == StepBy(w, p, Pop(dst)) <==> Effect(w, p, Pop(dst), q)
  {
    hide PlainOk, PlainGet, PutPart, Gives, Written, Mapped, Up, PlainSP, EightBelow, Points;
    var s0 := PlainSP(p);
    var v0, t0, a0 := PlainGet(p, At(Slot(s0)), 8), Up(s0), SignedAddr(Num(s0));
    var u0 := if w.Executor? then PutPart(p, dst, v0) else PutPart(p, SP_REG, t0);
    PopVia(w, p, dst, q, v0, s0, t0, a0, u0);
    if v, s, s', a, t :| Pops(w, p, dst, v, s, s', a, t, q) {
      PopVia(w, p, dst, q, v, s, s', a, t);
    }
  }

  /** The one way to pop. */
  lemma PopVia(w: Writer, p: Plain, dst: Loc, q: Plain, v: seq<byte>, s: seq<byte>, s': seq<byte>, a: int, t: Plain)
    requires PlainStepOk(p, Pop(dst)) && (w.Processor? ==> |w.hidden| == NREGS)
    ensures Pops(w, p, dst, v, s, s', a, t, q)
            <==> s == PlainSP(p) && s' == Up(s) && Slot(s) == MemLoc(a, 8) && v == PlainGet(p, At(Slot(s)), 8)
                 && if w.Executor? then t == PutPart(p, dst, v) && q == PutPart(t, SP_REG, s')
                    else t == PutPart(p, SP_REG, s') && q == PutPart(t, dst, v)
  {
    hide PlainOk, PlainGet, Put, Gives, Written, Mapped, Up, Slot, PlainSP, EightBelow, Points;
    PointerGives(p, s);
    if s == PlainSP(p) {
      PointsIs(s, a);
      if Slot(s) == MemLoc(a, 8) {
        GivesIs(p, At(Slot(s)), 8, v);
      }
      if |s'| == 8 {
        EightIs(s, s');
      }
    }
    WholeIs(w, p, dst, v, t);
    WholeIs(w, p, SP_REG, s', t);
    if |t.regs| == NREGS {
      WholeIs(w, t, SP_REG, s', q);
      WholeIs(w, t, dst, v, q);
    }
  }

  /** The machines' step is what the manual tells, and nothing else is. */
  lemma StepByIs(w: Writer, p: Plain, i: Instr, q: Plain)
    requires PlainStepOk(p, i) && (w.Processor? ==> |w.hidden| == NREGS) && (i.Op? ==> LocSize(i.dst) >= 1)
    ensures q == StepBy(w, p, i) <==> Effect(w, p, i, q)
  {
    hide PlainStepOk, StepBy, Effect;
    match i
    case Mov(dst, src) => MoveIs(w, p, dst, src, q);
    case Op(op, dst, src) => OperationIs(w, p, op, dst, src, q);
    case Xchg(a, b) => ExchangeIs(w, p, a, b, q);
    case Push(src) => PushIs(w, p, src, q);
    case Pop(dst) => PopIs(w, p, dst, q);
  }

  /** The plain machine's step is what the manual tells of a processor that nothing is hidden from. */
  lemma PlainStepManual(p: Plain, i: Instr, q: Plain)
    requires PlainStepOk(p, i) && (i.Op? ==> LocSize(i.dst) >= 1)
    ensures q == PlainStep(p, i) <==> Effect(Processor(NothingHidden()), p, i, q)
  {
    hide PlainStepOk, StepBy, Effect;
    StepByIs(Processor(NothingHidden()), p, i, q);
  }

  /** The symbolic machine's step means, under every assignment, what the manual tells of whoever makes it. */
  lemma StepManual(m: Machine, i: Instr, asg: Assignment, q: Plain)
    requires StepOk(m, i)
    ensures MachineOk(m) && MachineOk(Step(m, i))
    ensures q == Meaning(Step(m, i), asg) <==> Effect(WriterOf(m, i), Meaning(m, asg), i, q)
  {
    hide *;
    StepSimulates(m, i, asg);
    OperandWide(m, i);
    StepByIs(WriterOf(m, i), Meaning(m, asg), i, q);
  }

  lemma OperandWide(m: Machine, i: Instr)
    requires StepOk(m, i)
    ensures i.Op? ==> LocSize(i.dst) >= 1
  {
    hide MachineOk;
  }

  // ---- steps that are in order ----

  /** Without a symbolic byte every instruction on places that exist may be carried out. */
  lemma ConcreteStepOk(m: Machine, i: Instr)
    requires MachineOk(m) && PlainParts(m, i)
    requires m.mem.marks == {} && forall n :: 0 <= n < NREGS ==> m.regs[n].marks == {}
    ensures StepOk(m, i) && !HasSymOperand(m, i)
  {
    hide MachineOk, PlaceOk, Down, SP, Mapped, SignedAddr;
    NothingLive(m);
    match i
    case Mov(dst, src) => OperandFacts(m, src, LocSize(dst));
    case Push(src) => OperandFacts(m, src, 8);
    case Pop(dst) => OperandFacts(m, At(Slot(SP(m))), 8);
    case _ =>
  }

  lemma NothingLive(m: Machine)
    requires |m.regs| == NREGS && m.mem.marks == {} && forall n :: 0 <= n < NREGS ==> m.regs[n].marks == {}
    ensures forall loc {:trigger LiveAt(m, loc)} :: IsPlace(loc) ==> !LiveAt(m, loc)
  {}

  predicate InRegister(o: Operand) { o.At? ==> o.loc.RegLoc? }

  /** Operations and exchanges among registers and constants may always be carried out, whatever is symbolic. */
  lemma RegisterStepOk(m: Machine, i: Instr)
    requires MachineOk(m) && PlainParts(m, i)
    requires i.Op? || i.Xchg?
    requires if i.Op? then i.dst.RegLoc? && InRegister(i.src) else i.a.RegLoc? && i.b.RegLoc?
    ensures StepOk(m, i)
  {
    hide MachineOk, PlaceOk, OperandOk, LiveAt;
  }
}
