/** One symbolic step simulates one step of the plain machine (symexec.cpp:382-474, 634-859, 1140-1310). */
module Steps {
  import opened Bytes
  import opened Exprs
  import opened Pieces
  import opened Assembly
  import opened Addresses
  import opened Stores
  import opened Branch
  import opened Machines

  // ---- the stack pointer ----

  const SP_REG := RegLoc(RSP, FULL)
  const EIGHT: seq<byte> := [8, 0, 0, 0, 0, 0, 0, 0]

  lemma NumEight()
    ensures Num(EIGHT) == 8
  {
    NumZero(EIGHT[1..]);
  }

  /** The memory slot of eight bytes at a stack pointer. */
  function Slot(sp: seq<byte>): Loc
    requires |sp| == 8
  {
    MemLoc(SignedAddr(Num(sp)), 8)
  }

  function Down(sp: seq<byte>): (r: seq<byte>)
    requires |sp| == 8
    ensures |r| == 8
  {
    Alu(Sub, sp, EIGHT)
  }

  function Up(sp: seq<byte>): (r: seq<byte>)
    requires |sp| == 8
    ensures |r| == 8
  {
    Alu(Add, sp, EIGHT)
  }

  /** The concrete stack pointer. */
  function SP(m: Machine): (sp: seq<byte>)
    requires |m.regs| == NREGS && Mapped(m.regs[RSP].conc, 0, 8)
    ensures |sp| == 8
  {
    Get(m.regs[RSP].conc, 0, 8)
  }

  function PlainSP(p: Plain): (sp: seq<byte>)
    requires |p.regs| == NREGS && Mapped(p.regs[RSP], 0, 8)
    ensures |sp| == 8
  {
    Get(p.regs[RSP], 0, 8)
  }

  // ---- the plain machine ----

  /** cmp and test only set flags. */
  predicate Writes(op: FlagOp) { op != FCmp && op != FTest }

  predicate PlainStepOk(p: Plain, i: Instr) {
    && |p.regs| == NREGS && Mapped(p.regs[RSP], 0, 8)
    && match i
       case Mov(dst, src) => IsPlace(dst) && PlainOk(p, src, LocSize(dst))
       case Op(_, dst, src) => PlainOk(p, At(dst), LocSize(dst)) && PlainOk(p, src, LocSize(dst))
       case Xchg(a, b) => LocSize(a) == LocSize(b) && PlainOk(p, At(a), LocSize(a)) && PlainOk(p, At(b), LocSize(a))
       case Push(src) => PlainOk(p, src, 8)
       case Pop(dst) => IsPlace(dst) && LocSize(dst) == 8 && PlainOk(p, At(Slot(PlainSP(p))), 8)
  }

  /** What the instruction does to bytes and flags, by whoever carries it out. A pop into rsp is left with the popped
      value by the processor (SDM Volume 2, POP) and with the raised stack pointer by the executor. */
  function StepBy(w: Writer, p: Plain, i: Instr): (r: Plain)
    requires PlainStepOk(p, i) && (w.Processor? ==> |w.hidden| == NREGS)
  {
    match i
    case Mov(dst, src) => PutBy(w, p, dst, PlainGet(p, src, LocSize(dst)))
    case Op(op, dst, src) =>
      var a, b := PlainGet(p, At(dst), LocSize(dst)), PlainGet(p, src, LocSize(dst));
      var q := if Writes(op) then PutBy(w, p, dst, Alu(AluOp(op), a, b)) else p;
      q.(flags := FlagsOf(op, a, b))
    case Xchg(a, b) =>
      var x, y := PlainGet(p, At(a), LocSize(a)), PlainGet(p, At(b), LocSize(a));
      PutBy(w, PutBy(w, p, a, y), b, x)
    case Push(src) =>
      var v, sp := PlainGet(p, src, 8), Down(PlainSP(p));
      PutPart(PutPart(p, SP_REG, sp), Slot(sp), v)
    case Pop(dst) =>
      var sp := PlainSP(p);
      var v := PlainGet(p, At(Slot(sp)), 8);
      if w.Executor? then PutPart(PutPart(p, dst, v), SP_REG, Up(sp)) else PutPart(PutPart(p, SP_REG, Up(sp)), dst, v)
  }

  /** One step of the plain machine. */
  function PlainStep(p: Plain, i: Instr): Plain
    requires PlainStepOk(p, i)
  {
    StepBy(Processor(NothingHidden()), p, i)
  }

  // ---- when the executor's writes are the plain machine's ----

  predicate Kept(w: Writer, r: nat, a: int)
    requires w.Processor? ==> |w.hidden| == NREGS && r < NREGS
  {
    w.Executor? || a in w.hidden[r]
  }

  /** If the place is the lower half of a register, the bytes of the upper half that are kept are zero. */
  predicate HalfOk(w: Writer, p: Plain, loc: Loc)
    requires |p.regs| == NREGS && IsPlace(loc) && (w.Processor? ==> |w.hidden| == NREGS)
  {
    loc.RegLoc? && loc.part == D ==>
      forall a {:trigger p.regs[loc.reg][a]} ::
        4 <= a < 8 && a in p.regs[loc.reg] && Kept(w, loc.reg, a) ==> p.regs[loc.reg][a] == 0
  }

  /** Nothing shows of the difference between this writer and the plain machine. */
  predicate Exact(w: Writer, p: Plain, i: Instr)
    requires PlainStepOk(p, i) && (w.Processor? ==> |w.hidden| == NREGS)
  {
    match i
    case Mov(dst, _) => HalfOk(w, p, dst)
    case Op(op, dst, _) => Writes(op) ==> HalfOk(w, p, dst)
    case Xchg(a, b) => HalfOk(w, p, a) && HalfOk(w, p, b)
    case Push(_) => true
    case Pop(dst) =>
      w.Executor? && dst.RegLoc? && dst.reg == RSP ==> PlainGet(p, At(Slot(PlainSP(p))), 8) == Up(PlainSP(p))
  }

  lemma PutIff(w: Writer, p: Plain, loc: Loc, bs: seq<byte>)
    requires |p.regs| == NREGS && IsPlace(loc) && |bs| == LocSize(loc) && (w.Processor? ==> |w.hidden| == NREGS)
    ensures PutBy(w, p, loc, bs) == PlainPut(p, loc, bs) <==> HalfOk(w, p, loc)
  {
    if loc.RegLoc? && loc.part == D {
      var n := loc.reg;
      var l, r := PutBy(w, p, loc, bs).regs[n], PlainPut(p, loc, bs).regs[n];
      forall a | a in p.regs[n]
        ensures a in l && a in r && (l[a] == r[a] <==> (4 <= a < 8 && Kept(w, n, a) ==> p.regs[n][a] == 0))
      {}
      assert l.Keys == r.Keys == p.regs[n].Keys;
      if HalfOk(w, p, loc) {
        assert l == r;
      }
    }
  }

  lemma XchgIff(w: Writer, p: Plain, a: Loc, b: Loc, x: seq<byte>, y: seq<byte>)
    requires |p.regs| == NREGS && IsPlace(a) && IsPlace(b) && (w.Processor? ==> |w.hidden| == NREGS)
    requires |x| == |y| == LocSize(a) == LocSize(b)
    ensures PutBy(w, PutBy(w, p, a, y), b, x) == PlainPut(PlainPut(p, a, y), b, x) <==>
            HalfOk(w, p, a) && HalfOk(w, p, b)
  {
    var q, q' := PutBy(w, p, a, y), PlainPut(p, a, y);
    PutIff(w, p, a, y);
    if HalfOk(w, p, a) {
      PutIff(w, q, b, x);
    } else {
      var n := a.reg;
      var k :| 4 <= k < 8 && k in p.regs[n] && Kept(w, n, k) && p.regs[n][k] != 0;
      assert q.regs[n][k] == p.regs[n][k] && q'.regs[n][k] == 0;
      assert PutBy(w, q, b, x).regs[n][k] == p.regs[n][k];
      assert PlainPut(q', b, x).regs[n][k] == 0;
    }
  }

  lemma PopIff(w: Writer, p: Plain, dst: Loc, v: seq<byte>, up: seq<byte>)
    requires |p.regs| == NREGS && IsPlace(dst) && LocSize(dst) == 8 && |v| == |up| == 8 && Mapped(p.regs[RSP], 0, 8)
    ensures PutPart(PutPart(p, dst, v), SP_REG, up) == PutPart(PutPart(p, SP_REG, up), dst, v)
            <==> (dst.RegLoc? && dst.reg == RSP ==> v == up)
  {
    if dst.RegLoc? && dst.reg == RSP {
      var m := p.regs[RSP];
      assert Put(Put(m, 0, v), 0, up) == Put(m, 0, up) && Put(Put(m, 0, up), 0, v) == Put(m, 0, v);
      PutGets(m, v);
      PutGets(m, up);
      hide Put;
      assert PutPart(PutPart(p, dst, v), SP_REG, up).regs[RSP] == Put(m, 0, up);
      assert PutPart(PutPart(p, SP_REG, up), dst, v).regs[RSP] == Put(m, 0, v);
    } else if dst.RegLoc? {
      hide Put;
      var m, n := p.regs[RSP], p.regs[dst.reg];
      assert p.regs[dst.reg := Put(n, 0, v)][RSP := Put(m, 0, up)]
          == p.regs[RSP := Put(m, 0, up)][dst.reg := Put(n, 0, v)];
    }
  }

  lemma PutGets(m: map<int, byte>, v: seq<byte>)
    requires Mapped(m, 0, |v|)
    ensures Mapped(Put(m, 0, v), 0, |v|) && Get(Put(m, 0, v), 0, |v|) == v
  {}

  /** A writer's step is the plain step if and only if nothing shows of the difference. */
  lemma ExactIff(w: Writer, p: Plain, i: Instr)
    requires PlainStepOk(p, i) && (w.Processor? ==> |w.hidden| == NREGS)
    ensures StepBy(w, p, i) == PlainStep(p, i) <==> Exact(w, p, i)
  {
    hide PutBy, PutPart, PlainGet, HalfOk, Mapped, Alu, FlagsOf, Up, Down, Slot, PlainSP;
    match i {
      case Mov(dst, src) => PutIff(w, p, dst, PlainGet(p, src, LocSize(dst)));
      case Op(op, dst, src) =>
        var v := Alu(AluOp(op), PlainGet(p, At(dst), LocSize(dst)), PlainGet(p, src, LocSize(dst)));
        PutIff(w, p, dst, v);
      case Xchg(a, b) =>
        XchgIff(w, p, a, b, PlainGet(p, At(a), LocSize(a)), PlainGet(p, At(b), LocSize(a)));
      case Push(_) =>
      case Pop(dst) =>
        PopIff(w, p, dst, PlainGet(p, At(Slot(PlainSP(p))), 8), Up(PlainSP(p)));
    }
  }

  // ---- the symbolic machine ----

  ghost predicate OperandLive(m: Machine, o: Operand)
    requires |m.regs| == NREGS && (o.At? ==> IsPlace(o.loc))
  {
    o.At? && LiveAt(m, o.loc)
  }

  /** The concrete value that goes with a cell list: registers leave the upper bytes zero, memory extends the sign. */
  function ListConc(m: Machine, loc: Loc): (v: seq<byte>)
    requires MachineOk(m) && PlaceOk(m, loc)
    ensures |v| == 8
  {
    PlaceFacts(m, loc);
    if loc.RegLoc? then Low(ZEROS, ConcAt(m, loc)) else SignExtend(ConcAt(m, loc))
  }

  ghost function CellsAt(m: Machine, loc: Loc): seq<Piece>
    requires |m.regs| == NREGS && IsPlace(loc)
  {
    ReadCells(StoreAt(m, loc), Lo(loc), LocSize(loc))
  }

  /** What a move carries: a cell list with its concrete value, or a concrete value alone. */
  datatype Moved = Listed(ps: seq<Piece>, v: seq<byte>) | Plainly(v: seq<byte>)

  ghost function Fetch(m: Machine, src: Operand, n: nat): (d: Moved)
    requires MachineOk(m) && OperandOk(m, src, n)
    ensures |d.v| == 8
  {
    OperandFacts(m, src, n);
    if OperandLive(m, src) then Listed(CellsAt(m, src.loc), ListConc(m, src.loc)) else Plainly(ReadValue(m, src, n).v)
  }

  lemma OperandFacts(m: Machine, src: Operand, n: nat)
    requires MachineOk(m) && OperandOk(m, src, n)
    ensures |m.regs| == NREGS && n <= 8
    ensures src.At? ==> PlaceOk(m, src.loc) && LocSize(src.loc) == n && IsPlace(src.loc)
    ensures OperandLive(m, src) ==> CellsAt(m, src.loc) != []
    ensures !OperandLive(m, src) ==> ReadValue(m, src, n).Con? && |ReadValue(m, src, n).v| == 8
  {
    assert |m.regs| == NREGS;
    hide MachineOk, PlaceOk, Assemble, LiveAt;
    if src.At? {
      PlaceFacts(m, src.loc);
    }
    if OperandLive(m, src) {
      CellsFit(m, src.loc);
    }
  }

  /** A move that carries this may go to the place. */
  ghost predicate PutOk(m: Machine, dst: Loc, d: Moved) {
    && MachineOk(m) && PlaceOk(m, dst) && IsPlace(dst) && |d.v| == 8
    && (d.Listed? ==> SymOk(dst) && ListOk(m, dst, d.ps))
  }

  function PutMoved(m: Machine, dst: Loc, d: Moved): (r: Machine)
    requires |m.regs| == NREGS && IsPlace(dst) && LocSize(dst) <= 8 && |d.v| == 8 && (d.Listed? ==> d.ps != [])
    ensures |r.regs| == NREGS && r.flags == m.flags
  {
    match d
    case Listed(ps, v) => SetCells(m, dst, ps, v)
    case Plainly(v) => SetCon(m, dst, v)
  }

  lemma PutFacts(m: Machine, dst: Loc, d: Moved)
    requires PutOk(m, dst, d)
    ensures |m.regs| == NREGS && 1 <= LocSize(dst) <= 8 && IsPlace(dst) && (d.Listed? ==> d.ps != [] && Proper(d.ps))
  {
    PlaceFacts(m, dst);
  }

  /** The bytes that a move carries. */
  function MovedBytes(d: Moved, n: nat, asg: Assignment): seq<byte>
    requires n <= 8 == |d.v| && (d.Listed? ==> Proper(d.ps))
  {
    match d
    case Listed(ps, v) => Overlay(ps, 0, n, v[..n], asg)
    case Plainly(v) => v[..n]
  }

  /** A move carries what its source means. */
  lemma FetchMeaning(m: Machine, src: Operand, n: nat, asg: Assignment)
    requires MachineOk(m) && OperandOk(m, src, n) && n >= 1
    ensures n <= 8 && PlainOk(Meaning(m, asg), src, n)
    ensures var d := Fetch(m, src, n);
            (d.Listed? ==> Proper(d.ps)) && MovedBytes(d, n, asg) == PlainGet(Meaning(m, asg), src, n)
  {
    hide MachineOk, PlaceOk, Assemble, LiveAt, Meaning, PlainGet, ReadValue, Overlay, OperandOk, PlainOk, CellsAt, Low,
         SignExtend, ListConc;
    OperandFacts(m, src, n);
    if OperandLive(m, src) {
      LiveMove(m, src.loc, n, asg);
    } else {
      ReadMeaning(m, src, n, asg);
    }
  }

  /** After a move the destination means what was carried. */
  lemma PutMeaning(m: Machine, dst: Loc, d: Moved, asg: Assignment)
    requires PutOk(m, dst, d)
    ensures MachineOk(m) && IsPlace(dst) && 1 <= LocSize(dst) <= 8 && (d.Listed? ==> d.ps != [] && Proper(d.ps))
    ensures var r := PutMoved(m, dst, d);
            && MachineOk(r) && SamePlaces(m, r)
            && Meaning(r, asg) == PutPart(Meaning(m, asg), dst, MovedBytes(d, LocSize(dst), asg))
  {
    hide MachineOk, PlaceOk, ListOk, Meaning, PutPart, SetCells, SetCon, SamePlaces, Overlay, Proper;
    PutFacts(m, dst, d);
    match d
    case Listed(ps, v) => CellsMeaning(m, dst, ps, v, asg);
    case Plainly(v) => ConMeaning(m, dst, v, asg);
  }

  lemma LiveMove(m: Machine, loc: Loc, n: nat, asg: Assignment)
    requires MachineOk(m) && OperandOk(m, At(loc), n) && IsPlace(loc)
    ensures PlaceOk(m, loc) && n <= 8 && Proper(CellsAt(m, loc)) && PlainOk(Meaning(m, asg), At(loc), n)
    ensures Overlay(CellsAt(m, loc), 0, n, ListConc(m, loc)[..n], asg) == PlainGet(Meaning(m, asg), At(loc), n)
  {
    hide MachineOk, WFStore, Agree, Denote, Get, Overlay, ReadCells, Mapped, InRange, CrossesChunk, MeaningOfFlags,
         Tidy, Proper, Live;
    PlaceFacts(m, loc);
    ReadCellsMeaning(StoreAt(m, loc), Lo(loc), n, asg);
    TidyProper(CellsAt(m, loc));
    MeaningAt(m, loc, asg);
  }

  /** Some operand of the instruction, or the stack slot it uses, is symbolic: the executor takes it over. */
  ghost predicate HasSymOperand(m: Machine, i: Instr)
    requires PlainParts(m, i)
  {
    match i
    case Mov(dst, src) => OperandLive(m, src) || LiveAt(m, dst)
    case Op(_, dst, src) => OperandLive(m, src) || LiveAt(m, dst)
    case Xchg(a, b) => LiveAt(m, a) || LiveAt(m, b)
    case Push(src) => OperandLive(m, src) || LiveAt(m, Slot(Down(SP(m))))
    case Pop(dst) => LiveAt(m, dst) || LiveAt(m, Slot(SP(m)))
  }

  /** The places an instruction names exist, with operands of one width. */
  predicate PlainParts(m: Machine, i: Instr) {
    && |m.regs| == NREGS && Mapped(m.regs[RSP].conc, 0, 8)
    && match i
       case Mov(dst, src) => IsPlace(dst) && PlaceOk(m, dst) && Named(src) && OperandOk(m, src, LocSize(dst))
       case Op(_, dst, src) => IsPlace(dst) && PlaceOk(m, dst) && Named(src) && OperandOk(m, src, LocSize(dst))
       case Xchg(a, b) => IsPlace(a) && IsPlace(b) && PlaceOk(m, a) && PlaceOk(m, b) && LocSize(a) == LocSize(b)
       case Push(src) => Named(src) && OperandOk(m, src, 8) && PlaceOk(m, Slot(Down(SP(m))))
       case Pop(dst) => IsPlace(dst) && PlaceOk(m, dst) && LocSize(dst) == 8 && PlaceOk(m, Slot(SP(m)))
  }

  predicate Named(o: Operand) { o.At? ==> IsPlace(o.loc) }

  /** What the executor asserts, and what its caller must see to, before a step. A concrete value is moved or exchanged
      over a symbolic one only in a register; a symbolic value is read from one chunk of memory and goes to one half
      chunk; a cell list leaves nothing stale; the stack pointer is concrete. */
  ghost predicate StepOk(m: Machine, i: Instr) {
    && MachineOk(m) && PlainParts(m, i)
    && match i
       case Mov(dst, src) =>
         && Readable(m, src) && PutOk(m, dst, Fetch(m, src, LocSize(dst)))
         && (!OperandLive(m, src) && LiveAt(m, dst) ==> dst.RegLoc?)
       case Op(op, dst, src) =>
         Readable(m, At(dst)) && Readable(m, src) && (Writes(op) && HasSymOperand(m, i) ==> SymOk(dst))
       case Xchg(a, b) =>
         && Readable(m, At(a)) && Readable(m, At(b))
         && (LiveAt(m, a) ==> SymOk(b) && (!LiveAt(m, b) ==> a.RegLoc?))
         && (LiveAt(m, b) ==> SymOk(a) && (!LiveAt(m, a) ==> b.RegLoc?))
       case Push(src) => !LiveAt(m, SP_REG) && Readable(m, src) && PutOk(m, Slot(Down(SP(m))), Fetch(m, src, 8))
       case Pop(dst) =>
         !LiveAt(m, SP_REG) && Readable(m, At(Slot(SP(m)))) && PutOk(m, dst, Fetch(m, At(Slot(SP(m))), 8))
  }

  /** Writing back what an operand read gave. */
  function SetValue(m: Machine, loc: Loc, val: Value): (r: Machine)
    requires |m.regs| == NREGS && IsPlace(loc) && LocSize(loc) <= 8 && (val.Con? ==> |val.v| == 8)
    ensures |r.regs| == NREGS
  {
    match val
    case Con(v) => SetCon(m, loc, v)
    case Symb(e) => SetExpr(m, loc, e)
  }

  lemma SetValueMeaning(m: Machine, loc: Loc, val: Value, n: nat, asg: Assignment)
    requires MachineOk(m) && PlaceOk(m, loc) && LocSize(loc) == n && (val.Con? ==> |val.v| == 8)
    requires val.Symb? ==> WF(val.e) && Width(val.e) == n
    ensures IsPlace(loc) && 1 <= n <= 8 && WF(ExprOf(val, n))
    ensures var r := SetValue(m, loc, val);
            MachineOk(r) && SamePlaces(m, r)
                && Meaning(r, asg) == PutPart(Meaning(m, asg), loc, Eval(ExprOf(val, n), asg))
  {
    hide MachineOk, PlaceOk, Meaning, PutPart, SetCon, SetExpr, SamePlaces, Num, Eval;
    PlaceFacts(m, loc);
    match val
    case Con(v) =>
      ConMeaning(m, loc, v, asg);
      ConstIs(v, n, asg);
    case Symb(e) =>
      ExprMeaning(m, loc, e, asg);
  }

  // ---- the executor and the processor ----

  lemma StepFacts(m: Machine, i: Instr)
    requires MachineOk(m) && PlainParts(m, i)
    ensures i.Mov? ==> 1 <= LocSize(i.dst) <= 8
    ensures i.Op? ==> 1 <= LocSize(i.dst) <= 8 && OperandOk(m, At(i.dst), LocSize(i.dst))
    ensures i.Xchg? ==>
              1 <= LocSize(i.a) <= 8 && OperandOk(m, At(i.a), LocSize(i.a)) && OperandOk(m, At(i.b), LocSize(i.a))
  {
    hide MachineOk;
    match i
    case Mov(dst, _) => PlaceFacts(m, dst);
    case Op(_, dst, _) => PlaceFacts(m, dst);
    case Xchg(a, b) => PlaceFacts(m, a); PlaceFacts(m, b);
    case Push(_) =>
    case Pop(_) =>
  }

  /** The step that the symbolic executor makes. */
  ghost function SymStep(m: Machine, i: Instr): (r: Machine)
    requires StepOk(m, i)
  {
    StepFacts(m, i);
    match i
    case Mov(dst, src) =>
      PutFacts(m, dst, Fetch(m, src, LocSize(dst)));
      PutMoved(m, dst, Fetch(m, src, LocSize(dst)))
    case Op(op, dst, src) =>
      var n := LocSize(dst);
      var x, y := ExprOf(ReadValue(m, At(dst), n), n), ExprOf(ReadValue(m, src, n), n);
      var r := if Writes(op) then SetExpr(m, dst, Bin(AluOp(op), x, y)) else m;
      r.(flags := Saved(op, x, y))
    case Xchg(a, b) =>
      var x, y := ReadValue(m, At(a), LocSize(a)), ReadValue(m, At(b), LocSize(a));
      ValueFacts(m, At(a), LocSize(a));
      ValueFacts(m, At(b), LocSize(a));
      SetValue(SetValue(m, a, y), b, x)
    case Push(src) =>
      var d, sp := Fetch(m, src, 8), Down(SP(m));
      PutFacts(m, Slot(sp), d);
      PutMoved(SetCon(m, SP_REG, sp), Slot(sp), d)
    case Pop(dst) =>
      var d, sp := Fetch(m, At(Slot(SP(m))), 8), Up(SP(m));
      PutFacts(m, dst, d);
      SetCon(PutMoved(m, dst, d), SP_REG, sp)
  }

  lemma ValueFacts(m: Machine, o: Operand, n: nat)
    requires MachineOk(m) && OperandOk(m, o, n)
    ensures var val := ReadValue(m, o, n); val.Con? ==> |val.v| == 8
  {
    hide MachineOk, PlaceOk, Assemble, LiveAt;
  }

  /** The step that the processor makes when nothing is symbolic. */
  ghost function NativeStep(m: Machine, i: Instr): (r: Machine)
    requires StepOk(m, i) && !HasSymOperand(m, i)
  {
    StepFacts(m, i);
    match i
    case Mov(dst, src) => SetNative(m, dst, ConcOperand(m, src, LocSize(dst)))
    case Op(op, dst, src) =>
      var a, b := ConcOperand(m, At(dst), LocSize(dst)), ConcOperand(m, src, LocSize(dst));
      var r := if Writes(op) then SetNative(m, dst, Alu(AluOp(op), a, b)) else m;
      r.(flags := Known(FlagsOf(op, a, b)))
    case Xchg(a, b) =>
      var x, y := ConcOperand(m, At(a), LocSize(a)), ConcOperand(m, At(b), LocSize(a));
      SetNative(SetNative(m, a, y), b, x)
    case Push(src) =>
      var v, sp := ConcOperand(m, src, 8), Down(SP(m));
      SetNative(SetNative(m, SP_REG, sp), Slot(sp), v)
    case Pop(dst) =>
      var sp := SP(m);
      SetNative(SetNative(m, SP_REG, Up(sp)), dst, ConcOperand(m, At(Slot(sp)), 8))
  }

  /** The concrete bytes of an operand. */
  function ConcOperand(m: Machine, o: Operand, n: nat): (bs: seq<byte>)
    requires MachineOk(m) && OperandOk(m, o, n)
    ensures |bs| == n
  {
    match o
    case Imm(v) => v[..n]
    case At(loc) => PlaceFacts(m, loc); ConcAt(m, loc)
  }

  /** One instruction, by whichever of the two is called for. */
  ghost function Step(m: Machine, i: Instr): (r: Machine)
    requires StepOk(m, i)
  {
    if HasSymOperand(m, i) then SymStep(m, i) else NativeStep(m, i)
  }

  // ---- simulation ----

  lemma ConcMeaning(m: Machine, o: Operand, n: nat, asg: Assignment)
    requires MachineOk(m) && OperandOk(m, o, n) && Named(o) && n >= 1 && !OperandLive(m, o)
    ensures PlainOk(Meaning(m, asg), o, n) && ConcOperand(m, o, n) == PlainGet(Meaning(m, asg), o, n)
  {
    hide MachineOk, PlaceOk, Meaning, PlainGet, PlainOk, LiveAt, Assemble, SignExtend, Eval, WF, Width;
    ReadMeaning(m, o, n, asg);
    OperandFacts(m, o, n);
  }

  /** A concrete stack pointer is the plain machine's. */
  lemma SPMeaning(m: Machine, asg: Assignment)
    requires MachineOk(m) && |m.regs| == NREGS && !LiveAt(m, SP_REG)
    ensures Mapped(m.regs[RSP].conc, 0, 8) && Mapped(Meaning(m, asg).regs[RSP], 0, 8)
    ensures PlainSP(Meaning(m, asg)) == SP(m)
  {
    ConcMeaning(m, At(SP_REG), 8, asg);
    hide Meaning, MachineOk, LiveAt, Get, Mapped;
  }

  lemma NativeLive(m: Machine, loc: Loc, bs: seq<byte>, l: Loc)
    requires |m.regs| == NREGS && IsPlace(loc) && IsPlace(l)
    ensures LiveAt(SetNative(m, loc, bs), l) <==> LiveAt(m, l)
  {}

  lemma FlagsKept(m: Machine, f: FlagState, asg: Assignment)
    requires MachineOk(m) && (f.Saved? ==> WF(f.r) && WF(f.l) && Width(f.r) == Width(f.l) >= 1)
    ensures MachineOk(m.(flags := f))
    ensures Meaning(m.(flags := f), asg) == Meaning(m, asg).(flags := MeaningOfFlags(f, asg))
  {
    hide StoreOk, Mapped, WF, Width, MeaningOfFlags, Denote;
    var r := m.(flags := f);
    assert MachineOk(r);
    assert forall i :: 0 <= i < NREGS ==> Meaning(r, asg).regs[i] == Meaning(m, asg).regs[i];
    assert Meaning(r, asg).regs == Meaning(m, asg).regs;
  }

  /** The claim of a step: on plain bytes this writer can make it too, and arrives at what the new machine means. */
  ghost predicate Follows(w: Writer, m: Machine, i: Instr, r: Machine, asg: Assignment)
    requires MachineOk(m) && (w.Processor? ==> |w.hidden| == NREGS)
  {
    && MachineOk(r) && SamePlaces(m, r)
    && PlainStepOk(Meaning(m, asg), i) && Meaning(r, asg) == StepBy(w, Meaning(m, asg), i)
  }

  /** Who carries out a step. */
  ghost function WriterOf(m: Machine, i: Instr): (w: Writer)
    requires StepOk(m, i)
    ensures w.Processor? ==> |w.hidden| == NREGS
  {
    if HasSymOperand(m, i) then Executor else Processor(MarksOf(m))
  }

  lemma SymMov(m: Machine, dst: Loc, src: Operand, asg: Assignment)
    requires StepOk(m, Mov(dst, src))
    ensures MachineOk(m) && Follows(Executor, m, Mov(dst, src), SymStep(m, Mov(dst, src)), asg)
  {
    hide MachineOk, PlaceOk, OperandOk, PutOk, Meaning, PutPart, PlainGet, PlainOk, Fetch, PutMoved, MovedBytes,
         OperandLive, LiveAt, Mapped, SamePlaces;
    var i, n := Mov(dst, src), LocSize(dst);
    StepFacts(m, i);
    SPMapped(m, asg);
    FetchMeaning(m, src, n, asg);
    PutMeaning(m, dst, Fetch(m, src, n), asg);
  }

  lemma SPMapped(m: Machine, asg: Assignment)
    requires MachineOk(m)
    ensures |m.regs| == NREGS && |Meaning(m, asg).regs| == NREGS && Mapped(Meaning(m, asg).regs[RSP], 0, 8)
    ensures Mapped(m.regs[RSP].conc, 0, 8)
  {
    MeaningAt(m, SP_REG, asg);
    DenoteKeys(m.regs[RSP], asg);
  }

  lemma SymOpIs(m: Machine, op: FlagOp, dst: Loc, src: Operand)
    requires StepOk(m, Op(op, dst, src))
    ensures MachineOk(m) && PlaceOk(m, dst) && IsPlace(dst) && |m.regs| == NREGS && 1 <= LocSize(dst) <= 8
    ensures OperandOk(m, At(dst), LocSize(dst)) && OperandOk(m, src, LocSize(dst))
    ensures Named(At(dst)) && Readable(m, At(dst)) && Named(src) && Readable(m, src)
    ensures var n := LocSize(dst);
            var x, y := ExprOf(ReadValue(m, At(dst), n), n), ExprOf(ReadValue(m, src, n), n);
            SymStep(m, Op(op, dst, src))
            == (if Writes(op) then SetExpr(m, dst, Bin(AluOp(op), x, y)) else m).(flags := Saved(op, x, y))
  {
    hide MachineOk, SetExpr, ReadValue, LiveAt;
    StepFacts(m, Op(op, dst, src));
  }

  lemma PlainOpIs(p: Plain, op: FlagOp, dst: Loc, src: Operand)
    requires |p.regs| == NREGS && Mapped(p.regs[RSP], 0, 8) && IsPlace(dst)
    requires PlainOk(p, At(dst), LocSize(dst)) && PlainOk(p, src, LocSize(dst))
    ensures var a, b := PlainGet(p, At(dst), LocSize(dst)), PlainGet(p, src, LocSize(dst));
            PlainStepOk(p, Op(op, dst, src))
            && StepBy(Executor, p, Op(op, dst, src))
               == (if Writes(op) then PutPart(p, dst, Alu(AluOp(op), a, b)) else p).(flags := FlagsOf(op, a, b))
  {
    hide PutPart, PlainGet, FlagsOf;
  }

  lemma SavedMeaning(op: FlagOp, x: Expr, y: Expr, asg: Assignment)
    requires WF(x) && WF(y) && Width(x) == Width(y)
    ensures MeaningOfFlags(Saved(op, x, y), asg) == FlagsOf(op, Eval(x, asg), Eval(y, asg))
  {}

  lemma SymOp(m: Machine, op: FlagOp, dst: Loc, src: Operand, asg: Assignment)
    requires StepOk(m, Op(op, dst, src))
    ensures MachineOk(m) && Follows(Executor, m, Op(op, dst, src), SymStep(m, Op(op, dst, src)), asg)
  {
    hide *;
    var n := LocSize(dst);
    SymOpIs(m, op, dst, src);
    SPMapped(m, asg);
    ReadMeaning(m, At(dst), n, asg);
    ReadMeaning(m, src, n, asg);
    var x, y := ExprOf(ReadValue(m, At(dst), n), n), ExprOf(ReadValue(m, src, n), n);
    EvalBin(AluOp(op), x, y, asg);
    SavedMeaning(op, x, y, asg);
    var r := if Writes(op) then SetExpr(m, dst, Bin(AluOp(op), x, y)) else m;
    if Writes(op) {
      ExprMeaning(m, dst, Bin(AluOp(op), x, y), asg);
    }
    FlagsKept(r, Saved(op, x, y), asg);
    SameFlagless(m, r, Saved(op, x, y));
    PlainOpIs(Meaning(m, asg), op, dst, src);
    FollowsIs(Executor, m, Op(op, dst, src), r.(flags := Saved(op, x, y)), asg);
  }

  lemma SameFlagless(m: Machine, r: Machine, f: FlagState)
    requires SamePlaces(m, r) || (r == m && |m.regs| == NREGS)
    ensures SamePlaces(m, r.(flags := f))
  {}

  lemma PlainXchgIs(p: Plain, a: Loc, b: Loc)
    requires |p.regs| == NREGS && Mapped(p.regs[RSP], 0, 8) && IsPlace(a) && IsPlace(b) && LocSize(a) == LocSize(b)
    requires PlainOk(p, At(a), LocSize(a)) && PlainOk(p, At(b), LocSize(a))
    ensures var x, y := PlainGet(p, At(a), LocSize(a)), PlainGet(p, At(b), LocSize(a));
            PlainStepOk(p, Xchg(a, b)) && StepBy(Executor, p, Xchg(a, b)) == PutPart(PutPart(p, a, y), b, x)
  {
    hide PutPart, PlainGet, Mapped;
  }

  lemma SymXchg(m: Machine, a: Loc, b: Loc, asg: Assignment)
    requires StepOk(m, Xchg(a, b))
    ensures MachineOk(m) && Follows(Executor, m, Xchg(a, b), SymStep(m, Xchg(a, b)), asg)
  {
    hide *;
    var n := LocSize(a);
    SymXchgIs(m, a, b);
    SPMapped(m, asg);
    ReadMeaning(m, At(a), n, asg);
    ReadMeaning(m, At(b), n, asg);
    var x, y := ReadValue(m, At(a), n), ReadValue(m, At(b), n);
    SetValueMeaning(m, a, y, n, asg);
    var r := SetValue(m, a, y);
    PlacesKept(m, r);
    SetValueMeaning(r, b, x, n, asg);
    SameTwice(m, r, SetValue(r, b, x));
    PlainXchgIs(Meaning(m, asg), a, b);
    FollowsIs(Executor, m, Xchg(a, b), SetValue(r, b, x), asg);
  }

  lemma SymbOf(val: Value, n: nat)
    ensures val.Symb? ==> ExprOf(val, n) == val.e
  {}

  lemma SameTwice(m: Machine, r: Machine, s: Machine)
    requires SamePlaces(m, r) && SamePlaces(r, s)
    ensures SamePlaces(m, s)
  {}

  lemma SymMovIs(m: Machine, dst: Loc, src: Operand)
    requires StepOk(m, Mov(dst, src))
    ensures MachineOk(m) && PlaceOk(m, dst) && IsPlace(dst) && |m.regs| == NREGS && 1 <= LocSize(dst) <= 8
    ensures OperandOk(m, src, LocSize(dst)) && Named(src) && Readable(m, src)
    ensures var d := Fetch(m, src, LocSize(dst));
            && |d.v| == 8 && (d.Listed? ==> d.ps != [] && SymOk(dst) && ListOk(m, dst, d.ps))
            && SymStep(m, Mov(dst, src)) == if d.Listed? then SetCells(m, dst, d.ps, d.v) else SetCon(m, dst, d.v)
  {
    hide MachineOk, SetCells, SetCon, Fetch, LiveAt, ListOk;
    StepFacts(m, Mov(dst, src));
    PutFacts(m, dst, Fetch(m, src, LocSize(dst)));
  }

  lemma SymXchgIs(m: Machine, a: Loc, b: Loc)
    requires StepOk(m, Xchg(a, b))
    ensures MachineOk(m) && PlaceOk(m, a) && PlaceOk(m, b) && IsPlace(a) && IsPlace(b) && |m.regs| == NREGS
    ensures LocSize(a) == LocSize(b) && 1 <= LocSize(a) <= 8
    ensures OperandOk(m, At(a), LocSize(a)) && OperandOk(m, At(b), LocSize(a))
    ensures Named(At(a)) && Readable(m, At(a)) && Named(At(b)) && Readable(m, At(b))
    ensures var x, y := ReadValue(m, At(a), LocSize(a)), ReadValue(m, At(b), LocSize(a));
            && (x.Con? ==> |x.v| == 8) && (y.Con? ==> |y.v| == 8)
            && (x.Symb? ==> SymOk(b) && WF(x.e) && Width(x.e) == LocSize(b))
            && (y.Symb? ==> SymOk(a) && WF(y.e) && Width(y.e) == LocSize(a))
            && SamePlaces(m, SetValue(m, a, y))
            && SymStep(m, Xchg(a, b)) == SetValue(SetValue(m, a, y), b, x)
            && (HasSymOperand(m, Xchg(a, b)) <==> x.Symb? || y.Symb?)
  {
    hide MachineOk, PlaceOk, SetValue, ReadValue, LiveAt, Meaning, PlainGet, WF, Width, Eval, ExprOf, SamePlaces,
         OperandOk;
    var asg: Assignment := _ => 0;
    var n := LocSize(a);
    StepFacts(m, Xchg(a, b));
    ReadMeaning(m, At(a), n, asg);
    ReadMeaning(m, At(b), n, asg);
    var x, y := ReadValue(m, At(a), n), ReadValue(m, At(b), n);
    SymbOf(x, n);
    SymbOf(y, n);
    SetValueMeaning(m, a, y, n, asg);
  }

  lemma SymPushIs(m: Machine, src: Operand)
    requires StepOk(m, Push(src))
    ensures MachineOk(m) && |m.regs| == NREGS && OperandOk(m, src, 8) && Mapped(m.regs[RSP].conc, 0, 8)
            && !LiveAt(m, SP_REG)
    ensures Named(src) && Readable(m, src)
    ensures var d, sp := Fetch(m, src, 8), Down(SP(m));
            var slot, r := Slot(sp), SetCon(m, SP_REG, sp);
            && |d.v| == 8 && IsPlace(slot) && LocSize(slot) == 8 && PlaceOk(r, slot)
            && (d.Listed? ==> d.ps != [] && SymOk(slot) && ListOk(r, slot, d.ps))
            && SymStep(m, Push(src)) == if d.Listed? then SetCells(r, slot, d.ps, d.v) else SetCon(r, slot, d.v)
  {
    var sp, d := Down(SP(m)), Fetch(m, src, 8);
    var r, slot := SetCon(m, SP_REG, sp), Slot(sp);
    PutFacts(m, slot, d);
    assert slot.MemLoc? && StoreAt(r, slot) == StoreAt(m, slot) && r.mem == m.mem;
    hide MachineOk, SetCells, SetCon, Fetch, LiveAt, Down, SP, Fits, NoStale, Mapped;
  }

  /** The concrete stack pointer as an operand. */
  lemma SPValue(m: Machine)
    requires MachineOk(m) && |m.regs| == NREGS && !LiveAt(m, SP_REG)
    ensures OperandOk(m, At(SP_REG), 8) && Named(At(SP_REG)) && Readable(m, At(SP_REG))
    ensures Mapped(m.regs[RSP].conc, 0, 8) && ReadValue(m, At(SP_REG), 8) == Con(SP(m))
  {
    hide MachineOk, LiveAt;
    PlaceFacts(m, SP_REG);
    assert SignExtend(ConcAt(m, SP_REG)) == ConcAt(m, SP_REG);
  }

  /** Putting a concrete stack pointer leaves a memory destination as good as it was. */
  lemma PutStays(m: Machine, r: Machine, dst: Loc, d: Moved)
    requires PutOk(m, dst, d) && dst.MemLoc? && r.mem == m.mem && MachineOk(r)
    ensures PutOk(r, dst, d)
  {
    hide MachineOk;
  }

  lemma SPPlace(m: Machine)
    requires |m.regs| == NREGS
    ensures PlaceOk(m, SP_REG) && IsPlace(SP_REG) && LocSize(SP_REG) == 8
  {}

  lemma PlainPushIs(p: Plain, src: Operand)
    requires |p.regs| == NREGS && Mapped(p.regs[RSP], 0, 8) && PlainOk(p, src, 8)
    ensures PlainStepOk(p, Push(src))
    ensures var v, sp := PlainGet(p, src, 8), Down(PlainSP(p));
            StepBy(Executor, p, Push(src)) == PutPart(PutPart(p, SP_REG, sp), Slot(sp), v)
  {
    hide PutPart, PlainGet, Down, Mapped;
  }

  lemma PushPut(m: Machine, src: Operand)
    requires StepOk(m, Push(src))
    ensures MachineOk(m) && |m.regs| == NREGS && Mapped(m.regs[RSP].conc, 0, 8) && OperandOk(m, src, 8)
    ensures var d, sp := Fetch(m, src, 8), Down(SP(m));
            var slot, r := Slot(sp), SetCon(m, SP_REG, sp);
            && PutOk(m, slot, d) && slot.MemLoc? && LocSize(slot) == 8 && r.mem == m.mem && (d.Listed? ==> d.ps != [])
            && SymStep(m, Push(src)) == PutMoved(r, slot, d)
  {
    hide MachineOk, Fetch, LiveAt, Down, SP, PlaceOk, ListOk, SetCells, WriteConcrete, Mapped, OperandOk;
    PutFacts(m, Slot(Down(SP(m))), Fetch(m, src, 8));
  }

  lemma SymPush(m: Machine, src: Operand, asg: Assignment)
    requires StepOk(m, Push(src))
    ensures MachineOk(m) && Follows(Executor, m, Push(src), SymStep(m, Push(src)), asg)
  {
    hide *;
    SymPushIs(m, src);
    PushPut(m, src);
    SPMapped(m, asg);
    SPPlace(m);
    SPMeaning(m, asg);
    FetchMeaning(m, src, 8, asg);
    var d, sp := Fetch(m, src, 8), Down(SP(m));
    var r, slot := SetCon(m, SP_REG, sp), Slot(sp);
    ConMeaning(m, SP_REG, sp, asg);
    assert sp[..8] == sp;
    PutStays(m, r, slot, d);
    PutMeaning(r, slot, d, asg);
    SameTwice(m, r, PutMoved(r, slot, d));
    PlainPushIs(Meaning(m, asg), src);
    FollowsIs(Executor, m, Push(src), PutMoved(r, slot, d), asg);
  }

  lemma SymPopIs(m: Machine, dst: Loc)
    requires StepOk(m, Pop(dst))
    ensures MachineOk(m) && |m.regs| == NREGS && IsPlace(dst) && LocSize(dst) == 8 && Mapped(m.regs[RSP].conc, 0, 8)
    ensures PlaceOk(m, Slot(SP(m))) && OperandOk(m, At(Slot(SP(m))), 8) && !LiveAt(m, SP_REG)
    ensures Named(At(Slot(SP(m)))) && Readable(m, At(Slot(SP(m))))
    ensures var d := Fetch(m, At(Slot(SP(m))), 8);
            && PutOk(m, dst, d) && (d.Listed? ==> d.ps != [])
            && SymStep(m, Pop(dst)) == SetCon(PutMoved(m, dst, d), SP_REG, Up(SP(m)))
  {
    hide MachineOk, PutMoved, SetCon, Fetch, LiveAt, Up, SP;
    PutFacts(m, dst, Fetch(m, At(Slot(SP(m))), 8));
  }

  lemma PlainPopIs(p: Plain, dst: Loc)
    requires |p.regs| == NREGS && Mapped(p.regs[RSP], 0, 8) && IsPlace(dst) && LocSize(dst) == 8
    requires PlainOk(p, At(Slot(PlainSP(p))), 8)
    ensures var sp := PlainSP(p);
            PlainStepOk(p, Pop(dst))
            && StepBy(Executor, p, Pop(dst)) == PutPart(PutPart(p, dst, PlainGet(p, At(Slot(sp)), 8)), SP_REG, Up(sp))
  {
    hide PutPart, PlainGet, Up, PlainSP;
  }

  lemma FollowsIs(w: Writer, m: Machine, i: Instr, r: Machine, asg: Assignment)
    requires (w.Processor? ==> |w.hidden| == NREGS) && MachineOk(m) && MachineOk(r) && SamePlaces(m, r)
    requires PlainStepOk(Meaning(m, asg), i) && Meaning(r, asg) == StepBy(w, Meaning(m, asg), i)
    ensures Follows(w, m, i, r, asg)
  {}

  lemma SymPop(m: Machine, dst: Loc, asg: Assignment)
    requires StepOk(m, Pop(dst))
    ensures MachineOk(m) && Follows(Executor, m, Pop(dst), SymStep(m, Pop(dst)), asg)
  {
    hide *;
    SymPopIs(m, dst);
    SPMapped(m, asg);
    SPMeaning(m, asg);
    SPPlace(m);
    var slot, up := Slot(SP(m)), Up(SP(m));
    FetchMeaning(m, At(slot), 8, asg);
    var d := Fetch(m, At(slot), 8);
    PutMeaning(m, dst, d, asg);
    var r := PutMoved(m, dst, d);
    SPPlace(r);
    ConMeaning(r, SP_REG, up, asg);
    assert up[..8] == up;
    SameTwice(m, r, SetCon(r, SP_REG, up));
    PlainPopIs(Meaning(m, asg), dst);
    FollowsIs(Executor, m, Pop(dst), SetCon(r, SP_REG, up), asg);
  }

  lemma NativeMov(m: Machine, dst: Loc, src: Operand, asg: Assignment)
    requires StepOk(m, Mov(dst, src)) && !HasSymOperand(m, Mov(dst, src))
    ensures MachineOk(m) && |m.regs| == NREGS
            && Follows(Processor(MarksOf(m)), m, Mov(dst, src), NativeStep(m, Mov(dst, src)), asg)
  {
    hide MachineOk, PlaceOk, OperandOk, PutOk, Meaning, PutPart, PlainGet, PlainOk, OperandLive, LiveAt, Mapped,
         SamePlaces, ConcOperand, SetNative;
    var i, n := Mov(dst, src), LocSize(dst);
    StepFacts(m, i);
    SPMapped(m, asg);
    ConcMeaning(m, src, n, asg);
    NativeMeaning(m, dst, ConcOperand(m, src, n), asg);
  }

  lemma NativeOp(m: Machine, op: FlagOp, dst: Loc, src: Operand, asg: Assignment)
    requires StepOk(m, Op(op, dst, src)) && !HasSymOperand(m, Op(op, dst, src))
    ensures MachineOk(m) && |m.regs| == NREGS
            && Follows(Processor(MarksOf(m)), m, Op(op, dst, src), NativeStep(m, Op(op, dst, src)), asg)
  {
    var i, n := Op(op, dst, src), LocSize(dst);
    StepFacts(m, i);
    SPMapped(m, asg);
    assert !OperandLive(m, At(dst)) && !OperandLive(m, src);
    hide MachineOk, PlaceOk, OperandOk, Meaning, PutPart, PlainGet, PlainOk, OperandLive, LiveAt, Mapped, SamePlaces,
         ConcOperand, SetNative, FlagsOf, AluOp, Alu;
    ConcMeaning(m, At(dst), n, asg);
    ConcMeaning(m, src, n, asg);
    var a, b := ConcOperand(m, At(dst), n), ConcOperand(m, src, n);
    if Writes(op) {
      NativeMeaning(m, dst, Alu(AluOp(op), a, b), asg);
      FlagsKept(SetNative(m, dst, Alu(AluOp(op), a, b)), Known(FlagsOf(op, a, b)), asg);
      SameFlagless(m, SetNative(m, dst, Alu(AluOp(op), a, b)), Known(FlagsOf(op, a, b)));
    } else {
      FlagsKept(m, Known(FlagsOf(op, a, b)), asg);
      SameFlagless(m, m, Known(FlagsOf(op, a, b)));
    }
  }

  lemma NativeXchg(m: Machine, a: Loc, b: Loc, asg: Assignment)
    requires StepOk(m, Xchg(a, b)) && !HasSymOperand(m, Xchg(a, b))
    ensures MachineOk(m) && |m.regs| == NREGS
            && Follows(Processor(MarksOf(m)), m, Xchg(a, b), NativeStep(m, Xchg(a, b)), asg)
  {
    var i, n := Xchg(a, b), LocSize(a);
    StepFacts(m, i);
    SPMapped(m, asg);
    assert !OperandLive(m, At(a)) && !OperandLive(m, At(b));
    hide MachineOk, PlaceOk, OperandOk, Meaning, PutPart, PlainGet, PlainOk, OperandLive, LiveAt, Mapped, SamePlaces,
         ConcOperand, SetNative;
    ConcMeaning(m, At(a), n, asg);
    ConcMeaning(m, At(b), n, asg);
    var x, y := ConcOperand(m, At(a), n), ConcOperand(m, At(b), n);
    NativeMeaning(m, a, y, asg);
    NativeLive(m, a, y, b);
    var r := SetNative(m, a, y);
    PlacesKept(m, r);
    NativeMeaning(r, b, x, asg);
    SameTwice(m, r, SetNative(r, b, x));
  }

  lemma NativePush(m: Machine, src: Operand, asg: Assignment)
    requires StepOk(m, Push(src)) && !HasSymOperand(m, Push(src))
    ensures MachineOk(m) && |m.regs| == NREGS
            && Follows(Processor(MarksOf(m)), m, Push(src), NativeStep(m, Push(src)), asg)
  {
    SPMapped(m, asg);
    var sp := Down(SP(m));
    var slot := Slot(sp);
    assert slot.MemLoc? && LocSize(slot) == 8 && IsPlace(slot);
    hide MachineOk, PlaceOk, OperandOk, PutOk, Meaning, PutPart, PlainGet, PlainOk, OperandLive, LiveAt, Mapped,
         SamePlaces, ConcOperand, SetNative, SP, PlainSP, Down, Slot;
    SPPlace(m);
    SPMeaning(m, asg);
    ConcMeaning(m, src, 8, asg);
    NativeMeaning(m, SP_REG, sp, asg);
    NativeLive(m, SP_REG, sp, slot);
    var r := SetNative(m, SP_REG, sp);
    PlacesKept(m, r);
    NativeMeaning(r, slot, ConcOperand(m, src, 8), asg);
    SameTwice(m, r, SetNative(r, slot, ConcOperand(m, src, 8)));
  }

  lemma NativePopIs(m: Machine, dst: Loc)
    requires StepOk(m, Pop(dst)) && !HasSymOperand(m, Pop(dst))
    ensures MachineOk(m) && |m.regs| == NREGS && Mapped(m.regs[RSP].conc, 0, 8) && IsPlace(dst)
    ensures IsPlace(Slot(SP(m))) && PlaceOk(m, Slot(SP(m))) && OperandOk(m, At(Slot(SP(m))), 8)
    ensures PlaceOk(m, dst) && LocSize(dst) == 8 && !LiveAt(m, dst) && !LiveAt(m, Slot(SP(m))) && !LiveAt(m, SP_REG)
    ensures NativeStep(m, Pop(dst))
            == SetNative(SetNative(m, SP_REG, Up(SP(m))), dst, ConcOperand(m, At(Slot(SP(m))), 8))
  {
    hide MachineOk, SetNative, ConcOperand, LiveAt, Up, SP, PutOk;
  }

  /** The processor raises the stack pointer before it writes what it popped. */
  lemma PlainPopAs(p: Plain, dst: Loc, h: seq<set<int>>)
    requires |p.regs| == NREGS && Mapped(p.regs[RSP], 0, 8) && IsPlace(dst) && LocSize(dst) == 8 && |h| == NREGS
    requires PlainOk(p, At(Slot(PlainSP(p))), 8)
    ensures PlainStepOk(p, Pop(dst)) && IsPlace(SP_REG) && LocSize(SP_REG) == 8
    ensures var v, q := PlainGet(p, At(Slot(PlainSP(p))), 8), PutBy(Processor(h), p, SP_REG, Up(PlainSP(p)));
            StepBy(Processor(h), p, Pop(dst)) == PutBy(Processor(h), q, dst, v)
  {
    hide PutPart, PlainGet, Up, PlainSP;
  }

  lemma NativePop(m: Machine, dst: Loc, asg: Assignment)
    requires StepOk(m, Pop(dst)) && !HasSymOperand(m, Pop(dst))
    ensures MachineOk(m) && |m.regs| == NREGS
    ensures Follows(Processor(MarksOf(m)), m, Pop(dst), NativeStep(m, Pop(dst)), asg)
  {
    hide *;
    NativePopIs(m, dst);
    SPMapped(m, asg);
    SPMeaning(m, asg);
    SPPlace(m);
    var slot, up := Slot(SP(m)), Up(SP(m));
    NotLive(m, slot);
    ConcMeaning(m, At(slot), 8, asg);
    var v := ConcOperand(m, At(slot), 8);
    NativeMeaning(m, SP_REG, up, asg);
    NativeLive(m, SP_REG, up, dst);
    var r := SetNative(m, SP_REG, up);
    PlacesKept(m, r);
    NativeMeaning(r, dst, v, asg);
    SameTwice(m, r, SetNative(r, dst, v));
    PlainPopAs(Meaning(m, asg), dst, MarksOf(m));
    FollowsIs(Processor(MarksOf(m)), m, Pop(dst), SetNative(r, dst, v), asg);
  }

  lemma NotLive(m: Machine, loc: Loc)
    requires |m.regs| == NREGS && IsPlace(loc)
    ensures Named(At(loc)) && OperandLive(m, At(loc)) == LiveAt(m, loc)
  {}

  lemma StepFollows(m: Machine, i: Instr, asg: Assignment)
    requires StepOk(m, i)
    ensures MachineOk(m) && Follows(WriterOf(m, i), m, i, Step(m, i), asg)
  {
    hide MachineOk, PlainParts, SymStep, NativeStep, HasSymOperand, Follows, LiveAt, PutOk, MarksOf;
    if HasSymOperand(m, i) {
      match i
      case Mov(dst, src) => SymMov(m, dst, src, asg);
      case Op(op, dst, src) => SymOp(m, op, dst, src, asg);
      case Xchg(a, b) => SymXchg(m, a, b, asg);
      case Push(src) => SymPush(m, src, asg);
      case Pop(dst) => SymPop(m, dst, asg);
    } else {
      match i
      case Mov(dst, src) => NativeMov(m, dst, src, asg);
      case Op(op, dst, src) => NativeOp(m, op, dst, src, asg);
      case Xchg(a, b) => NativeXchg(m, a, b, asg);
      case Push(src) => NativePush(m, src, asg);
      case Pop(dst) => NativePop(m, dst, asg);
    }
  }

  /** A step leaves a machine in order that means what its writer's step makes of the old meaning. Under an assignment
      it is the plain step if and only if nothing shows of the writer: of a register whose lower half is written the
      upper half meant zero before, where it is kept, which the executor does with all of it and the processor with its
      symbolic bytes; and the executor popped nothing but the raised stack pointer into rsp. */
  lemma StepSimulates(m: Machine, i: Instr, asg: Assignment)
    requires StepOk(m, i)
    ensures MachineOk(m) && MachineOk(Step(m, i)) && SamePlaces(m, Step(m, i)) && PlainStepOk(Meaning(m, asg), i)
    ensures Meaning(Step(m, i), asg) == StepBy(WriterOf(m, i), Meaning(m, asg), i)
    ensures Meaning(Step(m, i), asg) == PlainStep(Meaning(m, asg), i) <==> Exact(WriterOf(m, i), Meaning(m, asg), i)
  {
    hide MachineOk, StepOk, Step, Meaning, StepBy, PlainStep, Exact, WriterOf, PlainStepOk;
    StepFollows(m, i, asg);
    ExactIff(WriterOf(m, i), Meaning(m, asg), i);
  }

  // ---- straight-line sequences ----

  /** Each step is in order when its turn comes. */
  ghost predicate AllOk(m: Machine, q: seq<Instr>)
    decreases |q|
  {
    q != [] ==> StepOk(m, q[0]) && AllOk(Step(m, q[0]), q[1..])
  }

  ghost function Sequence(m: Machine, q: seq<Instr>): Machine
    requires AllOk(m, q)
    decreases |q|
  {
    hide StepOk, Step;
    if q == [] then m else Sequence(Step(m, q[0]), q[1..])
  }

  /** A sequence may be extended just by a step that is in order where it leads, and then ends where that step leads. */
  lemma {:induction false} SequenceExtends(m: Machine, q: seq<Instr>, i: Instr)
    ensures AllOk(m, q + [i]) <==> AllOk(m, q) && StepOk(Sequence(m, q), i)
    ensures AllOk(m, q + [i]) ==> Sequence(m, q + [i]) == Step(Sequence(m, q), i)
    decreases |q|
  {
    hide StepOk, Step;
    var ys := q + [i];
    if q == [] {
      assert ys[0] == i && ys[1..] == [];
    } else {
      assert ys[0] == q[0] && ys[1..] == q[1..] + [i];
      if StepOk(m, q[0]) {
        SequenceExtends(Step(m, q[0]), q[1..], i);
      }
    }
  }

  /** Under an assignment each step is the plain one when its turn comes. */
  ghost predicate AllExact(m: Machine, q: seq<Instr>, asg: Assignment)
    requires MachineOk(m) && AllOk(m, q)
    decreases |q|
  {
    hide StepOk, Step, MachineOk, Meaning, Exact, PlainStepOk, StepBy;
    if q == [] then true else
    StepSimulates(m, q[0], asg);
    Exact(WriterOf(m, q[0]), Meaning(m, asg), q[0]) && AllExact(Step(m, q[0]), q[1..], asg)
  }

  /** The plain machine makes each step in turn, if it can. */
  function PlainSequence(p: Plain, q: seq<Instr>): Option<Plain>
    decreases |q|
  {
    if q == [] then Some(p)
    else if PlainStepOk(p, q[0]) then PlainSequence(PlainStep(p, q[0]), q[1..])
    else None
  }

  /** Evaluating the final symbolic state at an assignment is running the same instructions on the evaluated initial
      state: the plain machine never gets stuck, and marks and cells agree in every register and in memory. */
  lemma {:induction false} SequenceSimulates(m: Machine, q: seq<Instr>, asg: Assignment)
    requires MachineOk(m) && AllOk(m, q)
    ensures MachineOk(Sequence(m, q))
    ensures AllExact(m, q, asg) ==> PlainSequence(Meaning(m, asg), q) == Some(Meaning(Sequence(m, q), asg))
    decreases |q|
  {
    hide MachineOk, StepOk, Step, Meaning, PlainStep, PlainStepOk, Exact, StepBy, WriterOf;
    if q != [] {
      StepSimulates(m, q[0], asg);
      SequenceSimulates(Step(m, q[0]), q[1..], asg);
    }
  }
}
