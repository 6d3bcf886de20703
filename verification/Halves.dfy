/** Where the executor's register writes show: 32-bit destinations (CPUState.cpp:379-457) and pop into rsp
    (symexec.cpp:1175-1190). */
module Halves {
  import opened Bytes
  import opened Exprs
  import opened Pieces
  import opened Stores
  import opened Branch
  import opened Machines
  import opened Steps

  // ---- 32-bit destinations ----

  /** The upper half of register n means zero, all of it or its marked bytes. */
  ghost predicate UpperZero(m: Machine, n: nat, all: bool, asg: Assignment)
    requires MachineOk(m) && n < NREGS
  {
    forall a :: 4 <= a < 8 && (all || a in m.regs[n].marks) ==> ZeroAt(RegMeaning(m, n, asg), a)
  }

  predicate ZeroAt(c: map<int, byte>, a: int) { a in c && c[a] == 0 }

  ghost predicate PlainUnder(m: Machine, i: Instr, asg: Assignment)
    requires StepOk(m, i)
  {
    StepSimulates(m, i, asg);
    Meaning(Step(m, i), asg) == PlainStep(Meaning(m, asg), i)
  }

  /** The register whose lower half the place is. */
  function HalfOf(loc: Loc): set<nat> {
    if loc.RegLoc? && loc.part == D then {loc.reg} else {}
  }

  /** The registers of which the instruction writes the lower half. */
  function HalvesWritten(i: Instr): set<nat> {
    match i
    case Mov(dst, _) => HalfOf(dst)
    case Op(op, dst, _) => if Writes(op) then HalfOf(dst) else {}
    case Xchg(a, b) => HalfOf(a) + HalfOf(b)
    case Push(_) => {}
    case Pop(dst) => HalfOf(dst)
  }

  /** The upper halves that the instruction leaves where the plain machine clears them mean zero. */
  ghost predicate UppersZero(m: Machine, i: Instr, asg: Assignment)
    requires MachineOk(m) && PlainParts(m, i)
  {
    forall n :: n in HalvesWritten(i) ==> n < NREGS && UpperZero(m, n, HasSymOperand(m, i), asg)
  }

  lemma StepPlainOk(m: Machine, i: Instr, asg: Assignment)
    requires StepOk(m, i)
    ensures MachineOk(m) && |m.regs| == NREGS && PlainStepOk(Meaning(m, asg), i)
  {
    hide StepOk, MachineOk, PlainStepOk;
    StepSimulates(m, i, asg);
    SPMapped(m, asg);
  }

  ghost predicate HalfZero(m: Machine, i: Instr, loc: Loc, asg: Assignment)
    requires MachineOk(m) && PlainParts(m, i)
  {
    forall n :: n in HalfOf(loc) ==> n < NREGS && UpperZero(m, n, HasSymOperand(m, i), asg)
  }

  lemma WriterIs(m: Machine, i: Instr)
    requires StepOk(m, i)
    ensures MachineOk(m) && PlainParts(m, i) && (WriterOf(m, i).Executor? <==> HasSymOperand(m, i))
  {
    hide HasSymOperand, PlainParts, MachineOk;
  }

  lemma KeptIs(m: Machine, i: Instr, n: nat)
    requires StepOk(m, i) && n < NREGS
    ensures |m.regs| == NREGS
    ensures forall a :: Kept(WriterOf(m, i), n, a) <==> HasSymOperand(m, i) || a in m.regs[n].marks
  {
    hide HasSymOperand, PlainParts;
  }

  lemma RegAt(m: Machine, n: nat, asg: Assignment)
    requires MachineOk(m) && n < NREGS
    ensures |m.regs| == |Meaning(m, asg).regs| == NREGS
    ensures Meaning(m, asg).regs[n] == RegMeaning(m, n, asg) && Mapped(RegMeaning(m, n, asg), 0, 8)
  {
    hide WFStore, Agree, Denote;
    MeaningAt(m, RegLoc(n, D), asg);
    DenoteKeys(m.regs[n], asg);
  }

  lemma HalfAt(m: Machine, i: Instr, n: nat, asg: Assignment)
    requires StepOk(m, i) && n < NREGS
    ensures MachineOk(m) && PlainParts(m, i) && |Meaning(m, asg).regs| == NREGS
    ensures HalfOk(WriterOf(m, i), Meaning(m, asg), RegLoc(n, D)) <==> UpperZero(m, n, HasSymOperand(m, i), asg)
  {
    hide StepOk, MachineOk, PlainParts, HasSymOperand, WriterOf, Meaning, RegMeaning, HalfOk, ZeroAt, Kept, Mapped;
    WriterIs(m, i);
    KeptIs(m, i, n);
    RegAt(m, n, asg);
    HalfUpper(WriterOf(m, i), Meaning(m, asg), n, m.regs[n].marks, HasSymOperand(m, i));
  }

  lemma PlaceMeans(m: Machine, i: Instr, loc: Loc, asg: Assignment)
    requires StepOk(m, i) && IsPlace(loc)
    ensures MachineOk(m) && PlainParts(m, i) && |Meaning(m, asg).regs| == NREGS
    ensures HalfOk(WriterOf(m, i), Meaning(m, asg), loc) <==> HalfZero(m, i, loc, asg)
  {
    hide StepOk, MachineOk, PlainParts, HasSymOperand, WriterOf, Meaning, UpperZero, Kept;
    HalfAt(m, i, if loc.RegLoc? then loc.reg else 0, asg);
    assert loc.RegLoc? && loc.part == D ==> loc == RegLoc(loc.reg, D) && HalfOf(loc) == {loc.reg};
  }

  /** What is asked of a writer, place by place. */
  lemma ExactHalves(w: Writer, p: Plain, i: Instr)
    requires PlainStepOk(p, i) && (w.Processor? ==> |w.hidden| == NREGS) && (i == Pop(SP_REG) ==> w.Processor?)
    ensures |p.regs| == NREGS
    ensures i.Mov? || i.Op? ==> IsPlace(i.dst)
    ensures i.Mov? ==> (Exact(w, p, i) <==> HalfOk(w, p, i.dst))
    ensures i.Op? ==> (Exact(w, p, i) <==> (Writes(i.op) ==> HalfOk(w, p, i.dst)))
    ensures i.Xchg? ==> IsPlace(i.a) && IsPlace(i.b) && (Exact(w, p, i) <==> HalfOk(w, p, i.a) && HalfOk(w, p, i.b))
    ensures i.Push? || i.Pop? ==> Exact(w, p, i)
  {
    hide HalfOk, PlainGet, PlainSP, Up, Slot;
  }

  lemma UppersAt(m: Machine, i: Instr, asg: Assignment)
    requires MachineOk(m) && PlainParts(m, i)
    ensures i.Mov? ==> (UppersZero(m, i, asg) <==> HalfZero(m, i, i.dst, asg))
    ensures i.Op? ==> (UppersZero(m, i, asg) <==> (Writes(i.op) ==> HalfZero(m, i, i.dst, asg)))
    ensures i.Xchg? ==> (UppersZero(m, i, asg) <==> HalfZero(m, i, i.a, asg) && HalfZero(m, i, i.b, asg))
    ensures i.Push? || i.Pop? ==> UppersZero(m, i, asg)
    ensures forall n :: HalvesWritten(i) == {n} && n < NREGS ==>
              (UppersZero(m, i, asg) <==> UpperZero(m, n, HasSymOperand(m, i), asg))
  {
    hide MachineOk, UpperZero, HasSymOperand, PlaceOk, OperandOk, SP, Slot, Down, Mapped;
  }

  /** Every instruction with up to two destinations; pop into rsp only by the processor. */
  lemma HalfMeans(m: Machine, i: Instr, asg: Assignment)
    requires StepOk(m, i) && (i == Pop(SP_REG) ==> !HasSymOperand(m, i))
    ensures MachineOk(m) && PlainStepOk(Meaning(m, asg), i)
    ensures Exact(WriterOf(m, i), Meaning(m, asg), i) <==> UppersZero(m, i, asg)
  {
    hide *;
    StepPlainOk(m, i, asg);
    var w, p := WriterOf(m, i), Meaning(m, asg);
    WriterIs(m, i);
    ExactHalves(w, p, i);
    UppersAt(m, i, asg);
    match i
    case Mov(dst, _) => PlaceMeans(m, i, dst, asg);
    case Op(_, dst, _) => PlaceMeans(m, i, dst, asg);
    case Xchg(a, b) =>
      PlaceMeans(m, i, a, asg);
      PlaceMeans(m, i, b, asg);
    case _ =>
  }

  lemma HalfUpper(w: Writer, p: Plain, n: nat, marks: set<int>, all: bool)
    requires |p.regs| == NREGS && n < NREGS && (w.Processor? ==> |w.hidden| == NREGS) && Mapped(p.regs[n], 0, 8)
    requires forall a :: 4 <= a < 8 ==> (Kept(w, n, a) <==> all || a in marks)
    ensures HalfOk(w, p, RegLoc(n, D)) <==> forall a :: 4 <= a < 8 && (all || a in marks) ==> ZeroAt(p.regs[n], a)
  {
    hide Kept;
    forall a | 4 <= a < 8
      ensures a in p.regs[n] && (Kept(w, n, a) <==> all || a in marks) && (ZeroAt(p.regs[n], a) <==> p.regs[n][a] == 0)
    {}
  }

  /** A step is the plain step under every assignment if and only if, under every assignment, the upper half of each
      register whose lower half it writes meant zero before: all of it when the executor makes the step, its marked
      bytes when the processor does. */
  lemma HalfWrite(m: Machine, i: Instr)
    requires StepOk(m, i) && (i == Pop(SP_REG) ==> !HasSymOperand(m, i))
    ensures (forall asg: Assignment :: PlainUnder(m, i, asg)) <==> (forall asg: Assignment :: UppersZero(m, i, asg))
  {
    forall asg: Assignment ensures PlainUnder(m, i, asg) <==> UppersZero(m, i, asg) {
      HalfMeans(m, i, asg);
      PlainUnderIs(m, i, asg);
      hide *;
    }
    hide *;
  }

  // ---- mov eax, ebx ----

  const RAX := 10
  const RBX := 5

  /** A register of ones, concrete or with an object in its lower half. */
  const ONES: map<int, byte> := map[0 := 255, 1 := 255, 2 := 255, 3 := 255, 4 := 255, 5 := 255, 6 := 255, 7 := 255]

  function Concrete(): Store { Store({}, [], ONES) }
  function Half(obj: Sym): Store { Store(Range(0, 4), [Piece(0, 4, UDef(obj))], ONES) }

  /** All registers hold ones; rbx is given. */
  function OnesMachine(rbx: Store): (m: Machine)
    ensures |m.regs| == NREGS && m.regs[RAX] == Concrete() && m.regs[RBX] == rbx && m.flags.Known?
  {
    Machine(seq(NREGS, i requires 0 <= i < NREGS => if i == RBX then rbx else Concrete()),
            Store({}, [], map[]), Known(Flags(false, false, false, false)))
  }

  const MOV := Mov(RegLoc(RAX, D), At(RegLoc(RBX, D)))

  lemma HalfRead(obj: Sym)
    requires obj.size == 4
    ensures Live(Half(obj), 0, 4) && ReadCells(Half(obj), 0, 4) == [Piece(0, 4, UDef(obj))]
    ensures Fits([Piece(0, 4, UDef(obj))], 0, 4) && NoStale(Concrete(), [Piece(0, 4, UDef(obj))], 0, 4)
  {
    var p := Piece(0, 4, UDef(obj));
    assert Inside(0, 0, 4);
    assert Window([p], 0, 4) == [p] by { assert [p][1..] == []; }
    assert Shift([p], 0) == [p];
  }

  lemma HalfStep(obj: Sym)
    requires obj.size == 4
    ensures StepOk(OnesMachine(Half(obj)), MOV) && HasSymOperand(OnesMachine(Half(obj)), MOV)
  {
    var m, src := OnesMachine(Half(obj)), RegLoc(RBX, D);
    HalfRead(obj);
    assert Mapped(m.regs[RSP].conc, 0, 8);
    hide MachineOk, OnesMachine, Live, ReadCells, Fits, NoStale, ListConc, Half, Concrete, Mapped;
    assert PlainParts(m, MOV);
    assert LiveAt(m, src) && CellsAt(m, src) == [Piece(0, 4, UDef(obj))];
    OperandFacts(m, At(src), 4);
    assert Fetch(m, At(src), 4).Listed? && Fetch(m, At(src), 4).ps == [Piece(0, 4, UDef(obj))];
    assert ListOk(m, RegLoc(RAX, D), [Piece(0, 4, UDef(obj))]);
    hide Fetch, ListOk, PlainParts, LiveAt, CellsAt;
    assert OperandLive(m, At(src));
  }

  lemma MovIs()
    ensures HalvesWritten(MOV) == {RAX} && 0 <= RAX < NREGS && MOV.Mov?
  {}

  /** mov eax, ebx with ebx symbolic and rax all ones: the executor leaves the upper half of rax, the plain machine
      clears it, under every assignment. */
  lemma SymbolicHalfShows(obj: Sym, asg: Assignment)
    requires obj.size == 4
    ensures StepOk(OnesMachine(Half(obj)), MOV) && !PlainUnder(OnesMachine(Half(obj)), MOV, asg)
  {
    var m := OnesMachine(Half(obj));
    HalfStep(obj);
    MovIs();
    HalfMeans(m, MOV, asg);
    StepSimulates(m, MOV, asg);
    hide StepOk, Step, Meaning, MachineOk, HasSymOperand, PlainStep, StepBy, PlainStepOk, OnesMachine, Exact,
         RegMeaning, Half;
    assert 7 in m.regs[RAX].marks || 7 !in m.regs[RAX].marks;
    assert ONES[7] == 255;
  }

  // ---- mov ebx, 0 ----

  function Upper(obj: Sym): Store { Store(Range(4, 4), [Piece(4, 4, UDef(obj))], ONES) }

  const CLEAR := Mov(RegLoc(RBX, D), Imm(ZEROS))

  lemma UpperOk(obj: Sym)
    requires obj.size == 4
    ensures StoreOk(Upper(obj)) && Mapped(Upper(obj).conc, 0, 8) && !Live(Upper(obj), 0, 4)
  {
    OnePiece(4, 4, UDef(obj));
  }

  lemma UpperStep(obj: Sym)
    requires obj.size == 4
    ensures MachineOk(OnesMachine(Upper(obj)))
    ensures StepOk(OnesMachine(Upper(obj)), CLEAR) && !HasSymOperand(OnesMachine(Upper(obj)), CLEAR)
  {
    var m := OnesMachine(Upper(obj));
    UpperOk(obj);
    assert MachineOk(m) by { hide StoreOk, Mapped, Upper, Concrete; }
    assert Mapped(m.regs[RSP].conc, 0, 8);
    hide MachineOk, OnesMachine, Live, Upper, Concrete, Mapped;
    assert PlainParts(m, CLEAR) && !LiveAt(m, RegLoc(RBX, D));
  }

  lemma UpperMeaning(obj: Sym, asg: Assignment, k: nat)
    requires obj.size == 4 && MachineOk(OnesMachine(Upper(obj))) && k < 4
    ensures 4 + k in RegMeaning(OnesMachine(Upper(obj)), RBX, asg) && 4 + k in OnesMachine(Upper(obj)).regs[RBX].marks
    ensures RegMeaning(OnesMachine(Upper(obj)), RBX, asg)[4 + k] == ToBytes(asg(obj), 4)[k]
  {
    hide OnesMachine, MachineOk, ToBytes;
    UpperOk(obj);
    OnePieceBytes(4, 4, UDef(obj), asg);
    assert Inside(4 + k, 4, 4);
  }

  /** mov ebx, 0 by the processor with an object in the upper half of rbx: its value stays, so the step is the plain one
      exactly under the assignments that make it zero. */
  lemma NativeHalfShows(obj: Sym, asg: Assignment)
    requires obj.size == 4
    ensures StepOk(OnesMachine(Upper(obj)), CLEAR) && !HasSymOperand(OnesMachine(Upper(obj)), CLEAR)
    ensures PlainUnder(OnesMachine(Upper(obj)), CLEAR, asg) <==> ToBytes(asg(obj), 4) == [0, 0, 0, 0]
  {
    hide *;
    var m := OnesMachine(Upper(obj));
    UpperStep(obj);
    ClearIs();
    HalfMeans(m, CLEAR, asg);
    StepSimulates(m, CLEAR, asg);
    PlainUnderIs(m, CLEAR, asg);
    WriterIs(m, CLEAR);
    UppersAt(m, CLEAR, asg);
    UpperZeroIs(obj, asg);
  }

  lemma ClearIs()
    ensures HalvesWritten(CLEAR) == {RBX} && 0 <= RBX < NREGS && CLEAR.Mov?
  {}

  lemma PlainUnderIs(m: Machine, i: Instr, asg: Assignment)
    requires StepOk(m, i)
    ensures MachineOk(m) && PlainStepOk(Meaning(m, asg), i)
    ensures PlainUnder(m, i, asg) <==> Exact(WriterOf(m, i), Meaning(m, asg), i)
  {
    hide StepOk, Step, MachineOk, Meaning, PlainStepOk, PlainStep, StepBy, Exact, WriterOf;
    StepSimulates(m, i, asg);
  }

  lemma UpperZeroIs(obj: Sym, asg: Assignment)
    requires obj.size == 4 && MachineOk(OnesMachine(Upper(obj)))
    ensures RBX < NREGS && |ToBytes(asg(obj), 4)| == 4
    ensures UpperZero(OnesMachine(Upper(obj)), RBX, false, asg) <==> ToBytes(asg(obj), 4) == [0, 0, 0, 0]
  {
    hide MachineOk, OnesMachine, RegMeaning, Upper, ToBytes, ZeroAt;
    var m, bs := OnesMachine(Upper(obj)), ToBytes(asg(obj), 4);
    forall a | 4 <= a < 8
      ensures a in RegMeaning(m, RBX, asg) && a in m.regs[RBX].marks && RegMeaning(m, RBX, asg)[a] == bs[a - 4]
    {
      UpperMeaning(obj, asg, a - 4);
    }
    UpperBytes(RegMeaning(m, RBX, asg), bs, m.regs[RBX].marks);
  }

  lemma UpperBytes(c: map<int, byte>, bs: seq<byte>, marks: set<int>)
    requires |bs| == 4 && forall a :: 4 <= a < 8 ==> a in c && a in marks && c[a] == bs[a - 4]
    ensures (forall a :: 4 <= a < 8 && (false || a in marks) ==> ZeroAt(c, a)) <==> bs == [0, 0, 0, 0]
  {
    assert bs[0] == c[4] && bs[1] == c[5] && bs[2] == c[6] && bs[3] == c[7];
    assert ZeroAt(c, 4) == (bs[0] == 0) && ZeroAt(c, 5) == (bs[1] == 0) && ZeroAt(c, 6) == (bs[2] == 0)
        && ZeroAt(c, 7) == (bs[3] == 0);
  }

  // ---- pop into rsp ----

  lemma PopExact(w: Writer, p: Plain)
    requires PlainStepOk(p, Pop(SP_REG)) && (w.Processor? ==> |w.hidden| == NREGS)
    ensures Exact(w, p, Pop(SP_REG)) <==> (w.Executor? ==> PlainGet(p, At(Slot(PlainSP(p))), 8) == Up(PlainSP(p)))
    ensures w.Executor? ==>
              Mapped(StepBy(w, p, Pop(SP_REG)).regs[RSP], 0, 8) && PlainSP(StepBy(w, p, Pop(SP_REG))) == Up(PlainSP(p))
    ensures Mapped(PlainStep(p, Pop(SP_REG)).regs[RSP], 0, 8)
    ensures PlainSP(PlainStep(p, Pop(SP_REG))) == PlainGet(p, At(Slot(PlainSP(p))), 8)
  {
    hide Put, Get, Mapped, PlainGet, Up, Slot;
    var sp, m := PlainSP(p), p.regs[RSP];
    var v := PlainGet(p, At(Slot(sp)), 8);
    PutGets(m, v);
    PutGets(m, Up(sp));
    PutGets(Put(m, 0, v), Up(sp));
    PutGets(Put(m, 0, Up(sp)), v);
  }

  /** The slot holds the raised stack pointer. */
  predicate PopsRaised(p: Plain)
    requires PlainStepOk(p, Pop(SP_REG))
  {
    PlainGet(p, At(Slot(PlainSP(p))), 8) == Up(PlainSP(p))
  }

  /** Pop into rsp by the executor, which leaves the raised stack pointer where the plain machine has the popped value:
      the step is the plain one if and only if the two are equal. */
  lemma PopIntoRsp(m: Machine, asg: Assignment)
    requires StepOk(m, Pop(SP_REG)) && HasSymOperand(m, Pop(SP_REG))
    ensures MachineOk(m) && PlainStepOk(Meaning(m, asg), Pop(SP_REG))
    ensures PlainUnder(m, Pop(SP_REG), asg) <==> PopsRaised(Meaning(m, asg))
  {
    hide StepOk, Step, MachineOk, HasSymOperand, StepBy, PlainStepOk, Meaning, Exact, PlainStep, PlainSP, PlainGet, Up,
         Slot;
    StepSimulates(m, Pop(SP_REG), asg);
    PopExact(Executor, Meaning(m, asg));
  }

  // ---- pop rsp ----

  /** The stack pointer is 0x1000 and the slot there holds an object. */
  function Pushed(obj: Sym): Store {
    Store(Range(0x1000, 8), [Piece(0x1000, 8, UDef(obj))], map a | a in Range(0x1000, 8) :: 0)
  }

  function Pointer(): Store {
    var sp := ToBytes(0x1000, 8);
    Store({}, [], map a | 0 <= a < 8 :: sp[a])
  }

  function StackMachine(obj: Sym): (m: Machine)
    ensures |m.regs| == NREGS && m.regs[RSP] == Pointer() && m.mem == Pushed(obj) && m.flags.Known?
    ensures forall i :: 0 <= i < NREGS && i != RSP ==> m.regs[i] == Concrete()
  {
    Machine(seq(NREGS, i requires 0 <= i < NREGS => if i == RSP then Pointer() else Concrete()),
            Pushed(obj), Known(Flags(false, false, false, false)))
  }

  const SLOT := MemLoc(0x1000, 8)

  lemma PointerIs()
    ensures Mapped(Pointer().conc, 0, 8) && Slot(Get(Pointer().conc, 0, 8)) == SLOT
    ensures Up(Get(Pointer().conc, 0, 8)) == ToBytes(0x1008, 8)
  {
    hide ToBytes, Num;
    var sp := Get(Pointer().conc, 0, 8);
    assert sp == ToBytes(0x1000, 8);
    Pow256Eight();
    NumOfToBytes(0x1000, 8);
    NumEight();
  }

  lemma PushedOk(obj: Sym)
    requires obj.size == 8
    ensures StoreOk(Pushed(obj)) && Mapped(Pushed(obj).conc, 0x1000, 8) && Live(Pushed(obj), 0x1000, 8)
    ensures ReadCells(Pushed(obj), 0x1000, 8) == [Piece(0, 8, UDef(obj))] && Fits([Piece(0, 8, UDef(obj))], 0, 8)
  {
    var p := Piece(0x1000, 8, UDef(obj));
    OnePiece(0x1000, 8, UDef(obj));
    assert Inside(0x1000, 0x1000, 8);
    assert Window([p], 0x1000, 0x1008) == [p] by { assert [p][1..] == []; }
    assert Shift([p], -0x1000) == [Piece(0, 8, UDef(obj))];
    assert Shift([Piece(0, 8, UDef(obj))], 0) == [Piece(0, 8, UDef(obj))];
  }

  lemma StackMachineOk(obj: Sym)
    requires obj.size == 8
    ensures MachineOk(StackMachine(obj)) && PlainParts(StackMachine(obj), Pop(SP_REG))
    ensures Slot(SP(StackMachine(obj))) == SLOT && Up(SP(StackMachine(obj))) == ToBytes(0x1008, 8)
    ensures !LiveAt(StackMachine(obj), SP_REG) && LiveAt(StackMachine(obj), SLOT)
    ensures PlaceOk(StackMachine(obj), SLOT)
    ensures CellsAt(StackMachine(obj), SLOT) == [Piece(0, 8, UDef(obj))]
    ensures ListOk(StackMachine(obj), SP_REG, [Piece(0, 8, UDef(obj))])
  {
    hide StackMachine, Pushed, Pointer, Live, ReadCells, Fits, Mapped, Up, Slot, ToBytes, StoreOk;
    PushedOk(obj);
    PointerIs();
    RegistersOk();
  }

  lemma RegistersOk()
    ensures StoreOk(Pointer()) && StoreOk(Concrete()) && Mapped(Concrete().conc, 0, 8) && !Live(Pointer(), 0, 8)
    ensures forall ps {:trigger NoStale(Pointer(), ps, 0, 8)} :: ps != [] ==> NoStale(Pointer(), ps, 0, 8)
  {}

  lemma PopStep(obj: Sym)
    requires obj.size == 8
    ensures StepOk(StackMachine(obj), Pop(SP_REG)) && HasSymOperand(StackMachine(obj), Pop(SP_REG))
  {
    hide MachineOk, StackMachine, PlainParts, LiveAt, CellsAt, ListOk, Slot, Up, SP, Mapped, ToBytes;
    StackMachineOk(obj);
    OperandFacts(StackMachine(obj), At(SLOT), 8);
  }

  lemma PushedRead(obj: Sym, asg: Assignment)
    requires obj.size == 8
    ensures var m := StackMachine(obj);
            MachineOk(m) && PlainOk(Meaning(m, asg), At(SLOT), 8)
            && PlainGet(Meaning(m, asg), At(SLOT), 8) == ToBytes(asg(obj), 8)
  {
    hide MachineOk, StackMachine, Pushed, Denote, Get, Mapped, ToBytes, Meaning, LiveAt, CellsAt, ListOk, Slot, Up, SP,
         PlaceOk;
    StackMachineOk(obj);
    MeaningAt(StackMachine(obj), SLOT, asg);
    PushedBytes(obj, asg);
  }

  lemma PushedBytes(obj: Sym, asg: Assignment)
    requires obj.size == 8
    ensures WFStore(Pushed(obj)) && Mapped(Denote(Pushed(obj), asg), 0x1000, 8)
    ensures Get(Denote(Pushed(obj), asg), 0x1000, 8) == ToBytes(asg(obj), 8)
  {
    hide ToBytes, ByteAt, Window, Tidy;
    OnePiece(0x1000, 8, UDef(obj));
    OnePieceBytes(0x1000, 8, UDef(obj), asg);
    forall a | 0x1000 <= a < 0x1008 ensures a in Pushed(obj).conc { assert Inside(a, 0x1000, 8); }
  }

  /** pop rsp by the executor with an object in the slot at 0x1000: the step is the plain one exactly under the
      assignments that make the object the address above the slot, and not where it is 0. */
  lemma PopIntoRspShows(obj: Sym, asg: Assignment)
    requires obj.size == 8
    ensures StepOk(StackMachine(obj), Pop(SP_REG)) && HasSymOperand(StackMachine(obj), Pop(SP_REG))
    ensures PlainUnder(StackMachine(obj), Pop(SP_REG), asg) <==> ToBytes(asg(obj), 8) == ToBytes(0x1008, 8)
    ensures asg(obj) == 0 ==> !PlainUnder(StackMachine(obj), Pop(SP_REG), asg)
  {
    hide *;
    PopStep(obj);
    PopIntoRsp(StackMachine(obj), asg);
    PushedRaised(obj, asg);
    ZeroBelow();
  }

  lemma ZeroBelow()
    ensures ToBytes(0, 8) != ToBytes(0x1008, 8)
  {
    assert ToBytes(0, 8)[0] == 0 && ToBytes(0x1008, 8)[0] == 8;
  }

  lemma PushedRaised(obj: Sym, asg: Assignment)
    requires obj.size == 8 && StepOk(StackMachine(obj), Pop(SP_REG))
    ensures MachineOk(StackMachine(obj)) && PlainStepOk(Meaning(StackMachine(obj), asg), Pop(SP_REG))
    ensures PopsRaised(Meaning(StackMachine(obj), asg)) <==> ToBytes(asg(obj), 8) == ToBytes(0x1008, 8)
  {
    hide MachineOk, StackMachine, PlainGet, Meaning, StepOk, Slot, Up, SP, PlainSP, ToBytes, PlainStepOk, PlainOk,
         LiveAt;
    StepPlainOk(StackMachine(obj), Pop(SP_REG), asg);
    StackMachineOk(obj);
    PushedRead(obj, asg);
    SPMeaning(StackMachine(obj), asg);
  }
}
