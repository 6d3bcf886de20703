/** The symbolic steps (symexec.cpp:382-474, 634-859, 1140-1310) and the machine they stand for. */
module Machines {
  import opened Bytes
  import opened Exprs
  import opened Pieces
  import opened Assembly
  import opened Addresses
  import opened Stores
  import opened Branch

  /** The part of a register that a name stands for; the register table has no high-byte names (CPUState.cpp:78-150). */
  datatype SubReg = FULL | D | W | L

  /** regIdxToAddrSize: the size in bytes; every part starts at byte 0. */
  function RegSize(k: SubReg): (n: nat)
    ensures 1 <= n <= 8 && WordSize(n)
  {
    match k
    case FULL => 8
    case D => 4
    case W => 2
    case L => 1
  }

  /** A place an operand names. Memory operands carry their computed address. */
  datatype Loc = RegLoc(reg: nat, part: SubReg) | MemLoc(addr: int, size: nat)

  datatype Operand = Imm(v: seq<byte>) | At(loc: Loc)

  datatype Instr =
    | Mov(dst: Loc, src: Operand)
    | Op(op: FlagOp, dst: Loc, src: Operand)
    | Xchg(a: Loc, b: Loc)
    | Push(src: Operand)
    | Pop(dst: Loc)

  /** The flags: those of an expression that was saved, or concrete ones. */
  datatype FlagState = Saved(op: FlagOp, r: Expr, l: Expr) | Known(flags: Flags)

  /** PTREGS_REG_TOTAL words of storage. */
  const NREGS := 23
  const RSP := 19

  /** The parts of a register that have a name (DyinstEncoding, CPUState.cpp:78-150): the general registers have all
      four, rip, flags, fs and gs only the whole. */
  predicate HasName(reg: nat, part: SubReg) {
    reg <= 14 || reg == RSP || (part == FULL && (reg == 16 || reg == 18 || reg == 21 || reg == 22))
  }

  datatype Machine = Machine(regs: seq<Store>, mem: Store, flags: FlagState)

  /** The machine itself: plain bytes and plain flags. */
  datatype Plain = Plain(regs: seq<map<int, byte>>, mem: map<int, byte>, flags: Flags)

  // ---- places ----

  function LocSize(loc: Loc): nat {
    match loc
    case RegLoc(_, k) => RegSize(k)
    case MemLoc(_, size) => size
  }

  function Lo(loc: Loc): int {
    match loc
    case RegLoc(_, _) => 0
    case MemLoc(addr, _) => addr
  }

  predicate IsPlace(loc: Loc) { loc.RegLoc? ==> loc.reg < NREGS }

  function StoreAt(m: Machine, loc: Loc): Store
    requires |m.regs| == NREGS && IsPlace(loc)
  {
    if loc.RegLoc? then m.regs[loc.reg] else m.mem
  }

  function SetAt(m: Machine, loc: Loc, s: Store): (r: Machine)
    requires |m.regs| == NREGS && IsPlace(loc)
    ensures |r.regs| == NREGS && r.flags == m.flags
  {
    if loc.RegLoc? then m.(regs := m.regs[loc.reg := s]) else m.(mem := s)
  }

  ghost predicate StoreOk(s: Store) { WFStore(s) && Agree(s) }

  ghost predicate MachineOk(m: Machine) {
    && |m.regs| == NREGS
    && (forall i {:trigger m.regs[i]} :: 0 <= i < NREGS ==> StoreOk(m.regs[i]) && Mapped(m.regs[i].conc, 0, 8))
    && StoreOk(m.mem)
    && (m.flags.Saved? ==> WF(m.flags.r) && WF(m.flags.l) && Width(m.flags.r) == Width(m.flags.l) >= 1)
  }

  /** A machine without a symbolic byte is in order. */
  lemma ConcreteOk(m: Machine)
    requires |m.regs| == NREGS && m.flags.Known? && m.mem.marks == {} && m.mem.cells == []
    requires forall i {:trigger m.regs[i]} :: 0 <= i < NREGS ==>
               m.regs[i].marks == {} && m.regs[i].cells == [] && Mapped(m.regs[i].conc, 0, 8)
    ensures MachineOk(m)
  {
    hide Mapped;
  }

  /** A place whose bytes exist: a register part, or a canonical, mapped span of a word's size. */
  predicate PlaceOk(m: Machine, loc: Loc) {
    match loc
    case RegLoc(n, k) => HasName(n, k)
    case MemLoc(addr, size) =>
      WordSize(size) && InRange(addr, addr + size) && Mapped(m.mem.conc, addr, size)
  }

  /** The address domain is that of the canonical addresses, words whose upper 17 bits agree (SDM Volume 1, section
      3.3.7.1). */
  lemma CanonicalIs(u: int)
    requires 0 <= u < ULONG
    ensures LO <= SignedAddr(u) < HI <==> u / 0x8000_0000_0000 == 0 || u / 0x8000_0000_0000 == 0x1_FFFF
  {}

  /** A memory place stays in its 32-byte chunk. */
  predicate OneChunk(loc: Loc) { loc.MemLoc? ==> !CrossesChunk(loc.addr, loc.size) }

  /** A symbolic value may be put at a place: in memory it must stay in one half chunk. */
  predicate SymOk(loc: Loc) { loc.MemLoc? ==> InHalfChunk(loc.addr, loc.size) }

  /** A place in one half chunk is in one chunk. */
  lemma HalfInChunk(loc: Loc)
    requires SymOk(loc)
    ensures OneChunk(loc)
  {}

  ghost predicate LiveAt(m: Machine, loc: Loc)
    requires |m.regs| == NREGS && IsPlace(loc)
  {
    Live(StoreAt(m, loc), Lo(loc), LocSize(loc))
  }

  /** An operand may be read: only a symbolic one has to stay in its chunk. */
  ghost predicate Readable(m: Machine, o: Operand)
    requires |m.regs| == NREGS && (o.At? ==> IsPlace(o.loc))
  {
    o.At? && LiveAt(m, o.loc) ==> OneChunk(o.loc)
  }

  // ---- operand values ----

  /** What reading an operand gives: an eight-byte value or an expression. */
  datatype Value = Con(v: seq<byte>) | Symb(e: Expr)

  /** An operand of n bytes. */
  predicate OperandOk(m: Machine, o: Operand, n: nat) {
    match o
    case Imm(v) => |v| == 8 && n <= 8
    case At(loc) => PlaceOk(m, loc) && LocSize(loc) == n
  }

  function ConcAt(m: Machine, loc: Loc): seq<byte>
    requires |m.regs| == NREGS && IsPlace(loc) && Mapped(StoreAt(m, loc).conc, Lo(loc), LocSize(loc))
  {
    Get(StoreAt(m, loc).conc, Lo(loc), LocSize(loc))
  }

  ghost function ReadValue(m: Machine, o: Operand, n: nat): Value
    requires MachineOk(m) && OperandOk(m, o, n)
  {
    match o
    case Imm(v) => Con(v)
    case At(loc) =>
      PlaceFacts(m, loc);
      if LiveAt(m, loc) then
        var ps := ReadCells(StoreAt(m, loc), Lo(loc), n);
        CellsFit(m, loc);
        Symb(Assemble(ps, n, ConcAt(m, loc)))
      else Con(SignExtend(ConcAt(m, loc)))
  }

  lemma PlaceFacts(m: Machine, loc: Loc)
    requires MachineOk(m) && PlaceOk(m, loc)
    ensures |m.regs| == NREGS && IsPlace(loc) && 1 <= LocSize(loc) <= 8 && WordSize(LocSize(loc))
    ensures InRange(Lo(loc), Lo(loc) + LocSize(loc))
    ensures StoreOk(StoreAt(m, loc)) && WFStore(StoreAt(m, loc)) && Agree(StoreAt(m, loc))
    ensures Mapped(StoreAt(m, loc).conc, Lo(loc), LocSize(loc))
  {
    hide WFStore, Agree;
  }

  /** A live place holds cells, in order, inside the place. */
  lemma CellsFit(m: Machine, loc: Loc)
    requires MachineOk(m) && PlaceOk(m, loc) && LiveAt(m, loc)
    ensures var ps := ReadCells(StoreAt(m, loc), Lo(loc), LocSize(loc));
            Tidy(ps) && Within(ps, 0, LocSize(loc)) && ps != []
  {
    hide *;
    PlaceFacts(m, loc);
    LiveIsLive(m, loc);
    ReadFinds(StoreAt(m, loc), Lo(loc), LocSize(loc));
    var asg: Assignment := _ => 0;
    ReadCellsMeaning(StoreAt(m, loc), Lo(loc), LocSize(loc), asg);
  }

  lemma LiveIsLive(m: Machine, loc: Loc)
    requires |m.regs| == NREGS && IsPlace(loc)
    ensures LiveAt(m, loc) <==> Live(StoreAt(m, loc), Lo(loc), LocSize(loc))
  {}

  /** The operand of an operation: a constant is as wide as the operation. */
  function ExprOf(val: Value, n: nat): Expr {
    match val
    case Con(v) => Const(Num(v), n)
    case Symb(e) => e
  }

  // ---- writing ----

  const ZEROS: seq<byte> := [0, 0, 0, 0, 0, 0, 0, 0]

  function SetCon(m: Machine, loc: Loc, v: seq<byte>): (r: Machine)
    requires |m.regs| == NREGS && IsPlace(loc) && |v| == 8 && LocSize(loc) <= 8
    ensures |r.regs| == NREGS && r.flags == m.flags
  {
    SetAt(m, loc, WriteConcrete(StoreAt(m, loc), Lo(loc), LocSize(loc), v[..LocSize(loc)]))
  }

  /** The concrete bytes under a new expression are zero. */
  function SetExpr(m: Machine, loc: Loc, e: Expr): (r: Machine)
    requires |m.regs| == NREGS && IsPlace(loc) && LocSize(loc) <= 8
    ensures |r.regs| == NREGS && r.flags == m.flags
  {
    SetAt(m, loc, WriteExpr(StoreAt(m, loc), Lo(loc), LocSize(loc), e, ZEROS[..LocSize(loc)]))
  }

  function SetCells(m: Machine, loc: Loc, ps: seq<Piece>, v: seq<byte>): (r: Machine)
    requires |m.regs| == NREGS && IsPlace(loc) && |v| == 8 && LocSize(loc) <= 8 && ps != []
    ensures |r.regs| == NREGS && r.flags == m.flags
  {
    SetAt(m, loc, WriteList(StoreAt(m, loc), Lo(loc), LocSize(loc), ps, v[..LocSize(loc)]))
  }

  /** The concrete bytes that the processor writes: a 32-bit result is zero-extended (SDM Volume 1, section 3.4.1.1). */
  function Widened(loc: Loc, bs: seq<byte>): seq<byte> {
    if loc.RegLoc? && loc.part == D then bs + [0, 0, 0, 0] else bs
  }

  /** What the processor does when the executor is not needed: concrete bytes, no marks and no cells touched. */
  function SetNative(m: Machine, loc: Loc, bs: seq<byte>): (r: Machine)
    requires |m.regs| == NREGS && IsPlace(loc)
    ensures |r.regs| == NREGS && r.flags == m.flags
  {
    var s := StoreAt(m, loc);
    SetAt(m, loc, s.(conc := Put(s.conc, Lo(loc), Widened(loc, bs))))
  }

  // ---- meaning ----

  function PlainAt(p: Plain, loc: Loc): map<int, byte>
    requires |p.regs| == NREGS && IsPlace(loc)
  {
    if loc.RegLoc? then p.regs[loc.reg] else p.mem
  }

  predicate PlainOk(p: Plain, o: Operand, n: nat) {
    && |p.regs| == NREGS
    && match o
       case Imm(v) => |v| == 8 && n <= 8
       case At(loc) => IsPlace(loc) && LocSize(loc) == n && Mapped(PlainAt(p, loc), Lo(loc), n)
  }

  /** The n bytes of an operand. */
  function PlainGet(p: Plain, o: Operand, n: nat): (bs: seq<byte>)
    requires PlainOk(p, o, n)
    ensures |bs| == n
  {
    match o
    case Imm(v) => v[..n]
    case At(loc) => Get(PlainAt(p, loc), Lo(loc), n)
  }

  /** The bytes of a place replaced, all others kept. */
  function PutPart(p: Plain, loc: Loc, bs: seq<byte>): Plain
    requires |p.regs| == NREGS && IsPlace(loc)
  {
    if loc.RegLoc? then p.(regs := p.regs[loc.reg := Put(p.regs[loc.reg], 0, bs)])
    else p.(mem := Put(p.mem, loc.addr, bs))
  }

  /** Who carries out an instruction. The executor keeps the upper half of a register whose 32-bit part it writes
      (CPUState.cpp:379-457). The processor clears it, but for the bytes whose symbolic value hides the concrete one. */
  datatype Writer = Executor | Processor(hidden: seq<set<int>>)

  /** No byte is hidden: the plain machine. */
  function NothingHidden(): (h: seq<set<int>>)
    ensures |h| == NREGS && forall i :: 0 <= i < NREGS ==> h[i] == {}
  {
    seq(NREGS, i requires 0 <= i < NREGS => {})
  }

  /** A register after a 32-bit write by the processor. */
  function PutLong(m: map<int, byte>, bs: seq<byte>, hidden: set<int>): (r: map<int, byte>)
    requires |bs| == 4
  {
    map a | a in m :: if 0 <= a < 4 then bs[a] else if 4 <= a < 8 && a !in hidden then 0 else m[a]
  }

  function PutBy(w: Writer, p: Plain, loc: Loc, bs: seq<byte>): (r: Plain)
    requires |p.regs| == NREGS && IsPlace(loc) && |bs| == LocSize(loc) && (w.Processor? ==> |w.hidden| == NREGS)
    ensures |r.regs| == NREGS && r.flags == p.flags
  {
    if w.Processor? && loc.RegLoc? && loc.part == D
    then p.(regs := p.regs[loc.reg := PutLong(p.regs[loc.reg], bs, w.hidden[loc.reg])])
    else PutPart(p, loc, bs)
  }

  /** A write of the plain machine. */
  function PlainPut(p: Plain, loc: Loc, bs: seq<byte>): Plain
    requires |p.regs| == NREGS && IsPlace(loc) && |bs| == LocSize(loc)
  {
    PutBy(Processor(NothingHidden()), p, loc, bs)
  }

  /** The marked bytes of every register. */
  function MarksOf(m: Machine): (h: seq<set<int>>)
    requires |m.regs| == NREGS
    ensures |h| == NREGS
  {
    seq(NREGS, i requires 0 <= i < NREGS => m.regs[i].marks)
  }

  ghost function MeaningOfFlags(f: FlagState, asg: Assignment): Flags
    requires f.Saved? ==> WF(f.r) && WF(f.l) && Width(f.r) == Width(f.l)
  {
    match f
    case Saved(op, r, l) => FlagsOf(op, Eval(r, asg), Eval(l, asg))
    case Known(flags) => flags
  }

  /** The plain machine that a symbolic one stands for under an assignment. */
  ghost function Meaning(m: Machine, asg: Assignment): (p: Plain)
    requires MachineOk(m)
    ensures |p.regs| == NREGS
  {
    Plain(seq(NREGS, i requires 0 <= i < NREGS => RegMeaning(m, i, asg)), Denote(m.mem, asg),
        MeaningOfFlags(m.flags, asg))
  }

  ghost function RegMeaning(m: Machine, i: nat, asg: Assignment): map<int, byte>
    requires MachineOk(m) && i < NREGS
  {
    assert StoreOk(m.regs[i]);
    Denote(m.regs[i], asg)
  }

  lemma MeaningAt(m: Machine, loc: Loc, asg: Assignment)
    requires MachineOk(m) && IsPlace(loc)
    ensures WFStore(StoreAt(m, loc)) && PlainAt(Meaning(m, asg), loc) == Denote(StoreAt(m, loc), asg)
  {
    hide WFStore, Agree, Denote;
  }

  /** Replacing one store by one that means the old bytes with bs put in changes the machine in just that way. */
  lemma SetMeaning(m: Machine, loc: Loc, s: Store, bs: seq<byte>, asg: Assignment)
    requires MachineOk(m) && IsPlace(loc) && StoreOk(s)
    requires s.conc.Keys == StoreAt(m, loc).conc.Keys
    requires WFStore(StoreAt(m, loc)) && WFStore(s) && Denote(s, asg) == Put(Denote(StoreAt(m, loc), asg), Lo(loc), bs)
    ensures MachineOk(SetAt(m, loc, s))
    ensures Meaning(SetAt(m, loc, s), asg) == PutPart(Meaning(m, asg), loc, bs)
  {
    hide WFStore, Agree, Denote, Put, WF, Width, MeaningOfFlags;
    var r := SetAt(m, loc, s);
    assert MachineOk(r);
    var p, q := Meaning(r, asg), PutPart(Meaning(m, asg), loc, bs);
    assert forall i :: 0 <= i < NREGS ==> p.regs[i] == q.regs[i];
    assert p.regs == q.regs;
  }

  // ---- primitives ----

  /** The same places exist in both machines. */
  ghost predicate SamePlaces(m: Machine, r: Machine) {
    |m.regs| == |r.regs| == NREGS && m.mem.conc.Keys == r.mem.conc.Keys
  }

  lemma PlacesKept(m: Machine, r: Machine)
    requires SamePlaces(m, r)
    ensures forall l {:trigger PlaceOk(r, l)} :: PlaceOk(r, l) <==> PlaceOk(m, l)
    ensures forall o, n {:trigger OperandOk(r, o, n)} :: OperandOk(r, o, n) <==> OperandOk(m, o, n)
  {}

  lemma SetKeeps(m: Machine, loc: Loc, s: Store)
    requires |m.regs| == NREGS && IsPlace(loc) && s.conc.Keys == StoreAt(m, loc).conc.Keys
    ensures SamePlaces(m, SetAt(m, loc, s))
  {}

  lemma {:induction false} ConstBytes(v: seq<byte>, n: nat)
    requires n <= |v|
    ensures ToBytes(Num(v), n) == v[..n]
  {
    if n > 0 {
      ConstBytes(v[1..], n - 1);
      assert Num(v) % 256 == v[0] && Num(v) / 256 == Num(v[1..]);
      assert v[1..][..n - 1] == v[1..n];
      assert v[..n] == [v[0]] + v[1..n];
    }
  }

  /** An operand, as an expression, means its bytes in the plain machine; a concrete one has them as its low bytes. */
  lemma ReadMeaning(m: Machine, o: Operand, n: nat, asg: Assignment)
    requires MachineOk(m) && OperandOk(m, o, n) && n >= 1
    ensures PlainOk(Meaning(m, asg), o, n)
    ensures var val, bs := ReadValue(m, o, n), PlainGet(Meaning(m, asg), o, n);
            && WF(ExprOf(val, n)) && Width(ExprOf(val, n)) == n && Eval(ExprOf(val, n), asg) == bs
            && (val.Con? ==> |val.v| == 8 && n <= 8 && val.v[..n] == bs)
            && (val.Con? <==> (o.Imm? || !LiveAt(m, o.loc)))
  {
    match o
    case Imm(v) =>
      ConstBytes(v, n);
    case At(loc) => {
      hide WFStore, Agree, Live, Denote, Mapped, Get, Assemble, Eval, WF, ReadCells, InRange, CrossesChunk,
           MeaningOfFlags, Num, ToBytes;
      PlaceFacts(m, loc);
      MeaningAt(m, loc, asg);
      if LiveAt(m, loc) {
        ReadExprMeaning(StoreAt(m, loc), Lo(loc), n, asg);
      } else {
        ReadConcreteMeaning(StoreAt(m, loc), Lo(loc), n, asg);
        ConstIs(SignExtend(ConcAt(m, loc)), n, asg);
      }
    }
  }

  lemma ConstIs(v: seq<byte>, n: nat, asg: Assignment)
    requires 1 <= n <= |v|
    ensures WF(Const(Num(v), n)) && Width(Const(Num(v), n)) == n && Eval(Const(Num(v), n), asg) == v[..n]
  {
    ConstBytes(v, n);
  }

  lemma ConMeaning(m: Machine, loc: Loc, v: seq<byte>, asg: Assignment)
    requires MachineOk(m) && PlaceOk(m, loc) && |v| == 8
    ensures IsPlace(loc) && LocSize(loc) <= 8
    ensures var r := SetCon(m, loc, v);
            MachineOk(r) && SamePlaces(m, r) && Meaning(r, asg) == PutPart(Meaning(m, asg), loc, v[..LocSize(loc)])
  {
    hide WFStore, Agree, Denote, Put, Mapped, InRange, MachineOk, PlaceOk, SetAt, Meaning, PutPart, WriteConcrete,
         SamePlaces;
    PlaceFacts(m, loc);
    var s, n := StoreAt(m, loc), LocSize(loc);
    WriteConcreteMeaning(s, Lo(loc), n, v[..n], asg);
    WriteConcreteIs(s, Lo(loc), n, v[..n]);
    PutByte(s.conc, Lo(loc), v[..n], 0);
    SetMeaning(m, loc, WriteConcrete(s, Lo(loc), n, v[..n]), v[..n], asg);
    SetKeeps(m, loc, WriteConcrete(s, Lo(loc), n, v[..n]));
  }

  lemma ExprMeaning(m: Machine, loc: Loc, e: Expr, asg: Assignment)
    requires MachineOk(m) && PlaceOk(m, loc) && WF(e) && Width(e) == LocSize(loc)
    ensures IsPlace(loc) && LocSize(loc) <= 8
    ensures var r := SetExpr(m, loc, e);
            MachineOk(r) && SamePlaces(m, r) && Meaning(r, asg) == PutPart(Meaning(m, asg), loc, Eval(e, asg))
  {
    hide WFStore, Agree, Denote, Put, Mapped, InRange, MachineOk, PlaceOk, SetAt, Meaning, PutPart, WriteExpr, WF,
         Width, Eval, SamePlaces;
    PlaceFacts(m, loc);
    var s, n, z := StoreAt(m, loc), LocSize(loc), ZEROS[..LocSize(loc)];
    WriteExprMeaning(s, Lo(loc), n, e, z, asg);
    WriteExprConc(s, Lo(loc), n, e, z);
    PutByte(s.conc, Lo(loc), z, 0);
    SetMeaning(m, loc, WriteExpr(s, Lo(loc), n, e, z), Eval(e, asg), asg);
    SetKeeps(m, loc, WriteExpr(s, Lo(loc), n, e, z));
  }

  lemma WriteExprConc(s: Store, lo: int, n: nat, e: Expr, bs: seq<byte>)
    ensures WriteExpr(s, lo, n, e, bs).conc == Put(s.conc, lo, bs)
  {}

  /** A cell list may be put at a place: it fits there, and nothing stale is left beside it. */
  ghost predicate ListOk(m: Machine, loc: Loc, ps: seq<Piece>)
    requires |m.regs| == NREGS && IsPlace(loc)
  {
    Fits(ps, Lo(loc), LocSize(loc)) && NoStale(StoreAt(m, loc), ps, Lo(loc), LocSize(loc))
  }

  lemma CellsMeaning(m: Machine, loc: Loc, ps: seq<Piece>, v: seq<byte>, asg: Assignment)
    requires MachineOk(m) && IsPlace(loc) && PlaceOk(m, loc) && ListOk(m, loc, ps) && |v| == 8
    ensures LocSize(loc) <= 8 && ps != [] && Proper(ps)
    ensures var r, n := SetCells(m, loc, ps, v), LocSize(loc);
            MachineOk(r) && SamePlaces(m, r)
                && Meaning(r, asg) == PutPart(Meaning(m, asg), loc, Overlay(ps, 0, n, v[..n], asg))
  {
    hide WFStore, Agree, Denote, Put, Mapped, InRange, MachineOk, PlaceOk, SetAt, Meaning, PutPart, WriteList, Fits,
         NoStale, Proper, Overlay, SamePlaces;
    PlaceFacts(m, loc);
    var s, n := StoreAt(m, loc), LocSize(loc);
    var bs := v[..n];
    FitsShift(ps, Lo(loc), n);
    WriteListMeaning(s, Lo(loc), n, ps, bs, asg);
    WriteListAgree(s, Lo(loc), n, ps, bs);
    WriteListIs(s, Lo(loc), n, ps, bs);
    PutByte(s.conc, Lo(loc), bs, 0);
    SetMeaning(m, loc, WriteList(s, Lo(loc), n, ps, bs), Overlay(ps, 0, n, bs, asg), asg);
    SetKeeps(m, loc, WriteList(s, Lo(loc), n, ps, bs));
  }

  /** Concrete bytes put under a place without cells are what the place then means; the upper half of a register is
      cleared where it is not symbolic. */
  lemma NativeMeaning(m: Machine, loc: Loc, bs: seq<byte>, asg: Assignment)
    requires MachineOk(m) && IsPlace(loc) && PlaceOk(m, loc) && !LiveAt(m, loc) && |bs| == LocSize(loc)
    ensures var r := SetNative(m, loc, bs);
            && MachineOk(r) && SamePlaces(m, r) && MarksOf(r) == MarksOf(m)
            && Meaning(r, asg) == PutBy(Processor(MarksOf(m)), Meaning(m, asg), loc, bs)
  {
    hide WFStore, Agree, Denote, Put, Mapped, InRange, MachineOk, PlaceOk, SetAt, Meaning, PutPart, Live, SamePlaces;
    PlaceFacts(m, loc);
    var s := StoreAt(m, loc);
    var t := s.(conc := Put(s.conc, Lo(loc), Widened(loc, bs)));
    PutByte(s.conc, Lo(loc), Widened(loc, bs), 0);
    SetKeeps(m, loc, t);
    SetMarks(m, loc, t);
    if loc.RegLoc? && loc.part == D {
      LongStore(s, bs, asg);
      LongMeaning(m, loc.reg, t, bs, asg);
    } else {
      NativeStore(s, Lo(loc), LocSize(loc), bs, asg);
      SetMeaning(m, loc, t, bs, asg);
    }
  }

  lemma SetMarks(m: Machine, loc: Loc, s: Store)
    requires |m.regs| == NREGS && IsPlace(loc) && s.marks == StoreAt(m, loc).marks
    ensures MarksOf(SetAt(m, loc, s)) == MarksOf(m)
  {}

  /** A register's store after the processor wrote its 32-bit part. */
  lemma LongStore(s: Store, bs: seq<byte>, asg: Assignment)
    requires WFStore(s) && Agree(s) && !Live(s, 0, 4) && |bs| == 4
    ensures var r := s.(conc := Put(s.conc, 0, bs + [0, 0, 0, 0]));
            && WFStore(r) && Agree(r) && r.conc.Keys == s.conc.Keys
            && Denote(r, asg) == PutLong(Denote(s, asg), bs, s.marks)
  {
    hide ByteAt, Covered, WFList, Proper, Tidy;
    StoreTidy(s);
    forall a | a in s.conc ensures ByteAt(s.cells, a, asg).Some? <==> a in s.marks {
      AgreeAt(s, a);
      ByteAtCovered(s.cells, a, asg);
    }
    forall a | 0 <= a < 4 ensures a !in s.marks {
      InsideIs(a, 0, 4);
    }
  }

  lemma LongMeaning(m: Machine, n: nat, s: Store, bs: seq<byte>, asg: Assignment)
    requires MachineOk(m) && n < NREGS && StoreOk(s) && |bs| == 4
    requires s.conc.Keys == m.regs[n].conc.Keys
    requires WFStore(m.regs[n]) && WFStore(s) && Denote(s, asg) == PutLong(Denote(m.regs[n], asg), bs, m.regs[n].marks)
    ensures MachineOk(SetAt(m, RegLoc(n, D), s))
    ensures Meaning(SetAt(m, RegLoc(n, D), s), asg) == PutBy(Processor(MarksOf(m)), Meaning(m, asg), RegLoc(n, D), bs)
  {
    hide WFStore, Agree, Denote, PutLong, WF, Width, MeaningOfFlags;
    var r := SetAt(m, RegLoc(n, D), s);
    assert MachineOk(r);
    var p, q := Meaning(r, asg), PutBy(Processor(MarksOf(m)), Meaning(m, asg), RegLoc(n, D), bs);
    assert forall i :: 0 <= i < NREGS ==> p.regs[i] == q.regs[i];
    assert p.regs == q.regs;
  }

  lemma NativeStore(s: Store, lo: int, n: nat, bs: seq<byte>, asg: Assignment)
    requires WFStore(s) && Agree(s) && !Live(s, lo, n) && |bs| == n
    ensures var r := s.(conc := Put(s.conc, lo, bs));
            WFStore(r) && Agree(r) && r.conc.Keys == s.conc.Keys && Denote(r, asg) == Put(Denote(s, asg), lo, bs)
  {
    hide ByteAt, Covered, WFList, Proper;
    var r := s.(conc := Put(s.conc, lo, bs));
    StoreTidy(s);
    forall a | lo <= a < lo + n ensures ByteAt(s.cells, a, asg) == None {
      assert Inside(a, lo, n);
      AgreeAt(s, a);
      ByteAtCovered(s.cells, a, asg);
    }
  }
}
