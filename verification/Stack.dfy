/** Pushing a register and popping it back (symexec.cpp:1140-1255). */
module Stack {
  import opened Bytes
  import opened Exprs
  import opened Pieces
  import opened Stores
  import opened Branch
  import opened Machines
  import opened Steps

  /** Down and up again. */
  lemma UpDown(sp: seq<byte>)
    requires |sp| == 8
    ensures Up(Down(sp)) == sp
  {
    hide Num, Pow256, ToBytes, Logic;
    var p := Pow256(8);
    Pow256Eight();
    assert Num(EIGHT) == 8 by { NumEight(); }
    SubIs(sp, EIGHT);
    WordOf(Num(sp) + p - 8, 8);
    ToBytesOfNum(sp);
    ToBytesWrap(Num(sp), 8);
  }

  // ---- marks ----

  /** The cells that a read gives cover just the marked bytes of the span. */
  lemma ReadMarks(s: Store, lo: int, n: nat, k: int)
    requires WFStore(s) && Agree(s)
    ensures Covered(ReadCells(s, lo, n), k) <==> 0 <= k < n && lo + k in s.marks
  {
    hide *;
    StoreTidy(s);
    ReadCellsIs(s, lo, n);
    WindowCovered(s.cells, lo, lo + n, lo + k);
    CoveredShift(Window(s.cells, lo, lo + n), -lo, lo + k);
    AgreeAt(s, lo + k);
  }

  /** A list write marks the bytes of its target that the list covers, and no others of it. */
  lemma WriteListMarks(s: Store, lo: int, n: nat, ps: seq<Piece>, bs: seq<byte>, k: int)
    requires Fits(ps, lo, n) && 0 <= k < n
    ensures lo + k in WriteList(s, lo, n, ps, bs).marks <==> Covered(ps, k)
  {
    hide *;
    FitsShift(ps, lo, n);
    WriteListIs(s, lo, n, ps, bs);
    CoveredShift(ps, lo, k);
    InsideIs(lo + k, lo, n);
  }

  /** Cells inside a register part fit there. */
  lemma FitsPart(ps: seq<Piece>, n: nat)
    requires Tidy(ps) && ps != [] && Within(ps, 0, n) && 1 <= n <= 8
    ensures Fits(ps, 0, n)
  {
    forall i | 0 <= i < |ps| ensures ProperPiece(ps[i]) && End(ps[0]) <= Stop(ps) {
      assert |ps| > 1 ==> End(ps[0]) <= ps[|ps| - 1].addr;
    }
  }

  predicate MarkAt(s: Store, lo: int, k: int) { lo + k in s.marks }

  /** Eight bytes are marked alike in two places. */
  ghost predicate SameMarks(s: Store, lo: int, t: Store, at: int) {
    forall k {:trigger MarkAt(s, lo, k)} {:trigger MarkAt(t, at, k)} :: 0 <= k < 8 ==>
        (MarkAt(s, lo, k) <==> MarkAt(t, at, k))
  }

  /** What is marked of eight bytes is marked in the other place, too. */
  ghost predicate MarksAmong(s: Store, lo: int, t: Store, at: int) {
    forall k {:trigger MarkAt(s, lo, k)} {:trigger MarkAt(t, at, k)} :: 0 <= k < 8 && MarkAt(s, lo, k) ==>
        MarkAt(t, at, k)
  }

  ghost predicate Unmarked(s: Store, lo: int) {
    forall k {:trigger MarkAt(s, lo, k)} :: 0 <= k < 8 ==> !MarkAt(s, lo, k)
  }

  lemma UnmarkedIs(s: Store, lo: int)
    ensures Unmarked(s, lo) <==> !Live(s, lo, 8)
  {
    if b :| Inside(b, lo, 8) && b in s.marks {
      assert MarkAt(s, lo, b - lo);
    }
    if k :| 0 <= k < 8 && MarkAt(s, lo, k) {
      assert Inside(lo + k, lo, 8);
    }
  }

  // ---- popping ----

  function Whole(r: nat): Loc { RegLoc(r, FULL) }

  /** A slot whose marks include the register's may be popped into it. */
  lemma PopList(m: Machine, r: nat)
    requires MachineOk(m) && HasName(r, FULL) && Mapped(m.regs[RSP].conc, 0, 8)
    requires PlaceOk(m, Slot(SP(m))) && LiveAt(m, Slot(SP(m)))
    requires MarksAmong(m.regs[r], 0, m.mem, Lo(Slot(SP(m))))
    ensures IsPlace(Whole(r)) && ListOk(m, Whole(r), CellsAt(m, Slot(SP(m))))
  {
    var slot, s := Slot(SP(m)), m.regs[r];
    var lo := Lo(slot);
    hide MachineOk, PlaceOk, SP, Slot, Fits, WFStore, Agree, Covered, ReadCells, Live;
    PlaceFacts(m, slot);
    PlaceFacts(m, Whole(r));
    CellsFit(m, slot);
    var ps := CellsAt(m, slot);
    FitsPart(ps, 8);
    forall b | Inside(b, 0, 8) && Covered(s.cells, b) ensures First(ps) <= b < Stop(ps) {
      AgreeAt(s, b);
      assert MarkAt(s, 0, b);
      ReadMarks(m.mem, lo, 8, b);
      CoveredInSpan(ps, b);
    }
  }

  /** A register may be popped, and which bytes of it may be marked. */
  ghost predicate Poppable(m: Machine, r: nat) {
    && MachineOk(m) && HasName(r, FULL) && r != RSP && Mapped(m.regs[RSP].conc, 0, 8) && !LiveAt(m, SP_REG)
    && PlaceOk(m, Slot(SP(m))) && Readable(m, At(Slot(SP(m)))) && MarksAmong(m.regs[r], 0, m.mem, Lo(Slot(SP(m))))
  }

  lemma PopPut(m: Machine, r: nat)
    requires Poppable(m, r)
    ensures OperandOk(m, At(Slot(SP(m))), 8)
    ensures var d := Fetch(m, At(Slot(SP(m))), 8);
            && PutOk(m, Whole(r), d)
            && d.Listed? == LiveAt(m, Slot(SP(m))) && (d.Listed? ==> d.ps == CellsAt(m, Slot(SP(m))))
  {
    var slot := Slot(SP(m));
    if LiveAt(m, slot) {
      PopList(m, r);
    }
    hide MachineOk, SP, Slot, LiveAt, ListOk, ListConc, CellsAt, ReadValue, InRange, Mapped, MarksAmong;
    OperandFacts(m, At(slot), 8);
    assert PlaceOk(m, Whole(r));
  }

  lemma PopOk(m: Machine, r: nat)
    requires Poppable(m, r)
    ensures StepOk(m, Pop(Whole(r)))
    ensures HasSymOperand(m, Pop(Whole(r))) <==> LiveAt(m, Slot(SP(m)))
  {
    var slot := Slot(SP(m));
    PopPut(m, r);
    assert LiveAt(m, Whole(r)) ==> LiveAt(m, slot) by {
      UnmarkedIs(m.regs[r], 0);
      UnmarkedIs(m.mem, Lo(slot));
    }
    hide MachineOk, SP, Slot, LiveAt, Fetch, PutOk, InRange, Mapped, MarksAmong;
  }

  lemma PoppedList(m: Machine, r: nat, ps: seq<Piece>, v: seq<byte>, sp: seq<byte>)
    requires |m.regs| == NREGS && r < NREGS && r != RSP && |v| == |sp| == 8 && ps != [] && Fits(ps, 0, 8)
    ensures var r1 := SetCells(m, Whole(r), ps, v);
            forall k {:trigger Covered(ps, k)} :: 0 <= k < 8 ==>
                (MarkAt(SetCon(r1, SP_REG, sp).regs[r], 0, k) <==> Covered(ps, k))
  {
    hide Fits, Covered, WriteList, WriteConcrete;
    forall k | 0 <= k < 8 ensures 0 + k in WriteList(m.regs[r], 0, 8, ps, v[..8]).marks <==> Covered(ps, k) {
      WriteListMarks(m.regs[r], 0, 8, ps, v[..8], k);
    }
  }

  lemma PoppedPlain(m: Machine, r: nat, v: seq<byte>, sp: seq<byte>)
    requires |m.regs| == NREGS && r < NREGS && r != RSP
    ensures SetNative(SetNative(m, SP_REG, sp), Whole(r), v).regs[r].marks == m.regs[r].marks
  {}

  lemma StepIs(m: Machine, i: Instr)
    requires StepOk(m, i)
    ensures Step(m, i) == if HasSymOperand(m, i) then SymStep(m, i) else NativeStep(m, i)
  {}

  lemma SlotFacts(m: Machine, r: nat)
    requires Poppable(m, r)
    ensures MachineOk(m) && |m.regs| == NREGS && IsPlace(Whole(r)) && r < NREGS && Mapped(m.regs[RSP].conc, 0, 8)
    ensures var slot := Slot(SP(m)); PlaceOk(m, slot) && IsPlace(slot) && WFStore(m.mem) && Agree(m.mem)
    ensures LiveAt(m, Slot(SP(m))) <==> !Unmarked(m.mem, Lo(Slot(SP(m))))
    ensures Unmarked(m.mem, Lo(Slot(SP(m)))) ==> Unmarked(m.regs[r], 0)
  {
    var slot := Slot(SP(m));
    PlaceFacts(m, slot);
    UnmarkedIs(m.mem, Lo(slot));
    hide MachineOk, SP, Mapped, Live, WFStore, Agree, MarkAt;
  }

  lemma PoppedCells(m: Machine, r: nat, i: Instr)
    requires Poppable(m, r) && LiveAt(m, Slot(SP(m))) && i == Pop(Whole(r)) && StepOk(m, i)
    ensures MachineOk(m) && |SymStep(m, i).regs| == |m.regs| == NREGS && r < NREGS
    ensures Mapped(m.regs[RSP].conc, 0, 8)
    ensures var ps := ReadCells(m.mem, Lo(Slot(SP(m))), 8);
            forall k {:trigger Covered(ps, k)} :: 0 <= k < 8 ==>
                (MarkAt(SymStep(m, i).regs[r], 0, k) <==> Covered(ps, k))
  {
    hide MachineOk, SP, LiveAt, Fetch, PutOk, SetCon, Up, Mapped, InRange, ReadCells, Covered, MarkAt,
         SymStep, StepOk, ListOk, WFStore, Agree, Unmarked, PlaceOk, SetCells, MarksAmong, Fits, Num;
    SlotFacts(m, r);
    PopPut(m, r);
    SymPopIs(m, Whole(r));
    var slot := Slot(SP(m));
    var d := Fetch(m, At(slot), 8);
    PopList(m, r);
    ListFits(m, r, d.ps);
    PoppedList(m, r, d.ps, d.v, Up(SP(m)));
  }

  lemma PoppedSym(m: Machine, r: nat, i: Instr)
    requires Poppable(m, r) && LiveAt(m, Slot(SP(m))) && i == Pop(Whole(r)) && StepOk(m, i)
    ensures SameMarks(SymStep(m, i).regs[r], 0, m.mem, Lo(Slot(SP(m))))
  {
    hide *;
    SlotFacts(m, r);
    PoppedCells(m, r, i);
    var lo := Lo(Slot(SP(m)));
    forall k | 0 <= k < 8 ensures MarkAt(SymStep(m, i).regs[r], 0, k) <==> MarkAt(m.mem, lo, k) {
      ReadMarks(m.mem, lo, 8, k);
      MarkIs(m.mem, lo, k);
    }
    SameMarksIs(SymStep(m, i).regs[r], 0, m.mem, lo);
  }

  lemma PoppedNative(m: Machine, r: nat, i: Instr)
    requires Poppable(m, r) && !LiveAt(m, Slot(SP(m))) && i == Pop(Whole(r)) && StepOk(m, i) && !HasSymOperand(m, i)
    ensures SameMarks(NativeStep(m, i).regs[r], 0, m.mem, Lo(Slot(SP(m))))
  {
    hide *;
    SlotFacts(m, r);
    NativePopIs(m, Whole(r));
    PoppableReg(m, r);
    var slot := Slot(SP(m));
    PoppedPlain(m, r, ConcOperand(m, At(slot), 8), Up(SP(m)));
    UnmarkedSame(m.regs[r], NativeStep(m, i).regs[r], m.mem, Lo(slot));
  }

  lemma PoppableReg(m: Machine, r: nat)
    requires Poppable(m, r)
    ensures r != RSP
  {}

  lemma UnmarkedSame(s: Store, s': Store, t: Store, lo: int)
    requires Unmarked(s, 0) && s'.marks == s.marks && Unmarked(t, lo)
    ensures SameMarks(s', 0, t, lo)
  {
    forall k | 0 <= k < 8 ensures !MarkAt(s', 0, k) {
      assert !MarkAt(s, 0, k);
    }
  }

  lemma SameMarksIs(s: Store, lo: int, t: Store, at: int)
    requires forall k :: 0 <= k < 8 ==> (MarkAt(s, lo, k) <==> MarkAt(t, at, k))
    ensures SameMarks(s, lo, t, at)
  {}

  /** Popping gives a register the marks of the slot. */
  lemma PopMarks(m: Machine, r: nat)
    requires Poppable(m, r)
    ensures StepOk(m, Pop(Whole(r))) && |Step(m, Pop(Whole(r))).regs| == NREGS
    ensures SameMarks(Step(m, Pop(Whole(r))).regs[r], 0, m.mem, Lo(Slot(SP(m))))
  {
    hide *;
    PopOk(m, r);
    SlotFacts(m, r);
    StepIs(m, Pop(Whole(r)));
    StepPlaces(m, Pop(Whole(r)));
    if LiveAt(m, Slot(SP(m))) {
      PoppedSym(m, r, Pop(Whole(r)));
    } else {
      PoppedNative(m, r, Pop(Whole(r)));
    }
  }

  lemma StepPlaces(m: Machine, i: Instr)
    requires StepOk(m, i)
    ensures MachineOk(m) && MachineOk(Step(m, i)) && SamePlaces(m, Step(m, i)) && |m.regs| == |Step(m, i).regs| == NREGS
  {
    hide MachineOk, Step, StepOk, WriterOf, PlainStepOk, StepBy, Exact;
    StepSimulates(m, i, _ => 0);
  }

  lemma MarkIs(s: Store, lo: int, k: int)
    ensures MarkAt(s, lo, k) <==> lo + k in s.marks
  {}

  lemma ListFits(m: Machine, r: nat, ps: seq<Piece>)
    requires |m.regs| == NREGS && IsPlace(Whole(r)) && ListOk(m, Whole(r), ps)
    ensures Fits(ps, 0, 8)
  {}

  // ---- pushing ----

  lemma NativePushIs(m: Machine, src: Operand)
    requires StepOk(m, Push(src)) && !HasSymOperand(m, Push(src))
    ensures MachineOk(m) && |m.regs| == NREGS && Mapped(m.regs[RSP].conc, 0, 8) && OperandOk(m, src, 8)
    ensures NativeStep(m, Push(src))
            == SetNative(SetNative(m, SP_REG, Down(SP(m))), Slot(Down(SP(m))), ConcOperand(m, src, 8))
    ensures IsPlace(Slot(Down(SP(m)))) && PlaceOk(m, Slot(Down(SP(m))))
    ensures !OperandLive(m, src) && !LiveAt(m, Slot(Down(SP(m)))) && !LiveAt(m, SP_REG)
  {
    hide MachineOk, SetNative, ConcOperand, LiveAt, Down, SP, PutOk, InRange, Mapped;
  }

  /** What pushing did to the machine: a new concrete stack pointer, and the slot marked as the register is. */
  ghost predicate Pushed(m: Machine, r: nat, sp: seq<byte>, m1: Machine)
    requires |sp| == 8 && |m.regs| == NREGS && r < NREGS
  {
    && |m1.regs| == NREGS && m1.regs == m.regs[RSP := m1.regs[RSP]]
    && Mapped(m1.regs[RSP].conc, 0, 8) && SP(m1) == sp && !LiveAt(m1, SP_REG)
    && SameMarks(m.regs[r], 0, m1.mem, Lo(Slot(sp)))
  }

  lemma PutGet(c: map<int, byte>, bs: seq<byte>)
    requires Mapped(c, 0, |bs|)
    ensures Mapped(Put(c, 0, bs), 0, |bs|) && Get(Put(c, 0, bs), 0, |bs|) == bs
  {}

  /** A stack pointer put over one that is not symbolic. */
  lemma SPPut(m: Machine, m1: Machine, sp: seq<byte>)
    requires |m.regs| == |m1.regs| == NREGS && Mapped(m.regs[RSP].conc, 0, 8) && !LiveAt(m, SP_REG) && |sp| == 8
    requires m1.regs[RSP].conc == Put(m.regs[RSP].conc, 0, sp) && m1.regs[RSP].marks <= m.regs[RSP].marks
    ensures Mapped(m1.regs[RSP].conc, 0, 8) && SP(m1) == sp && !LiveAt(m1, SP_REG)
  {
    hide Put, Get, Mapped;
    PutGet(m.regs[RSP].conc, sp);
  }

  lemma PushedCells(m: Machine, r: nat, sp: seq<byte>, ps: seq<Piece>, v: seq<byte>)
    requires MachineOk(m) && HasName(r, FULL) && |sp| == |v| == 8 && !LiveAt(m, SP_REG)
             && Mapped(m.regs[RSP].conc, 0, 8)
    requires ps == ReadCells(m.regs[r], 0, 8) && ps != [] && Fits(ps, Lo(Slot(sp)), 8)
    ensures Pushed(m, r, sp, SetCells(SetCon(m, SP_REG, sp), Slot(sp), ps, v))
  {
    var lo, m1 := Lo(Slot(sp)), SetCells(SetCon(m, SP_REG, sp), Slot(sp), ps, v);
    assert StoreOk(m.regs[r]);
    SlotMarks(m.regs[r], m.mem, lo, ps, v[..8]);
    hide Fits, MachineOk, WFStore, Agree, Covered, ReadCells, WriteList, LiveAt, Mapped, Put, SP, SameMarks;
    assert sp[..8] == sp;
    SPPut(m, m1, sp);
  }

  /** The cells of a register, written to a slot, mark it as the register is marked. */
  lemma SlotMarks(s: Store, t: Store, lo: int, ps: seq<Piece>, bs: seq<byte>)
    requires WFStore(s) && Agree(s) && ps == ReadCells(s, 0, 8) && ps != [] && Fits(ps, lo, 8)
    ensures SameMarks(s, 0, WriteList(t, lo, 8, ps, bs), lo)
  {
    hide *;
    var t' := WriteList(t, lo, 8, ps, bs);
    forall k | 0 <= k < 8 ensures MarkAt(s, 0, k) <==> MarkAt(t', lo, k) {
      ReadMarks(s, 0, 8, k);
      WriteListMarks(t, lo, 8, ps, bs, k);
      MarkIs(s, 0, k);
      MarkIs(t', lo, k);
    }
    SameMarksIs(s, 0, t', lo);
  }

  lemma PushedCon(m: Machine, r: nat, sp: seq<byte>, v: seq<byte>)
    requires |m.regs| == NREGS && r < NREGS && |sp| == |v| == 8 && !LiveAt(m, SP_REG) && Mapped(m.regs[RSP].conc, 0, 8)
    requires !LiveAt(m, Whole(r))
    ensures Pushed(m, r, sp, SetCon(SetCon(m, SP_REG, sp), Slot(sp), v))
  {
    var lo, m1 := Lo(Slot(sp)), SetCon(SetCon(m, SP_REG, sp), Slot(sp), v);
    UnmarkedIs(m.regs[r], 0);
    hide LiveAt, Mapped, Put, SP, Slot;
    assert sp[..8] == sp;
    SPPut(m, m1, sp);
    forall k | 0 <= k < 8 ensures !MarkAt(m1.mem, lo, k) {
    }
  }

  lemma PushedNative(m: Machine, r: nat, sp: seq<byte>, v: seq<byte>)
    requires |m.regs| == NREGS && r < NREGS && |sp| == |v| == 8 && !LiveAt(m, SP_REG) && Mapped(m.regs[RSP].conc, 0, 8)
    requires !LiveAt(m, Whole(r)) && !LiveAt(m, Slot(sp))
    ensures Pushed(m, r, sp, SetNative(SetNative(m, SP_REG, sp), Slot(sp), v))
  {
    var lo, m1 := Lo(Slot(sp)), SetNative(SetNative(m, SP_REG, sp), Slot(sp), v);
    UnmarkedIs(m.regs[r], 0);
    UnmarkedIs(m.mem, lo);
    hide LiveAt, Mapped, Put, SP, Slot, Live;
    SPPut(m, m1, sp);
    forall k | 0 <= k < 8 ensures !MarkAt(m1.mem, lo, k) {
      MarkIs(m.mem, lo, k);
    }
  }

  lemma PushIs(m: Machine, r: nat)
    requires StepOk(m, Push(At(Whole(r))))
    ensures |m.regs| == NREGS && r < NREGS && HasName(r, FULL) && Mapped(m.regs[RSP].conc, 0, 8) && MachineOk(m)
    ensures PlaceOk(m, Slot(Down(SP(m)))) && OperandOk(m, At(Whole(r)), 8)
    ensures var d := Fetch(m, At(Whole(r)), 8);
            d.Listed? == LiveAt(m, Whole(r)) && |d.v| == 8 && (d.Listed? ==> d.ps == ReadCells(m.regs[r], 0, 8))
  {
    hide MachineOk, SP, Down, LiveAt, ReadCells, PutOk, ListConc, ReadValue;
  }

  lemma PushMarks(m: Machine, r: nat)
    requires StepOk(m, Push(At(Whole(r))))
    ensures |m.regs| == NREGS && r < NREGS && Mapped(m.regs[RSP].conc, 0, 8)
    ensures Pushed(m, r, Down(SP(m)), Step(m, Push(At(Whole(r)))))
  {
    hide MachineOk, SetCells, SetCon, SetNative, Fetch, LiveAt, Down, SP, Pushed, SymStep, NativeStep, Step,
         HasSymOperand, ListOk, Fits, PutOk, ConcOperand, ReadCells, Mapped, InRange;
    var i := Push(At(Whole(r)));
    PushIs(m, r);
    StepIs(m, i);
    SymPushIs(m, At(Whole(r)));
    var d, sp := Fetch(m, At(Whole(r)), 8), Down(SP(m));
    if !HasSymOperand(m, i) {
      NativePushIs(m, At(Whole(r)));
      PushedNative(m, r, sp, ConcOperand(m, At(Whole(r)), 8));
    } else if d.Listed? {
      SlotFits(SetCon(m, SP_REG, sp), Slot(sp), d.ps);
      PushedCells(m, r, sp, d.ps, d.v);
    } else {
      PushedCon(m, r, sp, d.v);
    }
  }

  lemma SlotFits(m: Machine, slot: Loc, ps: seq<Piece>)
    requires |m.regs| == NREGS && IsPlace(slot) && ListOk(m, slot, ps) && LocSize(slot) == 8
    ensures Fits(ps, Lo(slot), 8)
  {}

  // ---- there and back ----

  lemma PlainPushPop(p: Plain, r: nat)
    requires |p.regs| == NREGS && r < NREGS && r != RSP
    requires Mapped(p.regs[RSP], 0, 8) && Mapped(p.regs[r], 0, 8)
    requires PlainStepOk(p, Push(At(Whole(r)))) && Mapped(p.mem, Lo(Slot(Down(PlainSP(p)))), 8)
    ensures var p1 := PlainStep(p, Push(At(Whole(r))));
            && PlainStepOk(p1, Pop(Whole(r)))
            && PlainStep(p1, Pop(Whole(r))) == p.(mem := Put(p.mem, Lo(Slot(Down(PlainSP(p)))), Get(p.regs[r], 0, 8)))
  {
    var sp, v := PlainSP(p), Get(p.regs[r], 0, 8);
    var sp1 := Down(sp);
    var slot := Slot(sp1);
    UpDown(sp);
    PutGet(p.regs[RSP], sp1);
    MemPutGet(p.mem, Lo(slot), v);
    var a, b := Put(p.regs[RSP], 0, sp1), Put(p.regs[r], 0, v);
    assert Put(a, 0, sp) == p.regs[RSP] && b == p.regs[r];
    hide Down, Up, Slot, Put, Get, Mapped;
    var p1 := PlainStep(p, Push(At(Whole(r))));
    assert p1 == Plain(p.regs[RSP := a], Put(p.mem, Lo(slot), v), p.flags);
    assert PlainSP(p1) == sp1;
    var p2 := PlainStep(p1, Pop(Whole(r)));
    assert p2.regs == p.regs[RSP := a][r := b][RSP := Put(a, 0, sp)];
    assert p2.regs == p.regs;
  }

  lemma MemPutGet(c: map<int, byte>, lo: int, bs: seq<byte>)
    requires Mapped(c, lo, |bs|)
    ensures Mapped(Put(c, lo, bs), lo, |bs|) && Get(Put(c, lo, bs), lo, |bs|) == bs
  {}

  lemma PoppedSP(m: Machine, dst: Loc)
    requires StepOk(m, Pop(dst))
    ensures |Step(m, Pop(dst)).regs| == NREGS && !LiveAt(Step(m, Pop(dst)), SP_REG)
  {
    StepPlaces(m, Pop(dst));
    hide MachineOk, StepOk, HasSymOperand, SymStep, NativeStep, LiveAt, PutMoved, Fetch, SP, Up, ConcOperand, PutOk;
    SymPopIs(m, dst);
    if HasSymOperand(m, Pop(dst)) {
    } else {
      NativePopIs(m, dst);
      NativeLive(m, SP_REG, Up(SP(m)), SP_REG);
      NativeLive(SetNative(m, SP_REG, Up(SP(m))), dst, ConcOperand(m, At(Slot(SP(m))), 8), SP_REG);
    }
  }

  /** After the push the register may be popped. */
  lemma PushPoppable(m: Machine, r: nat)
    requires StepOk(m, Push(At(Whole(r)))) && r != RSP
    ensures Poppable(Step(m, Push(At(Whole(r)))), r)
  {
    var i := Push(At(Whole(r)));
    PushIs(m, r);
    PushMarks(m, r);
    StepPlaces(m, i);
    SlotReadable(m, r);
    UnmarkedIs(Step(m, i).mem, Lo(Slot(Down(SP(m)))));
    UnmarkedIs(m.regs[r], 0);
    hide MachineOk, StepOk, Step, Live, SP, Down, Slot, Mapped, PlaceOk, OneChunk;
    PlacesKept(m, Step(m, i));
  }

  /** A symbolic register is only pushed to a slot in one chunk. */
  lemma SlotReadable(m: Machine, r: nat)
    requires StepOk(m, Push(At(Whole(r))))
    ensures |m.regs| == NREGS && r < NREGS && Mapped(m.regs[RSP].conc, 0, 8)
    ensures LiveAt(m, Whole(r)) ==> OneChunk(Slot(Down(SP(m))))
  {
    hide *;
    PushIs(m, r);
    SymPushIs(m, At(Whole(r)));
    PushedSP(m, r);
    if LiveAt(m, Whole(r)) {
      HalfInChunk(Slot(Down(SP(m))));
    }
  }

  /** A register other than rsp that may be pushed may be popped right after. Its marked bytes, the value of every
      register under every assignment, the flags and the stack pointer are then what they were; memory has changed only
      in the slot, which holds the register's value. */
  lemma PushThenPop(m: Machine, r: nat, asg: Assignment)
    requires StepOk(m, Push(At(Whole(r)))) && r != RSP
    ensures var m1 := Step(m, Push(At(Whole(r))));
            && StepOk(m1, Pop(Whole(r)))
            && var m2 := Step(m1, Pop(Whole(r)));
               && MachineOk(m) && MachineOk(m2)
               && Mapped(m.regs[RSP].conc, 0, 8) && Mapped(m2.regs[RSP].conc, 0, 8) && SP(m2) == SP(m)
                   && !LiveAt(m2, SP_REG)
               && r < NREGS && SameMarks(m.regs[r], 0, m2.regs[r], 0)
               && Mapped(Meaning(m, asg).regs[r], 0, 8)
               && Meaning(m2, asg)
                  == Meaning(m, asg).(mem := Put(Meaning(m, asg).mem, Lo(Slot(Down(SP(m)))),
                      Get(Meaning(m, asg).regs[r], 0, 8)))
  {
    hide *;
    var i, j := Push(At(Whole(r))), Pop(Whole(r));
    var m1 := Step(m, i);
    PushIs(m, r);
    PushMarks(m, r);
    PushPoppable(m, r);
    PopOk(m1, r);
    PopMarks(m1, r);
    var m2 := Step(m1, j);
    StepPlaces(m, i);
    StepPlaces(m1, j);
    PoppedSP(m1, Whole(r));
    PushedSP(m, r);
    SPMapped(m2, asg);
    PlainFacts(m, r, asg);
    SPMeaning(m, asg);
    SPMeaning(m2, asg);
    StepSimulates(m, i, asg);
    StepSimulates(m1, j, asg);
    AlwaysExact(WriterOf(m, i), Meaning(m, asg), r);
    AlwaysExact(WriterOf(m1, j), Meaning(m1, asg), r);
    PlainPushPop(Meaning(m, asg), r);
    PlainSPKept(Meaning(m, asg), Meaning(m2, asg));
    MarksBack(m, r, Down(SP(m)), m1, m2);
  }

  lemma PlainSPKept(p: Plain, q: Plain)
    requires |p.regs| == NREGS && Mapped(p.regs[RSP], 0, 8) && q.regs == p.regs
    ensures PlainSP(q) == PlainSP(p)
  {}

  lemma PushedSP(m: Machine, r: nat)
    requires StepOk(m, Push(At(Whole(r))))
    ensures |m.regs| == NREGS && !LiveAt(m, SP_REG) && IsPlace(SP_REG) && IsPlace(Whole(r))
  {
    hide MachineOk, LiveAt, PutOk, SP, Down, Slot, Fetch;
  }

  lemma PlainFacts(m: Machine, r: nat, asg: Assignment)
    requires StepOk(m, Push(At(Whole(r))))
    ensures MachineOk(m) && |m.regs| == NREGS && r < NREGS && Mapped(m.regs[RSP].conc, 0, 8)
    ensures Mapped(Meaning(m, asg).regs[r], 0, 8)
    ensures Mapped(Meaning(m, asg).mem, Lo(Slot(Down(SP(m)))), 8)
  {
    hide MachineOk, Down, SP, Denote, WFStore, Agree, MeaningOfFlags, PutOk, Fetch, Live, InRange;
    PushIs(m, r);
    var slot := Slot(Down(SP(m)));
    assert MachineOk(m);
    MeaningAt(m, slot, asg);
    MeaningAt(m, Whole(r), asg);
    DenoteKeys(m.mem, asg);
    DenoteKeys(m.regs[r], asg);
    PlaceFacts(m, Whole(r));
  }

  /** Push, and pop into a register other than rsp, are the plain machine's whoever carries them out. */
  lemma AlwaysExact(w: Writer, p: Plain, r: nat)
    requires r != RSP && (w.Processor? ==> |w.hidden| == NREGS)
    ensures PlainStepOk(p, Push(At(Whole(r)))) ==> Exact(w, p, Push(At(Whole(r))))
    ensures PlainStepOk(p, Pop(Whole(r))) ==> Exact(w, p, Pop(Whole(r)))
  {}

  lemma MarksBack(m: Machine, r: nat, sp: seq<byte>, m1: Machine, m2: Machine)
    requires |m.regs| == |m2.regs| == NREGS && r < NREGS && |sp| == 8 && Pushed(m, r, sp, m1)
    requires SameMarks(m2.regs[r], 0, m1.mem, Lo(Slot(SP(m1))))
    ensures SameMarks(m.regs[r], 0, m2.regs[r], 0)
  {
    hide SP, Slot, LiveAt, MarkAt, Mapped;
    var lo := Lo(Slot(sp));
    forall k | 0 <= k < 8 ensures MarkAt(m.regs[r], 0, k) <==> MarkAt(m2.regs[r], 0, k) {
      assert MarkAt(m1.mem, lo, k) <==> MarkAt(m2.regs[r], 0, k);
    }
  }
}
