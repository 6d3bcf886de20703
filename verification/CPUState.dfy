/** Symbolic registers (CPUState.h:44-197, CPUState.cpp:78-487): sub-registers share one word, one byte bitmap and one
    cell list. */
module CPUState {
  import opened Bytes
  import opened Exprs
  import opened Pieces
  import opened Assembly
  import opened Stores
  import opened Cells
  import opened SymList
  import opened Words
  import opened Machines

  /** reg_mask_bits */
  function RegMask(k: SubReg): bv32 {
    match k
    case FULL => 0xff
    case D => 0xF
    case W => 0x3
    case L => 0x1
  }

  lemma RegMaskBit(k: SubReg, b: nat)
    requires b < 32
    ensures Bit(RegMask(k), b) <==> b < RegSize(k)
  {
    hide Bit;
    LowBits(b);
  }

  /** The bytes of a register that a bitmap marks. */
  ghost function MarkedBytes(w: bv32): (s: set<int>) {
    set b | 0 <= b < 32 && Bit(w, b)
  }

  lemma MarkedBytesOps(w: bv32, m: bv32)
    ensures MarkedBytes(Words.Marked(w, m)) == MarkedBytes(w) + MarkedBytes(m)
    ensures MarkedBytes(Words.Unmarked(w, m)) == MarkedBytes(w) - MarkedBytes(m)
    ensures Words.Common(w, m) != 0 <==> MarkedBytes(w) * MarkedBytes(m) != {}
  {
    hide Bit, Words.Marked, Words.Unmarked, Words.Common;
    forall b | 0 <= b < 32
      ensures Bit(Words.Marked(w, m), b) <==> Bit(w, b) || Bit(m, b)
      ensures Bit(Words.Unmarked(w, m), b) <==> Bit(w, b) && !Bit(m, b)
      ensures Bit(Words.Common(w, m), b) <==> Bit(w, b) && Bit(m, b)
    {
      MarkedWith(w, m, b);
    }
    ZeroWord(Words.Common(w, m));
    if Words.Common(w, m) != 0 {
      var b :| 0 <= b < 32 && Bit(Words.Common(w, m), b);
      assert b in MarkedBytes(w) * MarkedBytes(m);
    }
    if b :| b in MarkedBytes(w) * MarkedBytes(m) {
      assert Bit(Words.Common(w, m), b);
    }
  }

  lemma MaskBytes(k: SubReg)
    ensures MarkedBytes(RegMask(k)) == Range(0, RegSize(k))
  {
    hide Bit;
    forall b | 0 <= b < 32 ensures Bit(RegMask(k), b) <==> Inside(b, 0, RegSize(k)) {
      RegMaskBit(k, b);
    }
  }

  lemma OneByte(i: nat)
    requires i < 32
    ensures MarkedBytes(OneBit(i)) == {i}
  {
    hide Bit, OneBit;
    forall b | 0 <= b < 32 ensures Bit(OneBit(i), b) <==> i == b {
      OneBitIs(i, b);
    }
  }

  lemma NoBytes()
    ensures MarkedBytes(0) == {}
  {
    hide Bit;
    ZeroWord(0);
  }

  /** A word as bytes 0..8 of a store. */
  function WordMap(word: seq<byte>): map<int, byte>
  {
    map i | 0 <= i < |word| :: word[i]
  }

  lemma WordMapGet(word: seq<byte>, n: nat)
    requires n <= |word|
    ensures Mapped(WordMap(word), 0, n) && Get(WordMap(word), 0, n) == word[..n]
  {}

  /** One register's storage: its word in m_ArrRegs, its entry of m_symBitmap and its entry of m_symList. Only the low
      eight bits of a bitmap are ever set, so 32 of the 64 are kept. */
  class RegSlot {
    var word: seq<byte>
    var symBitmap: bv32
    const symList: Symbol_List_Map

    constructor (value: seq<byte>)
      requires |value| == 8
      ensures Valid() && word == value && View() == Store({}, [], WordMap(value))
      ensures fresh(symList) && fresh(symList.cells)
    {
      word, symBitmap := value, 0;
      symList := new Symbol_List_Map();
      new;
      NoBytes();
    }

    ghost predicate Valid()
      reads this, symList, symList.cells
    {
      |word| == 8 && symList.Valid()
    }

    ghost function View(): Store
      requires Valid()
      reads this, symList, symList.cells
    {
      Store(MarkedBytes(symBitmap), symList.Contents(), WordMap(word))
    }

    lemma ValidParts()
      requires Valid()
      ensures |word| == 8 && symList.Valid()
      ensures View() == Store(MarkedBytes(symBitmap), symList.Contents(), WordMap(word))
      ensures WFStore(View()) && WFList(View().cells)
    {
      symList.ContentsWF();
    }

    lemma ValidFromParts()
      requires |word| == 8 && symList.Valid()
      ensures Valid() && View() == Store(MarkedBytes(symBitmap), symList.Contents(), WordMap(word))
    {}
  }

  /** The argument of a register read or write. */
  datatype RegValue = RegValue(bsym: bool, isSymList: bool, i64: seq<byte>, expr: Expr, symcellPtr: SymCell?)
  {
    ghost predicate Writable(k: SubReg) {
      |i64| == 8 && (bsym && !isSymList ==> WF(expr) && Width(expr) == RegSize(k))
    }

    ghost predicate HasList(src: seq<SymCell>, k: SubReg, cells: seq<SymCell>)
      reads src
    {
      bsym && isSymList ==>
        Chain(src) && symcellPtr == src[0] && Sep(cells, src) && Fits(AtZero(Vals(src)), 0, RegSize(k))
    }
  }

  /** A list whose first address, as an unsigned number, is 8 or more is moved to start at 0. */
  function AtZero(ps: seq<Piece>): seq<Piece> {
    if ps == [] || 0 <= First(ps) < 8 then ps else Shift(ps, -First(ps))
  }

  /** The store after writeRegister. */
  function RegWritten(s: Store, k: SubReg, v: RegValue, ps: seq<Piece>): Store
    requires |v.i64| == 8 && (v.bsym && v.isSymList ==> ps != [])
  {
    var n, bs := RegSize(k), v.i64[..RegSize(k)];
    if !v.bsym then WriteConcrete(s, 0, n, bs)
    else if v.isSymList then WriteList(s, 0, n, AtZero(ps), bs)
    else WriteExpr(s, 0, n, v.expr, bs)
  }

  lemma AtZeroIs(ps: seq<Piece>)
    ensures AtZero(ps) == if ps == [] || 0 <= ps[0].addr < 8 then ps else Shift(ps, -ps[0].addr)
  {}

  lemma RangeGrows(lo: int, n: nat)
    ensures Range(lo, n + 1) == Range(lo, n) + {lo + n} && Range(lo, 0) == {}
  {
    forall b ensures Inside(b, lo, n + 1) <==> Inside(b, lo, n) || b == lo + n {}
  }

  lemma CoverNone(vs: seq<Piece>)
    ensures CoveredSet(vs[..0]) == {}
  {}

  lemma CoverNext(vs: seq<Piece>, q: nat)
    requires q < |vs| && Proper(vs) && Within(vs, 0, 8)
    ensures 0 <= vs[q].addr && 0 <= vs[q].size && vs[q].addr + vs[q].size <= 8
    ensures CoveredSet(vs[..q + 1]) == CoveredSet(vs[..q]) + Range(vs[q].addr, vs[q].size)
  {
    assert vs[..q + 1] == vs[..q] + [vs[q]];
    forall b ensures Covered(vs[..q + 1], b) <==> Covered(vs[..q], b) || Inside(b, vs[q].addr, vs[q].size) {
      CoveredConcat(vs[..q], [vs[q]], b);
      if Inside(b, vs[q].addr, vs[q].size) { assert Covers([vs[q]][0], b); }
    }
  }

  lemma FitsRegister(ps: seq<Piece>, n: nat)
    requires Fits(ps, 0, n) && n <= 8
    ensures Shift(ps, 0) == ps && Proper(ps) && Within(ps, 0, 8) && ps != []
    ensures WFList(ps) && InRange(First(ps), Stop(ps))
  {
    FitsShift(ps, 0, n);
    assert Shift(ps, 0) == ps;
  }

  lemma WritableParts(v: RegValue, k: SubReg)
    requires v.Writable(k)
    ensures |v.i64| == 8 && (v.bsym && !v.isSymList ==> WF(v.expr) && Width(v.expr) == RegSize(k))
  {}

  lemma ListGiven(v: RegValue, src: seq<SymCell>, k: SubReg, cells: seq<SymCell>)
    requires v.HasList(src, k, cells)
    ensures v.bsym && v.isSymList ==>
              |src| > 0 && Chain(src) && v.symcellPtr == src[0] && Sep(cells, src)
              && Fits(AtZero(Vals(src)), 0, RegSize(k)) && Vals(src) != [] && AtZero(Vals(src)) != []
  {}

  lemma RegRange(k: SubReg)
    ensures InRange(0, 0 + RegSize(k)) && 1 <= RegSize(k) <= 8
  {}

  /** The concrete bytes may be put down first. */
  lemma RegWrittenIs(s: Store, k: SubReg, v: RegValue, ps: seq<Piece>)
    requires |v.i64| == 8 && (v.bsym && v.isSymList ==> ps != [])
    ensures var n, bs := RegSize(k), v.i64[..RegSize(k)];
            var s1 := Store(s.marks, s.cells, Put(s.conc, 0, bs));
            RegWritten(s, k, v, ps) ==
            if !v.bsym then WriteConcrete(s, 0, n, bs)
            else if v.isSymList then WriteList(s1, 0, n, AtZero(ps), [])
            else WriteExpr(s1, 0, n, v.expr, [])
  {
    PutNothing(Put(s.conc, 0, v.i64[..RegSize(k)]), 0);
  }

  class MachineReg {
    const indx: SubReg
    const slot: RegSlot

    constructor (k: SubReg, s: RegSlot)
      ensures indx == k && slot == s
    {
      indx, slot := k, s;
    }

    method IsSYReg() returns (bsym: bool)
      requires slot.Valid()
      ensures bsym <==> Live(slot.View(), 0, RegSize(indx))
    {
      bsym := Words.Common(slot.symBitmap, RegMask(indx)) != 0;
      MarkedBytesOps(slot.symBitmap, RegMask(indx));
      MaskBytes(indx);
    }

    method SetSYReg()
      modifies slot`symBitmap
      ensures MarkedBytes(slot.symBitmap) == old(MarkedBytes(slot.symBitmap)) + Range(0, RegSize(indx))
    {
      MarkedBytesOps(slot.symBitmap, RegMask(indx));
      MaskBytes(indx);
      slot.symBitmap := Words.Marked(slot.symBitmap, RegMask(indx));
    }

    method ClrSYReg()
      modifies slot`symBitmap
      ensures MarkedBytes(slot.symBitmap) == old(MarkedBytes(slot.symBitmap)) - Range(0, RegSize(indx))
    {
      MarkedBytesOps(slot.symBitmap, RegMask(indx));
      MaskBytes(indx);
      slot.symBitmap := Words.Unmarked(slot.symBitmap, RegMask(indx));
    }

    /** Writes the low bytes of the word; the others stay, also for a 32-bit part. */
    method WriteConcreteValue(v: seq<byte>)
      requires |v| == 8 && |slot.word| == 8
      modifies slot`word
      ensures |slot.word| == 8 && WordMap(slot.word) == Put(old(WordMap(slot.word)), 0, v[..RegSize(indx)])
    {
      match RegSize(indx)
      case 1 => slot.word := Low(slot.word, v[..1]);
      case 2 => slot.word := Low(slot.word, v[..2]);
      case 4 => slot.word := Low(slot.word, v[..4]);
      case _ => slot.word := Low(slot.word, v[..8]);
    }

    /** Reads the low bytes of the word into the low bytes of the argument. */
    method ReadConcreteValue(v0: seq<byte>) returns (v: seq<byte>)
      requires |v0| == 8 && |slot.word| == 8
      ensures |v| == 8 && v == Low(v0, slot.word[..RegSize(indx)])
    {
      match RegSize(indx)
      case 1 => v := Low(v0, slot.word[..1]);
      case 2 => v := Low(v0, slot.word[..2]);
      case 4 => v := Low(v0, slot.word[..4]);
      case _ => v := Low(v0, slot.word[..8]);
    }

    /** Sets the bits of one cell's bytes. */
    static method CellBits(c: SymCell, bits: bv32) returns (r: bv32)
      requires 0 <= c.addr && 0 <= c.size && c.addr + c.size <= 8
      ensures MarkedBytes(r) == MarkedBytes(bits) + Range(c.addr, c.size)
    {
      hide *;
      r := bits;
      var i := c.addr;
      RangeGrows(c.addr, 0);
      while i < c.addr + c.size
        invariant c.addr <= i <= c.addr + c.size
        invariant MarkedBytes(r) == MarkedBytes(bits) + Range(c.addr, i - c.addr)
      {
        RangeGrows(c.addr, i - c.addr);
        MarkedBytesOps(r, OneBit(i));
        OneByte(i);
        r := Words.Marked(r, OneBit(i));
        i := i + 1;
      }
    }

    /** The bitmap of the bytes that a list covers. */
    static method ListBits(first: SymCell, ghost src: seq<SymCell>) returns (tmpbitmap: bv32)
      requires Chain(src) && first == src[0] && Proper(Vals(src)) && Within(Vals(src), 0, 8)
      ensures MarkedBytes(tmpbitmap) == CoveredSet(Vals(src))
    {
      hide *;
      ListParts(src);
      ghost var vs := Vals(src);
      tmpbitmap := 0;
      NoBytes();
      CoverNone(vs);
      var tmp: SymCell? := first;
      ghost var q := 0;
      while tmp != null
        invariant q <= |src| && tmp == (if q < |src| then src[q] else null)
        invariant MarkedBytes(tmpbitmap) == CoveredSet(vs[..q])
        decreases |src| - q
      {
        CoverNext(vs, q);
        tmpbitmap := CellBits(tmp, tmpbitmap);
        tmp, q := tmp.next, q + 1;
      }
      assert vs[..q] == vs;
    }

    /** The rebasing loop of writeRegister. */
    static method MoveToZero(first: SymCell, ghost src: seq<SymCell>)
      requires Chain(src) && first == src[0]
      modifies (set c: SymCell | c in src)`addr
      ensures Chain(src) && Vals(src) == AtZero(old(Vals(src)))
    {
      hide *;
      ListParts(src);
      AtZeroIs(Vals(src));
      var start := first.addr;
      if !(0 <= start < 8) {
        Symbol_List_Map.Rebase(first, -start, src);
      }
    }

    /** writeRegister of a cell list. */
    method WriteCellList(first: SymCell, ghost src: seq<SymCell>)
      requires slot.Valid() && Chain(src) && first == src[0] && Sep(slot.symList.cells, src)
      requires Fits(AtZero(Vals(src)), 0, RegSize(indx))
      modifies slot`symBitmap, slot.symList, slot.symList.cells, src
      ensures slot.Valid()
      ensures slot.View() == WriteList(old(slot.View()), 0, RegSize(indx), AtZero(old(Vals(src))), [])
      ensures forall k :: 0 <= k < |slot.symList.cells| ==> var c := slot.symList.cells[k];
                c in old(slot.symList.cells) || c in src || fresh(c)
    {
      hide *;
      slot.ValidParts();
      ghost var s, ps := slot.View(), AtZero(Vals(src));
      FitsRegister(ps, RegSize(indx));
      SepMembers(slot.symList.cells, src);
      MoveToZero(first, src);
      ghost var cells := slot.symList.cells;
      assert forall k {:trigger cells[k]} :: 0 <= k < |cells| ==> unchanged(cells[k]);
      var tmpbitmap := ListBits(first, src);
      ClrSYReg();
      MarkedBytesOps(slot.symBitmap, tmpbitmap);
      slot.symBitmap := Words.Marked(slot.symBitmap, tmpbitmap);
      slot.symList.Merge(first, src);
      WriteListIs(s, 0, RegSize(indx), ps, []);
      PutNothing(s.conc, 0);
      slot.ValidFromParts();
    }

    /** writeRegister */
    method WriteRegister(v: RegValue, ghost src: seq<SymCell>)
      requires slot.Valid() && v.Writable(indx) && v.HasList(src, indx, slot.symList.cells)
      modifies slot, slot.symList, slot.symList.cells, src
      ensures slot.Valid()
      ensures slot.View() == RegWritten(old(slot.View()), indx, v, old(Vals(src)))
      ensures forall k :: 0 <= k < |slot.symList.cells| ==> var c := slot.symList.cells[k];
                c in old(slot.symList.cells) || c in src || fresh(c)
    {
      hide *;
      slot.ValidParts();
      ghost var s, n := slot.View(), RegSize(indx);
      WritableParts(v, indx);
      ListGiven(v, src, indx, slot.symList.cells);
      RegWrittenIs(s, indx, v, Vals(src));
      RegRange(indx);
      if !v.bsym {
        ClrSYReg();
        slot.symList.Remove(0, RegSize(indx));
        WriteConcreteValue(v.i64);
        WriteConcreteIs(s, 0, n, v.i64[..n]);
        slot.ValidFromParts();
        return;
      }
      WriteConcreteValue(v.i64);
      slot.ValidFromParts();
      if v.isSymList {
        WriteCellList(v.symcellPtr, src);
      } else {
        SetSYReg();
        var list := new SymCell(0, RegSize(indx), v.expr);
        SingleCell(list, slot.symList.cells);
        OnePiece(0, n, v.expr);
        slot.symList.Merge(list, [list]);
        WriteExprIs(Store(s.marks, s.cells, WordMap(slot.word)), 0, n, v.expr);
        slot.ValidFromParts();
      }
    }

    /** readRegister. A part that holds no symbolic byte is read from the word; the bytes of the argument above the
        part stay as they are. */
    method ReadRegister(v: RegValue) returns (r: RegValue, ghost out: seq<SymCell>)
      requires slot.Valid() && Agree(slot.View()) && |v.i64| == 8
      ensures r.bsym == Live(slot.View(), 0, RegSize(indx)) && r.i64 == Low(v.i64, slot.word[..RegSize(indx)])
      ensures !r.bsym ==> !r.isSymList
      ensures r.bsym ==> r.isSymList == v.isSymList
      ensures r.bsym && v.isSymList ==>
                fresh(out) && Chain(out) && r.symcellPtr == out[0]
                    && Vals(out) == ReadCells(slot.View(), 0, RegSize(indx))
      ensures r.bsym && !v.isSymList ==>
                var n := RegSize(indx);
                var ps, conc := ReadCells(slot.View(), 0, n), slot.word[..n];
                Tidy(ps) && Within(ps, 0, n) && ps != [] && r.expr == Assemble(ps, n, conc)
    {
      hide *;
      out := [];
      slot.ValidParts();
      RegRange(indx);
      ghost var n := RegSize(indx);
      var bSym := IsSYReg();
      r := v.(bsym := bSym);
      if !bSym {
        var i64 := ReadConcreteValue(v.i64);
        r := r.(isSymList := false, i64 := i64);
        return;
      }
      FindsCells(slot.View(), 0, n);
      var i64 := ReadConcreteValue(v.i64);
      r := r.(i64 := i64);
      if v.isSymList {
        var list;
        list, out := slot.symList.GetCellList(0, RegSize(indx));
        r := r.(symcellPtr := list);
      } else {
        var e := slot.symList.GetExpr(0, RegSize(indx), i64);
        AssembleLow(ReadCells(slot.View(), 0, n), n, slot.word[..n], i64);
        r := r.(expr := e);
      }
    }
  }

  // ---- all registers ----

  datatype RegName = RegName(reg: nat, part: SubReg)

  /** A slot whose storage was not written is as it was. */
  twostate lemma SlotKept(s: RegSlot)
    requires old(s.Valid()) && unchanged(s) && unchanged(s.symList)
    requires forall k {:trigger s.symList.cells[k]} :: 0 <= k < |s.symList.cells| ==> unchanged(s.symList.cells[k])
    ensures s.Valid() && s.View() == old(s.View())
  {}

  /** The storage of a slot lies in own. */
  ghost predicate OwnedSlot(s: RegSlot, own: set<object>)
    reads own
  {
    && s in own && s.symList in own
    && (forall k {:trigger s.symList.cells[k]} :: 0 <= k < |s.symList.cells| ==> s.symList.cells[k] in own)
    && s.Valid()
  }

  ghost predicate ApartSlots(s: RegSlot, t: RegSlot)
    reads s.symList, t.symList
  {
    s != t && s.symList != t.symList && Sep(s.symList.cells, t.symList.cells)
  }

  /** The slots of a new register file. */
  method MakeSlots(words: seq<seq<byte>>) returns (ss: seq<RegSlot>, ghost own: set<object>)
    requires forall i :: 0 <= i < |words| ==> |words[i]| == 8
    ensures fresh(own) && |ss| == |words|
    ensures forall i {:trigger ss[i]} :: 0 <= i < |ss| ==>
              OwnedSlot(ss[i], own) && ss[i].View() == Store({}, [], WordMap(words[i]))
    ensures forall i, j {:trigger ss[i], ss[j]} :: 0 <= i < |ss| && 0 <= j < |ss| && i != j ==> ApartSlots(ss[i], ss[j])
  {
    hide *;
    ss, own := [], {};
    while |ss| < |words|
      invariant |ss| <= |words| && fresh(own)
      invariant forall i {:trigger ss[i]} :: 0 <= i < |ss| ==>
                  OwnedSlot(ss[i], own) && ss[i].Valid() && ss[i].View() == Store({}, [], WordMap(words[i]))
      invariant forall i, j {:trigger ss[i], ss[j]} :: 0 <= i < |ss| && 0 <= j < |ss| && i != j ==>
                ApartSlots(ss[i], ss[j])
    {
      var s := new RegSlot(words[|ss|]);
      ghost var all := own + {s, s.symList} + set k | 0 <= k < |s.symList.cells| :: s.symList.cells[k] as object;
      assert forall k {:trigger s.symList.cells[k]} :: 0 <= k < |s.symList.cells| ==> s.symList.cells[k] !in own;
      forall i | 0 <= i < |ss|
        ensures OwnedSlot(ss[i], all) && ApartSlots(ss[i], s) && ApartSlots(s, ss[i])
      {
        ApartNew(ss[i], own, s, all);
      }
      OwnedNew(s, all);
      ss, own := ss + [s], all;
    }
  }

  lemma OwnedNew(s: RegSlot, own: set<object>)
    requires s in own && s.symList in own && s.Valid()
    requires forall k {:trigger s.symList.cells[k]} :: 0 <= k < |s.symList.cells| ==> s.symList.cells[k] in own
    ensures OwnedSlot(s, own)
  {}

  lemma ApartNew(s: RegSlot, own: set<object>, t: RegSlot, all: set<object>)
    requires OwnedSlot(s, own) && own <= all && t !in own && t.symList !in own
    requires forall k {:trigger t.symList.cells[k]} :: 0 <= k < |t.symList.cells| ==> t.symList.cells[k] !in own
    ensures OwnedSlot(s, all) && ApartSlots(s, t) && ApartSlots(t, s)
  {}

  /** The table has an entry for this part, of this part, on this slot. */
  ghost predicate Entered(regs: map<RegName, MachineReg>, ss: seq<RegSlot>, n: nat, k: SubReg) {
    n < |ss| && RegName(n, k) in regs && regs[RegName(n, k)].slot == ss[n] && regs[RegName(n, k)].indx == k
  }

  function PartIndex(k: SubReg): (i: nat)
    ensures i < 4
  {
    match k
    case FULL => 0
    case D => 1
    case W => 2
    case L => 3
  }

  lemma OwnedIs(s: RegSlot, own: set<object>)
    requires OwnedSlot(s, own)
    ensures s in own && s.symList in own && s.Valid()
    ensures forall k {:trigger s.symList.cells[k]} :: 0 <= k < |s.symList.cells| ==> s.symList.cells[k] in own
  {}

  lemma ApartIs(s: RegSlot, t: RegSlot)
    requires ApartSlots(s, t)
    ensures s != t && s.symList != t.symList && Sep(s.symList.cells, t.symList.cells)
  {}

  class SYCPUState {
    const slots: seq<RegSlot>
    const m_Regs: map<RegName, MachineReg>
    ghost var Repr: set<object>

    /** All storage of slot i belongs to this object. */
    ghost predicate Owns(i: nat)
      requires i < |slots|
      reads this, Repr
    {
      && slots[i] in Repr && slots[i].symList in Repr
      && forall k {:trigger slots[i].symList.cells[k]} :: 0 <= k < |slots[i].symList.cells| ==>
          slots[i].symList.cells[k] in Repr
    }

    ghost predicate SlotOk(i: nat)
      requires i < |slots|
      reads this, Repr
    {
      Owns(i) && slots[i].Valid()
    }

    /** No two registers share storage. */
    ghost predicate Apart(i: nat, j: nat)
      requires i < |slots| && j < |slots|
      reads this, Repr
    {
      Owns(i) && Owns(j) &&
      (i != j ==> slots[i] != slots[j] && slots[i].symList != slots[j].symList
                  && Sep(slots[i].symList.cells, slots[j].symList.cells))
    }

    /** The names of the register table, each for its part of its slot. */
    ghost predicate Table()
    {
      |slots| == NREGS &&
      forall n: nat, k {:trigger Entered(m_Regs, slots, n, k)} :: HasName(n, k) ==> Entered(m_Regs, slots, n, k)
    }

    ghost predicate Valid()
      reads this, Repr
    {
      && Table() && this !in Repr
      && (forall i: nat {:trigger SlotOk(i)} :: i < NREGS ==> SlotOk(i))
      && (forall i: nat, j: nat {:trigger Apart(i, j)} :: i < NREGS && j < NREGS ==> Apart(i, j))
    }

    ghost function SlotView(i: nat): Store
      requires i < |slots| && SlotOk(i)
      reads this, Repr
    {
      slots[i].View()
    }

    ghost function View(): (v: seq<Store>)
      requires Valid()
      reads this, Repr
      ensures |v| == NREGS
    {
      seq(NREGS, i requires 0 <= i < |slots| && SlotOk(i) reads this, Repr => SlotView(i))
    }

    /** Fills the table with the parts that have names, all parts of a register sharing its slot. */
    static method MakeTable(ss: seq<RegSlot>) returns (regs: map<RegName, MachineReg>)
      requires |ss| == NREGS
      ensures forall n: nat, k {:trigger Entered(regs, ss, n, k)} :: HasName(n, k) ==> Entered(regs, ss, n, k)
      ensures forall name :: name in regs ==> HasName(name.reg, name.part)
    {
      regs := map[];
      var n := 0;
      while n < NREGS
        invariant 0 <= n <= NREGS
        invariant forall i: nat, k {:trigger Entered(regs, ss, i, k)} :: i < n && HasName(i, k) ==>
                  Entered(regs, ss, i, k)
        invariant forall name :: name in regs ==> HasName(name.reg, name.part)
      {
        var parts := [FULL, D, W, L];
        var p := 0;
        while p < 4
          invariant 0 <= p <= 4
          invariant forall i: nat, k {:trigger Entered(regs, ss, i, k)} ::
                      (i < n || (i == n && PartIndex(k) < p)) && HasName(i, k) ==> Entered(regs, ss, i, k)
          invariant forall name :: name in regs ==> HasName(name.reg, name.part)
        {
          ghost var before := regs;
          if HasName(n, parts[p]) {
            var R := new MachineReg(parts[p], ss[n]);
            regs := regs[RegName(n, parts[p]) := R];
          }
          forall i: nat, k | (i < n || (i == n && PartIndex(k) < p + 1)) && HasName(i, k)
            ensures Entered(regs, ss, i, k) {
            assert i < n || PartIndex(k) < p ==> Entered(before, ss, i, k);
          }
          p := p + 1;
        }
        n := n + 1;
      }
    }

    constructor (words: seq<seq<byte>>)
      requires |words| == NREGS && forall i :: 0 <= i < NREGS ==> |words[i]| == 8
      ensures Valid() && fresh(Repr)
      ensures forall i {:trigger View()[i]} :: 0 <= i < NREGS ==> View()[i] == Store({}, [], WordMap(words[i]))
    {
      hide *;
      var ss;
      ghost var own;
      ss, own := MakeSlots(words);
      var regs := MakeTable(ss);
      slots, m_Regs, Repr := ss, regs, own;
      new;
      TableFrom();
      InOrder(words);
    }

    lemma InOrder(words: seq<seq<byte>>)
      requires Table() && this !in Repr && |words| == |slots| == NREGS
      requires forall i {:trigger slots[i]} :: 0 <= i < |slots| ==>
                 OwnedSlot(slots[i], Repr) && slots[i].View() == Store({}, [], WordMap(words[i]))
      requires forall i, j {:trigger slots[i], slots[j]} :: 0 <= i < |slots| && 0 <= j < |slots| && i != j ==>
               ApartSlots(slots[i], slots[j])
      ensures Valid()
      ensures forall i {:trigger View()[i]} :: 0 <= i < NREGS ==> View()[i] == Store({}, [], WordMap(words[i]))
    {
      hide View, Valid, WordMap, OwnedSlot, ApartSlots, RegSlot.Valid, RegSlot.View;
      forall i: nat | i < NREGS ensures SlotOk(i) {
        OwnedIs(slots[i], Repr);
      }
      forall i: nat, j: nat | i < NREGS && j < NREGS ensures Apart(i, j) {
        OwnedIs(slots[i], Repr);
        OwnedIs(slots[j], Repr);
        if i != j {
          ApartIs(slots[i], slots[j]);
        }
      }
      ValidFromSlots();
      forall i: nat | i < NREGS ensures View()[i] == Store({}, [], WordMap(words[i])) {
        SlotFacts(i);
      }
    }

    lemma TableFrom()
      requires |slots| == NREGS
      requires forall n: nat, k {:trigger Entered(m_Regs, slots, n, k)} :: HasName(n, k) ==>
               Entered(m_Regs, slots, n, k)
      ensures Table()
    {}

    lemma SlotFacts(i: nat)
      requires Valid() && i < NREGS
      ensures |slots| == NREGS && SlotOk(i) && slots[i].Valid() && Owns(i) && View()[i] == slots[i].View()
      ensures slots[i] in Repr && slots[i].symList in Repr
      ensures forall k {:trigger slots[i].symList.cells[k]} :: 0 <= k < |slots[i].symList.cells| ==>
              slots[i].symList.cells[k] in Repr
      ensures forall c {:trigger c in slots[i].symList.cells} :: c in slots[i].symList.cells ==> c in Repr
      ensures forall o: object {:trigger o in slots[i].symList.cells} :: o in slots[i].symList.cells ==> o in Repr
    {}

    lemma NameFacts(n: nat, k: SubReg)
      requires Valid() && HasName(n, k)
      ensures n < NREGS && |slots| == NREGS && RegName(n, k) in m_Regs
      ensures m_Regs[RegName(n, k)].slot == slots[n] && m_Regs[RegName(n, k)].indx == k
    {
      assert Entered(m_Regs, slots, n, k);
    }

    /** A register other than n, when only n's storage and cells outside were written. */
    twostate lemma OtherKept(j: nat, new n: nat, new src: seq<SymCell>)
      requires old(Valid()) && |slots| == NREGS && j < NREGS && n < NREGS && j != n && old(SlotOk(j))
      requires forall c {:trigger c in src} :: c in src ==> c !in old(Repr)
      requires forall o: object {:trigger o in old(Repr)} ::
                 (o in old(Repr) && o != slots[n] && o != slots[n].symList && o !in old(slots[n].symList.cells)
                     && o !in src)
                 ==> unchanged(o)
      ensures slots[j].Valid() && slots[j].View() == old(slots[j].View())
              && slots[j].symList.cells == old(slots[j].symList.cells)
    {
      assert old(SlotOk(j)) && old(Apart(j, n));
      hide *;
      SlotKept(slots[j]);
    }

    twostate lemma SlotAgain(i: nat, new n: nat, new src: seq<SymCell>)
      requires |slots| == NREGS && i < NREGS && n < NREGS && old(SlotOk(i))
      requires forall o: object {:trigger o in old(Repr)} :: o in old(Repr) ==> o in Repr
      requires i == n ==> forall k {:trigger slots[n].symList.cells[k]} :: 0 <= k < |slots[n].symList.cells| ==>
                 slots[n].symList.cells[k] in Repr
      requires i != n ==> slots[i].symList.cells == old(slots[i].symList.cells)
      requires slots[i].Valid()
      ensures SlotOk(i)
    {}

    twostate lemma ApartAgain(i: nat, new j: nat, new n: nat, new src: seq<SymCell>)
      requires |slots| == NREGS && i < NREGS && j < NREGS && n < NREGS
      requires old(Apart(i, j)) && SlotOk(i) && SlotOk(j)
      requires forall c {:trigger c in src} :: c in src ==> c !in old(Repr)
      requires forall k {:trigger slots[n].symList.cells[k]} :: 0 <= k < |slots[n].symList.cells| ==>
                 var c := slots[n].symList.cells[k]; c in old(slots[n].symList.cells) || c in src || fresh(c)
      requires i != n ==> slots[i].symList.cells == old(slots[i].symList.cells)
      requires j != n ==> slots[j].symList.cells == old(slots[j].symList.cells)
      ensures Apart(i, j)
    {
      hide RegSlot.Valid;
      if i != j {
        assert old(Sep(slots[i].symList.cells, slots[j].symList.cells));
        forall k, l | 0 <= k < |slots[i].symList.cells| && 0 <= l < |slots[j].symList.cells|
          ensures slots[i].symList.cells[k] != slots[j].symList.cells[l]
        {
          assert i != n ==> slots[i].symList.cells[k] in old(Repr);
          assert j != n ==> slots[j].symList.cells[l] in old(Repr);
        }
      }
    }

    lemma ValidFromSlots()
      requires Table() && this !in Repr
      requires forall i: nat {:trigger SlotOk(i)} :: i < NREGS ==> SlotOk(i)
      requires forall i: nat, j: nat {:trigger Apart(i, j)} :: i < NREGS && j < NREGS ==> Apart(i, j)
      ensures Valid()
    {}

    lemma TableOf()
      requires Valid()
      ensures Table() && this !in Repr && |slots| == NREGS
    {}

    lemma PairOf(i: nat, j: nat)
      requires Valid() && i < NREGS && j < NREGS && |slots| == NREGS
      ensures Apart(i, j)
    {}

    method WriteRegister(name: RegName, v: RegValue, ghost src: seq<SymCell>)
      requires Valid() && HasName(name.reg, name.part) && |slots| == NREGS && name.reg < NREGS
      requires v.Writable(name.part) && v.HasList(src, name.part, slots[name.reg].symList.cells)
      requires forall c {:trigger c in src} :: c in src ==> c !in Repr
      modifies this`Repr, slots[name.reg], slots[name.reg].symList, slots[name.reg].symList.cells, src
      ensures Valid()
      ensures View() == old(View())[name.reg := RegWritten(old(View()[name.reg]), name.part, v, old(Vals(src)))]
      ensures forall o: object {:trigger o in Repr} :: o in Repr ==> o in old(Repr) || o in src || fresh(o)
    {
      hide *;
      ghost var n := name.reg;
      TableOf();
      forall i: nat | i < NREGS ensures SlotOk(i) && slots[i].Valid() && View()[i] == slots[i].View() { SlotFacts(i); }
      forall i: nat, j: nat | i < NREGS && j < NREGS ensures Apart(i, j) { PairOf(i, j); }
      NameFacts(name.reg, name.part);
      SlotFacts(n);
      var R := m_Regs[name];
      R.WriteRegister(v, src);
      forall j: nat | j < NREGS && j != n
        ensures slots[j].Valid() && slots[j].View() == old(View())[j]
                && slots[j].symList.cells == old(slots[j].symList.cells)
      {
        OtherKept(j, n, src);
      }
      Repr := Repr + set k | 0 <= k < |slots[n].symList.cells| :: slots[n].symList.cells[k] as object;
      AllAgain(n, src);
    }

    twostate lemma AllAgain(n: nat, new src: seq<SymCell>)
      requires old(Valid()) && |slots| == NREGS && n < NREGS && Table() && this !in Repr
      requires forall i: nat {:trigger old(SlotOk(i))} :: i < NREGS ==> old(SlotOk(i))
      requires forall i: nat, j: nat {:trigger old(Apart(i, j))} :: i < NREGS && j < NREGS ==> old(Apart(i, j))
      requires forall c {:trigger c in src} :: c in src ==> c !in old(Repr)
      requires forall o: object {:trigger o in old(Repr)} :: o in old(Repr) ==> o in Repr
      requires forall k {:trigger slots[n].symList.cells[k]} :: 0 <= k < |slots[n].symList.cells| ==>
                 var c := slots[n].symList.cells[k];
                 c in Repr && (c in old(slots[n].symList.cells) || c in src || fresh(c))
      requires slots[n].Valid()
      requires forall j: nat {:trigger slots[j]} :: j < NREGS && j != n ==>
                 slots[j].Valid() && slots[j].View() == old(View())[j]
                     && slots[j].symList.cells == old(slots[j].symList.cells)
      ensures Valid() && View() == old(View())[n := slots[n].View()]
    {
      hide *;
      forall i: nat | i < NREGS ensures SlotOk(i) {
        SlotAgain(i, n, src);
      }
      forall i: nat, j: nat | i < NREGS && j < NREGS ensures Apart(i, j) {
        ApartAgain(i, j, n, src);
      }
      ValidFromSlots();
      forall i: nat | i < NREGS ensures View()[i] == old(View())[n := slots[n].View()][i] {
        SlotFacts(i);
      }
    }

    method ReadRegister(name: RegName, v: RegValue) returns (r: RegValue, ghost out: seq<SymCell>)
      requires Valid() && HasName(name.reg, name.part) && |slots| == NREGS && name.reg < NREGS
      requires Agree(View()[name.reg]) && |v.i64| == 8
      ensures r.bsym == Live(View()[name.reg], 0, RegSize(name.part))
      ensures SlotOk(name.reg) && r.i64 == Low(v.i64, slots[name.reg].word[..RegSize(name.part)])
      ensures !r.bsym ==> !r.isSymList
      ensures r.bsym ==> r.isSymList == v.isSymList
      ensures r.bsym && v.isSymList ==>
                fresh(out) && Chain(out) && r.symcellPtr == out[0]
                    && Vals(out) == ReadCells(View()[name.reg], 0, RegSize(name.part))
      ensures r.bsym && !v.isSymList ==>
                var n := RegSize(name.part);
                var ps, conc := ReadCells(View()[name.reg], 0, n), slots[name.reg].word[..n];
                Tidy(ps) && Within(ps, 0, n) && ps != [] && r.expr == Assemble(ps, n, conc)
    {
      hide *;
      SlotFacts(name.reg);
      NameFacts(name.reg, name.part);
      var R := m_Regs[name];
      r, out := R.ReadRegister(v);
    }
  }
}
