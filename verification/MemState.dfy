/** Symbolic memory (MemState.h:66-95, MemState.cpp:136-317): the chunk bitmap and the interval store over host memory.
    Addresses are canonical and written signed, as the interval store sees them. */
module MemState {
  import opened Bytes
  import opened Exprs
  import opened Pieces
  import opened Assembly
  import opened Stores
  import opened Cells
  import opened SymList
  import opened Addresses
  import opened Bitmap

  /** The bytes a concrete write of this size stores: none where the size is not a word's. */
  function Stored(size: nat, v: seq<byte>): (bs: seq<byte>)
    requires |v| == 8
    ensures |bs| == size || bs == []
  {
    if WordSize(size) then v[..size] else []
  }

  predicate Canonical(lo: int, hi: int) { LO <= lo < hi <= HI }

  lemma SpanIsRange(b: int, addr: int, size: nat)
    requires Canonical(addr, addr + size) && LO <= b < HI
    ensures InSpan(Ulong(b), Ulong(addr), size) <==> Inside(b, addr, size)
    ensures IsAddr(Ulong(addr)) && IsAddr(Ulong(b)) && Ulong(addr) % BLOCK + size < ULONG && size >= 1
  {}

  /** Cell q of a list that is to be moved by d. */
  lemma ShiftedAt(vs: seq<Piece>, d: int, q: nat)
    requires q < |vs| && Proper(vs) && InDom(Shift(vs, d))
    ensures var qs := Shift(vs, d);
            && |qs| == |vs| && qs[q].addr == vs[q].addr + d && vs[q].size >= 1
            && Canonical(qs[q].addr, qs[q].addr + vs[q].size) && LO <= qs[q].addr < HI
            && CoveredSet(qs[..q + 1]) == CoveredSet(qs[..q]) + Range(qs[q].addr, vs[q].size)
            && CoveredSet(qs[..0]) == {}
  {
    var qs := Shift(vs, d);
    assert qs[..q + 1] == qs[..q] + [qs[q]];
    forall b ensures Covered(qs[..q + 1], b) <==> Covered(qs[..q], b) || Inside(b, qs[q].addr, vs[q].size) {
      CoveredConcat(qs[..q], [qs[q]], b);
      if Inside(b, qs[q].addr, vs[q].size) { assert Covers([qs[q]][0], b); }
    }
  }

  lemma ValsMoved(cs: seq<SymCell>, qs: seq<Piece>)
    requires |cs| == |qs| && forall k {:trigger cs[k].addr} :: 0 <= k < |cs| ==>
               cs[k].addr == qs[k].addr && cs[k].size == qs[k].size && cs[k].exprPtr == qs[k].expr
    ensures Vals(cs) == qs
  {}

  lemma StartsThere(addr: int, size: nat)
    requires Canonical(addr, addr + size)
    ensures IsAddr(Ulong(addr)) && Ulong(addr) % BLOCK + size < ULONG && size >= 1
  {}

  lemma FitsStarts(ps: seq<Piece>, addr: int, size: nat)
    requires Fits(ps, addr, size)
    ensures IsAddr(Ulong(addr)) && Ulong(addr) % BLOCK + size < ULONG && Canonical(addr, addr + size)
    ensures InDom(Shift(ps, addr)) && Proper(ps)
  {
    StartsThere(addr, size);
  }

  lemma RangeStarts(addr: int, size: nat)
    requires InRange(addr, addr + size)
    ensures Canonical(addr, addr + size) && IsAddr(Ulong(addr)) && Ulong(addr) % BLOCK + size < ULONG && size >= 1
  {
    StartsThere(addr, size);
  }

  /** The argument of a memory read or write. */
  datatype MemValue = MemValue(addr: int, size: nat, bsym: bool, isSymList: bool, i64: seq<byte>, expr: Expr,
      symcellPtr: SymCell?)
  {
    /** What the source takes for granted of a write: canonical, mapped, of consistent width, and, if it is symbolic and
        in one chunk, in one half of it. */
    ghost predicate Writable(s: Store) {
      && InRange(addr, addr + size) && |i64| == 8 && (WordSize(size) ==> Mapped(s.conc, addr, size))
      && (bsym && !CrossesChunk(addr, size) ==> InHalfChunk(addr, size))
      && (bsym && !isSymList ==> WF(expr) && Width(expr) == size)
    }

    /** src is the list of a list write, unconnected to the cells of the store. */
    ghost predicate HasList(src: seq<SymCell>, cells: seq<SymCell>)
      reads src
    {
      bsym && isSymList ==> Chain(src) && symcellPtr == src[0] && Sep(cells, src) && Fits(Vals(src), addr, size)
    }
  }

  /** The store after writeMemoryCell. */
  function MemWritten(s: Store, v: MemValue, ps: seq<Piece>): Store
    requires |v.i64| == 8 && (v.bsym && v.isSymList ==> ps != [])
  {
    var bs := Stored(v.size, v.i64);
    if !v.bsym then WriteConcrete(s, v.addr, v.size, bs)
    else if CrossesChunk(v.addr, v.size) then s.(conc := Put(s.conc, v.addr, bs))
    else if v.isSymList then WriteList(s, v.addr, v.size, ps, bs)
    else WriteExpr(s, v.addr, v.size, v.expr, bs)
  }

  /** The first and the last byte of a span lie in one 32-byte block. */
  predicate OneBlock(addr: int, size: nat) {
    BlockOf(addr, 32) == BlockOf(addr + size - 1, 32)
  }

  lemma OneBlockIs(addr: int, size: nat)
    requires InRange(addr, addr + size)
    ensures OneBlock(addr, size) <==> !CrossesChunk(addr, size)
  {
    CrossesIs(addr, size);
    hide CrossesChunk, BlockOf;
  }

  lemma FitsThere(ps: seq<Piece>, addr: int, size: nat)
    requires Fits(ps, addr, size)
    ensures InRange(addr, addr + size)
  {}

  lemma WritableParts(v: MemValue, s: Store)
    requires v.Writable(s)
    ensures InRange(v.addr, v.addr + v.size) && |v.i64| == 8 && (WordSize(v.size) ==> Mapped(s.conc, v.addr, v.size))
    ensures v.bsym && !CrossesChunk(v.addr, v.size) ==> InHalfChunk(v.addr, v.size)
    ensures v.bsym && !v.isSymList ==> WF(v.expr) && Width(v.expr) == v.size
  {}

  lemma ListGiven(v: MemValue, src: seq<SymCell>, cells: seq<SymCell>)
    requires v.HasList(src, cells)
    ensures v.bsym && v.isSymList ==>
              |src| > 0 && Chain(src) && v.symcellPtr == src[0] && Sep(cells, src) && Fits(Vals(src), v.addr, v.size)
                  && Vals(src) != []
  {}

  /** The concrete bytes may be put down first. */
  lemma MemWrittenIs(s: Store, v: MemValue, ps: seq<Piece>)
    requires |v.i64| == 8 && (v.bsym && v.isSymList ==> ps != [])
    ensures var bs := Stored(v.size, v.i64);
            var s1 := Store(s.marks, s.cells, Put(s.conc, v.addr, bs));
            MemWritten(s, v, ps) ==
            if !v.bsym then WriteConcrete(s, v.addr, v.size, bs)
            else if CrossesChunk(v.addr, v.size) then s1
            else if v.isSymList then WriteList(s1, v.addr, v.size, ps, [])
            else WriteExpr(s1, v.addr, v.size, v.expr, [])
  {
    hide CrossesChunk, Stored;
    PutNothing(Put(s.conc, v.addr, Stored(v.size, v.i64)), v.addr);
  }

  /** e puts the live cells of a span together, over the concrete bytes of the span if it is a machine word and over
      some bytes otherwise. */
  ghost predicate IsSpanExpr(s: Store, addr: int, size: nat, e: Expr)
    requires size <= 8
  {
    var ps := ReadCells(s, addr, size);
    && Tidy(ps) && Within(ps, 0, size) && ps != []
    && (WordSize(size) && Mapped(s.conc, addr, size) ==> e == Assemble(ps, size, Get(s.conc, addr, size)))
    && exists v: seq<byte> {:trigger Assemble(ps, size, v)} :: |v| == 8 && e == Assemble(ps, size, v)
  }

  lemma SpanExprFrom(s: Store, addr: int, size: nat, e: Expr, v: seq<byte>)
    requires size <= 8 && |v| == 8
    requires var ps := ReadCells(s, addr, size);
             && Tidy(ps) && Within(ps, 0, size) && ps != [] && e == Assemble(ps, size, v)
             && (WordSize(size) && Mapped(s.conc, addr, size) ==> e == Assemble(ps, size, Get(s.conc, addr, size)))
    ensures IsSpanExpr(s, addr, size, e)
  {
    hide Assemble, ReadCells, Tidy, Within, WordSize, Mapped, Get;
  }

  lemma SpanExprIs(s: Store, addr: int, size: nat, e: Expr)
    requires WordSize(size) && size <= 8 && Mapped(s.conc, addr, size) && IsSpanExpr(s, addr, size, e)
    ensures var ps := ReadCells(s, addr, size);
            Tidy(ps) && Within(ps, 0, size) && ps != [] && e == Assemble(ps, size, Get(s.conc, addr, size))
  {
    hide Assemble, ReadCells, Tidy, Within, WordSize, Mapped, Get;
  }

  class SYMemState {
    const m_Bitmap: SYMemBitmap
    const m_AllSymbolList: Symbol_List_Map
    /** Host memory, which the source reaches through plain pointers. */
    var host: map<int, byte>

    ghost predicate Valid()
      reads this, m_Bitmap, m_Bitmap.m_SYMemBitmap.Values, m_AllSymbolList, m_AllSymbolList.cells
    {
      m_Bitmap.Valid() && m_AllSymbolList.Valid()
    }

    ghost function Marks(): set<int>
      reads m_Bitmap, m_Bitmap.m_SYMemBitmap.Values
    {
      set a | LO <= a < HI && m_Bitmap.Marked(Ulong(a))
    }

    /** The store this memory is. */
    ghost function View(): Store
      requires m_AllSymbolList.Valid()
      reads this, m_Bitmap, m_Bitmap.m_SYMemBitmap.Values, m_AllSymbolList, m_AllSymbolList.cells
    {
      Store(Marks(), m_AllSymbolList.Contents(), host)
    }

    constructor (memory: map<int, byte>)
      ensures Valid() && View() == Store({}, [], memory)
      ensures fresh(m_Bitmap) && fresh(m_Bitmap.m_SYMemBitmap.Values)
      ensures fresh(m_AllSymbolList) && fresh(m_AllSymbolList.cells)
    {
      hide *;
      m_Bitmap := new SYMemBitmap();
      m_AllSymbolList := new Symbol_List_Map();
      host := memory;
      new;
      EmptyView();
    }

    lemma EmptyView()
      requires m_Bitmap.Valid() && m_AllSymbolList.Valid()
      requires m_Bitmap.m_SYMemBitmap == map[] && m_AllSymbolList.Contents() == []
      ensures Valid() && View() == Store({}, [], host)
    {
      hide SYMemBitmap.Valid, Symbol_List_Map.Valid, Symbol_List_Map.Contents;
    }

    method WriteConcreteValue(address: int, size: nat, v: seq<byte>) returns (ok: bool)
      requires |v| == 8 && (WordSize(size) ==> Mapped(host, address, size))
      modifies this`host
      ensures ok == WordSize(size) && host == Put(old(host), address, Stored(size, v))
    {
      assert Put(host, address, []) == host;
      ok := true;
      match size
      case 1 => host := Put(host, address, v[..1]);
      case 2 => host := Put(host, address, v[..2]);
      case 4 => host := Put(host, address, v[..4]);
      case 8 => host := Put(host, address, v[..8]);
      case _ => ok := false;
    }

    method ReadConcreteValue(address: int, size: nat, v0: seq<byte>) returns (ok: bool, v: seq<byte>)
      requires |v0| == 8 && (WordSize(size) ==> Mapped(host, address, size))
      ensures ok == WordSize(size) && |v| == 8
      ensures v == if ok then SignExtend(Get(host, address, size)) else v0
      ensures ok ==> forall k :: 0 <= k < 8 ==>
                v[k] == if k < size then host[address + k] else if host[address + size - 1] >= 128 then 255 else 0
    {
      ok, v := true, v0;
      match size
      case 1 => v := SignExtend(Get(host, address, 1));
      case 2 => v := SignExtend(Get(host, address, 2));
      case 4 => v := SignExtend(Get(host, address, 4));
      case 8 => v := SignExtend(Get(host, address, 8));
      case _ => ok := false;
    }

    method IsSYMemoryCell(addr: int, size: nat) returns (b: bool)
      requires Valid() && InRange(addr, addr + size)
      ensures b <==> Live(View(), addr, size)
    {
      SpanIsRange(addr, addr, size);
      b := m_Bitmap.TestSYMemBitmap(Ulong(addr), size);
      LiveTest(addr, size);
    }

    lemma LiveTest(addr: int, size: nat)
      requires Valid() && InRange(addr, addr + size)
      ensures (exists u :: IsAddr(u) && InSpan(u, Ulong(addr), size) && m_Bitmap.Marked(u)) <==>
              Live(View(), addr, size)
    {
      if u :| IsAddr(u) && InSpan(u, Ulong(addr), size) && m_Bitmap.Marked(u) {
        var b := if u >= HI then u - ULONG else u;
        assert u == Ulong(b);
        SpanIsRange(b, addr, size);
        assert b in View().marks;
      }
      if Live(View(), addr, size) {
        var b :| Inside(b, addr, size) && b in View().marks;
        SpanIsRange(b, addr, size);
      }
    }

    /** The marks of the canonical addresses after a span was marked or unmarked in the bitmap. */
    twostate lemma MarksMarked(new addr: int, new size: nat)
      requires Canonical(addr, addr + size)
      requires forall u {:trigger m_Bitmap.Marked(u)} :: IsAddr(u) ==>
                 (m_Bitmap.Marked(u) <==> old(m_Bitmap.Marked(u)) || InSpan(u, Ulong(addr), size))
      ensures Marks() == old(Marks()) + Range(addr, size)
    {
      forall b | LO <= b < HI ensures b in Marks() <==> b in old(Marks()) || Inside(b, addr, size) {
        SpanIsRange(b, addr, size);
      }
    }

    twostate lemma MarksUnmarked(new addr: int, new size: nat)
      requires Canonical(addr, addr + size)
      requires forall u {:trigger m_Bitmap.Marked(u)} :: IsAddr(u) ==>
                 (m_Bitmap.Marked(u) <==> old(m_Bitmap.Marked(u)) && !InSpan(u, Ulong(addr), size))
      ensures Marks() == old(Marks()) - Range(addr, size)
    {
      forall b | LO <= b < HI ensures b in Marks() <==> b in old(Marks()) && !Inside(b, addr, size) {
        SpanIsRange(b, addr, size);
      }
    }

    /** Moves one cell to the target and marks the bytes it covers. */
    method PlaceCell(addr: int, c: SymCell)
      requires m_Bitmap.Valid() && c.size >= 1 && Canonical(c.addr + addr, c.addr + addr + c.size)
      modifies m_Bitmap, m_Bitmap.m_SYMemBitmap.Values, c`addr
      ensures m_Bitmap.Valid() && c.addr == old(c.addr) + addr
      ensures Marks() == old(Marks()) + Range(old(c.addr) + addr, c.size)
      ensures fresh(m_Bitmap.m_SYMemBitmap.Values - old(m_Bitmap.m_SYMemBitmap.Values))
    {
      hide *;
      c.addr := c.addr + addr;
      StartsThere(c.addr, c.size);
      var m := m_Bitmap.MarkSYMemBitmap(Ulong(c.addr), c.size);
      MarksMarked(c.addr, c.size);
    }

    /** Moves the cells of a list to the target and marks the bytes they cover. */
    method PlaceCells(addr: int, first: SymCell, ghost src: seq<SymCell>)
      requires m_Bitmap.Valid() && Chain(src) && first == src[0]
      requires Proper(Vals(src)) && InDom(Shift(Vals(src), addr))
      modifies m_Bitmap, m_Bitmap.m_SYMemBitmap.Values, (set c: SymCell | c in src)`addr
      ensures m_Bitmap.Valid() && Chain(src) && Vals(src) == Shift(old(Vals(src)), addr)
      ensures Marks() == old(Marks()) + CoveredSet(Shift(old(Vals(src)), addr))
      ensures fresh(m_Bitmap.m_SYMemBitmap.Values - old(m_Bitmap.m_SYMemBitmap.Values))
    {
      hide *;
      ListParts(src);
      ChainDistinct(src);
      ghost var vs := Vals(src);
      ghost var qs := Shift(vs, addr);
      var tmp: SymCell? := first;
      ghost var q := 0;
      ShiftedAt(vs, addr, 0);
      while tmp != null
        invariant q <= |src| && tmp == (if q < |src| then src[q] else null)
        invariant forall k {:trigger src[k].addr} :: 0 <= k < |src| ==>
                  src[k].addr == if k < q then qs[k].addr else vs[k].addr
        invariant m_Bitmap.Valid()
        invariant Marks() == old(Marks()) + CoveredSet(qs[..q])
        invariant fresh(m_Bitmap.m_SYMemBitmap.Values - old(m_Bitmap.m_SYMemBitmap.Values))
        decreases |src| - q
      {
        ShiftedAt(vs, addr, q);
        PlaceCell(addr, tmp);
        tmp, q := tmp.next, q + 1;
      }
      assert qs[..q] == qs;
      ChainKept(src);
      ValsMoved(src, qs);
    }

    /** writeSymbolicValue of a cell list. The whole target is unmarked, but only the span of the list is merged. */
    method WriteSymbolicList(addr: int, size: nat, list: SymCell, ghost src: seq<SymCell>) returns (ok: bool)
      requires Valid() && Chain(src) && list == src[0] && Sep(m_AllSymbolList.cells, src)
      requires Fits(Vals(src), addr, size) && (!CrossesChunk(addr, size) ==> InHalfChunk(addr, size))
      modifies m_Bitmap, m_Bitmap.m_SYMemBitmap.Values, m_AllSymbolList, m_AllSymbolList.cells, src
      ensures Valid() && ok == OneBlock(addr, size)
      ensures View() == if ok then WriteList(old(View()), addr, size, old(Vals(src)), []) else old(View())
      ensures fresh(m_Bitmap.m_SYMemBitmap.Values - old(m_Bitmap.m_SYMemBitmap.Values))
      ensures forall k :: 0 <= k < |m_AllSymbolList.cells| ==> var c := m_AllSymbolList.cells[k];
                c in old(m_AllSymbolList.cells) || c in src || fresh(c)
    {
      hide *;
      FitsThere(Vals(src), addr, size);
      OneBlockIs(addr, size);
      if CrossesChunk(addr, size) {
        return false;
      }
      ValidParts();
      ghost var s, vs := View(), Vals(src);
      FitsShift(vs, addr, size);
      FitsStarts(vs, addr, size);
      SepMembers(m_AllSymbolList.cells, src);
      m_Bitmap.UnmarkSYMemBitmap(Ulong(addr), size);
      MarksUnmarked(addr, size);
      label Unmarked:
      PlaceCells(addr, list, src);
      ghost var cells := m_AllSymbolList.cells;
      assert forall k {:trigger cells[k]} :: 0 <= k < |cells| ==> unchanged@Unmarked(cells[k]);
      m_AllSymbolList.Merge(list, src);
      WriteListIs(s, addr, size, vs, []);
      PutNothing(host, addr);
      ValidFromParts();
      ok := true;
    }

    /** writeSymbolicValue of one expression. */
    method WriteSymbolicExpr(addr: int, size: nat, e: Expr) returns (ok: bool)
      requires Valid() && InRange(addr, addr + size) && WF(e) && Width(e) == size
      requires !CrossesChunk(addr, size) ==> InHalfChunk(addr, size)
      modifies m_Bitmap, m_Bitmap.m_SYMemBitmap.Values, m_AllSymbolList, m_AllSymbolList.cells
      ensures Valid() && ok == OneBlock(addr, size)
      ensures View() == if ok then WriteExpr(old(View()), addr, size, e, []) else old(View())
      ensures fresh(m_Bitmap.m_SYMemBitmap.Values - old(m_Bitmap.m_SYMemBitmap.Values))
      ensures forall k :: 0 <= k < |m_AllSymbolList.cells| ==> var c := m_AllSymbolList.cells[k];
                c in old(m_AllSymbolList.cells) || fresh(c)
    {
      hide *;
      OneBlockIs(addr, size);
      if CrossesChunk(addr, size) {
        return false;
      }
      ValidParts();
      ghost var s := View();
      RangeStarts(addr, size);
      var m := m_Bitmap.MarkSYMemBitmap(Ulong(addr), size);
      MarksMarked(addr, size);
      var list := new SymCell(addr, size, e);
      SingleCell(list, m_AllSymbolList.cells);
      OnePiece(addr, size, e);
      m_AllSymbolList.Merge(list, [list]);
      WriteExprIs(s, addr, size, e);
      ValidFromParts();
      ok := true;
    }

    /** What writeMemoryCell does to a value that is not symbolic. */
    method WriteConcreteCell(addr: int, size: nat, i64: seq<byte>) returns (ok: bool)
      requires Valid() && InRange(addr, addr + size) && |i64| == 8 && (WordSize(size) ==> Mapped(host, addr, size))
      modifies this, m_Bitmap, m_Bitmap.m_SYMemBitmap.Values, m_AllSymbolList, m_AllSymbolList.cells
      ensures Valid() && ok == WordSize(size)
      ensures View() == WriteConcrete(old(View()), addr, size, Stored(size, i64))
      ensures fresh(m_Bitmap.m_SYMemBitmap.Values - old(m_Bitmap.m_SYMemBitmap.Values))
      ensures forall k :: 0 <= k < |m_AllSymbolList.cells| ==> var c := m_AllSymbolList.cells[k];
                c in old(m_AllSymbolList.cells) || fresh(c)
    {
      hide *;
      ValidParts();
      ghost var s := View();
      RangeStarts(addr, size);
      m_Bitmap.UnmarkSYMemBitmap(Ulong(addr), size);
      MarksUnmarked(addr, size);
      m_AllSymbolList.Remove(addr, size);
      ok := WriteConcreteValue(addr, size, i64);
      WriteConcreteIs(s, addr, size, Stored(size, i64));
      ValidFromParts();
    }

    /** writeMemoryCell: the concrete bytes go to host memory even when the symbolic write is then refused. */
    method WriteMemoryCell(v: MemValue, ghost src: seq<SymCell>) returns (ok: bool)
      requires Valid() && v.Writable(View()) && v.HasList(src, m_AllSymbolList.cells)
      modifies this, m_Bitmap, m_Bitmap.m_SYMemBitmap.Values, m_AllSymbolList, m_AllSymbolList.cells, src
      ensures Valid() && ok == if v.bsym then OneBlock(v.addr, v.size) else WordSize(v.size)
      ensures View() == MemWritten(old(View()), v, old(Vals(src)))
      ensures fresh(m_Bitmap.m_SYMemBitmap.Values - old(m_Bitmap.m_SYMemBitmap.Values))
      ensures forall k :: 0 <= k < |m_AllSymbolList.cells| ==> var c := m_AllSymbolList.cells[k];
                c in old(m_AllSymbolList.cells) || c in src || fresh(c)
    {
      hide *;
      ValidParts();
      ghost var s, ps := View(), Vals(src);
      WritableParts(v, s);
      OneBlockIs(v.addr, v.size);
      ListGiven(v, src, m_AllSymbolList.cells);
      MemWrittenIs(s, v, ps);
      if v.bsym {
        var _ := WriteConcreteValue(v.addr, v.size, v.i64);
        ValidFromParts();
        if v.isSymList {
          ok := WriteSymbolicList(v.addr, v.size, v.symcellPtr, src);
        } else {
          ok := WriteSymbolicExpr(v.addr, v.size, v.expr);
        }
      } else {
        ok := WriteConcreteCell(v.addr, v.size, v.i64);
      }
    }

    /** A marked byte in the chunk of a live span. */
    lemma MarkInChunk(addr: int, size: nat) returns (u: int)
      requires Valid() && InRange(addr, addr + size) && Live(View(), addr, size) && !CrossesChunk(addr, size)
      ensures m_Bitmap.Valid() && IsAddr(Align(Ulong(addr)))
      ensures m_Bitmap.Marked(u) && Align(u) == Align(Align(Ulong(addr)))
    {
      hide View, SYMemBitmap.Valid, SYMemBitmap.Marked, Live;
      LiveTest(addr, size);
      u :| IsAddr(u) && InSpan(u, Ulong(addr), size) && m_Bitmap.Marked(u);
      SpanInChunk(u, Ulong(addr), size);
    }

    /** A span with a marked byte that stays in its chunk has a chunk. */
    method CheckChunk(addr: int, size: nat) returns (c: SYMemChunk?)
      requires Valid() && InRange(addr, addr + size) && Live(View(), addr, size) && !CrossesChunk(addr, size)
      ensures c != null
    {
      hide *;
      ghost var u := MarkInChunk(addr, size);
      c := m_Bitmap.FindSYMemChunk(Align(Ulong(addr)));
      u := MarkInChunk(addr, size);
    }

    /** readSymbolicValue of a cell list: private copies of the cells of the span, moved to 0. */
    method ReadSymbolicList(addr: int, size: nat) returns (ok: bool, list: SymCell?, ghost out: seq<SymCell>)
      requires Valid() && Agree(View()) && InRange(addr, addr + size) && Live(View(), addr, size)
      ensures ok == OneBlock(addr, size)
      ensures ok ==> fresh(out) && Chain(out) && list == out[0] && Vals(out) == ReadCells(View(), addr, size)
    {
      hide *;
      OneBlockIs(addr, size);
      out := [];
      if CrossesChunk(addr, size) {
        return false, null, [];
      }
      var _ := CheckChunk(addr, size);
      ValidParts();
      FindsCells(View(), addr, size);
      list, out := m_AllSymbolList.GetCellList(addr, size);
      ok := true;
    }

    /** readSymbolicValue of one expression. The bytes between the cells come from a local that is only set for the size
        of a machine word. */
    method ReadSymbolicExpr(addr: int, size: nat) returns (ok: bool, e: Expr)
      requires Valid() && Agree(View()) && InRange(addr, addr + size) && Live(View(), addr, size)
      requires size <= 8 && (WordSize(size) ==> Mapped(host, addr, size))
      ensures ok == OneBlock(addr, size)
      ensures ok ==> IsSpanExpr(View(), addr, size, e)
    {
      hide *;
      OneBlockIs(addr, size);
      if CrossesChunk(addr, size) {
        return false, Null;
      }
      var _ := CheckChunk(addr, size);
      ValidParts();
      FindsCells(View(), addr, size);
      var v0 := new byte[8];
      var known, v := ReadConcreteValue(addr, size, v0[..]);
      e := m_AllSymbolList.GetExpr(addr, size, v);
      if WordSize(size) {
        AssembleLow(ReadCells(View(), addr, size), size, Get(host, addr, size), v);
      }
      SpanExprFrom(View(), addr, size, e, v);
      ok := true;
    }

    /** readMemoryCell. */
    method ReadMemoryCell(v: MemValue) returns (ok: bool, r: MemValue, ghost out: seq<SymCell>)
      requires Valid() && Agree(View()) && InRange(v.addr, v.addr + v.size) && |v.i64| == 8
      requires (WordSize(v.size) ==> Mapped(host, v.addr, v.size)) && (!v.isSymList ==> v.size <= 8)
      ensures r.addr == v.addr && r.size == v.size && r.bsym == Live(View(), v.addr, v.size)
      ensures r.i64 == if WordSize(v.size) then SignExtend(Get(host, v.addr, v.size)) else v.i64
      ensures !r.bsym ==> ok == WordSize(v.size) && !r.isSymList
      ensures r.bsym ==> ok == OneBlock(v.addr, v.size) && r.isSymList == v.isSymList
      ensures r.bsym && ok && v.isSymList ==>
                fresh(out) && Chain(out) && r.symcellPtr == out[0] && Vals(out) == ReadCells(View(), v.addr, v.size)
      ensures r.bsym && ok && !v.isSymList ==> IsSpanExpr(View(), v.addr, v.size, r.expr)
    {
      hide *;
      out := [];
      var bsym := IsSYMemoryCell(v.addr, v.size);
      var known, i64 := ReadConcreteValue(v.addr, v.size, v.i64);
      r := v.(bsym := bsym, i64 := i64);
      if !bsym {
        r := r.(isSymList := false);
        ok := known;
      } else if v.isSymList {
        var list;
        ok, list, out := ReadSymbolicList(v.addr, v.size);
        r := r.(symcellPtr := list);
      } else {
        var e;
        ok, e := ReadSymbolicExpr(v.addr, v.size);
        r := r.(expr := e);
      }
    }

    /** Memory that was not written is as it was. */
    twostate lemma Kept()
      requires old(Valid()) && unchanged(this) && unchanged(m_Bitmap) && unchanged(m_AllSymbolList)
      requires forall c {:trigger c in m_Bitmap.m_SYMemBitmap.Values} :: c in m_Bitmap.m_SYMemBitmap.Values ==>
               unchanged(c)
      requires forall k {:trigger m_AllSymbolList.cells[k]} :: 0 <= k < |m_AllSymbolList.cells| ==>
               unchanged(m_AllSymbolList.cells[k])
      ensures Valid() && View() == old(View())
    {
      hide Symbol_List_Map.Valid;
    }

    lemma ValidParts()
      requires Valid()
      ensures m_Bitmap.Valid() && m_AllSymbolList.Valid()
      ensures View() == Store(Marks(), m_AllSymbolList.Contents(), host)
      ensures WFStore(View()) && WFList(View().cells)
    {
      m_AllSymbolList.ContentsWF();
    }

    lemma ValidFromParts()
      requires m_Bitmap.Valid() && m_AllSymbolList.Valid()
      ensures Valid() && View() == Store(Marks(), m_AllSymbolList.Contents(), host)
    {}
  }
}
