/** The virtual machine state (VMState.h:68-73, VMState.cpp:27-227), operand access (oprand.cpp:16-140) and the
    instruction handlers of the symbolic executor (symexec.cpp:382-474, 572-859, 1140-1310). */
module VMStates {
  import opened Bytes
  import opened Exprs
  import opened Pieces
  import opened Assembly
  import opened Addresses
  import opened Stores
  import opened Cells
  import opened Bitmap
  import opened Branch
  import opened Machines
  import opened Steps
  import opened Paths
  import CPU = CPUState
  import MEM = MemState

  class VMState {
    const m_CPU: CPU.SYCPUState
    const m_MEM: MEM.SYMemState
    const m_EFlagsMgr: EFlagsManager

    constructor (words: seq<seq<byte>>, memory: map<int, byte>, flags: Flags)
      requires |words| == NREGS && forall i :: 0 <= i < NREGS ==> |words[i]| == 8
      ensures Valid()
      ensures View().mem == Store({}, [], memory) && View().flags == Known(flags)
      ensures forall i {:trigger View().regs[i]} :: 0 <= i < NREGS ==>
              View().regs[i] == Store({}, [], CPU.WordMap(words[i]))
      ensures MachineOk(View())
    {
      hide *;
      var cpu := new CPU.SYCPUState(words);
      var mem := new MEM.SYMemState(memory);
      var mgr := new EFlagsManager(flags);
      m_CPU, m_MEM, m_EFlagsMgr := cpu, mem, mgr;
      new;
      MemReprIs();
      MemOkIs();
      FromParts();
      forall i | 0 <= i < NREGS ensures Mapped(View().regs[i].conc, 0, 8) { CPU.WordMapGet(words[i], 8); }
      ConcreteOk(View());
    }

    lemma MemOkIs()
      ensures MemOk() <==> m_MEM.Valid()
    {}

    lemma MemReprIs()
      ensures forall o: object {:trigger o in MemRepr()} :: o in MemRepr() <==>
                o == m_MEM || o == m_MEM.m_Bitmap || o == m_MEM.m_AllSymbolList
                || (exists c: SYMemChunk :: c in m_MEM.m_Bitmap.m_SYMemBitmap.Values && o == c)
                || (exists k :: 0 <= k < |m_MEM.m_AllSymbolList.cells| && o == m_MEM.m_AllSymbolList.cells[k])
    {}

    /** The objects of memory. */
    ghost function MemRepr(): set<object>
      reads m_MEM, m_MEM.m_Bitmap, m_MEM.m_AllSymbolList
    {
      {m_MEM, m_MEM.m_Bitmap, m_MEM.m_AllSymbolList}
      + (set c | c in m_MEM.m_Bitmap.m_SYMemBitmap.Values :: c as object)
      + (set k | 0 <= k < |m_MEM.m_AllSymbolList.cells| :: m_MEM.m_AllSymbolList.cells[k] as object)
    }

    ghost predicate MemOk()
      reads m_MEM, m_MEM.m_Bitmap, m_MEM.m_Bitmap.m_SYMemBitmap.Values, m_MEM.m_AllSymbolList,
          m_MEM.m_AllSymbolList.cells
    {
      m_MEM.Valid()
    }

    /** Registers, memory and flags are in order and share no object. */
    ghost predicate Valid()
      reads m_CPU, m_CPU.Repr, m_EFlagsMgr
      reads m_MEM, m_MEM.m_Bitmap, m_MEM.m_Bitmap.m_SYMemBitmap.Values, m_MEM.m_AllSymbolList,
          m_MEM.m_AllSymbolList.cells
    {
      && m_CPU.Valid() && MemOk() && m_EFlagsMgr.Valid()
      && m_CPU.Repr !! MemRepr() && m_EFlagsMgr !in m_CPU.Repr && m_EFlagsMgr !in MemRepr()
      && m_CPU !in MemRepr()
    }

    ghost function View(): (m: Machine)
      requires Valid()
      reads m_CPU, m_CPU.Repr, m_EFlagsMgr
      reads m_MEM, m_MEM.m_Bitmap, m_MEM.m_Bitmap.m_SYMemBitmap.Values, m_MEM.m_AllSymbolList,
          m_MEM.m_AllSymbolList.cells
      ensures |m.regs| == NREGS
    {
      Machine(m_CPU.View(), m_MEM.View(), m_EFlagsMgr.m_LastExpr)
    }

    lemma Parts()
      requires Valid()
      ensures m_CPU.Valid() && MemOk() && m_MEM.Valid() && m_EFlagsMgr.Valid()
      ensures m_CPU.Repr !! MemRepr() && m_EFlagsMgr !in m_CPU.Repr && m_EFlagsMgr !in MemRepr() && m_CPU !in MemRepr()
      ensures View() == Machine(m_CPU.View(), m_MEM.View(), m_EFlagsMgr.m_LastExpr)
    {}

    lemma FromParts()
      requires m_CPU.Valid() && MemOk() && m_EFlagsMgr.Valid()
      requires m_CPU.Repr !! MemRepr() && m_EFlagsMgr !in m_CPU.Repr && m_EFlagsMgr !in MemRepr() && m_CPU !in MemRepr()
      ensures Valid() && m_MEM.Valid() && View() == Machine(m_CPU.View(), m_MEM.View(), m_EFlagsMgr.m_LastExpr)
    {}

    /** No object of memory is one of the registers', nor one of a loose list. */
    lemma MemApart(src: seq<SymCell>)
      requires Valid() && Loose(src)
      ensures m_MEM !in m_CPU.Repr && m_MEM.m_Bitmap !in m_CPU.Repr && m_MEM.m_AllSymbolList !in m_CPU.Repr
      ensures forall c {:trigger c in m_MEM.m_Bitmap.m_SYMemBitmap.Values} ::
                c in m_MEM.m_Bitmap.m_SYMemBitmap.Values ==> c !in m_CPU.Repr && c in MemRepr()
      ensures forall k {:trigger m_MEM.m_AllSymbolList.cells[k]} :: 0 <= k < |m_MEM.m_AllSymbolList.cells| ==>
                m_MEM.m_AllSymbolList.cells[k] !in m_CPU.Repr && m_MEM.m_AllSymbolList.cells[k] !in src
    {
      assert m_MEM in MemRepr() && m_MEM.m_Bitmap in MemRepr() && m_MEM.m_AllSymbolList in MemRepr();
      assert forall c :: c in m_MEM.m_Bitmap.m_SYMemBitmap.Values ==> c in MemRepr();
      assert forall k :: 0 <= k < |m_MEM.m_AllSymbolList.cells| ==> m_MEM.m_AllSymbolList.cells[k] in MemRepr();
    }

    twostate lemma MemReprKept()
      requires unchanged(m_MEM.m_Bitmap) && unchanged(m_MEM.m_AllSymbolList)
      ensures MemRepr() == old(MemRepr())
    {}

    /** Registers whose objects were not written are as they were. */
    twostate lemma CpuKept()
      requires old(m_CPU.Valid()) && unchanged(m_CPU)
      requires forall o: object {:trigger o in old(m_CPU.Repr)} :: o in old(m_CPU.Repr) ==> unchanged(o)
      ensures m_CPU.Valid() && m_CPU.View() == old(m_CPU.View()) && m_CPU.Repr == old(m_CPU.Repr)
    {}

    /** Cells that belong to nobody. */
    ghost predicate Loose(src: seq<SymCell>)
      reads m_CPU, m_MEM, m_MEM.m_Bitmap, m_MEM.m_AllSymbolList
    {
      forall c {:trigger c in src} :: c in src ==> c !in m_CPU.Repr && c !in MemRepr() && (c as object) != m_EFlagsMgr
    }

    /** writeRegister */
    method WriteRegister(n: nat, k: SubReg, v: CPU.RegValue, ghost src: seq<SymCell>)
      requires Valid() && HasName(n, k) && n < NREGS && |m_CPU.slots| == NREGS && v.Writable(k)
      requires v.HasList(src, k, m_CPU.slots[n].symList.cells) && Loose(src)
      modifies m_CPU`Repr, m_CPU.Repr, src
      ensures Valid()
      ensures View() == old(View()).(regs := old(View()).regs[n := CPU.RegWritten(old(View().regs[n]), k, v,
              old(Vals(src)))])
      ensures MemRepr() == old(MemRepr())
      ensures forall o: object {:trigger o in m_CPU.Repr} :: o in m_CPU.Repr ==>
              o in old(m_CPU.Repr) || o in src || fresh(o)
    {
      hide *;
      Parts();
      m_CPU.SlotFacts(n);
      LooseParts(src);
      MemApart(src);
      m_CPU.WriteRegister(CPU.RegName(n, k), v, src);
      m_MEM.Kept();
      MemReprKept();
      MemReprIs();
      forall o: object | o in MemRepr() ensures o !in m_CPU.Repr {
        assert o !in src;
        if c: SYMemChunk :| c in m_MEM.m_Bitmap.m_SYMemBitmap.Values && o == c {
          assert c !in old(m_CPU.Repr);
        } else if k :| 0 <= k < |m_MEM.m_AllSymbolList.cells| && o == m_MEM.m_AllSymbolList.cells[k] {
          assert m_MEM.m_AllSymbolList.cells[k] !in old(m_CPU.Repr);
        }
      }
      MemOkIs();
      FromParts();
    }

    lemma LooseParts(src: seq<SymCell>)
      requires Loose(src)
      ensures forall c {:trigger c in src} :: c in src ==>
              c !in m_CPU.Repr && c !in MemRepr() && (c as object) != m_EFlagsMgr
      ensures forall o: object {:trigger o in MemRepr()} :: o in MemRepr() ==> o !in src
      ensures forall o: object {:trigger o in src} :: o in src ==> o !in m_CPU.Repr && o != m_EFlagsMgr
    {}

    /** writeMemory */
    method WriteMemory(v: MEM.MemValue, ghost src: seq<SymCell>) returns (ok: bool)
      requires Valid() && v.Writable(View().mem) && v.HasList(src, m_MEM.m_AllSymbolList.cells) && Loose(src)
      modifies m_MEM, m_MEM.m_Bitmap, m_MEM.m_Bitmap.m_SYMemBitmap.Values, m_MEM.m_AllSymbolList,
          m_MEM.m_AllSymbolList.cells, src
      ensures Valid() && ok == if v.bsym then MEM.OneBlock(v.addr, v.size) else WordSize(v.size)
      ensures View() == old(View()).(mem := MEM.MemWritten(old(View().mem), v, old(Vals(src))))
      ensures m_CPU.Repr == old(m_CPU.Repr)
      ensures forall o: object {:trigger o in MemRepr()} :: o in MemRepr() ==>
              o in old(MemRepr()) || o in src || fresh(o)
    {
      hide *;
      Parts();
      MemReprIs();
      LooseParts(src);
      ok := m_MEM.WriteMemoryCell(v, src);
      MemReprIs();
      MemOkIs();
      forall o: object | o in old(m_CPU.Repr) ensures unchanged(o) {
        assert o != m_MEM;
        assert o != m_MEM.m_Bitmap;
        assert o !in old(m_MEM.m_Bitmap.m_SYMemBitmap.Values);
        assert o !in old(m_MEM.m_AllSymbolList.cells);
        assert o !in src;
      }
      CpuKept();
      FromParts();
    }

    // ---- operands ----

    /** setConValue */
    method SetConValue(loc: Loc, v: seq<byte>)
      requires Valid() && PlaceOk(View(), loc) && |v| == 8 && IsPlace(loc) && LocSize(loc) <= 8
      modifies m_CPU`Repr, m_CPU.Repr, MemRepr()
      ensures Valid() && View() == SetCon(old(View()), loc, v)
      ensures forall o: object {:trigger o in m_CPU.Repr} :: o in m_CPU.Repr ==> o in old(m_CPU.Repr) || fresh(o)
      ensures forall o: object {:trigger o in MemRepr()} :: o in MemRepr() ==> o in old(MemRepr()) || fresh(o)
    {
      hide *;
      Ready();
      match loc
      case RegLoc(n, k) =>
        RegPlace(View(), n, k);
        var V := CPU.RegValue(false, false, v, Null, null);
        SetRegCon(View(), n, k, V);
        WriteRegister(n, k, V, []);
      case MemLoc(addr, size) =>
        var V := MEM.MemValue(addr, size, false, false, v, Null, null);
        SetMemCon(View(), addr, size, V);
        var ok := WriteMemory(V, []);
    }

    /** setSymValue of an expression; the concrete value under it is zero. */
    method SetSymExpr(loc: Loc, e: Expr)
      requires Valid() && PlaceOk(View(), loc) && SymOk(loc) && IsPlace(loc) && LocSize(loc) <= 8
      requires WF(e) && Width(e) == LocSize(loc)
      modifies m_CPU`Repr, m_CPU.Repr, MemRepr()
      ensures Valid() && View() == SetExpr(old(View()), loc, e)
      ensures forall o: object {:trigger o in m_CPU.Repr} :: o in m_CPU.Repr ==> o in old(m_CPU.Repr) || fresh(o)
      ensures forall o: object {:trigger o in MemRepr()} :: o in MemRepr() ==> o in old(MemRepr()) || fresh(o)
    {
      hide *;
      Ready();
      match loc
      case RegLoc(n, k) =>
        RegPlace(View(), n, k);
        var V := CPU.RegValue(true, false, ZEROS, e, null);
        SetRegExpr(View(), n, k, V);
        WriteRegister(n, k, V, []);
      case MemLoc(addr, size) =>
        var V := MEM.MemValue(addr, size, true, false, ZEROS, e, null);
        SetMemExpr(View(), addr, size, V);
        var ok := WriteMemory(V, []);
    }

    /** setSymValue of a cell list, which the destination takes over. */
    method SetSymList(loc: Loc, list: SymCell, v: seq<byte>, ghost src: seq<SymCell>)
      requires Valid() && PlaceOk(View(), loc) && SymOk(loc) && IsPlace(loc) && LocSize(loc) <= 8 && |v| == 8
      requires Chain(src) && list == src[0] && Loose(src) && ListOk(View(), loc, Vals(src))
      modifies m_CPU`Repr, m_CPU.Repr, MemRepr(), src
      ensures Valid() && old(Vals(src)) != [] && View() == SetCells(old(View()), loc, old(Vals(src)), v)
      ensures forall o: object {:trigger o in m_CPU.Repr} :: o in m_CPU.Repr ==>
              o in old(m_CPU.Repr) || o in src || fresh(o)
      ensures forall o: object {:trigger o in MemRepr()} :: o in MemRepr() ==>
              o in old(MemRepr()) || o in src || fresh(o)
    {
      hide *;
      Ready();
      LooseSep(src);
      match loc
      case RegLoc(n, k) =>
        RegPlace(View(), n, k);
        LooseRegister(n, src);
        var V := CPU.RegValue(true, true, v, Null, list);
        SetRegCells(View(), n, k, V, src, m_CPU.slots[n].symList.cells);
        WriteRegister(n, k, V, src);
      case MemLoc(addr, size) =>
        var V := MEM.MemValue(addr, size, true, true, v, Null, list);
        SetMemCells(View(), addr, size, V, src, m_MEM.m_AllSymbolList.cells);
        var ok := WriteMemory(V, src);
    }

    lemma LooseSep(src: seq<SymCell>)
      requires Loose(src)
      ensures Sep(m_MEM.m_AllSymbolList.cells, src)
    {
      forall i, j | 0 <= i < |m_MEM.m_AllSymbolList.cells| && 0 <= j < |src|
        ensures m_MEM.m_AllSymbolList.cells[i] != src[j] {
        assert m_MEM.m_AllSymbolList.cells[i] in MemRepr() && src[j] in src;
      }
    }

    lemma LooseRegister(n: nat, src: seq<SymCell>)
      requires Valid() && Loose(src) && n < NREGS && |m_CPU.slots| == NREGS
      ensures Sep(m_CPU.slots[n].symList.cells, src)
    {
      m_CPU.SlotFacts(n);
      forall i, j | 0 <= i < |m_CPU.slots[n].symList.cells| && 0 <= j < |src|
        ensures m_CPU.slots[n].symList.cells[i] != src[j] {
        assert m_CPU.slots[n].symList.cells[i] in m_CPU.Repr && src[j] in src;
      }
    }

    /** An operand read as an expression, the way the controller parses it (thinctrl.cpp:1445-1980). */
    method ReadExpr(o: Operand, n: nat) returns (val: Value)
      requires Valid() && MachineOk(View()) && OperandOk(View(), o, n) && |View().regs| == NREGS
      requires Named(o) && Readable(View(), o)
      ensures val == ReadValue(View(), o, n)
    {
      hide *;
      match o
      case Imm(v) =>
        val := Con(v);
        ImmValue(View(), v, n);
      case At(loc) =>
        AtPlace(View(), loc, n);
        var bsym, v, e, list;
        ghost var out;
        bsym, v, e, out, list := ReadPlace(loc, false);
        val := if bsym then Symb(e) else Con(v);
        AtValue(View(), loc, n, val);
    }

    /** An operand read as a cell list, the way the executor parses it (symexec.cpp:1646-2055). */
    method ReadList(o: Operand, n: nat) returns (symb: bool, list: SymCell?, v: seq<byte>, ghost out: seq<SymCell>)
      requires Valid() && MachineOk(View()) && OperandOk(View(), o, n) && |View().regs| == NREGS
      requires Named(o) && Readable(View(), o)
      ensures symb == Fetch(View(), o, n).Listed? && v == Fetch(View(), o, n).v
      ensures symb ==> fresh(out) && Loose(out) && Chain(out) && list == out[0] && Vals(out) == Fetch(View(), o, n).ps
    {
      hide *;
      symb, list, out := false, null, [];
      match o
      case Imm(w) =>
        v := w;
        ImmFetch(View(), w, n);
      case At(loc) =>
        AtPlace(View(), loc, n);
        var e;
        symb, v, e, out, list := ReadPlace(loc, true);
        AtFetch(View(), loc, n);
    }

    /** A place read either way; a concrete value is widened with its sign. */
    method ReadPlace(loc: Loc, isSymList: bool)
      returns (bsym: bool, v: seq<byte>, e: Expr, ghost out: seq<SymCell>, list: SymCell?)
      requires Valid() && MachineOk(View()) && PlaceOk(View(), loc) && |View().regs| == NREGS
      requires Named(At(loc)) && Readable(View(), At(loc))
      ensures |View().regs| == NREGS && IsPlace(loc) && LocSize(loc) <= 8 && bsym == LiveAt(View(), loc) && |v| == 8
      ensures !bsym ==>
                Mapped(StoreAt(View(), loc).conc, Lo(loc), LocSize(loc)) && 1 <= LocSize(loc)
                && v == SignExtend(ConcAt(View(), loc))
      ensures bsym && isSymList ==> v == ListConc(View(), loc)
      ensures bsym && isSymList ==>
              fresh(out) && Loose(out) && Chain(out) && list == out[0] && Vals(out) == CellsAt(View(), loc)
      ensures bsym && !isSymList ==>
                var ps, n := CellsAt(View(), loc), LocSize(loc);
                Tidy(ps) && Within(ps, 0, n) && ps != [] && e == Assemble(ps, n, ConcAt(View(), loc))
    {
      hide *;
      PlaceFacts(View(), loc);
      Parts();
      e, list, out := Null, null, [];
      match loc {
        case RegLoc(n, k) =>
          RegPlace(View(), n, k);
          m_CPU.SlotFacts(n);
          RegSlotView(n, k);
          var r;
          r, out := m_CPU.ReadRegister(CPU.RegName(n, k), CPU.RegValue(false, isSymList, ZEROS, Null, null));
          bsym, e, list := r.bsym, r.expr, r.symcellPtr;
          v := if bsym then r.i64 else SignExtend(r.i64[..RegSize(k)]);
        case MemLoc(addr, size) =>
          MemPlaceView(addr, size);
          var r, ok;
          ok, r, out := m_MEM.ReadMemoryCell(MEM.MemValue(addr, size, false, isSymList, ZEROS, Null, null));
          bsym, e, list, v := r.bsym, r.expr, r.symcellPtr, r.i64;
          if bsym && !isSymList {
            MEM.SpanExprIs(m_MEM.View(), addr, size, e);
          }
      }
      if bsym && isSymList {
        LooseNew(out);
      }
    }

    /** New cells belong to nobody. */
    twostate lemma LooseNew(new out: seq<SymCell>)
      requires old(Valid()) && Valid() && fresh(out) && unchanged(m_CPU) && unchanged(m_MEM.m_Bitmap)
               && unchanged(m_MEM.m_AllSymbolList)
      ensures Loose(out)
    {
      Ready();
      forall c | c in out ensures c !in m_CPU.Repr && c !in MemRepr() && (c as object) != m_EFlagsMgr {
        assert c !in old(m_CPU.Repr);
      }
    }

    /** What a register part is, in terms of its slot. */
    lemma RegSlotView(n: nat, k: SubReg)
      requires Valid() && MachineOk(View()) && HasName(n, k) && n < NREGS && |m_CPU.slots| == NREGS
      ensures m_CPU.slots[n].Valid() && |m_CPU.slots[n].word| == 8 && Agree(m_CPU.View()[n]) && |ZEROS| == 8
      ensures PlaceOk(View(), RegLoc(n, k)) && IsPlace(RegLoc(n, k)) && LocSize(RegLoc(n, k)) == RegSize(k)
      ensures Mapped(StoreAt(View(), RegLoc(n, k)).conc, 0, RegSize(k))
      ensures ConcAt(View(), RegLoc(n, k)) == m_CPU.slots[n].word[..RegSize(k)]
      ensures LiveAt(View(), RegLoc(n, k)) == Live(m_CPU.View()[n], 0, RegSize(k))
      ensures CellsAt(View(), RegLoc(n, k)) == ReadCells(m_CPU.View()[n], 0, RegSize(k))
      ensures ListConc(View(), RegLoc(n, k)) == Low(ZEROS, m_CPU.slots[n].word[..RegSize(k)])
    {
      m_CPU.SlotFacts(n);
      m_CPU.slots[n].ValidParts();
      PlaceFacts(View(), RegLoc(n, k));
      hide Valid, MachineOk, Agree, Live, ReadCells, CPU.SYCPUState.Valid, CPU.RegSlot.Valid, CPU.RegSlot.View,
           CPU.SYCPUState.View;
      Parts();
      CPU.WordMapGet(m_CPU.slots[n].word, RegSize(k));
    }

    lemma MemPlaceView(addr: int, size: nat)
      requires Valid() && MachineOk(View()) && PlaceOk(View(), MemLoc(addr, size))
      requires |View().regs| == NREGS && Named(At(MemLoc(addr, size))) && Readable(View(), At(MemLoc(addr, size)))
      ensures Live(m_MEM.View(), addr, size) ==> MEM.OneBlock(addr, size)
      ensures m_MEM.Valid() && Agree(m_MEM.View()) && InRange(addr, addr + size) && WordSize(size)
              && Mapped(m_MEM.host, addr, size)
      ensures 1 <= size <= 8 && |ZEROS| == 8 && m_MEM.View().conc == m_MEM.host
      ensures IsPlace(MemLoc(addr, size)) && LocSize(MemLoc(addr, size)) == size && Lo(MemLoc(addr, size)) == addr
      ensures ConcAt(View(), MemLoc(addr, size)) == Get(m_MEM.host, addr, size)
      ensures LiveAt(View(), MemLoc(addr, size)) == Live(m_MEM.View(), addr, size)
      ensures CellsAt(View(), MemLoc(addr, size)) == ReadCells(m_MEM.View(), addr, size)
      ensures ListConc(View(), MemLoc(addr, size)) == SignExtend(Get(m_MEM.host, addr, size))
    {
      hide Valid, MachineOk, Agree, Live, ReadCells, CPU.SYCPUState.Valid, CPU.SYCPUState.View, Get, Mapped, InRange,
           CrossesChunk, MEM.OneBlock;
      PlaceFacts(View(), MemLoc(addr, size));
      MEM.OneBlockIs(addr, size);
      Parts();
      m_MEM.ValidParts();
    }

    /** SaveFlagChangingInstructionExpr */
    method SaveFlagChangingInstructionExpr(op: FlagOp, r: Expr, l: Expr)
      requires Valid() && WF(r) && WF(l) && Width(r) == Width(l) >= 1
      modifies m_EFlagsMgr`m_LastExpr
      ensures Valid() && View() == old(View()).(flags := Saved(op, r, l))
      ensures m_CPU.Repr == old(m_CPU.Repr) && MemRepr() == old(MemRepr())
    {
      hide *;
      Parts();
      Ready();
      m_EFlagsMgr.SaveFlagChangingInstructionExpr(op, r, l);
      CpuKept();
      m_MEM.Kept();
      MemReprKept();
      MemOkIs();
      FromParts();
    }

    lemma LooseFromParts(src: seq<SymCell>)
      requires forall c {:trigger c in src} :: c in src ==>
               c !in m_CPU.Repr && c !in MemRepr() && (c as object) != m_EFlagsMgr
      ensures Loose(src)
    {}

    lemma Ready()
      requires Valid()
      ensures |m_CPU.slots| == NREGS && Loose([])
      ensures forall o: object {:trigger o in MemRepr()} :: o in MemRepr() <==>
                o == m_MEM || o == m_MEM.m_Bitmap || o == m_MEM.m_AllSymbolList
                || (exists c: SYMemChunk :: c in m_MEM.m_Bitmap.m_SYMemBitmap.Values && o == c)
                || (exists k :: 0 <= k < |m_MEM.m_AllSymbolList.cells| && o == m_MEM.m_AllSymbolList.cells[k])
      ensures m_MEM in MemRepr() && m_MEM.m_Bitmap in MemRepr() && m_MEM.m_AllSymbolList in MemRepr()
      ensures forall c {:trigger c in m_MEM.m_Bitmap.m_SYMemBitmap.Values} ::
              c in m_MEM.m_Bitmap.m_SYMemBitmap.Values ==> c in MemRepr()
      ensures forall c {:trigger c in m_MEM.m_AllSymbolList.cells} :: c in m_MEM.m_AllSymbolList.cells ==>
              c in MemRepr()
    {
      m_CPU.TableOf();
    }
  }

  lemma RegPlace(m: Machine, n: nat, k: SubReg)
    requires PlaceOk(m, RegLoc(n, k))
    ensures HasName(n, k) && n < NREGS
  {}

  lemma SetRegCon(m: Machine, n: nat, k: SubReg, v: CPU.RegValue)
    requires |m.regs| == NREGS && n < NREGS && !v.bsym && |v.i64| == 8
    ensures v.Writable(k) && LocSize(RegLoc(n, k)) <= 8 && IsPlace(RegLoc(n, k))
    ensures forall cells :: v.HasList([], k, cells)
    ensures m.(regs := m.regs[n := CPU.RegWritten(m.regs[n], k, v, [])]) == SetCon(m, RegLoc(n, k), v.i64)
  {
    hide WriteConcrete;
  }

  lemma SetMemCon(m: Machine, addr: int, size: nat, v: MEM.MemValue)
    requires |m.regs| == NREGS && PlaceOk(m, MemLoc(addr, size)) && v.addr == addr && v.size == size && !v.bsym
             && |v.i64| == 8
    ensures v.Writable(m.mem) && size <= 8 && IsPlace(MemLoc(addr, size))
    ensures forall cells :: v.HasList([], cells)
    ensures m.(mem := MEM.MemWritten(m.mem, v, [])) == SetCon(m, MemLoc(addr, size), v.i64)
  {
    hide WriteConcrete, CrossesChunk, InRange;
  }

  lemma SetRegExpr(m: Machine, n: nat, k: SubReg, v: CPU.RegValue)
    requires |m.regs| == NREGS && n < NREGS && v.bsym && !v.isSymList && v.i64 == ZEROS
    requires WF(v.expr) && Width(v.expr) == LocSize(RegLoc(n, k))
    ensures v.Writable(k) && LocSize(RegLoc(n, k)) <= 8 && IsPlace(RegLoc(n, k))
    ensures forall cells :: v.HasList([], k, cells)
    ensures m.(regs := m.regs[n := CPU.RegWritten(m.regs[n], k, v, [])]) == SetExpr(m, RegLoc(n, k), v.expr)
  {
    hide WriteExpr;
  }

  lemma SetMemExpr(m: Machine, addr: int, size: nat, v: MEM.MemValue)
    requires |m.regs| == NREGS && PlaceOk(m, MemLoc(addr, size)) && SymOk(MemLoc(addr, size))
    requires v.addr == addr && v.size == size && v.bsym && !v.isSymList && v.i64 == ZEROS
    requires WF(v.expr) && Width(v.expr) == LocSize(MemLoc(addr, size))
    ensures v.Writable(m.mem) && size <= 8 && IsPlace(MemLoc(addr, size))
    ensures forall cells :: v.HasList([], cells)
    ensures m.(mem := MEM.MemWritten(m.mem, v, [])) == SetExpr(m, MemLoc(addr, size), v.expr)
  {
    hide WriteExpr, CrossesChunk, InRange;
    HalfInChunk(MemLoc(addr, size));
  }

  /** A list for a register starts below 8, so it is not moved. */
  lemma SetRegCells(m: Machine, n: nat, k: SubReg, v: CPU.RegValue, src: seq<SymCell>, cells: seq<SymCell>)
    requires |m.regs| == NREGS && n < NREGS && v.bsym && v.isSymList && |v.i64| == 8
    requires Chain(src) && v.symcellPtr == src[0] && Sep(cells, src) && ListOk(m, RegLoc(n, k), Vals(src))
    ensures v.Writable(k) && v.HasList(src, k, cells) && IsPlace(RegLoc(n, k)) && LocSize(RegLoc(n, k)) <= 8
            && Vals(src) != []
    ensures m.(regs := m.regs[n := CPU.RegWritten(m.regs[n], k, v, Vals(src))])
            == SetCells(m, RegLoc(n, k), Vals(src), v.i64)
  {
    hide WriteList, Fits, NoStale, Chain, CPU.AtZero, Vals;
    RegListAtZero(Vals(src), k);
  }

  lemma RegListAtZero(ps: seq<Piece>, k: SubReg)
    requires Fits(ps, 0, RegSize(k))
    ensures CPU.AtZero(ps) == ps && ps != []
  {}

  lemma SetMemCells(m: Machine, addr: int, size: nat, v: MEM.MemValue, src: seq<SymCell>, cells: seq<SymCell>)
    requires |m.regs| == NREGS && PlaceOk(m, MemLoc(addr, size)) && SymOk(MemLoc(addr, size))
    requires v.addr == addr && v.size == size && v.bsym && v.isSymList && |v.i64| == 8
    requires Chain(src) && v.symcellPtr == src[0] && Sep(cells, src) && ListOk(m, MemLoc(addr, size), Vals(src))
    ensures v.Writable(m.mem) && v.HasList(src, cells) && IsPlace(MemLoc(addr, size)) && size <= 8 && Vals(src) != []
    ensures m.(mem := MEM.MemWritten(m.mem, v, Vals(src))) == SetCells(m, MemLoc(addr, size), Vals(src), v.i64)
  {
    hide WriteList, Fits, NoStale, Chain, CrossesChunk, InRange, Vals;
    FitsShift(Vals(src), addr, size);
    HalfInChunk(MemLoc(addr, size));
  }

  lemma ImmValue(m: Machine, v: seq<byte>, n: nat)
    requires MachineOk(m) && OperandOk(m, Imm(v), n)
    ensures ReadValue(m, Imm(v), n) == Con(v)
  {}

  lemma ImmFetch(m: Machine, v: seq<byte>, n: nat)
    requires MachineOk(m) && OperandOk(m, Imm(v), n)
    ensures Fetch(m, Imm(v), n) == Plainly(v)
  {}

  lemma AtPlace(m: Machine, loc: Loc, n: nat)
    requires MachineOk(m) && OperandOk(m, At(loc), n)
    ensures PlaceOk(m, loc) && LocSize(loc) == n && |m.regs| == NREGS && IsPlace(loc)
    ensures Mapped(StoreAt(m, loc).conc, Lo(loc), LocSize(loc)) && 1 <= LocSize(loc)
  {
    PlaceFacts(m, loc);
  }

  lemma AtValue(m: Machine, loc: Loc, n: nat, val: Value)
    requires MachineOk(m) && OperandOk(m, At(loc), n) && |m.regs| == NREGS && IsPlace(loc) && LocSize(loc) == n <= 8
    requires Mapped(StoreAt(m, loc).conc, Lo(loc), LocSize(loc))
    requires LiveAt(m, loc) ==>
               var ps := CellsAt(m, loc);
               Tidy(ps) && Within(ps, 0, n) && ps != [] && val == Symb(Assemble(ps, n, ConcAt(m, loc)))
    requires !LiveAt(m, loc) ==> 1 <= n && val == Con(SignExtend(ConcAt(m, loc)))
    ensures ReadValue(m, At(loc), n) == val
  {
    hide MachineOk, LiveAt, Assemble, PlaceOk, Tidy, Within;
  }

  lemma AtFetch(m: Machine, loc: Loc, n: nat)
    requires MachineOk(m) && OperandOk(m, At(loc), n) && |m.regs| == NREGS && IsPlace(loc) && PlaceOk(m, loc)
    ensures Mapped(StoreAt(m, loc).conc, Lo(loc), LocSize(loc)) && 1 <= LocSize(loc) <= 8
    ensures Fetch(m, At(loc), n)
            == if LiveAt(m, loc) then Listed(CellsAt(m, loc), ListConc(m, loc)) else Plainly(SignExtend(ConcAt(m, loc)))
  {
    hide MachineOk, LiveAt, Assemble, PlaceOk;
    PlaceFacts(m, loc);
  }

  // ---- the executor ----

  /** The steps of a queue, each in order and in need of the executor when its turn comes. */
  ghost predicate QueueOk(m: Machine, q: seq<Instr>)
    decreases |q|
  {
    q != [] ==> StepOk(m, q[0]) && HasSymOperand(m, q[0]) && QueueOk(SymStep(m, q[0]), q[1..])
  }

  ghost function QueueRun(m: Machine, q: seq<Instr>): Machine
    requires QueueOk(m, q)
    decreases |q|
  {
    if q == [] then m else QueueRun(SymStep(m, q[0]), q[1..])
  }

  /** The same for a queue, whose steps need the executor. */
  lemma {:induction false} QueueExtends(m: Machine, q: seq<Instr>, i: Instr)
    ensures QueueOk(m, q + [i]) <==> QueueOk(m, q) && StepOk(QueueRun(m, q), i) && HasSymOperand(QueueRun(m, q), i)
    ensures QueueOk(m, q + [i]) ==> QueueRun(m, q + [i]) == SymStep(QueueRun(m, q), i)
    decreases |q|
  {
    hide SymStep, StepOk, HasSymOperand;
    var ys := q + [i];
    if q == [] {
      assert ys[0] == i && ys[1..] == [];
    } else {
      assert ys[0] == q[0] && ys[1..] == q[1..] + [i];
      if QueueOk(m, q) || QueueOk(m, ys) {
        QueueExtends(SymStep(m, q[0]), q[1..], i);
      }
    }
  }

  lemma QueueNext(m: Machine, q: seq<Instr>)
    requires QueueOk(m, q) && q != []
    ensures StepOk(m, q[0]) && HasSymOperand(m, q[0]) && QueueOk(SymStep(m, q[0]), q[1..])
    ensures QueueRun(m, q) == QueueRun(SymStep(m, q[0]), q[1..])
  {
    hide SymStep, StepOk, HasSymOperand;
  }

  lemma QueueDone(m: Machine)
    ensures QueueOk(m, []) && QueueRun(m, []) == m
  {}

  /** A queue that the executor runs is a sequence of steps, and under an assignment for which each step
      is exact it stands for the same sequence of plain steps. */
  lemma {:induction false} QueueSimulates(m: Machine, q: seq<Instr>, asg: Assignment)
    requires MachineOk(m) && QueueOk(m, q)
    ensures AllOk(m, q) && QueueRun(m, q) == Sequence(m, q) && MachineOk(QueueRun(m, q))
    ensures AllExact(m, q, asg) ==> PlainSequence(Meaning(m, asg), q) == Some(Meaning(QueueRun(m, q), asg))
    decreases |q|
  {
    hide MachineOk, StepOk, SymStep, HasSymOperand, Meaning, PlainStep, PlainStepOk, NativeStep, StepBy, Exact,
         AllExact, WriterOf;
    if q != [] {
      StepSimulates(m, q[0], asg);
      QueueSimulates(SymStep(m, q[0]), q[1..], asg);
    }
    SequenceSimulates(m, q, asg);
  }

  class SymExecutor {
    var m_IOIs: seq<Instr>

    constructor ()
      ensures m_IOIs == []
    {
      m_IOIs := [];
    }

    method PushInstr(i: Instr)
      modifies this
      ensures m_IOIs == old(m_IOIs) + [i]
    {
      m_IOIs := m_IOIs + [i];
    }

    /** process_mov: a symbolic source moves as a cell list. */
    static method ProcessMov(vm: VMState, dst: Loc, src: Operand)
      requires vm.Valid() && StepOk(vm.View(), Mov(dst, src)) && HasSymOperand(vm.View(), Mov(dst, src))
      modifies vm.m_CPU`Repr, vm.m_CPU.Repr, vm.MemRepr()
      ensures vm.Valid() && vm.View() == SymStep(old(vm.View()), Mov(dst, src))
      ensures forall o: object {:trigger o in vm.m_CPU.Repr} :: o in vm.m_CPU.Repr ==>
              o in old(vm.m_CPU.Repr) || fresh(o)
      ensures forall o: object {:trigger o in vm.MemRepr()} :: o in vm.MemRepr() ==> o in old(vm.MemRepr()) || fresh(o)
    {
      hide *;
      SymMovIs(vm.View(), dst, src);
      var symb, list, v;
      ghost var out;
      symb, list, v, out := vm.ReadList(src, LocSize(dst));
      if symb {
        vm.SetSymList(dst, list, v, out);
      } else {
        vm.SetConValue(dst, v);
      }
    }

    /** process_add, process_sub, process_and, process_or, process_xor, and process_cmp and process_test, which only
        save the expression. */
    static method ProcessAlu(vm: VMState, op: FlagOp, dst: Loc, src: Operand)
      requires vm.Valid() && StepOk(vm.View(), Op(op, dst, src)) && HasSymOperand(vm.View(), Op(op, dst, src))
      modifies vm.m_CPU`Repr, vm.m_CPU.Repr, vm.MemRepr(), vm.m_EFlagsMgr`m_LastExpr
      ensures vm.Valid() && vm.View() == SymStep(old(vm.View()), Op(op, dst, src))
      ensures forall o: object {:trigger o in vm.m_CPU.Repr} :: o in vm.m_CPU.Repr ==>
              o in old(vm.m_CPU.Repr) || fresh(o)
      ensures forall o: object {:trigger o in vm.MemRepr()} :: o in vm.MemRepr() ==> o in old(vm.MemRepr()) || fresh(o)
    {
      hide *;
      SymOpIs(vm.View(), op, dst, src);
      SymOpWF(vm.View(), op, dst, src);
      var n := LocSize(dst);
      var oisrc1 := vm.ReadExpr(At(dst), n);
      var oisrc2 := vm.ReadExpr(src, n);
      var e1, e2;
      if oisrc1.Symb? && oisrc2.Symb? {
        e1, e2 := oisrc1.e, oisrc2.e;
      } else if oisrc1.Symb? {
        e1, e2 := oisrc1.e, Const(Num(oisrc2.v), n);
      } else {
        e1, e2 := Const(Num(oisrc1.v), n), oisrc2.e;
      }
      var oe := Bin(AluOp(op), e1, e2);
      ExprOfIs(oisrc1, n);
      ExprOfIs(oisrc2, n);
      if Writes(op) {
        vm.SetSymExpr(dst, oe);
      }
      vm.SaveFlagChangingInstructionExpr(op, e1, e2);
    }

    /** process_xchg: both operands are read before either is written. */
    static method ProcessXchg(vm: VMState, a: Loc, b: Loc)
      requires vm.Valid() && StepOk(vm.View(), Xchg(a, b)) && HasSymOperand(vm.View(), Xchg(a, b))
      modifies vm.m_CPU`Repr, vm.m_CPU.Repr, vm.MemRepr()
      ensures vm.Valid() && vm.View() == SymStep(old(vm.View()), Xchg(a, b))
      ensures forall o: object {:trigger o in vm.m_CPU.Repr} :: o in vm.m_CPU.Repr ==>
              o in old(vm.m_CPU.Repr) || fresh(o)
      ensures forall o: object {:trigger o in vm.MemRepr()} :: o in vm.MemRepr() ==> o in old(vm.MemRepr()) || fresh(o)
    {
      hide *;
      SymXchgIs(vm.View(), a, b);
      var n := LocSize(a);
      var oisrc1 := vm.ReadExpr(At(a), n);
      var oisrc2 := vm.ReadExpr(At(b), n);
      SetValueIs(vm.View(), a, oisrc2);
      SetValueIs(SetValue(vm.View(), a, oisrc2), b, oisrc1);
      PlacesKept(vm.View(), SetValue(vm.View(), a, oisrc2));
      if oisrc1.Symb? && oisrc2.Symb? {
        vm.SetSymExpr(a, oisrc2.e);
        vm.SetSymExpr(b, oisrc1.e);
      } else if oisrc1.Symb? {
        vm.SetConValue(a, oisrc2.v);
        vm.SetSymExpr(b, oisrc1.e);
      } else {
        vm.SetSymExpr(a, oisrc2.e);
        vm.SetConValue(b, oisrc1.v);
      }
    }

    /** process_push: the operand is read, the stack pointer goes down, the slot is written. */
    static method ProcessPush(vm: VMState, src: Operand)
      requires vm.Valid() && StepOk(vm.View(), Push(src)) && HasSymOperand(vm.View(), Push(src))
      modifies vm.m_CPU`Repr, vm.m_CPU.Repr, vm.MemRepr()
      ensures vm.Valid() && vm.View() == SymStep(old(vm.View()), Push(src))
      ensures forall o: object {:trigger o in vm.m_CPU.Repr} :: o in vm.m_CPU.Repr ==>
              o in old(vm.m_CPU.Repr) || fresh(o)
      ensures forall o: object {:trigger o in vm.MemRepr()} :: o in vm.MemRepr() ==> o in old(vm.MemRepr()) || fresh(o)
    {
      hide *;
      SymPushIs(vm.View(), src);
      SPValue(vm.View());
      SPPlace(vm.View());
      var symb, list, v;
      ghost var out;
      symb, list, v, out := vm.ReadList(src, 8);
      var rsp := vm.ReadExpr(At(SP_REG), 8);
      var sp := Down(rsp.v);
      if symb {
        vm.LooseParts(out);
      }
      vm.SetConValue(SP_REG, sp);
      if symb {
        vm.LooseFromParts(out);
        vm.SetSymList(Slot(sp), list, v, out);
      } else {
        vm.SetConValue(Slot(sp), v);
      }
    }

    /** process_pop: the slot is read, the destination is written, the stack pointer goes up. */
    static method ProcessPop(vm: VMState, dst: Loc)
      requires vm.Valid() && StepOk(vm.View(), Pop(dst)) && HasSymOperand(vm.View(), Pop(dst))
      modifies vm.m_CPU`Repr, vm.m_CPU.Repr, vm.MemRepr()
      ensures vm.Valid() && vm.View() == SymStep(old(vm.View()), Pop(dst))
      ensures forall o: object {:trigger o in vm.m_CPU.Repr} :: o in vm.m_CPU.Repr ==>
              o in old(vm.m_CPU.Repr) || fresh(o)
      ensures forall o: object {:trigger o in vm.MemRepr()} :: o in vm.MemRepr() ==> o in old(vm.MemRepr()) || fresh(o)
    {
      hide *;
      SymPopIs(vm.View(), dst);
      PutParts(vm.View(), dst, Fetch(vm.View(), At(Slot(SP(vm.View()))), 8));
      SPValue(vm.View());
      var rsp := vm.ReadExpr(At(SP_REG), 8);
      var symb, list, v;
      ghost var out;
      symb, list, v, out := vm.ReadList(At(Slot(rsp.v)), 8);
      if symb {
        vm.SetSymList(dst, list, v, out);
      } else {
        vm.SetConValue(dst, v);
      }
      SPPlace(vm.View());
      vm.SetConValue(SP_REG, Up(rsp.v));
    }

    /** The dispatch of run. */
    static method Execute(vm: VMState, i: Instr)
      requires vm.Valid() && StepOk(vm.View(), i) && HasSymOperand(vm.View(), i)
      modifies vm.m_CPU`Repr, vm.m_CPU.Repr, vm.MemRepr(), vm.m_EFlagsMgr`m_LastExpr
      ensures vm.Valid() && vm.View() == SymStep(old(vm.View()), i)
      ensures forall o: object {:trigger o in vm.m_CPU.Repr} :: o in vm.m_CPU.Repr ==>
              o in old(vm.m_CPU.Repr) || fresh(o)
      ensures forall o: object {:trigger o in vm.MemRepr()} :: o in vm.MemRepr() ==> o in old(vm.MemRepr()) || fresh(o)
    {
      hide *;
      match i
      case Mov(dst, src) => ProcessMov(vm, dst, src);
      case Op(op, dst, src) => ProcessAlu(vm, op, dst, src);
      case Xchg(a, b) => ProcessXchg(vm, a, b);
      case Push(src) => ProcessPush(vm, src);
      case Pop(dst) => ProcessPop(vm, dst);
    }

    /** run: executes the queued instructions in order and empties the queue. */
    method Run(vm: VMState)
      requires vm.Valid() && QueueOk(vm.View(), m_IOIs) && this !in vm.m_CPU.Repr && this !in vm.MemRepr()
      modifies this, vm.m_CPU`Repr, vm.m_CPU.Repr, vm.MemRepr(), vm.m_EFlagsMgr`m_LastExpr
      ensures vm.Valid() && vm.View() == QueueRun(old(vm.View()), old(m_IOIs)) && m_IOIs == []
    {
      hide *;
      var q := m_IOIs;
      var i := 0;
      ghost var m := vm.View();
      assert q[0..] == q;
      while i < |q|
        invariant 0 <= i <= |q| && vm.Valid() && QueueOk(m, q) && QueueOk(vm.View(), q[i..])
        invariant QueueRun(vm.View(), q[i..]) == QueueRun(m, q)
        invariant forall o: object {:trigger o in vm.m_CPU.Repr} :: o in vm.m_CPU.Repr ==>
                  o in old(vm.m_CPU.Repr) || fresh(o)
        invariant forall o: object {:trigger o in vm.MemRepr()} :: o in vm.MemRepr() ==>
                  o in old(vm.MemRepr()) || fresh(o)
      {
        QueueNext(vm.View(), q[i..]);
        assert q[i..][1..] == q[i + 1..];
        Execute(vm, q[i]);
        i := i + 1;
      }
      assert q[i..] == [];
      QueueDone(vm.View());
      m_IOIs := [];
    }
  }

  lemma ExprOfIs(val: Value, n: nat)
    ensures ExprOf(val, n) == if val.Con? then Const(Num(val.v), n) else val.e
  {
    hide Num;
  }

  lemma SetValueIs(m: Machine, loc: Loc, val: Value)
    requires |m.regs| == NREGS && IsPlace(loc) && LocSize(loc) <= 8 && (val.Con? ==> |val.v| == 8)
    ensures SetValue(m, loc, val) == if val.Con? then SetCon(m, loc, val.v) else SetExpr(m, loc, val.e)
  {
    hide SetCon, SetExpr;
  }

  lemma PutParts(m: Machine, dst: Loc, d: Moved)
    requires PutOk(m, dst, d)
    ensures MachineOk(m) && PlaceOk(m, dst) && IsPlace(dst) && |d.v| == 8 && 1 <= LocSize(dst) <= 8 && |m.regs| == NREGS
    ensures d.Listed? ==> d.ps != [] && SymOk(dst) && ListOk(m, dst, d.ps)
    ensures PutMoved(m, dst, d) == if d.Listed? then SetCells(m, dst, d.ps, d.v) else SetCon(m, dst, d.v)
  {
    hide MachineOk, PlaceOk, SetCells, SetCon, ListOk;
    PutFacts(m, dst, d);
  }

  /** What an operation of the executor puts together. */
  lemma SymOpWF(m: Machine, op: FlagOp, dst: Loc, src: Operand)
    requires StepOk(m, Op(op, dst, src)) && HasSymOperand(m, Op(op, dst, src))
    ensures MachineOk(m) && OperandOk(m, At(dst), LocSize(dst)) && OperandOk(m, src, LocSize(dst)) && LocSize(dst) >= 1
    ensures var n := LocSize(dst);
            var x, y := ReadValue(m, At(dst), n), ReadValue(m, src, n);
            && (x.Symb? || y.Symb?) && (Writes(op) ==> SymOk(dst))
            && WF(ExprOf(x, n)) && WF(ExprOf(y, n)) && Width(ExprOf(x, n)) == Width(ExprOf(y, n)) == n
            && WF(Bin(AluOp(op), ExprOf(x, n), ExprOf(y, n))) && Width(Bin(AluOp(op), ExprOf(x, n), ExprOf(y, n))) == n
  {
    hide MachineOk, PlaceOk, ReadValue, LiveAt, Meaning, PlainGet, WF, Width, Eval, ExprOf, OperandOk;
    var asg: Assignment := _ => 0;
    var n := LocSize(dst);
    StepFacts(m, Op(op, dst, src));
    ReadMeaning(m, At(dst), n, asg);
    ReadMeaning(m, src, n, asg);
    EvalBin(AluOp(op), ExprOf(ReadValue(m, At(dst), n), n), ExprOf(ReadValue(m, src, n), n), asg);
  }
}
