/** Runs of register and memory writes, and what reads then give (CPUState.cpp:278-487, MemState.cpp:140-317). */
module Runs {
  import opened Bytes
  import opened Exprs
  import opened Pieces
  import opened Assembly
  import opened Addresses
  import opened Stores
  import opened Machines
  import CPU = CPUState
  import MEM = MemState

  // ---- one register ----

  /** A write to a part of a register; ps is the list of a list write. */
  datatype RegWrite = RegWrite(part: SubReg, v: CPU.RegValue, ps: seq<Piece>)
  {
    /** Widths fit, and a list leaves nothing stale beside it. */
    ghost predicate Ok(s: Store) {
      && v.Writable(part)
      && (v.bsym && v.isSymList ==>
            ps != [] && Fits(CPU.AtZero(ps), 0, RegSize(part)) && NoStale(s, CPU.AtZero(ps), 0, RegSize(part)))
    }

    /** The plain write that it stands for. */
    function Plainly(): (w: Write)
      requires |v.i64| == 8
    {
      var bs := v.i64[..RegSize(part)];
      if !v.bsym then Concrete(0, bs) else if v.isSymList then Cells(0, CPU.AtZero(ps), bs) else Whole(0, v.expr, bs)
    }

    function Done(s: Store): Store
      requires |v.i64| == 8 && (v.bsym && v.isSymList ==> ps != [])
    {
      CPU.RegWritten(s, part, v, ps)
    }
  }

  /** A register write is the plain write of its bytes, and is allowed when its list leaves nothing stale. */
  lemma RegWriteIs(s: Store, x: RegWrite)
    requires x.Ok(s)
    ensures |x.v.i64| == 8 && (x.v.bsym && x.v.isSymList ==> x.ps != [])
            && (x.Plainly().Cells? ==> x.Plainly().ps != [])
    ensures Allowed(s, x.Plainly()) && x.Done(s) == Apply(s, x.Plainly())
  {
    hide Fits, NoStale, WF, Width, WriteConcrete, WriteExpr, WriteList;
    CPU.RegRange(x.part);
    CPU.AtZeroIs(x.ps);
    assert |x.v.i64[..RegSize(x.part)]| == RegSize(x.part);
  }

  ghost predicate AllRegOk(s: Store, xs: seq<RegWrite>)
    decreases |xs|
  {
    xs != [] ==> xs[0].Ok(s) && |xs[0].v.i64| == 8 && (xs[0].v.bsym && xs[0].v.isSymList ==> xs[0].ps != [])
                 && AllRegOk(xs[0].Done(s), xs[1..])
  }

  ghost function RegRun(s: Store, xs: seq<RegWrite>): Store
    requires AllRegOk(s, xs)
    decreases |xs|
  {
    if xs == [] then s else RegRun(xs[0].Done(s), xs[1..])
  }

  /** A run of register writes goes on just with a write that its outcome allows. */
  lemma {:induction false} RegRunExtends(s: Store, xs: seq<RegWrite>, x: RegWrite)
    ensures AllRegOk(s, xs + [x]) <==> AllRegOk(s, xs) && x.Ok(RegRun(s, xs))
    ensures AllRegOk(s, xs + [x]) ==> RegRun(s, xs + [x]) == x.Done(RegRun(s, xs))
    decreases |xs|
  {
    hide RegWrite.Done, Fits, NoStale, WF, Width;
    var ys := xs + [x];
    if xs == [] {
      assert ys[0] == x && ys[1..] == [];
    } else {
      assert ys[0] == xs[0] && ys[1..] == xs[1..] + [x];
      if AllRegOk(s, xs) || AllRegOk(s, ys) {
        RegRunExtends(xs[0].Done(s), xs[1..], x);
      }
    }
  }

  function PlainWrites(xs: seq<RegWrite>): (ws: seq<Write>)
    requires forall i :: 0 <= i < |xs| ==> |xs[i].v.i64| == 8
    ensures |ws| == |xs|
  {
    if xs == [] then [] else [xs[0].Plainly()] + PlainWrites(xs[1..])
  }

  lemma {:induction false} RegRunIs(s: Store, xs: seq<RegWrite>)
    requires AllRegOk(s, xs)
    ensures forall i :: 0 <= i < |xs| ==> |xs[i].v.i64| == 8
    ensures AllAllowed(s, PlainWrites(xs)) && Run(s, PlainWrites(xs)) == RegRun(s, xs)
    decreases |xs|
  {
    if xs != [] {
      RegWriteIs(s, xs[0]);
      RegRunIs(xs[0].Done(s), xs[1..]);
      assert PlainWrites(xs)[0] == xs[0].Plainly() && PlainWrites(xs)[1..] == PlainWrites(xs[1..]);
    }
  }

  /** After any mix of writes of 8, 16, 32 and 64 bits the bitmap of a register tells which bytes its cells cover, the
      register means the plain bytes with the last write to each byte winning, and reading a part gives the low bytes of
      the whole: by an expression if a byte of the part is marked, by its concrete bytes if not. */
  lemma RegRunReads(s: Store, xs: seq<RegWrite>, part: SubReg, asg: Assignment)
    requires WFStore(s) && Agree(s) && Mapped(s.conc, 0, 8) && AllRegOk(s, xs)
    ensures forall i :: 0 <= i < |xs| ==> |xs[i].v.i64| == 8
    ensures var s', ws, n := RegRun(s, xs), PlainWrites(xs), RegSize(part);
            && WFStore(s') && Agree(s') && Mapped(s'.conc, 0, n) && Mapped(Denote(s', asg), 0, 8)
            && (forall i :: 0 <= i < |ws| ==> (ws[i].Whole? ==> WF(ws[i].e)) && (ws[i].Cells? ==> Proper(ws[i].ps)))
            && Denote(s', asg) == RunBytes(Denote(s, asg), ws, asg)
            && SpanReads(s', 0, n, Get(Denote(s', asg), 0, 8)[..n], asg)
  {
    hide *;
    RegRunIs(s, xs);
    RunMeaning(s, PlainWrites(xs), asg);
    var s' := RegRun(s, xs);
    RunKeeps(s, PlainWrites(xs), 0, 8, asg);
    CPU.RegRange(part);
    GetLow(s'.conc, RegSize(part));
    GetLow(Denote(s', asg), RegSize(part));
    SpanReadsValue(s', 0, RegSize(part), asg);
  }

  /** Reading n bytes, by cells, by expression or by concrete bytes, gives their value; cells are found exactly when a
      byte is marked. */
  ghost predicate SpanReads(s: Store, lo: int, n: nat, bs: seq<byte>, asg: Assignment)
    requires WFStore(s) && Mapped(s.conc, lo, n)
  {
    var ps, conc := ReadCells(s, lo, n), Get(s.conc, lo, n);
    && Tidy(ps) && Within(ps, 0, n) && Overlay(ps, 0, n, conc, asg) == bs
    && (Live(s, lo, n) <==> ps != [])
    && (Live(s, lo, n) ==>
          WF(Assemble(ps, n, conc)) && Width(Assemble(ps, n, conc)) == n && Eval(Assemble(ps, n, conc), asg) == bs)
    && (!Live(s, lo, n) ==> conc == bs)
  }

  lemma SpanReadsValue(s: Store, lo: int, n: nat, asg: Assignment)
    requires WFStore(s) && Agree(s) && n >= 1 && Mapped(s.conc, lo, n)
    ensures Mapped(Denote(s, asg), lo, n) && SpanReads(s, lo, n, Get(Denote(s, asg), lo, n), asg)
  {
    hide WFStore, Agree, Live, Denote, Overlay, Assemble, ReadCells, Get, Mapped, Tidy, Within, WF, Width, Eval;
    ReadFinds(s, lo, n);
    ReadCellsMeaning(s, lo, n, asg);
    if Live(s, lo, n) {
      ReadExprMeaning(s, lo, n, asg);
    } else {
      ReadConcreteMeaning(s, lo, n, asg);
    }
  }

  lemma GetLow(m: map<int, byte>, n: nat)
    requires n <= 8 && Mapped(m, 0, 8)
    ensures Mapped(m, 0, n) && Get(m, 0, n) == Get(m, 0, 8)[..n]
  {}

  /** Writes leave the same bytes present. */
  lemma RunKeeps(s: Store, ws: seq<Write>, lo: int, n: nat, asg: Assignment)
    requires AllAllowed(s, ws) && Mapped(s.conc, lo, n)
    ensures Mapped(Run(s, ws).conc, lo, n)
    ensures WFStore(Run(s, ws)) ==> Mapped(Denote(Run(s, ws), asg), lo, n)
    decreases |ws|
  {
    hide Splice, Allowed, CoveredSet, Range, ByteAt, WFStore;
    if ws != [] {
      RunKeeps(Apply(s, ws[0]), ws[1..], lo, n, asg);
    }
  }

  // ---- memory ----

  /** A memory write that is carried out; ps is the list of a list write. */
  datatype MemWrite = MemWrite(v: MEM.MemValue, ps: seq<Piece>)
  {
    /** Widths fit, a symbolic value stays in its chunk, and a list leaves nothing stale beside it. */
    ghost predicate Ok(s: Store) {
      && v.Writable(s) && WordSize(v.size)
      && (v.bsym ==> !CrossesChunk(v.addr, v.size))
      && (v.bsym && v.isSymList ==> ps != [] && Fits(ps, v.addr, v.size) && NoStale(s, ps, v.addr, v.size))
    }

    function Plainly(): (w: Write)
      requires |v.i64| == 8
    {
      var bs := MEM.Stored(v.size, v.i64);
      if !v.bsym then Concrete(v.addr, bs) else if v.isSymList then Cells(v.addr, ps, bs) else Whole(v.addr, v.expr, bs)
    }

    function Done(s: Store): Store
      requires |v.i64| == 8 && (v.bsym && v.isSymList ==> ps != [])
    {
      MEM.MemWritten(s, v, ps)
    }
  }

  lemma MemWriteIs(s: Store, x: MemWrite)
    requires x.Ok(s)
    ensures |x.v.i64| == 8 && (x.v.bsym && x.v.isSymList ==> x.ps != [])
            && (x.Plainly().Cells? ==> x.Plainly().ps != [])
    ensures Allowed(s, x.Plainly()) && x.Done(s) == Apply(s, x.Plainly())
  {
    hide Fits, NoStale, WF, Width, WriteConcrete, WriteExpr, WriteList, CrossesChunk, InHalfChunk, Mapped, InRange;
    MEM.WritableParts(x.v, s);
    assert |MEM.Stored(x.v.size, x.v.i64)| == x.v.size;
  }

  ghost predicate AllMemOk(s: Store, xs: seq<MemWrite>)
    decreases |xs|
  {
    xs != [] ==> xs[0].Ok(s) && |xs[0].v.i64| == 8 && (xs[0].v.bsym && xs[0].v.isSymList ==> xs[0].ps != [])
                 && AllMemOk(xs[0].Done(s), xs[1..])
  }

  ghost function MemRun(s: Store, xs: seq<MemWrite>): Store
    requires AllMemOk(s, xs)
    decreases |xs|
  {
    if xs == [] then s else MemRun(xs[0].Done(s), xs[1..])
  }

  /** A run of memory writes goes on just with a write that its outcome allows. */
  lemma {:induction false} MemRunExtends(s: Store, xs: seq<MemWrite>, x: MemWrite)
    ensures AllMemOk(s, xs + [x]) <==> AllMemOk(s, xs) && x.Ok(MemRun(s, xs))
    ensures AllMemOk(s, xs + [x]) ==> MemRun(s, xs + [x]) == x.Done(MemRun(s, xs))
    decreases |xs|
  {
    hide MemWrite.Done, Fits, NoStale, WF, Width;
    var ys := xs + [x];
    if xs == [] {
      assert ys[0] == x && ys[1..] == [];
    } else {
      assert ys[0] == xs[0] && ys[1..] == xs[1..] + [x];
      if AllMemOk(s, xs) || AllMemOk(s, ys) {
        MemRunExtends(xs[0].Done(s), xs[1..], x);
      }
    }
  }

  function PlainMemWrites(xs: seq<MemWrite>): (ws: seq<Write>)
    requires forall i :: 0 <= i < |xs| ==> |xs[i].v.i64| == 8
    ensures |ws| == |xs|
  {
    if xs == [] then [] else [xs[0].Plainly()] + PlainMemWrites(xs[1..])
  }

  lemma {:induction false} MemRunIs(s: Store, xs: seq<MemWrite>)
    requires AllMemOk(s, xs)
    ensures forall i :: 0 <= i < |xs| ==> |xs[i].v.i64| == 8
    ensures AllAllowed(s, PlainMemWrites(xs)) && Run(s, PlainMemWrites(xs)) == MemRun(s, xs)
    decreases |xs|
  {
    if xs != [] {
      MemWriteIs(s, xs[0]);
      MemRunIs(xs[0].Done(s), xs[1..]);
      assert PlainMemWrites(xs)[0] == xs[0].Plainly() && PlainMemWrites(xs)[1..] == PlainMemWrites(xs[1..]);
    }
  }

  /** After any sequence of concrete, expression and list writes a byte is marked exactly when a cell covers it, memory
      means the plain bytes with the last write to each byte winning, and a read of any span gives those bytes; it finds
      cells exactly when a byte of the span is marked. */
  lemma MemRunReads(s: Store, xs: seq<MemWrite>, lo: int, n: nat, asg: Assignment)
    requires WFStore(s) && Agree(s) && AllMemOk(s, xs) && n >= 1 && Mapped(s.conc, lo, n)
    ensures forall i :: 0 <= i < |xs| ==> |xs[i].v.i64| == 8
    ensures var s', ws := MemRun(s, xs), PlainMemWrites(xs);
            && WFStore(s') && Agree(s') && Mapped(s'.conc, lo, n) && Mapped(Denote(s', asg), lo, n)
            && (forall i :: 0 <= i < |ws| ==> (ws[i].Whole? ==> WF(ws[i].e)) && (ws[i].Cells? ==> Proper(ws[i].ps)))
            && Denote(s', asg) == RunBytes(Denote(s, asg), ws, asg)
            && SpanReads(s', lo, n, Get(RunBytes(Denote(s, asg), ws, asg), lo, n), asg)
  {
    hide *;
    MemRunIs(s, xs);
    RunMeaning(s, PlainMemWrites(xs), asg);
    RunKeeps(s, PlainMemWrites(xs), lo, n, asg);
    SpanReadsValue(MemRun(s, xs), lo, n, asg);
  }

  /** A symbolic write that leaves its chunk is refused, yet its concrete bytes are put down: marks, cells and the value
      of every marked byte stay, and the unmarked bytes of the span change. */
  lemma MemRefused(s: Store, x: MemWrite, asg: Assignment)
    requires WFStore(s) && Agree(s) && x.v.Writable(s) && WordSize(x.v.size) && x.v.bsym
             && CrossesChunk(x.v.addr, x.v.size)
    requires x.v.isSymList ==> x.ps != []
    ensures var s' := x.Done(s);
            && s'.marks == s.marks && s'.cells == s.cells && WFStore(s') && Agree(s')
            && Denote(s', asg).Keys == Denote(s, asg).Keys
            && forall a {:trigger Denote(s', asg)[a]} :: a in Denote(s', asg) ==>
                 Denote(s', asg)[a] == if Inside(a, x.v.addr, x.v.size) && a !in s.marks
                                       then MEM.Stored(x.v.size, x.v.i64)[a - x.v.addr] else Denote(s, asg)[a]
  {
    var s', bs := x.Done(s), MEM.Stored(x.v.size, x.v.i64);
    assert s' == Store(s.marks, s.cells, Put(s.conc, x.v.addr, bs)) && |bs| == x.v.size;
    hide *;
    StoreTidy(s);
    DenoteKeys(s, asg);
    DenoteKeys(s', asg);
    PutByte(s.conc, x.v.addr, bs, 0);
    forall a | a in Denote(s', asg)
      ensures Denote(s', asg)[a] == if Inside(a, x.v.addr, x.v.size) && a !in s.marks then bs[a - x.v.addr]
              else Denote(s, asg)[a]
    {
      InsideIs(a, x.v.addr, x.v.size);
      PutByte(s.conc, x.v.addr, bs, a);
      ByteAtCovered(s.cells, a, asg);
      AgreeAt(s, a);
      DenoteAt(s, asg, a);
      DenoteAt(s', asg, a);
    }
  }

  lemma DenoteAt(s: Store, asg: Assignment, a: int)
    requires WFStore(s) && Proper(s.cells) && a in s.conc
    ensures a in Denote(s, asg)
    ensures Denote(s, asg)[a] == if ByteAt(s.cells, a, asg).Some? then ByteAt(s.cells, a, asg).value else s.conc[a]
  {
    hide ByteAt, WFList, Proper;
  }
}
