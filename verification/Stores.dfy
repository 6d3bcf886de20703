/** A byte store that is partly symbolic: marked bytes, symbolic cells over concrete bytes.
    Memory (MemState.cpp) and every register (CPUState.cpp) is one. */
module Stores {
  import opened Bytes
  import opened Exprs
  import opened Pieces
  import opened Assembly

  /** The bytes marked symbolic, the cells of the interval store, and the concrete bytes underneath. */
  datatype Store = Store(marks: set<int>, cells: seq<Piece>, conc: map<int, byte>)

  /** The mark of a byte says exactly whether a cell covers it. */
  ghost predicate Agree(s: Store) {
    forall b: int {:trigger b in s.marks} {:trigger Covered(s.cells, b)} :: b in s.marks <==> Covered(s.cells, b)
  }

  predicate WFStore(s: Store) { WFList(s.cells) }

  predicate Inside(b: int, lo: int, n: int) { lo <= b < lo + n }

  lemma InsideIs(b: int, lo: int, n: nat)
    ensures Inside(b, lo, n) <==> lo <= b < lo + n
  {}

  function Range(lo: int, n: nat): (r: set<int>)
    ensures forall b {:trigger b in r} {:trigger Inside(b, lo, n)} :: b in r <==> Inside(b, lo, n)
  {
    set b | lo <= b < lo + n && Inside(b, lo, n)
  }

  /** The bytes that the cells of a list cover. */
  function CoveredSet(ps: seq<Piece>): (r: set<int>)
    ensures forall b {:trigger b in r} {:trigger Covered(ps, b)} :: b in r <==> Covered(ps, b)
  {
    set i, b | 0 <= i < |ps| && ps[i].addr <= b < End(ps[i]) && Covers(ps[i], b) :: b
  }

  // ---- writes ----

  /** A concrete value: its bytes are no longer symbolic. bs is empty where the size is not a machine word's. */
  function WriteConcrete(s: Store, lo: int, n: nat, bs: seq<byte>): Store {
    Store(s.marks - Range(lo, n), Splice(s.cells, lo, lo + n, []), Put(s.conc, lo, bs))
  }

  /** One expression over the whole target. */
  function WriteExpr(s: Store, lo: int, n: nat, e: Expr, bs: seq<byte>): Store {
    Store(s.marks + Range(lo, n), Splice(s.cells, lo, lo + n, [Piece(lo, n, e)]), Put(s.conc, lo, bs))
  }

  /** A list of cells that starts at 0. The marks of the whole target are cleared first, but only the span from the
      first to the last cell of the list is cleared of cells. */
  function WriteList(s: Store, lo: int, n: nat, ps: seq<Piece>, bs: seq<byte>): Store
    requires ps != []
  {
    var qs := Shift(ps, lo);
    Store(s.marks - Range(lo, n) + CoveredSet(qs), Splice(s.cells, First(qs), Stop(qs), qs), Put(s.conc, lo, bs))
  }

  // ---- meaning ----

  /** The value of every byte under an assignment. */
  function Denote(s: Store, asg: Assignment): map<int, byte>
    requires WFStore(s)
  {
    map a | a in s.conc :: match ByteAt(s.cells, a, asg) case Some(v) => v case None => s.conc[a]
  }

  /** Splicing as seen by every byte at once. */
  lemma SpliceEffect(ps: seq<Piece>, lo: int, hi: int, src: seq<Piece>, asg: Assignment)
    requires WFList(ps) && InRange(lo, hi) && WFList(src) && Within(src, lo, hi)
    ensures var r := Splice(ps, lo, hi, src);
            && WFList(r)
            && (forall b {:trigger ByteAt(r, b, asg)} ::
                  ByteAt(r, b, asg) == if lo <= b < hi then ByteAt(src, b, asg) else ByteAt(ps, b, asg))
            && (forall b {:trigger Covered(r, b)} ::
                  Covered(r, b) <==> if lo <= b < hi then Covered(src, b) else Covered(ps, b))
  {
    hide *;
    var r := Splice(ps, lo, hi, src);
    SpliceWF(ps, lo, hi, src);
    ListTidy(ps);
    ListTidy(src);
    ListTidy(r);
    forall b ensures ByteAt(r, b, asg) == if lo <= b < hi then ByteAt(src, b, asg) else ByteAt(ps, b, asg) {
      SpliceByteAt(ps, lo, hi, src, b, asg);
    }
    forall b ensures Covered(r, b) <==> if lo <= b < hi then Covered(src, b) else Covered(ps, b) {
      SpliceCovered(ps, lo, hi, src, b);
    }
  }

  lemma ListTidy(ps: seq<Piece>)
    requires WFList(ps)
    ensures Tidy(ps) && Proper(ps) && InDom(ps)
  {}

  lemma NothingThere(asg: Assignment)
    ensures WFList([]) && (forall lo, hi :: Within([], lo, hi))
            && (forall b {:trigger Covered([], b)} :: !Covered([], b))
    ensures forall b {:trigger ByteAt([], b, asg)} :: ByteAt([], b, asg) == None
  {}

  lemma WriteConcreteMeaning(s: Store, lo: int, n: nat, bs: seq<byte>, asg: Assignment)
    requires WFStore(s) && InRange(lo, lo + n) && |bs| == n
    ensures var s' := WriteConcrete(s, lo, n, bs);
            && WFStore(s')
            && (Agree(s) ==> Agree(s'))
            && Denote(s', asg) == Put(Denote(s, asg), lo, bs)
  {
    hide Splice, WFList, Within, InRange, Covered, ByteAt, Proper, InDom;
    NothingThere(asg);
    ListTidy(s.cells);
    SpliceEffect(s.cells, lo, lo + n, [], asg);
    ListTidy(Splice(s.cells, lo, lo + n, []));
  }

  lemma OnePiece(lo: int, n: nat, e: Expr)
    requires InRange(lo, lo + n) && WF(e) && Width(e) == n
    ensures WFList([Piece(lo, n, e)]) && Within([Piece(lo, n, e)], lo, lo + n)
    ensures forall b {:trigger Covered([Piece(lo, n, e)], b)} :: Covered([Piece(lo, n, e)], b) <==> Inside(b, lo, n)
  {
    forall b | Inside(b, lo, n) ensures Covered([Piece(lo, n, e)], b) {
      assert Covers([Piece(lo, n, e)][0], b);
    }
  }

  lemma OnePieceBytes(lo: int, n: nat, e: Expr, asg: Assignment)
    requires WF(e) && Width(e) == n && InRange(lo, lo + n)
    ensures Proper([Piece(lo, n, e)]) && |Eval(e, asg)| == n
    ensures forall b {:trigger ByteAt([Piece(lo, n, e)], b, asg)} ::
              ByteAt([Piece(lo, n, e)], b, asg) == if lo <= b < lo + n then Some(Eval(e, asg)[b - lo]) else None
  {
    var ps := [Piece(lo, n, e)];
    forall b ensures ByteAt(ps, b, asg) == if lo <= b < lo + n then Some(Eval(e, asg)[b - lo]) else None {
      assert ByteAt(ps[1..], b, asg) == None;
    }
  }

  lemma WriteExprMeaning(s: Store, lo: int, n: nat, e: Expr, bs: seq<byte>, asg: Assignment)
    requires WFStore(s) && InRange(lo, lo + n) && WF(e) && Width(e) == n && (|bs| == n || bs == [])
    ensures var s' := WriteExpr(s, lo, n, e, bs);
            && WFStore(s')
            && (Agree(s) ==> Agree(s'))
            && Denote(s', asg) == Put(Denote(s, asg), lo, Eval(e, asg))
  {
    hide Splice, WFList, Within, InRange, Covered, ByteAt, Proper, InDom, WF, Width, Eval;
    var p := [Piece(lo, n, e)];
    OnePiece(lo, n, e);
    ListTidy(s.cells);
    ListTidy(p);
    SpliceEffect(s.cells, lo, lo + n, p, asg);
    ListTidy(Splice(s.cells, lo, lo + n, p));
    OnePieceBytes(lo, n, e, asg);
  }

  // ---- list writes ----

  /** A list of cells fit to be written to lo..lo+n. */
  predicate Fits(ps: seq<Piece>, lo: int, n: nat) {
    && Tidy(ps) && ps != [] && Within(ps, 0, n)
    && InRange(lo, lo + n)
    && InDom(Shift(ps, lo)) && InRange(lo + First(ps), lo + Stop(ps))
  }

  /** No live byte of the target lies before the first or after the last cell of the list. */
  ghost predicate NoStale(s: Store, ps: seq<Piece>, lo: int, n: nat)
    requires ps != []
  {
    forall b {:trigger Covered(s.cells, b)} :: Inside(b, lo, n) && !(lo + First(ps) <= b < lo + Stop(ps)) ==>
        !Covered(s.cells, b)
  }

  lemma FitsShift(ps: seq<Piece>, lo: int, n: nat)
    requires Fits(ps, lo, n)
    ensures Tidy(ps) && Proper(ps) && ps != [] && Within(ps, 0, n)
    ensures var qs := Shift(ps, lo);
            && WFList(qs) && qs != [] && First(qs) == lo + First(ps) && Stop(qs) == lo + Stop(ps)
            && InRange(First(qs), Stop(qs)) && Within(qs, First(qs), Stop(qs))
            && lo <= First(qs) && Stop(qs) <= lo + n
  {
    var qs := Shift(ps, lo);
    assert Ordered(qs);
    forall i | 0 <= i < |qs| ensures First(qs) <= qs[i].addr && End(qs[i]) <= Stop(qs) {
      assert i > 0 ==> End(qs[0]) <= qs[i].addr;
      assert i < |qs| - 1 ==> End(qs[i]) <= qs[|qs| - 1].addr;
    }
  }

  lemma WriteListIs(s: Store, lo: int, n: nat, ps: seq<Piece>, bs: seq<byte>)
    requires ps != []
    ensures var s', qs := WriteList(s, lo, n, ps, bs), Shift(ps, lo);
            && qs != [] && s'.cells == Splice(s.cells, First(qs), Stop(qs), qs) && s'.conc == Put(s.conc, lo, bs)
            && s'.marks == s.marks - Range(lo, n) + CoveredSet(qs)
            && (WFStore(s') <==> WFList(s'.cells))
  {}

  /** The cells that a list write leaves. */
  lemma WriteListCells(s: Store, lo: int, n: nat, ps: seq<Piece>, bs: seq<byte>, asg: Assignment)
    requires WFStore(s) && Fits(ps, lo, n)
    ensures var s' := WriteList(s, lo, n, ps, bs);
            && WFStore(s')
            && (forall b {:trigger Covered(s'.cells, b)} :: Covered(s'.cells, b) <==>
                  if lo + First(ps) <= b < lo + Stop(ps) then Covered(ps, b - lo) else Covered(s.cells, b))
            && (forall b {:trigger ByteAt(s'.cells, b, asg)} :: ByteAt(s'.cells, b, asg)
                  == if lo + First(ps) <= b < lo + Stop(ps) then ByteAt(ps, b - lo, asg) else ByteAt(s.cells, b, asg))
  {
    hide *;
    var qs := Shift(ps, lo);
    FitsShift(ps, lo, n);
    WriteListIs(s, lo, n, ps, bs);
    StoreTidy(s);
    ListTidy(qs);
    SpliceEffect(s.cells, First(qs), Stop(qs), qs, asg);
    forall b ensures ByteAt(qs, b, asg) == ByteAt(ps, b - lo, asg) && (Covered(qs, b) <==> Covered(ps, b - lo)) {
      ByteAtShift(ps, lo, b - lo, asg);
      CoveredShift(ps, lo, b - lo);
    }
  }

  /** Cells of a list lie between its first and last byte. */
  lemma CoveredInSpan(ps: seq<Piece>, b: int)
    requires Tidy(ps) && ps != [] && Covered(ps, b)
    ensures First(ps) <= b < Stop(ps)
  {
    var i :| 0 <= i < |ps| && Covers(ps[i], b);
    assert i > 0 ==> End(ps[0]) <= ps[i].addr;
    assert i < |ps| - 1 ==> End(ps[i]) <= ps[|ps| - 1].addr;
  }

  /** After a list write marks and cells still agree if and only if nothing stale was left in the target. */
  lemma WriteListAgree(s: Store, lo: int, n: nat, ps: seq<Piece>, bs: seq<byte>)
    requires WFStore(s) && Fits(ps, lo, n) && Agree(s)
    ensures Agree(WriteList(s, lo, n, ps, bs)) <==> NoStale(s, ps, lo, n)
  {
    var s', qs := WriteList(s, lo, n, ps, bs), Shift(ps, lo);
    var asg: Assignment := _ => 0;
    FitsShift(ps, lo, n);
    WriteListCells(s, lo, n, ps, bs, asg);
    hide Tidy, Splice, Shift, WFList, Fits, Covered, Within, InRange;
    forall b
      ensures Covered(qs, b) <==> Covered(ps, b - lo)
      ensures Covered(qs, b) ==> lo + First(ps) <= b < lo + Stop(ps)
    {
      CoveredShift(ps, lo, b - lo);
      if Covered(qs, b) { CoveredInSpan(qs, b); }
    }
    MarksAgree(s, s', qs, lo, n, lo + First(ps), lo + Stop(ps));
  }

  /** Marks cleared over lo..lo+n and set where qs covers, cells replaced over h..t only. */
  lemma MarksAgree(s: Store, s': Store, qs: seq<Piece>, lo: int, n: nat, h: int, t: int)
    requires Agree(s) && lo <= h <= t <= lo + n
    requires s'.marks == s.marks - Range(lo, n) + CoveredSet(qs)
    requires forall b {:trigger Covered(s'.cells, b)} {:trigger Covered(qs, b)} ::
               Covered(s'.cells, b) <==> if h <= b < t then Covered(qs, b) else Covered(s.cells, b)
    requires forall b {:trigger Covered(qs, b)} :: Covered(qs, b) ==> h <= b < t
    ensures Agree(s') <==> forall b {:trigger Covered(s.cells, b)} :: Inside(b, lo, n) && !(h <= b < t) ==>
            !Covered(s.cells, b)
  {
    hide Covered;
    forall b ensures b in s'.marks <==> (b in s.marks && !Inside(b, lo, n)) || Covered(qs, b) {}
    if Agree(s') {
      forall b | Inside(b, lo, n) && !(h <= b < t) ensures !Covered(s.cells, b) {
        assert b in s'.marks <==> Covered(s'.cells, b);
      }
    }
  }

  /** With nothing stale a list write means: the target holds the list laid over the concrete bytes. */
  lemma WriteListMeaning(s: Store, lo: int, n: nat, ps: seq<Piece>, bs: seq<byte>, asg: Assignment)
    requires WFStore(s) && Fits(ps, lo, n) && |bs| == n && NoStale(s, ps, lo, n)
    ensures var s' := WriteList(s, lo, n, ps, bs);
            WFStore(s') && Denote(s', asg) == Put(Denote(s, asg), lo, Overlay(ps, 0, n, bs, asg))
  {
    hide *;
    FitsShift(ps, lo, n);
    var s' := WriteList(s, lo, n, ps, bs);
    WriteListCells(s, lo, n, ps, bs, asg);
    WriteListIs(s, lo, n, ps, bs);
    DenoteKeys(s, asg);
    DenoteKeys(s', asg);
    PutByte(s.conc, lo, bs, 0);
    forall a | a in s.conc
      ensures a in Denote(s', asg) && a in Denote(s, asg)
      ensures Denote(s', asg)[a] == if lo <= a < lo + n then OverlayAt(ps, a - lo, bs, asg) else Denote(s, asg)[a]
    {
      ListByte(s, s', lo, n, ps, bs, asg, a);
    }
    PutOverlay(Denote(s, asg), Denote(s', asg), lo, n, ps, bs, asg);
  }

  lemma DenoteKeys(s: Store, asg: Assignment)
    requires WFStore(s)
    ensures Denote(s, asg).Keys == s.conc.Keys
  {}

  lemma ListByte(s: Store, s': Store, lo: int, n: nat, ps: seq<Piece>, bs: seq<byte>, asg: Assignment, a: int)
    requires WFStore(s) && WFStore(s') && Tidy(ps) && ps != [] && Within(ps, 0, n) && |bs| == n && NoStale(s, ps, lo, n)
    requires a in s.conc && s'.conc == Put(s.conc, lo, bs)
    requires ByteAt(s'.cells, a, asg)
             == if lo + First(ps) <= a < lo + Stop(ps) then ByteAt(ps, a - lo, asg) else ByteAt(s.cells, a, asg)
    ensures a in s'.conc
    ensures Denote(s', asg)[a] == if lo <= a < lo + n then OverlayAt(ps, a - lo, bs, asg) else Denote(s, asg)[a]
  {
    assert 0 <= First(ps) && Stop(ps) <= n && Proper(ps);
    assert !Covered(s.cells, a) || lo + First(ps) <= a < lo + Stop(ps) || a < lo || lo + n <= a;
    hide Tidy, WFList, Covered, ByteAt, Within, First, Stop, Put, Proper, NoStale;
    ListTidy(s.cells);
    ListTidy(s'.cells);
    ByteAtCovered(s.cells, a, asg);
    ByteAtCovered(ps, a - lo, asg);
    if Covered(ps, a - lo) { CoveredInSpan(ps, a - lo); }
    PutByte(s.conc, lo, bs, a);
  }

  lemma PutNothing(m: map<int, byte>, addr: int)
    ensures Put(m, addr, []) == m
  {}

  lemma WriteExprIs(s: Store, addr: int, size: nat, e: Expr)
    ensures WriteExpr(s, addr, size, e, [])
            == Store(s.marks + Range(addr, size), Splice(s.cells, addr, addr + size, [Piece(addr, size, e)]), s.conc)
  {
    PutNothing(s.conc, addr);
  }

  lemma WriteConcreteIs(s: Store, addr: int, size: nat, bs: seq<byte>)
    ensures WriteConcrete(s, addr, size, bs)
            == Store(s.marks - Range(addr, size), Splice(s.cells, addr, addr + size, []), Put(s.conc, addr, bs))
  {}

  lemma PutByte(m: map<int, byte>, lo: int, bs: seq<byte>, a: int)
    ensures Put(m, lo, bs).Keys == m.Keys
    ensures a in m ==> Put(m, lo, bs)[a] == if lo <= a < lo + |bs| then bs[a - lo] else m[a]
  {}

  lemma PutOverlay(m: map<int, byte>, m': map<int, byte>, lo: int, n: nat, ps: seq<Piece>, bs: seq<byte>,
      asg: Assignment)
    requires Proper(ps) && |bs| == n && m'.Keys == m.Keys
    requires forall a {:trigger m'[a]} :: a in m ==>
             m'[a] == if lo <= a < lo + n then OverlayAt(ps, a - lo, bs, asg) else m[a]
    ensures m' == Put(m, lo, Overlay(ps, 0, n, bs, asg))
  {
    hide OverlayAt;
    var r := Put(m, lo, Overlay(ps, 0, n, bs, asg));
    forall a | a in m ensures r[a] == m'[a] {}
  }

  /** Every stale byte ends up unmarked and still shows the expression it had before the write. */
  lemma StaleByteShows(s: Store, lo: int, n: nat, ps: seq<Piece>, bs: seq<byte>, b: int, asg: Assignment)
    requires WFStore(s) && Fits(ps, lo, n)
    requires Inside(b, lo, n) && !(lo + First(ps) <= b < lo + Stop(ps)) && Covered(s.cells, b)
    ensures var s' := WriteList(s, lo, n, ps, bs);
            && WFStore(s') && b !in s'.marks
            && ByteAt(s.cells, b, asg).Some? && ByteAt(s'.cells, b, asg) == ByteAt(s.cells, b, asg)
  {
    hide Covered, ByteAt, Splice, WFList, Fits, Tidy, Shift, First, Stop;
    var qs := Shift(ps, lo);
    FitsShift(ps, lo, n);
    WriteListIs(s, lo, n, ps, bs);
    WriteListCells(s, lo, n, ps, bs, asg);
    StoreTidy(s);
    ByteAtCovered(s.cells, b, asg);
    if Covered(qs, b) { CoveredInSpan(qs, b); }
  }

  const TWO_BYTES := Piece(0, 2, UDef(Sym(1, 2)))
  const ONE_BYTE := Piece(0, 1, UDef(Sym(2, 1)))
  const STALE_STORE := Store({0, 1}, [TWO_BYTES], map[0 := 0, 1 := 0])

  /** The example store is in order, and the one-byte list may be written over it. */
  lemma StaleStoreOk(asg: Assignment)
    requires asg(Sym(1, 2)) == 256
    ensures WFStore(STALE_STORE) && Agree(STALE_STORE) && Fits([ONE_BYTE], 0, 2)
    ensures Covered(STALE_STORE.cells, 1) && Inside(1, 0, 2) && First([ONE_BYTE]) == 0 && Stop([ONE_BYTE]) == 1
    ensures ByteAt(STALE_STORE.cells, 1, asg) == Some(1) && STALE_STORE.conc == map[0 := 0, 1 := 0]
  {
    OnePiece(0, 2, UDef(Sym(1, 2)));
    forall b ensures b in {0, 1} <==> Inside(b, 0, 2) {}
    OnePieceBytes(0, 2, UDef(Sym(1, 2)), asg);
    assert Inside(1, 0, 2) && Covered([TWO_BYTES], 1);
    assert ToBytes(256, 2) == [0, 1] by { assert ToBytes(1, 1) == [1] + ToBytes(0, 0); }
  }

  /** An input that meets the condition of StaleByteShows: a one-byte symbol written as a list over the first byte of a
      two-byte symbol leaves byte 1 unmarked, and 1 where the concrete byte written there is 0. */
  lemma StaleByteExample(asg: Assignment)
    requires asg(Sym(1, 2)) == 256
    ensures WFStore(STALE_STORE) && Agree(STALE_STORE) && Fits([ONE_BYTE], 0, 2)
    ensures var s' := WriteList(STALE_STORE, 0, 2, [ONE_BYTE], [0, 0]);
            && WFStore(s') && !Agree(s') && 1 !in s'.marks && 1 in s'.conc && s'.conc[1] == 0
            && ByteAt(s'.cells, 1, asg) == Some(1)
  {
    hide *;
    StaleStoreOk(asg);
    StaleByteShows(STALE_STORE, 0, 2, [ONE_BYTE], [0, 0], 1, asg);
    WriteListIs(STALE_STORE, 0, 2, [ONE_BYTE], [0, 0]);
    var s' := WriteList(STALE_STORE, 0, 2, [ONE_BYTE], [0, 0]);
    PutByte(map[0 := 0, 1 := 0], 0, [0, 0], 1);
    StoreTidy(s');
    ByteAtCovered(s'.cells, 1, asg);
    if Agree(s') { AgreeAt(s', 1); }
  }

  // ---- reads ----

  /** What the bitmap test asks: some byte of the span is marked. */
  ghost predicate Live(s: Store, lo: int, n: nat) {
    exists b {:trigger b in s.marks} {:trigger Inside(b, lo, n)} :: Inside(b, lo, n) && b in s.marks
  }

  /** A list read: the cells of the span, cut to it and moved to 0. */
  function ReadCells(s: Store, lo: int, n: nat): seq<Piece> {
    Shift(Window(s.cells, lo, lo + n), -lo)
  }

  lemma {:induction false} NotEmptyCovers(ps: seq<Piece>)
    requires Proper(ps)
    ensures ps != [] <==> exists b {:trigger Covered(ps, b)} :: Covered(ps, b)
  {
    if ps != [] {
      assert Covers(ps[0], ps[0].addr);
      assert Covered(ps, ps[0].addr);
    }
  }

  /** A read of a store whose marks and cells agree finds cells exactly when a byte of the span is marked. */
  lemma ReadFinds(s: Store, lo: int, n: nat)
    requires WFStore(s) && Agree(s)
    ensures Live(s, lo, n) <==> ReadCells(s, lo, n) != []
  {
    hide *;
    StoreTidy(s);
    var w := Window(s.cells, lo, lo + n);
    WindowProper(s.cells, lo, lo + n);
    NotEmptyCovers(w);
    ReadCellsShift(s, lo, n);
    forall b ensures Covered(w, b) <==> lo <= b < lo + n && b in s.marks {
      WindowCovered(s.cells, lo, lo + n, b);
      AgreeAt(s, b);
    }
    LiveIs(s, lo, n);
  }

  lemma StoreTidy(s: Store)
    requires WFStore(s)
    ensures WFList(s.cells) && Tidy(s.cells) && Proper(s.cells)
  {}

  /** A live span of a store whose marks and cells agree holds cells. */
  lemma FindsCells(s: Store, addr: int, size: nat)
    requires Agree(s) && Live(s, addr, size)
    requires WFList(s.cells)
    ensures Window(s.cells, addr, addr + size) != []
            && ReadCells(s, addr, size) == Shift(Window(s.cells, addr, addr + size), -addr)
  {
    ReadFinds(s, addr, size);
  }

  lemma ReadCellsShift(s: Store, lo: int, n: nat)
    ensures ReadCells(s, lo, n) != [] <==> Window(s.cells, lo, lo + n) != []
  {}

  lemma AgreeAt(s: Store, b: int)
    requires Agree(s)
    ensures b in s.marks <==> Covered(s.cells, b)
  {}

  lemma LiveIs(s: Store, lo: int, n: nat)
    ensures Live(s, lo, n) <==> exists b {:trigger b in s.marks} :: lo <= b < lo + n && b in s.marks
  {
    if b :| lo <= b < lo + n && b in s.marks {
      assert Inside(b, lo, n);
    }
  }

  /** The cells read, laid over the concrete bytes of the span, mean the bytes of the span. */
  lemma ReadCellsMeaning(s: Store, lo: int, n: nat, asg: Assignment)
    requires WFStore(s) && Mapped(s.conc, lo, n)
    ensures var ps := ReadCells(s, lo, n);
            && Tidy(ps) && Within(ps, 0, n)
            && Mapped(Denote(s, asg), lo, n)
            && Overlay(ps, 0, n, Get(s.conc, lo, n), asg) == Get(Denote(s, asg), lo, n)
  {
    hide *;
    StoreTidy(s);
    ReadTidy(s.cells, lo, n);
    ReadCellsIs(s, lo, n);
    DenoteKeys(s, asg);
    var l, r := Overlay(ReadCells(s, lo, n), 0, n, Get(s.conc, lo, n), asg), Get(Denote(s, asg), lo, n);
    forall k | 0 <= k < n ensures l[k] == r[k] {
      ReadByte(s, lo, n, asg, k);
    }
  }

  lemma ReadCellsIs(s: Store, lo: int, n: nat)
    ensures ReadCells(s, lo, n) == Shift(Window(s.cells, lo, lo + n), -lo)
    ensures Mapped(s.conc, lo, n) ==> forall m: map<int, byte> :: m.Keys == s.conc.Keys ==> Mapped(m, lo, n)
  {}

  lemma ReadTidy(ps: seq<Piece>, lo: int, n: nat)
    requires Tidy(ps)
    ensures var w := Window(ps, lo, lo + n);
            Proper(w) && Tidy(Shift(w, -lo)) && Within(Shift(w, -lo), 0, n) && Proper(Shift(w, -lo))
  {
    hide Window;
    WindowTidy(ps, lo, lo + n);
  }

  lemma ReadByte(s: Store, lo: int, n: nat, asg: Assignment, k: nat)
    requires WFStore(s) && Mapped(s.conc, lo, n) && Mapped(Denote(s, asg), lo, n) && k < n
    requires Proper(ReadCells(s, lo, n))
    ensures Overlay(ReadCells(s, lo, n), 0, n, Get(s.conc, lo, n), asg)[k] == Get(Denote(s, asg), lo, n)[k]
  {
    hide Window, ByteAt, Tidy, WFList, Proper;
    var w := Window(s.cells, lo, lo + n);
    StoreTidy(s);
    WindowByteAt(s.cells, lo, lo + n, lo + k, asg);
    ByteAtShift(w, -lo, lo + k, asg);
  }

  lemma TidyProper(ps: seq<Piece>)
    requires Tidy(ps)
    ensures Proper(ps)
  {}

  /** An expression read: as wide as the span, and it means the bytes of the span. */
  lemma ReadExprMeaning(s: Store, lo: int, n: nat, asg: Assignment)
    requires WFStore(s) && Agree(s) && n >= 1 && Mapped(s.conc, lo, n) && Live(s, lo, n)
    ensures var ps, conc := ReadCells(s, lo, n), Get(s.conc, lo, n);
            && Tidy(ps) && Within(ps, 0, n) && ps != [] && Mapped(Denote(s, asg), lo, n)
            && var e := Assemble(ps, n, conc);
               WF(e) && Width(e) == n && Eval(e, asg) == Get(Denote(s, asg), lo, n)
  {
    hide *;
    ReadFinds(s, lo, n);
    ReadCellsMeaning(s, lo, n, asg);
    TidyProper(ReadCells(s, lo, n));
    AssembleMeaning(ReadCells(s, lo, n), n, Get(s.conc, lo, n), asg);
  }

  /** A span without a marked byte means its concrete bytes. */
  lemma ReadConcreteMeaning(s: Store, lo: int, n: nat, asg: Assignment)
    requires WFStore(s) && Agree(s) && Mapped(s.conc, lo, n) && !Live(s, lo, n)
    ensures Mapped(Denote(s, asg), lo, n) && Get(Denote(s, asg), lo, n) == Get(s.conc, lo, n)
  {
    hide ByteAt, Covered;
    var l, r := Get(Denote(s, asg), lo, n), Get(s.conc, lo, n);
    ListTidy(s.cells);
    forall k | 0 <= k < n ensures l[k] == r[k] {
      assert !(Inside(lo + k, lo, n) && lo + k in s.marks);
      ByteAtCovered(s.cells, lo + k, asg);
    }
  }

  // ---- runs ----

  /** One write: concrete bytes, one expression, or a list of cells, over n bytes at lo, with concrete bytes underneath.
      */
  datatype Write =
    | Concrete(lo: int, bs: seq<byte>)
    | Whole(lo: int, e: Expr, bs: seq<byte>)
    | Cells(lo: int, ps: seq<Piece>, bs: seq<byte>)

  /** What a caller must see to before a write. */
  ghost predicate Allowed(s: Store, w: Write) {
    && InRange(w.lo, w.lo + |w.bs|)
    && match w
       case Concrete(_, _) => true
       case Whole(_, e, bs) => WF(e) && Width(e) == |bs|
       case Cells(lo, ps, bs) => Fits(ps, lo, |bs|) && NoStale(s, ps, lo, |bs|)
  }

  function Apply(s: Store, w: Write): Store
    requires w.Cells? ==> w.ps != []
  {
    match w
    case Concrete(lo, bs) => WriteConcrete(s, lo, |bs|, bs)
    case Whole(lo, e, bs) => WriteExpr(s, lo, |bs|, e, bs)
    case Cells(lo, ps, bs) => WriteList(s, lo, |bs|, ps, bs)
  }

  /** The plain bytes a write puts at its target. */
  function Written(w: Write, asg: Assignment): seq<byte>
    requires w.Whole? ==> WF(w.e)
    requires w.Cells? ==> Proper(w.ps)
  {
    match w
    case Concrete(_, bs) => bs
    case Whole(_, e, _) => Eval(e, asg)
    case Cells(_, ps, bs) => Overlay(ps, 0, |bs|, bs, asg)
  }

  lemma ApplyMeaning(s: Store, w: Write, asg: Assignment)
    requires WFStore(s) && Agree(s) && Allowed(s, w)
    ensures (w.Whole? ==> WF(w.e)) && (w.Cells? ==> w.ps != [] && Proper(w.ps))
    ensures var s' := Apply(s, w);
            WFStore(s') && Agree(s') && Denote(s', asg) == Put(Denote(s, asg), w.lo, Written(w, asg))
  {
    hide WFStore, Agree, Denote, Put, WriteConcrete, WriteExpr, WriteList, Fits, NoStale, Overlay, WF, Width, Eval,
         Proper, InRange;
    match w
    case Concrete(lo, bs) => WriteConcreteMeaning(s, lo, |bs|, bs, asg);
    case Whole(lo, e, bs) => WriteExprMeaning(s, lo, |bs|, e, bs, asg);
    case Cells(lo, ps, bs) =>
      FitsShift(ps, lo, |bs|);
      WriteListMeaning(s, lo, |bs|, ps, bs, asg);
      WriteListAgree(s, lo, |bs|, ps, bs);
  }

  /** Each write of a sequence is allowed when its turn comes. */
  ghost predicate AllAllowed(s: Store, ws: seq<Write>)
    decreases |ws|
  {
    ws != [] ==> Allowed(s, ws[0]) && (ws[0].Cells? ==> ws[0].ps != []) && AllAllowed(Apply(s, ws[0]), ws[1..])
  }

  ghost function Run(s: Store, ws: seq<Write>): Store
    requires AllAllowed(s, ws)
    decreases |ws|
  {
    if ws == [] then s else Run(Apply(s, ws[0]), ws[1..])
  }

  /** A plain byte array after the same writes: the last write to a byte wins. */
  function RunBytes(m: map<int, byte>, ws: seq<Write>, asg: Assignment): map<int, byte>
    requires forall i :: 0 <= i < |ws| ==> (ws[i].Whole? ==> WF(ws[i].e)) && (ws[i].Cells? ==> Proper(ws[i].ps))
    decreases |ws|
  {
    if ws == [] then m else RunBytes(Put(m, ws[0].lo, Written(ws[0], asg)), ws[1..], asg)
  }

  /** After any sequence of writes marks and cells agree, and the store means the plain byte array. */
  lemma {:induction false} RunMeaning(s: Store, ws: seq<Write>, asg: Assignment)
    requires WFStore(s) && Agree(s) && AllAllowed(s, ws)
    ensures forall i :: 0 <= i < |ws| ==> (ws[i].Whole? ==> WF(ws[i].e)) && (ws[i].Cells? ==> Proper(ws[i].ps))
    ensures var s' := Run(s, ws);
            WFStore(s') && Agree(s') && Denote(s', asg) == RunBytes(Denote(s, asg), ws, asg)
    decreases |ws|
  {
    hide WFStore, Agree, Allowed, Apply, Denote, Written, Put, WF, Proper;
    if ws != [] {
      ApplyMeaning(s, ws[0], asg);
      RunMeaning(Apply(s, ws[0]), ws[1..], asg);
    }
  }
}
