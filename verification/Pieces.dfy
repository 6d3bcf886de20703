/** What a list of symbolic cells means, apart from the heap it lives in. */
module Pieces {
  import opened Bytes
  import opened Exprs

  datatype Option<+T> = None | Some(value: T)

  /** The address, size and expression of a cell. */
  datatype Piece = Piece(addr: int, size: int, expr: Expr)

  function End(p: Piece): int { p.addr + p.size }

  /** Cells in address order, no two overlapping. */
  predicate Ordered(ps: seq<Piece>) {
    forall i, j :: 0 <= i < j < |ps| ==> End(ps[i]) <= ps[j].addr
  }

  /** Every cell has at least one byte and its expression is exactly as wide. */
  predicate Proper(ps: seq<Piece>) {
    forall i :: 0 <= i < |ps| ==> ProperPiece(ps[i])
  }

  predicate ProperPiece(p: Piece) {
    p.size >= 1 && WF(p.expr) && Width(p.expr) == p.size
  }

  predicate Tidy(ps: seq<Piece>) { Ordered(ps) && Proper(ps) }

  /** The part a..b of a cell, through an ExtractExpr unless it is the whole cell. */
  function Clip(p: Piece, a: int, b: int): (r: Piece)
    requires p.addr <= a < b <= End(p)
    ensures ProperPiece(p) ==> ProperPiece(r)
    ensures r.addr == a && End(r) == b
  {
    if a == p.addr && b == End(p) then p
    else Piece(a, b - a, Extract(p.expr, a - p.addr, b - p.addr))
  }

  function Max(a: int, b: int): int { if a < b then b else a }
  function Min(a: int, b: int): int { if a < b then a else b }

  /** The part of one cell inside lo..hi: nothing or one cell. */
  function ClipOne(p: Piece, lo: int, hi: int): seq<Piece> {
    var a, b := Max(p.addr, lo), Min(End(p), hi);
    if a < b then [Clip(p, a, b)] else []
  }

  /** The part of a cell list inside lo..hi. */
  function Window(ps: seq<Piece>, lo: int, hi: int): seq<Piece> {
    if ps == [] then [] else ClipOne(ps[0], lo, hi) + Window(ps[1..], lo, hi)
  }

  /** Where a nonempty list starts and stops. */
  function First(ps: seq<Piece>): int
    requires ps != []
  {
    ps[0].addr
  }

  function Stop(ps: seq<Piece>): int
    requires ps != []
  {
    End(ps[|ps| - 1])
  }

  predicate Covers(p: Piece, b: int) { p.addr <= b < End(p) }

  /** Byte b lies in some cell. */
  predicate Covered(ps: seq<Piece>, b: int) {
    exists i :: 0 <= i < |ps| && Covers(ps[i], b)
  }

  /** The value of byte b under an assignment, if a cell covers it. */
  function ByteAt(ps: seq<Piece>, b: int, asg: Assignment): Option<byte>
    requires Proper(ps)
  {
    if ps == [] then None
    else if Covers(ps[0], b) then Some(Eval(ps[0].expr, asg)[b - ps[0].addr])
    else ByteAt(ps[1..], b, asg)
  }

  /** All cells moved by d. */
  function Shift(ps: seq<Piece>, d: int): (r: seq<Piece>)
    ensures |r| == |ps|
    ensures forall i :: 0 <= i < |ps| ==> r[i] == ps[i].(addr := ps[i].addr + d)
    ensures Proper(ps) ==> Proper(r)
  {
    seq(|ps|, i requires 0 <= i < |ps| => ps[i].(addr := ps[i].addr + d))
  }

  // ---- ByteAt and Covered ----

  lemma {:induction false} ByteAtCovered(ps: seq<Piece>, b: int, asg: Assignment)
    requires Proper(ps)
    ensures ByteAt(ps, b, asg).Some? <==> Covered(ps, b)
  {
    if ps != [] {
      ByteAtCovered(ps[1..], b, asg);
      if Covered(ps, b) && !Covers(ps[0], b) {
        var i :| 0 <= i < |ps| && Covers(ps[i], b);
        assert ps[1..][i - 1] == ps[i];
      }
      if Covered(ps[1..], b) {
        var i :| 0 <= i < |ps[1..]| && Covers(ps[1..][i], b);
        assert ps[i + 1] == ps[1..][i];
      }
    }
  }

  lemma {:induction false} ByteAtConcat(ps: seq<Piece>, qs: seq<Piece>, b: int, asg: Assignment)
    requires Proper(ps) && Proper(qs)
    ensures Proper(ps + qs)
    ensures ByteAt(ps + qs, b, asg) ==
            if ByteAt(ps, b, asg).Some? then ByteAt(ps, b, asg) else ByteAt(qs, b, asg)
  {
    if ps == [] {
      assert ps + qs == qs;
    } else {
      assert (ps + qs)[1..] == ps[1..] + qs;
      ByteAtConcat(ps[1..], qs, b, asg);
    }
  }

  lemma CoveredConcat(ps: seq<Piece>, qs: seq<Piece>, b: int)
    ensures Covered(ps + qs, b) <==> Covered(ps, b) || Covered(qs, b)
  {
    if Covered(ps, b) {
      var i :| 0 <= i < |ps| && Covers(ps[i], b);
      assert (ps + qs)[i] == ps[i];
    }
    if Covered(qs, b) {
      var i :| 0 <= i < |qs| && Covers(qs[i], b);
      assert (ps + qs)[|ps| + i] == qs[i];
    }
  }

  lemma {:induction false} ByteAtShift(ps: seq<Piece>, d: int, b: int, asg: Assignment)
    requires Proper(ps)
    ensures ByteAt(Shift(ps, d), b + d, asg) == ByteAt(ps, b, asg)
  {
    if ps != [] {
      assert Shift(ps, d)[1..] == Shift(ps[1..], d);
      ByteAtShift(ps[1..], d, b, asg);
    }
  }

  lemma CoveredShift(ps: seq<Piece>, d: int, b: int)
    ensures Covered(Shift(ps, d), b + d) <==> Covered(ps, b)
  {
    if Covered(ps, b) {
      var i :| 0 <= i < |ps| && Covers(ps[i], b);
      assert Covers(Shift(ps, d)[i], b + d);
    }
    if Covered(Shift(ps, d), b + d) {
      var i :| 0 <= i < |ps| && Covers(Shift(ps, d)[i], b + d);
      assert Covers(ps[i], b);
    }
  }

  // ---- Window ----

  lemma {:induction false} WindowConcat(ps: seq<Piece>, qs: seq<Piece>, lo: int, hi: int)
    ensures Window(ps + qs, lo, hi) == Window(ps, lo, hi) + Window(qs, lo, hi)
  {
    if ps == [] {
      assert ps + qs == qs;
    } else {
      assert (ps + qs)[1..] == ps[1..] + qs;
      WindowConcat(ps[1..], qs, lo, hi);
    }
  }

  lemma WindowAround(a: seq<Piece>, p: Piece, b: seq<Piece>, lo: int, hi: int)
    ensures Window(a + [p] + b, lo, hi) == Window(a, lo, hi) + ClipOne(p, lo, hi) + Window(b, lo, hi)
  {
    WindowConcat(a + [p], b, lo, hi);
    WindowConcat(a, [p], lo, hi);
    assert Window([p], lo, hi) == ClipOne(p, lo, hi) + Window([], lo, hi);
  }

  /** Cells wholly inside the window are kept as they are. */
  lemma {:induction false} WindowInside(ps: seq<Piece>, lo: int, hi: int)
    requires forall i :: 0 <= i < |ps| ==> lo <= ps[i].addr && End(ps[i]) <= hi && ps[i].size >= 1
    ensures Window(ps, lo, hi) == ps
  {
    if ps != [] {
      WindowInside(ps[1..], lo, hi);
      assert ps == [ps[0]] + ps[1..];
    }
  }

  /** Cells wholly outside the window are dropped. */
  lemma {:induction false} WindowOutside(ps: seq<Piece>, lo: int, hi: int)
    requires forall i :: 0 <= i < |ps| ==> End(ps[i]) <= lo || hi <= ps[i].addr
    ensures Window(ps, lo, hi) == []
  {
    if ps != [] {
      WindowOutside(ps[1..], lo, hi);
    }
  }

  lemma ClipOneIn(p: Piece, lo: int, hi: int)
    requires ProperPiece(p)
    ensures var c := ClipOne(p, lo, hi);
            |c| <= 1 && forall i :: 0 <= i < |c| ==>
              ProperPiece(c[i]) && p.addr <= c[i].addr && End(c[i]) <= End(p) && lo <= c[i].addr && End(c[i]) <= hi
  {
    hide WF, Width;
  }

  lemma {:induction false} WindowTidy(ps: seq<Piece>, lo: int, hi: int)
    requires Tidy(ps)
    ensures Tidy(Window(ps, lo, hi))
    ensures forall i :: 0 <= i < |Window(ps, lo, hi)| ==>
              lo <= Window(ps, lo, hi)[i].addr && End(Window(ps, lo, hi)[i]) <= hi
    ensures ps != [] ==> forall i :: 0 <= i < |Window(ps, lo, hi)| ==> ps[0].addr <= Window(ps, lo, hi)[i].addr
  {
    hide ClipOne, WF, Width;
    if ps != [] {
      WindowTidy(ps[1..], lo, hi);
      ClipOneIn(ps[0], lo, hi);
      var w, c := Window(ps[1..], lo, hi), ClipOne(ps[0], lo, hi);
      assert Window(ps, lo, hi) == c + w;
      forall i | 0 <= i < |w| ensures End(ps[0]) <= w[i].addr {
        assert Window([], lo, hi) == [];
        assert ps[1..] != [];
        assert ps[1..][0] == ps[1];
      }
    }
  }

  lemma {:induction false} WindowProper(ps: seq<Piece>, lo: int, hi: int)
    requires Proper(ps)
    ensures Proper(Window(ps, lo, hi))
  {
    if ps != [] {
      WindowProper(ps[1..], lo, hi);
    }
  }

  lemma ClipOneByteAt(p: Piece, lo: int, hi: int, b: int, asg: Assignment)
    requires ProperPiece(p)
    ensures Proper(ClipOne(p, lo, hi))
    ensures ByteAt(ClipOne(p, lo, hi), b, asg)
            == if Covers(p, b) && lo <= b < hi then Some(Eval(p.expr, asg)[b - p.addr]) else None
  {
    hide Alu, AluUry, EvalParts, ToBytes, TotalWidth;
    var c := ClipOne(p, lo, hi);
    if c != [] {
      assert ByteAt(c[1..], b, asg) == None;
    }
  }

  /** A window keeps the meaning of the bytes inside it and forgets the others. */
  lemma {:induction false} WindowByteAt(ps: seq<Piece>, lo: int, hi: int, b: int, asg: Assignment)
    requires Proper(ps)
    ensures Proper(Window(ps, lo, hi))
    ensures ByteAt(Window(ps, lo, hi), b, asg) == if lo <= b < hi then ByteAt(ps, b, asg) else None
  {
    WindowProper(ps, lo, hi);
    if ps != [] {
      WindowProper(ps[1..], lo, hi);
      WindowByteAt(ps[1..], lo, hi, b, asg);
      ClipOneByteAt(ps[0], lo, hi, b, asg);
      ByteAtConcat(ClipOne(ps[0], lo, hi), Window(ps[1..], lo, hi), b, asg);
    }
  }

  lemma WindowCovered(ps: seq<Piece>, lo: int, hi: int, b: int)
    requires Proper(ps)
    ensures Covered(Window(ps, lo, hi), b) <==> lo <= b < hi && Covered(ps, b)
  {
    var asg: Assignment := _ => 0;
    WindowByteAt(ps, lo, hi, b, asg);
    ByteAtCovered(ps, b, asg);
    ByteAtCovered(Window(ps, lo, hi), b, asg);
  }

  // ---- Splice ----

  /** Canonical 48-bit addresses, sign extended. */
  const LO := -0x8000_0000_0000
  const HI := 0x8000_0000_0000

  /** Cells of canonical addresses; none may start at -1, whose index key is the tail sentinel's. */
  predicate InDom(ps: seq<Piece>) {
    forall i :: 0 <= i < |ps| ==> LO <= ps[i].addr && End(ps[i]) <= HI && ps[i].addr != -1
  }

  predicate WFList(ps: seq<Piece>) { Tidy(ps) && InDom(ps) }

  predicate InRange(lo: int, hi: int) { LO <= lo < hi <= HI && lo != -1 && hi != -1 }

  /** All cells lie inside lo..hi. */
  predicate Within(ps: seq<Piece>, lo: int, hi: int) {
    forall i :: 0 <= i < |ps| ==> lo <= ps[i].addr && End(ps[i]) <= hi
  }

  /** The list with the span lo..hi emptied and src put there. */
  function Splice(ps: seq<Piece>, lo: int, hi: int, src: seq<Piece>): seq<Piece> {
    Window(ps, LO, lo) + src + Window(ps, hi, HI)
  }

  lemma {:induction false} WindowInDom(ps: seq<Piece>, lo: int, hi: int)
    requires WFList(ps) && lo != -1
    ensures InDom(Window(ps, lo, hi))
  {
    if ps != [] {
      WindowInDom(ps[1..], lo, hi);
    }
  }

  lemma SpliceWF(ps: seq<Piece>, lo: int, hi: int, src: seq<Piece>)
    requires WFList(ps) && InRange(lo, hi) && WFList(src) && Within(src, lo, hi)
    ensures WFList(Splice(ps, lo, hi, src))
  {
    hide Window, ProperPiece;
    WindowTidy(ps, LO, lo);
    WindowTidy(ps, hi, HI);
    WindowInDom(ps, LO, lo);
    WindowInDom(ps, hi, HI);
  }

  /** Splicing changes the meaning of exactly the bytes of the span. */
  lemma SpliceByteAt(ps: seq<Piece>, lo: int, hi: int, src: seq<Piece>, b: int, asg: Assignment)
    requires WFList(ps) && InRange(lo, hi) && WFList(src) && Within(src, lo, hi)
    ensures WFList(Splice(ps, lo, hi, src))
    ensures ByteAt(Splice(ps, lo, hi, src), b, asg) ==
            if lo <= b < hi then ByteAt(src, b, asg) else ByteAt(ps, b, asg)
  {
    SpliceWF(ps, lo, hi, src);
    var l, r := Window(ps, LO, lo), Window(ps, hi, HI);
    WindowTidy(ps, LO, lo);
    WindowTidy(ps, hi, HI);
    ByteAtConcat(l, src, b, asg);
    ByteAtConcat(l + src, r, b, asg);
    WindowByteAt(ps, LO, lo, b, asg);
    WindowByteAt(ps, hi, HI, b, asg);
    ByteAtCovered(src, b, asg);
    ByteAtCovered(ps, b, asg);
  }

  lemma SpliceCovered(ps: seq<Piece>, lo: int, hi: int, src: seq<Piece>, b: int)
    requires WFList(ps) && InRange(lo, hi) && WFList(src) && Within(src, lo, hi)
    ensures Covered(Splice(ps, lo, hi, src), b) <==> if lo <= b < hi then Covered(src, b) else Covered(ps, b)
  {
    var asg: Assignment := _ => 0;
    SpliceByteAt(ps, lo, hi, src, b, asg);
    ByteAtCovered(Splice(ps, lo, hi, src), b, asg);
    ByteAtCovered(src, b, asg);
    ByteAtCovered(ps, b, asg);
  }
}
