/** GetExpr's result as a value: live cells and concrete filler bytes side by side (SymList.cpp:324-383). */
module Assembly {
  import opened Bytes
  import opened Exprs
  import opened Pieces

  /** One-byte constants for the bytes a..b of the concrete value. */
  function Fillers(a: nat, b: int, conc: seq<byte>): seq<Piece>
    requires b <= |conc|
    decreases b - a
  {
    if a < b then [Piece(a, 1, Const(conc[a], 1))] + Fillers(a + 1, b, conc) else []
  }

  /** The parts from byte next on: cells where there are any, fillers elsewhere. */
  function Fill(ps: seq<Piece>, next: nat, size: nat, conc: seq<byte>): seq<Piece>
    requires size <= |conc| && Tidy(ps) && Within(ps, next, size)
    decreases |ps|
  {
    if ps == [] then Fillers(next, size, conc)
    else Fillers(next, ps[0].addr, conc) + [ps[0]] + Fill(ps[1..], End(ps[0]), size, conc)
  }

  function ExprsOf(ps: seq<Piece>): (es: seq<Expr>)
    ensures |es| == |ps|
  {
    if ps == [] then [] else [ps[0].expr] + ExprsOf(ps[1..])
  }

  function AddrsOf(ps: seq<Piece>): seq<int> {
    seq(|ps|, i requires 0 <= i < |ps| => ps[i].addr)
  }

  function SizesOf(ps: seq<Piece>): seq<int> {
    seq(|ps|, i requires 0 <= i < |ps| => ps[i].size)
  }

  /** The parts follow each other from a to b without gap or overlap. */
  predicate Tile(ps: seq<Piece>, a: int, b: int)
    decreases |ps|
  {
    if ps == [] then a == b else ps[0].addr == a && Tile(ps[1..], End(ps[0]), b)
  }

  /** The expression GetExpr builds: a CombineMultiExpr, or the one cell's own expression. */
  function Assemble(ps: seq<Piece>, size: nat, conc: seq<byte>): Expr
    requires size <= |conc| && Tidy(ps) && Within(ps, 0, size) && ps != []
  {
    var fs := Fill(ps, 0, size, conc);
    if |fs| > 1 then CombineMulti(ExprsOf(fs), AddrsOf(fs), SizesOf(fs), size) else ps[0].expr
  }

  lemma AssembleParts(ps: seq<Piece>, size: nat, conc: seq<byte>)
    requires size <= |conc| && Tidy(ps) && Within(ps, 0, size) && ps != []
    ensures var fs := Fill(ps, 0, size, conc);
            Assemble(ps, size, conc)
            == if |fs| > 1 then CombineMulti(ExprsOf(fs), AddrsOf(fs), SizesOf(fs), size) else ps[0].expr
  {}

  /** A byte of the concrete value with the live cells laid over it. */
  function OverlayAt(ps: seq<Piece>, b: nat, conc: seq<byte>, asg: Assignment): byte
    requires b < |conc| && Proper(ps)
  {
    match ByteAt(ps, b, asg)
    case Some(v) => v
    case None => conc[b]
  }

  function Overlay(ps: seq<Piece>, a: nat, b: nat, conc: seq<byte>, asg: Assignment): (bs: seq<byte>)
    requires a <= b <= |conc| && Proper(ps)
    ensures |bs| == b - a
  {
    seq<byte>(b - a, k requires 0 <= k < b - a => OverlayAt(ps, a + k, conc, asg))
  }

  // ---- tiling ----

  lemma {:induction false} TileConcat(ps: seq<Piece>, qs: seq<Piece>, a: int, b: int, c: int)
    requires Tile(ps, a, b) && Tile(qs, b, c)
    ensures Tile(ps + qs, a, c)
  {
    if ps == [] {
      assert ps + qs == qs;
    } else {
      assert (ps + qs)[1..] == ps[1..] + qs;
      TileConcat(ps[1..], qs, End(ps[0]), b, c);
    }
  }

  lemma {:induction false} FillersTile(a: nat, b: nat, conc: seq<byte>)
    requires a <= b <= |conc|
    ensures Tile(Fillers(a, b, conc), a, b) && Proper(Fillers(a, b, conc)) && |Fillers(a, b, conc)| == b - a
    decreases b - a
  {
    if a < b {
      FillersTile(a + 1, b, conc);
    }
  }

  /** The parts tile the whole value, each is as wide as its expression, and there are at most size of them. */
  lemma {:induction false} FillTiles(ps: seq<Piece>, next: nat, size: nat, conc: seq<byte>)
    requires next <= size <= |conc| && Tidy(ps) && Within(ps, next, size)
    ensures var fs := Fill(ps, next, size, conc);
            Tile(fs, next, size) && Proper(fs) && |ps| <= |fs| <= size - next
    decreases |ps|
  {
    if ps == [] {
      FillersTile(next, size, conc);
    } else {
      var p, rest := ps[0], Fill(ps[1..], End(ps[0]), size, conc);
      FillersTile(next, p.addr, conc);
      FillTiles(ps[1..], End(p), size, conc);
      assert Tile([p], p.addr, End(p)) by { assert [p][1..] == []; }
      TileConcat(Fillers(next, p.addr, conc), [p], next, p.addr, End(p));
      TileConcat(Fillers(next, p.addr, conc) + [p], rest, next, End(p), size);
    }
  }

  /** Parts that tile a..b have exactly the offsets a CombineMultiExpr needs. */
  lemma {:induction false} TileWidth(ps: seq<Piece>, a: int, b: int)
    requires Tile(ps, a, b) && Proper(ps)
    ensures TotalWidth(ExprsOf(ps)) == b - a
  {
    if ps != [] {
      TileWidth(ps[1..], End(ps[0]), b);
      assert ExprsOf(ps)[1..] == ExprsOf(ps[1..]);
    }
  }

  lemma {:induction false} ExprsAt(ps: seq<Piece>, i: nat)
    requires i < |ps|
    ensures ExprsOf(ps)[i] == ps[i].expr
  {
    if i > 0 {
      ExprsAt(ps[1..], i - 1);
    }
  }

  lemma {:induction false} TileOffset(ps: seq<Piece>, a: int, b: int, i: nat)
    requires Tile(ps, a, b) && Proper(ps) && i < |ps|
    ensures TotalWidth(ExprsOf(ps)[..i]) == ps[i].addr - a
  {
    if i > 0 {
      TileOffset(ps[1..], End(ps[0]), b, i - 1);
      assert ExprsOf(ps)[..i] == [ps[0].expr] + ExprsOf(ps[1..])[..i - 1];
    }
  }

  lemma CombineWF(ps: seq<Piece>, size: nat)
    requires Tile(ps, 0, size) && Proper(ps) && size >= 1
    ensures WF(CombineMulti(ExprsOf(ps), AddrsOf(ps), SizesOf(ps), size))
  {
    TileWidth(ps, 0, size);
    forall i | 0 <= i < |ps|
      ensures WF(ExprsOf(ps)[i]) && SizesOf(ps)[i] == Width(ExprsOf(ps)[i])
      ensures AddrsOf(ps)[i] == TotalWidth(ExprsOf(ps)[..i])
    {
      ExprsAt(ps, i);
      TileOffset(ps, 0, size, i);
    }
  }

  lemma {:induction false} EvalPartsConcat(es: seq<Expr>, gs: seq<Expr>, asg: Assignment)
    requires forall i :: 0 <= i < |es| ==> WF(es[i])
    requires forall i :: 0 <= i < |gs| ==> WF(gs[i])
    ensures EvalParts(es + gs, asg) == EvalParts(es, asg) + EvalParts(gs, asg)
  {
    if es == [] {
      assert es + gs == gs;
    } else {
      assert (es + gs)[1..] == es[1..] + gs;
      EvalPartsConcat(es[1..], gs, asg);
    }
  }

  /** Exprs of a proper list are bit-vector expressions. */
  lemma {:induction false} ExprsProper(ps: seq<Piece>)
    requires Proper(ps)
    ensures forall i :: 0 <= i < |ps| ==> WF(ExprsOf(ps)[i])
  {
    forall i | 0 <= i < |ps| ensures WF(ExprsOf(ps)[i]) {
      ExprsAt(ps, i);
    }
  }

  lemma {:induction false} ExprsConcat(ps: seq<Piece>, qs: seq<Piece>)
    ensures ExprsOf(ps + qs) == ExprsOf(ps) + ExprsOf(qs)
  {
    if ps == [] {
      assert ps + qs == qs;
    } else {
      assert (ps + qs)[1..] == ps[1..] + qs;
      ExprsConcat(ps[1..], qs);
    }
  }

  // ---- building the parts one by one ----

  /** A cell starts at byte next: it is taken as it is. */
  lemma FillCell(ps: seq<Piece>, next: nat, size: nat, conc: seq<byte>)
    requires size <= |conc| && Tidy(ps) && Within(ps, next, size) && ps != [] && ps[0].addr == next
    ensures Tidy(ps[1..]) && Within(ps[1..], End(ps[0]), size)
    ensures Fill(ps, next, size, conc) == [ps[0]] + Fill(ps[1..], End(ps[0]), size, conc)
  {
    hide WF, Width;
    assert Fillers(next, ps[0].addr, conc) == [];
  }

  lemma PushPart(fs: seq<Piece>, p: Piece)
    ensures ExprsOf(fs + [p]) == ExprsOf(fs) + [p.expr]
    ensures AddrsOf(fs + [p]) == AddrsOf(fs) + [p.addr]
    ensures SizesOf(fs + [p]) == SizesOf(fs) + [p.size]
  {
    ExprsConcat(fs, [p]);
    assert [p][1..] == [];
    assert ExprsOf([p]) == [p.expr];
  }

  /** fs is what has been collected of whole, and ps, from byte next on, is what is left. */
  ghost predicate Collected(ps: seq<Piece>, next: nat, size: nat, conc: seq<byte>, fs: seq<Piece>, whole: seq<Piece>)
    requires size <= |conc|
  {
    next <= size && Tidy(ps) && Within(ps, next, size) && whole == fs + Fill(ps, next, size, conc)
  }

  lemma Regroup<T>(a: seq<T>, x: T, r: seq<T>)
    ensures a + ([x] + r) == a + [x] + r
  {}

  lemma CollectStart(ps: seq<Piece>, size: nat, conc: seq<byte>)
    requires size <= |conc| && Tidy(ps) && Within(ps, 0, size)
    ensures ps[0..] == ps && Collected(ps, 0, size, conc, [], Fill(ps, 0, size, conc))
    ensures ExprsOf([]) == [] && AddrsOf([]) == [] && SizesOf([]) == []
  {
    assert ps[0..] == ps;
  }

  lemma CollectDone(next: nat, size: nat, conc: seq<byte>, fs: seq<Piece>, whole: seq<Piece>)
    requires size <= |conc| && Collected([], next, size, conc, fs, whole) && size <= next
    ensures fs == whole
  {
    assert Fillers(next, size, conc) == [];
  }

  lemma CollectFiller(ps: seq<Piece>, next: nat, size: nat, conc: seq<byte>, fs: seq<Piece>, whole: seq<Piece>)
    returns (fs': seq<Piece>)
    requires size <= |conc| && Collected(ps, next, size, conc, fs, whole)
    requires if ps == [] then next < size else next < ps[0].addr
    ensures next < size && Collected(ps, next + 1, size, conc, fs', whole)
    ensures |fs'| == |fs| + 1 && ExprsOf(fs') == ExprsOf(fs) + [Const(conc[next], 1)]
    ensures AddrsOf(fs') == AddrsOf(fs) + [next] && SizesOf(fs') == SizesOf(fs) + [1]
  {
    assert next < size;
    var p := Piece(next, 1, Const(conc[next], 1));
    fs' := fs + [p];
    hide Fill, Tidy, Within, ExprsOf, AddrsOf, SizesOf;
    PushPart(fs, p);
    Regroup(fs, p, Fill(ps, next + 1, size, conc));
  }

  lemma CollectCell(ps: seq<Piece>, next: nat, size: nat, conc: seq<byte>, fs: seq<Piece>, whole: seq<Piece>)
    returns (fs': seq<Piece>)
    requires size <= |conc| && Collected(ps, next, size, conc, fs, whole)
    requires ps != [] && ps[0].addr <= next
    ensures ps[0].addr == next && End(ps[0]) >= 0 && Collected(ps[1..], End(ps[0]), size, conc, fs', whole)
    ensures |fs'| == |fs| + 1 && ExprsOf(fs') == ExprsOf(fs) + [ps[0].expr]
    ensures AddrsOf(fs') == AddrsOf(fs) + [ps[0].addr] && SizesOf(fs') == SizesOf(fs) + [ps[0].size]
    ensures End(ps[0]) == ps[0].addr + ps[0].size
  {
    fs' := fs + [ps[0]];
    FillCell(ps, next, size, conc);
    var rest := Fill(ps[1..], End(ps[0]), size, conc);
    hide Fill, Tidy, Within, ExprsOf, AddrsOf, SizesOf;
    PushPart(fs, ps[0]);
    Regroup(fs, ps[0], rest);
  }

  /** The bytes of a list of parts, side by side. */
  function PartBytes(ps: seq<Piece>, asg: Assignment): seq<byte>
    requires Proper(ps)
  {
    ExprsProper(ps);
    EvalParts(ExprsOf(ps), asg)
  }

  lemma PartBytesConcat(ps: seq<Piece>, qs: seq<Piece>, asg: Assignment)
    requires Proper(ps) && Proper(qs)
    ensures Proper(ps + qs) && PartBytes(ps + qs, asg) == PartBytes(ps, asg) + PartBytes(qs, asg)
  {
    ExprsConcat(ps, qs);
    ExprsProper(ps);
    ExprsProper(qs);
    EvalPartsConcat(ExprsOf(ps), ExprsOf(qs), asg);
  }

  lemma PartBytesOne(p: Piece, asg: Assignment)
    requires ProperPiece(p)
    ensures PartBytes([p], asg) == Eval(p.expr, asg)
  {
    assert [p][1..] == [];
    assert ExprsOf([p]) == [p.expr];
    assert [p.expr][1..] == [];
    assert EvalParts([], asg) == [];
  }

  lemma {:induction false} FillerBytes(a: nat, b: nat, conc: seq<byte>, asg: Assignment)
    requires a <= b <= |conc|
    ensures Proper(Fillers(a, b, conc)) && PartBytes(Fillers(a, b, conc), asg) == conc[a..b]
    decreases b - a
  {
    FillersTile(a, b, conc);
    if a < b {
      var p := Piece(a, 1, Const(conc[a], 1));
      FillersTile(a + 1, b, conc);
      FillerBytes(a + 1, b, conc, asg);
      PartBytesOne(p, asg);
      assert Eval(p.expr, asg) == [conc[a]] by { assert ToBytes(conc[a] / 256, 0) == []; }
      PartBytesConcat([p], Fillers(a + 1, b, conc), asg);
      assert conc[a..b] == [conc[a]] + conc[a + 1..b];
    }
  }

  /** Below its first cell a list leaves the concrete bytes; on the cell it shows the cell; above, the rest. */
  lemma OverlayStep(ps: seq<Piece>, next: nat, size: nat, conc: seq<byte>, asg: Assignment)
    requires next <= size <= |conc| && Tidy(ps) && Within(ps, next, size) && ps != []
    ensures Overlay(ps, next, size, conc, asg)
            == conc[next..ps[0].addr] + Eval(ps[0].expr, asg) + Overlay(ps[1..], End(ps[0]), size, conc, asg)
  {
    var p, l := ps[0], Overlay(ps, next, size, conc, asg);
    var r := conc[next..p.addr] + Eval(p.expr, asg) + Overlay(ps[1..], End(p), size, conc, asg);
    forall k | 0 <= k < size - next ensures l[k] == r[k] {
      OverlayStepAt(ps, next, size, conc, asg, next + k);
    }
  }

  lemma OverlayStepAt(ps: seq<Piece>, next: nat, size: nat, conc: seq<byte>, asg: Assignment, b: nat)
    requires next <= b < size <= |conc| && Tidy(ps) && Within(ps, next, size) && ps != []
    ensures OverlayAt(ps, b, conc, asg)
            == if b < ps[0].addr then conc[b]
               else if b < End(ps[0]) then Eval(ps[0].expr, asg)[b - ps[0].addr]
               else OverlayAt(ps[1..], b, conc, asg)
  {
    if b < ps[0].addr {
      forall i | 0 <= i < |ps| ensures b < ps[i].addr {
        assert i > 0 ==> End(ps[0]) <= ps[i].addr;
      }
      NoneBelow(ps, b, asg);
    }
  }

  lemma {:induction false} NoneBelow(ps: seq<Piece>, b: int, asg: Assignment)
    requires Proper(ps) && forall i :: 0 <= i < |ps| ==> b < ps[i].addr
    ensures ByteAt(ps, b, asg) == None
  {
    if ps != [] {
      NoneBelow(ps[1..], b, asg);
    }
  }

  lemma OverlayNothing(ps: seq<Piece>, a: nat, b: nat, conc: seq<byte>, asg: Assignment)
    requires a <= b <= |conc| && ps == []
    ensures Overlay(ps, a, b, conc, asg) == conc[a..b]
  {
    var l, r := Overlay(ps, a, b, conc, asg), conc[a..b];
    assert forall k :: 0 <= k < b - a ==> l[k] == OverlayAt(ps, a + k, conc, asg);
    assert forall k :: 0 <= k < b - a ==> r[k] == conc[a + k];
    assert l == r;
  }

  lemma {:induction false} FillBytes(ps: seq<Piece>, next: nat, size: nat, conc: seq<byte>, asg: Assignment)
    requires next <= size <= |conc| && Tidy(ps) && Within(ps, next, size)
    ensures Proper(Fill(ps, next, size, conc))
    ensures PartBytes(Fill(ps, next, size, conc), asg) == Overlay(ps, next, size, conc, asg)
    decreases |ps|
  {
    FillTiles(ps, next, size, conc);
    if ps == [] {
      FillerBytes(next, size, conc, asg);
      OverlayNothing(ps, next, size, conc, asg);
    } else {
      var p := ps[0];
      var f, rest := Fillers(next, p.addr, conc), Fill(ps[1..], End(p), size, conc);
      FillTiles(ps[1..], End(p), size, conc);
      FillerBytes(next, p.addr, conc, asg);
      FillBytes(ps[1..], End(p), size, conc, asg);
      PartBytesOne(p, asg);
      PartBytesConcat(f, [p], asg);
      PartBytesConcat(f + [p], rest, asg);
      OverlayStep(ps, next, size, conc, asg);
    }
  }

  /** GetExpr's expression is as wide as the read and means the concrete bytes overlaid with the live cells. */
  lemma AssembleMeaning(ps: seq<Piece>, size: nat, conc: seq<byte>, asg: Assignment)
    requires 1 <= size <= |conc| && Tidy(ps) && Within(ps, 0, size) && ps != []
    ensures var e := Assemble(ps, size, conc);
            WF(e) && Width(e) == size && Eval(e, asg) == Overlay(ps, 0, size, conc, asg)
  {
    var fs := Fill(ps, 0, size, conc);
    FillTiles(ps, 0, size, conc);
    FillBytes(ps, 0, size, conc, asg);
    if |fs| > 1 {
      CombineWF(fs, size);
    } else {
      OverlayStep(ps, 0, size, conc, asg);
    }
  }

  /** Only the low size bytes of the concrete value are used. */
  lemma {:induction false} FillersLow(a: nat, b: nat, conc: seq<byte>, wide: seq<byte>)
    requires b <= |conc| <= |wide| && wide[..|conc|] == conc
    ensures Fillers(a, b, wide) == Fillers(a, b, conc)
    decreases b - a
  {
    if a < b {
      FillersLow(a + 1, b, conc, wide);
      assert wide[..|conc|][a] == wide[a];
    }
  }

  lemma {:induction false} FillLow(ps: seq<Piece>, next: nat, size: nat, conc: seq<byte>, wide: seq<byte>)
    requires size == |conc| <= |wide| && wide[..size] == conc && Tidy(ps) && Within(ps, next, size)
    ensures Fill(ps, next, size, wide) == Fill(ps, next, size, conc)
    decreases |ps|
  {
    if ps == [] {
      FillersLow(next, size, conc, wide);
    } else {
      FillersLow(next, ps[0].addr, conc, wide);
      FillLow(ps[1..], End(ps[0]), size, conc, wide);
    }
  }

  lemma AssembleLow(ps: seq<Piece>, size: nat, conc: seq<byte>, wide: seq<byte>)
    requires size == |conc| <= |wide| && wide[..size] == conc && Tidy(ps) && Within(ps, 0, size) && ps != []
    ensures Assemble(ps, size, wide) == Assemble(ps, size, conc)
  {
    FillLow(ps, 0, size, conc, wide);
  }
}
