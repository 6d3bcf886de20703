/** How the solver reads an expression (Z3Handler.cpp:258-479, 788-834), against its meaning by offsets. */
module Z3Handler {
  import opened Bytes
  import opened Exprs
  import opened Pieces

  /** Lists of well-formed expressions. */
  predicate AllWF(es: seq<Expr>) { forall i :: 0 <= i < |es| ==> WF(es[i]) }

  /** The value of the bit-vector built for an expression: as its meaning, but the parts of a CombineMultiExpr are
      concatenated with the first one highest. */
  function Z3Value(e: Expr, asg: Assignment): (bs: seq<byte>)
    requires WF(e)
    ensures |bs| == Width(e)
    decreases e, 1
  {
    match e
    case UDef(obj) => ToBytes(asg(obj), obj.size)
    case Const(v, size) => ToBytes(v, size)
    case Bin(op, R, L) => Alu(op, Z3Value(R, asg), Z3Value(L, asg))
    case Ury(op, E) => AluUry(op, Z3Value(E, asg))
    case Extract(E, s, t) => Z3Value(E, asg)[s..t]
    case CombineMulti(es, _, _, _) => Z3Concat(es, asg)
  }

  /** Parts side by side, the first one highest. */
  function Z3Concat(es: seq<Expr>, asg: Assignment): (bs: seq<byte>)
    requires AllWF(es)
    ensures |bs| == TotalWidth(es)
    decreases es, 0
  {
    if es == [] then [] else Z3Concat(es[1..], asg) + Z3Value(es[0], asg)
  }

  /** The loop over the parts; fewer than two are refused. */
  method Z3HandleCombineMulti(exprs: seq<Expr>, asg: Assignment) returns (r: Option<seq<byte>>)
    requires AllWF(exprs)
    ensures r == if |exprs| < 2 then None else Some(Z3Concat(exprs, asg))
  {
    if |exprs| < 2 {
      return None;
    }
    var combmulti_expr := Z3Value(exprs[0], asg);
    var nu := 1;
    assert exprs[..1] == [exprs[0]] && [exprs[0]][1..] == [];
    while nu < |exprs|
      invariant 1 <= nu <= |exprs|
      invariant combmulti_expr == Z3Concat(exprs[..nu], asg)
    {
      assert exprs[..nu + 1] == exprs[..nu] + [exprs[nu]];
      Z3Snoc(exprs[..nu], exprs[nu], asg);
      combmulti_expr := Z3Value(exprs[nu], asg) + combmulti_expr;
      nu := nu + 1;
    }
    assert exprs[..nu] == exprs;
    r := Some(combmulti_expr);
  }

  lemma {:induction false} Z3Snoc(es: seq<Expr>, e: Expr, asg: Assignment)
    requires AllWF(es) && WF(e)
    ensures Z3Concat(es + [e], asg) == Z3Value(e, asg) + Z3Concat(es, asg)
  {
    hide Z3Value;
    if es == [] {
      assert (es + [e])[1..] == [];
    } else {
      assert (es + [e])[1..] == es[1..] + [e];
      Z3Snoc(es[1..], e, asg);
    }
  }

  function Reverse(es: seq<Expr>): (r: seq<Expr>)
    ensures |r| == |es|
    ensures forall i :: 0 <= i < |es| ==> r[i] == es[|es| - 1 - i]
  {
    if es == [] then [] else Reverse(es[1..]) + [es[0]]
  }

  lemma {:induction false} EvalSnoc(es: seq<Expr>, e: Expr, asg: Assignment)
    requires AllWF(es) && WF(e)
    ensures AllWF(es + [e]) && EvalParts(es + [e], asg) == EvalParts(es, asg) + Eval(e, asg)
  {
    hide Eval;
    if es == [] {
      assert (es + [e])[1..] == [];
    } else {
      assert (es + [e])[1..] == es[1..] + [e];
      EvalSnoc(es[1..], e, asg);
    }
  }

  lemma {:induction false} WidthSnoc(es: seq<Expr>, e: Expr)
    ensures TotalWidth(es + [e]) == TotalWidth(es) + Width(e)
  {
    if es == [] {
      assert (es + [e])[1..] == [];
    } else {
      assert (es + [e])[1..] == es[1..] + [e];
      WidthSnoc(es[1..], e);
    }
  }

  // ---- turning part lists round ----

  function OffsetsOf(es: seq<Expr>): seq<int> { seq(|es|, i requires 0 <= i < |es| => TotalWidth(es[..i])) }

  function WidthsOf(es: seq<Expr>): seq<int> { seq(|es|, i requires 0 <= i < |es| => Width(es[i])) }

  /** Every part list turned round, at every depth. */
  function Turned(e: Expr): (r: Expr)
    requires WF(e)
    ensures WF(r) && Width(r) == Width(e)
    decreases e, 1
  {
    match e
    case Bin(op, R, L) => Bin(op, Turned(R), Turned(L))
    case Ury(op, E) => Ury(op, Turned(E))
    case Extract(E, s, t) => Extract(Turned(E), s, t)
    case CombineMulti(es, _, _, size) =>
      var ts := TurnedParts(es);
      CombineMulti(ts, OffsetsOf(ts), WidthsOf(ts), size)
    case _ => e
  }

  function TurnedParts(es: seq<Expr>): (r: seq<Expr>)
    requires AllWF(es)
    ensures AllWF(r) && |r| == |es| && TotalWidth(r) == TotalWidth(es)
    decreases es, 0
  {
    if es == [] then [] else
    var t, ts := Turned(es[0]), TurnedParts(es[1..]);
    WidthSnoc(ts, t);
    ts + [t]
  }

  /** The solver reads the turned expression as the expression means. */
  lemma {:induction false} TurnedReads(e: Expr, asg: Assignment)
    requires WF(e)
    ensures Z3Value(Turned(e), asg) == Eval(e, asg)
    decreases e, 1
  {
    hide Alu, AluUry;
    match e
    case Bin(op, R, L) => {
      TurnedReads(R, asg);
      TurnedReads(L, asg);
    }
    case Ury(op, E) => TurnedReads(E, asg);
    case Extract(E, s, t) => TurnedReads(E, asg);
    case CombineMulti(es, _, _, size) => TurnedPartsRead(es, asg);
    case _ => {}
  }

  lemma {:induction false} TurnedPartsRead(es: seq<Expr>, asg: Assignment)
    requires AllWF(es)
    ensures Z3Concat(TurnedParts(es), asg) == EvalParts(es, asg)
    decreases es, 0
  {
    if es != [] {
      var t, ts := Turned(es[0]), TurnedParts(es[1..]);
      TurnedReads(es[0], asg);
      TurnedPartsRead(es[1..], asg);
      Z3Snoc(ts, t, asg);
    }
  }

  // ---- part lists of objects, parts of objects and constants ----

  /** Where a byte comes from. */
  datatype Source = Fixed(b: byte) | OfSym(s: Sym, i: nat)

  /** What the cells of a store hold before any arithmetic: objects, constants, and extracts of them at any depth. */
  predicate Leaf(e: Expr) {
    WF(e) && (e.UDef? || e.Const? || (e.Extract? && Leaf(e.E)))
  }

  predicate Leaves(es: seq<Expr>) { forall i :: 0 <= i < |es| ==> Leaf(es[i]) }

  predicate Sourced(x: Source) { x.OfSym? ==> x.i < x.s.size }

  /** The sources of the bytes of a part, lowest first. */
  function LeafLayout(e: Expr): (xs: seq<Source>)
    requires Leaf(e)
    ensures |xs| == Width(e) && forall i :: 0 <= i < |xs| ==> Sourced(xs[i])
  {
    match e
    case UDef(obj) => seq(obj.size, i requires 0 <= i < obj.size => OfSym(obj, i))
    case Const(v, size) => var bs := ToBytes(v, size); seq(size, i requires 0 <= i < size => Fixed(bs[i]))
    case Extract(E, s, t) => LeafLayout(E)[s..t]
  }

  /** The sources of the bytes of a part list, first part lowest. */
  function Layout(es: seq<Expr>): (xs: seq<Source>)
    requires Leaves(es)
    ensures forall i :: 0 <= i < |xs| ==> Sourced(xs[i])
  {
    if es == [] then [] else LeafLayout(es[0]) + Layout(es[1..])
  }

  function Drawn(x: Source, asg: Assignment): byte
    requires Sourced(x)
  {
    match x
    case Fixed(b) => b
    case OfSym(s, i) => ToBytes(asg(s), s.size)[i]
  }

  function DrawnAll(xs: seq<Source>, asg: Assignment): (bs: seq<byte>)
    requires forall i :: 0 <= i < |xs| ==> Sourced(xs[i])
    ensures |bs| == |xs|
  {
    seq<byte>(|xs|, i requires 0 <= i < |xs| => Drawn(xs[i], asg))
  }

  lemma {:induction false} LeafDrawn(e: Expr, asg: Assignment)
    requires Leaf(e)
    ensures Eval(e, asg) == DrawnAll(LeafLayout(e), asg) && Z3Value(e, asg) == Eval(e, asg)
  {
    hide ToBytes, Alu, AluUry, EvalParts, Z3Concat;
    if e.Extract? {
      LeafDrawn(e.E, asg);
      CutDrawn(LeafLayout(e.E), e.s, e.e, asg);
    }
  }

  lemma CutDrawn(xs: seq<Source>, s: nat, t: nat, asg: Assignment)
    requires (forall i :: 0 <= i < |xs| ==> Sourced(xs[i])) && s <= t <= |xs|
    ensures forall i :: 0 <= i < |xs[s..t]| ==> Sourced(xs[s..t][i])
    ensures DrawnAll(xs[s..t], asg) == DrawnAll(xs, asg)[s..t]
  {
    hide Drawn, Sourced;
    assert forall i :: 0 <= i < |xs[s..t]| ==> xs[s..t][i] == xs[s + i];
  }

  lemma DrawnConcat(xs: seq<Source>, ys: seq<Source>, asg: Assignment)
    requires (forall i :: 0 <= i < |xs| ==> Sourced(xs[i])) && (forall i :: 0 <= i < |ys| ==> Sourced(ys[i]))
    ensures forall i :: 0 <= i < |xs + ys| ==> Sourced((xs + ys)[i])
    ensures DrawnAll(xs + ys, asg) == DrawnAll(xs, asg) + DrawnAll(ys, asg)
  {
    hide Drawn, Sourced;
    assert forall i :: 0 <= i < |xs + ys| ==> (xs + ys)[i] == if i < |xs| then xs[i] else ys[i - |xs|];
  }

  lemma {:induction false} LayoutDrawn(es: seq<Expr>, asg: Assignment)
    requires Leaves(es)
    ensures AllWF(es) && EvalParts(es, asg) == DrawnAll(Layout(es), asg)
  {
    hide Eval, LeafLayout, DrawnAll, Sourced;
    if es != [] {
      LeafDrawn(es[0], asg);
      LayoutDrawn(es[1..], asg);
      DrawnConcat(LeafLayout(es[0]), Layout(es[1..]), asg);
    }
  }

  /** The solver reads leaves in the order of the reversed list. */
  lemma {:induction false} Z3Drawn(es: seq<Expr>, asg: Assignment)
    requires Leaves(es)
    ensures AllWF(es) && Leaves(Reverse(es)) && AllWF(Reverse(es))
    ensures Z3Concat(es, asg) == EvalParts(Reverse(es), asg)
  {
    hide Eval, Z3Value;
    if es != [] {
      LeafDrawn(es[0], asg);
      Z3Drawn(es[1..], asg);
      EvalSnoc(Reverse(es[1..]), es[0], asg);
    }
  }

  // ---- telling sources apart ----

  /** An assignment under which two different sources give different bytes. */
  function Telling(x: Source, y: Source): Assignment {
    match x
    case OfSym(s, i) => (o: Sym) => if o == s && (y.Fixed? ==> y.b == 0) then Pow256(i) else 0
    case Fixed(b) => if y.OfSym? && b == 0 then (o: Sym) => if o == y.s then Pow256(y.i) else 0 else (o: Sym) => 0
  }

  /** A power of 256 has the byte 1 in its place and 0 elsewhere; zero has 0 everywhere. */
  lemma {:induction false} PowerByte(i: nat, n: nat, k: nat)
    requires k < n
    ensures ToBytes(Pow256(i), n)[k] == (if k == i then 1 else 0) && ToBytes(0, n)[k] == 0
  {
    if i == 0 {
      assert Pow256(0) == 1;
      if k > 0 { PowerByte(0, n - 1, k - 1); ZeroByte(n - 1, k - 1); }
    } else {
      assert Pow256(i) % 256 == 0 && Pow256(i) / 256 == Pow256(i - 1);
      if k > 0 { PowerByte(i - 1, n - 1, k - 1); }
    }
    ZeroByte(n, k);
  }

  lemma {:induction false} ZeroByte(n: nat, k: nat)
    requires k < n
    ensures ToBytes(0, n)[k] == 0
  {
    if k > 0 { ZeroByte(n - 1, k - 1); }
  }

  lemma ToldApart(x: Source, y: Source)
    requires Sourced(x) && Sourced(y)
    ensures Drawn(x, Telling(x, y)) == Drawn(y, Telling(x, y)) ==> x == y
  {
    hide ToBytes, Pow256;
    if x.OfSym? {
      PowerByte(x.i, x.s.size, x.i);
      ZeroByte(x.s.size, x.i);
    }
    if y.OfSym? {
      ZeroByte(y.s.size, y.i);
      PowerByte(y.i, y.s.size, y.i);
      if x.OfSym? { PowerByte(x.i, y.s.size, y.i); }
    }
  }

  /** The solver's reading of a part list is its meaning. */
  predicate ReadRight(es: seq<Expr>, asg: Assignment)
    requires AllWF(es)
  {
    Z3Concat(es, asg) == EvalParts(es, asg)
  }

  lemma LeavesWF(es: seq<Expr>)
    requires Leaves(es)
    ensures AllWF(es) && Leaves(Reverse(es))
  {}

  lemma ReadRightDrawn(es: seq<Expr>, asg: Assignment)
    requires Leaves(es)
    ensures AllWF(es) && Leaves(Reverse(es))
    ensures ReadRight(es, asg) <==> DrawnAll(Layout(Reverse(es)), asg) == DrawnAll(Layout(es), asg)
  {
    hide Eval, Z3Value, LeafLayout, Drawn, Layout, EvalParts, Z3Concat, DrawnAll;
    Z3Drawn(es, asg);
    LayoutDrawn(es, asg);
    LayoutDrawn(Reverse(es), asg);
  }

  /** The solver reads such a part list right under every assignment if and only if the list, byte by byte, names the
      same sources from either end. */
  lemma Z3ReadsParts(es: seq<Expr>)
    requires Leaves(es)
    ensures AllWF(es) && Leaves(Reverse(es))
    ensures (forall asg: Assignment :: ReadRight(es, asg)) <==> Layout(Reverse(es)) == Layout(es)
  {
    hide Leaf, Drawn, Layout, ReadRight, Telling;
    LeavesWF(es);
    var xs, ys := Layout(es), Layout(Reverse(es));
    forall asg: Assignment
      ensures ReadRight(es, asg) <==> DrawnAll(ys, asg) == DrawnAll(xs, asg)
    {
      ReadRightDrawn(es, asg);
    }
    if forall asg: Assignment :: ReadRight(es, asg) {
      var any: Assignment := (o: Sym) => 0;
      assert ReadRight(es, any);
      assert |DrawnAll(xs, any)| == |DrawnAll(ys, any)|;
      forall k | 0 <= k < |xs| ensures xs[k] == ys[k] {
        var asg := Telling(xs[k], ys[k]);
        ToldApart(xs[k], ys[k]);
        assert ReadRight(es, asg);
        assert DrawnAll(xs, asg)[k] == DrawnAll(ys, asg)[k];
      }
    }
  }

  /** A one-byte object under a concrete byte: the solver gets them the other way round. */
  lemma Z3ReadsExample(obj: Sym, b: byte)
    requires obj.size == 1
    ensures var es := [UDef(obj), Const(b, 1)];
            Leaves(es) && AllWF(es) && exists asg: Assignment :: !ReadRight(es, asg)
  {
    var es := [UDef(obj), Const(b, 1)];
    assert Leaves(es);
    Z3ReadsParts(es);
    assert Reverse(es) == [Const(b, 1), UDef(obj)];
    assert es[1..] == [Const(b, 1)] && Reverse(es)[1..] == [UDef(obj)];
    assert Layout(es)[0] == OfSym(obj, 0);
    assert Layout(Reverse(es))[0] == Fixed(ToBytes(b, 1)[0]);
  }

  // ---- expressions that are read right ----

  /** The solver reads an expression as it means. */
  predicate ReadsRight(e: Expr, asg: Assignment)
    requires WF(e)
  {
    Z3Value(e, asg) == Eval(e, asg)
  }

  /** Every part list, at any depth, is of leaves and names the same byte sources from either end. An expression without
      part lists is mirrored. */
  predicate Mirrored(e: Expr)
    requires WF(e)
  {
    match e
    case Bin(_, R, L) => Mirrored(R) && Mirrored(L)
    case Ury(_, E) => Mirrored(E)
    case Extract(E, _, _) => Mirrored(E)
    case CombineMulti(es, _, _, _) => Leaves(es) && (LeavesWF(es); Layout(Reverse(es)) == Layout(es))
    case _ => true
  }

  predicate HasParts(e: Expr) {
    match e
    case Bin(_, R, L) => HasParts(R) || HasParts(L)
    case Ury(_, E) => HasParts(E)
    case Extract(E, _, _) => HasParts(E)
    case CombineMulti(_, _, _, _) => true
    case _ => false
  }

  lemma {:induction false} PartlessMirrored(e: Expr)
    requires WF(e) && !HasParts(e)
    ensures Mirrored(e)
  {
    match e
    case Bin(_, R, L) =>
      PartlessMirrored(R);
      PartlessMirrored(L);
    case Ury(_, E) => PartlessMirrored(E);
    case Extract(E, _, _) => PartlessMirrored(E);
    case _ =>
  }

  /** The solver reads a mirrored expression right under every assignment. */
  lemma {:induction false} MirroredReads(e: Expr, asg: Assignment)
    requires WF(e) && Mirrored(e)
    ensures ReadsRight(e, asg)
  {
    hide Alu, AluUry, Layout, Leaf, ToBytes, Z3Concat, EvalParts;
    match e
    case Bin(_, R, L) => {
      MirroredReads(R, asg);
      MirroredReads(L, asg);
    }
    case Ury(_, E) => MirroredReads(E, asg);
    case Extract(E, _, _) => MirroredReads(E, asg);
    case CombineMulti(es, _, _, _) => {
      LeavesWF(es);
      Z3ReadsParts(es);
      assert ReadRight(es, asg);
    }
    case _ => {}
  }
}
