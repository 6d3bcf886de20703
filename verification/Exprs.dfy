/** Expression trees (Expr.h) and the byte sequence each one stands for (Z3Handler.cpp). */
module Exprs {
  import opened Bytes

  /** A user-declared symbolic object: its identity and its size in bytes. */
  datatype Sym = Sym(id: nat, size: nat)

  /** A value for every symbolic object. */
  type Assignment = Sym -> nat

  datatype BinOp = Add | Sub | Mul | And | Or | Xor

  datatype UryOp = Neg | Not

  datatype OrderOp = Ult | Ule | Ugt | Uge | Slt | Sle | Sgt | Sge

  /** Null is an empty shared pointer; it is the expression of the list sentinels. */
  datatype Expr =
    | Null
    | UDef(obj: Sym)
    | Const(value: nat, size: nat)
    | Bin(op: BinOp, R: Expr, L: Expr)
    | Ury(uop: UryOp, E: Expr)
    | Extract(E: Expr, s: nat, e: nat)
    | CombineMulti(exprs: seq<Expr>, offsets: seq<int>, sizes: seq<int>, size: nat)
    | Equal(E: Expr)
    | Distinct(E: Expr)
    | Order(ord: OrderOp, R: Expr, L: Expr)
    | LNot(E: Expr)

  /** Width in bytes. It is taken from the structure, not from the size a node was built with. */
  function Width(e: Expr): nat {
    match e
    case UDef(obj) => obj.size
    case Const(_, size) => size
    case Bin(_, R, _) => Width(R)
    case Ury(_, E) => Width(E)
    case Extract(_, s, t) => if s <= t then t - s else 0
    case CombineMulti(_, _, _, size) => size
    case _ => 0
  }

  function TotalWidth(es: seq<Expr>): nat {
    if es == [] then 0 else Width(es[0]) + TotalWidth(es[1..])
  }

  /** A bit-vector expression whose operand widths fit together and whose parts tile it. */
  predicate WF(e: Expr) {
    match e
    case Null => false
    case UDef(obj) => obj.size >= 1
    case Const(_, size) => size >= 1
    case Bin(_, R, L) => WF(R) && WF(L) && Width(R) == Width(L)
    case Ury(_, E) => WF(E)
    case Extract(E, s, t) => WF(E) && s < t <= Width(E)
    case CombineMulti(es, os, ss, size) =>
      && |es| == |os| == |ss|
      && size >= 1
      && TotalWidth(es) == size
      && (forall i :: 0 <= i < |es| ==> WF(es[i]))
      && (forall i :: 0 <= i < |es| ==> ss[i] == Width(es[i]) && os[i] == TotalWidth(es[..i]))
    case _ => false
  }

  function AndByte(x: byte, y: byte): byte { ((x as bv8) & (y as bv8)) as byte }
  function OrByte(x: byte, y: byte): byte { ((x as bv8) | (y as bv8)) as byte }
  function XorByte(x: byte, y: byte): byte { ((x as bv8) ^ (y as bv8)) as byte }

  function ByteLogic(op: BinOp, x: byte, y: byte): byte
    requires op == And || op == Or || op == Xor
  {
    if op == And then AndByte(x, y) else if op == Or then OrByte(x, y) else XorByte(x, y)
  }

  /** A logical operation, byte by byte. */
  function Logic(op: BinOp, a: seq<byte>, b: seq<byte>): (r: seq<byte>)
    requires |a| == |b| && (op == And || op == Or || op == Xor)
    ensures |r| == |a|
  {
    seq<byte>(|a|, i requires 0 <= i < |a| => ByteLogic(op, a[i], b[i]))
  }

  /** Two's complement arithmetic and logic on words of equal length. */
  function Alu(op: BinOp, a: seq<byte>, b: seq<byte>): (r: seq<byte>)
    requires |a| == |b|
    ensures |r| == |a|
  {
    match op
    case Add => ToBytes(Num(a) + Num(b), |a|)
    case Sub => ToBytes(Num(a) + Pow256(|a|) - Num(b), |a|)
    case Mul => ToBytes(Num(a) * Num(b), |a|)
    case _ => Logic(op, a, b)
  }

  function AluUry(op: UryOp, a: seq<byte>): (r: seq<byte>)
    ensures |r| == |a|
  {
    match op
    case Neg => ToBytes(Pow256(|a|) - Num(a), |a|)
    case Not => seq(|a|, i requires 0 <= i < |a| => 255 - a[i])
  }

  /** The bytes of a bit-vector expression under an assignment, lowest byte first. */
  function Eval(e: Expr, asg: Assignment): (bs: seq<byte>)
    requires WF(e)
    ensures |bs| == Width(e)
    decreases e, 1
  {
    match e
    case UDef(obj) => ToBytes(asg(obj), obj.size)
    case Const(v, size) => ToBytes(v, size)
    case Bin(op, R, L) => Alu(op, Eval(R, asg), Eval(L, asg))
    case Ury(op, E) => AluUry(op, Eval(E, asg))
    case Extract(E, s, t) => Eval(E, asg)[s..t]
    case CombineMulti(es, _, _, _) => EvalParts(es, asg)
  }

  /** Parts side by side, the first one lowest. */
  function EvalParts(es: seq<Expr>, asg: Assignment): (bs: seq<byte>)
    requires forall i :: 0 <= i < |es| ==> WF(es[i])
    ensures |bs| == TotalWidth(es)
    decreases es, 0
  {
    if es == [] then [] else Eval(es[0], asg) + EvalParts(es[1..], asg)
  }
}
