/** When a branch on an operand made of parts is decided rightly (EFlagsManager.cpp:837-982, Z3Handler.cpp:811-834). */
module Misreads {
  import opened Bytes
  import opened Exprs
  import opened Z3Handler
  import opened Branch

  // ---- bytes ----

  lemma ZeroWordOf(x: bv8)
    ensures x as int == 0 <==> x == 0
  {}

  function Word(a: byte): bv8 { a as bv8 }

  lemma SameWord(a: byte, b: byte)
    ensures Word(a) == Word(b) <==> a == b
  {
    ByteAsWord(a);
    ByteAsWord(b);
    assert Word(a) == Word(b) ==> Word(a) as int == Word(b) as int;
  }

  lemma XorSelf(x: bv8, y: bv8)
    ensures x ^ y == 0 <==> x == y
  {}

  lemma OrBoth(x: bv8, y: bv8)
    ensures x | y == 0 <==> x == 0 && y == 0
  {}

  lemma XorIs(a: byte, b: byte)
    ensures XorByte(a, b) == 0 <==> Word(a) ^ Word(b) == 0
  {
    ZeroWordOf(Word(a) ^ Word(b));
  }

  lemma OrIs(a: byte, b: byte)
    ensures OrByte(a, b) == 0 <==> Word(a) | Word(b) == 0
  {
    ZeroWordOf(Word(a) | Word(b));
  }

  lemma AndIs(a: byte, b: byte)
    ensures AndByte(a, b) == 0 <==> Word(a) & Word(b) == 0
  {
    ZeroWordOf(Word(a) & Word(b));
  }

  lemma XorZero(a: byte, b: byte)
    ensures XorByte(a, b) == 0 <==> a == b
  {
    hide *;
    XorIs(a, b);
    XorSelf(Word(a), Word(b));
    SameWord(a, b);
  }

  lemma OrZero(a: byte, b: byte)
    ensures OrByte(a, b) == 0 <==> a == 0 && b == 0
  {
    hide *;
    OrIs(a, b);
    OrBoth(Word(a), Word(b));
    SameWord(a, 0);
    SameWord(b, 0);
    ZeroWord();
  }

  lemma ZeroWord()
    ensures Word(0) == 0
  {}

  /** The bits of one word that the other does not have. */
  function Apart(x: bv8, y: bv8): bv8 { if x & !y != 0 then x & !y else y & !x }

  lemma ApartTells(x: bv8, y: bv8)
    requires x != y
    ensures (x & Apart(x, y) == 0) != (y & Apart(x, y) == 0)
  {}

  /** A mask under which exactly one of two different bytes is zero. */
  function TellingMask(a: byte, b: byte): byte { Apart(Word(a), Word(b)) as byte }

  lemma MaskAsWord(a: byte, b: byte)
    ensures Word(TellingMask(a, b)) == Apart(Word(a), Word(b))
  {
    hide Apart;
    RoundWord(Apart(Word(a), Word(b)));
  }

  lemma AndTells(a: byte, b: byte)
    requires a != b
    ensures (AndByte(a, TellingMask(a, b)) == 0) != (AndByte(b, TellingMask(a, b)) == 0)
  {
    hide *;
    SameWord(a, b);
    ApartTells(Word(a), Word(b));
    MaskAsWord(a, b);
    AndIs(a, TellingMask(a, b));
    AndIs(b, TellingMask(a, b));
  }

  lemma AndNothing(a: byte)
    ensures AndByte(a, 0) == 0
  {
    assert Word(a) & 0 == 0;
  }

  // ---- words that tell two values apart ----

  /** The condition after op on a and k. */
  predicate DecidesAfter(cc: CC, op: FlagOp, a: seq<byte>, k: seq<byte>)
    requires |a| == |k|
  {
    Decides(cc, Num(a), Num(k), |a|, Num(Alu(AluOp(op), a, k)))
  }

  lemma NumTells(x: seq<byte>, y: seq<byte>)
    requires |x| == |y| && x != y
    ensures Num(x) != Num(y)
  {
    ToBytesOfNum(x);
    ToBytesOfNum(y);
  }

  /** What a code says of two words after their difference. */
  predicate Compares(cc: CC, a: nat, b: nat, n: nat) {
    if cc == E then a == b else if cc == NE then a != b else Decides(cc, a, b, n, 0)
  }

  lemma AfterDifference(cc: CC, op: FlagOp, a: seq<byte>, k: seq<byte>)
    requires |a| == |k| && (op == FCmp || op == FSub)
    ensures DecidesAfter(cc, op, a, k) <==> Compares(cc, Num(a), Num(k), |a|)
  {
    hide Alu, Num, Signed, Pow256;
    SubWord(a, k);
  }

  /** Of two different words, compared with one of them, the code holds for one only. */
  predicate First(cc: CC, a: nat, b: nat, n: nat) {
    match cc
    case AE => a >= b
    case B => a >= b
    case A => a < b
    case BE => a < b
    case GE => Signed(a, n) >= Signed(b, n)
    case L => Signed(a, n) >= Signed(b, n)
    case G => Signed(a, n) < Signed(b, n)
    case LE => Signed(a, n) < Signed(b, n)
    case E => true
    case NE => true
  }

  lemma FirstTells(cc: CC, a: nat, b: nat, n: nat)
    requires a != b && a < Pow256(n) && b < Pow256(n)
    ensures var k := if First(cc, a, b, n) then a else b; Compares(cc, a, k, n) != Compares(cc, b, k, n)
  {
    assert Signed(a, n) != Signed(b, n);
    hide Signed, Pow256;
  }

  /** After cmp and sub one of the two words itself tells them apart, for every code. */
  lemma CompareTells(cc: CC, op: FlagOp, x: seq<byte>, y: seq<byte>) returns (k: seq<byte>)
    requires |x| == |y| >= 1 && x != y && (op == FCmp || op == FSub)
    ensures |k| == |x| && DecidesAfter(cc, op, x, k) != DecidesAfter(cc, op, y, k)
  {
    hide *;
    k := if First(cc, Num(x), Num(y), |x|) then x else y;
    NumTells(x, y);
    FirstTells(cc, Num(x), Num(y), |x|);
    AfterDifference(cc, op, x, k);
    AfterDifference(cc, op, y, k);
  }

  lemma AddNum(x: seq<byte>, c: nat)
    requires c < Pow256(|x|)
    ensures var p := Pow256(|x|);
            Num(Alu(Add, x, ToBytes(c, |x|))) == if Num(x) + c < p then Num(x) + c else Num(x) + c - p
  {
    hide *;
    NumOfToBytes(c, |x|);
    AddIs(x, ToBytes(c, |x|));
    WordOf(Num(x) + c, |x|);
  }

  lemma AddIs(x: seq<byte>, k: seq<byte>)
    requires |x| == |k|
    ensures Alu(Add, x, k) == ToBytes(Num(x) + Num(k), |x|)
  {}

  /** After add the negated word does, for equality. */
  lemma AddTells(x: seq<byte>, y: seq<byte>) returns (k: seq<byte>)
    requires |x| == |y| && x != y
    ensures |k| == |x| && Num(Alu(Add, x, k)) == 0 && Num(Alu(Add, y, k)) != 0
  {
    hide *;
    var c := if Num(x) == 0 then 0 else Pow256(|x|) - Num(x);
    k := ToBytes(c, |x|);
    NumTells(x, y);
    AddNum(x, c);
    AddNum(y, c);
  }

  lemma XorTells(x: seq<byte>, y: seq<byte>)
    requires |x| == |y| && x != y
    ensures Num(Alu(Xor, x, x)) == 0 && Num(Alu(Xor, y, x)) != 0
  {
    hide XorByte, Num;
    NumZero(Alu(Xor, x, x));
    NumZero(Alu(Xor, y, x));
    forall i | 0 <= i < |x| ensures XorByte(x[i], x[i]) == 0 && (XorByte(y[i], x[i]) == 0 <==> y[i] == x[i]) {
      XorZero(x[i], x[i]);
      XorZero(y[i], x[i]);
    }
    var i :| 0 <= i < |x| && x[i] != y[i];
    assert Alu(Xor, y, x)[i] == XorByte(y[i], x[i]);
  }

  lemma AndTellsWords(x: seq<byte>, y: seq<byte>) returns (k: seq<byte>)
    requires |x| == |y| && x != y
    ensures |k| == |x| && (Num(Alu(And, x, k)) == 0) != (Num(Alu(And, y, k)) == 0)
  {
    hide AndByte, Num, TellingMask;
    var j :| 0 <= j < |x| && x[j] != y[j];
    var m := TellingMask(x[j], y[j]);
    k := seq<byte>(|x|, i requires 0 <= i < |x| => if i == j then m else 0);
    AndTells(x[j], y[j]);
    forall i | 0 <= i < |x| && i != j ensures AndByte(x[i], k[i]) == 0 && AndByte(y[i], k[i]) == 0 {
      AndNothing(x[i]);
      AndNothing(y[i]);
    }
    NumZero(Alu(And, x, k));
    NumZero(Alu(And, y, k));
    assert Alu(And, x, k)[j] == AndByte(x[j], m) && Alu(And, y, k)[j] == AndByte(y[j], m);
  }

  /** After or, which words give zero only depends on whether they are zero. */
  lemma OrKeeps(x: seq<byte>, k: seq<byte>)
    requires |x| == |k|
    ensures Num(Alu(Or, x, k)) == 0 <==> AllZero(x) && AllZero(k)
  {
    hide OrByte, Num;
    NumZero(Alu(Or, x, k));
    forall i | 0 <= i < |x| ensures Alu(Or, x, k)[i] == 0 <==> x[i] == 0 && k[i] == 0 {
      OrZero(x[i], k[i]);
    }
  }

  /** Some word tells two values apart after every instruction but or. */
  lemma Tells(cc: CC, op: FlagOp, x: seq<byte>, y: seq<byte>) returns (k: seq<byte>)
    requires |x| == |y| >= 1 && x != y && op != FOr && (op == FCmp || op == FSub || cc == E || cc == NE)
    ensures |k| == |x| && DecidesAfter(cc, op, x, k) != DecidesAfter(cc, op, y, k)
  {
    hide Alu, Num;
    match op {
      case FCmp => k := CompareTells(cc, op, x, y);
      case FSub => k := CompareTells(cc, op, x, y);
      case FAdd => k := AddTells(x, y);
      case FXor =>
        XorTells(x, y);
        k := x;
      case _ => k := AndTellsWords(x, y);
    }
  }

  // ---- the branch ----

  /** After op on an expression and a constant, the solver decides as the flags do. */
  ghost predicate DecidedRight(op: FlagOp, cc: CC, r: Expr, c: nat, asg: Assignment)
    requires WF(r) && Width(r) >= 1
  {
    var k := Const(c, Width(r));
    ConditionSays(cc, AluOp(op), r, k, asg);
    Holds(Condition(cc, Bin(AluOp(op), r, k)), asg) <==> Rule(cc, FlagsOf(op, Eval(r, asg), Eval(k, asg)))
  }

  lemma DecidedIs(op: FlagOp, cc: CC, r: Expr, c: nat, asg: Assignment)
    requires WF(r) && Width(r) >= 1 && (op == FCmp || op == FSub || cc == E || cc == NE)
    ensures var k := ToBytes(c, Width(r));
            |Z3Value(r, asg)| == |Eval(r, asg)| == |k|
            && (DecidedRight(op, cc, r, c, asg)
                <==> DecidesAfter(cc, op, Z3Value(r, asg), k) == DecidesAfter(cc, op, Eval(r, asg), k))
  {
    var e, k := Const(c, Width(r)), ToBytes(c, Width(r));
    ConditionSays(cc, AluOp(op), r, e, asg);
    FaithfulWhen(cc, op, Eval(r, asg), k);
    FaithfulIs(cc, op, Eval(r, asg), k);
    assert Eval(e, asg) == Z3Value(e, asg) == k;
    hide Condition, Holds, Rule, FlagsOf, Decides, Alu, Num, Eval, Z3Value, ToBytes, WF, Width, Faithful;
  }

  lemma {:induction false} ZeroEitherWay(es: seq<Expr>, asg: Assignment)
    requires Leaves(es)
    ensures AllWF(es) && (AllZero(Z3Concat(es, asg)) <==> AllZero(EvalParts(es, asg)))
  {
    hide Eval, Z3Value;
    if es != [] {
      LeafDrawn(es[0], asg);
      ZeroEitherWay(es[1..], asg);
      ZeroJoin(Z3Concat(es[1..], asg), Z3Value(es[0], asg));
      ZeroJoin(Eval(es[0], asg), EvalParts(es[1..], asg));
    }
  }

  lemma ZeroJoin(a: seq<byte>, b: seq<byte>)
    ensures AllZero(a + b) <==> AllZero(a) && AllZero(b)
  {
    if AllZero(a + b) {
      forall i | 0 <= i < |a| ensures a[i] == 0 { assert (a + b)[i] == 0; }
      forall i | 0 <= i < |b| ensures b[i] == 0 { assert (a + b)[|a| + i] == 0; }
    }
  }

  /** An operand of parts that are objects, constants and extracts of them, after an instruction and with a code whose
      condition follows the flags: the solver decides the branch as the flags do for every constant second operand and
      under every assignment if and only if the part list names the same byte sources from either end, or the
      instruction is or, after which only zero counts. */
  lemma BranchExact(op: FlagOp, cc: CC, r: Expr)
    requires WF(r) && r.CombineMulti? && Leaves(r.exprs) && (op == FCmp || op == FSub || cc == E || cc == NE)
    ensures Width(r) >= 1
    ensures (forall c: nat, asg: Assignment :: DecidedRight(op, cc, r, c, asg)) <==> op == FOr || Mirrored(r)
  {
    assert Width(r) >= 1;
    if op == FOr {
      forall c: nat, asg: Assignment ensures DecidedRight(op, cc, r, c, asg) { OrDecided(cc, r, c, asg); }
    } else if Mirrored(r) {
      forall c: nat, asg: Assignment ensures DecidedRight(op, cc, r, c, asg) {
        MirroredReads(r, asg);
        DecidedIs(op, cc, r, c, asg);
      }
    } else {
      NotMirrored(op, cc, r);
    }
  }

  lemma OrDecided(cc: CC, r: Expr, c: nat, asg: Assignment)
    requires WF(r) && r.CombineMulti? && Leaves(r.exprs) && (cc == E || cc == NE) && Width(r) >= 1
    ensures DecidedRight(FOr, cc, r, c, asg)
  {
    var k := ToBytes(c, Width(r));
    DecidedIs(FOr, cc, r, c, asg);
    ZeroEitherWay(r.exprs, asg);
    assert Z3Value(r, asg) == Z3Concat(r.exprs, asg) && Eval(r, asg) == EvalParts(r.exprs, asg);
    OrKeeps(Z3Value(r, asg), k);
    OrKeeps(Eval(r, asg), k);
    hide Alu, Num, Eval, Z3Value, AllZero, DecidedRight;
  }

  lemma NotMirrored(op: FlagOp, cc: CC, r: Expr)
    requires WF(r) && r.CombineMulti? && Leaves(r.exprs) && !Mirrored(r) && Width(r) >= 1
    requires op != FOr && (op == FCmp || op == FSub || cc == E || cc == NE)
    ensures exists c: nat, asg: Assignment :: !DecidedRight(op, cc, r, c, asg)
  {
    LeavesWF(r.exprs);
    Z3ReadsParts(r.exprs);
    var asg: Assignment :| !ReadRight(r.exprs, asg);
    assert Z3Value(r, asg) == Z3Concat(r.exprs, asg) && Eval(r, asg) == EvalParts(r.exprs, asg);
    hide DecidedRight, DecidesAfter, Eval, Z3Value;
    var k := Tells(cc, op, Z3Value(r, asg), Eval(r, asg));
    ToBytesOfNum(k);
    DecidedIs(op, cc, r, Num(k), asg);
    assert !DecidedRight(op, cc, r, Num(k), asg);
  }
}
