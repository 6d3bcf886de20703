/** Results, flags and orders of words, by their numbers, bits and top bits (SDM Volume 1, sections 3.4.3.1 and 4.2).
    The definitions that the processor's and the executor's steps share are held against these. */
module Arithmetic {
  import opened Bytes
  import opened Exprs
  import opened Z3Handler
  import opened Branch

  // ---- top bits and single bits ----

  /** The sign bit. */
  predicate Top(x: seq<byte>)
    requires |x| >= 1
  {
    x[|x| - 1] >= 128
  }

  lemma {:induction false} NumTop(x: seq<byte>)
    requires |x| >= 1
    ensures Top(x) <==> Num(x) >= Half(|x|)
  {
    if |x| == 1 {
      assert Num(x[1..]) == 0;
    } else {
      NumTop(x[1..]);
      Even(|x| - 1);
      Even(|x|);
    }
  }

  lemma NumSigned(x: seq<byte>)
    requires |x| >= 1
    ensures Signed(Num(x), |x|) == if Top(x) then Num(x) - Pow256(|x|) else Num(x)
  {
    NumTop(x);
  }

  /** Bit j of a byte. */
  predicate BitSet(b: byte, j: bv8)
    requires j < 8
  {
    ((b as bv8) >> j) & 1 == 1
  }

  lemma WordBits(x: bv8, y: bv8, j: bv8)
    requires j < 8
    ensures ((x & y) >> j) & 1 == 1 <==> (x >> j) & 1 == 1 && (y >> j) & 1 == 1
    ensures ((x | y) >> j) & 1 == 1 <==> (x >> j) & 1 == 1 || (y >> j) & 1 == 1
    ensures ((x ^ y) >> j) & 1 == 1 <==> ((x >> j) & 1 == 1) != ((y >> j) & 1 == 1)
  {}

  lemma AndBit(x: byte, y: byte, j: bv8)
    requires j < 8
    ensures BitSet(AndByte(x, y), j) <==> BitSet(x, j) && BitSet(y, j)
  {
    RoundWord((x as bv8) & (y as bv8));
    WordBits(x as bv8, y as bv8, j);
  }

  lemma OrBit(x: byte, y: byte, j: bv8)
    requires j < 8
    ensures BitSet(OrByte(x, y), j) <==> BitSet(x, j) || BitSet(y, j)
  {
    RoundWord((x as bv8) | (y as bv8));
    WordBits(x as bv8, y as bv8, j);
  }

  lemma XorBit(x: byte, y: byte, j: bv8)
    requires j < 8
    ensures BitSet(XorByte(x, y), j) <==> BitSet(x, j) != BitSet(y, j)
  {
    RoundWord((x as bv8) ^ (y as bv8));
    WordBits(x as bv8, y as bv8, j);
  }

  // ---- results ----

  /** Each bit of r is what op makes of the bits of a and b. */
  ghost predicate BitByBit(op: BinOp, a: seq<byte>, b: seq<byte>, r: seq<byte>)
    requires |a| == |b| == |r| && (op == And || op == Or || op == Xor)
  {
    forall k, j {:trigger BitSet(r[k], j)} :: 0 <= k < |r| && 0 <= j < 8 ==>
      (BitSet(r[k], j) <==>
       match op
       case And => BitSet(a[k], j) && BitSet(b[k], j)
       case Or => BitSet(a[k], j) || BitSet(b[k], j)
       case Xor => BitSet(a[k], j) != BitSet(b[k], j))
  }

  /** r is the sum, difference, product or bitwise combination of a and b, as far as it fits the word. */
  ghost predicate Results(op: BinOp, a: seq<byte>, b: seq<byte>, r: seq<byte>)
    requires |a| == |b|
  {
    var p := Pow256(|a|);
    && |r| == |a|
    && match op
       case Add => Num(r) == Num(a) + Num(b) || Num(r) == Num(a) + Num(b) - p
       case Sub => Num(r) == Num(a) - Num(b) || Num(r) == Num(a) - Num(b) + p
       case Mul => exists q: nat {:trigger q * p} :: Num(a) * Num(b) == Num(r) + q * p
       case _ => BitByBit(op, a, b, r)
  }

  lemma LogicResults(op: BinOp, a: seq<byte>, b: seq<byte>)
    requires |a| == |b| && (op == And || op == Or || op == Xor)
    ensures BitByBit(op, a, b, Logic(op, a, b))
  {
    hide AndByte, OrByte, XorByte, BitSet;
    forall k, j | 0 <= k < |a| && 0 <= j < 8
      ensures BitSet(AndByte(a[k], b[k]), j) <==> BitSet(a[k], j) && BitSet(b[k], j)
      ensures BitSet(OrByte(a[k], b[k]), j) <==> BitSet(a[k], j) || BitSet(b[k], j)
      ensures BitSet(XorByte(a[k], b[k]), j) <==> BitSet(a[k], j) != BitSet(b[k], j)
    {
      AndBit(a[k], b[k], j);
      OrBit(a[k], b[k], j);
      XorBit(a[k], b[k], j);
    }
  }

  /** The low n bytes of a number leave a multiple of 256^n. */
  lemma {:induction false} LowBytes(v: nat, n: nat) returns (q: nat)
    ensures v == Num(ToBytes(v, n)) + q * Pow256(n)
  {
    if n == 0 {
      q := v;
    } else {
      q := LowBytes(v / 256, n - 1);
      var p := Pow256(n - 1);
      assert 256 * (q * p) == q * (256 * p);
    }
  }

  /** The arithmetic of expressions and of the plain machine is that of words. */
  lemma AluResults(op: BinOp, a: seq<byte>, b: seq<byte>)
    requires |a| == |b|
    ensures Results(op, a, b, Alu(op, a, b))
  {
    hide Num, Pow256, ToBytes, Logic, BitByBit;
    match op
    case Add => WordOf(Num(a) + Num(b), |a|);
    case Sub => SubWord(a, b);
    case Mul => var q := LowBytes(Num(a) * Num(b), |a|);
    case _ => LogicResults(op, a, b);
  }

  /** r is what the instruction makes of a and b, stored or not. */
  ghost predicate OpResults(op: FlagOp, a: seq<byte>, b: seq<byte>, r: seq<byte>)
    requires |a| == |b|
    ensures OpResults(op, a, b, r) ==> |r| == |a|
  {
    match op
    case FAdd => Results(Add, a, b, r)
    case FSub => Results(Sub, a, b, r)
    case FCmp => Results(Sub, a, b, r)
    case FAnd => Results(And, a, b, r)
    case FTest => Results(And, a, b, r)
    case FOr => Results(Or, a, b, r)
    case FXor => Results(Xor, a, b, r)
  }

  lemma SameBits(x: bv8, y: bv8)
    requires (x >> 0) & 1 == 1 <==> (y >> 0) & 1 == 1
    requires (x >> 1) & 1 == 1 <==> (y >> 1) & 1 == 1
    requires (x >> 2) & 1 == 1 <==> (y >> 2) & 1 == 1
    requires (x >> 3) & 1 == 1 <==> (y >> 3) & 1 == 1
    requires (x >> 4) & 1 == 1 <==> (y >> 4) & 1 == 1
    requires (x >> 5) & 1 == 1 <==> (y >> 5) & 1 == 1
    requires (x >> 6) & 1 == 1 <==> (y >> 6) & 1 == 1
    requires (x >> 7) & 1 == 1 <==> (y >> 7) & 1 == 1
    ensures x == y
  {}

  /** A byte is known by its bits. */
  lemma ByteOfBits(x: byte, y: byte)
    requires forall j: bv8 {:trigger BitSet(x, j)} :: j < 8 ==> (BitSet(x, j) <==> BitSet(y, j))
    ensures x == y
  {
    assert BitSet(x, 0) <==> BitSet(y, 0);
    assert BitSet(x, 1) <==> BitSet(y, 1);
    assert BitSet(x, 2) <==> BitSet(y, 2);
    assert BitSet(x, 3) <==> BitSet(y, 3);
    assert BitSet(x, 4) <==> BitSet(y, 4);
    assert BitSet(x, 5) <==> BitSet(y, 5);
    assert BitSet(x, 6) <==> BitSet(y, 6);
    assert BitSet(x, 7) <==> BitSet(y, 7);
    SameBits(x as bv8, y as bv8);
    ByteAsWord(x);
    ByteAsWord(y);
  }

  lemma BitByBitUnique(op: BinOp, a: seq<byte>, b: seq<byte>, r: seq<byte>, r': seq<byte>)
    requires |a| == |b| == |r| == |r'| && (op == And || op == Or || op == Xor)
    requires BitByBit(op, a, b, r) && BitByBit(op, a, b, r')
    ensures r == r'
  {
    hide BitSet;
    forall k | 0 <= k < |r| ensures r[k] == r'[k] {
      assert forall j: bv8 {:trigger BitSet(r[k], j)} :: j < 8 ==> (BitSet(r[k], j) <==> BitSet(r'[k], j)) by {
        forall j: bv8 | j < 8 ensures BitSet(r[k], j) <==> BitSet(r'[k], j) {}
      }
      ByteOfBits(r[k], r'[k]);
    }
  }

  /** Only the arithmetic of the machines gives these results. */
  lemma OpResultsAre(op: FlagOp, a: seq<byte>, b: seq<byte>, r: seq<byte>)
    requires |a| == |b|
    ensures OpResults(op, a, b, r) <==> r == Alu(AluOp(op), a, b)
  {
    hide Num, Pow256, ToBytes, Alu, BitByBit;
    var r' := Alu(AluOp(op), a, b);
    AluResults(AluOp(op), a, b);
    if OpResults(op, a, b, r) {
      if op == FAdd || op == FSub || op == FCmp {
        ToBytesOfNum(r);
        ToBytesOfNum(r');
      } else {
        BitByBitUnique(AluOp(op), a, b, r, r');
      }
    }
  }

  /** Negation is the number that adds up to nothing, and not turns every bit. */
  lemma UryResults(a: seq<byte>)
    ensures Num(AluUry(Neg, a)) == if Num(a) == 0 then 0 else Pow256(|a|) - Num(a)
    ensures forall k :: 0 <= k < |a| ==> AluUry(Not, a)[k] + a[k] == 255
  {
    WordOf(Pow256(|a|) - Num(a), |a|);
    hide Num, Pow256, ToBytes;
  }

  /** The value widened keeps its sign. */
  lemma SignExtendMeans(bs: seq<byte>)
    requires 1 <= |bs| <= 8
    ensures SignExtend(bs)[..|bs|] == bs
    ensures forall k :: |bs| <= k < 8 ==> SignExtend(bs)[k] == if Top(bs) then 255 else 0
  {}

  // ---- flags ----

  /** The flags that the manual gives op on a and b with result r: carry out of or borrow into the top bit, zero, sign,
      and overflow where the sign is not that of the true result. */
  predicate FlagsSay(op: FlagOp, a: seq<byte>, b: seq<byte>, r: seq<byte>, f: Flags)
    requires |a| == |b| == |r| >= 1
  {
    && (f.zf <==> AllZero(r)) && (f.sf <==> Top(r))
    && match op
       case FAdd => (f.cf <==> Num(r) < Num(a)) && (f.of <==> Top(a) == Top(b) && Top(r) != Top(a))
       case FSub => (f.cf <==> Num(a) < Num(b)) && (f.of <==> Top(a) != Top(b) && Top(r) != Top(a))
       case FCmp => (f.cf <==> Num(a) < Num(b)) && (f.of <==> Top(a) != Top(b) && Top(r) != Top(a))
       case _ => !f.cf && !f.of
  }

  lemma FlagsMean(op: FlagOp, a: seq<byte>, b: seq<byte>)
    requires |a| == |b| >= 1
    ensures FlagsSay(op, a, b, Alu(AluOp(op), a, b), FlagsOf(op, a, b))
  {
    hide Num, Pow256, ToBytes, Logic, Top, AllZero, Half, Signed;
    var r := Alu(AluOp(op), a, b);
    NumZero(r);
    NumTop(a);
    NumTop(b);
    NumTop(r);
    NumSigned(a);
    NumSigned(b);
    Even(|a|);
    if op == FAdd { WordOf(Num(a) + Num(b), |a|); }
    if op == FSub || op == FCmp { SubWord(a, b); }
  }

  // ---- orders ----

  /** a is below b as a two's complement word. */
  predicate SignedBelow(a: seq<byte>, b: seq<byte>)
    requires |a| == |b| >= 1
  {
    (Top(a) && !Top(b)) || (Top(a) == Top(b) && Num(a) < Num(b))
  }

  lemma SignedBelowIs(a: seq<byte>, b: seq<byte>)
    requires |a| == |b| >= 1
    ensures SignedBelow(a, b) <==> Signed(Num(a), |a|) < Signed(Num(b), |b|)
    ensures Signed(Num(a), |a|) == Signed(Num(b), |b|) <==> a == b
  {
    NumTop(a);
    NumTop(b);
    Even(|a|);
    ToBytesOfNum(a);
    ToBytesOfNum(b);
    hide Num, Pow256, ToBytes, Top;
  }

  /** What a condition code says of two words after their difference. */
  predicate Says(cc: CC, a: seq<byte>, b: seq<byte>)
    requires |a| == |b| >= 1
  {
    match cc
    case AE => Num(b) <= Num(a)
    case A => Num(b) < Num(a)
    case BE => Num(a) <= Num(b)
    case B => Num(a) < Num(b)
    case GE => !SignedBelow(a, b)
    case G => SignedBelow(b, a)
    case LE => !SignedBelow(b, a)
    case L => SignedBelow(a, b)
    case E => a == b
    case NE => a != b
  }

  /** The solver's comparisons order the values it reads as unsigned and as two's complement words. */
  lemma OrderMeans(ord: OrderOp, r: Expr, l: Expr, asg: Assignment)
    requires WF(r) && WF(l) && Width(r) == Width(l) >= 1
    ensures WFFormula(Order(ord, r, l))
    ensures var a, b := Z3Value(r, asg), Z3Value(l, asg);
            Holds(Order(ord, r, l), asg) <==>
            match ord
            case Ult => Num(a) < Num(b)
            case Ule => Num(a) <= Num(b)
            case Ugt => Num(b) < Num(a)
            case Uge => Num(b) <= Num(a)
            case Slt => SignedBelow(a, b)
            case Sle => !SignedBelow(b, a)
            case Sgt => SignedBelow(b, a)
            case Sge => !SignedBelow(a, b)
  {
    hide Num, Z3Value, Signed, SignedBelow, WF, Width;
    var a, b := Z3Value(r, asg), Z3Value(l, asg);
    SignedBelowIs(a, b);
    SignedBelowIs(b, a);
  }

  /** After cmp and sub the flags take a branch when the operands are in the order the code names. */
  lemma RuleMeans(cc: CC, op: FlagOp, a: seq<byte>, b: seq<byte>)
    requires |a| == |b| >= 1 && (op == FCmp || op == FSub)
    ensures Rule(cc, FlagsOf(op, a, b)) <==> Says(cc, a, b)
  {
    hide Num, Pow256, Signed, SignedBelow, FlagsOf, Rule, Alu, Half;
    FaithfulWhen(cc, op, a, b);
    FaithfulIs(cc, op, a, b);
    DifferenceSays(cc, a, b);
  }

  lemma DifferenceSays(cc: CC, a: seq<byte>, b: seq<byte>)
    requires |a| == |b| >= 1
    ensures Decides(cc, Num(a), Num(b), |a|, Num(Alu(Sub, a, b))) <==> Says(cc, a, b)
  {
    hide Num, Pow256, Signed, SignedBelow, Alu;
    SubWord(a, b);
    SignedBelowIs(a, b);
    SignedBelowIs(b, a);
    ToBytesOfNum(a);
    ToBytesOfNum(b);
  }

  /** The condition of a branch after cmp or sub, as the solver reads the two operands: they are in the order the code
      names, signed codes as two's complement words. */
  lemma ConditionMeans(cc: CC, r: Expr, l: Expr, asg: Assignment)
    requires WF(r) && WF(l) && Width(r) == Width(l) >= 1
    ensures WFFormula(Condition(cc, Bin(Sub, r, l)))
    ensures Holds(Condition(cc, Bin(Sub, r, l)), asg) <==> Says(cc, Z3Value(r, asg), Z3Value(l, asg))
  {
    hide *;
    ConditionSays(cc, Sub, r, l, asg);
    DifferenceSays(cc, Z3Value(r, asg), Z3Value(l, asg));
  }

  /** The other codes compare the operands after any instruction. */
  lemma OrderSaid(cc: CC, op: BinOp, r: Expr, l: Expr, asg: Assignment)
    requires WF(r) && WF(l) && Width(r) == Width(l) >= 1
    ensures WFFormula(Condition(cc, Bin(op, r, l)))
    ensures cc != E && cc != NE ==>
              (Holds(Condition(cc, Bin(op, r, l)), asg) <==> Says(cc, Z3Value(r, asg), Z3Value(l, asg)))
  {
    hide Num, Z3Value, Says, Alu, WF, Width, Signed, Holds, Condition;
    ConditionSays(cc, op, r, l, asg);
    ConditionSays(cc, Sub, r, l, asg);
    DifferenceSays(cc, Z3Value(r, asg), Z3Value(l, asg));
  }

  /** The condition of je and jne after any instruction: its result is zero, or not. */
  lemma EqualMeans(op: BinOp, r: Expr, l: Expr, asg: Assignment)
    requires WF(r) && WF(l) && Width(r) == Width(l) >= 1
    ensures WFFormula(Condition(E, Bin(op, r, l))) && WFFormula(Condition(NE, Bin(op, r, l)))
    ensures var z := AllZero(Alu(op, Z3Value(r, asg), Z3Value(l, asg)));
            && (Holds(Condition(E, Bin(op, r, l)), asg) <==> z)
            && (Holds(Condition(NE, Bin(op, r, l)), asg) <==> !z)
  {
    hide Num, Z3Value, AllZero, Alu, WF, Width;
    ConditionSays(E, op, r, l, asg);
    ConditionSays(NE, op, r, l, asg);
    NumZero(Alu(op, Z3Value(r, asg), Z3Value(l, asg)));
  }
}
