/** Branch decisions (EFlagsManager.cpp:174-192, 362-590, 743-982; Expr.cpp:104-191; thinctrl.cpp:338-459, 656-695)
    against the flag rules of the Intel 64 and IA-32 SDM, Volume 1, section 3.4.3 and Appendix B. */
module Branch {
  import opened Bytes
  import opened Exprs
  import opened Z3Handler

  /** The condition codes that symbolic execution can decide. */
  datatype CC = AE | A | BE | B | GE | G | LE | L | E | NE

  /** The status flags a condition looks at. */
  datatype Flags = Flags(cf: bool, zf: bool, sf: bool, of: bool)

  /** The instructions whose result expression is saved for the next condition. */
  datatype FlagOp = FAdd | FSub | FCmp | FAnd | FTest | FOr | FXor

  // ---- flags of an operation, by the SDM ----

  function Half(n: nat): nat { Pow256(n) / 2 }

  /** The two's complement reading of an n-byte word. */
  function Signed(v: nat, n: nat): int { if v < Half(n) then v else v - Pow256(n) }

  /** The operation a flag-setting instruction computes. */
  function AluOp(op: FlagOp): BinOp {
    match op
    case FAdd => Add
    case FSub => Sub
    case FCmp => Sub
    case FAnd => And
    case FTest => And
    case FOr => Or
    case FXor => Xor
  }

  /** The status flags after op on words a and b. */
  function FlagsOf(op: FlagOp, a: seq<byte>, b: seq<byte>): Flags
    requires |a| == |b|
  {
    var n, r := |a|, Num(Alu(AluOp(op), a, b));
    var x, y := Signed(Num(a), n), Signed(Num(b), n);
    var cf := match op
      case FAdd => Num(a) + Num(b) >= Pow256(n)
      case FSub => Num(a) < Num(b)
      case FCmp => Num(a) < Num(b)
      case _ => false;
    var of := match op
      case FAdd => !(0 - Half(n) <= x + y < Half(n))
      case FSub => !(0 - Half(n) <= x - y < Half(n))
      case FCmp => !(0 - Half(n) <= x - y < Half(n))
      case _ => false;
    Flags(cf, r == 0, r >= Half(n), of)
  }

  /** The flag test of each condition code. */
  predicate Rule(cc: CC, f: Flags) {
    match cc
    case AE => !f.cf
    case A => !f.cf && !f.zf
    case BE => f.cf || f.zf
    case B => f.cf
    case GE => f.sf == f.of
    case G => !f.zf && f.sf == f.of
    case LE => f.zf || f.sf != f.of
    case L => f.sf != f.of
    case E => f.zf
    case NE => !f.zf
  }

  // ---- the concrete deciders ----

  /** DependencyFlagConcreted: the decision for a conditional instruction once its flags are concrete. */
  predicate DependencyFlagConcreted(cc: CC, f: Flags) {
    match cc
    case AE => !f.cf
    case A => !f.cf && !f.zf
    case BE => f.cf || f.zf
    case B => f.cf
    case GE => f.sf == f.of
    case G => !f.zf && f.sf == f.of
    case LE => f.zf && f.sf != f.of
    case L => f.sf != f.of
    case E => f.zf
    case NE => !f.zf
  }

  /** The decider follows the rule on all flags, for every code but LE; for LE exactly when the two tests of LE agree.
      */
  lemma DeciderFollowsRule(cc: CC, f: Flags)
    ensures DependencyFlagConcreted(cc, f) == Rule(cc, f) <==> (cc == LE ==> (f.zf <==> f.sf != f.of))
  {}

  /** Equal operands set ZF alone: jle is taken by the rule, and not by the decider. */
  lemma DeciderMissesLE()
    ensures var f := FlagsOf(FCmp, [1], [1]);
            Rule(LE, f) && !DependencyFlagConcreted(LE, f)
  {
    SubWord([1], [1]);
  }

  /** The status flags at their places in the EFLAGS register: bits 0, 6, 7 and 11. */
  function FlagsIn(eflags: bv64): Flags {
    Flags(eflags & 0x1 != 0, eflags & 0x40 != 0, eflags & 0x80 != 0, eflags & 0x800 != 0)
  }

  /** chkCondFail: true if the jump falls through. */
  predicate ChkCondFail(cc: CC, eflags: bv64) {
    var cf, zf := eflags & 0x1 != 0, (eflags >> 6) & 0x1 != 0;
    var sf, of := (eflags >> 7) & 0x1 != 0, (eflags >> 11) & 0x1 != 0;
    match cc
    case A => cf || zf
    case B => !cf
    case AE => cf
    case BE => !cf && !zf
    case E => !zf
    case NE => zf
    case G => zf || sf != of
    case GE => sf != of
    case L => !(sf != of)
    case LE => !(sf != of || zf)
  }

  /** On every eflags word chkCondFail says no exactly when the rule says yes. */
  lemma ChkCondFailFollowsRule(cc: CC, eflags: bv64)
    ensures ChkCondFail(cc, eflags) <==> !Rule(cc, FlagsIn(eflags))
  {
    assert ((eflags >> 6) & 0x1 != 0) == (eflags & 0x40 != 0);
    assert ((eflags >> 7) & 0x1 != 0) == (eflags & 0x80 != 0);
    assert ((eflags >> 11) & 0x1 != 0) == (eflags & 0x800 != 0);
  }

  // ---- the symbolic decider ----

  /** CreateExprByID for the conditions that GetCondition asks for, from the last result expression. Comparisons take
      its two operands. */
  function Condition(cc: CC, last: Expr): Expr
    requires last.Bin?
  {
    match cc
    case AE => Order(Uge, last.R, last.L)
    case A => Order(Ugt, last.R, last.L)
    case BE => Order(Ule, last.R, last.L)
    case B => Order(Ult, last.R, last.L)
    case GE => Order(Sge, last.R, last.L)
    case G => Order(Sgt, last.R, last.L)
    case LE => Order(Sle, last.R, last.L)
    case L => Order(Slt, last.R, last.L)
    case E => Equal(last)
    case NE => Exprs.Distinct(last)
  }

  /** A formula over bit-vector expressions. */
  predicate WFFormula(e: Expr) {
    match e
    case Equal(x) => WF(x)
    case Distinct(x) => WF(x)
    case Order(_, r, l) => WF(r) && WF(l) && Width(r) == Width(l)
    case LNot(x) => WFFormula(x)
    case _ => false
  }

  function Compare(ord: OrderOp, a: nat, b: nat, n: nat): bool {
    match ord
    case Ult => a < b
    case Ule => a <= b
    case Ugt => a > b
    case Uge => a >= b
    case Slt => Signed(a, n) < Signed(b, n)
    case Sle => Signed(a, n) <= Signed(b, n)
    case Sgt => Signed(a, n) > Signed(b, n)
    case Sge => Signed(a, n) >= Signed(b, n)
  }

  /** The truth of a formula under an assignment, as the solver decides it (Z3Handler.cpp:612-713). */
  predicate Holds(e: Expr, asg: Assignment)
    requires WFFormula(e)
  {
    match e
    case Equal(x) => Num(Z3Value(x, asg)) == 0
    case Distinct(x) => Num(Z3Value(x, asg)) != 0
    case Order(ord, r, l) => Compare(ord, Num(Z3Value(r, asg)), Num(Z3Value(l, asg)), Width(r))
    case LNot(x) => !Holds(x, asg)
  }

  lemma Even(n: nat)
    requires n >= 1
    ensures Pow256(n) == 2 * Half(n) && Half(n) >= 128
  {
    var p := Pow256(n - 1);
    assert Pow256(n) == 256 * p;
    hide Pow256;
    assert 256 * p / 2 == 128 * p;
  }

  /** The low n bytes of a number forget a multiple of 256^n. */
  lemma {:induction false} ToBytesWrap(v: nat, n: nat)
    ensures ToBytes(v + Pow256(n), n) == ToBytes(v, n)
  {
    if n > 0 {
      ToBytesWrap(v / 256, n - 1);
      assert (v + 256 * Pow256(n - 1)) / 256 == v / 256 + Pow256(n - 1);
      assert (v + 256 * Pow256(n - 1)) % 256 == v % 256;
    }
  }

  lemma WordOf(v: nat, n: nat)
    requires v < 2 * Pow256(n)
    ensures Num(ToBytes(v, n)) == if v < Pow256(n) then v else v - Pow256(n)
  {
    if v < Pow256(n) {
      NumOfToBytes(v, n);
    } else {
      ToBytesWrap(v - Pow256(n), n);
      NumOfToBytes(v - Pow256(n), n);
    }
  }

  lemma SubIs(a: seq<byte>, b: seq<byte>)
    requires |a| == |b|
    ensures Num(a) + Pow256(|a|) - Num(b) >= 0
    ensures Alu(Sub, a, b) == ToBytes(Num(a) + Pow256(|a|) - Num(b), |a|)
  {
    hide Num, Pow256, ToBytes, Logic;
  }

  lemma EvalBin(op: BinOp, r: Expr, l: Expr, asg: Assignment)
    requires WF(r) && WF(l) && Width(r) == Width(l)
    ensures WF(Bin(op, r, l)) && Width(Bin(op, r, l)) == Width(r)
    ensures Eval(Bin(op, r, l), asg) == Alu(op, Eval(r, asg), Eval(l, asg))
  {
    hide Alu;
  }

  lemma Z3Bin(op: BinOp, r: Expr, l: Expr, asg: Assignment)
    requires WF(r) && WF(l) && Width(r) == Width(l)
    ensures WF(Bin(op, r, l)) && Width(Bin(op, r, l)) == Width(r)
    ensures Z3Value(Bin(op, r, l), asg) == Alu(op, Z3Value(r, asg), Z3Value(l, asg))
  {
    hide Alu;
  }

  /** Subtraction of words, as numbers. */
  lemma SubWord(a: seq<byte>, b: seq<byte>)
    requires |a| == |b|
    ensures Num(Alu(Sub, a, b)) == if Num(a) >= Num(b) then Num(a) - Num(b) else Num(a) + Pow256(|a|) - Num(b)
  {
    hide *;
    SubIs(a, b);
    WordOf(Num(a) + Pow256(|a|) - Num(b), |a|);
  }

  // ---- comparisons decide as the flags of cmp and sub do ----

  /** On numbers: the flags of a difference order its operands. */
  lemma DifferenceFlags(a: nat, b: nat, n: nat, r: nat)
    requires n >= 1 && a < Pow256(n) && b < Pow256(n)
    requires r == if a >= b then a - b else a + Pow256(n) - b
    ensures r == 0 <==> a == b
    ensures var of := !(0 - Half(n) <= Signed(a, n) - Signed(b, n) < Half(n));
            (r >= Half(n)) != of <==> Signed(a, n) < Signed(b, n)
    ensures Signed(a, n) == Signed(b, n) <==> a == b
  {
    Even(n);
  }

  /** The flags of a difference, as the SDM defines them. */
  lemma DifferenceFlagsOf(op: FlagOp, a: seq<byte>, b: seq<byte>)
    requires (op == FCmp || op == FSub) && |a| == |b|
    ensures var n, r := |a|, Num(Alu(Sub, a, b));
            FlagsOf(op, a, b) == Flags(Num(a) < Num(b), r == 0, r >= Half(n),
                                       !(0 - Half(n) <= Signed(Num(a), n) - Signed(Num(b), n) < Half(n)))
  {}

  /** What the condition says of the two numbers. */
  predicate Decides(cc: CC, a: nat, b: nat, n: nat, r: nat) {
    match cc
    case AE => a >= b
    case A => a > b
    case BE => a <= b
    case B => a < b
    case GE => Signed(a, n) >= Signed(b, n)
    case G => Signed(a, n) > Signed(b, n)
    case LE => Signed(a, n) <= Signed(b, n)
    case L => Signed(a, n) < Signed(b, n)
    case E => r == 0
    case NE => r != 0
  }

  lemma ConditionSays(cc: CC, op: BinOp, r: Expr, l: Expr, asg: Assignment)
    requires WF(r) && WF(l) && Width(r) == Width(l)
    ensures var e, a, b := Condition(cc, Bin(op, r, l)), Z3Value(r, asg), Z3Value(l, asg);
            WFFormula(e) && (Holds(e, asg) <==> Decides(cc, Num(a), Num(b), |a|, Num(Alu(op, a, b))))
  {
    hide Z3Value, Alu, Num, Signed, WF, Width;
    Z3Bin(op, r, l, asg);
  }

  // ---- after other instructions ----

  /** The condition built after op on words a and b decides as the flags of op do. */
  predicate Faithful(cc: CC, op: FlagOp, a: seq<byte>, b: seq<byte>)
    requires |a| == |b|
  {
    Decides(cc, Num(a), Num(b), |a|, Num(Alu(AluOp(op), a, b))) == Rule(cc, FlagsOf(op, a, b))
  }

  /** Words for which the condition and the flags disagree, when it is not a comparison's. */
  function Witness(op: FlagOp, cc: CC): nat {
    if (op == FAnd || op == FTest) && (cc == BE || cc == A || cc == LE || cc == G) then 1 else 0
  }

  lemma {:induction false} SmallWord(v: nat, n: nat, i: nat)
    requires v <= 1 && i < n
    ensures ToBytes(v, n)[i] == if i == 0 then v else 0
  {
    if i > 0 {
      SmallWord(0, n - 1, i - 1);
    }
  }

  /** The result of op on v and 1, for v one of 0 and 1. */
  function SmallResult(op: FlagOp, v: nat): nat {
    match op
    case FAdd => v + 1
    case FAnd => v
    case FTest => v
    case FOr => 1
    case FXor => if v == 0 then 1 else 0
    case _ => 0
  }

  lemma SmallLogic(op: BinOp, v: nat, n: nat, r: nat)
    requires v <= 1 && r <= 1 && n >= 1
    requires (op == And && r == v) || (op == Or && r == 1) || (op == Xor && r == 1 - v)
    ensures Logic(op, ToBytes(v, n), ToBytes(1, n)) == ToBytes(r, n)
  {
    var x, y, z := ToBytes(v, n), ToBytes(1, n), ToBytes(r, n);
    hide AndByte, OrByte, XorByte, ToBytes;
    forall i | 0 <= i < n ensures Logic(op, x, y)[i] == z[i] {
      SmallWord(v, n, i);
      SmallWord(1, n, i);
      SmallWord(r, n, i);
    }
  }

  lemma SmallAlu(op: FlagOp, v: nat, n: nat)
    requires v <= 1 && n >= 1 && op != FCmp && op != FSub
    ensures Num(Alu(AluOp(op), ToBytes(v, n), ToBytes(1, n))) == SmallResult(op, v)
    ensures Num(ToBytes(v, n)) == v && Num(ToBytes(1, n)) == 1
  {
    hide Pow256, Num, ToBytes, Logic, Half;
    Even(n);
    NumOfToBytes(v, n);
    NumOfToBytes(1, n);
    NumOfToBytes(SmallResult(op, v), n);
    if op != FAdd {
      SmallLogic(AluOp(op), v, n, SmallResult(op, v));
    }
  }

  lemma WitnessUnfaithful(cc: CC, op: FlagOp, n: nat)
    requires n >= 1 && op != FCmp && op != FSub && cc != E && cc != NE
    ensures !Faithful(cc, op, ToBytes(Witness(op, cc), n), ToBytes(1, n))
  {
    hide Pow256, Num, ToBytes, Alu, Half;
    var v := Witness(op, cc);
    SmallAlu(op, v, n);
    Even(n);
  }

  /** For each width, a condition decides as the flags do on all operands exactly when it follows cmp or sub, or only
      asks whether the result is zero. */
  lemma ConditionFaithful(cc: CC, op: FlagOp, n: nat)
    requires n >= 1
    ensures (forall a: seq<byte>, b: seq<byte> {:trigger Faithful(cc, op, a, b)} :: |a| == |b| == n ==>
            Faithful(cc, op, a, b))
            <==> op == FCmp || op == FSub || cc == E || cc == NE
  {
    hide *;
    if op == FCmp || op == FSub || cc == E || cc == NE {
      forall a: seq<byte>, b: seq<byte> | |a| == |b| == n ensures Faithful(cc, op, a, b) {
        FaithfulWhen(cc, op, a, b);
      }
    } else {
      WitnessUnfaithful(cc, op, n);
    }
  }

  lemma FaithfulWhen(cc: CC, op: FlagOp, a: seq<byte>, b: seq<byte>)
    requires |a| == |b| >= 1 && (op == FCmp || op == FSub || cc == E || cc == NE)
    ensures Faithful(cc, op, a, b)
  {
    if op == FCmp || op == FSub {
      hide Alu, Half, Signed, FlagsOf, Num, Pow256;
      SubWord(a, b);
      DifferenceFlagsOf(op, a, b);
      DifferenceFlags(Num(a), Num(b), |a|, Num(Alu(Sub, a, b)));
    }
  }

  /** For cmp and sub with every condition code, and for every instruction with equal and not-equal: the condition built
      from the saved expression holds under an assignment exactly when the flags of the operation on the operands'
      values take the branch. The operands may be any expressions of any common width that the solver reads right. */
  lemma ConditionDecides(cc: CC, op: FlagOp, r: Expr, l: Expr, asg: Assignment)
    requires op == FCmp || op == FSub || cc == E || cc == NE
    requires WF(r) && WF(l) && Width(r) == Width(l) >= 1 && ReadsRight(r, asg) && ReadsRight(l, asg)
    ensures var e := Condition(cc, Bin(AluOp(op), r, l));
            WFFormula(e) && (Holds(e, asg) <==> Rule(cc, FlagsOf(op, Eval(r, asg), Eval(l, asg))))
  {
    hide *;
    ConditionSays(cc, AluOp(op), r, l, asg);
    ReadIs(r, asg);
    ReadIs(l, asg);
    FaithfulWhen(cc, op, Eval(r, asg), Eval(l, asg));
    FaithfulIs(cc, op, Eval(r, asg), Eval(l, asg));
  }

  lemma ReadIs(e: Expr, asg: Assignment)
    requires WF(e) && ReadsRight(e, asg)
    ensures Z3Value(e, asg) == Eval(e, asg)
  {}

  lemma FaithfulIs(cc: CC, op: FlagOp, a: seq<byte>, b: seq<byte>)
    requires |a| == |b|
    ensures Faithful(cc, op, a, b)
            <==> Decides(cc, Num(a), Num(b), |a|, Num(Alu(AluOp(op), a, b))) == Rule(cc, FlagsOf(op, a, b))
  {
    hide Decides, Alu, FlagsOf, Rule, Num;
  }
}
