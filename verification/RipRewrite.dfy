/** Rewriting RIP-relative instructions to use r15 (conexec.cpp:382-509, 931-943, 1081-1087). The decoder follows the
    Intel 64 and IA-32 SDM, Volume 2, sections 2.1.3, 2.1.5 and 2.2.1.6. */
module RipRewrite {
  import opened Bytes
  import opened Addresses
  import opened Exprs
  import opened Pieces

  // ---- decoding ----

  datatype Base = Rip | Reg(n: nat)

  /** Register operand. Without a REX byte the byte registers 4 to 7 are ah, ch, dh and bh. */
  datatype RegOperand = Gpr(n: nat) | HighByte(n: nat)

  /** The instructions that are rewritten. */
  datatype Name = EMov | ECmp | ELea | EAdd | ESub

  /** An instruction with a memory operand: legacy prefixes, operand width bit, opcode, register operand (or the digit
      that extends the opcode), base and displacement of the memory operand, immediate, and length. */
  datatype Insn = Insn(name: Name, prefixes: seq<byte>, wide: bool, opcode: byte, reg: RegOperand, base: Base,
      disp: int,
                       imm: seq<byte>, length: nat)

  function SignedByte(b: byte): int { if b < 128 then b else b - 256 }

  function Signed32(bs: seq<byte>): int
    requires |bs| == 4
  {
    var a: int, b: int, c: int, d: int := bs[0], bs[1], bs[2], bs[3];
    var v := a + 256 * b + 65536 * c + 16777216 * d;
    if v < 0x8000_0000 then v else v - 0x1_0000_0000
  }

  predicate IsRex(b: byte) { 0x40 <= b < 0x50 }

  /** Segment overrides, operand and address size, lock and repeat. */
  predicate IsPrefix(b: byte) {
    || b == 0x26 || b == 0x2E || b == 0x36 || b == 0x3E || b == 0x64 || b == 0x65
    || b == 0x66 || b == 0x67 || b == 0xF0 || b == 0xF2 || b == 0xF3
  }

  /** The fields of a ModRM byte. */
  function Mod(m: byte): nat { m / 64 }
  function RegField(m: byte): nat { m / 8 % 8 }
  function Rm(m: byte): nat { m % 8 }

  /** The W, R and B bits of a REX byte. */
  function RexW(x: nat): bool { x / 8 == 1 }
  function RexR(x: nat): nat { x / 4 % 2 }
  function RexB(x: nat): nat { x % 2 }

  /** The opcodes of these instructions with a ModRM byte; some are told apart by its register field. */
  function NameOf(op: byte, digit: nat): Option<Name> {
    if op < 0x04 then Some(EAdd)
    else if 0x28 <= op < 0x2C then Some(ESub)
    else if 0x38 <= op < 0x3C then Some(ECmp)
    else if op == 0x80 || op == 0x81 || op == 0x83 then
      if digit == 0 then Some(EAdd) else if digit == 5 then Some(ESub) else if digit == 7 then Some(ECmp) else None
    else if 0x88 <= op <= 0x8C || op == 0x8E then Some(EMov)
    else if op == 0x8D then Some(ELea)
    else if (op == 0xC6 || op == 0xC7) && digit == 0 then Some(EMov)
    else None
  }

  /** The opcodes with a byte register operand. */
  predicate ByteReg(op: byte) {
    op == 0x00 || op == 0x02 || op == 0x28 || op == 0x2A || op == 0x38 || op == 0x3A || op == 0x88 || op == 0x8A
  }

  /** One of ah, ch, dh, bh, if there is no REX byte. */
  predicate HighReg(op: byte, m: byte) { ByteReg(op) && RegField(m) >= 4 }

  function ImmSize(op: byte, short: bool, wide: bool): nat {
    if op == 0x80 || op == 0x83 || op == 0xC6 then 1
    else if op == 0x81 || op == 0xC7 then (if short && !wide then 2 else 4)
    else 0
  }

  function Bits(rex: Option<nat>): nat { if rex.Some? then rex.value else 0 }

  function RegOf(op: byte, m: byte, rex: Option<nat>): RegOperand {
    if HighReg(op, m) && rex.None? then HighByte(RegField(m) - 4) else Gpr(RegField(m) + 8 * RexR(Bits(rex)))
  }

  /** Opcode, ModRM, displacement and immediate, after n bytes of prefixes. A memory operand with a SIB byte is not
      RIP-relative and is not decoded. */
  function DecodeBody(bs: seq<byte>, prefixes: seq<byte>, rex: Option<nat>, n: nat): Option<Insn> {
    if |bs| < 2 then None else
    var op, m, x := bs[0], bs[1], Bits(rex);
    var mod, rm := Mod(m), Rm(m);
    var disp := if mod == 1 then 1 else if mod == 2 || (mod == 0 && rm == 5) then 4 else 0;
    var imm := ImmSize(op, 0x66 in prefixes, RexW(x));
    if NameOf(op, RegField(m)).None? || mod == 3 || rm == 4 || |bs| < 2 + disp + imm then None else
    var base := if mod == 0 && rm == 5 then Rip else Reg(rm + 8 * RexB(x));
    var d := if disp == 4 then Signed32(bs[2..6]) else if disp == 1 then SignedByte(bs[2]) else 0;
    Some(Insn(NameOf(op, RegField(m)).value, prefixes, RexW(x), op, RegOf(op, m, rex), base, d,
              bs[2 + disp..2 + disp + imm], n + 2 + disp + imm))
  }

  /** Prefixes in any number; a REX byte counts if it is the last of them. */
  function Scan(bs: seq<byte>, prefixes: seq<byte>, rex: Option<nat>, n: nat): Option<Insn> {
    if bs == [] then None
    else if IsPrefix(bs[0]) then Scan(bs[1..], prefixes + [bs[0]], None, n + 1)
    else if IsRex(bs[0]) then Scan(bs[1..], prefixes, Some(bs[0] - 0x40), n + 1)
    else DecodeBody(bs, prefixes, rex, n)
  }

  function Decode(bs: seq<byte>): Option<Insn> { Scan(bs, [], None, 0) }

  /** The effective address, without the segment base. */
  function EffectiveAddress(i: Insn, next: nat, regs: nat -> nat): int {
    ((match i.base case Rip => next case Reg(n) => regs(n)) + i.disp) % (if 0x67 in i.prefixes then 0x1_0000_0000
        else ULONG)
  }

  // ---- the forms that are handled ----

  /** REX op ModRM disp32; op ModRM disp32; gs op ModRM disp32; gs REX op ModRM disp32. */
  datatype Form = RexForm | PlainForm | GsForm | GsRexForm

  function FormLength(f: Form): nat {
    match f
    case RexForm => 7
    case PlainForm => 6
    case GsForm => 7
    case GsRexForm => 8
  }

  /** The branch of RewRIPInsn: it goes by the instruction's name, the gs override and the size, and takes the bytes to
      be of the form. None is a hypercall. */
  function Chosen(name: Name, gs: bool, size: nat): Option<Form> {
    if gs then
      if name != EMov && name != EAdd then None
      else if size == 7 then Some(GsForm) else if size == 8 then Some(GsRexForm) else None
    else if size == 7 then Some(RexForm) else if size == 6 then Some(PlainForm) else None
  }

  /** Where the branch takes the opcode byte to be. */
  function OpcodeAt(f: Form): nat { FormLength(f) - 6 }

  function Disp(bs: seq<byte>, f: Form): (d: seq<byte>)
    requires |bs| == FormLength(f)
    ensures |d| == 4
  {
    bs[OpcodeAt(f) + 2..]
  }

  /** Prefixes and opcode of the new instruction, with REX.B set. */
  function Head(bs: seq<byte>, f: Form): seq<byte>
    requires |bs| == FormLength(f)
  {
    match f
    case RexForm => [OrByte(bs[0], 0x1), bs[1]]
    case PlainForm => [0x41, bs[0]]
    case GsForm => [bs[0], 0x41, bs[1]]
    case GsRexForm => [bs[0], OrByte(bs[1], 0x1), bs[2]]
  }

  /** ModRM and displacement of the new instruction: the displacement is left out, one byte or four. */
  function Tail(m: byte, d: seq<byte>): seq<byte>
    requires |d| == 4
  {
    if d[1] != 0 || d[2] != 0 || d[3] != 0 then [OrByte(m, 0x82)] + d
    else if d[0] != 0 then [OrByte(m, 0x42), d[0]]
    else [OrByte(m, 0x02)]
  }

  function Rewritten(bs: seq<byte>, f: Form): seq<byte>
    requires |bs| == FormLength(f)
  {
    Head(bs, f) + Tail(bs[OpcodeAt(f) + 1], Disp(bs, f))
  }

  lemma ModRMOr(m: byte)
    requires m / 64 == 0 && m % 8 == 5
    ensures OrByte(m, 0x02) == m + 0x02 && OrByte(m, 0x42) == m + 0x42 && OrByte(m, 0x82) == m + 0x82
  {
    assert m == 5 || m == 13 || m == 21 || m == 29 || m == 37 || m == 45 || m == 53 || m == 61;
  }

  /** Setting these bits turns rm 5 into 7, selects the displacement size, and keeps the register field. */
  lemma ModRMBits(m: byte)
    requires Mod(m) == 0 && Rm(m) == 5
    ensures Mod(OrByte(m, 0x02)) == 0 && Mod(OrByte(m, 0x42)) == 1 && Mod(OrByte(m, 0x82)) == 2
    ensures Rm(OrByte(m, 0x02)) == Rm(OrByte(m, 0x42)) == Rm(OrByte(m, 0x82)) == 7
    ensures RegField(OrByte(m, 0x02)) == RegField(OrByte(m, 0x42)) == RegField(OrByte(m, 0x82)) == RegField(m)
  {
    hide OrByte;
    ModRMOr(m);
  }

  lemma RexBits(r: byte)
    requires IsRex(r)
    ensures OrByte(r, 0x1) == if r % 2 == 0 then r + 1 else r
  {
    assert r == 0x40 || r == 0x41 || r == 0x42 || r == 0x43 || r == 0x44 || r == 0x45 || r == 0x46 || r == 0x47
           || r == 0x48 || r == 0x49 || r == 0x4A || r == 0x4B || r == 0x4C || r == 0x4D || r == 0x4E || r == 0x4F;
  }

  /** The displacement that the new instruction has. */
  function NewDisp(d: seq<byte>): int
    requires |d| == 4
  {
    if d[1] != 0 || d[2] != 0 || d[3] != 0 then Signed32(d) else SignedByte(d[0])
  }

  lemma OldBody(op: byte, m: byte, d: seq<byte>, prefixes: seq<byte>, rex: Option<nat>, n: nat)
    requires |d| == 4 && Mod(m) == 0 && Rm(m) == 5 && NameOf(op, RegField(m)).Some?
    requires ImmSize(op, 0x66 in prefixes, RexW(Bits(rex))) == 0
    ensures DecodeBody([op, m] + d, prefixes, rex, n)
            == Some(Insn(NameOf(op, RegField(m)).value, prefixes, RexW(Bits(rex)), op, RegOf(op, m, rex), Rip,
                Signed32(d),
                         [], n + 6))
  {
    hide Signed32, Mod, RegField, Rm, NameOf, ImmSize, RegOf;
    var b := [op, m] + d;
    assert b[0] == op && b[1] == m && b[2..6] == d && b[6..6] == [];
  }

  lemma NewBody(op: byte, m: byte, d: seq<byte>, prefixes: seq<byte>, x: nat, n: nat)
    requires RexB(x) == 1 && |d| == 4 && Mod(m) == 0 && Rm(m) == 5 && NameOf(op, RegField(m)).Some?
    requires ImmSize(op, 0x66 in prefixes, RexW(x)) == 0
    ensures DecodeBody([op] + Tail(m, d), prefixes, Some(x), n)
            == Some(Insn(NameOf(op, RegField(m)).value, prefixes, RexW(x), op, Gpr(RegField(m) + 8 * RexR(x)), Reg(15),
                         NewDisp(d), [], n + 1 + |Tail(m, d)|))
  {
    hide OrByte, Signed32, Mod, RegField, Rm, NameOf, ImmSize;
    ModRMBits(m);
    var b := [op] + Tail(m, d);
    assert b[0] == op;
    if d[1] != 0 || d[2] != 0 || d[3] != 0 {
      assert b[1] == OrByte(m, 0x82) && b[2..6] == d && b[6..6] == [];
    } else if d[0] != 0 {
      assert b[1] == OrByte(m, 0x42) && b[2] == d[0] && b[3..3] == [];
    } else {
      assert b[1] == OrByte(m, 0x02) && b[2..2] == [];
    }
  }

  // ---- what a decoded instruction looks like ----

  /** A RIP-relative instruction has at least six bytes after its prefixes, and does not reach past the bytes given. */
  lemma {:induction false} ScanLength(bs: seq<byte>, prefixes: seq<byte>, rex: Option<nat>, n: nat)
    requires Scan(bs, prefixes, rex, n).Some? && Scan(bs, prefixes, rex, n).value.base == Rip
    ensures |bs| >= 6 && n + 6 <= Scan(bs, prefixes, rex, n).value.length <= n + |bs|
  {
    hide NameOf, ImmSize, RegOf, Signed32, SignedByte;
    if IsPrefix(bs[0]) {
      ScanLength(bs[1..], prefixes + [bs[0]], None, n + 1);
    } else if IsRex(bs[0]) {
      ScanLength(bs[1..], prefixes, Some(bs[0] - 0x40), n + 1);
    }
  }

  lemma ScanPrefix(bs: seq<byte>, prefixes: seq<byte>, rex: Option<nat>, n: nat)
    requires bs != [] && IsPrefix(bs[0])
    ensures Scan(bs, prefixes, rex, n) == Scan(bs[1..], prefixes + [bs[0]], None, n + 1)
  {
    hide DecodeBody;
  }

  lemma ScanRex(bs: seq<byte>, prefixes: seq<byte>, rex: Option<nat>, n: nat)
    requires bs != [] && IsRex(bs[0])
    ensures Scan(bs, prefixes, rex, n) == Scan(bs[1..], prefixes, Some(bs[0] - 0x40), n + 1)
  {
    hide DecodeBody;
  }

  lemma ScanBody(bs: seq<byte>, prefixes: seq<byte>, rex: Option<nat>, n: nat)
    requires bs != [] && !IsPrefix(bs[0]) && !IsRex(bs[0])
    ensures Scan(bs, prefixes, rex, n) == DecodeBody(bs, prefixes, rex, n)
  {
    hide DecodeBody;
  }

  predicate IsOpcode(b: byte) { !IsPrefix(b) && !IsRex(b) }

  /** Six bytes that decode to a RIP-relative instruction are opcode, ModRM and displacement. */
  lemma SixBytes(bs: seq<byte>, prefixes: seq<byte>, rex: Option<nat>, n: nat)
    requires |bs| == 6 && Scan(bs, prefixes, rex, n).Some? && Scan(bs, prefixes, rex, n).value.base == Rip
    ensures IsOpcode(bs[0]) && Mod(bs[1]) == 0 && Rm(bs[1]) == 5 && NameOf(bs[0], RegField(bs[1])).Some?
    ensures ImmSize(bs[0], 0x66 in prefixes, RexW(Bits(rex))) == 0
    ensures Scan(bs, prefixes, rex, n) == DecodeBody(bs, prefixes, rex, n)
  {
    hide NameOf, ImmSize, RegOf, Signed32, SignedByte, Mod, Rm, RegField, RexW, RexB;
    if IsPrefix(bs[0]) {
      ScanLength(bs[1..], prefixes + [bs[0]], None, n + 1);
    } else if IsRex(bs[0]) {
      ScanLength(bs[1..], prefixes, Some(bs[0] - 0x40), n + 1);
    }
  }

  /** Seven bytes are a prefix or a REX byte before six, or end in a one-byte immediate. */
  lemma SevenBytes(bs: seq<byte>, prefixes: seq<byte>, rex: Option<nat>, n: nat)
    requires |bs| == 7 && Scan(bs, prefixes, rex, n).Some? && Scan(bs, prefixes, rex, n).value.base == Rip
    requires Scan(bs, prefixes, rex, n).value.length == n + 7
    ensures !IsOpcode(bs[0]) ==> IsOpcode(bs[1])
    ensures IsOpcode(bs[0]) ==> bs[0] == 0x80 || bs[0] == 0x83 || bs[0] == 0xC6
    ensures IsOpcode(bs[0]) ==> Scan(bs, prefixes, rex, n).value.prefixes == prefixes
    ensures IsPrefix(bs[0]) ==> Scan(bs, prefixes, rex, n).value.prefixes == prefixes + [bs[0]]
    ensures IsRex(bs[0]) ==> Scan(bs, prefixes, rex, n).value.prefixes == prefixes
  {
    hide NameOf, RegOf, Signed32, SignedByte, Mod, Rm, RegField, RexW, RexB;
    if IsPrefix(bs[0]) {
      SixBytes(bs[1..], prefixes + [bs[0]], None, n + 1);
    } else if IsRex(bs[0]) {
      SixBytes(bs[1..], prefixes, Some(bs[0] - 0x40), n + 1);
    }
  }

  /** Eight bytes with one more prefix among them than before. */
  lemma EightBytes(bs: seq<byte>)
    requires |bs| == 8 && Decode(bs).Some? && Decode(bs).value.base == Rip && Decode(bs).value.length == 8
    requires 0x65 in Decode(bs).value.prefixes
    ensures !IsOpcode(bs[0]) && (bs[0] == 0x65 || bs[1] == 0x65)
    ensures !IsOpcode(bs[1]) ==> IsOpcode(bs[2])
    ensures IsOpcode(bs[1]) ==> bs[1] == 0x80 || bs[1] == 0x83 || bs[1] == 0xC6
    ensures bs[0] != 0x65 ==> bs[1] == 0x65
  {
    hide NameOf, RegOf, Signed32, SignedByte, Mod, Rm, RegField, RexW, RexB, DecodeBody;
    if IsPrefix(bs[0]) {
      ScanPrefix(bs, [], None, 0);
      assert [] + [bs[0]] == [bs[0]];
      SevenBytes(bs[1..], [bs[0]], None, 1);
    } else if IsRex(bs[0]) {
      ScanRex(bs, [], None, 0);
      SevenBytes(bs[1..], [], Some(bs[0] - 0x40), 1);
    } else {
      ScanBody(bs, [], None, 0);
      BodyPrefixes(bs, [], None, 0);
    }
  }

  lemma BodyPrefixes(bs: seq<byte>, prefixes: seq<byte>, rex: Option<nat>, n: nat)
    requires DecodeBody(bs, prefixes, rex, n).Some?
    ensures DecodeBody(bs, prefixes, rex, n).value.prefixes == prefixes
  {}

  // ---- the same instruction ----

  /** out is the instruction i with r15 for rip: alike but for length and base, and with r15 holding the address of the
      next instruction its effective address is i's, wherever out itself is placed. */
  ghost predicate Preserved(i: Insn, out: seq<byte>) {
    var j := Decode(out);
    && j.Some? && j.value.length == |out|
    && j.value.name == i.name && j.value.prefixes == i.prefixes && j.value.wide == i.wide
    && j.value.opcode == i.opcode && j.value.reg == i.reg && j.value.imm == i.imm
    && forall next: nat, regs: nat -> nat {:trigger EffectiveAddress(j.value, next, regs)} ::
         EffectiveAddress(j.value, next, regs) == EffectiveAddress(i, regs(15), regs)
  }

  lemma OnR15(i: Insn, out: seq<byte>, r: RegOperand, d: int)
    requires i.base == Rip && 0x67 !in i.prefixes && -0x1_0000_0000 < d - i.disp < 0x1_0000_0000
    requires Decode(out) == Some(i.(reg := r, base := Reg(15), disp := d, length := |out|))
    ensures Preserved(i, out) <==> r == i.reg && d == i.disp
  {
    hide Decode;
    var j := Decode(out).value;
    var zero: nat -> nat := _ => 0;
    assert EffectiveAddress(j, 0, zero) == d % ULONG && EffectiveAddress(i, zero(15), zero) == i.disp % ULONG;
  }

  /** Another base moves when r15 does not, or stays when it does. */
  lemma NotOnR15(i: Insn, out: seq<byte>)
    requires i.base == Rip && (Decode(out).Some? ==> Decode(out).value.base != Reg(15))
    ensures !Preserved(i, out)
  {
    hide Decode;
    if Decode(out).Some? {
      var j := Decode(out).value;
      var zero: nat -> nat := _ => 0;
      if j.base == Rip {
        assert EffectiveAddress(j, 0, zero) != EffectiveAddress(j, 1, zero);
      } else {
        var one: nat -> nat := n => if n == j.base.n then 1 else 0;
        assert EffectiveAddress(j, 0, zero) != EffectiveAddress(j, 0, one);
        assert EffectiveAddress(i, zero(15), zero) == EffectiveAddress(i, one(15), one);
      }
    }
  }

  lemma NewDispSame(d: seq<byte>)
    requires |d| == 4
    ensures NewDisp(d) == Signed32(d) <==> !(128 <= Signed32(d) <= 255)
    ensures -0x1_0000_0000 < NewDisp(d) - Signed32(d) < 0x1_0000_0000
  {}

  /** A body with no REX byte, or with one, and the new body after a REX byte with B set. */
  lemma Bodies(op: byte, m: byte, d: seq<byte>, prefixes: seq<byte>, rex: Option<nat>, n: nat, x: nat, n': nat)
    requires |d| == 4 && Mod(m) == 0 && Rm(m) == 5 && NameOf(op, RegField(m)).Some?
    requires ImmSize(op, 0x66 in prefixes, RexW(Bits(rex))) == 0
    requires RexB(x) == 1 && RexW(x) == RexW(Bits(rex)) && RexR(x) == RexR(Bits(rex))
    ensures var i, r := DecodeBody([op, m] + d, prefixes, rex, n), Gpr(RegField(m) + 8 * RexR(x));
            && i.Some? && i.value.base == Rip && i.value.disp == Signed32(d) && i.value.prefixes == prefixes
            && (r == i.value.reg <==> rex.Some? || !HighReg(op, m))
            && DecodeBody([op] + Tail(m, d), prefixes, Some(x), n')
               == Some(i.value.(reg := r, base := Reg(15), disp := NewDisp(d), length := n' + 1 + |Tail(m, d)|))
  {
    hide DecodeBody, OrByte, Signed32, NewDisp, Tail, Mod, Rm, NameOf, ImmSize, RexW, RexR, RexB;
    OldBody(op, m, d, prefixes, rex, n);
    NewBody(op, m, d, prefixes, x, n');
  }

  /** The emitted bytes after their prefixes: a REX byte with B set, opcode, ModRM and displacement. */
  lemma Emitted(out: seq<byte>, i: Insn, op: byte, m: byte, d: seq<byte>, prefixes: seq<byte>, rex: Option<nat>, n: nat,
      y: byte)
    requires |d| == 4 && Mod(m) == 0 && Rm(m) == 5 && NameOf(op, RegField(m)).Some? && IsOpcode(op)
    requires ImmSize(op, 0x66 in prefixes, RexW(Bits(rex))) == 0 && 0x67 !in prefixes
    requires IsRex(y)
    requires RexB(y - 0x40) == 1 && RexW(y - 0x40) == RexW(Bits(rex)) && RexR(y - 0x40) == RexR(Bits(rex))
    requires DecodeBody([op, m] + d, prefixes, rex, n) == Some(i)
    requires Decode(out) == Scan([y] + ([op] + Tail(m, d)), prefixes, None, |prefixes|)
    requires |out| == |prefixes| + 2 + |Tail(m, d)|
    ensures i.disp == Signed32(d)
    ensures Preserved(i, out) <==> (rex.Some? || !HighReg(op, m)) && !(128 <= i.disp <= 255)
  {
    hide *;
    var k, new' := |prefixes|, [op] + Tail(m, d);
    RexNat(y);
    FirstIs(y, new');
    ScanRex([y] + new', prefixes, None, k);
    OpcodeIs(op);
    ScanBody(new', prefixes, Some(y - 0x40), k + 1);
    Bodies(op, m, d, prefixes, rex, n, y - 0x40, k + 1);
    NewDispSame(d);
    OnR15(i, out, Gpr(RegField(m) + 8 * RexR(y - 0x40)), NewDisp(d));
  }

  lemma RexNat(y: byte)
    requires IsRex(y)
    ensures 0 <= y - 0x40 < 16
  {}

  lemma FirstIs(y: byte, rest: seq<byte>)
    ensures ([y] + rest)[0] == y && ([y] + rest)[1..] == rest && [y] + rest != []
  {}

  lemma OpcodeIs(b: byte)
    ensures IsOpcode(b) <==> !IsPrefix(b) && !IsRex(b)
  {}

  lemma RexFields(r: byte)
    requires IsRex(r)
    ensures var s := OrByte(r, 0x1);
            && IsRex(s) && RexB(s - 0x40) == 1 && RexW(s - 0x40) == RexW(r - 0x40) && RexR(s - 0x40) == RexR(r - 0x40)
  {
    hide OrByte;
    RexBits(r);
  }

  // ---- the four branches ----

  /** What a branch takes for granted: a REX byte at its place, or that adding one leaves the register operand alone. */
  predicate Assumed(bs: seq<byte>, f: Form)
    requires |bs| == FormLength(f)
  {
    match f
    case RexForm => IsRex(bs[0])
    case PlainForm => !HighReg(bs[0], bs[1])
    case GsForm => !HighReg(bs[1], bs[2])
    case GsRexForm => IsRex(bs[1])
  }

  /** Six bytes as opcode, ModRM and displacement. */
  lemma SixParts(bs: seq<byte>)
    requires |bs| == 6
    ensures bs == [bs[0], bs[1]] + bs[2..] && |bs[2..]| == 4
  {}

  /** The instruction behind its prefixes, as SixBytes finds it. */
  lemma SixDecoded(cs: seq<byte>, prefixes: seq<byte>, rex: Option<nat>, n: nat)
    requires |cs| == 6 && Scan(cs, prefixes, rex, n).Some? && Scan(cs, prefixes, rex, n).value.base == Rip
    ensures IsOpcode(cs[0]) && Mod(cs[1]) == 0 && Rm(cs[1]) == 5 && NameOf(cs[0], RegField(cs[1])).Some?
    ensures ImmSize(cs[0], 0x66 in prefixes, RexW(Bits(rex))) == 0 && |cs[2..]| == 4
    ensures Scan(cs, prefixes, rex, n) == DecodeBody([cs[0], cs[1]] + cs[2..], prefixes, rex, n)
  {
    hide *;
    SixBytes(cs, prefixes, rex, n);
    SixParts(cs);
  }

  lemma PlainExact(bs: seq<byte>)
    requires |bs| == 6 && Decode(bs).Some? && Decode(bs).value.base == Rip
    ensures var i := Decode(bs).value;
            Preserved(i, Rewritten(bs, PlainForm)) <==> Assumed(bs, PlainForm) && !(128 <= i.disp <= 255)
  {
    hide Tail, DecodeBody, Scan, Preserved, NameOf, ImmSize, Mod, Rm, RegField, HighReg, Signed32, IsOpcode;
    var d, out := bs[2..], Rewritten(bs, PlainForm);
    SixDecoded(bs, [], None, 0);
    assert out == [0x41] + ([bs[0]] + Tail(bs[1], d));
    Emitted(out, Decode(bs).value, bs[0], bs[1], d, [], None, 0, 0x41);
  }

  lemma GsParts(bs: seq<byte>)
    requires |bs| == 7 && bs[0] == 0x65
    ensures var cs := bs[1..];
            && |cs| == 6 && Decode(bs) == Scan(cs, [0x65], None, 1) && bs[1] == cs[0] && bs[2] == cs[1]
            && Rewritten(bs, GsForm) == [0x65] + ([0x41] + ([cs[0]] + Tail(cs[1], cs[2..])))
            && Decode(Rewritten(bs, GsForm)) == Scan([0x41] + ([cs[0]] + Tail(cs[1], cs[2..])), [0x65], None, 1)
  {
    hide Tail, DecodeBody, Scan;
    var cs := bs[1..];
    assert bs[3..] == cs[2..];
    assert [] + [bs[0]] == [0x65];
    ScanPrefix(bs, [], None, 0);
    var new' := [0x41] + ([cs[0]] + Tail(cs[1], cs[2..]));
    FirstIs(0x65, new');
    assert Rewritten(bs, GsForm) == [0x65] + new';
    ScanPrefix([0x65] + new', [], None, 0);
  }

  lemma GsPrefix(bs: seq<byte>)
    requires |bs| == 7 && Decode(bs).Some? && Decode(bs).value.base == Rip && Decode(bs).value.length == 7
    requires 0x65 in Decode(bs).value.prefixes
    ensures bs[0] == 0x65
  {
    hide DecodeBody, Scan;
    SevenBytes(bs, [], None, 0);
  }

  lemma GsExact(bs: seq<byte>)
    requires |bs| == 7 && Decode(bs).Some? && Decode(bs).value.base == Rip && Decode(bs).value.length == 7
    requires 0x65 in Decode(bs).value.prefixes
    ensures var i := Decode(bs).value;
            Preserved(i, Rewritten(bs, GsForm)) <==> Assumed(bs, GsForm) && !(128 <= i.disp <= 255)
  {
    hide Tail, DecodeBody, Scan, Decode, Rewritten, Preserved, NameOf, ImmSize, Mod, Rm, RegField, HighReg, Signed32,
         IsOpcode;
    GsPrefix(bs);
    GsParts(bs);
    var cs := bs[1..];
    SixDecoded(cs, [0x65], None, 1);
    Emitted(Rewritten(bs, GsForm), Decode(bs).value, cs[0], cs[1], cs[2..], [0x65], None, 1, 0x41);
  }

  lemma RexParts(bs: seq<byte>)
    requires |bs| == 7 && IsRex(bs[0])
    ensures var cs, y := bs[1..], OrByte(bs[0], 0x1);
            && |cs| == 6 && Decode(bs) == Scan(cs, [], Some(bs[0] - 0x40), 1)
            && Rewritten(bs, RexForm) == [y] + ([cs[0]] + Tail(cs[1], cs[2..]))
  {
    hide Tail, DecodeBody, Scan, OrByte;
    var cs := bs[1..];
    assert bs[3..] == cs[2..];
    ScanRex(bs, [], None, 0);
  }

  lemma RexExact(bs: seq<byte>)
    requires |bs| == 7 && Decode(bs).Some? && Decode(bs).value.base == Rip && IsRex(bs[0])
    ensures var i := Decode(bs).value;
            Preserved(i, Rewritten(bs, RexForm)) <==> !(128 <= i.disp <= 255)
  {
    hide Tail, DecodeBody, Scan, Rewritten, Preserved, NameOf, ImmSize, Mod, Rm, RegField, HighReg, Signed32, IsOpcode,
         OrByte, RexW, RexR, RexB;
    RexParts(bs);
    RexFields(bs[0]);
    var cs := bs[1..];
    SixDecoded(cs, [], Some(bs[0] - 0x40), 1);
    Emitted(Rewritten(bs, RexForm), Decode(bs).value, cs[0], cs[1], cs[2..], [], Some(bs[0] - 0x40), 1,
        OrByte(bs[0], 0x1));
  }

  lemma GsRexParts(bs: seq<byte>)
    requires |bs| == 8 && bs[0] == 0x65 && IsRex(bs[1])
    ensures var cs, y := bs[2..], OrByte(bs[1], 0x1);
            var new' := [y] + ([cs[0]] + Tail(cs[1], cs[2..]));
            && |cs| == 6 && Decode(bs) == Scan(cs, [0x65], Some(bs[1] - 0x40), 2)
            && Rewritten(bs, GsRexForm) == [0x65] + new'
            && Decode(Rewritten(bs, GsRexForm)) == Scan(new', [0x65], None, 1)
  {
    hide Tail, DecodeBody, Scan, OrByte;
    var cs := bs[2..];
    assert bs[4..] == cs[2..] && [] + [bs[0]] == [0x65] && bs[1..][1..] == cs;
    ScanPrefix(bs, [], None, 0);
    ScanRex(bs[1..], [0x65], None, 1);
    var new' := [OrByte(bs[1], 0x1)] + ([cs[0]] + Tail(cs[1], cs[2..]));
    FirstIs(0x65, new');
    assert Rewritten(bs, GsRexForm) == [0x65] + new';
    ScanPrefix([0x65] + new', [], None, 0);
  }

  lemma GsRexExact(bs: seq<byte>)
    requires |bs| == 8 && Decode(bs).Some? && Decode(bs).value.base == Rip && bs[0] == 0x65 && IsRex(bs[1])
    ensures var i := Decode(bs).value;
            Preserved(i, Rewritten(bs, GsRexForm)) <==> !(128 <= i.disp <= 255)
  {
    hide Tail, DecodeBody, Scan, Decode, Rewritten, Preserved, NameOf, ImmSize, Mod, Rm, RegField, HighReg, Signed32,
         IsOpcode, OrByte, RexW, RexR, RexB;
    GsRexParts(bs);
    RexFields(bs[1]);
    var cs := bs[2..];
    SixDecoded(cs, [0x65], Some(bs[1] - 0x40), 2);
    Emitted(Rewritten(bs, GsRexForm), Decode(bs).value, cs[0], cs[1], cs[2..], [0x65], Some(bs[1] - 0x40), 2,
        OrByte(bs[1], 0x1));
  }

  // ---- without the REX byte ----

  /** Without a REX byte the base is one of the first eight registers. */
  lemma LowBase(bs: seq<byte>, prefixes: seq<byte>, n: nat)
    ensures DecodeBody(bs, prefixes, None, n).Some? ==> DecodeBody(bs, prefixes, None, n).value.base != Reg(15)
  {
    hide NameOf, ImmSize, RegOf, Signed32, SignedByte;
  }

  lemma NoRex(bs: seq<byte>, prefixes: seq<byte>, rex: Option<nat>, n: nat)
    requires |bs| >= 2 && !IsRex(bs[0]) && (IsPrefix(bs[0]) ==> IsOpcode(bs[1])) && (IsOpcode(bs[0]) ==> rex.None?)
    ensures Scan(bs, prefixes, rex, n).Some? ==> Scan(bs, prefixes, rex, n).value.base != Reg(15)
  {
    hide DecodeBody;
    if IsPrefix(bs[0]) {
      ScanPrefix(bs, prefixes, rex, n);
      ScanBody(bs[1..], prefixes + [bs[0]], None, n + 1);
      LowBase(bs[1..], prefixes + [bs[0]], n + 1);
    } else {
      ScanBody(bs, prefixes, rex, n);
      LowBase(bs, prefixes, n);
    }
  }

  /** Or-ing 1 into a prefix gives no REX byte, and into these opcodes an opcode; gs stays gs. */
  lemma OrOne(b: byte)
    requires IsPrefix(b) || b == 0x80 || b == 0x83 || b == 0xC6
    ensures !IsRex(OrByte(b, 0x1)) && (b == 0x65 ==> OrByte(b, 0x1) == 0x65)
    ensures b == 0x80 || b == 0x83 || b == 0xC6 ==> IsOpcode(OrByte(b, 0x1))
  {}

  lemma RexMissing(bs: seq<byte>)
    requires |bs| == 7 && Decode(bs).Some? && Decode(bs).value.base == Rip && Decode(bs).value.length == 7
             && !IsRex(bs[0])
    ensures !Preserved(Decode(bs).value, Rewritten(bs, RexForm))
  {
    hide OrByte;
    var out := Rewritten(bs, RexForm);
    SevenBytes(bs, [], None, 0);
    OrOne(bs[0]);
    assert out[0] == OrByte(bs[0], 0x1) && out[1] == bs[1] && |out| >= 3;
    NoRex(out, [], None, 0);
    NotOnR15(Decode(bs).value, out);
  }

  lemma GsRexMissing(bs: seq<byte>)
    requires |bs| == 8 && Decode(bs).Some? && Decode(bs).value.base == Rip && Decode(bs).value.length == 8
             && !IsRex(bs[1])
    requires 0x65 in Decode(bs).value.prefixes
    ensures !Preserved(Decode(bs).value, Rewritten(bs, GsRexForm))
  {
    hide OrByte;
    var out := Rewritten(bs, GsRexForm);
    EightBytes(bs);
    OrOne(bs[1]);
    assert out[0] == bs[0] && out[1] == OrByte(bs[1], 0x1) && out[2] == bs[2] && |out| >= 4;
    var cs := out[1..];
    if IsPrefix(bs[0]) {
      ScanPrefix(out, [], None, 0);
      NoRex(cs, [] + [bs[0]], None, 1);
    } else {
      ScanRex(out, [], None, 0);
      NoRex(cs, [], Some(bs[0] - 0x40), 1);
    }
    NotOnR15(Decode(bs).value, out);
  }

  /** For every RIP-relative instruction that a branch of RewRIPInsn takes: the emitted bytes are the same instruction
      on r15 if and only if the branch's assumption holds and the displacement is outside 128..255, where the one-byte
      displacement is sign-extended. */
  lemma RewriteExact(bs: seq<byte>)
    requires Decode(bs).Some? && Decode(bs).value.base == Rip && Decode(bs).value.length == |bs|
    requires Chosen(Decode(bs).value.name, 0x65 in Decode(bs).value.prefixes, |bs|).Some?
    ensures var i := Decode(bs).value;
            var f := Chosen(i.name, 0x65 in i.prefixes, |bs|).value;
            |bs| == FormLength(f) && (Preserved(i, Rewritten(bs, f)) <==> Assumed(bs, f) && !(128 <= i.disp <= 255))
  {
    hide Decode, Rewritten, Preserved, HighReg;
    var i := Decode(bs).value;
    match Chosen(i.name, 0x65 in i.prefixes, |bs|).value
    case PlainForm => PlainExact(bs);
    case GsForm => GsExact(bs);
    case RexForm => if IsRex(bs[0]) { RexExact(bs); } else { RexMissing(bs); }
    case GsRexForm => if IsRex(bs[1]) { EightBytes(bs); GsRexExact(bs); } else { GsRexMissing(bs); }
  }

  /** The bytes are a RIP-relative instruction of this name, and of nothing more, with a gs override or without. */
  predicate Encodes(bs: seq<byte>, name: Name, gs: bool) {
    Decode(bs).Some? && var i := Decode(bs).value;
      i.name == name && (gs <==> 0x65 in i.prefixes) && i.base == Rip && i.length == |bs|
  }

  /** The longer of the two sizes has its REX byte, the shorter no ah, ch, dh or bh, and the displacement is not 128 to
      255. */
  predicate Rewritable(bs: seq<byte>, gs: bool)
    requires Decode(bs).Some? && 6 <= |bs| <= 8
  {
    var i, k := Decode(bs).value, if gs then 1 else 0;
    && !(128 <= i.disp <= 255)
    && if |bs| == 7 + k then IsRex(bs[k]) else i.reg.Gpr?
  }

  /** The register operand of six decoded bytes without a REX byte. */
  lemma PlainReg(cs: seq<byte>, prefixes: seq<byte>, n: nat)
    requires |cs| == 6 && Scan(cs, prefixes, None, n).Some? && Scan(cs, prefixes, None, n).value.base == Rip
    ensures Scan(cs, prefixes, None, n).value.reg.HighByte? <==> HighReg(cs[0], cs[1])
  {
    hide Scan, HighReg, NameOf, ImmSize, Signed32, SignedByte, Mod, Rm, IsOpcode;
    SixDecoded(cs, prefixes, None, n);
  }

  /** For every RIP-relative instruction of the five names: without gs it is taken in six or seven bytes, with gs if it
      is mov or add in seven or eight, and the emitted bytes are then the same instruction on r15 if and only if it is
      rewritable. */
  lemma RewriteTaken(bs: seq<byte>, name: Name, gs: bool)
    requires Encodes(bs, name, gs)
    ensures Chosen(name, gs, |bs|).Some? <==>
            if gs then (name == EMov || name == EAdd) && (|bs| == 7 || |bs| == 8) else |bs| == 6 || |bs| == 7
    ensures Chosen(name, gs, |bs|).Some? ==>
              |bs| == FormLength(Chosen(name, gs, |bs|).value)
              && (Preserved(Decode(bs).value, Rewritten(bs, Chosen(name, gs, |bs|).value)) <==> Rewritable(bs, gs))
  {
    hide Decode, Scan, Rewritten, Preserved, HighReg;
    if Chosen(name, gs, |bs|).Some? {
      RewriteExact(bs);
      match Chosen(name, gs, |bs|).value
      case PlainForm =>
        DecodeIs(bs);
        PlainReg(bs, [], 0);
      case GsForm =>
        GsPrefix(bs);
        GsParts(bs);
        PlainReg(bs[1..], [0x65], 1);
      case _ =>
    }
  }

  /** The opcodes without an immediate, by the opcode map. */
  predicate OpcodeOf(name: Name, op: byte) {
    match name
    case EAdd => op <= 0x03
    case ESub => 0x28 <= op <= 0x2B
    case ECmp => 0x38 <= op <= 0x3B
    case EMov => (0x88 <= op <= 0x8C) || op == 0x8E
    case ELea => op == 0x8D
  }

  /** The opcodes with an immediate, told apart by the register field of the ModRM byte. */
  predicate ImmOpcodeOf(name: Name, op: byte, digit: nat) {
    match name
    case EAdd => op in {0x80, 0x81, 0x83} && digit == 0
    case ESub => op in {0x80, 0x81, 0x83} && digit == 5
    case ECmp => op in {0x80, 0x81, 0x83} && digit == 7
    case EMov => op in {0xC6, 0xC7} && digit == 0
    case ELea => false
  }

  /** The size of the immediate: a byte, or a double word that the operand-size prefix halves unless REX.W is there. */
  function ImmBytes(op: byte, short: bool, wide: bool): nat {
    if op < 0x80 || 0x88 <= op < 0xC6 then 0
    else if op != 0x81 && op != 0xC7 then 1
    else if wide || !short then 4
    else 2
  }

  lemma NamesAre(op: byte, digit: nat, name: Name)
    ensures NameOf(op, digit) == Some(name) <==> OpcodeOf(name, op) || ImmOpcodeOf(name, op, digit)
  {}

  lemma ImmIs(op: byte, digit: nat, name: Name, short: bool, wide: bool)
    requires OpcodeOf(name, op) || ImmOpcodeOf(name, op, digit)
    ensures ImmSize(op, short, wide) == ImmBytes(op, short, wide)
  {}

  lemma FieldsAre(m: byte)
    requires m < 64 && m % 8 == 5
    ensures Mod(m) == 0 && Rm(m) == 5 && RegField(m) == m / 8
  {}

  /** The register operand is ah, ch, dh or bh for the register fields 4 to 7 of the even opcodes below 0x8C but 0x80,
      if there is no REX byte. */
  lemma RegisterIs(op: byte, m: byte, rex: Option<nat>, name: Name)
    requires (OpcodeOf(name, op) || ImmOpcodeOf(name, op, m / 8)) && m < 64 && (rex.Some? ==> rex.value < 16)
    ensures RegOf(op, m, rex)
            == if rex.None? && op % 2 == 0 && op < 0x8C && op != 0x80 && m / 8 >= 4 then HighByte(m / 8 - 4)
               else Gpr(m / 8 + if rex.Some? && rex.value % 8 >= 4 then 8 else 0)
  {}

  /** A body with one of these opcodes, mod 0 and rm 5, whatever the prefixes. */
  lemma BodyEncodes(op: byte, m: byte, d: seq<byte>, imm: seq<byte>, name: Name, prefixes: seq<byte>, rex: Option<nat>,
                    n: nat)
    requires (OpcodeOf(name, op) || ImmOpcodeOf(name, op, m / 8)) && m < 64 && m % 8 == 5 && |d| == 4
    requires (rex.Some? ==> rex.value < 16) && |imm| == ImmBytes(op, 0x66 in prefixes, rex.Some? && rex.value >= 8)
    ensures DecodeBody([op, m] + d + imm, prefixes, rex, n)
            == Some(Insn(name, prefixes, rex.Some? && rex.value >= 8, op,
                         if rex.None? && op % 2 == 0 && op < 0x8C && op != 0x80 && m / 8 >= 4 then HighByte(m / 8 - 4)
                         else Gpr(m / 8 + if rex.Some? && rex.value % 8 >= 4 then 8 else 0),
                         Rip, if d[3] >= 128 then Num(d) - Pow256(4) else Num(d), imm, n + 6 + |imm|))
  {
    hide Num, Pow256, Signed32, NameOf, ImmSize, ImmBytes, Mod, Rm, RegField, RegOf, OpcodeOf, ImmOpcodeOf;
    DispNum(d);
    NamesAre(op, m / 8, name);
    ImmIs(op, m / 8, name, 0x66 in prefixes, rex.Some? && rex.value >= 8);
    FieldsAre(m);
    RegisterIs(op, m, rex, name);
    var b := [op, m] + d + imm;
    assert b[0] == op && b[1] == m && b[2..6] == d && b[6..6 + |imm|] == imm;
  }

  lemma DispNum(d: seq<byte>)
    requires |d| == 4
    ensures Signed32(d) == if d[3] >= 128 then Num(d) - Pow256(4) else Num(d)
  {
    assert d[1..][1..] == d[2..] && d[2..][1..] == d[3..] && d[3..][1..] == [];
    var c: int, e: int := d[2], d[3];
    assert Num(d[3..]) == e && Num(d[2..]) == c + 256 * e;
    assert Pow256(4) == 0x1_0000_0000;
  }

  /** Segment overrides, operand and address size, lock and repeat, by their groups. */
  predicate Legacy(b: byte) {
    (0x26 <= b <= 0x3E && b % 8 == 6) || 0x64 <= b <= 0x67 || b == 0xF0 || b == 0xF2 || b == 0xF3
  }

  /** Any number of prefixes before an instruction are read as its prefixes. */
  lemma {:induction false} PrefixesRead(ps: seq<byte>, rest: seq<byte>, prefixes: seq<byte>, n: nat)
    requires forall b :: b in ps ==> Legacy(b)
    ensures Scan(ps + rest, prefixes, None, n) == Scan(rest, prefixes + ps, None, n + |ps|)
  {
    hide DecodeBody, Scan;
    if ps == [] {
      assert ps + rest == rest && prefixes + ps == prefixes;
    } else {
      var bs := ps + rest;
      assert ps[0] in ps && IsPrefix(ps[0]);
      assert bs[0] == ps[0] && bs[1..] == ps[1..] + rest;
      ScanPrefix(bs, prefixes, None, n);
      PrefixesRead(ps[1..], rest, prefixes + [ps[0]], n + 1);
      assert prefixes + [ps[0]] + ps[1..] == prefixes + ps;
    }
  }

  /** Opcode, ModRM and displacement make such an instruction alone, after a REX byte, after gs, and after both. */
  lemma FormsEncode(op: byte, m: byte, d: seq<byte>, name: Name, x: byte)
    requires OpcodeOf(name, op) && m < 64 && m % 8 == 5 && |d| == 4 && 0x40 <= x < 0x50
    ensures Encodes([op, m] + d, name, false) && Encodes([x] + ([op, m] + d), name, false)
    ensures Encodes([0x65] + ([op, m] + d), name, true) && Encodes([0x65] + ([x] + ([op, m] + d)), name, true)
  {
    var b := [op, m] + d;
    hide DecodeBody, Scan, Num, Pow256;
    assert b + [] == b;
    assert b[0] == op && !IsPrefix(op) && !IsRex(op);
    FirstIs(x, b);
    FirstIs(0x65, b);
    FirstIs(0x65, [x] + b);
    assert [] + [0x65 as byte] == [0x65];
    BodyEncodes(op, m, d, [], name, [], None, 0);
    BodyEncodes(op, m, d, [], name, [], Some(x - 0x40), 1);
    BodyEncodes(op, m, d, [], name, [0x65], None, 1);
    BodyEncodes(op, m, d, [], name, [0x65], Some(x - 0x40), 2);
    ScanBody(b, [], None, 0);
    ScanRex([x] + b, [], None, 0);
    ScanBody(b, [], Some(x - 0x40), 1);
    ScanPrefix([0x65] + b, [], None, 0);
    ScanBody(b, [0x65], None, 1);
    ScanPrefix([0x65] + ([x] + b), [], None, 0);
    ScanRex([x] + b, [0x65], None, 1);
    ScanBody(b, [0x65], Some(x - 0x40), 2);
  }

  lemma DecodeIs(bs: seq<byte>)
    ensures Decode(bs) == Scan(bs, [], None, 0)
  {}

  // ---- what goes wrong ----

  const LEA: seq<byte> := [0x48, 0x8D, 0x05, 0x80, 0, 0, 0]
  const LEA_OUT: seq<byte> := [0x49, 0x8D, 0x47, 0x80]
  const LEA_INSN := Insn(ELea, [], true, 0x8D, Gpr(0), Rip, 0x80, [], 7)

  lemma LeaDecoded()
    ensures Decode(LEA) == Some(LEA_INSN)
    ensures Decode(LEA_OUT) == Some(LEA_INSN.(base := Reg(15), disp := -0x80, length := 4))
  {
    hide Scan;
    var cs, ds: seq<byte> := [0x8D, 0x05, 0x80, 0, 0, 0], [0x8D, 0x47, 0x80];
    assert LEA[1..] == cs && LEA_OUT[1..] == ds;
    ScanRex(LEA, [], None, 0);
    ScanBody(cs, [], Some(8), 1);
    ScanRex(LEA_OUT, [], None, 0);
    ScanBody(ds, [], Some(9), 1);
    assert cs[2..6] == [0x80, 0, 0, 0] && cs[6..6] == [] && ds[3..3] == [];
  }

  lemma LeaRewritten()
    ensures Rewritten(LEA, RexForm) == LEA_OUT
  {
    hide OrByte;
    RexBits(0x48);
    ModRMOr(0x05);
    assert Disp(LEA, RexForm) == [0x80, 0, 0, 0];
  }

  /** lea rax, [rip + 0x80] turns into lea rax, [r15 - 0x80]. */
  lemma RewriteMovesAddress()
    ensures Decode(LEA) == Some(LEA_INSN) && Chosen(ELea, false, 7) == Some(RexForm)
    ensures Rewritten(LEA, RexForm) == LEA_OUT
    ensures Decode(LEA_OUT) == Some(LEA_INSN.(base := Reg(15), disp := -0x80, length := 4))
    ensures !Preserved(LEA_INSN, LEA_OUT)
  {
    hide Decode, Rewritten, Preserved;
    LeaDecoded();
    LeaRewritten();
    RewriteExact(LEA);
  }

  const CMP: seq<byte> := [0x83, 0x3D, 0, 0, 0, 0, 5]
  const CMP_OUT: seq<byte> := [0x83, 0x3D, 0x82, 0, 0, 0, 5]
  const CMP_INSN := Insn(ECmp, [], false, 0x83, Gpr(7), Rip, 0, [5], 7)

  lemma CmpDecoded()
    ensures Decode(CMP) == Some(CMP_INSN) && Decode(CMP_OUT) == Some(CMP_INSN.(disp := 0x82))
  {
    hide Scan;
    ScanBody(CMP, [], None, 0);
    ScanBody(CMP_OUT, [], None, 0);
    assert CMP[2..6] == [0, 0, 0, 0] && CMP[6..7] == [5];
    assert CMP_OUT[2..6] == [0x82, 0, 0, 0] && CMP_OUT[6..7] == [5];
  }

  lemma CmpRewritten()
    ensures Rewritten(CMP, RexForm) == CMP_OUT
  {
    assert OrByte(0x83, 0x1) == 0x83 && OrByte(0, 0x82) == 0x82;
    hide OrByte;
    assert Disp(CMP, RexForm) == [0, 0, 0, 5];
  }

  /** cmp dword ptr [rip], 5 is seven bytes without a REX byte: its displacement is changed, and it stays on rip. */
  lemma RewriteCorrupts()
    ensures Decode(CMP) == Some(CMP_INSN) && Chosen(ECmp, false, 7) == Some(RexForm)
    ensures Rewritten(CMP, RexForm) == CMP_OUT && Decode(CMP_OUT) == Some(CMP_INSN.(disp := 0x82))
    ensures !Preserved(CMP_INSN, CMP_OUT)
  {
    hide Decode, Rewritten, Preserved;
    CmpDecoded();
    CmpRewritten();
    RewriteExact(CMP);
  }

  const MOVAH: seq<byte> := [0x8A, 0x25, 0, 0, 0, 0]
  const MOVAH_OUT: seq<byte> := [0x41, 0x8A, 0x27]
  const MOVAH_INSN := Insn(EMov, [], false, 0x8A, HighByte(0), Rip, 0, [], 6)

  lemma MovAhDecoded()
    ensures Decode(MOVAH) == Some(MOVAH_INSN)
    ensures Decode(MOVAH_OUT) == Some(MOVAH_INSN.(reg := Gpr(4), base := Reg(15), length := 3))
  {
    hide Scan;
    var cs: seq<byte> := [0x8A, 0x27];
    assert MOVAH_OUT[1..] == cs;
    ScanBody(MOVAH, [], None, 0);
    ScanRex(MOVAH_OUT, [], None, 0);
    ScanBody(cs, [], Some(1), 1);
    assert MOVAH[2..6] == [0, 0, 0, 0] && MOVAH[6..6] == [] && cs[2..2] == [];
  }

  lemma MovAhRewritten()
    ensures Rewritten(MOVAH, PlainForm) == MOVAH_OUT
  {
    hide OrByte;
    ModRMOr(0x25);
    assert Disp(MOVAH, PlainForm) == [0, 0, 0, 0];
  }

  /** mov ah, [rip] turns into mov spl, [r15]: the REX byte that r15 needs renames the byte register. */
  lemma RewriteRenames()
    ensures Decode(MOVAH) == Some(MOVAH_INSN) && Chosen(EMov, false, 6) == Some(PlainForm)
    ensures Rewritten(MOVAH, PlainForm) == MOVAH_OUT
    ensures Decode(MOVAH_OUT) == Some(MOVAH_INSN.(reg := Gpr(4), base := Reg(15), length := 3))
    ensures !Preserved(MOVAH_INSN, MOVAH_OUT)
  {
    hide Decode, Rewritten, Preserved;
    MovAhDecoded();
    MovAhRewritten();
    RewriteExact(MOVAH);
  }

  // ---- writing the bytes ----

  /** A buffer filled from a place on. */
  method CopyInto(dst: array<byte>, at: nat, src: seq<byte>)
    requires at + |src| <= dst.Length
    modifies dst
    ensures forall k {:trigger dst[k]} :: at <= k < at + |src| ==> dst[k] == src[k - at]
    ensures forall k :: 0 <= k < dst.Length && !(at <= k < at + |src|) ==> dst[k] == old(dst[k])
  {
    var i := 0;
    while i < |src|
      invariant 0 <= i <= |src|
      invariant forall k :: 0 <= k < i ==> dst[at + k] == src[k]
      invariant forall k :: 0 <= k < dst.Length && !(at <= k < at + i) ==> dst[k] == old(dst[k])
    {
      dst[at + i] := src[i];
      i := i + 1;
    }
  }

  /** A buffer filled from its start on. */
  method CopyFront(dst: array<byte>, src: seq<byte>)
    requires |src| <= dst.Length
    modifies dst
    ensures dst[..|src|] == src && dst[|src|..] == old(dst[|src|..])
  {
    CopyInto(dst, 0, src);
  }

  /** A ModRM byte and a displacement behind the prefixes and opcode of the new instruction, place by place. */
  lemma Prepared(buf: seq<byte>, a: seq<byte>, f: Form, m: nat)
    requires |buf| == 12 && |a| >= 8 && m == (if f == GsForm || f == GsRexForm then 3 else 2)
    requires f == RexForm ==> buf[0] == OrByte(a[0], 0x1) && buf[1] == a[1]
    requires f == PlainForm ==> buf[0] == 0x41 && buf[1] == a[0]
    requires f == GsForm ==> buf[0] == a[0] && buf[1] == 0x41 && buf[2] == a[1]
    requires f == GsRexForm ==> buf[0] == a[0] && buf[1] == OrByte(a[1], 0x1) && buf[2] == a[2]
    requires var o := OpcodeAt(f);
             buf[m] == a[o + 1] && buf[m + 1] == a[o + 2] && buf[m + 2] == a[o + 3] && buf[m + 3] == a[o + 4]
             && buf[m + 4] == a[o + 5]
    ensures buf[..m] == Head(a[..FormLength(f)], f)
    ensures buf[m] == a[..FormLength(f)][OpcodeAt(f) + 1] && buf[m + 1..m + 5] == Disp(a[..FormLength(f)], f)
  {
    hide OrByte;
    var bs, o := a[..FormLength(f)], OpcodeAt(f);
    var d, e := buf[m + 1..m + 5], Disp(bs, f);
    assert d[0] == e[0] && d[1] == e[1] && d[2] == e[2] && d[3] == e[3];
    assert m == 2 ==> buf[..m] == [buf[0], buf[1]];
    assert m == 3 ==> buf[..m] == [buf[0], buf[1], buf[2]];
  }

  /** The copies and prefix changes that RewRIPInsn begins with; m is where the ModRM byte ends up. */
  method Prepare(orig_insn_addr: seq<byte>, f: Form) returns (orig_insn: array<byte>, m: nat)
    requires |orig_insn_addr| >= 8
    ensures fresh(orig_insn) && orig_insn.Length == 12 && 2 <= m <= 3
    ensures var bs := orig_insn_addr[..FormLength(f)];
            orig_insn[..m] == Head(bs, f) && orig_insn[m] == bs[OpcodeAt(f) + 1]
                && orig_insn[m + 1..m + 5] == Disp(bs, f)
  {
    hide OrByte, Head, Disp;
    orig_insn := new byte[12](_ => 0);
    var a := orig_insn_addr[..8];
    CopyInto(orig_insn, 0, a);
    m := if f == GsForm || f == GsRexForm then 3 else 2;
    match f {
      case GsForm =>
        CopyInto(orig_insn, 2, orig_insn_addr[1..7]);
        orig_insn[1] := 0x41;
      case GsRexForm =>
        orig_insn[1] := OrByte(orig_insn[1], 0x1);
      case RexForm =>
        orig_insn[0] := OrByte(orig_insn[0], 0x1);
      case PlainForm =>
        CopyInto(orig_insn, 1, orig_insn_addr[..6]);
        orig_insn[0] := 0x41;
    }
    Prepared(orig_insn[..], orig_insn_addr, f, m);
  }

  /** RewRIPInsn of mov, cmp, lea, add and sub: a branch is chosen by name, gs override and size; ok is false where it
      makes a hypercall. Where the bytes are an instruction of that name and size, what is written is the same one on
      r15 just when it is rewritable. At least eight bytes are readable at the instruction. */
  method RewRIPInsn(T_insn: array<byte>, orig_insn_addr: seq<byte>, name: Name, gs: bool, size: nat)
    returns (ok: bool, n: nat)
    requires |orig_insn_addr| >= 8 && T_insn.Length >= 8
    modifies T_insn
    ensures ok <==>
            if gs then (name == EMov || name == EAdd) && (size == 7 || size == 8) else size == 6 || size == 7
    ensures ok == Chosen(name, gs, size).Some? && n <= 8
    ensures ok && Encodes(orig_insn_addr[..size], name, gs) ==>
              (Preserved(Decode(orig_insn_addr[..size]).value, T_insn[..n])
               <==> Rewritable(orig_insn_addr[..size], gs))
    ensures !ok ==> n == 0 && T_insn[..] == old(T_insn[..])
    ensures ok ==> size <= 8 && FormLength(Chosen(name, gs, size).value) == size
                   && T_insn[..n] == Rewritten(orig_insn_addr[..size], Chosen(name, gs, size).value)
                   && T_insn[n..] == old(T_insn[n..])
  {
    hide OrByte, Head, Tail, Disp, Encodes, Rewritable, Preserved, Decode;
    if Chosen(name, gs, size).None? {
      return false, 0;
    }
    ok := true;
    var f := Chosen(name, gs, size).value;
    var orig_insn, m := Prepare(orig_insn_addr, f);
    ghost var was := orig_insn[..];
    if orig_insn[m + 1] == 0 && orig_insn[m + 2] == 0 && orig_insn[m + 3] == 0 && orig_insn[m + 4] == 0 {
      orig_insn[m] := OrByte(orig_insn[m], 0x02);
      n := m + 1;
    } else if orig_insn[m + 1] != 0 && orig_insn[m + 2] == 0 && orig_insn[m + 3] == 0 && orig_insn[m + 4] == 0 {
      orig_insn[m] := OrByte(orig_insn[m], 0x42);
      n := m + 2;
    } else {
      orig_insn[m] := OrByte(orig_insn[m], 0x82);
      n := m + 5;
    }
    TailAt(was, m, n, orig_insn[m]);
    assert orig_insn[..] == was[m := orig_insn[m]];
    assert orig_insn[..n] == was[m := orig_insn[m]][..n];
    CopyFront(T_insn, orig_insn[..n]);
    if Encodes(orig_insn_addr[..size], name, gs) {
      RewriteTaken(orig_insn_addr[..size], name, gs);
    }
  }

  /** The bytes up to n, once the ModRM byte at m is b. */
  lemma TailAt(was: seq<byte>, m: nat, n: nat, b: byte)
    requires |was| == 12 && m <= 3
    requires var zero := was[m + 2] == 0 && was[m + 3] == 0 && was[m + 4] == 0;
             if was[m + 1] == 0 && zero then n == m + 1 && b == OrByte(was[m], 0x02)
             else if zero then n == m + 2 && b == OrByte(was[m], 0x42)
             else n == m + 5 && b == OrByte(was[m], 0x82)
    ensures was[m := b][..n] == was[..m] + Tail(was[m], was[m + 1..m + 5])
  {
    hide OrByte;
    var d, new' := was[m + 1..m + 5], was[m := b];
    var t := Tail(was[m], d);
    assert d[0] == was[m + 1] && d[1] == was[m + 2] && d[2] == was[m + 3] && d[3] == was[m + 4];
    assert new'[m..n] == t;
    assert new'[..n] == new'[..m] + new'[m..n];
    assert new'[..m] == was[..m];
  }

  /** InsertInsnUpdateR15: the ten bytes of mov r15, imm64. */
  method InsertInsnUpdateR15(nt_t_page: array<byte>, newR15: nat)
    requires nt_t_page.Length >= 10 && newR15 < ULONG
    modifies nt_t_page
    ensures nt_t_page[..10] == [0x49, 0xBF] + ToBytes(newR15, 8)
    ensures nt_t_page[10..] == old(nt_t_page[10..])
  {
    var insn := new byte[10](_ => 0);
    insn[0] := 0x49;
    insn[1] := 0xBF;
    var i := 2;
    var shifted := newR15;
    ghost var bytes := ToBytes(newR15, 8);
    while i < 10
      invariant fresh(insn) && nt_t_page[..] == old(nt_t_page[..])
      invariant 2 <= i <= 10 && insn[0] == 0x49 && insn[1] == 0xBF
      invariant ToBytes(shifted, 10 - i) == bytes[i - 2..]
      invariant forall k :: 2 <= k < i ==> insn[k] == bytes[k - 2]
    {
      assert ToBytes(shifted, 10 - i) == [shifted % 256] + ToBytes(shifted / 256, 9 - i);
      assert bytes[i - 2..][1..] == bytes[i - 1..];
      insn[i] := shifted % 256;
      shifted := shifted / 256;
      i := i + 1;
    }
    assert insn[..] == [0x49, 0xBF] + bytes;
    CopyFront(nt_t_page, insn[..]);
  }

  // ---- the emitted pair ----

  /** mov r64, imm64 with REX.W and REX.B: which register is loaded, and with what. */
  function DecodeLoad(bs: seq<byte>): Option<(nat, nat)> {
    if |bs| >= 10 && IsRex(bs[0]) && RexW(bs[0] - 0x40) && 0xB8 <= bs[1] < 0xC0 then
      Some((bs[1] - 0xB8 + 8 * RexB(bs[0] - 0x40), Num(bs[2..10])))
    else None
  }

  /** The load puts the address of the next instruction into r15, which is what Preserved takes r15 to hold. */
  lemma LoadSetsR15(next: nat)
    requires next < ULONG
    ensures DecodeLoad([0x49, 0xBF] + ToBytes(next, 8)) == Some((15, next))
  {
    var bs := [0x49, 0xBF] + ToBytes(next, 8);
    assert bs[2..10] == ToBytes(next, 8);
    Pow256Eight();
    NumOfToBytes(next, 8);
  }
}
