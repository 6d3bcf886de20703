/** The bits of one 32-bit chunk word (MemState.cpp:54-57, 84-90, 118-123). */
module Words {
  const ALL_ONES: bv32 := 0xFFFF_FFFF

  /** A shift amount. */
  function Amount(k: nat): bv6
    requires k <= 32
  {
    k as bv6
  }

  predicate BitAt(w: bv32, k: bv6)
    requires k < 32
  {
    (w >> k) & 1 == 1
  }

  /** Bit k of a word. */
  predicate Bit(w: bv32, k: nat)
    requires k < 32
  {
    AmountNext(k);
    BitAt(w, Amount(k))
  }

  function MaskOf(h: bv6, t: bv6): bv32
    requires h <= 32 && t <= 32
  {
    (ALL_ONES << h) & (ALL_ONES >> t)
  }

  /** The word with the s bits from h on set. */
  function Mask(h: nat, s: nat): bv32
    requires h < 32 && h + s <= 32
  {
    AmountOrder(h, 32);
    AmountRest(h + s);
    MaskOf(Amount(h), Amount(32 - h - s))
  }

  // ---- shift amounts follow the integers ----

  lemma AmountNext(k: nat)
    requires k < 32
    ensures Amount(k + 1) == Amount(k) + 1 && Amount(k) < 32
  {}

  lemma AmountEnds()
    ensures Amount(0) == 0 && Amount(32) == 32
  {}

  lemma {:induction false} AmountRest(t: nat)
    requires t <= 32
    ensures Amount(32 - t) == 32 - Amount(t) && Amount(t) <= 32 && Amount(32 - t) <= 32
  {
    hide *;
    AmountEnds();
    if t > 0 {
      AmountRest(t - 1);
      AmountNext(t - 1);
      AmountNext(32 - t);
    }
  }

  lemma {:induction false} AmountOrder(k: nat, j: nat)
    requires k <= j <= 32
    ensures Amount(j) <= 32 && if k < j then Amount(k) < Amount(j) else Amount(k) == Amount(j)
  {
    hide *;
    AmountEnds();
    if k < j {
      AmountNext(j - 1);
      if k < j - 1 {
        AmountOrder(k, j - 1);
      }
    } else if j > 0 {
      AmountNext(j - 1);
    }
  }

  lemma AmountBefore(k: nat, j: nat)
    requires k <= 32 && j <= 32
    ensures Amount(k) < Amount(j) <==> k < j
  {
    hide *;
    if k <= j {
      AmountOrder(k, j);
    } else {
      AmountOrder(j, k);
    }
  }

  // ---- single bits of shifts and of and, or, not ----

  lemma LeftShiftBit(h: bv6, k: bv6)
    requires h <= 32 && k < 32
    ensures BitAt(ALL_ONES << h, k) <==> h <= k
  {}

  lemma RightShiftBit(e: bv6, k: bv6)
    requires e <= 32 && k < 32
    ensures BitAt(ALL_ONES >> 32 - e, k) <==> k < e
  {}

  lemma AndBitAt(a: bv32, b: bv32, k: bv6)
    requires k < 32
    ensures BitAt(a & b, k) <==> BitAt(a, k) && BitAt(b, k)
  {}

  lemma MaskOfBit(h: bv6, e: bv6, k: bv6)
    requires h <= 32 && e <= 32 && k < 32
    ensures BitAt(MaskOf(h, 32 - e), k) <==> h <= k && k < e
  {
    hide BitAt;
    LeftShiftBit(h, k);
    RightShiftBit(e, k);
    AndBitAt(ALL_ONES << h, ALL_ONES >> 32 - e, k);
  }

  lemma BitIs(w: bv32, k: nat)
    requires k < 32
    ensures Amount(k) < 32 && (Bit(w, k) <==> BitAt(w, Amount(k)))
  {
    AmountNext(k);
  }

  lemma MaskIs(h: nat, s: nat)
    requires h < 32 && h + s <= 32
    ensures Amount(h) <= 32 && Amount(32 - h - s) <= 32 && Mask(h, s) == MaskOf(Amount(h), Amount(32 - h - s))
  {
    AmountOrder(h, 32);
    AmountRest(h + s);
  }

  /** The mask has exactly the bits h..h+s. */
  lemma MaskBit(h: nat, s: nat, k: nat)
    requires h < 32 && h + s <= 32 && k < 32
    ensures Bit(Mask(h, s), k) <==> h <= k < h + s
  {
    hide *;
    MaskIs(h, s);
    BitIs(Mask(h, s), k);
    AmountRest(h + s);
    AmountBefore(k, h);
    AmountBefore(k, h + s);
    MaskOfBit(Amount(h), Amount(h + s), Amount(k));
  }

  function Marked(w: bv32, m: bv32): bv32 { w | m }
  function Common(w: bv32, m: bv32): bv32 { w & m }
  function Complement(m: bv32): bv32 { !m }
  function Unmarked(w: bv32, m: bv32): bv32 { Common(w, Complement(m)) }

  lemma MarkedBit(w: bv32, m: bv32, k: bv6)
    requires k < 32
    ensures BitAt(Marked(w, m), k) <==> BitAt(w, k) || BitAt(m, k)
  {}

  lemma CommonBit(w: bv32, m: bv32, k: bv6)
    requires k < 32
    ensures BitAt(Common(w, m), k) <==> BitAt(w, k) && BitAt(m, k)
  {}

  lemma ComplementBit(m: bv32, k: bv6)
    requires k < 32
    ensures BitAt(Complement(m), k) <==> !BitAt(m, k)
  {}

  lemma UnmarkedBit(w: bv32, m: bv32, k: bv6)
    requires k < 32
    ensures BitAt(Unmarked(w, m), k) <==> BitAt(w, k) && !BitAt(m, k)
  {
    hide BitAt, Common, Complement;
    CommonBit(w, Complement(m), k);
    ComplementBit(m, k);
  }

  /** Marking, unmarking and testing the bits h..h+s of a word. */
  lemma MarkBits(w: bv32, h: nat, s: nat, k: nat)
    requires h < 32 && h + s <= 32 && k < 32
    ensures Bit(Marked(w, Mask(h, s)), k) <==> Bit(w, k) || h <= k < h + s
    ensures Bit(Unmarked(w, Mask(h, s)), k) <==> Bit(w, k) && !(h <= k < h + s)
    ensures Bit(Common(w, Mask(h, s)), k) <==> Bit(w, k) && h <= k < h + s
  {
    hide *;
    MaskBit(h, s, k);
    MarkedWith(w, Mask(h, s), k);
  }

  lemma NoBits(w: bv32)
    requires forall k: bv6 :: k < 32 ==> !BitAt(w, k)
    ensures w == 0
  {
    assert !BitAt(w, 0) && !BitAt(w, 1) && !BitAt(w, 2) && !BitAt(w, 3) && !BitAt(w, 4) && !BitAt(w, 5);
    assert !BitAt(w, 6) && !BitAt(w, 7) && !BitAt(w, 8) && !BitAt(w, 9) && !BitAt(w, 10) && !BitAt(w, 11);
    assert !BitAt(w, 12) && !BitAt(w, 13) && !BitAt(w, 14) && !BitAt(w, 15) && !BitAt(w, 16) && !BitAt(w, 17);
    assert !BitAt(w, 18) && !BitAt(w, 19) && !BitAt(w, 20) && !BitAt(w, 21) && !BitAt(w, 22) && !BitAt(w, 23);
    assert !BitAt(w, 24) && !BitAt(w, 25) && !BitAt(w, 26) && !BitAt(w, 27) && !BitAt(w, 28) && !BitAt(w, 29);
    assert !BitAt(w, 30) && !BitAt(w, 31);
  }

  /** A word is zero exactly when none of its bits is set. */
  lemma ZeroWord(w: bv32)
    ensures w == 0 <==> forall k: nat :: k < 32 ==> !Bit(w, k)
  {
    if w == 0 {
      forall k: nat | k < 32 ensures !Bit(w, k) {
        BitIs(w, k);
      }
    } else if forall k: nat :: k < 32 ==> !Bit(w, k) {
      forall v: bv6 | v < 32 ensures !BitAt(w, v) {
        BitIs(w, v as int);
      }
      NoBits(w);
    }
  }

  /** 1 << i */
  function OneBit(i: nat): bv32
    requires i < 32
  {
    AmountNext(i);
    1 << Amount(i)
  }

  lemma OneBitIs(i: nat, k: nat)
    requires i < 32 && k < 32
    ensures Bit(OneBit(i), k) <==> i == k
  {
    BitIs(OneBit(i), k);
    AmountNext(i);
    if i <= k {
      AmountOrder(i, k);
    } else {
      AmountOrder(k, i);
    }
    hide BitAt, Amount, Bit;
  }

  lemma MarkedWith(w: bv32, m: bv32, k: nat)
    requires k < 32
    ensures Bit(Marked(w, m), k) <==> Bit(w, k) || Bit(m, k)
    ensures Bit(Unmarked(w, m), k) <==> Bit(w, k) && !Bit(m, k)
    ensures Bit(Common(w, m), k) <==> Bit(w, k) && Bit(m, k)
  {
    hide *;
    BitIs(w, k);
    BitIs(m, k);
    BitIs(Marked(w, m), k);
    BitIs(Unmarked(w, m), k);
    BitIs(Common(w, m), k);
    MarkedBit(w, m, Amount(k));
    UnmarkedBit(w, m, Amount(k));
    CommonBit(w, m, Amount(k));
  }

  lemma LowBitsAt(k: bv6)
    requires k < 32
    ensures BitAt(0xff, k) <==> k < 8
    ensures BitAt(0xF, k) <==> k < 4
    ensures BitAt(0x3, k) <==> k < 2
    ensures BitAt(0x1, k) <==> k < 1
  {}

  lemma SmallAmounts()
    ensures Amount(8) == 8 && Amount(4) == 4 && Amount(2) == 2 && Amount(1) == 1
  {}

  lemma BelowAmount(n: nat, k: nat)
    requires n <= 32 && k < 32
    ensures Amount(k) < Amount(n) <==> k < n
  {
    hide *;
    if k < n {
      AmountOrder(k, n);
    } else {
      AmountOrder(n, k);
    }
  }

  /** The low n bits of the masks for 1, 2, 4 and 8 bytes. */
  lemma LowBits(k: nat)
    requires k < 32
    ensures (Bit(0xff, k) <==> k < 8) && (Bit(0xF, k) <==> k < 4) && (Bit(0x3, k) <==> k < 2)
            && (Bit(0x1, k) <==> k < 1)
  {
    hide *;
    SmallAmounts();
    BelowAmount(8, k);
    BelowAmount(4, k);
    BelowAmount(2, k);
    BelowAmount(1, k);
    BitIs(0xff, k);
    BitIs(0xF, k);
    BitIs(0x3, k);
    BitIs(0x1, k);
    LowBitsAt(Amount(k));
  }
}
