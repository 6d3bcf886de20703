/** The chunk bitmap that says which bytes of memory are symbolic (MemState.h:14-63, MemState.cpp:24-133). */
module Bitmap {
  import opened Words
  import opened Addresses

  /** aligned_addr + SYMEM_BLOCK_SIZE, as a ulong. */
  function NextChunk(k: int): int { if k + BLOCK == ULONG then 0 else k + BLOCK }

  /** Byte b is one of the size bytes from addr on; addresses go round at the end of the address space. */
  predicate InSpan(b: int, addr: int, size: int) {
    (if addr <= b then b - addr else b - addr + ULONG) < size
  }

  /** The chunk address 32 bytes below, as a ulong. */
  function PrevChunk(k: int): int { if k == 0 then ULONG - BLOCK else k - BLOCK }

  predicate IsAddr(a: int) { 0 <= a < ULONG }

  /** The part of a span that lies in its first chunk. */
  lemma SpanInChunk(b: int, addr: int, s: int)
    requires IsAddr(b) && IsAddr(addr) && addr % BLOCK + s <= BLOCK
    ensures InSpan(b, addr, s) <==> Align(b) == Align(addr) && addr % BLOCK <= b % BLOCK < addr % BLOCK + s
  {}

  lemma SpanSplits(addr: int, size: int)
    requires IsAddr(addr) && BLOCK < addr % BLOCK + size < ULONG
    ensures var s := BLOCK - addr % BLOCK;
            forall b {:trigger InSpan(b, addr, size)} :: IsAddr(b) ==>
              (InSpan(b, addr, size) <==> InSpan(b, addr, s) || InSpan(b, NextChunk(Align(addr)), size - s))
  {
    forall b | IsAddr(b)
      ensures var s := BLOCK - addr % BLOCK;
              InSpan(b, addr, size) <==> InSpan(b, addr, s) || InSpan(b, NextChunk(Align(addr)), size - s)
    {
    }
  }

  lemma AlignFacts(addr: int)
    requires IsAddr(addr)
    ensures BLOCK == 32
    ensures Align(addr) % BLOCK == 0 && IsAddr(Align(addr)) && 0 <= addr % BLOCK < BLOCK
    ensures addr - Align(addr) == addr % BLOCK
    ensures IsAddr(NextChunk(Align(addr))) && NextChunk(Align(addr)) % BLOCK == 0
    ensures Align(NextChunk(Align(addr))) == NextChunk(Align(addr)) != Align(addr)
  {}

  class SYMemChunk {
    var bitmap: bv32
    var objmask: bv32
    var l: SYMemChunk?
    var r: SYMemChunk?

    constructor ()
      ensures bitmap == 0 && objmask == 0 && l == null && r == null
    {
      bitmap, objmask, l, r := 0, 0, null, null;
    }

    /** The destructor: the neighbours forget this chunk. */
    method Destroy()
      requires l != this && r != this
      modifies (if l == null then {} else {l})`r, (if r == null then {} else {r})`l
      ensures l != null ==> l.r == null
      ensures r != null ==> r.l == null
    {
      if l != null {
        l.r := null;
      }
      if r != null {
        r.l := null;
      }
    }
  }

  /** Every chunk sits at a multiple of 32 and has an address of its own. */
  ghost predicate Keyed(m: map<int, SYMemChunk>) {
    && (forall k :: k in m ==> IsAddr(k) && k % BLOCK == 0)
    && (forall i, j :: i in m && j in m && i != j ==> m[i] != m[j])
  }

  /** No chunk is empty. */
  ghost predicate NoneEmpty(m: map<int, SYMemChunk>)
    reads m.Values
  {
    forall k {:trigger m[k].bitmap} :: k in m ==> m[k].bitmap != 0
  }

  /** A link leads to the chunk exactly adjacent on that side, and that chunk links back. */
  ghost predicate LinkOk(m: map<int, SYMemChunk>, k: int)
    requires k in m
    reads m.Values
  {
    && (m[k].r != null ==> NextChunk(k) in m && m[k].r == m[NextChunk(k)] && m[NextChunk(k)].l == m[k])
    && (m[k].l != null ==> PrevChunk(k) in m && m[k].l == m[PrevChunk(k)] && m[PrevChunk(k)].r == m[k])
  }

  ghost predicate Linked(m: map<int, SYMemChunk>)
    reads m.Values
  {
    forall k {:trigger LinkOk(m, k)} :: k in m ==> LinkOk(m, k)
  }

  /** Bit i of the chunk at k. */
  ghost predicate BitOf(m: map<int, SYMemChunk>, k: int, i: int)
    requires 0 <= i < BLOCK
    reads m.Values
  {
    k in m && Bit(m[k].bitmap, i)
  }

  /** Byte b is marked. */
  ghost predicate MarkedIn(m: map<int, SYMemChunk>, b: int)
    reads m.Values
  {
    BitOf(m, Align(b), b % BLOCK)
  }

  lemma NextPrev(k: int)
    requires IsAddr(k) && k % BLOCK == 0
    ensures PrevChunk(NextChunk(k)) == k && NextChunk(PrevChunk(k)) == k && NextChunk(k) != k
  {}

  /** Joining the chunks at a and just above it. */
  twostate lemma JoinedLinks(m: map<int, SYMemChunk>, new a: int)
    requires Keyed(m) && old(Linked(m)) && a in m && NextChunk(a) in m
    requires m[a].r == m[NextChunk(a)] && m[NextChunk(a)].l == m[a]
    requires forall k {:trigger m[k].r} :: k in m && k != a ==> m[k].r == old(m[k].r)
    requires forall k {:trigger m[k].l} :: k in m && k != NextChunk(a) ==> m[k].l == old(m[k].l)
    ensures Linked(m)
  {
    forall k | k in m ensures LinkOk(m, k) {
      NextPrev(k);
      assert old(LinkOk(m, k));
    }
    NextPrev(a);
  }

  /** Joining two chunks changes no mark. */
  twostate lemma JoinedMarks(m: map<int, SYMemChunk>, new a: int)
    requires Keyed(m) && old(Linked(m)) && old(NoneEmpty(m)) && a in m && NextChunk(a) in m
    requires m[a].r == m[NextChunk(a)] && m[NextChunk(a)].l == m[a]
    requires forall k {:trigger m[k].r} :: k in m && k != a ==> m[k].r == old(m[k].r)
    requires forall k {:trigger m[k].l} :: k in m && k != NextChunk(a) ==> m[k].l == old(m[k].l)
    requires forall k {:trigger m[k].bitmap} :: k in m ==> m[k].bitmap == old(m[k].bitmap)
    ensures Linked(m) && NoneEmpty(m)
    ensures forall b {:trigger MarkedIn(m, b)} :: MarkedIn(m, b) <==> old(MarkedIn(m, b))
  {
    JoinedLinks(m, a);
  }

  /** Changing words, and adding a chunk that is linked to nothing, keeps the links in order. */
  twostate lemma MarkedLinks(m: map<int, SYMemChunk>, new a: int, new m': map<int, SYMemChunk>)
    requires old(Linked(m)) && a in m' && m' == m[a := m'[a]]
    requires a in m ==> m'[a] == m[a]
    requires a !in m ==> m'[a].l == null && m'[a].r == null
    requires forall k {:trigger m[k].r} :: k in m ==> m[k].r == old(m[k].r)
    requires forall k {:trigger m[k].l} :: k in m ==> m[k].l == old(m[k].l)
    ensures Linked(m')
  {
    forall k | k in m' ensures LinkOk(m', k) {
      if k in m {
        assert old(LinkOk(m, k));
      }
    }
  }

  /** Dropping the chunk at a, once its neighbours have forgotten it. */
  twostate lemma DroppedLinks(m: map<int, SYMemChunk>, new a: int)
    requires Keyed(m) && old(Linked(m)) && a in m
    requires m[a].l == old(m[a].l) && m[a].r == old(m[a].r)
    requires m[a].l != null ==> m[a].l.r == null
    requires m[a].r != null ==> m[a].r.l == null
    requires forall k {:trigger m[k].r} :: k in m && m[k] != m[a].l ==> m[k].r == old(m[k].r)
    requires forall k {:trigger m[k].l} :: k in m && m[k] != m[a].r ==> m[k].l == old(m[k].l)
    ensures Linked(m - {a})
  {
    assert old(LinkOk(m, a));
    forall k | k in m && k != a ensures LinkOk(m - {a}, k) {
      NextPrev(k);
      assert old(LinkOk(m, k));
    }
  }

  lemma NotOwnNeighbour(m: map<int, SYMemChunk>, a: int)
    requires Keyed(m) && Linked(m) && a in m
    ensures m[a].l != m[a] && m[a].r != m[a]
    ensures m[a].l != null ==> m[a].l in m.Values
    ensures m[a].r != null ==> m[a].r in m.Values
  {
    assert LinkOk(m, a);
    NextPrev(a);
  }

  /** Byte b is one of the s bytes from offset h on of the chunk at a. */
  predicate InChunk(b: int, a: int, h: int, s: int) { Align(b) == a && h <= b % BLOCK < h + s }

  lemma SpansInChunk(addr: int, s: int)
    requires IsAddr(addr) && addr % BLOCK + s <= BLOCK
    ensures forall b {:trigger InSpan(b, addr, s)} {:trigger InChunk(b, Align(addr), addr - Align(addr), s)} ::
            IsAddr(b) ==>
              (InSpan(b, addr, s) <==> InChunk(b, Align(addr), addr - Align(addr), s))
  {
    forall b | IsAddr(b) ensures InSpan(b, addr, s) <==> InChunk(b, Align(addr), addr - Align(addr), s) {
      SpanInChunk(b, addr, s);
    }
  }

  lemma SomeBit(w: bv32, h: nat, s: nat)
    requires h < BLOCK && h + s <= BLOCK
    ensures Words.Common(w, Mask(h, s)) != 0 <==> exists k :: h <= k < h + s && Bit(w, k)
  {
    hide Bit, Words.Common, Mask;
    forall k | 0 <= k < BLOCK
      ensures Bit(Words.Common(w, Mask(h, s)), k) <==> Bit(w, k) && h <= k < h + s
    {
      MarkBits(w, h, s, k);
    }
    ZeroWord(Words.Common(w, Mask(h, s)));
  }

  lemma MaskFits(h: nat, s: nat)
    requires h < BLOCK && h + s <= BLOCK
    ensures h < 32 && h + s <= 32
  {}

  lemma SomeMark(m: map<int, SYMemChunk>, a: int, h: nat, s: nat)
    requires a in m && IsAddr(a) && a % BLOCK == 0 && h < BLOCK && h + s <= BLOCK
    ensures Words.Common(m[a].bitmap, Mask(h, s)) != 0 <==>
            exists b :: IsAddr(b) && InChunk(b, a, h, s) && MarkedIn(m, b)
  {
    hide Bit, Words.Common, Mask, Align, IsAddr;
    SomeBit(m[a].bitmap, h, s);
    if k :| h <= k < h + s && Bit(m[a].bitmap, k) {
      ByteOf(a, k);
      assert MarkedIn(m, a + k) && InChunk(a + k, a, h, s);
    }
  }

  lemma ByteOf(a: int, k: int)
    requires IsAddr(a) && a % BLOCK == 0 && 0 <= k < BLOCK
    ensures IsAddr(a + k) && Align(a + k) == a && (a + k) % BLOCK == k
  {}

  /** Clearing the bits of one chunk unmarks exactly those bytes; the chunk may then be dropped if it is empty. */
  twostate lemma UnmaskedWords(m: map<int, SYMemChunk>, new a: int, new h: nat, new s: nat)
    requires h < BLOCK && h + s <= BLOCK && a in m && old(NoneEmpty(m))
    requires m[a].bitmap == Words.Unmarked(old(m[a].bitmap), Mask(h, s))
    requires forall k {:trigger m[k].bitmap} :: k in m && k != a ==> m[k].bitmap == old(m[k].bitmap)
    ensures NoneEmpty(m - {a}) && (m[a].bitmap != 0 ==> NoneEmpty(m))
    ensures forall b {:trigger MarkedIn(m, b)} :: MarkedIn(m, b) <==> old(MarkedIn(m, b)) && !InChunk(b, a, h, s)
    ensures m[a].bitmap == 0 ==> forall b {:trigger MarkedIn(m - {a}, b)} :: MarkedIn(m - {a}, b) <==> MarkedIn(m, b)
  {
    forall k | 0 <= k < BLOCK
      ensures Bit(m[a].bitmap, k) <==> Bit(old(m[a].bitmap), k) && !(h <= k < h + s)
    {
      MarkBits(old(m[a].bitmap), h, s, k);
    }
    ZeroWord(m[a].bitmap);
  }

  lemma AbsentChunk(m: map<int, SYMemChunk>, a: int, h: int, s: int)
    requires a !in m
    ensures forall b {:trigger MarkedIn(m, b)} :: MarkedIn(m, b) ==> !InChunk(b, a, h, s)
  {}

  /** Every chunk of m is still there. */
  ghost predicate Extends(m: map<int, SYMemChunk>, m': map<int, SYMemChunk>) {
    forall k :: k in m ==> k in m' && m'[k] == m[k]
  }

  lemma MaskedKeyed(m: map<int, SYMemChunk>, a: int, c: SYMemChunk)
    requires Keyed(m) && IsAddr(a) && a % BLOCK == 0
    requires if a in m then c == m[a] else forall k :: k in m ==> m[k] != c
    ensures Keyed(m[a := c]) && Extends(m, m[a := c])
    ensures forall x :: x in m[a := c].Values ==> x in m.Values || x == c
  {}

  /** Marking the bits of one chunk marks exactly the bytes of the span in it, and leaves no chunk empty. */
  twostate lemma MaskedWords(m: map<int, SYMemChunk>, new addr: int, new s: nat, new m': map<int, SYMemChunk>)
    requires IsAddr(addr) && 1 <= s && addr % BLOCK + s <= BLOCK && old(NoneEmpty(m))
    requires Align(addr) in m' && m' == m[Align(addr) := m'[Align(addr)]]
    requires m'[Align(addr)].bitmap
             == Words.Marked(if Align(addr) in m then old(m[Align(addr)].bitmap) else 0, Mask(addr % BLOCK, s))
    requires forall k {:trigger m[k].bitmap} :: k in m && k != Align(addr) ==> m[k].bitmap == old(m[k].bitmap)
    ensures NoneEmpty(m')
    ensures forall b {:trigger MarkedIn(m', b)} :: IsAddr(b) ==>
            (MarkedIn(m', b) <==> old(MarkedIn(m, b)) || InSpan(b, addr, s))
  {
    hide Bit, Words.Marked, Mask;
    var w: bv32 := if Align(addr) in m then old(m[Align(addr)].bitmap) else 0;
    forall k | 0 <= k < BLOCK
      ensures Bit(m'[Align(addr)].bitmap, k) <==> Bit(w, k) || addr % BLOCK <= k < addr % BLOCK + s
    {
      MarkBits(w, addr % BLOCK, s, k);
    }
    ZeroWord(w);
    ZeroWord(m'[Align(addr)].bitmap);
    assert Bit(m'[Align(addr)].bitmap, addr % BLOCK);
    forall b | IsAddr(b) ensures MarkedIn(m', b) <==> old(MarkedIn(m, b)) || InSpan(b, addr, s) {
      SpanInChunk(b, addr, s);
    }
  }

  class SYMemBitmap {
    var m_SYMemBitmap: map<int, SYMemChunk>

    ghost predicate Valid()
      reads this, m_SYMemBitmap.Values
    {
      Keyed(m_SYMemBitmap) && NoneEmpty(m_SYMemBitmap) && Linked(m_SYMemBitmap)
    }

    /** Byte b of memory is symbolic. */
    ghost predicate Marked(b: int)
      reads this, m_SYMemBitmap.Values
    {
      MarkedIn(m_SYMemBitmap, b)
    }

    constructor ()
      ensures Valid() && m_SYMemBitmap == map[]
    {
      m_SYMemBitmap := map[];
    }

    /** Sets the bits cave_sz .. cave_sz + symbol_size of a chunk, which is created when it is not there. */
    method MaskChunk(aligned_addr: int, hcave_sz: nat, symbol_size: nat) returns (c: SYMemChunk)
      requires hcave_sz < BLOCK && hcave_sz + symbol_size <= BLOCK
      modifies this, (if aligned_addr in m_SYMemBitmap then {m_SYMemBitmap[aligned_addr]} else {})`bitmap
      ensures m_SYMemBitmap == old(m_SYMemBitmap)[aligned_addr := c]
      ensures aligned_addr in old(m_SYMemBitmap) ==> c == old(m_SYMemBitmap)[aligned_addr]
      ensures aligned_addr !in old(m_SYMemBitmap) ==> fresh(c) && c.l == null && c.r == null
      ensures c.bitmap == Words.Marked(if aligned_addr in old(m_SYMemBitmap)
              then old(m_SYMemBitmap[aligned_addr].bitmap) else 0,
                                       Mask(hcave_sz, symbol_size))
    {
      hide Mask, Words.Marked;
      if aligned_addr !in m_SYMemBitmap {
        c := new SYMemChunk();
        m_SYMemBitmap := m_SYMemBitmap[aligned_addr := c];
      } else {
        c := m_SYMemBitmap[aligned_addr];
      }
      c.bitmap := Words.Marked(c.bitmap, Mask(hcave_sz, symbol_size));
    }

    lemma ValidParts()
      requires Valid()
      ensures Keyed(m_SYMemBitmap) && NoneEmpty(m_SYMemBitmap) && Linked(m_SYMemBitmap)
      ensures forall b {:trigger Marked(b)} {:trigger MarkedIn(m_SYMemBitmap, b)} :: Marked(b) <==>
              MarkedIn(m_SYMemBitmap, b)
    {}

    lemma ValidFromParts()
      requires Keyed(m_SYMemBitmap) && NoneEmpty(m_SYMemBitmap) && Linked(m_SYMemBitmap)
      ensures Valid()
      ensures forall b {:trigger Marked(b)} :: Marked(b) <==> MarkedIn(m_SYMemBitmap, b)
    {}

    /** Marks the bytes of a span, chunk by chunk, linking each chunk to the next. */
    method MarkSYMemBitmap(addr: int, size: nat) returns (m: SYMemChunk)
      requires Valid() && IsAddr(addr) && 1 <= size && addr % BLOCK + size < ULONG
      modifies this, m_SYMemBitmap.Values
      ensures Valid()
      ensures Align(addr) in m_SYMemBitmap && m == m_SYMemBitmap[Align(addr)]
      ensures Extends(old(m_SYMemBitmap), m_SYMemBitmap)
      ensures fresh(m_SYMemBitmap.Values - old(m_SYMemBitmap.Values))
      ensures forall b {:trigger Marked(b)} :: IsAddr(b) ==> (Marked(b) <==> old(Marked(b)) || InSpan(b, addr, size))
      decreases size
    {
      hide Marked, MarkedIn, Linked, NoneEmpty, BitOf, InSpan, Valid, Align, NextChunk, IsAddr;
      AlignFacts(addr);
      var aligned_addr := Align(addr);
      var hcave_sz := addr - aligned_addr;
      var align_sz := hcave_sz + size;
      if align_sz > BLOCK {
        var sz := BLOCK - hcave_sz;
        m := MarkFirst(addr, sz);
        var r := MarkSYMemBitmap(NextChunk(aligned_addr), size - sz);
        ValidParts();
        label Marked:
        m.r := r;
        r.l := m;
        JoinedMarks@Marked(m_SYMemBitmap, aligned_addr);
        ValidFromParts();
        SpanSplits(addr, size);
      } else {
        m := MarkFirst(addr, size);
      }
    }

    /** The call of _maskSYMemBitmap for the part of a span in its first chunk. */
    method MarkFirst(addr: int, s: nat) returns (m: SYMemChunk)
      requires Valid() && IsAddr(addr) && 1 <= s && addr % BLOCK + s <= BLOCK
      modifies this, m_SYMemBitmap.Values
      ensures Valid()
      ensures Align(addr) in m_SYMemBitmap && m == m_SYMemBitmap[Align(addr)]
      ensures Extends(old(m_SYMemBitmap), m_SYMemBitmap)
      ensures fresh(m_SYMemBitmap.Values - old(m_SYMemBitmap.Values))
      ensures forall b {:trigger Marked(b)} :: IsAddr(b) ==> (Marked(b) <==> old(Marked(b)) || InSpan(b, addr, s))
    {
      hide *;
      ValidParts();
      AlignFacts(addr);
      m := MaskChunk(Align(addr), addr % BLOCK, s);
      MaskedKeyed(old(m_SYMemBitmap), Align(addr), m);
      MaskedWords(old(m_SYMemBitmap), addr, s, m_SYMemBitmap);
      MarkedLinks(old(m_SYMemBitmap), Align(addr), m_SYMemBitmap);
      ValidFromParts();
    }

    /** Clears the bits of a chunk, if it is there; a chunk left empty is erased. */
    method UnmaskChunk(aligned_addr: int, cave_sz: nat, symbol_size: nat)
      requires Valid() && cave_sz < BLOCK && cave_sz + symbol_size <= BLOCK
      modifies this, m_SYMemBitmap.Values
      ensures Valid() && m_SYMemBitmap.Values <= old(m_SYMemBitmap.Values)
      ensures forall b {:trigger Marked(b)} :: Marked(b) <==>
              old(Marked(b)) && !InChunk(b, aligned_addr, cave_sz, symbol_size)
    {
      hide Marked, MarkedIn, Linked, NoneEmpty, BitOf, InChunk, Valid, Words.Unmarked, Mask;
      ValidParts();
      if aligned_addr !in m_SYMemBitmap {
        AbsentChunk(m_SYMemBitmap, aligned_addr, cave_sz, symbol_size);
        return;
      }
      ghost var m := m_SYMemBitmap;
      NotOwnNeighbour(m, aligned_addr);
      var blk := m_SYMemBitmap[aligned_addr];
      blk.bitmap := Words.Unmarked(blk.bitmap, Mask(cave_sz, symbol_size));
      if blk.bitmap == 0 {
        m_SYMemBitmap := m_SYMemBitmap - {aligned_addr};
        blk.Destroy();
        DroppedLinks(m, aligned_addr);
      } else {
        MarkedLinks(m, aligned_addr, m);
      }
      UnmaskedWords(m, aligned_addr, cave_sz, symbol_size);
      ValidFromParts();
    }

    /** Unmarks the bytes of a span, chunk by chunk. */
    method UnmarkSYMemBitmap(addr: int, size: nat)
      requires Valid() && IsAddr(addr) && addr % BLOCK + size < ULONG
      modifies this, m_SYMemBitmap.Values
      ensures Valid() && m_SYMemBitmap.Values <= old(m_SYMemBitmap.Values)
      ensures forall b {:trigger Marked(b)} :: IsAddr(b) ==> (Marked(b) <==> old(Marked(b)) && !InSpan(b, addr, size))
      decreases size
    {
      hide *;
      AlignFacts(addr);
      var aligned_addr := Align(addr);
      var hcave_sz := addr - aligned_addr;
      var align_sz := hcave_sz + size;
      if align_sz > BLOCK {
        var sz := BLOCK - hcave_sz;
        UnmaskChunk(aligned_addr, hcave_sz, sz);
        UnmarkSYMemBitmap(NextChunk(aligned_addr), size - sz);
        SpanSplits(addr, size);
        SpansInChunk(addr, sz);
      } else {
        UnmaskChunk(aligned_addr, hcave_sz, size);
        SpansInChunk(addr, size);
      }
    }

    /** Some bit cave_sz .. cave_sz + symbol_size of the chunk is set. */
    method TestChunk(aligned_addr: int, cave_sz: nat, symbol_size: nat) returns (res: bool)
      requires Valid() && IsAddr(aligned_addr) && aligned_addr % BLOCK == 0 && cave_sz < BLOCK
               && cave_sz + symbol_size <= BLOCK
      ensures res <==> exists b :: IsAddr(b) && InChunk(b, aligned_addr, cave_sz, symbol_size) && Marked(b)
    {
      hide *;
      ValidParts();
      if aligned_addr !in m_SYMemBitmap {
        AbsentChunk(m_SYMemBitmap, aligned_addr, cave_sz, symbol_size);
        return false;
      }
      var blk := m_SYMemBitmap[aligned_addr];
      MaskFits(cave_sz, symbol_size);
      res := Words.Common(blk.bitmap, Mask(cave_sz, symbol_size)) != 0;
      SomeMark(m_SYMemBitmap, aligned_addr, cave_sz, symbol_size);
    }

    /** Some byte of the span is symbolic. */
    method TestSYMemBitmap(addr: int, size: nat) returns (res: bool)
      requires Valid() && IsAddr(addr) && addr % BLOCK + size < ULONG
      ensures res <==> exists b :: IsAddr(b) && InSpan(b, addr, size) && Marked(b)
      decreases size
    {
      hide *;
      AlignFacts(addr);
      var aligned_addr := Align(addr);
      var hcave_sz := addr - aligned_addr;
      var align_sz := hcave_sz + size;
      if align_sz > BLOCK {
        var sz := BLOCK - hcave_sz;
        var res1 := TestChunk(aligned_addr, hcave_sz, sz);
        var res2 := TestSYMemBitmap(NextChunk(aligned_addr), size - sz);
        res := res1 || res2;
        SpanSplits(addr, size);
        SpansInChunk(addr, sz);
      } else {
        res := TestChunk(aligned_addr, hcave_sz, size);
        SpansInChunk(addr, size);
      }
    }

    /** The chunk that holds a byte, if it is in the map; a chunk with a marked byte always is. */
    method FindSYMemChunk(addr: int) returns (c: SYMemChunk?)
      requires Valid() && IsAddr(addr)
      ensures c != null <==> Align(addr) in m_SYMemBitmap
      ensures c != null ==> c == m_SYMemBitmap[Align(addr)]
      ensures c == null ==> forall b {:trigger Marked(b)} :: Align(b) == Align(addr) ==> !Marked(b)
    {
      var aligned_addr := Align(addr);
      if aligned_addr !in m_SYMemBitmap {
        c := null;
      } else {
        c := m_SYMemBitmap[aligned_addr];
      }
    }
  }
}
