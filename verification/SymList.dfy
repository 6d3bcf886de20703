/** The interval store (SymList.h, SymList.cpp): a sorted doubly linked list of cells with an index. */
module SymList {
  import opened Bytes
  import opened Exprs
  import opened Pieces
  import opened Assembly
  import opened Cells
  import opened CellIndex
  import opened SpanCuts

  class Symbol_List_Map {
    var m_sl: SymCell
    var m_sm: map<int, SymCell>
    var m_listheader: SymCell
    var m_listtail: SymCell
    ghost var cells: seq<SymCell>

    ghost predicate Valid()
      reads this, cells
    {
      && Chain(cells)
      && Framed(Vals(cells))
      && m_listheader == cells[0] && m_listtail == cells[|cells| - 1] && m_sl == m_listheader
      && Indexed(Keys(Vals(cells)), cells, m_sm)
    }

    /** The cells between the sentinels. */
    ghost function Contents(): seq<Piece>
      requires Valid()
      reads this, cells
    {
      Inner(Vals(cells))
    }

    constructor ()
      ensures Valid() && fresh(cells)
      ensures Contents() == []
    {
      hide *;
      var header := new SymCell(HEADER_ADDR, 0, Null);
      var tail := new SymCell(TAIL_ADDR, 0, Null);
      m_listheader, m_listtail, m_sl := header, tail, header;
      m_sm := map[];
      cells := [header, tail];
      new;
      m_listheader.next := m_listtail;
      m_listtail.prev := m_listheader;
      m_sm := m_sm[-1 := m_listheader];
      m_sm := m_sm[Key(m_listtail.addr) := m_listtail];
      InitFiles(m_listheader, m_listtail);
      ValidFromParts();
      ContentsBetween([]);
    }

    lemma InitFiles(h: SymCell, t: SymCell)
      requires cells == [h, t] && h != t && h.next == t && t.prev == h && h.prev == null && t.next == null
      requires h.addr == HEADER_ADDR && h.size == 0 && h.exprPtr == Null
      requires t.addr == TAIL_ADDR && t.size == 0 && t.exprPtr == Null
      requires m_sm == map[-1 := h][Key(t.addr) := t]
      ensures Chain(cells) && Files(cells) && Vals(cells) == [HEADER] + [] + [TAIL]
    {
      assert Chain(cells);
      assert Vals(cells) == [HEADER, TAIL] == [HEADER] + [] + [TAIL];
      hide Chain, Vals;
    }

    /** The last cell starting before H and the first cell ending after T. */
    method GetAffectedCells(H: int, T: int) returns (iA: SymCell, iB: SymCell, ghost i: nat, ghost j: nat)
      requires Valid() && InRange(H, T)
      ensures Straddle(Vals(cells), i, j, H, T)
      ensures iA == cells[i] && iB == cells[j]
      ensures iA.addr < H && iA.next != null && H <= iA.next.addr
      ensures T < iB.addr + iB.size && iB.prev != null && iB.prev.addr + iB.prev.size <= T
    {
      hide *;
      ValidParts();
      ScanParts();
      ghost var vs := Vals(cells);
      iA, i := m_listheader, 0;
      var found := Key(H) in m_sm;
      if found {
        iA := m_sm[Key(H)];
        i := IndexHit(vs, cells, m_sm, H, T);
        iA := iA.prev;
      }
      FramedEnds(vs, H, T);
      iA, iB, i, j := Scan(iA, found, H, T, cells, vs, i);
      StraddleFromNeighbours(vs, i, j, H, T);
      NeighboursOf(i, j);
    }

    lemma NeighboursOf(i: nat, j: nat)
      requires Chain(cells) && i + 1 < |cells| && 0 < j < |cells|
      ensures cells[i].next == cells[i + 1] && cells[j].prev == cells[j - 1]
      ensures Vals(cells)[i + 1].addr == cells[i + 1].addr
              && End(Vals(cells)[j - 1]) == cells[j - 1].addr + cells[j - 1].size
      ensures Vals(cells)[i].addr == cells[i].addr && End(Vals(cells)[j]) == cells[j].addr + cells[j].size
    {}

    /** Cuts a cell that straddles both ends into three. */
    method SplitCell3(iA: SymCell, H: int, T: int, read: bool) returns (iB: SymCell, ghost p: SymCell)
      requires iA.next != iA && iA.addr < H < T < iA.addr + iA.size
      modifies (if read then {} else {this})`m_sm, iA`next, iA`size, iA`exprPtr,
          (if iA.next == null then {} else {iA.next})`prev
      ensures fresh(p) && fresh(iB) && p != iB
      ensures iA.next == p && p.prev == iA && p.next == iB && iB.prev == p && iB.next == old(iA.next)
      ensures old(iA.next) != null ==> old(iA.next).prev == iB
      ensures iA.Val() == Clip(old(iA.Val()), iA.addr, H)
      ensures p.Val() == Clip(old(iA.Val()), H, T)
      ensures iB.Val() == Clip(old(iA.Val()), T, End(old(iA.Val())))
      ensures !read ==> m_sm == old(m_sm)[Key(T) := iB][Key(H) := p][Key(iA.addr) := iA]
    {
      var p1_a, p1_s := iA.addr, H - iA.addr;
      var p3_a, p3_s := T, iA.addr + iA.size - T;
      var p2_a := p1_a + p1_s;
      var p2_s := p3_a - p2_a;

      var e1 := Extract(iA.exprPtr, 0, p1_s);
      var e3 := Extract(iA.exprPtr, p3_a - p1_a, p3_a - p1_a + p3_s);
      var e2 := Extract(iA.exprPtr, p2_a - p1_a, p2_a - p1_a + p2_s);
      var p3 := new SymCell(p3_a, p3_s, e3);
      var p2 := new SymCell(p2_a, p2_s, e2);

      iA.size := p1_s;
      iA.exprPtr := e1;
      assert iA.Val() == Clip(old(iA.Val()), iA.addr, H);
      assert p2.Val() == Clip(old(iA.Val()), H, T);
      assert p3.Val() == Clip(old(iA.Val()), T, End(old(iA.Val())));
      hide Key, Clip, End;

      p2.prev := iA;
      p2.next := p3;
      if iA.next != null {
        iA.next.prev := p3;
      }
      p3.next := iA.next;
      p3.prev := p2;
      iA.next := p2;

      assert p3.addr == T && p2.addr == H && iA.addr == old(iA.addr);
      if !read {
        m_sm := m_sm[Key(p3.addr) := p3];
        m_sm := m_sm[Key(p2.addr) := p2];
        m_sm := m_sm[Key(iA.addr) := iA];
      }
      iB, p := p3, p2;
    }

    /** Cuts a cell at H; the part before H stays in iA. */
    method SeplitCell_Head(iA: SymCell, H: int, read: bool) returns (ghost p: SymCell)
      requires iA.next != iA && iA.addr < H < iA.addr + iA.size
      modifies (if read then {} else {this})`m_sm, iA`next, iA`size, iA`exprPtr,
          (if iA.next == null then {} else {iA.next})`prev
      ensures fresh(p) && Bridge(iA, [p], old(iA.next))
      ensures iA.Val() == Clip(old(iA.Val()), iA.addr, H)
      ensures p.Val() == Clip(old(iA.Val()), H, End(old(iA.Val())))
      ensures !read ==> m_sm == old(m_sm)[Key(H) := p][Key(iA.addr) := iA]
    {
      var p1_a, p2_a := iA.addr, H;
      var p1_s, p2_s := H - iA.addr, iA.addr + iA.size - H;

      var e1 := Extract(iA.exprPtr, 0, p1_s);
      var e2 := Extract(iA.exprPtr, p2_a - p1_a, p2_a - p1_a + p2_s);
      var p2 := new SymCell(p2_a, p2_s, e2);

      iA.size := p1_s;
      iA.exprPtr := e1;

      p2.next := iA.next;
      if iA.next != null {
        iA.next.prev := p2;
      }
      p2.prev := iA;
      iA.next := p2;

      if !read {
        m_sm := m_sm[Key(p2.addr) := p2];
        m_sm := m_sm[Key(iA.addr) := iA];
      }
      p := p2;
    }

    /** Cuts a cell at T; the part from T on stays in iB. */
    method SeplitCell_Tail(iB: SymCell, T: int, read: bool) returns (ghost p: SymCell)
      requires iB.prev != iB && iB.addr < T < iB.addr + iB.size
      modifies (if read then {} else {this})`m_sm, iB`prev, iB`addr, iB`size, iB`exprPtr,
          (if iB.prev == null then {} else {iB.prev})`next
      ensures fresh(p)
      ensures old(iB.prev) != null ==> Bridge(old(iB.prev), [p], iB)
      ensures iB.Val() == Clip(old(iB.Val()), T, End(old(iB.Val())))
      ensures p.Val() == Clip(old(iB.Val()), old(iB.addr), T)
      ensures !read ==> m_sm == old(m_sm)[Key(T) := iB][Key(p.addr) := p]
    {
      var p2_a, p1_a := T, iB.addr;
      var p2_s, p1_s := iB.addr + iB.size - T, T - iB.addr;

      var e2 := Extract(iB.exprPtr, T - iB.addr, T - iB.addr + p2_s);
      var e1 := Extract(iB.exprPtr, 0, p1_s);
      var p1 := new SymCell(p1_a, p1_s, e1);

      iB.addr := p2_a;
      iB.size := p2_s;
      iB.exprPtr := e2;

      if iB.prev != null {
        iB.prev.next := p1;
      }
      p1.next := iB;
      p1.prev := iB.prev;
      iB.prev := p1;

      if !read {
        m_sm := m_sm[Key(iB.addr) := iB];
        m_sm := m_sm[Key(p1.addr) := p1];
      }
      p := p1;
    }

    /** The map indexes exactly this framed list. */
    ghost predicate Files(cs: seq<SymCell>)
      reads this`m_sm, cs
    {
      Framed(Vals(cs)) && Indexed(Keys(Vals(cs)), cs, m_sm)
    }

    /** SeplitCell_Head inside a chain. */
    method CutHead(iA: SymCell, H: int, read: bool, ghost cs: seq<SymCell>, ghost i: nat) returns (ghost p: SymCell)
      requires Chain(cs) && i < |cs| && iA == cs[i] && iA.addr < H < iA.addr + iA.size
      modifies (if read then {} else {this})`m_sm, cs
      ensures fresh(p) && Chain(Relinked(cs, i, [p], i + 1))
      ensures Vals(Relinked(cs, i, [p], i + 1)) == Replace(old(Vals(cs)), i, CutAt(old(iA.Val()), H))
      ensures !read && old(Files(cs)) && H != -1 ==> Files(Relinked(cs, i, [p], i + 1))
    {
      p := SeplitCell_Head(iA, H, read);
      assert [iA.Val()] + Vals([p]) == CutAt(old(iA.Val()), H);
      AfterCut(cs, i, [p]);
      if !read && old(Files(cs)) && H != -1 {
        HeadIndex(old(Vals(cs)), cs, old(m_sm), i, H, p);
      }
    }

    /** SeplitCell_Tail inside a chain. */
    method CutTail(iB: SymCell, T: int, read: bool, ghost cs: seq<SymCell>, ghost j: nat) returns (ghost p: SymCell)
      requires Chain(cs) && 0 < j < |cs| && iB == cs[j] && iB.addr < T < iB.addr + iB.size
      modifies (if read then {} else {this})`m_sm, cs
      ensures fresh(p) && Chain(Relinked(cs, j - 1, [p], j))
      ensures Vals(Relinked(cs, j - 1, [p], j)) == Replace(old(Vals(cs)), j, CutAt(old(iB.Val()), T))
      ensures !read && old(Files(cs)) && T != -1 ==> Files(Relinked(cs, j - 1, [p], j))
    {
      p := SeplitCell_Tail(iB, T, read);
      assert Vals([p]) + [iB.Val()] == CutAt(old(iB.Val()), T);
      AfterCutLeft(cs, j, [p]);
      if !read && old(Files(cs)) && T != -1 {
        TailIndex(old(Vals(cs)), cs, old(m_sm), j, T, p);
      }
    }

    /** SplitCell3 inside a chain. */
    method CutMiddle(iA: SymCell, H: int, T: int, read: bool, ghost cs: seq<SymCell>, ghost i: nat)
      returns (iB: SymCell, ghost p: SymCell)
      requires Chain(cs) && i < |cs| && iA == cs[i] && iA.addr < H < T < iA.addr + iA.size
      modifies (if read then {} else {this})`m_sm, cs
      ensures fresh(p) && fresh(iB) && Chain(Relinked(cs, i, [p, iB], i + 1))
      ensures var v := old(iA.Val());
              Vals(Relinked(cs, i, [p, iB], i + 1))
              == Replace(old(Vals(cs)), i, CutIn3(v, H, T))
      ensures !read && old(Files(cs)) && H != -1 && T != -1 ==> Files(Relinked(cs, i, [p, iB], i + 1))
    {
      iB, p := SplitCell3(iA, H, T, read);
      assert Bridge(iA, [p, iB], old(iA.next));
      ghost var v := old(iA.Val());
      assert [iA.Val()] + Vals([p, iB]) == CutIn3(v, H, T);
      AfterCut(cs, i, [p, iB]);
      if !read && old(Files(cs)) && H != -1 && T != -1 {
        MiddleIndex(old(Vals(cs)), cs, old(m_sm), i, H, T, p, iB);
      }
    }

    /** The head test of Split_Head_Tail. */
    method SplitHead(iA: SymCell, H: int, read: bool, ghost cs: seq<SymCell>, ghost i: nat)
      returns (ghost added: seq<SymCell>)
      requires Chain(cs) && i < |cs| && iA == cs[i] && iA.addr < H
      requires !read ==> Files(cs) && H != -1
      modifies (if read then {} else {this})`m_sm, cs
      ensures fresh(added) && |added| == |CutAt(old(iA.Val()), H)| - 1
      ensures Chain(Relinked(cs, i, added, i + 1))
      ensures Vals(Relinked(cs, i, added, i + 1)) == Replace(old(Vals(cs)), i, CutAt(old(iA.Val()), H))
      ensures !read ==> Files(Relinked(cs, i, added, i + 1))
    {
      hide Chain, Files;
      added := [];
      if iA.addr + iA.size > H {
        ghost var p := CutHead(iA, H, read, cs, i);
        added := [p];
      } else {
        assert Relinked(cs, i, [], i + 1) == cs;
        assert Replace(Vals(cs), i, [iA.Val()]) == Vals(cs);
      }
    }

    /** The tail test of Split_Head_Tail. */
    method SplitTail(iB: SymCell, T: int, read: bool, ghost cs: seq<SymCell>, ghost j: nat)
      returns (ghost added: seq<SymCell>)
      requires Chain(cs) && 0 < j < |cs| && iB == cs[j] && T < iB.addr + iB.size
      requires !read ==> Files(cs) && T != -1
      modifies (if read then {} else {this})`m_sm, cs
      ensures fresh(added) && |added| == |CutAt(old(iB.Val()), T)| - 1
      ensures Chain(Relinked(cs, j - 1, added, j))
      ensures Vals(Relinked(cs, j - 1, added, j)) == Replace(old(Vals(cs)), j, CutAt(old(iB.Val()), T))
      ensures !read ==> Files(Relinked(cs, j - 1, added, j))
    {
      hide Chain, Files;
      added := [];
      if iB.addr < T {
        ghost var p := CutTail(iB, T, read, cs, j);
        added := [p];
      } else {
        assert Relinked(cs, j - 1, [], j) == cs;
        assert Replace(Vals(cs), j, [iB.Val()]) == Vals(cs);
      }
    }

    /** Both tests of Split_Head_Tail, for two different outer cells. */
    method SplitBoth(iA: SymCell, iB: SymCell, H: int, T: int, read: bool,
                     ghost cs: seq<SymCell>, ghost i: nat, ghost j: nat)
      returns (ghost a: seq<SymCell>, ghost b: seq<SymCell>)
      requires Chain(cs) && i < j < |cs| && iA == cs[i] && iB == cs[j]
      requires iA.addr < H && T < iB.addr + iB.size
      requires !read ==> Files(cs) && H != -1 && T != -1
      modifies (if read then {} else {this})`m_sm, cs
      ensures fresh(a) && fresh(b)
      ensures |a| == |CutAt(old(iA.Val()), H)| - 1 && |b| == |CutAt(old(iB.Val()), T)| - 1
      ensures Chain(RelinkedTwice(cs, i, a, j, b))
      ensures Vals(RelinkedTwice(cs, i, a, j, b))
              == Replace(Replace(old(Vals(cs)), i, CutAt(old(iA.Val()), H)), j + |a|, CutAt(old(iB.Val()), T))
      ensures !read ==> Files(RelinkedTwice(cs, i, a, j, b))
    {
      hide Chain, Files, CutAt, Relinked, Replace;
      ghost var vs, h := Vals(cs), CutAt(iA.Val(), H);
      a := SplitHead(iA, H, read, cs, i);
      ghost var cs1 := Relinked(cs, i, a, i + 1);
      RelinkedAt(cs, i, a, j);
      ReplaceTwice(vs, i, h, j, []);
      assert iB.Val() == old(iB.Val()) by { assert Vals(cs1)[j + |a|] == vs[j]; }
      b := SplitTail(iB, T, read, cs1, j + |a|);
    }

    /** Cuts the outer cells of a span so that the cells between iA and iB make up the span exactly. */
    method Split_Head_Tail(iA: SymCell, before: SymCell, H: int, T: int, read: bool,
                           ghost cs: seq<SymCell>, ghost i: nat, ghost j: nat)
      returns (iB: SymCell, ghost cs': seq<SymCell>, ghost n: nat)
      requires Chain(cs) && Spans(Vals(cs), i, j, H, T) && iA == cs[i] && before == cs[j]
      requires !read ==> Files(cs) && H != -1 && T != -1
      modifies (if read then {} else {this})`m_sm, cs
      ensures forall k :: 0 <= k < |cs'| ==> cs'[k] in cs || fresh(cs'[k])
      ensures Chain(cs') && i + 1 + n < |cs'| && iA == cs'[i] && iB == cs'[i + 1 + n]
      ensures cs'[0] == cs[0] && (i + 1 < |cs| ==> cs'[|cs'| - 1] == cs[|cs| - 1])
      ensures Vals(cs') == SplitVals(old(Vals(cs)), i, j, H, T)
      ensures n == |Window(old(Vals(cs))[i..j + 1], H, T)|
      ensures !read ==> Files(cs')
    {
      hide Chain, Files, Relinked, RelinkedTwice, Replace, SplitVals, CutAt, CutIn3, Window, Clip, Keys, Framed,
           Indexed;
      iB := before;
      ghost var vs := Vals(cs);
      if iA == iB {
        SplitOne(vs, i, H, T);
        if iA.addr + iA.size >= T {
          ghost var p;
          iB, p := CutMiddle(iA, H, T, read, cs, i);
          cs', n := Relinked(cs, i, [p, iB], i + 1), 1;
          RelinkedPairAt(cs, i, p, iB);
        }
      } else {
        SplitTwo(vs, i, j, H, T);
        ghost var a, b := SplitBoth(iA, iB, H, T, read, cs, i, j);
        cs', n := RelinkedTwice(cs, i, a, j, b), |a| + (j - i - 1) + |b|;
        RelinkedTwiceAt(cs, i, a, j, b);
      }
    }

    /** The loop of Remove: unfiles the cells between i and j. */
    method EraseKeys(first: SymCell, iB: SymCell, ghost cs: seq<SymCell>, ghost i: nat, ghost j: nat)
      requires i < j < |cs| && first == cs[i + 1] && iB == cs[j]
      requires forall k {:trigger cs[k].next} :: i < k < j ==> cs[k].next == cs[k + 1]
      requires forall k :: i < k < j ==> cs[k] != iB
      modifies this`m_sm
      ensures Erased(old(m_sm), PieceKeys(Vals(cs)[i + 1..j]), m_sm)
    {
      var tmp := first;
      ghost var q := i + 1;
      ghost var keys := PieceKeys(Vals(cs)[i + 1..j]);
      while tmp != iB
        invariant i < q <= j && tmp == cs[q]
        invariant Erased(old(m_sm), keys[..q - i - 1], m_sm)
        decreases j - q
      {
        m_sm := m_sm - {Key(tmp.addr)};
        assert keys[..q - i] == keys[..q - i - 1] + [Key(tmp.addr)];
        tmp, q := tmp.next, q + 1;
      }
      assert keys[..j - i - 1] == keys;
    }

    /** Remove(insertAfter, insertBefore): drops the n cells between iA and iB. */
    method RemoveBetween(iA: SymCell, iB: SymCell, ghost cs: seq<SymCell>, ghost i: nat, ghost j: nat)
      requires Chain(cs) && i < j < |cs| && iA == cs[i] && iB == cs[j] && Files(cs)
      modifies this`m_sm, iA`next, iB`prev
      ensures Chain(Relinked(cs, i, [], j)) && Files(Relinked(cs, i, [], j))
      ensures Vals(Relinked(cs, i, [], j)) == Relinked(old(Vals(cs)), i, [], j)
    {
      hide Framed, Indexed, Erased, Relinked, Key;
      EraseKeys(iA.next, iB, cs, i, j);
      iA.next := iB;
      iB.prev := iA;
      assert forall k {:trigger cs[k].next} :: 0 <= k < |cs| && k != i ==> cs[k].next == old(cs[k].next);
      assert forall k {:trigger cs[k].prev} :: 0 <= k < |cs| && k != j ==> cs[k].prev == old(cs[k].prev);
      assert Vals(cs) == old(Vals(cs));
      hide *;
      UnlinkChain(cs, i, [], j);
      RelinkVals(cs, i, [], j);
      RemovedFiles(cs, old(m_sm), i, j);
    }

    lemma RemovedFiles(cs: seq<SymCell>, m: map<int, SymCell>, i: nat, j: nat)
      requires Framed(Vals(cs)) && Indexed(Keys(Vals(cs)), cs, m) && i < j < |cs|
      requires Erased(m, PieceKeys(Vals(cs)[i + 1..j]), m_sm)
      requires Vals(Relinked(cs, i, [], j)) == Relinked(Vals(cs), i, Vals([]), j)
      ensures Files(Relinked(cs, i, [], j))
    {
      EraseIndex(Vals(cs), cs, m, i, j, m_sm);
      assert Vals([]) == [];
    }

    /** The indexing loop of Merge. */
    method FileCells(first: SymCell, t: SymCell, ghost src: seq<SymCell>)
      requires |src| > 0 && first == src[0] && t == src[|src| - 1] && AllDistinct(src)
      requires forall k {:trigger src[k].next} :: 0 <= k < |src| - 1 ==> src[k].next == src[k + 1]
      requires NoRepeat(PieceKeys(Vals(src)))
      modifies this`m_sm
      ensures Filed(old(m_sm), PieceKeys(Vals(src)), src, m_sm)
    {
      var h := first;
      ghost var q, keys := 0, PieceKeys(Vals(src));
      while true
        invariant q < |src| && h == src[q]
        invariant Filed(old(m_sm), keys[..q], src[..q], m_sm)
        decreases |src| - q
      {
        FiledNext(old(m_sm), keys, src, q, m_sm);
        m_sm := m_sm[Key(h.addr) := h];
        if h == t { break; }
        h, q := h.next, q + 1;
      }
      assert q + 1 == |src|;
      assert keys[..q + 1] == keys && src[..q + 1] == src;
    }

    /** Links src between two neighbouring cells. */
    static method LinkBetween(iA: SymCell, iB: SymCell, h: SymCell, t: SymCell,
                              ghost cs: seq<SymCell>, ghost i: nat, ghost src: seq<SymCell>)
      requires Chain(cs) && i + 1 < |cs| && iA == cs[i] && iB == cs[i + 1]
      requires Chain(src) && h == src[0] && t == src[|src| - 1] && Sep(cs, src)
      modifies iA`next, iB`prev, h`prev, t`next
      ensures Chain(Relinked(cs, i, src, i + 1))
      ensures forall k {:trigger src[k].next} :: 0 <= k < |src| - 1 ==> src[k].next == src[k + 1]
      ensures Vals(cs) == old(Vals(cs)) && Vals(src) == old(Vals(src))
    {
      iA.next := h;
      h.prev := iA;
      iB.prev := t;
      t.next := iB;
      assert forall k {:trigger cs[k].next} :: 0 <= k < |cs| && k != i ==> cs[k].next == old(cs[k].next);
      assert forall k {:trigger cs[k].prev} :: 0 <= k < |cs| && k != i + 1 ==> cs[k].prev == old(cs[k].prev);
      assert Bridge(iA, src, iB);
      assert AllDistinct(src);
      assert forall k {:trigger src[k].next} :: 0 <= k < |src| - 1 ==> src[k].next == src[k + 1];
      assert Vals(cs) == old(Vals(cs)) && Vals(src) == old(Vals(src));
      hide *;
      RelinkChain(cs, i, src, i + 1);
    }

    /** Links src between two neighbours of a framed list and files its cells. */
    method SpliceIn(iA: SymCell, iB: SymCell, h: SymCell, t: SymCell,
                    ghost cs: seq<SymCell>, ghost i: nat, ghost src: seq<SymCell>)
      requires Chain(cs) && i + 1 < |cs| && iA == cs[i] && iB == cs[i + 1] && Files(cs)
      requires Chain(src) && h == src[0] && t == src[|src| - 1] && Sep(cs, src)
      requires FitsBetween(Vals(cs), i, Vals(src))
      modifies this`m_sm, iA`next, iB`prev, h`prev, t`next
      ensures Chain(Relinked(cs, i, src, i + 1)) && Files(Relinked(cs, i, src, i + 1))
      ensures Vals(Relinked(cs, i, src, i + 1)) == Relinked(old(Vals(cs)), i, old(Vals(src)), i + 1)
    {
      hide Framed, Indexed, Filed, Relinked, FitsBetween;
      assert AllDistinct(src) && |src| > 0;
      ghost var vs, mid := Vals(cs), Vals(src);
      hide Chain, AllDistinct, NoRepeat, Vals, Keys, PieceKeys;
      LinkBetween(iA, iB, h, t, cs, i, src);
      SplicedKeys(vs, i, mid);
      ghost var r: seq<SymCell> := Relinked(cs, i, src, i + 1);
      label Linked:
      FileCells(h, t, src);
      ChainKept@Linked(r);
      assert Vals(cs) == vs && Vals(src) == mid;
      SplicedIndex(vs, cs, old(m_sm), i, mid, src, m_sm);
      RelinkVals(cs, i, src, i + 1);
    }

    /** The three calls that Merge and Remove begin with: find the span, cut its ends, drop what is inside. */
    method ClearSpan(H: int, T: int)
      returns (iA: SymCell, iB: SymCell, ghost cs: seq<SymCell>, ghost i: nat, ghost j: nat)
      requires Valid() && InRange(H, T)
      modifies this`m_sm, cells
      ensures Straddle(old(Vals(cells)), i, j, H, T)
      ensures Chain(cs) && Files(cs) && i + 1 < |cs| && iA == cs[i] && iB == cs[i + 1]
      ensures Vals(cs) == Emptied(old(Vals(cells)), i, j, H, T)
      ensures cs[0] == m_listheader && cs[|cs| - 1] == m_listtail
      ensures forall k :: 0 <= k < |cs| ==> cs[k] in cells || fresh(cs[k])
    {
      hide *;
      ValidParts();
      ghost var vs := Vals(cells);
      iA, iB, i, j := GetAffectedCells(H, T);
      StraddleSpans(vs, i, j, H, T);
      ghost var n;
      iB, cs, n := Split_Head_Tail(iA, iB, H, T, false, cells, i, j);
      EmptiedFromSplit(vs, i, j, H, T);
      RemoveBetween(iA, iB, cs, i, i + 1 + n);
      UnlinkedAt(cs, i, i + 1 + n);
      cs := Relinked(cs, i, [], i + 1 + n);
    }

    /** What the scan needs to know about the list. */
    lemma ScanParts()
      requires Valid()
      ensures forall k {:trigger cells[k].next} :: 0 <= k < |cells| - 1 ==> cells[k].next == cells[k + 1]
      ensures forall k {:trigger cells[k].prev} :: 0 < k < |cells| ==> cells[k].prev == cells[k - 1]
      ensures forall k {:trigger cells[k].addr} {:trigger cells[k].size} :: 0 <= k < |cells| ==>
                cells[k].addr == Vals(cells)[k].addr && cells[k].size == Vals(cells)[k].size
      ensures Indexed(Keys(Vals(cells)), cells, m_sm)
    {}

    lemma ValidParts()
      requires Valid()
      ensures Chain(cells) && Files(cells) && |cells| >= 2 && Framed(Vals(cells))
      ensures m_listheader == cells[0] && m_listtail == cells[|cells| - 1] && m_sl == m_listheader
      ensures Contents() == Inner(Vals(cells))
    {}

    /** Every reachable list holds well-formed cells in order. */
    lemma ContentsWF()
      requires Valid()
      ensures WFList(Contents())
    {
      FramedInner(Vals(cells));
    }

    /** The last cell of a null-terminated list. */
    static method LastOf(h: SymCell, ghost src: seq<SymCell>) returns (t: SymCell)
      requires Chain(src) && h == src[0]
      ensures t == src[|src| - 1]
    {
      t := h;
      ghost var q := 0;
      while t.next != null
        invariant q < |src| && t == src[q]
        decreases |src| - q
      {
        t, q := t.next, q + 1;
      }
    }

    /** Puts a null-terminated list of cells into the store, in place of whatever its span held. */
    method Merge(src_list: SymCell, ghost src: seq<SymCell>)
      requires Valid() && Chain(src) && src_list == src[0] && Sep(cells, src)
      requires WFList(Vals(src)) && InRange(First(Vals(src)), Stop(Vals(src)))
      modifies this, cells, src
      ensures Valid()
      ensures var ss := old(Vals(src)); Contents() == Splice(old(Contents()), First(ss), Stop(ss), ss)
      ensures forall k :: 0 <= k < |cells| ==> cells[k] in old(cells) || cells[k] in src || fresh(cells[k])
    {
      hide *;
      ValidParts();
      ChainParts(src);
      ghost var vs, ss := Vals(cells), Vals(src);
      var h := src_list;
      var t := LastOf(src_list, src);
      var H, T := h.addr, t.addr + t.size;
      ChainEnds(src);
      SepNotIn(cells, src);
      var iA, iB;
      ghost var cs, i, j;
      iA, iB, cs, i, j := ClearSpan(H, T);
      MergeFits(vs, i, j, H, T, ss);
      ChainKept(src);
      assert Vals(src) == ss;
      NotInSep(cs, src);
      SpliceIn(iA, iB, h, t, cs, i, src);
      SplicedEnds(cs, i, src);
      cells := Relinked(cs, i, src, i + 1);
      EmptiedSpliced(vs, i, j, H, T, ss);
      ValidFromParts();
      ContentsBetween(Splice(Inner(vs), H, T, ss));
    }

    lemma ValidFromParts()
      requires Chain(cells) && Files(cells) && m_listheader == cells[0] && m_listtail == cells[|cells| - 1]
               && m_sl == m_listheader
      ensures Valid()
    {}

    lemma ContentsBetween(ps: seq<Piece>)
      requires Valid() && Vals(cells) == [HEADER] + ps + [TAIL]
      ensures Contents() == ps
    {
      hide Valid;
    }

    /** Empties the span addr..addr+size. */
    method Remove(addr: int, size: int)
      requires Valid() && InRange(addr, addr + size)
      modifies this, cells
      ensures Valid()
      ensures Contents() == Splice(old(Contents()), addr, addr + size, [])
      ensures forall k :: 0 <= k < |cells| ==> cells[k] in old(cells) || fresh(cells[k])
    {
      hide *;
      ValidParts();
      ghost var vs := Vals(cells);
      var iA, iB;
      ghost var cs, i, j;
      iA, iB, cs, i, j := ClearSpan(addr, addr + size);
      EmptiedSpliced(vs, i, j, addr, addr + size, []);
      RelinkedNothing(Vals(cs), i);
      cells := cs;
      ValidFromParts();
      ContentsBetween(Splice(Inner(vs), addr, addr + size, []));
    }

    // ---- reading ----

    /** One step of CreateSymbolList: a copy of it, put before the copies made so far. */
    static method CopyBefore(it: SymCell, tail: SymCell?, ghost cs: seq<SymCell>) returns (c: SymCell)
      requires cs == [] ==> tail == null
      requires cs != [] ==> Chain(cs) && tail == cs[0]
      modifies cs
      ensures fresh(c) && Chain([c] + cs) && Vals([c] + cs) == [old(it.Val())] + old(Vals(cs))
    {
      c := new SymCell.Copy(it);
      c.next := tail;
      if tail != null {
        tail.prev := c;
      }
      assert Vals(cs) == old(Vals(cs));
      assert Vals([c] + cs) == [c.Val()] + Vals(cs);
      if cs != [] {
        PrependChain(c, cs);
      } else {
        assert [c] + cs == [c];
      }
    }

    static lemma OneIndex(cs: seq<SymCell>, i: nat, j: nat)
      requires i < |cs| && j < |cs| && AllDistinct(cs)
      ensures cs[i] == cs[j] ==> i == j
    {}

    /** Private copies of the cells from after to before, linked in the same order. */
    static method CreateSymbolList(after: SymCell, before: SymCell, ghost cells: seq<SymCell>, ghost i: nat,
        ghost j: nat)
      returns (newAfter: SymCell, newBefore: SymCell, ghost cs: seq<SymCell>)
      requires i <= j < |cells| && after == cells[i] && before == cells[j] && AllDistinct(cells)
      requires forall k {:trigger cells[k].prev} :: 0 < k < |cells| ==> cells[k].prev == cells[k - 1]
      ensures fresh(cs) && |cs| == j - i + 1 && Chain(cs) && newAfter == cs[0] && newBefore == cs[j - i]
      ensures Vals(cs) == Vals(cells)[i..j + 1]
    {
      hide Chain, AllDistinct, Vals;
      ghost var vs := Vals(cells);
      var it := before;
      var newCell: SymCell? := null;
      ghost var q := j;
      cs := [];
      while it != after
        invariant i <= q <= j && it == cells[q]
        invariant fresh(cs) && |cs| == j - q
        invariant cs == [] ==> newCell == null
        invariant cs != [] ==> Chain(cs) && newCell == cs[0]
        invariant Vals(cells) == vs && Vals(cs) == vs[q + 1..j + 1]
        decreases q
      {
        assert it.prev == cells[q - 1];
        var c := CopyBefore(it, newCell, cs);
        cs := [c] + cs;
        newCell := c;
        assert vs[q..j + 1] == [vs[q]] + vs[q + 1..j + 1];
        it, q := it.prev, q - 1;
      }
      OneIndex(cells, q, i);
      newAfter := CopyBefore(it, newCell, cs);
      cs := [newAfter] + cs;
      assert vs[i..j + 1] == [vs[i]] + vs[i + 1..j + 1];
      newBefore := LastOf(newAfter, cs);
    }

    /** Detaches the n cells between after and before. */
    static method CutOut(after: SymCell, before: SymCell, ghost cs: seq<SymCell>, ghost n: nat)
      returns (cellList: SymCell)
      requires Chain(cs) && 0 < n && n + 1 < |cs| && after == cs[0] && before == cs[n + 1]
      modifies cs
      ensures cellList == cs[1] && Chain(cs[1..n + 1]) && Vals(cs) == old(Vals(cs))
    {
      before.prev.next := null;
      cellList := after.next;
      after.next.prev := null;
      assert Vals(cs) == old(Vals(cs));
      SubChain(cs, n);
    }

    /** Moves every cell of a list by d. */
    static method Rebase(first: SymCell, d: int, ghost cs: seq<SymCell>)
      requires Chain(cs) && first == cs[0]
      modifies (set c: SymCell | c in cs)`addr
      ensures Chain(cs) && Vals(cs) == Shift(old(Vals(cs)), d)
    {
      var tmp: SymCell? := first;
      ghost var q, vs := 0, Vals(cs);
      assert AllDistinct(cs);
      while tmp != null
        invariant q <= |cs| && tmp == (if q < |cs| then cs[q] else null)
        invariant forall k {:trigger cs[k].addr} :: 0 <= k < |cs| ==>
                  cs[k].addr == old(cs[k].addr) + if k < q then d else 0
        decreases |cs| - q
      {
        assert tmp.next == (if q + 1 < |cs| then cs[q + 1] else null);
        tmp.addr := tmp.addr + d;
        tmp, q := tmp.next, q + 1;
      }
      assert forall k {:trigger cs[k].Val()} :: 0 <= k < |cs| ==> cs[k].Val() == vs[k].(addr := vs[k].addr + d);
      assert Vals(cs) == Shift(vs, d);
      hide *;
      ChainKept(cs);
    }

    /** The first two calls of GetCellList: copies of the cells that the span touches. */
    method CopyAffected(H: int, T: int) returns (after: SymCell, before: SymCell, ghost copies: seq<SymCell>)
      requires Valid() && InRange(H, T)
      ensures fresh(copies) && |copies| > 0 && Chain(copies) && after == copies[0] && before == copies[|copies| - 1]
      ensures Spans(Vals(copies), 0, |copies| - 1, H, T)
      ensures Window(Vals(copies), H, T) == Window(Contents(), H, T)
    {
      hide *;
      ValidParts();
      ScanParts();
      ghost var vs := Vals(cells);
      ghost var i, j;
      var iA, iB;
      iA, iB, i, j := GetAffectedCells(H, T);
      StraddleSpans(vs, i, j, H, T);
      WindowMiddle(vs, i, j, H, T);
      SpansSlice(vs, i, j, H, T);
      after, before, copies := CreateSymbolList(iA, iB, cells, i, j);
    }

    /** The cells of a span, as private copies cut to the span and rebased to start at 0. */
    method GetCellList(addr: int, size: int) returns (cellList: SymCell, ghost out: seq<SymCell>)
      requires Valid() && InRange(addr, addr + size)
      requires Window(Contents(), addr, addr + size) != []
      ensures fresh(out) && Chain(out) && cellList == out[0]
      ensures Vals(out) == Shift(Window(Contents(), addr, addr + size), -addr)
    {
      hide *;
      var after, before;
      ghost var copies, cs, n;
      ghost var w := Window(Contents(), addr, addr + size);
      after, before, copies := CopyAffected(addr, addr + size);
      ghost var j, vs := |copies| - 1, Vals(copies);
      SpansEnds(vs, j, addr, addr + size);
      before, cs, n := Split_Head_Tail(after, before, addr, addr + size, true, copies, 0, j);
      assert forall k :: 0 <= k < |cs| ==> fresh(cs[k]);
      out := cs[1..n + 1];
      MiddleOfSplit(vs, j, addr, addr + size);
      cellList := CutOut(after, before, cs, n);
      ValsSlice(cs, 1, n + 1);
      Rebase(cellList, -addr, out);
    }

    /** The vectors GetExpr fills: the cells of a list that starts at 0, with one-byte constants between them. */
    static method CollectParts(cellList: SymCell, size: nat, conc: seq<byte>, ghost out: seq<SymCell>)
      returns (exprs: seq<Expr>, offsets: seq<int>, sizes: seq<int>, n: nat)
      requires Chain(out) && cellList == out[0] && size <= |conc|
      requires Tidy(Vals(out)) && Within(Vals(out), 0, size)
      ensures var fs := Fill(Vals(out), 0, size, conc);
              n == |fs| && exprs == ExprsOf(fs) && offsets == AddrsOf(fs) && sizes == SizesOf(fs)
    {
      hide *;
      ghost var ws := Vals(out);
      ghost var whole := Fill(ws, 0, size, conc);
      ghost var q, fs: seq<Piece> := 0, [];
      var tmp: SymCell? := cellList;
      var next_addr: nat := 0;
      exprs, offsets, sizes, n := [], [], [], 0;
      ListParts(out);
      CollectStart(ws, size, conc);
      while tmp != null
        invariant q <= |out| && tmp == (if q < |out| then out[q] else null)
        invariant Collected(ws[q..], next_addr, size, conc, fs, whole)
        invariant n == |fs| && exprs == ExprsOf(fs) && offsets == AddrsOf(fs) && sizes == SizesOf(fs)
        decreases |out| - q
      {
        while next_addr < tmp.addr
          invariant Collected(ws[q..], next_addr, size, conc, fs, whole)
          invariant n == |fs| && exprs == ExprsOf(fs) && offsets == AddrsOf(fs) && sizes == SizesOf(fs)
        {
          fs := CollectFiller(ws[q..], next_addr, size, conc, fs, whole);
          sizes, offsets, exprs := sizes + [1], offsets + [next_addr], exprs + [Const(conc[next_addr], 1)];
          n := n + 1;
          next_addr := next_addr + 1;
        }
        fs := CollectCell(ws[q..], next_addr, size, conc, fs, whole);
        sizes, offsets, exprs := sizes + [tmp.size], offsets + [tmp.addr], exprs + [tmp.exprPtr];
        n := n + 1;
        next_addr := tmp.addr + tmp.size;
        tmp, q := tmp.next, q + 1;
      }
      assert ws[q..] == [];
      while next_addr < size
        invariant Collected([], next_addr, size, conc, fs, whole)
        invariant n == |fs| && exprs == ExprsOf(fs) && offsets == AddrsOf(fs) && sizes == SizesOf(fs)
      {
        fs := CollectFiller([], next_addr, size, conc, fs, whole);
        sizes, offsets, exprs := sizes + [1], offsets + [next_addr], exprs + [Const(conc[next_addr], 1)];
        n := n + 1;
        next_addr := next_addr + 1;
      }
      CollectDone(next_addr, size, conc, fs, whole);
    }

    /** The span as one expression: its live cells over the bytes of the concrete value. */
    method GetExpr(addr: int, size: nat, conc: seq<byte>) returns (e: Expr)
      requires Valid() && InRange(addr, addr + size) && size <= |conc|
      requires Window(Contents(), addr, addr + size) != []
      ensures var ws := Shift(Window(Contents(), addr, addr + size), -addr);
              Tidy(ws) && Within(ws, 0, size) && ws != [] && e == Assemble(ws, size, conc)
    {
      hide *;
      ghost var ws := Shift(Window(Contents(), addr, addr + size), -addr);
      RebasedWindow(addr, size);
      var cellList;
      ghost var out;
      cellList, out := GetCellList(addr, size);
      var exprs, offsets, sizes, n := CollectParts(cellList, size, conc, out);
      AssembleParts(ws, size, conc);
      ChainFirst(out);
      if n > 1 {
        e := CombineMulti(exprs, offsets, sizes, size);
      } else {
        e := cellList.exprPtr;
      }
    }

    lemma RebasedWindow(addr: int, size: nat)
      requires Valid() && InRange(addr, addr + size) && Window(Contents(), addr, addr + size) != []
      ensures var ws := Shift(Window(Contents(), addr, addr + size), -addr);
              Tidy(ws) && Within(ws, 0, size) && ws != []
    {
      hide *;
      ValidParts();
      FramedTidy(Vals(cells));
      RebasedTidy(Contents(), addr, size);
    }

    /** The do-while loop of GetAffectedCells, from cell i on; foundA says that i is already right. */
    static method Scan(start: SymCell, found: bool, H: int, T: int, ghost cs: seq<SymCell>, ghost vs: seq<Piece>,
        ghost i0: nat)
      returns (iA: SymCell, iB: SymCell, ghost i: nat, ghost j: nat)
      requires |vs| == |cs| && i0 < |cs| - 1 && start == cs[i0]
      requires forall k {:trigger cs[k].next} :: 0 <= k < |cs| - 1 ==> cs[k].next == cs[k + 1]
      requires forall k {:trigger cs[k].addr} {:trigger cs[k].size} :: 0 <= k < |cs| ==>
               cs[k].addr == vs[k].addr && cs[k].size == vs[k].size
      requires vs[i0].addr < H && End(vs[i0]) <= T
      requires found ==> H <= vs[i0 + 1].addr
      requires H <= vs[|vs| - 1].addr && T < End(vs[|vs| - 1])
      ensures i < |cs| - 1 && iA == cs[i]
      ensures 0 < j < |cs| && iB == cs[j]
      ensures vs[i].addr < H <= vs[i + 1].addr
      ensures End(vs[j - 1]) <= T < End(vs[j])
    {
      ghost var n := |cs|;
      var foundA, foundB := found, false;
      iA, i := start, i0;
      iB, j := start, i0;
      while !foundA || !foundB
        invariant i < n - 1 && iA == cs[i]
        invariant j < n && iB == cs[j]
        invariant vs[i].addr < H
        invariant foundA ==> H <= vs[i + 1].addr
        invariant !foundB ==> j < n - 1 && End(vs[j]) <= T
        invariant foundB ==> 0 < j && End(vs[j - 1]) <= T < End(vs[j])
        decreases (if foundA then 0 else n - i) + (if foundB then 0 else n - j)
      {
        if !foundA {
          if iA.addr < H && H <= iA.next.addr {
            foundA := true;
          } else {
            iA, i := iA.next, i + 1;
          }
        }
        if !foundB {
          if iB.addr + iB.size <= T && T < iB.next.addr + iB.next.size {
            iB, j := iB.next, j + 1;
            foundB := true;
          } else {
            iB, j := iB.next, j + 1;
          }
        }
      }
    }
  }
}
