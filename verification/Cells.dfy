/** Cells of the interval store (SymList.h) and null-terminated chains of them. */
module Cells {
  import opened Exprs
  import opened Pieces

  const HEADER_ADDR := -0x1000_0000_0000_0000
  const TAIL_ADDR := 0x7FF_FFFF_FFFF_FFFF
  const KEY_MOD := 0x800_0000_0000_0000

  /** ADDR_TO_KEY: the low 59 bits of a two's complement address. */
  function Key(addr: int): (k: int)
    ensures 0 <= k < KEY_MOD
    ensures 0 <= addr < KEY_MOD ==> k == addr
    ensures -KEY_MOD <= addr < 0 ==> k == addr + KEY_MOD
  {
    addr % KEY_MOD
  }

  /** Canonical addresses have different keys, and of them only -1 has the key of the tail sentinel. */
  lemma KeyTellsApart(a: int, b: int)
    requires LO <= a < HI && LO <= b < HI
    ensures Key(a) == Key(b) <==> a == b
    ensures Key(a) == Key(TAIL_ADDR) <==> a == -1
  {}

  class SymCell {
    var next: SymCell?
    var prev: SymCell?
    var addr: int
    var size: int
    var exprPtr: Expr

    constructor (o: int, s: int, ptr: Expr)
      ensures addr == o && size == s && exprPtr == ptr && next == null && prev == null
    {
      addr, size, exprPtr := o, s, ptr;
      next, prev := null, null;
    }

    constructor Copy(c: SymCell)
      ensures addr == c.addr && size == c.size && exprPtr == c.exprPtr && next == null && prev == null
    {
      next, prev := null, null;
      addr, size, exprPtr := c.addr, c.size, c.exprPtr;
    }

    ghost function Val(): Piece
      reads this
    {
      Piece(addr, size, exprPtr)
    }
  }

  ghost function Vals(cs: seq<SymCell>): (vs: seq<Piece>)
    reads cs
    ensures |vs| == |cs|
    ensures forall i {:trigger vs[i]} {:trigger cs[i].Val()} :: 0 <= i < |cs| ==> vs[i] == cs[i].Val()
  {
    seq(|cs|, i requires 0 <= i < |cs| reads cs => cs[i].Val())
  }

  ghost predicate AllDistinct(cs: seq<SymCell>) {
    forall i, j :: 0 <= i < j < |cs| ==> cs[i] != cs[j]
  }

  /** The cells are linked in this order, both ways, with null at the ends. */
  ghost predicate Chain(cs: seq<SymCell>)
    reads cs
  {
    && |cs| > 0
    && AllDistinct(cs)
    && cs[0].prev == null
    && cs[|cs| - 1].next == null
    && (forall i {:trigger cs[i].next} :: 0 <= i < |cs| - 1 ==> cs[i].next == cs[i + 1])
    && (forall i {:trigger cs[i].prev} :: 0 < i < |cs| ==> cs[i].prev == cs[i - 1])
  }

  // ---- relinking: the cells strictly between i and j are replaced by mid ----

  ghost predicate Sep(cs: seq<SymCell>, ds: seq<SymCell>) {
    forall i, j :: 0 <= i < |cs| && 0 <= j < |ds| ==> cs[i] != ds[j]
  }

  /** mid is linked from cell a on its left to cell b on its right. */
  ghost predicate Bridge(a: SymCell, mid: seq<SymCell>, b: SymCell?)
    reads a, mid, b
  {
    && a.next == (if mid == [] then b else mid[0])
    && (b != null ==> b.prev == if mid == [] then a else mid[|mid| - 1])
    && (mid != [] ==> mid[0].prev == a && mid[|mid| - 1].next == b)
    && (forall k {:trigger mid[k].next} :: 0 <= k < |mid| - 1 ==> mid[k].next == mid[k + 1])
    && (forall k {:trigger mid[k].prev} :: 0 < k < |mid| ==> mid[k].prev == mid[k - 1])
  }

  ghost function Relinked<T>(cs: seq<T>, i: nat, mid: seq<T>, j: nat): seq<T>
    requires i < j <= |cs|
  {
    cs[..i + 1] + mid + cs[j..]
  }

  twostate lemma RelinkNext(cs: seq<SymCell>, new i: nat, new mid: seq<SymCell>, new j: nat)
    requires i < j <= |cs|
    requires forall k {:trigger old(cs[k].next)} :: 0 <= k < |cs| - 1 ==> old(cs[k].next) == cs[k + 1]
    requires old(cs[|cs| - 1].next) == null
    requires Bridge(cs[i], mid, if j < |cs| then cs[j] else null)
    requires forall k {:trigger cs[k].next} :: 0 <= k < i ==> cs[k].next == old(cs[k].next)
    requires forall k {:trigger cs[k].next} :: j <= k < |cs| ==> cs[k].next == old(cs[k].next)
    ensures var r := Relinked(cs, i, mid, j);
            r[|r| - 1].next == null && forall k {:trigger r[k].next} :: 0 <= k < |r| - 1 ==> r[k].next == r[k + 1]
  {
    var r := Relinked(cs, i, mid, j);
    var m := i + 1 + |mid|;
    forall k | 0 <= k < |r| - 1 ensures r[k].next == r[k + 1] {
      if k < i {
        assert r[k] == cs[k] && r[k + 1] == cs[k + 1];
      } else if i < k < m {
        assert r[k] == mid[k - i - 1];
      } else if m <= k {
        assert r[k] == cs[k - m + j] && r[k + 1] == cs[k + 1 - m + j];
      }
    }
    if j < |cs| {
      assert r[|r| - 1] == cs[|cs| - 1];
    } else if mid != [] {
      assert r[|r| - 1] == mid[|mid| - 1];
    }
  }

  twostate lemma RelinkPrev(cs: seq<SymCell>, new i: nat, new mid: seq<SymCell>, new j: nat)
    requires i < j <= |cs|
    requires forall k {:trigger old(cs[k].prev)} :: 0 < k < |cs| ==> old(cs[k].prev) == cs[k - 1]
    requires old(cs[0].prev) == null
    requires Bridge(cs[i], mid, if j < |cs| then cs[j] else null)
    requires forall k {:trigger cs[k].prev} :: 0 <= k <= i ==> cs[k].prev == old(cs[k].prev)
    requires forall k {:trigger cs[k].prev} :: j < k < |cs| ==> cs[k].prev == old(cs[k].prev)
    ensures var r := Relinked(cs, i, mid, j);
            r[0].prev == null && forall k {:trigger r[k].prev} :: 0 < k < |r| ==> r[k].prev == r[k - 1]
  {
    var r := Relinked(cs, i, mid, j);
    var m := i + 1 + |mid|;
    assert r[0] == cs[0];
    forall k | 0 < k < |r| ensures r[k].prev == r[k - 1] {
      if k <= i {
        assert r[k] == cs[k] && r[k - 1] == cs[k - 1];
      } else if k < m {
        assert r[k] == mid[k - i - 1];
      } else if m < k {
        assert r[k] == cs[k - m + j] && r[k - 1] == cs[k - 1 - m + j];
      } else {
        assert r[k] == cs[j];
      }
    }
  }

  twostate lemma RelinkChain(cs: seq<SymCell>, new i: nat, new mid: seq<SymCell>, new j: nat)
    requires i < j <= |cs| && old(Chain(cs))
    requires AllDistinct(mid) && Sep(cs, mid)
    requires Bridge(cs[i], mid, if j < |cs| then cs[j] else null)
    requires forall k {:trigger cs[k].next} :: 0 <= k < i ==> cs[k].next == old(cs[k].next)
    requires forall k {:trigger cs[k].prev} :: 0 <= k <= i ==> cs[k].prev == old(cs[k].prev)
    requires forall k {:trigger cs[k].next} :: j <= k < |cs| ==> cs[k].next == old(cs[k].next)
    requires forall k {:trigger cs[k].prev} :: j < k < |cs| ==> cs[k].prev == old(cs[k].prev)
    ensures Chain(Relinked(cs, i, mid, j))
  {
    RelinkNext(cs, i, mid, j);
    RelinkPrev(cs, i, mid, j);
  }

  twostate lemma ChainKept(cs: seq<SymCell>)
    requires old(Chain(cs))
    requires forall k {:trigger cs[k].next} :: 0 <= k < |cs| ==> cs[k].next == old(cs[k].next)
    requires forall k {:trigger cs[k].prev} :: 0 <= k < |cs| ==> cs[k].prev == old(cs[k].prev)
    ensures Chain(cs)
  {}

  twostate lemma PrependChain(new c: SymCell, cs: seq<SymCell>)
    requires old(Chain(cs)) && c !in cs && c.prev == null && c.next == cs[0] && cs[0].prev == c
    requires forall k {:trigger cs[k].next} :: 0 <= k < |cs| ==> cs[k].next == old(cs[k].next)
    requires forall k {:trigger cs[k].prev} :: 0 < k < |cs| ==> cs[k].prev == old(cs[k].prev)
    ensures Chain([c] + cs)
  {
    var r := [c] + cs;
    assert forall k {:trigger r[k].next} :: 0 <= k < |r| - 1 ==> r[k].next == r[k + 1];
    assert forall k {:trigger r[k].prev} :: 0 < k < |r| ==> r[k].prev == r[k - 1];
  }

  twostate lemma SubChain(cs: seq<SymCell>, new n: nat)
    requires old(Chain(cs)) && 0 < n && n + 1 < |cs|
    requires cs[n].next == null && cs[1].prev == null
    requires forall k {:trigger cs[k].next} :: 0 < k < n ==> cs[k].next == old(cs[k].next)
    requires forall k {:trigger cs[k].prev} :: 1 < k <= n ==> cs[k].prev == old(cs[k].prev)
    ensures Chain(cs[1..n + 1])
  {
    var r := cs[1..n + 1];
    assert forall k :: 0 <= k < n ==> r[k] == cs[k + 1];
    assert AllDistinct(r);
    forall k | 0 <= k < n - 1 ensures r[k].next == r[k + 1] {
      assert cs[k + 1].next == old(cs[k + 1].next);
    }
    forall k | 0 < k < n ensures r[k].prev == r[k - 1] {
      assert cs[k + 1].prev == old(cs[k + 1].prev);
    }
  }

  /** Linking cell i straight to cell j. */
  twostate lemma UnlinkChain(cs: seq<SymCell>, new i: nat, new none: seq<SymCell>, new j: nat)
    requires i < j < |cs| && old(Chain(cs)) && none == []
    requires cs[i].next == cs[j] && cs[j].prev == cs[i]
    requires forall k {:trigger cs[k].next} :: 0 <= k < |cs| && k != i ==> cs[k].next == old(cs[k].next)
    requires forall k {:trigger cs[k].prev} :: 0 <= k < |cs| && k != j ==> cs[k].prev == old(cs[k].prev)
    ensures Chain(Relinked(cs, i, none, j))
  {
    RelinkChain(cs, i, none, j);
  }

  lemma RelinkVals(cs: seq<SymCell>, i: nat, mid: seq<SymCell>, j: nat)
    requires i < j <= |cs|
    ensures Vals(Relinked(cs, i, mid, j)) == Relinked(Vals(cs), i, Vals(mid), j)
  {
    var r, w := Relinked(cs, i, mid, j), Relinked(Vals(cs), i, Vals(mid), j);
    forall k | 0 <= k < |r| ensures r[k].Val() == w[k] {
      if k <= i {
        assert r[k] == cs[k];
      } else if k < i + 1 + |mid| {
        assert r[k] == mid[k - i - 1];
      } else {
        assert r[k] == cs[k - i - 1 - |mid| + j];
      }
    }
  }

  // ---- what chains and lists look like ----

  /** What a walk over a null-terminated list needs to know about it. */
  lemma ListParts(cs: seq<SymCell>)
    requires Chain(cs)
    ensures |cs| > 0 && forall k {:trigger cs[k].next} :: 0 <= k < |cs| ==>
            cs[k].next == if k + 1 < |cs| then cs[k + 1] else null
    ensures |Vals(cs)| == |cs|
    ensures forall k {:trigger cs[k].addr} {:trigger cs[k].size} {:trigger cs[k].exprPtr} :: 0 <= k < |cs| ==>
              Vals(cs)[k] == Piece(cs[k].addr, cs[k].size, cs[k].exprPtr)
  {}

  lemma SepMembers(cs: seq<SymCell>, ds: seq<SymCell>)
    requires Sep(cs, ds)
    ensures forall k {:trigger cs[k]} :: 0 <= k < |cs| ==> cs[k] !in ds
  {}

  lemma ChainDistinct(cs: seq<SymCell>)
    requires Chain(cs)
    ensures AllDistinct(cs)
  {}

  lemma SingleCell(c: SymCell, cs: seq<SymCell>)
    requires c !in cs && c.next == null && c.prev == null
    ensures Chain([c]) && Sep(cs, [c]) && Vals([c]) == [Piece(c.addr, c.size, c.exprPtr)]
    ensures First(Vals([c])) == c.addr && Stop(Vals([c])) == c.addr + c.size
  {}

  lemma ChainFirst(cs: seq<SymCell>)
    requires Chain(cs)
    ensures |cs| > 0 && cs[0].exprPtr == Vals(cs)[0].expr
  {}

  lemma ChainParts(cs: seq<SymCell>)
    requires Chain(cs)
    ensures |cs| > 0
  {}

  lemma ChainEnds(src: seq<SymCell>)
    requires |src| > 0
    ensures src[0].addr == First(Vals(src))
    ensures src[|src| - 1].addr + src[|src| - 1].size == Stop(Vals(src))
  {}

  lemma SepNotIn(cs: seq<SymCell>, ds: seq<SymCell>)
    requires Sep(cs, ds)
    ensures forall k :: 0 <= k < |ds| ==> ds[k] !in cs
  {}

  lemma NotInSep(cs: seq<SymCell>, ds: seq<SymCell>)
    requires forall k :: 0 <= k < |cs| ==> cs[k] !in ds
    ensures Sep(cs, ds)
  {}

  lemma ValsSlice(cs: seq<SymCell>, a: nat, b: nat)
    requires a <= b <= |cs|
    ensures Vals(cs[a..b]) == Vals(cs)[a..b]
  {}
}
