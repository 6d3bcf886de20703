/** The full cell list between its sentinels and the map that indexes it (SymList.cpp:21-50): what cutting, erasing and
    filing cells does to both. */
module CellIndex {
  import opened Exprs
  import opened Pieces
  import opened Cells

  // ---- the full list, sentinels included, as values ----

  const HEADER := Piece(HEADER_ADDR, 0, Null)
  const TAIL := Piece(TAIL_ADDR, 0, Null)

  function Inner(vs: seq<Piece>): seq<Piece>
    requires |vs| >= 2
  {
    vs[1..|vs| - 1]
  }

  /** Each cell ends before the next begins, and begins strictly earlier. */
  predicate Sorted(vs: seq<Piece>) {
    forall i, j :: 0 <= i < j < |vs| ==> End(vs[i]) <= vs[j].addr && vs[i].addr < vs[j].addr
  }

  predicate InnerOk(p: Piece) {
    ProperPiece(p) && LO <= p.addr && End(p) <= HI && p.addr != -1
  }

  predicate Framed(vs: seq<Piece>) {
    && |vs| >= 2
    && vs[0] == HEADER
    && vs[|vs| - 1] == TAIL
    && Sorted(vs)
    && forall i {:trigger InnerOk(vs[i])} :: 0 < i < |vs| - 1 ==> InnerOk(vs[i])
  }

  /** The sentinels leave no constraint on the inner cells beyond a well-formed list. */
  lemma FramedInner(vs: seq<Piece>)
    requires |vs| >= 2 && vs[0] == HEADER && vs[|vs| - 1] == TAIL
    ensures Framed(vs) <==> WFList(Inner(vs))
  {
    var ps, n := Inner(vs), |vs|;
    assert forall i :: 0 <= i < |ps| ==> ps[i] == vs[i + 1];
    if Framed(vs) {
      forall i | 0 <= i < |ps| ensures ProperPiece(ps[i]) && LO <= ps[i].addr && End(ps[i]) <= HI && ps[i].addr != -1 {
        assert InnerOk(vs[i + 1]);
      }
    }
    if WFList(ps) {
      forall i | 0 < i < n - 1 ensures InnerOk(vs[i]) {
        assert vs[i] == ps[i - 1];
      }
      forall i, j | 0 <= i < j < n ensures End(vs[i]) <= vs[j].addr && vs[i].addr < vs[j].addr {
        if 0 < i { assert vs[i] == ps[i - 1]; }
        if j < n - 1 { assert vs[j] == ps[j - 1]; }
      }
    }
  }

  /** New cells put between cells i and j of a framed list leave it framed. */
  lemma FramedRelink(vs: seq<Piece>, i: nat, mid: seq<Piece>, j: nat)
    requires Framed(vs) && i < j < |vs| && Sorted(mid)
    requires forall q :: 0 <= q < |mid| ==> InnerOk(mid[q]) && End(vs[i]) <= mid[q].addr && End(mid[q]) <= vs[j].addr
    ensures Framed(Relinked(vs, i, mid, j))
  {
    var r, m := Relinked(vs, i, mid, j), i + 1 + |mid|;
    assert i == 0 || InnerOk(vs[i]);
    forall k | 0 < k < |r| - 1 ensures InnerOk(r[k]) {
      if k <= i {
        assert r[k] == vs[k] && InnerOk(vs[k]);
      } else if k < m {
        assert r[k] == mid[k - i - 1];
      } else {
        assert r[k] == vs[k - m + j] && InnerOk(vs[k - m + j]);
      }
    }
    forall k, l | 0 <= k < l < |r| ensures End(r[k]) <= r[l].addr && r[k].addr < r[l].addr {
      RelinkedSortedAt(vs, i, mid, j, k, l);
    }
  }

  lemma RelinkedSortedAt(vs: seq<Piece>, i: nat, mid: seq<Piece>, j: nat, k: nat, l: nat)
    requires Framed(vs) && i < j < |vs| && Sorted(mid)
    requires forall q :: 0 <= q < |mid| ==> InnerOk(mid[q]) && End(vs[i]) <= mid[q].addr && End(mid[q]) <= vs[j].addr
    requires k < l < i + 1 + |mid| + |vs| - j
    ensures var r := Relinked(vs, i, mid, j);
            End(r[k]) <= r[l].addr && r[k].addr < r[l].addr
  {
    var r, m := Relinked(vs, i, mid, j), i + 1 + |mid|;
    assert i == 0 || InnerOk(vs[i]);
    if k <= i {
      assert r[k] == vs[k];
      if i < l < m {
        assert r[l] == mid[l - i - 1];
        assert k < i ==> End(vs[k]) <= vs[i].addr;
      } else if m <= l {
        assert r[l] == vs[l - m + j];
      }
    } else if k < m {
      assert r[k] == mid[k - i - 1];
      if l < m {
        assert r[l] == mid[l - i - 1];
      } else {
        assert r[l] == vs[l - m + j];
        assert m < l ==> vs[j].addr < vs[l - m + j].addr;
      }
    } else {
      assert r[k] == vs[k - m + j] && r[l] == vs[l - m + j];
    }
  }

  // ---- the index ----

  /** The key each cell of the full list is filed under: -1 for the header, ADDR_TO_KEY for the rest. */
  function Keys(vs: seq<Piece>): (ks: seq<int>)
    ensures |ks| == |vs|
    ensures forall i :: 0 < i < |vs| ==> ks[i] == Key(vs[i].addr)
    ensures vs != [] ==> ks[0] == -1
  {
    seq(|vs|, i requires 0 <= i < |vs| => if i == 0 then -1 else Key(vs[i].addr))
  }

  ghost predicate NoRepeat(ks: seq<int>) {
    forall i, j :: 0 <= i < j < |ks| ==> ks[i] != ks[j]
  }

  /** On a framed list the keys tell the cells apart. */
  lemma KeysNoRepeat(vs: seq<Piece>)
    requires Framed(vs)
    ensures NoRepeat(Keys(vs))
  {
    forall i, j | 0 < i < j < |vs| ensures Key(vs[i].addr) != Key(vs[j].addr) {
      assert InnerOk(vs[i]);
      assert j < |vs| - 1 ==> InnerOk(vs[j]);
    }
  }

  /** The index maps exactly these keys, each to its cell. */
  ghost predicate Indexed(ks: seq<int>, cs: seq<SymCell>, m: map<int, SymCell>) {
    && |ks| == |cs|
    && (forall i :: 0 <= i < |ks| ==> ks[i] in m && m[ks[i]] == cs[i])
    && (forall k :: k in m ==> k in ks)
  }

  /** Dropping the cells between i and j and filing mid instead. */
  lemma IndexRelink(ks: seq<int>, cs: seq<SymCell>, m: map<int, SymCell>,
                    i: nat, kmid: seq<int>, mid: seq<SymCell>, j: nat, m': map<int, SymCell>)
    requires Indexed(ks, cs, m) && i < j < |ks| && |kmid| == |mid|
    requires forall q :: 0 <= q < |mid| ==> kmid[q] in m' && m'[kmid[q]] == mid[q]
    requires forall k :: (0 <= k <= i || j <= k < |ks|) ==> ks[k] in m' && m'[ks[k]] == m[ks[k]]
    requires forall k :: k in m' ==> k in kmid || k in m
    requires forall k :: i < k < j && ks[k] in m' ==> ks[k] in kmid
    ensures Indexed(Relinked(ks, i, kmid, j), Relinked(cs, i, mid, j), m')
  {
    var ks', cs', n := Relinked(ks, i, kmid, j), Relinked(cs, i, mid, j), i + 1 + |mid|;
    forall k | 0 <= k < |ks'| ensures ks'[k] in m' && m'[ks'[k]] == cs'[k] {
      if k <= i {
        assert ks'[k] == ks[k] && cs'[k] == cs[k];
      } else if k < n {
        assert ks'[k] == kmid[k - i - 1] && cs'[k] == mid[k - i - 1];
      } else {
        assert ks'[k] == ks[k - n + j] && cs'[k] == cs[k - n + j];
      }
    }
    forall k | k in m' ensures k in ks' {
      if k in kmid {
        var q :| 0 <= q < |kmid| && kmid[q] == k;
        assert ks'[i + 1 + q] == k;
      } else {
        var q :| 0 <= q < |ks| && ks[q] == k;
        assert ks'[if q <= i then q else n + q - j] == k;
      }
    }
  }

  // ---- cutting one cell ----

  /** Cell k replaced by mid. */
  ghost function Replace<T>(cs: seq<T>, k: nat, mid: seq<T>): seq<T>
    requires k < |cs|
  {
    cs[..k] + mid + cs[k + 1..]
  }

  /** Values after new cells were put to the right of cell i, which was cut. */
  twostate lemma ValsAfterCut(cs: seq<SymCell>, new i: nat, new mid: seq<SymCell>)
    requires i < |cs|
    requires forall k {:trigger cs[k].Val()} :: 0 <= k < |cs| && k != i ==> cs[k].Val() == old(cs[k].Val())
    ensures Vals(Relinked(cs, i, mid, i + 1)) == Replace(old(Vals(cs)), i, [cs[i].Val()] + Vals(mid))
  {
    assert Vals(cs) == old(Vals(cs))[i := cs[i].Val()];
    RelinkVals(cs, i, mid, i + 1);
  }

  /** Values after new cells were put to the left of cell j, which was cut. */
  twostate lemma ValsAfterCutLeft(cs: seq<SymCell>, new j: nat, new mid: seq<SymCell>)
    requires 0 < j < |cs|
    requires forall k {:trigger cs[k].Val()} :: 0 <= k < |cs| && k != j ==> cs[k].Val() == old(cs[k].Val())
    ensures Vals(Relinked(cs, j - 1, mid, j)) == Replace(old(Vals(cs)), j, Vals(mid) + [cs[j].Val()])
  {
    assert Vals(cs) == old(Vals(cs))[j := cs[j].Val()];
    RelinkVals(cs, j - 1, mid, j);
  }

  /** A cut whose new cells go to the right of cell i. */
  twostate lemma AfterCut(cs: seq<SymCell>, new i: nat, new mid: seq<SymCell>)
    requires i < |cs| && old(Chain(cs)) && AllDistinct(mid) && Sep(cs, mid)
    requires Bridge(cs[i], mid, old(cs[i].next))
    requires forall k {:trigger cs[k].next} :: 0 <= k < |cs| && k != i ==> cs[k].next == old(cs[k].next)
    requires forall k {:trigger cs[k].Val()} :: 0 <= k < |cs| && k != i ==> cs[k].Val() == old(cs[k].Val())
    requires forall k {:trigger cs[k].prev} :: 0 <= k < |cs| && k != i + 1 ==> cs[k].prev == old(cs[k].prev)
    ensures Chain(Relinked(cs, i, mid, i + 1))
    ensures Vals(Relinked(cs, i, mid, i + 1)) == Replace(old(Vals(cs)), i, [cs[i].Val()] + Vals(mid))
  {
    ValsAfterCut(cs, i, mid);
    RelinkChain(cs, i, mid, i + 1);
  }

  /** A cut whose new cells go to the left of cell j. */
  twostate lemma AfterCutLeft(cs: seq<SymCell>, new j: nat, new mid: seq<SymCell>)
    requires 0 < j < |cs| && old(Chain(cs)) && AllDistinct(mid) && Sep(cs, mid)
    requires Bridge(cs[j - 1], mid, cs[j])
    requires forall k {:trigger cs[k].next} :: 0 <= k < |cs| && k != j - 1 ==> cs[k].next == old(cs[k].next)
    requires forall k {:trigger cs[k].Val()} :: 0 <= k < |cs| && k != j ==> cs[k].Val() == old(cs[k].Val())
    requires forall k {:trigger cs[k].prev} :: 0 <= k < |cs| && k != j ==> cs[k].prev == old(cs[k].prev)
    ensures Chain(Relinked(cs, j - 1, mid, j))
    ensures Vals(Relinked(cs, j - 1, mid, j)) == Replace(old(Vals(cs)), j, Vals(mid) + [cs[j].Val()])
  {
    ValsAfterCutLeft(cs, j, mid);
    RelinkChain(cs, j - 1, mid, j);
  }

  /** A cell cut at x, if x lies strictly inside it. */
  function CutAt(p: Piece, x: int): seq<Piece> {
    if p.addr < x < End(p) then [Clip(p, p.addr, x), Clip(p, x, End(p))] else [p]
  }

  /** pieces lie inside p in order, the first one at its start. */
  ghost predicate PiecesOf(pieces: seq<Piece>, p: Piece) {
    && pieces != [] && pieces[0].addr == p.addr && Sorted(pieces)
    && forall q :: 0 <= q < |pieces| ==> InnerOk(pieces[q]) && p.addr <= pieces[q].addr && End(pieces[q]) <= End(p)
  }

  lemma CutFramed(vs: seq<Piece>, k: nat, pieces: seq<Piece>)
    requires Framed(vs) && 0 < k < |vs| - 1 && PiecesOf(pieces, vs[k])
    ensures Framed(Replace(vs, k, pieces))
  {
    FramedRelink(vs, k - 1, pieces, k + 1);
    assert Replace(vs, k, pieces) == Relinked(vs, k - 1, pieces, k + 1);
  }

  function PieceKeys(pieces: seq<Piece>): (ks: seq<int>)
    ensures |ks| == |pieces|
    ensures forall q :: 0 <= q < |pieces| ==> ks[q] == Key(pieces[q].addr)
  {
    seq(|pieces|, q requires 0 <= q < |pieces| => Key(pieces[q].addr))
  }

  /** m' is m with each key of kmid filed under the cell at the same place in mid. */
  ghost predicate Filed(m: map<int, SymCell>, kmid: seq<int>, mid: seq<SymCell>, m': map<int, SymCell>)
    requires |kmid| == |mid|
  {
    && (forall q :: 0 <= q < |mid| ==> kmid[q] in m' && m'[kmid[q]] == mid[q])
    && (forall x :: x in m' ==> x in m || x in kmid)
    && (forall x :: x in m && x !in kmid ==> x in m' && m'[x] == m[x])
  }

  lemma ReplaceNoRepeat(ks: seq<int>, k: nat, kmid: seq<int>, l: nat)
    requires k < |ks| && NoRepeat(Replace(ks, k, kmid)) && l < |ks| && l != k
    ensures ks[l] !in kmid
  {
    var ks' := Replace(ks, k, kmid);
    assert ks[l] == ks'[if l < k then l else l - 1 + |kmid|];
    assert forall q :: 0 <= q < |kmid| ==> kmid[q] == ks'[k + q];
  }

  lemma IndexReplaceAt(ks: seq<int>, cs: seq<SymCell>, m: map<int, SymCell>,
                       k: nat, kmid: seq<int>, mid: seq<SymCell>, m': map<int, SymCell>, l: nat)
    requires |ks| == |cs| && k < |ks| && |kmid| == |mid| > 0
    requires forall i :: 0 <= i < |ks| ==> ks[i] in m && m[ks[i]] == cs[i]
    requires NoRepeat(Replace(ks, k, kmid))
    requires forall q :: 0 <= q < |mid| ==> kmid[q] in m' && m'[kmid[q]] == mid[q]
    requires forall x :: x in m && x !in kmid ==> x in m' && m'[x] == m[x]
    requires l < |ks| - 1 + |mid|
    ensures Replace(ks, k, kmid)[l] in m' && m'[Replace(ks, k, kmid)[l]] == Replace(cs, k, mid)[l]
  {
    var n := |mid|;
    if k <= l < k + n {
      var q := l - k;
      assert Replace(ks, k, kmid)[k + q] == kmid[q] && Replace(cs, k, mid)[k + q] == mid[q];
    } else {
      var q := if l < k then l else l - n + 1;
      ReplaceNoRepeat(ks, k, kmid, q);
      assert Replace(ks, k, kmid)[l] == ks[q] && Replace(cs, k, mid)[l] == cs[q];
    }
  }

  lemma IndexReplace(ks: seq<int>, cs: seq<SymCell>, m: map<int, SymCell>,
                     k: nat, kmid: seq<int>, mid: seq<SymCell>, m': map<int, SymCell>)
    requires Indexed(ks, cs, m) && k < |ks| && |kmid| == |mid| > 0 && kmid[0] == ks[k]
    requires NoRepeat(Replace(ks, k, kmid))
    requires Filed(m, kmid, mid, m')
    ensures Indexed(Replace(ks, k, kmid), Replace(cs, k, mid), m')
  {
    forall l | 0 <= l < |ks| - 1 + |mid|
      ensures Replace(ks, k, kmid)[l] in m' && m'[Replace(ks, k, kmid)[l]] == Replace(cs, k, mid)[l]
    {
      IndexReplaceAt(ks, cs, m, k, kmid, mid, m', l);
    }
    forall x | x in m' ensures x in Replace(ks, k, kmid) {
    }
  }

  lemma KeysReplace(vs: seq<Piece>, k: nat, pieces: seq<Piece>)
    requires 0 < k < |vs|
    ensures Keys(Replace(vs, k, pieces)) == Replace(Keys(vs), k, PieceKeys(pieces))
  {}

  /** Filing the pieces of cell k in the index. */
  lemma CutIndex(vs: seq<Piece>, cs: seq<SymCell>, m: map<int, SymCell>,
                 k: nat, pieces: seq<Piece>, mid: seq<SymCell>, m': map<int, SymCell>)
    requires Framed(vs) && Indexed(Keys(vs), cs, m)
    requires 0 < k < |vs| - 1 && PiecesOf(pieces, vs[k]) && |pieces| == |mid|
    requires Filed(m, PieceKeys(pieces), mid, m')
    ensures Framed(Replace(vs, k, pieces))
    ensures Indexed(Keys(Replace(vs, k, pieces)), Replace(cs, k, mid), m')
  {
    CutFramed(vs, k, pieces);
    KeysNoRepeat(Replace(vs, k, pieces));
    KeysReplace(vs, k, pieces);
    IndexReplace(Keys(vs), cs, m, k, PieceKeys(pieces), mid, m');
  }

  /** The three parts of a cell that straddles H..T. */
  function CutIn3(p: Piece, H: int, T: int): seq<Piece>
    requires p.addr < H < T < End(p)
  {
    [Clip(p, p.addr, H), Clip(p, H, T), Clip(p, T, End(p))]
  }

  lemma CutAtPieces(p: Piece, x: int)
    requires InnerOk(p) && p.addr < x < End(p) && x != -1
    ensures PiecesOf(CutAt(p, x), p) && PieceKeys(CutAt(p, x)) == [Key(p.addr), Key(x)]
  {}

  lemma CutIn3Pieces(p: Piece, H: int, T: int)
    requires InnerOk(p) && p.addr < H < T < End(p) && H != -1 && T != -1
    ensures PiecesOf(CutIn3(p, H, T), p) && PieceKeys(CutIn3(p, H, T)) == [Key(p.addr), Key(H), Key(T)]
  {}

  lemma FramedCuttable(vs: seq<Piece>, k: nat, x: int)
    requires Framed(vs) && k < |vs| && vs[k].addr < x < End(vs[k])
    ensures 0 < k < |vs| - 1 && InnerOk(vs[k])
  {
    assert k == 0 || k == |vs| - 1 || InnerOk(vs[k]);
  }

  lemma RelinkedAsReplace<T>(cs: seq<T>, i: nat, mid: seq<T>)
    requires i < |cs|
    ensures Relinked(cs, i, mid, i + 1) == Replace(cs, i, [cs[i]] + mid)
    ensures i > 0 ==> Relinked(cs, i - 1, mid, i) == Replace(cs, i, mid + [cs[i]])
  {}

  lemma HeadIndex(vs: seq<Piece>, cs: seq<SymCell>, m: map<int, SymCell>, i: nat, H: int, p: SymCell)
    requires Framed(vs) && Indexed(Keys(vs), cs, m) && i < |vs| && vs[i].addr < H < End(vs[i]) && H != -1
    ensures Framed(Replace(vs, i, CutAt(vs[i], H)))
    ensures Indexed(Keys(Replace(vs, i, CutAt(vs[i], H))), Relinked(cs, i, [p], i + 1),
            m[Key(H) := p][Key(vs[i].addr) := cs[i]])
  {
    FramedCuttable(vs, i, H);
    CutAtPieces(vs[i], H);
    RelinkedAsReplace(cs, i, [p]);
    CutIndex(vs, cs, m, i, CutAt(vs[i], H), [cs[i]] + [p], m[Key(H) := p][Key(vs[i].addr) := cs[i]]);
  }

  lemma TailIndex(vs: seq<Piece>, cs: seq<SymCell>, m: map<int, SymCell>, j: nat, T: int, p: SymCell)
    requires Framed(vs) && Indexed(Keys(vs), cs, m) && 0 < j < |vs| && vs[j].addr < T < End(vs[j]) && T != -1
    ensures Framed(Replace(vs, j, CutAt(vs[j], T)))
    ensures Indexed(Keys(Replace(vs, j, CutAt(vs[j], T))), Relinked(cs, j - 1, [p], j),
            m[Key(T) := cs[j]][Key(vs[j].addr) := p])
  {
    FramedCuttable(vs, j, T);
    CutAtPieces(vs[j], T);
    RelinkedAsReplace(cs, j, [p]);
    CutIndex(vs, cs, m, j, CutAt(vs[j], T), [p] + [cs[j]], m[Key(T) := cs[j]][Key(vs[j].addr) := p]);
  }

  lemma MiddleIndex(vs: seq<Piece>, cs: seq<SymCell>, m: map<int, SymCell>, i: nat, H: int, T: int, p: SymCell,
      q: SymCell)
    requires Framed(vs) && Indexed(Keys(vs), cs, m) && i < |vs|
    requires vs[i].addr < H < T < End(vs[i]) && H != -1 && T != -1
    ensures Framed(Replace(vs, i, CutIn3(vs[i], H, T)))
    ensures Indexed(Keys(Replace(vs, i, CutIn3(vs[i], H, T))), Relinked(cs, i, [p, q], i + 1),
                    m[Key(T) := q][Key(H) := p][Key(vs[i].addr) := cs[i]])
  {
    FramedCuttable(vs, i, H);
    CutIn3Pieces(vs[i], H, T);
    RelinkedAsReplace(cs, i, [p, q]);
    CutIndex(vs, cs, m, i, CutIn3(vs[i], H, T), [cs[i]] + [p, q],
        m[Key(T) := q][Key(H) := p][Key(vs[i].addr) := cs[i]]);
  }

  // ---- cutting at both ends of a span ----

  /** m' is m without the keys of gone. */
  ghost predicate Erased(m: map<int, SymCell>, gone: seq<int>, m': map<int, SymCell>) {
    && (forall x :: x in m' <==> x in m && x !in gone)
    && (forall x :: x in m' ==> m'[x] == m[x])
  }

  lemma EraseKept(ks: seq<int>, i: nat, j: nat, k: nat)
    requires NoRepeat(ks) && i < j <= |ks| && k < |ks| && (k <= i || j <= k)
    ensures ks[k] !in ks[i + 1..j]
  {
    var w := ks[i + 1..j];
    assert forall q :: 0 <= q < |w| ==> w[q] == ks[i + 1 + q];
  }

  lemma EraseIndexed(ks: seq<int>, cs: seq<SymCell>, m: map<int, SymCell>, i: nat, j: nat, m': map<int, SymCell>)
    requires Indexed(ks, cs, m) && NoRepeat(ks) && i < j < |ks|
    requires Erased(m, ks[i + 1..j], m')
    ensures Indexed(Relinked(ks, i, [], j), Relinked(cs, i, [], j), m')
  {
    forall k | 0 <= k <= i || j <= k < |ks| ensures ks[k] in m' {
      EraseKept(ks, i, j, k);
      var x := ks[k];
      assert x in m && x !in ks[i + 1..j];
    }
    forall k | i < k < j ensures ks[k] !in m' {
      var x := ks[k];
      assert x == ks[i + 1..j][k - i - 1];
      assert x in ks[i + 1..j];
    }
    IndexRelink(ks, cs, m, i, [], [], j, m');
  }

  lemma ErasedFramed(vs: seq<Piece>, i: nat, j: nat)
    requires Framed(vs) && i < j < |vs|
    ensures Framed(Relinked(vs, i, [], j))
  {
    FramedRelink(vs, i, [], j);
  }

  lemma ErasedKeys(vs: seq<Piece>, i: nat, j: nat)
    requires i < j < |vs|
    ensures PieceKeys(vs[i + 1..j]) == Keys(vs)[i + 1..j]
    ensures Keys(Relinked(vs, i, [], j)) == Relinked(Keys(vs), i, [], j)
  {}

  /** Unfiling the cells between i and j leaves exactly the others filed. */
  lemma EraseIndex(vs: seq<Piece>, cs: seq<SymCell>, m: map<int, SymCell>, i: nat, j: nat, m': map<int, SymCell>)
    requires Framed(vs) && Indexed(Keys(vs), cs, m) && i < j < |vs| == |cs|
    requires Erased(m, PieceKeys(vs[i + 1..j]), m')
    ensures Framed(Relinked(vs, i, [], j))
    ensures Indexed(Keys(Relinked(vs, i, [], j)), Relinked(cs, i, [], j), m')
  {
    hide *;
    KeysNoRepeat(vs);
    ErasedFramed(vs, i, j);
    ErasedKeys(vs, i, j);
    EraseIndexed(Keys(vs), cs, m, i, j, m');
  }

  lemma FiledNext(m: map<int, SymCell>, keys: seq<int>, src: seq<SymCell>, q: nat, m': map<int, SymCell>)
    requires q < |src| == |keys| && NoRepeat(keys)
    requires Filed(m, keys[..q], src[..q], m')
    ensures Filed(m, keys[..q + 1], src[..q + 1], m'[keys[q] := src[q]])
  {
    var k', s', n := keys[..q + 1], src[..q + 1], m'[keys[q] := src[q]];
    assert k' == keys[..q] + [keys[q]];
    forall l | 0 <= l < |k'| ensures k'[l] in n && n[k'[l]] == s'[l] {
      if l < q {
        assert keys[..q][l] == keys[l] && src[..q][l] == src[l];
      }
    }
  }

  /** The pieces lie, in order, between cell i and the next. */
  ghost predicate FitsBetween(vs: seq<Piece>, i: nat, mid: seq<Piece>) {
    && i + 1 < |vs| && Sorted(mid)
    && forall q :: 0 <= q < |mid| ==> InnerOk(mid[q]) && End(vs[i]) <= mid[q].addr && End(mid[q]) <= vs[i + 1].addr
  }

  lemma SplicedKeys(vs: seq<Piece>, i: nat, mid: seq<Piece>)
    requires Framed(vs) && FitsBetween(vs, i, mid)
    ensures Framed(Relinked(vs, i, mid, i + 1))
    ensures Keys(Relinked(vs, i, mid, i + 1)) == Relinked(Keys(vs), i, PieceKeys(mid), i + 1)
    ensures NoRepeat(Keys(Relinked(vs, i, mid, i + 1))) && NoRepeat(PieceKeys(mid))
  {
    FitsParts(vs, i, mid);
    hide *;
    FramedRelink(vs, i, mid, i + 1);
    KeysNoRepeat(Relinked(vs, i, mid, i + 1));
    KeysRelinked(vs, i, mid);
  }

  lemma FitsParts(vs: seq<Piece>, i: nat, mid: seq<Piece>)
    requires FitsBetween(vs, i, mid)
    ensures i + 1 < |vs| && Sorted(mid)
    ensures forall q :: 0 <= q < |mid| ==> InnerOk(mid[q]) && End(vs[i]) <= mid[q].addr && End(mid[q]) <= vs[i + 1].addr
  {}

  lemma KeysRelinked(vs: seq<Piece>, i: nat, mid: seq<Piece>)
    requires i + 1 < |vs|
    ensures Keys(Relinked(vs, i, mid, i + 1)) == Relinked(Keys(vs), i, PieceKeys(mid), i + 1)
  {}

  lemma FiledKept(ks: seq<int>, i: nat, kmid: seq<int>, k: nat)
    requires i + 1 < |ks| && k < |ks| && NoRepeat(Relinked(ks, i, kmid, i + 1))
    ensures ks[k] !in kmid
  {
    var r := Relinked(ks, i, kmid, i + 1);
    assert ks[k] == r[if k <= i then k else k + |kmid|];
    assert forall q :: 0 <= q < |kmid| ==> kmid[q] == r[i + 1 + q];
  }

  lemma FiledIndexed(ks: seq<int>, cs: seq<SymCell>, m: map<int, SymCell>,
                     i: nat, kmid: seq<int>, mid: seq<SymCell>, m': map<int, SymCell>)
    requires Indexed(ks, cs, m) && i + 1 < |ks| && |kmid| == |mid|
    requires NoRepeat(Relinked(ks, i, kmid, i + 1)) && Filed(m, kmid, mid, m')
    ensures Indexed(Relinked(ks, i, kmid, i + 1), Relinked(cs, i, mid, i + 1), m')
  {
    hide Relinked;
    forall k | 0 <= k < |ks| ensures ks[k] in m' && m'[ks[k]] == m[ks[k]] {
      FiledKept(ks, i, kmid, k);
      var x := ks[k];
      assert x in m && x !in kmid;
    }
    IndexRelink(ks, cs, m, i, kmid, mid, i + 1, m');
  }

  lemma SplicedIndex(vs: seq<Piece>, cs: seq<SymCell>, m: map<int, SymCell>,
                     i: nat, mid: seq<Piece>, src: seq<SymCell>, m': map<int, SymCell>)
    requires Framed(vs) && Indexed(Keys(vs), cs, m) && FitsBetween(vs, i, mid) && |mid| == |src|
    requires Filed(m, PieceKeys(mid), src, m')
    ensures Framed(Relinked(vs, i, mid, i + 1))
    ensures Indexed(Keys(Relinked(vs, i, mid, i + 1)), Relinked(cs, i, src, i + 1), m')
  {
    assert i + 1 < |vs| by { hide Framed; }
    hide *;
    SplicedKeys(vs, i, mid);
    FiledIndexed(Keys(vs), cs, m, i, PieceKeys(mid), src, m');
  }
}
