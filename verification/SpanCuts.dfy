/** A span of the interval store: the cells that straddle its ends, and what is left when it is emptied. */
module SpanCuts {
  import opened Pieces
  import opened Cells
  import opened CellIndex

  /** What stays of a cell before H. */
  function LeftPart(p: Piece, H: int): Piece
    requires p.addr < H
  {
    if End(p) > H then Clip(p, p.addr, H) else p
  }

  /** What stays of a cell from T on. */
  function RightPart(p: Piece, T: int): Piece
    requires T < End(p)
  {
    if p.addr < T then Clip(p, T, End(p)) else p
  }

  /** The list with cells i and j cut at H and T; the cells of the span stand between their outer parts. */
  ghost function SplitVals(vs: seq<Piece>, i: nat, j: nat, H: int, T: int): seq<Piece>
    requires i <= j < |vs| && vs[i].addr < H && T < End(vs[j])
  {
    vs[..i] + [LeftPart(vs[i], H)] + Window(vs[i..j + 1], H, T) + [RightPart(vs[j], T)] + vs[j + 1..]
  }

  /** Cell i starts before the span, cell j ends after it, and the cells between lie inside it. */
  ghost predicate Spans(vs: seq<Piece>, i: nat, j: nat, H: int, T: int) {
    && i <= j < |vs| && H < T && vs[i].addr < H && T < End(vs[j])
    && (i < j ==> End(vs[i]) <= T && H <= vs[j].addr)
    && (forall k :: i < k < j ==> H <= vs[k].addr && End(vs[k]) <= T && vs[k].size >= 1)
  }

  lemma SplitOne(vs: seq<Piece>, i: nat, H: int, T: int)
    requires Spans(vs, i, i, H, T)
    ensures End(vs[i]) > T && Replace(vs, i, CutIn3(vs[i], H, T)) == SplitVals(vs, i, i, H, T)
    ensures |Window(vs[i..i + 1], H, T)| == 1
  {
    assert vs[i..i + 1] == [vs[i]];
    assert Window([vs[i]], H, T) == ClipOne(vs[i], H, T) + Window([], H, T);
    assert Window([vs[i]], H, T) == [Clip(vs[i], H, T)];
  }

  lemma WindowSpan(vs: seq<Piece>, i: nat, j: nat, H: int, T: int)
    requires Spans(vs, i, j, H, T) && i < j
    ensures Window(vs[i..j + 1], H, T) == ClipOne(vs[i], H, T) + vs[i + 1..j] + ClipOne(vs[j], H, T)
  {
    assert vs[i..j + 1] == [vs[i]] + vs[i + 1..j] + [vs[j]];
    WindowConcat([vs[i]] + vs[i + 1..j], [vs[j]], H, T);
    WindowConcat([vs[i]], vs[i + 1..j], H, T);
    WindowInside(vs[i + 1..j], H, T);
  }

  lemma ReplaceTwice<T>(vs: seq<T>, i: nat, h: seq<T>, j: nat, t: seq<T>)
    requires i < j < |vs| && h != []
    ensures Replace(vs, i, h)[j + |h| - 1] == vs[j]
    ensures Replace(Replace(vs, i, h), j + |h| - 1, t) == vs[..i] + h + vs[i + 1..j] + t + vs[j + 1..]
  {
    var r := Replace(vs, i, h);
    assert r == vs[..i] + h + vs[i + 1..j] + vs[j..];
    assert r[..j + |h| - 1] == vs[..i] + h + vs[i + 1..j];
    assert r[j + |h|..] == vs[j + 1..];
  }

  lemma CutAtParts(p: Piece, x: int)
    ensures p.addr < x ==> CutAt(p, x) == [LeftPart(p, x)] + ClipOne(p, x, Max(x, End(p)))
    ensures x < End(p) ==> CutAt(p, x) == ClipOne(p, Min(x, p.addr), x) + [RightPart(p, x)]
  {}

  lemma SpansCut(vs: seq<Piece>, i: nat, j: nat, H: int, T: int)
    requires Spans(vs, i, j, H, T) && i < j
    ensures j < |vs| && vs[i].addr < H && T < End(vs[j])
    ensures CutAt(vs[i], H) == [LeftPart(vs[i], H)] + ClipOne(vs[i], H, T)
    ensures CutAt(vs[j], T) == ClipOne(vs[j], H, T) + [RightPart(vs[j], T)]
  {
    CutAtParts(vs[i], H);
    CutAtParts(vs[j], T);
  }

  lemma SplitValsDef(vs: seq<Piece>, i: nat, j: nat, H: int, T: int)
    requires i <= j < |vs| && vs[i].addr < H && T < End(vs[j])
    ensures SplitVals(vs, i, j, H, T)
            == vs[..i] + [LeftPart(vs[i], H)] + Window(vs[i..j + 1], H, T) + [RightPart(vs[j], T)] + vs[j + 1..]
  {}

  lemma SplitTwo(vs: seq<Piece>, i: nat, j: nat, H: int, T: int)
    requires Spans(vs, i, j, H, T) && i < j
    ensures var h, t := CutAt(vs[i], H), CutAt(vs[j], T);
            && Replace(Replace(vs, i, h), j + |h| - 1, t) == SplitVals(vs, i, j, H, T)
            && |Window(vs[i..j + 1], H, T)| == |h| - 1 + (j - i - 1) + |t| - 1
  {
    hide *;
    SpansCut(vs, i, j, H, T);
    var h, t := CutAt(vs[i], H), CutAt(vs[j], T);
    var x, y := ClipOne(vs[i], H, T), ClipOne(vs[j], H, T);
    ReplaceTwice(vs, i, h, j, t);
    WindowSpan(vs, i, j, H, T);
    SplitValsDef(vs, i, j, H, T);
  }

  /** The list with the span emptied: only the outer parts of its outer cells are left between. */
  ghost function Emptied(vs: seq<Piece>, i: nat, j: nat, H: int, T: int): seq<Piece>
    requires i <= j < |vs| && vs[i].addr < H && T < End(vs[j])
  {
    vs[..i] + [LeftPart(vs[i], H)] + [RightPart(vs[j], T)] + vs[j + 1..]
  }

  lemma EmptiedFromSplit(vs: seq<Piece>, i: nat, j: nat, H: int, T: int)
    requires i <= j < |vs| && vs[i].addr < H && T < End(vs[j])
    ensures var n := |Window(vs[i..j + 1], H, T)|;
            i + 1 + n < |SplitVals(vs, i, j, H, T)|
            && Relinked(SplitVals(vs, i, j, H, T), i, [], i + 1 + n) == Emptied(vs, i, j, H, T)
  {}

  lemma StraddleSpans(vs: seq<Piece>, i: nat, j: nat, H: int, T: int)
    requires Framed(vs) && Straddle(vs, i, j, H, T) && InRange(H, T)
    ensures Spans(vs, i, j, H, T) && H != -1 && T != -1
    ensures i <= j < |vs| && i + 1 < |vs| && vs[i].addr < H && T < End(vs[j])
  {
    forall k | i < k < j ensures vs[k].size >= 1 {
      assert InnerOk(vs[k]);
    }
  }

  /** Inner cells a..b that end by hi and start from lo on are all inside the window. */
  lemma WindowSlice(vs: seq<Piece>, a: nat, b: nat, lo: int, hi: int)
    requires Framed(vs) && 0 < a <= b < |vs|
    requires forall k :: a <= k < b ==> lo <= vs[k].addr && End(vs[k]) <= hi
    ensures Window(vs[a..b], lo, hi) == vs[a..b]
  {
    forall k | 0 <= k < b - a
      ensures lo <= vs[a..b][k].addr && End(vs[a..b][k]) <= hi && vs[a..b][k].size >= 1
    {
      assert InnerOk(vs[a + k]);
    }
    hide Framed;
    WindowInside(vs[a..b], lo, hi);
  }

  lemma FramedDomain(vs: seq<Piece>, k: nat)
    requires Framed(vs) && 0 < k < |vs| - 1
    ensures InnerOk(vs[k])
  {}

  lemma InnerParts(vs: seq<Piece>, i: nat)
    requires 0 < i < |vs| - 1
    ensures Inner(vs) == vs[1..i] + [vs[i]] + vs[i + 1..|vs| - 1]
    ensures vs[..i] == [vs[0]] + vs[1..i]
    ensures vs[i + 1..] == vs[i + 1..|vs| - 1] + [vs[|vs| - 1]]
  {}

  lemma Assoc3<T>(a: seq<T>, b: seq<T>, c: seq<T>)
    ensures a + b + c == a + (b + c)
    ensures a + b + [] == a + b && [] + b + c == b + c
  {}

  /** Cells up to the last one starting before H, cut at H. */
  lemma WindowBelow(vs: seq<Piece>, i: nat, j: nat, H: int, T: int)
    requires Framed(vs) && Straddle(vs, i, j, H, T) && InRange(H, T)
    ensures [HEADER] + Window(Inner(vs), LO, H) == vs[..i] + [LeftPart(vs[i], H)]
  {
    var n := |vs| - 1;
    if i == 0 {
      WindowOutside(Inner(vs), LO, H);
    } else {
      forall k | 1 <= k < i ensures LO <= vs[k].addr && End(vs[k]) <= H {
        FramedDomain(vs, k);
        assert End(vs[k]) <= vs[i].addr;
      }
      WindowSlice(vs, 1, i, LO, H);
      WindowOutside(vs[i + 1..n], LO, H);
      FramedDomain(vs, i);
      WindowAround(vs[1..i], vs[i], vs[i + 1..n], LO, H);
      assert vs[0] == HEADER;
      hide *;
      InnerParts(vs, i);
      Assoc3([HEADER], vs[1..i], [LeftPart(vs[i], H)]);
      Assoc3(vs[1..i], [LeftPart(vs[i], H)], []);
    }
  }

  /** Cells from the first one ending after T on, cut at T. */
  lemma WindowAbove(vs: seq<Piece>, i: nat, j: nat, H: int, T: int)
    requires Framed(vs) && Straddle(vs, i, j, H, T) && InRange(H, T)
    ensures Window(Inner(vs), T, HI) + [TAIL] == [RightPart(vs[j], T)] + vs[j + 1..]
  {
    var n := |vs| - 1;
    if j == n {
      WindowOutside(Inner(vs), T, HI);
    } else {
      forall k | j < k < n ensures T <= vs[k].addr && End(vs[k]) <= HI {
        FramedDomain(vs, k);
        assert End(vs[j]) <= vs[k].addr;
      }
      WindowSlice(vs, j + 1, n, T, HI);
      WindowOutside(vs[1..j], T, HI);
      FramedDomain(vs, j);
      WindowAround(vs[1..j], vs[j], vs[j + 1..n], T, HI);
      assert vs[n] == TAIL;
      hide *;
      InnerParts(vs, j);
      Assoc3([RightPart(vs[j], T)], vs[j + 1..n], [TAIL]);
      Assoc3([], [RightPart(vs[j], T)], vs[j + 1..n]);
    }
  }

  /** Putting src into the emptied span gives the spliced list between the sentinels. */
  lemma EmptiedSpliced(vs: seq<Piece>, i: nat, j: nat, H: int, T: int, src: seq<Piece>)
    requires Framed(vs) && Straddle(vs, i, j, H, T) && InRange(H, T)
    ensures Relinked(Emptied(vs, i, j, H, T), i, src, i + 1) == [HEADER] + Splice(Inner(vs), H, T, src) + [TAIL]
  {
    hide *;
    StraddleSpans(vs, i, j, H, T);
    WindowBelow(vs, i, j, H, T);
    WindowAbove(vs, i, j, H, T);
    EmptiedHalves(vs, i, j, H, T, src);
    SpliceHalves(Inner(vs), H, T, src);
  }

  lemma EmptiedHalves(vs: seq<Piece>, i: nat, j: nat, H: int, T: int, src: seq<Piece>)
    requires i <= j < |vs| && vs[i].addr < H && T < End(vs[j])
    ensures Relinked(Emptied(vs, i, j, H, T), i, src, i + 1)
            == (vs[..i] + [LeftPart(vs[i], H)]) + src + ([RightPart(vs[j], T)] + vs[j + 1..])
  {}

  lemma SpliceHalves(ps: seq<Piece>, H: int, T: int, src: seq<Piece>)
    ensures ([HEADER] + Window(ps, LO, H)) + src + (Window(ps, T, HI) + [TAIL])
            == [HEADER] + Splice(ps, H, T, src) + [TAIL]
  {}

  /** New cells a to the right of cell i and b to the left of cell j. */
  ghost function RelinkedTwice<T>(cs: seq<T>, i: nat, a: seq<T>, j: nat, b: seq<T>): seq<T>
    requires i < j < |cs|
  {
    Relinked(Relinked(cs, i, a, i + 1), j + |a| - 1, b, j + |a|)
  }

  lemma RelinkedAt<T>(cs: seq<T>, i: nat, a: seq<T>, j: nat)
    requires i < j < |cs|
    ensures var r := Relinked(cs, i, a, i + 1);
            j + |a| < |r| && r[j + |a|] == cs[j] && forall k :: 0 <= k < |r| ==> r[k] in cs || r[k] in a
  {}

  lemma SplicedEnds<T>(cs: seq<T>, i: nat, mid: seq<T>)
    requires i + 1 < |cs|
    ensures var r := Relinked(cs, i, mid, i + 1);
            && |r| > 0 && r[0] == cs[0] && r[|r| - 1] == cs[|cs| - 1]
            && forall k :: 0 <= k < |r| ==> r[k] in cs || r[k] in mid
  {}

  lemma RelinkedNothing<T>(cs: seq<T>, i: nat)
    requires i < |cs|
    ensures Relinked(cs, i, [], i + 1) == cs
  {}

  /** A tidy list fits into the span it covers, once that is emptied. */
  lemma MergeFits(vs: seq<Piece>, i: nat, j: nat, H: int, T: int, ss: seq<Piece>)
    requires Framed(vs) && Straddle(vs, i, j, H, T) && InRange(H, T)
    requires WFList(ss) && ss != [] && H == First(ss) && T == Stop(ss)
    ensures FitsBetween(Emptied(vs, i, j, H, T), i, ss)
  {
    var e := Emptied(vs, i, j, H, T);
    hide Framed, Straddle;
    assert e[i] == LeftPart(vs[i], H) && e[i + 1] == RightPart(vs[j], T);
  }

  lemma UnlinkedAt<T>(cs: seq<T>, i: nat, j: nat)
    requires i < j < |cs|
    ensures var r := Relinked(cs, i, [], j);
            && i + 1 < |r| && r[i] == cs[i] && r[i + 1] == cs[j]
            && r[0] == cs[0] && r[|r| - 1] == cs[|cs| - 1]
            && forall k :: 0 <= k < |r| ==> r[k] in cs
  {}

  lemma RelinkedTwiceAt<T>(cs: seq<T>, i: nat, a: seq<T>, j: nat, b: seq<T>)
    requires i < j < |cs|
    ensures var r, n := RelinkedTwice(cs, i, a, j, b), |a| + (j - i - 1) + |b|;
            && i + 1 + n < |r| && r[i] == cs[i] && r[i + 1 + n] == cs[j]
            && r[0] == cs[0] && r[|r| - 1] == cs[|cs| - 1]
            && forall k :: 0 <= k < |r| ==> r[k] in cs || r[k] in a || r[k] in b
  {
    assert RelinkedTwice(cs, i, a, j, b) == cs[..i + 1] + a + cs[i + 1..j] + b + cs[j..];
  }

  lemma RelinkedPairAt<T>(cs: seq<T>, i: nat, p: T, q: T)
    requires i < |cs|
    ensures var r := Relinked(cs, i, [p, q], i + 1);
            && i + 2 < |r| && r[i] == cs[i] && r[i + 2] == q
            && r[0] == cs[0] && (i + 1 < |cs| ==> r[|r| - 1] == cs[|cs| - 1])
            && forall k :: 0 <= k < |r| ==> r[k] in cs || r[k] == p || r[k] == q
  {}

  /** Cell i is the last one starting before H and cell j the first one ending after T. */
  ghost predicate Straddle(vs: seq<Piece>, i: nat, j: nat, H: int, T: int) {
    && i < |vs| - 1 && 0 < j < |vs| && i <= j
    && (forall k :: 0 <= k <= i ==> vs[k].addr < H)
    && (forall k :: i < k < |vs| ==> H <= vs[k].addr)
    && (forall k :: 0 <= k < j ==> End(vs[k]) <= T)
    && (forall k :: j <= k < |vs| ==> T < End(vs[k]))
  }

  /** There is only one such pair of cells: the lookup in the index and the scan from the header give the same. */
  lemma StraddleUnique(vs: seq<Piece>, i: nat, j: nat, i': nat, j': nat, H: int, T: int)
    requires Straddle(vs, i, j, H, T) && Straddle(vs, i', j', H, T)
    ensures i == i' && j == j'
  {
    assert vs[i].addr < H && vs[i'].addr < H && T < End(vs[j]) && T < End(vs[j']);
  }

  /** The span of a list is the span of the part of it between the straddling cells. */
  lemma SpansSlice(vs: seq<Piece>, i: nat, j: nat, H: int, T: int)
    requires Spans(vs, i, j, H, T)
    ensures |vs[i..j + 1]| == j - i + 1 && Spans(vs[i..j + 1], 0, j - i, H, T)
  {}

  lemma FramedTidy(vs: seq<Piece>)
    requires Framed(vs)
    ensures |vs| >= 2 && Tidy(Inner(vs)) && InDom(Inner(vs))
  {
    FramedInner(vs);
  }

  lemma RebasedTidy(ps: seq<Piece>, addr: int, size: nat)
    requires Tidy(ps)
    ensures var w := Window(ps, addr, addr + size);
            Tidy(Shift(w, -addr)) && Within(Shift(w, -addr), 0, size) && (w != [] ==> Shift(w, -addr) != [])
  {
    hide Window;
    WindowTidy(ps, addr, addr + size);
  }

  lemma SpansEnds(vs: seq<Piece>, j: nat, H: int, T: int)
    requires Spans(vs, 0, j, H, T) && |vs| == j + 1
    ensures vs[0].addr < H && T < End(vs[j]) && vs[0..j + 1] == vs
  {}

  lemma WindowMiddle(vs: seq<Piece>, i: nat, j: nat, H: int, T: int)
    requires Framed(vs) && Straddle(vs, i, j, H, T) && InRange(H, T)
    ensures Window(vs[i..j + 1], H, T) == Window(Inner(vs), H, T)
  {
    var n := |vs| - 1;
    forall k | 0 <= k < i ensures End(vs[k]) <= H {
      assert End(vs[k]) <= vs[i].addr;
    }
    forall k | j < k <= n ensures T <= vs[k].addr {
      assert End(vs[j]) <= vs[k].addr;
    }
    hide Framed;
    WindowOutside(vs[..i], H, T);
    WindowOutside(vs[j + 1..], H, T);
    WindowOutside([HEADER], H, T);
    WindowOutside([TAIL], H, T);
    MiddleParts(vs, i, j, H, T);
  }

  lemma MiddleParts(vs: seq<Piece>, i: nat, j: nat, H: int, T: int)
    requires Framed(vs) && i <= j < |vs|
    requires Window(vs[..i], H, T) == [] == Window(vs[j + 1..], H, T)
    requires Window([HEADER], H, T) == [] == Window([TAIL], H, T)
    ensures Window(vs[i..j + 1], H, T) == Window(Inner(vs), H, T)
  {
    assert |vs| >= 2 && vs[0] == HEADER && vs[|vs| - 1] == TAIL;
    hide *;
    WholeParts(vs, i, j);
    WindowKeep(vs[..i], vs[i..j + 1], vs[j + 1..], H, T);
    WindowKeep([HEADER], Inner(vs), [TAIL], H, T);
  }

  lemma WindowKeep(a: seq<Piece>, m: seq<Piece>, b: seq<Piece>, H: int, T: int)
    requires Window(a, H, T) == [] && Window(b, H, T) == []
    ensures Window(a + m + b, H, T) == Window(m, H, T)
  {
    WindowConcat(a + m, b, H, T);
    WindowConcat(a, m, H, T);
  }

  lemma WholeParts(vs: seq<Piece>, i: nat, j: nat)
    requires i <= j < |vs| && |vs| >= 2
    ensures vs == vs[..i] + vs[i..j + 1] + vs[j + 1..]
    ensures vs == [vs[0]] + Inner(vs) + [vs[|vs| - 1]]
  {}

  lemma MiddleOfSplit(vs: seq<Piece>, j: nat, H: int, T: int)
    requires j < |vs| && vs[0].addr < H && T < End(vs[j])
    ensures var w := Window(vs[0..j + 1], H, T); SplitVals(vs, 0, j, H, T)[1..|w| + 1] == w
  {}

  lemma FramedEnds(vs: seq<Piece>, H: int, T: int)
    requires Framed(vs) && InRange(H, T)
    ensures |vs| >= 2 && vs[0].addr < H < T && End(vs[0]) <= T
    ensures H <= vs[|vs| - 1].addr && T < End(vs[|vs| - 1])
  {}

  /** Further along a framed list, pieces start and end no lower. */
  lemma Along(vs: seq<Piece>, k: nat, l: nat)
    requires Framed(vs)
    ensures k <= l < |vs| ==> vs[k].addr <= vs[l].addr && End(vs[k]) <= End(vs[l])
    ensures k < l < |vs| ==> End(vs[k]) <= vs[l].addr
  {
    assert (0 < k < |vs| - 1 ==> InnerOk(vs[k])) && (0 < l < |vs| - 1 ==> InnerOk(vs[l]));
  }

  lemma StraddleFromNeighbours(vs: seq<Piece>, i: nat, j: nat, H: int, T: int)
    requires Framed(vs) && H < T
    requires i < |vs| - 1 && 0 < j < |vs|
    requires vs[i].addr < H <= vs[i + 1].addr
    requires End(vs[j - 1]) <= T < End(vs[j])
    ensures Straddle(vs, i, j, H, T)
  {
    hide Framed, End;
    forall k | 0 <= k < |vs|
      ensures k <= i ==> vs[k].addr < H
      ensures i < k ==> H <= vs[k].addr
      ensures k < j ==> End(vs[k]) <= T
      ensures j <= k ==> T < End(vs[k])
    {
      Along(vs, k, i);
      Along(vs, i + 1, k);
      Along(vs, k, j - 1);
      Along(vs, j, k);
    }
    assert i <= j by { Along(vs, j, i); }
  }

  /** The entry found under the key of an in-range address is the cell starting there. */
  lemma IndexHit(vs: seq<Piece>, cs: seq<SymCell>, m: map<int, SymCell>, H: int, T: int) returns (i: nat)
    requires Framed(vs) && Indexed(Keys(vs), cs, m)
    requires InRange(H, T) && Key(H) in m
    ensures i + 1 < |vs| == |cs| && m[Key(H)] == cs[i + 1] && vs[i].addr < H == vs[i + 1].addr && End(vs[i]) <= H
  {
    var k :| 0 <= k < |vs| && Keys(vs)[k] == Key(H);
    assert k < |vs| - 1 ==> k == 0 || InnerOk(vs[k]);
    i := k - 1;
  }
}
