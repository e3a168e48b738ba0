/** The decode array as a forest (the data structure behind src/huffman_table.cc).

    The first 2^tableBits entries are indexed by tableBits input bits; each pair of entries 2n, 2n+1 above them
    are the two children of overflow node n, the first node being 2^(tableBits-1). An entry holds a
    symbol, a node number, or 0, which is both "empty" and symbol 0. Here every entry is given
    the set of 16-bit strings that lead to it (`CellOf`), and `Sound` says what the array must
    hold while codes are being placed in increasing order. `path[i]` is the cell of node
    First + i; it exists only in the proof. */
module HuffmanTrie {
  import opened Bits
  import opened Errors
  import opened CanonicalCode

  function First(tableBits: nat): (n: nat)
    requires tableBits >= 1
    ensures 2 * n == Pow2(tableBits) && n >= 1
  {
    Pow2(tableBits - 1)
  }

  function EntryCount(tableBits: nat, path: seq<Cell>): nat
    requires tableBits >= 1
  {
    2 * (First(tableBits) + |path|)
  }

  function CellOf(tableBits: nat, path: seq<Cell>, e: nat): (c: Cell)
    requires tableBits >= 1 && e < EntryCount(tableBits, path)
  {
    if e < Pow2(tableBits) then Cell(tableBits, Rev(tableBits, e))
    else path[e / 2 - First(tableBits)].Child(e % 2 == 1)
  }

  ghost predicate NodesOk(tableBits: nat, path: seq<Cell>) {
    && 1 <= tableBits <= 15
    && (forall n :: 0 <= n < |path| ==> tableBits <= path[n].depth <= 15 && path[n].Valid())
    && (forall n, m :: 0 <= n < m < |path| ==> path[n] != path[m])
  }

  ghost predicate Contains(c: Cell, v: nat)
    requires c.depth <= 16
  {
    c.Lo() <= v < c.Hi()
  }

  /** Entry `c` correctly answers with symbol `s`. */
  ghost predicate LeafOk(lens: seq<nat>, tableBits: nat, c: Cell, s: nat)
    requires c.depth <= 16
  {
    && Coded(lens, s)
    && Within(c, CodeCell(lens, s))
    && c.depth == (if lens[s] <= tableBits then tableBits else lens[s])
  }

  lemma CellOfOk(tableBits: nat, path: seq<Cell>, e: nat)
    requires NodesOk(tableBits, path) && e < EntryCount(tableBits, path)
    ensures CellOf(tableBits, path, e).Valid()
    ensures tableBits <= CellOf(tableBits, path, e).depth <= 16
    ensures CellOf(tableBits, path, e).Hi() <= FULL
  {
    if e >= Pow2(tableBits) {
      ChildBounds(path[e / 2 - First(tableBits)], e % 2 == 1);
    }
    CellInRange(CellOf(tableBits, path, e));
  }

  lemma CellOfInjective(tableBits: nat, path: seq<Cell>, e: nat, e': nat)
    requires NodesOk(tableBits, path) && e < EntryCount(tableBits, path) && e' < EntryCount(tableBits, path)
    requires CellOf(tableBits, path, e) == CellOf(tableBits, path, e')
    ensures e == e'
  {
    if e < Pow2(tableBits) && e' < Pow2(tableBits) {
      RevRev(tableBits, e);
      RevRev(tableBits, e');
    } else if e >= Pow2(tableBits) && e' >= Pow2(tableBits) {
      var n, n' := path[e / 2 - First(tableBits)], path[e' / 2 - First(tableBits)];
      assert n.index == n'.index && (e % 2 == 1) == (e' % 2 == 1);
      assert n == n';
      assert e / 2 == e' / 2;
    }
  }

  /** What entry `e` must hold when all codes below position `q` have been placed. */
  ghost predicate EntryOk(lens: seq<nat>, t: seq<nat>, tableBits: nat, path: seq<Cell>, q: nat, e: nat)
    requires NodesOk(tableBits, path) && e < EntryCount(tableBits, path) <= |t|
  {
    CellOfOk(tableBits, path, e);
    var c := CellOf(tableBits, path, e);
    if t[e] >= First(tableBits) then
      e / 2 < t[e] < First(tableBits) + |path| && path[t[e] - First(tableBits)] == c
    else
      (c.Hi() <= q && LeafOk(lens, tableBits, c, t[e])) || (q <= c.Lo() && t[e] == 0)
  }

  /** The forest holds exactly the codes below `q`. While the code at `q` is being walked, nodes
      of depth less than `busy` may already have been created for it. */
  ghost predicate Sound(lens: seq<nat>, t: seq<nat>, tableBits: nat, path: seq<Cell>, q: nat, busy: nat) {
    && NodesOk(tableBits, path)
    && |lens| <= First(tableBits)
    && EntryCount(tableBits, path) <= |t|
    && (forall n :: 0 <= n < |path| ==>
          path[n].Lo() < q || (path[n].Lo() == q && path[n].depth < busy))
    && (forall e :: 0 <= e < EntryCount(tableBits, path) ==> EntryOk(lens, t, tableBits, path, q, e))
  }

  /** Every entry above depth `i` on the way to `q` is a node. */
  ghost predicate Trail(t: seq<nat>, tableBits: nat, path: seq<Cell>, q: nat, i: nat)
    requires NodesOk(tableBits, path) && EntryCount(tableBits, path) <= |t|
  {
    forall e :: 0 <= e < EntryCount(tableBits, path) ==> OnTrail(t, tableBits, path, q, i, e)
  }

  ghost predicate OnTrail(t: seq<nat>, tableBits: nat, path: seq<Cell>, q: nat, i: nat, e: nat)
    requires NodesOk(tableBits, path) && e < EntryCount(tableBits, path) <= |t|
  {
    CellOfOk(tableBits, path, e);
    var c := CellOf(tableBits, path, e);
    c.depth < i && Contains(c, q) ==> t[e] >= First(tableBits)
  }

  // ---------------------------------------------------------------- the cell of a position

  /** The cell of depth `k` that contains 16-bit string `v`. */
  function CellAt(v: nat, k: nat): Cell
    requires k <= 16
  {
    Cell(k, Shr(v, 16 - k))
  }

  lemma CellAtContains(v: nat, k: nat)
    requires k <= 16 && v < FULL
    ensures CellAt(v, k).Valid() && Contains(CellAt(v, k), v)
  {
    ShrSplit(v, 16 - k);
    FullIsPow2();
    ShlPow2(k, 16 - k);
    if Shr(v, 16 - k) >= Pow2(k) {
      ShlMonotone(Pow2(k), Shr(v, 16 - k), 16 - k);
    }
  }

  lemma CellAtChild(v: nat, k: nat)
    requires k < 16
    ensures CellAt(v, k + 1) == CellAt(v, k).Child(Shr(v, 15 - k) % 2 == 1)
  {
    ShrHalf(v, 15 - k);
  }

  // ---------------------------------------------------------------- creating a node

  function WithNode(t: seq<nat>, next: nat, e: nat): (t': seq<nat>)
    requires e < 2 * next && 2 * next + 2 <= |t|
    ensures |t'| == |t|
    ensures forall x :: 0 <= x < |t| ==>
              t'[x] == if x == e then next else if x == 2 * next || x == 2 * next + 1 then 0 else t[x]
  {
    t[2 * next := 0][2 * next + 1 := 0][e := next]
  }

  lemma CellOfExtended(tableBits: nat, path: seq<Cell>, c: Cell, e: nat)
    requires tableBits >= 1 && e < EntryCount(tableBits, path + [c])
    ensures CellOf(tableBits, path + [c], e) ==
              if e < EntryCount(tableBits, path) then CellOf(tableBits, path, e) else c.Child(e % 2 == 1)
  {
  }

  lemma Grow(lens: seq<nat>, t: seq<nat>, tableBits: nat, path: seq<Cell>, q: nat, i: nat, e: nat)
    requires Sound(lens, t, tableBits, path, q, i) && Trail(t, tableBits, path, q, i)
    requires tableBits <= i <= 15 && q < FULL
    requires e < EntryCount(tableBits, path) && CellOf(tableBits, path, e) == CellAt(q, i)
    requires t[e] == 0
    requires EntryCount(tableBits, path) + 2 <= |t|
    ensures var t' := WithNode(t, First(tableBits) + |path|, e);
            var path' := path + [CellAt(q, i)];
            && Sound(lens, t', tableBits, path', q, i + 1)
            && Trail(t', tableBits, path', q, i)
            && CellOf(tableBits, path', e) == CellAt(q, i)
  {
    hide OnTrail, Contains;
    var c := CellAt(q, i);
    var t' := WithNode(t, First(tableBits) + |path|, e);
    var path' := path + [c];
    CellAtContains(q, i);
    assert EntryOk(lens, t, tableBits, path, q, e);
    assert c.Lo() == q;
    assert NodesOk(tableBits, path');
    forall x | 0 <= x < EntryCount(tableBits, path')
      ensures EntryOk(lens, t', tableBits, path', q, x) && OnTrail(t', tableBits, path', q, i, x)
    {
      if x < EntryCount(tableBits, path) {
        assert EntryOk(lens, t, tableBits, path, q, x);
        assert OnTrail(t, tableBits, path, q, i, x);
        GrowOldEntry(lens, t, tableBits, path, q, i, e, x);
      } else {
        GrowNewEntry(lens, t, tableBits, path, q, i, e, x);
      }
    }
  }

  lemma GrowOldEntry(lens: seq<nat>, t: seq<nat>, tableBits: nat, path: seq<Cell>, q: nat, i: nat, e: nat, x: nat)
    requires tableBits <= i <= 15
    requires NodesOk(tableBits, path) && NodesOk(tableBits, path + [CellAt(q, i)])
    requires e < EntryCount(tableBits, path) && x < EntryCount(tableBits, path) && EntryCount(tableBits, path) + 2 <= |t|
    requires CellOf(tableBits, path, e) == CellAt(q, i)
    requires EntryOk(lens, t, tableBits, path, q, x) && OnTrail(t, tableBits, path, q, i, x)
    ensures var t' := WithNode(t, First(tableBits) + |path|, e);
            var path' := path + [CellAt(q, i)];
            EntryOk(lens, t', tableBits, path', q, x) && OnTrail(t', tableBits, path', q, i, x)
  {
    CellOfExtended(tableBits, path, CellAt(q, i), x);
  }

  lemma GrowNewEntry(lens: seq<nat>, t: seq<nat>, tableBits: nat, path: seq<Cell>, q: nat, i: nat, e: nat, x: nat)
    requires tableBits <= i <= 15
    requires NodesOk(tableBits, path) && NodesOk(tableBits, path + [CellAt(q, i)])
    requires e < EntryCount(tableBits, path) <= x < EntryCount(tableBits, path) + 2 <= |t|
    requires CellAt(q, i).Lo() == q
    ensures var t' := WithNode(t, First(tableBits) + |path|, e);
            var path' := path + [CellAt(q, i)];
            EntryOk(lens, t', tableBits, path', q, x) && OnTrail(t', tableBits, path', q, i, x)
  {
    CellOfExtended(tableBits, path, CellAt(q, i), x);
    ChildBounds(CellAt(q, i), x % 2 == 1);
  }

  // ---------------------------------------------------------------- following a node

  lemma Descend(lens: seq<nat>, t: seq<nat>, tableBits: nat, path: seq<Cell>, q: nat, i: nat, e: nat)
    requires Sound(lens, t, tableBits, path, q, i + 1) && Trail(t, tableBits, path, q, i)
    requires tableBits <= i <= 15 && q < FULL
    requires e < EntryCount(tableBits, path) && CellOf(tableBits, path, e) == CellAt(q, i)
    requires t[e] != 0
    ensures t[e] >= First(tableBits)
    ensures var e' := 2 * t[e] + Shr(q, 15 - i) % 2;
            && e' < EntryCount(tableBits, path)
            && CellOf(tableBits, path, e') == CellAt(q, i + 1)
    ensures Trail(t, tableBits, path, q, i + 1)
  {
    CellAtContains(q, i);
    CellAtChild(q, i);
    assert EntryOk(lens, t, tableBits, path, q, e);
    var below := i + 1;
    forall x | 0 <= x < EntryCount(tableBits, path)
      ensures OnTrail(t, tableBits, path, q, below, x)
    {
      assert OnTrail(t, tableBits, path, q, i, x);
      CellOfOk(tableBits, path, x);
      var c := CellOf(tableBits, path, x);
      if c.depth == i && Contains(c, q) {
        SameDepthSameCell(c, CellAt(q, i));
        CellOfInjective(tableBits, path, x, e);
      }
    }
  }

  lemma TrailStarts(t: seq<nat>, tableBits: nat, path: seq<Cell>, q: nat)
    requires NodesOk(tableBits, path) && EntryCount(tableBits, path) <= |t|
    ensures Trail(t, tableBits, path, q, tableBits)
  {
    forall x | 0 <= x < EntryCount(tableBits, path)
      ensures OnTrail(t, tableBits, path, q, tableBits, x)
    {
      CellOfOk(tableBits, path, x);
    }
  }

  // ---------------------------------------------------------------- placing a symbol

  /** No other entry lies inside the code being placed. */
  lemma OtherEntriesClear(lens: seq<nat>, t: seq<nat>, tableBits: nat, path: seq<Cell>, q: nat, e: nat, x: nat)
    requires NodesOk(tableBits, path) && EntryCount(tableBits, path) <= |t|
    requires e < EntryCount(tableBits, path) && x < EntryCount(tableBits, path) && x != e
    requires CellOf(tableBits, path, e).depth <= 16
    requires CellOf(tableBits, path, e).Lo() == q && tableBits < CellOf(tableBits, path, e).depth
    requires forall n :: 0 <= n < |path| ==>
               path[n].Lo() < q || (path[n].Lo() == q && path[n].depth < CellOf(tableBits, path, e).depth)
    requires OnTrail(t, tableBits, path, q, CellOf(tableBits, path, e).depth, x) && t[x] < First(tableBits)
    requires CellOf(tableBits, path, x).depth <= 16 && q <= CellOf(tableBits, path, x).Lo()
    ensures CellOf(tableBits, path, e).Hi() <= CellOf(tableBits, path, x).Lo()
  {
    var c, d := CellOf(tableBits, path, e), CellOf(tableBits, path, x);
    CellOfOk(tableBits, path, e);
    CellOfOk(tableBits, path, x);
    if d.Lo() < c.Hi() {
      if d.depth < c.depth {
        Dichotomy(d, c);
        assert Contains(d, q);
      } else if d.depth == c.depth {
        SameDepthSameCell(c, d);
        CellOfInjective(tableBits, path, e, x);
      } else {
        var p := path[x / 2 - First(tableBits)];
        ChildBounds(p, x % 2 == 1);
        Dichotomy(c, p);
        assert false;
      }
    }
  }

  lemma Place(lens: seq<nat>, t: seq<nat>, tableBits: nat, path: seq<Cell>, q: nat, e: nat, s: nat)
    requires HasLength(lens, s) && lens[s] > tableBits
    requires Sound(lens, t, tableBits, path, q, lens[s]) && Trail(t, tableBits, path, q, lens[s])
    requires q < FULL && CodeCell(lens, s).Lo() == q
    requires e < EntryCount(tableBits, path) && CellOf(tableBits, path, e) == CellAt(q, lens[s])
    ensures Coded(lens, s) && CodeCell(lens, s).Hi() <= FULL
    ensures Sound(lens, t[e := s], tableBits, path, CodeCell(lens, s).Hi(), 0)
  {
    var c := CodeCell(lens, s);
    var t' := t[e := s];
    CodeCellIsCellAt(lens, s, q);
    CellInRange(c);
    forall x | 0 <= x < EntryCount(tableBits, path)
      ensures EntryOk(lens, t', tableBits, path, c.Hi(), x)
    {
      assert EntryOk(lens, t, tableBits, path, q, x);
      assert OnTrail(t, tableBits, path, q, lens[s], x);
      CellOfOk(tableBits, path, x);
      if x != e && t[x] < First(tableBits) && q <= CellOf(tableBits, path, x).Lo() {
        OtherEntriesClear(lens, t, tableBits, path, q, e, x);
      }
      PlaceEntry(lens, t, tableBits, path, q, e, s, x);
    }
  }

  lemma PlaceEntry(lens: seq<nat>, t: seq<nat>, tableBits: nat, path: seq<Cell>, q: nat, e: nat, s: nat, x: nat)
    requires NodesOk(tableBits, path) && |lens| <= First(tableBits)
    requires Coded(lens, s) && lens[s] > tableBits
    requires e < EntryCount(tableBits, path) && x < EntryCount(tableBits, path) <= |t|
    requires CellOf(tableBits, path, e) == CodeCell(lens, s) && CodeCell(lens, s).Lo() == q
    requires EntryOk(lens, t, tableBits, path, q, x)
    requires CellOf(tableBits, path, x).depth <= 16
    requires x != e && t[x] < First(tableBits) && q <= CellOf(tableBits, path, x).Lo() ==>
               CodeCell(lens, s).Hi() <= CellOf(tableBits, path, x).Lo()
    ensures EntryOk(lens, t[e := s], tableBits, path, CodeCell(lens, s).Hi(), x)
  {
  }

  /** An aligned position is the start of the cell that contains it. */
  lemma CodeCellIsCellAt(lens: seq<nat>, s: nat, q: nat)
    requires HasLength(lens, s) && CodeCell(lens, s).Lo() == q < FULL
    ensures CodeCell(lens, s) == CellAt(q, lens[s]) && CodeCell(lens, s).Valid()
  {
    var c, d := CodeCell(lens, s), CellAt(q, lens[s]);
    CellAtContains(q, lens[s]);
    ShlUnique(c.index, 0, d.index, q - d.Lo(), 16 - lens[s]);
  }

  // ---------------------------------------------------------------- the direct table

  function DirectCell(tableBits: nat, e: nat): Cell {
    Cell(tableBits, Rev(tableBits, e))
  }

  /** Pass 1: entries wholly below `q` answer correctly; the others are arbitrary. */
  ghost predicate DirectOk(lens: seq<nat>, t: seq<nat>, tableBits: nat, q: nat)
    requires 1 <= tableBits <= 15 && Pow2(tableBits) <= |t|
  {
    forall e :: 0 <= e < Pow2(tableBits) ==> DirectEntryOk(lens, t, tableBits, q, e)
  }

  ghost predicate DirectEntryOk(lens: seq<nat>, t: seq<nat>, tableBits: nat, q: nat, e: nat)
    requires 1 <= tableBits <= 15 && e < Pow2(tableBits) <= |t|
  {
    DirectCell(tableBits, e).Hi() <= q ==> LeafOk(lens, tableBits, DirectCell(tableBits, e), t[e])
  }

  /** `t` with every `step`-th entry from `leaf` on, `count` of them, set to `s`. */
  function Filled(t: seq<nat>, leaf: nat, step: nat, count: nat, s: nat): (t': seq<nat>)
    ensures |t'| == |t|
    decreases count
  {
    if count == 0 || leaf >= |t| then t
    else Filled(t[leaf := s], leaf + step, step, count - 1, s)
  }

  lemma {:induction false} FilledAt(t: seq<nat>, r: nat, j: nat, k: nat, count: nat, s: nat, x: nat, y: nat)
    requires r < Pow2(k) && x < Pow2(k)
    requires x + Shl(y, k) < |t| && Shl(j + count, k) <= |t|
    ensures Filled(t, r + Shl(j, k), Pow2(k), count, s)[x + Shl(y, k)] ==
              if x == r && j <= y < j + count then s else t[x + Shl(y, k)]
    decreases count
  {
    if count > 0 {
      ShlGap(j, j + count, k);
      ShlAdd(j, 1, k);
      ShlPow2(0, k);
      var e := r + Shl(j, k);
      if x + Shl(y, k) == e {
        ShlUnique(y, x, j, r, k);
      }
      FilledAt(t[e := s], r, j + 1, k, count - 1, s, x, y);
    }
  }

  /** An index lies in the code whose number is the reversal of its low bits, and in no other. */
  lemma OneOwner(e: Cell, len: nat, c: nat, x: nat)
    requires e.depth <= 16 && len <= 16 && c < Pow2(len) && x < Pow2(len)
    requires Within(e, Cell(len, Rev(len, x)))
    ensures Within(e, Cell(len, c)) == (x == Rev(len, c))
  {
    RevRev(len, x);
    RevRev(len, c);
    if x != Rev(len, c) {
      Apart(e, Cell(len, Rev(len, x)), Cell(len, c));
    }
  }

  lemma IndexInOwnCell(tableBits: nat, e: nat, len: nat, x: nat, y: nat)
    requires len <= tableBits <= 16 && x < Pow2(len) && e == x + Shl(y, len)
    ensures Within(DirectCell(tableBits, e), Cell(len, Rev(len, x)))
  {
    var d := tableBits - len;
    RevSplit(x, y, len, d);
    DeepCell(DirectCell(tableBits, e), Cell(len, Rev(len, x)), d, Rev(d, y));
  }

  lemma Apart(e: Cell, a: Cell, c: Cell)
    requires e.depth <= 16 && a.depth == c.depth <= 16 && a.index != c.index
    requires Within(e, a)
    ensures !Within(e, c)
  {
    if a.index < c.index {
      ShlGap(a.index, c.index, 16 - a.depth);
    } else {
      ShlGap(c.index, a.index, 16 - a.depth);
    }
  }

  lemma DeepCell(inner: Cell, outer: Cell, d: nat, b: nat)
    requires inner.depth == outer.depth + d <= 16 && b < Pow2(d)
    requires inner.index == Shl(outer.index, d) + b
    ensures Within(inner, outer)
  {
    hide Shl, Pow2;
    NestedShifts(outer.index, b, d, 16 - inner.depth, 16 - outer.depth);
  }

  lemma NestedShifts(a: nat, b: nat, d: nat, k: nat, e: nat)
    requires b < Pow2(d) && e == d + k
    ensures Shl(a, e) <= Shl(Shl(a, d) + b, k)
    ensures Shl(Shl(a, d) + b, k) + Pow2(k) <= Shl(a, e) + Pow2(e)
  {
    ShlAdd(Shl(a, d), b, k);
    ShlShl(a, d, k);
    ShlGap(b, Pow2(d), k);
    ShlPow2(d, k);
  }

  lemma FillPlaces(lens: seq<nat>, t: seq<nat>, tableBits: nat, q: nat, s: nat)
    requires 1 <= tableBits <= 15 && HasLength(lens, s) && lens[s] <= tableBits && Pow2(tableBits) <= |t|
    requires DirectOk(lens, t, tableBits, q) && Coded(lens, s) && CodeCell(lens, s).Lo() == q
    ensures var t' := Filled(t, Rev(lens[s], Number(lens, lens[s], s)), Pow2(lens[s]), Pow2(tableBits - lens[s]), s);
            DirectOk(lens, t', tableBits, CodeCell(lens, s).Hi())
  {
    var t' := Filled(t, Rev(lens[s], Number(lens, lens[s], s)), Pow2(lens[s]), Pow2(tableBits - lens[s]), s);
    var q' := CodeCell(lens, s).Hi();
    forall e | 0 <= e < Pow2(tableBits)
      ensures DirectEntryOk(lens, t', tableBits, q', e)
    {
      FillPlacesAt(lens, t, tableBits, s, e);
      assert DirectEntryOk(lens, t, tableBits, q, e);
      Dichotomy(CodeCell(lens, s), DirectCell(tableBits, e));
    }
  }

  lemma FillPlacesAt(lens: seq<nat>, t: seq<nat>, tableBits: nat, s: nat, e: nat)
    requires 1 <= tableBits <= 15 && Coded(lens, s) && lens[s] <= tableBits && e < Pow2(tableBits) <= |t|
    ensures Filled(t, Rev(lens[s], Number(lens, lens[s], s)), Pow2(lens[s]), Pow2(tableBits - lens[s]), s)[e] ==
              if Within(DirectCell(tableBits, e), CodeCell(lens, s)) then s else t[e]
  {
    var x, y := SplitIndex(tableBits, lens[s], e);
    FilledWithin(t, tableBits, lens[s], Number(lens, lens[s], s), s, x, y, e);
  }

  lemma FilledWithin(t: seq<nat>, tableBits: nat, len: nat, c: nat, s: nat, x: nat, y: nat, e: nat)
    requires len <= tableBits <= 15 && x < Pow2(len) && c < Pow2(len) && y < Pow2(tableBits - len)
    requires e == x + Shl(y, len) && e < Pow2(tableBits) <= |t|
    ensures Filled(t, Rev(len, c), Pow2(len), Pow2(tableBits - len), s)[e] ==
              if Within(DirectCell(tableBits, e), Cell(len, c)) then s else t[e]
  {
    IndexInOwnCell(tableBits, e, len, x, y);
    OneOwner(DirectCell(tableBits, e), len, c, x);
    FilledOnce(t, Rev(len, c), len, tableBits - len, s, x, y);
  }

  lemma FilledOnce(t: seq<nat>, r: nat, len: nat, d: nat, s: nat, x: nat, y: nat)
    requires r < Pow2(len) && x < Pow2(len) && y < Pow2(d)
    requires Pow2(len + d) <= |t| && x + Shl(y, len) < |t|
    ensures Filled(t, r, Pow2(len), Pow2(d), s)[x + Shl(y, len)] == if x == r then s else t[x + Shl(y, len)]
  {
    ShlPow2(d, len);
    ShlZero(len);
    FilledAt(t, r, 0, len, Pow2(d), s, x, y);
  }

  lemma SplitIndex(tableBits: nat, len: nat, e: nat) returns (x: nat, y: nat)
    requires len <= tableBits && e < Pow2(tableBits)
    ensures x < Pow2(len) && y < Pow2(tableBits - len) && e == x + Shl(y, len)
  {
    y := Shr(e, len);
    ShrSplit(e, len);
    x := e - Shl(y, len);
    ShlPow2(tableBits - len, len);
    if y >= Pow2(tableBits - len) {
      ShlMonotone(Pow2(tableBits - len), y, len);
    }
  }

  /** Pass 2 starts from the direct table with the unused slots cleared. */
  lemma StartForest(lens: seq<nat>, t: seq<nat>, tableBits: nat, p: nat)
    requires 1 <= tableBits <= 15 && Pow2(tableBits) <= |t| && |lens| <= First(tableBits)
    requires DirectOk(lens, t, tableBits, Shl(p, 16 - tableBits))
    requires forall e :: 0 <= e < Pow2(tableBits) && p <= Rev(tableBits, e) ==> t[e] == 0
    ensures Sound(lens, t, tableBits, [], Shl(p, 16 - tableBits), 0)
  {
    var none: seq<Cell> := [];
    var q := Shl(p, 16 - tableBits);
    forall e | 0 <= e < EntryCount(tableBits, none)
      ensures EntryOk(lens, t, tableBits, none, q, e)
    {
      assert DirectEntryOk(lens, t, tableBits, q, e);
      if p <= Rev(tableBits, e) {
        ShlMonotone(p, Rev(tableBits, e), 16 - tableBits);
      } else {
        ShlGap(Rev(tableBits, e), p, 16 - tableBits);
      }
    }
  }
}
