/** Canonical prefix codes on at most 16 bits, independent of any decode table.

    Symbols are ordered by code length and then by index; each takes the next free code of its
    length. A symbol of length 0, or longer than 16, has no code. The interval [0, 2^16) stands
    for all 16-bit strings read first bit most significant, and a code of length `len` owns the
    2^(16-len) strings that start with it. */
module CanonicalCode {
  import opened Bits
  import opened Errors

  const FULL: nat := 65536

  // ---------------------------------------------------------------- cells

  /** The set of 16-bit strings whose first `depth` bits spell `index`. */
  datatype Cell = Cell(depth: nat, index: nat)
  {
    ghost predicate Valid() {
      depth <= 16 && index < Pow2(depth)
    }

    function Width(): (w: nat)
      requires depth <= 16
      ensures w >= 1
    {
      Pow2(16 - depth)
    }

    function Lo(): nat
      requires depth <= 16
    {
      Shl(index, 16 - depth)
    }

    function Hi(): nat
      requires depth <= 16
    {
      Lo() + Width()
    }

    function Child(b: bool): Cell {
      Cell(depth + 1, 2 * index + Bit(b))
    }

    function String(): (s: seq<bool>)
      ensures |s| == depth
    {
      MsbBits(index, depth)
    }
  }

  ghost predicate Within(a: Cell, b: Cell)
    requires a.depth <= 16 && b.depth <= 16
  {
    b.Lo() <= a.Lo() && a.Hi() <= b.Hi()
  }

  lemma FullIsPow2()
    ensures FULL == Pow2(16)
  {
    Pow2Values();
  }

  lemma CellInRange(c: Cell)
    requires c.Valid()
    ensures c.Hi() <= FULL
  {
    FullIsPow2();
    ShlGap(c.index, Pow2(c.depth), 16 - c.depth);
    ShlPow2(c.depth, 16 - c.depth);
  }

  lemma ChildBounds(c: Cell, b: bool)
    requires c.Valid() && c.depth < 16
    ensures c.Child(b).Valid()
    ensures c.Width() == 2 * c.Child(b).Width()
    ensures c.Child(b).Lo() == c.Lo() + (if b then c.Child(b).Width() else 0)
    ensures Within(c.Child(b), c)
  {
    ChildShifts(c.index, Bit(b), 15 - c.depth, 16 - c.depth);
  }

  lemma ChildShifts(i: nat, b: nat, k: nat, k': nat)
    requires k' == k + 1 && b <= 1
    ensures Shl(2 * i + b, k) == Shl(i, k') + (if b == 1 then Pow2(k) else 0)
    ensures Pow2(k') == 2 * Pow2(k)
  {
    ShlAdd(2 * i, b, k);
    ShlAdd(i, i, k);
    ShlPow2(0, k);
    ShlZero(k);
  }

  /** Two cells are nested or disjoint. */
  lemma Dichotomy(a: Cell, b: Cell)
    requires a.Valid() && b.Valid() && a.depth <= b.depth
    ensures Within(b, a) || b.Hi() <= a.Lo() || a.Hi() <= b.Lo()
  {
    var d, k := b.depth - a.depth, 16 - b.depth;
    var lo, hi := Shl(a.index, d), Shl(a.index, d) + Pow2(d);
    ShlShl(a.index, d, k);
    ShlAdd(lo, Pow2(d), k);
    ShlPow2(d, k);
    if b.index < lo {
      ShlGap(b.index, lo, k);
    } else {
      ShlMonotone(lo, b.index, k);
      if b.index >= hi {
        ShlMonotone(hi, b.index, k);
      } else {
        ShlGap(b.index, hi, k);
      }
    }
  }

  lemma SameDepthSameCell(a: Cell, b: Cell)
    requires a.Valid() && b.Valid() && a.depth == b.depth
    requires a.Lo() < b.Hi() && b.Lo() < a.Hi()
    ensures a == b
  {
    if a.index < b.index {
      ShlGap(a.index, b.index, 16 - a.depth);
    } else if b.index < a.index {
      ShlGap(b.index, a.index, 16 - a.depth);
    }
  }

  /** A cell inside another continues its string. */
  lemma {:induction false} WithinIsPrefix(a: Cell, b: Cell)
    requires a.Valid() && b.Valid() && b.depth <= a.depth && Within(a, b)
    ensures b.String() <= a.String()
    decreases a.depth
  {
    if a.depth == b.depth {
      SameDepthSameCell(a, b);
    } else {
      var p := Cell(a.depth - 1, a.index / 2);
      assert a == p.Child(a.index % 2 == 1);
      ChildBounds(p, a.index % 2 == 1);
      Dichotomy(b, p);
      WithinIsPrefix(p, b);
    }
  }

  /** The string of a cell determines its index. */
  lemma StringIndex(c: Cell)
    requires c.Valid()
    ensures Msb(c.String()) == c.index
  {
    MsbOfBits(c.index, c.depth);
  }

  /** A cell whose string continues another's lies inside it. */
  lemma {:induction false} PrefixIsWithin(a: Cell, b: Cell)
    requires a.Valid() && b.Valid() && b.String() <= a.String()
    ensures Within(a, b)
    decreases a.depth
  {
    if a.depth == b.depth {
      StringIndex(a);
      StringIndex(b);
      assert a.String() == b.String();
    } else {
      var p := Cell(a.depth - 1, a.index / 2);
      assert a == p.Child(a.index % 2 == 1);
      ChildBounds(p, a.index % 2 == 1);
      assert a.String() == p.String() + [a.index % 2 == 1];
      assert b.String() == p.String()[..b.depth];
      PrefixIsWithin(p, b);
    }
  }

  // ---------------------------------------------------------------- code numbers

  /** The code number of the first free code of length `len` once all shorter codes and the
      codes of that length for symbols below `k` are taken. */
  function Number(lens: seq<nat>, len: nat, k: nat): nat
    requires k <= |lens|
    decreases len, k
  {
    if k > 0 then Number(lens, len, k - 1) + (if lens[k - 1] == len then 1 else 0)
    else if len <= 1 then 0
    else 2 * Number(lens, len - 1, |lens|)
  }

  /** The same position on the scale of 16-bit strings. */
  function Position(lens: seq<nat>, len: nat, k: nat): nat
    requires k <= |lens| && 1 <= len <= 16
  {
    Shl(Number(lens, len, k), 16 - len)
  }

  predicate HasLength(lens: seq<nat>, s: nat) {
    s < |lens| && 1 <= lens[s] <= 16
  }

  function CodeCell(lens: seq<nat>, s: nat): (c: Cell)
    requires HasLength(lens, s)
    ensures c.depth <= 16
  {
    Cell(lens[s], Number(lens, lens[s], s))
  }

  /** The symbol received a code that fits its length. */
  ghost predicate Coded(lens: seq<nat>, s: nat)
    ensures Coded(lens, s) ==> HasLength(lens, s)
  {
    HasLength(lens, s) && CodeCell(lens, s).Valid()
  }

  function Code(lens: seq<nat>, s: nat): (w: seq<bool>)
    requires HasLength(lens, s)
    ensures |w| == lens[s]
  {
    CodeCell(lens, s).String()
  }

  lemma PositionStep(lens: seq<nat>, len: nat, k: nat)
    requires k < |lens| && 1 <= len <= 16
    ensures Position(lens, len, k + 1) == Position(lens, len, k) + (if lens[k] == len then Pow2(16 - len) else 0)
  {
    ShlAdd(Number(lens, len, k), 1, 16 - len);
    ShlPow2(0, 16 - len);
  }

  lemma PositionNextLength(lens: seq<nat>, len: nat)
    requires 1 <= len < 16
    ensures Position(lens, len + 1, 0) == Position(lens, len, |lens|)
  {
    var n := Number(lens, len, |lens|);
    assert Number(lens, len + 1, 0) == n + n;
    ShlAdd(n, n, 15 - len);
  }

  lemma {:induction false} PositionMonotone(lens: seq<nat>, len: nat, k: nat, len': nat, k': nat)
    requires k <= |lens| && k' <= |lens| && 1 <= len <= len' <= 16
    requires len < len' || k <= k'
    ensures Position(lens, len, k) <= Position(lens, len', k')
    decreases len', k'
  {
    if len == len' && k == k' {
    } else if k' > 0 {
      PositionStep(lens, len', k' - 1);
      PositionMonotone(lens, len, k, len', k' - 1);
    } else {
      PositionNextLength(lens, len' - 1);
      PositionMonotone(lens, len, k, len' - 1, |lens|);
    }
  }

  /** Codes are disjoint: a symbol earlier in canonical order ends before a later one starts. */
  lemma CodesOrdered(lens: seq<nat>, s: nat, s': nat)
    requires HasLength(lens, s) && HasLength(lens, s')
    requires lens[s] < lens[s'] || (lens[s] == lens[s'] && s < s')
    ensures CodeCell(lens, s).Hi() <= CodeCell(lens, s').Lo()
  {
    PositionStep(lens, lens[s], s);
    PositionMonotone(lens, lens[s], s + 1, lens[s'], s');
  }

  // ---------------------------------------------------------------- prefix freedom

  /** `bits` starts with the code of `s`. */
  ghost predicate StartsWith(lens: seq<nat>, s: nat, bits: seq<bool>) {
    Coded(lens, s) && Code(lens, s) <= bits
  }

  lemma CodeUnique(lens: seq<nat>, s: nat, s': nat, bits: seq<bool>)
    requires StartsWith(lens, s, bits) && StartsWith(lens, s', bits)
    ensures s == s'
  {
    if lens[s] <= lens[s'] {
      CodeUniqueOrdered(lens, s, s', bits);
    } else {
      CodeUniqueOrdered(lens, s', s, bits);
    }
  }

  lemma CodeUniqueOrdered(lens: seq<nat>, s: nat, s': nat, bits: seq<bool>)
    requires StartsWith(lens, s, bits) && StartsWith(lens, s', bits) && lens[s] <= lens[s']
    ensures s == s'
  {
    assert Code(lens, s) == bits[..lens[s]] && Code(lens, s') == bits[..lens[s']];
    PrefixIsWithin(CodeCell(lens, s'), CodeCell(lens, s));
    if lens[s] < lens[s'] || s < s' {
      CodesOrdered(lens, s, s');
    } else if s' < s {
      CodesOrdered(lens, s', s);
    }
  }

  /** The decoder's meaning: the symbol whose code starts the input, and what follows it. */
  ghost function Decode(lens: seq<nat>, bits: seq<bool>): (r: Option<(nat, seq<bool>)>)
    ensures r.Some? ==> StartsWith(lens, r.value.0, bits) && r.value.1 == bits[lens[r.value.0]..]
    ensures r.None? ==> forall s: nat :: !StartsWith(lens, s, bits)
  {
    if exists s: nat :: StartsWith(lens, s, bits) then
      var s: nat :| StartsWith(lens, s, bits);
      Some((s, bits[lens[s]..]))
    else
      None
  }

  lemma DecodeIs(lens: seq<nat>, s: nat, bits: seq<bool>)
    requires StartsWith(lens, s, bits)
    ensures Decode(lens, bits) == Some((s, bits[lens[s]..]))
  {
    CodeUnique(lens, s, Decode(lens, bits).value.0, bits);
  }

  /** Lengths that give no symbol a code. */
  function Zeros(n: nat): (lens: seq<nat>)
    ensures |lens| == n && forall i :: 0 <= i < n ==> lens[i] == 0
  {
    seq(n, _ => 0)
  }

  // ---------------------------------------------------------------- completeness

  /** The sum of 2^(16-len) over the symbols with a code of at most `max` bits. */
  function Kraft(lens: seq<nat>, max: nat): nat
    requires max <= 16
  {
    if |lens| == 0 then 0
    else Kraft(lens[..|lens| - 1], max) + Share(lens[|lens| - 1], max)
  }

  function Share(len: nat, max: nat): nat
    requires max <= 16
  {
    if 1 <= len <= max then Pow2(16 - len) else 0
  }

  /** The Kraft sum is where canonical assignment ends. */
  lemma {:induction false} KraftIsPosition(lens: seq<nat>, max: nat)
    requires 1 <= max <= 16
    ensures Kraft(lens, max) == Position(lens, max, |lens|)
  {
    KraftByLength(lens, max);
    ShlAdd(0, 0, 16 - max);
    if max == 1 {
      CountIsNumber(lens, 1, |lens|);
      NoCodesOfNoBits(lens);
    } else {
      KraftIsPosition(lens, max - 1);
      PositionNextLength(lens, max - 1);
      CountIsNumber(lens, max, |lens|);
      ShlAdd(Number(lens, max, 0), Count(lens, max, |lens|), 16 - max);
    }
  }

  /** How many of the first `k` symbols have length `len`. */
  function Count(lens: seq<nat>, len: nat, k: nat): nat
    requires k <= |lens|
  {
    if k == 0 then 0 else Count(lens, len, k - 1) + (if lens[k - 1] == len then 1 else 0)
  }

  lemma {:induction false} CountIsNumber(lens: seq<nat>, len: nat, k: nat)
    requires k <= |lens|
    ensures Number(lens, len, k) == Number(lens, len, 0) + Count(lens, len, k)
  {
    if k > 0 {
      CountIsNumber(lens, len, k - 1);
    }
  }

  lemma {:induction false} CountLocal(lens: seq<nat>, x: nat, len: nat, k: nat)
    requires k <= |lens|
    ensures Count(lens + [x], len, k) == Count(lens, len, k)
  {
    if k > 0 {
      CountLocal(lens, x, len, k - 1);
    }
  }

  lemma {:induction false} NoCodesOfNoBits(lens: seq<nat>)
    ensures Kraft(lens, 0) == 0
  {
    if |lens| > 0 {
      NoCodesOfNoBits(lens[..|lens| - 1]);
    }
  }

  lemma {:induction false} KraftByLength(lens: seq<nat>, max: nat)
    requires 1 <= max <= 16
    ensures Kraft(lens, max) == Kraft(lens, max - 1) + Shl(Count(lens, max, |lens|), 16 - max)
  {
    hide Shl;
    ShlAdd(0, 0, 16 - max);
    if |lens| > 0 {
      var lens', x := lens[..|lens| - 1], lens[|lens| - 1];
      assert lens == lens' + [x];
      KraftByLength(lens', max);
      CountLocal(lens', x, max, |lens'|);
      ShlAdd(Count(lens', max, |lens'|), 1, 16 - max);
      ShlPow2(0, 16 - max);
    }
  }

  // ---------------------------------------------------------------- an example

  /** The example of section 3.2.2 of RFC 1951, which assigns codes by the same rule: eight symbols with
      lengths 3, 3, 3, 3, 3, 2, 4 and 4. */
  lemma ExampleCodes()
    ensures var lens := [3, 3, 3, 3, 3, 2, 4, 4];
            && Code(lens, 0) == [false, true, false]
            && Code(lens, 1) == [false, true, true]
            && Code(lens, 2) == [true, false, false]
            && Code(lens, 3) == [true, false, true]
            && Code(lens, 4) == [true, true, false]
            && Code(lens, 5) == [false, false]
            && Code(lens, 6) == [true, true, true, false]
            && Code(lens, 7) == [true, true, true, true]
  {
    var lens := [3, 3, 3, 3, 3, 2, 4, 4];
    assert Number(lens, 1, 8) == 0;
    assert Number(lens, 2, 5) == 0 && Number(lens, 2, 8) == 1;
    assert Number(lens, 3, 0) == 2 && Number(lens, 3, 4) == 6 && Number(lens, 3, 8) == 7;
    assert Number(lens, 4, 6) == 14 && Number(lens, 4, 7) == 15;
  }
}
