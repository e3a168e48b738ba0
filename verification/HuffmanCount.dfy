/** How many overflow nodes a code needs, and what that says about the three tables of the
    decoder (src/huffman_decoder.cc:26). */
module HuffmanCount {
  import opened Bits
  import opened CanonicalCode
  import opened HuffmanTrie
  import opened HuffmanTables

  // ---------------------------------------------------------------- cells by code number

  /** New nodes for code number `a` of length `len`: the depths at which it opens a cell. */
  function Opening(a: nat, tableBits: nat, len: nat): nat {
    if len <= tableBits || a % 2 == 1 then 0 else 1 + Opening(a / 2, tableBits, len - 1)
  }

  /** Cells opened below the table but not yet reached when code numbers below `a` are taken. */
  function Pending(a: nat, tableBits: nat, len: nat): nat {
    if len <= tableBits then 0 else a % 2 + Pending((a + 1) / 2, tableBits, len - 1)
  }

  /** Table entries reached by code numbers below `a`. */
  function Roots(a: nat, tableBits: nat, len: nat): nat {
    if len <= tableBits then a else Roots((a + 1) / 2, tableBits, len - 1)
  }

  lemma {:induction false} OpeningIsNewNodes(a: nat, tableBits: nat, len: nat)
    requires len <= 16
    ensures NewNodes(Shl(a, 16 - len), tableBits, len) == Opening(a, tableBits, len)
  {
    if len > tableBits {
      if a % 2 == 0 {
        var h := a / 2;
        HalfIndex(h, len);
        OpeningIsNewNodes(h, tableBits, len - 1);
        ShrShl(h, 17 - len, 0);
      } else {
        OddOpensNothing(a, tableBits, len, len);
      }
    }
  }

  lemma HalfIndex(h: nat, len: nat)
    requires 1 <= len <= 16
    ensures Shl(2 * h, 16 - len) == Shl(h, 17 - len)
  {
    ShlAdd(h, h, 16 - len);
  }

  lemma {:induction false} OddOpensNothing(a: nat, tableBits: nat, len: nat, k: nat)
    requires a % 2 == 1 && k <= len <= 16
    ensures NewNodes(Shl(a, 16 - len), tableBits, k) == 0
    decreases k
  {
    if k > tableBits {
      OddOpensNothing(a, tableBits, len, k - 1);
      var x := Shr(Shl(a, 16 - len), 17 - k);
      if Shl(x, 17 - k) == Shl(a, 16 - len) {
        ShlShl(x, len - (k - 1), 16 - len);
        ShlUnique(a, 0, Shl(x, len - (k - 1)), 0, 16 - len);
        assert false;
      }
    }
  }

  /** Taking one more code number: every cell it opens is either filled later or is the new leaf. */
  lemma {:induction false} OneMoreCode(a: nat, tableBits: nat, len: nat)
    requires len > tableBits
    ensures Opening(a, tableBits, len) + Roots(a + 1, tableBits, len) + Pending(a, tableBits, len) ==
              Roots(a, tableBits, len) + Pending(a + 1, tableBits, len) + 1
  {
    if a % 2 == 0 {
      assert (a + 2) / 2 == a / 2 + 1 && (a + 1) / 2 == a / 2;
      if len - 1 > tableBits {
        OneMoreCode(a / 2, tableBits, len - 1);
      }
    } else {
      assert (a + 2) / 2 == (a + 1) / 2;
    }
  }

  // ---------------------------------------------------------------- counting over all symbols

  /** Symbols before `k` of length `len`, in canonical order, whose codes are longer than `min`. */
  function CodesBefore(lens: seq<nat>, min: nat, len: nat, k: nat): nat
    requires k <= |lens| && 1 <= len <= 16
    decreases len, k
  {
    if len <= min then 0
    else if k > 0 then CodesBefore(lens, min, len, k - 1) + (if lens[k - 1] == len then 1 else 0)
    else if len == 1 then 0
    else CodesBefore(lens, min, len - 1, |lens|)
  }

  /** The number of symbols whose code is longer than the table is wide. */
  function LongCodes(lens: seq<nat>, tableBits: nat): nat {
    CodesBefore(lens, tableBits, 16, |lens|)
  }

  /** Below the top a symbol adds the nodes of the cells it opens. */
  lemma AddedIsOpening(lens: seq<nat>, tableBits: nat, s: nat)
    requires HasLength(lens, s) && tableBits < lens[s] && Position(lens, lens[s], s + 1) <= FULL
    ensures Added(lens, tableBits, Position(lens, lens[s], s), lens[s]) ==
            Opening(Number(lens, lens[s], s), tableBits, lens[s])
  {
    PositionStep(lens, lens[s], s);
    OpeningIsNewNodes(Number(lens, lens[s], s), tableBits, lens[s]);
  }

  lemma TwiceAsMany(a: nat, tableBits: nat, len: nat)
    requires len > tableBits
    ensures Roots(2 * a, tableBits, len) == Roots(a, tableBits, len - 1)
    ensures Pending(2 * a, tableBits, len) == Pending(a, tableBits, len - 1)
  {
    assert (2 * a + 1) / 2 == a;
  }

  lemma NothingAbove(a: nat, tableBits: nat, len: nat)
    ensures len <= tableBits ==> Roots(a, tableBits, len) == a && Pending(a, tableBits, len) == 0
  {
  }

  /** At every point of pass 2: nodes plus table entries reached equal leaves plus open cells. */
  lemma {:induction false} NodeBalance(lens: seq<nat>, tableBits: nat, len: nat, k: nat)
    requires 1 <= tableBits < len <= 16 && k <= |lens| && Position(lens, len, k) <= FULL
    ensures NodesUsed(lens, tableBits, len, k) + Roots(Number(lens, len, k), tableBits, len) ==
              CodesBefore(lens, tableBits, len, k) + Pending(Number(lens, len, k), tableBits,
                  len) + Number(lens, tableBits, |lens|)
    decreases len, k
  {
    hide Added, Opening, Roots, Pending, Shl;
    if k > 0 {
      PositionStep(lens, len, k - 1);
      NodeBalance(lens, tableBits, len, k - 1);
      if lens[k - 1] == len {
        AddedIsOpening(lens, tableBits, k - 1);
        OneMoreCode(Number(lens, len, k - 1), tableBits, len);
      }
    } else {
      var a := Number(lens, len - 1, |lens|);
      TwiceAsMany(a, tableBits, len);
      NothingAbove(a, tableBits, len - 1);
      if len - 1 > tableBits {
        PositionNextLength(lens, len - 1);
        NodeBalance(lens, tableBits, len - 1, |lens|);
      }
    }
  }

  lemma {:induction false} FullTable(tableBits: nat, len: nat)
    requires tableBits <= len
    ensures Roots(Pow2(len), tableBits, len) == Pow2(tableBits) && Pending(Pow2(len), tableBits, len) == 0
  {
    if len > tableBits {
      assert Pow2(len) % 2 == 0 && (Pow2(len) + 1) / 2 == Pow2(len - 1);
      FullTable(tableBits, len - 1);
    }
  }

  /** For a complete code the overflow nodes number exactly the long codes minus the table
      entries that pass 1 left unused. */
  lemma NodesOfCompleteCode(lens: seq<nat>, tableBits: nat)
    requires 1 <= tableBits <= 15 && Kraft(lens, 16) == FULL
    ensures Number(lens, tableBits, |lens|) <= Pow2(tableBits)
    ensures Shl(Number(lens, tableBits, |lens|), 16 - tableBits) == Kraft(lens, tableBits)
    ensures NodesUsed(lens, tableBits, 16, |lens|) + (Pow2(tableBits) - Number(lens, tableBits, |lens|)) == LongCodes(lens, tableBits)
  {
    hide NodesUsed, CodesBefore, Roots, Pending, Pow2;
    var p := Number(lens, tableBits, |lens|);
    KraftIsPosition(lens, 16);
    KraftIsPosition(lens, tableBits);
    FullIsPow2();
    NodeBalance(lens, tableBits, 16, |lens|);
    FullTable(tableBits, 16);
    KraftGrows(lens, tableBits);
    ShlPow2(tableBits, 16 - tableBits);
    if p > Pow2(tableBits) {
      ShlGap(Pow2(tableBits), p, 16 - tableBits);
    }
  }

  /** Fewer than all strings of `len` bits taken means more than `len` pieces, codes and free
      strings together. */
  lemma {:induction false} ManyPieces(lens: seq<nat>, len: nat)
    requires len <= 15 && (len >= 1 ==> Number(lens, len, |lens|) < Pow2(len))
    ensures len >= 1 ==> CodesBefore(lens, 0, len, |lens|) + (Pow2(len) - Number(lens, len, |lens|)) >= len + 1
  {
    if len >= 1 {
      CountCodes(lens, len, |lens|);
      CountIsNumber(lens, len, |lens|);
      if len >= 2 {
        ManyPieces(lens, len - 1);
      }
    }
  }

  lemma {:induction false} CountCodes(lens: seq<nat>, len: nat, k: nat)
    requires k <= |lens| && 1 <= len <= 16
    ensures CodesBefore(lens, 0, len, k) ==
              (if len == 1 then 0 else CodesBefore(lens, 0, len - 1, |lens|)) + Count(lens, len, k)
    decreases k
  {
    if k > 0 {
      CountCodes(lens, len, k - 1);
    }
  }

  lemma {:induction false} ShortPlusLong(lens: seq<nat>, tableBits: nat, len: nat, k: nat)
    requires 1 <= tableBits < len <= 16 && k <= |lens|
    ensures CodesBefore(lens, 0, len, k) == CodesBefore(lens, 0, tableBits, |lens|) + CodesBefore(lens, tableBits, len, k)
    decreases len, k
  {
    if k > 0 {
      ShortPlusLong(lens, tableBits, len, k - 1);
    } else if len - 1 > tableBits {
      ShortPlusLong(lens, tableBits, len - 1, |lens|);
    }
  }

  /** Symbols before `k` with a code of at most `len` bits. */
  function CodesUpTo(lens: seq<nat>, len: nat, k: nat): (n: nat)
    requires k <= |lens|
    ensures n <= k
  {
    if k == 0 then 0 else CodesUpTo(lens, len, k - 1) + (if 1 <= lens[k - 1] <= len then 1 else 0)
  }

  lemma {:induction false} CodesUpToStep(lens: seq<nat>, len: nat, k: nat)
    requires len >= 1 && k <= |lens|
    ensures CodesUpTo(lens, len, k) == CodesUpTo(lens, len - 1, k) + Count(lens, len, k)
    ensures CodesUpTo(lens, 0, k) == 0
  {
    if k > 0 {
      CodesUpToStep(lens, len, k - 1);
    }
  }

  lemma {:induction false} AtMostAllSymbols(lens: seq<nat>, len: nat)
    requires 1 <= len <= 16
    ensures CodesBefore(lens, 0, len, |lens|) == CodesUpTo(lens, len, |lens|) <= |lens|
  {
    CountCodes(lens, len, |lens|);
    CodesUpToStep(lens, len, |lens|);
    if len > 1 {
      AtMostAllSymbols(lens, len - 1);
    }
  }

  // ---------------------------------------------------------------- the decoder's tables

  /** A complete code over n symbols needs at most n - tableBits - 1 overflow nodes. */
  lemma NodesBound(lens: seq<nat>, tableBits: nat)
    requires 1 <= tableBits <= 15 && Kraft(lens, 16) == FULL && Kraft(lens, tableBits) != FULL
    ensures NodesUsed(lens, tableBits, 16, |lens|) + tableBits + 1 <= |lens|
  {
    NodesOfCompleteCode(lens, tableBits);
    PositionAtTop(tableBits, Number(lens, tableBits, |lens|));
    ManyPieces(lens, tableBits);
    ShortPlusLong(lens, tableBits, 16, |lens|);
    AtMostAllSymbols(lens, 16);
  }

  /** Every complete pre-tree of 20 symbols fits its 96 entries. */
  lemma PreTreeFits(lens: seq<nat>)
    requires |lens| == 20 && Complete(lens, 6)
    ensures Fits(lens, 6, 96)
  {
    Pow2Values();
    if Kraft(lens, 6) != FULL {
      NodesBound(lens, 6);
    }
  }

  lemma {:induction false} NoLongBits(lens: seq<nat>, tableBits: nat, len: nat, k: nat)
    requires 1 <= len <= 16 && k <= |lens|
    requires forall s :: 0 <= s < |lens| ==> lens[s] <= tableBits
    ensures LongBits(lens, tableBits, len, k) == 0
    decreases len, k
  {
    if len > tableBits && k > 0 {
      NoLongBits(lens, tableBits, len, k - 1);
    } else if len > tableBits && len > 1 {
      NoLongBits(lens, tableBits, len - 1, |lens|);
    }
  }

  // ---------------------------------------------------------------- the Kraft condition

  /** Acceptance is the Kraft equality exactly when the short codes do not already use
      everything up while longer codes remain. */
  lemma CompleteIffKraft(lens: seq<nat>, tableBits: nat)
    requires tableBits <= 15
    ensures (Complete(lens, tableBits) <==> Kraft(lens, 16) == FULL) <==>
            !(Kraft(lens, tableBits) == FULL && exists s :: 0 <= s < |lens| && tableBits < lens[s] <= 16)
  {
    LongCodesAdd(lens, tableBits);
  }

  lemma {:induction false} LongCodesAdd(lens: seq<nat>, tableBits: nat)
    requires tableBits <= 15
    ensures Kraft(lens, tableBits) <= Kraft(lens, 16)
    ensures Kraft(lens, tableBits) < Kraft(lens, 16) <==> exists s :: 0 <= s < |lens| && tableBits < lens[s] <= 16
  {
    if |lens| > 0 {
      var n := |lens| - 1;
      var lens' := lens[..n];
      LongCodesAdd(lens', tableBits);
      if exists s :: 0 <= s < |lens| && tableBits < lens[s] <= 16 {
        var s :| 0 <= s < |lens| && tableBits < lens[s] <= 16;
        assert s == n || lens'[s] == lens[s];
      }
      if exists s :: 0 <= s < |lens'| && tableBits < lens'[s] <= 16 {
        var s :| 0 <= s < |lens'| && tableBits < lens'[s] <= 16;
        assert lens[s] == lens'[s];
      }
    }
  }
}
