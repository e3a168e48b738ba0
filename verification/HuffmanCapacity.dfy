/** Which codes have room in the arrays of the decoder (src/huffman_decoder.cc:26), and inputs that
    show where the obvious guesses fail. */
module HuffmanCapacity {
  import opened Bits
  import opened Errors
  import opened CanonicalCode
  import opened HuffmanWalk
  import opened HuffmanTables
  import opened HuffmanCount

  // ---------------------------------------------------------------- complete codes

  /** A complete code has room exactly when the entries that pass 1 leaves empty make up for the
      long codes. */
  lemma CompleteCodeFits(lens: seq<nat>, tableBits: nat, size: nat)
    requires 1 <= tableBits <= 15 && Kraft(lens, 16) == FULL
    ensures Fits(lens, tableBits, size) <==>
              || Kraft(lens, tableBits) == FULL
              || 2 * LongCodes(lens, tableBits) + Pow2(tableBits)
                   <= size + 2 * (Pow2(tableBits) - Number(lens, tableBits, |lens|))
  {
    hide NodesUsed, LongCodes, Number;
    NodesOfCompleteCode(lens, tableBits);
  }

  /** The literal table: 512 overflow nodes besides one for each empty entry. */
  lemma LiteralTableFits(lens: seq<nat>)
    requires Kraft(lens, 16) == FULL
    ensures Fits(lens, 12, 5120) <==>
              || Kraft(lens, 12) == FULL
              || LongCodes(lens, 12) <= 512 + (4096 - Number(lens, 12, |lens|))
  {
    hide NodesUsed, LongCodes, Number;
    Pow2Values();
    CompleteCodeFits(lens, 12, 5120);
    NodesOfCompleteCode(lens, 12);
  }

  // ---------------------------------------------------------------- sums over runs of equal lengths

  function Times(n: nat, share: nat): nat {
    if n == 0 then 0 else Times(n - 1, share) + share
  }

  lemma {:induction false} TimesIsProduct(n: nat, share: nat)
    ensures Times(n, share) == n * share
  {
    if n > 0 {
      TimesIsProduct(n - 1, share);
      OneMore(n - 1, share);
    }
  }

  lemma OneMore(n: int, share: int)
    ensures (n + 1) * share == n * share + share
  {
  }

  /** A run of equal lengths at the end adds equal shares to the Kraft sum. */
  lemma {:induction false} KraftOfRun(lens: seq<nat>, m: nat, share: nat, max: nat)
    requires m <= |lens| && max <= 16
    requires forall i :: m <= i < |lens| ==> Share(lens[i], max) == share
    ensures Kraft(lens, max) == Kraft(lens[..m], max) + Times(|lens| - m, share)
    decreases |lens|
  {
    if |lens| == m {
      assert lens[..m] == lens;
    } else {
      var n := |lens| - 1;
      KraftOfRun(lens[..n], m, share, max);
      assert lens[..n][..m] == lens[..m];
    }
  }

  lemma KraftOfOneMore(lens: seq<nat>, len: nat, max: nat)
    requires max <= 16
    ensures Kraft(lens + [len], max) == Kraft(lens, max) + Share(len, max)
  {
    assert (lens + [len])[..|lens|] == lens;
  }

  predicate UpTo(len: nat, max: nat) {
    1 <= len <= max
  }

  lemma {:induction false} CodesOfRun(lens: seq<nat>, m: nat, k: nat, max: nat, short: bool)
    requires m <= k <= |lens|
    requires forall i :: m <= i < k ==> UpTo(lens[i], max) == short
    ensures CodesUpTo(lens, max, k) == CodesUpTo(lens, max, m) + if short then k - m else 0
    decreases k
  {
    if k > m {
      CodesOfRun(lens, m, k - 1, max, short);
      assert UpTo(lens[k - 1], max) == short;
    }
  }

  /** The long codes are all codes less the short ones. */
  lemma LongCodesAre(lens: seq<nat>, tableBits: nat)
    requires 1 <= tableBits <= 15
    ensures LongCodes(lens, tableBits) == CodesUpTo(lens, 16, |lens|) - CodesUpTo(lens, tableBits, |lens|)
  {
    hide CodesBefore, CodesUpTo;
    ShortPlusLong(lens, tableBits, 16, |lens|);
    AtMostAllSymbols(lens, 16);
    AtMostAllSymbols(lens, tableBits);
  }

  // ---------------------------------------------------------------- three inputs

  lemma PowersBelow16()
    ensures Pow2(1) == 2 && Pow2(4) == 16 && Pow2(6) == 64 && Pow2(7) == 128 && Pow2(8) == 256
    ensures Pow2(9) == 512 && Pow2(10) == 1024 && Pow2(11) == 2048 && Pow2(12) == 4096
    ensures Pow2(13) == 8192 && Pow2(14) == 16384 && Pow2(15) == 32768 && Pow2(0) == 1
  {
  }

  function OverfullLengths(): (lens: seq<nat>)
    ensures |lens| == 20
  {
    [1, 1, 7] + Zeros(17)
  }

  /** Pass 2 is skipped once the short codes use everything up, so an over-full pre-tree is
      accepted: lengths 1, 1 and 7. */
  lemma OverfullAccepted()
    ensures Build(OverfullLengths(), 6, 96) == Ok && Kraft(OverfullLengths(), 16) > FULL
  {
    var lens := OverfullLengths();
    PowersBelow16();
    forall max | max == 6 || max == 16
      ensures Kraft(lens, max) == 65536 + Share(7, max)
    {
      TimesIsProduct(17, 0);
      KraftOfRun(lens, 3, 0, max);
      assert lens[..3] == [] + [1] + [1] + [7];
      KraftOfOneMore([], 1, max);
      KraftOfOneMore([] + [1], 1, max);
      KraftOfOneMore([] + [1] + [1], 7, max);
    }
    assert Share(7, 6) == 0 && Share(7, 16) == 512;
    assert Kraft(lens, 6) == FULL && Kraft(lens, 16) > FULL;
  }

  /** Twenty pre-tree lengths of 15: the code is far from complete, but before that can be noticed
      pass 2 asks for 25 overflow nodes where 16 have room. */
  lemma PreTreeOverrun()
    ensures var lens := seq(20, _ => 15);
            && Kraft(lens, 16) == 40 && NodesUsed(lens, 6, 16, 20) == 25 && Build(lens, 6, 96) == IndexFault
  {
    hide NodesUsed, Number, LongCodes, CodesUpTo, Times, Roots, Pending, CodesBefore;
    var lens: seq<nat> := seq(20, _ => 15);
    PowersBelow16();
    Pow2Values();
    TimesIsProduct(20, 2);
    TimesIsProduct(20, 0);
    KraftOfRun(lens, 0, 2, 16);
    KraftOfRun(lens, 0, 0, 6);
    assert lens[..0] == [];
    NumbersOf(lens, 6, 0, 40);
    CodesOfRun(lens, 0, 20, 16, true);
    CodesOfRun(lens, 0, 20, 6, false);
    LongCodesAre(lens, 6);
    NodeBalance(lens, 6, 16, 20);
    CellsOfForty();
    LongCodesIs(lens, 6);
  }

  lemma LongCodesIs(lens: seq<nat>, tableBits: nat)
    ensures LongCodes(lens, tableBits) == CodesBefore(lens, tableBits, 16, |lens|)
  {
  }

  lemma NumbersOf(lens: seq<nat>, tableBits: nat, short: nat, all: nat)
    requires 1 <= tableBits <= 15 && Kraft(lens, 16) == all && Kraft(lens, tableBits) == Shl(short, 16 - tableBits)
    ensures Number(lens, 16, |lens|) == all && Number(lens, tableBits, |lens|) == short
    ensures Position(lens, 16, |lens|) == all
  {
    KraftIsPosition(lens, 16);
    KraftIsPosition(lens, tableBits);
    ShlUnique(Number(lens, tableBits, |lens|), 0, short, 0, 16 - tableBits);
  }

  lemma OneCell()
    ensures Roots(1, 6, 10) == 1 && Pending(1, 6, 10) == 4
  {
    assert Roots(1, 6, 8) == 1 && Pending(1, 6, 8) == 2;
  }

  lemma CellsOfForty()
    ensures Roots(40, 6, 16) == 1 && Pending(40, 6, 16) == 6
  {
    OneCell();
    assert Roots(5, 6, 13) == Roots(3, 6, 12) == Roots(2, 6, 11) == Roots(1, 6, 10);
    assert Pending(5, 6, 13) == 1 + Pending(3, 6, 12) == 2 + Pending(2, 6, 11) == 2 + Pending(1, 6, 10);
  }

  /** Lengths of a complete literal code: ten short codes, and 560 of sixteen bits below the few
      strings that they leave. */
  function CrowdedLiterals(): (lens: seq<nat>)
    ensures |lens| == 768 && forall i :: 0 <= i < 768 ==> lens[i] <= 16
  {
    ShortLengths() + seq(560, _ => 16) + Zeros(198)
  }

  function ShortLengths(): (lens: seq<nat>)
    ensures |lens| == 10 && forall i :: 0 <= i < 10 ==> UpTo(lens[i], 12)
  {
    [1, 2, 3, 4, 5, 6, 8, 9, 10, 12]
  }

  lemma KraftOfShortLengths(max: nat)
    requires max == 12 || max == 16
    ensures Kraft(ShortLengths(), max) == 64976
  {
    hide Kraft;
    PowersBelow16();
    var few: seq<nat> := [1, 2, 3, 4, 5];
    assert Kraft([], max) == 0 by {
      KraftOfNothing(max);
    }
    KraftOfOneMore([], 1, max);
    KraftOfOneMore([1], 2, max);
    KraftOfOneMore([1, 2], 3, max);
    KraftOfOneMore([1, 2, 3], 4, max);
    KraftOfOneMore([1, 2, 3, 4], 5, max);
    assert [] + [1] == [1] && [1] + [2] == [1, 2] && [1, 2] + [3] == [1, 2, 3];
    assert [1, 2, 3] + [4] == [1, 2, 3, 4] && [1, 2, 3, 4] + [5] == few;
    KraftOfOneMore(few, 6, max);
    KraftOfOneMore(few + [6], 8, max);
    KraftOfOneMore(few + [6] + [8], 9, max);
    KraftOfOneMore(few + [6] + [8] + [9], 10, max);
    KraftOfOneMore(few + [6] + [8] + [9] + [10], 12, max);
    assert few + [6] + [8] + [9] + [10] + [12] == ShortLengths();
  }

  lemma KraftOfNothing(max: nat)
    requires max <= 16
    ensures Kraft([], max) == 0
  {
  }

  /** The literal table is too small even for some complete codes: this one leaves 35 entries empty
      and asks for 525 overflow nodes where 512 have room. */
  lemma LiteralTableOverrun()
    ensures var lens := CrowdedLiterals();
            && Kraft(lens, 16) == FULL && NodesUsed(lens, 12, 16, 768) == 525 && Build(lens, 12, 5120) == IndexFault
  {
    hide NodesUsed, Number, LongCodes, CodesUpTo, Times, ShortLengths, Kraft;
    var lens := CrowdedLiterals();
    Pow2Values();
    assert Share(16, 16) == 1;
    assert lens[..570][..10] == ShortLengths();
    KraftOfShortLengths(12);
    KraftOfShortLengths(16);
    TimesIsProduct(560, 1);
    TimesIsProduct(560, 0);
    TimesIsProduct(198, 0);
    KraftOfRun(lens, 570, 0, 12);
    KraftOfRun(lens[..570], 10, 0, 12);
    KraftOfRun(lens, 570, 0, 16);
    KraftOfRun(lens[..570], 10, 1, 16);
    assert Shl(4061, 4) == 64976;
    NumbersOf(lens, 12, 4061, 65536);
    CodesOfRun(lens, 0, 10, 12, true);
    CodesOfRun(lens, 10, 768, 12, false);
    CodesOfRun(lens, 0, 570, 16, true);
    CodesOfRun(lens, 570, 768, 16, false);
    LongCodesAre(lens, 12);
    NodesOfCompleteCode(lens, 12);
  }

  // ---------------------------------------------------------------- the offset table

  /** Eight lengths of three bits never need overflow nodes, so building never indexes outside the
      128 entries; and a lookup of seven bits always finds a symbol at once. */
  lemma OffsetTableFits(lens: seq<nat>)
    requires forall s :: 0 <= s < |lens| ==> lens[s] <= 7
    ensures Roomy(lens, 7, 128) && Build(lens, 7, 128) != IndexFault
  {
    NoLongBits(lens, 7, 16, |lens|);
    RoomyFits(lens, 7, 16, |lens|);
    Pow2Values();
  }

  lemma OneLookupDecides(lens: seq<nat>, t: seq<nat>, input: seq<bool>)
    requires forall s :: 0 <= s < |lens| ==> lens[s] <= 7
    requires Decodes(lens, t, 7) && |input| >= 7
    ensures Val(input[..7]) < |t| && t[Val(input[..7])] < |lens|
    ensures StartsWith(lens, t[Val(input[..7])], input)
  {
    ShortCodesAreDirect(lens, t, 7, input);
  }
}
