/** Every file can be packed: whatever the bytes, there is packed data that unpacks to them. */
module Encodability {
  import opened Bits
  import opened Errors
  import opened MmapBuffer
  import opened CanonicalCode
  import opened HuffmanTables
  import opened HuffmanCount
  import opened HuffmanCapacity
  import opened DecoderSpec
  import opened LzxBlocks
  import opened TokenRoundTrip
  import opened LengthRoundTrip
  import opened BlockRoundTrip

  // ---------------------------------------------------------------- all lengths from all lengths

  /** In a code that is not over-full every symbol with a length has a code. */
  lemma NotOverfullIsCoded(lens: seq<nat>, s: nat)
    requires HasLength(lens, s) && Kraft(lens, 16) <= FULL
    ensures Coded(lens, s)
  {
    var len := lens[s];
    var n := Number(lens, len, s);
    PositionStep(lens, len, s);
    PositionMonotone(lens, len, s + 1, 16, |lens|);
    KraftIsPosition(lens, 16);
    FullIsPow2();
    ShlPow2(len, 16 - len);
    if n >= Pow2(len) {
      ShlMonotone(Pow2(len), n, 16 - len);
    }
  }

  /** A complete pre-tree in which every symbol has a code. */
  predicate FullPreTree(pre: seq<nat>) {
    |pre| == 20 && (forall i :: 0 <= i < 20 ==> 1 <= pre[i] <= 15) && Kraft(pre, 16) == FULL
  }

  lemma FullPreTreeOk(pre: seq<nat>)
    requires FullPreTree(pre)
    ensures PreTreeOk(pre) && EverySymbolCoded(pre)
  {
    PreTreeFits(pre);
    assert Pow2(4) == 16;
    forall s | 0 <= s < 20 ensures Coded(pre, s) {
      NotOverfullIsCoded(pre, s);
    }
  }

  /** The plan of the run-length encoder. */
  function PlanFor(from: seq<nat>, to: seq<nat>, pre1: seq<nat>, pre2: seq<nat>): LengthPlan
    requires LengthsOk(from) && LengthsOk(to)
  {
    LengthPlan(pre1, ChooseAll(from, to, 0, 256, 1), pre2, ChooseAll(from, to, 256, 768, 0))
  }

  /** The plan rebuilds the new lengths with any pre-trees that have codes for what it uses. */
  lemma PlanRebuilds(from: seq<nat>, to: seq<nat>, pre1: seq<nat>, pre2: seq<nat>)
    requires LengthsOk(from) && LengthsOk(to) && LengthPlanOk(PlanFor(from, to, pre1, pre2))
    ensures PlannedLengths(from, PlanFor(from, to, pre1, pre2)) == to
  {
    hide PreTreeOk, OpsOk, ApplyOps, ChooseAll;
    ChosenOpsRebuild(pre1, from, from, to, 0, 256, 1);
    var lens1 := ApplyOps(pre1, from, ChooseAll(from, to, 0, 256, 1), 0, 256, 1);
    ChosenOpsRebuild(pre2, lens1, from, to, 256, 768, 0);
  }

  /** Code lengths come back: for all old and new lengths and all accepted pre-trees with codes for
      the symbols needed, parsing what the run-length encoder writes gives the new lengths. */
  lemma LengthsRoundTrip(from: seq<nat>, to: seq<nat>, pre1: seq<nat>, pre2: seq<nat>, rest: seq<bool>, s: Stream)
    requires LengthsOk(from) && LengthsOk(to)
    requires LengthPlanOk(PlanFor(from, to, pre1, pre2)) && s.Valid() && |rest| >= 16
    requires s.bits == EncodeLengths(PlanFor(from, to, pre1, pre2)) + rest
    ensures ParseLengths(from, s).Success?
    ensures ParseLengths(from, s).value.0 == to && ParseLengths(from, s).value.1.bits == rest
  {
    hide LengthPlanOk, EncodeLengths, PlannedLengths, ParseLengths, PlanFor;
    PlanRebuilds(from, to, pre1, pre2);
    ParseLengthsBack(from, PlanFor(from, to, pre1, pre2), rest, s);
  }

  /** With complete pre-trees that give every symbol a code, there is such a plan. */
  lemma PlanExists(from: seq<nat>, to: seq<nat>, pre1: seq<nat>, pre2: seq<nat>)
    requires LengthsOk(from) && LengthsOk(to) && FullPreTree(pre1) && FullPreTree(pre2)
    ensures LengthPlanOk(PlanFor(from, to, pre1, pre2))
  {
    hide PreTreeOk, EverySymbolCoded, OpsOk, ChooseAll, FullPreTree;
    FullPreTreeOk(pre1);
    FullPreTreeOk(pre2);
    ChosenOpsOk(pre1, from, to, 0, 256, 1);
    ChosenOpsOk(pre2, from, to, 256, 768, 0);
  }

  // ---------------------------------------------------------------- two simple codes

  /** Twelve symbols of four bits and eight of five. */
  function SimplePreTree(): (pre: seq<nat>)
    ensures |pre| == 20
  {
    seq(20, i => if i < 12 then 4 else 5)
  }

  lemma SimplePreTreeFull()
    ensures FullPreTree(SimplePreTree())
  {
    var pre := SimplePreTree();
    SmallPowers();
    assert Share(4, 16) == 4096 && Share(5, 16) == 2048;
    TimesIsProduct(8, 2048);
    TimesIsProduct(12, 4096);
    KraftOfRun(pre, 12, 2048, 16);
    KraftOfRun(pre[..12], 0, 4096, 16);
    assert pre[..12][..0] == [];
  }

  /** Eight bits for every byte, and no matches. */
  function PlainCode(): (lens: seq<nat>)
    ensures LengthsOk(lens)
  {
    seq(768, i => if i < 256 then 8 else 0)
  }

  lemma PlainCodeOk()
    ensures Build(PlainCode(), 12, 5120) == Ok
    ensures forall b: byte :: Coded(PlainCode(), b)
  {
    var lens := PlainCode();
    SmallPowers();
    TimesIsProduct(512, 0);
    TimesIsProduct(256, 256);
    forall max | max == 12 || max == 16
      ensures Kraft(lens, max) == FULL
    {
      assert Share(8, max) == 256;
      KraftOfRun(lens, 256, 0, max);
      KraftOfRun(lens[..256], 0, 256, max);
      assert lens[..256][..0] == [];
    }
    forall b: byte ensures Coded(lens, b) {
      NotOverfullIsCoded(lens, b);
    }
  }

  // ---------------------------------------------------------------- plain blocks

  function Plains(data: seq<byte>): (cs: seq<Choice>)
    ensures |cs| == |data|
    decreases |data|
  {
    if |data| == 0 then [] else [Plain(data[0])] + Plains(data[1..])
  }

  lemma {:induction false} PlainsEncodable(d: Decoder, data: seq<byte>)
    requires d.literals == PlainCode()
    ensures AllEncodable(d, Plains(data))
    ensures LastAfterAll(d.last, Plains(data)) == d.last
    decreases |data|
  {
    hide PlainCode, Encodable;
    if |data| > 0 {
      PlainEncodable(d, data[0]);
      assert d.(last := d.last) == d;
      PlainsEncodable(d, data[1..]);
      assert Plains(data)[1..] == Plains(data[1..]);
    }
  }

  lemma PlainEncodable(d: Decoder, b: byte)
    requires d.literals == PlainCode()
    ensures Encodable(d, Plain(b))
  {
    hide Coded, PlainCode;
    PlainCodeOk();
  }

  lemma {:induction false} PlainsExpand(out: seq<byte>, data: seq<byte>)
    ensures Expandable(out, Plains(data))
    ensures Expand(out, Plains(data)) == out + data
    ensures Reaches(out, Plains(data), |out| + |data|)
    decreases |data|
  {
    hide Plains, CopyMatch;
    if |data| == 0 {
      assert out + data == out;
    } else {
      var next := out + [data[0]];
      PlainsSplit(data);
      PlainsExpand(next, data[1..]);
      assert Extend(out, Plain(data[0])) == next;
      assert next + data[1..] == out + data;
    }
  }

  lemma PlainsSplit(data: seq<byte>)
    requires |data| > 0
    ensures Plains(data)[0] == Plain(data[0]) && Plains(data)[1..] == Plains(data[1..])
  {
  }

  lemma PlainBlockOk(d: Decoder, h: HeaderPlan, out: seq<byte>, data: seq<byte>, total: nat)
    requires DecoderOk(d) && HeaderOk(d, h) && AfterHeader(d, h).literals == PlainCode()
    requires h.length == |data| > 0 && |out| + |data| <= total
    ensures var b := BlockPlan(h, Plains(data));
            && BlockOk(d, out, b, total) && AfterBlock(d, b) == AfterHeader(d, h)
            && Expand(out, b.tokens) == out + data
  {
    hide DecoderOk, HeaderOk, AfterHeader, PlainCode, AllEncodable, Expandable, Expand, LastAfterAll, Reaches, Plains;
    var d1 := AfterHeader(d, h);
    PlainsEncodable(d1, data);
    PlainsExpand(out, data);
    assert d1.(last := d1.last) == d1;
    assert Min(|out| + h.length, total) == |out| + |data|;
  }

  // ---------------------------------------------------------------- how many bits that takes

  lemma {:induction false} ManyLength(vs: seq<nat>, w: nat)
    ensures |EncodeMany(vs, w)| == w * |vs|
  {
    hide BitsOf;
    if |vs| > 0 {
      ManyLength(vs[1..], w);
      Distribute(w, |vs|);
    }
  }

  lemma Distribute(w: nat, n: nat)
    requires n > 0
    ensures w + w * (n - 1) == w * n
  {
  }

  /** No operation takes more than eleven bits for each length it sets. */
  lemma {:induction false} OpsLength(pre: seq<nat>, ops: seq<Op>, pos: nat, max: nat, fix: nat)
    requires fix <= 1 && OpsOk(pre, ops, pos, max, fix) && forall s :: 0 <= s < |pre| ==> pre[s] <= 5
    ensures pos <= max && |EncodeOps(pre, ops, pos, max, fix)| <= 11 * (max - pos)
    decreases |ops|
  {
    hide EncodeOp, OpCoded, OpOk;
    if |ops| > 0 {
      OpLength(pre, ops[0], fix);
      OpsLength(pre, ops[1..], pos + Size(ops[0]), max, fix);
    }
  }

  lemma OpLength(pre: seq<nat>, op: Op, fix: nat)
    requires fix <= 1 && OpOk(op, fix) && OpCoded(pre, op) && forall s :: 0 <= s < |pre| ==> pre[s] <= 5
    ensures |EncodeOp(pre, op, fix)| <= 11 && Size(op) >= 1
  {
  }

  lemma LengthsLength(p: LengthPlan)
    requires LengthPlanOk(p) && (forall s :: 0 <= s < |p.pre1| ==> p.pre1[s] <= 5)
    requires forall s :: 0 <= s < |p.pre2| ==> p.pre2[s] <= 5
    ensures |EncodeLengths(p)| <= 8608
  {
    hide EncodeMany, EncodeOps, OpsOk, Build;
    ManyLength(p.pre1, 4);
    ManyLength(p.pre2, 4);
    OpsLength(p.pre1, p.ops1, 0, 256, 1);
    OpsLength(p.pre2, p.ops2, 256, 768, 0);
  }

  lemma {:induction false} PlainsLength(d: Decoder, data: seq<byte>)
    requires d.literals == PlainCode() && AllEncodable(d, Plains(data))
    ensures |EncodeAll(d, Plains(data))| == 8 * |data|
    decreases |data|
  {
    hide PlainCode, Encodable, Encode;
    if |data| > 0 {
      PlainsSplit(data);
      PlainLength(d, data[0]);
      assert d.(last := d.last) == d;
      PlainsLength(d, data[1..]);
    }
  }

  lemma PlainLength(d: Decoder, b: byte)
    requires d.literals == PlainCode() && Encodable(d, Plain(b))
    ensures |Encode(d, Plain(b))| == 8
  {
  }

  /** A plain block: 27 bits, its code if there is a new one, and eight bits for every byte. */
  lemma PlainBlockLength(d: Decoder, h: HeaderPlan, data: seq<byte>)
    requires DecoderOk(d) && HeaderOk(d, h) && AfterHeader(d, h).literals == PlainCode() && h.mode != 3
    requires AllEncodable(AfterHeader(d, h), Plains(data))
    ensures |EncodeBlock(d, BlockPlan(h, Plains(data)))| ==
            27 + (if h.mode == 1 then 0 else |EncodeLengths(h.plan)|) + 8 * |data|
  {
    hide DecoderOk, AfterHeader, PlainCode, EncodeLengths, EncodeMany, EncodeAll, AllEncodable, Plains, BitsOf,
        LengthPlanOk,
      PlannedLengths, Build;
    PlainsLength(AfterHeader(d, h), data);
    ManyLength([h.length / 65536, h.length / 256 % 256, h.length % 256], 8);
  }

  // ---------------------------------------------------------------- plain chains

  lemma ChainCons(d: Decoder, out: seq<byte>, b: BlockPlan, rest: seq<BlockPlan>, total: nat)
    requires BlockOk(d, out, b, total) && ChainOk(AfterBlock(d, b), Expand(out, b.tokens), rest, total)
    ensures ChainOk(d, out, [b] + rest, total)
    ensures ExpandChain(out, [b] + rest) == ExpandChain(Expand(out, b.tokens), rest)
    ensures |EncodeChain(d, out, [b] + rest, total)| ==
            |EncodeBlock(d, b)| + |EncodeChain(AfterBlock(d, b), Expand(out, b.tokens), rest, total)|
  {
    hide BlockOk, EncodeBlock, Expand;
    assert ([b] + rest)[1..] == rest;
  }

  /** The greatest length a block header can give. */
  const MOST: nat := 16777215

  /** Once the plain code is in place, further blocks with method 1 keep it. */
  lemma {:induction false} PackRest(d: Decoder, out: seq<byte>, data: seq<byte>,
      total: nat) returns (blocks: seq<BlockPlan>)
    requires DecoderOk(d) && d.literals == PlainCode() && total == |out| + |data|
    ensures ChainOk(d, out, blocks, total)
    ensures ExpandChain(out, blocks) == out + data
    ensures |EncodeChain(d, out, blocks, total)| <= 8 * |data| + 27 * (|data| / MOST + 1)
    ensures |data| == 0 ==> |EncodeChain(d, out, blocks, total)| == 0
    decreases |data|
  {
    hide DecoderOk, PlainCode, BlockOk, Expand, Plains, LengthPlanOk, PlannedLengths, EncodeBlock;
    if |data| == 0 {
      blocks := [];
      assert out + data == out;
    } else {
      hide ChainOk, EncodeChain, ExpandChain;
      var n := Min(|data|, MOST);
      var h := HeaderPlan(1, [], n, LengthPlan([], [], [], []));
      var b := BlockPlan(h, Plains(data[..n]));
      PlainBlockOk(d, h, out, data[..n], total);
      PlainBlockLength(d, h, data[..n]);
      var rest := PackRest(AfterHeader(d, h), out + data[..n], data[n..], total);
      ChainCons(d, out, b, rest, total);
      blocks := [b] + rest;
      assert out + data[..n] + data[n..] == out + data;
      OneBlockLess(|data|, n);
    }
  }

  lemma OneBlockLess(size: nat, n: nat)
    requires size > 0 && n == Min(size, MOST)
    ensures n < size ==> (size - n) / MOST + 1 == size / MOST
  {
  }

  /** A chain of blocks for any data, from a fresh decoder. */
  lemma PackBlocks(data: seq<byte>) returns (blocks: seq<BlockPlan>)
    ensures ChainOk(InitialDecoder(), [], blocks, |data|)
    ensures ExpandChain([], blocks) == data
    ensures |EncodeChain(InitialDecoder(), [], blocks, |data|)| <= 8608 + 8 * |data| + 27 * (|data| / MOST + 1)
  {
    if |data| == 0 {
      blocks := [];
    } else {
      blocks := PackSome(data);
    }
  }

  lemma PackSome(data: seq<byte>) returns (blocks: seq<BlockPlan>)
    requires |data| > 0
    ensures ChainOk(InitialDecoder(), [], blocks, |data|)
    ensures ExpandChain([], blocks) == data
    ensures |EncodeChain(InitialDecoder(), [], blocks, |data|)| <= 8608 + 8 * |data| + 27 * (|data| / MOST + 1)
  {
    hide DecoderOk, PlainCode, BlockOk, Expand, Plains, LengthPlanOk, PlannedLengths, Build, EncodeBlock, EncodeLengths,
      ChainOk, EncodeChain, ExpandChain;
    InitialDecoderOk();
    var d, n := InitialDecoder(), Min(|data|, MOST);
    var h := PlainHeader(d, n);
    var b := BlockPlan(h, Plains(data[..n]));
    PlainBlockOk(d, h, [], data[..n], |data|);
    PlainBlockLength(d, h, data[..n]);
    assert [] + data[..n] == data[..n];
    var rest := PackRest(AfterHeader(d, h), data[..n], data[n..], |data|);
    ChainCons(d, [], b, rest, |data|);
    blocks := [b] + rest;
    assert data[..n] + data[n..] == data;
    OneBlockLess(|data|, n);
  }

  /** A header that puts the plain code in place. */
  lemma PlainHeader(d: Decoder, n: nat) returns (h: HeaderPlan)
    requires DecoderOk(d) && n <= MOST
    ensures h.mode == 2 && h.length == n && HeaderOk(d, h)
    ensures AfterHeader(d, h).literals == PlainCode()
    ensures |EncodeLengths(h.plan)| <= 8608
  {
    hide DecoderOk, PlainCode, LengthPlanOk, PlannedLengths, Build, EncodeLengths;
    LengthsOfDecoder(d);
    var plan := PlainPlan(d.literals);
    PlainCodeOk();
    h := HeaderPlan(2, [], n, plan);
  }

  lemma LengthsOfDecoder(d: Decoder)
    requires DecoderOk(d)
    ensures LengthsOk(d.literals)
  {
    hide Build;
  }

  lemma PlainPlan(from: seq<nat>) returns (plan: LengthPlan)
    requires LengthsOk(from)
    ensures LengthPlanOk(plan) && PlannedLengths(from, plan) == PlainCode() && |EncodeLengths(plan)| <= 8608
  {
    hide LengthsOk, PlainCode, LengthPlanOk, PlannedLengths, EncodeLengths, FullPreTree, ChooseAll;
    var pre := SimplePreTree();
    SimplePreTreeFull();
    PlanExists(from, PlainCode(), pre, pre);
    PlanRebuilds(from, PlainCode(), pre, pre);
    plan := PlanFor(from, PlainCode(), pre, pre);
    LengthsLength(plan);
  }

  // ---------------------------------------------------------------- bytes for bits

  lemma {:induction false} BytesFor(bits: seq<bool>, k: nat) returns (data: seq<byte>)
    requires |bits| == 16 * k
    ensures WordBits(data) == bits && |data| == 2 * k
    decreases k
  {
    if k == 0 {
      data := [];
    } else {
      var rest := BytesFor(bits[16..], k - 1);
      var word := bits[..16];
      var w := Val(word);
      Pow2Values();
      data := [w / 256, w % 256] + rest;
      SplitWord(w);
      BitsOfVal(word);
      assert data[2..] == rest;
      assert bits == word + bits[16..];
    }
  }

  lemma SplitWord(w: nat)
    requires w < 65536
    ensures w / 256 < 256 && Word(w / 256, w % 256) == w
  {
  }

  /** Every file, of any length, has packed data that unpacks to it, and that is hardly longer: by
      1090 bytes, and four more for every 16777215 bytes begun. */
  lemma EverythingCanBePacked(data: seq<byte>) returns (packed: seq<byte>)
    ensures Unpack(2, packed, |data|) == Success(data)
    ensures 0 < |packed| <= |data| + 4 * (|data| / MOST + 1) + 1090
  {
    hide ChainOk, EncodeChain, ExpandChain, WordBits, Unpack, InitialDecoder;
    var blocks := PackBlocks(data);
    var bits := EncodeChain(InitialDecoder(), [], blocks, |data|);
    var k := |bits| / 16 + 3;
    var padding := Clear(16 * k - |bits|);
    packed := BytesFor(bits + padding, k);
    UnpackUndoesEncoding(packed, blocks, |data|, padding);
    assert data[..|data|] == data;
  }
}
