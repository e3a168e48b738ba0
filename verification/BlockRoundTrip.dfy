/** A reference encoder for whole blocks: headers and tokens, any number of blocks in a row. The
    decompressor rebuilds exactly what was encoded. */
module BlockRoundTrip {
  import opened Bits
  import opened Errors
  import opened MmapBuffer
  import opened CanonicalCode
  import opened HuffmanTables
  import opened DecoderSpec
  import opened LzxBlocks
  import opened TokenRoundTrip
  import opened LengthRoundTrip

  // ---------------------------------------------------------------- lists of numbers

  function EncodeMany(vs: seq<nat>, w: nat): seq<bool> {
    if |vs| == 0 then [] else BitsOf(vs[0], w) + EncodeMany(vs[1..], w)
  }

  lemma {:induction false} ReadManyBack(vs: seq<nat>, w: nat, rest: seq<bool>, s: Stream)
    requires s.Valid() && w <= 16 && (forall i :: 0 <= i < |vs| ==> vs[i] < Pow2(w))
    requires s.bits == EncodeMany(vs, w) + rest
    ensures ReadMany(s, |vs|, w).Success?
    ensures ReadMany(s, |vs|, w).value.0 == vs && ReadMany(s, |vs|, w).value.1.bits == rest
    decreases |vs|
  {
    hide Read, BitsOf, Pow2;
    if |vs| > 0 {
      var more := EncodeMany(vs[1..], w);
      assert s.bits == BitsOf(vs[0], w) + (more + rest);
      ReadNumber(vs[0], w, more + rest, s);
      ReadManyBack(vs[1..], w, rest, Read(s, w).value.1);
      assert vs == [vs[0]] + vs[1..];
    } else {
      assert s.bits == rest;
    }
  }

  // ---------------------------------------------------------------- headers

  /** The two pre-trees and the operations coded with them. */
  datatype LengthPlan = LengthPlan(pre1: seq<nat>, ops1: seq<Op>, pre2: seq<nat>, ops2: seq<Op>)

  datatype HeaderPlan = HeaderPlan(mode: nat, offsets: seq<nat>, length: nat, plan: LengthPlan)

  ghost predicate PreTreeOk(pre: seq<nat>) {
    |pre| == 20 && (forall i :: 0 <= i < 20 ==> pre[i] < Pow2(4)) && Build(pre, 6, 96) == Ok
  }

  ghost predicate LengthPlanOk(p: LengthPlan) {
    && PreTreeOk(p.pre1) && PreTreeOk(p.pre2)
    && OpsOk(p.pre1, p.ops1, 0, 256, 1) && OpsOk(p.pre2, p.ops2, 256, 768, 0)
  }

  ghost function PlannedLengths(lens: seq<nat>, p: LengthPlan): (lens': seq<nat>)
    requires LengthsOk(lens) && LengthPlanOk(p)
    ensures LengthsOk(lens')
  {
    ApplyOps(p.pre2, ApplyOps(p.pre1, lens, p.ops1, 0, 256, 1), p.ops2, 256, 768, 0)
  }

  ghost function EncodePass(pre: seq<nat>, ops: seq<Op>, pos: nat, max: nat, fix: nat): seq<bool>
    requires fix <= 1 && OpsOk(pre, ops, pos, max, fix)
  {
    EncodeMany(pre, 4) + EncodeOps(pre, ops, pos, max, fix)
  }

  ghost function EncodeLengths(p: LengthPlan): seq<bool>
    requires LengthPlanOk(p)
  {
    EncodePass(p.pre1, p.ops1, 0, 256, 1) + EncodePass(p.pre2, p.ops2, 256, 768, 0)
  }

  lemma ParsePassBack(pre: seq<nat>, ops: seq<Op>, p: Progress, max: nat, fix: nat, rest: seq<bool>)
    requires PreTreeOk(pre) && ProgressOk(p) && p.pos <= max <= 768 && fix <= 1
    requires OpsOk(pre, ops, p.pos, max, fix) && |rest| >= 16
    requires p.stream.bits == EncodePass(pre, ops, p.pos, max, fix) + rest
    ensures var r := ParsePass(p, max, fix);
            && r.Success? && r.value.stream.bits == rest && r.value.pos == max
            && r.value.lengths == ApplyOps(pre, p.lengths, ops, p.pos, max, fix)
  {
    hide ReadMany, ParseUntil, EncodeMany, EncodeOps, ApplyOps, OpsOk, Build;
    var x, y := EncodeMany(pre, 4), EncodeOps(pre, ops, p.pos, max, fix);
    assert p.stream.bits == x + (y + rest);
    ReadManyBack(pre, 4, y + rest, p.stream);
    ParseUntilBack(pre, p.(stream := ReadMany(p.stream, 20, 4).value.1), ops, max, fix, rest);
  }

  /** Whatever the previous lengths, parsing rebuilds the planned ones. */
  lemma ParseLengthsBack(lens: seq<nat>, p: LengthPlan, rest: seq<bool>, s: Stream)
    requires LengthsOk(lens) && LengthPlanOk(p) && s.Valid() && |rest| >= 16
    requires s.bits == EncodeLengths(p) + rest
    ensures ParseLengths(lens, s).Success?
    ensures ParseLengths(lens, s).value.0 == PlannedLengths(lens, p) && ParseLengths(lens, s).value.1.bits == rest
  {
    hide ParsePass, EncodePass, ApplyOps, OpsOk, PreTreeOk;
    var x, y := EncodePass(p.pre1, p.ops1, 0, 256, 1), EncodePass(p.pre2, p.ops2, 256, 768, 0);
    assert s.bits == x + (y + rest);
    ParsePassBack(p.pre1, p.ops1, Progress(lens, 0, s), 256, 1, y + rest);
    ParsePassBack(p.pre2, p.ops2, ParsePass(Progress(lens, 0, s), 256, 1).value, 768, 0, rest);
  }

  ghost predicate HeaderOk(d: Decoder, h: HeaderPlan)
    requires DecoderOk(d)
  {
    && h.mode < 8 && h.length < 16777216
    && (h.mode == 3 ==>
          |h.offsets| == 8 && (forall i :: 0 <= i < 8 ==> h.offsets[i] < Pow2(3)) && Build(h.offsets, 7, 128) == Ok)
    && (h.mode != 1 ==> LengthPlanOk(h.plan) && Build(PlannedLengths(d.literals, h.plan), 12, 5120) == Ok)
  }

  ghost function AfterHeader(d: Decoder, h: HeaderPlan): (d': Decoder)
    requires DecoderOk(d) && HeaderOk(d, h)
    ensures DecoderOk(d') && d'.last == d.last
  {
    SmallPowers();
    Decoder(h.mode, if h.mode == 3 then h.offsets else d.offsets,
            if h.mode == 1 then d.literals else PlannedLengths(d.literals, h.plan), d.last)
  }

  function EncodeOffsets(h: HeaderPlan): seq<bool> {
    BitsOf(h.mode, 3) + (if h.mode == 3 then EncodeMany(h.offsets, 3) else [])
  }

  function EncodeLength(length: nat): seq<bool> {
    EncodeMany([length / 65536, length / 256 % 256, length % 256], 8)
  }

  ghost function EncodeHeader(d: Decoder, h: HeaderPlan): seq<bool>
    requires DecoderOk(d) && HeaderOk(d, h)
  {
    EncodeOffsets(h) + EncodeLength(h.length) + (if h.mode == 1 then [] else EncodeLengths(h.plan))
  }

  lemma ReadOffsetLengthsBack(d: Decoder, h: HeaderPlan, rest: seq<bool>, s: Stream)
    requires DecoderOk(d) && HeaderOk(d, h) && s.Valid()
    requires s.bits == EncodeOffsets(h) + rest
    ensures ReadOffsetLengths(d, s).Success?
    ensures ReadOffsetLengths(d, s).value.0 ==
              d.(mode := h.mode, offsets := if h.mode == 3 then h.offsets else d.offsets)
    ensures ReadOffsetLengths(d, s).value.1.bits == rest
  {
    hide Read, ReadMany, BitsOf, EncodeMany, Build, LengthPlanOk, PlannedLengths, Pow2, DecoderOk;
    SmallPowers();
    var x := if h.mode == 3 then EncodeMany(h.offsets, 3) else [];
    assert s.bits == BitsOf(h.mode, 3) + (x + rest);
    ReadNumber(h.mode, 3, x + rest, s);
    if h.mode == 3 {
      ReadManyBack(h.offsets, 3, rest, Read(s, 3).value.1);
    }
  }

  lemma ReadLengthBack(length: nat, rest: seq<bool>, s: Stream)
    requires length < 16777216 && s.Valid() && s.bits == EncodeLength(length) + rest
    ensures ReadLength(s).Success? && ReadLength(s).value.0 == length && ReadLength(s).value.1.bits == rest
  {
    hide EncodeMany, ReadMany, ReadLength, Pow2;
    var vs := [length / 65536, length / 256 % 256, length % 256];
    ThreeBytes(length, vs[0], vs[1], vs[2]);
    ReadManyBack(vs, 8, rest, s);
    ThreeNumbers(s);
  }

  lemma ThreeBytes(length: nat, hi: nat, mid: nat, lo: nat)
    requires length < 16777216
    requires hi == length / 65536 && mid == length / 256 % 256 && lo == length % 256
    ensures hi < Pow2(8) && mid < Pow2(8) && lo < Pow2(8)
    ensures length == 65536 * hi + (256 * mid + lo)
  {
    SmallPowers();
  }

  /** Reading a block length is reading three bytes. */
  lemma ThreeNumbers(s: Stream)
    requires s.Valid() && ReadMany(s, 3, 8).Success?
    ensures var (vs, s') := ReadMany(s, 3, 8).value;
            ReadLength(s) == Success((65536 * vs[0] + (256 * vs[1] + vs[2]), s'))
  {
    hide Read;
    var s1 := Read(s, 8).value.1;
    var s2 := Read(s1, 8).value.1;
    assert ReadMany(s2, 1, 8).Success? && ReadMany(s1, 2, 8).Success?;
    assert ReadMany(Read(s2, 8).value.1, 0, 8) == Success(([], Read(s2, 8).value.1));
  }

  lemma ReadHeaderBack(d: Decoder, h: HeaderPlan, rest: seq<bool>, s: Stream)
    requires DecoderOk(d) && HeaderOk(d, h) && s.Valid() && |rest| >= 16
    requires s.bits == EncodeHeader(d, h) + rest
    ensures ReadHeader(d, s).Success?
    ensures ReadHeader(d, s).value.0 == AfterHeader(d, h) && ReadHeader(d, s).value.1 == h.length
    ensures ReadHeader(d, s).value.2.bits == rest
  {
    hide ReadOffsetLengths, ReadLength, ParseLengths, EncodeOffsets, EncodeLength, EncodeLengths, Build,
         LengthPlanOk, PlannedLengths;
    var z := if h.mode == 1 then [] else EncodeLengths(h.plan);
    assert s.bits == EncodeOffsets(h) + (EncodeLength(h.length) + (z + rest));
    ReadOffsetLengthsBack(d, h, EncodeLength(h.length) + (z + rest), s);
    var (d1, s1) := ReadOffsetLengths(d, s).value;
    ReadLengthBack(h.length, z + rest, s1);
    var s2 := ReadLength(s1).value.1;
    if h.mode == 1 {
      assert z + rest == rest;
    } else {
      ParseLengthsBack(d1.literals, h.plan, rest, s2);
    }
  }

  // ---------------------------------------------------------------- blocks

  datatype BlockPlan = BlockPlan(header: HeaderPlan, tokens: seq<Choice>)

  ghost function AfterBlock(d: Decoder, b: BlockPlan): (d': Decoder)
    requires DecoderOk(d) && HeaderOk(d, b.header)
  {
    var d1 := AfterHeader(d, b.header);
    d1.(last := LastAfterAll(d1.last, b.tokens))
  }

  /** The block can be encoded, and its length field says where it ends: its last token reaches
      the declared end, or the end of the whole output, and may run past it. */
  ghost predicate BlockOk(d: Decoder, out: seq<byte>, b: BlockPlan, total: nat)
    ensures BlockOk(d, out, b, total) ==>
              && DecoderOk(d) && HeaderOk(d, b.header) && |out| < total
              && AllEncodable(AfterHeader(d, b.header), b.tokens)
  {
    && DecoderOk(d) && HeaderOk(d, b.header)
    && |out| < total
    && AllEncodable(AfterHeader(d, b.header), b.tokens)
    && Expandable(out, b.tokens)
    && Reaches(out, b.tokens, Min(|out| + b.header.length, total))
    && |Expand(out, b.tokens)| <= total + 256
  }

  /** A chain of blocks that yields at least `total` bytes, the last block being the first to
      get there. */
  ghost predicate ChainOk(d: Decoder, out: seq<byte>, blocks: seq<BlockPlan>, total: nat)
    decreases |blocks|
  {
    if |blocks| == 0 then |out| >= total
    else
      && BlockOk(d, out, blocks[0], total)
      && ChainOk(AfterBlock(d, blocks[0]), Expand(out, blocks[0].tokens), blocks[1..], total)
  }

  ghost function EncodeBlock(d: Decoder, b: BlockPlan): seq<bool>
    requires DecoderOk(d) && HeaderOk(d, b.header) && AllEncodable(AfterHeader(d, b.header), b.tokens)
  {
    EncodeHeader(d, b.header) + EncodeAll(AfterHeader(d, b.header), b.tokens)
  }

  ghost function EncodeChain(d: Decoder, out: seq<byte>, blocks: seq<BlockPlan>, total: nat): seq<bool>
    requires ChainOk(d, out, blocks, total)
    decreases |blocks|
  {
    if |blocks| == 0 then []
    else
      EncodeBlock(d, blocks[0]) +
      EncodeChain(AfterBlock(d, blocks[0]), Expand(out, blocks[0].tokens), blocks[1..], total)
  }

  function ExpandChain(out: seq<byte>, blocks: seq<BlockPlan>): seq<byte>
    decreases |blocks|
  {
    if |blocks| == 0 then out else ExpandChain(Expand(out, blocks[0].tokens), blocks[1..])
  }

  /** One round decodes one block and is then ready for the next header. */
  lemma RoundBack(m: Machine, b: BlockPlan, total: nat, rest: seq<bool>) returns (m': Machine)
    requires m.stream.Valid() && BlockOk(m.decoder, m.out, b, total) && |rest| >= 32
    requires m.stream.bits == EncodeBlock(m.decoder, b) + rest
    ensures MachineOk(m) && Round(m, 0, total).Success? && Round(m, 0, total).value.0 == m'
    ensures MachineOk(m') && m'.decoder == AfterBlock(m.decoder, b)
    ensures m'.out == Expand(m.out, b.tokens) && m'.stream.bits == rest
    ensures |m'.out| < total ==> Round(m, 0, total).value.1 == 0
  {
    hide ReadHeader, EncodeHeader, HeaderOk, AfterHeader, DecoderOk, AllEncodable, EncodeAll, Expand,
        Expandable, Decrunch;
    var d, h := m.decoder, b.header;
    var d1 := AfterHeader(d, h);
    var more := EncodeAll(d1, b.tokens);
    assert m.stream.bits == EncodeHeader(d, h) + (more + rest);
    ReadHeaderBack(d, h, more + rest, m.stream);
    var m1 := Machine(d1, ReadHeader(d, m.stream).value.2, m.out);
    var threshold := Min(|m.out| + h.length, total);
    m' := DecrunchUndoesEncoding(m1, b.tokens, rest, total + 256, threshold);
    assert EnterBlock(m, 0) == Success((m1, h.length));
    assert !m'.stream.Eof();
    ReachesThreshold(m.out, b.tokens, threshold);
  }

  /** A last token that runs more than 256 bytes past the whole output does not fit the buffer. */
  lemma RoundOverflows(m: Machine, b: BlockPlan, total: nat, rest: seq<bool>)
    requires MachineOk(m) && |m.out| < total && HeaderOk(m.decoder, b.header) && |rest| >= 32
    requires AllEncodable(AfterHeader(m.decoder, b.header), b.tokens) && Expandable(m.out, b.tokens)
    requires Reaches(m.out, b.tokens, Min(|m.out| + b.header.length, total)) && |Expand(m.out, b.tokens)| > total + 256
    requires m.stream.bits == EncodeBlock(m.decoder, b) + rest
    ensures Round(m, 0, total) == Failure(BufferOverflow)
  {
    hide ReadHeader, EncodeHeader, HeaderOk, AfterHeader, DecoderOk, AllEncodable, EncodeAll, Expand,
        Expandable, Decrunch;
    var d, h := m.decoder, b.header;
    var more := EncodeAll(AfterHeader(d, h), b.tokens);
    assert m.stream.bits == EncodeHeader(d, h) + (more + rest);
    ReadHeaderBack(d, h, more + rest, m.stream);
    var m1 := Machine(AfterHeader(d, h), ReadHeader(d, m.stream).value.2, m.out);
    DecrunchOverflows(m1, b.tokens, rest, total + 256, Min(|m.out| + h.length, total));
    assert EnterBlock(m, 0) == Success((m1, h.length));
  }

  lemma {:induction false} ReachesThreshold(out: seq<byte>, cs: seq<Choice>, threshold: nat)
    requires Reaches(out, cs, threshold)
    ensures |Expand(out, cs)| >= threshold
    decreases |cs|
  {
    if |cs| > 0 {
      ReachesThreshold(Extend(out, cs[0]), cs[1..], threshold);
    }
  }

  lemma {:induction false} BlocksUndoEncoding(m: Machine, blocks: seq<BlockPlan>, total: nat, rest: seq<bool>)
    requires MachineOk(m) && ChainOk(m.decoder, m.out, blocks, total) && |rest| >= 32
    requires m.stream.bits == EncodeChain(m.decoder, m.out, blocks, total) + rest
    ensures |ExpandChain(m.out, blocks)| >= total
    ensures Blocks(m, 0, total) == Success(ExpandChain(m.out, blocks)[..total])
    decreases |blocks|
  {
    hide Round, EncodeBlock, BlockOk, AfterBlock, Expand, DecoderOk, HeaderOk, AllEncodable, AfterHeader;
    if |blocks| > 0 {
      var b := blocks[0];
      assert BlockOk(m.decoder, m.out, b, total);
      var more := EncodeChain(AfterBlock(m.decoder, b), Expand(m.out, b.tokens), blocks[1..], total);
      assert m.stream.bits == EncodeBlock(m.decoder, b) + (more + rest);
      var m' := RoundBack(m, b, total, more + rest);
      BlocksUndoEncoding(m', blocks[1..], total, rest);
      if |m'.out| >= total {
        NothingAfterTotal(m', blocks[1..], total);
      }
    }
  }

  lemma NothingAfterTotal(m: Machine, blocks: seq<BlockPlan>, total: nat)
    requires ChainOk(m.decoder, m.out, blocks, total) && |m.out| >= total
    ensures |blocks| == 0
  {
  }

  /** Packed bytes whose bits are an encoded chain of blocks, followed by at least two words of
      padding, unpack to exactly the encoded bytes. */
  lemma UnpackUndoesEncoding(packed: seq<byte>, blocks: seq<BlockPlan>, total: nat, padding: seq<bool>)
    requires ChainOk(InitialDecoder(), [], blocks, total) && |padding| >= 32
    requires WordBits(packed) == EncodeChain(InitialDecoder(), [], blocks, total) + padding
    ensures |ExpandChain([], blocks)| >= total
    ensures Unpack(2, packed, total) == Success(ExpandChain([], blocks)[..total])
  {
    hide ChainOk, EncodeChain, ExpandChain, Blocks;
    InitialDecoderOk();
    BlocksUndoEncoding(Machine(InitialDecoder(), StreamOf(packed), []), blocks, total, padding);
  }
}
