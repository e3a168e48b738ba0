/** The decompressor as functions on the abstract bit reader: what src/huffman_decoder.cc and
    src/lzx_block.cc compute, stated with canonical codes instead of decode arrays. */
module DecoderSpec {
  import opened Bits
  import opened Errors
  import opened MmapBuffer
  import opened CanonicalCode
  import opened HuffmanTables

  // ---------------------------------------------------------------- slots

  const EXTRA_BITS: seq<nat> :=
    [0, 0, 0, 0, 1, 1, 2, 2, 3, 3, 4, 4, 5, 5, 6, 6, 7, 7, 8, 8, 9, 9, 10, 10, 11, 11, 12, 12, 13, 13, 14, 14]

  const BASE_OFFSETS: seq<nat> :=
    [0, 1, 2, 3, 4, 6, 8, 12, 16, 24, 32, 48, 64, 96, 128, 192, 256, 384, 512, 768, 1024, 1536, 2048, 3072,
     4096, 6144, 8192, 12288, 16384, 24576, 32768, 49152]

  const BASE_VALUES: seq<nat> :=
    [0, 1, 2, 3, 4, 5, 6, 7, 8, 9, 10, 11, 12, 13, 14, 15, 16,
     0, 1, 2, 3, 4, 5, 6, 7, 8, 9, 10, 11, 12, 13, 14, 15, 16]

  /** The rule behind the table of extra bits. */
  function ExtraBits(slot: nat): (n: nat)
    requires slot < 32
    ensures n <= 14 && (slot < 16 ==> n <= 6)
  {
    if slot < 4 then 0 else slot / 2 - 1
  }

  /** The rule behind the table of base values: two slots to every power of two. */
  function BaseOffset(slot: nat): nat
    requires slot < 32
  {
    if slot < 2 then slot
    else if slot % 2 == 0 then 2 * Pow2(slot / 2 - 1)
    else 3 * Pow2(slot / 2 - 1)
  }

  /** The rule behind the table of code lengths: counting modulo 17. */
  function BaseValue(index: nat): (v: nat)
    requires index < 34
    ensures v <= 16
  {
    if index < 17 then index else index - 17
  }

  method ExtraBitsAt(slot: nat) returns (n: nat)
    requires slot < 32
    ensures n == ExtraBits(slot)
  {
    n := EXTRA_BITS[slot];
  }

  method BaseValueAt(index: nat) returns (v: nat)
    requires index < 34
    ensures v == BaseValue(index)
  {
    v := BASE_VALUES[index];
  }

  method BaseOffsetAt(slot: nat) returns (base: nat)
    requires slot < 32
    ensures base == BaseOffset(slot)
  {
    base := BASE_OFFSETS[slot];
    BaseOffsetTable(slot);
  }

  lemma BaseOffsetTable(slot: nat)
    requires slot < 32
    ensures BASE_OFFSETS[slot] == BaseOffset(slot)
  {
    SmallPowers();
    if slot < 16 {
      if slot < 8 {
      } else {
      }
    } else {
      if slot < 24 {
      } else {
      }
    }
  }

  /** Each slot starts where the previous one ends, so that the slots tile all values. */
  lemma SlotsTile(slot: nat)
    requires slot < 31
    ensures BaseOffset(slot + 1) == BaseOffset(slot) + Pow2(ExtraBits(slot))
  {
    if slot >= 2 && slot % 2 == 1 {
      assert (slot + 1) / 2 == slot / 2 + 1;
    }
  }

  lemma SmallPowers()
    ensures Pow2(0) == 1 && Pow2(1) == 2 && Pow2(2) == 4 && Pow2(3) == 8 && Pow2(4) == 16
    ensures Pow2(5) == 32 && Pow2(6) == 64 && Pow2(7) == 128 && Pow2(8) == 256 && Pow2(9) == 512
    ensures Pow2(10) == 1024 && Pow2(11) == 2048 && Pow2(12) == 4096 && Pow2(13) == 8192 && Pow2(14) == 16384
  {
  }

  lemma SlotBounds(slot: nat)
    requires slot < 32
    ensures BaseOffset(slot) + Pow2(ExtraBits(slot)) <= 65536
    ensures slot < 16 ==> BaseOffset(slot) + Pow2(ExtraBits(slot)) <= 256
    ensures ExtraBits(slot) >= 3 ==> BaseOffset(slot) >= 16 && Pow2(ExtraBits(slot)) == 8 * Pow2(ExtraBits(slot) - 3)
  {
    hide BaseOffset, Pow2;
    SmallPowers();
    Pow2Values();
    SlotEnd(slot);
    Pow2Monotone(if slot < 2 then 1 else slot / 2 + 1, 16);
    if slot < 16 {
      Pow2Monotone(if slot < 2 then 1 else slot / 2 + 1, 8);
    }
    if ExtraBits(slot) >= 3 {
      LongSlot(slot);
    }
  }

  /** A slot ends at a power of two, or where the next one starts below it. */
  lemma SlotEnd(slot: nat)
    requires slot < 32
    ensures BaseOffset(slot) + Pow2(ExtraBits(slot)) <= Pow2(if slot < 2 then 1 else slot / 2 + 1)
  {
  }

  lemma LongSlot(slot: nat)
    requires slot < 32 && ExtraBits(slot) >= 3
    ensures BaseOffset(slot) >= 16 && Pow2(ExtraBits(slot)) == 8 * Pow2(ExtraBits(slot) - 3)
  {
    var h := ExtraBits(slot);
    EightTimes(h - 3);
  }

  lemma EightTimes(n: nat)
    ensures Pow2(n + 3) == 8 * Pow2(n)
  {
    assert Pow2(n + 3) == 2 * Pow2(n + 2);
  }

  /** The new length of a symbol whose old length is `previous`. A negative index is outside the
      table, and the program would read unrelated memory there. */
  function NewLength(previous: nat, delta: nat): (r: Result<nat>)
    requires previous <= 16
    ensures r.Success? ==> r.value <= 16
    ensures r.Failure? <==> delta > previous + 17
  {
    if previous + 17 < delta then Failure(IndexFault) else Success(BaseValue(previous + 17 - delta))
  }

  // ---------------------------------------------------------------- symbols

  ghost predicate AllZero(lens: seq<nat>) {
    forall i :: 0 <= i < |lens| ==> lens[i] == 0
  }

  /** Read `k` bits one at a time. */
  function OneByOne(s: Stream, k: nat): (r: Stream)
    requires s.Valid() && k <= |s.bits|
    ensures r.Valid() && r.bits == s.bits[k..] && r.odd == s.odd
    ensures k == 0 ==> r == s
    decreases k
  {
    if k == 0 then s else
      var s' := Read(s, 1).value.1;
      assert s.bits[1..][k - 1..] == s.bits[k..];
      OneByOne(s', k - 1)
  }

  /** One symbol of the code with lengths `lens`, through a table of `tableBits` bits. All `tableBits` bits must be
      available even if the code is shorter. A table never built answers 0 and consumes nothing. */
  ghost function NextSymbol(lens: seq<nat>, tableBits: nat, s: Stream): (r: Result<(nat, Stream)>)
    requires s.Valid() && tableBits <= 16
    ensures r.Success? ==> r.value.1.Valid() && |r.value.1.bits| <= |s.bits| && r.value.1.odd == s.odd
    ensures r.Success? && |lens| > 0 ==> r.value.0 < |lens|
  {
    var (_, s1) :- Peek(s, tableBits);
    if AllZero(lens) then Success((0, s1))
    else
      match Decode(lens, s.bits)
      case None => Failure(OutOfRange)
      case Some((symbol, _)) =>
        if lens[symbol] <= tableBits then Success((symbol, Read(s1, lens[symbol]).value.1))
        else Success((symbol, OneByOne(Read(s1, tableBits).value.1, lens[symbol] - tableBits)))
  }

  // ---------------------------------------------------------------- the code lengths

  /** `n` numbers of `w` bits each. */
  function ReadMany(s: Stream, n: nat, w: nat): (r: Result<(seq<nat>, Stream)>)
    requires s.Valid() && w <= 16
    ensures r.Success? ==> r.value.1.Valid() && |r.value.0| == n && |r.value.1.bits| <= |s.bits| && r.value.1.odd == s.odd
    ensures r.Success? ==> forall i :: 0 <= i < n ==> r.value.0[i] < Pow2(w)
    decreases n
  {
    if n == 0 then Success(([], s)) else
      var (v, s1) :- Read(s, w);
      var (vs, s2) :- ReadMany(s1, n - 1, w);
      Success(([v] + vs, s2))
  }

  function Min(a: nat, b: nat): nat {
    if a <= b then a else b
  }

  /** `lens` with `n` entries from `pos` on set to `v`. */
  function FillRange(lens: seq<nat>, pos: nat, n: nat, v: nat): (lens': seq<nat>)
    requires pos + n <= |lens|
    ensures |lens'| == |lens|
    ensures forall i :: 0 <= i < |lens| ==> lens'[i] == if pos <= i < pos + n then v else lens[i]
  {
    lens[..pos] + seq(n, _ => v) + lens[pos + n..]
  }

  predicate LengthsOk(lens: seq<nat>) {
    |lens| == 768 && forall i :: 0 <= i < 768 ==> lens[i] <= 16
  }

  datatype Progress = Progress(lengths: seq<nat>, pos: nat, stream: Stream)

  predicate ProgressOk(p: Progress) {
    LengthsOk(p.lengths) && p.stream.Valid()
  }

  /** A run of zero lengths, `base` and a number of `w` bits long; clipped at `max`. */
  function ZeroRun(p: Progress, max: nat, base: nat, w: nat): (r: Result<Progress>)
    requires ProgressOk(p) && p.pos < max <= 768 && base > 0
    ensures r.Success? ==> Later(p, r.value, max)
  {
    var (bits, s) :- Read(p.stream, w);
    var n := Min(base + bits, max - p.pos);
    Success(Progress(FillRange(p.lengths, p.pos, n, 0), p.pos + n, s))
  }

  /** A run of one length, given as the difference from the first entry it replaces. */
  ghost function RepeatRun(pre: seq<nat>, p: Progress, max: nat, fix: nat): (r: Result<Progress>)
    requires |pre| == 20 && ProgressOk(p) && p.pos < max <= 768
    ensures r.Success? ==> Later(p, r.value, max)
  {
    var (bits, s1) :- Read(p.stream, 1);
    var (delta, s2) :- NextSymbol(pre, 6, s1);
    var v :- NewLength(p.lengths[p.pos], delta);
    var n := Min(3 + bits + fix, max - p.pos);
    Success(Progress(FillRange(p.lengths, p.pos, n, v), p.pos + n, s2))
  }

  /** A single length, given as the difference from the entry it replaces. */
  function OneLength(p: Progress, max: nat, delta: nat): (r: Result<Progress>)
    requires ProgressOk(p) && p.pos < max <= 768
    ensures r.Success? ==> Later(p, r.value, max)
  {
    var v :- NewLength(p.lengths[p.pos], delta);
    Success(Progress(p.lengths[p.pos := v], p.pos + 1, p.stream))
  }

  predicate Later(p: Progress, q: Progress, max: nat) {
    && ProgressOk(q) && p.pos < q.pos <= max
    && |q.stream.bits| <= |p.stream.bits| && q.stream.odd == p.stream.odd
  }

  /** One pre-tree symbol with its extra bits. */
  ghost function ParseOne(pre: seq<nat>, p: Progress, max: nat, fix: nat): (r: Result<Progress>)
    requires |pre| == 20 && ProgressOk(p) && p.pos < max <= 768 && fix <= 1
    ensures r.Success? ==> Later(p, r.value, max)
  {
    var (symbol, s1) :- NextSymbol(pre, 6, p.stream);
    var p1 := p.(stream := s1);
    if symbol == 17 then ZeroRun(p1, max, 3 + fix, 4)
    else if symbol == 18 then ZeroRun(p1, max, 19 + fix, 6 - fix)
    else if symbol == 19 then RepeatRun(pre, p1, max, fix)
    else OneLength(p1, max, symbol)
  }

  ghost function ParseUntil(pre: seq<nat>, p: Progress, max: nat, fix: nat): (r: Result<Progress>)
    requires |pre| == 20 && ProgressOk(p)
    requires p.pos <= max <= 768 && fix <= 1
    ensures r.Success? ==>
              && ProgressOk(r.value) && r.value.pos == max
              && |r.value.stream.bits| <= |p.stream.bits| && r.value.stream.odd == p.stream.odd
    decreases max - p.pos
  {
    if p.pos == max then Success(p) else
      var p' :- ParseOne(pre, p, max, fix);
      ParseUntil(pre, p', max, fix)
  }

  /** One of the two passes over the literal lengths: a pre-tree of 20 four-bit lengths, then
      symbols of that pre-tree up to entry `max`. */
  ghost function ParsePass(p: Progress, max: nat, fix: nat): (r: Result<Progress>)
    requires ProgressOk(p)
    requires p.pos <= max <= 768 && fix <= 1
    ensures r.Success? ==>
              && ProgressOk(r.value) && r.value.pos == max
              && |r.value.stream.bits| <= |p.stream.bits| && r.value.stream.odd == p.stream.odd
  {
    var (pre, s1) :- ReadMany(p.stream, 20, 4);
    if Build(pre, 6, 96) != Ok then Failure(Build(pre, 6, 96))
    else ParseUntil(pre, p.(stream := s1), max, fix)
  }

  /** Entries 0..255 first, then 256..767, each with its own pre-tree. */
  ghost function ParseLengths(lens: seq<nat>, s: Stream): (r: Result<(seq<nat>, Stream)>)
    requires LengthsOk(lens) && s.Valid()
    ensures r.Success? ==> LengthsOk(r.value.0) && r.value.1.Valid()
                           && |r.value.1.bits| <= |s.bits| && r.value.1.odd == s.odd
  {
    var p1 :- ParsePass(Progress(lens, 0, s), 256, 1);
    var p2 :- ParsePass(p1, 768, 0);
    Success((p2.lengths, p2.stream))
  }

  // ---------------------------------------------------------------- block headers

  /** What the decoder keeps from one block to the next. */
  datatype Decoder = Decoder(mode: nat, offsets: seq<nat>, literals: seq<nat>, last: nat)

  ghost predicate DecoderOk(d: Decoder) {
    && |d.offsets| == 8 && (forall i :: 0 <= i < 8 ==> d.offsets[i] <= 7)
    && LengthsOk(d.literals)
    && (AllZero(d.literals) || Build(d.literals, 12, 5120) == Ok)
    && (d.mode == 3 ==> Build(d.offsets, 7, 128) == Ok)
    && 1 <= d.last <= 65535
  }

  function InitialDecoder(): (d: Decoder)
    ensures d.offsets == Zeros(8) && d.literals == Zeros(768) && d.last == 1 && d.mode == 0
  {
    Decoder(0, Zeros(8), Zeros(768), 1)
  }

  ghost function ReadOffsetLengths(d: Decoder, s: Stream): (r: Result<(Decoder, Stream)>)
    requires DecoderOk(d) && s.Valid()
    ensures r.Success? ==>
              && r.value.1.Valid() && |r.value.1.bits| + 3 <= |s.bits| && r.value.1.odd == s.odd
              && DecoderOk(r.value.0) && r.value.0.literals == d.literals && r.value.0.last == d.last
  {
    var (mode, s1) :- Read(s, 3);
    if mode != 3 then Success((d.(mode := mode), s1))
    else
      var (offsets, s2) :- ReadMany(s1, 8, 3);
      assert Pow2(3) == 8;
      if Build(offsets, 7, 128) != Ok then Failure(Build(offsets, 7, 128))
      else Success((d.(mode := mode, offsets := offsets), s2))
  }

  function ReadTwoBytes(s: Stream): (r: Result<(nat, Stream)>)
    requires s.Valid()
    ensures r.Success? ==> r.value.1.Valid() && |r.value.1.bits| + 16 == |s.bits| && r.value.1.odd == s.odd
  {
    var (mid, s1) :- Read(s, 8);
    var (lo, s2) :- Read(s1, 8);
    Success((256 * mid + lo, s2))
  }

  /** The length of a block: three bytes, most significant first. */
  function ReadLength(s: Stream): (r: Result<(nat, Stream)>)
    requires s.Valid()
    ensures r.Success? ==> r.value.1.Valid() && |r.value.1.bits| + 24 == |s.bits| && r.value.1.odd == s.odd
  {
    var (hi, s1) :- Read(s, 8);
    var (low, s2) :- ReadTwoBytes(s1);
    Success((65536 * hi + low, s2))
  }

  /** The literal code, unless method 1 keeps the old one. */
  ghost function ReadLiterals(d: Decoder, s: Stream): (r: Result<(Decoder, Stream)>)
    requires DecoderOk(d) && s.Valid()
    ensures r.Success? ==>
              && r.value.1.Valid() && |r.value.1.bits| <= |s.bits| && r.value.1.odd == s.odd
              && DecoderOk(r.value.0) && r.value.0.last == d.last && r.value.0.mode == d.mode
              && (if d.mode == 1 then r.value.0.literals == d.literals
                  else Build(r.value.0.literals, 12, 5120) == Ok)
  {
    if d.mode == 1 then Success((d, s))
    else
      var (literals, s1) :- ParseLengths(d.literals, s);
      if Build(literals, 12, 5120) != Ok then Failure(Build(literals, 12, 5120))
      else Success((d.(literals := literals), s1))
  }

  /** A block header: method, offset code for method 3, length of the block, literal code. */
  ghost function ReadHeader(d: Decoder, s: Stream): (r: Result<(Decoder, nat, Stream)>)
    requires DecoderOk(d) && s.Valid()
    ensures r.Success? ==>
              && r.value.2.Valid() && |r.value.2.bits| + 27 <= |s.bits| && r.value.2.odd == s.odd
              && DecoderOk(r.value.0) && r.value.0.last == d.last
              && (if r.value.0.mode == 1 then r.value.0.literals == d.literals
                  else Build(r.value.0.literals, 12, 5120) == Ok)
  {
    var (d1, s1) :- ReadOffsetLengths(d, s);
    var (length, s2) :- ReadLength(s1);
    var (d2, s3) :- ReadLiterals(d1, s2);
    Success((d2, length, s3))
  }

  // ---------------------------------------------------------------- tokens

  datatype Token = Literal(b: byte) | Match(offset: nat, count: nat)

  /** A long offset in method 3: the low three bits are coded with the offset code. */
  ghost function LongOffset(offsets: seq<nat>, slot: nat, s: Stream): (r: Result<(nat, Stream)>)
    requires |offsets| == 8 && slot < 32 && ExtraBits(slot) >= 3 && s.Valid()
    ensures r.Success? ==> r.value.1.Valid() && |r.value.1.bits| <= |s.bits| && r.value.1.odd == s.odd
    ensures r.Success? ==> 1 <= r.value.0 <= 65535
  {
    SlotBounds(slot);
    var (bits, s1) :- Read(s, ExtraBits(slot) - 3);
    var (low, s2) :- NextSymbol(offsets, 7, s1);
    Success((BaseOffset(slot) + 8 * bits + low, s2))
  }

  /** Any other offset; the value 0 repeats the last one. */
  function ShortOffset(last: nat, slot: nat, s: Stream): (r: Result<(nat, Stream)>)
    requires 1 <= last <= 65535 && slot < 32 && s.Valid()
    ensures r.Success? ==> r.value.1.Valid() && |r.value.1.bits| <= |s.bits| && r.value.1.odd == s.odd
    ensures r.Success? ==> 1 <= r.value.0 <= 65535
  {
    SlotBounds(slot);
    var (bits, s1) :- Read(s, ExtraBits(slot));
    var offset := BaseOffset(slot) + bits;
    Success((if offset == 0 then last else offset, s1))
  }

  /** The offset field of a match. */
  ghost function ReadOffset(d: Decoder, slot: nat, s: Stream): (r: Result<(nat, Stream)>)
    requires DecoderOk(d) && slot < 32 && s.Valid()
    ensures r.Success? ==> r.value.1.Valid() && |r.value.1.bits| <= |s.bits| && r.value.1.odd == s.odd
    ensures r.Success? ==> 1 <= r.value.0 <= 65535
  {
    if ExtraBits(slot) >= 3 && d.mode == 3 then LongOffset(d.offsets, slot, s)
    else ShortOffset(d.last, slot, s)
  }

  /** The count field of a match. */
  function ReadCount(slot: nat, s: Stream): (r: Result<(nat, Stream)>)
    requires slot < 16 && s.Valid()
    ensures r.Success? ==> r.value.1.Valid() && |r.value.1.bits| <= |s.bits| && r.value.1.odd == s.odd
    ensures r.Success? ==> 3 <= r.value.0 <= 258
  {
    SlotBounds(slot);
    var (bits, s1) :- Read(s, ExtraBits(slot));
    Success((BaseOffset(slot) + 3 + bits, s1))
  }

  /** The match with symbol 256 + `code`: five bits of offset slot, then four of count slot. */
  ghost function ReadMatch(d: Decoder, code: nat, s: Stream): (r: Result<(Token, Stream)>)
    requires DecoderOk(d) && s.Valid() && code < 512
    ensures r.Success? ==>
              && r.value.1.Valid() && |r.value.1.bits| <= |s.bits| && r.value.1.odd == s.odd
              && r.value.0.Match? && 1 <= r.value.0.offset <= 65535 && 3 <= r.value.0.count <= 258
  {
    var (offset, s1) :- ReadOffset(d, code % 32, s);
    var (count, s2) :- ReadCount(code / 32, s1);
    Success((Match(offset, count), s2))
  }

  ghost function ReadToken(d: Decoder, s: Stream): (r: Result<(Token, Stream)>)
    requires DecoderOk(d) && s.Valid()
    ensures r.Success? ==>
              && r.value.1.Valid() && |r.value.1.bits| <= |s.bits| && r.value.1.odd == s.odd
              && (r.value.0.Match? ==> 1 <= r.value.0.offset <= 65535 && 3 <= r.value.0.count <= 258)
  {
    var (symbol, s1) :- NextSymbol(d.literals, 12, s);
    if symbol < 256 then Success((Literal(symbol), s1))
    else ReadMatch(d, symbol - 256, s1)
  }

  /** `count` bytes from `offset` bytes back, one after the other, so that the copy may read what
      it has just written. */
  function CopyMatch(out: seq<byte>, offset: nat, count: nat): (r: seq<byte>)
    requires 1 <= offset <= |out|
    ensures |r| == |out| + count
    decreases count
  {
    if count == 0 then out
    else CopyMatch(out + [out[|out| - offset]], offset, count - 1)
  }

  /** Append a token to the output, a buffer of `capacity` bytes. */
  function Apply(token: Token, out: seq<byte>, capacity: nat): (r: Result<seq<byte>>)
    requires token.Match? ==> token.offset >= 1 && token.count >= 1
    ensures r.Success? ==> |out| < |r.value| <= capacity
  {
    match token
    case Literal(b) =>
      if |out| >= capacity then Failure(BufferOverflow) else Success(out + [b])
    case Match(offset, count) =>
      if offset > |out| then Failure(OutOfRange)
      else if |out| + count > capacity then Failure(BufferOverflow)
      else Success(CopyMatch(out, offset, count))
  }

  // ---------------------------------------------------------------- decrunch

  datatype Machine = Machine(decoder: Decoder, stream: Stream, out: seq<byte>)

  ghost predicate MachineOk(m: Machine) {
    DecoderOk(m.decoder) && m.stream.Valid()
  }

  ghost function Step(m: Machine, capacity: nat): (r: Result<Machine>)
    requires MachineOk(m)
    ensures r.Success? ==> MachineOk(r.value) && |m.out| < |r.value.out| <= capacity
                           && |r.value.stream.bits| <= |m.stream.bits|
  {
    var (token, s) :- ReadToken(m.decoder, m.stream);
    var out :- Apply(token, m.out, capacity);
    var last := if token.Match? then token.offset else m.decoder.last;
    Success(Machine(m.decoder.(last := last), s, out))
  }

  /** Decode tokens until the output has `threshold` bytes or the last word has been loaded. */
  ghost function Decrunch(m: Machine, capacity: nat, threshold: nat): (r: Result<Machine>)
    requires MachineOk(m)
    ensures r.Success? ==> MachineOk(r.value) && |m.out| <= |r.value.out|
                           && |r.value.stream.bits| <= |m.stream.bits|
    ensures r.Success? && |r.value.out| == |m.out| ==> r.value == m && (|m.out| >= threshold || m.stream.Eof())
    decreases threshold - |m.out|
  {
    if |m.out| < threshold && !m.stream.Eof() then
      var m' :- Step(m, capacity);
      Decrunch(m', capacity, threshold)
    else
      Success(m)
  }

  // ---------------------------------------------------------------- a whole block

  /** Start a new block when the current one has `remaining == 0` bytes to go. */
  ghost function EnterBlock(m: Machine, remaining: nat): (r: Result<(Machine, nat)>)
    requires MachineOk(m)
    ensures r.Success? ==>
              && MachineOk(r.value.0) && r.value.0.out == m.out
              && (if remaining == 0 then |r.value.0.stream.bits| < |m.stream.bits|
                  else r.value == (m, remaining))
  {
    if remaining > 0 then Success((m, remaining))
    else
      var (d, length, s) :- ReadHeader(m.decoder, m.stream);
      Success((Machine(d, s, m.out), length))
  }

  function Left(remaining: nat, decoded: nat): nat {
    if decoded > remaining then 0 else remaining - decoded
  }

  /** One round of the block loop: enter a block if none is open, then decode into it, but not
      beyond `total` bytes. It produces output or consumes a header. */
  ghost function Round(m: Machine, remaining: nat, total: nat): (r: Result<(Machine, nat)>)
    requires MachineOk(m) && |m.out| < total
    ensures r.Success? ==> MachineOk(r.value.0) && |r.value.0.out| >= |m.out|
    ensures r.Success? && |r.value.0.out| == |m.out| ==> |r.value.0.stream.bits| < |m.stream.bits|
  {
    hide ReadHeader, Step;
    var (m1, length) :- EnterBlock(m, remaining);
    var m2 :- Decrunch(m1, total + 256, Min(|m.out| + length, total));
    if |m2.out| == |m.out| && m2.stream.Eof() then Failure(UnexpectedEof)
    else Success((m2, Left(length, |m2.out| - |m.out|)))
  }

  /** Rounds until `total` bytes are there; this ends on every input. */
  ghost function Blocks(m: Machine, remaining: nat, total: nat): (r: Result<seq<byte>>)
    requires MachineOk(m)
    ensures r.Success? ==> |r.value| == total
    decreases total - |m.out|, |m.stream.bits|
  {
    hide MachineOk, Round;
    if |m.out| >= total then Success(m.out[..total])
    else
      var (m', left) :- Round(m, remaining, total);
      Blocks(m', left, total)
  }

  ghost function Decompress(data: seq<byte>, total: nat): (r: Result<seq<byte>>)
    ensures r.Success? ==> |r.value| == total
  {
    InitialDecoderOk();
    Blocks(Machine(InitialDecoder(), StreamOf(data), []), 0, total)
  }

  lemma InitialDecoderOk()
    ensures DecoderOk(InitialDecoder())
  {
  }
}
