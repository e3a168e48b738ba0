/** Input on which the decoder fails where one might not expect it: bytes that make it index outside
    an array, and bytes whose last tokens it does not decode. */
module FaultyInput {
  import opened Bits
  import opened Errors
  import opened MmapBuffer
  import opened CanonicalCode
  import opened HuffmanTables
  import opened HuffmanCapacity
  import opened DecoderSpec
  import opened DecoderFaults
  import opened LzxBlocks
  import opened TokenRoundTrip
  import opened LengthRoundTrip
  import opened BlockRoundTrip
  import opened Encodability

  // ---------------------------------------------------------------- pre-trees

  /** Twenty lengths of 15 at the start of a pass are enough. */
  lemma PreTreeOverrunRead(p: Progress, max: nat, fix: nat, rest: seq<bool>)
    requires ProgressOk(p) && p.pos <= max <= 768 && fix <= 1
    requires p.stream.bits == EncodeMany(seq(20, _ => 15), 4) + rest
    ensures ParsePass(p, max, fix) == Failure(IndexFault)
  {
    hide ReadMany, EncodeMany, Build, ParseUntil, NodesUsed;
    SmallPowers();
    PreTreeOverrun();
    ReadManyBack(seq(20, _ => 15), 4, rest, p.stream);
  }

  // ---------------------------------------------------------------- repeat codes

  /** A repeat code with its bit and its second symbol. */
  function RepeatCode(pre: seq<nat>, b: nat, delta: nat): seq<bool>
    requires HasLength(pre, 19) && HasLength(pre, delta)
  {
    Code(pre, 19) + BitsOf(b, 1) + Code(pre, delta)
  }

  /** On a written repeat code the parse leaves the table of base values exactly when the difference
      exceeds the length it starts from plus 17. */
  lemma RepeatRead(pre: seq<nat>, p: Progress, b: nat, delta: nat, max: nat, fix: nat, rest: seq<bool>)
    requires |pre| == 20 && ProgressOk(p) && p.pos < max <= 768 && fix <= 1 && b <= 1
    requires Coded(pre, 19) && Coded(pre, delta) && |rest| >= 16
    requires p.stream.bits == RepeatCode(pre, b, delta) + rest
    ensures ParseOne(pre, p, max, fix) == Failure(IndexFault) <==> delta > p.lengths[p.pos] + 17
    ensures RepeatTooFar(pre, p) <==> delta > p.lengths[p.pos] + 17
  {
    hide NextSymbol, Read, Code, Coded, ParseOne;
    var s := p.stream;
    SmallPowers();
    assert s.bits == Code(pre, 19) + (BitsOf(b, 1) + (Code(pre, delta) + rest));
    ReadCode(pre, 6, 19, BitsOf(b, 1) + (Code(pre, delta) + rest), s);
    var s1 := NextSymbol(pre, 6, s).value.1;
    ReadNumber(b, 1, Code(pre, delta) + rest, s1);
    ReadCode(pre, 6, delta, rest, Read(s1, 1).value.1);
    ParseOneFails(pre, p, max, fix);
  }

  // ---------------------------------------------------------------- block headers

  /** The bits of a header with method 2, up to the literal code. */
  function HeaderStart(length: nat): seq<bool> {
    BitsOf(2, 3) + EncodeLength(length)
  }

  lemma HeaderStartRead(d: Decoder, length: nat, literals: seq<bool>, s: Stream)
    requires DecoderOk(d) && s.Valid() && length < 16777216
    requires s.bits == HeaderStart(length) + literals
    ensures var r := ReadOffsetLengths(d, s);
            && r.Success? && r.value.0 == d.(mode := 2)
            && ReadLength(r.value.1).Success? && ReadLength(r.value.1).value.1.bits == literals
  {
    hide Read, ReadLength, EncodeLength, BitsOf, DecoderOk;
    SmallPowers();
    assert s.bits == BitsOf(2, 3) + (EncodeLength(length) + literals);
    ReadNumber(2, 3, EncodeLength(length) + literals, s);
    ReadLengthBack(length, literals, ReadOffsetLengths(d, s).value.1);
  }

  /** If bits make the literal code of a fresh decoder overrun an array, packed bytes that start with
      a header in front of them do so. */
  lemma PackedFault(length: nat, literals: seq<bool>) returns (packed: seq<byte>)
    requires length < 16777216
    requires forall s: Stream :: s.Valid() && |s.bits| >= |literals| + 32 && s.bits[..|literals|] == literals ==>
               FreshLiteralsOverrun(s)
    ensures forall total: nat :: total > 0 ==> Unpack(2, packed, total) == Failure(IndexFault)
  {
    hide LiteralsOverrun, HeaderStart, DecoderOk, Unpack, WordBits;
    InitialDecoderOk();
    var d, start := InitialDecoder(), HeaderStart(length);
    var bits := start + literals;
    var k := |bits| / 16 + 3;
    var padding := Clear(16 * k - |bits|);
    packed := BytesFor(bits + padding, k);
    var s := StreamOf(packed);
    assert bits + padding == start + (literals + padding);
    HeaderStartRead(d, length, literals + padding, s);
    var s2 := ReadLength(ReadOffsetLengths(d, s).value.1).value.1;
    assert s2.bits[..|literals|] == literals;
    assert FreshLiteralsOverrun(s2);
    assert HeaderOverruns(d, s);
    forall total: nat | total > 0 ensures Unpack(2, packed, total) == Failure(IndexFault) {
      FirstHeaderOverruns(packed, total);
    }
  }

  ghost predicate FreshLiteralsOverrun(s: Stream) {
    && s.Valid() && DecoderOk(InitialDecoder().(mode := 2))
    && LiteralsOverrun(InitialDecoder().(mode := 2), s)
  }

  lemma FirstHeaderOverruns(packed: seq<byte>, total: nat)
    requires total > 0 && DecoderOk(InitialDecoder()) && HeaderOverruns(InitialDecoder(), StreamOf(packed))
    ensures Unpack(2, packed, total) == Failure(IndexFault)
  {
    hide HeaderOverruns, DecoderOk, StreamOf, Unpack;
    UnpackFaults(2, packed, total);
    assert OverrunsAfter(Machine(InitialDecoder(), StreamOf(packed), []), 0, total, 0);
  }

  lemma FreshIsOk()
    ensures DecoderOk(InitialDecoder().(mode := 2))
  {
  }

  /** Packed bytes that overrun the pre-tree table. */
  lemma PreTreeFault() returns (packed: seq<byte>)
    ensures forall total: nat :: total > 0 ==> Unpack(2, packed, total) == Failure(IndexFault)
  {
    hide EncodeMany, ParsePass, DecoderOk, PassOverruns, Unpack;
    var literals := EncodeMany(seq(20, _ => 15), 4);
    FreshIsOk();
    var d := InitialDecoder().(mode := 2);
    forall s: Stream | s.Valid() && |s.bits| >= |literals| + 32 && s.bits[..|literals|] == literals
      ensures FreshLiteralsOverrun(s)
    {
      var p := Progress(d.literals, 0, s);
      assert s.bits == literals + s.bits[|literals|..];
      PreTreeOverrunRead(p, 256, 1, s.bits[|literals|..]);
      PassFails(p, 256, 1);
    }
    packed := PackedFault(0, literals);
  }

  /** Packed bytes with a repeat code that goes too far: from a length of 0, by 18. */
  lemma RepeatFault() returns (packed: seq<byte>)
    ensures forall total: nat :: total > 0 ==> Unpack(2, packed, total) == Failure(IndexFault)
  {
    hide EncodeMany, Code, Coded, DecoderOk, Unpack, EverySymbolCoded, PreTreeOk;
    var pre := SimplePreTree();
    SimplePreTreeFull();
    FullPreTreeOk(pre);
    SymbolsCoded(pre);
    var literals := EncodeMany(pre, 4) + RepeatCode(pre, 0, 18);
    FreshIsOk();
    forall s: Stream | s.Valid() && |s.bits| >= |literals| + 32 && s.bits[..|literals|] == literals
      ensures FreshLiteralsOverrun(s)
    {
      assert s.bits == literals + s.bits[|literals|..];
      RepeatOverrunRead(pre, s, s.bits[|literals|..]);
    }
    packed := PackedFault(0, literals);
  }

  lemma SymbolsCoded(pre: seq<nat>)
    requires EverySymbolCoded(pre)
    ensures Coded(pre, 18) && Coded(pre, 19)
  {
  }

  lemma RepeatOverrunRead(pre: seq<nat>, s: Stream, rest: seq<bool>)
    requires PreTreeOk(pre) && Coded(pre, 18) && Coded(pre, 19)
    requires s.Valid() && |rest| >= 16 && s.bits == EncodeMany(pre, 4) + RepeatCode(pre, 0, 18) + rest
    ensures FreshLiteralsOverrun(s)
  {
    hide EncodeMany, ReadMany, RepeatCode, Coded, DecoderOk, Build, RepeatTooFar;
    FreshIsOk();
    var d := InitialDecoder().(mode := 2);
    var p := Progress(d.literals, 0, s);
    assert s.bits == EncodeMany(pre, 4) + (RepeatCode(pre, 0, 18) + rest);
    ReadManyBack(pre, 4, RepeatCode(pre, 0, 18) + rest, s);
    var q := p.(stream := ReadMany(s, 20, 4).value.1);
    RepeatRead(pre, q, 0, 18, 256, 1, rest);
    assert AfterOps(pre, q, 256, 1, 0) == Some(q);
    assert RepeatsTooFar(pre, q, 256, 1);
    assert PassOverruns(p, 256, 1);
  }

  /** Packed bytes with a complete literal code that does not fit the literal table. */
  lemma LiteralFault() returns (packed: seq<byte>)
    ensures forall total: nat :: total > 0 ==> Unpack(2, packed, total) == Failure(IndexFault)
  {
    hide EncodeLengths, DecoderOk, Unpack, LengthPlanOk, PlanFor, ParseLengths, Build, NodesUsed, CrowdedLiterals;
    var pre := SimplePreTree();
    SimplePreTreeFull();
    FreshIsOk();
    var d := InitialDecoder().(mode := 2);
    var plan := PlanFor(d.literals, CrowdedLiterals(), pre, pre);
    PlanExists(d.literals, CrowdedLiterals(), pre, pre);
    LiteralTableOverrun();
    var literals := EncodeLengths(plan);
    forall s: Stream | s.Valid() && |s.bits| >= |literals| + 32 && s.bits[..|literals|] == literals
      ensures FreshLiteralsOverrun(s)
    {
      assert s.bits == literals + s.bits[|literals|..];
      LengthsRoundTrip(d.literals, CrowdedLiterals(), pre, pre, s.bits[|literals|..], s);
    }
    packed := PackedFault(0, literals);
  }

  // ---------------------------------------------------------------- tokens left behind

  /** The run stops once the last word has been loaded, although the next token is there in full. */
  lemma StopsWithTokenLeft(m: Machine, c: Choice, rest: seq<bool>, capacity: nat)
    requires MachineOk(m) && Encodable(m.decoder, c) && |rest| >= 16
    requires m.stream.bits == Encode(m.decoder, c) + rest && m.stream.words == 0 && !m.stream.odd
    ensures Decrunch(m, capacity, |m.out| + 1) == Success(m)
    ensures ReadToken(m.decoder, m.stream).Success? && ReadToken(m.decoder, m.stream).value.0 == TokenOf(c)
  {
    hide ReadToken, Encode, Encodable, DecoderOk;
    ReadTokenBack(m.decoder, c, rest, m.stream);
  }

  /** For instance, eight bits for every byte, and sixteen bits after the token. */
  ghost function OneByteLeft(b: byte): Machine
    requires Coded(PlainCode(), b)
  {
    Machine(Decoder(2, Zeros(8), PlainCode(), 1), Stream(Code(PlainCode(), b) + Clear(16), 24, 0, false), [])
  }

  lemma ByteLeft(b: byte)
    ensures Coded(PlainCode(), b) && MachineOk(OneByteLeft(b))
    ensures forall capacity: nat :: Decrunch(OneByteLeft(b), capacity, 1) == Success(OneByteLeft(b))
    ensures var m := OneByteLeft(b);
            ReadToken(m.decoder, m.stream).Success? && ReadToken(m.decoder, m.stream).value.0 == Literal(b)
  {
    hide PlainCode, Code, ReadToken, Build, CodeCell;
    PlainCodeOk();
    var m := OneByteLeft(b);
    PlainEncodable(m.decoder, b);
    PlainLength(m.decoder, b);
    EncodedByte(m.decoder, b);
    forall capacity: nat ensures Decrunch(m, capacity, 1) == Success(m) {
      StopsWithTokenLeft(m, Plain(b), Clear(16), capacity);
    }
    StopsWithTokenLeft(m, Plain(b), Clear(16), 0);
  }

  lemma EncodedByte(d: Decoder, b: byte)
    requires Encodable(d, Plain(b))
    ensures Encode(d, Plain(b)) == Code(d.literals, b)
  {
  }
}
