/** Which failures each part of the decoder can have, and exactly when it indexes outside an array. */
module DecoderFaults {
  import opened Bits
  import opened Errors
  import opened MmapBuffer
  import opened HuffmanTables
  import opened HuffmanCapacity
  import opened DecoderSpec
  import opened LzxBlocks

  // ---------------------------------------------------------------- reading and tokens

  lemma SymbolFails(lens: seq<nat>, tableBits: nat, s: Stream)
    requires s.Valid() && tableBits <= 16 && NextSymbol(lens, tableBits, s).Failure?
    ensures NextSymbol(lens, tableBits, s) == Failure(OutOfRange)
  {
  }

  lemma {:induction false} ManyFails(s: Stream, n: nat, w: nat)
    requires s.Valid() && w <= 16 && ReadMany(s, n, w).Failure?
    ensures ReadMany(s, n, w) == Failure(OutOfRange)
    decreases n
  {
    if Read(s, w).Success? {
      ManyFails(Read(s, w).value.1, n - 1, w);
    }
  }

  lemma OffsetFails(d: Decoder, slot: nat, s: Stream)
    requires DecoderOk(d) && slot < 32 && s.Valid() && ReadOffset(d, slot, s).Failure?
    ensures ReadOffset(d, slot, s) == Failure(OutOfRange)
  {
    hide NextSymbol, Read, BaseOffset;
    if ExtraBits(slot) >= 3 && d.mode == 3 && Read(s, ExtraBits(slot) - 3).Success? {
      var s1 := Read(s, ExtraBits(slot) - 3).value.1;
      if NextSymbol(d.offsets, 7, s1).Failure? {
        SymbolFails(d.offsets, 7, s1);
      }
    }
  }

  lemma TokenFails(d: Decoder, s: Stream)
    requires DecoderOk(d) && s.Valid() && ReadToken(d, s).Failure?
    ensures ReadToken(d, s) == Failure(OutOfRange)
  {
    hide NextSymbol, ReadOffset, Read, DecoderOk;
    if NextSymbol(d.literals, 12, s).Failure? {
      SymbolFails(d.literals, 12, s);
    } else {
      var (symbol, s1) := NextSymbol(d.literals, 12, s).value;
      if symbol >= 256 && ReadOffset(d, (symbol - 256) % 32, s1).Failure? {
        OffsetFails(d, (symbol - 256) % 32, s1);
      }
    }
  }

  lemma StepFails(m: Machine, capacity: nat)
    requires MachineOk(m) && Step(m, capacity).Failure?
    ensures Step(m, capacity).status == OutOfRange || Step(m, capacity).status == BufferOverflow
  {
    hide ReadToken, DecoderOk;
    if ReadToken(m.decoder, m.stream).Failure? {
      TokenFails(m.decoder, m.stream);
    }
  }

  /** The main loop never indexes outside an array, whatever the input: its only failures are to run
      out of bits, to copy from before the start, and to run out of room. */
  lemma {:induction false} RunFails(m: Machine, capacity: nat, threshold: nat)
    requires MachineOk(m)
    ensures match Decrunch(m, capacity, threshold)
            case Success(_) => true
            case Failure(e) => e == OutOfRange || e == BufferOverflow
    decreases threshold - |m.out|
  {
    hide Step, DecoderOk;
    if |m.out| < threshold && !m.stream.Eof() {
      if Step(m, capacity).Failure? {
        StepFails(m, capacity);
      } else {
        RunFails(Step(m, capacity).value, capacity, threshold);
      }
    }
  }

  // ---------------------------------------------------------------- code lengths

  /** A repeat code whose difference is too much for the length it starts from. */
  ghost predicate RepeatTooFar(pre: seq<nat>, p: Progress)
    requires |pre| == 20 && ProgressOk(p) && p.pos < 768
  {
    var first := NextSymbol(pre, 6, p.stream);
    && first.Success? && first.value.0 == 19
    && var bit := Read(first.value.1, 1);
    && bit.Success?
    && var second := NextSymbol(pre, 6, bit.value.1);
    && second.Success? && second.value.0 > p.lengths[p.pos] + 17
  }

  lemma ParseOneFails(pre: seq<nat>, p: Progress, max: nat, fix: nat)
    requires |pre| == 20 && ProgressOk(p) && p.pos < max <= 768 && fix <= 1
    ensures match ParseOne(pre, p, max, fix)
            case Success(_) => !RepeatTooFar(pre, p)
            case Failure(e) => e == if RepeatTooFar(pre, p) then IndexFault else OutOfRange
  {
    hide NextSymbol, Read, BaseValue, FillRange;
    if NextSymbol(pre, 6, p.stream).Failure? {
      SymbolFails(pre, 6, p.stream);
    } else {
      var (symbol, s1) := NextSymbol(pre, 6, p.stream).value;
      if symbol == 19 && Read(s1, 1).Success? && NextSymbol(pre, 6, Read(s1, 1).value.1).Failure? {
        SymbolFails(pre, 6, Read(s1, 1).value.1);
      }
    }
  }

  /** The state after `n` pre-tree symbols with their runs, if it is reached before `max`. */
  ghost function AfterOps(pre: seq<nat>, p: Progress, max: nat, fix: nat, n: nat): (r: Option<Progress>)
    requires |pre| == 20 && ProgressOk(p) && p.pos <= max <= 768 && fix <= 1
    ensures r.Some? ==> ProgressOk(r.value) && r.value.pos < max
    decreases n
  {
    if p.pos == max then None
    else if n == 0 then Some(p)
    else match ParseOne(pre, p, max, fix)
      case Failure(_) => None
      case Success(q) => AfterOps(pre, q, max, fix, n - 1)
  }

  /** Somewhere on the way to `max` a repeat code goes too far. */
  ghost predicate RepeatsTooFar(pre: seq<nat>, p: Progress, max: nat, fix: nat)
    requires |pre| == 20 && ProgressOk(p) && p.pos <= max <= 768 && fix <= 1
  {
    exists n: nat :: AfterOps(pre, p, max, fix, n).Some? && RepeatTooFar(pre, AfterOps(pre, p, max, fix, n).value)
  }

  lemma {:induction false} ParseUntilFails(pre: seq<nat>, p: Progress, max: nat, fix: nat)
    requires |pre| == 20 && ProgressOk(p) && p.pos <= max <= 768 && fix <= 1
    ensures match ParseUntil(pre, p, max, fix)
            case Success(_) => !RepeatsTooFar(pre, p, max, fix)
            case Failure(e) => e == if RepeatsTooFar(pre, p, max, fix) then IndexFault else OutOfRange
    decreases max - p.pos
  {
    hide ParseOne, RepeatTooFar;
    if p.pos < max {
      ParseOneFails(pre, p, max, fix);
      if RepeatTooFar(pre, p) {
        assert AfterOps(pre, p, max, fix, 0) == Some(p);
      } else if ParseOne(pre, p, max, fix).Success? {
        var q := ParseOne(pre, p, max, fix).value;
        ParseUntilFails(pre, q, max, fix);
        OneOpMore(pre, p, q, max, fix);
      }
    }
  }

  lemma OneOpMore(pre: seq<nat>, p: Progress, q: Progress, max: nat, fix: nat)
    requires |pre| == 20 && ProgressOk(p) && p.pos < max <= 768 && fix <= 1
    requires ParseOne(pre, p, max, fix) == Success(q) && !RepeatTooFar(pre, p)
    ensures RepeatsTooFar(pre, p, max, fix) <==> RepeatsTooFar(pre, q, max, fix)
  {
    hide ParseOne, RepeatTooFar;
    if n: nat :| AfterOps(pre, p, max, fix, n).Some? && RepeatTooFar(pre, AfterOps(pre, p, max, fix, n).value) {
      assert AfterOps(pre, q, max, fix, n - 1) == AfterOps(pre, p, max, fix, n);
    }
    if n: nat :| AfterOps(pre, q, max, fix, n).Some? && RepeatTooFar(pre, AfterOps(pre, q, max, fix, n).value) {
      assert AfterOps(pre, p, max, fix, n + 1) == AfterOps(pre, q, max, fix, n);
    }
  }

  /** A pass overruns its pre-tree table, or a repeat code in it goes too far. */
  ghost predicate PassOverruns(p: Progress, max: nat, fix: nat)
    requires ProgressOk(p) && p.pos <= max <= 768 && fix <= 1
  {
    var pre := ReadMany(p.stream, 20, 4);
    && pre.Success?
    && (|| Build(pre.value.0, 6, 96) == IndexFault
        || (Build(pre.value.0, 6, 96) == Ok && RepeatsTooFar(pre.value.0, p.(stream := pre.value.1), max, fix)))
  }

  /** The pre-tree is rejected. */
  ghost predicate PassRejects(p: Progress)
    requires ProgressOk(p)
  {
    var pre := ReadMany(p.stream, 20, 4);
    pre.Success? && Build(pre.value.0, 6, 96) == HuffmanTableError
  }

  /** A pass that does neither fails for want of bits. */
  lemma PassFails(p: Progress, max: nat, fix: nat)
    requires ProgressOk(p) && p.pos <= max <= 768 && fix <= 1
    ensures match ParsePass(p, max, fix)
            case Success(_) => !PassOverruns(p, max, fix) && !PassRejects(p)
            case Failure(e) =>
              e == if PassOverruns(p, max, fix) then IndexFault else if PassRejects(p) then HuffmanTableError else OutOfRange
  {
    hide ParseUntil, Build, ReadMany, RepeatsTooFar;
    var pre := ReadMany(p.stream, 20, 4);
    if pre.Failure? {
      ManyFails(p.stream, 20, 4);
    } else {
      BuildFails(pre.value.0, 6, 96);
      ParseUntilFails(pre.value.0, p.(stream := pre.value.1), max, fix);
    }
  }

  lemma BuildFails(lens: seq<nat>, tableBits: nat, size: nat)
    requires 1 <= tableBits <= 16
    ensures Build(lens, tableBits, size) == Ok || Build(lens, tableBits, size) == HuffmanTableError
            || Build(lens, tableBits, size) == IndexFault
  {
  }

  /** The lengths from `p.pos` up to `end` are `v` and the others are as before. */
  predicate Fills(p: Progress, q: Progress, end: nat, v: nat)
    requires ProgressOk(p) && ProgressOk(q)
  {
    q.pos == end &&
    forall i :: 0 <= i < 768 ==> q.lengths[i] == if p.pos <= i < end then v else p.lengths[i]
  }

  /** What one pre-tree symbol does. A run fills with one length as many entries as it counts, or as
      there are before `max`: with zeros for 17 and 18, with the length rebuilt from the first entry
      for 19. Any other symbol rebuilds one length. Rebuilding is subtraction modulo 17. */
  lemma ParseOneFills(pre: seq<nat>, p: Progress, max: nat, fix: nat)
    requires |pre| == 20 && ProgressOk(p) && p.pos < max <= 768 && fix <= 1
    ensures ParseOne(pre, p, max, fix).Success? <==>
              && NextSymbol(pre, 6, p.stream).Success?
              && var (symbol, s1) := NextSymbol(pre, 6, p.stream).value;
              && (symbol == 17 ==> |s1.bits| >= 4)
              && (symbol == 18 ==> |s1.bits| >= 6 - fix)
              && (symbol == 19 ==>
                    && |s1.bits| >= 1 && NextSymbol(pre, 6, Read(s1, 1).value.1).Success?
                    && NextSymbol(pre, 6, Read(s1, 1).value.1).value.0 <= p.lengths[p.pos] + 17)
    ensures ParseOne(pre, p, max, fix).Success? ==> var q := ParseOne(pre, p, max, fix).value;
            var (symbol, s1) := NextSymbol(pre, 6, p.stream).value;
            if symbol == 17 then
              var (bits, s2) := Read(s1, 4).value;
              q.stream == s2 && Fills(p, q, Min(p.pos + 3 + fix + bits, max), 0)
            else if symbol == 18 then
              var (bits, s2) := Read(s1, 6 - fix).value;
              q.stream == s2 && Fills(p, q, Min(p.pos + 19 + fix + bits, max), 0)
            else if symbol == 19 then
              var (bits, s2) := Read(s1, 1).value;
              var (delta, s3) := NextSymbol(pre, 6, s2).value;
              q.stream == s3 && Fills(p, q, Min(p.pos + 3 + fix + bits, max), (p.lengths[p.pos] + 17 - delta) % 17)
            else
              q.stream == s1 && Fills(p, q, p.pos + 1, (p.lengths[p.pos] + 17 - symbol) % 17)
  {
    hide NextSymbol, Read;
  }

  // ---------------------------------------------------------------- headers

  /** The offset code of a header with method 3 is rejected. */
  ghost predicate OffsetsReject(s: Stream)
    requires s.Valid()
  {
    var r := Read(s, 3);
    && r.Success? && r.value.0 == 3
    && var lens := ReadMany(r.value.1, 8, 3);
    lens.Success? && Build(lens.value.0, 7, 128) == HuffmanTableError
  }

  /** Reading the offset code never indexes outside its table. */
  lemma OffsetsNeverOverrun(d: Decoder, s: Stream)
    requires DecoderOk(d) && s.Valid()
    ensures match ReadOffsetLengths(d, s)
            case Success(_) => !OffsetsReject(s)
            case Failure(e) => e == if OffsetsReject(s) then HuffmanTableError else OutOfRange
  {
    hide Build, ReadMany, Read, DecoderOk;
    assert Pow2(3) == 8;
    var r := Read(s, 3);
    if r.Success? && r.value.0 == 3 {
      if ReadMany(r.value.1, 8, 3).Success? {
        BuildFails(ReadMany(r.value.1, 8, 3).value.0, 7, 128);
        OffsetTableFits(ReadMany(r.value.1, 8, 3).value.0);
      } else {
        ManyFails(r.value.1, 8, 3);
      }
    }
  }

  /** The literal code overruns an array: in one of the two passes, or when its table is built. */
  ghost predicate LiteralsOverrun(d: Decoder, s: Stream)
    requires DecoderOk(d) && s.Valid()
  {
    var start := Progress(d.literals, 0, s);
    var middle := ParsePass(start, 256, 1);
    && d.mode != 1
    && (|| PassOverruns(start, 256, 1)
        || (middle.Success? && PassOverruns(middle.value, 768, 0))
        || (ParseLengths(d.literals, s).Success? && Build(ParseLengths(d.literals, s).value.0, 12, 5120) == IndexFault))
  }

  /** A table of the literal code is rejected: a pre-tree or the literal table itself. */
  ghost predicate LiteralsReject(d: Decoder, s: Stream)
    requires DecoderOk(d) && s.Valid()
  {
    var start := Progress(d.literals, 0, s);
    var middle := ParsePass(start, 256, 1);
    && d.mode != 1
    && (|| PassRejects(start)
        || (middle.Success? && PassRejects(middle.value))
        || (ParseLengths(d.literals, s).Success? &&
            Build(ParseLengths(d.literals, s).value.0, 12, 5120) == HuffmanTableError))
  }

  lemma LiteralsFail(d: Decoder, s: Stream)
    requires DecoderOk(d) && s.Valid()
    ensures match ReadLiterals(d, s)
            case Success(_) => !LiteralsOverrun(d, s) && !LiteralsReject(d, s)
            case Failure(e) =>
              e == if LiteralsOverrun(d, s) then IndexFault else if LiteralsReject(d, s) then HuffmanTableError else OutOfRange
  {
    hide ParsePass, Build, PassOverruns, PassRejects;
    var start := Progress(d.literals, 0, s);
    PassFails(start, 256, 1);
    if ParsePass(start, 256, 1).Success? {
      PassFails(ParsePass(start, 256, 1).value, 768, 0);
    }
    if ParseLengths(d.literals, s).Success? {
      BuildFails(ParseLengths(d.literals, s).value.0, 12, 5120);
    }
  }

  /** A header overruns an array: exactly in its literal code, once all before that has been read. */
  ghost predicate HeaderOverruns(d: Decoder, s: Stream)
    requires DecoderOk(d) && s.Valid()
  {
    var r := ReadOffsetLengths(d, s);
    && r.Success? && ReadLength(r.value.1).Success?
    && LiteralsOverrun(r.value.0, ReadLength(r.value.1).value.1)
  }

  /** A table of the header is rejected. */
  ghost predicate HeaderRejects(d: Decoder, s: Stream)
    requires DecoderOk(d) && s.Valid()
  {
    var r := ReadOffsetLengths(d, s);
    || OffsetsReject(s)
    || (r.Success? && ReadLength(r.value.1).Success? &&
        LiteralsReject(r.value.0, ReadLength(r.value.1).value.1))
  }

  /** A header that does neither fails for want of bits. */
  lemma HeaderFails(d: Decoder, s: Stream)
    requires DecoderOk(d) && s.Valid()
    ensures match ReadHeader(d, s)
            case Success(_) => !HeaderOverruns(d, s) && !HeaderRejects(d, s)
            case Failure(e) =>
              e == if HeaderOverruns(d, s) then IndexFault else if HeaderRejects(d, s) then HuffmanTableError else OutOfRange
  {
    hide ReadOffsetLengths, ReadLiterals, LiteralsOverrun, LiteralsReject, OffsetsReject, Read;
    var r := ReadOffsetLengths(d, s);
    OffsetsNeverOverrun(d, s);
    if r.Success? && ReadLength(r.value.1).Success? {
      LiteralsFail(r.value.0, ReadLength(r.value.1).value.1);
    }
  }

  // ---------------------------------------------------------------- blocks

  lemma RoundFails(m: Machine, remaining: nat, total: nat)
    requires MachineOk(m) && |m.out| < total
    ensures Round(m, remaining, total) == Failure(IndexFault) <==> remaining == 0 && HeaderOverruns(m.decoder, m.stream)
  {
    hide ReadHeader, Decrunch, HeaderOverruns, HeaderRejects, DecoderOk;
    HeaderFails(m.decoder, m.stream);
    if EnterBlock(m, remaining).Success? {
      var (m1, length) := EnterBlock(m, remaining).value;
      RunFails(m1, total + 256, Min(|m.out| + length, total));
    }
  }

  /** The state after `n` rounds, if that many are made. */
  ghost function AfterRounds(m: Machine, remaining: nat, total: nat, n: nat): (r: Option<(Machine, nat)>)
    requires MachineOk(m)
    ensures r.Some? ==> MachineOk(r.value.0) && |r.value.0.out| < total
    decreases n
  {
    if |m.out| >= total then None
    else if n == 0 then Some((m, remaining))
    else match Round(m, remaining, total)
      case Failure(_) => None
      case Success((m', left)) => AfterRounds(m', left, total, n - 1)
  }

  /** After some rounds a block is due whose header overruns an array. */
  ghost predicate SomeHeaderOverruns(m: Machine, remaining: nat, total: nat)
    requires MachineOk(m)
  {
    exists n: nat :: OverrunsAfter(m, remaining, total, n)
  }

  ghost predicate OverrunsAfter(m: Machine, remaining: nat, total: nat, n: nat)
    requires MachineOk(m)
  {
    var r := AfterRounds(m, remaining, total, n);
    r.Some? && r.value.1 == 0 && HeaderOverruns(r.value.0.decoder, r.value.0.stream)
  }

  lemma {:induction false} BlocksFail(m: Machine, remaining: nat, total: nat)
    requires MachineOk(m)
    ensures Blocks(m, remaining, total) == Failure(IndexFault) <==> SomeHeaderOverruns(m, remaining, total)
    decreases total - |m.out|, |m.stream.bits|
  {
    hide Round, HeaderOverruns, DecoderOk;
    if |m.out| < total {
      RoundFails(m, remaining, total);
      if Round(m, remaining, total).Success? {
        var (m', left) := Round(m, remaining, total).value;
        BlocksFail(m', left, total);
        if n: nat :| OverrunsAfter(m, remaining, total, n) {
          assert n > 0 && OverrunsAfter(m', left, total, n - 1);
        }
        if n: nat :| OverrunsAfter(m', left, total, n) {
          assert OverrunsAfter(m, remaining, total, n + 1);
        }
      } else {
        if n: nat :| OverrunsAfter(m, remaining, total, n) {
          assert n == 0;
        }
        if remaining == 0 && HeaderOverruns(m.decoder, m.stream) {
          assert OverrunsAfter(m, remaining, total, 0);
        }
      }
    }
  }

  /** Unpacking indexes outside an array if and only if it comes to a block header that does. */
  lemma UnpackFaults(mode: nat, packed: seq<byte>, total: nat)
    ensures DecoderOk(InitialDecoder())
    ensures Unpack(mode, packed, total) == Failure(IndexFault) <==>
              && mode == 2
              && SomeHeaderOverruns(Machine(InitialDecoder(), StreamOf(packed), []), 0, total)
  {
    hide Blocks, SomeHeaderOverruns, DecoderOk, StreamOf;
    InitialDecoderOk();
    BlocksFail(Machine(InitialDecoder(), StreamOf(packed), []), 0, total);
  }
}
