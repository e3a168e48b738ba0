/** What holds over every run of the decoder. */
module DecoderProperties {
  import opened Bits
  import opened Errors
  import opened MmapBuffer
  import opened HuffmanTables
  import opened DecoderFaults
  import opened DecoderSpec

  // ---------------------------------------------------------------- copies

  /** A match at distance `offset` repeats the last `offset` bytes, also when the copy runs into
      what it has just written. */
  lemma {:induction false} CopyRepeats(out: seq<byte>, offset: nat, count: nat, i: nat)
    requires 1 <= offset <= |out| && i < count
    ensures out <= CopyMatch(out, offset, count)
    ensures CopyMatch(out, offset, count)[|out| + i] == out[|out| - offset + i % offset]
    decreases count
  {
    var next := out + [out[|out| - offset]];
    if i == 0 {
      CopyKeeps(next, offset, count - 1);
      assert 0 % offset == 0;
    } else {
      CopyRepeats(next, offset, count - 1, i - 1);
      Wrap(i, offset);
    }
  }

  lemma {:induction false} CopyKeeps(out: seq<byte>, offset: nat, count: nat)
    requires 1 <= offset <= |out|
    ensures out <= CopyMatch(out, offset, count)
    decreases count
  {
    if count > 0 {
      CopyKeeps(out + [out[|out| - offset]], offset, count - 1);
    }
  }

  /** Counting on by one modulo `d`. */
  lemma Wrap(i: nat, d: nat)
    requires i >= 1 && d >= 1
    ensures (i - 1) % d + 1 == if i % d == 0 then d else i % d
  {
    var q, r := (i - 1) / d, (i - 1) % d;
    assert i == q * d + (r + 1);
    if r + 1 < d {
      Remainder(i, q, r + 1, d);
    } else {
      Distribute(q, 1, d);
      Remainder(i, q + 1, 0, d);
    }
  }

  lemma Remainder(i: nat, q: nat, r: nat, d: nat)
    requires r < d && i == q * d + r
    ensures i % d == r
  {
    assert i == (i / d) * d + i % d;
    QuotientUnique(d, q, r, i / d, i % d);
  }

  lemma QuotientUnique(d: nat, q: nat, r: nat, q': nat, r': nat)
    requires r < d && r' < d && q * d + r == q' * d + r'
    ensures r == r'
  {
    if q < q' {
      MulMonotone(q + 1, q', d);
      Distribute(q, 1, d);
    } else if q' < q {
      MulMonotone(q' + 1, q, d);
      Distribute(q', 1, d);
    }
  }

  lemma {:induction false} MulMonotone(a: nat, b: nat, d: nat)
    requires a <= b
    ensures a * d <= b * d
  {
    if a < b {
      MulMonotone(a, b - 1, d);
      Distribute(b - 1, 1, d);
    }
  }

  lemma Distribute(a: int, b: int, d: int)
    ensures (a + b) * d == a * d + b * d
  {
  }

  // ---------------------------------------------------------------- one token

  /** One step, for every token and every failure. */
  lemma StepOutcome(m: Machine, capacity: nat)
    requires MachineOk(m)
    ensures match ReadToken(m.decoder, m.stream)
            case Failure(_) => Step(m, capacity) == Failure(OutOfRange)
            case Success((Literal(b), s)) =>
              Step(m, capacity) ==
                if |m.out| < capacity then Success(Machine(m.decoder, s, m.out + [b])) else Failure(BufferOverflow)
            case Success((Match(offset, count), s)) =>
              if offset > |m.out| then Step(m, capacity) == Failure(OutOfRange)
              else if |m.out| + count > capacity then Step(m, capacity) == Failure(BufferOverflow)
              else
                && Step(m, capacity).Success?
                && var m' := Step(m, capacity).value;
                && m'.decoder == m.decoder.(last := offset) && m'.stream == s
                && m.out <= m'.out && |m'.out| == |m.out| + count
                && forall i :: 0 <= i < count ==> m'.out[|m.out| + i] == m.out[|m.out| - offset + i % offset]
  {
    hide ReadToken, DecoderOk;
    if ReadToken(m.decoder, m.stream).Failure? {
      TokenFails(m.decoder, m.stream);
    } else {
      var (token, s) := ReadToken(m.decoder, m.stream).value;
      if token.Match? && token.offset <= |m.out| {
        CopyKeeps(m.out, token.offset, token.count);
        forall i: nat | i < token.count
          ensures CopyMatch(m.out, token.offset, token.count)[|m.out| + i] == m.out[|m.out| - token.offset + i % token.offset]
        {
          CopyRepeats(m.out, token.offset, token.count, i);
        }
      }
    }
  }

  // ---------------------------------------------------------------- one run

  /** Decoding only appends, by at most 258 bytes a token, so that a run ends at most 257 bytes
      past its threshold; offsets stay in range. */
  lemma {:induction false} RunAppends(m: Machine, capacity: nat, threshold: nat)
    requires MachineOk(m) && Decrunch(m, capacity, threshold).Success?
    ensures var m' := Decrunch(m, capacity, threshold).value;
            && m.out <= m'.out
            && |m'.out| <= (if |m.out| < threshold then threshold + 257 else |m.out|)
            && 1 <= m'.decoder.last <= 65535
            && m'.decoder == m.decoder.(last := m'.decoder.last)
    decreases threshold - |m.out|
  {
    if |m.out| < threshold && !m.stream.Eof() {
      StepAppends(m, capacity);
      RunAppends(Step(m, capacity).value, capacity, threshold);
    }
  }

  lemma StepAppends(m: Machine, capacity: nat)
    requires MachineOk(m) && Step(m, capacity).Success?
    ensures var m' := Step(m, capacity).value;
            && m.out <= m'.out && |m'.out| <= |m.out| + 258
            && m'.decoder == m.decoder.(last := m'.decoder.last)
  {
    hide ReadToken;
    var token := ReadToken(m.decoder, m.stream).value.0;
    if token.Match? && 1 <= token.offset <= |m.out| {
      CopyKeeps(m.out, token.offset, token.count);
    }
  }

  /** A run can be stopped at any threshold and taken up again: status, bytes, last offset and
      remaining input are those of the uninterrupted run. */
  lemma {:induction false} RunsCompose(m: Machine, capacity: nat, t1: nat, t2: nat)
    requires MachineOk(m) && t1 <= t2
    ensures match Decrunch(m, capacity, t1)
            case Success(m1) => Decrunch(m1, capacity, t2) == Decrunch(m, capacity, t2)
            case Failure(e) => Decrunch(m, capacity, t2) == Failure(e)
    decreases t1 - |m.out|
  {
    hide Step, MachineOk;
    if |m.out| < t1 && !m.stream.Eof() && Step(m, capacity).Success? {
      RunsCompose(Step(m, capacity).value, capacity, t1, t2);
    }
  }

  // ---------------------------------------------------------------- code lengths

  lemma ParseOneAssigns(pre: seq<nat>, p: Progress, max: nat, fix: nat)
    requires |pre| == 20 && ProgressOk(p) && p.pos < max <= 768 && fix <= 1
    requires ParseOne(pre, p, max, fix).Success?
    ensures var q := ParseOne(pre, p, max, fix).value;
            forall i :: 0 <= i < 768 && (i < p.pos || i >= q.pos) ==> q.lengths[i] == p.lengths[i]
  {
    hide NextSymbol, Read;
  }

  /** A pass assigns the entries from `p.pos` to `max` and no others. */
  lemma {:induction false} ParseAssigns(pre: seq<nat>, p: Progress, max: nat, fix: nat)
    requires |pre| == 20 && ProgressOk(p) && p.pos <= max <= 768 && fix <= 1
    requires ParseUntil(pre, p, max, fix).Success?
    ensures var q := ParseUntil(pre, p, max, fix).value;
            q.pos == max && forall i :: 0 <= i < 768 && (i < p.pos || i >= max) ==> q.lengths[i] == p.lengths[i]
    decreases max - p.pos
  {
    hide ParseOne;
    if p.pos < max {
      ParseOneAssigns(pre, p, max, fix);
      ParseAssigns(pre, ParseOne(pre, p, max, fix).value, max, fix);
    }
  }

  // ---------------------------------------------------------------- the end-of-file test

  /** The same reader in front of input that never ends. */
  function Endless(s: Stream): Stream {
    s.(odd := true)
  }

  function EndlessMachine(m: Machine): Machine {
    m.(stream := Endless(m.stream))
  }

  lemma EndlessRead(s: Stream, n: nat)
    requires s.Valid()
    ensures Read(Endless(s), n) ==
              match Read(s, n)
              case Success((v, s')) => Success((v, Endless(s')))
              case Failure(e) => Failure(e)
  {
  }

  lemma {:induction false} EndlessOneByOne(s: Stream, k: nat)
    requires s.Valid() && k <= |s.bits|
    ensures OneByOne(Endless(s), k) == Endless(OneByOne(s, k))
    decreases k
  {
    if k > 0 {
      EndlessRead(s, 1);
      EndlessOneByOne(Read(s, 1).value.1, k - 1);
    }
  }

  /** A symbol found in the table. */
  lemma EndlessDirect(s: Stream, len: nat, tableBits: nat)
    requires s.Valid() && tableBits <= 16 && Peek(s, tableBits).Success? && len <= tableBits
    ensures var s1 := Peek(s, tableBits).value.1;
            && Read(s1, len).Success? && Read(Endless(s1), len).Success?
            && Read(Endless(s1), len).value.1 == Endless(Read(s1, len).value.1)
  {
    EndlessRead(Peek(s, tableBits).value.1, len);
  }

  /** A symbol found below the table. */
  lemma EndlessWalk(s: Stream, len: nat, tableBits: nat)
    requires s.Valid() && tableBits <= 16 && Peek(s, tableBits).Success? && tableBits < len <= |s.bits|
    ensures var s1 := Peek(s, tableBits).value.1;
            && Read(s1, tableBits).Success? && Read(Endless(s1), tableBits).Success?
            && len - tableBits <= |Read(s1, tableBits).value.1.bits|
            && OneByOne(Read(Endless(s1), tableBits).value.1, len - tableBits) ==
                 Endless(OneByOne(Read(s1, tableBits).value.1, len - tableBits))
  {
    hide OneByOne;
    var s1 := Peek(s, tableBits).value.1;
    EndlessRead(s1, tableBits);
    EndlessOneByOne(Read(s1, tableBits).value.1, len - tableBits);
  }

  lemma EndlessSymbol(lens: seq<nat>, tableBits: nat, s: Stream)
    requires s.Valid() && tableBits <= 16
    ensures NextSymbol(lens, tableBits, Endless(s)) ==
              match NextSymbol(lens, tableBits, s)
              case Success((v, s')) => Success((v, Endless(s')))
              case Failure(e) => Failure(e)
  {
    hide Read, OneByOne, CanonicalCode.Decode;
    if Peek(s, tableBits).Success? && !AllZero(lens) && CanonicalCode.Decode(lens, s.bits).Some? {
      var len := lens[CanonicalCode.Decode(lens, s.bits).value.0];
      if len <= tableBits {
        EndlessDirect(s, len, tableBits);
      } else {
        EndlessWalk(s, len, tableBits);
      }
    }
  }

  lemma {:induction false} EndlessMany(s: Stream, n: nat, w: nat)
    requires s.Valid() && w <= 16
    ensures ReadMany(Endless(s), n, w) ==
              match ReadMany(s, n, w)
              case Success((vs, s')) => Success((vs, Endless(s')))
              case Failure(e) => Failure(e)
    decreases n
  {
    hide Read;
    if n > 0 {
      EndlessRead(s, w);
      if Read(s, w).Success? {
        EndlessMany(Read(s, w).value.1, n - 1, w);
      }
    }
  }

  function EndlessProgress(p: Progress): Progress {
    p.(stream := Endless(p.stream))
  }

  lemma EndlessZeroRun(p: Progress, max: nat, base: nat, w: nat)
    requires ProgressOk(p) && p.pos < max <= 768 && base > 0
    ensures ZeroRun(EndlessProgress(p), max, base, w) ==
              match ZeroRun(p, max, base, w)
              case Success(p') => Success(EndlessProgress(p'))
              case Failure(e) => Failure(e)
  {
    hide Read, FillRange;
    EndlessRead(p.stream, w);
  }

  lemma EndlessRepeatRun(pre: seq<nat>, p: Progress, max: nat, fix: nat)
    requires |pre| == 20 && ProgressOk(p) && p.pos < max <= 768
    ensures RepeatRun(pre, EndlessProgress(p), max, fix) ==
              match RepeatRun(pre, p, max, fix)
              case Success(p') => Success(EndlessProgress(p'))
              case Failure(e) => Failure(e)
  {
    hide NextSymbol, Read, FillRange;
    EndlessRead(p.stream, 1);
    if Read(p.stream, 1).Success? {
      EndlessSymbol(pre, 6, Read(p.stream, 1).value.1);
    }
  }

  lemma EndlessParseOne(pre: seq<nat>, p: Progress, max: nat, fix: nat)
    requires |pre| == 20 && ProgressOk(p) && p.pos < max <= 768 && fix <= 1
    ensures ParseOne(pre, EndlessProgress(p), max, fix) ==
              match ParseOne(pre, p, max, fix)
              case Success(p') => Success(EndlessProgress(p'))
              case Failure(e) => Failure(e)
  {
    hide NextSymbol, ZeroRun, RepeatRun;
    EndlessSymbol(pre, 6, p.stream);
    if NextSymbol(pre, 6, p.stream).Success? {
      var p1 := p.(stream := NextSymbol(pre, 6, p.stream).value.1);
      EndlessZeroRun(p1, max, 3 + fix, 4);
      EndlessZeroRun(p1, max, 19 + fix, 6 - fix);
      EndlessRepeatRun(pre, p1, max, fix);
    }
  }

  lemma {:induction false} EndlessParseUntil(pre: seq<nat>, p: Progress, max: nat, fix: nat)
    requires |pre| == 20 && ProgressOk(p) && p.pos <= max <= 768 && fix <= 1
    ensures ParseUntil(pre, EndlessProgress(p), max, fix) ==
              match ParseUntil(pre, p, max, fix)
              case Success(p') => Success(EndlessProgress(p'))
              case Failure(e) => Failure(e)
    decreases max - p.pos
  {
    hide ParseOne;
    if p.pos < max {
      EndlessParseOne(pre, p, max, fix);
      if ParseOne(pre, p, max, fix).Success? {
        EndlessParseUntil(pre, ParseOne(pre, p, max, fix).value, max, fix);
      }
    }
  }

  lemma EndlessPass(p: Progress, max: nat, fix: nat)
    requires ProgressOk(p) && p.pos <= max <= 768 && fix <= 1
    ensures ParsePass(EndlessProgress(p), max, fix) ==
              match ParsePass(p, max, fix)
              case Success(p') => Success(EndlessProgress(p'))
              case Failure(e) => Failure(e)
  {
    hide ReadMany, ParseUntil, Build;
    EndlessMany(p.stream, 20, 4);
    if ReadMany(p.stream, 20, 4).Success? {
      var (pre, s1) := ReadMany(p.stream, 20, 4).value;
      EndlessParseUntil(pre, p.(stream := s1), max, fix);
    }
  }

  lemma EndlessLengths(lens: seq<nat>, s: Stream)
    requires LengthsOk(lens) && s.Valid()
    ensures ParseLengths(lens, Endless(s)) ==
              match ParseLengths(lens, s)
              case Success((v, s')) => Success((v, Endless(s')))
              case Failure(e) => Failure(e)
  {
    hide ParsePass;
    var p := Progress(lens, 0, s);
    EndlessPass(p, 256, 1);
    if ParsePass(p, 256, 1).Success? {
      EndlessPass(ParsePass(p, 256, 1).value, 768, 0);
    }
  }

  lemma EndlessHeader(d: Decoder, s: Stream)
    requires DecoderOk(d) && s.Valid()
    ensures ReadHeader(d, Endless(s)) ==
              match ReadHeader(d, s)
              case Success((d', length, s')) => Success((d', length, Endless(s')))
              case Failure(e) => Failure(e)
  {
    hide DecoderOk, ReadOffsetLengths, ReadLength, ReadLiterals;
    EndlessOffsetLengths(d, s);
    if ReadOffsetLengths(d, s).Success? {
      var (d1, s1) := ReadOffsetLengths(d, s).value;
      EndlessLength(s1);
      if ReadLength(s1).Success? {
        EndlessLiterals(d1, ReadLength(s1).value.1);
      }
    }
  }

  lemma EndlessOffsetLengths(d: Decoder, s: Stream)
    requires DecoderOk(d) && s.Valid()
    ensures ReadOffsetLengths(d, Endless(s)) ==
              match ReadOffsetLengths(d, s)
              case Success((d', s')) => Success((d', Endless(s')))
              case Failure(e) => Failure(e)
  {
    hide Read, ReadMany, Build;
    EndlessRead(s, 3);
    if Read(s, 3).Success? {
      EndlessMany(Read(s, 3).value.1, 8, 3);
    }
  }

  lemma EndlessLength(s: Stream)
    requires s.Valid()
    ensures ReadLength(Endless(s)) ==
              match ReadLength(s)
              case Success((v, s')) => Success((v, Endless(s')))
              case Failure(e) => Failure(e)
  {
    hide Read;
    EndlessRead(s, 8);
    if Read(s, 8).Success? {
      var s1 := Read(s, 8).value.1;
      EndlessRead(s1, 8);
      if Read(s1, 8).Success? {
        EndlessRead(Read(s1, 8).value.1, 8);
      }
    }
  }

  lemma EndlessLiterals(d: Decoder, s: Stream)
    requires DecoderOk(d) && s.Valid()
    ensures ReadLiterals(d, Endless(s)) ==
              match ReadLiterals(d, s)
              case Success((d', s')) => Success((d', Endless(s')))
              case Failure(e) => Failure(e)
  {
    hide ParseLengths, Build;
    EndlessLengths(d.literals, s);
  }

  lemma EndlessToken(d: Decoder, s: Stream)
    requires DecoderOk(d) && s.Valid()
    ensures ReadToken(d, Endless(s)) ==
              match ReadToken(d, s)
              case Success((t, s')) => Success((t, Endless(s')))
              case Failure(e) => Failure(e)
  {
    hide NextSymbol, ReadMatch;
    EndlessSymbol(d.literals, 12, s);
    if NextSymbol(d.literals, 12, s).Success? {
      var (symbol, s1) := NextSymbol(d.literals, 12, s).value;
      if symbol >= 256 {
        EndlessMatch(d, symbol - 256, s1);
      }
    }
  }

  lemma EndlessMatch(d: Decoder, code: nat, s: Stream)
    requires DecoderOk(d) && s.Valid() && code < 512
    ensures ReadMatch(d, code, Endless(s)) ==
              match ReadMatch(d, code, s)
              case Success((t, s')) => Success((t, Endless(s')))
              case Failure(e) => Failure(e)
  {
    hide ReadOffset, Read, DecoderOk;
    EndlessOffset(d, code % 32, s);
    if ReadOffset(d, code % 32, s).Success? {
      EndlessRead(ReadOffset(d, code % 32, s).value.1, ExtraBits(code / 32));
    }
  }

  lemma EndlessOffset(d: Decoder, slot: nat, s: Stream)
    requires DecoderOk(d) && s.Valid() && slot < 32
    ensures ReadOffset(d, slot, Endless(s)) ==
              match ReadOffset(d, slot, s)
              case Success((v, s')) => Success((v, Endless(s')))
              case Failure(e) => Failure(e)
  {
    hide LongOffset, ShortOffset;
    if ExtraBits(slot) >= 3 && d.mode == 3 {
      EndlessLongOffset(d.offsets, slot, s);
    } else {
      EndlessShortOffset(d.last, slot, s);
    }
  }

  lemma EndlessLongOffset(offsets: seq<nat>, slot: nat, s: Stream)
    requires |offsets| == 8 && slot < 32 && ExtraBits(slot) >= 3 && s.Valid()
    ensures LongOffset(offsets, slot, Endless(s)) ==
              match LongOffset(offsets, slot, s)
              case Success((v, s')) => Success((v, Endless(s')))
              case Failure(e) => Failure(e)
  {
    hide NextSymbol, Read, BaseOffset;
    EndlessRead(s, ExtraBits(slot) - 3);
    if Read(s, ExtraBits(slot) - 3).Success? {
      EndlessSymbol(offsets, 7, Read(s, ExtraBits(slot) - 3).value.1);
    }
  }

  lemma EndlessShortOffset(last: nat, slot: nat, s: Stream)
    requires 1 <= last <= 65535 && slot < 32 && s.Valid()
    ensures ShortOffset(last, slot, Endless(s)) ==
              match ShortOffset(last, slot, s)
              case Success((v, s')) => Success((v, Endless(s')))
              case Failure(e) => Failure(e)
  {
    hide Read, BaseOffset;
    EndlessRead(s, ExtraBits(slot));
  }

  lemma EndlessStep(m: Machine, capacity: nat)
    requires MachineOk(m)
    ensures Step(EndlessMachine(m), capacity) ==
              match Step(m, capacity)
              case Success(m') => Success(EndlessMachine(m'))
              case Failure(e) => Failure(e)
  {
    hide ReadToken, DecoderOk;
    EndlessToken(m.decoder, m.stream);
  }

  /** A run fails on endless input as it does on its own, and a run that reaches its threshold
      reaches it alike. */
  lemma {:induction false} EndlessRun(m: Machine, capacity: nat, threshold: nat)
    requires MachineOk(m)
    ensures match Decrunch(m, capacity, threshold)
            case Success(m') =>
              |m'.out| >= threshold ==> Decrunch(EndlessMachine(m), capacity, threshold) == Success(EndlessMachine(m'))
            case Failure(e) => Decrunch(EndlessMachine(m), capacity, threshold) == Failure(e)
    decreases threshold - |m.out|
  {
    hide Step, DecoderOk;
    if |m.out| < threshold && !m.stream.Eof() {
      EndlessStep(m, capacity);
      if Step(m, capacity).Success? {
        EndlessRun(Step(m, capacity).value, capacity, threshold);
      }
    }
  }

  /** A run that stops short has used up its input. */
  lemma {:induction false} ShortRunIsAtEnd(m: Machine, capacity: nat, threshold: nat)
    requires MachineOk(m) && Decrunch(m, capacity, threshold).Success?
    ensures var m' := Decrunch(m, capacity, threshold).value;
            |m'.out| < threshold ==> m'.stream.Eof()
    decreases threshold - |m.out|
  {
    hide Step, DecoderOk;
    if |m.out| < threshold && !m.stream.Eof() {
      ShortRunIsAtEnd(Step(m, capacity).value, capacity, threshold);
    }
  }

  /** Once the input is used up inside a block, the block loop fails. */
  lemma StuckFails(m: Machine, remaining: nat, total: nat)
    requires MachineOk(m) && |m.out| < total && remaining > 0 && m.stream.Eof()
    ensures Round(m, remaining, total) == Failure(UnexpectedEof)
    ensures Blocks(m, remaining, total) == Failure(UnexpectedEof)
  {
    hide DecoderOk;
    assert EnterBlock(m, remaining) == Success((m, remaining));
    assert Decrunch(m, total + 256, Min(|m.out| + remaining, total)) == Success(m);
  }

  /** A round reports the end of the input exactly when the last word has been loaded once its block is
      entered, whatever the length of the block. */
  lemma RoundEnds(m: Machine, remaining: nat, total: nat)
    requires MachineOk(m) && |m.out| < total
    ensures Round(m, remaining, total) == Failure(UnexpectedEof) <==>
              EnterBlock(m, remaining).Success? && EnterBlock(m, remaining).value.0.stream.Eof()
  {
    hide ReadHeader, Decrunch, DecoderOk, HeaderOverruns, HeaderRejects;
    HeaderFails(m.decoder, m.stream);
    if EnterBlock(m, remaining).Success? {
      var (m1, length) := EnterBlock(m, remaining).value;
      var threshold := Min(|m.out| + length, total);
      RunFails(m1, total + 256, threshold);
      RunMoves(m1, total + 256, threshold);
    }
  }

  /** A run that has something to do and is not at the end of the input produces output, or fails. */
  lemma RunMoves(m: Machine, capacity: nat, threshold: nat)
    requires MachineOk(m)
    ensures m.stream.Eof() || threshold <= |m.out| ==> Decrunch(m, capacity, threshold) == Success(m)
    ensures !m.stream.Eof() && |m.out| < threshold && Decrunch(m, capacity, threshold).Success? ==>
              |Decrunch(m, capacity, threshold).value.out| > |m.out|
  {
    hide Step, DecoderOk;
  }

  lemma EndlessEnter(m: Machine, remaining: nat)
    requires MachineOk(m)
    ensures EnterBlock(EndlessMachine(m), remaining) ==
              match EnterBlock(m, remaining)
              case Success((m', n)) => Success((EndlessMachine(m'), n))
              case Failure(e) => Failure(e)
  {
    hide ReadHeader, DecoderOk;
    EndlessHeader(m.decoder, m.stream);
  }

  /** The run of a round, and its threshold. */
  ghost predicate StopsShort(m: Machine, length: nat, total: nat)
    requires MachineOk(m)
  {
    var threshold := Min(|m.out| + length, total);
    var r := Decrunch(m, total + 256, threshold);
    r.Success? && |r.value.out| < threshold
  }

  /** When the run of a round reaches its threshold or fails, the round is the same on endless input. */
  lemma EndlessRound(m: Machine, remaining: nat, total: nat)
    requires MachineOk(m) && |m.out| < total
    requires EnterBlock(m, remaining).Success? ==>
               !StopsShort(EnterBlock(m, remaining).value.0, EnterBlock(m, remaining).value.1, total)
    requires Round(m, remaining, total) != Failure(UnexpectedEof)
    ensures Round(EndlessMachine(m), remaining, total) ==
              match Round(m, remaining, total)
              case Success((m', left)) => Success((EndlessMachine(m'), left))
              case Failure(e) => Failure(e)
  {
    hide EnterBlock, Decrunch, DecoderOk;
    EndlessEnter(m, remaining);
    if EnterBlock(m, remaining).Success? {
      var (m1, length) := EnterBlock(m, remaining).value;
      EndlessRun(m1, total + 256, Min(|m.out| + length, total));
    }
  }

  /** A round that stops short ends the whole decompression. */
  lemma ShortRoundFails(m: Machine, remaining: nat, total: nat)
    requires MachineOk(m) && |m.out| < total && EnterBlock(m, remaining).Success?
    requires StopsShort(EnterBlock(m, remaining).value.0, EnterBlock(m, remaining).value.1, total)
    ensures Blocks(m, remaining, total) == Failure(UnexpectedEof)
  {
    hide EnterBlock, Decrunch, DecoderOk;
    var (m1, length) := EnterBlock(m, remaining).value;
    ShortRunIsAtEnd(m1, total + 256, Min(|m.out| + length, total));
    if Round(m, remaining, total).Success? {
      var (m2, left) := Round(m, remaining, total).value;
      StuckFails(m2, left, total);
    }
  }

  lemma {:induction false} EndlessBlocks(m: Machine, remaining: nat, total: nat)
    requires MachineOk(m)
    ensures || Blocks(EndlessMachine(m), remaining, total) == Blocks(m, remaining, total)
            || Blocks(m, remaining, total) == Failure(UnexpectedEof)
    decreases total - |m.out|, |m.stream.bits|
  {
    hide DecoderOk, Round, EnterBlock, StopsShort;
    if |m.out| < total && Round(m, remaining, total) != Failure(UnexpectedEof) {
      if EnterBlock(m, remaining).Success? &&
         StopsShort(EnterBlock(m, remaining).value.0, EnterBlock(m, remaining).value.1, total) {
        ShortRoundFails(m, remaining, total);
      } else {
        EndlessRound(m, remaining, total);
        if Round(m, remaining, total).Success? {
          var (m', left) := Round(m, remaining, total).value;
          EndlessBlocks(m', left, total);
        }
      }
    }
  }

  /** Input that never ends is never reported to have ended. */
  lemma {:induction false} OddNeverEnds(m: Machine, remaining: nat, total: nat)
    requires MachineOk(m) && m.stream.odd
    ensures Blocks(m, remaining, total) != Failure(UnexpectedEof)
    decreases total - |m.out|, |m.stream.bits|
  {
    hide DecoderOk, Round;
    if |m.out| < total {
      RoundOnOdd(m, remaining, total);
      if Round(m, remaining, total).Success? {
        var (m', left) := Round(m, remaining, total).value;
        OddNeverEnds(m', left, total);
      }
    }
  }

  lemma EnterOnOdd(m: Machine, remaining: nat)
    requires MachineOk(m) && m.stream.odd
    ensures match EnterBlock(m, remaining)
            case Success((m', _)) => m'.stream.odd
            case Failure(e) => e != UnexpectedEof
  {
    hide DecoderOk, ReadHeader, HeaderOverruns, Build;
    HeaderFails(m.decoder, m.stream);
  }

  lemma RoundOnOdd(m: Machine, remaining: nat, total: nat)
    requires MachineOk(m) && |m.out| < total && m.stream.odd
    ensures match Round(m, remaining, total)
            case Success((m', _)) => m'.stream.odd
            case Failure(e) => e != UnexpectedEof
  {
    hide DecoderOk, EnterBlock, Decrunch;
    EnterOnOdd(m, remaining);
    if EnterBlock(m, remaining).Success? {
      var (m1, length) := EnterBlock(m, remaining).value;
      var threshold := Min(|m.out| + length, total);
      RunFails(m1, total + 256, threshold);
      if Decrunch(m1, total + 256, threshold).Success? {
        RunKeepsOdd(m1, total + 256, threshold);
      }
    }
  }

  lemma {:induction false} RunKeepsOdd(m: Machine, capacity: nat, threshold: nat)
    requires MachineOk(m) && Decrunch(m, capacity, threshold).Success?
    ensures Decrunch(m, capacity, threshold).value.stream.odd == m.stream.odd
    decreases threshold - |m.out|
  {
    hide Step, DecoderOk;
    if |m.out| < threshold && !m.stream.Eof() {
      StepKeepsOdd(m, capacity);
      RunKeepsOdd(Step(m, capacity).value, capacity, threshold);
    }
  }

  lemma StepKeepsOdd(m: Machine, capacity: nat)
    requires MachineOk(m) && Step(m, capacity).Success?
    ensures Step(m, capacity).value.stream.odd == m.stream.odd
  {
  }

  /** What the end-of-file test does: on every input the outcome, success or failure, is the one
      that the bits alone determine, unless it is UnexpectedEof; and the bits alone never give that. */
  lemma BlocksOfBitsAlone(m: Machine, remaining: nat, total: nat)
    requires MachineOk(m)
    ensures Blocks(EndlessMachine(m), remaining, total) == Blocks(m, remaining, total)
            <==> Blocks(m, remaining, total) != Failure(UnexpectedEof)
  {
    hide Blocks, DecoderOk;
    EndlessBlocks(m, remaining, total);
    OddNeverEnds(EndlessMachine(m), remaining, total);
  }
}
