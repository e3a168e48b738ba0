/** A reference encoder for tokens, and the proof that the decoder undoes it. */
module TokenRoundTrip {
  import opened Bits
  import opened Errors
  import opened MmapBuffer
  import opened CanonicalCode
  import HuffmanTables
  import opened DecoderSpec

  // ---------------------------------------------------------------- symbols and numbers

  /** A number of `n` bits followed by anything is read back. */
  lemma ReadNumber(v: nat, n: nat, rest: seq<bool>, s: Stream)
    requires s.Valid() && n <= 16 && v < Pow2(n) && s.bits == BitsOf(v, n) + rest
    ensures Read(s, n).Success? && Read(s, n).value.0 == v && Read(s, n).value.1.bits == rest
  {
    ValOfBits(v, n);
    assert s.bits[..n] == BitsOf(v, n);
  }

  /** A symbol's code followed by at least 16 more bits is read back. */
  lemma ReadCode(lens: seq<nat>, tableBits: nat, symbol: nat, rest: seq<bool>, s: Stream)
    requires s.Valid() && tableBits <= 16 && Coded(lens, symbol) && |rest| >= 16
    requires s.bits == Code(lens, symbol) + rest
    ensures NextSymbol(lens, tableBits, s).Success?
    ensures NextSymbol(lens, tableBits, s).value.0 == symbol && NextSymbol(lens, tableBits, s).value.1.bits == rest
  {
    hide Code, Decode, Read, OneByOne;
    assert Code(lens, symbol) <= s.bits;
    DecodeIs(lens, symbol, s.bits);
    assert s.bits[lens[symbol]..] == rest;
    assert lens[symbol] != 0 && !AllZero(lens);
    if lens[symbol] > tableBits {
      assert s.bits[tableBits..][lens[symbol] - tableBits..] == rest;
    }
  }

  // ---------------------------------------------------------------- tokens

  /** A token with the slots an encoder chose for it. */
  datatype Choice = Plain(b: byte) | Copy(slot: nat, offset: nat, countSlot: nat, count: nat)

  function TokenOf(c: Choice): Token {
    match c
    case Plain(b) => Literal(b)
    case Copy(_, offset, _, count) => Match(offset, count)
  }

  function LastAfter(last: nat, c: Choice): nat {
    if c.Copy? then c.offset else last
  }

  predicate InSlot(slot: nat, v: nat) {
    slot < 32 && BaseOffset(slot) <= v < BaseOffset(slot) + Pow2(ExtraBits(slot))
  }

  /** The slots fit the values: slot 0 only to repeat the last offset. */
  predicate ChoiceOk(c: Choice, last: nat) {
    c.Copy? ==>
      && c.slot < 32 && c.countSlot < 16
      && (if c.slot == 0 then c.offset == last else InSlot(c.slot, c.offset))
      && c.count >= 3 && InSlot(c.countSlot, c.count - 3)
  }

  function SymbolOf(c: Choice): nat {
    match c
    case Plain(b) => b
    case Copy(slot, _, countSlot, _) => 256 + slot + 32 * countSlot
  }

  predicate CodedOffset(d: Decoder, slot: nat) {
    slot < 32 && ExtraBits(slot) >= 3 && d.mode == 3
  }

  /** The codes used by the token exist. */
  ghost predicate Encodable(d: Decoder, c: Choice) {
    && ChoiceOk(c, d.last)
    && Coded(d.literals, SymbolOf(c))
    && (c.Copy? && CodedOffset(d, c.slot) ==> Coded(d.offsets, (c.offset - BaseOffset(c.slot)) % 8))
  }

  function EncodeOffset(d: Decoder, slot: nat, offset: nat): seq<bool>
    requires slot < 32 && (slot > 0 ==> BaseOffset(slot) <= offset)
    requires CodedOffset(d, slot) ==> HasLength(d.offsets, (offset - BaseOffset(slot)) % 8)
  {
    if slot == 0 then []
    else if CodedOffset(d, slot) then
      var v := offset - BaseOffset(slot);
      BitsOf(v / 8, ExtraBits(slot) - 3) + Code(d.offsets, v % 8)
    else BitsOf(offset - BaseOffset(slot), ExtraBits(slot))
  }

  function EncodeCount(slot: nat, count: nat): seq<bool>
    requires slot < 16 && BaseOffset(slot) + 3 <= count
  {
    BitsOf(count - 3 - BaseOffset(slot), ExtraBits(slot))
  }

  ghost function Encode(d: Decoder, c: Choice): seq<bool>
    requires Encodable(d, c)
  {
    Code(d.literals, SymbolOf(c)) +
    match c
    case Plain(_) => []
    case Copy(slot, offset, countSlot, count) => EncodeOffset(d, slot, offset) + EncodeCount(countSlot, count)
  }

  lemma ReadLongOffset(d: Decoder, slot: nat, offset: nat, rest: seq<bool>, s: Stream)
    requires DecoderOk(d) && s.Valid() && InSlot(slot, offset) && CodedOffset(d, slot) && |rest| >= 16
    requires Coded(d.offsets, (offset - BaseOffset(slot)) % 8)
    requires s.bits == EncodeOffset(d, slot, offset) + rest
    ensures LongOffset(d.offsets, slot, s).Success?
    ensures LongOffset(d.offsets, slot, s).value.0 == offset && LongOffset(d.offsets, slot, s).value.1.bits == rest
  {
    hide NextSymbol, Read, Code, CodeCell, BaseOffset;
    SlotBounds(slot);
    var v, n := offset - BaseOffset(slot), ExtraBits(slot) - 3;
    var code := Code(d.offsets, v % 8);
    assert s.bits == BitsOf(v / 8, n) + (code + rest);
    ReadNumber(v / 8, n, code + rest, s);
    ReadCode(d.offsets, 7, v % 8, rest, Read(s, n).value.1);
  }

  lemma ReadOffsetBack(d: Decoder, slot: nat, offset: nat, rest: seq<bool>, s: Stream)
    requires DecoderOk(d) && s.Valid() && slot < 32 && |rest| >= 16
    requires if slot == 0 then offset == d.last else InSlot(slot, offset)
    requires CodedOffset(d, slot) ==> Coded(d.offsets, (offset - BaseOffset(slot)) % 8)
    requires s.bits == EncodeOffset(d, slot, offset) + rest
    ensures ReadOffset(d, slot, s).Success?
    ensures ReadOffset(d, slot, s).value.0 == offset && ReadOffset(d, slot, s).value.1.bits == rest
  {
    hide NextSymbol, Read, Code, DecoderOk, LongOffset;
    if CodedOffset(d, slot) {
      ReadLongOffset(d, slot, offset, rest, s);
    } else {
      var v := if slot == 0 then 0 else offset - BaseOffset(slot);
      assert BitsOf(0, 0) == [];
      ReadNumber(v, ExtraBits(slot), rest, s);
    }
  }

  /** Decoding undoes the encoding of one token and leaves what follows. */
  lemma ReadTokenBack(d: Decoder, c: Choice, rest: seq<bool>, s: Stream)
    requires DecoderOk(d) && s.Valid() && Encodable(d, c) && |rest| >= 16
    requires s.bits == Encode(d, c) + rest
    ensures ReadToken(d, s).Success?
    ensures ReadToken(d, s).value.0 == TokenOf(c) && ReadToken(d, s).value.1.bits == rest
  {
    hide NextSymbol, Read, Code, DecoderOk, CodeCell, ReadOffset, EncodeOffset, BitsOf, BaseOffset;
    match c
    case Plain(b) =>
      assert s.bits == Code(d.literals, b) + rest;
      ReadCode(d.literals, 12, b, rest, s);
    case Copy(slot, offset, countSlot, count) =>
      var x, y := EncodeOffset(d, slot, offset), EncodeCount(countSlot, count);
      assert s.bits == Code(d.literals, SymbolOf(c)) + (x + (y + rest));
      ReadCode(d.literals, 12, SymbolOf(c), x + (y + rest), s);
      var s1 := NextSymbol(d.literals, 12, s).value.1;
      SlotsOfSymbol(slot, countSlot);
      ReadOffsetBack(d, slot, offset, y + rest, s1);
      var s2 := ReadOffset(d, slot, s1).value.1;
      ReadNumber(count - 3 - BaseOffset(countSlot), ExtraBits(countSlot), rest, s2);
  }

  lemma SlotsOfSymbol(slot: nat, countSlot: nat)
    requires slot < 32 && countSlot < 16
    ensures slot + 32 * countSlot < 512
    ensures (slot + 32 * countSlot) % 32 == slot && (slot + 32 * countSlot) / 32 == countSlot
  {
  }

  // ---------------------------------------------------------------- with nothing to spare

  /** Reading a symbol is decoding with the canonical code, and needs as many bits as the table takes even
      when the code is shorter; that is all it needs. A code never read answers symbol 0 and takes nothing. */
  lemma SymbolIsDecode(lens: seq<nat>, tableBits: nat, s: Stream)
    requires s.Valid() && tableBits <= 16
    ensures NextSymbol(lens, tableBits, s).Success? <==>
              |s.bits| >= tableBits && ((forall i :: 0 <= i < |lens| ==> lens[i] == 0) || Decode(lens, s.bits).Some?)
    ensures NextSymbol(lens, tableBits, s).Success? ==>
              var (symbol, s') := NextSymbol(lens, tableBits, s).value;
              if forall i :: 0 <= i < |lens| ==> lens[i] == 0 then symbol == 0 && s'.bits == s.bits
              else Decode(lens, s.bits) == Some((symbol, s'.bits))
  {
    hide Decode, OneByOne;
    if |s.bits| >= tableBits && !AllZero(lens) && Decode(lens, s.bits).Some? {
      var symbol := Decode(lens, s.bits).value.0;
      if lens[symbol] > tableBits {
        assert s.bits[tableBits..][lens[symbol] - tableBits..] == s.bits[lens[symbol]..];
      }
    }
  }

  /** A written symbol is read exactly when the table has its bits, whatever follows. */
  lemma ReadCodeExactly(lens: seq<nat>, tableBits: nat, symbol: nat, rest: seq<bool>, s: Stream)
    requires s.Valid() && tableBits <= 16 && Coded(lens, symbol) && s.bits == Code(lens, symbol) + rest
    ensures if |s.bits| >= tableBits then
              NextSymbol(lens, tableBits, s).Success? && NextSymbol(lens, tableBits, s).value.0 == symbol
              && NextSymbol(lens, tableBits, s).value.1.bits == rest
            else NextSymbol(lens, tableBits, s) == Failure(OutOfRange)
  {
    hide Code, Decode, NextSymbol;
    assert Code(lens, symbol) <= s.bits && s.bits[lens[symbol]..] == rest;
    DecodeIs(lens, symbol, s.bits);
    SymbolIsDecode(lens, tableBits, s);
    if |s.bits| < tableBits {
      TooFewBits(lens, tableBits, s);
    }
  }

  lemma TooFewBits(lens: seq<nat>, tableBits: nat, s: Stream)
    requires s.Valid() && tableBits <= 16 && |s.bits| < tableBits
    ensures NextSymbol(lens, tableBits, s) == Failure(OutOfRange)
  {
  }

  /** The lookups of a token have the bits they look at: twelve for the symbol, and seven for the coded
      part of an offset. */
  predicate EnoughBits(d: Decoder, c: Choice, rest: seq<bool>)
    requires HasLength(d.literals, SymbolOf(c)) && (c.Copy? ==> c.slot < 32 && c.countSlot < 16 && c.count >= 3 + BaseOffset(c.countSlot))
    requires c.Copy? && CodedOffset(d, c.slot) ==>
               c.offset >= BaseOffset(c.slot) && HasLength(d.offsets, (c.offset - BaseOffset(c.slot)) % 8)
  {
    match c
    case Plain(_) => |Code(d.literals, SymbolOf(c))| + |rest| >= 12
    case Copy(slot, offset, countSlot, count) =>
      && |Code(d.literals, SymbolOf(c))| + (if slot == 0 then 0 else if CodedOffset(d, slot) then
            ExtraBits(slot) - 3 + |Code(d.offsets, (offset - BaseOffset(slot)) % 8)| else ExtraBits(slot))
           + ExtraBits(countSlot) + |rest| >= 12
      && (CodedOffset(d, slot) ==>
            |Code(d.offsets, (offset - BaseOffset(slot)) % 8)| + ExtraBits(countSlot) + |rest| >= 7)
  }

  lemma ReadLongOffsetExactly(d: Decoder, slot: nat, offset: nat, rest: seq<bool>, s: Stream)
    requires DecoderOk(d) && s.Valid() && InSlot(slot, offset) && CodedOffset(d, slot)
    requires Coded(d.offsets, (offset - BaseOffset(slot)) % 8)
    requires s.bits == EncodeOffset(d, slot, offset) + rest
    ensures if |Code(d.offsets, (offset - BaseOffset(slot)) % 8)| + |rest| >= 7 then
              LongOffset(d.offsets, slot, s).Success?
              && LongOffset(d.offsets, slot, s).value.0 == offset && LongOffset(d.offsets, slot, s).value.1.bits == rest
            else LongOffset(d.offsets, slot, s) == Failure(OutOfRange)
  {
    hide NextSymbol, Read, Code, CodeCell, BaseOffset;
    SlotBounds(slot);
    var v, n := offset - BaseOffset(slot), ExtraBits(slot) - 3;
    var code := Code(d.offsets, v % 8);
    assert s.bits == BitsOf(v / 8, n) + (code + rest);
    ReadNumber(v / 8, n, code + rest, s);
    ReadCodeExactly(d.offsets, 7, v % 8, rest, Read(s, n).value.1);
  }

  lemma ReadOffsetExactly(d: Decoder, slot: nat, offset: nat, rest: seq<bool>, s: Stream)
    requires DecoderOk(d) && s.Valid() && slot < 32
    requires if slot == 0 then offset == d.last else InSlot(slot, offset)
    requires CodedOffset(d, slot) ==> Coded(d.offsets, (offset - BaseOffset(slot)) % 8)
    requires s.bits == EncodeOffset(d, slot, offset) + rest
    ensures if CodedOffset(d, slot) ==> |Code(d.offsets, (offset - BaseOffset(slot)) % 8)| + |rest| >= 7 then
              ReadOffset(d, slot, s).Success?
              && ReadOffset(d, slot, s).value.0 == offset && ReadOffset(d, slot, s).value.1.bits == rest
            else ReadOffset(d, slot, s) == Failure(OutOfRange)
  {
    hide NextSymbol, Read, Code, DecoderOk, LongOffset;
    if CodedOffset(d, slot) {
      ReadLongOffsetExactly(d, slot, offset, rest, s);
    } else {
      var v := if slot == 0 then 0 else offset - BaseOffset(slot);
      assert BitsOf(0, 0) == [];
      ReadNumber(v, ExtraBits(slot), rest, s);
    }
  }

  /** A written token is read exactly when its lookups have the bits they look at, whatever follows. */
  lemma ReadTokenExactly(d: Decoder, c: Choice, rest: seq<bool>, s: Stream)
    requires DecoderOk(d) && s.Valid() && Encodable(d, c) && s.bits == Encode(d, c) + rest
    ensures if EnoughBits(d, c, rest) then
              ReadToken(d, s).Success? && ReadToken(d, s).value.0 == TokenOf(c) && ReadToken(d, s).value.1.bits == rest
            else ReadToken(d, s) == Failure(OutOfRange)
  {
    hide NextSymbol, Read, Code, DecoderOk, CodeCell, ReadOffset, EncodeOffset, BitsOf, BaseOffset;
    match c
    case Plain(b) =>
      assert s.bits == Code(d.literals, b) + rest;
      ReadCodeExactly(d.literals, 12, b, rest, s);
    case Copy(slot, offset, countSlot, count) =>
      var x, y := EncodeOffset(d, slot, offset), EncodeCount(countSlot, count);
      assert s.bits == Code(d.literals, SymbolOf(c)) + (x + (y + rest));
      OffsetLength(d, slot, offset);
      ReadCodeExactly(d.literals, 12, SymbolOf(c), x + (y + rest), s);
      if |s.bits| >= 12 {
        var s1 := NextSymbol(d.literals, 12, s).value.1;
        SlotsOfSymbol(slot, countSlot);
        ReadOffsetExactly(d, slot, offset, y + rest, s1);
        if ReadOffset(d, slot, s1).Success? {
          ReadNumber(count - 3 - BaseOffset(countSlot), ExtraBits(countSlot), rest, ReadOffset(d, slot, s1).value.1);
        }
      }
  }

  lemma OffsetLength(d: Decoder, slot: nat, offset: nat)
    requires slot < 32 && (slot > 0 ==> BaseOffset(slot) <= offset)
    requires CodedOffset(d, slot) ==> HasLength(d.offsets, (offset - BaseOffset(slot)) % 8)
    ensures |EncodeOffset(d, slot, offset)| ==
              if slot == 0 then 0 else if CodedOffset(d, slot) then
                ExtraBits(slot) - 3 + |Code(d.offsets, (offset - BaseOffset(slot)) % 8)| else ExtraBits(slot)
  {
  }

  // ---------------------------------------------------------------- nothing else is read

  lemma NumberWritten(s: Stream, n: nat)
    requires s.Valid() && Read(s, n).Success?
    ensures s.bits == BitsOf(Read(s, n).value.0, n) + Read(s, n).value.1.bits
  {
    BitsOfVal(s.bits[..n]);
    assert s.bits == s.bits[..n] + s.bits[n..];
  }

  lemma SymbolWritten(lens: seq<nat>, tableBits: nat, s: Stream)
    requires s.Valid() && tableBits <= 16 && NextSymbol(lens, tableBits, s).Success? && !AllZero(lens)
    ensures var (symbol, s') := NextSymbol(lens, tableBits, s).value;
            Coded(lens, symbol) && s.bits == Code(lens, symbol) + s'.bits
  {
    hide Code, Coded, NextSymbol;
    SymbolIsDecode(lens, tableBits, s);
    var symbol := NextSymbol(lens, tableBits, s).value.0;
    assert Code(lens, symbol) == s.bits[..lens[symbol]];
  }

  lemma LongOffsetWritten(d: Decoder, slot: nat, s: Stream)
    requires DecoderOk(d) && s.Valid() && slot < 32 && CodedOffset(d, slot) && LongOffset(d.offsets, slot, s).Success?
    ensures var (offset, s') := LongOffset(d.offsets, slot, s).value;
            && InSlot(slot, offset) && Coded(d.offsets, (offset - BaseOffset(slot)) % 8)
            && s.bits == EncodeOffset(d, slot, offset) + s'.bits
  {
    hide NextSymbol, Read, Code, Coded, CodeCell, BaseOffset, AllZero;
    SlotBounds(slot);
    var n := ExtraBits(slot) - 3;
    NumberWritten(s, n);
    var (bits, s1) := Read(s, n).value;
    BuiltNotZero(d.offsets, 7, 128);
    SymbolWritten(d.offsets, 7, s1);
    var (low, s2) := NextSymbol(d.offsets, 7, s1).value;
    assert (8 * bits + low) % 8 == low && (8 * bits + low) / 8 == bits;
  }

  lemma BuiltNotZero(lens: seq<nat>, tableBits: nat, size: nat)
    requires 1 <= tableBits <= 16 && HuffmanTables.Build(lens, tableBits, size) == Ok
    ensures !AllZero(lens)
  {
    if AllZero(lens) {
      NoKraft(lens, tableBits);
      NoKraft(lens, 16);
    }
  }

  lemma {:induction false} NoKraft(lens: seq<nat>, max: nat)
    requires AllZero(lens) && max <= 16
    ensures Kraft(lens, max) == 0
  {
    if |lens| > 0 {
      NoKraft(lens[..|lens| - 1], max);
    }
  }

  lemma OffsetWritten(d: Decoder, slot: nat, s: Stream)
    requires DecoderOk(d) && s.Valid() && slot < 32 && ReadOffset(d, slot, s).Success?
    ensures var (offset, s') := ReadOffset(d, slot, s).value;
            && (if slot == 0 then offset == d.last else InSlot(slot, offset))
            && (CodedOffset(d, slot) ==> Coded(d.offsets, (offset - BaseOffset(slot)) % 8))
            && s.bits == EncodeOffset(d, slot, offset) + s'.bits
  {
    hide NextSymbol, Read, Code, Coded, DecoderOk, LongOffset;
    if CodedOffset(d, slot) {
      LongOffsetWritten(d, slot, s);
    } else {
      NumberWritten(s, ExtraBits(slot));
      assert BitsOf(0, 0) == [];
      if slot == 0 {
        assert Read(s, 0).value.0 == 0 && BitsOf(Read(s, 0).value.0, 0) == [];
      }
    }
  }

  ghost predicate MatchOk(d: Decoder, c: Choice) {
    && c.Copy? && ChoiceOk(c, d.last)
    && (CodedOffset(d, c.slot) ==> Coded(d.offsets, (c.offset - BaseOffset(c.slot)) % 8))
  }

  ghost function MatchBits(d: Decoder, c: Choice): seq<bool>
    requires MatchOk(d, c)
  {
    EncodeOffset(d, c.slot, c.offset) + EncodeCount(c.countSlot, c.count)
  }

  lemma MatchWritten(d: Decoder, code: nat, s: Stream) returns (c: Choice)
    requires DecoderOk(d) && s.Valid() && code < 512 && ReadMatch(d, code, s).Success?
    ensures MatchOk(d, c) && SymbolOf(c) == 256 + code && TokenOf(c) == ReadMatch(d, code, s).value.0
    ensures s.bits == MatchBits(d, c) + ReadMatch(d, code, s).value.1.bits
  {
    hide Read, Coded, ReadOffset, EncodeOffset, BitsOf, BaseOffset, DecoderOk;
    var slot, countSlot := code % 32, code / 32;
    OffsetWritten(d, slot, s);
    var (offset, s2) := ReadOffset(d, slot, s).value;
    NumberWritten(s2, ExtraBits(countSlot));
    var bits := Read(s2, ExtraBits(countSlot)).value.0;
    c := Copy(slot, offset, countSlot, BaseOffset(countSlot) + 3 + bits);
    assert EncodeCount(countSlot, c.count) == BitsOf(bits, ExtraBits(countSlot));
  }

  /** Every token the decoder reads with a code that was built is a written one: encodable in exactly the
      bits it took. */
  lemma TokenWritten(d: Decoder, s: Stream) returns (c: Choice)
    requires DecoderOk(d) && s.Valid() && ReadToken(d, s).Success? && !AllZero(d.literals)
    ensures Encodable(d, c) && TokenOf(c) == ReadToken(d, s).value.0
    ensures s.bits == Encode(d, c) + ReadToken(d, s).value.1.bits
  {
    hide NextSymbol, Code, Coded, ReadMatch, EncodeOffset, EncodeCount, AllZero, DecoderOk, ChoiceOk, CodedOffset;
    LiteralCount(d);
    SymbolWritten(d.literals, 12, s);
    var (symbol, s1) := NextSymbol(d.literals, 12, s).value;
    if symbol < 256 {
      c := Plain(symbol);
      PlainChoice(c, d.last);
      assert Encode(d, c) == Code(d.literals, symbol);
    } else {
      c := MatchWritten(d, symbol - 256, s1);
    }
  }

  lemma LiteralCount(d: Decoder)
    requires DecoderOk(d)
    ensures |d.literals| == 768
  {
    hide HuffmanTables.Build;
  }

  lemma PlainChoice(c: Choice, last: nat)
    requires c.Plain?
    ensures ChoiceOk(c, last)
  {
  }

  // ---------------------------------------------------------------- slots for every value

  /** The slot of a value, found by going down from the highest. */
  function SlotFor(v: nat, high: nat): (slot: nat)
    requires high < 32 && v < BaseOffset(high) + Pow2(ExtraBits(high))
    ensures slot <= high && InSlot(slot, v)
    decreases high
  {
    if BaseOffset(high) <= v then high
    else
      SlotsTile(high - 1);
      SlotFor(v, high - 1)
  }

  lemma {:induction false} SlotsInOrder(a: nat, b: nat)
    requires a < b < 32
    ensures BaseOffset(a) + Pow2(ExtraBits(a)) <= BaseOffset(b)
  {
    SlotsTile(b - 1);
    if a < b - 1 {
      SlotsInOrder(a, b - 1);
    }
  }

  /** The 32 slots tile 0..65535 and the first 16 tile 0..255: every value is in exactly one. */
  lemma OneSlot(v: nat, high: nat)
    requires high == 31 || high == 15
    ensures v < (if high == 31 then 65536 else 256) <==> exists slot :: 0 <= slot <= high && InSlot(slot, v)
    ensures forall a, b :: 0 <= a <= high && 0 <= b <= high && InSlot(a, v) && InSlot(b, v) ==> a == b
  {
    SmallPowers();
    BaseOffsetTable(high);
    forall a, b | 0 <= a <= high && 0 <= b <= high && InSlot(a, v) && InSlot(b, v)
      ensures a == b
    {
      if a < b {
        SlotsInOrder(a, b);
      } else if b < a {
        SlotsInOrder(b, a);
      }
    }
    if v < (if high == 31 then 65536 else 256) {
      var slot := SlotFor(v, high);
      assert 0 <= slot <= high && InSlot(slot, v);
    }
    if slot :| 0 <= slot <= high && InSlot(slot, v) {
      SlotBounds(slot);
    }
  }

  /** Every offset from 1 to 65535 and every count from 3 to 258 can be chosen. */
  lemma EverythingHasSlots(offset: nat, count: nat, last: nat)
    requires 1 <= offset <= 65535 && 3 <= count <= 258
    ensures exists c: Choice :: ChoiceOk(c, last) && TokenOf(c) == Match(offset, count)
  {
    SmallPowers();
    BaseOffsetTable(31);
    BaseOffsetTable(15);
    var slot, countSlot := SlotFor(offset, 31), SlotFor(count - 3, 15);
    var c := Copy(slot, offset, countSlot, count);
    assert slot != 0;
    assert ChoiceOk(c, last) && TokenOf(c) == Match(offset, count);
  }

  // ---------------------------------------------------------------- token sequences

  ghost predicate AllEncodable(d: Decoder, cs: seq<Choice>)
    decreases |cs|
  {
    |cs| == 0 || (Encodable(d, cs[0]) && AllEncodable(d.(last := LastAfter(d.last, cs[0])), cs[1..]))
  }

  ghost function EncodeAll(d: Decoder, cs: seq<Choice>): seq<bool>
    requires AllEncodable(d, cs)
    decreases |cs|
  {
    if |cs| == 0 then []
    else Encode(d, cs[0]) + EncodeAll(d.(last := LastAfter(d.last, cs[0])), cs[1..])
  }

  /** Offsets never reach back before the start. */
  predicate Expandable(out: seq<byte>, cs: seq<Choice>)
    decreases |cs|
  {
    if |cs| == 0 then true
    else
      && (cs[0].Copy? ==> 1 <= cs[0].offset <= |out| && cs[0].offset <= 65535)
      && Expandable(Extend(out, cs[0]), cs[1..])
  }

  function Extend(out: seq<byte>, c: Choice): (r: seq<byte>)
    ensures |r| >= |out|
  {
    match c
    case Plain(b) => out + [b]
    case Copy(_, offset, _, count) => if 1 <= offset <= |out| then CopyMatch(out, offset, count) else out
  }

  function Expand(out: seq<byte>, cs: seq<Choice>): (r: seq<byte>)
    ensures |r| >= |out|
    decreases |cs|
  {
    if |cs| == 0 then out else Expand(Extend(out, cs[0]), cs[1..])
  }

  function LastAfterAll(last: nat, cs: seq<Choice>): nat
    decreases |cs|
  {
    if |cs| == 0 then last else LastAfterAll(LastAfter(last, cs[0]), cs[1..])
  }

  /** Every token but the last leaves the output short of `threshold`; the last reaches it. */
  predicate Reaches(out: seq<byte>, cs: seq<Choice>, threshold: nat)
    decreases |cs|
  {
    if |cs| == 0 then |out| >= threshold
    else |out| < threshold && Reaches(Extend(out, cs[0]), cs[1..], threshold)
  }

  lemma {:induction false} DecrunchUndoesEncoding(m: Machine, cs: seq<Choice>, rest: seq<bool>, capacity: nat,
      threshold: nat)
    returns (m': Machine)
    requires MachineOk(m) && AllEncodable(m.decoder, cs) && Expandable(m.out, cs)
    requires m.stream.bits == EncodeAll(m.decoder, cs) + rest && |rest| >= 32
    requires Reaches(m.out, cs, threshold) && |Expand(m.out, cs)| <= capacity
    ensures Decrunch(m, capacity, threshold) == Success(m') && MachineOk(m')
    ensures m'.decoder == m.decoder.(last := LastAfterAll(m.decoder.last, cs))
    ensures m'.out == Expand(m.out, cs) && m'.stream.bits == rest
    decreases |cs|
  {
    hide ReadToken, Encode, Encodable, DecoderOk, CopyMatch;
    if |cs| == 0 {
      m' := m;
      assert m.stream.bits == rest;
    } else {
      var d, c := m.decoder, cs[0];
      var d1 := d.(last := LastAfter(d.last, c));
      var more := EncodeAll(d1, cs[1..]);
      assert m.stream.bits == Encode(d, c) + (more + rest);
      ReadTokenBack(d, c, more + rest, m.stream);
      var m1 := Machine(d1, ReadToken(d, m.stream).value.1, Extend(m.out, c));
      assert Step(m, capacity) == Success(m1);
      m' := DecrunchUndoesEncoding(m1, cs[1..], rest, capacity, threshold);
    }
  }

  /** A run whose last token goes past the capacity fails for want of room. */
  lemma {:induction false} DecrunchOverflows(m: Machine, cs: seq<Choice>, rest: seq<bool>, capacity: nat, threshold: nat)
    requires MachineOk(m) && AllEncodable(m.decoder, cs) && Expandable(m.out, cs)
    requires m.stream.bits == EncodeAll(m.decoder, cs) + rest && |rest| >= 32
    requires Reaches(m.out, cs, threshold) && |m.out| <= capacity < |Expand(m.out, cs)|
    ensures Decrunch(m, capacity, threshold) == Failure(BufferOverflow)
    decreases |cs|
  {
    hide ReadToken, Encode, Encodable, DecoderOk, CopyMatch;
    var d, c := m.decoder, cs[0];
    var d1 := d.(last := LastAfter(d.last, c));
    var more := EncodeAll(d1, cs[1..]);
    assert m.stream.bits == Encode(d, c) + (more + rest);
    ReadTokenBack(d, c, more + rest, m.stream);
    if |Extend(m.out, c)| <= capacity {
      var m1 := Machine(d1, ReadToken(d, m.stream).value.1, Extend(m.out, c));
      assert Step(m, capacity) == Success(m1);
      DecrunchOverflows(m1, cs[1..], rest, capacity, threshold);
    } else {
      assert Step(m, capacity) == Failure(BufferOverflow);
    }
  }
}
