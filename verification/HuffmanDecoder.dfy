/** The block decoder (src/huffman_decoder.cc). */
module HuffmanDecoders {
  import opened Bits
  import opened Errors
  import opened MmapBuffer
  import opened CanonicalCode
  import opened HuffmanTrie
  import opened HuffmanWalk
  import opened HuffmanTables
  import opened HuffmanCount
  import opened DecoderSpec

  // ---------------------------------------------------------------- one symbol

  /** The array answers for the lengths `lens`: it was built for them, or never built at all. */
  ghost predicate Answers(lens: seq<nat>, t: seq<nat>, tableBits: nat) {
    && 1 <= tableBits <= 15 && |lens| > 0 && Pow2(tableBits) <= |t|
    && (Decodes(lens, t, tableBits) || (AllZero(lens) && AllZero(t)))
  }

  lemma DecodesNotAllZero(lens: seq<nat>, t: seq<nat>, tableBits: nat)
    requires Decodes(lens, t, tableBits)
    ensures !AllZero(lens)
  {
    var s := LookupDecodesLong(lens, t, tableBits, seq(16, _ => false));
  }

  lemma NodeInBounds(lens: seq<nat>, t: seq<nat>, tableBits: nat, e: nat, b: nat)
    requires Reachable(lens, t, tableBits, e) && b <= 1
    ensures e < |t|
    ensures t[e] >= |lens| ==> 2 * t[e] + b < |t| && Reachable(lens, t, tableBits, 2 * t[e] + b)
  {
    var path: seq<Cell> :| Sound(lens, t, tableBits, path, FULL, 0) && e < EntryCount(tableBits, path);
    EntryInBounds(lens, t, tableBits, path, e);
  }

  /** Follow overflow nodes from entry `e`, reading one bit for each. */
  function Descend(t: seq<nat>, n: nat, e: nat, s: Stream): (r: Result<(nat, Stream)>)
    requires s.Valid()
    decreases |s.bits|
  {
    if e >= |t| then Failure(IndexFault)
    else if t[e] < n then Success((t[e], s))
    else
      var (bit, s') :- Read(s, 1);
      Descend(t, n, 2 * t[e] + bit, s')
  }

  lemma ReadOneBit(s: Stream)
    requires s.Valid() && |s.bits| > 0
    ensures Read(s, 1).Success? && Read(s, 1).value.0 == Bit(s.bits[0])
    ensures Read(s, 1).value.1 == OneByOne(s, 1)
  {
    assert s.bits[..1] == [s.bits[0]];
    assert [s.bits[0]][1..] == [];
  }

  /** Reading bit by bit from the stream is the walk over the bits. */
  lemma {:induction false} DescendIsWalk(lens: seq<nat>, t: seq<nat>, tableBits: nat, e: nat, s: Stream)
    requires s.Valid() && Reachable(lens, t, tableBits, e)
    ensures match WalkNodes(t, |lens|, e, s.bits)
            case None => Descend(t, |lens|, e, s) == Failure(OutOfRange)
            case Some((symbol, rest)) =>
              && |rest| <= |s.bits|
              && Descend(t, |lens|, e, s) == Success((symbol, OneByOne(s, |s.bits| - |rest|)))
    decreases |s.bits|
  {
    hide Reachable, Read, OneByOne;
    NodeInBounds(lens, t, tableBits, e, 0);
    if t[e] < |lens| {
      assert s.bits == s.bits[0..];
    } else if |s.bits| > 0 {
      ReadOneBit(s);
      var e', s' := 2 * t[e] + Bit(s.bits[0]), Read(s, 1).value.1;
      NodeInBounds(lens, t, tableBits, e, Bit(s.bits[0]));
      DescendIsWalk(lens, t, tableBits, e', s');
      assert WalkNodes(t, |lens|, e, s.bits) == WalkNodes(t, |lens|, e', s'.bits);
      assert Descend(t, |lens|, e, s) == Descend(t, |lens|, e', s');
      if WalkNodes(t, |lens|, e', s'.bits).Some? {
        FirstThenRest(s, |s.bits| - |WalkNodes(t, |lens|, e', s'.bits).value.1|);
      }
    }
  }

  lemma FirstThenRest(s: Stream, k: nat)
    requires s.Valid() && 1 <= k <= |s.bits|
    ensures OneByOne(s, k) == OneByOne(Read(s, 1).value.1, k - 1)
  {
  }

  lemma LongSymbol(lens: seq<nat>, tableBits: nat, s0: Stream)
    requires s0.Valid() && tableBits <= |s0.bits| && tableBits <= 16 && !AllZero(lens)
    ensures Decode(lens, s0.bits).None? ==> NextSymbol(lens, tableBits, s0) == Failure(OutOfRange)
    ensures Decode(lens, s0.bits).Some? && lens[Decode(lens, s0.bits).value.0] > tableBits ==>
              var symbol := Decode(lens, s0.bits).value.0;
              NextSymbol(lens, tableBits, s0) == Success((symbol, OneByOne(Read(s0, tableBits).value.1, lens[symbol] - tableBits)))
  {
    assert Read(Peek(s0, tableBits).value.1, tableBits) == Read(s0, tableBits);
  }

  /** A symbol not found in the direct table is found below it. */
  lemma BelowTable(lens: seq<nat>, t: seq<nat>, tableBits: nat, s0: Stream)
    requires Decodes(lens, t, tableBits) && s0.Valid() && tableBits <= |s0.bits| && tableBits <= 15
    ensures Val(s0.bits[..tableBits]) < |t| && Reachable(lens, t, tableBits, Val(s0.bits[..tableBits]))
    ensures t[Val(s0.bits[..tableBits])] >= |lens| ==>
              Descend(t, |lens|, Val(s0.bits[..tableBits]), Read(s0, tableBits).value.1) == NextSymbol(lens, tableBits, s0)
  {
    hide Decodes, Reachable, Decode, AllZero, Descend, NextSymbol, OneByOne, Val;
    var e, input := Val(s0.bits[..tableBits]), s0.bits;
    DirectIsShort(lens, t, tableBits, input);
    if t[e] >= |lens| {
      DecodesNotAllZero(lens, t, tableBits);
      LookupIsDecode(lens, t, tableBits, input);
      DescendIsWalk(lens, t, tableBits, e, Read(s0, tableBits).value.1);
      if Decode(lens, input).Some? {
        BelowTableLength(lens, t, tableBits, input);
      }
      SymbolBelow(lens, t, tableBits, e, s0, Read(s0, tableBits).value.1);
    }
  }

  lemma SymbolBelow(lens: seq<nat>, t: seq<nat>, tableBits: nat, e: nat, s0: Stream, s2: Stream)
    requires s0.Valid() && tableBits <= |s0.bits| && tableBits <= 16 && !AllZero(lens)
    requires Read(s0, tableBits).value.1 == s2
    requires WalkNodes(t, |lens|, e, s2.bits) == Decode(lens, s0.bits)
    requires match Decode(lens, s0.bits)
             case None => Descend(t, |lens|, e, s2) == Failure(OutOfRange)
             case Some((symbol, rest)) =>
               && lens[symbol] > tableBits && |rest| <= |s2.bits|
               && Descend(t, |lens|, e, s2) == Success((symbol, OneByOne(s2, |s2.bits| - |rest|)))
    ensures Descend(t, |lens|, e, s2) == NextSymbol(lens, tableBits, s0)
  {
    LongSymbol(lens, tableBits, s0);
  }

  lemma BelowTableLength(lens: seq<nat>, t: seq<nat>, tableBits: nat, input: seq<bool>)
    requires Decodes(lens, t, tableBits) && tableBits <= |input| && Decode(lens, input).Some?
    requires Val(input[..tableBits]) < |t| && t[Val(input[..tableBits])] >= |lens|
    ensures lens[Decode(lens, input).value.0] > tableBits
  {
    var s, more := Decode(lens, input).value.0, seq(16, _ => false);
    assert (input + more)[..tableBits] == input[..tableBits];
    var path: seq<Cell> :| Sound(lens, t, tableBits, path, FULL, 0);
    NodeMeansLong(lens, t, tableBits, path, input + more, s);
  }

  /** Below the table: one more bit for every overflow node. */
  method WalkDown(table: HuffmanTable, source: InputBuffer, first: nat)
    returns (status: Status, symbol: nat)
    requires table.Valid() && source.Valid()
    requires Reachable(table.bitLength[..], table.table[..], table.tableBits, first)
    modifies source
    ensures source.Valid()
    ensures match Descend(table.table[..], table.bitLength.Length, first, old(source.View()))
            case Success((v, s)) => status == Ok && symbol == v && source.View() == s
            case Failure(e) => status == e && e != Ok
  {
    hide InputBuffer.View, InputBuffer.Valid, Read;
    ghost var lens, t, tableBits := table.bitLength[..], table.table[..], table.tableBits;
    ghost var s, all := source.View(), Descend(table.table[..], table.bitLength.Length, first, source.View());
    var e := first;
    NodeInBounds(lens, t, tableBits, e, 0);
    symbol := table.table[e];
    while symbol >= table.bitLength.Length
      invariant source.Valid() && source.View() == s
      invariant Reachable(lens, t, tableBits, e) && e < |t| && symbol == t[e]
      invariant Descend(t, |lens|, e, s) == all
      decreases |s.bits|
    {
      var bit;
      status, bit := source.ReadBits(1);
      if status != Ok {
        return;
      }
      NodeInBounds(lens, t, tableBits, e, bit);
      e := 2 * symbol + bit;
      NodeInBounds(lens, t, tableBits, e, 0);
      symbol := table.table[e];
      s := source.View();
    }
    status := Ok;
  }

  /** A symbol found in the direct table. */
  lemma SymbolInTable(lens: seq<nat>, t: seq<nat>, tableBits: nat, s0: Stream)
    requires Decodes(lens, t, tableBits) && s0.Valid() && tableBits <= |s0.bits| && tableBits <= 15
    requires Val(s0.bits[..tableBits]) < |t| && t[Val(s0.bits[..tableBits])] < |lens|
    ensures var symbol, s1 := t[Val(s0.bits[..tableBits])], Peek(s0, tableBits).value.1;
            && Read(s1, lens[symbol]).Success?
            && NextSymbol(lens, tableBits, s0) == Success((symbol, Read(s1, lens[symbol]).value.1))
  {
    hide Decodes, Reachable, WalkNodes, Decode;
    DecodesNotAllZero(lens, t, tableBits);
    DirectIsShort(lens, t, tableBits, s0.bits);
    LookupIsDecode(lens, t, tableBits, s0.bits);
  }

  /** A table never built answers 0. */
  lemma SymbolOfNothing(lens: seq<nat>, t: seq<nat>, tableBits: nat, s0: Stream)
    requires AllZero(lens) && AllZero(t) && |lens| > 0 && Pow2(tableBits) <= |t|
    requires s0.Valid() && tableBits <= |s0.bits| && tableBits <= 15
    ensures var s1 := Peek(s0, tableBits).value.1;
            && t[Val(s0.bits[..tableBits])] == 0
            && Read(s1, lens[0]).Success?
            && NextSymbol(lens, tableBits, s0) == Success((0, Read(s1, lens[0]).value.1))
  {
    hide Decode;
    var s1 := Peek(s0, tableBits).value.1;
    assert s1.bits[0..] == s1.bits;
  }

  /** What the direct table says about the next symbol. */
  lemma DirectSymbol(lens: seq<nat>, t: seq<nat>, tableBits: nat, s0: Stream)
    requires Answers(lens, t, tableBits) && s0.Valid() && Peek(s0, tableBits).Success?
    ensures var (e, s1) := Peek(s0, tableBits).value;
            && e < |t|
            && (t[e] >= |lens| ==>
                  && Reachable(lens, t, tableBits, e)
                  && Read(s1, tableBits).Success?
                  && NextSymbol(lens, tableBits, s0) == Descend(t, |lens|, e, Read(s1, tableBits).value.1))
            && (t[e] < |lens| ==>
                  && Read(s1, lens[t[e]]).Success?
                  && NextSymbol(lens, tableBits, s0) == Success((t[e], Read(s1, lens[t[e]]).value.1)))
  {
    hide Decodes, Reachable, NextSymbol, Descend, Read, AllZero;
    var e := Val(s0.bits[..tableBits]);
    if Decodes(lens, t, tableBits) {
      BelowTable(lens, t, tableBits, s0);
      if t[e] < |lens| {
        SymbolInTable(lens, t, tableBits, s0);
      } else {
        ReadAfterPeek(s0, tableBits);
      }
    } else {
      SymbolOfNothing(lens, t, tableBits, s0);
    }
  }

  lemma ReadAfterPeek(s: Stream, n: nat)
    requires s.Valid() && Peek(s, n).Success?
    ensures Read(Peek(s, n).value.1, n) == Read(s, n)
  {
  }

  /** Read `tableBits` bits worth of table, then single bits below it, as all three tables are read. */
  method ReadSymbol(table: HuffmanTable, source: InputBuffer) returns (status: Status, symbol: nat)
    requires table.Valid() && source.Valid()
    requires Answers(table.bitLength[..], table.table[..], table.tableBits)
    modifies source
    ensures source.Valid()
    ensures match NextSymbol(table.bitLength[..], table.tableBits, old(source.View()))
            case Success((v, s)) => status == Ok && symbol == v && source.View() == s
            case Failure(e) => status == e && e != Ok
  {
    hide InputBuffer.View, InputBuffer.Valid, Read;
    ghost var s0 := source.View();
    var peeked;
    status, peeked := source.PeekBits(table.tableBits);
    if status != Ok {
      return status, 0;
    }
    DirectSymbol(table.bitLength[..], table.table[..], table.tableBits, s0);
    symbol := table.table[peeked];
    if symbol < table.bitLength.Length {
      var unused;
      status, unused := source.ReadBits(table.bitLength[symbol]);
    } else {
      var unused;
      status, unused := source.ReadBits(table.tableBits);
      status, symbol := WalkDown(table, source, peeked);
    }
  }

  // ---------------------------------------------------------------- code lengths

  function Prepend(done: seq<nat>, rest: Result<(seq<nat>, Stream)>): Result<(seq<nat>, Stream)> {
    match rest
    case Failure(e) => Failure(e)
    case Success((vs, s)) => Success((done + vs, s))
  }

  lemma PrependNothing(rest: Result<(seq<nat>, Stream)>)
    ensures Prepend([], rest) == rest
  {
    if rest.Success? {
      assert [] + rest.value.0 == rest.value.0;
    }
  }

  lemma PrependStep(done: seq<nat>, s: Stream, n: nat, w: nat)
    requires s.Valid() && w <= 16 && n > 0
    ensures Prepend(done, ReadMany(s, n, w)) ==
              match Read(s, w)
              case Failure(e) => Failure(e)
              case Success((v, s')) => Prepend(done + [v], ReadMany(s', n - 1, w))
  {
    if Read(s, w).Success? && ReadMany(Read(s, w).value.1, n - 1, w).Success? {
      var v, vs := Read(s, w).value.0, ReadMany(Read(s, w).value.1, n - 1, w).value.0;
      assert done + ([v] + vs) == (done + [v]) + vs;
    }
  }

  /** Fill all code lengths of a table with numbers of `w` bits. */
  method ReadLengths(table: HuffmanTable, source: InputBuffer, w: nat) returns (status: Status)
    requires table.Valid() && source.Valid() && w <= 16
    modifies table.bitLength, source
    ensures source.Valid()
    ensures match ReadMany(old(source.View()), table.bitLength.Length, w)
            case Success((vs, s)) => status == Ok && table.bitLength[..] == vs && source.View() == s
            case Failure(e) => status == e && e != Ok
  {
    hide InputBuffer.View, InputBuffer.Valid, Read;
    var n := table.bitLength.Length;
    ghost var s, done: seq<nat> := source.View(), [];
    ghost var all := ReadMany(s, n, w);
    PrependNothing(all);
    var i: nat := 0;
    while i < n
      invariant i <= n && source.Valid() && source.View() == s
      invariant table.bitLength[..i] == done
      invariant all == Prepend(done, ReadMany(s, n - i, w))
    {
      PrependStep(done, s, n - i, w);
      var val;
      status, val := source.ReadBits(w);
      if status != Ok {
        return;
      }
      table.bitLength[i] := val;
      i := i + 1;
      done, s := done + [val], source.View();
    }
    assert table.bitLength[..n] == table.bitLength[..];
    assert done + [] == done;
    status := Ok;
  }

  /** Set `n` lengths from `pos` on to `v`, but none beyond `max`. */
  method FillLengths(lengths: array<nat>, pos: nat, count: nat, max: nat, v: nat) returns (n: nat)
    requires pos <= max <= lengths.Length
    modifies lengths
    ensures n == Min(count, max - pos)
    ensures lengths[..] == FillRange(old(lengths[..]), pos, n, v)
  {
    n := Min(count, max - pos);
    forall i | pos <= i < pos + n {
      lengths[i] := v;
    }
  }

  /** Symbols 17 and 18: a run of zeros. */
  method ParseZeroRun(lengths: array<nat>, source: InputBuffer, pos: nat, max: nat, base: nat, w: nat)
    returns (status: Status, pos': nat)
    requires lengths.Length == 768 && LengthsOk(lengths[..]) && source.Valid()
    requires pos < max <= 768 && base > 0
    modifies lengths, source
    ensures source.Valid()
    ensures match ZeroRun(Progress(old(lengths[..]), pos, old(source.View())), max, base, w)
            case Success(p) =>
              status == Ok && pos' == p.pos && lengths[..] == p.lengths && source.View() == p.stream
            case Failure(e) => status == e && e != Ok
  {
    hide InputBuffer.View, InputBuffer.Valid, Read;
    var bits;
    pos' := pos;
    status, bits := source.ReadBits(w);
    if status == Ok {
      var n := FillLengths(lengths, pos, base + bits, max, 0);
      pos' := pos + n;
    }
  }

  /** Symbol 19: a run of one length. */
  method ParseRepeatRun(pre: HuffmanTable, lengths: array<nat>, source: InputBuffer, pos: nat, max: nat, fix: nat)
    returns (status: Status, pos': nat)
    requires pre.Valid() && pre.bitLength.Length == 20 && pre.tableBits == 6
    requires Answers(pre.bitLength[..], pre.table[..], 6)
    requires lengths != pre.bitLength && lengths != pre.table && source.Valid()
    requires lengths.Length == 768 && LengthsOk(lengths[..])
    requires pos < max <= 768
    modifies lengths, source
    ensures source.Valid()
    ensures match RepeatRun(pre.bitLength[..], Progress(old(lengths[..]), pos, old(source.View())), max, fix)
            case Success(p) =>
              status == Ok && pos' == p.pos && lengths[..] == p.lengths && source.View() == p.stream
            case Failure(e) => status == e && e != Ok
  {
    hide InputBuffer.View, InputBuffer.Valid, Read, NextSymbol, Answers, FillRange;
    var bits, delta;
    pos' := pos;
    status, bits := source.ReadBits(1);
    if status != Ok {
      return;
    }
    status, delta := ReadSymbol(pre, source);
    if status != Ok {
      return;
    }
    if lengths[pos] + 17 < delta {
      return IndexFault, pos;
    }
    var value := BaseValueAt(lengths[pos] + 17 - delta);
    var n := FillLengths(lengths, pos, 3 + bits + fix, max, value);
    pos' := pos + n;
  }

  /** One pre-tree symbol with its extra bits. */
  method ParseSymbol(pre: HuffmanTable, lengths: array<nat>, source: InputBuffer, pos: nat, max: nat, fix: nat)
    returns (status: Status, pos': nat)
    requires pre.Valid() && pre.bitLength.Length == 20 && pre.tableBits == 6
    requires Answers(pre.bitLength[..], pre.table[..], 6)
    requires lengths != pre.bitLength && lengths != pre.table && source.Valid()
    requires lengths.Length == 768 && LengthsOk(lengths[..])
    requires pos < max <= 768 && fix <= 1
    modifies lengths, source
    ensures source.Valid()
    ensures match ParseOne(pre.bitLength[..], Progress(old(lengths[..]), pos, old(source.View())), max, fix)
            case Success(p) =>
              status == Ok && pos' == p.pos && lengths[..] == p.lengths && source.View() == p.stream
            case Failure(e) => status == e && e != Ok
  {
    hide InputBuffer.View, InputBuffer.Valid, Read, NextSymbol, Answers, ZeroRun, RepeatRun, FillRange;
    var symbol;
    pos' := pos;
    status, symbol := ReadSymbol(pre, source);
    if status != Ok {
      return;
    }
    if symbol == 17 {
      status, pos' := ParseZeroRun(lengths, source, pos, max, 3 + fix, 4);
    } else if symbol == 18 {
      status, pos' := ParseZeroRun(lengths, source, pos, max, 19 + fix, 6 - fix);
    } else if symbol == 19 {
      status, pos' := ParseRepeatRun(pre, lengths, source, pos, max, fix);
    } else {
      if lengths[pos] + 17 < symbol {
        return IndexFault, pos;
      }
      var value := BaseValueAt(lengths[pos] + 17 - symbol);
      lengths[pos] := value;
      pos' := pos + 1;
    }
  }

  /** Pre-tree symbols up to entry `max`. */
  method ParseSymbols(pre: HuffmanTable, lengths: array<nat>, source: InputBuffer, start: nat, max: nat, fix: nat)
    returns (status: Status)
    requires pre.Valid() && pre.bitLength.Length == 20 && pre.tableBits == 6
    requires Answers(pre.bitLength[..], pre.table[..], 6)
    requires lengths != pre.bitLength && lengths != pre.table && source.Valid()
    requires lengths.Length == 768 && LengthsOk(lengths[..])
    requires start <= max <= 768 && fix <= 1
    modifies lengths, source
    ensures source.Valid()
    ensures match ParseUntil(pre.bitLength[..], Progress(old(lengths[..]), start, old(source.View())), max, fix)
            case Success(p) => status == Ok && lengths[..] == p.lengths && source.View() == p.stream
            case Failure(e) => status == e && e != Ok
  {
    hide InputBuffer.View, InputBuffer.Valid, Read;
    ghost var lens := pre.bitLength[..];
    ghost var p := Progress(lengths[..], start, source.View());
    ghost var all := ParseUntil(lens, p, max, fix);
    var pos := start;
    while pos < max
      invariant source.Valid() && lengths.Length == 768
      invariant p.lengths == lengths[..] && p.pos == pos && p.stream == source.View()
      invariant ProgressOk(p) && pos <= max
      invariant ParseUntil(lens, p, max, fix) == all
      decreases max - pos
    {
      status, pos := ParseSymbol(pre, lengths, source, pos, max, fix);
      if status != Ok {
        return;
      }
      p := Progress(lengths[..], pos, source.View());
    }
    status := Ok;
  }

  /** Build the array of a table. */
  method BuildTable(table: HuffmanTable) returns (status: Status)
    requires table.Valid()
    modifies table.table
    ensures status == Build(table.bitLength[..], table.tableBits, table.table.Length)
    ensures status == Ok ==> Answers(table.bitLength[..], table.table[..], table.tableBits)
  {
    status := table.ResetTable();
  }

  /** One pass over the literal lengths. */
  method ParseOnePass(pre: HuffmanTable, lengths: array<nat>, source: InputBuffer, start: nat, max: nat, fix: nat)
    returns (status: Status)
    requires pre.Valid() && pre.bitLength.Length == 20 && pre.tableBits == 6 && pre.table.Length == 96
    requires lengths != pre.bitLength && lengths != pre.table && source.Valid()
    requires lengths.Length == 768 && LengthsOk(lengths[..])
    requires start <= max <= 768 && fix <= 1
    modifies lengths, source, pre.bitLength, pre.table
    ensures source.Valid()
    ensures match ParsePass(Progress(old(lengths[..]), start, old(source.View())), max, fix)
            case Success(p) => status == Ok && lengths[..] == p.lengths && source.View() == p.stream
            case Failure(e) => status == e && e != Ok
  {
    hide InputBuffer.View, InputBuffer.Valid, Read;
    status := ReadLengths(pre, source, 4);
    if status != Ok {
      return;
    }
    status := BuildTable(pre);
    if status != Ok {
      return;
    }
    status := ParseSymbols(pre, lengths, source, start, max, fix);
  }

  /** Both passes. */
  method ParseAllLengths(pre: HuffmanTable, lengths: array<nat>, source: InputBuffer)
    returns (status: Status)
    requires pre.Valid() && pre.bitLength.Length == 20 && pre.tableBits == 6 && pre.table.Length == 96
    requires lengths != pre.bitLength && lengths != pre.table && source.Valid()
    requires lengths.Length == 768 && LengthsOk(lengths[..])
    modifies lengths, source, pre.bitLength, pre.table
    ensures source.Valid()
    ensures match ParseLengths(old(lengths[..]), old(source.View()))
            case Success((lens, s)) => status == Ok && lengths[..] == lens && source.View() == s
            case Failure(e) => status == e && e != Ok
  {
    hide InputBuffer.View, InputBuffer.Valid, Read;
    status := ParseOnePass(pre, lengths, source, 0, 256, 1);
    if status != Ok {
      return;
    }
    status := ParseOnePass(pre, lengths, source, 256, 768, 0);
  }

  // ---------------------------------------------------------------- the decoder object

  class HuffmanDecoder {
    const offsets: HuffmanTable
    const huffman20: HuffmanTable
    const literals: HuffmanTable

    var decrunchMode: nat
    var decrunchLength: nat
    var lastOffset: nat

    constructor ()
      ensures Valid() && State() == InitialDecoder()
      ensures fresh(offsets.bitLength) && fresh(offsets.table)
      ensures fresh(huffman20.bitLength) && fresh(huffman20.table)
      ensures fresh(literals.bitLength) && fresh(literals.table)
    {
      TableSizes();
      offsets := new HuffmanTable(7, 8, 128);
      huffman20 := new HuffmanTable(6, 20, 96);
      literals := new HuffmanTable(12, 768, 5120);
      decrunchMode, decrunchLength, lastOffset := 0, 0, 1;
    }

    /** The shape of the three tables, which never changes. */
    ghost predicate Shape() {
      && offsets.Valid() && offsets.tableBits == 7 && offsets.bitLength.Length == 8 && offsets.table.Length == 128
      && huffman20.Valid() && huffman20.tableBits == 6 && huffman20.bitLength.Length == 20 && huffman20.table.Length == 96
      && literals.Valid() && literals.tableBits == 12 && literals.bitLength.Length == 768 && literals.table.Length == 5120
      && Distinct([offsets.bitLength, offsets.table, huffman20.bitLength, huffman20.table, literals.bitLength,
          literals.table])
    }

    ghost predicate Valid()
      reads this, offsets.bitLength, offsets.table, literals.bitLength, literals.table
      ensures Valid() ==> Shape() && DecoderOk(State())
    {
      && Shape()
      && DecoderOk(State())
      && Answers(literals.bitLength[..], literals.table[..], 12)
      && (decrunchMode == 3 ==> Answers(offsets.bitLength[..], offsets.table[..], 7))
    }

    ghost function State(): Decoder
      reads this, offsets.bitLength, literals.bitLength
    {
      Decoder(decrunchMode, offsets.bitLength[..], literals.bitLength[..], lastOffset)
    }

    /** The method, and for method 3 the offset code. */
    method ReadOffsetTable(source: InputBuffer) returns (status: Status)
      requires Valid() && source.Valid()
      modifies this, source, offsets.bitLength, offsets.table
      ensures Shape() && source.Valid()
      ensures match ReadOffsetLengths(old(State()), old(source.View()))
              case Success((d, s)) => status == Ok && Valid() && State() == d && source.View() == s
              case Failure(e) => status == e && e != Ok
    {
      hide InputBuffer.View, InputBuffer.Valid, Read;
      var mode;
      status, mode := source.ReadBits(3);
      if status != Ok {
        return;
      }
      decrunchMode := mode;
      if decrunchMode == 3 {
        status := ReadLengths(offsets, source, 3);
        if status != Ok {
          return;
        }
        status := BuildTable(offsets);
      }
    }

    /** The length of the block, a 24-bit number, high byte first. */
    method ReadDecrunchLength(source: InputBuffer) returns (status: Status)
      requires source.Valid()
      modifies this`decrunchLength, source
      ensures source.Valid()
      ensures match ReadLength(old(source.View()))
              case Success((length, s)) => status == Ok && decrunchLength == length && source.View() == s
              case Failure(e) => status == e && e != Ok
    {
      hide InputBuffer.View, InputBuffer.Valid, Read;
      var hi, low;
      status, hi := source.ReadBits(8);
      if status != Ok {
        return;
      }
      status, low := ReadMidAndLow(source);
      if status != Ok {
        return;
      }
      decrunchLength := 65536 * hi + low;
    }

    /** The literal code. */
    method ReadLiteralCode(source: InputBuffer) returns (status: Status)
      requires Valid() && source.Valid()
      modifies source, huffman20.bitLength, huffman20.table, literals.bitLength, literals.table
      ensures Shape() && source.Valid()
      ensures match ReadLiterals(old(State()), old(source.View()))
              case Success((d, s)) => status == Ok && Valid() && State() == d && source.View() == s
              case Failure(e) => status == e && e != Ok
    {
      hide InputBuffer.View, InputBuffer.Valid, Read, Build, ParseLengths;
      if decrunchMode == 1 {
        return Ok;
      }
      status := ParseAllLengths(huffman20, literals.bitLength, source);
      if status != Ok {
        return;
      }
      status := BuildTable(literals);
    }

    /** Read a block header. On success the decoder is ready for the block's tokens. */
    method ReadLiteralTable(source: InputBuffer) returns (status: Status)
      requires Valid() && source.Valid()
      modifies this, source, offsets.bitLength, offsets.table, huffman20.bitLength, huffman20.table,
               literals.bitLength, literals.table
      ensures Shape() && source.Valid()
      ensures match ReadHeader(old(State()), old(source.View()))
              case Success((d, length, s)) =>
                status == Ok && Valid() && State() == d && decrunchLength == length && source.View() == s
              case Failure(e) => status == e && e != Ok
    {
      hide InputBuffer.View, InputBuffer.Valid, Read;
      status := ReadOffsetTable(source);
      if status != Ok {
        return;
      }
      status := ReadDecrunchLength(source);
      if status != Ok {
        return;
      }
      status := ReadLiteralCode(source);
    }

    /** The offset of a match. */
    method ReadOffsetField(slot: nat, source: InputBuffer) returns (status: Status, offset: nat)
      requires Valid() && source.Valid() && slot < 32
      modifies source
      ensures Valid() && State() == old(State()) && source.Valid()
      ensures match ReadOffset(State(), slot, old(source.View()))
              case Success((v, s)) => status == Ok && offset == v && source.View() == s
              case Failure(e) => status == e && e != Ok
    {
      hide InputBuffer.View, InputBuffer.Valid, Read;
      var extra := ExtraBitsAt(slot);
      if extra >= 3 && decrunchMode == 3 {
        status, offset := ReadLongOffset(offsets, slot, source);
      } else {
        status, offset := ReadShortOffset(lastOffset, slot, source);
      }
    }

    /** The token at the reader's position; a match also sets the last offset. */
    method DecodeToken(source: InputBuffer) returns (status: Status, token: Token)
      requires Valid() && source.Valid()
      modifies source
      ensures Valid() && State() == old(State()) && source.Valid()
      ensures match ReadToken(State(), old(source.View()))
              case Success((t, s)) => status == Ok && token == t && source.View() == s
              case Failure(e) => status == e && e != Ok
    {
      hide InputBuffer.View, InputBuffer.Valid, Read;
      token := Literal(0);
      var symbol;
      status, symbol := ReadSymbol(literals, source);
      if status != Ok {
        return;
      }
      if symbol < 256 {
        token := Literal(symbol);
      } else {
        status, token := DecodeMatch(symbol - 256, source);
      }
    }

    method DecodeMatch(code: nat, source: InputBuffer) returns (status: Status, token: Token)
      requires Valid() && source.Valid() && code < 512
      modifies source
      ensures Valid() && State() == old(State()) && source.Valid()
      ensures match ReadMatch(State(), code, old(source.View()))
              case Success((t, s)) => status == Ok && token == t && source.View() == s
              case Failure(e) => status == e && e != Ok
    {
      hide InputBuffer.View, InputBuffer.Valid, Read;
      token := Literal(0);
      var offset, count;
      status, offset := ReadOffsetField(code % 32, source);
      if status != Ok {
        return;
      }
      status, count := ReadCountField(code / 32, source);
      token := Match(offset, count);
    }

    /** Decode one token into `target` at `pos`. */
    method DecodeStep(source: InputBuffer, target: array<byte>, pos: nat) returns (status: Status, pos': nat)
      requires Valid() && source.Valid() && pos <= target.Length
      modifies this`lastOffset, source, target
      ensures source.Valid() && Shape()
      ensures match Step(Machine(old(State()), old(source.View()), old(target[..pos])), target.Length)
              case Success(m) =>
                && status == Ok && Valid() && State() == m.decoder && source.View() == m.stream
                && pos' == |m.out| <= target.Length && target[..pos'] == m.out
              case Failure(e) => status == e && e != Ok
    {
      hide InputBuffer.View, ReadToken, CopyMatch, DecoderOk;
      var token;
      pos' := pos;
      status, token := DecodeToken(source);
      if status != Ok {
        return;
      }
      if token.Match? {
        lastOffset := token.offset;
      }
      status, pos' := ApplyToken(token, target, pos);
    }

    /** Decode tokens until `threshold` bytes are there or the input is used up. */
    method DecrunchInto(source: InputBuffer, target: array<byte>, start: nat, threshold: nat)
      returns (status: Status, pos: nat)
      requires Valid() && source.Valid() && start <= target.Length
      modifies this`lastOffset, source, target
      ensures source.Valid() && Shape()
      ensures match Decrunch(Machine(old(State()), old(source.View()), old(target[..start])), target.Length, threshold)
              case Success(m) =>
                && status == Ok && Valid() && State() == m.decoder && source.View() == m.stream
                && pos == |m.out| <= target.Length && target[..pos] == m.out
              case Failure(e) => status == e && e != Ok
    {
      hide InputBuffer.View, InputBuffer.Valid, Read;
      ghost var m := Machine(State(), source.View(), target[..start]);
      ghost var all := Decrunch(m, target.Length, threshold);
      pos := start;
      while pos < threshold
        invariant source.Valid() && Valid() && pos == |m.out| <= target.Length
        invariant m.decoder == State() && m.stream == source.View() && m.out == target[..pos]
        invariant Decrunch(m, target.Length, threshold) == all
        decreases threshold - pos
      {
        var eof := source.IsEof();
        if eof {
          return Ok, pos;
        }
        status, pos := DecodeStep(source, target, pos);
        if status != Ok {
          return;
        }
        m := Machine(State(), source.View(), target[..pos]);
      }
      status := Ok;
    }
  }

  /** Append a token to the first `pos` bytes of `target`. */
  method ApplyToken(token: Token, target: array<byte>, pos: nat) returns (status: Status, pos': nat)
    requires pos <= target.Length && (token.Match? ==> token.offset >= 1 && token.count >= 1)
    modifies target
    ensures match Apply(token, old(target[..pos]), target.Length)
            case Success(out) => status == Ok && pos' == |out| <= target.Length && target[..pos'] == out
            case Failure(e) => status == e && e != Ok
  {
    pos' := pos;
    match token
    case Literal(b) =>
      if pos >= target.Length {
        return BufferOverflow, pos;
      }
      ghost var out := target[..pos];
      target[pos] := b;
      pos' := pos + 1;
      assert target[..pos'] == out + [b];
      status := Ok;
    case Match(offset, count) =>
      if offset > pos {
        return OutOfRange, pos;
      }
      if pos + count > target.Length {
        return BufferOverflow, pos;
      }
      pos' := CopyBytes(target, pos, offset, count);
      status := Ok;
  }

  /** The copy loop: source and destination may overlap. */
  method CopyBytes(target: array<byte>, pos: nat, offset: nat, count: nat) returns (pos': nat)
    requires 1 <= offset <= pos && pos + count <= target.Length
    modifies target
    ensures pos' == pos + count
    ensures target[..pos'] == CopyMatch(old(target[..pos]), offset, count)
  {
    var start := pos - offset;
    var i: nat := 0;
    pos' := pos;
    ghost var all := CopyMatch(target[..pos], offset, count);
    while i < count
      invariant i <= count && pos' == pos + i
      invariant CopyMatch(target[..pos'], offset, count - i) == all
    {
      ghost var out := target[..pos'];
      target[pos'] := target[start + i];
      pos' := pos' + 1;
      i := i + 1;
      assert target[..pos'] == out + [out[|out| - offset]];
    }
  }

  /** A symbol of a code all of whose lengths fit the table: one lookup, no walk. */
  method ReadShortSymbol(table: HuffmanTable, source: InputBuffer) returns (status: Status, symbol: nat)
    requires table.Valid() && source.Valid()
    requires Answers(table.bitLength[..], table.table[..], table.tableBits)
    requires forall i :: 0 <= i < table.bitLength.Length ==> table.bitLength[i] <= table.tableBits
    modifies source
    ensures source.Valid()
    ensures match NextSymbol(table.bitLength[..], table.tableBits, old(source.View()))
            case Success((v, s)) => status == Ok && symbol == v && source.View() == s
            case Failure(e) => status == e && e != Ok
  {
    hide InputBuffer.View, InputBuffer.Valid, Read;
    ghost var s0 := source.View();
    var bits, unused;
    symbol := 0;
    status, bits := source.PeekBits(table.tableBits);
    if status != Ok {
      return;
    }
    DirectSymbol(table.bitLength[..], table.table[..], table.tableBits, s0);
    if Decodes(table.bitLength[..], table.table[..], table.tableBits) {
      ShortCodesAreDirect(table.bitLength[..], table.table[..], table.tableBits, s0.bits);
    }
    symbol := table.table[bits];
    status, unused := source.ReadBits(table.bitLength[symbol]);
  }

  /** A long offset in method 3. */
  method ReadLongOffset(table: HuffmanTable, slot: nat, source: InputBuffer) returns (status: Status, offset: nat)
    requires table.Valid() && table.tableBits == 7 && table.bitLength.Length == 8 && source.Valid()
    requires Answers(table.bitLength[..], table.table[..], table.tableBits)
    requires forall i :: 0 <= i < table.bitLength.Length ==> table.bitLength[i] <= table.tableBits
    requires slot < 32 && ExtraBits(slot) >= 3
    modifies source
    ensures source.Valid()
    ensures match LongOffset(table.bitLength[..], slot, old(source.View()))
            case Success((v, s)) => status == Ok && offset == v && source.View() == s
            case Failure(e) => status == e && e != Ok
  {
    hide InputBuffer.View, InputBuffer.Valid, Read, NextSymbol, Answers;
    var base := BaseOffsetAt(slot);
    var extra := ExtraBitsAt(slot);
    var bits, low;
    offset := base;
    status, bits := source.ReadBits(extra - 3);
    if status != Ok {
      return;
    }
    status, low := ReadShortSymbol(table, source);
    offset := offset + 8 * bits + low;
  }

  /** Any other offset. The bits are peeked first and consumed last in the program; a peek that
      succeeds followed by a read of as many bits is the read. */
  method ReadShortOffset(last: nat, slot: nat, source: InputBuffer) returns (status: Status, offset: nat)
    requires source.Valid() && slot < 32 && 1 <= last <= 65535
    modifies source
    ensures source.Valid()
    ensures match ShortOffset(last, slot, old(source.View()))
            case Success((v, s)) => status == Ok && offset == v && source.View() == s
            case Failure(e) => status == e && e != Ok
  {
    hide InputBuffer.View, InputBuffer.Valid, Read;
    var base := BaseOffsetAt(slot);
    var extra := ExtraBitsAt(slot);
    var bits;
    offset := base;
    status, bits := source.ReadBits(extra);
    if status != Ok {
      return;
    }
    offset := offset + bits;
    if offset == 0 {
      offset := last;
    }
  }

  method ReadCountField(slot: nat, source: InputBuffer) returns (status: Status, count: nat)
    requires source.Valid() && slot < 16
    modifies source
    ensures source.Valid()
    ensures match ReadCount(slot, old(source.View()))
            case Success((v, s)) => status == Ok && count == v && source.View() == s
            case Failure(e) => status == e && e != Ok
  {
    hide InputBuffer.View, InputBuffer.Valid, Read;
    var base := BaseOffsetAt(slot);
    var extra := ExtraBitsAt(slot);
    var bits;
    status, bits := source.ReadBits(extra);
    count := base + 3 + bits;
  }

  method ReadMidAndLow(source: InputBuffer) returns (status: Status, low: nat)
    requires source.Valid()
    modifies source
    ensures source.Valid()
    ensures match ReadTwoBytes(old(source.View()))
            case Success((v, s)) => status == Ok && low == v && source.View() == s
            case Failure(e) => status == e && e != Ok
  {
    hide InputBuffer.View, InputBuffer.Valid, Read;
    var mid, lo;
    low := 0;
    status, mid := source.ReadBits(8);
    if status != Ok {
      return;
    }
    status, lo := source.ReadBits(8);
    low := 256 * mid + lo;
  }

  ghost predicate Distinct(arrays: seq<array<nat>>) {
    forall i, j :: 0 <= i < j < |arrays| ==> arrays[i] != arrays[j]
  }

  lemma TableSizes()
    ensures First(7) == 64 && First(6) == 32 && First(12) == 2048
    ensures Pow2(7) == 128 && Pow2(6) == 64 && Pow2(12) == 4096
  {
    Pow2Values();
  }
}