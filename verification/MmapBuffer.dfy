/** The bit reader (src/mmap_buffer.cc).

    `Stream` is the abstract value of a reader: the bits still to be delivered, how many of
    them are already loaded into the accumulator, how many 16-bit words are not, and whether a
    single byte is left over after the last word. `InputBuffer` is the object with the accumulator itself. */
module MmapBuffer {
  import opened Bits
  import opened Errors

  type byte = b: nat | b < 256

  // ---------------------------------------------------------------- the abstract reader

  datatype Stream = Stream(bits: seq<bool>, ahead: nat, words: nat, odd: bool)
  {
    predicate Valid() {
      ahead <= 31 && |bits| == ahead + 16 * words
    }

    /** End of input looks only at what has not been loaded: loaded bits do not count. */
    predicate Eof() {
      words == 0 && !odd
    }
  }

  /** The reader once `n` bits have been asked for and were there. */
  function Loaded(s: Stream, n: nat): Stream {
    if s.ahead < n && s.words > 0 then s.(ahead := s.ahead + 16, words := s.words - 1) else s
  }

  function Peek(s: Stream, n: nat): (r: Result<(nat, Stream)>)
    requires s.Valid()
    ensures r.Success? ==>
              && r.value.1.Valid() && n <= 16 && n <= r.value.1.ahead && r.value.0 < Pow2(n)
              && r.value.1.bits == s.bits && r.value.1.odd == s.odd
    ensures r.Failure? ==> r.status == OutOfRange
  {
    if n > 16 || |s.bits| < n then
      Failure(OutOfRange)
    else
      Success((Val(s.bits[..n]), Loaded(s, n)))
  }

  function Read(s: Stream, n: nat): (r: Result<(nat, Stream)>)
    requires s.Valid()
    ensures r.Success? ==>
              && n <= |s.bits| && r.value.1.Valid() && r.value.0 < Pow2(n)
              && r.value.1.bits == s.bits[n..] && r.value.1.odd == s.odd
    ensures r.Success? <==> n <= 16 && n <= |s.bits|
    ensures r.Failure? ==> r.status == OutOfRange
  {
    var (v, s') :- Peek(s, n);
    Success((v, s'.(bits := s.bits[n..], ahead := s'.ahead - n)))
  }

  /** Reading `a` bits and then `b` bits is reading `a + b` bits: same bits, same value, and
      the same amount of input loaded. */
  lemma ReadInTwoSteps(s: Stream, a: nat, b: nat)
    requires s.Valid() && a + b <= 16
    ensures Read(s, a + b).Success? <==> Read(s, a).Success? && Read(Read(s, a).value.1, b).Success?
    ensures Read(s, a + b).Success? ==>
              var (x, s1) := Read(s, a).value;
              var (y, s2) := Read(s1, b).value;
              Read(s, a + b) == Success((x + Shl(y, a), s2))
  {
    if |s.bits| >= a + b {
      assert s.bits[..a + b] == s.bits[..a] + s.bits[a..][..b];
      ValConcat(s.bits[..a], s.bits[a..][..b]);
      assert s.bits[a..][b..] == s.bits[a + b..];
    }
  }

  // ---------------------------------------------------------------- words and bytes

  function Word(hi: byte, lo: byte): (w: nat)
    ensures w < Pow2(16)
  {
    Pow2Values();
    256 * hi + lo
  }

  /** The bits of a byte sequence: big-endian 16-bit words, each delivered low bit first. */
  function WordBits(data: seq<byte>): (bs: seq<bool>)
    ensures |bs| == 16 * WordCount(data)
  {
    if |data| < 2 then [] else BitsOf(Word(data[0], data[1]), 16) + WordBits(data[2..])
  }

  function WordCount(data: seq<byte>): nat {
    if |data| < 2 then 0 else 1 + WordCount(data[2..])
  }

  predicate OddByte(data: seq<byte>) {
    if |data| < 2 then |data| == 1 else OddByte(data[2..])
  }

  /** The stream a fresh reader over `data` stands for. */
  function StreamOf(data: seq<byte>): (s: Stream)
    ensures s.Valid()
  {
    Stream(WordBits(data), 0, WordCount(data), OddByte(data))
  }

  /** The stream for an accumulator `d` holding `a` bits, in front of the bytes `rest`. */
  function Register(d: nat, a: nat, rest: seq<byte>): (s: Stream)
    requires a <= 31
    ensures s.Valid()
  {
    Stream(BitsOf(d, a) + WordBits(rest), a, WordCount(rest), OddByte(rest))
  }

  lemma LoadingKeepsBits(d: nat, a: nat, rest: seq<byte>)
    requires a <= 15 && d < Pow2(a) && |rest| >= 2
    ensures var d' := Or(d, Shl(Word(rest[0], rest[1]), a));
            && d' < Pow2(a + 16)
            && Register(d', a + 16, rest[2..]) ==
                 Register(d, a, rest).(ahead := a + 16, words := WordCount(rest) - 1)
  {
    AppendWord(d, a, Word(rest[0], rest[1]), 16, WordBits(rest[2..]));
  }

  lemma AppendWord(d: nat, a: nat, w: nat, n: nat, z: seq<bool>)
    requires d < Pow2(a) && w < Pow2(n)
    ensures Or(d, Shl(w, a)) < Pow2(a + n)
    ensures BitsOf(Or(d, Shl(w, a)), a + n) + z == BitsOf(d, a) + (BitsOf(w, n) + z)
  {
    OrAbove(d, a, w, n);
  }

  lemma PeekLoaded(d: nat, a: nat, rest: seq<byte>, n: nat)
    requires n <= 16 && n <= a <= 31 && d < Pow2(a)
    ensures Peek(Register(d, a, rest), n) == Success((And(d, Pow2(n) - 1), Register(d, a, rest)))
  {
    AndMask(d, n);
    ShrDrops(d, a, n);
    assert Register(d, a, rest).bits[..n] == BitsOf(d, a)[..n];
  }

  lemma ConsumeLoaded(d: nat, a: nat, rest: seq<byte>, n: nat)
    requires n <= a <= 31 && d < Pow2(a)
    ensures Shr(d, n) < Pow2(a - n)
    ensures Register(Shr(d, n), a - n, rest).bits == Register(d, a, rest).bits[n..]
  {
    ShrDrops(d, a, n);
    var x, z := BitsOf(d, a), WordBits(rest);
    assert (x + z)[n..] == x[n..] + z;
  }

  // ---------------------------------------------------------------- the reader object

  class InputBuffer {
    const data: seq<byte>
    var position: nat
    /** The accumulator, a 32-bit register of which the low `available` bits are in use. */
    var dataBits: nat
    var available: nat

    ghost predicate Valid()
      reads this
    {
      && position <= |data|
      && available <= 31
      && dataBits < Pow2(available)
    }

    ghost function View(): (s: Stream)
      requires Valid()
      reads this
      ensures s.Valid()
    {
      Register(dataBits, available, data[position..])
    }

    /** The bytes not yet loaded. */
    ghost function Rest(): seq<byte>
      requires Valid()
      reads this
    {
      data[position..]
    }

    constructor (bytes: seq<byte>)
      ensures Valid() && data == bytes
      ensures position == 0 && available == 0
      ensures View() == StreamOf(bytes)
    {
      data := bytes;
      position, dataBits, available := 0, 0, 0;
      new;
      assert data[0..] == data;
      assert BitsOf(0, 0) == [];
      assert BitsOf(dataBits, available) + WordBits(data[position..]) == WordBits(bytes);
    }

    /** `InputBuffer sub = other;` */
    constructor Copy(other: InputBuffer)
      requires other.Valid()
      ensures Valid() && data == other.data
      ensures position == other.position && available == other.available
      ensures View() == other.View() && Rest() == other.Rest()
    {
      data := other.data;
      position, dataBits, available := other.position, other.dataBits, other.available;
    }

    method IsEof() returns (eof: bool)
      requires Valid()
      ensures eof == View().Eof()
      ensures eof == (Rest() == [])
    {
      eof := position == |data|;
    }

    method ReadWord() returns (status: Status, word: nat)
      requires Valid()
      modifies this`position
      ensures Valid()
      ensures status == (if |old(Rest())| < 2 then OutOfRange else Ok)
      ensures status == Ok ==>
                && word == Word(old(Rest())[0], old(Rest())[1])
                && Rest() == old(Rest())[2..]
                && position == old(position) + 2
      ensures status != Ok ==> position == old(position)
    {
      if |data| < position + 2 {
        return OutOfRange, 0;
      }
      word := Word(data[position], data[position + 1]);
      position := position + 2;
      return Ok, word;
    }

    /** Peeking moves no cursor: the bits to be delivered stay the same, only more of them may
        be loaded. A peek that fails changes nothing. */
    method PeekBits(n: nat) returns (status: Status, out: nat)
      requires Valid()
      modifies this`position, this`dataBits, this`available
      ensures Valid()
      ensures match Peek(old(View()), n)
              case Success((v, s)) => status == Ok && out == v && View() == s
              case Failure(e) => status == e && View() == old(View())
      ensures status == Ok ==> n <= available && n <= 16
      ensures status != Ok ==>
                position == old(position) && dataBits == old(dataBits) && available == old(available)
    {
      hide BitsOf, WordBits, Val, And, Or, Shl, Shr, Pow2;
      if n > 16 {
        return OutOfRange, 0;
      }
      if available < n {
        ghost var d, a, rest := dataBits, available, Rest();
        var st, word := ReadWord();
        if st != Ok {
          return st, 0;
        }
        LoadingKeepsBits(d, a, rest);
        dataBits := Or(dataBits, Shl(word, available));
        available := available + 16;
      }
      out := And(dataBits, Pow2(n) - 1);
      PeekLoaded(dataBits, available, Rest(), n);
      return Ok, out;
    }

    /** A successful read delivers the next `n` bits and removes exactly those; a failed read
        changes nothing. */
    method ReadBits(n: nat) returns (status: Status, out: nat)
      requires Valid()
      modifies this`position, this`dataBits, this`available
      ensures Valid()
      ensures match Read(old(View()), n)
              case Success((v, s)) => status == Ok && out == v && View() == s
              case Failure(e) => status == e && View() == old(View())
      ensures status != Ok ==>
                position == old(position) && dataBits == old(dataBits) && available == old(available)
    {
      hide WordBits, Val, Shr, Pow2, WordCount, OddByte;
      status, out := PeekBits(n);
      if status != Ok {
        return;
      }
      ConsumeLoaded(dataBits, available, Rest(), n);
      dataBits := Shr(dataBits, n);
      available := available - n;
    }

    method Skip(length: nat) returns (status: Status, start: nat)
      requires Valid()
      modifies this`position
      ensures Valid()
      ensures status == (if available > 0 then MisalignedData
                         else if |old(Rest())| < length then UnexpectedEof else Ok)
      ensures status == Ok ==> start == old(position) && position == start + length
      ensures status == Ok ==> Rest() == old(Rest())[length..]
      ensures status != Ok ==> position == old(position)
    {
      if available > 0 {
        return MisalignedData, 0;
      }
      if |data| < position + length {
        return UnexpectedEof, 0;
      }
      start := position;
      position := position + length;
      return Ok, start;
    }

    /** `read_into`, `read_string_view` and `read_span`: the next `length` bytes. */
    method ReadBytes(length: nat) returns (status: Status, bytes: seq<byte>)
      requires Valid()
      modifies this`position
      ensures Valid()
      ensures status == (if available > 0 then MisalignedData
                         else if |old(Rest())| < length then UnexpectedEof else Ok)
      ensures status == Ok ==> bytes == old(Rest())[..length] && Rest() == old(Rest())[length..]
      ensures status != Ok ==> bytes == [] && position == old(position)
    {
      var start;
      status, start := Skip(length);
      if status != Ok {
        return status, [];
      }
      bytes := data[start..start + length];
    }

    /** A reader over the next `length` bytes. */
    method ReadBuffer(length: nat) returns (status: Status, out: InputBuffer)
      requires Valid()
      modifies this`position
      ensures Valid() && fresh(out) && out.Valid()
      ensures status == (if available > 0 then MisalignedData
                         else if |old(Rest())| < length then UnexpectedEof else Ok)
      ensures out.data == if status == Ok then old(Rest())[..length] else []
      ensures out.position == 0 && out.available == 0
      ensures status == Ok ==> Rest() == old(Rest())[length..]
      ensures status != Ok ==> position == old(position)
    {
      var bytes;
      status, bytes := ReadBytes(length);
      out := new InputBuffer(bytes);
    }
  }
}
