/** The CRC-32 of the archive (src/crc.cc).

    The program keeps the register as a 32-bit integer and moves it eight bits at a time through
    a table. `Word32` is that integer as bits, lowest first, which is the order of
    `CrcPolynomial`: the lowest bit of the register is the coefficient of x^31. */
module Crc {
  import opened Bits
  import opened MmapBuffer
  import opened CrcPolynomial

  type uint32 = n: nat | n < 0x1_0000_0000

  /** The polynomial without its x^32. */
  const POLYNOMIAL: uint32 := 0x04C11DB7
  const REVERSED: uint32 := 0xEDB88320

  // ---------------------------------------------------------------- integers as bits

  /** `a ^ b` */
  function Xor(a: nat, b: nat): nat {
    if a == 0 && b == 0 then 0
    else Bit((a % 2 == 1) != (b % 2 == 1)) + 2 * Xor(a / 2, b / 2)
  }

  lemma {:induction false} XorBits(a: nat, b: nat, n: nat)
    requires a < Pow2(n) && b < Pow2(n)
    ensures Xor(a, b) < Pow2(n)
    ensures BitsOf(Xor(a, b), n) == Add(BitsOf(a, n), BitsOf(b, n))
    decreases n
  {
    if n > 0 {
      XorBits(a / 2, b / 2, n - 1);
      var bit := Bit((a % 2 == 1) != (b % 2 == 1));
      assert Xor(a, b) == bit + 2 * Xor(a / 2, b / 2);
      BitsOfCons(bit, Xor(a / 2, b / 2), n - 1);
    }
  }

  function Not(bs: seq<bool>): (r: seq<bool>)
    ensures |r| == |bs| && forall i :: 0 <= i < |r| ==> r[i] != bs[i]
  {
    seq(|bs|, i requires 0 <= i < |bs| => !bs[i])
  }

  lemma {:induction false} ComplementBits(v: nat, n: nat)
    requires v < Pow2(n)
    ensures BitsOf(Pow2(n) - 1 - v, n) == Not(BitsOf(v, n))
  {
    if n > 0 {
      ComplementBits(v / 2, n - 1);
      BitsOfCons(1 - v % 2, Pow2(n - 1) - 1 - v / 2, n - 1);
    }
  }

  lemma Width()
    ensures Pow2(32) == 0x1_0000_0000
  {
    Pow2Values();
    assert Pow2(20) == 16 * Pow2(16);
    assert Pow2(24) == 16 * Pow2(20);
    assert Pow2(28) == 16 * Pow2(24);
  }

  /** The 32 bits of an integer, lowest first. */
  function Word32(v: nat): (bs: seq<bool>)
    ensures |bs| == 32
  {
    BitsOf(v, 32)
  }

  /** `~v` */
  function Complement(v: uint32): (r: uint32)
    ensures Word32(r) == Not(Word32(v))
  {
    Width();
    ComplementBits(v, 32);
    0xFFFF_FFFF - v
  }

  lemma Word32Injective(v: uint32, w: uint32)
    requires Word32(v) == Word32(w)
    ensures v == w
  {
    Width();
    ValOfBits(v, 32);
    ValOfBits(w, 32);
  }

  // ---------------------------------------------------------------- the polynomial

  /** The coefficients of the divisor below x^32, highest first. */
  function Low(): (g: seq<bool>)
    ensures |g| == 32
  {
    MsbBits(POLYNOMIAL, 32)
  }

  /** x^32 + x^26 + ... + 1 */
  function Divisor(): seq<bool> {
    [true] + Low()
  }

  /** The divisor by its exponents (section 8 of RFC 1952): 32, 26, 23, 22, 16, 12, 11, 10, 8, 7, 5, 4, 2,
      1 and 0. */
  lemma DivisorIs()
    ensures |Divisor()| == 33
    ensures forall i :: 0 <= i < 33 ==>
              Divisor()[i] == (32 - i in {32, 26, 23, 22, 16, 12, 11, 10, 8, 7, 5, 4, 2, 1, 0})
  {
    hide MsbBits;
    Digit(0x0, 0x0, 0, false, false, false, false);
    Digit(0x4, 0x0, 4, false, true, false, false);
    Digit(0x4C, 0x4, 8, true, true, false, false);
    Digit(0x4C1, 0x4C, 12, false, false, false, true);
    Digit(0x4C11, 0x4C1, 16, false, false, false, true);
    Digit(0x4C11D, 0x4C11, 20, true, true, false, true);
    Digit(0x4C11DB, 0x4C11D, 24, true, false, true, true);
    Digit(0x4C11DB7, 0x4C11DB, 28, false, true, true, true);
    NoDigits();
  }

  lemma NoDigits()
    ensures MsbBits(0, 0) == []
  {
  }

  /** The four bits of a hexadecimal digit follow those of the digits before it. */
  lemma Digit(v: nat, h: nat, n: nat, b3: bool, b2: bool, b1: bool, b0: bool)
    requires v == 16 * h + 8 * Bit(b3) + 4 * Bit(b2) + 2 * Bit(b1) + Bit(b0)
    ensures MsbBits(v, n + 4) == MsbBits(h, n) + [b3, b2, b1, b0]
  {
    hide MsbBits;
    var h3 := 2 * h + Bit(b3);
    var h2 := 2 * h3 + Bit(b2);
    var h1 := 2 * h2 + Bit(b1);
    OneBit(h, b3, n);
    OneBit(h3, b2, n + 1);
    OneBit(h2, b1, n + 2);
    OneBit(h1, b0, n + 3);
    assert 2 * h1 + Bit(b0) == v;
  }

  lemma OneBit(h: nat, b: bool, n: nat)
    ensures MsbBits(2 * h + Bit(b), n + 1) == MsbBits(h, n) + [b]
  {
  }

  lemma {:induction false} MsbBitsReversed(v: nat, n: nat)
    ensures MsbBits(v, n) == Reversed(BitsOf(v, n))
  {
    if n > 0 {
      MsbBitsReversed(v / 2, n - 1);
      assert BitsOf(v, n)[1..] == BitsOf(v / 2, n - 1);
    }
  }

  /** The static assertion of the program. */
  lemma ReversedPolynomial()
    ensures Rev(32, 0x04C11DB7) == 0xEDB88320 == REVERSED && POLYNOMIAL == 0x04C11DB7
  {
    hide Rev;
    ReversingDigits();
    ReversingIsRev(POLYNOMIAL, 32, 0);
    ShlZero(32);
  }

  lemma ReversingDigits()
    ensures Reversing(POLYNOMIAL, 32, 0) == REVERSED
  {
    hide Reversing;
    ReversingDigit(28, 0x04C11DB, 0x0, 1, 1, 1, 0);
    ReversingDigit(24, 0x04C11D, 0xE, 1, 1, 0, 1);
    ReversingDigit(20, 0x04C11, 0xED, 1, 0, 1, 1);
    ReversingDigit(16, 0x04C1, 0xEDB, 1, 0, 0, 0);
    ReversingDigit(12, 0x04C, 0xEDB8, 1, 0, 0, 0);
    ReversingDigit(8, 0x04, 0xEDB88, 0, 0, 1, 1);
    ReversingDigit(4, 0x0, 0xEDB883, 0, 0, 1, 0);
    ReversingDigit(0, 0x0, 0xEDB8832, 0, 0, 0, 0);
    ReversingDone(REVERSED);
  }

  lemma ReversingDone(r: nat)
    ensures Reversing(0, 0, r) == r
  {
  }

  lemma ReversingDigit(n: nat, h: nat, r: nat, b0: nat, b1: nat, b2: nat, b3: nat)
    requires b0 <= 1 && b1 <= 1 && b2 <= 1 && b3 <= 1
    ensures Reversing(16 * h + 8 * b3 + 4 * b2 + 2 * b1 + b0, n + 4, r) ==
            Reversing(h, n, 16 * r + 8 * b0 + 4 * b1 + 2 * b2 + b3)
  {
    hide Reversing;
    var r1 := 2 * r + b0;
    var r2 := 2 * r1 + b1;
    var h3 := 2 * h + b3;
    var h2 := 2 * h3 + b2;
    var h1 := 2 * h2 + b1;
    ReversingBit(h1, b0, n + 3, r);
    ReversingBit(h2, b1, n + 2, r1);
    ReversingBit(h3, b2, n + 1, r2);
    ReversingBit(h, b3, n, 2 * r2 + b2);
  }

  lemma ReversingBit(h: nat, b: nat, n: nat, r: nat)
    requires b <= 1
    ensures Reversing(2 * h + b, n + 1, r) == Reversing(h, n, 2 * r + b)
  {
  }

  /** The reversal of a number bit by bit, as a loop would do it. */
  function Reversing(v: nat, n: nat, r: nat): nat {
    if n == 0 then r else Reversing(v / 2, n - 1, 2 * r + v % 2)
  }

  lemma {:induction false} ReversingIsRev(v: nat, n: nat, r: nat)
    ensures Reversing(v, n, r) == Shl(r, n) + Rev(n, v)
  {
    hide Rev;
    if n == 0 {
      RevNothing(v);
    } else {
      var h, b := v / 2, v % 2;
      RevCons(b, h, n - 1);
      ReversingIsRev(h, n - 1, 2 * r + b);
      ShlAdd(2 * r, b, n - 1);
      ShlAdd(r, r, n - 1);
    }
  }

  lemma RevNothing(v: nat)
    ensures Rev(0, v) == 0
  {
  }

  lemma RevCons(b: nat, h: nat, n: nat)
    requires b <= 1
    ensures Rev(n + 1, b + 2 * h) == Shl(b, n) + Rev(n, h)
  {
    BitsOfCons(b, h, n);
    MsbConcat([b == 1], BitsOf(h, n));
    assert Msb([b == 1]) == b;
  }

  lemma {:induction false} ReversedBits(v: nat, n: nat)
    ensures BitsOf(Rev(n, v), n) == MsbBits(v, n)
  {
    hide BitsOf, Msb, MsbBits, Reversed;
    MsbBitsReversed(v, n);
    MsbIsValReversed(BitsOf(v, n));
    BitsOfVal(Reversed(BitsOf(v, n)));
  }

  lemma ReversedIsLow()
    ensures Word32(REVERSED) == Low() && Low()[31]
  {
    hide BitsOf, Rev;
    ReversedPolynomial();
    ReversedBits(POLYNOMIAL, 32);
  }

  // ---------------------------------------------------------------- the checksum

  /** The bits of a message, each byte lowest bit first. */
  function MessageBits(bytes: seq<byte>): (bs: seq<bool>)
    ensures |bs| == 8 * |bytes|
  {
    if |bytes| == 0 then [] else BitsOf(bytes[0], 8) + MessageBits(bytes[1..])
  }

  /** The register after a message, moved one bit at a time. */
  function Fed(r: uint32, bytes: seq<byte>): (bs: seq<bool>)
    ensures |bs| == 32
  {
    Run(Low(), Word32(r), MessageBits(bytes))
  }

  function FromWord32(bs: seq<bool>): (v: uint32)
    requires |bs| == 32
    ensures Word32(v) == bs
  {
    Width();
    BitsOfVal(bs);
    Val(bs)
  }

  /** The checksum `sum` continued over `bytes`. */
  function Update(sum: uint32, bytes: seq<byte>): uint32 {
    Complement(FromWord32(Fed(Complement(sum), bytes)))
  }

  // ---------------------------------------------------------------- the program

  method BitReverse(value: uint32) returns (result: nat)
    ensures result == Rev(32, value)
  {
    hide Rev;
    ReversingIsRev(value, 32, 0);
    ShlZero(32);
    result := 0;
    var v: nat := value;
    var bit: nat := 0;
    while bit < 32
      invariant bit <= 32
      invariant Reversing(v, 32 - bit, result) == Rev(32, value)
    {
      ReversingBit(v / 2, v % 2, 31 - bit, result);
      result := 2 * result + v % 2;
      v := v / 2;
      bit := bit + 1;
    }
  }

  lemma {:induction false} ShrBits(v: nat, n: nat, k: nat)
    requires k <= n && v < Pow2(n)
    ensures Shr(v, k) < Pow2(n)
    ensures BitsOf(Shr(v, k), n) == BitsOf(v, n)[k..] + Clear(k)
  {
    ShrDrops(v, n, k);
    Pow2Monotone(n - k, n);
    BitsOfSplit(Shr(v, k), 0, n - k, k);
    ShlZero(n - k);
    ZeroIsClear(k);
  }

  lemma {:induction false} ZeroIsClear(k: nat)
    ensures BitsOf(0, k) == Clear(k)
  {
    if k > 0 {
      ZeroIsClear(k - 1);
    }
  }

  lemma ShrRegister(v: uint32, k: nat)
    requires k <= 32
    ensures Shr(v, k) < 0x1_0000_0000
    ensures Word32(Shr(v, k)) == Word32(v)[k..] + Clear(k)
  {
    Width();
    ShrBits(v, 32, k);
  }

  lemma XorRegister(v: uint32, w: uint32)
    ensures Xor(v, w) < 0x1_0000_0000
    ensures Word32(Xor(v, w)) == Add(Word32(v), Word32(w))
  {
    Width();
    XorBits(v, w, 32);
  }

  lemma LowestBit(v: nat)
    ensures And(v, 1) == v % 2
    ensures Word32(v)[0] == (v % 2 == 1)
  {
    AndZero(v / 2);
  }

  /** One round of the table generator. */
  method TableRound(crc: uint32) returns (r: uint32)
    ensures Word32(r) == Step(Low(), Word32(crc), false)
  {
    hide Word32, Low, Xor, Shr, And;
    var lsb := And(crc, 1) != 0;
    LowestBit(crc);
    ShrRegister(crc, 1);
    ReversedIsLow();
    assert Word32(crc)[1..] + Clear(1) == Word32(crc)[1..] + [false];
    r := Shr(crc, 1);
    if lsb {
      XorRegister(r, REVERSED);
      r := Xor(r, REVERSED);
    }
  }

  method TableEntry(index: uint32) returns (crc: uint32)
    ensures Word32(crc) == Run(Low(), Word32(index), Clear(8))
  {
    hide Word32, Low, Step;
    crc := index;
    var j: nat := 0;
    while j < 8
      invariant j <= 8
      invariant Run(Low(), Word32(crc), Clear(8 - j)) == Run(Low(), Word32(index), Clear(8))
    {
      assert Clear(8 - j)[1..] == Clear(8 - (j + 1));
      crc := TableRound(crc);
      j := j + 1;
    }
  }

  ghost predicate EntryOk(index: nat, entry: uint32) {
    Word32(entry) == Run(Low(), Word32(index), Clear(8))
  }

  method GenerateLookupTable() returns (table: seq<uint32>)
    ensures TableOk(table)
  {
    hide Word32, Low, Run;
    table := [];
    while |table| < 256
      invariant |table| <= 256
      invariant forall i :: 0 <= i < |table| ==> EntryOk(i, table[i])
    {
      var entry := TableEntry(|table|);
      table := table + [entry];
    }
  }

  ghost predicate TableOk(table: seq<uint32>) {
    |table| == 256 && forall i :: 0 <= i < 256 ==> EntryOk(i, table[i])
  }

  /** The index of the table: the low byte of the register with the message byte added. */
  lemma IndexBits(b: byte, temp: uint32)
    ensures var index := And(Xor(b, temp), 255);
            index < 256 && Word32(index) == Add(BitsOf(b, 8), Word32(temp)[..8]) + Clear(24)
  {
    hide Xor, And, BitsOf, Word32;
    XorRegister(b, temp);
    FirstByte(b);
    FirstByte(temp);
    FirstByte(Xor(b, temp));
    Pow2Values();
    AndMask(Xor(b, temp), 8);
    FromByte(BitsOf(Xor(b, temp), 8));
  }

  lemma FirstByte(v: uint32)
    ensures Word32(v)[..8] == BitsOf(v, 8)
  {
    Width();
    ShrDrops(v, 32, 8);
  }

  lemma FromByte(x: seq<bool>)
    requires |x| == 8
    ensures Val(x) < 256 && Word32(Val(x)) == x + Clear(24)
  {
    Pow2Values();
    BitsOfVal(x);
    BitsOfSplit(Val(x), 0, 8, 24);
    ShlZero(8);
    ZeroIsClear(24);
  }

  /** One message byte. */
  method CalcByte(table: seq<uint32>, temp: uint32, b: byte) returns (r: uint32)
    requires TableOk(table)
    ensures Word32(r) == Run(Low(), Word32(temp), BitsOf(b, 8))
  {
    hide Word32, Low, Xor, Shr, And, Run, BitsOf;
    IndexBits(b, temp);
    ShrRegister(temp, 8);
    ghost var x, w := BitsOf(b, 8), Word32(temp);
    RunByTable(Low(), w, x, Add(x, w[..8]), w[8..]);
    var index := And(Xor(b, temp), 255);
    XorRegister(table[index], Shr(temp, 8));
    r := Xor(table[index], Shr(temp, 8));
  }

  class Crc32 {
    var sum: uint32
    const table: seq<uint32>

    ghost predicate Valid()
    {
      TableOk(table)
    }

    constructor ()
      ensures Valid() && sum == 0
    {
      var t := GenerateLookupTable();
      sum, table := 0, t;
    }

    /** Continue the checksum over `memory`. */
    method Calc(memory: seq<byte>) returns (r: uint32)
      requires Valid()
      modifies this`sum
      ensures r == sum == Update(old(sum), memory)
    {
      hide Word32, Low, Complement, TableOk, Update, Run, BitsOf;
      if |memory| == 0 {
        UpdateNothing(sum);
        return sum;
      }
      var temp := Complement(sum);
      var i: nat := 0;
      assert memory[0..] == memory;
      while i < |memory|
        invariant i <= |memory| && sum == old(sum)
        invariant Fed(temp, memory[i..]) == Fed(Complement(sum), memory)
      {
        var next := CalcByte(table, temp, memory[i]);
        FedOne(temp, next, memory, i);
        temp := next;
        i := i + 1;
      }
      assert memory[i..] == [];
      FedIsUpdate(sum, memory, temp);
      sum := Complement(temp);
      return sum;
    }
  }

  lemma UpdateNothing(sum: uint32)
    ensures Update(sum, []) == sum
  {
    Word32Injective(Complement(sum), FromWord32(Word32(Complement(sum))));
    assert Complement(Complement(sum)) == sum;
  }

  lemma FedIsUpdate(sum: uint32, memory: seq<byte>, temp: uint32)
    requires Fed(temp, []) == Fed(Complement(sum), memory)
    ensures Complement(temp) == Update(sum, memory)
  {
    hide Word32, Low, Complement;
    Word32Injective(temp, FromWord32(Word32(temp)));
  }

  lemma FedOne(temp: uint32, next: uint32, memory: seq<byte>, i: nat)
    requires i < |memory| && Word32(next) == Run(Low(), Word32(temp), BitsOf(memory[i], 8))
    ensures Fed(temp, memory[i..]) == Fed(next, memory[i + 1..])
  {
    hide Word32, Low, Run, BitsOf;
    assert memory[i..][1..] == memory[i + 1..];
    RunConcat(Low(), Word32(temp), BitsOf(memory[i], 8), MessageBits(memory[i + 1..]));
  }

  // ---------------------------------------------------------------- what the checksum is

  lemma {:induction false} MessageBitsConcat(a: seq<byte>, b: seq<byte>)
    ensures MessageBits(a + b) == MessageBits(a) + MessageBits(b)
    decreases |a|
  {
    hide BitsOf;
    if |a| == 0 {
      assert a + b == b;
    } else {
      assert (a + b)[1..] == a[1..] + b;
      MessageBitsConcat(a[1..], b);
    }
  }

  lemma UpdateBits(sum: uint32, bytes: seq<byte>)
    ensures Not(Word32(Update(sum, bytes))) == Run(Low(), Not(Word32(sum)), MessageBits(bytes))
  {
    hide Word32, Low, Run, MessageBits;
    NotNot(Fed(Complement(sum), bytes));
  }

  lemma NotNot(bs: seq<bool>)
    ensures Not(Not(bs)) == bs
  {
  }

  /** Calculating over pieces, empty ones included, is calculating over the whole. */
  lemma UpdateConcat(sum: uint32, a: seq<byte>, b: seq<byte>)
    ensures Update(Update(sum, a), b) == Update(sum, a + b)
  {
    hide Word32, Low, Run, MessageBits, Update;
    var first := Update(sum, a);
    var r := Not(Word32(sum));
    UpdateBits(sum, a);
    UpdateBits(first, b);
    UpdateBits(sum, a + b);
    MessageBitsConcat(a, b);
    RunConcat(Low(), r, MessageBits(a), MessageBits(b));
    NotInjective(Word32(Update(first, b)), Word32(Update(sum, a + b)));
    Word32Injective(Update(first, b), Update(sum, a + b));
  }

  lemma NotInjective(x: seq<bool>, y: seq<bool>)
    requires |x| == |y| && Not(x) == Not(y)
    ensures x == y
  {
    NotNot(x);
    NotNot(y);
  }

  /** The message as a polynomial, with the complement of `sum` in front of it. */
  function Dividend(sum: uint32, bytes: seq<byte>): seq<bool> {
    Add(Not(Word32(sum)) + Clear(|MessageBits(bytes)|), MessageBits(bytes) + Clear(32))
  }

  /** The checksum is the complement of the remainder of the message modulo the polynomial, and
      no other number is. */
  lemma UpdateIsRemainder(sum: uint32, bytes: seq<byte>, crc: uint32)
    ensures crc == Update(sum, bytes) <==> IsRemainder(Dividend(sum, bytes), Divisor(), Not(Word32(crc)))
  {
    hide Word32, Low, Run, MessageBits, Update, IsRemainder;
    RemainderIsRun(Low(), Not(Word32(sum)), MessageBits(bytes), Not(Word32(crc)));
    UpdateBits(sum, bytes);
    if Not(Word32(crc)) == Not(Word32(Update(sum, bytes))) {
      NotInjective(Word32(crc), Word32(Update(sum, bytes)));
      Word32Injective(crc, Update(sum, bytes));
    }
  }

  // ---------------------------------------------------------------- what the checksum detects

  /** Messages that differ somewhere within 32 consecutive bits, at any alignment, have
      different checksums. */
  lemma BitBurstDetected(sum: uint32, m: seq<byte>, m': seq<byte>,
                         a: seq<bool>, x: seq<bool>, y: seq<bool>, c: seq<bool>)
    requires MessageBits(m) == a + x + c && MessageBits(m') == a + y + c
    requires |x| == |y| <= 32 && x != y
    ensures Update(sum, m) != Update(sum, m')
  {
    hide Word32, Low, Run, MessageBits, Update;
    UpdateBits(sum, m);
    UpdateBits(sum, m');
    ReversedIsLow();
    if Update(sum, m) == Update(sum, m') {
      BurstDetected(Low(), Not(Word32(sum)), a, x, y, c);
    }
  }

  lemma {:induction false} MessageBitsInjective(x: seq<byte>, y: seq<byte>)
    requires MessageBits(x) == MessageBits(y)
    ensures x == y
    decreases |x|
  {
    assert |x| == |y|;
    if |x| > 0 {
      assert BitsOf(x[0], 8) == MessageBits(x)[..8] == MessageBits(y)[..8] == BitsOf(y[0], 8);
      assert MessageBits(x[1..]) == MessageBits(x)[8..] == MessageBits(y)[8..] == MessageBits(y[1..]);
      Pow2Values();
      ValOfBits(x[0], 8);
      ValOfBits(y[0], 8);
      MessageBitsInjective(x[1..], y[1..]);
    }
  }

  /** Messages of one length that differ only within four consecutive bytes have different
      checksums. */
  lemma ByteBurstDetected(sum: uint32, a: seq<byte>, x: seq<byte>, y: seq<byte>, c: seq<byte>)
    requires |x| == |y| <= 4 && x != y
    ensures Update(sum, a + x + c) != Update(sum, a + y + c)
  {
    hide MessageBits, Update;
    MessageBitsConcat(a + x, c);
    MessageBitsConcat(a + y, c);
    MessageBitsConcat(a, x);
    MessageBitsConcat(a, y);
    if MessageBits(x) == MessageBits(y) {
      MessageBitsInjective(x, y);
    }
    BitBurstDetected(sum, a + x + c, a + y + c, MessageBits(a), MessageBits(x), MessageBits(y), MessageBits(c));
  }
}
