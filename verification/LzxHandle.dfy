/** Archive headers (src/lzx_handle.cc, src/lzx_handle.hh): 31 bytes of metadata, a file name and
    a comment, protected by a checksum that is taken with its own field set to zero. */
module LzxHandle {
  import opened Errors
  import opened MmapBuffer
  import opened Crc

  /** `sizeof(metadata_)` */
  const HEADER: nat := 31
  const COMMENT_LENGTH_AT: nat := 14
  const HEADER_CRC_AT: nat := 26
  const FILENAME_LENGTH_AT: nat := 30

  function Little32(b0: byte, b1: byte, b2: byte, b3: byte): uint32 {
    b0 + 0x100 * b1 + 0x1_0000 * b2 + 0x100_0000 * b3
  }

  function Bytes32(v: uint32): (b: seq<byte>)
    ensures |b| == 4 && Little32(b[0], b[1], b[2], b[3]) == v
  {
    var v1 := v / 0x100;
    var v2 := v1 / 0x100;
    [v % 0x100, v1 % 0x100, v2 % 0x100, v2 / 0x100]
  }

  lemma Little32Injective(b: seq<byte>, v: uint32)
    requires |b| == 4 && Little32(b[0], b[1], b[2], b[3]) == v
    ensures b == Bytes32(v)
  {
    var c := Bytes32(v);
    assert b[3] == c[3];
    assert b[2] == c[2];
    assert b[1] == c[1];
  }

  /** The metadata structure, as the bytes it occupies. */
  type Metadata = m: seq<byte> | |m| == HEADER witness Blank()

  function Blank(): (m: seq<byte>)
    ensures |m| == HEADER
  {
    seq(HEADER, _ => 0)
  }

  function StoredCrc(m: Metadata): uint32 {
    Little32(m[HEADER_CRC_AT], m[HEADER_CRC_AT + 1], m[HEADER_CRC_AT + 2], m[HEADER_CRC_AT + 3])
  }

  predicate InCrcField(i: nat) {
    HEADER_CRC_AT <= i < HEADER_CRC_AT + 4
  }

  function WithCrc(m: Metadata, crc: uint32): (r: Metadata)
    ensures StoredCrc(r) == crc
    ensures forall i :: 0 <= i < HEADER && !InCrcField(i) ==> r[i] == m[i]
  {
    hide Little32, Bytes32;
    m[..HEADER_CRC_AT] + Bytes32(crc) + m[HEADER_CRC_AT + 4..]
  }

  datatype Entry = Entry(metadata: Metadata, filename: seq<byte>, comment: seq<byte>)
  {
    function UnpackSize(): uint32 {
      Little32(metadata[2], metadata[3], metadata[4], metadata[5])
    }

    function PackSize(): uint32 {
      Little32(metadata[6], metadata[7], metadata[8], metadata[9])
    }

    /** The low five bits of the compression byte. */
    function Mode(): nat {
      metadata[11] % 32
    }

    predicate IsMerged() {
      metadata[12] % 2 == 1
    }

    /** Everything the header checksum covers. */
    function Covered(): seq<byte> {
      metadata + filename + comment
    }

    /** An entry as it is held in memory: lengths agree and the checksum field is zero. */
    predicate WellFormed() {
      && |filename| == metadata[FILENAME_LENGTH_AT]
      && |comment| == metadata[COMMENT_LENGTH_AT]
      && StoredCrc(metadata) == 0
    }
  }

  // ---------------------------------------------------------------- reading

  /** Where the name and the comment of the header at the front of `rest` end. */
  function NameEnd(rest: seq<byte>): nat
    requires |rest| >= HEADER
  {
    HEADER + rest[FILENAME_LENGTH_AT]
  }

  function CommentEnd(rest: seq<byte>): (c: nat)
    requires |rest| >= HEADER
    ensures c >= NameEnd(rest) >= HEADER
  {
    NameEnd(rest) + rest[COMMENT_LENGTH_AT]
  }

  function Header(rest: seq<byte>): Metadata
    requires |rest| >= HEADER
  {
    rest[..HEADER]
  }

  /** The entry the header at the front of `rest` describes, checksum aside. */
  function Described(rest: seq<byte>): (e: Entry)
    requires |rest| >= HEADER && |rest| >= CommentEnd(rest)
  {
    Entry(WithCrc(Header(rest), 0), rest[HEADER..NameEnd(rest)], rest[NameEnd(rest)..CommentEnd(rest)])
  }

  /** The entry at the front of `rest`, and what follows it. */
  function ParseEntry(rest: seq<byte>): Result<(Entry, seq<byte>)> {
    if |rest| < HEADER || |rest| < CommentEnd(rest) then Failure(UnexpectedEof)
    else if StoredCrc(Header(rest)) != Update(0, Described(rest).Covered()) then Failure(ChecksumInvalid)
    else Success((Described(rest), rest[CommentEnd(rest)..]))
  }

  /** Every entry read uses up at least the fixed part of its header. */
  lemma ParsedIsWellFormed(rest: seq<byte>, e: Entry, after: seq<byte>)
    requires ParseEntry(rest) == Success((e, after))
    ensures e.WellFormed() && |after| + HEADER + |e.filename| + |e.comment| == |rest|
  {
    hide Update, StoredCrc, WithCrc, Little32, Bytes32;
    assert !InCrcField(FILENAME_LENGTH_AT) && !InCrcField(COMMENT_LENGTH_AT);
  }

  /** Where a failed read leaves the input. */
  function Abandoned(rest: seq<byte>): (after: seq<byte>) {
    if |rest| < HEADER then rest
    else if |rest| < NameEnd(rest) then rest[HEADER..]
    else if |rest| < CommentEnd(rest) then rest[NameEnd(rest)..]
    else rest[CommentEnd(rest)..]
  }

  lemma Pieces(rest: seq<byte>)
    requires |rest| >= HEADER && |rest| >= CommentEnd(rest)
    ensures rest[HEADER..][..rest[FILENAME_LENGTH_AT]] == rest[HEADER..NameEnd(rest)]
    ensures rest[HEADER..][rest[FILENAME_LENGTH_AT]..] == rest[NameEnd(rest)..]
    ensures rest[NameEnd(rest)..][..rest[COMMENT_LENGTH_AT]] == rest[NameEnd(rest)..CommentEnd(rest)]
    ensures rest[NameEnd(rest)..][rest[COMMENT_LENGTH_AT]..] == rest[CommentEnd(rest)..]
  {
  }

  /** The checksum in three calls. */
  method HeaderSum(metadata: Metadata, filename: seq<byte>, comment: seq<byte>) returns (sum: uint32)
    ensures sum == Update(0, metadata + filename + comment)
  {
    hide Update;
    var crc := new Crc32();
    sum := crc.Calc(metadata);
    sum := crc.Calc(filename);
    sum := crc.Calc(comment);
    UpdateConcat(0, metadata, filename);
    UpdateConcat(0, metadata + filename, comment);
  }

  /** `Entry::from_buffer`. At the end of the input, and after an error, `out` is left alone. */
  method FromBuffer(buffer: InputBuffer, out: Option<Entry>) returns (status: Status, out': Option<Entry>)
    requires buffer.Valid() && buffer.available == 0
    modifies buffer`position
    ensures buffer.Valid() && buffer.available == 0
    ensures old(buffer.Rest()) == [] ==> status == Ok && out' == out && buffer.Rest() == []
    ensures old(buffer.Rest()) != [] ==>
              match ParseEntry(old(buffer.Rest()))
              case Success((e, after)) => status == Ok && out' == Some(e) && buffer.Rest() == after
              case Failure(f) => status == f && out' == out && buffer.Rest() == Abandoned(old(buffer.Rest()))
  {
    hide Update, InputBuffer.View, WithCrc, StoredCrc;
    out' := out;
    var eof := buffer.IsEof();
    if eof {
      return Ok, out;
    }
    ghost var rest := buffer.Rest();
    var metadata, filename, comment;
    status, metadata := buffer.ReadBytes(HEADER);
    if status != Ok {
      return;
    }
    var headerCrc := StoredCrc(metadata);
    metadata := WithCrc(metadata, 0);
    status, filename := buffer.ReadBytes(metadata[FILENAME_LENGTH_AT]);
    if status != Ok {
      return;
    }
    status, comment := buffer.ReadBytes(metadata[COMMENT_LENGTH_AT]);
    if status != Ok {
      return;
    }
    var sum := HeaderSum(metadata, filename, comment);
    Pieces(rest);
    assert Described(rest) == Entry(metadata, filename, comment);
    if sum != headerCrc {
      return ChecksumInvalid, out;
    }
    return Ok, Some(Entry(metadata, filename, comment));
  }

  // ---------------------------------------------------------------- layout

  /** The fields of a header that do not concern the reading of the archive. */
  datatype FreeFields = FreeFields(attributes: byte, reserved1: byte, machine: byte, packing: byte, flags: byte,
                                   reserved2: byte, version: byte, reserved3: byte, reserved4: byte,
                                   date: uint32, dataCrc: uint32)

  /** The 31 bytes of the metadata, field by field. The upper bits of the bytes for the mode and the
      flags are free. */
  function Layout(free: FreeFields, unpackSize: uint32, packSize: uint32, mode: nat, merged: nat,
                  commentLength: byte, headerCrc: uint32, filenameLength: byte): (m: Metadata)
    requires mode < 32 && merged < 2
  {
    [free.attributes, free.reserved1] + Bytes32(unpackSize) + Bytes32(packSize)
    + [free.machine, free.packing - free.packing % 32 + mode, free.flags - free.flags % 2 + merged, free.reserved2]
    + [commentLength, free.version, free.reserved3, free.reserved4]
    + Bytes32(free.date) + Bytes32(free.dataCrc) + Bytes32(headerCrc) + [filenameLength]
  }

  /** The numbers of a header, byte by byte. */
  lemma NumbersAre(e: Entry)
    ensures e.UnpackSize() == At(e.metadata, 2) + 0x100 * At(e.metadata, 3) + 0x1_0000 * At(e.metadata, 4) + 0x100_0000 * At(e.metadata, 5)
    ensures e.PackSize() == At(e.metadata, 6) + 0x100 * At(e.metadata, 7) + 0x1_0000 * At(e.metadata, 8) + 0x100_0000 * At(e.metadata, 9)
    ensures StoredCrc(e.metadata) ==
              At(e.metadata, 26) + 0x100 * At(e.metadata, 27) + 0x1_0000 * At(e.metadata,
                  28) + 0x100_0000 * At(e.metadata, 29)
    ensures e.Mode() == At(e.metadata, 11) % 32 && e.IsMerged() == (At(e.metadata, 12) % 2 == 1)
  {
  }

  function At(m: Metadata, i: nat): nat
    requires i < 31
  {
    m[i]
  }

  /** Each field is found where the layout puts it. */
  lemma LayoutIs(free: FreeFields, unpackSize: uint32, packSize: uint32, mode: nat, merged: nat,
                 commentLength: byte, headerCrc: uint32, filenameLength: byte, name: seq<byte>, comment: seq<byte>)
    requires mode < 32 && merged < 2
    ensures var m := Layout(free, unpackSize, packSize, mode, merged, commentLength, headerCrc, filenameLength);
            var e := Entry(m, name, comment);
            && e.UnpackSize() == unpackSize && e.PackSize() == packSize
            && e.Mode() == mode && e.IsMerged() == (merged == 1)
            && StoredCrc(m) == headerCrc
            && (e.WellFormed() <==> |name| == filenameLength && |comment| == commentLength && headerCrc == 0)
  {
    hide Bytes32, Little32;
    var m := Layout(free, unpackSize, packSize, mode, merged, commentLength, headerCrc, filenameLength);
    assert m[2..6] == Bytes32(unpackSize) && m[6..10] == Bytes32(packSize) && m[26..30] == Bytes32(headerCrc);
    Field(m, 2, unpackSize);
    Field(m, 6, packSize);
    Field(m, 26, headerCrc);
    assert m[11] == free.packing - free.packing % 32 + mode && m[12] == free.flags - free.flags % 2 + merged;
    assert m[14] == commentLength && m[30] == filenameLength;
    LowFive(free.packing, mode);
    LowOne(free.flags, merged);
  }

  lemma Field(m: Metadata, at: nat, v: uint32)
    requires at + 4 <= |m| && m[at..at + 4] == Bytes32(v)
    ensures Little32(m[at], m[at + 1], m[at + 2], m[at + 3]) == v
  {
    hide Little32;
    var f := m[at..at + 4];
    assert m[at] == f[0] && m[at + 1] == f[1] && m[at + 2] == f[2] && m[at + 3] == f[3];
  }

  lemma LowFive(b: byte, v: nat)
    requires v < 32
    ensures 0 <= b - b % 32 + v < 256 && (b - b % 32 + v) % 32 == v
  {
    var q := b / 32;
    assert b - b % 32 == 32 * q;
  }

  lemma LowOne(b: byte, v: nat)
    requires v < 2
    ensures 0 <= b - b % 2 + v < 256 && (b - b % 2 + v) % 2 == v
  {
    var q := b / 2;
    assert b - b % 2 == 2 * q;
  }

  // ---------------------------------------------------------------- writing

  /** The reference writer: the header with its checksum filled in. */
  function EntryBytes(e: Entry): seq<byte> {
    Protected(e, Update(0, e.Covered()))
  }

  function Protected(e: Entry, crc: uint32): (b: seq<byte>)
    ensures |b| == HEADER + |e.filename| + |e.comment|
  {
    WithCrc(e.metadata, crc) + e.filename + e.comment
  }

  /** The field holds its own four bytes and no others. */
  lemma FieldDecides(m: Metadata, m': Metadata)
    requires StoredCrc(m) == StoredCrc(m')
    requires forall i :: 0 <= i < HEADER && !InCrcField(i) ==> m[i] == m'[i]
    ensures m == m'
  {
    Little32Injective(m[HEADER_CRC_AT..HEADER_CRC_AT + 4], StoredCrc(m));
    Little32Injective(m'[HEADER_CRC_AT..HEADER_CRC_AT + 4], StoredCrc(m));
    var field := Bytes32(StoredCrc(m));
    forall i | 0 <= i < HEADER ensures m[i] == m'[i] {
      if InCrcField(i) {
        assert m[i] == field[i - HEADER_CRC_AT] == m'[i];
      }
    }
  }

  lemma CrcField(m: Metadata, crc: uint32)
    ensures StoredCrc(m) == 0 ==> WithCrc(WithCrc(m, crc), 0) == m
    ensures WithCrc(WithCrc(m, 0), StoredCrc(m)) == m
  {
    hide StoredCrc, WithCrc, InCrcField;
    FieldDecides(WithCrc(WithCrc(m, 0), StoredCrc(m)), m);
    if StoredCrc(m) == 0 {
      FieldDecides(WithCrc(WithCrc(m, crc), 0), m);
    }
  }

  /** What a reader makes of a header with any checksum in it. */
  lemma ParseProtected(e: Entry, crc: uint32, tail: seq<byte>)
    requires e.WellFormed()
    ensures ParseEntry(Protected(e, crc) + tail) ==
            if crc == Update(0, e.Covered()) then Success((e, tail)) else Failure(ChecksumInvalid)
  {
    hide Update, WithCrc, StoredCrc;
    CrcField(e.metadata, crc);
    var m, rest := WithCrc(e.metadata, crc), Protected(e, crc) + tail;
    assert rest[..HEADER] == m;
    assert rest[FILENAME_LENGTH_AT] == m[FILENAME_LENGTH_AT] && rest[COMMENT_LENGTH_AT] == m[COMMENT_LENGTH_AT];
    assert rest[HEADER..NameEnd(rest)] == e.filename;
    assert rest[NameEnd(rest)..CommentEnd(rest)] == e.comment;
    assert rest[CommentEnd(rest)..] == tail;
  }

  /** A header is accepted exactly when the reference writer could have produced it. */
  lemma ParseIsPrint(rest: seq<byte>, e: Entry, tail: seq<byte>)
    ensures ParseEntry(rest) == Success((e, tail)) <==> e.WellFormed() && rest == EntryBytes(e) + tail
  {
    hide Update, WithCrc, StoredCrc;
    if e.WellFormed() {
      ParseProtected(e, Update(0, e.Covered()), tail);
    }
    if ParseEntry(rest) == Success((e, tail)) {
      ParsedIsWellFormed(rest, e, tail);
      CrcField(rest[..HEADER], 0);
      var n, c := NameEnd(rest), CommentEnd(rest);
      assert rest == rest[..HEADER] + rest[HEADER..n] + rest[n..c] + rest[c..];
    }
  }

  /** A header damaged within four consecutive bytes of what its checksum covers is rejected. */
  lemma DamagedHeaderRejected(e: Entry, e': Entry, a: seq<byte>, x: seq<byte>, y: seq<byte>, c: seq<byte>,
                              crc: uint32, tail: seq<byte>)
    requires e.WellFormed() && e'.WellFormed()
    requires e.metadata + e.filename + e.comment == a + x + c && e'.metadata + e'.filename + e'.comment == a + y + c
    requires |x| == |y| <= 4 && x != y
    requires ParseEntry(Protected(e, crc) + tail).Success?
    ensures ParseEntry(Protected(e', crc) + tail) == Failure(ChecksumInvalid)
  {
    hide Update, ParseEntry, Protected, Entry.WellFormed;
    ByteBurstDetected(0, a, x, y, c);
    ParseProtected(e, crc, tail);
    ParseProtected(e', crc, tail);
  }

  /** What the checksum of a header covers, in order: the metadata with the field for it cleared, the
      name, and the comment. */
  lemma ChecksumCovers(m: Metadata, crc: uint32, name: seq<byte>, comment: seq<byte>, tail: seq<byte>)
    requires StoredCrc(m) == 0 && |name| == m[30] && |comment| == m[14]
    ensures ParseEntry(m[..26] + Bytes32(crc) + [m[30]] + name + comment + tail) ==
              if crc == Update(Update(Update(0, m), name), comment) then Success((Entry(m, name, comment), tail))
              else Failure(ChecksumInvalid)
  {
    hide Update, Bytes32, Little32;
    var e := Entry(m, name, comment);
    UpdateConcat(0, m, name);
    UpdateConcat(0, m + name, comment);
    ParseProtected(e, crc, tail);
    assert WithCrc(m, crc) == m[..26] + Bytes32(crc) + [m[30]];
  }

  /** A header that is cut short is reported as such, wherever the cut is. */
  lemma CutShort(e: Entry, n: nat)
    requires e.WellFormed() && n < |EntryBytes(e)|
    ensures ParseEntry(EntryBytes(e)[..n]) == Failure(UnexpectedEof)
  {
    hide Update, WithCrc, StoredCrc;
    var all, rest := EntryBytes(e), EntryBytes(e)[..n];
    var m := WithCrc(e.metadata, Update(0, e.Covered()));
    assert !InCrcField(14) && !InCrcField(30);
    if n >= 31 {
      assert rest[14] == all[14] == m[14] && rest[30] == all[30] == m[30];
    }
  }
}
