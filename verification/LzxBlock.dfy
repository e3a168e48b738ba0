/** One compressed block (src/lzx_block.cc): a chain of decoder blocks, decompressed on demand
    and at most once. */
module LzxBlocks {
  import opened Errors
  import opened MmapBuffer
  import opened DecoderSpec
  import opened HuffmanDecoders

  const MODE_NONE: nat := 0
  const MODE_NORMAL: nat := 2

  /** What a block holds, as a function of its packed bytes. */
  ghost function Unpack(mode: nat, packed: seq<byte>, total: nat): (r: Result<seq<byte>>)
    ensures r.Success? ==> |r.value| == total
  {
    if mode == MODE_NONE then
      if |packed| < total then Failure(UnexpectedEof) else Success(packed[..total])
    else if mode == MODE_NORMAL then Decompress(packed, total)
    else Failure(UnknownCompression)
  }

  /** The first bytes are the content when nothing is packed (mode 0), and too few are an error. */
  lemma StoredUnpacks(packed: seq<byte>, total: nat)
    ensures Unpack(0, packed, total) ==
              if |packed| < total then Failure(UnexpectedEof) else Success(packed[..total])
  {
  }

  /** Mode 2 is decompression, and there are no modes but 0 and 2. */
  lemma ModesAre(mode: nat, packed: seq<byte>, total: nat)
    ensures Unpack(2, packed, total) == Decompress(packed, total)
    ensures mode != 0 && mode != 2 ==> Unpack(mode, packed, total) == Failure(UnknownCompression)
  {
  }

  /** `status` and `data` are what unpacking gave. */
  ghost predicate Unpacked(expected: Result<seq<byte>>, status: Status, data: seq<byte>) {
    match expected
    case Success(out) => status == Ok && data == out
    case Failure(e) => status == e && e != Ok
  }

  class LzxBlock {
    const mode: nat
    const packed: seq<byte>
    const total: nat
    const inFile: InputBuffer

    var dataSpan: seq<byte>
    var status: Status
    var isDecompressed: bool

    ghost predicate Valid()
      reads this, inFile
    {
      && inFile.data == packed
      && (!isDecompressed ==> inFile.Valid() && inFile.View() == StreamOf(packed) && inFile.Rest() == packed
                              && inFile.available == 0)
      && (isDecompressed ==> Unpacked(Unpack(mode, packed, total), status, dataSpan))
    }

    constructor (mode: nat, packed: seq<byte>, total: nat)
      ensures Valid() && fresh(inFile)
      ensures this.mode == mode && this.packed == packed && this.total == total
      ensures !isDecompressed
    {
      hide InputBuffer.View, InputBuffer.Valid, StreamOf;
      this.mode, this.packed, this.total := mode, packed, total;
      inFile := new InputBuffer(packed);
      dataSpan, status, isDecompressed := [], Ok, false;
      new;
      assert packed[0..] == packed;
    }

    /** The block's bytes. The first call does the work; later calls change nothing and repeat
        the answer. */
    method Data() returns (r: Option<seq<byte>>)
      requires Valid()
      modifies this, inFile
      ensures Valid() && isDecompressed
      ensures old(isDecompressed) ==> status == old(status) && dataSpan == old(dataSpan)
      ensures r == (if status == Ok then Some(dataSpan) else None)
      ensures match Unpack(mode, packed, total)
              case Success(out) => status == Ok && r == Some(out)
              case Failure(e) => status == e && e != Ok && r == None
    {
      hide InputBuffer.View, InputBuffer.Valid, InputBuffer.Rest, Decompress, StreamOf;
      if isDecompressed {
        return if status == Ok then Some(dataSpan) else None;
      }
      isDecompressed := true;
      if mode == MODE_NONE {
        var sub := new InputBuffer.Copy(inFile);
        status, dataSpan := sub.ReadBytes(total);
      } else if mode != MODE_NORMAL {
        status := UnknownCompression;
      } else {
        var target;
        status, target := DecompressAll(inFile, total);
        if status == Ok {
          dataSpan := target[..total];
        }
      }
      return if status == Ok then Some(dataSpan) else None;
    }
  }

  /** The block loop. */
  method DecompressAll(source: InputBuffer, total: nat) returns (status: Status, target: array<byte>)
    requires source.Valid()
    requires source.View() == StreamOf(source.data)
    modifies source
    ensures fresh(target) && target.Length == total + 256
    ensures Unpacked(Decompress(source.data, total), status, target[..total])
  {
    hide InputBuffer.View, InputBuffer.Valid, HuffmanDecoder.Valid, HuffmanDecoder.State, HuffmanDecoder.Shape,
        Round, DecoderOk, StreamOf;
    var decoder := new HuffmanDecoder();
    target := new byte[total + 256](_ => 0);
    var length: nat := 0;
    var pos: nat := 0;
    InitialDecoderOk();
    assert target[..0] == [];
    ghost var m := Machine(decoder.State(), source.View(), target[..pos]);
    ghost var all := Decompress(source.data, total);
    assert all == Blocks(m, 0, total);
    while pos < total
      invariant source.Valid() && decoder.Valid() && pos <= target.Length
      invariant m == Machine(decoder.State(), source.View(), target[..pos])
      invariant MachineOk(m) && Blocks(m, length, total) == all
      decreases total - pos, |m.stream.bits|
    {
      status, pos, length := BlockRound(decoder, source, target, pos, length, total);
      if status != Ok {
        return;
      }
      m := Machine(decoder.State(), source.View(), target[..pos]);
    }
    status := Ok;
  }

  method BlockRound(decoder: HuffmanDecoder, source: InputBuffer, target: array<byte>, pos: nat,
      remaining: nat, total: nat)
    returns (status: Status, pos': nat, left: nat)
    requires decoder.Valid() && source.Valid() && target.Length == total + 256 && pos < total
    modifies decoder, decoder.offsets.bitLength, decoder.offsets.table, decoder.huffman20.bitLength,
             decoder.huffman20.table, decoder.literals.bitLength, decoder.literals.table, source, target
    ensures source.Valid()
    ensures match Round(Machine(old(decoder.State()), old(source.View()), old(target[..pos])), remaining, total)
            case Success((m, l)) =>
              && status == Ok && left == l && pos' == |m.out| <= target.Length
              && decoder.Valid() && m == Machine(decoder.State(), source.View(), target[..pos'])
            case Failure(e) => status == e && e != Ok
  {
    hide InputBuffer.View, InputBuffer.Valid, HuffmanDecoder.Valid, HuffmanDecoder.State, HuffmanDecoder.Shape,
        ReadHeader, Decrunch, DecoderOk;
    var length := remaining;
    pos', left := pos, remaining;
    if length == 0 {
      status := decoder.ReadLiteralTable(source);
      if status != Ok {
        return;
      }
      length := decoder.decrunchLength;
    }
    status, pos' := decoder.DecrunchInto(source, target, pos, Min(pos + length, total));
    if status != Ok {
      return;
    }
    var decoded := pos' - pos;
    var eof := source.IsEof();
    if decoded == 0 && eof {
      status := UnexpectedEof;
      return;
    }
    left := Left(length, decoded);
  }
}
