/** The archive (src/unlzx.cc) and the segments it hands out (src/lzx_entry.cc). */
module Unlzxs {
  import opened Errors
  import opened MmapBuffer
  import opened LzxHandle
  import opened LzxBlocks
  import opened ArchiveSpec
  import opened ArchiveProperties

  const ARCHIVE_HEADER: nat := 10

  function Magic(): (m: seq<byte>)
    ensures |m| == 3 && m == [76, 90, 88]
  {
    ['L' as byte, 'Z' as byte, 'X' as byte]
  }

  lemma MagicIs(file: seq<byte>)
    requires |file| >= 3
    ensures file[..3] == Magic() <==> file[0] == 'L' as byte && file[1] == 'Z' as byte && file[2] == 'X' as byte
  {
  }

  /** An entry of the finished listing. */
  datatype LzxEntry = LzxEntry(name: Name, metadata: Entry, segments: seq<Segment>)

  function Built(builders: map<Name, Builder>): map<Name, LzxEntry> {
    map name <- builders :: LzxEntry(name, builders[name].metadata, builders[name].segments)
  }

  /** Each name is listed once, under the metadata of its first record and with all that it was handed. */
  lemma BuiltIsListed(records: seq<Record>, blocks: seq<Option<LzxBlock>>)
    requires Supplied(records, blocks)
    ensures var entries := Built(Run(records, blocks).builders);
            && (forall name :: name in entries <==> FirstOf(records, name).Some?)
            && (forall name <- entries :: entries[name] ==
                  LzxEntry(name, FirstOf(records, name).value, SegmentsFor(Run(records, blocks).log, name)))
  {
    hide Supplied, Run, Conserved, Partitioned, FirstOf, SegmentsFor;
    RunKeeps(records, blocks);
  }

  /** `LzxFileSegment::data`: the segment's part of its block, or nothing if the block is faulty. */
  method SegmentData(segment: Segment) returns (data: seq<byte>)
    requires segment.block.Valid() && segment.offset + segment.length <= segment.block.total
    modifies segment.block, segment.block.inFile
    ensures segment.block.Valid() && segment.block.isDecompressed
    ensures match Unpack(segment.block.mode, segment.block.packed, segment.block.total)
            case Success(out) => data == out[segment.offset..segment.offset + segment.length]
            case Failure(_) => data == []
  {
    hide LzxBlock.Valid, Unpack;
    var all := segment.block.Data();
    if all == None {
      return [];
    }
    return all.value[segment.offset..segment.offset + segment.length];
  }

  /** `LzxEntry::unpack_size` */
  method UnpackSize(entry: LzxEntry) returns (total: nat)
    ensures total == TotalLength(SpansOf(entry.segments))
  {
    total := 0;
    for i := 0 to |entry.segments|
      invariant total == TotalLength(SpansOf(entry.segments)[..i])
    {
      assert SpansOf(entry.segments)[..i + 1][..i] == SpansOf(entry.segments)[..i];
      total := total + entry.segments[i].length;
    }
    assert SpansOf(entry.segments)[..|entry.segments|] == SpansOf(entry.segments);
  }

  method AttachPending(builders: map<Name, Builder>, pending: seq<Pending>,
      block: LzxBlock) returns (r: map<Name, Builder>)
    requires forall p <- pending :: p.filename in builders
    ensures r == AttachAll(builders, pending, block)
  {
    r := builders;
    for i := 0 to |pending|
      invariant r == AttachAll(builders, pending[..i], block)
    {
      assert pending[..i + 1][..i] == pending[..i];
      r := Attach(r, pending[i].filename, Segment(block, pending[i].offset, pending[i].length));
    }
    assert pending[..|pending|] == pending;
  }

  /** The packed bytes that follow, or nothing if they are cut short; the reader does not move. */
  method BlockData(buffer: InputBuffer, packSize: nat) returns (data: seq<byte>)
    requires buffer.Valid() && buffer.available == 0
    ensures data == if |buffer.Rest()| < packSize then [] else buffer.Rest()[..packSize]
  {
    hide InputBuffer.View;
    var sub := new InputBuffer.Copy(buffer);
    var status, blockData := sub.ReadBuffer(packSize);
    data := blockData.data;
  }

  lemma RunOfNothing()
    ensures Supplied([], []) && Run([], []) == Empty()
  {
  }

  lemma ScanOfNothing()
    ensures Scan([]) == ([], [])
  {
  }

  /** Enter one record and, if it makes a block, hand the block out. */
  method Enlist(buffer: InputBuffer, builders: map<Name, Builder>, pending: seq<Pending>, offset: nat,
      e: Entry, ghost s: Listing)
    returns (builders': map<Name, Builder>, pending': seq<Pending>, offset': nat, ghost made: Option<LzxBlock>)
    requires buffer.Valid() && buffer.available == 0
    requires NamesKnown(s) && s.builders == builders && s.pending == pending && s.offset == offset
    ensures var record := Record(e, if |buffer.Rest()| < e.PackSize() then [] else buffer.Rest()[..e.PackSize()]);
            && (made.Some? <==> record.MakesBlock())
            && (made.Some? ==> IsBlockOf(Enter(s, e), record, made.value))
            && var s' := Process(s, record, made);
               builders' == s'.builders && pending' == s'.pending && offset' == s'.offset
    ensures made.Some? ==> fresh(made.value) && fresh(made.value.inFile) && made.value.Valid() && !made.value.isDecompressed
  {
    hide LzxBlock.Valid, InputBuffer.View;
    ghost var s' := Enter(s, e);
    made := None;
    builders', pending', offset' := Registered(builders, e), pending, offset;
    if e.IsMerged() {
      pending' := pending' + [Pending(e.filename, offset', e.UnpackSize())];
      offset' := offset' + e.UnpackSize();
      if e.PackSize() > 0 {
        var data := BlockData(buffer, e.PackSize());
        var block := new LzxBlock(e.Mode(), data, offset');
        made := Some(block);
        builders' := AttachPending(builders', pending', block);
        pending', offset' := [], 0;
      }
    } else {
      var data := BlockData(buffer, e.PackSize());
      var block := new LzxBlock(e.Mode(), data, e.UnpackSize());
      made := Some(block);
      builders' := Attach(builders', e.filename, Segment(block, 0, e.UnpackSize()));
    }
  }

  /** One iteration of the loop, at a place that is not the end of the input. */
  method ListOne(buffer: InputBuffer, header: Option<Entry>, builders: map<Name, Builder>,
      pending: seq<Pending>, offset: nat, ghost s: Listing)
    returns (status: Status, header': Option<Entry>, builders': map<Name, Builder>, pending': seq<Pending>,
        offset': nat, ghost made: Option<LzxBlock>)
    requires buffer.Valid() && buffer.available == 0 && buffer.Rest() != []
    requires NamesKnown(s) && s.builders == builders && s.pending == pending && s.offset == offset
    modifies buffer`position
    ensures buffer.Valid() && buffer.available == 0
    ensures match NextRecord(old(buffer.Rest()))
            case Failure(f) =>
              && status == f != Ok && made == None && buffer.Rest() == Abandoned(old(buffer.Rest()))
              && builders' == builders && pending' == pending && offset' == offset
            case Success(next) =>
              && (status == Ok <==> next.complete) && buffer.Rest() == next.after
              && (made.Some? <==> next.record.MakesBlock())
              && (made.Some? ==> IsBlockOf(Enter(s, next.record.entry), next.record, made.value))
              && var s' := Process(s, next.record, made);
                 builders' == s'.builders && pending' == s'.pending && offset' == s'.offset
    ensures made.Some? ==> fresh(made.value) && fresh(made.value.inFile) && made.value.Valid() && !made.value.isDecompressed
  {
    hide LzxBlock.Valid, InputBuffer.View, ParseEntry, Abandoned, Process, Enter, IsBlockOf, Record.MakesBlock;
    ghost var rest := buffer.Rest();
    builders', pending', offset', made := builders, pending, offset, None;
    ParseFaults(rest);
    status, header' := FromBuffer(buffer, header);
    if status != Ok {
      return;
    }
    var e := header'.value;
    builders', pending', offset', made := Enlist(buffer, builders, pending, offset, e, s);
    var start;
    status, start := buffer.Skip(e.PackSize());
  }

  lemma ParseFaults(rest: seq<byte>)
    ensures ParseEntry(rest) != Failure(Ok)
  {
    hide Described, StoredCrc;
  }

  class Unlzx {
    var inBuffer: Option<InputBuffer>

    ghost predicate Valid()
      reads this, if inBuffer.Some? then {inBuffer.value} else {}
    {
      inBuffer.Some? ==> inBuffer.value.Valid() && inBuffer.value.available == 0
    }

    constructor ()
      ensures Valid() && inBuffer == None
    {
      inBuffer := None;
    }

    /** `file` is the mapped file. */
    method OpenArchive(file: seq<byte>) returns (status: Status)
      modifies this
      ensures Valid() && inBuffer.Some? && fresh(inBuffer.value) && inBuffer.value.data == file
      ensures status == if |file| < 10 then UnexpectedEof
                        else if file[..3] != ['L' as byte, 'Z' as byte, 'X' as byte] then NotLzxFile else Ok
      ensures inBuffer.value.Rest() == if |file| < 10 then file else file[10..]
    {
      hide InputBuffer.View, Magic;
      var buffer := new InputBuffer(file);
      inBuffer := Some(buffer);
      assert buffer.Rest() == file;
      var header;
      status, header := buffer.ReadBytes(ARCHIVE_HEADER);
      if status != Ok {
        return;
      }
      MagicIs(file);
      if header[0] != 'L' as byte || header[1] != 'Z' as byte || header[2] != 'X' as byte {
        return NotLzxFile;
      }
      return Ok;
    }

    /** `blocks` lists the blocks made, record by record. */
    method ListArchive() returns (entries: map<Name, LzxEntry>, ghost blocks: seq<Option<LzxBlock>>)
      requires Valid()
      modifies if inBuffer.Some? then {inBuffer.value} else {}
      ensures Valid() && inBuffer == old(inBuffer)
      ensures inBuffer == None ==> entries == map[]
      ensures inBuffer.Some? ==>
                var (records, end) := Scan(old(inBuffer.value.Rest()));
                && Supplied(records, blocks)
                && entries == Built(Run(records, blocks).builders)
                && (forall name :: name in entries <==> FirstOf(records, name).Some?)
                && (forall name <- entries :: entries[name] ==
                      LzxEntry(name, FirstOf(records, name).value, SegmentsFor(Run(records, blocks).log, name)))
                && inBuffer.value.Rest() == end
      ensures forall block :: Some(block) in blocks ==>
                fresh(block) && fresh(block.inFile) && block.Valid() && !block.isDecompressed
      ensures forall i, j :: 0 <= i < j < |blocks| && blocks[i].Some? && blocks[j].Some? ==>
                blocks[i].value.inFile != blocks[j].value.inFile
    {
      hide LzxBlock.Valid, InputBuffer.View, Scan, NextRecord, ParseEntry, Abandoned, Process, Enter,
          IsBlockOf, Record.MakesBlock, Supplied, Run;
      blocks := [];
      if inBuffer == None {
        return map[], [];
      }
      var buffer := inBuffer.value;
      var builders: map<Name, Builder>, pending: seq<Pending>, offset: nat := map[], [], 0;
      var header: Option<Entry> := None;
      ghost var all := Scan(buffer.Rest());
      ghost var done: seq<Record> := [];
      RunOfNothing();
      assert [] + all.0 == all.0;
      var eof := buffer.IsEof();
      while !eof
        invariant Valid() && inBuffer == Some(buffer) && eof == (buffer.Rest() == [])
        invariant all == (done + Scan(buffer.Rest()).0, Scan(buffer.Rest()).1)
        invariant Supplied(done, blocks)
        invariant var s := Run(done, blocks); s.builders == builders && s.pending == pending && s.offset == offset
        invariant forall block :: Some(block) in blocks ==>
                    fresh(block) && fresh(block.inFile) && block.Valid() && !block.isDecompressed
        invariant forall i, j :: 0 <= i < j < |blocks| && blocks[i].Some? && blocks[j].Some? ==>
                    blocks[i].value.inFile != blocks[j].value.inFile
        decreases |buffer.Rest()|
      {
        ghost var rest := buffer.Rest();
        ScanOn(done, rest, all);
        NextRecordShrinks(rest);
        var status;
        ghost var made;
        status, header, builders, pending, offset, made := ListOne(buffer, header, builders, pending, offset,
            Run(done, blocks));
        ghost var next := NextRecord(rest);
        if next.Success? {
          RunExtends(done, blocks, next.value.record, made);
          done, blocks := done + [next.value.record], blocks + [made];
        }
        if status != Ok {
          break;
        }
        eof := buffer.IsEof();
      }
      ScanOfNothing();
      assert done + [] == done;
      assert all == (done, buffer.Rest());
      BuiltIsListed(done, blocks);
      return Built(builders), blocks;
    }
  }
}
