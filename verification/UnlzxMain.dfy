/** Viewing a file of an archive (src/unlzx_main.cc): the objects put together. What is printed there
    is returned here. */
module UnlzxMain {
  import opened Errors
  import opened MmapBuffer
  import opened LzxBlocks
  import opened ArchiveSpec
  import opened ArchiveProperties
  import opened ArchiveRoundTrip
  import opened ArchiveOfFiles
  import opened Unlzxs

  /** The part of its block that a segment names, or nothing if the block does not unpack. */
  ghost function PartOf(g: Segment): seq<byte>
    requires g.offset + g.length <= g.block.total
  {
    match Unpack(g.block.mode, g.block.packed, g.block.total)
    case Success(out) => out[g.offset..g.offset + g.length]
    case Failure(_) => []
  }

  ghost predicate InRange(segments: seq<Segment>) {
    forall g <- segments :: g.offset + g.length <= g.block.total
  }

  ghost function DataOf(segments: seq<Segment>): seq<byte>
    requires InRange(segments)
    decreases |segments|
  {
    if |segments| == 0 then []
    else DataOf(segments[..|segments| - 1]) + PartOf(segments[|segments| - 1])
  }

  /** No two blocks share a reader. */
  ghost predicate Separate(segments: seq<Segment>) {
    forall g <- segments, h <- segments :: g.block.inFile == h.block.inFile ==> g.block == h.block
  }

  /** All segments of an entry, one after the other. */
  method ViewEntry(entry: LzxEntry) returns (data: seq<byte>)
    requires InRange(entry.segments) && Separate(entry.segments)
    requires forall g <- entry.segments :: g.block.Valid()
    modifies set g <- entry.segments :: g.block, set g <- entry.segments :: g.block.inFile
    ensures data == DataOf(entry.segments)
  {
    hide LzxBlock.Valid, Unpack;
    var segments := entry.segments;
    data := [];
    for i := 0 to |segments|
      invariant forall g <- segments :: g.block.Valid()
      invariant InRange(segments[..i]) && data == DataOf(segments[..i])
    {
      var part := SegmentData(segments[i]);
      assert segments[..i + 1][..i] == segments[..i];
      data := data + part;
    }
    assert segments[..|segments|] == segments;
  }

  function Concat(contents: seq<seq<byte>>): seq<byte>
    decreases |contents|
  {
    if |contents| == 0 then [] else Concat(contents[..|contents| - 1]) + contents[|contents| - 1]
  }

  lemma {:induction false} HeldData(segments: seq<Segment>, contents: seq<seq<byte>>)
    requires InRange(segments) && Hold(segments, contents)
    ensures DataOf(segments) == Concat(contents)
    decreases |segments|
  {
    hide Unpack;
    if |segments| > 0 {
      var n := |segments| - 1;
      assert Holds(segments[n], contents[n]);
      HeldData(segments[..n], contents[..n]);
    }
  }

  /** Open an archive, list it, and view the entry of a name. The first ten bytes decide the status; the
      data is what the segments of the name hold, whatever else the file contains. */
  method View(file: seq<byte>, name: Name) returns (status: Status, data: seq<byte>, ghost blocks: seq<Option<LzxBlock>>)
    ensures status == if |file| < 10 then UnexpectedEof
                      else if file[..3] != ['L' as byte, 'Z' as byte, 'X' as byte] then NotLzxFile else Ok
    ensures status == Ok ==>
              && Supplied(Scan(file[10..]).0, blocks)
              && var builders := Run(Scan(file[10..]).0, blocks).builders;
                 if name in builders then InRange(builders[name].segments) && data == DataOf(builders[name].segments)
                 else data == []
    ensures status != Ok ==> data == []
  {
    hide LzxBlock.Valid, Unpack, Supplied, Run, Scan, InRange, DataOf;
    blocks := [];
    var unlzx := new Unlzx();
    status := unlzx.OpenArchive(file);
    if status != Ok {
      return status, [], [];
    }
    ghost var records := Scan(unlzx.inBuffer.value.Rest()).0;
    var entries;
    entries, blocks := unlzx.ListArchive();
    if name !in entries {
      return Ok, [], blocks;
    }
    SegmentsReady(records, blocks, name);
    data := ViewEntry(entries[name]);
  }

  /** On an archive written from any parcels, viewing a name gives the contents of the files of that
      name, joined in the order of the archive. */
  lemma ViewRoundTrips(info: seq<byte>, parcels: seq<Parcel>, name: Name, blocks: seq<Option<LzxBlock>>)
    requires |info| == 7 && ParcelsOk(parcels) && Supplied(Scan(ArchiveFile(info, parcels)[10..]).0, blocks)
    ensures var builders := Run(Scan(ArchiveFile(info, parcels)[10..]).0, blocks).builders;
            if name in builders then
              InRange(builders[name].segments) && DataOf(builders[name].segments) == Concat(Versions(AllFiles(parcels), name))
            else Versions(AllFiles(parcels), name) == []
  {
    hide ParcelOk, Supplied, Run, Scan, AllRecords, AllFiles, Versions, Hold, ArchiveFile, InRange, DataOf, Concat;
    ArchiveRoundTrips(info, parcels);
    var records := AllRecords(parcels);
    FilesListed(parcels, blocks);
    if name in Run(records, blocks).builders {
      SegmentsReady(records, blocks, name);
      HeldData(Run(records, blocks).builders[name].segments, Versions(AllFiles(parcels), name));
    } else {
      NoVersions(AllFiles(parcels), name);
    }
  }

  lemma {:induction false} NoVersions(files: seq<Member>, name: Name)
    requires forall f <- files :: f.entry.filename != name
    ensures Versions(files, name) == []
    decreases |files|
  {
    if |files| > 0 {
      NoVersions(files[..|files| - 1], name);
    }
  }

  /** The segments of a listed entry lie within their blocks, which are blocks of the listing. */
  lemma SegmentsReady(records: seq<Record>, blocks: seq<Option<LzxBlock>>, name: Name)
    requires Supplied(records, blocks) && name in Run(records, blocks).builders
    ensures var segments := Run(records, blocks).builders[name].segments;
            InRange(segments) && forall g <- segments :: Some(g.block) in blocks
  {
    hide Supplied, Run;
    var segments := Run(records, blocks).builders[name].segments;
    forall g | g in segments
      ensures g.offset + g.length <= g.block.total && Some(g.block) in blocks
    {
      SegmentsInRange(records, blocks, name, g);
    }
  }
}
