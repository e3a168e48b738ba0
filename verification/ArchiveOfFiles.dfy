/** Whole archives: any list of files, packed one by one or together, is written, listed and found
    again with its contents. */
module ArchiveOfFiles {
  import opened Errors
  import opened MmapBuffer
  import opened Crc
  import opened LzxHandle
  import opened LzxBlocks
  import opened ArchiveSpec
  import opened ArchiveProperties
  import opened ArchiveRoundTrip
  import opened Encodability
  import opened Unlzxs

  /** Files packed together in a merged group, or one file packed alone. */
  datatype Parcel = Parcel(files: seq<Member>, merged: bool, packed: seq<byte>)
  {
    /** The packed bytes follow the last file, and are packed the way its header says. */
    function Mode(): nat
      requires |files| > 0
    {
      files[|files| - 1].entry.Mode()
    }
  }

  /** The header of the file is well formed and tells the size of its content. */
  predicate FileOk(f: Member) {
    f.entry.WellFormed() && f.entry.UnpackSize() == |f.content|
  }

  /** The headers tell where the packed bytes are and how many, whether the files are merged, and the
      packed bytes unpack to the contents. All other fields are free. */
  ghost predicate ParcelOk(p: Parcel)
    ensures ParcelOk(p) ==> |p.files| > 0 && (p.merged || |p.files| == 1)
  {
    && |p.files| > 0
    && (if p.merged then |p.packed| > 0 else |p.files| == 1)
    && (forall i :: 0 <= i < |p.files| ==>
          && FileOk(p.files[i]) && p.files[i].entry.IsMerged() == p.merged
          && p.files[i].entry.PackSize() == (if i == |p.files| - 1 then |p.packed| else 0))
    && Unpack(p.Mode(), p.packed, |Contents(p.files)|) == Success(Contents(p.files))
  }

  // ---------------------------------------------------------------- records

  /** The packed bytes follow the last file of a parcel. */
  ghost function RecordsOf(p: Parcel): (records: seq<Record>)
    requires ParcelOk(p)
    ensures |records| == |p.files|
  {
    GroupRecords(p.files, p.packed)
  }

  lemma RecordIs(p: Parcel, i: nat)
    requires ParcelOk(p) && i < |p.files|
    ensures FileOk(p.files[i]) && p.files[i].entry.IsMerged() == p.merged
    ensures RecordsOf(p)[i] == Record(p.files[i].entry, if i == |p.files| - 1 then p.packed else [])
    ensures Complete(RecordsOf(p)[i])
  {
    hide Unpack, Entry.WellFormed;
  }

  lemma MergedIsGroup(p: Parcel)
    requires ParcelOk(p) && p.merged
    ensures Group(p.files)
  {
    hide Unpack, Entry.WellFormed, Contents;
  }

  ghost predicate ParcelsOk(parcels: seq<Parcel>) {
    forall p <- parcels :: ParcelOk(p)
  }

  ghost function AllRecords(parcels: seq<Parcel>): seq<Record>
    requires ParcelsOk(parcels)
    decreases |parcels|
  {
    if |parcels| == 0 then []
    else
      var n := |parcels| - 1;
      AllRecords(parcels[..n]) + RecordsOf(parcels[n])
  }

  lemma {:induction false} RecordsComplete(parcels: seq<Parcel>)
    requires ParcelsOk(parcels)
    ensures forall r <- AllRecords(parcels) :: Complete(r)
    decreases |parcels|
  {
    hide ParcelOk, Complete, RecordsOf;
    if |parcels| > 0 {
      var n := |parcels| - 1;
      var p := parcels[n];
      RecordsComplete(parcels[..n]);
      forall i | 0 <= i < |p.files| ensures Complete(RecordsOf(p)[i]) {
        RecordIs(p, i);
      }
    }
  }

  // ---------------------------------------------------------------- parcel by parcel

  /** A file packed alone is handed its block at once. */
  lemma AloneHandedOut(pre: seq<Record>, record: Record, records: seq<Record>, blocks: seq<Option<LzxBlock>>)
    returns (block: LzxBlock)
    requires !record.entry.IsMerged() && records == pre + [record] && Supplied(records, blocks)
    requires Supplied(pre, blocks[..|pre|]) && Run(pre, blocks[..|pre|]).pending == []
    ensures var e, s := record.entry, Run(records, blocks);
            && s.log == Run(pre, blocks[..|pre|]).log + [Placed(e.filename, Segment(block, 0, e.UnpackSize()), false)]
            && s.pending == []
    ensures block.mode == record.entry.Mode() && block.packed == record.data && block.total == record.entry.UnpackSize()
  {
    hide Supplied, Run;
    var k := |pre|;
    RunSplits(records, blocks, k);
    assert records[..k] == pre && records[..k + 1] == records && blocks[..k + 1] == blocks;
    block := blocks[k].value;
  }

  lemma NothingRun(blocks: seq<Option<LzxBlock>>)
    requires Supplied([], blocks)
    ensures Run([], blocks) == Empty()
  {
  }

  lemma RecordsAre(p: Parcel)
    requires ParcelOk(p)
    ensures RecordsOf(p) == GroupRecords(p.files, p.packed)
  {
  }

  lemma ParcelUnpacks(p: Parcel)
    requires ParcelOk(p)
    ensures Unpack(p.Mode(), p.packed, |Contents(p.files)|) == Success(Contents(p.files))
    ensures |p.files| == 1 ==> Contents(p.files) == p.files[0].content
  {
    hide Unpack, FileOk, Contents;
    if |p.files| == 1 {
      OneContent(p.files);
    }
  }

  lemma OneContent(files: seq<Member>)
    requires |files| == 1
    ensures Contents(files) == files[0].content
  {
    assert files[..0] == [] && Contents(files[..0]) == [];
  }

  // ---------------------------------------------------------------- what a name stands for

  /** The contents of the files of that name, in their order. */
  function Versions(files: seq<Member>, name: Name): seq<seq<byte>>
    decreases |files|
  {
    if |files| == 0 then []
    else
      var f := files[|files| - 1];
      Versions(files[..|files| - 1], name) + if f.entry.filename == name then [f.content] else []
  }

  lemma VersionsLast(files: seq<Member>, f: Member, name: Name)
    ensures Versions(files + [f], name) == Versions(files, name) + if f.entry.filename == name then [f.content] else []
  {
    Last(files, f);
  }

  function AllFiles(parcels: seq<Parcel>): seq<Member>
    decreases |parcels|
  {
    if |parcels| == 0 then [] else AllFiles(parcels[..|parcels| - 1]) + parcels[|parcels| - 1].files
  }

  /** Segment by segment, the contents. */
  ghost predicate Hold(segments: seq<Segment>, contents: seq<seq<byte>>) {
    |segments| == |contents| && forall i :: 0 <= i < |segments| ==> Holds(segments[i], contents[i])
  }

  lemma HoldLast(segments: seq<Segment>, contents: seq<seq<byte>>, g: Segment, content: seq<byte>)
    requires Hold(segments, contents) && Holds(g, content)
    ensures Hold(segments + [g], contents + [content])
  {
    hide Holds;
  }

  /** A group hands each of its files, to its name, the part of the block that is its content. */
  lemma {:induction false} GroupHolds(log: seq<Placed>, before: seq<Member>, p: Parcel, block: LzxBlock,
      name: Name, k: nat)
    requires ParcelOk(p) && p.merged && k <= |p.files|
    requires block.mode == p.Mode() && block.packed == p.packed && block.total == |Contents(p.files)|
    requires Hold(SegmentsFor(log, name), Versions(before, name))
    ensures Hold(SegmentsFor(log + PlacedAll(Queue(p.files[..k]), block), name), Versions(before + p.files[..k], name))
    decreases k
  {
    hide ParcelOk, Queue, PlacedAll, SegmentsFor, Versions, Hold, Contents;
    if k == 0 {
      NothingQueued(p.files);
      NothingPlaced(block);
      assert log + PlacedAll([], block) == log && before + p.files[..0] == before;
    } else {
      GroupHolds(log, before, p, block, name, k - 1);
      RecordIs(p, k - 1);
      MemberHolds(p, block, k - 1);
      ContentsGrow(p.files, k - 1);
      FilesGrow(before, p.files, k - 1);
      HoldOneMore(log, Queue(p.files[..k - 1]), WaitingFor(p.files, k - 1), block,
                  before + p.files[..k - 1], p.files[k - 1], name);
    }
  }

  function WaitingFor(members: seq<Member>, i: nat): Pending
    requires i < |members|
  {
    Pending(members[i].entry.filename, |Contents(members[..i])|, |members[i].content|)
  }

  lemma FilesGrow(before: seq<Member>, files: seq<Member>, n: nat)
    requires n < |files|
    ensures before + files[..n + 1] == before + files[..n] + [files[n]]
  {
  }

  lemma HoldOneMore(log: seq<Placed>, q: seq<Pending>, w: Pending, block: LzxBlock, files: seq<Member>,
      f: Member, name: Name)
    requires Hold(SegmentsFor(log + PlacedAll(q, block), name), Versions(files, name))
    requires w.filename == f.entry.filename && Holds(SegmentOf(w, block), f.content)
    ensures Hold(SegmentsFor(log + PlacedAll(q + [w], block), name), Versions(files + [f], name))
  {
    hide SegmentsFor, PlacedAll, Versions, Hold, Holds;
    var segments, contents := SegmentsFor(log + PlacedAll(q, block), name), Versions(files, name);
    SegmentsForOneMore(log, q, w, block, name);
    VersionsLast(files, f, name);
    if f.entry.filename == name {
      HoldLast(segments, contents, SegmentOf(w, block), f.content);
    } else {
      NothingMore(segments, contents);
    }
  }

  lemma NothingMore(segments: seq<Segment>, contents: seq<seq<byte>>)
    ensures segments + [] == segments && contents + [] == contents
  {
  }

  lemma MemberHolds(p: Parcel, block: LzxBlock, i: nat)
    requires ParcelOk(p) && p.merged && i < |p.files|
    requires block.mode == p.Mode() && block.packed == p.packed && block.total == |Contents(p.files)|
    ensures Holds(SegmentOf(WaitingFor(p.files, i), block), p.files[i].content)
  {
    hide ParcelOk, Contents, Unpack;
    RecordIs(p, i);
    MergedIsGroup(p);
    ParcelUnpacks(p);
    ContentAt(p.files, i, |p.files|);
    assert p.files[..|p.files|] == p.files;
  }

  /** After any parcels nothing waits, and the segments handed to a name hold, one by one and in
      order, the contents of its files. */
  lemma {:induction false} ParcelsHold(parcels: seq<Parcel>, blocks: seq<Option<LzxBlock>>, name: Name)
    requires ParcelsOk(parcels) && Supplied(AllRecords(parcels), blocks)
    ensures Run(AllRecords(parcels), blocks).pending == []
    ensures Hold(SegmentsFor(Run(AllRecords(parcels), blocks).log, name), Versions(AllFiles(parcels), name))
    decreases |parcels|
  {
    hide ParcelOk, Supplied, Run, RecordsOf, Hold, Versions, SegmentsFor;
    if |parcels| == 0 {
      NothingRun(blocks);
      NothingHeld(name);
    } else {
      var n := |parcels| - 1;
      var pre, records := AllRecords(parcels[..n]), AllRecords(parcels);
      SuppliedPrefix(records, blocks, |pre|);
      assert records[..|pre|] == pre;
      ParcelsHold(parcels[..n], blocks[..|pre|], name);
      OneParcelMore(pre, AllFiles(parcels[..n]), parcels[n], records, blocks, name);
    }
  }

  lemma NothingHeld(name: Name)
    ensures Hold(SegmentsFor([], name), Versions([], name))
  {
  }

  lemma OneParcelMore(pre: seq<Record>, before: seq<Member>, p: Parcel, records: seq<Record>,
                      blocks: seq<Option<LzxBlock>>, name: Name)
    requires ParcelOk(p) && records == pre + RecordsOf(p) && Supplied(records, blocks)
    requires Supplied(pre, blocks[..|pre|]) && Run(pre, blocks[..|pre|]).pending == []
    requires Hold(SegmentsFor(Run(pre, blocks[..|pre|]).log, name), Versions(before, name))
    ensures Run(records, blocks).pending == []
    ensures Hold(SegmentsFor(Run(records, blocks).log, name), Versions(before + p.files, name))
  {
    hide ParcelOk, Supplied, Run, RecordsOf, Hold, Versions, SegmentsFor;
    if p.merged {
      TogetherHold(pre, before, p, records, blocks, name);
    } else {
      AloneHolds(pre, before, p, records, blocks, name);
    }
  }

  lemma TogetherHold(pre: seq<Record>, before: seq<Member>, p: Parcel, records: seq<Record>,
                     blocks: seq<Option<LzxBlock>>, name: Name)
    requires ParcelOk(p) && p.merged && records == pre + RecordsOf(p) && Supplied(records, blocks)
    requires Supplied(pre, blocks[..|pre|]) && Run(pre, blocks[..|pre|]).pending == []
    requires Hold(SegmentsFor(Run(pre, blocks[..|pre|]).log, name), Versions(before, name))
    ensures Run(records, blocks).pending == []
    ensures Hold(SegmentsFor(Run(records, blocks).log, name), Versions(before + p.files, name))
  {
    hide ParcelOk, Supplied, Run, RecordsOf, Hold, Versions, SegmentsFor, GroupRecords, Group, Queue, PlacedAll,
      Contents;
    MergedIsGroup(p);
    RecordsAre(p);
    RecordIs(p, |p.files| - 1);
    var block := GroupHandedOut(pre, p.files, p.packed, records, blocks);
    GroupHolds(Run(pre, blocks[..|pre|]).log, before, p, block, name, |p.files|);
    assert p.files[..|p.files|] == p.files;
  }

  lemma AloneHolds(pre: seq<Record>, before: seq<Member>, p: Parcel, records: seq<Record>,
                   blocks: seq<Option<LzxBlock>>, name: Name)
    requires ParcelOk(p) && !p.merged && records == pre + RecordsOf(p) && Supplied(records, blocks)
    requires Supplied(pre, blocks[..|pre|]) && Run(pre, blocks[..|pre|]).pending == []
    requires Hold(SegmentsFor(Run(pre, blocks[..|pre|]).log, name), Versions(before, name))
    ensures Run(records, blocks).pending == []
    ensures Hold(SegmentsFor(Run(records, blocks).log, name), Versions(before + p.files, name))
  {
    hide ParcelOk, Supplied, Run, RecordsOf, Hold, Versions, SegmentsFor, Unpack;
    var r, f := RecordsOf(p)[0], p.files[0];
    RecordIs(p, 0);
    ParcelUnpacks(p);
    assert RecordsOf(p) == [r] && p.files == [f];
    var block := AloneHandedOut(pre, r, records, blocks);
    var log, g := Run(pre, blocks[..|pre|]).log, Segment(block, 0, |f.content|);
    assert f.content[0..|f.content|] == f.content;
    VersionsLast(before, f, name);
    SegmentsForLast(log, Placed(f.entry.filename, g, false), name);
    if f.entry.filename == name {
      HoldLast(SegmentsFor(log, name), Versions(before, name), g, f.content);
    } else {
      NothingMore(SegmentsFor(log, name), Versions(before, name));
    }
  }

  lemma SegmentsForLast(log: seq<Placed>, placed: Placed, name: Name)
    ensures SegmentsFor(log + [placed], name) == SegmentsFor(log, name) + if placed.filename == name then [placed.segment] else []
  {
    Last(log, placed);
  }

  // ---------------------------------------------------------------- which names are listed

  lemma {:induction false} RecordNames(parcels: seq<Parcel>)
    requires ParcelsOk(parcels)
    ensures |AllRecords(parcels)| == |AllFiles(parcels)|
    ensures forall i :: 0 <= i < |AllFiles(parcels)| ==> AllRecords(parcels)[i].entry.filename == AllFiles(parcels)[i].entry.filename
    decreases |parcels|
  {
    hide ParcelOk, RecordsOf;
    if |parcels| > 0 {
      var p := parcels[|parcels| - 1];
      RecordNames(parcels[..|parcels| - 1]);
      forall i | 0 <= i < |p.files| ensures RecordsOf(p)[i].entry.filename == p.files[i].entry.filename {
        RecordIs(p, i);
      }
    }
  }

  /** Exactly the names of the files are listed. */
  lemma NamesListed(parcels: seq<Parcel>, blocks: seq<Option<LzxBlock>>, name: Name)
    requires ParcelsOk(parcels) && Supplied(AllRecords(parcels), blocks)
    ensures name in Run(AllRecords(parcels), blocks).builders <==> exists f <- AllFiles(parcels) :: f.entry.filename == name
  {
    hide Supplied, Run, Conserved, Partitioned, FirstOf, ParcelOk, AllRecords, AllFiles;
    var records := AllRecords(parcels);
    RunKeeps(records, blocks);
    RecordNames(parcels);
    if f :| f in AllFiles(parcels) && f.entry.filename == name {
      var i :| 0 <= i < |AllFiles(parcels)| && AllFiles(parcels)[i] == f;
      HasFirst(records, i);
    } else {
      forall r | r in records ensures r.entry.filename != name {
        var i :| 0 <= i < |records| && records[i] == r;
        assert AllFiles(parcels)[i] in AllFiles(parcels);
      }
      NoFirst(records, name);
    }
  }

  // ---------------------------------------------------------------- whole archives

  /** The bytes of an archive: ten bytes of which the first three matter, and the records. */
  ghost function ArchiveFile(info: seq<byte>, parcels: seq<Parcel>): seq<byte>
    requires |info| == 7 && ParcelsOk(parcels)
  {
    ['L' as byte, 'Z' as byte, 'X' as byte] + info + ArchiveBytes(AllRecords(parcels))
  }

  /** In the listing of an archive each name stands for the contents of its files: it is listed if
      there is one, and its segments hold them, one by one and in order. */
  ghost predicate ListsFiles(builders: map<Name, Builder>, files: seq<Member>) {
    && (forall name :: name in builders <==> exists f <- files :: f.entry.filename == name)
    && (forall name <- builders :: Hold(builders[name].segments, Versions(files, name)))
  }

  lemma FilesListed(parcels: seq<Parcel>, blocks: seq<Option<LzxBlock>>)
    requires ParcelsOk(parcels) && Supplied(AllRecords(parcels), blocks)
    ensures ListsFiles(Run(AllRecords(parcels), blocks).builders, AllFiles(parcels))
  {
    hide Supplied, Run, Conserved, Partitioned, FirstOf, ParcelOk, AllRecords, AllFiles, Hold, Versions, SegmentsFor;
    var builders := Run(AllRecords(parcels), blocks).builders;
    RunKeeps(AllRecords(parcels), blocks);
    forall name ensures name in builders <==> exists f <- AllFiles(parcels) :: f.entry.filename == name {
      NamesListed(parcels, blocks, name);
    }
    forall name | name in builders ensures Hold(builders[name].segments, Versions(AllFiles(parcels), name)) {
      ParcelsHold(parcels, blocks, name);
    }
  }

  /** An archive written from any parcels is recognized, read to its end, and lists exactly its files,
      also when a name comes more than once. */
  lemma ArchiveRoundTrips(info: seq<byte>, parcels: seq<Parcel>)
    requires |info| == 7 && ParcelsOk(parcels)
    ensures var file, records := ArchiveFile(info, parcels), AllRecords(parcels);
            && |file| >= 10 && file[..3] == Magic()
            && Scan(file[10..]) == (records, [])
            && forall blocks | Supplied(records, blocks) :: ListsFiles(Run(records, blocks).builders, AllFiles(parcels))
  {
    hide Supplied, Run, ListsFiles, ParcelOk, AllRecords, Complete, Scan, ArchiveBytes;
    var file, records := ArchiveFile(info, parcels), AllRecords(parcels);
    RecordsComplete(parcels);
    ScanUndoesPrinting(records);
    assert file[10..] == ArchiveBytes(records);
    forall blocks | Supplied(records, blocks)
      ensures ListsFiles(Run(records, blocks).builders, AllFiles(parcels))
    {
      FilesListed(parcels, blocks);
    }
  }

  // ---------------------------------------------------------------- every file has a place

  /** The header of a file. The fields that do not concern the reading of the archive are free. */
  function EntryFor(name: Name, comment: seq<byte>, unpackSize: uint32, packSize: uint32, mode: byte, merged: bool,
                    free: FreeFields): (e: Entry)
    requires |name| < 0x100 && |comment| < 0x100 && mode < 32
  {
    Entry(Layout(free, unpackSize, packSize, mode, if merged then 1 else 0, |comment|, 0, |name|), name, comment)
  }

  lemma EntryForIs(name: Name, comment: seq<byte>, unpackSize: uint32, packSize: uint32, mode: byte, merged: bool,
                   free: FreeFields)
    requires |name| < 0x100 && |comment| < 0x100 && mode < 32
    ensures var e := EntryFor(name, comment, unpackSize, packSize, mode, merged, free);
            && e.WellFormed() && e.UnpackSize() == unpackSize && e.PackSize() == packSize
            && e.Mode() == mode && e.IsMerged() == merged
  {
    hide Layout;
    LayoutIs(free, unpackSize, packSize, mode, if merged then 1 else 0, |comment|, 0, |name|, name, comment);
  }

  /** Every file can be stored alone. */
  lemma StoredOk(name: Name, comment: seq<byte>, content: seq<byte>, free: FreeFields) returns (p: Parcel)
    requires |name| < 0x100 && |comment| < 0x100 && |content| < 0x1_0000_0000
    ensures ParcelOk(p) && !p.merged && |p.files| == 1 && p.packed == content
    ensures p.files[0] == Member(EntryFor(name, comment, |content|, |content|, 0, false, free), content)
  {
    hide EntryFor, Unpack, Entry.WellFormed;
    EntryForIs(name, comment, |content|, |content|, 0, false, free);
    StoredUnpacks(content, |content|);
    var f := Member(EntryFor(name, comment, |content|, |content|, 0, false, free), content);
    p := Parcel([f], false, content);
    OneContent([f]);
    assert content[..|content|] == content;
  }

  /** Every file can be packed alone, up to 4 KB less than the greatest size a header can give. */
  lemma PackedOk(name: Name, comment: seq<byte>, content: seq<byte>, free: FreeFields) returns (p: Parcel)
    requires |name| < 0x100 && |comment| < 0x100 && |content| <= 0xFFFF_F000
    ensures ParcelOk(p) && !p.merged && |p.files| == 1
    ensures p.files[0] == Member(EntryFor(name, comment, |content|, |p.packed|, 2, false, free), content)
  {
    hide EntryFor, Unpack, Entry.WellFormed;
    var packed := EverythingCanBePacked(content);
    EntryForIs(name, comment, |content|, |packed|, 2, false, free);
    var f := Member(EntryFor(name, comment, |content|, |packed|, 2, false, free), content);
    p := Parcel([f], false, packed);
    OneContent([f]);
  }

  /** Any files can be packed together, with whatever names and free fields, up to the same size of
      their joint contents: there are packed bytes, and headers that say so make a parcel. */
  lemma PackedTogether(files: seq<Member>) returns (packed: seq<byte>)
    requires |files| > 0 && |Contents(files)| <= 0xFFFF_F000
    ensures 0 < |packed| < 0x1_0000_0000
    ensures Unpack(2, packed, |Contents(files)|) == Success(Contents(files))
    ensures (&& (forall f <- files :: FileOk(f) && f.entry.IsMerged())
             && (forall i :: 0 <= i < |files| - 1 ==> files[i].entry.PackSize() == 0)
             && files[|files| - 1].entry.PackSize() == |packed| && files[|files| - 1].entry.Mode() == 2)
            ==> ParcelOk(Parcel(files, true, packed))
  {
    hide Unpack, Contents, FileOk;
    packed := EverythingCanBePacked(Contents(files));
  }
}
