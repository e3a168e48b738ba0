/** A reference writer for archives, undone by the reader. */
module ArchiveRoundTrip {
  import opened Errors
  import opened MmapBuffer
  import opened LzxHandle
  import opened LzxBlocks
  import opened ArchiveSpec
  import opened ArchiveProperties

  // ---------------------------------------------------------------- records

  predicate Complete(r: Record) {
    r.entry.WellFormed() && |r.data| == r.entry.PackSize()
  }

  function RecordBytes(r: Record): seq<byte> {
    EntryBytes(r.entry) + r.data
  }

  function ArchiveBytes(records: seq<Record>): seq<byte>
    decreases |records|
  {
    if |records| == 0 then [] else RecordBytes(records[0]) + ArchiveBytes(records[1..])
  }

  /** Reading ends with nothing left over and every record complete. */
  predicate Clean(rest: seq<byte>)
    decreases |rest|
  {
    |rest| == 0 ||
    match NextRecord(rest)
    case Failure(_) => false
    case Success(next) =>
      NextRecordShrinks(rest);
      next.complete && Clean(next.after)
  }

  /** A record is read exactly where the writer put one. */
  lemma RecordBack(rest: seq<byte>, r: Record, after: seq<byte>)
    ensures NextRecord(rest) == Success(Scanned(r, true, after)) <==> Complete(r) && rest == RecordBytes(r) + after
  {
    hide ParseEntry, EntryBytes, Entry.WellFormed;
    ParseIsPrint(rest, r.entry, r.data + after);
    assert RecordBytes(r) + after == EntryBytes(r.entry) + (r.data + after);
    if NextRecord(rest) == Success(Scanned(r, true, after)) {
      var tail := ParseEntry(rest).value.1;
      assert tail == r.data + after;
    }
    if Complete(r) && rest == RecordBytes(r) + after {
      assert (r.data + after)[..|r.data|] == r.data && (r.data + after)[|r.data|..] == after;
    }
  }

  /** The reader recovers exactly the records written, whatever they are, and ends at the end. */
  lemma {:induction false} ScanUndoesPrinting(records: seq<Record>)
    requires forall r <- records :: Complete(r)
    ensures Scan(ArchiveBytes(records)) == (records, []) && Clean(ArchiveBytes(records))
    decreases |records|
  {
    hide NextRecord, Complete, RecordBytes;
    if |records| > 0 {
      var rest, after := ArchiveBytes(records), ArchiveBytes(records[1..]);
      RecordBack(rest, records[0], after);
      assert rest != [] by {
        NextRecordShrinks(rest);
      }
      ScanUndoesPrinting(records[1..]);
      assert records == [records[0]] + records[1..];
    }
  }

  /** Nothing but a written archive is read cleanly. */
  lemma {:induction false} PrintingUndoesScan(rest: seq<byte>)
    requires Clean(rest)
    ensures forall r <- Scan(rest).0 :: Complete(r)
    ensures ArchiveBytes(Scan(rest).0) == rest && Scan(rest).1 == []
    decreases |rest|
  {
    hide NextRecord, Complete, RecordBytes;
    if |rest| > 0 {
      var next := NextRecord(rest).value;
      NextRecordShrinks(rest);
      RecordBack(rest, next.record, next.after);
      PrintingUndoesScan(next.after);
      assert Scan(rest).0[1..] == Scan(next.after).0;
    }
  }

  /** After written records the reading goes on with whatever follows. */
  lemma {:induction false} ScanGoesOn(records: seq<Record>, rest: seq<byte>)
    requires forall r <- records :: Complete(r)
    ensures Scan(ArchiveBytes(records) + rest) == (records + Scan(rest).0, Scan(rest).1)
    decreases |records|
  {
    hide NextRecord, Complete, RecordBytes;
    if |records| == 0 {
      assert ArchiveBytes(records) + rest == rest && records + Scan(rest).0 == Scan(rest).0;
    } else {
      var all, after := ArchiveBytes(records) + rest, ArchiveBytes(records[1..]) + rest;
      assert all == RecordBytes(records[0]) + after;
      RecordBack(all, records[0], after);
      NextRecordShrinks(all);
      ScanGoesOn(records[1..], rest);
      assert records + Scan(rest).0 == [records[0]] + (records[1..] + Scan(rest).0);
    }
  }

  /** A header that does not parse ends the listing after the records before it. */
  lemma BadHeaderEnds(records: seq<Record>, rest: seq<byte>)
    requires (forall r <- records :: Complete(r)) && ParseEntry(rest).Failure?
    ensures Scan(ArchiveBytes(records) + rest).0 == records
  {
    hide ParseEntry, Complete, Abandoned;
    ScanGoesOn(records, rest);
    assert Scan(rest).0 == [];
  }

  /** An archive that is cut short, anywhere: every record before the cut is read; the record that is cut
      is read, without data, if its header is complete. */
  lemma TruncatedArchive(records: seq<Record>, r: Record, n: nat)
    requires (forall q <- records :: Complete(q)) && Complete(r) && n < |RecordBytes(r)|
    ensures Scan(ArchiveBytes(records) + RecordBytes(r)[..n]).0 ==
              records + if n < |EntryBytes(r.entry)| then [] else [Record(r.entry, [])]
  {
    hide ParseEntry, EntryBytes, Entry.WellFormed, Abandoned;
    var rest := RecordBytes(r)[..n];
    ScanGoesOn(records, rest);
    if n < |EntryBytes(r.entry)| {
      assert rest == EntryBytes(r.entry)[..n];
      CutShort(r.entry, n);
      assert Scan(rest).0 == [];
    } else {
      var part := r.data[..n - |EntryBytes(r.entry)|];
      assert rest == EntryBytes(r.entry) + part;
      ParseIsPrint(rest, r.entry, part);
      HeaderNotEmpty(r.entry);
      assert NextRecord(rest) == Success(Scanned(Record(r.entry, []), false, part));
    }
  }

  lemma HeaderNotEmpty(e: Entry)
    ensures |EntryBytes(e)| >= 31
  {
  }

  // ---------------------------------------------------------------- merged groups

  /** A file of a merged group, with what it contains. */
  datatype Member = Member(entry: Entry, content: seq<byte>)

  function Contents(members: seq<Member>): seq<byte>
    decreases |members|
  {
    if |members| == 0 then []
    else Contents(members[..|members| - 1]) + members[|members| - 1].content
  }

  /** The queue that the members of a group form. */
  function Queue(members: seq<Member>): (q: seq<Pending>)
    ensures |q| == |members|
    decreases |members|
  {
    if |members| == 0 then []
    else
      var n := |members| - 1;
      Queue(members[..n]) + [Pending(members[n].entry.filename, |Contents(members[..n])|, |members[n].content|)]
  }

  /** Merged headers in a row, of which only the last brings packed bytes. */
  predicate Group(members: seq<Member>)
    ensures Group(members) ==> |members| > 0
  {
    && |members| > 0
    && (forall m <- members :: m.entry.IsMerged() && m.entry.UnpackSize() == |m.content|)
    && (forall i :: 0 <= i < |members| ==> (members[i].entry.PackSize() > 0 <==> i == |members| - 1))
  }

  /** The records of a group: headers alone, and the packed bytes after the last. */
  function GroupRecords(members: seq<Member>, packed: seq<byte>): (r: seq<Record>)
    requires |members| > 0
    ensures |r| == |members|
  {
    seq(|members|, i requires 0 <= i < |members| =>
      Record(members[i].entry, if i == |members| - 1 then packed else []))
  }

  lemma {:induction false} SuppliedPrefix(records: seq<Record>, blocks: seq<Option<LzxBlock>>, k: nat)
    requires Supplied(records, blocks) && k <= |records|
    ensures Supplied(records[..k], blocks[..k])
    decreases |records|
  {
    hide IsBlockOf, Enter;
    var n := |records| - 1;
    if k == |records| {
      assert records[..k] == records && blocks[..k] == blocks;
    } else {
      SuppliedPrefix(records[..n], blocks[..n], k);
      assert records[..n][..k] == records[..k] && blocks[..n][..k] == blocks[..k];
    }
  }

  lemma RunSplits(records: seq<Record>, blocks: seq<Option<LzxBlock>>, k: nat)
    requires Supplied(records, blocks) && k < |records|
    ensures Supplied(records[..k], blocks[..k]) && Supplied(records[..k + 1], blocks[..k + 1])
    ensures blocks[k].Some? <==> records[k].MakesBlock()
    ensures Run(records[..k + 1], blocks[..k + 1]) == Process(Run(records[..k], blocks[..k]), records[k], blocks[k])
    ensures blocks[k].Some? ==> IsBlockOf(Enter(Run(records[..k], blocks[..k]), records[k].entry), records[k], blocks[k].value)
  {
    hide IsBlockOf, Enter, Process, Record.MakesBlock;
    SuppliedPrefix(records, blocks, k);
    SuppliedPrefix(records, blocks, k + 1);
    assert records[..k + 1][..k] == records[..k] && blocks[..k + 1][..k] == blocks[..k];
  }

  /** Every block holds the packed bytes of the record that made it, packed the way its header says. */
  lemma BlockIs(records: seq<Record>, blocks: seq<Option<LzxBlock>>, i: nat)
    requires Supplied(records, blocks) && i < |records|
    ensures blocks[i].Some? <==> !records[i].entry.IsMerged() || records[i].entry.PackSize() > 0
    ensures blocks[i].Some? ==>
              && blocks[i].value.packed == records[i].data
              && blocks[i].value.mode == At(records[i].entry.metadata, 11) % 32
              && (!records[i].entry.IsMerged() ==> blocks[i].value.total == records[i].entry.UnpackSize())
  {
    hide Supplied, Run;
    RunSplits(records, blocks, i);
    NumbersAre(records[i].entry);
  }

  lemma ContentsGrow(members: seq<Member>, k: nat)
    requires k < |members|
    ensures Contents(members[..k + 1]) == Contents(members[..k]) + members[k].content
    ensures Queue(members[..k + 1]) ==
            Queue(members[..k]) + [Pending(members[k].entry.filename, |Contents(members[..k])|, |members[k].content|)]
  {
    assert members[..k + 1][..k] == members[..k];
  }

  /** While the group is being read its members queue up, with room set aside for their contents. */
  lemma {:induction false} GroupWaits(pre: seq<Record>, members: seq<Member>, packed: seq<byte>,
                                      records: seq<Record>, blocks: seq<Option<LzxBlock>>, k: nat)
    requires Group(members) && k < |members|
    requires records == pre + GroupRecords(members, packed) && Supplied(records, blocks)
    requires Supplied(pre, blocks[..|pre|]) && Run(pre, blocks[..|pre|]).pending == []
    ensures Supplied(records[..|pre| + k], blocks[..|pre| + k])
    ensures var s := Run(records[..|pre| + k], blocks[..|pre| + k]);
            && s.pending == Queue(members[..k]) && s.offset == |Contents(members[..k])|
            && s.log == Run(pre, blocks[..|pre|]).log
    decreases k
  {
    hide Supplied, Run, ListingOk, Contents, Queue, Group;
    var at := |pre| + k;
    if k == 0 {
      assert records[..at] == pre;
      NothingQueued(members);
      NothingWaits(pre, blocks[..|pre|]);
    } else {
      GroupWaits(pre, members, packed, records, blocks, k - 1);
      RunSplits(records, blocks, at - 1);
      GroupMember(pre, members, packed, records, k - 1);
      ContentsGrow(members, k - 1);
    }
  }

  lemma NothingQueued(members: seq<Member>)
    ensures Queue(members[..0]) == [] && Contents(members[..0]) == []
  {
  }

  lemma NothingWaits(records: seq<Record>, blocks: seq<Option<LzxBlock>>)
    requires Supplied(records, blocks) && Run(records, blocks).pending == []
    ensures Run(records, blocks).offset == 0
  {
    hide Supplied, Run, Conserved, Catalogued;
    RunKeeps(records, blocks);
  }

  lemma GroupMember(pre: seq<Record>, members: seq<Member>, packed: seq<byte>, records: seq<Record>, k: nat)
    requires Group(members) && k < |members|
    requires records == pre + GroupRecords(members, packed)
    ensures var r := records[|pre| + k];
            && r.entry == members[k].entry && r.entry.IsMerged() && r.entry.UnpackSize() == |members[k].content|
            && (r.MakesBlock() <==> k == |members| - 1)
            && (k == |members| - 1 ==> r.data == packed)
  {
    assert members[k] in members;
  }

  /** Reading the last header of a group hands the block out to all of its members. */
  lemma GroupHandedOut(pre: seq<Record>, members: seq<Member>, packed: seq<byte>,
                       records: seq<Record>, blocks: seq<Option<LzxBlock>>) returns (block: LzxBlock)
    requires Group(members)
    requires records == pre + GroupRecords(members, packed) && Supplied(records, blocks)
    requires Supplied(pre, blocks[..|pre|]) && Run(pre, blocks[..|pre|]).pending == []
    ensures var s := Run(records, blocks);
            && s.log == Run(pre, blocks[..|pre|]).log + PlacedAll(Queue(members), block)
            && s.pending == [] && s.offset == 0
    ensures block.packed == packed && block.total == |Contents(members)|
    ensures block.mode == members[|members| - 1].entry.Mode()
  {
    hide Supplied, Run, Contents, Queue, PlacedAll, AttachAll, Group;
    var n := |members| - 1;
    var at := |pre| + n;
    GroupWaits(pre, members, packed, records, blocks, n);
    RunSplits(records, blocks, at);
    GroupMember(pre, members, packed, records, n);
    ContentsGrow(members, n);
    assert members[..n + 1] == members && records[..at + 1] == records && blocks[..at + 1] == blocks;
    block := blocks[at].value;
  }

  /** The only member of its name is handed one segment. */
  lemma {:induction false} OnlySegment(log: seq<Placed>, members: seq<Member>, block: LzxBlock, i: nat, k: nat)
    requires i < |members| && k <= |members|
    requires forall j :: 0 <= j < |members| && j != i ==> members[j].entry.filename != members[i].entry.filename
    requires SegmentsFor(log, members[i].entry.filename) == []
    ensures SegmentsFor(log + PlacedAll(Queue(members[..k]), block), members[i].entry.filename) ==
            if i < k then [Segment(block, |Contents(members[..i])|, |members[i].content|)] else []
    decreases k
  {
    hide Contents, Queue, SegmentsFor, PlacedAll;
    if k == 0 {
      NothingQueued(members);
      NothingPlaced(block);
      assert log + PlacedAll([], block) == log;
    } else {
      OnlySegment(log, members, block, i, k - 1);
      ContentsGrow(members, k - 1);
      var m := members[k - 1];
      SegmentsForOneMore(log, Queue(members[..k - 1]), Pending(m.entry.filename, |Contents(members[..k - 1])|,
          |m.content|),
                         block, members[i].entry.filename);
    }
  }

  lemma SegmentsForOneMore(log: seq<Placed>, q: seq<Pending>, p: Pending, block: LzxBlock, name: Name)
    ensures SegmentsFor(log + PlacedAll(q + [p], block), name) ==
            SegmentsFor(log + PlacedAll(q, block), name) + if p.filename == name then [SegmentOf(p, block)] else []
  {
    Last(q, p);
    AllIn(log, PlacedAll(q + [p], block), |q|);
    Last(PlacedAll(q, block), PlacedAll(q + [p], block)[|q|]);
  }

  lemma NothingPlaced(block: LzxBlock)
    ensures PlacedAll([], block) == []
  {
  }

  lemma {:induction false} ContentAt(members: seq<Member>, i: nat, k: nat)
    requires i < k <= |members|
    ensures var at := |Contents(members[..i])|;
            && at + |members[i].content| <= |Contents(members[..k])|
            && Contents(members[..k])[at..at + |members[i].content|] == members[i].content
    decreases k
  {
    hide Contents;
    ContentsGrow(members, k - 1);
    if i < k - 1 {
      ContentAt(members, i, k - 1);
    }
  }

  lemma NewName(records: seq<Record>, blocks: seq<Option<LzxBlock>>, name: Name)
    requires Supplied(records, blocks) && forall r <- records :: r.entry.filename != name
    ensures SegmentsFor(Run(records, blocks).log, name) == []
  {
    hide Supplied, Run, Conserved, Partitioned, SegmentsFor, FirstOf;
    var s := Run(records, blocks);
    RunKeeps(records, blocks);
    NoFirst(records, name);
    NothingFor(s, name, |s.log|);
    assert s.log[..|s.log|] == s.log;
  }

  lemma {:induction false} NoFirst(records: seq<Record>, name: Name)
    requires forall r <- records :: r.entry.filename != name
    ensures FirstOf(records, name) == None
    decreases |records|
  {
    if |records| > 0 {
      NoFirst(records[..|records| - 1], name);
    }
  }

  // ---------------------------------------------------------------- what comes later

  predicate NotWaiting(s: Listing, name: Name) {
    forall p <- s.pending :: p.filename != name
  }

  lemma {:induction false} HandedToOthers(log: seq<Placed>, pending: seq<Pending>, block: LzxBlock, name: Name)
    requires forall p <- pending :: p.filename != name
    ensures SegmentsFor(log + PlacedAll(pending, block), name) == SegmentsFor(log, name)
    decreases |pending|
  {
    hide SegmentsFor, PlacedAll;
    if |pending| == 0 {
      NothingPlaced(block);
      assert log + PlacedAll(pending, block) == log;
    } else {
      var n := |pending| - 1;
      HandedToOthers(log, pending[..n], block, name);
      assert pending == pending[..n] + [pending[n]];
      SegmentsForOneMore(log, pending[..n], pending[n], block, name);
    }
  }

  lemma HandedToOther(log: seq<Placed>, placed: Placed, name: Name)
    requires placed.filename != name
    ensures SegmentsFor(log + [placed], name) == SegmentsFor(log, name)
  {
    Last(log, placed);
  }

  lemma ProcessOther(s: Listing, record: Record, block: Option<LzxBlock>, name: Name)
    requires NamesKnown(s) && (block.Some? <==> record.MakesBlock())
    requires record.entry.filename != name && NotWaiting(s, name)
    ensures SegmentsFor(Process(s, record, block).log, name) == SegmentsFor(s.log, name)
    ensures NotWaiting(Process(s, record, block), name)
  {
    hide SegmentsFor, PlacedAll, AttachAll;
    var e, s' := record.entry, Enter(s, record.entry);
    if block.Some? {
      HandedToOthers(s'.log, s'.pending, block.value, name);
      HandedToOther(s'.log, Placed(e.filename, Segment(block.value, 0, e.UnpackSize()), false), name);
    }
  }

  /** Records of other names take nothing from a name that is served, and add nothing to it. */
  lemma {:induction false} LaterRecords(records: seq<Record>, blocks: seq<Option<LzxBlock>>, k: nat, name: Name)
    requires Supplied(records, blocks) && k <= |records|
    requires forall i :: k <= i < |records| ==> records[i].entry.filename != name
    requires Supplied(records[..k], blocks[..k]) && NotWaiting(Run(records[..k], blocks[..k]), name)
    ensures SegmentsFor(Run(records, blocks).log, name) == SegmentsFor(Run(records[..k], blocks[..k]).log, name)
    ensures NotWaiting(Run(records, blocks), name)
    decreases |records|
  {
    hide Supplied, Run, SegmentsFor, Process, NotWaiting;
    if k == |records| {
      assert records[..k] == records && blocks[..k] == blocks;
    } else {
      var n := |records| - 1;
      SuppliedPrefix(records, blocks, n);
      assert records[..n][..k] == records[..k] && blocks[..n][..k] == blocks[..k];
      LaterRecords(records[..n], blocks[..n], k, name);
      RunSplits(records, blocks, n);
      assert records[..n + 1] == records && blocks[..n + 1] == blocks;
      ProcessOther(Run(records[..n], blocks[..n]), records[n], blocks[n], name);
    }
  }

  /** The part of its block that the segment names is `content`. */
  ghost predicate Holds(g: Segment, content: seq<byte>) {
    var data := Unpack(g.block.mode, g.block.packed, g.block.total);
    && data.Success? && g.offset + g.length <= |data.value|
    && data.value[g.offset..g.offset + g.length] == content
  }

  /** The name is listed with one segment, and that part of its block is `content`. */
  ghost predicate ListedAs(s: Listing, name: Name, content: seq<byte>) {
    && name in s.builders && |s.builders[name].segments| == 1
    && Holds(s.builders[name].segments[0], content)
  }

  /** A name is listed with what it was handed up to record `k`, if it does not come up again. */
  lemma ListedEarlier(records: seq<Record>, blocks: seq<Option<LzxBlock>>, k: nat, at: nat, segment: Segment,
      content: seq<byte>)
    requires Supplied(records, blocks) && at < k <= |records|
    requires Supplied(records[..k], blocks[..k]) && Run(records[..k], blocks[..k]).pending == []
    requires SegmentsFor(Run(records[..k], blocks[..k]).log, records[at].entry.filename) == [segment]
    requires forall i :: k <= i < |records| ==> records[i].entry.filename != records[at].entry.filename
    requires Holds(segment, content)
    ensures ListedAs(Run(records, blocks), records[at].entry.filename, content)
  {
    hide Supplied, Run, SegmentsFor, Conserved, Partitioned, FirstOf, Unpack;
    LaterRecords(records, blocks, k, records[at].entry.filename);
    RunKeeps(records, blocks);
    HasFirst(records, at);
  }

  /** Files packed together come apart again, wherever in the archive they stand: if the packed bytes
      of a group unpack to its contents joined, then every member with a name of its own is listed
      with one segment, and that segment of the unpacked block is the member's content. */
  lemma GroupRoundTrip(pre: seq<Record>, members: seq<Member>, packed: seq<byte>, post: seq<Record>,
                       records: seq<Record>, blocks: seq<Option<LzxBlock>>, i: nat)
    requires Group(members) && i < |members|
    requires records == pre + GroupRecords(members, packed) + post && Supplied(records, blocks)
    requires Supplied(pre, blocks[..|pre|]) && Run(pre, blocks[..|pre|]).pending == []
    requires forall r <- pre + post :: r.entry.filename != members[i].entry.filename
    requires forall j :: 0 <= j < |members| && j != i ==> members[j].entry.filename != members[i].entry.filename
    requires Unpack(members[|members| - 1].entry.Mode(), packed, |Contents(members)|) == Success(Contents(members))
    ensures ListedAs(Run(records, blocks), members[i].entry.filename, members[i].content)
  {
    hide Supplied, Run, Contents, Queue, PlacedAll, Group, SegmentsFor, Unpack, ListedAs;
    var k := |pre| + |members|;
    SuppliedPrefix(records, blocks, k);
    assert records[..k] == pre + GroupRecords(members, packed) && blocks[..k][..|pre|] == blocks[..|pre|];
    var block := GroupHandedOut(pre, members, packed, records[..k], blocks[..k]);
    assert members[..|members|] == members;
    NewName(pre, blocks[..|pre|], members[i].entry.filename);
    OnlySegment(Run(pre, blocks[..|pre|]).log, members, block, i, |members|);
    ContentAt(members, i, |members|);
    assert records[|pre| + i] == GroupRecords(members, packed)[i];
    ListedEarlier(records, blocks, k, |pre| + i,
                  Segment(block, |Contents(members[..i])|, |members[i].content|), members[i].content);
  }

  lemma {:induction false} HasFirst(records: seq<Record>, i: nat)
    requires i < |records|
    ensures FirstOf(records, records[i].entry.filename).Some?
    decreases |records|
  {
    if i < |records| - 1 {
      HasFirst(records[..|records| - 1], i);
    }
  }
}
