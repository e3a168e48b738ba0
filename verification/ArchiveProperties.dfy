/** What every listing keeps: nothing is lost, nothing is listed twice, and the segments of a block
    cover it from end to end. */
module ArchiveProperties {
  import opened Errors
  import opened MmapBuffer
  import opened LzxHandle
  import opened LzxBlocks
  import opened ArchiveSpec

  // ---------------------------------------------------------------- tiling

  /** The spans follow one another from 0 to `total`. */
  predicate Tiles(spans: seq<Span>, total: nat)
    decreases |spans|
  {
    if |spans| == 0 then total == 0
    else
      var n := |spans| - 1;
      spans[n].offset + spans[n].length == total && Tiles(spans[..n], spans[n].offset)
  }

  function TotalLength(spans: seq<Span>): nat
    decreases |spans|
  {
    if |spans| == 0 then 0
    else TotalLength(spans[..|spans| - 1]) + spans[|spans| - 1].length
  }

  /** Tiling is prefix sums that end at the total. */
  lemma {:induction false} TilesIsPrefixSums(spans: seq<Span>, total: nat)
    ensures Tiles(spans, total) <==>
              && total == TotalLength(spans)
              && forall i :: 0 <= i < |spans| ==> spans[i].offset == TotalLength(spans[..i])
    decreases |spans|
  {
    if |spans| > 0 {
      var n := |spans| - 1;
      TilesIsPrefixSums(spans[..n], spans[n].offset);
      TilesIsPrefixSums(spans[..n], TotalLength(spans[..n]));
      assert forall i :: 0 <= i < n ==> spans[..n][..i] == spans[..i];
    }
  }

  lemma {:induction false} TilesInRange(spans: seq<Span>, total: nat, i: nat)
    requires Tiles(spans, total) && i < |spans|
    ensures spans[i].offset + spans[i].length <= total
    decreases |spans|
  {
    var n := |spans| - 1;
    if i < n {
      TilesInRange(spans[..n], spans[n].offset, i);
    }
  }

  /** The pieces of `data` that the spans name, joined. */
  function Joined(spans: seq<Span>, data: seq<byte>): seq<byte>
    requires forall g <- spans :: g.offset + g.length <= |data|
    decreases |spans|
  {
    if |spans| == 0 then []
    else
      var n := |spans| - 1;
      Joined(spans[..n], data) + data[spans[n].offset..spans[n].offset + spans[n].length]
  }

  lemma TilesFit(spans: seq<Span>, total: nat, size: nat)
    requires Tiles(spans, total) && total <= size
    ensures forall g <- spans :: g.offset + g.length <= size
  {
    hide Tiles;
    forall i | 0 <= i < |spans| ensures spans[i].offset + spans[i].length <= size {
      TilesInRange(spans, total, i);
    }
  }

  /** Spans that tile a block give back all of its bytes, in order, each byte once. */
  lemma {:induction false} TilesJoin(spans: seq<Span>, total: nat, data: seq<byte>)
    requires Tiles(spans, total) && total <= |data|
    ensures forall g <- spans :: g.offset + g.length <= |data|
    ensures Joined(spans, data) == data[..total]
    decreases |spans|
  {
    TilesFit(spans, total, |data|);
    if |spans| > 0 {
      var last := spans[|spans| - 1];
      TilesJoin(spans[..|spans| - 1], last.offset, data);
      assert last.offset + last.length == total;
      JoinSlices(data, last.offset, total);
    }
  }

  lemma JoinSlices(data: seq<byte>, a: nat, b: nat)
    requires a <= b <= |data|
    ensures data[..a] + data[a..b] == data[..b]
  {
  }

  function SpansOf(segments: seq<Segment>): (spans: seq<Span>)
    ensures |spans| == |segments|
    ensures forall i :: 0 <= i < |segments| ==> spans[i] == segments[i].Extent()
  {
    seq(|segments|, i requires 0 <= i < |segments| => segments[i].Extent())
  }

  /** The room set aside for those who wait. */
  function RoomOf(pending: seq<Pending>): (spans: seq<Span>)
    ensures |spans| == |pending|
    ensures forall i :: 0 <= i < |pending| ==> spans[i] == Span(pending[i].offset, pending[i].length)
  {
    seq(|pending|, i requires 0 <= i < |pending| => Span(pending[i].offset, pending[i].length))
  }

  // ---------------------------------------------------------------- history

  /** The stretches of `block`, in the order in which they were handed out. */
  ghost function OnBlock(log: seq<Placed>, block: LzxBlock): seq<Span>
    decreases |log|
  {
    if |log| == 0 then []
    else
      var n := |log| - 1;
      OnBlock(log[..n], block) + if log[n].segment.block == block then [log[n].segment.Extent()] else []
  }

  /** The segments of a name, in the order in which they were handed out. */
  function SegmentsFor(log: seq<Placed>, name: Name): seq<Segment>
    decreases |log|
  {
    if |log| == 0 then []
    else
      var n := |log| - 1;
      SegmentsFor(log[..n], name) + if log[n].filename == name then [log[n].segment] else []
  }

  function ItemOf(e: Entry): (Name, nat) {
    (e.filename, e.UnpackSize())
  }

  /** The names and sizes that the records announce. */
  function Owed(records: seq<Record>, shared: bool): seq<(Name, nat)>
    decreases |records|
  {
    if |records| == 0 then []
    else
      var n := |records| - 1;
      var e := records[n].entry;
      Owed(records[..n], shared) + if e.IsMerged() == shared then [ItemOf(e)] else []
  }

  /** The names and sizes that were handed out. */
  function Given(log: seq<Placed>, shared: bool): seq<(Name, nat)>
    decreases |log|
  {
    if |log| == 0 then []
    else
      var n := |log| - 1;
      Given(log[..n], shared) + if log[n].shared == shared then [(log[n].filename, log[n].segment.length)] else []
  }

  /** The names and sizes that wait. */
  function Waiting(pending: seq<Pending>): seq<(Name, nat)>
    decreases |pending|
  {
    if |pending| == 0 then []
    else
      var n := |pending| - 1;
      Waiting(pending[..n]) + [(pending[n].filename, pending[n].length)]
  }

  /** The first entry of that name. */
  function FirstOf(records: seq<Record>, name: Name): Option<Entry>
    decreases |records|
  {
    if |records| == 0 then None
    else
      var n := |records| - 1;
      var first := FirstOf(records[..n], name);
      if first.None? && records[n].entry.filename == name then Some(records[n].entry) else first
  }

  // ---------------------------------------------------------------- the invariant

  /** Every accepted record's name and size is either handed out or waiting: merged entries in their
      order, the others in theirs. */
  predicate Conserved(s: Listing, records: seq<Record>) {
    && Owed(records, true) == Given(s.log, true) + Waiting(s.pending)
    && Owed(records, false) == Given(s.log, false)
  }

  /** The builders hold exactly what was handed out, under the metadata of the first record. */
  ghost predicate Catalogued(s: Listing, records: seq<Record>) {
    && (forall name :: FirstOf(records, name) ==
          if name in s.builders then Some(s.builders[name].metadata) else None)
    && (forall name <- s.builders :: s.builders[name].segments == SegmentsFor(s.log, name))
    && (forall placed <- s.log :: placed.filename in s.builders)
  }

  /** Every block that was handed out is tiled by its segments. */
  ghost predicate Partitioned(s: Listing) {
    && Tiles(RoomOf(s.pending), s.offset)
    && forall placed <- s.log :: Tiles(OnBlock(s.log, placed.segment.block), placed.segment.block.total)
  }

  ghost predicate BlocksFrom(s: Listing, blocks: seq<Option<LzxBlock>>) {
    forall placed <- s.log :: Some(placed.segment.block) in blocks
  }

  ghost predicate ListingOk(s: Listing, records: seq<Record>, blocks: seq<Option<LzxBlock>>) {
    && Conserved(s, records)
    && Catalogued(s, records)
    && Partitioned(s)
    && BlocksFrom(s, blocks)
  }

  // ---------------------------------------------------------------- entering a record

  lemma Last<T>(s: seq<T>, x: T)
    ensures (s + [x])[..|s|] == s && (s + [x])[|s|] == x
  {
  }

  lemma EnterKeeps(s: Listing, records: seq<Record>, record: Record)
    requires Conserved(s, records) && Tiles(RoomOf(s.pending), s.offset)
    ensures var e, s' := record.entry, Enter(s, record.entry);
            && Owed(records + [record], true) == Given(s'.log, true) + Waiting(s'.pending)
            && Owed(records + [record], false) == Given(s'.log, false) + (if e.IsMerged() then [] else [ItemOf(e)])
            && Tiles(RoomOf(s'.pending), s'.offset)
  {
    var e, s' := record.entry, Enter(s, record.entry);
    Last(records, record);
    if e.IsMerged() {
      var p := Pending(e.filename, s.offset, e.UnpackSize());
      Last(s.pending, p);
      assert RoomOf(s.pending + [p]) == RoomOf(s.pending) + [Span(p.offset, p.length)];
      Last(RoomOf(s.pending), Span(p.offset, p.length));
    }
  }

  lemma EnterCatalogues(s: Listing, records: seq<Record>, record: Record)
    requires Catalogued(s, records) && NamesKnown(s)
    ensures Catalogued(Enter(s, record.entry), records + [record])
    ensures NamesKnown(Enter(s, record.entry))
  {
    var s' := Enter(s, record.entry);
    Last(records, record);
    var name := record.entry.filename;
    if name !in s.builders {
      NothingFor(s, name, |s.log|);
      assert s.log[..|s.log|] == s.log;
    }
  }

  /** A name that has no builder was handed nothing. */
  lemma {:induction false} NothingFor(s: Listing, name: Name, k: nat)
    requires name !in s.builders && forall placed <- s.log :: placed.filename in s.builders
    requires k <= |s.log|
    ensures SegmentsFor(s.log[..k], name) == []
  {
    if k > 0 {
      assert s.log[..k][..k - 1] == s.log[..k - 1];
      assert s.log[k - 1] in s.log;
      NothingFor(s, name, k - 1);
    }
  }

  // ---------------------------------------------------------------- handing out a block

  lemma AllIn(log: seq<Placed>, placed: seq<Placed>, n: nat)
    requires |placed| == n + 1
    ensures (log + placed)[..|log| + n] == log + placed[..n]
    ensures (log + placed)[|log| + n] == placed[n]
  {
  }

  /** The last of those who wait is handed its segment last. */
  lemma PlacedLast(log: seq<Placed>, pending: seq<Pending>, block: LzxBlock, n: nat)
    requires |pending| == n + 1
    ensures log + PlacedAll(pending, block) ==
            log + PlacedAll(pending[..n], block) + [Placed(pending[n].filename, SegmentOf(pending[n], block), true)]
  {
  }

  lemma GivenLast(log: seq<Placed>, placed: Placed)
    ensures forall shared :: Given(log + [placed], shared) ==
              Given(log, shared) + if placed.shared == shared then [(placed.filename, placed.segment.length)] else []
  {
    Last(log, placed);
  }

  lemma OnBlockLast(log: seq<Placed>, placed: Placed, block: LzxBlock)
    ensures OnBlock(log + [placed], block) ==
              OnBlock(log, block) + if placed.segment.block == block then [placed.segment.Extent()] else []
  {
    Last(log, placed);
  }

  lemma {:induction false} GivenAll(log: seq<Placed>, pending: seq<Pending>, block: LzxBlock)
    ensures Given(log + PlacedAll(pending, block), true) == Given(log, true) + Waiting(pending)
    ensures Given(log + PlacedAll(pending, block), false) == Given(log, false)
    decreases |pending|
  {
    hide Given;
    if |pending| == 0 {
      assert log + PlacedAll(pending, block) == log;
    } else {
      var n := |pending| - 1;
      GivenAll(log, pending[..n], block);
      PlacedLast(log, pending, block, n);
      GivenLast(log + PlacedAll(pending[..n], block), Placed(pending[n].filename, SegmentOf(pending[n], block), true));
    }
  }

  lemma {:induction false} AttachAllCatalogues(builders: map<Name, Builder>, log: seq<Placed>,
      pending: seq<Pending>, block: LzxBlock)
    requires forall p <- pending :: p.filename in builders
    requires forall name <- builders :: builders[name].segments == SegmentsFor(log, name)
    ensures var r := AttachAll(builders, pending, block);
            forall name <- builders :: && r[name].metadata == builders[name].metadata
                                       && r[name].segments == SegmentsFor(log + PlacedAll(pending, block), name)
    decreases |pending|
  {
    hide SegmentsFor, Attach;
    if |pending| == 0 {
      assert log + PlacedAll(pending, block) == log;
    } else {
      var n := |pending| - 1;
      AttachAllCatalogues(builders, log, pending[..n], block);
      Last(PlacedAll(pending[..n], block), PlacedAll(pending, block)[n]);
      AllIn(log, PlacedAll(pending, block), n);
      AttachCatalogues(AttachAll(builders, pending[..n], block), log + PlacedAll(pending[..n], block), pending[n], block);
      assert log + PlacedAll(pending, block) ==
             log + PlacedAll(pending[..n], block) + [Placed(pending[n].filename, SegmentOf(pending[n], block), true)];
    }
  }

  lemma AttachCatalogues(builders: map<Name, Builder>, log: seq<Placed>, p: Pending, block: LzxBlock)
    requires p.filename in builders
    requires forall name <- builders :: builders[name].segments == SegmentsFor(log, name)
    ensures var r := Attach(builders, p.filename, SegmentOf(p, block));
            && (forall name <- builders :: r[name].metadata == builders[name].metadata)
            && (forall name <- r :: r[name].segments ==
                  SegmentsFor(log + [Placed(p.filename, SegmentOf(p, block), true)], name))
  {
    Last(log, Placed(p.filename, SegmentOf(p, block), true));
  }

  lemma {:induction false} PlacedAllFrom(pending: seq<Pending>, block: LzxBlock, builders: map<Name, Builder>)
    requires forall p <- pending :: p.filename in builders
    ensures forall placed <- PlacedAll(pending, block) :: placed.segment.block == block && placed.filename in builders
    decreases |pending|
  {
    if |pending| > 0 {
      PlacedAllFrom(pending[..|pending| - 1], block, builders);
    }
  }

  lemma {:induction false} OthersKept(log: seq<Placed>, pending: seq<Pending>, block: LzxBlock, other: LzxBlock)
    requires block != other
    ensures OnBlock(log + PlacedAll(pending, block), other) == OnBlock(log, other)
    decreases |pending|
  {
    hide OnBlock;
    if |pending| == 0 {
      assert log + PlacedAll(pending, block) == log;
    } else {
      var n := |pending| - 1;
      OthersKept(log, pending[..n], block, other);
      PlacedLast(log, pending, block, n);
      OnBlockLast(log + PlacedAll(pending[..n], block), Placed(pending[n].filename, SegmentOf(pending[n],
          block), true), other);
    }
  }

  /** A new block is used exactly where those who waited had room set aside. */
  lemma {:induction false} NewBlockTiled(log: seq<Placed>, pending: seq<Pending>, block: LzxBlock)
    ensures OnBlock(log + PlacedAll(pending, block), block) == OnBlock(log, block) + RoomOf(pending)
    decreases |pending|
  {
    hide OnBlock;
    if |pending| == 0 {
      assert log + PlacedAll(pending, block) == log;
    } else {
      var n := |pending| - 1;
      NewBlockTiled(log, pending[..n], block);
      PlacedLast(log, pending, block, n);
      OnBlockLast(log + PlacedAll(pending[..n], block), Placed(pending[n].filename, SegmentOf(pending[n],
          block), true), block);
      assert RoomOf(pending) == RoomOf(pending[..n]) + [Span(pending[n].offset, pending[n].length)];
    }
  }

  /** A block nobody has used holds no segments. */
  lemma {:induction false} UnusedBlock(log: seq<Placed>, blocks: seq<Option<LzxBlock>>, block: LzxBlock)
    requires forall placed <- log :: Some(placed.segment.block) in blocks
    requires Some(block) !in blocks
    ensures OnBlock(log, block) == []
    decreases |log|
  {
    if |log| > 0 {
      var n := |log| - 1;
      assert log[n] in log;
      UnusedBlock(log[..n], blocks, block);
    }
  }

  lemma TiledAfter(s: Listing, blocks: seq<Option<LzxBlock>>, pending: seq<Pending>, block: LzxBlock)
    requires Partitioned(s) && BlocksFrom(s, blocks) && Some(block) !in blocks
    requires Tiles(RoomOf(pending), block.total)
    ensures var log := s.log + PlacedAll(pending, block);
            forall placed <- log :: Tiles(OnBlock(log, placed.segment.block), placed.segment.block.total)
    ensures forall placed <- s.log + PlacedAll(pending, block) :: Some(placed.segment.block) in blocks + [Some(block)]
  {
    hide OnBlock, Tiles, PlacedAll;
    var log := s.log + PlacedAll(pending, block);
    forall placed | placed in log
      ensures Tiles(OnBlock(log, placed.segment.block), placed.segment.block.total)
      ensures Some(placed.segment.block) in blocks + [Some(block)]
    {
      if placed in s.log {
        assert placed.segment.block != block;
        OthersKept(s.log, pending, block, placed.segment.block);
      } else {
        BlockOfPlaced(pending, block, placed);
        UnusedBlock(s.log, blocks, block);
        NewBlockTiled(s.log, pending, block);
        assert OnBlock(log, block) == RoomOf(pending);
      }
    }
  }

  lemma {:induction false} BlockOfPlaced(pending: seq<Pending>, block: LzxBlock, placed: Placed)
    requires placed in PlacedAll(pending, block)
    ensures placed.segment.block == block
    decreases |pending|
  {
    var n := |pending| - 1;
    if placed in PlacedAll(pending[..n], block) {
      BlockOfPlaced(pending[..n], block, placed);
    }
  }

  /** A block of its own is a block shared by one. */
  lemma OwnBlock(e: Entry, block: LzxBlock, log: seq<Placed>)
    ensures var own := Placed(e.filename, Segment(block, 0, e.UnpackSize()), false);
            var one := [Pending(e.filename, 0, e.UnpackSize())];
            && Tiles(RoomOf(one), e.UnpackSize())
            && (forall other :: OnBlock(log + [own], other) == OnBlock(log + PlacedAll(one, block), other))
            && Given(log + [own], true) == Given(log, true)
            && Given(log + [own], false) == Given(log, false) + [ItemOf(e)]
            && forall name :: SegmentsFor(log + [own], name) == SegmentsFor(log + PlacedAll(one, block), name)
  {
    var own := Placed(e.filename, Segment(block, 0, e.UnpackSize()), false);
    var one := [Pending(e.filename, 0, e.UnpackSize())];
    var alike := Placed(e.filename, SegmentOf(one[0], block), true);
    assert RoomOf(one) == [Span(0, e.UnpackSize())];
    assert one[..0] == [] && RoomOf(one)[..0] == [];
    assert PlacedAll(one, block) == [alike];
    Last(log, own);
    Last(log, alike);
  }

  lemma SharedKeeps(s: Listing, records: seq<Record>, blocks: seq<Option<LzxBlock>>, e: Entry, block: LzxBlock)
    requires ListingOk(s, records, blocks) && NamesKnown(s) && e.filename in s.builders
    requires e.IsMerged() && Some(block) !in blocks && block.total == s.offset
    ensures ListingOk(Hand(s, e, block), records, blocks + [Some(block)])
  {
    hide Owed, Given, FirstOf, SegmentsFor, OnBlock, Tiles, PlacedAll, AttachAll;
    GivenAll(s.log, s.pending, block);
    AttachAllCatalogues(s.builders, s.log, s.pending, block);
    PlacedAllFrom(s.pending, block, s.builders);
    TiledAfter(s, blocks, s.pending, block);
    NoRoomNeeded();
  }

  lemma NoRoomNeeded()
    ensures Tiles(RoomOf([]), 0)
  {
  }

  lemma OwnKeeps(s: Listing, s': Listing, records: seq<Record>, blocks: seq<Option<LzxBlock>>, e: Entry, block: LzxBlock)
    requires Catalogued(s, records) && Partitioned(s) && BlocksFrom(s, blocks)
    requires NamesKnown(s) && e.filename in s.builders
    requires !e.IsMerged() && Some(block) !in blocks && block.total == e.UnpackSize()
    requires Owed(records, true) == Given(s.log, true) + Waiting(s.pending)
    requires Owed(records, false) == Given(s.log, false) + [ItemOf(e)]
    requires s' == Hand(s, e, block)
    ensures ListingOk(s', records, blocks + [Some(block)])
  {
    hide Owed, Given, FirstOf, SegmentsFor, OnBlock, Tiles, PlacedAll;
    var own := Placed(e.filename, Segment(block, 0, e.UnpackSize()), false);
    var one := [Pending(e.filename, 0, e.UnpackSize())];
    OwnBlock(e, block, s.log);
    OwnCatalogues(s, records, e, own);
    TiledAfter(s, blocks, one, block);
    OneLike(s.log, one, block, own);
    assert s'.log == s.log + [own];
  }

  lemma OneLike(log: seq<Placed>, one: seq<Pending>, block: LzxBlock, own: Placed)
    requires |one| == 1 && own.segment.block == block
    ensures forall placed <- log + [own] ::
              exists p <- log + PlacedAll(one, block) :: p.segment.block == placed.segment.block
  {
    var all := PlacedAll(one, block);
    assert all[0] in log + all && all[0].segment.block == block;
    forall placed | placed in log + [own]
      ensures exists p <- log + all :: p.segment.block == placed.segment.block
    {
      if placed in log {
        assert placed in log + all;
      }
    }
  }

  lemma OwnCatalogues(s: Listing, records: seq<Record>, e: Entry, own: Placed)
    requires Catalogued(s, records) && e.filename in s.builders && own.filename == e.filename
    ensures Catalogued(s.(builders := Attach(s.builders, e.filename, own.segment), log := s.log + [own]), records)
  {
    hide FirstOf;
    Last(s.log, own);
  }

  /** One iteration keeps everything. */
  lemma ProcessKeeps(s: Listing, records: seq<Record>, blocks: seq<Option<LzxBlock>>, record: Record,
      block: Option<LzxBlock>)
    requires ListingOk(s, records, blocks) && NamesKnown(s)
    requires block.Some? <==> record.MakesBlock()
    requires block.Some? ==> block !in blocks && IsBlockOf(Enter(s, record.entry), record, block.value)
    ensures ListingOk(Process(s, record, block), records + [record], blocks + [block])
  {
    hide Owed, Given, FirstOf, SegmentsFor, OnBlock, Tiles, PlacedAll, AttachAll, Catalogued, Waiting;
    EnterKeeps(s, records, record);
    EnterCatalogues(s, records, record);
    var e, s' := record.entry, Enter(s, record.entry);
    assert Partitioned(s');
    if block.Some? {
      if e.IsMerged() {
        assert ListingOk(s', records + [record], blocks);
        SharedKeeps(s', records + [record], blocks, e, block.value);
      } else {
        OwnKeeps(s', Hand(s', e, block.value), records + [record], blocks, e, block.value);
      }
    }
  }

  lemma NothingListed()
    ensures ListingOk(Empty(), [], [])
  {
  }

  /** Every listing keeps everything. */
  lemma {:induction false} RunKeeps(records: seq<Record>, blocks: seq<Option<LzxBlock>>)
    requires Supplied(records, blocks)
    ensures ListingOk(Run(records, blocks), records, blocks)
    decreases |records|
  {
    hide Process, IsBlockOf, Enter, ListingOk, Record.MakesBlock;
    if |records| == 0 {
      NothingListed();
    } else {
      var n := |records| - 1;
      RunKeeps(records[..n], blocks[..n]);
      ProcessKeeps(Run(records[..n], blocks[..n]), records[..n], blocks[..n], records[n], blocks[n]);
      assert records == records[..n] + [records[n]] && blocks == blocks[..n] + [blocks[n]];
    }
  }

  // ---------------------------------------------------------------- what follows for a listing

  lemma {:induction false} HandedOut(log: seq<Placed>, name: Name, segment: Segment)
    requires segment in SegmentsFor(log, name)
    ensures exists placed <- log :: placed.segment == segment && placed.filename == name
    decreases |log|
  {
    var n := |log| - 1;
    if log[n].filename == name && log[n].segment == segment {
      assert log[n] in log;
    } else {
      HandedOut(log[..n], name, segment);
    }
  }

  lemma {:induction false} OnItsBlock(log: seq<Placed>, placed: Placed)
    requires placed in log
    ensures placed.segment.Extent() in OnBlock(log, placed.segment.block)
    decreases |log|
  {
    var n := |log| - 1;
    if log[n] != placed {
      OnItsBlock(log[..n], placed);
    }
  }

  /** Every segment of every entry lies within a block of the listing, so that its data is a valid
      part of what the block unpacks to. */
  lemma SegmentsInRange(records: seq<Record>, blocks: seq<Option<LzxBlock>>, name: Name, segment: Segment)
    requires Supplied(records, blocks)
    requires var s := Run(records, blocks); name in s.builders && segment in s.builders[name].segments
    ensures Some(segment.block) in blocks
    ensures segment.offset + segment.length <= segment.block.total
  {
    hide OnBlock, SegmentsFor, Tiles, Supplied, Run, Conserved;
    var s := Run(records, blocks);
    RunKeeps(records, blocks);
    HandedOut(s.log, name, segment);
    var placed :| placed in s.log && placed.segment == segment;
    OnItsBlock(s.log, placed);
    var on := OnBlock(s.log, segment.block);
    var i :| 0 <= i < |on| && on[i] == segment.Extent();
    TilesInRange(on, segment.block.total, i);
  }

  /** The segments of a block, in the order of the archive, give back every byte it unpacks to. */
  lemma BlockRebuilt(records: seq<Record>, blocks: seq<Option<LzxBlock>>, placed: Placed, data: seq<byte>)
    requires Supplied(records, blocks) && placed in Run(records, blocks).log
    requires var b := placed.segment.block; Unpack(b.mode, b.packed, b.total) == Success(data)
    ensures var on := OnBlock(Run(records, blocks).log, placed.segment.block);
            && (forall g <- on :: g.offset + g.length <= |data|)
            && Joined(on, data) == data
  {
    hide OnBlock, Tiles, Supplied, Run, Conserved, Catalogued, Unpack;
    var s, block := Run(records, blocks), placed.segment.block;
    RunKeeps(records, blocks);
    TilesJoin(OnBlock(s.log, block), block.total, data);
    assert data[..block.total] == data;
  }

  function SumFor(items: seq<(Name, nat)>, name: Name): nat
    decreases |items|
  {
    if |items| == 0 then 0
    else
      var n := |items| - 1;
      SumFor(items[..n], name) + if items[n].0 == name then items[n].1 else 0
  }

  /** The bytes that the records announce for a name. */
  function Announced(records: seq<Record>, name: Name): nat
    decreases |records|
  {
    if |records| == 0 then 0
    else
      var n := |records| - 1;
      var e := records[n].entry;
      Announced(records[..n], name) + if e.filename == name then e.UnpackSize() else 0
  }

  lemma {:induction false} SumForConcat(a: seq<(Name, nat)>, b: seq<(Name, nat)>, name: Name)
    ensures SumFor(a + b, name) == SumFor(a, name) + SumFor(b, name)
    decreases |b|
  {
    if |b| == 0 {
      assert a + b == a;
    } else {
      assert (a + b)[..|a + b| - 1] == a + b[..|b| - 1];
      SumForConcat(a, b[..|b| - 1], name);
    }
  }

  lemma {:induction false} AnnouncedIsOwed(records: seq<Record>, name: Name)
    ensures Announced(records, name) == SumFor(Owed(records, true), name) + SumFor(Owed(records, false), name)
    decreases |records|
  {
    if |records| > 0 {
      var n := |records| - 1;
      AnnouncedIsOwed(records[..n], name);
      var e := records[n].entry;
      Last(Owed(records[..n], e.IsMerged()), ItemOf(e));
      assert Owed(records, !e.IsMerged()) == Owed(records[..n], !e.IsMerged());
    }
  }

  lemma {:induction false} SegmentsAreGiven(log: seq<Placed>, name: Name)
    ensures TotalLength(SpansOf(SegmentsFor(log, name))) == SumFor(Given(log, true), name) + SumFor(Given(log, false), name)
    decreases |log|
  {
    if |log| > 0 {
      var n := |log| - 1;
      SegmentsAreGiven(log[..n], name);
      Last(Given(log[..n], log[n].shared), (log[n].filename, log[n].segment.length));
      assert Given(log, !log[n].shared) == Given(log[..n], !log[n].shared);
      if log[n].filename == name {
        var before, last := SegmentsFor(log[..n], name), log[n].segment;
        assert SpansOf(before + [last]) == SpansOf(before) + [last.Extent()];
        Last(SpansOf(before), last.Extent());
      } else {
        assert SegmentsFor(log, name) == SegmentsFor(log[..n], name);
      }
    }
  }

  /** The size of a listed entry is all that its headers announced, less what still waits for a
      block that never came. */
  lemma EntrySize(records: seq<Record>, blocks: seq<Option<LzxBlock>>, name: Name)
    requires Supplied(records, blocks) && name in Run(records, blocks).builders
    ensures var s := Run(records, blocks);
            Announced(records, name) == TotalLength(SpansOf(s.builders[name].segments)) + SumFor(Waiting(s.pending), name)
  {
    hide Owed, Given, SegmentsFor, Supplied, Run, FirstOf, SumFor, TotalLength, Waiting;
    var s := Run(records, blocks);
    RunKeeps(records, blocks);
    AnnouncedIsOwed(records, name);
    SegmentsAreGiven(s.log, name);
    SumForConcat(Given(s.log, true), Waiting(s.pending), name);
  }

  /** At every loop boundary the running offset is the sum of the lengths that wait. */
  lemma OffsetIsWaiting(records: seq<Record>, blocks: seq<Option<LzxBlock>>)
    requires Supplied(records, blocks)
    ensures var s := Run(records, blocks); s.offset == TotalLength(RoomOf(s.pending))
  {
    hide Supplied, Run, Conserved, Catalogued, Tiles, TotalLength;
    RunKeeps(records, blocks);
    TilesIsPrefixSums(RoomOf(Run(records, blocks).pending), Run(records, blocks).offset);
  }
}
