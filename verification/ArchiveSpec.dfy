/** The archive listing as a state machine over records (src/unlzx.cc).

    A record is an entry and the packed bytes that follow it. Entries flagged as merged wait until
    one of them brings packed bytes; those bytes then become one block, shared by all that wait. */
module ArchiveSpec {
  import opened Errors
  import opened MmapBuffer
  import opened LzxHandle
  import opened LzxBlocks

  type Name = seq<byte>

  // ---------------------------------------------------------------- records

  /** `data` is empty when the archive ends before the packed bytes do. */
  datatype Record = Record(entry: Entry, data: seq<byte>)
  {
    predicate MakesBlock() {
      entry.IsMerged() ==> entry.PackSize() > 0
    }
  }

  /** A record and what follows it. When the archive ends before the packed bytes do, the record is
      not `complete` and nothing is skipped. */
  datatype Scanned = Scanned(record: Record, complete: bool, after: seq<byte>)

  function NextRecord(rest: seq<byte>): Result<Scanned> {
    var (e, after) :- ParseEntry(rest);
    if |after| < e.PackSize() then Success(Scanned(Record(e, []), false, after))
    else Success(Scanned(Record(e, after[..e.PackSize()]), true, after[e.PackSize()..]))
  }

  /** Every iteration uses up at least a header. */
  lemma NextRecordShrinks(rest: seq<byte>)
    ensures NextRecord(rest).Success? ==> |NextRecord(rest).value.after| + HEADER <= |rest|
  {
    hide ParseEntry;
    if ParseEntry(rest).Success? {
      ParsedIsWellFormed(rest, ParseEntry(rest).value.0, ParseEntry(rest).value.1);
    }
  }

  /** The records read from `rest`, up to the end of the input or the first fault, and where the
      reading stops. */
  function Scan(rest: seq<byte>): (seq<Record>, seq<byte>)
    decreases |rest|
  {
    if |rest| == 0 then ([], [])
    else match NextRecord(rest)
      case Failure(_) => ([], Abandoned(rest))
      case Success(next) =>
        NextRecordShrinks(rest);
        if !next.complete then ([next.record], next.after)
        else
          var (records, end) := Scan(next.after);
          ([next.record] + records, end)
  }

  // ---------------------------------------------------------------- the listing

  /** A stretch of a block. */
  datatype Span = Span(offset: nat, length: nat)

  datatype Segment = Segment(block: LzxBlock, offset: nat, length: nat)
  {
    function Extent(): Span {
      Span(offset, length)
    }
  }

  datatype Builder = Builder(metadata: Entry, segments: seq<Segment>)

  datatype Pending = Pending(filename: Name, offset: nat, length: nat)

  /** One attachment of a segment to a name; `shared` tells merged entries from the others. */
  datatype Placed = Placed(filename: Name, segment: Segment, shared: bool)

  /** The state of the loop, with the history of all attachments. */
  datatype Listing = Listing(builders: map<Name, Builder>, pending: seq<Pending>, offset: nat, log: seq<Placed>)

  function Registered(builders: map<Name, Builder>, e: Entry): map<Name, Builder> {
    if e.filename in builders then builders else builders[e.filename := Builder(e, [])]
  }

  function Attach(builders: map<Name, Builder>, name: Name, segment: Segment): map<Name, Builder>
    requires name in builders
  {
    builders[name := builders[name].(segments := builders[name].segments + [segment])]
  }

  function AttachAll(builders: map<Name, Builder>, pending: seq<Pending>, block: LzxBlock): (r: map<Name, Builder>)
    requires forall p <- pending :: p.filename in builders
    ensures r.Keys == builders.Keys
    decreases |pending|
  {
    if |pending| == 0 then builders
    else
      var n := |pending| - 1;
      Attach(AttachAll(builders, pending[..n], block), pending[n].filename, SegmentOf(pending[n], block))
  }

  function SegmentOf(p: Pending, block: LzxBlock): Segment {
    Segment(block, p.offset, p.length)
  }

  function PlacedAll(pending: seq<Pending>, block: LzxBlock): (log: seq<Placed>)
    ensures |log| == |pending|
    decreases |pending|
  {
    if |pending| == 0 then []
    else
      var n := |pending| - 1;
      PlacedAll(pending[..n], block) + [Placed(pending[n].filename, SegmentOf(pending[n], block), true)]
  }

  function Empty(): Listing {
    Listing(map[], [], 0, [])
  }

  /** The listing with the record's entry known and, if it is merged, waiting. */
  function Enter(s: Listing, e: Entry): Listing {
    var known := Registered(s.builders, e);
    if e.IsMerged() then
      s.(builders := known,
         pending := s.pending + [Pending(e.filename, s.offset, e.UnpackSize())],
         offset := s.offset + e.UnpackSize())
    else s.(builders := known)
  }

  /** The block a record makes, once entered. */
  predicate IsBlockOf(s: Listing, record: Record, block: LzxBlock) {
    && block.mode == record.entry.Mode()
    && block.packed == record.data
    && block.total == (if record.entry.IsMerged() then s.offset else record.entry.UnpackSize())
  }

  predicate NamesKnown(s: Listing) {
    forall p <- s.pending :: p.filename in s.builders
  }

  /** Hand the block to whoever waits for it: all pending names, or the record's own. */
  function Hand(s: Listing, e: Entry, block: LzxBlock): Listing
    requires NamesKnown(s) && e.filename in s.builders
  {
    if e.IsMerged() then
      Listing(AttachAll(s.builders, s.pending, block), [], 0, s.log + PlacedAll(s.pending, block))
    else
      var segment := Segment(block, 0, e.UnpackSize());
      s.(builders := Attach(s.builders, e.filename, segment), log := s.log + [Placed(e.filename, segment, false)])
  }

  /** One iteration. */
  function Process(s: Listing, record: Record, block: Option<LzxBlock>): (r: Listing)
    requires NamesKnown(s) && (block.Some? <==> record.MakesBlock())
    ensures NamesKnown(r)
  {
    var s' := Enter(s, record.entry);
    if block.Some? then Hand(s', record.entry, block.value) else s'
  }

  // ---------------------------------------------------------------- whole runs

  /** The blocks made while listing `records`, one for each record that makes one: they hold what
      the record says, and they are different objects. */
  ghost predicate Supplied(records: seq<Record>, blocks: seq<Option<LzxBlock>>)
    ensures Supplied(records, blocks) ==> |blocks| == |records|
    decreases |records|, 0
  {
    && |blocks| == |records|
    && (|records| > 0 ==>
          var n := |records| - 1;
          && Supplied(records[..n], blocks[..n])
          && (blocks[n].Some? <==> records[n].MakesBlock())
          && (blocks[n].Some? ==>
                && blocks[n] !in blocks[..n]
                && IsBlockOf(Enter(Run(records[..n], blocks[..n]), records[n].entry), records[n], blocks[n].value)))
  }

  /** The listing after `records`. */
  ghost function Run(records: seq<Record>, blocks: seq<Option<LzxBlock>>): (s: Listing)
    requires Supplied(records, blocks)
    ensures NamesKnown(s)
    decreases |records|, 1
  {
    if |records| == 0 then Empty()
    else
      var n := |records| - 1;
      Process(Run(records[..n], blocks[..n]), records[n], blocks[n])
  }

  /** One more record. */
  lemma RunExtends(records: seq<Record>, blocks: seq<Option<LzxBlock>>, record: Record, block: Option<LzxBlock>)
    requires Supplied(records, blocks)
    requires block.Some? <==> record.MakesBlock()
    requires block.Some? ==> block !in blocks && IsBlockOf(Enter(Run(records, blocks), record.entry), record, block.value)
    ensures Supplied(records + [record], blocks + [block])
    ensures Run(records + [record], blocks + [block]) == Process(Run(records, blocks), record, block)
  {
    hide Process, IsBlockOf, Enter, Record.MakesBlock;
    assert (records + [record])[..|records|] == records;
    assert (blocks + [block])[..|records|] == blocks;
  }

  /** Reading on from `rest` after `done`. */
  lemma ScanOn(done: seq<Record>, rest: seq<byte>, all: (seq<Record>, seq<byte>))
    requires |rest| > 0 && all == (done + Scan(rest).0, Scan(rest).1)
    ensures match NextRecord(rest)
            case Failure(_) => all == (done, Abandoned(rest))
            case Success(next) =>
              if !next.complete then all == (done + [next.record], next.after)
              else all == (done + [next.record] + Scan(next.after).0, Scan(next.after).1)
  {
    hide NextRecord, Abandoned;
    if NextRecord(rest).Failure? {
      assert done + [] == done;
    } else if NextRecord(rest).value.complete {
      var next := NextRecord(rest).value;
      assert done + ([next.record] + Scan(next.after).0) == done + [next.record] + Scan(next.after).0;
    }
  }
}
