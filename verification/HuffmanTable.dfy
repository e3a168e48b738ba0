/** Building the decode array from code lengths (src/huffman_table.cc). */
module HuffmanTables {
  import opened Bits
  import opened Errors
  import opened CanonicalCode
  import opened HuffmanTrie
  import opened HuffmanWalk
  import opened HuffmanStray

  // ---------------------------------------------------------------- when building succeeds

  /** The lengths describe a complete code. The second pass is skipped when the codes of at most
      `tableBits` bits already use up all strings, so that longer lengths are then ignored. */
  predicate Complete(lens: seq<nat>, tableBits: nat)
    requires tableBits <= 16
  {
    Kraft(lens, tableBits) == FULL || Kraft(lens, 16) == FULL
  }

  /** The overflow nodes a code of length `len` at position `q` adds: one for each depth from `tableBits`
      on at which the code is the first of its cell. */
  function NewNodes(q: nat, tableBits: nat, len: nat): (n: nat)
    requires len <= 16
    ensures len >= tableBits ==> n <= len - tableBits
  {
    if len <= tableBits then 0
    else NewNodes(q, tableBits, len - 1) + (if CellAt(q, len - 1).Lo() == q then 1 else 0)
  }

  /** The overflow nodes a symbol of length `len` adds at position `q`. At the top all strings are
      taken, and the walk for one symbol more leaves the forest; there is none beyond. */
  ghost function Added(lens: seq<nat>, tableBits: nat, q: nat, len: nat): (n: nat)
    requires len <= 16
    ensures n <= if len > tableBits then len - tableBits else 0
  {
    if len <= tableBits || q > FULL then 0
    else if q < FULL then NewNodes(q, tableBits, len)
    else Stray(lens, tableBits, 0, len - tableBits)
  }

  /** The overflow nodes added before symbol `k` of length `len`. */
  ghost function NodesUsed(lens: seq<nat>, tableBits: nat, len: nat, k: nat): nat
    requires k <= |lens| && 1 <= len <= 16
    decreases len, k
  {
    if len <= tableBits then 0
    else if k > 0 then
      NodesUsed(lens, tableBits, len, k - 1) +
      (if lens[k - 1] == len then Added(lens, tableBits, Position(lens, len, k - 1), len) else 0)
    else if len == 1 then 0
    else NodesUsed(lens, tableBits, len - 1, |lens|)
  }

  /** The bits beyond the first `tableBits` of all codes before symbol `k` of length `len`. */
  function LongBits(lens: seq<nat>, tableBits: nat, len: nat, k: nat): nat
    requires k <= |lens| && 1 <= len <= 16
    decreases len, k
  {
    if len <= tableBits then 0
    else if k > 0 then LongBits(lens, tableBits, len, k - 1) + (if lens[k - 1] == len then len - tableBits else 0)
    else if len == 1 then 0
    else LongBits(lens, tableBits, len - 1, |lens|)
  }

  /** A size that is enough for any code: two entries for every bit beyond the first `tableBits`. */
  predicate Roomy(lens: seq<nat>, tableBits: nat, size: nat)
    requires 1 <= tableBits <= 16
  {
    2 * (First(tableBits) + LongBits(lens, tableBits, 16, |lens|)) <= size
  }

  /** The array has room for every overflow node that building it asks for. */
  ghost predicate Fits(lens: seq<nat>, tableBits: nat, size: nat)
    requires 1 <= tableBits <= 16
  {
    Kraft(lens, tableBits) == FULL || HasRoom(lens, tableBits, size)
  }

  /** What becomes of building an array of `size` entries, whatever the lengths. */
  ghost function Build(lens: seq<nat>, tableBits: nat, size: nat): (status: Status)
    requires 1 <= tableBits <= 16
    ensures status == Ok <==> Complete(lens, tableBits) && Fits(lens, tableBits, size)
  {
    KraftGrows(lens, tableBits);
    if Kraft(lens, tableBits) > FULL then HuffmanTableError
    else if !Fits(lens, tableBits, size) then IndexFault
    else if Complete(lens, tableBits) then Ok
    else HuffmanTableError
  }

  lemma NodesStep(lens: seq<nat>, tableBits: nat, s: nat)
    requires HasLength(lens, s) && lens[s] > tableBits
    ensures NodesUsed(lens, tableBits, lens[s], s + 1) ==
            NodesUsed(lens, tableBits, lens[s], s) + Added(lens, tableBits, CodeCell(lens, s).Lo(), lens[s])
  {
    hide Added;
  }

  lemma {:induction false} NodesMonotone(lens: seq<nat>, tableBits: nat, len: nat, k: nat, len': nat, k': nat)
    requires k <= |lens| && k' <= |lens| && 1 <= len <= len' <= 16
    requires len < len' || k <= k'
    ensures NodesUsed(lens, tableBits, len, k) <= NodesUsed(lens, tableBits, len', k')
    decreases len', k'
  {
    hide Added;
    if len == len' && k == k' {
    } else if k' > 0 {
      NodesMonotone(lens, tableBits, len, k, len', k' - 1);
    } else {
      NodesMonotone(lens, tableBits, len, k, len' - 1, |lens|);
    }
  }

  /** Past the top nothing is added any more. */
  lemma {:induction false} NodesSettled(lens: seq<nat>, tableBits: nat, len: nat, k: nat, len': nat, k': nat)
    requires k <= |lens| && k' <= |lens| && 1 <= len <= len' <= 16
    requires len < len' || k <= k'
    requires Position(lens, len, k) > FULL
    ensures NodesUsed(lens, tableBits, len, k) == NodesUsed(lens, tableBits, len', k')
    decreases len', k'
  {
    if len == len' && k == k' {
    } else if k' > 0 {
      NodesSettled(lens, tableBits, len, k, len', k' - 1);
      PositionMonotone(lens, len, k, len', k' - 1);
    } else {
      NodesSettled(lens, tableBits, len, k, len' - 1, |lens|);
    }
  }

  /** Enough for any code is enough for this one. */
  lemma {:induction false} RoomyFits(lens: seq<nat>, tableBits: nat, len: nat, k: nat)
    requires k <= |lens| && 1 <= len <= 16
    ensures NodesUsed(lens, tableBits, len, k) <= LongBits(lens, tableBits, len, k)
    decreases len, k
  {
    if len > tableBits && k > 0 {
      RoomyFits(lens, tableBits, len, k - 1);
    } else if len > tableBits && len > 1 {
      RoomyFits(lens, tableBits, len - 1, |lens|);
    }
  }

  // ---------------------------------------------------------------- array bounds

  /** Every entry in use is a symbol or a node in use. */
  ghost predicate Bounded(t: seq<nat>, tableBits: nat, n: nat, next: nat)
    requires tableBits >= 1
    ensures Bounded(t, tableBits, n, next) ==> 2 * next <= |t|
  {
    && n <= First(tableBits) <= next && 2 * next <= |t|
    && (forall e :: 0 <= e < 2 * next ==> t[e] < n || First(tableBits) <= t[e] < next)
  }

  lemma SoundIsBounded(lens: seq<nat>, t: seq<nat>, tableBits: nat, path: seq<Cell>, q: nat, busy: nat)
    requires Sound(lens, t, tableBits, path, q, busy)
    requires |lens| > 0
    ensures Bounded(t, tableBits, |lens|, First(tableBits) + |path|)
  {
    forall e | 0 <= e < EntryCount(tableBits, path)
      ensures t[e] < |lens| || First(tableBits) <= t[e] < First(tableBits) + |path|
    {
      assert EntryOk(lens, t, tableBits, path, q, e);
      CellOfOk(tableBits, path, e);
    }
  }

  lemma BoundedWithNode(t: seq<nat>, tableBits: nat, n: nat, next: nat, e: nat)
    requires tableBits >= 1 && Bounded(t, tableBits, n, next) && e < 2 * next && 2 * next + 2 <= |t| && n > 0
    ensures Bounded(WithNode(t, next, e), tableBits, n, next + 1)
  {
  }

  lemma SoundLater(lens: seq<nat>, t: seq<nat>, tableBits: nat, path: seq<Cell>, q: nat, i: nat, j: nat)
    requires Sound(lens, t, tableBits, path, q, i) && i <= j
    ensures Sound(lens, t, tableBits, path, q, j)
  {
  }

  /** An entry on the way to `q` is empty exactly when the code at `q` opens its cell. */
  lemma EmptyIffFirst(lens: seq<nat>, t: seq<nat>, tableBits: nat, path: seq<Cell>, q: nat, i: nat, e: nat)
    requires Sound(lens, t, tableBits, path, q, i) && tableBits <= i <= 16 && q < FULL
    requires e < EntryCount(tableBits, path) && CellOf(tableBits, path, e) == CellAt(q, i)
    ensures (t[e] == 0) == (CellAt(q, i).Lo() == q)
  {
    assert EntryOk(lens, t, tableBits, path, q, e);
    CellAtContains(q, i);
  }

  // ---------------------------------------------------------------- the table object

  class HuffmanTable {
    const tableBits: nat
    const bitLength: array<nat>
    const table: array<nat>

    ghost predicate Valid() {
      && 1 <= tableBits <= 15
      && bitLength != table
      && 0 < bitLength.Length <= First(tableBits)
      && Pow2(tableBits) <= table.Length
    }

    constructor (bits: nat, symbols: nat, entries: nat)
      requires 1 <= bits <= 15 && 0 < symbols <= First(bits) && Pow2(bits) <= entries
      ensures Valid() && fresh(bitLength) && fresh(table)
      ensures tableBits == bits && bitLength.Length == symbols && table.Length == entries
      ensures bitLength[..] == seq(symbols, _ => 0)
      ensures table[..] == seq(entries, _ => 0)
    {
      tableBits := bits;
      bitLength := new nat[symbols](_ => 0);
      table := new nat[entries](_ => 0);
    }

    /** The low `tableBits` bits of `value` in reverse order. */
    method ReverseBits(value: nat) returns (leaf: nat)
      ensures leaf == Rev(tableBits, value)
    {
      leaf := 0;
      var i := 0;
      ghost var bits := BitsOf(value, tableBits);
      while i < tableBits
        invariant i <= tableBits
        invariant leaf == Msb(bits[..i])
      {
        BitsOfAt(value, tableBits, i);
        assert bits[..i + 1][..i] == bits[..i];
        leaf := 2 * leaf + Shr(value, i) % 2;
        i := i + 1;
      }
      assert bits[..tableBits] == bits;
    }

    /** Write `symbol` into `count` entries, `1 << len` apart. */
    method FillEntries(first: nat, len: nat, count: nat, symbol: nat)
      requires Valid()
      requires first < Pow2(len) && Shl(count, len) <= table.Length
      modifies table
      ensures table[..] == Filled(old(table[..]), first, Pow2(len), count, symbol)
    {
      var fill: nat := count;
      var leaf := first;
      var step := Pow2(len);
      ShlZero(len);
      while fill > 0
        invariant fill <= count && leaf == first + Shl(count - fill, len)
        invariant Filled(table[..], leaf, step, fill, symbol) == Filled(old(table[..]), first, step, count, symbol)
      {
        ShlGap(count - fill, count, len);
        ShlAdd(count - fill, 1, len);
        ShlPow2(0, len);
        fill := fill - 1;
        ghost var t := table[..];
        table[leaf] := symbol;
        assert table[..] == t[leaf := symbol];
        leaf := leaf + step;
      }
    }

    /** Pass 1 for one symbol: reserve its strings and fill the entries that start with its code. */
    method PlaceShort(symbol: nat, bitMask: nat, position: nat, ghost lens: seq<nat>) returns (status: Status,
        position': nat)
      requires Valid() && lens == bitLength[..]
      requires HasLength(lens, symbol) && lens[symbol] <= tableBits && position <= Pow2(tableBits)
      requires bitMask == Pow2(tableBits - lens[symbol])
      requires Shl(position, 16 - tableBits) == CodeCell(lens, symbol).Lo()
      requires DirectOk(lens, table[..], tableBits, Shl(position, 16 - tableBits))
      modifies table
      ensures status == Ok || status == HuffmanTableError
      ensures status == HuffmanTableError ==> Kraft(lens, tableBits) > FULL
      ensures status == Ok ==>
                && position' <= Pow2(tableBits)
                && Shl(position', 16 - tableBits) == CodeCell(lens, symbol).Hi()
                && DirectOk(lens, table[..], tableBits, Shl(position', 16 - tableBits))
    {
      hide DirectOk, Number, Kraft, Filled;
      var leaf := ReverseBits(position);
      position' := position + bitMask;
      AdvanceShort(lens, tableBits, position, symbol, position');
      if position' > Pow2(tableBits) {
        OverFull(lens, tableBits, position', symbol);
        return HuffmanTableError, position';
      }
      ShortCode(lens, tableBits, position, symbol, position');
      FillPlaces(lens, table[..], tableBits, Shl(position, 16 - tableBits), symbol);
      FillEntries(leaf, bitLength[symbol], bitMask, symbol);
      return Ok, position';
    }

    /** Pass 1 for all symbols of one length. */
    method PlaceLength(len: nat, bitMask: nat, start: nat, ghost lens: seq<nat>) returns (status: Status, position: nat)
      requires Valid() && lens == bitLength[..]
      requires 1 <= len <= tableBits && bitMask == Pow2(tableBits - len) && start <= Pow2(tableBits)
      requires Shl(start, 16 - tableBits) == Position(lens, len, 0)
      requires DirectOk(lens, table[..], tableBits, Shl(start, 16 - tableBits))
      modifies table
      ensures status == Ok || status == HuffmanTableError
      ensures status == HuffmanTableError ==> Kraft(lens, tableBits) > FULL
      ensures status == Ok ==>
                && position <= Pow2(tableBits)
                && Shl(position, 16 - tableBits) == Position(lens, len + 1, 0)
                && DirectOk(lens, table[..], tableBits, Shl(position, 16 - tableBits))
    {
      hide Number, Kraft, Pow2;
      position := start;
      var symbol := 0;
      while symbol < bitLength.Length
        invariant symbol <= |lens|
        invariant position <= Pow2(tableBits)
        invariant Shl(position, 16 - tableBits) == Position(lens, len, symbol)
        invariant DirectOk(lens, table[..], tableBits, Shl(position, 16 - tableBits))
      {
        PositionStep(lens, len, symbol);
        if bitLength[symbol] == len {
          status, position := PlaceShort(symbol, bitMask, position, lens);
          if status != Ok {
            return;
          }
        }
        symbol := symbol + 1;
      }
      PositionNextLength(lens, len);
      status := Ok;
    }

    /** Pass 1: codes of at most `tableBits` bits fill the direct table. */
    method FirstPass(ghost lens: seq<nat>) returns (status: Status, position: nat)
      requires Valid() && lens == bitLength[..]
      modifies table
      ensures status == (if Kraft(lens, tableBits) <= FULL then Ok else HuffmanTableError)
      ensures status == Ok ==>
                && position <= Pow2(tableBits)
                && Shl(position, 16 - tableBits) == Kraft(lens, tableBits)
                && DirectOk(lens, table[..], tableBits, Shl(position, 16 - tableBits))
    {
      position := 0;
      var len := 1;
      var bitMask := Shl(1, tableBits - 1);
      ShlPow2(0, tableBits - 1);
      NothingPlaced(lens, table[..], tableBits);
      while len <= tableBits
        invariant 1 <= len <= tableBits + 1
        invariant len <= tableBits ==> bitMask == Pow2(tableBits - len)
        invariant position <= Pow2(tableBits)
        invariant Shl(position, 16 - tableBits) == Position(lens, len, 0)
        invariant DirectOk(lens, table[..], tableBits, Shl(position, 16 - tableBits))
      {
        status, position := PlaceLength(len, bitMask, position, lens);
        if status != Ok {
          return;
        }
        bitMask := bitMask / 2;
        len := len + 1;
      }
      KraftIsPosition(lens, tableBits);
      PositionNextLength(lens, tableBits);
      FullAtTop(position, tableBits);
      status := Ok;
    }

    /** Clear the direct entries that pass 1 left unused. */
    method ClearUnused(position: nat)
      requires Valid() && position <= Pow2(tableBits)
      modifies table
      ensures forall e :: 0 <= e < Pow2(tableBits) && position <= Rev(tableBits, e) ==> table[e] == 0
      ensures forall e :: 0 <= e < Pow2(tableBits) && Rev(tableBits, e) < position ==> table[e] == old(table[e])
    {
      var symbol := position;
      while symbol < Pow2(tableBits)
        invariant position <= symbol <= Pow2(tableBits)
        invariant forall e :: 0 <= e < Pow2(tableBits) && position <= Rev(tableBits, e) < symbol ==> table[e] == 0
        invariant forall e :: 0 <= e < Pow2(tableBits) && Rev(tableBits, e) < position ==> table[e] == old(table[e])
      {
        var leaf := ReverseBits(symbol);
        RevRev(tableBits, symbol);
        forall e | 0 <= e < Pow2(tableBits) && Rev(tableBits, e) == symbol
          ensures e == leaf
        {
          RevRev(tableBits, e);
        }
        table[leaf] := 0;
        symbol := symbol + 1;
      }
    }

    /** Create the overflow node below an empty entry. */
    method EnsureNode(leaf: nat, next: nat, ghost lens: seq<nat>)
      returns (status: Status, next': nat)
      requires Valid() && lens == bitLength[..]
      requires Bounded(table[..], tableBits, |lens|, next) && leaf < 2 * next
      modifies table
      ensures status == (if old(table[leaf]) == 0 && 2 * next + 2 > table.Length then IndexFault else Ok)
      ensures status == Ok && old(table[leaf]) == 0 ==>
                next' == next + 1 && table[..] == WithNode(old(table[..]), next, leaf)
      ensures status == Ok && old(table[leaf]) != 0 ==> next' == next && table[..] == old(table[..])
      ensures status == Ok ==> Bounded(table[..], tableBits, |lens|, next') && leaf < table.Length && table[leaf] != 0
    {
      next' := next;
      if table[leaf] == 0 {
        if 2 * next + 2 > table.Length {
          return IndexFault, next;
        }
        BoundedWithNode(table[..], tableBits, |lens|, next, leaf);
        ghost var t := table[..];
        table[2 * next] := 0;
        table[2 * next + 1] := 0;
        table[leaf] := next;
        next' := next + 1;
        assert table[..] == WithNode(t, next, leaf);
      }
      status := Ok;
    }

    /** Pass 2 for one step down, `left` steps before the end: create the overflow node if there is
        none, and follow it. */
    method StepDown(leaf: nat, position: nat, fill: nat, next: nat,
                    ghost lens: seq<nat>, ghost path: seq<Cell>, ghost q: nat, ghost left: nat)
      returns (status: Status, leaf': nat, next': nat, ghost path': seq<Cell>)
      requires Valid() && lens == bitLength[..] && tableBits + fill <= 15 && left > 0
      requires position == Shl(q, tableBits) && next == First(tableBits) + |path|
      requires Bounded(table[..], tableBits, |lens|, next) && leaf < 2 * next
      requires q < FULL ==> Walking(lens, table[..], tableBits, path, q, tableBits + fill, leaf)
      modifies table
      ensures status == Ok || status == IndexFault
      ensures status == IndexFault ==> 2 * next + 2 > table.Length
      ensures status == IndexFault && q < FULL ==> CellAt(q, tableBits + fill).Lo() == q
      ensures status == IndexFault && q == FULL ==> Ahead(old(table[..]), leaf, left) > 0
      ensures status == Ok ==>
                && next' == First(tableBits) + |path'| && next <= next' <= next + 1
                && (q < FULL ==> next' == next + (if CellAt(q, tableBits + fill).Lo() == q then 1 else 0))
                && (q == FULL ==> next' + Ahead(table[..], leaf', left - 1) == next + Ahead(old(table[..]), leaf, left))
                && Bounded(table[..], tableBits, |lens|, next') && leaf' < 2 * next'
                && (q < FULL ==> Walking(lens, table[..], tableBits, path', q, tableBits + fill + 1, leaf'))
    {
      hide Trail, Ahead, Stray, Shl;
      ghost var t := table[..];
      status, next' := EnsureNode(leaf, next, lens);
      path' := if t[leaf] == 0 then path + [CellAt(q, tableBits + fill)] else path;
      if q < FULL {
        EmptyIffFirst(lens, t, tableBits, path, q, tableBits + fill, leaf);
      }
      if status != Ok {
        EmptyAhead(t, leaf, left);
        return status, leaf, next, path;
      }
      leaf' := 2 * table[leaf] + Shr(position, 15 - fill) % 2;
      NextBit(q, tableBits, fill);
      if q < FULL {
        Stepped(lens, t, table[..], tableBits, path, path', q, tableBits + fill, leaf, leaf');
      }
      if q == FULL {
        StrayStep(t, table[..], leaf, next, left, fill + tableBits, leaf');
      }
    }

    /** The walk of pass 2: one step down for every bit beyond `tableBits`. */
    method WalkToLeaf(len: nat, position: nat, next: nat, ghost lens: seq<nat>, ghost path: seq<Cell>, ghost q: nat)
      returns (status: Status, leaf: nat, next': nat, ghost path': seq<Cell>)
      requires Valid() && lens == bitLength[..] && tableBits < len <= 16
      requires position == Shl(q, tableBits) && next == First(tableBits) + |path|
      requires Bounded(table[..], tableBits, |lens|, next)
      requires q <= FULL && Sound(lens, table[..], tableBits, path, q, 0)
      modifies table
      ensures status == Ok || status == IndexFault
      ensures status == IndexFault ==> 2 * (next + Added(lens, tableBits, q, len)) > table.Length
      ensures status == Ok ==>
                && next' == First(tableBits) + |path'|
                && next' == next + Added(lens, tableBits, q, len)
                && Bounded(table[..], tableBits, |lens|, next') && leaf < 2 * next'
                && (q < FULL ==> Walking(lens, table[..], tableBits, path', q, len, leaf))
    {
      hide Sound, Walking, Bounded, Rev, Ahead, Stray, First, Shl, Shr;
      leaf := ReverseBits(Shr(position, 16));
      next', path' := next, path;
      ghost var more := Ahead(table[..], leaf, len - tableBits);
      if q < FULL {
        StartWalk(lens, table[..], tableBits, path, q, leaf);
      } else {
        StartStray(lens, table[..], tableBits, path, position, leaf, len - tableBits);
      }
      var fill: nat := 0;
      while fill < len - tableBits
        invariant fill <= len - tableBits
        invariant next' == First(tableBits) + |path'| && next <= next' <= next + fill
        invariant q < FULL ==> next' == next + NewNodes(q, tableBits, tableBits + fill)
        invariant q == FULL ==> next' + Ahead(table[..], leaf, len - tableBits - fill) == next + more
        invariant Bounded(table[..], tableBits, |lens|, next') && leaf < 2 * next'
        invariant q < FULL ==> Walking(lens, table[..], tableBits, path', q, tableBits + fill, leaf)
      {
        NewNodesMonotone(q, tableBits, tableBits + fill + 1, len);
        status, leaf, next', path' := StepDown(leaf, position, fill, next', lens, path', q, len - tableBits - fill);
        if status != Ok {
          return;
        }
        fill := fill + 1;
      }
      NothingAhead(table[..], leaf);
      status := Ok;
    }

    /** Pass 2 for one symbol: walk down to the entry for its code and write it there. */
    method PlaceLong(symbol: nat, position: nat, next: nat, ghost lens: seq<nat>, ghost path: seq<Cell>, ghost q: nat)
      returns (status: Status, next': nat, ghost path': seq<Cell>)
      requires Valid() && lens == bitLength[..]
      requires HasLength(lens, symbol) && lens[symbol] > tableBits
      requires position == Shl(q, tableBits) && next == First(tableBits) + |path|
      requires Bounded(table[..], tableBits, |lens|, next)
      requires q <= FULL && Sound(lens, table[..], tableBits, path, q, 0) && CodeCell(lens, symbol).Lo() == q
      modifies table
      ensures status == Ok || status == IndexFault
      ensures status == IndexFault ==> 2 * (next + Added(lens, tableBits, q, lens[symbol])) > table.Length
      ensures status == Ok ==>
                && next' == First(tableBits) + |path'|
                && next' == next + Added(lens, tableBits, q, lens[symbol])
                && Bounded(table[..], tableBits, |lens|, next')
                && (q < FULL ==>
                      && CodeCell(lens, symbol).Hi() <= FULL
                      && Sound(lens, table[..], tableBits, path', CodeCell(lens, symbol).Hi(), 0))
    {
      hide Sound, Added;
      var len := bitLength[symbol];
      var leaf: nat;
      status, leaf, next', path' := WalkToLeaf(len, position, next, lens, path, q);
      if status != Ok {
        return;
      }
      if q < FULL {
        Place(lens, table[..], tableBits, path', q, leaf, symbol);
      }
      BoundedWithSymbol(table[..], tableBits, |lens|, next', leaf, symbol);
      ghost var t := table[..];
      table[leaf] := symbol;
      assert table[..] == t[leaf := symbol];
    }

    /** Pass 2 for one symbol, and the step to the next position. */
    method PlaceAndAdvance(symbol: nat, bitMask: nat, start: nat, first: nat, ghost lens: seq<nat>,
                           ghost nodes: seq<Cell>, ghost from: nat)
      returns (status: Status, position: nat, next: nat, ghost path: seq<Cell>, ghost q: nat)
      requires Valid() && lens == bitLength[..] && HasLength(lens, symbol) && lens[symbol] > tableBits
      requires bitMask == Shl(Pow2(16 - lens[symbol]), tableBits) && start == Shl(from, tableBits)
      requires Placing(lens, table[..], tableBits, nodes, first, from, lens[symbol], symbol)
      modifies table
      ensures status == Ok || status == HuffmanTableError || status == IndexFault
      ensures status == HuffmanTableError ==> Kraft(lens, 16) > FULL && HasRoom(lens, tableBits, table.Length)
      ensures status == IndexFault ==> !HasRoom(lens, tableBits, table.Length)
      ensures status == Ok ==>
                && position == Shl(q, tableBits)
                && Placing(lens, table[..], tableBits, path, next, q, lens[symbol], symbol + 1)
    {
      hide Sound, NodesUsed, Added, Bounded, Kraft, HasRoom, Shl, Pow2;
      position, q := start, from;
      NodesStep(lens, tableBits, symbol);
      status, next, path := PlaceLong(symbol, start, first, lens, nodes, from);
      if status != Ok {
        NoRoom(lens, tableBits, symbol, table.Length);
        return;
      }
      AdvanceLong(lens, tableBits, from, symbol);
      q := CodeCell(lens, symbol).Hi();
      position := start + bitMask;
      if position > Shl(Pow2(tableBits), 16) {
        RoomAtEnd(lens, tableBits, symbol, next, table.Length);
        return HuffmanTableError, position, next, path, q;
      }
      BeforeFull(lens, symbol);
      PositionStep(lens, lens[symbol], symbol);
    }

    /** Pass 2 for all symbols of one length. */
    method PlaceLongLength(len: nat, bitMask: nat, start: nat, first: nat, ghost lens: seq<nat>,
                           ghost nodes: seq<Cell>, ghost from: nat)
      returns (status: Status, position: nat, next: nat, ghost path: seq<Cell>, ghost q: nat)
      requires Valid() && lens == bitLength[..] && tableBits < len <= 16
      requires bitMask == Shl(Pow2(16 - len), tableBits) && start == Shl(from, tableBits)
      requires Placing(lens, table[..], tableBits, nodes, first, from, len, 0)
      modifies table
      ensures status == Ok || status == HuffmanTableError || status == IndexFault
      ensures status == HuffmanTableError ==> Kraft(lens, 16) > FULL && HasRoom(lens, tableBits, table.Length)
      ensures status == IndexFault ==> !HasRoom(lens, tableBits, table.Length)
      ensures status == Ok ==>
                && position == Shl(q, tableBits)
                && Placing(lens, table[..], tableBits, path, next, q, len, |lens|)
    {
      position, next, path, q := start, first, nodes, from;
      var symbol: nat := 0;
      while symbol < bitLength.Length
        invariant symbol <= |lens|
        invariant position == Shl(q, tableBits)
        invariant Placing(lens, table[..], tableBits, path, next, q, len, symbol)
      {
        if bitLength[symbol] == len {
          status, position, next, path, q := PlaceAndAdvance(symbol, bitMask, position, next, lens, path, q);
          if status != Ok {
            return;
          }
        } else {
          NotThisLength(lens, table[..], tableBits, path, next, q, len, symbol);
        }
        symbol := symbol + 1;
      }
      status := Ok;
    }

    /** Pass 2: codes longer than `tableBits` grow overflow nodes below the unused entries. */
    method SecondPass(start: nat, ghost lens: seq<nat>) returns (status: Status, position: nat, ghost path: seq<Cell>)
      requires Valid() && lens == bitLength[..] && start < Pow2(tableBits)
      requires Shl(start, 16 - tableBits) == Kraft(lens, tableBits)
      requires DirectOk(lens, table[..], tableBits, Shl(start, 16 - tableBits))
      modifies table
      ensures status == Ok || status == HuffmanTableError || status == IndexFault
      ensures status == HuffmanTableError ==> Kraft(lens, 16) > FULL && HasRoom(lens, tableBits, table.Length)
      ensures status == IndexFault ==> !HasRoom(lens, tableBits, table.Length)
      ensures status == Ok ==> position == Shl(Kraft(lens, 16), tableBits) && Placed(lens, table[..], tableBits, path)
    {
      ghost var t := table[..];
      ClearUnused(start);
      ClearKeeps(lens, t, table[..], tableBits, start);
      StartPlacing(lens, table[..], tableBits, start);
      ShlShl(start, 16 - tableBits, tableBits);
      status, position, path := PlaceLongCodes(Shl(start, 16), First(tableBits), lens, Shl(start, 16 - tableBits));
    }

    method PlaceLongCodes(start: nat, first: nat, ghost lens: seq<nat>, ghost from: nat)
      returns (status: Status, position: nat, ghost path: seq<Cell>)
      requires Valid() && lens == bitLength[..]
      requires start == Shl(from, tableBits)
      requires Placing(lens, table[..], tableBits, [], first, from, tableBits + 1, 0)
      modifies table
      ensures status == Ok || status == HuffmanTableError || status == IndexFault
      ensures status == HuffmanTableError ==> Kraft(lens, 16) > FULL && HasRoom(lens, tableBits, table.Length)
      ensures status == IndexFault ==> !HasRoom(lens, tableBits, table.Length)
      ensures status == Ok ==> position == Shl(Kraft(lens, 16), tableBits) && Placed(lens, table[..], tableBits, path)
    {
      hide Position;
      var next := first;
      position, path := start, [];
      ghost var q := from;
      var bitMask := 32768;
      FirstMask(tableBits);
      var len: nat := tableBits + 1;
      while len <= 16
        invariant tableBits < len <= 17
        invariant len <= 16 ==> bitMask == Shl(Pow2(16 - len), tableBits)
        invariant position == Shl(q, tableBits)
        invariant len <= 16 ==> Placing(lens, table[..], tableBits, path, next, q, len, 0)
        invariant len == 17 ==> Placing(lens, table[..], tableBits, path, next, q, 16, |lens|)
      {
        status, position, next, path, q := PlaceLongLength(len, bitMask, position, next, lens, path, q);
        if status != Ok {
          return;
        }
        if len < 16 {
          NextLength(lens, table[..], tableBits, path, next, q, len);
          HalveMask(16 - len, tableBits);
        }
        bitMask := bitMask / 2;
        len := len + 1;
      }
      AllPlaced(lens, table[..], tableBits, path, next, q);
      status := Ok;
    }

    /** Build the decode array for the current lengths. It succeeds exactly when the code is
        complete and its overflow nodes fit; the array then decodes the code. */
    method ResetTable() returns (status: Status)
      requires Valid()
      modifies table
      ensures status == Build(bitLength[..], tableBits, table.Length)
      ensures status == Ok <==> Complete(bitLength[..], tableBits) && Fits(bitLength[..], tableBits, table.Length)
      ensures Roomy(bitLength[..], tableBits, table.Length) ==>
                status == if Complete(bitLength[..], tableBits) then Ok else HuffmanTableError
      ensures status == Ok ==> Decodes(bitLength[..], table[..], tableBits)
    {
      hide NodesUsed, Sound;
      ghost var lens := bitLength[..];
      RoomyFits(lens, tableBits, 16, |lens|);
      KraftGrows(lens, tableBits);
      var position;
      status, position := FirstPass(lens);
      if status != Ok {
        return;
      }
      PositionAtTop(tableBits, position);
      if position == Pow2(tableBits) {
        StartForest(lens, table[..], tableBits, position);
        return Ok;
      }
      ghost var path;
      status, position, path := SecondPass(position, lens);
      if status == Ok {
        KraftAtTop(lens, tableBits);
        if position != Shl(Pow2(tableBits), 16) {
          return HuffmanTableError;
        }
      }
    }
  }

  lemma {:induction false} KraftGrows(lens: seq<nat>, tableBits: nat)
    requires tableBits <= 16
    ensures Kraft(lens, tableBits) <= Kraft(lens, 16)
  {
    if |lens| > 0 {
      KraftGrows(lens[..|lens| - 1], tableBits);
    }
  }

  lemma PositionAtTop(tableBits: nat, position: nat)
    requires tableBits <= 16 && position <= Pow2(tableBits)
    ensures (position == Pow2(tableBits)) == (Shl(position, 16 - tableBits) == FULL)
  {
    ShlPow2(tableBits, 16 - tableBits);
    FullIsPow2();
    if position < Pow2(tableBits) {
      ShlGap(position, Pow2(tableBits), 16 - tableBits);
    }
  }

  lemma KraftAtTop(lens: seq<nat>, tableBits: nat)
    requires tableBits <= 16
    ensures (Shl(Kraft(lens, 16), tableBits) == Shl(Pow2(tableBits), 16)) == (Kraft(lens, 16) == FULL)
  {
    ShlPow2(tableBits, 16);
    ShlPow2(16, tableBits);
    FullIsPow2();
    if Kraft(lens, 16) < FULL {
      ShlGap(Kraft(lens, 16), FULL, tableBits);
    } else if Kraft(lens, 16) > FULL {
      ShlGap(FULL, Kraft(lens, 16), tableBits);
    }
  }

  /** Pass 2 has placed every code. */
  ghost predicate Placed(lens: seq<nat>, t: seq<nat>, tableBits: nat, path: seq<Cell>) {
    && 1 <= tableBits <= 15
    && Kraft(lens, 16) <= FULL
    && HasRoom(lens, tableBits, |t|)
    && |path| == NodesUsed(lens, tableBits, 16, |lens|)
    && Sound(lens, t, tableBits, path, Kraft(lens, 16), 0)
  }

  lemma AllPlaced(lens: seq<nat>, t: seq<nat>, tableBits: nat, path: seq<Cell>, next: nat, q: nat)
    requires Placing(lens, t, tableBits, path, next, q, 16, |lens|)
    ensures Placed(lens, t, tableBits, path) && q == Kraft(lens, 16)
  {
    KraftIsPosition(lens, 16);
  }

  lemma HalveMask(k: nat, tableBits: nat)
    requires k > 0
    ensures Shl(Pow2(k), tableBits) / 2 == Shl(Pow2(k - 1), tableBits)
  {
    ShlPow2(k, tableBits);
    ShlPow2(k - 1, tableBits);
  }

  lemma FirstMask(tableBits: nat)
    requires tableBits <= 15
    ensures Shl(Pow2(15 - tableBits), tableBits) == 32768
  {
    ShlPow2(15 - tableBits, tableBits);
    Pow2Values();
    assert Pow2(16) == 2 * Pow2(15);
  }

  lemma ClearKeeps(lens: seq<nat>, t: seq<nat>, t': seq<nat>, tableBits: nat, p: nat)
    requires 1 <= tableBits <= 15 && Pow2(tableBits) <= |t| == |t'|
    requires DirectOk(lens, t, tableBits, Shl(p, 16 - tableBits))
    requires forall e :: 0 <= e < Pow2(tableBits) && Rev(tableBits, e) < p ==> t'[e] == t[e]
    ensures DirectOk(lens, t', tableBits, Shl(p, 16 - tableBits))
  {
    var q := Shl(p, 16 - tableBits);
    forall e | 0 <= e < Pow2(tableBits)
      ensures DirectEntryOk(lens, t', tableBits, q, e)
    {
      assert DirectEntryOk(lens, t, tableBits, q, e);
      ClearKeepsEntry(lens, t, t', tableBits, p, e, q);
    }
  }

  lemma ClearKeepsEntry(lens: seq<nat>, t: seq<nat>, t': seq<nat>, tableBits: nat, p: nat, e: nat, q: nat)
    requires 1 <= tableBits <= 15 && e < Pow2(tableBits) <= |t| == |t'|
    requires q == Shl(p, 16 - tableBits) && DirectEntryOk(lens, t, tableBits, q, e)
    requires Rev(tableBits, e) < p ==> t'[e] == t[e]
    ensures DirectEntryOk(lens, t', tableBits, q, e)
  {
    if Rev(tableBits, e) >= p {
      ShlMonotone(p, Rev(tableBits, e), 16 - tableBits);
    }
  }

  lemma StartPlacing(lens: seq<nat>, t: seq<nat>, tableBits: nat, p: nat)
    requires 1 <= tableBits <= 15 && Pow2(tableBits) <= |t| && 0 < |lens| <= First(tableBits) && p <= Pow2(tableBits)
    requires Shl(p, 16 - tableBits) == Kraft(lens, tableBits)
    requires DirectOk(lens, t, tableBits, Shl(p, 16 - tableBits))
    requires forall e :: 0 <= e < Pow2(tableBits) && p <= Rev(tableBits, e) ==> t[e] == 0
    ensures Placing(lens, t, tableBits, [], First(tableBits), Shl(p, 16 - tableBits), tableBits + 1, 0)
  {
    var none: seq<Cell> := [];
    StartForest(lens, t, tableBits, p);
    SoundIsBounded(lens, t, tableBits, none, Shl(p, 16 - tableBits), 0);
    KraftIsPosition(lens, tableBits);
    PositionNextLength(lens, tableBits);
    FullAtTop(p, tableBits);
  }

  lemma NextLength(lens: seq<nat>, t: seq<nat>, tableBits: nat, path: seq<Cell>, next: nat, q: nat, len: nat)
    requires Placing(lens, t, tableBits, path, next, q, len, |lens|) && len < 16
    ensures Placing(lens, t, tableBits, path, next, q, len + 1, 0)
  {
    PositionNextLength(lens, len);
  }

  /** A code that ends within range started strictly below the top. */
  lemma BeforeFull(lens: seq<nat>, s: nat)
    requires HasLength(lens, s)
    ensures CodeCell(lens, s).Lo() < CodeCell(lens, s).Hi()
  {
  }

  lemma NotThisLength(lens: seq<nat>, t: seq<nat>, tableBits: nat, path: seq<Cell>, next: nat, q: nat, len: nat, k: nat)
    requires Placing(lens, t, tableBits, path, next, q, len, k) && k < |lens| && lens[k] != len
    ensures Placing(lens, t, tableBits, path, next, q, len, k + 1)
  {
    PositionStep(lens, len, k);
  }

  /** Pass 2 has placed everything before symbol `k` of length `len`. */
  ghost predicate Placing(lens: seq<nat>, t: seq<nat>, tableBits: nat, path: seq<Cell>, next: nat, q: nat,
      len: nat, k: nat) {
    && 1 <= tableBits < len <= 16 && k <= |lens|
    && q == Position(lens, len, k) <= FULL
    && next == First(tableBits) + |path|
    && next == First(tableBits) + NodesUsed(lens, tableBits, len, k)
    && Bounded(t, tableBits, |lens|, next)
    && Sound(lens, t, tableBits, path, q, 0)
  }

  /** There is room for all overflow nodes that pass 2 asks for. */
  ghost predicate HasRoom(lens: seq<nat>, tableBits: nat, size: nat)
    requires 1 <= tableBits <= 16
  {
    2 * (First(tableBits) + NodesUsed(lens, tableBits, 16, |lens|)) <= size
  }

  /** Running out of room at one symbol means the array is too small for the code. */
  lemma NoRoom(lens: seq<nat>, tableBits: nat, s: nat, size: nat)
    requires 1 <= tableBits <= 15 && HasLength(lens, s) && lens[s] > tableBits
    requires 2 * (First(tableBits) + NodesUsed(lens, tableBits, lens[s], s + 1)) > size
    ensures !HasRoom(lens, tableBits, size)
  {
    hide NodesUsed;
    NodesMonotone(lens, tableBits, lens[s], s + 1, 16, |lens|);
  }

  /** A code that runs over the top was the last to ask for nodes. */
  lemma RoomAtEnd(lens: seq<nat>, tableBits: nat, s: nat, next: nat, size: nat)
    requires 1 <= tableBits <= 15 && HasLength(lens, s) && CodeCell(lens, s).Hi() > FULL
    requires next == First(tableBits) + NodesUsed(lens, tableBits, lens[s], s + 1) && 2 * next <= size
    ensures HasRoom(lens, tableBits, size)
  {
    hide NodesUsed;
    PositionStep(lens, lens[s], s);
    NodesSettled(lens, tableBits, lens[s], s + 1, 16, |lens|);
  }

  lemma AdvanceLong(lens: seq<nat>, tableBits: nat, q: nat, s: nat)
    requires 1 <= tableBits <= 15 && HasLength(lens, s) && CodeCell(lens, s).Lo() == q
    ensures Shl(CodeCell(lens, s).Hi(), tableBits) == Shl(q, tableBits) + Shl(Pow2(16 - lens[s]), tableBits)
    ensures (Shl(CodeCell(lens, s).Hi(), tableBits) > Shl(Pow2(tableBits), 16)) == (CodeCell(lens, s).Hi() > FULL)
    ensures CodeCell(lens, s).Hi() > FULL ==> Kraft(lens, 16) > FULL
  {
    var q' := CodeCell(lens, s).Hi();
    ShlAdd(q, Pow2(16 - lens[s]), tableBits);
    ShlPow2(tableBits, 16);
    ShlPow2(16, tableBits);
    FullIsPow2();
    if q' > FULL {
      ShlGap(FULL, q', tableBits);
      PositionStep(lens, lens[s], s);
      PositionMonotone(lens, lens[s], s + 1, 16, |lens|);
      KraftIsPosition(lens, 16);
    } else {
      ShlMonotone(q', FULL, tableBits);
    }
  }

  lemma {:induction false} NewNodesMonotone(q: nat, tableBits: nat, len: nat, len': nat)
    requires len <= len' <= 16
    ensures NewNodes(q, tableBits, len) <= NewNodes(q, tableBits, len')
    decreases len'
  {
    if len < len' {
      NewNodesMonotone(q, tableBits, len, len' - 1);
    }
  }

  lemma BoundedWithSymbol(t: seq<nat>, tableBits: nat, n: nat, next: nat, e: nat, s: nat)
    requires tableBits >= 1 && Bounded(t, tableBits, n, next) && e < 2 * next && s < n
    ensures Bounded(t[e := s], tableBits, n, next)
  {
  }

  lemma StartWalk(lens: seq<nat>, t: seq<nat>, tableBits: nat, path: seq<Cell>, q: nat, e: nat)
    requires Sound(lens, t, tableBits, path, q, 0) && q < FULL
    requires e == Rev(tableBits, Shr(Shl(q, tableBits), 16))
    ensures Walking(lens, t, tableBits, path, q, tableBits, e)
  {
    ShrShl(q, tableBits, 16 - tableBits);
    CellAtContains(q, tableBits);
    RevRev(tableBits, Shr(q, 16 - tableBits));
    SoundLater(lens, t, tableBits, path, q, 0, tableBits);
    TrailStarts(t, tableBits, path, q);
  }

  lemma StartStray(lens: seq<nat>, t: seq<nat>, tableBits: nat, path: seq<Cell>, position: nat, e: nat, k: nat)
    requires 1 <= tableBits <= 15 && 0 < |lens| <= First(tableBits)
    requires Sound(lens, t, tableBits, path, FULL, 0) && position == Shl(FULL, tableBits)
    requires e == Rev(tableBits, Shr(position, 16))
    ensures e == 0 && Ahead(t, e, k) == Stray(lens, tableBits, 0, k)
  {
    hide Sound, Stray, Ahead, Rev;
    FullIsPow2();
    ShlPow2(tableBits, 16 - tableBits);
    ShrShl(FULL, tableBits, 16 - tableBits);
    ShrShl(Pow2(tableBits), 16 - tableBits, 0);
    RevOfTop(tableBits);
    AheadIsStray(lens, t, tableBits, 0, k);
  }

  lemma RevOfTop(n: nat)
    ensures Rev(n, Pow2(n)) == 0
  {
    hide Msb, BitsOf;
    BitsOfTop(n);
    RevZero(n);
  }

  lemma BitsOfTop(n: nat)
    ensures BitsOf(Pow2(n), n) == BitsOf(0, n)
  {
    hide Pow2, Shl;
    var one := Shl(1, n);
    OneShifted(n);
    BitsOfSplit(0, 1, n, 0);
    assert BitsOf(1, 0) == [];
  }

  lemma OneShifted(n: nat)
    ensures Shl(1, n) == Pow2(n)
  {
    ShlPow2(0, n);
  }

  /** At the top all further bits are clear. */
  lemma TopIsClear(i: nat)
    requires i <= 15
    ensures Shr(FULL, 15 - i) % 2 == 0
  {
    FullIsPow2();
    ShlPow2(i + 1, 15 - i);
    ShrShl(Pow2(i + 1), 15 - i, 0);
  }

  lemma StrayStep(t: seq<nat>, t': seq<nat>, e: nat, next: nat, left: nat, i: nat, e': nat)
    requires e < 2 * next && 2 * next <= |t| && left > 0 && i <= 15
    requires t[e] == 0 ==> 2 * next + 2 <= |t| && t' == WithNode(t, next, e)
    requires t[e] != 0 ==> t' == t
    requires e' == 2 * t'[e] + Shr(FULL, 15 - i) % 2
    ensures Ahead(t, e, left) == (if t[e] == 0 then 1 else 0) + Ahead(t', e', left - 1)
  {
    hide Shr;
    TopIsClear(i);
  }

  lemma NothingAhead(t: seq<nat>, e: nat)
    ensures Ahead(t, e, 0) == 0
  {
  }

  lemma EmptyAhead(t: seq<nat>, e: nat, left: nat)
    requires left > 0 && e < |t| && t[e] == 0
    ensures Ahead(t, e, left) > 0
  {
  }

  lemma NextBit(q: nat, tableBits: nat, fill: nat)
    requires tableBits + fill <= 15
    ensures Shr(Shl(q, tableBits), 15 - fill) == Shr(q, 15 - (tableBits + fill))
  {
    ShrShl(q, tableBits, 15 - (tableBits + fill));
  }

  lemma Stepped(lens: seq<nat>, t: seq<nat>, t': seq<nat>, tableBits: nat, path: seq<Cell>, path': seq<Cell>,
                q: nat, i: nat, e: nat, e': nat)
    requires Walking(lens, t, tableBits, path, q, i, e) && i <= 15 && q < FULL
    requires t[e] == 0 ==>
               EntryCount(tableBits, path) + 2 <= |t| && t' == WithNode(t, First(tableBits) + |path|, e)
    requires t[e] != 0 ==> t' == t
    requires path' == if t[e] == 0 then path + [CellAt(q, i)] else path
    requires e < |t'| && e' == 2 * t'[e] + Shr(q, 15 - i) % 2
    ensures Walking(lens, t', tableBits, path', q, i + 1, e')
  {
    if t[e] == 0 {
      Grow(lens, t, tableBits, path, q, i, e);
    } else {
      SoundLater(lens, t, tableBits, path, q, i, i + 1);
    }
    WalkOn(lens, t', tableBits, path', q, i, e, e');
  }

  lemma WalkOn(lens: seq<nat>, t: seq<nat>, tableBits: nat, path: seq<Cell>, q: nat, i: nat, e: nat, e': nat)
    requires Sound(lens, t, tableBits, path, q, i + 1) && Trail(t, tableBits, path, q, i)
    requires tableBits <= i <= 15 && q < FULL
    requires e < EntryCount(tableBits, path) && CellOf(tableBits, path, e) == CellAt(q, i)
    requires t[e] != 0 && e' == 2 * t[e] + Shr(q, 15 - i) % 2
    ensures Walking(lens, t, tableBits, path, q, i + 1, e')
  {
    hide OnTrail, Sound, Trail, CellOf, CellAt;
    Descend(lens, t, tableBits, path, q, i, e);
  }

  /** The walk for the code at `q` has reached entry `e` at depth `i`. */
  ghost predicate Walking(lens: seq<nat>, t: seq<nat>, tableBits: nat, path: seq<Cell>, q: nat, i: nat, e: nat) {
    && tableBits <= i <= 16
    && Sound(lens, t, tableBits, path, q, i) && Trail(t, tableBits, path, q, i)
    && e < EntryCount(tableBits, path) && CellOf(tableBits, path, e) == CellAt(q, i)
  }

  lemma NothingPlaced(lens: seq<nat>, t: seq<nat>, tableBits: nat)
    requires 1 <= tableBits <= 15 && Pow2(tableBits) <= |t|
    ensures Shl(0, 16 - tableBits) == Position(lens, 1, 0)
    ensures DirectOk(lens, t, tableBits, Shl(0, 16 - tableBits))
  {
    ShlZero(16 - tableBits);
    ShlZero(15);
  }

  /** The position of pass 1 counts in units of the last table bit. */
  lemma ShortPosition(lens: seq<nat>, tableBits: nat, position: nat, s: nat)
    requires 1 <= tableBits <= 15 && HasLength(lens, s) && lens[s] <= tableBits
    requires Shl(position, 16 - tableBits) == CodeCell(lens, s).Lo()
    ensures position == Shl(Number(lens, lens[s], s), tableBits - lens[s])
  {
    var n := Number(lens, lens[s], s);
    ShlShl(n, tableBits - lens[s], 16 - tableBits);
    ShlUnique(position, 0, Shl(n, tableBits - lens[s]), 0, 16 - tableBits);
  }

  lemma ReversedCode(n: nat, len: nat, d: nat)
    ensures Rev(d + len, Shl(n, d)) == Rev(len, n)
  {
    RevSplit(0, n, d, len);
    RevZero(d);
    ShlZero(len);
  }

  lemma AdvanceShort(lens: seq<nat>, tableBits: nat, position: nat, s: nat, position': nat)
    requires 1 <= tableBits <= 15 && HasLength(lens, s) && lens[s] <= tableBits
    requires Shl(position, 16 - tableBits) == CodeCell(lens, s).Lo() && position' == position + Pow2(tableBits - lens[s])
    ensures Shl(position', 16 - tableBits) == CodeCell(lens, s).Hi()
  {
    ShlAdd(position, Pow2(tableBits - lens[s]), 16 - tableBits);
    ShlPow2(tableBits - lens[s], 16 - tableBits);
  }

  lemma ShortCode(lens: seq<nat>, tableBits: nat, position: nat, s: nat, position': nat)
    requires 1 <= tableBits <= 15 && HasLength(lens, s) && lens[s] <= tableBits
    requires Shl(position, 16 - tableBits) == CodeCell(lens, s).Lo() && position < position' <= Pow2(tableBits)
    ensures Coded(lens, s)
    ensures Rev(tableBits, position) == Rev(lens[s], Number(lens, lens[s], s))
    ensures Shl(Pow2(tableBits - lens[s]), lens[s]) == Pow2(tableBits)
  {
    var len, d, n := lens[s], tableBits - lens[s], Number(lens, lens[s], s);
    ShortPosition(lens, tableBits, position, s);
    ReversedCode(n, len, d);
    ShlPow2(d, len);
    ShlPow2(len, d);
    if n >= Pow2(len) {
      ShlMonotone(Pow2(len), n, d);
    }
  }

  lemma OverFull(lens: seq<nat>, tableBits: nat, position: nat, s: nat)
    requires 1 <= tableBits <= 15 && HasLength(lens, s) && lens[s] <= tableBits
    requires position > Pow2(tableBits) && Shl(position, 16 - tableBits) == CodeCell(lens, s).Hi()
    ensures Kraft(lens, tableBits) > FULL
  {
    ShlGap(Pow2(tableBits), position, 16 - tableBits);
    ShlPow2(tableBits, 16 - tableBits);
    FullIsPow2();
    PositionStep(lens, lens[s], s);
    PositionMonotone(lens, lens[s], s + 1, tableBits, |lens|);
    KraftIsPosition(lens, tableBits);
  }

  lemma FullAtTop(position: nat, tableBits: nat)
    requires tableBits <= 16 && position <= Pow2(tableBits)
    ensures Shl(position, 16 - tableBits) <= FULL
  {
    ShlMonotone(position, Pow2(tableBits), 16 - tableBits);
    ShlPow2(tableBits, 16 - tableBits);
    FullIsPow2();
  }
}