/** Decoding with the array (the lookups of src/huffman_decoder.cc) finds the symbol whose
    canonical code starts the input. */
module HuffmanWalk {
  import opened Bits
  import opened Errors
  import opened CanonicalCode
  import opened HuffmanTrie

  /** Follow overflow nodes, one input bit each, until an entry holds a symbol. */
  function WalkNodes(t: seq<nat>, n: nat, e: nat, bits: seq<bool>): Option<(nat, seq<bool>)>
    decreases |bits|
  {
    if e >= |t| then None
    else if t[e] < n then Some((t[e], bits))
    else if |bits| == 0 then None
    else WalkNodes(t, n, 2 * t[e] + Bit(bits[0]), bits[1..])
  }

  /** One symbol: look up `tableBits` bits; a symbol found at once gives back the bits it does not use,
      otherwise the walk continues below the table. */
  function Lookup(t: seq<nat>, tableBits: nat, lens: seq<nat>, bits: seq<bool>): Option<(nat, seq<bool>)> {
    if |bits| < tableBits || Val(bits[..tableBits]) >= |t| then None
    else
      var s := t[Val(bits[..tableBits])];
      if s >= |lens| then WalkNodes(t, |lens|, Val(bits[..tableBits]), bits[tableBits..])
      else if lens[s] > |bits| then None
      else Some((s, bits[lens[s]..]))
  }

  /** The array decodes the code with lengths `lens`. */
  ghost predicate Decodes(lens: seq<nat>, t: seq<nat>, tableBits: nat) {
    exists path: seq<Cell> :: Sound(lens, t, tableBits, path, FULL, 0)
  }

  /** Every entry reached from the table is inside it. */
  lemma EntryInBounds(lens: seq<nat>, t: seq<nat>, tableBits: nat, path: seq<Cell>, e: nat)
    requires Sound(lens, t, tableBits, path, FULL, 0) && e < EntryCount(tableBits, path)
    ensures e < |t|
    ensures t[e] < |lens| || 2 * t[e] + 1 < EntryCount(tableBits, path)
  {
    assert EntryOk(lens, t, tableBits, path, FULL, e);
    CellOfOk(tableBits, path, e);
  }

  lemma NodeStep(lens: seq<nat>, t: seq<nat>, tableBits: nat, path: seq<Cell>, e: nat, input: seq<bool>, k: nat)
    returns (e': nat)
    requires Sound(lens, t, tableBits, path, FULL, 0) && e < EntryCount(tableBits, path)
    requires k <= 16 <= |input| && CellOf(tableBits, path, e) == Cell(k, Msb(input[..k]))
    requires t[e] >= First(tableBits)
    ensures tableBits <= k < 16
    ensures e' == 2 * t[e] + Bit(input[k]) && e' < EntryCount(tableBits, path)
    ensures CellOf(tableBits, path, e') == Cell(k + 1, Msb(input[..k + 1]))
  {
    assert EntryOk(lens, t, tableBits, path, FULL, e);
    e' := 2 * t[e] + Bit(input[k]);
    assert input[..k + 1][..k] == input[..k];
  }

  /** An entry that is no node holds the symbol of its cell. */
  lemma LeafIs(lens: seq<nat>, t: seq<nat>, tableBits: nat, path: seq<Cell>, e: nat)
    requires Sound(lens, t, tableBits, path, FULL, 0) && e < EntryCount(tableBits, path)
    ensures e < |t| && CellOf(tableBits, path, e).Valid()
    ensures t[e] >= First(tableBits) ==> t[e] >= |lens|
    ensures t[e] < First(tableBits) ==>
              && LeafOk(lens, tableBits, CellOf(tableBits, path, e), t[e])
              && t[e] < |lens| && Depth(lens, tableBits, t[e]) == CellOf(tableBits, path, e).depth
  {
    assert EntryOk(lens, t, tableBits, path, FULL, e);
    CellOfOk(tableBits, path, e);
  }

  /** How many bits are looked at to find a symbol. */
  function Depth(lens: seq<nat>, tableBits: nat, s: nat): nat
    requires s < |lens|
  {
    if lens[s] <= tableBits then tableBits else lens[s]
  }

  lemma {:induction false} WalkFinds(lens: seq<nat>, t: seq<nat>, tableBits: nat, path: seq<Cell>, e: nat,
      input: seq<bool>, k: nat)
    returns (s: nat)
    requires Sound(lens, t, tableBits, path, FULL, 0) && e < EntryCount(tableBits, path)
    requires k <= 16 <= |input| && CellOf(tableBits, path, e) == Cell(k, Msb(input[..k]))
    ensures StartsWith(lens, s, input)
    ensures k <= Depth(lens, tableBits, s) <= |input|
    ensures WalkNodes(t, |lens|, e, input[k..]) == Some((s, input[Depth(lens, tableBits, s)..]))
    decreases 16 - k
  {
    hide Sound, LeafOk, CellOf, Msb, Depth;
    LeafIs(lens, t, tableBits, path, e);
    var c := Cell(k, Msb(input[..k]));
    if t[e] < First(tableBits) {
      s := t[e];
      LeafSpells(lens, tableBits, c, s, input);
    } else {
      var e' := NodeStep(lens, t, tableBits, path, e, input, k);
      assert input[k..][1..] == input[k + 1..];
      s := WalkFinds(lens, t, tableBits, path, e', input, k + 1);
    }
  }

  lemma LeafSpells(lens: seq<nat>, tableBits: nat, c: Cell, s: nat, input: seq<bool>)
    requires c.Valid() && LeafOk(lens, tableBits, c, s)
    requires c.depth <= |input| && c.index == Msb(input[..c.depth])
    ensures StartsWith(lens, s, input)
  {
    var a, d := CodeCell(lens, s), input[..c.depth];
    BitsOfMsb(d);
    assert c.String() == d;
    DepthsNest(lens, tableBits, c, s);
    WithinIsPrefix(c, a);
    assert a.String() <= d <= input;
  }

  lemma DepthsNest(lens: seq<nat>, tableBits: nat, c: Cell, s: nat)
    requires c.depth <= 16 && LeafOk(lens, tableBits, c, s)
    ensures CodeCell(lens, s).depth <= c.depth
  {
  }

  /** For every input of at least 16 bits the lookup returns the one symbol whose code starts the
      input and consumes exactly its bits. */
  lemma LookupDecodesLong(lens: seq<nat>, t: seq<nat>, tableBits: nat, input: seq<bool>) returns (s: nat)
    requires Decodes(lens, t, tableBits) && |input| >= 16
    ensures StartsWith(lens, s, input)
    ensures Lookup(t, tableBits, lens, input) == Some((s, input[lens[s]..]))
  {
    var path: seq<Cell> :| Sound(lens, t, tableBits, path, FULL, 0);
    var e := Val(input[..tableBits]);
    DirectEntry(tableBits, path, input);
    s := WalkFinds(lens, t, tableBits, path, e, input, tableBits);
    if t[e] >= |lens| {
      NodeMeansLong(lens, t, tableBits, path, input, s);
    } else {
      assert WalkNodes(t, |lens|, e, input[tableBits..]) == Some((t[e], input[tableBits..]));
    }
  }

  lemma DirectEntry(tableBits: nat, path: seq<Cell>, input: seq<bool>)
    requires NodesOk(tableBits, path) && tableBits <= |input|
    ensures Val(input[..tableBits]) < Pow2(tableBits) <= EntryCount(tableBits, path)
    ensures CellOf(tableBits, path, Val(input[..tableBits])) == Cell(tableBits, Msb(input[..tableBits]))
  {
    BitsOfVal(input[..tableBits]);
  }

  /** Entry `e` is inside the part of the array that holds the forest. */
  ghost predicate Reachable(lens: seq<nat>, t: seq<nat>, tableBits: nat, e: nat) {
    exists path: seq<Cell> :: Sound(lens, t, tableBits, path, FULL, 0) && e < EntryCount(tableBits, path)
  }

  /** A symbol found in the direct table has a code of at most `tableBits` bits. */
  lemma DirectIsShort(lens: seq<nat>, t: seq<nat>, tableBits: nat, input: seq<bool>)
    requires Decodes(lens, t, tableBits) && |input| >= tableBits
    ensures Val(input[..tableBits]) < |t|
    ensures t[Val(input[..tableBits])] < |lens| ==> lens[t[Val(input[..tableBits])]] <= tableBits
    ensures Reachable(lens, t, tableBits, Val(input[..tableBits]))
  {
    var path: seq<Cell> :| Sound(lens, t, tableBits, path, FULL, 0);
    var e := Val(input[..tableBits]);
    DirectEntry(tableBits, path, input);
    assert EntryOk(lens, t, tableBits, path, FULL, e);
    CellOfOk(tableBits, path, e);
  }

  lemma NodeMeansLong(lens: seq<nat>, t: seq<nat>, tableBits: nat, path: seq<Cell>, input: seq<bool>, s: nat)
    requires Sound(lens, t, tableBits, path, FULL, 0) && |input| >= 16
    requires Val(input[..tableBits]) < |t| && t[Val(input[..tableBits])] >= |lens| && StartsWith(lens, s, input)
    ensures lens[s] > tableBits
  {
    var e := Val(input[..tableBits]);
    DirectEntry(tableBits, path, input);
    assert EntryOk(lens, t, tableBits, path, FULL, e);
    CellOfOk(tableBits, path, e);
    var e' := NodeStep(lens, t, tableBits, path, e, input, tableBits);
    var s' := WalkFinds(lens, t, tableBits, path, e', input, tableBits + 1);
    CodeUnique(lens, s, s', input);
  }

  /** When no code is longer than the table is wide, one lookup finds a symbol. */
  lemma ShortCodesAreDirect(lens: seq<nat>, t: seq<nat>, tableBits: nat, input: seq<bool>)
    requires Decodes(lens, t, tableBits) && tableBits <= |input|
    requires forall i :: 0 <= i < |lens| ==> lens[i] <= tableBits
    ensures Val(input[..tableBits]) < |t| && t[Val(input[..tableBits])] < |lens|
    ensures StartsWith(lens, t[Val(input[..tableBits])], input)
  {
    var e, more := Val(input[..tableBits]), Clear(16);
    assert (input + more)[..tableBits] == input[..tableBits];
    var s := LookupDecodesLong(lens, t, tableBits, input + more);
    if t[e] >= |lens| {
      var path: seq<Cell> :| Sound(lens, t, tableBits, path, FULL, 0);
      NodeMeansLong(lens, t, tableBits, path, input + more, s);
    }
    assert Code(lens, s) == (input + more)[..lens[s]] == input[..lens[s]];
  }

  /** The walk only looks at the bits it consumes. */
  lemma {:induction false} WalkLocal(t: seq<nat>, n: nat, e: nat, bits: seq<bool>, more: seq<bool>)
    requires WalkNodes(t, n, e, bits + more).Some?
    ensures var (s, rest) := WalkNodes(t, n, e, bits + more).value;
            && |rest| <= |bits| + |more|
            && WalkNodes(t, n, e, bits) ==
                 (if |rest| >= |more| then Some((s, bits[|bits| + |more| - |rest|..])) else None)
    decreases |bits| + |more|
  {
    var all := bits + more;
    if t[e] >= n {
      var e' := 2 * t[e] + Bit(all[0]);
      if |bits| > 0 {
        assert all[1..] == bits[1..] + more;
        WalkLocal(t, n, e', bits[1..], more);
      } else {
        assert all[1..] == [] + more[1..];
        WalkLocal(t, n, e', [], more[1..]);
      }
    }
  }

  lemma LookupLocal(t: seq<nat>, tableBits: nat, lens: seq<nat>, input: seq<bool>, more: seq<bool>)
    requires |input| >= tableBits && Lookup(t, tableBits, lens, input + more).Some?
    ensures var (s, rest) := Lookup(t, tableBits, lens, input + more).value;
            && |rest| <= |input| + |more|
            && Lookup(t, tableBits, lens, input) ==
                 (if |rest| >= |more| then Some((s, input[|input| + |more| - |rest|..])) else None)
  {
    assert (input + more)[..tableBits] == input[..tableBits];
    assert (input + more)[tableBits..] == input[tableBits..] + more;
    var s := t[Val(input[..tableBits])];
    if s >= |lens| {
      WalkLocal(t, |lens|, Val(input[..tableBits]), input[tableBits..], more);
    }
  }

  /** The decode array means exactly the prefix code: for every input of at least `tableBits` bits the
      lookup agrees with `Decode`, both in what it returns and in when it runs out of input. */
  lemma LookupIsDecode(lens: seq<nat>, t: seq<nat>, tableBits: nat, input: seq<bool>)
    requires Decodes(lens, t, tableBits) && |input| >= tableBits
    ensures Lookup(t, tableBits, lens, input) == Decode(lens, input)
  {
    var more := seq(16, _ => false);
    var s := LookupDecodesLong(lens, t, tableBits, input + more);
    LookupLocal(t, tableBits, lens, input, more);
    if lens[s] <= |input| {
      assert Code(lens, s) <= input;
      DecodeIs(lens, s, input);
    } else if Decode(lens, input).Some? {
      var s' := Decode(lens, input).value.0;
      assert StartsWith(lens, s', input + more);
      CodeUnique(lens, s, s', input + more);
    }
  }

  /** A complete code assigns a symbol to every string of 16 bits, and finding it takes at most 16
      bits, that is, at most 16 - `tableBits` steps below the table. */
  lemma DecodesEverything(lens: seq<nat>, t: seq<nat>, tableBits: nat, input: seq<bool>)
    requires Decodes(lens, t, tableBits) && |input| >= 16
    ensures Decode(lens, input).Some?
    ensures Lookup(t, tableBits, lens, input) == Decode(lens, input)
    ensures |input| - |Lookup(t, tableBits, lens, input).value.1| <= 16
  {
    var s := LookupDecodesLong(lens, t, tableBits, input);
    DecodeIs(lens, s, input);
  }
}
