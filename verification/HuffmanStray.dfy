/** The one walk that follows no code.

    When the codes already take up all strings and yet another long length follows, pass 2 walks
    once more before it notices. The position has then run over, its bits are all clear, and the
    walk leaves the forest: it takes the symbol at a leaf for a node number. How many nodes it adds
    still depends on the code alone. */
module HuffmanStray {
  import opened Bits
  import opened Errors
  import opened CanonicalCode
  import opened HuffmanTrie
  import opened HuffmanWalk

  /** The bits of a code that the table does not take. */
  function Beyond(lens: seq<nat>, tableBits: nat, symbol: nat): nat
    requires symbol < |lens|
  {
    if lens[symbol] > tableBits then lens[symbol] - tableBits else 0
  }

  /** The nodes added by `k` steps from table entry `e` on, with only clear bits ahead: none down to
      the leaf there; from a leaf that holds symbol 0, which looks empty, one at each step; from any
      other leaf the walk goes on at the table entry twice the symbol. */
  ghost function Stray(lens: seq<nat>, tableBits: nat, e: nat, k: nat): (n: nat)
    ensures n <= k
    decreases k
  {
    match Decode(lens, BitsOf(e, tableBits) + Clear(16))
    case None => 0
    case Some((symbol, _)) =>
      var down := Beyond(lens, tableBits, symbol);
      if k <= down then 0
      else if symbol == 0 then k - down
      else Stray(lens, tableBits, 2 * symbol, k - down - 1)
  }

  /** The same in terms of the array: every step from the first empty entry on adds a node. */
  ghost function Ahead(t: seq<nat>, e: nat, k: nat): nat
    decreases k
  {
    if k == 0 || e >= |t| then 0
    else if t[e] == 0 then k
    else Ahead(t, 2 * t[e], k - 1)
  }

  /** Down to a leaf nothing is added. */
  lemma {:induction false} AheadOfWalk(t: seq<nat>, n: nat, e: nat, m: nat, k: nat)
    requires n > 0 && WalkNodes(t, n, e, Clear(m)).Some?
    ensures var (symbol, rest) := WalkNodes(t, n, e, Clear(m)).value;
            var down := m - |rest|;
            && down >= 0 && (t[e] >= n ==> down > 0)
            && Ahead(t, e, k) ==
                 if k <= down then 0 else if symbol == 0 then k - down else Ahead(t, 2 * symbol, k - down - 1)
    decreases m
  {
    if t[e] >= n {
      assert Clear(m)[1..] == Clear(m - 1);
      AheadOfWalk(t, n, 2 * t[e], m - 1, if k > 0 then k - 1 else 0);
    }
  }

  /** The leaf below table entry `e`, found by the code and by the array. */
  lemma AheadOfEntry(lens: seq<nat>, t: seq<nat>, tableBits: nat, e: nat, k: nat)
    requires Decodes(lens, t, tableBits) && e < Pow2(tableBits) && 0 < |lens|
    ensures var found := Decode(lens, BitsOf(e, tableBits) + Clear(16));
            && found.Some?
            && var symbol, down := found.value.0, Beyond(lens, tableBits, found.value.0);
               Ahead(t, e, k) ==
                 if k <= down then 0 else if symbol == 0 then k - down else Ahead(t, 2 * symbol, k - down - 1)
  {
    hide Decodes, WalkNodes, Ahead, Decode, BitsOf;
    var input := BitsOf(e, tableBits) + Clear(16);
    assert input[..tableBits] == BitsOf(e, tableBits) && input[tableBits..] == Clear(16);
    ValOfBits(e, tableBits);
    LookupIsDecode(lens, t, tableBits, input);
    DirectIsShort(lens, t, tableBits, input);
    DecodesEverything(lens, t, tableBits, input);
    if t[e] >= |lens| {
      AheadOfWalk(t, |lens|, e, 16, k);
    } else {
      AheadOfLeaf(t, e, k);
    }
  }

  lemma AheadOfLeaf(t: seq<nat>, e: nat, k: nat)
    requires e < |t|
    ensures Ahead(t, e, k) ==
              if k == 0 then 0 else if t[e] == 0 then k else Ahead(t, 2 * t[e], k - 1)
  {
  }

  /** What the array makes of the stray walk is what the code says. */
  lemma {:induction false} AheadIsStray(lens: seq<nat>, t: seq<nat>, tableBits: nat, e: nat, k: nat)
    requires Decodes(lens, t, tableBits) && e < Pow2(tableBits) && tableBits >= 1
    requires 0 < |lens| <= First(tableBits)
    ensures Ahead(t, e, k) == Stray(lens, tableBits, e, k)
    decreases k
  {
    hide Decodes, Ahead, BitsOf, Decode;
    AheadOfEntry(lens, t, tableBits, e, k);
    var symbol := Decode(lens, BitsOf(e, tableBits) + Clear(16)).value.0;
    var down := Beyond(lens, tableBits, symbol);
    if k > down && symbol != 0 {
      TwiceSymbol(lens, tableBits, symbol);
      AheadIsStray(lens, t, tableBits, 2 * symbol, k - down - 1);
    }
  }

  lemma TwiceSymbol(lens: seq<nat>, tableBits: nat, symbol: nat)
    requires tableBits >= 1 && symbol < |lens| <= First(tableBits)
    ensures 2 * symbol < Pow2(tableBits)
  {
  }
}
