/** A reference encoder for the literal code lengths, and the proof that the decoder undoes it. */
module LengthRoundTrip {
  import opened Bits
  import opened Errors
  import opened MmapBuffer
  import opened CanonicalCode
  import opened DecoderSpec
  import opened TokenRoundTrip

  /** What an encoder may emit: a run of zeros in the short or the long form, a run of one
      length, or one length; lengths are sent as differences modulo 17. */
  datatype Op = ShortZeros(n: nat) | LongZeros(n: nat) | Run(n: nat, delta: nat) | One(delta: nat)

  function Size(op: Op): (n: nat) {
    match op
    case ShortZeros(n) => n
    case LongZeros(n) => n
    case Run(n, _) => n
    case One(_) => 1
  }

  predicate OpOk(op: Op, fix: nat)
    requires fix <= 1
  {
    match op
    case ShortZeros(n) => 3 + fix <= n < 3 + fix + 16
    case LongZeros(n) => 19 + fix <= n < 19 + fix + Pow2(6 - fix)
    case Run(n, delta) => 3 + fix <= n < 3 + fix + 2 && delta <= 16
    case One(delta) => delta <= 16
  }

  function PreSymbol(op: Op): nat {
    match op
    case ShortZeros(_) => 17
    case LongZeros(_) => 18
    case Run(_, _) => 19
    case One(delta) => delta
  }

  /** The codes the operation uses exist. */
  ghost predicate OpCoded(pre: seq<nat>, op: Op) {
    Coded(pre, PreSymbol(op)) && (op.Run? ==> Coded(pre, op.delta))
  }

  ghost function EncodeOp(pre: seq<nat>, op: Op, fix: nat): seq<bool>
    requires fix <= 1 && OpOk(op, fix) && OpCoded(pre, op)
  {
    Code(pre, PreSymbol(op)) +
    match op
    case ShortZeros(n) => BitsOf(n - (3 + fix), 4)
    case LongZeros(n) => BitsOf(n - (19 + fix), 6 - fix)
    case Run(n, delta) => BitsOf(n - 3 - fix, 1) + Code(pre, delta)
    case One(_) => []
  }

  /** The lengths after the operation at `pos`. */
  function ApplyOp(lens: seq<nat>, pos: nat, op: Op): (lens': seq<nat>)
    requires pos + Size(op) <= |lens| && pos < |lens| && lens[pos] <= 16
    requires (op.Run? || op.One?) ==> op.delta <= 16
    ensures |lens'| == |lens|
  {
    match op
    case ShortZeros(n) => FillRange(lens, pos, n, 0)
    case LongZeros(n) => FillRange(lens, pos, n, 0)
    case Run(n, delta) => FillRange(lens, pos, n, BaseValue(lens[pos] + 17 - delta))
    case One(delta) => lens[pos := BaseValue(lens[pos] + 17 - delta)]
  }

  lemma ZeroRunBack(p: Progress, n: nat, base: nat, w: nat, max: nat, rest: seq<bool>)
    requires ProgressOk(p) && p.pos + n <= max <= 768 && p.pos < max
    requires 0 < base <= n < base + Pow2(w) && w <= 16
    requires p.stream.bits == BitsOf(n - base, w) + rest
    ensures var r := ZeroRun(p, max, base, w);
            && r.Success? && r.value.pos == p.pos + n && r.value.stream.bits == rest
            && r.value.lengths == FillRange(p.lengths, p.pos, n, 0)
  {
    hide BitsOf, FillRange, Read;
    ReadNumber(n - base, w, rest, p.stream);
  }

  lemma RepeatRunBack(pre: seq<nat>, p: Progress, n: nat, delta: nat, max: nat, fix: nat, rest: seq<bool>)
    requires |pre| == 20 && ProgressOk(p) && p.pos + n <= max <= 768 && p.pos < max && fix <= 1
    requires 3 + fix <= n < 5 + fix && delta <= 16 && Coded(pre, delta) && |rest| >= 16
    requires p.stream.bits == BitsOf(n - 3 - fix, 1) + (Code(pre, delta) + rest)
    ensures var r := RepeatRun(pre, p, max, fix);
            && r.Success? && r.value.pos == p.pos + n && r.value.stream.bits == rest
            && r.value.lengths == FillRange(p.lengths, p.pos, n, BaseValue(p.lengths[p.pos] + 17 - delta))
  {
    hide NextSymbol, Read, Code, CodeCell, BitsOf, FillRange;
    SmallPowers();
    ReadNumber(n - 3 - fix, 1, Code(pre, delta) + rest, p.stream);
    ReadCode(pre, 6, delta, rest, Read(p.stream, 1).value.1);
  }

  /** Parsing undoes the encoding of one operation. */
  lemma ParseOneBack(pre: seq<nat>, p: Progress, op: Op, max: nat, fix: nat, rest: seq<bool>)
    requires |pre| == 20 && ProgressOk(p) && p.pos + Size(op) <= max <= 768 && p.pos < max && fix <= 1
    requires OpOk(op, fix) && OpCoded(pre, op) && |rest| >= 16
    requires p.stream.bits == EncodeOp(pre, op, fix) + rest
    ensures var r := ParseOne(pre, p, max, fix);
            && r.Success? && r.value.pos == p.pos + Size(op) && r.value.stream.bits == rest
            && r.value.lengths == ApplyOp(p.lengths, p.pos, op)
  {
    hide NextSymbol, Read, Code, CodeCell, BitsOf, ZeroRun, RepeatRun, FillRange, Pow2;
    var code := Code(pre, PreSymbol(op));
    var tail := p.stream.bits[|code|..];
    assert p.stream.bits == code + tail;
    assert |tail| >= 16;
    ReadCode(pre, 6, PreSymbol(op), tail, p.stream);
    var p1 := p.(stream := NextSymbol(pre, 6, p.stream).value.1);
    SmallPowers();
    match op
    case ShortZeros(n) =>
      assert tail == BitsOf(n - (3 + fix), 4) + rest;
      ZeroRunBack(p1, n, 3 + fix, 4, max, rest);
    case LongZeros(n) =>
      assert tail == BitsOf(n - (19 + fix), 6 - fix) + rest;
      ZeroRunBack(p1, n, 19 + fix, 6 - fix, max, rest);
    case Run(n, delta) =>
      assert tail == BitsOf(n - 3 - fix, 1) + (Code(pre, delta) + rest);
      RepeatRunBack(pre, p1, n, delta, max, fix, rest);
    case One(delta) =>
      assert tail == rest;
  }

  // ---------------------------------------------------------------- operation sequences

  /** The operations fill exactly `pos..max`. */
  ghost predicate OpsOk(pre: seq<nat>, ops: seq<Op>, pos: nat, max: nat, fix: nat)
    requires fix <= 1
    decreases |ops|
  {
    if |ops| == 0 then pos == max
    else
      && OpOk(ops[0], fix) && OpCoded(pre, ops[0])
      && pos + Size(ops[0]) <= max
      && OpsOk(pre, ops[1..], pos + Size(ops[0]), max, fix)
  }

  ghost function EncodeOps(pre: seq<nat>, ops: seq<Op>, pos: nat, max: nat, fix: nat): seq<bool>
    requires fix <= 1 && OpsOk(pre, ops, pos, max, fix)
    decreases |ops|
  {
    if |ops| == 0 then []
    else EncodeOp(pre, ops[0], fix) + EncodeOps(pre, ops[1..], pos + Size(ops[0]), max, fix)
  }

  /** The lengths after all operations. */
  ghost function ApplyOps(pre: seq<nat>, lens: seq<nat>, ops: seq<Op>, pos: nat, max: nat, fix: nat): (lens': seq<nat>)
    requires fix <= 1 && OpsOk(pre, ops, pos, max, fix) && LengthsOk(lens) && max <= 768
    ensures LengthsOk(lens')
    decreases |ops|
  {
    if |ops| == 0 then lens
    else ApplyOps(pre, ApplyOp(lens, pos, ops[0]), ops[1..], pos + Size(ops[0]), max, fix)
  }

  lemma {:induction false} ParseUntilBack(pre: seq<nat>, p: Progress, ops: seq<Op>, max: nat, fix: nat, rest: seq<bool>)
    requires |pre| == 20 && ProgressOk(p) && p.pos <= max <= 768 && fix <= 1
    requires OpsOk(pre, ops, p.pos, max, fix) && |rest| >= 16
    requires p.stream.bits == EncodeOps(pre, ops, p.pos, max, fix) + rest
    ensures var r := ParseUntil(pre, p, max, fix);
            && r.Success? && r.value.stream.bits == rest
            && r.value.lengths == ApplyOps(pre, p.lengths, ops, p.pos, max, fix)
    decreases |ops|
  {
    hide ParseOne, EncodeOp, OpCoded, ApplyOp;
    if |ops| == 0 {
      assert p.stream.bits == rest;
    } else {
      var op := ops[0];
      var more := EncodeOps(pre, ops[1..], p.pos + Size(op), max, fix);
      assert p.stream.bits == EncodeOp(pre, op, fix) + (more + rest);
      ParseOneBack(pre, p, op, max, fix, more + rest);
      ParseUntilBack(pre, ParseOne(pre, p, max, fix).value, ops[1..], max, fix, rest);
    }
  }

  // ---------------------------------------------------------------- a run-length encoder

  /** How many entries from `pos` on, but before `max`, equal `v`. */
  function RunLength(lens: seq<nat>, pos: nat, max: nat, v: nat): (n: nat)
    requires pos <= max <= |lens|
    ensures pos + n <= max
    ensures forall i :: pos <= i < pos + n ==> lens[i] == v
    decreases max - pos
  {
    if pos == max || lens[pos] != v then 0 else 1 + RunLength(lens, pos + 1, max, v)
  }

  /** The difference that turns length `a` into length `b`. */
  function Delta(a: nat, b: nat): (d: nat)
    requires a <= 16 && b <= 16
    ensures d <= 16 && BaseValue(a + 17 - d) == b
  {
    if b <= a then a - b else a + 17 - b
  }

  /** The next operation for turning `from` into `to` at `pos`: the longest run available. */
  function Choose(from: seq<nat>, to: seq<nat>, pos: nat, max: nat, fix: nat): (op: Op)
    requires LengthsOk(from) && LengthsOk(to) && pos < max <= 768 && fix <= 1
    ensures OpOk(op, fix) && 1 <= Size(op) && pos + Size(op) <= max
    ensures forall i :: 0 <= i < 768 ==>
              ApplyOp(from, pos, op)[i] == if pos <= i < pos + Size(op) then to[i] else from[i]
  {
    SmallPowers();
    var zeros := RunLength(to, pos, max, 0);
    var same := RunLength(to, pos, max, to[pos]);
    if zeros >= 19 + fix then LongZeros(Min(zeros, 18 + fix + Pow2(6 - fix)))
    else if zeros >= 3 + fix then ShortZeros(Min(zeros, 18 + fix))
    else if same >= 3 + fix then Run(Min(same, 4 + fix), Delta(from[pos], to[pos]))
    else One(Delta(from[pos], to[pos]))
  }

  function ChooseAll(from: seq<nat>, to: seq<nat>, pos: nat, max: nat, fix: nat): seq<Op>
    requires LengthsOk(from) && LengthsOk(to) && pos <= max <= 768 && fix <= 1
    decreases max - pos
  {
    if pos == max then []
    else
      var op := Choose(from, to, pos, max, fix);
      [op] + ChooseAll(from, to, pos + Size(op), max, fix)
  }

  /** Whatever the old and the new lengths, the chosen operations produce the new lengths in the
      range and leave the rest alone. The pre-tree must have codes for the symbols they use, and
      need not have any others. */
  lemma {:induction false} ChosenOpsRebuild(pre: seq<nat>, lens: seq<nat>, from: seq<nat>, to: seq<nat>,
      pos: nat, max: nat, fix: nat)
    requires LengthsOk(lens) && LengthsOk(from) && LengthsOk(to)
    requires pos <= max <= 768 && fix <= 1
    requires forall i :: pos <= i < 768 ==> lens[i] == from[i]
    requires OpsOk(pre, ChooseAll(from, to, pos, max, fix), pos, max, fix)
    ensures forall i :: 0 <= i < 768 ==>
              ApplyOps(pre, lens, ChooseAll(from, to, pos, max, fix), pos, max, fix)[i] ==
                if pos <= i < max then to[i] else lens[i]
    decreases max - pos
  {
    hide Coded, ApplyOp;
    if pos < max {
      var op := Choose(from, to, pos, max, fix);
      var next := pos + Size(op);
      var ops := ChooseAll(from, to, next, max, fix);
      assert ([op] + ops)[1..] == ops;
      ChooseLocal(lens, from, to, pos, max, fix);
      ChosenOpsRebuild(pre, ApplyOp(lens, pos, op), from, to, next, max, fix);
    }
  }

  /** All 20 pre-tree symbols have codes. */
  ghost predicate EverySymbolCoded(pre: seq<nat>) {
    |pre| == 20 && forall s :: 0 <= s < 20 ==> Coded(pre, s)
  }

  /** With such a pre-tree the chosen operations can always be written. */
  lemma {:induction false} ChosenOpsOk(pre: seq<nat>, from: seq<nat>, to: seq<nat>, pos: nat, max: nat, fix: nat)
    requires EverySymbolCoded(pre) && LengthsOk(from) && LengthsOk(to)
    requires pos <= max <= 768 && fix <= 1
    ensures OpsOk(pre, ChooseAll(from, to, pos, max, fix), pos, max, fix)
    decreases max - pos
  {
    hide Coded;
    if pos < max {
      var op := Choose(from, to, pos, max, fix);
      var ops := ChooseAll(from, to, pos + Size(op), max, fix);
      assert ([op] + ops)[1..] == ops;
      ChosenOpsOk(pre, from, to, pos + Size(op), max, fix);
    }
  }

  lemma ChooseLocal(lens: seq<nat>, from: seq<nat>, to: seq<nat>, pos: nat, max: nat, fix: nat)
    requires LengthsOk(lens) && LengthsOk(from) && LengthsOk(to)
    requires pos < max <= 768 && fix <= 1
    requires forall i :: pos <= i < 768 ==> lens[i] == from[i]
    ensures var op := Choose(from, to, pos, max, fix);
            var lens1 := ApplyOp(lens, pos, op);
            && |lens1| == 768
            && forall i :: 0 <= i < 768 ==> lens1[i] == if pos <= i < pos + Size(op) then to[i] else lens[i]
  {
    var op := Choose(from, to, pos, max, fix);
    var a, b := ApplyOp(from, pos, op), ApplyOp(lens, pos, op);
    forall i | 0 <= i < 768
      ensures b[i] == if pos <= i < pos + Size(op) then to[i] else lens[i]
    {
      assert a[i] == if pos <= i < pos + Size(op) then to[i] else from[i];
    }
  }
}
