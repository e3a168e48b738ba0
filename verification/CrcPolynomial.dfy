/** Polynomials over the two-element field, and the shift register that divides by one.

    A polynomial is its coefficients, highest degree first. The register holds a remainder in
    the same order, so that its first bit is the one about to be shifted out. */
module CrcPolynomial {
  import opened Bits

  function Add(x: seq<bool>, y: seq<bool>): (z: seq<bool>)
    requires |x| == |y|
    ensures |z| == |x| && forall i :: 0 <= i < |z| ==> z[i] == (x[i] != y[i])
  {
    seq(|x|, i requires 0 <= i < |x| => x[i] != y[i])
  }

  /** The product of two polynomials. */
  function Times(q: seq<bool>, g: seq<bool>): (p: seq<bool>)
    requires |g| > 0
    ensures |p| == |q| + |g| - 1
  {
    if |q| == 0 then Clear(|g| - 1)
    else Add((if q[0] then g else Clear(|g|)) + Clear(|q| - 1), [false] + Times(q[1..], g))
  }

  /** `q * g + r` */
  function Combine(q: seq<bool>, g: seq<bool>, r: seq<bool>): (p: seq<bool>)
    requires |g| > 0 && |r| == |g| - 1
    ensures |p| == |q| + |r|
  {
    Add(Times(q, g), Clear(|q|) + r)
  }

  /** `r` has lower degree than `g`, and `dividend == q * g + r` for some quotient. */
  ghost predicate IsRemainder(dividend: seq<bool>, g: seq<bool>, r: seq<bool>) {
    |g| > 0 && |r| == |g| - 1 &&
    exists q: seq<bool> :: |q| + |r| == |dividend| && dividend == Combine(q, g, r)
  }

  // ---------------------------------------------------------------- the register

  /** Shift message bit `b` into register `r`; `low` holds the coefficients of the divisor below
      its leading one. */
  function Step(low: seq<bool>, r: seq<bool>, b: bool): (r': seq<bool>)
    requires |r| == |low| > 0
    ensures |r'| == |r|
  {
    var moved := r[1..] + [false];
    if r[0] != b then Add(moved, low) else moved
  }

  function Run(low: seq<bool>, r: seq<bool>, message: seq<bool>): (r': seq<bool>)
    requires |r| == |low| > 0
    ensures |r'| == |r|
    decreases |message|
  {
    if |message| == 0 then r else Run(low, Step(low, r, message[0]), message[1..])
  }

  lemma {:induction false} RunConcat(low: seq<bool>, r: seq<bool>, a: seq<bool>, b: seq<bool>)
    requires |r| == |low| > 0
    ensures Run(low, r, a + b) == Run(low, Run(low, r, a), b)
    decreases |a|
  {
    hide Step;
    if |a| == 0 {
      assert a + b == b;
    } else {
      assert (a + b)[1..] == a[1..] + b;
      RunConcat(low, Step(low, r, a[0]), a[1..], b);
    }
  }

  lemma StepLinear(low: seq<bool>, r: seq<bool>, s: seq<bool>, b: bool, c: bool)
    requires |r| == |s| == |low| > 0
    ensures Step(low, Add(r, s), b != c) == Add(Step(low, r, b), Step(low, s, c))
  {
  }

  lemma {:induction false} RunLinear(low: seq<bool>, r: seq<bool>, s: seq<bool>, x: seq<bool>, y: seq<bool>)
    requires |r| == |s| == |low| > 0 && |x| == |y|
    ensures Run(low, Add(r, s), Add(x, y)) == Add(Run(low, r, x), Run(low, s, y))
    decreases |x|
  {
    hide Step;
    if |x| > 0 {
      StepLinear(low, r, s, x[0], y[0]);
      assert Add(x, y)[1..] == Add(x[1..], y[1..]);
      RunLinear(low, Step(low, r, x[0]), Step(low, s, y[0]), x[1..], y[1..]);
    }
  }

  /** Message bits equal to the register's own first bits only move the register. */
  lemma {:induction false} RunMatching(low: seq<bool>, x: seq<bool>, t: seq<bool>)
    requires |x| + |t| == |low| > 0
    ensures Run(low, x + t, x) == t + Clear(|x|)
    decreases |x|
  {
    if |x| == 0 {
      assert x + t == t && t + Clear(0) == t;
    } else {
      var t' := t + [false];
      assert (x + t)[1..] + [false] == x[1..] + t';
      RunMatching(low, x[1..], t');
      assert t' + Clear(|x| - 1) == t + Clear(|x|);
    }
  }

  /** Several message bits at once: the first bits of the register, with the message added, are
      run alone, and the rest of the register just moves up. */
  lemma RunByTable(low: seq<bool>, r: seq<bool>, x: seq<bool>, e: seq<bool>, t: seq<bool>)
    requires |x| <= |r| == |low| && |low| > 0
    requires e == Add(x, r[..|x|]) && t == r[|x|..]
    ensures Run(low, r, x) == Add(Run(low, e + Clear(|t|), Clear(|x|)), t + Clear(|x|))
  {
    hide Run, Add;
    var above, clear := Clear(|t|), Clear(|x|);
    TakeApart(r, x, e, t);
    AddNothing(x);
    RunMatching(low, x, t);
    RunOfSum(low, r, e + above, x + t, clear, x);
  }

  lemma RunOfSum(low: seq<bool>, r: seq<bool>, first: seq<bool>, last: seq<bool>, clear: seq<bool>, x: seq<bool>)
    requires |r| == |first| == |last| == |low| > 0 && |clear| == |x|
    requires Add(first, last) == r && Add(clear, x) == x
    ensures Run(low, r, x) == Add(Run(low, first, clear), Run(low, last, x))
  {
    hide Run, Add;
    RunLinear(low, first, last, clear, x);
  }

  lemma TakeApart(r: seq<bool>, x: seq<bool>, e: seq<bool>, t: seq<bool>)
    requires |x| <= |r| && e == Add(x, r[..|x|]) && t == r[|x|..]
    ensures Add(e + Clear(|t|), x + t) == r
  {
    AddTwice(x, r[..|x|]);
    AddNothing(t);
    AddConcat(e, x, Clear(|t|), t);
    assert r == r[..|x|] + t;
  }

  lemma AddConcat(a: seq<bool>, b: seq<bool>, c: seq<bool>, d: seq<bool>)
    requires |a| == |b| && |c| == |d|
    ensures Add(a + c, b + d) == Add(a, b) + Add(c, d)
  {
  }

  lemma AddTwice(x: seq<bool>, y: seq<bool>)
    requires |x| == |y|
    ensures Add(Add(x, y), x) == y
  {
  }

  lemma AddNothing(x: seq<bool>)
    ensures Add(Clear(|x|), x) == x
  {
  }

  // ---------------------------------------------------------------- division

  /** The register, fed a message, ends with the remainder of the message, moved up by the
      register's width and with the register's first value added at the top. */
  lemma {:induction false} RunDivides(low: seq<bool>, r: seq<bool>, message: seq<bool>) returns (q: seq<bool>)
    requires |r| == |low| > 0
    ensures |q| == |message|
    ensures Add(r + Clear(|message|), message + Clear(|low|)) == Combine(q, [true] + low, Run(low, r, message))
    decreases |message|
  {
    hide Step, Add, Combine, Clear, IsRemainder;
    var g := [true] + low;
    if |message| == 0 {
      q := [];
      NothingToDivide(g, r, message + Clear(|low|));
    } else {
      var rest, b := message[1..], message[0];
      var r' := Step(low, r, b);
      var q' := RunDivides(low, r', rest);
      q := [r[0] != b] + q';
      assert q[1..] == q' && message == [b] + rest && |message| == |rest| + 1;
      DivideOnce(low, r, b, rest);
      Regroup(q, g, r[0] != b, q', Run(low, r', rest));
    }
  }

  lemma NothingToDivide(g: seq<bool>, r: seq<bool>, zero: seq<bool>)
    requires |g| > 0 && |r| == |g| - 1 && zero == Clear(|r|)
    ensures Add(r + Clear(0), zero) == Combine([], g, r)
  {
  }

  /** One step takes the divisor off the top of the dividend when its leading bit is set. */
  lemma DivideOnce(low: seq<bool>, r: seq<bool>, b: bool, rest: seq<bool>)
    requires |r| == |low| > 0
    ensures Add(r + Clear(|rest| + 1), [b] + rest + Clear(|low|)) ==
            Add((if r[0] != b then [true] + low else Clear(|low| + 1)) + Clear(|rest|),
                [false] + Add(Step(low, r, b) + Clear(|rest|), rest + Clear(|low|)))
  {
  }

  lemma Regroup(q: seq<bool>, g: seq<bool>, top: bool, q': seq<bool>, r: seq<bool>)
    requires |g| > 0 && |r| == |g| - 1
    requires q == [top] + q' && q[1..] == q'
    ensures Combine(q, g, r) ==
            Add((if top then g else Clear(|g|)) + Clear(|q'|), [false] + Combine(q', g, r))
  {
  }

  lemma SameTail(g: seq<bool>, top: bool, p: seq<bool>, top': bool, p': seq<bool>, n: nat)
    requires |g| > 0 && g[0] && |p| == |p'| == |g| + n - 1
    requires Add((if top then g else Clear(|g|)) + Clear(n), [false] + p) ==
             Add((if top' then g else Clear(|g|)) + Clear(n), [false] + p')
    ensures top == top' && p == p'
  {
    var t, t' := (if top then g else Clear(|g|)) + Clear(n), (if top' then g else Clear(|g|)) + Clear(n);
    var z, z' := Add(t, [false] + p), Add(t', [false] + p');
    assert z[0] == top && z'[0] == top';
    forall i | 0 <= i < |p| ensures p[i] == p'[i] {
      assert z[i + 1] == (t[i + 1] != p[i]) && z'[i + 1] == (t'[i + 1] != p'[i]);
    }
  }

  /** Quotient and remainder are unique. */
  lemma {:induction false} DivisionUnique(g: seq<bool>, q: seq<bool>, r: seq<bool>, q': seq<bool>, r': seq<bool>)
    requires |g| > 0 && g[0] && |r| == |r'| == |g| - 1 && |q| == |q'|
    requires Combine(q, g, r) == Combine(q', g, r')
    ensures q == q' && r == r'
    decreases |q|
  {
    if |q| == 0 {
      assert r == Combine(q, g, r) == Combine(q', g, r') == r';
    } else {
      Regroup(q, g, q[0], q[1..], r);
      Regroup(q', g, q'[0], q'[1..], r');
      SameTail(g, q[0], Combine(q[1..], g, r), q'[0], Combine(q'[1..], g, r'), |q| - 1);
      DivisionUnique(g, q[1..], r, q'[1..], r');
    }
  }

  /** The register holds the remainder, and nothing else is the remainder. */
  lemma RemainderIsRun(low: seq<bool>, r: seq<bool>, message: seq<bool>, rem: seq<bool>)
    requires |r| == |low| > 0
    ensures IsRemainder(Add(r + Clear(|message|), message + Clear(|low|)), [true] + low, rem)
            <==> rem == Run(low, r, message)
  {
    var g, dividend := [true] + low, Add(r + Clear(|message|), message + Clear(|low|));
    var q := RunDivides(low, r, message);
    if IsRemainder(dividend, g, rem) {
      var q' :| |q'| + |rem| == |dividend| && dividend == Combine(q', g, rem);
      DivisionUnique(g, q, Run(low, r, message), q', rem);
    }
  }

  // ---------------------------------------------------------------- damage

  lemma StepInjective(low: seq<bool>, r: seq<bool>, s: seq<bool>, b: bool)
    requires |r| == |s| == |low| > 0 && low[|low| - 1]
    requires Step(low, r, b) == Step(low, s, b)
    ensures r == s
  {
    var n := |low|;
    var p, p' := Step(low, r, b), Step(low, s, b);
    assert p[n - 1] == (r[0] != b) && p'[n - 1] == (s[0] != b);
    forall i | 0 < i < n ensures r[i] == s[i] {
      assert p[i - 1] == if r[0] != b then r[i] != low[i - 1] else r[i];
      assert p'[i - 1] == if s[0] != b then s[i] != low[i - 1] else s[i];
    }
  }

  /** Whatever follows, two different registers stay different. */
  lemma {:induction false} RunInjective(low: seq<bool>, r: seq<bool>, s: seq<bool>, message: seq<bool>)
    requires |r| == |s| == |low| > 0 && low[|low| - 1]
    requires Run(low, r, message) == Run(low, s, message)
    ensures r == s
    decreases |message|
  {
    hide Step;
    if |message| > 0 {
      var b := message[0];
      RunInjective(low, Step(low, r, b), Step(low, s, b), message[1..]);
      StepInjective(low, r, s, b);
    }
  }

  /** Two messages that differ only within a window no wider than the register never leave the
      same register. */
  lemma BurstDetected(low: seq<bool>, r: seq<bool>, a: seq<bool>, x: seq<bool>, y: seq<bool>, c: seq<bool>)
    requires |r| == |low| > 0 && low[|low| - 1]
    requires |x| == |y| <= |low|
    requires Run(low, r, a + x + c) == Run(low, r, a + y + c)
    ensures x == y
  {
    hide Run, Add;
    var s := Run(low, r, a);
    RunConcat(low, r, a + x, c);
    RunConcat(low, r, a + y, c);
    RunConcat(low, r, a, x);
    RunConcat(low, r, a, y);
    RunInjective(low, Run(low, s, x), Run(low, s, y), c);
    WindowSeen(low, s, x, y);
  }

  lemma WindowSeen(low: seq<bool>, s: seq<bool>, x: seq<bool>, y: seq<bool>)
    requires |s| == |low| > 0 && low[|low| - 1]
    requires |x| == |y| <= |low|
    requires Run(low, s, x) == Run(low, s, y)
    ensures x == y
  {
    hide Run;
    var d, zero, t := Add(x, y), Clear(|low|), Clear(|low| - |x|);
    RunLinear(low, s, s, x, y);
    assert Add(s, s) == zero;
    assert Add(Run(low, s, x), Run(low, s, y)) == zero;
    RunMatching(low, d, t);
    assert t + Clear(|d|) == zero;
    RunInjective(low, d + t, zero, d);
    assert forall i :: 0 <= i < |x| ==> d[i] == (d + t)[i];
  }
}
