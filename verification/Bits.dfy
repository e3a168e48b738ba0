/** Bit strings and the integers they denote.

    A bit string lists bits in the order in which the bit reader delivers them. `Val` reads
    it with the first bit least significant (the way the reader packs bits into an integer),
    `Msb` reads it with the first bit most significant (the way canonical codes are ordered). */
module Bits {

  function Pow2(n: nat): (p: nat)
    ensures p >= 1
    ensures n > 0 ==> p >= 2
  {
    if n == 0 then 1 else 2 * Pow2(n - 1)
  }

  /** `w << k`. Defined by recursion, so that proofs stay linear. */
  function Shl(w: nat, k: nat): (r: nat)
    ensures r >= w
  {
    if k == 0 then w else 2 * Shl(w, k - 1)
  }

  /** `d >> k` */
  function Shr(d: nat, k: nat): nat {
    if k == 0 then d else Shr(d / 2, k - 1)
  }

  function Bit(b: bool): (v: nat)
    ensures v <= 1
  {
    if b then 1 else 0
  }

  function Val(bs: seq<bool>): (v: nat)
    ensures v < Pow2(|bs|)
  {
    if |bs| == 0 then 0 else Bit(bs[0]) + 2 * Val(bs[1..])
  }

  function Msb(bs: seq<bool>): (v: nat)
    ensures v < Pow2(|bs|)
  {
    if |bs| == 0 then 0 else 2 * Msb(bs[..|bs| - 1]) + Bit(bs[|bs| - 1])
  }

  /** The low `n` bits of `v`, least significant first. */
  function BitsOf(v: nat, n: nat): (bs: seq<bool>)
    ensures |bs| == n
  {
    if n == 0 then [] else [v % 2 == 1] + BitsOf(v / 2, n - 1)
  }

  /** The low `n` bits of `v`, most significant first. */
  function MsbBits(v: nat, n: nat): (bs: seq<bool>)
    ensures |bs| == n
  {
    if n == 0 then [] else MsbBits(v / 2, n - 1) + [v % 2 == 1]
  }

  /** The low `n` bits of `v` in reverse order. */
  function Rev(n: nat, v: nat): (r: nat)
    ensures r < Pow2(n)
  {
    Msb(BitsOf(v, n))
  }

  function Clear(n: nat): (bits: seq<bool>)
    ensures |bits| == n && forall i :: 0 <= i < n ==> !bits[i]
  {
    seq(n, _ => false)
  }

  // ---------------------------------------------------------------- shifts

  lemma Pow2Values()
    ensures Pow2(6) == 64 && Pow2(7) == 128 && Pow2(8) == 256
    ensures Pow2(12) == 4096 && Pow2(16) == 65536
  {
    assert Pow2(4) == 16;
    assert Pow2(8) == 256;
    assert Pow2(12) == 4096;
  }

  lemma {:induction false} Pow2Monotone(a: nat, b: nat)
    requires a <= b
    ensures Pow2(a) <= Pow2(b)
    ensures a < b ==> 2 * Pow2(a) <= Pow2(b)
    decreases b
  {
    if a < b {
      Pow2Monotone(a, b - 1);
    }
  }

  lemma {:induction false} ShlPow2(a: nat, k: nat)
    ensures Shl(Pow2(a), k) == Pow2(a + k)
  {
    if k > 0 {
      ShlPow2(a, k - 1);
    }
  }

  lemma {:induction false} ShlZero(k: nat)
    ensures Shl(0, k) == 0
  {
    if k > 0 {
      ShlZero(k - 1);
    }
  }

  lemma {:induction false} ShlAdd(a: nat, b: nat, k: nat)
    ensures Shl(a + b, k) == Shl(a, k) + Shl(b, k)
  {
    if k > 0 {
      ShlAdd(a, b, k - 1);
    }
  }

  lemma {:induction false} ShlShl(w: nat, a: nat, b: nat)
    ensures Shl(Shl(w, a), b) == Shl(w, a + b)
  {
    if b > 0 {
      ShlShl(w, a, b - 1);
    }
  }

  /** Multiples of 2^k are at least 2^k apart. */
  lemma {:induction false} ShlGap(a: nat, b: nat, k: nat)
    requires a < b
    ensures Shl(a, k) + Pow2(k) <= Shl(b, k)
  {
    if k > 0 {
      ShlGap(a, b, k - 1);
    }
  }

  lemma ShlMonotone(a: nat, b: nat, k: nat)
    requires a <= b
    ensures Shl(a, k) <= Shl(b, k)
  {
    if a < b {
      ShlGap(a, b, k);
    }
  }

  /** Quotient and remainder by 2^k are unique. */
  lemma ShlUnique(a: nat, r: nat, a': nat, r': nat, k: nat)
    requires r < Pow2(k) && r' < Pow2(k)
    requires Shl(a, k) + r == Shl(a', k) + r'
    ensures a == a' && r == r'
  {
    if a < a' {
      ShlGap(a, a', k);
    } else if a' < a {
      ShlGap(a', a, k);
    }
  }

  lemma {:induction false} ShrSplit(v: nat, k: nat)
    ensures Shl(Shr(v, k), k) <= v < Shl(Shr(v, k), k) + Pow2(k)
  {
    if k > 0 {
      ShrSplit(v / 2, k - 1);
    }
  }

  lemma {:induction false} ShrHalf(v: nat, k: nat)
    ensures Shr(v, k + 1) == Shr(v, k) / 2
  {
    if k > 0 {
      ShrHalf(v / 2, k - 1);
    }
  }

  lemma {:induction false} ShrShl(q: nat, a: nat, b: nat)
    ensures Shr(Shl(q, a), a + b) == Shr(q, b)
  {
    if a > 0 {
      ShrShl(q, a - 1, b);
      assert Shl(q, a) / 2 == Shl(q, a - 1);
    }
  }

  // ---------------------------------------------------------------- first bit least significant

  lemma {:induction false} ValOfBits(v: nat, n: nat)
    requires v < Pow2(n)
    ensures Val(BitsOf(v, n)) == v
  {
    if n > 0 {
      ValOfBits(v / 2, n - 1);
      assert BitsOf(v, n)[1..] == BitsOf(v / 2, n - 1);
    }
  }

  lemma {:induction false} BitsOfVal(bs: seq<bool>)
    ensures BitsOf(Val(bs), |bs|) == bs
  {
    if |bs| > 0 {
      BitsOfVal(bs[1..]);
      assert Val(bs) / 2 == Val(bs[1..]);
      assert bs == [bs[0]] + bs[1..];
    }
  }

  /** `x` occupies the first `a` bits and `y` the following `b`. */
  lemma {:induction false} BitsOfSplit(x: nat, y: nat, a: nat, b: nat)
    requires x < Pow2(a)
    ensures BitsOf(x + Shl(y, a), a + b) == BitsOf(x, a) + BitsOf(y, b)
  {
    if a == 0 {
      assert BitsOf(x, a) == [];
    } else {
      var v := x + Shl(y, a);
      assert v % 2 == x % 2 && v / 2 == x / 2 + Shl(y, a - 1);
      BitsOfSplit(x / 2, y, a - 1, b);
    }
  }

  lemma {:induction false} ValConcat(x: seq<bool>, y: seq<bool>)
    ensures Val(x + y) == Val(x) + Shl(Val(y), |x|)
  {
    if |x| == 0 {
      assert x + y == y;
    } else {
      assert (x + y)[1..] == x[1..] + y;
      ValConcat(x[1..], y);
    }
  }

  lemma {:induction false} BitsOfAt(v: nat, n: nat, i: nat)
    requires i < n
    ensures BitsOf(v, n)[i] == (Shr(v, i) % 2 == 1)
  {
    if i > 0 {
      BitsOfAt(v / 2, n - 1, i - 1);
    }
  }

  // ---------------------------------------------------------------- first bit most significant

  lemma {:induction false} MsbConcat(x: seq<bool>, y: seq<bool>)
    ensures Msb(x + y) == Shl(Msb(x), |y|) + Msb(y)
  {
    if |y| == 0 {
      assert x + y == x;
    } else {
      var y' := y[..|y| - 1];
      assert (x + y)[..|x + y| - 1] == x + y';
      MsbConcat(x, y');
    }
  }

  lemma {:induction false} MsbOfBits(v: nat, n: nat)
    requires v < Pow2(n)
    ensures Msb(MsbBits(v, n)) == v
  {
    if n > 0 {
      MsbOfBits(v / 2, n - 1);
      assert MsbBits(v, n)[..n - 1] == MsbBits(v / 2, n - 1);
    }
  }

  lemma {:induction false} BitsOfMsb(bs: seq<bool>)
    ensures MsbBits(Msb(bs), |bs|) == bs
  {
    if |bs| > 0 {
      BitsOfMsb(bs[..|bs| - 1]);
      assert bs == bs[..|bs| - 1] + [bs[|bs| - 1]];
    }
  }

  // ---------------------------------------------------------------- reversal

  function Reversed(bs: seq<bool>): (r: seq<bool>)
    ensures |r| == |bs|
  {
    if |bs| == 0 then [] else Reversed(bs[1..]) + [bs[0]]
  }

  lemma {:induction false} ReversedConcat(x: seq<bool>, y: seq<bool>)
    ensures Reversed(x + y) == Reversed(y) + Reversed(x)
  {
    if |x| == 0 {
      assert x + y == y;
    } else {
      assert (x + y)[1..] == x[1..] + y;
      ReversedConcat(x[1..], y);
    }
  }

  lemma {:induction false} ReversedTwice(bs: seq<bool>)
    ensures Reversed(Reversed(bs)) == bs
  {
    if |bs| > 0 {
      ReversedConcat(Reversed(bs[1..]), [bs[0]]);
      ReversedTwice(bs[1..]);
      assert Reversed([bs[0]]) == [bs[0]];
    }
  }

  lemma {:induction false} MsbIsValReversed(bs: seq<bool>)
    ensures Msb(bs) == Val(Reversed(bs))
  {
    var n := |bs|;
    if n > 0 {
      MsbIsValReversed(bs[..n - 1]);
      assert bs == bs[..n - 1] + [bs[n - 1]];
      ReversedConcat(bs[..n - 1], [bs[n - 1]]);
      assert Reversed([bs[n - 1]]) == [bs[n - 1]];
      assert Reversed(bs)[1..] == Reversed(bs[..n - 1]);
    }
  }

  lemma {:induction false} RevRev(n: nat, v: nat)
    requires v < Pow2(n)
    ensures Rev(n, Rev(n, v)) == v
  {
    var bs := BitsOf(v, n);
    MsbIsValReversed(bs);
    BitsOfVal(Reversed(bs));
    MsbIsValReversed(Reversed(bs));
    ReversedTwice(bs);
    ValOfBits(v, n);
  }

  lemma RevZero(n: nat)
    ensures Rev(n, 0) == 0
  {
    AllClear(n, n);
    assert BitsOf(0, n)[..n] == BitsOf(0, n);
  }

  lemma {:induction false} AllClear(n: nat, i: nat)
    requires i <= n
    ensures Msb(BitsOf(0, n)[..i]) == 0
  {
    if i > 0 {
      AllClear(n, i - 1);
      BitsOfAt(0, n, i - 1);
      ShrZero(i - 1);
      assert BitsOf(0, n)[..i][..i - 1] == BitsOf(0, n)[..i - 1];
    }
  }

  lemma {:induction false} ShrZero(k: nat)
    ensures Shr(0, k) == 0
  {
    if k > 0 {
      ShrZero(k - 1);
    }
  }

  /** The reversal of an index splits into the reversals of its low and high parts. */
  lemma RevSplit(x: nat, y: nat, a: nat, b: nat)
    requires x < Pow2(a)
    ensures Rev(a + b, x + Shl(y, a)) == Shl(Rev(a, x), b) + Rev(b, y)
  {
    BitsOfSplit(x, y, a, b);
    MsbConcat(BitsOf(x, a), BitsOf(y, b));
  }

  // ---------------------------------------------------------------- the accumulator

  function Or(a: nat, b: nat): nat {
    if a == 0 && b == 0 then 0
    else Bit(a % 2 == 1 || b % 2 == 1) + 2 * Or(a / 2, b / 2)
  }

  function And(a: nat, b: nat): nat
    decreases a
  {
    if a == 0 then 0
    else Bit(a % 2 == 1 && b % 2 == 1) + 2 * And(a / 2, b / 2)
  }

  lemma {:induction false} OrZero(b: nat)
    ensures Or(0, b) == b
  {
    if b > 0 {
      OrZero(b / 2);
    }
  }

  /** Or-ing a word in above the bits in use appends its bits. */
  lemma OrAbove(d: nat, a: nat, w: nat, n: nat)
    requires d < Pow2(a) && w < Pow2(n)
    ensures Or(d, Shl(w, a)) < Pow2(a + n)
    ensures BitsOf(Or(d, Shl(w, a)), a + n) == BitsOf(d, a) + BitsOf(w, n)
  {
    hide Or, Shl, BitsOf, Pow2;
    OrBelow(d, a, w, n);
    OrAppends(d, a, w, n);
  }

  lemma {:induction false} OrBelow(d: nat, a: nat, w: nat, n: nat)
    requires d < Pow2(a) && w < Pow2(n)
    ensures Or(d, Shl(w, a)) < Pow2(a + n)
  {
    hide Or, Shl;
    if a == 0 {
      OrNothing(w);
    } else {
      OrBelow(d / 2, a - 1, w, n);
      OrStep(d, a, w);
    }
  }

  lemma {:induction false} OrAppends(d: nat, a: nat, w: nat, n: nat)
    requires d < Pow2(a)
    ensures BitsOf(Or(d, Shl(w, a)), a + n) == BitsOf(d, a) + BitsOf(w, n)
  {
    hide Or, Shl;
    if a == 0 {
      OrNothing(w);
      assert BitsOf(d, 0) == [];
    } else {
      var m := a - 1 + n;
      OrAppends(d / 2, a - 1, w, n);
      OrStep(d, a, w);
      BitsOfCons(d % 2, Or(d / 2, Shl(w, a - 1)), m);
      assert a + n == m + 1;
    }
  }

  lemma OrNothing(w: nat)
    ensures Or(0, Shl(w, 0)) == w
  {
    OrZero(w);
  }

  lemma OrStep(d: nat, a: nat, w: nat)
    requires a > 0
    ensures Or(d, Shl(w, a)) == d % 2 + 2 * Or(d / 2, Shl(w, a - 1))
  {
    OrEven(d, Shl(w, a - 1));
  }

  lemma OrEven(d: nat, w: nat)
    ensures Or(d, 2 * w) == d % 2 + 2 * Or(d / 2, w)
  {
  }

  lemma BitsOfCons(b: nat, v: nat, n: nat)
    requires b <= 1
    ensures BitsOf(b + 2 * v, n + 1) == [b == 1] + BitsOf(v, n)
  {
    assert (b + 2 * v) % 2 == b && (b + 2 * v) / 2 == v;
  }

  /** Shifting right drops the first bits. */
  lemma {:induction false} ShrDrops(d: nat, a: nat, n: nat)
    requires n <= a && d < Pow2(a)
    ensures BitsOf(d, a)[..n] == BitsOf(d, n)
    ensures BitsOf(d, a)[n..] == BitsOf(Shr(d, n), a - n)
    ensures Shr(d, n) < Pow2(a - n)
  {
    if n > 0 {
      ShrDrops(d / 2, a - 1, n - 1);
      ConsSlices(d % 2 == 1, BitsOf(d / 2, a - 1), n);
    }
  }

  lemma ConsSlices(b: bool, bs: seq<bool>, n: nat)
    requires 1 <= n <= |bs| + 1
    ensures ([b] + bs)[..n] == [b] + bs[..n - 1]
    ensures ([b] + bs)[n..] == bs[n - 1..]
  {
  }

  /** Masking keeps the first bits. */
  lemma {:induction false} AndMask(a: nat, n: nat)
    ensures And(a, Pow2(n) - 1) == Val(BitsOf(a, n))
    decreases n
  {
    if n > 0 {
      assert (Pow2(n) - 1) / 2 == Pow2(n - 1) - 1 && (Pow2(n) - 1) % 2 == 1;
      AndMask(a / 2, n - 1);
      assert BitsOf(a, n)[1..] == BitsOf(a / 2, n - 1);
      if a == 0 {
        ZeroBits(n);
      }
    } else {
      AndZero(a);
    }
  }

  lemma {:induction false} AndZero(a: nat)
    ensures And(a, 0) == 0
  {
    if a > 0 {
      AndZero(a / 2);
    }
  }

  lemma {:induction false} ZeroBits(n: nat)
    ensures Val(BitsOf(0, n)) == 0
  {
    if n > 0 {
      ZeroBits(n - 1);
      assert BitsOf(0, n)[1..] == BitsOf(0, n - 1);
    }
  }
}
