/** The power-of-two size policy: snapUpSize, its bit smearing and what it yields. */
module SnapUp {

  function Pow2(k: nat): (p: nat)
    ensures p > 0
  {
    if k == 0 then 1 else 2 * Pow2(k - 1)
  }

  /** Bit i of n. */
  predicate Bit(n: nat, i: nat) {
    if i == 0 then n % 2 == 1 else Bit(n / 2, i - 1)
  }

  /** The C operator `|` on unsigned words. */
  function Or(a: nat, b: nat): nat {
    if a == 0 then b
    else (if a % 2 == 1 || b % 2 == 1 then 1 else 0) + 2 * Or(a / 2, b / 2)
  }

  /** The C operator `>>` on unsigned words. */
  function Shr(a: nat, s: nat): nat {
    if s == 0 then a else Shr(a / 2, s - 1)
  }

  /** One line `j |= (j >> s)`. */
  function SmearBy(j: nat, s: nat): nat {
    Or(j, Shr(j, s))
  }

  function Smear(j: nat): nat {
    SmearBy(SmearBy(SmearBy(SmearBy(SmearBy(j, 1), 2), 4), 8), 16)
  }

  /** The 32-bit `int` with the low bits of j: an unsigned word converted, or a sum that has wrapped. */
  function AsInt32(j: int): (w: int)
    ensures -0x8000_0000 <= w < 0x8000_0000 && (j - w) % 0x1_0000_0000 == 0
  {
    var w := j % 0x1_0000_0000;
    if w < 0x8000_0000 then w else w - 0x1_0000_0000
  }

  /** A value that is an `int` does not wrap. */
  lemma NoWrap(j: int)
    requires -0x8000_0000 <= j < 0x8000_0000
    ensures AsInt32(j) == j
  {
  }

  /** A sum of two `int`s past the largest one turns negative. */
  lemma WrapsNegative(j: int)
    requires 0x8000_0000 <= j < 0x1_0000_0000
    ensures AsInt32(j) < 0
  {
  }

  function SnapUpSize(i: int): int {
    if i < 8 then 8
    else
      var j := AsInt32(Smear(i) + 1);
      if j >= i then j else i
  }

  lemma {:induction false} BitOr(a: nat, b: nat, i: nat)
    ensures Bit(Or(a, b), i) <==> Bit(a, i) || Bit(b, i)
  {
    if a == 0 {
      BitZero(i);
    } else if i > 0 {
      BitOr(a / 2, b / 2, i - 1);
      assert Or(a, b) / 2 == Or(a / 2, b / 2);
    }
  }

  lemma {:induction false} BitZero(i: nat)
    ensures !Bit(0, i)
  {
    if i == 0 {
    } else {
      BitZero(i - 1);
    }
  }

  lemma {:induction false} BitShr(a: nat, s: nat, i: nat)
    ensures Bit(Shr(a, s), i) <==> Bit(a, i + s)
  {
    if s == 0 {
    } else {
      BitShr(a / 2, s - 1, i);
    }
  }

  /** Some bit of n among i, ..., i + w - 1 is set. */
  ghost predicate AnyBit(n: nat, i: nat, w: nat) {
    exists m: nat :: i <= m < i + w && Bit(n, m)
  }

  /** x is n with every set bit copied to the w - 1 places below it. */
  ghost predicate SmearedTo(x: nat, n: nat, w: nat) {
    forall i: nat :: Bit(x, i) <==> AnyBit(n, i, w)
  }

  lemma SmearStep(x: nat, n: nat, w: nat)
    requires SmearedTo(x, n, w)
    ensures SmearedTo(SmearBy(x, w), n, 2 * w)
  {
    forall i: nat
      ensures Bit(SmearBy(x, w), i) <==> AnyBit(n, i, 2 * w)
    {
      BitOr(x, Shr(x, w), i);
      BitShr(x, w, i);
      assert AnyBit(n, i, 2 * w) <==> AnyBit(n, i, w) || AnyBit(n, i + w, w);
    }
  }

  /** The five lines together copy every bit to the 31 places below it. */
  lemma SmearAll(n: nat)
    ensures SmearedTo(Smear(n), n, 32)
  {
    assert SmearedTo(n, n, 1) by {
      forall i: nat ensures Bit(n, i) <==> AnyBit(n, i, 1) {
      }
    }
    SmearStep(n, n, 1);
    var j := SmearBy(n, 1);
    SmearStep(j, n, 2);
    j := SmearBy(j, 2);
    SmearStep(j, n, 4);
    j := SmearBy(j, 4);
    SmearStep(j, n, 8);
    j := SmearBy(j, 8);
    SmearStep(j, n, 16);
  }

  lemma {:induction false} TopBit(n: nat, k: nat, i: nat)
    requires Pow2(k) <= n < Pow2(k + 1) && i >= k
    ensures Bit(n, i) <==> i == k
  {
    if k > 0 {
      TopBit(n / 2, k - 1, i - 1);
    } else if i == 0 {
    } else {
      BitZero(i - 1);
    }
  }

  lemma {:induction false} AllOnes(n: nat, k: nat)
    requires forall i: nat :: Bit(n, i) <==> i < k
    ensures n == Pow2(k) - 1
  {
    assert Bit(n, 0) <==> 0 < k;
    forall i: nat ensures Bit(n / 2, i) <==> i < k - 1 {
      assert Bit(n, i + 1) <==> i + 1 < k;
    }
    if k > 0 {
      AllOnes(n / 2, k - 1);
    } else if n > 0 {
      HasBit(n);
    }
  }

  lemma {:induction false} HasBit(n: nat)
    requires n > 0
    ensures exists i: nat :: Bit(n, i)
  {
    if n % 2 == 1 {
      assert Bit(n, 0);
    } else {
      HasBit(n / 2);
      var i: nat :| Bit(n / 2, i);
      assert Bit(n, i + 1);
    }
  }

  lemma {:induction false} Magnitude(n: nat) returns (k: nat)
    requires n > 0
    ensures Pow2(k) <= n < Pow2(k + 1)
  {
    if n == 1 {
      k := 0;
    } else {
      k := Magnitude(n / 2);
      k := k + 1;
    }
  }

  lemma {:induction false} Pow2Mono(a: nat, b: nat)
    requires a <= b
    ensures Pow2(a) <= Pow2(b)
  {
    if a == b {
    } else {
      Pow2Mono(a, b - 1);
    }
  }

  /** Smearing a word whose top bit is bit k gives k + 1 ones. */
  lemma SmearValue(n: nat, k: nat)
    requires Pow2(k) <= n < Pow2(k + 1) && k < 32
    ensures Smear(n) == Pow2(k + 1) - 1
  {
    SmearAll(n);
    forall i: nat ensures Bit(Smear(n), i) <==> i < k + 1 {
      if i <= k {
        TopBit(n, k, k);
      } else if AnyBit(n, i, 32) {
        var m: nat :| i <= m < i + 32 && Bit(n, m);
        TopBit(n, k, m);
      }
    }
    AllOnes(Smear(n), k + 1);
  }

  ghost predicate IsPow2(n: nat) {
    exists k: nat :: n == Pow2(k)
  }

  lemma Pow2Values()
    ensures Pow2(3) == 8 && Pow2(30) == 0x4000_0000 && Pow2(31) == 0x8000_0000
  {
    assert Pow2(10) == 1024;
    assert Pow2(20) == 1024 * Pow2(10);
    assert Pow2(30) == 1024 * Pow2(20);
  }

  /** Below 2^30 the snapped size is the least power of two strictly above i. */
  lemma SnapUpIsLeastPow2(i: nat)
    requires 8 <= i < 0x4000_0000
    ensures IsPow2(SnapUpSize(i)) && SnapUpSize(i) > i
    ensures forall q: nat :: IsPow2(q) && q > i ==> SnapUpSize(i) <= q
    ensures SnapUpSize(i) <= 2 * i
  {
    hide Smear;
    Pow2Values();
    var k := Magnitude(i);
    if k >= 30 { Pow2Mono(30, k); }
    Pow2Mono(k + 1, 30);
    SmearValue(i, k);
    assert SnapUpSize(i) == Pow2(k + 1);
    forall q: nat | IsPow2(q) && q > i ensures SnapUpSize(i) <= q {
      var m: nat :| q == Pow2(m);
      if m <= k { Pow2Mono(m, k); }
      Pow2Mono(k + 1, m);
    }
  }

  /** From 2^30 on the next power is negative as an `int`, and the request is kept as it is. */
  lemma SnapUpKeepsLarge(i: nat)
    requires 0x4000_0000 <= i < 0x8000_0000
    ensures SnapUpSize(i) == i
  {
    assert Smear(i) + 1 == 0x8000_0000 by {
      Pow2Values();
      SmearValue(i, 30);
    }
    assert AsInt32(0x8000_0000) < 0;
  }

  /** Every caller relies on this much: a request is never answered by less. */
  lemma SnapUpEnough(i: int)
    requires i < 0x8000_0000
    ensures SnapUpSize(i) >= i && SnapUpSize(i) >= 8 && (i < 8 ==> SnapUpSize(i) == 8)
    ensures i < 0x4000_0000 ==> SnapUpSize(i) > i
  {
    if 8 <= i < 0x4000_0000 {
      SnapUpIsLeastPow2(i);
    } else if 0x4000_0000 <= i {
      SnapUpKeepsLarge(i);
    }
  }

  lemma SnapUpFits(i: int)
    requires i < 0x8000_0000
    ensures SnapUpSize(i) < 0x8000_0000
  {
  }

  lemma NextPow2(p: nat, q: nat)
    requires IsPow2(p) && IsPow2(q) && p < q
    ensures 2 * p <= q
  {
    var k: nat :| p == Pow2(k);
    var m: nat :| q == Pow2(m);
    if m <= k {
      Pow2Mono(m, k);
    } else {
      Pow2Mono(k + 1, m);
    }
  }

  lemma DoublePow2(p: nat)
    requires IsPow2(p)
    ensures IsPow2(2 * p) && (p < 0x4000_0000 ==> 2 * p <= 0x4000_0000)
  {
    Pow2Values();
    var k: nat :| p == Pow2(k);
    assert 2 * p == Pow2(k + 1);
    if p < 0x4000_0000 {
      assert IsPow2(0x4000_0000);
      NextPow2(p, 0x4000_0000);
    }
  }

  /** One or no byte past a full block of 2^k bytes doubles it. */
  lemma SnapUpDoubles(p: nat, i: nat)
    requires IsPow2(p) && 8 <= p <= i <= p + 1 && i < 0x4000_0000
    ensures SnapUpSize(i) == 2 * p <= 0x4000_0000 && IsPow2(2 * p)
  {
    hide SnapUpSize, IsPow2;
    SnapUpIsLeastPow2(i);
    DoublePow2(p);
    NextPow2(p, SnapUpSize(i));
  }
}
