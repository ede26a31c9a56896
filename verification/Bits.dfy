/** Fixed-width binary words, most significant bit first, and their integer values. */
module Bits {

  type Bits = seq<bool>

  function Pow2(n: nat): (p: nat)
    ensures p >= 1
  {
    if n == 0 then 1 else 2 * Pow2(n - 1)
  }

  function Zeros(n: nat): (z: Bits)
    ensures |z| == n && forall i :: 0 <= i < n ==> !z[i]
  {
    seq(n, i => false)
  }

  function Ones(n: nat): (z: Bits)
    ensures |z| == n && forall i :: 0 <= i < n ==> z[i]
  {
    seq(n, i => true)
  }

  /** Bitwise exclusive or of two words of one width. */
  function Xor(a: Bits, b: Bits): (c: Bits)
    requires |a| == |b|
    ensures |c| == |a| && forall i :: 0 <= i < |a| ==> c[i] == (a[i] != b[i])
  {
    seq(|a|, i requires 0 <= i < |a| => a[i] != b[i])
  }

  /** The low `width` bits of an integer, negative ones in two's complement. */
  function ToBits(n: int, width: nat): (b: Bits)
    ensures |b| == width
    decreases width
  {
    if width == 0 then [] else ToBits(n / 2, width - 1) + [n % 2 == 1]
  }

  function FromBits(b: Bits): (n: nat)
    ensures n < Pow2(|b|)
  {
    if b == [] then 0 else 2 * FromBits(b[..|b| - 1]) + if b[|b| - 1] then 1 else 0
  }

  lemma {:induction false} ToFromBits(b: Bits)
    ensures ToBits(FromBits(b), |b|) == b
  {
    if b == [] {
    } else {
      var init := b[..|b| - 1];
      ToFromBits(init);
      assert FromBits(b) / 2 == FromBits(init);
      assert b == init + [b[|b| - 1]];
    }
  }

  lemma {:induction false} FromToBits(n: nat, width: nat)
    requires n < Pow2(width)
    ensures FromBits(ToBits(n, width)) == n
  {
    if width == 0 {
    } else {
      FromToBits(n / 2, width - 1);
      assert ToBits(n, width)[..width - 1] == ToBits(n / 2, width - 1);
    }
  }

  /** The low bits are what is left on division by a power of two, for negative integers too. */
  lemma {:induction false} LowBits(n: int, width: nat)
    ensures FromBits(ToBits(n, width)) == n % Pow2(width)
    decreases width
  {
    if width == 0 {
    } else {
      LowBits(n / 2, width - 1);
      assert ToBits(n, width)[..width - 1] == ToBits(n / 2, width - 1);
      HalfRest(n, Pow2(width - 1));
    }
  }

  lemma HalfRest(n: int, p: nat)
    requires p >= 1
    ensures n % (2 * p) == 2 * (n / 2 % p) + n % 2
  {
    var q, r := n / 2 / p, n / 2 % p;
    assert n == 2 * (p * q + r) + n % 2;
    assert n == (2 * p) * q + (2 * r + n % 2);
    DivisionIs(n, 2 * p, q, 2 * r + n % 2);
  }

  lemma MultipleIsFar(d: nat, k: int)
    ensures (k >= 1 ==> d * k >= d) && (k <= -1 ==> d * k <= 0 - d)
  {
  }

  lemma DivisionIs(n: int, d: nat, q: int, r: nat)
    requires n == d * q + r && r < d
    ensures n % d == r
  {
    MultipleIsFar(d, q - n / d);
    assert d * (q - n / d) == d * q - d * (n / d);
  }

  lemma TwiceProduct(x: nat, p: nat, y: nat)
    ensures 2 * (x * p + y) == x * (2 * p) + 2 * y
  {
  }

  /** Words one after the other: the first one counts for as many doublings as the second has bits. */
  lemma {:induction false} FromBitsAppend(a: Bits, b: Bits)
    ensures FromBits(a + b) == FromBits(a) * Pow2(|b|) + FromBits(b)
    decreases |b|
  {
    if b == [] {
      assert a + b == a;
    } else {
      var front := b[..|b| - 1];
      assert (a + b)[..|a + b| - 1] == a + front;
      FromBitsAppend(a, front);
      TwiceProduct(FromBits(a), Pow2(|front|), FromBits(front));
    }
  }

  lemma {:induction false} MaskIsOnes(width: nat)
    ensures ToBits(Pow2(width) - 1, width) == Ones(width)
  {
    if width == 0 {
    } else {
      MaskIsOnes(width - 1);
      assert (Pow2(width) - 1) / 2 == Pow2(width - 1) - 1;
    }
  }

  // Exclusive or of integers of any size and sign.

  function Magnitude(n: int): nat {
    if n >= 0 then n else -1 - n
  }

  function IntXor(a: int, b: int): int
    decreases Magnitude(a) + Magnitude(b)
  {
    if Magnitude(a) == 0 && Magnitude(b) == 0 then if a == b then 0 else -1
    else 2 * IntXor(a / 2, b / 2) + if a % 2 != b % 2 then 1 else 0
  }

  lemma XorHalves(a: int, b: int)
    ensures IntXor(a, b) == 2 * IntXor(a / 2, b / 2) + if a % 2 != b % 2 then 1 else 0
  {
    if Magnitude(a) == 0 && Magnitude(b) == 0 {
      assert a / 2 == a && b / 2 == b;
    }
  }

  lemma HalfSmaller(n: int)
    ensures Magnitude(n / 2) <= Magnitude(n) && (Magnitude(n) > 0 ==> Magnitude(n / 2) < Magnitude(n))
  {
  }

  lemma SameInteger(a: int, b: int)
    requires a / 2 == b / 2 && a % 2 == b % 2
    ensures a == b
  {
  }

  lemma SameHalves(a: int, b: int, c: int, x: int, y: int)
    requires 2 * x + (if a % 2 != c % 2 then 1 else 0) == 2 * y + if b % 2 != c % 2 then 1 else 0
    ensures x == y && a % 2 == b % 2
  {
  }

  lemma {:induction false} XorInjective(a: int, b: int, c: int)
    requires IntXor(a, c) == IntXor(b, c)
    ensures a == b
    decreases Magnitude(a) + Magnitude(b) + Magnitude(c)
  {
    if Magnitude(a) + Magnitude(b) + Magnitude(c) > 0 {
      XorHalves(a, c);
      XorHalves(b, c);
      SameHalves(a, b, c, IntXor(a / 2, c / 2), IntXor(b / 2, c / 2));
      HalfSmaller(a);
      HalfSmaller(b);
      HalfSmaller(c);
      XorInjective(a / 2, b / 2, c / 2);
      SameInteger(a, b);
    }
  }

  /** On words of one width it is the bitwise one. */
  lemma {:induction false} XorOfWords(a: Bits, b: Bits)
    requires |a| == |b|
    ensures IntXor(FromBits(a), FromBits(b)) == FromBits(Xor(a, b))
  {
    if a == [] {
    } else {
      var a', b' := a[..|a| - 1], b[..|b| - 1];
      XorOfWords(a', b');
      XorHalves(FromBits(a), FromBits(b));
      assert FromBits(a) / 2 == FromBits(a') && FromBits(b) / 2 == FromBits(b');
      assert Xor(a, b)[..|a| - 1] == Xor(a', b');
    }
  }

  /** Whatever the size and sign: every bit is the exclusive or of the two bits in its place. */
  lemma {:induction false} XorBits(a: int, b: int, width: nat)
    ensures ToBits(IntXor(a, b), width) == Xor(ToBits(a, width), ToBits(b, width))
    decreases width
  {
    if width == 0 {
    } else {
      XorHalves(a, b);
      XorBits(a / 2, b / 2, width - 1);
      assert IntXor(a, b) / 2 == IntXor(a / 2, b / 2);
    }
  }

  /** Adding a power of two to a smaller number sets exactly the bit it names. */
  lemma {:induction false} SetBit(k: nat, j: nat, width: nat)
    requires k < width && j < Pow2(k)
    ensures ToBits(Pow2(k) + j, width) == ToBits(j, width)[width - 1 - k := true]
    ensures !ToBits(j, width)[width - 1 - k]
  {
    if k == 0 {
    } else {
      SetBit(k - 1, j / 2, width - 1);
      assert (Pow2(k) + j) / 2 == Pow2(k - 1) + j / 2;
    }
  }

  lemma {:induction false} ToBitsZero(width: nat)
    ensures ToBits(0, width) == Zeros(width)
  {
    if width == 0 {
    } else {
      ToBitsZero(width - 1);
    }
  }

  lemma SetBitXor(k: nat, j: nat, width: nat)
    requires k < width && j < Pow2(k)
    ensures ToBits(Pow2(k) + j, width) == Xor(ToBits(Pow2(k), width), ToBits(j, width))
  {
    SetBit(k, 0, width);
    ToBitsZero(width);
    SetBit(k, j, width);
  }
}
