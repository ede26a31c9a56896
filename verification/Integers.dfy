/** Non-negative integers as big-endian bytes of least length. */
module Integers {
  import opened Prelude
  import opened Bits

  /** Python's `int.bit_length`. */
  function BitLength(n: nat): nat {
    if n == 0 then 0 else 1 + BitLength(n / 2)
  }

  function Pow256(n: nat): (p: nat)
    ensures p >= 1
  {
    if n == 0 then 1 else 256 * Pow256(n - 1)
  }

  /** Python's `n.to_bytes(length, 'big')`; None is an OverflowError. */
  function ToBytes(n: nat, length: nat): Option<seq<Byte>> {
    if length == 0 then if n == 0 then Some([]) else None
    else
      match ToBytes(n / 256, length - 1)
      case None => None
      case Some(high) => Some(high + [n % 256])
  }

  /** As many bytes as the bits fill, rounded up. */
  function ByteLength(n: nat): nat {
    (BitLength(n) + 7) / 8
  }

  /** `int_to_bytes`. */
  function IntToBytes(n: nat): Option<seq<Byte>> {
    ToBytes(n, ByteLength(n))
  }

  function IntFromBytes(b: seq<Byte>): nat {
    if b == [] then 0 else 256 * IntFromBytes(b[..|b| - 1]) + b[|b| - 1]
  }

  lemma ByteProduct(x: nat, p: nat, y: nat)
    ensures 256 * (x * p + y) == x * (256 * p) + 256 * y
  {
  }

  /** Big-endian: what stands first counts for as many bytes as follow. */
  lemma {:induction false} IntFromBytesAppend(a: seq<Byte>, b: seq<Byte>)
    ensures IntFromBytes(a + b) == IntFromBytes(a) * Pow256(|b|) + IntFromBytes(b)
    decreases |b|
  {
    if b == [] {
      assert a + b == a;
    } else {
      var front := b[..|b| - 1];
      assert (a + b)[..|a + b| - 1] == a + front;
      IntFromBytesAppend(a, front);
      ByteProduct(IntFromBytes(a), Pow256(|front|), IntFromBytes(front));
    }
  }

  lemma {:induction false} ToBytesFits(n: nat, length: nat)
    ensures ToBytes(n, length).Some? <==> n < Pow256(length)
    ensures ToBytes(n, length).Some? ==>
      |ToBytes(n, length).value| == length && IntFromBytes(ToBytes(n, length).value) == n
    decreases length
  {
    if length == 0 {
    } else {
      ToBytesFits(n / 256, length - 1);
      if ToBytes(n, length).Some? {
        var b := ToBytes(n, length).value;
        assert b[..|b| - 1] == ToBytes(n / 256, length - 1).value;
      }
    }
  }

  lemma FourBits(n: nat)
    requires n >= 16
    ensures BitLength(n) == 4 + BitLength(n / 16)
  {
    var a, b, c := n / 2, n / 4, n / 8;
    assert a / 2 == b && b / 2 == c && c / 2 == n / 16;
    assert BitLength(n) == 1 + BitLength(a);
    assert BitLength(b) == 1 + BitLength(c);
  }

  /** Eight bits make a byte. */
  lemma BitLengthByByte(n: nat)
    requires n >= 256
    ensures BitLength(n) == 8 + BitLength(n / 256)
  {
    FourBits(n);
    FourBits(n / 16);
    assert n / 16 / 16 == n / 256;
  }

  lemma {:induction false} BitLengthBound(n: nat, k: nat)
    requires n < Pow2(k)
    ensures BitLength(n) <= k
    decreases k
  {
    if n == 0 {
    } else {
      BitLengthBound(n / 2, k - 1);
    }
  }

  lemma SmallBitLength(n: nat)
    requires 0 < n < 256
    ensures 1 <= BitLength(n) <= 8
  {
    assert Pow2(8) == 256 by { assert Pow2(4) == 16; }
    BitLengthBound(n, 8);
  }

  /** The length chosen is the least that holds n. */
  lemma {:induction false} LengthIsLeast(n: nat)
    ensures var l := ByteLength(n);
      n < Pow256(l) && (n > 0 ==> l > 0 && n >= Pow256(l - 1))
  {
    if n >= 256 {
      LengthIsLeast(n / 256);
      BitLengthByByte(n);
    } else if n > 0 {
      SmallBitLength(n);
      assert Pow256(1) == 256;
    }
  }

  /** Conversion never overflows, is undone by the inverse, and has no shorter alternative. */
  lemma IntRoundTrip(n: nat)
    ensures IntToBytes(n).Some? && IntFromBytes(IntToBytes(n).value) == n
    ensures forall l: nat :: ToBytes(n, l).Some? ==> |IntToBytes(n).value| <= l
  {
    var l := ByteLength(n);
    LengthIsLeast(n);
    ToBytesFits(n, l);
    forall m: nat | ToBytes(n, m).Some? ensures l <= m {
      ToBytesFits(n, m);
      if m < l { Pow256Monotonic(m, l - 1); }
    }
  }

  lemma {:induction false} Pow256Monotonic(a: nat, b: nat)
    requires a <= b
    ensures Pow256(a) <= Pow256(b)
    decreases b - a
  {
    if a < b {
      Pow256Monotonic(a, b - 1);
    }
  }

  lemma {:induction false} FromBytesRange(b: seq<Byte>)
    ensures IntFromBytes(b) < Pow256(|b|)
    ensures b != [] ==> (b[0] != 0 <==> IntFromBytes(b) >= Pow256(|b| - 1))
  {
    if b == [] {
    } else {
      var front := b[..|b| - 1];
      FromBytesRange(front);
      if front == [] { assert IntFromBytes(front) == 0; }
    }
  }

  lemma {:induction false} ToBytesOfFrom(b: seq<Byte>)
    ensures ToBytes(IntFromBytes(b), |b|) == Some(b)
  {
    if b == [] {
    } else {
      var front := b[..|b| - 1];
      ToBytesOfFrom(front);
      assert IntFromBytes(b) / 256 == IntFromBytes(front);
      assert b == front + [b[|b| - 1]];
    }
  }

  /** The length that is chosen for what a byte string without leading zeros stands for. */
  lemma LengthOfBytes(b: seq<Byte>)
    ensures ByteLength(IntFromBytes(b)) == |b| <==> b == [] || b[0] != 0
  {
    var n := IntFromBytes(b);
    var l := ByteLength(n);
    FromBytesRange(b);
    LengthIsLeast(n);
    if b != [] && b[0] != 0 {
      if l < |b| { Pow256Monotonic(l, |b| - 1); }
      if l > |b| { Pow256Monotonic(|b|, l - 1); }
    }
  }

  /** Written in another number of bytes, an integer is another string. */
  lemma OtherLength(b: seq<Byte>, n: nat, length: nat)
    requires length != |b|
    ensures ToBytes(n, length) != Some(b)
  {
    ToBytesFits(n, length);
  }

  /** A byte string comes back from its integer if and only if it has no leading zero byte. */
  lemma BytesRoundTripIff(b: seq<Byte>)
    ensures IntToBytes(IntFromBytes(b)) == Some(b) <==> b == [] || b[0] != 0
  {
    var n := IntFromBytes(b);
    LengthOfBytes(b);
    ToBytesOfFrom(b);
    if ByteLength(n) != |b| {
      OtherLength(b, n, ByteLength(n));
    }
  }
}
