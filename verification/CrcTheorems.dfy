/**
 What a CRC is for. Its value is a remainder of polynomial division, and it catches every
 burst of errors no longer than its width exactly when its polynomial ends in a one bit.
 */
module CrcTheorems {
  import opened Prelude
  import opened Bits
  import opened CrcRegister
  import opened CrcPolynomial
  import opened Crc
  import opened Integers

  /**
   Before the final xor the checksum of an n-byte message is the one remainder of
   init * x^(8n) + message * x^w on division by x^w + polynomial.
   */
  lemma ChecksumIsTheRemainder(poly: Bits, init: Bits, m: seq<Byte>, r: Poly)
    requires |init| == |poly| >= 1
    ensures IsRemainder(Dividend(|poly|, init, MessageBits(m)), Generator(poly), |poly|, r)
       <==> r == Value(Register(poly, init, m))
  {
    FeedIsRemainder(poly, init, MessageBits(m));
    var g, w, a := Generator(poly), |poly|, Dividend(|poly|, init, MessageBits(m));
    forall e | e in g ensures e <= w { if e != w { ValueAt(poly, e); } }
    if IsRemainder(a, g, w, r) {
      RemainderUnique(a, g, w, r, Value(Register(poly, init, m)));
    }
  }

  /** The bits of a message are those of the number that its bytes write, the first byte in front. */
  lemma {:induction false} MessageNumber(m: seq<Byte>)
    ensures FromBits(MessageBits(m)) == IntFromBytes(m)
  {
    if m == [] {
    } else {
      MessageNumber(m[1..]);
      OneByteMore(m[0], m[1..]);
      assert m == [m[0]] + m[1..];
    }
  }

  lemma OctetNumber(byte: Byte)
    ensures FromBits(Octet(byte)) == byte && IntFromBytes([byte]) == byte
  {
    assert Pow2(8) == 256 by { assert Pow2(4) == 16; }
    FromToBits(byte, BYTE_BITS);
    assert [byte][..0] == [];
  }

  lemma OneByteMore(byte: Byte, m: seq<Byte>)
    ensures FromBits(Octet(byte) + MessageBits(m)) == byte * Pow256(|m|) + FromBits(MessageBits(m))
    ensures IntFromBytes([byte] + m) == byte * Pow256(|m|) + IntFromBytes(m)
  {
    OctetNumber(byte);
    FromBitsAppend(Octet(byte), MessageBits(m));
    IntFromBytesAppend([byte], m);
    PowersOfBytes(|m|);
  }

  lemma {:induction false} PowersOfBytes(n: nat)
    ensures Pow2(8 * n) == Pow256(n)
  {
    if n == 0 {
    } else {
      PowersOfBytes(n - 1);
      EightDoublings(8 * n);
    }
  }

  lemma EightDoublings(k: nat)
    requires k >= 8
    ensures Pow2(k) == 256 * Pow2(k - 8)
  {
    assert Pow2(k) == 4 * Pow2(k - 2) && Pow2(k - 2) == 4 * Pow2(k - 4);
    assert Pow2(k - 4) == 4 * Pow2(k - 6) && Pow2(k - 6) == 4 * Pow2(k - 8);
  }

  /** The linearity of the table that a built CRC holds. */
  lemma TableLinear(crc: CRC, a: Byte, b: Byte)
    requires crc.Valid()
    ensures var ab := FromBits(Xor(Octet(a), Octet(b)));
      ab < 256 && crc.table[ab] == Xor(crc.table[a], crc.table[b])
  {
    var word := Xor(Octet(a), Octet(b));
    assert Pow2(8) == 256 by { assert Pow2(4) == 16; }
    ToFromBits(word);
    EntryLinear(crc.polynomial, BYTE_BITS, a, b, FromBits(word));
  }

  /** d and e agree outside the bits from..from+w. */
  predicate DifferWithin(d: Bits, e: Bits, from: nat, w: nat) {
    |d| == |e| && forall i :: 0 <= i < |d| && !(from <= i < from + w) ==> d[i] == e[i]
  }

  /** Different messages that differ only inside one window of w bits get different checksums. */
  ghost predicate DetectsBursts(poly: Bits)
    requires |poly| >= 8
  {
    forall init: int, xorOut: int, m: seq<Byte>, n: seq<Byte>, from: nat
      | |m| == |n| && m != n
        && DifferWithin(MessageBits(m), MessageBits(n), from, |poly|)
      :: Checksum(poly, init, xorOut, m) != Checksum(poly, init, xorOut, n)
  }

  /** With a one at the end of the polynomial a shift loses nothing. */
  lemma StepInjective(poly: Bits, r: Bits)
    requires |r| == |poly| >= 1 && poly[|poly| - 1] && Step(poly, r) == Zeros(|poly|)
    ensures r == Zeros(|poly|)
  {
    var w, s := |poly|, Step(poly, r);
    assert !s[w - 1];
    assert s == r[1..] + [false];
    forall i | 0 <= i < w ensures !r[i] {
      if i > 0 { assert s[i - 1] == r[i]; }
    }
  }

  lemma {:induction false} StepsInjective(poly: Bits, r: Bits, n: nat)
    requires |r| == |poly| >= 1 && poly[|poly| - 1] && Steps(poly, r, n) == Zeros(|poly|)
    ensures r == Zeros(|poly|)
    decreases n
  {
    if n == 0 {
    } else {
      StepsInjective(poly, Step(poly, r), n - 1);
      StepInjective(poly, r);
    }
  }

  lemma {:induction false} FeedOfZeros(poly: Bits, r: Bits, n: nat)
    requires |r| == |poly| >= 1
    ensures Feed(poly, r, Zeros(n)) == Steps(poly, r, n)
    decreases n
  {
    if n == 0 {
    } else {
      assert r[0 := r[0] != Zeros(n)[0]] == r;
      assert Zeros(n)[1..] == Zeros(n - 1);
      FeedOfZeros(poly, Step(poly, r), n - 1);
    }
  }

  lemma XorZeroLeft(a: Bits)
    ensures Xor(Zeros(|a|), a) == a
  {
  }

  lemma FeedFromZero(poly: Bits, data: Bits, aligned: Bits)
    requires 1 <= |poly| && |data| <= |poly| && aligned == data + Zeros(|poly| - |data|)
    ensures Feed(poly, Zeros(|poly|), data) == Steps(poly, aligned, |data|)
  {
    FeedIsSteps(poly, Zeros(|poly|), data);
    XorZeroLeft(aligned);
  }

  lemma AlignedIsZero(poly: Bits, data: Bits, aligned: Bits)
    requires |poly| >= 1 && poly[|poly| - 1] && |data| <= |poly| && aligned == data + Zeros(|poly| - |data|)
    requires Feed(poly, Zeros(|poly|), data) == Zeros(|poly|)
    ensures aligned == Zeros(|poly|)
  {
    FeedFromZero(poly, data, aligned);
    StepsInjective(poly, aligned, |data|);
  }

  lemma AlignedBurst(poly: Bits, burst: Bits)
    requires |poly| >= 1 && poly[|poly| - 1] && |burst| <= |poly|
    requires Feed(poly, Zeros(|poly|), burst) == Zeros(|poly|)
    ensures burst == Zeros(|burst|)
  {
    var aligned := burst + Zeros(|poly| - |burst|);
    AlignedIsZero(poly, burst, aligned);
    assert forall i :: 0 <= i < |burst| ==> aligned[i] == burst[i];
  }

  lemma ShiftedBurst(poly: Bits, before: nat, burst: Bits, after: nat)
    requires |poly| >= 1 && poly[|poly| - 1] && |burst| <= |poly|
    requires Feed(poly, Zeros(|poly|), Zeros(before) + burst + Zeros(after)) == Zeros(|poly|)
    ensures burst == Zeros(|burst|)
  {
    var z := Zeros(|poly|);
    FeedAppend(poly, z, Zeros(before) + burst, Zeros(after));
    FeedAppend(poly, z, Zeros(before), burst);
    FeedZeros(poly, before);
    FeedOfZeros(poly, Feed(poly, z, burst), after);
    StepsInjective(poly, Feed(poly, z, burst), after);
    AlignedBurst(poly, burst);
  }

  lemma CutWindow(d: Bits, from: nat, w: nat) returns (before: nat, burst: Bits, after: nat)
    requires DifferWithin(d, Zeros(|d|), from, w)
    ensures |burst| <= w && d == Zeros(before) + burst + Zeros(after)
  {
    before := if from <= |d| then from else |d|;
    var end := if from + w <= |d| then from + w else |d|;
    burst, after := d[before..end], |d| - end;
  }

  lemma ZerosJoin(a: nat, b: nat, c: nat)
    ensures Zeros(a) + Zeros(b) + Zeros(c) == Zeros(a + b + c)
  {
  }

  /** An error pattern confined to a window no wider than the register never cancels out. */
  lemma BurstLeavesTrace(poly: Bits, d: Bits, from: nat)
    requires |poly| >= 1 && poly[|poly| - 1]
    requires DifferWithin(d, Zeros(|d|), from, |poly|)
    requires Feed(poly, Zeros(|poly|), d) == Zeros(|poly|)
    ensures d == Zeros(|d|)
  {
    var before, burst, after := CutWindow(d, from, |poly|);
    ShiftedBurst(poly, before, burst, after);
    ZerosJoin(before, |burst|, after);
  }

  lemma {:induction false} MessageBitsInjective(m: seq<Byte>, n: seq<Byte>)
    requires |m| == |n| && MessageBits(m) == MessageBits(n)
    ensures m == n
  {
    if m == [] {
    } else {
      assert Pow2(8) == 256 by { assert Pow2(4) == 16; }
      assert MessageBits(m)[..8] == Octet(m[0]) && MessageBits(n)[..8] == Octet(n[0]);
      FromToBits(m[0], BYTE_BITS);
      FromToBits(n[0], BYTE_BITS);
      assert MessageBits(m)[8..] == MessageBits(m[1..]);
      assert MessageBits(n)[8..] == MessageBits(n[1..]);
      MessageBitsInjective(m[1..], n[1..]);
    }
  }

  lemma {:induction false} BytesFor(d: Bits) returns (m: seq<Byte>)
    requires |d| % 8 == 0
    ensures MessageBits(m) == d
    decreases |d|
  {
    if d == [] {
      m := [];
    } else {
      assert Pow2(8) == 256 by { assert Pow2(4) == 16; }
      ToFromBits(d[..8]);
      var rest := BytesFor(d[8..]);
      m := [FromBits(d[..8])] + rest;
      assert m[1..] == rest;
      assert Octet(m[0]) == d[..8];
    }
  }

  lemma XorZero(a: Bits, b: Bits)
    requires |a| == |b|
    ensures Xor(a, b) == Zeros(|a|) <==> a == b
  {
    if Xor(a, b) == Zeros(|a|) {
      forall i | 0 <= i < |a| ensures a[i] == b[i] {
        assert !Xor(a, b)[i];
      }
    }
  }

  /** The final xor and the start value do not matter to which errors go undetected. */
  lemma ChecksumsEqual(poly: Bits, init: int, xorOut: int, m: seq<Byte>, n: seq<Byte>)
    requires |poly| >= 1 && |m| == |n| >= 1
    ensures Checksum(poly, init, xorOut, m) == Checksum(poly, init, xorOut, n)
       <==> Feed(poly, Zeros(|poly|), Xor(MessageBits(m), MessageBits(n))) == Zeros(|poly|)
  {
    var start := ToBits(init, |poly|);
    if Checksum(poly, init, xorOut, m) == Checksum(poly, init, xorOut, n) {
      XorInjective(Remainder(poly, init, m), Remainder(poly, init, n), xorOut);
    }
    ToFromBits(Register(poly, start, m));
    ToFromBits(Register(poly, start, n));
    XorZero(Register(poly, start, m), Register(poly, start, n));
    FeedLinear(poly, start, start, MessageBits(m), MessageBits(n));
    XorZero(start, start);
  }

  lemma DividesIff(poly: Bits, d: Bits)
    requires |poly| >= 1
    ensures IsRemainder(MulXn(Value(d), |poly|), Generator(poly), |poly|, {})
       <==> Feed(poly, Zeros(|poly|), d) == Zeros(|poly|)
  {
    var w, g, z := |poly|, Generator(poly), Zeros(|poly|);
    var r := Feed(poly, z, d);
    FeedIsRemainder(poly, z, d);
    assert Dividend(w, z, d) == MulXn(Value(d), w);
    forall e | e in g ensures e <= w { if e != w { ValueAt(poly, e); } }
    if IsRemainder(MulXn(Value(d), w), g, w, {}) {
      RemainderUnique(MulXn(Value(d), w), g, w, {}, Value(r));
    }
    NoTerms(r);
  }

  lemma NoTerms(r: Bits)
    ensures Value(r) == {} <==> r == Zeros(|r|)
  {
    forall i | 0 <= i < |r| ensures r[i] <==> |r| - 1 - i in Value(r) {
      ValueAt(r, |r| - 1 - i);
    }
  }

  /**
   Exactly which errors go undetected: those that the generator divides, once they are shifted
   by the width.
   */
  lemma UndetectedIff(poly: Bits, init: int, xorOut: int, m: seq<Byte>, n: seq<Byte>)
    requires |poly| >= 1 && |m| == |n| >= 1
    ensures Checksum(poly, init, xorOut, m) == Checksum(poly, init, xorOut, n)
       <==> IsRemainder(MulXn(Value(Xor(MessageBits(m), MessageBits(n))), |poly|), Generator(poly), |poly|, {})
  {
    ChecksumsEqual(poly, init, xorOut, m, n);
    DividesIff(poly, Xor(MessageBits(m), MessageBits(n)));
  }

  lemma BurstsDetected(poly: Bits)
    requires |poly| >= 8 && poly[|poly| - 1]
    ensures DetectsBursts(poly)
  {
    forall init: int, xorOut: int, m: seq<Byte>, n: seq<Byte>, from: nat
      | |m| == |n| && m != n
        && DifferWithin(MessageBits(m), MessageBits(n), from, |poly|)
      ensures Checksum(poly, init, xorOut, m) != Checksum(poly, init, xorOut, n)
    {
      var d := Xor(MessageBits(m), MessageBits(n));
      ChecksumsEqual(poly, init, xorOut, m, n);
      if Feed(poly, Zeros(|poly|), d) == Zeros(|poly|) {
        BurstLeavesTrace(poly, d, from);
        XorZero(MessageBits(m), MessageBits(n));
        MessageBitsInjective(m, n);
      }
    }
  }

  /** With a zero at the end of the polynomial, one nonzero word is shifted out without trace. */
  lemma LostWord(poly: Bits) returns (d: Bits)
    requires |poly| >= 1 && !poly[|poly| - 1]
    ensures |d| == |poly| && d[0]
    ensures Feed(poly, Zeros(|poly|), d) == Zeros(|poly|)
  {
    var w, z := |poly|, Zeros(|poly|);
    d := [true] + poly[..w - 1];
    assert d[1..] + [false] == poly;
    XorZero(poly, poly);
    FeedIsSteps(poly, z, d);
    assert d + Zeros(0) == d;
    XorZeroLeft(d);
    FeedOfZeros(poly, z, w - 1);
    FeedZeros(poly, w - 1);
  }

  lemma BurstMissed(poly: Bits)
    requires |poly| >= 8 && |poly| % 8 == 0 && !poly[|poly| - 1]
    ensures !DetectsBursts(poly)
  {
    var z := Zeros(|poly|);
    var d := LostWord(poly);
    var m := BytesFor(d);
    var n := BytesFor(z);
    assert |m| == |n| && MessageBits(m)[0] != MessageBits(n)[0];
    assert Xor(d, z) == d;
    ChecksumsEqual(poly, 0, 0, m, n);
    assert DifferWithin(MessageBits(m), MessageBits(n), 0, |poly|);
  }

  /** Every burst of at most w bits is detected if and only if the constant term is one. */
  lemma BurstDetection(poly: Bits)
    requires |poly| >= 8 && |poly| % 8 == 0
    ensures DetectsBursts(poly) <==> poly[|poly| - 1]
  {
    if poly[|poly| - 1] {
      BurstsDetected(poly);
    } else {
      BurstMissed(poly);
    }
  }
}
