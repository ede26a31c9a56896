/** The other classical guarantee of a CRC: errors in an odd number of bits. */
module CrcParity {
  import opened Prelude
  import opened Bits
  import opened CrcRegister
  import opened CrcPolynomial
  import opened Crc
  import opened CrcTheorems

  /** An odd number of ones. */
  predicate Odd(b: Bits) {
    b != [] && b[0] != Odd(b[1..])
  }

  lemma {:induction false} OddAppend(a: Bits, b: Bits)
    ensures Odd(a + b) == (Odd(a) != Odd(b))
    decreases |a|
  {
    if a == [] {
      assert a + b == b;
    } else {
      assert (a + b)[1..] == a[1..] + b;
      OddAppend(a[1..], b);
    }
  }

  lemma {:induction false} OddXor(a: Bits, b: Bits)
    requires |a| == |b|
    ensures Odd(Xor(a, b)) == (Odd(a) != Odd(b))
    decreases |a|
  {
    if a == [] {
      assert Xor(a, b) == [];
    } else {
      assert Xor(a, b)[1..] == Xor(a[1..], b[1..]);
      OddXor(a[1..], b[1..]);
    }
  }

  lemma {:induction false} ZerosNotOdd(n: nat)
    ensures !Odd(Zeros(n))
  {
    if n == 0 {
    } else {
      assert Zeros(n)[1..] == Zeros(n - 1);
      ZerosNotOdd(n - 1);
    }
  }

  lemma OddFlip(r: Bits, bit: bool)
    requires r != []
    ensures Odd(r[0 := r[0] != bit]) == (Odd(r) != bit)
  {
    assert r[0 := r[0] != bit][1..] == r[1..];
  }

  /** A shift with an odd polynomial as feedback keeps the parity. */
  lemma StepParity(poly: Bits, r: Bits)
    requires |r| == |poly| >= 1 && Odd(poly)
    ensures Odd(Step(poly, r)) == Odd(r)
  {
    var shifted := r[1..] + [false];
    OddAppend(r[1..], [false]);
    assert !Odd([false]);
    if r[0] { OddXor(shifted, poly); }
  }

  /** So the register has the parity of what it has taken in. */
  lemma {:induction false} FeedParity(poly: Bits, r: Bits, d: Bits)
    requires |r| == |poly| >= 1 && Odd(poly)
    ensures Odd(Feed(poly, r, d)) == (Odd(r) != Odd(d))
    decreases |d|
  {
    if d == [] {
    } else {
      var flipped := r[0 := r[0] != d[0]];
      OddFlip(r, d[0]);
      StepParity(poly, flipped);
      FeedParity(poly, Step(poly, flipped), d[1..]);
    }
  }

  /** Messages that differ in an odd number of bits get different checksums. */
  ghost predicate DetectsOddErrors(poly: Bits)
    requires |poly| >= 8
  {
    forall init: int, xorOut: int, m: seq<Byte>, n: seq<Byte>
      | |m| == |n| && Odd(Xor(MessageBits(m), MessageBits(n)))
      :: Checksum(poly, init, xorOut, m) != Checksum(poly, init, xorOut, n)
  }

  lemma OddErrorsDetected(poly: Bits)
    requires |poly| >= 8 && Odd(poly)
    ensures DetectsOddErrors(poly)
  {
    forall init: int, xorOut: int, m: seq<Byte>, n: seq<Byte>
      | |m| == |n| && Odd(Xor(MessageBits(m), MessageBits(n)))
      ensures Checksum(poly, init, xorOut, m) != Checksum(poly, init, xorOut, n)
    {
      var d, z := Xor(MessageBits(m), MessageBits(n)), Zeros(|poly|);
      assert m != [];
      ChecksumsEqual(poly, init, xorOut, m, n);
      FeedParity(poly, z, d);
      ZerosNotOdd(|poly|);
    }
  }

  /** The generator itself, as an error, leaves no trace. */
  lemma GeneratorCancels(poly: Bits, before: nat)
    requires |poly| >= 1
    ensures Feed(poly, Zeros(|poly|), Zeros(before) + ([true] + poly)) == Zeros(|poly|)
  {
    var z := Zeros(|poly|);
    FeedAppend(poly, z, Zeros(before), [true] + poly);
    FeedZeros(poly, before);
    FeedAppend(poly, z, [true], poly);
    OneBit(poly);
    FeedIsSteps(poly, poly, poly);
    assert poly + Zeros(0) == poly;
    XorZero(poly, poly);
    FeedOfZeros(poly, z, |poly|);
    FeedZeros(poly, |poly|);
  }

  /** A single one fed into the empty register leaves the polynomial. */
  lemma OneBit(poly: Bits)
    requires |poly| >= 1
    ensures Feed(poly, Zeros(|poly|), [true]) == poly
  {
    var z, one := Zeros(|poly|), [true];
    var r := z[0 := true];
    assert r[1..] + [false] == z;
    assert Xor(z, poly) == poly;
    assert one[1..] == [] && z[0 := z[0] != one[0]] == r;
    assert Feed(poly, Step(poly, r), []) == Step(poly, r);
  }

  lemma GeneratorOdd(poly: Bits, before: nat)
    requires !Odd(poly)
    ensures Odd(Zeros(before) + ([true] + poly))
  {
    OddAppend(Zeros(before), [true] + poly);
    ZerosNotOdd(before);
    OddAppend([true], poly);
    assert [true][1..] == [];
  }

  /** An odd error whose register stays empty goes undetected. */
  lemma ErrorMissed(poly: Bits, d: Bits)
    requires |poly| >= 8 && |d| % 8 == 0 && Odd(d) && Feed(poly, Zeros(|poly|), d) == Zeros(|poly|)
    ensures !DetectsOddErrors(poly)
  {
    var m := BytesFor(d);
    var n := BytesFor(Zeros(|d|));
    assert Xor(d, Zeros(|d|)) == d;
    ChecksumsEqual(poly, 0, 0, m, n);
    assert Odd(Xor(MessageBits(m), MessageBits(n)));
  }

  lemma OddErrorMissed(poly: Bits)
    requires |poly| >= 8 && |poly| % 8 == 0 && !Odd(poly)
    ensures !DetectsOddErrors(poly)
  {
    GeneratorCancels(poly, 7);
    GeneratorOdd(poly, 7);
    ErrorMissed(poly, Zeros(7) + ([true] + poly));
  }

  lemma OneMore(p: Poly, e: nat)
    requires e !in p
    ensures |p + {e}| == |p| + 1
  {
  }

  lemma Parities(n: nat)
    ensures (n + 1) % 2 == 0 <==> n % 2 == 1
  {
  }

  lemma {:induction false} CountOdd(b: Bits)
    ensures |Value(b)| % 2 == 1 <==> Odd(b)
  {
    if b == [] {
      assert Value(b) == {};
    } else {
      var rest := Value(b[1..]);
      CountOdd(b[1..]);
      FirstTerm(b);
      OneMore(rest, |b| - 1);
      Parities(|rest|);
    }
  }

  lemma FirstTerm(b: Bits)
    requires b != []
    ensures Value(b) == (if b[0] then Value(b[1..]) + {|b| - 1} else Value(b[1..])) && |b| - 1 !in Value(b[1..])
  {
    var rest := b[1..];
    forall e ensures e in Value(b) <==> e in Value(rest) || (b[0] && e == |b| - 1) {
      if e >= 0 {
        ValueAt(b, e);
        ValueAt(rest, e);
      }
    }
    ValueAt(rest, |b| - 1);
  }

  /** The generator has an even number of terms exactly when the polynomial has an odd number of ones. */
  lemma EvenTerms(poly: Bits)
    ensures |Generator(poly)| % 2 == 0 <==> Odd(poly)
  {
    CountOdd(poly);
    ValueAt(poly, |poly|);
    OneMore(Value(poly), |poly|);
    Parities(|Value(poly)|);
  }

  /**
   Every error in an odd number of bits is detected if and only if the generator has an even
   number of terms.
   */
  lemma OddErrorDetection(poly: Bits)
    requires |poly| >= 8 && |poly| % 8 == 0
    ensures DetectsOddErrors(poly) <==> |Generator(poly)| % 2 == 0
  {
    EvenTerms(poly);
    if Odd(poly) {
      OddErrorsDetected(poly);
    } else {
      OddErrorMissed(poly);
    }
  }
}
