/** The shift register behind a CRC: one bit at a time, most significant bit first. */
module CrcRegister {
  import opened Bits

  /** One shift with feedback and no data bit. */
  function Step(poly: Bits, r: Bits): (s: Bits)
    requires |r| == |poly| >= 1
    ensures |s| == |poly|
  {
    var shifted := r[1..] + [false];
    if r[0] then Xor(shifted, poly) else shifted
  }

  function Steps(poly: Bits, r: Bits, n: nat): (s: Bits)
    requires |r| == |poly| >= 1
    ensures |s| == |poly|
    decreases n, poly
  {
    if n == 0 then r else Steps(poly, Step(poly, r), n - 1)
  }

  /** One shift that also consumes a data bit: the bit joins the outgoing end. */
  function ShiftIn(poly: Bits, r: Bits, bit: bool): (s: Bits)
    requires |r| == |poly| >= 1
    ensures |s| == |poly|
  {
    Step(poly, r[0 := r[0] != bit])
  }

  /** The reference register: the data is consumed one bit at a time. */
  function Feed(poly: Bits, r: Bits, data: Bits): (s: Bits)
    requires |r| == |poly| >= 1
    ensures |s| == |poly|
    decreases |data|
  {
    if data == [] then r else Feed(poly, ShiftIn(poly, r, data[0]), data[1..])
  }

  lemma StepLinear(poly: Bits, a: Bits, b: Bits)
    requires |a| == |b| == |poly| >= 1
    ensures Step(poly, Xor(a, b)) == Xor(Step(poly, a), Step(poly, b))
  {
  }

  lemma {:induction false} StepsLinear(poly: Bits, a: Bits, b: Bits, n: nat)
    requires |a| == |b| == |poly| >= 1
    ensures Steps(poly, Xor(a, b), n) == Xor(Steps(poly, a, n), Steps(poly, b, n))
    decreases n
  {
    if n == 0 {
    } else {
      StepLinear(poly, a, b);
      StepsLinear(poly, Step(poly, a), Step(poly, b), n - 1);
    }
  }

  lemma {:induction false} StepsAdd(poly: Bits, r: Bits, m: nat, n: nat)
    requires |r| == |poly| >= 1
    ensures Steps(poly, r, m + n) == Steps(poly, Steps(poly, r, m), n)
    decreases m
  {
    if m == 0 {
    } else {
      StepsAdd(poly, Step(poly, r), m - 1, n);
    }
  }

  /** Leading zeros are shifted out without feedback. */
  lemma {:induction false} StepsLeadingZeros(poly: Bits, k: nat, low: Bits)
    requires k + |low| == |poly| >= 1
    ensures Steps(poly, Zeros(k) + low, k) == low + Zeros(k)
    decreases k
  {
    if k == 0 {
      assert Zeros(k) + low == low == low + Zeros(k);
    } else {
      var r := Zeros(k) + low;
      assert Step(poly, r) == Zeros(k - 1) + (low + [false]);
      StepsLeadingZeros(poly, k - 1, low + [false]);
      assert low + [false] + Zeros(k - 1) == low + Zeros(k);
    }
  }

  lemma {:induction false} FeedAppend(poly: Bits, r: Bits, d: Bits, e: Bits)
    requires |r| == |poly| >= 1
    ensures Feed(poly, r, d + e) == Feed(poly, Feed(poly, r, d), e)
    decreases |d|
  {
    if d == [] {
      assert d + e == e;
    } else {
      assert (d + e)[1..] == d[1..] + e;
      FeedAppend(poly, ShiftIn(poly, r, d[0]), d[1..], e);
    }
  }

  /** The register is linear in its start value and the data together. */
  lemma {:induction false} FeedLinear(poly: Bits, r: Bits, s: Bits, d: Bits, e: Bits)
    requires |r| == |s| == |poly| >= 1 && |d| == |e|
    ensures Feed(poly, Xor(r, s), Xor(d, e)) == Xor(Feed(poly, r, d), Feed(poly, s, e))
    decreases |d|
  {
    if d == [] {
    } else {
      var r', s' := r[0 := r[0] != d[0]], s[0 := s[0] != e[0]];
      assert Xor(r, s)[0 := Xor(r, s)[0] != Xor(d, e)[0]] == Xor(r', s');
      StepLinear(poly, r', s');
      assert Xor(d, e)[1..] == Xor(d[1..], e[1..]);
      FeedLinear(poly, Step(poly, r'), Step(poly, s'), d[1..], e[1..]);
    }
  }

  lemma SplitFirst(r: Bits, d: Bits)
    requires 1 <= |d| <= |r|
    ensures Xor(r, d + Zeros(|r| - |d|))
         == Xor(r[0 := r[0] != d[0]], [false] + d[1..] + Zeros(|r| - |d|))
  {
  }

  lemma StepFree(poly: Bits, low: Bits)
    requires 1 + |low| == |poly|
    ensures Step(poly, [false] + low) == low + [false]
  {
  }

  /** Up to a whole register of data may be combined with the register before shifting. */
  lemma {:induction false} FeedIsSteps(poly: Bits, r: Bits, d: Bits)
    requires |r| == |poly| >= 1 && |d| <= |poly|
    ensures Feed(poly, r, d) == Steps(poly, Xor(r, d + Zeros(|poly| - |d|)), |d|)
    decreases |d|
  {
    var w := |poly|;
    if d == [] {
      assert Xor(r, d + Zeros(w)) == r;
    } else {
      var first, low := r[0 := r[0] != d[0]], d[1..] + Zeros(w - |d|);
      SplitFirst(r, d);
      assert [false] + d[1..] + Zeros(w - |d|) == [false] + low;
      StepLinear(poly, first, [false] + low);
      StepFree(poly, low);
      assert low + [false] == d[1..] + Zeros(w - |d[1..]|);
      FeedIsSteps(poly, Step(poly, first), d[1..]);
    }
  }

  lemma {:induction false} FeedZeros(poly: Bits, n: nat)
    requires |poly| >= 1
    ensures Feed(poly, Zeros(|poly|), Zeros(n)) == Zeros(|poly|)
  {
    if n == 0 {
    } else {
      var z := Zeros(|poly|);
      assert z[0 := z[0] != Zeros(n)[0]] == z;
      assert ShiftIn(poly, z, Zeros(n)[0]) == z;
      assert Zeros(n)[1..] == Zeros(n - 1);
      FeedZeros(poly, n - 1);
    }
  }
}
