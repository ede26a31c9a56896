/**
 Polynomials over GF(2), as finite sets of the exponents with coefficient one, and the
 theorem that a CRC register holds a remainder of polynomial division.
 */
module CrcPolynomial {
  import opened Bits
  import opened CrcRegister

  type Poly = set<nat>

  function Add(p: Poly, q: Poly): Poly {
    (p - q) + (q - p)
  }

  /** x times p. */
  function MulX(p: Poly): Poly {
    set e | e in p :: e + 1
  }

  /** x^n times p. */
  function MulXn(p: Poly, n: nat): Poly {
    set e | e in p :: e + n
  }

  /** The polynomial whose coefficients are the bits, highest degree first. */
  function Value(b: Bits): Poly {
    set i | 0 <= i < |b| && b[i] :: |b| - 1 - i
  }

  /** The product of g and the polynomial with coefficients q, by Horner's rule. */
  function Times(q: Bits, g: Poly): Poly {
    if q == [] then {}
    else
      var high := MulX(Times(q[..|q| - 1], g));
      if q[|q| - 1] then Add(high, g) else high
  }

  /** r is what division of a by the degree-w polynomial g leaves over. */
  ghost predicate IsRemainder(a: Poly, g: Poly, w: nat, r: Poly) {
    && (forall e :: e in r ==> e < w)
    && exists q: Bits :: a == Add(Times(q, g), r)
  }

  /** The full generator x^w + poly. */
  function Generator(poly: Bits): Poly {
    Value(poly) + {|poly|}
  }

  /** init * x^|data| + data * x^w. */
  function Dividend(w: nat, init: Bits, data: Bits): Poly {
    Add(MulXn(Value(init), |data|), MulXn(Value(data), w))
  }

  lemma ValueAt(b: Bits, e: nat)
    ensures e in Value(b) <==> e < |b| && b[|b| - 1 - e]
  {
    if e < |b| && b[|b| - 1 - e] {
      var i := |b| - 1 - e;
      assert 0 <= i < |b| && b[i] && e == |b| - 1 - i;
    }
  }

  /** The bit of weight 2^e. */
  predicate BitOf(n: nat, e: nat)
    decreases e
  {
    if e == 0 then n % 2 == 1 else BitOf(n / 2, e - 1)
  }

  /** The polynomial of a word has the exponents of the powers of two that make up its number. */
  lemma {:induction false} ValueIsNumber(b: Bits, e: nat)
    ensures e in Value(b) <==> BitOf(FromBits(b), e)
    decreases |b|
  {
    ValueAt(b, e);
    if b == [] {
      NoBits(e);
    } else if e > 0 {
      var front := b[..|b| - 1];
      ValueAt(front, e - 1);
      ValueIsNumber(front, e - 1);
      assert FromBits(b) / 2 == FromBits(front);
    }
  }

  lemma {:induction false} NoBits(e: nat)
    ensures !BitOf(0, e)
  {
    if e == 0 {
    } else {
      NoBits(e - 1);
    }
  }

  lemma MulXAt(p: Poly, e: nat)
    ensures e in MulX(p) <==> e > 0 && e - 1 in p
  {
    if e > 0 && e - 1 in p {
      assert e == (e - 1) + 1;
    }
  }

  lemma MulXnAt(p: Poly, n: nat, e: nat)
    ensures e in MulXn(p, n) <==> e >= n && e - n in p
  {
    if e >= n && e - n in p {
      assert e == (e - n) + n;
    }
  }

  /** A multiple of a degree-w polynomial is zero or has degree at least w. */
  lemma {:induction false} MultipleDegree(q: Bits, g: Poly, w: nat)
    requires w in g && forall e :: e in g ==> e <= w
    ensures Times(q, g) == {} || exists e :: e in Times(q, g) && e >= w
  {
    if q == [] {
    } else {
      var front := Times(q[..|q| - 1], g);
      MultipleDegree(q[..|q| - 1], g, w);
      if front == {} {
        assert MulX(front) == {};
        assert Times(q, g) == {} || w in Times(q, g);
      } else {
        var e :| e in front && e >= w;
        assert e + 1 in Times(q, g);
      }
    }
  }

  lemma AddMulX(p: Poly, q: Poly)
    ensures MulX(Add(p, q)) == Add(MulX(p), MulX(q))
  {
    forall e: nat ensures e in MulX(Add(p, q)) <==> e in Add(MulX(p), MulX(q)) {
      MulXAt(Add(p, q), e);
      MulXAt(p, e);
      MulXAt(q, e);
    }
  }

  /** Multiplication distributes over addition of quotients of one length. */
  lemma {:induction false} TimesXor(q: Bits, s: Bits, g: Poly)
    requires |q| == |s|
    ensures Times(Xor(q, s), g) == Add(Times(q, g), Times(s, g))
  {
    if q == [] {
    } else {
      var n := |q| - 1;
      TimesXor(q[..n], s[..n], g);
      assert Xor(q, s)[..n] == Xor(q[..n], s[..n]);
      AddMulX(Times(q[..n], g), Times(s[..n], g));
    }
  }

  lemma {:induction false} TimesLeadingZeros(n: nat, q: Bits, g: Poly)
    ensures Times(Zeros(n) + q, g) == Times(q, g)
    decreases |q|, n
  {
    var z := Zeros(n) + q;
    if q == [] && n == 0 {
    } else if q != [] {
      assert z[..|z| - 1] == Zeros(n) + q[..|q| - 1];
      TimesLeadingZeros(n, q[..|q| - 1], g);
    } else {
      assert z[..|z| - 1] == Zeros(n - 1) + q;
      TimesLeadingZeros(n - 1, q, g);
    }
  }

  /** Division leaves one remainder only. */
  lemma RemainderUnique(a: Poly, g: Poly, w: nat, r: Poly, s: Poly)
    requires w in g && forall e :: e in g ==> e <= w
    requires IsRemainder(a, g, w, r) && IsRemainder(a, g, w, s)
    ensures r == s
  {
    var p: Bits :| a == Add(Times(p, g), r);
    var q: Bits :| a == Add(Times(q, g), s);
    var p', q' := Zeros(|q|) + p, Zeros(|p|) + q;
    TimesLeadingZeros(|q|, p, g);
    TimesLeadingZeros(|p|, q, g);
    TimesXor(p', q', g);
    MultipleDegree(Xor(p', q'), g, w);
    assert Times(Xor(p', q'), g) == Add(r, s);
  }

  lemma DividendAppend(w: nat, init: Bits, data: Bits, bit: bool)
    ensures Dividend(w, init, data + [bit])
         == Add(MulX(Dividend(w, init, data)), if bit then {w} else {})
  {
    var longer := data + [bit];
    var left, right := Dividend(w, init, longer),
                       Add(MulX(Dividend(w, init, data)), if bit then {w} else {});
    forall e: nat ensures e in left <==> e in right {
      MulXnAt(Value(init), |longer|, e);
      MulXnAt(Value(longer), w, e);
      if e >= w { ValueAt(longer, e - w); }
      MulXAt(Dividend(w, init, data), e);
      if e > 0 {
        MulXnAt(Value(init), |data|, e - 1);
        MulXnAt(Value(data), w, e - 1);
        if e - 1 >= w { ValueAt(data, e - 1 - w); }
      }
    }
  }

  /** One register shift is one step of long division. */
  lemma ShiftInDivides(poly: Bits, r: Bits, bit: bool)
    requires |r| == |poly| >= 1
    ensures var top := r[0] != bit;
      Add(MulX(Value(r)), if bit then {|poly|} else {})
      == Add(if top then Generator(poly) else {}, Value(ShiftIn(poly, r, bit)))
  {
    var w, top, s := |poly|, r[0] != bit, ShiftIn(poly, r, bit);
    var left := Add(MulX(Value(r)), if bit then {w} else {});
    var right := Add(if top then Generator(poly) else {}, Value(s));
    forall e: nat ensures e in left <==> e in right {
      MulXAt(Value(r), e);
      if e > 0 { ValueAt(r, e - 1); }
      ValueAt(s, e);
      ValueAt(poly, e);
    }
  }

  lemma AddShuffle(m: Poly, r: Poly, b: Poly, g: Poly, s: Poly)
    requires Add(r, b) == Add(g, s)
    ensures Add(Add(m, r), b) == Add(Add(m, g), s)
  {
    forall e: nat ensures e in Add(Add(m, r), b) <==> e in Add(Add(m, g), s) {
      assert e in Add(r, b) <==> e in Add(g, s);
    }
  }

  /**
   The register after any data is the remainder of
   init * x^|data| + data * x^w on division by x^w + poly.
   */
  lemma {:induction false} FeedIsRemainder(poly: Bits, init: Bits, data: Bits)
    requires |init| == |poly| >= 1
    ensures IsRemainder(Dividend(|poly|, init, data), Generator(poly), |poly|,
                        Value(Feed(poly, init, data)))
    decreases |data|
  {
    var w, g := |poly|, Generator(poly);
    var end := Feed(poly, init, data);
    forall e | e in Value(end) ensures e < w { ValueAt(end, e); }
    if data == [] {
      assert MulXn(Value(init), 0) == Value(init) by {
        forall e: nat { MulXnAt(Value(init), 0, e); }
      }
      assert MulXn(Value(data), w) == {};
      assert Dividend(w, init, data) == Add(Times([], g), Value(end));
    } else {
      var front, bit := data[..|data| - 1], data[|data| - 1];
      assert data == front + [bit];
      FeedIsRemainder(poly, init, front);
      var r := Feed(poly, init, front);
      var q: Bits :| Dividend(w, init, front) == Add(Times(q, g), Value(r));
      FeedAppend(poly, init, front, [bit]);
      assert Feed(poly, r, [bit]) == ShiftIn(poly, r, bit) by {
        assert [bit][1..] == [];
      }
      var top := r[0] != bit;
      DividendAppend(w, init, front, bit);
      AddMulX(Times(q, g), Value(r));
      ShiftInDivides(poly, r, bit);
      var m := MulX(Times(q, g));
      AddShuffle(m, MulX(Value(r)), if bit then {w} else {}, if top then g else {}, Value(end));
      assert (q + [top])[..|q|] == q;
      assert Times(q + [top], g) == Add(m, if top then g else {});
      assert Dividend(w, init, data) == Add(Times(q + [top], g), Value(end));
    }
  }
}
