/** What base64 text means: the digits of a number to base 64 for the digits of a number to base 256. */
module Base64Numbers {
  import opened Prelude
  import opened Base64
  import opened Integers

  /** The URL-safe alphabet, section 5 of RFC 4648. */
  const ALPHABET := UPPER + LOWER + DIGITS + "-_"

  const UPPER := "ABCDEFGHIJKLMNOPQRSTUVWXYZ"
  const LOWER := "abcdefghijklmnopqrstuvwxyz"
  const DIGITS := "0123456789"

  lemma LetterIs(v: nat)
    requires v < 26
    ensures UPPER[v] as int == 65 + v && LOWER[v] as int == 97 + v
  {
  }

  lemma DigitIs(v: nat)
    requires v < 10
    ensures DIGITS[v] as int == 48 + v
  {
  }

  /** The character at place v of the alphabet stands for v. */
  lemma SymbolIs(v: nat)
    requires v < 64
    ensures Symbol(v) == ALPHABET[v] as int
  {
    if v < 26 {
      LetterIs(v);
      assert ALPHABET[v] == UPPER[v];
    } else if v < 52 {
      LetterIs(v - 26);
      assert ALPHABET[v] == LOWER[v - 26];
    } else if v < 62 {
      DigitIs(v - 52);
      assert ALPHABET[v] == DIGITS[v - 52];
    } else {
      assert ALPHABET[v] == "-_"[v - 62];
    }
  }

  /** The padding sign and the dot are the characters meant, and stand for no digit. */
  lemma SignsAre()
    ensures EQUALS == '=' as int && DOT == '.' as int
    ensures ValueOf(EQUALS).None? && ValueOf(DOT).None?
  {
  }

  /** What a character stands for; the decoder takes two more characters for the last two places. */
  lemma ValueOfIs(c: Byte, v: nat)
    ensures ValueOf(c) == Some(v) <==>
      v < 64 && (c == ALPHABET[v] as int || (c == '+' as int && v == 62) || (c == '/' as int && v == 63))
  {
    if v < 64 {
      SymbolIs(v);
      SymbolValue(v);
    }
    if ValueOf(c).Some? {
      SymbolIs(ValueOf(c).value);
    }
  }

  function Digit(c: Byte): nat {
    if ValueOf(c).Some? then ValueOf(c).value else 0
  }

  /** The number that characters of the alphabet write, highest digit first. */
  function Number(t: Text): nat {
    if t == [] then 0 else 64 * Number(t[..|t| - 1]) + Digit(t[|t| - 1])
  }

  function Pow64(n: nat): (p: nat)
    ensures p >= 1
  {
    if n == 0 then 1 else 64 * Pow64(n - 1)
  }

  lemma DigitProduct(x: nat, p: nat, y: nat)
    ensures 64 * (x * p + y) == x * (64 * p) + 64 * y
  {
  }

  lemma {:induction false} NumberAppend(a: Text, b: Text)
    ensures Number(a + b) == Number(a) * Pow64(|b|) + Number(b)
    decreases |b|
  {
    if b == [] {
      assert a + b == a;
    } else {
      var front := b[..|b| - 1];
      assert (a + b)[..|a + b| - 1] == a + front;
      NumberAppend(a, front);
      DigitProduct(Number(a), Pow64(|front|), Number(front));
    }
  }

  lemma TwoDigits(v: nat, w: nat)
    requires v < 64 && w < 64
    ensures Number([Symbol(v), Symbol(w)]) == 64 * v + w
  {
    SymbolValue(v);
    SymbolValue(w);
    assert [Symbol(v), Symbol(w)][..1] == [Symbol(v)] && [Symbol(v)][..0] == [];
    assert Number([Symbol(v)]) == v;
  }

  lemma FourDigits(v: nat, w: nat, x: nat, y: nat)
    requires v < 64 && w < 64 && x < 64 && y < 64
    ensures Number([Symbol(v), Symbol(w), Symbol(x), Symbol(y)]) == 262144 * v + 4096 * w + 64 * x + y
  {
    TwoDigits(v, w);
    TwoDigits(x, y);
    NumberAppend([Symbol(v), Symbol(w)], [Symbol(x), Symbol(y)]);
    assert [Symbol(v), Symbol(w)] + [Symbol(x), Symbol(y)] == [Symbol(v), Symbol(w), Symbol(x), Symbol(y)];
    assert Pow64(1) == 64 && Pow64(2) == 4096;
  }

  lemma BytesNumber(a: Byte, b: Byte, c: Byte)
    ensures IntFromBytes([a]) == a && IntFromBytes([a, b]) == 256 * a + b
    ensures IntFromBytes([a, b, c]) == 65536 * a + 256 * b + c
  {
    assert [a, b, c][..2] == [a, b] && [a, b][..1] == [a] && [a][..0] == [];
    assert IntFromBytes([a]) == a;
    assert IntFromBytes([a, b]) == 256 * a + b;
  }

  /** Three bytes are four digits. */
  lemma GroupNumber(a: Byte, b: Byte, c: Byte)
    ensures Number(Group(a, b, c)) == 65536 * a + 256 * b + c
  {
    FourDigits(a / 4, Second(a, b), Third(b, c), c % 64);
  }

  /** The bits that fill the last digit: none, two or four. */
  function Filler(n: nat): nat {
    if n % 3 == 0 then 1 else if n % 3 == 1 then 16 else 4
  }

  lemma SmallPowers()
    ensures Pow64(1) == 64 && Pow64(2) == 4096 && Pow64(3) == 262144 && Pow256(1) == 256 && Pow256(2) == 65536
  {
  }

  lemma OneByteNumber(a: Byte)
    ensures Number([Symbol(a / 4), Symbol(Second(a, 0))]) == a * 16
  {
    TwoDigits(a / 4, Second(a, 0));
  }

  lemma TwoBytesNumber(a: Byte, b: Byte)
    ensures Number([Symbol(a / 4), Symbol(Second(a, b)), Symbol(Third(b, 0))]) == (a * 256 + b) * 4
  {
    var front, last := [Symbol(a / 4), Symbol(Second(a, b))], Symbol(Third(b, 0));
    TwoDigits(a / 4, Second(a, b));
    SymbolValue(Third(b, 0));
    assert (front + [last])[..2] == front && front + [last] == [Symbol(a / 4), Symbol(Second(a, b)), last];
  }

  lemma OneByteShort(a: Byte)
    ensures Number(Plain([a])) == IntFromBytes([a]) * Filler(1)
    ensures Pow64(|Plain([a])|) == Pow256(1) * Filler(1)
  {
    SmallPowers();
    BytesNumber(a, 0, 0);
    OneByteNumber(a);
  }

  lemma TwoBytesShort(a: Byte, b: Byte)
    ensures Number(Plain([a, b])) == IntFromBytes([a, b]) * Filler(2)
    ensures Pow64(|Plain([a, b])|) == Pow256(2) * Filler(2)
  {
    SmallPowers();
    BytesNumber(a, b, 0);
    TwoBytesNumber(a, b);
  }

  lemma ShortNumber(b: Bytes)
    requires |b| < 3
    ensures Number(Plain(b)) == IntFromBytes(b) * Filler(|b|)
    ensures Pow64(|Plain(b)|) == Pow256(|b|) * Filler(|b|)
  {
    if |b| == 1 {
      assert b == [b[0]];
      OneByteShort(b[0]);
    } else if |b| == 2 {
      assert b == [b[0], b[1]];
      TwoBytesShort(b[0], b[1]);
    }
  }

  lemma Factor(g: nat, p: nat, f: nat, i: nat)
    ensures g * (p * f) + i * f == (g * p + i) * f
  {
    assert (g * p + i) * f == (g * p) * f + i * f;
    assert g * (p * f) == (g * p) * f;
  }

  lemma Factored(g: nat, p: nat, f: nat, i: nat, q: nat, n: nat, total: nat, all: nat)
    requires q == p * f && n == i * f && total == g * q + n && all == g * p + i
    ensures total == all * f
  {
    Factor(g, p, f, i);
  }

  lemma PowersGrow(p: nat, f: nat, q: nat)
    requires q == p * f
    ensures 16777216 * q == (16777216 * p) * f
  {
  }

  lemma FillerMore(n: nat)
    ensures Filler(n + 3) == Filler(n)
  {
    ThreeLess(n + 3);
  }

  /**
   An encoding is the number of its bytes, written to base 64 after the last digit has been
   filled up with zero bits, in as many digits as there are bits for.
   */
  lemma {:induction false} PlainNumber(b: Bytes)
    ensures Number(Plain(b)) == IntFromBytes(b) * Filler(|b|)
    ensures Pow64(|Plain(b)|) == Pow256(|b|) * Filler(|b|)
    decreases |b|
  {
    if |b| < 3 {
      ShortNumber(b);
    } else {
      var rest := b[3..];
      PlainNumber(rest);
      var g, three := Group(b[0], b[1], b[2]), [b[0], b[1], b[2]];
      GroupIsBytes(b[0], b[1], b[2], g, three);
      FirstGroup(g, three, Plain(rest), rest, Filler(|rest|));
      FillerMore(|rest|);
      assert b == three + rest && Plain(b) == g + Plain(rest);
    }
  }

  lemma GroupIsBytes(a: Byte, b: Byte, c: Byte, g: Bytes, three: Bytes)
    requires g == Group(a, b, c) && three == [a, b, c]
    ensures Number(g) == IntFromBytes(three)
  {
    GroupNumber(a, b, c);
    BytesNumber(a, b, c);
  }

  lemma FirstGroup(g: Bytes, three: Bytes, t: Bytes, rest: Bytes, f: nat)
    requires Number(g) == IntFromBytes(three) && |g| == 4 && |three| == 3
    requires Number(t) == IntFromBytes(rest) * f && Pow64(|t|) == Pow256(|rest|) * f
    ensures Number(g + t) == IntFromBytes(three + rest) * f && Pow64(|g + t|) == Pow256(|three + rest|) * f
  {
    NumberAppend(g, t);
    IntFromBytesAppend(three, rest);
    Factored(Number(g), Pow256(|rest|), f, IntFromBytes(rest), Pow64(|t|), Number(t),
             Number(g + t), IntFromBytes(three + rest));
    PowersGrow(Pow256(|rest|), f, Pow64(|t|));
    ThreeMore(|rest|);
    FourMore(|t|);
  }

  lemma ThreeMore(n: nat)
    ensures Pow256(n + 3) == 16777216 * Pow256(n)
  {
    assert Pow256(n + 3) == 256 * Pow256(n + 2) && Pow256(n + 2) == 256 * Pow256(n + 1);
  }

  lemma FourMore(n: nat)
    ensures Pow64(n + 4) == 16777216 * Pow64(n)
  {
    assert Pow64(n + 4) == 64 * Pow64(n + 3) && Pow64(n + 3) == 64 * Pow64(n + 2) && Pow64(n + 2) == 64 * Pow64(n + 1);
  }

  /** So it is for what the encoder gives. */
  lemma EncodedNumber(b: Bytes)
    ensures Number(B64Encode(b)) == IntFromBytes(b) * Filler(|b|)
    ensures Pow64(|B64Encode(b)|) == Pow256(|b|) * Filler(|b|)
  {
    EncodeIsPlain(b);
    PlainNumber(b);
  }
}
