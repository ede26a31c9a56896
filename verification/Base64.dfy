/**
 URL-safe base64 (section 5 of RFC 4648) without padding, and big-endian integers of least
 length. Text is a sequence of character codes; every code from 128 up stands for some
 character outside ASCII.
 */
module Base64 {
  import opened Prelude

  type Text = Bytes

  type Bytes = seq<Byte>

  const EQUALS: Byte := 61
  const DOT: Byte := 46

  /** The URL-safe alphabet. */
  function Symbol(v: nat): (c: Byte)
    requires v < 64
  {
    if v < 26 then 65 + v
    else if v < 52 then 97 + (v - 26)
    else if v < 62 then 48 + (v - 52)
    else if v == 62 then 45 else 95
  }

  /** The value of a character; the decoder takes the standard alphabet's `+` and `/` too. */
  function ValueOf(c: Byte): (v: Option<nat>)
    ensures v.Some? ==> v.value < 64
  {
    if 65 <= c <= 90 then Some(c - 65)
    else if 97 <= c <= 122 then Some(c - 97 + 26)
    else if 48 <= c <= 57 then Some(c - 48 + 52)
    else if c == 45 || c == 43 then Some(62)
    else if c == 95 || c == 47 then Some(63)
    else None
  }

  lemma SymbolValue(v: nat)
    requires v < 64
    ensures ValueOf(Symbol(v)) == Some(v)
    ensures Symbol(v) != EQUALS && Symbol(v) != DOT && Symbol(v) < 128
  {
  }

  /** The six bits across a first and a second byte. */
  function Second(a: Byte, b: Byte): (s: nat)
    ensures s < 64
  {
    a % 4 * 16 + b / 16
  }

  /** The six bits across a second and a third byte. */
  function Third(b: Byte, c: Byte): (s: nat)
    ensures s < 64
  {
    b % 16 * 4 + c / 64
  }

  /** Three bytes as four characters of six bits. */
  function Group(a: Byte, b: Byte, c: Byte): (g: Bytes)
    ensures |g| == 4
  {
    [Symbol(a / 4), Symbol(Second(a, b)), Symbol(Third(b, c)), Symbol(c % 64)]
  }

  /** The standard encoder, padding included. */
  function Padded(b: Bytes): Bytes {
    if b == [] then []
    else if |b| == 1 then
      [Symbol(b[0] / 4), Symbol(Second(b[0], 0)), EQUALS, EQUALS]
    else if |b| == 2 then
      [Symbol(b[0] / 4), Symbol(Second(b[0], b[1])), Symbol(Third(b[1], 0)), EQUALS]
    else
      Group(b[0], b[1], b[2]) + Padded(b[3..])
  }

  /** Python's `strip(b'=')`, one side at a time. */
  function StripLeft(t: Bytes): Bytes {
    if t != [] && t[0] == EQUALS then StripLeft(t[1..]) else t
  }

  function StripRight(t: Bytes): Bytes {
    if t != [] && t[|t| - 1] == EQUALS then StripRight(t[..|t| - 1]) else t
  }

  function B64Encode(b: Bytes): Bytes {
    StripRight(StripLeft(Padded(b)))
  }

  /**
   The standard decoder in its lenient mode. q counts the characters of the current group of
   four, left holds its undelivered bits, pads its padding characters. Characters outside the
   alphabet are skipped, padding that completes a group ends the text, and a group that is
   still open at the end is an error.
   */
  function Scan(t: Text, q: nat, left: nat, pads: nat): Option<Bytes>
    requires q < 4
    requires (q == 0 ==> left == 0) && (q == 1 ==> left < 64) && (q == 2 ==> left < 16) && (q == 3 ==> left < 4)
    decreases |t|
  {
    if t == [] then if q == 0 then Some([]) else None
    else if t[0] == EQUALS then
      if q >= 2 && q + pads + 1 >= 4 then Some([])
      else Scan(t[1..], q, left, if q >= 2 then pads + 1 else pads)
    else
      match ValueOf(t[0])
      case None => Scan(t[1..], q, left, pads)
      case Some(v) =>
        if q == 0 then Scan(t[1..], 1, v, 0)
        else if q == 1 then Cons(left * 4 + v / 16, Scan(t[1..], 2, v % 16, 0))
        else if q == 2 then Cons(left * 16 + v / 4, Scan(t[1..], 3, v % 4, 0))
        else Cons(left * 64 + v, Scan(t[1..], 0, 0, 0))
  }

  function Cons(b: Byte, rest: Option<Bytes>): Option<Bytes> {
    match rest
    case None => None
    case Some(r) => Some([b] + r)
  }

  function Padding(n: nat): Text {
    seq(n, i => EQUALS)
  }

  /** Decoding with the padding put back; a whole number of groups gets four, which are ignored. */
  function B64Decode(t: Text): Option<Bytes> {
    Scan(t + Padding(4 - |t| % 4), 0, 0, 0)
  }

  /** For a `str`, which must be ASCII. */
  function B64DecodeText(t: Text): Option<Bytes> {
    if forall i :: 0 <= i < |t| ==> t[i] < 128 then B64Decode(t) else None
  }

  // Round trip.

  /** The encoding without padding. */
  function Plain(b: Bytes): Bytes {
    if b == [] then []
    else if |b| == 1 then [Symbol(b[0] / 4), Symbol(Second(b[0], 0))]
    else if |b| == 2 then
      [Symbol(b[0] / 4), Symbol(Second(b[0], b[1])), Symbol(Third(b[1], 0))]
    else
      Group(b[0], b[1], b[2]) + Plain(b[3..])
  }

  /** No character of an encoding is a padding sign, a dot, or outside ASCII. */
  ghost predicate Tame(t: Bytes) {
    forall i :: 0 <= i < |t| ==> t[i] != EQUALS && t[i] != DOT && t[i] < 128
  }

  lemma {:induction false} PlainIsTame(b: Bytes)
    ensures Tame(Plain(b))
    decreases |b|
  {
    if |b| < 3 {
    } else {
      PlainIsTame(b[3..]);
    }
  }

  lemma {:induction false} PlainLength(b: Bytes)
    ensures |Plain(b)| % 4 == if |b| % 3 == 0 then 0 else |b| % 3 + 1
    decreases |b|
  {
    if |b| < 3 {
    } else {
      PlainLength(b[3..]);
      RemaindersShift(|Plain(b[3..])|, |b[3..]|);
    }
  }

  lemma RemaindersShift(m: nat, n: nat)
    ensures (4 + m) % 4 == m % 4 && (3 + n) % 3 == n % 3
  {
  }

  /** How many bytes the last group is short of. */
  function Short(b: Bytes): nat {
    (3 - |b| % 3) % 3
  }

  lemma ShortRest(b: Bytes)
    requires |b| >= 3
    ensures Short(b[3..]) == Short(b)
  {
    ThreeLess(|b|);
  }

  lemma {:induction false} PaddedIsPlain(b: Bytes)
    ensures Padded(b) == Plain(b) + Padding(Short(b))
    decreases |b|
  {
    if |b| >= 3 {
      PaddedIsPlain(b[3..]);
      ShortRest(b);
      AppendAgain(Group(b[0], b[1], b[2]), Plain(b[3..]), Padding(Short(b)));
    } else if |b| == 2 {
      OnePadding(Symbol(b[0] / 4), Symbol(Second(b[0], b[1])), Symbol(Third(b[1], 0)));
    } else if |b| == 1 {
      TwoPaddings(Symbol(b[0] / 4), Symbol(Second(b[0], 0)));
    }
  }

  lemma OnePadding(p: Byte, q: Byte, r: Byte)
    ensures [p, q, r, EQUALS] == [p, q, r] + Padding(1)
  {
  }

  lemma TwoPaddings(p: Byte, q: Byte)
    ensures [p, q, EQUALS, EQUALS] == [p, q] + Padding(2)
  {
  }

  lemma AppendAgain(a: Bytes, b: Bytes, c: Bytes)
    ensures a + (b + c) == a + b + c
  {
  }

  lemma {:induction false} StripPadding(t: Bytes, n: nat)
    requires Tame(t)
    ensures StripRight(t + Padding(n)) == t
    decreases n
  {
    if n == 0 {
      assert t + Padding(n) == t;
    } else {
      assert (t + Padding(n))[..|t| + n - 1] == t + Padding(n - 1);
      StripPadding(t, n - 1);
    }
  }

  lemma StripNothing(t: Bytes)
    requires t == [] || t[0] != EQUALS
    ensures StripLeft(t) == t
  {
  }

  lemma PlainStarts(b: Bytes, n: nat)
    requires b != [] || n == 0
    ensures var t := Plain(b) + Padding(n); t == [] || t[0] != EQUALS
  {
    PlainIsTame(b);
    if b == [] {
      assert Plain(b) + Padding(n) == [];
    } else {
      assert Plain(b) != [] && (Plain(b) + Padding(n))[0] == Plain(b)[0];
    }
  }

  /** What the encoder gives is the plain encoding: only padding is stripped. */
  lemma EncodeIsPlain(b: Bytes)
    ensures B64Encode(b) == Plain(b)
  {
    PlainIsTame(b);
    PaddedIsPlain(b);
    var n := Short(b);
    StripPadding(Plain(b), n);
    PlainStarts(b, n);
    StripNothing(Plain(b) + Padding(n));
  }

  /** One character of the alphabet. */
  lemma ScanOne(c: Byte, t: Text, q: nat, left: nat)
    requires ValueOf(c).Some? && q < 4
    requires (q == 0 ==> left == 0) && (q == 1 ==> left < 64) && (q == 2 ==> left < 16) && (q == 3 ==> left < 4)
    ensures var v := ValueOf(c).value;
      Scan([c] + t, q, left, 0) ==
        if q == 0 then Scan(t, 1, v, 0)
        else if q == 1 then Cons(left * 4 + v / 16, Scan(t, 2, v % 16, 0))
        else if q == 2 then Cons(left * 16 + v / 4, Scan(t, 3, v % 4, 0))
        else Cons(left * 64 + v, Scan(t, 0, 0, 0))
  {
    assert ([c] + t)[1..] == t;
  }

  lemma ScanSymbol(v: nat, t: Text, q: nat, left: nat)
    requires v < 64 && q < 4
    requires (q == 0 ==> left == 0) && (q == 1 ==> left < 64) && (q == 2 ==> left < 16) && (q == 3 ==> left < 4)
    ensures Scan([Symbol(v)] + t, q, left, 0) ==
        if q == 0 then Scan(t, 1, v, 0)
        else if q == 1 then Cons(left * 4 + v / 16, Scan(t, 2, v % 16, 0))
        else if q == 2 then Cons(left * 16 + v / 4, Scan(t, 3, v % 4, 0))
        else Cons(left * 64 + v, Scan(t, 0, 0, 0))
  {
    SymbolValue(v);
    ScanOne(Symbol(v), t, q, left);
  }

  lemma ScanTwo(a: Byte, s2: nat, t: Text)
    requires s2 < 64 && a / 4 * 4 + s2 / 16 == a
    ensures var s: Text := [Symbol(a / 4)] + ([Symbol(s2)] + t);
      Scan(s, 0, 0, 0) == Cons(a, Scan(t, 2, s2 % 16, 0))
  {
    ScanSymbol(a / 4, [Symbol(s2)] + t, 0, 0);
    ScanSymbol(s2, t, 1, a / 4);
  }

  lemma FourThen(p: Byte, q: Byte, r: Byte, s: Byte, t: Text)
    ensures [p, q, r, s] + t == [p] + ([q] + ([r] + ([s] + t)))
  {
  }

  lemma ScanFour(a: Byte, b: Byte, c: Byte, s2: nat, s3: nat, s4: nat, t: Text)
    requires s2 < 64 && s3 < 64 && s4 < 64
    requires a / 4 * 4 + s2 / 16 == a && s2 % 16 * 16 + s3 / 4 == b && s3 % 4 * 64 + s4 == c
    ensures Scan([Symbol(a / 4), Symbol(s2), Symbol(s3), Symbol(s4)] + t, 0, 0, 0)
         == Cons(a, Cons(b, Cons(c, Scan(t, 0, 0, 0))))
  {
    var t3: Text := [Symbol(s4)] + t;
    var t2: Text := [Symbol(s3)] + t3;
    FourThen(Symbol(a / 4), Symbol(s2), Symbol(s3), Symbol(s4), t);
    ScanTwo(a, s2, t2);
    ScanSymbol(s3, t3, 2, s2 % 16);
    ScanSymbol(s4, t, 3, s3 % 4);
  }

  /** The six-bit pieces carry the bytes. */
  lemma SecondParts(a: Byte, b: Byte)
    ensures a / 4 * 4 + Second(a, b) / 16 == a && Second(a, b) % 16 == b / 16
  {
  }

  lemma ThirdParts(b: Byte, c: Byte)
    ensures b / 16 * 16 + Third(b, c) / 4 == b && Third(b, c) % 4 == c / 64
  {
  }

  /** A group of four characters gives its three bytes back. */
  lemma ScanGroup(a: Byte, b: Byte, c: Byte, t: Text)
    ensures Scan(Group(a, b, c) + t, 0, 0, 0) == Cons(a, Cons(b, Cons(c, Scan(t, 0, 0, 0))))
  {
    SecondParts(a, b);
    ThirdParts(b, c);
    ScanFour(a, b, c, Second(a, b), Third(b, c), c % 64, t);
  }

  /** Two characters and the padding give one byte. */
  lemma ScanTwoEnd(a: Byte, s2: nat, t: Text)
    requires s2 < 64 && a / 4 * 4 + s2 / 16 == a && t == [Symbol(a / 4), Symbol(s2)] + Padding(2)
    ensures Scan(t, 0, 0, 0) == Some([a])
  {
    var p := Padding(2);
    assert t == [Symbol(a / 4)] + ([Symbol(s2)] + p);
    ScanTwo(a, s2, p);
    ScanSigns(2, 2, s2 % 16, 0);
    assert [a] + [] == [a];
  }

  /** Three characters and the padding give two bytes. */
  lemma ScanThreeEnd(a: Byte, b: Byte, s2: nat, s3: nat, t: Text)
    requires s2 < 64 && s3 < 64 && a / 4 * 4 + s2 / 16 == a && s2 % 16 * 16 + s3 / 4 == b
    requires t == [Symbol(a / 4), Symbol(s2), Symbol(s3)] + Padding(1)
    ensures Scan(t, 0, 0, 0) == Some([a, b])
  {
    var p := Padding(1);
    assert t == [Symbol(a / 4)] + ([Symbol(s2)] + ([Symbol(s3)] + p));
    ScanTwo(a, s2, [Symbol(s3)] + p);
    ScanSymbol(s3, p, 2, s2 % 16);
    ScanSigns(1, 3, s3 % 4, 0);
    assert [a] + ([b] + []) == [a, b];
  }

  /** How many padding signs the decoder puts back after an encoding. */
  function Missing(b: Bytes): nat {
    if |b| % 3 == 0 then 4 else 3 - |b| % 3
  }

  lemma MissingCompletes(b: Bytes)
    ensures 4 - |Plain(b)| % 4 == Missing(b)
  {
    PlainLength(b);
  }

  lemma OneAndPadding(b: Bytes)
    requires |b| == 1
    ensures Plain(b) + Padding(Missing(b)) == [Symbol(b[0] / 4), Symbol(Second(b[0], 0))] + Padding(2)
  {
    assert Missing(b) == 2;
  }

  lemma TwoAndPadding(b: Bytes)
    requires |b| == 2
    ensures Plain(b) + Padding(Missing(b))
         == [Symbol(b[0] / 4), Symbol(Second(b[0], b[1])), Symbol(Third(b[1], 0))] + Padding(1)
  {
    assert Missing(b) == 1;
  }

  /** The last, shorter group needs the padding that was put back. */
  lemma ScanTail(b: Bytes, t: Text)
    requires |b| < 3 && t == Plain(b) + Padding(Missing(b))
    ensures Scan(t, 0, 0, 0) == Some(b)
  {
    if b == [] {
      assert t == Padding(4);
      ScanSigns(4, 0, 0, 0);
    } else if |b| == 1 {
      OneAndPadding(b);
      SecondParts(b[0], 0);
      ScanTwoEnd(b[0], Second(b[0], 0), t);
      assert b == [b[0]];
    } else {
      TwoAndPadding(b);
      SecondParts(b[0], b[1]);
      ThirdParts(b[1], 0);
      ScanThreeEnd(b[0], b[1], Second(b[0], b[1]), Third(b[1], 0), t);
      assert b == [b[0], b[1]];
    }
  }

  /** Padding signs alone: they complete an open group, or are ignored before one. */
  lemma {:induction false} ScanSigns(n: nat, q: nat, left: nat, pads: nat)
    requires q < 4
    requires (q == 0 ==> left == 0) && (q == 1 ==> left < 64) && (q == 2 ==> left < 16) && (q == 3 ==> left < 4)
    ensures Scan(Padding(n), q, left, pads)
      == if q == 0 || (q >= 2 && n >= 1 && q + pads + n >= 4) then Some([]) else None
    decreases n
  {
    if n == 0 {
    } else {
      assert Padding(n)[1..] == Padding(n - 1);
      if !(q >= 2 && q + pads + 1 >= 4) {
        ScanSigns(n - 1, q, left, if q >= 2 then pads + 1 else pads);
      }
    }
  }

  lemma ThreeLess(n: nat)
    requires n >= 3
    ensures (n - 3) % 3 == n % 3
  {
  }

  lemma MissingRest(b: Bytes)
    requires |b| >= 3
    ensures Missing(b[3..]) == Missing(b)
  {
    ThreeLess(|b|);
  }

  lemma {:induction false} ScanPlain(b: Bytes)
    ensures Scan(Plain(b) + Padding(Missing(b)), 0, 0, 0) == Some(b)
    decreases |b|
  {
    if |b| < 3 {
      ScanTail(b, Plain(b) + Padding(Missing(b)));
    } else {
      MissingRest(b);
      ScanPlain(b[3..]);
      ScanLonger(b, Plain(b[3..]), Missing(b), Plain(b) + Padding(Missing(b)));
    }
  }

  lemma ScanLonger(b: Bytes, rest: Bytes, n: nat, t: Text)
    requires |b| >= 3 && Scan(rest + Padding(n), 0, 0, 0) == Some(b[3..])
    requires t == Group(b[0], b[1], b[2]) + rest + Padding(n)
    ensures Scan(t, 0, 0, 0) == Some(b)
  {
    var g := Group(b[0], b[1], b[2]);
    AppendAgain(g, rest, Padding(n));
    ScanGroup(b[0], b[1], b[2], rest + Padding(n));
    ThreeAndRest(b);
  }

  lemma ThreeAndRest(b: Bytes)
    requires |b| >= 3
    ensures [b[0]] + ([b[1]] + ([b[2]] + b[3..])) == b
  {
  }

  /** Encoding then decoding gives every byte string back, and so encodings are distinct. */
  lemma DecodeEncode(b: Bytes)
    ensures B64Decode(B64Encode(b)) == Some(b) && B64DecodeText(B64Encode(b)) == Some(b)
    ensures Tame(B64Encode(b))
  {
    EncodeIsPlain(b);
    ScanPlain(b);
    MissingCompletes(b);
    PlainIsTame(b);
  }

  /** How many characters carry bits. */
  function Symbols(t: Text): nat {
    if t == [] then 0
    else Symbols(t[..|t| - 1]) + if ValueOf(t[|t| - 1]).Some? then 1 else 0
  }

  /** How many padding signs stand behind the last of them. */
  function Signs(t: Text): nat {
    if t == [] || ValueOf(t[|t| - 1]).Some? then 0
    else Signs(t[..|t| - 1]) + if t[|t| - 1] == EQUALS then 1 else 0
  }

  /** The text ends in a group that holds a byte and that padding signs complete. */
  predicate Complete(t: Text) {
    Symbols(t) % 4 >= 2 && Symbols(t) % 4 + Signs(t) >= 4
  }

  lemma OneMore(p: Text, c: Byte)
    ensures Symbols(p + [c]) == Symbols(p) + if ValueOf(c).Some? then 1 else 0
    ensures Signs(p + [c]) == if ValueOf(c).Some? then 0 else Signs(p) + if c == EQUALS then 1 else 0
  {
    var longer := p + [c];
    assert longer[|longer| - 1] == c && longer[..|longer| - 1] == p;
  }

  lemma Regroup(p: Text, c: Byte, t: Text)
    ensures p + [c] + t == p + ([c] + t) && (p + ([c] + t))[..|p| + 1] == p + [c]
  {
  }

  lemma NextPlace(n: nat)
    ensures (n + 1) % 4 == if n % 4 == 3 then 0 else n % 4 + 1
  {
  }

  /** Some longer part of the text than its first k characters is complete. */
  ghost predicate CompletesAfter(t: Text, k: nat) {
    exists n :: k < n <= |t| && Complete(t[..n])
  }

  lemma AfterOne(t: Text, k: nat)
    requires k < |t|
    ensures CompletesAfter(t, k) <==> Complete(t[..k + 1]) || CompletesAfter(t, k + 1)
  {
  }

  /** How one more character changes where the text stands. */
  lemma OneStep(p: Text, c: Byte, t: Text)
    ensures Symbols(p + [c]) % 4 ==
      if ValueOf(c).None? then Symbols(p) % 4 else if Symbols(p) % 4 == 3 then 0 else Symbols(p) % 4 + 1
    ensures Signs(p + [c]) == if ValueOf(c).Some? then 0 else Signs(p) + if c == EQUALS then 1 else 0
    ensures p + ([c] + t) == p + [c] + t
    ensures CompletesAfter(p + ([c] + t), |p|) <==> Complete(p + [c]) || CompletesAfter(p + [c] + t, |p + [c]|)
  {
    OneMore(p, c);
    NextPlace(Symbols(p));
    Regroup(p, c, t);
    AfterOne(p + ([c] + t), |p|);
  }

  /** One character of the scan: it ends here, or goes on from the next place. */
  lemma ScanStep(c: Byte, t: Text, q: nat, left: nat, pads: nat) returns (left': nat)
    requires q < 4
    requires (q == 0 ==> left == 0) && (q == 1 ==> left < 64) && (q == 2 ==> left < 16) && (q == 3 ==> left < 4)
    ensures var carries := ValueOf(c).Some?;
      var q' := if !carries then q else if q == 3 then 0 else q + 1;
      var pads' := if carries then 0 else if c == EQUALS && q >= 2 then pads + 1 else pads;
      && (q' == 0 ==> left' == 0) && (q' == 1 ==> left' < 64) && (q' == 2 ==> left' < 16) && (q' == 3 ==> left' < 4)
      && (Scan([c] + t, q, left, pads).Some? <==>
           (c == EQUALS && q >= 2 && q + pads + 1 >= 4) || Scan(t, q', left', pads').Some?)
  {
    assert ([c] + t)[1..] == t;
    left' := left;
    if ValueOf(c).Some? {
      var v := ValueOf(c).value;
      left' := if q == 0 then v else if q == 1 then v % 16 else if q == 2 then v % 4 else 0;
    }
  }

  /** The scan of what follows a part of the text in which no group has been completed by padding. */
  lemma {:induction false} ScanIff(p: Text, t: Text, q: nat, left: nat, pads: nat)
    requires q == Symbols(p) % 4 && (q >= 2 ==> pads == Signs(p)) && !Complete(p)
    requires (q == 0 ==> left == 0) && (q == 1 ==> left < 64) && (q == 2 ==> left < 16) && (q == 3 ==> left < 4)
    ensures Scan(t, q, left, pads).Some? <==> Symbols(p + t) % 4 == 0 || CompletesAfter(p + t, |p|)
    decreases |t|
  {
    if t == [] {
      assert p + t == p;
    } else {
      var c, rest := t[0], t[1..];
      assert t == [c] + rest;
      var next := ScanStep(c, rest, q, left, pads);
      OneStep(p, c, rest);
      if c == EQUALS {
        if !(q >= 2 && q + pads + 1 >= 4) {
          ScanIff(p + [c], rest, q, next, if q >= 2 then pads + 1 else pads);
        }
      } else if ValueOf(c).None? {
        ScanIff(p + [c], rest, q, next, pads);
      } else {
        ScanIff(p + [c], rest, if q == 3 then 0 else q + 1, next, 0);
      }
    }
  }

  lemma {:induction false} PaddingAdds(t: Text, n: nat)
    ensures Symbols(t + Padding(n)) == Symbols(t) && Signs(t + Padding(n)) == Signs(t) + n
    decreases n
  {
    if n == 0 {
      assert t + Padding(n) == t;
    } else {
      assert t + Padding(n) == t + Padding(n - 1) + [EQUALS];
      PaddingAdds(t, n - 1);
      OneMore(t + Padding(n - 1), EQUALS);
    }
  }

  /** Where padding that is put back completes a group. */
  lemma PaddedParts(t: Text, put: nat, n: nat)
    requires n <= |t| + put
    ensures Complete((t + Padding(put))[..n]) <==>
      if n <= |t| then Complete(t[..n])
      else Symbols(t) % 4 >= 2 && Symbols(t) % 4 + Signs(t) + (n - |t|) >= 4
  {
    PrefixOf(t, put, n);
    if n > |t| {
      PaddingAdds(t, n - |t|);
    }
  }

  lemma PrefixOf(t: Text, put: nat, n: nat)
    requires n <= |t| + put
    ensures (t + Padding(put))[..n] == if n <= |t| then t[..n] else t + Padding(n - |t|)
  {
  }

  lemma PaddedCompletes(t: Text, put: nat)
    requires put > 0
    ensures CompletesAfter(t + Padding(put), 0)
       <==> (Symbols(t) % 4 >= 2 && Symbols(t) % 4 + Signs(t) + put >= 4) || CompletesAfter(t, 0)
  {
    var padded := t + Padding(put);
    PaddedParts(t, put, |padded|);
    if CompletesAfter(padded, 0) {
      var n :| 0 < n <= |padded| && Complete(padded[..n]);
      PaddedParts(t, put, n);
    } else if CompletesAfter(t, 0) {
      var n :| 0 < n <= |t| && Complete(t[..n]);
      PaddedParts(t, put, n);
    }
  }

  /**
   Any text, with a the number of characters in its last group that carry bits: it decodes if
   and only if no group is open at its end, or the open one holds a byte and is completed by the
   padding signs at the end with those that are put back, or padding signs complete a group
   before, which ends the text there.
   */
  lemma DecodesIff(t: Text)
    ensures var a, put := Symbols(t) % 4, 4 - |t| % 4;
      B64Decode(t).Some? <==> a == 0 || (a >= 2 && a + Signs(t) + put >= 4) || CompletesAfter(t, 0)
  {
    var a, put := Symbols(t) % 4, 4 - |t| % 4;
    assert [] + (t + Padding(put)) == t + Padding(put);
    ScanIff([], t + Padding(put), 0, 0, 0);
    PaddingAdds(t, put);
    PaddedCompletes(t, put);
  }

  /** Unpadded text over the alphabet decodes unless one character is left over. */
  lemma AlphabetDecodesIff(t: Text)
    requires forall i :: 0 <= i < |t| ==> ValueOf(t[i]).Some?
    ensures B64Decode(t).Some? <==> |t| % 4 != 1
  {
    forall n | 0 <= n <= |t| ensures Symbols(t[..n]) == n && Signs(t[..n]) == 0 {
      AllSymbols(t[..n]);
    }
    assert t[..|t|] == t;
    DecodesIff(t);
  }

  lemma {:induction false} AllSymbols(t: Text)
    requires forall i :: 0 <= i < |t| ==> ValueOf(t[i]).Some?
    ensures Symbols(t) == |t| && Signs(t) == 0
    decreases |t|
  {
    if t == [] {
    } else {
      AllSymbols(t[..|t| - 1]);
    }
  }
}
