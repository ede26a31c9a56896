/** The table-driven CRC: its table built by doubling, and its byte-at-a-time update. */
module Crc {
  import opened Prelude
  import opened Bits
  import opened CrcRegister

  const BYTE_BITS: nat := 8

  function Octet(n: nat): (b: Bits)
    ensures |b| == 8
  {
    ToBits(n, BYTE_BITS)
  }

  /** The bits of a message, most significant bit of each byte first. */
  function MessageBits(m: seq<Byte>): (b: Bits)
    ensures |b| == 8 * |m|
  {
    if m == [] then [] else Octet(m[0]) + MessageBits(m[1..])
  }

  /** n in the top c bits of an otherwise empty register, then c shifts. */
  ghost function Entry(poly: Bits, c: nat, n: nat): (e: Bits)
    requires 1 <= c <= |poly|
    ensures |e| == |poly|
  {
    Steps(poly, ToBits(n, c) + Zeros(|poly| - c), c)
  }

  /** What `table[n]` must be. */
  ghost function TableEntry(poly: Bits, n: nat): (e: Bits)
    requires |poly| >= 8
    ensures |e| == |poly|
  {
    Entry(poly, BYTE_BITS, n)
  }

  /** The register when the doubling loop starts a round: one bit, shifted k times. */
  ghost function Doubled(poly: Bits, k: nat): (d: Bits)
    requires |poly| >= 1
    ensures |d| == |poly|
  {
    Steps(poly, [true] + Zeros(|poly| - 1), k)
  }

  lemma DoubledNext(poly: Bits, k: nat)
    requires |poly| >= 1
    ensures Doubled(poly, k + 1) == Step(poly, Doubled(poly, k))
  {
    StepsAdd(poly, [true] + Zeros(|poly| - 1), k, 1);
  }

  /** The bit that the entry at 2^k starts from. */
  lemma PowerWord(w: nat, c: nat, k: nat, word: Bits, low: Bits)
    requires k < c <= w
    requires word == ToBits(Pow2(k), c) + Zeros(w - c) && low == [true] + Zeros(w - c + k)
    ensures word == Zeros(c - 1 - k) + low
    ensures low + Zeros(c - 1 - k) == [true] + Zeros(w - 1)
  {
    SetBit(k, 0, c);
    ToBitsZero(c);
  }

  /** The shifts of a word up to its first one bit have no feedback. */
  lemma StepsAfterZeros(poly: Bits, word: Bits, free: nat, low: Bits, start: Bits, k: nat)
    requires free + |low| == |poly| >= 1
    requires word == Zeros(free) + low && start == low + Zeros(free)
    ensures Steps(poly, word, free + k) == Steps(poly, start, k)
  {
    StepsAdd(poly, word, free, k);
    StepsLeadingZeros(poly, free, low);
  }

  lemma PowerSteps(poly: Bits, c: nat, k: nat, word: Bits, start: Bits)
    requires k < c <= |poly|
    requires word == ToBits(Pow2(k), c) + Zeros(|poly| - c) && start == [true] + Zeros(|poly| - 1)
    ensures Steps(poly, word, c) == Steps(poly, start, k + 1)
  {
    var low := [true] + Zeros(|poly| - c + k);
    PowerWord(|poly|, c, k, word, low);
    StepsAfterZeros(poly, word, c - 1 - k, low, start, k + 1);
  }

  /** The entry at 2^k is the start bit shifted k+1 times. */
  lemma EntryAtPower(poly: Bits, c: nat, k: nat)
    requires k < c <= |poly|
    ensures Entry(poly, c, Pow2(k)) == Doubled(poly, k + 1)
  {
    PowerSteps(poly, c, k, ToBits(Pow2(k), c) + Zeros(|poly| - c), [true] + Zeros(|poly| - 1));
  }

  /** Entries combine by exclusive or, which is what filling a block by xor relies on. */
  lemma EntryLinear(poly: Bits, c: nat, a: nat, b: nat, ab: nat)
    requires 1 <= c <= |poly|
    requires ToBits(ab, c) == Xor(ToBits(a, c), ToBits(b, c))
    ensures Entry(poly, c, ab) == Xor(Entry(poly, c, a), Entry(poly, c, b))
  {
    var z := Zeros(|poly| - c);
    assert ToBits(ab, c) + z == Xor(ToBits(a, c) + z, ToBits(b, c) + z);
    StepsLinear(poly, ToBits(a, c) + z, ToBits(b, c) + z, c);
  }

  lemma EntryDoubling(poly: Bits, c: nat, k: nat, j: nat, n: nat)
    requires k < c <= |poly| && j < Pow2(k) && n == Pow2(k) + j
    ensures Entry(poly, c, n) == Xor(Doubled(poly, k + 1), Entry(poly, c, j))
  {
    SetBitXor(k, j, c);
    EntryLinear(poly, c, Pow2(k), j, n);
    EntryAtPower(poly, c, k);
  }

  lemma EntryZero(poly: Bits, c: nat)
    requires 1 <= c <= |poly|
    ensures Entry(poly, c, 0) == Zeros(|poly|)
  {
    ToBitsZero(c);
    var low := Zeros(|poly| - c);
    StepsLeadingZeros(poly, c, low);
    assert low + Zeros(c) == Zeros(|poly|);
  }

  lemma SplitWord(w: nat, r: Bits, d: Bits)
    requires |d| <= |r| == w
    ensures Xor(r, d + Zeros(w - |d|)) == Xor(Xor(d, r[..|d|]) + Zeros(w - |d|), Zeros(|d|) + r[|d|..])
  {
  }

  /** Looking the top bits up and shifting the rest equals consuming them bit by bit. */
  lemma ChunkStep(poly: Bits, r: Bits, d: Bits)
    requires |r| == |poly| >= |d| >= 1
    ensures Feed(poly, r, d)
         == Xor(Entry(poly, |d|, FromBits(Xor(d, r[..|d|]))), r[|d|..] + Zeros(|d|))
  {
    var w, c, top := |poly|, |d|, Xor(d, r[..|d|]);
    FeedIsSteps(poly, r, d);
    SplitWord(w, r, d);
    StepsLinear(poly, top + Zeros(w - c), Zeros(c) + r[c..], c);
    ToFromBits(top);
    StepsLeadingZeros(poly, c, r[c..]);
  }

  /** The table index: the next byte against the register's top byte. */
  function Index(byte: Byte, r: Bits): (n: nat)
    requires |r| >= 8
    ensures n < 256
  {
    var n := FromBits(Xor(Octet(byte), r[..BYTE_BITS]));
    assert Pow2(8) == 256 by { assert Pow2(4) == 16; }
    n
  }

  /** The register after a message, taken one bit at a time. */
  function Register(poly: Bits, init: Bits, m: seq<Byte>): (r: Bits)
    requires |init| == |poly| >= 1
    ensures |r| == |poly|
  {
    Feed(poly, init, MessageBits(m))
  }

  /** What a start value of any size and sign has become after a message; only a byte cuts it to the width. */
  function Remainder(poly: Bits, init: int, m: seq<Byte>): int
    requires |poly| >= 1
  {
    if m == [] then init else FromBits(Register(poly, ToBits(init, |poly|), m))
  }

  /** The reference checksum. */
  function Checksum(poly: Bits, init: int, xorOut: int, m: seq<Byte>): int
    requires |poly| >= 1
  {
    IntXor(Remainder(poly, init, m), xorOut)
  }

  /** For start and xor-out values that fit the width, the checksum is a word of that width. */
  lemma ChecksumOfWords(poly: Bits, init: int, xorOut: int, m: seq<Byte>)
    requires |poly| >= 1 && 0 <= init < Pow2(|poly|) && 0 <= xorOut < Pow2(|poly|)
    ensures Checksum(poly, init, xorOut, m)
         == FromBits(Xor(Register(poly, ToBits(init, |poly|), m), ToBits(xorOut, |poly|)))
    ensures 0 <= Checksum(poly, init, xorOut, m) < Pow2(|poly|)
  {
    var w := |poly|;
    FromToBits(init, w);
    FromToBits(xorOut, w);
    XorOfWords(Register(poly, ToBits(init, w), m), ToBits(xorOut, w));
    if m == [] {
      assert MessageBits(m) == [];
    }
  }

  /** Without data nothing is shifted or cut: the start value itself meets the xor-out. */
  lemma EmptyChecksum(poly: Bits, init: int, xorOut: int)
    requires |poly| >= 1
    ensures Checksum(poly, init, xorOut, []) == IntXor(init, xorOut)
  {
  }

  lemma MaskBits(poly: Bits, mask: int, ones: Bits)
    requires |poly| >= 1 && mask == Pow2(|poly|) - 1 && ones == Ones(|poly|)
    ensures ToBits(mask, |poly|) == ones
  {
    MaskIsOnes(|poly|);
  }

  lemma ChecksumFrom(poly: Bits, mask: int, ones: Bits, m: seq<Byte>)
    requires |poly| >= 1 && 0 <= mask < Pow2(|poly|) && ToBits(mask, |poly|) == ones
    ensures Checksum(poly, mask, mask, m) == FromBits(Xor(Register(poly, ones, m), ones))
    ensures 0 <= Checksum(poly, mask, mask, m) < Pow2(|poly|)
  {
    ChecksumOfWords(poly, mask, mask, m);
  }

  /** With both values missing the register starts from ones, and every bit of it is turned round at the end. */
  lemma DefaultChecksum(poly: Bits, mask: int, ones: Bits, m: seq<Byte>)
    requires |poly| >= 1 && mask == Pow2(|poly|) - 1 && ones == Ones(|poly|)
    ensures Checksum(poly, mask, mask, m) == FromBits(Xor(Register(poly, ones, m), ones))
    ensures 0 <= Checksum(poly, mask, mask, m) < Pow2(|poly|)
  {
    MaskBits(poly, mask, ones);
    ChecksumFrom(poly, mask, ones, m);
  }

  lemma RemainderBits(poly: Bits, init: int, m: seq<Byte>)
    requires |poly| >= 1
    ensures ToBits(Remainder(poly, init, m), |poly|) == Register(poly, ToBits(init, |poly|), m)
  {
    if m != [] {
      ToFromBits(Register(poly, ToBits(init, |poly|), m));
    }
  }

  /** One more byte of message is one table look-up. */
  lemma RegisterNext(poly: Bits, init: Bits, m: seq<Byte>, byte: Byte)
    requires |init| == |poly| >= 8
    ensures var r := Register(poly, init, m);
      Register(poly, init, m + [byte])
      == Xor(TableEntry(poly, Index(byte, r)), r[BYTE_BITS..] + Zeros(BYTE_BITS))
  {
    MessageBitsAppend(m, [byte]);
    assert MessageBits([byte]) == Octet(byte) by {
      assert MessageBits([byte][1..]) == [];
    }
    FeedAppend(poly, init, MessageBits(m), Octet(byte));
    ChunkStep(poly, Register(poly, init, m), Octet(byte));
  }

  ghost predicate TableOf(poly: Bits, table: seq<Bits>) {
    |poly| >= 8 && |table| == 256 && forall n :: 0 <= n < 256 ==> table[n] == TableEntry(poly, n)
  }

  lemma {:induction false} MessageBitsAppend(m: seq<Byte>, n: seq<Byte>)
    ensures MessageBits(m + n) == MessageBits(m) + MessageBits(n)
  {
    if m == [] {
      assert m + n == n;
    } else {
      assert (m + n)[1..] == m[1..] + n;
      MessageBitsAppend(m[1..], n);
    }
  }

  datatype CrcError = ValueError

  class CRC {
    const bitLength: nat
    const polynomial: Bits
    const initValue: int
    const xorOut: int
    const table: seq<Bits>

    ghost predicate Valid() {
      && bitLength >= 8 && bitLength % 8 == 0
      && |polynomial| == bitLength
      && TableOf(polynomial, table)
    }

    /** The part of the constructor that runs once the width has been accepted. */
    constructor Init(bitLength: nat, polynomial: int, initValue: Option<int>, xorOut: Option<int>)
      requires bitLength >= 8 && bitLength % 8 == 0
      ensures Valid() && this.bitLength == bitLength
      ensures this.polynomial == ToBits(polynomial, bitLength)
      ensures this.initValue == if initValue.Some? then initValue.value else Pow2(bitLength) - 1
      ensures this.xorOut == if xorOut.Some? then xorOut.value else Pow2(bitLength) - 1
    {
      this.bitLength := bitLength;
      var poly := ToBits(polynomial, bitLength);
      this.polynomial := poly;
      this.initValue := OrMask(initValue, bitLength);
      this.xorOut := OrMask(xorOut, bitLength);
      var t := BuildTable(poly);
      this.table := t;
    }

    /** One round of the loop over a message: the top byte chooses the entry, the rest moves up. */
    method Round(crc: int, byte: Byte, ghost before: seq<Byte>) returns (next: int)
      requires Valid() && crc == Remainder(polynomial, initValue, before)
      ensures next == Remainder(polynomial, initValue, before + [byte])
    {
      RemainderBits(polynomial, initValue, before);
      RegisterNext(polynomial, ToBits(initValue, bitLength), before, byte);
      var r := ToBits(crc, bitLength);
      next := FromBits(Xor(table[Index(byte, r)], r[BYTE_BITS..] + Zeros(BYTE_BITS)));
    }

    /** The checksum of a byte string: one table look-up per byte. */
    method Call(value: seq<Byte>) returns (result: int)
      requires Valid()
      ensures result == Checksum(polynomial, initValue, xorOut, value)
      ensures value == [] ==> result == IntXor(initValue, xorOut)
    {
      var crc := initValue;
      for i := 0 to |value|
        invariant crc == Remainder(polynomial, initValue, value[..i])
      {
        crc := Round(crc, value[i], value[..i]);
        assert value[..i] + [value[i]] == value[..i + 1];
      }
      assert value[..|value|] == value;
      result := IntXor(crc, xorOut);
    }
  }

  /** Building a CRC: widths that are not positive multiples of 8 are refused. */
  method NewCRC(bitLength: int, polynomial: int, initValue: Option<int>, xorOut: Option<int>)
    returns (r: Result<CRC, CrcError>)
    ensures r.Ok? <==> bitLength > 0 && bitLength % 8 == 0
    ensures r.Ok? ==>
      && r.value.Valid() && r.value.bitLength == bitLength
      && r.value.polynomial == ToBits(polynomial, bitLength)
      && r.value.initValue == (if initValue.Some? then initValue.value else Pow2(bitLength) - 1)
      && r.value.xorOut == (if xorOut.Some? then xorOut.value else Pow2(bitLength) - 1)
  {
    if bitLength % 8 != 0 || bitLength <= 0 {
      return Err(ValueError);
    }
    var crc := new CRC.Init(bitLength, polynomial, initValue, xorOut);
    return Ok(crc);
  }

  /** A given integer, or the bit mask of the width: a register of ones. */
  function OrMask(n: Option<int>, width: nat): int {
    match n
    case None => Pow2(width) - 1
    case Some(v) => v
  }

  /** The doubling loop: one shift per power of two, the rest of each block by xor. */
  method BuildTable(poly: Bits) returns (result: seq<Bits>)
    requires |poly| >= 8
    ensures |result| == 256
    ensures forall n :: 0 <= n < 256 ==> result[n] == TableEntry(poly, n)
  {
    var w := |poly|;
    var i := 1;
    var crc := [true] + Zeros(w - 1);
    var table := new Bits[256](_ => Zeros(w));
    ghost var k := 0;
    EntryZero(poly, BYTE_BITS);
    while i < 256
      invariant k <= 8 && i == Pow2(k) <= 256
      invariant crc == Doubled(poly, k)
      invariant Filled(poly, BYTE_BITS, table[..], i)
      decreases 256 - i
    {
      Pow2Strict(k);
      DoubledNext(poly, k);
      crc := Step(poly, crc);
      FillBlock(poly, crc, table, i, k);
      i := 2 * i;
      k := k + 1;
    }
    result := table[..];
  }

  /** The inner loop: the block from i = 2^k on, each entry from the one i places before. */
  method FillBlock(poly: Bits, crc: Bits, table: array<Bits>, i: nat, ghost k: nat)
    requires |poly| >= 8 && k < 8 && i == Pow2(k) && 2 * i <= table.Length
    requires crc == Doubled(poly, k + 1) && Filled(poly, BYTE_BITS, table[..], i)
    modifies table
    ensures Filled(poly, BYTE_BITS, table[..], 2 * i)
  {
    for j := 0 to i
      invariant Filled(poly, BYTE_BITS, table[..], i + j)
    {
      ghost var before := table[..];
      FillOne(poly, BYTE_BITS, before, k, j, i + j, crc, before[j]);
      table[i + j] := Xor(crc, table[j]);
      assert table[..] == before[i + j := Xor(crc, before[j])];
    }
  }

  /** The first n entries of the table are in place. */
  ghost predicate Filled(poly: Bits, c: nat, table: seq<Bits>, n: nat)
    requires 1 <= c <= |poly|
  {
    n <= |table| && forall m :: 0 <= m < n ==> table[m] == Entry(poly, c, m)
  }

  lemma FilledAt(poly: Bits, c: nat, t: seq<Bits>, n: nat, j: nat)
    requires 1 <= c <= |poly| && Filled(poly, c, t, n) && j < n
    ensures t[j] == Entry(poly, c, j)
  {
  }

  lemma FillNext(poly: Bits, c: nat, t: seq<Bits>, n: nat, entry: Bits)
    requires 1 <= c <= |poly| && n < |t| && Filled(poly, c, t, n)
    requires entry == Entry(poly, c, n)
    ensures Filled(poly, c, t[n := entry], n + 1)
  {
  }

  lemma FillOne(poly: Bits, c: nat, t: seq<Bits>, k: nat, j: nat, n: nat, crc: Bits, e: Bits)
    requires k < c <= |poly| && j < Pow2(k) && n == Pow2(k) + j < |t|
    requires Filled(poly, c, t, n) && crc == Doubled(poly, k + 1) && e == t[j]
    ensures |e| == |crc| == |poly|
    ensures Filled(poly, c, t[n := Xor(crc, e)], n + 1)
  {
    FilledAt(poly, c, t, n, j);
    EntryDoubling(poly, c, k, j, n);
    FillNext(poly, c, t, n, Xor(crc, e));
  }

  lemma Pow2Strict(k: nat)
    requires k <= 8 && Pow2(k) < 256
    ensures k < 8 && 2 * Pow2(k) <= 256
  {
    assert Pow2(4) == 16;
    assert Pow2(8) == 256;
  }
}
