/**
 * The checksum the client compares with the server's: CRC-32 as section 8 of RFC 1952 defines it
 * (reflected, initial register and final mask all ones), as `boost::crc_32_type` computes it.
 */
module Crc32 {
  import opened Binary

  const POLYNOMIAL: Word32 := 0xEDB8_8320
  const ALL_ONES: Word32 := 0xFFFF_FFFF

  /**
   * The coefficients of x^26 + x^23 + x^22 + x^16 + x^12 + x^11 + x^10 + x^8 + x^7 + x^5 + x^4 + x^2 + x + 1,
   * the coefficient of x^e in bit 31 - e; x^32 is implied.
   */
  lemma PolynomialTerms()
    ensures POLYNOMIAL == Pow2(5) + Pow2(8) + Pow2(9) + Pow2(15) + Pow2(19) + Pow2(20) + Pow2(21) + Pow2(23)
                          + Pow2(24) + Pow2(26) + Pow2(27) + Pow2(29) + Pow2(30) + Pow2(31)
  {
    Doubled(5);
    Doubled(10);
    Doubled(15);
    Doubled(20);
    Doubled(25);
    Doubled(30);
  }

  lemma Doubled(n: nat)
    requires n >= 5
    ensures Pow2(n) == 32 * Pow2(n - 5) && Pow2(n + 1) == 64 * Pow2(n - 5)
    ensures Pow2(n - 1) == 16 * Pow2(n - 5) && Pow2(n - 2) == 8 * Pow2(n - 5)
    ensures Pow2(n - 3) == 4 * Pow2(n - 5) && Pow2(n - 4) == 2 * Pow2(n - 5)
  {
  }

  /** One step of the shift register. */
  function Shift(r: nat): nat {
    if r % 2 == 1 then Xor(r / 2, POLYNOMIAL) else r / 2
  }

  function Shifts(r: nat, n: nat): nat
    decreases n
  {
    if n == 0 then r else Shifts(Shift(r), n - 1)
  }

  /** The register after one more byte. */
  function Feed(r: nat, b: Byte): nat {
    Shifts(Xor(r, b), 8)
  }

  function FeedAll(r: nat, data: Bytes): nat
    decreases |data|
  {
    if data == [] then r else FeedAll(Feed(r, data[0]), data[1..])
  }

  function FeedPieces(r: nat, pieces: seq<Bytes>): nat
    decreases |pieces|
  {
    if pieces == [] then r else FeedPieces(FeedAll(r, pieces[0]), pieces[1..])
  }

  function Checksum(data: Bytes): (c: nat)
    ensures c < 0x1_0000_0000
  {
    FeedAllBound(ALL_ONES, data);
    Word32Bound(FeedAll(ALL_ONES, data), ALL_ONES);
    Xor(FeedAll(ALL_ONES, data), ALL_ONES)
  }

  /** The CRC register object; `processBytes` may be called any number of times. */
  class CrcRegister {
    var value: Word32

    constructor ()
      ensures value == ALL_ONES
    {
      value := ALL_ONES;
    }

    method ProcessBytes(buffer: Bytes)
      modifies this
      ensures value == FeedAll(old(value), buffer)
    {
      var i := 0;
      while i < |buffer|
        invariant 0 <= i <= |buffer|
        invariant FeedAll(value, buffer[i..]) == FeedAll(old(value), buffer)
      {
        FeedBound(value, buffer[i]);
        assert buffer[i..][1..] == buffer[i + 1..];
        value := Feed(value, buffer[i]);
        i := i + 1;
      }
    }

    method Finish() returns (checksum: Word32)
      ensures checksum == Xor(value, ALL_ONES)
    {
      Word32Bound(value, ALL_ONES);
      checksum := Xor(value, ALL_ONES);
    }
  }

  method CalculateCrc32(buffer: Bytes) returns (checksum: Word32)
    ensures checksum == Checksum(buffer)
  {
    var crc := new CrcRegister();
    crc.ProcessBytes(buffer);
    checksum := crc.Finish();
  }

  // ---------------------------------------------------------------------------
  // Bounds: the register stays a 32-bit word
  // ---------------------------------------------------------------------------

  lemma Word32Bound(a: nat, b: nat)
    requires a < 0x1_0000_0000 && b < 0x1_0000_0000
    ensures Xor(a, b) < 0x1_0000_0000
  {
    Pow2Of32();
    XorBound(a, b, 32);
  }

  lemma ShiftBound(r: nat)
    requires r < 0x1_0000_0000
    ensures Shift(r) < 0x1_0000_0000
  {
    Word32Bound(r / 2, POLYNOMIAL);
  }

  lemma {:induction false} ShiftsBound(r: nat, n: nat)
    requires r < 0x1_0000_0000
    ensures Shifts(r, n) < 0x1_0000_0000
    decreases n
  {
    if n > 0 {
      ShiftBound(r);
      ShiftsBound(Shift(r), n - 1);
    }
  }

  lemma FeedBound(r: nat, b: Byte)
    requires r < 0x1_0000_0000
    ensures Feed(r, b) < 0x1_0000_0000
  {
    Word32Bound(r, b);
    ShiftsBound(Xor(r, b), 8);
  }

  lemma {:induction false} FeedAllBound(r: nat, data: Bytes)
    requires r < 0x1_0000_0000
    ensures FeedAll(r, data) < 0x1_0000_0000
    decreases |data|
  {
    if data != [] {
      FeedBound(r, data[0]);
      FeedAllBound(Feed(r, data[0]), data[1..]);
    }
  }

  // ---------------------------------------------------------------------------
  // Splitting the input
  // ---------------------------------------------------------------------------

  lemma {:induction false} FeedConcat(r: nat, a: Bytes, b: Bytes)
    ensures FeedAll(r, a + b) == FeedAll(FeedAll(r, a), b)
    decreases |a|
  {
    if a == [] {
      assert a + b == b;
    } else {
      FeedConcat(Feed(r, a[0]), a[1..], b);
      assert (a + b)[1..] == a[1..] + b;
    }
  }

  /** Feeding the pieces of any split one after the other is feeding the whole. */
  lemma {:induction false} SplitInvariant(r: nat, pieces: seq<Bytes>)
    ensures FeedPieces(r, pieces) == FeedAll(r, Flatten(pieces))
    decreases |pieces|
  {
    if pieces != [] {
      SplitInvariant(FeedAll(r, pieces[0]), pieces[1..]);
      FeedConcat(r, pieces[0], Flatten(pieces[1..]));
    }
  }

  // ---------------------------------------------------------------------------
  // The register as polynomial division: linear, and injective on 32-bit words
  // ---------------------------------------------------------------------------

  lemma ShiftLinear(x: nat, y: nat)
    ensures Shift(Xor(x, y)) == Xor(Shift(x), Shift(y))
  {
    XorHalves(x, y);
    ParityOfSum(x, y);
    if x % 2 == 1 && y % 2 == 1 {
      XorCommonMask(x / 2, y / 2, POLYNOMIAL);
    } else if x % 2 == 1 {
      XorSwap(x / 2, y / 2, POLYNOMIAL);
    } else if y % 2 == 1 {
      XorAssociates(x / 2, y / 2, POLYNOMIAL);
    }
  }

  lemma ParityOfSum(x: nat, y: nat)
    ensures (x + y) % 2 == if x % 2 == y % 2 then 0 else 1
  {
  }

  lemma {:induction false} ShiftsLinear(x: nat, y: nat, n: nat)
    ensures Shifts(Xor(x, y), n) == Xor(Shifts(x, n), Shifts(y, n))
    decreases n
  {
    if n > 0 {
      ShiftLinear(x, y);
      ShiftsLinear(Shift(x), Shift(y), n - 1);
    }
  }

  lemma {:induction false} ShiftsSum(r: nat, m: nat, n: nat)
    ensures Shifts(r, m + n) == Shifts(Shifts(r, m), n)
    decreases m
  {
    if m > 0 {
      ShiftsSum(Shift(r), m - 1, n);
    }
  }

  /** Low zero bits are shifted out unchanged. */
  lemma {:induction false} ShiftsOfLeft(d: nat, k: nat)
    ensures Shifts(Left(d, k), k) == d
  {
    if k > 0 {
      assert Shift(Left(d, k)) == Left(d, k - 1);
      ShiftsOfLeft(d, k - 1);
    }
  }

  /** A non-zero 32-bit register never becomes zero: bit 31 of the polynomial is set. */
  lemma {:induction false} ShiftsNonZero(r: nat, n: nat)
    requires 0 < r < 0x1_0000_0000
    ensures 0 < Shifts(r, n) < 0x1_0000_0000
    decreases n
  {
    if n > 0 {
      ShiftBound(r);
      if r % 2 == 1 {
        Pow2Of32();
        XorTopBit(r / 2, POLYNOMIAL, 31);
      }
      ShiftsNonZero(Shift(r), n - 1);
    }
  }

  lemma XorOfByteAndRest(b: Byte, y: nat)
    ensures Xor(b, 256 * y) == b + 256 * y
  {
    hide Xor, Pow2;
    LeftByte(y);
    LeftByte(0);
    XorOfParts(b, 0, 0, y, 8);
    XorZero(b);
    XorCommutes(0, y);
    XorZero(y);
  }

  /** All the bytes at once: the register divides the little-endian number of the data. */
  lemma {:induction false} FeedAllIsDivision(r: nat, data: Bytes)
    ensures FeedAll(r, data) == Shifts(Xor(r, FromLittleEndian(data)), 8 * |data|)
    decreases |data|
  {
    hide Xor, Left;
    if data == [] {
      XorZero(r);
    } else {
      var b, tail := data[0], data[1..];
      var y := FromLittleEndian(tail);
      FeedAllIsDivision(Feed(r, b), tail);
      calc {
        Xor(Shifts(Xor(r, b), 8), y);
        { LeftByte(y); ShiftsOfLeft(y, 8); }
        Xor(Shifts(Xor(r, b), 8), Shifts(256 * y, 8));
        { ShiftsLinear(Xor(r, b), 256 * y, 8); }
        Shifts(Xor(Xor(r, b), 256 * y), 8);
        { XorAssociates(r, b, 256 * y); XorOfByteAndRest(b, y); }
        Shifts(Xor(r, FromLittleEndian(data)), 8);
      }
      ShiftsSum(Xor(r, FromLittleEndian(data)), 8, 8 * |tail|);
    }
  }

  /** The difference of two registers depends on the difference of the inputs alone. */
  lemma RegisterDifference(r: nat, a: Bytes, b: Bytes)
    requires |a| == |b|
    ensures Xor(FeedAll(r, a), FeedAll(r, b))
         == Shifts(Xor(FromLittleEndian(a), FromLittleEndian(b)), 8 * |a|)
  {
    var x, y, n := FromLittleEndian(a), FromLittleEndian(b), 8 * |a|;
    FeedAllIsDivision(r, a);
    FeedAllIsDivision(r, b);
    ShiftsLinear(Xor(r, x), Xor(r, y), n);
    calc {
      Xor(Xor(r, x), Xor(r, y));
      { XorCommutes(r, x); XorAssociates(x, r, Xor(r, y)); }
      Xor(x, Xor(r, Xor(r, y)));
      { XorAssociates(r, r, y); XorSelf(r); XorCommutes(0, y); XorZero(y); }
      Xor(x, y);
    }
  }

  // ---------------------------------------------------------------------------
  // Error detection
  // ---------------------------------------------------------------------------

  /** The inputs differ only inside one run of at most 32 bits, starting at bit `k`. */
  ghost predicate BurstApart(a: Bytes, b: Bytes, d: nat, k: nat) {
    && |a| == |b|
    && 0 < d < 0x1_0000_0000
    && Xor(FromLittleEndian(a), FromLittleEndian(b)) == Left(d, k)
  }

  lemma BurstInsideData(a: Bytes, b: Bytes, d: nat, k: nat)
    requires BurstApart(a, b, d, k)
    ensures k < 8 * |a|
  {
    FromLittleEndianBound(a);
    FromLittleEndianBound(b);
    XorBound(FromLittleEndian(a), FromLittleEndian(b), 8 * |a|);
    LeftAtLeast(d, k);
    if k >= 8 * |a| {
      Pow2Monotone(8 * |a|, k);
    }
  }

  lemma RegistersApart(r: nat, a: Bytes, b: Bytes, d: nat, k: nat)
    requires BurstApart(a, b, d, k)
    ensures FeedAll(r, a) != FeedAll(r, b)
  {
    hide Xor, FeedAll, Left, Shifts;
    var n := 8 * |a|;
    BurstInsideData(a, b, d, k);
    RegisterDifference(r, a, b);
    ShiftsSum(Left(d, k), k, n - k);
    ShiftsOfLeft(d, k);
    ShiftsNonZero(d, n - k);
    XorSelf(FeedAll(r, a));
  }

  /** Every error burst of at most 32 bits changes the checksum. */
  lemma BurstDetected(a: Bytes, b: Bytes, d: nat, k: nat)
    requires BurstApart(a, b, d, k)
    ensures Checksum(a) != Checksum(b)
  {
    RegistersApart(ALL_ONES, a, b, d, k);
    XorCancels(FeedAll(ALL_ONES, a), ALL_ONES);
    XorCancels(FeedAll(ALL_ONES, b), ALL_ONES);
  }

  /** Equal lengths, and equal bytes outside four consecutive positions. */
  ghost predicate DifferInWindow(a: Bytes, b: Bytes, i: nat) {
    && |a| == |b|
    && a != b
    && forall j :: 0 <= j < |a| && !(i <= j < i + 4) ==> a[j] == b[j]
  }

  /** The xor of two inputs that agree outside `[i, i + 4)` is a 32-bit word at byte `i`. */
  lemma {:induction false} WindowDifference(a: Bytes, b: Bytes, i: nat) returns (d: nat)
    requires DifferInWindow(a, b, i)
    ensures BurstApart(a, b, d, 8 * i)
  {
    hide Xor, FromLittleEndian, Left;
    var m := Min(i + 4, |a|);
    assert i >= |a| ==> a == b;
    var head, tail := a[..i], a[m..];
    var s, t := a[i..m], b[i..m];
    assert b[..i] == head && b[m..] == tail;
    assert a == head + (s + tail);
    assert b == head + (t + tail);
    d := WindowWord(s, t, tail);
    CommonHead(head, s + tail, t + tail);
  }

  lemma CommonHead(head: Bytes, x: Bytes, y: Bytes)
    ensures Xor(FromLittleEndian(head + x), FromLittleEndian(head + y))
         == Left(Xor(FromLittleEndian(x), FromLittleEndian(y)), 8 * |head|)
  {
    FromLittleEndianConcat(head, x);
    FromLittleEndianConcat(head, y);
    CommonHeadBytes(head, FromLittleEndian(head + x), FromLittleEndian(head + y),
                    FromLittleEndian(x), FromLittleEndian(y));
  }

  lemma CommonHeadBytes(head: Bytes, p: nat, q: nat, x: nat, y: nat)
    requires p == FromLittleEndian(head) + Left(x, 8 * |head|)
    requires q == FromLittleEndian(head) + Left(y, 8 * |head|)
    ensures Xor(p, q) == Left(Xor(x, y), 8 * |head|)
  {
    hide Xor, FromLittleEndian, Left;
    FromLittleEndianBound(head);
    CommonLowPart(FromLittleEndian(head), x, y, 8 * |head|);
  }

  lemma CommonLowPart(h: nat, x: nat, y: nat, n: nat)
    requires h < Pow2(n)
    ensures Xor(h + Left(x, n), h + Left(y, n)) == Left(Xor(x, y), n)
  {
    XorOfParts(h, h, x, y, n);
    XorSelf(h);
  }

  lemma WindowWord(s: Bytes, t: Bytes, tail: Bytes) returns (d: nat)
    requires |s| == |t| <= 4 && s != t
    ensures 0 < d < 0x1_0000_0000
    ensures Xor(FromLittleEndian(s + tail), FromLittleEndian(t + tail)) == d
  {
    hide Xor;
    var p, q, z := FromLittleEndian(s), FromLittleEndian(t), FromLittleEndian(tail);
    d := Xor(p, q);
    FromLittleEndianConcat(s, tail);
    FromLittleEndianConcat(t, tail);
    FromLittleEndianBound(s);
    FromLittleEndianBound(t);
    XorOfParts(p, q, z, z, 8 * |s|);
    XorSelf(z);
    LeftOfZero(8 * |s|);
    Pow2Of32();
    Pow2Monotone(8 * |s|, 32);
    Word32Bound(p, q);
    if d == 0 {
      XorCancels(p, q);
      XorCommutes(0, q);
      XorZero(q);
      FromLittleEndianRoundTrip(s);
      FromLittleEndianRoundTrip(t);
    }
  }

  lemma {:induction false} LeftOfZero(k: nat)
    ensures Left(0, k) == 0
  {
    if k > 0 {
      LeftOfZero(k - 1);
    }
  }

  /** Two different files of one length that differ only inside four consecutive bytes never collide. */
  lemma WindowDetected(a: Bytes, b: Bytes, i: nat)
    requires DifferInWindow(a, b, i)
    ensures Checksum(a) != Checksum(b)
  {
    var d := WindowDifference(a, b, i);
    BurstDetected(a, b, d, 8 * i);
  }

  /** Data followed by its own checksum leaves the same register, whatever the data. */
  lemma AppendedChecksum(data: Bytes)
    ensures FeedAll(ALL_ONES, data + LittleEndian(Checksum(data), 4)) == Shifts(ALL_ONES, 32)
  {
    var r, word := FeedAll(ALL_ONES, data), LittleEndian(Checksum(data), 4);
    FeedConcat(ALL_ONES, data, word);
    FeedAllIsDivision(r, word);
    Pow256Values();
    LittleEndianRoundTrip(Checksum(data), 4);
    XorAssociates(r, r, ALL_ONES);
    XorSelf(r);
    XorCommutes(0, ALL_ONES);
    XorZero(ALL_ONES);
  }

  // ---------------------------------------------------------------------------
  // The polynomial at work
  // ---------------------------------------------------------------------------

  /** A register as four machine bytes, the highest first. */
  datatype Word = Word(b3: bv8, b2: bv8, b1: bv8, b0: bv8) {
    function Value(): nat {
      Number(ToNat(b3), ToNat(b2), ToNat(b1), ToNat(b0))
    }
  }

  function XorWords(x: Word, y: Word): Word {
    Word(x.b3 ^ y.b3, x.b2 ^ y.b2, x.b1 ^ y.b1, x.b0 ^ y.b0)
  }

  function HalfWord(x: Word): Word {
    Word(x.b3 >> 1, (x.b2 >> 1) | (x.b3 << 7), (x.b1 >> 1) | (x.b2 << 7), (x.b0 >> 1) | (x.b1 << 7))
  }

  function ShiftWord(x: Word): Word {
    if x.b0 & 1 == 1 then XorWords(HalfWord(x), Word(0xED, 0xB8, 0x83, 0x20)) else HalfWord(x)
  }

  function FeedWord(x: Word, b: bv8): Word {
    ShiftWord(ShiftWord(ShiftWord(ShiftWord(ShiftWord(ShiftWord(ShiftWord(ShiftWord(x.(b0 := x.b0 ^ b)))))))))
  }

  lemma XorOfLowByte(p: nat, q: nat, x: nat, y: nat)
    requires p < 256 && q < 256
    ensures Xor(p + 256 * x, q + 256 * y) == Xor(p, q) + 256 * Xor(x, y)
  {
    hide Xor, Left, Pow2;
    LeftByte(x);
    LeftByte(y);
    LeftByte(Xor(x, y));
    XorOfParts(p, q, x, y, 8);
  }

  function Number(b3: nat, b2: nat, b1: nat, b0: nat): nat {
    b0 + 256 * (b1 + 256 * (b2 + 256 * b3))
  }

  lemma XorOfNumbers(a3: nat, a2: nat, a1: nat, a0: nat, b3: nat, b2: nat, b1: nat, b0: nat)
    requires a2 < 256 && a1 < 256 && a0 < 256 && b2 < 256 && b1 < 256 && b0 < 256
    ensures Xor(Number(a3, a2, a1, a0), Number(b3, b2, b1, b0))
         == Number(Xor(a3, b3), Xor(a2, b2), Xor(a1, b1), Xor(a0, b0))
  {
    hide Xor;
    XorOfLowByte(a0, b0, a1 + 256 * (a2 + 256 * a3), b1 + 256 * (b2 + 256 * b3));
    XorOfLowByte(a1, b1, a2 + 256 * a3, b2 + 256 * b3);
    XorOfLowByte(a2, b2, a3, b3);
  }

  lemma XorIsXorWords(x: Word, y: Word)
    ensures Xor(x.Value(), y.Value()) == XorWords(x, y).Value()
  {
    hide Xor, Number, ToNat;
    XorOfNumbers(ToNat(x.b3), ToNat(x.b2), ToNat(x.b1), ToNat(x.b0),
                 ToNat(y.b3), ToNat(y.b2), ToNat(y.b1), ToNat(y.b0));
    ValueOfXor(x, y, XorWords(x, y));
  }

  lemma ValueOfXor(x: Word, y: Word, z: Word)
    requires z.b3 == x.b3 ^ y.b3 && z.b2 == x.b2 ^ y.b2 && z.b1 == x.b1 ^ y.b1 && z.b0 == x.b0 ^ y.b0
    ensures z.Value() == Number(Xor(ToNat(x.b3), ToNat(y.b3)), Xor(ToNat(x.b2), ToNat(y.b2)),
                                Xor(ToNat(x.b1), ToNat(y.b1)), Xor(ToNat(x.b0), ToNat(y.b0)))
  {
    hide Xor, Number, ToNat;
    XorIsBitwise(x.b0, y.b0);
    XorIsBitwise(x.b1, y.b1);
    XorIsBitwise(x.b2, y.b2);
    XorIsBitwise(x.b3, y.b3);
  }

  lemma CarriedHalf(low: bv8, high: bv8)
    ensures ToNat((low >> 1) | (high << 7)) == ToNat(low >> 1) + 128 * ToNat(high & 1)
  {
  }

  lemma HalfByte(low: bv8, high: bv8)
    ensures ToNat((low >> 1) | (high << 7)) == ToNat(low) / 2 + 128 * (ToNat(high) % 2)
  {
    hide ToNat;
    CarriedHalf(low, high);
    HalvesOfByte(low);
    HalvesOfByte(high);
  }

  lemma HalfIsHalfWord(x: Word)
    ensures x.Value() / 2 == HalfWord(x).Value() && x.Value() % 2 == ToNat(x.b0 & 1)
  {
    hide Number, ToNat;
    HalvesOfByte(x.b0);
    HalvesOfByte(x.b3);
    HalfByte(x.b0, x.b1);
    HalfByte(x.b1, x.b2);
    HalfByte(x.b2, x.b3);
    HalfOfNumber(ToNat(x.b3), ToNat(x.b2), ToNat(x.b1), ToNat(x.b0));
  }

  lemma HalfOfNumber(b3: nat, b2: nat, b1: nat, b0: nat)
    ensures Number(b3, b2, b1, b0) % 2 == b0 % 2
    ensures Number(b3, b2, b1, b0) / 2
         == Number(b3 / 2, b2 / 2 + 128 * (b3 % 2), b1 / 2 + 128 * (b2 % 2), b0 / 2 + 128 * (b1 % 2))
  {
  }

  lemma ShiftIsShiftWord(x: Word)
    ensures Shift(x.Value()) == ShiftWord(x).Value()
  {
    hide Xor, XorWords, HalfWord, ToNat, Number;
    LowBit(x.b0);
    PolynomialWord();
    HalfIsHalfWord(x);
    XorIsXorWords(HalfWord(x), Word(0xED, 0xB8, 0x83, 0x20));
  }

  lemma PolynomialWord()
    ensures Word(0xED, 0xB8, 0x83, 0x20).Value() == POLYNOMIAL
  {
  }

  lemma {:induction false} ShiftsIsShiftWords(x: Word, n: nat)
    ensures Shifts(x.Value(), n) == ShiftWords(x, n).Value()
    decreases n
  {
    hide ShiftWord, Shift;
    if n > 0 {
      ShiftIsShiftWord(x);
      ShiftsIsShiftWords(ShiftWord(x), n - 1);
    }
  }

  function ShiftWords(x: Word, n: nat): Word
    decreases n
  {
    if n == 0 then x else ShiftWords(ShiftWord(x), n - 1)
  }

  lemma LowWord(x: Word, b: bv8)
    ensures Word(0, 0, 0, b).Value() == ToNat(b)
    ensures XorWords(x, Word(0, 0, 0, b)) == x.(b0 := x.b0 ^ b)
  {
    hide ToNat;
    LowBit(b);
  }

  lemma FeedIsFeedWord(x: Word, b: bv8)
    ensures Feed(x.Value(), ToNat(b)) == FeedWord(x, b).Value()
  {
    hide Xor, ShiftWord, Shifts, XorWords, Number, ToNat;
    LowWord(x, b);
    XorIsXorWords(x, Word(0, 0, 0, b));
    ShiftsIsShiftWords(x.(b0 := x.b0 ^ b), 8);
    EightShifts(x.(b0 := x.b0 ^ b));
  }

  lemma EightShifts(x: Word)
    ensures ShiftWords(x, 8)
         == ShiftWord(ShiftWord(ShiftWord(ShiftWord(ShiftWord(ShiftWord(ShiftWord(ShiftWord(x))))))))
  {
    hide ShiftWord;
    var y := ShiftWord(ShiftWord(x));
    var z := ShiftWord(ShiftWord(y));
    var u := ShiftWord(ShiftWord(z));
    assert ShiftWords(x, 8) == ShiftWords(y, 6);
    assert ShiftWords(y, 6) == ShiftWords(z, 4);
    assert ShiftWords(z, 4) == ShiftWords(u, 2);
    assert ShiftWords(u, 2) == ShiftWords(ShiftWord(ShiftWord(u)), 0);
  }

  /** Nine bytes, one after the other. */
  lemma FeedBytes(r: nat, data: Bytes, b: Byte, rest: Bytes)
    requires data == [b] + rest
    ensures FeedAll(r, data) == FeedAll(Feed(r, b), rest)
  {
    assert data[1..] == rest;
  }

  /** The register after the digits 1 to 9. */
  lemma CheckRegister()
    ensures FeedAll(ALL_ONES, [49, 50, 51, 52, 53, 54, 55, 56, 57]) == Word(0x34, 0x0B, 0xC6, 0xD9).Value()
  {
    hide Feed, FeedAll;
    assert Word(0xFF, 0xFF, 0xFF, 0xFF).Value() == ALL_ONES;
    FeedIsFeedWord(Word(0xFF, 0xFF, 0xFF, 0xFF), 49);
    assert FeedWord(Word(0xFF, 0xFF, 0xFF, 0xFF), 49) == Word(0x7C, 0x23, 0x10, 0x48);
    FeedBytes(Word(0xFF, 0xFF, 0xFF, 0xFF).Value(), [49, 50, 51, 52, 53, 54, 55, 56, 57], 49,
              [50, 51, 52, 53, 54, 55, 56, 57]);
    FeedIsFeedWord(Word(0x7C, 0x23, 0x10, 0x48), 50);
    assert FeedWord(Word(0x7C, 0x23, 0x10, 0x48), 50) == Word(0xB0, 0xAC, 0xBB, 0x32);
    FeedBytes(Word(0x7C, 0x23, 0x10, 0x48).Value(), [50, 51, 52, 53, 54, 55, 56, 57], 50, [51, 52, 53, 54, 55, 56, 57]);
    FeedIsFeedWord(Word(0xB0, 0xAC, 0xBB, 0x32), 51);
    assert FeedWord(Word(0xB0, 0xAC, 0xBB, 0x32), 51) == Word(0x77, 0xB7, 0x9C, 0x2D);
    FeedBytes(Word(0xB0, 0xAC, 0xBB, 0x32).Value(), [51, 52, 53, 54, 55, 56, 57], 51, [52, 53, 54, 55, 56, 57]);
    FeedIsFeedWord(Word(0x77, 0xB7, 0x9C, 0x2D), 52);
    assert FeedWord(Word(0x77, 0xB7, 0x9C, 0x2D), 52) == Word(0x64, 0x1C, 0x1F, 0x5C);
    FeedBytes(Word(0x77, 0xB7, 0x9C, 0x2D).Value(), [52, 53, 54, 55, 56, 57], 52, [53, 54, 55, 56, 57]);
    FeedIsFeedWord(Word(0x64, 0x1C, 0x1F, 0x5C), 53);
    assert FeedWord(Word(0x64, 0x1C, 0x1F, 0x5C), 53) == Word(0x34, 0x0A, 0xC5, 0xE3);
    FeedBytes(Word(0x64, 0x1C, 0x1F, 0x5C).Value(), [53, 54, 55, 56, 57], 53, [54, 55, 56, 57]);
    FeedIsFeedWord(Word(0x34, 0x0A, 0xC5, 0xE3), 54);
    assert FeedWord(Word(0x34, 0x0A, 0xC5, 0xE3), 54) == Word(0xF6, 0x8D, 0x2C, 0x9E);
    FeedBytes(Word(0x34, 0x0A, 0xC5, 0xE3).Value(), [54, 55, 56, 57], 54, [55, 56, 57]);
    FeedIsFeedWord(Word(0xF6, 0x8D, 0x2C, 0x9E), 55);
    assert FeedWord(Word(0xF6, 0x8D, 0x2C, 0x9E), 55) == Word(0xAF, 0xFC, 0x96, 0x60);
    FeedBytes(Word(0xF6, 0x8D, 0x2C, 0x9E).Value(), [55, 56, 57], 55, [56, 57]);
    FeedIsFeedWord(Word(0xAF, 0xFC, 0x96, 0x60), 56);
    assert FeedWord(Word(0xAF, 0xFC, 0x96, 0x60), 56) == Word(0x65, 0x1F, 0x25, 0x50);
    FeedBytes(Word(0xAF, 0xFC, 0x96, 0x60).Value(), [56, 57], 56, [57]);
    FeedIsFeedWord(Word(0x65, 0x1F, 0x25, 0x50), 57);
    assert FeedWord(Word(0x65, 0x1F, 0x25, 0x50), 57) == Word(0x34, 0x0B, 0xC6, 0xD9);
    FeedBytes(Word(0x65, 0x1F, 0x25, 0x50).Value(), [57], 57, []);
    NoBytes(Word(0x34, 0x0B, 0xC6, 0xD9).Value());
  }

  lemma NoBytes(r: nat)
    ensures FeedAll(r, []) == r
  {
  }

  /** The check value of CRC-32: the checksum of the digits 1 to 9. */
  lemma CheckValue()
    ensures Checksum([49, 50, 51, 52, 53, 54, 55, 56, 57]) == 0xCBF4_3926
  {
    hide Xor, FeedAll;
    CheckRegister();
    XorIsXorWords(Word(0x34, 0x0B, 0xC6, 0xD9), Word(0xFF, 0xFF, 0xFF, 0xFF));
    assert XorWords(Word(0x34, 0x0B, 0xC6, 0xD9), Word(0xFF, 0xFF, 0xFF, 0xFF)).Value() == 0xCBF4_3926;
  }

  /** The bits of the generator: bit 31 - e for every term x^e but x^32. */
  const TERMS: set<nat> := {5, 8, 9, 15, 19, 20, 21, 23, 24, 26, 27, 29, 30, 31}

  lemma PolynomialBit(k: nat)
    ensures Bit(POLYNOMIAL, k) == if k in TERMS then 1 else 0
  {
    hide Bit;
    BitsOfDigit(POLYNOMIAL);
    BitsOfDigit(0x0EDB_8832);
    BitsOfDigit(0x00ED_B883);
    BitsOfDigit(0x000E_DB88);
    BitsOfDigit(0x0000_EDB8);
    BitsOfDigit(0x0000_0EDB);
    BitsOfDigit(0x0000_00ED);
    BitsOfDigit(0x0000_000E);
    if k >= 4 { BitAboveDigit(POLYNOMIAL, k - 4); }
    if k >= 8 { BitAboveDigit(0x0EDB_8832, k - 8); }
    if k >= 12 { BitAboveDigit(0x00ED_B883, k - 12); }
    if k >= 16 { BitAboveDigit(0x000E_DB88, k - 16); }
    if k >= 20 { BitAboveDigit(0x0000_EDB8, k - 20); }
    if k >= 24 { BitAboveDigit(0x0000_0EDB, k - 24); }
    if k >= 28 { BitAboveDigit(0x0000_00ED, k - 28); }
    if k >= 32 { BitAboveDigit(0x0000_000E, k - 32); BitOfZero(k - 32); }
  }

  /**
   * One step of the register moves every bit down by one; if the bit that falls out is set, exactly the bits of
   * the generator are flipped.
   */
  lemma ShiftBits(r: nat, k: nat)
    ensures Bit(Shift(r), k)
         == if r % 2 == 1 && k in {5, 8, 9, 15, 19, 20, 21, 23, 24, 26, 27, 29, 30, 31}
            then 1 - Bit(r, k + 1) else Bit(r, k + 1)
  {
    hide Bit, Xor;
    BitHigher(r, k);
    PolynomialBit(k);
    XorBit(r / 2, POLYNOMIAL, k);
  }
}
