/** Bytes, machine words and the byte-level building blocks every wire format of the client uses. */
module Binary {

  datatype Option<+T> = None | Some(value: T)

  type Byte = b: int | 0 <= b < 0x100
  type Word16 = w: int | 0 <= w < 0x1_0000
  type Word32 = w: int | 0 <= w < 0x1_0000_0000
  /** `std::string`, `std::vector<char>` and `std::array<char, N>` alike: `char` is one byte there. */
  type Bytes = seq<Byte>

  function Min(a: nat, b: nat): nat {
    if a <= b then a else b
  }

  function Zeros(n: nat): (z: Bytes)
    ensures |z| == n && forall i :: 0 <= i < n ==> z[i] == 0
  {
    seq(n, i => 0)
  }

  function Reverse(s: Bytes): (r: Bytes)
    ensures |r| == |s|
  {
    if s == [] then [] else Reverse(s[1..]) + [s[0]]
  }

  // ---------------------------------------------------------------------------
  // Integers as bytes
  // ---------------------------------------------------------------------------

  function Pow256(n: nat): (p: nat)
    ensures p > 0
  {
    if n == 0 then 1 else 256 * Pow256(n - 1)
  }

  /** The memory image of an unsigned integer of `width` bytes on a little-endian host. */
  function LittleEndian(v: nat, width: nat): (s: Bytes)
    ensures |s| == width
  {
    if width == 0 then [] else [v % 256] + LittleEndian(v / 256, width - 1)
  }

  function FromLittleEndian(s: Bytes): nat {
    if s == [] then 0 else s[0] + 256 * FromLittleEndian(s[1..])
  }

  /** Network order: most significant byte first. */
  function BigEndian(v: nat, width: nat): (s: Bytes)
    ensures |s| == width
  {
    if width == 0 then [] else BigEndian(v / 256, width - 1) + [v % 256]
  }

  function FromBigEndian(s: Bytes): nat {
    if s == [] then 0 else 256 * FromBigEndian(s[..|s| - 1]) + s[|s| - 1]
  }

  /** `ntohs`/`ntohl` on a little-endian host: the integer whose memory image is reversed. */
  function NetworkToHost(v: nat, width: nat): nat {
    FromLittleEndian(Reverse(LittleEndian(v, width)))
  }

  lemma LowByte(b: Byte, v: nat)
    ensures (b + 256 * v) % 256 == b && (b + 256 * v) / 256 == v
  {
  }

  lemma {:induction false} LittleEndianRoundTrip(v: nat, width: nat)
    requires v < Pow256(width)
    ensures FromLittleEndian(LittleEndian(v, width)) == v
  {
    if width > 0 {
      LittleEndianRoundTrip(v / 256, width - 1);
      assert LittleEndian(v, width)[1..] == LittleEndian(v / 256, width - 1);
    }
  }

  lemma {:induction false} FromLittleEndianRoundTrip(s: Bytes)
    ensures FromLittleEndian(s) < Pow256(|s|)
    ensures LittleEndian(FromLittleEndian(s), |s|) == s
  {
    if s != [] {
      FromLittleEndianRoundTrip(s[1..]);
      LowByte(s[0], FromLittleEndian(s[1..]));
      assert s == [s[0]] + s[1..];
    }
  }

  lemma {:induction false} BigEndianRoundTrip(v: nat, width: nat)
    requires v < Pow256(width)
    ensures FromBigEndian(BigEndian(v, width)) == v
  {
    if width > 0 {
      BigEndianRoundTrip(v / 256, width - 1);
      assert BigEndian(v, width)[..width - 1] == BigEndian(v / 256, width - 1);
    }
  }

  lemma {:induction false} FromBigEndianRoundTrip(s: Bytes)
    ensures FromBigEndian(s) < Pow256(|s|)
    ensures BigEndian(FromBigEndian(s), |s|) == s
  {
    if s != [] {
      var init, last := s[..|s| - 1], s[|s| - 1];
      FromBigEndianRoundTrip(init);
      LowByte(last, FromBigEndian(init));
      assert s == init + [last];
    }
  }

  lemma {:induction false} FromBigEndianIsReversed(s: Bytes)
    ensures FromBigEndian(s) == FromLittleEndian(Reverse(s))
  {
    if s != [] {
      var init, last := s[..|s| - 1], s[|s| - 1];
      FromBigEndianIsReversed(init);
      ReverseSnoc(init, last);
      assert s == init + [last];
      assert ([last] + Reverse(init))[1..] == Reverse(init);
    }
  }

  lemma {:induction false} ReverseSnoc(s: Bytes, b: Byte)
    ensures Reverse(s + [b]) == [b] + Reverse(s)
  {
    if s == [] {
    } else {
      ReverseSnoc(s[1..], b);
      assert (s + [b])[1..] == s[1..] + [b];
    }
  }

  /** Reading a field as a host integer and swapping it afterwards reads it in network order. */
  lemma {:induction false} NetworkFieldIsBigEndian(s: Bytes)
    ensures NetworkToHost(FromLittleEndian(s), |s|) == FromBigEndian(s) < Pow256(|s|)
  {
    FromLittleEndianRoundTrip(s);
    FromBigEndianIsReversed(s);
    FromBigEndianRoundTrip(s);
  }

  /** Byte by byte, the lowest first. */
  lemma LittleEndianBytes(v: nat)
    ensures v < 0x100 ==> LittleEndian(v, 1) == [v]
    ensures v < 0x1_0000 ==> LittleEndian(v, 2) == [v % 256, v / 256]
    ensures v < 0x1_0000_0000 ==>
              LittleEndian(v, 4) == [v % 256, v / 256 % 256, v / 0x1_0000 % 256, v / 0x100_0000]
  {
    hide LittleEndian;
    if v < 0x100 {
      LittleEndianOfOne(v);
    }
    if v < 0x1_0000 {
      LittleEndianOfTwo(v);
    }
    if v < 0x1_0000_0000 {
      LittleEndianOfFour(v);
    }
  }

  lemma LittleEndianOfOne(v: nat)
    requires v < 0x100
    ensures LittleEndian(v, 1) == [v]
  {
    assert LittleEndian(v, 1) == [v % 256] + LittleEndian(v / 256, 0);
  }

  lemma LittleEndianOfTwo(v: nat)
    requires v < 0x1_0000
    ensures LittleEndian(v, 2) == [v % 256, v / 256]
  {
    var v1 := v / 256;
    assert LittleEndian(v, 2) == [v % 256] + LittleEndian(v1, 1);
    LittleEndianOfOne(v1);
  }

  lemma LittleEndianOfFour(v: nat)
    requires v < 0x1_0000_0000
    ensures LittleEndian(v, 4) == [v % 256, v / 256 % 256, v / 0x1_0000 % 256, v / 0x100_0000]
  {
    var v1, v2, v3 := v / 256, v / 0x1_0000, v / 0x100_0000;
    assert v1 / 256 == v2 && v2 / 256 == v3 && v3 < 256;
    assert LittleEndian(v, 4) == [v % 256] + LittleEndian(v1, 3);
    assert LittleEndian(v1, 3) == [v1 % 256] + LittleEndian(v2, 2);
    assert LittleEndian(v2, 2) == [v2 % 256] + LittleEndian(v3, 1);
    assert LittleEndian(v3, 1) == [v3 % 256] + LittleEndian(v3 / 256, 0);
  }

  /** A number in base 256, the last digit given separately. */
  function Digits256(high: nat, low: nat): nat {
    256 * high + low
  }

  /** Network order, the highest byte first. */
  lemma BigEndianBytes(s: Bytes)
    ensures |s| == 2 ==> FromBigEndian(s) == Digits256(s[0], s[1])
    ensures |s| == 4 ==> FromBigEndian(s) == Digits256(Digits256(Digits256(s[0], s[1]), s[2]), s[3])
  {
    if |s| == 2 {
      FromBigEndianSteps(s, 2);
    }
    if |s| == 4 {
      FromBigEndianSteps(s, 4);
      FromBigEndianSteps(s, 2);
    }
  }

  lemma FromBigEndianSteps(s: Bytes, n: nat)
    requires 2 <= n <= |s|
    ensures FromBigEndian(s[..n]) == 256 * (256 * FromBigEndian(s[..n - 2]) + s[n - 2]) + s[n - 1]
    ensures FromBigEndian(s[..0]) == 0 && s[..|s|] == s
  {
    assert s[..n][..n - 1] == s[..n - 1] && s[..n - 1][..n - 2] == s[..n - 2];
  }

  lemma Pow256Values()
    ensures Pow256(1) == 0x100 && Pow256(2) == 0x1_0000 && Pow256(4) == 0x1_0000_0000
  {
    assert Pow256(0) == 1;
    assert Pow256(1) == 256 * Pow256(0);
    assert Pow256(2) == 256 * Pow256(1);
    assert Pow256(3) == 256 * Pow256(2);
    assert Pow256(4) == 256 * Pow256(3);
  }

  // ---------------------------------------------------------------------------
  // Fixed-width text fields
  // ---------------------------------------------------------------------------

  /** A text in a zero-filled field of `width` bytes, cut so that at least one zero remains. */
  function TextField(text: Bytes, width: nat): (f: Bytes)
    requires width > 0
    ensures |f| == width
  {
    var n := Min(|text|, width - 1);
    text[..n] + Zeros(width - n)
  }

  /** `std::string(field.data())`: everything before the first zero byte. */
  function FieldText(f: Bytes): Bytes {
    if f == [] || f[0] == 0 then [] else [f[0]] + FieldText(f[1..])
  }

  ghost predicate ZeroFree(s: Bytes) {
    forall i :: 0 <= i < |s| ==> s[i] != 0
  }

  /** The text at the front, as far as it leaves room for a zero, and zeros behind it. */
  lemma TextFieldBytes(text: Bytes, width: nat)
    requires width > 0
    ensures forall i :: 0 <= i < width ==>
              TextField(text, width)[i] == if i < |text| && i < width - 1 then text[i] else 0
  {
  }

  /** A zero-free text survives its field exactly when it leaves room for the terminator. */
  lemma TextFieldRoundTrip(text: Bytes, width: nat)
    requires width > 0 && ZeroFree(text)
    ensures FieldText(TextField(text, width)) == text <==> |text| < width
  {
    var n := Min(|text|, width - 1);
    FieldTextOfPadded(text[..n], Zeros(width - n));
    if |text| < width {
      assert text[..n] == text;
    }
  }

  lemma {:induction false} FieldTextOfPadded(text: Bytes, pad: Bytes)
    requires ZeroFree(text) && |pad| > 0 && pad[0] == 0
    ensures FieldText(text + pad) == text
  {
    if text == [] {
      assert text + pad == pad;
    } else {
      FieldTextOfPadded(text[1..], pad);
      assert (text + pad)[1..] == text[1..] + pad;
    }
  }

  // ---------------------------------------------------------------------------
  // Field lists: a record on the wire is the concatenation of its fields
  // ---------------------------------------------------------------------------

  function Flatten(fs: seq<Bytes>): Bytes {
    if fs == [] then [] else fs[0] + Flatten(fs[1..])
  }

  function Sum(lens: seq<nat>): nat {
    if lens == [] then 0 else lens[0] + Sum(lens[1..])
  }

  function Lengths(fs: seq<Bytes>): (lens: seq<nat>)
    ensures |lens| == |fs| && forall i :: 0 <= i < |fs| ==> lens[i] == |fs[i]|
  {
    seq(|fs|, i requires 0 <= i < |fs| => |fs[i]|)
  }

  /** Cuts a buffer into consecutive fields of the given lengths. */
  function Cut(data: Bytes, lens: seq<nat>): (fs: seq<Bytes>)
    requires Sum(lens) <= |data|
    ensures |fs| == |lens| && forall i :: 0 <= i < |fs| ==> |fs[i]| == lens[i]
    decreases |lens|
  {
    if lens == [] then [] else [data[..lens[0]]] + Cut(data[lens[0]..], lens[1..])
  }

  lemma {:induction false} FlattenLength(fs: seq<Bytes>)
    ensures |Flatten(fs)| == Sum(Lengths(fs))
  {
    if fs != [] {
      FlattenLength(fs[1..]);
      assert Lengths(fs)[1..] == Lengths(fs[1..]);
    }
  }

  lemma {:induction false} CutOfFlatten(fs: seq<Bytes>, lens: seq<nat>, rest: Bytes)
    requires lens == Lengths(fs)
    ensures |Flatten(fs)| == Sum(lens)
    ensures Cut(Flatten(fs) + rest, lens) == fs
  {
    FlattenLength(fs);
    if fs != [] {
      assert lens[1..] == Lengths(fs[1..]);
      CutOfFlatten(fs[1..], lens[1..], rest);
      var data := Flatten(fs) + rest;
      assert data[..lens[0]] == fs[0];
      assert data[lens[0]..] == Flatten(fs[1..]) + rest;
    }
  }

  lemma {:induction false} FlattenOfCut(data: Bytes, lens: seq<nat>)
    requires Sum(lens) <= |data|
    ensures Flatten(Cut(data, lens)) == data[..Sum(lens)]
    decreases |lens|
  {
    if lens != [] {
      FlattenOfCut(data[lens[0]..], lens[1..]);
      assert Cut(data, lens)[1..] == Cut(data[lens[0]..], lens[1..]);
      assert data[..lens[0]] + data[lens[0]..][..Sum(lens[1..])] == data[..Sum(lens)];
    }
  }

  lemma {:induction false} FlattenAppend(a: seq<Bytes>, b: seq<Bytes>)
    ensures Flatten(a + b) == Flatten(a) + Flatten(b)
  {
    if a == [] {
      assert a + b == b;
    } else {
      FlattenAppend(a[1..], b);
      assert (a + b)[0] == a[0] && (a + b)[1..] == a[1..] + b;
      assert a[0] + (Flatten(a[1..]) + Flatten(b)) == a[0] + Flatten(a[1..]) + Flatten(b);
    }
  }

  lemma FlattenSnoc(a: seq<Bytes>, f: Bytes)
    ensures Flatten(a + [f]) == Flatten(a) + f
  {
    FlattenAppend(a, [f]);
    assert Flatten([f]) == f + Flatten([]);
  }

  lemma {:induction false} SumPrefix(lens: seq<nat>, i: nat)
    requires i < |lens|
    ensures Sum(lens[..i + 1]) == Sum(lens[..i]) + lens[i]
    ensures Sum(lens[..i + 1]) <= Sum(lens)
  {
    if i == 0 {
      assert Sum(lens[..1]) == lens[0] + Sum(lens[..1][1..]);
    } else {
      SumPrefix(lens[1..], i - 1);
      assert lens[..i + 1][1..] == lens[1..][..i] && lens[..i][1..] == lens[1..][..i - 1];
    }
  }

  /** The position of a field is the sum of the lengths before it. */
  lemma {:induction false} CutAt(data: Bytes, lens: seq<nat>, i: nat)
    requires Sum(lens) <= |data| && i < |lens|
    ensures Sum(lens[..i]) + lens[i] <= |data|
    ensures Cut(data, lens)[i] == data[Sum(lens[..i])..][..lens[i]]
    decreases i
  {
    SumPrefix(lens, i);
    if i > 0 {
      CutAt(data[lens[0]..], lens[1..], i - 1);
      assert lens[..i][1..] == lens[1..][..i - 1];
      assert Cut(data, lens)[i] == Cut(data[lens[0]..], lens[1..])[i - 1];
      assert data[lens[0]..][Sum(lens[1..][..i - 1])..] == data[Sum(lens[..i])..];
    }
  }

  // ---------------------------------------------------------------------------
  // Exclusive or
  // ---------------------------------------------------------------------------

  /** Bitwise exclusive or of two unsigned integers, lowest bit first. */
  function Xor(a: nat, b: nat): nat
    decreases a + b
  {
    if a == 0 && b == 0 then 0 else (a + b) % 2 + 2 * Xor(a / 2, b / 2)
  }

  lemma {:induction false} XorZero(a: nat)
    ensures Xor(a, 0) == a
  {
    if a > 0 {
      XorZero(a / 2);
    }
  }

  lemma {:induction false} XorCommutes(a: nat, b: nat)
    ensures Xor(a, b) == Xor(b, a)
    decreases a + b
  {
    if a + b > 0 {
      XorCommutes(a / 2, b / 2);
    }
  }

  /** The lowest bit of the result, and the result without it. */
  lemma XorHalves(a: nat, b: nat)
    ensures Xor(a, b) % 2 == (a + b) % 2
    ensures Xor(a, b) / 2 == Xor(a / 2, b / 2)
  {
    if a + b > 0 {
      var rest := Xor(a / 2, b / 2);
      assert Xor(a, b) == (a + b) % 2 + 2 * rest;
      Halves((a + b) % 2, rest);
    }
  }

  lemma Halves(bit: nat, rest: nat)
    requires bit < 2
    ensures (bit + 2 * rest) % 2 == bit && (bit + 2 * rest) / 2 == rest
  {
  }

  lemma SameHalves(x: nat, y: nat)
    requires x % 2 == y % 2 && x / 2 == y / 2
    ensures x == y
  {
  }

  lemma ParityOfSums(a: nat, b: nat, c: nat, ab: nat, bc: nat)
    requires ab % 2 == (a + b) % 2 && bc % 2 == (b + c) % 2
    ensures (ab + c) % 2 == (a + bc) % 2
  {
  }

  lemma {:induction false} XorAssociates(a: nat, b: nat, c: nat)
    ensures Xor(Xor(a, b), c) == Xor(a, Xor(b, c))
    decreases a + b + c
  {
    if a + b + c > 0 {
      XorAssociates(a / 2, b / 2, c / 2);
      XorHalves(a, b);
      XorHalves(b, c);
      XorHalves(Xor(a, b), c);
      XorHalves(a, Xor(b, c));
      ParityOfSums(a, b, c, Xor(a, b), Xor(b, c));
      SameHalves(Xor(Xor(a, b), c), Xor(a, Xor(b, c)));
    }
  }

  /** Applying the same mask twice gives the operand back. */
  lemma {:induction false} XorCancels(a: nat, b: nat)
    ensures Xor(Xor(a, b), b) == a
    decreases a + b
  {
    if a + b > 0 {
      XorCancels(a / 2, b / 2);
      XorHalves(a, b);
      XorHalves(Xor(a, b), b);
      ParityOfSums(a, b, b, Xor(a, b), 0);
      SameHalves(Xor(Xor(a, b), b), a);
    }
  }

  /** Bit `k`. */
  function Bit(a: nat, k: nat): (b: nat)
    ensures b < 2
  {
    if k == 0 then a % 2 else Bit(a / 2, k - 1)
  }

  lemma BitsOfDigit(a: nat)
    ensures Bit(a, 0) == a % 2 && Bit(a, 1) == a / 2 % 2 && Bit(a, 2) == a / 4 % 2 && Bit(a, 3) == a / 8 % 2
  {
    BitHigher(a, 0);
    BitHigher(a, 1);
    BitHigher(a / 2, 0);
    BitHigher(a, 2);
    BitHigher(a / 2, 1);
    BitHigher(a / 2 / 2, 0);
    assert a / 2 / 2 == a / 4 && a / 2 / 2 / 2 == a / 8;
  }

  lemma BitHigher(a: nat, k: nat)
    ensures Bit(a, k + 1) == Bit(a / 2, k)
  {
  }

  lemma BitAboveDigit(a: nat, k: nat)
    ensures Bit(a, k + 4) == Bit(a / 16, k)
  {
    hide Bit;
    BitHigher(a, k + 3);
    BitHigher(a / 2, k + 2);
    BitHigher(a / 2 / 2, k + 1);
    BitHigher(a / 2 / 2 / 2, k);
    assert a / 2 / 2 / 2 / 2 == a / 16;
  }

  lemma {:induction false} BitOfZero(k: nat)
    ensures Bit(0, k) == 0
  {
    if k > 0 {
      BitOfZero(k - 1);
    }
  }

  lemma {:induction false} BitIsQuotient(a: nat, k: nat)
    ensures Bit(a, k) == a / Pow2(k) % 2
    decreases k
  {
    if k > 0 {
      BitIsQuotient(a / 2, k - 1);
      QuotientOfHalf(a, Pow2(k - 1));
    }
  }

  lemma QuotientOfHalf(a: nat, p: nat)
    requires p > 0
    ensures a / (2 * p) == a / 2 / p
  {
    var q := a / 2 / p;
    assert q * p <= a / 2 < q * p + p;
    assert q * (2 * p) == 2 * (q * p);
    assert (2 * p) * q <= a < (2 * p) * q + 2 * p;
    QuotientUnique(a, 2 * p, q);
  }

  lemma QuotientUnique(a: nat, d: nat, q: nat)
    requires d > 0 && d * q <= a < d * q + d
    ensures a / d == q
  {
    var q' := a / d;
    assert d * q' <= a < d * q' + d;
    if q' < q {
      Multiples(d, q' + 1, q);
    }
    if q < q' {
      Multiples(d, q + 1, q');
    }
  }

  lemma Multiples(d: nat, m: nat, n: nat)
    requires m <= n
    ensures d * m <= d * n
  {
  }

  /** Every bit of an exclusive or is the sum modulo 2 of the two bits. */
  lemma {:induction false} XorBit(a: nat, b: nat, k: nat)
    ensures Bit(Xor(a, b), k) == (Bit(a, k) + Bit(b, k)) % 2
    decreases k
  {
    XorHalves(a, b);
    if k > 0 {
      XorBit(a / 2, b / 2, k - 1);
    }
  }

  /** The number a machine byte stands for. */
  function ToNat(x: bv8): (n: nat)
    ensures n < 256
  {
    x as nat
  }

  lemma HalvesOfByte(x: bv8)
    ensures ToNat(x) / 2 == ToNat(x >> 1) && ToNat(x) % 2 == ToNat(x & 1)
  {
  }

  lemma LowBit(x: bv8)
    ensures x & 1 == 0 || x & 1 == 1
    ensures ToNat(0) == 0 && ToNat(1) == 1
  {
  }

  lemma XorOfBits(x: bv8, y: bv8)
    ensures (x ^ y) & 1 == if x & 1 == y & 1 then 0 else 1
    ensures (x ^ y) >> 1 == (x >> 1) ^ (y >> 1)
  {
  }

  lemma ParityOfTwo(a: nat, b: nat)
    ensures (a + b) % 2 == if a % 2 == b % 2 then 0 else 1
  {
  }

  lemma XorFromHalves(a: nat, b: nat, z: nat)
    requires z % 2 == (if a % 2 == b % 2 then 0 else 1) && z / 2 == Xor(a / 2, b / 2)
    ensures Xor(a, b) == z
  {
    hide Xor;
    ParityOfTwo(a, b);
    XorHalves(a, b);
    SameHalves(Xor(a, b), z);
  }

  /** On bytes it is the machine's exclusive or. */
  lemma {:induction false} XorIsBitwise(x: bv8, y: bv8)
    ensures Xor(ToNat(x), ToNat(y)) == ToNat(x ^ y)
    decreases ToNat(x) + ToNat(y)
  {
    hide Xor, ToNat;
    LowBit(x);
    LowBit(y);
    if x == 0 && y == 0 {
      XorZero(0);
    } else {
      HalvesOfByte(x);
      HalvesOfByte(y);
      HalvesOfByte(x ^ y);
      XorOfBits(x, y);
      NonZero(x);
      NonZero(y);
      XorIsBitwise(x >> 1, y >> 1);
      XorFromHalves(ToNat(x), ToNat(y), ToNat(x ^ y));
    }
  }

  lemma NonZero(x: bv8)
    ensures x != 0 ==> ToNat(x) > 0
  {
  }

  /** `d << k`. */
  function Left(d: nat, k: nat): nat {
    if k == 0 then d else 2 * Left(d, k - 1)
  }

  function Pow2(n: nat): (p: nat)
    ensures p > 0
  {
    if n == 0 then 1 else 2 * Pow2(n - 1)
  }

  lemma {:induction false} XorBound(a: nat, b: nat, n: nat)
    requires a < Pow2(n) && b < Pow2(n)
    ensures Xor(a, b) < Pow2(n)
  {
    if n > 0 {
      XorBound(a / 2, b / 2, n - 1);
    }
  }

  /** A mask with bit `n` set moves every smaller number past that bit. */
  lemma {:induction false} XorTopBit(a: nat, mask: nat, n: nat)
    requires a < Pow2(n) && Pow2(n) <= mask < Pow2(n + 1)
    ensures Xor(a, mask) >= Pow2(n)
  {
    if n > 0 {
      XorTopBit(a / 2, mask / 2, n - 1);
    } else {
      assert Xor(0, 1) == 1;
    }
  }

  lemma XorSelf(a: nat)
    ensures Xor(a, a) == 0
  {
    XorCommutes(0, a);
    XorZero(a);
    XorCancels(0, a);
  }

  /** A common mask drops out of a difference. */
  lemma XorCommonMask(p: nat, q: nat, m: nat)
    ensures Xor(Xor(p, m), Xor(q, m)) == Xor(p, q)
  {
    XorCommutes(q, m);
    XorAssociates(Xor(p, m), m, q);
    XorCancels(p, m);
  }

  lemma XorSwap(p: nat, q: nat, m: nat)
    ensures Xor(Xor(p, m), q) == Xor(Xor(p, q), m)
  {
    XorAssociates(p, m, q);
    XorCommutes(m, q);
    XorAssociates(p, q, m);
  }

  /** Xor of two numbers, each a low part below `2^n` and a high part above it. */
  lemma {:induction false} XorOfParts(p: nat, q: nat, x: nat, y: nat, n: nat)
    requires p < Pow2(n) && q < Pow2(n)
    ensures Xor(p + Left(x, n), q + Left(y, n)) == Xor(p, q) + Left(Xor(x, y), n)
  {
    hide Xor;
    if n > 0 {
      var u, v := Left(x, n - 1), Left(y, n - 1);
      XorOfParts(p / 2, q / 2, x, y, n - 1);
      XorOfEvenParts(p, q, u, v, Left(Xor(x, y), n - 1));
    } else {
      XorZero(0);
    }
  }

  lemma EvenPart(p: nat, u: nat)
    ensures (p + 2 * u) % 2 == p % 2 && (p + 2 * u) / 2 == p / 2 + u
  {
  }

  lemma XorOfEvenParts(p: nat, q: nat, u: nat, v: nat, w: nat)
    requires Xor(p / 2 + u, q / 2 + v) == Xor(p / 2, q / 2) + w
    ensures Xor(p + 2 * u, q + 2 * v) == Xor(p, q) + 2 * w
  {
    hide Xor;
    EvenPart(p, u);
    EvenPart(q, v);
    XorHalves(p, q);
    XorHalves(p + 2 * u, q + 2 * v);
    EvenPart(p + q, u + v);
    EvenPart(Xor(p, q), w);
    SameHalves(Xor(p + 2 * u, q + 2 * v), Xor(p, q) + 2 * w);
  }

  lemma {:induction false} LeftSum(d: nat, j: nat, k: nat)
    ensures Left(Left(d, j), k) == Left(d, j + k)
  {
    if k > 0 {
      LeftSum(d, j, k - 1);
    }
  }

  lemma {:induction false} LeftAtLeast(d: nat, k: nat)
    requires d > 0
    ensures Left(d, k) >= Pow2(k)
  {
    if k > 0 {
      LeftAtLeast(d, k - 1);
    }
  }

  /** One byte is eight bits. */
  lemma LeftByte(y: nat)
    ensures Left(y, 8) == 256 * y && Pow2(8) == 256
  {
    hide Left, Pow2;
    Doubling(y, 1); Doubling(y, 2); Doubling(y, 3); Doubling(y, 4);
    Doubling(y, 5); Doubling(y, 6); Doubling(y, 7); Doubling(y, 8);
    NoDoubling(y);
  }

  lemma Doubling(y: nat, k: nat)
    requires k > 0
    ensures Left(y, k) == 2 * Left(y, k - 1) && Pow2(k) == 2 * Pow2(k - 1)
  {
  }

  lemma NoDoubling(y: nat)
    ensures Left(y, 0) == y && Pow2(0) == 1
  {
  }

  lemma {:induction false} Pow2Sum(a: nat, b: nat)
    ensures Pow2(a + b) == Left(Pow2(a), b)
  {
    if b > 0 {
      Pow2Sum(a, b - 1);
    }
  }

  lemma {:induction false} Pow2Monotone(m: nat, n: nat)
    requires m <= n
    ensures Pow2(m) <= Pow2(n)
  {
    if m < n {
      Pow2Monotone(m, n - 1);
    }
  }

  lemma Pow2Of32()
    ensures Pow2(31) == 0x8000_0000 && Pow2(32) == 0x1_0000_0000
  {
    LeftByte(0);
    Pow2Sum(8, 8);
    LeftByte(256);
    Pow2Sum(16, 8);
    LeftByte(0x1_0000);
    Pow2Sum(24, 8);
    LeftByte(0x100_0000);
  }

  /** The little-endian number of a concatenation. */
  lemma {:induction false} FromLittleEndianConcat(s: Bytes, t: Bytes)
    ensures FromLittleEndian(s + t) == FromLittleEndian(s) + Left(FromLittleEndian(t), 8 * |s|)
  {
    if s == [] {
      assert s + t == t;
    } else {
      FromLittleEndianConcat(s[1..], t);
      assert (s + t)[1..] == s[1..] + t;
      LeftSum(FromLittleEndian(t), 8 * |s[1..]|, 8);
      LeftByte(Left(FromLittleEndian(t), 8 * |s[1..]|));
    }
  }

  lemma {:induction false} FromLittleEndianBound(s: Bytes)
    ensures FromLittleEndian(s) < Pow2(8 * |s|)
  {
    if s != [] {
      FromLittleEndianBound(s[1..]);
      Pow2Sum(8 * |s[1..]|, 8);
      LeftByte(Pow2(8 * |s[1..]|));
    }
  }
}
