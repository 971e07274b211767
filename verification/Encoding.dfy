/** Hexadecimal text of byte strings, as used for user IDs. */
module Hex {
  import opened Binary

  predicate IsHexDigit(c: Byte) {
    '0' as int <= c <= '9' as int || 'a' as int <= c <= 'f' as int || 'A' as int <= c <= 'F' as int
  }

  /** The characters `std::isspace` accepts in the C locale: tab, LF, VT, FF, CR and the blank. */
  predicate IsSpace(c: Byte) {
    9 <= c <= 13 || c == 32
  }

  function DigitValue(c: Byte): (v: nat)
    requires IsHexDigit(c)
    ensures v < 16
  {
    if c <= '9' as int then c - '0' as int
    else if c <= 'F' as int then c - 'A' as int + 10
    else c - 'a' as int + 10
  }

  function Digit(v: nat): (c: Byte)
    requires v < 16
    ensures IsHexDigit(c) && DigitValue(c) == v
  {
    if v < 10 then '0' as int + v else 'a' as int + (v - 10)
  }

  function Lower(c: Byte): Byte {
    if 'A' as int <= c <= 'F' as int then c + 32 else c
  }

  function HexOf(data: Bytes): (text: Bytes)
    ensures |text| == 2 * |data|
    ensures forall i :: 0 <= i < |text| ==> IsHexDigit(text[i]) && Lower(text[i]) == text[i]
  {
    if data == [] then [] else [Digit(data[0] / 16), Digit(data[0] % 16)] + HexOf(data[1..])
  }

  /**
   * What `std::stoul(pair, &parsed, 16)` followed by `parsed == 2` and a cast to `char` makes of two
   * characters. Leading white space and a sign are consumed too; a negative value wraps around.
   */
  function PairValue(high: Byte, low: Byte): Option<Byte> {
    if !IsHexDigit(low) then None
    else if IsHexDigit(high) then Some(16 * DigitValue(high) + DigitValue(low))
    else if IsSpace(high) || high == '+' as int then Some(DigitValue(low))
    else if high == '-' as int then Some((256 - DigitValue(low)) % 256)
    else None
  }

  function UnhexPairs(text: Bytes): (r: Option<Bytes>)
    requires |text| % 2 == 0
    ensures r.Some? ==> 2 * |r.value| == |text|
  {
    if text == [] then Some([])
    else
      match (PairValue(text[0], text[1]), UnhexPairs(text[2..]))
      case (Some(b), Some(rest)) => Some([b] + rest)
      case _ => None
  }

  /** The bytes a text of exactly `2 * n` characters stands for, if every pair is readable. */
  function Unhex(text: Bytes, n: nat): Option<Bytes> {
    if |text| == 2 * n then UnhexPairs(text) else None
  }

  method BytesToHex(data: Bytes) returns (text: Bytes)
    ensures text == HexOf(data)
  {
    text := [];
    var index := 0;
    while index < |data|
      invariant 0 <= index <= |data|
      invariant text + HexOf(data[index..]) == HexOf(data)
    {
      assert data[index..][1..] == data[index + 1..];
      text := text + [Digit(data[index] / 16), Digit(data[index] % 16)];
      index := index + 1;
    }
  }

  method HexStringToByteArray(text: Bytes, n: nat) returns (r: Option<Bytes>)
    ensures r == Unhex(text, n)
  {
    if |text| != 2 * n {
      return None;
    }
    var data: Bytes := [];
    var index := 0;
    assert text[2 * index..] == text;
    assert forall rest: Bytes :: data + rest == rest;
    while index < n
      invariant 0 <= index <= n && |data| == index
      invariant UnhexPairs(text) == match UnhexPairs(text[2 * index..])
                                    case Some(rest) => Some(data + rest)
                                    case None => None
    {
      var tail := text[2 * index..];
      assert tail[2..] == text[2 * (index + 1)..];
      var value := PairValue(tail[0], tail[1]);
      if value.None? {
        return None;
      }
      ghost var before := data;
      data := data + [value.value];
      assert forall rest: Bytes :: before + ([value.value] + rest) == data + rest;
      index := index + 1;
    }
    assert text[2 * n..] == [] && data + [] == data;
    r := Some(data);
  }

  const LOWER_DIGITS: string := "0123456789abcdef"
  const UPPER_DIGITS: string := "0123456789ABCDEF"

  /** The sixteen digits, in either case. */
  lemma DigitsAre(v: nat, c: Byte)
    requires v < 16
    ensures Digit(v) == LOWER_DIGITS[v] as int
    ensures IsHexDigit(c) && DigitValue(c) == v <==> c == LOWER_DIGITS[v] as int || c == UPPER_DIGITS[v] as int
  {
  }

  /** Two lower-case digits for every byte, the high one first. */
  lemma {:induction false} HexDigitsOf(data: Bytes, i: nat)
    requires i < |data|
    ensures HexOf(data)[2 * i] == LOWER_DIGITS[data[i] / 16] as int
    ensures HexOf(data)[2 * i + 1] == LOWER_DIGITS[data[i] % 16] as int
  {
    if i == 0 {
      DigitsAre(data[0] / 16, 0);
      DigitsAre(data[0] % 16, 0);
    } else {
      HexDigitsOf(data[1..], i - 1);
      assert HexOf(data)[2..] == HexOf(data[1..]);
    }
  }

  /**
   * What a pair of characters is read as: two digits, or one digit after a sign or a white-space character; a
   * minus sign negates modulo 256. Nothing else is read.
   */
  lemma PairReads(high: Byte, low: Byte)
    ensures PairValue(high, low).Some? <==>
            IsHexDigit(low) && (IsHexDigit(high) || high in {9, 10, 11, 12, 13, 32, '+' as int, '-' as int})
    ensures IsHexDigit(low) && IsHexDigit(high) ==>
              PairValue(high, low) == Some(16 * DigitValue(high) + DigitValue(low))
    ensures IsHexDigit(low) && high in {9, 10, 11, 12, 13, 32, '+' as int} ==>
              PairValue(high, low) == Some(DigitValue(low))
    ensures IsHexDigit(low) && high == '-' as int ==>
              PairValue(high, low) == Some(if low == '0' as int then 0 else 256 - DigitValue(low))
  {
  }

  /** Byte `i` of what was decoded is what pair `i` is read as. */
  lemma {:induction false} UnhexBytes(text: Bytes, n: nat, i: nat)
    requires Unhex(text, n).Some? && i < n
    ensures |text| == 2 * n && |Unhex(text, n).value| == n
    ensures PairValue(text[2 * i], text[2 * i + 1]) == Some(Unhex(text, n).value[i])
  {
    if i > 0 {
      UnhexBytes(text[2..], n - 1, i - 1);
    }
  }

  /** Decoding what was encoded. */
  lemma {:induction false} UnhexOfHex(data: Bytes)
    ensures Unhex(HexOf(data), |data|) == Some(data)
  {
    if data != [] {
      UnhexOfHex(data[1..]);
      assert HexOf(data)[2..] == HexOf(data[1..]);
      assert data == [data[0]] + data[1..];
    }
  }

  /** Encoding what was decoded gives the lower-case text, for hexadecimal digits of either case. */
  lemma {:induction false} HexOfUnhex(text: Bytes, n: nat)
    requires |text| == 2 * n && forall i :: 0 <= i < |text| ==> IsHexDigit(text[i])
    ensures Unhex(text, n).Some?
    ensures HexOf(Unhex(text, n).value) == seq(|text|, i requires 0 <= i < |text| => Lower(text[i]))
  {
    if n > 0 {
      HexOfUnhex(text[2..], n - 1);
      var data := Unhex(text, n).value;
      assert data[1..] == Unhex(text[2..], n - 1).value;
      assert data[0] == 16 * DigitValue(text[0]) + DigitValue(text[1]);
      assert Digit(data[0] / 16) == Lower(text[0]) && Digit(data[0] % 16) == Lower(text[1]);
    }
  }

  /** The exact accepted language: the right length, and every pair one that `stoul` consumes whole. */
  lemma {:induction false} UnhexAccepts(text: Bytes, n: nat)
    ensures Unhex(text, n).Some? <==>
            |text| == 2 * n && forall i :: 0 <= i < n ==> PairValue(text[2 * i], text[2 * i + 1]).Some?
  {
    if |text| == 2 * n && n > 0 {
      var tail := text[2..];
      UnhexAccepts(tail, n - 1);
      assert forall i :: 0 <= i < n - 1 ==>
               tail[2 * i] == text[2 * (i + 1)] && tail[2 * i + 1] == text[2 * (i + 1) + 1];
      if forall i :: 0 <= i < n ==> PairValue(text[2 * i], text[2 * i + 1]).Some? {
        forall i | 0 <= i < n - 1 ensures PairValue(tail[2 * i], tail[2 * i + 1]).Some? {
          assert PairValue(text[2 * (i + 1)], text[2 * (i + 1) + 1]).Some?;
        }
        assert PairValue(text[2 * 0], text[2 * 0 + 1]).Some?;
      } else {
        var i :| 0 <= i < n && PairValue(text[2 * i], text[2 * i + 1]).None?;
        if i > 0 {
          assert PairValue(tail[2 * (i - 1)], tail[2 * (i - 1) + 1]).None?;
        }
      }
    }
  }

  /** Two identifiers have the same text exactly when their bytes are the same. */
  lemma HexIdentity(a: Bytes, b: Bytes)
    ensures HexOf(a) == HexOf(b) <==> a == b
  {
    UnhexOfHex(a);
    UnhexOfHex(b);
  }

  /**
   * Re-encoding gives the accepted text back exactly when it consists of lower-case digits. That
   * every accepted text has this form is false: a sign or white space is accepted as well.
   */
  lemma ReencodingIsExact(text: Bytes, n: nat)
    requires Unhex(text, n).Some?
    ensures HexOf(Unhex(text, n).value) == text <==>
            forall i :: 0 <= i < |text| ==> IsHexDigit(text[i]) && Lower(text[i]) == text[i]
  {
    if forall i :: 0 <= i < |text| ==> IsHexDigit(text[i]) && Lower(text[i]) == text[i] {
      HexOfUnhex(text, n);
    }
  }

  lemma SignedPairAccepted(v: nat)
    requires v < 16
    ensures Unhex(['+' as int, Digit(v)], 1) == Unhex([' ' as int, Digit(v)], 1) == Unhex(['0' as int, Digit(v)], 1)
    ensures Unhex(['+' as int, Digit(v)], 1).Some?
  {
    OnePair('+' as int, Digit(v));
    OnePair(' ' as int, Digit(v));
    OnePair('0' as int, Digit(v));
  }

  lemma OnePair(high: Byte, low: Byte)
    requires PairValue(high, low).Some?
    ensures Unhex([high, low], 1) == Some([PairValue(high, low).value])
  {
    var pair := [high, low];
    assert pair[2..] == [];
    assert UnhexPairs(pair[2..]) == Some([]);
    var decoded := [PairValue(high, low).value];
    assert UnhexPairs(pair) == Some(decoded + []) && decoded + [] == decoded;
  }
}

/** Base64 (section 4 of RFC 4648), as written and read back by the Crypto++ filters. */
module Base64 {
  import opened Binary

  type Sextet = v: int | 0 <= v < 64

  const PAD: Byte := '=' as int
  const NEWLINE: Byte := '\n' as int

  function Letter(v: Sextet): Byte {
    if v < 26 then 'A' as int + v
    else if v < 52 then 'a' as int + (v - 26)
    else if v < 62 then '0' as int + (v - 52)
    else if v == 62 then '+' as int
    else '/' as int
  }

  function LetterValue(c: Byte): Option<Sextet> {
    if 'A' as int <= c <= 'Z' as int then Some(c - 'A' as int)
    else if 'a' as int <= c <= 'z' as int then Some(c - 'a' as int + 26)
    else if '0' as int <= c <= '9' as int then Some(c - '0' as int + 52)
    else if c == '+' as int then Some(62)
    else if c == '/' as int then Some(63)
    else None
  }

  function Sextets(data: Bytes): (v: seq<Sextet>)
    ensures |v| == (4 * |data| + 2) / 3
  {
    if data == [] then []
    else if |data| == 1 then [data[0] / 4, data[0] % 4 * 16]
    else if |data| == 2 then [data[0] / 4, data[0] % 4 * 16 + data[1] / 16, data[1] % 16 * 4]
    else Group(data[0], data[1], data[2]) + Sextets(data[3..])
  }

  function Group(a: Byte, b: Byte, c: Byte): seq<Sextet> {
    [a / 4, a % 4 * 16 + b / 16, b % 16 * 4 + c / 64, c % 64]
  }

  function Byte0(a: Sextet, b: Sextet): Byte {
    a * 4 + b / 16
  }

  function Byte1(b: Sextet, c: Sextet): Byte {
    b % 16 * 16 + c / 4
  }

  function Byte2(c: Sextet, d: Sextet): Byte {
    c % 4 * 64 + d
  }

  /** Whole bytes only: the bits of an incomplete last byte are dropped. */
  function FromSextets(v: seq<Sextet>): (data: Bytes)
    ensures |data| == 3 * |v| / 4
  {
    if |v| < 2 then []
    else if |v| == 2 then [Byte0(v[0], v[1])]
    else if |v| == 3 then [Byte0(v[0], v[1]), Byte1(v[1], v[2])]
    else [Byte0(v[0], v[1]), Byte1(v[1], v[2]), Byte2(v[2], v[3])] + FromSextets(v[4..])
  }

  function Letters(v: seq<Sextet>): (text: Bytes)
    ensures |text| == |v| && forall i :: 0 <= i < |v| ==> text[i] == Letter(v[i])
  {
    seq(|v|, i requires 0 <= i < |v| => Letter(v[i]))
  }

  /** The letters of a text; everything else, padding included, is skipped. */
  function Values(text: Bytes): seq<Sextet> {
    if text == [] then []
    else match LetterValue(text[0])
         case Some(v) => [v] + Values(text[1..])
         case None => Values(text[1..])
  }

  function Padding(n: nat): (p: Bytes)
    ensures |p| == (3 - n % 3) % 3 && forall i :: 0 <= i < |p| ==> p[i] == PAD
  {
    if n % 3 == 0 then [] else if n % 3 == 1 then [PAD, PAD] else [PAD]
  }

  lemma EncodedLength(n: nat)
    ensures (4 * n + 2) / 3 + (3 - n % 3) % 3 == (n + 2) / 3 * 4
  {
    var q := n / 3;
    assert n == 3 * q + n % 3;
  }

  /** `Base64Wrapper::encode(data, size)`: one line, no line breaks. */
  function Encode(data: Bytes): (text: Bytes)
    ensures |text| == (|data| + 2) / 3 * 4
  {
    EncodedLength(|data|);
    Letters(Sextets(data)) + Padding(|data|)
  }

  /** `Base64Wrapper::decode`. */
  function Decode(text: Bytes): Bytes {
    FromSextets(Values(text))
  }

  /** The encoder's default grouping: a line break after every `width` characters and at the end. */
  function Wrap(text: Bytes, width: nat): Bytes
    requires width > 0
    decreases |text|
  {
    if |text| <= width then text + [NEWLINE]
    else text[..width] + [NEWLINE] + Wrap(text[width..], width)
  }

  /** `Base64Wrapper::encode(str)`: lines of `width` characters. */
  function EncodeLines(data: Bytes, width: nat): Bytes
    requires width > 0
  {
    Wrap(Encode(data), width)
  }

  /** At `from` stands a line: the text from `at` on, `width` characters or what is left, and a line feed (byte 10). */
  ghost predicate IsLine(wrapped: Bytes, from: nat, text: Bytes, at: nat, width: nat) {
    && at < |text|
    && var n := Min(width, |text| - at);
    && from + n + 1 <= |wrapped| && wrapped[from..from + n + 1] == text[at..at + n] + [10]
    && (at + n == |text| ==> |wrapped| == from + n + 1)
  }

  /** Line `k` of a wrapped text. */
  lemma {:induction false} WrapLine(text: Bytes, width: nat, k: nat)
    requires width > 0 && k * width < |text|
    ensures IsLine(Wrap(text, width), k * width + k, text, k * width, width)
    decreases k
  {
    if k == 0 {
      WrapFirst(text, width);
    } else {
      hide IsLine, Wrap;
      assert k * width == (k - 1) * width + width && (k - 1) * width >= 0;
      WrapLine(text[width..], width, k - 1);
      WrapNext(text, width, (k - 1) * width, (k - 1) * width + (k - 1));
    }
  }

  lemma WrapFirst(text: Bytes, width: nat)
    requires width > 0 && text != []
    ensures IsLine(Wrap(text, width), 0, text, 0, width)
  {
    assert |text| <= width ==> text[..|text|] == text;
  }

  lemma WrapNext(text: Bytes, width: nat, at: nat, from: nat)
    requires 0 < width < |text| && IsLine(Wrap(text[width..], width), from, text[width..], at, width)
    ensures IsLine(Wrap(text, width), from + width + 1, text, at + width, width)
  {
    hide IsLine, Wrap;
    WrapStep(text, width);
    LineShift(text[..width] + [NEWLINE], Wrap(text[width..], width), from, text[..width], text[width..], at, width);
    assert text == text[..width] + text[width..];
  }

  lemma WrapStep(text: Bytes, width: nat)
    requires 0 < width < |text|
    ensures Wrap(text, width) == text[..width] + [NEWLINE] + Wrap(text[width..], width)
  {
  }

  lemma LineShift(head: Bytes, tail: Bytes, from: nat, start: Bytes, rest: Bytes, at: nat, width: nat)
    requires IsLine(tail, from, rest, at, width)
    ensures IsLine(head + tail, from + |head|, start + rest, at + |start|, width)
  {
    var n := Min(width, |rest| - at);
    SliceShift(head, tail, from, from + n + 1);
    SliceShift(start, rest, at, at + n);
  }

  lemma SliceShift(head: Bytes, tail: Bytes, i: nat, j: nat)
    requires i <= j <= |tail|
    ensures (head + tail)[|head| + i..|head| + j] == tail[i..j]
  {
  }

  const CAPITALS: string := "ABCDEFGHIJKLMNOPQRSTUVWXYZ"
  const SMALLS: string := "abcdefghijklmnopqrstuvwxyz"
  const OTHERS: string := "0123456789+/"

  lemma CapitalsAre(v: nat)
    requires v < 26
    ensures Letter(v) == CAPITALS[v] as int
  {
  }

  lemma SmallsAre(v: nat)
    requires v < 26
    ensures Letter(26 + v) == SMALLS[v] as int
  {
  }

  lemma OthersAre(v: nat)
    requires v < 12
    ensures Letter(52 + v) == OTHERS[v] as int
  {
  }

  /** The alphabet of table 1 of RFC 4648. */
  lemma AlphabetIs(v: Sextet)
    ensures Letter(v) == (CAPITALS + SMALLS + OTHERS)[v] as int
  {
    hide Letter, CAPITALS, SMALLS, OTHERS;
    Lengths();
    if v < 26 {
      CapitalsAre(v);
    } else if v < 52 {
      SmallsAre(v - 26);
    } else {
      OthersAre(v - 52);
    }
  }

  lemma Lengths()
    ensures |CAPITALS| == |SMALLS| == 26 && |OTHERS| == 12
  {
  }

  /** Every letter is read back as what it stands for, and nothing else is. */
  lemma LettersReadBack(v: Sextet, c: Byte)
    ensures LetterValue(c) == Some(v) <==> c == Letter(v)
  {
  }

  /** Three bytes are four sextets of the same 24-bit number; one or two bytes are filled up with zero bits. */
  lemma GroupIsNumber(data: Bytes)
    requires 1 <= |data| <= 3
    ensures var v := Sextets(data);
            && |v| == |data| + 1
            && (|data| == 3 ==> Digits64(Digits64(Digits64(v[0], v[1]), v[2]), v[3])
                                == Digits256(Digits256(data[0], data[1]), data[2]))
            && (|data| == 2 ==> Digits64(Digits64(v[0], v[1]), v[2]) == Digits256(data[0], data[1]) * 4)
            && (|data| == 1 ==> Digits64(v[0], v[1]) == Digits256(0, data[0]) * 16)
  {
    if |data| == 3 {
      assert data[3..] == [];
    }
  }

  /** A number in base 64, the last digit given separately. */
  function Digits64(high: nat, low: nat): nat {
    64 * high + low
  }

  /** Groups of three bytes are encoded one after the other. */
  lemma GroupsInTurn(data: Bytes)
    requires |data| > 3
    ensures Encode(data) == Encode(data[..3]) + Encode(data[3..])
  {
    hide Sextets, Letters;
    SextetsInTurn(data);
    LettersConcat(Sextets(data[..3]), Sextets(data[3..]));
    assert Padding(3) == [] && Padding(|data|) == Padding(|data[3..]|);
  }

  lemma SextetsInTurn(data: Bytes)
    requires |data| > 3
    ensures Sextets(data) == Sextets(data[..3]) + Sextets(data[3..])
  {
    hide Sextets, Group;
    FirstGroup(data);
    OneGroup(data[..3]);
  }

  lemma FirstGroup(data: Bytes)
    requires |data| >= 3
    ensures Sextets(data) == Group(data[0], data[1], data[2]) + Sextets(data[3..])
  {
    hide Group;
  }

  lemma OneGroup(data: Bytes)
    requires |data| == 3
    ensures Sextets(data) == Group(data[0], data[1], data[2])
  {
    hide Group;
    assert data[3..] == [];
  }

  lemma LettersConcat(v: seq<Sextet>, w: seq<Sextet>)
    ensures Letters(v + w) == Letters(v) + Letters(w)
  {
  }

  lemma GroupRoundTrip(a: Byte, b: Byte, c: Byte)
    ensures Byte0(a / 4, a % 4 * 16 + b / 16) == a
    ensures Byte1(a % 4 * 16 + b / 16, b % 16 * 4 + c / 64) == b
    ensures Byte2(b % 16 * 4 + c / 64, c % 64) == c
  {
  }

  lemma {:induction false} SextetsRoundTrip(data: Bytes)
    ensures FromSextets(Sextets(data)) == data
  {
    if |data| >= 3 {
      hide Byte0, Byte1, Byte2;
      SextetsRoundTrip(data[3..]);
      GroupRoundTrip(data[0], data[1], data[2]);
      assert Sextets(data)[4..] == Sextets(data[3..]);
      assert data == [data[0], data[1], data[2]] + data[3..];
    } else if |data| == 2 {
      GroupRoundTrip(data[0], data[1], 0);
    } else if |data| == 1 {
      GroupRoundTrip(data[0], 0, 0);
    }
  }

  lemma {:induction false} ValuesConcat(s: Bytes, t: Bytes)
    ensures Values(s + t) == Values(s) + Values(t)
  {
    hide LetterValue;
    if s == [] {
      assert s + t == t;
    } else {
      ValuesConcat(s[1..], t);
      assert (s + t)[0] == s[0] && (s + t)[1..] == s[1..] + t;
    }
  }

  lemma {:induction false} ValuesOfLetters(v: seq<Sextet>)
    ensures Values(Letters(v)) == v
  {
    if v != [] {
      ValuesOfLetters(v[1..]);
      assert Letters(v)[1..] == Letters(v[1..]);
    }
  }

  lemma {:induction false} ValuesOfForeign(text: Bytes)
    requires forall i :: 0 <= i < |text| ==> LetterValue(text[i]).None?
    ensures Values(text) == []
  {
    if text != [] {
      ValuesOfForeign(text[1..]);
    }
  }

  lemma ValuesOfEncoded(data: Bytes)
    ensures Values(Encode(data)) == Sextets(data)
  {
    ValuesConcat(Letters(Sextets(data)), Padding(|data|));
    ValuesOfLetters(Sextets(data));
    ValuesOfForeign(Padding(|data|));
  }

  /** Decoding what was encoded, for data of any length. */
  lemma DecodeOfEncode(data: Bytes)
    ensures Decode(Encode(data)) == data
  {
    ValuesOfEncoded(data);
    SextetsRoundTrip(data);
  }

  /** Line breaks do not change what a text decodes to. */
  lemma {:induction false} DecodeOfWrap(text: Bytes, width: nat)
    requires width > 0
    ensures Values(Wrap(text, width)) == Values(text)
    decreases |text|
  {
    ValuesOfForeign([NEWLINE]);
    if |text| <= width {
      ValuesConcat(text, [NEWLINE]);
    } else {
      DecodeOfWrap(text[width..], width);
      ValuesConcat(text[..width], [NEWLINE]);
      ValuesConcat(text[..width] + [NEWLINE], Wrap(text[width..], width));
      ValuesConcat(text[..width], text[width..]);
      assert text == text[..width] + text[width..];
    }
  }

  /** A text of graphic characters, none of them a line break or other white space. */
  ghost predicate Graphic(text: Bytes) {
    forall i :: 0 <= i < |text| ==> 32 < text[i] < 127
  }

  lemma EncodedIsGraphic(data: Bytes)
    ensures Graphic(Encode(data))
  {
  }

  /** The first characters of an encoding decode to the whole bytes they carry. */
  lemma DecodeOfPrefix(data: Bytes, n: nat)
    requires n <= |Sextets(data)|
    ensures |Decode(Encode(data)[..n])| == 3 * n / 4
    ensures n == |Sextets(data)| ==> Decode(Encode(data)[..n]) == data
  {
    assert Encode(data)[..n] == Letters(Sextets(data)[..n]);
    ValuesOfLetters(Sextets(data)[..n]);
    if n == |Sextets(data)| {
      assert Sextets(data)[..n] == Sextets(data);
      SextetsRoundTrip(data);
    }
  }

  /** Test vectors of section 10 of RFC 4648: `f`, `fo` and `foobar`. */
  lemma TestVectors()
    ensures Encode([102]) == [90, 103, 61, 61]
    ensures Encode([102, 111]) == [90, 109, 56, 61]
    ensures Encode([102, 111, 111, 98, 97, 114]) == [90, 109, 57, 118, 89, 109, 70, 121]
  {
    SixBytes();
  }

  lemma SixBytes()
    ensures Encode([102, 111, 111, 98, 97, 114]) == [90, 109, 57, 118, 89, 109, 70, 121]
  {
    hide Encode;
    var first, last: Bytes := [102, 111, 111], [98, 97, 114];
    var data := [102, 111, 111, 98, 97, 114];
    assert data[..3] == first && data[3..] == last;
    GroupsInTurn(data);
    ThreeBytes();
  }

  lemma ThreeBytes()
    ensures Encode([102, 111, 111]) == [90, 109, 57, 118] && Encode([98, 97, 114]) == [89, 109, 70, 121]
  {
    OneGroup([102, 111, 111]);
    OneGroup([98, 97, 114]);
  }
}
