/** Server responses: the cursor-based parser, and the reference encoder it inverts. */
module Responses {
  import opened Binary
  import opened Protocol

  const HEADER_SIZE: nat := 7
  const FIXED_PAYLOAD_SIZE: nat := 279

  datatype ResponseMsg = ResponseMsg(
    version: Byte,
    code: Word16,
    payloadSize: Word32,
    userId: UserId,
    aesKey: Bytes,
    encryptedFileSize: Word32,
    fileName: Bytes,
    checksum: Word32)
  {
    /** The file name fills its field and the declared size is the size of the payload. */
    ghost predicate WellFormed() {
      |fileName| == FILE_NAME_LEN && payloadSize == FIXED_PAYLOAD_SIZE + |aesKey|
    }
  }

  function Fields(m: ResponseMsg): (fs: seq<Bytes>)
    ensures |fs| == 8
  {
    [[m.version], BigEndian(m.code, 2), BigEndian(m.payloadSize, 4), m.userId, m.aesKey,
     BigEndian(m.encryptedFileSize, 4), m.fileName, BigEndian(m.checksum, 4)]
  }

  /** The reference encoding: all integers in network order. */
  function Wire(m: ResponseMsg): Bytes {
    Flatten(Fields(m))
  }

  function Layout(keyLen: nat): seq<nat> {
    [1, 2, 4, 16, keyLen, 4, 255, 4]
  }

  function ReadWord16(f: Bytes): (w: Word16)
    requires |f| == 2
    ensures w == FromBigEndian(f)
  {
    FromBigEndianRoundTrip(f);
    Pow256Values();
    FromBigEndian(f)
  }

  function ReadWord32(f: Bytes): (w: Word32)
    requires |f| == 4
    ensures w == FromBigEndian(f)
  {
    FromBigEndianRoundTrip(f);
    Pow256Values();
    FromBigEndian(f)
  }

  function DeclaredSize(data: Bytes): Word32
    requires |data| >= HEADER_SIZE
  {
    ReadWord32(data[3..7])
  }

  /** Complete header, a declared size of at least 279, and all the declared bytes. */
  predicate Acceptable(data: Bytes) {
    && |data| >= HEADER_SIZE
    && DeclaredSize(data) >= FIXED_PAYLOAD_SIZE
    && |data| >= HEADER_SIZE + DeclaredSize(data)
  }

  /** The fields of an acceptable buffer at their offsets; `k` bytes of key follow the user ID. */
  function FieldsOf(data: Bytes, k: nat): seq<Bytes>
    requires |data| >= HEADER_SIZE + FIXED_PAYLOAD_SIZE + k
  {
    [data[0..1], data[1..3], data[3..7], data[7..23], data[23..23 + k], data[23 + k..27 + k],
     data[27 + k..282 + k], data[282 + k..286 + k]]
  }

  function Parse(data: Bytes): Option<ResponseMsg> {
    if !Acceptable(data) then None
    else
      var n := DeclaredSize(data);
      var f := FieldsOf(data, n - FIXED_PAYLOAD_SIZE);
      Some(ResponseMsg(f[0][0], ReadWord16(f[1]), n, f[3], f[4], ReadWord32(f[5]), f[6], ReadWord32(f[7])))
  }

  // ---------------------------------------------------------------------------
  // The parser
  // ---------------------------------------------------------------------------

  /** Reads a raw integer at the cursor and advances it; `None` if the buffer is too short. */
  method ReadBinaryField(data: Bytes, offset: nat, width: nat) returns (r: Option<nat>, next: nat)
    ensures r.Some? <==> offset + width <= |data|
    ensures r.Some? ==> next == offset + width && r.value == FromLittleEndian(data[offset..next])
  {
    if offset > |data| || width > |data| - offset {
      return None, offset;
    }
    next := offset + width;
    r := Some(FromLittleEndian(data[offset..next]));
  }

  /** Copies bytes at the cursor into a fixed buffer and advances it. */
  method CopyBytes(data: Bytes, offset: nat, destination: array<Byte>) returns (ok: bool, next: nat)
    modifies destination
    ensures ok <==> offset + destination.Length <= |data|
    ensures ok ==> next == offset + destination.Length && destination[..] == data[offset..next]
  {
    if offset > |data| || destination.Length > |data| - offset {
      return false, offset;
    }
    next := offset + destination.Length;
    forall i | 0 <= i < destination.Length {
      destination[i] := data[offset + i];
    }
    ok := true;
  }

  /** Reads an integer field sent in network order. */
  method ReadNetworkField(data: Bytes, offset: nat, width: nat) returns (r: Option<nat>, next: nat)
    ensures r.Some? <==> offset + width <= |data|
    ensures r.Some? ==> next == offset + width && r.value == FromBigEndian(data[offset..next]) < Pow256(width)
  {
    var raw;
    raw, next := ReadBinaryField(data, offset, width);
    if raw.None? {
      return None, next;
    }
    NetworkFieldIsBigEndian(data[offset..next]);
    r := Some(NetworkToHost(raw.value, width));
  }

  /** Reads a response; `end` is where the cursor stops. */
  method Deserialize(data: Bytes) returns (r: Option<ResponseMsg>, end: nat)
    ensures r == Parse(data)
    ensures r.Some? ==> end == HEADER_SIZE + r.value.payloadSize <= |data|
  {
    hide FromBigEndian;
    Pow256Values();
    if HEADER_SIZE > |data| {
      return None, 0;
    }
    var version, code, declared, size, checksum;
    version, end := ReadBinaryField(data, 0, 1);
    code, end := ReadNetworkField(data, end, 2);
    declared, end := ReadNetworkField(data, end, 4);
    assert data[0..1][1..] == [];
    if declared.value < FIXED_PAYLOAD_SIZE {
      return None, end;
    }
    if |data| < HEADER_SIZE + declared.value {
      return None, end;
    }
    var ok;
    var userId := new Byte[16];
    ok, end := CopyBytes(data, end, userId);
    var keyLen := declared.value - FIXED_PAYLOAD_SIZE;
    var key := new Byte[keyLen];
    if keyLen > 0 {
      ok, end := CopyBytes(data, end, key);
    }
    assert key[..] == data[23..23 + keyLen];
    size, end := ReadNetworkField(data, end, 4);
    var fileName := new Byte[255];
    ok, end := CopyBytes(data, end, fileName);
    checksum, end := ReadNetworkField(data, end, 4);
    r := Some(ResponseMsg(version.value, code.value, declared.value, userId[..], key[..], size.value,
                          fileName[..], checksum.value));
  }

  // ---------------------------------------------------------------------------
  // The accepted language
  // ---------------------------------------------------------------------------

  lemma Offsets(k: nat)
    ensures var l := Layout(k);
            && Sum(l[..0]) == 0 && Sum(l[..1]) == 1 && Sum(l[..2]) == 3 && Sum(l[..3]) == 7
            && Sum(l[..4]) == 23 && Sum(l[..5]) == 23 + k && Sum(l[..6]) == 27 + k && Sum(l[..7]) == 282 + k
            && Sum(l) == 286 + k
  {
    var l := Layout(k);
    assert l[..0] == [] && l[..8] == l;
    SumPrefix(l, 0); SumPrefix(l, 1); SumPrefix(l, 2); SumPrefix(l, 3);
    SumPrefix(l, 4); SumPrefix(l, 5); SumPrefix(l, 6); SumPrefix(l, 7);
  }

  lemma FieldIs(data: Bytes, lens: seq<nat>, i: nat, offset: nat, length: nat)
    requires Sum(lens) <= |data| && i < |lens|
    requires Sum(lens[..i]) == offset && lens[i] == length
    ensures offset + length <= |data| && Cut(data, lens)[i] == data[offset..offset + length]
  {
    CutAt(data, lens, i);
  }

  ghost predicate HasLayout(l: seq<nat>, k: nat) {
    && |l| == 8 && Sum(l) == 286 + k
    && l[0] == 1 && l[1] == 2 && l[2] == 4 && l[3] == 16 && l[4] == k && l[5] == 4 && l[6] == 255 && l[7] == 4
    && Sum(l[..0]) == 0 && Sum(l[..1]) == 1 && Sum(l[..2]) == 3 && Sum(l[..3]) == 7
    && Sum(l[..4]) == 23 && Sum(l[..5]) == 23 + k && Sum(l[..6]) == 27 + k && Sum(l[..7]) == 282 + k
  }

  lemma CutIsFields(data: Bytes, l: seq<nat>, k: nat)
    requires |data| >= HEADER_SIZE + FIXED_PAYLOAD_SIZE + k && HasLayout(l, k)
    ensures Cut(data, l) == FieldsOf(data, k)
  {
    FieldIs(data, l, 0, 0, 1);
    FieldIs(data, l, 1, 1, 2);
    FieldIs(data, l, 2, 3, 4);
    FieldIs(data, l, 3, 7, 16);
    FieldIs(data, l, 4, 23, k);
    FieldIs(data, l, 5, 23 + k, 4);
    FieldIs(data, l, 6, 27 + k, 255);
    FieldIs(data, l, 7, 282 + k, 4);
  }

  /** `FieldsOf` is the generic cut of the buffer at the layout of a response. */
  lemma FieldsOfIsCut(data: Bytes, k: nat)
    requires |data| >= HEADER_SIZE + FIXED_PAYLOAD_SIZE + k
    ensures Sum(Layout(k)) == 286 + k
    ensures Cut(data, Layout(k)) == FieldsOf(data, k)
  {
    Offsets(k);
    CutIsFields(data, Layout(k), k);
  }

  lemma WireLength(m: ResponseMsg)
    requires m.WellFormed()
    ensures |Wire(m)| == HEADER_SIZE + m.payloadSize
  {
    assert Lengths(Fields(m)) == Layout(|m.aesKey|);
    FlattenLength(Fields(m));
    FieldsOfIsCut(Zeros(286 + |m.aesKey|), |m.aesKey|);
  }

  lemma FieldsOfWire(m: ResponseMsg, trailing: Bytes)
    requires m.WellFormed()
    ensures |Wire(m)| == HEADER_SIZE + m.payloadSize
    ensures FieldsOf(Wire(m) + trailing, |m.aesKey|) == Fields(m)
  {
    WireLength(m);
    assert Lengths(Fields(m)) == Layout(|m.aesKey|);
    CutOfFlatten(Fields(m), Layout(|m.aesKey|), trailing);
    FieldsOfIsCut(Wire(m) + trailing, |m.aesKey|);
  }

  /** A well-formed response is read back exactly, whatever follows it in the buffer. */
  lemma ParseOfWire(m: ResponseMsg, trailing: Bytes)
    requires m.WellFormed()
    ensures |Wire(m)| == HEADER_SIZE + m.payloadSize
    ensures Parse(Wire(m) + trailing) == Some(m)
  {
    FieldsOfWire(m, trailing);
    Pow256Values();
    BigEndianRoundTrip(m.code, 2);
    BigEndianRoundTrip(m.payloadSize, 4);
    BigEndianRoundTrip(m.encryptedFileSize, 4);
    BigEndianRoundTrip(m.checksum, 4);
    var data := Wire(m) + trailing;
    assert data[3..7] == FieldsOf(data, |m.aesKey|)[2] == BigEndian(m.payloadSize, 4);
  }

  /** Conversely, what is read is well formed and its encoding is how the buffer begins. */
  lemma WireOfParse(data: Bytes)
    requires Parse(data).Some?
    ensures Parse(data).value.WellFormed()
    ensures Wire(Parse(data).value) == data[..HEADER_SIZE + DeclaredSize(data)]
  {
    var m := Parse(data).value;
    var k := |m.aesKey|;
    FieldsOfIsCut(data, k);
    FlattenOfCut(data, Layout(k));
    var f := FieldsOf(data, k);
    FromBigEndianRoundTrip(f[1]);
    FromBigEndianRoundTrip(f[2]);
    FromBigEndianRoundTrip(f[5]);
    FromBigEndianRoundTrip(f[7]);
    assert f[0] == [m.version];
    assert Fields(m) == f;
  }

  /** The parser accepts exactly the buffers that begin with the encoding of a well-formed response. */
  lemma AcceptedLanguage(data: Bytes)
    ensures Parse(data).Some? <==> Acceptable(data)
    ensures Acceptable(data) <==> exists m: ResponseMsg :: m.WellFormed() && Wire(m) <= data
  {
    hide Wire, Parse, Acceptable, ResponseMsg.WellFormed;
    ParsesExactly(data);
    if Acceptable(data) {
      var m := Parse(data).value;
      WireOfParse(data);
      BeginsWithWire(data, m);
    }
    if m: ResponseMsg :| m.WellFormed() && Wire(m) <= data {
      ParseOfWire(m, data[|Wire(m)|..]);
      assert data == Wire(m) + data[|Wire(m)|..];
    }
  }

  lemma ParsesExactly(data: Bytes)
    ensures Parse(data).Some? <==> Acceptable(data)
  {
  }

  lemma BeginsWithWire(data: Bytes, m: ResponseMsg)
    requires Parse(data) == Some(m) && Wire(m) == data[..HEADER_SIZE + DeclaredSize(data)]
    ensures Wire(m) <= data
  {
    hide Wire;
  }

  /** Bytes after the declared payload make no difference. */
  lemma TrailingBytesIgnored(data: Bytes, trailing: Bytes)
    requires Acceptable(data)
    ensures Parse(data + trailing) == Parse(data)
  {
    hide Wire, Fields, FieldsOf;
    WireOfParse(data);
    var m := Parse(data).value;
    var tail := data[|Wire(m)|..];
    ParseOfWire(m, tail + trailing);
    assert data == Wire(m) + tail;
    assert data + trailing == Wire(m) + (tail + trailing);
  }

  /** No strict prefix of a response is a response. */
  lemma StrictPrefixRejected(m: ResponseMsg, n: nat)
    requires m.WellFormed() && n < |Wire(m)|
    ensures Parse(Wire(m)[..n]).None?
  {
    var part, rest := Wire(m)[..n], Wire(m)[n..];
    assert part + rest == Wire(m) && Wire(m) + [] == Wire(m);
    ParseOfWire(m, []);
    if Acceptable(part) {
      TrailingBytesIgnored(part, rest);
    }
  }

  /** Every field of a response where it is in the buffer, integers with their highest byte first. */
  lemma ParsedFields(data: Bytes)
    requires |data| >= 7
    ensures var n := Digits256(Digits256(Digits256(data[3], data[4]), data[5]), data[6]);
            && (Parse(data).Some? <==> n >= 279 && |data| >= 7 + n)
            && (Parse(data).Some? ==>
                  var m := Parse(data).value;
                  && m.version == data[0] && m.code == Digits256(data[1], data[2]) && m.payloadSize == n
                  && m.userId == data[7..23] && m.aesKey == data[23..n - 256]
                  && m.encryptedFileSize
                     == Digits256(Digits256(Digits256(data[n - 256], data[n - 255]), data[n - 254]), data[n - 253])
                  && m.fileName == data[n - 252..n + 3]
                  && m.checksum
                     == Digits256(Digits256(Digits256(data[n + 3], data[n + 4]), data[n + 5]), data[n + 6]))
  {
    hide FromBigEndian, Digits256;
    BigEndianBytes(data[3..7]);
    if Acceptable(data) {
      var n := DeclaredSize(data);
      BigEndianBytes(data[1..3]);
      BigEndianBytes(data[n - 256..n - 252]);
      BigEndianBytes(data[n + 3..n + 7]);
    }
  }
}
