/** Client requests: the mutable request object, its serialization, and a receiver that undoes it. */
module Requests {
  import opened Binary
  import opened Protocol
  import Hex

  const CLIENT_VERSION: Byte := 3
  const HEADER_SIZE: nat := 23
  const FIXED_PAYLOAD_SIZE: nat := 491

  datatype RequestMsg = RequestMsg(
    userId: UserId,
    version: Byte,
    code: Word16,
    payloadSize: Word32,
    username: Bytes,
    publicKey: PublicKey,
    chunkSize: Word32,
    fileSize: Word32,
    packetNumber: Word16,
    totalPackets: Word16,
    fileName: Bytes,
    chunk: Bytes)
  {
    ghost predicate Valid() {
      |username| == USERNAME_LEN && |fileName| == FILE_NAME_LEN
    }

    /** The declared payload size is the size of the serialized payload. */
    ghost predicate Honest() {
      payloadSize == FIXED_PAYLOAD_SIZE + |chunk|
    }
  }

  /** A freshly constructed request: version 3, everything else zero. */
  const BLANK: RequestMsg :=
    RequestMsg(Zeros(16), CLIENT_VERSION, 0, 0, Zeros(64), Zeros(160), 0, 0, 0, 0, Zeros(255), [])

  function Fields(m: RequestMsg): (fs: seq<Bytes>)
    ensures |fs| == 12
  {
    [m.userId, LittleEndian(m.version, 1), LittleEndian(m.code, 2), LittleEndian(m.payloadSize, 4),
     m.username, m.publicKey, LittleEndian(m.chunkSize, 4), LittleEndian(m.fileSize, 4),
     LittleEndian(m.packetNumber, 2), LittleEndian(m.totalPackets, 2), m.fileName, m.chunk]
  }

  /** The bytes of one request. */
  function Wire(m: RequestMsg): (w: Bytes)
    ensures |w| >= 16
  {
    Flatten(Fields(m))
  }

  function Wires(ms: seq<RequestMsg>): (ws: seq<Bytes>)
    ensures |ws| == |ms| && forall i :: 0 <= i < |ms| ==> ws[i] == Wire(ms[i])
  {
    seq(|ms|, i requires 0 <= i < |ms| => Wire(ms[i]))
  }

  /** The bytes of consecutive requests. */
  function StreamOf(ms: seq<RequestMsg>): Bytes {
    Flatten(Wires(ms))
  }

  class Request {
    const userId: array<Byte>
    const username: array<Byte>
    const publicKey: array<Byte>
    const fileName: array<Byte>
    var version: Byte
    var code: Word16
    var payloadSize: Word32
    var chunkSize: Word32
    var fileSize: Word32
    var packetNumber: Word16
    var totalPackets: Word16
    var chunk: Bytes

    ghost const Repr: set<object> := {this, userId, username, publicKey, fileName}

    ghost predicate Valid() {
      && userId.Length == 16 && username.Length == 64 && publicKey.Length == 160 && fileName.Length == 255
      && userId != username && userId != publicKey && userId != fileName
      && username != publicKey && username != fileName && publicKey != fileName
    }

    /** The request as a value. */
    ghost function Message(): (m: RequestMsg)
      requires Valid()
      reads Repr
      ensures m.Valid()
    {
      RequestMsg(userId[..], version, code, payloadSize, username[..], publicKey[..], chunkSize, fileSize,
                 packetNumber, totalPackets, fileName[..], chunk)
    }

    constructor ()
      ensures Valid() && fresh(Repr)
      ensures Message() == BLANK
    {
      userId := new Byte[16](i => 0);
      username := new Byte[64](i => 0);
      publicKey := new Byte[160](i => 0);
      fileName := new Byte[255](i => 0);
      version, code, payloadSize := CLIENT_VERSION, 0, 0;
      chunkSize, fileSize, packetNumber, totalPackets, chunk := 0, 0, 0, 0, [];
      new;
      assert userId[..] == Zeros(16) && username[..] == Zeros(64);
      assert publicKey[..] == Zeros(160) && fileName[..] == Zeros(255);
    }

    /** Fails, changing nothing, unless the text decodes to sixteen bytes. */
    method SetUserId(hex: Bytes) returns (ok: bool)
      requires Valid()
      modifies userId
      ensures ok == Hex.Unhex(hex, 16).Some?
      ensures Message() == if ok then old(Message()).(userId := Hex.Unhex(hex, 16).value) else old(Message())
    {
      var id := Hex.HexStringToByteArray(hex, USER_ID_LEN);
      if id.None? {
        return false;
      }
      forall i | 0 <= i < 16 {
        userId[i] := id.value[i];
      }
      assert userId[..] == id.value;
      ok := true;
    }

    method SetUsername(text: Bytes)
      requires Valid()
      modifies username
      ensures Message() == old(Message()).(username := TextField(text, 64))
    {
      FillField(username, text);
    }

    method SetFileName(text: Bytes)
      requires Valid()
      modifies fileName
      ensures Message() == old(Message()).(fileName := TextField(text, 255))
    {
      FillField(fileName, text);
    }

    method SetPublicKey(key: PublicKey)
      requires Valid()
      modifies publicKey
      ensures Message() == old(Message()).(publicKey := key)
    {
      forall i | 0 <= i < 160 {
        publicKey[i] := key[i];
      }
      assert publicKey[..] == key;
    }

    method Serialize() returns (buffer: Bytes)
      requires Valid()
      ensures buffer == Wire(Message())
    {
      hide LittleEndian;
      ghost var fs := Fields(Message());
      buffer := AppendBytes([], userId[..], fs, 0);
      buffer := AppendBinaryField(buffer, version, 1, fs, 1);
      buffer := AppendBinaryField(buffer, code, 2, fs, 2);
      buffer := AppendBinaryField(buffer, payloadSize, 4, fs, 3);
      buffer := AppendBytes(buffer, username[..], fs, 4);
      buffer := AppendBytes(buffer, publicKey[..], fs, 5);
      buffer := AppendBinaryField(buffer, chunkSize, 4, fs, 6);
      buffer := AppendBinaryField(buffer, fileSize, 4, fs, 7);
      buffer := AppendBinaryField(buffer, packetNumber, 2, fs, 8);
      buffer := AppendBinaryField(buffer, totalPackets, 2, fs, 9);
      buffer := AppendBytes(buffer, fileName[..], fs, 10);
      buffer := AppendBytes(buffer, chunk, fs, 11);
      assert fs[..12] == fs;
    }
  }

  /** Clears a fixed-width field, then copies as much of the text as leaves one zero at the end. */
  method FillField(field: array<Byte>, text: Bytes)
    requires field.Length > 0
    modifies field
    ensures field[..] == TextField(text, field.Length)
  {
    forall i | 0 <= i < field.Length {
      field[i] := 0;
    }
    var copyLen := Min(|text|, field.Length - 1);
    forall i | 0 <= i < copyLen {
      field[i] := text[i];
    }
  }

  /** Appends field `k` of a record to the fields before it. */
  method AppendBytes(buffer: Bytes, field: Bytes, ghost fs: seq<Bytes>, ghost k: nat) returns (out: Bytes)
    requires k < |fs| && fs[k] == field && buffer == Flatten(fs[..k])
    ensures out == Flatten(fs[..k + 1])
  {
    FlattenSnoc(fs[..k], field);
    assert fs[..k + 1] == fs[..k] + [field];
    out := buffer + field;
  }

  method AppendBinaryField(buffer: Bytes, v: nat, width: nat, ghost fs: seq<Bytes>, ghost k: nat) returns (out: Bytes)
    requires k < |fs| && fs[k] == LittleEndian(v, width) && buffer == Flatten(fs[..k])
    ensures out == Flatten(fs[..k + 1])
  {
    out := AppendBytes(buffer, LittleEndian(v, width), fs, k);
  }

  // ---------------------------------------------------------------------------
  // A receiver: splits a byte stream by the declared sizes and reads each frame
  // ---------------------------------------------------------------------------

  function Layout(chunkLen: nat): seq<nat> {
    [16, 1, 2, 4, 64, 160, 4, 4, 2, 2, 255, chunkLen]
  }

  lemma LayoutSum(chunkLen: nat)
    ensures Sum(Layout(chunkLen)) == 514 + chunkLen
  {
    var l := Layout(chunkLen);
    assert l[..0] == [] && l[..12] == l;
    SumPrefix(l, 0); SumPrefix(l, 1); SumPrefix(l, 2); SumPrefix(l, 3);
    SumPrefix(l, 4); SumPrefix(l, 5); SumPrefix(l, 6); SumPrefix(l, 7);
    SumPrefix(l, 8); SumPrefix(l, 9); SumPrefix(l, 10); SumPrefix(l, 11);
  }

  function ReadWord16(f: Bytes): (w: Word16)
    requires |f| == 2
    ensures w == FromLittleEndian(f)
  {
    FromLittleEndianRoundTrip(f);
    Pow256Values();
    FromLittleEndian(f)
  }

  function ReadWord32(f: Bytes): (w: Word32)
    requires |f| == 4
    ensures w == FromLittleEndian(f)
  {
    FromLittleEndianRoundTrip(f);
    Pow256Values();
    FromLittleEndian(f)
  }

  /** Reads one frame back into a request. */
  function ParseFrame(frame: Bytes): Option<RequestMsg> {
    if |frame| < HEADER_SIZE + FIXED_PAYLOAD_SIZE then None
    else
      LayoutSum(|frame| - 514);
      var f := Cut(frame, Layout(|frame| - 514));
      Some(RequestMsg(f[0], f[1][0], ReadWord16(f[2]), ReadWord32(f[3]), f[4], f[5], ReadWord32(f[6]),
                      ReadWord32(f[7]), ReadWord16(f[8]), ReadWord16(f[9]), f[10], f[11]))
  }

  /** The payload size a frame declares, if its header is complete. */
  function DeclaredSize(stream: Bytes): Word32
    requires |stream| >= HEADER_SIZE
  {
    ReadWord32(stream[19..23])
  }

  /** Splits a stream by the declared sizes alone; the second part is what could not be split off. */
  function SplitFrames(stream: Bytes): (r: (seq<Bytes>, Bytes))
    decreases |stream|
  {
    if |stream| < HEADER_SIZE then ([], stream)
    else
      var n := HEADER_SIZE + DeclaredSize(stream);
      if |stream| < n then ([], stream)
      else
        var (frames, rest) := SplitFrames(stream[n..]);
        ([stream[..n]] + frames, rest)
  }

  function ParseFrames(frames: seq<Bytes>): Option<seq<RequestMsg>> {
    if frames == [] then Some([])
    else match (ParseFrame(frames[0]), ParseFrames(frames[1..]))
         case (Some(m), Some(ms)) => Some([m] + ms)
         case _ => None
  }

  /** All requests of a stream, provided that it splits up without remainder. */
  function DecodeStream(stream: Bytes): Option<seq<RequestMsg>> {
    var (frames, rest) := SplitFrames(stream);
    if rest == [] then ParseFrames(frames) else None
  }

  lemma WireLength(m: RequestMsg)
    requires m.Valid()
    ensures Lengths(Fields(m)) == Layout(|m.chunk|)
    ensures |Wire(m)| == HEADER_SIZE + FIXED_PAYLOAD_SIZE + |m.chunk|
  {
    assert Lengths(Fields(m)) == Layout(|m.chunk|);
    FlattenLength(Fields(m));
    LayoutSum(|m.chunk|);
  }

  lemma WordsRoundTrip(m: RequestMsg)
    ensures LittleEndian(m.version, 1)[0] == m.version
    ensures ReadWord16(LittleEndian(m.code, 2)) == m.code
    ensures ReadWord32(LittleEndian(m.payloadSize, 4)) == m.payloadSize
    ensures ReadWord32(LittleEndian(m.chunkSize, 4)) == m.chunkSize
    ensures ReadWord32(LittleEndian(m.fileSize, 4)) == m.fileSize
    ensures ReadWord16(LittleEndian(m.packetNumber, 2)) == m.packetNumber
    ensures ReadWord16(LittleEndian(m.totalPackets, 2)) == m.totalPackets
  {
    Pow256Values();
    LittleEndianRoundTrip(m.code, 2);
    LittleEndianRoundTrip(m.payloadSize, 4);
    LittleEndianRoundTrip(m.chunkSize, 4);
    LittleEndianRoundTrip(m.fileSize, 4);
    LittleEndianRoundTrip(m.packetNumber, 2);
    LittleEndianRoundTrip(m.totalPackets, 2);
  }

  lemma FieldOfWire(m: RequestMsg, i: nat, offset: nat)
    requires m.Valid() && i < 12 && Sum(Layout(|m.chunk|)[..i]) == offset
    ensures offset + |Fields(m)[i]| <= |Wire(m)|
    ensures Wire(m)[offset..offset + |Fields(m)[i]|] == Fields(m)[i]
  {
    hide Fields, Wire, Layout;
    var l := Layout(|m.chunk|);
    WireLength(m);
    WireIsFlat(m);
    CutOfFlatten(Fields(m), l, []);
    assert Flatten(Fields(m)) + [] == Flatten(Fields(m));
    CutAt(Wire(m), l, i);
  }

  lemma WireIsFlat(m: RequestMsg)
    ensures Wire(m) == Flatten(Fields(m))
  {
  }

  lemma FieldOffsets(n: nat)
    ensures var l := Layout(n);
            && Sum(l[..0]) == 0 && Sum(l[..1]) == 16 && Sum(l[..2]) == 17 && Sum(l[..3]) == 19
            && Sum(l[..4]) == 23 && Sum(l[..5]) == 87 && Sum(l[..6]) == 247 && Sum(l[..7]) == 251
            && Sum(l[..8]) == 255 && Sum(l[..9]) == 257 && Sum(l[..10]) == 259 && Sum(l[..11]) == 514
  {
    var l := Layout(n);
    assert l[..0] == [];
    SumPrefix(l, 0); SumPrefix(l, 1); SumPrefix(l, 2); SumPrefix(l, 3); SumPrefix(l, 4); SumPrefix(l, 5);
    SumPrefix(l, 6); SumPrefix(l, 7); SumPrefix(l, 8); SumPrefix(l, 9); SumPrefix(l, 10);
  }

  /** Where every field of a request is on the wire; integers have their lowest byte first. */
  lemma WireLayout(m: RequestMsg)
    requires m.Valid()
    ensures var w := Wire(m);
            && |w| == 514 + |m.chunk|
            && w[0..16] == m.userId && w[16..17] == LittleEndian(m.version, 1)
            && w[17..19] == LittleEndian(m.code, 2) && w[19..23] == LittleEndian(m.payloadSize, 4)
            && w[23..87] == m.username && w[87..247] == m.publicKey
            && w[247..251] == LittleEndian(m.chunkSize, 4) && w[251..255] == LittleEndian(m.fileSize, 4)
            && w[255..257] == LittleEndian(m.packetNumber, 2) && w[257..259] == LittleEndian(m.totalPackets, 2)
            && w[259..514] == m.fileName && w[514..514 + |m.chunk|] == m.chunk
  {
    hide Wire, LittleEndian;
    WireLength(m);
    FieldOffsets(|m.chunk|);
    FieldOfWire(m, 0, 0); FieldOfWire(m, 1, 16); FieldOfWire(m, 2, 17); FieldOfWire(m, 3, 19);
    FieldOfWire(m, 4, 23); FieldOfWire(m, 5, 87); FieldOfWire(m, 6, 247); FieldOfWire(m, 7, 251);
    FieldOfWire(m, 8, 255); FieldOfWire(m, 9, 257); FieldOfWire(m, 10, 259); FieldOfWire(m, 11, 514);
  }

  /** Reading a serialized request gives the request back. */
  lemma ParseOfWire(m: RequestMsg)
    requires m.Valid()
    ensures ParseFrame(Wire(m)) == Some(m)
  {
    WireLength(m);
    CutOfFlatten(Fields(m), Layout(|m.chunk|), []);
    assert Wire(m) + [] == Wire(m);
    WordsRoundTrip(m);
  }

  /** Every frame that can be read is the serialization of what was read. */
  lemma WireOfParse(frame: Bytes)
    requires ParseFrame(frame).Some?
    ensures Wire(ParseFrame(frame).value) == frame
  {
    hide Flatten, Cut, Sum, FromLittleEndian;
    var n := |frame| - 514;
    LayoutSum(n);
    var f := Cut(frame, Layout(n));
    FlattenOfCut(frame, Layout(n));
    assert frame[..|frame|] == frame;
    FromLittleEndianRoundTrip(f[2]);
    FromLittleEndianRoundTrip(f[3]);
    FromLittleEndianRoundTrip(f[6]);
    FromLittleEndianRoundTrip(f[7]);
    FromLittleEndianRoundTrip(f[8]);
    FromLittleEndianRoundTrip(f[9]);
    assert LittleEndian(f[1][0], 1) == f[1];
    assert Fields(ParseFrame(frame).value) == f;
  }

  lemma SerializeInjective(m: RequestMsg, m': RequestMsg)
    requires m.Valid() && m'.Valid() && Wire(m) == Wire(m')
    ensures m == m'
  {
    ParseOfWire(m);
    ParseOfWire(m');
  }

  /** The header of a serialized request declares the payload size the request carries. */
  lemma DeclaredSizeOfWire(m: RequestMsg, rest: Bytes)
    requires m.Valid()
    ensures |Wire(m)| >= HEADER_SIZE
    ensures DeclaredSize(Wire(m) + rest) == m.payloadSize
  {
    WireLength(m);
    LayoutSum(|m.chunk|);
    var l := Layout(|m.chunk|);
    CutOfFlatten(Fields(m), l, rest);
    var data := Wire(m) + rest;
    CutAt(data, l, 3);
    assert l[..0] == [];
    SumPrefix(l, 0); SumPrefix(l, 1); SumPrefix(l, 2);
    assert data[19..][..4] == data[19..23];
    WordsRoundTrip(m);
  }

  /** One honest request is split off any stream it starts. */
  lemma SplitOffHonest(m: RequestMsg, rest: Bytes)
    requires m.Valid() && m.Honest()
    ensures SplitFrames(Wire(m) + rest) == ([Wire(m)] + SplitFrames(rest).0, SplitFrames(rest).1)
  {
    DeclaredSizeOfWire(m, rest);
    WireLength(m);
    var stream := Wire(m) + rest;
    assert stream[..|Wire(m)|] == Wire(m) && stream[|Wire(m)|..] == rest;
  }

  lemma StreamHead(ms: seq<RequestMsg>)
    requires ms != []
    ensures StreamOf(ms) == Wire(ms[0]) + StreamOf(ms[1..])
  {
    assert Wires(ms)[1..] == Wires(ms[1..]);
  }

  lemma StreamOfOne(m: RequestMsg)
    ensures StreamOf([m]) == Wire(m)
  {
    StreamHead([m]);
    assert StreamOf([m][1..]) == [];
  }

  /** Honest requests, followed by anything, are split off one by one. */
  lemma {:induction false} SplitOfStream(ms: seq<RequestMsg>, rest: Bytes)
    requires forall i :: 0 <= i < |ms| ==> ms[i].Valid() && ms[i].Honest()
    ensures SplitFrames(StreamOf(ms) + rest) == (Wires(ms) + SplitFrames(rest).0, SplitFrames(rest).1)
  {
    if ms == [] {
      assert StreamOf(ms) + rest == rest;
      assert Wires(ms) + SplitFrames(rest).0 == SplitFrames(rest).0;
    } else {
      var tail := StreamOf(ms[1..]) + rest;
      var (frames, left) := SplitFrames(rest);
      assert StreamOf(ms) + rest == Wire(ms[0]) + tail by {
        StreamHead(ms);
      }
      assert SplitFrames(tail) == (Wires(ms[1..]) + frames, left) by {
        SplitOfStream(ms[1..], rest);
      }
      assert SplitFrames(Wire(ms[0]) + tail) == ([Wire(ms[0])] + (Wires(ms[1..]) + frames), left) by {
        SplitOffHonest(ms[0], tail);
      }
      assert [Wire(ms[0])] + (Wires(ms[1..]) + frames) == Wires(ms) + frames;
    }
  }

  lemma {:induction false} ParseOfWires(ms: seq<RequestMsg>)
    requires forall i :: 0 <= i < |ms| ==> ms[i].Valid()
    ensures ParseFrames(Wires(ms)) == Some(ms)
  {
    if ms != [] {
      ParseOfWire(ms[0]);
      ParseOfWires(ms[1..]);
      assert Wires(ms)[1..] == Wires(ms[1..]);
      assert ms == [ms[0]] + ms[1..];
    }
  }

  /** A stream of honest requests is decoded to exactly the requests sent. */
  lemma StreamRoundTrip(ms: seq<RequestMsg>)
    requires forall i :: 0 <= i < |ms| ==> ms[i].Valid() && ms[i].Honest()
    ensures DecodeStream(StreamOf(ms)) == Some(ms)
  {
    SplitOfStream(ms, []);
    assert StreamOf(ms) + [] == StreamOf(ms);
    assert Wires(ms) + [] == Wires(ms);
    ParseOfWires(ms);
  }

  lemma {:induction false} StreamOfConcat(a: seq<RequestMsg>, b: seq<RequestMsg>)
    ensures StreamOf(a + b) == StreamOf(a) + StreamOf(b)
  {
    assert Wires(a + b) == Wires(a) + Wires(b);
    FlattenAppend(Wires(a), Wires(b));
  }

  // ---------------------------------------------------------------------------
  // The requests that carry no file data
  // ---------------------------------------------------------------------------

  function RegistrationMsg(username: Bytes): (m: RequestMsg)
    ensures m.Valid() && m.Honest()
  {
    BLANK.(code := REGISTRATION, payloadSize := FIXED_PAYLOAD_SIZE, username := TextField(username, 64))
  }

  function PublicKeyMsg(id: UserId, username: Bytes, key: PublicKey): (m: RequestMsg)
    ensures m.Valid() && m.Honest()
  {
    BLANK.(userId := id, code := PUBLIC_KEY_SEND, payloadSize := FIXED_PAYLOAD_SIZE,
           username := TextField(username, 64), publicKey := key)
  }

  function ReRegistrationMsg(id: UserId, username: Bytes): (m: RequestMsg)
    ensures m.Valid() && m.Honest()
  {
    BLANK.(userId := id, code := RE_REGISTRATION, payloadSize := FIXED_PAYLOAD_SIZE,
           username := TextField(username, 64))
  }

  function CrcStatusMsg(id: UserId, code: Word16, name: Bytes): (m: RequestMsg)
    ensures m.Valid() && m.Honest()
  {
    BLANK.(userId := id, code := code, payloadSize := FIXED_PAYLOAD_SIZE, fileName := TextField(name, 255))
  }

  const DISCONNECT_PAYLOAD_SIZE: Word32 := 483

  const DISCONNECT_MSG: RequestMsg := BLANK.(code := DISCONNECT, payloadSize := DISCONNECT_PAYLOAD_SIZE)

  /**
   * The disconnect request declares eight bytes less than it has: a receiver that goes by the declared
   * sizes reads every request before it, then its first 506 bytes, and is left with eight zero bytes.
   */
  lemma DisconnectFallsShort(ms: seq<RequestMsg>)
    requires forall i :: 0 <= i < |ms| ==> ms[i].Valid() && ms[i].Honest()
    ensures SplitFrames(StreamOf(ms + [DISCONNECT_MSG]))
         == (Wires(ms) + [Wire(DISCONNECT_MSG)[..506]], Zeros(8))
    ensures DecodeStream(StreamOf(ms + [DISCONNECT_MSG])).None?
  {
    StreamOfConcat(ms, [DISCONNECT_MSG]);
    StreamOfOne(DISCONNECT_MSG);
    SplitOfStream(ms, Wire(DISCONNECT_MSG));
    ShortFrame(DISCONNECT_MSG);
  }

  lemma ShortFrame(m: RequestMsg)
    requires m.Valid() && m.chunk == [] && m.payloadSize == DISCONNECT_PAYLOAD_SIZE && m.fileName == Zeros(255)
    ensures |Wire(m)| == 514
    ensures SplitFrames(Wire(m)) == ([Wire(m)[..506]], Zeros(8))
  {
    var last := Wire(m);
    DeclaredSizeOfWire(m, []);
    assert last + [] == last;
    TailOfUnnamed(m);
    assert SplitFrames(last[506..]) == ([], last[506..]);
    assert [last[..506]] + [] == [last[..506]];
  }

  lemma TailOfUnnamed(m: RequestMsg)
    requires m.Valid() && m.chunk == [] && m.fileName == Zeros(255)
    ensures |Wire(m)| == 514 && Wire(m)[506..] == Zeros(8)
  {
    WireLength(m);
    var front := Fields(m)[..10];
    FlattenSnoc(front, m.fileName);
    FlattenSnoc(front + [m.fileName], m.chunk);
    assert front + [m.fileName] + [m.chunk] == Fields(m);
    assert Wire(m) == Flatten(front) + m.fileName;
  }

  // ---------------------------------------------------------------------------
  // The bytes of each request
  // ---------------------------------------------------------------------------

  /** The integers of a request, byte by byte, the lowest first. */
  lemma WireWords(m: RequestMsg)
    requires m.Valid()
    ensures |Wire(m)| == 514 + |m.chunk|
    ensures Wire(m)[16..19] == [m.version, m.code % 256, m.code / 256]
    ensures Wire(m)[19..23] == FourBytes(m.payloadSize)
    ensures Wire(m)[247..251] == FourBytes(m.chunkSize) && Wire(m)[251..255] == FourBytes(m.fileSize)
    ensures Wire(m)[255..257] == [m.packetNumber % 256, m.packetNumber / 256]
    ensures Wire(m)[257..259] == [m.totalPackets % 256, m.totalPackets / 256]
  {
    hide Wire, LittleEndian;
    WireLayout(m);
    LittleEndianBytes(m.version);
    LittleEndianBytes(m.code);
    LittleEndianBytes(m.payloadSize);
    LittleEndianBytes(m.chunkSize);
    LittleEndianBytes(m.fileSize);
    LittleEndianBytes(m.packetNumber);
    LittleEndianBytes(m.totalPackets);
    assert Wire(m)[16..19] == Wire(m)[16..17] + Wire(m)[17..19];
  }

  function FourBytes(v: Word32): Bytes {
    [v % 256, v / 256 % 256, v / 0x1_0000 % 256, v / 0x100_0000]
  }

  /** A request without file data: everything from `from` up to the file name is zero. */
  ghost predicate IsBare(w: Bytes, id: UserId, code: Byte, payload: Bytes, username: Bytes, publicKey: Bytes,
                         fileName: Bytes) {
    && |w| == 514 && w[..16] == id && w[16..19] == [3, code, 0] && w[19..23] == payload
    && w[23..87] == username && w[87..247] == publicKey
    && w[247..259] == Zeros(12) && w[259..514] == fileName
  }

  lemma BareBytes(m: RequestMsg, code: Byte, payload: Bytes)
    requires m.Valid() && m.version == 3 && m.code == code && FourBytes(m.payloadSize) == payload && m.chunk == []
    requires m.chunkSize == 0 && m.fileSize == 0 && m.packetNumber == 0 && m.totalPackets == 0
    ensures IsBare(Wire(m), m.userId, code, payload, m.username, m.publicKey, m.fileName)
  {
    hide Wire, LittleEndian;
    WireLayout(m);
    WireWords(m);
    var w := Wire(m);
    assert w[..16] == w[0..16];
    assert w[247..259] == w[247..251] + w[251..255] + w[255..257] + w[257..259];
  }

  /**
   * Registration, public key and re-registration on the wire: version 3, codes 100, 101 and 102, and 491 bytes of
   * payload declared.
   */
  lemma SessionRequestBytes(id: UserId, username: Bytes, key: PublicKey)
    ensures IsBare(Wire(RegistrationMsg(username)), Zeros(16), 100, [235, 1, 0, 0], TextField(username, 64), Zeros(160),
                   Zeros(255))
    ensures IsBare(Wire(PublicKeyMsg(id, username, key)), id, 101, [235, 1, 0, 0], TextField(username, 64), key,
                   Zeros(255))
    ensures IsBare(Wire(ReRegistrationMsg(id, username)), id, 102, [235, 1, 0, 0], TextField(username, 64), Zeros(160),
                   Zeros(255))
  {
    hide Wire, TextField, IsBare;
    BareBytes(RegistrationMsg(username), 100, [235, 1, 0, 0]);
    BareBytes(PublicKeyMsg(id, username, key), 101, [235, 1, 0, 0]);
    BareBytes(ReRegistrationMsg(id, username), 102, [235, 1, 0, 0]);
  }

  /** The status of a file, codes 120 to 122, and the disconnect request: code 130, 483 bytes declared. */
  lemma StatusRequestBytes(id: UserId, name: Bytes)
    ensures IsBare(Wire(CrcStatusMsg(id, CRC_SUCCESS, name)), id, 120, [235, 1, 0, 0], Zeros(64), Zeros(160),
                   TextField(name, 255))
    ensures IsBare(Wire(CrcStatusMsg(id, CRC_ERROR, name)), id, 121, [235, 1, 0, 0], Zeros(64), Zeros(160),
                   TextField(name, 255))
    ensures IsBare(Wire(CrcStatusMsg(id, CRC_FAILURE, name)), id, 122, [235, 1, 0, 0], Zeros(64), Zeros(160),
                   TextField(name, 255))
    ensures IsBare(Wire(DISCONNECT_MSG), Zeros(16), 130, [227, 1, 0, 0], Zeros(64), Zeros(160), Zeros(255))
  {
    hide Wire, TextField, IsBare;
    BareBytes(CrcStatusMsg(id, CRC_SUCCESS, name), 120, [235, 1, 0, 0]);
    BareBytes(CrcStatusMsg(id, CRC_ERROR, name), 121, [235, 1, 0, 0]);
    BareBytes(CrcStatusMsg(id, CRC_FAILURE, name), 122, [235, 1, 0, 0]);
    BareBytes(DISCONNECT_MSG, 130, [227, 1, 0, 0]);
  }
}
