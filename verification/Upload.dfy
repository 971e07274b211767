/** How one encrypted file becomes numbered packets, and how a receiver gets the file back. */
module Uploads {
  import opened Binary
  import opened Protocol
  import opened Requests
  import opened Aes

  const ONE_MIB: nat := 1024 * 1024
  const SMALL_CHUNK_SIZE: nat := 4 * 1024
  const LARGE_CHUNK_SIZE: nat := 64 * 1024

  function ChunkSize(fileSize: nat): (c: nat)
    ensures c == 4096 || c == 65536
  {
    if fileSize < ONE_MIB then SMALL_CHUNK_SIZE else LARGE_CHUNK_SIZE
  }

  function PacketCount(cipherSize: nat, chunkSize: nat): nat
    requires chunkSize > 0
  {
    (cipherSize + chunkSize - 1) / chunkSize
  }

  /** `static_cast` to a narrower unsigned type. */
  function ToWord16(n: nat): (w: Word16)
    ensures n < 0x1_0000 ==> w == n
  {
    n % 0x1_0000
  }

  function ToWord32(n: nat): (w: Word32)
    ensures n < 0x1_0000_0000 ==> w == n
  {
    n % 0x1_0000_0000
  }

  /** Where the chunk of packet `p` (counted from 1) starts, and where it ends. */
  function ChunkStart(chunkSize: nat, p: nat): nat
    requires p >= 1
  {
    (p - 1) * chunkSize
  }

  function ChunkEnd(chunkSize: nat, p: nat, cipherSize: nat): nat {
    Min(p * chunkSize, cipherSize)
  }

  // ---------------------------------------------------------------------------
  // Chunk arithmetic
  // ---------------------------------------------------------------------------

  /** The packet count is the number of chunks it takes, no more and no less. */
  lemma PacketCountBounds(cipherSize: nat, chunkSize: nat)
    requires cipherSize > 0 && chunkSize > 0
    ensures var t := PacketCount(cipherSize, chunkSize);
            t >= 1 && (t - 1) * chunkSize < cipherSize <= t * chunkSize
  {
    var n := cipherSize + chunkSize - 1;
    var t := n / chunkSize;
    assert n == t * chunkSize + n % chunkSize;
    assert (t - 1) * chunkSize == t * chunkSize - chunkSize;
  }

  lemma ScaledOrder(p: nat, q: nat, c: nat)
    requires p <= q
    ensures p * c <= q * c
  {
  }

  /** Every packet has a non-empty chunk; only the last may be shorter than the chunk size. */
  lemma ChunkBounds(cipherSize: nat, chunkSize: nat, p: nat)
    requires cipherSize > 0 && chunkSize > 0
    requires 1 <= p <= PacketCount(cipherSize, chunkSize)
    ensures var start, end := ChunkStart(chunkSize, p), ChunkEnd(chunkSize, p, cipherSize);
            && start < end <= cipherSize && end - start <= chunkSize
            && (p < PacketCount(cipherSize, chunkSize)
                ==> end - start == chunkSize && end == ChunkStart(chunkSize, p + 1))
            && (p == PacketCount(cipherSize, chunkSize) ==> end == cipherSize)
  {
    var t := PacketCount(cipherSize, chunkSize);
    PacketCountBounds(cipherSize, chunkSize);
    assert p * chunkSize == (p - 1) * chunkSize + chunkSize;
    if p < t {
      ScaledOrder(p, t - 1, chunkSize);
    }
  }

  /** The size of the encryption envelope of a file. */
  function EnvelopeSize(fileSize: nat): (e: nat)
    ensures e >= 32
  {
    16 + 16 * (fileSize / 16 + 1)
  }

  /**
   * For every file the client accepts: at most 257 packets below one mebibyte and at most 321 from
   * there on, and no cast to a 16- or 32-bit field loses anything.
   */
  lemma PacketLimits(fileSize: nat)
    requires fileSize <= MAX_FILE_SIZE
    ensures var t := PacketCount(EnvelopeSize(fileSize), ChunkSize(fileSize));
            && 1 <= t <= (if fileSize < ONE_MIB then 257 else 321)
            && ToWord16(t) == t && ToWord32(fileSize) == fileSize
            && ToWord32(ChunkSize(fileSize)) == ChunkSize(fileSize)
  {
    PacketCountBounds(EnvelopeSize(fileSize), ChunkSize(fileSize));
  }

  // ---------------------------------------------------------------------------
  // Packets
  // ---------------------------------------------------------------------------

  function Chunk(cipher: Bytes, chunkSize: nat, p: nat): Bytes
    requires cipher != [] && chunkSize > 0 && 1 <= p <= PacketCount(|cipher|, chunkSize)
  {
    ChunkBounds(|cipher|, chunkSize, p);
    cipher[ChunkStart(chunkSize, p)..ChunkEnd(chunkSize, p, |cipher|)]
  }

  /** The backup request for packet `p` of a file whose encryption is `cipher`. */
  function PacketMsg(id: UserId, name: Bytes, fileSize: nat, cipher: Bytes, p: nat): (m: RequestMsg)
    requires cipher != [] && 1 <= p <= PacketCount(|cipher|, ChunkSize(fileSize))
    ensures m.Valid()
  {
    var chunk := Chunk(cipher, ChunkSize(fileSize), p);
    BLANK.(userId := id,
           code := CREATE_BACKUP,
           payloadSize := ToWord32(FIXED_PAYLOAD_SIZE + ToWord32(|chunk|)),
           chunkSize := ToWord32(|chunk|),
           fileSize := ToWord32(fileSize),
           packetNumber := ToWord16(p),
           totalPackets := ToWord16(PacketCount(|cipher|, ChunkSize(fileSize))),
           fileName := TextField(name, 255),
           chunk := chunk)
  }

  function PacketMsgs(id: UserId, name: Bytes, fileSize: nat, cipher: Bytes): (ms: seq<RequestMsg>)
    requires cipher != []
    ensures |ms| == PacketCount(|cipher|, ChunkSize(fileSize))
    ensures forall i :: 0 <= i < |ms| ==> ms[i] == PacketMsg(id, name, fileSize, cipher, i + 1)
  {
    seq(PacketCount(|cipher|, ChunkSize(fileSize)),
        i requires 0 <= i < PacketCount(|cipher|, ChunkSize(fileSize)) =>
          PacketMsg(id, name, fileSize, cipher, i + 1))
  }

  /** The packets of an accepted file say what they carry: nothing was cut off by a cast. */
  lemma PacketContents(id: UserId, name: Bytes, fileSize: nat, cipher: Bytes, p: nat)
    requires fileSize <= MAX_FILE_SIZE && |cipher| == EnvelopeSize(fileSize)
    requires 1 <= p <= PacketCount(|cipher|, ChunkSize(fileSize))
    ensures var m := PacketMsg(id, name, fileSize, cipher, p);
            && m.Honest() && m.userId == id && m.code == CREATE_BACKUP
            && m.fileSize == fileSize && m.packetNumber == p
            && m.totalPackets == PacketCount(|cipher|, ChunkSize(fileSize))
            && m.chunkSize == |m.chunk| && 1 <= |m.chunk| <= ChunkSize(fileSize)
            && m.chunk == Chunk(cipher, ChunkSize(fileSize), p)
  {
    hide ToWord16, ToWord32, PacketCount, EnvelopeSize;
    PacketLimits(fileSize);
    ChunkBounds(|cipher|, ChunkSize(fileSize), p);
  }

  /** Chunks of so many bytes, the last possibly shorter, and no more of them than it takes. */
  ghost predicate CutInto(ms: seq<RequestMsg>, cipherSize: nat, chunkSize: nat)
    requires chunkSize > 0
  {
    && |ms| == (cipherSize + chunkSize - 1) / chunkSize
    && (forall i :: 0 <= i < |ms| - 1 ==> |ms[i].chunk| == chunkSize)
    && (ms != [] ==> |ms[|ms| - 1].chunk| == cipherSize - (|ms| - 1) * chunkSize)
  }

  /** Files below one mebibyte go out in chunks of 4 KiB, all others in chunks of 64 KiB. */
  lemma ChunkLayout(id: UserId, name: Bytes, fileSize: nat, cipher: Bytes)
    requires fileSize <= 20 * 0x10_0000 && |cipher| == 16 + 16 * (fileSize / 16 + 1)
    ensures var ms := PacketMsgs(id, name, fileSize, cipher);
            && (fileSize < 0x10_0000 ==> CutInto(ms, |cipher|, 4096))
            && (fileSize >= 0x10_0000 ==> CutInto(ms, |cipher|, 65536))
  {
    hide PacketMsg;
    var c := ChunkSize(fileSize);
    var ms := PacketMsgs(id, name, fileSize, cipher);
    assert c == if fileSize < 0x10_0000 then 4096 else 65536;
    ChunkSizes(id, name, fileSize, cipher);
    assert CutInto(ms, |cipher|, c);
  }

  lemma ChunkSizes(id: UserId, name: Bytes, fileSize: nat, cipher: Bytes)
    requires fileSize <= MAX_FILE_SIZE && |cipher| == EnvelopeSize(fileSize)
    ensures CutInto(PacketMsgs(id, name, fileSize, cipher), |cipher|, ChunkSize(fileSize))
  {
    hide PacketMsg, ChunkSize, EnvelopeSize, PacketCount;
    var ms, c := PacketMsgs(id, name, fileSize, cipher), ChunkSize(fileSize);
    forall i | 0 <= i < |ms|
      ensures |ms[i].chunk| == if i < |ms| - 1 then c else |cipher| - (|ms| - 1) * c
    {
      PacketContents(id, name, fileSize, cipher, i + 1);
      ChunkBounds(|cipher|, c, i + 1);
    }
    CountIsQuotient(|cipher|, c);
  }

  lemma CountIsQuotient(cipherSize: nat, chunkSize: nat)
    requires chunkSize > 0
    ensures PacketCount(cipherSize, chunkSize) == (cipherSize + chunkSize - 1) / chunkSize
  {
  }

  /** The size a client remembers of an upload is that of its last chunk. */
  function LastChunkSize(cipherSize: nat, chunkSize: nat): nat
    requires cipherSize > 0 && chunkSize > 0
  {
    PacketCountBounds(cipherSize, chunkSize);
    cipherSize - (PacketCount(cipherSize, chunkSize) - 1) * chunkSize
  }

  /** It lies between 1 and the chunk size, and is the whole ciphertext only for a single packet. */
  lemma LastChunkSizeBounds(cipherSize: nat, chunkSize: nat)
    requires cipherSize > 0 && chunkSize > 0
    ensures 1 <= LastChunkSize(cipherSize, chunkSize) <= chunkSize
    ensures LastChunkSize(cipherSize, chunkSize) == cipherSize <==> PacketCount(cipherSize, chunkSize) == 1
  {
    var t := PacketCount(cipherSize, chunkSize);
    PacketCountBounds(cipherSize, chunkSize);
    assert t * chunkSize == (t - 1) * chunkSize + chunkSize;
    if t > 1 {
      ScaledOrder(1, t - 1, chunkSize);
    }
  }

  lemma LastPacketSize(id: UserId, name: Bytes, fileSize: nat, cipher: Bytes)
    requires fileSize <= MAX_FILE_SIZE && |cipher| == EnvelopeSize(fileSize)
    ensures var ms := PacketMsgs(id, name, fileSize, cipher);
            |ms| >= 1 && ms[|ms| - 1].chunkSize == LastChunkSize(|cipher|, ChunkSize(fileSize))
  {
    PacketLimits(fileSize);
    var t := PacketCount(|cipher|, ChunkSize(fileSize));
    PacketContents(id, name, fileSize, cipher, t);
    ChunkBounds(|cipher|, ChunkSize(fileSize), t);
  }

  // ---------------------------------------------------------------------------
  // The receiver
  // ---------------------------------------------------------------------------

  function ChunksOf(ms: seq<RequestMsg>): (chunks: seq<Bytes>)
    ensures |chunks| == |ms| && forall i :: 0 <= i < |ms| ==> chunks[i] == ms[i].chunk
  {
    seq(|ms|, i requires 0 <= i < |ms| => ms[i].chunk)
  }

  /** Packets 1, 2, ... of one file, each announcing their number and that file's name and size. */
  predicate OneFile(ms: seq<RequestMsg>, name: Bytes, fileSize: nat) {
    forall i :: 0 <= i < |ms| ==>
      && ms[i].code == CREATE_BACKUP
      && ms[i].packetNumber == i + 1
      && ms[i].totalPackets == |ms|
      && FieldText(ms[i].fileName) == name
      && ms[i].fileSize == fileSize
  }

  datatype Restored = File(name: Bytes, data: Bytes) | Unusable

  /** The file that packets carry: check the numbering, join the chunks, decrypt. */
  function RestoreFrom(c: BlockCipher, key: Key, ms: seq<RequestMsg>): Restored {
    if ms == [] || !OneFile(ms, FieldText(ms[0].fileName), ms[0].fileSize) then Unusable
    else match Decrypt(c, key, Flatten(ChunksOf(ms)))
         case Plain(data) =>
           if |data| == ms[0].fileSize then File(FieldText(ms[0].fileName), data) else Unusable
         case _ => Unusable
  }

  /**
   * What a receiver that knows only the wire format and the key makes of the bytes of one upload, split by
   * the declared sizes alone.
   */
  function Restore(c: BlockCipher, key: Key, stream: Bytes): Restored {
    match DecodeStream(stream)
    case None => Unusable
    case Some(ms) => RestoreFrom(c, key, ms)
  }

  function Chunks(cipher: Bytes, chunkSize: nat, n: nat): seq<Bytes>
    requires cipher != [] && chunkSize > 0 && n <= PacketCount(|cipher|, chunkSize)
  {
    if n == 0 then [] else Chunks(cipher, chunkSize, n - 1) + [Chunk(cipher, chunkSize, n)]
  }

  /** The chunks tile the ciphertext, without gap or overlap. */
  lemma {:induction false} ChunksTile(cipher: Bytes, chunkSize: nat, n: nat)
    requires cipher != [] && chunkSize > 0 && n <= PacketCount(|cipher|, chunkSize)
    ensures Flatten(Chunks(cipher, chunkSize, n)) == cipher[..ChunkEnd(chunkSize, n, |cipher|)]
  {
    if n > 0 {
      var end := ChunkEnd(chunkSize, n - 1, |cipher|);
      ChunksTile(cipher, chunkSize, n - 1);
      ChunkBounds(|cipher|, chunkSize, n);
      FlattenSnoc(Chunks(cipher, chunkSize, n - 1), Chunk(cipher, chunkSize, n));
      assert end == ChunkStart(chunkSize, n);
      assert cipher[..end] + cipher[end..ChunkEnd(chunkSize, n, |cipher|)]
          == cipher[..ChunkEnd(chunkSize, n, |cipher|)];
    }
  }

  lemma {:induction false} ChunksAt(cipher: Bytes, chunkSize: nat, n: nat)
    requires cipher != [] && chunkSize > 0 && n <= PacketCount(|cipher|, chunkSize)
    ensures |Chunks(cipher, chunkSize, n)| == n
    ensures forall i :: 0 <= i < n ==> Chunks(cipher, chunkSize, n)[i] == Chunk(cipher, chunkSize, i + 1)
  {
    if n > 0 {
      ChunksAt(cipher, chunkSize, n - 1);
    }
  }

  /** Joined in packet order, the chunks of an upload are the ciphertext again. */
  lemma AllChunks(id: UserId, name: Bytes, fileSize: nat, cipher: Bytes)
    requires cipher != []
    ensures Flatten(ChunksOf(PacketMsgs(id, name, fileSize, cipher))) == cipher
  {
    var c := ChunkSize(fileSize);
    var t := PacketCount(|cipher|, c);
    ChunksTile(cipher, c, t);
    ChunksAt(cipher, c, t);
    PacketCountBounds(|cipher|, c);
    assert ChunksOf(PacketMsgs(id, name, fileSize, cipher)) == Chunks(cipher, c, t);
    assert cipher[..|cipher|] == cipher;
  }

  /** The packets of an accepted file are honest, numbered, and all name the same file. */
  lemma PacketsOfOneFile(id: UserId, name: Bytes, fileSize: nat, cipher: Bytes)
    requires fileSize <= MAX_FILE_SIZE && |cipher| == EnvelopeSize(fileSize) && IsValidFilename(name)
    ensures var ms := PacketMsgs(id, name, fileSize, cipher);
            && |ms| >= 1 && OneFile(ms, name, fileSize)
            && forall i :: 0 <= i < |ms| ==> ms[i].Valid() && ms[i].Honest() && ms[i].userId == id
  {
    var ms := PacketMsgs(id, name, fileSize, cipher);
    PacketLimits(fileSize);
    ValidNamesFit(name);
    forall i | 0 <= i < |ms|
      ensures && ms[i].Honest() && ms[i].userId == id && ms[i].code == CREATE_BACKUP
              && ms[i].packetNumber == i + 1 && ms[i].totalPackets == |ms| && ms[i].fileSize == fileSize
    {
      PacketContents(id, name, fileSize, cipher, i + 1);
    }
    assert forall i :: 0 <= i < |ms| ==> ms[i].fileName == TextField(name, 255);
  }

  /**
   * End to end: the wire bytes of one upload, for every file up to the size limit, every key, IV and
   * valid name, are restored to exactly that name and that file.
   */
  lemma EndToEnd(c: BlockCipher, key: Key, iv: Block, id: UserId, name: Bytes, data: Bytes)
    requires c.Invertible() && |data| <= MAX_FILE_SIZE && IsValidFilename(name)
    ensures var ms := PacketMsgs(id, name, |data|, Encrypt(c, key, iv, data));
            && OneFile(ms, name, |data|)
            && DecodeStream(StreamOf(ms)) == Some(ms)
            && RestoreFrom(c, key, ms) == Restore(c, key, StreamOf(ms)) == File(name, data)
  {
    var cipher := Encrypt(c, key, iv, data);
    var ms := PacketMsgs(id, name, |data|, cipher);
    PacketsOfOneFile(id, name, |data|, cipher);
    StreamRoundTrip(ms);
    AllChunks(id, name, |data|, cipher);
    DecryptOfEncrypt(c, key, iv, data);
  }

  /** A packet on the wire: version 3, code 103, and the chunk behind the fixed part. */
  lemma PacketBytes(id: UserId, name: Bytes, fileSize: nat, cipher: Bytes, p: nat)
    requires fileSize <= 20 * 0x10_0000 && |cipher| == 16 + 16 * (fileSize / 16 + 1)
    requires 1 <= p <= PacketCount(|cipher|, ChunkSize(fileSize))
    ensures var m := PacketMsg(id, name, fileSize, cipher, p);
            var w := Wire(m);
            && |w| == 514 + |m.chunk| && w[..16] == id && w[16..19] == [3, 103, 0]
            && w[19..23] == FourBytes(491 + |m.chunk|) && w[23..247] == Zeros(224)
            && w[247..251] == FourBytes(|m.chunk|) && w[251..255] == FourBytes(fileSize)
            && w[255..257] == [p % 256, p / 256]
            && w[257..259] == [PacketCount(|cipher|, ChunkSize(fileSize)) % 256,
                               PacketCount(|cipher|, ChunkSize(fileSize)) / 256]
            && w[259..514] == TextField(name, 255) && w[514..] == m.chunk
  {
    hide Wire, LittleEndian, PacketCount, ChunkSize, ToWord16, ToWord32, Chunk;
    PacketContents(id, name, fileSize, cipher, p);
    var m := PacketMsg(id, name, fileSize, cipher, p);
    WireLayout(m);
    WireWords(m);
    var w := Wire(m);
    assert w[..16] == w[0..16] && w[514..] == w[514..514 + |m.chunk|];
    assert w[23..247] == w[23..87] + w[87..247];
  }
}
