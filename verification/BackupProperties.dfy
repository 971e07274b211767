/** What every run of a backup keeps, and exactly when a file counts as delivered. */
module BackupProperties {
  import opened Binary
  import opened Protocol
  import opened Aes
  import opened Hosts
  import opened Uploads
  import opened Backups
  import Credentials
  import Crc32
  import Requests
  import Responses

  /** The AES key the client encrypts with. */
  function StoredKey(d: Disk): Option<Key> {
    match Credentials.AesKeyIn(d.aesKey)
    case Some(key) => if |key| == KEY_LEN then Some(key) else None
    case None => None
  }

  /** One upload that was compared: what was read when, the IV used, and the server's answer. */
  datatype Round = Round(at: nat, data: Bytes, iv: Block, reply: Responses.ResponseMsg)

  /**
   * The bytes are those of the file at that time, the IV the one drawn right after, every packet goes out, and
   * the answer is one that gets compared.
   */
  ghost predicate IsRound(env: Env, d: Disk, name: Bytes, r: Round) {
    && env.fileAt(name, r.at) == Content(r.data) && |r.data| <= MAX_FILE_SIZE
    && r.iv == env.ivAt(r.at + 1)
    && NoFaults(env, Connected, r.at + 2, RoundEnd(r))
    && r.reply.code == UPLOAD_RECEIVED && CarriesStoredId(d, r.reply)
  }

  /** The answer repeats the checksum of the file and the size of its last encrypted chunk. */
  ghost predicate Confirms(r: Round) {
    && r.reply.checksum == Crc32.Checksum(r.data)
    && r.reply.encryptedFileSize == RecordedSize(r)
  }

  function RoundPackets(env: Env, id: UserId, key: Key, name: Bytes, r: Round): seq<Requests.RequestMsg> {
    PacketMsgs(id, name, |r.data|, Encrypt(env.cipher, key, r.iv, r.data))
  }

  /** All packets of one attempt, and the answer that was compared. */
  function RoundTrace(env: Env, id: UserId, key: Key, name: Bytes, r: Round): seq<Event> {
    SentAll(RoundPackets(env, id, key, name, r)) + [Got(r.reply)]
  }

  /** Round after round, with an unacknowledged CRC_ERROR between one and the next. */
  function RoundsTrace(env: Env, id: UserId, key: Key, name: Bytes, rounds: seq<Round>): seq<Event>
    decreases |rounds|
  {
    if rounds == [] then []
    else
      RoundTrace(env, id, key, name, rounds[0])
      + if |rounds| == 1 then []
        else [Sent(Requests.CrcStatusMsg(id, CRC_ERROR, name))] + RoundsTrace(env, id, key, name, rounds[1..])
  }

  /** The trace of a file that is not ended by an exception: the rounds, the final status, the acknowledgement. */
  function CompleteTrace(env: Env, id: UserId, key: Key, name: Bytes, rounds: seq<Round>, status: Word16,
                         ack: Responses.ResponseMsg): seq<Event> {
    RoundsTrace(env, id, key, name, rounds) + [Sent(Requests.CrcStatusMsg(id, status, name)), Got(ack)]
  }

  function RepliesTo(rounds: seq<Round>): (rs: seq<Received>)
    ensures |rs| == |rounds| && forall i :: 0 <= i < |rounds| ==> rs[i] == Reply(rounds[i].reply)
  {
    seq(|rounds|, i requires 0 <= i < |rounds| => Reply(rounds[i].reply))
  }

  function RepliesOf(rounds: seq<Round>, ack: Responses.ResponseMsg): (rs: seq<Received>)
    ensures |rs| == |rounds| + 1
  {
    RepliesTo(rounds) + [Reply(ack)]
  }

  /** When the attempt of a round is over: file, IV and every packet take one tick each. */
  function RoundEnd(r: Round): nat {
    r.at + 2 + PacketCount(EnvelopeSize(|r.data|), ChunkSize(|r.data|))
  }

  /** When attempt `i` reads the file: the first at once, the others after the report of the mismatch before. */
  function ReadTime(start: nat, rounds: seq<Round>, i: nat): nat
    requires i <= |rounds|
  {
    if i == 0 then start else RoundEnd(rounds[i - 1]) + 1
  }

  /** Every round is of the file as its own attempt found it. */
  ghost predicate ReadAfresh(start: nat, rounds: seq<Round>) {
    forall i :: 0 <= i < |rounds| ==> rounds[i].at == ReadTime(start, rounds, i)
  }

  /** So no two rounds share a reading. */
  lemma ReadInTurn(start: nat, rounds: seq<Round>, i: nat)
    requires ReadAfresh(start, rounds) && i + 1 < |rounds|
    ensures start <= rounds[0].at && rounds[i].at + 3 <= rounds[i + 1].at
  {
    PacketCountBounds(EnvelopeSize(|rounds[i].data|), ChunkSize(|rounds[i].data|));
    assert rounds[i + 1].at == ReadTime(start, rounds, i + 1);
  }

  /** The results of the comparisons, true for a mismatch. */
  ghost function Mismatches(rounds: seq<Round>): (flags: seq<bool>)
    ensures |flags| == |rounds| && forall i :: 0 <= i < |rounds| ==> flags[i] == !Confirms(rounds[i])
  {
    seq(|rounds|, i requires 0 <= i < |rounds| => !Confirms(rounds[i]))
  }

  ghost predicate TooLarge(f: FileState) {
    f.Content? && |f.data| > MAX_FILE_SIZE
  }

  /** The rounds of a run that starts at this time: mismatches but for the last, and reported as such. */
  ghost predicate AreRounds(env: Env, d: Disk, name: Bytes, start: nat, rounds: seq<Round>) {
    && (rounds != [] ==> StoredId(d).Some? && StoredKey(d).Some?)
    && (forall i :: 0 <= i < |rounds| ==> IsRound(env, d, name, rounds[i]))
    && (forall i :: 0 <= i < |rounds| - 1 ==> !Confirms(rounds[i]) && env.writeFault(RoundEnd(rounds[i])).None?)
    && ReadAfresh(start, rounds)
  }

  /**
   * What the files, the writes and the server give in `w`: rounds, a status that goes out, an acknowledgement.
   * Nothing here is a result of the run.
   */
  ghost predicate IsCompleted(env: Env, w: World, name: Bytes, rounds: seq<Round>, ack: Responses.ResponseMsg) {
    && 1 <= |rounds| && w.link.Connected? && AreRounds(env, w.disk, name, w.clock, rounds)
    && env.writeFault(RoundEnd(rounds[|rounds| - 1])).None?
    && IsAck(w.disk, ack) && ReceiveMany(w.incoming, |rounds| + 1).0 == RepliesOf(rounds, ack)
  }

  ghost predicate CompletedRun(env: Env, w: World, w': World, name: Bytes, rounds: seq<Round>, status: Word16,
                               ack: Responses.ResponseMsg) {
    && IsCompleted(env, w, name, rounds, ack)
    && w'.log == w.log + CompleteTrace(env, StoredId(w.disk).value, StoredKey(w.disk).value, name, rounds, status, ack)
    && w'.incoming == ReceiveMany(w.incoming, |rounds| + 1).1
  }

  // ---------------------------------------------------------------------------
  // Requests of a backup
  // ---------------------------------------------------------------------------

  /** Packet `p` of the file of that name as it was read at that time, under the IV drawn right after. */
  ghost predicate IsPacketAt(env: Env, id: UserId, key: Key, name: Bytes, at: nat, p: nat, m: Requests.RequestMsg) {
    && IsValidFilename(name) && IsReadable(env.fileAt(name, at))
    && var data := env.fileAt(name, at).data;
    && 1 <= p <= PacketCount(EnvelopeSize(|data|), ChunkSize(|data|))
    && m == PacketMsg(id, name, |data|, Encrypt(env.cipher, key, env.ivAt(at + 1), data), p)
  }

  ghost predicate IsReadable(f: FileState) {
    f.Content? && |f.data| <= MAX_FILE_SIZE
  }

  ghost predicate IsPacketOf(env: Env, id: UserId, key: Key, name: Bytes, m: Requests.RequestMsg) {
    exists at, p :: IsPacketAt(env, id, key, name, at, p, m)
  }

  ghost predicate IsStatusOf(id: UserId, name: Bytes, m: Requests.RequestMsg) {
    && IsValidFilename(name)
    && exists code: Word16 ::
         code in {CRC_SUCCESS, CRC_ERROR, CRC_FAILURE} && m == Requests.CrcStatusMsg(id, code, name)
  }

  ghost predicate IsPacket(env: Env, id: UserId, key: Key, m: Requests.RequestMsg) {
    exists name :: IsPacketOf(env, id, key, name, m)
  }

  ghost predicate IsStatus(id: UserId, m: Requests.RequestMsg) {
    exists name :: IsStatusOf(id, name, m)
  }

  ghost predicate IsFileRequest(env: Env, d: Disk, name: Bytes, m: Requests.RequestMsg)
    requires StoredId(d).Some? && StoredKey(d).Some?
  {
    IsPacketOf(env, StoredId(d).value, StoredKey(d).value, name, m) || IsStatusOf(StoredId(d).value, name, m)
  }

  /** What backing up one file does: its requests go out (or break), responses come in (or do not). */
  ghost predicate IsFileEvent(env: Env, d: Disk, name: Bytes, e: Event) {
    && StoredId(d).Some? && StoredKey(d).Some?
    && match e
       case Sent(m) => IsFileRequest(env, d, name, m)
       case Broken(m, _) => IsFileRequest(env, d, name, m)
       case Got(_) => true
       case NoReply => true
       case _ => false
  }

  ghost predicate AllOfFile(env: Env, d: Disk, name: Bytes, t: seq<Event>) {
    forall i :: 0 <= i < |t| ==> IsFileEvent(env, d, name, t[i])
  }

  /** The same for any file. */
  ghost predicate IsBackupEvent(env: Env, d: Disk, e: Event) {
    && StoredId(d).Some? && StoredKey(d).Some?
    && match e
       case Sent(m) => IsPacket(env, StoredId(d).value, StoredKey(d).value, m) || IsStatus(StoredId(d).value, m)
       case Broken(m, _) => IsPacket(env, StoredId(d).value, StoredKey(d).value, m) || IsStatus(StoredId(d).value, m)
       case Got(_) => true
       case NoReply => true
       case _ => false
  }

  lemma FileEventsAreBackup(env: Env, d: Disk, name: Bytes, t: seq<Event>)
    requires AllOfFile(env, d, name, t)
    ensures AllBackup(env, d, t)
  {
    hide IsPacketOf, IsStatusOf, StoredId, StoredKey;
    forall i | 0 <= i < |t| ensures IsBackupEvent(env, d, t[i]) {
      assert IsFileEvent(env, d, name, t[i]);
    }
  }

  ghost predicate AllBackup(env: Env, d: Disk, t: seq<Event>) {
    forall i :: 0 <= i < |t| ==> IsBackupEvent(env, d, t[i])
  }

  /** The log ends with a CRC_SUCCESS that went out and was acknowledged. */
  ghost predicate EndsConfirmed(d: Disk, t: seq<Event>) {
    && |t| >= 2
    && t[|t| - 2].Sent? && t[|t| - 2].m.code == CRC_SUCCESS
    && t[|t| - 1].Got? && IsAck(d, t[|t| - 1].r)
  }

  // ---------------------------------------------------------------------------
  // One attempt
  // ---------------------------------------------------------------------------

  lemma PreparedFile(env: Env, w: World, name: Bytes)
    ensures var (w1, p) := Prepare(env, w, name);
            && w1 == w.(clock := w1.clock)
            && (p.Ready? <==> IsReadable(env.fileAt(name, w.clock)) && StoredKey(w.disk).Some?)
            && match p
               case Ready(data, key, iv) =>
                 && env.fileAt(name, w.clock) == Content(data) && |data| <= MAX_FILE_SIZE
                 && iv == env.ivAt(w.clock + 1) && StoredKey(w.disk) == Some(key) && w1.clock == w.clock + 2
               case Refused(o) =>
                 && (o.ClientError? || o.Fatal?)
                 && (o.ClientError? <==> TooLarge(env.fileAt(name, w.clock)))
  {
  }

  /** The packets an attempt at that time would send; none if the file or the credentials cannot be used. */
  function AttemptPackets(env: Env, d: Disk, name: Bytes, at: nat): seq<Requests.RequestMsg> {
    match (env.fileAt(name, at), StoredId(d), StoredKey(d))
    case (Content(data), Some(id), Some(key)) =>
      if |data| <= MAX_FILE_SIZE
      then PacketMsgs(id, name, |data|, Encrypt(env.cipher, key, env.ivAt(at + 1), data))
      else []
    case _ => []
  }

  lemma AttemptPacketsFacts(env: Env, d: Disk, name: Bytes, at: nat)
    requires IsValidFilename(name)
    ensures var ms := AttemptPackets(env, d, name, at);
            && (ms != [] <==> IsReadable(env.fileAt(name, at)) && StoredId(d).Some? && StoredKey(d).Some?)
            && (ms != [] ==>
                  var data := env.fileAt(name, at).data;
                  && |ms| == PacketCount(EnvelopeSize(|data|), ChunkSize(|data|))
                  && ms[|ms| - 1].chunkSize == LastChunkSize(EnvelopeSize(|data|), ChunkSize(|data|))
                  && forall i :: 0 <= i < |ms| ==>
                       ms[i].code == CREATE_BACKUP
                       && IsPacketOf(env, StoredId(d).value, StoredKey(d).value, name, ms[i]))
  {
    hide Encrypt, PacketMsgs, StoredId, StoredKey, EnvelopeSize, ChunkSize, PacketCount, LastChunkSize, IsPacketOf;
    if IsReadable(env.fileAt(name, at)) && StoredId(d).Some? && StoredKey(d).Some? {
      var data, id, key, iv := env.fileAt(name, at).data, StoredId(d).value, StoredKey(d).value, env.ivAt(at + 1);
      EnvelopeOf(env, key, iv, data);
      LastPacketSize(id, name, |data|, Encrypt(env.cipher, key, iv, data));
      PacketsAreBackups(env, id, key, name, at);
    }
  }

  /** The events of one upload: all packets of the file as it is now, or some of them and one that broke. */
  lemma UploadEvents(env: Env, w: World, a: Auth, name: Bytes) returns (t: seq<Event>)
    requires IsValidFilename(name)
    ensures var (w1, a1, u) := Upload(env, w, a, name);
            var ms := AttemptPackets(env, w.disk, name, w.clock);
            && OnlySent(w, w1) && w1.log == w.log + t
            && (u.Uploaded? <==> ms != [] && NoFaults(env, w.link, w.clock + 2, w.clock + 2 + |ms|))
            && match u
               case Uploaded(data) =>
                 && env.fileAt(name, w.clock) == Content(data) && t == SentAll(ms)
                 && a1 == a.(encryptedFileSize := ms[|ms| - 1].chunkSize) && w1.clock == w.clock + 2 + |ms|
               case NotUploaded(o) =>
                 && a1 == a && (o.ClientError? || o.Fatal?) && (o.ClientError? <==> TooLarge(env.fileAt(name, w.clock)))
                 && (if ms == [] then t == [] else BrokenOff(ms, t))
  {
    hide Upload, AttemptPackets, SendAll, SentAll, BrokenOff, NoFaults, TooLarge;
    var ms := AttemptPackets(env, w.disk, name, w.clock);
    if ms == [] {
      UploadIsRefused(env, w, a, name);
      t := [];
      assert w.log + [] == w.log;
    } else {
      UploadIsSending(env, w, a, name);
      t := SendAllEvents(env, w.(clock := w.clock + 2), ms);
    }
  }

  /** An upload without packets to send is refused. */
  lemma UploadIsRefused(env: Env, w: World, a: Auth, name: Bytes)
    requires IsValidFilename(name) && AttemptPackets(env, w.disk, name, w.clock) == []
    ensures var (w1, a1, u) := Upload(env, w, a, name);
            && w1 == w.(clock := w1.clock) && a1 == a
            && u == NotUploaded(if TooLarge(env.fileAt(name, w.clock)) then ClientError else Fatal)
  {
    hide Encrypt, PacketMsgs, StoredId, StoredKey, SendAll, Prepare, EnvelopeSize, ChunkSize, PacketCount, TooLarge,
         LastChunkSize, IsPacketOf, AttemptPackets;
    PreparedFile(env, w, name);
    ReadableIsNotTooLarge(env.fileAt(name, w.clock));
    AttemptPacketsFacts(env, w.disk, name, w.clock);
  }

  /** Any other is the sending of the packets of the file as it is now. */
  lemma UploadIsSending(env: Env, w: World, a: Auth, name: Bytes)
    requires IsValidFilename(name) && AttemptPackets(env, w.disk, name, w.clock) != []
    ensures var ms := AttemptPackets(env, w.disk, name, w.clock);
            var (w1, sent) := SendAll(env, w.(clock := w.clock + 2), ms);
            && env.fileAt(name, w.clock).Content? && !TooLarge(env.fileAt(name, w.clock))
            && Upload(env, w, a, name)
            == if sent then
                 (w1, a.(encryptedFileSize := ms[|ms| - 1].chunkSize), Uploaded(env.fileAt(name, w.clock).data))
               else (w1, a, NotUploaded(Fatal))
  {
    hide Encrypt, PacketMsgs, StoredId, StoredKey, SendAll, Prepare, EnvelopeSize, ChunkSize, PacketCount, TooLarge,
         LastChunkSize, IsPacketOf;
    PreparedFile(env, w, name);
    ReadableIsNotTooLarge(env.fileAt(name, w.clock));
    AttemptPacketsFacts(env, w.disk, name, w.clock);
    var (w1, p) := Prepare(env, w, name);
    assert w1 == w.(clock := w.clock + 2);
    assert AttemptPackets(env, w.disk, name, w.clock)
        == PacketMsgs(StoredId(w.disk).value, name, |p.data|, Encrypt(env.cipher, p.key, p.iv, p.data));
  }

  /** Whatever part of its packets an attempt sends, they are requests of this file. */
  lemma PacketEvents(env: Env, d: Disk, name: Bytes, at: nat, t: seq<Event>)
    requires IsValidFilename(name)
    requires var ms := AttemptPackets(env, d, name, at); t == [] || t == SentAll(ms) || BrokenOff(ms, t)
    ensures AllOfFile(env, d, name, t)
    ensures forall i :: 0 <= i < |t| ==> (t[i].Sent? || t[i].Broken?) && t[i].m.code == CREATE_BACKUP
  {
    hide AttemptPackets, IsPacketOf, IsStatusOf, StoredId, StoredKey;
    AttemptPacketsFacts(env, d, name, at);
  }

  lemma EnvelopeOf(env: Env, key: Key, iv: Block, data: Bytes)
    ensures |Encrypt(env.cipher, key, iv, data)| == EnvelopeSize(|data|)
  {
  }

  lemma PacketsAreBackups(env: Env, id: UserId, key: Key, name: Bytes, at: nat)
    requires IsValidFilename(name) && IsReadable(env.fileAt(name, at))
    ensures var data := env.fileAt(name, at).data;
            var ms := PacketMsgs(id, name, |data|, Encrypt(env.cipher, key, env.ivAt(at + 1), data));
            forall i :: 0 <= i < |ms| ==> IsPacketOf(env, id, key, name, ms[i]) && ms[i].code == CREATE_BACKUP
  {
    hide Encrypt, EnvelopeSize, ChunkSize, PacketCount;
    var data := env.fileAt(name, at).data;
    var ms := PacketMsgs(id, name, |data|, Encrypt(env.cipher, key, env.ivAt(at + 1), data));
    EnvelopeOf(env, key, env.ivAt(at + 1), data);
    forall i | 0 <= i < |ms| ensures IsPacketOf(env, id, key, name, ms[i]) && ms[i].code == CREATE_BACKUP {
      assert IsPacketAt(env, id, key, name, at, i + 1, ms[i]);
    }
  }

  function RecordedSize(r: Round): nat {
    LastChunkSize(EnvelopeSize(|r.data|), ChunkSize(|r.data|))
  }

  /** From `w` to `w1`: one upload, one response, one comparison. */
  ghost predicate RoundStep(env: Env, w: World, w1: World, name: Bytes, r: Round) {
    && StoredId(w.disk).Some? && StoredKey(w.disk).Some?
    && IsRound(env, w.disk, name, r)
    && w1.log == w.log + RoundTrace(env, StoredId(w.disk).value, StoredKey(w.disk).value, name, r)
    && Receive(w.incoming) == (Reply(r.reply), w1.incoming)
    && r.at == w.clock && w1.clock == RoundEnd(r)
    && w.link.Connected? && w1.disk == w.disk && w1.link == w.link
  }

  /** An attempt whose answer was compared is a round; the verdict says whether it confirms. */
  lemma AttemptRound(env: Env, w: World, a: Auth, name: Bytes) returns (r: Round)
    requires IsValidFilename(name) && !Attempt(env, w, a, name).2.Stop?
    ensures var (w1, a1, v) := Attempt(env, w, a, name);
            && RoundStep(env, w, w1, name, r)
            && (v.Match? <==> Confirms(r))
            && a1.encryptedFileSize == RecordedSize(r) && a1.crcError == v.Mismatch?
            && a1.compared == a.compared + [v.Mismatch?]
  {
    hide Upload, Verify, Encrypt, PacketMsgs, Receive, Crc32.Checksum, StoredId, StoredKey, CarriesStoredId,
         LastChunkSize, EnvelopeSize, ChunkSize, PacketCount, SentAll;
    AttemptPacketsFacts(env, w.disk, name, w.clock);
    var t := UploadEvents(env, w, a, name);
    var (w1, a1, u) := Upload(env, w, a, name);
    var m := VerifyReply(w1, a1, u.data);
    r := Round(w.clock, u.data, env.ivAt(w.clock + 1), m);
    Associate(w.log, t, [Got(m)]);
  }

  lemma VerifyReply(w: World, a: Auth, data: Bytes) returns (m: Responses.ResponseMsg)
    requires !Verify(w, a, data).2.Stop?
    ensures var (w1, a1, v) := Verify(w, a, data);
            && w1 == w.(incoming := w1.incoming, log := w.log + [Got(m)])
            && Receive(w.incoming) == (Reply(m), w1.incoming)
            && m.code == UPLOAD_RECEIVED && CarriesStoredId(w.disk, m)
            && (v.Match? <==> m.checksum == Crc32.Checksum(data) && m.encryptedFileSize == a.encryptedFileSize)
            && a1 == Auth(a.encryptedFileSize, v.Mismatch?, a.compared + [v.Mismatch?])
  {
    hide Receive, Crc32.Checksum, CarriesStoredId;
    var (w1, r) := ReceiveFrom(w);
    m := r.m;
  }

  /** All packets went out, and this is what came of it. */
  ghost predicate SentWhole(ms: seq<Requests.RequestMsg>, t: seq<Event>) {
    ms != [] && |t| == |ms| + 1 && t[..|ms|] == SentAll(ms)
  }

  /**
   * An attempt at that time that did not come to a comparison: it sent nothing, or its packets broke off, or all
   * went out and there was no response, or one that is not compared.
   */
  ghost predicate IsUncompared(env: Env, d: Disk, name: Bytes, at: nat, t: seq<Event>) {
    var ms := AttemptPackets(env, d, name, at);
    if ms == [] then t == []
    else BrokenOff(ms, t)
         || (SentWhole(ms, t)
             && (t[|ms|].NoReply? || (t[|ms|].Got? && !Answers(d, Reply(t[|ms|].r)))))
  }

  /** All packets went out and the server answered that the file is too large. */
  ghost predicate IsRejected(env: Env, d: Disk, name: Bytes, at: nat, t: seq<Event>) {
    var ms := AttemptPackets(env, d, name, at);
    SentWhole(ms, t) && t[|ms|].Got? && t[|ms|].r.code == UPLOAD_REJECTED_TOO_LARGE
  }

  /** The outcome of such an attempt: a client error for a file that is too large, here or for the server. */
  ghost function StopOutcome(env: Env, d: Disk, name: Bytes, at: nat, t: seq<Event>): Outcome {
    if IsRejected(env, d, name, at, t) || TooLarge(env.fileAt(name, at)) then ClientError else Fatal
  }

  /** The events of one attempt with any verdict. */
  lemma AttemptEvents(env: Env, w: World, a: Auth, name: Bytes) returns (t: seq<Event>)
    requires IsValidFilename(name)
    ensures var (w1, a1, v) := Attempt(env, w, a, name);
            && w1.log == w.log + t && w1.disk == w.disk && w1.link == w.link && AllOfFile(env, w.disk, name, t)
            && (!v.Stop? ==> StoredId(w.disk).Some? && StoredKey(w.disk).Some?)
            && (v.Stop? ==> IsUncompared(env, w.disk, name, w.clock, t)
                            && v.o == StopOutcome(env, w.disk, name, w.clock, t))
            && forall i :: 0 <= i < |t| && t[i].Sent? ==> t[i].m.code == CREATE_BACKUP
  {
    hide Upload, Verify, StoredId, StoredKey, SentAll, TooLarge, AttemptPackets, BrokenOff, NoFaults, IsFileRequest,
         Answers, AllOfFile;
    var ms := AttemptPackets(env, w.disk, name, w.clock);
    AttemptPacketsFacts(env, w.disk, name, w.clock);
    t := UploadEvents(env, w, a, name);
    PacketEvents(env, w.disk, name, w.clock, t);
    var (w1, a1, u) := Upload(env, w, a, name);
    if u.Uploaded? {
      var e := VerifyEvent(w1, a1, u.data);
      Associate(w.log, t, [e]);
      AllOfFileSnoc(env, w.disk, name, t, e);
      assert (t + [e])[..|ms|] == t;
      ReadableIsNotTooLarge(env.fileAt(name, w.clock));
      t := t + [e];
    } else {
      NotSentWhole(ms, t);
    }
  }

  lemma ReadableIsNotTooLarge(f: FileState)
    ensures IsReadable(f) ==> !TooLarge(f)
  {
  }

  lemma NotSentWhole(ms: seq<Requests.RequestMsg>, t: seq<Event>)
    requires ms == [] || BrokenOff(ms, t)
    ensures !SentWhole(ms, t)
  {
  }

  lemma AllOfFileSnoc(env: Env, d: Disk, name: Bytes, t: seq<Event>, e: Event)
    requires AllOfFile(env, d, name, t) && IsFileEvent(env, d, name, e)
    ensures AllOfFile(env, d, name, t + [e])
  {
    hide IsFileEvent;
  }

  lemma VerifyEvent(w: World, a: Auth, data: Bytes) returns (e: Event)
    ensures var (w1, a1, v) := Verify(w, a, data);
            && w1 == w.(incoming := w1.incoming, log := w.log + [e]) && (e.Got? || e.NoReply?)
            && (v.Stop? ==> v.o.ClientError? || v.o.Fatal?)
            && (v.Stop? <==> e.NoReply? || !Answers(w.disk, Reply(e.r)))
            && (v == Stop(ClientError) <==> e.Got? && e.r.code == UPLOAD_REJECTED_TOO_LARGE)
            && (Receive(w.incoming).0.Reply? <==> e.Got?) && (e.Got? ==> Receive(w.incoming).0 == Reply(e.r))
  {
    hide Receive, Crc32.Checksum, CarriesStoredId;
    var reply := ReceiveFrom(w).1;
    e := if reply.Reply? then Got(reply.m) else NoReply;
  }

  /** The final status: its events, and when it leads to the given outcome. */
  lemma FinishEvents(env: Env, w: World, name: Bytes, code: Word16, o: Outcome) returns (t: seq<Event>)
    requires IsValidFilename(name) && code in {CRC_SUCCESS, CRC_FAILURE} && !o.Fatal?
    requires StoredId(w.disk).Some? && StoredKey(w.disk).Some?
    ensures var (w1, o1) := Finish(env, w, name, code, o);
            && w1.log == w.log + t && w1.disk == w.disk && w1.link == w.link && AllOfFile(env, w.disk, name, t)
            && IsConclusion(w.disk, name, t, code)
            && o1 == (if Concludes(w.disk, name, t, code) then o else Fatal)
            && (o1 == o ==> Receive(w.incoming) == (Reply(t[1].r), w1.incoming))
            && (o1 == o <==> FaultNow(env, w).None? && Receive(w.incoming).0.Reply?
                             && IsAck(w.disk, Receive(w.incoming).0.m))
  {
    hide Receive, IsAck, IsPacketOf;
    var m := Requests.CrcStatusMsg(StoredId(w.disk).value, code, name);
    assert IsStatusOf(StoredId(w.disk).value, name, m);
    var e := SendEvent(env, w, m);
    var (w1, sent) := SendTo(env, w, m);
    t := [e];
    if sent {
      var (w2, reply) := ReceiveFrom(w1);
      t := [e, if reply.Reply? then Got(reply.m) else NoReply];
      assert w2.log == w.log + t;
    }
  }

  // ---------------------------------------------------------------------------
  // One file
  // ---------------------------------------------------------------------------

  /** The ID and the key of the stored credentials; without credentials there are no rounds. */
  function OwnId(d: Disk): UserId {
    match StoredId(d) case Some(id) => id case None => Zeros(16)
  }

  function OwnKey(d: Disk): Key {
    match StoredKey(d) case Some(key) => key case None => Zeros(32)
  }

  function ErrorStatus(d: Disk, name: Bytes): Event {
    Sent(Requests.CrcStatusMsg(OwnId(d), CRC_ERROR, name))
  }

  /** The rounds of a run, and the events after the last comparison. */
  ghost predicate RunShape(env: Env, w: World, w': World, name: Bytes, rounds: seq<Round>, tail: seq<Event>) {
    && AreRounds(env, w.disk, name, w.clock, rounds)
    && IsRunLog(env, w.disk, name, rounds, tail, w.log, w'.log)
    && ReceiveMany(w.incoming, |rounds|).0 == RepliesTo(rounds)
  }

  /** What is in the log afterwards: the events of the rounds, then the others. */
  ghost predicate IsRunLog(env: Env, d: Disk, name: Bytes, rounds: seq<Round>, tail: seq<Event>, log: seq<Event>,
                           log': seq<Event>) {
    log' == log + (RoundsTrace(env, OwnId(d), OwnKey(d), name, rounds) + tail)
  }

  /** The final status went out and was acknowledged. */
  ghost predicate Concludes(d: Disk, name: Bytes, tail: seq<Event>, status: Word16) {
    && |tail| == 2 && tail[0] == Sent(Requests.CrcStatusMsg(OwnId(d), status, name))
    && tail[1].Got? && IsAck(d, tail[1].r)
  }

  /** The final status broke, or went out and was followed by a response or none. */
  ghost predicate IsConclusion(d: Disk, name: Bytes, tail: seq<Event>, status: Word16) {
    var m := Requests.CrcStatusMsg(OwnId(d), status, name);
    || (|tail| == 1 && tail[0].Broken? && tail[0].m == m)
    || (|tail| == 2 && tail[0] == Sent(m) && (tail[1].Got? || tail[1].NoReply?))
  }

  /** The report of a mismatch broke. */
  ghost predicate IsBrokenReport(d: Disk, name: Bytes, tail: seq<Event>) {
    |tail| == 1 && tail[0].Broken? && tail[0].m == Requests.CrcStatusMsg(OwnId(d), CRC_ERROR, name)
  }

  /**
   * What happened after the last comparison, if there was one, with so many attempts left, and the outcome: the
   * final status; or the report of the mismatch, broken; or that report and the next attempt, which read the
   * file at time `at` and did not come to a comparison.
   */
  ghost predicate EndShape(env: Env, d: Disk, name: Bytes, at: nat, compared: bool, confirmed: bool, left: nat,
                           tail: seq<Event>, o: Outcome) {
    if compared && (confirmed || left == 0) then
      var status := if confirmed then CRC_SUCCESS else CRC_FAILURE;
      && IsConclusion(d, name, tail, status)
      && o == if !Concludes(d, name, tail, status) then Fatal else if confirmed then Delivered else GaveUp
    else if compared && IsBrokenReport(d, name, tail) then o == Fatal
    else
      && (compared ==> tail != [] && tail[0] == ErrorStatus(d, name))
      && var attempt := if compared then tail[1..] else tail;
      && IsUncompared(env, d, name, at, attempt) && o == StopOutcome(env, d, name, at, attempt)
  }

  /** The rounds and the events after them, and the outcome they determine. */
  ghost predicate OutcomeShape(env: Env, w: World, w': World, name: Bytes, rounds: seq<Round>, tail: seq<Event>,
                               attempts: nat, o: Outcome) {
    && |rounds| <= attempts
    && EndShape(env, w.disk, name, ReadTime(w.clock, rounds, |rounds|), rounds != [],
                rounds != [] && Confirms(rounds[|rounds| - 1]), attempts - |rounds|, tail, o)
    && (o.Delivered? || o.GaveUp? ==> IsAcknowledged(env, w, w', rounds, tail))
  }

  /** The final status went out, and the response after it was the last one read. */
  ghost predicate IsAcknowledged(env: Env, w: World, w': World, rounds: seq<Round>, tail: seq<Event>) {
    && rounds != [] && w.link.Connected? && env.writeFault(RoundEnd(rounds[|rounds| - 1])).None?
    && |tail| == 2 && tail[1].Got?
    && Receive(ReceiveMany(w.incoming, |rounds|).1) == (Reply(tail[1].r), w'.incoming)
  }

  /** The fields afterwards: one more result for every round, and the flag is the last of them. */
  ghost predicate FieldsAfter(a: Auth, a': Auth, rounds: seq<Round>) {
    && a'.compared == a.compared + Mismatches(rounds)
    && a'.crcError == if rounds == [] then a.crcError else !Confirms(rounds[|rounds| - 1])
  }

  ghost predicate EntireRun(env: Env, w: World, a: Auth, w': World, a': Auth, name: Bytes, rounds: seq<Round>,
                            tail: seq<Event>, attempts: nat, o: Outcome) {
    && RunShape(env, w, w', name, rounds, tail)
    && OutcomeShape(env, w, w', name, rounds, tail, attempts, o)
    && FieldsAfter(a, a', rounds)
  }

  /**
   * Every run of one file, with any outcome: the attempts that were compared, each of the file as it was at its
   * own start, then what happened after the last comparison. Both together decide the outcome, and the
   * comparisons are what the error flag records.
   */
  lemma {:induction false} EveryRun(env: Env, w: World, a: Auth, name: Bytes, failures: nat)
    returns (rounds: seq<Round>, tail: seq<Event>)
    requires failures < CRC_TRIALS_COUNT && IsValidFilename(name)
    ensures var (w', a', o) := BackupFrom(env, w, a, name, failures);
            EntireRun(env, w, a, w', a', name, rounds, tail, CRC_TRIALS_COUNT - failures, o)
    decreases CRC_TRIALS_COUNT - failures
  {
    hide Attempt, Finish, SendTo, Receive, ReceiveMany, Requests.CrcStatusMsg, StoredId, StoredKey, IsAck, EntireRun,
         RoundStep, Confirms, IsUncompared, StopOutcome;
    var t := AttemptEvents(env, w, a, name);
    AttemptFlag(env, w, a, name);
    var (w1, a1, v) := Attempt(env, w, a, name);
    var (w', a', o) := BackupFrom(env, w, a, name, failures);
    if v.Stop? {
      rounds, tail := [], t;
      StoppedRun(env, w, a, w', a', name, t, CRC_TRIALS_COUNT - failures, o);
    } else {
      var r := AttemptRound(env, w, a, name);
      if v.Match? || failures + 1 == CRC_TRIALS_COUNT {
        rounds := [r];
        tail := LastRun(env, w, a, w1, a1, name, r, CRC_TRIALS_COUNT - failures);
      } else {
        var (w2, sent) := SendStatus(env, w1, name, CRC_ERROR);
        var e := ReportedMismatch(env, w, w1, name, r);
        if sent {
          var rest, tail1 := EveryRun(env, w2, a1, name, failures + 1);
          rounds, tail := [r] + rest, if rest == [] then [e] + tail1 else tail1;
          LaterRun(env, w, a, w1, a1, w2, w', a', name, r, rest, rounds, tail1, tail, CRC_TRIALS_COUNT - failures, o);
        } else {
          rounds, tail := [r], [e];
          BrokenReport(env, w, a, w1, a1, w2, name, r, e, CRC_TRIALS_COUNT - failures);
        }
      }
    }
  }

  /** The report of a mismatch: the error status, or a broken write of it. */
  lemma ReportedMismatch(env: Env, w: World, w1: World, name: Bytes, r: Round) returns (e: Event)
    requires RoundStep(env, w, w1, name, r)
    ensures var (w2, sent) := SendStatus(env, w1, name, CRC_ERROR);
            && OnlySent(w1, w2) && w2.clock == w1.clock + 1 && w2.log == w1.log + [e]
            && (if sent then e == ErrorStatus(w.disk, name) && env.writeFault(RoundEnd(r)).None?
                else IsBrokenReport(w.disk, name, [e]))
  {
    hide Requests.CrcStatusMsg, SendTo, IsRound, RoundTrace, Receive, StoredId, StoredKey, RoundEnd;
    var m := Requests.CrcStatusMsg(StoredId(w.disk).value, CRC_ERROR, name);
    e := SendEvent(env, w1, m);
    SendGoesOut(env, w1, m);
  }

  lemma StoppedRun(env: Env, w: World, a: Auth, w': World, a': Auth, name: Bytes, t: seq<Event>, attempts: nat,
                   o: Outcome)
    requires w'.log == w.log + t && attempts > 0
    requires a'.compared == a.compared && a'.crcError == a.crcError
    requires IsUncompared(env, w.disk, name, w.clock, t) && o == StopOutcome(env, w.disk, name, w.clock, t)
    ensures EntireRun(env, w, a, w', a', name, [], t, attempts, o)
  {
    hide IsUncompared, IsRejected, TooLarge, Receive;
    assert [] + t == t;
    assert a.compared + Mismatches([]) == a.compared;
  }

  /** One more compared round: the shape of a run that ends with it. */
  lemma OneRoundShape(env: Env, w: World, w1: World, w': World, name: Bytes, r: Round, tail: seq<Event>)
    requires RoundStep(env, w, w1, name, r) && w'.log == w1.log + tail
    ensures RunShape(env, w, w', name, [r], tail) && ReceiveMany(w.incoming, 1).1 == w1.incoming
  {
    hide IsRound, RoundTrace, Receive, Confirms, StoredId, StoredKey, RoundEnd;
    ReceiveOneMore(w.incoming, 0);
    assert ReceiveMany(w1.incoming, 0) == ([], w1.incoming);
    assert RepliesTo([r]) == [Reply(r.reply)] + [];
    var trace := RoundTrace(env, OwnId(w.disk), OwnKey(w.disk), name, r);
    assert RoundsTrace(env, OwnId(w.disk), OwnKey(w.disk), name, [r]) == trace + [];
    assert w.log + trace + tail == w.log + (trace + [] + tail);
  }

  lemma FieldsOfOne(a: Auth, a1: Auth, r: Round)
    requires a1.crcError == !Confirms(r) && a1.compared == a.compared + [!Confirms(r)]
    ensures FieldsAfter(a, a1, [r])
  {
    hide Confirms;
    assert Mismatches([r]) == [!Confirms(r)];
  }

  lemma LastRun(env: Env, w: World, a: Auth, w1: World, a1: Auth, name: Bytes, r: Round, attempts: nat)
    returns (tail: seq<Event>)
    requires RoundStep(env, w, w1, name, r) && IsValidFilename(name)
    requires a1.crcError == !Confirms(r) && a1.compared == a.compared + [!Confirms(r)]
    requires attempts == 1 || (attempts > 1 && Confirms(r))
    ensures var status := if Confirms(r) then CRC_SUCCESS else CRC_FAILURE;
            var (w', o) := Finish(env, w1, name, status, if Confirms(r) then Delivered else GaveUp);
            EntireRun(env, w, a, w', a1, name, [r], tail, attempts, o)
  {
    hide IsRound, RoundTrace, Receive, ReceiveMany, Confirms, StoredId, StoredKey, RoundEnd, Finish, IsUncompared,
         StopOutcome, Requests.CrcStatusMsg, RunShape, IsConclusion, IsAck, FieldsAfter;
    var status := if Confirms(r) then CRC_SUCCESS else CRC_FAILURE;
    var o := if Confirms(r) then Delivered else GaveUp;
    tail := FinishEvents(env, w1, name, status, o);
    OneRoundShape(env, w, w1, Finish(env, w1, name, status, o).0, name, r, tail);
    FieldsOfOne(a, a1, r);
  }

  lemma BrokenReport(env: Env, w: World, a: Auth, w1: World, a1: Auth, w2: World, name: Bytes, r: Round, e: Event,
                     attempts: nat)
    requires RoundStep(env, w, w1, name, r) && !Confirms(r) && attempts > 1
    requires a1.crcError && a1.compared == a.compared + [true]
    requires w2.log == w1.log + [e] && IsBrokenReport(w.disk, name, [e])
    ensures EntireRun(env, w, a, w2, a1, name, [r], [e], attempts, Fatal)
  {
    hide IsRound, RoundTrace, Receive, ReceiveMany, Confirms, StoredId, StoredKey, RoundEnd, RunShape, FieldsAfter,
         RoundStep, IsBrokenReport, IsUncompared, StopOutcome;
    OneRoundShape(env, w, w1, w2, name, r, [e]);
    FieldsOfOne(a, a1, r);
  }

  /** The rounds and the tail of a run that begins with one more round. */
  ghost predicate IsLater(d: Disk, name: Bytes, r: Round, rest: seq<Round>, rounds: seq<Round>, tail: seq<Event>,
                          tail': seq<Event>) {
    rounds == [r] + rest && tail' == if rest == [] then [ErrorStatus(d, name)] + tail else tail
  }

  lemma LaterRun(env: Env, w: World, a: Auth, w1: World, a1: Auth, w2: World, w': World, a': Auth, name: Bytes,
                 r: Round, rest: seq<Round>, rounds: seq<Round>, tail: seq<Event>, tail': seq<Event>, attempts: nat,
                 o: Outcome)
    requires RoundStep(env, w, w1, name, r) && !Confirms(r) && attempts > 1
    requires a1.crcError && a1.compared == a.compared + [true]
    requires OnlySent(w1, w2) && w2.clock == w1.clock + 1 && w2.log == w1.log + [ErrorStatus(w.disk, name)]
    requires env.writeFault(RoundEnd(r)).None?
    requires IsLater(w.disk, name, r, rest, rounds, tail, tail')
    requires EntireRun(env, w2, a1, w', a', name, rest, tail, attempts - 1, o)
    ensures EntireRun(env, w, a, w', a', name, rounds, tail', attempts, o)
  {
    hide RunShape, OutcomeShape, Confirms, RoundEnd, RoundTrace, IsRound, Receive, ReceiveMany, ErrorStatus;
    LaterShape(env, w, w1, w2, w', name, r, rest, rounds, tail, tail');
    LaterOutcome(env, w, w2, w', name, r, rest, rounds, tail, tail', attempts, o);
    assert Mismatches(rounds) == [true] + Mismatches(rest);
    assert a.compared + [true] + Mismatches(rest) == a.compared + ([true] + Mismatches(rest));
  }

  lemma LaterShape(env: Env, w: World, w1: World, w2: World, w': World, name: Bytes, r: Round, rest: seq<Round>,
                   rounds: seq<Round>, tail: seq<Event>, tail': seq<Event>)
    requires RoundStep(env, w, w1, name, r) && !Confirms(r)
    requires OnlySent(w1, w2) && w2.clock == w1.clock + 1 && w2.log == w1.log + [ErrorStatus(w.disk, name)]
    requires env.writeFault(RoundEnd(r)).None?
    requires IsLater(w.disk, name, r, rest, rounds, tail, tail')
    requires RunShape(env, w2, w', name, rest, tail)
    ensures RunShape(env, w, w', name, rounds, tail')
    ensures ReceiveMany(w.incoming, |rest| + 1).1 == ReceiveMany(w2.incoming, |rest|).1
  {
    hide RoundStep, AreRounds, IsRunLog, Receive, ReceiveMany, Confirms, RoundEnd, ErrorStatus, IsLater;
    StepEnds(env, w, w1, name, r);
    LaterReplies(env, w, w1, name, r, rest, rounds, tail, tail');
    LaterRunLog(env, w, w1, name, r, rest, rounds, tail, tail', w2.log, w'.log);
    LaterRounds(env, w, w1, name, r, rest, rounds, tail, tail');
  }

  lemma StepEnds(env: Env, w: World, w1: World, name: Bytes, r: Round)
    requires RoundStep(env, w, w1, name, r)
    ensures w1.clock == RoundEnd(r) && w1.disk == w.disk
  {
    hide IsRound, RoundTrace, Receive, StoredId, StoredKey, RoundEnd;
  }

  lemma LaterReplies(env: Env, w: World, w1: World, name: Bytes, r: Round, rest: seq<Round>, rounds: seq<Round>,
                     tail: seq<Event>, tail': seq<Event>)
    requires RoundStep(env, w, w1, name, r) && IsLater(w.disk, name, r, rest, rounds, tail, tail')
    requires ReceiveMany(w1.incoming, |rest|).0 == RepliesTo(rest)
    ensures ReceiveMany(w.incoming, |rounds|).0 == RepliesTo(rounds)
    ensures ReceiveMany(w.incoming, |rest| + 1).1 == ReceiveMany(w1.incoming, |rest|).1
  {
    hide IsRound, RoundTrace, Receive, ReceiveMany, StoredId, StoredKey, RoundEnd, ErrorStatus;
    ReceiveOneMore(w.incoming, |rest|);
    assert RepliesTo(rounds) == [Reply(r.reply)] + RepliesTo(rest);
  }

  lemma LaterRunLog(env: Env, w: World, w1: World, name: Bytes, r: Round, rest: seq<Round>, rounds: seq<Round>,
                    tail: seq<Event>, tail': seq<Event>, log2: seq<Event>, log': seq<Event>)
    requires RoundStep(env, w, w1, name, r) && log2 == w1.log + [ErrorStatus(w.disk, name)]
    requires IsLater(w.disk, name, r, rest, rounds, tail, tail')
    requires IsRunLog(env, w.disk, name, rest, tail, log2, log')
    ensures IsRunLog(env, w.disk, name, rounds, tail', w.log, log')
  {
    hide IsRound, RoundTrace, RoundsTrace, Receive, StoredId, StoredKey, RoundEnd, OwnId, OwnKey,
         Requests.CrcStatusMsg;
    OwnCredentials(w.disk);
    LaterLog(env, w.log, w1.log, log2, log', OwnId(w.disk), OwnKey(w.disk), name, r, rest, tail,
             [ErrorStatus(w.disk, name)]);
  }

  lemma LaterRounds(env: Env, w: World, w1: World, name: Bytes, r: Round, rest: seq<Round>, rounds: seq<Round>,
                    tail: seq<Event>, tail': seq<Event>)
    requires RoundStep(env, w, w1, name, r) && IsLater(w.disk, name, r, rest, rounds, tail, tail')
    requires !Confirms(r) && env.writeFault(RoundEnd(r)).None?
    requires AreRounds(env, w.disk, name, RoundEnd(r) + 1, rest)
    ensures AreRounds(env, w.disk, name, w.clock, rounds)
  {
    hide IsRound, Confirms, StoredId, StoredKey, RoundEnd, ReadAfresh, RoundTrace, Receive, ErrorStatus;
    LaterReads(w.clock, r, rest);
  }

  lemma OwnCredentials(d: Disk)
    ensures StoredId(d).Some? ==> StoredId(d).value == OwnId(d)
    ensures StoredKey(d).Some? ==> StoredKey(d).value == OwnKey(d)
  {
    hide StoredId, StoredKey;
  }

  lemma LaterReads(start: nat, r: Round, rest: seq<Round>)
    requires r.at == start && ReadAfresh(RoundEnd(r) + 1, rest)
    ensures ReadAfresh(start, [r] + rest)
  {
    hide RoundEnd;
    var rounds := [r] + rest;
    forall i | 0 <= i < |rounds| ensures rounds[i].at == ReadTime(start, rounds, i) {
      if i > 0 {
        assert rest[i - 1].at == ReadTime(RoundEnd(r) + 1, rest, i - 1);
      }
    }
  }

  lemma LaterLog(env: Env, log: seq<Event>, log1: seq<Event>, log2: seq<Event>, log': seq<Event>, id: UserId, key: Key,
                 name: Bytes, r: Round, rest: seq<Round>, tail: seq<Event>, report: seq<Event>)
    requires report == [Sent(Requests.CrcStatusMsg(id, CRC_ERROR, name))]
    requires log1 == log + RoundTrace(env, id, key, name, r) && log2 == log1 + report
    requires log' == log2 + (RoundsTrace(env, id, key, name, rest) + tail)
    ensures log' == log + (RoundsTrace(env, id, key, name, [r] + rest) + if rest == [] then report + tail else tail)
  {
    hide RoundTrace, RoundsTrace, Requests.CrcStatusMsg;
    LaterTrace(env, log, id, key, name, r, rest, tail, report);
  }

  lemma LaterTrace(env: Env, log: seq<Event>, id: UserId, key: Key, name: Bytes, r: Round, rest: seq<Round>,
                   tail: seq<Event>, report: seq<Event>)
    requires report == [Sent(Requests.CrcStatusMsg(id, CRC_ERROR, name))]
    ensures log + RoundTrace(env, id, key, name, r) + report + (RoundsTrace(env, id, key, name, rest) + tail)
         == log + (RoundsTrace(env, id, key, name, [r] + rest) + if rest == [] then report + tail else tail)
  {
    hide RoundTrace, Requests.CrcStatusMsg;
    var head := RoundTrace(env, id, key, name, r);
    assert ([r] + rest)[1..] == rest;
    RegroupTrace(log, head, report, RoundsTrace(env, id, key, name, rest), tail);
    if rest == [] {
      assert head + [] == head;
    } else {
      assert RoundsTrace(env, id, key, name, [r] + rest) == head + (report + RoundsTrace(env, id, key, name, rest));
    }
  }

  lemma RegroupTrace(log: seq<Event>, a: seq<Event>, b: seq<Event>, c: seq<Event>, d: seq<Event>)
    ensures log + a + b + (c + d) == log + (a + (b + c) + d)
    ensures c == [] ==> log + a + b + (c + d) == log + (a + (b + d))
  {
  }

  lemma LaterOutcome(env: Env, w: World, w2: World, w': World, name: Bytes, r: Round, rest: seq<Round>,
                     rounds: seq<Round>, tail: seq<Event>, tail': seq<Event>, attempts: nat, o: Outcome)
    requires w2.clock == RoundEnd(r) + 1 && w2.disk == w.disk && w2.link == w.link && !Confirms(r) && attempts > 1
    requires ReceiveMany(w.incoming, |rest| + 1).1 == ReceiveMany(w2.incoming, |rest|).1
    requires IsLater(w.disk, name, r, rest, rounds, tail, tail')
    requires OutcomeShape(env, w2, w', name, rest, tail, attempts - 1, o)
    ensures OutcomeShape(env, w, w', name, rounds, tail', attempts, o)
  {
    hide Receive, ReceiveMany, Confirms, RoundEnd, EndShape, ErrorStatus, OutcomeShape;
    if rest == [] {
      assert rounds == [r];
      OutcomeAfterOne(env, w, w2, w', name, r, tail, attempts, o);
    } else {
      OutcomeAfterMore(env, w, w2, w', name, rest, rounds, tail, attempts, o);
    }
  }

  lemma OutcomeAfterOne(env: Env, w: World, w2: World, w': World, name: Bytes, r: Round, tail: seq<Event>,
                        attempts: nat, o: Outcome)
    requires w2.clock == RoundEnd(r) + 1 && w2.disk == w.disk && !Confirms(r) && attempts > 1
    requires OutcomeShape(env, w2, w', name, [], tail, attempts - 1, o)
    ensures OutcomeShape(env, w, w', name, [r], [ErrorStatus(w.disk, name)] + tail, attempts, o)
  {
    hide Receive, ReceiveMany, Confirms, RoundEnd, EndShape, ErrorStatus;
    EndOutcome(env, w.disk, name, w2.clock, false, false, attempts - 1, tail, o);
    EndLater(env, w.disk, name, w2.clock, attempts - 1, tail, o);
  }

  lemma OutcomeAfterMore(env: Env, w: World, w2: World, w': World, name: Bytes, rest: seq<Round>, rounds: seq<Round>,
                         tail: seq<Event>, attempts: nat, o: Outcome)
    requires w2.disk == w.disk && w2.link == w.link && rest != [] && attempts > 1
    requires |rounds| == |rest| + 1 && rounds[|rest|] == rest[|rest| - 1]
    requires ReceiveMany(w.incoming, |rest| + 1).1 == ReceiveMany(w2.incoming, |rest|).1
    requires OutcomeShape(env, w2, w', name, rest, tail, attempts - 1, o)
    ensures OutcomeShape(env, w, w', name, rounds, tail, attempts, o)
  {
    hide Receive, ReceiveMany, Confirms, RoundEnd, EndShape;
    EndOutcome(env, w.disk, name, RoundEnd(rest[|rest| - 1]) + 1, true, Confirms(rest[|rest| - 1]), attempts - |rounds|,
               tail, o);
  }

  /** What success and abandonment mean for the end of a run. */
  lemma EndOutcome(env: Env, d: Disk, name: Bytes, at: nat, compared: bool, confirmed: bool, left: nat,
                   tail: seq<Event>, o: Outcome)
    ensures EndShape(env, d, name, at, compared, confirmed, left, tail, o) ==>
              && (o.Delivered? ==> compared && confirmed && Concludes(d, name, tail, CRC_SUCCESS))
              && (o.GaveUp? ==> compared && !confirmed && left == 0 && Concludes(d, name, tail, CRC_FAILURE))
  {
    hide IsUncompared, IsRejected, TooLarge, IsConclusion, Concludes;
  }

  /** An attempt that did not come to a comparison, after a reported mismatch. */
  lemma EndLater(env: Env, d: Disk, name: Bytes, at: nat, left: nat, tail: seq<Event>, o: Outcome)
    requires EndShape(env, d, name, at, false, false, left, tail, o) && left > 0
    ensures EndShape(env, d, name, at, true, false, left, [ErrorStatus(d, name)] + tail, o)
  {
    hide IsUncompared, StopOutcome, OwnId;
    assert ([ErrorStatus(d, name)] + tail)[1..] == tail;
  }

  /** One more response after `n`. */
  lemma {:induction false} ReceiveManySnoc(incoming: Bytes, n: nat)
    ensures var (rs, rest) := ReceiveMany(incoming, n);
            ReceiveMany(incoming, n + 1) == (rs + [Receive(rest).0], Receive(rest).1)
    decreases n
  {
    hide Receive;
    var (r, rest) := Receive(incoming);
    ReceiveOneMore(incoming, n);
    if n == 0 {
      assert ReceiveMany(incoming, 0) == ([], incoming) && ReceiveMany(rest, 0) == ([], rest);
      assert [r] + [] == [] + [r];
    } else {
      ReceiveOneMore(incoming, n - 1);
      ReceiveManySnoc(rest, n - 1);
      var (rs, left) := ReceiveMany(rest, n - 1);
      assert [r] + (rs + [Receive(left).0]) == ([r] + rs) + [Receive(left).0];
    }
  }

  lemma ReceiveOneMore(incoming: Bytes, n: nat)
    ensures var (r, rest) := Receive(incoming);
            ReceiveMany(incoming, n + 1) == ([r] + ReceiveMany(rest, n).0, ReceiveMany(rest, n).1)
  {
    hide Receive;
  }

  /**
   * Every run without an exception is one to three rounds, each of the file as its own attempt found it, of
   * which all but the last are mismatches; it reads exactly one response for each and one more, and gives up
   * only after the third.
   */
  lemma CompletedShape(env: Env, w: World, a: Auth, name: Bytes, failures: nat)
    returns (rounds: seq<Round>, ack: Responses.ResponseMsg)
    requires failures < CRC_TRIALS_COUNT && IsValidFilename(name)
    requires BackupFrom(env, w, a, name, failures).2 in {Delivered, GaveUp}
    ensures var (w', a', o) := BackupFrom(env, w, a, name, failures);
            && CompletedRun(env, w, w', name, rounds, if o.Delivered? then CRC_SUCCESS else CRC_FAILURE, ack)
            && failures + |rounds| <= CRC_TRIALS_COUNT
            && (o.GaveUp? ==> failures + |rounds| == CRC_TRIALS_COUNT)
            && (o.Delivered? <==> Confirms(rounds[|rounds| - 1]))
            && a'.compared == a.compared + Mismatches(rounds)
  {
    hide BackupFrom, Receive, ReceiveMany, Requests.CrcStatusMsg, RoundsTrace, IsRound, Confirms, StoredId, StoredKey,
         IsAck, ReadAfresh, EndShape, RoundEnd;
    var tail;
    rounds, tail := EveryRun(env, w, a, name, failures);
    var o := BackupFrom(env, w, a, name, failures).2;
    EndOutcome(env, w.disk, name, ReadTime(w.clock, rounds, |rounds|), rounds != [],
               rounds != [] && Confirms(rounds[|rounds| - 1]), CRC_TRIALS_COUNT - failures - |rounds|, tail, o);
    ack := tail[1].r;
    ReceiveManySnoc(w.incoming, |rounds|);
    OwnCredentials(w.disk);
    assert tail == [tail[0], Got(ack)];
  }

  /** The run from `w` to `w'` confirmed the file in its last round, after mismatches only. */
  ghost predicate DeliveredRun(env: Env, w: World, w': World, name: Bytes, rounds: seq<Round>,
                               ack: Responses.ResponseMsg) {
    && 1 <= |rounds| <= CRC_TRIALS_COUNT
    && CompletedRun(env, w, w', name, rounds, CRC_SUCCESS, ack)
    && Confirms(rounds[|rounds| - 1])
  }

  lemma NotConfirmedByConcat(d: Disk, s: seq<Event>, m: Requests.RequestMsg, t: seq<Event>)
    requires m.code != CRC_SUCCESS && !EndsConfirmed(d, t)
    ensures !EndsConfirmed(d, s + [Sent(m)] + t)
  {
    hide IsAck;
    var all := s + [Sent(m)] + t;
    if |t| >= 2 {
      assert all[|all| - 1] == t[|t| - 1] && all[|all| - 2] == t[|t| - 2];
    }
  }

  /** The events of one file with any outcome; only a delivered file ends with a confirmed success. */
  lemma {:induction false} BackupEvents(env: Env, w: World, a: Auth, name: Bytes, failures: nat)
    returns (t: seq<Event>)
    requires failures < CRC_TRIALS_COUNT && IsValidFilename(name)
    ensures var (w', a', o) := BackupFrom(env, w, a, name, failures);
            && w'.log == w.log + t && w'.disk == w.disk && w'.link == w.link
            && AllOfFile(env, w.disk, name, t)
            && (!o.Delivered? ==> !EndsConfirmed(w.disk, t))
    decreases CRC_TRIALS_COUNT - failures
  {
    hide Attempt, Finish, SendTo, Receive, Requests.CrcStatusMsg, StoredId, StoredKey, IsAck, IsPacketOf, IsStatusOf,
         AllOfFile, IsUncompared, StopOutcome;
    var head := AttemptEvents(env, w, a, name);
    var (w1, a1, v) := Attempt(env, w, a, name);
    t := head;
    if v.Match? || (v.Mismatch? && failures + 1 == CRC_TRIALS_COUNT) {
      var status, o := if v.Match? then CRC_SUCCESS else CRC_FAILURE, if v.Match? then Delivered else GaveUp;
      var tail := FinishEvents(env, w1, name, status, o);
      t := head + tail;
      Associate(w.log, head, tail);
      AllOfFileBoth(env, w.disk, name, head, tail);
      FinishedUnconfirmed(w.disk, name, head, tail, status);
    } else if v.Mismatch? {
      var m := Requests.CrcStatusMsg(StoredId(w.disk).value, CRC_ERROR, name);
      StatusCode(StoredId(w.disk).value, CRC_ERROR, name);
      var e := SendEvent(env, w1, m);
      var (w2, sent) := SendTo(env, w1, m);
      t := head + [e];
      Associate(w.log, head, [e]);
      AllOfFileSnoc(env, w.disk, name, head, e);
      if sent {
        var tail := BackupEvents(env, w2, a1, name, failures + 1);
        NotConfirmed(env, w2, a1, name, failures + 1, w.disk, head, m, tail);
        Associate(w.log, t, tail);
        AllOfFileBoth(env, w.disk, name, t, tail);
        t := t + tail;
      }
    } else {
      PacketsUnconfirmed(w.disk, t);
    }
  }

  lemma AllOfFileBoth(env: Env, d: Disk, name: Bytes, s: seq<Event>, t: seq<Event>)
    requires AllOfFile(env, d, name, s) && AllOfFile(env, d, name, t)
    ensures AllOfFile(env, d, name, s + t)
  {
    hide IsFileEvent;
  }

  lemma PacketsUnconfirmed(d: Disk, t: seq<Event>)
    requires forall i :: 0 <= i < |t| && t[i].Sent? ==> t[i].m.code == CREATE_BACKUP
    ensures !EndsConfirmed(d, t)
  {
    hide IsAck;
  }

  /** Only the acknowledged success status is a confirmation. */
  lemma FinishedUnconfirmed(d: Disk, name: Bytes, head: seq<Event>, tail: seq<Event>, status: Word16)
    requires IsConclusion(d, name, tail, status)
    ensures (status == CRC_SUCCESS && Concludes(d, name, tail, status)) || !EndsConfirmed(d, head + tail)
  {
    hide IsAck;
    var all := head + tail;
    assert all[|all| - 1] == tail[|tail| - 1];
    if |tail| == 2 {
      assert all[|all| - 2] == tail[0];
    }
  }

  lemma NotConfirmed(env: Env, w: World, a: Auth, name: Bytes, failures: nat, d: Disk, head: seq<Event>,
                     m: Requests.RequestMsg, tail: seq<Event>)
    requires failures < CRC_TRIALS_COUNT && m.code == CRC_ERROR
    requires !BackupFrom(env, w, a, name, failures).2.Delivered? ==> !EndsConfirmed(d, tail)
    ensures !BackupFrom(env, w, a, name, failures).2.Delivered? ==> !EndsConfirmed(d, head + [Sent(m)] + tail)
  {
    hide BackupFrom, EndsConfirmed;
    if !BackupFrom(env, w, a, name, failures).2.Delivered? {
      NotConfirmedByConcat(d, head, m, tail);
    }
  }

  lemma StatusCode(id: UserId, code: Word16, name: Bytes)
    requires IsValidFilename(name)
    ensures Requests.CrcStatusMsg(id, code, name).code == code
    ensures code in {CRC_SUCCESS, CRC_ERROR, CRC_FAILURE}
            ==> IsStatusOf(id, name, Requests.CrcStatusMsg(id, code, name))
  {
  }

  lemma TraceEndsConfirmed(env: Env, d: Disk, id: UserId, key: Key, name: Bytes, rounds: seq<Round>,
                           ack: Responses.ResponseMsg)
    requires IsAck(d, ack)
    ensures EndsConfirmed(d, CompleteTrace(env, id, key, name, rounds, CRC_SUCCESS, ack))
  {
    hide IsAck, RoundsTrace;
    var trace := CompleteTrace(env, id, key, name, rounds, CRC_SUCCESS, ack);
    assert trace[|trace| - 2] == Sent(Requests.CrcStatusMsg(id, CRC_SUCCESS, name));
  }

  /**
   * A file is reported as delivered if and only if its run consists of at most three rounds, each read
   * and encrypted afresh, of which the last confirms what was read in that round and every earlier one
   * does not, followed by an acknowledged CRC_SUCCESS.
   */
  lemma DeliveredIff(env: Env, w: World, a: Auth, name: Bytes)
    requires IsValidFilename(name)
    ensures var (w', a', o) := BackupFrom(env, w, a, name, 0);
            o.Delivered? <==> exists rounds, ack :: DeliveredRun(env, w, w', name, rounds, ack)
  {
    hide BackupFrom, CompleteTrace, IsRound, Confirms, EndsConfirmed, IsAck, StoredId, StoredKey, RepliesOf,
         ReceiveMany;
    var (w', a', o) := BackupFrom(env, w, a, name, 0);
    if o.Delivered? {
      var rounds, ack := CompletedShape(env, w, a, name, 0);
      assert DeliveredRun(env, w, w', name, rounds, ack);
    }
    if rounds, ack :| DeliveredRun(env, w, w', name, rounds, ack) {
      var t := BackupEvents(env, w, a, name, 0);
      ConfirmedSuffix(env, w, w', name, rounds, ack, t);
    }
  }

  lemma ConfirmedSuffix(env: Env, w: World, w': World, name: Bytes, rounds: seq<Round>, ack: Responses.ResponseMsg,
                        t: seq<Event>)
    requires DeliveredRun(env, w, w', name, rounds, ack) && w'.log == w.log + t
    ensures EndsConfirmed(w.disk, t)
  {
    hide IsAck, CompleteTrace, Confirms;
    var trace := CompleteTrace(env, StoredId(w.disk).value, StoredKey(w.disk).value, name, rounds, CRC_SUCCESS, ack);
    TraceEndsConfirmed(env, w.disk, StoredId(w.disk).value, StoredKey(w.disk).value, name, rounds, ack);
    assert t == w'.log[|w.log|..] == trace;
  }

  /** From the files, the writes and the server's responses alone: at most so many rounds, the last confirming. */
  ghost predicate IsDeliverable(env: Env, w: World, name: Bytes, attempts: nat, rounds: seq<Round>,
                                ack: Responses.ResponseMsg) {
    && |rounds| <= attempts && IsCompleted(env, w, name, rounds, ack)
    && Confirms(rounds[|rounds| - 1])
  }

  /**
   * Success is decided before the run: by what the file holds at the reading times, by the writes at the times
   * between, and by the server's next responses.
   */
  lemma DeliverableIff(env: Env, w: World, a: Auth, name: Bytes)
    requires IsValidFilename(name)
    ensures BackupFrom(env, w, a, name, 0).2.Delivered?
       <==> exists rounds, ack :: IsDeliverable(env, w, name, CRC_TRIALS_COUNT, rounds, ack)
  {
    hide BackupFrom, IsCompleted, Confirms, CompleteTrace, ReceiveMany;
    if BackupFrom(env, w, a, name, 0).2.Delivered? {
      var rounds, ack := CompletedShape(env, w, a, name, 0);
      assert IsDeliverable(env, w, name, CRC_TRIALS_COUNT, rounds, ack);
    }
    if rounds, ack :| IsDeliverable(env, w, name, CRC_TRIALS_COUNT, rounds, ack) {
      Delivers(env, w, a, name, 0, rounds, ack);
    }
  }

  lemma {:induction false} Delivers(env: Env, w: World, a: Auth, name: Bytes, failures: nat, rounds: seq<Round>,
                                    ack: Responses.ResponseMsg)
    requires failures < CRC_TRIALS_COUNT && IsValidFilename(name)
    requires IsDeliverable(env, w, name, CRC_TRIALS_COUNT - failures, rounds, ack)
    ensures BackupFrom(env, w, a, name, failures).2.Delivered?
    decreases CRC_TRIALS_COUNT - failures
  {
    hide Attempt, Finish, SendStatus, Receive, IsAck, Confirms, AreRounds, RoundStep, RoundEnd, ReceiveMany;
    var r := rounds[0];
    var (w1, a1, v) := Attempt(env, w, a, name);
    FirstRoundHappens(env, w, a, name, rounds, ack);
    if |rounds| == 1 {
      assert rounds == [r];
      LastRoundDelivers(env, w, w1, name, r, ack);
    } else {
      var w2 := LaterRoundsDeliverable(env, w, w1, name, CRC_TRIALS_COUNT - failures, rounds, ack);
      Delivers(env, w2, a1, name, failures + 1, rounds[1..], ack);
    }
  }

  /** The first of the rounds is what the attempt does. */
  lemma FirstRoundHappens(env: Env, w: World, a: Auth, name: Bytes, rounds: seq<Round>, ack: Responses.ResponseMsg)
    requires IsValidFilename(name) && IsCompleted(env, w, name, rounds, ack)
    ensures var (w1, a1, v) := Attempt(env, w, a, name);
            RoundStep(env, w, w1, name, rounds[0]) && v == if Confirms(rounds[0]) then Match else Mismatch
  {
    hide Upload, Verify, Receive, StoredId, StoredKey, IsAck, Confirms, Answers, AttemptPackets, RoundEnd,
         ReceiveMany, CarriesStoredId, IsUncompared, StopOutcome, RoundTrace;
    var r := rounds[0];
    assert IsRound(env, w.disk, name, r) && r.at == ReadTime(w.clock, rounds, 0);
    ReceiveOneMore(w.incoming, |rounds|);
    assert RepliesOf(rounds, ack)[0] == Reply(r.reply);
    AttemptIff(env, w, a, name);
    AnswersOf(env, w.disk, name, r);
    var r' := AttemptRound(env, w, a, name);
    SameRound(env, w, Attempt(env, w, a, name).0, name, r, r');
  }

  lemma AnswersOf(env: Env, d: Disk, name: Bytes, r: Round)
    requires IsRound(env, d, name, r) && StoredId(d).Some? && StoredKey(d).Some? && IsValidFilename(name)
    ensures Answers(d, Reply(r.reply))
    ensures var ms := AttemptPackets(env, d, name, r.at);
            ms != [] && NoFaults(env, Connected, r.at + 2, r.at + 2 + |ms|)
  {
    hide CarriesStoredId, StoredId, StoredKey, AttemptPackets, PacketCount, EnvelopeSize, ChunkSize;
    AttemptPacketsFacts(env, d, name, r.at);
  }

  lemma SameRound(env: Env, w: World, w1: World, name: Bytes, r: Round, r': Round)
    requires IsRound(env, w.disk, name, r) && r.at == w.clock && Receive(w.incoming).0 == Reply(r.reply)
    requires RoundStep(env, w, w1, name, r')
    ensures r == r'
  {
    hide Receive, RoundTrace, RoundEnd, StoredId, StoredKey, CarriesStoredId;
  }

  /** An attempt comes to a comparison exactly if all its packets go out and the next response is one to compare. */
  lemma AttemptIff(env: Env, w: World, a: Auth, name: Bytes)
    requires IsValidFilename(name)
    ensures var ms := AttemptPackets(env, w.disk, name, w.clock);
            !Attempt(env, w, a, name).2.Stop? <==>
            && ms != [] && NoFaults(env, w.link, w.clock + 2, w.clock + 2 + |ms|)
            && Answers(w.disk, Receive(w.incoming).0)
  {
    hide Upload, Verify, Receive, AttemptPackets, NoFaults, CarriesStoredId, SentAll, BrokenOff;
    var t := UploadEvents(env, w, a, name);
    var (w1, a1, u) := Upload(env, w, a, name);
    if u.Uploaded? {
      var e := VerifyEvent(w1, a1, u.data);
    }
  }

  lemma LastRoundDelivers(env: Env, w: World, w1: World, name: Bytes, r: Round, ack: Responses.ResponseMsg)
    requires IsValidFilename(name) && RoundStep(env, w, w1, name, r) && IsCompleted(env, w, name, [r], ack)
    ensures Finish(env, w1, name, CRC_SUCCESS, Delivered).1 == Delivered
  {
    hide Finish, Receive, StoredId, StoredKey, IsAck, IsRound, Confirms, RoundEnd, RoundTrace, ReceiveMany, AreRounds,
         IsConclusion, Concludes;
    ReceiveOneMore(w.incoming, 1);
    ReceiveOneMore(w1.incoming, 0);
    assert RepliesOf([r], ack)[1] == Reply(ack);
    var _ := FinishEvents(env, w1, name, CRC_SUCCESS, Delivered);
  }

  /** After the first of several rounds its mismatch is reported, and the others are still to come. */
  lemma LaterRoundsDeliverable(env: Env, w: World, w1: World, name: Bytes, attempts: nat, rounds: seq<Round>,
                               ack: Responses.ResponseMsg) returns (w2: World)
    requires |rounds| > 1 && IsDeliverable(env, w, name, attempts, rounds, ack)
    requires RoundStep(env, w, w1, name, rounds[0])
    ensures SendStatus(env, w1, name, CRC_ERROR) == (w2, true) && !Confirms(rounds[0])
    ensures IsDeliverable(env, w2, name, attempts - 1, rounds[1..], ack)
  {
    hide Receive, StoredId, StoredKey, IsAck, IsRound, Confirms, RoundEnd, RoundTrace, ReceiveMany, AreRounds, SendTo,
         Requests.CrcStatusMsg;
    var r := rounds[0];
    var m := Requests.CrcStatusMsg(StoredId(w.disk).value, CRC_ERROR, name);
    RestOfRounds(env, w.disk, name, w.clock, rounds);
    var e := SendEvent(env, w1, m);
    SendGoesOut(env, w1, m);
    w2 := SendTo(env, w1, m).0;
    RestOfReplies(w.incoming, w1.incoming, rounds, ack);
    assert rounds[1..][|rounds| - 2] == rounds[|rounds| - 1];
  }

  lemma RestOfRounds(env: Env, d: Disk, name: Bytes, start: nat, rounds: seq<Round>)
    requires |rounds| > 1 && AreRounds(env, d, name, start, rounds)
    ensures AreRounds(env, d, name, RoundEnd(rounds[0]) + 1, rounds[1..])
    ensures !Confirms(rounds[0]) && env.writeFault(RoundEnd(rounds[0])).None?
  {
    hide IsRound, Confirms, RoundEnd, ReadAfresh, StoredId, StoredKey;
    ReadsLater(start, rounds);
    var rest := rounds[1..];
    assert forall i :: 0 <= i < |rest| ==> rest[i] == rounds[i + 1];
  }

  lemma RestOfReplies(incoming: Bytes, after: Bytes, rounds: seq<Round>, ack: Responses.ResponseMsg)
    requires rounds != [] && Receive(incoming).1 == after
    requires ReceiveMany(incoming, |rounds| + 1).0 == RepliesOf(rounds, ack)
    ensures ReceiveMany(after, |rounds|).0 == RepliesOf(rounds[1..], ack)
  {
    hide Receive, ReceiveMany;
    ReceiveOneMore(incoming, |rounds|);
    var rs := ReceiveMany(after, |rounds|).0;
    assert ReceiveMany(incoming, |rounds| + 1).0[1..] == rs;
    assert RepliesOf(rounds, ack)[1..] == RepliesOf(rounds[1..], ack);
  }

  lemma ReadsLater(start: nat, rounds: seq<Round>)
    requires rounds != [] && ReadAfresh(start, rounds)
    ensures ReadAfresh(RoundEnd(rounds[0]) + 1, rounds[1..])
  {
    hide RoundEnd;
    var rest := rounds[1..];
    forall i | 0 <= i < |rest| ensures rest[i].at == ReadTime(RoundEnd(rounds[0]) + 1, rest, i) {
      assert rounds[i + 1].at == ReadTime(start, rounds, i + 1);
    }
  }

  // ---------------------------------------------------------------------------
  // Which servers get a file confirmed
  // ---------------------------------------------------------------------------

  ghost predicate Answers(d: Disk, r: Received) {
    r.Reply? && r.m.code == UPLOAD_RECEIVED && CarriesStoredId(d, r.m)
  }

  ghost predicate Repeats(data: Bytes, m: Responses.ResponseMsg) {
    && m.checksum == Crc32.Checksum(data)
    && m.encryptedFileSize == LastChunkSize(EnvelopeSize(|data|), ChunkSize(|data|))
  }

  /** The server's `k`-th response is the first that repeats checksum and size, and an ACK follows it. */
  ghost predicate ConfirmedAt(d: Disk, data: Bytes, incoming: Bytes, k: nat) {
    && k >= 1
    && var rs := ReceiveMany(incoming, k + 1).0;
    && |rs| == k + 1
    && (forall i :: 0 <= i < k ==> Answers(d, rs[i]) && (Repeats(data, rs[i].m) <==> i == k - 1))
    && rs[k].Reply? && IsAck(d, rs[k].m)
  }

  /** The file keeps its content, and no send breaks. */
  ghost predicate Undisturbed(env: Env, w: World, name: Bytes, data: Bytes) {
    && w.link.Connected? && (forall t :: env.writeFault(t).None?)
    && (forall t :: env.fileAt(name, t) == Content(data)) && |data| <= MAX_FILE_SIZE
    && StoredId(w.disk).Some? && StoredKey(w.disk).Some?
  }

  lemma UndisturbedAttempt(env: Env, w: World, a: Auth, name: Bytes, data: Bytes)
    requires IsValidFilename(name) && Undisturbed(env, w, name, data)
    ensures var (w1, a1, v) := Attempt(env, w, a, name);
            var (r, rest) := Receive(w.incoming);
            && Undisturbed(env, w1, name, data) && w1.disk == w.disk && w1.incoming == rest
            && (v.Match? <==> Answers(w.disk, r) && Repeats(data, r.m))
            && (v.Mismatch? <==> Answers(w.disk, r) && !Repeats(data, r.m))
  {
    hide Upload, AttemptPackets, Receive, Crc32.Checksum, StoredId, StoredKey, CarriesStoredId, LastChunkSize,
         EnvelopeSize, ChunkSize, PacketCount, SentAll, BrokenOff;
    AttemptPacketsFacts(env, w.disk, name, w.clock);
    var t := UploadEvents(env, w, a, name);
  }

  lemma UndisturbedStatus(env: Env, w: World, name: Bytes, data: Bytes, code: Word16)
    requires Undisturbed(env, w, name, data)
    ensures var (w1, sent) := SendStatus(env, w, name, code);
            sent && Undisturbed(env, w1, name, data) && w1.disk == w.disk && w1.incoming == w.incoming
  {
    hide Requests.Wire, Requests.CrcStatusMsg, StoredId, StoredKey;
  }

  lemma UndisturbedFinish(env: Env, w: World, name: Bytes, data: Bytes, code: Word16, o: Outcome)
    requires Undisturbed(env, w, name, data)
    ensures var r := Receive(w.incoming).0;
            Finish(env, w, name, code, o).1 == if r.Reply? && IsAck(w.disk, r.m) then o else Fatal
  {
    hide SendStatus, Receive, IsAck;
    UndisturbedStatus(env, w, name, data, code);
  }

  lemma ConfirmedNow(d: Disk, data: Bytes, incoming: Bytes)
    ensures var (r, rest) := Receive(incoming);
            var next := Receive(rest).0;
            ConfirmedAt(d, data, incoming, 1) <==>
            Answers(d, r) && Repeats(data, r.m) && next.Reply? && IsAck(d, next.m)
  {
    hide Receive, CarriesStoredId, Repeats, IsAck;
    var (r, rest) := Receive(incoming);
    assert ReceiveMany(Receive(rest).1, 0).0 == [];
    ReceiveOneMore(rest, 0);
    ReceiveOneMore(incoming, 1);
    var rs := ReceiveMany(incoming, 2).0;
    assert rs == [r] + ([Receive(rest).0] + []);
    if ConfirmedAt(d, data, incoming, 1) {
      assert Answers(d, rs[0]) && (Repeats(data, rs[0].m) <==> 0 == 0);
    }
  }

  lemma ConfirmedLater(d: Disk, data: Bytes, incoming: Bytes, k: nat)
    requires k >= 1
    ensures var (r, rest) := Receive(incoming);
            ConfirmedAt(d, data, incoming, k + 1) <==>
            Answers(d, r) && !Repeats(data, r.m) && ConfirmedAt(d, data, rest, k)
  {
    hide Receive, CarriesStoredId, Repeats, IsAck;
    var (r, rest) := Receive(incoming);
    ReceiveOneMore(incoming, k + 1);
    var rs, all := ReceiveMany(rest, k + 1).0, ReceiveMany(incoming, k + 2).0;
    assert all == [r] + rs;
    if ConfirmedAt(d, data, incoming, k + 1) {
      forall i | 0 <= i < k ensures Answers(d, rs[i]) && (Repeats(data, rs[i].m) <==> i == k - 1) {
        assert all[i + 1] == rs[i];
      }
      assert all[0] == r;
    }
    if Answers(d, r) && !Repeats(data, r.m) && ConfirmedAt(d, data, rest, k) {
      forall i | 0 <= i < k + 1 ensures Answers(d, all[i]) && (Repeats(data, all[i].m) <==> i == k) {
        if i > 0 {
          assert all[i] == rs[i - 1];
        }
      }
    }
  }

  ghost predicate ConfirmedWithin(d: Disk, data: Bytes, incoming: Bytes, n: nat) {
    exists k :: 1 <= k <= n && ConfirmedAt(d, data, incoming, k)
  }

  /** Confirmed at once, or after a mismatch by one of the responses that follow. */
  lemma ConfirmedStep(d: Disk, data: Bytes, incoming: Bytes, n: nat)
    requires n >= 1
    ensures var (r, rest) := Receive(incoming);
            var next := Receive(rest).0;
            ConfirmedWithin(d, data, incoming, n) <==>
            && Answers(d, r)
            && if Repeats(data, r.m) then next.Reply? && IsAck(d, next.m) else ConfirmedWithin(d, data, rest, n - 1)
  {
    hide Receive, CarriesStoredId, Repeats, IsAck, ConfirmedAt;
    var (r, rest) := Receive(incoming);
    ConfirmedNow(d, data, incoming);
    if k :| 1 <= k <= n && ConfirmedAt(d, data, incoming, k) {
      if k > 1 {
        ConfirmedLater(d, data, incoming, k - 1);
      }
    }
    if k :| 1 <= k <= n - 1 && ConfirmedAt(d, data, rest, k) {
      ConfirmedLater(d, data, incoming, k);
    }
  }

  /**
   * With nothing in its way the client reports success exactly when one of the server's next responses,
   * as many as there are attempts left, is the first to repeat checksum and size, and an ACK follows.
   */
  lemma {:induction false} ServerDecides(env: Env, w: World, a: Auth, name: Bytes, failures: nat, data: Bytes)
    requires failures < CRC_TRIALS_COUNT && IsValidFilename(name) && Undisturbed(env, w, name, data)
    ensures BackupFrom(env, w, a, name, failures).2.Delivered?
       <==> ConfirmedWithin(w.disk, data, w.incoming, CRC_TRIALS_COUNT - failures)
    decreases CRC_TRIALS_COUNT - failures
  {
    hide AllOfFile, IsUncompared, IsRejected, TooLarge, Attempt, Finish, SendStatus, Receive, CarriesStoredId,
         Repeats, IsAck, ConfirmedWithin, Undisturbed;
    UndisturbedAttempt(env, w, a, name, data);
    var _ := AttemptEvents(env, w, a, name);
    var (w1, a1, v) := Attempt(env, w, a, name);
    ConfirmedStep(w.disk, data, w.incoming, CRC_TRIALS_COUNT - failures);
    NeverConfirmed(w.disk, data, w1.incoming);
    UndisturbedFinish(env, w1, name, data, CRC_SUCCESS, Delivered);
    UndisturbedFinish(env, w1, name, data, CRC_FAILURE, GaveUp);
    UndisturbedStatus(env, w1, name, data, CRC_ERROR);
    if v.Mismatch? && failures + 1 < CRC_TRIALS_COUNT {
      var (w2, sent) := SendStatus(env, w1, name, CRC_ERROR);
      ServerDecides(env, w2, a1, name, failures + 1, data);
    }
  }

  lemma NeverConfirmed(d: Disk, data: Bytes, incoming: Bytes)
    ensures !ConfirmedWithin(d, data, incoming, 0)
  {
  }

  // ---------------------------------------------------------------------------
  // What the comparison detects, and what it compares
  // ---------------------------------------------------------------------------

  /** A server that received the file with an error burst of at most 32 bits is never confirmed. */
  lemma BurstNotConfirmed(r: Round, received: Bytes, d: nat, k: nat)
    requires Crc32.BurstApart(r.data, received, d, k) && r.reply.checksum == Crc32.Checksum(received)
    ensures !Confirms(r)
  {
    Crc32.BurstDetected(r.data, received, d, k);
  }

  /** Nor is one that received a file different inside four consecutive bytes only. */
  lemma WindowNotConfirmed(r: Round, received: Bytes, i: nat)
    requires Crc32.DifferInWindow(r.data, received, i) && r.reply.checksum == Crc32.Checksum(received)
    ensures !Confirms(r)
  {
    Crc32.WindowDetected(r.data, received, i);
  }

  /** The checksum answered is that of some copy of the data with an error burst of at most 32 bits. */
  ghost predicate Damaged(data: Bytes, m: Responses.ResponseMsg) {
    exists received, d, k :: Crc32.BurstApart(data, received, d, k) && m.checksum == Crc32.Checksum(received)
  }

  /**
   * A server whose every answer is about such a copy of what was read for that attempt never gets the file
   * reported as delivered, however the file changes from one reading time to the next.
   */
  lemma DamagedNeverDelivered(env: Env, w: World, a: Auth, name: Bytes)
    requires IsValidFilename(name)
    requires forall rounds: seq<Round> ::
               && rounds != [] && |rounds| <= CRC_TRIALS_COUNT && AreRounds(env, w.disk, name, w.clock, rounds)
               && ReceiveMany(w.incoming, |rounds|).0 == RepliesTo(rounds)
               ==> Damaged(rounds[|rounds| - 1].data, rounds[|rounds| - 1].reply)
    ensures !BackupFrom(env, w, a, name, 0).2.Delivered?
  {
    hide BackupFrom, EntireRun, AreRounds, ReceiveMany, Damaged;
    var (w', a', o) := BackupFrom(env, w, a, name, 0);
    if o.Delivered? {
      var rounds, tail := EveryRun(env, w, a, name, 0);
      DeliveredConfirms(env, w, a, w', a', name, rounds, tail);
      DamagedNotConfirmed(rounds[|rounds| - 1]);
    }
  }

  lemma DeliveredConfirms(env: Env, w: World, a: Auth, w': World, a': Auth, name: Bytes, rounds: seq<Round>,
                          tail: seq<Event>)
    requires EntireRun(env, w, a, w', a', name, rounds, tail, CRC_TRIALS_COUNT, Delivered)
    ensures rounds != [] && |rounds| <= CRC_TRIALS_COUNT && AreRounds(env, w.disk, name, w.clock, rounds)
    ensures ReceiveMany(w.incoming, |rounds|).0 == RepliesTo(rounds) && Confirms(rounds[|rounds| - 1])
  {
    hide OutcomeShape, Receive, ReceiveMany, RoundsTrace, AreRounds, Confirms, IsAck, RoundEnd, FieldsAfter;
    LastConfirms(env, w, w', name, rounds, tail);
  }

  lemma LastConfirms(env: Env, w: World, w': World, name: Bytes, rounds: seq<Round>, tail: seq<Event>)
    requires OutcomeShape(env, w, w', name, rounds, tail, CRC_TRIALS_COUNT, Delivered)
    ensures rounds != [] && |rounds| <= CRC_TRIALS_COUNT && Confirms(rounds[|rounds| - 1])
  {
    hide EndShape, IsAcknowledged, Confirms, ReadTime;
    EndOutcome(env, w.disk, name, ReadTime(w.clock, rounds, |rounds|), rounds != [],
               rounds != [] && Confirms(rounds[|rounds| - 1]), CRC_TRIALS_COUNT - |rounds|, tail, Delivered);
  }

  lemma DamagedNotConfirmed(r: Round)
    requires Damaged(r.data, r.reply)
    ensures !Confirms(r)
  {
    hide Confirms, Crc32.BurstApart, Crc32.Checksum;
    var received, d, k :| Crc32.BurstApart(r.data, received, d, k) && r.reply.checksum == Crc32.Checksum(received);
    BurstNotConfirmed(r, received, d, k);
  }

  /**
   * The size compared is that of the last chunk. A server that answers with the size of the whole
   * encrypted file is confirmed exactly for the files that fit into one packet, up to 4079 bytes.
   */
  lemma WholeSizeConfirmsIff(r: Round)
    requires |r.data| <= MAX_FILE_SIZE && r.reply.checksum == Crc32.Checksum(r.data)
    requires r.reply.encryptedFileSize == EnvelopeSize(|r.data|)
    ensures Confirms(r) <==> |r.data| <= 4079
  {
    LastChunkSizeBounds(EnvelopeSize(|r.data|), ChunkSize(|r.data|));
    OnePacketIff(|r.data|);
  }

  lemma OnePacketIff(n: nat)
    requires n <= MAX_FILE_SIZE
    ensures PacketCount(EnvelopeSize(n), ChunkSize(n)) == 1 <==> n <= 4079
  {
    PacketCountBounds(EnvelopeSize(n), ChunkSize(n));
    if n < ONE_MIB {
      assert ChunkSize(n) == 4096;
      assert EnvelopeSize(n) <= 4096 <==> n <= 4079;
      assert PacketCount(EnvelopeSize(n), 4096) == (EnvelopeSize(n) + 4095) / 4096;
    } else {
      assert EnvelopeSize(n) > 65536;
    }
  }

  // ---------------------------------------------------------------------------
  // The error flag, from file to file
  // ---------------------------------------------------------------------------

  lemma AttemptFlag(env: Env, w: World, a: Auth, name: Bytes)
    requires IsValidFilename(name)
    ensures var (w1, a1, v) := Attempt(env, w, a, name);
            && (v.Stop? ==> a1.crcError == a.crcError && a1.compared == a.compared)
            && (!v.Stop? ==> a1.crcError == v.Mismatch? && a1.compared == a.compared + [v.Mismatch?])
  {
    hide Upload, Encrypt, PacketMsgs, Receive, Crc32.Checksum, StoredId, StoredKey, CarriesStoredId;
    var t := UploadEvents(env, w, a, name);
  }

  /**
   * After a file the flag says whether the answer compared last failed to confirm what was read for it; it is
   * as before if no answer was compared. At most as many comparisons are made as attempts were left.
   */
  lemma FileFlag(env: Env, w: World, a: Auth, name: Bytes, failures: nat)
    returns (rounds: seq<Round>, tail: seq<Event>)
    requires failures < CRC_TRIALS_COUNT && IsValidFilename(name)
    ensures var (w', a', o) := BackupFrom(env, w, a, name, failures);
            && RunShape(env, w, w', name, rounds, tail) && |rounds| <= CRC_TRIALS_COUNT - failures
            && a'.crcError == (if rounds == [] then a.crcError else !Confirms(rounds[|rounds| - 1]))
            && a'.compared == a.compared + Mismatches(rounds) && (a.Consistent() ==> a'.Consistent())
            && (o.Delivered? ==> !a'.crcError) && (o.GaveUp? ==> a'.crcError)
  {
    hide BackupFrom, RunShape, Confirms, IsUncompared, IsRejected, TooLarge, Concludes, IsConclusion, Receive,
         ReceiveMany;
    rounds, tail := EveryRun(env, w, a, name, failures);
    var a' := BackupFrom(env, w, a, name, failures).1;
    if a.Consistent() {
      FieldsStayConsistent(a, a', rounds);
    }
  }

  lemma FieldsStayConsistent(a: Auth, a': Auth, rounds: seq<Round>)
    requires FieldsAfter(a, a', rounds) && a.Consistent()
    ensures a'.Consistent()
  {
    hide Confirms;
    if rounds != [] {
      assert a'.compared[|a'.compared| - 1] == Mismatches(rounds)[|rounds| - 1];
    }
  }

  lemma FieldsInTurn(a: Auth, a1: Auth, a2: Auth, first: seq<Round>, later: seq<Round>)
    requires FieldsAfter(a, a1, first) && FieldsAfter(a1, a2, later)
    ensures FieldsAfter(a, a2, first + later)
  {
    hide Confirms;
    assert Mismatches(first + later) == Mismatches(first) + Mismatches(later);
    assert a.compared + (Mismatches(first) + Mismatches(later)) == a.compared + Mismatches(first) + Mismatches(later);
    if later == [] {
      assert first + later == first;
    } else {
      assert (first + later)[|first| + |later| - 1] == later[|later| - 1];
    }
  }

  // ---------------------------------------------------------------------------
  // The batch
  // ---------------------------------------------------------------------------

  function Concat(traces: seq<seq<Event>>): seq<Event> {
    if traces == [] then [] else traces[0] + Concat(traces[1..])
  }

  /**
   * What happened to one name of a batch: the part of the log that is due to it, the rounds it consists of, and
   * the events after the last of them.
   */
  datatype FileRun = FileRun(before: World, auth: Auth, after: World, authAfter: Auth, outcome: Option<Outcome>,
                             trace: seq<Event>, rounds: seq<Round>, tail: seq<Event>)

  /** The world in which the backup of a file starts: one tick after the look whether it exists. */
  function Looked(w: World): World {
    w.(clock := w.clock + 1)
  }

  /**
   * A name that is invalid or missing contributes nothing, nor does a file that is too large; whatever is
   * contributed are requests of this file and responses to them. Rounds and outcome are those of the file.
   */
  ghost predicate IsFileRun(env: Env, name: Bytes, f: FileRun) {
    && (f.after, f.authAfter, f.outcome) == BackupNamed(env, f.before, f.auth, name)
    && f.after.log == f.before.log + f.trace && f.after.disk == f.before.disk && f.after.link == f.before.link
    && AllOfFile(env, f.before.disk, name, f.trace) && FieldsAfter(f.auth, f.authAfter, f.rounds)
    && (f.outcome.None? <==> !IsValidFilename(name) || env.fileAt(name, f.before.clock).Missing?)
    && (f.outcome.None? ==> f.trace == [] && f.rounds == [])
    && (f.outcome.Some? ==>
          && RunShape(env, Looked(f.before), f.after, name, f.rounds, f.tail)
          && OutcomeShape(env, Looked(f.before), f.after, name, f.rounds, f.tail, CRC_TRIALS_COUNT, f.outcome.value))
    && (f.outcome.Some? && TooLarge(env.fileAt(name, f.before.clock + 1))
        ==> f.outcome == Some(ClientError) && f.trace == [])
  }

  lemma OversizedFile(env: Env, w: World, a: Auth, name: Bytes)
    requires TooLarge(env.fileAt(name, w.clock))
    ensures BackupFrom(env, w, a, name, 0) == (w.(clock := w.clock + 1), a, ClientError)
  {
  }

  lemma NamedRun(env: Env, w: World, a: Auth, name: Bytes) returns (f: FileRun)
    ensures IsFileRun(env, name, f) && f.before == w && f.auth == a
  {
    hide BackupFrom, IsFileEvent, RunShape, OutcomeShape, Confirms;
    var (w', a', o) := BackupNamed(env, w, a, name);
    f := FileRun(w, a, w', a', o, [], [], []);
    assert w.log + [] == w.log && a.compared + Mismatches([]) == a.compared;
    if o.Some? {
      var w1 := Looked(w);
      var t := BackupEvents(env, w1, a, name, 0);
      var rounds, tail := EveryRun(env, w1, a, name, 0);
      f := f.(trace := t, rounds := rounds, tail := tail);
      if TooLarge(env.fileAt(name, w1.clock)) {
        OversizedFile(env, w1, a, name);
        assert t == [];
      }
    }
  }

  function TracesOf(runs: seq<FileRun>): (traces: seq<seq<Event>>)
    ensures |traces| == |runs| && forall i :: 0 <= i < |runs| ==> traces[i] == runs[i].trace
  {
    seq(|runs|, i requires 0 <= i < |runs| => runs[i].trace)
  }

  /** All rounds of a batch, in order. */
  function RoundsOf(runs: seq<FileRun>): seq<Round> {
    if runs == [] then [] else runs[0].rounds + RoundsOf(runs[1..])
  }

  /** Where run `i` starts, with which fields: where the run before it ended. */
  function StartOf(w: World, a: Auth, runs: seq<FileRun>, i: nat): (World, Auth)
    requires i <= |runs|
  {
    if i == 0 then (w, a) else (runs[i - 1].after, runs[i - 1].authAfter)
  }

  /** Run `i` is a run of name `i` that starts where the one before ended; only the last may be fatal. */
  ghost predicate IsLink(env: Env, w: World, a: Auth, names: seq<Bytes>, runs: seq<FileRun>, i: nat, completed: bool)
    requires i < |runs| <= |names|
  {
    && IsFileRun(env, names[i], runs[i])
    && (runs[i].before, runs[i].auth) == StartOf(w, a, runs, i)
    && (runs[i].outcome == Some(Fatal) <==> i == |runs| - 1 && !completed)
  }

  /** The runs of a batch: one per name, each starting where the one before it ended. */
  ghost predicate IsBatch(env: Env, w: World, a: Auth, names: seq<Bytes>, runs: seq<FileRun>, w': World, a': Auth,
                          completed: bool) {
    && |runs| <= |names|
    && (forall i :: 0 <= i < |runs| ==> IsLink(env, w, a, names, runs, i, completed))
    && (w', a') == StartOf(w, a, runs, |runs|)
    && (completed ==> |runs| == |names|) && (!completed ==> runs != [])
    && IsBatchLog(env, w, runs, w') && FieldsAfter(a, a', RoundsOf(runs))
  }

  ghost predicate IsBatchLog(env: Env, w: World, runs: seq<FileRun>, w': World) {
    && w'.log == w.log + Concat(TracesOf(runs))
    && w'.disk == w.disk && w'.link == w.link
    && AllBackup(env, w.disk, Concat(TracesOf(runs)))
  }

  lemma BatchStep(env: Env, w: World, a: Auth, names: seq<Bytes>, f: FileRun, runs: seq<FileRun>, w': World, a': Auth,
                  completed: bool)
    requires names != [] && IsFileRun(env, names[0], f) && (f.before, f.auth) == (w, a) && f.outcome != Some(Fatal)
    requires IsBatch(env, f.after, f.authAfter, names[1..], runs, w', a', completed)
    ensures IsBatch(env, w, a, names, [f] + runs, w', a', completed)
  {
    hide IsFileRun, IsBatchLog, IsLink, FieldsAfter;
    var all := [f] + runs;
    FileRunFacts(env, names[0], f);
    BatchLogStep(env, w, names[0], f, runs, w');
    FieldsInTurn(a, f.authAfter, a', f.rounds, RoundsOf(runs));
    assert all[1..] == runs;
    forall i | 0 <= i < |all| ensures IsLink(env, w, a, names, all, i, completed) {
      if i == 0 {
        FirstLink(env, w, a, names, f, runs, completed);
      } else {
        assert IsLink(env, f.after, f.authAfter, names[1..], runs, i - 1, completed);
        ShiftedLink(env, w, a, names, f, runs, i - 1, completed);
      }
    }
  }

  lemma FirstLink(env: Env, w: World, a: Auth, names: seq<Bytes>, f: FileRun, runs: seq<FileRun>, completed: bool)
    requires |runs| < |names| && IsFileRun(env, names[0], f) && (f.before, f.auth) == (w, a)
    requires f.outcome != Some(Fatal) && (runs == [] ==> completed)
    ensures IsLink(env, w, a, names, [f] + runs, 0, completed)
  {
    hide IsFileRun;
  }

  lemma ShiftedLink(env: Env, w: World, a: Auth, names: seq<Bytes>, f: FileRun, runs: seq<FileRun>, k: nat,
                    completed: bool)
    requires k < |runs| < |names| && IsLink(env, f.after, f.authAfter, names[1..], runs, k, completed)
    ensures IsLink(env, w, a, names, [f] + runs, k + 1, completed)
  {
    hide IsFileRun;
    var all := [f] + runs;
    assert all[k + 1] == runs[k] && names[k + 1] == names[1..][k];
    assert StartOf(w, a, all, k + 1) == StartOf(f.after, f.authAfter, runs, k);
  }

  lemma BatchLogStep(env: Env, w: World, name: Bytes, f: FileRun, runs: seq<FileRun>, w': World)
    requires IsFileRun(env, name, f) && f.before == w && IsBatchLog(env, f.after, runs, w')
    ensures IsBatchLog(env, w, [f] + runs, w')
  {
    hide IsFileRun, AllBackup, Concat, BackupNamed, FieldsAfter;
    FileRunFacts(env, name, f);
    ConcatTraces(f, runs);
    var tail := Concat(TracesOf(runs));
    Associate(w.log, f.trace, tail);
    AllBackupOfBoth(env, w.disk, f.trace, tail);
  }

  lemma ConcatTraces(f: FileRun, runs: seq<FileRun>)
    ensures Concat(TracesOf([f] + runs)) == f.trace + Concat(TracesOf(runs))
  {
    assert TracesOf([f] + runs) == [f.trace] + TracesOf(runs);
    assert TracesOf([f] + runs)[1..] == TracesOf(runs);
  }

  lemma AllBackupOfBoth(env: Env, d: Disk, s: seq<Event>, t: seq<Event>)
    requires AllBackup(env, d, s) && AllBackup(env, d, t)
    ensures AllBackup(env, d, s + t)
  {
    hide IsBackupEvent;
  }

  lemma FileRunFacts(env: Env, name: Bytes, f: FileRun)
    requires IsFileRun(env, name, f)
    ensures (f.after, f.authAfter, f.outcome) == BackupNamed(env, f.before, f.auth, name)
    ensures f.after.log == f.before.log + f.trace && f.after.disk == f.before.disk && f.after.link == f.before.link
    ensures AllBackup(env, f.before.disk, f.trace) && FieldsAfter(f.auth, f.authAfter, f.rounds)
  {
    hide RunShape, OutcomeShape, BackupNamed, AllBackup, AllOfFile, FieldsAfter;
    FileEventsAreBackup(env, f.before.disk, name, f.trace);
  }

  /**
   * The log of a batch is the concatenation of the parts of its files, in order. Only an exception other
   * than a client error ends the batch, and that is what a rejection by the server or an oversized file ends in.
   * The error flag is the result of the latest comparison of the whole batch.
   */
  lemma {:induction false} BatchTrace(env: Env, w: World, a: Auth, names: seq<Bytes>) returns (runs: seq<FileRun>)
    ensures var (w', a', completed) := BackupAll(env, w, a, names);
            IsBatch(env, w, a, names, runs, w', a', completed)
    decreases |names|
  {
    hide BackupNamed, IsFileRun, IsBatch;
    if names == [] {
      runs := [];
      EmptyBatch(env, w, a);
    } else {
      var f := NamedRun(env, w, a, names[0]);
      FileRunFacts(env, names[0], f);
      if f.outcome == Some(Fatal) {
        runs := [f];
        SingleRun(env, w, a, names, f);
      } else {
        var rest := BatchTrace(env, f.after, f.authAfter, names[1..]);
        var (w', a', completed) := BackupAll(env, f.after, f.authAfter, names[1..]);
        BatchStep(env, w, a, names, f, rest, w', a', completed);
        runs := [f] + rest;
      }
    }
  }

  lemma EmptyBatch(env: Env, w: World, a: Auth)
    ensures IsBatch(env, w, a, [], [], w, a, true)
  {
    assert Concat(TracesOf([])) == [] && w.log + [] == w.log;
    assert a.compared + Mismatches([]) == a.compared;
  }

  lemma SingleRun(env: Env, w: World, a: Auth, names: seq<Bytes>, f: FileRun)
    requires names != [] && IsFileRun(env, names[0], f) && (f.before, f.auth) == (w, a) && f.outcome == Some(Fatal)
    ensures IsBatch(env, w, a, names, [f], f.after, f.authAfter, false)
  {
    hide IsFileRun, IsBackupEvent, FieldsAfter;
    FileRunFacts(env, names[0], f);
    assert TracesOf([f])[1..] == [] && [f][1..] == [];
    assert Concat(TracesOf([f])) == f.trace + [] == f.trace;
    assert RoundsOf([f]) == f.rounds + [] == f.rounds;
  }
}
