/**
 * What a whole session achieves when nothing stands in its way and the server answers as it should: every
 * selected file goes out once, is confirmed, and can be restored from the bytes on the wire.
 */
module Deliveries {
  import opened Binary
  import opened Protocol
  import opened Aes
  import opened Hosts
  import opened Sessions
  import opened Uploads
  import opened Backups
  import opened BackupProperties
  import Base64
  import Credentials
  import Crc32
  import Flows
  import Hex
  import Requests
  import Responses

  /** A file to deliver, the server's answer to its upload, and the acknowledgement at its end. */
  datatype Job = Job(name: Bytes, data: Bytes, answer: Responses.ResponseMsg, ack: Responses.ResponseMsg)

  function NamesOf(jobs: seq<Job>): (names: seq<Bytes>)
    ensures |names| == |jobs| && forall i :: 0 <= i < |jobs| ==> names[i] == jobs[i].name
  {
    seq(|jobs|, i requires 0 <= i < |jobs| => jobs[i].name)
  }

  /** The server's responses to the jobs, back to back. */
  function AnswerStream(jobs: seq<Job>): Bytes {
    if jobs == [] then []
    else Responses.Wire(jobs[0].answer) + (Responses.Wire(jobs[0].ack) + AnswerStream(jobs[1..]))
  }

  /** The file stays as it is; the answer repeats its checksum and the size of its last chunk. */
  ghost predicate GoodJob(env: Env, id: UserId, j: Job) {
    && IsValidFilename(j.name) && |j.data| <= MAX_FILE_SIZE && (forall t :: env.fileAt(j.name, t) == Content(j.data))
    && j.answer.WellFormed() && j.answer.code == UPLOAD_RECEIVED && j.answer.userId == id && Repeats(j.data, j.answer)
    && j.ack.WellFormed() && j.ack.code == ACK && j.ack.userId == id
  }

  ghost predicate GoodJobs(env: Env, id: UserId, jobs: seq<Job>) {
    forall i :: 0 <= i < |jobs| ==> GoodJob(env, id, jobs[i])
  }

  /** What a truthful server answers to the upload of a file. */
  function TruthfulJob(id: UserId, name: Bytes, data: Bytes): (j: Job)
    ensures j.name == name && j.data == data
  {
    LastChunkSizeBounds(EnvelopeSize(|data|), ChunkSize(|data|));
    var size := LastChunkSize(EnvelopeSize(|data|), ChunkSize(|data|));
    Job(name, data, Responses.ResponseMsg(3, UPLOAD_RECEIVED, 279, id, [], size, Zeros(255), Crc32.Checksum(data)),
        Responses.ResponseMsg(3, ACK, 279, id, [], 0, Zeros(255), 0))
  }

  /** So every valid file that stays as it is has answers that let it through. */
  lemma TruthfulServer(env: Env, id: UserId, name: Bytes, data: Bytes)
    requires IsValidFilename(name) && |data| <= MAX_FILE_SIZE && forall t :: env.fileAt(name, t) == Content(data)
    ensures GoodJob(env, id, TruthfulJob(id, name, data))
  {
    hide Crc32.Checksum, LastChunkSize, EnvelopeSize, ChunkSize;
  }

  function JobPackets(env: Env, id: UserId, key: Key, j: Job, iv: Block): seq<Requests.RequestMsg> {
    PacketMsgs(id, j.name, |j.data|, Encrypt(env.cipher, key, iv, j.data))
  }

  /** All packets, the answer, the success status, its acknowledgement. */
  function JobTrace(env: Env, id: UserId, key: Key, j: Job, iv: Block): seq<Event> {
    SentAll(JobPackets(env, id, key, j, iv)) + [Got(j.answer)]
    + [Sent(Requests.CrcStatusMsg(id, CRC_SUCCESS, j.name)), Got(j.ack)]
  }

  function JobTraces(env: Env, id: UserId, key: Key, jobs: seq<Job>, ivs: seq<Block>): seq<Event>
    requires |jobs| == |ivs|
  {
    if jobs == [] then [] else JobTrace(env, id, key, jobs[0], ivs[0]) + JobTraces(env, id, key, jobs[1..], ivs[1..])
  }

  /** The socket is open, nothing breaks, and identity and AES key are stored. */
  ghost predicate ReadyToBackUp(env: Env, w: World, id: UserId, key: Key) {
    && w.link.Connected? && (forall t :: env.writeFault(t).None?)
    && Credentials.UserIdIn(w.disk.meInfo) == Some(Hex.HexOf(id)) && StoredId(w.disk) == Some(id)
    && StoredKey(w.disk) == Some(key)
  }

  /** A run whose first answer confirms the file is that one round. */
  lemma FileDelivers(env: Env, w: World, a: Auth, id: UserId, key: Key, j: Job, rest: Bytes) returns (iv: Block)
    requires ReadyToBackUp(env, w, id, key) && GoodJob(env, id, j)
    requires w.incoming == Responses.Wire(j.answer) + (Responses.Wire(j.ack) + rest)
    ensures var (w', a', o) := BackupFrom(env, w, a, j.name, 0);
            && o.Delivered? && w'.disk == w.disk && w'.link == w.link && w'.incoming == rest
            && w'.log == w.log + JobTrace(env, id, key, j, iv)
  {
    hide Receive, Responses.Wire, CarriesStoredId, Repeats, IsAck, ConfirmedWithin, CompleteTrace, BackupFrom,
         Crc32.Checksum, StoredId, StoredKey, Undisturbed, RepliesOf, AllBackup, EndsConfirmed, IsRound, Confirms;
    var d, after := w.disk, Responses.Wire(j.ack) + rest;
    ReceiveOne(j.answer, after);
    ReceiveOne(j.ack, rest);
    JobAnswers(env, d, id, j);
    ConfirmedStep(d, j.data, w.incoming, CRC_TRIALS_COUNT);
    JobUndisturbed(env, w, id, key, j);
    ServerDecides(env, w, a, j.name, 0, j.data);
    var _ := BackupEvents(env, w, a, j.name, 0);
    var rounds, ack := CompletedShape(env, w, a, j.name, 0);
    iv := rounds[0].iv;
    OneRound(env, w, BackupFrom(env, w, a, j.name, 0).0, id, key, j, rest, rounds, ack);
  }

  lemma JobAnswers(env: Env, d: Disk, id: UserId, j: Job)
    requires GoodJob(env, id, j) && Credentials.UserIdIn(d.meInfo) == Some(Hex.HexOf(id))
    ensures Answers(d, Reply(j.answer)) && Repeats(j.data, j.answer) && IsAck(d, j.ack)
  {
    hide Repeats, Credentials.UserIdIn, Hex.HexOf;
  }

  lemma JobUndisturbed(env: Env, w: World, id: UserId, key: Key, j: Job)
    requires ReadyToBackUp(env, w, id, key) && GoodJob(env, id, j)
    ensures Undisturbed(env, w, j.name, j.data)
  {
    hide StoredId, StoredKey;
  }

  /** The first response is the answer to the job, so the first round confirms and is the last. */
  lemma OneRound(env: Env, w: World, w': World, id: UserId, key: Key, j: Job, rest: Bytes, rounds: seq<Round>,
                 ack: Responses.ResponseMsg)
    requires ReadyToBackUp(env, w, id, key) && GoodJob(env, id, j)
    requires w.incoming == Responses.Wire(j.answer) + (Responses.Wire(j.ack) + rest)
    requires CompletedRun(env, w, w', j.name, rounds, CRC_SUCCESS, ack)
    ensures w'.incoming == rest && w'.log == w.log + JobTrace(env, id, key, j, rounds[0].iv)
  {
    hide Receive, Responses.Wire, CarriesStoredId, IsAck, Crc32.Checksum, StoredId, StoredKey, RoundPackets, Encrypt,
         Requests.CrcStatusMsg;
    var after := Responses.Wire(j.ack) + rest;
    ReceiveOne(j.answer, after);
    ReceiveOne(j.ack, rest);
    ReceiveOneMore(w.incoming, |rounds|);
    ReceiveOneMore(after, |rounds| - 1);
    assert RepliesOf(rounds, ack)[0] == Reply(rounds[0].reply);
    assert IsRound(env, w.disk, j.name, rounds[0]);
    assert rounds[0].data == j.data && Confirms(rounds[0]);
    assert |rounds| == 1;
    assert RepliesOf(rounds, ack)[1] == Reply(ack);
    assert ReceiveMany(rest, 0) == ([], rest);
    RoundIsJob(env, id, key, j, rounds[0]);
  }

  lemma RoundIsJob(env: Env, id: UserId, key: Key, j: Job, r: Round)
    requires r.data == j.data && r.reply == j.answer
    ensures CompleteTrace(env, id, key, j.name, [r], CRC_SUCCESS, j.ack) == JobTrace(env, id, key, j, r.iv)
  {
    hide Encrypt, PacketMsgs, Requests.CrcStatusMsg;
  }

  /** A batch of such files is delivered completely, each in one upload, in the given order. */
  lemma {:induction false} BatchDelivers(env: Env, w: World, a: Auth, id: UserId, key: Key, jobs: seq<Job>, rest: Bytes)
    returns (ivs: seq<Block>)
    requires ReadyToBackUp(env, w, id, key) && GoodJobs(env, id, jobs)
    requires w.incoming == AnswerStream(jobs) + rest
    ensures |ivs| == |jobs|
    ensures var (w', a', completed) := BackupAll(env, w, a, NamesOf(jobs));
            && completed && w'.disk == w.disk && w'.link.Connected? && w'.incoming == rest
            && w'.log == w.log + JobTraces(env, id, key, jobs, ivs)
    decreases |jobs|
  {
    hide BackupFrom, StoredId, StoredKey, JobTrace, Responses.Wire, IsValidFilename, Repeats, Credentials.UserIdIn,
         Hex.HexOf;
    if jobs == [] {
      ivs := [];
      assert w.log + [] == w.log && AnswerStream(jobs) + rest == rest;
    } else {
      var j, more := jobs[0], jobs[1..];
      assert GoodJob(env, id, j);
      assert NamesOf(jobs)[1..] == NamesOf(more);
      assert w.incoming == Responses.Wire(j.answer) + (Responses.Wire(j.ack) + (AnswerStream(more) + rest));
      var w0 := w.(clock := w.clock + 1);
      var iv := FileDelivers(env, w0, a, id, key, j, AnswerStream(more) + rest);
      var (w1, a1, o) := BackupFrom(env, w0, a, j.name, 0);
      var tail := BatchDelivers(env, w1, a1, id, key, more, rest);
      ivs := [iv] + tail;
      assert ivs[1..] == tail;
      assert w.log + JobTrace(env, id, key, j, iv) + JobTraces(env, id, key, more, tail)
          == w.log + JobTraces(env, id, key, jobs, ivs);
    }
  }

  /** Every file of a batch can be restored from the bytes of its packets. */
  lemma JobIsRestored(env: Env, id: UserId, key: Key, j: Job, iv: Block)
    requires GoodJob(env, id, j) && env.cipher.Invertible()
    ensures Restore(env.cipher, key, Requests.StreamOf(JobPackets(env, id, key, j, iv))) == File(j.name, j.data)
  {
    EndToEnd(env.cipher, key, iv, id, j.name, j.data);
  }

  /** Ready to re-register: keyed identity on disk, nothing in the way. */
  ghost predicate ReadyToStart(env: Env, w: World, info: Info) {
    && env.Sound() && env.connection(w.clock).Connected?
    && (forall t: nat :: env.writeFault(t).None?) && (forall t: nat :: !env.diskFault(t))
    && info.Valid() && info.Keyed? && w.disk.meInfo == info.Render(env.wrapWidth)
  }

  ghost predicate IsGrant(env: Env, info: Info, grant: Responses.ResponseMsg, key: Key)
    requires info.Keyed?
  {
    && grant.WellFormed() && grant.code == RE_REGISTRATION_SUCCESS && grant.userId == info.id
    && env.rsaDecrypt(info.key, grant.aesKey) == Some(key)
  }

  /** Re-registration, the jobs in order, disconnect. */
  function SessionTrace(env: Env, info: Info, grant: Responses.ResponseMsg, key: Key, jobs: seq<Job>, ivs: seq<Block>)
    : seq<Event>
    requires info.Keyed? && |jobs| == |ivs|
  {
    [Sent(Requests.ReRegistrationMsg(info.id, info.username)), Got(grant), SavedAesKey(key)]
    + JobTraces(env, info.id, key, jobs, ivs) + [Sent(Requests.DISCONNECT_MSG)]
  }

  /**
   * A whole session of a known client: with nothing in its way and a server that grants the key and
   * answers every upload truthfully, exactly these events happen in this order, the socket is closed, and
   * what the server sent beyond its answers is left unread.
   */
  lemma SessionDelivers(env: Env, w: World, info: Info, grant: Responses.ResponseMsg, key: Key, jobs: seq<Job>,
                        rest: Bytes)
    returns (ivs: seq<Block>)
    requires ReadyToStart(env, w, info) && IsGrant(env, info, grant, key) && GoodJobs(env, info.id, jobs)
    requires w.incoming == Responses.Wire(grant) + (AnswerStream(jobs) + rest)
    ensures |ivs| == |jobs|
    ensures var (w', ok) := Flows.Session(env, w, Some(NamesOf(jobs)));
            && ok && w'.link.Shut? && w'.incoming == rest
            && w'.log == w.log + SessionTrace(env, info, grant, key, jobs, ivs)
  {
    hide Receive, Responses.Wire, Flows.Enter, BackupAll, StoredId, StoredKey, JobTraces, AnswerStream, SendTo,
         Requests.ReRegistrationMsg, Base64.EncodeLines, Credentials.UserIdIn, Credentials.IdentityLines, Hex.HexOf,
         GoodJobs;
    var w1 := w.(link := Connected);
    ReceiveOne(grant, AnswerStream(jobs) + rest);
    Flows.ReRegistrationIff(env, w1, info);
    var (w2, _) := Flows.Enter(env, w1);
    EnteredIsReady(env, w2, info, key);
    ivs := BatchDelivers(env, w2, NEW_AUTH, info.id, key, jobs, rest);
    var (w3, _, _) := BackupAll(env, w2, NEW_AUTH, NamesOf(jobs));
    Flows.CalmSend(env, w3, Requests.DISCONNECT_MSG);
    var head := [Sent(Requests.ReRegistrationMsg(info.id, info.username)), Got(grant), SavedAesKey(key)];
    var middle := JobTraces(env, info.id, key, jobs, ivs);
    assert w.log + head + middle + [Sent(Requests.DISCONNECT_MSG)]
        == w.log + (head + middle + [Sent(Requests.DISCONNECT_MSG)]);
  }

  lemma EnteredIsReady(env: Env, w: World, info: Info, key: Key)
    requires w.link.Connected? && env.Sound() && (forall t: nat :: env.writeFault(t).None?)
    requires info.Valid() && info.Keyed? && w.disk.meInfo == info.Render(env.wrapWidth)
    requires w.disk.aesKey == Some(Base64.EncodeLines(key, env.wrapWidth))
    ensures ReadyToBackUp(env, w, info.id, key)
  {
    LoadedInfo(env, w.disk, info);
    Credentials.AesKeySurvives(key, env.wrapWidth);
  }

  // ---------------------------------------------------------------------------
  // The session as its receiver sees it
  // ---------------------------------------------------------------------------

  function JobRequests(env: Env, id: UserId, key: Key, jobs: seq<Job>, ivs: seq<Block>): seq<Requests.RequestMsg>
    requires |jobs| == |ivs|
  {
    if jobs == [] then []
    else JobPackets(env, id, key, jobs[0], ivs[0]) + [Requests.CrcStatusMsg(id, CRC_SUCCESS, jobs[0].name)]
         + JobRequests(env, id, key, jobs[1..], ivs[1..])
  }

  lemma OutBytesOfQuiet(events: seq<Event>, e: Event)
    requires BytesOf(e) == []
    ensures OutBytes(events + [e]) == OutBytes(events)
  {
    OutBytesSnoc(events, e);
    assert OutBytes(events) + [] == OutBytes(events);
  }

  lemma JobBytes(env: Env, id: UserId, key: Key, j: Job, iv: Block)
    ensures OutBytes(JobTrace(env, id, key, j, iv))
         == Requests.StreamOf(JobPackets(env, id, key, j, iv) + [Requests.CrcStatusMsg(id, CRC_SUCCESS, j.name)])
  {
    hide JobPackets, OutBytes, Requests.StreamOf, Requests.CrcStatusMsg, Requests.Wire;
    var ms, status := JobPackets(env, id, key, j, iv), Requests.CrcStatusMsg(id, CRC_SUCCESS, j.name);
    var sent := SentAll(ms);
    OutBytesOfSent(ms);
    OutBytesOfQuiet(sent, Got(j.answer));
    OutBytesSnoc(sent + [Got(j.answer)], Sent(status));
    OutBytesOfQuiet(sent + [Got(j.answer)] + [Sent(status)], Got(j.ack));
    assert JobTrace(env, id, key, j, iv) == sent + [Got(j.answer)] + [Sent(status)] + [Got(j.ack)];
    Requests.StreamOfConcat(ms, [status]);
    Requests.StreamOfOne(status);
  }

  lemma {:induction false} JobsBytes(env: Env, id: UserId, key: Key, jobs: seq<Job>, ivs: seq<Block>)
    requires |jobs| == |ivs| && GoodJobs(env, id, jobs)
    ensures OutBytes(JobTraces(env, id, key, jobs, ivs)) == Requests.StreamOf(JobRequests(env, id, key, jobs, ivs))
    ensures AllHonest(JobRequests(env, id, key, jobs, ivs))
    decreases |jobs|
  {
    hide JobPackets, JobTrace, Requests.StreamOf, Requests.CrcStatusMsg, Requests.Wire;
    if jobs == [] {
      NoBytes();
    } else {
      var j, iv := jobs[0], ivs[0];
      var own := JobPackets(env, id, key, j, iv) + [Requests.CrcStatusMsg(id, CRC_SUCCESS, j.name)];
      JobsBytes(env, id, key, jobs[1..], ivs[1..]);
      JobBytes(env, id, key, j, iv);
      OutBytesConcat(JobTrace(env, id, key, j, iv), JobTraces(env, id, key, jobs[1..], ivs[1..]));
      Requests.StreamOfConcat(own, JobRequests(env, id, key, jobs[1..], ivs[1..]));
      assert GoodJob(env, id, j);
      JobIsHonest(env, id, key, j, iv);
    }
  }

  lemma NoBytes()
    ensures OutBytes([]) == Requests.StreamOf([])
  {
  }

  lemma JobIsHonest(env: Env, id: UserId, key: Key, j: Job, iv: Block)
    requires GoodJob(env, id, j)
    ensures AllHonest(JobPackets(env, id, key, j, iv) + [Requests.CrcStatusMsg(id, CRC_SUCCESS, j.name)])
  {
    hide PacketMsgs, Encrypt, Requests.CrcStatusMsg;
    EnvelopeOf(env, key, iv, j.data);
    PacketsOfOneFile(id, j.name, |j.data|, Encrypt(env.cipher, key, iv, j.data));
  }

  /**
   * A receiver that goes by the declared sizes alone gets the re-registration, then for every file its
   * packets and the success status, and all but the last eight bytes of the disconnect request.
   */
  lemma SessionOnTheWire(env: Env, info: Info, grant: Responses.ResponseMsg, key: Key, jobs: seq<Job>, ivs: seq<Block>)
    requires info.Keyed? && |jobs| == |ivs| && GoodJobs(env, info.id, jobs)
    ensures Requests.SplitFrames(OutBytes(SessionTrace(env, info, grant, key, jobs, ivs)))
         == (Requests.Wires([Requests.ReRegistrationMsg(info.id, info.username)]
                            + JobRequests(env, info.id, key, jobs, ivs))
             + [Requests.Wire(Requests.DISCONNECT_MSG)[..506]], Zeros(8))
  {
    hide JobTraces, JobRequests, OutBytes, Requests.StreamOf, Requests.Wire, Requests.SplitFrames, Requests.Wires,
         Requests.ReRegistrationMsg, GoodJobs;
    var hello := Requests.ReRegistrationMsg(info.id, info.username);
    HelloBytes(hello, grant, key);
    FilesOnTheWire(env, info.id, key, [Sent(hello), Got(grant), SavedAesKey(key)], [hello], jobs, ivs);
  }

  /** Whatever honest requests came before them, the files are split off in the same way. */
  lemma FilesOnTheWire(env: Env, id: UserId, key: Key, head: seq<Event>, hellos: seq<Requests.RequestMsg>,
                       jobs: seq<Job>, ivs: seq<Block>)
    requires |jobs| == |ivs| && GoodJobs(env, id, jobs)
    requires OutBytes(head) == Requests.StreamOf(hellos) && AllHonest(hellos)
    ensures Requests.SplitFrames(OutBytes(head + JobTraces(env, id, key, jobs, ivs) + [Sent(Requests.DISCONNECT_MSG)]))
         == (Requests.Wires(hellos + JobRequests(env, id, key, jobs, ivs))
             + [Requests.Wire(Requests.DISCONNECT_MSG)[..506]], Zeros(8))
  {
    hide JobTraces, JobRequests, OutBytes, Requests.StreamOf, Requests.Wire, Requests.SplitFrames, Requests.Wires;
    var middle, ms := JobTraces(env, id, key, jobs, ivs), JobRequests(env, id, key, jobs, ivs);
    JobsBytes(env, id, key, jobs, ivs);
    OutBytesConcat(head, middle);
    OutBytesSnoc(head + middle, Sent(Requests.DISCONNECT_MSG));
    Requests.StreamOfConcat(hellos, ms);
    Requests.StreamOfOne(Requests.DISCONNECT_MSG);
    Requests.StreamOfConcat(hellos + ms, [Requests.DISCONNECT_MSG]);
    Requests.DisconnectFallsShort(hellos + ms);
  }

  lemma HelloBytes(hello: Requests.RequestMsg, grant: Responses.ResponseMsg, key: Key)
    ensures OutBytes([Sent(hello), Got(grant), SavedAesKey(key)]) == Requests.StreamOf([hello])
  {
    hide Requests.StreamOf, Requests.Wire, OutBytes;
    OutBytesOfSent([hello]);
    assert SentAll([hello]) == [Sent(hello)];
    OutBytesOfQuiet([Sent(hello)], Got(grant));
    OutBytesOfQuiet([Sent(hello)] + [Got(grant)], SavedAesKey(key));
    assert [Sent(hello), Got(grant), SavedAesKey(key)] == [Sent(hello)] + [Got(grant)] + [SavedAesKey(key)];
  }

  // ---------------------------------------------------------------------------
  // The server's view of a whole session
  // ---------------------------------------------------------------------------

  /** The requests that frames hold, up to the first frame that cannot be read. */
  function ReadableRequests(frames: seq<Bytes>): seq<Requests.RequestMsg> {
    if frames == [] || Requests.ParseFrame(frames[0]).None? then []
    else [Requests.ParseFrame(frames[0]).value] + ReadableRequests(frames[1..])
  }

  /**
   * Groups the packets by the count they announce, keeps a group that a success status for its file follows,
   * and passes over everything else.
   */
  function ConfirmedFiles(c: BlockCipher, key: Key, ms: seq<Requests.RequestMsg>): seq<Restored>
    decreases |ms|
  {
    if ms == [] then []
    else
      var n := ms[0].totalPackets;
      if ms[0].code != CREATE_BACKUP || n == 0 || |ms| <= n then ConfirmedFiles(c, key, ms[1..])
      else if ms[n].code == CRC_SUCCESS && ms[n].fileName == ms[0].fileName then
        [RestoreFrom(c, key, ms[..n])] + ConfirmedFiles(c, key, ms[n + 1..])
      else ConfirmedFiles(c, key, ms[n..])
  }

  /** From the raw bytes of a session to the files in it, by the wire format and the key alone. */
  function ServerView(c: BlockCipher, key: Key, stream: Bytes): seq<Restored> {
    ConfirmedFiles(c, key, ReadableRequests(Requests.SplitFrames(stream).0))
  }

  function FilesOf(jobs: seq<Job>): (files: seq<Restored>)
    ensures |files| == |jobs| && forall i :: 0 <= i < |jobs| ==> files[i] == File(jobs[i].name, jobs[i].data)
  {
    seq(|jobs|, i requires 0 <= i < |jobs| => File(jobs[i].name, jobs[i].data))
  }

  lemma {:induction false} ReadableWires(ms: seq<Requests.RequestMsg>, broken: Bytes)
    requires AllHonest(ms) && Requests.ParseFrame(broken).None?
    ensures ReadableRequests(Requests.Wires(ms) + [broken]) == ms
    decreases |ms|
  {
    hide Requests.ParseFrame, Requests.Wire;
    var frames := Requests.Wires(ms) + [broken];
    if ms == [] {
      assert frames == [broken];
    } else {
      Requests.ParseOfWire(ms[0]);
      ReadableWires(ms[1..], broken);
      assert frames[1..] == Requests.Wires(ms[1..]) + [broken];
      assert ms == [ms[0]] + ms[1..];
    }
  }

  /** The packets of a job and its status are one confirmed file. */
  lemma JobIsConfirmed(env: Env, id: UserId, key: Key, j: Job, iv: Block, rest: seq<Requests.RequestMsg>)
    requires GoodJob(env, id, j) && env.cipher.Invertible()
    ensures ConfirmedFiles(env.cipher, key, JobPackets(env, id, key, j, iv)
                                            + [Requests.CrcStatusMsg(id, CRC_SUCCESS, j.name)] + rest)
         == [File(j.name, j.data)] + ConfirmedFiles(env.cipher, key, rest)
  {
    hide PacketMsg, PacketMsgs, Encrypt, RestoreFrom, Restore, Requests.CrcStatusMsg, OneFile, TextField;
    var ms, status := JobPackets(env, id, key, j, iv), Requests.CrcStatusMsg(id, CRC_SUCCESS, j.name);
    EndToEnd(env.cipher, key, iv, id, j.name, j.data);
    PacketsAnnounce(env, id, key, j, iv);
    StatusNames(id, j.name);
    var all, n := ms + [status] + rest, |ms|;
    assert all[..n] == ms && all[n] == status && all[n + 1..] == rest && all[0] == ms[0];
  }

  lemma PacketsAnnounce(env: Env, id: UserId, key: Key, j: Job, iv: Block)
    requires GoodJob(env, id, j)
    ensures var ms := JobPackets(env, id, key, j, iv);
            |ms| > 0 && ms[0].totalPackets == |ms| && ms[0].code == CREATE_BACKUP
            && ms[0].fileName == TextField(j.name, 255)
  {
    hide Encrypt, PacketCount, ChunkSize, EnvelopeSize, TextField;
    EnvelopeOf(env, key, iv, j.data);
    PacketsOfOneFile(id, j.name, |j.data|, Encrypt(env.cipher, key, iv, j.data));
  }

  lemma StatusNames(id: UserId, name: Bytes)
    ensures var status := Requests.CrcStatusMsg(id, CRC_SUCCESS, name);
            status.code == CRC_SUCCESS && status.fileName == TextField(name, 255)
  {
  }

  lemma {:induction false} JobsAreConfirmed(env: Env, id: UserId, key: Key, jobs: seq<Job>, ivs: seq<Block>)
    requires |jobs| == |ivs| && GoodJobs(env, id, jobs) && env.cipher.Invertible()
    ensures ConfirmedFiles(env.cipher, key, JobRequests(env, id, key, jobs, ivs)) == FilesOf(jobs)
    decreases |jobs|
  {
    hide JobPackets, Requests.CrcStatusMsg, ConfirmedFiles, GoodJob;
    if jobs == [] {
      NothingConfirmed(env.cipher, key);
    } else {
      JobsAreConfirmed(env, id, key, jobs[1..], ivs[1..]);
      JobIsConfirmed(env, id, key, jobs[0], ivs[0], JobRequests(env, id, key, jobs[1..], ivs[1..]));
      assert FilesOf(jobs) == [File(jobs[0].name, jobs[0].data)] + FilesOf(jobs[1..]);
    }
  }

  lemma NothingConfirmed(c: BlockCipher, key: Key)
    ensures ConfirmedFiles(c, key, []) == []
  {
  }

  /** Requests before the files are passed over. */
  lemma {:induction false} HellosArePassedOver(c: BlockCipher, key: Key, hellos: seq<Requests.RequestMsg>,
                                               ms: seq<Requests.RequestMsg>)
    requires forall i :: 0 <= i < |hellos| ==> hellos[i].code != CREATE_BACKUP
    ensures ConfirmedFiles(c, key, hellos + ms) == ConfirmedFiles(c, key, ms)
    decreases |hellos|
  {
    hide RestoreFrom;
    if hellos == [] {
      assert hellos + ms == ms;
    } else {
      HellosArePassedOver(c, key, hellos[1..], ms);
      assert (hellos + ms)[1..] == hellos[1..] + ms;
    }
  }

  /**
   * From the raw bytes of the whole session a receiver that knows the key gets exactly the files of the jobs,
   * with their names, in order.
   */
  lemma SessionIsRestored(env: Env, info: Info, grant: Responses.ResponseMsg, key: Key, jobs: seq<Job>, ivs: seq<Block>)
    requires info.Keyed? && |jobs| == |ivs| && GoodJobs(env, info.id, jobs) && env.cipher.Invertible()
    ensures ServerView(env.cipher, key, OutBytes(SessionTrace(env, info, grant, key, jobs, ivs))) == FilesOf(jobs)
  {
    hide JobTraces, OutBytes, Requests.StreamOf, ServerView, GoodJobs, Requests.Wire;
    var hello := Requests.ReRegistrationMsg(info.id, info.username);
    HelloBytes(hello, grant, key);
    FilesAreRestored(env, info.id, key, [Sent(hello), Got(grant), SavedAesKey(key)], [hello], jobs, ivs);
  }

  /** So it does whatever other requests came before the files. */
  lemma FilesAreRestored(env: Env, id: UserId, key: Key, head: seq<Event>, hellos: seq<Requests.RequestMsg>,
                         jobs: seq<Job>, ivs: seq<Block>)
    requires |jobs| == |ivs| && GoodJobs(env, id, jobs) && env.cipher.Invertible()
    requires OutBytes(head) == Requests.StreamOf(hellos) && AllHonest(hellos)
    requires forall i :: 0 <= i < |hellos| ==> hellos[i].code != CREATE_BACKUP
    ensures ServerView(env.cipher, key, OutBytes(head + JobTraces(env, id, key, jobs, ivs)
                                                 + [Sent(Requests.DISCONNECT_MSG)])) == FilesOf(jobs)
  {
    hide JobTraces, OutBytes, JobRequests, Requests.SplitFrames, Requests.Wire, Requests.Wires, ConfirmedFiles,
         ReadableRequests, Requests.ParseFrame, GoodJobs, Requests.StreamOf;
    var ms := JobRequests(env, id, key, jobs, ivs);
    Requests.WireLength(Requests.DISCONNECT_MSG);
    var broken := Requests.Wire(Requests.DISCONNECT_MSG)[..506];
    FilesOnTheWire(env, id, key, head, hellos, jobs, ivs);
    JobsBytes(env, id, key, jobs, ivs);
    ShortFrameUnread(broken);
    ReadableWires(hellos + ms, broken);
    HellosArePassedOver(env.cipher, key, hellos, ms);
    JobsAreConfirmed(env, id, key, jobs, ivs);
  }

  lemma ShortFrameUnread(frame: Bytes)
    requires |frame| < 514
    ensures Requests.ParseFrame(frame).None?
  {
  }

  // ---------------------------------------------------------------------------
  // The first session of a new client
  // ---------------------------------------------------------------------------

  /** Nothing stored, nothing in the way, and the words to come hold valid names: some taken, then a free one. */
  ghost predicate ReadyToRegister(env: Env, w: World, taken: seq<Bytes>, username: Bytes, more: seq<Bytes>) {
    && env.Sound() && env.connection(w.clock).Connected?
    && (forall t: nat :: env.writeFault(t).None?) && (forall t: nat :: !env.diskFault(t))
    && w.disk.meInfo.None? && w.inputs == taken + ([username] + more)
    && IsValidUsername(username) && (forall i :: 0 <= i < |taken| ==> IsValidUsername(taken[i]))
  }

  /** The server's responses to a registration: names taken, then the ID, then the AES key. */
  ghost predicate Registers(env: Env, w: World, rs: seq<Responses.ResponseMsg>, grant: Responses.ResponseMsg,
                            last: Responses.ResponseMsg, key: Key) {
    && (forall i :: 0 <= i < |rs| ==> rs[i].WellFormed() && rs[i].code == USERNAME_TAKEN)
    && grant.WellFormed() && grant.code == REGISTRATION_SUCCESS
    && last.WellFormed() && last.code == KEY_SEND_SUCCESS && last.userId == grant.userId
    && env.rsaDecrypt(env.newPrivateKey(w.clock + |rs| + 2), last.aesKey) == Some(key)
  }

  /** Registrations, key exchange, the jobs in order, disconnect. */
  function FirstTrace(env: Env, taken: seq<Bytes>, rs: seq<Responses.ResponseMsg>, username: Bytes,
                      grant: Responses.ResponseMsg, privateKey: Bytes, last: Responses.ResponseMsg, key: Key,
                      jobs: seq<Job>, ivs: seq<Block>): seq<Event>
    requires |taken| == |rs| && |jobs| == |ivs|
  {
    Flows.TakenNames(taken, rs) + Flows.GrantedName(env, username, grant, privateKey, last, key)
    + JobTraces(env, grant.userId, key, jobs, ivs) + [Sent(Requests.DISCONNECT_MSG)]
  }

  /**
   * A new client's whole first session: it gets the first name that is not taken, stores its identity and
   * both keys, and delivers every file, exactly these events in this order.
   */
  lemma FirstSessionDelivers(env: Env, w: World, taken: seq<Bytes>, username: Bytes, more: seq<Bytes>,
                             rs: seq<Responses.ResponseMsg>, grant: Responses.ResponseMsg, last: Responses.ResponseMsg,
                             key: Key, jobs: seq<Job>, rest: Bytes)
    returns (ivs: seq<Block>)
    requires ReadyToRegister(env, w, taken, username, more) && |rs| == |taken|
    requires Registers(env, w, rs, grant, last, key) && GoodJobs(env, grant.userId, jobs)
    requires w.incoming == ReplyStream(rs)
                           + (Responses.Wire(grant) + (Responses.Wire(last) + (AnswerStream(jobs) + rest)))
    ensures |ivs| == |jobs|
    ensures var (w', ok) := Flows.Session(env, w, Some(NamesOf(jobs)));
            var privateKey := env.newPrivateKey(w.clock + |rs| + 2);
            && ok && w'.link.Shut? && w'.incoming == rest
            && w'.disk == Flows.RegisteredDisk(env, username, grant.userId, privateKey, key)
            && w'.log == w.log + FirstTrace(env, taken, rs, username, grant, privateKey, last, key, jobs, ivs)
  {
    hide Receive, Responses.Wire, Flows.Register, BackupAll, StoredId, StoredKey, JobTraces, AnswerStream, SendTo,
         Base64.EncodeLines, Credentials.UserIdIn, Credentials.IdentityLines, Hex.HexOf, GoodJobs, ReplyStream,
         Flows.TakenNames, Flows.GrantedName, IsValidUsername, ReceiveMany, Flows.BringsKey, Flows.RegisteredDisk;
    var privateKey := env.newPrivateKey(w.clock + |rs| + 2);
    var w1 := w.(link := Connected);
    RegistrationReplies(rs, grant, last, AnswerStream(jobs) + rest);
    KeyIsBrought(env, last, grant.userId, privateKey, key);
    Flows.RegistrationSucceeds(env, w1, taken, username, more, rs,
                               Responses.Wire(grant) + (Responses.Wire(last) + (AnswerStream(jobs) + rest)));
    var w2 := Flows.Register(env, w1).0;
    RegisteredIsReady(env, w2, username, grant.userId, privateKey, key);
    ivs := BatchDelivers(env, w2, NEW_AUTH, grant.userId, key, jobs, rest);
    var w3 := BackupAll(env, w2, NEW_AUTH, NamesOf(jobs)).0;
    Flows.CalmSend(env, w3, Requests.DISCONNECT_MSG);
    JoinLog(w.log, Flows.TakenNames(taken, rs) + Flows.GrantedName(env, username, grant, privateKey, last, key),
            JobTraces(env, grant.userId, key, jobs, ivs), [Sent(Requests.DISCONNECT_MSG)]);
  }

  lemma JoinLog(log: seq<Event>, a: seq<Event>, b: seq<Event>, c: seq<Event>)
    ensures log + a + b + c == log + (a + b + c)
  {
  }

  lemma KeyIsBrought(env: Env, last: Responses.ResponseMsg, id: UserId, privateKey: Bytes, key: Key)
    requires last.code == KEY_SEND_SUCCESS && last.userId == id && env.rsaDecrypt(privateKey, last.aesKey) == Some(key)
    ensures Flows.BringsKey(env, Reply(last), KEY_SEND_SUCCESS, id, privateKey)
  {
  }

  /** The responses to a registration, one after the other. */
  lemma RegistrationReplies(rs: seq<Responses.ResponseMsg>, grant: Responses.ResponseMsg, last: Responses.ResponseMsg,
                            after: Bytes)
    requires (forall i :: 0 <= i < |rs| ==> rs[i].WellFormed()) && grant.WellFormed() && last.WellFormed()
    ensures var granted := Responses.Wire(grant) + (Responses.Wire(last) + after);
            && ReceiveMany(ReplyStream(rs) + granted, |rs|) == (Replies(rs), granted)
            && Receive(granted) == (Reply(grant), Responses.Wire(last) + after)
            && Receive(Responses.Wire(last) + after) == (Reply(last), after)
  {
    hide Receive, ReceiveMany, Responses.Wire, ReplyStream;
    ReceiveAll(rs, Responses.Wire(grant) + (Responses.Wire(last) + after));
    ReceiveOne(grant, Responses.Wire(last) + after);
    ReceiveOne(last, after);
  }

  lemma RegisteredIsReady(env: Env, w: World, username: Bytes, id: UserId, privateKey: Bytes, key: Key)
    requires w.link.Connected? && env.Sound() && (forall t: nat :: env.writeFault(t).None?)
    requires IsValidUsername(username) && privateKey != []
    requires w.disk == Flows.RegisteredDisk(env, username, id, privateKey, key)
    ensures ReadyToBackUp(env, w, id, key)
  {
    hide Base64.EncodeLines, Credentials.IdentityLines;
    EnteredIsReady(env, w, Keyed(username, id, privateKey), key);
  }

  function Registrations(names: seq<Bytes>): (ms: seq<Requests.RequestMsg>)
    ensures |ms| == |names| && forall i :: 0 <= i < |names| ==> ms[i] == Requests.RegistrationMsg(names[i])
  {
    seq(|names|, i requires 0 <= i < |names| => Requests.RegistrationMsg(names[i]))
  }

  /** The requests of a registration and its key exchange. */
  function Hellos(env: Env, taken: seq<Bytes>, username: Bytes, id: UserId, privateKey: Bytes)
    : (ms: seq<Requests.RequestMsg>)
  {
    Registrations(taken)
    + [Requests.RegistrationMsg(username), Requests.PublicKeyMsg(id, username, env.publicOf(privateKey))]
  }

  lemma {:induction false} TakenBytes(names: seq<Bytes>, rs: seq<Responses.ResponseMsg>)
    requires |names| == |rs|
    ensures OutBytes(Flows.TakenNames(names, rs)) == Requests.StreamOf(Registrations(names))
    decreases |names|
  {
    hide OutBytes, Requests.StreamOf, Requests.Wire, Requests.RegistrationMsg;
    if names == [] {
      NoBytes();
      assert Registrations(names) == [];
    } else {
      var m := Requests.RegistrationMsg(names[0]);
      TakenBytes(names[1..], rs[1..]);
      OutBytesOfSent([m]);
      assert SentAll([m]) == [Sent(m)];
      OutBytesOfQuiet([Sent(m)], Got(rs[0]));
      assert [Sent(m)] + [Got(rs[0])] == [Sent(m), Got(rs[0])];
      OutBytesConcat([Sent(m), Got(rs[0])], Flows.TakenNames(names[1..], rs[1..]));
      Requests.StreamOfConcat([m], Registrations(names[1..]));
      assert Registrations(names) == [m] + Registrations(names[1..]);
    }
  }

  lemma GrantedBytes(env: Env, username: Bytes, grant: Responses.ResponseMsg, privateKey: Bytes,
                     last: Responses.ResponseMsg, key: Bytes)
    ensures OutBytes(Flows.GrantedName(env, username, grant, privateKey, last, key))
         == Requests.StreamOf([Requests.RegistrationMsg(username),
                               Requests.PublicKeyMsg(grant.userId, username, env.publicOf(privateKey))])
  {
    hide OutBytes, Requests.StreamOf, Requests.Wire, Requests.RegistrationMsg, Requests.PublicKeyMsg;
    var m, m' := Requests.RegistrationMsg(username),
                 Requests.PublicKeyMsg(grant.userId, username, env.publicOf(privateKey));
    OutBytesOfSent([m]);
    assert SentAll([m]) == [Sent(m)];
    var t1 := [Sent(m)] + [Got(grant)];
    var t2 := t1 + [SavedInfo(username, grant.userId)];
    var t3 := t2 + [AppendedKey(privateKey)];
    var t4 := t3 + [SavedPrivateKey(privateKey)];
    var t5 := t4 + [Sent(m')] + [Got(last)];
    OutBytesOfQuiet([Sent(m)], Got(grant));
    OutBytesOfQuiet(t1, SavedInfo(username, grant.userId));
    OutBytesOfQuiet(t2, AppendedKey(privateKey));
    OutBytesOfQuiet(t3, SavedPrivateKey(privateKey));
    OutBytesSnoc(t4, Sent(m'));
    OutBytesOfQuiet(t4 + [Sent(m')], Got(last));
    OutBytesOfQuiet(t5, SavedAesKey(key));
    Requests.StreamOfConcat([m], [m']);
    Requests.StreamOfOne(m');
    assert [m] + [m'] == [m, m'];
    assert Flows.GrantedName(env, username, grant, privateKey, last, key) == t5 + [SavedAesKey(key)];
  }

  /** What the first session puts on the wire before its files. */
  lemma HellosBytes(env: Env, taken: seq<Bytes>, rs: seq<Responses.ResponseMsg>, username: Bytes,
                    grant: Responses.ResponseMsg, privateKey: Bytes, last: Responses.ResponseMsg, key: Key)
    requires |taken| == |rs|
    ensures var hellos := Hellos(env, taken, username, grant.userId, privateKey);
            && OutBytes(Flows.TakenNames(taken, rs) + Flows.GrantedName(env, username, grant, privateKey, last, key))
               == Requests.StreamOf(hellos)
            && AllHonest(hellos) && forall i :: 0 <= i < |hellos| ==> hellos[i].code != CREATE_BACKUP
  {
    hide OutBytes, Requests.StreamOf, Flows.TakenNames, Flows.GrantedName, TextField;
    TakenBytes(taken, rs);
    GrantedBytes(env, username, grant, privateKey, last, key);
    OutBytesConcat(Flows.TakenNames(taken, rs), Flows.GrantedName(env, username, grant, privateKey, last, key));
    Requests.StreamOfConcat(Registrations(taken),
                            [Requests.RegistrationMsg(username),
                             Requests.PublicKeyMsg(grant.userId, username, env.publicOf(privateKey))]);
  }

  /** The first session as its receiver sees it: the requests by the declared sizes, and all the files. */
  lemma FirstSessionOnTheWire(env: Env, taken: seq<Bytes>, rs: seq<Responses.ResponseMsg>, username: Bytes,
                              grant: Responses.ResponseMsg, privateKey: Bytes, last: Responses.ResponseMsg, key: Key,
                              jobs: seq<Job>, ivs: seq<Block>)
    requires |taken| == |rs| && |jobs| == |ivs| && GoodJobs(env, grant.userId, jobs) && env.cipher.Invertible()
    ensures var bytes := OutBytes(FirstTrace(env, taken, rs, username, grant, privateKey, last, key, jobs, ivs));
            && Requests.SplitFrames(bytes)
               == (Requests.Wires(Hellos(env, taken, username, grant.userId, privateKey)
                                  + JobRequests(env, grant.userId, key, jobs, ivs))
                   + [Requests.Wire(Requests.DISCONNECT_MSG)[..506]], Zeros(8))
            && ServerView(env.cipher, key, bytes) == FilesOf(jobs)
  {
    hide JobTraces, JobRequests, OutBytes, Requests.StreamOf, ServerView, GoodJobs, Flows.TakenNames,
         Flows.GrantedName, Hellos, Requests.Wires, Requests.SplitFrames;
    var head := Flows.TakenNames(taken, rs) + Flows.GrantedName(env, username, grant, privateKey, last, key);
    var hellos := Hellos(env, taken, username, grant.userId, privateKey);
    HellosBytes(env, taken, rs, username, grant, privateKey, last, key);
    FilesOnTheWire(env, grant.userId, key, head, hellos, jobs, ivs);
    FilesAreRestored(env, grant.userId, key, head, hellos, jobs, ivs);
  }
}
