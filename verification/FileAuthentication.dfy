/** The authentication object that uploads files, compares checksums and retries. */
module FileAuthentications {
  import opened Binary
  import opened Protocol
  import opened Aes
  import opened Hosts
  import opened Uploads
  import opened Backups
  import Credentials
  import Crc32
  import Hex
  import Progress
  import Requests

  class FileAuthentication {
    const host: Host
    const comm: CommunicationManager
    var encryptedFileSize: Word32
    var crcError: bool
    /** The comparisons made so far, true for a mismatch. */
    ghost var compared: seq<bool>

    ghost predicate Valid()
      reads this, host
    {
      comm.host == host && host.Valid() && State().Consistent()
    }

    ghost function State(): Auth
      reads this
    {
      Auth(encryptedFileSize, crcError, compared)
    }

    constructor (host: Host)
      requires host.Valid()
      ensures Valid() && this.host == host && State() == NEW_AUTH
    {
      this.host := host;
      comm := new CommunicationManager(host);
      encryptedFileSize, crcError, compared := 0, false, [];
    }

    /** Reads the file and encrypts it under the stored AES key. */
    method EncryptFile(name: Bytes) returns (p: Prepared, cipher: Bytes)
      requires Valid()
      modifies host
      ensures Valid() && State() == old(State()) && host.disk == old(host.disk)
      ensures (host.State(), p) == Prepare(host.env, old(host.State()), name) && host.log == old(host.log)
      ensures p.Ready? ==> cipher == Encrypt(host.env.cipher, p.key, p.iv, p.data)
    {
      cipher := [];
      var file := host.Look(name);
      if !file.Content? {
        return Refused(Fatal), cipher;
      }
      if |file.data| > MAX_FILE_SIZE {
        return Refused(ClientError), cipher;
      }
      var key := Credentials.LoadAesKey(host.disk.aesKey);
      if key.None? {
        return Refused(Fatal), cipher;
      }
      var aes := AesWrapper.Make(host.env.cipher, key.value);
      if aes == null {
        return Refused(Fatal), cipher;
      }
      var iv := host.DrawIv();
      cipher := aes.EncryptMessage(iv, file.data);
      p := Ready(file.data, key.value, iv);
    }

    /** Uploads the file in packets, overwriting one request; `printed` are the reported percentages. */
    method SendEncryptedFileRequest(name: Bytes) returns (u: Uploaded, printed: seq<nat>)
      requires Valid()
      modifies this, host
      ensures Valid()
      ensures (host.State(), State(), u) == Upload(host.env, old(host.State()), old(State()), name)
      ensures 0 <= |host.log| - |old(host.log)|
      ensures var prepared := Prepare(host.env, old(host.State()), name).1;
              if prepared.Refused? then printed == []
              else
                var sent, total := |host.log| - |old(host.log)|, PacketsOf(|prepared.data|);
                && sent <= total && (u.Uploaded? ==> sent == total)
                && (old(crcError) ==> printed == [])
                && (!old(crcError) ==> printed == Progress.ReportsAfter(sent, total))
    {
      hide Prepare, SendAll, Hex.Unhex, Credentials.UserIdIn, Encrypt, Progress.Reports, PacketCount, ChunkSize,
           EnvelopeSize, OutBytes, Progress.ReportsAfter;
      printed := [];
      var prepared, cipher := EncryptFile(name);
      if prepared.Refused? {
        return NotUploaded(prepared.o), printed;
      }
      Progress.ReportsStart(PacketsOf(|prepared.data|));
      var userId := Credentials.LoadUserId(host.disk.meInfo);
      if userId.None? {
        return NotUploaded(Fatal), printed;
      }
      var request := new Requests.Request();
      var ok := request.SetUserId(userId.value);
      if !ok {
        return NotUploaded(Fatal), printed;
      }
      EnvelopeLength(host.env.cipher, prepared.key, prepared.iv, prepared.data);
      ok, printed := SendPackets(request, name, |prepared.data|, cipher);
      if !ok {
        return NotUploaded(Fatal), printed;
      }
      encryptedFileSize := request.chunkSize;
      u := Uploaded(prepared.data);
    }

    /** The packet loop: one request is overwritten and sent for every chunk of the ciphertext. */
    method SendPackets(request: Requests.Request, name: Bytes, fileSize: nat, cipher: Bytes)
      returns (ok: bool, printed: seq<nat>)
      requires Valid() && request.Valid() && this !in request.Repr && host !in request.Repr
      requires cipher != [] && request.Message() == Requests.BLANK.(userId := request.Message().userId)
      modifies request.Repr, host
      ensures Valid() && State() == old(State()) && request.Valid()
      ensures var ms := PacketMsgs(old(request.Message()).userId, name, fileSize, cipher);
              && (host.State(), ok) == SendAll(host.env, old(host.State()), ms)
              && (ok ==> request.Message().chunkSize == if ms == [] then 0 else ms[|ms| - 1].chunkSize)
      ensures PacketCount(|cipher|, ChunkSize(fileSize)) > 0
      ensures 0 <= |host.log| - |old(host.log)| <= PacketCount(|cipher|, ChunkSize(fileSize))
      ensures crcError ==> printed == []
      ensures !crcError ==>
                printed
                == Progress.ReportsAfter(|host.log| - |old(host.log)|, PacketCount(|cipher|, ChunkSize(fileSize)))
      ensures ok ==> |host.log| - |old(host.log)| == PacketCount(|cipher|, ChunkSize(fileSize))
    {
      hide SendTo, SendAll, PacketMsg, PacketCount, TextField, ToWord16, ToWord32, Progress.ReportsAfter, PacketBase,
           CommonPart, Requests.Request.Message, PacketMsgs, Progress.Remembered, OutBytes;
      var chunkSize := ChunkSize(fileSize);
      var totalPackets := PacketCount(|cipher|, chunkSize);
      PacketCountBounds(|cipher|, chunkSize);
      ghost var id := request.Message().userId;
      ghost var ms := PacketMsgs(id, name, fileSize, cipher);
      Prefill(request, name, fileSize, totalPackets);
      printed := [];
      var printedPercent := 0;
      var packet := 1;
      assert ms[..0] == [];
      SendNone(host.env, host.State());
      Progress.ReportsStart(totalPackets);
      while packet <= totalPackets
        invariant 1 <= packet <= totalPackets + 1
        invariant Valid() && State() == old(State()) && request.Valid()
        invariant CommonPart(request.Message()) == PacketBase(id, name, fileSize, totalPackets)
        invariant SendAll(host.env, old(host.State()), ms[..packet - 1]) == (host.State(), true)
        invariant |host.log| == |old(host.log)| + packet - 1
        invariant packet > 1 ==> request.Message().chunkSize == ms[packet - 2].chunkSize
        invariant printed == if crcError then [] else Progress.ReportsAfter(packet - 1, totalPackets)
        invariant !crcError ==> printedPercent == Progress.Remembered(packet - 1, totalPackets)
      {
        SetPacket(request, name, fileSize, cipher, packet, id);
        assert request.Message() == ms[packet - 1];
        if !crcError {
          printed, printedPercent := Report(packet, totalPackets, printed, printedPercent);
        }
        ok := SendPacket(request, old(host.State()), ms, packet - 1);
        if !ok {
          return;
        }
        packet := packet + 1;
      }
      assert ms[..totalPackets] == ms;
      ok := true;
    }

    /** One request of a run of sends that started in world `w`. */
    method SendPacket(request: Requests.Request, ghost w: World, ghost ms: seq<Requests.RequestMsg>, ghost k: nat)
      returns (ok: bool)
      requires Valid() && request.Valid() && this !in request.Repr && host !in request.Repr
      requires k < |ms| && request.Message() == ms[k] && SendAll(host.env, w, ms[..k]) == (host.State(), true)
      modifies host
      ensures Valid() && State() == old(State()) && request.Message() == old(request.Message())
      ensures |host.log| == |old(host.log)| + 1
      ensures ok ==> SendAll(host.env, w, ms[..k + 1]) == (host.State(), true)
      ensures !ok ==> SendAll(host.env, w, ms) == (host.State(), false)
    {
      hide SendTo, SendAll, OutBytes, Requests.Request.Message;
      SendNext(host.env, w, ms, k);
      OneMoreEvent(host.env, host.State(), request.Message());
      ok := comm.SendRequest(request);
    }

    /** Sets what all packets of an upload have in common. */
    static method Prefill(request: Requests.Request, name: Bytes, fileSize: nat, totalPackets: nat)
      requires request.Valid() && request.Message() == Requests.BLANK.(userId := request.Message().userId)
      modifies request, request.fileName
      ensures request.Valid()
      ensures CommonPart(request.Message()) == PacketBase(old(request.Message()).userId, name, fileSize, totalPackets)
    {
      request.code := CREATE_BACKUP;
      request.fileSize := ToWord32(fileSize);
      request.SetFileName(name);
      request.totalPackets := ToWord16(totalPackets);
    }

    /** Overwrites the packet number and the chunk, leaving the common part as it is. */
    static method SetPacket(request: Requests.Request, name: Bytes, fileSize: nat, cipher: Bytes, packet: nat,
                            ghost id: UserId)
      requires request.Valid() && cipher != [] && 1 <= packet <= PacketCount(|cipher|, ChunkSize(fileSize))
      requires CommonPart(request.Message())
            == PacketBase(id, name, fileSize, PacketCount(|cipher|, ChunkSize(fileSize)))
      modifies request
      ensures request.Valid() && request.Message() == PacketMsg(id, name, fileSize, cipher, packet)
      ensures CommonPart(request.Message()) == old(CommonPart(request.Message()))
    {
      hide PacketCount, TextField, ToWord16, ToWord32;
      var chunkSize := ChunkSize(fileSize);
      ChunkBounds(|cipher|, chunkSize, packet);
      var start := (packet - 1) * chunkSize;
      var size := Min(chunkSize, |cipher| - start);
      request.packetNumber := ToWord16(packet);
      request.chunkSize := ToWord32(size);
      request.chunk := cipher[start..start + size];
      request.payloadSize := ToWord32(Requests.FIXED_PAYLOAD_SIZE + ToWord32(size));
      PacketFields(id, name, fileSize, cipher, packet, size);
    }

    /** Prints a percentage if the step since the last one is large enough, or at the end. */
    static method Report(packet: nat, totalPackets: nat, before: seq<nat>, remembered: nat)
      returns (printed: seq<nat>, printedPercent: nat)
      requires 1 <= packet <= totalPackets
      requires before == Progress.ReportsAfter(packet - 1, totalPackets)
      requires remembered == Progress.Remembered(packet - 1, totalPackets)
      ensures printed == Progress.ReportsAfter(packet, totalPackets)
      ensures printedPercent == Progress.Remembered(packet, totalPackets)
    {
      Progress.ReportStep(packet, totalPackets);
      printed, printedPercent := before, remembered;
      var percent := Progress.FULL_PERCENT * packet / totalPackets;
      if percent >= printedPercent + Progress.PROGRESS_STEP_PERCENT || packet == totalPackets {
        printedPercent := percent / Progress.PROGRESS_STEP_PERCENT * Progress.PROGRESS_STEP_PERCENT;
        if packet == totalPackets {
          printedPercent := Progress.FULL_PERCENT;
        }
        printed := printed + [printedPercent];
      }
    }

    /** Compares the server's answer with the file; the flag remembers a mismatch. */
    method VerifyUploadCrcResponse(data: Bytes) returns (v: Verdict)
      requires Valid()
      modifies this, host
      ensures Valid()
      ensures (host.State(), State(), v) == Verify(old(host.State()), old(State()), data)
    {
      var reply := comm.ReceiveResponse();
      if !reply.Reply? {
        return Stop(Fatal);
      }
      var response := reply.m;
      if response.code == FAILED {
        return Stop(Fatal);
      }
      if response.code == UPLOAD_REJECTED_TOO_LARGE {
        return Stop(ClientError);
      }
      var userId := Credentials.LoadUserId(host.disk.meInfo);
      var actual := Hex.BytesToHex(response.userId);
      if userId.None? || userId.value != actual {
        return Stop(Fatal);
      }
      if response.code != UPLOAD_RECEIVED {
        return Stop(Fatal);
      }
      var expected := Crc32.CalculateCrc32(data);
      var checksumMismatch := response.checksum != expected;
      var sizeMismatch := response.encryptedFileSize != encryptedFileSize;
      if checksumMismatch || sizeMismatch {
        crcError, compared := true, compared + [true];
        return Mismatch;
      }
      crcError, compared := false, compared + [false];
      v := Match;
    }

    method SendCrcStatusRequest(name: Bytes, code: Word16) returns (ok: bool)
      requires Valid()
      modifies host
      ensures Valid() && State() == old(State())
      ensures (host.State(), ok) == SendStatus(host.env, old(host.State()), name, code)
    {
      hide SendTo, TextField, Hex.Unhex, Credentials.UserIdIn;
      var userId := Credentials.LoadUserId(host.disk.meInfo);
      if userId.None? {
        return false;
      }
      var request := new Requests.Request();
      ok := request.SetUserId(userId.value);
      if !ok {
        return;
      }
      request.code := code;
      request.payloadSize := Requests.FIXED_PAYLOAD_SIZE;
      request.SetFileName(name);
      assert request.Message() == Requests.CrcStatusMsg(request.Message().userId, code, name);
      ok := comm.SendRequest(request);
    }

    method ProcessServerAck() returns (ok: bool)
      requires Valid()
      modifies host
      ensures Valid() && State() == old(State())
      ensures (host.State(), ok) == AwaitAck(old(host.State()))
    {
      var reply := comm.ReceiveResponse();
      if !reply.Reply? {
        return false;
      }
      var userId := Credentials.LoadUserId(host.disk.meInfo);
      if reply.m.code == FAILED {
        return false;
      }
      var actual := Hex.BytesToHex(reply.m.userId);
      if userId.None? || userId.value != actual {
        return false;
      }
      ok := reply.m.code == ACK;
    }

    /** Uploads until the answer matches, at most three times. */
    method BackupFile(name: Bytes) returns (o: Outcome)
      requires Valid()
      modifies this, host
      ensures Valid()
      ensures (host.State(), State(), o) == BackupFrom(host.env, old(host.State()), old(State()), name, 0)
    {
      hide Upload, Verify, Finish, SendStatus;
      var crcFailures := 0;
      while true
        invariant Valid() && crcFailures < CRC_TRIALS_COUNT
        invariant BackupFrom(host.env, host.State(), State(), name, crcFailures)
               == BackupFrom(host.env, old(host.State()), old(State()), name, 0)
        decreases CRC_TRIALS_COUNT - crcFailures
      {
        var uploaded, _ := SendEncryptedFileRequest(name);
        if uploaded.NotUploaded? {
          return uploaded.o;
        }
        var verdict := VerifyUploadCrcResponse(uploaded.data);
        if verdict.Stop? {
          return verdict.o;
        }
        if verdict.Match? {
          o := ConcludeFile(name, CRC_SUCCESS, Delivered);
          return;
        }
        crcFailures := crcFailures + 1;
        if crcFailures == CRC_TRIALS_COUNT {
          o := ConcludeFile(name, CRC_FAILURE, GaveUp);
          return;
        }
        var sent := SendCrcStatusRequest(name, CRC_ERROR);
        if !sent {
          return Fatal;
        }
      }
    }

    /** Sends the final status of a file and waits for its acknowledgement. */
    method ConcludeFile(name: Bytes, code: Word16, success: Outcome) returns (o: Outcome)
      requires Valid()
      modifies host
      ensures Valid() && State() == old(State())
      ensures (host.State(), o) == Finish(host.env, old(host.State()), name, code, success)
    {
      var sent := SendCrcStatusRequest(name, code);
      if !sent {
        return Fatal;
      }
      var acked := ProcessServerAck();
      o := if acked then success else Fatal;
    }

    /** Backs up the files one after the other; false if an exception ends the batch. */
    method BackupFiles(names: seq<Bytes>) returns (completed: bool)
      requires Valid()
      modifies this, host
      ensures Valid()
      ensures (host.State(), State(), completed) == BackupAll(host.env, old(host.State()), old(State()), names)
    {
      hide BackupFrom, IsValidFilename;
      var i := 0;
      assert names[0..] == names;
      while i < |names|
        invariant 0 <= i <= |names| && Valid()
        invariant BackupAll(host.env, host.State(), State(), names[i..])
               == BackupAll(host.env, old(host.State()), old(State()), names)
      {
        assert names[i..][1..] == names[i + 1..];
        var name := names[i];
        i := i + 1;
        if !IsValidFilename(name) {
          continue;
        }
        var file := host.Look(name);
        if file.Missing? {
          continue;
        }
        var outcome := BackupFile(name);
        if outcome.Fatal? {
          return false;
        }
      }
      completed := true;
    }
  }

  lemma OneMoreEvent(env: Env, w: World, m: Requests.RequestMsg)
    ensures |SendTo(env, w, m).0.log| == |w.log| + 1
  {
    hide Requests.Wire;
  }

  /** A request without what differs from packet to packet. */
  function CommonPart(m: Requests.RequestMsg): Requests.RequestMsg {
    m.(packetNumber := 0, chunkSize := 0, chunk := [], payloadSize := 0)
  }

  /** What the packets of an upload have in common. */
  function PacketBase(id: UserId, name: Bytes, fileSize: nat, totalPackets: nat): Requests.RequestMsg {
    Requests.BLANK.(userId := id, code := CREATE_BACKUP, fileSize := ToWord32(fileSize),
                    totalPackets := ToWord16(totalPackets), fileName := TextField(name, 255))
  }

  /** The common part together with the fields of packet `p` is the request of packet `p`. */
  lemma PacketFields(id: UserId, name: Bytes, fileSize: nat, cipher: Bytes, p: nat, size: nat)
    requires cipher != [] && 1 <= p <= PacketCount(|cipher|, ChunkSize(fileSize))
    requires size == Min(ChunkSize(fileSize), |cipher| - ChunkStart(ChunkSize(fileSize), p))
    ensures var start := ChunkStart(ChunkSize(fileSize), p);
            && start + size <= |cipher|
            && PacketMsg(id, name, fileSize, cipher, p)
            == PacketBase(id, name, fileSize, PacketCount(|cipher|, ChunkSize(fileSize))).(
                 packetNumber := ToWord16(p), chunkSize := ToWord32(size), chunk := cipher[start..start + size],
                 payloadSize := ToWord32(Requests.FIXED_PAYLOAD_SIZE + ToWord32(size)))
  {
    ChunkBounds(|cipher|, ChunkSize(fileSize), p);
  }

  /** The number of packets of a file. */
  function PacketsOf(fileSize: nat): (t: nat)
    ensures t > 0
  {
    PacketCountBounds(EnvelopeSize(fileSize), ChunkSize(fileSize));
    PacketCount(EnvelopeSize(fileSize), ChunkSize(fileSize))
  }

  lemma EnvelopeLength(c: BlockCipher, key: Key, iv: Block, data: Bytes)
    ensures |Encrypt(c, key, iv, data)| == EnvelopeSize(|data|)
  {
  }

  lemma SendNone(env: Env, w: World)
    ensures SendAll(env, w, []) == (w, true)
  {
  }

  /** The next request of a run of sends: the run goes on, or it is over. */
  lemma SendNext(env: Env, w: World, ms: seq<Requests.RequestMsg>, k: nat)
    requires k < |ms| && SendAll(env, w, ms[..k]).1
    ensures SendAll(env, w, ms[..k + 1]) == SendTo(env, SendAll(env, w, ms[..k]).0, ms[k])
    ensures !SendAll(env, w, ms[..k + 1]).1 ==> SendAll(env, w, ms) == SendAll(env, w, ms[..k + 1])
  {
    hide SendTo, SendAll;
    SendAllSnoc(env, w, ms[..k], ms[k]);
    assert ms[..k + 1] == ms[..k] + [ms[k]];
    if !SendAll(env, w, ms[..k + 1]).1 {
      SendAllStops(env, w, ms[..k + 1], ms[k + 1..]);
      assert ms[..k + 1] + ms[k + 1..] == ms;
    }
  }

  /** Requests after one that broke are not sent. */
  lemma {:induction false} SendAllStops(env: Env, w: World, a: seq<Requests.RequestMsg>, b: seq<Requests.RequestMsg>)
    requires !SendAll(env, w, a).1
    ensures SendAll(env, w, a + b) == SendAll(env, w, a)
    decreases |a|
  {
    hide SendTo;
    var (w1, ok) := SendTo(env, w, a[0]);
    assert (a + b)[1..] == a[1..] + b;
    if ok {
      SendAllStops(env, w1, a[1..], b);
    }
  }
}
