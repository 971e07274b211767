/**
 * What the client makes of the server's answers during a backup, said of the codes and the sixteen ID bytes
 * themselves, for a client whose `me.info` holds an identity.
 */
module ServerAnswers {
  import opened Binary
  import opened Protocol
  import opened Hosts
  import opened Sessions
  import opened Backups
  import opened BackupProperties
  import Aes
  import Credentials
  import Crc32
  import Hex
  import Requests
  import Responses

  /** `me.info` holds this identity. */
  ghost predicate Holds(env: Env, d: Disk, info: Info) {
    env.wrapWidth > 0 && info.Valid() && !info.NoInfo? && d.meInfo == info.Render(env.wrapWidth)
  }

  /** A response with this code and this ID. */
  ghost predicate IsResponse(r: Received, code: Word16, id: UserId) {
    r.Reply? && r.m.code == code && r.m.userId == id
  }

  /** Comparing the ID texts is comparing the ID bytes. */
  lemma StoredIdIff(env: Env, d: Disk, info: Info, m: Responses.ResponseMsg)
    requires Holds(env, d, info)
    ensures CarriesStoredId(d, m) <==> m.userId == info.id
  {
    hide Credentials.UserIdIn, Hex.HexOf, Info.Render;
    LoadedInfo(env, d, info);
    Hex.HexIdentity(m.userId, info.id);
  }

  /** An acknowledgement is a response with code 230 and the stored ID; no other code and no other ID is one. */
  lemma AckIff(env: Env, w: World, info: Info)
    requires Holds(env, w.disk, info)
    ensures AwaitAck(w).1 <==> IsResponse(Receive(w.incoming).0, 230, info.id)
  {
    hide Receive, CarriesStoredId;
    var r := ReceiveFrom(w).1;
    if r.Reply? {
      StoredIdIff(env, w.disk, info, r.m);
    }
  }

  /** The last exchange of a file succeeds exactly if the status goes out and such an acknowledgement follows. */
  lemma FinishIff(env: Env, w: World, name: Bytes, code: Word16, o: Outcome, info: Info)
    requires Holds(env, w.disk, info) && !o.Fatal?
    ensures var (w1, o1) := Finish(env, w, name, code, o);
            && (o1 == o || o1.Fatal?)
            && (o1 == o <==> FaultNow(env, w).None? && IsResponse(Receive(w.incoming).0, 230, info.id))
  {
    hide Receive, AwaitAck, StoredId, Requests.CrcStatusMsg, Requests.Wire, Info.Render;
    LoadedInfo(env, w.disk, info);
    AckIff(env, SendStatus(env, w, name, code).0, info);
  }

  /**
   * The comparison: a match and a mismatch only for code 220 with the stored ID, told apart by checksum and size; a
   * client error for code 221, whatever the ID; and an exception for everything else.
   */
  lemma VerdictIff(env: Env, w: World, a: Auth, data: Bytes, info: Info)
    requires Holds(env, w.disk, info)
    ensures var v := Verify(w, a, data).2;
            var r := Receive(w.incoming).0;
            && (v.Match? <==> IsResponse(r, 220, info.id) && r.m.checksum == Crc32.Checksum(data)
                              && r.m.encryptedFileSize == a.encryptedFileSize)
            && (v.Mismatch? <==> IsResponse(r, 220, info.id) && !v.Match?)
            && (v == Stop(ClientError) <==> r.Reply? && r.m.code == 221)
            && (v == Stop(Fatal) <==> !IsResponse(r, 220, info.id) && !(r.Reply? && r.m.code == 221))
  {
    hide Receive, CarriesStoredId, Crc32.Checksum;
    var r := ReceiveFrom(w).1;
    if r.Reply? {
      StoredIdIff(env, w.disk, info, r.m);
    }
  }

  /** After so many events: last the status request with this code, ID and file name, then code 230 with that ID. */
  ghost predicate EndsAcknowledged(log: seq<Event>, before: nat, code: Word16, id: UserId, name: Bytes) {
    && |log| >= before + 2
    && var request, response := log[|log| - 2], log[|log| - 1];
    && request.Sent? && request.m.code == code && request.m.userId == id && FieldText(request.m.fileName) == name
    && response.Got? && response.r.code == 230 && response.r.userId == id
  }

  /**
   * A file that is delivered or given up ends with its status, code 120 or 122, under its name and the stored ID, and
   * with a response of code 230 and that ID.
   */
  lemma FinalExchange(env: Env, w: World, a: Auth, name: Bytes, info: Info)
    requires Holds(env, w.disk, info) && IsValidFilename(name)
    ensures var (w', _, o) := BackupFrom(env, w, a, name, 0);
            && (o.Delivered? ==> EndsAcknowledged(w'.log, |w.log|, 120, info.id, name))
            && (o.GaveUp? ==> EndsAcknowledged(w'.log, |w.log|, 122, info.id, name))
  {
    hide BackupFrom, EndsAcknowledged, CompletedRun, Confirms, Info.Render, StoredId, Mismatches;
    var (w', _, o) := BackupFrom(env, w, a, name, 0);
    if o.Delivered? || o.GaveUp? {
      var rounds, ack := CompletedShape(env, w, a, name, 0);
      LoadedInfo(env, w.disk, info);
      CompletedEnd(env, w, w', name, rounds, if o.Delivered? then CRC_SUCCESS else CRC_FAILURE, ack, info);
    }
  }

  lemma CompletedEnd(env: Env, w: World, w': World, name: Bytes, rounds: seq<Round>, status: Word16,
                     ack: Responses.ResponseMsg, info: Info)
    requires CompletedRun(env, w, w', name, rounds, status, ack) && IsValidFilename(name)
    requires Holds(env, w.disk, info) && StoredId(w.disk) == Some(info.id)
    ensures EndsAcknowledged(w'.log, |w.log|, status, info.id, name)
  {
    hide CompleteTrace, IsRound, Confirms, ReadAfresh, ReceiveMany, Info.Render, StoredId, StoredKey, CarriesStoredId,
         TextField, FieldText, Requests.CrcStatusMsg;
    StoredIdIff(env, w.disk, info, ack);
    LastTwo(env, info.id, StoredKey(w.disk).value, name, rounds, status, ack, w.log, w'.log);
    StatusFields(info.id, status, name);
  }

  lemma LastTwo(env: Env, id: UserId, key: Aes.Key, name: Bytes, rounds: seq<Round>, status: Word16,
                ack: Responses.ResponseMsg, log: seq<Event>, log': seq<Event>)
    requires log' == log + CompleteTrace(env, id, key, name, rounds, status, ack)
    ensures |log'| >= |log| + 2
    ensures log'[|log'| - 2] == Sent(Requests.CrcStatusMsg(id, status, name)) && log'[|log'| - 1] == Got(ack)
  {
    hide RoundsTrace, Requests.CrcStatusMsg;
  }

  lemma StatusFields(id: UserId, status: Word16, name: Bytes)
    requires IsValidFilename(name)
    ensures var m := Requests.CrcStatusMsg(id, status, name);
            m.code == status && m.userId == id && FieldText(m.fileName) == name
  {
    hide TextField, FieldText;
    ValidNamesFit(name);
  }

  /** Three mismatches, and only three, make the client give up. */
  lemma GivesUpAfterThree(env: Env, w: World, a: Auth, name: Bytes)
    requires IsValidFilename(name)
    ensures var (w', a', o) := BackupFrom(env, w, a, name, 0);
            && |a'.compared| <= |a.compared| + 3
            && (o.GaveUp? ==> a'.compared == a.compared + [true, true, true])
            && (o.Delivered? ==>
                  exists k :: 0 <= k < 3 && a'.compared == a.compared + [true, true, true][..k] + [false])
  {
    hide BackupFrom, EntireRun, Receive, ReceiveMany, RoundsTrace, IsRound, Confirms, IsAck, CompletedRun, ReadAfresh;
    var (w', a', o) := BackupFrom(env, w, a, name, 0);
    var flags, _ := FileFlag(env, w, a, name, 0);
    if o.GaveUp? || o.Delivered? {
      var rounds, ack := CompletedShape(env, w, a, name, 0);
      RoundsEnd(env, w, w', name, rounds, if o.Delivered? then CRC_SUCCESS else CRC_FAILURE, ack);
      if o.GaveUp? {
        assert Mismatches(rounds) == [true, true, true];
      } else {
        var k := |rounds| - 1;
        assert Mismatches(rounds) == [true, true, true][..k] + [false];
        assert a.compared + ([true, true, true][..k] + [false]) == a.compared + [true, true, true][..k] + [false];
      }
    }
  }

  lemma RoundsEnd(env: Env, w: World, w': World, name: Bytes, rounds: seq<Round>, status: Word16,
                  ack: Responses.ResponseMsg)
    requires CompletedRun(env, w, w', name, rounds, status, ack)
    ensures rounds != [] && forall i :: 0 <= i < |rounds| - 1 ==> !Confirms(rounds[i])
  {
    hide IsRound, Confirms, ReadAfresh, RoundsTrace, ReceiveMany;
  }

  /** The size limit is 20 MiB: files up to it are read, larger ones end themselves with a client error. */
  lemma SizeLimit(env: Env, w: World, a: Auth, name: Bytes, info: Info)
    requires Holds(env, w.disk, info) && IsValidFilename(name) && StoredKey(w.disk).Some?
    requires env.fileAt(name, w.clock).Content?
    ensures AttemptPackets(env, w.disk, name, w.clock) == [] <==> |env.fileAt(name, w.clock).data| > 20 * 1024 * 1024
    ensures |env.fileAt(name, w.clock).data| > 20 * 1024 * 1024
            ==> BackupFrom(env, w, a, name, 0) == (w.(clock := w.clock + 1), a, ClientError)
  {
    hide BackupFrom, Info.Render, StoredId, StoredKey, AttemptPackets;
    LoadedInfo(env, w.disk, info);
    AttemptPacketsFacts(env, w.disk, name, w.clock);
    if |env.fileAt(name, w.clock).data| > 20 * 1024 * 1024 {
      OversizedFile(env, w, a, name);
    }
  }
}
