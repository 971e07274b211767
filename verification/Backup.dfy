/**
 * What backing up files does to the world, step by step: upload, comparison of the server's answer,
 * retry or confirmation, acknowledgement, and the batch over all files.
 */
module Backups {
  import opened Binary
  import opened Protocol
  import opened Aes
  import opened Hosts
  import opened Uploads
  import Credentials
  import Crc32
  import Hex
  import Requests
  import Responses

  const CRC_TRIALS_COUNT: nat := 3

  /** How the backup of one file ends; `ClientError` and `Fatal` are exceptions. */
  datatype Outcome = Delivered | GaveUp | ClientError | Fatal

  /** The fields of the authentication object; `compared` records the comparisons, true for a mismatch. */
  datatype Auth = Auth(encryptedFileSize: Word32, crcError: bool, compared: seq<bool>) {
    /** The flag is the result of the latest comparison. */
    ghost predicate Consistent() {
      crcError == (compared != [] && compared[|compared| - 1])
    }
  }

  const NEW_AUTH: Auth := Auth(0, false, [])

  datatype Prepared = Ready(data: Bytes, key: Key, iv: Block) | Refused(o: Outcome)
  datatype Uploaded = Uploaded(data: Bytes) | NotUploaded(o: Outcome)
  datatype Verdict = Match | Mismatch | Stop(o: Outcome)

  /** The user ID a request carries: the stored text, decoded. */
  function StoredId(d: Disk): Option<UserId> {
    match Credentials.UserIdIn(d.meInfo)
    case Some(text) => (match Hex.Unhex(text, 16) case Some(id) => Some(id) case None => None)
    case None => None
  }

  /** The stored text is compared with the text of the ID in the response. */
  predicate CarriesStoredId(d: Disk, r: Responses.ResponseMsg) {
    Credentials.UserIdIn(d.meInfo) == Some(Hex.HexOf(r.userId))
  }

  /** Reading the file and choosing key and IV. */
  function Prepare(env: Env, w: World, name: Bytes): (World, Prepared) {
    var w1 := w.(clock := w.clock + 1);
    match env.fileAt(name, w.clock)
    case Missing => (w1, Refused(Fatal))
    case Unreadable => (w1, Refused(Fatal))
    case Content(data) =>
      if |data| > MAX_FILE_SIZE then (w1, Refused(ClientError))
      else match Credentials.AesKeyIn(w.disk.aesKey)
           case None => (w1, Refused(Fatal))
           case Some(key) =>
             if |key| != KEY_LEN then (w1, Refused(Fatal))
             else (w1.(clock := w1.clock + 1), Ready(data, key, env.ivAt(w1.clock)))
  }

  /** Sends requests until one breaks. */
  function SendAll(env: Env, w: World, ms: seq<Requests.RequestMsg>): (World, bool)
    decreases |ms|
  {
    if ms == [] then (w, true)
    else
      var (w1, ok) := SendTo(env, w, ms[0]);
      if ok then SendAll(env, w1, ms[1..]) else (w1, false)
  }

  function Upload(env: Env, w: World, a: Auth, name: Bytes): (World, Auth, Uploaded) {
    var (w1, p) := Prepare(env, w, name);
    match p
    case Refused(o) => (w1, a, NotUploaded(o))
    case Ready(data, key, iv) =>
      match StoredId(w.disk)
      case None => (w1, a, NotUploaded(Fatal))
      case Some(id) =>
        var ms := PacketMsgs(id, name, |data|, Encrypt(env.cipher, key, iv, data));
        var (w2, ok) := SendAll(env, w1, ms);
        if !ok then (w2, a, NotUploaded(Fatal))
        else (w2, a.(encryptedFileSize := if ms == [] then 0 else ms[|ms| - 1].chunkSize), Uploaded(data))
  }

  function Compare(w: World, a: Auth, data: Bytes, r: Responses.ResponseMsg): (Auth, Verdict) {
    if r.code == FAILED then (a, Stop(Fatal))
    else if r.code == UPLOAD_REJECTED_TOO_LARGE then (a, Stop(ClientError))
    else if !CarriesStoredId(w.disk, r) then (a, Stop(Fatal))
    else if r.code != UPLOAD_RECEIVED then (a, Stop(Fatal))
    else
      var mismatch := r.checksum != Crc32.Checksum(data) || r.encryptedFileSize != a.encryptedFileSize;
      (a.(crcError := mismatch, compared := a.compared + [mismatch]), if mismatch then Mismatch else Match)
  }

  function Verify(w: World, a: Auth, data: Bytes): (World, Auth, Verdict) {
    var (w1, r) := ReceiveFrom(w);
    if !r.Reply? then (w1, a, Stop(Fatal))
    else
      var (a1, v) := Compare(w1, a, data, r.m);
      (w1, a1, v)
  }

  function SendStatus(env: Env, w: World, name: Bytes, code: Word16): (World, bool) {
    match StoredId(w.disk)
    case None => (w, false)
    case Some(id) => SendTo(env, w, Requests.CrcStatusMsg(id, code, name))
  }

  predicate IsAck(d: Disk, r: Responses.ResponseMsg) {
    r.code == ACK && CarriesStoredId(d, r)
  }

  function AwaitAck(w: World): (World, bool) {
    var (w1, r) := ReceiveFrom(w);
    (w1, r.Reply? && IsAck(w.disk, r.m))
  }

  /** The final status of a file and its acknowledgement. */
  function Finish(env: Env, w: World, name: Bytes, code: Word16, o: Outcome): (World, Outcome) {
    var (w1, sent) := SendStatus(env, w, name, code);
    if !sent then (w1, Fatal)
    else
      var (w2, acked) := AwaitAck(w1);
      (w2, if acked then o else Fatal)
  }

  /** One upload and the comparison of the server's answer. */
  function Attempt(env: Env, w: World, a: Auth, name: Bytes): (World, Auth, Verdict) {
    var (w1, a1, u) := Upload(env, w, a, name);
    match u
    case NotUploaded(o) => (w1, a1, Stop(o))
    case Uploaded(data) => Verify(w1, a1, data)
  }

  /** The retry loop after `failures` mismatches. */
  function BackupFrom(env: Env, w: World, a: Auth, name: Bytes, failures: nat): (World, Auth, Outcome)
    requires failures < CRC_TRIALS_COUNT
    decreases CRC_TRIALS_COUNT - failures
  {
    var (w1, a1, v) := Attempt(env, w, a, name);
    match v
    case Stop(o) => (w1, a1, o)
    case Match =>
      var (w2, o) := Finish(env, w1, name, CRC_SUCCESS, Delivered);
      (w2, a1, o)
    case Mismatch =>
      if failures + 1 == CRC_TRIALS_COUNT then
        var (w2, o) := Finish(env, w1, name, CRC_FAILURE, GaveUp);
        (w2, a1, o)
      else
        var (w2, sent) := SendStatus(env, w1, name, CRC_ERROR);
        if !sent then (w2, a1, Fatal) else BackupFrom(env, w2, a1, name, failures + 1)
  }

  /** One file name of a batch; a name that is invalid or missing is skipped. */
  function BackupNamed(env: Env, w: World, a: Auth, name: Bytes): (World, Auth, Option<Outcome>) {
    if !IsValidFilename(name) then (w, a, None)
    else
      var w1 := w.(clock := w.clock + 1);
      if env.fileAt(name, w.clock).Missing? then (w1, a, None)
      else
        var (w2, a2, o) := BackupFrom(env, w1, a, name, 0);
        (w2, a2, Some(o))
  }

  /** The batch; the last component is false when an exception ends it. */
  function BackupAll(env: Env, w: World, a: Auth, names: seq<Bytes>): (World, Auth, bool)
    decreases |names|
  {
    if names == [] then (w, a, true)
    else
      var (w1, a1, o) := BackupNamed(env, w, a, names[0]);
      if o == Some(Fatal) then (w1, a1, false) else BackupAll(env, w1, a1, names[1..])
  }

  // ---------------------------------------------------------------------------
  // Lemmas on sending
  // ---------------------------------------------------------------------------

  /** One more request after requests that all went out. */
  lemma {:induction false} SendAllSnoc(env: Env, w: World, ms: seq<Requests.RequestMsg>, m: Requests.RequestMsg)
    ensures SendAll(env, w, ms + [m]) == if SendAll(env, w, ms).1 then SendTo(env, SendAll(env, w, ms).0, m)
                                         else SendAll(env, w, ms)
    decreases |ms|
  {
    if ms == [] {
      assert (ms + [m])[1..] == [];
    } else {
      var (w1, ok) := SendTo(env, w, ms[0]);
      assert (ms + [m])[1..] == ms[1..] + [m];
      if ok {
        SendAllSnoc(env, w1, ms[1..], m);
      }
    }
  }

  /** Nothing but the clock and the log changes. */
  ghost predicate OnlySent(w: World, w': World) {
    w'.incoming == w.incoming && w'.inputs == w.inputs && w'.disk == w.disk && w'.link == w.link
  }

  /** The event a send leaves in the log. */
  lemma SendEvent(env: Env, w: World, m: Requests.RequestMsg) returns (e: Event)
    ensures var (w', ok) := SendTo(env, w, m);
            && OnlySent(w, w') && w'.clock == w.clock + 1 && w'.log == w.log + [e]
            && (if ok then e == Sent(m) else e.Broken? && e.m == m)
  {
    hide Requests.Wire;
    var (w', ok) := SendTo(env, w, m);
    e := w'.log[|w.log|];
  }

  /** Some of the requests went out, in order, and the next one broke. */
  ghost predicate BrokenOff(ms: seq<Requests.RequestMsg>, t: seq<Event>) {
    && 1 <= |t| <= |ms|
    && (forall i :: 0 <= i < |t| - 1 ==> t[i] == Sent(ms[i]))
    && t[|t| - 1].Broken? && t[|t| - 1].m == ms[|t| - 1]
  }

  /** Writes at these times go out whole. */
  ghost predicate NoFaults(env: Env, link: Link, from: nat, to: nat) {
    link.Connected? && forall t: nat :: from <= t < to ==> env.writeFault(t).None?
  }

  /** The events of a run of sends: all of them, or some and then one that broke. */
  lemma {:induction false} SendAllEvents(env: Env, w: World, ms: seq<Requests.RequestMsg>) returns (t: seq<Event>)
    ensures var (w', ok) := SendAll(env, w, ms);
            && OnlySent(w, w') && w'.clock == w.clock + |t| && w'.log == w.log + t
            && (ok ==> t == SentAll(ms))
            && (!ok ==> BrokenOff(ms, t))
            && (ok <==> ms == [] || NoFaults(env, w.link, w.clock, w.clock + |ms|))
    decreases |ms|
  {
    hide SendTo;
    if ms == [] {
      t := [];
      assert w.log + [] == w.log;
    } else {
      var e := SendEvent(env, w, ms[0]);
      var (w1, ok1) := SendTo(env, w, ms[0]);
      SendGoesOut(env, w, ms[0]);
      if ok1 {
        var t1 := SendAllEvents(env, w1, ms[1..]);
        t := [e] + t1;
        assert w1.log + t1 == w.log + t;
        FaultsSplit(env, w.link, w.clock, w.clock + |ms|);
      } else {
        t := [e];
      }
    }
  }

  lemma SendGoesOut(env: Env, w: World, m: Requests.RequestMsg)
    ensures SendTo(env, w, m).1 <==> NoFaults(env, w.link, w.clock, w.clock + 1)
  {
    hide Requests.Wire;
  }

  lemma FaultsSplit(env: Env, link: Link, from: nat, to: nat)
    requires from < to
    ensures NoFaults(env, link, from, to) <==> NoFaults(env, link, from, from + 1) && NoFaults(env, link, from + 1, to)
  {
  }
}
