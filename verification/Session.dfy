/**
 * The life of a client: an automaton over the events of one session, and histories of sessions, each of
 * which may have been cut off after any event. The automaton is what the session code is proved to follow;
 * the guarantees below hold for every event sequence it accepts.
 */
module Sessions {
  import opened Binary
  import opened Protocol
  import opened Aes
  import opened Hosts
  import opened Backups
  import opened BackupProperties
  import Base64
  import Credentials
  import Hex
  import Requests
  import Responses
  import Uploads

  /** What `me.info` holds. */
  datatype Info =
    | NoInfo
    | TwoLine(username: Bytes, id: UserId)
    | Keyed(username: Bytes, id: UserId, key: Bytes)
  {
    ghost predicate Valid() {
      match this
      case NoInfo => true
      case TwoLine(username, _) => IsValidUsername(username)
      case Keyed(username, _, key) => IsValidUsername(username) && key != []
    }

    /** The contents of the file: absent, two lines, or two lines and exactly one wrapped key. */
    function Render(width: nat): Option<Bytes>
      requires width > 0
    {
      match this
      case NoInfo => None
      case TwoLine(username, id) => Some(Credentials.IdentityLines(username, id))
      case Keyed(username, id, key) =>
        Some(Credentials.IdentityLines(username, id) + Base64.EncodeLines(key, width))
    }
  }

  datatype Phase =
    | Start                       // nothing agreed with the server yet
    | Asked(username: Bytes)      // registration requested
    | Granted(username: Bytes, id: UserId)
    | Identified                  // two lines written
    | KeyAppended
    | KeySaved
    | AwaitKey(code: Word16)      // the response with the AES key is due
    | Revoked                     // the server no longer knows the client
    | KeyReceived(key: Bytes)     // AES key received
    | Backup(key: Bytes)          // AES key saved
    | Failing
    | Closed
    | Done

  datatype Session = Session(info: Info, phase: Phase)

  /** Where a request may take the session, if it may be sent now. */
  ghost function AfterSend(env: Env, s: Session, m: Requests.RequestMsg): Option<Session> {
    if m == Requests.DISCONNECT_MSG then
      if s.phase.Closed? || s.phase.Done? then None else Some(s.(phase := Closed))
    else
      match s.phase
      case Start =>
        var username := FieldText(m.username);
        if s.info.NoInfo? && IsValidUsername(username) && m == Requests.RegistrationMsg(username)
        then Some(s.(phase := Asked(username)))
        else if s.info.Keyed? && m == Requests.ReRegistrationMsg(s.info.id, s.info.username)
        then Some(s.(phase := AwaitKey(RE_REGISTRATION_SUCCESS)))
        else None
      case KeySaved =>
        if s.info.Keyed? && m == Requests.PublicKeyMsg(s.info.id, s.info.username, env.publicOf(s.info.key))
        then Some(s.(phase := AwaitKey(KEY_SEND_SUCCESS)))
        else None
      case Backup(key) =>
        if s.info.Keyed? && ((|key| == KEY_LEN && IsPacket(env, s.info.id, key, m)) || IsStatus(s.info.id, m))
        then Some(s)
        else None
      case _ => None
  }

  /** The reaction to a response. */
  function AfterGot(env: Env, s: Session, r: Responses.ResponseMsg): Option<Session> {
    match s.phase
    case Asked(username) =>
      Some(s.(phase := if r.code == USERNAME_TAKEN then Start
                       else if r.code == REGISTRATION_SUCCESS then Granted(username, r.userId)
                       else Failing))
    case AwaitKey(code) =>
      if !s.info.Keyed? then None
      else if r.code == FAILED || r.userId != s.info.id then Some(s.(phase := Failing))
      else if r.code == code then
        (match env.rsaDecrypt(s.info.key, r.aesKey)
         case Some(key) => Some(s.(phase := KeyReceived(key)))
         case None => Some(s.(phase := Failing)))
      else if r.code == RE_REGISTRATION_FAILED then Some(s.(phase := Revoked))
      else Some(s.(phase := Failing))
    case Backup(_) => Some(s)
    case _ => None
  }

  /** One event of a session; `None` if it must not happen now. */
  ghost function Next(env: Env, s: Session, e: Event): Option<Session> {
    match e
    case Sent(m) => AfterSend(env, s, m)
    case Broken(m, _) =>
      if AfterSend(env, s, m).None? then None else Some(if s.phase.Backup? then s else s.(phase := Failing))
    case Got(r) => AfterGot(env, s, r)
    case NoReply =>
      if s.phase.Asked? || s.phase.AwaitKey? then Some(s.(phase := Failing))
      else if s.phase.Backup? then Some(s)
      else None
    case SavedInfo(username, id) =>
      if s.info.NoInfo? && s.phase == Granted(username, id)
      then Some(Session(TwoLine(username, id), Identified)) else None
    case AppendedKey(key) =>
      if s.info.TwoLine? && s.phase.Identified? && key != []
      then Some(Session(Keyed(s.info.username, s.info.id, key), KeyAppended)) else None
    case SavedPrivateKey(key) =>
      if s.info.Keyed? && s.phase.KeyAppended? && s.info.key == key then Some(s.(phase := KeySaved)) else None
    case SavedAesKey(key) =>
      if s.phase == KeyReceived(key) then Some(s.(phase := Backup(key))) else None
    case RemovedInfo =>
      if s.phase.Revoked? then Some(Session(NoInfo, Failing)) else None
    case RemovedAesKey =>
      if s.phase.Closed? || s.phase.Start? then Some(s.(phase := Done)) else None
  }

  /** The session after a sequence of events, if all of them were allowed. */
  ghost function Run(env: Env, s: Session, events: seq<Event>): Option<Session>
    decreases |events|
  {
    if events == [] then Some(s)
    else match Run(env, s, events[..|events| - 1])
         case Some(s1) => Next(env, s1, events[|events| - 1])
         case None => None
  }

  ghost function Begin(info: Info): Session {
    Session(info, Start)
  }

  lemma RunSnoc(env: Env, s: Session, events: seq<Event>, e: Event)
    ensures Run(env, s, events + [e]) == match Run(env, s, events)
                                         case Some(s1) => Next(env, s1, e)
                                         case None => None
  {
    assert (events + [e])[..|events|] == events;
  }

  lemma {:induction false} RunConcat(env: Env, s: Session, a: seq<Event>, b: seq<Event>)
    ensures Run(env, s, a + b) == match Run(env, s, a)
                                  case Some(s1) => Run(env, s1, b)
                                  case None => None
    decreases |b|
  {
    hide Next;
    if b == [] {
      assert a + b == a;
    } else {
      var init, last := b[..|b| - 1], b[|b| - 1];
      RunConcat(env, s, a, init);
      RunSnoc(env, s, a + init, last);
      assert a + b == a + init + [last];
    }
  }

  /** A session may stop after any event. */
  lemma {:induction false} RunPrefix(env: Env, s: Session, events: seq<Event>, n: nat)
    requires Run(env, s, events).Some? && n <= |events|
    ensures Run(env, s, events[..n]).Some?
  {
    RunConcat(env, s, events[..n], events[n..]);
    assert events[..n] + events[n..] == events;
  }

  // ---------------------------------------------------------------------------
  // The files agree with the session, after every event
  // ---------------------------------------------------------------------------

  ghost predicate Agrees(env: Env, d: Disk, s: Session)
    requires env.wrapWidth > 0
  {
    && s.info.Valid() && d.meInfo == s.info.Render(env.wrapWidth)
    && (s.phase.Asked? ==> IsValidUsername(s.phase.username))
    && (s.phase.Granted? ==> IsValidUsername(s.phase.username))
    && (s.phase.KeySaved? || s.phase.AwaitKey? || s.phase.KeyReceived? || s.phase.Backup? ==> s.info.Keyed?)
    && (s.phase.KeySaved? ==> d.privateKey == Some(Base64.EncodeLines(s.info.key, env.wrapWidth)))
    && (s.phase.Backup? ==> d.aesKey == Some(Base64.EncodeLines(s.phase.key, env.wrapWidth)))
  }

  lemma StepAgrees(env: Env, d: Disk, s: Session, e: Event)
    requires env.wrapWidth > 0 && Agrees(env, d, s) && Next(env, s, e).Some?
    ensures Agrees(env, Apply(d, e, env.wrapWidth), Next(env, s, e).value)
  {
    hide Credentials.IdentityLines, Base64.EncodeLines, IsPacket, IsStatus;
  }

  lemma {:induction false} RunAgrees(env: Env, d: Disk, s: Session, events: seq<Event>)
    requires env.wrapWidth > 0 && Agrees(env, d, s) && Run(env, s, events).Some?
    ensures Agrees(env, Replay(d, events, env.wrapWidth), Run(env, s, events).value)
    decreases |events|
  {
    hide Next, Agrees, Apply;
    if events != [] {
      var init := events[..|events| - 1];
      RunAgrees(env, d, s, init);
      StepAgrees(env, Replay(d, init, env.wrapWidth), Run(env, s, init).value, events[|events| - 1]);
    }
  }

  /** What the loaders find in `me.info`: the fields of the identity, and the key only if there is one. */
  lemma LoadedInfo(env: Env, d: Disk, info: Info)
    requires env.wrapWidth > 0 && info.Valid() && d.meInfo == info.Render(env.wrapWidth)
    ensures info.NoInfo? ==> d.meInfo.None?
    ensures !info.NoInfo? ==>
              && Credentials.UsernameIn(d.meInfo) == Some(info.username)
              && Credentials.UserIdIn(d.meInfo) == Some(Hex.HexOf(info.id))
              && StoredId(d) == Some(info.id)
    ensures info.TwoLine? ==> Credentials.PrivateKeyIn(d.meInfo) == None
    ensures info.Keyed? ==>
              && Credentials.PrivateKeyIn(d.meInfo) == Some(Base64.Encode(info.key))
              && Base64.Decode(Base64.Encode(info.key)) == info.key
  {
    match info
    case NoInfo =>
    case TwoLine(username, id) =>
      Credentials.IdentityRoundTrip(username, id);
      Hex.UnhexOfHex(id);
    case Keyed(username, id, key) =>
      Credentials.KeyedIdentityRoundTrip(username, id, key, env.wrapWidth);
      Hex.UnhexOfHex(id);
  }

  // ---------------------------------------------------------------------------
  // Histories
  // ---------------------------------------------------------------------------

  /** Sessions of one installation, one after the other; each is the accepted part that was reached. */
  type History = seq<seq<Event>>

  ghost function InfoAfter(env: Env, h: History): Info
    decreases |h|
  {
    if h == [] then NoInfo
    else match Run(env, Begin(InfoAfter(env, h[..|h| - 1])), h[|h| - 1])
         case Some(s) => s.info
         case None => NoInfo
  }

  ghost predicate IsHistory(env: Env, h: History)
    decreases |h|
  {
    h == [] || (IsHistory(env, h[..|h| - 1]) && Run(env, Begin(InfoAfter(env, h[..|h| - 1])), h[|h| - 1]).Some?)
  }

  function EventsOf(h: History): seq<Event> {
    if h == [] then [] else EventsOf(h[..|h| - 1]) + h[|h| - 1]
  }

  lemma HistorySnoc(env: Env, h: History, t: seq<Event>)
    ensures IsHistory(env, h + [t]) <==> IsHistory(env, h) && Run(env, Begin(InfoAfter(env, h)), t).Some?
    ensures Run(env, Begin(InfoAfter(env, h)), t).Some?
            ==> InfoAfter(env, h + [t]) == Run(env, Begin(InfoAfter(env, h)), t).value.info
    ensures EventsOf(h + [t]) == EventsOf(h) + t
  {
    hide Run;
    assert (h + [t])[..|h|] == h;
  }

  /** `me.info` is always absent, two lines, or two lines and one key, wherever the sessions were cut off. */
  lemma {:induction false} InfoFileShape(env: Env, d: Disk, h: History)
    requires env.wrapWidth > 0 && d.meInfo.None? && IsHistory(env, h)
    ensures InfoAfter(env, h).Valid()
    ensures Replay(d, EventsOf(h), env.wrapWidth).meInfo == InfoAfter(env, h).Render(env.wrapWidth)
    decreases |h|
  {
    hide Run, Apply, Base64.EncodeLines, Credentials.IdentityLines;
    if h != [] {
      var init, t := h[..|h| - 1], h[|h| - 1];
      InfoFileShape(env, d, init);
      var d1 := Replay(d, EventsOf(init), env.wrapWidth);
      RunAgrees(env, d1, Begin(InfoAfter(env, init)), t);
      ReplayConcat(d, EventsOf(init), t, env.wrapWidth);
    }
  }

  /**
   * Whenever the public key goes on the wire, whole or in part, the private key it belongs to can already
   * be loaded from `me.info`, and is in the private key file as well.
   */
  lemma PublicKeyIsBacked(env: Env, d: Disk, h: History, t: seq<Event>, m: Requests.RequestMsg, e: Event)
    requires env.wrapWidth > 0 && d.meInfo.None?
    requires m.code == PUBLIC_KEY_SEND && (e == Sent(m) || (e.Broken? && e.m == m))
    requires IsHistory(env, h + [t + [e]])
    ensures var now := Replay(d, EventsOf(h + [t]), env.wrapWidth);
            exists key ::
              && InfoAfter(env, h + [t]).Keyed? && InfoAfter(env, h + [t]).key == key
              && Credentials.PrivateKeyIn(now.meInfo) == Some(Base64.Encode(key))
              && Base64.Decode(Base64.Encode(key)) == key
              && now.privateKey == Some(Base64.EncodeLines(key, env.wrapWidth))
              && m.publicKey == env.publicOf(key)
  {
    hide Run, Replay, Apply, EventsOf;
    var s0 := Begin(InfoAfter(env, h));
    HistorySnoc(env, h, t + [e]);
    RunSnoc(env, s0, t, e);
    HistorySnoc(env, h, t);
    InfoFileShape(env, d, h);
    var d1 := Replay(d, EventsOf(h), env.wrapWidth);
    RunAgrees(env, d1, s0, t);
    ReplayConcat(d, EventsOf(h), t, env.wrapWidth);
    var s := Run(env, s0, t).value;
    PublicKeyPhase(env, s, m);
    LoadedInfo(env, Replay(d1, t, env.wrapWidth), s.info);
  }

  /** The codes of the requests that the phases other than backup allow. */
  lemma PublicKeyPhase(env: Env, s: Session, m: Requests.RequestMsg)
    requires m.code == PUBLIC_KEY_SEND && AfterSend(env, s, m).Some?
    ensures s.phase.KeySaved? && s.info.Keyed?
    ensures m == Requests.PublicKeyMsg(s.info.id, s.info.username, env.publicOf(s.info.key))
  {
    if s.phase.Backup? && s.info.Keyed? {
      BackupCodes(env, s.info.id, s.phase.key, m);
    }
  }

  lemma BackupCodes(env: Env, id: UserId, key: Bytes, m: Requests.RequestMsg)
    ensures |key| == KEY_LEN && IsPacket(env, id, key, m) ==> m.code == CREATE_BACKUP && m.userId == id
    ensures IsStatus(id, m) ==> m.code in {CRC_SUCCESS, CRC_ERROR, CRC_FAILURE} && m.userId == id
  {
  }

  ghost predicate KeepsInfo(t: seq<Event>) {
    forall i :: 0 <= i < |t| ==> !t[i].RemovedInfo?
  }

  /** Once the key is stored, nothing but the removal of the file changes the identity. */
  lemma {:induction false} KeyedStays(env: Env, s: Session, t: seq<Event>)
    requires s.info.Keyed? && Run(env, s, t).Some? && KeepsInfo(t)
    ensures Run(env, s, t).value.info == s.info
    decreases |t|
  {
    hide AfterSend, AfterGot;
    if t != [] {
      var init, e := t[..|t| - 1], t[|t| - 1];
      KeyedStays(env, s, init);
      if e.Sent? || e.Broken? || e.Got? {
        SendKeepsInfo(env, Run(env, s, init).value, e);
      }
    }
  }

  lemma SendKeepsInfo(env: Env, s: Session, e: Event)
    requires Next(env, s, e).Some? && (e.Sent? || e.Broken? || e.Got?)
    ensures Next(env, s, e).value.info == s.info
  {
    hide IsPacket, IsStatus;
  }

  /**
   * Over any number of further sessions, each cut off anywhere, a stored identity with its key stays as it
   * is as long as no session removes the file.
   */
  lemma {:induction false} KeyedForever(env: Env, h: History, more: History)
    requires IsHistory(env, h + more) && InfoAfter(env, h).Keyed?
    requires forall i :: 0 <= i < |more| ==> KeepsInfo(more[i])
    ensures InfoAfter(env, h + more) == InfoAfter(env, h)
    decreases |more|
  {
    hide Run, KeepsInfo;
    if more == [] {
      assert h + more == h;
    } else {
      var init, t := more[..|more| - 1], more[|more| - 1];
      assert h + more == h + init + [t];
      HistorySnoc(env, h + init, t);
      KeyedForever(env, h, init);
      KeyedStays(env, Begin(InfoAfter(env, h + init)), t);
    }
  }

  /** The file is removed only right after a 206 response with the stored user ID. */
  lemma RemovalCause(env: Env, info: Info, t: seq<Event>)
    requires Run(env, Begin(info), t + [RemovedInfo]).Some?
    ensures t != [] && t[|t| - 1].Got?
    ensures var r := t[|t| - 1].r; var s := Run(env, Begin(info), t).value;
            && r.code == RE_REGISTRATION_FAILED && s.info.Keyed? && r.userId == s.info.id
  {
    hide AfterSend;
    RunSnoc(env, Begin(info), t, RemovedInfo);
    var e, init := t[|t| - 1], t[..|t| - 1];
    RevokedCause(env, Run(env, Begin(info), init).value, e);
  }

  lemma RevokedCause(env: Env, s: Session, e: Event)
    requires Next(env, s, e).Some? && Next(env, s, e).value.phase.Revoked?
    ensures e.Got? && e.r.code == RE_REGISTRATION_FAILED
    ensures s.info.Keyed? && e.r.userId == s.info.id && Next(env, s, e).value.info == s.info
  {
    hide IsPacket, IsStatus;
  }

  /**
   * Between the two durable writes of a registration a stop is final: with two lines in `me.info` a session
   * sends nothing but the disconnect request, and the file stays as it is.
   */
  lemma {:induction false} TwoLinesAreStuck(env: Env, info: Info, t: seq<Event>)
    requires info.TwoLine? && Run(env, Begin(info), t).Some?
    ensures forall i :: 0 <= i < |t| ==>
              (t[i].Sent? || t[i].Broken? ==> t[i].m == Requests.DISCONNECT_MSG) && !t[i].Got?
    ensures var s := Run(env, Begin(info), t).value;
            s.info == info && (s.phase.Start? || s.phase.Failing? || s.phase.Closed? || s.phase.Done?)
    decreases |t|
  {
    hide IsPacket, IsStatus, Requests.PublicKeyMsg, Requests.RegistrationMsg, Requests.ReRegistrationMsg;
    if t != [] {
      TwoLinesAreStuck(env, info, t[..|t| - 1]);
    }
  }

  /** It is so for every later session as well. */
  lemma {:induction false} StuckForever(env: Env, h: History, more: History)
    requires IsHistory(env, h + more) && InfoAfter(env, h).TwoLine?
    ensures InfoAfter(env, h + more) == InfoAfter(env, h)
    ensures forall i, j :: 0 <= i < |more| && 0 <= j < |more[i]| && (more[i][j].Sent? || more[i][j].Broken?)
              ==> more[i][j].m == Requests.DISCONNECT_MSG
    decreases |more|
  {
    hide Run;
    if more == [] {
      assert h + more == h;
    } else {
      var init, t := more[..|more| - 1], more[|more| - 1];
      assert h + more == h + init + [t];
      HistorySnoc(env, h + init, t);
      StuckForever(env, h, init);
      TwoLinesAreStuck(env, InfoAfter(env, h + init), t);
    }
  }

  // ---------------------------------------------------------------------------
  // What a backup rests on
  // ---------------------------------------------------------------------------

  /** The response at `i` delivered this AES key to the client with this identity. */
  ghost predicate DeliveredAt(env: Env, info: Info, t: seq<Event>, i: nat, key: Bytes) {
    && info.Keyed? && i < |t| && t[i].Got?
    && t[i].r.code in {RE_REGISTRATION_SUCCESS, KEY_SEND_SUCCESS}
    && t[i].r.userId == info.id
    && env.rsaDecrypt(info.key, t[i].r.aesKey) == Some(key)
  }

  ghost predicate KeyDelivered(env: Env, s: Session, t: seq<Event>) {
    && (s.phase.KeyReceived? ==> exists i :: DeliveredAt(env, s.info, t, i, s.phase.key))
    && (s.phase.Backup? ==> exists i :: DeliveredAt(env, s.info, t, i, s.phase.key))
    && (s.phase.AwaitKey? ==> s.phase.code in {RE_REGISTRATION_SUCCESS, KEY_SEND_SUCCESS})
  }

  lemma DeliveryStep(env: Env, s: Session, t: seq<Event>, e: Event)
    requires KeyDelivered(env, s, t) && Next(env, s, e).Some?
    ensures KeyDelivered(env, Next(env, s, e).value, t + [e])
  {
    hide IsPacket, IsStatus;
    var s' := Next(env, s, e).value;
    if s'.phase.KeyReceived? {
      assert e.Got? && s.phase.AwaitKey?;
      assert DeliveredAt(env, s'.info, t + [e], |t|, s'.phase.key);
    } else if s'.phase.Backup? {
      assert s.phase.KeyReceived? || s.phase.Backup?;
      var i :| DeliveredAt(env, s.info, t, i, s.phase.key);
      assert DeliveredAt(env, s'.info, t + [e], i, s'.phase.key);
    }
  }

  lemma {:induction false} BackupRestsOnDelivery(env: Env, info: Info, t: seq<Event>)
    requires Run(env, Begin(info), t).Some?
    ensures KeyDelivered(env, Run(env, Begin(info), t).value, t)
    decreases |t|
  {
    hide Next, KeyDelivered;
    if t == [] {
      NothingDelivered(env, Begin(info));
    } else {
      var init, e := t[..|t| - 1], t[|t| - 1];
      BackupRestsOnDelivery(env, info, init);
      DeliveryStep(env, Run(env, Begin(info), init).value, init, e);
      assert t == init + [e];
    }
  }

  lemma NothingDelivered(env: Env, s: Session)
    requires s.phase.Start?
    ensures KeyDelivered(env, s, [])
  {
  }

  /**
   * Safety of a session: every backup packet and every CRC status comes after a 205 or 210 response of the
   * same session that carries the stored user ID; it carries that ID itself; and a packet is a piece of
   * an encryption under the key that response delivered.
   */
  lemma BackupIsAuthorised(env: Env, info: Info, t: seq<Event>, m: Requests.RequestMsg, e: Event)
    requires e == Sent(m) || (e.Broken? && e.m == m)
    requires m.code in {CREATE_BACKUP, CRC_SUCCESS, CRC_ERROR, CRC_FAILURE}
    requires Run(env, Begin(info), t + [e]).Some?
    ensures var now := Run(env, Begin(info), t).value.info;
            exists i, key ::
              && DeliveredAt(env, now, t, i, key) && m.userId == now.id
              && (m.code == CREATE_BACKUP ==> |key| == KEY_LEN && IsPacket(env, now.id, key, m))
  {
    hide Run;
    RunSnoc(env, Begin(info), t, e);
    BackupRestsOnDelivery(env, info, t);
    var s := Run(env, Begin(info), t).value;
    BackupPhase(env, s, m);
    var i :| DeliveredAt(env, s.info, t, i, s.phase.key);
    BackupCodes(env, s.info.id, s.phase.key, m);
  }

  lemma BackupPhase(env: Env, s: Session, m: Requests.RequestMsg)
    requires m.code in {CREATE_BACKUP, CRC_SUCCESS, CRC_ERROR, CRC_FAILURE} && AfterSend(env, s, m).Some?
    ensures s.phase.Backup? && s.info.Keyed?
    ensures (|s.phase.key| == KEY_LEN && IsPacket(env, s.info.id, s.phase.key, m)) || IsStatus(s.info.id, m)
  {
  }

  // ---------------------------------------------------------------------------
  // The end of a session, and its bytes
  // ---------------------------------------------------------------------------

  /** After a disconnect request that was written in full nothing is sent or received any more. */
  lemma {:induction false} NothingAfterDisconnect(env: Env, s: Session, t: seq<Event>)
    requires s.phase.Closed? && Run(env, s, t).Some?
    ensures |t| <= 1 && forall i :: 0 <= i < |t| ==> t[i].RemovedAesKey?
    ensures Run(env, s, t).value.phase.Closed? <==> t == []
    ensures Run(env, s, t).value.phase.Closed? || Run(env, s, t).value.phase.Done?
    decreases |t|
  {
    hide IsPacket, IsStatus;
    if t != [] {
      NothingAfterDisconnect(env, s, t[..|t| - 1]);
    }
  }

  /** The requests that went out in full, in order. */
  function Messages(t: seq<Event>): seq<Requests.RequestMsg> {
    if t == [] then []
    else Messages(t[..|t| - 1]) + if t[|t| - 1].Sent? then [t[|t| - 1].m] else []
  }

  lemma RequestIsHonest(env: Env, s: Session, m: Requests.RequestMsg)
    requires AfterSend(env, s, m).Some? && m != Requests.DISCONNECT_MSG
    ensures m.Valid() && m.Honest()
  {
    hide Uploads.PacketMsg;
    if s.phase.Backup? && |s.phase.key| == KEY_LEN && IsPacket(env, s.info.id, s.phase.key, m) {
      PacketIsHonest(env, s.info.id, s.phase.key, m);
    }
  }

  lemma PacketIsHonest(env: Env, id: UserId, key: Key, m: Requests.RequestMsg)
    requires IsPacket(env, id, key, m)
    ensures m.Valid() && m.Honest()
  {
    hide Uploads.PacketMsg, Encrypt;
    var name :| IsPacketOf(env, id, key, name, m);
    var at: nat, p: nat :| IsPacketAt(env, id, key, name, at, p, m);
    var data := env.fileAt(name, at).data;
    EnvelopeOf(env, key, env.ivAt(at + 1), data);
    Uploads.PacketContents(id, name, |data|, Encrypt(env.cipher, key, env.ivAt(at + 1), data), p);
  }

  /**
   * As long as no send broke and the session was not left, the bytes on the wire are the stream of the
   * requests sent, all of them honest, so that a receiver gets back exactly those requests.
   */
  lemma {:induction false} SessionStream(t: seq<Event>)
    requires Unbroken(t)
    ensures OutBytes(t) == Requests.StreamOf(Messages(t))
    decreases |t|
  {
    hide Requests.Wire, Requests.StreamOf, Messages, OutBytes;
    if t == [] {
      NothingOnTheWire();
    } else {
      var init, e := t[..|t| - 1], t[|t| - 1];
      SessionStream(init);
      MessagesSnoc(init, e);
      OutBytesSnoc(init, e);
      assert t == init + [e];
      if e.Sent? {
        Requests.StreamOfConcat(Messages(init), [e.m]);
        Requests.StreamOfOne(e.m);
      } else {
        assert OutBytes(init) + [] == OutBytes(init);
      }
    }
  }

  lemma NothingOnTheWire()
    ensures OutBytes([]) == Requests.StreamOf(Messages([]))
  {
  }

  lemma MessagesSnoc(t: seq<Event>, e: Event)
    ensures Messages(t + [e]) == if e.Sent? then Messages(t) + [e.m] else Messages(t)
  {
    assert (t + [e])[..|t|] == t && Messages(t) + [] == Messages(t);
  }

  /** No send broke, and the session was not left. */
  ghost predicate Unbroken(t: seq<Event>) {
    forall i :: 0 <= i < |t| ==> !t[i].Broken? && !(t[i].Sent? && t[i].m == Requests.DISCONNECT_MSG)
  }

  ghost predicate AllHonest(ms: seq<Requests.RequestMsg>) {
    forall i :: 0 <= i < |ms| ==> ms[i].Valid() && ms[i].Honest()
  }

  /** All requests of a session that was not left are honest. */
  lemma {:induction false} SessionIsHonest(env: Env, info: Info, t: seq<Event>)
    requires Run(env, Begin(info), t).Some? && Unbroken(t)
    ensures AllHonest(Messages(t))
    decreases |t|
  {
    hide AfterSend, AfterGot, Messages, Requests.DISCONNECT_MSG;
    if t == [] {
      assert Messages(t) == [] by {
        NoMessages();
      }
    } else {
      var init, e := t[..|t| - 1], t[|t| - 1];
      SessionIsHonest(env, info, init);
      MessagesSnoc(init, e);
      assert t == init + [e];
      if e.Sent? {
        RequestIsHonest(env, Run(env, Begin(info), init).value, e.m);
      }
    }
  }

  lemma NoMessages()
    ensures Messages([]) == []
  {
  }

  lemma SessionIsDecodable(env: Env, info: Info, t: seq<Event>)
    requires Run(env, Begin(info), t).Some?
    requires Unbroken(t)
    ensures Requests.DecodeStream(OutBytes(t)) == Some(Messages(t))
  {
    hide Run, Messages, OutBytes, Requests.DecodeStream, Requests.StreamOf;
    SessionStream(t);
    SessionIsHonest(env, info, t);
    Requests.StreamRoundTrip(Messages(t));
  }

  // ---------------------------------------------------------------------------
  // What the automaton allows
  // ---------------------------------------------------------------------------

  /** Not yet at the end: a disconnect request may still be sent. */
  ghost predicate MayDisconnect(s: Session) {
    !s.phase.Closed? && !s.phase.Done?
  }

  lemma SendLeavesOpen(env: Env, s: Session, m: Requests.RequestMsg)
    requires AfterSend(env, s, m).Some?
    ensures MayDisconnect(s)
  {
    hide IsPacket, IsStatus;
  }

  lemma RegistrationAllowed(env: Env, username: Bytes)
    requires IsValidUsername(username)
    ensures AfterSend(env, Session(NoInfo, Start), Requests.RegistrationMsg(username))
         == Some(Session(NoInfo, Asked(username)))
  {
    ValidNamesFit(username);
  }

  lemma PublicKeyAllowed(env: Env, s: Session, m: Requests.RequestMsg)
    requires s.phase.KeySaved? && s.info.Keyed?
    requires m == Requests.PublicKeyMsg(s.info.id, s.info.username, env.publicOf(s.info.key))
    ensures AfterSend(env, s, m) == Some(s.(phase := AwaitKey(KEY_SEND_SUCCESS)))
  {
  }

  lemma ReRegistrationAllowed(env: Env, s: Session, m: Requests.RequestMsg)
    requires s.phase.Start? && s.info.Keyed? && m == Requests.ReRegistrationMsg(s.info.id, s.info.username)
    ensures AfterSend(env, s, m) == Some(s.(phase := AwaitKey(RE_REGISTRATION_SUCCESS)))
  {
  }

  /** In the backup phase the stored ID and key are those of the session. */
  lemma StoredSecrets(env: Env, d: Disk, s: Session)
    requires env.Sound() && Agrees(env, d, s) && s.phase.Backup?
    ensures s.info.Keyed?
    ensures StoredId(d) == Some(s.info.id)
    ensures StoredKey(d).Some? ==> StoredKey(d).value == s.phase.key
  {
    LoadedInfo(env, d, s.info);
    Credentials.LoadedAesKeyIsSaved(s.phase.key, env.wrapWidth);
  }

  lemma {:induction false} BackupEventsAccepted(env: Env, d: Disk, s: Session, t: seq<Event>)
    requires env.Sound() && Agrees(env, d, s) && s.phase.Backup? && AllBackup(env, d, t)
    ensures Run(env, s, t) == Some(s)
    decreases |t|
  {
    hide Agrees, Next, IsBackupEvent;
    if t != [] {
      var init, e := t[..|t| - 1], t[|t| - 1];
      assert IsBackupEvent(env, d, e);
      BackupEventsAccepted(env, d, s, init);
      BackupEventAccepted(env, d, s, e);
    }
  }

  lemma BackupEventAccepted(env: Env, d: Disk, s: Session, e: Event)
    requires env.Sound() && Agrees(env, d, s) && s.phase.Backup? && IsBackupEvent(env, d, e)
    ensures Next(env, s, e) == Some(s)
  {
    hide IsPacket, IsStatus, StoredId, StoredKey, Agrees;
    StoredSecrets(env, d, s);
    if e.Sent? || e.Broken? {
      BackupRequestAccepted(env, s, e.m);
    }
  }

  lemma BackupRequestAccepted(env: Env, s: Session, m: Requests.RequestMsg)
    requires s.phase.Backup? && s.info.Keyed?
    requires (|s.phase.key| == 32 && IsPacket(env, s.info.id, s.phase.key, m))
             || IsStatus(s.info.id, m)
    ensures AfterSend(env, s, m) == Some(s)
  {
    hide IsPacket, IsStatus;
    BackupCodes(env, s.info.id, s.phase.key, m);
  }
}
