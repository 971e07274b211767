/**
 * Whole runs of the program: how they end, what they leave on disk, which stored identities can still get in,
 * and that any sequence of runs, each cut off anywhere, is a history of the session automaton.
 */
module Programs {
  import opened Binary
  import opened Protocol
  import opened Hosts
  import opened Sessions
  import opened Flows
  import opened Backups
  import opened BackupProperties
  import Aes
  import Base64
  import Credentials
  import Hex
  import Requests
  import Responses
  import Uploads

  // ---------------------------------------------------------------------------
  // How the program ends
  // ---------------------------------------------------------------------------

  /**
   * That the AES key is gone when the program ends is false. The program is terminated before its clean-up
   * exactly if the session failed, the socket is still open, and the disconnect request breaks; exactly then
   * a key that is on disk stays there.
   */
  lemma ProgramEndsIff(env: Env, w: World, selection: Option<seq<Bytes>>)
    requires env.wrapWidth > 0
    ensures var (w1, ok) := Flows.Session(env, w, selection);
            var (w2, returned) := Program(env, w, selection);
            && (!returned <==> !ok && (w1.link.Unconnected? || (w1.link.Connected? && env.writeFault(w1.clock).Some?)))
            && (w2.disk.aesKey.Some? <==> !returned && w1.disk.aesKey.Some?)
            && w2.disk.meInfo == w1.disk.meInfo && w2.disk.privateKey == w1.disk.privateKey
            && (returned ==> w2.link.Shut?)
  {
    hide Flows.Session, Requests.Wire;
    if Flows.Session(env, w, selection).1 {
      SuccessShuts(env, w, selection);
    }
  }

  /** A session that succeeds has left. */
  lemma SuccessShuts(env: Env, w: World, selection: Option<seq<Bytes>>)
    requires env.wrapWidth > 0 && Flows.Session(env, w, selection).1
    ensures Flows.Session(env, w, selection).0.link.Shut?
  {
    hide Enter, BackUp, Requests.Wire;
  }

  /**
   * Leaving quietly after a failed connection attempt works exactly if the attempt left the socket closed. If it
   * left it open the disconnect request breaks before its first byte, and the program is terminated.
   */
  lemma FailedConnection(env: Env, w: World, selection: Option<seq<Bytes>>)
    requires env.wrapWidth > 0 && !env.connection(w.clock).Connected?
    ensures var (w', returned) := Program(env, w, selection);
            && (returned <==> env.connection(w.clock).Shut?)
            && (!returned ==> w'.disk == w.disk && w'.log == w.log + [Broken(Requests.DISCONNECT_MSG, 0)])
  {
    Requests.WireLength(Requests.DISCONNECT_MSG);
  }

  /**
   * A cancelled selection of files: the session fails after the client was let in, nothing is backed up, and only
   * the disconnect request and, if it goes out, the removal of the AES key follow.
   */
  lemma CancelledSelection(env: Env, w: World)
    requires env.wrapWidth > 0 && env.connection(w.clock).Connected?
    ensures var (w1, _) := Enter(env, w.(link := Connected));
            var (w2, returned) := Program(env, w, None);
            && Flows.Session(env, w, None) == (w1, false) && w1.link.Connected?
            && (returned <==> env.writeFault(w1.clock).None?)
            && (returned ==>
                  w2.log == w1.log + [Sent(Requests.DISCONNECT_MSG)]
                            + if w1.disk.aesKey.Some? then [RemovedAesKey] else [])
            && (!returned ==> |w2.log| == |w1.log| + 1 && w2.log[..|w1.log|] == w1.log
                              && w2.log[|w1.log|].Broken? && w2.log[|w1.log|].m == Requests.DISCONNECT_MSG)
  {
    hide Enter, Requests.Wire;
    EnterKeepsLink(env, w.(link := Connected));
  }

  lemma EnterKeepsLink(env: Env, w: World)
    requires env.wrapWidth > 0
    ensures Enter(env, w).0.link == w.link
  {
    hide Flows.KeyResponse, Flows.Register, Requests.Wire;
    RegisterKeepsLink(env, w);
    forall w1: World, code, key { KeyResponseKeepsLink(env, w1, code, key); }
  }

  lemma KeyResponseKeepsLink(env: Env, w: World, code: Word16, key: Bytes)
    requires env.wrapWidth > 0
    ensures Flows.KeyResponse(env, w, code, key).0.link == w.link
  {
    hide Receive;
  }

  lemma {:induction false} RegisterKeepsLink(env: Env, w: World)
    requires env.wrapWidth > 0
    ensures Flows.Register(env, w).0.link == w.link
    decreases |w.inputs|
  {
    hide Flows.KeyResponse, Receive, Requests.Wire, Requests.RegistrationMsg, Flows.Prompted;
    var (username, rest) := Flows.Prompted(w.inputs);
    if username.Some? {
      var w3 := ReceiveFrom(SendTo(env, w.(inputs := rest), Requests.RegistrationMsg(username.value)).0).0;
      RegisterKeepsLink(env, w3);
    }
    forall w1: World, code, key { KeyResponseKeepsLink(env, w1, code, key); }
  }

  /** The first packet of the first file breaks. */
  lemma FirstPacketBreaks(env: Env, w: World, a: Auth, id: UserId, key: Aes.Key, name: Bytes, data: Bytes)
    requires IsValidFilename(name) && |data| <= MAX_FILE_SIZE
    requires env.fileAt(name, w.clock) == env.fileAt(name, w.clock + 1) == Content(data)
    requires StoredId(w.disk) == Some(id) && Credentials.AesKeyIn(w.disk.aesKey) == Some(key)
    requires w.link.Connected? && env.writeFault(w.clock + 3).Some?
    ensures var (w1, _, completed) := BackupAll(env, w, a, [name]);
            !completed && w1.disk == w.disk && w1.link == w.link && w1.clock == w.clock + 4
  {
    hide Upload, IsValidFilename, StoredId, Credentials.AesKeyIn;
    UploadBreaks(env, Looked(w), a, id, key, name, data);
    assert [name][1..] == [];
  }

  lemma UploadBreaks(env: Env, w: World, a: Auth, id: UserId, key: Aes.Key, name: Bytes, data: Bytes)
    requires |data| <= MAX_FILE_SIZE && env.fileAt(name, w.clock) == Content(data)
    requires StoredId(w.disk) == Some(id) && Credentials.AesKeyIn(w.disk.aesKey) == Some(key)
    requires w.link.Connected? && env.writeFault(w.clock + 2).Some?
    ensures var (w1, a1, u) := Upload(env, w, a, name);
            u == NotUploaded(Fatal) && w1.disk == w.disk && w1.link == w.link && w1.clock == w.clock + 3
  {
    hide Aes.Encrypt, Uploads.PacketMsgs, StoredId, Credentials.AesKeyIn, SendTo, Uploads.PacketCount;
    var (w1, p) := Prepare(env, w, name);
    var cipher := Aes.Encrypt(env.cipher, key, p.iv, data);
    Uploads.PacketCountBounds(|cipher|, Uploads.ChunkSize(|data|));
    FirstSendBreaks(env, w1, Uploads.PacketMsgs(id, name, |data|, cipher));
  }

  lemma FirstSendBreaks(env: Env, w: World, ms: seq<Requests.RequestMsg>)
    requires ms != [] && w.link.Connected? && env.writeFault(w.clock).Some?
    ensures var (w1, ok) := SendAll(env, w, ms);
            !ok && w1.disk == w.disk && w1.link == w.link && w1.clock == w.clock + 1
  {
    hide Requests.Wire;
  }

  /** A key was delivered and stored, then a packet breaks, then the disconnect request: the key stays. */
  lemma KeyLeftBehind(env: Env, w: World, info: Info, grant: Responses.ResponseMsg, key: Aes.Key, name: Bytes,
                      data: Bytes)
    requires env.Sound() && env.connection(w.clock).Connected?
    requires info.Valid() && info.Keyed? && w.disk.meInfo == info.Render(env.wrapWidth)
    requires Receive(w.incoming).0 == Reply(grant) && grant.code == RE_REGISTRATION_SUCCESS
    requires grant.userId == info.id && env.rsaDecrypt(info.key, grant.aesKey) == Some(key)
    requires IsValidFilename(name) && |data| <= MAX_FILE_SIZE
    requires env.fileAt(name, w.clock + 2) == env.fileAt(name, w.clock + 3) == Content(data)
    requires env.writeFault(w.clock).None? && !env.diskFault(w.clock + 1)
    requires env.writeFault(w.clock + 5).Some? && env.writeFault(w.clock + 6).Some?
    ensures var (w', returned) := Program(env, w, Some([name]));
            && !returned && w'.link.Connected?
            && w'.disk == w.disk.(aesKey := Some(Base64.EncodeLines(key, env.wrapWidth)))
  {
    hide Receive, Enter, BackupAll, SendTo, Requests.ReRegistrationMsg, Requests.Wire, Base64.EncodeLines, StoredId,
         IsValidFilename, Credentials.AesKeyIn;
    var w1 := w.(link := Connected);
    ReRegistrationIff(env, w1, info);
    var w2 := Enter(env, w1).0;
    LoadedInfo(env, w2.disk, info);
    Credentials.AesKeySurvives(key, env.wrapWidth);
    FirstPacketBreaks(env, w2, NEW_AUTH, info.id, key, name, data);
    ProgramEndsIff(env, w, Some([name]));
    BrokenLeave(env, BackupAll(env, w2, NEW_AUTH, [name]).0);
  }

  lemma BrokenLeave(env: Env, w: World)
    requires w.link.Connected? && env.writeFault(w.clock).Some?
    ensures var (w1, left) := Leave(env, w); !left && w1.disk == w.disk && w1.link == w.link
  {
    hide Requests.Wire;
  }

  /** An environment in which only the write at time 0 succeeds, and every file is empty. */
  function OneWrite(): (env: Env)
    ensures env.wrapWidth == 72 && env.connection(0).Connected? && !env.diskFault(1)
    ensures env.writeFault(0).None? && env.writeFault(5).Some? && env.writeFault(6).Some?
    ensures forall name, t :: env.fileAt(name, t) == Content([])
    ensures forall key, text :: env.rsaDecrypt(key, text) == Some(Zeros(32))
  {
    Env(t => Connected, (n, t) => Content([]), t => if t == 0 then None else Some(0), t => false, t => Zeros(16),
        t => [1], k => Zeros(160), (k, text) => Some(Zeros(32)), Aes.BlockCipher((k, b) => b, (k, b) => b), 72)
  }

  lemma OneWriteIsSound()
    ensures OneWrite().Sound()
  {
    assert forall t: nat :: OneWrite().newPrivateKey(t) == [1];
  }

  /** There is a run that leaves the key behind. */
  lemma LeftoverKeyExists() returns (w: World, name: Bytes)
    ensures w.disk.aesKey.None?
    ensures var (w', returned) := Program(OneWrite(), w, Some([name]));
            !returned && w'.disk.aesKey == Some(Base64.EncodeLines(Zeros(32), 72))
  {
    hide Program, OneWrite, Responses.Wire, Base64.EncodeLines, Credentials.IdentityLines, Receive;
    var username := SomeUsername();
    var info := Keyed(username, Zeros(16), [1]);
    var grant := KeyReply(RE_REGISTRATION_SUCCESS, Zeros(16), []);
    name := [97];
    w := World(Responses.Wire(grant), [], 0, Disk(info.Render(72), None, None), Shut, []);
    ReceiveOne(grant, []);
    assert Responses.Wire(grant) + [] == Responses.Wire(grant);
    var env := OneWrite();
    OneWriteIsSound();
    KeyLeftBehind(env, w, info, grant, Zeros(32), name, []);
  }

  // ---------------------------------------------------------------------------
  // Which stored identities can still get in
  // ---------------------------------------------------------------------------

  predicate EntersWith(env: Env, w: World, incoming: Bytes, inputs: seq<Bytes>)
    requires env.wrapWidth > 0
  {
    Enter(env, w.(incoming := incoming, inputs := inputs)).1
  }

  /** With some server and some input the client would get in. */
  ghost predicate CanEnter(env: Env, w: World)
    requires env.wrapWidth > 0
  {
    exists incoming, inputs :: EntersWith(env, w, incoming, inputs)
  }

  predicate Decrypts(env: Env, key: Bytes, text: Bytes) {
    |text| < 0x1_0000 && env.rsaDecrypt(key, text).Some?
  }

  ghost predicate DecryptsSome(env: Env, key: Bytes) {
    exists text :: Decrypts(env, key, text)
  }

  /** Every private key decrypts some text that fits into a response. */
  ghost predicate KeysDecrypt(env: Env) {
    forall key :: key != [] ==> DecryptsSome(env, key)
  }

  /** A well-formed response with an encrypted AES key. */
  function KeyReply(code: Word16, id: UserId, text: Bytes): (m: Responses.ResponseMsg)
    requires |text| < 0x1_0000
    ensures m.WellFormed() && m.code == code && m.userId == id && m.aesKey == text
  {
    Responses.ResponseMsg(3, code, 279 + |text|, id, text, 0, Zeros(255), 0)
  }

  lemma KeyedCanEnter(env: Env, w: World, info: Info)
    requires Calm(env, w) && KeysDecrypt(env)
    requires info.Valid() && info.Keyed? && w.disk.meInfo == info.Render(env.wrapWidth)
    ensures CanEnter(env, w)
  {
    hide Enter, Receive, Responses.Wire;
    assert DecryptsSome(env, info.key);
    var text :| Decrypts(env, info.key, text);
    var grant := KeyReply(RE_REGISTRATION_SUCCESS, info.id, text);
    var w1 := w.(incoming := Responses.Wire(grant), inputs := []);
    ReceiveOne(grant, []);
    assert Responses.Wire(grant) + [] == Responses.Wire(grant);
    ReRegistrationIff(env, w1, info);
    assert EntersWith(env, w, w1.incoming, w1.inputs);
  }

  lemma NewCanEnter(env: Env, w: World)
    requires Calm(env, w) && KeysDecrypt(env) && w.disk.meInfo.None?
    ensures CanEnter(env, w)
  {
    hide Receive, Responses.Wire, KeyReply, CanEnter, IsValidUsername, EntersWith;
    assert DecryptsSome(env, env.newPrivateKey(w.clock + 2));
    var text :| Decrypts(env, env.newPrivateKey(w.clock + 2), text);
    var grant, last := KeyReply(REGISTRATION_SUCCESS, Zeros(16), []), KeyReply(KEY_SEND_SUCCESS, Zeros(16), text);
    var username := SomeUsername();
    var after := Responses.Wire(last) + [];
    ReceiveOne(grant, after);
    ReceiveOne(last, []);
    NewEnters(env, w, Responses.Wire(grant) + after, after, username, grant, last);
  }

  lemma SomeUsername() returns (username: Bytes)
    ensures IsValidUsername(username)
  {
    username := [97, 108, 105, 99, 101];
  }

  lemma NewEnters(env: Env, w: World, incoming: Bytes, after: Bytes, username: Bytes, grant: Responses.ResponseMsg,
                  last: Responses.ResponseMsg)
    requires Calm(env, w) && w.disk.meInfo.None? && IsValidUsername(username)
    requires Receive(incoming) == (Reply(grant), after) && grant.code == REGISTRATION_SUCCESS
    requires BringsKey(env, Receive(after).0, KEY_SEND_SUCCESS, grant.userId, env.newPrivateKey(w.clock + 2))
    ensures CanEnter(env, w)
  {
    hide Receive, IsValidUsername, BringsKey, RegisteredDisk, GrantedName, Register;
    var w1 := w.(incoming := incoming, inputs := [username]);
    assert w1.inputs == [username] + [];
    FreeNameSucceeds(env, w1, username, []);
    assert EntersWith(env, w, incoming, [username]);
  }

  /**
   * That an interrupted registration can be taken up again is false. With nothing in the way some server and
   * some input let the next session in exactly if `me.info` does not hold the two lines alone.
   */
  lemma CanEnterIff(env: Env, w: World, info: Info)
    requires Calm(env, w) && KeysDecrypt(env) && info.Valid() && w.disk.meInfo == info.Render(env.wrapWidth)
    ensures CanEnter(env, w) <==> !info.TwoLine?
  {
    hide Enter;
    match info
    case NoInfo => NewCanEnter(env, w);
    case Keyed(_, _, _) => KeyedCanEnter(env, w, info);
    case TwoLine(_, _) =>
      forall incoming, inputs ensures !EntersWith(env, w, incoming, inputs)
      {
        TwoLinesEnterNothing(env, w.(incoming := incoming, inputs := inputs), info);
      }
  }

  /** A registration that is cut off after its first durable write leaves two lines: a history reaches them. */
  lemma InterruptedRegistration(env: Env, username: Bytes, grant: Responses.ResponseMsg)
    requires IsValidUsername(username) && grant.code == REGISTRATION_SUCCESS
    ensures var h := [[Sent(Requests.RegistrationMsg(username)), Got(grant), SavedInfo(username, grant.userId)]];
            IsHistory(env, h) && InfoAfter(env, h) == TwoLine(username, grant.userId)
  {
    hide Run, Next, Requests.RegistrationMsg;
    var m, saved := Requests.RegistrationMsg(username), SavedInfo(username, grant.userId);
    RegistrationAllowed(env, username);
    var t := [Sent(m), Got(grant), saved];
    assert t == [] + [Sent(m)] + [Got(grant)] + [saved];
    RunSnoc(env, Begin(NoInfo), [], Sent(m));
    RunSnoc(env, Begin(NoInfo), [] + [Sent(m)], Got(grant));
    RunSnoc(env, Begin(NoInfo), [] + [Sent(m)] + [Got(grant)], saved);
    RegistrationSteps(env, username, m, grant);
    NoHistory(env);
    HistorySnoc(env, [], t);
    assert [] + [t] == [t];
  }

  lemma RegistrationSteps(env: Env, username: Bytes, m: Requests.RequestMsg, grant: Responses.ResponseMsg)
    requires grant.code == REGISTRATION_SUCCESS
    requires AfterSend(env, Begin(NoInfo), m) == Some(Session(NoInfo, Asked(username)))
    ensures Run(env, Begin(NoInfo), []) == Some(Begin(NoInfo))
    ensures Next(env, Begin(NoInfo), Sent(m)) == Some(Session(NoInfo, Asked(username)))
    ensures Next(env, Session(NoInfo, Asked(username)), Got(grant))
         == Some(Session(NoInfo, Granted(username, grant.userId)))
    ensures Next(env, Session(NoInfo, Granted(username, grant.userId)), SavedInfo(username, grant.userId))
         == Some(Session(TwoLine(username, grant.userId), Identified))
  {
    hide AfterSend;
  }

  lemma NoHistory(env: Env)
    ensures IsHistory(env, []) && InfoAfter(env, []) == NoInfo
  {
  }

  /** So does one whose second write finds the file locked, without any crash. */
  lemma FaultAtTheAppend(env: Env, w: World, username: Bytes, more: seq<Bytes>, grant: Responses.ResponseMsg)
    requires env.Sound() && w.link.Connected? && w.disk.meInfo.None?
    requires w.inputs == [username] + more && IsValidUsername(username)
    requires Receive(w.incoming).0 == Reply(grant) && grant.code == REGISTRATION_SUCCESS
    requires env.writeFault(w.clock).None? && !env.diskFault(w.clock + 1) && env.diskFault(w.clock + 3)
    ensures var (w1, ok) := Enter(env, w);
            !ok && w1.disk.meInfo == TwoLine(username, grant.userId).Render(env.wrapWidth)
  {
    hide Receive, SendTo, Base64.EncodeLines, Credentials.IdentityLines, Requests.RegistrationMsg, StoredId,
         Credentials.UsernameIn;
    assert (w.inputs[0], w.inputs[1..]) == (username, more);
    var w1 := w.(inputs := more);
    CalmSend(env, w1, Requests.RegistrationMsg(username));
    var w2 := SendTo(env, w1, Requests.RegistrationMsg(username)).0;
    CalmChange(env, ReceiveFrom(w2).0, SavedInfo(username, grant.userId));
  }

  // ---------------------------------------------------------------------------
  // Every run follows the automaton
  // ---------------------------------------------------------------------------

  /** From `w` to `w'` these events happened, the automaton accepts them, and the files are what they made them. */
  ghost predicate Leads(env: Env, w: World, s: Sessions.Session, t: seq<Event>, w': World, s': Sessions.Session)
    requires env.wrapWidth > 0
  {
    w'.log == w.log + t && Run(env, s, t) == Some(s') && w'.disk == Replay(w.disk, t, env.wrapWidth)
  }

  lemma LeadsNowhere(env: Env, w: World, w': World, s: Sessions.Session)
    requires env.wrapWidth > 0 && w'.log == w.log && w'.disk == w.disk
    ensures Leads(env, w, s, [], w', s)
  {
    assert w.log + [] == w.log;
  }

  lemma LeadsOn(env: Env, w: World, s: Sessions.Session, t: seq<Event>, w1: World, s1: Sessions.Session, u: seq<Event>,
                w2: World, s2: Sessions.Session)
    requires env.wrapWidth > 0 && Leads(env, w, s, t, w1, s1) && Leads(env, w1, s1, u, w2, s2)
    ensures Leads(env, w, s, t + u, w2, s2)
  {
    hide Run, Replay;
    RunConcat(env, s, t, u);
    ReplayConcat(w.disk, t, u, env.wrapWidth);
    Associate(w.log, t, u);
  }

  lemma LeadsByOne(env: Env, w: World, s: Sessions.Session, e: Event, w': World)
    requires env.wrapWidth > 0 && Next(env, s, e).Some? && w'.log == w.log + [e]
    requires w'.disk == Apply(w.disk, e, env.wrapWidth)
    ensures Leads(env, w, s, [e], w', Next(env, s, e).value)
  {
    hide Next, Apply;
    assert [e][..0] == [];
    assert Run(env, s, []) == Some(s);
    assert Replay(w.disk, [], env.wrapWidth) == w.disk;
  }

  /** The files still agree where the run has led. */
  lemma LeadsToAgreement(env: Env, w: World, s: Sessions.Session, t: seq<Event>, w': World, s': Sessions.Session)
    requires env.wrapWidth > 0 && Agrees(env, w.disk, s) && Leads(env, w, s, t, w', s')
    ensures Agrees(env, w'.disk, s')
  {
    hide Agrees, Run, Replay;
    RunAgrees(env, w.disk, s, t);
  }

  lemma SendLeads(env: Env, w: World, s: Sessions.Session, m: Requests.RequestMsg)
    returns (t: seq<Event>, s': Sessions.Session)
    requires env.wrapWidth > 0 && AfterSend(env, s, m).Some?
    ensures var (w', ok) := SendTo(env, w, m);
            && Leads(env, w, s, t, w', s') && (ok ==> Some(s') == AfterSend(env, s, m))
            && (!ok ==> MayDisconnect(s')) && w'.link == w.link && w'.disk == w.disk && w'.inputs == w.inputs
  {
    hide SendTo, AfterSend;
    var e := SendEvent(env, w, m);
    t, s' := [e], Next(env, s, e).value;
    SendLeavesOpen(env, s, m);
    LeadsByOne(env, w, s, e, SendTo(env, w, m).0);
  }

  lemma ReceiveLeads(env: Env, w: World, s: Sessions.Session) returns (t: seq<Event>, s': Sessions.Session)
    requires env.wrapWidth > 0 && (s.phase.Asked? || (s.phase.AwaitKey? && s.info.Keyed?))
    ensures var (w', r) := ReceiveFrom(w);
            && Leads(env, w, s, t, w', s') && (r.Reply? ==> Some(s') == AfterGot(env, s, r.m))
            && MayDisconnect(s') && w'.link == w.link && w'.disk == w.disk
  {
    hide Receive;
    var (w', r) := ReceiveFrom(w);
    var e := if r.Reply? then Got(r.m) else NoReply;
    t, s' := [e], Next(env, s, e).value;
    LeadsByOne(env, w, s, e, w');
  }

  lemma ChangeLeads(env: Env, w: World, s: Sessions.Session, e: Event) returns (t: seq<Event>, s': Sessions.Session)
    requires env.wrapWidth > 0 && Next(env, s, e).Some?
    ensures var (w', ok) := Change(env, w, e);
            && Leads(env, w, s, t, w', s') && w'.link == w.link
            && s' == (if ok then Next(env, s, e).value else s)
  {
    hide Next, Apply, Leads;
    var (w', ok) := Change(env, w, e);
    if ok {
      t, s' := [e], Next(env, s, e).value;
      LeadsByOne(env, w, s, e, w');
    } else {
      t, s' := [], s;
      LeadsNowhere(env, w, w', s);
    }
  }

  /** The session knows the key, and may leave at any time. */
  ghost predicate Entered(ok: bool, s: Sessions.Session) {
    MayDisconnect(s) && (ok ==> s.phase.Backup?)
  }

  lemma KeyResponseLeads(env: Env, w: World, s: Sessions.Session, code: Word16)
    returns (t: seq<Event>, s': Sessions.Session)
    requires env.Sound() && Agrees(env, w.disk, s) && s.phase == AwaitKey(code) && s.info.Keyed?
    ensures var (w', ok) := KeyResponse(env, w, code, s.info.key);
            Leads(env, w, s, t, w', s') && Entered(ok, s') && w'.link == w.link
  {
    hide Receive, Leads, Run, Agrees, Credentials.UserIdIn, Hex.HexOf, Change, StoredId, Credentials.UsernameIn,
         Credentials.PrivateKeyIn, Base64.Encode, Base64.Decode, Hex.Unhex, Info.Render;
    InfoAgrees(env, w.disk, s);
    LoadedInfo(env, w.disk, s.info);
    t, s' := ReceiveLeads(env, w, s);
    var (w1, r) := ReceiveFrom(w);
    if r.Reply? {
      Hex.HexIdentity(r.m.userId, s.info.id);
      if s'.phase.KeyReceived? {
        var u, s2 := ChangeLeads(env, w1, s', SavedAesKey(s'.phase.key));
        LeadsOn(env, w, s, t, w1, s', u, Change(env, w1, SavedAesKey(s'.phase.key)).0, s2);
        t, s' := t + u, s2;
      } else if s'.phase.Revoked? {
        var u, s2 := ChangeLeads(env, w1, s', RemovedInfo);
        LeadsOn(env, w, s, t, w1, s', u, Change(env, w1, RemovedInfo).0, s2);
        t, s' := t + u, s2;
      }
    }
  }

  lemma InfoAgrees(env: Env, d: Disk, s: Sessions.Session)
    requires env.wrapWidth > 0 && Agrees(env, d, s)
    ensures s.info.Valid() && d.meInfo == s.info.Render(env.wrapWidth)
  {
  }

  lemma KeyExchangeLeads(env: Env, w: World, s: Sessions.Session) returns (t: seq<Event>, s': Sessions.Session)
    requires env.Sound() && Agrees(env, w.disk, s) && s.phase.Identified? && s.info.TwoLine?
    ensures var (w', ok) := KeyExchange(env, w);
            Leads(env, w, s, t, w', s') && Entered(ok, s') && w'.link == w.link
  {
    hide Leads, Run, Agrees, KeyResponse, SendPublicKey;
    var w0 := w.(clock := w.clock + 1);
    var privateKey := env.newPrivateKey(w.clock);
    t, s' := PublicKeyLeads(env, w0, s, privateKey);
    var (w1, sent) := SendPublicKey(env, w0, privateKey);
    SameStart(env, w, w0, s, t, w1, s');
    if sent {
      LeadsToAgreement(env, w, s, t, w1, s');
      var u, s2 := KeyResponseLeads(env, w1, s', KEY_SEND_SUCCESS);
      LeadsOn(env, w, s, t, w1, s', u, KeyResponse(env, w1, KEY_SEND_SUCCESS, privateKey).0, s2);
      t, s' := t + u, s2;
    }
  }

  lemma SameStart(env: Env, w: World, w0: World, s: Sessions.Session, t: seq<Event>, w': World, s': Sessions.Session)
    requires env.wrapWidth > 0 && w0.log == w.log && w0.disk == w.disk && Leads(env, w0, s, t, w', s')
    ensures Leads(env, w, s, t, w', s')
  {
  }

  lemma PublicKeyLeads(env: Env, w: World, s: Sessions.Session, privateKey: Bytes)
    returns (t: seq<Event>, s': Sessions.Session)
    requires env.Sound() && Agrees(env, w.disk, s) && s.phase.Identified? && s.info.TwoLine? && privateKey != []
    ensures var (w', ok) := SendPublicKey(env, w, privateKey);
            && Leads(env, w, s, t, w', s') && MayDisconnect(s') && w'.link == w.link
            && (ok ==> s'.phase == AwaitKey(KEY_SEND_SUCCESS) && s'.info.Keyed? && s'.info.key == privateKey)
  {
    hide Leads, Run, Agrees, Change, SendTo, StoredId, Credentials.UsernameIn, Requests.PublicKeyMsg, AfterSend;
    InfoAgrees(env, w.disk, s);
    LoadedInfo(env, w.disk, s.info);
    t, s' := ChangeLeads(env, w, s, AppendedKey(privateKey));
    var (w1, appended) := Change(env, w, AppendedKey(privateKey));
    if appended {
      var u, s2 := ChangeLeads(env, w1, s', SavedPrivateKey(privateKey));
      var (w2, saved) := Change(env, w1, SavedPrivateKey(privateKey));
      LeadsOn(env, w, s, t, w1, s', u, w2, s2);
      t, s' := t + u, s2;
      if saved {
        var m := Requests.PublicKeyMsg(s.info.id, s.info.username, env.publicOf(privateKey));
        PublicKeyAllowed(env, s', m);
        var v, s3 := SendLeads(env, w2, s', m);
        LeadsOn(env, w, s, t, w2, s', v, SendTo(env, w2, m).0, s3);
        t, s' := t + v, s3;
      }
    }
  }

  lemma {:induction false} RegisterLeads(env: Env, w: World) returns (t: seq<Event>, s': Sessions.Session)
    requires env.Sound() && Agrees(env, w.disk, Begin(NoInfo))
    ensures var (w', ok) := Register(env, w);
            Leads(env, w, Begin(NoInfo), t, w', s') && Entered(ok, s') && w'.link == w.link
    decreases |w.inputs|
  {
    hide Leads, Run, Agrees, Change, SendTo, KeyExchange, Prompted, Requests.RegistrationMsg, AfterSend, Receive;
    var (username, rest) := Prompted(w.inputs);
    var w1, s := w.(inputs := rest), Begin(NoInfo);
    if username.None? {
      t, s' := [], s;
      LeadsNowhere(env, w, w1, s);
    } else {
      var m := Requests.RegistrationMsg(username.value);
      RegistrationAllowed(env, username.value);
      t, s' := SendLeads(env, w1, s, m);
      var (w2, sent) := SendTo(env, w1, m);
      SameStart(env, w, w1, s, t, w2, s');
      if sent {
        var u, s3 := ReceiveLeads(env, w2, s');
        var (w3, r) := ReceiveFrom(w2);
        LeadsOn(env, w, s, t, w2, s', u, w3, s3);
        t, s' := t + u, s3;
        if r.Reply? {
          if r.m.code == USERNAME_TAKEN {
            assert w3.inputs == rest;
            LeadsToAgreement(env, w, s, t, w3, s');
            var v, s4 := RegisterLeads(env, w3);
            LeadsOn(env, w, s, t, w3, s', v, Register(env, w3).0, s4);
            t, s' := t + v, s4;
          } else if r.m.code == REGISTRATION_SUCCESS {
            LeadsToAgreement(env, w, s, t, w3, s');
            var v, s4 := GrantLeads(env, w3, s', username.value, r.m.userId);
            LeadsOn(env, w, s, t, w3, s', v, Register(env, w).0, s4);
            t, s' := t + v, s4;
          }
        }
      }
    }
  }

  /** From the granted name on: the first durable write, then the key exchange. */
  lemma GrantLeads(env: Env, w: World, s: Sessions.Session, username: Bytes, id: UserId)
    returns (t: seq<Event>, s': Sessions.Session)
    requires env.Sound() && s == Sessions.Session(NoInfo, Granted(username, id)) && Agrees(env, w.disk, s)
    ensures var (w1, saved) := Change(env, w, SavedInfo(username, id));
            var (w', ok) := if saved then KeyExchange(env, w1) else (w1, false);
            Leads(env, w, s, t, w', s') && Entered(ok, s') && w'.link == w.link
  {
    hide Leads, Run, Agrees, Change, KeyExchange;
    t, s' := ChangeLeads(env, w, s, SavedInfo(username, id));
    var (w1, saved) := Change(env, w, SavedInfo(username, id));
    if saved {
      LeadsToAgreement(env, w, s, t, w1, s');
      var u, s2 := KeyExchangeLeads(env, w1, s');
      LeadsOn(env, w, s, t, w1, s', u, KeyExchange(env, w1).0, s2);
      t, s' := t + u, s2;
    }
  }

  lemma ReRegisterLeads(env: Env, w: World, info: Info) returns (t: seq<Event>, s': Sessions.Session)
    requires env.Sound() && Agrees(env, w.disk, Begin(info)) && info.Keyed?
    ensures var (w', ok) := ReRegister(env, w);
            Leads(env, w, Begin(info), t, w', s') && Entered(ok, s') && w'.link == w.link
  {
    hide Leads, Run, Agrees, SendTo, KeyResponse, StoredId, Credentials.UsernameIn, Credentials.PrivateKeyIn,
         Base64.Decode, Base64.Encode, Requests.ReRegistrationMsg, AfterSend;
    var s := Begin(info);
    InfoAgrees(env, w.disk, s);
    LoadedInfo(env, w.disk, info);
    var m := Requests.ReRegistrationMsg(info.id, info.username);
    ReRegistrationAllowed(env, s, m);
    t, s' := SendLeads(env, w, s, m);
    var (w1, sent) := SendTo(env, w, m);
    if sent {
      LeadsToAgreement(env, w, s, t, w1, s');
      var u, s2 := KeyResponseLeads(env, w1, s', RE_REGISTRATION_SUCCESS);
      LeadsOn(env, w, s, t, w1, s', u, KeyResponse(env, w1, RE_REGISTRATION_SUCCESS, info.key).0, s2);
      t, s' := t + u, s2;
    }
  }

  lemma EnterLeads(env: Env, w: World, info: Info) returns (t: seq<Event>, s': Sessions.Session)
    requires env.Sound() && Agrees(env, w.disk, Begin(info))
    ensures var (w', ok) := Enter(env, w);
            Leads(env, w, Begin(info), t, w', s') && Entered(ok, s') && w'.link == w.link
  {
    hide Leads, Run, Agrees, Register, ReRegister;
    InfoAgrees(env, w.disk, Begin(info));
    LoadedInfo(env, w.disk, info);
    match info
    case NoInfo => t, s' := RegisterLeads(env, w);
    case Keyed(_, _, _) => t, s' := ReRegisterLeads(env, w, info);
    case TwoLine(_, _) =>
      TwoLinesEnterNothing(env, w, info);
      t, s' := [], Begin(info);
      LeadsNowhere(env, w, w, Begin(info));
  }

  lemma BackUpLeads(env: Env, w: World, s: Sessions.Session, selection: Option<seq<Bytes>>) returns (t: seq<Event>)
    requires env.Sound() && Agrees(env, w.disk, s) && s.phase.Backup?
    ensures var (w', ok) := BackUp(env, w, selection);
            Leads(env, w, s, t, w', s) && w'.link == w.link
  {
    hide Run, Agrees, BackupAll, IsLink, Concat, FieldsAfter;
    t := [];
    if selection.None? {
      LeadsNowhere(env, w, w, s);
    } else {
      var runs := BatchTrace(env, w, NEW_AUTH, selection.value);
      t := Concat(TracesOf(runs));
      BackupEventsAccepted(env, w.disk, s, t);
      BackupKeepsFiles(env, w.disk, t);
    }
  }

  lemma {:induction false} BackupKeepsFiles(env: Env, d: Disk, t: seq<Event>)
    requires env.wrapWidth > 0 && AllBackup(env, d, t)
    ensures Replay(d, t, env.wrapWidth) == d
    decreases |t|
  {
    hide IsPacket, IsStatus, StoredId, StoredKey;
    if t != [] {
      assert IsBackupEvent(env, d, t[|t| - 1]);
      BackupKeepsFiles(env, d, t[..|t| - 1]);
    }
  }

  lemma LeaveLeads(env: Env, w: World, s: Sessions.Session) returns (t: seq<Event>, s': Sessions.Session)
    requires env.wrapWidth > 0 && (!w.link.Shut? ==> MayDisconnect(s))
    ensures var (w', left) := Leave(env, w);
            && Leads(env, w, s, t, w', s') && w'.disk == w.disk
            && (w.link.Shut? ==> s' == s)
            && (!w.link.Shut? ==> if left then s'.phase.Closed? else MayDisconnect(s'))
  {
    hide Leads, Run, SendTo;
    if w.link.Shut? {
      t, s' := [], s;
      LeadsNowhere(env, w, w, s);
    } else {
      t, s' := SendLeads(env, w, s, Requests.DISCONNECT_MSG);
      var w1 := SendTo(env, w, Requests.DISCONNECT_MSG).0;
      SameEnd(env, w, s, t, w1, Leave(env, w).0, s');
    }
  }

  lemma SameEnd(env: Env, w: World, s: Sessions.Session, t: seq<Event>, w1: World, w': World, s': Sessions.Session)
    requires env.wrapWidth > 0 && w'.log == w1.log && w'.disk == w1.disk && Leads(env, w, s, t, w1, s')
    ensures Leads(env, w, s, t, w', s')
  {
  }

  /** Where a session may end: with the socket closed it said goodbye or never began. */
  ghost predicate SessionEnd(ok: bool, w: World, s: Sessions.Session) {
    && (!w.link.Shut? ==> MayDisconnect(s) && !ok)
    && (w.link.Shut? ==> if ok then s.phase.Closed? else s.phase.Start?)
  }

  lemma SessionLeads(env: Env, w: World, info: Info, selection: Option<seq<Bytes>>)
    returns (t: seq<Event>, s': Sessions.Session)
    requires env.Sound() && Agrees(env, w.disk, Begin(info))
    ensures var (w', ok) := Flows.Session(env, w, selection);
            Leads(env, w, Begin(info), t, w', s') && SessionEnd(ok, w', s')
  {
    hide Leads, Run, Agrees, Enter, BackUp, Leave;
    var s := Begin(info);
    var w1 := w.(link := env.connection(w.clock));
    if !w1.link.Connected? {
      t, s' := [], s;
      LeadsNowhere(env, w, w1, s);
    } else {
      t, s' := EnterLeads(env, w1, info);
      var (w2, entered) := Enter(env, w1);
      SameStart(env, w, w1, s, t, w2, s');
      if entered {
        LeadsToAgreement(env, w, s, t, w2, s');
        var u := BackUpLeads(env, w2, s', selection);
        var (w3, backedUp) := BackUp(env, w2, selection);
        LeadsOn(env, w, s, t, w2, s', u, w3, s');
        t := t + u;
        if backedUp {
          var v, s4 := LeaveLeads(env, w3, s');
          LeadsOn(env, w, s, t, w3, s', v, Leave(env, w3).0, s4);
          LeaveShuts(env, w3);
          t, s' := t + v, s4;
        }
      }
    }
  }

  lemma LeaveShuts(env: Env, w: World)
    requires !w.link.Shut?
    ensures var (w', left) := Leave(env, w); left <==> w'.link.Shut?
  {
    hide Requests.Wire;
  }

  /** Whatever happens, the events of a run of the program are accepted, and the files are what they made them. */
  lemma ProgramLeads(env: Env, w: World, info: Info, selection: Option<seq<Bytes>>)
    returns (t: seq<Event>, s': Sessions.Session)
    requires env.Sound() && Agrees(env, w.disk, Begin(info))
    ensures Leads(env, w, Begin(info), t, Program(env, w, selection).0, s')
  {
    hide Leads, Run, Agrees, Flows.Session, Leave, Change;
    var s := Begin(info);
    t, s' := SessionLeads(env, w, info, selection);
    var (w1, ok) := Flows.Session(env, w, selection);
    var (w2, left) := if ok then (w1, true) else Leave(env, w1);
    if !ok {
      var u, s2 := LeaveLeads(env, w1, s');
      LeadsOn(env, w, s, t, w1, s', u, w2, s2);
      t, s' := t + u, s2;
    }
    if left && w2.disk.aesKey.Some? {
      var u, s2 := ChangeLeads(env, w2, s', RemovedAesKey);
      LeadsOn(env, w, s, t, w2, s', u, Change(env, w2, RemovedAesKey).0, s2);
      t, s' := t + u, s2;
    }
  }

  /** The identity is what `me.info` holds. */
  ghost predicate MayStart(env: Env, w: World, info: Info) {
    env.Sound() && info.Valid() && w.disk.meInfo == info.Render(env.wrapWidth)
  }

  /** The events from `w` to `w'` are accepted by the automaton, and the files are what they made them. */
  ghost predicate Follows(env: Env, w: World, info: Info, w': World) {
    env.wrapWidth > 0 && exists t, s' :: Leads(env, w, Begin(info), t, w', s')
  }

  lemma ProgramFollows(env: Env, w: World, selection: Option<seq<Bytes>>)
    requires env.wrapWidth > 0
    ensures forall info :: MayStart(env, w, info) ==> Follows(env, w, info, Program(env, w, selection).0)
  {
    hide Program, Leads, Agrees;
    forall info | MayStart(env, w, info) ensures Follows(env, w, info, Program(env, w, selection).0) {
      BeginAgrees(env, w.disk, info);
      var t, s' := ProgramLeads(env, w, info, selection);
    }
  }

  // ---------------------------------------------------------------------------
  // Runs one after the other
  // ---------------------------------------------------------------------------

  /** One start of the program: what it meets, and after how many events it is cut off (if it gets so far). */
  datatype Visit = Visit(incoming: Bytes, inputs: seq<Bytes>, clock: nat, selection: Option<seq<Bytes>>, cut: nat)

  /** What a visit does before it is cut off, on these files. */
  function VisitEvents(env: Env, d: Disk, v: Visit): seq<Event>
    requires env.wrapWidth > 0
  {
    var log := Program(env, World(v.incoming, v.inputs, v.clock, d, Shut, []), v.selection).0.log;
    log[..Min(v.cut, |log|)]
  }

  /** The events of visits one after the other, each on the files the one before it left behind. */
  function Visits(env: Env, d: Disk, vs: seq<Visit>): History
    requires env.wrapWidth > 0
    decreases |vs|
  {
    if vs == [] then []
    else
      var h := Visits(env, d, vs[..|vs| - 1]);
      h + [VisitEvents(env, Replay(d, EventsOf(h), env.wrapWidth), vs[|vs| - 1])]
  }

  /**
   * Any number of runs of the program, each with any server, any input and any selection, and each cut off
   * after any event, make a history of the session automaton; all that holds of histories holds of them.
   */
  lemma {:induction false} VisitsAreHistory(env: Env, d: Disk, vs: seq<Visit>)
    requires env.Sound() && d.meInfo.None?
    ensures IsHistory(env, Visits(env, d, vs))
    decreases |vs|
  {
    hide Run, Program, Replay, Agrees, IsHistory, InfoAfter, EventsOf;
    if vs == [] {
      NoHistory(env);
    } else {
      var h, v := Visits(env, d, vs[..|vs| - 1]), vs[|vs| - 1];
      VisitsAreHistory(env, d, vs[..|vs| - 1]);
      InfoFileShape(env, d, h);
      var now, info := Replay(d, EventsOf(h), env.wrapWidth), InfoAfter(env, h);
      var w := World(v.incoming, v.inputs, v.clock, now, Shut, []);
      BeginAgrees(env, now, info);
      var t, s' := ProgramLeads(env, w, info, v.selection);
      assert Program(env, w, v.selection).0.log == [] + t == t;
      RunPrefix(env, Begin(info), t, Min(v.cut, |t|));
      HistorySnoc(env, h, VisitEvents(env, now, v));
    }
  }

  lemma BeginAgrees(env: Env, d: Disk, info: Info)
    requires env.wrapWidth > 0 && info.Valid() && d.meInfo == info.Render(env.wrapWidth)
    ensures Agrees(env, d, Begin(info))
  {
  }
}
