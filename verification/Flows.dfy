/**
 * What a session does to the world, flow by flow: registration, key exchange, re-registration, disconnect
 * and the program as a whole. The session code computes exactly these functions.
 */
module Flows {
  import opened Binary
  import opened Protocol
  import opened Hosts
  import opened Sessions
  import Backups
  import BackupProperties
  import Base64
  import Credentials
  import Hex
  import Requests
  import Responses

  /** The word that cancels a prompt. */
  const CANCEL: Bytes := ['q' as int, 'u' as int, 'i' as int, 't' as int]

  /** The first valid user name of the input, unless the input is cancelled or ends before it. */
  function Prompted(inputs: seq<Bytes>): (r: (Option<Bytes>, seq<Bytes>))
    ensures r.0.Some? ==> IsValidUsername(r.0.value) && |r.1| < |inputs|
    decreases |inputs|
  {
    if inputs == [] then (None, [])
    else if inputs[0] == CANCEL then (None, inputs[1..])
    else if IsValidUsername(inputs[0]) then (Some(inputs[0]), inputs[1..])
    else Prompted(inputs[1..])
  }

  /** A write to a credential file, unless the file cannot be opened. */
  function Change(env: Env, w: World, e: Event): (World, bool)
    requires env.wrapWidth > 0
  {
    var w1 := w.(clock := w.clock + 1);
    if e.RemovedInfo? || e.RemovedAesKey? || !env.diskFault(w.clock)
    then (w1.(disk := Apply(w.disk, e, env.wrapWidth), log := w.log + [e]), true)
    else (w1, false)
  }

  /** The response to a public key or a re-registration. */
  function KeyResponse(env: Env, w: World, code: Word16, privateKey: Bytes): (World, bool)
    requires env.wrapWidth > 0
  {
    var (w1, r) := ReceiveFrom(w);
    if !r.Reply? || r.m.code == FAILED || !Backups.CarriesStoredId(w.disk, r.m) then (w1, false)
    else if r.m.code == code then
      match env.rsaDecrypt(privateKey, r.m.aesKey)
      case Some(key) => Change(env, w1, SavedAesKey(key))
      case None => (w1, false)
    else if r.m.code == RE_REGISTRATION_FAILED then (Change(env, w1, RemovedInfo).0, false)
    else (w1, false)
  }

  /** Both private key files are written before the public key is sent. */
  function SendPublicKey(env: Env, w: World, privateKey: Bytes): (World, bool)
    requires env.wrapWidth > 0
  {
    match (Backups.StoredId(w.disk), Credentials.UsernameIn(w.disk.meInfo))
    case (Some(id), Some(username)) =>
      var (w1, appended) := Change(env, w, AppendedKey(privateKey));
      if !appended then (w1, false)
      else
        var (w2, saved) := Change(env, w1, SavedPrivateKey(privateKey));
        if !saved then (w2, false)
        else SendTo(env, w2, Requests.PublicKeyMsg(id, username, env.publicOf(privateKey)))
    case _ => (w, false)
  }

  function KeyExchange(env: Env, w: World): (World, bool)
    requires env.wrapWidth > 0
  {
    var privateKey := env.newPrivateKey(w.clock);
    var (w1, sent) := SendPublicKey(env, w.(clock := w.clock + 1), privateKey);
    if !sent then (w1, false) else KeyResponse(env, w1, KEY_SEND_SUCCESS, privateKey)
  }

  function Register(env: Env, w: World): (World, bool)
    requires env.wrapWidth > 0
    decreases |w.inputs|
  {
    var (username, rest) := Prompted(w.inputs);
    var w1 := w.(inputs := rest);
    if username.None? then (w1, false)
    else
      var (w2, sent) := SendTo(env, w1, Requests.RegistrationMsg(username.value));
      if !sent then (w2, false)
      else
        var (w3, r) := ReceiveFrom(w2);
        if !r.Reply? then (w3, false)
        else if r.m.code == USERNAME_TAKEN then Register(env, w3)
        else if r.m.code != REGISTRATION_SUCCESS then (w3, false)
        else
          var (w4, saved) := Change(env, w3, SavedInfo(username.value, r.m.userId));
          if !saved then (w4, false) else KeyExchange(env, w4)
  }

  function ReRegister(env: Env, w: World): (World, bool)
    requires env.wrapWidth > 0
  {
    match (Credentials.UsernameIn(w.disk.meInfo), Backups.StoredId(w.disk), Credentials.PrivateKeyIn(w.disk.meInfo))
    case (Some(username), Some(id), Some(text)) =>
      var (w1, sent) := SendTo(env, w, Requests.ReRegistrationMsg(id, username));
      if !sent then (w1, false) else KeyResponse(env, w1, RE_REGISTRATION_SUCCESS, Base64.Decode(text))
    case _ => (w, false)
  }

  function Enter(env: Env, w: World): (World, bool)
    requires env.wrapWidth > 0
  {
    if w.disk.meInfo.Some? then ReRegister(env, w) else Register(env, w)
  }

  function BackUp(env: Env, w: World, selection: Option<seq<Bytes>>): (World, bool) {
    if selection.None? then (w, false)
    else
      var (w1, _, completed) := Backups.BackupAll(env, w, Backups.NEW_AUTH, selection.value);
      (w1, completed)
  }

  function Leave(env: Env, w: World): (World, bool) {
    if w.link.Shut? then (w, true)
    else
      var (w1, sent) := SendTo(env, w, Requests.DISCONNECT_MSG);
      (if sent then w1.(link := Shut) else w1, sent)
  }

  function Session(env: Env, w: World, selection: Option<seq<Bytes>>): (World, bool)
    requires env.wrapWidth > 0
  {
    var w1 := w.(link := env.connection(w.clock));
    if !w1.link.Connected? then (w1, false)
    else
      var (w2, entered) := Enter(env, w1);
      if !entered then (w2, false)
      else
        var (w3, backedUp) := BackUp(env, w2, selection);
        if !backedUp then (w3, false) else Leave(env, w3)
  }

  /** The second component is false if the program is terminated by an exception while disconnecting. */
  function Program(env: Env, w: World, selection: Option<seq<Bytes>>): (World, bool)
    requires env.wrapWidth > 0
  {
    var (w1, ok) := Session(env, w, selection);
    var (w2, left) := if ok then (w1, true) else Leave(env, w1);
    if !left then (w2, false)
    else if w2.disk.aesKey.Some? then (Change(env, w2, RemovedAesKey).0, true)
    else (w2, true)
  }

  // ---------------------------------------------------------------------------
  // Prompting
  // ---------------------------------------------------------------------------

  /** The first valid name is taken, whatever was entered before it, unless the user cancelled earlier. */
  lemma {:induction false} PromptedFirst(inputs: seq<Bytes>)
    ensures var (username, rest) := Prompted(inputs);
            username.Some? <==>
            exists i: nat :: FirstValid(inputs, i) && username == Some(inputs[i]) && rest == inputs[i + 1..]
    decreases |inputs|
  {
    if inputs != [] && inputs[0] != CANCEL && !IsValidUsername(inputs[0]) {
      var tail := inputs[1..];
      var (username, rest) := Prompted(inputs);
      PromptedFirst(tail);
      if username.Some? {
        var i: nat :| FirstValid(tail, i) && username == Some(tail[i]) && rest == tail[i + 1..];
        assert FirstValid(inputs, i + 1) && tail[i + 1..] == inputs[i + 1 + 1..];
      }
    } else if inputs != [] && IsValidUsername(inputs[0]) {
      assert FirstValid(inputs, 0);
    }
  }

  /** The word `quit`. */
  ghost predicate IsQuit(word: Bytes) {
    word == [113, 117, 105, 116]
  }

  ghost predicate FirstValid(inputs: seq<Bytes>, i: nat) {
    && i < |inputs| && IsValidUsername(inputs[i])
    && forall j :: 0 <= j < i ==> !IsQuit(inputs[j]) && !IsValidUsername(inputs[j])
  }

  // ---------------------------------------------------------------------------
  // Which servers let a client in
  // ---------------------------------------------------------------------------

  ghost predicate Calm(env: Env, w: World) {
    && env.Sound() && w.link.Connected?
    && (forall t: nat :: env.writeFault(t).None?) && (forall t: nat :: !env.diskFault(t))
  }

  ghost predicate RepliesWith(r: Received, code: Word16) {
    r.Reply? && r.m.code == code
  }

  lemma CalmSend(env: Env, w: World, m: Requests.RequestMsg)
    requires FaultNow(env, w).None?
    ensures SendTo(env, w, m) == (w.(clock := w.clock + 1, log := w.log + [Sent(m)]), true)
  {
    hide Requests.Wire;
  }

  lemma CalmChange(env: Env, w: World, e: Event)
    requires env.wrapWidth > 0 && !env.diskFault(w.clock)
    ensures Change(env, w, e) == (w.(clock := w.clock + 1, disk := Apply(w.disk, e, env.wrapWidth),
                                     log := w.log + [e]), true)
  {
  }

  /** The response that brings the AES key. */
  ghost predicate BringsKey(env: Env, r: Received, code: Word16, id: UserId, privateKey: Bytes) {
    RepliesWith(r, code) && r.m.userId == id && env.rsaDecrypt(privateKey, r.m.aesKey).Some?
  }

  /** With nothing in its way the AES key is stored exactly if the next response brings it. */
  lemma KeyResponseIff(env: Env, w: World, code: Word16, privateKey: Bytes, info: Info)
    requires env.Sound() && !env.diskFault(w.clock)
    requires info.Valid() && info.Keyed? && w.disk.meInfo == info.Render(env.wrapWidth)
    requires code in {205, 210}
    ensures var (w1, ok) := KeyResponse(env, w, code, privateKey);
            var (r, rest) := Receive(w.incoming);
            && (ok <==> BringsKey(env, r, code, info.id, privateKey))
            && (ok ==> var key := env.rsaDecrypt(privateKey, r.m.aesKey).value;
                       && w1.log == w.log + [Got(r.m), SavedAesKey(key)] && w1.incoming == rest && w1.link == w.link
                       && w1.clock == w.clock + 1
                       && w1.disk == w.disk.(aesKey := Some(Base64.EncodeLines(key, env.wrapWidth))))
  {
    hide Receive, Credentials.UserIdIn, Hex.HexOf, Base64.EncodeLines;
    LoadedInfo(env, w.disk, info);
    var (w1, r) := ReceiveFrom(w);
    if r.Reply? {
      Hex.HexIdentity(r.m.userId, info.id);
      if env.rsaDecrypt(privateKey, r.m.aesKey).Some? {
        var key := env.rsaDecrypt(privateKey, r.m.aesKey).value;
        CalmChange(env, w1, SavedAesKey(key));
        assert w1.log + [SavedAesKey(key)] == w.log + [Got(r.m), SavedAesKey(key)];
      }
    }
  }

  /** The response that says the client is no longer known. */
  ghost predicate Revokes(r: Received, id: UserId) {
    RepliesWith(r, 206) && r.m.userId == id
  }

  /**
   * Everything the response to a public key or a re-registration can do to the files: with the expected code, the
   * stored ID and a decryptable key the AES key is stored, if its file can be opened; with code 206 and the stored
   * ID `me.info` is removed; any other response, or none, changes no file.
   */
  lemma KeyResponseCases(env: Env, w: World, code: Word16, privateKey: Bytes, info: Info)
    requires env.Sound() && info.Valid() && !info.NoInfo? && w.disk.meInfo == info.Render(env.wrapWidth)
    requires code in {205, 210}
    ensures var (w1, ok) := KeyResponse(env, w, code, privateKey);
            var (r, rest) := Receive(w.incoming);
            && w1.incoming == rest && w1.link == w.link
            && (ok <==> BringsKey(env, r, code, info.id, privateKey) && !env.diskFault(w.clock))
            && (ok ==>
                  && var key := env.rsaDecrypt(privateKey, r.m.aesKey).value;
                  && w1.disk == w.disk.(aesKey := Some(Base64.EncodeLines(key, env.wrapWidth))))
            && (Revokes(r, info.id) ==>
                  && !ok && w1.disk == w.disk.(meInfo := None) && w1.log == w.log + [Got(r.m), RemovedInfo])
            && (!ok && !Revokes(r, info.id) ==>
                  && w1.disk == w.disk && w1.log == w.log + [if r.Reply? then Got(r.m) else NoReply])
            && (w1.disk.meInfo.None? <==> Revokes(r, info.id))
  {
    hide Receive, Credentials.UserIdIn, Hex.HexOf, Base64.EncodeLines, Credentials.IdentityLines, Hex.Unhex,
         Credentials.UsernameIn, Credentials.PrivateKeyIn, Base64.Encode, Base64.Decode;
    LoadedInfo(env, w.disk, info);
    var (w1, r) := ReceiveFrom(w);
    if r.Reply? {
      Hex.HexIdentity(r.m.userId, info.id);
      assert w.log + [Got(r.m)] + [RemovedInfo] == w.log + [Got(r.m), RemovedInfo];
    }
  }

  /**
   * A client whose re-registration is answered with 206 and its own ID forgets its identity, and only then; whatever
   * it meets the next time, it registers anew.
   */
  lemma RevokedStartsOver(env: Env, w: World, info: Info)
    requires env.Sound() && FaultNow(env, w).None?
    requires info.Valid() && info.Keyed? && w.disk.meInfo == info.Render(env.wrapWidth)
    ensures var (w1, ok) := Enter(env, w);
            var r := Receive(w.incoming).0;
            && (w1.disk.meInfo.None? <==> Revokes(r, info.id))
            && (Revokes(r, info.id) ==>
                  && !ok
                  && w1.log == w.log + [Sent(Requests.ReRegistrationMsg(info.id, info.username)), Got(r.m), RemovedInfo]
                  && forall w2: World :: w2.disk == w1.disk ==> Enter(env, w2) == Register(env, w2))
  {
    hide Receive, SendTo, KeyResponse, Base64.Encode, Base64.Decode, Credentials.UserIdIn, Credentials.UsernameIn,
         Credentials.PrivateKeyIn, Hex.Unhex, Requests.ReRegistrationMsg, Register, Credentials.IdentityLines,
         Base64.EncodeLines;
    LoadedInfo(env, w.disk, info);
    var m := Requests.ReRegistrationMsg(info.id, info.username);
    CalmSend(env, w, m);
    var w1 := SendTo(env, w, m).0;
    KeyResponseCases(env, w1, 205, info.key, info);
    var r := Receive(w.incoming).0;
    if Revokes(r, info.id) {
      assert w.log + [Sent(m)] + [Got(r.m), RemovedInfo] == w.log + [Sent(m), Got(r.m), RemovedInfo];
    }
  }

  /**
   * A stored identity with its key is let in exactly if the server answers with 205, the same ID and an AES
   * key encrypted for the stored private key; the only request sent is the one naming this identity.
   */
  lemma ReRegistrationIff(env: Env, w: World, info: Info)
    requires env.Sound() && FaultNow(env, w).None? && !env.diskFault(w.clock + 1)
    requires info.Valid() && info.Keyed? && w.disk.meInfo == info.Render(env.wrapWidth)
    ensures var (w1, ok) := Enter(env, w);
            var (r, rest) := Receive(w.incoming);
            && (ok <==> BringsKey(env, r, 205, info.id, info.key))
            && (ok ==> var key := env.rsaDecrypt(info.key, r.m.aesKey).value;
                       && w1.log == w.log + [Sent(Requests.ReRegistrationMsg(info.id, info.username)), Got(r.m),
                                             SavedAesKey(key)]
                       && w1.incoming == rest && w1.link == w.link && w1.clock == w.clock + 2
                       && w1.disk == w.disk.(aesKey := Some(Base64.EncodeLines(key, env.wrapWidth))))
  {
    hide Receive, SendTo, KeyResponse, Base64.EncodeLines, Base64.Encode, Base64.Decode, Credentials.UserIdIn,
         Credentials.UsernameIn, Credentials.PrivateKeyIn, Hex.Unhex, Requests.ReRegistrationMsg;
    LoadedInfo(env, w.disk, info);
    var m := Requests.ReRegistrationMsg(info.id, info.username);
    CalmSend(env, w, m);
    var w1 := SendTo(env, w, m).0;
    KeyResponseIff(env, w1, 205, info.key, info);
    var r := Receive(w.incoming).0;
    if KeyResponse(env, w1, 205, info.key).1 {
      var key := env.rsaDecrypt(info.key, r.m.aesKey).value;
      assert w.log + [Sent(m)] + [Got(r.m), SavedAesKey(key)] == w.log + [Sent(m), Got(r.m), SavedAesKey(key)];
    }
  }

  /** With two lines only, a session does nothing at all before it leaves. */
  lemma TwoLinesEnterNothing(env: Env, w: World, info: Info)
    requires env.Sound() && info.Valid() && info.TwoLine? && w.disk.meInfo == info.Render(env.wrapWidth)
    ensures Enter(env, w) == (w, false)
  {
    hide Credentials.IdentityLines, Credentials.PrivateKeyIn, Credentials.UserIdIn, Credentials.UsernameIn;
    LoadedInfo(env, w.disk, info);
  }

  /** Requests for user names that turned out to be taken. */
  function TakenNames(names: seq<Bytes>, rs: seq<Responses.ResponseMsg>): seq<Event>
    requires |names| == |rs|
  {
    if names == [] then []
    else [Sent(Requests.RegistrationMsg(names[0])), Got(rs[0])] + TakenNames(names[1..], rs[1..])
  }

  /** The events of a registration, from the first free name on. */
  function GrantedName(env: Env, username: Bytes, grant: Responses.ResponseMsg, privateKey: Bytes,
                       last: Responses.ResponseMsg, aesKey: Bytes): seq<Event> {
    [Sent(Requests.RegistrationMsg(username)), Got(grant), SavedInfo(username, grant.userId), AppendedKey(privateKey),
     SavedPrivateKey(privateKey), Sent(Requests.PublicKeyMsg(grant.userId, username, env.publicOf(privateKey))),
     Got(last), SavedAesKey(aesKey)]
  }

  /** The files after a registration. */
  function RegisteredDisk(env: Env, username: Bytes, id: UserId, privateKey: Bytes, aesKey: Bytes): Disk
    requires env.wrapWidth > 0
  {
    Disk(Keyed(username, id, privateKey).Render(env.wrapWidth), Some(Base64.EncodeLines(privateKey, env.wrapWidth)),
         Some(Base64.EncodeLines(aesKey, env.wrapWidth)))
  }

  /** Any response but 200 and 202, or none, ends a registration without a trace on disk. */
  lemma RegistrationRefused(env: Env, w: World, username: Bytes, more: seq<Bytes>)
    requires env.wrapWidth > 0 && FaultNow(env, w).None?
    requires w.inputs == [username] + more && IsValidUsername(username)
    requires var r := Receive(w.incoming).0; !RepliesWith(r, 200) && !RepliesWith(r, 202)
    ensures var (w1, ok) := Register(env, w);
            var (r, rest) := Receive(w.incoming);
            && !ok && w1.disk == w.disk && w1.incoming == rest
            && w1.log == w.log + [Sent(Requests.RegistrationMsg(username)), if r.Reply? then Got(r.m) else NoReply]
  {
    hide Receive, SendTo, KeyExchange, Change, Requests.RegistrationMsg;
    assert (w.inputs[0], w.inputs[1..]) == (username, more);
    var w1 := w.(inputs := more);
    CalmSend(env, w1, Requests.RegistrationMsg(username));
    var w2 := SendTo(env, w1, Requests.RegistrationMsg(username)).0;
    var (w3, r) := ReceiveFrom(w2);
    var e := if r.Reply? then Got(r.m) else NoReply;
    assert w.log + [Sent(Requests.RegistrationMsg(username))] + [e]
        == w.log + [Sent(Requests.RegistrationMsg(username)), e];
  }

  /** The key exchange after the identity was written. */
  lemma KeyExchangeSucceeds(env: Env, w: World, username: Bytes, id: UserId)
    requires Calm(env, w) && IsValidUsername(username)
    requires w.disk.meInfo == TwoLine(username, id).Render(env.wrapWidth)
    requires BringsKey(env, Receive(w.incoming).0, 210, id, env.newPrivateKey(w.clock))
    ensures var (w1, ok) := KeyExchange(env, w);
            var (r, rest) := Receive(w.incoming);
            var privateKey := env.newPrivateKey(w.clock);
            var aesKey := env.rsaDecrypt(privateKey, r.m.aesKey).value;
            && ok && w1.incoming == rest && w1.link == w.link
            && w1.disk == RegisteredDisk(env, username, id, privateKey, aesKey)
            && w1.log == w.log + [AppendedKey(privateKey), SavedPrivateKey(privateKey),
                                  Sent(Requests.PublicKeyMsg(id, username, env.publicOf(privateKey))),
                                  Got(r.m), SavedAesKey(aesKey)]
  {
    hide Receive, SendTo, KeyResponse, Base64.EncodeLines, Credentials.IdentityLines, Credentials.UserIdIn,
         Credentials.UsernameIn, Hex.Unhex, Requests.PublicKeyMsg;
    var privateKey := env.newPrivateKey(w.clock);
    LoadedInfo(env, w.disk, TwoLine(username, id));
    var w0 := w.(clock := w.clock + 1);
    CalmChange(env, w0, AppendedKey(privateKey));
    var w1 := Change(env, w0, AppendedKey(privateKey)).0;
    CalmChange(env, w1, SavedPrivateKey(privateKey));
    var w2 := Change(env, w1, SavedPrivateKey(privateKey)).0;
    var m := Requests.PublicKeyMsg(id, username, env.publicOf(privateKey));
    CalmSend(env, w2, m);
    var w3 := SendTo(env, w2, m).0;
    KeyResponseIff(env, w3, 210, privateKey, Keyed(username, id, privateKey));
    var r := Receive(w.incoming).0;
    var aesKey := env.rsaDecrypt(privateKey, r.m.aesKey).value;
    assert w3.log + [Got(r.m), SavedAesKey(aesKey)]
        == w.log + [AppendedKey(privateKey), SavedPrivateKey(privateKey), Sent(m), Got(r.m), SavedAesKey(aesKey)];
  }

  /** The last and only free name of a registration. */
  lemma FreeNameSucceeds(env: Env, w: World, username: Bytes, more: seq<Bytes>)
    requires Calm(env, w) && IsValidUsername(username) && w.inputs == [username] + more
    requires RepliesWith(Receive(w.incoming).0, 200)
    requires var (grant, rest) := Receive(w.incoming);
             BringsKey(env, Receive(rest).0, 210, grant.m.userId, env.newPrivateKey(w.clock + 2))
    ensures var (w1, ok) := Register(env, w);
            var (grant, rest) := Receive(w.incoming);
            var (last, left) := Receive(rest);
            var privateKey := env.newPrivateKey(w.clock + 2);
            var aesKey := env.rsaDecrypt(privateKey, last.m.aesKey).value;
            && ok && w1.incoming == left && w1.link == w.link
            && w1.disk == RegisteredDisk(env, username, grant.m.userId, privateKey, aesKey)
            && w1.log == w.log + GrantedName(env, username, grant.m, privateKey, last.m, aesKey)
  {
    hide Receive, SendTo, KeyExchange, Base64.EncodeLines, Credentials.IdentityLines, Requests.PublicKeyMsg,
         Requests.RegistrationMsg, RegisteredDisk, BringsKey;
    assert (w.inputs[0], w.inputs[1..]) == (username, more);
    var m := Requests.RegistrationMsg(username);
    var w1 := w.(inputs := more);
    CalmSend(env, w1, m);
    var (w2, _) := SendTo(env, w1, m);
    var (w3, grant) := ReceiveFrom(w2);
    CalmChange(env, w3, SavedInfo(username, grant.m.userId));
    var (w4, _) := Change(env, w3, SavedInfo(username, grant.m.userId));
    KeyExchangeSucceeds(env, w4, username, grant.m.userId);
    assert w4.log == w.log + [Sent(m), Got(grant.m), SavedInfo(username, grant.m.userId)];
  }

  /**
   * With nothing in its way a new client that enters valid names is registered under the first one that is
   * not taken, and ends up with identity, private key and AES key stored, in this order of events.
   */
  lemma {:induction false} RegistrationSucceeds(env: Env, w: World, taken: seq<Bytes>, username: Bytes,
                                                more: seq<Bytes>,
                                                rs: seq<Responses.ResponseMsg>, rest: Bytes)
    requires Calm(env, w) && w.inputs == taken + ([username] + more) && IsValidUsername(username)
    requires |rs| == |taken|
    requires forall i :: 0 <= i < |taken| ==> IsValidUsername(taken[i]) && rs[i].code == 202
    requires ReceiveMany(w.incoming, |taken|) == (Replies(rs), rest)
    requires RepliesWith(Receive(rest).0, 200)
    requires var (grant, after) := Receive(rest);
             BringsKey(env, Receive(after).0, 210, grant.m.userId,
                       env.newPrivateKey(w.clock + |taken| + 2))
    ensures var (w1, ok) := Register(env, w);
            var (grant, after) := Receive(rest);
            var (last, left) := Receive(after);
            var privateKey := env.newPrivateKey(w.clock + |taken| + 2);
            var aesKey := env.rsaDecrypt(privateKey, last.m.aesKey).value;
            && ok && w1.incoming == left && w1.link == w.link
            && w1.disk == RegisteredDisk(env, username, grant.m.userId, privateKey, aesKey)
            && w1.log == w.log + (TakenNames(taken, rs)
                                  + GrantedName(env, username, grant.m, privateKey, last.m, aesKey))
    decreases |taken|
  {
    hide Receive, SendTo, KeyExchange, Change, RegisteredDisk, GrantedName, Requests.RegistrationMsg, Register, Calm;
    if taken == [] {
      assert w.inputs == [username] + more;
      FreeNameSucceeds(env, w, username, more);
      assert TakenNames(taken, rs) == [];
    } else {
      assert w.inputs[0] == taken[0] && w.inputs[1..] == taken[1..] + ([username] + more);
      TakenReply(w.incoming, rs, rest);
      TakenNameIsAskedAgain(env, w, rs[0]);
      RegistrationSucceeds(env, AfterTakenName(w, rs[0]), taken[1..], username, more, rs[1..], rest);
      var (grant, after) := Receive(rest);
      var last := Receive(after).0;
      var privateKey := env.newPrivateKey(w.clock + |taken| + 2);
      LogOfTakenName(w.log, taken, rs, GrantedName(env, username, grant.m, privateKey, last.m,
                                                   env.rsaDecrypt(privateKey, last.m.aesKey).value));
    }
  }

  lemma LogOfTakenName(log: seq<Event>, taken: seq<Bytes>, rs: seq<Responses.ResponseMsg>, granted: seq<Event>)
    requires |taken| == |rs| > 0
    ensures log + [Sent(Requests.RegistrationMsg(taken[0])), Got(rs[0])] + (TakenNames(taken[1..], rs[1..]) + granted)
         == log + (TakenNames(taken, rs) + granted)
  {
    hide Requests.RegistrationMsg;
    var asked := [Sent(Requests.RegistrationMsg(taken[0])), Got(rs[0])];
    assert TakenNames(taken, rs) == asked + TakenNames(taken[1..], rs[1..]);
    Regroup(log, asked, TakenNames(taken[1..], rs[1..]), granted);
  }

  lemma Regroup(a: seq<Event>, b: seq<Event>, c: seq<Event>, d: seq<Event>)
    ensures a + b + (c + d) == a + (b + c + d)
  {
  }

  /** The world after a name that turned out to be taken. */
  function AfterTakenName(w: World, r: Responses.ResponseMsg): World
    requires w.inputs != []
  {
    w.(inputs := w.inputs[1..], clock := w.clock + 1, incoming := Receive(w.incoming).1,
       log := w.log + [Sent(Requests.RegistrationMsg(w.inputs[0])), Got(r)])
  }

  lemma TakenNameIsAskedAgain(env: Env, w: World, r: Responses.ResponseMsg)
    requires Calm(env, w) && w.inputs != [] && IsValidUsername(w.inputs[0])
    requires Receive(w.incoming).0 == Reply(r) && r.code == 202
    ensures Calm(env, AfterTakenName(w, r)) && Register(env, w) == Register(env, AfterTakenName(w, r))
  {
    hide Receive, SendTo, KeyExchange, Change, Requests.RegistrationMsg;
    var m := Requests.RegistrationMsg(w.inputs[0]);
    var w1 := w.(inputs := w.inputs[1..]);
    CalmSend(env, w1, m);
    assert w.log + [Sent(m)] + [Got(r)] == w.log + [Sent(m), Got(r)];
  }

  lemma TakenReply(incoming: Bytes, rs: seq<Responses.ResponseMsg>, rest: Bytes)
    requires rs != [] && ReceiveMany(incoming, |rs|) == (Replies(rs), rest)
    ensures Receive(incoming).0 == Reply(rs[0])
    ensures ReceiveMany(Receive(incoming).1, |rs| - 1) == (Replies(rs[1..]), rest)
  {
    hide Receive, ReceiveMany;
    BackupProperties.ReceiveOneMore(incoming, |rs| - 1);
    var (r, after) := Receive(incoming);
    var (tail, left) := ReceiveMany(after, |rs| - 1);
    assert Replies(rs) == [r] + tail;
    assert Replies(rs)[0] == Reply(rs[0]) && Replies(rs)[1..] == tail;
    assert Replies(rs[1..]) == Replies(rs)[1..];
  }
}
