/**
 * The session code: registration, re-registration, key exchange, backup, disconnect and the top level. Every
 * method is proved to compute the flow of the same name, in any world; what holds of the flows, above all
 * that their events are accepted by the session automaton, holds of the code.
 */
module ClientHandlers {
  import opened Binary
  import opened Protocol
  import opened Hosts
  import Backups
  import Base64
  import Credentials
  import FileAuthentications
  import Flows
  import Hex
  import Programs
  import Requests
  import Sessions

  class ClientHandler {
    const host: Host
    const comm: CommunicationManager

    ghost predicate Valid()
      reads host
    {
      comm.host == host && host.Valid()
    }

    constructor (host: Host)
      requires host.Valid()
      ensures Valid() && this.host == host
    {
      this.host := host;
      comm := new CommunicationManager(host);
    }

    // -------------------------------------------------------------------------
    // Registration
    // -------------------------------------------------------------------------

    /** Asks until a valid user name is entered; `None` if the user cancels or closes the input. */
    method PromptValidUsername() returns (username: Option<Bytes>)
      requires Valid()
      modifies host
      ensures Valid() && username == Flows.Prompted(old(host.inputs)).0
      ensures host.State() == old(host.State()).(inputs := Flows.Prompted(old(host.inputs)).1)
    {
      while true
        invariant Valid()
        invariant host.State() == old(host.State()).(inputs := host.inputs)
        invariant Flows.Prompted(host.inputs) == Flows.Prompted(old(host.inputs))
        decreases |host.inputs|
      {
        var word := host.NextInput();
        if word.None? {
          return None;
        }
        if word.value == Flows.CANCEL {
          return None;
        }
        if IsValidUsername(word.value) {
          return word;
        }
      }
    }

    method SendRegistrationRequest(username: Bytes) returns (ok: bool)
      requires Valid()
      modifies host
      ensures Valid() && (host.State(), ok) == SendTo(host.env, old(host.State()), Requests.RegistrationMsg(username))
    {
      hide SendTo;
      var request := new Requests.Request();
      request.code := REGISTRATION;
      request.payloadSize := Requests.FIXED_PAYLOAD_SIZE;
      request.SetUsername(username);
      assert request.Message() == Requests.RegistrationMsg(username);
      ok := comm.SendRequest(request);
    }

    /** Registers under the first free user name, then exchanges keys. */
    method ClientRegistration() returns (ok: bool)
      requires Valid()
      modifies host
      ensures Valid() && (host.State(), ok) == Flows.Register(host.env, old(host.State()))
    {
      hide OutBytes, Flows.KeyExchange, Requests.RegistrationMsg, SendTo, Flows.Prompted, Hosts.Receive, Apply;
      while true
        invariant Valid() && Flows.Register(host.env, host.State()) == Flows.Register(host.env, old(host.State()))
        decreases |host.inputs|
      {
        var username := PromptValidUsername();
        if username.None? {
          return false;
        }
        InputsKept(host.env, host.State(), Requests.RegistrationMsg(username.value));
        var sent := SendRegistrationRequest(username.value);
        if !sent {
          return false;
        }
        var reply := comm.ReceiveResponse();
        if !reply.Reply? {
          return false;
        }
        if reply.m.code == USERNAME_TAKEN {
          continue;
        }
        if reply.m.code != REGISTRATION_SUCCESS {
          return false;
        }
        var saved := host.ChangeFile(SavedInfo(username.value, reply.m.userId));
        if !saved {
          return false;
        }
        break;
      }
      ok := CompleteRegistrationKeyExchange();
    }

    lemma InputsKept(env: Env, w: World, m: Requests.RequestMsg)
      ensures SendTo(env, w, m).0.inputs == w.inputs
    {
      hide Requests.Wire;
    }

    method CompleteRegistrationKeyExchange() returns (ok: bool)
      requires Valid()
      modifies host
      ensures Valid() && (host.State(), ok) == Flows.KeyExchange(host.env, old(host.State()))
    {
      hide OutBytes, Flows.SendPublicKey, Flows.KeyResponse;
      var privateKey := host.GeneratePrivateKey();
      var sent := SendRsaPublicKey(privateKey);
      if !sent {
        return false;
      }
      ok := HandleRsaKeyResponse(KEY_SEND_SUCCESS, privateKey);
    }

    /** Stores the private key in both files, then sends the public key. */
    method SendRsaPublicKey(privateKey: Bytes) returns (ok: bool)
      requires Valid()
      modifies host
      ensures Valid() && (host.State(), ok) == Flows.SendPublicKey(host.env, old(host.State()), privateKey)
    {
      hide OutBytes, SendTo, Apply, Hex.Unhex, Credentials.UsernameIn, Credentials.UserIdIn, TextField;
      var userId := Credentials.LoadUserId(host.disk.meInfo);
      if userId.None? {
        return false;
      }
      var username := Credentials.LoadUsername(host.disk.meInfo);
      if username.None? {
        return false;
      }
      var request := new Requests.Request();
      ok := request.SetUserId(userId.value);
      if !ok {
        return;
      }
      request.code := PUBLIC_KEY_SEND;
      request.payloadSize := Requests.FIXED_PAYLOAD_SIZE;
      request.SetUsername(username.value);
      request.SetPublicKey(host.env.publicOf(privateKey));
      assert request.Message()
          == Requests.PublicKeyMsg(request.Message().userId, username.value, host.env.publicOf(privateKey));
      ok := StoreAndSend(privateKey, request);
    }

    method StoreAndSend(privateKey: Bytes, request: Requests.Request) returns (ok: bool)
      requires Valid() && request.Valid() && host !in request.Repr
      modifies host
      ensures Valid()
      ensures (host.State(), ok)
           == var (w1, appended) := Flows.Change(host.env, old(host.State()), AppendedKey(privateKey));
              if !appended then (w1, false)
              else
                var (w2, saved) := Flows.Change(host.env, w1, SavedPrivateKey(privateKey));
                if !saved then (w2, false) else SendTo(host.env, w2, old(request.Message()))
    {
      hide OutBytes, SendTo, Apply, Requests.Request.Message;
      ok := host.ChangeFile(AppendedKey(privateKey));
      if !ok {
        return;
      }
      ok := host.ChangeFile(SavedPrivateKey(privateKey));
      if !ok {
        return;
      }
      ok := comm.SendRequest(request);
    }

    /** Waits for the AES key, decrypts and stores it; a 206 response removes the identity. */
    method HandleRsaKeyResponse(code: Word16, privateKey: Bytes) returns (ok: bool)
      requires Valid()
      modifies host
      ensures Valid() && (host.State(), ok) == Flows.KeyResponse(host.env, old(host.State()), code, privateKey)
    {
      hide OutBytes, Hosts.Receive, Apply, Hex.HexOf, Credentials.UserIdIn;
      var reply := comm.ReceiveResponse();
      if !reply.Reply? {
        return false;
      }
      var response := reply.m;
      if response.code == FAILED {
        return false;
      }
      var expected := Credentials.LoadUserId(host.disk.meInfo);
      var actual := Hex.BytesToHex(response.userId);
      if expected.None? || expected.value != actual {
        return false;
      }
      if response.code == code {
        var aesKey := host.env.rsaDecrypt(privateKey, response.aesKey);
        if aesKey.None? {
          return false;
        }
        ok := host.ChangeFile(SavedAesKey(aesKey.value));
        return;
      }
      if response.code == RE_REGISTRATION_FAILED {
        var _ := host.ChangeFile(RemovedInfo);
      }
      ok := false;
    }

    /** Reports the stored identity, then waits for the AES key. */
    method ClientReRegistration() returns (ok: bool)
      requires Valid()
      modifies host
      ensures Valid() && (host.State(), ok) == Flows.ReRegister(host.env, old(host.State()))
    {
      hide OutBytes, SendTo, Flows.KeyResponse, Hex.Unhex, Credentials.UsernameIn, Credentials.UserIdIn,
           Credentials.PrivateKeyIn, Base64.Decode, TextField;
      var username := Credentials.LoadUsername(host.disk.meInfo);
      if username.None? {
        return false;
      }
      var userId := Credentials.LoadUserId(host.disk.meInfo);
      if userId.None? {
        return false;
      }
      var privateKeyText := Credentials.LoadPrivateKey(host.disk.meInfo);
      if privateKeyText.None? {
        return false;
      }
      var privateKey := Base64.Decode(privateKeyText.value);
      var request := new Requests.Request();
      ok := request.SetUserId(userId.value);
      if !ok {
        return;
      }
      request.code := RE_REGISTRATION;
      request.payloadSize := Requests.FIXED_PAYLOAD_SIZE;
      request.SetUsername(username.value);
      assert request.Message() == Requests.ReRegistrationMsg(request.Message().userId, username.value);
      ok := comm.SendRequest(request);
      if !ok {
        return;
      }
      ok := HandleRsaKeyResponse(RE_REGISTRATION_SUCCESS, privateKey);
    }

    // -------------------------------------------------------------------------
    // The whole session
    // -------------------------------------------------------------------------

    method HandleRegistration() returns (ok: bool)
      requires Valid()
      modifies host
      ensures Valid() && (host.State(), ok) == Flows.Enter(host.env, old(host.State()))
    {
      if host.disk.meInfo.Some? {
        ok := ClientReRegistration();
        return;
      }
      ok := ClientRegistration();
    }

    /** Backs up the selected files; `None` is a cancelled selection. */
    method BackupFiles(selection: Option<seq<Bytes>>) returns (ok: bool)
      requires Valid()
      modifies host
      ensures Valid() && (host.State(), ok) == Flows.BackUp(host.env, old(host.State()), selection)
    {
      hide OutBytes, Backups.BackupAll;
      if selection.None? {
        return false;
      }
      var auth := new FileAuthentications.FileAuthentication(host);
      ok := auth.BackupFiles(selection.value);
    }

    /** Says goodbye and closes the socket; does nothing if the socket is not open. */
    method Disconnect() returns (ok: bool)
      requires Valid()
      modifies host
      ensures Valid() && (host.State(), ok) == Flows.Leave(host.env, old(host.State()))
    {
      hide SendTo, OutBytes;
      if host.link.Shut? {
        return true;
      }
      var request := new Requests.Request();
      request.code := DISCONNECT;
      request.payloadSize := Requests.DISCONNECT_PAYLOAD_SIZE;
      assert request.Message() == Requests.DISCONNECT_MSG;
      ok := comm.SendRequest(request);
      if ok {
        host.Close();
      }
    }

    /** Connect, register or re-register, back up, disconnect; false if an exception ends it early. */
    method RunSession(selection: Option<seq<Bytes>>) returns (ok: bool)
      requires Valid()
      modifies host
      ensures Valid() && (host.State(), ok) == Flows.Session(host.env, old(host.State()), selection)
    {
      hide OutBytes, Flows.Enter, Flows.BackUp, Flows.Leave;
      var connected := host.Connect();
      if !connected {
        return false;
      }
      ok := HandleRegistration();
      if !ok {
        return;
      }
      ok := BackupFiles(selection);
      if !ok {
        return;
      }
      ok := Disconnect();
    }

    /**
     * The program: a failed session is disconnected, and the AES key removed at the end. It does not
     * return if that disconnect fails as well. Its events are accepted by the session automaton.
     */
    method RunProgram(selection: Option<seq<Bytes>>) returns (returned: bool)
      requires Valid()
      modifies host
      ensures Valid() && (host.State(), returned) == Flows.Program(host.env, old(host.State()), selection)
      ensures returned ==> host.disk.aesKey.None? && host.link.Shut?
      ensures var (w1, finished) := Flows.Session(host.env, old(host.State()), selection);
              && (!returned <==> !finished && (w1.link.Unconnected?
                                               || (w1.link.Connected? && host.env.writeFault(w1.clock).Some?)))
              && (host.disk.aesKey.Some? <==> !returned && w1.disk.aesKey.Some?)
      ensures forall info: Sessions.Info ::
                Programs.MayStart(host.env, old(host.State()), info)
                ==> Programs.Follows(host.env, old(host.State()), info, host.State())
    {
      hide OutBytes, Flows.Session, Flows.Leave, Programs.Follows, Programs.MayStart, Apply;
      Programs.ProgramEndsIff(host.env, host.State(), selection);
      Programs.ProgramFollows(host.env, host.State(), selection);
      returned := RunSession(selection);
      if !returned {
        returned := Disconnect();
        if !returned {
          return;
        }
      }
      if host.disk.aesKey.Some? {
        var _ := host.ChangeFile(RemovedAesKey);
      }
      returned := true;
    }
  }
}
