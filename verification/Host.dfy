/**
 * The outside world of the client process: its socket, its three credential files, the console, the
 * files to back up, and the sources of randomness. Whatever the world may do is fixed by an arbitrary
 * environment whose answers depend on time, so that a statement about every environment and every
 * incoming byte stream is a statement about every run.
 */
module Hosts {
  import opened Binary
  import opened Protocol
  import opened Aes
  import Base64
  import Credentials
  import Requests
  import Responses

  /** A file to back up at some moment; `Unreadable` stands for every failure to open, size or read it. */
  datatype FileState = Missing | Unreadable | Content(data: Bytes)

  /** The socket: a failed connection attempt may leave it open all the same. */
  datatype Link = Shut | Unconnected | Connected

  datatype Env = Env(
    connection: nat -> Link,             // what connecting at that time does to the socket
    fileAt: (Bytes, nat) -> FileState,
    writeFault: nat -> Option<nat>,      // a send at that time breaks after so many bytes
    diskFault: nat -> bool,              // a credential file cannot be opened for writing at that time
    ivAt: nat -> Block,
    newPrivateKey: nat -> Bytes,
    publicOf: Bytes -> PublicKey,
    rsaDecrypt: (Bytes, Bytes) -> Option<Bytes>,
    cipher: BlockCipher,
    wrapWidth: nat)
  {
    /** Key generation gives non-empty keys; an encoded line has room for an encoded AES key. */
    ghost predicate Sound() {
      && wrapWidth >= 44
      && forall t: nat :: newPrivateKey(t) != []
    }
  }

  datatype Disk = Disk(meInfo: Option<Bytes>, privateKey: Option<Bytes>, aesKey: Option<Bytes>)

  /** What the process does to the world, in order. */
  datatype Event =
    | Sent(m: Requests.RequestMsg)
    | Broken(m: Requests.RequestMsg, written: nat)
    | Got(r: Responses.ResponseMsg)
    | NoReply
    | SavedInfo(username: Bytes, id: UserId)
    | AppendedKey(key: Bytes)
    | SavedPrivateKey(key: Bytes)
    | SavedAesKey(key: Bytes)
    | RemovedInfo
    | RemovedAesKey

  datatype World = World(
    incoming: Bytes,
    inputs: seq<Bytes>,
    clock: nat,
    disk: Disk,
    link: Link,
    log: seq<Event>)

  /** The effect of an event on the credential files. */
  function Apply(d: Disk, e: Event, width: nat): Disk
    requires width > 0
  {
    match e
    case SavedInfo(username, id) => d.(meInfo := Some(Credentials.IdentityLines(username, id)))
    case AppendedKey(key) =>
      var before := if d.meInfo.Some? then d.meInfo.value else [];
      d.(meInfo := Some(before + Base64.EncodeLines(key, width)))
    case SavedPrivateKey(key) => d.(privateKey := Some(Base64.EncodeLines(key, width)))
    case SavedAesKey(key) => d.(aesKey := Some(Base64.EncodeLines(key, width)))
    case RemovedInfo => d.(meInfo := None)
    case RemovedAesKey => d.(aesKey := None)
    case _ => d
  }

  /** The files after a sequence of events. */
  function Replay(d: Disk, events: seq<Event>, width: nat): Disk
    requires width > 0
  {
    if events == [] then d
    else Apply(Replay(d, events[..|events| - 1], width), events[|events| - 1], width)
  }

  function BytesOf(e: Event): Bytes {
    match e
    case Sent(m) => Requests.Wire(m)
    case Broken(m, n) => Requests.Wire(m)[..Min(n, |Requests.Wire(m)|)]
    case _ => []
  }

  /** The bytes that a sequence of events puts on the wire. */
  function OutBytes(events: seq<Event>): Bytes {
    if events == [] then []
    else OutBytes(events[..|events| - 1]) + BytesOf(events[|events| - 1])
  }

  // ---------------------------------------------------------------------------
  // Sending and receiving
  // ---------------------------------------------------------------------------

  /** After how many bytes a write breaks now, if it does; on a socket without a connection, at once. */
  function FaultNow(env: Env, w: World): Option<nat> {
    if w.link.Connected? then env.writeFault(w.clock) else Some(0)
  }

  /** A write either transfers the whole request or breaks after a strict prefix of it. */
  function SendTo(env: Env, w: World, m: Requests.RequestMsg): (World, bool) {
    var fault := FaultNow(env, w);
    if fault.None? then (w.(clock := w.clock + 1, log := w.log + [Sent(m)]), true)
    else
      var n := Min(fault.value, |Requests.Wire(m)| - 1);
      (w.(clock := w.clock + 1, log := w.log + [Broken(m, n)]), false)
  }

  datatype Received = Reply(m: Responses.ResponseMsg) | LinkDown | Malformed

  /** One response off the front of the incoming bytes, and what remains of them. */
  function Receive(incoming: Bytes): (Received, Bytes) {
    if |incoming| < Responses.HEADER_SIZE then (LinkDown, [])
    else
      var n := Responses.HEADER_SIZE + Responses.DeclaredSize(incoming);
      if |incoming| < n then (LinkDown, [])
      else match Responses.Parse(incoming[..n])
           case Some(m) => (Reply(m), incoming[n..])
           case None => (Malformed, incoming[n..])
  }

  function ReceiveFrom(w: World): (World, Received) {
    var (r, rest) := Receive(w.incoming);
    (w.(incoming := rest, log := w.log + [if r.Reply? then Got(r.m) else NoReply]), r)
  }

  class Host {
    const env: Env
    var incoming: Bytes
    var outgoing: Bytes
    var inputs: seq<Bytes>
    var clock: nat
    var disk: Disk
    var link: Link
    ghost var log: seq<Event>

    ghost predicate Valid()
      reads this
    {
      outgoing == OutBytes(log) && env.wrapWidth > 0
    }

    ghost function State(): World
      reads this
    {
      World(incoming, inputs, clock, disk, link, log)
    }

    constructor (env: Env, incoming: Bytes, inputs: seq<Bytes>, clock: nat, disk: Disk)
      requires env.wrapWidth > 0
      ensures Valid() && this.env == env
      ensures State() == World(incoming, inputs, clock, disk, Shut, [])
    {
      this.env := env;
      this.incoming, this.inputs, this.clock, this.disk := incoming, inputs, clock, disk;
      outgoing, link, log := [], Shut, [];
    }

    method Write(data: Bytes, ghost m: Requests.RequestMsg) returns (ok: bool)
      requires Valid() && data == Requests.Wire(m)
      modifies this
      ensures Valid()
      ensures (State(), ok) == SendTo(env, old(State()), m)
    {
      hide Requests.Wire, OutBytes, BytesOf;
      var fault := if link.Connected? then env.writeFault(clock) else Some(0);
      var n := if fault.None? then |data| else Min(fault.value, |data| - 1);
      ghost var e := if fault.None? then Sent(m) else Broken(m, n);
      WrittenBytes(m, n, log);
      clock, outgoing, log := clock + 1, outgoing + data[..n], log + [e];
      ok := fault.None?;
    }

    /** Reads exactly `n` bytes, or fails at the end of the stream. */
    method ReadExactly(n: nat) returns (data: Option<Bytes>)
      modifies `incoming
      ensures data == if |old(incoming)| < n then None else Some(old(incoming)[..n])
      ensures incoming == if |old(incoming)| < n then [] else old(incoming)[n..]
    {
      if |incoming| < n {
        data, incoming := None, [];
      } else {
        data, incoming := Some(incoming[..n]), incoming[n..];
      }
    }

    ghost method Note(e: Event)
      requires Valid() && BytesOf(e) == []
      modifies `log
      ensures Valid() && log == old(log) + [e]
    {
      OutBytesSnoc(log, e);
      assert OutBytes(log) + [] == OutBytes(log);
      log := log + [e];
    }

    /** One write to (or removal of) a credential file; it can fail only where a file is opened. */
    method ChangeFile(e: Event) returns (ok: bool)
      requires Valid() && BytesOf(e) == []
      modifies this
      ensures Valid()
      ensures ok <==> e.RemovedInfo? || e.RemovedAesKey? || !env.diskFault(old(clock))
      ensures State() == if ok
                         then old(State()).(clock := old(clock) + 1, disk := Apply(old(disk), e, env.wrapWidth),
                                            log := old(log) + [e])
                         else old(State()).(clock := old(clock) + 1)
    {
      ok := e.RemovedInfo? || e.RemovedAesKey? || !env.diskFault(clock);
      clock := clock + 1;
      if ok {
        disk := Apply(disk, e, env.wrapWidth);
        Note(e);
      }
    }

    /** The state of a file to back up, now. */
    method Look(name: Bytes) returns (f: FileState)
      modifies `clock
      ensures f == env.fileAt(name, old(clock)) && clock == old(clock) + 1
    {
      f := env.fileAt(name, clock);
      clock := clock + 1;
    }

    method DrawIv() returns (iv: Block)
      modifies `clock
      ensures iv == env.ivAt(old(clock)) && clock == old(clock) + 1
    {
      iv := env.ivAt(clock);
      clock := clock + 1;
    }

    method GeneratePrivateKey() returns (key: Bytes)
      modifies `clock
      ensures key == env.newPrivateKey(old(clock)) && clock == old(clock) + 1
    {
      key := env.newPrivateKey(clock);
      clock := clock + 1;
    }

    /** One whitespace-delimited word of console input; `None` when the input stream is closed. */
    method NextInput() returns (word: Option<Bytes>)
      modifies `inputs
      ensures word == if old(inputs) == [] then None else Some(old(inputs)[0])
      ensures inputs == if old(inputs) == [] then [] else old(inputs)[1..]
    {
      if inputs == [] {
        word := None;
      } else {
        word, inputs := Some(inputs[0]), inputs[1..];
      }
    }

    method Connect() returns (ok: bool)
      modifies `link
      ensures link == env.connection(clock) && ok == link.Connected?
    {
      link := env.connection(clock);
      ok := link.Connected?;
    }

    method Close()
      modifies `link
      ensures link.Shut?
    {
      link := Shut;
    }
  }

  class CommunicationManager {
    const host: Host

    constructor (host: Host)
      ensures this.host == host
    {
      this.host := host;
    }

    method SendRequest(request: Requests.Request) returns (ok: bool)
      requires host.Valid() && request.Valid() && host !in request.Repr
      modifies host
      ensures host.Valid() && request.Message() == old(request.Message())
      ensures (host.State(), ok) == SendTo(host.env, old(host.State()), old(request.Message()))
    {
      var serialized := request.Serialize();
      ok := host.Write(serialized, request.Message());
    }

    method ReceiveResponse() returns (r: Received)
      requires host.Valid()
      modifies host
      ensures host.Valid()
      ensures (host.State(), r) == ReceiveFrom(old(host.State()))
    {
      hide Responses.Parse, Responses.DeclaredSize, OutBytes;
      ghost var incoming := host.incoming;
      var header := host.ReadExactly(Responses.HEADER_SIZE);
      if header.None? {
        host.Note(NoReply);
        return LinkDown;
      }
      ReceiveSteps(incoming);
      var payloadSize := Responses.DeclaredSize(header.value);
      var payload := host.ReadExactly(payloadSize);
      if payload.None? {
        host.Note(NoReply);
        return LinkDown;
      }
      var buffer := header.value + payload.value;
      var parsed, _ := Responses.Deserialize(buffer);
      if parsed.None? {
        host.Note(NoReply);
        return Malformed;
      }
      host.Note(Got(parsed.value));
      r := Reply(parsed.value);
    }
  }

  /** Header and payload, read separately, are the frame that `Receive` takes at once. */
  lemma ReceiveSteps(incoming: Bytes)
    requires |incoming| >= 7
    ensures var n := Responses.DeclaredSize(incoming[..7]);
            && n == Responses.DeclaredSize(incoming)
            && (|incoming| >= 7 + n ==>
                && incoming[..7] + incoming[7..][..n] == incoming[..7 + n]
                && incoming[7..][n..] == incoming[7 + n..])
  {
    assert incoming[..7][3..7] == incoming[3..7];
  }

  // ---------------------------------------------------------------------------
  // Framing of the incoming stream
  // ---------------------------------------------------------------------------

  function ReplyStream(ms: seq<Responses.ResponseMsg>): Bytes {
    if ms == [] then [] else Responses.Wire(ms[0]) + ReplyStream(ms[1..])
  }

  /** `n` calls of `receive_response` in a row: their results, and what remains of the stream. */
  function ReceiveMany(incoming: Bytes, n: nat): (seq<Received>, Bytes)
    decreases n
  {
    if n == 0 then ([], incoming)
    else
      var (r, rest) := Receive(incoming);
      var (rs, left) := ReceiveMany(rest, n - 1);
      ([r] + rs, left)
  }

  function Replies(ms: seq<Responses.ResponseMsg>): seq<Received> {
    seq(|ms|, i requires 0 <= i < |ms| => Reply(ms[i]))
  }

  /** A well-formed response at the front of the stream is received, and nothing else consumed. */
  lemma ReceiveOne(m: Responses.ResponseMsg, rest: Bytes)
    requires m.WellFormed()
    ensures Receive(Responses.Wire(m) + rest) == (Reply(m), rest)
  {
    var wire := Responses.Wire(m);
    var data := wire + rest;
    Responses.ParseOfWire(m, rest);
    Responses.ParseOfWire(m, []);
    assert wire + [] == wire == data[..|wire|] && data[|wire|..] == rest;
    assert Responses.DeclaredSize(data) == Responses.Parse(data).value.payloadSize;
  }

  /** Any list of well-formed responses, sent back to back, is received as exactly that list. */
  lemma {:induction false} ReceiveAll(ms: seq<Responses.ResponseMsg>, rest: Bytes)
    requires forall i :: 0 <= i < |ms| ==> ms[i].WellFormed()
    ensures ReceiveMany(ReplyStream(ms) + rest, |ms|) == (Replies(ms), rest)
  {
    if ms == [] {
      assert ReplyStream(ms) + rest == rest;
    } else {
      ReceiveAll(ms[1..], rest);
      ReceiveOne(ms[0], ReplyStream(ms[1..]) + rest);
      assert ReplyStream(ms) + rest == Responses.Wire(ms[0]) + (ReplyStream(ms[1..]) + rest);
      assert Replies(ms) == [Reply(ms[0])] + Replies(ms[1..]);
    }
  }

  /**
   * Every call that gets its bytes consumes the header and the declared payload; then the response is
   * refused exactly when it declares less than the fixed payload.
   */
  lemma ReceiveConsumes(incoming: Bytes)
    ensures var (r, rest) := Receive(incoming);
            && (r.LinkDown? <==> |incoming| < 7 || |incoming| < 7 + Responses.DeclaredSize(incoming))
            && (!r.LinkDown? ==> rest == incoming[7 + Responses.DeclaredSize(incoming)..])
            && (r.Malformed? <==> !r.LinkDown? && Responses.DeclaredSize(incoming) < 279)
            && (r.Reply? ==> r.m.WellFormed() && Responses.Wire(r.m) + rest == incoming)
  {
    if |incoming| >= 7 && |incoming| >= 7 + Responses.DeclaredSize(incoming) {
      var n := 7 + Responses.DeclaredSize(incoming);
      var frame := incoming[..n];
      assert frame[3..7] == incoming[3..7];
      if Responses.Acceptable(frame) {
        Responses.WireOfParse(frame);
        assert frame[..n] == frame && frame + incoming[n..] == incoming;
      }
    }
  }

  // ---------------------------------------------------------------------------
  // Event sequences
  // ---------------------------------------------------------------------------

  lemma OutBytesSnoc(events: seq<Event>, e: Event)
    ensures OutBytes(events + [e]) == OutBytes(events) + BytesOf(e)
  {
    assert (events + [e])[..|events|] == events;
  }

  lemma Associate(a: seq<Event>, b: seq<Event>, c: seq<Event>)
    ensures a + b + c == a + (b + c)
  {
  }

  lemma NoOutBytes()
    ensures OutBytes([]) == []
  {
  }

  lemma {:induction false} OutBytesConcat(a: seq<Event>, b: seq<Event>)
    ensures OutBytes(a + b) == OutBytes(a) + OutBytes(b)
  {
    hide BytesOf, OutBytes;
    if b == [] {
      NoOutBytes();
      assert a + b == a && OutBytes(a) + [] == OutBytes(a);
    } else {
      var init, last := b[..|b| - 1], b[|b| - 1];
      OutBytesConcat(a, init);
      OutBytesSnoc(a + init, last);
      OutBytesSnoc(init, last);
      assert a + b == a + init + [last] && b == init + [last];
      assert OutBytes(a) + (OutBytes(init) + BytesOf(last)) == OutBytes(a) + OutBytes(init) + BytesOf(last);
    }
  }

  /** What a write of `n` bytes of a request adds to the wire. */
  lemma WrittenBytes(m: Requests.RequestMsg, n: nat, events: seq<Event>)
    requires n <= |Requests.Wire(m)|
    ensures OutBytes(events + [Broken(m, n)]) == OutBytes(events) + Requests.Wire(m)[..n]
    ensures n == |Requests.Wire(m)| ==> OutBytes(events + [Sent(m)]) == OutBytes(events) + Requests.Wire(m)[..n]
  {
    hide Requests.Wire;
    OutBytesSnoc(events, Broken(m, n));
    OutBytesSnoc(events, Sent(m));
    assert Requests.Wire(m)[..|Requests.Wire(m)|] == Requests.Wire(m);
  }

  function SentAll(ms: seq<Requests.RequestMsg>): (events: seq<Event>)
    ensures |events| == |ms| && forall i :: 0 <= i < |ms| ==> events[i] == Sent(ms[i])
  {
    seq(|ms|, i requires 0 <= i < |ms| => Sent(ms[i]))
  }

  /** The bytes of requests sent one after the other are the stream of those requests. */
  lemma {:induction false} OutBytesOfSent(ms: seq<Requests.RequestMsg>)
    ensures OutBytes(SentAll(ms)) == Requests.StreamOf(ms)
  {
    hide Requests.Wire;
    if ms != [] {
      var init, last := ms[..|ms| - 1], ms[|ms| - 1];
      OutBytesOfSent(init);
      assert ms == init + [last] && SentAll(ms)[..|ms| - 1] == SentAll(init);
      Requests.StreamOfConcat(init, [last]);
      Requests.StreamOfOne(last);
    }
  }

  lemma {:induction false} ReplayConcat(d: Disk, a: seq<Event>, b: seq<Event>, width: nat)
    requires width > 0
    ensures Replay(d, a + b, width) == Replay(Replay(d, a, width), b, width)
    decreases |b|
  {
    if b == [] {
      assert a + b == a;
    } else {
      var init := b[..|b| - 1];
      ReplayConcat(d, a, init, width);
      assert (a + b)[..|a + b| - 1] == a + init;
    }
  }
}
