/** The pairing protocol of src/nvhttp.cpp: what each of its four phases does to a session, and what every
    interleaving of requests keeps. */
module Pairing {
  import opened Bytes
  import opened Wrappers

  type Data = seq<Byte>

  /** The cryptography: a key from salt and PIN, AES without padding, SHA-256, signatures of certificates,
      and signatures made with a private key. `owns` says which private key belongs to which certificate. */
  datatype Crypto = Crypto(
    genKey: (string, string) -> Data,
    encrypt: (Data, Data) -> Data,
    decrypt: (Data, Data) -> Data,
    hash: Data -> Data,
    parses: Data -> bool,
    signature: Data -> Data,
    sign: (Data, Data) -> Data,
    verify: (Data, Data, Data) -> bool,
    owns: (Data, Data) -> bool)

  /** What is needed of it: decryption undoes encryption of whole blocks, hashes have their length, and a
      certificate verifies what its key signed. */
  ghost predicate Lawful(c: Crypto) {
    && (forall k, m :: |m| % 16 == 0 ==> c.decrypt(k, c.encrypt(k, m)) == m)
    && (forall m :: |c.hash(m)| == HASH_SIZE)
    && (forall key, m :: c.sign(key, m) != [])
    && (forall cert, key, m :: c.owns(key, cert) ==> c.verify(cert, m, c.sign(key, m)))
  }

  /** The identity of the host. */
  datatype Host = Host(cert: Data, pkey: Data)

  datatype Phase = Start | GetServerCert | ClientChallenge | ServerChallengeResp | ClientPairingSecret

  datatype Session = Session(
    cert: Data,
    name: string,
    salt: string,
    waiting: bool,
    cipherKey: Option<Data>,
    clientHash: Data,
    serverSecret: Data,
    serverChallenge: Data,
    lastPhase: Phase)

  function NewSession(cert: Data): Session {
    Session(cert, "", "", false, None, [], [], [], Start)
  }

  /** What a phase makes of a session: fail_pair removes it, otherwise it goes on with a reply. */
  datatype Outcome = Fails | Continues(session: Session, reply: Data)

  // ---- the four phases

  const SALT_SIZE := 32
  const SECRET_SIZE := 16
  const HASH_SIZE := 32

  function GetServerCertPhase(c: Crypto, host: Host, s: Session, pin: string): Outcome {
    if s.lastPhase != Start || |s.salt| < SALT_SIZE then Fails
    else Continues(s.(lastPhase := GetServerCert, cipherKey := Some(c.genKey(s.salt[..SALT_SIZE], pin))), host.cert)
  }

  function ClientChallengePhase(c: Crypto, host: Host, s: Session, challenge: Data, secret: Data,
                                serverChallenge: Data): Outcome {
    if s.lastPhase != GetServerCert || s.cipherKey.None? then Fails
    else
      var key := s.cipherKey.value;
      var hash := c.hash(c.decrypt(key, challenge) + c.signature(host.cert) + secret);
      Continues(s.(lastPhase := ClientChallenge, serverSecret := secret, serverChallenge := serverChallenge),
                c.encrypt(key, hash + serverChallenge))
  }

  function ServerChallengeRespPhase(c: Crypto, host: Host, s: Session, encrypted: Data): Outcome {
    if s.lastPhase != ClientChallenge || s.cipherKey.None? || s.serverSecret == [] then Fails
    else
      Continues(s.(lastPhase := ServerChallengeResp, clientHash := c.decrypt(s.cipherKey.value, encrypted)),
                s.serverSecret + c.sign(host.pkey, s.serverSecret))
  }

  /** The last phase: whether the client is authorised; the session is removed in any case. */
  predicate ClientPairingSecretPhase(c: Crypto, s: Session, secretAndSign: Data) {
    && s.lastPhase == ServerChallengeResp
    && |secretAndSign| > SECRET_SIZE
    && c.parses(s.cert)
    && c.hash(s.serverChallenge + c.signature(s.cert) + secretAndSign[..SECRET_SIZE]) == s.clientHash
    && c.verify(s.cert, secretAndSign[..SECRET_SIZE], secretAndSign[SECRET_SIZE..])
  }

  // ---- the server

  datatype Device = Device(name: string, cert: Data)

  /** What happened, with the values that took part. */
  datatype Event =
    | Created(id: string, cert: Data)
    | Keyed(id: string, salt: string, pin: string, name: string)
    | Challenged(id: string, challenge: Data, secret: Data, serverChallenge: Data)
    | Answered(id: string, encrypted: Data)
    /** The session ends with its client authorised. */
    | Authorized(id: string, device: Device, secretAndSign: Data)
    /** The session ends without. */
    | Removed(id: string)

  datatype World = World(sessions: map<string, Session>, authorized: seq<Device>, log: seq<Event>)

  /** The arguments of a pairing request. */
  datatype Args = Args(
    uniqueId: Option<string>,
    phrase: Option<string>,
    clientCert: Option<Data>,
    salt: Option<string>,
    clientChallenge: Option<Data>,
    serverChallengeResp: Option<Data>,
    clientPairingSecret: Option<Data>)

  /** A request from a client, with the random values it is served with and the PIN from standard input if
      it comes from there; or the PIN from the user, for the session that happens to be first. */
  datatype Call =
    | Pair(args: Args, secret: Data, serverChallenge: Data, stdinPin: Option<string>)
    | Pin(pin: string, name: string, first: string)

  function Fail(w: World, id: string): World {
    w.(sessions := w.sessions - {id}, log := w.log + [Removed(id)])
  }

  function Goes(w: World, id: string, s: Session, e: Event): World {
    w.(sessions := w.sessions[id := s], log := w.log + [e])
  }

  function Conclude(w: World, id: string, o: Outcome, e: Event): World {
    match o
    case Fails => Fail(w, id)
    case Continues(s, _) => Goes(w, id, s, e)
  }

  function WithKey(c: Crypto, host: Host, w: World, id: string, pin: string, name: string): World
    requires id in w.sessions
  {
    var s := w.sessions[id];
    match GetServerCertPhase(c, host, s, pin)
    case Fails => Fail(w, id)
    case Continues(s', _) => Goes(w, id, s'.(name := name), Keyed(id, s.salt, pin, name))
  }

  /** A session of that name is kept if there is one; in either case it gets the salt. A missing argument
      throws on the way. */
  function Ask(c: Crypto, host: Host, w: World, id: string, args: Args, stdinPin: Option<string>): World {
    if args.clientCert.None? then w
    else
      var cert := args.clientCert.value;
      var w1 := if id in w.sessions then w else Goes(w, id, NewSession(cert), Created(id, cert));
      if args.salt.None? then w1
      else
        var s := w1.sessions[id].(salt := args.salt.value);
        if stdinPin.Some? then WithKey(c, host, w1.(sessions := w1.sessions[id := s]), id, stdinPin.value, s.name)
        else w1.(sessions := w1.sessions[id := s.(waiting := true)])
  }

  function Finish(c: Crypto, w: World, id: string, secretAndSign: Data): World
    requires id in w.sessions
  {
    var s := w.sessions[id];
    var device := Device(s.name, s.cert);
    if ClientPairingSecretPhase(c, s, secretAndSign) then
      World(w.sessions - {id}, w.authorized + [device], w.log + [Authorized(id, device, secretAndSign)])
    else Fail(w, id)
  }

  function Serve(c: Crypto, host: Host, w: World, id: string, call: Call): World
    requires call.Pair? && id in w.sessions
  {
    var s := w.sessions[id];
    var args := call.args;
    if args.clientChallenge.Some? then
      Conclude(w, id, ClientChallengePhase(c, host, s, args.clientChallenge.value, call.secret, call.serverChallenge),
               Challenged(id, args.clientChallenge.value, call.secret, call.serverChallenge))
    else if args.serverChallengeResp.Some? then
      Conclude(w, id, ServerChallengeRespPhase(c, host, s, args.serverChallengeResp.value),
               Answered(id, args.serverChallengeResp.value))
    else if args.clientPairingSecret.Some? then Finish(c, w, id, args.clientPairingSecret.value)
    else w
  }

  /** What the second and third phases send back; nothing when the request is no such phase or fails. */
  function Reply(c: Crypto, host: Host, w: World, call: Call): Option<Data> {
    if !call.Pair? || call.args.uniqueId.None? || call.args.uniqueId.value !in w.sessions then None
    else if call.args.phrase == Some("getservercert") || call.args.phrase == Some("pairchallenge") then None
    else
      var s := w.sessions[call.args.uniqueId.value];
      if call.args.clientChallenge.Some? then
        Sent(ClientChallengePhase(c, host, s, call.args.clientChallenge.value, call.secret, call.serverChallenge))
      else if call.args.serverChallengeResp.Some? then
        Sent(ServerChallengeRespPhase(c, host, s, call.args.serverChallengeResp.value))
      else None
  }

  function Sent(o: Outcome): Option<Data> {
    if o.Fails? then None else Some(o.reply)
  }

  predicate Digits(pin: string) {
    |pin| == 4 && forall i :: 0 <= i < |pin| ==> '0' <= pin[i] <= '9'
  }

  function Step(c: Crypto, host: Host, w: World, call: Call): World {
    match call
    case Pair(args, _, _, stdinPin) =>
      if args.uniqueId.None? then w
      else
        var id := args.uniqueId.value;
        if args.phrase == Some("getservercert") then Ask(c, host, w, id, args, stdinPin)
        else if args.phrase == Some("pairchallenge") then w
        else if id !in w.sessions then w
        else Serve(c, host, w, id, call)
    case Pin(pin, name, first) =>
      if first !in w.sessions || !Digits(pin) then w
      else Unwait(WithKey(c, host, w, first, pin, name), first)
  }

  /** The PIN meets a session it cannot go on with. The handler erases the session and then still writes
      through its reference to it. */
  predicate Dangles(w: World, first: string) {
    first in w.sessions && (w.sessions[first].lastPhase != Start || |w.sessions[first].salt| < SALT_SIZE)
  }

  /** The request that waited for the PIN has been answered. */
  function Unwait(w: World, id: string): World {
    if id in w.sessions then w.(sessions := w.sessions[id := w.sessions[id].(waiting := false)]) else w
  }

  function Run(c: Crypto, host: Host, w: World, calls: seq<Call>): World
    decreases |calls|
  {
    if calls == [] then w else Run(c, host, Step(c, host, w, calls[0]), calls[1..])
  }

  // ---- what happened in the life of a session

  /** The events of the session `id` after `n` events, from its creation on; none when there is no session. */
  function Story(log: seq<Event>, n: nat, id: string): seq<Event>
    requires n <= |log|
  {
    if n == 0 then []
    else
      var e := log[n - 1];
      if e.id != id then Story(log, n - 1, id)
      else if e.Created? then [e]
      else if e.Removed? || e.Authorized? then []
      else Story(log, n - 1, id) + [e]
  }

  /** The story of a session is told by its phase: the phases it went through, each once and in order, with
      the values the session holds. */
  ghost predicate Tells(c: Crypto, s: Session, story: seq<Event>) {
    match s.lastPhase
    case Start => |story| == 1 && Begun(s, story) && s.cipherKey == None
    case GetServerCert => |story| == 2 && Begun(s, story) && KeyHeld(c, s, story)
    case ClientChallenge => |story| == 3 && Begun(s, story) && KeyHeld(c, s, story) && SecretHeld(s, story)
    case ServerChallengeResp =>
      |story| == 4 && Begun(s, story) && KeyHeld(c, s, story) && SecretHeld(s, story) && HashHeld(c, s, story)
    case ClientPairingSecret => false
  }

  ghost predicate Begun(s: Session, story: seq<Event>) {
    |story| > 0 && story[0].Created? && story[0].cert == s.cert
  }

  ghost predicate KeyHeld(c: Crypto, s: Session, story: seq<Event>) {
    && |story| > 1 && story[1].Keyed? && |story[1].salt| >= SALT_SIZE
    && s.cipherKey == Some(c.genKey(story[1].salt[..SALT_SIZE], story[1].pin)) && s.name == story[1].name
  }

  ghost predicate SecretHeld(s: Session, story: seq<Event>) {
    && |story| > 2 && story[2].Challenged?
    && s.serverSecret == story[2].secret && |s.serverSecret| == SECRET_SIZE
    && s.serverChallenge == story[2].serverChallenge
  }

  ghost predicate HashHeld(c: Crypto, s: Session, story: seq<Event>) {
    |story| > 3 && story[3].Answered? && s.cipherKey.Some?
      && s.clientHash == c.decrypt(s.cipherKey.value, story[3].encrypted)
  }

  /** What it takes to be authorised: the four phases once each and in order, with the hash from the third
      phase being that of the server's challenge, the client's certificate and the secret of the fourth, and
      that secret signed with the client's key. */
  ghost predicate Earned(c: Crypto, story: seq<Event>, e: Event)
    requires e.Authorized?
  {
    && |story| == 4 && story[0].Created? && story[1].Keyed? && story[2].Challenged? && story[3].Answered?
    && story[0].cert == e.device.cert && story[1].name == e.device.name && |story[1].salt| >= SALT_SIZE
    && |e.secretAndSign| > SECRET_SIZE && c.parses(e.device.cert)
    && var secret, sign := e.secretAndSign[..SECRET_SIZE], e.secretAndSign[SECRET_SIZE..];
    && c.decrypt(c.genKey(story[1].salt[..SALT_SIZE], story[1].pin), story[3].encrypted)
       == c.hash(story[2].serverChallenge + c.signature(e.device.cert) + secret)
    && c.verify(e.device.cert, secret, sign)
  }

  /** The devices authorised by the first `n` events. */
  function Devices(log: seq<Event>, n: nat): seq<Device>
    requires n <= |log|
  {
    if n == 0 then []
    else Devices(log, n - 1) + if log[n - 1].Authorized? then [log[n - 1].device] else []
  }

  ghost predicate SessionTold(c: Crypto, w: World, id: string) {
    if id in w.sessions then Tells(c, w.sessions[id], Story(w.log, |w.log|, id)) else Story(w.log, |w.log|, id) == []
  }

  ghost predicate EventEarned(c: Crypto, log: seq<Event>, k: nat)
    requires k < |log|
  {
    log[k].Authorized? ==> Earned(c, Story(log, k, log[k].id), log[k])
  }

  ghost predicate Valid(c: Crypto, w: World) {
    && (forall id :: SessionTold(c, w, id))
    && (forall k :: 0 <= k < |w.log| ==> EventEarned(c, w.log, k))
    && w.authorized == Devices(w.log, |w.log|)
  }

  /** The random values are of the size the server asks for. */
  predicate Proper(call: Call) {
    call.Pair? ==> |call.secret| == SECRET_SIZE && |call.serverChallenge| == SECRET_SIZE
  }

  // ---- what every step keeps

  lemma {:induction false} SamePast(log: seq<Event>, e: Event, n: nat, id: string)
    requires n <= |log|
    ensures Story(log + [e], n, id) == Story(log, n, id) && Devices(log + [e], n) == Devices(log, n)
  {
    if n > 0 { SamePast(log, e, n - 1, id); }
  }

  function Told(story: seq<Event>, e: Event): seq<Event> {
    if e.Created? then [e] else if e.Removed? || e.Authorized? then [] else story + [e]
  }

  /** One more event about `id`. */
  ghost predicate Grows(w: World, w': World, id: string, e: Event) {
    && w'.log == w.log + [e] && e.id == id && w'.sessions - {id} == w.sessions - {id}
    && w'.authorized == w.authorized + if e.Authorized? then [e.device] else []
  }

  lemma Grow(c: Crypto, w: World, w': World, id: string, e: Event)
    requires Valid(c, w) && Grows(w, w', id, e)
    requires e.Authorized? ==> Earned(c, Story(w.log, |w.log|, id), e)
    requires var story := Told(Story(w.log, |w.log|, id), e);
      if id in w'.sessions then Tells(c, w'.sessions[id], story) else story == []
    ensures Valid(c, w')
  {
    forall other ensures SessionTold(c, w', other) {
      if other == id { SamePast(w.log, e, |w.log|, id); } else { GrowOther(c, w, w', id, e, other); }
    }
    forall k | 0 <= k < |w'.log| ensures EventEarned(c, w'.log, k) {
      GrowEarned(c, w, id, e, k);
    }
    SamePast(w.log, e, |w.log|, id);
  }

  lemma GrowOther(c: Crypto, w: World, w': World, id: string, e: Event, other: string)
    requires Valid(c, w) && Grows(w, w', id, e) && other != id
    ensures SessionTold(c, w', other)
  {
    SamePast(w.log, e, |w.log|, other);
    assert SessionTold(c, w, other);
    assert other in w'.sessions - {id} <==> other in w.sessions - {id};
  }

  lemma GrowEarned(c: Crypto, w: World, id: string, e: Event, k: nat)
    requires Valid(c, w) && e.id == id && k <= |w.log|
    requires e.Authorized? ==> Earned(c, Story(w.log, |w.log|, id), e)
    ensures EventEarned(c, w.log + [e], k)
  {
    SamePast(w.log, e, k, (w.log + [e])[k].id);
    if k < |w.log| { assert EventEarned(c, w.log, k); }
  }

  lemma FailKeeps(c: Crypto, w: World, id: string)
    requires Valid(c, w)
    ensures Valid(c, Fail(w, id))
  {
    Grow(c, w, Fail(w, id), id, Removed(id));
  }

  /** A session goes on to its next phase. */
  lemma GoesKeeps(c: Crypto, w: World, id: string, s: Session, e: Event)
    requires Valid(c, w) && e.id == id && !e.Authorized?
    requires Tells(c, s, Told(Story(w.log, |w.log|, id), e))
    ensures Valid(c, Goes(w, id, s, e))
  {
    Grow(c, w, Goes(w, id, s, e), id, e);
  }

  /** The salt, and whether the client waits, are no part of the story. */
  lemma TouchKeeps(c: Crypto, w: World, id: string, salt: string, waiting: bool)
    requires Valid(c, w) && id in w.sessions
    ensures Valid(c, w.(sessions := w.sessions[id := w.sessions[id].(salt := salt, waiting := waiting)]))
  {
    var w' := w.(sessions := w.sessions[id := w.sessions[id].(salt := salt, waiting := waiting)]);
    forall other ensures SessionTold(c, w', other) {
      assert SessionTold(c, w, other);
    }
  }

  lemma WithKeyKeeps(c: Crypto, host: Host, w: World, id: string, pin: string, name: string)
    requires Valid(c, w) && id in w.sessions
    ensures Valid(c, WithKey(c, host, w, id, pin, name))
  {
    var s := w.sessions[id];
    assert SessionTold(c, w, id);
    match GetServerCertPhase(c, host, s, pin)
    case Fails => FailKeeps(c, w, id);
    case Continues(s', _) => GoesKeeps(c, w, id, s'.(name := name), Keyed(id, s.salt, pin, name));
  }

  lemma CreatedKeeps(c: Crypto, w: World, id: string, cert: Data)
    requires Valid(c, w)
    ensures id !in w.sessions ==> Valid(c, Goes(w, id, NewSession(cert), Created(id, cert)))
  {
    if id !in w.sessions { GoesKeeps(c, w, id, NewSession(cert), Created(id, cert)); }
  }

  lemma AskKeeps(c: Crypto, host: Host, w: World, id: string, args: Args, stdinPin: Option<string>)
    requires Valid(c, w)
    ensures Valid(c, Ask(c, host, w, id, args, stdinPin))
  {
    if args.clientCert.Some? {
      var cert := args.clientCert.value;
      var w1 := if id in w.sessions then w else Goes(w, id, NewSession(cert), Created(id, cert));
      CreatedKeeps(c, w, id, cert);
      if args.salt.Some? {
        var s := w1.sessions[id].(salt := args.salt.value);
        TouchKeeps(c, w1, id, args.salt.value, s.waiting);
        TouchKeeps(c, w1, id, args.salt.value, true);
        if stdinPin.Some? {
          WithKeyKeeps(c, host, w1.(sessions := w1.sessions[id := s]), id, stdinPin.value, s.name);
        }
      }
    }
  }

  lemma FinishKeeps(c: Crypto, w: World, id: string, secretAndSign: Data)
    requires Valid(c, w) && id in w.sessions
    ensures Valid(c, Finish(c, w, id, secretAndSign))
  {
    var s := w.sessions[id];
    assert SessionTold(c, w, id);
    if ClientPairingSecretPhase(c, s, secretAndSign) {
      var e := Authorized(id, Device(s.name, s.cert), secretAndSign);
      assert Earned(c, Story(w.log, |w.log|, id), e);
      Grow(c, w, Finish(c, w, id, secretAndSign), id, e);
    } else {
      FailKeeps(c, w, id);
    }
  }

  lemma ChallengeKeeps(c: Crypto, host: Host, w: World, id: string, challenge: Data, secret: Data,
                       serverChallenge: Data)
    requires Valid(c, w) && id in w.sessions && |secret| == SECRET_SIZE && |serverChallenge| == SECRET_SIZE
    ensures Valid(c, Conclude(w, id, ClientChallengePhase(c, host, w.sessions[id], challenge, secret, serverChallenge),
                              Challenged(id, challenge, secret, serverChallenge)))
  {
    assert SessionTold(c, w, id);
    match ClientChallengePhase(c, host, w.sessions[id], challenge, secret, serverChallenge)
    case Fails => FailKeeps(c, w, id);
    case Continues(s, _) => GoesKeeps(c, w, id, s, Challenged(id, challenge, secret, serverChallenge));
  }

  lemma AnswerKeeps(c: Crypto, host: Host, w: World, id: string, encrypted: Data)
    requires Valid(c, w) && id in w.sessions
    ensures Valid(c, Conclude(w, id, ServerChallengeRespPhase(c, host, w.sessions[id], encrypted),
                              Answered(id, encrypted)))
  {
    assert SessionTold(c, w, id);
    match ServerChallengeRespPhase(c, host, w.sessions[id], encrypted)
    case Fails => FailKeeps(c, w, id);
    case Continues(s, _) => GoesKeeps(c, w, id, s, Answered(id, encrypted));
  }

  lemma ServeKeeps(c: Crypto, host: Host, w: World, id: string, call: Call)
    requires Valid(c, w) && call.Pair? && Proper(call) && id in w.sessions
    ensures Valid(c, Serve(c, host, w, id, call))
  {
    var args := call.args;
    if args.clientChallenge.Some? {
      ChallengeKeeps(c, host, w, id, args.clientChallenge.value, call.secret, call.serverChallenge);
    } else if args.serverChallengeResp.Some? {
      AnswerKeeps(c, host, w, id, args.serverChallengeResp.value);
    } else if args.clientPairingSecret.Some? {
      FinishKeeps(c, w, id, args.clientPairingSecret.value);
    }
  }

  /** Every request, whoever it is from, keeps the stories straight and authorises only who has earned it. */
  lemma StepKeeps(c: Crypto, host: Host, w: World, call: Call)
    requires Valid(c, w) && Proper(call)
    ensures Valid(c, Step(c, host, w, call))
  {
    match call
    case Pair(args, _, _, stdinPin) =>
      if args.uniqueId.Some? {
        var id := args.uniqueId.value;
        AskKeeps(c, host, w, id, args, stdinPin);
        if id in w.sessions { ServeKeeps(c, host, w, id, call); }
      }
    case Pin(pin, name, first) =>
      if first in w.sessions {
        WithKeyKeeps(c, host, w, first, pin, name);
        var w1 := WithKey(c, host, w, first, pin, name);
        if first in w1.sessions { TouchKeeps(c, w1, first, w1.sessions[first].salt, false); }
      }
  }

  lemma {:induction false} RunKeeps(c: Crypto, host: Host, w: World, calls: seq<Call>)
    requires Valid(c, w) && forall call <- calls :: Proper(call)
    ensures Valid(c, Run(c, host, w, calls))
    decreases |calls|
  {
    if calls != [] {
      StepKeeps(c, host, w, calls[0]);
      RunKeeps(c, host, Step(c, host, w, calls[0]), calls[1..]);
    }
  }

  /** The event that authorised device `j`. */
  function EventOf(log: seq<Event>, n: nat, j: nat): (k: nat)
    requires n <= |log| && j < |Devices(log, n)|
    ensures k < n && log[k].Authorized? && log[k].device == Devices(log, n)[j]
  {
    if j < |Devices(log, n - 1)| then EventOf(log, n - 1, j) else n - 1
  }

  /** Each device has its own. */
  lemma {:induction false} EventsApart(log: seq<Event>, n: nat, i: nat, j: nat)
    requires n <= |log| && i < j < |Devices(log, n)|
    ensures EventOf(log, n, i) < EventOf(log, n, j)
  {
    if j < |Devices(log, n - 1)| { EventsApart(log, n - 1, i, j); }
  }

  const EMPTY := World(map[], [], [])

  /** Device `j` ended a session that went through the four phases, with the hash and signature checks passed;
      the devices before it ended others. */
  ghost predicate HasPaired(c: Crypto, w: World, j: nat)
    requires j < |w.authorized| && w.authorized == Devices(w.log, |w.log|)
  {
    var k := EventOf(w.log, |w.log|, j);
    && w.log[k].Authorized? && w.log[k].device == w.authorized[j]
    && Earned(c, Story(w.log, k, w.log[k].id), w.log[k])
    && forall i :: 0 <= i < j ==> EventOf(w.log, |w.log|, i) < k
  }

  lemma AuthorizedHasPaired(c: Crypto, w: World, j: nat)
    requires Valid(c, w) && j < |w.authorized|
    ensures HasPaired(c, w, j)
  {
    assert EventEarned(c, w.log, EventOf(w.log, |w.log|, j));
    forall i | 0 <= i < j ensures EventOf(w.log, |w.log|, i) < EventOf(w.log, |w.log|, j) {
      EventsApart(w.log, |w.log|, i, j);
    }
  }

  /** Over every interleaving of requests for any number of sessions, a client is authorised only at the end
      of a session of its own that went through the four phases, with the hash and signature checks passed. */
  lemma OnlyPairedAreAuthorized(c: Crypto, host: Host, calls: seq<Call>, j: nat)
    requires forall call <- calls :: Proper(call)
    requires j < |Run(c, host, EMPTY, calls).authorized|
    ensures var w := Run(c, host, EMPTY, calls); w.authorized == Devices(w.log, |w.log|) && HasPaired(c, w, j)
  {
    assert Valid(c, EMPTY);
    RunKeeps(c, host, EMPTY, calls);
    AuthorizedHasPaired(c, Run(c, host, EMPTY, calls), j);
  }

  /** A session past a phase holds what that phase made, so the checks for a missing key or secret never fire. */
  lemma PhasesHold(c: Crypto, w: World, id: string)
    requires Valid(c, w) && id in w.sessions
    ensures var s := w.sessions[id];
      && s.lastPhase != ClientPairingSecret
      && (s.lastPhase != Start <==> s.cipherKey.Some?)
      && (s.lastPhase == ClientChallenge || s.lastPhase == ServerChallengeResp ==> |s.serverSecret| == SECRET_SIZE)
      && (s.lastPhase == ServerChallengeResp ==>
          exists encrypted :: s.clientHash == c.decrypt(s.cipherKey.value, encrypted))
  {
    assert SessionTold(c, w, id);
    var s := w.sessions[id];
    if s.lastPhase == ServerChallengeResp {
      assert s.clientHash == c.decrypt(s.cipherKey.value, Story(w.log, |w.log|, id)[3].encrypted);
    }
  }

  /** The phase a request belongs to, in the order the server looks at its arguments. */
  function PhaseOf(args: Args): Option<Phase> {
    if args.clientChallenge.Some? then Some(ClientChallenge)
    else if args.serverChallengeResp.Some? then Some(ServerChallengeResp)
    else if args.clientPairingSecret.Some? then Some(ClientPairingSecret)
    else None
  }

  function Previous(p: Phase): Phase {
    match p
    case Start => Start
    case GetServerCert => Start
    case ClientChallenge => GetServerCert
    case ServerChallengeResp => ClientChallenge
    case ClientPairingSecret => ServerChallengeResp
  }

  predicate IsPhase(call: Call, id: string, phase: Phase) {
    && call.Pair? && call.args.uniqueId == Some(id) && PhaseOf(call.args) == Some(phase)
    && call.args.phrase != Some("getservercert") && call.args.phrase != Some("pairchallenge")
  }

  /** The second and third phases go on exactly when they are next; the fourth ends the session in any case.
      A session that does not go on is gone. */
  lemma SurvivesIff(c: Crypto, host: Host, w: World, call: Call, id: string, phase: Phase)
    requires Valid(c, w) && id in w.sessions && IsPhase(call, id, phase)
    ensures var s, after := w.sessions[id], Step(c, host, w, call).sessions;
      && (id in after <==> phase != ClientPairingSecret && s.lastPhase == Previous(phase))
      && (id in after ==> after[id].lastPhase == phase)
  {
    PhasesHold(c, w, id);
  }

  /** The PIN takes a session on exactly when it is new and its salt is long enough. */
  lemma PinSurvivesIff(c: Crypto, host: Host, w: World, pin: string, name: string, id: string)
    requires id in w.sessions && Digits(pin)
    ensures var s, after := w.sessions[id], Step(c, host, w, Pin(pin, name, id)).sessions;
      && (id in after <==> s.lastPhase == Start && |s.salt| >= SALT_SIZE)
      && (id in after ==>
            && after[id].lastPhase == GetServerCert && after[id].cipherKey == Some(c.genKey(s.salt[..SALT_SIZE], pin))
            && after[id].name == name && !after[id].waiting
            && Sent(GetServerCertPhase(c, host, s, pin)) == Some(host.cert))
  {
  }

  /** A client that asks again gets a new salt and waits; it stays in its phase, with its certificate and key. */
  lemma AskedAgain(c: Crypto, host: Host, w: World, id: string, args: Args)
    requires id in w.sessions && args.clientCert.Some? && args.salt.Some?
    ensures var w', s := Ask(c, host, w, id, args, None), w.sessions[id];
      && w'.sessions.Keys == w.sessions.Keys && w'.log == w.log && w'.authorized == w.authorized
      && (forall other <- w.sessions :: other != id ==> w'.sessions[other] == w.sessions[other])
      && var s' := w'.sessions[id];
      && s'.salt == args.salt.value && s'.waiting && s'.lastPhase == s.lastPhase && s'.cert == s.cert
      && s'.cipherKey == s.cipherKey && s'.clientHash == s.clientHash && s'.name == s.name
      && s'.serverSecret == s.serverSecret && s'.serverChallenge == s.serverChallenge
  {
  }

  /** Where the PIN comes from standard input, asking is asking and entering the PIN, in one step. */
  lemma PinFromInput(c: Crypto, host: Host, w: World, id: string, args: Args, pin: string)
    requires id !in w.sessions && args.clientCert.Some? && args.salt.Some? && Digits(pin)
    ensures var asked := Ask(c, host, w, id, args, None);
      Unwait(Ask(c, host, w, id, args, Some(pin)), id).sessions
      == Step(c, host, asked, Pin(pin, "", id)).sessions
  {
    var salt, cert := args.salt.value, args.clientCert.value;
    var s := NewSession(cert).(salt := salt);
    var one := Ask(c, host, w, id, args, Some(pin));
    var two := Step(c, host, Ask(c, host, w, id, args, None), Pin(pin, "", id));
    if |salt| >= SALT_SIZE {
      var key := c.genKey(salt[..SALT_SIZE], pin);
      assert one.sessions == w.sessions[id := s.(lastPhase := GetServerCert, cipherKey := Some(key))];
    } else {
      assert id !in one.sessions && id !in two.sessions;
    }
  }

  // ---- other people's requests

  predicate About(call: Call, id: string) {
    match call
    case Pair(args, _, _, _) => args.uniqueId == Some(id)
    case Pin(_, _, first) => first == id
  }

  /** A session is left alone, and nobody loses an authorisation. */
  ghost predicate LeftAlone(w: World, w': World, id: string) {
    && (id in w.sessions <==> id in w'.sessions) && (id in w.sessions ==> w'.sessions[id] == w.sessions[id])
    && w.authorized <= w'.authorized
  }

  lemma OtherStep(c: Crypto, host: Host, w: World, call: Call, id: string)
    requires !About(call, id)
    ensures LeftAlone(w, Step(c, host, w, call), id)
  {
  }

  lemma {:induction false} OthersUntouched(c: Crypto, host: Host, w: World, calls: seq<Call>, id: string)
    requires forall call <- calls :: !About(call, id)
    ensures LeftAlone(w, Run(c, host, w, calls), id)
    decreases |calls|
  {
    if calls != [] {
      OtherStep(c, host, w, calls[0], id);
      OthersUntouched(c, host, Step(c, host, w, calls[0]), calls[1..], id);
    }
  }

  // ---- an honest client

  /** A client: its certificate and private key, the name the user gives it, the salt it chose, the PIN it
      shows, and its random challenge and secret. */
  datatype Client = Client(id: string, cert: Data, pkey: Data, name: string, salt: string, pin: string, challenge: Data,
                           secret: Data)

  ghost predicate Honest(c: Crypto, u: Client) {
    && c.owns(u.pkey, u.cert) && c.parses(u.cert) && |u.salt| >= SALT_SIZE && Digits(u.pin)
    && |u.challenge| == SECRET_SIZE && |u.secret| == SECRET_SIZE
  }

  function ClientKey(c: Crypto, u: Client): Data
    requires |u.salt| >= SALT_SIZE
  {
    c.genKey(u.salt[..SALT_SIZE], u.pin)
  }

  function Tail(d: Data, n: nat): Data {
    if |d| < n then [] else d[n..]
  }

  /** The client's side: its three messages, the last two made from the host's replies. */
  function ChallengeMessage(c: Crypto, u: Client): Data
    requires |u.salt| >= SALT_SIZE
  {
    c.encrypt(ClientKey(c, u), u.challenge)
  }

  function HashMessage(c: Crypto, u: Client, reply: Data): Data
    requires |u.salt| >= SALT_SIZE
  {
    var serverChallenge := Tail(c.decrypt(ClientKey(c, u), reply), HASH_SIZE);
    c.encrypt(ClientKey(c, u), c.hash(serverChallenge + c.signature(u.cert) + u.secret))
  }

  function SecretMessage(c: Crypto, u: Client): Data {
    u.secret + c.sign(u.pkey, u.secret)
  }

  /** The client's checks of the host: the hash in the second reply is that of its own challenge, the host's
      certificate and the secret in the third, and that secret is signed with the host's key. */
  ghost predicate ClientAccepts(c: Crypto, host: Host, u: Client, second: Data, third: Data)
    requires |u.salt| >= SALT_SIZE
  {
    var d := c.decrypt(ClientKey(c, u), second);
    && |d| > HASH_SIZE && |third| > SECRET_SIZE
    && c.hash(u.challenge + c.signature(host.cert) + third[..SECRET_SIZE]) == d[..HASH_SIZE]
    && c.verify(host.cert, third[..SECRET_SIZE], third[SECRET_SIZE..])
  }

  function Request(u: Client): Args {
    Args(Some(u.id), None, None, None, None, None, None)
  }

  /** What the host does in the second phase, and what the client reads out of the reply. */
  lemma SecondPhase(c: Crypto, host: Host, u: Client, s: Session, secret: Data, serverChallenge: Data)
    returns (o: Outcome)
    requires Lawful(c) && Honest(c, u) && |secret| == SECRET_SIZE && |serverChallenge| == SECRET_SIZE
    requires s.lastPhase == GetServerCert && s.cipherKey == Some(ClientKey(c, u))
    ensures o == ClientChallengePhase(c, host, s, ChallengeMessage(c, u), secret, serverChallenge)
    ensures o == Continues(s.(lastPhase := ClientChallenge, serverSecret := secret, serverChallenge := serverChallenge),
                           o.reply)
    ensures var d := c.decrypt(ClientKey(c, u), o.reply);
      && |d| == HASH_SIZE + SECRET_SIZE && Tail(d, HASH_SIZE) == serverChallenge
      && d[..HASH_SIZE] == c.hash(u.challenge + c.signature(host.cert) + secret)
  {
    o := ClientChallengePhase(c, host, s, ChallengeMessage(c, u), secret, serverChallenge);
    var hash := c.hash(u.challenge + c.signature(host.cert) + secret);
    assert |hash + serverChallenge| % 16 == 0;
  }

  /** In the third phase the host learns the client's hash, and the client accepts the host. */
  lemma ThirdPhase(c: Crypto, host: Host, u: Client, s: Session, second: Data, secret: Data, serverChallenge: Data)
    returns (o: Outcome)
    requires Lawful(c) && Honest(c, u) && c.owns(host.pkey, host.cert) && |secret| == SECRET_SIZE
    requires s.lastPhase == ClientChallenge && s.cipherKey == Some(ClientKey(c, u)) && s.serverSecret == secret
    requires var d := c.decrypt(ClientKey(c, u), second);
      && |d| == HASH_SIZE + SECRET_SIZE && Tail(d, HASH_SIZE) == serverChallenge
      && d[..HASH_SIZE] == c.hash(u.challenge + c.signature(host.cert) + secret)
    ensures o == ServerChallengeRespPhase(c, host, s, HashMessage(c, u, second))
    ensures o == Continues(s.(lastPhase := ServerChallengeResp,
                              clientHash := c.hash(serverChallenge + c.signature(u.cert) + u.secret)), o.reply)
    ensures ClientAccepts(c, host, u, second, o.reply)
  {
    o := ServerChallengeRespPhase(c, host, s, HashMessage(c, u, second));
    var sign := c.sign(host.pkey, secret);
    assert (secret + sign)[..SECRET_SIZE] == secret && (secret + sign)[SECRET_SIZE..] == sign;
    var hash := c.hash(serverChallenge + c.signature(u.cert) + u.secret);
    assert |hash| % 16 == 0;
  }

  lemma FourthPhase(c: Crypto, u: Client, s: Session, serverChallenge: Data)
    requires Lawful(c) && Honest(c, u)
    requires s.lastPhase == ServerChallengeResp && s.cert == u.cert && s.serverChallenge == serverChallenge
    requires s.clientHash == c.hash(serverChallenge + c.signature(u.cert) + u.secret)
    ensures ClientPairingSecretPhase(c, s, SecretMessage(c, u))
  {
    var sign := c.sign(u.pkey, u.secret);
    assert (u.secret + sign)[..SECRET_SIZE] == u.secret && (u.secret + sign)[SECRET_SIZE..] == sign;
  }

  /** The calls the client and its user make, with the host's random values. */
  function First(u: Client): Call {
    Pair(Request(u).(phrase := Some("getservercert"), clientCert := Some(u.cert), salt := Some(u.salt)),
         [], [], None)
  }

  function Second(c: Crypto, u: Client, secret: Data, serverChallenge: Data): Call
    requires |u.salt| >= SALT_SIZE
  {
    Pair(Request(u).(clientChallenge := Some(ChallengeMessage(c, u))), secret, serverChallenge, None)
  }

  function Third(c: Crypto, u: Client, second: Data): Call
    requires |u.salt| >= SALT_SIZE
  {
    Pair(Request(u).(serverChallengeResp := Some(HashMessage(c, u, second))), [], [], None)
  }

  function Fourth(c: Crypto, u: Client): Call {
    Pair(Request(u).(clientPairingSecret := Some(SecretMessage(c, u))), [], [], None)
  }

  ghost predicate Others(calls: seq<Call>, id: string) {
    forall call <- calls :: !About(call, id)
  }

  ghost predicate Holds(w: World, id: string, s: Session) {
    id in w.sessions && w.sessions[id] == s
  }

  /** One call of the client's, and then any number from others. */
  function Turn(c: Crypto, host: Host, w: World, mine: Call, others: seq<Call>): World {
    Run(c, host, Step(c, host, w, mine), others)
  }

  lemma TurnHolds(c: Crypto, host: Host, w: World, mine: Call, others: seq<Call>, id: string, s: Session)
    requires Others(others, id) && Holds(Step(c, host, w, mine), id, s)
    ensures Holds(Turn(c, host, w, mine, others), id, s)
  {
    OthersUntouched(c, host, Step(c, host, w, mine), others, id);
  }

  /** Up to the key: the client asks, and the user enters the PIN it shows. */
  lemma KeyAgreed(c: Crypto, host: Host, w: World, u: Client, o1: seq<Call>, o2: seq<Call>) returns (s: Session)
    requires Honest(c, u) && u.id !in w.sessions && Others(o1, u.id) && Others(o2, u.id)
    ensures var w2 := Turn(c, host, Turn(c, host, w, First(u), o1), Pin(u.pin, u.name, u.id), o2);
      Holds(w2, u.id, s)
    ensures s.lastPhase == GetServerCert && s.cipherKey == Some(ClientKey(c, u)) && s.cert == u.cert && s.name == u.name
  {
    var s1 := NewSession(u.cert).(salt := u.salt, waiting := true);
    TurnHolds(c, host, w, First(u), o1, u.id, s1);
    s := s1.(lastPhase := GetServerCert, cipherKey := Some(ClientKey(c, u)), name := u.name, waiting := false);
    TurnHolds(c, host, Turn(c, host, w, First(u), o1), Pin(u.pin, u.name, u.id), o2, u.id, s);
  }

  /** The PIN goes to the session the table lists first. When that is another client's, this client's session
      stays as it was, its next request ends the session without a reply, and it is not authorised. */
  lemma PinForAnother(c: Crypto, host: Host, w: World, u: Client, first: string, secret: Data, serverChallenge: Data,
                      o1: seq<Call>, o2: seq<Call>, o3: seq<Call>)
    requires Honest(c, u) && u.id !in w.sessions && first != u.id
    requires Others(o1, u.id) && Others(o2, u.id) && Others(o3, u.id)
    ensures
      var w1 := Turn(c, host, w, First(u), o1);
      var w2 := Turn(c, host, w1, Pin(u.pin, u.name, first), o2);
      var w3 := Step(c, host, w2, Second(c, u, secret, serverChallenge));
      && u.id in w1.sessions && LeftAlone(w1, w2, u.id)
      && u.id !in w3.sessions && Reply(c, host, w2, Second(c, u, secret, serverChallenge)) == None
      && w3.authorized == w2.authorized && u.id !in Run(c, host, w3, o3).sessions
  {
    var s1 := NewSession(u.cert).(salt := u.salt, waiting := true);
    TurnHolds(c, host, w, First(u), o1, u.id, s1);
    var w1 := Turn(c, host, w, First(u), o1);
    var pin := Pin(u.pin, u.name, first);
    OtherStep(c, host, w1, pin, u.id);
    TurnHolds(c, host, w1, pin, o2, u.id, s1);
    OthersUntouched(c, host, Step(c, host, w1, pin), o2, u.id);
    var w3 := Step(c, host, Turn(c, host, w1, pin, o2), Second(c, u, secret, serverChallenge));
    OthersUntouched(c, host, w3, o3, u.id);
  }

  /** An honest client whose PIN the user enters ends authorised, having accepted the host, whatever requests
      of others come in between. */
  lemma HonestClientPairs(c: Crypto, host: Host, w: World, u: Client, secret: Data, serverChallenge: Data,
                          o1: seq<Call>, o2: seq<Call>, o3: seq<Call>, o4: seq<Call>)
    returns (second: Data, third: Data)
    requires Lawful(c) && Honest(c, u) && c.owns(host.pkey, host.cert)
    requires |secret| == SECRET_SIZE && |serverChallenge| == SECRET_SIZE
    requires u.id !in w.sessions && Others(o1, u.id) && Others(o2, u.id) && Others(o3, u.id) && Others(o4, u.id)
    ensures ClientAccepts(c, host, u, second, third)
    ensures
      var w2 := Turn(c, host, Turn(c, host, w, First(u), o1), Pin(u.pin, u.name, u.id), o2);
      var w3 := Turn(c, host, w2, Second(c, u, secret, serverChallenge), o3);
      var w4 := Turn(c, host, w3, Third(c, u, second), o4);
      var w5 := Step(c, host, w4, Fourth(c, u));
      w5.authorized == w4.authorized + [Device(u.name, u.cert)] && u.id !in w5.sessions
    ensures
      var w2 := Turn(c, host, Turn(c, host, w, First(u), o1), Pin(u.pin, u.name, u.id), o2);
      var w3 := Turn(c, host, w2, Second(c, u, secret, serverChallenge), o3);
      && Reply(c, host, w2, Second(c, u, secret, serverChallenge)) == Some(second)
      && Reply(c, host, w3, Third(c, u, second)) == Some(third)
  {
    var s2 := KeyAgreed(c, host, w, u, o1, o2);
    var w2 := Turn(c, host, Turn(c, host, w, First(u), o1), Pin(u.pin, u.name, u.id), o2);
    var second' := SecondPhase(c, host, u, s2, secret, serverChallenge);
    second := second'.reply;
    TurnHolds(c, host, w2, Second(c, u, secret, serverChallenge), o3, u.id, second'.session);
    var w3 := Turn(c, host, w2, Second(c, u, secret, serverChallenge), o3);
    var third' := ThirdPhase(c, host, u, second'.session, second, secret, serverChallenge);
    third := third'.reply;
    TurnHolds(c, host, w3, Third(c, u, second), o4, u.id, third'.session);
    FourthPhase(c, u, third'.session, serverChallenge);
  }
}
