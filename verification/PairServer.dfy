/** The pairing server of src/nvhttp.cpp with its table of sessions: each handler changes the table as its step
    of the protocol says. */
module PairServer {
  import opened Pairing
  import opened Wrappers

  class Server {
    const c: Crypto
    const host: Host
    var sessions: map<string, Session>
    var authorized: seq<Device>
    ghost var log: seq<Event>

    ghost function State(): World
      reads this
    {
      World(sessions, authorized, log)
    }

    /** The stories of all sessions are told by their phases, and every authorised device has paired. */
    ghost predicate Valid()
      reads this
    {
      Pairing.Valid(c, State())
    }

    constructor (c: Crypto, host: Host)
      ensures Valid() && State() == EMPTY && this.c == c && this.host == host
    {
      this.c, this.host := c, host;
      sessions, authorized, log := map[], [], [];
    }

    /** remove_session, after a failure or at the end. */
    method RemoveSession(id: string)
      requires Valid()
      modifies this
      ensures Valid() && State() == Fail(old(State()), id)
    {
      FailKeeps(c, State(), id);
      sessions := sessions - {id};
      log := log + [Removed(id)];
    }

    method GetServerCert(id: string, pin: string, name: string)
      requires Valid() && id in sessions
      modifies this
      ensures Valid() && State() == WithKey(c, host, old(State()), id, pin, name)
    {
      WithKeyKeeps(c, host, State(), id, pin, name);
      var sess := sessions[id];
      if sess.lastPhase != Phase.Start {
        RemoveSession(id);
        return;
      }
      sess := sess.(lastPhase := Phase.GetServerCert);
      if |sess.salt| < SALT_SIZE {
        RemoveSession(id);
        return;
      }
      var key := c.genKey(sess.salt[..SALT_SIZE], pin);
      sess := sess.(cipherKey := Some(key), name := name);
      sessions := sessions[id := sess];
      log := log + [Keyed(id, sess.salt, pin, name)];
    }

    method ClientChallenge(id: string, challenge: Data, secret: Data, serverChallenge: Data)
      returns (reply: Option<Data>)
      requires Valid() && id in sessions && |secret| == SECRET_SIZE && |serverChallenge| == SECRET_SIZE
      modifies this
      ensures Valid()
      ensures var o := ClientChallengePhase(c, host, old(sessions[id]), challenge, secret, serverChallenge);
        && reply == Sent(o)
        && State() == Conclude(old(State()), id, o, Challenged(id, challenge, secret, serverChallenge))
    {
      ChallengeKeeps(c, host, State(), id, challenge, secret, serverChallenge);
      var sess := sessions[id];
      if sess.lastPhase != Phase.GetServerCert {
        RemoveSession(id);
        return None;
      }
      sess := sess.(lastPhase := Phase.ClientChallenge);
      if sess.cipherKey == None {
        RemoveSession(id);
        return None;
      }
      var key := sess.cipherKey.value;
      var decrypted := c.decrypt(key, challenge);
      decrypted := decrypted + c.signature(host.cert);
      decrypted := decrypted + secret;
      var plaintext := c.hash(decrypted) + serverChallenge;
      reply := Some(c.encrypt(key, plaintext));
      sess := sess.(serverSecret := secret, serverChallenge := serverChallenge);
      sessions := sessions[id := sess];
      log := log + [Challenged(id, challenge, secret, serverChallenge)];
    }

    method ServerChallengeResp(id: string, encrypted: Data) returns (reply: Option<Data>)
      requires Valid() && id in sessions
      modifies this
      ensures Valid()
      ensures var o := ServerChallengeRespPhase(c, host, old(sessions[id]), encrypted);
        && reply == Sent(o)
        && State() == Conclude(old(State()), id, o, Answered(id, encrypted))
    {
      AnswerKeeps(c, host, State(), id, encrypted);
      var sess := sessions[id];
      if sess.lastPhase != Phase.ClientChallenge {
        RemoveSession(id);
        return None;
      }
      sess := sess.(lastPhase := Phase.ServerChallengeResp);
      if sess.cipherKey == None || sess.serverSecret == [] {
        RemoveSession(id);
        return None;
      }
      sess := sess.(clientHash := c.decrypt(sess.cipherKey.value, encrypted));
      reply := Some(sess.serverSecret + c.sign(host.pkey, sess.serverSecret));
      sessions := sessions[id := sess];
      log := log + [Answered(id, encrypted)];
    }

    method ClientPairingSecret(id: string, secretAndSign: Data) returns (paired: bool)
      requires Valid() && id in sessions
      modifies this
      ensures Valid()
      ensures paired == ClientPairingSecretPhase(c, old(sessions[id]), secretAndSign)
      ensures State() == Finish(c, old(State()), id, secretAndSign)
    {
      FinishKeeps(c, State(), id, secretAndSign);
      var sess := sessions[id];
      if sess.lastPhase != Phase.ServerChallengeResp || |secretAndSign| <= SECRET_SIZE || !c.parses(sess.cert) {
        RemoveSession(id);
        return false;
      }
      var secret, sign := secretAndSign[..SECRET_SIZE], secretAndSign[SECRET_SIZE..];
      var data := sess.serverChallenge;
      data := data + c.signature(sess.cert);
      data := data + secret;
      var sameHash := c.hash(data) == sess.clientHash;
      var verified := c.verify(sess.cert, secret, sign);
      if sameHash && verified {
        authorized := authorized + [Device(sess.name, sess.cert)];
        log := log + [Authorized(id, Device(sess.name, sess.cert), secretAndSign)];
        sessions := sessions - {id};
        return true;
      }
      RemoveSession(id);
      return false;
    }

    /** A request for the server certificate; a missing argument ends it with an exception. */
    method AskServerCert(id: string, args: Args, stdinPin: Option<string>)
      requires Valid()
      modifies this
      ensures Valid() && State() == Ask(c, host, old(State()), id, args, stdinPin)
    {
      AskKeeps(c, host, State(), id, args, stdinPin);
      if args.clientCert == None {
        return;
      }
      if id !in sessions {
        sessions := sessions[id := NewSession(args.clientCert.value)];
        log := log + [Created(id, args.clientCert.value)];
      }
      if args.salt == None {
        return;
      }
      CreatedKeeps(c, old(State()), id, args.clientCert.value);
      TouchKeeps(c, State(), id, args.salt.value, sessions[id].waiting);
      sessions := sessions[id := sessions[id].(salt := args.salt.value)];
      if stdinPin != None {
        GetServerCert(id, stdinPin.value, sessions[id].name);
      } else {
        TouchKeeps(c, State(), id, sessions[id].salt, true);
        sessions := sessions[id := sessions[id].(waiting := true)];
      }
    }

    /** The pair handler: the phrase first, then the arguments in the order they are looked for. */
    method HandlePair(args: Args, secret: Data, serverChallenge: Data, stdinPin: Option<string>)
      returns (reply: Option<Data>)
      requires Valid() && |secret| == SECRET_SIZE && |serverChallenge| == SECRET_SIZE
      modifies this
      ensures Valid() && State() == Step(c, host, old(State()), Pair(args, secret, serverChallenge, stdinPin))
      ensures reply == Reply(c, host, old(State()), Pair(args, secret, serverChallenge, stdinPin))
    {
      reply := None;
      if args.uniqueId == None {
        return;
      }
      var id := args.uniqueId.value;
      if args.phrase == Some("getservercert") {
        AskServerCert(id, args, stdinPin);
        return;
      } else if args.phrase == Some("pairchallenge") {
        return;
      }
      if id !in sessions {
        return;
      }
      if args.clientChallenge != None {
        reply := ClientChallenge(id, args.clientChallenge.value, secret, serverChallenge);
      } else if args.serverChallengeResp != None {
        reply := ServerChallengeResp(id, args.serverChallengeResp.value);
      } else if args.clientPairingSecret != None {
        var _ := ClientPairingSecret(id, args.clientPairingSecret.value);
      }
    }

    /** The PIN from the user, for the session the table happens to list first; told whether a request waited
        for it. When the session cannot go on, nothing is promised about the answer. */
    method HandlePin(pin: string, name: string, first: string) returns (answered: bool, ghost dangling: bool)
      requires Valid() && (sessions != map[] ==> first in sessions)
      modifies this
      ensures Valid()
      ensures State() == if old(sessions) == map[] then old(State())
          else Step(c, host, old(State()), Pin(pin, name, first))
      ensures dangling <==> Digits(pin) && Dangles(old(State()), first)
      ensures !dangling ==> (answered <==> old(sessions != map[] && sessions[first].waiting) && Digits(pin))
    {
      dangling := false;
      if sessions == map[] {
        return false, dangling;
      }
      if |pin| != 4 {
        return false, dangling;
      }
      if !forall i :: 0 <= i < |pin| ==> '0' <= pin[i] <= '9' {
        return false, dangling;
      }
      answered := sessions[first].waiting;
      GetServerCert(first, pin, name);
      if first !in sessions {
        answered, dangling := *, true;
      } else {
        TouchKeeps(c, State(), first, sessions[first].salt, false);
        sessions := sessions[first := sessions[first].(waiting := false)];
      }
    }

    /** Whatever was asked of the server, in any order: who is authorised has paired. */
    lemma AuthorizedHavePaired(j: nat)
      requires Valid() && j < |authorized|
      ensures HasPaired(c, State(), j)
    {
      AuthorizedHasPaired(c, State(), j);
    }
  }
}
