/** The server's client registry and message relay (server.cpp:134-179),
    as sequential steps. The global `clients` vector is a sequence that the
    steps update in place; every `send` is recorded in an outbox instead of
    reaching a socket. */
module Relay {
  import opened Wrappers
  import opened CInt
  import opened ServerArith
  import opened RsaMath
  import opened ServerRsa
  import opened KeyMessage
  import opened DecimalText

  /** An entry of the registry (server.cpp:14-18). */
  datatype ClientInfo = ClientInfo(socket: int, publicKey: int, modulus: int)

  /** One call of `send`: the socket and the bytes sent. */
  datatype Send = Send(socket: int, payload: string)

  /** How the registration part of handleClient ends. */
  datatype Outcome =
    | Registered  // key received and answered, entry added
    | Refused     // read or send failed, or no comma: the socket is closed
    | Aborted     // std::stoi threw: the exception escapes the detached
                  // thread, std::terminate is called and the server ends

  /** Every client other than the sender has a modulus that encryption can
      use: `%` by it is defined and its products do not overflow. */
  predicate ModuliUsable(cs: seq<ClientInfo>, sender: int)
  {
    forall i :: 0 <= i < |cs| && cs[i].socket != sender ==> UsableModulus(cs[i].modulus)
  }

  /** The sends of one broadcast of text from sender (server.cpp:163-168):
      every other client, in registry order, gets text encrypted with its
      own key. */
  function Fanout(cs: seq<ClientInfo>, sender: int, text: string): seq<Send>
    requires IsBytes(text) && ModuliUsable(cs, sender)
  {
    if |cs| == 0 then []
    else
      var c := cs[|cs| - 1];
      Fanout(cs[..|cs| - 1], sender, text) +
        (if c.socket != sender then [Send(c.socket, EncryptText(text, c.publicKey, c.modulus))] else [])
  }

  /** The registry after `clients.erase(find_if(...))` (server.cpp:171-176):
      the first entry with the socket removed, if there is one. */
  function RemoveFirst(cs: seq<ClientInfo>, socket: int): seq<ClientInfo>
  {
    if |cs| == 0 then []
    else if cs[0].socket == socket then cs[1..]
    else [cs[0]] + RemoveFirst(cs[1..], socket)
  }

  /** The outcome of registration for what was read and whether the reply
      could be sent. */
  function ConnectOutcome(received: Option<string>, sendOk: bool): Outcome
  {
    match received
    case None => Refused
    case Some(text) =>
      match ParseKey(text)
      case NoDelimiter => Refused
      case NotANumber => Aborted
      case Key(_, _) => if sendOk then Registered else Refused
  }

  /** The sends caused by relaying each received message in turn. */
  function RelayAll(cs: seq<ClientInfo>, sender: int, messages: seq<string>, d: int, n: int): seq<Send>
    requires n != 0 && ModuliUsable(cs, sender)
  {
    if |messages| == 0 then []
    else
      RelayAll(cs, sender, messages[..|messages| - 1], d, n) +
        Fanout(cs, sender, DecryptText(messages[|messages| - 1], d, n))
  }

  class Server {
    const publicKey: int
    const privateKey: int
    const modulus: int
    var clients: seq<ClientInfo>
    var outbox: seq<Send>
    /** The process has ended: an exception escaped a client thread. */
    var halted: bool

    /** main's key set-up (server.cpp:182-183, 210) with an empty registry. */
    constructor(p: int, q: int)
      requires Totient(p, q) != 0
      requires InIntRange(p * q) && InIntRange(Totient(p, q)) && Totient(p, q) <= MaxModulus
      ensures KeysFor(p, q, modulus, publicKey, privateKey)
      ensures clients == [] && outbox == [] && !halted
    {
      var n, e, d := GenerateKeys(p, q);
      modulus, publicKey, privateKey := n, e, d;
      clients, outbox, halted := [], [], false;
    }

    /** The registration part of handleClient (server.cpp:135-148): read the
        client's key, answer with the server's key, add the entry. */
    method Connect(socket: int, received: Option<string>, sendOk: bool) returns (outcome: Outcome)
      requires !halted
      modifies this
      ensures outcome == ConnectOutcome(received, sendOk)
      ensures halted <==> outcome == Aborted
      ensures outcome == Registered ==>
        var key := ParseKey(received.value);
        clients == old(clients) + [ClientInfo(socket, key.publicKey, key.modulus)] &&
        outbox == old(outbox) + [Send(socket, KeyText(publicKey, modulus))]
      ensures outcome != Registered ==> clients == old(clients) && outbox == old(outbox)
    {
      if received.None? {
        return Refused;
      }
      var key := ParseKey(received.value);
      if key.NoDelimiter? {
        return Refused;
      }
      if key.NotANumber? {
        halted := true;
        return Aborted;
      }
      if !sendOk {
        return Refused;
      }
      outbox := outbox + [Send(socket, KeyText(publicKey, modulus))];
      clients := clients + [ClientInfo(socket, key.publicKey, key.modulus)];
      return Registered;
    }

    /** The loop that forwards a decrypted message (server.cpp:163-168). */
    method Broadcast(sender: int, text: string)
      requires !halted && IsBytes(text) && ModuliUsable(clients, sender)
      modifies this
      ensures clients == old(clients) && !halted
      ensures outbox == old(outbox) + Fanout(clients, sender, text)
    {
      var i := 0;
      while i < |clients|
        invariant 0 <= i <= |clients| && clients == old(clients) && !halted
        invariant ModuliUsable(clients[..i], sender)
        invariant outbox == old(outbox) + Fanout(clients[..i], sender, text)
      {
        var other := clients[i];
        FanoutStep(clients, sender, text, i);
        ghost var sent := Fanout(clients[..i], sender, text);
        if other.socket != sender {
          var encryptedMessage := Encrypt(text, other.publicKey, other.modulus);
          AppendAssociates(old(outbox), sent, [Send(other.socket, encryptedMessage)]);
          outbox := outbox + [Send(other.socket, encryptedMessage)];
        } else {
          assert sent + [] == sent;
        }
        i := i + 1;
      }
      assert clients[..i] == clients;
    }

    /** One received message (server.cpp:157-168): decrypt it with the
        server's private key and forward it to every other client. */
    method Relay(sender: int, wire: string)
      requires !halted && UsableModulus(modulus) && ModuliUsable(clients, sender)
      modifies this
      ensures clients == old(clients) && !halted
      ensures outbox == old(outbox) + Fanout(clients, sender, DecryptText(wire, privateKey, modulus))
    {
      var decryptedMessage := Decrypt(wire, privateKey, modulus);
      Broadcast(sender, decryptedMessage);
    }

    /** The clean-up after the read loop (server.cpp:171-176). */
    method Disconnect(socket: int)
      requires !halted
      modifies this
      ensures clients == RemoveFirst(old(clients), socket)
      ensures outbox == old(outbox) && !halted
    {
      var i := 0;
      while i < |clients| && clients[i].socket != socket
        invariant 0 <= i <= |clients|
        invariant forall j :: 0 <= j < i ==> clients[j].socket != socket
      {
        i := i + 1;
      }
      RemoveFirstAt(clients, socket, i);
      if i < |clients| {
        clients := clients[..i] + clients[i + 1..];
      }
    }

    /** A whole handleClient run (server.cpp:134-179) while no other client
        connects or leaves: registration, one relay per received message,
        then removal of the entry. */
    method HandleClient(socket: int, received: Option<string>, sendOk: bool, messages: seq<string>)
      returns (outcome: Outcome)
      requires !halted && UsableModulus(modulus) && ModuliUsable(clients, socket)
      modifies this
      ensures outcome == ConnectOutcome(received, sendOk)
      ensures halted <==> outcome == Aborted
      ensures outcome == Registered ==>
        var key := ParseKey(received.value);
        var registry := old(clients) + [ClientInfo(socket, key.publicKey, key.modulus)];
        ModuliUsable(registry, socket) &&
        clients == RemoveFirst(registry, socket) &&
        outbox == old(outbox) + [Send(socket, KeyText(publicKey, modulus))] +
                  RelayAll(registry, socket, messages, privateKey, modulus)
      ensures outcome != Registered ==> clients == old(clients) && outbox == old(outbox)
    {
      outcome := Connect(socket, received, sendOk);
      if outcome == Registered {
        Session(socket, messages);
      }
    }

    /** The read loop of a registered client and its removal afterwards
        (server.cpp:151-176). */
    method Session(socket: int, messages: seq<string>)
      requires !halted && UsableModulus(modulus) && ModuliUsable(clients, socket)
      modifies this
      ensures clients == RemoveFirst(old(clients), socket) && !halted
      ensures outbox == old(outbox) + RelayAll(old(clients), socket, messages, privateKey, modulus)
    {
      ReadLoop(socket, messages);
      Disconnect(socket);
    }

    /** The read loop (server.cpp:151-168): one relay per received message. */
    method ReadLoop(socket: int, messages: seq<string>)
      requires !halted && UsableModulus(modulus) && ModuliUsable(clients, socket)
      modifies this
      ensures clients == old(clients) && !halted
      ensures outbox == old(outbox) + RelayAll(clients, socket, messages, privateKey, modulus)
    {
      var k := 0;
      while k < |messages|
        invariant 0 <= k <= |messages| && clients == old(clients) && !halted
        invariant outbox == old(outbox) + RelayAll(clients, socket, messages[..k], privateKey, modulus)
      {
        RelayAllStep(clients, socket, messages, k, privateKey, modulus);
        Relay(socket, messages[k]);
        AppendAssociates(old(outbox), RelayAll(clients, socket, messages[..k], privateKey, modulus),
                         Fanout(clients, socket, DecryptText(messages[k], privateKey, modulus)));
        k := k + 1;
      }
      assert messages[..k] == messages;
    }
  }

  /** The broadcast to the first i + 1 clients extends the one to the first
      i by the send to client i, if it is not the sender. */
  lemma FanoutStep(cs: seq<ClientInfo>, sender: int, text: string, i: nat)
    requires IsBytes(text) && ModuliUsable(cs, sender) && i < |cs|
    ensures ModuliUsable(cs[..i], sender) && ModuliUsable(cs[..i + 1], sender)
    ensures Fanout(cs[..i + 1], sender, text) ==
              Fanout(cs[..i], sender, text) +
              (if cs[i].socket != sender then [Send(cs[i].socket, EncryptText(text, cs[i].publicKey, cs[i].modulus))] else [])
  {
    assert cs[..i + 1][..i] == cs[..i];
  }

  /** Relaying one more message appends its broadcast. */
  lemma RelayAllStep(cs: seq<ClientInfo>, sender: int, messages: seq<string>, k: nat, d: int, n: int)
    requires n != 0 && ModuliUsable(cs, sender) && k < |messages|
    ensures RelayAll(cs, sender, messages[..k + 1], d, n) ==
            RelayAll(cs, sender, messages[..k], d, n) + Fanout(cs, sender, DecryptText(messages[k], d, n))
  {
    assert messages[..k + 1][..k] == messages[..k];
  }

  /** s is the send that a broadcast of text from sender makes to client c. */
  predicate SentTo(c: ClientInfo, sender: int, text: string, s: Send)
    requires IsBytes(text)
  {
    c.socket == s.socket && s.socket != sender && c.modulus != 0 &&
    s.payload == EncryptText(text, c.publicKey, c.modulus)
  }

  /** A broadcast never sends to the sender, and sends to a socket exactly
      the text encrypted for a registered client with that socket. */
  lemma {:induction false} FanoutTargets(cs: seq<ClientInfo>, sender: int, text: string, s: Send)
    requires IsBytes(text) && ModuliUsable(cs, sender)
    ensures s in Fanout(cs, sender, text) <==>
              exists i :: 0 <= i < |cs| && SentTo(cs[i], sender, text, s)
  {
    if |cs| > 0 {
      var init, c := cs[..|cs| - 1], cs[|cs| - 1];
      FanoutTargets(init, sender, text, s);
      assert s in Fanout(cs, sender, text) <==>
               s in Fanout(init, sender, text) || SentTo(c, sender, text, s);
      SomeClientSplit(cs, init, sender, text, s);
    }
  }

  /** Some client of cs receives s exactly when some client of its prefix
      does or the last one does. */
  lemma SomeClientSplit(cs: seq<ClientInfo>, init: seq<ClientInfo>, sender: int, text: string, s: Send)
    requires IsBytes(text) && |cs| > 0 && init == cs[..|cs| - 1]
    ensures (exists i :: 0 <= i < |cs| && SentTo(cs[i], sender, text, s)) <==>
              (exists i :: 0 <= i < |init| && SentTo(init[i], sender, text, s)) ||
              SentTo(cs[|cs| - 1], sender, text, s)
  {
    if i :| 0 <= i < |cs| && SentTo(cs[i], sender, text, s) {
      if i < |cs| - 1 {
        assert init[i] == cs[i];
      }
    }
    if i :| 0 <= i < |init| && SentTo(init[i], sender, text, s) {
      assert init[i] == cs[i];
    }
  }

  /** Every client other than the sender gets exactly one send. */
  lemma {:induction false} FanoutLength(cs: seq<ClientInfo>, sender: int, text: string)
    requires IsBytes(text) && ModuliUsable(cs, sender)
    ensures |Fanout(cs, sender, text)| == |cs| - Count(cs, sender)
  {
    if |cs| > 0 {
      FanoutLength(cs[..|cs| - 1], sender, text);
      CountSplit(cs, sender);
    }
  }

  /** The number of entries with the given socket. */
  function Count(cs: seq<ClientInfo>, socket: int): (k: nat)
    ensures k <= |cs|
  {
    if |cs| == 0 then 0 else (if cs[0].socket == socket then 1 else 0) + Count(cs[1..], socket)
  }

  /** Counting from the back gives the same number. */
  lemma {:induction false} CountSplit(cs: seq<ClientInfo>, socket: int)
    requires |cs| > 0
    ensures Count(cs, socket) ==
              Count(cs[..|cs| - 1], socket) + (if cs[|cs| - 1].socket == socket then 1 else 0)
  {
    if |cs| > 1 {
      CountSplit(cs[1..], socket);
      assert cs[1..][..|cs[1..]| - 1] == cs[..|cs| - 1][1..];
    }
  }

  /** RemoveFirst removes the entry at the first index i with the socket and
      keeps every other entry in order; without such an entry it changes
      nothing. */
  lemma {:induction false} RemoveFirstAt(cs: seq<ClientInfo>, socket: int, i: nat)
    requires i <= |cs| && (i < |cs| ==> cs[i].socket == socket)
    requires forall j :: 0 <= j < i ==> cs[j].socket != socket
    ensures RemoveFirst(cs, socket) == if i < |cs| then cs[..i] + cs[i + 1..] else cs
  {
    if |cs| > 0 && i > 0 {
      RemoveFirstAt(cs[1..], socket, i - 1);
      if i < |cs| {
        assert cs[1..][..i - 1] == cs[1..i];
        assert cs[1..][i..] == cs[i + 1..];
        assert [cs[0]] + cs[1..i] == cs[..i];
      } else {
        assert [cs[0]] + cs[1..] == cs;
      }
    }
  }

  /** Disconnect shrinks the registry by exactly one entry when the socket is
      registered, and leaves it as it is otherwise. */
  lemma {:induction false} RemoveFirstLength(cs: seq<ClientInfo>, socket: int)
    ensures Count(cs, socket) > 0 ==> |RemoveFirst(cs, socket)| == |cs| - 1
    ensures Count(cs, socket) == 0 ==> RemoveFirst(cs, socket) == cs
    ensures Count(RemoveFirst(cs, socket), socket) == if Count(cs, socket) > 0 then Count(cs, socket) - 1 else 0
  {
    if |cs| > 0 {
      RemoveFirstLength(cs[1..], socket);
      if cs[0].socket != socket {
        assert ([cs[0]] + RemoveFirst(cs[1..], socket))[1..] == RemoveFirst(cs[1..], socket);
      }
    }
  }

  /** End to end: when the sender encrypted msg with the server's public key
      and the server's keys come from two distinct primes with n > 128, every
      other client is sent msg encrypted with its own key. */
  lemma RelayForwardsPlaintext(p: int, q: int, n: int, e: int, d: int,
                               cs: seq<ClientInfo>, sender: int, msg: string)
    requires Prime(p) && Prime(q) && p != q && 128 < n <= MaxModulus
    requires Totient(p, q) != 0 && KeysFor(p, q, n, e, d)
    requires IsBytes(msg) && ModuliUsable(cs, sender)
    ensures Fanout(cs, sender, DecryptText(EncryptText(msg, e, n), d, n)) == Fanout(cs, sender, msg)
  {
    RoundTrip(p, q, n, e, d, msg);
  }
}
