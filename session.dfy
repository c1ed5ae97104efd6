/**
 * The session controller: the socket's message handler and
 * `sendMessage`, as a class over the state they update (the directory,
 * the chat log, the local id, the text field) plus the socket's outbound
 * queue, which stands for `socket.send`.
 *
 * Every handler here reads the CURRENT directory. The source's message
 * handler is a closure created when `connect()` runs, so its
 * `decryptFromPeer` and its username lookup read the directory as it was
 * at that moment; see `StaleHandlerDropsMessage` below.
 */
module Session {
  import opened Wrappers
  import opened Protocol
  import opened Binary
  import opened Directory
  import opened Cipher

  /**
   * `{ from, username, text }`. `from` is null on a local echo made
   * before the roster has told the client its own id.
   */
  datatype ChatEntry = ChatEntry(from: Option<string>, username: string, text: string)

  /** The entry a cipher-message handler appends, reading directory `dir`; `None` when decryption throws. */
  function Delivered(env: Env, dir: PeerMap, from: string, ivB64: string, ctB64: string): (e: Option<ChatEntry>)
    ensures e.Some? <==> DecryptFromPeer(env, dir, from, ivB64, ctB64).Ok?
    ensures !Keyed(dir, from) ==> e.None?
    ensures e.Some? ==> e.value.from == Some(from) && e.value.text == DecryptFromPeer(env, dir, from, ivB64, ctB64).value
    ensures e.Some? ==> e.value.username == DisplayName(dir, from)
    ensures env.privateKey.None? ==> e.None?
  {
    match DecryptFromPeer(env, dir, from, ivB64, ctB64)
    case Ok(text) => Some(ChatEntry(Some(from), DisplayName(dir, from), text))
    case Err(_) => None
  }

  /** What happened for one peer during a send. */
  datatype Outcome =
    | Skipped(id: string)                      // no truthy pubkey: `continue`
    | Failed(id: string, error: CryptoError)   // encryptForPeer threw: warned, loop goes on
    | Sent(id: string, sealed: Sealed)         // one encr-message and one local echo

  /** One iteration of the send loop. */
  function Step(env: Env, dir: PeerMap, id: string, text: string, iv: seq<byte>): (o: Outcome)
    ensures o.id == id
    ensures o.Sent? <==> CanEncrypt(env, dir, id)
    ensures o.Skipped? <==> !Keyed(dir, id)
  {
    if !Keyed(dir, id) then Skipped(id)
    else
      match EncryptForPeer(env, dir, id, text, iv)
      case Err(e) => Failed(id, e)
      case Ok(sealed) => Sent(id, sealed)
  }

  /** The outcome for each enumerated peer, in enumeration order; `ivs[i]` is the IV drawn at position `i`. */
  function Outcomes(env: Env, dir: PeerMap, order: seq<string>, ivs: seq<seq<byte>>, text: string): (os: seq<Outcome>)
    requires |ivs| == |order|
    ensures |os| == |order|
    ensures forall i :: 0 <= i < |os| ==> os[i].id == order[i]
    ensures forall i :: 0 <= i < |os| ==> os[i] == Step(env, dir, order[i], text, ivs[i])
  {
    if order == [] then []
    else
      var n := |order| - 1;
      Outcomes(env, dir, order[..n], ivs[..n], text) + [Step(env, dir, order[n], text, ivs[n])]
  }

  /** The messages a send puts on the socket: one per `Sent` outcome. */
  function Wire(os: seq<Outcome>): seq<Outbound> {
    if os == [] then []
    else
      var last := os[|os| - 1];
      Wire(os[..|os| - 1]) + if last.Sent? then [SendEncrMessage(last.id, last.sealed.iv, last.sealed.ct)] else []
  }

  /** The local echoes a send appends: one per `Sent` outcome. */
  function Echoes(os: seq<Outcome>, echo: ChatEntry): seq<ChatEntry> {
    if os == [] then []
    else Echoes(os[..|os| - 1], echo) + if os[|os| - 1].Sent? then [echo] else []
  }

  /** `order` lists each id of `dir` exactly once, as `Object.keys(dir)` does. */
  ghost predicate EnumeratesKeys(order: seq<string>, dir: PeerMap) {
    multiset(order) == multiset(dir.Keys)
  }

  /** The peers an outbound stream addresses, in order. */
  function Addressees(w: seq<Outbound>): seq<string> {
    if w == [] then []
    else
      var last := w[|w| - 1];
      Addressees(w[..|w| - 1]) + if last.SendEncrMessage? then [last.to] else []
  }

  /** The enumerated peers encryption can succeed for, in enumeration order. */
  function Encryptable(env: Env, dir: PeerMap, order: seq<string>): (ids: seq<string>)
    ensures forall id :: id in ids ==> id in order && CanEncrypt(env, dir, id)
  {
    if order == [] then []
    else
      var last := order[|order| - 1];
      Encryptable(env, dir, order[..|order| - 1]) + if CanEncrypt(env, dir, last) then [last] else []
  }

  lemma WireAppend(os: seq<Outcome>, o: Outcome)
    ensures Wire(os + [o]) == Wire(os) + Wire([o])
  {
  }

  lemma EchoesAppend(os: seq<Outcome>, o: Outcome, echo: ChatEntry)
    ensures Echoes(os + [o], echo) == Echoes(os, echo) + Echoes([o], echo)
  {
  }

  lemma {:induction false} AddresseesAppend(a: seq<Outbound>, b: seq<Outbound>)
    ensures Addressees(a + b) == Addressees(a) + Addressees(b)
    decreases |b|
  {
    if b == [] {
      assert a + b == a;
    } else {
      var n := |b| - 1;
      assert (a + b)[..|a + b| - 1] == a + b[..n];
      AddresseesAppend(a, b[..n]);
    }
  }

  /**
   * The fan-out addresses exactly the peers whose key is usable, in
   * enumeration order: keyless peers get nothing, and a peer whose
   * encryption fails does not stop the peers after it.
   */
  lemma {:induction false} FanOutAddressees(env: Env, dir: PeerMap, order: seq<string>, ivs: seq<seq<byte>>, text: string)
    requires |ivs| == |order|
    ensures Addressees(Wire(Outcomes(env, dir, order, ivs, text))) == Encryptable(env, dir, order)
  {
    if order != [] {
      var n := |order| - 1;
      var pre := Outcomes(env, dir, order[..n], ivs[..n], text);
      var step := Step(env, dir, order[n], text, ivs[n]);
      FanOutAddressees(env, dir, order[..n], ivs[..n], text);
      WireAppend(pre, step);
      AddresseesAppend(Wire(pre), Wire([step]));
      assert Wire([step]) == (if step.Sent? then [SendEncrMessage(step.id, step.sealed.iv, step.sealed.ct)] else []) by {
        assert [step][..0] == [];
      }
    }
  }

  /** An id occurs among the encryptable peers as often as it is enumerated, if encryption for it can succeed. */
  lemma {:induction false} EncryptableCount(env: Env, dir: PeerMap, order: seq<string>, id: string)
    ensures multiset(Encryptable(env, dir, order))[id] == if CanEncrypt(env, dir, id) then multiset(order)[id] else 0
  {
    if order != [] {
      var n := |order| - 1;
      var pre, last := order[..n], order[n];
      EncryptableCount(env, dir, pre, id);
      assert order == pre + [last];
      var tail := if CanEncrypt(env, dir, last) then [last] else [];
      assert Encryptable(env, dir, order) == Encryptable(env, dir, pre) + tail;
      assert multiset(Encryptable(env, dir, order)) == multiset(Encryptable(env, dir, pre)) + multiset(tail);
    }
  }

  /**
   * With the directory's ids enumerated once each, the send emits exactly
   * one encr-message to every peer whose key is usable and none to any
   * other id, in particular none to a peer without a pubkey.
   */
  lemma ExactlyOnePerKeyedPeer(env: Env, dir: PeerMap, order: seq<string>, ivs: seq<seq<byte>>, text: string, id: string)
    requires |ivs| == |order|
    requires EnumeratesKeys(order, dir)
    ensures multiset(Addressees(Wire(Outcomes(env, dir, order, ivs, text))))[id] == if CanEncrypt(env, dir, id) then 1 else 0
    ensures !Keyed(dir, id) ==> id !in Addressees(Wire(Outcomes(env, dir, order, ivs, text)))
  {
    FanOutAddressees(env, dir, order, ivs, text);
    EncryptableCount(env, dir, order, id);
  }

  /**
   * The log grows by one echo per message sent: as many echoes as
   * encr-messages, so none at all when no peer could be sent to.
   */
  lemma {:induction false} OneEchoPerSend(os: seq<Outcome>, echo: ChatEntry)
    ensures |Echoes(os, echo)| == |Wire(os)|
    ensures forall e :: e in Echoes(os, echo) ==> e == echo
  {
    if os != [] {
      OneEchoPerSend(os[..|os| - 1], echo);
    }
  }

  /**
   * An honest message from a peer the current directory holds a key for
   * is logged with its plaintext, under the stored username or the id.
   */
  lemma CurrentDirectoryDelivers(
    sender: Env, receiver: Env, senderDir: PeerMap, receiverDir: PeerMap, senderId: string, receiverId: string,
    plaintext: string, iv: seq<byte>)
    requires RoundTrips(sender.codec) && Opens(sender.aead)
    requires receiver.codec == sender.codec && receiver.aead == sender.aead
    requires Keyed(senderDir, receiverId) && Keyed(receiverDir, senderId)
    requires DeriveAesKey(sender, senderDir[receiverId].pubkey.value).Ok?
    requires DeriveAesKey(sender, senderDir[receiverId].pubkey.value) == DeriveAesKey(receiver, receiverDir[senderId].pubkey.value)
    ensures var sealed := EncryptForPeer(sender, senderDir, receiverId, plaintext, iv);
      && sealed.Ok?
      && Delivered(receiver, receiverDir, senderId, sealed.value.iv, sealed.value.ct)
         == Some(ChatEntry(Some(senderId), DisplayName(receiverDir, senderId), plaintext))
  {
    DecryptInvertsEncrypt(sender, receiver, senderDir, receiverDir, senderId, receiverId, plaintext, iv);
  }

  /**
   * The handler as written reads the directory captured when `connect()`
   * ran, which is empty on a first connection. Scenario: connect, receive
   * a roster listing the sender with its key, receive a message the
   * sender sealed for us. The current directory would deliver it; the
   * captured one drops it.
   */
  lemma StaleHandlerDropsMessage(
    sender: Env, receiver: Env, senderDir: PeerMap, you: string, senderId: string, receiverId: string,
    name: string, pub: string, plaintext: string, iv: seq<byte>)
    requires RoundTrips(sender.codec) && Opens(sender.aead)
    requires receiver.codec == sender.codec && receiver.aead == sender.aead
    requires name != "" && pub != ""
    requires Keyed(senderDir, receiverId)
    requires DeriveAesKey(sender, senderDir[receiverId].pubkey.value).Ok?
    requires DeriveAesKey(sender, senderDir[receiverId].pubkey.value) == DeriveAesKey(receiver, pub)
    ensures var connectTime: PeerMap := map[];
      var current := Replay(connectTime, [Peers(you, [RosterEntry(senderId, name, Some(pub))])]);
      var sealed := EncryptForPeer(sender, senderDir, receiverId, plaintext, iv);
      && sealed.Ok?
      && Delivered(receiver, connectTime, senderId, sealed.value.iv, sealed.value.ct) == None
      && Delivered(receiver, current, senderId, sealed.value.iv, sealed.value.ct)
         == Some(ChatEntry(Some(senderId), name, plaintext))
  {
    var roster := [RosterEntry(senderId, name, Some(pub))];
    var evs := [Peers(you, roster)];
    assert evs[..0] == [];
    var current := Replay(map[], evs);
    MergeRosterLastWins(map[], roster, 0);
    assert current[senderId] == PeerRecord(Some(name), Some(pub));
    CurrentDirectoryDelivers(sender, receiver, senderDir, current, senderId, receiverId, plaintext, iv);
  }

  /**
   * Before the key pair exists every encryption throws, so a send puts
   * nothing on the socket and echoes nothing.
   */
  lemma {:induction false} NoPrivateKeySendsNothing(env: Env, dir: PeerMap, order: seq<string>, ivs: seq<seq<byte>>, text: string, echo: ChatEntry)
    requires |ivs| == |order|
    requires env.privateKey.None?
    ensures Wire(Outcomes(env, dir, order, ivs, text)) == []
    ensures Echoes(Outcomes(env, dir, order, ivs, text), echo) == []
  {
    if order != [] {
      var n := |order| - 1;
      NoPrivateKeySendsNothing(env, dir, order[..n], ivs[..n], text, echo);
      var os := Outcomes(env, dir, order, ivs, text);
      assert os[..|os| - 1] == Outcomes(env, dir, order[..n], ivs[..n], text);
      assert !os[|os| - 1].Sent?;
    }
  }

  /** One more iteration of the send loop adds what `Step` says for the next peer. */
  lemma NextStep(env: Env, dir: PeerMap, order: seq<string>, ivs: seq<seq<byte>>, text: string, i: nat, echo: ChatEntry)
    requires |ivs| == |order| && i < |order|
    ensures !CanEncrypt(env, dir, order[i]) ==>
      && Wire(Outcomes(env, dir, order[..i + 1], ivs[..i + 1], text)) == Wire(Outcomes(env, dir, order[..i], ivs[..i], text))
      && Echoes(Outcomes(env, dir, order[..i + 1], ivs[..i + 1], text), echo) == Echoes(Outcomes(env, dir, order[..i], ivs[..i], text), echo)
    ensures CanEncrypt(env, dir, order[i]) ==>
      && Wire(Outcomes(env, dir, order[..i + 1], ivs[..i + 1], text))
         == Wire(Outcomes(env, dir, order[..i], ivs[..i], text)) + [SendEncrMessage(order[i], EncryptForPeer(env, dir, order[i], text, ivs[i]).value.iv, EncryptForPeer(env, dir, order[i], text, ivs[i]).value.ct)]
      && Echoes(Outcomes(env, dir, order[..i + 1], ivs[..i + 1], text), echo) == Echoes(Outcomes(env, dir, order[..i], ivs[..i], text), echo) + [echo]
  {
    var before := Outcomes(env, dir, order[..i], ivs[..i], text);
    var step := Step(env, dir, order[i], text, ivs[i]);
    assert order[..i + 1][..i] == order[..i] && ivs[..i + 1][..i] == ivs[..i];
    assert Outcomes(env, dir, order[..i + 1], ivs[..i + 1], text) == before + [step];
    WireAppend(before, step);
    EchoesAppend(before, step, echo);
    assert [step][..0] == [];
  }

  /**
   * The loop of `sendMessage` over the enumerated peer ids: skip a peer
   * without a truthy pubkey, otherwise encrypt for it; on success put one
   * encr-message on the socket queue and append one local echo to the
   * log, on failure go on with the next peer.
   */
  method FanOut(env: Env, dir: PeerMap, order: seq<string>, ivs: seq<seq<byte>>, text: string, echo: ChatEntry,
                queue: seq<Outbound>, log: seq<ChatEntry>)
    returns (queue': seq<Outbound>, log': seq<ChatEntry>)
    requires |ivs| == |order|
    ensures queue' == queue + Wire(Outcomes(env, dir, order, ivs, text))
    ensures log' == log + Echoes(Outcomes(env, dir, order, ivs, text), echo)
    ensures Addressees(queue'[|queue|..]) == Encryptable(env, dir, order)
    ensures |log'| - |log| == |queue'| - |queue| && forall e :: e in log'[|log|..] ==> e == echo
    ensures env.privateKey.None? ==> queue' == queue && log' == log
  {
    var sent, echoes := [], [];
    for i := 0 to |order|
      invariant sent == Wire(Outcomes(env, dir, order[..i], ivs[..i], text))
      invariant echoes == Echoes(Outcomes(env, dir, order[..i], ivs[..i], text), echo)
    {
      NextStep(env, dir, order, ivs, text, i, echo);
      if Keyed(dir, order[i]) {
        var r := EncryptForPeer(env, dir, order[i], text, ivs[i]);
        if r.Ok? {
          sent := sent + [SendEncrMessage(order[i], r.value.iv, r.value.ct)];
          echoes := echoes + [echo];
        }
      }
    }
    assert order[..|order|] == order && ivs[..|ivs|] == ivs;
    FanOutAddressees(env, dir, order, ivs, text);
    OneEchoPerSend(Outcomes(env, dir, order, ivs, text), echo);
    if env.privateKey.None? {
      NoPrivateKeySendsNothing(env, dir, order, ivs, text, echo);
    }
    queue', log' := queue + sent, log + echoes;
    assert queue'[|queue|..] == sent && log'[|log|..] == echoes;
  }

  /** The client component's state as the core uses it. */
  class Client {
    /** The platform's crypto calls and `privateKeyRef.current`. */
    var env: Env
    /** The username field; only read here (to label local echoes). */
    const username: string
    /** Whether `connect()` has created a socket (`ws` is non-null). */
    var hasSocket: bool
    var youId: Option<string>
    var peerMap: PeerMap
    var messages: seq<ChatEntry>
    /** Everything handed to `socket.send`, oldest first. */
    var outbox: seq<Outbound>
    /** The text field. */
    var text: string
    /** `publicKeyB64Ref.current`: null until the key pair is generated. */
    var publicKeyB64: Option<string>

    constructor (env: Env, username: string)
      ensures this.env == env.(privateKey := None) && this.username == username
      ensures !hasSocket && youId == None && peerMap == map[] && messages == []
      ensures outbox == [] && text == "" && publicKeyB64 == None
    {
      this.env := env.(privateKey := None);
      this.username := username;
      hasSocket := false;
      youId := None;
      peerMap := map[];
      messages := [];
      outbox := [];
      text := "";
      publicKeyB64 := None;
    }

    /**
     * The end of `genKeyPair`: keep the private key, and the exported raw
     * public key as base64.
     */
    method KeyPairGenerated(privateKey: PrivateKey, publicRaw: seq<byte>)
      modifies this`env, this`publicKeyB64
      ensures env == old(env).(privateKey := Some(privateKey))
      ensures publicKeyB64 == Some(Ab2b64(env.codec, publicRaw))
      ensures RoundTrips(env.codec) ==> Decoded(env.codec, publicKeyB64.value) == Some(publicRaw)
    {
      env := env.(privateKey := Some(privateKey));
      publicKeyB64 := Some(Ab2b64(env.codec, publicRaw));
      if RoundTrips(env.codec) {
        DecodedInvertsAb2b64(env.codec, publicRaw);
      }
    }

    /** `setWs(socket)` at the end of `connect()`. */
    method Connect()
      modifies this`hasSocket
      ensures hasSocket
    {
      hasSocket := true;
    }

    /** The text field's change handler. */
    method SetText(t: string)
      modifies this`text
      ensures text == t
    {
      text := t;
    }

    /**
     * A cipher message, direct or broadcast: decrypt against the sender's
     * entry and append one entry on success; on any failure (unknown
     * sender, no key, bad base64, rejected key, no key pair yet, failed
     * tag) the log is left as it was. It reads the current `peerMap`; the source reads
     * the one captured at `connect()` (see `StaleHandlerDropsMessage`).
     */
    method Receive(from: string, ivB64: string, ctB64: string)
      modifies this`messages
      ensures messages == match Delivered(env, peerMap, from, ivB64, ctB64)
                          case Some(e) => old(messages) + [e]
                          case None => old(messages)
      ensures |messages| <= |old(messages)| + 1
      ensures env.privateKey.None? ==> messages == old(messages)
    {
      if !Keyed(peerMap, from) {
        return;
      }
      var key := DeriveAesKey(env, peerMap[from].pubkey.value);
      if key.Err? {
        return;
      }
      var iv := B642ab(env.codec, ivB64);
      if iv.None? {
        return;
      }
      var ct := B642ab(env.codec, ctB64);
      if ct.None? {
        return;
      }
      var plain := env.aead.open(key.value, iv.value, ct.value);
      if plain.None? {
        return;
      }
      messages := messages + [ChatEntry(Some(from), DisplayName(peerMap, from), plain.value)];
    }

    /** The socket's message handler, for one parsed event. */
    method OnMessage(ev: Inbound)
      modifies this`youId, this`peerMap, this`messages, this`outbox
      ensures peerMap == Reduce(old(peerMap), ev)
      ensures youId == if ev.Peers? then Some(ev.you) else old(youId)
      ensures outbox == if ev.Peers? then old(outbox) + [AnnouncePubkey(publicKeyB64)] else old(outbox)
      ensures messages == match ev
                          case EncrMessage(from, iv, ct) =>
                            (match Delivered(env, old(peerMap), from, iv, ct)
                             case Some(e) => old(messages) + [e]
                             case None => old(messages))
                          case BroadcastEncrMessage(from, iv, ct) =>
                            (match Delivered(env, old(peerMap), from, iv, ct)
                             case Some(e) => old(messages) + [e]
                             case None => old(messages))
                          case _ => old(messages)
    {
      match ev
      case Peers(you, peers) =>
        youId := Some(you);
        var roster := BuildRosterMap(peers);
        peerMap := peerMap + roster;
        outbox := outbox + [AnnouncePubkey(publicKeyB64)];
      case PeerJoined(id, name) =>
        peerMap := AddJoined(peerMap, id, name);
      case PeerPubkey(id, pubkey) =>
        peerMap := SetPubkey(peerMap, id, pubkey);
      case PeerLeft(id) =>
        peerMap := RemovePeer(peerMap, id);
      case EncrMessage(from, iv, ct) =>
        Receive(from, iv, ct);
      case BroadcastEncrMessage(from, iv, ct) =>
        Receive(from, iv, ct);
      case Unrecognised =>
    }

    /**
     * `sendMessage`. `order` is `Object.keys(peerMap)`, each id once;
     * `ivs[i]` is the IV drawn if the peer at position `i` is encrypted
     * for. Without a socket nothing happens; otherwise the outcomes are
     * as `Outcomes` says, then the text field is cleared. Before the key
     * pair exists every encryption throws, so nothing is sent or echoed.
     */
    method SendMessage(order: seq<string>, ivs: seq<seq<byte>>)
      requires |ivs| == |order|
      requires EnumeratesKeys(order, peerMap)
      modifies this`messages, this`outbox, this`text
      ensures !old(hasSocket) ==> messages == old(messages) && outbox == old(outbox) && text == old(text)
      ensures old(hasSocket) ==>
        var os := Outcomes(env, peerMap, order, ivs, old(text));
        && outbox == old(outbox) + Wire(os)
        && messages == old(messages) + Echoes(os, ChatEntry(youId, username + " (you)", old(text)))
        && text == ""
      ensures env.privateKey.None? ==> outbox == old(outbox) && messages == old(messages)
    {
      if !hasSocket {
        return;
      }
      outbox, messages := FanOut(env, peerMap, order, ivs, text, ChatEntry(youId, username + " (you)", text), outbox, messages);
      text := "";
    }
  }

  /** A directory with a single id is enumerated by that id alone. */
  lemma OneKeyEnumerated(dir: PeerMap, id: string)
    requires dir.Keys == {id}
    ensures EnumeratesKeys([id], dir)
  {
    assert multiset([id]) == multiset{id};
  }

  /** Sending to a single enumerated peer whose key is usable: one message, one echo. */
  lemma SendToOnePeer(env: Env, dir: PeerMap, id: string, iv: seq<byte>, text: string, echo: ChatEntry)
    requires CanEncrypt(env, dir, id)
    ensures var sealed := EncryptForPeer(env, dir, id, text, iv).value;
      && Wire(Outcomes(env, dir, [id], [iv], text)) == [SendEncrMessage(id, sealed.iv, sealed.ct)]
      && Echoes(Outcomes(env, dir, [id], [iv], text), echo) == [echo]
  {
    assert [id][..0] == [] && [iv][..0] == [];
    var os := Outcomes(env, dir, [id], [iv], text);
    assert os[..0] == [];
  }

  /**
   * The first part of a session: key pair ready, connect, a roster with
   * one keyless peer "2", then its key announcement, then "hi" typed.
   */
  method StartScenario(env: Env, ownKey: PrivateKey, ownRaw: seq<byte>, pub: string) returns (client: Client)
    ensures fresh(client) && client.env == env.(privateKey := Some(ownKey)) && client.username == "alice"
    ensures client.hasSocket && client.youId == Some("1") && client.text == "hi"
    ensures client.peerMap == map["2" := PeerRecord(Some("bob"), Some(pub))]
    ensures client.outbox == [AnnouncePubkey(Some(Ab2b64(env.codec, ownRaw)))] && client.messages == []
  {
    client := new Client(env, "alice");
    client.KeyPairGenerated(ownKey, ownRaw);
    client.Connect();
    var roster := [RosterEntry("2", "bob", None)];
    assert roster[..0] == [];
    client.OnMessage(Peers("1", roster));
    client.OnMessage(PeerPubkey("2", Some(pub)));
    client.SetText("hi");
  }

  /**
   * After that start, sending "hi" with a usable key for "2": the client
   * has announced its key, sends one encr-message to "2" and echoes "hi" once.
   */
  method AnnounceKeySendScenario(env: Env, ownKey: PrivateKey, ownRaw: seq<byte>, pub: string, iv: seq<byte>)
    returns (wire: seq<Outbound>, log: seq<ChatEntry>)
    requires pub != "" && DeriveAesKey(env.(privateKey := Some(ownKey)), pub).Ok?
    ensures |wire| == 2
    ensures wire[0] == AnnouncePubkey(Some(Ab2b64(env.codec, ownRaw)))
    ensures wire[1].SendEncrMessage? && wire[1].to == "2" && wire[1].iv == Ab2b64(env.codec, iv)
    ensures log == [ChatEntry(Some("1"), "alice" + " (you)", "hi")]
  {
    var client := StartScenario(env, ownKey, ownRaw, pub);
    OneKeyEnumerated(client.peerMap, "2");
    client.SendMessage(["2"], [iv]);
    SendToOnePeer(client.env, client.peerMap, "2", iv, "hi", ChatEntry(Some("1"), "alice" + " (you)", "hi"));
    wire, log := client.outbox, client.messages;
  }

  /**
   * A roster arrives before the key pair has been generated: the client
   * announces a null key, and "hi" is typed for a peer that has a key.
   */
  method EarlyStartScenario(env: Env, pub: string) returns (client: Client)
    ensures fresh(client) && client.env.privateKey == None && client.hasSocket
    ensures client.peerMap == map["2" := PeerRecord(Some("bob"), Some(pub))]
    ensures client.outbox == [AnnouncePubkey(None)] && client.messages == []
  {
    client := new Client(env, "alice");
    client.Connect();
    var roster := [RosterEntry("2", "bob", Some(pub))];
    assert roster[..0] == [];
    client.OnMessage(Peers("1", roster));
    client.SetText("hi");
  }

  /**
   * After that start, sending "hi" puts nothing more on the socket and
   * echoes nothing: without a private key every encryption throws.
   */
  method EarlySendScenario(env: Env, pub: string, iv: seq<byte>) returns (wire: seq<Outbound>, log: seq<ChatEntry>)
    ensures wire == [AnnouncePubkey(None)]
    ensures log == []
  {
    var client := EarlyStartScenario(env, pub);
    OneKeyEnumerated(client.peerMap, "2");
    client.SendMessage(["2"], [iv]);
    wire, log := client.outbox, client.messages;
  }
}
