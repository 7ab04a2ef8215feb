/** The browser client's peer-session logic: the table of per-peer secrets
    filled from roster packets, the dispatch of inbound packets, the
    fan-out of one outbound message into one encrypted packet per known
    peer, and the capped message list. The Web Crypto primitives are
    uninterpreted parameters; a rejected promise is `None`. */
module Client {
  import opened Wrappers
  import opened Dict
  import opened Base64
  import opened JsText

  /** A handle to a non-extractable Web Crypto key: the AES-GCM key that
      ECDH derives for one peer. Its material is never visible. */
  datatype CryptoKey = CryptoKey(handle: nat)

  /** The 12 random bytes `getRandomValues` draws for one AES-GCM call. */
  type Iv = b: seq<Byte> | |b| == 12 witness [0, 0, 0, 0, 0, 0, 0, 0, 0, 0, 0, 0]

  /** The primitives the client awaits, with the local key pair bound in:
      `importAndDerive` is `importKey("spki", ...)` followed by `deriveKey`
      with the local private key; `seal` is UTF-8 encoding followed by
      AES-GCM encryption; `open` is AES-GCM decryption followed by UTF-8
      decoding. Each answers None where the promise rejects. */
  datatype Crypto = Crypto(
    importAndDerive: seq<Byte> -> Option<CryptoKey>,
    seal: (CryptoKey, Iv, string) -> Option<seq<Byte>>,
    open: (CryptoKey, seq<Byte>, seq<Byte>) -> Option<string>)

  /** `peerSecrets`: a peer's serialised public key to the derived key, in
      the order the keys were added. */
  type PeerTable = Dict<string, CryptoKey>

  /** One entry of the message list; `own` marks the sender's own text. */
  datatype Message = Message(text: string, own: bool)

  /** Only the latest 50 messages are kept. */
  const MaxMessages: nat := 50

  /** The local notice added when there is nobody to send to. */
  const NoPeersNotice: string := "No peers nearby to send message to"

  datatype Client = Client(peers: PeerTable, messages: seq<Message>)

  /** A field of a parsed packet: absent (`undefined`), `null`, a string,
      or any other JSON value (a number, boolean, array or object) with
      the text JavaScript's ToString gives it. */
  datatype JsValue = Undefined | Null | Str(s: string) | Other(text: string)

  /** An inbound packet after `JSON.parse`: type "peers", or anything else,
      which is taken for an encrypted message. */
  datatype Packet =
    | Peers(pubs: seq<JsValue>)
    | Relayed(peer: JsValue, iv: JsValue, data: JsValue)

  /** The packet sent for one recipient: `{peer, iv, data}`. */
  datatype WirePacket = WirePacket(peer: string, iv: string, data: string)

  datatype Received = Received(client: Client, peerCount: Option<nat>)

  datatype Sent = Sent(client: Client, packets: seq<WirePacket>)

  // ---------------------------------------------------------------------
  // Message list

  /** The last `MaxMessages` elements of `s` (all of them when fewer). */
  function Latest(s: seq<Message>): (r: seq<Message>)
    ensures |r| <= MaxMessages
  {
    if |s| > MaxMessages then s[|s| - MaxMessages..] else s
  }

  /** `addMessage`: appends, then removes the oldest entries beyond the
      limit. The result is the newest suffix of the list with `m` at its
      end. */
  function AddMessage(msgs: seq<Message>, m: Message): (r: seq<Message>)
    ensures |r| == if |msgs| < MaxMessages then |msgs| + 1 else MaxMessages
    ensures r == (msgs + [m])[|msgs| + 1 - |r|..]
    ensures r[|r| - 1] == m
  {
    var all := msgs + [m];
    if |all| > MaxMessages then all[|all| - MaxMessages..] else all
  }

  /** A run of `addMessage` calls, oldest first. */
  function AddAll(msgs: seq<Message>, ms: seq<Message>): seq<Message>
    decreases |ms|
  {
    if |ms| == 0 then msgs else AddMessage(AddAll(msgs, ms[..|ms| - 1]), ms[|ms| - 1])
  }

  /** Adding one message to the latest window of `x` gives the latest
      window of `x` extended by that message. */
  lemma AddToLatest(x: seq<Message>, m: Message)
    ensures AddMessage(Latest(x), m) == Latest(x + [m])
  {
    if |x| > MaxMessages {
      var l := Latest(x);
      assert |l| == MaxMessages;
      var r := AddMessage(l, m);
      assert r == (l + [m])[1..];
      assert Latest(x + [m]) == (x + [m])[|x| + 1 - MaxMessages..];
      forall i | 0 <= i < MaxMessages ensures r[i] == (x + [m])[|x| + 1 - MaxMessages + i] {
        if i < MaxMessages - 1 {
          assert r[i] == l[i + 1] == x[|x| - MaxMessages + i + 1];
        }
      }
    }
  }

  /** However many messages arrive, the list holds exactly the latest
      `MaxMessages` of everything ever added. */
  lemma {:induction false} AddAllKeepsLatest(msgs: seq<Message>, ms: seq<Message>)
    requires |msgs| <= MaxMessages
    ensures AddAll(msgs, ms) == Latest(msgs + ms)
    decreases |ms|
  {
    if |ms| > 0 {
      var init := ms[..|ms| - 1];
      var m := ms[|ms| - 1];
      AddAllKeepsLatest(msgs, init);
      assert msgs + ms == (msgs + init) + [m];
      AddToLatest(msgs + init, m);
    }
  }

  // ---------------------------------------------------------------------
  // Peer table

  /** Imports a peer's Base64 SPKI key and derives the shared key;
      None when `atob`, the import or the derivation fails. */
  function DeriveSecret(c: Crypto, pub: string): (r: Option<CryptoKey>)
    ensures WireToBytes(pub).None? ==> r.None?
    ensures forall spki: seq<Byte> :: pub == BytesToWire(spki) ==> r == c.importAndDerive(spki)
  {
    assert forall spki: seq<Byte> :: pub == BytesToWire(spki) ==> WireToBytes(pub) == Some(spki) by {
      forall spki: seq<Byte> | pub == BytesToWire(spki) ensures WireToBytes(pub) == Some(spki) {
        WireRoundTrip(spki);
      }
    }
    match WireToBytes(pub)
    case None => None
    case Some(spki) => c.importAndDerive(spki)
  }

  /** One iteration of the roster loop: a known key is skipped, an
      unknown one is derived and added, a failure leaves the table as is. */
  function AddPeer(t: PeerTable, c: Crypto, pub: string): (r: PeerTable)
    requires Valid(t)
    ensures Valid(r)
    ensures forall p :: p in r.vals ==> p in t.vals || (p == pub && DeriveSecret(c, p).Some?)
    ensures DeriveSecret(c, pub).Some? ==> pub in r.vals
    ensures forall p :: p in t.vals ==> p in r.vals && r.vals[p] == t.vals[p]
    ensures forall p :: p in r.vals && p !in t.vals ==> DeriveSecret(c, p) == Some(r.vals[p])
    ensures t.keys <= r.keys
  {
    if pub in t.vals then t
    else match DeriveSecret(c, pub)
      case None => t
      case Some(k) => Put(t, pub, k)
  }

  /** One roster entry as intended: a string goes through `AddPeer`; any
      other value is skipped, as a key whose import fails is. */
  function AddEntry(t: PeerTable, c: Crypto, v: JsValue): (r: PeerTable)
    requires Valid(t)
    ensures Valid(r)
    ensures v.Str? ==> r == AddPeer(t, c, v.s)
    ensures !v.Str? ==> r == t
  {
    if v.Str? then AddPeer(t, c, v.s) else t
  }

  /** The roster loop over `pkt.pubs`, with every entry isolated from the
      others. The table gains exactly the listed string keys that were
      absent and whose derivation succeeds, each bound to its derived key
      and appended in roster order; every entry already present keeps its
      key and its place. */
  function AddPeers(t: PeerTable, c: Crypto, pubs: seq<JsValue>): (r: PeerTable)
    requires Valid(t)
    ensures Valid(r)
    ensures forall p :: p in r.vals ==> p in t.vals || (Str(p) in pubs && DeriveSecret(c, p).Some?)
    ensures forall p :: Str(p) in pubs && DeriveSecret(c, p).Some? ==> p in r.vals
    ensures forall p :: p in t.vals ==> p in r.vals && r.vals[p] == t.vals[p]
    ensures forall p :: p in r.vals && p !in t.vals ==> DeriveSecret(c, p) == Some(r.vals[p])
    ensures t.keys <= r.keys
    decreases |pubs|
  {
    if |pubs| == 0 then t
    else
      var t' := AddEntry(t, c, pubs[0]);
      var r := AddPeers(t', c, pubs[1..]);
      assert forall v :: v in pubs ==> v == pubs[0] || v in pubs[1..];
      r
  }

  datatype RosterRun = RosterRun(table: PeerTable, completed: bool)

  /** The roster loop as written: the known-key check comes first, but the
      log line calling `peerPub.substring` sits before the `try`, so an
      entry that is not a string and whose text is not a key of the table
      throws out of the loop. The remaining entries are never processed
      and the handler stops there (`completed` is false). */
  function AddPeersAsWritten(t: PeerTable, c: Crypto, pubs: seq<JsValue>): (r: RosterRun)
    requires Valid(t)
    ensures Valid(r.table)
    ensures (forall v :: v in pubs ==> v.Str?) ==> r == RosterRun(AddPeers(t, c, pubs), true)
    ensures forall p :: p in t.vals ==> p in r.table.vals && r.table.vals[p] == t.vals[p]
    decreases |pubs|
  {
    if |pubs| == 0 then RosterRun(t, true)
    else
      var v := pubs[0];
      if JsString(v) in t.vals then
        assert v.Str? ==> AddPeer(t, c, v.s) == t;
        AddPeersAsWritten(t, c, pubs[1..])
      else if !v.Str? then RosterRun(t, false)
      else AddPeersAsWritten(AddPeer(t, c, v.s), c, pubs[1..])
  }

  /** A `null` ahead of a fresh, well-formed key: as written the loop stops
      at the `null` and the key is never added, where skipping the entry
      adds it. */
  lemma RosterAbortsOnNull(c: Crypto, spki: seq<Byte>)
    requires c.importAndDerive(spki).Some?
    ensures var p := BytesToWire(spki);
      var w := AddPeersAsWritten(Empty(), c, [Null, Str(p)]);
      && !w.completed
      && p !in w.table.vals
      && p in AddPeers(Empty(), c, [Null, Str(p)]).vals
  {
    var p := BytesToWire(spki);
    assert DeriveSecret(c, p).Some?;
    var e: PeerTable := Empty();
    assert JsString(Null) !in e.vals;
    assert Str(p) in [Null, Str(p)];
  }

  /** A roster whose every key is known or fails to derive changes nothing. */
  lemma {:induction false} AddPeersNoOp(t: PeerTable, c: Crypto, pubs: seq<JsValue>)
    requires Valid(t)
    requires forall v :: v in pubs && v.Str? ==> v.s in t.vals || DeriveSecret(c, v.s).None?
    ensures AddPeers(t, c, pubs) == t
    decreases |pubs|
  {
    if |pubs| > 0 {
      assert AddEntry(t, c, pubs[0]) == t;
      AddPeersNoOp(t, c, pubs[1..]);
    }
  }

  /** Processing the same roster twice leaves the table as once. */
  lemma RosterIdempotent(t: PeerTable, c: Crypto, pubs: seq<JsValue>)
    requires Valid(t)
    ensures AddPeers(AddPeers(t, c, pubs), c, pubs) == AddPeers(t, c, pubs)
  {
    AddPeersNoOp(AddPeers(t, c, pubs), c, pubs);
  }

  /** A key whose import or derivation fails is as if it were not in the
      roster: the remaining keys are processed exactly the same. */
  lemma {:induction false} RosterFailureIsolated(t: PeerTable, c: Crypto, pubs: seq<JsValue>, i: nat)
    requires Valid(t)
    requires i < |pubs| && (pubs[i].Str? ==> pubs[i].s !in t.vals && DeriveSecret(c, pubs[i].s).None?)
    ensures AddPeers(t, c, pubs) == AddPeers(t, c, pubs[..i] + pubs[i + 1..])
    decreases i
  {
    var rest := pubs[..i] + pubs[i + 1..];
    if i == 0 {
      assert rest == pubs[1..];
      assert AddEntry(t, c, pubs[0]) == t;
    } else {
      var t' := AddEntry(t, c, pubs[0]);
      assert pubs[i] == pubs[1..][i - 1];
      assert pubs[i].Str? ==> pubs[i].s !in t'.vals;
      RosterFailureIsolated(t', c, pubs[1..], i - 1);
      SkipPastHead(t, c, pubs, i);
    }
  }

  /** Dropping an entry behind the head leaves the head processed first. */
  lemma SkipPastHead(t: PeerTable, c: Crypto, pubs: seq<JsValue>, i: nat)
    requires Valid(t) && 0 < i < |pubs|
    ensures AddPeers(t, c, pubs[..i] + pubs[i + 1..])
      == AddPeers(AddEntry(t, c, pubs[0]), c, pubs[1..][..i - 1] + pubs[1..][i..])
  {
    var rest := pubs[..i] + pubs[i + 1..];
    assert rest[0] == pubs[0];
    assert rest[1..] == pubs[1..][..i - 1] + pubs[1..][i..];
  }

  // ---------------------------------------------------------------------
  // Inbound dispatch

  /** A value converted to a string or property key by ToString: an absent
      field becomes "undefined" and `null` becomes "null". */
  function JsString(v: JsValue): string {
    match v
    case Undefined => "undefined"
    case Null => "null"
    case Str(s) => s
    case Other(text) => text
  }

  /** `crypto.decrypt({iv, data}, key)`: both fields go through `atob` and
      `charCodeAt`; None when either `atob` or the decryption throws. */
  function Decrypt(c: Crypto, key: CryptoKey, iv: JsValue, data: JsValue): (r: Option<string>)
    ensures WireToBytes(JsString(iv)).None? ==> r.None?
    ensures WireToBytes(JsString(data)).None? ==> r.None?
    ensures WireToBytes(JsString(iv)).Some? && WireToBytes(JsString(data)).Some? ==>
      r == c.open(key, WireToBytes(JsString(iv)).value, WireToBytes(JsString(data)).value)
  {
    match (WireToBytes(JsString(iv)), WireToBytes(JsString(data)))
    case (Some(ivBytes), Some(ct)) => c.open(key, ivBytes, ct)
    case _ => None
  }

  /** A field framed by `BytesToWire` decodes back to the framed bytes. */
  lemma FramedField(v: JsValue, b: seq<Byte>)
    requires v == Str(BytesToWire(b))
    ensures WireToBytes(JsString(v)) == Some(b)
  {
    WireRoundTrip(b);
  }

  /** Fields framed as the sender frames them decrypt exactly what was
      sealed under that iv: `atob` undoes `btoa` and `charCodeAt` undoes
      `String.fromCharCode`. */
  lemma DecryptFramed(c: Crypto, key: CryptoKey, ivBytes: seq<Byte>, ct: seq<Byte>)
    ensures Decrypt(c, key, Str(BytesToWire(ivBytes)), Str(BytesToWire(ct))) == c.open(key, ivBytes, ct)
  {
    FramedField(Str(BytesToWire(ivBytes)), ivBytes);
    FramedField(Str(BytesToWire(ct)), ct);
  }

  /** `decryptAndRender`: an unknown sender or a failed decryption is
      dropped with no change; otherwise the plaintext is appended as a
      message from someone else. The table never changes. */
  function DecryptAndRender(st: Client, c: Crypto, peer: JsValue, iv: JsValue, data: JsValue): (r: Client)
    ensures r.peers == st.peers
    ensures JsString(peer) !in st.peers.vals ==> r == st
    ensures JsString(peer) in st.peers.vals ==>
      match Decrypt(c, st.peers.vals[JsString(peer)], iv, data)
      case None => r == st
      case Some(text) => r.messages == AddMessage(st.messages, Message(text, false))
  {
    var key := JsString(peer);
    if key !in st.peers.vals then st
    else match Decrypt(c, st.peers.vals[key], iv, data)
      case None => st
      case Some(text) => Client(st.peers, AddMessage(st.messages, Message(text, false)))
  }

  /** `ws.onmessage`: a roster goes to the roster loop and reports the
      peer count, which is the number of keys in the table; anything else
      is an encrypted message and leaves the table alone. */
  function Receive(st: Client, c: Crypto, pkt: Packet): (r: Received)
    requires Valid(st.peers)
    ensures Valid(r.client.peers)
    ensures pkt.Peers? ==> r.client.peers == AddPeers(st.peers, c, pkt.pubs)
    ensures pkt.Peers? ==> r.client.messages == st.messages
    ensures pkt.Peers? ==> r.peerCount == Some(|r.client.peers.vals|)
    ensures pkt.Relayed? ==> r.peerCount.None? && r.client.peers == st.peers
    ensures pkt.Relayed? ==> r.client == DecryptAndRender(st, c, pkt.peer, pkt.iv, pkt.data)
  {
    match pkt
    case Peers(pubs) =>
      var t := AddPeers(st.peers, c, pubs);
      SizeIsCardinality(t);
      Received(Client(t, st.messages), Some(Size(t)))
    case Relayed(peer, iv, data) =>
      Received(DecryptAndRender(st, c, peer, iv, data), None)
  }

  /** A missing `iv` or `data` field cannot be decoded: `atob` receives the
      nine characters of "undefined", a length no Base64 text has. */
  lemma MissingFieldFails()
    ensures WireToBytes(JsString(Undefined)).None?
  {
    var s := "undefined";
    assert forall i :: 0 <= i < |s| ==> !IsAsciiWhitespace(s[i]);
    OneModFourRejected(s);
  }

  /** A `null` field, which the relay forwards unchanged, is not an error
      at this stage: `atob` receives the four alphabet characters of "null"
      and yields three bytes, which go on to the decryption. */
  lemma NullFieldDecodes()
    ensures WireToBytes(JsString(Null)).Some?
    ensures |WireToBytes(JsString(Null)).value| == 3
  {
    var s := "null";
    assert forall i :: 0 <= i < |s| ==> !IsAsciiWhitespace(s[i]);
    var w := StripWhitespace(s);
    assert w == s;
    var d := StripPadding(w);
    assert d == s;
    assert forall i :: 0 <= i < |d| ==> SextetOf(d[i]).Some?;
    assert Decode(s).Some?;
  }

  /** A message whose sender is not in the table changes nothing at all. */
  lemma UnknownSenderDropped(st: Client, c: Crypto, peer: JsValue, iv: JsValue, data: JsValue)
    requires Valid(st.peers)
    requires JsString(peer) !in st.peers.vals
    ensures Receive(st, c, Relayed(peer, iv, data)) == Received(st, None)
  {
  }

  /** A packet from a known sender, framed as senders frame it, whose
      ciphertext opens under that sender's key is shown, as someone else's
      message, under the cap; the table does not change. */
  lemma KnownSenderShown(st: Client, c: Crypto, p: string, ivBytes: seq<Byte>, ct: seq<Byte>)
    requires Valid(st.peers) && p in st.peers.vals
    requires c.open(st.peers.vals[p], ivBytes, ct).Some?
    ensures var text := c.open(st.peers.vals[p], ivBytes, ct).value;
      Receive(st, c, Relayed(Str(p), Str(BytesToWire(ivBytes)), Str(BytesToWire(ct))))
        == Received(Client(st.peers, AddMessage(st.messages, Message(text, false))), None)
  {
    DecryptFramed(c, st.peers.vals[p], ivBytes, ct);
  }

  // ---------------------------------------------------------------------
  // Outbound fan-out

  /** The packet for peer `p`: the text sealed under `p`'s key with `p`'s
      fresh IV, tagged with the sender's own public key; None when the
      encryption fails. */
  function SealFor(t: PeerTable, c: Crypto, me: string, ivs: string -> Iv, text: string, p: string): (r: Option<WirePacket>)
    requires p in t.vals
    ensures r.Some? <==> c.seal(t.vals[p], ivs(p), text).Some?
    ensures r.Some? ==> r.value.peer == me
  {
    match c.seal(t.vals[p], ivs(p), text)
    case None => None
    case Some(ct) => Some(WirePacket(me, BytesToWire(ivs(p)), BytesToWire(ct)))
  }

  /** The peers of `order` for which encryption succeeds, in order. */
  function Recipients(t: PeerTable, c: Crypto, ivs: string -> Iv, text: string, order: seq<string>): (r: seq<string>)
    requires forall p :: p in order ==> p in t.vals
    ensures forall p :: p in r ==> p in order && c.seal(t.vals[p], ivs(p), text).Some?
    ensures forall p :: p in order && c.seal(t.vals[p], ivs(p), text).Some? ==> p in r
    ensures |r| <= |order|
    ensures Distinct(order) ==> Distinct(r)
    decreases |order|
  {
    if |order| == 0 then []
    else
      assert Distinct(order) ==> Distinct(order[1..]) && order[0] !in order[1..] by {
        if Distinct(order) { DistinctTail(order); }
      }
      var rest := Recipients(t, c, ivs, text, order[1..]);
      if c.seal(t.vals[order[0]], ivs(order[0]), text).Some? then [order[0]] + rest else rest
  }

  /** The loop over `Object.entries(peerSecrets)`: one packet per peer of
      `order` whose encryption succeeds, in that order; a failure skips
      only that peer. */
  function FanOut(t: PeerTable, c: Crypto, me: string, ivs: string -> Iv, text: string, order: seq<string>): (r: seq<WirePacket>)
    requires forall p :: p in order ==> p in t.vals
    ensures |r| <= |order|
    ensures forall w :: w in r ==> w.peer == me
    decreases |order|
  {
    if |order| == 0 then []
    else
      var rest := FanOut(t, c, me, ivs, text, order[1..]);
      match SealFor(t, c, me, ivs, text, order[0])
      case None => rest
      case Some(w) => [w] + rest
  }

  /** Packet `i` is the one sealed for the `i`-th peer whose encryption
      succeeds: no peer is skipped unless its encryption fails, and none is
      served twice. */
  lemma {:induction false} FanOutMatchesRecipients(t: PeerTable, c: Crypto, me: string, ivs: string -> Iv, text: string, order: seq<string>)
    requires forall p :: p in order ==> p in t.vals
    ensures var r := FanOut(t, c, me, ivs, text, order);
      var to := Recipients(t, c, ivs, text, order);
      && |r| == |to|
      && forall i :: 0 <= i < |r| ==> SealFor(t, c, me, ivs, text, to[i]) == Some(r[i])
    decreases |order|
  {
    if |order| > 0 {
      var p := order[0];
      var rest := FanOut(t, c, me, ivs, text, order[1..]);
      var to := Recipients(t, c, ivs, text, order[1..]);
      FanOutMatchesRecipients(t, c, me, ivs, text, order[1..]);
      match SealFor(t, c, me, ivs, text, p)
      case None =>
        assert FanOut(t, c, me, ivs, text, order) == rest;
        assert Recipients(t, c, ivs, text, order) == to;
      case Some(w) =>
        assert FanOut(t, c, me, ivs, text, order) == [w] + rest;
        assert Recipients(t, c, ivs, text, order) == [p] + to;
    }
  }

  /** `sendMessage`: the text is trimmed; empty text does nothing; with no
      peers a single local notice is added and nothing is sent; otherwise
      the text is shown as the sender's own and fanned out over the table
      in insertion order. The table never changes. */
  function Send(st: Client, c: Crypto, me: string, ivs: string -> Iv, input: string): (r: Sent)
    requires Valid(st.peers)
    ensures r.client.peers == st.peers
    ensures Trim(input) == [] ==> r == Sent(st, [])
    ensures Trim(input) != [] && |st.peers.vals| == 0 ==>
      r.packets == [] && r.client.messages == AddMessage(st.messages, Message(NoPeersNotice, false))
    ensures Trim(input) != [] && |st.peers.vals| > 0 ==>
      && r.client.messages == AddMessage(st.messages, Message(Trim(input), true))
      && r.packets == FanOut(st.peers, c, me, ivs, Trim(input), st.peers.keys)
    ensures |r.packets| <= |st.peers.vals|
    ensures forall w :: w in r.packets ==> w.peer == me
  {
    SizeIsCardinality(st.peers);
    var text := Trim(input);
    if text == [] then Sent(st, [])
    else if Size(st.peers) == 0 then
      Sent(Client(st.peers, AddMessage(st.messages, Message(NoPeersNotice, false))), [])
    else
      var packets := FanOut(st.peers, c, me, ivs, text, st.peers.keys);
      Sent(Client(st.peers, AddMessage(st.messages, Message(text, true))), packets)
  }

  /** With known peers, the packets go to distinct table entries, exactly
      those whose encryption succeeds, one each. */
  lemma SendOnePerPeer(st: Client, c: Crypto, me: string, ivs: string -> Iv, input: string)
    requires Valid(st.peers)
    requires Trim(input) != [] && |st.peers.vals| > 0
    ensures var to := Recipients(st.peers, c, ivs, Trim(input), st.peers.keys);
      && Distinct(to)
      && |Send(st, c, me, ivs, input).packets| == |to|
      && (forall p :: p in to <==> p in st.peers.vals && c.seal(st.peers.vals[p], ivs(p), Trim(input)).Some?)
      && (forall i :: 0 <= i < |to| ==> SealFor(st.peers, c, me, ivs, Trim(input), to[i]) == Some(Send(st, c, me, ivs, input).packets[i]))
  {
    FanOutMatchesRecipients(st.peers, c, me, ivs, Trim(input), st.peers.keys);
  }

  /** An encryption failure for one peer removes only that peer's packet. */
  lemma {:induction false} FanOutSkipsOnlyFailing(t: PeerTable, c: Crypto, me: string, ivs: string -> Iv, text: string, order: seq<string>, i: nat)
    requires forall p :: p in order ==> p in t.vals
    requires i < |order| && c.seal(t.vals[order[i]], ivs(order[i]), text).None?
    ensures FanOut(t, c, me, ivs, text, order) == FanOut(t, c, me, ivs, text, order[..i] + order[i + 1..])
    decreases i
  {
    var rest := order[..i] + order[i + 1..];
    if i == 0 {
      assert rest == order[1..];
      assert SealFor(t, c, me, ivs, text, order[0]).None?;
    } else {
      FanOutSkipsOnlyFailing(t, c, me, ivs, text, order[1..], i - 1);
      assert rest[0] == order[0];
      assert rest[1..] == order[1..][..i - 1] + order[1..][i..];
    }
  }

  /** When every encryption succeeds, every peer gets exactly one packet. */
  lemma {:induction false} FanOutAllSucceed(t: PeerTable, c: Crypto, me: string, ivs: string -> Iv, text: string, order: seq<string>)
    requires forall p :: p in order ==> p in t.vals
    requires forall p :: p in order ==> c.seal(t.vals[p], ivs(p), text).Some?
    ensures Recipients(t, c, ivs, text, order) == order
    ensures |FanOut(t, c, me, ivs, text, order)| == |order|
    decreases |order|
  {
    if |order| > 0 {
      FanOutAllSucceed(t, c, me, ivs, text, order[1..]);
    }
  }

  /** End to end: a receiver that holds key `k` for the sender and gets the
      packet built for peer `p` decrypts exactly the IV and ciphertext bytes
      the sender produced for `p`. */
  lemma PacketDecryptsToSealed(t: PeerTable, c: Crypto, me: string, ivs: string -> Iv, text: string, p: string,
                               receiver: Crypto, k: CryptoKey)
    requires p in t.vals && c.seal(t.vals[p], ivs(p), text).Some?
    ensures var w := SealFor(t, c, me, ivs, text, p).value;
      Decrypt(receiver, k, Str(w.iv), Str(w.data))
        == receiver.open(k, ivs(p), c.seal(t.vals[p], ivs(p), text).value)
  {
    WireRoundTrip(ivs(p));
    WireRoundTrip(c.seal(t.vals[p], ivs(p), text).value);
  }

  // ---------------------------------------------------------------------
  // A session as a sequence of atomic steps

  /** One atomic step of the client: a packet arrives, or the user submits
      the input field with the IVs drawn for that send. */
  datatype Step = Inbound(pkt: Packet) | Submit(input: string, ivs: string -> Iv)

  /** One step applied to the client state. The table only grows and the
      message list stays within its cap. */
  function Apply(st: Client, c: Crypto, me: string, step: Step): (r: Client)
    requires Valid(st.peers)
    ensures Valid(r.peers)
    ensures |st.messages| <= MaxMessages ==> |r.messages| <= MaxMessages
    ensures forall p :: p in st.peers.vals ==> p in r.peers.vals && r.peers.vals[p] == st.peers.vals[p]
    ensures st.peers.keys <= r.peers.keys
  {
    match step
    case Inbound(pkt) => Receive(st, c, pkt).client
    case Submit(input, ivs) => Send(st, c, me, ivs, input).client
  }

  function Run(st: Client, c: Crypto, me: string, steps: seq<Step>): (r: Client)
    requires Valid(st.peers)
    ensures Valid(r.peers)
    decreases |steps|
  {
    if |steps| == 0 then st else Run(Apply(st, c, me, steps[0]), c, me, steps[1..])
  }

  /** Over any session, the table only grows (no entry is replaced or
      removed, the insertion order is extended) and the message list never
      exceeds its cap. */
  lemma {:induction false} RunInvariants(st: Client, c: Crypto, me: string, steps: seq<Step>)
    requires Valid(st.peers) && |st.messages| <= MaxMessages
    ensures var r := Run(st, c, me, steps);
      && |r.messages| <= MaxMessages
      && (forall p :: p in st.peers.vals ==> p in r.peers.vals && r.peers.vals[p] == st.peers.vals[p])
      && st.peers.keys <= r.peers.keys
    decreases |steps|
  {
    if |steps| > 0 {
      var next := Apply(st, c, me, steps[0]);
      RunInvariants(next, c, me, steps[1..]);
    }
  }
}
