# Radius Chat core in Dafny

Radius Chat is a location-scoped, end-to-end encrypted chat. A Flask relay
(`app.py`) puts every WebSocket connection into a room keyed by the
geohash of its coordinates. It enforces a room capacity of 25 and sends
each connection the public keys of the others in its room. It then
forwards every message verbatim to everyone else in the room. Rooms
whose every entry is older than 15 minutes are deleted. The browser
client (`js/main.js`) derives one AES-GCM key per peer from its ECDH key
pair and keeps these keys in the `peerSecrets` table. It encrypts each
outgoing text once per peer, with a fresh 12-byte IV. It frames the IV
and the ciphertext as Base64 text, and shows at most the latest 50
messages.

The model is functional: every handler is a pure function from a state to
a new state plus what it sends.

- `wrappers.dfy` holds `Option`.
- `dict.dfy` holds an insertion-ordered dictionary. It stands for a
  JavaScript object and a Python `dict`, whose iteration order the source
  relies on.
- `base64.dfy` covers `btoa`, `atob`, `String.fromCharCode` and
  `charCodeAt`. `btoa` emits padded Base64 as in section 4 of RFC 4648.
  `atob` follows the forgiving-base64 decode of the WHATWG Infra standard.
- `jstext.dfy` covers `String.prototype.trim`.
- `client.dfy` covers the peer table, inbound dispatch, outbound fan-out
  and the message cap.
- `relay.dfy` covers the room registry: join, peer-list broadcast, relay,
  leave and expiry.
- `relay_stats.dfy` covers `get_room_stats` and `admin_stats`.

The model leaves some things to its parameters:

- The Web Crypto primitives are uninterpreted function parameters. A
  rejected promise is `None`.
- The random IVs are a parameter.
- Which WebSocket sends succeed is a `delivers` oracle.
- The clock is a `now` parameter.

The client sends one `{peer, iv, data}` packet per recipient, each sealed
under that recipient's key. It drops an incoming message whose sender is
not a key of `peerSecrets`.

On the client, packet fields are modelled as JavaScript values
(`JsValue`): a string, `null`, an absent field, or some other value. The
relay stores and forwards what a client sends without checking it, so a
roster entry or a message field need not be a string. Where the client
converts such a value to text, the model uses the text that `String(v)`
gives. The relay model itself carries public keys as strings; the
consequence is stated under "## Left out".

## Model

| member | source | states |
|---|---|---|
| Dict.Put | js/main.js:279 | assigning a key keeps its place when present and appends it when new; every other entry is unchanged |
| Dict.Remove | app.py:119 | `pop(k, None)` removes exactly `k` from the keys and the order, and is a no-op when `k` is absent |
| Base64.CharCodesOfFromCharCodes | js/main.js:109 | bytes turned into a binary string are all Latin-1, and `charCodeAt` gives the same bytes back |
| Base64.SextetsOfSpell | js/main.js:109 | reading back spelled 6-bit groups recovers exactly those groups |
| Base64.FromToSextets | js/main.js:109-110 | unpacking the groups that packing produced gives back the original bytes, including the 1- and 2-byte tails |
| Base64.FromCharCodes | js/main.js:102 | the binary string has one character per byte, whose code is that byte |
| Base64.CharCodes | js/main.js:109 | one byte per character, the character's code modulo 256 as a `Uint8Array` stores it |
| Base64.Encode | js/main.js:102 | the encoding is four characters per started 3-byte block and uses only the alphabet and `=` |
| Base64.StripWhitespace | js/main.js:109 | the result has no ASCII whitespace and is no longer than the input; text without whitespace is unchanged and a single whitespace character is dropped |
| Base64.StripWhitespaceKeeps | js/main.js:109 | a character survives whitespace removal exactly when it occurs in the input and is not whitespace |
| Base64.StripWhitespaceAppend | js/main.js:109 | whitespace removal works piece by piece, so the kept characters stay in input order, each occurrence once |
| Base64.StripPadding | js/main.js:109 | at most two final characters are removed, only `=`, and only at a length divisible by 4; at such a length a final `==` is removed whole and a final `=` always |
| Base64.Btoa | js/main.js:102-103 | `btoa` succeeds exactly on Latin-1 input, and its output length is a multiple of 4 |
| Base64.Decode | js/main.js:109-110 | decoding succeeds exactly when the text, stripped of whitespace and of one or two final `=` at a length divisible by 4, is not 1 modulo 4 long and uses only the alphabet |
| Base64.Atob | js/main.js:109 | a successful `atob` yields a Latin-1 binary string |
| Base64.EncodeHasNoWhitespace | js/main.js:102 | encoded text contains no ASCII whitespace, so `atob` strips nothing from it |
| Base64.StripPaddingOfEncode | js/main.js:109 | removing the padding from encoded text leaves exactly the spelled groups |
| Base64.DecodeEncode | js/main.js:101-110 | forgiving decode inverts padded encode on every byte string |
| Base64.BytesToWire | js/main.js:102-103 | framing bytes never throws: `btoa` accepts the output of `fromCharCode` |
| Base64.WireToBytes | js/main.js:109-110 | unframing fails exactly when `atob` throws, and otherwise gives the bytes of `atob`'s binary string |
| Base64.OneModFourRejected | js/main.js:109 | `atob` rejects any text without whitespace whose length is 1 modulo 4 |
| Base64.WireRoundTrip | js/main.js:101-110 | the receiver recovers the sender's IV and ciphertext byte for byte |
| JsText.TrimStart | js/main.js:311 | the result is the suffix after a run of trimmable characters and starts with a non-trimmable one |
| JsText.TrimEnd | js/main.js:311 | the result is the prefix before a run of trimmable characters and ends with a non-trimmable one |
| JsText.Trim | js/main.js:311 | neither end of the trimmed text is trimmable |
| JsText.TrimEmptyIff | js/main.js:311-315 | the text is empty after trimming exactly when every character is trimmable, which is when a send is ignored |
| JsText.TrimIsSlice | js/main.js:311 | the trimmed text is a contiguous slice of the input |
| JsText.TrimCutsOnlyTrimmable | js/main.js:311 | only trimmable characters lie outside that slice |
| JsText.TrimIdempotent | js/main.js:311 | trimming twice is trimming once |
| Client.AddMessage | js/main.js:155-165 | the list grows by one up to 50 entries and then stays at 50; it is the newest suffix of the old list plus the new message, and ends with it |
| Client.AddToLatest | js/main.js:157-165 | adding a message to the latest 50 of a history gives the latest 50 of the extended history |
| Client.AddAllKeepsLatest | js/main.js:155-165 | after any run of additions, the list is exactly the latest 50 messages ever added |
| Client.DeriveSecret | js/main.js:49-67 | a key exported as `btoa` of its SPKI bytes imports from exactly those bytes; text that `atob` rejects gives no key |
| Client.AddPeer | js/main.js:274-284 | a known key is skipped; an unknown key is added with its derived key when derivation succeeds; a failure leaves the table as it was |
| Client.AddPeers | js/main.js:273-285 | the table gains exactly the listed absent keys whose derivation succeeds, each with its derived key; existing entries keep their keys and places |
| Client.AddEntry | js/main.js:274-284 | a string entry is processed as a key; any other entry leaves the table unchanged |
| Client.AddPeersAsWritten | js/main.js:273-285 | the loop as written: on rosters of strings it equals the corrected loop and completes; existing entries are never changed |
| Client.RosterAbortsOnNull | js/main.js:274-276 | a `null` ahead of a fresh key stops the loop as written before the key is added, where the corrected loop adds it |
| Client.AddPeersNoOp | js/main.js:273-285 | a roster of only known or failing keys leaves the table unchanged |
| Client.RosterIdempotent | js/main.js:273-285 | processing the same roster twice equals processing it once |
| Client.RosterFailureIsolated | js/main.js:276-283 | a key that fails to import or derive, or an entry that is not a string, affects no other entry of the roster |
| Client.DecryptFramed | js/main.js:101-123 | fields framed as the sender frames them open exactly the IV and ciphertext that were sealed |
| Client.DecryptAndRender | js/main.js:198-218 | an unknown sender or a failed decryption changes nothing; a success appends the plaintext as another user's message; the table never changes |
| Client.Receive | js/main.js:264-306 | a roster runs the roster loop and reports the number of keys in the table; any other packet is handed to `decryptAndRender` as it is, and leaves the table alone |
| Client.MissingFieldFails | js/main.js:109-110 | a missing `iv` or `data` field makes `atob("undefined")` throw, so the message is dropped |
| Client.NullFieldDecodes | js/main.js:109-110 | a `null` field is not rejected by `atob`: the text "null" decodes to three bytes, which go on to the decryption |
| Client.KnownSenderShown | js/main.js:198-218 | a packet from a known sender, framed as senders frame it, whose ciphertext opens under that sender's key is appended through the cap as someone else's message, and the table is unchanged |
| Client.UnknownSenderDropped | js/main.js:203-208 | a message from a sender that is not in the table changes nothing |
| Client.SealFor | js/main.js:333-338 | a recipient's packet exists exactly when encryption succeeds, and carries the sender's own key as `peer` |
| Client.Recipients | js/main.js:330-344 | the packet recipients are exactly the table entries whose encryption succeeds, without repeats |
| Client.FanOut | js/main.js:330-344 | at most one packet per table entry, each carrying the sender's own key as `peer` |
| Client.FanOutMatchesRecipients | js/main.js:330-344 | the i-th packet is the sealed packet of the i-th recipient, in table order |
| Client.Send | js/main.js:309-347 | blank input does nothing; with no peers, one local notice is added and nothing is sent; otherwise the text is shown as the user's own and at most one packet per peer is sent; the table never changes |
| Client.SendOnePerPeer | js/main.js:330-344 | with peers present, each peer whose encryption succeeds receives exactly one packet, and no other peer does |
| Client.FanOutSkipsOnlyFailing | js/main.js:341-343 | a peer whose encryption fails loses only its own packet; the rest are unchanged |
| Client.FanOutAllSucceed | js/main.js:330-344 | when every encryption succeeds, every peer gets a packet |
| Client.PacketDecryptsToSealed | js/main.js:101-123 | a receiver of the packet built for a peer opens exactly the IV and ciphertext the sender sealed |
| Client.Apply | js/main.js:264-347 | any single step keeps the table valid and the list within the cap; the table only grows, with its order extended |
| Client.RunInvariants | js/main.js:262-347 | over any session, entries are never replaced or removed, insertion order is only extended, and the list never exceeds 50 |
| Relay.Join | app.py:81-96 | a join is rejected exactly when the room already holds 25 entries, with a `room_full` reply and the registry unchanged; otherwise exactly the new entry is added, creating the room if needed |
| Relay.JoinWithinCapacity | app.py:81-96 | an accepted join never takes a room past 25 |
| Relay.PeerList | app.py:107 | the list holds the `pub` of every other entry, in room order |
| Relay.PeerListExcludesSelf | app.py:107 | the list never describes the recipient itself and is one shorter than the room when the recipient is in it |
| Relay.HashPrefix | app.py:114 | the room hash sent is the first 8 characters of the room key, or the whole key when it is shorter |
| Relay.AnnounceLoop | app.py:104-119 | exactly the members whose send fails are removed; the recipients are exactly the members that accept, in order; every packet carries the size taken before the loop; each packet lists every survivor other than its recipient |
| Relay.PeerListOnlyOthers | app.py:107 | every key in the list sent to `k` is the key of an entry of the room other than `k` |
| Relay.AnnounceListsOnlyOthers | app.py:104-116 | whatever sends fail, every packet lists only keys of entries of the room, as it was before the loop, other than the packet's recipient |
| Relay.BroadcastListsOnlyOthers | app.py:101-121 | no member is ever sent a list holding its own entry: each packet lists only keys of the room's other entries |
| Relay.AnnounceAllDelivered | app.py:104-116 | when every send succeeds, member `k` receives exactly the peer list of the whole room without `k` |
| Relay.BroadcastPeerList | app.py:101-121 | a missing room is a no-op; otherwise only failed members leave, other rooms are untouched, and capacity is preserved |
| Relay.RelayLoop | app.py:127-133 | the message goes unchanged to exactly the other members that accept it, in order; failed members are removed and the sender never is |
| Relay.Relay | app.py:123-135 | a missing room changes nothing; otherwise it is the relay loop on that room, other rooms are untouched, and capacity is preserved |
| Relay.RelayReachesEveryOther | app.py:127-133 | every other accepting member gets the message exactly once, and the sender never does |
| Relay.ExpiredAmong | app.py:15 | the expired list holds exactly the rooms whose every entry is older than 15 minutes |
| Relay.RemoveAll | app.py:16-17 | exactly the listed rooms are deleted, and the rest are unchanged |
| Relay.CleanRooms | app.py:13-17 | exactly the expired rooms are deleted, including every empty room; the rest are kept as they are |
| Relay.Pop | app.py:137 | exactly the departing sid leaves its room; nothing else changes |
| Relay.Leave | app.py:136-141 | a leave from a missing room changes nothing; every leave preserves capacity |
| Relay.LeaveBroadcasts | app.py:136-141 | a leave broadcasts the new peer list: the recipients are exactly the remaining members that accept, in room order; each packet carries the size after the pop and lists only other entries; a surviving room keeps exactly those members |
| Relay.LeaveRemovesMember | app.py:136-141 | after a leave the departing sid is gone and no empty room remains |
| Relay.LeaveKeepsOthers | app.py:136-141 | a leave adds nobody anywhere; every other room is kept unchanged or was expired |
| Relay.Step | app.py:73-141 | every server step keeps the registry well formed and within capacity |
| Relay.RunWithinCapacity | app.py:81-96 | in any sequence of joins, relays, leaves and cleanups, no room ever holds more than 25 entries |
| RelayStats.GetRoomStats | app.py:19-27 | one summary per room, whose user count is the room's size |
| RelayStats.FullIffJoinRejected | app.py:25 | a room is reported full exactly when a join to it is rejected |
| RelayStats.UserId | app.py:53 | the user id is the first 20 characters of the key, or the whole key when shorter, followed by "..." |
| RelayStats.UsersListEveryEntry | app.py:51-57 | every entry of the room has a line giving its id and its age at `now` |
| RelayStats.StatOf | app.py:46-58 | a room line names its room, counts its entries, is full exactly at 25 or more, and has one user line per entry |
| RelayStats.StatsOf | app.py:45-58 | line `i` names the `i`-th room key, gives that room's size, is full exactly at 25 or more, and has one user line per entry |
| RelayStats.TotalIsSumOfCounts | app.py:42 | the user total equals the sum of the room lines' user counts |
| RelayStats.Insert | app.py:61 | insertion into a busiest-first list keeps it busiest first and is a permutation |
| RelayStats.SortByUserCount | app.py:61 | the room list is sorted busiest first, as a permutation of its input |
| RelayStats.InsertIsStable | app.py:61 | insertion keeps rooms of equal size in their order |
| RelayStats.SortIsStable | app.py:61 | rooms with equal user counts keep their relative order, as Python's stable sort does |
| RelayStats.StatsDescribeRooms | app.py:45-61 | every line of the sorted list describes a room of the registry truthfully |
| RelayStats.AdminStats | app.py:37-71 | expired rooms are cleaned first; the totals describe the cleaned registry; the list is a stable busiest-first permutation of one line per remaining room; the limits are 25 users and 15 minutes |

## Left out

- Cryptography: ECDH P-256 key generation, SPKI import and export, key derivation, AES-GCM, and UTF-8 `TextEncoder`/`TextDecoder` are uninterpreted parameters. The model does not prove that decryption inverts encryption.
- Client.DeriveSecret: the derivation oracle is a fixed function of the key text, so a transient failure that succeeds on a later roster is not modelled.
- Randomness: `getRandomValues` is a parameter giving the IV for each recipient; freshness across calls is not stated.
- Concurrency: `ws.onmessage` and `sendMessage` are async and can interleave at each `await`; each inbound packet and each send is modelled as atomic. The relay's connection handlers run in parallel threads; each server event is modelled as atomic.
- Transport and JSON: WebSocket framing, `JSON.parse`/`json.dumps`, a `pubs` field that is not an array, and a non-JSON frame, which throws in the handler, are not modelled. Packet fields arrive already parsed as `JsValue`s, with an absent field as `Undefined`.
- Client.AddPeers: the model's roster loop is the corrected one, which skips an entry that is not a string. The loop as written throws on such an entry before its `try`; that behaviour is Client.AddPeersAsWritten, and its consequences for the peer count, the welcome message and the input are not modelled.
- Client.JsString: values other than strings, `null` and an absent field are carried with their `String(v)` text; numbers, arrays and objects are not modelled in more detail.
- Property names that a plain JavaScript object inherits, such as `constructor` used as a sender key, are not modelled; the table holds only what was assigned.
- UI: the DOM, status line, peer-count text, loading and error screens, and the disabled state of the input are left out.
- Client.Receive: the welcome message (js/main.js:297-299) is left out. In the source it is added through `addMessage` on the first roster and counts toward the cap of 50; the model's list holds only the messages of `sendMessage` and `decryptAndRender`.
- Dict: its order equals JavaScript object order only for keys that are not array indices. An object lists a key such as "12" before all others, in ascending numeric order. An exported P-256 public key in Base64 begins with "MFk" and is never such a key, but a client that sends "12" as its key would be listed first in `peerSecrets` and the model does not say so.
- Clock arithmetic: `time.time()` returns a float; the model uses exact `real` values, including for the `now - ts > ROOM_TTL` test (app.py:15) and the ages in `admin_stats`. Rounding near the 15-minute boundary is not modelled.
- `String.fromCharCode(...bytes)` throws `RangeError` on an argument list too long for the engine; the model takes the spread to succeed.
- Handshake and room placement: reading `pub`, `lat` and `lon`, the geohash computation, `id(ws)` and the `room_full` message text are left out; the room key, sid and public key are parameters.
- RelayStats.AdminStats / RelayStats.UserId: the relay stores `init["pub"]` unchecked (app.py:76), so it can be any JSON value, but the relay model carries `pub` as a string. For a `null`, number, boolean or object `pub`, `user_data['pub'][:20]` raises `TypeError` at app.py:53, and for a list the `+ '...'` does; `/admin/stats` then fails for as long as such an entry is in a room. The model does not show this failure. A non-string key reaching a client (as in the Findings row) is modelled on the client side only.
- Relay.Relay: a relay loop whose room was deleted meanwhile raises `KeyError` in the source, which ends the connection; the model only states that nothing is sent.
- Clock: `time.time()` is read several times within one `admin_stats` call and one handler; the model uses a single `now` per step.
- `capacity_percentage` in `admin_stats` is a rounded float and is not modelled.
- Logging (`print`, `console.log`) is left out.
- Relay.AnnounceLoop: in general it bounds each packet's list from both sides: it holds every member still in the room at the end other than the recipient, and only keys of other entries of the room as it was before the loop (Relay.AnnounceListsOnlyOthers). The exact list `k` receives is stated only when every send succeeds (Relay.AnnounceAllDelivered), because after a failure the list depends on where in the loop the failure happened.

## Findings

| source | as written | input that shows it | evidently intended | confidence | as-written member | corrected member |
|---|---|---|---|---|---|---|
| js/main.js:273-285 | the log line calling `peerPub.substring(0, 20)` runs before the `try`, so a roster entry that is not a string throws out of the loop | a roster `[null, k]` with `k` the Base64 text of SPKI bytes that import and derive | an entry that cannot be used is skipped and the rest of the roster is still processed, as for a key that fails to import | not executed | Client.AddPeersAsWritten, Client.RosterAbortsOnNull | Client.AddPeers, Client.RosterFailureIsolated |
