/** The relay's room registry: `rooms` maps a room key to the connections
    in it, each with its public key and join time. A connection joins
    subject to a capacity check, is sent the public keys of everyone else
    in its room, has its messages forwarded verbatim to everyone else, and
    is dropped when a send to it fails or when it leaves; rooms whose
    every entry is older than the time-to-live are deleted. Each step is
    atomic; sends are modelled by a `delivers` oracle saying which
    connections accept a send. */
module Relay {
  import opened Wrappers
  import opened Dict

  /** `id(ws)`: a number that identifies a live connection. */
  type Sid = nat

  /** The room key: the precision-7 geohash of the handshake coordinates. */
  type RoomKey = string

  /** Rooms expire after 15 * 60 seconds. */
  const RoomTtlSeconds: nat := 15 * 60

  /** The time-to-live on the clock's scale. */
  const RoomTtl: real := RoomTtlSeconds as real

  /** Maximum users per room. */
  const MaxRoomSize: nat := 25

  /** One connection in a room: its public key and the clock reading at
      its join. */
  datatype Entry = Entry(pub: string, ts: real)

  type Room = Dict<Sid, Entry>
  type Rooms = Dict<RoomKey, Room>

  ghost predicate WellFormed(rs: Rooms) {
    Valid(rs) && forall h :: h in rs.vals ==> Valid(rs.vals[h])
  }

  /** No room holds more than `MaxRoomSize` entries. */
  ghost predicate WithinCapacity(rs: Rooms) {
    forall h :: h in rs.vals ==> Size(rs.vals[h]) <= MaxRoomSize
  }

  /** `len(rooms.get(room, {}))`. */
  function RoomSize(rs: Rooms, room: RoomKey): nat {
    if room in rs.vals then Size(rs.vals[room]) else 0
  }

  /** The sids in `room`, none when the room does not exist. */
  function Members(rs: Rooms, room: RoomKey): set<Sid> {
    if room in rs.vals then rs.vals[room].vals.Keys else {}
  }

  // ---------------------------------------------------------------------
  // Join

  /** The `room_full` reply. */
  datatype RoomFull = RoomFull(currentUsers: nat, maxUsers: nat)

  datatype Joined = Joined(rooms: Rooms, rejected: Option<RoomFull>)

  /** The capacity check and `rooms.setdefault(room, {})[sid] = entry`.
      A join is rejected exactly when the room already holds
      `MaxRoomSize` entries, with the registry unchanged; otherwise the one
      entry `sid -> {pub, now}` is added to the room, creating it if absent,
      and nothing else changes. */
  function Join(rs: Rooms, room: RoomKey, sid: Sid, pub: string, now: real): (r: Joined)
    requires WellFormed(rs)
    ensures WellFormed(r.rooms)
    ensures r.rejected.Some? <==> RoomSize(rs, room) >= MaxRoomSize
    ensures r.rejected.Some? ==> r.rooms == rs && r.rejected.value == RoomFull(RoomSize(rs, room), MaxRoomSize)
    ensures r.rejected.None? ==>
      && r.rooms.vals.Keys == rs.vals.Keys + {room}
      && (forall h :: h in rs.vals && h != room ==> r.rooms.vals[h] == rs.vals[h])
      && Members(r.rooms, room) == Members(rs, room) + {sid}
      && r.rooms.vals[room].vals[sid] == Entry(pub, now)
      && (forall s :: s in Members(rs, room) && s != sid ==> r.rooms.vals[room].vals[s] == rs.vals[room].vals[s])
      && (sid !in Members(rs, room) ==> RoomSize(r.rooms, room) == RoomSize(rs, room) + 1)
  {
    var size := RoomSize(rs, room);
    if size >= MaxRoomSize then Joined(rs, Some(RoomFull(size, MaxRoomSize)))
    else
      var current: Room := if room in rs.vals then rs.vals[room] else Empty();
      Joined(Put(rs, room, Put(current, sid, Entry(pub, now))), None)
  }

  /** An accepted join never takes a room past its capacity. */
  lemma JoinWithinCapacity(rs: Rooms, room: RoomKey, sid: Sid, pub: string, now: real)
    requires WellFormed(rs) && WithinCapacity(rs)
    ensures WithinCapacity(Join(rs, room, sid, pub, now).rooms)
  {
    var r := Join(rs, room, sid, pub, now);
    if r.rejected.None? {
      var current: Room := if room in rs.vals then rs.vals[room] else Empty();
      assert r.rooms.vals[room] == Put(current, sid, Entry(pub, now));
    }
  }

  // ---------------------------------------------------------------------
  // Peer list

  /** The `pub` of every other entry of the room, in the room's order:
      `[v["pub"] for sid2, v in room.items() if sid2 != k]`. */
  function PeerList(rm: Room, k: Sid): (r: seq<string>)
    requires Valid(rm)
    ensures forall s :: s in rm.vals && s != k ==> rm.vals[s].pub in r
    ensures |r| == |Without(rm.keys, k)|
    ensures forall i :: 0 <= i < |r| ==> r[i] == rm.vals[Without(rm.keys, k)[i]].pub
  {
    var others := Without(rm.keys, k);
    var r := seq(|others|, i requires 0 <= i < |others| => rm.vals[others[i]].pub);
    assert forall s :: s in rm.vals && s != k ==> rm.vals[s].pub in r by {
      forall s | s in rm.vals && s != k ensures rm.vals[s].pub in r {
        var i :| 0 <= i < |others| && others[i] == s;
        assert r[i] == rm.vals[s].pub;
      }
    }
    r
  }

  /** The list sent to member `k` describes the other entries, one each,
      and never `k`'s own: it is one shorter than the room when `k` is in
      it, and each position comes from a distinct entry other than `k`. */
  lemma PeerListExcludesSelf(rm: Room, k: Sid)
    requires Valid(rm)
    ensures var others := Without(rm.keys, k);
      && Distinct(others)
      && (forall i :: 0 <= i < |others| ==> others[i] != k && others[i] in rm.vals)
      && |PeerList(rm, k)| == Size(rm) - (if k in rm.vals then 1 else 0)
  {
  }

  // ---------------------------------------------------------------------
  // Broadcast of the peer list

  /** The `peers` packet sent to one connection. */
  datatype PeersMessage = PeersMessage(to: Sid, pubs: seq<string>, currentUsers: nat, maxUsers: nat, roomHash: string)

  datatype Announced = Announced(room: Room, sent: seq<PeersMessage>)

  /** The recipients of a sequence of sends, in order, `to` naming the
      recipient of each. */
  function Addressees<M>(ms: seq<M>, to: M -> Sid): (r: seq<Sid>)
    ensures |r| == |ms| && forall i :: 0 <= i < |ms| ==> r[i] == to(ms[i])
  {
    seq(|ms|, i requires 0 <= i < |ms| => to(ms[i]))
  }

  /** The connection a `peers` packet is sent to. */
  function PacketTo(m: PeersMessage): Sid { m.to }

  /** `room[:8]`. */
  function HashPrefix(room: RoomKey): (r: string)
    ensures |r| == if |room| <= 8 then |room| else 8
    ensures |r| <= |room| && r == room[..|r|]
  {
    if |room| <= 8 then room else room[..8]
  }

  /** The loop of `broadcast_peer_list` over a snapshot `todo` of the room.
      Each member that accepts the send gets one packet listing every other
      entry still in the room at that moment; each member whose send fails
      is removed, and nothing else is. */
  function AnnounceLoop(rm: Room, todo: seq<Sid>, delivers: Sid -> bool, size: nat, hash: string): (r: Announced)
    requires Valid(rm)
    ensures Valid(r.room)
    ensures forall s :: s in r.room.vals ==> s in rm.vals && (s in todo ==> delivers(s))
    ensures forall s :: s in rm.vals && (s in todo ==> delivers(s)) ==> s in r.room.vals
    ensures forall s :: s in r.room.vals ==> r.room.vals[s] == rm.vals[s]
    ensures Addressees(r.sent, PacketTo) == Filter(todo, delivers)
    ensures forall m :: m in r.sent ==> m.currentUsers == size && m.maxUsers == MaxRoomSize && m.roomHash == hash
    ensures forall m, s :: m in r.sent && s in r.room.vals && s != m.to ==> r.room.vals[s].pub in m.pubs
    decreases |todo|
  {
    if |todo| == 0 then Announced(rm, [])
    else
      var k := todo[0];
      assert forall s :: s in todo <==> s == k || s in todo[1..];
      if delivers(k) then
        var m := PeersMessage(k, PeerList(rm, k), size, MaxRoomSize, hash);
        var rest := AnnounceLoop(rm, todo[1..], delivers, size, hash);
        assert Addressees([m] + rest.sent, PacketTo) == [k] + Addressees(rest.sent, PacketTo);
        Announced(rest.room, [m] + rest.sent)
      else
        AnnounceLoop(Remove(rm, k), todo[1..], delivers, size, hash)
  }

  datatype Broadcast = Broadcast(rooms: Rooms, sent: seq<PeersMessage>)

  /** `broadcast_peer_list()`: nothing happens when the room no longer
      exists; otherwise every member is visited in the room's order, with
      `current_users` the room size read once before the loop. Only the
      members whose send fails leave the room; other rooms are untouched. */
  function BroadcastPeerList(rs: Rooms, room: RoomKey, delivers: Sid -> bool): (r: Broadcast)
    requires WellFormed(rs)
    ensures WellFormed(r.rooms)
    ensures room !in rs.vals ==> r == Broadcast(rs, [])
    ensures WithinCapacity(rs) ==> WithinCapacity(r.rooms)
    ensures r.rooms.vals.Keys == rs.vals.Keys
    ensures forall h :: h in rs.vals && h != room ==> r.rooms.vals[h] == rs.vals[h]
    ensures room in rs.vals ==>
      && (forall s :: s in r.rooms.vals[room].vals <==> s in rs.vals[room].vals && delivers(s))
      && (forall s :: s in r.rooms.vals[room].vals ==> r.rooms.vals[room].vals[s] == rs.vals[room].vals[s])
      && Addressees(r.sent, PacketTo) == Filter(rs.vals[room].keys, delivers)
      && (forall m :: m in r.sent ==> m.currentUsers == Size(rs.vals[room]))
  {
    if room !in rs.vals then Broadcast(rs, [])
    else
      var rm := rs.vals[room];
      var a := AnnounceLoop(rm, rm.keys, delivers, Size(rm), HashPrefix(room));
      SubsetSize(a.room, rm);
      Broadcast(Put(rs, room, a.room), a.sent)
  }

  /** When every send succeeds, member `k` receives exactly the peer list
      of the whole room without its own entry. */
  lemma {:induction false} AnnounceAllDelivered(rm: Room, todo: seq<Sid>, delivers: Sid -> bool, size: nat, hash: string)
    requires Valid(rm)
    requires forall s :: s in todo ==> delivers(s)
    ensures var r := AnnounceLoop(rm, todo, delivers, size, hash);
      && r.room == rm
      && |r.sent| == |todo|
      && forall i :: 0 <= i < |todo| ==> r.sent[i].to == todo[i] && r.sent[i].pubs == PeerList(rm, todo[i])
    decreases |todo|
  {
    if |todo| > 0 {
      var k := todo[0];
      var m := PeersMessage(k, PeerList(rm, k), size, MaxRoomSize, hash);
      var rest := AnnounceLoop(rm, todo[1..], delivers, size, hash);
      assert delivers(k);
      assert AnnounceLoop(rm, todo, delivers, size, hash) == Announced(rest.room, [m] + rest.sent);
      AnnounceAllDelivered(rm, todo[1..], delivers, size, hash);
    }
  }

  /** The public keys of the entries of `rm` other than `k`. */
  function OtherPubs(rm: Room, k: Sid): set<string> {
    set s | s in rm.vals && s != k :: rm.vals[s].pub
  }

  /** A peer list holds only keys of entries other than its recipient. */
  lemma PeerListOnlyOthers(rm: Room, k: Sid)
    requires Valid(rm)
    ensures forall p :: p in PeerList(rm, k) ==> p in OtherPubs(rm, k)
  {
    var l := PeerList(rm, k);
    var others := Without(rm.keys, k);
    forall p | p in l ensures p in OtherPubs(rm, k) {
      var i :| 0 <= i < |l| && l[i] == p;
      assert others[i] in others;
      assert others[i] in rm.vals && others[i] != k;
    }
  }

  /** Removing an entry only shrinks the keys of the others. */
  lemma OtherPubsShrink(rm: Room, x: Sid)
    requires Valid(rm)
    ensures forall k :: OtherPubs(Remove(rm, x), k) <= OtherPubs(rm, k)
  {
  }

  /** Whatever sends fail, every packet of the loop lists only keys of
      entries of the room, as it was before the loop, other than the
      packet's recipient. */
  lemma {:induction false} AnnounceListsOnlyOthers(rm: Room, todo: seq<Sid>, delivers: Sid -> bool, size: nat, hash: string)
    requires Valid(rm)
    ensures forall m, p :: m in AnnounceLoop(rm, todo, delivers, size, hash).sent && p in m.pubs ==>
      p in OtherPubs(rm, m.to)
    decreases |todo|
  {
    if |todo| > 0 {
      var k := todo[0];
      if delivers(k) {
        var m := PeersMessage(k, PeerList(rm, k), size, MaxRoomSize, hash);
        var rest := AnnounceLoop(rm, todo[1..], delivers, size, hash);
        assert AnnounceLoop(rm, todo, delivers, size, hash).sent == [m] + rest.sent;
        AnnounceListsOnlyOthers(rm, todo[1..], delivers, size, hash);
        PeerListOnlyOthers(rm, k);
      } else {
        assert AnnounceLoop(rm, todo, delivers, size, hash) == AnnounceLoop(Remove(rm, k), todo[1..], delivers, size, hash);
        AnnounceListsOnlyOthers(Remove(rm, k), todo[1..], delivers, size, hash);
        OtherPubsShrink(rm, k);
      }
    }
  }

  /** `broadcast_peer_list` never lists a member's own entry: each packet
      holds only keys of other entries of the room. */
  lemma BroadcastListsOnlyOthers(rs: Rooms, room: RoomKey, delivers: Sid -> bool)
    requires WellFormed(rs) && room in rs.vals
    ensures forall m, p :: m in BroadcastPeerList(rs, room, delivers).sent && p in m.pubs ==>
      p in OtherPubs(rs.vals[room], m.to)
  {
    var rm := rs.vals[room];
    AnnounceListsOnlyOthers(rm, rm.keys, delivers, Size(rm), HashPrefix(room));
  }

  // ---------------------------------------------------------------------
  // Relay

  datatype Delivery = Delivery(to: Sid, msg: string)

  datatype Relayed = Relayed(room: Room, deliveries: seq<Delivery>)

  /** The connection a relayed message is sent to. */
  function DeliveryTo(d: Delivery): Sid { d.to }

  /** The relay loop over a snapshot `todo` of the sender's room: the
      message goes, unchanged, to every entry but the sender that accepts
      the send; an entry whose send fails is removed; the sender's own
      entry is never touched. */
  function RelayLoop(rm: Room, todo: seq<Sid>, sender: Sid, msg: string, delivers: Sid -> bool): (r: Relayed)
    requires Valid(rm)
    ensures Valid(r.room)
    ensures forall s :: s in r.room.vals ==> s in rm.vals && (s in todo && s != sender ==> delivers(s))
    ensures forall s :: s in rm.vals && (s in todo && s != sender ==> delivers(s)) ==> s in r.room.vals
    ensures forall s :: s in r.room.vals ==> r.room.vals[s] == rm.vals[s]
    ensures Addressees(r.deliveries, DeliveryTo) == Filter(Without(todo, sender), delivers)
    ensures forall d :: d in r.deliveries ==> d.msg == msg
    decreases |todo|
  {
    if |todo| == 0 then Relayed(rm, [])
    else
      var k := todo[0];
      assert forall s :: s in todo <==> s == k || s in todo[1..];
      if k == sender then
        RelayLoop(rm, todo[1..], sender, msg, delivers)
      else if delivers(k) then
        var rest := RelayLoop(rm, todo[1..], sender, msg, delivers);
        assert Addressees([Delivery(k, msg)] + rest.deliveries, DeliveryTo) == [k] + Addressees(rest.deliveries, DeliveryTo);
        Relayed(rest.room, [Delivery(k, msg)] + rest.deliveries)
      else
        RelayLoop(Remove(rm, k), todo[1..], sender, msg, delivers)
  }

  datatype Forwarded = Forwarded(rooms: Rooms, deliveries: seq<Delivery>)

  /** One message received from `sender`. When its room no longer exists
      the handler's lookup fails and nothing is sent or changed. */
  function Relay(rs: Rooms, room: RoomKey, sender: Sid, msg: string, delivers: Sid -> bool): (r: Forwarded)
    requires WellFormed(rs)
    ensures WellFormed(r.rooms)
    ensures room !in rs.vals ==> r == Forwarded(rs, [])
    ensures WithinCapacity(rs) ==> WithinCapacity(r.rooms)
    ensures r.rooms.vals.Keys == rs.vals.Keys
    ensures forall h :: h in rs.vals && h != room ==> r.rooms.vals[h] == rs.vals[h]
    ensures room in rs.vals ==>
      && (forall s :: s in r.rooms.vals[room].vals <==> s in rs.vals[room].vals && (s != sender ==> delivers(s)))
      && (forall s :: s in r.rooms.vals[room].vals ==> r.rooms.vals[room].vals[s] == rs.vals[room].vals[s])
      && Addressees(r.deliveries, DeliveryTo) == Filter(Without(rs.vals[room].keys, sender), delivers)
      && (forall d :: d in r.deliveries ==> d.msg == msg)
  {
    if room !in rs.vals then Forwarded(rs, [])
    else
      var rm := rs.vals[room];
      var x := RelayLoop(rm, rm.keys, sender, msg, delivers);
      SubsetSize(x.room, rm);
      Forwarded(Put(rs, room, x.room), x.deliveries)
  }

  /** Every other member of the room that accepts the send gets the
      message exactly once, and the sender never does. */
  lemma RelayReachesEveryOther(rs: Rooms, room: RoomKey, sender: Sid, msg: string, delivers: Sid -> bool)
    requires WellFormed(rs) && room in rs.vals
    ensures var to := Addressees(Relay(rs, room, sender, msg, delivers).deliveries, DeliveryTo);
      && Distinct(to)
      && sender !in to
      && forall s :: s in rs.vals[room].vals && s != sender && delivers(s) ==> s in to
  {
  }

  // ---------------------------------------------------------------------
  // Expiry

  /** Every entry of the room joined more than `RoomTtl` seconds ago; an
      empty room qualifies, since `all` of nothing holds. */
  predicate Expired(rm: Room, now: real) {
    forall s :: s in rm.vals ==> now - rm.vals[s].ts > RoomTtl
  }

  /** The expired rooms among `hs`, in order. */
  function ExpiredAmong(rs: Rooms, now: real, hs: seq<RoomKey>): (r: seq<RoomKey>)
    requires forall h :: h in hs ==> h in rs.vals
    ensures forall h :: h in r ==> h in hs && Expired(rs.vals[h], now)
    ensures forall h :: h in hs && Expired(rs.vals[h], now) ==> h in r
    decreases |hs|
  {
    if |hs| == 0 then []
    else
      var rest := ExpiredAmong(rs, now, hs[1..]);
      if Expired(rs.vals[hs[0]], now) then [hs[0]] + rest else rest
  }

  /** `for h in expired: del rooms[h]`. */
  function RemoveAll(rs: Rooms, hs: seq<RoomKey>): (r: Rooms)
    requires WellFormed(rs)
    ensures WellFormed(r)
    ensures forall h :: h in r.vals ==> h in rs.vals && h !in hs && r.vals[h] == rs.vals[h]
    ensures forall h :: h in rs.vals && h !in hs ==> h in r.vals
    decreases |hs|
  {
    if |hs| == 0 then rs else RemoveAll(Remove(rs, hs[0]), hs[1..])
  }

  /** `clean_rooms()`: exactly the rooms whose every entry is older than
      `RoomTtl` are deleted, so no empty room survives; the others are kept
      as they are. */
  function CleanRooms(rs: Rooms, now: real): (r: Rooms)
    requires WellFormed(rs)
    ensures WellFormed(r)
    ensures forall h :: h in r.vals ==> h in rs.vals && !Expired(rs.vals[h], now) && r.vals[h] == rs.vals[h]
    ensures forall h :: h in rs.vals && !Expired(rs.vals[h], now) ==> h in r.vals
    ensures forall h :: h in r.vals ==> Size(r.vals[h]) > 0
    ensures WithinCapacity(rs) ==> WithinCapacity(r)
  {
    RemoveAll(rs, ExpiredAmong(rs, now, rs.keys))
  }

  // ---------------------------------------------------------------------
  // Leave

  datatype Left = Left(rooms: Rooms, sent: seq<PeersMessage>)

  /** `rooms[room].pop(sid, None)` on an existing room. */
  function Pop(rs: Rooms, room: RoomKey, sid: Sid): (r: Rooms)
    requires WellFormed(rs) && room in rs.vals
    ensures WellFormed(r)
    ensures r.vals.Keys == rs.vals.Keys
    ensures forall h :: h in rs.vals && h != room ==> r.vals[h] == rs.vals[h]
    ensures Members(r, room) == Members(rs, room) - {sid}
    ensures forall s :: s in r.vals[room].vals ==> r.vals[room].vals[s] == rs.vals[room].vals[s]
    ensures WithinCapacity(rs) ==> WithinCapacity(r)
  {
    Put(rs, room, Remove(rs.vals[room], sid))
  }

  /** The `finally` block of a connection handler: the departing entry is
      popped, the new peer list is broadcast and expired rooms are
      cleaned. When the room is already gone the pop itself fails and
      nothing else runs. */
  function Leave(rs: Rooms, room: RoomKey, sid: Sid, delivers: Sid -> bool, now: real): (r: Left)
    requires WellFormed(rs)
    ensures WellFormed(r.rooms)
    ensures room !in rs.vals ==> r == Left(rs, [])
    ensures WithinCapacity(rs) ==> WithinCapacity(r.rooms)
  {
    if room !in rs.vals then Left(rs, [])
    else
      var b := BroadcastPeerList(Pop(rs, room, sid), room, delivers);
      Left(CleanRooms(b.rooms, now), b.sent)
  }

  /** A leave from an existing room broadcasts the new peer list: every
      remaining member that accepts the send gets one packet, in room
      order, each carrying the size after the pop and listing only other
      entries; if the room survives expiry, it keeps exactly the remaining
      members that accepted. */
  lemma LeaveBroadcasts(rs: Rooms, room: RoomKey, sid: Sid, delivers: Sid -> bool, now: real)
    requires WellFormed(rs) && room in rs.vals
    ensures var l := Leave(rs, room, sid, delivers, now);
      var rm := Remove(rs.vals[room], sid);
      && Addressees(l.sent, PacketTo) == Filter(Without(rs.vals[room].keys, sid), delivers)
      && (forall m :: m in l.sent ==> m.currentUsers == Size(rm))
      && (forall m, p :: m in l.sent && p in m.pubs ==> p in OtherPubs(rm, m.to))
      && (room in l.rooms.vals ==>
            forall s :: s in l.rooms.vals[room].vals <==> s in rs.vals[room].vals && s != sid && delivers(s))
  {
    var popped := Pop(rs, room, sid);
    assert popped.vals[room] == Remove(rs.vals[room], sid);
    BroadcastListsOnlyOthers(popped, room, delivers);
  }

  /** After a leave from an existing room the departing sid is gone and
      no empty room remains, the departed room included. */
  lemma LeaveRemovesMember(rs: Rooms, room: RoomKey, sid: Sid, delivers: Sid -> bool, now: real)
    requires WellFormed(rs) && room in rs.vals
    ensures var r := Leave(rs, room, sid, delivers, now).rooms;
      && sid !in Members(r, room)
      && forall h :: h in r.vals ==> Size(r.vals[h]) > 0
  {
    var b := BroadcastPeerList(Pop(rs, room, sid), room, delivers);
    assert sid !in Members(b.rooms, room);
  }

  /** A leave never adds anyone anywhere, and every room other than the
      departed one is either kept as it was or was expired. */
  lemma LeaveKeepsOthers(rs: Rooms, room: RoomKey, sid: Sid, delivers: Sid -> bool, now: real)
    requires WellFormed(rs)
    ensures var r := Leave(rs, room, sid, delivers, now).rooms;
      && (forall h :: h in r.vals && h != room ==> h in rs.vals && r.vals[h] == rs.vals[h])
      && (forall h :: h in rs.vals && h != room && h !in r.vals ==> Expired(rs.vals[h], now))
      && (forall h :: h in r.vals ==> Members(r, h) <= Members(rs, h))
  {
  }

  // ---------------------------------------------------------------------
  // A registry as a sequence of atomic server steps

  datatype Event =
    | JoinEvent(room: RoomKey, sid: Sid, pub: string, now: real, delivers: Sid -> bool)
    | RelayEvent(room: RoomKey, sender: Sid, msg: string, delivers: Sid -> bool)
    | LeaveEvent(room: RoomKey, sid: Sid, delivers: Sid -> bool, now: real)
    | CleanEvent(now: real)

  /** One server step; an accepted join is followed by the broadcast of
      the peer list, as in the connection handler. Every step keeps all
      rooms within capacity. */
  function Step(rs: Rooms, e: Event): (r: Rooms)
    requires WellFormed(rs)
    ensures WellFormed(r)
    ensures WithinCapacity(rs) ==> WithinCapacity(r)
  {
    match e
    case JoinEvent(room, sid, pub, now, delivers) =>
      var j := Join(rs, room, sid, pub, now);
      if j.rejected.Some? then j.rooms
      else
        assert WithinCapacity(rs) ==> WithinCapacity(j.rooms) by {
          if WithinCapacity(rs) { JoinWithinCapacity(rs, room, sid, pub, now); }
        }
        BroadcastPeerList(j.rooms, room, delivers).rooms
    case RelayEvent(room, sender, msg, delivers) => Relay(rs, room, sender, msg, delivers).rooms
    case LeaveEvent(room, sid, delivers, now) => Leave(rs, room, sid, delivers, now).rooms
    case CleanEvent(now) => CleanRooms(rs, now)
  }

  function Run(rs: Rooms, es: seq<Event>): (r: Rooms)
    requires WellFormed(rs)
    ensures WellFormed(r)
    decreases |es|
  {
    if |es| == 0 then rs else Run(Step(rs, es[0]), es[1..])
  }

  /** In a sequential run from any registry within capacity, no room ever
      exceeds `MaxRoomSize` entries. */
  lemma {:induction false} RunWithinCapacity(rs: Rooms, es: seq<Event>)
    requires WellFormed(rs) && WithinCapacity(rs)
    ensures WithinCapacity(Run(rs, es))
    decreases |es|
  {
    if |es| > 0 {
      RunWithinCapacity(Step(rs, es[0]), es[1..]);
    }
  }
}
