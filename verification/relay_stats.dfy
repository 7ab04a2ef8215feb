/** The relay's monitoring views: the per-room summary and the admin
    report, which cleans expired rooms first, totals the users and lists
    the rooms busiest first. */
module RelayStats {
  import opened Dict
  import opened Relay

  // ---------------------------------------------------------------------
  // Per-room summary

  datatype RoomSummary = RoomSummary(userCount: nat, isFull: bool)

  /** `get_room_stats()`: one summary per room. */
  function GetRoomStats(rs: Rooms): (r: map<RoomKey, RoomSummary>)
    ensures r.Keys == rs.vals.Keys
    ensures forall h :: h in r ==> r[h].userCount == Size(rs.vals[h])
  {
    map h | h in rs.vals :: RoomSummary(Size(rs.vals[h]), Size(rs.vals[h]) >= MaxRoomSize)
  }

  /** A room is reported full exactly when a join to it is rejected. */
  lemma FullIffJoinRejected(rs: Rooms, room: RoomKey, sid: Sid, pub: string, now: real)
    requires WellFormed(rs) && room in rs.vals
    ensures GetRoomStats(rs)[room].isFull <==> Join(rs, room, sid, pub, now).rejected.Some?
  {
  }

  // ---------------------------------------------------------------------
  // Admin report

  datatype UserStat = UserStat(userId: string, connectedSince: real)

  datatype RoomStat = RoomStat(roomHash: RoomKey, userCount: nat, isFull: bool, users: seq<UserStat>)

  datatype ServerStats = ServerStats(totalRooms: nat, totalUsers: nat, maxRoomSize: nat, roomTtlMinutes: nat)

  datatype AdminReport = AdminReport(serverStats: ServerStats, rooms: seq<RoomStat>)

  /** The report together with the registry as cleaned before it. */
  datatype Admin = Admin(registry: Rooms, report: AdminReport)

  /** `pub[:20] + '...'`. */
  function UserId(pub: string): (r: string)
    ensures |r| == (if |pub| <= 20 then |pub| else 20) + 3
    ensures r[..|r| - 3] == pub[..|r| - 3] && r[|r| - 3..] == "..."
  {
    (if |pub| <= 20 then pub else pub[..20]) + "..."
  }

  /** One line per entry of the room, in the room's order. */
  function Users(rm: Room, now: real): (r: seq<UserStat>)
    requires Valid(rm)
    ensures |r| == Size(rm)
    ensures forall i :: 0 <= i < |r| ==>
      r[i] == UserStat(UserId(rm.vals[rm.keys[i]].pub), now - rm.vals[rm.keys[i]].ts)
  {
    seq(|rm.keys|, i requires 0 <= i < |rm.keys| =>
      UserStat(UserId(rm.vals[rm.keys[i]].pub), now - rm.vals[rm.keys[i]].ts))
  }

  /** Every entry of the room has its line, giving its id and its age. */
  lemma UsersListEveryEntry(rm: Room, now: real)
    requires Valid(rm)
    ensures forall s :: s in rm.vals ==> UserStat(UserId(rm.vals[s].pub), now - rm.vals[s].ts) in Users(rm, now)
  {
    var r := Users(rm, now);
    forall s | s in rm.vals ensures UserStat(UserId(rm.vals[s].pub), now - rm.vals[s].ts) in r {
      var i :| 0 <= i < |rm.keys| && rm.keys[i] == s;
      assert r[i] == UserStat(UserId(rm.vals[s].pub), now - rm.vals[s].ts);
    }
  }

  function StatOf(rs: Rooms, h: RoomKey, now: real): (r: RoomStat)
    requires WellFormed(rs) && h in rs.vals
    ensures r.roomHash == h && r.userCount == Size(rs.vals[h])
    ensures r.isFull <==> r.userCount >= MaxRoomSize
    ensures |r.users| == r.userCount
  {
    var rm := rs.vals[h];
    RoomStat(h, Size(rm), Size(rm) >= MaxRoomSize, Users(rm, now))
  }

  /** The room list before sorting, in the registry's order. */
  function StatsOf(rs: Rooms, hs: seq<RoomKey>, now: real): (r: seq<RoomStat>)
    requires WellFormed(rs) && forall h :: h in hs ==> h in rs.vals
    ensures |r| == |hs|
    ensures forall i :: 0 <= i < |r| ==> r[i] == StatOf(rs, hs[i], now)
    ensures forall i :: 0 <= i < |r| ==>
      && r[i].roomHash == hs[i]
      && r[i].userCount == Size(rs.vals[hs[i]])
      && (r[i].isFull <==> r[i].userCount >= MaxRoomSize)
      && |r[i].users| == Size(rs.vals[hs[i]])
  {
    seq(|hs|, i requires 0 <= i < |hs| => StatOf(rs, hs[i], now))
  }

  /** `sum(len(room_data) for room_data in rooms.values())`. */
  function TotalUsers(rs: Rooms, hs: seq<RoomKey>): nat
    requires forall h :: h in hs ==> h in rs.vals
    decreases |hs|
  {
    if |hs| == 0 then 0 else Size(rs.vals[hs[0]]) + TotalUsers(rs, hs[1..])
  }

  /** The sum of the `user_count` fields of a room list. */
  function SumCounts(s: seq<RoomStat>): nat
    decreases |s|
  {
    if |s| == 0 then 0 else s[0].userCount + SumCounts(s[1..])
  }

  lemma {:induction false} TotalIsSumOfCounts(rs: Rooms, hs: seq<RoomKey>, now: real)
    requires WellFormed(rs) && forall h :: h in hs ==> h in rs.vals
    ensures TotalUsers(rs, hs) == SumCounts(StatsOf(rs, hs, now))
    decreases |hs|
  {
    if |hs| > 0 {
      TotalIsSumOfCounts(rs, hs[1..], now);
      assert StatsOf(rs, hs, now)[1..] == StatsOf(rs, hs[1..], now);
    }
  }

  // ---------------------------------------------------------------------
  // `room_stats.sort(key=lambda x: x['user_count'], reverse=True)`

  /** Busiest first. */
  ghost predicate NonIncreasing(s: seq<RoomStat>) {
    forall i, j :: 0 <= i < j < |s| ==> s[i].userCount >= s[j].userCount
  }

  /** The rooms of `s` with exactly `c` users, in their order in `s`. */
  function WithCount(s: seq<RoomStat>, c: nat): seq<RoomStat>
    decreases |s|
  {
    if |s| == 0 then []
    else (if s[0].userCount == c then [s[0]] else []) + WithCount(s[1..], c)
  }

  /** Places `x` before the first room that has no more users than it. */
  function Insert(x: RoomStat, s: seq<RoomStat>): (r: seq<RoomStat>)
    requires NonIncreasing(s)
    ensures NonIncreasing(r)
    ensures multiset(r) == multiset([x] + s)
    ensures SumCounts(r) == x.userCount + SumCounts(s)
    ensures |r| > 0 && (r[0] == x || (|s| > 0 && r[0] == s[0]))
    decreases |s|
  {
    if |s| == 0 || x.userCount >= s[0].userCount then [x] + s
    else
      var rest := Insert(x, s[1..]);
      assert s == [s[0]] + s[1..];
      ConsNonIncreasing(s[0], rest);
      assert ([s[0]] + rest)[1..] == rest;
      [s[0]] + rest
  }

  /** A head with at least as many users as the sorted rest keeps it sorted. */
  lemma ConsNonIncreasing(a: RoomStat, s: seq<RoomStat>)
    requires NonIncreasing(s) && (|s| == 0 || a.userCount >= s[0].userCount)
    ensures NonIncreasing([a] + s)
  {
  }

  /** Stable insertion sort by user count, non-increasing. */
  function SortByUserCount(s: seq<RoomStat>): (r: seq<RoomStat>)
    ensures NonIncreasing(r)
    ensures multiset(r) == multiset(s)
    ensures SumCounts(r) == SumCounts(s)
    decreases |s|
  {
    if |s| == 0 then []
    else
      assert s == [s[0]] + s[1..];
      Insert(s[0], SortByUserCount(s[1..]))
  }

  lemma WithCountCons(x: RoomStat, s: seq<RoomStat>, c: nat)
    ensures WithCount([x] + s, c) == (if x.userCount == c then [x] else []) + WithCount(s, c)
  {
    assert ([x] + s)[1..] == s;
  }

  lemma {:induction false} InsertIsStable(x: RoomStat, s: seq<RoomStat>, c: nat)
    requires NonIncreasing(s)
    ensures WithCount(Insert(x, s), c) == WithCount([x] + s, c)
    decreases |s|
  {
    if |s| > 0 && x.userCount < s[0].userCount {
      var a, rest := s[0], s[1..];
      InsertPastHead(x, s);
      var ca: seq<RoomStat> := if a.userCount == c then [a] else [];
      var cx: seq<RoomStat> := if x.userCount == c then [x] else [];
      var w := WithCount(rest, c);
      calc {
        WithCount(Insert(x, s), c);
        == { WithCountCons(a, Insert(x, rest), c); }
        ca + WithCount(Insert(x, rest), c);
        == { InsertIsStable(x, rest, c); WithCountCons(x, rest, c); }
        ca + (cx + w);
        == { SwapDisjoint(ca, cx, w); }
        cx + (ca + w);
        == { assert s == [a] + rest; WithCountCons(a, rest, c); WithCountCons(x, s, c); }
        WithCount([x] + s, c);
      }
    }
  }

  /** One unfolding of `Insert` past a head with more users. */
  lemma InsertPastHead(x: RoomStat, s: seq<RoomStat>)
    requires NonIncreasing(s) && |s| > 0 && x.userCount < s[0].userCount
    ensures NonIncreasing(s[1..]) && Insert(x, s) == [s[0]] + Insert(x, s[1..])
  {
  }

  /** Two pieces of which one is empty may be swapped. */
  lemma SwapDisjoint<T>(a: seq<T>, b: seq<T>, w: seq<T>)
    requires a == [] || b == []
    ensures a + (b + w) == b + (a + w)
  {
    if a == [] {
      assert a + (b + w) == b + w == b + (a + w);
    } else {
      assert a + (b + w) == a + w == b + (a + w);
    }
  }

  /** The sort is stable: rooms with the same user count keep the order
      they had. */
  lemma {:induction false} SortIsStable(s: seq<RoomStat>, c: nat)
    ensures WithCount(SortByUserCount(s), c) == WithCount(s, c)
    decreases |s|
  {
    if |s| > 0 {
      SortIsStable(s[1..], c);
      InsertIsStable(s[0], SortByUserCount(s[1..]), c);
      assert ([s[0]] + SortByUserCount(s[1..]))[1..] == SortByUserCount(s[1..]);
    }
  }

  /** Any permutation of the room list describes rooms of the registry. */
  lemma StatsDescribeRooms(rs: Rooms, hs: seq<RoomKey>, now: real, s: seq<RoomStat>)
    requires WellFormed(rs) && forall h :: h in hs ==> h in rs.vals
    requires multiset(s) == multiset(StatsOf(rs, hs, now))
    ensures forall i :: 0 <= i < |s| ==>
      && s[i].roomHash in rs.vals
      && s[i].userCount == Size(rs.vals[s[i].roomHash])
      && (s[i].isFull <==> s[i].userCount >= MaxRoomSize)
  {
    var u := StatsOf(rs, hs, now);
    forall i | 0 <= i < |s|
      ensures s[i].roomHash in rs.vals && s[i].userCount == Size(rs.vals[s[i].roomHash])
      ensures s[i].isFull <==> s[i].userCount >= MaxRoomSize
    {
      assert s[i] in multiset(u);
      var j :| 0 <= j < |u| && u[j] == s[i];
    }
  }

  /** `admin_stats()`: expired rooms are cleaned first; the totals describe
      the cleaned registry; the room list holds one line per remaining room,
      busiest first, rooms of equal size in registry order, with the total
      equal to the sum of its user counts. */
  function AdminStats(rs: Rooms, now: real): (r: Admin)
    requires WellFormed(rs)
    ensures r.registry == CleanRooms(rs, now)
    ensures r.report.serverStats.totalRooms == |r.registry.vals|
    ensures r.report.serverStats.totalUsers == SumCounts(r.report.rooms)
    ensures r.report.serverStats.maxRoomSize == MaxRoomSize
    ensures r.report.serverStats.roomTtlMinutes == 15
    ensures NonIncreasing(r.report.rooms)
    ensures multiset(r.report.rooms) == multiset(StatsOf(r.registry, r.registry.keys, now))
    ensures forall c: nat :: WithCount(r.report.rooms, c) == WithCount(StatsOf(r.registry, r.registry.keys, now), c)
    ensures forall i :: 0 <= i < |r.report.rooms| ==>
      var x := r.report.rooms[i];
      && x.roomHash in r.registry.vals
      && x.userCount == Size(r.registry.vals[x.roomHash])
      && (x.isFull <==> x.userCount >= MaxRoomSize)
  {
    var cleaned := CleanRooms(rs, now);
    SizeIsCardinality(cleaned);
    var unsorted := StatsOf(cleaned, cleaned.keys, now);
    var sorted := SortByUserCount(unsorted);
    TotalIsSumOfCounts(cleaned, cleaned.keys, now);
    StatsDescribeRooms(cleaned, cleaned.keys, now, sorted);
    assert forall c: nat :: WithCount(sorted, c) == WithCount(unsorted, c) by {
      forall c: nat ensures WithCount(sorted, c) == WithCount(unsorted, c) {
        SortIsStable(unsorted, c);
      }
    }
    var stats := ServerStats(Size(cleaned), TotalUsers(cleaned, cleaned.keys), MaxRoomSize, RoomTtlSeconds / 60);
    Admin(cleaned, AdminReport(stats, sorted))
  }
}
