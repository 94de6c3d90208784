/**
 The hub's critical sections in terms of its entries alone: when they accept, what they change, what
 they leave alone, and who gets a message.
 */
module HubLaws {
  import opened Outcomes
  import opened Signalling
  import opened WsHubs

  predicate HostLives(rooms: Rooms, room: string, alive: set<SessionId>) {
    room in rooms && rooms[room].host.Some? && rooms[room].host.value in alive
  }

  /** The ids of a room's live viewers */
  function LiveIds(rooms: Rooms, room: string, alive: set<SessionId>): set<string> {
    if room in rooms then set id | id in rooms[room].viewers && rooms[room].viewers[id] in alive else {}
  }

  /** Two maps of rooms agree but for one room. */
  ghost predicate SameElsewhere(rooms: Rooms, rooms': Rooms, room: string) {
    forall r | r != room :: (r in rooms' <==> r in rooms) && (r in rooms ==> rooms'[r] == rooms[r])
  }

  /** The viewers are the live ones of before, but for one id. */
  ghost predicate LiveViewersKept(rooms: Rooms, rooms': Rooms, room: string, alive: set<SessionId>,
                                  but: Option<string>) {
    room in rooms'
    && forall id | Some(id) != but ::
         (id in rooms'[room].viewers <==> id in LiveIds(rooms, room, alive))
         && (id in LiveIds(rooms, room, alive) ==> rooms'[room].viewers[id] == rooms[room].viewers[id])
  }

  // ----- registering

  /** A host is accepted exactly for a named room without a live host, and otherwise told why not. */
  lemma RegisterExactly(rooms: Rooms, room: string, alive: set<SessionId>)
    ensures RegisterError(rooms, room, alive) == None <==> room != "" && !HostLives(rooms, room, alive)
    ensures RegisterError(rooms, room, alive) == Some(BadRequest) <==> room == ""
    ensures RegisterError(rooms, room, alive) == Some(HostAlreadyExists)
            <==> room != "" && HostLives(rooms, room, alive)
  {}

  /** An accepted host owns the room with its token and the live viewers; a refused one changes nothing. */
  lemma RegisterEffect(rooms: Rooms, room: string, token: string, s: SessionId, alive: set<SessionId>)
    ensures var rooms' := AfterRegister(rooms, room, token, s, alive);
            if room != "" && !HostLives(rooms, room, alive) then
              && SameElsewhere(rooms, rooms', room)
              && LiveViewersKept(rooms, rooms', room, alive, None)
              && rooms'[room].host == Some(s) && rooms'[room].hostToken == token
            else rooms' == rooms
  {}

  // ----- joining

  /** A viewer is accepted exactly for a named room with a live host and fewer than max live viewers. */
  lemma JoinExactly(rooms: Rooms, room: string, alive: set<SessionId>, max: nat)
    ensures JoinError(rooms, room, alive, max) == None
            <==> room != "" && HostLives(rooms, room, alive) && |LiveIds(rooms, room, alive)| < max
    ensures JoinError(rooms, room, alive, max) == Some(BadRequest) <==> room == ""
    ensures JoinError(rooms, room, alive, max) == Some(RoomNotFound) <==> room != "" && !HostLives(rooms, room, alive)
    ensures JoinError(rooms, room, alive, max) == Some(RoomFull)
            <==> room != "" && HostLives(rooms, room, alive) && |LiveIds(rooms, room, alive)| >= max
  {
    if room in rooms { assert LiveViewers(rooms[room], alive).Keys == LiveIds(rooms, room, alive); }
  }

  /** An accepted viewer is listed with its id beside the live ones; a refused one adds nobody. */
  lemma JoinEffect(rooms: Rooms, room: string, id: string, s: SessionId, alive: set<SessionId>, max: nat)
    ensures var rooms' := AfterJoin(rooms, room, id, s, alive, max);
            && SameElsewhere(rooms, rooms', room)
            && if room == "" || !HostLives(rooms, room, alive) then rooms' == rooms
               else
                 && rooms'[room].host == rooms[room].host && rooms'[room].hostToken == rooms[room].hostToken
                 && var accepted := |LiveIds(rooms, room, alive)| < max;
                    && LiveViewersKept(rooms, rooms', room, alive, if accepted then Some(id) else None)
                    && (accepted ==> id in rooms'[room].viewers && rooms'[room].viewers[id] == s)
  {
    JoinExactly(rooms, room, alive, max);
  }

  // ----- leaving

  /**
   A leaving host takes the room with it. A leaving viewer takes its own entry, and the room only
   when it has no live host and nobody else in it.
   */
  lemma LeaveEffect(rooms: Rooms, room: string, peerId: string, alive: set<SessionId>)
    ensures var rooms' := AfterLeave(rooms, room, peerId, alive);
            && SameElsewhere(rooms, rooms', room)
            && (peerId == "host" ==> room !in rooms')
            && (peerId != "host" && room in rooms ==>
                  (room in rooms' <==> HostLives(rooms, room, alive) || rooms[room].viewers.Keys - {peerId} != {})
                  && (room in rooms' ==>
                        && rooms'[room].host == rooms[room].host && rooms'[room].hostToken == rooms[room].hostToken
                        && rooms'[room].viewers == rooms[room].viewers - {peerId}))
  {
    if room in rooms {
      var left := rooms[room].viewers - {peerId};
      assert left.Keys == rooms[room].viewers.Keys - {peerId};
      assert left == map[] <==> left.Keys == {};
    }
  }

  // ----- messages

  /** A message for a peer is handed to the live session listed under that id, and to no other. */
  lemma TargetExactly(rooms: Rooms, room: string, id: string, alive: set<SessionId>, t: SessionId)
    ensures Target(rooms, room, id, alive) == Some(t)
            <==> room in rooms && t in alive
                 && if id == "host" then rooms[room].host == Some(t)
                    else id in rooms[room].viewers && rooms[room].viewers[id] == t
  {}

  /** A broadcast hands the message to every live viewer once, and nothing else to anyone. */
  lemma BroadcastExactly(rooms: Rooms, room: string, alive: set<SessionId>, ids: seq<string>, message: Message)
    requires room in rooms && Enumerates(ids, LiveViewers(rooms[room], alive))
    ensures var out := ToViewers(ids, rooms[room].viewers, message);
            && |out| == |LiveIds(rooms, room, alive)|
            && (forall k | 0 <= k < |out| :: out[k].message == message)
            && forall t :: (exists id :: id in LiveIds(rooms, room, alive) && rooms[room].viewers[id] == t)
                           <==> Outgoing(t, message) in out
  {
    var out := ToViewers(ids, rooms[room].viewers, message);
    var live := LiveIds(rooms, room, alive);
    assert forall id :: id in ids <==> id in live;
    EnumerationSize(ids, live);
    forall t
      ensures (exists id :: id in live && rooms[room].viewers[id] == t) <==> Outgoing(t, message) in out
    {
      if id :| id in live && rooms[room].viewers[id] == t {
        var k :| 0 <= k < |ids| && ids[k] == id;
        assert out[k] == Outgoing(t, message);
      }
      if Outgoing(t, message) in out {
        var k :| 0 <= k < |out| && out[k] == Outgoing(t, message);
        assert ids[k] in live && rooms[room].viewers[ids[k]] == t;
      }
    }
  }

  /** A session is marked as told that its session ended exactly when Leave sends it that message. */
  lemma EndedMeansTold(sys: System, room: string, peerId: string, ids: seq<string>, out: seq<Outgoing>, t: SessionId)
    requires LeaveReplies(sys.rooms, room, peerId, sys.Alive(), ids, out) && t in sys.sessions
    ensures t in LeaveHub(sys, room, peerId).sessions
    ensures LeaveHub(sys, room, peerId).sessions[t].ended
            <==> sys.sessions[t].ended || Outgoing(t, SessionEnded(room, "host_disconnected")) in out
  {
    if peerId == "host" && room in sys.rooms {
      BroadcastExactly(sys.rooms, room, sys.Alive(), ids, SessionEnded(room, "host_disconnected"));
      var live := LiveViewers(sys.rooms[room], sys.Alive());
      var ids := LiveIds(sys.rooms, room, sys.Alive());
      assert t in live.Values <==> exists id :: id in ids && sys.rooms[room].viewers[id] == t;
    }
  }

  /** A leaving viewer is reported to the host, if it lives, and to nobody else. */
  lemma LeavingReported(rooms: Rooms, room: string, peerId: string, alive: set<SessionId>, ids: seq<string>,
                        out: seq<Outgoing>)
    requires LeaveReplies(rooms, room, peerId, alive, ids, out) && peerId != "host"
    ensures out
            == if HostLives(rooms, room, alive) then [Outgoing(rooms[room].host.value, PeerLeft(room, peerId))] else []
  {}

  /** The statistics count the rooms with a live host, and the live viewers of those rooms only. */
  lemma StatsExactly(rooms: Rooms, alive: set<SessionId>, room: string, id: string)
    ensures room in LiveRooms(rooms, alive) <==> HostLives(rooms, room, alive)
    ensures (room, id) in LivePairs(rooms, alive)
            <==> HostLives(rooms, room, alive) && id in LiveIds(rooms, room, alive)
  {}

  // ----- a full room

  /** Ids of different lengths */
  function ViewerName(k: nat): string {
    "v-" + seq(k, _ => 'x')
  }

  /** The entries of the first k viewers, which are the sessions 2 to k + 1 */
  function JoinedViewers(k: nat): map<string, SessionId> {
    if k == 0 then map[] else JoinedViewers(k - 1)[ViewerName(k) := k + 1]
  }

  lemma {:induction false} JoinedKeys(k: nat, n: nat)
    requires n > k
    ensures ViewerName(n) !in JoinedViewers(k) && |JoinedViewers(k)| == k
    ensures forall id | id in JoinedViewers(k) :: 2 <= JoinedViewers(k)[id] <= k + 1
  {
    if k > 0 {
      JoinedKeys(k - 1, n);
      JoinedKeys(k - 1, k);
      assert |ViewerName(n)| == n + 2 && |ViewerName(k)| == k + 2;
      assert JoinedViewers(k).Keys == JoinedViewers(k - 1).Keys + {ViewerName(k)};
    }
  }

  /** Host 1 and viewers 2 to k + 1 in one room */
  ghost predicate RoomOf(sys: System, k: nat) {
    && sys.rooms == map["r" := RoomState(Some(1), "t", JoinedViewers(k))]
    && (forall s :: s in sys.sessions <==> 1 <= s <= k + 1)
    && sys.sessions[1] == Session("r", "host", Hosting, false)
    && forall i | 1 <= i <= k :: sys.sessions[i + 1] == Session("r", ViewerName(i), Viewing, false)
  }

  /** For every limit, that many viewers are accepted one after the other; all are listed and counted. */
  lemma {:induction false} RoomFills(max: nat, k: nat) returns (steps: seq<Step>, sys: System)
    requires k <= max
    ensures Run(steps, max) == Some(sys) && RoomOf(sys, k)
    ensures LiveIds(sys.rooms, "r", sys.Alive()) == JoinedViewers(k).Keys && |JoinedViewers(k)| == k
    decreases k
  {
    hide Run, Next;
    JoinedKeys(k, k + 1);
    if k == 0 {
      steps, sys := OneHost(max);
    } else {
      steps, sys := RoomFills(max, k - 1);
      steps, sys := OneMoreViewer(steps, sys, max, k);
    }
    AllListed(sys, k);
  }

  lemma AllListed(sys: System, k: nat)
    requires RoomOf(sys, k)
    ensures LiveIds(sys.rooms, "r", sys.Alive()) == JoinedViewers(k).Keys
  {
    JoinedKeys(k, k + 1);
  }

  lemma OneMoreViewer(steps: seq<Step>, sys: System, max: nat, k: nat) returns (steps': seq<Step>, sys': System)
    requires Run(steps, max) == Some(sys) && 0 < k <= max && RoomOf(sys, k - 1)
    ensures Run(steps', max) == Some(sys') && RoomOf(sys', k)
  {
    hide Run, JoinedViewers, JoinError, LiveViewers, Pruned;
    var s, id := k + 1, ViewerName(k);
    steps', sys' := RunStep(steps, sys, Connect(s), max);
    assert id[..2] == "v-";
    ViewersStay(sys'.rooms, sys'.Alive(), k - 1, s);
    JoinAccepted(sys', max, k - 1);
    steps', sys' := RunStep(steps', sys', JoinCommit(s, "r", id), max);
    OneMoreEntry(k);
    steps', sys' := RunStep(steps', sys', JoinFields(s), max);
  }

  lemma OneMoreEntry(k: nat)
    requires k > 0
    ensures JoinedViewers(k) == JoinedViewers(k - 1)[ViewerName(k) := k + 1]
  {}

  lemma ViewersStay(rooms: Rooms, alive: set<SessionId>, k: nat, s: SessionId)
    requires rooms == map["r" := RoomState(Some(1), "t", JoinedViewers(k))] && forall t | 1 <= t <= k + 1 :: t in alive
    ensures Pruned(rooms["r"], alive) == rooms["r"]
  {
    JoinedKeys(k, k + 1);
    assert LiveViewers(rooms["r"], alive) == rooms["r"].viewers;
  }

  lemma JoinAccepted(sys: System, max: nat, k: nat)
    requires sys.rooms == map["r" := RoomState(Some(1), "t", JoinedViewers(k))]
    requires forall t | 1 <= t <= k + 1 :: t in sys.sessions
    ensures JoinError(sys.rooms, "r", sys.Alive(), max) == if k < max then None else Some(RoomFull)
  {
    JoinedKeys(k, k + 1);
    JoinExactly(sys.rooms, "r", sys.Alive(), max);
    assert LiveIds(sys.rooms, "r", sys.Alive()) == JoinedViewers(k).Keys;
    assert |JoinedViewers(k).Keys| == |JoinedViewers(k)|;
  }

  /**
   A room takes exactly as many viewers as its limit: after that many have joined, all of them are
   listed and counted, and the next one is told that the room is full.
   */
  lemma FullRoom(max: nat) returns (steps: seq<Step>, sys: System)
    ensures Run(steps, max) == Some(sys) && RoomOf(sys, max)
    ensures |LiveRooms(sys.rooms, sys.Alive())| == 1 && |LivePairs(sys.rooms, sys.Alive())| == max
    ensures JoinError(sys.rooms, "r", sys.Alive(), max) == Some(RoomFull)
  {
    hide Run;
    steps, sys := RoomFills(max, max);
    JoinAccepted(sys, max, max);
    CountedAll(sys, max);
  }

  lemma CountedAll(sys: System, k: nat)
    requires RoomOf(sys, k)
    ensures |LiveRooms(sys.rooms, sys.Alive())| == 1 && |LivePairs(sys.rooms, sys.Alive())| == k
  {
    hide PairsIn, LiveViewers;
    var alive := sys.Alive();
    assert LiveRooms(sys.rooms, alive) == {"r"};
    NoPairs(sys.rooms, alive);
    PairsAdded(sys.rooms, alive, {}, "r");
    assert {} + {"r"} == {"r"};
    ViewersStay(sys.rooms, alive, k, 0);
    JoinedKeys(k, k + 1);
    var viewers := JoinedViewers(k);
    assert LiveViewers(sys.rooms["r"], alive) == viewers;
    PairSize("r", viewers.Keys);
    assert (set id | id in viewers :: ("r", id)) == set id | id in viewers.Keys :: ("r", id);
  }
}
