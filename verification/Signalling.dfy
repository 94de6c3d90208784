/**
 Sessions and the hub together, as interleaved steps. Each hub call is one step (it runs under the
 hub's lock); a session's own fields change in separate steps before or after it, as in the
 handlers, so other sessions run in between. Possible steps are those of any connections; enabled
 ones those of connections that register once and keep to one room.
 */
module Signalling {
  import opened Outcomes
  import opened WsHubs

  /**
   Registering: fields set, hub not called yet. Refused: the room already had a host.
   Joining: the hub has assigned the id, the session has not stored it yet.
   Gone: the disconnect path has run; the object may still be alive.
   */
  datatype Phase = Idle | Registering(token: string) | Hosting | Refused | Joining(id: string) | Viewing | Gone

  /** ended: the session has been sent session.ended because its host left. */
  datatype Session = Session(room: string, peerId: string, phase: Phase, ended: bool)

  datatype System = System(rooms: Rooms, sessions: map<SessionId, Session>) {
    function Alive(): set<SessionId> {
      sessions.Keys
    }
  }

  datatype Step =
    | Connect(s: SessionId)
    | StoreRoom(s: SessionId, room: string)
    | HostFields(s: SessionId, room: string, token: string)
    | HostCommit(s: SessionId)
    | JoinCommit(s: SessionId, room: string, id: string)
    | JoinFields(s: SessionId)
    | Disconnect(s: SessionId)
    | Die(s: SessionId)

  /** What GenViewerId draws: "v-" and six hexadecimal digits */
  predicate IsViewerId(id: string) {
    |id| >= 2 && id[..2] == "v-"
  }

  /** The steps of any connections: they register as often as they like, and name any room in a message. */
  predicate Possible(sys: System, step: Step) {
    match step
    case Connect(s) => s !in sys.sessions
    case StoreRoom(s, _) => s in sys.sessions
    case HostFields(s, room, token) => s in sys.sessions && AtRest(sys.sessions[s]) && room != "" && token != ""
    case HostCommit(s) => s in sys.sessions && sys.sessions[s].phase.Registering?
    case JoinCommit(s, room, id) => s in sys.sessions && AtRest(sys.sessions[s]) && room != "" && IsViewerId(id)
    case JoinFields(s) => s in sys.sessions && sys.sessions[s].phase.Joining?
    case Disconnect(s) => s in sys.sessions && AtRest(sys.sessions[s])
    case Die(s) => s in sys.sessions && (sys.sessions[s].phase.Idle? || sys.sessions[s].phase.Gone?)
  }

  /** A connected session between two of its handlers */
  predicate AtRest(session: Session) {
    session.phase.Idle? || session.phase.Hosting? || session.phase.Refused? || session.phase.Viewing?
  }

  /** The steps of connections that register at most once, and keep to the room they registered in */
  predicate Enabled(sys: System, step: Step) {
    Possible(sys, step)
    && match step
       case StoreRoom(s, room) => sys.sessions[s].phase.Idle? || room == sys.sessions[s].room
       case HostFields(s, _, _) => sys.sessions[s].phase.Idle?
       case JoinCommit(s, _, _) => sys.sessions[s].phase.Idle?
       case _ => true
  }

  function WithSession(sys: System, s: SessionId, session: Session): System {
    sys.(sessions := sys.sessions[s := session])
  }

  /** Leave, and the session.ended messages it sends to the viewers of a leaving host */
  function LeaveHub(sys: System, room: string, peerId: string): System {
    var told: set<SessionId> :=
      if peerId == "host" && room in sys.rooms then LiveViewers(sys.rooms[room], sys.Alive()).Values else {};
    System(AfterLeave(sys.rooms, room, peerId, sys.Alive()),
           map s | s in sys.sessions :: if s in told then sys.sessions[s].(ended := true) else sys.sessions[s])
  }

  function Next(sys: System, step: Step, max: nat): System
    requires Possible(sys, step)
  {
    match step
    case Connect(s) => WithSession(sys, s, Session("", "", Idle, false))
    case StoreRoom(s, room) => WithSession(sys, s, sys.sessions[s].(room := room))
    case HostFields(s, room, token) =>
      WithSession(sys, s, sys.sessions[s].(room := room, peerId := "host", phase := Registering(token)))
    case HostCommit(s) =>
      var session := sys.sessions[s];
      if RegisterError(sys.rooms, session.room, sys.Alive()).Some? then
        WithSession(sys, s, session.(phase := Refused))
      else
        WithSession(sys.(rooms := AfterRegister(sys.rooms, session.room, session.phase.token, s, sys.Alive())), s,
                    session.(phase := Hosting))
    case JoinCommit(s, room, id) =>
      var session := sys.sessions[s].(room := room);
      var joined := sys.(rooms := AfterJoin(sys.rooms, room, id, s, sys.Alive(), max));
      if JoinError(sys.rooms, room, sys.Alive(), max).Some? then WithSession(joined, s, session)
      else WithSession(joined, s, session.(phase := Joining(id), ended := false))
    case JoinFields(s) =>
      var session := sys.sessions[s];
      WithSession(sys, s, session.(peerId := session.phase.id, phase := Viewing))
    case Disconnect(s) =>
      var session := sys.sessions[s];
      var named := session.room != "" && session.peerId != "";
      var left := if named then LeaveHub(sys, session.room, session.peerId) else sys;
      WithSession(left, s, session.(phase := Gone))
    case Die(s) => sys.(sessions := sys.sessions - {s})
  }

  /** The state after a run of enabled steps from the start, if all of them are enabled */
  function Run(steps: seq<Step>, max: nat): Option<System> {
    if |steps| == 0 then Some(System(map[], map[]))
    else
      match Run(steps[..|steps| - 1], max)
      case None => None
      case Some(sys) =>
        var step := steps[|steps| - 1];
        if Enabled(sys, step) then Some(Next(sys, step, max)) else None
  }

  // ----- agreement between the hub and the sessions

  predicate HostAgrees(sys: System, room: string)
    requires room in sys.rooms
  {
    sys.rooms[room].host.Some?
    && var h := sys.rooms[room].host.value;
       h in sys.sessions && sys.sessions[h].phase.Hosting? && sys.sessions[h].room == room
       && sys.sessions[h].peerId == "host"
  }

  predicate ViewerAgrees(sys: System, room: string, id: string)
    requires room in sys.rooms && id in sys.rooms[room].viewers
  {
    var v := sys.rooms[room].viewers[id];
    v in sys.sessions && sys.sessions[v].room == room
    && (sys.sessions[v].phase == Joining(id) || (sys.sessions[v].phase.Viewing? && sys.sessions[v].peerId == id))
  }

  /** What a session's fields say in each phase */
  predicate WellPhased(session: Session) {
    match session.phase
    case Idle => session.peerId == ""
    case Registering(_) => session.room != "" && session.peerId == "host"
    case Hosting => session.room != "" && session.peerId == "host"
    case Refused => session.room != "" && session.peerId == "host"
    case Joining(id) => session.room != "" && session.peerId == "" && IsViewerId(id)
    case Viewing => session.room != "" && IsViewerId(session.peerId)
    case Gone => true
  }

  /** Every hub entry points to a live session whose own fields name that entry. */
  predicate Agreement(sys: System) {
    && (forall s | s in sys.sessions :: WellPhased(sys.sessions[s]))
    && (forall room | room in sys.rooms :: room != "" && HostAgrees(sys, room))
    && (forall room, id | room in sys.rooms && id in sys.rooms[room].viewers ::
          IsViewerId(id) && ViewerAgrees(sys, room, id))
  }

  predicate SameIdentity(sys: System, sys': System, s: SessionId) {
    s in sys.sessions && s in sys'.sessions
    && sys'.sessions[s].room == sys.sessions[s].room
    && sys'.sessions[s].peerId == sys.sessions[s].peerId
    && sys'.sessions[s].phase == sys.sessions[s].phase
  }

  /** A step that only removes entries, and leaves alone the sessions behind the others */
  ghost predicate Shrinks(sys: System, sys': System) {
    && (forall room | room in sys'.rooms :: room in sys.rooms && sys'.rooms[room].host == sys.rooms[room].host
          && (sys'.rooms[room].host.Some? ==> SameIdentity(sys, sys', sys'.rooms[room].host.value)))
    && (forall room, id | room in sys'.rooms && id in sys'.rooms[room].viewers ::
          id in sys.rooms[room].viewers && sys'.rooms[room].viewers[id] == sys.rooms[room].viewers[id]
          && SameIdentity(sys, sys', sys'.rooms[room].viewers[id]))
  }

  lemma ShrinkingAgrees(sys: System, sys': System)
    requires Agreement(sys) && Shrinks(sys, sys')
    requires forall s | s in sys'.sessions :: WellPhased(sys'.sessions[s])
    ensures Agreement(sys')
  {
    forall room | room in sys'.rooms
      ensures room != "" && HostAgrees(sys', room)
    {
      assert HostAgrees(sys, room);
    }
    forall room, id | room in sys'.rooms && id in sys'.rooms[room].viewers
      ensures IsViewerId(id) && ViewerAgrees(sys', room, id)
    {
      assert ViewerAgrees(sys, room, id);
    }
  }

  lemma AgreementKept(sys: System, step: Step, max: nat)
    requires Agreement(sys) && Enabled(sys, step)
    ensures Agreement(Next(sys, step, max))
  {
    match step
    case Connect(s) => UnlistedAgrees(sys, Next(sys, step, max), s);
    case StoreRoom(s, room) => StoreRoomAgrees(sys, s, room, max);
    case HostFields(s, _, _) => UnlistedAgrees(sys, Next(sys, step, max), s);
    case HostCommit(s) => HostCommitAgrees(sys, s, max);
    case JoinCommit(s, room, id) => JoinCommitAgrees(sys, s, room, id, max);
    case JoinFields(s) => JoinFieldsAgrees(sys, s, max);
    case Disconnect(s) => DisconnectShrinks(sys, s, max); ShrinkingAgrees(sys, Next(sys, step, max));
    case Die(s) => UnlistedAgrees(sys, Next(sys, step, max), s);
  }

  /** A step of a session that no hub entry points to, without the hub */
  lemma UnlistedAgrees(sys: System, sys': System, s: SessionId)
    requires Agreement(sys) && sys'.rooms == sys.rooms
    requires s in sys.sessions ==> sys.sessions[s].phase.Idle? || sys.sessions[s].phase.Gone?
    requires forall t | t != s :: t in sys.sessions ==> t in sys'.sessions && sys'.sessions[t] == sys.sessions[t]
    requires forall t | t in sys'.sessions :: WellPhased(sys'.sessions[t])
    ensures Agreement(sys')
  {
    forall room | room in sys.rooms
      ensures sys.rooms[room].host.Some? ==> SameIdentity(sys, sys', sys.rooms[room].host.value)
    {
      assert HostAgrees(sys, room);
    }
    forall room, id | room in sys.rooms && id in sys.rooms[room].viewers
      ensures SameIdentity(sys, sys', sys.rooms[room].viewers[id])
    {
      assert ViewerAgrees(sys, room, id);
    }
    ShrinkingAgrees(sys, sys');
  }

  lemma StoreRoomAgrees(sys: System, s: SessionId, room: string, max: nat)
    requires Agreement(sys) && Enabled(sys, StoreRoom(s, room))
    ensures Agreement(Next(sys, StoreRoom(s, room), max))
  {
    var sys' := Next(sys, StoreRoom(s, room), max);
    if sys.sessions[s].phase.Idle? {
      UnlistedAgrees(sys, sys', s);
    } else {
      assert sys'.sessions == sys.sessions;
    }
  }

  lemma HostCommitAgrees(sys: System, s: SessionId, max: nat)
    requires Agreement(sys) && Enabled(sys, HostCommit(s))
    ensures Agreement(Next(sys, HostCommit(s), max))
  {
    var room, sys' := sys.sessions[s].room, Next(sys, HostCommit(s), max);
    if room in sys.rooms { assert HostAgrees(sys, room); }
    forall r | r in sys'.rooms
      ensures r != "" && HostAgrees(sys', r)
    {
      if r in sys.rooms { assert HostAgrees(sys, r); }
    }
    forall r, id | r in sys'.rooms && id in sys'.rooms[r].viewers
      ensures IsViewerId(id) && ViewerAgrees(sys', r, id)
    {
      assert ViewerAgrees(sys, r, id);
    }
  }

  lemma JoinCommitAgrees(sys: System, s: SessionId, room: string, id: string, max: nat)
    requires Agreement(sys) && Enabled(sys, JoinCommit(s, room, id))
    ensures Agreement(Next(sys, JoinCommit(s, room, id), max))
  {
    hide AfterJoin, JoinError;
    var sys' := Next(sys, JoinCommit(s, room, id), max);
    AfterJoinShape(sys.rooms, room, id, s, sys.Alive(), max);
    forall r | r in sys'.rooms
      ensures r != "" && HostAgrees(sys', r)
    {
      assert HostAgrees(sys, r);
    }
    forall r, i | r in sys'.rooms && i in sys'.rooms[r].viewers
      ensures IsViewerId(i) && ViewerAgrees(sys', r, i)
    {
      if i in sys.rooms[r].viewers { assert ViewerAgrees(sys, r, i); }
    }
  }

  lemma AfterJoinShape(rooms: Rooms, room: string, id: string, s: SessionId, alive: set<SessionId>, max: nat)
    ensures var rooms' := AfterJoin(rooms, room, id, s, alive, max);
            rooms'.Keys == rooms.Keys
            && forall r | r in rooms ::
                 rooms'[r].host == rooms[r].host
                 && forall i | i in rooms'[r].viewers ::
                      (i in rooms[r].viewers && rooms'[r].viewers[i] == rooms[r].viewers[i])
                      || (r == room && i == id && rooms'[r].viewers[i] == s && JoinError(rooms, room, alive, max).None?)
  {}

  lemma JoinFieldsAgrees(sys: System, s: SessionId, max: nat)
    requires Agreement(sys) && Enabled(sys, JoinFields(s))
    ensures Agreement(Next(sys, JoinFields(s), max))
  {
    var sys' := Next(sys, JoinFields(s), max);
    forall r | r in sys'.rooms
      ensures r != "" && HostAgrees(sys', r)
    {
      assert HostAgrees(sys, r);
    }
    forall r, i | r in sys'.rooms && i in sys'.rooms[r].viewers
      ensures IsViewerId(i) && ViewerAgrees(sys', r, i)
    {
      assert ViewerAgrees(sys, r, i);
    }
  }

  /** A disconnecting session takes its own entry with it. */
  lemma DisconnectShrinks(sys: System, s: SessionId, max: nat)
    requires Agreement(sys) && Enabled(sys, Disconnect(s))
    ensures Shrinks(sys, Next(sys, Disconnect(s), max))
  {
    var sys' := Next(sys, Disconnect(s), max);
    forall r | r in sys'.rooms
      ensures r in sys.rooms && sys'.rooms[r].host == sys.rooms[r].host
      ensures sys'.rooms[r].host.Some? ==> SameIdentity(sys, sys', sys'.rooms[r].host.value)
    {
      assert HostAgrees(sys, r);
    }
    forall r, id | r in sys'.rooms && id in sys'.rooms[r].viewers
      ensures id in sys.rooms[r].viewers && sys'.rooms[r].viewers[id] == sys.rooms[r].viewers[id]
      ensures SameIdentity(sys, sys', sys'.rooms[r].viewers[id])
    {
      assert r in sys.rooms;
      assert ViewerAgrees(sys, r, id);
    }
  }

  // ----- capacity

  predicate WithinCapacity(sys: System, max: nat) {
    forall room | room in sys.rooms :: |sys.rooms[room].viewers| <= max
  }

  lemma CapacityKept(sys: System, step: Step, max: nat)
    requires WithinCapacity(sys, max) && Enabled(sys, step)
    ensures WithinCapacity(Next(sys, step, max), max)
  {
    forall room | room in Next(sys, step, max).rooms
      ensures |Next(sys, step, max).rooms[room].viewers| <= max
    {
      if room in sys.rooms { SubmapSize(LiveViewers(sys.rooms[room], sys.Alive()), sys.rooms[room].viewers); }
      if step.Disconnect? && room in sys.rooms {
        SubmapSize(sys.rooms[room].viewers - {sys.sessions[step.s].peerId}, sys.rooms[room].viewers);
      }
    }
  }

  /** A call of the hub, with the sessions alive at that moment: any of them may have died since the last call. */
  datatype HubCall =
    | Register(room: string, token: string, s: SessionId, alive: set<SessionId>)
    | Join(room: string, s: SessionId, id: string, alive: set<SessionId>)
    | Leave(room: string, peerId: string, alive: set<SessionId>)

  /** The rooms after any calls at all, by any sessions, with any generated ids */
  function AfterCalls(calls: seq<HubCall>, max: nat): Rooms {
    if calls == [] then map[]
    else
      AfterCall(AfterCalls(calls[..|calls| - 1], max), calls[|calls| - 1], max)
  }

  /**
   Whatever the connections do and whenever they die: no room is over capacity, and GetStats reports
   at most max viewers for each room it reports.
   */
  lemma {:induction false} CapacityAlways(calls: seq<HubCall>, max: nat, now: set<SessionId>)
    ensures forall room | room in AfterCalls(calls, max) :: |AfterCalls(calls, max)[room].viewers| <= max
    ensures var rooms := AfterCalls(calls, max); |LivePairs(rooms, now)| <= max * |LiveRooms(rooms, now)|
  {
    hide LiveViewers, PairsIn, HostExpired, RegisterError, JoinError;
    var rooms := AfterCalls(calls, max);
    if calls != [] {
      var before, call := AfterCalls(calls[..|calls| - 1], max), calls[|calls| - 1];
      CapacityAlways(calls[..|calls| - 1], max, now);
      forall room | room in rooms
        ensures |rooms[room].viewers| <= max
      {
        if room in before { OneCallFits(before, call, room, max); } else { NewRoomFits(before, call, room, max); }
      }
    }
    PairsBounded(rooms, now, LiveRooms(rooms, now), max);
  }

  function AfterCall(rooms: Rooms, call: HubCall, max: nat): Rooms {
    match call
    case Register(room, token, s, alive) => AfterRegister(rooms, room, token, s, alive)
    case Join(room, s, id, alive) => AfterJoin(rooms, room, id, s, alive, max)
    case Leave(room, peerId, alive) => AfterLeave(rooms, room, peerId, alive)
  }

  lemma OneCallFits(rooms: Rooms, call: HubCall, room: string, max: nat)
    requires room in rooms && |rooms[room].viewers| <= max && room in AfterCall(rooms, call, max)
    ensures |AfterCall(rooms, call, max)[room].viewers| <= max
  {
    SubmapSize(LiveViewers(rooms[room], call.alive), rooms[room].viewers);
    if call.Leave? {
      SubmapSize(rooms[room].viewers - {call.peerId}, rooms[room].viewers);
    }
  }

  lemma NewRoomFits(rooms: Rooms, call: HubCall, room: string, max: nat)
    requires room !in rooms && room in AfterCall(rooms, call, max)
    ensures AfterCall(rooms, call, max)[room].viewers == map[]
  {}

  lemma SubmapSize(m: map<string, SessionId>, n: map<string, SessionId>)
    requires m.Keys <= n.Keys
    ensures |m| <= |n|
  {
    SubsetSize(m.Keys, n.Keys);
  }

  lemma SubsetSize<T>(s: set<T>, t: set<T>)
    requires s <= t
    ensures |s| <= |t|
  {
    assert t == s + (t - s);
  }

  // ----- whole runs

  /** In every reachable state the hub and the sessions agree, and no room is over capacity. */
  lemma {:induction false} ReachableStates(steps: seq<Step>, max: nat)
    ensures var r := Run(steps, max); r.Some? ==> Agreement(r.value) && WithinCapacity(r.value, max)
  {
    if |steps| > 0 {
      var before := Run(steps[..|steps| - 1], max);
      ReachableStates(steps[..|steps| - 1], max);
      var step := steps[|steps| - 1];
      if before.Some? && Enabled(before.value, step) {
        AgreementKept(before.value, step, max);
        CapacityKept(before.value, step, max);
      }
    }
  }

  lemma RoomHasHost(sys: System, room: string) returns (h: SessionId)
    requires Agreement(sys) && room in sys.rooms
    ensures h in sys.sessions && sys.sessions[h].phase.Hosting? && sys.rooms[room].host == Some(h)
  {
    assert HostAgrees(sys, room);
    h := sys.rooms[room].host.value;
  }

  /** Once every connection has gone through the disconnect path, no room is left. */
  lemma NoLeak(steps: seq<Step>, max: nat)
    requires var r := Run(steps, max); r.Some? && forall s | s in r.value.sessions :: r.value.sessions[s].phase.Gone?
    ensures Run(steps, max).value.rooms == map[]
  {
    ReachableStates(steps, max);
    var sys := Run(steps, max).value;
    if room :| room in sys.rooms {
      var h := RoomHasHost(sys, room);
    }
  }

  /** In every reachable state GetStats reports at most max viewers for each room it reports. */
  lemma StatsBounded(steps: seq<Step>, max: nat)
    requires Run(steps, max).Some?
    ensures var sys := Run(steps, max).value;
            |LivePairs(sys.rooms, sys.Alive())| <= max * |LiveRooms(sys.rooms, sys.Alive())|
  {
    ReachableStates(steps, max);
    var sys := Run(steps, max).value;
    PairsBounded(sys.rooms, sys.Alive(), LiveRooms(sys.rooms, sys.Alive()), max);
  }

  lemma {:induction false} PairsBounded(rooms: Rooms, alive: set<SessionId>, names: set<string>, max: nat)
    requires names <= rooms.Keys && forall room | room in rooms :: |rooms[room].viewers| <= max
    ensures |PairsIn(rooms, alive, names)| <= max * |names|
  {
    hide PairsIn, LiveViewers;
    if room :| room in names {
      var rest := names - {room};
      PairsBounded(rooms, alive, rest, max);
      PairsAdded(rooms, alive, rest, room);
      assert rest + {room} == names;
      PairsOfRoom(room, rooms[room], alive);
      UnionSize(PairsIn(rooms, alive, rest), set id | id in LiveViewers(rooms[room], alive) :: (room, id));
      OneMore(max, |rest|);
    } else {
      NoPairs(rooms, alive);
      assert names == {};
    }
  }

  lemma OneMore(max: nat, n: nat)
    ensures max * (n + 1) == max * n + max
  {}

  lemma PairsOfRoom(room: string, rs: RoomState, alive: set<SessionId>)
    ensures |set id | id in LiveViewers(rs, alive) :: (room, id)| <= |rs.viewers|
  {
    hide LiveViewers;
    var viewers := LiveViewers(rs, alive);
    PairSize(room, viewers.Keys);
    assert (set id | id in viewers :: (room, id)) == set id | id in viewers.Keys :: (room, id);
    LiveSize(rs, alive);
  }

  lemma LiveSize(rs: RoomState, alive: set<SessionId>)
    ensures |LiveViewers(rs, alive)| <= |rs.viewers|
  {
    SubmapSize(LiveViewers(rs, alive), rs.viewers);
  }

  lemma UnionSize<T>(s: set<T>, t: set<T>)
    ensures |s + t| <= |s| + |t|
  {
    assert s + t == s + (t - s);
    SubsetSize(t - s, t);
  }

  // ----- nobody is forgotten

  /** No session of the room that could still leave it uses the drawn id. */
  predicate FreshId(sys: System, room: string, id: string) {
    forall s | s in sys.sessions && sys.sessions[s].room == room && !sys.sessions[s].phase.Gone? ::
      sys.sessions[s].peerId != id && sys.sessions[s].phase != Joining(id)
  }

  /** Steps without a refused host and without a colliding viewer id */
  predicate WellBehaved(sys: System, step: Step) {
    Enabled(sys, step)
    && match step
       case HostCommit(s) => RegisterError(sys.rooms, sys.sessions[s].room, sys.Alive()).None?
       case JoinCommit(s, room, id) => FreshId(sys, room, id)
       case _ => true
  }

  predicate Refusing(session: Session) {
    session.phase.Refused?
  }

  predicate Listed(sys: System, s: SessionId)
    requires s in sys.sessions
  {
    var session := sys.sessions[s];
    match session.phase
    case Hosting => session.room in sys.rooms && sys.rooms[session.room].host == Some(s)
    case Joining(id) =>
      session.ended
      || (session.room in sys.rooms && id in sys.rooms[session.room].viewers
          && sys.rooms[session.room].viewers[id] == s)
    case Viewing =>
      session.ended
      || (session.room in sys.rooms && session.peerId in sys.rooms[session.room].viewers
          && sys.rooms[session.room].viewers[session.peerId] == s)
    case _ => true
  }

  /** The viewer id a session has been given */
  function ViewerId(session: Session): Option<string> {
    match session.phase
    case Joining(id) => Some(id)
    case Viewing => Some(session.peerId)
    case _ => None
  }

  predicate SameViewer(s: Session, t: Session) {
    ViewerId(s).Some? && s.room == t.room && ViewerId(s) == ViewerId(t)
  }

  predicate DistinctIds(sys: System) {
    forall s, t | s in sys.sessions && t in sys.sessions && s != t :: !SameViewer(sys.sessions[s], sys.sessions[t])
  }

  /** Every host keeps its room; every viewer is listed, or has been told that its session ended. */
  predicate Complete(sys: System) {
    DistinctIds(sys) && forall s | s in sys.sessions :: Listed(sys, s) && !Refusing(sys.sessions[s])
  }

  lemma CompletenessKept(sys: System, step: Step, max: nat)
    requires Agreement(sys) && Complete(sys) && WellBehaved(sys, step)
    ensures Complete(Next(sys, step, max))
  {
    var sys' := Next(sys, step, max);
    forall t | t in sys'.sessions
      ensures Listed(sys', t) && !Refusing(sys'.sessions[t])
    {
      if t in sys.sessions { StaysListed(sys, step, max, t); }
    }
    IdsStayDistinct(sys, step, max);
  }

  lemma IdsStayDistinct(sys: System, step: Step, max: nat)
    requires DistinctIds(sys) && WellBehaved(sys, step)
    ensures DistinctIds(Next(sys, step, max))
  {
    var sys' := Next(sys, step, max);
    forall s, t | s in sys'.sessions && t in sys'.sessions && s != t
      ensures !SameViewer(sys'.sessions[s], sys'.sessions[t])
    {
      if s in sys.sessions && t in sys.sessions { assert !SameViewer(sys.sessions[s], sys.sessions[t]); }
    }
  }

  lemma StaysListed(sys: System, step: Step, max: nat, t: SessionId)
    requires Agreement(sys) && Complete(sys) && WellBehaved(sys, step)
    requires t in sys.sessions && t in Next(sys, step, max).sessions
    ensures Listed(Next(sys, step, max), t) && !Refusing(Next(sys, step, max).sessions[t])
  {
    assert Listed(sys, t) && !Refusing(sys.sessions[t]);
    match step
    case Disconnect(s) => DisconnectKeepsOthers(sys, s, max, t);
    case HostCommit(s) => NewRoom(sys, s);
    case JoinCommit(s, room, id) => JoinKeepsOthers(sys, s, room, id, max, t);
    case _ =>
  }

  lemma JoinKeepsOthers(sys: System, s: SessionId, room: string, id: string, max: nat, t: SessionId)
    requires WellBehaved(sys, JoinCommit(s, room, id))
    requires t in sys.sessions && Listed(sys, t) && !Refusing(sys.sessions[t])
    ensures Listed(Next(sys, JoinCommit(s, room, id), max), t)
    ensures !Refusing(Next(sys, JoinCommit(s, room, id), max).sessions[t])
  {}

  lemma NewRoom(sys: System, s: SessionId)
    requires Agreement(sys) && Enabled(sys, HostCommit(s))
    ensures RegisterError(sys.rooms, sys.sessions[s].room, sys.Alive()).None? <==> sys.sessions[s].room !in sys.rooms
  {
    if sys.sessions[s].room in sys.rooms { assert HostAgrees(sys, sys.sessions[s].room); }
  }

  lemma DisconnectKeepsOthers(sys: System, s: SessionId, max: nat, t: SessionId)
    requires Agreement(sys) && Complete(sys) && Enabled(sys, Disconnect(s)) && t in sys.sessions
    ensures Listed(Next(sys, Disconnect(s), max), t) && !Refusing(Next(sys, Disconnect(s), max).sessions[t])
  {
    assert Listed(sys, s) && Listed(sys, t) && !Refusing(sys.sessions[s]) && !Refusing(sys.sessions[t]);
    var a, b := sys.sessions[s], sys.sessions[t];
    assert WellPhased(a) && WellPhased(b);
    if s != t && !a.phase.Idle? && a.room in sys.rooms {
      assert HostAgrees(sys, a.room);
      if a.phase.Hosting? {
        HostLeaves(sys, a.room, t);
      } else {
        assert !SameViewer(a, b);
        HostIsNoViewerId();
        ViewerLeaves(sys, a.room, a.peerId, t);
      }
    }
  }

  lemma HostIsNoViewerId()
    ensures !IsViewerId("host")
  {
    assert "host"[..2][0] == 'h';
  }

  lemma HostLeaves(sys: System, room: string, t: SessionId)
    requires room in sys.rooms && t in sys.sessions && Listed(sys, t) && !Refusing(sys.sessions[t])
    requires sys.sessions[t].phase.Hosting? ==> sys.rooms[room].host != Some(t)
    ensures Listed(LeaveHub(sys, room, "host"), t) && !Refusing(LeaveHub(sys, room, "host").sessions[t])
  {
    var session, id := sys.sessions[t], ViewerId(sys.sessions[t]);
    if id.Some? && session.room == room && !session.ended {
      assert LiveViewers(sys.rooms[room], sys.Alive())[id.value] == t;
      assert t in LiveViewers(sys.rooms[room], sys.Alive()).Values;
    }
  }

  lemma ViewerLeaves(sys: System, room: string, peerId: string, t: SessionId)
    requires room in sys.rooms && t in sys.sessions && Listed(sys, t) && !Refusing(sys.sessions[t])
    requires peerId != "host" && HostAgrees(sys, room)
    requires sys.sessions[t].room == room ==> ViewerId(sys.sessions[t]) != Some(peerId)
    ensures Listed(LeaveHub(sys, room, peerId), t) && !Refusing(LeaveHub(sys, room, peerId).sessions[t])
  {}

  /** Runs of well-behaved steps */
  predicate AllWellBehaved(steps: seq<Step>, max: nat) {
    |steps| == 0
    || (AllWellBehaved(steps[..|steps| - 1], max)
        && var before := Run(steps[..|steps| - 1], max);
           before.Some? && WellBehaved(before.value, steps[|steps| - 1]))
  }

  /**
   While no host is refused and no drawn id collides, every connected host has its room, and every
   connected viewer is listed in its room or has been told that its session ended.
   */
  lemma {:induction false} NobodyForgotten(steps: seq<Step>, max: nat)
    requires AllWellBehaved(steps, max)
    ensures Run(steps, max).Some? && Complete(Run(steps, max).value)
  {
    if |steps| > 0 {
      var before := steps[..|steps| - 1];
      NobodyForgotten(before, max);
      ReachableStates(before, max);
      CompletenessKept(Run(before, max).value, steps[|steps| - 1], max);
    }
  }

  // ----- what the conditions are for

  predicate HostsListed(sys: System) {
    forall h | h in sys.sessions && sys.sessions[h].phase.Hosting? :: Listed(sys, h)
  }

  predicate HostEntry(sys: System, room: string, h: SessionId) {
    room in sys.rooms && sys.rooms[room].host == Some(h)
  }

  predicate ViewerEntry(sys: System, room: string, id: string, v: SessionId) {
    room in sys.rooms && id in sys.rooms[room].viewers && sys.rooms[room].viewers[id] == v
  }

  /** The disconnect of a session whose fields name the room and the host, whoever its host is */
  predicate Evicts(sys: System, step: Step, room: string) {
    step.Disconnect? && step.s in sys.sessions && room != ""
    && sys.sessions[step.s].room == room && sys.sessions[step.s].peerId == "host"
  }

  /** The ways in which a viewer's entry is lost: with its room, to a leaving namesake, or to a colliding id */
  predicate Drops(sys: System, step: Step, room: string, id: string, v: SessionId, max: nat) {
    || Evicts(sys, step, room)
    || (step.Disconnect? && step.s in sys.sessions && room != "" && id != ""
        && sys.sessions[step.s].room == room && sys.sessions[step.s].peerId == id)
    || (step.JoinCommit? && step.room == room && step.id == id && step.s != v
        && JoinError(sys.rooms, room, sys.Alive(), max).None?)
  }

  /** In any state at all, a live session stays the host of a room in every step but those. */
  lemma HostEntryKept(sys: System, step: Step, room: string, h: SessionId, max: nat)
    requires Possible(sys, step) && h in sys.sessions && HostEntry(sys, room, h)
    ensures HostEntry(Next(sys, step, max), room, h) <==> !Evicts(sys, step, room)
  {}

  /** In any state at all, a live session stays listed as a viewer in every step but those. */
  lemma ViewerEntryKept(sys: System, step: Step, room: string, id: string, v: SessionId, max: nat)
    requires Possible(sys, step) && v in sys.sessions && ViewerEntry(sys, room, id, v)
    ensures ViewerEntry(Next(sys, step, max), room, id, v) <==> !Drops(sys, step, room, id, v, max)
  {
    hide LiveViewers;
    LiveViewerKept(sys, room, id, v);
    if step.Disconnect? {
      LeaveDrops(sys, step.s, room, id, v, max);
    }
  }

  lemma LiveViewerKept(sys: System, room: string, id: string, v: SessionId)
    requires v in sys.sessions && ViewerEntry(sys, room, id, v)
    ensures var live := LiveViewers(sys.rooms[room], sys.Alive()); id in live && live[id] == v
  {}

  lemma LeaveDrops(sys: System, s: SessionId, room: string, id: string, v: SessionId, max: nat)
    requires Possible(sys, Disconnect(s)) && v in sys.sessions && ViewerEntry(sys, room, id, v)
    ensures ViewerEntry(Next(sys, Disconnect(s), max), room, id, v) <==> !Drops(sys, Disconnect(s), room, id, v, max)
  {
    hide LiveViewers;
    var peerId := sys.sessions[s].peerId;
    if peerId != "host" && peerId != id {
      assert id in sys.rooms[room].viewers - {peerId};
    }
  }

  /** A run of possible steps from any state */
  function FreeRun(sys: System, steps: seq<Step>, max: nat): Option<System>
    decreases |steps|
  {
    if steps == [] then Some(sys)
    else if !Possible(sys, steps[0]) then None
    else FreeRun(Next(sys, steps[0], max), steps[1..], max)
  }

  /** The session is the room's host in every state of the run. */
  predicate HostThroughout(sys: System, steps: seq<Step>, room: string, h: SessionId, max: nat)
    requires FreeRun(sys, steps, max).Some?
    decreases |steps|
  {
    HostEntry(sys, room, h) && (steps != [] ==> HostThroughout(Next(sys, steps[0], max), steps[1..], room, h, max))
  }

  /** Some step of the run takes the room from its host. */
  predicate EvictedDuring(sys: System, steps: seq<Step>, room: string, max: nat)
    requires FreeRun(sys, steps, max).Some?
    decreases |steps|
  {
    steps != [] && (Evicts(sys, steps[0], room) || EvictedDuring(Next(sys, steps[0], max), steps[1..], room, max))
  }

  /**
   Over any run of any connections, a host that lives keeps its room exactly when no session, its
   own included, disconnects under that room and the name host.
   */
  lemma {:induction false} HostKeepsRoom(sys: System, steps: seq<Step>, room: string, h: SessionId, max: nat)
    requires FreeRun(sys, steps, max).Some? && h in sys.sessions && HostEntry(sys, room, h)
    requires forall k | 0 <= k < |steps| :: steps[k] != Die(h)
    ensures HostThroughout(sys, steps, room, h, max) <==> !EvictedDuring(sys, steps, room, max)
    decreases |steps|
  {
    hide Next, HostEntry, Evicts;
    if steps != [] {
      var next := Next(sys, steps[0], max);
      HostEntryKept(sys, steps[0], room, h, max);
      if HostEntry(next, room, h) {
        OthersLive(sys, steps[0], h, max);
        HostKeepsRoom(next, steps[1..], room, h, max);
      }
    }
  }

  lemma OthersLive(sys: System, step: Step, h: SessionId, max: nat)
    requires Possible(sys, step) && h in sys.sessions && step != Die(h)
    ensures h in Next(sys, step, max).sessions
  {}

  /**
   For connections that keep to one room: an accepted host keeps it in every step of others but the
   disconnect of a session of that room with the name host, refused or itself evicted before.
   */
  lemma AcceptedHostKeepsRoom(sys: System, step: Step, h: SessionId, max: nat)
    requires Enabled(sys, step) && step != Disconnect(h)
    requires h in sys.sessions && sys.sessions[h].phase.Hosting? && Listed(sys, h)
    ensures var sys' := Next(sys, step, max);
            && h in sys'.sessions && sys'.sessions[h].phase.Hosting?
            && (Listed(sys', h) <==> !Evicts(sys, step, sys.sessions[h].room))
  {
    hide LiveViewers, JoinError, RegisterError;
    HostEntryKept(sys, step, sys.sessions[h].room, h, max);
  }

  /**
   In a run of such connections the first step that leaves an accepted host without its room is the
   disconnect of a refused host whose room is still there.
   */
  lemma FirstEviction(sys: System, step: Step, max: nat)
    requires Agreement(sys) && HostsListed(sys) && Enabled(sys, step)
    ensures HostsListed(Next(sys, step, max)) <==>
              !(step.Disconnect? && sys.sessions[step.s].phase.Refused? && sys.sessions[step.s].room in sys.rooms)
  {
    hide Next, Evicts, LiveViewers;
    var sys' := Next(sys, step, max);
    if step.Disconnect? && sys.sessions[step.s].phase.Refused? && sys.sessions[step.s].room in sys.rooms {
      var h := RoomHasHost(sys, sys.sessions[step.s].room);
      RefusedEvicts(sys, step.s, h);
      AcceptedHostKeepsRoom(sys, step, h, max);
    } else {
      forall h | h in sys'.sessions && sys'.sessions[h].phase.Hosting?
        ensures Listed(sys', h)
      {
        NewHost(sys, step, h, max);
        if h in sys.sessions && sys.sessions[h].phase.Hosting? && step != Disconnect(h) {
          NoEviction(sys, step, h);
          AcceptedHostKeepsRoom(sys, step, h, max);
        }
      }
    }
  }

  lemma RefusedEvicts(sys: System, s: SessionId, h: SessionId)
    requires Agreement(sys) && s in sys.sessions && sys.sessions[s].phase.Refused?
    requires HostEntry(sys, sys.sessions[s].room, h)
    ensures h in sys.sessions && sys.sessions[h].phase.Hosting? && Listed(sys, h) && h != s
    ensures Evicts(sys, Disconnect(s), sys.sessions[h].room)
  {
    assert HostAgrees(sys, sys.sessions[s].room) && WellPhased(sys.sessions[s]);
  }

  lemma NewHost(sys: System, step: Step, h: SessionId, max: nat)
    requires Agreement(sys) && Enabled(sys, step)
    requires h in Next(sys, step, max).sessions && Next(sys, step, max).sessions[h].phase.Hosting?
    ensures step != Disconnect(h)
    ensures (h in sys.sessions && sys.sessions[h].phase.Hosting?) || Listed(Next(sys, step, max), h)
  {}

  lemma NoEviction(sys: System, step: Step, h: SessionId)
    requires Agreement(sys) && HostsListed(sys) && Enabled(sys, step)
    requires h in sys.sessions && sys.sessions[h].phase.Hosting? && step != Disconnect(h)
    requires !(step.Disconnect? && sys.sessions[step.s].phase.Refused? && sys.sessions[step.s].room in sys.rooms)
    ensures !Evicts(sys, step, sys.sessions[h].room) && Listed(sys, h)
  {
    if step.Disconnect? {
      assert WellPhased(sys.sessions[step.s]);
      if sys.sessions[step.s].phase.Hosting? { assert Listed(sys, step.s); }
      HostIsNoViewerId();
    }
  }

  /** That situation is reachable: the second host of a room is refused, and evicts the first. */
  lemma RefusedHostEvicts(max: nat) returns (steps: seq<Step>, sys: System)
    ensures steps == [Connect(1), HostFields(1, "r", "t"), HostCommit(1),
                      Connect(2), HostFields(2, "r", "t"), HostCommit(2), Disconnect(2)]
    ensures Run(steps, max) == Some(sys)
    ensures sys.sessions.Keys == {1, 2} && sys.rooms == map[]
    ensures sys.sessions[1].phase.Hosting? && sys.sessions[1].room == "r" && sys.sessions[1].peerId == "host"
  {
    steps, sys := OneHost(max);
    steps, sys := RunStep(steps, sys, Connect(2), max);
    steps, sys := RunStep(steps, sys, HostFields(2, "r", "t"), max);
    steps, sys := RunStep(steps, sys, HostCommit(2), max);
    assert sys.sessions[2].phase.Refused?;
    steps, sys := RunStep(steps, sys, Disconnect(2), max);
  }

  /** An evicted host evicts in its turn, though it was never refused: the room's next host loses it. */
  lemma EvictedHostEvicts(max: nat) returns (steps: seq<Step>, sys: System)
    ensures steps == [Connect(1), HostFields(1, "r", "t"), HostCommit(1),
                      Connect(2), HostFields(2, "r", "t"), HostCommit(2), Disconnect(2),
                      Connect(3), HostFields(3, "r", "t"), HostCommit(3), Disconnect(1)]
    ensures Run(steps, max) == Some(sys)
    ensures 3 in sys.sessions && sys.sessions[3].phase.Hosting? && sys.rooms == map[]
  {
    hide Next, Run;
    steps, sys := RefusedHostEvicts(max);
    steps, sys := ThirdHost(steps, sys, max);
  }

  lemma ThirdHost(steps: seq<Step>, sys: System, max: nat) returns (steps': seq<Step>, sys': System)
    requires Run(steps, max) == Some(sys) && sys.rooms == map[] && 3 !in sys.sessions
    requires 1 in sys.sessions && sys.sessions[1].phase.Hosting?
    requires sys.sessions[1].room == "r" && sys.sessions[1].peerId == "host"
    ensures steps' == steps + [Connect(3), HostFields(3, "r", "t"), HostCommit(3), Disconnect(1)]
    ensures Run(steps', max) == Some(sys') && sys'.rooms == map[]
    ensures 3 in sys'.sessions && sys'.sessions[3].phase.Hosting?
  {
    hide Run;
    steps', sys' := RunStep(steps, sys, Connect(3), max);
    steps', sys' := RunStep(steps', sys', HostFields(3, "r", "t"), max);
    steps', sys' := RunStep(steps', sys', HostCommit(3), max);
    assert sys'.rooms == map["r" := RoomState(Some(3), "t", map[])];
    steps', sys' := RunStep(steps', sys', Disconnect(1), max);
  }

  lemma OneHost(max: nat) returns (steps: seq<Step>, sys: System)
    ensures steps == [Connect(1), HostFields(1, "r", "t"), HostCommit(1)] && Run(steps, max) == Some(sys)
    ensures sys == System(map["r" := RoomState(Some(1), "t", map[])], map[1 := Session("r", "host", Hosting, false)])
  {
    steps, sys := [], System(map[], map[]);
    steps, sys := RunStep(steps, sys, Connect(1), max);
    steps, sys := RunStep(steps, sys, HostFields(1, "r", "t"), max);
    steps, sys := RunStep(steps, sys, HostCommit(1), max);
  }

  lemma RunStep(steps: seq<Step>, sys: System, step: Step, max: nat) returns (steps': seq<Step>, sys': System)
    requires Run(steps, max) == Some(sys) && Enabled(sys, step)
    ensures steps' == steps + [step] && sys' == Next(sys, step, max) && Run(steps', max) == Some(sys')
  {
    steps', sys' := steps + [step], Next(sys, step, max);
    assert steps'[..|steps|] == steps;
  }

  predicate EntriesAgree(sys: System) {
    && (forall room | room in sys.rooms :: HostAgrees(sys, room))
    && (forall room, id | room in sys.rooms && id in sys.rooms[room].viewers :: ViewerAgrees(sys, room, id))
  }

  ghost predicate HasEntry(sys: System, s: SessionId) {
    || (exists room :: room in sys.rooms && sys.rooms[room].host == Some(s))
    || (exists room, id :: room in sys.rooms && id in sys.rooms[room].viewers && sys.rooms[room].viewers[id] == s)
  }

  /** Agreement survives a message exactly when a listed session's message names its own room. */
  lemma RoomOverwritten(sys: System, s: SessionId, room: string, max: nat)
    requires Agreement(sys) && s in sys.sessions
    ensures EntriesAgree(Next(sys, StoreRoom(s, room), max)) <==> room == sys.sessions[s].room || !HasEntry(sys, s)
  {
    var sys' := Next(sys, StoreRoom(s, room), max);
    if room == sys.sessions[s].room {
      assert sys'.sessions == sys.sessions;
    }
    forall r | r in sys.rooms
      ensures HostAgrees(sys', r) <==> room == sys.sessions[s].room || sys.rooms[r].host != Some(s)
    {
      assert HostAgrees(sys, r);
    }
    forall r, id | r in sys.rooms && id in sys.rooms[r].viewers
      ensures ViewerAgrees(sys', r, id) <==> room == sys.sessions[s].room || sys.rooms[r].viewers[id] != s
    {
      assert ViewerAgrees(sys, r, id);
    }
  }

  /**
   In any state at all: of the entries of a session, its disconnect leaves exactly those its fields
   do not name, the host's entry by its room and a viewer's by its room and id.
   */
  lemma EntriesLeftBehind(sys: System, s: SessionId, max: nat)
    requires Possible(sys, Disconnect(s))
    ensures var after, room, peerId := Next(sys, Disconnect(s), max), sys.sessions[s].room, sys.sessions[s].peerId;
            && (forall r | HostEntry(sys, r, s) :: HostEntry(after, r, s) <==> !(r == room != "" && peerId == "host"))
            && (forall r, id | ViewerEntry(sys, r, id, s) ::
                  ViewerEntry(after, r, id, s)
                  <==> !(r == room != "" && (peerId == "host" || peerId == id != "")))
  {
    hide Next, HostEntry, ViewerEntry;
    forall r | HostEntry(sys, r, s)
      ensures HostEntry(Next(sys, Disconnect(s), max), r, s) <==> !Evicts(sys, Disconnect(s), r)
    {
      HostEntryKept(sys, Disconnect(s), r, s, max);
    }
    forall r, id | ViewerEntry(sys, r, id, s)
      ensures ViewerEntry(Next(sys, Disconnect(s), max), r, id, s) <==> !Drops(sys, Disconnect(s), r, id, s, max)
    {
      ViewerEntryKept(sys, Disconnect(s), r, id, s, max);
    }
  }

  /** A session whose last message named another room: its own entries stay. */
  lemma EntryLeftBehind(sys: System, s: SessionId, room: string, max: nat)
    requires Agreement(sys) && s in sys.sessions && HasEntry(sys, s)
    requires sys.sessions[s].phase.Hosting? || sys.sessions[s].phase.Viewing?
    ensures HasEntry(Next(Next(sys, StoreRoom(s, room), max), Disconnect(s), max), s) <==> room != sys.sessions[s].room
  {
    var own, sys' := sys.sessions[s].room, Next(sys, StoreRoom(s, room), max);
    var after := Next(sys', Disconnect(s), max);
    var id := EntryAt(sys, s);
    if room == own {
      assert sys'.sessions == sys.sessions;
      AgreementKept(sys, Disconnect(s), max);
      if HasEntry(after, s) { var gone := EntryAt(after, s); }
    } else {
      assert after.rooms[own] == sys.rooms[own];
      if id.Some? { assert id.value in after.rooms[own].viewers; }
    }
  }

  /** The entry of a listed session is the one its own fields name: a viewer id, or the host. */
  lemma EntryAt(sys: System, s: SessionId) returns (id: Option<string>)
    requires Agreement(sys) && HasEntry(sys, s)
    ensures s in sys.sessions && !sys.sessions[s].phase.Gone? && sys.sessions[s].room in sys.rooms
    ensures var rs := sys.rooms[sys.sessions[s].room];
            if id.None? then rs.host == Some(s) else id.value in rs.viewers && rs.viewers[id.value] == s
  {
    if room :| room in sys.rooms && sys.rooms[room].host == Some(s) {
      assert HostAgrees(sys, room);
      id := None;
    } else {
      var room, v :| room in sys.rooms && v in sys.rooms[room].viewers && sys.rooms[room].viewers[v] == s;
      assert ViewerAgrees(sys, room, v);
      id := Some(v);
    }
  }

  /**
   A host that disconnects takes away the room its last message named, whoever hosts that room, and
   no other: it leaves its own behind exactly when it named another. While the session lives, nobody
   can register that room again.
   */
  lemma OverwrittenRoomLeaks(sys: System, s: SessionId, room: string, max: nat)
    requires Agreement(sys) && s in sys.sessions && sys.sessions[s].phase.Hosting? && Listed(sys, s)
    ensures var own, after := sys.sessions[s].room, Next(Next(sys, StoreRoom(s, room), max), Disconnect(s), max);
            && after.rooms == sys.rooms - {room}
            && (own in after.rooms <==> room != own)
            && (own in after.rooms ==>
                  after.rooms[own].host == Some(s)
                  && RegisterError(after.rooms, own, after.Alive()) == Some(HostAlreadyExists))
  {
    assert WellPhased(sys.sessions[s]);
    assert "" !in sys.rooms;
  }

  /** Such a host: its room stays after the disconnect path, taken until the session dies. */
  lemma RoomLeftBehind(max: nat) returns (steps: seq<Step>, after: System)
    ensures steps == [Connect(1), HostFields(1, "r", "t"), HostCommit(1), StoreRoom(1, "q"), Disconnect(1)]
    ensures FreeRun(System(map[], map[]), steps, max) == Some(after)
    ensures after.sessions.Keys == {1} && after.sessions[1].phase.Gone?
    ensures after.rooms == map["r" := RoomState(Some(1), "t", map[])]
    ensures RegisterError(after.rooms, "r", after.Alive()) == Some(HostAlreadyExists) && Possible(after, Die(1))
    ensures var dead := Next(after, Die(1), max);
            "r" in dead.rooms && RegisterError(dead.rooms, "r", dead.Alive()) == None
  {
    var sys;
    steps, sys := FreeHost([], System(map[], map[]), 1, "r", max);
    assert "q"[0] != "r"[0];
    steps, sys := FreeStep(steps, sys, StoreRoom(1, "q"), max);
    steps, after := FreeStep(steps, sys, Disconnect(1), max);
  }

  /** A host that names another host's room takes it along when it disconnects, and leaves its own behind. */
  lemma ForeignRoomEvicted(max: nat) returns (steps: seq<Step>, after: System)
    ensures steps == [Connect(1), HostFields(1, "r", "t"), HostCommit(1),
                      Connect(2), HostFields(2, "q", "t"), HostCommit(2), StoreRoom(1, "q"), Disconnect(1)]
    ensures FreeRun(System(map[], map[]), steps, max) == Some(after)
    ensures 2 in after.sessions && after.sessions[2].phase.Hosting? && after.sessions[2].room == "q"
    ensures after.rooms == map["r" := RoomState(Some(1), "t", map[])]
  {
    var sys;
    assert "q"[0] != "r"[0];
    steps, sys := FreeHost([], System(map[], map[]), 1, "r", max);
    steps, sys := FreeHost(steps, sys, 2, "q", max);
    steps, sys := FreeStep(steps, sys, StoreRoom(1, "q"), max);
    steps, after := FreeStep(steps, sys, Disconnect(1), max);
    assert after.rooms == map["r" := RoomState(Some(1), "t", map[])];
  }

  lemma FreeHost(steps: seq<Step>, sys: System, s: SessionId, room: string, max: nat)
    returns (steps': seq<Step>, sys': System)
    requires FreeRun(System(map[], map[]), steps, max) == Some(sys)
    requires s !in sys.sessions && room !in sys.rooms && room != ""
    ensures steps' == steps + [Connect(s), HostFields(s, room, "t"), HostCommit(s)]
    ensures FreeRun(System(map[], map[]), steps', max) == Some(sys')
    ensures sys' == System(sys.rooms[room := RoomState(Some(s), "t", map[])],
                           sys.sessions[s := Session(room, "host", Hosting, false)])
  {
    hide FreeRun;
    steps', sys' := FreeStep(steps, sys, Connect(s), max);
    steps', sys' := FreeStep(steps', sys', HostFields(s, room, "t"), max);
    steps', sys' := FreeStep(steps', sys', HostCommit(s), max);
  }

  lemma FreeStep(steps: seq<Step>, sys: System, step: Step, max: nat) returns (steps': seq<Step>, sys': System)
    requires FreeRun(System(map[], map[]), steps, max) == Some(sys) && Possible(sys, step)
    ensures steps' == steps + [step] && sys' == Next(sys, step, max)
    ensures FreeRun(System(map[], map[]), steps', max) == Some(sys')
  {
    hide Next;
    steps', sys' := steps + [step], Next(sys, step, max);
    FreeRunAppend(System(map[], map[]), steps, step, max);
  }

  lemma {:induction false} FreeRunAppend(sys: System, steps: seq<Step>, step: Step, max: nat)
    requires FreeRun(sys, steps, max).Some? && Possible(FreeRun(sys, steps, max).value, step)
    ensures FreeRun(sys, steps + [step], max) == Some(Next(FreeRun(sys, steps, max).value, step, max))
    decreases |steps|
  {
    hide Next;
    if steps == [] {
      assert [step][1..] == [];
    } else {
      assert (steps + [step])[1..] == steps[1..] + [step];
      FreeRunAppend(Next(sys, steps[0], max), steps[1..], step, max);
    }
  }
}
