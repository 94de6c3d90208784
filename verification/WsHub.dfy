/**
 The signalling hub: rooms with a host and viewers held by weak references, and the critical
 sections that update them. A weak reference is a session number; it is expired once that session
 is no longer in the set of live sessions.
 */
module WsHubs {
  import opened Outcomes

  type SessionId = nat

  datatype RoomState = RoomState(host: Option<SessionId>, hostToken: string, viewers: map<string, SessionId>)

  type Rooms = map<string, RoomState>

  datatype HubError = BadRequest | HostAlreadyExists | RoomNotFound | RoomFull

  /** A JSON value: a string, or anything else by its text */
  datatype Value = Str(text: string) | Other(raw: string)

  type Object = map<string, Value>

  datatype Message =
    | Error(code: string)
    | HostRegistered(room: string)
    | RoomJoined(room: string, peerId: string)
    | PeerJoined(room: string, peerId: string)
    | PeerLeft(room: string, peerId: string)
    | SessionEnded(room: string, reason: string)
    | SessionEndAck(room: string)
    | Forwarded(fields: Object)

  /** A message handed to a session's Send */
  datatype Outgoing = Outgoing(to: SessionId, message: Message)

  datatype HubStats = HubStats(rooms: nat, viewers: nat)

  // ----- the specification

  predicate HostExpired(rs: RoomState, alive: set<SessionId>) {
    rs.host.None? || rs.host.value !in alive
  }

  function LiveViewers(rs: RoomState, alive: set<SessionId>): map<string, SessionId> {
    map id | id in rs.viewers && rs.viewers[id] in alive :: rs.viewers[id]
  }

  function Pruned(rs: RoomState, alive: set<SessionId>): RoomState {
    rs.(viewers := LiveViewers(rs, alive))
  }

  function RoomOrNew(rooms: Rooms, room: string): RoomState {
    if room in rooms then rooms[room] else RoomState(None, "", map[])
  }

  function RegisterError(rooms: Rooms, room: string, alive: set<SessionId>): Option<HubError> {
    if room == "" then Some(BadRequest)
    else if !HostExpired(RoomOrNew(rooms, room), alive) then Some(HostAlreadyExists)
    else None
  }

  function AfterRegister(rooms: Rooms, room: string, token: string, session: SessionId, alive: set<SessionId>): Rooms {
    if RegisterError(rooms, room, alive).Some? then rooms
    else
      rooms[room := Pruned(RoomOrNew(rooms, room), alive).(host := Some(session), hostToken := token)]
  }

  function JoinError(rooms: Rooms, room: string, alive: set<SessionId>, max: nat): Option<HubError> {
    if room == "" then Some(BadRequest)
    else if room !in rooms || HostExpired(rooms[room], alive) then Some(RoomNotFound)
    else if |LiveViewers(rooms[room], alive)| >= max then Some(RoomFull)
    else None
  }

  /** A full room is pruned as well. */
  function AfterJoin(rooms: Rooms, room: string, id: string, session: SessionId, alive: set<SessionId>,
                     max: nat): Rooms {
    match JoinError(rooms, room, alive, max)
    case Some(RoomFull) => rooms[room := Pruned(rooms[room], alive)]
    case Some(_) => rooms
    case None =>
      var rs := Pruned(rooms[room], alive);
      rooms[room := rs.(viewers := rs.viewers[id := session])]
  }

  function AfterLeave(rooms: Rooms, room: string, peerId: string, alive: set<SessionId>): Rooms {
    if room !in rooms then rooms
    else
      var rs := rooms[room];
      var rs' :=
        if peerId == "host" then rs.(host := None, viewers := map[]) else rs.(viewers := rs.viewers - {peerId});
      if HostExpired(rs', alive) && rs'.viewers == map[] then rooms - {room} else rooms[room := rs']
  }

  /** The session a message for peer id is handed to */
  function Target(rooms: Rooms, room: string, id: string, alive: set<SessionId>): Option<SessionId> {
    if room !in rooms then None
    else if id == "host" then (if HostExpired(rooms[room], alive) then None else rooms[room].host)
    else if id in LiveViewers(rooms[room], alive) then Some(rooms[room].viewers[id])
    else None
  }

  function LiveRooms(rooms: Rooms, alive: set<SessionId>): set<string> {
    set room | room in rooms && !HostExpired(rooms[room], alive)
  }

  /** The (room, peer id) pairs of the live viewers in some rooms */
  function PairsIn(rooms: Rooms, alive: set<SessionId>, names: set<string>): set<(string, string)> {
    set room, id | room in names && room in rooms && id in LiveViewers(rooms[room], alive) :: (room, id)
  }

  /** Only viewers whose host is live are counted. */
  function LivePairs(rooms: Rooms, alive: set<SessionId>): set<(string, string)> {
    PairsIn(rooms, alive, LiveRooms(rooms, alive))
  }

  /** A list that names every entry of a viewer map exactly once, in some order */
  ghost predicate Enumerates(ids: seq<string>, viewers: map<string, SessionId>) {
    && (forall id :: id in ids <==> id in viewers)
    && (forall i, j | 0 <= i < j < |ids| :: ids[i] != ids[j])
  }

  function ToViewers(ids: seq<string>, viewers: map<string, SessionId>, message: Message): (out: seq<Outgoing>)
    requires forall id | id in ids :: id in viewers
    ensures |out| == |ids|
  {
    seq(|ids|, i requires 0 <= i < |ids| => Outgoing(viewers[ids[i]], message))
  }

  /** A leaving host ends the session of its viewers, listed as ids; a leaving viewer is reported to the host. */
  ghost predicate LeaveReplies(rooms: Rooms, room: string, peerId: string, alive: set<SessionId>,
                               ids: seq<string>, out: seq<Outgoing>) {
    if room !in rooms then out == []
    else if peerId == "host" then
      Enumerates(ids, LiveViewers(rooms[room], alive))
      && out == ToViewers(ids, rooms[room].viewers, SessionEnded(room, "host_disconnected"))
    else
      out == if HostExpired(rooms[room], alive) then [] else [Outgoing(rooms[room].host.value, PeerLeft(room, peerId))]
  }

  // ----- the hub

  class WsHub {
    var rooms: Rooms
    const maxViewersPerRoom: nat

    constructor (maxViewersPerRoom: nat)
      ensures rooms == map[] && this.maxViewersPerRoom == maxViewersPerRoom
    {
      this.maxViewersPerRoom := maxViewersPerRoom;
      rooms := map[];
    }

    /** Erases the expired entries while iterating, and counts the others. */
    static method PruneExpiredViewers(rs: RoomState, alive: set<SessionId>) returns (pruned: RoomState, active: nat)
      ensures pruned == Pruned(rs, alive) && active == |LiveViewers(rs, alive)|
    {
      pruned, active := rs, 0;
      var left := rs.viewers.Keys;
      ghost var kept: set<string> := {};
      while left != {}
        invariant left <= rs.viewers.Keys && kept !! left && active == |kept|
        invariant kept == set id | id in rs.viewers && id !in left && rs.viewers[id] in alive
        invariant pruned.host == rs.host && pruned.hostToken == rs.hostToken
        invariant pruned.viewers
                  == map id | id in rs.viewers && (id in left || rs.viewers[id] in alive) :: rs.viewers[id]
        decreases |left|
      {
        var id :| id in left;
        left := left - {id};
        if rs.viewers[id] !in alive {
          pruned := pruned.(viewers := pruned.viewers - {id});
        } else {
          active := active + 1;
          kept := kept + {id};
        }
      }
      assert kept == LiveViewers(rs, alive).Keys;
    }

    method RegisterHost(room: string, token: string, session: SessionId, alive: set<SessionId>)
      returns (err: Option<HubError>)
      modifies this
      ensures err == RegisterError(old(rooms), room, alive)
      ensures rooms == AfterRegister(old(rooms), room, token, session, alive)
    {
      if room == "" { return Some(BadRequest); }
      var rs := RoomOrNew(rooms, room);
      if !HostExpired(rs, alive) { return Some(HostAlreadyExists); }
      rs := rs.(host := Some(session));
      rs := rs.(hostToken := token);
      var pruned, active := PruneExpiredViewers(rs, alive);
      rooms := rooms[room := pruned];
      return None;
    }

    /** The identifier GenViewerId draws is a parameter. */
    method JoinViewer(room: string, session: SessionId, generated: string, alive: set<SessionId>)
      returns (peerId: string, err: Option<HubError>)
      modifies this
      ensures err == JoinError(old(rooms), room, alive, maxViewersPerRoom)
      ensures peerId == if err.None? then generated else ""
      ensures rooms == AfterJoin(old(rooms), room, generated, session, alive, maxViewersPerRoom)
    {
      if room == "" { return "", Some(BadRequest); }
      if room !in rooms || HostExpired(rooms[room], alive) { return "", Some(RoomNotFound); }
      var rs, active := PruneExpiredViewers(rooms[room], alive);
      rooms := rooms[room := rs];
      if active >= maxViewersPerRoom { return "", Some(RoomFull); }
      rooms := rooms[room := rs.(viewers := rs.viewers[generated := session])];
      return generated, None;
    }

    /** The live viewers of a room, in the map's own order */
    static method CollectViewers(rs: RoomState, alive: set<SessionId>) returns (ids: seq<string>)
      ensures Enumerates(ids, LiveViewers(rs, alive))
    {
      ids := [];
      var left := rs.viewers.Keys;
      while left != {}
        invariant left <= rs.viewers.Keys
        invariant forall id :: id in ids <==> id in LiveViewers(rs, alive) && id !in left
        invariant forall i, j | 0 <= i < j < |ids| :: ids[i] != ids[j]
        decreases |left|
      {
        var id :| id in left;
        left := left - {id};
        if rs.viewers[id] in alive {
          ids := ids + [id];
        }
      }
    }

    method Leave(room: string, peerId: string, alive: set<SessionId>)
      returns (out: seq<Outgoing>, ghost ids: seq<string>)
      modifies this
      ensures rooms == AfterLeave(old(rooms), room, peerId, alive)
      ensures LeaveReplies(old(rooms), room, peerId, alive, ids, out)
    {
      ids := [];
      if room !in rooms { return [], []; }
      var rs := rooms[room];
      var host := if HostExpired(rs, alive) then None else rs.host;
      var viewers: seq<string> := [];
      var entries := rs.viewers;
      if peerId == "host" {
        viewers := CollectViewers(rs, alive);
        ids := viewers;
        rs := rs.(host := None);
        rs := rs.(viewers := map[]);
      } else {
        rs := rs.(viewers := rs.viewers - {peerId});
      }
      rooms := if HostExpired(rs, alive) && rs.viewers == map[] then rooms - {room} else rooms[room := rs];
      if peerId == "host" {
        out := ToViewers(viewers, entries, SessionEnded(room, "host_disconnected"));
      } else {
        out := if host.Some? then [Outgoing(host.value, PeerLeft(room, peerId))] else [];
      }
    }

    method ForwardTo(room: string, toPeerId: string, message: Message, alive: set<SessionId>)
      returns (out: seq<Outgoing>)
      ensures out == match Target(rooms, room, toPeerId, alive)
                     case None => []
                     case Some(session) => [Outgoing(session, message)]
    {
      var dst: Option<SessionId> := None;
      if room !in rooms { return []; }
      if toPeerId == "host" {
        dst := if HostExpired(rooms[room], alive) then None else rooms[room].host;
      } else if toPeerId in rooms[room].viewers {
        var viewer := rooms[room].viewers[toPeerId];
        dst := if viewer in alive then Some(viewer) else None;
      }
      out := if dst.Some? then [Outgoing(dst.value, message)] else [];
    }

    method BroadcastViewers(room: string, message: Message, alive: set<SessionId>)
      returns (out: seq<Outgoing>, ghost ids: seq<string>)
      ensures room !in rooms ==> out == []
      ensures room in rooms ==>
                Enumerates(ids, LiveViewers(rooms[room], alive)) && out == ToViewers(ids, rooms[room].viewers, message)
    {
      ids := [];
      if room !in rooms { return [], []; }
      var viewers := CollectViewers(rooms[room], alive);
      ids := viewers;
      out := ToViewers(viewers, rooms[room].viewers, message);
    }

    method GetStats(alive: set<SessionId>) returns (st: HubStats)
      ensures st == HubStats(|LiveRooms(rooms, alive)|, |LivePairs(rooms, alive)|)
    {
      hide LiveViewers, Enumerates, HostExpired, PairsIn;
      NoPairs(rooms, alive);
      st := HubStats(0, 0);
      var left := rooms.Keys;
      ghost var done: set<string> := {};
      while left != {}
        invariant left <= rooms.Keys
        invariant forall room :: room in done <==> room in LiveRooms(rooms, alive) && room !in left
        invariant st == HubStats(|done|, |PairsIn(rooms, alive, done)|)
        decreases |left|
      {
        var room :| room in left;
        left := left - {room};
        if !HostExpired(rooms[room], alive) {
          var ids := CollectViewers(rooms[room], alive);
          st := HubStats(st.rooms + 1, st.viewers + |ids|);
          PairsGrow(rooms, alive, done, room, ids);
          done := done + {room};
        }
      }
      assert done == LiveRooms(rooms, alive);
    }
  }

  lemma PairsGrow(rooms: Rooms, alive: set<SessionId>, names: set<string>, room: string, ids: seq<string>)
    requires room in rooms && room !in names && Enumerates(ids, LiveViewers(rooms[room], alive))
    ensures |PairsIn(rooms, alive, names + {room})| == |PairsIn(rooms, alive, names)| + |ids|
  {
    hide LiveViewers, Enumerates;
    var viewers := LiveViewers(rooms[room], alive);
    var before, here := PairsIn(rooms, alive, names), set id | id in viewers :: (room, id);
    PairsCount(room, ids, viewers);
    PairsAdded(rooms, alive, names, room);
    assert before !! here;
  }

  lemma NoPairs(rooms: Rooms, alive: set<SessionId>)
    ensures PairsIn(rooms, alive, {}) == {}
  {}

  lemma PairsAdded(rooms: Rooms, alive: set<SessionId>, names: set<string>, room: string)
    requires room in rooms
    ensures PairsIn(rooms, alive, names + {room})
            == PairsIn(rooms, alive, names) + set id | id in LiveViewers(rooms[room], alive) :: (room, id)
  {
    hide LiveViewers;
    var here := set id | id in LiveViewers(rooms[room], alive) :: (room, id);
    forall p: (string, string)
      ensures p in PairsIn(rooms, alive, names + {room}) <==> p in PairsIn(rooms, alive, names) + here
    {}
  }

  lemma PairsCount(room: string, ids: seq<string>, viewers: map<string, SessionId>)
    requires Enumerates(ids, viewers)
    ensures |set id | id in viewers :: (room, id)| == |ids|
  {
    EnumerationSize(ids, viewers.Keys);
    PairSize(room, viewers.Keys);
    assert (set id | id in viewers :: (room, id)) == set id | id in viewers.Keys :: (room, id);
  }

  lemma {:induction false} EnumerationSize(ids: seq<string>, keys: set<string>)
    requires forall id :: id in ids <==> id in keys
    requires forall i, j | 0 <= i < j < |ids| :: ids[i] != ids[j]
    ensures |keys| == |ids|
  {
    var n := |ids| - 1;
    if n < 0 {
      if id :| id in keys { assert id in ids; }
    } else {
      var last := ids[n];
      assert forall id :: id in ids[..n] <==> id in ids && id != last;
      EnumerationSize(ids[..n], keys - {last});
      assert last in ids;
    }
  }

  lemma {:induction false} PairSize(room: string, keys: set<string>)
    ensures |set id | id in keys :: (room, id)| == |keys|
  {
    var pairs := set id | id in keys :: (room, id);
    if id :| id in keys {
      PairSize(room, keys - {id});
      var rest := set x | x in keys - {id} :: (room, x);
      assert pairs == rest + {(room, id)};
    } else {
      assert pairs == {};
    }
  }
}
