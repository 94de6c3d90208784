/**
 One connection: the fields its messages set, the hub calls they make, and its write queue. A
 message is a parsed JSON object; what a handler sends is returned in the order it is sent.
 */
module WsSessions {
  import opened Outcomes
  import opened WsHubs
  import opened WriteQueues
  import opened Signalling

  datatype Identity = Identity(room: string, peerId: string, hostToken: string, isHost: bool)

  // ----- reading a message

  /** A string field, up to its first NUL character */
  function GetString(obj: Object, key: string): Option<string> {
    if key in obj && obj[key].Str? then Some(UpToNul(obj[key].text)) else None
  }

  function UpToNul(s: string): string {
    if s == "" || s[0] == '\0' then "" else [s[0]] + UpToNul(s[1..])
  }

  function GetStringOr(obj: Object, key: string, fallback: string): string {
    match GetString(obj, key)
    case Some(v) => v
    case None => fallback
  }

  function HasToken(f: Identity, obj: Object): bool {
    f.isHost && "token" in obj && obj["token"] == Str(f.hostToken)
  }

  /** The sender's room and id replace whatever the message claims, and the token is removed. */
  function Stamped(f: Identity, obj: Object): Object {
    (obj - {"token"})["from" := Str(f.peerId)]["room" := Str(f.room)]
  }

  predicate IsForward(kind: string) {
    kind == "webrtc.offer" || kind == "webrtc.answer" || kind == "webrtc.ice"
  }

  // ----- the specification of a message's effect

  datatype Effect = Effect(fields: Identity, rooms: Rooms)

  function AfterHostRegister(f: Identity, rooms: Rooms, obj: Object, self: SessionId, alive: set<SessionId>): Effect {
    var room, token := GetStringOr(obj, "room", ""), GetStringOr(obj, "token", "");
    if room == "" || token == "" then Effect(f, rooms)
    else Effect(Identity(room, "host", token, true), AfterRegister(rooms, room, token, self, alive))
  }

  function AfterRoomJoin(f: Identity, rooms: Rooms, obj: Object, self: SessionId, generated: string,
                         alive: set<SessionId>, max: nat): Effect {
    var room := GetStringOr(obj, "room", "");
    if room == "" then Effect(f, rooms)
    else
      Effect(f.(room := room, peerId := if JoinError(rooms, room, alive, max).None? then generated else f.peerId),
             AfterJoin(rooms, room, generated, self, alive, max))
  }

  /** Whether the hub accepts the sender as a viewer */
  predicate Joins(rooms: Rooms, obj: Object, alive: set<SessionId>, max: nat) {
    var room := GetStringOr(obj, "room", "");
    GetString(obj, "type") == Some("room.join") && room != "" && JoinError(rooms, room, alive, max).None?
  }

  /**
   Between a viewer's joining and the host's notice the hub is unlocked: others is what the other
   threads make of the rooms meanwhile.
   */
  function Interrupted(effect: Effect, joined: bool, others: Rooms -> Rooms): Effect {
    if joined then effect.(rooms := others(effect.rooms)) else effect
  }

  /** The room of every message is stored before the message is looked at. */
  function WithRoom(f: Identity, obj: Object): Identity {
    f.(room := GetStringOr(obj, "room", f.room))
  }

  function AfterMessage(f: Identity, rooms: Rooms, obj: Object, self: SessionId, generated: string,
                        alive: set<SessionId>, max: nat): Effect {
    match GetString(obj, "type")
    case None => Effect(f, rooms)
    case Some(kind) =>
      if kind == "host.register" then AfterHostRegister(WithRoom(f, obj), rooms, obj, self, alive)
      else if kind == "room.join" then AfterRoomJoin(WithRoom(f, obj), rooms, obj, self, generated, alive, max)
      else Effect(WithRoom(f, obj), rooms)
  }

  function AfterDisconnect(f: Identity, rooms: Rooms, alive: set<SessionId>): Rooms {
    if f.room == "" || f.peerId == "" then rooms else AfterLeave(rooms, f.room, f.peerId, alive)
  }

  function ErrorCode(err: HubError): string {
    match err
    case BadRequest => "BAD_REQUEST"
    case HostAlreadyExists => "HOST_ALREADY_EXISTS"
    case RoomNotFound => "ROOM_NOT_FOUND"
    case RoomFull => "ROOM_FULL"
  }

  // ----- the specification of what it sends

  /** The request's own session gets exactly one answer. */
  function RegisterReplies(rooms: Rooms, obj: Object, self: SessionId, alive: set<SessionId>): seq<Outgoing> {
    var room := GetStringOr(obj, "room", "");
    [Outgoing(self,
       if room == "" || GetStringOr(obj, "token", "") == "" then Error("BAD_REQUEST")
       else match RegisterError(rooms, room, alive)
            case Some(err) => Error(ErrorCode(err))
            case None => HostRegistered(room))]
  }

  /** A viewer that is accepted learns its id, and then the host the room has by then learns of the viewer. */
  function JoinReplies(rooms: Rooms, obj: Object, self: SessionId, generated: string, alive: set<SessionId>, max: nat,
                       roomsThen: Rooms, aliveThen: set<SessionId>): seq<Outgoing> {
    var room := GetStringOr(obj, "room", "");
    if room == "" then [Outgoing(self, Error("BAD_REQUEST"))]
    else match JoinError(rooms, room, alive, max)
         case Some(err) => [Outgoing(self, Error(ErrorCode(err)))]
         case None =>
           [Outgoing(self, RoomJoined(room, generated))]
           + match Target(roomsThen, room, "host", aliveThen)
             case None => []
             case Some(host) => [Outgoing(host, PeerJoined(room, generated))]
  }

  /** ids is the order in which the hub's map lists the viewers. */
  ghost predicate EndReplies(f: Identity, rooms: Rooms, obj: Object, self: SessionId, alive: set<SessionId>,
                             ids: seq<string>, out: seq<Outgoing>) {
    if !f.isHost then out == []
    else if !HasToken(f, obj) then out == [Outgoing(self, Error("UNAUTHORIZED_HOST"))]
    else if f.room == "" then out == [Outgoing(self, Error("BAD_REQUEST"))]
    else if f.room !in rooms then out == [Outgoing(self, SessionEndAck(f.room))]
    else
      Enumerates(ids, LiveViewers(rooms[f.room], alive))
      && out == ToViewers(ids, rooms[f.room].viewers, SessionEnded(f.room, GetStringOr(obj, "reason", "host_stopped")))
                + [Outgoing(self, SessionEndAck(f.room))]
  }

  function ForwardReplies(f: Identity, rooms: Rooms, obj: Object, self: SessionId,
                          alive: set<SessionId>): seq<Outgoing> {
    if f.room == "" then [Outgoing(self, Error("BAD_REQUEST"))]
    else if GetStringOr(obj, "to", "") == "" then []
    else if f.isHost && !HasToken(f, obj) then [Outgoing(self, Error("UNAUTHORIZED_HOST"))]
    else match Target(rooms, f.room, GetStringOr(obj, "to", ""), alive)
         case None => []
         case Some(session) => [Outgoing(session, Forwarded(Stamped(f, obj)))]
  }

  ghost predicate MessageReplies(f: Identity, rooms: Rooms, obj: Object, self: SessionId, generated: string,
                                 alive: set<SessionId>, max: nat, roomsThen: Rooms, aliveThen: set<SessionId>,
                                 ids: seq<string>, out: seq<Outgoing>) {
    match GetString(obj, "type")
    case None => out == []
    case Some(kind) =>
      if kind == "host.register" then out == RegisterReplies(rooms, obj, self, alive)
      else if kind == "room.join" then
        out == JoinReplies(rooms, obj, self, generated, alive, max, roomsThen, aliveThen)
      else if kind == "session.end" then EndReplies(WithRoom(f, obj), rooms, obj, self, alive, ids, out)
      else if IsForward(kind) then out == ForwardReplies(WithRoom(f, obj), rooms, obj, self, alive)
      else out == []
  }

  // ----- the session

  class WsSession {
    const id: SessionId
    const hub: WsHub

    var room: string
    var peerId: string
    var hostToken: string
    var isHost: bool

    var outbox: seq<Message>
    var writing: bool

    // The writes in progress, and what the queue has done
    var pending: seq<Message>
    ghost var executed: seq<Message>
    ghost var completed: seq<Message>
    ghost var lost: seq<Message>

    constructor (id: SessionId, hub: WsHub)
      ensures this.id == id && this.hub == hub && Fields() == Identity("", "", "", false)
      ensures OneWrite(Queue()) && Faithful(Queue()) && outbox == executed == []
    {
      this.id, this.hub := id, hub;
      room, peerId, hostToken, isHost := "", "", "", false;
      outbox, writing, pending := [], false, [];
      executed, completed, lost := [], [], [];
    }

    function Fields(): Identity
      reads this
    {
      Identity(room, peerId, hostToken, isHost)
    }

    ghost function Queue(): Queue
      reads this
    {
      WriteQueues.Queue(outbox, writing, pending, executed, completed, lost)
    }

    // ----- the write queue, on the strand

    /** The handler that Send posts */
    method ExecuteSend(text: Message)
      requires OneWrite(Queue()) && Faithful(Queue())
      modifies this`outbox, this`writing, this`pending, this`executed
      ensures Queue() == WriteQueues.ExecuteSend(old(Queue()), text)
      ensures OneWrite(Queue()) && Faithful(Queue())
    {
      hide Faithful;
      ExecuteKeeps(Queue(), text);
      var idle := outbox == [];
      outbox := outbox + [text];
      executed := executed + [text];
      if idle && !writing {
        writing := true;
        DoWrite();
      }
    }

    method DoWrite()
      requires outbox != []
      modifies this`pending
      ensures Queue() == WriteQueues.DoWrite(old(Queue()))
    {
      pending := pending + [outbox[0]];
    }

    /** The completion handler of the only write in progress */
    method OnWrite(failed: bool)
      requires OneWrite(Queue()) && Faithful(Queue()) && pending != []
      modifies this`outbox, this`writing, this`pending, this`completed, this`lost
      ensures Queue() == if failed then FailWrite(old(Queue()), 0) else CompleteWrite(old(Queue()), 0)
      ensures OneWrite(Queue()) && Faithful(Queue())
    {
      hide Faithful;
      CompleteKeeps(Queue());
      FailKeeps(Queue());
      var written := pending[0];
      pending := pending[1..];
      if failed {
        writing := false;
        lost := lost + outbox;
        outbox := [];
        return;
      }
      completed := completed + [written];
      outbox := outbox[1..];
      if outbox != [] {
        DoWrite();
        return;
      }
      writing := false;
    }

    // ----- messages

    /** A failed read is the disconnect path; anything that is not a JSON object (None) is ignored. */
    method OnRead(failed: bool, text: Option<Object>, generated: string, alive: set<SessionId>,
                  others: Rooms -> Rooms, aliveThen: set<SessionId>)
      returns (out: seq<Outgoing>, ghost ids: seq<string>)
      modifies this`room, this`peerId, this`hostToken, this`isHost, hub
      ensures failed ==> Fields() == old(Fields()) && hub.rooms == AfterDisconnect(old(Fields()), old(hub.rooms), alive)
      ensures failed ==> if old(room) == "" || old(peerId) == "" then out == []
                         else LeaveReplies(old(hub.rooms), old(room), old(peerId), alive, ids, out)
      ensures !failed && text.None? ==> Effect(Fields(), hub.rooms) == Effect(old(Fields()), old(hub.rooms))
      ensures !failed && text.Some? ==>
                var max := hub.maxViewersPerRoom;
                var joined := Joins(old(hub.rooms), text.value, alive, max);
                var effect := AfterMessage(old(Fields()), old(hub.rooms), text.value, id, generated, alive, max);
                && Effect(Fields(), hub.rooms) == Interrupted(effect, joined, others)
                && MessageReplies(old(Fields()), old(hub.rooms), text.value, id, generated, alive, max, hub.rooms,
                                  aliveThen, ids, out)
    {
      out, ids := [], [];
      if failed {
        if room != "" && peerId != "" {
          out, ids := hub.Leave(room, peerId, alive);
        }
        return;
      }
      if text.Some? {
        out, ids := HandleMessage(text.value, generated, alive, others, aliveThen);
      }
    }

    method HandleMessage(obj: Object, generated: string, alive: set<SessionId>, others: Rooms -> Rooms,
                         aliveThen: set<SessionId>)
      returns (out: seq<Outgoing>, ghost ids: seq<string>)
      modifies this`room, this`peerId, this`hostToken, this`isHost, hub
      ensures var max, joined := hub.maxViewersPerRoom, Joins(old(hub.rooms), obj, alive, hub.maxViewersPerRoom);
              var effect := AfterMessage(old(Fields()), old(hub.rooms), obj, id, generated, alive, max);
              && Effect(Fields(), hub.rooms) == Interrupted(effect, joined, others)
              && MessageReplies(old(Fields()), old(hub.rooms), obj, id, generated, alive, max, hub.rooms, aliveThen,
                                ids, out)
    {
      out, ids := [], [];
      var kind := GetString(obj, "type");
      if kind.None? { return; }
      var r := GetString(obj, "room");
      if r.Some? {
        room := r.value;
      }
      if kind.value == "host.register" {
        out := HandleHostRegister(obj, alive);
      } else if kind.value == "room.join" {
        out := HandleRoomJoin(obj, generated, alive, others, aliveThen);
      } else if kind.value == "session.end" {
        out, ids := HandleSessionEnd(obj, alive);
      } else if IsForward(kind.value) {
        out := HandleWebrtcForward(obj, alive);
      }
    }

    method ValidateHostToken(obj: Object) returns (valid: bool)
      ensures valid == HasToken(Fields(), obj)
    {
      if !isHost { return false; }
      if "token" !in obj || !obj["token"].Str? { return false; }
      return obj["token"].text == hostToken;
    }

    /** The fields are set before the hub is asked, and stay set when it refuses. */
    method HandleHostRegister(obj: Object, alive: set<SessionId>) returns (out: seq<Outgoing>)
      modifies this`room, this`peerId, this`hostToken, this`isHost, hub
      ensures Effect(Fields(), hub.rooms) == AfterHostRegister(old(Fields()), old(hub.rooms), obj, id, alive)
      ensures out == RegisterReplies(old(hub.rooms), obj, id, alive)
    {
      var r, token := GetStringOr(obj, "room", ""), GetStringOr(obj, "token", "");
      if r == "" || token == "" {
        return [Outgoing(id, Error("BAD_REQUEST"))];
      }
      isHost := true;
      peerId := "host";
      room := r;
      hostToken := token;
      var err := hub.RegisterHost(room, hostToken, id, alive);
      if err.Some? {
        return [Outgoing(id, Error(ErrorCode(err.value)))];
      }
      return [Outgoing(id, HostRegistered(room))];
    }

    method HandleRoomJoin(obj: Object, generated: string, alive: set<SessionId>, others: Rooms -> Rooms,
                          aliveThen: set<SessionId>)
      returns (out: seq<Outgoing>)
      modifies this`room, this`peerId, hub
      ensures var room, max := GetStringOr(obj, "room", ""), hub.maxViewersPerRoom;
              var joined := room != "" && JoinError(old(hub.rooms), room, alive, max).None?;
              var effect := AfterRoomJoin(old(Fields()), old(hub.rooms), obj, id, generated, alive, max);
              && Effect(Fields(), hub.rooms) == Interrupted(effect, joined, others)
              && out == JoinReplies(old(hub.rooms), obj, id, generated, alive, max, hub.rooms, aliveThen)
    {
      var r := GetStringOr(obj, "room", "");
      if r == "" {
        return [Outgoing(id, Error("BAD_REQUEST"))];
      }
      room := r;
      var viewer, err := hub.JoinViewer(room, id, generated, alive);
      if err.Some? {
        return [Outgoing(id, Error(ErrorCode(err.value)))];
      }
      peerId := viewer;
      hub.rooms := others(hub.rooms);
      var notified := hub.ForwardTo(room, "host", PeerJoined(room, peerId), aliveThen);
      out := [Outgoing(id, RoomJoined(room, peerId))] + notified;
    }

    /** Only the registered host, with its token, ends the session of its viewers. */
    method HandleSessionEnd(obj: Object, alive: set<SessionId>) returns (out: seq<Outgoing>, ghost ids: seq<string>)
      ensures EndReplies(Fields(), hub.rooms, obj, id, alive, ids, out)
      ensures !HasToken(Fields(), obj) ==> out == if isHost then [Outgoing(id, Error("UNAUTHORIZED_HOST"))] else []
    {
      ids := [];
      if !isHost { return [], []; }
      var valid := ValidateHostToken(obj);
      if !valid {
        return [Outgoing(id, Error("UNAUTHORIZED_HOST"))], [];
      }
      var reason := GetStringOr(obj, "reason", "host_stopped");
      if room == "" {
        return [Outgoing(id, Error("BAD_REQUEST"))], [];
      }
      var ended;
      ended, ids := hub.BroadcastViewers(room, SessionEnded(room, reason), alive);
      out := ended + [Outgoing(id, SessionEndAck(room))];
    }

    method HandleWebrtcForward(obj: Object, alive: set<SessionId>) returns (out: seq<Outgoing>)
      ensures out == ForwardReplies(Fields(), hub.rooms, obj, id, alive)
    {
      if room == "" {
        return [Outgoing(id, Error("BAD_REQUEST"))];
      }
      var to := GetStringOr(obj, "to", "");
      if to == "" { return []; }
      if isHost {
        var valid := ValidateHostToken(obj);
        if !valid {
          return [Outgoing(id, Error("UNAUTHORIZED_HOST"))];
        }
      }
      var msg := obj - {"token"};
      msg := msg["from" := Str(peerId)];
      msg := msg["room" := Str(room)];
      out := hub.ForwardTo(room, to, Forwarded(msg), alive);
    }
  }

  // ----- the handlers and the interleaved steps

  /** The interleavable steps one message consists of */
  function StepsOf(f: Identity, rooms: Rooms, obj: Object, s: SessionId, generated: string, alive: set<SessionId>,
                   max: nat): seq<Step> {
    match GetString(obj, "type")
    case None => []
    case Some(kind) =>
      var room, token := GetStringOr(obj, "room", ""), GetStringOr(obj, "token", "");
      [StoreRoom(s, WithRoom(f, obj).room)]
      + (if kind == "host.register" && room != "" && token != "" then [HostFields(s, room, token), HostCommit(s)]
         else if kind == "room.join" && room != "" then
           [JoinCommit(s, room, generated)] + (if JoinError(rooms, room, alive, max).None? then [JoinFields(s)] else [])
         else [])
  }

  /** What a well-behaved connection may send: anything while idle, later no registration and no other room */
  predicate MaySend(session: Session, f: Identity, obj: Object) {
    session.phase.Idle?
    || (WithRoom(f, obj).room == f.room
        && var kind := GetString(obj, "type"); kind != Some("host.register") && kind != Some("room.join"))
  }

  predicate Shows(session: Session, f: Identity) {
    session.room == f.room && session.peerId == f.peerId
  }

  /** The steps keep to what a well-behaved connection does. */
  predicate AllEnabled(sys: System, steps: seq<Step>, max: nat)
    decreases |steps|
  {
    steps == [] || (Enabled(sys, steps[0]) && AllEnabled(Next(sys, steps[0], max), steps[1..], max))
  }

  /** The run of steps reaches the state with these rooms and these fields of session s. */
  predicate Reaches(sys: System, steps: seq<Step>, s: SessionId, effect: Effect, max: nat) {
    var after := FreeRun(sys, steps, max);
    after.Some? && after.value.rooms == effect.rooms
    && s in after.value.sessions && Shows(after.value.sessions[s], effect.fields)
  }

  /**
   Handling a message, of whatever connection, is a run of possible steps, and of enabled ones where
   the connection is well-behaved: what holds of all runs holds of the handlers.
   */
  lemma MessageTakesSteps(sys: System, f: Identity, obj: Object, s: SessionId, generated: string, max: nat)
    requires s in sys.sessions && Shows(sys.sessions[s], f) && IsViewerId(generated)
    requires AtRest(sys.sessions[s]) || MaySend(sys.sessions[s], f, obj)
    ensures MaySend(sys.sessions[s], f, obj) ==>
              AllEnabled(sys, StepsOf(f, sys.rooms, obj, s, generated, sys.Alive(), max), max)
    ensures Reaches(sys, StepsOf(f, sys.rooms, obj, s, generated, sys.Alive(), max), s,
                    AfterMessage(f, sys.rooms, obj, s, generated, sys.Alive(), max), max)
  {
    hide JoinError, AfterJoin, RegisterError, AfterRegister, UpToNul;
    var kind := GetString(obj, "type");
    if kind.Some? {
      var f' := WithRoom(f, obj);
      var steps := StepsOf(f, sys.rooms, obj, s, generated, sys.Alive(), max);
      assert steps == [StoreRoom(s, f'.room)] + steps[1..];
      var sys' := Next(sys, steps[0], max);
      var room, token := GetStringOr(obj, "room", ""), GetStringOr(obj, "token", "");
      if kind.value == "host.register" && room != "" && token != "" {
        RegisterTakesSteps(sys', s, room, token, max);
        assert steps[1..] == [HostFields(s, room, token), HostCommit(s)];
        assert sys'.Alive() == sys.Alive();
      } else if kind.value == "room.join" && room != "" {
        JoinTakesSteps(sys', f', s, room, generated, max);
        assert sys'.Alive() == sys.Alive();
        assert steps[1..] == [JoinCommit(s, room, generated)]
                             + (if JoinError(sys.rooms, room, sys.Alive(), max).None? then [JoinFields(s)] else []);
      } else {
        assert steps == [StoreRoom(s, f'.room)];
        OneStep(sys, StoreRoom(s, f'.room), max);
      }
    }
  }

  lemma RegisterTakesSteps(sys: System, s: SessionId, room: string, token: string, max: nat)
    requires s in sys.sessions && AtRest(sys.sessions[s]) && room != "" && token != ""
    ensures sys.sessions[s].phase.Idle? ==> AllEnabled(sys, [HostFields(s, room, token), HostCommit(s)], max)
    ensures Reaches(sys, [HostFields(s, room, token), HostCommit(s)], s,
                    Effect(Identity(room, "host", token, true),
                           AfterRegister(sys.rooms, room, token, s, sys.Alive())), max)
  {
    var mid := Next(sys, HostFields(s, room, token), max);
    assert mid.Alive() == sys.Alive();
    OneStep(mid, HostCommit(s), max);
  }

  lemma OneStep(sys: System, step: Step, max: nat)
    requires Possible(sys, step)
    ensures FreeRun(sys, [step], max) == Some(Next(sys, step, max))
    ensures Enabled(sys, step) ==> AllEnabled(sys, [step], max)
  {}

  lemma JoinTakesSteps(sys: System, f: Identity, s: SessionId, room: string, id: string, max: nat)
    requires s in sys.sessions && AtRest(sys.sessions[s]) && Shows(sys.sessions[s], f) && room != "" && IsViewerId(id)
    ensures var accepted := JoinError(sys.rooms, room, sys.Alive(), max).None?;
            var steps := [JoinCommit(s, room, id)] + (if accepted then [JoinFields(s)] else []);
            && (sys.sessions[s].phase.Idle? ==> AllEnabled(sys, steps, max))
            && Reaches(sys, steps, s,
                       Effect(f.(room := room, peerId := if accepted then id else f.peerId),
                              AfterJoin(sys.rooms, room, id, s, sys.Alive(), max)), max)
  {
    hide JoinError, AfterJoin;
    var mid := Next(sys, JoinCommit(s, room, id), max);
    if JoinError(sys.rooms, room, sys.Alive(), max).None? {
      assert [JoinCommit(s, room, id)] + [JoinFields(s)] == [JoinCommit(s, room, id), JoinFields(s)];
      OneStep(mid, JoinFields(s), max);
    } else {
      assert [JoinCommit(s, room, id)] + [] == [JoinCommit(s, room, id)];
      OneStep(sys, JoinCommit(s, room, id), max);
    }
  }

  /** A failed read is the disconnect step. */
  lemma DisconnectTakesStep(sys: System, f: Identity, s: SessionId, max: nat)
    requires Possible(sys, Disconnect(s)) && Shows(sys.sessions[s], f)
    ensures Next(sys, Disconnect(s), max).rooms == AfterDisconnect(f, sys.rooms, sys.Alive())
  {}

  /**
   In every reachable state, a forwarded message reaches a session of the sender's own room that
   goes by the id it was addressed to; it names its sender truly, so an answer to that name comes
   back, and it carries no token.
   */
  lemma ForwardReachesPeer(steps: seq<Step>, max: nat, f: Identity, obj: Object, s: SessionId, t: SessionId,
                           msg: Message)
    requires Run(steps, max).Some?
    requires var sys := Run(steps, max).value;
             s in sys.sessions && Shows(sys.sessions[s], f) && Listed(sys, s) && !sys.sessions[s].ended
             && (sys.sessions[s].phase.Hosting? || sys.sessions[s].phase.Viewing?)
             && Outgoing(t, msg) in ForwardReplies(f, sys.rooms, obj, s, sys.Alive()) && msg.Forwarded?
    ensures var sys, to := Run(steps, max).value, GetStringOr(obj, "to", "");
            && t in sys.sessions && sys.sessions[t].room == f.room
            && (sys.sessions[t].peerId == to || sys.sessions[t].phase == Joining(to))
            && "token" !in msg.fields && "from" in msg.fields && msg.fields["from"] == Str(f.peerId)
            && Target(sys.rooms, f.room, f.peerId, sys.Alive()) == Some(s)
  {
    ReachableStates(steps, max);
    var sys, to := Run(steps, max).value, GetStringOr(obj, "to", "");
    assert HostAgrees(sys, f.room);
    if to != "host" { assert ViewerAgrees(sys, f.room, to); }
    assert WellPhased(sys.sessions[s]);
    HostIsNoViewerId();
  }
}
