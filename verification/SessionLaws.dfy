/**
 What one connection's messages do, in terms of the messages themselves: which of them are acted on,
 what a host's token is and what it is needed for, and what is sent to whom.
 */
module SessionLaws {
  import opened HubLaws
  import opened Outcomes
  import opened WsHubs
  import opened WsSessions

  // ----- reading fields

  /** A field is read as the part of its string before the first NUL character. */
  lemma FieldIsRead(obj: Object, key: string)
    ensures GetString(obj, key) == None <==> key !in obj || !obj[key].Str?
    ensures GetString(obj, key).Some? ==>
              var v, text := GetString(obj, key).value, obj[key].text;
              '\0' !in v && v <= text && (v == text || text[|v|] == '\0')
  {
    if key in obj && obj[key].Str? { CutAtNul(obj[key].text); }
  }

  lemma {:induction false} CutAtNul(s: string)
    ensures var v := UpToNul(s); '\0' !in v && v <= s && (v == s || s[|v|] == '\0')
  {
    if s != "" && s[0] != '\0' { CutAtNul(s[1..]); }
  }

  // ----- the token

  /** One message, and what the hub was like and drew when it was handled */
  datatype Handling = Handling(obj: Object, rooms: Rooms, generated: string, alive: set<SessionId>)

  /** The fields of a session after it has handled these messages */
  function FieldsAfter(hs: seq<Handling>, self: SessionId, max: nat): Identity {
    if hs == [] then Identity("", "", "", false)
    else
      var h := hs[|hs| - 1];
      AfterMessage(FieldsAfter(hs[..|hs| - 1], self, max), h.rooms, h.obj, self, h.generated, h.alive, max).fields
  }

  /** A message that registers a host: its kind, and a room and a token that are not empty */
  predicate IsRegistration(obj: Object) {
    GetString(obj, "type") == Some("host.register")
    && GetStringOr(obj, "room", "") != "" && GetStringOr(obj, "token", "") != ""
  }

  /** The token of the last of these messages that registers a host */
  function LastToken(hs: seq<Handling>): Option<string> {
    if hs == [] then None
    else
      var obj := hs[|hs| - 1].obj;
      if IsRegistration(obj) then GetString(obj, "token") else LastToken(hs[..|hs| - 1])
  }

  /** A session is a host from its first registration on, with the token of its last one. */
  lemma {:induction false} TokenIsRegistered(hs: seq<Handling>, self: SessionId, max: nat)
    ensures var f := FieldsAfter(hs, self, max);
            && (f.isHost <==> LastToken(hs).Some?)
            && (f.isHost ==> Some(f.hostToken) == LastToken(hs))
  {
    hide JoinError, AfterJoin, AfterRegister, UpToNul;
    if hs != [] { TokenIsRegistered(hs[..|hs| - 1], self, max); }
  }

  /** The message carries the token its sender has registered with. */
  predicate CarriesToken(obj: Object, token: Option<string>) {
    token.Some? && "token" in obj && obj["token"] == Str(token.value)
  }

  /**
   A session's message is forwarded exactly when its room and its destination are named, a live
   session is listed under that name, and a session that has registered carries its token; without
   the token it gets UNAUTHORIZED_HOST and nothing else.
   */
  lemma ForwardNeedsToken(hs: seq<Handling>, self: SessionId, max: nat, rooms: Rooms, obj: Object,
                          alive: set<SessionId>)
    ensures var f := WithRoom(FieldsAfter(hs, self, max), obj);
            var to, out := GetStringOr(obj, "to", ""), ForwardReplies(f, rooms, obj, self, alive);
            var allowed := LastToken(hs).None? || CarriesToken(obj, LastToken(hs));
            && (f.room == "" ==> out == [Outgoing(self, Error("BAD_REQUEST"))])
            && (f.room != "" && to == "" ==> out == [])
            && (f.room != "" && to != "" && !allowed ==> out == [Outgoing(self, Error("UNAUTHORIZED_HOST"))])
            && forall t: SessionId, msg: Message | msg.Forwarded? ::
                 Outgoing(t, msg) in out
                 <==> f.room != "" && to != "" && allowed && Target(rooms, f.room, to, alive) == Some(t)
                      && msg == Forwarded(Stamped(f, obj))
  {
    hide FieldsAfter, LastToken, UpToNul;
    TokenIsRegistered(hs, self, max);
  }

  /**
   A session's message ends the session of its room's viewers exactly when it has registered and the
   message carries its token; with another token or none it gets UNAUTHORIZED_HOST and nothing else.
   */
  lemma EndNeedsToken(hs: seq<Handling>, self: SessionId, max: nat, rooms: Rooms, obj: Object, alive: set<SessionId>,
                      ids: seq<string>, out: seq<Outgoing>)
    requires EndReplies(WithRoom(FieldsAfter(hs, self, max), obj), rooms, obj, self, alive, ids, out)
    ensures LastToken(hs).None? ==> out == []
    ensures LastToken(hs).Some? && !CarriesToken(obj, LastToken(hs)) ==>
              out == [Outgoing(self, Error("UNAUTHORIZED_HOST"))]
    ensures var room := WithRoom(FieldsAfter(hs, self, max), obj).room;
            var reason := GetStringOr(obj, "reason", "host_stopped");
            forall t: SessionId :: Outgoing(t, SessionEnded(room, reason)) in out
                        <==> CarriesToken(obj, LastToken(hs)) && room != ""
                             && exists id :: id in LiveIds(rooms, room, alive) && rooms[room].viewers[id] == t
  {
    hide FieldsAfter, LastToken, UpToNul, Enumerates, ToViewers;
    TokenIsRegistered(hs, self, max);
    var f := WithRoom(FieldsAfter(hs, self, max), obj);
    var message := SessionEnded(f.room, GetStringOr(obj, "reason", "host_stopped"));
    if HasToken(f, obj) && f.room != "" && f.room in rooms {
      BroadcastExactly(rooms, f.room, alive, ids, message);
    }
  }

  // ----- which messages do what

  /** Only a registration or a join touches the hub. */
  lemma OtherKindsIgnored(f: Identity, rooms: Rooms, obj: Object, self: SessionId, generated: string,
                          alive: set<SessionId>, max: nat)
    ensures var kind, effect := GetString(obj, "type"), AfterMessage(f, rooms, obj, self, generated, alive, max);
            && (effect.rooms != rooms ==> kind == Some("host.register") || kind == Some("room.join"))
            && (kind != Some("host.register") && kind != Some("room.join") ==>
                  effect.fields == f.(room := if kind.Some? then GetStringOr(obj, "room", f.room) else f.room))
  {}

  /** Only these six kinds of messages are answered. */
  lemma OnlySixKinds(f: Identity, rooms: Rooms, obj: Object, self: SessionId, generated: string, alive: set<SessionId>,
                     max: nat, roomsThen: Rooms, aliveThen: set<SessionId>, ids: seq<string>, out: seq<Outgoing>)
    requires MessageReplies(f, rooms, obj, self, generated, alive, max, roomsThen, aliveThen, ids, out)
    ensures var kind := GetString(obj, "type");
            var forwarded := kind in {Some("webrtc.offer"), Some("webrtc.answer"), Some("webrtc.ice")};
            var other := kind in {Some("host.register"), Some("room.join"), Some("session.end")};
            && (!forwarded && !other ==> out == [])
            && (forwarded ==> out == ForwardReplies(WithRoom(f, obj), rooms, obj, self, alive))
            && (kind == Some("session.end") ==> EndReplies(WithRoom(f, obj), rooms, obj, self, alive, ids, out))
            && (kind == Some("host.register") ==> out == RegisterReplies(rooms, obj, self, alive))
            && (kind == Some("room.join") ==>
                  out == JoinReplies(rooms, obj, self, generated, alive, max, roomsThen, aliveThen))
  {}

  /** A registration sets all four fields, whether or not the hub accepts it. */
  lemma RegistrationFields(f: Identity, rooms: Rooms, obj: Object, self: SessionId, generated: string,
                           alive: set<SessionId>, max: nat)
    requires GetString(obj, "type") == Some("host.register")
    ensures var room, token := GetStringOr(obj, "room", ""), GetStringOr(obj, "token", "");
            AfterMessage(f, rooms, obj, self, generated, alive, max).fields
            == if IsRegistration(obj) then Identity(room, "host", token, true)
               else f.(room := GetStringOr(obj, "room", f.room))
  {}

  /** What the sender of a registration is told */
  lemma RegistrationAnswered(rooms: Rooms, obj: Object, self: SessionId, alive: set<SessionId>)
    ensures var room, token := GetStringOr(obj, "room", ""), GetStringOr(obj, "token", "");
            RegisterReplies(rooms, obj, self, alive)
            == [Outgoing(self, if room == "" || token == "" then Error("BAD_REQUEST")
                               else if HostLives(rooms, room, alive) then Error("HOST_ALREADY_EXISTS")
                               else HostRegistered(room))]
  {
    RegisterExactly(rooms, GetStringOr(obj, "room", ""), alive);
  }

  /** What the sender of a join is told, and then the host the room has by then */
  lemma JoinAnswered(rooms: Rooms, obj: Object, self: SessionId, id: string, alive: set<SessionId>, max: nat,
                     roomsThen: Rooms, aliveThen: set<SessionId>)
    ensures var room := GetStringOr(obj, "room", "");
            JoinReplies(rooms, obj, self, id, alive, max, roomsThen, aliveThen)
            == if room == "" then [Outgoing(self, Error("BAD_REQUEST"))]
               else if !HostLives(rooms, room, alive) then [Outgoing(self, Error("ROOM_NOT_FOUND"))]
               else if |LiveIds(rooms, room, alive)| >= max then [Outgoing(self, Error("ROOM_FULL"))]
               else [Outgoing(self, RoomJoined(room, id))]
                    + (if HostLives(roomsThen, room, aliveThen) then
                         [Outgoing(roomsThen[room].host.value, PeerJoined(room, id))]
                       else [])
  {
    JoinExactly(rooms, GetStringOr(obj, "room", ""), alive, max);
  }

  /** A forwarded message has the sender's true room and id, no token, and everything else as it was. */
  lemma StampKeepsTheRest(f: Identity, obj: Object)
    ensures var m := Stamped(f, obj);
            && "token" !in m && "from" in m && m["from"] == Str(f.peerId) && "room" in m && m["room"] == Str(f.room)
            && forall key | key !in {"token", "from", "room"} ::
                 (key in m <==> key in obj) && (key in obj ==> m[key] == obj[key])
  {}
}
