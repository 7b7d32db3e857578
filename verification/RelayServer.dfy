/** Rooms that close when idle and reopen on demand (sync-relay/src/server.ts). */
module RelayServer {
  // A room is empty when no connection has said HELLO, so a clean-up may close a room to which a
  // silent socket is still attached. Such a socket keeps talking to the closed room, whose
  // storage answers nothing, even after another connection has opened the room anew.

  import opened Wrappers
  import opened RelayLog
  import opened RelayStorage
  import opened RelayRoom

  /** `attached`: the open sockets whose messages this room object handles. */
  datatype RoomMeta<D> = RoomMeta(room: Room<D>, attached: set<Socket>, lastActivity: int)

  datatype Server<D> = Server(rooms: map<string, RoomMeta<D>>, files: map<string, File<D>>, idleTimeout: int)

  function FileOf<D>(s: Server<D>, user: string): File<D> {
    if user in s.files then s.files[user] else File(Disk([], 0), map[])
  }

  /** The file of an open room is written through; closed or open, its log opens in sync. */
  ghost predicate ValidUser<D>(s: Server<D>, u: string) {
    && Synced(Open(FileOf(s, u).disk))
    && (u in s.rooms ==>
          && s.rooms[u].room.log == Open(FileOf(s, u).disk)
          && s.rooms[u].room.revoked == FileOf(s, u).revoked
          && s.rooms[u].room.connections.Keys <= s.rooms[u].attached)
  }

  ghost predicate Valid<D(!new)>(s: Server<D>) {
    forall u :: ValidUser(s, u)
  }

  // ---------------------------------------------------------------- actions

  datatype Action<D> =
    | Connect(user: string, ws: Socket)
    | Deliver(user: string, ws: Socket, msg: Incoming<D>)
    | Disconnect(user: string, ws: Socket)
    | CleanUp

  function Opened<D>(s: Server<D>, user: string, now: int): RoomMeta<D> {
    if user in s.rooms then s.rooms[user]
    else RoomMeta(Room(Open(FileOf(s, user).disk), FileOf(s, user).revoked, map[], {}), {}, now)
  }

  predicate Idle<D>(s: Server<D>, user: string, now: int)
    requires user in s.rooms
  {
    s.rooms[user].room.connections == map[] && now - s.rooms[user].lastActivity > s.idleTimeout
  }

  function Touched<D>(s: Server<D>, user: string, now: int): Server<D> {
    if user in s.rooms then s.(rooms := s.rooms[user := s.rooms[user].(lastActivity := now)]) else s
  }

  predicate Serves<D>(s: Server<D>, user: string, ws: Socket) {
    user in s.rooms && ws in s.rooms[user].attached
  }

  /** A socket whose room object has been closed: every handler fails on the closed database,
      and only DEVICE_REVOKE answers failure. */
  function OrphanAnswer<D(==)>(ws: Socket, msg: Incoming<D>): set<Packet<D>> {
    if msg.DeviceRevoke? || msg.MalformedRevoke? then {Packet(ws, RevokeFailed)} else {}
  }

  function Act<D(==)>(s: Server<D>, now: int, action: Action<D>): (Server<D>, set<Packet<D>>) {
    match action
    case Connect(user, ws) =>
      var meta := Opened(s, user, now);
      var file := FileOf(s, user);
      (s.(rooms := s.rooms[user := meta.(attached := meta.attached + {ws}, lastActivity := now)],
          files := s.files[user := file]), {})
    case Deliver(user, ws, msg) =>
      if Serves(s, user, ws) then
        var meta := s.rooms[user];
        var reply := Handle(meta.room, ws, msg);
        (s.(rooms := s.rooms[user := meta.(room := reply.room, lastActivity := now)],
            files := s.files[user := File(reply.room.log.disk, reply.room.revoked)]), reply.sent)
      else (Touched(s, user, now), OrphanAnswer(ws, msg))
    case Disconnect(user, ws) =>
      if Serves(s, user, ws) then
        var meta := s.rooms[user];
        (s.(rooms := s.rooms[user := RoomMeta(HandleClose(meta.room, ws), meta.attached - {ws}, now)]), {})
      else (Touched(s, user, now), {})
    case CleanUp =>
      (CleanedUp(s, now), {})
  }

  function CleanedUp<D>(s: Server<D>, now: int): Server<D> {
    s.(rooms := map u | u in s.rooms && !Idle(s, u, now) :: s.rooms[u])
  }

  datatype Timed<D> = Timed(now: int, action: Action<D>)

  function Answers<D(==)>(s: Server<D>, actions: seq<Timed<D>>): seq<set<Packet<D>>>
    decreases |actions|
  {
    if actions == [] then []
    else
      var (next, sent) := Act(s, actions[0].now, actions[0].action);
      [sent] + Answers(next, actions[1..])
  }

  // ---------------------------------------------------------------- the object

  class SyncRelayServer<D(==)> {
    var rooms: map<string, RoomMeta<D>>
    var files: map<string, File<D>>
    const idleTimeout: int

    ghost function State(): Server<D> reads this {
      Server(rooms, files, idleTimeout)
    }

    constructor (idleTimeout: int := 300000)
      ensures State() == Server(map[], map[], idleTimeout)
    {
      this.idleTimeout := idleTimeout;
      rooms, files := map[], map[];
    }

    /** A connection goes to the user's open room, or opens one on the user's file. */
    method HandleConnection(userId: string, ws: Socket, now: int)
      modifies this`rooms, this`files
      ensures State() == Act(old(State()), now, Connect(userId, ws)).0
    {
      if userId !in files {
        files := files[userId := File(Disk([], 0), map[])];
      }
      if userId !in rooms {
        var file := files[userId];
        rooms := rooms[userId := RoomMeta(Room(Open(file.disk), file.revoked, map[], {}), {}, now)];
      }
      var meta := rooms[userId];
      rooms := rooms[userId := meta.(attached := meta.attached + {ws}, lastActivity := now)];
    }

    method CleanupIdleRooms(now: int)
      modifies this`rooms
      ensures State() == CleanedUp(old(State()), now)
    {
      var todo := rooms.Keys;
      while todo != {}
        invariant todo <= rooms.Keys <= old(rooms).Keys
        invariant forall u :: u in old(rooms) ==>
                    (u in rooms <==> u in todo || !Idle(old(State()), u, now))
        invariant forall u :: u in rooms ==> rooms[u] == old(rooms)[u]
        decreases todo
      {
        var userId :| userId in todo;
        var meta := rooms[userId];
        if |meta.room.connections| == 0 && now - meta.lastActivity > idleTimeout {
          rooms := rooms - {userId};
        }
        todo := todo - {userId};
      }
    }
  }

  // ---------------------------------------------------------------- what an action does

  /** A connection is served by its user's room from then on: the open one as it is, or one opened
      on the user's file, with nobody registered. */
  lemma ConnectedIsServed<D>(s: Server<D>, now: int, user: string, ws: Socket)
    ensures var t := Act(s, now, Connect(user, ws)).0;
            && Serves(t, user, ws) && t.rooms[user].lastActivity == now
            && (user in s.rooms ==>
                  && t.rooms[user].room == s.rooms[user].room
                  && t.rooms[user].attached == s.rooms[user].attached + {ws})
            && (user !in s.rooms ==>
                  && t.rooms[user].room.log == Open(FileOf(s, user).disk)
                  && t.rooms[user].room.revoked == FileOf(s, user).revoked
                  && t.rooms[user].room.connections == map[]
                  && t.rooms[user].attached == {ws})
  {
  }

  /** A message on a served socket is handled by the room, answered with what the room sends, and
      written through to the file. */
  lemma ServedIsHandled<D(!new)>(s: Server<D>, now: int, user: string, ws: Socket, msg: Incoming<D>)
    requires Serves(s, user, ws)
    ensures var (t, sent) := Act(s, now, Deliver(user, ws, msg));
            var reply := Handle(s.rooms[user].room, ws, msg);
            && sent == reply.sent && Serves(t, user, ws)
            && t.rooms[user].room == reply.room
            && t.files[user] == File(reply.room.log.disk, reply.room.revoked)
            && t.rooms[user].attached == s.rooms[user].attached
  {
  }

  /** On any other socket it is lost: no room and no file changes, and only a revocation is
      answered, with a failure. */
  lemma UnservedIsLost<D(!new)>(s: Server<D>, now: int, user: string, ws: Socket, msg: Incoming<D>, p: Packet<D>)
    requires !Serves(s, user, ws)
    ensures var (t, sent) := Act(s, now, Deliver(user, ws, msg));
            && (p in sent <==> p == Packet(ws, RevokeFailed) && (msg.DeviceRevoke? || msg.MalformedRevoke?))
            && t.files == s.files && t.rooms.Keys == s.rooms.Keys
            && forall u :: u in s.rooms ==> t.rooms[u].room == s.rooms[u].room
  {
  }

  /** A socket that closes is no longer served, its room forgets it, and the others stay. */
  lemma DisconnectedIsGone<D(!new)>(s: Server<D>, now: int, user: string, ws: Socket, other: Socket)
    ensures var t := Act(s, now, Disconnect(user, ws)).0;
            && !Serves(t, user, ws)
            && (other != ws ==> (Serves(t, user, other) <==> Serves(s, user, other)))
            && (Serves(s, user, ws) ==> t.rooms[user].room == HandleClose(s.rooms[user].room, ws))
            && t.files == s.files
  {
  }

  /** A clean-up closes exactly the rooms in which nobody is registered and nothing has happened for
      longer than the timeout, and leaves all else as it is. */
  lemma CleanUpClosesExactly<D(!new)>(s: Server<D>, now: int, u: string)
    ensures var t := Act(s, now, CleanUp).0;
            && (u in t.rooms <==>
                  && u in s.rooms
                  && (s.rooms[u].room.connections != map[] || now <= s.rooms[u].lastActivity + s.idleTimeout))
            && (u in t.rooms ==> t.rooms[u] == s.rooms[u])
            && t.files == s.files
  {
  }

  /** Any action on a user's socket keeps the user's room, if there is one, open for the timeout. */
  lemma ActivityKeepsRoom<D(!new)>(s: Server<D>, now: int, action: Action<D>, later: int)
    requires !action.CleanUp? && later - now <= s.idleTimeout
    ensures var t := Act(s, now, action).0;
            action.user in t.rooms ==> action.user in Act(t, later, CleanUp).0.rooms
  {
    CleanUpClosesExactly(Act(s, now, action).0, later, action.user);
  }

  function Reached<D(==)>(s: Server<D>, actions: seq<Timed<D>>): Server<D>
    decreases |actions|
  {
    if actions == [] then s else Reached(Act(s, actions[0].now, actions[0].action).0, actions[1..])
  }

  /** No clean-up of the run closes a room to which a socket is attached. */
  predicate Considerate<D(==)>(s: Server<D>, actions: seq<Timed<D>>)
    decreases |actions|
  {
    actions == [] ||
    (&& (actions[0].action.CleanUp? ==>
           forall u :: u in s.rooms && Idle(s, u, actions[0].now) ==> s.rooms[u].attached == {})
     && Considerate(Act(s, actions[0].now, actions[0].action).0, actions[1..]))
  }

  lemma {:induction false} StaysServed<D(!new)>(s: Server<D>, user: string, ws: Socket, actions: seq<Timed<D>>)
    requires Serves(s, user, ws) && Considerate(s, actions)
    requires forall i :: 0 <= i < |actions| ==> actions[i].action != Disconnect(user, ws)
    ensures Serves(Reached(s, actions), user, ws)
    decreases |actions|
  {
    if actions != [] {
      var now, action := actions[0].now, actions[0].action;
      assert action != Disconnect(user, ws);
      if !action.CleanUp? && action.user != user { OthersUntouched(s, now, action, user); }
      StaysServed(Act(s, now, action).0, user, ws, actions[1..]);
    }
  }

  /** So a socket's HELLO is answered however long after it has connected, by the room as it is
      then, unless the socket closes or a clean-up closes a room with sockets attached. */
  lemma ConnectedIsAnswered<D(!new)>(s: Server<D>, start: int, user: string, ws: Socket, actions: seq<Timed<D>>,
                                     now: int, deviceId: string)
    requires var t := Act(s, start, Connect(user, ws)).0;
             Considerate(t, actions)
    requires forall i :: 0 <= i < |actions| ==> actions[i].action != Disconnect(user, ws)
    ensures var later := Reached(Act(s, start, Connect(user, ws)).0, actions);
            var sent := Act(later, now, Deliver(user, ws, Hello(deviceId, None, None))).1;
            && Serves(later, user, ws)
            && (exists p :: p in sent && p.to == ws && (p.message.Ack? || p.message.Rejected?))
  {
    var t := Act(s, start, Connect(user, ws)).0;
    ConnectedIsServed(s, start, user, ws);
    StaysServed(t, user, ws, actions);
    var later := Reached(t, actions);
    var reply := Handle(later.rooms[user].room, ws, Hello(deviceId, None, None));
    ServedIsHandled(later, now, user, ws, Hello(deviceId, None, None));
    assert exists p :: p in reply.sent && p.to == ws && (p.message.Ack? || p.message.Rejected?) by {
      if deviceId in later.rooms[user].room.revoked {
        assert Packet(ws, Rejected) in reply.sent;
      } else {
        var n, log := |reply.room.connections|, later.rooms[user].room.log;
        assert Packet(ws, Ack(n, log.currentSequence, HasHistory(log, 0))) in reply.sent;
      }
    }
  }

  // ---------------------------------------------------------------- equivalence

  /** All that later answers to a user can depend on: an absent room looks like one that is
      open with no socket attached. The activity time matters only while a socket is attached. */
  datatype View<D> = View(log: Log<D>, revoked: map<string, Revocation>, connections: map<Socket, Session>,
                          attached: set<Socket>, lastActivity: int)

  function ViewOf<D>(s: Server<D>, user: string): View<D> {
    var meta := Opened(s, user, 0);
    View(meta.room.log, meta.room.revoked, meta.room.connections, meta.attached,
         if meta.attached == {} then 0 else meta.lastActivity)
  }

  ghost predicate Alike<D(!new)>(s: Server<D>, t: Server<D>) {
    && s.idleTimeout == t.idleTimeout
    && forall u :: ViewOf(s, u) == ViewOf(t, u)
  }

  /** Two rooms that differ only in which sockets have been told to close answer alike. */
  lemma HandleIgnoresClosing<D(!new)>(a: Room<D>, b: Room<D>, ws: Socket, msg: Incoming<D>)
    requires a.log == b.log && a.revoked == b.revoked && a.connections == b.connections
    ensures var x, y := Handle(a, ws, msg), Handle(b, ws, msg);
            && x.sent == y.sent && x.room.log == y.room.log
            && x.room.revoked == y.room.revoked && x.room.connections == y.room.connections
  {
    match msg
    case Update(payload) =>
      assert Broadcast(a, ws, Relayed(payload, false)) == Broadcast(b, ws, Relayed(payload, false));
    case Snapshot(payload) =>
      assert Broadcast(a, ws, Relayed(payload, true)) == Broadcast(b, ws, Relayed(payload, true));
    case DeviceRevoke(d, _) => assert Broadcast(a, ws, RevokeNotice(d)) == Broadcast(b, ws, RevokeNotice(d));
    case _ =>
  }

  lemma HandleKeepsSynced<D(!new)>(room: Room<D>, ws: Socket, msg: Incoming<D>)
    requires Synced(room.log)
    ensures Synced(Handle(room, ws, msg).room.log)
    ensures Handle(room, ws, msg).room.connections.Keys <= room.connections.Keys + {ws}
  {
    match msg
    case Update(payload) => StoreReturnsKey(room.log, payload, false);
    case Snapshot(payload) => StoreReturnsKey(room.log, payload, true);
    case CompactRequest(upTo, snapshot) => CompactSynced(room.log, upTo, snapshot);
    case _ =>
  }

  /** An action on one user's room leaves every other user's room and file alone. */
  lemma OthersUntouched<D(!new)>(s: Server<D>, now: int, action: Action<D>, u: string)
    requires !action.CleanUp? && u != action.user
    ensures var t := Act(s, now, action).0;
            && FileOf(t, u) == FileOf(s, u)
            && (u in t.rooms <==> u in s.rooms)
            && (u in s.rooms ==> t.rooms[u] == s.rooms[u])
  {
  }

  lemma DeliverKeepsValid<D(!new)>(s: Server<D>, now: int, user: string, ws: Socket, msg: Incoming<D>)
    requires ValidUser(s, user) && Serves(s, user, ws)
    ensures ValidUser(Act(s, now, Deliver(user, ws, msg)).0, user)
  {
    HandleKeepsSynced(s.rooms[user].room, ws, msg);
    ReopenIdentity(Handle(s.rooms[user].room, ws, msg).room.log);
  }

  lemma ActKeepsValid<D(!new)>(s: Server<D>, now: int, action: Action<D>)
    requires Valid(s)
    ensures Valid(Act(s, now, action).0)
  {
    var t := Act(s, now, action).0;
    forall u ensures ValidUser(t, u) {
      assert ValidUser(s, u);
      if action.CleanUp? {
        assert FileOf(t, u) == FileOf(s, u);
      } else if u != action.user {
        OthersUntouched(s, now, action, u);
      } else if action.Deliver? && Serves(s, u, action.ws) {
        DeliverKeepsValid(s, now, u, action.ws, action.msg);
      }
    }
  }

  lemma ActAlike<D(!new)>(s: Server<D>, t: Server<D>, now: int, action: Action<D>)
    requires Valid(s) && Valid(t) && Alike(s, t)
    ensures Act(s, now, action).1 == Act(t, now, action).1
    ensures Alike(Act(s, now, action).0, Act(t, now, action).0)
  {
    hide Synced, Handle;
    var s', t' := Act(s, now, action).0, Act(t, now, action).0;
    if action.CleanUp? {
      forall u ensures ViewOf(s', u) == ViewOf(t', u) {
        CleanUpAlike(s, t, now, u);
      }
    } else {
      UserAlike(s, t, now, action);
      forall u ensures ViewOf(s', u) == ViewOf(t', u) {
        assert ViewOf(s, u) == ViewOf(t, u);
        if u != action.user {
          OthersUntouched(s, now, action, u);
          OthersUntouched(t, now, action, u);
        }
      }
    }
  }

  lemma CleanUpAlike<D(!new)>(s: Server<D>, t: Server<D>, now: int, u: string)
    requires ValidUser(s, u) && ValidUser(t, u)
    requires s.idleTimeout == t.idleTimeout && ViewOf(s, u) == ViewOf(t, u)
    ensures ViewOf(CleanedUp(s, now), u) == ViewOf(CleanedUp(t, now), u)
  {
    hide Synced;
    assert FileOf(CleanedUp(s, now), u) == FileOf(s, u);
    assert FileOf(CleanedUp(t, now), u) == FileOf(t, u);
  }

  lemma UserAlike<D(!new)>(s: Server<D>, t: Server<D>, now: int, action: Action<D>)
    requires !action.CleanUp?
    requires ValidUser(s, action.user) && ValidUser(t, action.user)
    requires ViewOf(s, action.user) == ViewOf(t, action.user)
    ensures Act(s, now, action).1 == Act(t, now, action).1
    ensures ViewOf(Act(s, now, action).0, action.user) == ViewOf(Act(t, now, action).0, action.user)
  {
    hide Synced, Handle;
    var user, ws := action.user, action.ws;
    if action.Deliver? && Serves(s, user, ws) {
      HandleIgnoresClosing(s.rooms[user].room, t.rooms[user].room, ws, action.msg);
    }
  }

  lemma {:induction false} AnswersAlike<D(!new)>(s: Server<D>, t: Server<D>, actions: seq<Timed<D>>)
    requires Valid(s) && Valid(t) && Alike(s, t)
    ensures Answers(s, actions) == Answers(t, actions)
    decreases |actions|
  {
    if actions != [] {
      var now, action := actions[0].now, actions[0].action;
      ActKeepsValid(s, now, action);
      ActKeepsValid(t, now, action);
      ActAlike(s, t, now, action);
      AnswersAlike(Act(s, now, action).0, Act(t, now, action).0, actions[1..]);
    }
  }

  // ---------------------------------------------------------------- main result

  /** No clean-up is visible: if every room it closes has no socket attached, every answer to
      every later message, on old and on new connections, is the same as without it, through
      all later connects, messages, disconnects and further clean-ups. */
  lemma {:induction false} CleanUpInvisible<D(!new)>(s: Server<D>, now: int, actions: seq<Timed<D>>)
    requires Valid(s)
    requires forall u :: u in s.rooms && Idle(s, u, now) ==> s.rooms[u].attached == {}
    ensures Answers(s, actions) == Answers(CleanedUp(s, now), actions)
  {
    var t := CleanedUp(s, now);
    assert Act(s, now, CleanUp).0 == t;
    ActKeepsValid(s, now, CleanUp);
    CleanUpLooksSame(s, now);
    AnswersAlike(s, t, actions);
  }

  /** The same server with a clean-up that never closes anything. */
  function AnswersAlwaysOpen<D(==)>(s: Server<D>, actions: seq<Timed<D>>): seq<set<Packet<D>>>
    decreases |actions|
  {
    if actions == [] then []
    else if actions[0].action.CleanUp? then [{}] + AnswersAlwaysOpen(s, actions[1..])
    else
      var (next, sent) := Act(s, actions[0].now, actions[0].action);
      [sent] + AnswersAlwaysOpen(next, actions[1..])
  }

  /** Over whole runs: closing idle rooms and reopening them is a refinement of keeping every
      room open for ever. The two may differ in which rooms are open, never in an answer. */
  lemma {:induction false} RoomsSeemAlwaysOpen<D(!new)>(s: Server<D>, t: Server<D>, actions: seq<Timed<D>>)
    requires Valid(s) && Valid(t) && Alike(s, t) && Considerate(s, actions)
    ensures Answers(s, actions) == AnswersAlwaysOpen(t, actions)
    decreases |actions|
  {
    if actions != [] {
      var now, action := actions[0].now, actions[0].action;
      var s' := Act(s, now, action).0;
      ActKeepsValid(s, now, action);
      if action.CleanUp? {
        CleanUpLooksSame(s, now);
        RoomsSeemAlwaysOpen(s', t, actions[1..]);
      } else {
        ActKeepsValid(t, now, action);
        ActAlike(s, t, now, action);
        RoomsSeemAlwaysOpen(s', Act(t, now, action).0, actions[1..]);
      }
    }
  }

  lemma CleanUpLooksSame<D(!new)>(s: Server<D>, now: int)
    requires Valid(s)
    requires forall u :: u in s.rooms && Idle(s, u, now) ==> s.rooms[u].attached == {}
    ensures Alike(s, CleanedUp(s, now))
  {
    var t := CleanedUp(s, now);
    forall u ensures ViewOf(s, u) == ViewOf(t, u) {
      assert ValidUser(s, u) && FileOf(s, u) == FileOf(t, u);
    }
  }

  /** And only then: a socket attached to a room that the clean-up closes would have had its
      HELLO acknowledged, and now never hears anything. */
  lemma CleanUpSilencesAttached<D(!new)>(s: Server<D>, now: int, user: string, ws: Socket, deviceId: string)
    requires user in s.rooms && Idle(s, user, now) && ws in s.rooms[user].attached
    ensures var hello := [Timed(now, Deliver(user, ws, Hello(deviceId, None, None)))];
            && Answers(s, hello) != Answers(CleanedUp(s, now), hello)
            && Answers(CleanedUp(s, now), hello) == [{}]
  {
    var hello := Timed(now, Deliver(user, ws, Hello(deviceId, None, None)));
    var sent := Act(s, now, hello.action).1;
    assert sent == Handle(s.rooms[user].room, ws, Hello(deviceId, None, None)).sent;
    assert exists p :: p in sent;
    assert Answers(s, [hello])[0] == sent;
    assert user !in CleanedUp(s, now).rooms;
    assert Answers(CleanedUp(s, now), [hello])[0] == {};
  }
}
