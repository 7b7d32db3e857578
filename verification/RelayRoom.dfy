/** A user's sync room (sync-relay/src/sync-room.ts): what each message does to the log, the
revocation table and the connections, and what the relay sends in answer. */
module RelayRoom {
  // Payloads of JSON type arrive parsed; a message whose payload does not parse is `Malformed`, or
  // `MalformedRevoke` for a revocation, the one that is answered.
  // Sends do not fail. `closing` holds the sockets on which the relay has called close.

  import opened Wrappers
  import opened RelayLog
  import opened RelayStorage

  /** One connection: `owner` is the client program at its other end. */
  datatype Socket = Socket(owner: nat, number: nat)

  datatype Session = Session(deviceId: string, encrypted: bool, lastSequence: int)

  datatype Incoming<D> =
    | Hello(deviceId: string, encrypted: Option<bool>, lastSequence: Option<int>)
    | Update(payload: D)
    | Snapshot(payload: D)
    | CatchUp(fromSequence: int)
    | CompactRequest(upToSequence: int, snapshot: D)
    | DeviceRevoke(deviceId: string, revocation: Revocation)
    | Malformed
    | MalformedRevoke

  datatype Outgoing<D> =
    | Ack(sessionCount: nat, currentSequence: nat, hasHistory: bool)
    | Rejected
    | Relayed(payload: D, isSnapshot: bool)
    | History(count: nat, fromSequence: nat, toSequence: nat, updates: seq<D>)
    | RevokeAck(deviceId: string)
    | RevokeFailed
    | RevokeNotice(deviceId: string)

  datatype Packet<D> = Packet(to: Socket, message: Outgoing<D>)

  datatype Room<D> = Room(
    log: Log<D>,
    revoked: map<string, Revocation>,
    connections: map<Socket, Session>,
    closing: set<Socket>)

  datatype Reply<D(==)> = Reply(room: Room<D>, sent: set<Packet<D>>)

  // ---------------------------------------------------------------- handlers

  function Broadcast<D(==)>(room: Room<D>, sender: Socket, message: Outgoing<D>): set<Packet<D>> {
    set s | s in room.connections && s != sender :: Packet(s, message)
  }

  function HandleHello<D(==)>(room: Room<D>, ws: Socket, hello: Incoming<D>): Reply<D>
    requires hello.Hello?
  {
    if hello.deviceId in room.revoked then
      Reply(room.(closing := room.closing + {ws}), {Packet(ws, Rejected)})
    else
      var clientSeq := GetOr(hello.lastSequence, 0);
      var connections := room.connections[ws := Session(hello.deviceId, GetOr(hello.encrypted, false), clientSeq)];
      Reply(room.(connections := connections),
            {Packet(ws, Ack(|connections|, room.log.currentSequence, HasHistory(room.log, clientSeq)))})
  }

  function HistoryOf<D>(page: seq<Row<D>>): Outgoing<D>
    requires page != []
  {
    History(|page|, page[0].sequence, LargestKey(page), Payloads(page))
  }

  function Payloads<D>(page: seq<Row<D>>): (updates: seq<D>) {
    seq(|page|, i requires 0 <= i < |page| => page[i].data)
  }

  function HandleCatchUp<D(==)>(room: Room<D>, ws: Socket, fromSequence: int): Reply<D> {
    var page := Page(room.log.disk.rows, fromSequence, PAGE_LIMIT);
    Reply(room, if page == [] then {} else {Packet(ws, HistoryOf(page))})
  }

  function HandleRevoke<D(==)>(room: Room<D>, ws: Socket, deviceId: string, revocation: Revocation): Reply<D> {
    var targets := set s | s in room.connections && s != ws && room.connections[s].deviceId == deviceId;
    Reply(room.(revoked := room.revoked[deviceId := revocation], closing := room.closing + targets),
          {Packet(ws, RevokeAck(deviceId))} + Broadcast(room, ws, RevokeNotice(deviceId)))
  }

  function Handle<D(==)>(room: Room<D>, ws: Socket, msg: Incoming<D>): Reply<D> {
    match msg
    case Hello(_, _, _) => HandleHello(room, ws, msg)
    case Update(payload) =>
      Reply(room.(log := Store(room.log, payload, false)), Broadcast(room, ws, Relayed(payload, false)))
    case Snapshot(payload) =>
      Reply(room.(log := Store(room.log, payload, true)), Broadcast(room, ws, Relayed(payload, true)))
    case CatchUp(fromSequence) => HandleCatchUp(room, ws, fromSequence)
    case CompactRequest(upTo, snapshot) => Reply(room.(log := Compact(room.log, upTo, snapshot)), {})
    case DeviceRevoke(deviceId, revocation) => HandleRevoke(room, ws, deviceId, revocation)
    case Malformed => Reply(room, {})
    case MalformedRevoke => Reply(room, {Packet(ws, RevokeFailed)})
  }

  function HandleClose<D>(room: Room<D>, ws: Socket): Room<D> {
    room.(connections := room.connections - {ws}, closing := room.closing - {ws})
  }

  /** Closing the room tells every registered connection to go; reopening reads the file. */
  function Reopen<D>(room: Room<D>): Room<D> {
    Room(Open(room.log.disk), room.revoked, map[], room.closing + room.connections.Keys)
  }

  // ---------------------------------------------------------------- the object

  class SyncRoom<D(==)> {
    const storage: SyncStorage<D>
    var connections: map<Socket, Session>
    var closing: set<Socket>

    ghost function State(): Room<D> reads this, storage {
      Room(storage.Contents(), storage.revoked, connections, closing)
    }

    constructor (file: File<D>)
      ensures State() == Room(Open(file.disk), file.revoked, map[], {}) && fresh(storage)
    {
      storage := new SyncStorage(file);
      connections, closing := map[], {};
    }

    method BroadcastExcept(sender: Socket, message: Outgoing<D>) returns (sent: set<Packet<D>>)
      ensures sent == Broadcast(State(), sender, message)
    {
      sent := {};
      var todo := connections.Keys;
      while todo != {}
        invariant todo <= connections.Keys
        invariant sent == set s | s in connections && s !in todo && s != sender :: Packet(s, message)
        decreases todo
      {
        var socket :| socket in todo;
        if socket != sender {
          sent := sent + {Packet(socket, message)};
        }
        todo := todo - {socket};
      }
    }

    method HandleMessage(ws: Socket, msg: Incoming<D>) returns (sent: set<Packet<D>>)
      modifies this, storage
      ensures Reply(State(), sent) == Handle(old(State()), ws, msg)
    {
      match msg
      case Hello(deviceId, encrypted, lastSequence) =>
        if deviceId in storage.revoked {
          closing := closing + {ws};
          sent := {Packet(ws, Rejected)};
        } else {
          var session := Session(deviceId, GetOr(encrypted, false), GetOr(lastSequence, 0));
          connections := connections[ws := session];
          var hasHistory := storage.currentSequence > session.lastSequence;
          sent := {Packet(ws, Ack(|connections|, storage.currentSequence, hasHistory))};
        }
      case Update(payload) =>
        var _ := storage.StoreUpdate(payload, false);
        sent := BroadcastExcept(ws, Relayed(payload, false));
      case Snapshot(payload) =>
        var _ := storage.StoreUpdate(payload, true);
        sent := BroadcastExcept(ws, Relayed(payload, true));
      case CatchUp(fromSequence) =>
        var updates := storage.GetUpdatesAfter(fromSequence);
        if |updates| == 0 {
          sent := {};
        } else {
          sent := {Packet(ws, History(|updates|, updates[0].sequence, updates[|updates| - 1].sequence,
                                      Payloads(updates)))};
        }
      case CompactRequest(upToSequence, snapshot) =>
        storage.CompactUpdates(upToSequence, snapshot);
        sent := {};
      case DeviceRevoke(deviceId, revocation) =>
        sent := HandleDeviceRevoke(ws, deviceId, revocation);
      case Malformed =>
        sent := {};
      case MalformedRevoke =>
        sent := {Packet(ws, RevokeFailed)};
    }

    method HandleDeviceRevoke(ws: Socket, deviceId: string, revocation: Revocation) returns (sent: set<Packet<D>>)
      modifies this`closing, storage`revoked
      ensures Reply(State(), sent) == HandleRevoke(old(State()), ws, deviceId, revocation)
    {
      storage.StoreRevocation(deviceId, revocation);
      sent := {Packet(ws, RevokeAck(deviceId))};
      var todo := connections.Keys;
      while todo != {}
        invariant todo <= connections.Keys
        invariant storage.revoked == old(storage.revoked)[deviceId := revocation]
        invariant sent == {Packet(ws, RevokeAck(deviceId))}
                          + set s | s in connections && s !in todo && s != ws :: Packet(s, RevokeNotice(deviceId))
        invariant closing == old(closing) + set s | s in connections && s !in todo && s != ws
                                                    && connections[s].deviceId == deviceId
        decreases todo
      {
        var socket :| socket in todo;
        todo := todo - {socket};
        if socket != ws {
          sent := sent + {Packet(socket, RevokeNotice(deviceId))};
          if connections[socket].deviceId == deviceId {
            closing := closing + {socket};
          }
        }
      }
      ghost var expected := HandleRevoke(old(State()), ws, deviceId, revocation);
      assert closing == expected.room.closing;
      assert sent == expected.sent;
    }

    method HandleSocketClose(ws: Socket)
      modifies this`connections, this`closing
      ensures State() == HandleClose(old(State()), ws)
    {
      connections := connections - {ws};
      closing := closing - {ws};
    }

    method Reset()
      modifies storage
      ensures State() == old(State()).(log := Clear(old(State().log)))
    {
      storage.ClearAllUpdates();
    }
  }

  // ---------------------------------------------------------------- revocation

  datatype Event<D> =
    | Message(ws: Socket, msg: Incoming<D>)
    | SocketClosed(ws: Socket)
    | ResetRequest
    | RoomReopened

  function React<D(==)>(room: Room<D>, event: Event<D>): Room<D> {
    match event
    case Message(ws, msg) => Handle(room, ws, msg).room
    case SocketClosed(ws) => HandleClose(room, ws)
    case ResetRequest => room.(log := Clear(room.log))
    case RoomReopened => Reopen(room)
  }

  function ReactAll<D(==)>(room: Room<D>, events: seq<Event<D>>): Room<D>
    decreases |events|
  {
    if events == [] then room else ReactAll(React(room, events[0]), events[1..])
  }

  /** d is revoked, and every connection registered as d has been told to close. */
  predicate ShutOut<D>(room: Room<D>, d: string) {
    && d in room.revoked
    && forall s :: s in room.connections && room.connections[s].deviceId == d ==> s in room.closing
  }

  /** A revocation shuts the device out at once, unless it is sent over a connection that is
      itself registered as that device: the relay never closes the sender. */
  lemma RevokeShutsOutExactly<D>(room: Room<D>, ws: Socket, d: string, revocation: Revocation)
    ensures ShutOut(Handle(room, ws, DeviceRevoke(d, revocation)).room, d)
            <==> (ws in room.connections && room.connections[ws].deviceId == d ==> ws in room.closing)
  {
    var after := Handle(room, ws, DeviceRevoke(d, revocation)).room;
    assert forall s :: s in after.connections && s != ws && after.connections[s].deviceId == d ==> s in after.closing;
  }

  /** Once shut out, a device stays shut out through every later message, close, reset and
      reopening of the room, whoever sends them. */
  lemma {:induction false} ShutOutForever<D>(room: Room<D>, d: string, events: seq<Event<D>>)
    requires ShutOut(room, d)
    ensures ShutOut(ReactAll(room, events), d)
    decreases |events|
  {
    if events != [] {
      var next := React(room, events[0]);
      assert ShutOut(next, d);
      ShutOutForever(next, d, events[1..]);
    }
  }

  /** The promise as a user would put it: after a device registered under another id (or not
      registered at all) has revoked d, in every later state of the room each connection
      registered as d has been told to close, and every HELLO as d is refused and told to close.
      Until its socket does close, what such a connection still sends is answered. */
  lemma RevokedDeviceStaysShutOut<D>(room: Room<D>, ws: Socket, d: string, revocation: Revocation,
                                    events: seq<Event<D>>, later: Socket, hello: Incoming<D>)
    requires ws in room.connections ==> room.connections[ws].deviceId != d
    requires hello.Hello? && hello.deviceId == d
    ensures var after := ReactAll(Handle(room, ws, DeviceRevoke(d, revocation)).room, events);
            && ShutOut(after, d)
            && Handle(after, later, hello).sent == {Packet(later, Rejected)}
            && later in Handle(after, later, hello).room.closing
  {
    RevokeShutsOutExactly(room, ws, d, revocation);
    ShutOutForever(Handle(room, ws, DeviceRevoke(d, revocation)).room, d, events);
  }

  // ---------------------------------------------------------------- replies

  /** For a registered or unregistered socket alike: a HELLO that is not refused promises
      history exactly when a CATCH_UP from the same sequence would be answered, if and only if
      that sequence is not negative or something is stored. */
  lemma AckPromisesHistoryExactly<D>(room: Room<D>, ws: Socket, hello: Incoming<D>)
    requires Synced(room.log)
    requires hello.Hello? && hello.deviceId !in room.revoked
    ensures var after := Handle(room, ws, hello);
            var clientSeq := GetOr(hello.lastSequence, 0);
            var answered := Handle(after.room, ws, CatchUp(clientSeq)).sent != {};
            && after.room.log == room.log
            && (after.sent == {Packet(ws, Ack(|after.room.connections|, room.log.currentSequence, answered))}
                <==> (clientSeq >= 0 || room.log.disk.rows != []))
  {
    var clientSeq := GetOr(hello.lastSequence, 0);
    HasHistoryExact(room.log, clientSeq);
    var after := Handle(room, ws, hello);
    var page := Page(room.log.disk.rows, clientSeq, PAGE_LIMIT);
    var reply := Handle(after.room, ws, CatchUp(clientSeq)).sent;
    assert page != [] ==> Packet(ws, HistoryOf(page)) in reply;
    var promise := HasHistory(room.log, clientSeq);
    assert Packet(ws, Ack(|after.room.connections|, room.log.currentSequence, promise)) in after.sent;
  }
}
