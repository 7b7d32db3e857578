/** What a connection to a room can rely on (sync-relay/src/sync-room.ts): who is registered, who
hears what, and what each answer describes. Events are those of RelayRoom. */
module RelayConnections {
  import opened Wrappers
  import opened RelayLog
  import opened RelayStorage
  import opened RelayRoom

  // ---------------------------------------------------------------- registration

  predicate Accepted<D>(room: Room<D>, hello: Incoming<D>) {
    hello.Hello? && hello.deviceId !in room.revoked
  }

  /** A HELLO that is not refused registers its connection under the device it names, and the ACK
      counts it; a refused one registers nobody. All others stay as they are. */
  lemma GreetingRegistersExactly<D>(room: Room<D>, ws: Socket, hello: Incoming<D>)
    requires hello.Hello?
    ensures var reply := Handle(room, ws, hello);
            && (forall s :: s in reply.room.connections <==>
                              s in room.connections || (s == ws && Accepted(room, hello)))
            && (forall s :: s in room.connections && (s != ws || !Accepted(room, hello)) ==>
                  reply.room.connections[s] == room.connections[s])
            && (Accepted(room, hello) ==>
                  && ws in reply.room.connections
                  && reply.room.connections[ws].deviceId == hello.deviceId
                  && reply.room.connections[ws].lastSequence == GetOr(hello.lastSequence, 0)
                  && (reply.room.connections[ws].encrypted <==> hello.encrypted == Some(true)))
            && (forall p :: p in reply.sent ==>
                  && p.to == ws
                  && (p.message.Ack? <==> Accepted(room, hello))
                  && (p.message.Ack? ==>
                        p.message.sessionCount == |room.connections| + if ws in room.connections then 0 else 1))
  {
    var after := Handle(room, ws, hello).room.connections;
    if Accepted(room, hello) {
      assert after.Keys == room.connections.Keys + {ws};
      assert |after| == |after.Keys| && |room.connections| == |room.connections.Keys|;
    }
  }

  /** The events leave ws alone: its socket does not close, and the room is not closed. */
  predicate Lasts<D>(ws: Socket, events: seq<Event<D>>) {
    forall i :: 0 <= i < |events| ==>
      !(events[i].SocketClosed? && events[i].ws == ws) && !events[i].RoomReopened?
  }

  /** ws says HELLO as no device but d. */
  predicate OnlyAs<D>(ws: Socket, d: string, events: seq<Event<D>>) {
    forall i :: 0 <= i < |events| && events[i].Message? && events[i].ws == ws && events[i].msg.Hello? ==>
      events[i].msg.deviceId == d
  }

  /** Registered is registered: no other message, close or reset takes a connection away. */
  lemma {:induction false} StaysRegistered<D>(room: Room<D>, ws: Socket, events: seq<Event<D>>)
    requires ws in room.connections && Lasts(ws, events)
    ensures ws in ReactAll(room, events).connections
    decreases |events|
  {
    if events != [] {
      StaysRegistered(React(room, events[0]), ws, events[1..]);
    }
  }

  lemma {:induction false} StaysTheDevice<D>(room: Room<D>, ws: Socket, d: string, events: seq<Event<D>>)
    requires ws in room.connections && room.connections[ws].deviceId == d && Lasts(ws, events)
    requires OnlyAs(ws, d, events)
    ensures ws in ReactAll(room, events).connections && ReactAll(room, events).connections[ws].deviceId == d
    decreases |events|
  {
    if events != [] {
      StaysTheDevice(React(room, events[0]), ws, d, events[1..]);
    }
  }

  // ---------------------------------------------------------------- hearing

  /** After an accepted HELLO, for as long as its socket and the room stay open and whatever else
      happens, a connection is sent every update and every snapshot that another one sends. */
  lemma GreetedHearsEverything<D>(room: Room<D>, ws: Socket, hello: Incoming<D>, events: seq<Event<D>>,
                                  sender: Socket, payload: D)
    requires Accepted(room, hello) && Lasts(ws, events) && sender != ws
    ensures var later := ReactAll(React(room, Message(ws, hello)), events);
            && Packet(ws, Relayed(payload, false)) in Handle(later, sender, Update(payload)).sent
            && Packet(ws, Relayed(payload, true)) in Handle(later, sender, Snapshot(payload)).sent
  {
    GreetingRegistersExactly(room, ws, hello);
    StaysRegistered(React(room, Message(ws, hello)), ws, events);
  }

  /** And when another connection revokes the device it said it was, it is told so and told to
      close, unless it has said HELLO as another device meanwhile. */
  lemma GreetedIsToldToClose<D>(room: Room<D>, ws: Socket, hello: Incoming<D>, events: seq<Event<D>>,
                                sender: Socket, revocation: Revocation)
    requires Accepted(room, hello) && Lasts(ws, events) && sender != ws
    requires OnlyAs(ws, hello.deviceId, events)
    ensures var later := ReactAll(React(room, Message(ws, hello)), events);
            var reply := Handle(later, sender, DeviceRevoke(hello.deviceId, revocation));
            && ws in reply.room.closing
            && Packet(ws, RevokeNotice(hello.deviceId)) in reply.sent
  {
    GreetingRegistersExactly(room, ws, hello);
    StaysTheDevice(React(room, Message(ws, hello)), ws, hello.deviceId, events);
  }

  predicate Silent<D>(ws: Socket, events: seq<Event<D>>) {
    forall i :: 0 <= i < |events| ==> !(events[i].Message? && events[i].ws == ws && events[i].msg.Hello?)
  }

  lemma {:induction false} StaysUnregistered<D>(room: Room<D>, ws: Socket, events: seq<Event<D>>)
    requires ws !in room.connections && Silent(ws, events)
    ensures ws !in ReactAll(room, events).connections
    decreases |events|
  {
    if events != [] {
      StaysUnregistered(React(room, events[0]), ws, events[1..]);
    }
  }

  /** After its socket or the room has closed, a connection that does not say HELLO again is sent
      nothing of what others send. */
  lemma ClosedHearsNothing<D>(room: Room<D>, ws: Socket, close: Event<D>, events: seq<Event<D>>,
                              sender: Socket, msg: Incoming<D>)
    requires close == SocketClosed(ws) || close == RoomReopened
    requires Silent(ws, events) && sender != ws
    ensures forall p :: p in Handle(ReactAll(React(room, close), events), sender, msg).sent ==> p.to != ws
  {
    StaysUnregistered(React(room, close), ws, events);
  }

  /** A closing socket takes no other connection with it; a closing room tells all to close. */
  lemma ClosingExactly<D>(room: Room<D>, ws: Socket, s: Socket)
    ensures s in React(room, SocketClosed(ws)).connections <==> s in room.connections && s != ws
    ensures s in React(room, SocketClosed(ws)).connections ==>
              React(room, SocketClosed(ws)).connections[s] == room.connections[s]
    ensures s in React(room, SocketClosed(ws)).closing <==> s in room.closing && s != ws
    ensures s !in React(room, RoomReopened).connections
    ensures s in React(room, RoomReopened).closing <==> s in room.closing || s in room.connections
  {
  }

  // ---------------------------------------------------------------- who is told what

  /** An update or snapshot goes to every other registered connection and to nobody else. */
  lemma RelayedExactly<D>(room: Room<D>, ws: Socket, payload: D, p: Packet<D>)
    ensures p in Handle(room, ws, Update(payload)).sent
            <==> p.to in room.connections && p.to != ws && p.message == Relayed(payload, false)
    ensures p in Handle(room, ws, Snapshot(payload)).sent
            <==> p.to in room.connections && p.to != ws && p.message == Relayed(payload, true)
  {
  }

  /** A revocation is acknowledged to its sender and announced to every other registered
      connection; those of the device are told to close, and nobody else is. The log stays. */
  lemma RevocationTellsExactly<D>(room: Room<D>, ws: Socket, d: string, revocation: Revocation, p: Packet<D>, s: Socket)
    ensures var reply := Handle(room, ws, DeviceRevoke(d, revocation));
            && (p in reply.sent <==>
                  || p == Packet(ws, RevokeAck(d))
                  || (p.to in room.connections && p.to != ws && p.message == RevokeNotice(d)))
            && (s in reply.room.closing <==>
                  || s in room.closing
                  || (s in room.connections && s != ws && room.connections[s].deviceId == d))
            && reply.room.connections == room.connections && reply.room.log == room.log
            && d in reply.room.revoked && reply.room.revoked[d] == revocation
            && forall other :: other != d ==>
                 && (other in reply.room.revoked <==> other in room.revoked)
                 && (other in room.revoked ==> reply.room.revoked[other] == room.revoked[other])
  {
    var msg: Incoming<D> := DeviceRevoke(d, revocation);
    assert Handle(room, ws, msg) == HandleRevoke(room, ws, d, revocation);
  }

  /** What comes back to the sender of a message: always one answer to a HELLO or a revocation, one
      to a CATCH_UP that finds rows, and to nothing else. */
  lemma AnsweredExactly<D>(room: Room<D>, ws: Socket, msg: Incoming<D>, p: Packet<D>)
    ensures var mine := set q | q in Handle(room, ws, msg).sent && q.to == ws;
            && |mine| <= 1
            && (mine != {} <==>
                  || msg.Hello? || msg.DeviceRevoke? || msg.MalformedRevoke?
                  || (msg.CatchUp? && exists r :: r in room.log.disk.rows && r.sequence > msg.fromSequence))
            && (p in mine && msg.MalformedRevoke? ==> p.message.RevokeFailed?)
            && (p in mine && msg.DeviceRevoke? ==> p.message == RevokeAck(msg.deviceId))
            && (p in mine && msg.Hello? ==>
                  (p.message.Rejected? || p.message.Ack?) && (p.message.Rejected? <==> msg.deviceId in room.revoked))
  {
    var reply := Handle(room, ws, msg);
    var mine := set q | q in reply.sent && q.to == ws;
    if msg.Hello? {
      var answer := if msg.deviceId in room.revoked then Rejected
                    else Ack(|reply.room.connections|, room.log.currentSequence,
                             HasHistory(room.log, GetOr(msg.lastSequence, 0)));
      assert mine == {Packet(ws, answer)};
    } else if msg.CatchUp? {
      CatchUpAnswered(room, ws, msg.fromSequence);
      if reply.sent != {} {
        var only: Packet<D> :| only.to == ws && reply.sent == {only};
        assert mine == {only};
      }
    } else if msg.DeviceRevoke? {
      assert mine == {Packet(ws, RevokeAck(msg.deviceId))};
    } else if msg.MalformedRevoke? {
      assert mine == {Packet(ws, RevokeFailed)};
    } else {
      assert mine == {};
    }
  }

  lemma CatchUpAnswered<D>(room: Room<D>, ws: Socket, from: int)
    ensures var rows := room.log.disk.rows;
            && (RowsAfter(rows, from) != [] <==> exists r :: r in rows && r.sequence > from)
            && var sent := Handle(room, ws, CatchUp(from)).sent;
               if RowsAfter(rows, from) == [] then sent == {}
               else exists only: Packet<D> :: only.to == ws && sent == {only}
  {
    var rows := room.log.disk.rows;
    forall r ensures r in RowsAfter(rows, from) <==> r in rows && r.sequence > from {
      RowsAfterMember(rows, from, r);
    }
    if RowsAfter(rows, from) != [] {
      assert RowsAfter(rows, from)[0] in RowsAfter(rows, from);
      var page := Page(rows, from, PAGE_LIMIT);
      assert Handle(room, ws, CatchUp(from)).sent == {Packet(ws, HistoryOf(page))};
    }
  }

  // ---------------------------------------------------------------- the log through the room

  /** The message describes the rows from position `at`: their number, their data in order, and the
      keys of the first and the last. They are the first above `from`, and all of them if fewer
      than a hundred. */
  predicate Describes<D(==)>(h: Outgoing<D>, rows: seq<Row<D>>, from: int, at: nat)
    requires h.History?
  {
    && h.count == |h.updates| > 0 && at + h.count <= |rows|
    && (forall i :: 0 <= i < h.count ==> h.updates[i] == rows[at + i].data)
    && h.fromSequence == rows[at].sequence > from
    && h.toSequence == rows[at + h.count - 1].sequence
    && (at > 0 ==> rows[at - 1].sequence <= from)
    && (h.count < 100 ==> at + h.count == |rows|)
  }

  /** The header of a HISTORY describes its updates. */
  lemma HistoryDescribesUpdates<D>(room: Room<D>, ws: Socket, from: int, p: Packet<D>)
    requires Ordered(room.log.disk.rows)
    requires p in Handle(room, ws, CatchUp(from)).sent
    ensures p.to == ws && p.message.History?
    ensures exists at: nat :: Describes(p.message, room.log.disk.rows, from, at)
  {
    hide RowsAfter;
    var rows := room.log.disk.rows;
    var at := RowsAfterSuffix(rows, from);
    var page := Page(rows, from, PAGE_LIMIT);
    assert p == Packet(ws, HistoryOf(page));
    assert page == rows[at..at + |page|];
    forall i | 0 <= i < |page| ensures p.message.updates[i] == rows[at + i].data {
      assert page[i] == rows[at + i];
    }
    assert page[0] == rows[at] && page[|page| - 1] == rows[at + |page| - 1];
    assert Describes(p.message, rows, from, at);
  }

  /** A COMPACT replaces the rows up to its sequence by its snapshot, and tells nobody. */
  lemma CompactMessageReplaces<D>(room: Room<D>, ws: Socket, upTo: int, snapshot: D, r: Row<D>)
    requires WellFormed(room.log.disk)
    ensures var reply := Handle(room, ws, CompactRequest(upTo, snapshot));
            var rows := reply.room.log.disk.rows;
            && rows != [] && rows[|rows| - 1].data == snapshot && rows[|rows| - 1].isSnapshot
            && (r in rows[..|rows| - 1] <==> r in room.log.disk.rows && r.sequence > upTo)
            && reply == Reply(room.(log := reply.room.log), {})
  {
    CompactReplacesExactly(room.log, upTo, snapshot, r);
  }

  /** What the messages of a run bring to store, in order. */
  function Brought<D>(events: seq<Event<D>>): seq<D> {
    if events == [] then []
    else
      var e := events[0];
      (if e.Message? && (e.msg.Update? || e.msg.Snapshot?) then [e.msg.payload] else []) + Brought(events[1..])
  }

  predicate OnlyGrows<D>(events: seq<Event<D>>) {
    forall i :: 0 <= i < |events| ==>
      !events[i].ResetRequest? && !(events[i].Message? && events[i].msg.CompactRequest?)
  }

  lemma {:induction false} BroughtSplits<D>(events: seq<Event<D>>)
    requires events != []
    ensures Brought(events) == Brought(events[..1]) + Brought(events[1..])
  {
    assert events[..1][1..] == [];
  }

  lemma {:induction false} GrowsByOne<D>(room: Room<D>, e: Event<D>)
    requires OnlyGrows([e])
    ensures Payloads(React(room, e).log.disk.rows) == Payloads(room.log.disk.rows) + Brought([e])
  {
    assert [e][1..] == [];
    assert [e][0] == e;
  }

  lemma {:induction false} LogGrows<D>(room: Room<D>, events: seq<Event<D>>)
    requires OnlyGrows(events)
    ensures Payloads(ReactAll(room, events).log.disk.rows) == Payloads(room.log.disk.rows) + Brought(events)
    decreases |events|
  {
    if events != [] {
      hide React;
      assert events[..1] == [events[0]];
      GrowsByOne(room, events[0]);
      BroughtSplits(events);
      LogGrows(React(room, events[0]), events[1..]);
    }
  }

  /** After a reset the log holds what has been brought since, whatever it held before, through
      closes, reopenings, revocations and catch-ups. */
  lemma ResetForgetsTheLog<D>(room: Room<D>, events: seq<Event<D>>)
    requires OnlyGrows(events)
    ensures Payloads(ReactAll(room, [ResetRequest] + events).log.disk.rows) == Brought(events)
  {
    var after := React(room, ResetRequest);
    assert ([ResetRequest] + events)[1..] == events;
    LogGrows(after, events);
    ResetForgets(room.log, [], 0, 0);
    AfterClear(room.log, []);
    assert after.log.disk.rows == [];
  }

  /** After a reset, without a store, no CATCH_UP is answered; who is revoked, and who is
      registered, stays. */
  lemma ResetSilences<D>(room: Room<D>, ws: Socket, from: int, d: string)
    ensures var after := React(room, ResetRequest);
            && Handle(after, ws, CatchUp(from)).sent == {}
            && after.revoked == room.revoked && after.connections == room.connections
            && after.closing == room.closing
  {
    ResetForgets(room.log, [], from, PAGE_LIMIT);
    AfterClear(room.log, []);
  }
}
