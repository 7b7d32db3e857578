/** The relay and its clients as one distributed system. */
module RelaySystem {
  // An update is a set of CRDT operations and merging is union. The relay handles messages with
  // RelayRoom.Handle. The network never forgets a packet, so every packet may arrive late, out
  // of order, again, or never. A client's position moves only to the toSequence of a HISTORY it
  // receives, and a COMPACT carries its sender's own state and at most its own position.

  import opened RelayLog
  import opened RelayRoom

  /** One CRDT operation, named by the peer that made it and that peer's counter. */
  datatype Op = Op(peer: nat, counter: nat)

  datatype Client = Client(known: set<Op>, position: nat)

  datatype Envelope =
    | Up(ws: Socket, msg: Incoming<set<Op>>)
    | Down(packet: Packet<set<Op>>)

  /** `stored` remembers every operation the relay was ever given to store. */
  datatype System = System(
    room: Room<set<Op>>,
    clients: map<nat, Client>,
    net: set<Envelope>,
    stored: set<Op>)

  datatype Step =
    | Join(client: nat)
    | Edit(client: nat, ops: set<Op>)
    | Send(ws: Socket, msg: Incoming<set<Op>>)
    | RelayHandles(ws: Socket, msg: Incoming<set<Op>>)
    | ClientReceives(packet: Packet<set<Op>>)
    | ConnectionCloses(ws: Socket)
    | RoomReopens

  const INITIAL: System := System(Room(Log(Disk([], 0), 0), map[], map[], {}), map[], {}, {})

  // ---------------------------------------------------------------- steps

  /** What a client may send: its own operations, its own position, its own state. */
  predicate MaySend(client: Client, msg: Incoming<set<Op>>) {
    match msg
    case Update(ops) => ops <= client.known
    case Snapshot(ops) => ops <= client.known
    case CatchUp(from) => from == client.position
    case CompactRequest(upTo, snapshot) => upTo <= client.position && snapshot == client.known
    case _ => true
  }

  predicate Enabled(s: System, step: Step) {
    match step
    case Join(c) => c !in s.clients
    case Edit(c, _) => c in s.clients
    case Send(ws, msg) => ws.owner in s.clients && MaySend(s.clients[ws.owner], msg)
    case RelayHandles(ws, msg) => Up(ws, msg) in s.net
    case ClientReceives(packet) => Down(packet) in s.net && packet.to.owner in s.clients
    case ConnectionCloses(_) => true
    case RoomReopens => true
  }

  function OpsStored(msg: Incoming<set<Op>>): set<Op> {
    match msg
    case Update(ops) => ops
    case Snapshot(ops) => ops
    case CompactRequest(_, snapshot) => snapshot
    case _ => {}
  }

  function Receive(client: Client, message: Outgoing<set<Op>>): Client {
    match message
    case Relayed(ops, _) => client.(known := client.known + ops)
    case History(_, _, toSequence, updates) => Client(client.known + Union(updates), toSequence)
    case _ => client
  }

  function Next(s: System, step: Step): System
    requires Enabled(s, step)
  {
    match step
    case Join(c) => s.(clients := s.clients[c := Client({}, 0)])
    case Edit(c, ops) => s.(clients := s.clients[c := s.clients[c].(known := s.clients[c].known + ops)])
    case Send(ws, msg) => s.(net := s.net + {Up(ws, msg)})
    case RelayHandles(ws, msg) =>
      var reply := Handle(s.room, ws, msg);
      s.(room := reply.room,
         net := s.net + set p | p in reply.sent :: Down(p),
         stored := s.stored + OpsStored(msg))
    case ClientReceives(packet) =>
      s.(clients := s.clients[packet.to.owner := Receive(s.clients[packet.to.owner], packet.message)])
    case ConnectionCloses(ws) => s.(room := HandleClose(s.room, ws))
    case RoomReopens => s.(room := Reopen(s.room))
  }

  predicate IsRun(s: System, steps: seq<Step>)
    decreases |steps|
  {
    steps == [] || (Enabled(s, steps[0]) && IsRun(Next(s, steps[0]), steps[1..]))
  }

  function Final(s: System, steps: seq<Step>): System
    requires IsRun(s, steps)
    decreases |steps|
  {
    if steps == [] then s else Final(Next(s, steps[0]), steps[1..])
  }

  // ---------------------------------------------------------------- coverage

  function Union(updates: seq<set<Op>>): set<Op> {
    if updates == [] then {} else updates[0] + Union(updates[1..])
  }

  function RowOps(rows: seq<Row<set<Op>>>): set<Op> {
    if rows == [] then {} else rows[0].data + RowOps(rows[1..])
  }

  /** Knowing `known` and reading the rows above `position` gives every stored operation. */
  predicate Covers(log: Log<set<Op>>, stored: set<Op>, known: set<Op>, position: int) {
    && position <= log.disk.lastRowId
    && stored <= known + RowOps(RowsAfter(log.disk.rows, position))
  }

  lemma {:induction false} RowOpsAppend(a: seq<Row<set<Op>>>, b: seq<Row<set<Op>>>)
    ensures RowOps(a + b) == RowOps(a) + RowOps(b)
  {
    if a == [] {
      assert a + b == b;
    } else {
      assert (a + b)[1..] == a[1..] + b;
      RowOpsAppend(a[1..], b);
    }
  }

  lemma {:induction false} PayloadOps(page: seq<Row<set<Op>>>)
    ensures Union(Payloads(page)) == RowOps(page)
  {
    if page != [] {
      assert Payloads(page)[1..] == Payloads(page[1..]);
      PayloadOps(page[1..]);
    }
  }

  /** The rows above a position, once a row has been written behind them. */
  lemma RowsAfterStore(disk: Disk<set<Op>>, ops: set<Op>, isSnapshot: bool, position: int)
    requires position <= disk.lastRowId
    ensures RowOps(RowsAfter(Insert(disk, ops, isSnapshot).rows, position))
            == RowOps(RowsAfter(disk.rows, position)) + ops
  {
    var row := Row(disk.lastRowId + 1, ops, isSnapshot);
    RowsAfterAppend(disk.rows, [row], position);
    assert RowsAfter([row], position) == [row] by {
      assert RowsAfter([row][1..], position) == [];
    }
    assert RowOps([row]) == ops by {
      assert RowOps([row][1..]) == {};
    }
    RowOpsAppend(RowsAfter(disk.rows, position), [row]);
  }

  lemma StoreKeepsCover(log: Log<set<Op>>, stored: set<Op>, ops: set<Op>, isSnapshot: bool,
                        known: set<Op>, position: int)
    requires Covers(log, stored, known, position)
    ensures Covers(Store(log, ops, isSnapshot), stored + ops, known, position)
  {
    RowsAfterStore(log.disk, ops, isSnapshot, position);
  }

  lemma {:induction false} RowOpsMonotone(rows: seq<Row<set<Op>>>, j: int, k: int)
    requires j <= k
    ensures RowOps(RowsAfter(rows, k)) <= RowOps(RowsAfter(rows, j))
  {
    if rows != [] {
      RowOpsMonotone(rows[1..], j, k);
      assert forall i :: ([rows[0]] + RowsAfter(rows[1..], i))[1..] == RowsAfter(rows[1..], i);
    }
  }

  /** The heart of the matter. A compaction deletes rows that other clients have not read and
      puts its snapshot at the END of the log under a fresh key. It keeps every other claim of
      coverage, because the snapshot's own claim pays for the rows that go. */
  lemma CompactKeepsCover(log: Log<set<Op>>, stored: set<Op>, upTo: int, snapshot: set<Op>,
                          known: set<Op>, position: int)
    requires Covers(log, stored, snapshot, upTo)
    requires Covers(log, stored, known, position)
    ensures Covers(Compact(log, upTo, snapshot), stored + snapshot, known, position)
  {
    var kept := log.disk.(rows := RowsAfter(log.disk.rows, upTo));
    RowsAfterTwice(log.disk.rows, upTo, position);
    RowsAfterStore(kept, snapshot, true, position);
    if position <= upTo {
      assert stored <= snapshot + RowOps(kept.rows);
    } else {
      assert RowsAfter(kept.rows, position) == RowsAfter(log.disk.rows, position);
    }
  }

  /** Reading a page moves a claim of coverage from the page's start to its last key. */
  lemma PageMovesCover(log: Log<set<Op>>, stored: set<Op>, known: set<Op>, position: int)
    requires WellFormed(log.disk) && Covers(log, stored, known, position)
    requires Page(log.disk.rows, position, PAGE_LIMIT) != []
    ensures var page := Page(log.disk.rows, position, PAGE_LIMIT);
            Covers(log, stored, known + Union(Payloads(page)), LargestKey(page))
  {
    var page := Page(log.disk.rows, position, PAGE_LIMIT);
    PageThenRest(log.disk.rows, position, PAGE_LIMIT);
    RowOpsAppend(page, RowsAfter(log.disk.rows, LargestKey(page)));
    PayloadOps(page);
    RowsAfterMember(log.disk.rows, position, page[|page| - 1]);
    assert page[|page| - 1] in RowsAfter(log.disk.rows, position);
  }

  // ---------------------------------------------------------------- invariant

  /** The claim of coverage that a packet in flight carries. */
  predicate PacketCovers(s: System, e: Envelope) {
    match e
    case Up(ws, msg) => (
      match msg
      case CatchUp(from) => ws.owner in s.clients && Covers(s.room.log, s.stored, s.clients[ws.owner].known, from)
      case CompactRequest(upTo, snapshot) => Covers(s.room.log, s.stored, snapshot, upTo)
      case _ => true)
    case Down(packet) => (
      packet.message.History? ==>
        && packet.to.owner in s.clients
        && Covers(s.room.log, s.stored,
                  s.clients[packet.to.owner].known + Union(packet.message.updates), packet.message.toSequence))
  }

  predicate ClientCovers(s: System, c: nat)
    requires c in s.clients
  {
    Covers(s.room.log, s.stored, s.clients[c].known, s.clients[c].position)
  }

  ghost predicate Invariant(s: System) {
    && Synced(s.room.log)
    && Covers(s.room.log, s.stored, {}, 0)
    && (forall c :: c in s.clients ==> ClientCovers(s, c))
    && (forall e :: e in s.net ==> PacketCovers(s, e))
  }

  /** Steps that leave the relay's log alone and only let clients learn. */
  lemma LearningKeepsPackets(s: System, t: System)
    requires Invariant(s)
    requires t.room.log == s.room.log && t.stored == s.stored
    requires forall c :: c in s.clients ==> c in t.clients && s.clients[c].known <= t.clients[c].known
    ensures forall e :: e in s.net ==> PacketCovers(t, e)
  {
    forall e | e in s.net ensures PacketCovers(t, e) {
      assert PacketCovers(s, e);
    }
  }

  lemma LogChangeKeepsInvariant(s: System, t: System, msg: Incoming<set<Op>>)
    requires Invariant(s)
    requires msg.Update? || msg.Snapshot? || msg.CompactRequest?
    requires msg.CompactRequest? ==> Covers(s.room.log, s.stored, msg.snapshot, msg.upToSequence)
    requires t.clients == s.clients && t.stored == s.stored + OpsStored(msg)
    requires t.room.log == Handle(s.room, Socket(0, 0), msg).room.log
    requires forall e :: e in t.net ==> e in s.net || (e.Down? && e.packet.message.Relayed?)
    ensures Invariant(t)
  {
    forall known, position | Covers(s.room.log, s.stored, known, position)
      ensures Covers(t.room.log, t.stored, known, position)
    {
      match msg
      case Update(ops) => StoreKeepsCover(s.room.log, s.stored, ops, false, known, position);
      case Snapshot(ops) => StoreKeepsCover(s.room.log, s.stored, ops, true, known, position);
      case CompactRequest(upTo, snapshot) => CompactKeepsCover(s.room.log, s.stored, upTo, snapshot, known, position);
    }
    assert Synced(t.room.log) by {
      match msg
      case Update(ops) => StoreReturnsKey(s.room.log, ops, false);
      case Snapshot(ops) => StoreReturnsKey(s.room.log, ops, true);
      case CompactRequest(upTo, snapshot) => CompactSynced(s.room.log, upTo, snapshot);
    }
    forall c | c in t.clients ensures ClientCovers(t, c) {
      assert ClientCovers(s, c);
    }
    forall e | e in t.net ensures PacketCovers(t, e) {
      if e in s.net { assert PacketCovers(s, e); }
    }
  }

  /** Messages that do not change the log: only the answer to a CATCH_UP makes a claim. */
  lemma AnswerKeepsInvariant(s: System, ws: Socket, msg: Incoming<set<Op>>)
    requires Invariant(s) && Up(ws, msg) in s.net
    requires !msg.Update? && !msg.Snapshot? && !msg.CompactRequest?
    ensures Invariant(Next(s, RelayHandles(ws, msg)))
  {
    hide Covers;
    var t := Next(s, RelayHandles(ws, msg));
    assert PacketCovers(s, Up(ws, msg));
    LearningKeepsPackets(s, t);
    if msg.CatchUp? && Page(s.room.log.disk.rows, msg.fromSequence, PAGE_LIMIT) != [] {
      PageMovesCover(s.room.log, s.stored, s.clients[ws.owner].known, msg.fromSequence);
    }
    forall c | c in t.clients ensures ClientCovers(t, c) {
      assert ClientCovers(s, c);
    }
  }

  lemma RelayKeepsInvariant(s: System, ws: Socket, msg: Incoming<set<Op>>)
    requires Invariant(s) && Up(ws, msg) in s.net
    ensures Invariant(Next(s, RelayHandles(ws, msg)))
  {
    if msg.Update? || msg.Snapshot? || msg.CompactRequest? {
      assert PacketCovers(s, Up(ws, msg));
      LogChangeKeepsInvariant(s, Next(s, RelayHandles(ws, msg)), msg);
    } else {
      AnswerKeepsInvariant(s, ws, msg);
    }
  }

  lemma StepKeepsInvariant(s: System, step: Step)
    requires Invariant(s) && Enabled(s, step)
    ensures Invariant(Next(s, step))
  {
    var t := Next(s, step);
    if step.RelayHandles? {
      RelayKeepsInvariant(s, step.ws, step.msg);
    } else {
      if step.RoomReopens? { ReopenIdentity(s.room.log); }
      LearningKeepsPackets(s, t);
      if step.ClientReceives? { assert PacketCovers(s, Down(step.packet)); }
      if step.Send? {
        assert ClientCovers(s, step.ws.owner);
        if step.msg.CompactRequest? {
          RowOpsMonotone(s.room.log.disk.rows, step.msg.upToSequence, s.clients[step.ws.owner].position);
        }
      }
      forall c | c in t.clients ensures ClientCovers(t, c) {
        if c in s.clients { assert ClientCovers(s, c); }
      }
      forall e | e in t.net ensures PacketCovers(t, e) {
        assert e in s.net || (step.Send? && e == Up(step.ws, step.msg));
      }
    }
  }

  lemma InitialInvariant()
    ensures Invariant(INITIAL)
  {
  }

  lemma {:induction false} RunKeepsInvariant(s: System, steps: seq<Step>)
    requires Invariant(s) && IsRun(s, steps)
    ensures Invariant(Final(s, steps))
    decreases |steps|
  {
    if steps != [] {
      StepKeepsInvariant(s, steps[0]);
      RunKeepsInvariant(Next(s, steps[0]), steps[1..]);
    }
  }

  // ---------------------------------------------------------------- main results

  /** In every run, with any number of clients, what a client knows joined with the rows above
      its position is everything ever stored; and the log alone serves a client that is new. */
  lemma NothingIsEverLost(steps: seq<Step>)
    requires IsRun(INITIAL, steps)
    ensures var s := Final(INITIAL, steps);
            && Synced(s.room.log)
            && s.stored <= RowOps(s.room.log.disk.rows)
            && (forall c :: c in s.clients ==>
                  s.stored <= s.clients[c].known + RowOps(RowsAfter(s.room.log.disk.rows, s.clients[c].position)))
            && (forall c :: c in s.clients && s.clients[c].position == s.room.log.currentSequence ==>
                  s.stored <= s.clients[c].known)
  {
    InitialInvariant();
    RunKeepsInvariant(INITIAL, steps);
    var s := Final(INITIAL, steps);
    RowsAfterEnds(s.room.log.disk, 0);
    forall c | c in s.clients
      ensures s.stored <= s.clients[c].known + RowOps(RowsAfter(s.room.log.disk.rows, s.clients[c].position))
      ensures s.clients[c].position == s.room.log.currentSequence ==> s.stored <= s.clients[c].known
    {
      assert ClientCovers(s, c);
      RowsAfterEnds(s.room.log.disk, s.clients[c].position);
    }
  }

  /** An update also reaches every other registered connection directly: the relay sends it one
      packet, that packet brings its client the operations, and the sender gets none back. */
  lemma UpdateReachesOthers(s: System, ws: Socket, ops: set<Op>, other: Socket)
    requires Enabled(s, RelayHandles(ws, Update(ops)))
    requires other in s.room.connections && other != ws && other.owner in s.clients
    ensures var t := Next(s, RelayHandles(ws, Update(ops)));
            var packet := Packet(other, Relayed(ops, false));
            && Enabled(t, ClientReceives(packet))
            && ops <= Next(t, ClientReceives(packet)).clients[other.owner].known
            && ops <= t.stored && ops <= RowOps(t.room.log.disk.rows)
            && forall p :: p in Handle(s.room, ws, Update(ops)).sent ==> p.to != ws
  {
    var packet := Packet(other, Relayed(ops, false));
    assert packet in Handle(s.room, ws, Update(ops)).sent;
    RowOpsAppend(s.room.log.disk.rows, [Row(s.room.log.disk.lastRowId + 1, ops, false)]);
    assert RowOps([Row(s.room.log.disk.lastRowId + 1, ops, false)][1..]) == {};
  }

  /** A round of catching up: the request, the relay's answer, and its arrival. */
  function Round(ws: Socket, from: nat, page: seq<Row<set<Op>>>): seq<Step>
    requires page != []
  {
    [Send(ws, CatchUp(from)), RelayHandles(ws, CatchUp(from)), ClientReceives(Packet(ws, HistoryOf(page)))]
  }

  lemma RoundRuns(s: System, c: nat)
    requires Invariant(s) && c in s.clients
    requires Page(s.room.log.disk.rows, s.clients[c].position, PAGE_LIMIT) != []
    ensures var page := Page(s.room.log.disk.rows, s.clients[c].position, PAGE_LIMIT);
            var steps := Round(Socket(c, 0), s.clients[c].position, page);
            && IsRun(s, steps)
            && Final(s, steps).room == s.room && Final(s, steps).stored == s.stored
            && Final(s, steps).clients == s.clients[c := Client(s.clients[c].known + RowOps(page), LargestKey(page))]
  {
    hide RowsAfter, Covers;
    var from := s.clients[c].position;
    var page := Page(s.room.log.disk.rows, from, PAGE_LIMIT);
    var ws, packet := Socket(c, 0), Packet(Socket(c, 0), HistoryOf(page));
    var a, b, d := Send(ws, CatchUp(from)), RelayHandles(ws, CatchUp(from)), ClientReceives(packet);
    var s1 := Next(s, a);
    assert Handle(s1.room, ws, CatchUp(from)) == Reply(s1.room, {packet});
    var s2 := Next(s1, b);
    assert Down(packet) in s2.net;
    var s3 := Next(s2, d);
    PayloadOps(page);
    ThreeSteps(s, a, b, d);
  }

  lemma StepThenRun(s: System, step: Step, rest: seq<Step>)
    requires Enabled(s, step) && IsRun(Next(s, step), rest)
    ensures IsRun(s, [step] + rest) && Final(s, [step] + rest) == Final(Next(s, step), rest)
  {
    assert ([step] + rest)[1..] == rest;
  }

  lemma ThreeSteps(s: System, a: Step, b: Step, d: Step)
    requires Enabled(s, a) && Enabled(Next(s, a), b) && Enabled(Next(Next(s, a), b), d)
    ensures IsRun(s, [a, b, d]) && Final(s, [a, b, d]) == Next(Next(Next(s, a), b), d)
  {
    StepThenRun(Next(Next(s, a), b), d, []);
    StepThenRun(Next(s, a), b, [d]);
    StepThenRun(s, a, [b, d]);
    assert [d] + [] == [d] && [b] + [d] == [b, d] && [a] + [b, d] == [a, b, d];
  }

  lemma {:induction false} RunThenRun(s: System, a: seq<Step>, b: seq<Step>)
    requires IsRun(s, a) && IsRun(Final(s, a), b)
    ensures IsRun(s, a + b) && Final(s, a + b) == Final(Final(s, a), b)
    decreases |a|
  {
    if a == [] {
      assert a + b == b;
    } else {
      assert (a + b)[1..] == a[1..] + b;
      RunThenRun(Next(s, a[0]), a[1..], b);
    }
  }

  /** Steps of catching up by client c and of nobody else. */
  predicate CatchUpStep(step: Step, c: nat) {
    match step
    case Send(ws, msg) => ws.owner == c && msg.CatchUp?
    case RelayHandles(ws, msg) => ws.owner == c && msg.CatchUp?
    case ClientReceives(packet) => packet.to.owner == c && packet.message.History?
    case _ => false
  }

  lemma NothingLeft(log: Log<set<Op>>, from: nat)
    requires Synced(log) && from <= log.disk.lastRowId && Page(log.disk.rows, from, PAGE_LIMIT) == []
    ensures from == log.currentSequence && RowOps(RowsAfter(log.disk.rows, from)) == {}
  {
    var rows := log.disk.rows;
    var cut := RowsAfterSuffix(rows, from);
    assert rows != [] ==> rows[|rows| - 1].sequence <= from;
  }

  /** Round after round, each with fewer rows left. */
  lemma {:induction false} CatchUpRounds(s: System, c: nat) returns (steps: seq<Step>)
    requires Invariant(s) && c in s.clients
    ensures IsRun(s, steps) && forall step :: step in steps ==> CatchUpStep(step, c)
    ensures var t := Final(s, steps);
            && t.room == s.room && t.stored == s.stored && c in t.clients
            && t.clients[c].position == s.room.log.currentSequence
            && s.stored <= t.clients[c].known
    decreases |RowsAfter(s.room.log.disk.rows, s.clients[c].position)|
  {
    hide RowsAfter, RowOps, Next, Enabled, PacketCovers;
    var rows, from := s.room.log.disk.rows, s.clients[c].position;
    var page := Page(rows, from, PAGE_LIMIT);
    assert ClientCovers(s, c);
    if page == [] {
      steps := [];
      NothingLeft(s.room.log, from);
    } else {
      var round := Round(Socket(c, 0), from, page);
      RoundRuns(s, c);
      PageThenRest(rows, from, PAGE_LIMIT);
      RunKeepsInvariant(s, round);
      var rest := CatchUpRounds(Final(s, round), c);
      RunThenRun(s, round, rest);
      steps := round + rest;
    }
  }

  /** From any state of any run a client can catch up by itself: there is a continuation, of its
      own CATCH_UP requests and the answers to them alone, that brings it to currentSequence and
      to everything stored. What it reads on the way are the pages of the log. */
  lemma RepeatedCatchUpCompletes(steps: seq<Step>, c: nat)
    requires IsRun(INITIAL, steps) && c in Final(INITIAL, steps).clients
    ensures var s := Final(INITIAL, steps);
            && Ordered(s.room.log.disk.rows)
            && s.stored <= s.clients[c].known
                           + RowOps(Concat(Pages(s.room.log.disk.rows, s.clients[c].position)))
    ensures var s := Final(INITIAL, steps);
            exists more ::
              && IsRun(s, more)
              && (forall step :: step in more ==> CatchUpStep(step, c))
              && c in Final(s, more).clients
              && Final(s, more).room == s.room
              && Final(s, more).clients[c].position == s.room.log.currentSequence
              && s.stored <= Final(s, more).clients[c].known
  {
    NothingIsEverLost(steps);
    var s := Final(INITIAL, steps);
    PagingComplete(s.room.log.disk.rows, s.clients[c].position);
    InitialInvariant();
    RunKeepsInvariant(INITIAL, steps);
    var more := CatchUpRounds(s, c);
  }

  lemma {:induction false} RowOpsPrefix(rows: seq<Row<set<Op>>>, n: nat)
    requires n <= |rows|
    ensures RowOps(rows[..n]) <= RowOps(rows)
  {
    assert rows == rows[..n] + rows[n..];
    RowOpsAppend(rows[..n], rows[n..]);
  }

  /** The simpler invariant "a client at position p has every operation whose row had a key up
      to p" is false. Compact the rows up to `upTo` while a full page of rows lies above it: a
      client that starts afresh and reads one page is then past `upTo` and still knows nothing
      that was stored only there, because the snapshot waits at the end of the log. */
  lemma MidPagingClientLacksOldRows(log: Log<set<Op>>, upTo: nat, snapshot: set<Op>, op: Op)
    requires Synced(log)
    requires op in RowOps(log.disk.rows) && op !in RowOps(RowsAfter(log.disk.rows, upTo))
    requires |RowsAfter(log.disk.rows, upTo)| >= PAGE_LIMIT
    ensures var page := Page(Compact(log, upTo, snapshot).disk.rows, 0, PAGE_LIMIT);
            && page != []
            && LargestKey(page) > upTo
            && op !in Union(Payloads(page))
  {
    var kept := RowsAfter(log.disk.rows, upTo);
    var row := Row(log.disk.lastRowId + 1, snapshot, true);
    var page := Page(kept + [row], 0, PAGE_LIMIT);
    RowsAfterWellFormed(log.disk, upTo);
    CompactSynced(log, upTo, snapshot);
    RowsAfterEnds(Compact(log, upTo, snapshot).disk, 0);
    assert page == kept[..PAGE_LIMIT];
    RowOpsPrefix(kept, PAGE_LIMIT);
    PayloadOps(page);
    RowsAfterMember(log.disk.rows, upTo, page[|page| - 1]);
    assert page[|page| - 1] in kept;
  }
}
