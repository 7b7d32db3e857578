/** The sync client the application ships (src/lib/sync/client.ts), against the relay's log. */
module SyncClient {
  // It differs from the clients of RelaySystem in two ways. It moves its position to the ACK's
  // currentSequence at once, before the HISTORY it asks for has come; and it asks only once, so
  // it reads one page per connection. The position lives as long as the client object; a restarted
  // application begins at 0. This module proves exactly when that costs something.

  import opened Wrappers
  import opened RelayLog
  import opened RelayRoom
  import opened RelaySystem

  // ---------------------------------------------------------------- the object

  class ShippedClient {
    var known: set<Op>
    var lastSequence: nat

    ghost function State(): Client reads this { Client(known, lastSequence) }

    /** The reply to HELLO. `request` is the fromSequence of the CATCH_UP it sends, if any. */
    method HandleAck(rejected: bool, currentSequence: Option<nat>, hasHistory: bool) returns (request: Option<nat>)
      modifies this`lastSequence
      ensures rejected || currentSequence.None? ==> request == None && lastSequence == old(lastSequence)
      ensures !rejected && currentSequence.Some? ==>
                && State() == AfterAck(old(State()), currentSequence.value)
                && request == if hasHistory && old(lastSequence) < currentSequence.value
                              then Some(old(lastSequence)) else None
    {
      request := None;
      if rejected {
        return;
      }
      if currentSequence.Some? {
        if hasHistory && lastSequence < currentSequence.value {
          request := Some(lastSequence);
        }
        lastSequence := currentSequence.value;
      }
    }

    /** `None` stands for an update that does not decrypt: it is skipped, and the position
        moves past it all the same. */
    method HandleHistory(toSequence: nat, updates: seq<Option<set<Op>>>)
      modifies this
      ensures lastSequence == toSequence
      ensures known == old(known) + Readable(updates)
    {
      var i := 0;
      while i < |updates|
        invariant i <= |updates|
        invariant known + Readable(updates[i..]) == old(known) + Readable(updates)
      {
        assert updates[i..][1..] == updates[i + 1..];
        if updates[i].Some? {
          known := known + updates[i].value;
        }
        i := i + 1;
      }
      assert updates[i..] == [];
      lastSequence := toSequence;
    }
  }

  function Readable(updates: seq<Option<set<Op>>>): set<Op> {
    if updates == [] then {}
    else (if updates[0].Some? then updates[0].value else {}) + Readable(updates[1..])
  }

  /** What is merged is exactly what some update that decrypts holds: one that does not is skipped,
      and those after it are not. */
  lemma {:induction false} ReadableExactly(updates: seq<Option<set<Op>>>, op: Op)
    ensures op in Readable(updates) <==> exists i :: 0 <= i < |updates| && updates[i].Some? && op in updates[i].value
  {
    if updates != [] {
      ReadableExactly(updates[1..], op);
      assert forall i :: 0 < i < |updates| ==> updates[i] == updates[1..][i - 1];
    }
  }

  /** When everything decrypts, a HISTORY does what RelaySystem says a HISTORY does. */
  lemma {:induction false} ReadableAll(updates: seq<set<Op>>)
    ensures Readable(seq(|updates|, i requires 0 <= i < |updates| => Some(updates[i]))) == Union(updates)
  {
    if updates != [] {
      ReadableAll(updates[1..]);
      assert seq(|updates|, i requires 0 <= i < |updates| => Some(updates[i]))[1..]
          == seq(|updates[1..]|, i requires 0 <= i < |updates[1..]| => Some(updates[1..][i]));
    }
  }

  // ---------------------------------------------------------------- one connection

  function AfterAck(client: Client, currentSequence: nat): Client {
    client.(position := currentSequence)
  }

  /** HELLO, ACK, and the one CATCH_UP: its HISTORY is delivered, or the connection drops. */
  function Connect(log: Log<set<Op>>, client: Client, delivered: bool): Client {
    var acked := AfterAck(client, log.currentSequence);
    var page := Page(log.disk.rows, client.position, PAGE_LIMIT);
    if HasHistory(log, client.position) && delivered && page != []
    then Receive(acked, HistoryOf(page))
    else acked
  }

  /** What the relay's runs keep (RelaySystem), for a client that is where it says it is. */
  predicate Honest(log: Log<set<Op>>, stored: set<Op>, client: Client) {
    && Synced(log)
    && RowOps(log.disk.rows) <= stored
    && Covers(log, stored, client.known, client.position)
  }

  lemma {:induction false} SelectedOps(rows: seq<Row<set<Op>>>, k: int)
    ensures RowOps(RowsAfter(rows, k)) <= RowOps(rows)
  {
    if rows != [] {
      SelectedOps(rows[1..], k);
      assert ([rows[0]] + RowsAfter(rows[1..], k))[1..] == RowsAfter(rows[1..], k);
    }
  }

  /** Between the ACK and the HISTORY the client's position is honest if and only if there was
      nothing in the rows above its old position that it did not know already. */
  lemma AckKeepsCoverExactly(log: Log<set<Op>>, stored: set<Op>, client: Client)
    requires Honest(log, stored, client)
    ensures Honest(log, stored, AfterAck(client, log.currentSequence))
            <==> RowOps(RowsAfter(log.disk.rows, client.position)) <= client.known
  {
    SelectedOps(log.disk.rows, client.position);
    RowsAfterEnds(log.disk, log.currentSequence);
  }

  /** If the HISTORY arrives the position is honest again: it falls back to the page's end. */
  lemma DeliveredConnectIsHonest(log: Log<set<Op>>, stored: set<Op>, client: Client)
    requires Honest(log, stored, client)
    ensures Honest(log, stored, Connect(log, client, true))
    ensures client.position <= Connect(log, client, true).position <= log.currentSequence
  {
    HasHistoryExact(log, client.position);
    if HasHistory(log, client.position) {
      PageMovesCover(log, stored, client.known, client.position);
      PageThenRest(log.disk.rows, client.position, PAGE_LIMIT);
    }
  }

  /** One connection brings the client up to date if and only if it knows the rows left above
      the page; with at most 100 rows above its position there are none. */
  lemma OneConnectCompletesExactly(log: Log<set<Op>>, stored: set<Op>, client: Client)
    requires Honest(log, stored, client)
    ensures var after := Connect(log, client, true);
            && (stored <= after.known
                <==> RowOps(RowsAfter(log.disk.rows, after.position)) <= after.known)
            && (after.position == log.currentSequence
                <==> |RowsAfter(log.disk.rows, client.position)| <= 100)
            && (|RowsAfter(log.disk.rows, client.position)| <= 100 ==> stored <= after.known)
  {
    var after := Connect(log, client, true);
    var rows := log.disk.rows;
    DeliveredConnectIsHonest(log, stored, client);
    SelectedOps(rows, after.position);
    HasHistoryExact(log, client.position);
    RowsAfterEnds(log.disk, log.currentSequence);
    if HasHistory(log, client.position) {
      PageThenRest(rows, client.position, PAGE_LIMIT);
      var cut := RowsAfterSuffix(rows, after.position);
      assert cut < |rows| ==> rows[|rows| - 1].sequence > after.position;
      assert cut == |rows| ==> rows[|rows| - 1].sequence <= after.position;
      assert after.position == log.currentSequence <==> RowsAfter(rows, after.position) == [];
    }
  }

  // ---------------------------------------------------------------- the dropped history

  datatype Happening =
    | Stored(ops: set<Op>)
    | Compacted(upTo: int, snapshot: set<Op>)
    | Connected(delivered: bool)

  /** Does it put op into the log once more? */
  predicate Brings(h: Happening, op: Op) {
    match h
    case Stored(ops) => op in ops
    case Compacted(_, snapshot) => op in snapshot
    case Connected(_) => false
  }

  function Live(log: Log<set<Op>>, client: Client, happenings: seq<Happening>): (Log<set<Op>>, Client)
    decreases |happenings|
  {
    if happenings == [] then (log, client)
    else match happenings[0]
      case Stored(ops) => Live(Store(log, ops, false), client, happenings[1..])
      case Compacted(upTo, snapshot) => Live(Compact(log, upTo, snapshot), client, happenings[1..])
      case Connected(delivered) => Live(log, Connect(log, client, delivered), happenings[1..])
  }

  /** Above any position a compaction adds no more than its snapshot. */
  lemma CompactBringsOnlySnapshot(log: Log<set<Op>>, upTo: int, snapshot: set<Op>, position: int)
    requires WellFormed(log.disk) && position <= log.disk.lastRowId
    ensures RowOps(RowsAfter(Compact(log, upTo, snapshot).disk.rows, position))
            <= RowOps(RowsAfter(log.disk.rows, position)) + snapshot
  {
    RowsAfterTwice(log.disk.rows, upTo, position);
    RowOpsMonotone(log.disk.rows, position, if upTo < position then position else upTo);
    RowsAfterStore(log.disk.(rows := RowsAfter(log.disk.rows, upTo)), snapshot, true, position);
  }

  lemma {:induction false} NeverFetched(log: Log<set<Op>>, client: Client, op: Op, happenings: seq<Happening>)
    requires Synced(log)
    requires op !in client.known && op !in RowOps(RowsAfter(log.disk.rows, client.position))
    requires client.position <= log.currentSequence
    requires forall h :: h in happenings ==> !Brings(h, op)
    ensures op !in Live(log, client, happenings).1.known
    decreases |happenings|
  {
    if happenings != [] {
      assert happenings[0] in happenings;
      match happenings[0] {
        case Stored(ops) =>
          StoreReturnsKey(log, ops, false);
          RowsAfterStore(log.disk, ops, false, client.position);
          NeverFetched(Store(log, ops, false), client, op, happenings[1..]);
        case Compacted(upTo, snapshot) =>
          CompactSynced(log, upTo, snapshot);
          CompactBringsOnlySnapshot(log, upTo, snapshot, client.position);
          NeverFetched(Compact(log, upTo, snapshot), client, op, happenings[1..]);
        case Connected(delivered) =>
          var rows := log.disk.rows;
          var after := Connect(log, client, delivered);
          HasHistoryExact(log, client.position);
          RowsAfterEnds(log.disk, log.currentSequence);
          if HasHistory(log, client.position) && delivered {
            PageThenRest(rows, client.position, PAGE_LIMIT);
            var page := Page(rows, client.position, PAGE_LIMIT);
            RowOpsAppend(page, RowsAfter(rows, LargestKey(page)));
            PayloadOps(page);
            RowsAfterMember(rows, client.position, page[|page| - 1]);
            assert page[|page| - 1] in RowsAfter(rows, client.position);
          }
          NeverFetched(log, after, op, happenings[1..]);
      }
    }
  }

  /** When the connection drops between the ACK and its HISTORY, an operation the client did
      not know stays unknown through every later connection, however well those go and whatever
      is stored or compacted after, unless an update or a snapshot brings it once more. */
  lemma DroppedHistoryIsNeverFetched(log: Log<set<Op>>, client: Client, op: Op, happenings: seq<Happening>)
    requires Synced(log) && op !in client.known
    requires forall h :: h in happenings ==> !Brings(h, op)
    ensures op !in Live(log, client, [Connected(false)] + happenings).1.known
  {
    assert ([Connected(false)] + happenings)[1..] == happenings;
    RowsAfterEnds(log.disk, log.currentSequence);
    NeverFetched(log, Connect(log, client, false), op, happenings);
  }

  /** A compaction sent inside that window, with the client's own state and its own position,
      keeps everything for the others if and only if the sender knew everything itself. */
  lemma CompactBeforeHistoryExactly(log: Log<set<Op>>, stored: set<Op>, client: Client)
    requires Honest(log, stored, client) && client.known <= stored
    ensures var acked := AfterAck(client, log.currentSequence);
            stored <= RowOps(Compact(log, acked.position, acked.known).disk.rows) <==> stored <= client.known
  {
    RowsAfterEnds(log.disk, log.currentSequence);
    var rows := Compact(log, log.currentSequence, client.known).disk.rows;
    assert rows == [Row(log.disk.lastRowId + 1, client.known, true)];
    assert RowOps(rows[1..]) == {};
  }
}
