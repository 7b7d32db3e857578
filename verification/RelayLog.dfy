/** The relay's per-user update log (sync-relay/src/storage.ts). */
module RelayLog {
  // The `updates` table is the sequence of its rows in key order; `lastRowId` is SQLite's
  // AUTOINCREMENT memory, which survives deletion of rows and closing of the file.
  // `currentSequence` is the in-memory shadow counter of an open SyncStorage.

  const PAGE_LIMIT: nat := 100

  datatype Row<D> = Row(sequence: nat, data: D, isSnapshot: bool)

  /** What the database file holds. */
  datatype Disk<D> = Disk(rows: seq<Row<D>>, lastRowId: nat)

  /** An open storage: the file and the shadow counter. */
  datatype Log<D> = Log(disk: Disk<D>, currentSequence: nat)

  predicate Ordered<D>(rows: seq<Row<D>>) {
    forall i, j :: 0 <= i < j < |rows| ==> rows[i].sequence < rows[j].sequence
  }

  /** What SQLite keeps true of the table whatever the relay does. */
  predicate WellFormed<D>(disk: Disk<D>) {
    && Ordered(disk.rows)
    && forall i :: 0 <= i < |disk.rows| ==> 1 <= disk.rows[i].sequence <= disk.lastRowId
  }

  function LargestKey<D>(rows: seq<Row<D>>): nat {
    if rows == [] then 0 else rows[|rows| - 1].sequence
  }

  /** The shadow counter agrees with the table: every reset-free run keeps this. */
  predicate Synced<D>(log: Log<D>) {
    && WellFormed(log.disk)
    && log.currentSequence == LargestKey(log.disk.rows) == log.disk.lastRowId
  }

  // ---------------------------------------------------------------- operations

  /** The rows with a key above k: what `SELECT ... WHERE sequence > k` returns, and what
      `DELETE ... WHERE sequence <= k` leaves. */
  function RowsAfter<D>(rows: seq<Row<D>>, k: int): seq<Row<D>> {
    if rows == [] then []
    else if rows[0].sequence > k then [rows[0]] + RowsAfter(rows[1..], k)
    else RowsAfter(rows[1..], k)
  }

  function Page<D>(rows: seq<Row<D>>, k: int, limit: nat): seq<Row<D>> {
    var all := RowsAfter(rows, k);
    if |all| <= limit then all else all[..limit]
  }

  function Insert<D>(disk: Disk<D>, data: D, isSnapshot: bool): Disk<D> {
    Disk(disk.rows + [Row(disk.lastRowId + 1, data, isSnapshot)], disk.lastRowId + 1)
  }

  function Store<D>(log: Log<D>, data: D, isSnapshot: bool): Log<D> {
    Log(Insert(log.disk, data, isSnapshot), log.currentSequence + 1)
  }

  function Compact<D>(log: Log<D>, upTo: int, snapshot: D): Log<D> {
    Store(log.(disk := log.disk.(rows := RowsAfter(log.disk.rows, upTo))), snapshot, true)
  }

  function Clear<D>(log: Log<D>): Log<D> {
    Log(log.disk.(rows := []), 0)
  }

  function Open<D>(disk: Disk<D>): Log<D> {
    Log(disk, LargestKey(disk.rows))
  }

  // ---------------------------------------------------------------- row selection

  /** On an ordered table the selected rows are a suffix, split where the keys pass k. */
  lemma {:induction false} RowsAfterSuffix<D>(rows: seq<Row<D>>, k: int) returns (cut: nat)
    requires Ordered(rows)
    ensures cut <= |rows| && RowsAfter(rows, k) == rows[cut..]
    ensures forall i :: 0 <= i < |rows| ==> (rows[i].sequence > k <==> cut <= i)
  {
    if rows == [] {
      cut := 0;
    } else {
      var rest := RowsAfterSuffix(rows[1..], k);
      assert forall i :: 1 <= i < |rows| ==> rows[i] == rows[1..][i - 1];
      if rows[0].sequence > k {
        assert |rows| > 1 ==> rows[1..][0].sequence > rows[0].sequence;
        cut := 0;
      } else {
        cut := rest + 1;
        assert rows[1..][rest..] == rows[cut..];
      }
    }
  }

  lemma {:induction false} RowsAfterAppend<D>(a: seq<Row<D>>, b: seq<Row<D>>, k: int)
    ensures RowsAfter(a + b, k) == RowsAfter(a, k) + RowsAfter(b, k)
  {
    if a == [] {
      assert a + b == b;
    } else {
      assert (a + b)[1..] == a[1..] + b;
      RowsAfterAppend(a[1..], b, k);
    }
  }

  /** Selecting twice selects above the larger key. */
  lemma {:induction false} RowsAfterTwice<D>(rows: seq<Row<D>>, j: int, k: int)
    ensures RowsAfter(RowsAfter(rows, j), k) == RowsAfter(rows, if j < k then k else j)
  {
    if rows != [] {
      RowsAfterTwice(rows[1..], j, k);
      if rows[0].sequence > j {
        assert ([rows[0]] + RowsAfter(rows[1..], j))[1..] == RowsAfter(rows[1..], j);
      }
    }
  }

  lemma {:induction false} RowsAfterMember<D>(rows: seq<Row<D>>, k: int, r: Row<D>)
    ensures r in RowsAfter(rows, k) <==> r in rows && r.sequence > k
  {
    if rows != [] {
      RowsAfterMember(rows[1..], k, r);
      assert r in rows <==> r == rows[0] || r in rows[1..];
    }
  }

  // ---------------------------------------------------------------- the counter

  /** Every row of a well-formed table has a key above 0, and none above lastRowId. */
  lemma RowsAfterEnds<D>(disk: Disk<D>, k: int)
    requires WellFormed(disk)
    ensures k <= 0 ==> RowsAfter(disk.rows, k) == disk.rows
    ensures disk.lastRowId <= k ==> RowsAfter(disk.rows, k) == []
  {
    var cut := RowsAfterSuffix(disk.rows, k);
    assert disk.rows != [] ==> disk.rows[0].sequence >= 1;
    assert cut < |disk.rows| ==> k < disk.rows[cut].sequence <= disk.lastRowId;
  }

  lemma RowsAfterWellFormed<D>(disk: Disk<D>, k: int)
    requires WellFormed(disk)
    ensures WellFormed(disk.(rows := RowsAfter(disk.rows, k)))
  {
    var cut := RowsAfterSuffix(disk.rows, k);
  }

  /** storeUpdate answers with the key of the row it wrote exactly in the states where
      lastRowId and the counter agree; from a synced state it does and stays synced. */
  lemma StoreReturnsKey<D>(log: Log<D>, data: D, isSnapshot: bool)
    requires WellFormed(log.disk)
    ensures var after := Store(log, data, isSnapshot);
            && WellFormed(after.disk)
            && (after.currentSequence == LargestKey(after.disk.rows)
                <==> log.currentSequence == log.disk.lastRowId)
            && (Synced(log) ==> Synced(after))
            && forall r :: r in log.disk.rows ==> r.sequence < LargestKey(after.disk.rows)
  {
  }

  /** Compaction with any upToSequence, also one far above the log, keeps the counter right. */
  lemma CompactSynced<D>(log: Log<D>, upTo: int, snapshot: D)
    requires Synced(log)
    ensures Synced(Compact(log, upTo, snapshot))
  {
    RowsAfterWellFormed(log.disk, upTo);
    StoreReturnsKey(log.(disk := log.disk.(rows := RowsAfter(log.disk.rows, upTo))), snapshot, true);
  }

  /** A compaction leaves the rows above upTo in place, and the snapshot after all of them under a
      key no row ever had: nothing else goes, and nothing up to upTo stays. */
  lemma CompactReplacesExactly<D>(log: Log<D>, upTo: int, snapshot: D, r: Row<D>)
    requires WellFormed(log.disk)
    ensures var rows := Compact(log, upTo, snapshot).disk.rows;
            && rows != []
            && rows[|rows| - 1] == Row(log.disk.lastRowId + 1, snapshot, true)
            && Ordered(rows)
            && (r in rows[..|rows| - 1] <==> r in log.disk.rows && r.sequence > upTo)
  {
    RowsAfterMember(log.disk.rows, upTo, r);
    RowsAfterWellFormed(log.disk, upTo);
    StoreReturnsKey(log.(disk := log.disk.(rows := RowsAfter(log.disk.rows, upTo))), snapshot, true);
    var rows := Compact(log, upTo, snapshot).disk.rows;
    assert rows[..|rows| - 1] == RowsAfter(log.disk.rows, upTo);
  }

  /** Closing and reopening gives back exactly the state that was closed if and only if the
      counter was right about the largest key. */
  lemma ReopenIdentity<D>(log: Log<D>)
    ensures Open(log.disk) == log <==> log.currentSequence == LargestKey(log.disk.rows)
    ensures Synced(log) ==> Open(log.disk) == log
  {
  }

  // ---------------------------------------------------------------- runs

  datatype Change<D> =
    | StoreOp(data: D, isSnapshot: bool)
    | CompactOp(upTo: int, snapshot: D)
    | ClearOp
    | ReopenOp

  function Apply<D>(log: Log<D>, op: Change<D>): Log<D> {
    match op
    case StoreOp(data, isSnapshot) => Store(log, data, isSnapshot)
    case CompactOp(upTo, snapshot) => Compact(log, upTo, snapshot)
    case ClearOp => Clear(log)
    case ReopenOp => Open(log.disk)
  }

  function Run<D>(log: Log<D>, ops: seq<Change<D>>): Log<D>
    decreases |ops|
  {
    if ops == [] then log else Run(Apply(log, ops[0]), ops[1..])
  }

  /** The keys of the rows a run inserts, in the order of insertion. */
  function KeysInserted<D>(log: Log<D>, ops: seq<Change<D>>): seq<nat>
    decreases |ops|
  {
    if ops == [] then []
    else
      var after := Apply(log, ops[0]);
      (if ops[0].StoreOp? || ops[0].CompactOp? then [after.disk.lastRowId] else [])
      + KeysInserted(after, ops[1..])
  }

  /** The values storeUpdate returns along a run. */
  function KeysReturned<D>(log: Log<D>, ops: seq<Change<D>>): seq<nat>
    decreases |ops|
  {
    if ops == [] then []
    else
      var after := Apply(log, ops[0]);
      (if ops[0].StoreOp? || ops[0].CompactOp? then [after.currentSequence] else [])
      + KeysReturned(after, ops[1..])
  }

  /** In every reset-free run the counter stays the largest row key and every value
      storeUpdate returns is the key of the row it wrote. */
  lemma {:induction false} ResetFreeRun<D>(log: Log<D>, ops: seq<Change<D>>)
    requires Synced(log)
    requires ClearOp !in ops
    ensures Synced(Run(log, ops))
    ensures KeysReturned(log, ops) == KeysInserted(log, ops)
    decreases |ops|
  {
    if ops != [] {
      match ops[0] {
        case StoreOp(data, isSnapshot) => StoreReturnsKey(log, data, isSnapshot);
        case CompactOp(upTo, snapshot) => CompactSynced(log, upTo, snapshot);
        case ReopenOp => ReopenIdentity(log);
        case ClearOp => assert false;
      }
      ResetFreeRun(Apply(log, ops[0]), ops[1..]);
    }
  }

  /** Keys are never reused, in any run at all: even a reset does not bring a key back. */
  lemma {:induction false} KeysNeverReused<D>(log: Log<D>, ops: seq<Change<D>>)
    ensures forall i :: 0 <= i < |KeysInserted(log, ops)| ==> KeysInserted(log, ops)[i] > log.disk.lastRowId
    ensures forall i, j :: 0 <= i < j < |KeysInserted(log, ops)| ==>
              KeysInserted(log, ops)[i] < KeysInserted(log, ops)[j]
    decreases |ops|
  {
    if ops != [] {
      var after := Apply(log, ops[0]);
      KeysNeverReused(after, ops[1..]);
    }
  }

  // ---------------------------------------------------------------- reset

  predicate OnlyStores<D>(ops: seq<Change<D>>) {
    forall i :: 0 <= i < |ops| ==> ops[i].StoreOp?
  }

  /** Stores add rows behind those that are there, in order, under the keys that follow. */
  lemma {:induction false} StoresAppend<D>(log: Log<D>, stores: seq<Change<D>>)
    requires OnlyStores(stores)
    ensures var after, n := Run(log, stores), |log.disk.rows|;
            && after.currentSequence == log.currentSequence + |stores|
            && after.disk.lastRowId == log.disk.lastRowId + |stores|
            && |after.disk.rows| == n + |stores|
            && after.disk.rows[..n] == log.disk.rows
            && forall i :: 0 <= i < |stores| ==>
                 after.disk.rows[n + i] == Row(log.disk.lastRowId + 1 + i, stores[i].data, stores[i].isSnapshot)
    ensures |KeysInserted(log, stores)| == |KeysReturned(log, stores)| == |stores|
    ensures forall i :: 0 <= i < |stores| ==>
              && KeysInserted(log, stores)[i] == log.disk.lastRowId + 1 + i
              && KeysReturned(log, stores)[i] == log.currentSequence + 1 + i
    decreases |stores|
  {
    if stores != [] {
      StoresAppend(Apply(log, stores[0]), stores[1..]);
      var after, n := Run(log, stores), |log.disk.rows|;
      assert after.disk.rows[..n] == after.disk.rows[..n + 1][..n];
      assert after.disk.rows[n] == after.disk.rows[..n + 1][n];
      forall i | 1 <= i < |stores|
        ensures after.disk.rows[n + i] == Row(log.disk.lastRowId + 1 + i, stores[i].data, stores[i].isSnapshot)
      {
        assert stores[1..][i - 1] == stores[i];
      }
    }
  }

  lemma AfterClear<D>(log: Log<D>, stores: seq<Change<D>>)
    ensures Run(log, [ClearOp] + stores) == Run(Apply(log, ClearOp), stores)
    ensures KeysInserted(log, [ClearOp] + stores) == KeysInserted(Apply(log, ClearOp), stores)
    ensures KeysReturned(log, [ClearOp] + stores) == KeysReturned(Apply(log, ClearOp), stores)
  {
    assert ([ClearOp] + stores)[1..] == stores;
    var later := Apply(log, ClearOp);
    assert [] + KeysInserted(later, stores) == KeysInserted(later, stores);
    assert [] + KeysReturned(later, stores) == KeysReturned(later, stores);
  }

  /** The log after a reset and stores, from any log. */
  lemma LogAfterReset<D>(log: Log<D>, stores: seq<Change<D>>)
    requires OnlyStores(stores)
    ensures var after, h := Run(log, [ClearOp] + stores), log.disk.lastRowId;
            && WellFormed(after.disk)
            && after.currentSequence == |stores| == |after.disk.rows|
            && after.disk.lastRowId == h + |stores|
            && LargestKey(after.disk.rows) == (if stores == [] then 0 else h + |stores|)
            && forall i :: 0 <= i < |stores| ==>
                 after.disk.rows[i] == Row(h + 1 + i, stores[i].data, stores[i].isSnapshot)
  {
    var cleared := Apply(log, ClearOp);
    assert cleared == Log(Disk([], log.disk.lastRowId), 0);
    hide Run, Apply;
    AfterClear(log, stores);
    StoresAppend(cleared, stores);
    var after := Run(log, [ClearOp] + stores);
    forall i | 0 <= i < |stores|
      ensures after.disk.rows[i] == Row(log.disk.lastRowId + 1 + i, stores[i].data, stores[i].isSnapshot)
    {
      var row := Row(cleared.disk.lastRowId + 1 + i, stores[i].data, stores[i].isSnapshot);
      assert after.disk.rows[|cleared.disk.rows| + i] == row;
    }
  }

  lemma NothingOfNothing<D>(k: int)
    ensures RowsAfter<D>([], k) == []
  {
  }

  /** A reset forgets everything: whatever the log held, afterwards a catch-up from the start finds
      what has been stored since, in order, and nothing else; without a store, nothing at all. */
  lemma ResetForgets<D>(log: Log<D>, stores: seq<Change<D>>, k: int, limit: nat)
    requires OnlyStores(stores)
    ensures var rows := Run(log, [ClearOp] + stores).disk.rows;
            && |rows| == |stores|
            && (forall i :: 0 <= i < |rows| ==>
                  rows[i].data == stores[i].data && rows[i].isSnapshot == stores[i].isSnapshot)
            && (k <= 0 ==> RowsAfter(rows, k) == rows)
            && (stores == [] ==> Page(rows, k, limit) == [])
  {
    hide Run, RowsAfter, WellFormed;
    LogAfterReset(log, stores);
    RowsAfterEnds(Run(log, [ClearOp] + stores).disk, k);
    NothingOfNothing<D>(k);
  }

  /** After a reset that had reached key h the values returned are 1, 2, ... and the keys written
      h+1, h+2, ...; reopening puts the counter right if there is a row to read it off. */
  lemma StoresAfterReset<D>(log: Log<D>, stores: seq<Change<D>>)
    requires OnlyStores(stores)
    ensures var h, ops := log.disk.lastRowId, [ClearOp] + stores;
            && |KeysInserted(log, ops)| == |KeysReturned(log, ops)| == |stores|
            && (forall i :: 0 <= i < |stores| ==>
                  KeysReturned(log, ops)[i] == i + 1 && KeysInserted(log, ops)[i] == h + i + 1)
            && Run(log, ops).currentSequence == |stores|
            && (Synced(Run(log, ops)) <==> h == 0)
            && (Synced(Open(Run(log, ops).disk)) <==> h == 0 || stores != [])
  {
    hide Run, KeysInserted, KeysReturned;
    LogAfterReset(log, stores);
    AfterClear(log, stores);
    StoresAppend(Apply(log, ClearOp), stores);
  }

  /** Reset leaves the counter in agreement with AUTOINCREMENT only if nothing had ever been
      stored: clearAllUpdates zeroes the one and not the other. */
  lemma ResetBreaksExactly<D>(log: Log<D>)
    requires Synced(log)
    ensures Synced(Run(log, [ClearOp])) <==> log.disk.lastRowId == 0
  {
    var none: seq<Change<D>> := [];
    StoresAfterReset(log, none);
    assert [ClearOp] + none == [ClearOp];
  }

  // ---------------------------------------------------------------- catch-up

  function HasHistory<D>(log: Log<D>, lastSequence: int): bool {
    log.currentSequence > lastSequence
  }

  /** While the counter is right, the ACK's hasHistory promises exactly what a CATCH_UP from the
      same sequence would find, if and only if that sequence is not negative or there are rows: a
      negative one is promised history even by an empty log. */
  lemma HasHistoryExact<D>(log: Log<D>, lastSequence: int)
    requires Synced(log)
    ensures (HasHistory(log, lastSequence) <==> Page(log.disk.rows, lastSequence, PAGE_LIMIT) != [])
            <==> (lastSequence >= 0 || log.disk.rows != [])
  {
    var cut := RowsAfterSuffix(log.disk.rows, lastSequence);
    if log.disk.rows != [] {
      assert log.disk.rows[|log.disk.rows| - 1].sequence > lastSequence <==> cut < |log.disk.rows|;
    }
  }

  /** After a reset that had reached key h and n further stores, the ACK is wrong exactly for
      the clients whose lastSequence lies in [n, h+n), if there was a store: they are told there
      is nothing. */
  lemma HasHistoryAfterReset<D>(log: Log<D>, stores: seq<Change<D>>, lastSequence: nat)
    requires OnlyStores(stores)
    ensures var after, h, n := Run(log, [ClearOp] + stores), log.disk.lastRowId, |stores|;
            var answers := Page(after.disk.rows, lastSequence, PAGE_LIMIT) != [];
            && (HasHistory(after, lastSequence) ==> answers)
            && (HasHistory(after, lastSequence) != answers <==> n > 0 && n <= lastSequence < h + n)
  {
    hide Run, RowsAfter;
    LogAfterReset(log, stores);
    var rows := Run(log, [ClearOp] + stores).disk.rows;
    var cut := RowsAfterSuffix(rows, lastSequence);
    if stores != [] {
      assert rows[|rows| - 1].sequence == log.disk.lastRowId + |stores|;
      assert rows[|rows| - 1].sequence > lastSequence <==> cut < |rows|;
    }
  }

  /** One page and the rows after its last key make up the rows after the start. */
  lemma PageThenRest<D>(rows: seq<Row<D>>, k: int, limit: nat)
    requires Ordered(rows) && limit > 0
    requires Page(rows, k, limit) != []
    ensures var page := Page(rows, k, limit);
            && |page| <= limit
            && RowsAfter(rows, k) == page + RowsAfter(rows, LargestKey(page))
            && k < LargestKey(page)
            && |RowsAfter(rows, LargestKey(page))| < |RowsAfter(rows, k)|
  {
    hide RowsAfter;
    var page := Page(rows, k, limit);
    var cut := RowsAfterSuffix(rows, k);
    var next := RowsAfterSuffix(rows, LargestKey(page));
    assert page == rows[cut..cut + |page|];
    assert rows[cut + |page| - 1].sequence == LargestKey(page);
    assert next < |rows| ==> rows[next].sequence > LargestKey(page);
    assert cut + |page| < |rows| ==> rows[cut + |page|].sequence > LargestKey(page);
    assert !(next < cut + |page|) && !(cut + |page| < next);
    assert rows[cut..] == page + rows[next..];
  }

  /** The pages a client receives that repeats CATCH_UP from each toSequence until silence. */
  function Pages<D>(rows: seq<Row<D>>, k: int): seq<seq<Row<D>>>
    requires Ordered(rows)
    decreases |RowsAfter(rows, k)|
  {
    var page := Page(rows, k, PAGE_LIMIT);
    if page == [] then []
    else
      PageThenRest(rows, k, PAGE_LIMIT);
      [page] + Pages(rows, LargestKey(page))
  }

  function Concat<T>(pages: seq<seq<T>>): seq<T> {
    if pages == [] then [] else pages[0] + Concat(pages[1..])
  }

  /** Paging yields every row above the start once and in order, at most 100 at a time. */
  lemma {:induction false} PagingComplete<D>(rows: seq<Row<D>>, k: int)
    requires Ordered(rows)
    ensures Concat(Pages(rows, k)) == RowsAfter(rows, k)
    ensures forall i :: 0 <= i < |Pages(rows, k)| ==> 1 <= |Pages(rows, k)[i]| <= 100
    decreases |RowsAfter(rows, k)|
  {
    var page := Page(rows, k, PAGE_LIMIT);
    if page != [] {
      PageThenRest(rows, k, PAGE_LIMIT);
      PagingComplete(rows, LargestKey(page));
      assert Pages(rows, k)[1..] == Pages(rows, LargestKey(page));
    }
  }
}
