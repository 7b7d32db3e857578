/** SyncStorage as the object it is (sync-relay/src/storage.ts): the database tables and the
shadow counter are fields that the methods update in place. */
module RelayStorage {
  // Each method is proved against the function of RelayLog that describes it, so everything
  // proved there about runs holds of it.

  import opened RelayLog

  datatype Revocation = Revocation(revokedAt: nat, revokedBy: string, reason: string, signature: string)

  /** One user's database file. */
  datatype File<D> = File(disk: Disk<D>, revoked: map<string, Revocation>)

  class SyncStorage<D> {
    var rows: seq<Row<D>>
    var lastRowId: nat
    var revoked: map<string, Revocation>
    var currentSequence: nat

    ghost function Contents(): Log<D> reads this {
      Log(Disk(rows, lastRowId), currentSequence)
    }

    constructor (file: File<D>)
      ensures Contents() == Open(file.disk) && revoked == file.revoked
    {
      rows, lastRowId, revoked := file.disk.rows, file.disk.lastRowId, file.revoked;
      currentSequence := if |file.disk.rows| == 0 then 0 else file.disk.rows[|file.disk.rows| - 1].sequence;
    }

    method StoreUpdate(data: D, isSnapshot: bool) returns (sequence: nat)
      modifies this`rows, this`lastRowId, this`currentSequence
      ensures Contents() == Store(old(Contents()), data, isSnapshot)
      ensures sequence == currentSequence
      ensures old(Synced(Contents())) ==> Synced(Contents()) && rows[|rows| - 1] == Row(sequence, data, isSnapshot)
    {
      if Synced(Contents()) { StoreReturnsKey(Contents(), data, isSnapshot); }
      lastRowId := lastRowId + 1;
      rows := rows + [Row(lastRowId, data, isSnapshot)];
      currentSequence := currentSequence + 1;
      sequence := currentSequence;
    }

    method GetUpdatesAfter(sequence: int, limit: nat := PAGE_LIMIT) returns (updates: seq<Row<D>>)
      ensures updates == Page(rows, sequence, limit)
    {
      updates := [];
      var i := 0;
      while i < |rows| && |updates| < limit
        invariant i <= |rows| && |updates| <= limit
        invariant updates == RowsAfter(rows[..i], sequence)
      {
        RowsAfterAppend(rows[..i], [rows[i]], sequence);
        assert rows[..i + 1] == rows[..i] + [rows[i]];
        if rows[i].sequence > sequence {
          updates := updates + [rows[i]];
        }
        i := i + 1;
      }
      RowsAfterAppend(rows[..i], rows[i..], sequence);
      assert rows[..i] + rows[i..] == rows;
    }

    method CompactUpdates(upToSequence: int, snapshot: D)
      modifies this`rows, this`lastRowId, this`currentSequence
      ensures Contents() == Compact(old(Contents()), upToSequence, snapshot)
      ensures old(Synced(Contents())) ==> Synced(Contents())
    {
      if Synced(Contents()) { CompactSynced(Contents(), upToSequence, snapshot); }
      rows := RowsAfter(rows, upToSequence);
      var _ := StoreUpdate(snapshot, true);
    }

    method ClearAllUpdates()
      modifies this`rows, this`currentSequence
      ensures Contents() == Clear(old(Contents()))
    {
      rows := [];
      currentSequence := 0;
    }

    method StoreRevocation(deviceId: string, revocation: Revocation)
      modifies this`revoked
      ensures revoked == old(revoked)[deviceId := revocation]
    {
      revoked := revoked[deviceId := revocation];
    }

    method Close() returns (file: File<D>)
      ensures file == File(Contents().disk, revoked)
      ensures Synced(Contents()) ==> Open(file.disk) == Contents()
    {
      ReopenIdentity(Contents());
      file := File(Disk(rows, lastRowId), revoked);
    }
  }
}
