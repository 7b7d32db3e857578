/** What add_device does to the list of paired devices (src-tauri/src/network/cache.rs), told from
the list before and the list after. */
module AddingDevices {
  import opened Wrappers
  import opened Sequences
  import opened StableSort
  import opened AddressCache
  import opened PairedDevices

  function MergeChanges(id: string, brought: seq<KnownAddress>, now: nat): seq<Change> {
    seq(|brought|, i requires 0 <= i < |brought| => AddressAdded(id, brought[i].Key(), now))
  }

  /** add_device: a known id is renamed and its addresses merged, an unknown one is appended. */
  function AddChanges(devices: seq<Device>, d: Device, now: nat): seq<Change> {
    if FindDevice(devices, d.id) == |devices| then [NewDevice(d)]
    else [Renamed(d.id, d.name, d.fingerprint)] + MergeChanges(d.id, d.addresses, now)
  }

  /** The addresses of a known device after others are brought, one by one. */
  function Merged(addresses: seq<KnownAddress>, brought: seq<KnownAddress>, now: nat): seq<KnownAddress> {
    if brought == [] then addresses
    else
      var front, last := brought[..|brought| - 1], brought[|brought| - 1];
      AddOrUpdateAddress(Merged(addresses, front, now), last.Key(), now)
  }

  function Fresh(key: Key, now: nat): KnownAddress { KnownAddress(key.0, key.1, now, 0, 0) }

  predicate IsBrought(brought: seq<KnownAddress>, key: Key) {
    exists i :: 0 <= i < |brought| && brought[i].Key() == key
  }

  // ---------------------------------------------------------------- one address

  /** Bringing one address: an entry that is there gets the new time, keeps its counts, and nothing
      else changes. One that is not comes in fresh if and only if fewer than five survivors are at
      least as recent; then, as ever, others may be pruned but none is altered. */
  lemma AddedAddressExactly(addresses: seq<KnownAddress>, key: Key, now: nat, other: Key)
    requires DistinctKeys(addresses)
    ensures var before, after := Entry(addresses, key), Entry(AddOrUpdateAddress(addresses, key, now), key);
            && (before.Some? ==> after == Some(before.value.(lastUsed := now)))
            && (before.None? ==>
                  after == if |Select(Select(addresses, Keeps), AsRecentAs(Fresh(key, now)))| < 5
                           then Some(Fresh(key, now)) else None)
    ensures var before, after := Entry(addresses, other), Entry(AddOrUpdateAddress(addresses, key, now), other);
            && (other != key && Entry(addresses, key).Some? ==> after == before)
            && (other != key && after.Some? ==> after == before)
  {
    hide Prune, Select;
    var i := FindKey(addresses, key);
    if i < |addresses| {
      UpdatedEntry(addresses, i, addresses[i].(lastUsed := now), key);
      UpdatedEntry(addresses, i, addresses[i].(lastUsed := now), other);
    } else {
      var added := NewAddress(key, now);
      var longer := addresses + [added];
      assert added == Fresh(key, now) && added !in addresses;
      assert DistinctKeys(longer);
      JustAddedSurvivesExactly(addresses, added);
      EntryAtEnd(addresses, added);
      PruneEntry(longer, key);
      PruneMembers(longer);
      DistinctPart(Prune(longer), longer);
      if added in Prune(longer) { EntryIsMember(Prune(longer), added); }
      EntryInside(Prune(longer), key);
      if other != key {
        PruneEntry(longer, other);
        EntryElsewhere(addresses, added, other);
      }
    }
  }

  lemma EntryAtEnd(addresses: seq<KnownAddress>, a: KnownAddress)
    requires DistinctKeys(addresses + [a])
    ensures Entry(addresses + [a], a.Key()) == Some(a)
  {
    assert a in addresses + [a];
    EntryIsMember(addresses + [a], a);
  }

  lemma EntryElsewhere(addresses: seq<KnownAddress>, a: KnownAddress, key: Key)
    requires key != a.Key()
    ensures Entry(addresses + [a], key) == Entry(addresses, key)
  {
    var i, j := FindKey(addresses + [a], key), FindKey(addresses, key);
    assert i < |addresses| ==> (addresses + [a])[i] == addresses[i];
    assert forall k :: 0 <= k < |addresses| ==> (addresses + [a])[k] == addresses[k];
    assert j < |addresses| ==> i == j;
  }

  // ---------------------------------------------------------------- a whole merge

  /** What a merge may have made of a key: a brought one has the time of the merge, and is fresh or
      keeps the counts of the entry it had; any other is as it was. Either may be gone. */
  predicate MergedAs(before: Option<KnownAddress>, brought: seq<KnownAddress>, now: nat,
                     after: Option<KnownAddress>, key: Key) {
    after.Some? ==>
      if IsBrought(brought, key)
      then after.value == Fresh(key, now) || (before.Some? && after.value == before.value.(lastUsed := now))
      else after == before
  }

  lemma {:induction false} MergedEntry(addresses: seq<KnownAddress>, brought: seq<KnownAddress>, now: nat, key: Key)
    requires |addresses| <= MAX_ADDRESSES && DistinctKeys(addresses)
    ensures var after := Merged(addresses, brought, now);
            && |after| <= MAX_ADDRESSES && DistinctKeys(after)
            && MergedAs(Entry(addresses, key), brought, now, Entry(after, key), key)
  {
    if brought != [] {
      hide DistinctKeys, AddOrUpdateAddress, Entry;
      var front, last := brought[..|brought| - 1], brought[|brought| - 1];
      MergedEntry(addresses, front, now, key);
      AddedKeepsValid(Merged(addresses, front, now), last.Key(), now);
      AddedAddressExactly(Merged(addresses, front, now), last.Key(), now, key);
      assert IsBrought(brought, key) <==> key == last.Key() || IsBrought(front, key) by {
        assert brought[|brought| - 1] == last;
        assert forall i :: 0 <= i < |front| ==> brought[i] == front[i];
      }
    }
  }

  /** Ready for a merge at `now`: everything there is older, and what is brought anew has not
      failed too often. */
  predicate Ready(addresses: seq<KnownAddress>, brought: seq<KnownAddress>, now: nat) {
    && |brought| <= 5
    && forall a :: a in addresses ==> a.lastUsed < now && (IsBrought(brought, a.Key()) ==> Keeps(a))
  }

  lemma MergedLast(addresses: seq<KnownAddress>, brought: seq<KnownAddress>, n: nat, now: nat)
    requires 0 < n <= |brought|
    ensures Merged(addresses, brought[..n], now)
            == AddOrUpdateAddress(Merged(addresses, brought[..n - 1], now), brought[n - 1].Key(), now)
  {
    assert brought[..n][..n - 1] == brought[..n - 1];
  }

  /** Then up to five brought addresses are all there afterwards, at the cost of older ones. */
  lemma {:induction false} BroughtAreThere(
    addresses: seq<KnownAddress>, brought: seq<KnownAddress>, n: nat, now: nat, j: nat)
    requires |addresses| <= MAX_ADDRESSES && DistinctKeys(addresses) && Ready(addresses, brought, now)
    requires j < n <= |brought|
    ensures Entry(Merged(addresses, brought[..n], now), brought[j].Key()).Some?
    decreases n
  {
    hide Select, Merged, DistinctKeys, AddOrUpdateAddress;
    var key, last := brought[j].Key(), brought[n - 1].Key();
    var list := Merged(addresses, brought[..n - 1], now);
    MergedLast(addresses, brought, n, now);
    MergedEntry(addresses, brought[..n - 1], now, key);
    AddedAddressExactly(list, last, now, key);
    if key == last {
      if Entry(list, key).None? { FewRecent(addresses, brought, n, now, Fresh(key, now)); }
    } else {
      BroughtAreThere(addresses, brought, n - 1, now, j);
      if Entry(list, last).None? {
        var x := Entry(list, key).value;
        EntryInside(list, key);
        assert IsBrought(brought[..n - 1], key) by { assert brought[..n - 1][j].Key() == key; }
        BroughtKeeps(addresses, brought, n - 1, now, x);
        ThereAfterPrune(addresses, brought, n, now, x);
      }
    }
  }

  lemma BroughtKeeps(addresses: seq<KnownAddress>, brought: seq<KnownAddress>, m: nat, now: nat, x: KnownAddress)
    requires |addresses| <= MAX_ADDRESSES && DistinctKeys(addresses) && Ready(addresses, brought, now)
    requires m <= |brought| && x in Merged(addresses, brought[..m], now)
    ensures if IsBrought(brought[..m], x.Key()) then x.lastUsed == now && Keeps(x) else x.lastUsed < now
  {
    MergedEntry(addresses, brought[..m], now, x.Key());
    EntryIsMember(Merged(addresses, brought[..m], now), x);
    EntryInside(addresses, x.Key());
    if IsBrought(brought[..m], x.Key()) {
      var i :| 0 <= i < m && brought[..m][i].Key() == x.Key();
      assert brought[i].Key() == x.Key();
    }
  }

  function KeysOf(addresses: seq<KnownAddress>): set<Key> {
    set i | 0 <= i < |addresses| :: addresses[i].Key()
  }

  lemma KeysOfAdded(front: seq<KnownAddress>, last: KnownAddress)
    ensures KeysOf(front + [last]) == KeysOf(front) + {last.Key()}
  {
    var all := front + [last];
    forall k | k in KeysOf(front) + {last.Key()} ensures k in KeysOf(all) {
      if k == last.Key() {
        assert all[|front|].Key() == k;
      } else {
        var i :| 0 <= i < |front| && front[i].Key() == k;
        assert all[i].Key() == k;
      }
    }
  }

  lemma DistinctFront(front: seq<KnownAddress>, last: KnownAddress)
    requires DistinctKeys(front + [last])
    ensures DistinctKeys(front) && last.Key() !in KeysOf(front)
  {
    var all := front + [last];
    forall i, j | 0 <= i < j < |front| ensures !SameKey(front[i], front[j]) {
      assert !SameKey(all[i], all[j]);
    }
    forall i | 0 <= i < |front| ensures front[i].Key() != last.Key() {
      assert !SameKey(all[i], all[|front|]);
    }
  }

  lemma {:induction false} KeysFew(addresses: seq<KnownAddress>)
    ensures |KeysOf(addresses)| <= |addresses|
    ensures DistinctKeys(addresses) ==> |KeysOf(addresses)| == |addresses|
  {
    if addresses != [] {
      var front, last := addresses[..|addresses| - 1], addresses[|addresses| - 1];
      assert addresses == front + [last];
      hide KeysOf, DistinctKeys;
      KeysFew(front);
      KeysOfAdded(front, last);
      if DistinctKeys(addresses) { DistinctFront(front, last); }
    }
  }

  lemma KeysInside(part: seq<KnownAddress>, brought: seq<KnownAddress>)
    requires forall a :: a in part ==> IsBrought(brought, a.Key())
    ensures KeysOf(part) <= KeysOf(brought)
  {
    forall k | k in KeysOf(part) ensures k in KeysOf(brought) {
      var i :| 0 <= i < |part| && part[i].Key() == k;
      assert part[i] in part;
      var j :| 0 <= j < |brought| && brought[j].Key() == k;
    }
  }

  /** Before the n-th address is added, at most n - 1 entries are as recent as the merge. */
  lemma FewRecent(addresses: seq<KnownAddress>, brought: seq<KnownAddress>, n: nat, now: nat, x: KnownAddress)
    requires |addresses| <= MAX_ADDRESSES && DistinctKeys(addresses) && Ready(addresses, brought, now)
    requires 0 < n <= |brought| && x.lastUsed == now
    ensures |Select(Select(Merged(addresses, brought[..n - 1], now), Keeps), AsRecentAs(x))| < n
  {
    hide Select, Merged, DistinctKeys, Ready, KeysOf;
    var list := Merged(addresses, brought[..n - 1], now);
    var survivors := Select(list, Keeps);
    var recent := Select(survivors, AsRecentAs(x));
    MergedEntry(addresses, brought[..n - 1], now, x.Key());
    SelectMembers(list, Keeps);
    SelectMembers(survivors, AsRecentAs(x));
    DistinctPart(survivors, list);
    DistinctPart(recent, survivors);
    KeysFew(recent);
    KeysFew(brought[..n - 1]);
    forall a | a in recent ensures IsBrought(brought[..n - 1], a.Key()) {
      BroughtKeeps(addresses, brought, n - 1, now, a);
    }
    KeysInside(recent, brought[..n - 1]);
    Smaller(KeysOf(recent), KeysOf(brought[..n - 1]));
  }

  lemma {:induction false} Smaller<T>(a: set<T>, b: set<T>)
    requires a <= b
    ensures |a| <= |b|
  {
    assert b == a + (b - a);
  }

  /** So an entry as recent as the merge stays when the n-th address comes in. */
  lemma ThereAfterPrune(addresses: seq<KnownAddress>, brought: seq<KnownAddress>, n: nat, now: nat, x: KnownAddress)
    requires |addresses| <= MAX_ADDRESSES && DistinctKeys(addresses) && Ready(addresses, brought, now)
    requires 0 < n <= |brought|
    requires var list := Merged(addresses, brought[..n - 1], now);
             x in list && x.lastUsed == now && Keeps(x) && Entry(list, brought[n - 1].Key()).None?
    ensures Entry(Merged(addresses, brought[..n], now), x.Key()) == Some(x)
  {
    hide Select, Prune;
    var list, key := Merged(addresses, brought[..n - 1], now), brought[n - 1].Key();
    assert brought[..n][..n - 1] == brought[..n - 1];
    var added := NewAddress(key, now);
    var longer := list + [added];
    MergedEntry(addresses, brought[..n - 1], now, key);
    assert FindKey(list, key) == |list|;
    assert DistinctKeys(longer);
    FewRecent(addresses, brought, n, now, x);
    SelectAppend(list, [added], Keeps);
    SelectOne(added, Keeps);
    SelectAppend(Select(list, Keeps), [added], AsRecentAs(x));
    SelectOne(added, AsRecentAs(x));
    RecentIsKept(longer, x);
    PruneMembers(longer);
    DistinctPart(Prune(longer), longer);
    EntryIsMember(Prune(longer), x);
  }

  // ---------------------------------------------------------------- a whole device

  /** The list after a device was added to the list before. Its id is found. An unknown device is
      stored as it was given. A known one has the brought name and fingerprint, its addresses are
      merged, and what else is stored of it stays; so does every other device. */
  ghost predicate Added(before: seq<Device>, d: Device, now: nat, after: seq<Device>) {
    var n := FindDevice(before, d.id);
    && FindDevice(after, d.id) == n < |after|
    && (n == |before| ==> after == before + [d])
    && (n < |before| ==>
          && |after| == |before|
          && (forall i :: 0 <= i < |before| && i != n ==> after[i] == before[i])
          && after[n].(addresses := before[n].addresses) == before[n].(name := d.name, fingerprint := d.fingerprint)
          && AddressesMerged(before[n].addresses, d.addresses, now, after[n].addresses))
  }

  /** Key by key; all that is brought is there if it is Ready; and for a single address, as pairing
      brings it, exactly when it is there. */
  ghost predicate AddressesMerged(
    before: seq<KnownAddress>, brought: seq<KnownAddress>, now: nat, after: seq<KnownAddress>)
  {
    && (forall key :: MergedAs(Entry(before, key), brought, now, Entry(after, key), key))
    && (Ready(before, brought, now) ==>
          forall j :: 0 <= j < |brought| ==> Entry(after, brought[j].Key()).Some?)
    && (|brought| == 1 ==>
          var key := brought[0].Key();
          (Entry(after, key).Some? <==>
             || Entry(before, key).Some?
             || |Select(Select(before, Keeps), AsRecentAs(Fresh(key, now)))| < 5))
  }

  lemma FoundFirst(devices: seq<Device>, n: nat, id: string)
    requires n < |devices| && devices[n].id == id && forall i :: 0 <= i < n ==> devices[i].id != id
    ensures FindDevice(devices, id) == n
  {
  }

  lemma IdsBefore(devices: seq<Device>, n: nat)
    requires Valid(devices) && n < |devices|
    ensures forall i :: 0 <= i < n ==> devices[i].id != devices[n].id
  {
  }

  lemma MergeChangesLast(id: string, brought: seq<KnownAddress>, now: nat)
    requires brought != []
    ensures var n := |brought| - 1;
            MergeChanges(id, brought, now)
            == MergeChanges(id, brought[..n], now) + [AddressAdded(id, brought[n].Key(), now)]
  {
  }

  /** The list with other addresses for its device n. */
  function WithAddresses(devices: seq<Device>, n: nat, addresses: seq<KnownAddress>): (r: seq<Device>)
    requires n < |devices|
    ensures |r| == |devices| && r[n].addresses == addresses
    ensures forall i :: 0 <= i < |r| ==> r[i].id == devices[i].id
  {
    devices[n := devices[n].(addresses := addresses)]
  }

  lemma WithAddressesTwice(devices: seq<Device>, n: nat, a: seq<KnownAddress>, b: seq<KnownAddress>)
    requires n < |devices|
    ensures WithAddresses(WithAddresses(devices, n, a), n, b) == WithAddresses(devices, n, b)
    ensures WithAddresses(devices, n, devices[n].addresses) == devices
  {
  }

  lemma AddedAt(devices: seq<Device>, n: nat, c: Change)
    requires n < |devices| && c.AddressAdded? && FindDevice(devices, c.id) == n
    ensures Apply(devices, c) == WithAddresses(devices, n, AddOrUpdateAddress(devices[n].addresses, c.key, c.now))
  {
    hide AddOrUpdateAddress, FindDevice;
  }

  lemma {:induction false} MergeOfDevice(devices: seq<Device>, n: nat, brought: seq<KnownAddress>, now: nat)
    requires Valid(devices) && n < |devices|
    ensures ApplyAll(devices, MergeChanges(devices[n].id, brought, now))
            == WithAddresses(devices, n, Merged(devices[n].addresses, brought, now))
    decreases |brought|
  {
    var id, own := devices[n].id, devices[n].addresses;
    if brought == [] {
      WithAddressesTwice(devices, n, own, own);
    } else {
      IdsBefore(devices, n);
      hide Valid, Apply, ApplyAll, FindDevice, Merged, MergeChanges, AddOrUpdateAddress, WithAddresses;
      var front, last := brought[..|brought| - 1], brought[|brought| - 1];
      var c := AddressAdded(id, last.Key(), now);
      var earlier := WithAddresses(devices, n, Merged(own, front, now));
      MergeOfDevice(devices, n, front, now);
      MergeChangesLast(id, brought, now);
      ApplyLast(devices, MergeChanges(id, front, now), c);
      FoundFirst(earlier, n, id);
      AddedAt(earlier, n, c);
      assert brought[..|brought|] == brought;
      MergedLast(own, brought, |brought|, now);
      WithAddressesTwice(devices, n, Merged(own, front, now), Merged(own, brought, now));
    }
  }

  lemma {:induction false} ApplyLast(devices: seq<Device>, changes: seq<Change>, c: Change)
    ensures ApplyAll(devices, changes + [c]) == Apply(ApplyAll(devices, changes), c)
    decreases |changes|
  {
    if changes == [] {
      assert ([] + [c])[1..] == [];
    } else {
      assert (changes + [c])[1..] == changes[1..] + [c];
      ApplyLast(Apply(devices, changes[0]), changes[1..], c);
    }
  }

  lemma MergeMeets(before: seq<KnownAddress>, brought: seq<KnownAddress>, now: nat)
    requires |before| <= MAX_ADDRESSES && DistinctKeys(before)
    ensures AddressesMerged(before, brought, now, Merged(before, brought, now))
  {
    forall key ensures MergedAs(Entry(before, key), brought, now, Entry(Merged(before, brought, now), key), key) {
      MergedEntry(before, brought, now, key);
    }
    if Ready(before, brought, now) {
      forall j | 0 <= j < |brought| ensures Entry(Merged(before, brought, now), brought[j].Key()).Some? {
        assert brought[..|brought|] == brought;
        BroughtAreThere(before, brought, |brought|, now, j);
      }
    }
    if |brought| == 1 {
      assert brought[..0] == [];
      AddedAddressExactly(before, brought[0].Key(), now, brought[0].Key());
    }
  }

  /** add_device meets that description, whatever the list and the device. */
  lemma AddingStores(devices: seq<Device>, d: Device, now: nat)
    requires Valid(devices)
    ensures Added(devices, d, now, ApplyAll(devices, AddChanges(devices, d, now)))
  {
    hide Merged, AddressesMerged, FindDevice;
    var n := FindDevice(devices, d.id);
    if n == |devices| {
      AppendedLast(devices, d, now);
    } else {
      var stored := devices[n];
      var renamed := stored.(name := d.name, fingerprint := d.fingerprint);
      var next := devices[n := renamed];
      RenamedThenMerged(devices, n, d, now);
      MergeOfDevice(next, n, d.addresses, now);
      MergeMeets(stored.addresses, d.addresses, now);
      FoundFirst(WithAddresses(next, n, Merged(stored.addresses, d.addresses, now)), n, d.id);
    }
  }

  lemma {:induction false} AppendedLast(devices: seq<Device>, d: Device, now: nat)
    requires FindDevice(devices, d.id) == |devices|
    ensures ApplyAll(devices, AddChanges(devices, d, now)) == devices + [d]
    ensures FindDevice(devices + [d], d.id) == |devices|
  {
    assert AddChanges(devices, d, now)[1..] == [];
    FoundFirst(devices + [d], |devices|, d.id);
  }

  lemma RenamedThenMerged(devices: seq<Device>, n: nat, d: Device, now: nat)
    requires Valid(devices) && n == FindDevice(devices, d.id) < |devices|
    ensures var next := devices[n := devices[n].(name := d.name, fingerprint := d.fingerprint)];
            && Valid(next) && next[n].id == d.id
            && ApplyAll(devices, AddChanges(devices, d, now)) == ApplyAll(next, MergeChanges(d.id, d.addresses, now))
  {
    var changes := AddChanges(devices, d, now);
    ApplyKeepsValidExactly(devices, changes[0]);
    assert changes[1..] == MergeChanges(d.id, d.addresses, now);
  }
}
