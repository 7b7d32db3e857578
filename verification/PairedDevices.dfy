/** The list of paired devices and what happens to it over time (src-tauri/src/network/cache.rs),
and the pass that reconnects to one (src-tauri/src/network/commands.rs). */
module PairedDevices {
  import opened Wrappers
  import opened Sequences
  import opened StableSort
  import opened AddressCache

  type Key = (string, nat)

  datatype Device = Device(
    id: string, name: string, fingerprint: string, addresses: seq<KnownAddress>,
    pairedAt: nat, lastConnected: Option<nat>, lastSeen: Option<nat>)

  // ---------------------------------------------------------------- first matches

  function FindKey(addresses: seq<KnownAddress>, key: Key): (i: nat)
    ensures i <= |addresses|
    ensures i < |addresses| ==> addresses[i].Key() == key
    ensures forall j :: 0 <= j < i ==> addresses[j].Key() != key
  {
    if addresses == [] || addresses[0].Key() == key then 0 else 1 + FindKey(addresses[1..], key)
  }

  function FindDevice(devices: seq<Device>, id: string): (i: nat)
    ensures i <= |devices|
    ensures i < |devices| ==> devices[i].id == id
    ensures forall j :: 0 <= j < i ==> devices[j].id != id
  {
    if devices == [] || devices[0].id == id then 0 else 1 + FindDevice(devices[1..], id)
  }

  function Lookup(devices: seq<Device>, id: string, key: Key): Option<KnownAddress> {
    var d := FindDevice(devices, id);
    if d == |devices| then None
    else
      var a := FindKey(devices[d].addresses, key);
      if a == |devices[d].addresses| then None else Some(devices[d].addresses[a])
  }

  // ---------------------------------------------------------------- changes

  function AddOrUpdateAddress(addresses: seq<KnownAddress>, key: Key, now: nat): seq<KnownAddress> {
    var i := FindKey(addresses, key);
    if i < |addresses| then addresses[i := addresses[i].(lastUsed := now)]
    else Prune(addresses + [NewAddress(key, now)])
  }

  function RecordSuccess(d: Device, key: Key, now: nat): Device {
    var i := FindKey(d.addresses, key);
    d.(addresses := if i < |d.addresses| then d.addresses[i := d.addresses[i].RecordSuccess(now)] else d.addresses,
       lastConnected := Some(now), lastSeen := Some(now))
  }

  function RecordFailure(d: Device, key: Key): Device {
    var i := FindKey(d.addresses, key);
    d.(addresses := if i < |d.addresses| then d.addresses[i := d.addresses[i].RecordFailure()] else d.addresses)
  }

  function PruneDevice(d: Device): Device {
    d.(addresses := Prune(d.addresses))
  }

  datatype Change =
    | NewDevice(device: Device)
    | Renamed(id: string, name: string, fingerprint: string)
    | AddressAdded(id: string, key: Key, now: nat)
    | Removed(id: string)
    | Succeeded(id: string, key: Key, now: nat)
    | Failed(id: string, key: Key)
    | AllPruned

  function OtherThan(id: string): Device -> bool { (d: Device) => d.id != id }

  function RemoveAll(devices: seq<Device>, id: string): seq<Device> { Select(devices, OtherThan(id)) }

  function Apply(devices: seq<Device>, c: Change): seq<Device> {
    match c
    case NewDevice(d) => devices + [d]
    case Removed(id) => RemoveAll(devices, id)
    case AllPruned => seq(|devices|, i requires 0 <= i < |devices| => PruneDevice(devices[i]))
    case _ =>
      var i := FindDevice(devices, c.id);
      if i == |devices| then devices else devices[i := ChangeDevice(devices[i], c)]
  }

  function ChangeDevice(d: Device, c: Change): Device {
    match c
    case Renamed(_, name, fingerprint) => d.(name := name, fingerprint := fingerprint)
    case AddressAdded(_, key, now) => d.(addresses := AddOrUpdateAddress(d.addresses, key, now))
    case Succeeded(_, key, now) => RecordSuccess(d, key, now)
    case Failed(_, key) => RecordFailure(d, key)
    case _ => d
  }

  /** The cache after a history of changes, oldest first, starting empty. */
  function Run(history: seq<Change>): seq<Device> {
    if history == [] then [] else Apply(Run(history[..|history| - 1]), history[|history| - 1])
  }

  function ApplyAll(devices: seq<Device>, changes: seq<Change>): seq<Device>
    decreases |changes|
  {
    if changes == [] then devices else ApplyAll(Apply(devices, changes[0]), changes[1..])
  }

  lemma ApplyUnfold(devices: seq<Device>, changes: seq<Change>)
    ensures ApplyAll(devices, []) == devices
    ensures changes != [] ==> ApplyAll(devices, changes) == ApplyAll(Apply(devices, changes[0]), changes[1..])
  {
  }

  // ---------------------------------------------------------------- validity

  predicate DistinctKeys(addresses: seq<KnownAddress>) {
    Apart(addresses, SameKey)
  }

  predicate SameKey(a: KnownAddress, b: KnownAddress) { a.Key() == b.Key() }

  lemma DistinctPart(part: seq<KnownAddress>, whole: seq<KnownAddress>)
    requires multiset(part) <= multiset(whole) && DistinctKeys(whole)
    ensures DistinctKeys(part)
  {
    ApartPart(part, whole, SameKey);
  }

  predicate ValidDevice(d: Device) {
    |d.addresses| <= MAX_ADDRESSES && DistinctKeys(d.addresses)
  }

  predicate Valid(devices: seq<Device>) {
    && (forall i, j :: 0 <= i < j < |devices| ==> devices[i].id != devices[j].id)
    && (forall i :: 0 <= i < |devices| ==> ValidDevice(devices[i]))
  }

  /** A new device that keeps the cache valid: its id is not there yet, and it brings at most
      five addresses, with distinct ip and port. */
  predicate Admits(devices: seq<Device>, c: Change) {
    c.NewDevice? ==> FindDevice(devices, c.device.id) == |devices| && ValidDevice(c.device)
  }

  /** And nothing of it has failed yet. Everything else may happen at any time. */
  predicate Allowed(devices: seq<Device>, c: Change) {
    Admits(devices, c) && (c.NewDevice? ==> forall a :: a in c.device.addresses ==> a.failCount == 0)
  }

  predicate AllowedRun(history: seq<Change>) {
    history == [] || (AllowedRun(history[..|history| - 1])
                      && Allowed(Run(history[..|history| - 1]), history[|history| - 1]))
  }

  lemma PruneMembers(addresses: seq<KnownAddress>)
    ensures multiset(Prune(addresses)) <= multiset(addresses)
    ensures |Prune(addresses)| <= MAX_ADDRESSES
    ensures forall a :: a in Prune(addresses) ==> a in addresses
  {
    PruneExact(addresses);
    SelectMembers(addresses, Keeps);
    assert forall a :: a in Prune(addresses) ==> a in multiset(Prune(addresses));
  }

  lemma AddedKeepsValid(addresses: seq<KnownAddress>, key: Key, now: nat)
    requires |addresses| <= MAX_ADDRESSES && DistinctKeys(addresses)
    ensures var after := AddOrUpdateAddress(addresses, key, now);
            |after| <= MAX_ADDRESSES && DistinctKeys(after)
  {
    if FindKey(addresses, key) == |addresses| {
      var longer := addresses + [NewAddress(key, now)];
      assert DistinctKeys(longer);
      PruneMembers(longer);
      DistinctPart(Prune(longer), longer);
    }
  }

  lemma SameKeysStayApart(before: seq<KnownAddress>, after: seq<KnownAddress>)
    requires DistinctKeys(before)
    requires |before| == |after| && forall i :: 0 <= i < |after| ==> before[i].Key() == after[i].Key()
    ensures DistinctKeys(after)
  {
    forall i, j | 0 <= i < j < |after| ensures !SameKey(after[i], after[j]) {
      assert !SameKey(before[i], before[j]);
    }
  }

  lemma ChangeKeepsValidDevice(d: Device, c: Change)
    requires ValidDevice(d)
    ensures ValidDevice(ChangeDevice(d, c)) && ChangeDevice(d, c).id == d.id
  {
    hide DistinctKeys;
    if c.AddressAdded? {
      AddedKeepsValid(d.addresses, c.key, c.now);
    } else {
      SameKeysStayApart(d.addresses, ChangeDevice(d, c).addresses);
    }
  }

  lemma {:induction false} RemoveAllMembers(devices: seq<Device>, id: string)
    requires Valid(devices)
    ensures Valid(RemoveAll(devices, id))
    ensures forall d :: d in RemoveAll(devices, id) <==> d in devices && d.id != id
  {
    if devices != [] {
      RemoveAllMembers(devices[1..], id);
      assert forall d :: d in devices <==> d == devices[0] || d in devices[1..];
    }
  }

  /** One change keeps ids distinct and every device within five distinct addresses if and only if
      it is not a new device that breaks this itself. */
  lemma ApplyKeepsValidExactly(devices: seq<Device>, c: Change)
    requires Valid(devices)
    ensures Valid(Apply(devices, c)) <==> Admits(devices, c)
  {
    match c
    case NewDevice(d) =>
      var after := devices + [d];
      var j := FindDevice(devices, d.id);
      assert after[|devices|] == d;
      assert j < |devices| ==> after[j].id == after[|devices|].id;
    case Removed(id) => RemoveAllMembers(devices, id);
    case AllPruned =>
      forall i | 0 <= i < |devices| ensures ValidDevice(PruneDevice(devices[i])) {
        PruneMembers(devices[i].addresses);
        DistinctPart(Prune(devices[i].addresses), devices[i].addresses);
      }
    case _ =>
      var i := FindDevice(devices, c.id);
      if i < |devices| { ChangeKeepsValidDevice(devices[i], c); }
  }

  // ---------------------------------------------------------------- failure counts

  /** Failures recorded for an entry since its last success or since it came into the list,
      read off the history alone. */
  function FailuresSince(history: seq<Change>, id: string, key: Key): nat {
    if history == [] then 0
    else
      var earlier, c := history[..|history| - 1], history[|history| - 1];
      if Lookup(Run(earlier), id, key).None? then 0
      else if c.Succeeded? && c.id == id && c.key == key then 0
      else if c.Failed? && c.id == id && c.key == key then FailuresSince(earlier, id, key) + 1
      else FailuresSince(earlier, id, key)
  }

  /** Successes recorded since the entry came into the list, and those it came with. */
  function SuccessesSince(history: seq<Change>, id: string, key: Key): nat {
    if history == [] then 0
    else
      var earlier, c := history[..|history| - 1], history[|history| - 1];
      if Lookup(Run(earlier), id, key).None? then
        if Brought(c, id, key).Some? then Brought(c, id, key).value.successCount else 0
      else if c.Succeeded? && c.id == id && c.key == key then SuccessesSince(earlier, id, key) + 1
      else SuccessesSince(earlier, id, key)
  }

  /** When the entry came, was brought again or last succeeded. */
  function LastUse(history: seq<Change>, id: string, key: Key): nat {
    if history == [] then 0
    else
      var earlier, c := history[..|history| - 1], history[|history| - 1];
      if Lookup(Run(earlier), id, key).None? && Brought(c, id, key).Some? then Brought(c, id, key).value.lastUsed
      else if (c.Succeeded? || c.AddressAdded?) && c.id == id && c.key == key then c.now
      else LastUse(earlier, id, key)
  }

  /** The entry that a new device brings for a key. */
  function Brought(c: Change, id: string, key: Key): Option<KnownAddress> {
    if c.NewDevice? && c.device.id == id then Entry(c.device.addresses, key) else None
  }

  /** What one change makes of any one entry, if it is still there. */
  function Changed(a: KnownAddress, c: Change, id: string, key: Key): KnownAddress {
    if c.Succeeded? && c.id == id && c.key == key then
      a.(successCount := a.successCount + 1, failCount := 0, lastUsed := c.now)
    else if c.Failed? && c.id == id && c.key == key then a.(failCount := a.failCount + 1)
    else if c.AddressAdded? && c.id == id && c.key == key then a.(lastUsed := c.now)
    else a
  }

  /** How an entry can come in: with a new device, or as a fresh address. */
  predicate Arrives(a: KnownAddress, c: Change, id: string, key: Key) {
    || Brought(c, id, key) == Some(a)
    || (c.AddressAdded? && c.id == id && c.key == key && a == KnownAddress(key.0, key.1, c.now, 0, 0))
  }

  predicate Follows(before: Option<KnownAddress>, after: Option<KnownAddress>, c: Change, id: string, key: Key) {
    after.Some? ==>
      if before.Some? then after.value == Changed(before.value, c, id, key) else Arrives(after.value, c, id, key)
  }

  function Entry(addresses: seq<KnownAddress>, key: Key): Option<KnownAddress> {
    var i := FindKey(addresses, key);
    if i == |addresses| then None else Some(addresses[i])
  }

  lemma EntryIsMember(addresses: seq<KnownAddress>, a: KnownAddress)
    requires DistinctKeys(addresses) && a in addresses
    ensures Entry(addresses, a.Key()) == Some(a)
  {
    var i :| 0 <= i < |addresses| && addresses[i] == a;
    var j := FindKey(addresses, a.Key());
    assert j <= i;
  }

  /** An entry that pruning keeps is the entry it was. */
  lemma PruneEntry(addresses: seq<KnownAddress>, key: Key)
    requires DistinctKeys(addresses)
    ensures Entry(Prune(addresses), key).Some? ==> Entry(Prune(addresses), key) == Entry(addresses, key)
  {
    PruneMembers(addresses);
    if Entry(Prune(addresses), key).Some? {
      EntryIsMember(addresses, Entry(Prune(addresses), key).value);
    }
  }

  lemma UpdatedEntry(addresses: seq<KnownAddress>, i: nat, a: KnownAddress, key: Key)
    requires i < |addresses| && DistinctKeys(addresses) && a.Key() == addresses[i].Key()
    ensures Entry(addresses[i := a], key) == if key == a.Key() then Some(a) else Entry(addresses, key)
  {
    var after := addresses[i := a];
    assert DistinctKeys(after);
    if key == a.Key() {
      EntryIsMember(after, after[i]);
    } else {
      assert forall j :: 0 <= j < |after| && j != i ==> after[j] == addresses[j];
      var j, k := FindKey(after, key), FindKey(addresses, key);
      assert j == k;
    }
  }

  lemma ChangeEntry(d: Device, c: Change, key: Key)
    requires ValidDevice(d) && c != AllPruned && !c.NewDevice? && c.id == d.id
    ensures Follows(Entry(d.addresses, key), Entry(ChangeDevice(d, c).addresses, key), c, d.id, key)
  {
    hide Prune;
    match c
    case AddressAdded(_, k, now) =>
      var i := FindKey(d.addresses, k);
      if i < |d.addresses| {
        UpdatedEntry(d.addresses, i, d.addresses[i].(lastUsed := now), key);
      } else {
        var longer := d.addresses + [NewAddress(k, now)];
        assert DistinctKeys(longer);
        PruneEntry(longer, key);
        if Entry(longer, key).Some? {
          var a := Entry(longer, key).value;
          assert a in longer;
          if a in d.addresses { EntryIsMember(d.addresses, a); }
          else { assert a == NewAddress(k, now); }
        }
      }
    case Succeeded(_, k, now) =>
      var i := FindKey(d.addresses, k);
      if i < |d.addresses| { UpdatedEntry(d.addresses, i, d.addresses[i].RecordSuccess(now), key); }
    case Failed(_, k) =>
      var i := FindKey(d.addresses, k);
      if i < |d.addresses| { UpdatedEntry(d.addresses, i, d.addresses[i].RecordFailure(), key); }
    case _ =>
  }

  lemma LookupIsEntry(devices: seq<Device>, d: Device, key: Key)
    requires Valid(devices) && d in devices
    ensures Lookup(devices, d.id, key) == Entry(d.addresses, key)
  {
    var i :| 0 <= i < |devices| && devices[i] == d;
    assert FindDevice(devices, d.id) == i;
  }

  lemma LookupMissing(devices: seq<Device>, id: string, key: Key)
    requires FindDevice(devices, id) == |devices|
    ensures Lookup(devices, id, key) == None
  {
  }

  lemma EntryInside(addresses: seq<KnownAddress>, key: Key)
    ensures Entry(addresses, key).Some? ==> Entry(addresses, key).value in addresses
  {
  }

  lemma ApplyEntry(devices: seq<Device>, c: Change, id: string, key: Key)
    requires Valid(devices) && Allowed(devices, c)
    ensures Follows(Lookup(devices, id, key), Lookup(Apply(devices, c), id, key), c, id, key)
  {
    hide Lookup, Entry, DistinctKeys, Prune, ChangeDevice;
    var after := Apply(devices, c);
    var n := FindDevice(after, id);
    if n == |after| {
      LookupMissing(after, id, key);
    } else {
      ApplyKeepsValidExactly(devices, c);
      LookupIsEntry(after, after[n], key);
      match c {
        case NewDevice(d) =>
          if n < |devices| {
            LookupIsEntry(devices, devices[n], key);
          } else {
            EntryInside(d.addresses, key);
            LookupMissing(devices, id, key);
          }
        case Removed(_) =>
          RemoveAllMembers(devices, c.id);
          LookupIsEntry(devices, after[n], key);
        case AllPruned =>
          LookupIsEntry(devices, devices[n], key);
          PruneEntry(devices[n].addresses, key);
        case _ =>
          var i := FindDevice(devices, c.id);
          if i < |devices| { ChangeKeepsValidDevice(devices[i], c); }
          LookupIsEntry(devices, devices[n], key);
          if c.id == id { ChangeEntry(devices[n], c, key); }
      }
    }
  }

  /** The counts and the time of an entry, read off the history alone. */
  predicate Replays(history: seq<Change>, id: string, key: Key) {
    var entry := Lookup(Run(history), id, key);
    entry.Some? ==>
      && entry.value.failCount == FailuresSince(history, id, key)
      && entry.value.successCount == SuccessesSince(history, id, key)
      && entry.value.lastUsed == LastUse(history, id, key)
  }

  lemma ReplaysOn(history: seq<Change>, id: string, key: Key)
    requires history != []
    requires var earlier, c := history[..|history| - 1], history[|history| - 1];
             Valid(Run(earlier)) && Allowed(Run(earlier), c) && Replays(earlier, id, key)
    ensures Replays(history, id, key)
  {
    hide Valid, Apply, Lookup, Allowed;
    var earlier, c := history[..|history| - 1], history[|history| - 1];
    AllowedIsAdmitted(Run(earlier), c);
    ApplyEntry(Run(earlier), c, id, key);
    if c.NewDevice? { EntryInside(c.device.addresses, key); }
  }

  lemma AllowedIsAdmitted(devices: seq<Device>, c: Change)
    requires Allowed(devices, c)
    ensures Admits(devices, c)
    ensures c.NewDevice? ==> forall a :: a in c.device.addresses ==> a.failCount == 0
  {
  }

  /** Over every run from an empty cache: device ids stay distinct, no device has more than
      five addresses or two with the same ip and port, and of each entry the failure count is the
      number of failures since its last success or since it was added, the success count that of
      its successes, and the time that of its last use. */
  lemma {:induction false} CacheInvariant(history: seq<Change>)
    requires AllowedRun(history)
    ensures Valid(Run(history))
    ensures forall id, key :: Replays(history, id, key)
  {
    if history != [] {
      hide Valid, Apply, Lookup, Allowed;
      var earlier, c := history[..|history| - 1], history[|history| - 1];
      CacheInvariant(earlier);
      AllowedIsAdmitted(Run(earlier), c);
      ApplyKeepsValidExactly(Run(earlier), c);
      forall id, key ensures Replays(history, id, key) {
        assert Replays(earlier, id, key);
        ReplaysOn(history, id, key);
      }
    }
  }

  // ---------------------------------------------------------------- reconnecting

  function Keys(addresses: seq<KnownAddress>): (keys: seq<Key>) {
    seq(|addresses|, i requires 0 <= i < |addresses| => addresses[i].Key())
  }

  /** What a pass over `order` records, when `works` says at which addresses the peer answers. */
  function PassChanges(id: string, order: seq<Key>, works: Key -> bool, now: nat): seq<Change> {
    if order == [] then []
    else if works(order[0]) then [Succeeded(id, order[0], now)]
    else [Failed(id, order[0])] + PassChanges(id, order[1..], works, now)
  }

  function FirstWorking(order: seq<Key>, works: Key -> bool): (w: nat)
    ensures w <= |order|
    ensures w < |order| ==> works(order[w])
    ensures forall j :: 0 <= j < w ==> !works(order[j])
  {
    if order == [] || works(order[0]) then 0 else 1 + FirstWorking(order[1..], works)
  }

  /** A recorded attempt changes the entry it names and no other entry of any device. */
  lemma AttemptEntry(devices: seq<Device>, c: Change, key: Key)
    requires Valid(devices) && (c.Succeeded? || c.Failed?)
    ensures Valid(Apply(devices, c))
    ensures var before, after := Lookup(devices, c.id, key), Lookup(Apply(devices, c), c.id, key);
            after == if before.None? || key != c.key then before
                     else if c.Succeeded? then Some(before.value.RecordSuccess(c.now))
                     else Some(before.value.RecordFailure())
  {
    ApplyKeepsValidExactly(devices, c);
    var n := FindDevice(devices, c.id);
    if n < |devices| {
      var d, d' := devices[n], ChangeDevice(devices[n], c);
      var i := FindKey(d.addresses, c.key);
      if i < |d.addresses| { UpdatedEntry(d.addresses, i, d'.addresses[i], key); }
      LookupIsEntry(devices, d, key);
      assert Apply(devices, c)[n] == d';
      LookupIsEntry(Apply(devices, c), d', key);
    }
  }

  lemma {:induction false} PassUntouched(devices: seq<Device>, id: string, order: seq<Key>, works: Key -> bool,
                                         now: nat, key: Key)
    requires Valid(devices) && key !in order
    ensures Lookup(ApplyAll(devices, PassChanges(id, order, works, now)), id, key) == Lookup(devices, id, key)
    decreases |order|
  {
    if order != [] {
      var changes := PassChanges(id, order, works, now);
      AttemptEntry(devices, changes[0], key);
      assert changes[1..] == if works(order[0]) then [] else PassChanges(id, order[1..], works, now);
      if !works(order[0]) { PassUntouched(Apply(devices, changes[0]), id, order[1..], works, now, key); }
    }
  }

  lemma {:induction false} PassCharges(devices: seq<Device>, id: string, order: seq<Key>, works: Key -> bool,
                                       now: nat, j: nat)
    requires Valid(devices) && j < |order|
    requires forall a, b :: 0 <= a < b < |order| ==> order[a] != order[b]
    requires Lookup(devices, id, order[j]).Some?
    ensures var w, e := FirstWorking(order, works), Lookup(devices, id, order[j]).value;
            Lookup(ApplyAll(devices, PassChanges(id, order, works, now)), id, order[j])
            == Some(if j < w then e.RecordFailure() else if j == w then e.RecordSuccess(now) else e)
    decreases |order|
  {
    hide Valid, Apply, Lookup;
    var changes := PassChanges(id, order, works, now);
    AttemptEntry(devices, changes[0], order[j]);
    assert changes[1..] == if works(order[0]) then [] else PassChanges(id, order[1..], works, now);
    if !works(order[0]) {
      var next := Apply(devices, changes[0]);
      if j == 0 {
        PassUntouched(next, id, order[1..], works, now, order[0]);
      } else {
        assert order[1..][j - 1] == order[j];
        PassCharges(next, id, order[1..], works, now, j - 1);
      }
    }
  }

  lemma {:induction false} PassKeepsOthers(devices: seq<Device>, changes: seq<Change>, id: string)
    requires forall c :: c in changes ==> (c.Succeeded? || c.Failed?) && c.id == id
    ensures |ApplyAll(devices, changes)| == |devices|
    ensures forall i :: 0 <= i < |devices| && devices[i].id != id ==> ApplyAll(devices, changes)[i] == devices[i]
    decreases |changes|
  {
    if changes != [] {
      var next := Apply(devices, changes[0]);
      assert changes[0] in changes;
      assert forall i :: 0 <= i < |devices| && devices[i].id != id ==> next[i] == devices[i];
      PassKeepsOthers(next, changes[1..], id);
    }
  }

  lemma {:induction false} PassChangesNamed(id: string, order: seq<Key>, works: Key -> bool, now: nat)
    ensures forall c :: c in PassChanges(id, order, works, now) ==> (c.Succeeded? || c.Failed?) && c.id == id
  {
    if order != [] { PassChangesNamed(id, order[1..], works, now); }
  }

  /** One reconnect pass, for any device and whatever the peer answers: in priority order, one
      failure is charged to each address before the first that works, one success to that
      one, and nothing to the rest or to any other device. */
  lemma ReconnectCharges(devices: seq<Device>, n: nat, works: Key -> bool, now: nat, j: nat)
    requires Valid(devices) && n < |devices| && j < |devices[n].addresses|
    ensures var d := devices[n];
            var tried := Prioritized(d.addresses);
            var w := FirstWorking(Keys(tried), works);
            var after := ApplyAll(devices, PassChanges(d.id, Keys(tried), works, now));
            && Lookup(after, d.id, tried[j].Key())
               == Some(if j < w then tried[j].RecordFailure()
                       else if j == w then tried[j].RecordSuccess(now) else tried[j])
            && |after| == |devices|
            && forall i :: 0 <= i < |devices| && i != n ==> after[i] == devices[i]
  {
    var d := devices[n];
    var tried := Prioritized(d.addresses);
    PrioritizedOrder(d.addresses);
    DistinctPart(tried, d.addresses);
    assert tried[j] in multiset(tried);
    EntryIsMember(d.addresses, tried[j]);
    LookupIsEntry(devices, d, tried[j].Key());
    PassCharges(devices, d.id, Keys(tried), works, now, j);
    PassChangesNamed(d.id, Keys(tried), works, now);
    PassKeepsOthers(devices, PassChanges(d.id, Keys(tried), works, now), d.id);
  }

  /** One address stands out: it has worked, and it was used later than all others. */
  lemma FirstIsBest(addresses: seq<KnownAddress>, best: KnownAddress, now: nat)
    requires best in addresses && best.successCount > 0 && best.lastUsed == now
    requires forall a :: a in addresses && a != best ==> a.lastUsed < now
    ensures Prioritized(addresses)[0] == best
  {
    var p := Prioritized(addresses);
    PrioritizedOrder(addresses);
    assert best in multiset(p);
    var i :| 0 <= i < |p| && p[i] == best;
    assert p[0] in multiset(p);
  }

  /** The same device with the same keys; only the entry named may have a new time. */
  predicate SameButFor(before: Device, after: Device, touched: Option<Key>) {
    && after.id == before.id
    && |after.addresses| == |before.addresses|
    && forall i :: 0 <= i < |after.addresses| ==>
         && after.addresses[i].Key() == before.addresses[i].Key()
         && (after.addresses[i].lastUsed == before.addresses[i].lastUsed || touched == Some(after.addresses[i].Key()))
  }

  lemma AttemptShape(devices: seq<Device>, n: nat, c: Change)
    requires Valid(devices) && n < |devices| && (c.Succeeded? || c.Failed?) && c.id == devices[n].id
    ensures var next := Apply(devices, c);
            && Valid(next)
            && FindDevice(next, c.id) == n < |next|
            && SameButFor(devices[n], next[n], if c.Succeeded? then Some(c.key) else None)
  {
    ApplyKeepsValidExactly(devices, c);
    assert FindDevice(devices, c.id) == n;
    assert Apply(devices, c)[n] == ChangeDevice(devices[n], c);
  }

  /** During a pass only the entry that succeeds gets a new time. */
  lemma {:induction false} PassShape(devices: seq<Device>, n: nat, order: seq<Key>, works: Key -> bool, now: nat)
    requires Valid(devices) && n < |devices|
    ensures var after := ApplyAll(devices, PassChanges(devices[n].id, order, works, now));
            var w := FirstWorking(order, works);
            && Valid(after)
            && FindDevice(after, devices[n].id) == n < |after|
            && SameButFor(devices[n], after[n], if w < |order| then Some(order[w]) else None)
    decreases |order|
  {
    hide Valid, Apply;
    var id := devices[n].id;
    if order == [] {
      FoundAt(devices, n);
    } else {
      var changes := PassChanges(id, order, works, now);
      AttemptShape(devices, n, changes[0]);
      assert changes[1..] == if works(order[0]) then [] else PassChanges(id, order[1..], works, now);
      if !works(order[0]) { PassShape(Apply(devices, changes[0]), n, order[1..], works, now); }
    }
  }

  lemma FoundAt(devices: seq<Device>, n: nat)
    requires Valid(devices) && n < |devices|
    ensures FindDevice(devices, devices[n].id) == n
  {
  }

  /** The cache learns: after a pass that succeeded later than anything recorded before, the next
      pass tries the address that worked first. */
  lemma WorkingAddressComesFirst(devices: seq<Device>, n: nat, works: Key -> bool, now: nat)
    requires Valid(devices) && n < |devices|
    requires forall a :: a in devices[n].addresses ==> a.lastUsed < now
    requires var keys := Keys(Prioritized(devices[n].addresses)); FirstWorking(keys, works) < |keys|
    ensures var d := devices[n];
            var keys := Keys(Prioritized(d.addresses));
            var after := ApplyAll(devices, PassChanges(d.id, keys, works, now));
            && FindDevice(after, d.id) == n < |after|
            && after[n].addresses != []
            && Keys(Prioritized(after[n].addresses))[0] == keys[FirstWorking(keys, works)]
  {
    var d := devices[n];
    var keys := Keys(Prioritized(d.addresses));
    var w := FirstWorking(keys, works);
    PassShape(devices, n, keys, works, now);
    var after := ApplyAll(devices, PassChanges(d.id, keys, works, now));
    ReconnectCharges(devices, n, works, now, w);
    LookupIsEntry(after, after[n], keys[w]);
    var addresses := after[n].addresses;
    var best := Entry(addresses, keys[w]).value;
    assert best.successCount > 0 && best.lastUsed == now;
    FirstIsBest(addresses, best, now);
  }

  /** What one attempt dates: a success is when the device was last connected and last seen, a
      failure is neither; nothing else of the device changes but its addresses. */
  predicate Dated(before: Device, after: Device, success: bool, now: nat) {
    && after.lastConnected == (if success then Some(now) else before.lastConnected)
    && after.lastSeen == (if success then Some(now) else before.lastSeen)
    && after.(addresses := before.addresses, lastConnected := before.lastConnected, lastSeen := before.lastSeen)
       == before
  }

  lemma AttemptDates(devices: seq<Device>, n: nat, c: Change)
    requires Valid(devices) && n < |devices| && (c.Succeeded? || c.Failed?) && c.id == devices[n].id
    ensures Dated(devices[n], Apply(devices, c)[n], c.Succeeded?, if c.Succeeded? then c.now else 0)
  {
    FoundAt(devices, n);
  }

  lemma {:induction false} PassDates(devices: seq<Device>, n: nat, order: seq<Key>, works: Key -> bool, now: nat)
    requires Valid(devices) && n < |devices|
    ensures var after := ApplyAll(devices, PassChanges(devices[n].id, order, works, now));
            n < |after| && Dated(devices[n], after[n], FirstWorking(order, works) < |order|, now)
    decreases |order|
  {
    if order != [] {
      hide Valid, Apply;
      var changes := PassChanges(devices[n].id, order, works, now);
      AttemptShape(devices, n, changes[0]);
      AttemptDates(devices, n, changes[0]);
      assert changes[1..] == if works(order[0]) then [] else PassChanges(devices[n].id, order[1..], works, now);
      if !works(order[0]) { PassDates(Apply(devices, changes[0]), n, order[1..], works, now); }
    }
  }

  /** Pruning all devices takes exactly the addresses that have failed more than ten times in a
      row out of each, and changes nothing else of it. */
  lemma AllPrunedExactly(devices: seq<Device>, i: nat, a: KnownAddress)
    requires Valid(devices) && i < |devices|
    ensures var after := Apply(devices, AllPruned);
            && |after| == |devices|
            && after[i].(addresses := devices[i].addresses) == devices[i]
            && (a in after[i].addresses <==> a in devices[i].addresses && a.failCount <= 10)
  {
    PruneExact(devices[i].addresses);
    SelectLength(devices[i].addresses, Keeps);
  }
}
