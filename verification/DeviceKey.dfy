/** Which key encrypts the master key on this device, launch after launch
(src-tauri/src/crypto/stronghold.rs): OS keychain first, a salt file once it has failed. */
module DeviceKey {
  import opened Bytes
  import opened Wrappers

  type Bytes32 = b: seq<byte> | |b| == 32 witness seq(32, _ => 0 as byte)

  /** A key taken from the keychain, or hashed from the salt. */
  datatype Key = Stored(bytes: Bytes32) | Derived(salt: Bytes32)

  /** A keychain entry decodes to a key or does not. */
  datatype Entry = Valid(key: Bytes32) | Garbled

  datatype Sealed = Sealed(under: Key, masterKey: Bytes32)

  datatype Device = Device(salt: Option<seq<byte>>, marker: bool, master: Option<Sealed>, entry: Option<Entry>)

  datatype Failure = KeychainFailed | ReadSaltFailed | InvalidSalt | WriteSaltFailed | RetrieveFailed

  /** What one launch meets: which calls succeed, the random bytes, and the entry another thread
      leaves in the keychain while ours cannot be stored. */
  datatype Conditions = Conditions(
    entryOpens: bool, getWorks: bool, setWorks: bool, raced: Option<Entry>,
    removeSalt: bool, removeMaster: bool, readSalt: bool, writeSalt: bool, writeMarker: bool,
    freshKey: Bytes32, freshSalt: Bytes32)

  const NEW_DEVICE: Device := Device(None, false, None, None)

  predicate FilesWork(c: Conditions) {
    c.removeSalt && c.removeMaster && c.readSalt && c.writeSalt && c.writeMarker
  }

  predicate KeychainReachable(c: Conditions) { c.entryOpens && c.getWorks }

  // ---------------------------------------------------------------- one launch

  predicate Migrating(d: Device) { d.salt.Some? && !d.marker }

  function Migrate(d: Device, c: Conditions): Device {
    if !Migrating(d) then d
    else d.(salt := if c.removeSalt then None else d.salt, master := if c.removeMaster then None else d.master)
  }

  function Decode(e: Entry): Result<Key, Failure> {
    if e.Valid? then Ok(Stored(e.key)) else Err(KeychainFailed)
  }

  function FromKeychain(d: Device, c: Conditions): (Device, Result<Key, Failure>) {
    if !KeychainReachable(c) then (d, Err(KeychainFailed))
    else if d.entry.Some? then (d, Decode(d.entry.value))
    else if c.setWorks then (d.(entry := Some(Valid(c.freshKey))), Ok(Stored(c.freshKey)))
    else if c.raced.Some? then (d.(entry := c.raced), Decode(c.raced.value))
    else (d, Err(KeychainFailed))
  }

  function FromSalt(d: Device, c: Conditions): (Device, Result<Key, Failure>) {
    if d.salt.Some? then
      if !c.readSalt then (d, Err(ReadSaltFailed))
      else if |d.salt.value| != 32 then (d, Err(InvalidSalt))
      else (d.(marker := d.marker || c.writeMarker), Ok(Derived(d.salt.value)))
    else if !c.writeSalt then (d, Err(WriteSaltFailed))
    else (d.(salt := Some(c.freshSalt), marker := d.marker || c.writeMarker), Ok(Derived(c.freshSalt)))
  }

  function Launch(d: Device, c: Conditions): (Device, Result<Key, Failure>) {
    var m := Migrate(d, c);
    if m.salt.Some? then FromSalt(m, c)
    else
      var tried := FromKeychain(m, c);
      if tried.1.Ok? then tried else FromSalt(tried.0, c)
  }

  /** The files and the keychain, changed step by step. */
  class Stronghold {
    var salt: Option<seq<byte>>
    var marker: bool
    var master: Option<Sealed>
    var entry: Option<Entry>

    ghost function State(): Device
      reads this
    {
      Device(salt, marker, master, entry)
    }

    method GetOrCreateDeviceKey(c: Conditions) returns (key: Result<Key, Failure>)
      modifies this
      ensures (State(), key) == Launch(old(State()), c)
    {
      if salt.Some? && !marker {
        if c.removeSalt { salt := None; }
        if master.Some? && c.removeMaster { master := None; }
      }
      if salt.Some? {
        key := GetOrCreateFallbackKey(c);
        return;
      }
      key := GetKeyFromKeychain(c);
      if key.Err? {
        key := GetOrCreateFallbackKey(c);
      }
    }

    method GetKeyFromKeychain(c: Conditions) returns (key: Result<Key, Failure>)
      modifies this`entry
      ensures (State(), key) == FromKeychain(old(State()), c)
    {
      if !c.entryOpens || !c.getWorks { return Err(KeychainFailed); }
      if entry.Some? { return Decode(entry.value); }
      if c.setWorks {
        entry := Some(Valid(c.freshKey));
        return Ok(Stored(c.freshKey));
      }
      if c.raced.None? { return Err(KeychainFailed); }
      entry := c.raced;
      return Decode(entry.value);
    }

    method GetOrCreateFallbackKey(c: Conditions) returns (key: Result<Key, Failure>)
      modifies this`salt, this`marker
      ensures (State(), key) == FromSalt(old(State()), c)
    {
      if salt.Some? {
        if !c.readSalt { return Err(ReadSaltFailed); }
        if |salt.value| != 32 { return Err(InvalidSalt); }
      } else {
        if !c.writeSalt { return Err(WriteSaltFailed); }
        salt := Some(c.freshSalt);
      }
      if !marker && c.writeMarker { marker := true; }
      return Ok(Derived(salt.value));
    }

    method StoreMasterKey(deviceKey: Key, masterKey: Bytes32)
      modifies this`master
      ensures State() == WithMaster(old(State()), deviceKey, masterKey)
    {
      master := Some(Sealed(deviceKey, masterKey));
    }

    method GetMasterKey(deviceKey: Key) returns (r: Result<Bytes32, Failure>)
      ensures r == Unseal(State(), deviceKey)
    {
      if master.None? || master.value.under != deviceKey { return Err(RetrieveFailed); }
      return Ok(master.value.masterKey);
    }
  }

  function WithMaster(d: Device, deviceKey: Key, masterKey: Bytes32): Device {
    d.(master := Some(Sealed(deviceKey, masterKey)))
  }

  /** Decryption undoes encryption under the same key and fails under any other. */
  function Unseal(d: Device, deviceKey: Key): Result<Bytes32, Failure> {
    if d.master.None? || d.master.value.under != deviceKey then Err(RetrieveFailed) else Ok(d.master.value.masterKey)
  }

  // ---------------------------------------------------------------- runs

  predicate AllFilesWork(run: seq<Conditions>) { forall c :: c in run ==> FilesWork(c) }

  predicate AllReachable(run: seq<Conditions>) { forall c :: c in run ==> KeychainReachable(c) }

  /** The device after a run of launches. */
  function After(d: Device, run: seq<Conditions>): Device {
    if run == [] then d else Launch(After(d, run[..|run| - 1]), run[|run| - 1]).0
  }

  /** The key that launch i of a run ends with. */
  function KeyAt(d: Device, run: seq<Conditions>, i: nat): Result<Key, Failure>
    requires i < |run|
  {
    Launch(After(d, run[..i]), run[i]).1
  }

  lemma AfterStep(d: Device, run: seq<Conditions>, i: nat)
    requires i < |run|
    ensures After(d, run[..i + 1]) == Launch(After(d, run[..i]), run[i]).0
  {
    assert run[..i + 1][..i] == run[..i];
  }

  /** What `d` will go on to use: the salt if there is one, or else the keychain entry. */
  predicate Uses(d: Device, k: Key) {
    match k
    case Derived(salt) => d.salt == Some(salt) && d.marker
    case Stored(bytes) => d.salt.None? && d.entry == Some(Valid(bytes))
  }

  /** A launch that succeeds leaves a device that uses the key it returned, and no launch with
      working files leaves anything to migrate. */
  lemma LaunchSettles(d: Device, c: Conditions)
    requires FilesWork(c)
    ensures !Migrating(Launch(d, c).0)
    ensures Launch(d, c).1.Ok? ==> Uses(Launch(d, c).0, Launch(d, c).1.value)
    ensures Launch(d, c).1.Err? <==> Launch(d, c).1 == Err(InvalidSalt)
    ensures Launch(d, c).1.Err? <==> d.marker && d.salt.Some? && |d.salt.value| != 32
  {
  }

  /** A device in use keeps its key and its master file, except that a keychain out of reach
      makes it change to a fresh salt for good. */
  lemma LaunchKeeps(d: Device, c: Conditions, k: Key)
    requires FilesWork(c) && Uses(d, k)
    ensures Launch(d, c).0.master == d.master
    ensures k.Derived? || KeychainReachable(c) ==> Launch(d, c).1 == Ok(k) && Uses(Launch(d, c).0, k)
    ensures k.Stored? && !KeychainReachable(c) ==>
              Launch(d, c).1 == Ok(Derived(c.freshSalt)) && Uses(Launch(d, c).0, Derived(c.freshSalt))
  {
  }

  /** No salt stands once an old one without its marker has been migrated away. */
  predicate NoSaltLeft(d: Device) { d.salt.None? || !d.marker }

  /** The keychain has this key to give in a launch: the one it holds, or if it holds none the new
      one that it takes, or else the one that another thread has just put there. */
  predicate KeychainHas(d: Device, c: Conditions, key: Bytes32) {
    && KeychainReachable(c)
    && (|| d.entry == Some(Valid(key))
        || (d.entry == None && c.setWorks && key == c.freshKey)
        || (d.entry == None && !c.setWorks && c.raced == Some(Valid(key))))
  }

  /** With working files a launch gives a key of the keychain if and only if no salt is left and
      the keychain has that key to give. Then the keychain holds it and no salt is written.
      In any other launch that succeeds the key is of the salt left, or of a new one, which stays
      with its marker. */
  lemma LaunchGivesExactly(d: Device, c: Conditions, key: Bytes32)
    requires FilesWork(c)
    ensures Launch(d, c).1 == Ok(Stored(key)) <==> NoSaltLeft(d) && KeychainHas(d, c, key)
    ensures Launch(d, c).1 == Ok(Stored(key)) ==>
              && Launch(d, c).0.salt == None && Launch(d, c).0.entry == Some(Valid(key))
              && Launch(d, c).0.marker == d.marker
    ensures Launch(d, c).1 == Ok(Derived(key)) <==>
              if NoSaltLeft(d) then key == c.freshSalt && !exists k :: KeychainHas(d, c, k) else d.salt == Some(key)
    ensures Launch(d, c).1 == Ok(Derived(key)) ==> Launch(d, c).0.salt == Some(key) && Launch(d, c).0.marker
  {
    if NoSaltLeft(d) {
      assert KeychainHas(d, c, c.freshKey) <==>
             KeychainReachable(c) && (d.entry == Some(Valid(c.freshKey)) || (d.entry == None && c.setWorks)
                                      || (d.entry == None && c.raced == Some(Valid(c.freshKey))));
      if d.entry.Some? && d.entry.value.Valid? {
        assert KeychainHas(d, c, d.entry.value.key) <==> KeychainReachable(c);
      }
      if d.entry.None? && !c.setWorks && c.raced.Some? && c.raced.value.Valid? {
        assert KeychainHas(d, c, c.raced.value.key) <==> KeychainReachable(c);
      }
    }
  }

  /** Whatever files fail: a launch gives no key if and only if the salt left cannot be read or has
      the wrong length, or none is left, the keychain has none to give, and none can be written.
      A salt that cannot be removed in a migration is left. */
  lemma LaunchFailsExactly(d: Device, c: Conditions)
    ensures var left := if Migrating(d) && c.removeSalt then None else d.salt;
            && (Launch(d, c).1.Err? <==>
                  if left.Some? then !c.readSalt || |left.value| != 32
                  else !c.writeSalt && forall key :: !KeychainHas(d, c, key))
            && (Launch(d, c).1.Err? ==> Launch(d, c).0.salt == left && Launch(d, c).0.marker == d.marker)
  {
    if d.entry.Some? && d.entry.value.Valid? {
      assert KeychainHas(d, c, d.entry.value.key) <==> KeychainReachable(c);
    } else if d.entry.None? && c.setWorks {
      assert KeychainHas(d, c, c.freshKey) <==> KeychainReachable(c);
    } else if d.entry.None? && c.raced.Some? && c.raced.value.Valid? {
      assert KeychainHas(d, c, c.raced.value.key) <==> KeychainReachable(c);
    }
  }

  /** A migration discards the old salt and the master file that it protected, and only those;
      no other launch with working files touches the master file. */
  lemma MigrationDiscardsExactly(d: Device, c: Conditions)
    requires FilesWork(c)
    ensures Launch(d, c).0.master == if Migrating(d) then None else d.master
    ensures Migrating(d) ==> forall salt :: Launch(d, c).1 == Ok(Derived(salt)) ==> salt == c.freshSalt
  {
  }

  /** A new device whose keychain stays in reach and has a key to give at the first launch, its own
      or a raced one, gives that key at every launch and never writes a salt. */
  lemma NewDeviceKeepsKeychainKey(run: seq<Conditions>, j: nat, key: Bytes32)
    requires AllFilesWork(run) && AllReachable(run) && j < |run| && KeychainHas(NEW_DEVICE, run[0], key)
    ensures KeyAt(NEW_DEVICE, run, j) == Ok(Stored(key))
    ensures After(NEW_DEVICE, run[..j + 1]).salt == None
    ensures After(NEW_DEVICE, run[..j + 1]).entry == Some(Valid(key))
  {
    assert run[0] in run;
    assert After(NEW_DEVICE, run[..0]) == NEW_DEVICE;
    LaunchGivesExactly(NEW_DEVICE, run[0], key);
    assert forall c :: c in run[1..j + 1] ==> c in run;
    KeyKeptExactly(NEW_DEVICE, run, 0, j, Stored(key));
  }

  /** Nothing is migrated after the first launch. */
  lemma {:induction false} MigratesOnlyFirst(d: Device, run: seq<Conditions>, i: nat)
    requires AllFilesWork(run) && 0 < i <= |run|
    ensures !Migrating(After(d, run[..i]))
  {
    assert run[i - 1] in run;
    AfterStep(d, run, i - 1);
    LaunchSettles(After(d, run[..i - 1]), run[i - 1]);
  }

  /** After a launch that gave key k, a later launch succeeds, and gives k again if and only if
      k comes from the salt or the keychain was in reach at every launch since. */
  lemma {:induction false} KeyKeptExactly(d: Device, run: seq<Conditions>, i: nat, j: nat, k: Key)
    requires AllFilesWork(run) && i <= j < |run| && KeyAt(d, run, i) == Ok(k)
    ensures KeyAt(d, run, j).Ok? && Uses(After(d, run[..j + 1]), KeyAt(d, run, j).value)
    ensures KeyAt(d, run, j) == Ok(k) <==> k.Derived? || AllReachable(run[i + 1..j + 1])
    ensures KeyAt(d, run, j) != Ok(k) ==> KeyAt(d, run, j).value.Derived?
    decreases j
  {
    hide Launch, Uses;
    assert run[j] in run;
    AfterStep(d, run, j);
    if i == j {
      LaunchSettles(After(d, run[..i]), run[i]);
    } else {
      KeyKeptExactly(d, run, i, j - 1, k);
      LaunchKeeps(After(d, run[..j]), run[j], KeyAt(d, run, j - 1).value);
      assert run[i + 1..j + 1] == run[i + 1..j] + [run[j]];
    }
  }

  /** In any run the key changes at most once: two launches that differ leave no third key. */
  lemma KeyChangesAtMostOnce(d: Device, run: seq<Conditions>, i: nat, j: nat, l: nat)
    requires AllFilesWork(run) && i <= j <= l < |run| && KeyAt(d, run, i).Ok?
    ensures KeyAt(d, run, j) == KeyAt(d, run, i) || KeyAt(d, run, l) == KeyAt(d, run, j)
  {
    KeyKeptExactly(d, run, i, j, KeyAt(d, run, i).value);
    KeyKeptExactly(d, run, j, l, KeyAt(d, run, j).value);
  }

  /** Launches leave the master file of a device in use alone. */
  lemma {:induction false} MasterKept(d: Device, run: seq<Conditions>, k: Key)
    requires AllFilesWork(run) && Uses(d, k)
    ensures After(d, run).master == d.master
    ensures exists now :: Uses(After(d, run), now)
  {
    if run != [] {
      var front, last := run[..|run| - 1], run[|run| - 1];
      assert last in run;
      MasterKept(d, front, k);
      var now :| Uses(After(d, front), now);
      LaunchKeeps(After(d, front), last, now);
      LaunchSettles(After(d, front), last);
      assert Uses(Launch(After(d, front), last).0, Launch(After(d, front), last).1.value);
    }
  }

  /** The master key stored at one launch can be read at a later one if and only if it was stored
      under a salt key or the keychain was in reach at every launch since. */
  lemma ReadableExactly(d: Device, first: Conditions, masterKey: Bytes32, later: seq<Conditions>)
    requires FilesWork(first) && AllFilesWork(later) && later != []
    requires Launch(d, first).1.Ok?
    ensures var k := Launch(d, first).1.value;
            var stored := WithMaster(Launch(d, first).0, k, masterKey);
            var now := KeyAt(stored, later, |later| - 1);
            && now.Ok?
            && (Unseal(After(stored, later), now.value) == Ok(masterKey) <==> k.Derived? || AllReachable(later))
  {
    var k := Launch(d, first).1.value;
    LaunchSettles(d, first);
    var stored := WithMaster(Launch(d, first).0, k, masterKey);
    assert Uses(stored, k);
    MasterKept(stored, later, k);
    KeptFromStart(stored, later, k);
  }

  lemma KeptFromStart(d: Device, run: seq<Conditions>, k: Key)
    requires AllFilesWork(run) && run != [] && Uses(d, k)
    ensures KeyAt(d, run, |run| - 1).Ok?
    ensures KeyAt(d, run, |run| - 1) == Ok(k) <==> k.Derived? || AllReachable(run)
  {
    hide Launch, Uses;
    assert run[0] in run;
    assert After(d, run[..0]) == d;
    LaunchKeeps(d, run[0], k);
    KeyKeptExactly(d, run, 0, |run| - 1, KeyAt(d, run, 0).value);
    assert run == [run[0]] + run[1..|run| - 1 + 1];
  }

  /** The marker is what protects a salt key: after a launch that ended on one, the next launch
      leaves the master key readable if and only if the marker was there or could be written. */
  lemma MarkerMattersExactly(d: Device, c: Conditions, masterKey: Bytes32, next: Conditions)
    requires Launch(d, c).1.Ok? && Launch(d, c).1.value.Derived? && FilesWork(next)
    ensures var k := Launch(d, c).1.value;
            var r := Launch(WithMaster(Launch(d, c).0, k, masterKey), next);
            r.1.Ok? && (Unseal(r.0, r.1.value) == Ok(masterKey) <==> d.marker || c.writeMarker)
  {
  }
}
