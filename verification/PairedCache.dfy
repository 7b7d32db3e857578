/** The cache as the object it is (src-tauri/src/network/cache.rs), and the reconnect pass that works
on it (src-tauri/src/network/commands.rs). */
module PairedCache {
  import opened Wrappers
  import opened Sequences
  import opened AddressCache
  import opened PairedDevices
  import opened AddingDevices

  class PairedDevicesCache {
    var devices: seq<Device>

    constructor ()
      ensures devices == []
    {
      devices := [];
    }

    method IndexOf(id: string) returns (i: nat)
      ensures i == FindDevice(devices, id)
    {
      i := 0;
      while i < |devices| && devices[i].id != id
        invariant i <= |devices|
        invariant forall j :: 0 <= j < i ==> devices[j].id != id
      {
        i := i + 1;
      }
    }

    /** Apply a change to the first device with the id, if there is one. */
    method Update(c: Change) returns (found: bool)
      requires !c.NewDevice? && !c.Removed? && !c.AllPruned?
      modifies this
      ensures devices == Apply(old(devices), c)
      ensures found <==> FindDevice(old(devices), c.id) < |old(devices)|
    {
      var i := IndexOf(c.id);
      found := i < |devices|;
      if found {
        devices := devices[i := ChangeDevice(devices[i], c)];
      }
    }

    method AddDevice(device: Device, now: nat)
      modifies this
      ensures devices == ApplyAll(old(devices), AddChanges(old(devices), device, now))
      ensures old(Valid(devices)) ==> Added(old(devices), device, now, devices)
    {
      hide Added, FindDevice, ChangeDevice, ApplyAll;
      if Valid(devices) { AddingStores(devices, device, now); }
      ghost var changes := AddChanges(devices, device, now);
      var i := IndexOf(device.id);
      if i == |devices| {
        ApplyUnfold(devices, changes);
        devices := devices + [device];
        assert changes[1..] == [];
        ApplyUnfold(devices, []);
      } else {
        ghost var merge := MergeChanges(device.id, device.addresses, now);
        assert changes[1..] == merge;
        hide Apply;
        ApplyUnfold(devices, changes);
        var _ := Update(Renamed(device.id, device.name, device.fingerprint));
        var k := 0;
        while k < |device.addresses|
          invariant k <= |device.addresses|
          invariant ApplyAll(devices, merge[k..]) == ApplyAll(old(devices), changes)
        {
          assert merge[k..][1..] == merge[k + 1..];
          ApplyUnfold(devices, merge[k..]);
          var _ := Update(AddressAdded(device.id, device.addresses[k].Key(), now));
          k := k + 1;
        }
        assert merge[k..] == [];
        ApplyUnfold(devices, []);
      }
    }

    method RemoveDevice(id: string) returns (result: Result<(), string>)
      modifies this
      ensures devices == RemoveAll(old(devices), id)
      ensures result.Err? <==> FindDevice(old(devices), id) == |old(devices)|
    {
      hide Select;
      var kept: seq<Device> := [];
      var i := 0;
      SelectUnfold<Device>([], OtherThan(id));
      while i < |devices|
        invariant i <= |devices| && devices == old(devices)
        invariant kept == RemoveAll(devices[..i], id)
        invariant |kept| <= i
        invariant |kept| == i <==> forall j :: 0 <= j < i ==> devices[j].id != id
      {
        assert devices[..i + 1] == devices[..i] + [devices[i]];
        SelectAppend(devices[..i], [devices[i]], OtherThan(id));
        SelectOne(devices[i], OtherThan(id));
        if devices[i].id != id {
          kept := kept + [devices[i]];
        }
        i := i + 1;
      }
      assert devices[..i] == devices;
      result := if |kept| == |devices| then Err(id) else Ok(());
      devices := kept;
    }

    method PruneAllAddresses()
      modifies this
      ensures devices == Apply(old(devices), AllPruned)
    {
      var i := 0;
      while i < |devices|
        invariant i <= |devices| == |old(devices)|
        invariant forall j :: 0 <= j < |devices| ==>
                    devices[j] == if j < i then PruneDevice(old(devices)[j]) else old(devices)[j]
      {
        devices := devices[i := PruneDevice(devices[i])];
        i := i + 1;
      }
    }

    /** Try the addresses in priority order until one works, recording each outcome. */
    method Reconnect(id: string, works: Key -> bool, now: nat) returns (result: Result<Key, string>)
      modifies this
      ensures var n := FindDevice(old(devices), id);
              if n == |old(devices)| then result.Err? && devices == old(devices)
              else
                var order := Keys(Prioritized(old(devices)[n].addresses));
                && devices == ApplyAll(old(devices), PassChanges(id, order, works, now))
                && result == if FirstWorking(order, works) < |order| then Ok(order[FirstWorking(order, works)])
                             else Err("offline")
    {
      hide ApplyAll, Apply;
      var n := IndexOf(id);
      if n == |devices| {
        return Err("not found");
      }
      var order := Keys(Prioritized(devices[n].addresses));
      ghost var all := PassChanges(id, order, works, now);
      var k := 0;
      while k < |order|
        invariant k <= |order|
        invariant forall j :: 0 <= j < k ==> !works(order[j])
        invariant ApplyAll(devices, PassChanges(id, order[k..], works, now)) == ApplyAll(old(devices), all)
      {
        assert order[k..][1..] == order[k + 1..];
        ghost var rest := PassChanges(id, order[k..], works, now);
        ApplyUnfold(devices, rest);
        if works(order[k]) {
          assert rest[1..] == [];
          var _ := Update(Succeeded(id, order[k], now));
          ApplyUnfold(devices, []);
          return Ok(order[k]);
        }
        assert rest[1..] == PassChanges(id, order[k + 1..], works, now);
        var _ := Update(Failed(id, order[k]));
        k := k + 1;
      }
      assert order[k..] == [];
      ApplyUnfold(devices, []);
      result := Err("offline");
    }
  }
}
