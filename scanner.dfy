/**
 * The device table of BLEScanner in dearpygui_app.py: the detection callback that records
 * or refreshes a device and fires the GUI callbacks, and one pass of the stale-device sweep.
 * The three GUI callbacks are recorded as an event log.
 */
module Scanner {
  import opened Wrappers
  import opened Seqs
  import opened BleCommon

  /** Seconds since the last sighting after which a device is removed. */
  const TIMEOUT_SECONDS: int := 20

  /**
   * One `devices[address]` tuple. The service flag is stored as the STRING `str(bool)`, so
   * `Some(b)` (either "True" or "False") is truthy and only `None` is falsy.
   */
  datatype DeviceEntry = DeviceEntry(name: Option<string>, hasService: Option<bool>, lastSeen: int)

  /** The GUI callbacks, in the order they are called. */
  datatype ScannerEvent =
    | NewDevice(address: string, name: string, hasService: bool)
    | UpdateName(address: string, name: string)
    | UpdateService(address: string, hasService: bool)
    | DeleteDevice(address: string)

  /** `adv_data.local_name or "Unknown"`: a missing or empty name shows as "Unknown". */
  function ShownName(adv: Advertisement): (r: string)
    ensures r == "Unknown" <==> adv.localName.None? || adv.localName.value == "" || adv.localName.value == "Unknown"
    ensures adv.localName.Some? && adv.localName.value != "" ==> r == adv.localName.value
  {
    if adv.localName.None? || adv.localName.value == "" then "Unknown" else adv.localName.value
  }

  /**
   * The new table and the callbacks of one `_device_found_cb` call: only `address` is added or
   * replaced, stamped with `now`; a new address fires one NewDevice, a known one at most a name
   * and a service update, each only when that field was "Unknown" or falsy.
   */
  function Sighting(devices: map<string, DeviceEntry>, address: string, adv: Advertisement, now: int): (r: (map<string, DeviceEntry>, seq<ScannerEvent>))
    ensures r.0.Keys == devices.Keys + {address}
    ensures r.0[address].lastSeen == now
    ensures forall a :: a in devices && a != address ==> r.0[a] == devices[a]
    ensures address !in devices ==> r.1 == [NewDevice(address, ShownName(adv), AdvertisesMatrixService(adv))]
    ensures address in devices ==>
      && |r.1| <= 2
      && (forall k :: 0 <= k < |r.1| ==> !r.1[k].NewDevice? && !r.1[k].DeleteDevice? && r.1[k].address == address)
      && (r.0[address].name.Some? <==> devices[address].name == Some("Unknown"))
      && (r.0[address].hasService.Some? <==> devices[address].hasService.None?)
    ensures address in devices && devices[address].name == Some("Unknown") ==>
      r.0[address].name == Some(ShownName(adv)) && UpdateName(address, ShownName(adv)) in r.1
    ensures address in devices && devices[address].hasService.None? ==>
      && r.0[address].hasService == Some(AdvertisesMatrixService(adv))
      && UpdateService(address, AdvertisesMatrixService(adv)) in r.1
  {
    if address in devices then
      var old_ := devices[address];
      var (name, nameEvents) :=
        if old_.name == Some("Unknown") then (Some(ShownName(adv)), [UpdateName(address, ShownName(adv))])
        else (None, []);
      var (service, serviceEvents) :=
        if old_.hasService.None? then (Some(AdvertisesMatrixService(adv)), [UpdateService(address, AdvertisesMatrixService(adv))])
        else (None, []);
      (devices[address := DeviceEntry(name, service, now)], nameEvents + serviceEvents)
    else
      var name := ShownName(adv);
      var service := AdvertisesMatrixService(adv);
      (devices[address := DeviceEntry(Some(name), Some(service), now)], [NewDevice(address, name, service)])
  }

  /** The addresses a sweep at `now` removes: last seen at least TIMEOUT_SECONDS ago. */
  function StaleAddresses(devices: map<string, DeviceEntry>, now: int): set<string> {
    set a | a in devices && now - devices[a].lastSeen >= TIMEOUT_SECONDS
  }

  /** One delete callback per address, in the given order. */
  function DeleteEvents(addresses: seq<string>): (r: seq<ScannerEvent>)
    ensures |r| == |addresses|
    ensures forall k :: 0 <= k < |r| ==> r[k] == DeleteDevice(addresses[k])
  {
    if addresses == [] then [] else [DeleteDevice(addresses[0])] + DeleteEvents(addresses[1..])
  }

  class BLEScanner {
    var devices: map<string, DeviceEntry>
    var events: seq<ScannerEvent>

    constructor ()
      ensures devices == map[] && events == []
    {
      devices, events := map[], [];
    }

    /** `_device_found_cb(device, adv_data)` at time `now`. */
    method DeviceFound(address: string, adv: Advertisement, now: int)
      modifies this
      ensures var (d, ev) := Sighting(old(devices), address, adv, now);
        devices == d && events == old(events) + ev
    {
      var name: Option<string> := None;
      var hasService: Option<bool> := None;
      if address in devices {
        if devices[address].name == Some("Unknown") {
          name := Some(ShownName(adv));
          events := events + [UpdateName(address, name.value)];
        }
        if devices[address].hasService.None? {
          hasService := Some(AdvertisesMatrixService(adv));
          events := events + [UpdateService(address, hasService.value)];
        }
      } else {
        name := Some(ShownName(adv));
        hasService := Some(AdvertisesMatrixService(adv));
        events := events + [NewDevice(address, name.value, hasService.value)];
      }
      devices := devices[address := DeviceEntry(name, hasService, now)];
    }

    /**
     * One pass of `_remove_stale_devices` at time `now`: call the delete callback for every
     * stale address while collecting them, then pop them. `popped` is the collected list.
     */
    method RemoveStaleDevices(now: int) returns (popped: seq<string>)
      modifies this
      ensures devices == old(devices) - StaleAddresses(old(devices), now)
      ensures events == old(events) + DeleteEvents(popped)
      ensures Distinct(popped)
      ensures forall a :: a in popped <==> a in StaleAddresses(old(devices), now)
      ensures forall a :: a in devices ==> now - devices[a].lastSeen < TIMEOUT_SECONDS && devices[a] == old(devices)[a]
      ensures forall a :: a in old(devices) && now - old(devices)[a].lastSeen < TIMEOUT_SECONDS ==> a in devices
    {
      popped := CollectStale(now);
      PopAll(popped);
      AllElements(popped, StaleAddresses(old(devices), now));
    }

    /** Lines 150-154: walk the table, firing the delete callback for each stale address. */
    method CollectStale(now: int) returns (popped: seq<string>)
      modifies this
      ensures devices == old(devices)
      ensures events == old(events) + DeleteEvents(popped)
      ensures Distinct(popped)
      ensures forall a :: a in popped <==> a in StaleAddresses(devices, now)
    {
      popped := [];
      var unvisited := devices.Keys;
      while unvisited != {}
        invariant unvisited <= devices.Keys
        invariant devices == old(devices)
        invariant events == old(events) + DeleteEvents(popped)
        invariant Distinct(popped)
        invariant forall a :: a in popped <==> a in StaleAddresses(devices, now) && a !in unvisited
        decreases unvisited
      {
        var addr :| addr in unvisited;
        ghost var before := popped;
        if now - devices[addr].lastSeen >= TIMEOUT_SECONDS {
          events := events + [DeleteDevice(addr)];
          DeleteEventsAppend(popped, addr);
          popped := popped + [addr];
        }
        CollectStep(before, popped, addr, devices, unvisited, now);
        unvisited := unvisited - {addr};
      }
    }

    /** Lines 155-156: pop every collected address. */
    method PopAll(popped: seq<string>)
      modifies this
      ensures devices == old(devices) - set k | 0 <= k < |popped| :: popped[k]
      ensures events == old(events)
    {
      var i := 0;
      while i < |popped|
        invariant i <= |popped|
        invariant devices == old(devices) - set k | 0 <= k < i :: popped[k]
        invariant events == old(events)
      {
        devices := devices - {popped[i]};
        i := i + 1;
        PrefixElementsStep(popped, i);
      }
    }
  }

  /** Visiting one more address keeps the collected list distinct and exactly the stale visited ones. */
  lemma CollectStep(before: seq<string>, after: seq<string>, addr: string,
                    devices: map<string, DeviceEntry>, unvisited: set<string>, now: int)
    requires addr in unvisited && unvisited <= devices.Keys
    requires Distinct(before)
    requires forall a :: a in before <==> a in StaleAddresses(devices, now) && a !in unvisited
    requires after == if addr in StaleAddresses(devices, now) then before + [addr] else before
    ensures Distinct(after)
    ensures forall a :: a in after <==> a in StaleAddresses(devices, now) && a !in unvisited - {addr}
  {
  }

  /** The first i elements are the first i - 1 and element i - 1. */
  lemma PrefixElementsStep(s: seq<string>, i: nat)
    requires 0 < i <= |s|
    ensures (set k | 0 <= k < i :: s[k]) == (set k | 0 <= k < i - 1 :: s[k]) + {s[i - 1]}
  {
  }

  /** A list whose members are exactly those of a set has that set as its elements. */
  lemma AllElements(s: seq<string>, all: set<string>)
    requires forall a :: a in s <==> a in all
    ensures (set k | 0 <= k < |s| :: s[k]) == all
  {
    forall a | a in all
      ensures a in set k | 0 <= k < |s| :: s[k]
    {
      var k := IndexOf(s, a);
    }
  }

  lemma {:induction false} DeleteEventsAppend(addresses: seq<string>, a: string)
    ensures DeleteEvents(addresses + [a]) == DeleteEvents(addresses) + [DeleteDevice(a)]
  {
  }

  // ---------------------------------------------------------------------------------------
  // What the callbacks do to the table

  /** A new address is stored with its shown name, its service flag and the sighting time. */
  lemma NewAddressRecorded(devices: map<string, DeviceEntry>, address: string, adv: Advertisement, now: int)
    requires address !in devices
    ensures var (d, ev) := Sighting(devices, address, adv, now);
      && d == devices[address := DeviceEntry(Some(ShownName(adv)), Some(AdvertisesMatrixService(adv)), now)]
      && ev == [NewDevice(address, ShownName(adv), AdvertisesMatrixService(adv))]
  {
  }

  /**
   * A device stored as "Unknown" takes the advertised name with one name callback; its service
   * flag, already set, is cleared to `None` without a callback.
   */
  lemma UnknownNameRefreshed(devices: map<string, DeviceEntry>, address: string, adv: Advertisement, now: int)
    requires address in devices && devices[address].name == Some("Unknown") && devices[address].hasService.Some?
    ensures var (d, ev) := Sighting(devices, address, adv, now);
      d[address] == DeviceEntry(Some(ShownName(adv)), None, now) && ev == [UpdateName(address, ShownName(adv))]
  {
  }

  /**
   * The merge quirk: a second sighting of a device stored with a real name (not "Unknown")
   * stores `None` as its name, and its service flag, already set, becomes `None` as well;
   * no callback fires.
   */
  lemma SecondSightingForgetsName(address: string, adv1: Advertisement, adv2: Advertisement, t1: int, t2: int)
    requires ShownName(adv1) != "Unknown"
    ensures var (d1, _) := Sighting(map[], address, adv1, t1);
      var (d2, ev2) := Sighting(d1, address, adv2, t2);
      d2[address] == DeviceEntry(None, None, t2) && ev2 == []
  {
  }

  /**
   * On a third sighting the cleared service flag is falsy again, so the service callback
   * fires, while the name stays `None` for good (it is no longer "Unknown").
   */
  lemma ThirdSightingRefreshesOnlyService(address: string, adv1: Advertisement, adv2: Advertisement, adv3: Advertisement, t1: int, t2: int, t3: int)
    requires ShownName(adv1) != "Unknown"
    ensures var (d1, _) := Sighting(map[], address, adv1, t1);
      var (d2, _) := Sighting(d1, address, adv2, t2);
      var (d3, ev3) := Sighting(d2, address, adv3, t3);
      && d3[address] == DeviceEntry(None, Some(AdvertisesMatrixService(adv3)), t3)
      && ev3 == [UpdateService(address, AdvertisesMatrixService(adv3))]
  {
    SecondSightingForgetsName(address, adv1, adv2, t1, t2);
  }

  /** A device sighted at `seen` survives every sweep before `seen + TIMEOUT_SECONDS`. */
  lemma {:induction false} RecentSightingSurvivesSweep(devices: map<string, DeviceEntry>, address: string, adv: Advertisement, seen: int, now: int)
    requires now < seen + TIMEOUT_SECONDS
    ensures var (d, _) := Sighting(devices, address, adv, seen);
      address in d - StaleAddresses(d, now)
  {
    var (d, _) := Sighting(devices, address, adv, seen);
    assert address !in StaleAddresses(d, now);
  }
}
