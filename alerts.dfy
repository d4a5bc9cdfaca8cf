/** The device-update loop of PiHoleAlerts' `main`: every device read from the
    query log is classified, its stored record is reconciled, and a
    notification event is produced for each change that the previous run
    did not notify. */
module Alerts {
  import opened Presence
  import opened Transition

  /** A notification: which device changed, to which status, and the epoch
      time of its last query (rendered as a date in the message). */
  datatype Event = Event(device: string, status: bool, lastQuery: int) {
    /** The word used for the new status in the message. */
    function Label(): (r: string)
      ensures r == "ACTIVE" || r == "INACTIVE"
      ensures r == "ACTIVE" <==> status
    {
      if status then "ACTIVE" else "INACTIVE"
    }
  }

  /** No name occurs twice, as for the keys of a dictionary. */
  predicate Distinct(names: seq<string>)
  {
    forall i, j :: 0 <= i < j < |names| ==> names[i] != names[j]
  }

  /** Every name to process has a stored record and a last-query time. */
  predicate Covers(devices: map<string, DeviceState>, lastQuery: map<string, int>, order: seq<string>)
  {
    forall k :: 0 <= k < |order| ==> order[k] in devices && order[k] in lastQuery
  }

  /** Whether the device `name` counts as active at time `now`. */
  function Observed(now: int, lastQuery: map<string, int>, deltaMins: int, name: string): (r: bool)
    requires name in lastQuery
    ensures r <==> -(deltaMins * 60) < now - lastQuery[name] < deltaMins * 60
  {
    WithinDeltaMins(now, lastQuery[name], deltaMins)
  }

  /** The loop of `main`, as a function: the devices are processed in `order`,
      each one reading the record left by the previous iterations. The result
      is the new device map and the events sent, in order. */
  function Reconcile(devices: map<string, DeviceState>, order: seq<string>,
                     lastQuery: map<string, int>, now: int, deltaMins: int)
    : (r: (map<string, DeviceState>, seq<Event>))
    requires Covers(devices, lastQuery, order)
    ensures r.0.Keys == devices.Keys
    ensures |r.1| <= |order|
    decreases |order|
  {
    if order == [] then (devices, [])
    else
      var name := order[0];
      var step := Step(devices[name], Observed(now, lastQuery, deltaMins, name));
      var sent := if step.emit then [Event(name, step.state.status, lastQuery[name])] else [];
      var rest := Reconcile(devices[name := step.state], order[1..], lastQuery, now, deltaMins);
      (rest.0, sent + rest.1)
  }

  /** Reference definition of the events: the devices of `order`, in that
      order, whose single step from the ORIGINAL record sends a notification. */
  function Fired(devices: map<string, DeviceState>, order: seq<string>,
                 lastQuery: map<string, int>, now: int, deltaMins: int): seq<Event>
    requires Covers(devices, lastQuery, order)
    decreases |order|
  {
    if order == [] then []
    else
      var name := order[0];
      var active := Observed(now, lastQuery, deltaMins, name);
      (if Step(devices[name], active).emit then [Event(name, active, lastQuery[name])] else [])
      + Fired(devices, order[1..], lastQuery, now, deltaMins)
  }

  /** Fired only looks at the records of the devices it processes. */
  lemma {:induction false} FiredReadsOnlyOrder(d1: map<string, DeviceState>, d2: map<string, DeviceState>,
                                               order: seq<string>, lastQuery: map<string, int>,
                                               now: int, deltaMins: int)
    requires Covers(d1, lastQuery, order) && Covers(d2, lastQuery, order)
    requires forall name :: name in order ==> d1[name] == d2[name]
    ensures Fired(d1, order, lastQuery, now, deltaMins) == Fired(d2, order, lastQuery, now, deltaMins)
    decreases |order|
  {
    if order != [] {
      FiredReadsOnlyOrder(d1, d2, order[1..], lastQuery, now, deltaMins);
    }
  }

  /** Since the names are distinct, processing them one after another is the
      same as updating every device independently: a processed device gets
      the result of one step from its original record, any other device is
      left as it was, and the events are those of Fired. */
  lemma {:induction false} ReconcileIsPerDevice(devices: map<string, DeviceState>, order: seq<string>,
                                                lastQuery: map<string, int>, now: int, deltaMins: int)
    requires Distinct(order) && Covers(devices, lastQuery, order)
    ensures forall name :: name in devices && name !in order ==>
              Reconcile(devices, order, lastQuery, now, deltaMins).0[name] == devices[name]
    ensures forall name :: name in order ==>
              Reconcile(devices, order, lastQuery, now, deltaMins).0[name]
              == Step(devices[name], Observed(now, lastQuery, deltaMins, name)).state
    ensures Reconcile(devices, order, lastQuery, now, deltaMins).1 == Fired(devices, order, lastQuery, now, deltaMins)
    decreases |order|
  {
    if order != [] {
      var name := order[0];
      var rest := order[1..];
      var step := Step(devices[name], Observed(now, lastQuery, deltaMins, name));
      var d' := devices[name := step.state];
      DistinctTail(order);
      ReconcileIsPerDevice(d', rest, lastQuery, now, deltaMins);
      FiredReadsOnlyOrder(d', devices, rest, lastQuery, now, deltaMins);
    }
  }

  /** Dropping the first name of a distinct list keeps it distinct and
      leaves only names other than the first. */
  lemma DistinctTail(order: seq<string>)
    requires Distinct(order) && order != []
    ensures Distinct(order[1..])
    ensures forall n :: n in order[1..] ==> n in order && n != order[0]
  {
  }

  /** A name of the list other than the first is in its tail. */
  lemma InRest(order: seq<string>, n: string)
    requires n in order && order != [] && n != order[0]
    ensures n in order[1..]
  {
  }

  /** `name` has an event in `events`. */
  predicate HasEvent(events: seq<Event>, name: string)
  {
    exists k :: 0 <= k < |events| && events[k].device == name
  }

  /** Every event is for a processed device whose step sends a notification,
      and carries its new status and its last query. */
  predicate EventsSound(devices: map<string, DeviceState>, order: seq<string>,
                        lastQuery: map<string, int>, now: int, deltaMins: int, events: seq<Event>)
    requires Covers(devices, lastQuery, order)
  {
    forall k :: 0 <= k < |events| ==>
      && events[k].device in order
      && Step(devices[events[k].device], Observed(now, lastQuery, deltaMins, events[k].device)).emit
      && events[k].status == Observed(now, lastQuery, deltaMins, events[k].device)
      && events[k].lastQuery == lastQuery[events[k].device]
  }

  /** Every processed device whose step sends a notification has an event. */
  predicate EventsComplete(devices: map<string, DeviceState>, order: seq<string>,
                           lastQuery: map<string, int>, now: int, deltaMins: int, events: seq<Event>)
    requires Covers(devices, lastQuery, order)
  {
    forall name :: name in order && Step(devices[name], Observed(now, lastQuery, deltaMins, name)).emit ==>
      HasEvent(events, name)
  }

  /** No device has two events. */
  predicate OncePerDevice(events: seq<Event>)
  {
    forall i, j :: 0 <= i < j < |events| ==> events[i].device != events[j].device
  }

  lemma {:induction false} FiredSound(devices: map<string, DeviceState>, order: seq<string>,
                                      lastQuery: map<string, int>, now: int, deltaMins: int)
    requires Covers(devices, lastQuery, order)
    ensures EventsSound(devices, order, lastQuery, now, deltaMins, Fired(devices, order, lastQuery, now, deltaMins))
    decreases |order|
  {
    if order != [] {
      var name := order[0];
      var rest := order[1..];
      FiredSound(devices, rest, lastQuery, now, deltaMins);
      var active := Observed(now, lastQuery, deltaMins, name);
      var head := if Step(devices[name], active).emit then [Event(name, active, lastQuery[name])] else [];
      var tail := Fired(devices, rest, lastQuery, now, deltaMins);
      var events := Fired(devices, order, lastQuery, now, deltaMins);
      assert events == head + tail;
      forall k | 0 <= k < |events|
        ensures events[k].device in order
        ensures Step(devices[events[k].device], Observed(now, lastQuery, deltaMins, events[k].device)).emit
        ensures events[k].status == Observed(now, lastQuery, deltaMins, events[k].device)
        ensures events[k].lastQuery == lastQuery[events[k].device]
      {
        if k < |head| {
          assert events[k] == Event(name, active, lastQuery[name]);
        } else {
          assert events[k] == tail[k - |head|];
        }
      }
    }
  }

  lemma {:induction false} FiredComplete(devices: map<string, DeviceState>, order: seq<string>,
                                         lastQuery: map<string, int>, now: int, deltaMins: int)
    requires Covers(devices, lastQuery, order)
    ensures EventsComplete(devices, order, lastQuery, now, deltaMins, Fired(devices, order, lastQuery, now, deltaMins))
    decreases |order|
  {
    if order != [] {
      var name := order[0];
      var rest := order[1..];
      FiredComplete(devices, rest, lastQuery, now, deltaMins);
      var active := Observed(now, lastQuery, deltaMins, name);
      var head := if Step(devices[name], active).emit then [Event(name, active, lastQuery[name])] else [];
      var tail := Fired(devices, rest, lastQuery, now, deltaMins);
      var events := Fired(devices, order, lastQuery, now, deltaMins);
      assert events == head + tail;
      forall n | n in order && Step(devices[n], Observed(now, lastQuery, deltaMins, n)).emit
        ensures HasEvent(events, n)
      {
        if n == name {
          assert events[0].device == n;
        } else {
          InRest(order, n);
          assert HasEvent(tail, n);
          var k :| 0 <= k < |tail| && tail[k].device == n;
          assert events[|head| + k].device == n;
        }
      }
    }
  }

  lemma {:induction false} FiredOncePerDevice(devices: map<string, DeviceState>, order: seq<string>,
                                              lastQuery: map<string, int>, now: int, deltaMins: int)
    requires Distinct(order) && Covers(devices, lastQuery, order)
    ensures OncePerDevice(Fired(devices, order, lastQuery, now, deltaMins))
    decreases |order|
  {
    if order != [] {
      var name := order[0];
      var rest := order[1..];
      DistinctTail(order);
      FiredOncePerDevice(devices, rest, lastQuery, now, deltaMins);
      var active := Observed(now, lastQuery, deltaMins, name);
      var head := if Step(devices[name], active).emit then [Event(name, active, lastQuery[name])] else [];
      var tail := Fired(devices, rest, lastQuery, now, deltaMins);
      var events := Fired(devices, order, lastQuery, now, deltaMins);
      assert events == head + tail;
      assert forall k :: 0 <= k < |tail| ==> tail[k].device != name by {
        FiredSound(devices, rest, lastQuery, now, deltaMins);
      }
      forall i, j | 0 <= i < j < |events| ensures events[i].device != events[j].device {
        assert events[j] == tail[j - |head|];
        if i < |head| {
          assert events[i].device == name;
        } else {
          assert events[i] == tail[i - |head|];
        }
      }
    }
  }

  /** What one cycle does to the device map and which events it sends, for
      distinct names: untouched devices keep their record; a processed device
      takes the observed status, is marked notified exactly when its status
      changed and the record was not notified before the cycle, and exactly
      then has one event, labelled
      with its new status. */
  lemma CycleOutcome(devices: map<string, DeviceState>, order: seq<string>,
                     lastQuery: map<string, int>, now: int, deltaMins: int)
    requires Distinct(order) && Covers(devices, lastQuery, order)
    ensures Reconcile(devices, order, lastQuery, now, deltaMins).0.Keys == devices.Keys
    ensures forall name :: name in devices && name !in order ==>
              Reconcile(devices, order, lastQuery, now, deltaMins).0[name] == devices[name]
    ensures forall name :: name in order ==>
              Reconcile(devices, order, lastQuery, now, deltaMins).0[name].status
              == WithinDeltaMins(now, lastQuery[name], deltaMins)
    ensures forall name :: name in order ==>
              (Reconcile(devices, order, lastQuery, now, deltaMins).0[name].notified
               <==> Reconcile(devices, order, lastQuery, now, deltaMins).0[name].status != devices[name].status
                    && !devices[name].notified)
    ensures forall name :: name in order ==>
              (Reconcile(devices, order, lastQuery, now, deltaMins).0[name].notified
               <==> HasEvent(Reconcile(devices, order, lastQuery, now, deltaMins).1, name))
    ensures forall k :: 0 <= k < |Reconcile(devices, order, lastQuery, now, deltaMins).1| ==>
              var e := Reconcile(devices, order, lastQuery, now, deltaMins).1[k];
              && e.device in order
              && e.status == Reconcile(devices, order, lastQuery, now, deltaMins).0[e.device].status
              && (e.Label() == "ACTIVE" <==> e.status)
              && e.lastQuery == lastQuery[e.device]
    ensures OncePerDevice(Reconcile(devices, order, lastQuery, now, deltaMins).1)
  {
    ReconcileIsPerDevice(devices, order, lastQuery, now, deltaMins);
    FiredSound(devices, order, lastQuery, now, deltaMins);
    FiredComplete(devices, order, lastQuery, now, deltaMins);
    FiredOncePerDevice(devices, order, lastQuery, now, deltaMins);
  }

  /** A device reported in one cycle is not reported in the next one,
      whatever its next last-query time and whenever the next cycle runs. */
  lemma NoEventInConsecutiveCycles(devices: map<string, DeviceState>, order: seq<string>,
                                   lastQuery1: map<string, int>, now1: int,
                                   lastQuery2: map<string, int>, now2: int,
                                   deltaMins: int, name: string)
    requires Distinct(order) && Covers(devices, lastQuery1, order) && Covers(devices, lastQuery2, order)
    requires HasEvent(Reconcile(devices, order, lastQuery1, now1, deltaMins).1, name)
    ensures !HasEvent(Reconcile(Reconcile(devices, order, lastQuery1, now1, deltaMins).0,
                                order, lastQuery2, now2, deltaMins).1, name)
  {
    var first := Reconcile(devices, order, lastQuery1, now1, deltaMins);
    CycleOutcome(devices, order, lastQuery1, now1, deltaMins);
    assert name in order;
    CycleOutcome(first.0, order, lastQuery2, now2, deltaMins);
  }

  /** One iteration of the loop: processing `order[i]` and then the rest
      of the list is the same as processing `order[i..]`. */
  lemma ReconcileFirst(devices: map<string, DeviceState>, order: seq<string>, i: nat,
                       lastQuery: map<string, int>, now: int, deltaMins: int, sent: seq<Event>)
    requires i < |order| && Covers(devices, lastQuery, order)
    ensures var name := order[i];
      var step := Step(devices[name], Observed(now, lastQuery, deltaMins, name));
      var after := devices[name := step.state];
      var emitted := sent + if step.emit then [Event(name, step.state.status, lastQuery[name])] else [];
      && Covers(after, lastQuery, order)
      && Reconcile(after, order[i + 1..], lastQuery, now, deltaMins).0
         == Reconcile(devices, order[i..], lastQuery, now, deltaMins).0
      && emitted + Reconcile(after, order[i + 1..], lastQuery, now, deltaMins).1
         == sent + Reconcile(devices, order[i..], lastQuery, now, deltaMins).1
  {
  }

  /** The configuration document, which doubles as the store of the device
      records. Only the device map is rewritten by a cycle. */
  class Config {
    var piHoleFtpDb: string
    var devices: map<string, DeviceState>
    var lastSeenDeltaMins: int

    constructor (piHoleFtpDb: string, devices: map<string, DeviceState>, lastSeenDeltaMins: int)
      ensures this.piHoleFtpDb == piHoleFtpDb
      ensures this.devices == devices
      ensures this.lastSeenDeltaMins == lastSeenDeltaMins
    {
      this.piHoleFtpDb := piHoleFtpDb;
      this.devices := devices;
      this.lastSeenDeltaMins := lastSeenDeltaMins;
    }

    /** One monitoring cycle at time `currTimestamp`. `order` lists the
        devices of the query-log result in iteration order and `lastQuery`
        maps each to the epoch time of its latest query. Returns the
        notifications sent, in order. */
    method UpdateDevices(currTimestamp: int, lastQuery: map<string, int>, order: seq<string>)
      returns (events: seq<Event>)
      requires Distinct(order) && Covers(devices, lastQuery, order)
      modifies this`devices
      ensures devices == Reconcile(old(devices), order, lastQuery, currTimestamp, lastSeenDeltaMins).0
      ensures events == Reconcile(old(devices), order, lastQuery, currTimestamp, lastSeenDeltaMins).1
      ensures devices.Keys == old(devices).Keys
      ensures forall name :: name in old(devices) && name !in order ==> devices[name] == old(devices)[name]
      ensures forall name :: name in order ==>
                devices[name].status == WithinDeltaMins(currTimestamp, lastQuery[name], lastSeenDeltaMins)
      ensures forall name :: name in order ==>
                (devices[name].notified <==>
                   devices[name].status != old(devices)[name].status && !old(devices)[name].notified)
      ensures forall name :: name in order ==> (devices[name].notified <==> HasEvent(events, name))
      ensures OncePerDevice(events)
    {
      var deltaMins := lastSeenDeltaMins;
      events := [];
      var i := 0;
      while i < |order|
        invariant 0 <= i <= |order|
        invariant devices.Keys == old(devices).Keys
        invariant Reconcile(devices, order[i..], lastQuery, currTimestamp, deltaMins).0
                  == Reconcile(old(devices), order, lastQuery, currTimestamp, deltaMins).0
        invariant events + Reconcile(devices, order[i..], lastQuery, currTimestamp, deltaMins).1
                  == Reconcile(old(devices), order, lastQuery, currTimestamp, deltaMins).1
      {
        ghost var before, sentBefore := devices, events;
        var deviceName := order[i];
        var configDevice := devices[deviceName];
        var configNotified, configStatus := configDevice.notified, configDevice.status;
        var dbLastQuery := lastQuery[deviceName];
        var withinDeltaMinsFlag := WithinDeltaMins(currTimestamp, dbLastQuery, deltaMins);
        var changeFlag := withinDeltaMinsFlag != configStatus && !configNotified;
        configDevice := configDevice.(status := withinDeltaMinsFlag);
        if changeFlag {
          configDevice := configDevice.(notified := true);
          events := events + [Event(deviceName, withinDeltaMinsFlag, dbLastQuery)];
        } else {
          configDevice := configDevice.(notified := false);
        }
        devices := devices[deviceName := configDevice];

        ghost var step := Step(before[deviceName], Observed(currTimestamp, lastQuery, deltaMins, deviceName));
        assert configDevice == step.state;
        assert events == sentBefore + if step.emit then [Event(deviceName, step.state.status, lastQuery[deviceName])] else [];
        ReconcileFirst(before, order, i, lastQuery, currTimestamp, deltaMins, sentBefore);
        i := i + 1;
      }
      assert order[i..] == [];
      CycleOutcome(old(devices), order, lastQuery, currTimestamp, deltaMins);
    }
  }
}
