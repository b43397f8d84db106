/**
 * What the disk listener and the udev listener have in common: events that
 * carry an action and a device path, the table of callbacks registered per
 * action, and the list of device paths that the `add_device` and
 * `remove_device` callbacks keep.
 */
module Events {

  import opened Wrappers
  import Utils

  /** `DiskEvent(action, device)` / `UdevEvent(action, device)`. */
  datatype Event = Event(action: string, device: string)

  /** What the dispatcher takes off its queue: an event or the terminate signal. */
  datatype QueueItem = Terminate | Posted(event: Event)

  /**
   * The callbacks a listener can hold: the two that keep the device list,
   * and any other registered by a client, whose effect is not modelled.
   */
  datatype Callback = AddDevice | RemoveDevice | Other(name: string)

  /** `DiskFunctionMap(action, callback)` / `UdevFunctionMap(action, callback)`. */
  datatype FunctionMap = FunctionMap(action: string, callback: Callback)

  /** The callbacks registered for `action`, in registration order. */
  function Callbacks(maps: seq<FunctionMap>, action: string): seq<Callback>
  {
    if maps == [] then []
    else
      var pre := Callbacks(maps[..|maps| - 1], action);
      if maps[|maps| - 1].action == action then pre + [maps[|maps| - 1].callback] else pre
  }

  /** Registering more maps adds their callbacks after the earlier ones. */
  lemma {:induction false} CallbacksAppend(a: seq<FunctionMap>, b: seq<FunctionMap>, action: string)
    ensures Callbacks(a + b, action) == Callbacks(a, action) + Callbacks(b, action)
    decreases |b|
  {
    if b != [] {
      var bPre := b[..|b| - 1];
      assert (a + b)[..|a + b| - 1] == a + bPre;
      CallbacksAppend(a, bPre, action);
    } else {
      assert a + b == a;
    }
  }

  /** A callback is invoked for an action exactly when it was registered for that action. */
  lemma {:induction false} CallbacksMembers(maps: seq<FunctionMap>, action: string, c: Callback)
    ensures c in Callbacks(maps, action) <==> FunctionMap(action, c) in maps
  {
    if maps != [] {
      var pre := maps[..|maps| - 1];
      CallbacksMembers(pre, action, c);
      assert maps == pre + [maps[|maps| - 1]];
    }
  }

  /** No path occurs twice. */
  ghost predicate Distinct(devices: seq<string>)
  {
    forall i, j :: 0 <= i < j < |devices| ==> devices[i] != devices[j]
  }

  /** `add_device`: a new path is appended; a known path takes the error branch (`None`). */
  function Added(devices: seq<string>, d: string): (r: Option<seq<string>>)
    ensures r.Some? <==> d !in devices
  {
    if d in devices then None else Some(devices + [d])
  }

  /** `remove_device`: a known path is removed; an unknown one takes the error branch (`None`). */
  function Removed(devices: seq<string>, d: string): (r: Option<seq<string>>)
    ensures r.Some? <==> d in devices
  {
    if d in devices then Some(Utils.RemoveFirst(devices, d)) else None
  }

  /** What a callback does to the device list; `None` is its error branch, which changes nothing. */
  function Apply(devices: seq<string>, c: Callback, d: string): Option<seq<string>>
  {
    match c
    case AddDevice => Added(devices, d)
    case RemoveDevice => Removed(devices, d)
    case Other(_) => Some(devices)
  }

  /** The device list after `Apply`, the error branch leaving it as it was. */
  function ApplyOrKeep(devices: seq<string>, c: Callback, d: string): seq<string>
  {
    match Apply(devices, c, d)
    case Some(ds) => ds
    case None => devices
  }

  /** After adding, the path is present once more than before; after removing, absent from a distinct list. */
  lemma AddedRemovedMembers(devices: seq<string>, d: string, x: string)
    requires Distinct(devices)
    ensures Added(devices, d).Some? ==> (x in Added(devices, d).value <==> x in devices || x == d)
    ensures Removed(devices, d).Some? ==> (x in Removed(devices, d).value <==> x in devices && x != d)
  {
    if d in devices {
      var r := Utils.RemoveFirst(devices, d);
      assert multiset(r) == multiset(devices) - multiset{d};
      assert x in r <==> x in multiset(r);
      assert x in devices <==> x in multiset(devices);
      var i :| 0 <= i < |devices| && devices[i] == d;
      assert multiset(devices)[d] == 1 by {
        DistinctCount(devices, i);
      }
    }
  }

  /** In a distinct list a present path occurs exactly once. */
  lemma {:induction false} DistinctCount(devices: seq<string>, i: nat)
    requires Distinct(devices) && i < |devices|
    ensures multiset(devices)[devices[i]] == 1
  {
    var pre := devices[..|devices| - 1];
    var last := devices[|devices| - 1];
    assert devices == pre + [last];
    if i < |devices| - 1 {
      DistinctCount(pre, i);
      assert pre[i] != last;
    } else {
      assert last !in pre;
      assert multiset(pre)[last] == 0;
    }
  }

  /** Removing a path from a distinct list leaves it distinct. */
  lemma {:induction false} RemoveFirstDistinct(devices: seq<string>, d: string)
    requires Distinct(devices) && d in devices
    ensures Distinct(Utils.RemoveFirst(devices, d))
  {
    if devices[0] != d {
      var rest := devices[1..];
      RemoveFirstDistinct(rest, d);
      var r := Utils.RemoveFirst(rest, d);
      assert multiset(r) == multiset(rest) - multiset{d};
      assert devices[0] !in rest;
      assert devices[0] !in multiset(r);
    }
  }

  /** Neither callback ever lets a path into the list twice. */
  lemma ApplyKeepsDistinct(devices: seq<string>, c: Callback, d: string)
    requires Distinct(devices)
    ensures Distinct(ApplyOrKeep(devices, c, d))
  {
    if c == RemoveDevice && d in devices {
      RemoveFirstDistinct(devices, d);
    }
  }

  /** Adding a fresh path and removing it again gives back the list. */
  lemma AddThenRemove(devices: seq<string>, d: string)
    requires d !in devices
    ensures Added(devices, d).Some?
    ensures Removed(Added(devices, d).value, d) == Some(devices)
  {
    RemoveFirstLast(devices, d);
  }

  /** Removing the first occurrence of a path found only at the end drops the end. */
  lemma {:induction false} RemoveFirstLast(devices: seq<string>, d: string)
    requires d !in devices
    ensures Utils.RemoveFirst(devices + [d], d) == devices
  {
    if devices != [] {
      assert (devices + [d])[1..] == devices[1..] + [d];
      RemoveFirstLast(devices[1..], d);
      assert devices == [devices[0]] + devices[1..];
    }
  }
}
