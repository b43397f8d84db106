/**
 * `UdevEventListener`: a watcher forwards the block-disk `add` and `remove`
 * events of the udev monitor to a queue; a dispatcher calls the callbacks
 * registered for each event's action. The module-level `add_device` and
 * `remove_device` callbacks keep a list of device nodes; their error
 * branches only print, so the dispatcher goes on.
 * The udev monitor is an input: the `(action, device node)` pairs it yields.
 */
module UdevEvents {

  import opened Wrappers
  import Events
  import Utils

  // ---------------------------------------------------------------------
  // Watcher
  // ---------------------------------------------------------------------

  /** The events posted for what the monitor yields: `add` and `remove` only, in order. */
  function Forward(monitor: seq<(string, string)>): seq<Events.Event>
  {
    if monitor == [] then []
    else
      var pre := Forward(monitor[..|monitor| - 1]);
      var (action, node) := monitor[|monitor| - 1];
      if action == "add" || action == "remove" then pre + [Events.Event(action, node)] else pre
  }

  /** Forwarding keeps the monitor's order: what is yielded later is posted later. */
  lemma {:induction false} ForwardAppend(a: seq<(string, string)>, b: seq<(string, string)>)
    ensures Forward(a + b) == Forward(a) + Forward(b)
    decreases |b|
  {
    if b == [] {
      assert a + b == a;
    } else {
      assert (a + b)[..|a + b| - 1] == a + b[..|b| - 1];
      assert (a + b)[|a + b| - 1] == b[|b| - 1];
      ForwardAppend(a, b[..|b| - 1]);
    }
  }

  /** An event is posted exactly when the monitor yielded it with action `add` or `remove`. */
  lemma {:induction false} ForwardMembers(monitor: seq<(string, string)>, e: Events.Event)
    ensures e in Forward(monitor) <==>
            (e.action, e.device) in monitor && (e.action == "add" || e.action == "remove")
  {
    if monitor != [] {
      var pre := monitor[..|monitor| - 1];
      var last := monitor[|monitor| - 1];
      ForwardMembers(pre, e);
      assert monitor == pre + [last];
      assert (e.action, e.device) in monitor <==> (e.action, e.device) in pre || (e.action, e.device) == last;
      if last.0 == "add" || last.0 == "remove" {
        assert Forward(monitor) == Forward(pre) + [Events.Event(last.0, last.1)];
      }
    }
  }

  /** `watch_udev_events`: the loop over the monitor. */
  method WatchUdevEvents(monitor: seq<(string, string)>) returns (posted: seq<Events.Event>)
    ensures posted == Forward(monitor)
  {
    posted := [];
    for k := 0 to |monitor|
      invariant posted == Forward(monitor[..k])
    {
      assert monitor[..k + 1][..k] == monitor[..k];
      var (action, node) := monitor[k];
      if action == "add" || action == "remove" {
        posted := posted + [Events.Event(action, node)];
      }
    }
    assert monitor[..|monitor|] == monitor;
  }

  // ---------------------------------------------------------------------
  // Dispatcher
  // ---------------------------------------------------------------------

  /** Calling the callbacks in order; an error branch prints and the next callback still runs. */
  function Dispatch(devices: seq<string>, cbs: seq<Events.Callback>, d: string): seq<string>
  {
    if cbs == [] then devices
    else Events.ApplyOrKeep(Dispatch(devices, cbs[..|cbs| - 1], d), cbs[|cbs| - 1], d)
  }

  /** The dispatcher after taking items off the queue: whether the terminate signal came. */
  datatype Run = Run(devices: seq<string>, consumed: nat, terminated: bool)

  /** `handle_udev_events` over the items the queue delivers. */
  function Handle(maps: seq<Events.FunctionMap>, devices: seq<string>, queue: seq<Events.QueueItem>): (r: Run)
    ensures r.consumed <= |queue|
    ensures !r.terminated ==> r.consumed == |queue|
  {
    if queue == [] then Run(devices, 0, false)
    else
      var pre := Handle(maps, devices, queue[..|queue| - 1]);
      if pre.terminated then pre
      else match queue[|queue| - 1]
        case Terminate => Run(pre.devices, pre.consumed + 1, true)
        case Posted(e) =>
          Run(Dispatch(pre.devices, Events.Callbacks(maps, e.action), e.device), pre.consumed + 1, false)
  }

  /** The terminate signal at the head of the queue ends the loop before any callback runs. */
  lemma {:induction false} HandleTerminate(maps: seq<Events.FunctionMap>, devices: seq<string>,
                                           rest: seq<Events.QueueItem>)
    ensures Handle(maps, devices, [Events.Terminate] + rest) == Run(devices, 1, true)
    decreases |rest|
  {
    if rest != [] {
      var q := [Events.Terminate] + rest;
      assert q[..|q| - 1] == [Events.Terminate] + rest[..|rest| - 1];
      HandleTerminate(maps, devices, rest[..|rest| - 1]);
    } else {
      assert [Events.Terminate][..0] == [];
    }
  }

  /** Dispatching never puts a node in the list twice. */
  lemma {:induction false} DispatchKeepsDistinct(devices: seq<string>, cbs: seq<Events.Callback>, d: string)
    requires Events.Distinct(devices)
    ensures Events.Distinct(Dispatch(devices, cbs, d))
  {
    if cbs != [] {
      DispatchKeepsDistinct(devices, cbs[..|cbs| - 1], d);
      Events.ApplyKeepsDistinct(Dispatch(devices, cbs[..|cbs| - 1], d), cbs[|cbs| - 1], d);
    }
  }

  /** However the dispatcher runs, the list of device nodes never holds one twice. */
  lemma {:induction false} HandleKeepsDistinct(maps: seq<Events.FunctionMap>, devices: seq<string>,
                                               queue: seq<Events.QueueItem>)
    requires Events.Distinct(devices)
    ensures Events.Distinct(Handle(maps, devices, queue).devices)
  {
    if queue != [] {
      var pre := Handle(maps, devices, queue[..|queue| - 1]);
      HandleKeepsDistinct(maps, devices, queue[..|queue| - 1]);
      if !pre.terminated && queue[|queue| - 1].Posted? {
        var e := queue[|queue| - 1].event;
        DispatchKeepsDistinct(pre.devices, Events.Callbacks(maps, e.action), e.device);
      }
    }
  }

  /** Once the terminate signal has been taken, later queue items make no difference. */
  lemma {:induction false} HandleStopped(maps: seq<Events.FunctionMap>, devices: seq<string>,
                                         queue: seq<Events.QueueItem>, k: nat)
    requires k <= |queue| && Handle(maps, devices, queue[..k]).terminated
    ensures Handle(maps, devices, queue) == Handle(maps, devices, queue[..k])
    decreases |queue| - k
  {
    if k < |queue| {
      assert queue[..|queue| - 1][..k] == queue[..k];
      HandleStopped(maps, devices, queue[..|queue| - 1], k);
    } else {
      assert queue[..k] == queue;
    }
  }

  /** `UdevEventListener`: the table of callbacks. */
  class UdevEventListener {
    var functionMaps: seq<Events.FunctionMap>

    constructor ()
      ensures functionMaps == []
    {
      functionMaps := [];
    }

    /** `register(action, callback)`: appends to the table. */
    method Register(action: string, callback: Events.Callback)
      modifies this`functionMaps
      ensures functionMaps == old(functionMaps) + [NewUdevFunctionMap(action, callback, None)]
    {
      functionMaps := functionMaps + [NewUdevFunctionMap(action, callback, None)];
    }
  }

  /** `UdevFunctionMap(action, callback, settle_time)`: the settle time is not stored. */
  function NewUdevFunctionMap(action: string, callback: Events.Callback, settleTime: Option<int>): Events.FunctionMap
  {
    Events.FunctionMap(action, callback)
  }

  /** Whatever settle time is given, the map is the same and dispatches the same. */
  lemma SettleTimeIgnored(action: string, callback: Events.Callback, t1: Option<int>, t2: Option<int>)
    ensures NewUdevFunctionMap(action, callback, t1) == NewUdevFunctionMap(action, callback, t2)
    ensures NewUdevFunctionMap(action, callback, t1).action == action
    ensures NewUdevFunctionMap(action, callback, t1).callback == callback
  {
  }

  /** The module-level `devices` list and the two callbacks that keep it. */
  class DeviceList {
    var devices: seq<string>

    constructor ()
      ensures devices == []
    {
      devices := [];
    }

    /** `add_device(event)`: appends a new node; a known node is only reported. */
    method AddDevice(event: Events.Event)
      modifies this`devices
      ensures devices == if event.device in old(devices) then old(devices) else old(devices) + [event.device]
    {
      if event.device !in devices {
        devices := devices + [event.device];
      }
    }

    /** `remove_device(event)`: removes a known node; an unknown node is only reported. */
    method RemoveDevice(event: Events.Event)
      modifies this`devices
      ensures event.device in old(devices) ==> Events.Removed(old(devices), event.device) == Some(devices)
      ensures event.device !in old(devices) ==> devices == old(devices)
    {
      if event.device in devices {
        devices := Utils.RemoveFirst(devices, event.device);
      }
    }

    /** The callbacks whose action matches the event, called in registration order. */
    method DispatchEvent(maps: seq<Events.FunctionMap>, event: Events.Event)
      modifies this`devices
      ensures devices == Dispatch(old(devices), Events.Callbacks(maps, event.action), event.device)
    {
      ghost var start := devices;
      for k := 0 to |maps|
        invariant devices == Dispatch(start, Events.Callbacks(maps[..k], event.action), event.device)
      {
        Events.CallbacksAppend(maps[..k], [maps[k]], event.action);
        assert maps[..k + 1] == maps[..k] + [maps[k]];
        assert [maps[k]][..0] == [];
        if maps[k].action == event.action {
          match maps[k].callback {
            case AddDevice => AddDevice(event);
            case RemoveDevice => RemoveDevice(event);
            case Other(_) =>
          }
        }
      }
      assert maps[..|maps|] == maps;
    }

    /** `handle_udev_events`: take items off the queue until the terminate signal. */
    method HandleEvents(maps: seq<Events.FunctionMap>, queue: seq<Events.QueueItem>)
      returns (consumed: nat, terminated: bool)
      modifies this`devices
      ensures Run(devices, consumed, terminated) == Handle(maps, old(devices), queue)
    {
      ghost var start := devices;
      consumed, terminated := 0, false;
      var k := 0;
      while k < |queue| && !terminated
        invariant 0 <= k <= |queue|
        invariant Run(devices, consumed, terminated) == Handle(maps, start, queue[..k])
        invariant terminated ==> Handle(maps, start, queue) == Handle(maps, start, queue[..k])
      {
        assert queue[..k + 1][..k] == queue[..k];
        match queue[k] {
          case Terminate =>
            terminated := true;
          case Posted(e) =>
            DispatchEvent(maps, e);
        }
        consumed := consumed + 1;
        k := k + 1;
        if terminated {
          HandleStopped(maps, start, queue, k);
        }
      }
      if !terminated {
        assert queue[..k] == queue;
      }
    }
  }
}
