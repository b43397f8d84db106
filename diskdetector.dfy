/**
 * `DiskEventListener`: a detector probes the watched device paths and posts
 * `add`/`remove` events when a card appears or disappears; a dispatcher
 * takes events off the queue and calls the callbacks registered for their
 * action, two of which keep the listener's list of present devices.
 * The probe (`probe.sh`) is an input: its exit code per watched path.
 */
module DiskDetector {

  import opened Wrappers
  import Events
  import Utils

  /** `actions = ['remove', 'add']`, indexed by the presence bit `on`. */
  const Actions: seq<string> := ["remove", "add"]

  /** The table the constructor builds: `add` → `add_device`, then `remove` → `remove_device`. */
  const InitialMaps: seq<Events.FunctionMap> :=
    [Events.FunctionMap("add", Events.AddDevice), Events.FunctionMap("remove", Events.RemoveDevice)]

  // ---------------------------------------------------------------------
  // Detector
  // ---------------------------------------------------------------------

  /**
   * One pass of `for dev in watching`: the presence bit `on` is shared by
   * all paths; a probe result different from it flips it and posts
   * `actions[on]` for that path.
   */
  function Watch(on: nat, devs: seq<string>, codes: seq<int>): (r: (nat, seq<Events.Event>))
    requires on <= 1 && |devs| == |codes|
    ensures r.0 <= 1
  {
    if devs == [] then (on, [])
    else
      var (o, events) := Watch(on, devs[..|devs| - 1], codes[..|codes| - 1]);
      if codes[|codes| - 1] != o then (1 - o, events + [Events.Event(Actions[1 - o], devs[|devs| - 1])])
      else (o, events)
  }

  /**
   * Posted actions alternate, starting with the opposite of `on`
   * (`add` from the initial `on = 0`), and the final bit records how many
   * flips there were.
   */
  lemma {:induction false} WatchAlternates(on: nat, devs: seq<string>, codes: seq<int>)
    requires on <= 1 && |devs| == |codes|
    ensures var (o, events) := Watch(on, devs, codes);
      && o == (on + |events|) % 2
      && |events| <= |devs|
      && forall k :: 0 <= k < |events| ==> events[k].action == Actions[(on + k + 1) % 2]
  {
    if devs != [] {
      WatchAlternates(on, devs[..|devs| - 1], codes[..|codes| - 1]);
    }
  }

  /** Every posted event names a watched path. */
  lemma {:induction false} WatchDevices(on: nat, devs: seq<string>, codes: seq<int>)
    requires on <= 1 && |devs| == |codes|
    ensures forall e :: e in Watch(on, devs, codes).1 ==> e.device in devs
  {
    if devs != [] {
      WatchDevices(on, devs[..|devs| - 1], codes[..|codes| - 1]);
      assert devs[..|devs| - 1] <= devs;
    }
  }

  /** A pass whose probes all agree with `on` posts nothing and keeps `on`. */
  lemma {:induction false} WatchQuiet(on: nat, devs: seq<string>, codes: seq<int>)
    requires on <= 1 && |devs| == |codes|
    requires forall k :: 0 <= k < |codes| ==> codes[k] == on
    ensures Watch(on, devs, codes) == (on, [])
  {
    if devs != [] {
      WatchQuiet(on, devs[..|devs| - 1], codes[..|codes| - 1]);
    }
  }

  /** Passes compose: the `on` one pass ends with is where the next starts. */
  lemma {:induction false} WatchAppend(on: nat, d1: seq<string>, c1: seq<int>, d2: seq<string>, c2: seq<int>)
    requires on <= 1 && |d1| == |c1| && |d2| == |c2|
    ensures var (o1, e1) := Watch(on, d1, c1);
      var (o2, e2) := Watch(o1, d2, c2);
      Watch(on, d1 + d2, c1 + c2) == (o2, e1 + e2)
    decreases |d2|
  {
    if d2 == [] {
      assert d1 + d2 == d1 && c1 + c2 == c1;
      var (o1, e1) := Watch(on, d1, c1);
      assert Watch(o1, d2, c2) == (o1, []);
      assert e1 + [] == e1;
    } else {
      assert (d1 + d2)[..|d1 + d2| - 1] == d1 + d2[..|d2| - 1];
      assert (c1 + c2)[..|c1 + c2| - 1] == c1 + c2[..|c2| - 1];
      assert (d1 + d2)[|d1 + d2| - 1] == d2[|d2| - 1];
      assert (c1 + c2)[|c1 + c2| - 1] == c2[|c2| - 1];
      var dp, cp := d2[..|d2| - 1], c2[..|c2| - 1];
      WatchAppend(on, d1, c1, dp, cp);
      var (o1, e1) := Watch(on, d1, c1);
      var (p2, f2) := Watch(o1, dp, cp);
      var ev := Events.Event(Actions[1 - p2], d2[|d2| - 1]);
      assert e1 + f2 + [ev] == e1 + (f2 + [ev]);
    }
  }

  /** The pass as the detector runs it. */
  method WatchDiskEvents(on: nat, watching: seq<string>, codes: seq<int>)
    returns (on': nat, events: seq<Events.Event>)
    requires on <= 1 && |watching| == |codes|
    ensures (on', events) == Watch(on, watching, codes)
  {
    on', events := on, [];
    for k := 0 to |watching|
      invariant (on', events) == Watch(on, watching[..k], codes[..k])
    {
      assert watching[..k + 1][..k] == watching[..k];
      assert codes[..k + 1][..k] == codes[..k];
      if on' != codes[k] {
        on' := 1 - on';
        events := events + [Events.Event(Actions[on'], watching[k])];
      }
    }
    assert watching[..|watching|] == watching && codes[..|codes|] == codes;
  }

  // ---------------------------------------------------------------------
  // Dispatcher
  // ---------------------------------------------------------------------

  /** The device list after calling some callbacks, and whether one of them raised. */
  datatype Dispatched = Dispatched(devices: seq<string>, raised: bool)

  /**
   * Calling the callbacks in order. The listener's error branch calls the
   * undefined `self.error`, so it raises and no later callback runs.
   */
  function Dispatch(devices: seq<string>, cbs: seq<Events.Callback>, d: string): Dispatched
  {
    if cbs == [] then Dispatched(devices, false)
    else
      var pre := Dispatch(devices, cbs[..|cbs| - 1], d);
      if pre.raised then pre
      else match Events.Apply(pre.devices, cbs[|cbs| - 1], d)
        case Some(ds) => Dispatched(ds, false)
        case None => Dispatched(pre.devices, true)
  }

  /** How the dispatcher loop ends: on the terminate signal, by an exception, or waiting for more. */
  datatype Stop = Terminated | Raised | Waiting

  /** The dispatcher after taking items off the queue. */
  datatype Run = Run(devices: seq<string>, consumed: nat, stop: Stop)

  /** `handle_events` over the items the queue delivers. */
  function Handle(maps: seq<Events.FunctionMap>, devices: seq<string>, queue: seq<Events.QueueItem>): (r: Run)
    ensures r.consumed <= |queue|
  {
    if queue == [] then Run(devices, 0, Waiting)
    else
      var pre := Handle(maps, devices, queue[..|queue| - 1]);
      if pre.stop != Waiting then pre
      else match queue[|queue| - 1]
        case Terminate => Run(pre.devices, pre.consumed + 1, Terminated)
        case Posted(e) =>
          var r := Dispatch(pre.devices, Events.Callbacks(maps, e.action), e.device);
          Run(r.devices, pre.consumed + 1, if r.raised then Raised else Waiting)
  }

  /** The terminate signal at the head of the queue ends the loop before any callback runs. */
  lemma {:induction false} HandleTerminate(maps: seq<Events.FunctionMap>, devices: seq<string>,
                                           rest: seq<Events.QueueItem>)
    ensures Handle(maps, devices, [Events.Terminate] + rest) == Run(devices, 1, Terminated)
    decreases |rest|
  {
    if rest != [] {
      var q := [Events.Terminate] + rest;
      assert q[..|q| - 1] == [Events.Terminate] + rest[..|rest| - 1];
      HandleTerminate(maps, devices, rest[..|rest| - 1]);
    } else {
      assert [Events.Terminate][..0] == [];
    }
  }

  /** A dispatch never puts a path in the list twice. */
  lemma {:induction false} DispatchKeepsDistinct(devices: seq<string>, cbs: seq<Events.Callback>, d: string)
    requires Events.Distinct(devices)
    ensures Events.Distinct(Dispatch(devices, cbs, d).devices)
  {
    if cbs != [] {
      var pre := Dispatch(devices, cbs[..|cbs| - 1], d);
      DispatchKeepsDistinct(devices, cbs[..|cbs| - 1], d);
      Events.ApplyKeepsDistinct(pre.devices, cbs[|cbs| - 1], d);
    }
  }

  /** However the dispatcher runs, the device list never holds a path twice. */
  lemma {:induction false} HandleKeepsDistinct(maps: seq<Events.FunctionMap>, devices: seq<string>,
                                               queue: seq<Events.QueueItem>)
    requires Events.Distinct(devices)
    ensures Events.Distinct(Handle(maps, devices, queue).devices)
  {
    if queue != [] {
      var pre := Handle(maps, devices, queue[..|queue| - 1]);
      HandleKeepsDistinct(maps, devices, queue[..|queue| - 1]);
      if pre.stop == Waiting && queue[|queue| - 1].Posted? {
        var e := queue[|queue| - 1].event;
        DispatchKeepsDistinct(pre.devices, Events.Callbacks(maps, e.action), e.device);
      }
    }
  }

  /**
   * With the constructor's table, an `add` event for a new path appends it,
   * a `remove` event for a listed path removes it, and the other error
   * branches raise with the list unchanged.
   */
  lemma InitialDispatch(devices: seq<string>, e: Events.Event)
    ensures e.action == "add" ==>
      Dispatch(devices, Events.Callbacks(InitialMaps, e.action), e.device) ==
      (if e.device in devices then Dispatched(devices, true) else Dispatched(devices + [e.device], false))
    ensures e.action == "remove" ==>
      Dispatch(devices, Events.Callbacks(InitialMaps, e.action), e.device) ==
      (match Events.Removed(devices, e.device)
       case Some(ds) => Dispatched(ds, false)
       case None => Dispatched(devices, true))
    ensures e.action != "add" && e.action != "remove" ==>
      Dispatch(devices, Events.Callbacks(InitialMaps, e.action), e.device) == Dispatched(devices, false)
  {
    assert InitialMaps[..1] == [InitialMaps[0]];
    assert InitialMaps[..1][..0] == [];
    if e.action == "add" {
      assert Events.Callbacks(InitialMaps, e.action) == [Events.AddDevice];
      assert [Events.AddDevice][..0] == [];
    } else if e.action == "remove" {
      assert Events.Callbacks(InitialMaps, e.action) == [Events.RemoveDevice];
      assert [Events.RemoveDevice][..0] == [];
    }
  }

  class DiskEventListener {
    var functionMaps: seq<Events.FunctionMap>
    var watching: seq<string>
    var devices: seq<string>

    /** `DiskEventListener()`: watches `/dev/sda`, no devices yet, the two device callbacks registered. */
    constructor ()
      ensures functionMaps == InitialMaps
      ensures watching == ["/dev/sda"] && devices == []
    {
      functionMaps := [];
      watching := ["/dev/sda"];
      devices := [];
      new;
      Register("add", Events.AddDevice);
      Register("remove", Events.RemoveDevice);
    }

    /** `register(action, callback)` appends to the table. */
    method Register(action: string, callback: Events.Callback)
      modifies this`functionMaps
      ensures functionMaps == old(functionMaps) + [Events.FunctionMap(action, callback)]
    {
      functionMaps := functionMaps + [Events.FunctionMap(action, callback)];
    }

    /** `add_device(event)`: `raised` is the error branch, which leaves the list as it was. */
    method AddDevice(event: Events.Event) returns (raised: bool)
      modifies this`devices
      ensures raised <==> event.device in old(devices)
      ensures !raised ==> devices == old(devices) + [event.device]
      ensures raised ==> devices == old(devices)
    {
      if event.device in devices {
        raised := true;
      } else {
        devices := devices + [event.device];
        raised := false;
      }
    }

    /** `remove_device(event)`: `raised` is the error branch, which leaves the list as it was. */
    method RemoveDevice(event: Events.Event) returns (raised: bool)
      modifies this`devices
      ensures raised <==> event.device !in old(devices)
      ensures !raised ==> Events.Removed(old(devices), event.device) == Some(devices)
      ensures raised ==> devices == old(devices)
    {
      if event.device in devices {
        devices := Utils.RemoveFirst(devices, event.device);
        raised := false;
      } else {
        raised := true;
      }
    }

    /** The callbacks whose action matches the event, called in registration order. */
    method DispatchEvent(event: Events.Event) returns (raised: bool)
      modifies this`devices
      ensures Dispatched(devices, raised) ==
              Dispatch(old(devices), Events.Callbacks(functionMaps, event.action), event.device)
    {
      raised := false;
      ghost var start := devices;
      for k := 0 to |functionMaps|
        invariant Dispatched(devices, raised) ==
                  Dispatch(start, Events.Callbacks(functionMaps[..k], event.action), event.device)
      {
        Events.CallbacksAppend(functionMaps[..k], [functionMaps[k]], event.action);
        assert functionMaps[..k + 1] == functionMaps[..k] + [functionMaps[k]];
        assert [functionMaps[k]][..0] == [];
        if !raised && functionMaps[k].action == event.action {
          match functionMaps[k].callback {
            case AddDevice => raised := AddDevice(event);
            case RemoveDevice => raised := RemoveDevice(event);
            case Other(_) =>
          }
        }
      }
      assert functionMaps[..|functionMaps|] == functionMaps;
    }

    /** `handle_events`: take items off the queue until the terminate signal or an exception. */
    method HandleEvents(queue: seq<Events.QueueItem>) returns (consumed: nat, stop: Stop)
      modifies this`devices
      ensures Run(devices, consumed, stop) == Handle(functionMaps, old(devices), queue)
    {
      ghost var start := devices;
      consumed, stop := 0, Waiting;
      var k := 0;
      while k < |queue| && stop == Waiting
        invariant 0 <= k <= |queue|
        invariant Run(devices, consumed, stop) == Handle(functionMaps, start, queue[..k])
        invariant stop != Waiting ==> Handle(functionMaps, start, queue) == Handle(functionMaps, start, queue[..k])
      {
        assert queue[..k + 1][..k] == queue[..k];
        match queue[k] {
          case Terminate =>
            stop := Terminated;
          case Posted(e) =>
            var raised := DispatchEvent(e);
            if raised {
              stop := Raised;
            }
        }
        consumed := consumed + 1;
        k := k + 1;
        if stop != Waiting {
          HandleStopped(functionMaps, start, queue, k);
        }
      }
      if stop == Waiting {
        assert queue[..k] == queue;
      }
    }
  }

  /** Once the dispatcher has stopped, later queue items make no difference. */
  lemma {:induction false} HandleStopped(maps: seq<Events.FunctionMap>, devices: seq<string>,
                                         queue: seq<Events.QueueItem>, k: nat)
    requires k <= |queue| && Handle(maps, devices, queue[..k]).stop != Waiting
    ensures Handle(maps, devices, queue) == Handle(maps, devices, queue[..k])
    decreases |queue| - k
  {
    if k < |queue| {
      assert queue[..|queue| - 1][..k] == queue[..k];
      HandleStopped(maps, devices, queue[..|queue| - 1], k);
    } else {
      assert queue[..k] == queue;
    }
  }
}
