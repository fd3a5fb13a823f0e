/**
 * capture.py: the single-file version of the program. Its `DeviceManager`
 * posts each DEVICE_REMOVED and DEVICE_ADDED event inside the loops that
 * remove and bind, and its `main` keeps the per-slot lists of
 * event_handlers.py (the `Slots` class) and the FPS, and handles the
 * Apply FPS, Start All, Stop All and window-close events on them.
 */
module Capture {
  import opened Wrappers
  import opened Utils
  import opened CameraClient
  import opened DeviceManager
  import EH = EventHandlers

  // ---------------------------------------------------------------- the older reconciler

  lemma RemovedEventsSnoc(p: seq<Bound>, x: Bound)
    ensures RemovedEvents(p + [x]) == RemovedEvents(p) + [DeviceRemoved(x.slot, x.serial)]
  {
    assert RemovedEvents(p + [x])[|p|] == DeviceRemoved(x.slot, x.serial);
  }

  lemma AddedEventsSnoc(p: seq<Bound>, x: Bound)
    ensures AddedEvents(p + [x]) == AddedEvents(p) + [DeviceAdded(x.slot, x.serial)]
  {
    assert AddedEvents(p + [x])[|p|] == DeviceAdded(x.slot, x.serial);
  }

  lemma RemovedEventsStep(bindings: seq<Bound>, i: nat, serials: seq<string>)
    requires i < |bindings|
    ensures RemovedEvents(Removed(bindings[..i + 1], serials)) ==
      RemovedEvents(Removed(bindings[..i], serials)) +
      (if bindings[i].serial in serials then [] else [DeviceRemoved(bindings[i].slot, bindings[i].serial)])
  {
    KeptStep(bindings, i, serials);
    if bindings[i].serial !in serials {
      RemovedEventsSnoc(Removed(bindings[..i], serials), bindings[i]);
    } else {
      assert Removed(bindings[..i] + [bindings[i]], serials) == Removed(bindings[..i], serials) by {
        assert bindings[..i + 1] == bindings[..i] + [bindings[i]];
      }
    }
  }

  /**
   * Lines 224-234: unbind every slot whose serial is no longer listed,
   * posting its DEVICE_REMOVED as it goes.
   */
  method RemoveAndPost(bindings: seq<Bound>, serials: seq<string>) returns (cur: seq<Bound>, events: seq<DeviceEvent>)
    requires Valid(bindings)
    ensures cur == Kept(bindings, serials)
    ensures events == RemovedEvents(Removed(bindings, serials))
  {
    cur := bindings;
    events := [];
    var i := 0;
    while i < |bindings|
      invariant 0 <= i <= |bindings|
      invariant cur == Kept(bindings[..i], serials) + bindings[i..]
      invariant events == RemovedEvents(Removed(bindings[..i], serials))
    {
      var b := bindings[i];
      RemovalStep(bindings, i, serials);
      KeptStep(bindings, i, serials);
      RemovedEventsStep(bindings, i, serials);
      if b.serial !in serials {
        events := events + [DeviceRemoved(b.slot, b.serial)];
        cur := DeleteKey(cur, b.slot);
      }
      i := i + 1;
    }
    assert bindings[..i] == bindings;
    assert bindings[i..] == [];
  }

  /**
   * Lines 240-251: bind the listed serials to the idle slots, posting each
   * DEVICE_ADDED as it goes, after the events `pre` already posted.
   */
  method BindAndPost(serials: seq<string>, bindings: seq<Bound>, idle: seq<Slot>, forward: Forward, pre: seq<DeviceEvent>)
    returns (r: BindState, events: seq<DeviceEvent>)
    ensures r == Bind(serials, BindState(bindings, idle, []), forward)
    ensures events == pre + AddedEvents(r.added)
  {
    var a, f, added := bindings, idle, [];
    events := pre;
    var i := 0;
    while i < |serials|
      invariant 0 <= i <= |serials|
      invariant Bind(serials[i..], BindState(a, f, added), forward) == Bind(serials, BindState(bindings, idle, []), forward)
      invariant events == pre + AddedEvents(added)
    {
      var s := serials[i];
      assert serials[i..][0] == s && serials[i..][1..] == serials[i + 1..];
      if s in SerialsOf(a) {
        i := i + 1;
        continue;
      }
      if f == [] {
        break;
      }
      var slot := f[0];
      f := f[1..];
      var ok := forward(s, LocalPorts[slot]);
      if ok {
        a := a + [Bound(slot, s)];
        AddedEventsSnoc(added, Bound(slot, s));
        added := added + [Bound(slot, s)];
        events := events + [DeviceAdded(slot, s)];
      }
      i := i + 1;
    }
    r := BindState(a, f, added);
  }

  /** The events of one pass of the older loop: every removal, then every addition. */
  function LegacyEvents(o: Outcome): seq<DeviceEvent> {
    RemovedEvents(o.removed) + AddedEvents(o.added)
  }

  /**
   * Posting inside the loops gives the same order as posting after the lock:
   * all DEVICE_REMOVED events precede all DEVICE_ADDED events, each in its
   * own loop's order, and no battery update is ever posted.
   */
  lemma LegacyEventsInOrder(o: Outcome)
    ensures var ev := LegacyEvents(o);
      && |ev| == |o.removed| + |o.added|
      && (forall i :: 0 <= i < |o.removed| ==> ev[i] == DeviceRemoved(o.removed[i].slot, o.removed[i].serial))
      && (forall i :: 0 <= i < |o.added| ==> ev[|o.removed| + i] == DeviceAdded(o.added[i].slot, o.added[i].serial))
      && (forall i, j :: 0 <= i < j < |ev| ==> Rank(ev[i]) <= Rank(ev[j]))
      && (forall i :: 0 <= i < |ev| ==> !ev[i].BatteryUpdate?)
  {
    var ev := LegacyEvents(o);
    var n := |o.removed|;
    assert forall i :: 0 <= i < n ==> ev[i] == RemovedEvents(o.removed)[i];
    assert forall i :: n <= i < |ev| ==> ev[i] == AddedEvents(o.added)[i - n];
  }

  /** The thread object of lines 206-252: `assigned` (in insertion order) and `running`. */
  class LegacyDeviceManager {
    var bindings: seq<Bound>
    var running: bool

    constructor ()
      ensures bindings == [] && running
    {
      bindings := [];
      running := true;
    }

    /** `stop()`. */
    method Stop()
      modifies this
      ensures !running && bindings == old(bindings)
    {
      running := false;
    }

    /**
     * One pass of the `while self.running` loop: the same reconciliation as
     * device_manager.py, with the events posted while it runs.
     */
    method Tick(adb: Adb, forward: Forward) returns (events: seq<DeviceEvent>)
      requires Valid(bindings)
      modifies this
      ensures var o := Reconcile(old(bindings), DevicesOf(RunAdbList(["devices"], adb)), forward);
        && bindings == o.bindings && Valid(bindings)
        && events == LegacyEvents(o)
      ensures running == old(running)
    {
      var devices := ListAdbDevices(adb);
      ReconcileInvariant(bindings, devices, forward);
      var serials := Present(devices);
      var kept, gone := RemoveAndPost(bindings, serials);
      var idle := FreeCamIndices(KeysOf(kept));
      var r;
      r, events := BindAndPost(serials, kept, idle, forward, gone);
      bindings := r.bindings;
    }
  }

  // ---------------------------------------------------------------- main's handlers

  /** `max(1.0, newfps)`. */
  function Clamp(v: real): (r: real)
    ensures r >= 1.0 && r >= v && (r == v || r == 1.0)
  {
    if 1.0 >= v then 1.0 else v
  }

  /** An applied FPS never drops the failure threshold below two reads. */
  lemma ClampedThreshold(v: real)
    ensures Threshold(Clamp(v)) >= 2
  {
    var x := Clamp(v) * 2.0;
    assert x >= 2.0;
    assert (2.0).Floor == 2;
  }

  /**
   * Apply FPS (lines 339-349), where `parsed` is what `float()` made of the
   * text field, `None` when it raised: the clamped value becomes `fps` and
   * every client's `fps`; an unparseable value changes nothing.
   */
  method ApplyFps(s: EH.Slots, fps: real, parsed: Option<real>) returns (newFps: real)
    requires s.Valid()
    modifies s.Objects()
    ensures s.Valid()
    ensures parsed.None? ==> newFps == fps
    ensures parsed.Some? ==> newFps == Clamp(parsed.value)
    ensures forall i :: 0 <= i < 2 ==> s.RateOf(i) == if parsed.Some? && s.clients[i].Some? then Some(newFps) else old(s.RateOf(i))
    ensures forall i :: 0 <= i < 2 ==> s.StateOf(i) == old(s.StateOf(i))
  {
    newFps := fps;
    if parsed.None? {
      return;
    }
    newFps := Clamp(parsed.value);
    for idx := 0 to 2
      invariant s.Valid()
      invariant forall i :: 0 <= i < idx ==> s.RateOf(i) == if s.clients[i].Some? then Some(newFps) else None
      invariant forall i :: idx <= i < 2 ==> s.RateOf(i) == old(s.RateOf(i))
      invariant forall i :: 0 <= i < 2 ==> s.StateOf(i) == old(s.StateOf(i))
    {
      SetRate(s, idx, newFps);
    }
  }

  /** The body of that loop: `if c: c.fps = fps`. */
  method SetRate(s: EH.Slots, idx: Slot, fps: real)
    requires s.Valid()
    modifies s.Objects()
    ensures s.Valid()
    ensures s.RateOf(idx) == if s.clients[idx].Some? then Some(fps) else None
    ensures s.RateOf(1 - idx) == old(s.RateOf(1 - idx))
    ensures s.StateOf(0) == old(s.StateOf(0)) && s.StateOf(1) == old(s.StateOf(1))
  {
    if s.clients[idx].Some? {
      s.clients[idx].value.fps := fps;
    }
  }

  /**
   * Stop All (lines 357-363): every client is stopped and dropped. The
   * `cam_running` flags, and the other lists, keep their values.
   */
  method StopAll(s: EH.Slots)
    requires s.Valid()
    modifies s, s.Objects()
    ensures s.Valid() && s.clients == [None, None]
    ensures forall i :: 0 <= i < 2 && old(s.clients[i]).Some? ==>
      old(s.clients[i]).value.State() == Stopped(old(s.StateOf(i)).value)
    ensures s.camRunning == old(s.camRunning) && s.camSaving == old(s.camSaving) && s.camSaveDirs == old(s.camSaveDirs)
  {
    for idx := 0 to 2
      invariant s.Valid()
      invariant forall i :: 0 <= i < idx ==> s.clients[i].None?
      invariant forall i :: idx <= i < 2 ==> s.clients[i] == old(s.clients[i]) && s.StateOf(i) == old(s.StateOf(i))
      invariant forall i :: 0 <= i < idx && old(s.clients[i]).Some? ==>
        old(s.clients[i]).value.State() == Stopped(old(s.StateOf(i)).value)
      invariant s.camRunning == old(s.camRunning) && s.camSaving == old(s.camSaving) && s.camSaveDirs == old(s.camSaveDirs)
    {
      StopAndDrop(s, idx);
    }
  }

  /** The body of that loop for slot `idx`. */
  method StopAndDrop(s: EH.Slots, idx: Slot)
    requires s.Valid()
    modifies s, if s.clients[idx].Some? then {s.clients[idx].value} else {}
    ensures s.Valid() && s.clients == old(s.clients)[idx := None]
    ensures old(s.clients[idx]).Some? ==> old(s.clients[idx]).value.State() == Stopped(old(s.StateOf(idx)).value)
    ensures s.camRunning == old(s.camRunning) && s.camSaving == old(s.camSaving) && s.camSaveDirs == old(s.camSaveDirs)
  {
    if s.clients[idx].Some? {
      s.clients[idx].value.StopCapture();
      s.clients := s.clients[idx := None];
    }
  }

  /**
   * Start All (lines 351-355): `handle_device_added` for every binding of
   * the device manager, in `assigned` order; `opens(slot)` is whether that
   * slot's stream opens. Afterwards every bound slot holds a client and
   * every other slot is as it was.
   */
  method StartAll(s: EH.Slots, devmgr: LegacyDeviceManager, sessionRoot: string, fps: real, opens: Slot -> bool, now: int)
    requires s.Valid()
    modifies s, s.Objects()
    ensures s.Valid()
    ensures forall k :: 0 <= k < |devmgr.bindings| ==> s.clients[devmgr.bindings[k].slot].Some?
    ensures forall i: Slot :: i !in KeysOf(devmgr.bindings) ==>
      SlotIs(s, i, old(s.clients[i]), old(s.camRunning[i]), old(s.camSaveDirs[i]), old(s.StateOf(i)), old(s.RateOf(i)))
    ensures s.camSaving == old(s.camSaving)
  {
    var a := devmgr.bindings;
    ghost var before := Snapshot(s);
    ghost var touched := [false, false];
    assert a[..0] == [];
    for k := 0 to |a|
      invariant s.Valid() && Started(s, a, k, touched, before)
      invariant s.camSaving == old(s.camSaving)
      invariant forall i :: 0 <= i < 2 && s.clients[i].Some? ==> s.clients[i] == old(s.clients[i]) || fresh(s.clients[i].value)
    {
      touched := StartOne(s, a, k, touched, before, sessionRoot, fps, opens(a[k].slot), now);
    }
    assert a[..|a|] == a;
    ghost var v := Snapshot(s);
    assert StartedViews(v, a, |a|, touched, before);
    forall k | 0 <= k < |a| ensures s.clients[a[k].slot].Some? {
      assert KeysOf(a)[k] == a[k].slot;
      assert v[a[k].slot].client == s.clients[a[k].slot];
    }
  }

  /** What one slot holds: client, `cam_running`, `cam_save_dirs`, client state and rate. */
  datatype SlotView = SlotView(client: Option<Client>, running: bool, dir: Option<string>, state: Option<ClientState>, rate: Option<real>)

  function ViewOf(s: EH.Slots, i: Slot): SlotView
    requires s.Valid()
    reads s, s.Objects()
  {
    SlotView(s.clients[i], s.camRunning[i], s.camSaveDirs[i], s.StateOf(i), s.RateOf(i))
  }

  function Snapshot(s: EH.Slots): (v: seq<SlotView>)
    requires s.Valid()
    reads s, s.Objects()
    ensures |v| == 2
  {
    [ViewOf(s, 0), ViewOf(s, 1)]
  }

  /** Slot `i` holds the given client, flags, folder, client state and rate. */
  predicate SlotIs(s: EH.Slots, i: Slot, c: Option<Client>, running: bool, dir: Option<string>, st: Option<ClientState>, rate: Option<real>)
    requires s.Valid()
    reads s, s.Objects()
  {
    ViewOf(s, i) == SlotView(c, running, dir, st, rate)
  }

  /**
   * The loop state after the first `k` bindings: `touched` marks their
   * slots; those hold a client and the others look as in `before`.
   */
  predicate Started(s: EH.Slots, a: seq<Bound>, k: nat, touched: seq<bool>, before: seq<SlotView>)
    requires s.Valid()
    reads s, s.Objects()
  {
    StartedViews(Snapshot(s), a, k, touched, before)
  }

  predicate StartedViews(v: seq<SlotView>, a: seq<Bound>, k: nat, touched: seq<bool>, before: seq<SlotView>) {
    && k <= |a| && |v| == 2 && |touched| == 2 && |before| == 2
    && (forall i: Slot :: touched[i] == (i in KeysOf(a[..k])))
    && (forall i: Slot :: touched[i] ==> v[i].client.Some?)
    && (forall i: Slot :: !touched[i] ==> v[i] == before[i])
  }

  /** Filling slot `a[k].slot` and leaving the other one alone advances the loop state by one binding. */
  lemma StartedStep(v: seq<SlotView>, w: seq<SlotView>, a: seq<Bound>, k: nat, touched: seq<bool>, before: seq<SlotView>)
    requires k < |a| && StartedViews(v, a, k, touched, before)
    requires |w| == 2 && w[a[k].slot].client.Some? && w[1 - a[k].slot] == v[1 - a[k].slot]
    ensures StartedViews(w, a, k + 1, touched[a[k].slot := true], before)
  {
    assert a[..k + 1] == a[..k] + [a[k]];
    assert KeysOf(a[..k + 1]) == KeysOf(a[..k]) + [a[k].slot];
  }

  /** The body of that loop: `handle_device_added` fills slot `a[k].slot` and leaves the other slot alone. */
  method StartOne(s: EH.Slots, a: seq<Bound>, k: nat, ghost touched: seq<bool>, ghost before: seq<SlotView>,
                  sessionRoot: string, fps: real, isOpen: bool, now: int) returns (ghost touched': seq<bool>)
    requires s.Valid() && k < |a| && Started(s, a, k, touched, before)
    modifies s, if s.clients[a[k].slot].Some? then {s.clients[a[k].slot].value} else {}
    ensures s.Valid() && Started(s, a, k + 1, touched', before)
    ensures forall i :: 0 <= i < 2 && s.clients[i].Some? ==> s.clients[i] == old(s.clients[i]) || fresh(s.clients[i].value)
    ensures s.camSaving == old(s.camSaving)
  {
    var slot := a[k].slot;
    ghost var v := Snapshot(s);
    FillSlot(s, slot, sessionRoot, fps, isOpen, now);
    StartedStep(v, Snapshot(s), a, k, touched, before);
    touched' := touched[slot := true];
  }

  /** `handle_device_added` for `slot`: the slot ends with a client and the other slot looks as before. */
  method FillSlot(s: EH.Slots, slot: Slot, sessionRoot: string, fps: real, isOpen: bool, now: int)
    requires s.Valid()
    modifies s, if s.clients[slot].Some? then {s.clients[slot].value} else {}
    ensures s.Valid() && s.clients[slot].Some?
    ensures s.clients[slot] == old(s.clients[slot]) || fresh(s.clients[slot].value)
    ensures s.clients[1 - slot] == old(s.clients[1 - slot])
    ensures ViewOf(s, 1 - slot) == old(ViewOf(s, 1 - slot))
    ensures s.camSaving == old(s.camSaving)
  {
    s.HandleDeviceAdded(slot, sessionRoot, fps, isOpen, now);
  }

  /** The steps of the `finally` block, in order. */
  datatype Teardown = ManagerStopped | ClientStopped(slot: Slot)

  /**
   * Shutdown (lines 422-427): the device manager is told to stop first,
   * then every remaining client is stopped, slot 0 before slot 1; the
   * clients stay in their slots.
   */
  method Shutdown(s: EH.Slots, devmgr: LegacyDeviceManager) returns (steps: seq<Teardown>)
    requires s.Valid()
    modifies devmgr, s.Objects()
    ensures !devmgr.running && devmgr.bindings == old(devmgr.bindings)
    ensures s.Valid()
    ensures forall i :: 0 <= i < 2 && s.clients[i].Some? ==> s.StateOf(i) == Some(Stopped(old(s.StateOf(i)).value))
    ensures steps == [ManagerStopped]
      + (if s.clients[0].Some? then [ClientStopped(0)] else [])
      + (if s.clients[1].Some? then [ClientStopped(1)] else [])
  {
    devmgr.Stop();
    steps := [ManagerStopped];
    for idx := 0 to 2
      invariant s.Valid()
      invariant forall i :: 0 <= i < idx && s.clients[i].Some? ==> s.StateOf(i) == Some(Stopped(old(s.StateOf(i)).value))
      invariant forall i :: idx <= i < 2 ==> s.StateOf(i) == old(s.StateOf(i))
      invariant !devmgr.running && devmgr.bindings == old(devmgr.bindings)
      invariant steps == [ManagerStopped]
        + (if idx > 0 && s.clients[0].Some? then [ClientStopped(0)] else [])
        + (if idx > 1 && s.clients[1].Some? then [ClientStopped(1)] else [])
    {
      if s.clients[idx].Some? {
        StopClient(s, idx);
        steps := steps + [ClientStopped(idx)];
      }
    }
  }

  /** `cam_clients[idx].stop_capture()`, leaving the client in its slot. */
  method StopClient(s: EH.Slots, idx: Slot)
    requires s.Valid() && s.clients[idx].Some?
    modifies s.clients[idx].value
    ensures s.Valid()
    ensures s.StateOf(idx) == Some(Stopped(old(s.StateOf(idx)).value))
    ensures s.StateOf(1 - idx) == old(s.StateOf(1 - idx))
  {
    s.clients[idx].value.StopCapture();
  }

  /**
   * DEVICE_ADDED and DEVICE_REMOVED from the device manager (lines
   * 414-420) go to the slot handlers; a battery update changes nothing here.
   */
  method HandleDeviceEvent(s: EH.Slots, e: DeviceEvent, sessionRoot: string, fps: real, isOpen: bool, now: int)
    requires s.Valid()
    modifies s, s.Objects()
    ensures s.Valid()
    ensures e.BatteryUpdate? ==> s.clients == old(s.clients) && s.camRunning == old(s.camRunning)
    ensures e.DeviceAdded? ==> AddedTo(s, e.slot, old(ViewOf(s, e.slot)), old(ViewOf(s, 1 - e.slot)), old(s.camRunning), old(s.camSaveDirs), sessionRoot, fps, isOpen, now)
    ensures e.DeviceAdded? && old(s.clients[e.slot]).None? ==> fresh(s.clients[e.slot].value)
    ensures e.DeviceRemoved? ==> RemovedFrom(s, e.slot, old(ViewOf(s, e.slot)), old(ViewOf(s, 1 - e.slot)))
    ensures e.DeviceRemoved? && old(s.clients[e.slot]).Some? ==>
      old(s.clients[e.slot]).value.State() == Stopped(old(s.StateOf(e.slot)).value)
    ensures e.BatteryUpdate? ==> Snapshot(s) == old(Snapshot(s))
    ensures s.camSaving == old(s.camSaving)
  {
    match e
    case DeviceAdded(slot, _) =>
      AddDevice(s, slot, sessionRoot, fps, isOpen, now);
    case DeviceRemoved(slot, _) =>
      RemoveDevice(s, slot);
    case BatteryUpdate(_, _, _) =>
  }

  /**
   * What `handle_device_removed` leaves in `s`, given the slot's and the
   * other slot's views before the call: an occupied slot loses its client
   * and is marked not running, keeping its folder; an empty slot and the
   * other slot stay as they were.
   */
  predicate RemovedFrom(s: EH.Slots, slot: Slot, mine: SlotView, other: SlotView)
    requires s.Valid()
    reads s, s.Objects()
  {
    && ViewOf(s, 1 - slot) == other
    && ViewOf(s, slot) == if mine.client.Some? then SlotView(None, false, mine.dir, None, None) else mine
  }

  /** The DEVICE_REMOVED branch: `handle_device_removed(cam_idx, serial)`. */
  method RemoveDevice(s: EH.Slots, slot: Slot)
    requires s.Valid()
    modifies s, if s.clients[slot].Some? then {s.clients[slot].value} else {}
    ensures s.Valid()
    ensures RemovedFrom(s, slot, old(ViewOf(s, slot)), old(ViewOf(s, 1 - slot)))
    ensures old(s.clients[slot]).Some? ==> old(s.clients[slot]).value.State() == Stopped(old(s.StateOf(slot)).value)
    ensures s.camSaving == old(s.camSaving)
  {
    s.HandleDeviceRemoved(slot);
  }

  /**
   * What `handle_device_added` leaves in `s` for `slot`, given the slot's
   * and the other slot's views and the two lists before the call: the
   * client kept (or a new one at `fps`), its state after `start_capture`,
   * the running flag and the folder set unless the start raised, and the
   * other slot as it was.
   */
  predicate AddedTo(s: EH.Slots, slot: Slot, mine: SlotView, other: SlotView, running: seq<bool>, dirs: seq<Option<string>>,
                    sessionRoot: string, fps: real, isOpen: bool, now: int)
    requires s.Valid()
    reads s, s.Objects()
  {
    && |running| == 2 && |dirs| == 2
    && s.clients[slot].Some?
    && (mine.client.Some? ==> s.clients[slot] == mine.client && s.RateOf(slot) == mine.rate)
    && (mine.client.None? ==> s.RateOf(slot) == Some(fps))
    && ViewOf(s, 1 - slot) == other
    && var before := if mine.client.Some? && mine.state.Some? then mine.state.value else Initial;
      var o := CameraClient.Started(before, StreamUri(LocalPorts[slot]), isOpen, now);
      var folder := EH.CamFolder(sessionRoot, slot);
      if o.raised.None? then
        && s.StateOf(slot) == Some(o.state.(saveFolder := Some(folder)))
        && s.camRunning == running[slot := true]
        && s.camSaveDirs == dirs[slot := Some(folder)]
      else
        && s.StateOf(slot) == Some(o.state)
        && s.camRunning == running && s.camSaveDirs == dirs
  }

  /** The DEVICE_ADDED branch: `handle_device_added(cam_idx, serial)`. */
  method AddDevice(s: EH.Slots, slot: Slot, sessionRoot: string, fps: real, isOpen: bool, now: int)
    requires s.Valid()
    modifies s, if s.clients[slot].Some? then {s.clients[slot].value} else {}
    ensures s.Valid()
    ensures AddedTo(s, slot, old(ViewOf(s, slot)), old(ViewOf(s, 1 - slot)), old(s.camRunning), old(s.camSaveDirs), sessionRoot, fps, isOpen, now)
    ensures old(s.clients[slot]).None? ==> fresh(s.clients[slot].value)
    ensures s.camSaving == old(s.camSaving)
  {
    s.HandleDeviceAdded(slot, sessionRoot, fps, isOpen, now);
  }
}
