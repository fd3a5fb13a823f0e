/**
 * event_handlers.py: the GUI side's per-slot lists `cam_clients`,
 * `cam_running`, `cam_saving` and `cam_save_dirs`, and the handlers that
 * update them in place. Window updates and log lines are left out; the adb
 * commands the Start Recording handler sends are returned in order.
 */
module EventHandlers {
  import opened Wrappers
  import opened PyText
  import opened CameraClient
  import DM = DeviceManager
  import SessionCreator

  /** `os.path.join(session_root, f"cam{idx+1}")`. */
  function CamFolder(sessionRoot: string, idx: nat): string {
    PathJoin(sessionRoot, "cam" + IntToDecimal(idx + 1))
  }

  /** The two cameras save into different folders of the same session. */
  lemma CamFoldersDistinct(sessionRoot: string)
    ensures CamFolder(sessionRoot, 0) != CamFolder(sessionRoot, 1)
  {
    var b0, b1 := "cam" + IntToDecimal(1), "cam" + IntToDecimal(2);
    assert IntToDecimal(1) == "1" && IntToDecimal(2) == "2";
    var r0, r1 := CamFolder(sessionRoot, 0), CamFolder(sessionRoot, 1);
    assert r0[|r0| - 1] == b0[3] && r1[|r1| - 1] == b1[3];
  }

  /** With the session root of a timestamp and a MAC, a camera saves into `recordings/<timestamp>_<mac>/cam<idx+1>`. */
  lemma CamFolderLayout(timestamp: string, mac: string, idx: nat)
    requires timestamp == [] || timestamp[0] != '/'
    requires mac == [] || mac[|mac| - 1] != '/'
    ensures CamFolder(SessionCreator.SessionRoot(timestamp, mac), idx) ==
      "recordings/" + timestamp + "_" + mac + "/cam" + IntToDecimal(idx + 1)
  {
    SessionCreator.SessionRootLayout(timestamp, mac);
    var root := SessionCreator.SessionRoot(timestamp, mac);
    var b := "cam" + IntToDecimal(idx + 1);
    assert b[0] == 'c';
    if mac == [] {
      assert root[|root| - 1] == '_';
    } else {
      assert root[|root| - 1] == mac[|mac| - 1];
    }
    assert root + "/" + b == "recordings/" + timestamp + "_" + mac + "/cam" + IntToDecimal(idx + 1);
  }

  // ---------------------------------------------------------------- tap coordinates

  /** A command the Start Recording handler sends over adb. */
  datatype DeviceCommand =
    | StartApp(serial: string, component: string)
    | Tap(serial: string, x: int, y: int)

  /** `x, y = coords.split(","); int(x), int(y)`: exactly two pieces, both integers; anything else raises. */
  function ParseTap(coords: string): (r: Option<(int, int)>)
    ensures r.Some? ==> |SplitOn(coords, ',')| == 2
  {
    var parts := SplitOn(coords, ',');
    if |parts| != 2 then None
    else
      match (ParseInt(parts[0]), ParseInt(parts[1]))
      case (Some(x), Some(y)) => Some((x, y))
      case _ => None
  }

  /** Coordinates written as the text field expects them, "x,y". */
  function TapText(x: int, y: int): string {
    IntToDecimal(x) + "," + IntToDecimal(y)
  }

  /** Text with one comma splits at it, and parses when both sides are integers. */
  lemma TapOfParts(a: string, b: string)
    requires ',' !in a && ',' !in b
    ensures ParseTap(a + "," + b) ==
      if ParseInt(a).Some? && ParseInt(b).Some? then Some((ParseInt(a).value, ParseInt(b).value)) else None
  {
    SplitOnAt(a, b, ',');
    assert SplitOn(a + "," + b, ',') == [a, b];
  }

  /** Coordinates written as "x,y" parse back to themselves. */
  lemma TapRoundTrip(x: int, y: int)
    ensures ParseTap(TapText(x, y)) == Some((x, y))
  {
    DecimalIsPlain(x);
    DecimalIsPlain(y);
    ParseIntDecimal(x);
    ParseIntDecimal(y);
    TapOfParts(IntToDecimal(x), IntToDecimal(y));
  }

  function Commas(s: string): nat {
    if s == [] then 0 else (if s[0] == ',' then 1 else 0) + Commas(s[1..])
  }

  /** `split(",")` gives one piece more than there are commas. */
  lemma {:induction false} SplitOnCommas(s: string)
    ensures |SplitOn(s, ',')| == Commas(s) + 1
    decreases |s|
  {
    if s != [] {
      SplitOnCommas(s[1..]);
    }
  }

  /** Text without exactly one comma never gives a tap. */
  lemma TapNeedsOneComma(coords: string)
    requires Commas(coords) != 1
    ensures ParseTap(coords) == None
  {
    SplitOnCommas(coords);
  }

  /** Slot 0 uses the TAP1 text, every other slot TAP2. */
  function TapFor(slot: DM.Slot, tap1: string, tap2: string): string {
    if slot == 0 then tap1 else tap2
  }

  /** `am start -n <pkgact>` when the component text is set. */
  function StartCommand(serial: string, pkgact: string): seq<DeviceCommand> {
    if pkgact != "" then [StartApp(serial, pkgact)] else []
  }

  /** `input tap x y` when the coordinate text is set and parses. */
  function TapCommand(serial: string, coords: string): seq<DeviceCommand> {
    if coords == "" then []
    else match ParseTap(coords)
      case Some(p) => [Tap(serial, p.0, p.1)]
      case None => []
  }

  /** The commands for one binding: start the app, then tap. */
  function CommandsFor(b: DM.Bound, pkgact: string, tap1: string, tap2: string): seq<DeviceCommand> {
    StartCommand(b.serial, pkgact) + TapCommand(b.serial, TapFor(b.slot, tap1, tap2))
  }

  /**
   * A binding gets only commands for its own serial: the start-app command
   * exactly when a component is given, and first; a tap at (x, y) exactly
   * when its coordinate text parses to (x, y).
   */
  lemma CommandsForMeaning(b: DM.Bound, pkgact: string, tap1: string, tap2: string)
    ensures var r := CommandsFor(b, pkgact, tap1, tap2);
      && (forall k :: 0 <= k < |r| ==> r[k].serial == b.serial)
      && (StartApp(b.serial, pkgact) in r <==> pkgact != "")
      && (forall c :: c in r && c.StartApp? ==> c.component == pkgact)
      && (forall x, y :: Tap(b.serial, x, y) in r <==> ParseTap(TapFor(b.slot, tap1, tap2)) == Some((x, y)))
      && (pkgact != "" ==> r[0] == StartApp(b.serial, pkgact))
  {
    var coords := TapFor(b.slot, tap1, tap2);
    var start, tap := StartCommand(b.serial, pkgact), TapCommand(b.serial, coords);
    var r := CommandsFor(b, pkgact, tap1, tap2);
    TapCommandMeaning(b.serial, coords);
    assert r == start + tap;
    assert forall c :: c in r <==> c in start || c in tap;
    assert forall k :: 0 <= k < |r| ==> r[k] in start || r[k] in tap;
  }

  lemma TapCommandMeaning(serial: string, coords: string)
    ensures forall c :: c in TapCommand(serial, coords) ==> c.Tap? && c.serial == serial
    ensures forall x, y :: Tap(serial, x, y) in TapCommand(serial, coords) <==> ParseTap(coords) == Some((x, y))
  {
    if coords == "" {
      assert SplitOn(coords, ',') == [[]];
    }
  }

  /** The commands for the bindings in `assigned` order. */
  function CommandsOf(a: seq<DM.Bound>, pkgact: string, tap1: string, tap2: string): seq<DeviceCommand>
    decreases |a|
  {
    if a == [] then [] else CommandsOf(a[..|a| - 1], pkgact, tap1, tap2) + CommandsFor(a[|a| - 1], pkgact, tap1, tap2)
  }

  lemma SeqAssoc(a: seq<DeviceCommand>, b: seq<DeviceCommand>, c: seq<DeviceCommand>)
    ensures a + b + c == a + (b + c)
  {
  }

  lemma CommandsOfSnoc(a: seq<DM.Bound>, i: nat, pkgact: string, tap1: string, tap2: string)
    requires i < |a|
    ensures CommandsOf(a[..i + 1], pkgact, tap1, tap2) == CommandsOf(a[..i], pkgact, tap1, tap2) + CommandsFor(a[i], pkgact, tap1, tap2)
  {
    assert a[..i + 1][..i] == a[..i];
  }

  /** Every command belongs to one binding, and every binding's commands are sent. */
  lemma {:induction false} CommandsOfMembers(a: seq<DM.Bound>, pkgact: string, tap1: string, tap2: string)
    ensures forall c :: c in CommandsOf(a, pkgact, tap1, tap2) ==> exists b :: b in a && c in CommandsFor(b, pkgact, tap1, tap2)
    ensures forall b, c :: b in a && c in CommandsFor(b, pkgact, tap1, tap2) ==> c in CommandsOf(a, pkgact, tap1, tap2)
    decreases |a|
  {
    if a != [] {
      var p := a[..|a| - 1];
      CommandsOfMembers(p, pkgact, tap1, tap2);
      assert a == p + [a[|a| - 1]];
      assert forall b :: b in a <==> b in p || b == a[|a| - 1];
    }
  }

  /** Stripped text of the form "x,y" taps bound slot `b` at (x, y); empty text and text without one comma tap nothing. */
  lemma TapReachesDevice(a: seq<DM.Bound>, b: DM.Bound, pkgact: string, tap1: string, tap2: string, x: int, y: int)
    requires b in a && TapFor(b.slot, tap1, tap2) == TapText(x, y)
    ensures Tap(b.serial, x, y) in CommandsOf(a, pkgact, tap1, tap2)
  {
    TapRoundTrip(x, y);
    CommandsForMeaning(b, pkgact, tap1, tap2);
    CommandsOfMembers(a, pkgact, tap1, tap2);
  }

  /** With no component and no usable coordinates, Start Recording sends nothing. */
  lemma {:induction false} NothingToSend(a: seq<DM.Bound>, tap1: string, tap2: string)
    requires Commas(tap1) != 1 && Commas(tap2) != 1
    ensures CommandsOf(a, "", tap1, tap2) == []
    decreases |a|
  {
    if a != [] {
      NothingToSend(a[..|a| - 1], tap1, tap2);
      TapNeedsOneComma(tap1);
      TapNeedsOneComma(tap2);
    }
  }

  /** Lines 48-61: for each binding in `assigned` order, start the app if a component is set, then tap if the coordinates parse. */
  method SendCommands(bindings: seq<DM.Bound>, pkgact: string, tap1: string, tap2: string) returns (cmds: seq<DeviceCommand>)
    ensures cmds == CommandsOf(bindings, pkgact, tap1, tap2)
  {
    cmds := [];
    for i := 0 to |bindings|
      invariant cmds == CommandsOf(bindings[..i], pkgact, tap1, tap2)
    {
      var b := bindings[i];
      ghost var before := cmds;
      if pkgact != "" {
        cmds := cmds + [StartApp(b.serial, pkgact)];
      }
      ghost var started := cmds;
      assert started == before + StartCommand(b.serial, pkgact);
      var coords := if b.slot == 0 then tap1 else tap2;
      if coords != "" {
        var xy := ParseTap(coords);
        if xy.Some? {
          cmds := cmds + [Tap(b.serial, xy.value.0, xy.value.1)];
        }
      }
      assert cmds == started + TapCommand(b.serial, coords);
      assert coords == TapFor(b.slot, tap1, tap2);
      SeqAssoc(before, StartCommand(b.serial, pkgact), TapCommand(b.serial, coords));
      CommandsOfSnoc(bindings, i, pkgact, tap1, tap2);
    }
    assert bindings[..|bindings|] == bindings;
  }

  // ---------------------------------------------------------------- the per-slot lists

  /** The four two-element lists the handlers share. */
  class Slots {
    /** `cam_clients`. */
    var clients: seq<Option<Client>>
    var camRunning: seq<bool>
    var camSaving: seq<bool>
    var camSaveDirs: seq<Option<string>>

    /** Two entries each; a client sits in one slot only and belongs to that slot's camera and port. */
    predicate Valid()
      reads this
    {
      && |clients| == 2 && |camRunning| == 2 && |camSaving| == 2 && |camSaveDirs| == 2
      && (clients[0].Some? && clients[1].Some? ==> clients[0].value != clients[1].value)
      && (forall i :: 0 <= i < 2 && clients[i].Some? ==> clients[i].value.camId == i && clients[i].value.localPort == DM.LocalPorts[i])
    }

    /** The client objects in the two slots. */
    function Objects(): set<Client>
      reads this
    {
      if |clients| != 2 then {}
      else (if clients[0].Some? then {clients[0].value} else {}) + (if clients[1].Some? then {clients[1].value} else {})
    }

    /** Slot `i`'s client fields, or `None` for an empty slot. */
    function StateOf(i: nat): Option<ClientState>
      requires i < |clients|
      reads this, if clients[i].Some? then {clients[i].value} else {}
    {
      if clients[i].Some? then Some(clients[i].value.State()) else None
    }

    /** Slot `i`'s client `fps`, or `None` for an empty slot. */
    function RateOf(i: nat): Option<real>
      requires i < |clients|
      reads this, if clients[i].Some? then {clients[i].value} else {}
    {
      if clients[i].Some? then Some(clients[i].value.fps) else None
    }

    /** `[None, None]`, `[False, False]`, `[False, False]`, `[None, None]`. */
    constructor ()
      ensures Valid()
      ensures clients == [None, None] && camRunning == [false, false]
      ensures camSaving == [false, false] && camSaveDirs == [None, None]
    {
      clients := [None, None];
      camRunning := [false, false];
      camSaving := [false, false];
      camSaveDirs := [None, None];
    }

    /**
     * `handle_device_added` for slot `idx`, with `fps` for a new client and
     * `isOpen`, `now` for `start_capture`. A new client is made only for an
     * empty slot. When `start_capture` returns, the slot counts as running,
     * even if the stream did not open, and its save folder is set; when it
     * raises, the lists keep their old values.
     */
    method HandleDeviceAdded(idx: DM.Slot, sessionRoot: string, fps: real, isOpen: bool, now: int)
      requires Valid()
      modifies this, if clients[idx].Some? then {clients[idx].value} else {}
      ensures Valid()
      ensures old(clients[idx]).Some? ==> clients[idx] == old(clients[idx]) && RateOf(idx) == old(RateOf(idx))
      ensures old(clients[idx]).None? ==> clients[idx].Some? && fresh(clients[idx].value) && RateOf(idx) == Some(fps)
      ensures var before := if old(clients[idx]).Some? then old(StateOf(idx)).value else Initial;
        var o := Started(before, StreamUri(DM.LocalPorts[idx]), isOpen, now);
        var folder := CamFolder(sessionRoot, idx);
        if o.raised.None? then
          && StateOf(idx) == Some(o.state.(saveFolder := Some(folder)))
          && camRunning == old(camRunning)[idx := true]
          && camSaveDirs == old(camSaveDirs)[idx := Some(folder)]
        else
          && StateOf(idx) == Some(o.state)
          && camRunning == old(camRunning) && camSaveDirs == old(camSaveDirs)
      ensures !isOpen && !(old(clients[idx]).Some? && old(StateOf(idx)).value.running) ==>
        camRunning[idx] && !StateOf(idx).value.running && StateOf(idx).value.errorMsg == Some(OpenErrorMsg)
      ensures clients[1 - idx] == old(clients[1 - idx])
      ensures clients[1 - idx].Some? ==> unchanged(clients[1 - idx].value)
      ensures camSaving == old(camSaving)
    {
      var c := ClientFor(idx, fps);
      StartAt(idx, c, sessionRoot, isOpen, now);
    }

    /** Lines 15-24: start the slot's client; once that returns, mark the slot running and set its save folder. */
    method StartAt(idx: DM.Slot, c: Client, sessionRoot: string, isOpen: bool, now: int)
      requires Valid() && clients[idx] == Some(c)
      modifies this, c
      ensures Valid() && clients == old(clients) && c.fps == old(c.fps)
      ensures var o := Started(old(c.State()), StreamUri(DM.LocalPorts[idx]), isOpen, now);
        var folder := CamFolder(sessionRoot, idx);
        if o.raised.None? then
          && c.State() == o.state.(saveFolder := Some(folder))
          && camRunning == old(camRunning)[idx := true]
          && camSaveDirs == old(camSaveDirs)[idx := Some(folder)]
        else
          && c.State() == o.state
          && camRunning == old(camRunning) && camSaveDirs == old(camSaveDirs)
      ensures camSaving == old(camSaving)
    {
      var raised := c.StartCapture(isOpen, now);
      if raised.None? {
        camRunning := camRunning[idx := true];
        var folder := CamFolder(sessionRoot, idx);
        c.SetSaveFolder(folder);
        camSaveDirs := camSaveDirs[idx := Some(folder)];
      }
    }

    /** Lines 11-13: the slot's client, made with `fps` when the slot is empty. */
    method ClientFor(idx: DM.Slot, fps: real) returns (c: Client)
      requires Valid()
      modifies this
      ensures Valid() && clients[idx] == Some(c)
      ensures old(clients[idx]).Some? ==> clients == old(clients) && c == old(clients[idx]).value
      ensures old(clients[idx]).None? ==>
        && clients == old(clients)[idx := Some(c)] && fresh(c)
        && c.State() == Initial && c.fps == fps
      ensures camRunning == old(camRunning) && camSaving == old(camSaving) && camSaveDirs == old(camSaveDirs)
    {
      if clients[idx].None? {
        var created := new Client(idx, DM.LocalPorts[idx], fps);
        clients := clients[idx := Some(created)];
      }
      c := clients[idx].value;
    }

    /** `handle_device_removed` for slot `idx`: only a slot holding a client changes; its client is stopped and dropped. */
    method HandleDeviceRemoved(idx: DM.Slot)
      requires Valid()
      modifies this, if clients[idx].Some? then {clients[idx].value} else {}
      ensures Valid()
      ensures old(clients[idx]).Some? ==>
        && clients == old(clients)[idx := None]
        && camRunning == old(camRunning)[idx := false]
        && old(clients[idx]).value.State() == Stopped(old(StateOf(idx)).value)
        && old(clients[idx]).value.fps == old(RateOf(idx)).value
      ensures old(clients[idx]).None? ==> clients == old(clients) && camRunning == old(camRunning)
      ensures clients[1 - idx].Some? ==> unchanged(clients[1 - idx].value)
      ensures camSaving == old(camSaving) && camSaveDirs == old(camSaveDirs)
    {
      if clients[idx].Some? {
        clients[idx].value.StopCapture();
        clients := clients[idx := None];
        camRunning := camRunning[idx := false];
      }
    }

    /** The `for idx in range(2)` loop of both recording handlers: every slot holding a client gets `saving` on both sides. */
    method SetSavingAll(on: bool)
      requires Valid()
      modifies this, Objects()
      ensures Valid() && clients == old(clients)
      ensures camRunning == old(camRunning) && camSaveDirs == old(camSaveDirs)
      ensures forall i :: 0 <= i < 2 ==> camSaving[i] == if clients[i].Some? then on else old(camSaving[i])
      ensures forall i :: 0 <= i < 2 ==> StateOf(i) == if clients[i].Some? then Some(old(StateOf(i)).value.(saving := on)) else None
      ensures forall i :: 0 <= i < 2 ==> RateOf(i) == old(RateOf(i))
    {
      for idx := 0 to 2
        invariant Valid() && clients == old(clients)
        invariant camRunning == old(camRunning) && camSaveDirs == old(camSaveDirs)
        invariant forall i :: 0 <= i < idx ==> camSaving[i] == if clients[i].Some? then on else old(camSaving[i])
        invariant forall i :: idx <= i < 2 ==> camSaving[i] == old(camSaving[i])
        invariant forall i :: 0 <= i < idx ==> StateOf(i) == if clients[i].Some? then Some(old(StateOf(i)).value.(saving := on)) else None
        invariant forall i :: idx <= i < 2 ==> StateOf(i) == old(StateOf(i))
        invariant forall i :: 0 <= i < 2 ==> RateOf(i) == old(RateOf(i))
      {
        SetSavingAt(idx, on);
      }
    }

    /** The body of that loop for slot `idx`. */
    method SetSavingAt(idx: DM.Slot, on: bool)
      requires Valid()
      modifies this, Objects()
      ensures Valid() && clients == old(clients)
      ensures camRunning == old(camRunning) && camSaveDirs == old(camSaveDirs)
      ensures camSaving == if clients[idx].Some? then old(camSaving)[idx := on] else old(camSaving)
      ensures StateOf(idx) == if clients[idx].Some? then Some(old(StateOf(idx)).value.(saving := on)) else None
      ensures StateOf(1 - idx) == old(StateOf(1 - idx))
      ensures RateOf(0) == old(RateOf(0)) && RateOf(1) == old(RateOf(1))
    {
      if clients[idx].Some? {
        clients[idx].value.SetSaving(on);
        camSaving := camSaving[idx := on];
      }
    }

    /**
     * `handle_start_rec`: saving starts for every slot holding a client;
     * then each device bound in `devmgr.assigned` gets the start-app command
     * and its tap, from the stripped text fields.
     */
    method HandleStartRec(devmgr: DM.DeviceManagerThread, pkgactText: string, tap1Text: string, tap2Text: string)
      returns (cmds: seq<DeviceCommand>)
      requires Valid()
      modifies this, Objects()
      ensures Valid() && clients == old(clients)
      ensures camRunning == old(camRunning) && camSaveDirs == old(camSaveDirs)
      ensures forall i :: 0 <= i < 2 ==> camSaving[i] == if clients[i].Some? then true else old(camSaving[i])
      ensures forall i :: 0 <= i < 2 ==> StateOf(i) == if clients[i].Some? then Some(old(StateOf(i)).value.(saving := true)) else None
      ensures forall i :: 0 <= i < 2 ==> RateOf(i) == old(RateOf(i))
      ensures cmds == CommandsOf(devmgr.bindings, Strip(pkgactText), Strip(tap1Text), Strip(tap2Text))
    {
      SetSavingAll(true);
      var pkgact := Strip(pkgactText);
      var tap1 := Strip(tap1Text);
      var tap2 := Strip(tap2Text);
      cmds := SendCommands(devmgr.bindings, pkgact, tap1, tap2);
    }

    /** `handle_stop_rec`: saving stops for every slot holding a client; other slots keep their flag. */
    method HandleStopRec()
      requires Valid()
      modifies this, Objects()
      ensures Valid() && clients == old(clients)
      ensures camRunning == old(camRunning) && camSaveDirs == old(camSaveDirs)
      ensures forall i :: 0 <= i < 2 ==> camSaving[i] == if clients[i].Some? then false else old(camSaving[i])
      ensures forall i :: 0 <= i < 2 ==> StateOf(i) == if clients[i].Some? then Some(old(StateOf(i)).value.(saving := false)) else None
      ensures forall i :: 0 <= i < 2 ==> RateOf(i) == old(RateOf(i))
    {
      SetSavingAll(false);
    }
  }
}
