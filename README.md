# Play with DroidCam — a Dafny model

This project models the desktop side of Play_with_DroidCam. The tool records the camera streams of up to two
Android phones that run the DroidCam app. The model covers these parts:

- **adb utilities** (`utils.dfy`, module `Utils`):
  - how `run_adb` builds and normalises a command line;
  - how `list_adb_devices` parses the `adb devices` listing;
  - how `get_battery_via_adb` reads `dumpsys battery`.
- **Session naming** (`session_creator.dfy`, module `SessionCreator`):
  - the MAC address string, from the link-layer address or, failing that, the 48-bit node number spelled as twelve
    hex digits;
  - the path `recordings/<timestamp>_<mac>`.
- **The device manager** (`device_manager.dfy`, module `DeviceManager`). One reconciliation pass:
  - unbinds the phones that vanished;
  - computes the free camera slots;
  - binds new phones to those slots through an adb port forward;
  - polls batteries;
  - posts its events in order.

  Class `DeviceManagerThread` holds the bound slots, the running flag and the time of the last battery poll.
- **The camera client** (`camera_client.dfy`, module `CameraClient`). Class `Client` models
  `start_capture`, `stop_capture`, `set_save_folder`, `set_saving` and the capture loop `run`. The loop gives up after
  `int(fps * 2)` consecutive failed reads and posts the "No frames (read failed)" error.
- **The GUI event handlers** (`event_handlers.dfy`, module `EventHandlers`). Class `Slots` holds the two client slots
  and the `cam_running`, `cam_saving` and `cam_save_dirs` lists. It models the handlers for a device added, a
  device removed, start recording and stop recording. Starting a recording also sends "start app" and "tap x,y"
  commands to every bound phone.
- **The monolithic script** (`capture.dfy`, module `Capture`):
  - the older device manager, which posts its events while still reconciling;
  - the handlers that exist only in `main`: apply FPS, start all, stop all, the event dispatch, and shutdown.

`pytext.dfy` (module `PyText`) models the Python string built-ins the core relies on, as plain functions:
`str.strip`, `str.split()`, `str.split(sep)`, `str.splitlines`, `str.replace(":", "")`, `int()` on text, `str(int)`
and `os.path.join`. `wrappers.dfy` holds `Option` and `Result`.

The outside world enters the model as parameters:
- the adb process is a function from a command line to its outcome (`Utils.Adb`);
- whether a port forward succeeds is `DeviceManager.Forward`;
- whether OpenCV opened the stream is a `bool`;
- each read of a frame is a `CameraClient.Read`;
- the clock is an integer number of milliseconds;
- the psutil interface table and `uuid.getnode()` are function arguments.

Where the code does something a reader might not expect, the model follows the code:
- The read-failure threshold is `int(fps * 2)`, which truncates: 48 failed reads at the default 24 fps, and two at
  the 1.0 fps floor. It is not a timeout in seconds.
- When `adb devices` fails, `list_adb_devices` returns `[]`. The next reconciliation therefore unbinds every
  phone (`DeviceManager.EnumerationFailureUnbindsAll`).
- Each phone takes the next free slot before its forward is tried. A failed forward still uses up that slot for
  the pass (`DeviceManager.FailedForwardUsesSlot`).
- Starting a camera that cannot open still sets `cam_running[idx] = True` and still sets its save folder. The
  handler catches only exceptions, and a stream that fails to open raises none.

## Model

| member | source | states |
|---|---|---|
| PyText.Strip | utils.py:86 | the result has no leading or trailing whitespace; it is empty exactly when the input is all whitespace; text already stripped is returned unchanged |
| PyText.StripExtent | utils.py:86 | the result is the infix of the input that starts after the leading whitespace, and everything before and after that infix is whitespace |
| PyText.StripPaddedBoth | utils.py:86 | padding a stripped text with whitespace on both sides and stripping gives that text back |
| PyText.SplitWsJoin | utils.py:89 | splitting on whitespace recovers any list of non-empty, space-free words joined by a whitespace character |
| PyText.SplitOnJoin | event_handlers.py:57 | joining the pieces of `split(sep)` with `sep` gives back the original string |
| PyText.SplitLinesJoin | utils.py:83 | `splitlines` recovers any non-empty list of break-free lines joined by newlines, provided the last line is non-empty |
| PyText.ParseInt | utils.py:115 | `int(text)` succeeds exactly when the stripped text is an optional sign followed by groups of ASCII digits joined by single underscores (see Left out for the non-ASCII digits and the length limit) |
| PyText.ParseIntDecimal | event_handlers.py:58 | `int(str(n)) == n` for every integer n |
| PyText.DecimalIsPlain | utils.py:156 | `str(n)` is non-empty and contains no whitespace, line break, comma or colon |
| PyText.RemoveAll | session_creator.py:22 | `replace(c, "")` leaves no `c`, never lengthens the text, and keeps text without `c` unchanged |
| PyText.PathJoin | session_creator.py:35 | POSIX `os.path.join(a, b)`: it is `b` when `b` starts with `/`; otherwise it starts with `a` and ends with `b`, and a single `/` is put between them exactly when `a` is non-empty and does not already end with `/` |
| Utils.AdbCommand | utils.py:33-39 | a string gives `adb` followed by its whitespace-separated words, all non-empty and space-free; a list gives `adb` followed by the list; any other argument type raises TypeError naming the type |
| Utils.TextArgsMatchListArgs | utils.py:34-35 | passing the words joined by spaces gives the same command as passing the list |
| Utils.RunAdb | utils.py:32-50 | raises exactly the TypeError of `AdbCommand`; a process that completes with `(o, e, c)` gives `(o.strip(), e.strip(), c)`; a failed process yields `("", str(e), -1)` |
| Utils.ParseDeviceLine | utils.py:86-93 | a parsed entry has a non-empty, space-free serial |
| Utils.DevicesOf | utils.py:80-82 | a non-zero exit code yields no devices |
| Utils.ListAdbDevices | utils.py:79-94 | the loop over the listing returns exactly the parse of `adb devices` |
| Utils.DeviceLineParses | utils.py:89-93 | a line `serial state` parses back to that entry |
| Utils.ExtraTokensIgnored | utils.py:90-91 | words after the state are ignored |
| Utils.UnknownStateIgnored | utils.py:92 | a state other than device, unauthorized or offline drops the line |
| Utils.LoneTokenIgnored | utils.py:90 | a line with a single word is dropped |
| Utils.DevicesRoundTrip | utils.py:79-94 | any list of entries printed under a header line parses back to the same list; the header is skipped |
| Utils.StatusText | utils.py:92 | the three accepted states each have a spelling that parses back to them |
| Utils.StatusNameInjective | utils.py:121-128 | two status codes with the same name are equal, so `status_N` never shadows a named code |
| Utils.ApplyBatteryLine | utils.py:111-130 | one line updates level or status exactly when it is a readable level or status line, and leaves the rest alone |
| Utils.BatteryOf | utils.py:108-109 | there is no report exactly when the exit code is non-zero or the output is empty |
| Utils.GetBatteryViaAdb | utils.py:105-131 | the loop over the output lines computes `BatteryOf` of the `dumpsys battery` output |
| Utils.LatestIsLastReading | utils.py:111-130 | a field is absent exactly when no line reads it; otherwise it holds the reading of the last line that does |
| Utils.BatteryReportRoundTrip | utils.py:105-131 | a report that ends with `status: c` and `level: l` lines gives level `l` and the status name of `c`, whatever lines come before |
| SessionCreator.Hex2 | session_creator.py:27 | `f"{b:02x}"` is two lower-case hex digits whose value is `b` |
| SessionCreator.MacFromNodeDecodes | session_creator.py:26-27 | the fallback MAC has twelve lower-case hex digits whose value is the node number modulo 2^48 |
| SessionCreator.MacFromNodeRoundTrip | session_creator.py:26-27 | for a 48-bit node the hex string decodes back to the node |
| SessionCreator.MacFromNodeBytes | session_creator.py:27 | digit pair k spells byte `(node >> (40 - 8k)) & 0xff`, most significant first |
| SessionCreator.WarningIsOddSecondDigit | session_creator.py:28-30 | the random-node warning is printed exactly when the second hex digit is odd, i.e. the multicast bit is set |
| SessionCreator.FirstUsableIsFirst | session_creator.py:14-22 | the scan returns the first link address that is neither empty nor all zeros, and none when there is no such address |
| SessionCreator.LinkMac | session_creator.py:10-24 | the psutil result never contains a colon |
| SessionCreator.MacAddressHex | session_creator.py:8-31 | the psutil result wins when there is one, with no warning; otherwise the uuid fallback, with a warning exactly for a random node |
| SessionCreator.RemoveColonsJoined | session_creator.py:22 | removing the colons from colon-joined groups concatenates the groups |
| SessionCreator.PsutilAddressReturned | session_creator.py:20-22 | a usable address `aa:bb:...` comes back as `aabb...` |
| SessionCreator.SessionRootLayout | session_creator.py:32-35 | for any timestamp not starting with `/`, the empty one included, the session root is `recordings/<timestamp>_<mac>` and ends with the MAC |
| DeviceManager.AtMostTwo | device_manager.py:22 | a well-formed assignment holds at most two slots |
| DeviceManager.PresentExactly | device_manager.py:33-34 | a serial is used exactly when adb lists it in the `device` state |
| DeviceManager.KeptRemovedMembers | device_manager.py:42-49 | a binding is kept exactly when its serial is still listed, and removed exactly when it is not |
| DeviceManager.KeptValid | device_manager.py:42-49 | removing bindings keeps slots and serials distinct |
| DeviceManager.RemoveVanished | device_manager.py:42-49 | the loop keeps and removes exactly the bindings described by `Kept` and `Removed` |
| DeviceManager.FreeOf | device_manager.py:52-55 | the free slots are exactly the slots not bound, in increasing order |
| DeviceManager.FreeCamIndices | device_manager.py:52-55 | the removal loop over `[0, 1]` computes `FreeOf` of the bound slots |
| DeviceManager.Attempt | device_manager.py:63-69 | trying one phone always consumes the first free slot |
| DeviceManager.BindKeepsInv | device_manager.py:58-69 | binding keeps slots distinct, keeps serials distinct and uses only free slots; every new binding is a listed serial |
| DeviceManager.BindComplete | device_manager.py:58-69 | when forwards succeed, every listed phone ends up bound unless the slots ran out |
| DeviceManager.BindGrows | device_manager.py:58-69 | binding never unbinds a phone |
| DeviceManager.BindPairing | device_manager.py:58-69 | the pass only appends to the added list; each appended binding had a successful forward on its slot's local port; the slots are drawn in order from the idle list and the serials in order from the listing; when every forward succeeds, the k-th new binding takes the k-th idle slot |
| DeviceManager.BindSlotsAscend | device_manager.py:52-69 | since the idle list is ascending, the new bindings take their slots in ascending order |
| DeviceManager.BindNothing | device_manager.py:59-62 | when every phone is bound or no slot is free, nothing changes |
| DeviceManager.BindNew | device_manager.py:58-69 | the loop that binds phones computes `Bind` |
| DeviceManager.ReconcileInvariant | device_manager.py:33-69 | a pass keeps the assignment well formed and binds at most two phones, all of them listed as `device`; the result is the kept bindings followed by the added ones |
| DeviceManager.ReconcileRemoval | device_manager.py:42-49 | a bound phone is reported removed exactly when it is no longer listed, and otherwise stays bound |
| DeviceManager.EnumerationFailureUnbindsAll | device_manager.py:33 | when `adb devices` fails, the pass removes every binding and adds none |
| DeviceManager.RetickRemovesNothing | device_manager.py:30-69 | a second pass over the same listing removes nothing |
| DeviceManager.TickIdempotent | device_manager.py:30-69 | when forwards succeed, a second pass over the same listing changes nothing and adds nothing |
| DeviceManager.BindTwoOfThree | device_manager.py:58-69 | with three phones, the first two take slots 0 and 1 |
| DeviceManager.ThirdDeviceWaits | device_manager.py:61-62 | with three phones the third stays unbound |
| DeviceManager.FailedForwardUsesSlot | device_manager.py:63-69 | a phone whose forward fails still uses up slot 0, and the next phone gets slot 1 |
| DeviceManager.FreedSlotRebound | device_manager.py:42-69 | when a phone leaves and another arrives, the same pass rebinds the freed slot |
| DeviceManager.CallGetBattery | device_manager.py:78 | the call with an extra argument always raises; the call with one argument does not |
| DeviceManager.UpdateOf | device_manager.py:76-82 | a raised call posts no update; a successful one posts exactly one |
| DeviceManager.PollAsWrittenIsEmpty | device_manager.py:75-82 | as written, the poll never produces a battery update |
| DeviceManager.PollReportsEverySlot | device_manager.py:75-82 | the corrected poll posts one update per binding, in order, with that phone's battery report |
| DeviceManager.PollAsWrittenLosesUpdates | device_manager.py:78 | with a phone bound, the code as written and the corrected poll differ |
| DeviceManager.PollBatteries | device_manager.py:75-80 | the loop computes the corrected poll |
| DeviceManager.PostRemoved | device_manager.py:86-87 | one `DEVICE_REMOVED` per removed binding, in order |
| DeviceManager.PostAdded | device_manager.py:88-89 | one `DEVICE_ADDED` per added binding, in order |
| DeviceManager.PostAll | device_manager.py:86-91 | removals, then additions, then battery updates |
| DeviceManager.EventsInOrder | device_manager.py:86-91 | no event of an earlier kind follows one of a later kind |
| DeviceManager.DeviceManagerThread.constructor | device_manager.py:19-25 | nothing bound, running, and no poll yet |
| DeviceManager.DeviceManagerThread.Stop | device_manager.py:27-28 | clears the running flag and nothing else |
| DeviceManager.DeviceManagerThread.ReconcileNow | device_manager.py:33-69 | the new assignment is the reconciliation of the old one against the adb listing, and it stays well formed |
| DeviceManager.DeviceManagerThread.PollIfDue | device_manager.py:72-83 | polls and records the time only when at least 5000 ms have passed, otherwise posts nothing; the poll is the corrected one (see Findings and Left out) |
| DeviceManager.DeviceManagerThread.Tick | device_manager.py:31-91 | one pass of the loop: reconcile, poll when due with the corrected poll, and post removed, added and battery events in that order |
| CameraClient.Trunc | camera_client.py:80 | `int(x)` truncates toward zero |
| CameraClient.DefaultThreshold | camera_client.py:8 | at the default 24 fps the client gives up after 48 failed reads |
| CameraClient.Started | camera_client.py:26-42 | starting does nothing while running; otherwise it opens the stream URI and keeps the saving settings; it ends up running exactly when the stream opened; a closed stream sets "Cannot open VideoCapture" and starts no thread; an open one clears the error and stamps the time; starting the thread a second time raises |
| CameraClient.Stopped | camera_client.py:44-52 | stopping clears running and the capture and keeps everything else |
| CameraClient.StopIdempotent | camera_client.py:44-52 | stopping twice is the same as stopping once |
| CameraClient.MissesBelowThreshold | camera_client.py:78-94 | failed reads below the threshold only add to the failure count and post nothing |
| CameraClient.MissesReachThreshold | camera_client.py:79-92 | the read that reaches the threshold posts one `No frames` error and ends the loop |
| CameraClient.FaultsAtFortyEight | camera_client.py:78-92 | at 24 fps, 47 failed reads keep the loop going, and the 48th ends it with the error |
| CameraClient.FaultNeedsConsecutiveMisses | camera_client.py:78-96 | the loop ends in a fault only after `threshold` consecutive failed reads, counting those carried in |
| CameraClient.ErrorsDoNotCount | camera_client.py:96-116 | encode and save errors do not affect when the loop faults; only failed reads do |
| CameraClient.NoSaveNoSaveError | camera_client.py:107-116 | without a save folder or with saving off, no save error is ever posted |
| CameraClient.OneNoFramesError | camera_client.py:78-92 | the loop faults exactly when its last event is the `No frames` error, and no earlier event is that error |
| CameraClient.CycleEventsAreNotNoFrames | camera_client.py:96-116 | a successful read never posts the `No frames` error |
| CameraClient.Client.constructor | camera_client.py:12-24 | keeps the id, port and fps; not running, no capture, not saving, no folder, no error |
| CameraClient.Client.StartCapture | camera_client.py:26-42 | the new state and the raised error are those of `Started` on the stream URI of the local port |
| CameraClient.Client.StopCapture | camera_client.py:44-52 | the new state is `Stopped` of the old one |
| CameraClient.Client.SetSaveFolder | camera_client.py:54-56 | sets only the save folder |
| CameraClient.Client.SetSaving | camera_client.py:58-59 | sets only the saving flag |
| CameraClient.Client.Run | camera_client.py:61-123 | a client that is not running posts nothing; otherwise the loop posts the events of the read sequence at threshold `int(fps * 2)` and, on a fault, stops with the `No frames` error |
| EventHandlers.CamFoldersDistinct | event_handlers.py:19 | the two cameras never share a folder |
| EventHandlers.CamFolderLayout | event_handlers.py:19 | the folder of camera idx is `recordings/<timestamp>_<mac>/cam<idx+1>` |
| EventHandlers.ParseTap | event_handlers.py:57-58 | a coordinate text is accepted only when it has exactly one comma |
| EventHandlers.TapOfParts | event_handlers.py:57-58 | `a,b` is accepted exactly when both sides parse as integers |
| EventHandlers.TapRoundTrip | event_handlers.py:57-58 | the text `x,y` parses back to `(x, y)` |
| EventHandlers.TapNeedsOneComma | event_handlers.py:57 | any other number of commas makes the unpacking fail, so no tap is sent |
| EventHandlers.CommandsForMeaning | event_handlers.py:50-61 | a phone gets commands only for its own serial; it gets a start-app command exactly when the component is non-empty, and that command comes first; it gets a tap exactly when its slot's coordinates parse |
| EventHandlers.TapCommandMeaning | event_handlers.py:55-61 | the only command is a tap at the parsed coordinates, and there is none when they do not parse |
| EventHandlers.CommandsOfMembers | event_handlers.py:49-61 | a command is sent exactly when it belongs to the commands of some bound phone |
| EventHandlers.TapReachesDevice | event_handlers.py:54-58 | a bound phone whose slot's text is `x,y` is tapped at `(x, y)` |
| EventHandlers.NothingToSend | event_handlers.py:50-55 | with no component and unparseable coordinates nothing is sent |
| EventHandlers.SendCommands | event_handlers.py:48-61 | the loop over the bindings sends exactly `CommandsOf` |
| EventHandlers.Slots.constructor | capture.py:286-289 | no clients, nothing running or saving, no folders |
| EventHandlers.Slots.HandleDeviceAdded | event_handlers.py:6-24 | creates the client when the slot is empty and starts it; unless starting raises, also marks it running and sets its folder; a raise leaves the lists alone; the other slot is untouched |
| EventHandlers.Slots.HandleDeviceRemoved | event_handlers.py:27-33 | an occupied slot's client is stopped and dropped, and the slot is marked not running; an empty slot changes nothing |
| EventHandlers.Slots.SetSavingAll | event_handlers.py:38-41 | every present client, and only those, gets the saving flag, and its `cam_saving` entry follows |
| EventHandlers.Slots.HandleStartRec | event_handlers.py:37-61 | saving is turned on for the present clients; the commands sent are those of the bound phones with the stripped form texts |
| EventHandlers.Slots.HandleStopRec | event_handlers.py:64-69 | saving is turned off for the present clients and nothing else changes |
| Capture.RemoveAndPost | capture.py:224-234 | the older manager keeps exactly the listed bindings and posts one removal per vanished binding, in order |
| Capture.BindAndPost | capture.py:236-251 | the older manager binds as the newer one does and posts each addition as it binds |
| Capture.LegacyEventsInOrder | capture.py:224-251 | the older manager posts the removals, then the additions, and never a battery update |
| Capture.LegacyDeviceManager.constructor | capture.py:207-212 | nothing bound and running |
| Capture.LegacyDeviceManager.Stop | capture.py:214-215 | clears the running flag only |
| Capture.LegacyDeviceManager.Tick | capture.py:218-251 | one pass reconciles as the newer manager does and posts its removals and additions |
| Capture.Clamp | capture.py:342 | `max(1.0, v)` is at least 1.0 and at least v, and is one of them |
| Capture.ClampedThreshold | capture.py:342 | after clamping, a client needs at least two failed reads to give up |
| Capture.ApplyFps | capture.py:339-349 | a parseable value sets every present client's fps to the clamped value; a bad value changes nothing; no other client state changes |
| Capture.StopAll | capture.py:357-363 | every client is stopped and dropped; `cam_running` is left as it was |
| Capture.StartAll | capture.py:351-355 | every slot the older manager has bound ends with a client; unbound slots are untouched |
| Capture.AddDevice | event_handlers.py:6-24 | the added-device handler as the monolithic loop calls it: its effect is `AddedTo`, defined from `Started` and the folder layout |
| Capture.RemoveDevice | event_handlers.py:27-33 | the removed-device handler as the monolithic loop calls it: its effect is `RemovedFrom`, and the dropped client's state is `Stopped` of its old one |
| Capture.HandleDeviceEvent | capture.py:414-420 | an added event has the effect `AddedTo` of the added-device handler: its slot holds a client started on that slot's stream; unless starting raises, the slot is running with its folder set; the other slot is untouched. A removed event has the effect `RemovedFrom`: an occupied slot loses its client, which is left stopped, and is marked not running, keeping its folder entry; an empty slot and the other slot are untouched. A battery update changes neither slot, and `cam_saving` never changes |
| Capture.Shutdown | capture.py:422-427 | stops the older manager, then stops every present client |

## Left out

- Threads, locks and `time.sleep` are left out. Each thread's loop is modelled as one pass, `Tick` or `Run`. Concurrent interleavings are not modelled, including a `stop_capture` or `set_saving` that arrives during `run`.
- CameraClient.Client.Run: `fps` stays fixed for the whole loop, and the pacing `desired_interval` is not modelled.
- The outer `while self.running` loops and `RECONNECT_INTERVAL` are left out; the model covers a single pass.
- OpenCV is left out. `VideoCapture`, `isOpened`, `read`, `imencode` and `imwrite` enter the model as outcomes, so no pixels or PNG bytes are modelled.
- The PySimpleGUI window, `log`, popups and `print` are left out. Posted events are returned as a sequence.
- The `serial` argument of the two device handlers only feeds the window and the log, so it is not modelled.
- `subprocess.run` is left out. It is the oracle `Utils.Adb`, so timeouts appear only as a failed process.
- The results of `adb_kill_forward_for_device`, `adb_start_app` and `adb_input_tap` are ignored by the code, so the model leaves them out. `adb_forward_for_device` is the oracle `Forward`.
- Capture.ApplyFps: `float()` parsing is an `Option<real>` input, so NaN and infinity cannot be represented.
- `os.makedirs` is assumed to succeed. If it raised `OSError` inside `set_save_folder` (camera_client.py:54-56), called at event_handlers.py:20, the handler would skip line 21: `cam_running[idx]` would already be `True` and the client's `save_folder` already set, but `cam_save_dirs[idx]` would keep its old value. The model does not capture that state.
- `datetime.now()` and `time.time()` enter the model as arguments. The clock counts whole milliseconds.
- psutil's address families enter the model as a flag per address.
- `adb_toggle_led` is never called by the core and is left out. Its two copies in `utils.py` are also inconsistent.
- `now_timestamp_str` is left out because the timestamp is an argument.
- `ui.py` and `make_main_window` are left out because they only lay out the window.
- DeviceManager.TickIdempotent: it assumes every forward succeeds. With a flaky forward, a second pass can bind a phone that the first pass skipped.
- Capture.StartAll: it only states which slots end with a client. What each started client looks like is stated once, in `EventHandlers.Slots.HandleDeviceAdded`.
- The copies in `capture.py` of `mac_address_hex`, `list_adb_devices`, the adb wrappers, `CameraClient` and the four handlers behave as those in `utils.py`, `camera_client.py` and `event_handlers.py`. The model states them once.
- The copy of `run_adb` in `capture.py` (lines 51-57) has neither the string split nor the TypeError branch. Every caller in `capture.py` passes a list, and for a list the two copies agree, so `Utils.RunAdb` with list arguments stands for both.
- PyText.ParseInt: only the ASCII digits `0`-`9` are accepted. Python's `int()` also accepts the other Unicode decimal digits (such as Arabic-Indic digits), and it raises `ValueError` for more than 4300 digits (the default `sys.get_int_max_str_digits()`). Neither is modelled. The core only parses coordinates typed into the form and numbers printed by `dumpsys`.
- DeviceManager.DeviceManagerThread.PollIfDue, DeviceManager.DeviceManagerThread.Tick: they post the corrected poll, one `BATTERY_UPDATE` per binding. As written, the code posts none: the call at device_manager.py:78 always raises TypeError, and lines 81-82 swallow it. `DeviceManager.PollAsWrittenIsEmpty` states that behaviour (see Findings).

## Findings

| source | as written | input that shows it | evidently intended | confidence | as-written member | corrected member |
|---|---|---|---|---|---|---|
| device_manager.py:78 | `get_battery_via_adb(serial, self.window)` passes two arguments to a function that takes one (utils.py:105). Every call raises TypeError, and the surrounding `except Exception: pass` swallows it, so no battery update is ever posted. | any pass with at least one phone bound and at least 5 s since the last poll | `get_battery_via_adb(serial)`, posting one `BATTERY_UPDATE` per bound phone | not executed | DeviceManager.PollAsWrittenIsEmpty | DeviceManager.PollReportsEverySlot, used by DeviceManager.DeviceManagerThread.PollIfDue and DeviceManager.DeviceManagerThread.Tick |
