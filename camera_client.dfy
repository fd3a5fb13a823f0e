/**
 * camera_client.py: the `CameraClient` thread object. `start_capture` and
 * `stop_capture` change its fields; `run` reads frames until the stream
 * fails `int(fps*2)` times in a row. What OpenCV does is an input: whether
 * the stream opened, and for each read whether a frame came back, whether it
 * encoded, and the error saving it raised, if any.
 */
module CameraClient {
  import opened Wrappers
  import opened PyText

  const DefaultFps: real := 24.0

  const OpenErrorMsg: string := "Cannot open VideoCapture"
  const NoFramesMsg: string := "No frames (read failed)"
  const ThreadStartedTwiceMsg: string := "RuntimeError: threads can only be started once"

  /** The events the thread posts to the window (the PNG bytes of a frame are left out). */
  datatype CamEvent = Frame(cam: nat) | CamError(cam: nat, message: string)

  /**
   * What one `cap.read()` gave: no frame (an exception, `ret` false or a
   * `None` frame), or a frame, whether `imencode` succeeded on it, and the
   * error `imwrite` raised, if it raised one.
   */
  datatype Read = Missed | Got(encoded: bool, saveError: Option<string>)

  /** `int(x)` on a float: truncation toward zero. */
  function Trunc(x: real): (n: int)
    ensures x >= 0.0 ==> n as real <= x < n as real + 1.0
    ensures x < 0.0 ==> n as real - 1.0 < x <= n as real
  {
    if x >= 0.0 then x.Floor else -((-x).Floor)
  }

  /** `int(self.fps * 2)`. */
  function Threshold(fps: real): int {
    Trunc(fps * 2.0)
  }

  /** At the default 24 fps the client gives up after 48 failed reads in a row. */
  lemma DefaultThreshold()
    ensures Threshold(DefaultFps) == 48
  {
    assert DefaultFps * 2.0 == 48.0;
    assert (48.0).Floor == 48;
  }

  /** The thread's fields, as one value. */
  datatype ClientState = ClientState(
    running: bool,
    capture: Option<string>,
    saving: bool,
    saveFolder: Option<string>,
    errorMsg: Option<string>,
    threadStarted: bool,
    lastFrameTs: int)

  /** The fields of a new client: idle, nothing opened, not saving, thread not started. */
  const Initial: ClientState := ClientState(false, None, false, None, None, false, 0)

  function StreamUri(port: nat): string {
    "http://127.0.0.1:" + IntToDecimal(port) + "/video"
  }

  /** The fields `start_capture()` leaves, and the exception it raises, if any. */
  datatype StartOutcome = StartOutcome(state: ClientState, raised: Option<string>)

  /**
   * `start_capture()` on the stream at `uri`, where `isOpen` is what
   * `isOpened()` answers and `now` the clock: nothing happens while running;
   * a stream that does not open leaves the error message and `running`
   * false; an open one starts the thread, which raises on a second start.
   */
  function Started(s: ClientState, uri: string, isOpen: bool, now: int): (o: StartOutcome)
    ensures s.running ==> o == StartOutcome(s, None)
    ensures !s.running ==>
      && o.state.capture == Some(uri)
      && o.state.saving == s.saving && o.state.saveFolder == s.saveFolder
      && (o.state.running <==> isOpen)
    ensures !s.running && !isOpen ==>
      && o.state.errorMsg == Some(OpenErrorMsg) && o.raised.None?
      && o.state.threadStarted == s.threadStarted && o.state.lastFrameTs == s.lastFrameTs
    ensures !s.running && isOpen ==>
      && o.state.errorMsg.None? && o.state.lastFrameTs == now && o.state.threadStarted
      && (o.raised.Some? <==> s.threadStarted)
  {
    if s.running then StartOutcome(s, None)
    else
      var t := s.(capture := Some(uri), running := true, errorMsg := None);
      if !isOpen then StartOutcome(t.(errorMsg := Some(OpenErrorMsg), running := false), None)
      else if s.threadStarted then StartOutcome(t.(lastFrameTs := now), Some(ThreadStartedTwiceMsg))
      else StartOutcome(t.(lastFrameTs := now, threadStarted := true), None)
  }

  /** `stop_capture()`. */
  function Stopped(s: ClientState): (r: ClientState)
    ensures !r.running && r.capture.None?
    ensures r.saving == s.saving && r.saveFolder == s.saveFolder && r.errorMsg == s.errorMsg
    ensures r.threadStarted == s.threadStarted && r.lastFrameTs == s.lastFrameTs
  {
    s.(running := false, capture := None)
  }

  /** Stopping twice is stopping once. */
  lemma StopIdempotent(s: ClientState)
    ensures Stopped(Stopped(s)) == Stopped(s)
  {
  }

  // ---------------------------------------------------------------- the read loop

  /** The events of one cycle with a frame: FRAME if it encoded, then the save error if saving raised one. */
  function CycleEvents(cam: nat, encoded: bool, saveError: Option<string>, save: bool): seq<CamEvent> {
    (if encoded then [Frame(cam)] else []) +
    (if save && saveError.Some? then [CamError(cam, "Save error: " + saveError.value)] else [])
  }

  /** Where the loop got to: the events so far, whether it faulted, `fail_count`, and the reads it used. */
  datatype RunResult = RunResult(events: seq<CamEvent>, faulted: bool, fails: nat, consumed: nat)

  function Bump(r: RunResult): RunResult {
    r.(consumed := r.consumed + 1)
  }

  /**
   * Lines 65-121 over the reads left, with `fails` failures so far and the
   * events `acc` already posted: a miss counts, and faults once the count
   * reaches `threshold`; a frame resets the count and posts its events.
   * `save` is `self.saving and self.save_folder is not None`.
   */
  function Cycles(results: seq<Read>, fails: nat, acc: seq<CamEvent>, cam: nat, threshold: int, save: bool): RunResult
    decreases |results|
  {
    if results == [] then RunResult(acc, false, fails, 0)
    else
      match results[0]
      case Missed =>
        if fails + 1 >= threshold then RunResult(acc + [CamError(cam, NoFramesMsg)], true, fails + 1, 1)
        else Bump(Cycles(results[1..], fails + 1, acc, cam, threshold, save))
      case Got(encoded, saveError) =>
        Bump(Cycles(results[1..], 0, acc + CycleEvents(cam, encoded, saveError, save), cam, threshold, save))
  }

  function Misses(k: nat): (r: seq<Read>)
    ensures |r| == k && forall i :: 0 <= i < k ==> r[i] == Missed
  {
    if k == 0 then [] else [Missed] + Misses(k - 1)
  }

  /** Fewer misses than the threshold only count; the loop goes on with the rest. */
  lemma {:induction false} MissesBelowThreshold(k: nat, rest: seq<Read>, fails: nat, acc: seq<CamEvent>, cam: nat, threshold: int, save: bool)
    requires fails + k < threshold
    ensures var r := Cycles(rest, fails + k, acc, cam, threshold, save);
      Cycles(Misses(k) + rest, fails, acc, cam, threshold, save) == r.(consumed := r.consumed + k)
    decreases k
  {
    if k > 0 {
      assert (Misses(k) + rest)[1..] == Misses(k - 1) + rest;
      MissesBelowThreshold(k - 1, rest, fails + 1, acc, cam, threshold, save);
    } else {
      assert Misses(k) + rest == rest;
    }
  }

  /** The miss that brings the count to the threshold faults, whatever follows: one CAM_ERROR, then the loop ends. */
  lemma {:induction false} MissesReachThreshold(k: nat, rest: seq<Read>, fails: nat, acc: seq<CamEvent>, cam: nat, threshold: int, save: bool)
    requires k >= 1 && fails + k >= threshold && fails + k - 1 < threshold
    ensures Cycles(Misses(k) + rest, fails, acc, cam, threshold, save) ==
      RunResult(acc + [CamError(cam, NoFramesMsg)], true, fails + k, k)
    decreases k
  {
    assert (Misses(k) + rest)[0] == Missed;
    if k > 1 {
      assert (Misses(k) + rest)[1..] == Misses(k - 1) + rest;
      MissesReachThreshold(k - 1, rest, fails + 1, acc, cam, threshold, save);
    }
  }

  /** At 24 fps, 47 failed reads in a row do not fault and the 48th does. */
  lemma FaultsAtFortyEight(rest: seq<Read>, acc: seq<CamEvent>, cam: nat, save: bool)
    ensures Cycles(Misses(47), 0, acc, cam, Threshold(DefaultFps), save) == RunResult(acc, false, 47, 47)
    ensures Cycles(Misses(48) + rest, 0, acc, cam, Threshold(DefaultFps), save) ==
      RunResult(acc + [CamError(cam, NoFramesMsg)], true, 48, 48)
  {
    DefaultThreshold();
    MissesBelowThreshold(47, [], 0, acc, cam, 48, save);
    assert Misses(47) + [] == Misses(47);
    MissesReachThreshold(48, rest, 0, acc, cam, 48, save);
  }

  /**
   * A fault happens only after enough misses in a row: the count plus the
   * reads used reach the threshold, and the last `threshold` reads used
   * (all of them, if fewer) are misses.
   */
  lemma {:induction false} FaultNeedsConsecutiveMisses(results: seq<Read>, fails: nat, acc: seq<CamEvent>, cam: nat, threshold: int, save: bool)
    ensures var r := Cycles(results, fails, acc, cam, threshold, save);
      r.faulted ==>
        && r.consumed <= |results| && r.consumed + fails >= threshold
        && forall k :: 0 <= k < r.consumed && k >= r.consumed - threshold ==> results[k] == Missed
    decreases |results|
  {
    if results != [] {
      var r := Cycles(results, fails, acc, cam, threshold, save);
      var rest := results[1..];
      match results[0]
      case Missed =>
        if fails + 1 < threshold {
          FaultNeedsConsecutiveMisses(rest, fails + 1, acc, cam, threshold, save);
          if r.faulted {
            forall k | 0 <= k < r.consumed && k >= r.consumed - threshold ensures results[k] == Missed {
              if k > 0 {
                assert results[k] == rest[k - 1];
              }
            }
          }
        }
      case Got(encoded, saveError) =>
        var acc' := acc + CycleEvents(cam, encoded, saveError, save);
        FaultNeedsConsecutiveMisses(rest, 0, acc', cam, threshold, save);
        if r.faulted {
          forall k | 0 <= k < r.consumed && k >= r.consumed - threshold ensures results[k] == Missed {
            assert results[k] == rest[k - 1];
          }
        }
    }
  }

  /** Every frame read as a clean one: encoded, and saved without error. */
  function Clean(results: seq<Read>): (r: seq<Read>)
    ensures |r| == |results|
    ensures forall i :: 0 <= i < |r| ==> (r[i] == Missed <==> results[i] == Missed)
  {
    if results == [] then []
    else [if results[0] == Missed then Missed else Got(true, None)] + Clean(results[1..])
  }

  /** Encode and save errors never change `fail_count`, never fault, never end the loop. */
  lemma {:induction false} ErrorsDoNotCount(results: seq<Read>, fails: nat, acc: seq<CamEvent>, acc2: seq<CamEvent>, cam: nat, threshold: int, save: bool)
    ensures var r := Cycles(results, fails, acc, cam, threshold, save);
      var c := Cycles(Clean(results), fails, acc2, cam, threshold, save);
      r.faulted == c.faulted && r.fails == c.fails && r.consumed == c.consumed
    decreases |results|
  {
    if results != [] {
      var cr := Clean(results);
      assert cr[1..] == Clean(results[1..]);
      match results[0]
      case Missed =>
        ErrorsDoNotCount(results[1..], fails + 1, acc, acc2, cam, threshold, save);
      case Got(encoded, saveError) =>
        ErrorsDoNotCount(results[1..], 0, acc + CycleEvents(cam, encoded, saveError, save),
          acc2 + CycleEvents(cam, true, None, save), cam, threshold, save);
    }
  }

  predicate NoSaveErrors(events: seq<CamEvent>) {
    forall k :: 0 <= k < |events| && events[k].CamError? ==> events[k].message == NoFramesMsg
  }

  /** A save is attempted only when saving with a folder set: otherwise no "Save error" is ever posted. */
  lemma {:induction false} NoSaveNoSaveError(results: seq<Read>, fails: nat, acc: seq<CamEvent>, cam: nat, threshold: int)
    requires NoSaveErrors(acc)
    ensures NoSaveErrors(Cycles(results, fails, acc, cam, threshold, false).events)
    decreases |results|
  {
    if results != [] {
      match results[0]
      case Missed =>
        if fails + 1 >= threshold {
          var e := acc + [CamError(cam, NoFramesMsg)];
          assert forall k :: 0 <= k < |acc| ==> e[k] == acc[k];
        } else {
          NoSaveNoSaveError(results[1..], fails + 1, acc, cam, threshold);
        }
      case Got(encoded, saveError) =>
        var ev := CycleEvents(cam, encoded, saveError, false);
        assert ev == [] || ev == [Frame(cam)];
        var e := acc + ev;
        assert forall k :: 0 <= k < |acc| ==> e[k] == acc[k];
        NoSaveNoSaveError(results[1..], 0, e, cam, threshold);
    }
  }

  /**
   * The loop posts at most one "No frames" error, only when it faults, and
   * as its last event.
   */
  lemma {:induction false} OneNoFramesError(results: seq<Read>, fails: nat, acc: seq<CamEvent>, cam: nat, threshold: int, save: bool)
    ensures var r := Cycles(results, fails, acc, cam, threshold, save);
      && |r.events| >= |acc| && r.events[..|acc|] == acc
      && (r.faulted <==> |r.events| > |acc| && r.events[|r.events| - 1] == CamError(cam, NoFramesMsg))
      && forall k :: |acc| <= k < |r.events| - 1 ==> r.events[k] != CamError(cam, NoFramesMsg)
    decreases |results|
  {
    if results != [] {
      match results[0]
      case Missed =>
        if fails + 1 < threshold {
          OneNoFramesError(results[1..], fails + 1, acc, cam, threshold, save);
        }
      case Got(encoded, saveError) =>
        var ev := CycleEvents(cam, encoded, saveError, save);
        CycleEventsAreNotNoFrames(cam, encoded, saveError, save);
        OneNoFramesError(results[1..], 0, acc + ev, cam, threshold, save);
        AtMostOneAfter(Cycles(results[1..], 0, acc + ev, cam, threshold, save), acc, ev, cam);
    }
  }

  /** The events after `acc` hold at most one no-frames error, and only as the last event of a faulted run. */
  predicate AtMostOneError(r: RunResult, acc: seq<CamEvent>, cam: nat) {
    && |r.events| >= |acc| && r.events[..|acc|] == acc
    && (r.faulted <==> |r.events| > |acc| && r.events[|r.events| - 1] == CamError(cam, NoFramesMsg))
    && forall k :: |acc| <= k < |r.events| - 1 ==> r.events[k] != CamError(cam, NoFramesMsg)
  }

  lemma AtMostOneAfter(r: RunResult, acc: seq<CamEvent>, ev: seq<CamEvent>, cam: nat)
    requires AtMostOneError(r, acc + ev, cam)
    requires forall k :: 0 <= k < |ev| ==> ev[k] != CamError(cam, NoFramesMsg)
    ensures AtMostOneError(r, acc, cam)
  {
    var acc' := acc + ev;
    assert r.events[..|acc|] == acc'[..|acc|] == acc;
    forall k | |acc| <= k < |r.events| - 1 ensures r.events[k] != CamError(cam, NoFramesMsg) {
      if k < |acc'| {
        assert r.events[k] == acc'[k] == ev[k - |acc|];
      }
    }
    if !r.faulted && |r.events| > |acc| && |r.events| == |acc'| {
      assert r.events[|r.events| - 1] == ev[|ev| - 1];
    }
  }

  lemma CycleEventsAreNotNoFrames(cam: nat, encoded: bool, saveError: Option<string>, save: bool)
    ensures forall k :: 0 <= k < |CycleEvents(cam, encoded, saveError, save)| ==>
      CycleEvents(cam, encoded, saveError, save)[k] != CamError(cam, NoFramesMsg)
  {
    if save && saveError.Some? {
      var m := "Save error: " + saveError.value;
      assert m[0] == 'S' && NoFramesMsg[0] == 'N';
    }
  }

  // ---------------------------------------------------------------- the thread object

  class Client {
    const camId: nat
    const localPort: nat
    var fps: real
    var running: bool
    /** `self.capture`: the URI of the opened `VideoCapture`, or `None`. */
    var capture: Option<string>
    var saving: bool
    var saveFolder: Option<string>
    var errorMsg: Option<string>
    /** Whether `Thread.start()` has been called on this object. */
    var threadStarted: bool
    var lastFrameTs: int

    function State(): ClientState
      reads this
    {
      ClientState(running, capture, saving, saveFolder, errorMsg, threadStarted, lastFrameTs)
    }

    /** `CameraClient(cam_id, local_port, window, fps)`. */
    constructor (camId: nat, localPort: nat, fps: real)
      ensures this.camId == camId && this.localPort == localPort && this.fps == fps
      ensures State() == Initial
    {
      this.camId := camId;
      this.localPort := localPort;
      this.fps := fps;
      running := false;
      capture := None;
      saving := false;
      saveFolder := None;
      errorMsg := None;
      threadStarted := false;
      lastFrameTs := 0;
    }

    /**
     * `start_capture()` at time `now`, where `isOpen` is what `isOpened()`
     * answers. Returns the exception it raises: `Thread.start()` on a
     * thread that was started before.
     */
    method StartCapture(isOpen: bool, now: int) returns (raised: Option<string>)
      modifies this
      ensures StartOutcome(State(), raised) == Started(old(State()), StreamUri(localPort), isOpen, now)
      ensures fps == old(fps)
    {
      raised := None;
      if running {
        return;
      }
      var uri := StreamUri(localPort);
      capture := Some(uri);
      running := true;
      errorMsg := None;
      if !isOpen {
        errorMsg := Some(OpenErrorMsg);
        running := false;
      } else {
        lastFrameTs := now;
        if threadStarted {
          raised := Some(ThreadStartedTwiceMsg);
        } else {
          threadStarted := true;
        }
      }
    }

    /** `stop_capture()`: the release error, if any, is swallowed. */
    method StopCapture()
      modifies this
      ensures State() == Stopped(old(State())) && fps == old(fps)
    {
      running := false;
      if capture.Some? {
        capture := None;
      }
    }

    /** `set_save_folder(folder)`, without the directory creation. */
    method SetSaveFolder(folder: string)
      modifies this
      ensures State() == old(State()).(saveFolder := Some(folder)) && fps == old(fps)
    {
      saveFolder := Some(folder);
    }

    /** `set_saving(saving)`. */
    method SetSaving(on: bool)
      modifies this
      ensures State() == old(State()).(saving := on) && fps == old(fps)
    {
      saving := on;
    }

    /**
     * `run()` over the read outcomes `results`: stops at once when not running or
     * without a capture; otherwise runs the cycles until a fault or the end
     * of the outcomes. A fault sets `error_msg` and clears `running`; the
     * capture is released but stays in the field.
     */
    method Run(results: seq<Read>) returns (events: seq<CamEvent>)
      modifies this
      ensures old(!running || capture.None?) ==> events == [] && State() == old(State())
      ensures old(running && capture.Some?) ==>
        var r := Cycles(results, 0, [], camId, Threshold(old(fps)), old(saving && saveFolder.Some?));
        && events == r.events
        && State() == old(State()).(running := !r.faulted, errorMsg := if r.faulted then Some(NoFramesMsg) else old(errorMsg))
      ensures fps == old(fps)
    {
      events := [];
      if !running || capture.None? {
        return;
      }
      var threshold := Threshold(fps);
      var save := saving && saveFolder.Some?;
      var failCount := 0;
      var faulted := false;
      var i := 0;
      while i < |results|
        invariant 0 <= i <= |results|
        invariant !faulted
        invariant Same(Cycles(results[i..], failCount, events, camId, threshold, save), Cycles(results, 0, [], camId, threshold, save))
        decreases |results| - i
      {
        assert results[i..][0] == results[i] && results[i..][1..] == results[i + 1..];
        var read := results[i];
        ghost var before, fails := events, failCount;
        if read.Missed? {
          failCount := failCount + 1;
          if failCount >= threshold {
            events := events + [CamError(camId, NoFramesMsg)];
            faulted := true;
            break;
          }
        } else {
          failCount := 0;
          if read.encoded {
            events := events + [Frame(camId)];
          }
          if save && read.saveError.Some? {
            events := events + [CamError(camId, "Save error: " + read.saveError.value)];
          }
          assert events == before + CycleEvents(camId, read.encoded, read.saveError, save);
        }
        assert Cycles(results[i..], fails, before, camId, threshold, save)
          == Bump(Cycles(results[i + 1..], failCount, events, camId, threshold, save));
        i := i + 1;
      }
      if faulted {
        errorMsg := Some(NoFramesMsg);
        running := false;
      }
    }
  }

  /** Two loop positions that agree on everything but the reads used. */
  predicate Same(r: RunResult, s: RunResult) {
    r.events == s.events && r.faulted == s.faulted && r.fails == s.fails
  }
}
