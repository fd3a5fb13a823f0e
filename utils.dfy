/**
 * utils.py: how `run_adb` normalises its arguments and reports the process
 * result, and the two parsers of adb output, `list_adb_devices` (the
 * `adb devices` listing) and `get_battery_via_adb` (`dumpsys battery`).
 * The adb process itself is an oracle: a function from the launched command
 * to what the process did.
 */
module Utils {
  import opened Wrappers
  import opened PyText

  // ---------------------------------------------------------------- run_adb

  /** The value given to `run_adb` as `args`: a string, a list, or anything else (named by its type). */
  datatype AdbArgs = TextArgs(text: string) | ListArgs(items: seq<string>) | OtherArgs(typeRepr: string)

  /** What `subprocess.run` did with a command: it completed, or it raised (timeout, no adb binary, ...). */
  datatype Process = Completed(stdout: string, stderr: string, returnCode: int) | Failed(error: string)

  /** The `(out, err, code)` triple that `run_adb` returns. */
  datatype AdbOutput = AdbOutput(out: string, err: string, code: int)

  /** The adb process, as an oracle from the command line to its outcome. */
  type Adb = seq<string> -> Process

  /** The command `["adb"] + args` that `run_adb` launches, or the TypeError it raises first. */
  function AdbCommand(args: AdbArgs): (r: Result<seq<string>>)
    ensures r.Ok? <==> !args.OtherArgs?
    ensures r.Ok? ==> |r.value| >= 1 && r.value[0] == "adb"
    ensures args.TextArgs? ==> AreTokens(r.value[1..]) && r == Ok(["adb"] + SplitWs(args.text))
    ensures args.ListArgs? ==> r == Ok(["adb"] + args.items)
    ensures args.OtherArgs? ==> r == Raised("args must be list or str, got " + args.typeRepr)
  {
    match args
    case TextArgs(text) =>
      var cmd := ["adb"] + SplitWs(text);
      assert cmd[1..] == SplitWs(text);
      Ok(cmd)
    case ListArgs(items) => Ok(["adb"] + items)
    case OtherArgs(t) => Raised("args must be list or str, got " + t)
  }

  /** A command written as one string launches the same argv as its word list. */
  lemma TextArgsMatchListArgs(items: seq<string>)
    requires AreTokens(items)
    ensures AdbCommand(TextArgs(JoinWith(items, ' '))) == AdbCommand(ListArgs(items))
  {
    SplitWsJoin(items, ' ');
  }

  /**
   * `run_adb(args)`: stdout and stderr come back stripped with the return
   * code; an exception while launching becomes `("", message, -1)`.
   */
  function RunAdb(args: AdbArgs, adb: Adb): (r: Result<AdbOutput>)
    ensures r.Raised? <==> args.OtherArgs?
    ensures r.Raised? ==> r == Raised(AdbCommand(args).message)
    ensures r.Ok? ==> Strip(r.value.out) == r.value.out
    ensures r.Ok? && adb(AdbCommand(args).value).Completed? ==>
              var p := adb(AdbCommand(args).value);
              r.value == AdbOutput(Strip(p.stdout), Strip(p.stderr), p.returnCode)
    ensures r.Ok? && adb(AdbCommand(args).value).Failed? ==>
              r.value == AdbOutput("", adb(AdbCommand(args).value).error, -1)
  {
    match AdbCommand(args)
    case Raised(m) => Raised(m)
    case Ok(cmd) =>
      match adb(cmd)
      case Completed(o, e, c) =>
        var out := Strip(o);
        assert out == [] || (!IsSpace(out[0]) && !IsSpace(out[|out| - 1]));
        Ok(AdbOutput(out, Strip(e), c))
      case Failed(m) => Ok(AdbOutput("", m, -1))
  }

  /** `run_adb` with a list, which never raises. */
  function RunAdbList(items: seq<string>, adb: Adb): AdbOutput {
    RunAdb(ListArgs(items), adb).value
  }

  // ---------------------------------------------------------------- list_adb_devices

  /** The three states `list_adb_devices` keeps. */
  datatype Status = Device | Unauthorized | Offline

  datatype DeviceEntry = DeviceEntry(serial: string, status: Status)

  function StatusOf(token: string): Option<Status> {
    if token == "device" then Some(Device)
    else if token == "unauthorized" then Some(Unauthorized)
    else if token == "offline" then Some(Offline)
    else None
  }

  function StatusText(st: Status): (t: string)
    ensures StatusOf(t) == Some(st)
    ensures t != [] && NoSpace(t)
  {
    match st
    case Device => "device"
    case Unauthorized => "unauthorized"
    case Offline => "offline"
  }

  /** The entry one line of the listing contributes, if any. */
  function ParseDeviceLine(raw: string): (r: Option<DeviceEntry>)
    ensures r.Some? ==> r.value.serial != [] && NoSpace(r.value.serial)
  {
    var l := Strip(raw);
    if l == [] then None
    else
      var parts := SplitWs(l);
      if |parts| >= 2 && StatusOf(parts[1]).Some? then Some(DeviceEntry(parts[0], StatusOf(parts[1]).value))
      else None
  }

  /** The values the lines parse to, in line order; lines that parse to nothing are skipped. */
  function Collect<T>(lines: seq<string>, parse: string -> Option<T>): (r: seq<T>)
    ensures |r| <= |lines|
  {
    if lines == [] then []
    else
      Collect(lines[..|lines| - 1], parse) +
      match parse(lines[|lines| - 1]) case Some(e) => [e] case None => []
  }

  lemma CollectStep<T>(lines: seq<string>, i: nat, parse: string -> Option<T>)
    requires i < |lines|
    ensures Collect(lines[..i + 1], parse) ==
      Collect(lines[..i], parse) + match parse(lines[i]) case Some(e) => [e] case None => []
  {
    assert lines[..i + 1][..i] == lines[..i];
  }

  /** Every value collected is what some line parses to. */
  lemma {:induction false} CollectFrom<T>(lines: seq<string>, parse: string -> Option<T>)
    ensures forall k :: 0 <= k < |Collect(lines, parse)| ==>
      exists j :: 0 <= j < |lines| && parse(lines[j]) == Some(Collect(lines, parse)[k])
  {
    if lines != [] {
      var n := |lines|;
      var pre := lines[..n - 1];
      CollectFrom(pre, parse);
      var r := Collect(lines, parse);
      forall k | 0 <= k < |r| ensures exists j :: 0 <= j < n && parse(lines[j]) == Some(r[k]) {
        if k < |Collect(pre, parse)| {
          var j :| 0 <= j < |pre| && parse(pre[j]) == Some(Collect(pre, parse)[k]);
          assert lines[j] == pre[j];
        } else {
          assert r == Collect(pre, parse) + [parse(lines[n - 1]).value];
          assert parse(lines[n - 1]) == Some(r[k]);
        }
      }
    } else {
      assert Collect(lines, parse) == [];
    }
  }

  /** What `list_adb_devices` returns for the output of `adb devices`. */
  function DevicesOf(r: AdbOutput): (res: seq<DeviceEntry>)
    ensures r.code != 0 ==> res == []
  {
    if r.code != 0 then []
    else
      var lines := SplitLines(r.out);
      if lines == [] then [] else Collect(lines[1..], ParseDeviceLine)
  }

  /** `list_adb_devices()`: runs `adb devices`, skips the header line and parses the rest. */
  method ListAdbDevices(adb: Adb) returns (res: seq<DeviceEntry>)
    ensures res == DevicesOf(RunAdbList(["devices"], adb))
  {
    var r := RunAdbList(["devices"], adb);
    if r.code != 0 {
      return [];
    }
    var lines := SplitLines(r.out);
    var body := if lines == [] then [] else lines[1..];
    res := [];
    var i := 0;
    while i < |body|
      invariant 0 <= i <= |body|
      invariant res == Collect(body[..i], ParseDeviceLine)
    {
      CollectStep(body, i, ParseDeviceLine);
      var entry := ParseDeviceLine(body[i]);
      if entry.Some? {
        res := res + [entry.value];
      }
      i := i + 1;
    }
    assert body[..i] == body;
  }

  /** One line of the listing as adb writes it: serial, a tab, the state. */
  function DeviceLine(e: DeviceEntry): string {
    e.serial + "\t" + StatusText(e.status)
  }

  function DeviceLines(entries: seq<DeviceEntry>): (r: seq<string>)
    ensures |r| == |entries|
    ensures forall k :: 0 <= k < |r| ==> r[k] == DeviceLine(entries[k])
  {
    if entries == [] then [] else DeviceLines(entries[..|entries| - 1]) + [DeviceLine(entries[|entries| - 1])]
  }

  predicate IsToken(w: string) { w != [] && NoSpace(w) }

  lemma NoSpaceNoBreak(w: string)
    requires NoSpace(w)
    ensures NoBreak(w)
  {
  }

  /** A joined token list starts with its first token's first character and ends with its last token's last one. */
  lemma {:induction false} JoinWithEnds(words: seq<string>, sep: char)
    requires words != [] && AreTokens(words)
    ensures var s := JoinWith(words, sep);
      s != [] && s[0] == words[0][0] && s[|s| - 1] == words[|words| - 1][|words[|words| - 1]| - 1]
    decreases |words|
  {
    if |words| > 1 {
      assert AreTokens(words[1..]);
      JoinWithEnds(words[1..], sep);
    }
  }

  /** Whitespace around a joined token list is already absent, so `strip()` keeps it. */
  lemma JoinedTokensStripped(words: seq<string>, sep: char)
    requires words != [] && AreTokens(words)
    ensures Strip(JoinWith(words, sep)) == JoinWith(words, sep)
  {
    JoinWithEnds(words, sep);
  }

  /** The line of one entry parses back to that entry. */
  lemma DeviceLineParses(e: DeviceEntry)
    requires IsToken(e.serial)
    ensures ParseDeviceLine(DeviceLine(e)) == Some(e)
  {
    var words := [e.serial, StatusText(e.status)];
    assert JoinWith(words, '\t') == DeviceLine(e);
    JoinedTokensStripped(words, '\t');
    SplitWsJoin(words, '\t');
  }

  /** Tokens after the state are ignored. */
  lemma ExtraTokensIgnored(serial: string, st: Status, extra: seq<string>)
    requires IsToken(serial) && AreTokens(extra)
    ensures ParseDeviceLine(JoinWith([serial, StatusText(st)] + extra, ' ')) == Some(DeviceEntry(serial, st))
  {
    var words := [serial, StatusText(st)] + extra;
    JoinedTokensStripped(words, ' ');
    SplitWsJoin(words, ' ');
  }

  /** A line whose second token is not one of the three states contributes nothing. */
  lemma UnknownStateIgnored(serial: string, state: string, extra: seq<string>)
    requires IsToken(serial) && IsToken(state) && AreTokens(extra)
    requires StatusOf(state).None?
    ensures ParseDeviceLine(JoinWith([serial, state] + extra, ' ')) == None
  {
    var words := [serial, state] + extra;
    JoinedTokensStripped(words, ' ');
    SplitWsJoin(words, ' ');
  }

  /** A line holding a single token contributes nothing. */
  lemma LoneTokenIgnored(serial: string)
    requires IsToken(serial)
    ensures ParseDeviceLine(serial) == None
  {
    assert JoinWith([serial], ' ') == serial;
    JoinedTokensStripped([serial], ' ');
    SplitWsJoin([serial], ' ');
  }

  /** The tab between serial and state is not a line break. */
  lemma DeviceLineNoBreak(e: DeviceEntry)
    requires IsToken(e.serial)
    ensures NoBreak(DeviceLine(e))
  {
    var d := DeviceLine(e);
    var t := StatusText(e.status);
    forall i | 0 <= i < |d| ensures !IsLineBreak(d[i]) {
      if i < |e.serial| {
        assert d[i] == e.serial[i];
      } else if i > |e.serial| {
        assert d[i] == t[i - |e.serial| - 1];
      }
    }
  }

  /** Lines that each parse to one value give exactly those values, in order. */
  lemma {:induction false} CollectAllParsed<T>(lines: seq<string>, values: seq<T>, parse: string -> Option<T>)
    requires |lines| == |values|
    requires forall k :: 0 <= k < |lines| ==> parse(lines[k]) == Some(values[k])
    ensures Collect(lines, parse) == values
    decreases |lines|
  {
    if lines != [] {
      var n := |lines|;
      CollectAllParsed(lines[..n - 1], values[..n - 1], parse);
      assert values[..n - 1] + [values[n - 1]] == values;
    }
  }

  lemma DeviceEntriesOfLines(entries: seq<DeviceEntry>)
    requires forall k :: 0 <= k < |entries| ==> IsToken(entries[k].serial)
    ensures Collect(DeviceLines(entries), ParseDeviceLine) == entries
  {
    var lines := DeviceLines(entries);
    forall k | 0 <= k < |lines| ensures ParseDeviceLine(lines[k]) == Some(entries[k]) {
      DeviceLineParses(entries[k]);
    }
    CollectAllParsed(lines, entries, ParseDeviceLine);
  }

  /**
   * Round trip: an `adb devices` listing written from a list of entries
   * (whitespace-free serials) parses back to exactly that list, whatever the
   * header line says.
   */
  lemma ListingLinesNoBreak(header: string, entries: seq<DeviceEntry>)
    requires NoBreak(header)
    requires forall k :: 0 <= k < |entries| ==> IsToken(entries[k].serial)
    ensures forall k :: 0 <= k < |[header] + DeviceLines(entries)| ==> NoBreak(([header] + DeviceLines(entries))[k])
  {
    var lines := [header] + DeviceLines(entries);
    forall k | 0 <= k < |lines| ensures NoBreak(lines[k]) {
      if k > 0 {
        DeviceLineNoBreak(entries[k - 1]);
      }
    }
  }

  lemma DevicesRoundTrip(header: string, entries: seq<DeviceEntry>, err: string)
    requires header != [] && NoBreak(header)
    requires forall k :: 0 <= k < |entries| ==> IsToken(entries[k].serial)
    ensures DevicesOf(AdbOutput(JoinWith([header] + DeviceLines(entries), '\n'), err, 0)) == entries
  {
    var lines := [header] + DeviceLines(entries);
    ListingLinesNoBreak(header, entries);
    SplitLinesJoin(lines);
    assert lines[1..] == DeviceLines(entries);
    DeviceEntriesOfLines(entries);
  }

  // ---------------------------------------------------------------- get_battery_via_adb

  /** The keys `get_battery_via_adb` may set in its result: "level" and "status". */
  datatype Battery = Battery(level: Option<int>, status: Option<string>)

  /** `m.get(st, f"status_{st}")` for the five known status codes. */
  function StatusName(code: int): string {
    if code == 1 then "UNKNOWN"
    else if code == 2 then "CHARGING"
    else if code == 3 then "DISCHARGING"
    else if code == 4 then "NOT CHARGING"
    else if code == 5 then "FULL"
    else "status_" + IntToDecimal(code)
  }

  /** Distinct status codes get distinct names, so the code can be read back from the name. */
  lemma StatusNameInjective(a: int, b: int)
    requires StatusName(a) == StatusName(b)
    ensures a == b
  {
    var na, nb := StatusName(a), StatusName(b);
    if 1 <= a <= 5 && 1 <= b <= 5 {
      assert |na| == |nb|;
    } else if 1 <= a <= 5 || 1 <= b <= 5 {
      assert na[0] == nb[0];
    } else {
      assert na[7..] == IntToDecimal(a) && nb[7..] == IntToDecimal(b);
      ParseIntDecimal(a);
      ParseIntDecimal(b);
    }
  }

  /** `line.split(":")[1]`: the text between the first and the second colon. */
  function FieldText(line: string): string
    requires ':' in line
  {
    SplitOn(line, ':')[1]
  }

  /** The level a line of `dumpsys battery` reports, if it is a "level:" line with an integer value. */
  function LevelReading(raw: string): Option<int> {
    var line := Strip(raw);
    if "level:" <= line then
      assert line[5] == ':';
      ParseInt(Strip(FieldText(line)))
    else None
  }

  /** The status a "status:" line stores: the name of an integer code, or else the raw text. */
  function StatusReading(raw: string): Option<string> {
    var line := Strip(raw);
    if "level:" <= line then None
    else if "status:" <= line then
      assert line[6] == ':';
      var f := Strip(FieldText(line));
      match ParseInt(f)
      case Some(code) => Some(StatusName(code))
      case None => Some(f)
    else None
  }

  /** The value of a key after the lines: each reading replaces the one before. */
  function Latest<T>(lines: seq<string>, read: string -> Option<T>): Option<T> {
    if lines == [] then None
    else if read(lines[|lines| - 1]).Some? then read(lines[|lines| - 1])
    else Latest(lines[..|lines| - 1], read)
  }

  /** The dictionary after the lines: each key holds its latest reading. */
  function BatteryOfLines(lines: seq<string>): Battery {
    Battery(Latest(lines, LevelReading), Latest(lines, StatusReading))
  }

  /** The body of the loop over the lines of `dumpsys battery`. */
  function ApplyBatteryLine(info: Battery, raw: string): (r: Battery)
    ensures r == Battery(if LevelReading(raw).Some? then LevelReading(raw) else info.level,
                         if StatusReading(raw).Some? then StatusReading(raw) else info.status)
  {
    var line := Strip(raw);
    if "level:" <= line then
      assert line[5] == ':';
      var v := ParseInt(Strip(FieldText(line)));
      if v.Some? then info.(level := v) else info
    else if "status:" <= line then
      assert line[6] == ':';
      var f := Strip(FieldText(line));
      match ParseInt(f)
      case Some(code) => info.(status := Some(StatusName(code)))
      case None => info.(status := Some(f))
    else info
  }

  lemma LatestStep<T>(lines: seq<string>, i: nat, read: string -> Option<T>)
    requires i < |lines|
    ensures Latest(lines[..i + 1], read) == if read(lines[i]).Some? then read(lines[i]) else Latest(lines[..i], read)
  {
    assert lines[..i + 1][..i] == lines[..i];
  }

  /** What `get_battery_via_adb` returns for the output of `dumpsys battery`. */
  function BatteryOf(r: AdbOutput): (info: Option<Battery>)
    ensures info.None? <==> r.code != 0 || r.out == []
  {
    if r.code != 0 || r.out == [] then None else Some(BatteryOfLines(SplitLines(r.out)))
  }

  function DumpsysCommand(serial: string): seq<string> {
    ["-s", serial, "shell", "dumpsys", "battery"]
  }

  /** `get_battery_via_adb(serial)`. */
  method GetBatteryViaAdb(serial: string, adb: Adb) returns (info: Option<Battery>)
    ensures info == BatteryOf(RunAdbList(DumpsysCommand(serial), adb))
  {
    var r := RunAdbList(DumpsysCommand(serial), adb);
    if r.code != 0 || r.out == [] {
      return None;
    }
    var lines := SplitLines(r.out);
    var battery := Battery(None, None);
    var i := 0;
    while i < |lines|
      invariant 0 <= i <= |lines|
      invariant battery == BatteryOfLines(lines[..i])
    {
      LatestStep(lines, i, LevelReading);
      LatestStep(lines, i, StatusReading);
      battery := ApplyBatteryLine(battery, lines[i]);
      i := i + 1;
    }
    assert lines[..i] == lines;
    return Some(battery);
  }

  /**
   * A key holds the reading of the LAST line that has one, and is absent
   * exactly when no line has one; lines without a reading (a "level:" whose
   * value is not an integer, say) leave it as it was.
   */
  lemma {:induction false} LatestIsLastReading<T>(lines: seq<string>, read: string -> Option<T>)
    ensures Latest(lines, read).None? <==> forall i :: 0 <= i < |lines| ==> read(lines[i]).None?
    ensures Latest(lines, read).Some? ==>
      exists i :: 0 <= i < |lines| && read(lines[i]) == Latest(lines, read) &&
        forall j :: i < j < |lines| ==> read(lines[j]).None?
  {
    if lines != [] {
      var n := |lines|;
      var pre := lines[..n - 1];
      LatestIsLastReading(pre, read);
      assert forall i :: 0 <= i < n - 1 ==> pre[i] == lines[i];
      if read(lines[n - 1]).None? && Latest(lines, read).Some? {
        var i :| 0 <= i < |pre| && read(pre[i]) == Latest(pre, read) &&
          forall j :: i < j < |pre| ==> read(pre[j]).None?;
        assert read(lines[i]) == Latest(lines, read);
      }
    }
  }

  /** Appending lines without a reading changes nothing; a line with one overrides everything before it. */
  lemma {:induction false} LatestAppend<T>(pre: seq<string>, line: string, read: string -> Option<T>)
    ensures read(line).Some? ==> Latest(pre + [line], read) == read(line)
    ensures read(line).None? ==> Latest(pre + [line], read) == Latest(pre, read)
  {
    assert (pre + [line])[..|pre|] == pre;
  }

  // A report as `dumpsys battery` prints it, and what the parser makes of it.

  /** `key: value`, as the report writes an entry. */
  function Entry(key: string, value: string): string {
    key + ": " + value
  }

  /** One indented entry line of the report. */
  function ReportLine(key: string, value: string): string {
    "  " + Entry(key, value)
  }

  lemma ReportLineStripped(key: string, value: string)
    requires IsToken(key) && IsToken(value)
    ensures Strip(ReportLine(key, value)) == Entry(key, value)
  {
    var x := Entry(key, value);
    assert x[0] == key[0] && x[|x| - 1] == value[|value| - 1];
    StripPadded("  ", x);
  }

  lemma ReportLineNoBreak(key: string, value: string)
    requires NoBreak(key) && NoBreak(value)
    ensures NoBreak(ReportLine(key, value))
  {
    NoBreakConcat(key, ": ");
    NoBreakConcat(key + ": ", value);
    NoBreakConcat("  ", Entry(key, value));
  }

  lemma FieldOfEntry(key: string, value: string)
    requires ':' !in key && ':' !in value
    ensures ':' in Entry(key, value) && FieldText(Entry(key, value)) == " " + value
  {
    var x := Entry(key, value);
    assert x == key + [':'] + (" " + value);
    assert x[|key|] == ':';
    SplitOnAt(key, " " + value, ':');
  }

  lemma LevelLinePrefix(v: string)
    ensures "level:" <= Entry("level", v)
  {
    assert Entry("level", v)[..6] == "level:";
  }

  lemma StatusLinePrefix(v: string)
    ensures "status:" <= Entry("status", v) && !("level:" <= Entry("status", v))
  {
    assert Entry("status", v)[..7] == "status:";
    assert Entry("status", v)[0] == 's';
  }

  /** What the parser needs to know about one report line, gathered first. */
  lemma LevelReadingOf(raw: string, line: string, v: string, n: int)
    requires Strip(raw) == line && "level:" <= line
    requires ':' in line && FieldText(line) == " " + v
    requires Strip(" " + v) == v && ParseInt(v) == Some(n)
    ensures LevelReading(raw) == Some(n) && StatusReading(raw).None?
  {
  }

  lemma StatusReadingOf(raw: string, line: string, v: string, code: int)
    requires Strip(raw) == line && "status:" <= line && !("level:" <= line)
    requires ':' in line && FieldText(line) == " " + v
    requires Strip(" " + v) == v && ParseInt(v) == Some(code)
    ensures StatusReading(raw) == Some(StatusName(code)) && LevelReading(raw).None?
  {
  }

  /** The facts about `str(n)` that a report line relies on. */
  predicate IsValueText(v: string, n: int) {
    IsToken(v) && ':' !in v && ParseInt(v) == Some(n)
  }

  lemma DecimalIsValueText(n: int)
    ensures IsValueText(IntToDecimal(n), n)
  {
    DecimalIsPlain(n);
    ParseIntDecimal(n);
  }

  lemma ValueLine(key: string, v: string, n: int)
    requires IsToken(key) && ':' !in key && IsValueText(v, n)
    ensures Strip(ReportLine(key, v)) == Entry(key, v)
    ensures ':' in Entry(key, v) && FieldText(Entry(key, v)) == " " + v
    ensures Strip(" " + v) == v
    ensures NoBreak(ReportLine(key, v)) && ReportLine(key, v) != []
  {
    NoSpaceNoBreak(v);
    NoSpaceNoBreak(key);
    ReportLineStripped(key, v);
    ReportLineNoBreak(key, v);
    FieldOfEntry(key, v);
    StripPadded(" ", v);
  }

  lemma LatestOfLastTwo<T>(pre: seq<string>, a: string, b: string, read: string -> Option<T>)
    ensures Latest(pre + [a, b], read) ==
      if read(b).Some? then read(b) else if read(a).Some? then read(a) else Latest(pre, read)
  {
    assert pre + [a, b] == (pre + [a]) + [b];
    LatestAppend(pre + [a], b, read);
    LatestAppend(pre, a, read);
  }

  lemma KeysArePlain()
    ensures IsToken("status") && ':' !in "status"
    ensures IsToken("level") && ':' !in "level"
  {
  }

  lemma StatusLineReads(v: string, code: int)
    requires IsValueText(v, code)
    ensures var sl := ReportLine("status", v);
      StatusReading(sl) == Some(StatusName(code)) && LevelReading(sl).None? && NoBreak(sl) && sl != []
  {
    KeysArePlain();
    ValueLine("status", v, code);
    StatusLinePrefix(v);
    StatusReadingOf(ReportLine("status", v), Entry("status", v), v, code);
  }

  lemma LevelLineReads(v: string, level: int)
    requires IsValueText(v, level)
    ensures var ll := ReportLine("level", v);
      LevelReading(ll) == Some(level) && StatusReading(ll).None? && NoBreak(ll) && ll != []
  {
    KeysArePlain();
    ValueLine("level", v, level);
    LevelLinePrefix(v);
    LevelReadingOf(ReportLine("level", v), Entry("level", v), v, level);
  }

  lemma ReportParses(out: string, err: string, others: seq<string>, sl: string, ll: string, name: string, level: int)
    requires out != [] && SplitLines(out) == others + [sl, ll]
    requires StatusReading(sl) == Some(name) && LevelReading(sl).None?
    requires LevelReading(ll) == Some(level) && StatusReading(ll).None?
    ensures BatteryOf(AdbOutput(out, err, 0)) == Some(Battery(Some(level), Some(name)))
  {
    LatestOfLastTwo(others, sl, ll, LevelReading);
    LatestOfLastTwo(others, sl, ll, StatusReading);
  }

  lemma AppendedLinesNoBreak(others: seq<string>, a: string, b: string)
    requires forall k :: 0 <= k < |others| ==> NoBreak(others[k])
    requires NoBreak(a) && NoBreak(b)
    ensures forall k :: 0 <= k < |others + [a, b]| ==> NoBreak((others + [a, b])[k])
  {
  }

  /**
   * Round trip: a report whose last two lines give a status code and then a
   * level parses back to that level and to the name of that code, whatever
   * the lines before them say.
   */
  lemma BatteryReportRoundTrip(others: seq<string>, code: int, level: int, err: string)
    requires forall k :: 0 <= k < |others| ==> NoBreak(others[k])
    ensures var report := others + [ReportLine("status", IntToDecimal(code)), ReportLine("level", IntToDecimal(level))];
      BatteryOf(AdbOutput(JoinWith(report, '\n'), err, 0)) == Some(Battery(Some(level), Some(StatusName(code))))
  {
    var sl, ll := ReportLine("status", IntToDecimal(code)), ReportLine("level", IntToDecimal(level));
    var report := others + [sl, ll];
    DecimalIsValueText(code);
    DecimalIsValueText(level);
    StatusLineReads(IntToDecimal(code), code);
    LevelLineReads(IntToDecimal(level), level);
    AppendedLinesNoBreak(others, sl, ll);
    SplitLinesJoin(report);
    ReportParses(JoinWith(report, '\n'), err, others, sl, ll, StatusName(code), level);
  }
}
