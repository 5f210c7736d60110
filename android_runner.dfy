/** AndroidRunner.java: the launch pipeline (wait for the device, check it suits the
    component, bind and install the package, start it, optionally debug, remember the
    device), the bounded wait for the device future, and the correlation of a crash's stack
    trace with the sketch's source. Every external call is an input; what the runner asks of
    the listener, the device, the registry and the debugger is returned as an event trace. */
module LaunchRunner {
  import opened Wrappers
  import opened Strings
  import opened DeviceRegistry
  import opened TracePatterns

  /** AndroidBuild's component kinds as far as the runner distinguishes them. */
  datatype Component = App | Wallpaper | WatchFace

  /** The status texts the runner pushes to its listener. */
  datatype Notice = WaitingForDevice(devStr: string) | InstallingSketch(deviceId: string)
                  | LaunchingSketch(deviceId: string) | SketchInstalled(inEmulator: bool)
                  | SketchLaunched(inEmulator: bool)

  /** What `build.placeException` yields: the exception placed in the sketch's own source. */
  datatype SketchError = SketchError(message: string, file: string, line: int)

  datatype Failure = LostConnectionWithDevice(devStr: string) | CannotInstallSketch
                   | LostConnection(devStr: string) | CannotLaunchSketch
                   | WaitInterrupted | WaitFailed | CancelWaitingForDevice

  datatype Warning = NonWatchDevice | WatchDevice

  /** Everything observable the runner does, in order. */
  datatype Event = StatusNotice(notice: Notice) | StatusError(failure: Failure) | ShowWarning(warning: Warning)
                 | CancelFuture | KillAdbServer | AddListener(deviceId: string)
                 | SetPackageName(deviceId: string, packageName: string) | InstallApp(deviceId: string)
                 | LaunchApp(deviceId: string, packageName: string, debug: bool)
                 | StartDebug(deviceId: string) | StopIndeterminate | BringLauncherToFront(deviceId: string)

  // ---------------------------------------------------------------------------------------
  // waitForDevice

  const WAIT_ATTEMPTS := 120

  /** What `deviceFuture.get(1, SECONDS)` does on one attempt. */
  datatype GetResult = Got(device: Option<Device>) | GetInterrupted | GetFailed | GetTimedOut

  /** One attempt: whether the listener reports a halt, and what `get` would do. */
  datatype Tick = Tick(halted: bool, get: GetResult)

  /** The outcome of waiting: the device (None for Java's null), the events, and the number
      of `get` calls made. */
  datatype Awaited = Awaited(device: Option<Device>, events: seq<Event>, gets: nat)

  /** The waiting loop from attempt `i` on. */
  function AwaitDevice(ticks: seq<Tick>, i: nat): (r: Awaited)
    requires |ticks| >= WAIT_ATTEMPTS && i <= WAIT_ATTEMPTS
    ensures i <= r.gets <= WAIT_ATTEMPTS
    decreases WAIT_ATTEMPTS - i
  {
    if i == WAIT_ATTEMPTS then Awaited(None, [StatusError(CancelWaitingForDevice)], i)
    else if ticks[i].halted then Awaited(None, [CancelFuture], i)
    else match ticks[i].get
      case Got(d) => Awaited(d, [], i + 1)
      case GetInterrupted => Awaited(None, [StatusError(WaitInterrupted)], i + 1)
      case GetFailed => Awaited(None, [StatusError(WaitFailed)], i + 1)
      case GetTimedOut => AwaitDevice(ticks, i + 1)
  }

  /** An attempt that neither halts nor gets an answer. */
  predicate TimedOut(t: Tick) {
    !t.halted && t.get == GetTimedOut
  }

  /** A halt seen after timeouts only cancels the future and yields no device. */
  lemma {:induction false} AwaitHalted(ticks: seq<Tick>, i: nat, k: nat)
    requires |ticks| >= WAIT_ATTEMPTS && i <= k < WAIT_ATTEMPTS
    requires forall j :: i <= j < k ==> TimedOut(ticks[j])
    requires ticks[k].halted
    ensures AwaitDevice(ticks, i) == Awaited(None, [CancelFuture], k)
    decreases k - i
  {
    if i < k {
      assert TimedOut(ticks[i]);
      AwaitHalted(ticks, i + 1, k);
    }
  }

  /** When every attempt times out, the wait reports the cancel-waiting error, after
      exactly 120 `get` calls. */
  lemma {:induction false} AwaitExhausted(ticks: seq<Tick>, i: nat)
    requires |ticks| >= WAIT_ATTEMPTS && i <= WAIT_ATTEMPTS
    requires forall j :: i <= j < WAIT_ATTEMPTS ==> TimedOut(ticks[j])
    ensures AwaitDevice(ticks, i) == Awaited(None, [StatusError(CancelWaitingForDevice)], WAIT_ATTEMPTS)
    decreases WAIT_ATTEMPTS - i
  {
    if i < WAIT_ATTEMPTS {
      assert TimedOut(ticks[i]);
      AwaitExhausted(ticks, i + 1);
    }
  }

  /** A device comes out of the wait only as the answer of some unhalted attempt that
      followed timeouts only; its events are then empty. */
  lemma {:induction false} AwaitGotDevice(ticks: seq<Tick>, i: nat)
    requires |ticks| >= WAIT_ATTEMPTS && i <= WAIT_ATTEMPTS
    ensures AwaitDevice(ticks, i).device.Some? ==>
      AwaitDevice(ticks, i).events == [] &&
      exists k :: i <= k < WAIT_ATTEMPTS && !ticks[k].halted && ticks[k].get == Got(AwaitDevice(ticks, i).device) &&
        forall j :: i <= j < k ==> TimedOut(ticks[j])
    decreases WAIT_ATTEMPTS - i
  {
    if i < WAIT_ATTEMPTS && TimedOut(ticks[i]) {
      AwaitGotDevice(ticks, i + 1);
      if AwaitDevice(ticks, i).device.Some? {
        var k :| i + 1 <= k < WAIT_ATTEMPTS && !ticks[k].halted && ticks[k].get == Got(AwaitDevice(ticks, i + 1).device) &&
          forall j :: i + 1 <= j < k ==> TimedOut(ticks[j]);
        assert forall j :: i <= j < k ==> TimedOut(ticks[j]);
      }
    }
  }

  /** The first unhalted answer after timeouts only is what the wait returns. */
  lemma {:induction false} AwaitGotAt(ticks: seq<Tick>, i: nat, k: nat, d: Option<Device>)
    requires |ticks| >= WAIT_ATTEMPTS && i <= k < WAIT_ATTEMPTS
    requires forall j :: i <= j < k ==> TimedOut(ticks[j])
    requires !ticks[k].halted && ticks[k].get == Got(d)
    ensures AwaitDevice(ticks, i) == Awaited(d, [], k + 1)
    decreases k - i
  {
    if i < k {
      assert TimedOut(ticks[i]);
      AwaitGotAt(ticks, i + 1, k, d);
    }
  }

  /** The events of the wait never touch the device, the package or the adb server. */
  lemma AwaitEvents(ticks: seq<Tick>, i: nat)
    requires |ticks| >= WAIT_ATTEMPTS && i <= WAIT_ATTEMPTS
    ensures forall e :: e in AwaitDevice(ticks, i).events ==> e.StatusError? || e.CancelFuture?
    decreases WAIT_ATTEMPTS - i
  {
    if i < WAIT_ATTEMPTS && TimedOut(ticks[i]) {
      AwaitEvents(ticks, i + 1);
    }
  }

  /** `waitForDevice`: at most 120 attempts of one second each. */
  method WaitForDevice(ticks: seq<Tick>) returns (device: Option<Device>, events: seq<Event>, gets: nat)
    requires |ticks| >= WAIT_ATTEMPTS
    ensures Awaited(device, events, gets) == AwaitDevice(ticks, 0)
    ensures gets <= WAIT_ATTEMPTS
  {
    for i := 0 to WAIT_ATTEMPTS
      invariant AwaitDevice(ticks, 0) == AwaitDevice(ticks, i)
    {
      if ticks[i].halted {
        return None, [CancelFuture], i;
      }
      match ticks[i].get
      case Got(d) =>
        return d, [], i + 1;
      case GetInterrupted =>
        return None, [StatusError(WaitInterrupted)], i + 1;
      case GetFailed =>
        return None, [StatusError(WaitFailed)], i + 1;
      case GetTimedOut =>
    }
    return None, [StatusError(CancelWaitingForDevice)], WAIT_ATTEMPTS;
  }

  // ---------------------------------------------------------------------------------------
  // launch

  /** What `device.launchApp` does: return a flag, or throw. */
  datatype AppLaunch = LaunchReturned(ok: bool) | LaunchThrew

  /** `startSketch`: true only when `launchApp` returned true; an exception counts as failure. */
  function StartSketch(launch: AppLaunch): (started: bool)
    ensures started <==> launch == LaunchReturned(true)
  {
    match launch
    case LaunchReturned(ok) => ok
    case LaunchThrew => false
  }

  /** The compatibility table: a watch face needs a device with the "watch" feature, and
      every other component needs a device without it. */
  predicate Compatible(comp: Component, d: Device) {
    (comp == WatchFace) == ("watch" in d.features)
  }

  predicate Live(d: Option<Device>) {
    d.Some? && d.value.alive
  }

  /** `a` happens before `b` in the trace. */
  predicate Precedes(events: seq<Event>, a: Event, b: Event) {
    exists i, j :: 0 <= i < j < |events| && events[i] == a && events[j] == b
  }

  predicate NoInstall(events: seq<Event>) {
    forall e :: e in events ==> !e.InstallApp? && !e.SetPackageName?
  }

  predicate NoStart(events: seq<Event>) {
    forall e :: e in events ==> !e.LaunchApp? && !e.StartDebug?
  }

  function DevStr(emu: bool): string {
    if emu then "emulator" else "device"
  }


  /** The listener calls and device commands after the wait has produced a suitable device:
      bind the package to it, then install. */
  function BindAndInstall(d: Device, packageName: string): seq<Event> {
    [AddListener(d.id), SetPackageName(d.id, packageName), StatusNotice(InstallingSketch(d.id)), InstallApp(d.id)]
  }

  /** After a successful install: start the sketch (active apps get a "launching" notice
      first), report, start the debugger when enabled, stop the progress indicator. */
  function StartAndReport(comp: Component, d: Device, packageName: string, debug: bool, launch: AppLaunch): seq<Event> {
    var report :=
      if StartSketch(launch) then
        StatusNotice(if comp == App then SketchLaunched(IsEmulator(d)) else SketchInstalled(IsEmulator(d)))
      else
        StatusError(if comp == App then CannotLaunchSketch else CannotInstallSketch);
    (if comp == App then [StatusNotice(LaunchingSketch(d.id))] else [])
    + [LaunchApp(d.id, packageName, debug), report]
    + (if debug then [StartDebug(d.id)] else [])
    + [StopIndeterminate]
  }

  datatype LaunchResult = LaunchResult(status: bool, events: seq<Event>)

  /** Whether `launch` gets as far as a successful install, i.e. records the device. */
  predicate Installs(comp: Component, ticks: seq<Tick>, installed: bool)
    requires |ticks| >= WAIT_ATTEMPTS
  {
    var w := AwaitDevice(ticks, 0).device;
    Live(w) && Compatible(comp, w.value) && installed
  }

  /** The status `launch` returns and the trace of what it does. */
  function LaunchTrace(comp: Component, emu: bool, ticks: seq<Tick>, installed: bool, launch: AppLaunch,
                       packageName: string, debug: bool): (r: LaunchResult)
    requires |ticks| >= WAIT_ATTEMPTS
    ensures |r.events| > 0 && r.events[0] == StatusNotice(WaitingForDevice(DevStr(emu)))
    ensures r.status ==> Installs(comp, ticks, installed)
  {
    var w := AwaitDevice(ticks, 0);
    var waited := [StatusNotice(WaitingForDevice(DevStr(emu)))] + w.events;
    if !Live(w.device) then
      LaunchResult(false, waited + [StatusError(LostConnectionWithDevice(DevStr(emu))), KillAdbServer])
    else if !Compatible(comp, w.device.value) then
      var warning := if comp == WatchFace then NonWatchDevice else WatchDevice;
      LaunchResult(false, waited + [StatusError(CannotInstallSketch), ShowWarning(warning)])
    else
      var d := w.device.value;
      var bound := waited + BindAndInstall(d, packageName);
      if !installed then
        LaunchResult(false, bound + [StatusError(LostConnection(DevStr(emu))), KillAdbServer])
      else
        LaunchResult(StartSketch(launch), bound + StartAndReport(comp, d, packageName, debug, launch))
  }

  /** Without a live device `launch` reports the lost connection, resets the adb server and
      neither installs nor starts anything. */
  lemma LaunchWithoutDevice(comp: Component, emu: bool, ticks: seq<Tick>, installed: bool, launch: AppLaunch,
                            packageName: string, debug: bool)
    requires |ticks| >= WAIT_ATTEMPTS
    requires !Live(AwaitDevice(ticks, 0).device)
    ensures var r := LaunchTrace(comp, emu, ticks, installed, launch, packageName, debug);
      && !r.status && NoInstall(r.events) && NoStart(r.events)
      && r.events[|r.events| - 1] == KillAdbServer
      && StatusError(LostConnectionWithDevice(DevStr(emu))) in r.events
  {
    AwaitEvents(ticks, 0);
  }

  /** A watch face on a phone, or anything else on a watch, is refused with the matching
      warning, before any install and without resetting the adb server. */
  lemma LaunchOnWrongKind(comp: Component, emu: bool, ticks: seq<Tick>, installed: bool, launch: AppLaunch,
                          packageName: string, debug: bool)
    requires |ticks| >= WAIT_ATTEMPTS
    requires Live(AwaitDevice(ticks, 0).device) && !Compatible(comp, AwaitDevice(ticks, 0).device.value)
    ensures var r := LaunchTrace(comp, emu, ticks, installed, launch, packageName, debug);
      && !r.status && NoInstall(r.events) && NoStart(r.events) && KillAdbServer !in r.events
      && r.events[|r.events| - 1] == ShowWarning(if comp == WatchFace then NonWatchDevice else WatchDevice)
  {
    AwaitEvents(ticks, 0);
  }

  /** On a suitable device the package is bound to the device before the install. */
  lemma LaunchBindsBeforeInstall(comp: Component, emu: bool, ticks: seq<Tick>, installed: bool, launch: AppLaunch,
                                 packageName: string, debug: bool)
    requires |ticks| >= WAIT_ATTEMPTS
    requires Live(AwaitDevice(ticks, 0).device) && Compatible(comp, AwaitDevice(ticks, 0).device.value)
    ensures var d := AwaitDevice(ticks, 0).device.value;
      Precedes(LaunchTrace(comp, emu, ticks, installed, launch, packageName, debug).events,
               SetPackageName(d.id, packageName), InstallApp(d.id))
  {
    var w := AwaitDevice(ticks, 0);
    var d := w.device.value;
    var events := LaunchTrace(comp, emu, ticks, installed, launch, packageName, debug).events;
    var at := 1 + |w.events|;
    assert events[at + 1] == SetPackageName(d.id, packageName);
    assert events[at + 3] == InstallApp(d.id);
  }

  /** A failed install resets the adb server and never starts the sketch. */
  lemma LaunchInstallFails(comp: Component, emu: bool, ticks: seq<Tick>, launch: AppLaunch,
                           packageName: string, debug: bool)
    requires |ticks| >= WAIT_ATTEMPTS
    requires Live(AwaitDevice(ticks, 0).device) && Compatible(comp, AwaitDevice(ticks, 0).device.value)
    ensures var r := LaunchTrace(comp, emu, ticks, false, launch, packageName, debug);
      && !r.status && NoStart(r.events)
      && r.events[|r.events| - 1] == KillAdbServer
      && StatusError(LostConnection(DevStr(emu))) in r.events
  {
    AwaitEvents(ticks, 0);
  }

  /** What the start segment holds: the launch command at its head (after the notice for
      active apps), no adb reset, the debugger exactly when enabled. */
  lemma StartAndReportShape(comp: Component, d: Device, packageName: string, debug: bool, launch: AppLaunch)
    ensures var s := StartAndReport(comp, d, packageName, debug, launch);
      && |s| > 1 + (if comp == App then 1 else 0)
      && s[if comp == App then 1 else 0] == LaunchApp(d.id, packageName, debug)
      && (comp == App ==> s[0] == StatusNotice(LaunchingSketch(d.id)))
      && KillAdbServer !in s
      && (StartDebug(d.id) in s <==> debug)
      && (StatusNotice(LaunchingSketch(d.id)) in s <==> comp == App)
  {
    var s := StartAndReport(comp, d, packageName, debug, launch);
    var head := if comp == App then [StatusNotice(LaunchingSketch(d.id))] else [];
    var tail := (if debug then [StartDebug(d.id)] else []) + [StopIndeterminate];
    assert s == head + [LaunchApp(d.id, packageName, debug), s[|head| + 1]] + tail;
  }

  /** The trace of a successful install is the trace up to the install followed by the
      start segment. */
  lemma LaunchTraceInstalled(comp: Component, emu: bool, ticks: seq<Tick>, launch: AppLaunch,
                             packageName: string, debug: bool)
    requires |ticks| >= WAIT_ATTEMPTS
    requires Live(AwaitDevice(ticks, 0).device) && Compatible(comp, AwaitDevice(ticks, 0).device.value)
    ensures var w := AwaitDevice(ticks, 0);
      var d := w.device.value;
      LaunchTrace(comp, emu, ticks, true, launch, packageName, debug) ==
        LaunchResult(StartSketch(launch), [StatusNotice(WaitingForDevice(DevStr(emu)))] + w.events
                                          + BindAndInstall(d, packageName)
                                          + StartAndReport(comp, d, packageName, debug, launch))
  {
  }

  /** After a successful install: the status is `startSketch`'s, the sketch is started on the
      installed device after the install, the adb server is left alone, the debugger is
      started exactly when enabled, and only an active app gets the "launching" notice. */
  lemma LaunchAfterInstall(comp: Component, emu: bool, ticks: seq<Tick>, launch: AppLaunch,
                           packageName: string, debug: bool)
    requires |ticks| >= WAIT_ATTEMPTS
    requires Live(AwaitDevice(ticks, 0).device) && Compatible(comp, AwaitDevice(ticks, 0).device.value)
    ensures var d := AwaitDevice(ticks, 0).device.value;
      var r := LaunchTrace(comp, emu, ticks, true, launch, packageName, debug);
      && r.status == StartSketch(launch)
      && KillAdbServer !in r.events
      && Precedes(r.events, InstallApp(d.id), LaunchApp(d.id, packageName, debug))
      && (StartDebug(d.id) in r.events <==> debug)
      && (StatusNotice(LaunchingSketch(d.id)) in r.events <==> comp == App)
      && (comp == App ==> Precedes(r.events, StatusNotice(LaunchingSketch(d.id)), LaunchApp(d.id, packageName, debug)))
  {
    AwaitEvents(ticks, 0);
    var w := AwaitDevice(ticks, 0);
    var d := w.device.value;
    LaunchTraceInstalled(comp, emu, ticks, launch, packageName, debug);
    StartAndReportShape(comp, d, packageName, debug, launch);
    AppendedSegments([StatusNotice(WaitingForDevice(DevStr(emu)))] + w.events, d, packageName,
                     StartAndReport(comp, d, packageName, debug, launch), comp == App, debug);
  }

  /** Sequence facts behind `LaunchAfterInstall`, with the segments as plain values. */
  lemma AppendedSegments(waited: seq<Event>, d: Device, packageName: string, start: seq<Event>, app: bool, debug: bool)
    requires forall e :: e in waited ==> e.StatusError? || e.CancelFuture? || (e.StatusNotice? && e.notice.WaitingForDevice?)
    requires |start| > 1 + (if app then 1 else 0)
    requires start[if app then 1 else 0] == LaunchApp(d.id, packageName, debug)
    requires app ==> start[0] == StatusNotice(LaunchingSketch(d.id))
    ensures var events := waited + BindAndInstall(d, packageName) + start;
      && (KillAdbServer !in events <==> KillAdbServer !in start)
      && Precedes(events, InstallApp(d.id), LaunchApp(d.id, packageName, debug))
      && (StartDebug(d.id) in events <==> StartDebug(d.id) in start)
      && (StatusNotice(LaunchingSketch(d.id)) in events <==> StatusNotice(LaunchingSketch(d.id)) in start)
      && (app ==> Precedes(events, StatusNotice(LaunchingSketch(d.id)), LaunchApp(d.id, packageName, debug)))
  {
    var bound := waited + BindAndInstall(d, packageName);
    var events := bound + start;
    assert events[|bound| - 1] == InstallApp(d.id);
    assert events[|bound| + (if app then 1 else 0)] == LaunchApp(d.id, packageName, debug);
    if app {
      assert events[|bound|] == StatusNotice(LaunchingSketch(d.id));
    }
  }

  // ---------------------------------------------------------------------------------------
  // stackTrace

  /** DEFAULT_PACKAGE_NAME, the marker of a frame in the sketch's own code. */
  const DEFAULT_PACKAGE_NAME := "processing.android"

  /** A frame `stackTrace` stops at: it names the sketch's package and has a location. */
  predicate IsSketchFrame(line: string) {
    Contains(line, DEFAULT_PACKAGE_NAME) && FindLocation(line, 0).Some?
  }

  /** `trace[k]` is the first frame after the exception line that `stackTrace` stops at. */
  predicate FirstSketchFrame(trace: seq<string>, k: int) {
    1 <= k < |trace| && IsSketchFrame(trace[k]) && forall j :: 1 <= j < k ==> !IsSketchFrame(trace[j])
  }

  /** Where the crash was traced to. */
  datatype Origin =
    | NoSketchFrame                    // no frame qualified: nothing is reported
    | Placed(error: SketchError)       // placeException mapped it into the sketch
    | Unplaced(exceptionLine: string)  // reported as a plain SketchException of the first line
    | LineNumberOverflow(digits: string)  // Integer.parseInt threw NumberFormatException

  datatype CrashReport =
    | EmptyTrace                       // `frames.next()` on an empty list throws
    | UnknownException                 // the first line is no exception line
    | Classified(exceptionClass: string, origin: Origin)

  /** Groups 1 and 2 of the first LOCATION match of a sketch frame: the file name and the
      line number's digits. */
  function FrameLocation(frame: string): (loc: (string, string))
    requires IsSketchFrame(frame)
    ensures loc.1 != [] && forall ch :: ch in loc.1 ==> IsDigit(ch)
  {
    var m := FindLocation(frame, 0).value;
    LocationTrySound(frame, m.0);
    (m.1, m.2)
  }

  /** What the first sketch frame turns into: its file and its 1-based line, made 0-based,
      are handed to `placeException`; a missing placement falls back to the raw exception
      line, and a line number beyond `int` throws. */
  function Resolve(exceptionLine: string, loc: (string, string), place: (string, string, int) -> Option<SketchError>): (o: Origin)
    requires forall ch :: ch in loc.1 ==> IsDigit(ch)
    ensures o != NoSketchFrame
    ensures o.LineNumberOverflow? <==> DecimalValue(loc.1) > INT_MAX
    ensures o.Placed? ==> place(exceptionLine, loc.0, DecimalValue(loc.1) - 1) == Some(o.error)
    ensures o.Unplaced? ==> o.exceptionLine == exceptionLine && place(exceptionLine, loc.0, DecimalValue(loc.1) - 1).None?
  {
    match ParseInt(loc.1)
    case None => LineNumberOverflow(loc.1)
    case Some(n) =>
      match place(exceptionLine, loc.0, n - 1)
      case Some(e) => Placed(e)
      case None => Unplaced(exceptionLine)
  }

  /** The walk over the frames after the exception line: the first sketch frame, if any. */
  method FirstFrame(trace: seq<string>) returns (k: Option<nat>)
    ensures k.Some? ==> FirstSketchFrame(trace, k.value)
    ensures k.None? <==> forall j :: 1 <= j < |trace| ==> !IsSketchFrame(trace[j])
  {
    if trace == [] {
      return None;
    }
    var i := 1;
    while i < |trace|
      invariant 1 <= i <= |trace|
      invariant forall j :: 1 <= j < i ==> !IsSketchFrame(trace[j])
    {
      if IsSketchFrame(trace[i]) {
        return Some(i);
      }
      i := i + 1;
    }
    return None;
  }

  /** `stackTrace`. `place` stands for `build.placeException`. */
  method StackTrace(trace: seq<string>, place: (string, string, int) -> Option<SketchError>) returns (report: CrashReport)
    ensures trace == [] <==> report == EmptyTrace
    ensures trace != [] ==> (ParseExceptionLine(trace[0]).None? <==> report == UnknownException)
    ensures trace != [] && ParseExceptionLine(trace[0]).Some? ==>
      report.Classified? && report.exceptionClass == ParseExceptionLine(trace[0]).value
    ensures report.Classified? ==>
      (report.origin == NoSketchFrame <==> forall j :: 1 <= j < |trace| ==> !IsSketchFrame(trace[j]))
    ensures report.Classified? && report.origin != NoSketchFrame ==>
      exists k :: FirstSketchFrame(trace, k) && report.origin == Resolve(trace[0], FrameLocation(trace[k]), place)
  {
    if trace == [] {
      return EmptyTrace;
    }
    var exceptionLine := trace[0];
    var m := ParseExceptionLine(exceptionLine);
    if m.None? {
      return UnknownException;
    }
    var exceptionClass := m.value;
    var k := FirstFrame(trace);
    if k.None? {
      return Classified(exceptionClass, NoSketchFrame);
    }
    var loc := FrameLocation(trace[k.value]);
    var filename, digits := loc.0, loc.1;
    return Classified(exceptionClass, Resolve(exceptionLine, (filename, digits), place));
  }

  /** A first line that is a single word and other text is no exception line. */
  lemma NotATraceIsUnparseable()
    ensures ParseExceptionLine("not a trace") == None
  {
    var s := "not a trace";
    SpacePrefixUnique(s, 0);
    assert s[0..] == s;
    NamePrefixUnique(s, 3);
    SplitOnWithoutSeparator("not", '.');
  }

  /** Three runs of letters joined by dots, like com.example.NullPointerException, form a
      dotted name. */
  lemma {:induction false} ThreePartName(a: string, b: string, c: string)
    requires a != [] && b != [] && c != []
    requires forall ch :: ch in a + b + c ==> IsLetter(ch)
    ensures IsDottedName(a + "." + b + "." + c)
  {
    assert '.' !in a && '.' !in b && '.' !in c by {
      assert !IsLetter('.');
      assert forall ch :: ch in a ==> ch in a + b + c;
      assert forall ch :: ch in b ==> ch in a + b + c;
      assert forall ch :: ch in c ==> ch in a + b + c;
    }
    SplitOnWithoutSeparator(c, '.');
    SplitOnFirst(b, c, '.');
    assert a + "." + b + "." + c == a + ['.'] + (b + ['.'] + c);
    SplitOnFirst(a, b + ['.'] + c, '.');
    var parts := SplitOn(a + "." + b + "." + c, '.');
    assert parts == [a, b, c];
    forall k | 0 <= k < |parts| ensures forall ch :: ch in parts[k] ==> IsLetter(ch) {
      assert forall ch :: ch in parts[k] ==> ch in a + b + c;
    }
  }

  /** A dotted name followed by a message tail is an exception line naming that class. */
  lemma ExceptionLineOf(name: string, tail: string)
    requires IsDottedName(name) && IsMessageTail(tail)
    ensures ParseExceptionLine(name + tail) == Some(name)
  {
    var s := name + tail;
    assert s[0..|name|] == name && s[|name|..] == tail;
    assert ExceptionMatchAt(s, 0, |name|);
    ParseExceptionLineCorrect(s);
  }

  /** A frame of the sketch's package whose first parenthesis opens `(file:digits)` is a
      sketch frame located at that file and line. */
  lemma SketchFrameAt(before: string, file: string, digits: string, after: string)
    requires '(' !in before && file != [] && ':' !in file
    requires digits != [] && forall ch :: ch in digits ==> IsDigit(ch)
    requires Contains(before + "(" + file + ":" + digits + ")" + after, DEFAULT_PACKAGE_NAME)
    ensures IsSketchFrame(before + "(" + file + ":" + digits + ")" + after)
    ensures FrameLocation(before + "(" + file + ":" + digits + ")" + after) == (file, digits)
  {
    FirstLocation(before, file, digits, after);
  }

  class AndroidRunner {
    /** `build.getPackageName()`. */
    const packageName: string
    /** Whether the editor asked for the debugger. */
    const isDebugEnabled: bool
    var lastRunDevice: Option<Device>

    constructor (packageName: string, isDebugEnabled: bool)
      ensures this.packageName == packageName && this.isDebugEnabled == isDebugEnabled
      ensures lastRunDevice == None
    {
      this.packageName := packageName;
      this.isDebugEnabled := isDebugEnabled;
      lastRunDevice := None;
    }

    /** `launch`. `ticks` drive the wait for the device, `installed` is what `installApp`
        returns and `launch` what `launchApp` does. The device is remembered exactly when
        the install succeeded, whether or not the start did. */
    method Launch(comp: Component, emu: bool, ticks: seq<Tick>, installed: bool, launch: AppLaunch)
      returns (status: bool, events: seq<Event>)
      requires |ticks| >= WAIT_ATTEMPTS
      modifies this`lastRunDevice
      ensures LaunchResult(status, events) == LaunchTrace(comp, emu, ticks, installed, launch, packageName, isDebugEnabled)
      ensures lastRunDevice == if Installs(comp, ticks, installed) then AwaitDevice(ticks, 0).device else old(lastRunDevice)
    {
      var devStr := DevStr(emu);
      events := [StatusNotice(WaitingForDevice(devStr))];

      var device, waitEvents, gets := WaitForDevice(ticks);
      events := events + waitEvents;
      assert Live(device) == Live(AwaitDevice(ticks, 0).device);
      if device.None? || !device.value.alive {
        events := events + [StatusError(LostConnectionWithDevice(devStr)), KillAdbServer];
        return false, events;
      }
      var dev := device.value;

      if comp == WatchFace && "watch" !in dev.features {
        events := events + [StatusError(CannotInstallSketch), ShowWarning(NonWatchDevice)];
        return false, events;
      }
      if comp != WatchFace && "watch" in dev.features {
        events := events + [StatusError(CannotInstallSketch), ShowWarning(WatchDevice)];
        return false, events;
      }

      events := events + [AddListener(dev.id), SetPackageName(dev.id, packageName),
                          StatusNotice(InstallingSketch(dev.id)), InstallApp(dev.id)];
      if !installed {
        events := events + [StatusError(LostConnection(devStr)), KillAdbServer];
        return false, events;
      }

      // the start and what follows it, appended once the install has succeeded
      var started := StartSketch(launch);
      var after: seq<Event>;
      if comp == WatchFace || comp == Wallpaper {
        after := [LaunchApp(dev.id, packageName, isDebugEnabled)];
        if started {
          after := after + [StatusNotice(SketchInstalled(IsEmulator(dev)))];
        } else {
          after := after + [StatusError(CannotInstallSketch)];
        }
      } else {
        after := [StatusNotice(LaunchingSketch(dev.id)), LaunchApp(dev.id, packageName, isDebugEnabled)];
        if started {
          after := after + [StatusNotice(SketchLaunched(IsEmulator(dev)))];
        } else {
          after := after + [StatusError(CannotLaunchSketch)];
        }
      }
      if isDebugEnabled {
        after := after + [StartDebug(dev.id)];
      }
      after := after + [StopIndeterminate];
      assert after == StartAndReport(comp, dev, packageName, isDebugEnabled, launch);

      events := events + after;
      lastRunDevice := Some(dev);
      status := started;
    }

    /** `close()`: bring the launcher of the last device run on back to the front. */
    method Close() returns (events: seq<Event>)
      ensures lastRunDevice.None? ==> events == []
      ensures lastRunDevice.Some? ==> events == [BringLauncherToFront(lastRunDevice.value.id)]
    {
      events := [];
      if lastRunDevice.Some? {
        events := [BringLauncherToFront(lastRunDevice.value.id)];
      }
    }
  }
}
