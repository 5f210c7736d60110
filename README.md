# Android mode: device registry and launch runner

This project models two host-side pieces of Processing's Android mode.

- **Device registry** (`Devices.java`):
  - parsing the output of `adb devices` into device ids;
  - the id-to-device map that `refresh`, `addDevice` and `deviceRemoved` maintain;
  - the lookups `find` and `findMultiple`;
  - the emulator-controller recovery rule and polling loop of `blockingGetEmulator`;
  - the polling of `blockingGetHardware` and `getHardware`'s reuse of a live selected device;
  - the exactly-one-hardware-device guard of `enableBluetoothDebugging`.
- **Launch runner** (`AndroidRunner.java`):
  - the `launch` pipeline: wait for the device, refuse a device of the wrong kind, bind the package, install, start, optionally debug, remember the device;
  - `startSketch`;
  - the 120-attempt `waitForDevice` loop;
  - `stackTrace`, which turns a crash's stack trace into a sketch error through the two regular expressions `EXCEPTION_PARSER` and `LOCATION`, `Integer.parseInt` and `build.placeException`;
  - `close`.

Every external call becomes an input. This covers adb, `Device.initialize`, `installApp`, `launchApp`, the device future, the listener's halt flag, the emulator controller and `placeException`. What the runner asks of the outside world comes back as a sequence of events, so contracts can say "no install happened" or "the adb server was reset".

Files:

- `wrappers.dfy`: `Option`.
- `strings.dfy` (module `Strings`): the `java.lang.String` operations the code relies on:
  - `contains`, proved to be the infix relation;
  - `split` on a single character, which drops trailing empty pieces, proved to lose nothing against `Join`;
  - `trim`, whose emptiness is proved equal to blankness.
- `devices.dfy` (module `DeviceRegistry`): the registry.
  - The class `Devices` has the fields `devices` (a `map<string, Device>`) and `showPermissionsErrorMessage`.
  - `List`, `Refresh`, `Find`, `FindMultiple` and `EnableBluetoothDebugging` are proved against the specification functions `ListOutcome`, `MeetsNoPermissions` and `Refreshed`. `AddDevice`, `DeviceRemoved` and the constructor state the new map directly.
  - Lemmas about those functions state what the code promises.
- `acquisition.dfy` (module `Acquisition`): `blockingGetEmulator`, `blockingGetHardware` and `getHardware`. The calls to `find` and the interrupt flags are oracle sequences.
- `trace_patterns.dfy` (module `TracePatterns`): the two regular expressions, each written twice:
  - a declarative reading of the pattern (`ExceptionMatchAt`, `LocationAt`);
  - a scanner (`ParseExceptionLine`, `FindLocation`);
  - lemmas proving the two agree, including leftmost-match and uniqueness.
- `android_runner.dfy` (module `LaunchRunner`): `waitForDevice`, `launch`, `startSketch`, `stackTrace` and `close`.
  - The class `AndroidRunner` holds `packageName`, `isDebugEnabled` and `lastRunDevice`.
  - `Launch` is proved equal to the specification function `LaunchTrace`, and lemmas state each early exit.

The model follows the code in these places, which a reader might not expect:

- `addDevice` uses `Map.put`, so it does replace an entry with the same id. `refresh` never replaces one, because it only adds ids that are not yet keys.
- A row `"id\t"` makes `line.split("\t")` return one field. `fields[1]` then throws `ArrayIndexOutOfBoundsException`, which nothing in `list`, `refresh`, `find`, `blockingGetEmulator` or `blockingGetHardware` catches. The model carries this exception as the outcome `FieldMissing`/`Thrown`, and as the exit `FindThrew` of the acquisition calls.
- `stackTrace` on an empty trace throws at `frames.next()`. The model reports it as the outcome `EmptyTrace` instead of excluding the input.

## Model

| member | source | states |
|---|---|---|
| Strings.ContainsIsInfix | mode/src/processing/mode/android/Devices.java:386 | `s.contains(t)` exactly when `s` is `t` with some text before and after it |
| Strings.NotContainsLonger | mode/src/processing/mode/android/Devices.java:390 | no string contains a longer one |
| Strings.SplitOn | mode/src/processing/mode/android/Devices.java:387 | the pieces of a split contain no separator and there is at least one |
| Strings.JoinSplitOn | mode/src/processing/mode/android/Devices.java:387 | splitting loses nothing: joining the pieces with the separator restores the row |
| Strings.DropTrailingEmpty | mode/src/processing/mode/android/Devices.java:387 | `split` keeps a prefix of the pieces, ending in a non-empty one, and drops only empty ones |
| Strings.SplitOnWithoutSeparator | mode/src/processing/mode/android/Devices.java:387 | a row without a tab is a single field |
| Strings.SplitOnFirst | mode/src/processing/mode/android/Devices.java:387-389 | the first field is everything before the first tab |
| Strings.SplitTwoFields | mode/src/processing/mode/android/Devices.java:387-389 | `id + tab + status` splits back into exactly `[id, status]` when status is non-empty |
| Strings.TrailingTabLeavesOneField | mode/src/processing/mode/android/Devices.java:387-388 | `"id\t"` splits into the single field `"id"`, so `fields[1]` does not exist |
| Strings.LeadingTabKeepsEmptyField | mode/src/processing/mode/android/Devices.java:387-389 | a leading tab keeps an empty first field |
| Strings.TrimStart | mode/src/processing/mode/android/Devices.java:377 | the result is empty or starts with a character `trim` keeps |
| Strings.TrimStartEmpty | mode/src/processing/mode/android/Devices.java:377 | stripping leading blanks empties a string exactly when it is blank |
| Strings.TrimEndEmpty | mode/src/processing/mode/android/Devices.java:377 | stripping trailing blanks empties a string exactly when it is blank |
| Strings.TrimEmptyIffBlank | mode/src/processing/mode/android/Devices.java:377 | `stdout.trim().length() == 0` exactly when every character is at most a space |
| DeviceRegistry.ScanStep | mode/src/processing/mode/android/Devices.java:385-396 | how the result for rows `i..` is made of row `i` and the rest, both for the ids and for meeting a `no permissions` row |
| DeviceRegistry.PrependAssoc | mode/src/processing/mode/android/Devices.java:389 | ids appended in two steps are the ids appended at once |
| DeviceRegistry.ListEmptyOnEarlyExits | mode/src/processing/mode/android/Devices.java:345-381 | `list` returns the empty list when adb is disabled, the command throws, it fails, or non-blank output lacks "List of devices" |
| DeviceRegistry.ParseRowsAppend | mode/src/processing/mode/android/Devices.java:384-397 | rows are scanned in order: the ids of `a + b` are those of `a` then those of `b`, unless a row of `a` aborts |
| DeviceRegistry.ParsedRowsHaveStatus | mode/src/processing/mode/android/Devices.java:386-388 | a listing that returns met no tab row without a second field |
| DeviceRegistry.ParsedIdsAreUsableRows | mode/src/processing/mode/android/Devices.java:386-389 | every returned id is the first field of a row whose second field is exactly `device` |
| DeviceRegistry.UsableRowsAreParsed | mode/src/processing/mode/android/Devices.java:386-389 | the id of every row with status `device` is returned |
| DeviceRegistry.ClassifyStatusRow | mode/src/processing/mode/android/Devices.java:386-394 | a row `id\tstatus` counts as usable iff status is `device`, shows the warning iff status contains `no permissions`, else is ignored |
| DeviceRegistry.DeviceRowIsUsable | mode/src/processing/mode/android/Devices.java:388-389 | `"<id>\tdevice"` yields id `<id>` |
| DeviceRegistry.OfflineRowIsIgnored | mode/src/processing/mode/android/Devices.java:388-394 | `"<id>\toffline"` contributes nothing and shows no warning |
| DeviceRegistry.TrailingTabRowAborts | mode/src/processing/mode/android/Devices.java:387-388 | `"<id>\t"` has no status field, so `list` throws at that row |
| DeviceRegistry.OnlyIgnoredRowsGiveNothing | mode/src/processing/mode/android/Devices.java:384-397 | rows without a tab, or whose second field is one `list` does not keep (offline, no permissions), give the empty list |
| DeviceRegistry.RefreshedSpec | mode/src/processing/mode/android/Devices.java:285-293 | `refresh` removes no key and replaces no entry; the keys afterwards are the old ones plus the listed ids whose device initialised, stored as that device |
| DeviceRegistry.RefreshedKeyedById | mode/src/processing/mode/android/Devices.java:285-293 | refreshing keeps every entry stored under its own id |
| DeviceRegistry.SearchRegistry | mode/src/processing/mode/android/Devices.java:216-225 | the loop returns a registry entry passing the port and emulator filters, and nothing exactly when no entry passes them |
| DeviceRegistry.CollectRegistry | mode/src/processing/mode/android/Devices.java:232-241 | the loop returns every entry of the wanted class, each once, and nothing else |
| DeviceRegistry.Devices.constructor | mode/src/processing/mode/android/Devices.java:51-62 | an empty registry that will still show the permissions warning |
| DeviceRegistry.Devices.List | mode/src/processing/mode/android/Devices.java:344-398 | `list` returns `ListOutcome` and shows the permissions warning only if it was not shown before and a `no permissions` row is reached; the flag is cleared then and stays cleared |
| DeviceRegistry.Devices.AddDevice | mode/src/processing/mode/android/Devices.java:296-310 | the map is unchanged when initialisation throws, otherwise the device is stored under its id |
| DeviceRegistry.Devices.DeviceRemoved | mode/src/processing/mode/android/Devices.java:313-324 | the id is absent afterwards and every other entry is unchanged; an unknown id is a no-op |
| DeviceRegistry.Devices.Refresh | mode/src/processing/mode/android/Devices.java:285-293 | the map becomes `Refreshed(old map, listed ids)`, or stays as it was when the listing throws |
| DeviceRegistry.Devices.Find | mode/src/processing/mode/android/Devices.java:214-226 | after the refresh: a returned device is a map entry of the wanted class whose name contains the port; none is returned exactly when no entry qualifies; a listing exception propagates |
| DeviceRegistry.Devices.FindMultiple | mode/src/processing/mode/android/Devices.java:228-242 | after the refresh: exactly the entries of the wanted class, each once |
| DeviceRegistry.Devices.EnableBluetoothDebugging | mode/src/processing/mode/android/Devices.java:106-127 | adb forward and connect are issued only when exactly one hardware device is known, for that device and port 4444; a failing forward skips the connect |
| Acquisition.PollEmulatorStopsOnNotRunning | mode/src/processing/mode/android/Devices.java:188-196 | the polling loop gives up without a device as soon as the controller reports NOT_RUNNING |
| Acquisition.PollEmulatorFindThrows | mode/src/processing/mode/android/Devices.java:192-197 | a `find` that throws in the polling loop ends the call with that exception and no device |
| Acquisition.PollEmulatorFirstFound | mode/src/processing/mode/android/Devices.java:197-201 | the emulator loop returns the first device a `find` yields while the emulator is not reported stopped |
| Acquisition.PollEmulatorCancelled | mode/src/processing/mode/android/Devices.java:188-207 | an interrupt, before a turn's checks or during its sleep, ends the emulator loop without a device |
| Acquisition.PollEmulatorFound | mode/src/processing/mode/android/Devices.java:188-210 | the polling loop yields a device only as the result of a `find` in a turn where the emulator was not reported stopped, after quiet turns only |
| Acquisition.BlockingGetEmulator | mode/src/processing/mode/android/Devices.java:162-211 | a throwing first find ends the call with its exception; a first find that yields a device returns it at once; RUNNING is forced to NOT_RUNNING before the launch; LAUNCHING gives up without launching; a failed launch returns null; otherwise the result is the polling loop's |
| Acquisition.PollHardwareCancelled | mode/src/processing/mode/android/Devices.java:270-275 | an interrupt ends the hardware loop without a device |
| Acquisition.PollHardwareFirstFound | mode/src/processing/mode/android/Devices.java:270-280 | the hardware loop returns the first device a `find` yields |
| Acquisition.PollHardwareFindThrows | mode/src/processing/mode/android/Devices.java:276 | a `find` that throws in the hardware loop ends the call with that exception and no device |
| Acquisition.BlockingGetHardware | mode/src/processing/mode/android/Devices.java:265-282 | a throwing first find ends the call with its exception, one that yields a device returns it at once, otherwise the result is the hardware polling loop's |
| Acquisition.GetHardware | mode/src/processing/mode/android/Devices.java:247-251 | a live selected device is reused, otherwise `blockingGetHardware` decides the device and the exit, so a throwing `find`, an interrupt and a still-blocked search stay apart |
| TracePatterns.SpacePrefix | mode/src/processing/mode/android/AndroidRunner.java:234 | the leading `\s*` run: all white space, stopped by a non-space |
| TracePatterns.NamePrefix | mode/src/processing/mode/android/AndroidRunner.java:234 | the run of letters and dots after it, stopped by any other character |
| TracePatterns.JoinChars | mode/src/processing/mode/android/AndroidRunner.java:234 | each character of a dot-joined name is a dot or a character of a part |
| TracePatterns.DottedNameChars | mode/src/processing/mode/android/AndroidRunner.java:234 | a `[a-z]+(?:\.[a-z]+)+` name consists of letters and dots only |
| TracePatterns.MatchStartsAfterSpace | mode/src/processing/mode/android/AndroidRunner.java:234 | in a match, group 1 starts right after the leading white space |
| TracePatterns.MatchNameIsLongest | mode/src/processing/mode/android/AndroidRunner.java:234 | in a match, group 1 is the whole letter-and-dot run |
| TracePatterns.MatchIsParsed | mode/src/processing/mode/android/AndroidRunner.java:233-235 | any whole-line match is the one the scanner reports |
| TracePatterns.ParseExceptionLineCorrect | mode/src/processing/mode/android/AndroidRunner.java:233-235 | the scanner succeeds exactly when EXCEPTION_PARSER matches the line, and returns group 1 of the only match |
| TracePatterns.ColonFreeRun | mode/src/processing/mode/android/AndroidRunner.java:232 | the `[^:]` run: no colon inside, a colon or the end after it |
| TracePatterns.DigitRun | mode/src/processing/mode/android/AndroidRunner.java:232 | the `\d` run: digits inside, a non-digit or the end after it |
| TracePatterns.LocationFromRuns | mode/src/processing/mode/android/AndroidRunner.java:231-232 | a parenthesis, colon-free run, colon, digit run and closing parenthesis form a LOCATION match |
| TracePatterns.LocationTrySound | mode/src/processing/mode/android/AndroidRunner.java:231-232 | a match the attempt at a position reports is a match of LOCATION there |
| TracePatterns.LocationTryComplete | mode/src/processing/mode/android/AndroidRunner.java:231-232 | every LOCATION match at a position is the one the attempt reports, so the groups are unique |
| TracePatterns.FindLocation | mode/src/processing/mode/android/AndroidRunner.java:260-261 | `find()` reports the first position with a match, and none exactly when no position has one |
| TracePatterns.FindLocationCorrect | mode/src/processing/mode/android/AndroidRunner.java:231-232 | `find()` succeeds exactly when LOCATION occurs in the line, and reports its leftmost occurrence |
| TracePatterns.FirstLocation | mode/src/processing/mode/android/AndroidRunner.java:260-262 | when the first parenthesis of a line opens `(file:digits)`, that is the match, with those groups |
| TracePatterns.LocationAfter | mode/src/processing/mode/android/AndroidRunner.java:231-232 | a parenthesis followed by a well-formed `file:digits)` is a match at it |
| TracePatterns.DecimalValueBelow | mode/src/processing/mode/android/AndroidRunner.java:263 | at most `n` digits denote less than 10ⁿ |
| TracePatterns.ShortNumberParses | mode/src/processing/mode/android/AndroidRunner.java:263 | a line number of at most nine digits parses to its value and never throws |
| TracePatterns.ParseInt | mode/src/processing/mode/android/AndroidRunner.java:263 | `Integer.parseInt` yields the decimal value of the digits when it is within `int`, and none (NumberFormatException) exactly when it is beyond |
| LaunchRunner.AwaitDevice | mode/src/processing/mode/android/AndroidRunner.java:209-228 | the wait makes no more than 120 `get` calls |
| LaunchRunner.AwaitHalted | mode/src/processing/mode/android/AndroidRunner.java:211-214 | a halt after timeouts cancels the future and yields no device |
| LaunchRunner.AwaitExhausted | mode/src/processing/mode/android/AndroidRunner.java:210-227 | 120 timeouts report the cancel-waiting error, yield no device and make exactly 120 calls |
| LaunchRunner.AwaitGotDevice | mode/src/processing/mode/android/AndroidRunner.java:215-216 | a device comes out of the wait only as the answer of an unhalted attempt after timeouts only, with no error reported |
| LaunchRunner.AwaitGotAt | mode/src/processing/mode/android/AndroidRunner.java:210-216 | the first unhalted answer after timeouts only is the device returned, with no error and after `k + 1` calls |
| LaunchRunner.AwaitEvents | mode/src/processing/mode/android/AndroidRunner.java:209-228 | the wait only reports errors or cancels the future |
| LaunchRunner.WaitForDevice | mode/src/processing/mode/android/AndroidRunner.java:209-228 | the loop's device, events and call count are those of `AwaitDevice` |
| LaunchRunner.StartSketch | mode/src/processing/mode/android/AndroidRunner.java:196-206 | the start succeeds exactly when `launchApp` returned true; a false result and an exception both count as failure |
| LaunchRunner.LaunchTrace | mode/src/processing/mode/android/AndroidRunner.java:80-150 | the first event is the waiting notice, and a true status happens only after a successful install on a live, compatible device |
| LaunchRunner.LaunchWithoutDevice | mode/src/processing/mode/android/AndroidRunner.java:84-92 | a missing or dead device reports the lost connection, ends with an adb reset and returns false with no install and no start |
| LaunchRunner.LaunchOnWrongKind | mode/src/processing/mode/android/AndroidRunner.java:94-106 | a watch face on a non-watch or anything else on a watch returns false with the matching warning, before any install and without an adb reset |
| LaunchRunner.LaunchBindsBeforeInstall | mode/src/processing/mode/android/AndroidRunner.java:108-112 | the package name is bound to the device before `installApp` |
| LaunchRunner.LaunchInstallFails | mode/src/processing/mode/android/AndroidRunner.java:112-117 | a failed install reports the lost connection, ends with an adb reset, returns false and starts nothing |
| LaunchRunner.StartAndReportShape | mode/src/processing/mode/android/AndroidRunner.java:119-147 | the start segment: active apps get the "launching" notice first and the `launchApp` call right after it, other components the call first; no adb reset; the debugger exactly when enabled |
| LaunchRunner.LaunchTraceInstalled | mode/src/processing/mode/android/AndroidRunner.java:108-147 | after a successful install the trace is the waiting, the bind-and-install, then the start segment |
| LaunchRunner.LaunchAfterInstall | mode/src/processing/mode/android/AndroidRunner.java:119-149 | once installed, the status is `startSketch`'s, the start follows the install, there is no adb reset, the debugger starts exactly when enabled, and only active apps get the "launching" notice, posted before the start |
| LaunchRunner.AppendedSegments | mode/src/processing/mode/android/AndroidRunner.java:108-147 | the install precedes the start, the "launching" notice of an active app precedes it too, and the reset, debugger and notice appear in the whole trace exactly when they appear in the start segment |
| LaunchRunner.FrameLocation | mode/src/processing/mode/android/AndroidRunner.java:260-263 | the line-number group of a sketch frame is a non-empty digit string |
| LaunchRunner.Resolve | mode/src/processing/mode/android/AndroidRunner.java:262-266 | `placeException` gets the file and the parsed line minus one; its error is reported, or the raw exception line when it returns null; an out-of-range number throws |
| LaunchRunner.FirstFrame | mode/src/processing/mode/android/AndroidRunner.java:257-270 | the first later frame naming `processing.android` with a location, or none exactly when no frame qualifies |
| LaunchRunner.StackTrace | mode/src/processing/mode/android/AndroidRunner.java:243-271 | an unmatched first line reports an unknown exception and goes no further; otherwise the class is group 1, and the origin is none exactly when no frame qualifies, else the first qualifying frame resolved |
| LaunchRunner.NotATraceIsUnparseable | mode/src/processing/mode/android/AndroidRunner.java:247-248 | a first line of plain words does not match EXCEPTION_PARSER |
| LaunchRunner.ThreePartName | mode/src/processing/mode/android/AndroidRunner.java:234 | three letter runs joined by dots form a class name the pattern accepts |
| LaunchRunner.ExceptionLineOf | mode/src/processing/mode/android/AndroidRunner.java:233-254 | a dotted name followed by `: message` or nothing yields that name as the exception class |
| LaunchRunner.SketchFrameAt | mode/src/processing/mode/android/AndroidRunner.java:259-263 | a frame with the package marker whose first parenthesis opens `(file:digits)` qualifies, located at that file and number |
| LaunchRunner.AndroidRunner.constructor | mode/src/processing/mode/android/AndroidRunner.java:61-67 | the runner starts with no last-run device |
| LaunchRunner.AndroidRunner.Launch | mode/src/processing/mode/android/AndroidRunner.java:80-150 | status and events are those of `LaunchTrace`; `lastRunDevice` becomes the awaited device exactly when the install succeeded, whatever the start did, and is untouched otherwise |
| LaunchRunner.AndroidRunner.Close | mode/src/processing/mode/android/AndroidRunner.java:275-278 | the launcher is brought to the front on the last-run device, if there is one |

## Left out

- Concurrency and timing are not modelled:
  - the executor, `FutureTask`, the one-second `Future.get` timeout and `Thread.sleep`;
  - `ConcurrentHashMap` and `synchronized`;
  - the shutdown hook, because it only calls `Device.shutdown`.
- Interrupts and the future's answers are modelled as oracle sequences of observations. The polling loops in `Acquisition` take a finite oracle. Running out of observations is the outcome `StillPolling`, meaning the Java call has not returned yet.
- The registry iterates its map in an unspecified order. `SearchRegistry` and `CollectRegistry` pick keys arbitrarily, so their contracts hold for every order.
- The adb invocations are modelled as inputs and outputs only:
  - `sdk.runADB("devices")` is a `ProcessResult` given as input;
  - `killAdbServer`, `startAdbServer`, `forward` and `connect` are returned as commands or events.
- `startAdbServer` and `killAdbServer` themselves are left out, because they are process I/O only. The runner records a reset as the `KillAdbServer` event.
- The process result's line iteration is not part of this model. Its rows are taken to be the standard output cut at each `\n`.
- `Device.isEmulator` is not part of this model. It is taken to be "the id contains `emulator`", which is the test `find` itself uses.
- These calls are inputs, because their code is not part of this model:
  - `EmulatorController.launch`, its blocking, and `getState`: one state observation before the recovery rule, and one per polling turn;
  - `AVD.getPreferredPort` and each `find`: its outcome (a device, none, or the listing's exception) is the input;
  - `Device.initialize` (a `probe` map), `installApp`, `launchApp` and `bringLauncherToFront`.
- The selected device of `getHardware` is an input, not a field update.
- `enableBluetoothDebugging`: an exception from the forward command is modelled as `forwardThrows`. An exception from the connect command has no effect on the result, so it is not modelled.
- The debugger is not modelled: JDI attach (`connectVirtualMachine`, `getConnector`, `connect`), `vm.exit` in `close`, and `Debugger.startDebug`, which is recorded as an event only.
- GUI and messages are reduced to tags: status texts, `Messages.showWarning`, `AndroidUtil.showMessage` and console output. `Runner.handleCommonErrors` is left out; it is external code with no effect on the result. `sketchStopped` and the `DeviceListener` callbacks only forward to the listener and are left out.
- `build.placeException` is an uninterpreted function parameter. `AndroidBuild`'s component constants are not part of this model. `Component.App` stands for every component that is neither a wallpaper nor a watch face.
- `FirstFrame`'s early return for an empty trace only keeps the loop's index range well-defined; it returns what the loop would. `StackTrace` never calls it on an empty trace.
