/** The device registry of Devices.java: parsing the output of `adb devices`, the map from
    device id to device that `refresh`, `addDevice` and `deviceRemoved` keep, the lookups
    `find` and `findMultiple`, and the exactly-one-device guard of
    `enableBluetoothDebugging`. */
module DeviceRegistry {
  import opened Wrappers
  import opened Strings

  /** A device handle as known after `Device.initialize()`: its adb serial (the id), its
      display name, its feature set and whether it is still alive. */
  datatype Device = Device(id: string, name: string, features: set<string>, alive: bool)

  /** Emulators are told apart from hardware by the word "emulator" in their id. */
  predicate IsEmulator(d: Device) {
    Contains(d.id, "emulator")
  }

  /** The filter of `find`: the right class of device and, when a port is given,
      a name containing it. */
  predicate Matches(d: Device, wantEmulator: bool, port: Option<string>) {
    (port.None? || Contains(d.name, port.value)) && IsEmulator(d) == wantEmulator
  }

  /** Every entry of the registry is stored under its own id. */
  predicate KeyedById(m: map<string, Device>) {
    forall id :: id in m ==> m[id].id == id
  }

  // ---------------------------------------------------------------------------------------
  // The output of `adb devices`

  /** What `sdk.runADB("devices")` yields: it throws, or it returns a process result. */
  datatype ProcessResult = ProcessResult(succeeded: bool, stdout: string)
  datatype AdbRun = Threw | Ran(result: ProcessResult)

  /** The rows the process result iterates over: its standard output cut at every newline. */
  function Lines(r: ProcessResult): seq<string> {
    SplitOn(r.stdout, '\n')
  }

  /** The outcome of `list()`: the usable ids, or the ArrayIndexOutOfBoundsException that
      `fields[1]` raises on a row that contains a tab but splits into fewer than two fields. */
  datatype Listing = Listed(ids: seq<string>) | FieldMissing(row: string)

  /** What one row of the listing means to `list()`. */
  datatype Row = NoTab | MissingStatus | Usable(id: string) | NoPermissions | Ignored

  function Classify(line: string): Row {
    if '\t' !in line then NoTab
    else
      var fields := JavaSplit(line, '\t');
      if |fields| < 2 then MissingStatus
      else if fields[1] == "device" then Usable(fields[0])
      else if Contains(fields[1], "no permissions") then NoPermissions
      else Ignored
  }

  /** The rows `list()` walks through, or None on each path that returns the empty list
      before looking at any row: adb disabled, the command threw, the command failed, or a
      non-blank output without the "List of devices" header. */
  function RowsToScan(adbDisabled: bool, run: AdbRun): Option<seq<string>> {
    if adbDisabled then None
    else match run
      case Threw => None
      case Ran(r) =>
        if !r.succeeded then None
        else if !(Contains(r.stdout, "List of devices") || |Trim(r.stdout)| == 0) then None
        else Some(Lines(r))
  }

  function Prepend(ids: seq<string>, l: Listing): Listing {
    match l
    case Listed(rest) => Listed(ids + rest)
    case FieldMissing(row) => l
  }

  /** The ids of the usable rows, in row order; the first row without a status field aborts. */
  function ParseRows(lines: seq<string>): Listing {
    if lines == [] then Listed([])
    else
      match Classify(lines[0])
      case MissingStatus => FieldMissing(lines[0])
      case Usable(id) => Prepend([id], ParseRows(lines[1..]))
      case _ => ParseRows(lines[1..])
  }

  /** Whether a `no permissions` row is reached before any row aborts the scan. */
  function ReachesNoPermissions(lines: seq<string>): bool {
    if lines == [] then false
    else
      match Classify(lines[0])
      case MissingStatus => false
      case NoPermissions => true
      case _ => ReachesNoPermissions(lines[1..])
  }

  /** The value `list()` returns (or the exception it raises). */
  function ListOutcome(adbDisabled: bool, run: AdbRun): Listing {
    match RowsToScan(adbDisabled, run)
    case None => Listed([])
    case Some(lines) => ParseRows(lines)
  }

  /** Whether this `list()` call meets a `no permissions` row. */
  function MeetsNoPermissions(adbDisabled: bool, run: AdbRun): bool {
    match RowsToScan(adbDisabled, run)
    case None => false
    case Some(lines) => ReachesNoPermissions(lines)
  }

  /** One row of the scan: how the parse of `lines[i..]` is made of row `i` and the rest. */
  lemma ScanStep(lines: seq<string>, i: nat)
    requires i < |lines|
    ensures ParseRows(lines[i..]) == match Classify(lines[i])
      case MissingStatus => FieldMissing(lines[i])
      case Usable(id) => Prepend([id], ParseRows(lines[i + 1..]))
      case _ => ParseRows(lines[i + 1..])
    ensures ReachesNoPermissions(lines[i..]) == match Classify(lines[i])
      case MissingStatus => false
      case NoPermissions => true
      case _ => ReachesNoPermissions(lines[i + 1..])
  {
    assert lines[i..][1..] == lines[i + 1..];
  }

  lemma PrependAssoc(a: seq<string>, b: seq<string>, l: Listing)
    ensures Prepend(a, Prepend(b, l)) == Prepend(a + b, l)
  {
    if l.Listed? {
      assert a + (b + l.ids) == (a + b) + l.ids;
    }
  }

  /** What `refresh()` does to the map: each listed id that is not yet a key and whose
      device initialises (`probe` holds the initialised device of those ids) is added. */
  function Refreshed(m: map<string, Device>, ids: seq<string>, probe: map<string, Device>): map<string, Device>
    decreases ids
  {
    if ids == [] then m
    else
      var id := ids[0];
      Refreshed(if id !in m && id in probe then m[id := probe[id]] else m, ids[1..], probe)
  }

  /** `list()` returns the empty list when adb is disabled, when the command throws, when it
      did not succeed, and when its output is not blank yet lacks the header. */
  lemma ListEmptyOnEarlyExits(adbDisabled: bool, run: AdbRun)
    ensures adbDisabled ==> ListOutcome(adbDisabled, run) == Listed([])
    ensures run.Threw? ==> ListOutcome(adbDisabled, run) == Listed([])
    ensures run.Ran? && !run.result.succeeded ==> ListOutcome(adbDisabled, run) == Listed([])
    ensures run.Ran? && !Contains(run.result.stdout, "List of devices") && !IsBlank(run.result.stdout)
      ==> ListOutcome(adbDisabled, run) == Listed([]) && !MeetsNoPermissions(adbDisabled, run)
  {
    if run.Ran? {
      TrimEmptyIffBlank(run.result.stdout);
    }
  }

  /** Rows are scanned in order: the ids of `a + b` are those of `a` followed by those of
      `b`, unless a row of `a` aborts the scan first. */
  lemma {:induction false} ParseRowsAppend(a: seq<string>, b: seq<string>)
    ensures ParseRows(a + b) == match ParseRows(a)
      case Listed(ids) => Prepend(ids, ParseRows(b))
      case FieldMissing(row) => FieldMissing(row)
  {
    if a == [] {
      assert a + b == b;
    } else {
      assert (a + b)[0] == a[0];
      assert (a + b)[1..] == a[1..] + b;
      ParseRowsAppend(a[1..], b);
      if Classify(a[0]).Usable? && ParseRows(a[1..]).Listed? {
        PrependAssoc([Classify(a[0]).id], ParseRows(a[1..]).ids, ParseRows(b));
      }
    }
  }

  /** A successful scan met no row without a status field. */
  lemma {:induction false} ParsedRowsHaveStatus(lines: seq<string>)
    requires ParseRows(lines).Listed?
    ensures forall i :: 0 <= i < |lines| ==> !Classify(lines[i]).MissingStatus?
  {
    if lines != [] {
      var rest := lines[1..];
      ParsedRowsHaveStatus(rest);
      forall i | 0 < i < |lines| ensures !Classify(lines[i]).MissingStatus? {
        assert lines[i] == rest[i - 1];
      }
    }
  }

  /** A successful scan returns only ids of usable rows. */
  lemma {:induction false} ParsedIdsAreUsableRows(lines: seq<string>)
    requires ParseRows(lines).Listed?
    ensures forall k :: 0 <= k < |ParseRows(lines).ids| ==>
      exists i :: 0 <= i < |lines| && Classify(lines[i]) == Usable(ParseRows(lines).ids[k])
  {
    if lines != [] {
      var rest := lines[1..];
      ParsedIdsAreUsableRows(rest);
      var ids := ParseRows(lines).ids;
      var restIds := ParseRows(rest).ids;
      var offset := if Classify(lines[0]).Usable? then 1 else 0;
      assert ids == (if offset == 1 then [Classify(lines[0]).id] else []) + restIds;
      forall k | offset <= k < |ids|
        ensures exists i :: 0 <= i < |lines| && Classify(lines[i]) == Usable(ids[k])
      {
        assert ids[k] == restIds[k - offset];
        var j :| 0 <= j < |rest| && Classify(rest[j]) == Usable(restIds[k - offset]);
        assert lines[j + 1] == rest[j];
      }
      if offset == 1 {
        assert Classify(lines[0]) == Usable(ids[0]);
      }
    }
  }

  /** A successful scan returns the id of every usable row. */
  lemma {:induction false} UsableRowsAreParsed(lines: seq<string>)
    requires ParseRows(lines).Listed?
    ensures forall i :: 0 <= i < |lines| && Classify(lines[i]).Usable? ==>
      Classify(lines[i]).id in ParseRows(lines).ids
  {
    if lines != [] {
      var rest := lines[1..];
      UsableRowsAreParsed(rest);
      forall i | 0 < i < |lines| && Classify(lines[i]).Usable?
        ensures Classify(lines[i]).id in ParseRows(lines).ids
      {
        assert lines[i] == rest[i - 1];
      }
    }
  }

  /** A row of an id and a non-empty status is classified by its status alone. */
  lemma ClassifyStatusRow(id: string, status: string)
    requires '\t' !in id && '\t' !in status && status != ""
    ensures Classify(id + "\t" + status) ==
      if status == "device" then Usable(id)
      else if Contains(status, "no permissions") then NoPermissions
      else Ignored
  {
    assert id + "\t" + status == id + ['\t'] + status;
    SplitTwoFields(id, status, '\t');
  }

  /** `"<id>\tdevice"` is a usable row with that id. */
  lemma DeviceRowIsUsable(id: string)
    requires '\t' !in id
    ensures Classify(id + "\tdevice") == Usable(id)
  {
    ClassifyStatusRow(id, "device");
    assert id + "\t" + "device" == id + "\tdevice";
  }

  /** `"<id>\toffline"` contributes nothing. */
  lemma OfflineRowIsIgnored(id: string)
    requires '\t' !in id
    ensures Classify(id + "\toffline") == Ignored
  {
    ClassifyStatusRow(id, "offline");
    assert id + "\t" + "offline" == id + "\toffline";
    NotContainsLonger("offline", "no permissions");
  }

  /** `"<id>\t"` has no status field: `list()` raises at that row (for the empty id too,
      `"\t".split("\t")` being empty). */
  lemma TrailingTabRowAborts(id: string)
    requires '\t' !in id
    ensures Classify(id + "\t") == MissingStatus
  {
    assert id + "\t" == id + ['\t'] + "";
    SplitOnFirst(id, "", '\t');
  }

  /** Rows without a tab, or with a status other than `device` (offline, no permissions),
      give no usable id. */
  lemma {:induction false} OnlyIgnoredRowsGiveNothing(lines: seq<string>)
    requires forall i :: 0 <= i < |lines| ==> Classify(lines[i]) in {Ignored, NoTab, NoPermissions}
    ensures ParseRows(lines) == Listed([])
  {
    if lines != [] {
      assert Classify(lines[0]) in {Ignored, NoTab, NoPermissions};
      OnlyIgnoredRowsGiveNothing(lines[1..]);
    }
  }

  /** `refresh()` removes no key and replaces no entry; afterwards the keys are the old ones
      plus each listed id whose device initialised, stored as that device. */
  lemma {:induction false} RefreshedSpec(m: map<string, Device>, ids: seq<string>, probe: map<string, Device>)
    decreases ids
    ensures forall k :: k in m ==> k in Refreshed(m, ids, probe) && Refreshed(m, ids, probe)[k] == m[k]
    ensures forall k :: k in Refreshed(m, ids, probe) <==> k in m || (k in ids && k in probe)
    ensures forall k :: k in Refreshed(m, ids, probe) && k !in m ==> Refreshed(m, ids, probe)[k] == probe[k]
  {
    if ids != [] {
      var id := ids[0];
      var m' := if id !in m && id in probe then m[id := probe[id]] else m;
      RefreshedSpec(m', ids[1..], probe);
      forall k ensures k in ids <==> k == id || k in ids[1..] {
        if k in ids {
          var j :| 0 <= j < |ids| && ids[j] == k;
          if j > 0 { assert ids[1..][j - 1] == k; }
        }
      }
    }
  }

  /** Refreshing keeps the registry keyed by id when the initialised devices are. */
  lemma {:induction false} RefreshedKeyedById(m: map<string, Device>, ids: seq<string>, probe: map<string, Device>)
    requires KeyedById(m) && KeyedById(probe)
    decreases ids
    ensures KeyedById(Refreshed(m, ids, probe))
  {
    if ids != [] {
      var id := ids[0];
      RefreshedKeyedById(if id !in m && id in probe then m[id := probe[id]] else m, ids[1..], probe);
    }
  }

  /** A one-element set is the set of its element. */
  lemma SingletonSet<T>(s: set<T>, x: T)
    requires |s| == 1 && x in s
    ensures s == {x}
  {
    assert |s - {x}| == |s| - 1;
    assert s - {x} == {};
  }

  /** The ids of the registry entries of one class. */
  function MatchingIds(m: map<string, Device>, wantEmulator: bool): set<string> {
    set id | id in m && IsEmulator(m[id]) == wantEmulator
  }

  /** The loop of `find` over the registry, in the map's own (unspecified) order: a device
      that passes the filter, or None exactly when no entry passes it. */
  method SearchRegistry(m: map<string, Device>, wantEmulator: bool, port: Option<string>) returns (r: Option<Device>)
    requires KeyedById(m)
    ensures r.Some? ==> r.value.id in m && m[r.value.id] == r.value && Matches(r.value, wantEmulator, port)
    ensures r.None? <==> forall id :: id in m ==> !Matches(m[id], wantEmulator, port)
  {
    var keys := m.Keys;
    while keys != {}
      invariant keys <= m.Keys
      invariant forall id :: id in m && id !in keys ==> !Matches(m[id], wantEmulator, port)
      decreases keys
    {
      var id :| id in keys;
      var device := m[id];
      if port.None? || Contains(device.name, port.value) {
        var isEmulator := Contains(device.id, "emulator");
        if (isEmulator && wantEmulator) || (!isEmulator && !wantEmulator) {
          return Some(device);
        }
      }
      keys := keys - {id};
    }
    return None;
  }

  /** The loop of `findMultiple` over the registry: every entry of the wanted class,
      each once, and nothing else. */
  method CollectRegistry(m: map<string, Device>, wantEmulator: bool) returns (r: seq<Device>)
    requires KeyedById(m)
    ensures |r| == |MatchingIds(m, wantEmulator)|
    ensures forall i :: 0 <= i < |r| ==> r[i].id in MatchingIds(m, wantEmulator) && m[r[i].id] == r[i]
    ensures forall i, j :: 0 <= i < j < |r| ==> r[i].id != r[j].id
    ensures forall id :: id in MatchingIds(m, wantEmulator) ==> m[id] in r
  {
    r := [];
    var keys := m.Keys;
    ghost var got: set<string> := {};
    while keys != {}
      invariant keys <= m.Keys
      invariant forall id :: id in got <==> id in m && id !in keys && IsEmulator(m[id]) == wantEmulator
      invariant |r| == |got|
      invariant forall i :: 0 <= i < |r| ==> r[i].id in got && m[r[i].id] == r[i]
      invariant forall i, j :: 0 <= i < j < |r| ==> r[i].id != r[j].id
      invariant forall id :: id in got ==> m[id] in r
      decreases keys
    {
      var id :| id in keys;
      var device := m[id];
      var isEmulator := Contains(device.id, "emulator");
      if (isEmulator && wantEmulator) || (!isEmulator && !wantEmulator) {
        r := r + [device];
        got := got + {id};
      }
      keys := keys - {id};
    }
    assert got == MatchingIds(m, wantEmulator);
  }

  /** The external world one `refresh()` meets: whether adb is disabled, what `adb devices`
      yields, and which ids initialise successfully, as which device. */
  datatype Adb = Adb(disabled: bool, devicesRun: AdbRun, probe: map<string, Device>)

  /** A Java call that either returns a value or propagates the listing's exception. */
  datatype Outcome<T> = Returned(value: T) | Thrown(row: string)

  /** The adb commands the registry issues itself. */
  datatype AdbCommand = KillServer | StartServer | Forward(serial: string, local: string, remote: string) | Connect(address: string)

  const BT_DEBUG_PORT := "4444"

  class Devices {
    /** The registry proper, from id to device. */
    var devices: map<string, Device>
    /** True until the permissions warning has been shown. */
    var showPermissionsErrorMessage: bool

    ghost predicate Valid()
      reads this
    {
      KeyedById(devices)
    }

    constructor ()
      ensures Valid()
      ensures devices == map[] && showPermissionsErrorMessage
    {
      devices := map[];
      showPermissionsErrorMessage := true;
    }

    /** `list()`: the usable ids reported by `adb devices`; shows the permissions warning
        (reported in `warned`) the first time a `no permissions` row is met. */
    method List(adbDisabled: bool, run: AdbRun) returns (r: Listing, warned: bool)
      modifies this`showPermissionsErrorMessage
      ensures r == ListOutcome(adbDisabled, run)
      ensures warned == (old(showPermissionsErrorMessage) && MeetsNoPermissions(adbDisabled, run))
      ensures showPermissionsErrorMessage == (old(showPermissionsErrorMessage) && !MeetsNoPermissions(adbDisabled, run))
    {
      warned := false;
      var rows := RowsToScan(adbDisabled, run);
      if rows.None? {
        return Listed([]), false;
      }
      var lines := rows.value;
      var ids: seq<string> := [];
      ghost var met := false;
      var i := 0;
      while i < |lines|
        invariant 0 <= i <= |lines|
        invariant ParseRows(lines) == Prepend(ids, ParseRows(lines[i..]))
        invariant ReachesNoPermissions(lines) == (met || ReachesNoPermissions(lines[i..]))
        invariant showPermissionsErrorMessage == (old(showPermissionsErrorMessage) && !met)
        invariant warned == (old(showPermissionsErrorMessage) && met)
      {
        var line := lines[i];
        ScanStep(lines, i);
        if '\t' in line {
          var fields := JavaSplit(line, '\t');
          if |fields| < 2 {
            // fields[1] raises ArrayIndexOutOfBoundsException, which list() does not catch
            return FieldMissing(line), warned;
          }
          if fields[1] == "device" {
            PrependAssoc(ids, [fields[0]], ParseRows(lines[i + 1..]));
            ids := ids + [fields[0]];
          } else if Contains(fields[1], "no permissions") {
            if showPermissionsErrorMessage {
              showPermissionsErrorMessage := false;
              warned := true;
            }
            met := true;
          }
        }
        i := i + 1;
      }
      assert lines[i..] == [];
      r := Listed(ids);
    }

    /** `addDevice`: a device whose initialisation threw is not recorded; otherwise it is
        stored under its id, silently replacing a concurrently added duplicate. */
    method AddDevice(device: Device, initializeThrows: bool)
      requires Valid()
      modifies this`devices
      ensures Valid()
      ensures devices == if initializeThrows then old(devices) else old(devices)[device.id := device]
    {
      if !initializeThrows {
        devices := devices[device.id := device];
      }
    }

    /** `deviceRemoved`: the id is gone afterwards, every other entry is untouched, and
        removing an unknown id is a no-op. */
    method DeviceRemoved(device: Device)
      requires Valid()
      modifies this`devices
      ensures Valid()
      ensures devices == old(devices) - {device.id}
    {
      var id := device.id;
      if id in devices {
        devices := devices - {id};
      }
    }

    /** `refresh()`: lists the devices and adds each listed id that is not yet known;
        an exception of the listing propagates and leaves the map alone. */
    method Refresh(adb: Adb) returns (listing: Listing)
      requires Valid() && KeyedById(adb.probe)
      modifies this`devices, this`showPermissionsErrorMessage
      ensures Valid()
      ensures listing == ListOutcome(adb.disabled, adb.devicesRun)
      ensures showPermissionsErrorMessage == (old(showPermissionsErrorMessage) && !MeetsNoPermissions(adb.disabled, adb.devicesRun))
      ensures devices == if listing.Listed? then Refreshed(old(devices), listing.ids, adb.probe) else old(devices)
    {
      var warned;
      listing, warned := List(adb.disabled, adb.devicesRun);
      if listing.FieldMissing? {
        return;
      }
      var ids := listing.ids;
      var i := 0;
      while i < |ids|
        invariant 0 <= i <= |ids|
        invariant Valid()
        invariant showPermissionsErrorMessage == (old(showPermissionsErrorMessage) && !MeetsNoPermissions(adb.disabled, adb.devicesRun))
        invariant Refreshed(old(devices), ids, adb.probe) == Refreshed(devices, ids[i..], adb.probe)
      {
        var id := ids[i];
        assert ids[i..][1..] == ids[i + 1..];
        if id !in devices {
          var device := if id in adb.probe then adb.probe[id] else Device(id, "", {}, false);
          AddDevice(device, id !in adb.probe);
        }
        i := i + 1;
      }
    }

    /** `find`: refresh, then some registry entry that passes the filter, or None exactly
        when none does. */
    method Find(wantEmulator: bool, port: Option<string>, adb: Adb) returns (r: Outcome<Option<Device>>)
      requires Valid() && KeyedById(adb.probe)
      modifies this`devices, this`showPermissionsErrorMessage
      ensures Valid()
      ensures showPermissionsErrorMessage == (old(showPermissionsErrorMessage) && !MeetsNoPermissions(adb.disabled, adb.devicesRun))
      ensures devices == match ListOutcome(adb.disabled, adb.devicesRun)
        case Listed(ids) => Refreshed(old(devices), ids, adb.probe)
        case FieldMissing(_) => old(devices)
      ensures r.Thrown? <==> ListOutcome(adb.disabled, adb.devicesRun).FieldMissing?
      ensures r.Returned? && r.value.Some? ==>
        var d := r.value.value; d.id in devices && devices[d.id] == d && Matches(d, wantEmulator, port)
      ensures r.Returned? && r.value.None? ==> forall id :: id in devices ==> !Matches(devices[id], wantEmulator, port)
    {
      var listing := Refresh(adb);
      if listing.FieldMissing? {
        return Thrown(listing.row);
      }
      var found := SearchRegistry(devices, wantEmulator, port);
      return Returned(found);
    }

    /** `findMultiple`: refresh, then exactly the registry entries of the wanted class. */
    method FindMultiple(wantEmulator: bool, adb: Adb) returns (r: Outcome<seq<Device>>)
      requires Valid() && KeyedById(adb.probe)
      modifies this`devices, this`showPermissionsErrorMessage
      ensures Valid()
      ensures showPermissionsErrorMessage == (old(showPermissionsErrorMessage) && !MeetsNoPermissions(adb.disabled, adb.devicesRun))
      ensures devices == match ListOutcome(adb.disabled, adb.devicesRun)
        case Listed(ids) => Refreshed(old(devices), ids, adb.probe)
        case FieldMissing(_) => old(devices)
      ensures r.Thrown? <==> ListOutcome(adb.disabled, adb.devicesRun).FieldMissing?
      ensures r.Returned? ==> |r.value| == |MatchingIds(devices, wantEmulator)|
      ensures r.Returned? ==> forall i :: 0 <= i < |r.value| ==>
        r.value[i].id in MatchingIds(devices, wantEmulator) && devices[r.value[i].id] == r.value[i]
      ensures r.Returned? ==> forall i, j :: 0 <= i < j < |r.value| ==> r.value[i].id != r.value[j].id
      ensures r.Returned? ==> forall id :: id in MatchingIds(devices, wantEmulator) ==> devices[id] in r.value
    {
      var listing := Refresh(adb);
      if listing.FieldMissing? {
        return Thrown(listing.row);
      }
      var found := CollectRegistry(devices, wantEmulator);
      return Returned(found);
    }

    /** `enableBluetoothDebugging`: forwards the debug port of the one hardware device and
        connects to it; with no or several hardware devices it issues nothing. A failing
        forward command skips the connect. */
    method EnableBluetoothDebugging(adb: Adb, forwardThrows: bool) returns (r: Outcome<seq<AdbCommand>>)
      requires Valid() && KeyedById(adb.probe)
      modifies this`devices, this`showPermissionsErrorMessage
      ensures Valid()
      ensures showPermissionsErrorMessage == (old(showPermissionsErrorMessage) && !MeetsNoPermissions(adb.disabled, adb.devicesRun))
      ensures devices == match ListOutcome(adb.disabled, adb.devicesRun)
        case Listed(ids) => Refreshed(old(devices), ids, adb.probe)
        case FieldMissing(_) => old(devices)
      ensures r.Thrown? <==> ListOutcome(adb.disabled, adb.devicesRun).FieldMissing?
      ensures r.Returned? && |MatchingIds(devices, false)| != 1 ==> r.value == []
      ensures r.Returned? && |MatchingIds(devices, false)| == 1 ==>
        exists id :: MatchingIds(devices, false) == {id} &&
          r.value == [Forward(id, "tcp:" + BT_DEBUG_PORT, "localabstract:/adb-hub")] +
                     (if forwardThrows then [] else [Connect("127.0.0.1:" + BT_DEBUG_PORT)])
    {
      var deviceList := FindMultiple(false, adb);
      if deviceList.Thrown? {
        return Thrown(deviceList.row);
      }
      if |deviceList.value| != 1 {
        return Returned([]);
      }
      var device := deviceList.value[0];
      var issued := [Forward(device.id, "tcp:" + BT_DEBUG_PORT, "localabstract:/adb-hub")];
      if !forwardThrows {
        issued := issued + [Connect("127.0.0.1:" + BT_DEBUG_PORT)];
      }
      assert device.id in MatchingIds(devices, false);
      SingletonSet(MatchingIds(devices, false), device.id);
      return Returned(issued);
    }
  }
}
