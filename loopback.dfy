/** The loopback drive manager (pkg/drivemgr/loopbackmgr): a registry of
    emulated drives, each backed by an image file attached as a loop device,
    made to converge to a configuration of default and per-node settings,
    rebuilt from the image directory after a restart, and torn down on
    cleanup. External commands go through an executor that is a parameter of
    the manager; a ghost log records every command the manager issues. */
module LoopBackMgr {
  import opened Seqs

  /** One emulated drive. The same record is used for the per-drive entries
      of a node's configuration, where an empty `vendorId` or `size` means
      "not overridden". */
  datatype LoopBackDevice = LoopBackDevice(serialNumber: string, vendorId: string, size: string,
                                           removed: bool, devicePath: string, fileName: string)

  /** The configuration entry of one node. */
  datatype Node = Node(nodeId: string, driveCount: int, drives: seq<LoopBackDevice>)

  datatype Config = Config(defaultDriveCount: int, defaultDriveSize: string, nodes: seq<Node>)

  /** The three external commands the manager runs, each templated with one
      path; the templates' text is not part of this model. */
  datatype Command =
    | CheckLoopBackDevice(file: string)
    | DetachLoopBackDevice(devicePath: string)
    | DeleteFile(path: string)

  /** What the executor returns for a command: its output streams and an
      execution error, if any. */
  datatype ExecResult = ExecResult(stdout: string, stderr: string, err: Option<string>)

  /** Built-in defaults. The file that defines them is not part of this
      model, so the values are stand-ins; only the lemma about the initial
      registry uses the count's value. */
  const DefaultNumberOfDevices: int := 3
  const DefaultVendorID: string := "LOOPBACK"
  const DefaultSize: string := "100Mi"

  /** Recovered and generated serial numbers start with this prefix. */
  const SerialPrefix: string := "LOOPBACK"
  const ImageSuffix: string := ".img"

  function Serial(d: LoopBackDevice): string { d.serialNumber }

  // ---------------------------------------------------------------------
  // Parsing the output of the "check attachment" command

  /** "]: (" starts at position `k` of `t`. */
  predicate MarkerAt(t: string, k: int)
  {
    0 <= k && k + 4 <= |t| && t[k..k + 4] == "]: ("
  }

  /** What follows the device path in a line "<dev>: [...]: (<file>)". */
  predicate AttachTail(t: string)
  {
    && 8 <= |t| && t[..3] == ": [" && t[|t| - 1] == ')'
    && exists k :: 3 <= k <= |t| - 5 && MarkerAt(t, k)
  }

  /** The device path of a line of the shape "<dev>: [...]: (<file>)": the
      text before the first ':'. A line of any other shape, the empty line
      included, names no device (""). */
  function DeviceNameOfLine(line: string): (r: string)
    ensures |r| <= |line| && r == line[..|r|]
    ensures forall i :: 0 <= i < |r| ==> r[i] != ':'
    ensures r != "" ==> |r| < |line| && AttachTail(line[|r|..])
    ensures forall i ::
              (0 <= i < |line| && line[i] == ':' && (forall j :: 0 <= j < i ==> line[j] != ':')
               && AttachTail(line[i..])) ==> r == line[..i]
  {
    match FindFirst(line, (c: char) => c == ':')
    case None => ""
    case Some(i) => if AttachTail(line[i..]) then line[..i] else ""
  }

  /** The parser recovers the device path from the line it describes. */
  lemma {:induction false} DeviceNameRoundTrip(dev: string, mid: string, file: string)
    requires forall i :: 0 <= i < |dev| ==> dev[i] != ':'
    ensures DeviceNameOfLine(dev + ": [" + mid + "]: (" + file + ")") == dev
  {
    var tail := ": [" + mid + "]: (" + file + ")";
    var line := dev + tail;
    assert dev + ": [" + mid + "]: (" + file + ")" == line;
    assert line[|dev|..] == tail;
    assert tail[..3] == ": [";
    assert tail[3 + |mid|..3 + |mid| + 4] == "]: (";
    assert MarkerAt(tail, 3 + |mid|);
    assert line[..|dev|] == dev;
  }

  /** No character of `s` is a line break. */
  predicate OneLine(s: string)
  {
    forall i :: 0 <= i < |s| ==> s[i] != '\n'
  }

  /** The lines of `s`, split at each line break; a trailing line break
      leaves an empty last line. */
  function Lines(s: string): (ls: seq<string>)
    ensures 1 <= |ls|
    ensures forall k :: 0 <= k < |ls| ==> OneLine(ls[k])
    decreases |s|
  {
    match FindFirst(s, (c: char) => c == '\n')
    case None => [s]
    case Some(n) => [s[..n]] + Lines(s[n + 1..])
  }

  /** The lines `ls` put back together with a line break between each two. */
  function JoinLines(ls: seq<string>): string
    requires 1 <= |ls|
  {
    if |ls| == 1 then ls[0] else ls[0] + "\n" + JoinLines(ls[1..])
  }

  /** A text without line breaks is one line. */
  lemma LinesOne(s: string)
    requires OneLine(s)
    ensures Lines(s) == [s]
  {
  }

  /** The first line of a text ends at its first line break. */
  lemma LinesCons(line: string, rest: string)
    requires OneLine(line)
    ensures Lines(line + "\n" + rest) == [line] + Lines(rest)
  {
    var s := line + "\n" + rest;
    assert s[|line|] == '\n';
    assert s[..|line|] == line;
    assert s[|line| + 1..] == rest;
  }

  /** Splitting then joining gives back the text. */
  lemma {:induction false} JoinLinesOfLines(s: string)
    ensures JoinLines(Lines(s)) == s
    decreases |s|
  {
    var f := FindFirst(s, (c: char) => c == '\n');
    if f.None? {
      LinesOne(s);
    } else {
      var n := f.value;
      var line, rest := s[..n], s[n + 1..];
      assert OneLine(line);
      assert s == line + "\n" + rest;
      LinesCons(line, rest);
      JoinLinesOfLines(rest);
      assert ([line] + Lines(rest))[1..] == Lines(rest);
    }
  }

  /** Joining lines without line breaks then splitting gives back the lines. */
  lemma {:induction false} LinesOfJoinLines(ls: seq<string>)
    requires 1 <= |ls|
    requires forall k :: 0 <= k < |ls| ==> OneLine(ls[k])
    ensures Lines(JoinLines(ls)) == ls
  {
    if |ls| == 1 {
      LinesOne(ls[0]);
    } else {
      LinesOfJoinLines(ls[1..]);
      LinesCons(ls[0], JoinLines(ls[1..]));
      assert [ls[0]] + ls[1..] == ls;
    }
  }

  /** No line of `ls` names a device. */
  predicate NoDevice(ls: seq<string>)
  {
    forall k :: 0 <= k < |ls| ==> DeviceNameOfLine(ls[k]) == ""
  }

  /** Line `k` of `ls` is the first one to name a device. */
  predicate FirstDeviceAt(ls: seq<string>, k: int)
  {
    && 0 <= k < |ls| && DeviceNameOfLine(ls[k]) != ""
    && forall j :: 0 <= j < k ==> DeviceNameOfLine(ls[j]) == ""
  }

  /** The device path the "check attachment" command reports: that of the
      first line of its output of the shape "<dev>: [...]: (<file>)", or ""
      when no line has that shape. */
  function DeviceNameFromOutput(out: string): (r: string)
    ensures r == "" <==> NoDevice(Lines(out))
    ensures r != "" ==> exists k :: FirstDeviceAt(Lines(out), k) && r == DeviceNameOfLine(Lines(out)[k])
    ensures forall k :: FirstDeviceAt(Lines(out), k) ==> r == DeviceNameOfLine(Lines(out)[k])
  {
    var ls := Lines(out);
    match FindFirst(ls, (l: string) => DeviceNameOfLine(l) != "")
    case None => ""
    case Some(k) => DeviceNameOfLine(ls[k])
  }

  /** The output is read line by line: a first line naming a device decides,
      any other first line is skipped. */
  lemma OutputLineByLine(line: string, rest: string)
    requires OneLine(line)
    ensures DeviceNameFromOutput(line + "\n" + rest)
            == if DeviceNameOfLine(line) != "" then DeviceNameOfLine(line) else DeviceNameFromOutput(rest)
  {
    if DeviceNameOfLine(line) != "" {
      OutputFirstLineDecides(line, rest);
    } else {
      OutputSkipsLine(line, rest);
    }
  }

  /** The first case of OutputLineByLine. */
  lemma OutputFirstLineDecides(line: string, rest: string)
    requires OneLine(line) && DeviceNameOfLine(line) != ""
    ensures DeviceNameFromOutput(line + "\n" + rest) == DeviceNameOfLine(line)
  {
    LinesCons(line, rest);
    var ls := Lines(line + "\n" + rest);
    assert ls[0] == line;
    assert FirstDeviceAt(ls, 0);
  }

  /** The second case of OutputLineByLine. */
  lemma OutputSkipsLine(line: string, rest: string)
    requires OneLine(line) && DeviceNameOfLine(line) == ""
    ensures DeviceNameFromOutput(line + "\n" + rest) == DeviceNameFromOutput(rest)
  {
    LinesCons(line, rest);
    var ls := Lines(line + "\n" + rest);
    var tl := Lines(rest);
    assert ls == [line] + tl;
    var r := DeviceNameFromOutput(rest);
    if r != "" {
      var k :| FirstDeviceAt(tl, k) && r == DeviceNameOfLine(tl[k]);
      assert ls[k + 1] == tl[k];
      forall j | 0 <= j < k + 1 ensures DeviceNameOfLine(ls[j]) == "" {
        if j > 0 { assert ls[j] == tl[j - 1]; }
      }
      assert FirstDeviceAt(ls, k + 1);
    } else {
      forall j | 0 <= j < |ls| ensures DeviceNameOfLine(ls[j]) == "" {
        if j > 0 { assert ls[j] == tl[j - 1]; }
      }
      assert NoDevice(ls);
    }
  }

  /** An output made of one line reads as that line. */
  lemma OutputOneLine(line: string)
    requires OneLine(line)
    ensures DeviceNameFromOutput(line) == DeviceNameOfLine(line)
  {
    LinesOne(line);
  }

  /** The device path is recovered from the line describing it when that
      line is the whole output, and a non-empty one also when the line is
      followed by a line break and more. */
  lemma OutputRoundTrip(dev: string, mid: string, file: string, rest: string)
    requires forall i :: 0 <= i < |dev| ==> dev[i] != ':'
    requires OneLine(dev + ": [" + mid + "]: (" + file + ")")
    ensures DeviceNameFromOutput(dev + ": [" + mid + "]: (" + file + ")") == dev
    ensures dev != "" ==> DeviceNameFromOutput(dev + ": [" + mid + "]: (" + file + ")" + "\n" + rest) == dev
  {
    var line := dev + ": [" + mid + "]: (" + file + ")";
    DeviceNameRoundTrip(dev, mid, file);
    OutputOneLine(line);
    OutputLineByLine(line, rest);
  }

  // ---------------------------------------------------------------------
  // Fresh serial numbers

  /** The length of the longest string in `used`. */
  function MaxLen(used: seq<string>): (m: nat)
    ensures forall i :: 0 <= i < |used| ==> |used[i]| <= m
  {
    if used == [] then 0
    else
      var t := MaxLen(used[1..]);
      assert forall i :: 1 <= i < |used| ==> used[i] == used[1..][i - 1];
      if |used[0]| > t then |used[0]| else t
  }

  function Zeros(n: nat): (r: string)
    ensures |r| == n
  {
    if n == 0 then "" else "0" + Zeros(n - 1)
  }

  /** A serial number that is none of `used` (longer than all of them). How
      the manager really picks serial numbers is not part of this model; only
      their freshness is. */
  function FreshSerial(used: seq<string>): (r: string)
    ensures forall i :: 0 <= i < |used| ==> used[i] != r
  {
    SerialPrefix + Zeros(MaxLen(used))
  }

  function Serials(ds: seq<LoopBackDevice>): (r: seq<string>)
    ensures |r| == |ds| && forall i :: 0 <= i < |ds| ==> r[i] == ds[i].serialNumber
  {
    seq(|ds|, i requires 0 <= i < |ds| => ds[i].serialNumber)
  }

  predicate HasSerial(ds: seq<LoopBackDevice>, sn: string)
  {
    exists i :: 0 <= i < |ds| && ds[i].serialNumber == sn
  }

  // ---------------------------------------------------------------------
  // Convergence of the registry to a node's settings

  /** The first per-drive override for serial `sn`, if any. */
  function OverrideFor(sn: string, ovs: seq<LoopBackDevice>): (r: Option<LoopBackDevice>)
    ensures r.Some? ==> exists k :: 0 <= k < |ovs| && ovs[k] == r.value && r.value.serialNumber == sn
                                  && forall j :: 0 <= j < k ==> ovs[j].serialNumber != sn
    ensures r.None? <==> forall j :: 0 <= j < |ovs| ==> ovs[j].serialNumber != sn
  {
    match FindFirst(ovs, (o: LoopBackDevice) => o.serialNumber == sn)
    case None => None
    case Some(k) => Some(ovs[k])
  }

  /** The override found is the first entry with that serial. */
  lemma OverrideForFirst(ovs: seq<LoopBackDevice>, k: nat)
    requires k < |ovs|
    requires forall j :: 0 <= j < k ==> ovs[j].serialNumber != ovs[k].serialNumber
    ensures OverrideFor(ovs[k].serialNumber, ovs) == Some(ovs[k])
  {
    var r := OverrideFor(ovs[k].serialNumber, ovs);
    var m :| 0 <= m < |ovs| && ovs[m] == r.value && r.value.serialNumber == ovs[k].serialNumber
             && forall j :: 0 <= j < m ==> ovs[j].serialNumber != ovs[k].serialNumber;
    if m < k {
    } else if m > k {
    }
  }

  /** The vendor a device takes: the override's when it sets one, else the
      built-in vendor. */
  function ChosenVendor(ov: Option<LoopBackDevice>): string
  {
    if ov.Some? && ov.value.vendorId != "" then ov.value.vendorId else DefaultVendorID
  }

  /** The size a device takes: the override's when it sets one, else the
      configured default size when there is one, else the built-in size. */
  function ChosenSize(ov: Option<LoopBackDevice>, defaultSize: string): string
  {
    if ov.Some? && ov.value.size != "" then ov.value.size
    else if defaultSize != "" then defaultSize
    else DefaultSize
  }

  function TargetSize(d: LoopBackDevice, ovs: seq<LoopBackDevice>, defaultSize: string): string
  {
    ChosenSize(OverrideFor(d.serialNumber, ovs), defaultSize)
  }

  /** An existing device brought to its settings: the vendor is set in place;
      a new size means the old attachment and backing file are gone, so the
      device path is cleared until the device is materialised again. */
  function Converge(d: LoopBackDevice, ovs: seq<LoopBackDevice>, defaultSize: string): LoopBackDevice
  {
    var ov := OverrideFor(d.serialNumber, ovs);
    var size := ChosenSize(ov, defaultSize);
    var v := d.(vendorId := ChosenVendor(ov));
    if size == d.size then v else v.(size := size, devicePath := "")
  }

  /** The commands a size change costs: detach the current loop device, then
      delete the current backing file. */
  function Teardown(d: LoopBackDevice, ovs: seq<LoopBackDevice>, defaultSize: string): seq<Command>
  {
    if TargetSize(d, ovs, defaultSize) == d.size then []
    else [DetachLoopBackDevice(d.devicePath), DeleteFile(d.fileName)]
  }

  /** A device that a convergence pass leaves alone. */
  predicate Settled(d: LoopBackDevice, ovs: seq<LoopBackDevice>, defaultSize: string)
  {
    Converge(d, ovs, defaultSize) == d && Teardown(d, ovs, defaultSize) == []
  }

  ghost predicate AllSettled(ds: seq<LoopBackDevice>, ovs: seq<LoopBackDevice>, defaultSize: string)
  {
    forall i :: 0 <= i < |ds| ==> Settled(ds[i], ovs, defaultSize)
  }

  ghost predicate AllOverridesPresent(ds: seq<LoopBackDevice>, ovs: seq<LoopBackDevice>)
  {
    forall j :: 0 <= j < |ovs| ==> HasSerial(ds, ovs[j].serialNumber)
  }

  /** The first `k` overrides all have a device in the registry. */
  ghost predicate PresentBefore(ds: seq<LoopBackDevice>, ovs: seq<LoopBackDevice>, k: nat)
    requires k <= |ovs|
  {
    forall j :: 0 <= j < k ==> HasSerial(ds, ovs[j].serialNumber)
  }

  /** Override `k` present as well extends PresentBefore by one. */
  lemma PresentStep(ds: seq<LoopBackDevice>, ovs: seq<LoopBackDevice>, k: nat)
    requires k < |ovs| && PresentBefore(ds, ovs, k) && HasSerial(ds, ovs[k].serialNumber)
    ensures PresentBefore(ds, ovs, k + 1)
  {
  }

  /** A device created for an override that is not yet in the registry. */
  function NewFromOverride(o: LoopBackDevice, defaultSize: string): LoopBackDevice
  {
    LoopBackDevice(o.serialNumber, ChosenVendor(Some(o)),
                   ChosenSize(Some(o), defaultSize), false, "", "")
  }

  /** A device with default attributes and a serial number new to `ds`. */
  function FreshDevice(ds: seq<LoopBackDevice>, defaultSize: string): LoopBackDevice
  {
    LoopBackDevice(FreshSerial(Serials(ds)), DefaultVendorID,
                   ChosenSize(None, defaultSize), false, "", "")
  }

  function ConvergeAll(ds: seq<LoopBackDevice>, ovs: seq<LoopBackDevice>, defaultSize: string): seq<LoopBackDevice>
  {
    seq(|ds|, i requires 0 <= i < |ds| => Converge(ds[i], ovs, defaultSize))
  }

  /** The commands of a convergence pass over `ds`, device by device. */
  function TeardownAll(ds: seq<LoopBackDevice>, ovs: seq<LoopBackDevice>, defaultSize: string): seq<Command>
  {
    if ds == [] then []
    else TeardownAll(ds[..|ds| - 1], ovs, defaultSize) + Teardown(ds[|ds| - 1], ovs, defaultSize)
  }

  /** Converging device `i` of "converged prefix + rest" extends the prefix. */
  lemma ConvergeStep(ds: seq<LoopBackDevice>, i: nat, ovs: seq<LoopBackDevice>, defaultSize: string)
    requires i < |ds|
    ensures var cur := ConvergeAll(ds[..i], ovs, defaultSize) + ds[i..];
            && i < |cur| && cur[i] == ds[i]
            && cur[i := Converge(ds[i], ovs, defaultSize)] == ConvergeAll(ds[..i + 1], ovs, defaultSize) + ds[i + 1..]
  {
    var cur := ConvergeAll(ds[..i], ovs, defaultSize) + ds[i..];
    assert cur[i] == ds[i..][0];
    var next := ConvergeAll(ds[..i + 1], ovs, defaultSize) + ds[i + 1..];
    assert |cur| == |next|;
    forall j | 0 <= j < |cur| ensures cur[i := Converge(ds[i], ovs, defaultSize)][j] == next[j] {
      if j < i {
        assert ds[..i][j] == ds[..i + 1][j];
      } else if j > i {
        assert ds[i..][j - i] == ds[i + 1..][j - i - 1];
      }
    }
  }

  /** One more device of a convergence pass. */
  lemma TeardownAllStep(ds: seq<LoopBackDevice>, i: nat, ovs: seq<LoopBackDevice>, defaultSize: string)
    requires i < |ds|
    ensures TeardownAll(ds[..i + 1], ovs, defaultSize) == TeardownAll(ds[..i], ovs, defaultSize) + Teardown(ds[i], ovs, defaultSize)
  {
    assert ds[..i + 1][..i] == ds[..i];
  }

  /** Appends a device for every override from position `k` on whose serial
      is not yet in the registry. */
  function AddMissing(ds: seq<LoopBackDevice>, ovs: seq<LoopBackDevice>, k: nat, defaultSize: string): seq<LoopBackDevice>
    decreases |ovs| - k
  {
    if k >= |ovs| then ds
    else if HasSerial(ds, ovs[k].serialNumber) then AddMissing(ds, ovs, k + 1, defaultSize)
    else AddMissing(ds + [NewFromOverride(ovs[k], defaultSize)], ovs, k + 1, defaultSize)
  }

  /** Appends fresh default devices until there are `count`. */
  function Grow(ds: seq<LoopBackDevice>, count: int, defaultSize: string): seq<LoopBackDevice>
    decreases count - |ds|
  {
    if |ds| >= count then ds
    else Grow(ds + [FreshDevice(ds, defaultSize)], count, defaultSize)
  }

  /** The registry after one convergence pass towards `count` devices, the
      per-drive overrides `ovs` and the default size. */
  function Reconcile(ds: seq<LoopBackDevice>, count: int, ovs: seq<LoopBackDevice>, defaultSize: string): seq<LoopBackDevice>
  {
    Grow(AddMissing(ConvergeAll(ds, ovs, defaultSize), ovs, 0, defaultSize), count, defaultSize)
  }

  // ---------------------------------------------------------------------
  // Properties of a convergence pass

  /** Converging a device settles it. */
  lemma ConvergeSettles(d: LoopBackDevice, ovs: seq<LoopBackDevice>, defaultSize: string)
    ensures Settled(Converge(d, ovs, defaultSize), ovs, defaultSize)
  {
  }

  /** A device created for the first override of its serial is settled. */
  lemma NewFromOverrideSettled(o: LoopBackDevice, ovs: seq<LoopBackDevice>, defaultSize: string)
    requires OverrideFor(o.serialNumber, ovs) == Some(o)
    ensures Settled(NewFromOverride(o, defaultSize), ovs, defaultSize)
  {
  }

  /** A fresh device's serial is new to the registry. */
  lemma FreshIsNew(ds: seq<LoopBackDevice>, defaultSize: string)
    ensures !HasSerial(ds, FreshDevice(ds, defaultSize).serialNumber)
  {
    var f := FreshDevice(ds, defaultSize);
    forall i | 0 <= i < |ds| ensures ds[i].serialNumber != f.serialNumber {
      assert Serials(ds)[i] == ds[i].serialNumber;
    }
  }

  /** A fresh device is settled once every override is in the registry: no
      override names its serial. */
  lemma FreshSettled(ds: seq<LoopBackDevice>, ovs: seq<LoopBackDevice>, defaultSize: string)
    requires AllOverridesPresent(ds, ovs)
    ensures Settled(FreshDevice(ds, defaultSize), ovs, defaultSize)
  {
    var f := FreshDevice(ds, defaultSize);
    forall j | 0 <= j < |ovs| ensures ovs[j].serialNumber != f.serialNumber {
      var i :| 0 <= i < |ds| && ds[i].serialNumber == ovs[j].serialNumber;
      assert Serials(ds)[i] == ds[i].serialNumber;
    }
    assert OverrideFor(f.serialNumber, ovs).None?;
  }

  /** Adding the missing overrides keeps the registry as a prefix, adds at
      most one device per override, leaves every override's serial in the
      registry, and adds nothing when every remaining override is already
      present. */
  lemma {:induction false} AddMissingSpec(ds: seq<LoopBackDevice>, ovs: seq<LoopBackDevice>, k: nat, defaultSize: string)
    requires k <= |ovs|
    requires PresentBefore(ds, ovs, k)
    ensures var r := AddMissing(ds, ovs, k, defaultSize);
            && |ds| <= |r| <= |ds| + (|ovs| - k)
            && r[..|ds|] == ds
            && AllOverridesPresent(r, ovs)
            && ((forall j :: k <= j < |ovs| ==> HasSerial(ds, ovs[j].serialNumber)) ==> r == ds)
    decreases |ovs| - k
  {
    if k == |ovs| {
      assert ds[..|ds|] == ds;
    } else {
      var o := ovs[k];
      if HasSerial(ds, o.serialNumber) {
        PresentStep(ds, ovs, k);
        AddMissingSpec(ds, ovs, k + 1, defaultSize);
      } else {
        var ds' := ds + [NewFromOverride(o, defaultSize)];
        AddedKeepsPresent(ds, ovs, k, defaultSize);
        AddMissingSpec(ds', ovs, k + 1, defaultSize);
        var r := AddMissing(ds', ovs, k + 1, defaultSize);
        assert r[..|ds|] == r[..|ds'|][..|ds|];
      }
    }
  }

  /** Appending the device for override `k` keeps overrides 0..k present. */
  lemma AddedKeepsPresent(ds: seq<LoopBackDevice>, ovs: seq<LoopBackDevice>, k: nat, defaultSize: string)
    requires k < |ovs|
    requires PresentBefore(ds, ovs, k)
    ensures PresentBefore(ds + [NewFromOverride(ovs[k], defaultSize)], ovs, k + 1)
  {
    var ds' := ds + [NewFromOverride(ovs[k], defaultSize)];
    assert ds'[|ds|].serialNumber == ovs[k].serialNumber;
    forall j | 0 <= j < k ensures HasSerial(ds', ovs[j].serialNumber) {
      var i :| 0 <= i < |ds| && ds[i].serialNumber == ovs[j].serialNumber;
      assert ds'[i] == ds[i];
    }
  }

  /** An override missing from a registry that holds every earlier one is
      the first override with its serial. */
  lemma MissingIsFirst(ds: seq<LoopBackDevice>, ovs: seq<LoopBackDevice>, k: nat)
    requires k < |ovs|
    requires PresentBefore(ds, ovs, k)
    requires !HasSerial(ds, ovs[k].serialNumber)
    ensures OverrideFor(ovs[k].serialNumber, ovs) == Some(ovs[k])
  {
    assert forall j :: 0 <= j < k ==> ovs[j].serialNumber != ovs[k].serialNumber;
    OverrideForFirst(ovs, k);
  }

  /** Appending a settled device keeps a registry settled. */
  lemma SettledAppend(ds: seq<LoopBackDevice>, d: LoopBackDevice, ovs: seq<LoopBackDevice>, defaultSize: string)
    requires AllSettled(ds, ovs, defaultSize) && Settled(d, ovs, defaultSize)
    ensures AllSettled(ds + [d], ovs, defaultSize)
  {
    var ds' := ds + [d];
    forall i | 0 <= i < |ds'| ensures Settled(ds'[i], ovs, defaultSize) {
      if i < |ds| {
        assert ds'[i] == ds[i];
      }
    }
  }

  /** The devices added for missing overrides are settled. */
  lemma {:induction false} AddMissingSettled(ds: seq<LoopBackDevice>, ovs: seq<LoopBackDevice>, k: nat, defaultSize: string)
    requires k <= |ovs|
    requires PresentBefore(ds, ovs, k)
    requires AllSettled(ds, ovs, defaultSize)
    ensures AllSettled(AddMissing(ds, ovs, k, defaultSize), ovs, defaultSize)
    decreases |ovs| - k
  {
    if k < |ovs| {
      var o := ovs[k];
      if HasSerial(ds, o.serialNumber) {
        PresentStep(ds, ovs, k);
        AddMissingSettled(ds, ovs, k + 1, defaultSize);
      } else {
        var n := NewFromOverride(o, defaultSize);
        AddedKeepsPresent(ds, ovs, k, defaultSize);
        MissingIsFirst(ds, ovs, k);
        NewFromOverrideSettled(o, ovs, defaultSize);
        SettledAppend(ds, n, ovs, defaultSize);
        AddMissingSettled(ds + [n], ovs, k + 1, defaultSize);
      }
    }
  }

  /** Growing keeps the registry as a prefix and reaches `count` devices
      exactly, or keeps a longer registry as it is. */
  lemma {:induction false} GrowSpec(ds: seq<LoopBackDevice>, count: int, defaultSize: string)
    ensures var r := Grow(ds, count, defaultSize);
            && |r| == (if |ds| >= count then |ds| else count)
            && r[..|ds|] == ds
    decreases count - |ds|
  {
    if |ds| >= count {
      assert ds[..|ds|] == ds;
    } else {
      var ds' := ds + [FreshDevice(ds, defaultSize)];
      GrowSpec(ds', count, defaultSize);
      var r := Grow(ds', count, defaultSize);
      assert r[..|ds|] == r[..|ds'|][..|ds|];
    }
  }

  /** Once every override is present, growing keeps them present and adds
      only settled devices. */
  lemma {:induction false} GrowSettled(ds: seq<LoopBackDevice>, count: int, ovs: seq<LoopBackDevice>, defaultSize: string)
    requires AllOverridesPresent(ds, ovs)
    ensures AllOverridesPresent(Grow(ds, count, defaultSize), ovs)
    ensures AllSettled(ds, ovs, defaultSize) ==> AllSettled(Grow(ds, count, defaultSize), ovs, defaultSize)
    decreases count - |ds|
  {
    if |ds| < count {
      var f := FreshDevice(ds, defaultSize);
      var ds' := ds + [f];
      FreshSettled(ds, ovs, defaultSize);
      forall j | 0 <= j < |ovs| ensures HasSerial(ds', ovs[j].serialNumber) {
        var i :| 0 <= i < |ds| && ds[i].serialNumber == ovs[j].serialNumber;
        assert ds'[i] == ds[i];
      }
      if AllSettled(ds, ovs, defaultSize) {
        SettledAppend(ds, f, ovs, defaultSize);
      }
      GrowSettled(ds', count, ovs, defaultSize);
    }
  }

  /** A registry whose devices are all settled is a fixed point of the
      per-device pass, and the pass issues no command on it. */
  lemma {:induction false} SettledFixed(ds: seq<LoopBackDevice>, ovs: seq<LoopBackDevice>, defaultSize: string)
    requires AllSettled(ds, ovs, defaultSize)
    ensures ConvergeAll(ds, ovs, defaultSize) == ds
    ensures TeardownAll(ds, ovs, defaultSize) == []
  {
    if ds != [] {
      var init := ds[..|ds| - 1];
      assert forall i :: 0 <= i < |init| ==> init[i] == ds[i];
      SettledFixed(init, ovs, defaultSize);
    }
  }

  /** After a pass every device is settled, every override's serial is in
      the registry, the devices that were there keep their positions, and
      the length is at least `count` and at most what the overrides and
      `count` call for. */
  lemma ReconcileSpec(ds: seq<LoopBackDevice>, count: int, ovs: seq<LoopBackDevice>, defaultSize: string)
    ensures var r := Reconcile(ds, count, ovs, defaultSize);
            && AllSettled(r, ovs, defaultSize)
            && AllOverridesPresent(r, ovs)
            && |r| >= count && |r| >= |ds|
            && (|r| == count || |r| <= |ds| + |ovs|)
            && r[..|ds|] == ConvergeAll(ds, ovs, defaultSize)
  {
    var c := ConvergeAll(ds, ovs, defaultSize);
    forall i | 0 <= i < |c| ensures Settled(c[i], ovs, defaultSize) {
      ConvergeSettles(ds[i], ovs, defaultSize);
    }
    AddMissingSpec(c, ovs, 0, defaultSize);
    AddMissingSettled(c, ovs, 0, defaultSize);
    var a := AddMissing(c, ovs, 0, defaultSize);
    GrowSpec(a, count, defaultSize);
    GrowSettled(a, count, ovs, defaultSize);
    var r := Grow(a, count, defaultSize);
    assert r[..|ds|] == r[..|a|][..|ds|];
  }

  /** Convergence is idempotent: a second pass with the same settings issues
      no command and changes nothing. */
  lemma ReconcileIdempotent(ds: seq<LoopBackDevice>, count: int, ovs: seq<LoopBackDevice>, defaultSize: string)
    ensures var r := Reconcile(ds, count, ovs, defaultSize);
            && TeardownAll(r, ovs, defaultSize) == []
            && Reconcile(r, count, ovs, defaultSize) == r
  {
    ReconcileSpec(ds, count, ovs, defaultSize);
    var r := Reconcile(ds, count, ovs, defaultSize);
    SettledFixed(r, ovs, defaultSize);
    AddMissingSpec(r, ovs, 0, defaultSize);
  }

  /** A settled device has the size and vendor its settings call for. */
  lemma SettledTargets(d: LoopBackDevice, ovs: seq<LoopBackDevice>, defaultSize: string)
    requires Settled(d, ovs, defaultSize)
    ensures var ov := OverrideFor(d.serialNumber, ovs);
            && (ov.Some? && ov.value.size != "" ==> d.size == ov.value.size)
            && (!(ov.Some? && ov.value.size != "") && defaultSize != "" ==> d.size == defaultSize)
            && (!(ov.Some? && ov.value.size != "") && defaultSize == "" ==> d.size == DefaultSize)
            && (ov.Some? && ov.value.vendorId != "" ==> d.vendorId == ov.value.vendorId)
            && (!(ov.Some? && ov.value.vendorId != "") ==> d.vendorId == DefaultVendorID)
  {
  }

  /** A pass issues no command iff every device is already at its target
      size. */
  lemma {:induction false} TeardownAllNone(ds: seq<LoopBackDevice>, ovs: seq<LoopBackDevice>, defaultSize: string)
    ensures TeardownAll(ds, ovs, defaultSize) == []
            <==> forall i :: 0 <= i < |ds| ==> TargetSize(ds[i], ovs, defaultSize) == ds[i].size
  {
    if ds != [] {
      var init := ds[..|ds| - 1];
      TeardownAllNone(init, ovs, defaultSize);
      assert forall i :: 0 <= i < |init| ==> init[i] == ds[i];
    }
  }

  /** Command `c` is a detach or a delete of device `d`, whose size changes,
      against its current loop device or backing file. */
  predicate TornDown(c: Command, d: LoopBackDevice, ovs: seq<LoopBackDevice>, defaultSize: string)
  {
    TargetSize(d, ovs, defaultSize) != d.size
    && (c == DetachLoopBackDevice(d.devicePath) || c == DeleteFile(d.fileName))
  }

  /** Every command of a pass is a detach or a delete of a device whose size
      changes, against that device's current loop device and backing file. */
  lemma {:induction false} TeardownAllSpec(ds: seq<LoopBackDevice>, ovs: seq<LoopBackDevice>, defaultSize: string)
    ensures forall n :: 0 <= n < |TeardownAll(ds, ovs, defaultSize)| ==>
              exists i :: 0 <= i < |ds| && TornDown(TeardownAll(ds, ovs, defaultSize)[n], ds[i], ovs, defaultSize)
  {
    if ds != [] {
      var init := ds[..|ds| - 1];
      var last := ds[|ds| - 1];
      TeardownAllSpec(init, ovs, defaultSize);
      assert forall i :: 0 <= i < |init| ==> init[i] == ds[i];
      var t := TeardownAll(ds, ovs, defaultSize);
      var ti := TeardownAll(init, ovs, defaultSize);
      assert t == ti + Teardown(last, ovs, defaultSize);
      forall n | 0 <= n < |t|
        ensures exists i :: 0 <= i < |ds| && TornDown(t[n], ds[i], ovs, defaultSize)
      {
        if n < |ti| {
          var i :| 0 <= i < |init| && TornDown(ti[n], init[i], ovs, defaultSize);
          assert t[n] == ti[n] && init[i] == ds[i];
          assert TornDown(t[n], ds[i], ovs, defaultSize);
        } else {
          assert TornDown(t[n], last, ovs, defaultSize);
        }
      }
    } else {
      assert TeardownAll(ds, ovs, defaultSize) == [];
    }
  }

  lemma {:induction false} AddMissingDistinct(ds: seq<LoopBackDevice>, ovs: seq<LoopBackDevice>, k: nat, defaultSize: string)
    requires DistinctKeys(ds, Serial)
    ensures DistinctKeys(AddMissing(ds, ovs, k, defaultSize), Serial)
    decreases |ovs| - k
  {
    if k < |ovs| {
      if HasSerial(ds, ovs[k].serialNumber) {
        AddMissingDistinct(ds, ovs, k + 1, defaultSize);
      } else {
        var n := NewFromOverride(ovs[k], defaultSize);
        DistinctAppend(ds, n, Serial);
        AddMissingDistinct(ds + [n], ovs, k + 1, defaultSize);
      }
    }
  }

  lemma {:induction false} GrowDistinct(ds: seq<LoopBackDevice>, count: int, defaultSize: string)
    requires DistinctKeys(ds, Serial)
    ensures DistinctKeys(Grow(ds, count, defaultSize), Serial)
    decreases count - |ds|
  {
    if |ds| < count {
      var f := FreshDevice(ds, defaultSize);
      FreshIsNew(ds, defaultSize);
      DistinctAppend(ds, f, Serial);
      GrowDistinct(ds + [f], count, defaultSize);
    }
  }

  /** A pass keeps serial numbers unique. */
  lemma ReconcileDistinct(ds: seq<LoopBackDevice>, count: int, ovs: seq<LoopBackDevice>, defaultSize: string)
    requires DistinctKeys(ds, Serial)
    ensures DistinctKeys(Reconcile(ds, count, ovs, defaultSize), Serial)
  {
    var c := ConvergeAll(ds, ovs, defaultSize);
    DistinctSameKeys(ds, c, Serial);
    AddMissingDistinct(c, ovs, 0, defaultSize);
    GrowDistinct(AddMissing(c, ovs, 0, defaultSize), count, defaultSize);
  }

  // ---------------------------------------------------------------------
  // Which settings apply to this node

  /** The first configuration entry for node `nodeID`, if any. */
  function NodeFor(nodes: seq<Node>, nodeID: string): (r: Option<Node>)
    ensures r.Some? ==> exists k :: 0 <= k < |nodes| && nodes[k] == r.value && r.value.nodeId == nodeID
                                  && forall j :: 0 <= j < k ==> nodes[j].nodeId != nodeID
    ensures r.None? <==> forall j :: 0 <= j < |nodes| ==> nodes[j].nodeId != nodeID
  {
    match FindFirst(nodes, (n: Node) => n.nodeId == nodeID)
    case None => None
    case Some(k) => Some(nodes[k])
  }

  /** The entry found is the first one for that node. */
  lemma NodeForFirst(nodes: seq<Node>, nodeID: string, k: nat)
    requires k < |nodes| && nodes[k].nodeId == nodeID
    requires forall j :: 0 <= j < k ==> nodes[j].nodeId != nodeID
    ensures NodeFor(nodes, nodeID) == Some(nodes[k])
  {
    var r := NodeFor(nodes, nodeID);
    var m :| 0 <= m < |nodes| && nodes[m] == r.value && r.value.nodeId == nodeID
             && forall j :: 0 <= j < m ==> nodes[j].nodeId != nodeID;
    if m < k {
    } else if m > k {
    }
  }

  /** The device count to converge to: the built-in count without a
      configuration, this node's count when the configuration has an entry
      for it, else the configured default count. */
  function DesiredCount(config: Option<Config>, nodeID: string): int
  {
    match config
    case None => DefaultNumberOfDevices
    case Some(c) =>
      match NodeFor(c.nodes, nodeID)
      case Some(n) => n.driveCount
      case None => c.defaultDriveCount
  }

  /** This node's per-drive overrides; other nodes' entries are ignored. */
  function DesiredOverrides(config: Option<Config>, nodeID: string): seq<LoopBackDevice>
  {
    match config
    case None => []
    case Some(c) =>
      match NodeFor(c.nodes, nodeID)
      case Some(n) => n.drives
      case None => []
  }

  /** The configured default size, "" when unset. */
  function ConfiguredDriveSize(config: Option<Config>): string
  {
    match config
    case None => ""
    case Some(c) => c.defaultDriveSize
  }

  // ---------------------------------------------------------------------
  // Recovery from the image directory

  /** The image file name of serial suffix `sn` on host `hostname`. */
  function ImageName(hostname: string, sn: string): string
  {
    hostname + "-" + sn + ImageSuffix
  }

  /** A file name that starts with "<hostname>-" and ends with ".img". */
  predicate IsImageOf(hostname: string, name: string)
  {
    && |hostname| + 1 <= |name| && name[..|hostname| + 1] == hostname + "-"
    && |ImageSuffix| <= |name| && name[|name| - |ImageSuffix|..] == ImageSuffix
  }

  /** The prefix and the suffix of an image name cannot overlap: the prefix
      ends with '-', which ".img" does not contain. */
  lemma ImageNameLength(hostname: string, name: string)
    requires IsImageOf(hostname, name)
    ensures |name| >= |hostname| + 1 + |ImageSuffix|
  {
    var p := |hostname|;
    var q := |name| - |ImageSuffix|;
    assert name[p] == '-' by {
      assert name[..p + 1][p] == name[p];
    }
    forall k | q <= k < |name| ensures name[k] != '-' {
      assert name[q..][k - q] == name[k];
    }
  }

  /** The serial suffix named by an image file, None for any other file. */
  function ParseImageName(hostname: string, name: string): (r: Option<string>)
    ensures r.Some? <==> IsImageOf(hostname, name)
  {
    if IsImageOf(hostname, name) then
      ImageNameLength(hostname, name);
      Some(name[|hostname| + 1..|name| - |ImageSuffix|])
    else None
  }

  /** Parsing recovers the suffix an image name was built from... */
  lemma ImageNameRoundTrip(hostname: string, sn: string)
    ensures ParseImageName(hostname, ImageName(hostname, sn)) == Some(sn)
  {
    var name := ImageName(hostname, sn);
    assert name[..|hostname| + 1] == hostname + "-";
    assert name[|name| - |ImageSuffix|..] == ImageSuffix;
    assert name[|hostname| + 1..|name| - |ImageSuffix|] == sn;
  }

  /** ...and a parsed name is the image name of the suffix it yields. */
  lemma ImageNameParsed(hostname: string, name: string, sn: string)
    requires ParseImageName(hostname, name) == Some(sn)
    ensures ImageName(hostname, sn) == name
  {
    ImageNameLength(hostname, name);
    var p := |hostname| + 1;
    var q := |name| - |ImageSuffix|;
    assert name == name[..p] + name[p..q] + name[q..];
  }

  /** The path of file `name` in the image directory. */
  function ImagePath(imagesPath: string, name: string): string
  {
    imagesPath + "/" + name
  }

  /** The device recovered from image file `name` with serial suffix `sn`:
      its serial is the prefix plus the suffix, its backing file the image,
      and its vendor and size follow the same precedence as in a pass. */
  function RecoveredDevice(imagesPath: string, name: string, sn: string,
                           ovs: seq<LoopBackDevice>, defaultSize: string): LoopBackDevice
  {
    var serial := SerialPrefix + sn;
    var ov := OverrideFor(serial, ovs);
    LoopBackDevice(serial, ChosenVendor(ov), ChosenSize(ov, defaultSize),
                   false, "", ImagePath(imagesPath, name))
  }

  /** The devices recovered from a directory listing, in listing order. */
  function RecoveredAll(hostname: string, imagesPath: string, files: seq<string>,
                        ovs: seq<LoopBackDevice>, defaultSize: string): seq<LoopBackDevice>
  {
    if files == [] then []
    else
      var last := files[|files| - 1];
      RecoveredAll(hostname, imagesPath, files[..|files| - 1], ovs, defaultSize)
      + match ParseImageName(hostname, last)
        case Some(sn) => [RecoveredDevice(imagesPath, last, sn, ovs, defaultSize)]
        case None => []
  }

  /** The deletions of the files that are not images of this host. */
  function OrphanDeletes(hostname: string, imagesPath: string, files: seq<string>): seq<Command>
  {
    if files == [] then []
    else
      var last := files[|files| - 1];
      OrphanDeletes(hostname, imagesPath, files[..|files| - 1])
      + if IsImageOf(hostname, last) then [] else [DeleteFile(ImagePath(imagesPath, last))]
  }

  /** One more file of the listing adds its device, or its deletion. */
  lemma RecoverStep(hostname: string, imagesPath: string, files: seq<string>, i: nat,
                    ovs: seq<LoopBackDevice>, defaultSize: string)
    requires i < |files|
    ensures RecoveredAll(hostname, imagesPath, files[..i + 1], ovs, defaultSize)
            == RecoveredAll(hostname, imagesPath, files[..i], ovs, defaultSize)
               + match ParseImageName(hostname, files[i])
                 case Some(sn) => [RecoveredDevice(imagesPath, files[i], sn, ovs, defaultSize)]
                 case None => []
    ensures OrphanDeletes(hostname, imagesPath, files[..i + 1])
            == OrphanDeletes(hostname, imagesPath, files[..i])
               + if IsImageOf(hostname, files[i]) then [] else [DeleteFile(ImagePath(imagesPath, files[i]))]
  {
    assert files[..i + 1][..i] == files[..i];
    assert files[..i + 1][i] == files[i];
  }

  /** A recovered device is settled: recovery applies the same precedence of
      override, default size and built-in default as a pass does, so a pass
      right after recovery issues no command for it. */
  lemma {:induction false} RecoveredSettled(hostname: string, imagesPath: string, files: seq<string>,
                                            ovs: seq<LoopBackDevice>, defaultSize: string)
    ensures AllSettled(RecoveredAll(hostname, imagesPath, files, ovs, defaultSize), ovs, defaultSize)
  {
    if files != [] {
      RecoveredSettled(hostname, imagesPath, files[..|files| - 1], ovs, defaultSize);
    }
  }

  /** Recovery yields one device per image file of this host... */
  lemma {:induction false} RecoveredCount(hostname: string, imagesPath: string, files: seq<string>,
                                          ovs: seq<LoopBackDevice>, defaultSize: string)
    ensures |RecoveredAll(hostname, imagesPath, files, ovs, defaultSize)|
         == |Filter(files, (f: string) => IsImageOf(hostname, f))|
  {
    if files != [] {
      var p := (f: string) => IsImageOf(hostname, f);
      RecoveredCount(hostname, imagesPath, files[..|files| - 1], ovs, defaultSize);
      FilterStep(files, |files| - 1, p);
      assert files[..|files|] == files;
    }
  }

  /** ...each recovered device comes from an image file of this host: its
      serial is "LOOPBACK<sn>" for the file "<hostname>-<sn>.img", and that
      file is its backing file... */
  lemma {:induction false} RecoveredSound(hostname: string, imagesPath: string, files: seq<string>,
                                          ovs: seq<LoopBackDevice>, defaultSize: string)
    ensures forall d :: d in RecoveredAll(hostname, imagesPath, files, ovs, defaultSize) ==>
              exists i :: 0 <= i < |files| && ParseImageName(hostname, files[i]).Some?
                       && d == RecoveredDevice(imagesPath, files[i], ParseImageName(hostname, files[i]).value, ovs, defaultSize)
  {
    if files != [] {
      var init := files[..|files| - 1];
      var last := files[|files| - 1];
      RecoveredSound(hostname, imagesPath, init, ovs, defaultSize);
      var ri := RecoveredAll(hostname, imagesPath, init, ovs, defaultSize);
      var tail := match ParseImageName(hostname, last)
                  case Some(sn) => [RecoveredDevice(imagesPath, last, sn, ovs, defaultSize)]
                  case None => [];
      assert RecoveredAll(hostname, imagesPath, files, ovs, defaultSize) == ri + tail;
      forall d | d in ri
        ensures exists i :: 0 <= i < |files| && ParseImageName(hostname, files[i]).Some?
                          && d == RecoveredDevice(imagesPath, files[i], ParseImageName(hostname, files[i]).value, ovs, defaultSize)
      {
        var i :| 0 <= i < |init| && ParseImageName(hostname, init[i]).Some?
                 && d == RecoveredDevice(imagesPath, init[i], ParseImageName(hostname, init[i]).value, ovs, defaultSize);
        assert files[i] == init[i];
      }
      assert files[|files| - 1] == last;
    }
  }

  /** ...and every image file of this host is recovered. */
  lemma {:induction false} RecoveredComplete(hostname: string, imagesPath: string, files: seq<string>,
                                             ovs: seq<LoopBackDevice>, defaultSize: string)
    ensures forall i :: 0 <= i < |files| && ParseImageName(hostname, files[i]).Some? ==>
              RecoveredDevice(imagesPath, files[i], ParseImageName(hostname, files[i]).value, ovs, defaultSize)
              in RecoveredAll(hostname, imagesPath, files, ovs, defaultSize)
  {
    if files != [] {
      var init := files[..|files| - 1];
      var last := files[|files| - 1];
      RecoveredComplete(hostname, imagesPath, init, ovs, defaultSize);
      var ri := RecoveredAll(hostname, imagesPath, init, ovs, defaultSize);
      var tail := match ParseImageName(hostname, last)
                  case Some(sn) => [RecoveredDevice(imagesPath, last, sn, ovs, defaultSize)]
                  case None => [];
      assert RecoveredAll(hostname, imagesPath, files, ovs, defaultSize) == ri + tail;
      assert forall i :: 0 <= i < |init| ==> files[i] == init[i];
    }
  }

  /** Recovery issues nothing but deletions of files that are not images of
      this host, each by its full path... */
  lemma {:induction false} OrphanDeletesSound(hostname: string, imagesPath: string, files: seq<string>)
    ensures forall n :: 0 <= n < |OrphanDeletes(hostname, imagesPath, files)| ==>
              exists i :: 0 <= i < |files| && !IsImageOf(hostname, files[i])
                       && OrphanDeletes(hostname, imagesPath, files)[n] == DeleteFile(ImagePath(imagesPath, files[i]))
  {
    if files != [] {
      var init := files[..|files| - 1];
      var last := files[|files| - 1];
      OrphanDeletesSound(hostname, imagesPath, init);
      var ti := OrphanDeletes(hostname, imagesPath, init);
      var tail := if IsImageOf(hostname, last) then [] else [DeleteFile(ImagePath(imagesPath, last))];
      var t := OrphanDeletes(hostname, imagesPath, files);
      assert t == ti + tail;
      forall n | 0 <= n < |t|
        ensures exists i :: 0 <= i < |files| && !IsImageOf(hostname, files[i]) && t[n] == DeleteFile(ImagePath(imagesPath, files[i]))
      {
        if n < |ti| {
          var i :| 0 <= i < |init| && !IsImageOf(hostname, init[i]) && ti[n] == DeleteFile(ImagePath(imagesPath, init[i]));
          assert files[i] == init[i];
          assert t[n] == ti[n];
        } else {
          assert t[n] == tail[0];
        }
      }
    } else {
      assert OrphanDeletes(hostname, imagesPath, files) == [];
    }
  }

  /** ...and it deletes every such file. */
  lemma {:induction false} OrphanDeletesComplete(hostname: string, imagesPath: string, files: seq<string>)
    ensures forall i :: 0 <= i < |files| && !IsImageOf(hostname, files[i]) ==>
              DeleteFile(ImagePath(imagesPath, files[i])) in OrphanDeletes(hostname, imagesPath, files)
  {
    if files != [] {
      var init := files[..|files| - 1];
      var last := files[|files| - 1];
      OrphanDeletesComplete(hostname, imagesPath, init);
      var ti := OrphanDeletes(hostname, imagesPath, init);
      var tail := if IsImageOf(hostname, last) then [] else [DeleteFile(ImagePath(imagesPath, last))];
      assert OrphanDeletes(hostname, imagesPath, files) == ti + tail;
      assert forall i :: 0 <= i < |init| ==> files[i] == init[i];
    }
  }

  /** Distinct file names give distinct serial numbers: recovering into an
      empty registry keeps serial numbers unique. */
  lemma {:induction false} RecoveredDistinct(hostname: string, imagesPath: string, files: seq<string>,
                                             ovs: seq<LoopBackDevice>, defaultSize: string)
    requires forall i, j :: 0 <= i < j < |files| ==> files[i] != files[j]
    ensures DistinctKeys(RecoveredAll(hostname, imagesPath, files, ovs, defaultSize), Serial)
  {
    if files != [] {
      var init := files[..|files| - 1];
      var last := files[|files| - 1];
      RecoveredDistinct(hostname, imagesPath, init, ovs, defaultSize);
      var ri := RecoveredAll(hostname, imagesPath, init, ovs, defaultSize);
      match ParseImageName(hostname, last)
      case None =>
        assert RecoveredAll(hostname, imagesPath, files, ovs, defaultSize) == ri;
      case Some(sn) =>
        var d := RecoveredDevice(imagesPath, last, sn, ovs, defaultSize);
        assert RecoveredAll(hostname, imagesPath, files, ovs, defaultSize) == ri + [d];
        RecoveredSound(hostname, imagesPath, init, ovs, defaultSize);
        forall k | 0 <= k < |ri| ensures Serial(ri[k]) != Serial(d) {
          assert ri[k] in ri;
          var i :| 0 <= i < |init| && ParseImageName(hostname, init[i]).Some?
                   && ri[k] == RecoveredDevice(imagesPath, init[i], ParseImageName(hostname, init[i]).value, ovs, defaultSize);
          var sni := ParseImageName(hostname, init[i]).value;
          if sni == sn {
            ImageNameParsed(hostname, init[i], sni);
            ImageNameParsed(hostname, last, sn);
            assert false;
          }
          assert (SerialPrefix + sni)[|SerialPrefix|..] == sni;
          assert (SerialPrefix + sn)[|SerialPrefix|..] == sn;
        }
        DistinctAppend(ri, d, Serial);
    }
  }

  // ---------------------------------------------------------------------
  // Cleanup

  /** The commands of a cleanup: for each device in order, detach its loop
      device, then delete its backing file. */
  function CleanupCommands(ds: seq<LoopBackDevice>): seq<Command>
  {
    if ds == [] then []
    else
      var last := ds[|ds| - 1];
      CleanupCommands(ds[..|ds| - 1]) + [DetachLoopBackDevice(last.devicePath), DeleteFile(last.fileName)]
  }

  /** Cleanup issues exactly one detach and one delete per device, against
      that device's own loop device and backing file, and nothing else. */
  lemma {:induction false} CleanupCommandsSpec(ds: seq<LoopBackDevice>)
    ensures |CleanupCommands(ds)| == 2 * |ds|
    ensures forall i :: 0 <= i < |ds| ==>
              && CleanupCommands(ds)[2 * i] == DetachLoopBackDevice(ds[i].devicePath)
              && CleanupCommands(ds)[2 * i + 1] == DeleteFile(ds[i].fileName)
  {
    if ds != [] {
      var init := ds[..|ds| - 1];
      CleanupCommandsSpec(init);
      var c := CleanupCommands(ds);
      assert c[..2 * |init|] == CleanupCommands(init);
      forall i | 0 <= i < |ds|
        ensures c[2 * i] == DetachLoopBackDevice(ds[i].devicePath) && c[2 * i + 1] == DeleteFile(ds[i].fileName)
      {
        if i < |init| {
          assert ds[i] == init[i];
          assert c[2 * i] == c[..2 * |init|][2 * i];
          assert c[2 * i + 1] == c[..2 * |init|][2 * i + 1];
        }
      }
    }
  }

  /** When every device's size changes, a pass issues exactly the commands
      of a cleanup: a detach and a delete per device, in registry order. */
  lemma {:induction false} TeardownEvery(ds: seq<LoopBackDevice>, ovs: seq<LoopBackDevice>, defaultSize: string)
    requires forall i :: 0 <= i < |ds| ==> TargetSize(ds[i], ovs, defaultSize) != ds[i].size
    ensures TeardownAll(ds, ovs, defaultSize) == CleanupCommands(ds)
  {
    if ds != [] {
      TeardownEvery(ds[..|ds| - 1], ovs, defaultSize);
    }
  }

  // ---------------------------------------------------------------------
  // The manager

  class LoopBackManager {
    /** The registry of devices, in creation order. */
    var devices: seq<LoopBackDevice>
    /** The last configuration read, if any. */
    var config: Option<Config>
    var nodeID: string
    var hostname: string
    /** Runs an external command. */
    const exec: Command -> ExecResult
    /** Every command the state-changing operations have issued, in order. */
    ghost var log: seq<Command>

    /** Serial numbers are unique within the registry. */
    ghost predicate Valid()
      reads this`devices
    {
      DistinctKeys(devices, Serial)
    }

    /** A manager with the built-in number of default devices and no
        configuration. The executor, the node's id and the host name come
        from the environment. */
    constructor (exec: Command -> ExecResult, nodeID: string, hostname: string)
      ensures Valid()
      ensures devices == Grow([], DefaultNumberOfDevices, "")
      ensures |devices| == DefaultNumberOfDevices
      ensures config.None? && this.nodeID == nodeID && this.hostname == hostname
      ensures this.exec == exec && log == []
    {
      var ds: seq<LoopBackDevice> := [];
      while |ds| < DefaultNumberOfDevices
        invariant Grow(ds, DefaultNumberOfDevices, "") == Grow([], DefaultNumberOfDevices, "")
        invariant DistinctKeys(ds, Serial)
        decreases DefaultNumberOfDevices - |ds|
      {
        var d := FreshDevice(ds, "");
        FreshIsNew(ds, "");
        DistinctAppend(ds, d, Serial);
        ds := ds + [d];
      }
      GrowSpec([], DefaultNumberOfDevices, "");
      this.exec := exec;
      this.nodeID := nodeID;
      this.hostname := hostname;
      config := None;
      log := [];
      devices := ds;
    }

    /** Runs `c` and records it. */
    method Run(c: Command) returns (res: ExecResult)
      modifies this`log
      ensures res == exec(c) && log == old(log) + [c]
    {
      res := exec(c);
      log := log + [c];
    }

    /** The loop device attached to `file`: the executor's error if the check
        fails, otherwise the device path from its output ("" when the file
        is not attached, which is not an error). */
    function GetLoopBackDeviceName(file: string): (r: (string, Option<string>))
      ensures var out := exec(CheckLoopBackDevice(file));
              && (out.err.Some? ==> r == ("", out.err))
              && (out.err.None? ==> r.1.None? && r.0 == DeviceNameFromOutput(out.stdout))
    {
      var out := exec(CheckLoopBackDevice(file));
      if out.err.Some? then ("", out.err)
      else (DeviceNameFromOutput(out.stdout), None)
    }

    /** Converges the registry to `deviceCount` devices and the per-drive
        `overrides`, with the configured default size: existing devices take
        their new vendor in place and are torn down when their size changes,
        overrides not yet present are added, and fresh devices fill up the
        count. */
    method OverrideDevicesFromNodeConfig(deviceCount: int, overrides: seq<LoopBackDevice>)
      modifies this`devices, this`log
      ensures devices == Reconcile(old(devices), deviceCount, overrides, ConfiguredDriveSize(config))
      ensures log == old(log) + TeardownAll(old(devices), overrides, ConfiguredDriveSize(config))
      ensures old(Valid()) ==> Valid()
    {
      var defaultSize := ConfiguredDriveSize(config);
      ghost var start := devices;
      ConvergeDevices(overrides, defaultSize);
      AddOverriddenDevices(overrides, defaultSize);
      AddDefaultDevices(deviceCount, defaultSize);
      if DistinctKeys(start, Serial) {
        ReconcileDistinct(start, deviceCount, overrides, defaultSize);
      }
    }

    /** First step of a convergence pass: every device in place. */
    method ConvergeDevices(overrides: seq<LoopBackDevice>, defaultSize: string)
      modifies this`devices, this`log
      ensures devices == ConvergeAll(old(devices), overrides, defaultSize)
      ensures log == old(log) + TeardownAll(old(devices), overrides, defaultSize)
    {
      ghost var start := devices;
      var i := 0;
      while i < |devices|
        invariant 0 <= i <= |start|
        invariant devices == ConvergeAll(start[..i], overrides, defaultSize) + start[i..]
        invariant log == old(log) + TeardownAll(start[..i], overrides, defaultSize)
      {
        ghost var prefix := TeardownAll(start[..i], overrides, defaultSize);
        ghost var step := Teardown(start[i], overrides, defaultSize);
        ConvergeStep(start, i, overrides, defaultSize);
        ConvergeDevice(i, overrides, defaultSize);
        AppendAssoc(old(log), prefix, step);
        TeardownAllStep(start, i, overrides, defaultSize);
        i := i + 1;
      }
      assert start[..i] == start && start[i..] == [];
    }

    /** Brings device `i` to its settings: the vendor is set in place; a size
        change first detaches the device and deletes its backing file. */
    method ConvergeDevice(i: nat, overrides: seq<LoopBackDevice>, defaultSize: string)
      requires i < |devices|
      modifies this`devices, this`log
      ensures devices == old(devices)[i := Converge(old(devices)[i], overrides, defaultSize)]
      ensures log == old(log) + Teardown(old(devices)[i], overrides, defaultSize)
    {
      var d := devices[i];
      var ov := OverrideFor(d.serialNumber, overrides);
      var size := ChosenSize(ov, defaultSize);
      var updated := d.(vendorId := ChosenVendor(ov));
      if size != d.size {
        var detached := Run(DetachLoopBackDevice(d.devicePath));
        var deleted := Run(DeleteFile(d.fileName));
        updated := updated.(size := size, devicePath := "");
      }
      devices := devices[i := updated];
    }

    /** Second step: a device for every override whose serial is missing. */
    method AddOverriddenDevices(overrides: seq<LoopBackDevice>, defaultSize: string)
      modifies this`devices
      ensures devices == AddMissing(old(devices), overrides, 0, defaultSize)
    {
      var k := 0;
      while k < |overrides|
        invariant 0 <= k <= |overrides|
        invariant AddMissing(devices, overrides, k, defaultSize) == AddMissing(old(devices), overrides, 0, defaultSize)
      {
        var o := overrides[k];
        if !HasSerial(devices, o.serialNumber) {
          devices := devices + [NewFromOverride(o, defaultSize)];
        }
        k := k + 1;
      }
    }

    /** Last step: fresh default devices up to the count. */
    method AddDefaultDevices(deviceCount: int, defaultSize: string)
      modifies this`devices
      ensures devices == Grow(old(devices), deviceCount, defaultSize)
    {
      while |devices| < deviceCount
        invariant Grow(devices, deviceCount, defaultSize) == Grow(old(devices), deviceCount, defaultSize)
        decreases deviceCount - |devices|
      {
        devices := devices + [FreshDevice(devices, defaultSize)];
      }
    }

    /** Applies the current configuration: without one, the built-in count;
        with one, this node's entry (count and per-drive overrides) when there
        is one, else the configured default count. */
    method UpdateDevicesFromConfig()
      modifies this`devices, this`log
      ensures devices == Reconcile(old(devices), DesiredCount(config, nodeID),
                                   DesiredOverrides(config, nodeID), ConfiguredDriveSize(config))
      ensures log == old(log) + TeardownAll(old(devices), DesiredOverrides(config, nodeID), ConfiguredDriveSize(config))
      ensures old(Valid()) ==> Valid()
    {
      if config.None? {
        assert DesiredCount(config, nodeID) == DefaultNumberOfDevices && DesiredOverrides(config, nodeID) == [];
        OverrideDevicesFromNodeConfig(DefaultNumberOfDevices, []);
        return;
      }
      var nodes := config.value.nodes;
      var count := config.value.defaultDriveCount;
      var overrides: seq<LoopBackDevice> := [];
      var i := 0;
      var found := false;
      while i < |nodes| && !found
        invariant 0 <= i <= |nodes|
        invariant found ==> i >= 1
        invariant !found ==> forall j :: 0 <= j < i ==> nodes[j].nodeId != nodeID
        invariant found ==> NodeFor(nodes, nodeID) == Some(nodes[i - 1])
        invariant found ==> count == nodes[i - 1].driveCount && overrides == nodes[i - 1].drives
        invariant !found ==> count == config.value.defaultDriveCount && overrides == []
        invariant devices == old(devices) && log == old(log)
      {
        if nodes[i].nodeId == nodeID {
          NodeForFirst(nodes, nodeID, i);
          count, overrides := nodes[i].driveCount, nodes[i].drives;
          found := true;
        }
        i := i + 1;
      }
      if !found {
        assert NodeFor(nodes, nodeID).None?;
      }
      assert count == DesiredCount(config, nodeID) && overrides == DesiredOverrides(config, nodeID);
      OverrideDevicesFromNodeConfig(count, overrides);
    }

    /** Rebuilds the registry from a listing of the image directory, at cold
        start when the registry is empty: every "<hostname>-<sn>.img" becomes
        a device with serial "LOOPBACK<sn>" and this node's settings for it;
        any other file is deleted. A listing names each file once, so the
        serials come out unique. */
    method AttemptToRecoverDevices(imagesPath: string, files: seq<string>)
      requires devices == []
      modifies this`devices, this`log
      ensures devices == RecoveredAll(hostname, imagesPath, files,
                                      DesiredOverrides(config, nodeID), ConfiguredDriveSize(config))
      ensures log == old(log) + OrphanDeletes(hostname, imagesPath, files)
      ensures (forall i, j :: 0 <= i < j < |files| ==> files[i] != files[j]) ==> Valid()
    {
      var overrides := DesiredOverrides(config, nodeID);
      var defaultSize := ConfiguredDriveSize(config);
      ghost var start := devices;
      var i := 0;
      while i < |files|
        invariant 0 <= i <= |files|
        invariant devices == start + RecoveredAll(hostname, imagesPath, files[..i], overrides, defaultSize)
        invariant log == old(log) + OrphanDeletes(hostname, imagesPath, files[..i])
      {
        var name := files[i];
        RecoverStep(hostname, imagesPath, files, i, overrides, defaultSize);
        var parsed := ParseImageName(hostname, name);
        if parsed.Some? {
          var d := RecoveredDevice(imagesPath, name, parsed.value, overrides, defaultSize);
          assert devices + [d] == start + (RecoveredAll(hostname, imagesPath, files[..i], overrides, defaultSize) + [d]);
          devices := devices + [d];
        } else {
          var c := DeleteFile(ImagePath(imagesPath, name));
          assert log + [c] == old(log) + (OrphanDeletes(hostname, imagesPath, files[..i]) + [c]);
          var deleted := Run(c);
        }
        i := i + 1;
      }
      assert files[..i] == files;
      if forall i, j :: 0 <= i < j < |files| ==> files[i] != files[j] {
        RecoveredDistinct(hostname, imagesPath, files, overrides, defaultSize);
      }
    }

    /** Detaches every device and deletes its backing file, carrying on past
        failures; `ok` reports whether every command succeeded. The registry
        itself is left as it is. */
    method CleanupLoopDevices() returns (ok: bool)
      modifies this`log
      ensures log == old(log) + CleanupCommands(devices)
      ensures ok <==> forall c :: c in CleanupCommands(devices) ==> exec(c).err.None?
    {
      ok := true;
      var i := 0;
      while i < |devices|
        invariant 0 <= i <= |devices|
        invariant log == old(log) + CleanupCommands(devices[..i])
        invariant ok <==> forall c :: c in CleanupCommands(devices[..i]) ==> exec(c).err.None?
      {
        var d := devices[i];
        var detached := Run(DetachLoopBackDevice(d.devicePath));
        var deleted := Run(DeleteFile(d.fileName));
        if detached.err.Some? || deleted.err.Some? {
          ok := false;
        }
        assert devices[..i + 1][..i] == devices[..i];
        i := i + 1;
      }
      assert devices[..i] == devices;
    }
  }
}
