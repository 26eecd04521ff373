/** Properties of the loop-back manager that its behaviour on concrete
    configurations relies on: what a pass does to the registry for the
    settings a node can be given, and what a recovery makes of a directory
    listing. */
module LoopBackScenarios {
  import opened Seqs
  import opened LoopBackMgr

  // ---------------------------------------------------------------------
  // Looking up the loop device of a file

  /** The device is read off a line of the shape "<dev>: [...]: (<file>)",
      whether that line ends the output or not and whatever lines precede
      it; an empty output names no device. */
  lemma DeviceNameExamples()
    ensures DeviceNameFromOutput("/dev/loop18: []: (/tmp/test)") == "/dev/loop18"
    ensures DeviceNameFromOutput("/dev/loop18: []: (/tmp/test)\n") == "/dev/loop18"
    ensures DeviceNameFromOutput("note\n/dev/loop18: []: (/tmp/test)") == "/dev/loop18"
    ensures DeviceNameFromOutput("") == ""
  {
    var dev := "/dev/loop18";
    forall i | 0 <= i < |dev| ensures dev[i] != ':' {
    }
    ExampleLine();
    ExampleOneLines();
    ExampleOutputs();
    OutputRoundTrip(dev, "", "/tmp/test", "");
    OutputLineByLine("note", "/dev/loop18: []: (/tmp/test)");
    OutputOneLine("");
  }

  /** The line of the examples above, put together from its parts. */
  lemma ExampleLine()
    ensures "/dev/loop18" + ": [" + "" + "]: (" + "/tmp/test" + ")" == "/dev/loop18: []: (/tmp/test)"
  {
    var a := "/dev/loop18" + ": [" + "" + "]: (";
    assert a == "/dev/loop18: []: (";
    var b := a + "/tmp/test";
    assert b == "/dev/loop18: []: (/tmp/test";
  }

  /** The lines of the examples above hold no line break. */
  lemma ExampleOneLines()
    ensures OneLine("/dev/loop18: []: (/tmp/test)")
    ensures OneLine("note") && OneLine("")
  {
    var line := "/dev/loop18: []: (/tmp/test)";
    forall i | 0 <= i < |line| ensures line[i] != '\n' {
    }
  }

  /** The outputs of the examples above, put together from their lines. */
  lemma ExampleOutputs()
    ensures "/dev/loop18: []: (/tmp/test)" + "\n" + "" == "/dev/loop18: []: (/tmp/test)\n"
    ensures "note" + "\n" + "/dev/loop18: []: (/tmp/test)" == "note\n/dev/loop18: []: (/tmp/test)"
  {
    var line := "/dev/loop18: []: (/tmp/test)";
    var a := line + "\n";
    assert a == "/dev/loop18: []: (/tmp/test)\n";
    assert a + "" == a;
    var b := "note" + "\n";
    assert b == "note\n";
    assert b + line == "note\n/dev/loop18: []: (/tmp/test)";
  }

  /** A warning the tool prints instead of a device line is not mistaken for
      a device path. */
  lemma WarningIsNotADevice()
    ensures DeviceNameFromOutput("losetup: warning") == ""
  {
    var out := "losetup: warning";
    forall i | 0 <= i < |out| && out[i] == ':' ensures !AttachTail(out[i..]) {
      assert i == 7;
      assert out[i..][2] == 'w';
    }
    assert OneLine(out);
    OutputOneLine(out);
  }

  // ---------------------------------------------------------------------
  // Passes over the registry

  /** The registry the manager starts with is what a pass with the built-in
      settings produces: three devices, and a further pass issues no command
      and changes nothing, whether there is no configuration or one that
      only sets the default count to three. */
  lemma InitialRegistryIsSettled(nodeID: string)
    ensures var init := Grow([], DefaultNumberOfDevices, "");
            var configured := Some(Config(3, "", []));
            && |init| == 3
            && init == Reconcile([], DesiredCount(None, nodeID), DesiredOverrides(None, nodeID), ConfiguredDriveSize(None))
            && Reconcile(init, DesiredCount(None, nodeID), DesiredOverrides(None, nodeID), ConfiguredDriveSize(None)) == init
            && TeardownAll(init, DesiredOverrides(None, nodeID), ConfiguredDriveSize(None)) == []
            && Reconcile(init, DesiredCount(configured, nodeID), DesiredOverrides(configured, nodeID),
                         ConfiguredDriveSize(configured)) == init
            && TeardownAll(init, DesiredOverrides(configured, nodeID), ConfiguredDriveSize(configured)) == []
  {
    var init := Grow([], DefaultNumberOfDevices, "");
    GrowSpec([], DefaultNumberOfDevices, "");
    assert ConvergeAll([], [], "") == [];
    assert AddMissing([], [], 0, "") == [];
    assert init == Reconcile([], 3, [], "");
    ReconcileIdempotent([], 3, [], "");
  }

  /** A node entry whose count leaves room for all of its overrides brings
      the registry to exactly that count, with every override in it. */
  lemma NodeEntryApplied(ds: seq<LoopBackDevice>, count: int, ovs: seq<LoopBackDevice>, defaultSize: string)
    requires |ds| + |ovs| <= count
    ensures var r := Reconcile(ds, count, ovs, defaultSize);
            && |r| == count
            && forall j :: 0 <= j < |ovs| ==> HasSerial(r, ovs[j].serialNumber)
  {
    ReconcileSpec(ds, count, ovs, defaultSize);
  }

  /** The node's entry is the one with its id: three devices and an entry
      for this node asking for five drives, one of them "testSN", give five
      devices, "testSN" among them. */
  lemma NodeEntryExample(ds: seq<LoopBackDevice>)
    requires |ds| == 3
    ensures var config := Some(Config(0, "", [Node("testNode", 5, [LoopBackDevice("testSN", "", "", false, "", "")])]));
            var r := Reconcile(ds, DesiredCount(config, "testNode"), DesiredOverrides(config, "testNode"),
                               ConfiguredDriveSize(config));
            |r| == 5 && HasSerial(r, "testSN")
  {
    var ovs := [LoopBackDevice("testSN", "", "", false, "", "")];
    NodeEntryApplied(ds, 5, ovs, "");
  }

  /** With a default size and no per-drive size, every device ends up with
      the default size, and when no device had it yet, every device is
      detached and its backing file deleted. */
  lemma DefaultSizeApplied(ds: seq<LoopBackDevice>, count: int, ovs: seq<LoopBackDevice>, defaultSize: string)
    requires defaultSize != ""
    requires forall j :: 0 <= j < |ovs| ==> ovs[j].size == ""
    ensures var r := Reconcile(ds, count, ovs, defaultSize);
            forall i :: 0 <= i < |r| ==> r[i].size == defaultSize
    ensures (forall i :: 0 <= i < |ds| ==> ds[i].size != defaultSize) ==>
              TeardownAll(ds, ovs, defaultSize) == CleanupCommands(ds)
  {
    if forall i :: 0 <= i < |ds| ==> ds[i].size != defaultSize {
      forall i | 0 <= i < |ds| ensures TargetSize(ds[i], ovs, defaultSize) != ds[i].size {
        var ov := OverrideFor(ds[i].serialNumber, ovs);
        assert ov.Some? ==> ov.value in ovs;
      }
      TeardownEvery(ds, ovs, defaultSize);
    }
    var r := Reconcile(ds, count, ovs, defaultSize);
    ReconcileSpec(ds, count, ovs, defaultSize);
    forall i | 0 <= i < |r| ensures r[i].size == defaultSize {
      SettledTargets(r[i], ovs, defaultSize);
    }
  }

  /** A per-drive size wins over the default size; once the entry stops
      setting a size, the next pass tears the device down and brings it
      back to the default size. */
  lemma SizeOverrideThenRevert(ds: seq<LoopBackDevice>, count: int, o: LoopBackDevice, defaultSize: string)
    requires o.size != "" && defaultSize != "" && o.size != defaultSize
    ensures var r1 := Reconcile(ds, count, [o], defaultSize);
            var reverted := [o.(size := "")];
            var r2 := Reconcile(r1, count, reverted, defaultSize);
            && HasSerial(r1, o.serialNumber)
            && (forall i :: 0 <= i < |r1| && r1[i].serialNumber == o.serialNumber ==>
                  && r1[i].size == o.size
                  && Teardown(r1[i], reverted, defaultSize) == [DetachLoopBackDevice(r1[i].devicePath), DeleteFile(r1[i].fileName)])
            && (forall i :: 0 <= i < |r1| && r1[i].serialNumber != o.serialNumber ==> r1[i].size == defaultSize)
            && HasSerial(r2, o.serialNumber)
            && (forall i :: 0 <= i < |r2| && r2[i].serialNumber == o.serialNumber ==> r2[i].size == defaultSize)
  {
    var r1 := Reconcile(ds, count, [o], defaultSize);
    var reverted := [o.(size := "")];
    ReconcileSpec(ds, count, [o], defaultSize);
    forall i | 0 <= i < |r1| && r1[i].serialNumber == o.serialNumber
      ensures r1[i].size == o.size
      ensures Teardown(r1[i], reverted, defaultSize) == [DetachLoopBackDevice(r1[i].devicePath), DeleteFile(r1[i].fileName)]
    {
      SettledTargets(r1[i], [o], defaultSize);
      OverrideForFirst(reverted, 0);
    }
    forall i | 0 <= i < |r1| && r1[i].serialNumber != o.serialNumber
      ensures r1[i].size == defaultSize
    {
      SettledTargets(r1[i], [o], defaultSize);
    }
    DefaultSizeApplied(r1, count, reverted, defaultSize);
    ReconcileSpec(r1, count, reverted, defaultSize);
  }

  /** In a registry with unique serials, the pass after the entry stops
      setting a size issues the detach and delete of that one device and no
      other command. */
  lemma SizeRevertTearsDownOnlyIt(ds: seq<LoopBackDevice>, count: int, o: LoopBackDevice, defaultSize: string)
    requires o.size != "" && defaultSize != "" && o.size != defaultSize
    requires DistinctKeys(ds, Serial)
    ensures var r1 := Reconcile(ds, count, [o], defaultSize);
            var reverted := [o.(size := "")];
            exists k :: && 0 <= k < |r1| && r1[k].serialNumber == o.serialNumber
                        && TeardownAll(r1, reverted, defaultSize)
                           == [DetachLoopBackDevice(r1[k].devicePath), DeleteFile(r1[k].fileName)]
  {
    var r1 := Reconcile(ds, count, [o], defaultSize);
    var reverted := [o.(size := "")];
    SizeOverrideThenRevert(ds, count, o, defaultSize);
    ReconcileSpec(ds, count, [o], defaultSize);
    ReconcileDistinct(ds, count, [o], defaultSize);
    var k :| 0 <= k < |r1| && r1[k].serialNumber == o.serialNumber;
    RevertLeavesOthers(r1, k, o, defaultSize);
    TeardownOnly(r1, reverted, defaultSize, k);
  }

  /** Devices other than the one whose size is dropped issue no command. */
  lemma RevertLeavesOthers(r1: seq<LoopBackDevice>, k: nat, o: LoopBackDevice, defaultSize: string)
    requires DistinctKeys(r1, Serial) && k < |r1| && r1[k].serialNumber == o.serialNumber
    requires AllSettled(r1, [o], defaultSize)
    ensures forall j :: 0 <= j < |r1| && j != k ==> Teardown(r1[j], [o.(size := "")], defaultSize) == []
  {
    var reverted := [o.(size := "")];
    forall j | 0 <= j < |r1| && j != k ensures Teardown(r1[j], reverted, defaultSize) == [] {
      DistinctAt(r1, j, k, Serial);
      assert Settled(r1[j], [o], defaultSize);
      OtherDeviceRevert(r1[j], o, defaultSize);
    }
  }

  /** Dropping the size of another device's entry does not change whether a
      device is torn down. */
  lemma OtherDeviceRevert(d: LoopBackDevice, o: LoopBackDevice, defaultSize: string)
    requires d.serialNumber != o.serialNumber
    ensures Teardown(d, [o], defaultSize) == Teardown(d, [o.(size := "")], defaultSize)
  {
    assert OverrideFor(d.serialNumber, [o]) == None;
    assert OverrideFor(d.serialNumber, [o.(size := "")]) == None;
  }

  /** Once a node entry stops naming a device, the next pass brings that
      device back to the built-in vendor and to the default size, or the
      built-in size when no default size is configured. */
  lemma DroppedOverrideReverts(ds: seq<LoopBackDevice>, count: int, o: LoopBackDevice, defaultSize: string)
    ensures var r1 := Reconcile(ds, count, [o], defaultSize);
            var r2 := Reconcile(r1, count, [], defaultSize);
            && HasSerial(r2, o.serialNumber)
            && forall i :: 0 <= i < |r2| ==>
                 && r2[i].vendorId == DefaultVendorID
                 && r2[i].size == (if defaultSize != "" then defaultSize else DefaultSize)
  {
    var r1 := Reconcile(ds, count, [o], defaultSize);
    var r2 := Reconcile(r1, count, [], defaultSize);
    ReconcileSpec(ds, count, [o], defaultSize);
    ReconcileSpec(r1, count, [], defaultSize);
    var k :| 0 <= k < |r1| && r1[k].serialNumber == o.serialNumber;
    assert r2[..|r1|][k] == ConvergeAll(r1, [], defaultSize)[k];
    assert r2[k].serialNumber == o.serialNumber;
    forall i | 0 <= i < |r2|
      ensures r2[i].vendorId == DefaultVendorID
      ensures r2[i].size == (if defaultSize != "" then defaultSize else DefaultSize)
    {
      SettledTargets(r2[i], [], defaultSize);
    }
  }

  /** Overrides that set no size for any device of a registry settled under
      the default settings cause no teardown: attributes other than the size
      change in place. */
  lemma NoSizeNoTeardown(ds: seq<LoopBackDevice>, ovs: seq<LoopBackDevice>, defaultSize: string)
    requires AllSettled(ds, [], defaultSize)
    requires forall j :: 0 <= j < |ovs| && HasSerial(ds, ovs[j].serialNumber) ==> ovs[j].size == ""
    ensures TeardownAll(ds, ovs, defaultSize) == []
  {
    TeardownAllNone(ds, ovs, defaultSize);
    forall i | 0 <= i < |ds| ensures TargetSize(ds[i], ovs, defaultSize) == ds[i].size {
      assert Teardown(ds[i], [], defaultSize) == [];
      var ov := OverrideFor(ds[i].serialNumber, ovs);
      if ov.Some? {
        var k :| 0 <= k < |ovs| && ovs[k] == ov.value && ov.value.serialNumber == ds[i].serialNumber;
        assert HasSerial(ds, ovs[k].serialNumber);
      }
    }
  }

  /** An entry for an existing device that sets only its vendor, followed by
      an entry for a serial the registry lacks, with room for one more
      device: the existing device keeps its place and takes the vendor, and
      the new one is appended. */
  lemma VendorOverrideAndNewDevice(ds: seq<LoopBackDevice>, vendor: string, o: LoopBackDevice, defaultSize: string)
    requires |ds| >= 1 && vendor != ""
    requires !HasSerial(ds, o.serialNumber)
    ensures var ovs := [LoopBackDevice(ds[0].serialNumber, vendor, "", false, "", ""), o];
            var r := Reconcile(ds, |ds| + 1, ovs, defaultSize);
            && |r| == |ds| + 1
            && r[0].serialNumber == ds[0].serialNumber && r[0].vendorId == vendor
            && r[|ds|] == NewFromOverride(o, defaultSize)
  {
    var ovs := [LoopBackDevice(ds[0].serialNumber, vendor, "", false, "", ""), o];
    var c := ConvergeAll(ds, ovs, defaultSize);
    OverrideForFirst(ovs, 0);
    assert c[0].serialNumber == ds[0].serialNumber;
    assert HasSerial(c, ovs[0].serialNumber);
    assert !HasSerial(c, o.serialNumber) by {
      forall i | 0 <= i < |c| ensures c[i].serialNumber != o.serialNumber {
        assert c[i].serialNumber == ds[i].serialNumber;
      }
    }
    var added := c + [NewFromOverride(o, defaultSize)];
    assert AddMissing(c, ovs, 0, defaultSize) == AddMissing(c, ovs, 1, defaultSize) == AddMissing(added, ovs, 2, defaultSize);
  }

  /** The same entries cause no teardown in a registry settled under the
      default settings. */
  lemma VendorOverrideNoTeardown(ds: seq<LoopBackDevice>, vendor: string, o: LoopBackDevice, defaultSize: string)
    requires |ds| >= 1 && !HasSerial(ds, o.serialNumber)
    requires AllSettled(ds, [], defaultSize)
    ensures TeardownAll(ds, [LoopBackDevice(ds[0].serialNumber, vendor, "", false, "", ""), o], defaultSize) == []
  {
    var ovs := [LoopBackDevice(ds[0].serialNumber, vendor, "", false, "", ""), o];
    forall j | 1 <= j < |ovs| ensures !HasSerial(ds, ovs[j].serialNumber) {
      assert ovs[j] == o;
    }
    NoSizeNoTeardown(ds, ovs, defaultSize);
  }

  /** When only the devices other than `k` are settled, a pass issues only
      the commands for `k`. */
  lemma {:induction false} TeardownOnly(ds: seq<LoopBackDevice>, ovs: seq<LoopBackDevice>, defaultSize: string, k: nat)
    requires k < |ds|
    requires forall j :: 0 <= j < |ds| && j != k ==> Teardown(ds[j], ovs, defaultSize) == []
    ensures TeardownAll(ds, ovs, defaultSize) == Teardown(ds[k], ovs, defaultSize)
  {
    var init := ds[..|ds| - 1];
    if k == |ds| - 1 {
      TeardownAllNone(init, ovs, defaultSize);
      forall i | 0 <= i < |init| ensures TargetSize(init[i], ovs, defaultSize) == init[i].size {
        assert Teardown(ds[i], ovs, defaultSize) == [];
      }
    } else {
      TeardownOnly(init, ovs, defaultSize, k);
      assert Teardown(ds[|ds| - 1], ovs, defaultSize) == [];
    }
  }

  /** A new size for one device of a registry with unique serials, settled
      under the default settings: that device alone is detached and its
      backing file deleted, it takes the new size, and the count is
      unchanged. */
  lemma SizeChangeTearsDownOneDevice(ds: seq<LoopBackDevice>, k: nat, size: string, defaultSize: string)
    requires k < |ds| && DistinctKeys(ds, Serial)
    requires AllSettled(ds, [], defaultSize)
    requires size != "" && ds[k].size != size
    ensures var ovs := [LoopBackDevice(ds[k].serialNumber, "", size, false, "", "")];
            var r := Reconcile(ds, |ds|, ovs, defaultSize);
            && |r| == |ds| && r[k].size == size
            && TeardownAll(ds, ovs, defaultSize) == [DetachLoopBackDevice(ds[k].devicePath), DeleteFile(ds[k].fileName)]
  {
    SizeChangeCommands(ds, k, size, defaultSize);
    SizeChangeRegistry(ds, k, size, defaultSize);
  }

  /** The commands part of the lemma above. */
  lemma SizeChangeCommands(ds: seq<LoopBackDevice>, k: nat, size: string, defaultSize: string)
    requires k < |ds| && DistinctKeys(ds, Serial)
    requires AllSettled(ds, [], defaultSize)
    requires size != "" && ds[k].size != size
    ensures var ovs := [LoopBackDevice(ds[k].serialNumber, "", size, false, "", "")];
            TeardownAll(ds, ovs, defaultSize) == [DetachLoopBackDevice(ds[k].devicePath), DeleteFile(ds[k].fileName)]
  {
    var ovs := [LoopBackDevice(ds[k].serialNumber, "", size, false, "", "")];
    OverrideForFirst(ovs, 0);
    forall j | 0 <= j < |ds| && j != k ensures Teardown(ds[j], ovs, defaultSize) == [] {
      DistinctAt(ds, j, k, Serial);
      assert OverrideFor(ds[j].serialNumber, ovs) == None;
      assert Settled(ds[j], [], defaultSize);
    }
    TeardownOnly(ds, ovs, defaultSize, k);
  }

  /** The registry part of the lemma above. */
  lemma SizeChangeRegistry(ds: seq<LoopBackDevice>, k: nat, size: string, defaultSize: string)
    requires k < |ds|
    requires size != ""
    ensures var ovs := [LoopBackDevice(ds[k].serialNumber, "", size, false, "", "")];
            var r := Reconcile(ds, |ds|, ovs, defaultSize);
            |r| == |ds| && r[k].size == size
  {
    var ovs := [LoopBackDevice(ds[k].serialNumber, "", size, false, "", "")];
    OverrideForFirst(ovs, 0);
    var c := ConvergeAll(ds, ovs, defaultSize);
    assert c[k].serialNumber == ds[k].serialNumber;
    assert AddMissing(c, ovs, 0, defaultSize) == c;
  }

  // ---------------------------------------------------------------------
  // Recovery

  /** A file name without '-' is no host's image. */
  lemma NoDashNoImage(hostname: string, name: string)
    requires forall i :: 0 <= i < |name| ==> name[i] != '-'
    ensures !IsImageOf(hostname, name)
  {
    if |hostname| + 1 <= |name| {
      assert name[..|hostname| + 1][|hostname|] != (hostname + "-")[|hostname|];
    }
  }

  /** A directory holding one stray file and the images of serials "12345"
      and "56789" recovers one device per image, in listing order. */
  lemma RecoveryListing(hostname: string, imagesPath: string, ovs: seq<LoopBackDevice>, dsz: string)
    ensures var files := ["random.img", ImageName(hostname, "12345"), ImageName(hostname, "56789")];
            RecoveredAll(hostname, imagesPath, files, ovs, dsz)
            == [RecoveredDevice(imagesPath, files[1], "12345", ovs, dsz),
                RecoveredDevice(imagesPath, files[2], "56789", ovs, dsz)]
  {
    var stray := "random.img";
    var img1 := ImageName(hostname, "12345");
    var img2 := ImageName(hostname, "56789");
    var files := [stray, img1, img2];
    RandomIsStray(hostname);
    ImageNameRoundTrip(hostname, "12345");
    ImageNameRoundTrip(hostname, "56789");
    var d1 := RecoveredDevice(imagesPath, img1, "12345", ovs, dsz);
    assert files[..1] == [stray] && files[..2] == [stray, img1];
    assert [stray][..0] == [] && files[..2][..1] == [stray] && files[..2][1] == img1;
    assert RecoveredAll(hostname, imagesPath, [stray], ovs, dsz) == [];
    assert RecoveredAll(hostname, imagesPath, files[..2], ovs, dsz) == [d1];
  }

  /** The node entry of the recovery example: one override that gives
      "LOOPBACK56789" a vendor. */
  function VendorEntry(): Config
  {
    Config(3, "", [Node("", 0, [LoopBackDevice("LOOPBACK56789", "non-default-VID", "", false, "", "")])])
  }

  /** The recovered devices of serials "12345" and "56789" under that entry:
      the second takes the entry's vendor and the first the built-in one. */
  lemma RecoveredVendors(imagesPath: string, name1: string, name2: string)
    ensures var ovs := DesiredOverrides(Some(VendorEntry()), "");
            var dsz := ConfiguredDriveSize(Some(VendorEntry()));
            var d1 := RecoveredDevice(imagesPath, name1, "12345", ovs, dsz);
            var d2 := RecoveredDevice(imagesPath, name2, "56789", ovs, dsz);
            && d1.serialNumber == "LOOPBACK12345" && d1.vendorId == DefaultVendorID
            && d2.serialNumber == "LOOPBACK56789" && d2.vendorId == "non-default-VID"
  {
    var ovs := VendorEntry().nodes[0].drives;
    NodeForFirst(VendorEntry().nodes, "", 0);
    assert DesiredOverrides(Some(VendorEntry()), "") == ovs;
    assert SerialPrefix + "12345" == "LOOPBACK12345";
    assert SerialPrefix + "56789" == "LOOPBACK56789";
    assert "LOOPBACK12345"[8] != "LOOPBACK56789"[8];
    assert OverrideFor("LOOPBACK12345", ovs) == None;
    OverrideForFirst(ovs, 0);
  }

  /** With that entry, the directory of the listing above gives two devices:
      the second with the entry's vendor and the first with the built-in one. */
  lemma RecoveryExample(hostname: string, imagesPath: string)
    ensures var files := ["random.img", ImageName(hostname, "12345"), ImageName(hostname, "56789")];
            var config := Some(VendorEntry());
            var r := RecoveredAll(hostname, imagesPath, files, DesiredOverrides(config, ""), ConfiguredDriveSize(config));
            && |r| == 2
            && r[0].serialNumber == "LOOPBACK12345" && r[0].vendorId == DefaultVendorID
            && r[1].serialNumber == "LOOPBACK56789" && r[1].vendorId == "non-default-VID"
  {
    var config := Some(VendorEntry());
    RecoveryListing(hostname, imagesPath, DesiredOverrides(config, ""), ConfiguredDriveSize(config));
    RecoveredVendors(imagesPath, ImageName(hostname, "12345"), ImageName(hostname, "56789"));
  }

  /** In the same directory, only the stray file is deleted. */
  lemma RecoveryExampleDeletes(hostname: string, imagesPath: string)
    ensures var files := ["random.img", ImageName(hostname, "12345"), ImageName(hostname, "56789")];
            OrphanDeletes(hostname, imagesPath, files) == [DeleteFile(imagesPath + "/random.img")]
  {
    var stray := "random.img";
    var img1 := ImageName(hostname, "12345");
    var img2 := ImageName(hostname, "56789");
    var files := [stray, img1, img2];
    RandomIsStray(hostname);
    ImageNameRoundTrip(hostname, "12345");
    ImageNameRoundTrip(hostname, "56789");
    assert files[..1] == [stray] && files[..2] == [stray, img1];
    assert [stray][..0] == [] && files[..2][..1] == [stray] && files[..2][1] == img1;
    assert OrphanDeletes(hostname, imagesPath, [stray]) == [DeleteFile(ImagePath(imagesPath, stray))];
    assert OrphanDeletes(hostname, imagesPath, files[..2]) == [DeleteFile(ImagePath(imagesPath, stray))];
    assert IsImageOf(hostname, img2) && files[..2] == files[..|files| - 1];
    assert ImagePath(imagesPath, stray) == imagesPath + "/random.img";
  }

  /** "random.img" is no host's image. */
  lemma RandomIsStray(hostname: string)
    ensures !IsImageOf(hostname, "random.img")
  {
    var stray := "random.img";
    forall i | 0 <= i < |stray| ensures stray[i] != '-' {
    }
    NoDashNoImage(hostname, stray);
  }

  /** Without a configuration, one image gives one device. */
  lemma RecoveryWithDefaults(hostname: string, imagesPath: string, sn: string)
    ensures |RecoveredAll(hostname, imagesPath, [ImageName(hostname, sn)],
                          DesiredOverrides(None, ""), ConfiguredDriveSize(None))| == 1
  {
    ImageNameRoundTrip(hostname, sn);
    assert [ImageName(hostname, sn)][..0] == [];
  }
}
