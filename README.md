# Loopback drive manager and custom-resource helper: a Dafny model

This project models two parts of a bare-metal CSI storage plugin.

**The loopback drive manager** (`pkg/drivemgr/loopbackmgr`) emulates a node's
drives with image files attached as loop devices. It keeps a registry of
devices, each with a serial number, vendor, size, loop-device path and
backing file. It drives that registry towards a configuration made of a
default drive count, a default drive size and per-node entries, where an
entry gives a node its own count and per-drive overrides keyed by serial.
After a restart it rebuilds the registry from the image directory. On
cleanup it detaches every device and deletes its backing file. The
manager's implementation is not modelled line by line; the contracts state
what the package's tests assert and the behaviour described below. Where
the tests leave a choice open, the model fixes one:
- a size change clears the device path until the device is materialised again;
- fresh serials are "LOOPBACK" followed by zeros, longer than any serial in use;
- a device whose override no longer sets a vendor or size goes back to the
  built-in vendor and to the default size (or the built-in size when no
  default is set), so dropping an override reverts the device;
- the loop device of a file is read off the first line of the command's
  output that has the shape "<dev>: [...]: (<file>)"; when no line has that
  shape (an empty output, a warning), the file is not attached. Lines are
  split at '\n'. The file in parentheses is not compared with the file
  looked up;
- only the node entry whose node id equals the manager's applies, both in a
  pass and in a recovery. The recovery test sets neither id, so its
  per-node vendor override applies only because both ids are empty.

`loopback.dfy` holds the specification functions, their lemmas and the class
`LoopBackManager`. The class's methods are proved against those functions.
`loopback_scenarios.dfy` holds the properties behind each test scenario.

**The custom-resource helper** (`pkg/base/k8s/cr_helper.go`) queries and
bulk-updates the cluster's AvailableCapacity, Volume, Drive and LVG records.
The cluster is modelled as four lists of named records held by the class
`CRHelper`. Failure functions decide whether reading a list, reading a
record, updating a record or deleting a record fails; they take the
record's kind and its name. The lookups are
functions. The bulk updates and deletes are methods with loops.

`seqs.dfy` holds the shared helpers: Option, filtering, find-first, and
replacement and removal by name.

## Model

| member | source | states |
|---|---|---|
| LoopBackMgr.LoopBackManager.GetLoopBackDeviceName | pkg/drivemgr/loopbackmgr/loopbackmgr_test.go:19-56 | an executor error is returned with an empty device; otherwise no error, and the device is the one named by the first line of the output of the shape "<dev>: [...]: (<file>)", or "" when no line has that shape |
| LoopBackMgr.DeviceNameOfLine | pkg/drivemgr/loopbackmgr/loopbackmgr_test.go:19-56 | on one line: the result is a ':'-free prefix of the line; when not empty it is followed by a well-shaped tail "[...]: (<file>)"; whenever the text after the first ':' has that shape, the result is the text before it |
| LoopBackMgr.DeviceNameRoundTrip | pkg/drivemgr/loopbackmgr/loopbackmgr_test.go:19-31 | for any device path without ':', parsing the line "<dev>: [<anything>]: (<file>)" gives back the device path |
| LoopBackMgr.Lines | pkg/drivemgr/loopbackmgr/loopbackmgr_test.go:19-31 | the output splits into at least one line, none holding a line break |
| LoopBackMgr.JoinLinesOfLines | pkg/drivemgr/loopbackmgr/loopbackmgr_test.go:19-31 | splitting the output into lines and joining them with line breaks gives back the output |
| LoopBackMgr.LinesOfJoinLines | pkg/drivemgr/loopbackmgr/loopbackmgr_test.go:19-31 | joining lines without line breaks and splitting gives back the lines |
| LoopBackMgr.DeviceNameFromOutput | pkg/drivemgr/loopbackmgr/loopbackmgr_test.go:19-56 | "" iff no line of the output names a device; otherwise the device named by the first line that names one |
| LoopBackMgr.OutputLineByLine | pkg/drivemgr/loopbackmgr/loopbackmgr_test.go:19-56 | the output is read line by line: a first line naming a device decides, any other first line is skipped |
| LoopBackMgr.OutputRoundTrip | pkg/drivemgr/loopbackmgr/loopbackmgr_test.go:19-31 | the device path is recovered from its line when the line is the whole output, and a non-empty one also when a line break and more output follow |
| LoopBackScenarios.DeviceNameExamples | pkg/drivemgr/loopbackmgr/loopbackmgr_test.go:19-43 | "/dev/loop18: []: (/tmp/test)" parses to "/dev/loop18", also with a trailing line break or after a line "note"; empty output parses to "" |
| LoopBackScenarios.WarningIsNotADevice | pkg/drivemgr/loopbackmgr/loopbackmgr_test.go:33-43 | the warning "losetup: warning" names no device |
| LoopBackMgr.LoopBackManager.constructor | pkg/drivemgr/loopbackmgr/loopbackmgr_test.go:72-79 | a new manager has the built-in number of fresh default devices with unique serials, and no configuration |
| LoopBackMgr.LoopBackManager.OverrideDevicesFromNodeConfig | pkg/drivemgr/loopbackmgr/loopbackmgr_test.go:212-263 | the registry becomes `Reconcile` of the old one; the commands issued are exactly `TeardownAll` of the old registry; unique serials are preserved |
| LoopBackMgr.LoopBackManager.UpdateDevicesFromConfig | pkg/drivemgr/loopbackmgr/loopbackmgr_test.go:72-210 | same as the pass above, with count and overrides from the first node entry matching the manager's node id; without a configuration, the built-in count and no overrides; without a matching entry, the default count and no overrides |
| LoopBackMgr.LoopBackManager.AttemptToRecoverDevices | pkg/drivemgr/loopbackmgr/loopbackmgr_test.go:283-363 | at cold start, with an empty registry, creates one device per "<hostname>-<sn>.img" in listing order; issues one delete per other file, and no other command; when the listing names each file once, the registry it builds is valid (serials unique) |
| LoopBackMgr.LoopBackManager.CleanupLoopDevices | pkg/drivemgr/loopbackmgr/loopbackmgr_test.go:58-70 | issues exactly `CleanupCommands` of the registry; reports success iff every command succeeded; the registry is unchanged |
| LoopBackMgr.CleanupCommandsSpec | pkg/drivemgr/loopbackmgr/loopbackmgr_test.go:58-70 | cleanup issues, for device i, a detach of its own device path at 2i and a delete of its own backing file at 2i+1, and nothing else |
| LoopBackMgr.ReconcileSpec | pkg/drivemgr/loopbackmgr/loopbackmgr_test.go:100-263 | after a pass every device is settled and every override's serial is present; the count is at least the desired count and never shrinks; it is exactly the desired count, or at most the old count plus the number of overrides; existing devices keep their positions, each converged in place |
| LoopBackMgr.ReconcileIdempotent | pkg/drivemgr/loopbackmgr/loopbackmgr_test.go:72-98 | a second pass with the same settings issues no command and changes nothing |
| LoopBackMgr.ReconcileDistinct | pkg/drivemgr/loopbackmgr/loopbackmgr_test.go:212-234 | a pass keeps serial numbers unique |
| LoopBackMgr.TeardownAllNone | pkg/drivemgr/loopbackmgr/loopbackmgr_test.go:236-263 | a pass issues no command iff every device is already at its target size |
| LoopBackMgr.TeardownAllSpec | pkg/drivemgr/loopbackmgr/loopbackmgr_test.go:236-263 | every command a pass issues is a detach or delete of a device whose size changes, against its current device and file |
| LoopBackMgr.TeardownEvery | pkg/drivemgr/loopbackmgr/loopbackmgr_test.go:124-151 | when every device's size changes, a pass issues a detach and a delete for every device, in registry order |
| LoopBackMgr.SettledTargets | pkg/drivemgr/loopbackmgr/loopbackmgr_test.go:124-234 | a settled device has the override's size if it sets one, else the default size if one is set, and the override's vendor if it sets one; otherwise the built-in size and vendor |
| LoopBackScenarios.DroppedOverrideReverts | pkg/drivemgr/loopbackmgr/loopbackmgr_test.go:153-210 | after a pass with an override and a second pass without it, the overridden device is still present and has the default size (or the built-in one) and the built-in vendor |
| LoopBackMgr.ConvergeSettles | pkg/drivemgr/loopbackmgr/loopbackmgr_test.go:124-263 | converging a device leaves it settled |
| LoopBackMgr.FreshIsNew | pkg/drivemgr/loopbackmgr/loopbackmgr_test.go:100-122 | a freshly generated serial is not in the registry |
| LoopBackMgr.AddMissingSpec | pkg/drivemgr/loopbackmgr/loopbackmgr_test.go:212-234 | adding missing overrides keeps the registry as a prefix and adds at most one device per override; afterwards every override is present; the added devices are settled; nothing is added when every override is already present |
| LoopBackMgr.GrowSpec | pkg/drivemgr/loopbackmgr/loopbackmgr_test.go:72-122 | filling up keeps the registry as a prefix; it reaches exactly the count, or leaves a longer registry as it is |
| LoopBackMgr.GrowSettled | pkg/drivemgr/loopbackmgr/loopbackmgr_test.go:72-122 | once every override is present, filling up keeps them present and adds only settled devices |
| LoopBackScenarios.InitialRegistryIsSettled | pkg/drivemgr/loopbackmgr/loopbackmgr_test.go:72-98 | the initial registry has 3 devices; a pass with no configuration, or with default count 3, keeps it and issues no command |
| LoopBackScenarios.NodeEntryApplied | pkg/drivemgr/loopbackmgr/loopbackmgr_test.go:100-122 | a node entry whose count leaves room for its overrides gives exactly that count, with every override present |
| LoopBackScenarios.NodeEntryExample | pkg/drivemgr/loopbackmgr/loopbackmgr_test.go:100-122 | three devices plus the entry {testNode, 5, [testSN]} give five devices, one of them "testSN" |
| LoopBackScenarios.DefaultSizeApplied | pkg/drivemgr/loopbackmgr/loopbackmgr_test.go:124-151 | with a default size and no per-drive size, every device ends with the default size; if no device had it, every device is torn down |
| LoopBackScenarios.SizeOverrideThenRevert | pkg/drivemgr/loopbackmgr/loopbackmgr_test.go:153-210 | a per-drive size wins over the default size, and every other device gets the default size; dropping the size makes the next pass tear that device down and restore the default size |
| LoopBackScenarios.SizeRevertTearsDownOnlyIt | pkg/drivemgr/loopbackmgr/loopbackmgr_test.go:182-210 | with unique serials, the pass after the size is dropped issues exactly the detach and delete of that device and no other command |
| LoopBackScenarios.NoSizeNoTeardown | pkg/drivemgr/loopbackmgr/loopbackmgr_test.go:212-234 | overrides that set no size on an existing device cause no teardown |
| LoopBackScenarios.VendorOverrideAndNewDevice | pkg/drivemgr/loopbackmgr/loopbackmgr_test.go:212-234 | a vendor-only override of device 0 plus a new serial, with count N+1, gives N+1 devices; device 0 takes the vendor, and the new device is last |
| LoopBackScenarios.VendorOverrideNoTeardown | pkg/drivemgr/loopbackmgr/loopbackmgr_test.go:212-234 | the same overrides issue no teardown command |
| LoopBackScenarios.TeardownOnly | pkg/drivemgr/loopbackmgr/loopbackmgr_test.go:236-263 | when all devices but one are settled, a pass issues only that device's commands |
| LoopBackScenarios.SizeChangeTearsDownOneDevice | pkg/drivemgr/loopbackmgr/loopbackmgr_test.go:236-263 | a new size for one device gives it that size, keeps the count, and issues exactly its detach and delete |
| LoopBackMgr.ParseImageName | pkg/drivemgr/loopbackmgr/loopbackmgr_test.go:297-312 | a name is parsed iff it starts with "<hostname>-" and ends with ".img" |
| LoopBackMgr.ImageNameRoundTrip | pkg/drivemgr/loopbackmgr/loopbackmgr_test.go:303-312 | parsing the image name of a suffix gives back that suffix |
| LoopBackMgr.ImageNameParsed | pkg/drivemgr/loopbackmgr/loopbackmgr_test.go:303-312 | a parsed name is the image name of the suffix it yields |
| LoopBackMgr.RecoveredCount | pkg/drivemgr/loopbackmgr/loopbackmgr_test.go:283-363 | recovery yields one device per image file of this host |
| LoopBackMgr.RecoveredSound | pkg/drivemgr/loopbackmgr/loopbackmgr_test.go:283-340 | every recovered device comes from an image file of this host: serial "LOOPBACK"+suffix, that file as backing file, settings by override precedence |
| LoopBackMgr.RecoveredComplete | pkg/drivemgr/loopbackmgr/loopbackmgr_test.go:283-340 | every image file of this host yields its device |
| LoopBackMgr.RecoveredSettled | pkg/drivemgr/loopbackmgr/loopbackmgr_test.go:314-339 | recovered devices are settled under the node's overrides and default size |
| LoopBackMgr.RecoveredDistinct | pkg/drivemgr/loopbackmgr/loopbackmgr_test.go:283-340 | a listing without duplicates recovers devices with unique serials |
| LoopBackMgr.OrphanDeletesSound | pkg/drivemgr/loopbackmgr/loopbackmgr_test.go:297-301 | every delete issued by recovery is of a listed file that is not an image of this host |
| LoopBackMgr.OrphanDeletesComplete | pkg/drivemgr/loopbackmgr/loopbackmgr_test.go:297-301 | every listed file that is not an image of this host is deleted |
| LoopBackScenarios.RecoveryListing | pkg/drivemgr/loopbackmgr/loopbackmgr_test.go:283-340 | "random.img" plus the images of 12345 and 56789 recover exactly one device per image, in listing order |
| LoopBackScenarios.RecoveryExample | pkg/drivemgr/loopbackmgr/loopbackmgr_test.go:283-340 | with 56789's vendor override, the two recovered devices are LOOPBACK12345 with the built-in vendor and LOOPBACK56789 with "non-default-VID" |
| LoopBackScenarios.RecoveryExampleDeletes | pkg/drivemgr/loopbackmgr/loopbackmgr_test.go:283-340 | in the same directory only random.img is deleted |
| LoopBackScenarios.RecoveryWithDefaults | pkg/drivemgr/loopbackmgr/loopbackmgr_test.go:342-363 | one image with no configuration yields one device |
| K8s.CRHelper.constructor | pkg/base/k8s/cr_helper.go:25-30 | the helper sees the cluster's lists and the client's failure behaviour |
| K8s.CRHelper.GetACByLocation | pkg/base/k8s/cr_helper.go:35-56 | returns the first AC whose location equals the argument ignoring case; None iff the list cannot be read or no AC matches |
| K8s.CRHelper.DeleteACsByNodeID | pkg/base/k8s/cr_helper.go:61-88 | a list-read failure is returned and nothing is deleted; otherwise exactly the ACs on the node (ignoring case) whose delete succeeds are removed, in order; an error iff some delete failed, with the aggregate message |
| K8s.CRHelper.GetVolumeByLocation | pkg/base/k8s/cr_helper.go:93-114 | returns the first volume whose location equals the argument ignoring case; None iff the list cannot be read or nothing matches |
| K8s.CRHelper.UpdateVolumesOpStatusOnNode | pkg/base/k8s/cr_helper.go:119-147 | a list-read failure changes nothing and returns no error; otherwise each volume on the node with a different status takes the new status when its update succeeds, all others are unchanged; an error iff some update failed |
| K8s.VolumeOpStatusUpdateSpec | pkg/base/k8s/cr_helper.go:119-147 | the per-volume update changes only the operational status, only on the node, and only when the write succeeds |
| K8s.CRHelper.GetVolumeByID | pkg/base/k8s/cr_helper.go:150-162 | returns the first volume with that id; None iff the list cannot be read or no volume has it |
| K8s.CRHelper.GetVolumeCRs | pkg/base/k8s/cr_helper.go:167-191 | None iff the list cannot be read; all volumes when no node is given; otherwise exactly the volumes on node[0], in list order |
| K8s.CRHelper.UpdateDrivesStatusOnNode | pkg/base/k8s/cr_helper.go:196-223 | a list-read failure changes nothing and returns no error; otherwise each drive on the node with a different status takes the new status when its update succeeds, all others are unchanged; an error iff some update failed |
| K8s.DriveStatusUpdateSpec | pkg/base/k8s/cr_helper.go:196-223 | the per-drive update changes only the status, only on the node, and only when the write succeeds |
| K8s.StatusUpdateIdempotent | pkg/base/k8s/cr_helper.go:196-223 | updating a drive's status twice is updating it once |
| K8s.CRHelper.GetDriveCRs | pkg/base/k8s/cr_helper.go:228-252 | None iff the list cannot be read; all drives when no node is given; otherwise exactly the drives on node[0], in list order |
| K8s.CRHelper.GetDriveCRByUUID | pkg/base/k8s/cr_helper.go:255-267 | returns the first drive with that UUID; None iff the list cannot be read or no drive has it |
| K8s.CRHelper.ReadLVG | pkg/base/k8s/cr_helper.go:273-276 | reading a record by name gives the client's error, or the record with that name, or not-found when there is none |
| K8s.CRHelper.GetVGNameByLVGCRName | pkg/base/k8s/cr_helper.go:272-283 | a read error is returned with ""; no error iff the LVG exists and is not being created; the first LVG with that name decides: its volume group name, or the not-ready error when it is being created; any error comes with "" |
| K8s.CRHelper.GetLVGCRs | pkg/base/k8s/cr_helper.go:288-312 | None iff the list cannot be read; all LVGs when no node is given; otherwise exactly the LVGs on node[0], in list order |
| K8s.CRHelper.ReadVolume | pkg/base/k8s/cr_helper.go:322-325 | as ReadLVG, for volumes |
| K8s.CRHelper.UpdateVolumeCRSpec | pkg/base/k8s/cr_helper.go:316-329 | a read error is returned and nothing changes; otherwise the result is the update's; on success only that volume's spec is replaced |

## Left out

- The implementation file of the loopback manager is not part of this model. Behaviour the tests do not fix is a modelling choice: how fresh serials are generated, the built-in device count, vendor and size, and the shape of a recovered device beyond its serial, backing file and settings.
- Reading and parsing the YAML configuration file (`readAndSetConfig`) is left out. The model starts from an already parsed configuration; a missing count or size is 0 or "".
- Listing the image directory is left out. `AttemptToRecoverDevices` takes the listing as a parameter, in the order the directory yields it.
- Running commands is left out. The executor is a function from command to result, and the command templates' text is not modelled. A ghost log records the commands issued. `GetLoopBackDeviceName` is a function, so its lookup command is not logged.
- Creating backing files and attaching loop devices are left out. After a size change a device only loses its device path, so re-materialisation is not modelled.
- LoopBackMgr.LoopBackManager.OverrideDevicesFromNodeConfig: a failed detach or delete does not keep the device's old size. The test mocks make every command succeed, so they do not say what happens on failure.
- LoopBackMgr.LoopBackManager.UpdateDevicesFromConfig: runs the same pass, so a failed detach or delete does not keep the device's old size there either.
- LoopBackMgr.Reconcile: never shrinks the registry below its current length. No test lowers the count.
- `GetDrivesList` is left out; its test is commented out.
- Logging, contexts, request ids and locking are left out.
- K8s.EqualFold: folds only ASCII letters. Go's `strings.EqualFold` also folds Unicode.
- K8s.CRHelper.UpdateDrivesStatusOnNode and K8s.CRHelper.UpdateVolumesOpStatusOnNode walk the whole list and skip records of other nodes. The source walks the node's filtered list; both visit the same records in the same order.
- The cluster is a set of lists addressed by record name. The Kubernetes client, its caching and concurrent writers are left out.
