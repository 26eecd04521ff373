/** Query and bulk-update logic of the cluster custom-resource helper
    (pkg/base/k8s/cr_helper.go). The cluster is abstracted as four lists of
    named records; reading a list, reading one record by name, updating and
    deleting a record may each fail, as decided by the client's failure
    functions. */
module K8s {
  import opened Seqs

  datatype Error = Error(msg: string)
  datatype Result<T> = Ok(value: T) | Failed(error: Error)

  const DeleteSomeFailedMsg: string := "failed to delete some custom resources"
  const UpdateSomeFailedMsg: string := "failed to update some custom resources"
  const LVGNotReadyMsg: string := "logical volume group not ready yet"
  const NotFoundMsg: string := "not found"
  /** The LVG status meaning "volume group is being created"; the value of
      this constant is not part of this model, only its distinctness matters. */
  const Creating: string := "CREATING"

  datatype ACSpec = ACSpec(location: string, nodeId: string, size: int)
  datatype AvailableCapacity = AvailableCapacity(name: string, spec: ACSpec)

  datatype VolumeSpec = VolumeSpec(id: string, location: string, nodeId: string,
                                   operationalStatus: string, size: int)
  datatype Volume = Volume(name: string, spec: VolumeSpec)

  datatype DriveSpec = DriveSpec(uuid: string, nodeId: string, status: string, health: string)
  datatype Drive = Drive(name: string, spec: DriveSpec)

  datatype LVGSpec = LVGSpec(name: string, node: string, status: string)
  datatype LVG = LVG(name: string, spec: LVGSpec)

  /** The four kinds of record the helper reads, lists and updates. */
  datatype Kind = ACKind | VolumeKind | DriveKind | LVGKind

  function ACName(a: AvailableCapacity): string { a.name }
  function VolumeName(v: Volume): string { v.name }
  function DriveName(d: Drive): string { d.name }
  function LVGName(l: LVG): string { l.name }

  /** ASCII case folding; `strings.EqualFold`'s Unicode folding is not modelled. */
  function Fold(c: char): char
  {
    if 'A' <= c <= 'Z' then (c as int + 32) as char else c
  }

  /** Equality ignoring ASCII case. */
  predicate EqualFold(a: string, b: string)
  {
    |a| == |b| && (a == [] || (Fold(a[0]) == Fold(b[0]) && EqualFold(a[1..], b[1..])))
  }

  /** A drive as left by a status update on `nodeID`: only a drive on the node
      whose status differs from the target, and whose write-back succeeds,
      takes the new status. */
  function DriveAfterStatusUpdate(d: Drive, nodeID: string, status: string,
                                  updateErr: string -> Option<Error>): Drive
  {
    if d.spec.nodeId == nodeID && d.spec.status != status && updateErr(d.name).None?
    then d.(spec := d.spec.(status := status))
    else d
  }

  /** The same for a volume's operational status. */
  function VolumeAfterOpStatusUpdate(v: Volume, nodeID: string, opStatus: string,
                                     updateErr: string -> Option<Error>): Volume
  {
    if v.spec.nodeId == nodeID && v.spec.operationalStatus != opStatus && updateErr(v.name).None?
    then v.(spec := v.spec.(operationalStatus := opStatus))
    else v
  }

  /** A status update keeps the drive's name and every other field; a drive
      on the node whose write-back succeeds ends at the target status, and
      any other drive is left as it was. */
  lemma DriveStatusUpdateSpec(d: Drive, nodeID: string, status: string,
                              updateErr: string -> Option<Error>)
    ensures var r := DriveAfterStatusUpdate(d, nodeID, status, updateErr);
            && r.name == d.name
            && r.spec == d.spec.(status := r.spec.status)
            && (d.spec.nodeId == nodeID && updateErr(d.name).None? ==> r.spec.status == status)
            && (d.spec.nodeId != nodeID || updateErr(d.name).Some? ==> r == d)
  {
  }

  /** The same for a volume's operational status. */
  lemma VolumeOpStatusUpdateSpec(v: Volume, nodeID: string, opStatus: string,
                                 updateErr: string -> Option<Error>)
    ensures var r := VolumeAfterOpStatusUpdate(v, nodeID, opStatus, updateErr);
            && r.name == v.name
            && r.spec == v.spec.(operationalStatus := r.spec.operationalStatus)
            && (v.spec.nodeId == nodeID && updateErr(v.name).None? ==> r.spec.operationalStatus == opStatus)
            && (v.spec.nodeId != nodeID || updateErr(v.name).Some? ==> r == v)
  {
  }

  /** Updating the status twice is updating it once. */
  lemma StatusUpdateIdempotent(d: Drive, nodeID: string, status: string,
                               updateErr: string -> Option<Error>)
    ensures DriveAfterStatusUpdate(DriveAfterStatusUpdate(d, nodeID, status, updateErr), nodeID, status, updateErr)
         == DriveAfterStatusUpdate(d, nodeID, status, updateErr)
  {
  }

  /** A status write-back that the helper attempts and that fails. */
  predicate DriveUpdateFails(d: Drive, nodeID: string, status: string, updateErr: string -> Option<Error>)
  {
    d.spec.nodeId == nodeID && d.spec.status != status && updateErr(d.name).Some?
  }

  predicate VolumeUpdateFails(v: Volume, nodeID: string, opStatus: string, updateErr: string -> Option<Error>)
  {
    v.spec.nodeId == nodeID && v.spec.operationalStatus != opStatus && updateErr(v.name).Some?
  }

  /** Some drive among the first `n` of `all` has a failing write-back. */
  predicate SomeDriveUpdateFails(all: seq<Drive>, n: nat, nodeID: string, status: string,
                                 updateErr: string -> Option<Error>)
    requires n <= |all|
  {
    exists j :: 0 <= j < n && DriveUpdateFails(all[j], nodeID, status, updateErr)
  }

  lemma SomeDriveUpdateFailsStep(all: seq<Drive>, n: nat, nodeID: string, status: string,
                                 updateErr: string -> Option<Error>)
    requires n < |all|
    ensures SomeDriveUpdateFails(all, n + 1, nodeID, status, updateErr)
            <==> SomeDriveUpdateFails(all, n, nodeID, status, updateErr) || DriveUpdateFails(all[n], nodeID, status, updateErr)
  {
    if SomeDriveUpdateFails(all, n + 1, nodeID, status, updateErr) && !DriveUpdateFails(all[n], nodeID, status, updateErr) {
      var j :| 0 <= j < n + 1 && DriveUpdateFails(all[j], nodeID, status, updateErr);
      assert j < n;
    }
  }

  /** Some volume among the first `n` of `all` has a failing write-back. */
  predicate SomeVolumeUpdateFails(all: seq<Volume>, n: nat, nodeID: string, opStatus: string,
                                  updateErr: string -> Option<Error>)
    requires n <= |all|
  {
    exists j :: 0 <= j < n && VolumeUpdateFails(all[j], nodeID, opStatus, updateErr)
  }

  lemma SomeVolumeUpdateFailsStep(all: seq<Volume>, n: nat, nodeID: string, opStatus: string,
                                  updateErr: string -> Option<Error>)
    requires n < |all|
    ensures SomeVolumeUpdateFails(all, n + 1, nodeID, opStatus, updateErr)
            <==> SomeVolumeUpdateFails(all, n, nodeID, opStatus, updateErr) || VolumeUpdateFails(all[n], nodeID, opStatus, updateErr)
  {
    if SomeVolumeUpdateFails(all, n + 1, nodeID, opStatus, updateErr) && !VolumeUpdateFails(all[n], nodeID, opStatus, updateErr) {
      var j :| 0 <= j < n + 1 && VolumeUpdateFails(all[j], nodeID, opStatus, updateErr);
      assert j < n;
    }
  }

  /** An AC survives DeleteACsByNodeID unless it is on the node (ignoring
      case) and its delete succeeds. */
  predicate ACKept(a: AvailableCapacity, nodeID: string, deleteErr: string -> Option<Error>)
  {
    !(EqualFold(a.spec.nodeId, nodeID) && deleteErr(a.name).None?)
  }

  /** A delete that DeleteACsByNodeID attempts and that fails. */
  predicate ACDeleteFails(a: AvailableCapacity, nodeID: string, deleteErr: string -> Option<Error>)
  {
    EqualFold(a.spec.nodeId, nodeID) && deleteErr(a.name).Some?
  }

  /** Some AC among the first `n` of `all` has a failing delete. */
  predicate SomeACDeleteFails(all: seq<AvailableCapacity>, n: nat, nodeID: string, deleteErr: string -> Option<Error>)
    requires n <= |all|
  {
    exists j :: 0 <= j < n && ACDeleteFails(all[j], nodeID, deleteErr)
  }

  /** Looking at one more AC. */
  lemma SomeACDeleteFailsStep(all: seq<AvailableCapacity>, n: nat, nodeID: string, deleteErr: string -> Option<Error>)
    requires n < |all|
    ensures SomeACDeleteFails(all, n + 1, nodeID, deleteErr)
            <==> SomeACDeleteFails(all, n, nodeID, deleteErr) || ACDeleteFails(all[n], nodeID, deleteErr)
  {
    if SomeACDeleteFails(all, n + 1, nodeID, deleteErr) && !ACDeleteFails(all[n], nodeID, deleteErr) {
      var j :| 0 <= j < n + 1 && ACDeleteFails(all[j], nodeID, deleteErr);
      assert j < n;
    }
  }

  /** ACKept as a filter over the AC list. */
  function KeepAC(nodeID: string, deleteErr: string -> Option<Error>): AvailableCapacity -> bool
  {
    a => ACKept(a, nodeID, deleteErr)
  }

  class CRHelper {
    // the cluster's records, one list per kind
    var acs: seq<AvailableCapacity>
    var volumes: seq<Volume>
    var drives: seq<Drive>
    var lvgs: seq<LVG>

    // how the cluster client fails: reading a whole list of a kind, and
    // reading, updating or deleting one record of a kind by its name
    const listErr: Kind -> Option<Error>
    const readErr: Kind -> string -> Option<Error>
    const updateErr: Kind -> string -> Option<Error>
    const deleteErr: Kind -> string -> Option<Error>

    /** Record names are unique within each kind, as the cluster guarantees;
        one predicate per kind, so that each operation carries only the part
        it touches. */
    ghost predicate ACsValid() reads this`acs { DistinctKeys(acs, ACName) }
    ghost predicate VolumesValid() reads this`volumes { DistinctKeys(volumes, VolumeName) }
    ghost predicate DrivesValid() reads this`drives { DistinctKeys(drives, DriveName) }
    ghost predicate LVGsValid() reads this`lvgs { DistinctKeys(lvgs, LVGName) }

    ghost predicate Valid()
      reads this
    {
      ACsValid() && VolumesValid() && DrivesValid() && LVGsValid()
    }

    constructor (acs: seq<AvailableCapacity>, volumes: seq<Volume>, drives: seq<Drive>, lvgs: seq<LVG>,
                 listErr: Kind -> Option<Error>, readErr: Kind -> string -> Option<Error>,
                 updateErr: Kind -> string -> Option<Error>, deleteErr: Kind -> string -> Option<Error>)
      requires DistinctKeys(acs, ACName) && DistinctKeys(volumes, VolumeName)
      requires DistinctKeys(drives, DriveName) && DistinctKeys(lvgs, LVGName)
      ensures Valid()
      ensures this.acs == acs && this.volumes == volumes && this.drives == drives && this.lvgs == lvgs
      ensures this.listErr == listErr && this.readErr == readErr
      ensures this.updateErr == updateErr && this.deleteErr == deleteErr
    {
      this.acs, this.volumes, this.drives, this.lvgs := acs, volumes, drives, lvgs;
      this.listErr, this.readErr := listErr, readErr;
      this.updateErr, this.deleteErr := updateErr, deleteErr;
    }

    /** The first AC whose location equals `location` ignoring case; None when
        there is none or the list cannot be read. */
    function GetACByLocation(location: string): (r: Option<AvailableCapacity>)
      reads this
      ensures listErr(ACKind).Some? ==> r.None?
      ensures r.Some? ==> exists i :: 0 <= i < |acs| && acs[i] == r.value
                                     && EqualFold(acs[i].spec.location, location)
                                     && forall j :: 0 <= j < i ==> !EqualFold(acs[j].spec.location, location)
      ensures listErr(ACKind).None? && r.None? ==>
                forall i :: 0 <= i < |acs| ==> !EqualFold(acs[i].spec.location, location)
    {
      if listErr(ACKind).Some? then None
      else match FindFirst(acs, (a: AvailableCapacity) => EqualFold(a.spec.location, location))
        case None => None
        case Some(i) => Some(acs[i])
    }

    /** The first volume whose location equals `location` ignoring case; None
        when there is none or the list cannot be read. */
    function GetVolumeByLocation(location: string): (r: Option<Volume>)
      reads this
      ensures listErr(VolumeKind).Some? ==> r.None?
      ensures r.Some? ==> exists i :: 0 <= i < |volumes| && volumes[i] == r.value
                                     && EqualFold(volumes[i].spec.location, location)
                                     && forall j :: 0 <= j < i ==> !EqualFold(volumes[j].spec.location, location)
      ensures listErr(VolumeKind).None? && r.None? ==>
                forall i :: 0 <= i < |volumes| ==> !EqualFold(volumes[i].spec.location, location)
    {
      if listErr(VolumeKind).Some? then None
      else match FindFirst(volumes, (v: Volume) => EqualFold(v.spec.location, location))
        case None => None
        case Some(i) => Some(volumes[i])
    }

    /** The volumes on `node[0]` (exact comparison), in list order, or all of
        them when no node is given; None when the list cannot be read. */
    function GetVolumeCRs(node: seq<string>): (r: Option<seq<Volume>>)
      reads this
      ensures r.None? <==> listErr(VolumeKind).Some?
      ensures r.Some? && node == [] ==> r.value == volumes
      ensures r.Some? && node != [] ==>
                && (forall i :: 0 <= i < |r.value| ==> r.value[i] in volumes && r.value[i].spec.nodeId == node[0])
                && (forall i :: 0 <= i < |volumes| && volumes[i].spec.nodeId == node[0] ==> volumes[i] in r.value)
      ensures r.Some? && node != [] ==> r.value == Filter(volumes, (v: Volume) => v.spec.nodeId == node[0])
    {
      if listErr(VolumeKind).Some? then None
      else if node == [] then Some(volumes)
      else
        FilterSound(volumes, (v: Volume) => v.spec.nodeId == node[0]);
        FilterComplete(volumes, (v: Volume) => v.spec.nodeId == node[0]);
        Some(Filter(volumes, (v: Volume) => v.spec.nodeId == node[0]))
    }

    /** The first volume whose id is `volID` (exact comparison); None when
        there is none or the list cannot be read. */
    function GetVolumeByID(volID: string): (r: Option<Volume>)
      reads this
      ensures listErr(VolumeKind).Some? ==> r.None?
      ensures r.Some? ==> exists i :: 0 <= i < |volumes| && volumes[i] == r.value && volumes[i].spec.id == volID
                                     && forall j :: 0 <= j < i ==> volumes[j].spec.id != volID
      ensures listErr(VolumeKind).None? && r.None? ==> forall i :: 0 <= i < |volumes| ==> volumes[i].spec.id != volID
    {
      match GetVolumeCRs([])
      case None => None
      case Some(vs) =>
        match FindFirst(vs, (v: Volume) => v.spec.id == volID)
        case None => None
        case Some(i) => Some(vs[i])
    }

    /** The drives on `node[0]` (exact comparison), in list order, or all of
        them when no node is given; None when the list cannot be read. */
    function GetDriveCRs(node: seq<string>): (r: Option<seq<Drive>>)
      reads this
      ensures r.None? <==> listErr(DriveKind).Some?
      ensures r.Some? && node == [] ==> r.value == drives
      ensures r.Some? && node != [] ==>
                && (forall i :: 0 <= i < |r.value| ==> r.value[i] in drives && r.value[i].spec.nodeId == node[0])
                && (forall i :: 0 <= i < |drives| && drives[i].spec.nodeId == node[0] ==> drives[i] in r.value)
      ensures r.Some? && node != [] ==> r.value == Filter(drives, (d: Drive) => d.spec.nodeId == node[0])
    {
      if listErr(DriveKind).Some? then None
      else if node == [] then Some(drives)
      else
        FilterSound(drives, (d: Drive) => d.spec.nodeId == node[0]);
        FilterComplete(drives, (d: Drive) => d.spec.nodeId == node[0]);
        Some(Filter(drives, (d: Drive) => d.spec.nodeId == node[0]))
    }

    /** The first drive whose UUID is `uuid` (exact comparison); None when
        there is none or the list cannot be read. */
    function GetDriveCRByUUID(uuid: string): (r: Option<Drive>)
      reads this
      ensures listErr(DriveKind).Some? ==> r.None?
      ensures r.Some? ==> exists i :: 0 <= i < |drives| && drives[i] == r.value && drives[i].spec.uuid == uuid
                                     && forall j :: 0 <= j < i ==> drives[j].spec.uuid != uuid
      ensures listErr(DriveKind).None? && r.None? ==> forall i :: 0 <= i < |drives| ==> drives[i].spec.uuid != uuid
    {
      match GetDriveCRs([])
      case None => None
      case Some(ds) =>
        match FindFirst(ds, (d: Drive) => d.spec.uuid == uuid)
        case None => None
        case Some(i) => Some(ds[i])
    }

    /** The LVGs on `node[0]` (exact comparison), in list order, or all of
        them when no node is given; None when the list cannot be read. */
    function GetLVGCRs(node: seq<string>): (r: Option<seq<LVG>>)
      reads this
      ensures r.None? <==> listErr(LVGKind).Some?
      ensures r.Some? && node == [] ==> r.value == lvgs
      ensures r.Some? && node != [] ==>
                && (forall i :: 0 <= i < |r.value| ==> r.value[i] in lvgs && r.value[i].spec.node == node[0])
                && (forall i :: 0 <= i < |lvgs| && lvgs[i].spec.node == node[0] ==> lvgs[i] in r.value)
      ensures r.Some? && node != [] ==> r.value == Filter(lvgs, (l: LVG) => l.spec.node == node[0])
    {
      if listErr(LVGKind).Some? then None
      else if node == [] then Some(lvgs)
      else
        FilterSound(lvgs, (l: LVG) => l.spec.node == node[0]);
        FilterComplete(lvgs, (l: LVG) => l.spec.node == node[0]);
        Some(Filter(lvgs, (l: LVG) => l.spec.node == node[0]))
    }

    /** Reads the LVG named `name`: the client's read error, a not-found
        error, or the record. */
    function ReadLVG(name: string): (r: Result<LVG>)
      reads this
      ensures readErr(LVGKind)(name).Some? ==> r == Failed(readErr(LVGKind)(name).value)
      ensures r.Ok? ==> r.value in lvgs && r.value.name == name
      ensures readErr(LVGKind)(name).None? && r.Failed? ==> forall i :: 0 <= i < |lvgs| ==> lvgs[i].name != name
    {
      if readErr(LVGKind)(name).Some? then Failed(readErr(LVGKind)(name).value)
      else match FindFirst(lvgs, (l: LVG) => l.name == name)
        case None => Failed(Error(NotFoundMsg))
        case Some(i) => Ok(lvgs[i])
    }

    /** Reads the volume named `name`, as ReadLVG does. */
    function ReadVolume(name: string): (r: Result<Volume>)
      reads this
      ensures readErr(VolumeKind)(name).Some? ==> r == Failed(readErr(VolumeKind)(name).value)
      ensures r.Ok? ==> r.value in volumes && r.value.name == name
      ensures readErr(VolumeKind)(name).None? && r.Failed? ==> forall i :: 0 <= i < |volumes| ==> volumes[i].name != name
    {
      if readErr(VolumeKind)(name).Some? then Failed(readErr(VolumeKind)(name).value)
      else match FindFirst(volumes, (v: Volume) => v.name == name)
        case None => Failed(Error(NotFoundMsg))
        case Some(i) => Ok(volumes[i])
    }

    /** The volume group name recorded in the LVG named `lvgCRName`: the read
        error if it cannot be read, "" and a not-ready error while the LVG is
        being created, otherwise its Spec.Name and no error. */
    function GetVGNameByLVGCRName(lvgCRName: string): (r: (string, Option<Error>))
      reads this
      ensures ReadLVG(lvgCRName).Failed? ==> r == ("", Some(ReadLVG(lvgCRName).error))
      ensures r.1.None? <==> (readErr(LVGKind)(lvgCRName).None? &&
                exists i :: 0 <= i < |lvgs| && lvgs[i].name == lvgCRName && lvgs[i].spec.status != Creating
                         && forall j :: 0 <= j < i ==> lvgs[j].name != lvgCRName)
      ensures readErr(LVGKind)(lvgCRName).None? ==>
                forall i :: 0 <= i < |lvgs| && lvgs[i].name == lvgCRName
                            && (forall j :: 0 <= j < i ==> lvgs[j].name != lvgCRName) ==>
                  r == (if lvgs[i].spec.status == Creating then ("", Some(Error(LVGNotReadyMsg)))
                        else (lvgs[i].spec.name, None))
      ensures r.1.Some? ==> r.0 == ""
    {
      match ReadLVG(lvgCRName)
      case Failed(e) => ("", Some(e))
      case Ok(lvg) =>
        if lvg.spec.status == Creating then ("", Some(Error(LVGNotReadyMsg)))
        else (lvg.spec.name, None)
    }
  
    /** Deletes every AC on `nodeID` (ignoring case), carrying on past
        individual failures; fails iff the list cannot be read (then nothing
        is deleted) or some delete failed. */
    method DeleteACsByNodeID(nodeID: string) returns (err: Option<Error>)
      requires ACsValid()
      modifies this`acs
      ensures ACsValid()
      ensures listErr(ACKind).Some? ==> err == listErr(ACKind) && acs == old(acs)
      ensures listErr(ACKind).None? ==>
                acs == Filter(old(acs), KeepAC(nodeID, deleteErr(ACKind)))
      ensures listErr(ACKind).None? ==>
                (err.Some? <==> exists i :: 0 <= i < |old(acs)| && ACDeleteFails(old(acs)[i], nodeID, deleteErr(ACKind)))
      ensures listErr(ACKind).None? && err.Some? ==> err.value == Error(DeleteSomeFailedMsg)
    {
      if listErr(ACKind).Some? {
        return listErr(ACKind);
      }
      var all := acs;
      var remaining := acs;  // the store's AC list as the deletes go through
      var keep := KeepAC(nodeID, deleteErr(ACKind));
      var isError := false;
      var i := 0;
      while i < |all|
        invariant 0 <= i <= |all|
        invariant DistinctKeys(all, ACName)
        invariant remaining == Filter(all[..i], keep) + all[i..]
        invariant isError <==> SomeACDeleteFails(all, i, nodeID, deleteErr(ACKind))
      {
        var ac := all[i];
        FilterLoopStep(all, i, keep, ACName, remaining);
        SomeACDeleteFailsStep(all, i, nodeID, deleteErr(ACKind));
        if EqualFold(ac.spec.nodeId, nodeID) {
          if deleteErr(ACKind)(ac.name).Some? {
            assert keep(ac);
            isError := true;
          } else {
            assert !keep(ac);
            remaining := RemoveKey(remaining, ac.name, ACName);
          }
        } else {
          assert keep(ac);
        }
        i := i + 1;
      }
      FilterLoopDone(all, keep, ACName, remaining);
      assert isError <==> SomeACDeleteFails(all, |all|, nodeID, deleteErr(ACKind));
      acs := remaining;
      if isError {
        err := Some(Error(DeleteSomeFailedMsg));
      } else {
        err := None;
      }
    }

    /** Sets Spec.Status on every drive of `nodeID` whose status differs,
        leaving drives already at `status` alone; fails iff some write-back
        failed. A list-read failure is swallowed: nothing changes and no
        error is returned. */
    method UpdateDrivesStatusOnNode(nodeID: string, status: string) returns (err: Option<Error>)
      requires DrivesValid()
      modifies this`drives
      ensures DrivesValid()
      ensures listErr(DriveKind).Some? ==> drives == old(drives) && err.None?
      ensures listErr(DriveKind).None? ==>
                && |drives| == |old(drives)|
                && forall i :: 0 <= i < |drives| ==>
                     drives[i] == DriveAfterStatusUpdate(old(drives)[i], nodeID, status, updateErr(DriveKind))
      ensures listErr(DriveKind).None? ==>
                (err.Some? <==> exists i :: 0 <= i < |old(drives)| && DriveUpdateFails(old(drives)[i], nodeID, status, updateErr(DriveKind)))
      ensures err.Some? ==> err.value == Error(UpdateSomeFailedMsg)
    {
      // GetDriveCRs([nodeID]) fails exactly when the list cannot be read, and
      // otherwise yields the node's drives in list order; walking the whole list
      // and skipping the other nodes' drives visits the same records in the
      // same order.
      if listErr(DriveKind).Some? {
        return None;
      }
      var all := drives;
      var isError := false;
      var i := 0;
      while i < |all|
        invariant 0 <= i <= |all|
        invariant |drives| == |all|
        invariant forall j :: 0 <= j < i ==> drives[j] == DriveAfterStatusUpdate(all[j], nodeID, status, updateErr(DriveKind))
        invariant forall j :: i <= j < |all| ==> drives[j] == all[j]
        invariant isError <==> SomeDriveUpdateFails(all, i, nodeID, status, updateErr(DriveKind))
      {
        var drive := all[i];
        SomeDriveUpdateFailsStep(all, i, nodeID, status, updateErr(DriveKind));
        if drive.spec.nodeId == nodeID && drive.spec.status != status {
          var updated := drive.(spec := drive.spec.(status := status));
          if updateErr(DriveKind)(drive.name).Some? {
            isError := true;
          } else {
            DistinctSameKeys(all, drives, DriveName);
            PutAt(drives, i, updated, DriveName);
            drives := Put(drives, updated, DriveName);
          }
        }
        i := i + 1;
      }
      DistinctSameKeys(all, drives, DriveName);
      assert isError <==> SomeDriveUpdateFails(all, |all|, nodeID, status, updateErr(DriveKind));
      if isError {
        err := Some(Error(UpdateSomeFailedMsg));
      } else {
        err := None;
      }
    }

    /** Sets Spec.OperationalStatus on every volume of `nodeID` whose status
        differs, as UpdateDrivesStatusOnNode does for drives. */
    method UpdateVolumesOpStatusOnNode(nodeID: string, opStatus: string) returns (err: Option<Error>)
      requires VolumesValid()
      modifies this`volumes
      ensures VolumesValid()
      ensures listErr(VolumeKind).Some? ==> volumes == old(volumes) && err.None?
      ensures listErr(VolumeKind).None? ==>
                && |volumes| == |old(volumes)|
                && forall i :: 0 <= i < |volumes| ==>
                     volumes[i] == VolumeAfterOpStatusUpdate(old(volumes)[i], nodeID, opStatus, updateErr(VolumeKind))
      ensures listErr(VolumeKind).None? ==>
                (err.Some? <==> exists i :: 0 <= i < |old(volumes)| && VolumeUpdateFails(old(volumes)[i], nodeID, opStatus, updateErr(VolumeKind)))
      ensures err.Some? ==> err.value == Error(UpdateSomeFailedMsg)
    {
      // GetVolumeCRs([nodeID]) fails exactly when the list cannot be read, and
      // otherwise yields the node's volumes in list order; walking the whole list
      // and skipping the other nodes' volumes visits the same records in the
      // same order.
      if listErr(VolumeKind).Some? {
        return None;
      }
      var all := volumes;
      var isError := false;
      var i := 0;
      while i < |all|
        invariant 0 <= i <= |all|
        invariant |volumes| == |all|
        invariant forall j :: 0 <= j < i ==> volumes[j] == VolumeAfterOpStatusUpdate(all[j], nodeID, opStatus, updateErr(VolumeKind))
        invariant forall j :: i <= j < |all| ==> volumes[j] == all[j]
        invariant isError <==> SomeVolumeUpdateFails(all, i, nodeID, opStatus, updateErr(VolumeKind))
      {
        var volume := all[i];
        SomeVolumeUpdateFailsStep(all, i, nodeID, opStatus, updateErr(VolumeKind));
        if volume.spec.nodeId == nodeID && volume.spec.operationalStatus != opStatus {
          var updated := volume.(spec := volume.spec.(operationalStatus := opStatus));
          if updateErr(VolumeKind)(volume.name).Some? {
            isError := true;
          } else {
            DistinctSameKeys(all, volumes, VolumeName);
            PutAt(volumes, i, updated, VolumeName);
            volumes := Put(volumes, updated, VolumeName);
          }
        }
        i := i + 1;
      }
      DistinctSameKeys(all, volumes, VolumeName);
      assert isError <==> SomeVolumeUpdateFails(all, |all|, nodeID, opStatus, updateErr(VolumeKind));
      if isError {
        err := Some(Error(UpdateSomeFailedMsg));
      } else {
        err := None;
      }
    }

    /** Reads the volume named `volName` and writes it back with its Spec
        replaced by `newSpec`; returns the read error, or the write-back's
        result. */
    method UpdateVolumeCRSpec(volName: string, newSpec: VolumeSpec) returns (err: Option<Error>)
      requires VolumesValid()
      modifies this`volumes
      ensures VolumesValid()
      ensures old(ReadVolume(volName)).Failed? ==>
                err == Some(old(ReadVolume(volName)).error) && volumes == old(volumes)
      ensures old(ReadVolume(volName)).Ok? ==> err == updateErr(VolumeKind)(volName)
      ensures old(ReadVolume(volName)).Ok? && err.Some? ==> volumes == old(volumes)
      ensures old(ReadVolume(volName)).Ok? && err.None? ==>
                exists i :: 0 <= i < |old(volumes)| && old(volumes)[i] == old(ReadVolume(volName)).value
                         && volumes == old(volumes)[i := old(volumes)[i].(spec := newSpec)]
    {
      var read := ReadVolume(volName);
      if read.Failed? {
        return Some(read.error);
      }
      var volumeCR := read.value.(spec := newSpec);
      err := updateErr(VolumeKind)(volumeCR.name);
      if err.None? {
        var i :| 0 <= i < |volumes| && volumes[i] == read.value;
        PutAt(volumes, i, volumeCR, VolumeName);
        DistinctUpdate(volumes, i, volumeCR, VolumeName);
        volumes := Put(volumes, volumeCR, VolumeName);
      }
    }
  }
}
