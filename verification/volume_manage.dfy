/**
 * `manageVolumesAndUpdateStatus` up to the status patch: on a pod restart the volumes are
 * initialised, wiped when the image change crosses the storage-format boundary, and the
 * dirty ones cleaned; the metadata sent back records the pod image and both lists.
 */
module VolumeManage {
  import opened Wrappers
  import opened Volumes
  import opened VolumeInit
  import opened VolumeClean

  /** The restart type that runs the volume steps; any other leaves the lists alone. */
  const PodRestart: string := "podRestart"

  /** The pod's entry in the cluster status: its image and its two volume lists. */
  datatype PodStatus = PodStatus(image: string, initialized: seq<string>, dirty: seq<string>)

  /** What the init container reports for the pod. */
  datatype Metadata = Metadata(image: string, initialized: seq<string>, dirty: seq<string>)

  /**
   * The rack's volumes, the namespace device and file paths, and the lookups the volume
   * steps make: PVC UIDs, mount points, namespace files and image major versions.
   */
  datatype Site = Site(
    vols: seq<Volume>,
    devices: seq<string>,
    files: seq<string>,
    uid: UidOracle,
    mounted: MountOracle,
    fault: string -> bool,
    major: string -> Result<int>)

  /** The lists of a pod the status does not know yet are empty, and so is its previous image. */
  function Previous(status: Option<PodStatus>): PodStatus {
    match status
    case None => PodStatus("", [], [])
    case Some(p) => p
  }

  /** `manageVolumesAndUpdateStatus`, returning the metadata it would patch into the status. */
  function ManageVolumes(restartType: string, podImage: string, status: Option<PodStatus>, site: Site): (r: Result<Metadata>)
    ensures r.Success? ==> r.value.image == podImage
    ensures restartType != PodRestart ==>
      r == Success(Metadata(podImage, Previous(status).initialized, Previous(status).dirty))
    ensures r.Success? ==> multiset(r.value.dirty) <= multiset(Previous(status).dirty)
  {
    var prev := Previous(status);
    if restartType != PodRestart then Success(Metadata(podImage, prev.initialized, prev.dirty))
    else
      var init := InitVolumes(site.vols, site.uid, site.mounted, prev.initialized);
      match init.err
      case Some(e) => Failure(e)
      case None =>
        match ShouldWipe(prev.image, podImage, site.major)
        case Failure(e) => Failure(e)
        case Success(wipe) =>
          var wiped := if wipe then WipeVolumes(site.vols, prev.dirty, site.devices, site.files, site.mounted, site.fault)
                       else DirtyResult(prev.dirty, None);
          match wiped.err
          case Some(e) => Failure(e)
          case None =>
            var cleaned := CleanDirtyVolumes(site.vols, wiped.dirty, site.devices, site.mounted);
            match cleaned.err
            case Some(e) => Failure(e)
            case None => Success(Metadata(podImage, init.names, cleaned.dirty))
  }

  /**
   * After a successful pod restart, every persistent volume is recorded in the reported
   * list with its current PVC UID.
   */
  lemma ManageRecordsEveryVolume(podImage: string, status: Option<PodStatus>, site: Site)
    requires AtFree(PersistentVolumes(site.vols), site.uid)
    requires ManageVolumes(PodRestart, podImage, status, site).Success?
    ensures var r := ManageVolumes(PodRestart, podImage, status, site).value;
      forall v :: v in site.vols && v.persistent ==> site.uid(v.name).Success? && Records(r.initialized, v.name, site.uid(v.name).value)
  {
    InitRecordsEveryVolume(site.vols, site.uid, site.mounted, Previous(status).initialized);
  }

  /** A pod without a previous image is never wiped: its dirty list only goes through the clean. */
  lemma ManageNoWipeWithoutImage(podImage: string, status: Option<PodStatus>, site: Site)
    requires Previous(status).image == ""
    requires ManageVolumes(PodRestart, podImage, status, site).Success?
    ensures ManageVolumes(PodRestart, podImage, status, site).value.dirty
      == CleanDirtyVolumes(site.vols, Previous(status).dirty, site.devices, site.mounted).dirty
  {
  }

  /** Restarting into the same image never wipes: the major version cannot cross the boundary. */
  lemma ManageNoWipeSameImage(podImage: string, site: Site, initialized: seq<string>, dirty: seq<string>)
    requires ManageVolumes(PodRestart, podImage, Some(PodStatus(podImage, initialized, dirty)), site).Success?
    ensures ManageVolumes(PodRestart, podImage, Some(PodStatus(podImage, initialized, dirty)), site).value.dirty
      == CleanDirtyVolumes(site.vols, dirty, site.devices, site.mounted).dirty
  {
    if podImage != "" {
      CrossesWipeBoundarySpec(site.major(podImage).value, site.major(podImage).value);
    }
  }

  /**
   * Restarting the pod again with the status the first restart reported initialises
   * nothing more: the initialised-volume list comes back as it was.
   */
  lemma ManageRerunKeepsInitialized(podImage: string, status: Option<PodStatus>, site: Site)
    requires AtFree(PersistentVolumes(site.vols), site.uid)
    requires ManageVolumes(PodRestart, podImage, status, site).Success?
    ensures var m := ManageVolumes(PodRestart, podImage, status, site).value;
      var again := ManageVolumes(PodRestart, podImage, Some(PodStatus(podImage, m.initialized, m.dirty)), site);
      again.Success? ==> again.value.initialized == m.initialized
  {
    InitIdempotent(site.vols, site.uid, site.mounted, Previous(status).initialized);
    var m := ManageVolumes(PodRestart, podImage, status, site).value;
    ManageInitialized(podImage, status, site);
    ManageInitialized(podImage, Some(PodStatus(podImage, m.initialized, m.dirty)), site);
  }

  /** A successful restart reports the list the volume initialisation returned. */
  lemma ManageInitialized(podImage: string, status: Option<PodStatus>, site: Site)
    ensures var r := ManageVolumes(PodRestart, podImage, status, site);
      r.Success? ==> (InitVolumes(site.vols, site.uid, site.mounted, Previous(status).initialized).err.None?
        && r.value.initialized == InitVolumes(site.vols, site.uid, site.mounted, Previous(status).initialized).names)
  {
  }
}
