/**
 * The init container's volume bookkeeping: which volumes need initialising on a pod
 * restart, the `name@uid` list of initialised volumes it reports back, the list of
 * dirty volumes it cleans, and when an image change calls for a wipe.  Running `dd`,
 * `blkdiscard` and `find` is left to the caller: the model returns the command lines
 * it would start.  Whether a mount point exists and what a volume's PVC UID is are
 * oracles.
 */
module Volumes {
  import opened Wrappers
  import opened Strings
  import opened Paths

  const FileSystemMountPoint: string := "/workdir/filesystem-volumes"
  const BlockMountPoint: string := "/workdir/block-volumes"
  const BaseWipeVersion: int := 6

  /** Whether `os.Stat` finds a path. */
  type MountOracle = string -> bool

  /** Kubernetes `PersistentVolumeBlock` and `PersistentVolumeFilesystem`. */
  const BlockMode: string := "Block"
  const FilesystemMode: string := "Filesystem"

  /** The operator's `AerospikeVolumeMethod` values. */
  const MethodDD: string := "dd"
  const MethodBlkdiscard: string := "blkdiscard"
  const MethodDeleteFiles: string := "deleteFiles"
  const MethodNone: string := "none"

  /**
   * A rack's volume as the init container sees it: the name, whether it is backed by a
   * persistent volume, its mode, the effective init and wipe methods, and the path it is
   * attached at inside the Aerospike container, if it is attached there.
   */
  datatype Volume = Volume(
    name: string,
    persistent: bool,
    mode: string,
    initMethod: string,
    wipeMethod: string,
    aerospikePath: Option<string>)

  /** `getPersistentVolumes`: the persistent volumes, in order. */
  function PersistentVolumes(vols: seq<Volume>): (r: seq<Volume>)
    ensures forall v :: v in r <==> v in vols && v.persistent
  {
    if |vols| == 0 then []
    else (if vols[0].persistent then [vols[0]] else []) + PersistentVolumes(vols[1..])
  }

  // ---- mount points ----

  /** `getMountPoint`: block volumes under the block mount point, all others under the filesystem one. */
  function MountPoint(v: Volume): (p: string)
    ensures Rooted(p)
  {
    if v.mode == BlockMode then JoinPath(BlockMountPoint, v.name)
    else JoinPath(FileSystemMountPoint, v.name)
  }

  /** For a plain volume name the mount point is the base, a `/` and the name. */
  lemma MountPointPlain(v: Volume)
    requires Plain(v.name)
    ensures MountPoint(v) == (if v.mode == BlockMode then BlockMountPoint else FileSystemMountPoint) + "/" + v.name
  {
    if v.mode == BlockMode {
      var base := BlockElements();
      JoinPlain(base, v.name);
    } else {
      var base := FileSystemElements();
      JoinPlain(base, v.name);
    }
  }

  /** `/workdir/block-volumes`, element by element. */
  lemma BlockElements() returns (base: seq<string>)
    ensures |base| > 0 && forall i :: 0 <= i < |base| ==> Plain(base[i])
    ensures BlockMountPoint == "/" + Join(base, '/')
  {
    base := ["workdir", "block-volumes"];
    JoinTwo("workdir", "block-volumes");
  }

  /** `/workdir/filesystem-volumes`, element by element. */
  lemma FileSystemElements() returns (base: seq<string>)
    ensures |base| > 0 && forall i :: 0 <= i < |base| ==> Plain(base[i])
    ensures FileSystemMountPoint == "/" + Join(base, '/')
  {
    base := ["workdir", "filesystem-volumes"];
    JoinTwo("workdir", "filesystem-volumes");
  }

  lemma JoinTwo(a: string, b: string)
    ensures Join([a, b], '/') == a + "/" + b
  {
    assert [a, b][1..] == [b];
  }

  // ---- remove ----

  /** `remove(s, r)`: `s` without its first `r`, or `s` itself when there is none. */
  function Remove<T(==)>(s: seq<T>, r: T): (t: seq<T>)
    ensures r !in s ==> t == s
    ensures r in s ==> |t| == |s| - 1 && multiset(t) == multiset(s) - multiset{r}
    decreases |s|
  {
    if |s| == 0 then s
    else if s[0] == r then
      assert s == [s[0]] + s[1..];
      s[1..]
    else
      assert s == [s[0]] + s[1..];
      assert r in s ==> r in s[1..];
      [s[0]] + Remove(s[1..], r)
  }

  /** What `remove` drops is the first occurrence: the elements before and after it stay in order. */
  lemma {:induction false} RemoveAt<T>(s: seq<T>, r: T, i: nat)
    requires i < |s| && s[i] == r && r !in s[..i]
    ensures Remove(s, r) == s[..i] + s[i + 1..]
    decreases i
  {
    if i > 0 {
      TailBefore(s, r, i);
      RemoveAt(s[1..], r, i - 1);
      RemoveCons(s, r);
      ConsSlices(s, i);
    }
  }

  lemma TailBefore<T>(s: seq<T>, r: T, i: nat)
    requires 0 < i < |s| && r !in s[..i]
    ensures s[0] != r && r !in s[1..][..i - 1]
  {
    assert s[..i] == [s[0]] + s[1..][..i - 1];
  }

  lemma RemoveCons<T>(s: seq<T>, r: T)
    requires |s| > 0 && s[0] != r
    ensures Remove(s, r) == [s[0]] + Remove(s[1..], r)
  {
  }

  lemma ConsSlices<T>(s: seq<T>, i: nat)
    requires 0 < i < |s|
    ensures [s[0]] + (s[1..][..i - 1] + s[1..][i..]) == s[..i] + s[i + 1..]
  {
    assert s[1..][i..] == s[i + 1..];
    assert s[..i] == [s[0]] + s[1..][..i - 1];
  }

  // ---- the initialised-volume list ----

  /** A recorded entry `name@uid`. */
  function Entry(name: string, uid: string): string {
    name + "@" + uid
  }

  /** The volume name an entry records: the text before its first `@`. */
  function NamePart(e: string): string
    decreases |e|
  {
    if |e| == 0 || e[0] == '@' then "" else [e[0]] + NamePart(e[1..])
  }

  /** The name part is the first piece `strings.Split(e, "@")` gives. */
  lemma {:induction false} NamePartSplit(e: string)
    ensures NamePart(e) == Split(e, '@')[0]
    decreases |e|
  {
    if |e| > 0 && e[0] != '@' {
      NamePartSplit(e[1..]);
    }
  }

  /** An entry in the current `name@uid` format: exactly one `@`. */
  predicate NewFormat(e: string) {
    |Split(e, '@')| == 2
  }

  /** The PVC UID an entry records. */
  function UidPart(e: string): string
    requires |Split(e, '@')| >= 2
  {
    Split(e, '@')[1]
  }

  /** An entry built from an `@`-free name and UID reads back as that name and UID. */
  lemma EntryParts(name: string, uid: string)
    requires '@' !in name && '@' !in uid
    ensures Split(Entry(name, uid), '@') == [name, uid]
    ensures NewFormat(Entry(name, uid)) && NamePart(Entry(name, uid)) == name && UidPart(Entry(name, uid)) == uid
  {
    assert Entry(name, uid) == name + ['@'] + uid;
    SplitAppend(name, '@', uid);
    SplitAbsent(name, '@');
    SplitAbsent(uid, '@');
    NamePartSplit(Entry(name, uid));
  }

  /** `removeOldFormattedVolumeName`: the entries with exactly one `@`, in order. */
  function KeepNewFormat(entries: seq<string>): (r: seq<string>)
    ensures |r| <= |entries|
    ensures forall e :: e in r <==> e in entries && NewFormat(e)
    ensures forall i :: 0 <= i < |r| ==> NewFormat(r[i])
    decreases |entries|
  {
    if |entries| == 0 then []
    else (if NewFormat(entries[0]) then [entries[0]] else []) + KeepNewFormat(entries[1..])
  }

  /** The filter keeps order: it works on each part of a list separately. */
  lemma {:induction false} KeepNewFormatAppend(a: seq<string>, b: seq<string>)
    ensures KeepNewFormat(a + b) == KeepNewFormat(a) + KeepNewFormat(b)
    decreases |a|
  {
    if |a| == 0 {
      assert a + b == b;
    } else {
      assert (a + b)[0] == a[0] && (a + b)[1..] == a[1..] + b;
      KeepNewFormatAppend(a[1..], b);
    }
  }

  /** A list already in the new format is left as it is, so filtering twice is filtering once. */
  lemma {:induction false} KeepNewFormatAll(entries: seq<string>)
    requires forall i :: 0 <= i < |entries| ==> NewFormat(entries[i])
    ensures KeepNewFormat(entries) == entries
    decreases |entries|
  {
    if |entries| > 0 {
      KeepNewFormatAll(entries[1..]);
      assert entries == [entries[0]] + entries[1..];
    }
  }

  /** The first entry recording the volume `name`. */
  function FindVolume(entries: seq<string>, name: string): (r: Option<nat>)
    ensures r.Some? ==> r.value < |entries| && NamePart(entries[r.value]) == name
    ensures r.Some? ==> forall j :: 0 <= j < r.value ==> NamePart(entries[j]) != name
    ensures r.None? ==> forall j :: 0 <= j < |entries| ==> NamePart(entries[j]) != name
  {
    FindFrom(entries, name, 0)
  }

  /** The loop of `isVolInitialisationNeeded` from index `i` on. */
  function FindFrom(entries: seq<string>, name: string, i: nat): (r: Option<nat>)
    ensures r.Some? ==> i <= r.value < |entries| && NamePart(entries[r.value]) == name
    ensures r.Some? ==> forall j :: i <= j < r.value ==> NamePart(entries[j]) != name
    ensures r.None? ==> forall j :: i <= j < |entries| ==> NamePart(entries[j]) != name
    decreases |entries| - i
  {
    if i >= |entries| then None
    else if NamePart(entries[i]) == name then Some(i)
    else FindFrom(entries, name, i + 1)
  }

  /** The first entry for `name`, if any, has a UID part: otherwise the source indexes out of range. */
  predicate Readable(entries: seq<string>, name: string) {
    match FindVolume(entries, name)
    case None => true
    case Some(i) => |Split(entries[i], '@')| >= 2
  }

  /** Whether the first entry for `name` records `uid`. */
  predicate Records(entries: seq<string>, name: string, uid: string) {
    match FindVolume(entries, name)
    case None => false
    case Some(i) => |Split(entries[i], '@')| >= 2 && UidPart(entries[i]) == uid
  }

  datatype NeedInit = NeedInit(needed: bool, entries: seq<string>)

  /**
   * `isVolInitialisationNeeded`: the first entry for the volume decides.  The same UID means
   * no initialisation and the list unchanged; another UID means initialisation with that
   * entry removed; no entry means initialisation with the list unchanged.
   */
  function InitialisationNeeded(entries: seq<string>, name: string, uid: string): (r: NeedInit)
    requires Readable(entries, name)
    ensures r.needed <==> !Records(entries, name, uid)
    ensures !r.needed || FindVolume(entries, name).None? ==> r.entries == entries
    ensures r.needed && FindVolume(entries, name).Some? ==>
      var i := FindVolume(entries, name).value;
      r.entries == entries[..i] + entries[i + 1..]
  {
    match FindVolume(entries, name)
    case None => NeedInit(true, entries)
    case Some(i) =>
      if UidPart(entries[i]) != uid then
        assert entries[i] !in entries[..i] by {
          forall j | 0 <= j < i ensures entries[..i][j] != entries[i] {
            assert NamePart(entries[j]) != name;
          }
        }
        RemoveAt(entries, entries[i], i);
        NeedInit(true, Remove(entries, entries[i]))
      else NeedInit(false, entries)
  }

  // ---- commands ----

  /** The `dd` zeroing a block device. */
  function DDCommand(mountPoint: string): seq<string> {
    [MethodDD, "if=/dev/zero", "of=" + mountPoint, "bs=1M"]
  }

  function BlkdiscardCommand(mountPoint: string): seq<string> {
    [MethodBlkdiscard, mountPoint]
  }

  /** The `find` deleting every file under a filesystem volume. */
  function DeleteFilesCommand(mountPoint: string): seq<string> {
    ["find", mountPoint, "-type", "f", "-delete"]
  }

  /**
   * How `initVolumes` initialises a volume: the command it starts (`None` for `none`), or
   * the error for a method the volume's mode does not allow or an unknown mode.
   */
  function InitJob(v: Volume): (r: Result<Option<seq<string>>>)
    ensures r.Success? <==>
      (v.mode == BlockMode && (v.initMethod == MethodDD || v.initMethod == MethodBlkdiscard || v.initMethod == MethodNone))
      || (v.mode == FilesystemMode && (v.initMethod == MethodDeleteFiles || v.initMethod == MethodNone))
    ensures r.Success? ==> (r.value.None? <==> v.initMethod == MethodNone)
    ensures r.Success? && r.value.Some? ==> MountPoint(v) in r.value.value || "of=" + MountPoint(v) in r.value.value
  {
    if v.mode == BlockMode then
      if v.initMethod == MethodDD then Success(Some(DDCommand(MountPoint(v))))
      else if v.initMethod == MethodBlkdiscard then Success(Some(BlkdiscardCommand(MountPoint(v))))
      else if v.initMethod == MethodNone then Success(None)
      else Failure("invalid effective_init_method " + v.initMethod)
    else if v.mode == FilesystemMode then
      if v.initMethod == MethodDeleteFiles then Success(Some(DeleteFilesCommand(MountPoint(v))))
      else if v.initMethod == MethodNone then Success(None)
      else Failure("invalid effective_init_method " + v.initMethod)
    else Failure("invalid volume-mode " + v.mode)
  }

  /** How `cleanDirtyVolumes` wipes a block volume: `dd` or `blkdiscard`; any other method is an error. */
  function WipeJob(v: Volume): (r: Result<seq<string>>)
    ensures r.Success? <==> v.wipeMethod == MethodDD || v.wipeMethod == MethodBlkdiscard
    ensures r.Success? ==> |r.value| > 0 && r.value[0] == v.wipeMethod
  {
    if v.wipeMethod == MethodDD then Success(DDCommand(MountPoint(v)))
    else if v.wipeMethod == MethodBlkdiscard then Success(BlkdiscardCommand(MountPoint(v)))
    else Failure("invalid effective_wipe_method " + v.wipeMethod)
  }

  /** The error for a mount point that is not there. */
  function MountError(v: Volume): string {
    "mounting point " + MountPoint(v) + " does not exist"
  }

  // ---- wipe on image change ----

  /** The major versions lie on opposite sides of the version that changed the storage format. */
  predicate CrossesWipeBoundary(prevMajor: int, nextMajor: int) {
    (nextMajor >= BaseWipeVersion && BaseWipeVersion > prevMajor)
    || (nextMajor < BaseWipeVersion && BaseWipeVersion <= prevMajor)
  }

  /** The boundary is crossed exactly when one side is below it and the other is not. */
  lemma CrossesWipeBoundarySpec(prevMajor: int, nextMajor: int)
    ensures CrossesWipeBoundary(prevMajor, nextMajor) <==> ((prevMajor < BaseWipeVersion) != (nextMajor < BaseWipeVersion))
    ensures CrossesWipeBoundary(prevMajor, nextMajor) == CrossesWipeBoundary(nextMajor, prevMajor)
    ensures !CrossesWipeBoundary(prevMajor, prevMajor)
  {
  }

  /**
   * The wipe decision in `manageVolumesAndUpdateStatus`: no previous image means no wipe;
   * otherwise both images' major versions are read (`major` stands for `getImageVersion`)
   * and a failure to read either is returned as an error.
   */
  function ShouldWipe(prevImage: string, podImage: string, major: string -> Result<int>): (r: Result<bool>)
    ensures prevImage == "" ==> r == Success(false)
    ensures prevImage != "" && major(prevImage).Failure? ==> r == Failure(major(prevImage).error)
    ensures r.Success? && r.value ==> prevImage != "" && major(prevImage).Success? && major(podImage).Success?
  {
    if prevImage == "" then Success(false)
    else
      match major(prevImage)
      case Failure(e) => Failure(e)
      case Success(prev) =>
        match major(podImage)
        case Failure(e) => Failure(e)
        case Success(next) => Success(CrossesWipeBoundary(prev, next))
  }

  /** With both versions read, the decision is the boundary test, and it is the same either way round. */
  lemma ShouldWipeSymmetric(a: string, b: string, major: string -> Result<int>)
    requires a != "" && b != "" && major(a).Success? && major(b).Success?
    ensures ShouldWipe(a, b, major) == Success(CrossesWipeBoundary(major(a).value, major(b).value))
    ensures ShouldWipe(a, b, major) == ShouldWipe(b, a, major)
  {
  }
}
