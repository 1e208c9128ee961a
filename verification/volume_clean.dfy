/**
 * The dirty-volume list: `wipeVolumes` on an image change across the storage-format
 * boundary and `cleanDirtyVolumes` on every pod restart both take volumes off the list
 * once they have started wiping them.  Which mount points and namespace files exist is
 * an oracle; the wipe commands and the file deletions themselves are left out.
 */
module VolumeClean {
  import opened Wrappers
  import opened Strings
  import opened Paths
  import opened Volumes

  /** The dirty list a wipe or clean returns and its error, if any. */
  datatype DirtyResult = DirtyResult(dirty: seq<string>, err: Option<string>)

  /** No two volumes share a name, as in a Kubernetes pod spec. */
  ghost predicate DistinctNames(vols: seq<Volume>) {
    forall i, j :: 0 <= i < j < |vols| ==> vols[i].name != vols[j].name
  }

  /** What `remove` leaves was in the list before. */
  lemma RemoveSub(s: seq<string>, r: string)
    ensures multiset(Remove(s, r)) <= multiset(s)
    ensures forall x :: x in Remove(s, r) ==> x in s
    ensures forall x :: x != r ==> multiset(Remove(s, r))[x] == multiset(s)[x]
    ensures r in s ==> multiset(Remove(s, r))[r] == multiset(s)[r] - 1
  {
    if r in s {
      assert multiset(Remove(s, r)) == multiset(s) - multiset{r};
    }
    forall x | x in Remove(s, r) ensures x in s {
      assert x in multiset(Remove(s, r));
    }
  }

  /** How one round's optional `remove` of `name` changes the count of `x`. */
  lemma CountStep(dirty: seq<string>, name: string, removed: bool, x: string)
    ensures var dirty' := if removed then Remove(dirty, name) else dirty;
      if name != x then multiset(dirty')[x] == multiset(dirty)[x] && (x in dirty') == (x in dirty)
      else multiset(dirty')[x] == multiset(dirty)[x] - (if removed && x in dirty then 1 else 0)
  {
    var dirty' := if removed then Remove(dirty, name) else dirty;
    RemoveSub(dirty, name);
    assert (x in dirty') == (x in multiset(dirty'));
    assert (x in dirty) == (x in multiset(dirty));
  }

  // ---- cleanDirtyVolumes ----

  /** A volume `cleanDirtyVolumes` wipes: attached in Aerospike at a namespace device path, dirty, and in block mode. */
  predicate Cleanable(v: Volume, dirty: seq<string>, devices: seq<string>) {
    v.aerospikePath.Some? && v.name in dirty && v.aerospikePath.value in devices && v.mode == BlockMode
  }

  /** The loop of `cleanDirtyVolumes` from some volume on, with the dirty list as it is by then. */
  function CleanFrom(vols: seq<Volume>, dirty: seq<string>, devices: seq<string>, mounted: MountOracle): (r: DirtyResult)
    ensures multiset(r.dirty) <= multiset(dirty)
    decreases |vols|
  {
    if |vols| == 0 then DirtyResult(dirty, None)
    else
      var v := vols[0];
      if !Cleanable(v, dirty, devices) then CleanFrom(vols[1..], dirty, devices, mounted)
      else if !mounted(MountPoint(v)) then DirtyResult(dirty, Some(MountError(v)))
      else
        match WipeJob(v)
        case Failure(e) => DirtyResult(dirty, Some(e))
        case Success(_) =>
          RemoveSub(dirty, v.name);
          CleanFrom(vols[1..], Remove(dirty, v.name), devices, mounted)
  }

  /**
   * A clean fails only at a cleanable volume whose mount point is missing or whose wipe
   * method is unknown; with every cleanable volume mounted and with a known method it
   * succeeds.
   */
  lemma {:induction false} CleanFromErrors(vols: seq<Volume>, dirty: seq<string>, devices: seq<string>, mounted: MountOracle)
    ensures var r := CleanFrom(vols, dirty, devices, mounted);
      r.err.Some? ==> exists k :: (0 <= k < |vols| && Cleanable(vols[k], dirty, devices) &&
        (!mounted(MountPoint(vols[k])) || WipeJob(vols[k]).Failure?))
    ensures (forall k :: 0 <= k < |vols| && Cleanable(vols[k], dirty, devices) ==>
      mounted(MountPoint(vols[k])) && WipeJob(vols[k]).Success?) ==> CleanFrom(vols, dirty, devices, mounted).err.None?
    decreases |vols|
  {
    if |vols| > 0 {
      var v := vols[0];
      assert forall k :: 0 <= k < |vols| - 1 ==> vols[1..][k] == vols[k + 1];
      var dirty' := if Cleanable(v, dirty, devices) then Remove(dirty, v.name) else dirty;
      RemoveSub(dirty, v.name);
      CleanFromErrors(vols[1..], dirty', devices, mounted);
    }
  }

  /** `cleanDirtyVolumes`: the loop over the persistent volumes. */
  function CleanDirtyVolumes(vols: seq<Volume>, dirty: seq<string>, devices: seq<string>, mounted: MountOracle): DirtyResult {
    CleanFrom(PersistentVolumes(vols), dirty, devices, mounted)
  }

  /** A volume whose name no other volume has. */
  ghost predicate Alone(vols: seq<Volume>, x: string) {
    forall k :: 0 <= k < |vols| ==> vols[k].name != x
  }

  /** Some volume named `x` is cleanable. */
  ghost predicate HasCleanable(vols: seq<Volume>, x: string, dirty: seq<string>, devices: seq<string>) {
    exists k :: 0 <= k < |vols| && vols[k].name == x && Cleanable(vols[k], dirty, devices)
  }

  lemma HasCleanableCons(vols: seq<Volume>, x: string, dirty: seq<string>, devices: seq<string>)
    requires |vols| > 0
    ensures HasCleanable(vols, x, dirty, devices) <==>
      (vols[0].name == x && Cleanable(vols[0], dirty, devices)) || HasCleanable(vols[1..], x, dirty, devices)
  {
    if HasCleanable(vols[1..], x, dirty, devices) {
      var k :| 0 <= k < |vols| - 1 && vols[1..][k].name == x && Cleanable(vols[1..][k], dirty, devices);
      assert vols[k + 1] == vols[1..][k];
    }
    if HasCleanable(vols, x, dirty, devices) {
      var k :| 0 <= k < |vols| && vols[k].name == x && Cleanable(vols[k], dirty, devices);
      if k > 0 {
        assert vols[1..][k - 1] == vols[k];
      }
    }
  }

  /** Whether a name is cleanable depends on the dirty list only through whether the name is on it. */
  lemma HasCleanableSame(vols: seq<Volume>, x: string, d1: seq<string>, d2: seq<string>, devices: seq<string>)
    requires (x in d1) == (x in d2)
    ensures HasCleanable(vols, x, d1, devices) == HasCleanable(vols, x, d2, devices)
  {
  }

  /** A clean takes a name off the list only for a cleanable volume of that name. */
  lemma {:induction false} CleanFromRemoves(vols: seq<Volume>, dirty: seq<string>, devices: seq<string>, mounted: MountOracle, x: string)
    ensures multiset(CleanFrom(vols, dirty, devices, mounted).dirty)[x] < multiset(dirty)[x] ==> HasCleanable(vols, x, dirty, devices)
    decreases |vols|
  {
    if |vols| > 0 {
      var v := vols[0];
      HasCleanableCons(vols, x, dirty, devices);
      if Cleanable(v, dirty, devices) && mounted(MountPoint(v)) && WipeJob(v).Success? {
        var dirty' := Remove(dirty, v.name);
        RemoveSub(dirty, v.name);
        CleanFromRemoves(vols[1..], dirty', devices, mounted, x);
        if x != v.name && HasCleanable(vols[1..], x, dirty', devices) {
          HasCleanableSame(vols[1..], x, dirty', dirty, devices);
        }
      } else if !Cleanable(v, dirty, devices) {
        CleanFromRemoves(vols[1..], dirty, devices, mounted, x);
      }
    }
  }

  /**
   * With distinct names, a successful clean takes one copy of a name off the list exactly
   * when a volume of that name was cleanable, and leaves every other name's count alone.
   */
  lemma {:induction false} CleanFromCounts(vols: seq<Volume>, dirty: seq<string>, devices: seq<string>, mounted: MountOracle, x: string)
    requires DistinctNames(vols) && CleanFrom(vols, dirty, devices, mounted).err.None?
    ensures multiset(CleanFrom(vols, dirty, devices, mounted).dirty)[x] == multiset(dirty)[x]
      - (if HasCleanable(vols, x, dirty, devices) then 1 else 0)
    decreases |vols|
  {
    if |vols| > 0 {
      var v, rest := vols[0], vols[1..];
      assert DistinctNames(rest) by {
        assert forall k :: 0 <= k < |rest| ==> rest[k] == vols[k + 1];
      }
      var dirty' := if Cleanable(v, dirty, devices) then Remove(dirty, v.name) else dirty;
      assert CleanFrom(vols, dirty, devices, mounted) == CleanFrom(rest, dirty', devices, mounted);
      CleanFromCounts(rest, dirty', devices, mounted, x);
      HasCleanableCons(vols, x, dirty, devices);
      CountStep(dirty, v.name, Cleanable(v, dirty, devices), x);
      if v.name == x {
        assert Alone(rest, x) by {
          assert forall k :: 0 <= k < |rest| ==> rest[k] == vols[k + 1];
        }
      } else {
        HasCleanableSame(rest, x, dirty', dirty, devices);
      }
    }
  }

  /** `getPersistentVolumes` keeps names distinct. */
  lemma {:induction false} PersistentDistinct(vols: seq<Volume>)
    requires DistinctNames(vols)
    ensures DistinctNames(PersistentVolumes(vols))
    decreases |vols|
  {
    if |vols| > 0 {
      var rest := vols[1..];
      assert forall k :: 0 <= k < |rest| ==> rest[k] == vols[k + 1];
      PersistentDistinct(rest);
      var pr := PersistentVolumes(rest);
      assert forall w :: w in pr ==> w.name != vols[0].name by {
        forall w | w in pr ensures w.name != vols[0].name {
          var k :| 0 <= k < |rest| && rest[k] == w;
        }
      }
      var p := PersistentVolumes(vols);
      if vols[0].persistent {
        assert p == [vols[0]] + pr;
        assert forall j :: 0 < j < |p| ==> p[j] == pr[j - 1] && p[j] in pr;
      } else {
        assert p == pr;
      }
    }
  }

  /**
   * `cleanDirtyVolumes` on a pod with distinct volume names: when it succeeds, a name loses
   * one copy from the dirty list exactly when a persistent volume of that name was dirty,
   * attached at a namespace device path and in block mode; nothing else changes.
   */
  lemma CleanDirtyCounts(vols: seq<Volume>, dirty: seq<string>, devices: seq<string>, mounted: MountOracle, x: string)
    requires DistinctNames(vols) && CleanDirtyVolumes(vols, dirty, devices, mounted).err.None?
    ensures multiset(CleanDirtyVolumes(vols, dirty, devices, mounted).dirty)[x] == multiset(dirty)[x]
      - (if exists v :: v in vols && v.persistent && v.name == x && Cleanable(v, dirty, devices) then 1 else 0)
  {
    var pv := PersistentVolumes(vols);
    PersistentDistinct(vols);
    CleanFromCounts(pv, dirty, devices, mounted, x);
    if exists v :: v in vols && v.persistent && v.name == x && Cleanable(v, dirty, devices) {
      var v :| v in vols && v.persistent && v.name == x && Cleanable(v, dirty, devices);
      assert v in pv;
      var k :| 0 <= k < |pv| && pv[k] == v;
      assert HasCleanable(pv, x, dirty, devices);
    }
  }

  /** A clean that finds nothing cleanable returns the list as it was. */
  lemma CleanNothing(vols: seq<Volume>, dirty: seq<string>, devices: seq<string>, mounted: MountOracle)
    requires forall v :: v in vols && v.persistent ==> !Cleanable(v, dirty, devices)
    ensures CleanDirtyVolumes(vols, dirty, devices, mounted) == DirtyResult(dirty, None)
  {
    var pv := PersistentVolumes(vols);
    var r := CleanFrom(pv, dirty, devices, mounted);
    assert forall k :: 0 <= k < |pv| ==> pv[k] in pv;
    CleanFromSame(pv, dirty, devices, mounted);
  }

  lemma {:induction false} CleanFromSame(vols: seq<Volume>, dirty: seq<string>, devices: seq<string>, mounted: MountOracle)
    requires forall k :: 0 <= k < |vols| ==> !Cleanable(vols[k], dirty, devices)
    ensures CleanFrom(vols, dirty, devices, mounted) == DirtyResult(dirty, None)
    decreases |vols|
  {
    if |vols| > 0 {
      assert forall k :: 0 <= k < |vols| - 1 ==> vols[1..][k] == vols[k + 1];
      CleanFromSame(vols[1..], dirty, devices, mounted);
    }
  }

  // ---- wipeVolumes ----

  /** `filepath.Split`'s file part: the text after the last `/`. */
  function FileName(p: string): (r: string)
    ensures '/' !in r
  {
    var parts := Split(p, '/');
    SplitAbsentAll(p);
    parts[|parts| - 1]
  }

  lemma SplitAbsentAll(p: string)
    ensures |Split(p, '/')| > 0 && forall i :: 0 <= i < |Split(p, '/')| ==> '/' !in Split(p, '/')[i]
  {
    JoinSplit(p, '/');
  }

  /**
   * The namespace files under a filesystem volume's Aerospike path are looked up under its
   * mount point by file name; the first whose lookup fails with something other than
   * "does not exist" (`fault`) stops the wipe with that path.
   */
  function FileFault(files: seq<string>, prefix: string, mountPoint: string, fault: string -> bool): (r: Option<string>)
    requires Rooted(mountPoint)
    ensures r.None? <==> forall i :: 0 <= i < |files| && HasPrefix(files[i], prefix) ==> !fault(JoinPath(mountPoint, FileName(files[i])))
    ensures r.Some? ==> exists i :: (0 <= i < |files| && HasPrefix(files[i], prefix)
      && r.value == JoinPath(mountPoint, FileName(files[i])) && fault(r.value))
    decreases |files|
  {
    if |files| == 0 then None
    else
      assert forall i :: 0 <= i < |files| - 1 ==> files[1..][i] == files[i + 1];
      var path := JoinPath(mountPoint, FileName(files[0]));
      if HasPrefix(files[0], prefix) && fault(path) then Some(path)
      else FileFault(files[1..], prefix, mountPoint, fault)
  }

  /**
   * What stops `wipeVolumes` at a volume, if anything.  Block volumes at a namespace device
   * path need a mount point and a `dd` or `blkdiscard` wipe method, and a bad method is
   * reported under the init method's name; filesystem volumes need `deleteFiles`, a mount
   * point and no failing file lookup; any other mode is an error.  Volumes not attached
   * in Aerospike are passed over.
   */
  function WipeCheck(v: Volume, devices: seq<string>, files: seq<string>, mounted: MountOracle, fault: string -> bool): Option<string> {
    match v.aerospikePath
    case None => None
    case Some(path) =>
      if v.mode == BlockMode then
        if path !in devices then None
        else if !mounted(MountPoint(v)) then Some(MountError(v))
        else if WipeJob(v).Failure? then Some("invalid effective_init_method " + v.initMethod)
        else None
      else if v.mode == FilesystemMode then
        if v.wipeMethod != MethodDeleteFiles then Some("invalid effective_wipe_method " + v.wipeMethod)
        else if !mounted(MountPoint(v)) then Some(MountError(v))
        else
          match FileFault(files, path, MountPoint(v), fault)
          case Some(p) => Some("failed to delete file " + p)
          case None => None
      else Some("invalid volume-mode " + v.mode)
  }

  /** A block volume `wipeVolumes` zeroes, and so takes off the dirty list. */
  predicate Wiped(v: Volume, devices: seq<string>) {
    v.aerospikePath.Some? && v.mode == BlockMode && v.aerospikePath.value in devices
  }

  /** The check `wipeVolumes` makes of each volume, with the lists and oracles of one run fixed. */
  function Check(devices: seq<string>, files: seq<string>, mounted: MountOracle, fault: string -> bool): Volume -> Option<string> {
    v => WipeCheck(v, devices, files, mounted, fault)
  }

  /** The loop of `wipeVolumes` from some volume on, for any per-volume check. */
  function WipeFrom(vols: seq<Volume>, dirty: seq<string>, devices: seq<string>, check: Volume -> Option<string>): (r: DirtyResult)
    ensures multiset(r.dirty) <= multiset(dirty)
    decreases |vols|
  {
    if |vols| == 0 then DirtyResult(dirty, None)
    else
      var v := vols[0];
      match check(v)
      case Some(e) => DirtyResult(dirty, Some(e))
      case None =>
        RemoveSub(dirty, v.name);
        WipeFrom(vols[1..], if Wiped(v, devices) then Remove(dirty, v.name) else dirty, devices, check)
  }

  /** `wipeVolumes`: the loop over the persistent volumes. */
  function WipeVolumes(vols: seq<Volume>, dirty: seq<string>, devices: seq<string>, files: seq<string>,
                       mounted: MountOracle, fault: string -> bool): DirtyResult {
    WipeFrom(PersistentVolumes(vols), dirty, devices, Check(devices, files, mounted, fault))
  }

  /** The loop succeeds exactly when every volume passes the check. */
  lemma {:induction false} WipeFromSucceeds(vols: seq<Volume>, dirty: seq<string>, devices: seq<string>, check: Volume -> Option<string>)
    ensures WipeFrom(vols, dirty, devices, check).err.None? <==> forall k :: 0 <= k < |vols| ==> check(vols[k]).None?
    decreases |vols|
  {
    if |vols| > 0 {
      var v, rest := vols[0], vols[1..];
      var dirty' := if Wiped(v, devices) then Remove(dirty, v.name) else dirty;
      assert check(v).None? ==> WipeFrom(vols, dirty, devices, check) == WipeFrom(rest, dirty', devices, check);
      WipeFromSucceeds(rest, dirty', devices, check);
      assert (forall k :: 0 <= k < |vols| ==> check(vols[k]).None?) <==>
        check(v).None? && forall k :: 0 <= k < |rest| ==> check(rest[k]).None? by {
        assert forall k :: 0 <= k < |rest| ==> rest[k] == vols[k + 1];
      }
    }
  }

  /** A failed loop reports the error of the first volume that fails the check. */
  lemma {:induction false} WipeFromFirstError(vols: seq<Volume>, dirty: seq<string>, devices: seq<string>, check: Volume -> Option<string>)
    returns (k: nat)
    requires WipeFrom(vols, dirty, devices, check).err.Some?
    ensures k < |vols| && check(vols[k]) == WipeFrom(vols, dirty, devices, check).err
    ensures forall j :: 0 <= j < k ==> check(vols[j]).None?
    decreases |vols|
  {
    var v := vols[0];
    if check(v).Some? {
      k := 0;
    } else {
      var dirty' := if Wiped(v, devices) then Remove(dirty, v.name) else dirty;
      WipeFromPass(vols, dirty, devices, check);
      var k' := WipeFromFirstError(vols[1..], dirty', devices, check);
      k := k' + 1;
      ShiftPasses(vols, check, k');
    }
  }

  /** A volume that passes the check hands the loop on to the next one. */
  lemma WipeFromPass(vols: seq<Volume>, dirty: seq<string>, devices: seq<string>, check: Volume -> Option<string>)
    requires |vols| > 0 && check(vols[0]).None?
    ensures WipeFrom(vols, dirty, devices, check)
      == WipeFrom(vols[1..], if Wiped(vols[0], devices) then Remove(dirty, vols[0].name) else dirty, devices, check)
  {
  }

  lemma ShiftPasses(vols: seq<Volume>, check: Volume -> Option<string>, k: nat)
    requires 0 < |vols| && k < |vols| - 1 && check(vols[0]).None?
    requires forall j :: 0 <= j < k ==> check(vols[1..][j]).None?
    ensures forall j :: 0 <= j < k + 1 ==> check(vols[j]).None?
  {
    forall j | 0 < j < k + 1
      ensures check(vols[j]).None?
    {
      assert vols[j] == vols[1..][j - 1];
    }
  }

  /**
   * `wipeVolumes` succeeds exactly when every persistent volume passes its check, and when
   * it fails it reports the error of the first persistent volume that does not.
   */
  lemma WipeErrors(vols: seq<Volume>, dirty: seq<string>, devices: seq<string>, files: seq<string>,
                   mounted: MountOracle, fault: string -> bool) returns (k: nat)
    ensures var r := WipeVolumes(vols, dirty, devices, files, mounted, fault);
      r.err.None? <==> forall v :: v in vols && v.persistent ==> WipeCheck(v, devices, files, mounted, fault).None?
    ensures var r := WipeVolumes(vols, dirty, devices, files, mounted, fault);
      r.err.Some? ==> (k < |PersistentVolumes(vols)|
        && WipeCheck(PersistentVolumes(vols)[k], devices, files, mounted, fault) == r.err
        && forall j :: 0 <= j < k ==> WipeCheck(PersistentVolumes(vols)[j], devices, files, mounted, fault).None?)
  {
    var pv := PersistentVolumes(vols);
    var check := Check(devices, files, mounted, fault);
    WipeFromSucceeds(pv, dirty, devices, check);
    assert (forall v :: v in vols && v.persistent ==> check(v).None?) <==> forall i :: 0 <= i < |pv| ==> check(pv[i]).None? by {
      assert forall i :: 0 <= i < |pv| ==> pv[i] in pv;
    }
    k := 0;
    if WipeFrom(pv, dirty, devices, check).err.Some? {
      k := WipeFromFirstError(pv, dirty, devices, check);
    }
  }

  /** Some volume named `x` is wiped. */
  ghost predicate HasWiped(vols: seq<Volume>, x: string, devices: seq<string>) {
    exists k :: 0 <= k < |vols| && vols[k].name == x && Wiped(vols[k], devices)
  }

  lemma HasWipedCons(vols: seq<Volume>, x: string, devices: seq<string>)
    requires |vols| > 0
    ensures HasWiped(vols, x, devices) <==> (vols[0].name == x && Wiped(vols[0], devices)) || HasWiped(vols[1..], x, devices)
  {
    if HasWiped(vols[1..], x, devices) {
      var k :| 0 <= k < |vols| - 1 && vols[1..][k].name == x && Wiped(vols[1..][k], devices);
      assert vols[k + 1] == vols[1..][k];
    }
    if HasWiped(vols, x, devices) {
      var k :| 0 <= k < |vols| && vols[k].name == x && Wiped(vols[k], devices);
      if k > 0 {
        assert vols[1..][k - 1] == vols[k];
      }
    }
  }

  /** A wipe takes a name off the list only for a wiped volume of that name. */
  lemma {:induction false} WipeFromRemoves(vols: seq<Volume>, dirty: seq<string>, devices: seq<string>, check: Volume -> Option<string>, x: string)
    ensures multiset(WipeFrom(vols, dirty, devices, check).dirty)[x] < multiset(dirty)[x] ==> HasWiped(vols, x, devices)
    decreases |vols|
  {
    if |vols| > 0 {
      var v := vols[0];
      HasWipedCons(vols, x, devices);
      if check(v).None? {
        RemoveSub(dirty, v.name);
        WipeFromRemoves(vols[1..], if Wiped(v, devices) then Remove(dirty, v.name) else dirty, devices, check, x);
      }
    }
  }

  /**
   * With distinct names, a successful wipe takes one copy of a name off the list exactly
   * when that name is dirty and a volume of that name was wiped.
   */
  lemma {:induction false} WipeFromCounts(vols: seq<Volume>, dirty: seq<string>, devices: seq<string>, check: Volume -> Option<string>, x: string)
    requires DistinctNames(vols) && WipeFrom(vols, dirty, devices, check).err.None?
    ensures multiset(WipeFrom(vols, dirty, devices, check).dirty)[x] == multiset(dirty)[x]
      - (if x in dirty && HasWiped(vols, x, devices) then 1 else 0)
    decreases |vols|
  {
    if |vols| > 0 {
      var v, rest := vols[0], vols[1..];
      var dirty' := if Wiped(v, devices) then Remove(dirty, v.name) else dirty;
      WipeFromHead(vols, dirty, devices, check);
      WipeFromPass(vols, dirty, devices, check);
      DistinctTail(vols);
      WipeFromCounts(rest, dirty', devices, check, x);
      HasWipedCons(vols, x, devices);
      CountStep(dirty, v.name, Wiped(v, devices), x);
      if v.name == x {
        AloneNotWiped(rest, x, devices);
      }
    }
  }

  /** A loop that succeeds passes its first volume. */
  lemma WipeFromHead(vols: seq<Volume>, dirty: seq<string>, devices: seq<string>, check: Volume -> Option<string>)
    requires |vols| > 0 && WipeFrom(vols, dirty, devices, check).err.None?
    ensures check(vols[0]).None?
  {
  }

  /** Past the first volume the names stay distinct, and none repeats the first. */
  lemma DistinctTail(vols: seq<Volume>)
    requires |vols| > 0 && DistinctNames(vols)
    ensures DistinctNames(vols[1..]) && Alone(vols[1..], vols[0].name)
  {
    assert forall k :: 0 <= k < |vols| - 1 ==> vols[1..][k] == vols[k + 1];
  }

  lemma AloneNotWiped(vols: seq<Volume>, x: string, devices: seq<string>)
    requires Alone(vols, x)
    ensures !HasWiped(vols, x, devices)
  {
  }

  /**
   * `wipeVolumes` on a pod with distinct volume names: a name loses one copy from the dirty
   * list only for a persistent block volume of that name at a namespace device path, and
   * when the wipe succeeds every such dirty name does lose one copy; nothing else changes.
   */
  lemma WipeDirtyCounts(vols: seq<Volume>, dirty: seq<string>, devices: seq<string>, files: seq<string>,
                        mounted: MountOracle, fault: string -> bool, x: string)
    requires DistinctNames(vols)
    ensures var r := WipeVolumes(vols, dirty, devices, files, mounted, fault);
      multiset(r.dirty)[x] < multiset(dirty)[x] ==> exists v :: v in vols && v.persistent && v.name == x && Wiped(v, devices)
    ensures var r := WipeVolumes(vols, dirty, devices, files, mounted, fault);
      r.err.None? ==> (multiset(r.dirty)[x] == multiset(dirty)[x]
        - (if x in dirty && exists v :: v in vols && v.persistent && v.name == x && Wiped(v, devices) then 1 else 0))
  {
    var pv := PersistentVolumes(vols);
    var check := Check(devices, files, mounted, fault);
    PersistentDistinct(vols);
    WipeFromRemoves(pv, dirty, devices, check, x);
    if WipeFrom(pv, dirty, devices, check).err.None? {
      WipeFromCounts(pv, dirty, devices, check, x);
    }
    if HasWiped(pv, x, devices) {
      var k :| 0 <= k < |pv| && pv[k].name == x && Wiped(pv[k], devices);
      assert pv[k] in pv;
    }
    if exists v :: v in vols && v.persistent && v.name == x && Wiped(v, devices) {
      var v :| v in vols && v.persistent && v.name == x && Wiped(v, devices);
      assert v in pv;
      var k :| 0 <= k < |pv| && pv[k] == v;
      assert HasWiped(pv, x, devices);
    }
  }
}
