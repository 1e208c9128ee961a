/**
 * `initVolumes`: on a pod restart, every persistent volume whose PVC is not the one
 * recorded in the pod's `initializedVolumes` list is initialised, and the list reported
 * back is the volumes initialised now, as `name@uid` in volume order, followed by the
 * surviving entries of the old list.
 */
module VolumeInit {
  import opened Wrappers
  import opened Strings
  import opened Volumes

  /** `getPVCUid`: the UID of the PVC behind a volume name, or the lookup's error. */
  type UidOracle = string -> Result<string>

  /** The list `initVolumes` returns and its error, if any. */
  datatype InitResult = InitResult(names: seq<string>, err: Option<string>)

  predicate AllNewFormat(entries: seq<string>) {
    forall i :: 0 <= i < |entries| ==> NewFormat(entries[i])
  }

  /** A volume that can make `initVolumes` fail: its UID lookup fails, it is not mounted, or its method is invalid. */
  predicate Trouble(v: Volume, uid: UidOracle, mounted: MountOracle) {
    uid(v.name).Failure? || !mounted(MountPoint(v)) || InitJob(v).Failure?
  }

  /**
   * The loop of `initVolumes` from some volume on: `entries` is what is left of the old
   * list, `made` the entries added so far.
   */
  function InitFrom(vols: seq<Volume>, uid: UidOracle, mounted: MountOracle, entries: seq<string>, made: seq<string>): (r: InitResult)
    requires AllNewFormat(entries)
    ensures r.err.None? ==> forall k :: 0 <= k < |vols| ==> uid(vols[k].name).Success?
    ensures r.err.Some? ==> exists k :: 0 <= k < |vols| && Trouble(vols[k], uid, mounted)
    ensures (forall k :: 0 <= k < |vols| ==> !Trouble(vols[k], uid, mounted)) ==> r.err.None?
    decreases |vols|
  {
    if |vols| == 0 then InitResult(made + entries, None)
    else
      var v := vols[0];
      match uid(v.name)
      case Failure(e) => InitResult([], Some(e))
      case Success(u) =>
        NeededKeepsFormat(entries, v.name, u);
        var n := InitialisationNeeded(entries, v.name, u);
        if !n.needed then InitFrom(vols[1..], uid, mounted, n.entries, made)
        else if !mounted(MountPoint(v)) then InitResult(made, Some(MountError(v)))
        else
          match InitJob(v)
          case Failure(e) => InitResult(made, Some(e))
          case Success(_) => InitFrom(vols[1..], uid, mounted, n.entries, made + [Entry(v.name, u)])
  }

  /** `initVolumes`: old-format entries are dropped first, then the persistent volumes are visited in order. */
  function InitVolumes(vols: seq<Volume>, uid: UidOracle, mounted: MountOracle, initialized: seq<string>): InitResult {
    InitFrom(PersistentVolumes(vols), uid, mounted, KeepNewFormat(initialized), [])
  }

  /** A list in the new format can be read for any name, and what `isVolInitialisationNeeded` leaves of it stays in the new format. */
  lemma NeededKeepsFormat(entries: seq<string>, name: string, uid: string)
    requires AllNewFormat(entries)
    ensures Readable(entries, name)
    ensures AllNewFormat(InitialisationNeeded(entries, name, uid).entries)
  {
    var r := InitialisationNeeded(entries, name, uid);
    if r.needed && FindVolume(entries, name).Some? {
      var i := FindVolume(entries, name).value;
      forall j | 0 <= j < |r.entries| ensures NewFormat(r.entries[j]) {
        if j < i {
          assert r.entries[j] == entries[j];
        } else {
          assert r.entries[j] == entries[j + 1];
        }
      }
    }
  }

  // ---- the first entry for a name ----

  /** The first entry for `name` is at `i` when `i` holds it and nothing before does. */
  lemma FindIs(entries: seq<string>, name: string, i: nat)
    requires i < |entries| && NamePart(entries[i]) == name
    requires forall j :: 0 <= j < i ==> NamePart(entries[j]) != name
    ensures FindVolume(entries, name) == Some(i)
  {
    match FindVolume(entries, name)
    case None =>
    case Some(k) =>
      if k < i {
      } else if k > i {
      }
  }

  /** A name recorded in front keeps that record whatever follows. */
  lemma RecordsFront(front: seq<string>, rest: seq<string>, name: string, uid: string)
    requires Records(front, name, uid)
    ensures Records(front + rest, name, uid)
  {
    var i := FindVolume(front, name).value;
    var s := front + rest;
    assert s[i] == front[i];
    assert forall j :: 0 <= j < i ==> s[j] == front[j];
    FindIs(s, name, i);
  }

  /** Behind a front that does not mention the name, the first entry for it is the rest's, shifted. */
  lemma FindBehind(front: seq<string>, rest: seq<string>, s: seq<string>, name: string)
    requires FindVolume(front, name).None?
    requires |s| == |front| + |rest|
    requires forall j :: 0 <= j < |front| ==> s[j] == front[j]
    requires forall j :: 0 <= j < |rest| ==> s[|front| + j] == rest[j]
    ensures FindVolume(rest, name).None? ==> FindVolume(s, name).None?
    ensures FindVolume(rest, name).Some? ==> FindVolume(s, name) == Some(|front| + FindVolume(rest, name).value)
  {
    match FindVolume(rest, name)
    case None =>
      forall j | 0 <= j < |s| ensures NamePart(s[j]) != name {
        if j >= |front| {
          assert s[|front| + (j - |front|)] == rest[j - |front|];
        }
      }
      FindNone(s, name, |s|);
    case Some(k) =>
      forall j | 0 <= j < |front| + k ensures NamePart(s[j]) != name {
        if j >= |front| {
          assert s[|front| + (j - |front|)] == rest[j - |front|];
        }
      }
      assert s[|front| + k] == rest[k];
      FindIs(s, name, |front| + k);
  }

  /** No entry for `name` means no first entry for it. */
  lemma FindNone(entries: seq<string>, name: string, n: nat)
    requires n == |entries|
    requires forall j :: 0 <= j < n ==> NamePart(entries[j]) != name
    ensures FindVolume(entries, name).None?
  {
  }

  /** Behind a front that does not mention the name, the record is the one in the rest. */
  lemma RecordsBehind(front: seq<string>, rest: seq<string>, name: string, uid: string)
    requires FindVolume(front, name).None?
    ensures Records(front + rest, name, uid) <==> Records(rest, name, uid)
  {
    FindBehind(front, rest, front + rest, name);
    if FindVolume(rest, name).Some? {
      var k := FindVolume(rest, name).value;
      assert (front + rest)[|front| + k] == rest[k];
    }
  }

  /** Removing an entry for another name shifts the first entry for a name by at most one. */
  lemma FindRemove(entries: seq<string>, i: nat, s: seq<string>, name: string)
    requires i < |entries| && NamePart(entries[i]) != name
    requires |s| == |entries| - 1
    requires forall j :: 0 <= j < i ==> s[j] == entries[j]
    requires forall j :: i <= j < |s| ==> s[j] == entries[j + 1]
    ensures match FindVolume(entries, name)
      case None => FindVolume(s, name).None?
      case Some(k) => FindVolume(s, name) == Some(if k < i then k else k - 1)
  {
    match FindVolume(entries, name)
    case None =>
      forall j | 0 <= j < |s| ensures NamePart(s[j]) != name {
        if j >= i {
          assert NamePart(entries[j + 1]) != name;
        }
      }
      FindNone(s, name, |s|);
    case Some(k) =>
      if k < i {
        FindIs(s, name, k);
      } else {
        forall j | 0 <= j < k - 1 ensures NamePart(s[j]) != name {
          if j >= i {
            assert NamePart(entries[j + 1]) != name;
          }
        }
        FindIs(s, name, k - 1);
      }
  }

  /** Removing an entry for another name leaves a name's record as it was. */
  lemma RecordsRemove(entries: seq<string>, i: nat, name: string, uid: string)
    requires i < |entries| && NamePart(entries[i]) != name
    ensures Records(entries[..i] + entries[i + 1..], name, uid) <==> Records(entries, name, uid)
  {
    var s := entries[..i] + entries[i + 1..];
    FindRemove(entries, i, s, name);
    if FindVolume(entries, name).Some? {
      var k := FindVolume(entries, name).value;
      if k < i {
        assert s[k] == entries[k];
      } else {
        assert s[k - 1] == entries[k];
      }
    }
  }

  // ---- the list after the loop ----

  /** Every entry added records the current UID of the volume it names. */
  ghost predicate Current(made: seq<string>, uid: UidOracle) {
    forall i :: 0 <= i < |made| ==> NewFormat(made[i]) && uid(NamePart(made[i])) == Success(UidPart(made[i]))
  }

  /** Volume names and the UIDs looked up for them have no `@`, so `name@uid` reads back. */
  ghost predicate AtFree(vols: seq<Volume>, uid: UidOracle) {
    forall k :: 0 <= k < |vols| ==> '@' !in vols[k].name && (uid(vols[k].name).Success? ==> '@' !in uid(vols[k].name).value)
  }

  /** A name the added entries mention is recorded with its current UID. */
  lemma RecordsFresh(made: seq<string>, rest: seq<string>, uid: UidOracle, name: string, u: string)
    requires Current(made, uid) && uid(name) == Success(u) && FindVolume(made, name).Some?
    ensures Records(made + rest, name, u)
  {
    var i := FindVolume(made, name).value;
    assert NewFormat(made[i]);
    RecordsFront(made, rest, name, u);
  }

  lemma CurrentSnoc(made: seq<string>, uid: UidOracle, name: string, u: string)
    requires Current(made, uid) && uid(name) == Success(u) && '@' !in name && '@' !in u
    ensures Current(made + [Entry(name, u)], uid)
  {
    EntryParts(name, u);
  }

  /** One round keeps every name that was recorded with its current UID recorded. */
  lemma StepKeeps(entries: seq<string>, made: seq<string>, uid: UidOracle, v: Volume, u: string, added: bool,
                  x: string, ux: string)
    requires AllNewFormat(entries) && Current(made, uid) && uid(v.name) == Success(u) && '@' !in v.name && '@' !in u
    requires uid(x) == Success(ux) && Records(made + entries, x, ux)
    requires added == InitialisationNeeded(entries, v.name, u).needed
    ensures var n := InitialisationNeeded(entries, v.name, u);
      Records((if added then made + [Entry(v.name, u)] else made) + n.entries, x, ux)
  {
    NeededKeepsFormat(entries, v.name, u);
    var n := InitialisationNeeded(entries, v.name, u);
    if added {
      var made' := made + [Entry(v.name, u)];
      CurrentSnoc(made, uid, v.name, u);
      EntryParts(v.name, u);
      FindSnoc(made, Entry(v.name, u), x);
      if FindVolume(made', x).Some? {
        RecordsFresh(made', n.entries, uid, x, ux);
      } else {
        KeepsOther(entries, made, made', v.name, u, x, ux);
      }
    }
  }

  /** A round that adds `name` keeps the record of any other volume the old list did not make. */
  lemma KeepsOther(entries: seq<string>, made: seq<string>, made': seq<string>, name: string, u: string, x: string, ux: string)
    requires Readable(entries, name) && x != name
    requires FindVolume(made, x).None? && FindVolume(made', x).None?
    requires Records(made + entries, x, ux)
    ensures Records(made' + InitialisationNeeded(entries, name, u).entries, x, ux)
  {
    var n := InitialisationNeeded(entries, name, u);
    RecordsBehind(made, entries, x, ux);
    if n.needed && FindVolume(entries, name).Some? {
      var i := FindVolume(entries, name).value;
      RecordsRemove(entries, i, x, ux);
    }
    RecordsBehind(made', n.entries, x, ux);
  }

  /** Looking a name up in a list with one more entry at the end. */
  lemma FindSnoc(made: seq<string>, e: string, x: string)
    ensures FindVolume(made + [e], x) ==
      if FindVolume(made, x).Some? then FindVolume(made, x)
      else if NamePart(e) == x then Some(|made|)
      else None
  {
    var made' := made + [e];
    assert forall j :: 0 <= j < |made| ==> made'[j] == made[j];
    match FindVolume(made, x)
    case Some(i) =>
      FindIs(made', x, i);
    case None =>
      if NamePart(e) == x {
        FindIs(made', x, |made|);
      } else {
        FindNone(made', x, |made'|);
      }
  }

  /** After a round for `v`, `v` is recorded with its current UID. */
  lemma StepRecords(entries: seq<string>, made: seq<string>, uid: UidOracle, v: Volume, u: string, added: bool)
    requires AllNewFormat(entries) && Current(made, uid) && uid(v.name) == Success(u) && '@' !in v.name && '@' !in u
    requires added == InitialisationNeeded(entries, v.name, u).needed
    ensures var n := InitialisationNeeded(entries, v.name, u);
      Records((if added then made + [Entry(v.name, u)] else made) + n.entries, v.name, u)
  {
    NeededKeepsFormat(entries, v.name, u);
    var n := InitialisationNeeded(entries, v.name, u);
    if added {
      var made' := made + [Entry(v.name, u)];
      CurrentSnoc(made, uid, v.name, u);
      EntryParts(v.name, u);
      if FindVolume(made, v.name).Some? {
        var i := FindVolume(made, v.name).value;
        assert made'[i] == made[i];
        assert forall j :: 0 <= j < i ==> made'[j] == made[j];
        FindIs(made', v.name, i);
      } else {
        assert made'[|made|] == Entry(v.name, u);
        assert forall j :: 0 <= j < |made| ==> made'[j] == made[j];
        FindIs(made', v.name, |made|);
      }
      RecordsFresh(made', n.entries, uid, v.name, u);
    } else if FindVolume(made, v.name).Some? {
      RecordsFresh(made, n.entries, uid, v.name, u);
    } else {
      RecordsBehind(made, n.entries, v.name, u);
    }
  }

  /** A name recorded with its current UID before the loop is still recorded after it. */
  lemma {:induction false} InitFromKeeps(vols: seq<Volume>, uid: UidOracle, mounted: MountOracle,
                                         entries: seq<string>, made: seq<string>, x: string, ux: string)
    requires AllNewFormat(entries) && Current(made, uid) && AtFree(vols, uid)
    requires uid(x) == Success(ux) && Records(made + entries, x, ux)
    ensures var r := InitFrom(vols, uid, mounted, entries, made); r.err.None? ==> Records(r.names, x, ux)
    decreases |vols|
  {
    if |vols| > 0 {
      var v := vols[0];
      if uid(v.name).Success? {
        var u := uid(v.name).value;
        NeededKeepsFormat(entries, v.name, u);
        var n := InitialisationNeeded(entries, v.name, u);
        assert AtFree(vols[1..], uid) by {
          assert forall k :: 0 <= k < |vols| - 1 ==> vols[1..][k] == vols[k + 1];
        }
        StepKeeps(entries, made, uid, v, u, n.needed, x, ux);
        if n.needed {
          CurrentSnoc(made, uid, v.name, u);
          InitFromKeeps(vols[1..], uid, mounted, n.entries, made + [Entry(v.name, u)], x, ux);
        } else {
          InitFromKeeps(vols[1..], uid, mounted, n.entries, made, x, ux);
        }
      }
    }
  }

  /** After a successful loop every volume visited is recorded with its current UID. */
  lemma {:induction false} InitFromRecordsAll(vols: seq<Volume>, uid: UidOracle, mounted: MountOracle,
                                              entries: seq<string>, made: seq<string>)
    requires AllNewFormat(entries) && Current(made, uid) && AtFree(vols, uid)
    ensures var r := InitFrom(vols, uid, mounted, entries, made);
      r.err.None? ==> forall k :: 0 <= k < |vols| ==> Records(r.names, vols[k].name, uid(vols[k].name).value)
    decreases |vols|
  {
    var r := InitFrom(vols, uid, mounted, entries, made);
    if |vols| > 0 && r.err.None? {
      var v := vols[0];
      var u := uid(v.name).value;
      NeededKeepsFormat(entries, v.name, u);
      var n := InitialisationNeeded(entries, v.name, u);
      assert AtFree(vols[1..], uid) by {
        assert forall k :: 0 <= k < |vols| - 1 ==> vols[1..][k] == vols[k + 1];
      }
      var made' := if n.needed then made + [Entry(v.name, u)] else made;
      if n.needed {
        CurrentSnoc(made, uid, v.name, u);
      }
      assert r == InitFrom(vols[1..], uid, mounted, n.entries, made');
      StepRecords(entries, made, uid, v, u, n.needed);
      InitFromKeeps(vols[1..], uid, mounted, n.entries, made', v.name, u);
      InitFromRecordsAll(vols[1..], uid, mounted, n.entries, made');
      forall k | 0 <= k < |vols| ensures Records(r.names, vols[k].name, uid(vols[k].name).value) {
        if k > 0 {
          assert vols[k] == vols[1..][k - 1];
        }
      }
    }
  }

  /** After a successful loop the list is all in the new format. */
  lemma {:induction false} InitFromFormat(vols: seq<Volume>, uid: UidOracle, mounted: MountOracle,
                                          entries: seq<string>, made: seq<string>)
    requires AllNewFormat(entries) && Current(made, uid) && AtFree(vols, uid)
    ensures var r := InitFrom(vols, uid, mounted, entries, made); r.err.None? ==> AllNewFormat(r.names)
    decreases |vols|
  {
    var r := InitFrom(vols, uid, mounted, entries, made);
    if |vols| == 0 {
      forall i | 0 <= i < |r.names| ensures NewFormat(r.names[i]) {
        if i >= |made| {
          assert r.names[i] == entries[i - |made|];
        }
      }
    } else if r.err.None? {
      var v := vols[0];
      var u := uid(v.name).value;
      NeededKeepsFormat(entries, v.name, u);
      var n := InitialisationNeeded(entries, v.name, u);
      assert AtFree(vols[1..], uid) by {
        assert forall k :: 0 <= k < |vols| - 1 ==> vols[1..][k] == vols[k + 1];
      }
      if n.needed {
        CurrentSnoc(made, uid, v.name, u);
        InitFromFormat(vols[1..], uid, mounted, n.entries, made + [Entry(v.name, u)]);
      } else {
        InitFromFormat(vols[1..], uid, mounted, n.entries, made);
      }
    }
  }

  /** When every volume is already recorded with its current UID, nothing is initialised and the list stays. */
  lemma {:induction false} InitFromRecorded(vols: seq<Volume>, uid: UidOracle, mounted: MountOracle,
                                            entries: seq<string>, made: seq<string>)
    requires AllNewFormat(entries)
    requires forall k :: 0 <= k < |vols| ==> uid(vols[k].name).Success? && Records(entries, vols[k].name, uid(vols[k].name).value)
    ensures InitFrom(vols, uid, mounted, entries, made) == InitResult(made + entries, None)
    decreases |vols|
  {
    if |vols| > 0 {
      var v := vols[0];
      NeededKeepsFormat(entries, v.name, uid(v.name).value);
      assert forall k :: 0 <= k < |vols| - 1 ==> vols[1..][k] == vols[k + 1];
      InitFromRecorded(vols[1..], uid, mounted, entries, made);
    }
  }

  /**
   * Running `initVolumes` again on the list it returned, with the same PVCs, initialises
   * nothing and returns that list unchanged.
   */
  lemma InitIdempotent(vols: seq<Volume>, uid: UidOracle, mounted: MountOracle, initialized: seq<string>)
    requires AtFree(PersistentVolumes(vols), uid)
    requires InitVolumes(vols, uid, mounted, initialized).err.None?
    ensures var names := InitVolumes(vols, uid, mounted, initialized).names;
      InitVolumes(vols, uid, mounted, names) == InitResult(names, None)
  {
    var pv := PersistentVolumes(vols);
    var entries := KeepNewFormat(initialized);
    var names := InitVolumes(vols, uid, mounted, initialized).names;
    InitFromRecordsAll(pv, uid, mounted, entries, []);
    InitFromFormat(pv, uid, mounted, entries, []);
    KeepNewFormatAll(names);
    InitFromRecorded(pv, uid, mounted, names, []);
    assert [] + names == names;
  }

  /**
   * After `initVolumes` succeeds, the first entry for every persistent volume records
   * that volume's current PVC UID, so `isVolInitialisationNeeded` reports it initialised.
   */
  lemma InitRecordsEveryVolume(vols: seq<Volume>, uid: UidOracle, mounted: MountOracle, initialized: seq<string>)
    requires AtFree(PersistentVolumes(vols), uid)
    requires InitVolumes(vols, uid, mounted, initialized).err.None?
    ensures var r := InitVolumes(vols, uid, mounted, initialized);
      forall v :: v in vols && v.persistent ==> uid(v.name).Success? && Records(r.names, v.name, uid(v.name).value)
  {
    var pv := PersistentVolumes(vols);
    InitFromRecordsAll(pv, uid, mounted, KeepNewFormat(initialized), []);
    var r := InitVolumes(vols, uid, mounted, initialized);
    forall v | v in vols && v.persistent ensures uid(v.name).Success? && Records(r.names, v.name, uid(v.name).value) {
      var k :| 0 <= k < |pv| && pv[k] == v;
    }
  }

  // ---- the shape of the list ----

  /** `added[i]` is the entry for volume `idx[i]` with its current UID, and the indices increase. */
  ghost predicate Images(added: seq<string>, idx: seq<nat>, vols: seq<Volume>, uid: UidOracle) {
    |added| == |idx|
    && (forall i :: 0 <= i < |idx| ==>
          (idx[i] < |vols| && uid(vols[idx[i]].name).Success?
           && added[i] == Entry(vols[idx[i]].name, uid(vols[idx[i]].name).value)))
    && (forall i, j :: 0 <= i < j < |idx| ==> idx[i] < idx[j])
  }

  /** Images for the volumes after the first, seen from the whole list. */
  lemma ImagesShift(added: seq<string>, idx: seq<nat>, vols: seq<Volume>, uid: UidOracle) returns (idx': seq<nat>)
    requires |vols| > 0 && Images(added, idx, vols[1..], uid)
    ensures Images(added, idx', vols, uid)
    ensures forall i :: 0 <= i < |idx'| ==> idx'[i] > 0
  {
    idx' := seq(|idx|, i requires 0 <= i < |idx| => idx[i] + 1);
    assert forall i :: 0 <= i < |idx| ==> vols[idx'[i]] == vols[1..][idx[i]];
  }

  /** The first volume's entry in front of images of later volumes. */
  lemma ImagesCons(added: seq<string>, idx: seq<nat>, vols: seq<Volume>, uid: UidOracle)
    requires |vols| > 0 && uid(vols[0].name).Success? && Images(added, idx, vols, uid) && forall i :: 0 <= i < |idx| ==> idx[i] > 0
    ensures Images([Entry(vols[0].name, uid(vols[0].name).value)] + added, [0] + idx, vols, uid)
  {
    var idx' := [0] + idx;
    assert forall i :: 1 <= i < |idx'| ==> idx'[i] == idx[i - 1];
  }

  /** What `isVolInitialisationNeeded` leaves of a list is part of it. */
  lemma NeededShrinks(entries: seq<string>, name: string, uid: string)
    requires Readable(entries, name)
    ensures multiset(InitialisationNeeded(entries, name, uid).entries) <= multiset(entries)
  {
    var n := InitialisationNeeded(entries, name, uid);
    if n.entries != entries {
      SliceOut(entries, FindVolume(entries, name).value);
    }
  }

  lemma SliceOut<T>(s: seq<T>, i: nat)
    requires i < |s|
    ensures multiset(s[..i] + s[i + 1..]) <= multiset(s)
  {
    assert s == s[..i] + [s[i]] + s[i + 1..];
  }

  /**
   * A successful round for the first volume hands the rest of the loop part of the old
   * list, still in the new format, and the added entries, grown by that volume's entry
   * when it needed initialisation.
   */
  lemma InitFromStep(vols: seq<Volume>, uid: UidOracle, mounted: MountOracle, entries: seq<string>, made: seq<string>)
    returns (next: seq<string>, made': seq<string>)
    requires AllNewFormat(entries) && |vols| > 0 && InitFrom(vols, uid, mounted, entries, made).err.None?
    ensures uid(vols[0].name).Success?
    ensures AllNewFormat(next) && multiset(next) <= multiset(entries)
    ensures made' == made || made' == made + [Entry(vols[0].name, uid(vols[0].name).value)]
    ensures InitFrom(vols, uid, mounted, entries, made) == InitFrom(vols[1..], uid, mounted, next, made')
  {
    var v := vols[0];
    var u := uid(v.name).value;
    NeededKeepsFormat(entries, v.name, u);
    NeededShrinks(entries, v.name, u);
    var n := InitialisationNeeded(entries, v.name, u);
    next := n.entries;
    made' := if n.needed then made + [Entry(v.name, u)] else made;
  }

  /**
   * A successful loop returns the entries added before it, then the entries it adds, for
   * visited volumes in order and with their current UID, then what is left of the old list.
   */
  lemma {:induction false} InitFromShape(vols: seq<Volume>, uid: UidOracle, mounted: MountOracle,
                                         entries: seq<string>, made: seq<string>)
    returns (added: seq<string>, idx: seq<nat>, rest: seq<string>)
    requires AllNewFormat(entries)
    ensures var r := InitFrom(vols, uid, mounted, entries, made);
      r.err.None? ==> r.names == made + added + rest && Images(added, idx, vols, uid) && multiset(rest) <= multiset(entries)
    decreases |vols|
  {
    added, idx, rest := [], [], entries;
    if |vols| > 0 && InitFrom(vols, uid, mounted, entries, made).err.None? {
      var next, made' := InitFromStep(vols, uid, mounted, entries, made);
      var needed := made' != made;
      var added', idx', rest' := InitFromShape(vols[1..], uid, mounted, next, made');
      rest := rest';
      added, idx := ShapeStep(made, needed, added', idx', rest', vols, uid);
    }
  }

  /** The images of the later volumes, with the first volume's entry in front when it was added. */
  lemma ShapeStep(made: seq<string>, needed: bool, added': seq<string>, idx': seq<nat>, rest: seq<string>, vols: seq<Volume>, uid: UidOracle)
    returns (added: seq<string>, idx: seq<nat>)
    requires |vols| > 0 && uid(vols[0].name).Success? && Images(added', idx', vols[1..], uid)
    ensures (if needed then made + [Entry(vols[0].name, uid(vols[0].name).value)] else made) + added' + rest == made + added + rest
    ensures Images(added, idx, vols, uid)
  {
    if needed {
      added, idx := ShapeCons(made, added', idx', rest, vols, uid);
    } else {
      idx := ImagesShift(added', idx', vols, uid);
      added := added';
    }
  }

  /** One more entry, for the first volume, between the entries added before and the images of later volumes. */
  lemma ShapeCons(made: seq<string>, added': seq<string>, idx': seq<nat>, rest: seq<string>, vols: seq<Volume>, uid: UidOracle)
    returns (added: seq<string>, idx: seq<nat>)
    requires |vols| > 0 && uid(vols[0].name).Success? && Images(added', idx', vols[1..], uid)
    ensures made + [Entry(vols[0].name, uid(vols[0].name).value)] + added' + rest == made + added + rest
    ensures Images(added, idx, vols, uid)
  {
    var shifted := ImagesShift(added', idx', vols, uid);
    ImagesCons(added', shifted, vols, uid);
    added, idx := [Entry(vols[0].name, uid(vols[0].name).value)] + added', [0] + shifted;
  }

  /**
   * `initVolumes` returns the entries it adds, for persistent volumes in order and with
   * their current UID, then a part of the old list's new-format entries.
   */
  lemma InitShape(vols: seq<Volume>, uid: UidOracle, mounted: MountOracle, initialized: seq<string>)
    returns (added: seq<string>, rest: seq<string>)
    requires InitVolumes(vols, uid, mounted, initialized).err.None?
    ensures InitVolumes(vols, uid, mounted, initialized).names == added + rest
    ensures forall i :: 0 <= i < |added| ==> EntryOfPersistent(added[i], vols, uid)
    ensures multiset(rest) <= multiset(KeepNewFormat(initialized))
  {
    var pv := PersistentVolumes(vols);
    var entries := KeepNewFormat(initialized);
    assert AllNewFormat(entries);
    var r := InitFrom(pv, uid, mounted, entries, []);
    assert r == InitVolumes(vols, uid, mounted, initialized);
    var idx;
    added, idx, rest := InitFromShape(pv, uid, mounted, entries, []);
    assert multiset(rest) <= multiset(entries);
    assert r.names == [] + added + rest;
    assert [] + added == added;
    ImagesPersistent(added, idx, vols, uid);
  }

  /** The entry of a persistent volume of the rack, with its current UID. */
  ghost predicate EntryOfPersistent(e: string, vols: seq<Volume>, uid: UidOracle) {
    exists v :: v in vols && v.persistent && uid(v.name).Success? && e == Entry(v.name, uid(v.name).value)
  }

  /** Images of the persistent volumes are entries of volumes of the rack that are persistent. */
  lemma ImagesPersistent(added: seq<string>, idx: seq<nat>, vols: seq<Volume>, uid: UidOracle)
    requires Images(added, idx, PersistentVolumes(vols), uid)
    ensures forall i :: 0 <= i < |added| ==> EntryOfPersistent(added[i], vols, uid)
  {
    var pv := PersistentVolumes(vols);
    forall i | 0 <= i < |added| ensures EntryOfPersistent(added[i], vols, uid) {
      var v := pv[idx[i]];
      assert uid(v.name).Success? && added[i] == Entry(v.name, uid(v.name).value);
      assert v in pv;
    }
  }
}
