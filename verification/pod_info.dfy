/**
 * What the init container reads off its own pod name `<cluster>-<rackID>-<ordinal>`:
 * the Aerospike node ID and the rack the pod belongs to.
 */
module PodInfo {
  import opened Wrappers
  import opened Strings
  import opened Seqs
  import opened Numeric
  import opened Volumes

  /** A rack of the cluster spec: its ID and the volumes its pods attach. */
  datatype Rack = Rack(id: int, volumes: seq<Volume>)

  /**
   * `getNodeIDFromPodName`: the last two `-`-separated parts of the pod name, the rack ID
   * and the ordinal, joined by `a`; a name with fewer than two `-` is an error.
   */
  function NodeID(podName: string): (r: Result<string>)
    ensures r.Failure? <==> Count(podName, '-') < 2
    ensures r.Failure? ==> r.error == "failed to get nodeID from podName " + podName
  {
    var parts := Split(podName, '-');
    SplitCount(podName, '-');
    if |parts| < 3 then Failure("failed to get nodeID from podName " + podName)
    else Success(parts[|parts| - 2] + "a" + parts[|parts| - 1])
  }

  /** The pod name the operator gives the pod with this ordinal in this rack. */
  function PodName(cluster: string, rack: string, ordinal: string): string {
    cluster + "-" + rack + "-" + ordinal
  }

  /** The rack ID and ordinal are the last two parts of a pod name, whatever `-`s the cluster name holds. */
  lemma PodNameParts(cluster: string, rack: string, ordinal: string)
    requires '-' !in rack && '-' !in ordinal
    ensures Split(PodName(cluster, rack, ordinal), '-') == Split(cluster, '-') + [rack, ordinal]
  {
    assert PodName(cluster, rack, ordinal) == (cluster + ['-'] + rack) + ['-'] + ordinal;
    SplitAppend(cluster + ['-'] + rack, '-', ordinal);
    SplitAppend(cluster, '-', rack);
    SplitAbsent(rack, '-');
    SplitAbsent(ordinal, '-');
  }

  /** The node ID of a pod is its rack ID, `a`, and its ordinal. */
  lemma NodeIDOfPodName(cluster: string, rack: string, ordinal: string)
    requires '-' !in rack && '-' !in ordinal
    ensures NodeID(PodName(cluster, rack, ordinal)) == Success(rack + "a" + ordinal)
  {
    PodNameParts(cluster, rack, ordinal);
  }

  /**
   * The error `strconv.Atoi` returns for text it rejects: `ErrRange` for out-of-range
   * text, `ErrSyntax` otherwise.  Go's quoting of the text is shown as plain quotes.
   */
  function AtoiError(s: string): string {
    if !OutOfRange(s) then "strconv.Atoi: parsing \"" + s + "\": invalid syntax"
    else "strconv.Atoi: parsing \"" + s + "\": value out of range"
  }

  /** Whether a rack carries this ID. */
  function HasId(id: int): Rack -> bool {
    (k: Rack) => k.id == id
  }

  /**
   * `getRack`: the second-to-last part of the pod name read as an int is the rack ID, and
   * the result is the first rack in the spec with that ID.  The source indexes that part
   * without checking it exists, so a name without `-` is outside its domain.  A part that
   * is not a decimal int64 is an error, and so is an ID no rack has.
   */
  function GetRack(podName: string, racks: seq<Rack>): (r: Result<Rack>)
    requires |Split(podName, '-')| >= 2
    ensures var parts := Split(podName, '-'); var id := ParseAtoi(parts[|parts| - 2]);
      r.Success? <==> id.ok && exists k :: 0 <= k < |racks| && racks[k].id == id.value
    ensures var parts := Split(podName, '-'); var id := ParseAtoi(parts[|parts| - 2]);
      r.Success? ==> r.value.id == id.value && exists k :: (0 <= k < |racks| && racks[k] == r.value
        && forall j :: 0 <= j < k ==> racks[j].id != id.value)
  {
    var parts := Split(podName, '-');
    var id := ParseAtoi(parts[|parts| - 2]);
    if !id.ok then Failure(AtoiError(parts[|parts| - 2]))
    else
      match FindFirst(racks, HasId(id.value))
      case None => Failure("rack with rack-id " + IntToString(id.value) + " not found")
      case Some(k) => Success(racks[k])
  }

  /**
   * For a pod the operator named, `getRack` finds the first rack with the pod's rack ID,
   * and fails exactly when the spec has no rack with that ID.
   */
  lemma RackOfPodName(cluster: string, rack: nat, ordinal: string, racks: seq<Rack>)
    requires '-' !in ordinal && rack <= MaxInt64
    ensures |Split(PodName(cluster, NatToString(rack), ordinal), '-')| >= 2
    ensures var r := GetRack(PodName(cluster, NatToString(rack), ordinal), racks);
      match FindFirst(racks, HasId(rack))
      case None => r.Failure?
      case Some(k) => r == Success(racks[k])
  {
    var text := NatToString(rack);
    assert '-' !in text by {
      assert forall i :: 0 <= i < |text| ==> IsDigit(text[i]);
    }
    var name := PodName(cluster, text, ordinal);
    assert name[|cluster|] == '-';
    PodNameParts(cluster, text, ordinal);
    var parts := Split(name, '-');
    assert parts[|parts| - 2] == text;
    NatToStringRoundTrip(rack);
    assert ParseAtoi(text) == Atoi(rack, true);
  }
}
