/**
 * The build-version gate `getLatencyCommand`: servers from 5.1.0.0 on answer the
 * `latencies:` info command, older ones only `latency:`.  Versions are read as dotted
 * decimal segments and compared segment by segment, the shorter one padded with zeros.
 */
module Version {
  import opened Wrappers
  import opened Strings
  import opened Numeric

  /** The segments of `5.1.0.0`, the first build that knows `latencies:`. */
  const Reference: seq<nat> := [5, 1, 0, 0]

  /** A segment: a non-empty run of digits whose value fits in an int64. */
  predicate SegmentText(t: string) {
    |t| > 0 && AllDigits(t) && DigitsValue(t) <= MaxInt64
  }

  /** The values of dotted segments, or `None` as soon as one is malformed. */
  function Segments(parts: seq<string>): (r: Option<seq<nat>>)
    ensures r.Some? <==> forall i :: 0 <= i < |parts| ==> SegmentText(parts[i])
    ensures r.Some? ==> |r.value| == |parts|
    ensures r.Some? ==> forall i :: 0 <= i < |parts| ==> r.value[i] == DigitsValue(parts[i])
  {
    if |parts| == 0 then Some([])
    else if !SegmentText(parts[0]) then None
    else
      match Segments(parts[1..])
      case None => None
      case Some(tail) => Some([DigitsValue(parts[0])] + tail)
  }

  /** A version string: an optional leading `v`, then dot-separated decimal segments. */
  function ParseVersion(s: string): (r: Option<seq<nat>>)
    ensures r.Some? ==> |r.value| >= 1
  {
    var body := if |s| > 0 && s[0] == 'v' then s[1..] else s;
    Segments(Split(body, '.'))
  }

  /** Segment `i` of `v`, zero beyond its end. */
  function Seg(v: seq<nat>, i: nat): nat {
    if i < |v| then v[i] else 0
  }

  function Max(a: nat, b: nat): nat {
    if a <= b then b else a
  }

  /** Three-way comparison of `a` and `b` from segment `i` on: -1, 0 or 1. */
  function CompareFrom(a: seq<nat>, b: seq<nat>, i: nat): (c: int)
    ensures -1 <= c <= 1
    decreases Max(|a|, |b|) - i
  {
    if i >= |a| && i >= |b| then 0
    else if Seg(a, i) < Seg(b, i) then -1
    else if Seg(a, i) > Seg(b, i) then 1
    else CompareFrom(a, b, i + 1)
  }

  function Compare(a: seq<nat>, b: seq<nat>): int {
    CompareFrom(a, b, 0)
  }

  /** `a` and `b` agree on every segment before `k`. */
  predicate AgreeBelow(a: seq<nat>, b: seq<nat>, k: nat) {
    forall j :: 0 <= j < k ==> Seg(a, j) == Seg(b, j)
  }

  /** `a` is later than `b`: equal up to some segment, which is larger in `a`. */
  ghost predicate Later(a: seq<nat>, b: seq<nat>) {
    exists k: nat :: AgreeBelow(a, b, k) && Seg(a, k) > Seg(b, k)
  }

  /** `a` and `b` denote the same version once padded with zeros. */
  ghost predicate Same(a: seq<nat>, b: seq<nat>) {
    forall j: nat :: Seg(a, j) == Seg(b, j)
  }

  /** What `CompareFrom` decides, given agreement below `i`. */
  lemma {:induction false} CompareFromSpec(a: seq<nat>, b: seq<nat>, i: nat)
    requires AgreeBelow(a, b, i)
    ensures CompareFrom(a, b, i) == 0 <==> Same(a, b)
    ensures CompareFrom(a, b, i) == 1 <==> Later(a, b)
    ensures CompareFrom(a, b, i) == -1 <==> Later(b, a)
    decreases Max(|a|, |b|) - i
  {
    if i >= |a| && i >= |b| {
      forall j: nat ensures Seg(a, j) == Seg(b, j) {
        if j >= i {
          assert Seg(a, j) == 0 == Seg(b, j);
        }
      }
      SameNotLater(a, b);
      SameNotLater(b, a);
    } else if Seg(a, i) < Seg(b, i) {
      assert AgreeBelow(b, a, i);
      assert Later(b, a);
      LaterNotSame(b, a);
      LaterAsymmetric(b, a);
    } else if Seg(a, i) > Seg(b, i) {
      assert Later(a, b);
      LaterNotSame(a, b);
      LaterAsymmetric(a, b);
    } else {
      assert AgreeBelow(a, b, i + 1);
      CompareFromSpec(a, b, i + 1);
    }
  }

  lemma LaterNotSame(a: seq<nat>, b: seq<nat>)
    requires Later(a, b)
    ensures !Same(a, b)
  {
    var k: nat :| AgreeBelow(a, b, k) && Seg(a, k) > Seg(b, k);
  }

  lemma SameNotLater(a: seq<nat>, b: seq<nat>)
    requires Same(a, b)
    ensures !Later(a, b)
  {
    forall k: nat ensures !(AgreeBelow(a, b, k) && Seg(a, k) > Seg(b, k)) {
      assert Seg(a, k) == Seg(b, k);
    }
  }

  lemma LaterAsymmetric(a: seq<nat>, b: seq<nat>)
    requires Later(a, b)
    ensures !Later(b, a)
  {
    var k: nat :| AgreeBelow(a, b, k) && Seg(a, k) > Seg(b, k);
    forall m: nat | m > k ensures !AgreeBelow(b, a, m) {
      assert Seg(b, k) != Seg(a, k);
    }
  }

  /** `Compare` is the padded lexicographic order on segments. */
  lemma CompareSpec(a: seq<nat>, b: seq<nat>)
    ensures Compare(a, b) >= 0 <==> Same(a, b) || Later(a, b)
  {
    CompareFromSpec(a, b, 0);
  }

  /**
   * `getLatencyCommand(ver)`: an error for a malformed version, otherwise `latencies:`
   * from 5.1.0.0 on and `latency:` before it.
   */
  function GetLatencyCommand(ver: string): (r: Result<string>)
    ensures r.Failure? <==> ParseVersion(ver).None?
    ensures r.Success? ==> r.value == "latencies:" || r.value == "latency:"
    ensures r.Success? ==> var v := ParseVersion(ver).value;
      r.value == "latencies:" <==> Seg(v, 0) > 5 || (Seg(v, 0) == 5 && Seg(v, 1) >= 1)
  {
    match ParseVersion(ver)
    case None => Failure("Malformed version: " + ver)
    case Some(v) =>
      AtLeastReference(v);
      Success(if Compare(v, Reference) >= 0 then "latencies:" else "latency:")
  }

  /** Past the end of `b`, `a` is never behind: its segments are all at least zero. */
  lemma {:induction false} CompareFromPastEnd(a: seq<nat>, b: seq<nat>, i: nat)
    requires i >= |b|
    ensures CompareFrom(a, b, i) >= 0
    decreases Max(|a|, |b|) - i
  {
    if (i < |a| || i < |b|) && Seg(a, i) == Seg(b, i) {
      CompareFromPastEnd(a, b, i + 1);
    }
  }

  /** At least 5.1.0.0 means: major above 5, or major 5 and minor at least 1. */
  lemma AtLeastReference(v: seq<nat>)
    ensures Compare(v, Reference) >= 0 <==> Seg(v, 0) > 5 || (Seg(v, 0) == 5 && Seg(v, 1) >= 1)
  {
    var r := Reference;
    assert Seg(r, 0) == 5 && Seg(r, 1) == 1 && Seg(r, 2) == 0 && Seg(r, 3) == 0;
    CompareFromPastEnd(v, r, 4);
    assert CompareFrom(v, r, 3) >= 0;
    assert CompareFrom(v, r, 2) >= 0;
    assert CompareFrom(v, r, 1) >= 0 <==> Seg(v, 1) >= 1;
  }

  /** The dotted decimal text of a version's segments. */
  function Render(v: seq<nat>): (s: string)
    ensures |v| > 0 ==> |s| > 0
  {
    if |v| == 0 then ""
    else if |v| == 1 then NatToString(v[0])
    else NatToString(v[0]) + ['.'] + Render(v[1..])
  }

  /** Reading back the rendering of int64-sized segments gives the segments. */
  lemma {:induction false} ParseRender(v: seq<nat>)
    requires |v| > 0
    requires forall i :: 0 <= i < |v| ==> v[i] <= MaxInt64
    ensures Segments(Split(Render(v), '.')) == Some(v)
    decreases |v|
  {
    var t := NatToString(v[0]);
    NatToStringRoundTrip(v[0]);
    assert '.' !in t;
    SplitAbsent(t, '.');
    assert SegmentText(t);
    if |v| > 1 {
      ParseRender(v[1..]);
      SplitAppend(t, '.', Render(v[1..]));
      var parts := Split(Render(v[1..]), '.');
      assert Split(Render(v), '.') == [t] + parts;
      assert ([t] + parts)[0] == t;
      assert ([t] + parts)[1..] == parts;
      assert Segments([t] + parts) == Some([v[0]] + v[1..]);
      assert v == [v[0]] + v[1..];
    } else {
      assert Split(Render(v), '.') == [t];
      assert [t][1..] == [] && [t][0] == t;
      assert Segments([]) == Some([]);
      assert DigitsValue(t) == v[0];
      assert [DigitsValue(t)] + [] == [v[0]];
      assert Segments([t]) == Some([v[0]]);
      assert v == [v[0]];
    }
  }

  /** A rendered version not starting with `v` parses back to its segments. */
  lemma ParseVersionRender(v: seq<nat>)
    requires |v| > 0
    requires forall i :: 0 <= i < |v| ==> v[i] <= MaxInt64
    ensures ParseVersion(Render(v)) == Some(v)
    ensures ParseVersion("v" + Render(v)) == Some(v)
  {
    ParseRender(v);
    var s := Render(v);
    RenderStartsWithDigit(v);
    assert ("v" + s)[1..] == s;
  }

  lemma RenderStartsWithDigit(v: seq<nat>)
    requires |v| > 0
    ensures IsDigit(Render(v)[0])
  {
    var t := NatToString(v[0]);
    assert IsDigit(t[0]);
    if |v| > 1 {
      assert Render(v)[0] == t[0];
    }
  }

  lemma NewBuildExample()
    ensures GetLatencyCommand(Render([5, 1, 0, 0])) == Success("latencies:")
  {
    ParseVersionRender([5, 1, 0, 0]);
  }

  lemma OldBuildExample()
    ensures GetLatencyCommand(Render([5, 0, 9])) == Success("latency:")
  {
    ParseVersionRender([5, 0, 9]);
  }

  lemma ShortBuildExample()
    ensures GetLatencyCommand("v" + Render([6])) == Success("latencies:")
  {
    ParseVersionRender([6]);
  }

  lemma RenderExample()
    ensures Render([5, 1, 0, 0]) == "5.1.0.0"
  {
  }

  /** An empty version is malformed. */
  lemma EmptyVersion()
    ensures GetLatencyCommand("").Failure?
  {
    assert Split("", '.') == [""];
  }

  /** A version ending in a dot is malformed. */
  lemma TrailingDot(s: string)
    ensures GetLatencyCommand(s + ".").Failure?
  {
    var b := if |s| > 0 && s[0] == 'v' then s[1..] else s;
    var body := if |s + "."| > 0 && (s + ".")[0] == 'v' then (s + ".")[1..] else s + ".";
    assert body == b + ['.'] + "";
    SplitAppend(b, '.', "");
    assert Split("", '.') == [""];
    var parts := Split(body, '.');
    assert parts[|parts| - 1] == "";
  }

  /** After the optional `v`, only digits and dots can make up a version. */
  lemma StrayCharacter(s: string, i: nat)
    requires i < |s| && s[i] != '.' && !IsDigit(s[i]) && (i == 0 ==> s[i] != 'v')
    ensures GetLatencyCommand(s).Failure?
  {
    var body := if |s| > 0 && s[0] == 'v' then s[1..] else s;
    var k: nat := if |s| > 0 && s[0] == 'v' then i - 1 else i;
    assert body[k] == s[i];
    var parts := Split(body, '.');
    JoinSplit(body, '.');
    var j := JoinMember(parts, '.', s[i]);
    assert !SegmentText(parts[j]) by {
      var m :| 0 <= m < |parts[j]| && parts[j][m] == s[i];
    }
  }

  /** A non-separator character of a joined text lies in one of the parts. */
  lemma JoinMember(parts: seq<string>, c: char, x: char) returns (j: nat)
    requires x in Join(parts, c) && x != c
    ensures j < |parts| && x in parts[j]
  {
    if |parts| == 1 {
      j := 0;
    } else {
      var rest := Join(parts[1..], c);
      assert Join(parts, c) == parts[0] + [c] + rest;
      if x in parts[0] {
        j := 0;
      } else {
        var j' := JoinMember(parts[1..], c, x);
        j := j' + 1;
      }
    }
  }
}
