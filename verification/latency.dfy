/**
 * The two ops/sec reducers over `latency:` (legacy) and `latencies:` (new) responses.
 * Each loop iteration of the source is one `Pass` over the remaining text; the reducer
 * folds the passes, adding the first bucket value of every data section, and returns
 * whatever it has added when a pass cannot go on.
 */
module Latency {
  import opened Wrappers
  import opened Strings
  import opened InfoParser

  /** Go's `strconv.ParseFloat(_, 64)`, left abstract: `None` is a non-nil error. */
  type FloatParser = string -> Option<real>

  /** One loop iteration: stop (`break`), move on without data (`continue`), or add a value. */
  datatype Pass = Stop | Skip(rest: string) | Add(value: real, rest: string)

  /** The reducers' Go result pair `(opsPerSec float64, err error)`. */
  datatype OpsPerSec = OpsPerSec(value: real, err: Option<string>)

  /** The text before the first `,` of a bucket list: `strings.Split(list, ",")[0]`. */
  function FirstBucket(buckets: string): string {
    Split(buckets, ',')[0]
  }

  /** How a section header ends: the pass is already decided, or a non-empty body follows. */
  datatype Header = Decided(pass: Pass) | Body(rest: string)

  /**
   * The header handling both reducers share: `{`, the namespace up to `}`, `-`, the
   * operation up to `:`, and the empty-section check on a following `;`.  Text that does
   * not open with `{` is skipped through the next `;`.
   */
  function SectionHeader(rem: string): (h: Header)
    ensures |rem| == 0 ==> h == Decided(Stop)
    ensures h.Decided? ==> !h.pass.Add?
    ensures h.Decided? && h.pass.Skip? ==> |h.pass.rest| < |rem|
    ensures h.Body? ==> |h.rest| < |rem|
  {
    var open := Expect(rem, "{");
    if !open.ok then
      var skipped := ReadUntil(open.rest, ';');
      if skipped.eof then Decided(Stop) else Decided(Skip(skipped.rest))
    else
      var ns := ReadUntil(open.rest, '}');
      if ns.eof then Decided(Stop)
      else
        var dash := Expect(ns.rest, "-");
        if !dash.ok then Decided(Stop)
        else
          var op := ReadUntil(dash.rest, ':');
          if op.eof then Decided(Stop)
          else if PeekAndExpect(op.rest, ";") then
            var semi := Expect(op.rest, ";");
            if !semi.ok then Decided(Stop) else Decided(Skip(semi.rest))
          else Body(op.rest)
  }

  /** The first bucket of the list read up to `;`, parsed; an unparsable value stops. */
  function AddFirstBucket(bucketsField: Chunk, parse: FloatParser): Pass {
    match parse(FirstBucket(bucketsField.text))
    case None => Stop
    case Some(v) => Add(v, bucketsField.rest)
  }

  /** Legacy body: timestamp to `,`, labels to `;`, timestamp to `,`, buckets to `;`. */
  function LegacyBody(body: string, parse: FloatParser): (p: Pass)
    ensures !p.Skip?
    ensures p.Add? ==> |p.rest| <= |body|
  {
    var stamp := ReadUntil(body, ',');
    if stamp.eof then Stop
    else
      var labels := ReadUntil(stamp.rest, ';');
      if labels.eof then Stop
      else
        var sampleStamp := ReadUntil(labels.rest, ',');
        if sampleStamp.eof then Stop
        else
          // a missing final `;` (io.EOF) is tolerated here
          AddFirstBucket(ReadUntil(sampleStamp.rest, ';'), parse)
  }

  /** New-format body: time unit to `,`, buckets to `;`. */
  function NewBody(body: string, parse: FloatParser): (p: Pass)
    ensures !p.Skip?
    ensures p.Add? ==> |p.rest| <= |body|
  {
    var unit := ReadUntil(body, ',');
    if unit.eof then Stop
    else AddFirstBucket(ReadUntil(unit.rest, ';'), parse)
  }

  /** One iteration of `getOpsPerSecLegacy`'s loop; every pass that goes on consumes input. */
  function LegacyPass(rem: string, parse: FloatParser): (p: Pass)
    ensures |rem| == 0 ==> p == Stop
    ensures !p.Stop? ==> |p.rest| < |rem|
  {
    match SectionHeader(rem)
    case Decided(p) => p
    case Body(body) => LegacyBody(body, parse)
  }

  /** One iteration of `getOpsPerSecNew`'s loop; every pass that goes on consumes input. */
  function NewPass(rem: string, parse: FloatParser): (p: Pass)
    ensures |rem| == 0 ==> p == Stop
    ensures !p.Stop? ==> |p.rest| < |rem|
  {
    match SectionHeader(rem)
    case Decided(p) => p
    case Body(body) => NewBody(body, parse)
  }

  /** A loop iteration as a function of the text left: either reducer's `Pass`. */
  type Step = string -> Pass

  /** Every iteration that goes on consumes input, so the loop ends. */
  ghost predicate Consumes(step: Step) {
    forall rem: string {:trigger step(rem)} :: !step(rem).Stop? ==> |step(rem).rest| < |rem|
  }

  /** The reducer loop from `rem` with `acc` already added up: `total +=` until a pass stops. */
  function Reduce(rem: string, step: Step, acc: real): real
    requires Consumes(step)
    decreases |rem|
  {
    match step(rem)
    case Stop => acc
    case Skip(rest) => Reduce(rest, step, acc)
    case Add(v, rest) => Reduce(rest, step, acc + v)
  }

  function LegacyStep(parse: FloatParser): (step: Step)
    ensures Consumes(step)
  {
    (rem: string) => LegacyPass(rem, parse)
  }

  function NewStep(parse: FloatParser): (step: Step)
    ensures Consumes(step)
  {
    (rem: string) => NewPass(rem, parse)
  }

  /** `getOpsPerSecLegacy`: the error it returns is always nil. */
  function GetOpsPerSecLegacy(s: string, parse: FloatParser): (r: OpsPerSec)
    ensures r.err.None?
    ensures |s| == 0 ==> r.value == 0.0
  {
    OpsPerSec(Reduce(s, LegacyStep(parse), 0.0), None)
  }

  /** `getOpsPerSecNew`: the error it returns is always nil. */
  function GetOpsPerSecNew(s: string, parse: FloatParser): (r: OpsPerSec)
    ensures r.err.None?
    ensures |s| == 0 ==> r.value == 0.0
  {
    OpsPerSec(Reduce(s, NewStep(parse), 0.0), None)
  }

  // ---------------------------------------------------------------------------------
  // The response as a list of sections: an independent description of what the
  // reducers add up.

  /** One `;`-terminated section of a latency response. */
  datatype Section =
    | NoData(ns: string, op: string)
    | Noise(text: string)
    | LegacyData(ns: string, op: string, stamp: string, labels: string, sampleStamp: string, buckets: string)
    | NewData(ns: string, op: string, unit: string, buckets: string)

  /** `{ns}-op:` followed by `body`. */
  function HeaderOnto(ns: string, op: string, body: string): string {
    ['{'] + (ns + (['}'] + (['-'] + (op + ([':'] + body)))))
  }

  /** The text of `sec` followed by `tail`. */
  function EncodeOnto(sec: Section, tail: string): string {
    match sec
    case NoData(ns, op) => HeaderOnto(ns, op, [';'] + tail)
    case Noise(text) => text + ([';'] + tail)
    case LegacyData(ns, op, stamp, labels, sampleStamp, buckets) =>
      HeaderOnto(ns, op, stamp + ([','] + (labels + ([';'] + (sampleStamp + ([','] + (buckets + ([';'] + tail))))))))
    case NewData(ns, op, unit, buckets) =>
      HeaderOnto(ns, op, unit + ([','] + (buckets + ([';'] + tail))))
  }

  /** The text of `secs` in order, followed by `tail`. */
  function EncodeAll(secs: seq<Section>, tail: string): string
  {
    if |secs| == 0 then tail else EncodeOnto(secs[0], EncodeAll(secs[1..], tail))
  }

  predicate HeaderShaped(ns: string, op: string) {
    '}' !in ns && ':' !in op
  }

  /** Text that is skipped as an error section: it must not open a section or end early. */
  predicate NoiseShaped(text: string) {
    |text| > 0 && text[0] != '{' && ';' !in text
  }

  /** Sections the legacy reducer reads as written (its bucket value may still fail to parse). */
  predicate LegacyShaped(sec: Section) {
    match sec
    case NoData(ns, op) => HeaderShaped(ns, op)
    case Noise(text) => NoiseShaped(text)
    case LegacyData(ns, op, stamp, labels, sampleStamp, buckets) =>
      HeaderShaped(ns, op) && ',' !in stamp && ';' !in stamp && ';' !in labels
      && ',' !in sampleStamp && ';' !in buckets
    case NewData(_, _, _, _) => false
  }

  /** Sections the new-format reducer reads as written. */
  predicate NewShaped(sec: Section) {
    match sec
    case NoData(ns, op) => HeaderShaped(ns, op)
    case Noise(text) => NoiseShaped(text)
    case NewData(ns, op, unit, buckets) =>
      HeaderShaped(ns, op) && ',' !in unit && ';' !in unit && ';' !in buckets
    case LegacyData(_, _, _, _, _, _) => false
  }

  /** The bucket value a data section contributes when it parses; 0 for the others. */
  function SectionValue(sec: Section, parse: FloatParser): real {
    match sec
    case LegacyData(_, _, _, _, _, buckets) => parse(FirstBucket(buckets)).GetOr(0.0)
    case NewData(_, _, _, buckets) => parse(FirstBucket(buckets)).GetOr(0.0)
    case _ => 0.0
  }

  predicate Parses(sec: Section, parse: FloatParser) {
    match sec
    case LegacyData(_, _, _, _, _, buckets) => parse(FirstBucket(buckets)).Some?
    case NewData(_, _, _, buckets) => parse(FirstBucket(buckets)).Some?
    case _ => true
  }

  function SumValues(secs: seq<Section>, parse: FloatParser): real {
    if |secs| == 0 then 0.0 else SectionValue(secs[0], parse) + SumValues(secs[1..], parse)
  }

  /** The pass a well-shaped section gets: data adds its first bucket, the rest skip it. */
  function ExpectedPass(sec: Section, tail: string, parse: FloatParser): Pass {
    match sec
    case LegacyData(_, _, _, _, _, buckets) =>
      (match parse(FirstBucket(buckets)) case None => Stop case Some(v) => Add(v, tail))
    case NewData(_, _, _, buckets) =>
      (match parse(FirstBucket(buckets)) case None => Stop case Some(v) => Add(v, tail))
    case _ => Skip(tail)
  }

  lemma HeaderOntoReads(ns: string, op: string, body: string)
    requires HeaderShaped(ns, op)
    requires |body| > 0 && body[0] != ';'
    ensures SectionHeader(HeaderOnto(ns, op, body)) == Body(body)
  {
    var r3 := op + ([':'] + body);
    var r2 := ['-'] + r3;
    var r1 := ns + (['}'] + r2);
    ExpectFound("{", r1);
    assert ns + ['}'] + r2 == r1;
    ReadUntilFound(ns, '}', r2);
    ExpectFound("-", r3);
    assert op + [':'] + body == r3;
    ReadUntilFound(op, ':', body);
    PeekMismatch(body, ";");
  }

  lemma HeaderOntoEmpty(ns: string, op: string, tail: string)
    requires HeaderShaped(ns, op)
    ensures SectionHeader(HeaderOnto(ns, op, [';'] + tail)) == Decided(Skip(tail))
  {
    var body := [';'] + tail;
    var r3 := op + ([':'] + body);
    var r2 := ['-'] + r3;
    var r1 := ns + (['}'] + r2);
    ExpectFound("{", r1);
    assert ns + ['}'] + r2 == r1;
    ReadUntilFound(ns, '}', r2);
    ExpectFound("-", r3);
    assert op + [':'] + body == r3;
    ReadUntilFound(op, ':', body);
    ExpectFound(";", tail);
  }

  lemma NoiseReads(text: string, tail: string)
    requires NoiseShaped(text)
    ensures SectionHeader(text + ([';'] + tail)) == Decided(Skip(tail))
  {
    var s := text + ([';'] + tail);
    assert s[0] == text[0];
    ExpectMismatch(s, '{');
    assert s[1..] == text[1..] + [';'] + tail;
    ReadUntilFound(text[1..], ';', tail);
  }

  /** Text that does not open a section and has no `;` left ends the loop. */
  lemma NoiseAtEnd(text: string)
    requires NoiseShaped(text)
    ensures SectionHeader(text) == Decided(Stop)
  {
    ExpectMismatch(text, '{');
    assert ';' !in text[1..];
    ReadUntilSpec(text[1..], ';');
  }

  lemma BucketsRead(buckets: string, tail: string, parse: FloatParser)
    requires ';' !in buckets
    ensures AddFirstBucket(ReadUntil(buckets + ([';'] + tail), ';'), parse)
         == (match parse(FirstBucket(buckets)) case None => Stop case Some(v) => Add(v, tail))
  {
    assert buckets + [';'] + tail == buckets + ([';'] + tail);
    ReadUntilFound(buckets, ';', tail);
  }

  /** The legacy reducer reads every well-shaped section as the section describes. */
  lemma LegacyPassReadsSection(sec: Section, tail: string, parse: FloatParser)
    requires LegacyShaped(sec)
    ensures LegacyPass(EncodeOnto(sec, tail), parse) == ExpectedPass(sec, tail, parse)
  {
    match sec
    case NoData(ns, op) =>
      HeaderOntoEmpty(ns, op, tail);
    case Noise(text) =>
      NoiseReads(text, tail);
    case LegacyData(ns, op, stamp, labels, sampleStamp, buckets) =>
      var r7 := buckets + ([';'] + tail);
      var r6 := sampleStamp + ([','] + r7);
      var r5 := labels + ([';'] + r6);
      var body := stamp + ([','] + r5);
      assert body[0] != ';' by {
        if |stamp| > 0 { assert body[0] == stamp[0]; } else { assert body[0] == ','; }
      }
      HeaderOntoReads(ns, op, body);
      assert stamp + [','] + r5 == body;
      ReadUntilFound(stamp, ',', r5);
      assert labels + [';'] + r6 == r5;
      ReadUntilFound(labels, ';', r6);
      assert sampleStamp + [','] + r7 == r6;
      ReadUntilFound(sampleStamp, ',', r7);
      BucketsRead(buckets, tail, parse);
  }

  /** The new-format reducer reads every well-shaped section as the section describes. */
  lemma NewPassReadsSection(sec: Section, tail: string, parse: FloatParser)
    requires NewShaped(sec)
    ensures NewPass(EncodeOnto(sec, tail), parse) == ExpectedPass(sec, tail, parse)
  {
    match sec
    case NoData(ns, op) =>
      HeaderOntoEmpty(ns, op, tail);
    case Noise(text) =>
      NoiseReads(text, tail);
    case NewData(ns, op, unit, buckets) =>
      var r := buckets + ([';'] + tail);
      var body := unit + ([','] + r);
      assert body[0] != ';' by {
        if |unit| > 0 { assert body[0] == unit[0]; } else { assert body[0] == ','; }
      }
      HeaderOntoReads(ns, op, body);
      assert unit + [','] + r == body;
      ReadUntilFound(unit, ',', r);
      BucketsRead(buckets, tail, parse);
  }

  /** `step` reads the text of `sec`, followed by anything, as `sec` describes. */
  ghost predicate ReadsAs(step: Step, sec: Section, parse: FloatParser) {
    forall tail: string {:trigger EncodeOnto(sec, tail)} :: step(EncodeOnto(sec, tail)) == ExpectedPass(sec, tail, parse)
  }

  lemma LegacyReadsShaped(secs: seq<Section>, parse: FloatParser)
    requires forall i :: 0 <= i < |secs| ==> LegacyShaped(secs[i])
    ensures forall i :: 0 <= i < |secs| ==> ReadsAs(LegacyStep(parse), secs[i], parse)
  {
    forall i, tail | 0 <= i < |secs| {
      LegacyPassReadsSection(secs[i], tail, parse);
    }
  }

  lemma NewReadsShaped(secs: seq<Section>, parse: FloatParser)
    requires forall i :: 0 <= i < |secs| ==> NewShaped(secs[i])
    ensures forall i :: 0 <= i < |secs| ==> ReadsAs(NewStep(parse), secs[i], parse)
  {
    forall i, tail | 0 <= i < |secs| {
      NewPassReadsSection(secs[i], tail, parse);
    }
  }

  /** A loop over sections it reads as described adds their values and leaves `tail` to read. */
  lemma {:induction false} ReduceSections(step: Step, secs: seq<Section>, tail: string, parse: FloatParser, acc: real)
    requires Consumes(step)
    requires forall i :: 0 <= i < |secs| ==> ReadsAs(step, secs[i], parse) && Parses(secs[i], parse)
    ensures Reduce(EncodeAll(secs, tail), step, acc) == Reduce(tail, step, acc + SumValues(secs, parse))
    decreases |secs|
  {
    if |secs| > 0 {
      var rest := EncodeAll(secs[1..], tail);
      assert ReadsAs(step, secs[0], parse);
      assert step(EncodeOnto(secs[0], rest)) == ExpectedPass(secs[0], rest, parse);
      ReduceSections(step, secs[1..], tail, parse, acc + SectionValue(secs[0], parse));
    }
  }

  /** ... and when the pass on `tail` stops, the loop's result is exactly their sum. */
  lemma ReduceSectionsToStop(step: Step, secs: seq<Section>, tail: string, parse: FloatParser)
    requires Consumes(step)
    requires forall i :: 0 <= i < |secs| ==> ReadsAs(step, secs[i], parse) && Parses(secs[i], parse)
    requires step(tail).Stop?
    ensures Reduce(EncodeAll(secs, tail), step, 0.0) == SumValues(secs, parse)
  {
    ReduceSections(step, secs, tail, parse, 0.0);
  }

  /**
   * The legacy ops/sec is the sum of the first bucket values of the sections read before
   * the first pass that stops, and it comes with a nil error.
   */
  lemma LegacySumsSections(secs: seq<Section>, tail: string, parse: FloatParser)
    requires forall i :: 0 <= i < |secs| ==> LegacyShaped(secs[i]) && Parses(secs[i], parse)
    requires LegacyPass(tail, parse).Stop?
    ensures GetOpsPerSecLegacy(EncodeAll(secs, tail), parse) == OpsPerSec(SumValues(secs, parse), None)
  {
    LegacyReadsShaped(secs, parse);
    ReduceSectionsToStop(LegacyStep(parse), secs, tail, parse);
  }

  /**
   * The new-format ops/sec is the sum of the first bucket values of the sections read
   * before the first pass that stops, and it comes with a nil error.
   */
  lemma NewSumsSections(secs: seq<Section>, tail: string, parse: FloatParser)
    requires forall i :: 0 <= i < |secs| ==> NewShaped(secs[i]) && Parses(secs[i], parse)
    requires NewPass(tail, parse).Stop?
    ensures GetOpsPerSecNew(EncodeAll(secs, tail), parse) == OpsPerSec(SumValues(secs, parse), None)
  {
    NewReadsShaped(secs, parse);
    ReduceSectionsToStop(NewStep(parse), secs, tail, parse);
  }

  /** A data section whose first bucket does not parse ends the sum there. */
  lemma LegacyStopsAtBadValue(secs: seq<Section>, bad: Section, tail: string, parse: FloatParser)
    requires forall i :: 0 <= i < |secs| ==> LegacyShaped(secs[i]) && Parses(secs[i], parse)
    requires LegacyShaped(bad) && !Parses(bad, parse)
    ensures GetOpsPerSecLegacy(EncodeAll(secs + [bad], tail), parse).value == SumValues(secs, parse)
  {
    EncodeAllAppend(secs, bad, tail);
    LegacyPassReadsSection(bad, tail, parse);
    LegacyReadsShaped(secs, parse);
    ReduceSectionsToStop(LegacyStep(parse), secs, EncodeOnto(bad, tail), parse);
  }

  lemma {:induction false} EncodeAllAppend(secs: seq<Section>, last: Section, tail: string)
    ensures EncodeAll(secs + [last], tail) == EncodeAll(secs, EncodeOnto(last, tail))
    decreases |secs|
  {
    if |secs| == 0 {
      assert secs + [last] == [last];
    } else {
      assert (secs + [last])[1..] == secs[1..] + [last];
      EncodeAllAppend(secs[1..], last, tail);
    }
  }

  // ---------------------------------------------------------------------------------
  // Small responses.

  /** An empty `latency:` section contributes nothing. */
  lemma LegacyEmptySectionExample(parse: FloatParser)
    ensures GetOpsPerSecLegacy("{test}-write:;", parse) == OpsPerSec(0.0, None)
  {
    assert EncodeAll([NoData("test", "write")], "") == "{test}-write:;";
    LegacySumsSections([NoData("test", "write")], "", parse);
  }

  /** An error string in place of a section is skipped. */
  lemma NewErrorStringExample(parse: FloatParser)
    ensures GetOpsPerSecNew("error-no-data;", parse) == OpsPerSec(0.0, None)
  {
    assert EncodeAll([Noise("error-no-data")], "") == "error-no-data;";
    NewSumsSections([Noise("error-no-data")], "", parse);
  }

  /** A legacy data section adds the first value after the sample timestamp. */
  lemma LegacyDataExample(parse: FloatParser)
    requires parse("7") == Some(7.0)
    ensures GetOpsPerSecLegacy("{t}-r:s,l;s,7;", parse) == OpsPerSec(7.0, None)
  {
    var secs := [LegacyData("t", "r", "s", "l", "s", "7")];
    assert EncodeAll(secs, "") == "{t}-r:s,l;s,7;";
    SplitAbsent("7", ',');
    LegacySumsSections(secs, "", parse);
  }

  /** A new-format data section adds the first value after the time unit. */
  lemma NewDataExample(parse: FloatParser)
    requires parse("7") == Some(7.0)
    ensures GetOpsPerSecNew("{t}-w:u,7;", parse) == OpsPerSec(7.0, None)
  {
    var secs := [NewData("t", "w", "u", "7")];
    assert EncodeAll(secs, "") == "{t}-w:u,7;";
    SplitAbsent("7", ',');
    NewSumsSections(secs, "", parse);
  }

  /**
   * A bucket list cut off by the end of the response without its `;` loses its last byte
   * before it is parsed (`ReadUntil` drops it at `io.EOF`), and the loop ends after it.
   */
  lemma NewTruncatedBuckets(ns: string, op: string, unit: string, buckets: string, parse: FloatParser)
    requires HeaderShaped(ns, op) && ',' !in unit && ';' !in unit
    requires ';' !in buckets && |buckets| >= 2
    ensures GetOpsPerSecNew(HeaderOnto(ns, op, unit + ([','] + buckets)), parse)
         == OpsPerSec(parse(FirstBucket(buckets[..|buckets| - 1])).GetOr(0.0), None)
  {
    var body := unit + ([','] + buckets);
    assert body[0] != ';' by {
      if |unit| > 0 { assert body[0] == unit[0]; } else { assert body[0] == ','; }
    }
    HeaderOntoReads(ns, op, body);
    assert unit + [','] + buckets == body;
    ReadUntilFound(unit, ',', buckets);
    ReadUntilSpec(buckets, ';');
    var text := buckets[..|buckets| - 1];
    var step := NewStep(parse);
    var s := HeaderOnto(ns, op, body);
    assert step(s) == NewPass(s, parse) == AddFirstBucket(Chunk(text, "", true), parse);
    assert step("") == Stop;
    match parse(FirstBucket(text))
    case None =>
      assert Reduce(s, step, 0.0) == 0.0;
    case Some(v) =>
      assert Reduce(s, step, 0.0) == Reduce("", step, 0.0 + v) == v;
  }

  // ---------------------------------------------------------------------------------
  // The responses documented next to the two reducers, with the bucket values after the
  // first one left open (`more`) and anything at which the loop stops after them (`tail`,
  // for instance the end of the response).

  lemma FirstBucketOf(first: string, more: string)
    requires ',' !in first
    ensures FirstBucket(first + [','] + more) == first
  {
    SplitAppend(first, ',', more);
    SplitAbsent(first, ',');
  }

  /** Two readable sections add up to the sum of their values. */
  lemma LegacyTwoSections(a: Section, b: Section, parse: FloatParser, tail: string)
    requires LegacyShaped(a) && Parses(a, parse) && LegacyShaped(b) && Parses(b, parse)
    requires LegacyPass(tail, parse).Stop?
    ensures GetOpsPerSecLegacy(EncodeAll([a, b], tail), parse)
         == OpsPerSec(SectionValue(a, parse) + SectionValue(b, parse), None)
  {
    var secs := [a, b];
    assert SumValues(secs[1..][1..], parse) == 0.0;
    LegacySumsSections(secs, tail, parse);
  }

  /** Two readable sections add up to the sum of their values. */
  lemma NewTwoSections(a: Section, b: Section, parse: FloatParser, tail: string)
    requires NewShaped(a) && Parses(a, parse) && NewShaped(b) && Parses(b, parse)
    requires NewPass(tail, parse).Stop?
    ensures GetOpsPerSecNew(EncodeAll([a, b], tail), parse)
         == OpsPerSec(SectionValue(a, parse) + SectionValue(b, parse), None)
  {
    var secs := [a, b];
    assert SumValues(secs[1..][1..], parse) == 0.0;
    NewSumsSections(secs, tail, parse);
  }

  /** `{test}-read:10:17:37-GMT,ops/sec,>1ms,>8ms,>64ms;10:17:47,29648.2,<more>;` */
  function LegacyDocData(more: string): Section {
    LegacyData("test", "read", "10:17:37-GMT", "ops/sec,>1ms,>8ms,>64ms", "10:17:47", "29648.2" + [','] + more)
  }

  const LegacyDocError := Noise("error-no-data-yet-or-back-too-small")

  lemma LegacyDocFields()
    ensures HeaderShaped("test", "read")
    ensures ',' !in "10:17:37-GMT" && ';' !in "10:17:37-GMT"
    ensures ';' !in "ops/sec,>1ms,>8ms,>64ms" && ',' !in "10:17:47"
  {
  }

  lemma LegacyDocShaped(more: string)
    requires ';' !in more
    ensures LegacyShaped(LegacyDocData(more))
  {
    LegacyDocFields();
    assert ';' !in "29648.2" + [','];
  }

  lemma LegacyDocErrorShaped()
    ensures LegacyShaped(LegacyDocError)
  {
  }

  /**
   * The documented legacy response: a data section whose first bucket is 29648.2, then an
   * error string.  With `more` = "3.44,0.08,0.00" and an empty `tail` it is the text shown
   * next to `getOpsPerSecLegacy`.
   */
  lemma LegacyDocExample(parse: FloatParser, more: string, tail: string)
    requires parse("29648.2") == Some(29648.2)
    requires ';' !in more
    requires LegacyPass(tail, parse).Stop?
    ensures GetOpsPerSecLegacy(EncodeAll([LegacyDocData(more), LegacyDocError], tail), parse)
         == OpsPerSec(29648.2, None)
  {
    LegacyDocShaped(more);
    LegacyDocErrorShaped();
    FirstBucketOf("29648.2", more);
    LegacyTwoSections(LegacyDocData(more), LegacyDocError, parse, tail);
  }

  /** `{test}-write:msec,4234.9,<more>;` */
  function NewDocData(more: string): Section {
    NewData("test", "write", "msec", "4234.9" + [','] + more)
  }

  const NewDocEmpty := NoData("test", "read")

  lemma NewDocShaped(more: string)
    requires ';' !in more
    ensures NewShaped(NewDocData(more)) && NewShaped(NewDocEmpty)
  {
    assert ';' !in "4234.9" + [','];
  }

  /**
   * The documented new-format response: a data section whose first bucket is 4234.9, then
   * an empty section.  With `more` = "28.75,7.40,...,0.00" and an empty `tail` it is the
   * text shown next to `getOpsPerSecNew`.
   */
  lemma NewDocExample(parse: FloatParser, more: string, tail: string)
    requires parse("4234.9") == Some(4234.9)
    requires ';' !in more
    requires NewPass(tail, parse).Stop?
    ensures GetOpsPerSecNew(EncodeAll([NewDocData(more), NewDocEmpty], tail), parse)
         == OpsPerSec(4234.9, None)
  {
    NewDocShaped(more);
    FirstBucketOf("4234.9", more);
    NewTwoSections(NewDocData(more), NewDocEmpty, parse, tail);
  }
}
