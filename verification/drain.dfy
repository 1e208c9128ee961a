/**
 * One round of each retry loop of the pre-stop drain (`performPreStopOp`) and of the
 * community drain.  A round fetches the node list, walks it sending info requests, and
 * ends in a verdict: `Retry` (sleep and run the round again), `Advance` (go on to the
 * next phase) or `Finish` (the idempotency guard found the drain already done).  The
 * Aerospike client is an oracle from requests to replies; a reply is the value the node
 * returned under the command's key, which Go's map lookup reads as `""` when missing.
 */
module Drain {
  import opened Wrappers
  import opened Strings
  import opened Stats
  import opened Numeric
  import opened Version
  import opened Latency

  datatype Node = Node(name: string, host: string)

  /** An info command sent to one node. */
  datatype Request = Request(node: Node, command: string)

  /** `Failed` when `RequestInfo` returned an error, else the value under the command's key. */
  datatype Reply = Failed | Answer(text: string)

  /** The cluster's replies during one round. */
  type Oracle = Request -> Reply

  datatype Verdict = Retry | Advance | Finish

  /** How a round ended, and every request it sent, in order. */
  datatype Round = Round(verdict: Verdict, issued: seq<Request>)

  const StableCommand: string := "cluster-stable:ignore-migrations=no;"
  const UnstableCluster: string := "ERROR::unstable-cluster"
  const QuiesceCommand: string := "quiesce:"
  const ReclusterCommand: string := "recluster:"
  const NamespacesCommand: string := "namespaces"
  const BuildCommand: string := "build"

  function StatsCommand(ns: string): (c: string)
    ensures HasPrefix(c, "namespace/")
  {
    assert ("namespace/" + ns)[..10] == "namespace/";
    "namespace/" + ns
  }

  /** A request to `n` for its namespace list or a namespace's statistics. */
  predicate NamespaceQuery(r: Request, n: Node) {
    r.node == n && (r.command == NamespacesCommand || HasPrefix(r.command, "namespace/"))
  }

  /** The node the drain runs on: reached through loopback or the pod's own IP. */
  predicate IsSelf(host: string, podIP: string) {
    host == "localhost" || host == "127.0.0.1" || host == podIP
  }

  /** The namespace a phase inspects: the first `;`-separated name, `""` for none. */
  function SelectedNamespace(list: string): (ns: string)
    ensures ';' !in ns
  {
    SplitFree(list, ';');
    if |list| > 0 then Split(list, ';')[0] else ""
  }

  /** The selected namespace is the text before the first `;`, or all of it without one. */
  lemma SelectedNamespaceSpec(first: string, more: string)
    requires ';' !in first
    ensures SelectedNamespace(first) == first
    ensures SelectedNamespace(first + [';'] + more) == first
  {
    SplitAbsent(first, ';');
    SplitAppend(first, ';', more);
    assert |first + [';'] + more| > 0;
  }

  /** A metric of a namespace statistics reply, `""` when missing. */
  function Metric(stats: string, key: string): string {
    Get(ParseStats(stats, ';'), key)
  }

  /** What one node contributes to a scan: keep going, or stop the round with a verdict. */
  datatype Probe = Continue(sent: seq<Request>) | Halt(verdict: Verdict, sent: seq<Request>)

  type NodeStep = Node -> Probe

  /** The `for _, node := range activeNodes` loop: nodes in order until one halts the round. */
  function Scan(nodes: seq<Node>, step: NodeStep, done: Verdict): (r: Round)
    decreases |nodes|
  {
    if |nodes| == 0 then Round(done, [])
    else
      match step(nodes[0])
      case Halt(v, sent) => Round(v, sent)
      case Continue(sent) =>
        var r := Scan(nodes[1..], step, done);
        Round(r.verdict, sent + r.issued)
  }

  /** Position of the first node that halts the scan. */
  function FirstHalt(nodes: seq<Node>, step: NodeStep): (k: Option<nat>)
    ensures k.None? <==> forall i :: 0 <= i < |nodes| ==> step(nodes[i]).Continue?
    ensures k.Some? ==> (k.value < |nodes| && step(nodes[k.value]).Halt?
      && forall i :: 0 <= i < k.value ==> step(nodes[i]).Continue?)
    decreases |nodes|
  {
    if |nodes| == 0 then None
    else if step(nodes[0]).Halt? then Some(0)
    else
      match FirstHalt(nodes[1..], step)
      case None => None
      case Some(k) => Some(k + 1)
  }

  /** Everything the nodes send while they all continue. */
  function Sent(nodes: seq<Node>, step: NodeStep): seq<Request>
    decreases |nodes|
  {
    if |nodes| == 0 then [] else step(nodes[0]).sent + Sent(nodes[1..], step)
  }

  /** A scan in which every node continues ends with `done`, having sent what they all send. */
  lemma {:induction false} ScanContinues(nodes: seq<Node>, step: NodeStep, done: Verdict)
    requires forall i :: 0 <= i < |nodes| ==> step(nodes[i]).Continue?
    ensures Scan(nodes, step, done) == Round(done, Sent(nodes, step))
    decreases |nodes|
  {
    if |nodes| > 0 {
      assert step(nodes[0]).Continue?;
      ScanContinues(nodes[1..], step, done);
    }
  }

  /**
   * A scan ends with the verdict of the first node that halts it, having sent what the
   * nodes up to and including that one send.
   */
  lemma {:induction false} ScanHalts(nodes: seq<Node>, step: NodeStep, done: Verdict, k: nat)
    requires k < |nodes| && step(nodes[k]).Halt?
    requires forall i :: 0 <= i < k ==> step(nodes[i]).Continue?
    ensures Scan(nodes, step, done) == Round(step(nodes[k]).verdict, Sent(nodes[..k], step) + step(nodes[k]).sent)
    decreases k
  {
    if k == 0 {
      assert nodes[..0] == [];
    } else {
      assert step(nodes[0]).Continue?;
      var tail := nodes[1..];
      assert tail[k - 1] == nodes[k];
      assert forall i :: 0 <= i < k - 1 ==> tail[i] == nodes[i + 1];
      ScanHalts(tail, step, done, k - 1);
      assert tail[..k - 1] == nodes[..k][1..];
      assert Sent(nodes[..k], step) == step(nodes[0]).sent + Sent(tail[..k - 1], step);
    }
  }

  /** A scan sends only what its nodes' probes send. */
  lemma {:induction false} ScanWithin(nodes: seq<Node>, step: NodeStep, done: Verdict, ok: Request -> bool)
    requires forall i :: 0 <= i < |nodes| ==> forall q :: q in step(nodes[i]).sent ==> ok(q)
    ensures forall q :: q in Scan(nodes, step, done).issued ==> ok(q)
    decreases |nodes|
  {
    if |nodes| > 0 && step(nodes[0]).Continue? {
      assert forall i :: 0 <= i < |nodes| - 1 ==> nodes[1..][i] == nodes[i + 1];
      ScanWithin(nodes[1..], step, done, ok);
    }
  }

  /** Each node sending `command` once: the requests are exactly the nodes, in order. */
  function Requests(nodes: seq<Node>, command: string): (rs: seq<Request>)
    ensures |rs| == |nodes|
    ensures forall i :: 0 <= i < |nodes| ==> rs[i] == Request(nodes[i], command)
  {
    seq(|nodes|, i requires 0 <= i < |nodes| => Request(nodes[i], command))
  }

  lemma {:induction false} SentSingles(nodes: seq<Node>, step: NodeStep, command: string)
    requires forall i :: 0 <= i < |nodes| ==> step(nodes[i]).sent == [Request(nodes[i], command)]
    ensures Sent(nodes, step) == Requests(nodes, command)
    decreases |nodes|
  {
    if |nodes| > 0 {
      SentSingles(nodes[1..], step, command);
      assert Requests(nodes, command) == [Request(nodes[0], command)] + Requests(nodes[1..], command);
    }
  }

  // ---- cluster-stable (also the community drain and the guard's recheck) ----

  /** A cluster-stable answer that lets the scan go on. */
  predicate Stable(reply: Reply) {
    reply.Answer? && reply.text != UnstableCluster
  }

  function StableProbe(ask: Oracle, n: Node): Probe {
    var q := Request(n, StableCommand);
    if Stable(ask(q)) then Continue([q]) else Halt(Retry, [q])
  }

  function StableScan(nodes: seq<Node>, ask: Oracle): Round
  {
    Scan(nodes, n => StableProbe(ask, n), Advance)
  }

  /**
   * The cluster-stable round advances exactly when every node answers without error and
   * not with `ERROR::unstable-cluster`; otherwise it stops at the first node that does
   * not.  Either way it asks the nodes in order, one request each.
   */
  lemma StableScanSpec(nodes: seq<Node>, ask: Oracle)
    ensures var r := StableScan(nodes, ask);
      r.verdict != Finish
      && (r.verdict == Advance <==> forall i :: 0 <= i < |nodes| ==> Stable(ask(Request(nodes[i], StableCommand))))
      && |r.issued| <= |nodes| && r.issued == Requests(nodes[..|r.issued|], StableCommand)
      && (r.verdict == Retry ==> (|r.issued| > 0
            && !Stable(ask(Request(nodes[|r.issued| - 1], StableCommand)))
            && forall i :: 0 <= i < |r.issued| - 1 ==> Stable(ask(Request(nodes[i], StableCommand)))))
  {
    var step: NodeStep := n => StableProbe(ask, n);
    match FirstHalt(nodes, step)
    case None =>
      ScanContinues(nodes, step, Advance);
      SentSingles(nodes, step, StableCommand);
      assert nodes[..|nodes|] == nodes;
    case Some(k) =>
      ScanHalts(nodes, step, Advance, k);
      SentSingles(nodes[..k], step, StableCommand);
      assert Requests(nodes[..k], StableCommand) + [Request(nodes[k], StableCommand)]
          == Requests(nodes[..k + 1], StableCommand);
  }

  // ---- quiesce self ----

  /** Position of the first node the drain runs on. */
  function FirstSelf(nodes: seq<Node>, podIP: string): (k: Option<nat>)
    ensures k.None? <==> forall i :: 0 <= i < |nodes| ==> !IsSelf(nodes[i].host, podIP)
    ensures k.Some? ==> (k.value < |nodes| && IsSelf(nodes[k.value].host, podIP)
      && forall i :: 0 <= i < k.value ==> !IsSelf(nodes[i].host, podIP))
    decreases |nodes|
  {
    if |nodes| == 0 then None
    else if IsSelf(nodes[0].host, podIP) then Some(0)
    else
      match FirstSelf(nodes[1..], podIP)
      case None => None
      case Some(k) => Some(k + 1)
  }

  /**
   * A scan whose step ignores other nodes and halts on the node it runs on is decided
   * by the first such node alone.
   */
  lemma {:induction false} ScanFirstSelf(nodes: seq<Node>, step: NodeStep, podIP: string, done: Verdict)
    requires forall i :: 0 <= i < |nodes| ==>
      if IsSelf(nodes[i].host, podIP) then step(nodes[i]).Halt? else step(nodes[i]) == Continue([])
    ensures Scan(nodes, step, done) == match FirstSelf(nodes, podIP)
      case None => Round(done, [])
      case Some(k) => Round(step(nodes[k]).verdict, step(nodes[k]).sent)
    decreases |nodes|
  {
    if |nodes| > 0 && !IsSelf(nodes[0].host, podIP) {
      ScanFirstSelf(nodes[1..], step, podIP, done);
      assert forall s: seq<Request> :: [] + s == s;
    }
  }

  function QuiesceProbe(podIP: string, ask: Oracle, n: Node): Probe {
    if !IsSelf(n.host, podIP) then Continue([])
    else
      var q := Request(n, QuiesceCommand);
      Halt(if ask(q).Failed? then Retry else Advance, [q])
  }

  /**
   * The quiesce round: `quiesce:` goes to the first node the drain runs on, and to no
   * other.  It is retried when that request fails; without such a node nothing is sent.
   */
  function QuiesceScan(nodes: seq<Node>, podIP: string, ask: Oracle): (r: Round)
    ensures r.verdict != Finish
    ensures FirstSelf(nodes, podIP).None? ==> r == Round(Advance, [])
    ensures FirstSelf(nodes, podIP).Some? ==> var q := Request(nodes[FirstSelf(nodes, podIP).value], QuiesceCommand);
      r.issued == [q] && (r.verdict == Retry <==> ask(q).Failed?)
  {
    ScanFirstSelf(nodes, n => QuiesceProbe(podIP, ask, n), podIP, Advance);
    Scan(nodes, n => QuiesceProbe(podIP, ask, n), Advance)
  }

  /**
   * One pass of the wait for `pending_quiesce` on the quiesced node.  The wait ends when
   * the node lists no namespace, or when its first namespace reports `pending_quiesce`
   * exactly `true`; an error or any other value means another pass.
   */
  function PendingRound(n: Node, ask: Oracle): (r: Round)
    ensures r.verdict != Finish
    ensures forall q :: q in r.issued ==> NamespaceQuery(q, n)
    ensures |r.issued| > 0 && r.issued[0] == Request(n, NamespacesCommand)
    ensures r.verdict == Advance <==> var q := ask(Request(n, NamespacesCommand));
      q.Answer? && (SelectedNamespace(q.text) == ""
        || (var s := ask(Request(n, StatsCommand(SelectedNamespace(q.text))));
            s.Answer? && Metric(s.text, "pending_quiesce") == "true"))
  {
    var q := Request(n, NamespacesCommand);
    match ask(q)
    case Failed => Round(Retry, [q])
    case Answer(list) =>
      var ns := SelectedNamespace(list);
      if ns == "" then Round(Advance, [q])
      else
        var s := Request(n, StatsCommand(ns));
        match ask(s)
        case Failed => Round(Retry, [q, s])
        case Answer(stats) =>
          Round(if Metric(stats, "pending_quiesce") != "true" then Retry else Advance, [q, s])
  }

  // ---- recluster ----

  function ReclusterProbe(ask: Oracle, n: Node): Probe {
    var q := Request(n, ReclusterCommand);
    if ask(q).Failed? then Halt(Retry, [q]) else Continue([q])
  }

  function ReclusterScan(nodes: seq<Node>, ask: Oracle): Round
  {
    Scan(nodes, n => ReclusterProbe(ask, n), Advance)
  }

  /** `recluster:` must succeed on every node; the first failure ends the round in a retry. */
  lemma ReclusterScanSpec(nodes: seq<Node>, ask: Oracle)
    ensures var r := ReclusterScan(nodes, ask);
      r.verdict != Finish
      && (r.verdict == Advance <==> forall i :: 0 <= i < |nodes| ==> ask(Request(nodes[i], ReclusterCommand)).Answer?)
      && |r.issued| <= |nodes| && r.issued == Requests(nodes[..|r.issued|], ReclusterCommand)
      && (r.verdict == Advance ==> |r.issued| == |nodes|)
  {
    var step: NodeStep := n => ReclusterProbe(ask, n);
    match FirstHalt(nodes, step)
    case None =>
      ScanContinues(nodes, step, Advance);
      SentSingles(nodes, step, ReclusterCommand);
      assert nodes[..|nodes|] == nodes;
    case Some(k) =>
      ScanHalts(nodes, step, Advance, k);
      SentSingles(nodes[..k], step, ReclusterCommand);
      assert Requests(nodes[..k], ReclusterCommand) + [Request(nodes[k], ReclusterCommand)]
          == Requests(nodes[..k + 1], ReclusterCommand);
  }

  // ---- idempotency guard ----

  /** The node's namespace list and, when it names one, that namespace's statistics came back. */
  predicate GuardAnswered(ask: Oracle, n: Node) {
    var q := ask(Request(n, NamespacesCommand));
    q.Answer? && (SelectedNamespace(q.text) == ""
      || ask(Request(n, StatsCommand(SelectedNamespace(q.text)))).Answer?)
  }

  /** The node's first namespace reports `pending_quiesce` exactly `false`. */
  predicate ClearsFlag(ask: Oracle, n: Node) {
    var q := ask(Request(n, NamespacesCommand));
    q.Answer? && SelectedNamespace(q.text) != ""
      && var s := ask(Request(n, StatsCommand(SelectedNamespace(q.text))));
         s.Answer? && Metric(s.text, "pending_quiesce") == "false"
  }

  function GuardProbe(ask: Oracle, n: Node): (p: Probe)
    ensures p.Halt? <==> !GuardAnswered(ask, n) || ClearsFlag(ask, n)
    ensures p.Halt? ==> (p.verdict == Advance <==> ClearsFlag(ask, n)) && p.verdict != Finish
    ensures forall q :: q in p.sent ==> NamespaceQuery(q, n)
  {
    var q := Request(n, NamespacesCommand);
    match ask(q)
    case Failed => Halt(Retry, [q])
    case Answer(list) =>
      var ns := SelectedNamespace(list);
      if ns == "" then Continue([q])
      else
        var s := Request(n, StatsCommand(ns));
        match ask(s)
        case Failed => Halt(Retry, [q, s])
        case Answer(stats) =>
          if Metric(stats, "pending_quiesce") == "false" then Halt(Advance, [q, s]) else Continue([q, s])
  }

  /**
   * The guard round: the all-true flag starts set and only a node whose first namespace
   * reads `pending_quiesce` exactly `false` clears it, ending the scan.  `Finish` (the
   * flag survived) means every node answered and none cleared it.
   */
  function GuardScan(nodes: seq<Node>, ask: Oracle): Round {
    Scan(nodes, n => GuardProbe(ask, n), Finish)
  }

  /** The guard finishes exactly when every node answered and none cleared the flag. */
  lemma GuardFinishes(nodes: seq<Node>, ask: Oracle)
    ensures GuardScan(nodes, ask).verdict == Finish <==>
      forall i :: 0 <= i < |nodes| ==> GuardAnswered(ask, nodes[i]) && !ClearsFlag(ask, nodes[i])
  {
    var step: NodeStep := n => GuardProbe(ask, n);
    match FirstHalt(nodes, step)
    case None => ScanContinues(nodes, step, Finish);
    case Some(k) => ScanHalts(nodes, step, Finish, k);
  }

  /** The guard advances exactly when some node clears the flag, every node before it answering. */
  lemma GuardAdvances(nodes: seq<Node>, ask: Oracle)
    ensures GuardScan(nodes, ask).verdict == Advance <==>
      exists k :: 0 <= k < |nodes| && ClearsFlag(ask, nodes[k])
        && forall i :: 0 <= i < k ==> GuardAnswered(ask, nodes[i]) && !ClearsFlag(ask, nodes[i])
  {
    var step: NodeStep := n => GuardProbe(ask, n);
    match FirstHalt(nodes, step)
    case None =>
      ScanContinues(nodes, step, Finish);
    case Some(k) =>
      ScanHalts(nodes, step, Finish, k);
      FirstClearUnique(nodes, ask, k);
  }

  /** Only the first halting node can be a first node clearing the flag. */
  lemma FirstClearUnique(nodes: seq<Node>, ask: Oracle, k: nat)
    requires k < |nodes| && GuardProbe(ask, nodes[k]).Halt?
    requires forall i :: 0 <= i < k ==> GuardProbe(ask, nodes[i]).Continue?
    ensures (exists j :: (0 <= j < |nodes| && ClearsFlag(ask, nodes[j])
        && forall i :: 0 <= i < j ==> GuardAnswered(ask, nodes[i]) && !ClearsFlag(ask, nodes[i])))
      <==> ClearsFlag(ask, nodes[k])
  {
  }

  // ---- effective_is_quiesced ----

  /** The node's first namespace reports `effective_is_quiesced` exactly `true`. */
  predicate EffectivelyQuiesced(ask: Oracle, n: Node) {
    var q := ask(Request(n, NamespacesCommand));
    q.Answer? && SelectedNamespace(q.text) != ""
      && var s := ask(Request(n, StatsCommand(SelectedNamespace(q.text))));
         s.Answer? && Metric(s.text, "effective_is_quiesced") == "true"
  }

  function EffectiveProbe(podIP: string, ask: Oracle, n: Node): (p: Probe)
    ensures p.Halt? <==> (IsSelf(n.host, podIP) &&
      var q := ask(Request(n, NamespacesCommand)); q.Failed? || SelectedNamespace(q.text) != "")
    ensures p.Halt? ==> (p.verdict == Advance <==> EffectivelyQuiesced(ask, n)) && p.verdict != Finish
    ensures forall q :: q in p.sent ==> NamespaceQuery(q, n) && IsSelf(n.host, podIP)
  {
    if !IsSelf(n.host, podIP) then Continue([])
    else
      var q := Request(n, NamespacesCommand);
      match ask(q)
      case Failed => Halt(Retry, [q])
      case Answer(list) =>
        var ns := SelectedNamespace(list);
        if ns == "" then Continue([q])
        else
          var s := Request(n, StatsCommand(ns));
          match ask(s)
          case Failed => Halt(Retry, [q, s])
          case Answer(stats) =>
            Halt(if Metric(stats, "effective_is_quiesced") != "true" then Retry else Advance, [q, s])
  }

  /**
   * The effective-quiesce round looks only at nodes the drain runs on.  A local node
   * listing no namespace does not end the scan; the first local node that fails or
   * names a namespace decides: it advances only when `effective_is_quiesced` is `true`.
   */
  function EffectiveScan(nodes: seq<Node>, podIP: string, ask: Oracle): Round {
    Scan(nodes, n => EffectiveProbe(podIP, ask, n), Advance)
  }

  lemma EffectiveScanSpec(nodes: seq<Node>, podIP: string, ask: Oracle)
    ensures var step: NodeStep := n => EffectiveProbe(podIP, ask, n);
      var v := EffectiveScan(nodes, podIP, ask).verdict;
      v != Finish
      && (v == Advance <==> match FirstHalt(nodes, step)
            case None => true
            case Some(k) => EffectivelyQuiesced(ask, nodes[k]))
  {
    var step: NodeStep := n => EffectiveProbe(podIP, ask, n);
    match FirstHalt(nodes, step)
    case None => ScanContinues(nodes, step, Advance);
    case Some(k) => ScanHalts(nodes, step, Advance, k);
  }

  // ---- zero throughput ----

  /** The commands of the throughput check: the build, then one of the two latency commands. */
  predicate LatencyQuery(command: string) {
    command == BuildCommand || command == "latencies:" || command == "latency:"
  }

  /** The ops/sec a latency reply reports, read with the reducer for its command. */
  function OpsOf(command: string, text: string, parse: FloatParser): real {
    if command == "latencies:" then GetOpsPerSecNew(text, parse).value
    else GetOpsPerSecLegacy(text, parse).value
  }

  function ThroughputProbe(podIP: string, ask: Oracle, parse: FloatParser, n: Node): (p: Probe)
    ensures IsSelf(n.host, podIP) <==> p.Halt?
    ensures !IsSelf(n.host, podIP) ==> p == Continue([])
    ensures p.Halt? ==> p.verdict != Finish
    ensures forall q :: q in p.sent ==> q.node == n && LatencyQuery(q.command)
  {
    if !IsSelf(n.host, podIP) then Continue([])
    else
      var b := Request(n, BuildCommand);
      match ask(b)
      case Failed => Halt(Retry, [b])
      case Answer(ver) =>
        match GetLatencyCommand(ver)
        case Failure(_) => Halt(Retry, [b])
        case Success(command) =>
          var l := Request(n, command);
          match ask(l)
          case Failed => Halt(Retry, [b, l])
          case Answer(text) => Halt(if OpsOf(command, text, parse) != 0.0 then Retry else Advance, [b, l])
  }

  /** The throughput round: decided by the first node the drain runs on. */
  function ThroughputScan(nodes: seq<Node>, podIP: string, ask: Oracle, parse: FloatParser): Round {
    Scan(nodes, n => ThroughputProbe(podIP, ask, parse, n), Advance)
  }

  /**
   * The throughput round finishes vacuously without a local node.  Otherwise it asks
   * that node for its build, then for `latencies:` from 5.1 on and `latency:` before,
   * and advances only when the reply's ops/sec is exactly zero.
   */
  lemma ThroughputScanSpec(nodes: seq<Node>, podIP: string, ask: Oracle, parse: FloatParser)
    ensures var r := ThroughputScan(nodes, podIP, ask, parse);
      match FirstSelf(nodes, podIP)
      case None => r == Round(Advance, [])
      case Some(k) =>
        var n := nodes[k];
        var b := ask(Request(n, BuildCommand));
        r.verdict != Finish
        && (r.verdict == Advance <==>
              b.Answer? && GetLatencyCommand(b.text).Success?
              && var command := GetLatencyCommand(b.text).value;
                 var l := ask(Request(n, command));
                 l.Answer? && OpsOf(command, l.text, parse) == 0.0)
        && (b.Answer? && GetLatencyCommand(b.text).Success? ==>
              r.issued == [Request(n, BuildCommand), Request(n, GetLatencyCommand(b.text).value)])
  {
    ScanFirstSelf(nodes, n => ThroughputProbe(podIP, ask, parse, n), podIP, Advance);
  }

  // ---- proxy tally ----

  /** The six per-namespace proxy counters the tally adds up. */
  const ProxyCounters: seq<string> := ["client_proxy_complete", "client_proxy_error",
    "client_proxy_timeout", "batch_sub_proxy_complete", "batch_sub_proxy_error",
    "batch_sub_proxy_timeout"]

  /** Go's `i, _ := strconv.Atoi(metrics[key])` for each key: a counter that is not a number reads 0. */
  function CounterValues(m: map<string, string>, keys: seq<string>): (vs: seq<int>)
    ensures |vs| == |keys|
    decreases |keys|
  {
    if |keys| == 0 then [] else [ParseAtoi(Get(m, keys[0])).value] + CounterValues(m, keys[1..])
  }

  /** Go's `total += i` for each value in turn, wrapping at 64 bits. */
  function AddAll(vs: seq<int>, acc: int): (total: int)
    requires MinInt64 <= acc <= MaxInt64
    ensures MinInt64 <= total <= MaxInt64
    decreases |vs|
  {
    if |vs| == 0 then acc else AddAll(vs[1..], Wrap64(acc + vs[0]))
  }

  function Sum(vs: seq<int>): int
    decreases |vs|
  {
    if |vs| == 0 then 0 else vs[0] + Sum(vs[1..])
  }

  /** Adding in int64 value by value is the exact sum, wrapped once. */
  lemma {:induction false} AddAllSum(vs: seq<int>, acc: int)
    requires MinInt64 <= acc <= MaxInt64
    ensures AddAll(vs, acc) == Wrap64(acc + Sum(vs))
    decreases |vs|
  {
    if |vs| == 0 {
      Wrap64InRange(acc);
    } else {
      AddAllSum(vs[1..], Wrap64(acc + vs[0]));
      Wrap64Add(acc + vs[0], Sum(vs[1..]));
    }
  }

  /** Reads a namespace statistics reply into the values the tally adds for it. */
  type CounterReader = string -> seq<int>

  /** The six proxy counters of a statistics reply. */
  const ReadProxyCounters: CounterReader := stats => CounterValues(ParseStats(stats, ';'), ProxyCounters)

  /** The tally over a node's namespaces: the total so far, and whether every reply came. */
  datatype Tally = Tally(total: int, complete: bool, sent: seq<Request>)

  function TallyFrom(n: Node, ask: Oracle, read: CounterReader, namespaces: seq<string>, acc: int): (t: Tally)
    requires MinInt64 <= acc <= MaxInt64
    ensures MinInt64 <= t.total <= MaxInt64
    ensures forall q :: q in t.sent ==> NamespaceQuery(q, n)
    decreases |namespaces|
  {
    if |namespaces| == 0 then Tally(acc, true, [])
    else
      var s := Request(n, StatsCommand(namespaces[0]));
      match ask(s)
      case Failed => Tally(acc, false, [s])
      case Answer(stats) =>
        var t := TallyFrom(n, ask, read, namespaces[1..], AddAll(read(stats), acc));
        Tally(t.total, t.complete, [s] + t.sent)
  }

  /** The exact count over the namespaces, while their statistics come back. */
  function ProxySum(n: Node, ask: Oracle, read: CounterReader, namespaces: seq<string>): int
    decreases |namespaces|
  {
    if |namespaces| == 0 then 0
    else
      match ask(Request(n, StatsCommand(namespaces[0])))
      case Failed => 0
      case Answer(stats) => Sum(read(stats)) + ProxySum(n, ask, read, namespaces[1..])
  }

  /** Namespaces whose statistics all come back. */
  predicate AllAnswered(n: Node, ask: Oracle, namespaces: seq<string>) {
    forall i :: 0 <= i < |namespaces| ==> ask(Request(n, StatsCommand(namespaces[i]))).Answer?
  }

  /**
   * The tally is the exact sum of the counters over the namespaces answered before the
   * first failure, wrapped to int64.
   */
  lemma {:induction false} TallyTotal(n: Node, ask: Oracle, read: CounterReader, namespaces: seq<string>, acc: int)
    requires MinInt64 <= acc <= MaxInt64
    ensures TallyFrom(n, ask, read, namespaces, acc).total == Wrap64(acc + ProxySum(n, ask, read, namespaces))
    decreases |namespaces|
  {
    if |namespaces| == 0 || ask(Request(n, StatsCommand(namespaces[0]))).Failed? {
      Wrap64InRange(acc);
    } else {
      var vs := read(ask(Request(n, StatsCommand(namespaces[0]))).text);
      var rest := ProxySum(n, ask, read, namespaces[1..]);
      var acc' := AddAll(vs, acc);
      TallyTotal(n, ask, read, namespaces[1..], acc');
      AddAllSum(vs, acc);
      Wrap64Add(acc + Sum(vs), rest);
    }
  }

  /** The tally is complete exactly when every namespace's statistics came back. */
  lemma {:induction false} TallyComplete(n: Node, ask: Oracle, read: CounterReader, namespaces: seq<string>, acc: int)
    requires MinInt64 <= acc <= MaxInt64
    ensures TallyFrom(n, ask, read, namespaces, acc).complete <==> AllAnswered(n, ask, namespaces)
    decreases |namespaces|
  {
    if |namespaces| > 0 && ask(Request(n, StatsCommand(namespaces[0]))).Answer? {
      var vs := read(ask(Request(n, StatsCommand(namespaces[0]))).text);
      TallyComplete(n, ask, read, namespaces[1..], AddAll(vs, acc));
      assert forall i :: 0 <= i < |namespaces| - 1 ==> namespaces[1..][i] == namespaces[i + 1];
      if AllAnswered(n, ask, namespaces[1..]) {
        forall i | 0 <= i < |namespaces| ensures ask(Request(n, StatsCommand(namespaces[i]))).Answer? {
          if i > 0 {
            assert namespaces[i] == namespaces[1..][i - 1];
          }
        }
      }
    }
  }

  /** A proxy round's outcome and the baseline (`totalProxies`) it leaves for the next round. */
  datatype ProxyOutcome = ProxyOutcome(round: Round, baseline: int)

  /**
   * One proxy round against the baseline of the previous one (0 at first).  The first
   * local node's namespaces are tallied; a tally differing from the baseline becomes
   * the new baseline and means another round, even when a statistics request failed
   * part-way.
   */
  function ProxyRound(nodes: seq<Node>, podIP: string, ask: Oracle, read: CounterReader, baseline: int): (o: ProxyOutcome)
    requires MinInt64 <= baseline <= MaxInt64
    ensures MinInt64 <= o.baseline <= MaxInt64
    ensures o.round.verdict != Finish
    ensures forall q :: q in o.round.issued ==> NamespaceQuery(q, q.node) && IsSelf(q.node.host, podIP)
  {
    match FirstSelf(nodes, podIP)
    case None => ProxyOutcome(Round(Advance, []), baseline)
    case Some(k) =>
      var n := nodes[k];
      var q := Request(n, NamespacesCommand);
      match ask(q)
      case Failed => ProxyOutcome(Round(Retry, [q]), baseline)
      case Answer(list) =>
        var t := TallyFrom(n, ask, read, Split(list, ';'), 0);
        if baseline != t.total then ProxyOutcome(Round(Retry, [q] + t.sent), t.total)
        else ProxyOutcome(Round(if t.complete then Advance else Retry, [q] + t.sent), baseline)
  }

  /** The proxy count the local node's replies show, wrapped to int64. */
  function LocalTally(n: Node, ask: Oracle, read: CounterReader, list: string): int {
    Wrap64(ProxySum(n, ask, read, Split(list, ';')))
  }

  /**
   * The proxy round advances exactly when there is no local node, or when the local node
   * answered every request and its tally equals the baseline.
   */
  lemma ProxyVerdict(nodes: seq<Node>, podIP: string, ask: Oracle, read: CounterReader, baseline: int)
    requires MinInt64 <= baseline <= MaxInt64
    ensures var o := ProxyRound(nodes, podIP, ask, read, baseline);
      match FirstSelf(nodes, podIP)
      case None => o == ProxyOutcome(Round(Advance, []), baseline)
      case Some(k) =>
        var n := nodes[k];
        var q := ask(Request(n, NamespacesCommand));
        o.round.verdict == Advance <==> (q.Answer?
          && AllAnswered(n, ask, Split(q.text, ';')) && baseline == LocalTally(n, ask, read, q.text))
  {
    match FirstSelf(nodes, podIP)
    case None =>
    case Some(k) =>
      var n := nodes[k];
      var q := ask(Request(n, NamespacesCommand));
      if q.Answer? {
        TallyTotal(n, ask, read, Split(q.text, ';'), 0);
        TallyComplete(n, ask, read, Split(q.text, ';'), 0);
      }
  }

  /**
   * The baseline a proxy round leaves is the local node's tally whenever its namespace
   * list came back, even when a statistics request then failed part-way.
   */
  lemma ProxyBaseline(nodes: seq<Node>, podIP: string, ask: Oracle, read: CounterReader, baseline: int)
    requires MinInt64 <= baseline <= MaxInt64
    ensures var o := ProxyRound(nodes, podIP, ask, read, baseline);
      match FirstSelf(nodes, podIP)
      case None => o.baseline == baseline
      case Some(k) =>
        var n := nodes[k];
        var q := ask(Request(n, NamespacesCommand));
        o.baseline == (if q.Answer? then LocalTally(n, ask, read, q.text) else baseline)
  {
    match FirstSelf(nodes, podIP)
    case None =>
    case Some(k) =>
      var n := nodes[k];
      var q := ask(Request(n, NamespacesCommand));
      if q.Answer? {
        TallyTotal(n, ask, read, Split(q.text, ';'), 0);
      }
  }

  /**
   * Once a round with every reply answered has set the baseline, a following round that
   * sees the same counters advances.
   */
  lemma ProxySettles(nodes: seq<Node>, podIP: string, ask: Oracle, read: CounterReader, baseline: int)
    requires MinInt64 <= baseline <= MaxInt64
    requires FirstSelf(nodes, podIP).Some?
    requires var n := nodes[FirstSelf(nodes, podIP).value];
      var q := ask(Request(n, NamespacesCommand));
      q.Answer? && AllAnswered(n, ask, Split(q.text, ';'))
    ensures var b := ProxyRound(nodes, podIP, ask, read, baseline).baseline;
      ProxyRound(nodes, podIP, ask, read, b).round.verdict == Advance
  {
    ProxyBaseline(nodes, podIP, ask, read, baseline);
    ProxyVerdict(nodes, podIP, ask, read, ProxyRound(nodes, podIP, ask, read, baseline).baseline);
  }

  /**
   * A statistics request failing part-way still replaces the baseline: after the first
   * namespace answers and the second fails, the round retries with the first
   * namespace's count as the new baseline whenever that count differs from the old one.
   */
  lemma ProxyPartialBaseline(nodes: seq<Node>, podIP: string, ask: Oracle, read: CounterReader,
                             baseline: int, list: string, first: string, second: string, more: string)
    requires MinInt64 <= baseline <= MaxInt64
    requires FirstSelf(nodes, podIP).Some?
    requires var n := nodes[FirstSelf(nodes, podIP).value];
      ask(Request(n, NamespacesCommand)) == Answer(list)
      && Split(list, ';') == [first, second] + Split(more, ';')
      && ask(Request(n, StatsCommand(first))).Answer?
      && ask(Request(n, StatsCommand(second))).Failed?
    ensures var n := nodes[FirstSelf(nodes, podIP).value];
      var o := ProxyRound(nodes, podIP, ask, read, baseline);
      o.round.verdict == Retry
      && o.baseline == Wrap64(Sum(read(ask(Request(n, StatsCommand(first))).text)))
  {
    var n := nodes[FirstSelf(nodes, podIP).value];
    var names := Split(list, ';');
    assert names[0] == first && names[1..][0] == second;
    var c := Sum(read(ask(Request(n, StatsCommand(first))).text));
    assert ProxySum(n, ask, read, names[1..]) == 0;
    assert ProxySum(n, ask, read, names) == c;
    ProxyBaseline(nodes, podIP, ask, read, baseline);
    ProxyVerdict(nodes, podIP, ask, read, baseline);
    assert !AllAnswered(n, ask, names) by {
      assert names[1] == second;
    }
  }

  /** Each counter reads as Go's `strconv.Atoi` of its metric, `""` (and so 0) when missing. */
  lemma CounterValuesSpec(m: map<string, string>, keys: seq<string>)
    ensures forall i :: 0 <= i < |keys| ==> CounterValues(m, keys)[i] == ParseAtoi(Get(m, keys[i])).value
    ensures forall i :: 0 <= i < |keys| && keys[i] !in m ==> CounterValues(m, keys)[i] == 0
  {
    CounterValuesAt(m, keys);
    forall i | 0 <= i < |keys| && keys[i] !in m ensures ParseAtoi(Get(m, keys[i])).value == 0 {
      assert Get(m, keys[i]) == "";
      AtoiEmpty();
    }
  }

  lemma {:induction false} CounterValuesAt(m: map<string, string>, keys: seq<string>)
    ensures forall i :: 0 <= i < |keys| ==> CounterValues(m, keys)[i] == ParseAtoi(Get(m, keys[i])).value
    decreases |keys|
  {
    if |keys| > 0 {
      CounterValuesAt(m, keys[1..]);
      assert forall i :: 0 < i < |keys| ==> keys[i] == keys[1..][i - 1];
    }
  }

}
