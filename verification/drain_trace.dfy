/**
 * `performPreStopOp` as a phase machine: each round runs the current phase's loop body
 * once against that round's node list and replies, and moves on or stays.  Phases come
 * in the source's order: cluster-stable, quiesce self, wait for `pending_quiesce`,
 * recluster, the idempotency guard (with its stability recheck), `effective_is_quiesced`,
 * zero throughput, and a stable proxy tally.
 */
module DrainTrace {
  import opened Wrappers
  import opened Strings
  import opened Numeric
  import opened Latency
  import opened Drain

  /** A Go int on a 64-bit platform. */
  type Int64 = x: int | MinInt64 <= x <= MaxInt64

  datatype Phase =
    | ClusterStable
    | QuiesceSelf
    | PendingQuiesce(node: Node)
    | Recluster
    | Guard
    | Recheck
    | EffectiveQuiesce
    | Throughput
    | Proxies(baseline: Int64)
    | Done

  /** What one round sees: the node list `GetNodes` returned, and the replies. */
  datatype Env = Env(nodes: seq<Node>, ask: Oracle)

  /** What stays fixed for the whole drain: the pod's IP and the float parser. */
  datatype Config = Config(podIP: string, parse: FloatParser)

  datatype Transition = Transition(next: Phase, issued: seq<Request>)


  /** The first node the drain runs on, if the round's node list has one. */
  function SelfNode(nodes: seq<Node>, podIP: string): (s: Option<Node>)
    ensures s.Some? ==> IsSelf(s.value.host, podIP)
  {
    match FirstSelf(nodes, podIP)
    case None => None
    case Some(k) => Some(nodes[k])
  }

  /** The current phase's loop body, once; `baseline` is what a proxy round leaves. */
  function PhaseRound(c: Config, p: Phase, e: Env): (o: ProxyOutcome)
    ensures MinInt64 <= o.baseline <= MaxInt64
  {
    match p
    case ClusterStable => ProxyOutcome(StableScan(e.nodes, e.ask), 0)
    case QuiesceSelf => ProxyOutcome(QuiesceScan(e.nodes, c.podIP, e.ask), 0)
    case PendingQuiesce(n) => ProxyOutcome(PendingRound(n, e.ask), 0)
    case Recluster => ProxyOutcome(ReclusterScan(e.nodes, e.ask), 0)
    case Guard => ProxyOutcome(GuardScan(e.nodes, e.ask), 0)
    case Recheck => ProxyOutcome(StableScan(e.nodes, e.ask), 0)
    case EffectiveQuiesce => ProxyOutcome(EffectiveScan(e.nodes, c.podIP, e.ask), 0)
    case Throughput => ProxyOutcome(ThroughputScan(e.nodes, c.podIP, e.ask, c.parse), 0)
    case Proxies(b) => ProxyRound(e.nodes, c.podIP, e.ask, ReadProxyCounters, b)
    case Done => ProxyOutcome(Round(Advance, []), 0)
  }

  /**
   * Where a round's verdict leads: `Retry` repeats the phase, `Advance` goes to the next
   * loop, and the guard's `Finish` goes to its stability recheck.
   */
  function Successor(p: Phase, v: Verdict, self: Option<Node>, baseline: Int64): Phase {
    match p
    case ClusterStable => if v == Advance then QuiesceSelf else p
    case QuiesceSelf =>
      if v != Advance then p
      else if self.None? then Recluster
      else PendingQuiesce(self.value)
    case PendingQuiesce(_) => if v == Advance then Recluster else p
    case Recluster => if v == Advance then Guard else p
    case Guard => if v == Advance then EffectiveQuiesce else if v == Finish then Recheck else p
    case Recheck => if v == Advance then Done else p
    case EffectiveQuiesce => if v == Advance then Throughput else p
    case Throughput => if v == Advance then Proxies(0) else p
    case Proxies(_) => if v == Advance then Done else Proxies(baseline)
    case Done => Done
  }

  /** One round of the current phase. */
  function Step(c: Config, p: Phase, e: Env): Transition {
    var o := PhaseRound(c, p, e);
    Transition(Successor(p, o.round.verdict, SelfNode(e.nodes, c.podIP), o.baseline), o.round.issued)
  }

  /** Position of a phase in the drain. */
  function Rank(p: Phase): nat {
    match p
    case ClusterStable => 0
    case QuiesceSelf => 1
    case PendingQuiesce(_) => 2
    case Recluster => 3
    case Guard => 4
    case Recheck => 5
    case EffectiveQuiesce => 5
    case Throughput => 6
    case Proxies(_) => 7
    case Done => 8
  }

  /** The moves the source's control flow allows: stay, or go on to a later loop. */
  predicate Edge(p: Phase, q: Phase) {
    p == q || (p.Proxies? && q.Proxies?) || match p
      case ClusterStable => q == QuiesceSelf
      case QuiesceSelf => q.PendingQuiesce? || q == Recluster
      case PendingQuiesce(_) => q == Recluster
      case Recluster => q == Guard
      case Guard => q == Recheck || q == EffectiveQuiesce
      case Recheck => q == Done
      case EffectiveQuiesce => q == Throughput
      case Throughput => q == Proxies(0)
      case Proxies(_) => q == Done
      case Done => false
  }

  /** Every round follows an edge of the drain, so phases never go backwards. */
  lemma StepEdge(c: Config, p: Phase, e: Env)
    ensures Edge(p, Step(c, p, e).next)
    ensures Rank(p) <= Rank(Step(c, p, e).next)
  {
    var o := PhaseRound(c, p, e);
    SuccessorEdge(p, o.round.verdict, SelfNode(e.nodes, c.podIP), o.baseline);
  }

  lemma SuccessorEdge(p: Phase, v: Verdict, self: Option<Node>, baseline: Int64)
    ensures Edge(p, Successor(p, v, self, baseline))
    ensures Rank(p) <= Rank(Successor(p, v, self, baseline))
  {
  }

  /** Which requests a phase may send. */
  predicate Allowed(c: Config, p: Phase, q: Request) {
    match p
    case ClusterStable => q.command == StableCommand
    case Recheck => q.command == StableCommand
    case QuiesceSelf => q.command == QuiesceCommand && IsSelf(q.node.host, c.podIP)
    case PendingQuiesce(n) => NamespaceQuery(q, n)
    case Recluster => q.command == ReclusterCommand
    case Guard => NamespaceQuery(q, q.node)
    case EffectiveQuiesce => NamespaceQuery(q, q.node) && IsSelf(q.node.host, c.podIP)
    case Throughput => LatencyQuery(q.command) && IsSelf(q.node.host, c.podIP)
    case Proxies(_) => NamespaceQuery(q, q.node) && IsSelf(q.node.host, c.podIP)
    case Done => false
  }

  /** A round sends only what its phase allows. */
  lemma StepAllowed(c: Config, p: Phase, e: Env)
    ensures forall q :: q in Step(c, p, e).issued ==> Allowed(c, p, q)
  {
    var ok: Request -> bool := q => Allowed(c, p, q);
    match p
    case ClusterStable =>
      StableScanSpec(e.nodes, e.ask);
    case Recheck =>
      StableScanSpec(e.nodes, e.ask);
    case QuiesceSelf =>
    case PendingQuiesce(n) =>
    case Recluster =>
      ReclusterScanSpec(e.nodes, e.ask);
    case Guard =>
      ScanWithin(e.nodes, n => GuardProbe(e.ask, n), Finish, ok);
    case EffectiveQuiesce =>
      ScanWithin(e.nodes, n => EffectiveProbe(c.podIP, e.ask, n), Advance, ok);
    case Throughput =>
      ThroughputSelf(c, e);
    case Proxies(b) =>
    case Done =>
  }

  lemma ThroughputSelf(c: Config, e: Env)
    ensures forall q :: q in ThroughputScan(e.nodes, c.podIP, e.ask, c.parse).issued ==>
      Allowed(c, Throughput, q)
  {
    var step: NodeStep := n => ThroughputProbe(c.podIP, e.ask, c.parse, n);
    forall i | 0 <= i < |e.nodes| ensures forall q :: q in step(e.nodes[i]).sent ==> Allowed(c, Throughput, q) {
      var n := e.nodes[i];
      if IsSelf(n.host, c.podIP) {
        assert forall q :: q in step(n).sent ==> q.node == n;
      }
    }
    ScanWithin(e.nodes, step, Advance, q => Allowed(c, Throughput, q));
  }

  // ---- traces ----

  /** Where a round leads from a phase, whatever machine makes the move. */
  type Mover = (Phase, Env) -> Phase

  /** The drain's own move: one round of `Step`. */
  function DrainMove(c: Config): Mover {
    (p, e) => Step(c, p, e).next
  }

  /** The phases a machine passes through from `p`, one round per element of `envs`. */
  function Run(move: Mover, p: Phase, envs: seq<Env>): (ps: seq<Phase>)
    ensures |ps| == |envs| + 1 && ps[0] == p
    ensures forall i :: 0 <= i < |envs| ==> ps[i + 1] == move(ps[i], envs[i])
    decreases |envs|
  {
    if |envs| == 0 then [p]
    else
      var rest := Run(move, move(p, envs[0]), envs[1..]);
      assert forall i :: 1 <= i < |envs| ==> envs[1..][i - 1] == envs[i];
      [p] + rest
  }

  /** A machine whose every move follows an edge of the drain. */
  ghost predicate Follows(move: Mover) {
    forall p, e :: Edge(p, move(p, e))
  }

  /** A sequence of phases where each follows the one before by an edge. */
  ghost predicate Walk(ps: seq<Phase>) {
    forall k :: 0 <= k < |ps| - 1 ==> Edge(ps[k], ps[k + 1])
  }

  lemma DrainFollows(c: Config)
    ensures Follows(DrainMove(c))
  {
    forall p, e ensures Edge(p, DrainMove(c)(p, e)) {
      StepEdge(c, p, e);
    }
  }

  lemma RunWalk(move: Mover, p: Phase, envs: seq<Env>)
    requires Follows(move)
    ensures Walk(Run(move, p, envs))
  {
  }

  /** Phases never go backwards along a walk. */
  lemma WalkMonotone(ps: seq<Phase>)
    requires Walk(ps)
    ensures forall i, j :: 0 <= i <= j < |ps| ==> Rank(ps[i]) <= Rank(ps[j])
  {
    forall i, j | 0 <= i <= j < |ps| ensures Rank(ps[i]) <= Rank(ps[j]) {
      MonotoneFrom(ps, i, j);
    }
  }

  lemma {:induction false} MonotoneFrom(ps: seq<Phase>, i: nat, j: nat)
    requires Walk(ps) && i <= j < |ps|
    ensures Rank(ps[i]) <= Rank(ps[j])
    decreases j - i
  {
    if i < j {
      MonotoneFrom(ps, i + 1, j);
      SuccessorRank(ps[i], ps[i + 1]);
    }
  }

  lemma SuccessorRank(p: Phase, q: Phase)
    requires Edge(p, q)
    ensures Rank(p) <= Rank(q)
  {
  }

  /** A walk that starts below a rank and ends at or past it crosses it in one move. */
  lemma {:induction false} Crossing(ps: seq<Phase>, t: nat) returns (i: nat)
    requires |ps| > 0 && Rank(ps[0]) < t <= Rank(ps[|ps| - 1])
    ensures i < |ps| - 1 && Rank(ps[i]) < t <= Rank(ps[i + 1])
    decreases |ps|
  {
    if t <= Rank(ps[1]) {
      i := 0;
    } else {
      var j := Crossing(ps[1..], t);
      i := j + 1;
    }
  }

  /** Once at the recheck, a walk stays there or stops. */
  lemma {:induction false} RecheckStays(ps: seq<Phase>, i: nat, j: nat)
    requires Walk(ps) && i <= j < |ps| && ps[i] == Recheck
    ensures ps[j] == Recheck || ps[j] == Done
    decreases j - i
  {
    if i < j {
      RecheckStays(ps, i, j - 1);
      assert Edge(ps[j - 1], ps[j]);
    }
  }

  /** Along any run of the drain, phases never go backwards. */
  lemma RunMonotone(c: Config, p: Phase, envs: seq<Env>)
    ensures var ps := Run(DrainMove(c), p, envs);
      forall i, j :: 0 <= i <= j < |ps| ==> Rank(ps[i]) <= Rank(ps[j])
  {
    DrainFollows(c);
    RunWalk(DrainMove(c), p, envs);
    WalkMonotone(Run(DrainMove(c), p, envs));
  }

  /** A recluster round moves on to the guard only when `recluster:` succeeded on every node. */
  lemma ReclusterAdvance(c: Config, e: Env)
    requires Step(c, Recluster, e).next == Guard
    ensures forall k :: 0 <= k < |e.nodes| ==> e.ask(Request(e.nodes[k], ReclusterCommand)).Answer?
  {
    ReclusterScanSpec(e.nodes, e.ask);
  }

  /** A cluster-stable round moves on only when every node answered that the cluster is stable. */
  lemma StableAdvance(c: Config, e: Env)
    requires Step(c, ClusterStable, e).next == QuiesceSelf
    ensures forall k :: 0 <= k < |e.nodes| ==> Stable(e.ask(Request(e.nodes[k], StableCommand)))
  {
    StableScanSpec(e.nodes, e.ask);
  }

  /**
   * The guard is reached only through a recluster round in which `recluster:` succeeded
   * on every node of that round's list.
   */
  lemma ReclusterBeforeGuard(c: Config, p: Phase, envs: seq<Env>) returns (i: nat)
    requires Rank(p) < Rank(Guard) <= Rank(Run(DrainMove(c), p, envs)[|envs|])
    ensures i < |envs|
    ensures Run(DrainMove(c), p, envs)[i] == Recluster && Run(DrainMove(c), p, envs)[i + 1] == Guard
    ensures forall k :: 0 <= k < |envs[i].nodes| ==>
      envs[i].ask(Request(envs[i].nodes[k], ReclusterCommand)).Answer?
  {
    var ps := Run(DrainMove(c), p, envs);
    DrainFollows(c);
    RunWalk(DrainMove(c), p, envs);
    i := Crossing(ps, Rank(Guard));
    EnterGuard(ps[i], ps[i + 1]);
    assert ps[i + 1] == DrainMove(c)(ps[i], envs[i]);
    ReclusterAdvance(c, envs[i]);
  }

  /** The only edge into the guard's rank comes from the recluster phase. */
  lemma EnterGuard(p: Phase, q: Phase)
    requires Edge(p, q) && Rank(p) < Rank(Guard) <= Rank(q)
    ensures p == Recluster && q == Guard
  {
  }

  /**
   * Quiescing starts only after a cluster-stable round in which every node of that
   * round's list answered that the cluster is stable.
   */
  lemma StableBeforeQuiesce(c: Config, envs: seq<Env>) returns (i: nat)
    requires Rank(QuiesceSelf) <= Rank(Run(DrainMove(c), ClusterStable, envs)[|envs|])
    ensures i < |envs|
    ensures Run(DrainMove(c), ClusterStable, envs)[i] == ClusterStable
    ensures Run(DrainMove(c), ClusterStable, envs)[i + 1] == QuiesceSelf
    ensures forall k :: 0 <= k < |envs[i].nodes| ==>
      Stable(envs[i].ask(Request(envs[i].nodes[k], StableCommand)))
  {
    var ps := Run(DrainMove(c), ClusterStable, envs);
    DrainFollows(c);
    RunWalk(DrainMove(c), ClusterStable, envs);
    i := Crossing(ps, Rank(QuiesceSelf));
    assert Edge(ps[i], ps[i + 1]);
    assert ps[i + 1] == DrainMove(c)(ps[i], envs[i]);
    StableAdvance(c, envs[i]);
  }

  /** What round `i` of a drain run sends. */
  function Issued(c: Config, p: Phase, envs: seq<Env>, i: nat): seq<Request>
    requires i < |envs|
  {
    Step(c, Run(DrainMove(c), p, envs)[i], envs[i]).issued
  }

  /** The commands the guard and every later phase send are neither `quiesce:` nor `recluster:`. */
  lemma LateAllowed(c: Config, p: Phase, q: Request)
    requires Rank(Guard) <= Rank(p) && Allowed(c, p, q)
    ensures q.command != QuiesceCommand && q.command != ReclusterCommand
  {
    if HasPrefix(q.command, "namespace/") {
      assert q.command[..10] == "namespace/";
      assert QuiesceCommand[0] != 'n' && ReclusterCommand[0] != 'n';
    }
  }

  /** From the guard on, no round sends `quiesce:` or `recluster:` again. */
  lemma NoQuiesceAfterGuard(c: Config, p: Phase, envs: seq<Env>, i: nat)
    requires i < |envs| && Rank(Guard) <= Rank(Run(DrainMove(c), p, envs)[i])
    ensures forall j, q :: i <= j < |envs| && q in Issued(c, p, envs, j) ==>
      q.command != QuiesceCommand && q.command != ReclusterCommand
  {
    var ps := Run(DrainMove(c), p, envs);
    RunMonotone(c, p, envs);
    forall j, q | i <= j < |envs| && q in Issued(c, p, envs, j)
      ensures q.command != QuiesceCommand && q.command != ReclusterCommand
    {
      StepAllowed(c, ps[j], envs[j]);
      LateAllowed(c, ps[j], q);
    }
  }

  /**
   * Once the guard has found every node still quiescing, the drain only rechecks cluster
   * stability and stops: no effective-quiesce, throughput or proxy round follows, and
   * every request sent is the cluster-stable command.
   */
  lemma ShortCircuit(c: Config, p: Phase, envs: seq<Env>, i: nat)
    requires i < |envs| && Run(DrainMove(c), p, envs)[i] == Recheck
    ensures forall j :: i <= j <= |envs| ==>
      Run(DrainMove(c), p, envs)[j] == Recheck || Run(DrainMove(c), p, envs)[j] == Done
    ensures forall j, q :: i <= j < |envs| && q in Issued(c, p, envs, j) ==> q.command == StableCommand
  {
    var ps := Run(DrainMove(c), p, envs);
    DrainFollows(c);
    RunWalk(DrainMove(c), p, envs);
    forall j | i <= j <= |envs| ensures ps[j] == Recheck || ps[j] == Done {
      RecheckStays(ps, i, j);
    }
    forall j | i <= j < |envs| ensures forall q :: q in Issued(c, p, envs, j) ==> q.command == StableCommand {
      RecheckStays(ps, i, j);
      RecheckSends(c, ps[j], envs[j]);
    }
  }

  /** The recheck sends only the cluster-stable command, and a finished drain sends nothing. */
  lemma RecheckSends(c: Config, p: Phase, e: Env)
    requires p == Recheck || p == Done
    ensures forall q :: q in Step(c, p, e).issued ==> q.command == StableCommand
    ensures p == Done ==> Step(c, p, e) == Transition(Done, [])
  {
    StepAllowed(c, p, e);
  }

  /** The guard leads to the recheck exactly when every node answered and none cleared the flag. */
  lemma GuardToRecheck(c: Config, e: Env)
    ensures Step(c, Guard, e).next == Recheck <==>
      forall k :: 0 <= k < |e.nodes| ==> GuardAnswered(e.ask, e.nodes[k]) && !ClearsFlag(e.ask, e.nodes[k])
  {
    GuardStep(c, e);
    GuardFinishes(e.nodes, e.ask);
  }

  /** The guard moves to the recheck exactly on a `Finish` verdict. */
  lemma GuardStep(c: Config, e: Env)
    ensures Step(c, Guard, e).next == Recheck <==> GuardScan(e.nodes, e.ask).verdict == Finish
  {
    assert PhaseRound(c, Guard, e).round == GuardScan(e.nodes, e.ask);
  }
}
