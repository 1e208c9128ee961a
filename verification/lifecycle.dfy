/**
 * The bounded operations of `aku-adm` and the dispatch between them: the liveness
 * probe (three attempts at `build` over one reused connection), the post-start user
 * creation (three `CreateUser` calls at most) and the community pre-stop, which is
 * the cluster-stable loop alone.  Connection attempts, info requests and `CreateUser`
 * are oracles indexed by how many calls of that kind came before.
 */
module Lifecycle {
  import opened Drain
  import opened DrainTrace

  /** Both bounded loops make at most this many attempts. */
  const Attempts: nat := 3

  // ---- liveness ----

  /** What the liveness probe did: whether `build` answered, and how many calls of each kind. */
  datatype Probe = Probe(ok: bool, connects: nat, requests: nat)

  /**
   * `performLivenessProbeOp`.  Each attempt first connects if there is no connection yet;
   * a failed connect uses up the attempt, and a connection once made is kept.  The probe
   * succeeds exactly when some connect and some later request both succeed within three
   * attempts, counting the attempt that connects as the first of the requests.
   */
  method Liveness(connect: nat -> bool, request: nat -> bool) returns (r: Probe)
    ensures r.ok <==> exists c: nat, q: nat :: c + q < Attempts && connect(c) && request(q)
    ensures r.connects + r.requests <= Attempts + 1 && r.connects <= Attempts
    ensures r.requests > 0 ==> r.connects > 0 && connect(r.connects - 1)
    ensures forall k :: 0 <= k < r.connects - 1 ==> !connect(k)
    ensures forall k :: 0 <= k < r.requests - 1 ==> !request(k)
    ensures r.ok ==> r.requests > 0 && request(r.requests - 1)
  {
    var connected := false;
    var ok := false;
    var connects, requests := 0, 0;
    var i := 0;
    while i < Attempts && !ok
      invariant 0 <= i <= Attempts
      invariant connected <==> connects > 0 && connect(connects - 1)
      invariant i == (if connected then connects - 1 else connects) + requests
      invariant !connected ==> requests == 0
      invariant connected ==> requests > 0
      invariant forall k :: 0 <= k < (if connected then connects - 1 else connects) ==> !connect(k)
      invariant forall k :: 0 <= k < (if ok then requests - 1 else requests) ==> !request(k)
      invariant ok ==> requests > 0 && request(requests - 1) && connected
    {
      if !connected {
        connected := connect(connects);
        connects := connects + 1;
      }
      if connected {
        ok := request(requests);
        requests := requests + 1;
      }
      i := i + 1;
    }
    r := Probe(ok, connects, requests);
    if !ok {
      forall c: nat, q: nat | c + q < Attempts && connect(c) ensures !request(q) {
        assert connected;
      }
    }
  }

  // ---- post-start ----

  /** What `CreateUser` returned: success, or an error with its message. */
  datatype CreateReply = Created | CreateError(message: string)

  /** The error text on which post-start stops retrying. */
  const UserExists: string := "User already exists"

  /** A reply after which post-start stops. */
  predicate Settles(r: CreateReply) {
    r.Created? || r.message == UserExists
  }

  /**
   * `performPostStartOp`: `CreateUser` until it succeeds or reports that the user already
   * exists, at most three times.  Post-start never fails: after three errors it completes
   * anyway.  `calls` is the number of `CreateUser` calls made.
   */
  method PostStart(create: nat -> CreateReply) returns (calls: nat)
    ensures 1 <= calls <= Attempts
    ensures forall k :: 0 <= k < calls - 1 ==> !Settles(create(k))
    ensures calls < Attempts ==> Settles(create(calls - 1))
    ensures Settles(create(calls - 1)) <==> exists k :: 0 <= k < Attempts && Settles(create(k))
  {
    calls := 0;
    var settled := false;
    while calls < Attempts && !settled
      invariant 0 <= calls <= Attempts
      invariant settled ==> calls > 0 && Settles(create(calls - 1))
      invariant forall k :: 0 <= k < (if settled then calls - 1 else calls) ==> !Settles(create(k))
    {
      settled := Settles(create(calls));
      calls := calls + 1;
    }
  }

  // ---- dispatch ----

  datatype Credentials = Credentials(user: string, password: string)

  /** The settings `initVars` reads from the environment. */
  datatype Settings = Settings(securityEnabled: string, admin: Credentials, helm: Credentials)

  /** Which operation `performOperation` runs, with the credentials it logs in with. */
  datatype Action =
    | Skip
    | PostStartAs(creds: Credentials)
    | PreStopAs(creds: Credentials)
    | LivenessAs(creds: Credentials)
    | CommunityAs(creds: Credentials)
    | Unknown

  const PostStartOp: string := "post-start"
  const PreStopOp: string := "pre-stop"
  const LivenessOp: string := "liveness"
  const CommunityOp: string := "pre-stop-community"

  /** The operations `performOperation` knows. */
  predicate Known(op: string) {
    op == PostStartOp || op == PreStopOp || op == LivenessOp || op == CommunityOp
  }

  /**
   * `performOperation`'s switch.  Post-start runs only when security is enabled, as the
   * admin user; pre-stop logs in as the helm user it created; the liveness probe uses the
   * admin user; the community pre-stop logs in without credentials; anything else is fatal.
   */
  function Dispatch(op: string, s: Settings): (a: Action)
    ensures a.Unknown? <==> !Known(op)
    ensures a.Skip? <==> op == PostStartOp && s.securityEnabled != "true"
    ensures a.PostStartAs? ==> op == PostStartOp && s.securityEnabled == "true"
    ensures a.PreStopAs? <==> op == PreStopOp
    ensures a.LivenessAs? <==> op == LivenessOp
    ensures a.CommunityAs? <==> op == CommunityOp
  {
    if op == PostStartOp then (if s.securityEnabled != "true" then Skip else PostStartAs(s.admin))
    else if op == PreStopOp then PreStopAs(s.helm)
    else if op == LivenessOp then LivenessAs(s.admin)
    else if op == CommunityOp then CommunityAs(Credentials("", ""))
    else Unknown
  }

  /** The calls an operation may make to the node it runs on. */
  datatype World = World(connect: nat -> bool, request: nat -> bool, create: nat -> CreateReply)

  /** How an operation ends: completed, fatal, or handed to a drain loop. */
  datatype Outcome = Completed | Fatal | Draining(creds: Credentials, community: bool)

  /**
   * `performOperation` run to its end for the bounded operations.  Only an unknown
   * operation and a liveness probe that never got an answer are fatal; a post-start
   * completes whatever `CreateUser` says, and the two pre-stop drains are handed on.
   */
  method Perform(op: string, s: Settings, w: World) returns (o: Outcome)
    ensures o.Fatal? <==> (!Known(op) ||
      (op == LivenessOp && !exists c: nat, q: nat :: c + q < Attempts && w.connect(c) && w.request(q)))
    ensures o.Draining? <==> op == PreStopOp || op == CommunityOp
    ensures o.Draining? && !o.community ==> o.creds == s.helm
    ensures o.Draining? && o.community ==> o.creds == Credentials("", "")
  {
    match Dispatch(op, s)
    case Skip =>
      o := Completed;
    case PostStartAs(_) =>
      var _ := PostStart(w.create);
      o := Completed;
    case PreStopAs(creds) =>
      o := Draining(creds, false);
    case LivenessAs(_) =>
      var probe := Liveness(w.connect, w.request);
      o := if probe.ok then Completed else Fatal;
    case CommunityAs(creds) =>
      o := Draining(creds, true);
    case Unknown =>
      o := Fatal;
  }

  // ---- community pre-stop ----

  /** One round of `performPreStopOpCommunity`: the same cluster-stable scan. */
  function CommunityRound(e: Env): Round {
    StableScan(e.nodes, e.ask)
  }

  /**
   * The community round is the enterprise drain's first loop and its recheck: it sends
   * the same requests, and it finishes exactly when they move on.
   */
  lemma CommunityAgrees(c: Config, e: Env)
    ensures CommunityRound(e).issued == Step(c, ClusterStable, e).issued
    ensures CommunityRound(e).issued == Step(c, Recheck, e).issued
    ensures CommunityRound(e).verdict == Advance <==> Step(c, Recheck, e).next == Done
    ensures CommunityRound(e).verdict == Advance <==> Step(c, ClusterStable, e).next == QuiesceSelf
  {
    StableScanSpec(e.nodes, e.ask);
  }

  /**
   * A community round finishes exactly when every listed node answered that the cluster
   * is stable, and it sends only the cluster-stable command.
   */
  lemma CommunityRoundSpec(e: Env)
    ensures CommunityRound(e).verdict == Advance <==>
      forall k :: 0 <= k < |e.nodes| ==> Stable(e.ask(Request(e.nodes[k], StableCommand)))
    ensures forall q :: q in CommunityRound(e).issued ==> q.command == StableCommand
  {
    StableScanSpec(e.nodes, e.ask);
  }
}
