/**
 * The network facts the init container gathers for the Aerospike config: whether the
 * network policy uses the node's network, the node ports of the pod's service, the
 * node's internal and external addresses, and the IPs of custom interfaces.  The
 * Kubernetes lists and the pod's network-status annotation come in already decoded;
 * IP parsing is an oracle.
 */
module Network {
  import opened Wrappers
  import opened Strings
  import opened Seqs

  /** The operator's `AerospikeNetworkType` values the init container tells apart. */
  const NetworkPod: string := "pod"
  const NetworkCustomInterface: string := "customInterface"

  const ConfiguredAccessIPLabel: string := "aerospike.com/configured-access-address"
  const ConfiguredAlternateAccessIPLabel: string := "aerospike.com/configured-alternate-access-address"
  const NetworkStatusAnnotation: string := "k8s.v1.cni.cncf.io/network-status"

  /** The four access types of the cluster's network policy. */
  datatype AccessTypes = AccessTypes(access: string, tlsAccess: string, alternateAccess: string, tlsAlternateAccess: string)

  // ---- isNodeNetwork ----

  /**
   * `isNodeNetwork`: the set of `pod`, `customInterface` and the four access types has more
   * than two members, that is, some access type is neither of the two.
   */
  function IsNodeNetwork(t: AccessTypes): (r: bool)
    ensures r <==> NodeType(t.access) || NodeType(t.tlsAccess) || NodeType(t.alternateAccess) || NodeType(t.tlsAlternateAccess)
  {
    var types := {NetworkPod, NetworkCustomInterface, t.access, t.tlsAccess, t.alternateAccess, t.tlsAlternateAccess};
    TypesSize(t);
    |types| > 2
  }

  /** An access type served from the node's own network. */
  predicate NodeType(s: string) {
    s != NetworkPod && s != NetworkCustomInterface
  }

  lemma TypesSize(t: AccessTypes)
    ensures var types := {NetworkPod, NetworkCustomInterface, t.access, t.tlsAccess, t.alternateAccess, t.tlsAlternateAccess};
      |types| > 2 <==> NodeType(t.access) || NodeType(t.tlsAccess) || NodeType(t.alternateAccess) || NodeType(t.tlsAlternateAccess)
  {
    assert NetworkPod != NetworkCustomInterface by { assert |NetworkPod| != |NetworkCustomInterface|; }
    var base := {NetworkPod, NetworkCustomInterface};
    var types := base + {t.access, t.tlsAccess, t.alternateAccess, t.tlsAlternateAccess};
    assert |base| == 2 by { assert base == {NetworkPod} + {NetworkCustomInterface}; }
    if NodeType(t.access) || NodeType(t.tlsAccess) || NodeType(t.alternateAccess) || NodeType(t.tlsAlternateAccess) {
      var x := if NodeType(t.access) then t.access
        else if NodeType(t.tlsAccess) then t.tlsAccess
        else if NodeType(t.alternateAccess) then t.alternateAccess
        else t.tlsAlternateAccess;
      assert x !in base;
      assert base + {x} <= types;
      assert |base + {x}| == |base| + 1;
      SubsetSize(base + {x}, types);
    } else {
      assert types == base;
    }
  }

  lemma SubsetSize<T>(a: set<T>, b: set<T>)
    requires a <= b
    ensures |a| <= |b|
  {
    assert b == a + (b - a);
  }

  // ---- getPorts ----

  datatype ServicePort = ServicePort(name: string, nodePort: int)
  datatype Service = Service(name: string, ports: seq<ServicePort>)

  /** The info port and the TLS port `getPorts` reports. */
  datatype Ports = Ports(info: int, tls: int)

  /** The node port of the last port with this name, or 0 when there is none. */
  function LastNodePort(ports: seq<ServicePort>, name: string): int {
    if |ports| == 0 then 0
    else if ports[|ports| - 1].name == name then ports[|ports| - 1].nodePort
    else LastNodePort(ports[..|ports| - 1], name)
  }

  /** Whether a service carries this name. */
  function HasName(name: string): Service -> bool {
    (s: Service) => s.name == name
  }

  /**
   * The port loop of `getPorts`: every port named `service` or `tls-service` overwrites
   * the one seen before, so the last of each name wins, and a name not there gives 0.
   */
  method ScanPorts(ports: seq<ServicePort>) returns (r: Ports)
    ensures r.info == LastNodePort(ports, "service")
    ensures r.tls == LastNodePort(ports, "tls-service")
  {
    var info, tls := 0, 0;
    var i := 0;
    while i < |ports|
      invariant 0 <= i <= |ports|
      invariant info == LastNodePort(ports[..i], "service")
      invariant tls == LastNodePort(ports[..i], "tls-service")
    {
      assert ports[..i + 1][..i] == ports[..i];
      if ports[i].name == "service" {
        info := ports[i].nodePort;
      } else if ports[i].name == "tls-service" {
        tls := ports[i].nodePort;
      }
      i := i + 1;
    }
    assert ports[..i] == ports;
    r := Ports(info, tls);
  }

  /**
   * `getPorts` on the listed services: the ports of the first service named after the pod,
   * both 0 when there is none; a failed list is returned as the error.
   */
  method GetPorts(list: Result<seq<Service>>, podName: string) returns (r: Result<Ports>)
    ensures list.Failure? ==> r == Failure(list.error)
    ensures list.Success? && FindFirst(list.value, HasName(podName)).None? ==> r == Success(Ports(0, 0))
    ensures list.Success? && FindFirst(list.value, HasName(podName)).Some? ==>
      var s := list.value[FindFirst(list.value, HasName(podName)).value];
      r == Success(Ports(LastNodePort(s.ports, "service"), LastNodePort(s.ports, "tls-service")))
  {
    if list.Failure? {
      return Failure(list.error);
    }
    var services := list.value;
    var i := 0;
    while i < |services| && services[i].name != podName
      invariant 0 <= i <= |services|
      invariant forall j :: 0 <= j < i ==> services[j].name != podName
    {
      i := i + 1;
    }
    if i == |services| {
      return Success(Ports(0, 0));
    }
    var ports := ScanPorts(services[i].ports);
    r := Success(ports);
  }

  /** The node port `LastNodePort` reports is that of the last port with the name. */
  lemma {:induction false} LastIndex(ports: seq<ServicePort>, name: string) returns (i: nat)
    requires exists k :: 0 <= k < |ports| && ports[k].name == name
    ensures i < |ports| && ports[i].name == name && LastNodePort(ports, name) == ports[i].nodePort
    ensures forall j :: i < j < |ports| ==> ports[j].name != name
    decreases |ports|
  {
    var n := |ports| - 1;
    if ports[n].name == name {
      i := n;
    } else {
      var k :| 0 <= k < |ports| && ports[k].name == name;
      assert ports[..n][k] == ports[k];
      i := LastIndex(ports[..n], name);
      assert ports[i] == ports[..n][i];
    }
  }

  // ---- getHostIPS ----

  /** Kubernetes `NodeInternalIP` and `NodeExternalIP`. */
  const InternalIP: string := "InternalIP"
  const ExternalIP: string := "ExternalIP"

  datatype NodeAddress = NodeAddress(kind: string, address: string)
  datatype Node = Node(addresses: seq<NodeAddress>, labels: map<string, string>)

  /** The addresses `getHostIPS` reports: internal, external, configured access and alternate access. */
  datatype HostIPs = HostIPs(internal: string, external: string, access: string, alternateAccess: string)

  /** The last address of this kind that parses as IPv4, or "" when there is none. */
  function LastAddress(addrs: seq<NodeAddress>, kind: string, ipv4: string -> bool): string {
    if |addrs| == 0 then ""
    else
      var a := addrs[|addrs| - 1];
      if a.kind == kind && ipv4(a.address) then a.address
      else LastAddress(addrs[..|addrs| - 1], kind, ipv4)
  }

  /** A node one of whose addresses is the host IP. */
  predicate HasAddress(n: Node, hostIP: string) {
    exists k :: 0 <= k < |n.addresses| && n.addresses[k].address == hostIP
  }

  /** The first node having the host IP among its addresses. */
  function FindNode(nodes: seq<Node>, hostIP: string): (r: Option<nat>)
    ensures r.Some? ==> (r.value < |nodes| && HasAddress(nodes[r.value], hostIP)
      && forall j :: 0 <= j < r.value ==> !HasAddress(nodes[j], hostIP))
    ensures r.None? ==> forall j :: 0 <= j < |nodes| ==> !HasAddress(nodes[j], hostIP)
    decreases |nodes|
  {
    if |nodes| == 0 then None
    else if HasAddress(nodes[0], hostIP) then Some(0)
    else
      match FindNode(nodes[1..], hostIP)
      case None => None
      case Some(i) => Some(i + 1)
  }

  /** A label's value, or "" when the node does not have it. */
  function Label(n: Node, key: string): string {
    if key in n.labels then n.labels[key] else ""
  }

  /** What one node's address loop finds: whether the host IP is there, and the last IPv4 internal and external addresses. */
  datatype Scan = Scan(matched: bool, internal: string, external: string)

  method ScanAddresses(addrs: seq<NodeAddress>, hostIP: string, ipv4: string -> bool) returns (s: Scan)
    ensures s.matched <==> exists k :: 0 <= k < |addrs| && addrs[k].address == hostIP
    ensures s.internal == LastAddress(addrs, InternalIP, ipv4)
    ensures s.external == LastAddress(addrs, ExternalIP, ipv4)
  {
    var matched, internal, external := false, "", "";
    var i := 0;
    while i < |addrs|
      invariant 0 <= i <= |addrs|
      invariant matched <==> exists k :: 0 <= k < i && addrs[k].address == hostIP
      invariant internal == LastAddress(addrs[..i], InternalIP, ipv4)
      invariant external == LastAddress(addrs[..i], ExternalIP, ipv4)
    {
      assert addrs[..i + 1][..i] == addrs[..i];
      var add := addrs[i];
      if add.address == hostIP {
        matched := true;
      }
      if add.kind == InternalIP && ipv4(add.address) {
        internal := add.address;
      } else if add.kind == ExternalIP && ipv4(add.address) {
        external := add.address;
      }
      i := i + 1;
    }
    assert addrs[..i] == addrs;
    s := Scan(matched, internal, external);
  }

  /**
   * `getHostIPS`: both addresses default to the host IP and the configured ones to "".
   * The first node having the host IP among its addresses overrides them with its last
   * IPv4 internal and external addresses, where it has them, and with its configured-address
   * labels, where it has them.  A failed node list is returned as the error.
   */
  method GetHostIPs(list: Result<seq<Node>>, hostIP: string, ipv4: string -> bool) returns (r: Result<HostIPs>)
    ensures list.Failure? ==> r == Failure(list.error)
    ensures list.Success? && FindNode(list.value, hostIP).None? ==> r == Success(HostIPs(hostIP, hostIP, "", ""))
    ensures list.Success? && FindNode(list.value, hostIP).Some? ==>
      var n := list.value[FindNode(list.value, hostIP).value];
      var internal := LastAddress(n.addresses, InternalIP, ipv4);
      var external := LastAddress(n.addresses, ExternalIP, ipv4);
      r == Success(HostIPs(
        if internal != "" then internal else hostIP,
        if external != "" then external else hostIP,
        Label(n, ConfiguredAccessIPLabel),
        Label(n, ConfiguredAlternateAccessIPLabel)))
  {
    if list.Failure? {
      return Failure(list.error);
    }
    var nodes := list.value;
    var internal, external, access, alternate := hostIP, hostIP, "", "";
    var i := 0;
    while i < |nodes|
      invariant 0 <= i <= |nodes|
      invariant forall j :: 0 <= j < i ==> !HasAddress(nodes[j], hostIP)
    {
      var s := ScanAddresses(nodes[i].addresses, hostIP, ipv4);
      if s.matched {
        if s.internal != "" {
          internal := s.internal;
        }
        if s.external != "" {
          external := s.external;
        }
        if ConfiguredAccessIPLabel in nodes[i].labels {
          access := nodes[i].labels[ConfiguredAccessIPLabel];
        }
        if ConfiguredAlternateAccessIPLabel in nodes[i].labels {
          alternate := nodes[i].labels[ConfiguredAlternateAccessIPLabel];
        }
        FindNodeAt(nodes, hostIP, i);
        return Success(HostIPs(internal, external, access, alternate));
      }
      i := i + 1;
    }
    r := Success(HostIPs(internal, external, access, alternate));
  }

  lemma FindNodeAt(nodes: seq<Node>, hostIP: string, i: nat)
    requires i < |nodes| && HasAddress(nodes[i], hostIP)
    requires forall j :: 0 <= j < i ==> !HasAddress(nodes[j], hostIP)
    ensures FindNode(nodes, hostIP) == Some(i)
  {
  }

  // ---- parseCustomNetworkIP ----

  /** One entry of the pod's network-status annotation: a network's name and its IPs. */
  datatype NetworkStatus = NetworkStatus(name: string, ips: seq<string>)

  /** The IPs of the selected networks, in status order: the reference for what `parseCustomNetworkIP` collects. */
  function SelectedIPs(statuses: seq<NetworkStatus>, networks: seq<string>): seq<string> {
    if |statuses| == 0 then []
    else (if statuses[0].name in networks then statuses[0].ips else []) + SelectedIPs(statuses[1..], networks)
  }

  /** Some selected network lists no IP. */
  predicate SomeEmpty(statuses: seq<NetworkStatus>, networks: seq<string>) {
    exists k :: 0 <= k < |statuses| && statuses[k].name in networks && |statuses[k].ips| == 0
  }

  /**
   * The status loop: the IPs of the networks named in `networks`, in status order; the first
   * selected network with no IP stops it with an error.
   */
  method CollectIPs(statuses: seq<NetworkStatus>, networks: seq<string>) returns (r: Result<seq<string>>)
    ensures r.Success? <==> !SomeEmpty(statuses, networks)
    ensures r.Success? ==> r.value == SelectedIPs(statuses, networks)
    ensures r.Failure? ==> exists k :: (0 <= k < |statuses| && statuses[k].name in networks && |statuses[k].ips| == 0
      && r.error == "ips list empty for network " + statuses[k].name + " in pod annotations key " + NetworkStatusAnnotation)
  {
    var ips: seq<string> := [];
    var i := 0;
    while i < |statuses|
      invariant 0 <= i <= |statuses|
      invariant !SomeEmpty(statuses[..i], networks)
      invariant SelectedIPs(statuses, networks) == ips + SelectedIPs(statuses[i..], networks)
    {
      var st := statuses[i];
      assert statuses[i..][1..] == statuses[i + 1..];
      if st.name in networks {
        if |st.ips| == 0 {
          return Failure("ips list empty for network " + st.name + " in pod annotations key " + NetworkStatusAnnotation);
        }
        ips := ips + st.ips;
      }
      assert !SomeEmpty(statuses[..i + 1], networks) by {
        assert forall k :: 0 <= k < i ==> statuses[..i + 1][k] == statuses[..i][k];
      }
      i := i + 1;
    }
    assert statuses[..i] == statuses;
    r := Success(ips);
  }

  /** The text Go's `%+v` gives a list of strings. */
  function ListText(networks: seq<string>): string {
    "[" + Join(networks, ' ') + "]"
  }

  /**
   * `parseCustomNetworkIP` after the annotation has been decoded (`decode` stands for the
   * JSON unmarshal).  Networks of any other type have no custom IPs and no error; otherwise
   * the annotation must be there and decode, no selected network may be without IPs, and
   * at least one IP must be found.
   */
  method ParseCustomNetworkIP(networkType: string, annotations: map<string, string>, networks: seq<string>,
                              decode: string -> Result<seq<NetworkStatus>>) returns (r: Result<seq<string>>)
    ensures networkType != NetworkCustomInterface ==> r == Success([])
    ensures networkType == NetworkCustomInterface && NetworkStatusAnnotation !in annotations ==> r.Failure?
    ensures r.Success? && networkType == NetworkCustomInterface ==>
      NetworkStatusAnnotation in annotations && decode(annotations[NetworkStatusAnnotation]).Success?
      && var statuses := decode(annotations[NetworkStatusAnnotation]).value;
      !SomeEmpty(statuses, networks) && r.value == SelectedIPs(statuses, networks) && |r.value| > 0
    ensures (networkType == NetworkCustomInterface && NetworkStatusAnnotation in annotations
      && decode(annotations[NetworkStatusAnnotation]).Success?) ==>
      var statuses := decode(annotations[NetworkStatusAnnotation]).value;
      (r.Success? <==> !SomeEmpty(statuses, networks) && |SelectedIPs(statuses, networks)| > 0)
  {
    if networkType != NetworkCustomInterface {
      return Success([]);
    }
    if NetworkStatusAnnotation !in annotations {
      return Failure("required pod network status annotation key " + NetworkStatusAnnotation + " is missing");
    }
    var decoded := decode(annotations[NetworkStatusAnnotation]);
    if decoded.Failure? {
      return Failure(NetworkStatusAnnotation + " json unmarshal failed, error: " + decoded.error);
    }
    var ips := CollectIPs(decoded.value, networks);
    if ips.Failure? {
      return ips;
    }
    if |ips.value| == 0 {
      return Failure("networks " + ListText(networks) + " not found in pod annotations key " + NetworkStatusAnnotation);
    }
    r := ips;
  }

  /** Every collected IP belongs to a selected network, and every IP of a selected network is collected. */
  lemma {:induction false} SelectedIPsSpec(statuses: seq<NetworkStatus>, networks: seq<string>, ip: string)
    ensures ip in SelectedIPs(statuses, networks) <==>
      exists k :: 0 <= k < |statuses| && statuses[k].name in networks && ip in statuses[k].ips
    decreases |statuses|
  {
    if |statuses| > 0 {
      SelectedIPsSpec(statuses[1..], networks, ip);
      assert forall k :: 0 <= k < |statuses| - 1 ==> statuses[1..][k] == statuses[k + 1];
      if exists k :: 0 <= k < |statuses| && statuses[k].name in networks && ip in statuses[k].ips {
        var k :| 0 <= k < |statuses| && statuses[k].name in networks && ip in statuses[k].ips;
        if k > 0 {
          assert statuses[1..][k - 1] == statuses[k];
        }
      }
    }
  }

  /** With no selected network without IPs, some IP is found exactly when some selected network is in the status. */
  lemma {:induction false} SelectedIPsEmpty(statuses: seq<NetworkStatus>, networks: seq<string>)
    requires !SomeEmpty(statuses, networks)
    ensures |SelectedIPs(statuses, networks)| == 0 <==> forall k :: 0 <= k < |statuses| ==> statuses[k].name !in networks
    decreases |statuses|
  {
    if |statuses| > 0 {
      assert forall k :: 0 <= k < |statuses| - 1 ==> statuses[1..][k] == statuses[k + 1];
      assert !SomeEmpty(statuses[1..], networks);
      SelectedIPsEmpty(statuses[1..], networks);
    }
  }
}
