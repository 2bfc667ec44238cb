/** `FlowManager` from the flow module: the `active_flows` index of installed
    rules, `add_flow_queue`, which expands a host-to-host requirement into
    forward and reverse rules along a path, and `remove_flow_queue`. */
module Flows {
  import opened Wrappers
  import opened Mininet
  import opened FlowLookup
  import opened FlowPath
  import opened FlowRequest

  /** The 7-tuple key of `active_flows`:
      (service_key, src_ip, dst_ip, dst_port, protocol, dpid, in_port). */
  datatype FlowKey = FlowKey(
    serviceKey: string, srcIp: string, dstIp: string, dstPort: Option<int>,
    protocol: int, dpid: Dpid, inPort: Port)

  type FlowIndex = map<FlowKey, FlowParams>

  /** The key a rule is stored under. */
  function KeyOf(f: FlowParams): FlowKey {
    FlowKey(f.serviceKey, f.srcIp, f.dstIp, f.dstPort, f.protocol, f.dpid, f.inPort)
  }

  /** The reverse rule's key names the flow's source port and the forward
      rule's output port: (service_key, dst_ip, src_ip, src_port, protocol, dpid, out_port). */
  lemma ReverseKey(f: FlowParams)
    ensures KeyOf(Reverse(f)) == FlowKey(f.serviceKey, f.dstIp, f.srcIp, f.srcPort, f.protocol, f.dpid, f.outPort)
  {
  }

  /** Every rule sits under its own key and has a datapath id the request
      builder accepts. */
  ghost predicate IndexConsistent(m: FlowIndex) {
    forall k :: k in m ==> KeyOf(m[k]) == k && ValidDpid(m[k].dpid)
  }

  /** `active_flows[key(f)] = f` for each rule in turn. */
  function StoreAll(m: FlowIndex, recs: seq<FlowParams>): (r: FlowIndex)
    ensures forall k :: k in r <==> k in m || exists j :: 0 <= j < |recs| && KeyOf(recs[j]) == k
    ensures forall k :: k in m && (forall j :: 0 <= j < |recs| ==> KeyOf(recs[j]) != k) ==> r[k] == m[k]
  {
    if recs == [] then m
    else
      var prev := StoreAll(m, recs[..|recs| - 1]);
      assert forall j :: 0 <= j < |recs| - 1 ==> recs[..|recs| - 1][j] == recs[j];
      prev[KeyOf(recs[|recs| - 1]) := recs[|recs| - 1]]
  }

  /** Every rule stored is stored under its key. */
  lemma StoreAllKeys(m: FlowIndex, recs: seq<FlowParams>)
    ensures forall x :: 0 <= x < |recs| ==> KeyOf(recs[x]) in StoreAll(m, recs)
  {
    forall x | 0 <= x < |recs| ensures KeyOf(recs[x]) in StoreAll(m, recs) {
      assert KeyOf(recs[x]) == KeyOf(recs[x]);
    }
  }

  /** Storing one more rule of a sequence. */
  lemma StoreAllSnoc(m: FlowIndex, recs: seq<FlowParams>, n: nat)
    requires n < |recs|
    ensures StoreAll(m, recs[..n + 1]) == StoreAll(m, recs[..n])[KeyOf(recs[n]) := recs[n]]
  {
    assert recs[..n + 1][..n] == recs[..n];
  }

  predicate DistinctKeys(recs: seq<FlowParams>) {
    forall i, j :: 0 <= i < j < |recs| ==> KeyOf(recs[i]) != KeyOf(recs[j])
  }

  /** When no two rules share a key, every rule written is in the index afterwards. */
  lemma {:induction false} StoreAllDistinct(m: FlowIndex, recs: seq<FlowParams>)
    requires DistinctKeys(recs)
    ensures forall j :: 0 <= j < |recs| ==> KeyOf(recs[j]) in StoreAll(m, recs) && StoreAll(m, recs)[KeyOf(recs[j])] == recs[j]
  {
    if recs != [] {
      var init := recs[..|recs| - 1];
      assert forall j :: 0 <= j < |init| ==> init[j] == recs[j];
      StoreAllDistinct(m, init);
    }
  }

  /** A communication requirement as `add_flow_queue` receives it, with the two
      hosts' addresses already looked up. */
  datatype Demand = Demand(
    serviceKey: string, srcIp: string, dstIp: string, protocol: int,
    srcPort: Option<int>, dstPort: Option<int>)

  const SameSwitchPriority := 200
  const MultiHopPriority := 100

  /** The forward `flow_params` of a requirement on one switch. */
  function Rule(d: Demand, dpid: Dpid, inPort: Port, outPort: Port, priority: int): FlowParams {
    FlowParams("add", dpid, d.srcIp, d.dstIp, d.protocol, d.srcPort, d.dstPort, inPort, outPort, priority, d.serviceKey)
  }

  /** Both hosts on one switch: a forward and a reverse rule at priority 200. */
  function SameSwitchRecords(d: Demand, dpid: Dpid, inPort: Port, outPort: Port): seq<FlowParams> {
    var f := Rule(d, dpid, inPort, outPort, SameSwitchPriority);
    [f, Reverse(f)]
  }

  /** Every name on the path is a registered switch. */
  ghost predicate OnSwitches(net: Network, path: seq<string>) {
    forall i :: 0 <= i < |path| ==> path[i] in net.nameToNode && net.nameToNode[path[i]].Switch?
  }

  /** The forward rule at hop `i`: it enters by the source host's port at the
      first switch and by the port facing the previous switch elsewhere, and
      leaves by the destination host's port at the last switch and by the port
      facing the next switch elsewhere. */
  function HopRecord(net: Network, path: seq<string>, i: nat, d: Demand, inPort: Port, outPort: Port): (f: FlowParams)
    requires OnSwitches(net, path) && |path| >= 2 && i < |path|
    ensures f.action == "add" && f.priority == MultiHopPriority
    ensures f.dpid == net.nameToNode[path[i]].dpid
    ensures f.srcIp == d.srcIp && f.dstIp == d.dstIp && f.protocol == d.protocol
    ensures f.srcPort == d.srcPort && f.dstPort == d.dstPort && f.serviceKey == d.serviceKey
    ensures i == 0 ==> f.inPort == inPort
    ensures i == |path| - 1 ==> f.outPort == outPort
  {
    var sw := net.nameToNode[path[i]];
    var inP := if i == 0 then inPort else GetPort(net.links, sw, net.nameToNode[path[i - 1]]);
    var outP := if i == |path| - 1 then outPort else GetPort(net.links, sw, net.nameToNode[path[i + 1]]);
    Rule(d, sw.dpid, inP, outP, MultiHopPriority)
  }

  /** Each forward rule followed by its reverse, in order. */
  function Paired(fs: seq<FlowParams>): (r: seq<FlowParams>)
    ensures |r| == 2 * |fs|
    ensures forall x :: 0 <= x < |r| ==> r[x].dpid in DpidsOf(fs)
  {
    if fs == [] then []
    else Paired(fs[..|fs| - 1]) + [fs[|fs| - 1], Reverse(fs[|fs| - 1])]
  }

  /** The datapaths a list of rules installs on. */
  function DpidsOf(fs: seq<FlowParams>): set<Dpid> {
    set f | f in fs :: f.dpid
  }

  /** The forward rules of all hops along the path. */
  function Forwards(net: Network, path: seq<string>, d: Demand, inPort: Port, outPort: Port): seq<FlowParams>
    requires OnSwitches(net, path) && |path| >= 2
  {
    seq(|path|, i requires 0 <= i < |path| => HopRecord(net, path, i, d, inPort, outPort))
  }

  /** The rules of a multi-hop requirement, in the order they are written. */
  function Hops(net: Network, path: seq<string>, d: Demand, inPort: Port, outPort: Port): seq<FlowParams>
    requires OnSwitches(net, path) && |path| >= 2
  {
    Paired(Forwards(net, path, d, inPort, outPort))
  }

  /** A walk in the switch graph names registered switches only. */
  lemma PathOnSwitches(net: Network, path: seq<string>)
    requires WellFormed(net) && IsWalk(SwitchEdges(net.links), path)
    ensures OnSwitches(net, path)
  {
    var edges := SwitchEdges(net.links);
    WalkInNodes(edges, path);
    forall i | 0 <= i < |path| ensures path[i] in net.nameToNode && net.nameToNode[path[i]].Switch? {
      var v := path[i];
      if v in (set e | e in edges :: e.0) {
        var e :| e in edges && e.0 == v;
        var l :| 0 <= l < |net.links| && SwitchToSwitch(net.links[l])
                 && e == (net.links[l].node1.name, net.links[l].node2.name);
        assert Registered(net, net.links[l].node1);
      } else {
        var e :| e in edges && e.1 == v;
        var l :| 0 <= l < |net.links| && SwitchToSwitch(net.links[l])
                 && e == (net.links[l].node1.name, net.links[l].node2.name);
        assert Registered(net, net.links[l].node2);
      }
    }
  }

  /** Pairing puts each forward rule at an even position and its reverse
      right after it. */
  lemma {:induction false} PairedShape(fs: seq<FlowParams>)
    ensures forall i :: 0 <= i < |fs| ==> Paired(fs)[2 * i] == fs[i] && Paired(fs)[2 * i + 1] == Reverse(fs[i])
  {
    if fs != [] {
      var init := fs[..|fs| - 1];
      PairedShape(init);
      var r := Paired(fs);
      assert r == Paired(init) + [fs[|fs| - 1], Reverse(fs[|fs| - 1])];
      forall i | 0 <= i < |fs| ensures r[2 * i] == fs[i] && r[2 * i + 1] == Reverse(fs[i]) {
        if i < |init| {
          assert r[2 * i] == Paired(init)[2 * i] && r[2 * i + 1] == Paired(init)[2 * i + 1];
          assert init[i] == fs[i];
        } else {
          assert 2 * i == |Paired(init)|;
        }
      }
    }
  }

  /** The shape of a multi-hop expansion: two rules per switch on the path, the
      forward rule of hop `i` at position `2 * i` and its reverse right after it. */
  lemma HopsShape(net: Network, path: seq<string>, d: Demand, inPort: Port, outPort: Port)
    requires OnSwitches(net, path) && |path| >= 2
    ensures |Hops(net, path, d, inPort, outPort)| == 2 * |path|
    ensures forall i :: 0 <= i < |path| ==>
              && Hops(net, path, d, inPort, outPort)[2 * i] == HopRecord(net, path, i, d, inPort, outPort)
              && Hops(net, path, d, inPort, outPort)[2 * i + 1] == Reverse(HopRecord(net, path, i, d, inPort, outPort))
  {
    PairedShape(Forwards(net, path, d, inPort, outPort));
  }

  /** The port chaining along the path: the port the forward rule at hop `i`
      sends out of and the port the forward rule at hop `i + 1` accepts from
      are the two ends of one link joining the two switches, and both exist. */
  lemma HopsChain(net: Network, path: seq<string>, i: nat, d: Demand, inPort: Port, outPort: Port)
    requires WellFormed(net) && IsWalk(SwitchEdges(net.links), path) && |path| >= 2
    requires i + 1 < |path|
    ensures OnSwitches(net, path)
    ensures var a, b := net.nameToNode[path[i]], net.nameToNode[path[i + 1]];
            exists l :: 0 <= l < |net.links| && Joins(net.links[l], a, b)
              && HopRecord(net, path, i, d, inPort, outPort).outPort == Some(PortOn(net.links[l], a, b))
              && HopRecord(net, path, i + 1, d, inPort, outPort).inPort == Some(PortOn(net.links[l], b, a))
  {
    PathOnSwitches(net, path);
    var edges := SwitchEdges(net.links);
    var a, b := net.nameToNode[path[i]], net.nameToNode[path[i + 1]];
    assert Adjacent(edges, path[i], path[i + 1]);
    var e := if (path[i], path[i + 1]) in edges then (path[i], path[i + 1]) else (path[i + 1], path[i]);
    var l :| 0 <= l < |net.links| && SwitchToSwitch(net.links[l])
             && e == (net.links[l].node1.name, net.links[l].node2.name);
    assert Registered(net, net.links[l].node1) && Registered(net, net.links[l].node2);
    assert Joins(net.links[l], a, b);
    PortsFaceEachOther(net.links, a, b);
    assert HopRecord(net, path, i, d, inPort, outPort).outPort == GetPort(net.links, a, b);
    assert HopRecord(net, path, i + 1, d, inPort, outPort).inPort == GetPort(net.links, b, a);
  }

  /** Pairing forward rules that each join two distinct addresses and sit on
      pairwise distinct datapaths yields rules with pairwise distinct keys. */
  lemma {:induction false} PairedDistinctKeys(fs: seq<FlowParams>)
    requires forall i :: 0 <= i < |fs| ==> fs[i].srcIp != fs[i].dstIp
    requires forall i, j :: 0 <= i < j < |fs| ==> fs[i].dpid != fs[j].dpid
    ensures DistinctKeys(Paired(fs))
  {
    if fs != [] {
      var init, last := fs[..|fs| - 1], fs[|fs| - 1];
      assert forall i :: 0 <= i < |init| ==> init[i] == fs[i];
      PairedDistinctKeys(init);
      var prev, recs := Paired(init), Paired(fs);
      assert recs == prev + [last, Reverse(last)];
      assert last.dpid !in DpidsOf(init);
      forall x, y | 0 <= x < y < |recs| ensures KeyOf(recs[x]) != KeyOf(recs[y]) {
        if y < |prev| {
          assert recs[x] == prev[x] && recs[y] == prev[y];
        } else if x < |prev| {
          assert recs[x] == prev[x];
          assert recs[x].dpid in DpidsOf(init);
        }
      }
    }
  }

  /** Rules for a requirement between two distinct addresses, on a path whose
      switches have pairwise distinct datapath ids, never share a key. */
  lemma HopsDistinctKeys(net: Network, path: seq<string>, d: Demand, inPort: Port, outPort: Port)
    requires OnSwitches(net, path) && |path| >= 2
    requires d.srcIp != d.dstIp
    requires forall i, j :: 0 <= i < j < |path| ==> net.nameToNode[path[i]].dpid != net.nameToNode[path[j]].dpid
    ensures DistinctKeys(Hops(net, path, d, inPort, outPort))
  {
    var fs := Forwards(net, path, d, inPort, outPort);
    assert forall i :: 0 <= i < |fs| ==> fs[i] == HopRecord(net, path, i, d, inPort, outPort);
    PairedDistinctKeys(fs);
  }

  /** The result of `add_flow_queue`: the rules written, in order, or the
      exception the source raises before writing anything (`KeyError` when
      `net.get` does not know a host's name, `AttributeError` when a host has
      no switch, `TypeError` when `get_path` gave `None`). */
  datatype AddOutcome = Installed(records: seq<FlowParams>) | HostUnknown | HostNotAttached | PathNotFound

  /** Which outcome `add_flow_queue` reaches for a requirement between two hosts. */
  ghost predicate AddOutcomeFor(net: Network, d: Demand, srcHost: Node, dstHost: Node, outcome: AddOutcome) {
    if srcHost.name !in net.nameToNode || dstHost.name !in net.nameToNode then outcome == HostUnknown
    else
      var sw1, sw2 := GetSwitchForHost(net, srcHost.name), GetSwitchForHost(net, dstHost.name);
      if sw1.None? || sw2.None? then outcome == HostNotAttached
      else
        var inPort, outPort := GetPort(net.links, sw1.value, srcHost), GetPort(net.links, sw2.value, dstHost);
        if sw1.value.name == sw2.value.name then
          outcome == Installed(SameSwitchRecords(d, sw1.value.dpid, inPort, outPort))
        else if outcome.PathNotFound? then
          forall q :: !IsWalkFromTo(SwitchEdges(net.links), q, sw1.value.name, sw2.value.name)
        else
          exists p :: IsShortestPath(SwitchEdges(net.links), p, sw1.value.name, sw2.value.name)
            && |p| >= 2 && OnSwitches(net, p) && outcome == Installed(Hops(net, p, d, inPort, outPort))
  }

  /** The multi-switch branch of `add_flow_queue` follows a shortest path
      that `get_path` returned. */
  lemma MultiHopOutcome(net: Network, d: Demand, srcHost: Node, dstHost: Node, p: seq<string>)
    requires WellFormed(net) && srcHost.name in net.nameToNode && dstHost.name in net.nameToNode
    requires GetSwitchForHost(net, srcHost.name).Some? && GetSwitchForHost(net, dstHost.name).Some?
    requires GetSwitchForHost(net, srcHost.name).value.name != GetSwitchForHost(net, dstHost.name).value.name
    requires IsShortestPath(SwitchEdges(net.links), p, GetSwitchForHost(net, srcHost.name).value.name,
                            GetSwitchForHost(net, dstHost.name).value.name)
    ensures |p| >= 2 && OnSwitches(net, p)
    ensures AddOutcomeFor(net, d, srcHost, dstHost,
              Installed(Hops(net, p, d, GetPort(net.links, GetSwitchForHost(net, srcHost.name).value, srcHost),
                                        GetPort(net.links, GetSwitchForHost(net, dstHost.name).value, dstHost))))
  {
    PathOnSwitches(net, p);
    assert p[0] != p[|p| - 1];
  }

  /** Switches with different names have different datapath ids. */
  ghost predicate DistinctDpids(net: Network) {
    forall a, b ::
      (a in net.nameToNode && b in net.nameToNode && a != b
       && net.nameToNode[a].Switch? && net.nameToNode[b].Switch?) ==> net.nameToNode[a].dpid != net.nameToNode[b].dpid
  }

  /** The multi-hop case of the mirror relation. */
  lemma MultiHopKeysDistinct(net: Network, p: seq<string>, src: string, dst: string, d: Demand, inPort: Port, outPort: Port)
    requires IsShortestPath(SwitchEdges(net.links), p, src, dst) && |p| >= 2 && OnSwitches(net, p)
    requires d.srcIp != d.dstIp && DistinctDpids(net)
    ensures DistinctKeys(Hops(net, p, d, inPort, outPort))
  {
    forall i, j | 0 <= i < j < |p| ensures net.nameToNode[p[i]].dpid != net.nameToNode[p[j]].dpid {
      ShortestPathSimple(SwitchEdges(net.links), p, src, dst, i, j);
    }
    HopsDistinctKeys(net, p, d, inPort, outPort);
  }

  /** When the two hosts have distinct addresses and distinct switches have
      distinct datapath ids, no rule written overwrites another, so each rule
      written is in the index afterwards; with `InstalledDirections`, both
      directions of every hop are installed. */
  lemma InstalledRulesPresent(net: Network, d: Demand, srcHost: Node, dstHost: Node, recs: seq<FlowParams>, m: FlowIndex)
    requires AddOutcomeFor(net, d, srcHost, dstHost, Installed(recs))
    requires d.srcIp != d.dstIp && DistinctDpids(net)
    ensures forall j :: 0 <= j < |recs| ==> StoreAll(m, recs)[KeyOf(recs[j])] == recs[j]
  {
    var sw1, sw2 := GetSwitchForHost(net, srcHost.name), GetSwitchForHost(net, dstHost.name);
    var inPort, outPort := GetPort(net.links, sw1.value, srcHost), GetPort(net.links, sw2.value, dstHost);
    if sw1.value.name == sw2.value.name {
      StoreAllDistinct(m, recs);
    } else {
      var p :| IsShortestPath(SwitchEdges(net.links), p, sw1.value.name, sw2.value.name)
               && |p| >= 2 && OnSwitches(net, p) && recs == Hops(net, p, d, inPort, outPort);
      MultiHopKeysDistinct(net, p, sw1.value.name, sw2.value.name, d, inPort, outPort);
      StoreAllDistinct(m, recs);
    }
  }

  /** A shortest path visits no switch twice. */
  lemma ShortestPathSimple(edges: seq<Edge>, p: seq<string>, src: string, dst: string, i: nat, j: nat)
    requires IsShortestPath(edges, p, src, dst) && i < j < |p|
    ensures p[i] != p[j]
  {
    if p[i] == p[j] {
      var q := p[..i] + p[j..];
      assert |q| < |p|;
      assert q[0] == src && q[|q| - 1] == dst;
      forall k | 0 <= k < |q| - 1 ensures Adjacent(edges, q[k], q[k + 1]) {
        if k < i - 1 {
          assert q[k] == p[k] && q[k + 1] == p[k + 1];
        } else if k == i - 1 {
          assert q[k] == p[i - 1] && q[k + 1] == p[j];
          assert Adjacent(edges, p[i - 1], p[i]);
        } else {
          assert q[k] == p[k - i + j] && q[k + 1] == p[k - i + j + 1];
        }
      }
      WalkInNodes(edges, p);
      assert q[0] in Nodes(edges);
      assert IsWalkFromTo(edges, q, src, dst);
    }
  }

  /** Rules in forward/reverse pairs: each forward rule, at an even
      position, carries the requirement's service key and its source and
      destination addresses, and the rule after it is its reverse. */
  ghost predicate PairedSides(recs: seq<FlowParams>, d: Demand) {
    && (forall j :: 0 <= j && 2 * j < |recs| ==>
          recs[2 * j].serviceKey == d.serviceKey && recs[2 * j].srcIp == d.srcIp && recs[2 * j].dstIp == d.dstIp)
    && (forall j :: 0 <= j && 2 * j + 1 < |recs| ==> recs[2 * j + 1] == Reverse(recs[2 * j]))
  }

  lemma PairingSides(fs: seq<FlowParams>, d: Demand)
    requires forall i :: 0 <= i < |fs| ==> fs[i].serviceKey == d.serviceKey && fs[i].srcIp == d.srcIp && fs[i].dstIp == d.dstIp
    ensures PairedSides(Paired(fs), d)
  {
    var r := Paired(fs);
    PairedShape(fs);
    forall j | 0 <= j && 2 * j < |r|
      ensures r[2 * j].serviceKey == d.serviceKey && r[2 * j].srcIp == d.srcIp && r[2 * j].dstIp == d.dstIp
    {
      assert r[2 * j] == fs[j];
    }
    forall j | 0 <= j && 2 * j + 1 < |r| ensures r[2 * j + 1] == Reverse(r[2 * j]) {
      assert r[2 * j] == fs[j] && r[2 * j + 1] == Reverse(fs[j]);
    }
  }

  /** Both branches of `add_flow_queue` write their rules in forward/reverse
      pairs for the requirement. */
  lemma InstalledDirections(net: Network, d: Demand, srcHost: Node, dstHost: Node, recs: seq<FlowParams>)
    requires AddOutcomeFor(net, d, srcHost, dstHost, Installed(recs))
    ensures PairedSides(recs, d)
  {
    var sw1, sw2 := GetSwitchForHost(net, srcHost.name), GetSwitchForHost(net, dstHost.name);
    var inPort, outPort := GetPort(net.links, sw1.value, srcHost), GetPort(net.links, sw2.value, dstHost);
    if sw1.value.name != sw2.value.name {
      var p :| IsShortestPath(SwitchEdges(net.links), p, sw1.value.name, sw2.value.name)
               && |p| >= 2 && OnSwitches(net, p) && recs == Hops(net, p, d, inPort, outPort);
      var fs := Forwards(net, p, d, inPort, outPort);
      assert forall i :: 0 <= i < |fs| ==> fs[i] == HopRecord(net, p, i, d, inPort, outPort);
      PairingSides(fs, d);
    } else {
      var f := Rule(d, sw1.value.dpid, inPort, outPort, SameSwitchPriority);
      assert recs == Paired([f]);
      PairingSides([f], d);
    }
  }

  /** `remove_flow_queue`'s selection: service key, source and destination
      address match, and so do the protocol and the destination port when they
      are given. The source port is accepted and never compared. */
  predicate Selected(k: FlowKey, serviceKey: string, srcIp: string, dstIp: string, protocol: Option<int>, dstPort: Option<int>) {
    && k.serviceKey == serviceKey && k.srcIp == srcIp && k.dstIp == dstIp
    && (protocol.Some? ==> k.protocol == protocol.value)
    && (dstPort.Some? ==> k.dstPort == dstPort)
  }

  function SelectedKeys(m: FlowIndex, serviceKey: string, srcIp: string, dstIp: string, protocol: Option<int>, dstPort: Option<int>): set<FlowKey> {
    set k | k in m && Selected(k, serviceKey, srcIp, dstIp, protocol, dstPort)
  }

  /** The index after `remove_flow_queue`: exactly the selected keys are gone
      and every other rule is untouched. */
  function Remaining(m: FlowIndex, serviceKey: string, srcIp: string, dstIp: string, protocol: Option<int>, dstPort: Option<int>): (r: FlowIndex)
    ensures forall k :: k in r <==> k in m && !Selected(k, serviceKey, srcIp, dstIp, protocol, dstPort)
    ensures forall k :: k in r ==> r[k] == m[k]
  {
    m - SelectedKeys(m, serviceKey, srcIp, dstIp, protocol, dstPort)
  }

  /** Removing twice removes nothing more. */
  lemma RemoveIdempotent(m: FlowIndex, serviceKey: string, srcIp: string, dstIp: string, protocol: Option<int>, dstPort: Option<int>)
    ensures var once := Remaining(m, serviceKey, srcIp, dstIp, protocol, dstPort);
            Remaining(once, serviceKey, srcIp, dstIp, protocol, dstPort) == once
  {
    var once := Remaining(m, serviceKey, srcIp, dstIp, protocol, dstPort);
    assert SelectedKeys(once, serviceKey, srcIp, dstIp, protocol, dstPort) == {};
  }

  /** Giving a protocol or a destination port only narrows the selection:
      whatever the narrower call removes, the call with neither removes too. */
  lemma RemoveNarrowing(m: FlowIndex, serviceKey: string, srcIp: string, dstIp: string, protocol: Option<int>, dstPort: Option<int>)
    ensures Remaining(m, serviceKey, srcIp, dstIp, None, None).Keys <= Remaining(m, serviceKey, srcIp, dstIp, protocol, dstPort).Keys
  {
  }

  /** Removal by service key and addresses on an index holding rules in
      forward/reverse pairs between two distinct addresses: the forward rules
      go, the reverse rules stay. */
  lemma RemovePairsByAddress(m: FlowIndex, recs: seq<FlowParams>, d: Demand)
    requires d.srcIp != d.dstIp && PairedSides(recs, d)
    requires forall x :: 0 <= x < |recs| ==> KeyOf(recs[x]) in m && m[KeyOf(recs[x])] == recs[x]
    ensures var r := Remaining(m, d.serviceKey, d.srcIp, d.dstIp, None, None);
            && (forall j :: 0 <= j && 2 * j < |recs| ==> KeyOf(recs[2 * j]) !in r)
            && (forall j :: 0 <= j && 2 * j + 1 < |recs| ==> KeyOf(recs[2 * j + 1]) in r && r[KeyOf(recs[2 * j + 1])] == recs[2 * j + 1])
  {
    var r := Remaining(m, d.serviceKey, d.srcIp, d.dstIp, None, None);
    forall j | 0 <= j && 2 * j + 1 < |recs|
      ensures KeyOf(recs[2 * j + 1]) in r && r[KeyOf(recs[2 * j + 1])] == recs[2 * j + 1]
    {
      assert 2 * j < |recs| && recs[2 * j + 1] == Reverse(recs[2 * j]);
      assert recs[2 * j + 1].srcIp == d.dstIp;
    }
  }

  /** Withdrawing a requirement by its service key and addresses after
      installing it removes every forward rule written and keeps every reverse
      rule, since the reverse rules are stored under the exchanged addresses. */
  lemma AddThenRemoveLeavesReverse(net: Network, d: Demand, srcHost: Node, dstHost: Node, recs: seq<FlowParams>, m: FlowIndex)
    requires AddOutcomeFor(net, d, srcHost, dstHost, Installed(recs))
    requires d.srcIp != d.dstIp && DistinctDpids(net)
    ensures var r := Remaining(StoreAll(m, recs), d.serviceKey, d.srcIp, d.dstIp, None, None);
            && (forall j :: 0 <= j && 2 * j < |recs| ==> KeyOf(recs[2 * j]) !in r)
            && (forall j :: 0 <= j && 2 * j + 1 < |recs| ==> KeyOf(recs[2 * j + 1]) in r && r[KeyOf(recs[2 * j + 1])] == recs[2 * j + 1])
  {
    InstalledDirections(net, d, srcHost, dstHost, recs);
    InstalledRulesPresent(net, d, srcHost, dstHost, recs, m);
    RemovePairsByAddress(StoreAll(m, recs), recs, d);
  }

  /** Removal by service key and addresses on an index holding the keys of
      rules in forward/reverse pairs between two distinct addresses: the
      forward keys go, the reverse keys stay with their values. */
  lemma RemovePairKeys(m: FlowIndex, recs: seq<FlowParams>, d: Demand)
    requires d.srcIp != d.dstIp && PairedSides(recs, d)
    requires forall x :: 0 <= x < |recs| ==> KeyOf(recs[x]) in m
    ensures var r := Remaining(m, d.serviceKey, d.srcIp, d.dstIp, None, None);
            && (forall j :: 0 <= j && 2 * j < |recs| ==> KeyOf(recs[2 * j]) !in r)
            && (forall j :: 0 <= j && 2 * j + 1 < |recs| ==> KeyOf(recs[2 * j + 1]) in r && r[KeyOf(recs[2 * j + 1])] == m[KeyOf(recs[2 * j + 1])])
  {
    forall j | 0 <= j && 2 * j + 1 < |recs|
      ensures !Selected(KeyOf(recs[2 * j + 1]), d.serviceKey, d.srcIp, d.dstIp, None, None)
    {
      assert 2 * j < |recs| && recs[2 * j + 1] == Reverse(recs[2 * j]);
      assert recs[2 * j + 1].srcIp == d.dstIp;
    }
  }

  /** `AddThenRemoveLeavesReverse` without distinct datapath ids: every
      forward key written is gone, and every reverse key written stays,
      holding what storing the rules left there (a later rule with the same
      key may have replaced it). */
  lemma AddThenRemoveKeepsReverseKeys(net: Network, d: Demand, srcHost: Node, dstHost: Node, recs: seq<FlowParams>, m: FlowIndex)
    requires AddOutcomeFor(net, d, srcHost, dstHost, Installed(recs))
    requires d.srcIp != d.dstIp
    ensures var s := StoreAll(m, recs);
            var r := Remaining(s, d.serviceKey, d.srcIp, d.dstIp, None, None);
            && (forall j :: 0 <= j && 2 * j < |recs| ==> KeyOf(recs[2 * j]) !in r)
            && (forall j :: 0 <= j && 2 * j + 1 < |recs| ==> KeyOf(recs[2 * j + 1]) in r && r[KeyOf(recs[2 * j + 1])] == s[KeyOf(recs[2 * j + 1])])
  {
    InstalledDirections(net, d, srcHost, dstHost, recs);
    StoreAllKeys(m, recs);
    RemovePairKeys(StoreAll(m, recs), recs, d);
  }

  /** Rules in forward/reverse pairs between one address and itself are all
      selected by that address pair. */
  lemma SameAddressSelected(recs: seq<FlowParams>, d: Demand)
    requires PairedSides(recs, d) && d.srcIp == d.dstIp
    ensures forall x :: 0 <= x < |recs| ==> Selected(KeyOf(recs[x]), d.serviceKey, d.srcIp, d.dstIp, None, None)
  {
    forall x | 0 <= x < |recs|
      ensures Selected(KeyOf(recs[x]), d.serviceKey, d.srcIp, d.dstIp, None, None)
    {
      var j := x / 2;
      if x == 2 * j + 1 {
        assert recs[2 * j + 1] == Reverse(recs[2 * j]);
      } else {
        assert x == 2 * j;
      }
    }
  }

  /** When the two addresses are the same, the reverse keys carry the same
      addresses as the forward keys, so the removal takes every rule written. */
  lemma AddThenRemoveSameAddress(net: Network, d: Demand, srcHost: Node, dstHost: Node, recs: seq<FlowParams>, m: FlowIndex)
    requires AddOutcomeFor(net, d, srcHost, dstHost, Installed(recs))
    requires d.srcIp == d.dstIp
    ensures var r := Remaining(StoreAll(m, recs), d.serviceKey, d.srcIp, d.dstIp, None, None);
            forall x :: 0 <= x < |recs| ==> KeyOf(recs[x]) !in r
  {
    InstalledDirections(net, d, srcHost, dstHost, recs);
    SameAddressSelected(recs, d);
  }

  /** The `delete` request `remove_flow_queue` sends for a stored rule. */
  function DeleteRequest(apiUrl: string, f: FlowParams): (r: Request)
    requires ValidDpid(f.dpid)
    ensures r.url == apiUrl + "/stats/flowentry/delete"
    ensures Some(r.body.dpid) == DpidValue(f.dpid)
    ensures r.body.cookie == Some(0) && r.body.priority == f.priority
    ensures r.body.matchFields == BuildMatch(f) && r.body.actions == [Output(f.outPort)]
  {
    BuildRequest(apiUrl, f.(action := "delete")).value
  }

  /** `del m[k]` for each key of `ks` in turn. */
  function DropAll(m: FlowIndex, ks: seq<FlowKey>): FlowIndex {
    if ks == [] then m else DropAll(m, ks[..|ks| - 1]) - {ks[|ks| - 1]}
  }

  /** Dropping the keys one by one leaves exactly the other rules, untouched. */
  lemma {:induction false} DropAllContents(m: FlowIndex, ks: seq<FlowKey>)
    ensures forall k :: k in DropAll(m, ks) <==> k in m && k !in ks
    ensures forall k :: k in DropAll(m, ks) ==> DropAll(m, ks)[k] == m[k]
  {
    if ks != [] {
      DropAllContents(m, ks[..|ks| - 1]);
      assert ks == ks[..|ks| - 1] + [ks[|ks| - 1]];
    }
  }

  /** Dropping the selected keys, in any order, leaves `Remaining`, and that
      index is still consistent. */
  lemma DropSelected(m: FlowIndex, ks: seq<FlowKey>, serviceKey: string, srcIp: string, dstIp: string,
                     protocol: Option<int>, dstPort: Option<int>)
    requires IndexConsistent(m) && Enumerates(ks, SelectedKeys(m, serviceKey, srcIp, dstIp, protocol, dstPort))
    ensures DropAll(m, ks) == Remaining(m, serviceKey, srcIp, dstIp, protocol, dstPort)
    ensures IndexConsistent(Remaining(m, serviceKey, srcIp, dstIp, protocol, dstPort))
  {
    DropAllContents(m, ks);
  }

  /** The `delete` requests for the rules of `m` under `ks`, in that order. */
  function DeleteRequests(apiUrl: string, m: FlowIndex, ks: seq<FlowKey>): seq<Request>
    requires IndexConsistent(m) && forall k :: k in ks ==> k in m
  {
    if ks == [] then [] else DeleteRequests(apiUrl, m, ks[..|ks| - 1]) + [DeleteRequest(apiUrl, m[ks[|ks| - 1]])]
  }

  /** Request `j` deletes the rule under key `j`. */
  lemma {:induction false} DeleteRequestsAt(apiUrl: string, m: FlowIndex, ks: seq<FlowKey>)
    requires IndexConsistent(m) && forall k :: k in ks ==> k in m
    ensures |DeleteRequests(apiUrl, m, ks)| == |ks|
    ensures forall j :: 0 <= j < |ks| ==> DeleteRequests(apiUrl, m, ks)[j] == DeleteRequest(apiUrl, m[ks[j]])
  {
    if ks != [] {
      DeleteRequestsAt(apiUrl, m, ks[..|ks| - 1]);
    }
  }

  /** `r` lists every key of `s` exactly once. */
  ghost predicate Enumerates(r: seq<FlowKey>, s: set<FlowKey>) {
    && (forall k :: k in r <==> k in s)
    && (forall i, j :: 0 <= i < j < |r| ==> r[i] != r[j])
  }

  /** The list `[k for k in ...]` builds from a set of keys: each key once,
      in an order the model leaves open. */
  method KeyList(s: set<FlowKey>) returns (r: seq<FlowKey>)
    ensures Enumerates(r, s)
  {
    var rest := s;
    r := [];
    while rest != {}
      invariant rest <= s
      invariant forall k :: k in r <==> k in s && k !in rest
      invariant forall i, j :: 0 <= i < j < |r| ==> r[i] != r[j]
      decreases |rest|
    {
      var k :| k in rest;
      r, rest := r + [k], rest - {k};
    }
  }

  /** The first `written` rules of `recs` were posted and stored, in order,
      starting from index `before`. */
  ghost predicate Progress(before: FlowIndex, after: FlowIndex, recs: seq<FlowParams>, written: nat,
                           requests: seq<Request>, apiUrl: string) {
    && written <= |recs|
    && after == StoreAll(before, recs[..written])
    && |requests| == written
    && (forall j :: 0 <= j < written ==> ValidDpid(recs[j].dpid) && BuildRequest(apiUrl, recs[j]) == Ok(requests[j]))
  }

  /** Posting and storing the next rule extends the progress by one. */
  lemma ProgressStep(before: FlowIndex, after: FlowIndex, recs: seq<FlowParams>, written: nat,
                     requests: seq<Request>, apiUrl: string, req: Request)
    requires Progress(before, after, recs, written, requests, apiUrl) && written < |recs|
    requires ValidDpid(recs[written].dpid) && BuildRequest(apiUrl, recs[written]) == Ok(req)
    ensures Progress(before, after[KeyOf(recs[written]) := recs[written]], recs, written + 1, requests + [req], apiUrl)
  {
    StoreAllSnoc(before, recs, written);
  }

  /** Writing stopped after `written` rules, either at the end or at a
      datapath id that is not hexadecimal. */
  ghost predicate WrotePrefix(before: FlowIndex, after: FlowIndex, recs: seq<FlowParams>, written: nat,
                              requests: seq<Request>, apiUrl: string) {
    && Progress(before, after, recs, written, requests, apiUrl)
    && (written < |recs| ==> !ValidDpid(recs[written].dpid))
  }

  class FlowManager {
    /** `active_flows`: every rule written, under its 7-tuple key. */
    var activeFlows: FlowIndex
    /** `ryu_api_url`, the base of every request URL. */
    const ryuApiUrl: string

    ghost predicate Valid()
      reads this
    {
      IndexConsistent(activeFlows)
    }

    constructor(ryuApiUrl: string := "http://localhost:8080")
      ensures Valid() && activeFlows == map[] && this.ryuApiUrl == ryuApiUrl
    {
      this.ryuApiUrl := ryuApiUrl;
      activeFlows := map[];
    }

    /** `_send_flow_to_ryu` followed by the index update: the request is
        built, and the rule is stored unless parsing its datapath id raised. */
    method Write(f: FlowParams) returns (req: Result<Request, RequestError>)
      requires Valid()
      modifies this
      ensures Valid()
      ensures req == BuildRequest(ryuApiUrl, f)
      ensures activeFlows == if req.Ok? then old(activeFlows)[KeyOf(f) := f] else old(activeFlows)
    {
      req := BuildRequest(ryuApiUrl, f);
      if req.Ok? {
        activeFlows := activeFlows[KeyOf(f) := f];
      }
    }

    /** `add_flow_queue`. `outcome` is the plan the source follows; `written`
        rules of it reach the index, all of them unless a datapath id is not
        hexadecimal, where the source raises part-way; `requests` are the
        bodies posted, one per rule written. */
    method AddFlowQueue(net: Network, serviceKey: string, srcHost: Node, dstHost: Node, protocol: int,
                        srcPort: Option<int> := None, dstPort: Option<int> := None)
      returns (outcome: AddOutcome, written: nat, requests: seq<Request>)
      requires Valid() && WellFormed(net) && srcHost.Host? && dstHost.Host?
      modifies this
      ensures Valid()
      ensures AddOutcomeFor(net, Demand(serviceKey, srcHost.ip, dstHost.ip, protocol, srcPort, dstPort), srcHost, dstHost, outcome)
      ensures !outcome.Installed? ==> activeFlows == old(activeFlows) && written == 0 && requests == []
      ensures outcome.Installed? ==> WrotePrefix(old(activeFlows), activeFlows, outcome.records, written, requests, ryuApiUrl)
    {
      var d := Demand(serviceKey, srcHost.ip, dstHost.ip, protocol, srcPort, dstPort);
      if srcHost.name !in net.nameToNode || dstHost.name !in net.nameToNode {
        return HostUnknown, 0, [];
      }
      var sw1, sw2 := GetSwitchForHost(net, srcHost.name), GetSwitchForHost(net, dstHost.name);
      if sw1.None? || sw2.None? {
        return HostNotAttached, 0, [];
      }
      var inPort, outPort := GetPort(net.links, sw1.value, srcHost), GetPort(net.links, sw2.value, dstHost);
      if sw1.value.name == sw2.value.name {
        var recs := SameSwitchRecords(d, sw1.value.dpid, inPort, outPort);
        outcome := Installed(recs);
        written, requests := InstallSameSwitch(recs);
        return;
      }
      var path := GetPath(net.links, sw1.value.name, sw2.value.name);
      if path.None? {
        return PathNotFound, 0, [];
      }
      var p := path.value;
      MultiHopOutcome(net, d, srcHost, dstHost, p);
      outcome := Installed(Hops(net, p, d, inPort, outPort));
      written, requests := InstallPath(net, p, d, inPort, outPort);
    }

    /** One more rule of a planned sequence: posted, and stored unless its
        datapath id is rejected. */
    method WriteNext(ghost before: FlowIndex, ghost recs: seq<FlowParams>, f: FlowParams, written: nat, requests: seq<Request>)
      returns (ok: bool, written': nat, requests': seq<Request>)
      requires Valid() && Progress(before, activeFlows, recs, written, requests, ryuApiUrl)
      requires written < |recs| && f == recs[written]
      modifies this
      ensures Valid()
      ensures ok <==> ValidDpid(f.dpid)
      ensures ok ==> Progress(before, activeFlows, recs, written', requests', ryuApiUrl) && written' == written + 1
      ensures !ok ==> activeFlows == old(activeFlows) && written' == written && requests' == requests
    {
      var r := Write(f);
      ok := r.Ok?;
      if ok {
        ProgressStep(before, old(activeFlows), recs, written, requests, ryuApiUrl, r.value);
        written', requests' := written + 1, requests + [r.value];
      } else {
        written', requests' := written, requests;
      }
    }

    /** A rule and then its reverse, as each branch of `add_flow_queue`
        writes them; both share a datapath id, so both are stored or neither. */
    method WritePair(ghost before: FlowIndex, ghost recs: seq<FlowParams>, f: FlowParams, written: nat, requests: seq<Request>)
      returns (ok: bool, written': nat, requests': seq<Request>)
      requires Valid() && Progress(before, activeFlows, recs, written, requests, ryuApiUrl)
      requires written + 1 < |recs| && f == recs[written] && recs[written + 1] == Reverse(recs[written])
      modifies this
      ensures Valid()
      ensures ok <==> ValidDpid(f.dpid)
      ensures ok ==> Progress(before, activeFlows, recs, written', requests', ryuApiUrl) && written' == written + 2
      ensures !ok ==> activeFlows == old(activeFlows) && written' == written && requests' == requests
    {
      ok, written', requests' := WriteNext(before, recs, f, written, requests);
      if ok {
        ok, written', requests' := WriteNext(before, recs, Reverse(f), written', requests');
      }
    }

    /** The same-switch branch: the forward rule, then its reverse. */
    method InstallSameSwitch(recs: seq<FlowParams>) returns (written: nat, requests: seq<Request>)
      requires Valid() && |recs| == 2 && recs[1] == Reverse(recs[0])
      modifies this
      ensures Valid()
      ensures WrotePrefix(old(activeFlows), activeFlows, recs, written, requests, ryuApiUrl)
    {
      var ok;
      ok, written, requests := WritePair(old(activeFlows), recs, recs[0], 0, []);
    }

    /** The multi-switch branch: for each switch on the path, its forward
        rule (`HopRecord`), then the reverse; writing stops where a datapath
        id is rejected. */
    method InstallPath(net: Network, p: seq<string>, d: Demand, inPort: Port, outPort: Port)
      returns (written: nat, requests: seq<Request>)
      requires Valid() && OnSwitches(net, p) && |p| >= 2
      modifies this
      ensures Valid()
      ensures WrotePrefix(old(activeFlows), activeFlows, Hops(net, p, d, inPort, outPort), written, requests, ryuApiUrl)
    {
      HopsShape(net, p, d, inPort, outPort);
      written, requests := WriteHops(Hops(net, p, d, inPort, outPort), net, p, d, inPort, outPort);
    }

    /** The loop of the multi-switch branch, proved against `recs`, the rules
        it is to write in order. */
    method WriteHops(ghost recs: seq<FlowParams>, net: Network, p: seq<string>, d: Demand, inPort: Port, outPort: Port)
      returns (written: nat, requests: seq<Request>)
      requires Valid() && OnSwitches(net, p) && |p| >= 2 && |recs| == 2 * |p|
      requires forall i :: 0 <= i < |p| ==>
                 recs[2 * i] == HopRecord(net, p, i, d, inPort, outPort) && recs[2 * i + 1] == Reverse(recs[2 * i])
      modifies this
      ensures Valid()
      ensures WrotePrefix(old(activeFlows), activeFlows, recs, written, requests, ryuApiUrl)
    {
      written, requests := 0, [];
      var i := 0;
      while i < |p|
        invariant 0 <= i <= |p| && written == 2 * i
        invariant Valid()
        invariant Progress(old(activeFlows), activeFlows, recs, written, requests, ryuApiUrl)
      {
        var f := HopRecord(net, p, i, d, inPort, outPort);
        var ok;
        ok, written, requests := WritePair(old(activeFlows), recs, f, 2 * i, requests);
        if !ok {
          return;
        }
        i := i + 1;
      }
    }

    /** `remove_flow_queue`: the selected keys are listed each once, in an
        order the model leaves open (`order`), a `delete` request is built
        for the rule under each in turn, and the selected keys are dropped
        from the index. */
    method RemoveFlowQueue(serviceKey: string, srcIp: string, dstIp: string, protocol: Option<int> := None,
                           srcPort: Option<int> := None, dstPort: Option<int> := None)
      returns (requests: seq<Request>, ghost order: seq<FlowKey>)
      requires Valid()
      modifies this
      ensures Valid()
      ensures activeFlows == Remaining(old(activeFlows), serviceKey, srcIp, dstIp, protocol, dstPort)
      ensures Enumerates(order, SelectedKeys(old(activeFlows), serviceKey, srcIp, dstIp, protocol, dstPort))
      ensures requests == DeleteRequests(ryuApiUrl, old(activeFlows), order)
    {
      ghost var m0 := activeFlows;
      var keys := KeyList(SelectedKeys(activeFlows, serviceKey, srcIp, dstIp, protocol, dstPort));
      assert forall k :: k in keys ==> k in m0;
      requests := [];
      for i := 0 to |keys|
        invariant forall k :: k in keys[..i] ==> k in m0
        invariant activeFlows == DropAll(m0, keys[..i])
        invariant requests == DeleteRequests(ryuApiUrl, m0, keys[..i])
      {
        assert keys[..i + 1][..i] == keys[..i];
        var k := keys[i];
        DropAllContents(m0, keys[..i]);
        assert k !in keys[..i];
        var flow := activeFlows[k];
        var req := BuildRequest(ryuApiUrl, flow.(action := "delete"));
        requests := requests + [req.value];
        activeFlows := activeFlows - {k};
      }
      assert keys[..|keys|] == keys;
      DropSelected(m0, keys, serviceKey, srcIp, dstIp, protocol, dstPort);
      order := keys;
    }
  }
}
