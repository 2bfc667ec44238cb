/** The two topology builders and the selector in front of them: `MyTopo`
    (switches in a ring, hosts spread round-robin over them), `ComplexTopo`
    (spine-leaf: hosts on leaves, every leaf linked to every spine) and
    `build_topology`. Host addresses and datapath ids are Mininet's choice
    and enter as functions of the node name. */
module Topology {
  import opened Wrappers
  import opened Text
  import opened Mininet
  import opened FlowLookup
  import opened FlowPath

  type Pair = (Node, Node)

  datatype TopologyError =
    /** `MyTopo` with hosts but no switch: `(i - 1) % num_switches` or the
        list index raises before the first host link. */
    | NoSwitches
    /** `build_topology` raised `ValueError`. */
    | UnknownTopology(topologyType: string)

  /** The node name `f"{prefix}{i}"`. */
  function Name(prefix: string, i: nat): string {
    prefix + NatToString(i)
  }

  function Clamp(n: int): nat {
    if n < 0 then 0 else n
  }

  /** The switches `addSwitch(f"{prefix}{i}")` creates for i = 1 .. count. */
  function SwitchNodes(prefix: string, count: nat, dpidOf: string -> Dpid): (r: seq<Node>)
    ensures |r| == count
    ensures forall i :: 0 <= i < count ==> r[i] == Switch(Name(prefix, i + 1), dpidOf(Name(prefix, i + 1)))
  {
    if count == 0 then []
    else SwitchNodes(prefix, count - 1, dpidOf) + [Switch(Name(prefix, count), dpidOf(Name(prefix, count)))]
  }

  /** The hosts `addHost(f"h{i}")` creates for i = 1 .. count. */
  function HostNodes(count: nat, ipOf: string -> string): (r: seq<Node>)
    ensures |r| == count
    ensures forall i :: 0 <= i < count ==> r[i] == Host(Name("h", i + 1), ipOf(Name("h", i + 1)))
  {
    if count == 0 then []
    else HostNodes(count - 1, ipOf) + [Host(Name("h", count), ipOf(Name("h", count)))]
  }

  /** Host `i` (from 0) linked to switch `i % |sws|`, host first. */
  function RoundRobin(hosts: seq<Node>, sws: seq<Node>): seq<Pair>
    requires |sws| >= 1
  {
    seq(|hosts|, i requires 0 <= i < |hosts| => (hosts[i], sws[i % |sws|]))
  }

  /** Switch `i` linked to switch `(i + 1) % |sws|`. */
  function Ring(sws: seq<Node>): seq<Pair>
    requires |sws| >= 1
  {
    seq(|sws|, i requires 0 <= i < |sws| => (sws[i], sws[(i + 1) % |sws|]))
  }

  /** One leaf linked to each spine in turn, leaf first. */
  function Row(leaf: Node, spines: seq<Node>): seq<Pair> {
    seq(|spines|, j requires 0 <= j < |spines| => (leaf, spines[j]))
  }

  /** The full mesh, leaf by leaf. */
  function Mesh(leaves: seq<Node>, spines: seq<Node>): seq<Pair> {
    if leaves == [] then []
    else Mesh(leaves[..|leaves| - 1], spines) + Row(leaves[|leaves| - 1], spines)
  }

  // ----- MyTopo -----

  /** The nodes `MyTopo.build` registers, switches first. */
  function MyTopoNodes(numHosts: int, numSwitches: int, ipOf: string -> string, dpidOf: string -> Dpid): seq<Node> {
    SwitchNodes("s", Clamp(numSwitches), dpidOf) + HostNodes(Clamp(numHosts), ipOf)
  }

  /** The `addLink` calls of `MyTopo.build`, host links first, then the ring. */
  function MyTopoPairs(numHosts: int, numSwitches: int, ipOf: string -> string, dpidOf: string -> Dpid): seq<Pair> {
    if numSwitches < 1 then []
    else
      var sws := SwitchNodes("s", numSwitches, dpidOf);
      RoundRobin(HostNodes(Clamp(numHosts), ipOf), sws) + Ring(sws)
  }

  /** No host registered after host `x` (from 0) shares its name. */
  lemma LaterHostNames(sws: seq<Node>, hosts: seq<Node>, count: nat, ipOf: string -> string, x: nat)
    requires hosts == HostNodes(count, ipOf) && x < count
    ensures forall j :: |sws| + x < j < |sws + hosts| ==> (sws + hosts)[j].name != (sws + hosts)[|sws| + x].name
  {
    forall j | |sws| + x < j < |sws + hosts| ensures (sws + hosts)[j].name != (sws + hosts)[|sws| + x].name {
      var y := j - |sws|;
      assert (sws + hosts)[j] == hosts[y] && (sws + hosts)[|sws| + x] == hosts[x];
      PrefixedNamesDistinct("h", y + 1, x + 1);
    }
  }

  /** `net.get(f"h{i}")` after the switches and hosts are registered gives host `i`. */
  lemma HostLookup(m: map<string, Node>, sws: seq<Node>, count: nat, ipOf: string -> string, i: nat)
    requires 1 <= i <= count
    ensures var reg := Register(m, sws + HostNodes(count, ipOf));
            Name("h", i) in reg && reg[Name("h", i)] == Host(Name("h", i), ipOf(Name("h", i)))
  {
    var hosts := HostNodes(count, ipOf);
    var nodes := sws + hosts;
    var k := |sws| + i - 1;
    assert nodes[k] == hosts[i - 1];
    LaterHostNames(sws, hosts, count, ipOf, i - 1);
    RegisterLast(m, nodes, k);
  }

  /** The switch-creating loop: `addSwitch(f"{prefix}{i}")` for i = 1 .. count. */
  method AddSwitches(net: Net, prefix: string, count: nat, dpidOf: string -> Dpid) returns (sws: seq<Node>)
    modifies net
    ensures sws == SwitchNodes(prefix, count, dpidOf)
    ensures net.nameToNode == Register(old(net.nameToNode), sws) && net.links == old(net.links)
  {
    sws := [];
    for i := 1 to count + 1
      invariant sws == SwitchNodes(prefix, i - 1, dpidOf)
      invariant net.nameToNode == Register(old(net.nameToNode), sws) && net.links == old(net.links)
    {
      var s := net.AddSwitch(Name(prefix, i), dpidOf(Name(prefix, i)));
      RegisterSnoc(old(net.nameToNode), sws, s);
      sws := sws + [s];
    }
  }

  /** The host-creating loop: `addHost(f"h{i}")` for i = 1 .. count. */
  method AddHosts(net: Net, count: nat, ipOf: string -> string) returns (hs: seq<Node>)
    modifies net
    ensures hs == HostNodes(count, ipOf)
    ensures net.nameToNode == Register(old(net.nameToNode), hs) && net.links == old(net.links)
  {
    hs := [];
    for i := 1 to count + 1
      invariant hs == HostNodes(i - 1, ipOf)
      invariant net.nameToNode == Register(old(net.nameToNode), hs) && net.links == old(net.links)
    {
      var h := net.AddHost(Name("h", i), ipOf(Name("h", i)));
      RegisterSnoc(old(net.nameToNode), hs, h);
      hs := hs + [h];
    }
  }

  /** `addLink` on each pair in turn, from the pairs' own order. */
  lemma RoundRobinSnoc(hosts: seq<Node>, sws: seq<Node>, i: nat)
    requires |sws| >= 1 && i < |hosts|
    ensures RoundRobin(hosts, sws)[..i + 1] == RoundRobin(hosts, sws)[..i] + [(hosts[i], sws[i % |sws|])]
  {
  }

  lemma RingSnoc(sws: seq<Node>, i: nat)
    requires i < |sws|
    ensures Ring(sws)[..i + 1] == Ring(sws)[..i] + [(sws[i], sws[(i + 1) % |sws|])]
  {
  }

  lemma RowSnoc(leaf: Node, spines: seq<Node>, j: nat)
    requires j < |spines|
    ensures Row(leaf, spines)[..j + 1] == Row(leaf, spines)[..j] + [(leaf, spines[j])]
  {
  }

  /** `MyTopo`'s host loop: host `h{i}`, looked up by name, to switch `(i - 1) % N`. */
  method MyTopoHostLinks(net: Net, sws: seq<Node>, hs: seq<Node>)
    requires |sws| >= 1
    requires forall i :: 1 <= i <= |hs| ==> Name("h", i) in net.nameToNode && net.nameToNode[Name("h", i)] == hs[i - 1]
    modifies net
    ensures net.links == AddLinks(old(net.links), RoundRobin(hs, sws)) && net.nameToNode == old(net.nameToNode)
  {
    for i := 1 to |hs| + 1
      invariant net.links == AddLinks(old(net.links), RoundRobin(hs, sws)[..i - 1])
      invariant net.nameToNode == old(net.nameToNode)
    {
      var host := net.nameToNode[Name("h", i)];
      var sw := sws[(i - 1) % |sws|];
      RoundRobinSnoc(hs, sws, i - 1);
      AddLinksSnoc(old(net.links), RoundRobin(hs, sws)[..i - 1], (host, sw));
      net.AddLink(host, sw);
    }
    assert RoundRobin(hs, sws)[..|hs|] == RoundRobin(hs, sws);
  }

  /** `MyTopo`'s ring loop: switch `i` to switch `(i + 1) % N`. */
  method RingLinks(net: Net, sws: seq<Node>)
    requires |sws| >= 1
    modifies net
    ensures net.links == AddLinks(old(net.links), Ring(sws)) && net.nameToNode == old(net.nameToNode)
  {
    for i := 0 to |sws|
      invariant net.links == AddLinks(old(net.links), Ring(sws)[..i])
      invariant net.nameToNode == old(net.nameToNode)
    {
      var a, b := sws[i], sws[(i + 1) % |sws|];
      RingSnoc(sws, i);
      AddLinksSnoc(old(net.links), Ring(sws)[..i], (a, b));
      net.AddLink(a, b);
    }
    assert Ring(sws)[..|sws|] == Ring(sws);
  }

  /** `MyTopo.build(net, num_hosts, num_switches)`: switches `s1..sN`, hosts
      `h1..hM`, each host linked to switch `s((i-1) % N + 1)`, then each
      switch to the next one around the ring. With hosts and no switch the
      source raises at the first host link, after registering the nodes. */
  method BuildMyTopo(net: Net, numHosts: int, numSwitches: int, ipOf: string -> string, dpidOf: string -> Dpid)
    returns (r: Result<(), TopologyError>)
    modifies net
    ensures net.nameToNode == Register(old(net.nameToNode), MyTopoNodes(numHosts, numSwitches, ipOf, dpidOf))
    ensures r.Ok? <==> numHosts < 1 || numSwitches >= 1
    ensures r.Ok? ==> net.links == AddLinks(old(net.links), MyTopoPairs(numHosts, numSwitches, ipOf, dpidOf))
    ensures r.Err? ==> r.error == NoSwitches && net.links == old(net.links)
  {
    var sws := AddSwitches(net, "s", Clamp(numSwitches), dpidOf);
    var hs := AddHosts(net, Clamp(numHosts), ipOf);
    RegisterAppend(old(net.nameToNode), sws, hs);
    if |hs| > 0 && |sws| == 0 {
      return Err(NoSwitches);
    }
    r := Ok(());
    if |sws| == 0 {
      return;
    }
    forall i | 1 <= i <= |hs|
      ensures Name("h", i) in net.nameToNode && net.nameToNode[Name("h", i)] == hs[i - 1]
    {
      HostLookup(old(net.nameToNode), sws, |hs|, ipOf, i);
    }
    ghost var base := net.links;
    MyTopoHostLinks(net, sws, hs);
    RingLinks(net, sws);
    AddLinksAppend(base, RoundRobin(hs, sws), Ring(sws));
  }

  // ----- ComplexTopo -----

  /** The switch count `ComplexTopo.build` works with: at least 2. */
  function ComplexSwitchCount(numSwitches: int): nat {
    if numSwitches < 2 then 2 else numSwitches
  }

  /** `num_spine = max(1, n // 2)`. */
  function SpineCount(numSwitches: int): nat {
    var n := ComplexSwitchCount(numSwitches);
    if n / 2 < 1 then 1 else n / 2
  }

  /** `num_leaf = max(1, n - num_spine)`. */
  function LeafCount(numSwitches: int): nat {
    var n := ComplexSwitchCount(numSwitches);
    if n - SpineCount(numSwitches) < 1 then 1 else n - SpineCount(numSwitches)
  }

  /** The split uses every switch, with at least one spine and at least as
      many leaves as spines, and at most one more. */
  lemma SpineLeafSplit(numSwitches: int)
    ensures SpineCount(numSwitches) + LeafCount(numSwitches) == ComplexSwitchCount(numSwitches)
    ensures 1 <= SpineCount(numSwitches) <= LeafCount(numSwitches) <= SpineCount(numSwitches) + 1
    ensures numSwitches >= 2 ==> ComplexSwitchCount(numSwitches) == numSwitches
  {
  }

  function Spines(numSwitches: int, dpidOf: string -> Dpid): seq<Node> {
    SwitchNodes("s_spine", SpineCount(numSwitches), dpidOf)
  }

  function Leaves(numSwitches: int, dpidOf: string -> Dpid): seq<Node> {
    SwitchNodes("s_leaf", LeafCount(numSwitches), dpidOf)
  }

  /** The nodes `ComplexTopo.build` registers: spines, leaves, then hosts. */
  function ComplexNodes(numHosts: int, numSwitches: int, ipOf: string -> string, dpidOf: string -> Dpid): seq<Node> {
    Spines(numSwitches, dpidOf) + Leaves(numSwitches, dpidOf) + HostNodes(Clamp(numHosts), ipOf)
  }

  /** The `addLink` calls of `ComplexTopo.build`: each host to leaf
      `i % num_leaf`, then for each leaf, a link to every spine. */
  function ComplexPairs(numHosts: int, numSwitches: int, ipOf: string -> string, dpidOf: string -> Dpid): seq<Pair> {
    var leaves := Leaves(numSwitches, dpidOf);
    RoundRobin(HostNodes(Clamp(numHosts), ipOf), leaves) + Mesh(leaves, Spines(numSwitches, dpidOf))
  }

  /** `ComplexTopo`'s host loop: host `i` (from 0) to leaf `i % num_leaf`. */
  method ComplexHostLinks(net: Net, hosts: seq<Node>, leaves: seq<Node>)
    requires |leaves| >= 1
    modifies net
    ensures net.links == AddLinks(old(net.links), RoundRobin(hosts, leaves)) && net.nameToNode == old(net.nameToNode)
  {
    for i := 0 to |hosts|
      invariant net.links == AddLinks(old(net.links), RoundRobin(hosts, leaves)[..i])
      invariant net.nameToNode == old(net.nameToNode)
    {
      var a, b := hosts[i], leaves[i % |leaves|];
      RoundRobinSnoc(hosts, leaves, i);
      AddLinksSnoc(old(net.links), RoundRobin(hosts, leaves)[..i], (a, b));
      net.AddLink(a, b);
    }
    assert RoundRobin(hosts, leaves)[..|hosts|] == RoundRobin(hosts, leaves);
  }

  /** The inner mesh loop: one leaf to every spine. */
  method RowLinks(net: Net, leaf: Node, spines: seq<Node>)
    modifies net
    ensures net.links == AddLinks(old(net.links), Row(leaf, spines)) && net.nameToNode == old(net.nameToNode)
  {
    for j := 0 to |spines|
      invariant net.links == AddLinks(old(net.links), Row(leaf, spines)[..j])
      invariant net.nameToNode == old(net.nameToNode)
    {
      RowSnoc(leaf, spines, j);
      AddLinksSnoc(old(net.links), Row(leaf, spines)[..j], (leaf, spines[j]));
      net.AddLink(leaf, spines[j]);
    }
    assert Row(leaf, spines)[..|spines|] == Row(leaf, spines);
  }

  /** The outer mesh loop: every leaf in turn. */
  method MeshLinks(net: Net, leaves: seq<Node>, spines: seq<Node>)
    modifies net
    ensures net.links == AddLinks(old(net.links), Mesh(leaves, spines)) && net.nameToNode == old(net.nameToNode)
  {
    for a := 0 to |leaves|
      invariant net.links == AddLinks(old(net.links), Mesh(leaves[..a], spines))
      invariant net.nameToNode == old(net.nameToNode)
    {
      ghost var before := net.links;
      RowLinks(net, leaves[a], spines);
      AddLinksAppend(old(net.links), Mesh(leaves[..a], spines), Row(leaves[a], spines));
      assert leaves[..a + 1][..a] == leaves[..a];
    }
    assert leaves[..|leaves|] == leaves;
  }

  /** `ComplexTopo.build(net, num_hosts, num_switches)`. */
  method BuildComplexTopo(net: Net, numHosts: int, numSwitches: int, ipOf: string -> string, dpidOf: string -> Dpid)
    modifies net
    ensures net.nameToNode == Register(old(net.nameToNode), ComplexNodes(numHosts, numSwitches, ipOf, dpidOf))
    ensures net.links == AddLinks(old(net.links), ComplexPairs(numHosts, numSwitches, ipOf, dpidOf))
  {
    var n := numSwitches;
    if n < 2 {
      n := 2;
    }
    var numSpine := if n / 2 < 1 then 1 else n / 2;
    var numLeaf := if n - numSpine < 1 then 1 else n - numSpine;
    assert numSpine == SpineCount(numSwitches) && numLeaf == LeafCount(numSwitches);
    var spines := AddSwitches(net, "s_spine", numSpine, dpidOf);
    var leaves := AddSwitches(net, "s_leaf", numLeaf, dpidOf);
    RegisterAppend(old(net.nameToNode), spines, leaves);
    var hosts := AddHosts(net, Clamp(numHosts), ipOf);
    RegisterAppend(old(net.nameToNode), spines + leaves, hosts);
    assert net.nameToNode == Register(old(net.nameToNode), ComplexNodes(numHosts, numSwitches, ipOf, dpidOf));
    assert net.links == old(net.links);
    ComplexHostLinks(net, hosts, leaves);
    MeshLinks(net, leaves, spines);
    AddLinksAppend(old(net.links), RoundRobin(hosts, leaves), Mesh(leaves, spines));
  }

  // ----- what the built networks look like -----

  /** Every node of `sws` is a switch. */
  ghost predicate AllSwitches(sws: seq<Node>) {
    forall x :: 0 <= x < |sws| ==> sws[x].Switch?
  }

  /** Every pair of `rest` joins two switches. */
  ghost predicate AllSwitchPairs(rest: seq<Pair>) {
    forall x :: 0 <= x < |rest| ==> rest[x].0.Switch? && rest[x].1.Switch?
  }

  /** `hosts` are hosts, pairwise different. */
  ghost predicate DistinctHosts(hosts: seq<Node>) {
    && (forall a :: 0 <= a < |hosts| ==> hosts[a].Host?)
    && (forall a, b :: 0 <= a < |hosts| && 0 <= b < |hosts| && a != b ==> hosts[a] != hosts[b])
  }

  /** `links` starts with one link per host, the hosts dealt round robin
      over `sws`, host end first. */
  ghost predicate HostLinks(links: seq<Link>, hosts: seq<Node>, sws: seq<Node>) {
    && |sws| >= 1
    && |hosts| <= |links|
    && (forall k :: 0 <= k < |hosts| ==> links[k].node1 == hosts[k] && links[k].node2 == sws[k % |sws|])
  }

  /** Every link from position `h` on joins two switches. */
  ghost predicate SwitchLinksFrom(links: seq<Link>, h: nat) {
    forall k :: h <= k < |links| ==> SwitchToSwitch(links[k])
  }

  /** `links` holds the host links, followed by one link per pair of `rest`. */
  ghost predicate Laid(links: seq<Link>, hosts: seq<Node>, sws: seq<Node>, rest: seq<Pair>) {
    && HostLinks(links, hosts, sws)
    && |links| == |hosts| + |rest|
    && (forall x :: 0 <= x < |rest| ==> links[|hosts| + x].node1 == rest[x].0 && links[|hosts| + x].node2 == rest[x].1)
  }

  /** When `rest` joins switches only, so do the links after the hosts'. */
  lemma {:induction false} LaidSwitchLinks(links: seq<Link>, hosts: seq<Node>, sws: seq<Node>, rest: seq<Pair>)
    requires Laid(links, hosts, sws, rest) && AllSwitchPairs(rest)
    ensures SwitchLinksFrom(links, |hosts|)
  {
    forall k | |hosts| <= k < |links| ensures SwitchToSwitch(links[k]) {
      var x := k - |hosts|;
      assert links[|hosts| + x].node1 == rest[x].0 && links[|hosts| + x].node2 == rest[x].1;
      assert rest[x].0.Switch? && rest[x].1.Switch?;
    }
  }

  /** The nodes `addSwitch` creates are switches. */
  lemma SwitchNodesAreSwitches(prefix: string, count: nat, dpidOf: string -> Dpid)
    ensures AllSwitches(SwitchNodes(prefix, count, dpidOf))
  {
  }

  /** The hosts `addHost` creates have pairwise different names. */
  lemma {:induction false} HostNodesDistinct(count: nat, ipOf: string -> string)
    ensures DistinctHosts(HostNodes(count, ipOf))
  {
    var hosts := HostNodes(count, ipOf);
    forall a, b | 0 <= a < count && 0 <= b < count && a != b ensures hosts[a] != hosts[b] {
      PrefixedNamesDistinct("h", a + 1, b + 1);
    }
  }

  /** Adding the host links and then `rest` to an empty network lays the
      links out that way. */
  lemma {:induction false} LaidFromScratch(hosts: seq<Node>, sws: seq<Node>, rest: seq<Pair>)
    requires |sws| >= 1
    ensures Laid(AddLinks([], RoundRobin(hosts, sws) + rest), hosts, sws, rest)
  {
    var pairs := RoundRobin(hosts, sws) + rest;
    var links := AddLinks([], pairs);
    forall k | 0 <= k < |hosts| ensures links[k].node1 == hosts[k] && links[k].node2 == sws[k % |sws|] {
      assert links[0 + k].node1 == pairs[k].0 && links[0 + k].node2 == pairs[k].1;
      assert pairs[k] == RoundRobin(hosts, sws)[k];
    }
    forall x | 0 <= x < |rest| ensures links[|hosts| + x].node1 == rest[x].0 && links[|hosts| + x].node2 == rest[x].1 {
      assert links[0 + (|hosts| + x)].node1 == pairs[|hosts| + x].0;
      assert links[0 + (|hosts| + x)].node2 == pairs[|hosts| + x].1;
      assert pairs[|hosts| + x] == rest[x];
    }
  }

  /** In such a network host `j` hangs off `sws[j % |sws|]`: its own link
      is the only one attaching it to a switch. */
  lemma {:induction false} LaidAttach(links: seq<Link>, hosts: seq<Node>, sws: seq<Node>, j: nat)
    requires HostLinks(links, hosts, sws) && SwitchLinksFrom(links, |hosts|) && DistinctHosts(hosts) && AllSwitches(sws)
    requires j < |hosts|
    ensures SwitchForHost(links, hosts[j]) == Some(sws[j % |sws|])
    ensures forall k :: 0 <= k < |links| ==> (AttachesToSwitch(links[k], hosts[j]) <==> k == j)
  {
    forall k | 0 <= k < |links| ensures AttachesToSwitch(links[k], hosts[j]) <==> k == j {
      if k < |hosts| {
        var m := k % |sws|;
        assert links[k].node1 == hosts[k] && links[k].node2 == sws[m];
        assert sws[m].Switch?;
      } else {
        assert SwitchToSwitch(links[k]);
      }
    }
    var m := j % |sws|;
    assert links[j].node2 == sws[m] && sws[m].Switch?;
    SwitchForHostUnique(links, hosts[j], j);
  }

  /** The same with the nodes named as `addHost` and `addSwitch` name them:
      host `h{j + 1}` hangs off switch `{prefix}{j % n + 1}`. */
  lemma {:induction false} NamedAttach(links: seq<Link>, count: nat, ipOf: string -> string, prefix: string, n: nat,
                                       dpidOf: string -> Dpid, j: nat)
    requires HostLinks(links, HostNodes(count, ipOf), SwitchNodes(prefix, n, dpidOf)) && SwitchLinksFrom(links, count)
    requires DistinctHosts(HostNodes(count, ipOf)) && AllSwitches(SwitchNodes(prefix, n, dpidOf))
    requires j < count
    ensures var s := Name(prefix, j % n + 1);
            SwitchForHost(links, Host(Name("h", j + 1), ipOf(Name("h", j + 1)))) == Some(Switch(s, dpidOf(s)))
    ensures forall k :: 0 <= k < |links| ==> (AttachesToSwitch(links[k], Host(Name("h", j + 1), ipOf(Name("h", j + 1)))) <==> k == j)
  {
    var sws, hosts := SwitchNodes(prefix, n, dpidOf), HostNodes(count, ipOf);
    LaidAttach(links, hosts, sws, j);
    var m := j % n;
    assert 0 <= m < n;
    assert sws[m] == Switch(Name(prefix, m + 1), dpidOf(Name(prefix, m + 1)));
    assert hosts[j] == Host(Name("h", j + 1), ipOf(Name("h", j + 1)));
  }

  /** In such a network every switch edge is one of `rest`'s pairs. */
  lemma {:induction false} LaidEdgeSound(links: seq<Link>, hosts: seq<Node>, sws: seq<Node>, rest: seq<Pair>, e: Edge)
    requires Laid(links, hosts, sws, rest) && DistinctHosts(hosts)
    requires e in SwitchEdges(links)
    ensures exists x :: 0 <= x < |rest| && e == (rest[x].0.name, rest[x].1.name)
  {
    var k :| 0 <= k < |links| && SwitchToSwitch(links[k]) && e == (links[k].node1.name, links[k].node2.name);
    assert k >= |hosts|;
    var x := k - |hosts|;
    assert links[|hosts| + x].node1 == rest[x].0 && links[|hosts| + x].node2 == rest[x].1;
  }

  /** In such a network each of `rest`'s pairs is a switch edge. */
  lemma {:induction false} LaidEdgeComplete(links: seq<Link>, hosts: seq<Node>, sws: seq<Node>, rest: seq<Pair>, x: nat)
    requires Laid(links, hosts, sws, rest) && AllSwitchPairs(rest)
    requires x < |rest|
    ensures (rest[x].0.name, rest[x].1.name) in SwitchEdges(links)
  {
    var k := |hosts| + x;
    assert links[k].node1 == rest[x].0 && links[k].node2 == rest[x].1;
    assert SwitchToSwitch(links[k]);
  }

  /** The ring joins two switches in every pair. */
  lemma {:induction false} RingSwitchPairs(sws: seq<Node>)
    requires |sws| >= 1 && AllSwitches(sws)
    ensures AllSwitchPairs(Ring(sws))
  {
    forall x | 0 <= x < |sws| ensures Ring(sws)[x].0.Switch? && Ring(sws)[x].1.Switch? {
      var m := (x + 1) % |sws|;
      assert Ring(sws)[x] == (sws[x], sws[m]);
    }
  }

  /** A link list whose first `h` links are not switch-to-switch and whose
      other links all are has one switch edge per later link. */
  lemma {:induction false} SwitchEdgeCount(links: seq<Link>, h: nat)
    requires h <= |links| && SwitchLinksFrom(links, h)
    requires forall k :: 0 <= k < h ==> !SwitchToSwitch(links[k])
    ensures |SwitchEdges(links)| == |links| - h
    decreases |links|
  {
    if links != [] {
      var init := links[..|links| - 1];
      assert forall k :: 0 <= k < |init| ==> init[k] == links[k];
      if |links| - 1 >= h {
        SwitchEdgeCount(init, h);
      } else {
        SwitchEdgeCount(init, h - 1);
      }
    }
  }

  /** In such a network the switch graph has one edge per pair of `rest`. */
  lemma {:induction false} LaidSwitchEdgeCount(links: seq<Link>, hosts: seq<Node>, sws: seq<Node>, rest: seq<Pair>)
    requires Laid(links, hosts, sws, rest) && DistinctHosts(hosts) && AllSwitchPairs(rest)
    ensures |SwitchEdges(links)| == |rest|
  {
    LaidSwitchLinks(links, hosts, sws, rest);
    forall k | 0 <= k < |hosts| ensures !SwitchToSwitch(links[k]) {
      assert links[k].node1 == hosts[k] && hosts[k].Host?;
    }
    SwitchEdgeCount(links, |hosts|);
  }

  /** The links `MyTopo` adds to a network built from scratch. */
  function MyTopoLinks(numHosts: nat, numSwitches: nat, ipOf: string -> string, dpidOf: string -> Dpid): seq<Link> {
    AddLinks([], MyTopoPairs(numHosts, numSwitches, ipOf, dpidOf))
  }

  /** With at least one switch, `MyTopo` lays out its host links and then
      the ring, and the layout facts the lemmas below need hold. */
  lemma {:induction false} MyTopoLaid(numHosts: nat, numSwitches: nat, ipOf: string -> string, dpidOf: string -> Dpid)
    requires numSwitches >= 1
    ensures var sws := SwitchNodes("s", numSwitches, dpidOf);
            && Laid(MyTopoLinks(numHosts, numSwitches, ipOf, dpidOf), HostNodes(numHosts, ipOf), sws, Ring(sws))
            && DistinctHosts(HostNodes(numHosts, ipOf)) && AllSwitches(sws) && AllSwitchPairs(Ring(sws))
  {
    var sws, hosts := SwitchNodes("s", numSwitches, dpidOf), HostNodes(numHosts, ipOf);
    LaidFromScratch(hosts, sws, Ring(sws));
    assert Clamp(numHosts) == numHosts;
    assert MyTopoLinks(numHosts, numSwitches, ipOf, dpidOf) == AddLinks([], RoundRobin(hosts, sws) + Ring(sws));
    HostNodesDistinct(numHosts, ipOf);
    SwitchNodesAreSwitches("s", numSwitches, dpidOf);
    RingSwitchPairs(sws);
  }

  /** The facts about `MyTopo`'s links that host lookups need. */
  lemma {:induction false} MyTopoAttachable(numHosts: nat, numSwitches: nat, ipOf: string -> string, dpidOf: string -> Dpid)
    requires numSwitches >= 1
    ensures var links, sws := MyTopoLinks(numHosts, numSwitches, ipOf, dpidOf), SwitchNodes("s", numSwitches, dpidOf);
            && HostLinks(links, HostNodes(numHosts, ipOf), sws) && SwitchLinksFrom(links, numHosts)
            && DistinctHosts(HostNodes(numHosts, ipOf)) && AllSwitches(sws)
  {
    var sws := SwitchNodes("s", numSwitches, dpidOf);
    MyTopoLaid(numHosts, numSwitches, ipOf, dpidOf);
    LaidSwitchLinks(MyTopoLinks(numHosts, numSwitches, ipOf, dpidOf), HostNodes(numHosts, ipOf), sws, Ring(sws));
  }

  /** In a network `MyTopo` builds from scratch with at least one switch,
      `get_switch_for_host` finds switch `s{i % N + 1}` for the host at
      position `i` (from 0), `h{i + 1}`: the host's own link is the only one
      attaching it. */
  lemma {:induction false} MyTopoHostSwitch(numHosts: nat, numSwitches: nat, ipOf: string -> string, dpidOf: string -> Dpid, i: nat)
    requires numSwitches >= 1 && i < numHosts
    ensures var s := Name("s", i % numSwitches + 1);
            SwitchForHost(MyTopoLinks(numHosts, numSwitches, ipOf, dpidOf), Host(Name("h", i + 1), ipOf(Name("h", i + 1))))
              == Some(Switch(s, dpidOf(s)))
    ensures var links := MyTopoLinks(numHosts, numSwitches, ipOf, dpidOf);
            forall k :: 0 <= k < |links| ==> (AttachesToSwitch(links[k], Host(Name("h", i + 1), ipOf(Name("h", i + 1)))) <==> k == i)
  {
    MyTopoAttachable(numHosts, numSwitches, ipOf, dpidOf);
    NamedAttach(MyTopoLinks(numHosts, numSwitches, ipOf, dpidOf), numHosts, ipOf, "s", numSwitches, dpidOf, i);
  }

  /** Ring link `x` of `MyTopo` joins `s{x + 1}` to `s{(x + 1) % N + 1}`. */
  lemma {:induction false} MyTopoRingAt(numSwitches: nat, dpidOf: string -> Dpid, x: nat)
    requires x < numSwitches
    ensures var ring := Ring(SwitchNodes("s", numSwitches, dpidOf));
            (ring[x].0.name, ring[x].1.name) == (Name("s", x + 1), Name("s", (x + 1) % numSwitches + 1))
  {
    var sws := SwitchNodes("s", numSwitches, dpidOf);
    var m := (x + 1) % numSwitches;
    assert 0 <= m < numSwitches;
    assert Ring(sws)[x] == (sws[x], sws[m]);
  }

  /** From position `h` on, `links` is a ring over switches `s1 .. s{n}`:
      link `h + x` joins `s{x + 1}` to `s{(x + 1) % n + 1}`. */
  ghost predicate RingLinksFrom(links: seq<Link>, h: nat, n: nat) {
    && |links| == h + n
    && (forall k :: h <= k < |links| ==> RingLink(links[k], k - h, n))
  }

  /** Link `l` is ring link `x` of `n`. */
  ghost predicate RingLink(l: Link, x: int, n: nat) {
    && n >= 1 && SwitchToSwitch(l) && x >= 0
    && l.node1.name == Name("s", x + 1) && l.node2.name == Name("s", (x + 1) % n + 1)
  }

  /** The facts about `MyTopo`'s links that its switch graph needs. */
  lemma {:induction false} MyTopoRingLaid(numHosts: nat, numSwitches: nat, ipOf: string -> string, dpidOf: string -> Dpid)
    requires numSwitches >= 1
    ensures var links, sws := MyTopoLinks(numHosts, numSwitches, ipOf, dpidOf), SwitchNodes("s", numSwitches, dpidOf);
            && HostLinks(links, HostNodes(numHosts, ipOf), sws) && DistinctHosts(HostNodes(numHosts, ipOf))
            && RingLinksFrom(links, numHosts, numSwitches)
  {
    var links, sws := MyTopoLinks(numHosts, numSwitches, ipOf, dpidOf), SwitchNodes("s", numSwitches, dpidOf);
    MyTopoLaid(numHosts, numSwitches, ipOf, dpidOf);
    forall k | numHosts <= k < |links| ensures RingLink(links[k], k - numHosts, numSwitches) {
      MyTopoRingLinkAt(links, HostNodes(numHosts, ipOf), numSwitches, dpidOf, k);
    }
  }

  /** One ring link of such a layout. */
  lemma {:induction false} MyTopoRingLinkAt(links: seq<Link>, hosts: seq<Node>, numSwitches: nat, dpidOf: string -> Dpid, k: nat)
    requires numSwitches >= 1
    requires Laid(links, hosts, SwitchNodes("s", numSwitches, dpidOf), Ring(SwitchNodes("s", numSwitches, dpidOf)))
    requires AllSwitchPairs(Ring(SwitchNodes("s", numSwitches, dpidOf)))
    requires |hosts| <= k < |links|
    ensures RingLink(links[k], k - |hosts|, numSwitches)
  {
    var ring := Ring(SwitchNodes("s", numSwitches, dpidOf));
    var x := k - |hosts|;
    assert links[|hosts| + x].node1 == ring[x].0 && links[|hosts| + x].node2 == ring[x].1;
    assert ring[x].0.Switch? && ring[x].1.Switch?;
    MyTopoRingAt(numSwitches, dpidOf, x);
  }

  /** In a network laid out as host links and then a ring, every switch edge
      is a ring edge. */
  lemma {:induction false} RingEdgeSound(links: seq<Link>, hosts: seq<Node>, sws: seq<Node>, n: nat, e: Edge)
    requires HostLinks(links, hosts, sws) && DistinctHosts(hosts) && RingLinksFrom(links, |hosts|, n)
    requires e in SwitchEdges(links)
    ensures exists j :: 1 <= j <= n && e == (Name("s", j), Name("s", j % n + 1))
  {
    var k :| 0 <= k < |links| && SwitchToSwitch(links[k]) && e == (links[k].node1.name, links[k].node2.name);
    assert k >= |hosts|;
    assert RingLink(links[k], k - |hosts|, n);
    var j := k - |hosts| + 1;
    assert e == (Name("s", j), Name("s", j % n + 1));
  }

  /** And every ring edge is a switch edge. */
  lemma {:induction false} RingEdgeComplete(links: seq<Link>, h: nat, n: nat, j: nat)
    requires RingLinksFrom(links, h, n) && 1 <= j <= n
    ensures (Name("s", j), Name("s", j % n + 1)) in SwitchEdges(links)
  {
    var k := h + j - 1;
    assert RingLink(links[k], k - h, n);
    assert (links[k].node1.name, links[k].node2.name) == (Name("s", j), Name("s", j % n + 1));
  }

  /** The switch graph `MyTopo` builds is the ring: an edge from `s{j}` to
      `s{j % N + 1}` for each j, and no other. */
  lemma {:induction false} MyTopoSwitchGraph(numHosts: nat, numSwitches: nat, ipOf: string -> string, dpidOf: string -> Dpid)
    requires numSwitches >= 1
    ensures forall e :: e in SwitchEdges(MyTopoLinks(numHosts, numSwitches, ipOf, dpidOf)) <==>
              exists j :: 1 <= j <= numSwitches && e == (Name("s", j), Name("s", j % numSwitches + 1))
  {
    MyTopoRingLaid(numHosts, numSwitches, ipOf, dpidOf);
    RingSwitchGraph(MyTopoLinks(numHosts, numSwitches, ipOf, dpidOf), HostNodes(numHosts, ipOf),
                    SwitchNodes("s", numSwitches, dpidOf), numSwitches);
  }

  /** `MyTopo` adds one link per host and one per switch, and exactly N of
      them join two switches. */
  lemma {:induction false} MyTopoLinkCount(numHosts: nat, numSwitches: nat, ipOf: string -> string, dpidOf: string -> Dpid)
    requires numSwitches >= 1
    ensures |MyTopoLinks(numHosts, numSwitches, ipOf, dpidOf)| == numHosts + numSwitches
    ensures |SwitchEdges(MyTopoLinks(numHosts, numSwitches, ipOf, dpidOf))| == numSwitches
  {
    var sws := SwitchNodes("s", numSwitches, dpidOf);
    MyTopoLaid(numHosts, numSwitches, ipOf, dpidOf);
    LaidSwitchEdgeCount(MyTopoLinks(numHosts, numSwitches, ipOf, dpidOf), HostNodes(numHosts, ipOf), sws, Ring(sws));
  }

  /** In a network laid out as host links and then a ring over `s1 .. s{n}`,
      the switch edges are exactly the ring's. */
  lemma {:induction false} RingSwitchGraph(links: seq<Link>, hosts: seq<Node>, sws: seq<Node>, n: nat)
    requires n >= 1 && HostLinks(links, hosts, sws) && DistinctHosts(hosts) && RingLinksFrom(links, |hosts|, n)
    ensures forall e :: e in SwitchEdges(links) <==> exists j :: 1 <= j <= n && e == (Name("s", j), Name("s", j % n + 1))
  {
    forall e ensures e in SwitchEdges(links) <==> exists j :: 1 <= j <= n && e == (Name("s", j), Name("s", j % n + 1)) {
      if e in SwitchEdges(links) {
        RingEdgeSound(links, hosts, sws, n, e);
      }
      if exists j :: 1 <= j <= n && e == (Name("s", j), Name("s", j % n + 1)) {
        var j :| 1 <= j <= n && e == (Name("s", j), Name("s", j % n + 1));
        RingEdgeComplete(links, |hosts|, n, j);
      }
    }
  }

  /** Each mesh pair joins a leaf to a spine. */
  lemma {:induction false} MeshSound(leaves: seq<Node>, spines: seq<Node>, m: nat)
    requires m < |Mesh(leaves, spines)|
    ensures exists a, b :: 0 <= a < |leaves| && 0 <= b < |spines| && Mesh(leaves, spines)[m] == (leaves[a], spines[b])
  {
    var init, last := leaves[..|leaves| - 1], leaves[|leaves| - 1];
    var prev := Mesh(init, spines);
    assert Mesh(leaves, spines) == prev + Row(last, spines);
    if m < |prev| {
      MeshSound(init, spines, m);
      var a, b :| 0 <= a < |init| && 0 <= b < |spines| && prev[m] == (init[a], spines[b]);
      assert init[a] == leaves[a];
    } else {
      var b := m - |prev|;
      assert Mesh(leaves, spines)[m] == Row(last, spines)[b];
      assert Mesh(leaves, spines)[m] == (leaves[|leaves| - 1], spines[b]);
    }
  }

  /** Every leaf–spine pair is in the mesh. */
  lemma {:induction false} MeshComplete(leaves: seq<Node>, spines: seq<Node>, a: nat, b: nat)
    requires a < |leaves| && b < |spines|
    ensures exists m :: 0 <= m < |Mesh(leaves, spines)| && Mesh(leaves, spines)[m] == (leaves[a], spines[b])
  {
    var init, last := leaves[..|leaves| - 1], leaves[|leaves| - 1];
    var prev := Mesh(init, spines);
    assert Mesh(leaves, spines) == prev + Row(last, spines);
    if a < |init| {
      MeshComplete(init, spines, a, b);
      var m :| 0 <= m < |prev| && prev[m] == (init[a], spines[b]);
      assert Mesh(leaves, spines)[m] == prev[m];
    } else {
      var m := |prev| + b;
      assert Mesh(leaves, spines)[m] == Row(last, spines)[b];
    }
  }

  /** The mesh joins two switches in every pair. */
  lemma {:induction false} MeshSwitchPairs(leaves: seq<Node>, spines: seq<Node>)
    requires AllSwitches(leaves) && AllSwitches(spines)
    ensures AllSwitchPairs(Mesh(leaves, spines))
  {
    forall m | 0 <= m < |Mesh(leaves, spines)| ensures Mesh(leaves, spines)[m].0.Switch? && Mesh(leaves, spines)[m].1.Switch? {
      MeshSound(leaves, spines, m);
    }
  }

  /** The mesh has one pair per leaf and spine. */
  lemma {:induction false} MeshLength(leaves: seq<Node>, spines: seq<Node>)
    ensures |Mesh(leaves, spines)| == |leaves| * |spines|
  {
    if leaves != [] {
      MeshLength(leaves[..|leaves| - 1], spines);
      assert (|leaves| - 1) * |spines| + |spines| == |leaves| * |spines|;
    }
  }

  /** The links `ComplexTopo` adds to a network built from scratch. */
  function ComplexLinks(numHosts: nat, numSwitches: int, ipOf: string -> string, dpidOf: string -> Dpid): seq<Link> {
    AddLinks([], ComplexPairs(numHosts, numSwitches, ipOf, dpidOf))
  }

  /** `ComplexTopo` lays out its host links and then the mesh, and the
      layout facts the lemmas below need hold. */
  lemma {:induction false} ComplexLaid(numHosts: nat, numSwitches: int, ipOf: string -> string, dpidOf: string -> Dpid)
    ensures var leaves, spines := Leaves(numSwitches, dpidOf), Spines(numSwitches, dpidOf);
            && Laid(ComplexLinks(numHosts, numSwitches, ipOf, dpidOf), HostNodes(numHosts, ipOf), leaves, Mesh(leaves, spines))
            && DistinctHosts(HostNodes(numHosts, ipOf)) && AllSwitches(leaves) && AllSwitchPairs(Mesh(leaves, spines))
  {
    var leaves, spines, hosts := Leaves(numSwitches, dpidOf), Spines(numSwitches, dpidOf), HostNodes(numHosts, ipOf);
    assert |leaves| >= 1;
    LaidFromScratch(hosts, leaves, Mesh(leaves, spines));
    assert Clamp(numHosts) == numHosts;
    assert ComplexLinks(numHosts, numSwitches, ipOf, dpidOf) == AddLinks([], RoundRobin(hosts, leaves) + Mesh(leaves, spines));
    HostNodesDistinct(numHosts, ipOf);
    SwitchNodesAreSwitches("s_leaf", LeafCount(numSwitches), dpidOf);
    SwitchNodesAreSwitches("s_spine", SpineCount(numSwitches), dpidOf);
    MeshSwitchPairs(leaves, spines);
  }

  /** The facts about `ComplexTopo`'s links that host lookups need. */
  lemma {:induction false} ComplexAttachable(numHosts: nat, numSwitches: int, ipOf: string -> string, dpidOf: string -> Dpid)
    ensures var links, leaves := ComplexLinks(numHosts, numSwitches, ipOf, dpidOf), Leaves(numSwitches, dpidOf);
            && HostLinks(links, HostNodes(numHosts, ipOf), leaves) && SwitchLinksFrom(links, numHosts)
            && DistinctHosts(HostNodes(numHosts, ipOf)) && AllSwitches(leaves)
  {
    var leaves, spines := Leaves(numSwitches, dpidOf), Spines(numSwitches, dpidOf);
    ComplexLaid(numHosts, numSwitches, ipOf, dpidOf);
    LaidSwitchLinks(ComplexLinks(numHosts, numSwitches, ipOf, dpidOf), HostNodes(numHosts, ipOf), leaves, Mesh(leaves, spines));
  }

  /** In a network `ComplexTopo` builds from scratch, `get_switch_for_host`
      finds leaf `s_leaf{i % L + 1}` for the host at position `i` (from 0),
      and the host's own link is its only link to any switch, so no host
      is attached to a spine. */
  lemma {:induction false} ComplexHostLeaf(numHosts: nat, numSwitches: int, ipOf: string -> string, dpidOf: string -> Dpid, i: nat)
    requires i < numHosts
    ensures var s := Name("s_leaf", i % LeafCount(numSwitches) + 1);
            SwitchForHost(ComplexLinks(numHosts, numSwitches, ipOf, dpidOf), Host(Name("h", i + 1), ipOf(Name("h", i + 1))))
              == Some(Switch(s, dpidOf(s)))
    ensures var links := ComplexLinks(numHosts, numSwitches, ipOf, dpidOf);
            forall k :: 0 <= k < |links| ==> (AttachesToSwitch(links[k], Host(Name("h", i + 1), ipOf(Name("h", i + 1)))) <==> k == i)
  {
    ComplexAttachable(numHosts, numSwitches, ipOf, dpidOf);
    NamedAttach(ComplexLinks(numHosts, numSwitches, ipOf, dpidOf), numHosts, ipOf, "s_leaf", LeafCount(numSwitches), dpidOf, i);
  }

  /** Mesh pair `x` joins switch `{lp}{a}` to switch `{sp}{b}` (from 1). */
  lemma {:induction false} MeshNames(lp: string, numLeaf: nat, sp: string, numSpine: nat, dpidOf: string -> Dpid, x: nat)
    returns (a: nat, b: nat)
    requires x < |Mesh(SwitchNodes(lp, numLeaf, dpidOf), SwitchNodes(sp, numSpine, dpidOf))|
    ensures 1 <= a <= numLeaf && 1 <= b <= numSpine
    ensures var p := Mesh(SwitchNodes(lp, numLeaf, dpidOf), SwitchNodes(sp, numSpine, dpidOf))[x];
            (p.0.name, p.1.name) == (Name(lp, a), Name(sp, b))
  {
    var leaves, spines := SwitchNodes(lp, numLeaf, dpidOf), SwitchNodes(sp, numSpine, dpidOf);
    MeshSound(leaves, spines, x);
    var i, j :| 0 <= i < |leaves| && 0 <= j < |spines| && Mesh(leaves, spines)[x] == (leaves[i], spines[j]);
    a, b := i + 1, j + 1;
  }

  /** Every switch edge of `ComplexTopo` joins a leaf to a spine, leaf first. */
  lemma {:induction false} ComplexEdgeInMesh(numHosts: nat, numSwitches: int, ipOf: string -> string, dpidOf: string -> Dpid, e: Edge)
    requires e in SwitchEdges(ComplexLinks(numHosts, numSwitches, ipOf, dpidOf))
    ensures exists a, b :: 1 <= a <= LeafCount(numSwitches) && 1 <= b <= SpineCount(numSwitches)
              && e == (Name("s_leaf", a), Name("s_spine", b))
  {
    var leaves, spines := Leaves(numSwitches, dpidOf), Spines(numSwitches, dpidOf);
    var mesh := Mesh(leaves, spines);
    ComplexLaid(numHosts, numSwitches, ipOf, dpidOf);
    LaidEdgeSound(ComplexLinks(numHosts, numSwitches, ipOf, dpidOf), HostNodes(numHosts, ipOf), leaves, mesh, e);
    var x :| 0 <= x < |mesh| && e == (mesh[x].0.name, mesh[x].1.name);
    var a, b := MeshNames("s_leaf", LeafCount(numSwitches), "s_spine", SpineCount(numSwitches), dpidOf, x);
    assert e == (Name("s_leaf", a), Name("s_spine", b));
  }

  /** In a network laid out as host links and then the mesh of switches
      `{lp}1 .. {lp}{nl}` with `{sp}1 .. {sp}{ns}`, every leaf–spine pair is
      a switch edge. */
  lemma {:induction false} MeshEdgeComplete(links: seq<Link>, hosts: seq<Node>, lp: string, nl: nat, sp: string, ns: nat,
                                            dpidOf: string -> Dpid, a: nat, b: nat)
    requires var leaves, spines := SwitchNodes(lp, nl, dpidOf), SwitchNodes(sp, ns, dpidOf);
             Laid(links, hosts, leaves, Mesh(leaves, spines)) && AllSwitchPairs(Mesh(leaves, spines))
    requires 1 <= a <= nl && 1 <= b <= ns
    ensures (Name(lp, a), Name(sp, b)) in SwitchEdges(links)
  {
    var leaves, spines := SwitchNodes(lp, nl, dpidOf), SwitchNodes(sp, ns, dpidOf);
    var mesh := Mesh(leaves, spines);
    MeshComplete(leaves, spines, a - 1, b - 1);
    var x :| 0 <= x < |mesh| && mesh[x] == (leaves[a - 1], spines[b - 1]);
    LaidEdgeComplete(links, hosts, leaves, mesh, x);
  }

  /** Every leaf–spine pair is a switch edge of `ComplexTopo`. */
  lemma {:induction false} ComplexMeshInEdges(numHosts: nat, numSwitches: int, ipOf: string -> string, dpidOf: string -> Dpid, a: nat, b: nat)
    requires 1 <= a <= LeafCount(numSwitches) && 1 <= b <= SpineCount(numSwitches)
    ensures (Name("s_leaf", a), Name("s_spine", b)) in SwitchEdges(ComplexLinks(numHosts, numSwitches, ipOf, dpidOf))
  {
    ComplexLaid(numHosts, numSwitches, ipOf, dpidOf);
    MeshEdgeComplete(ComplexLinks(numHosts, numSwitches, ipOf, dpidOf), HostNodes(numHosts, ipOf),
                     "s_leaf", LeafCount(numSwitches), "s_spine", SpineCount(numSwitches), dpidOf, a, b);
  }

  /** The switch graph `ComplexTopo` builds is the complete bipartite graph
      between leaves and spines, each edge stored leaf first. */
  lemma {:induction false} ComplexSwitchGraph(numHosts: nat, numSwitches: int, ipOf: string -> string, dpidOf: string -> Dpid)
    ensures forall e :: e in SwitchEdges(ComplexLinks(numHosts, numSwitches, ipOf, dpidOf)) <==>
              exists a, b :: 1 <= a <= LeafCount(numSwitches) && 1 <= b <= SpineCount(numSwitches)
                && e == (Name("s_leaf", a), Name("s_spine", b))
  {
    forall e ensures e in SwitchEdges(ComplexLinks(numHosts, numSwitches, ipOf, dpidOf)) <==>
                     exists a, b :: 1 <= a <= LeafCount(numSwitches) && 1 <= b <= SpineCount(numSwitches)
                       && e == (Name("s_leaf", a), Name("s_spine", b)) {
      if e in SwitchEdges(ComplexLinks(numHosts, numSwitches, ipOf, dpidOf)) {
        ComplexEdgeInMesh(numHosts, numSwitches, ipOf, dpidOf, e);
      }
      if exists a, b :: 1 <= a <= LeafCount(numSwitches) && 1 <= b <= SpineCount(numSwitches)
           && e == (Name("s_leaf", a), Name("s_spine", b)) {
        var a, b :| 1 <= a <= LeafCount(numSwitches) && 1 <= b <= SpineCount(numSwitches)
          && e == (Name("s_leaf", a), Name("s_spine", b));
        ComplexMeshInEdges(numHosts, numSwitches, ipOf, dpidOf, a, b);
      }
    }
  }

  /** `ComplexTopo` adds one link per host and one per leaf and spine, and
      exactly `num_leaf * num_spine` of them join two switches. */
  lemma {:induction false} ComplexLinkCount(numHosts: nat, numSwitches: int, ipOf: string -> string, dpidOf: string -> Dpid)
    ensures |ComplexLinks(numHosts, numSwitches, ipOf, dpidOf)| == numHosts + LeafCount(numSwitches) * SpineCount(numSwitches)
    ensures |SwitchEdges(ComplexLinks(numHosts, numSwitches, ipOf, dpidOf))| == LeafCount(numSwitches) * SpineCount(numSwitches)
  {
    var leaves, spines := Leaves(numSwitches, dpidOf), Spines(numSwitches, dpidOf);
    ComplexLaid(numHosts, numSwitches, ipOf, dpidOf);
    MeshLength(leaves, spines);
    LaidSwitchEdgeCount(ComplexLinks(numHosts, numSwitches, ipOf, dpidOf), HostNodes(numHosts, ipOf), leaves, Mesh(leaves, spines));
  }

  // ----- build_topology -----

  /** `build_topology`: "simple" is `MyTopo` with 6 hosts and 4 switches,
      "complex" is `ComplexTopo` with 8 hosts and 6 switches; anything else
      raises `ValueError` and leaves the network alone. */
  method BuildTopology(topologyType: string, net: Net, ipOf: string -> string, dpidOf: string -> Dpid)
    returns (r: Result<(), TopologyError>)
    modifies net
    ensures topologyType == "simple" ==>
              && r.Ok?
              && net.nameToNode == Register(old(net.nameToNode), MyTopoNodes(6, 4, ipOf, dpidOf))
              && net.links == AddLinks(old(net.links), MyTopoPairs(6, 4, ipOf, dpidOf))
    ensures topologyType == "complex" ==>
              && r.Ok?
              && net.nameToNode == Register(old(net.nameToNode), ComplexNodes(8, 6, ipOf, dpidOf))
              && net.links == AddLinks(old(net.links), ComplexPairs(8, 6, ipOf, dpidOf))
    ensures topologyType != "simple" && topologyType != "complex" ==>
              r == Err(UnknownTopology(topologyType)) && net.nameToNode == old(net.nameToNode) && net.links == old(net.links)
  {
    if topologyType == "simple" {
      r := BuildMyTopo(net, 6, 4, ipOf, dpidOf);
    } else if topologyType == "complex" {
      BuildComplexTopo(net, 8, 6, ipOf, dpidOf);
      r := Ok(());
    } else {
      r := Err(UnknownTopology(topologyType));
    }
  }
}
