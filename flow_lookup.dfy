/** `FlowManager.get_switch_for_host` and `FlowManager.get_port`: first-match
    searches over `net.links`, which return at the first link that fits. */
module FlowLookup {
  import opened Wrappers
  import opened Mininet

  /** Link `l` joins `host` to a switch, with the host at either end. */
  predicate AttachesToSwitch(l: Link, host: Node) {
    (l.node1 == host && l.node2.Switch?) || (l.node2 == host && l.node1.Switch?)
  }

  /** The switch at the other end of such a link (the first orientation wins). */
  function SwitchEnd(l: Link, host: Node): (s: Node)
    requires AttachesToSwitch(l, host)
    ensures s.Switch?
    ensures s == l.node1 || s == l.node2
  {
    if l.node1 == host && l.node2.Switch? then l.node2 else l.node1
  }

  /** The switch a host hangs off: the switch end of the first link that
      attaches the host to a switch, or `None` when no link does. */
  function SwitchForHost(links: seq<Link>, host: Node): (r: Option<Node>)
    ensures r.None? <==> forall i :: 0 <= i < |links| ==> !AttachesToSwitch(links[i], host)
    ensures r.Some? ==>
      exists i :: 0 <= i < |links| && AttachesToSwitch(links[i], host)
        && r.value == SwitchEnd(links[i], host)
        && forall j :: 0 <= j < i ==> !AttachesToSwitch(links[j], host)
  {
    if links == [] then None
    else if AttachesToSwitch(links[0], host) then Some(SwitchEnd(links[0], host))
    else
      var r := SwitchForHost(links[1..], host);
      assert forall i :: 1 <= i < |links| ==> links[i] == links[1..][i - 1];
      r
  }

  /** When exactly one link attaches a host to a switch, the lookup finds
      that link's switch. */
  lemma SwitchForHostUnique(links: seq<Link>, host: Node, idx: nat)
    requires idx < |links| && AttachesToSwitch(links[idx], host)
    requires forall k :: 0 <= k < |links| && k != idx ==> !AttachesToSwitch(links[k], host)
    ensures SwitchForHost(links, host) == Some(SwitchEnd(links[idx], host))
  {
  }

  /** `get_switch_for_host(net, name)`: the lookup for the node `net.get(name)`
      returns; an unknown name raises `KeyError`, which callers never cause. */
  function GetSwitchForHost(net: Network, hostName: string): (r: Option<Node>)
    requires hostName in net.nameToNode
    ensures r.None? <==> forall i :: 0 <= i < |net.links| ==> !AttachesToSwitch(net.links[i], net.nameToNode[hostName])
    ensures r.Some? ==> r.value.Switch?
    ensures r.Some? ==>
      exists i :: 0 <= i < |net.links| && AttachesToSwitch(net.links[i], net.nameToNode[hostName])
                  && (r.value == net.links[i].node1 || r.value == net.links[i].node2)
  {
    SwitchForHost(net.links, net.nameToNode[hostName])
  }

  /** Link `l` joins `a` and `b`, whichever way round it is stored. */
  predicate Joins(l: Link, a: Node, b: Node) {
    (l.node1 == a && l.node2 == b) || (l.node2 == a && l.node1 == b)
  }

  /** `a`'s own port on a link joining `a` and `b`. */
  function PortOn(l: Link, a: Node, b: Node): (p: nat)
    requires Joins(l, a, b)
    ensures l.node1 == a ==> p == l.port1
    ensures l.node1 != a ==> l.node2 == a && p == l.port2
  {
    if l.node1 == a && l.node2 == b then l.port1 else l.port2
  }

  /** `get_port(net, a, b)`: `a`'s port on the first link joining `a` and `b`,
      or `None` when they are not adjacent. */
  function GetPort(links: seq<Link>, a: Node, b: Node): (r: Option<nat>)
    ensures r.None? <==> forall i :: 0 <= i < |links| ==> !Joins(links[i], a, b)
    ensures r.Some? ==>
      exists i :: 0 <= i < |links| && Joins(links[i], a, b)
        && r.value == PortOn(links[i], a, b)
        && forall j :: 0 <= j < i ==> !Joins(links[j], a, b)
  {
    if links == [] then None
    else if Joins(links[0], a, b) then Some(PortOn(links[0], a, b))
    else
      var r := GetPort(links[1..], a, b);
      assert forall i :: 1 <= i < |links| ==> links[i] == links[1..][i - 1];
      r
  }

  /** The two ports `get_port` reports for a pair of adjacent nodes, one asked
      from each side, are the two ends of one and the same link; so the port a
      path leaves one switch by and the port it enters the next by face each
      other. */
  lemma {:induction false} PortsFaceEachOther(links: seq<Link>, a: Node, b: Node)
    requires GetPort(links, a, b).Some?
    ensures GetPort(links, b, a).Some?
    ensures exists i :: 0 <= i < |links| && Joins(links[i], a, b)
              && GetPort(links, a, b).value == PortOn(links[i], a, b)
              && GetPort(links, b, a).value == PortOn(links[i], b, a)
  {
    if Joins(links[0], a, b) {
      assert Joins(links[0], b, a);
    } else {
      assert !Joins(links[0], b, a);
      PortsFaceEachOther(links[1..], a, b);
      var i :| 0 <= i < |links[1..]| && Joins(links[1..][i], a, b)
              && GetPort(links[1..], a, b).value == PortOn(links[1..][i], a, b)
              && GetPort(links[1..], b, a).value == PortOn(links[1..][i], b, a);
      assert links[i + 1] == links[1..][i];
    }
  }
}
