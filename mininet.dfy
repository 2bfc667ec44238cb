/** The parts of a Mininet network that the flow and topology code touch:
    nodes tagged host or switch, the link list `net.links` with the port each
    end of a link has on its node, the name lookup `net.get`, and the
    `addSwitch` / `addHost` / `addLink` calls that grow the network. */
module Mininet {

  /** A datapath id as Mininet stores it (a hexadecimal string), or an integer. */
  datatype Dpid = HexDpid(hex: string) | IntDpid(n: int)

  /** A node: a host, with the address `IP()` returns, or an `OVSKernelSwitch`,
      with its datapath id. Object identity is modelled by value equality. */
  datatype Node = Host(name: string, ip: string) | Switch(name: string, dpid: Dpid)

  /** One entry of `net.links`: `intf1.node`, its port `node1.ports[intf1]`,
      `intf2.node` and its port. */
  datatype Link = Link(node1: Node, port1: nat, node2: Node, port2: nat)

  /** A read-only view of a network: `net.get` is `nameToNode`, `net.links` is `links`. */
  datatype Network = Network(nameToNode: map<string, Node>, links: seq<Link>)

  /** `net.get(n.name)` gives back `n`. */
  ghost predicate Registered(net: Network, n: Node) {
    n.name in net.nameToNode && net.nameToNode[n.name] == n
  }

  /** What Mininet keeps true of every network: each node is registered under
      its own name, and every node on a link is a registered node. */
  ghost predicate WellFormed(net: Network) {
    && (forall name :: name in net.nameToNode ==> net.nameToNode[name].name == name)
    && (forall i :: 0 <= i < |net.links| ==>
          Registered(net, net.links[i].node1) && Registered(net, net.links[i].node2))
  }

  /** The first port number a node hands out: 0 for a host, 1 for a switch. */
  function PortBase(n: Node): nat {
    if n.Switch? then 1 else 0
  }

  function Max(a: int, b: int): int {
    if a < b then b else a
  }

  /** The largest port `n` has on the links, or -1 when it has none. */
  function MaxPort(links: seq<Link>, n: Node): (m: int)
    ensures m >= -1
    ensures forall i :: 0 <= i < |links| && links[i].node1 == n ==> links[i].port1 <= m
    ensures forall i :: 0 <= i < |links| && links[i].node2 == n ==> links[i].port2 <= m
  {
    if links == [] then -1
    else
      var last := links[|links| - 1];
      var m1 := if last.node1 == n then last.port1 else -1;
      var m2 := if last.node2 == n then last.port2 else -1;
      Max(MaxPort(links[..|links| - 1], n), Max(m1, m2))
  }

  /** `node.newPort()`: one past the largest port in use, or the base port. */
  function NextPort(links: seq<Link>, n: Node): (p: nat)
    ensures p >= PortBase(n)
    ensures forall i :: 0 <= i < |links| && links[i].node1 == n ==> links[i].port1 != p
    ensures forall i :: 0 <= i < |links| && links[i].node2 == n ==> links[i].port2 != p
  {
    var m := MaxPort(links, n);
    if m < 0 then PortBase(n) else Max(m + 1, PortBase(n))
  }

  /** The link `addLink(a, b)` appends: each end gets its node's next port,
      both computed before either interface is attached. */
  function NewLink(links: seq<Link>, a: Node, b: Node): Link {
    Link(a, NextPort(links, a), b, NextPort(links, b))
  }

  /** The links list after `addLink` is called on each pair in turn. */
  function AddLinks(links: seq<Link>, pairs: seq<(Node, Node)>): (r: seq<Link>)
    ensures |r| == |links| + |pairs|
    ensures r[..|links|] == links
    ensures forall k :: 0 <= k < |pairs| ==>
              r[|links| + k].node1 == pairs[k].0 && r[|links| + k].node2 == pairs[k].1
  {
    if pairs == [] then links
    else
      var prev := AddLinks(links, pairs[..|pairs| - 1]);
      prev + [NewLink(prev, pairs[|pairs| - 1].0, pairs[|pairs| - 1].1)]
  }

  /** Registering each node under its name, in order. */
  function Register(m: map<string, Node>, nodes: seq<Node>): (r: map<string, Node>)
    ensures forall name :: name in r <==>
              name in m || exists k :: 0 <= k < |nodes| && nodes[k].name == name
  {
    if nodes == [] then m
    else Register(m, nodes[..|nodes| - 1])[nodes[|nodes| - 1].name := nodes[|nodes| - 1]]
  }

  /** A registered name maps to the last node registered under it. */
  lemma {:induction false} RegisterLast(m: map<string, Node>, nodes: seq<Node>, k: nat)
    requires k < |nodes|
    requires forall j :: k < j < |nodes| ==> nodes[j].name != nodes[k].name
    ensures Register(m, nodes)[nodes[k].name] == nodes[k]
  {
    if k < |nodes| - 1 {
      RegisterLast(m, nodes[..|nodes| - 1], k);
    }
  }

  /** One more `addLink` call extends the list by the link it creates. */
  lemma AddLinksSnoc(links: seq<Link>, pairs: seq<(Node, Node)>, x: (Node, Node))
    ensures AddLinks(links, pairs + [x]) == AddLinks(links, pairs) + [NewLink(AddLinks(links, pairs), x.0, x.1)]
  {
    assert (pairs + [x])[..|pairs|] == pairs;
  }

  /** One more registration. */
  lemma RegisterSnoc(m: map<string, Node>, nodes: seq<Node>, n: Node)
    ensures Register(m, nodes + [n]) == Register(m, nodes)[n.name := n]
  {
    assert (nodes + [n])[..|nodes|] == nodes;
  }

  /** Adding the links of `p` and then of `q` is adding those of `p + q`. */
  lemma {:induction false} AddLinksAppend(links: seq<Link>, p: seq<(Node, Node)>, q: seq<(Node, Node)>)
    ensures AddLinks(AddLinks(links, p), q) == AddLinks(links, p + q)
  {
    if q == [] {
      assert p + q == p;
    } else {
      var init, last := q[..|q| - 1], q[|q| - 1];
      assert q == init + [last];
      assert p + q == (p + init) + [last];
      calc {
        AddLinks(AddLinks(links, p), q);
        { AddLinksSnoc(AddLinks(links, p), init, last); }
        AddLinks(AddLinks(links, p), init) + [NewLink(AddLinks(AddLinks(links, p), init), last.0, last.1)];
        { AddLinksAppend(links, p, init); }
        AddLinks(links, p + init) + [NewLink(AddLinks(links, p + init), last.0, last.1)];
        { AddLinksSnoc(links, p + init, last); }
        AddLinks(links, p + q);
      }
    }
  }

  /** Registering `a` and then `b` is registering `a + b`. */
  lemma {:induction false} RegisterAppend(m: map<string, Node>, a: seq<Node>, b: seq<Node>)
    ensures Register(Register(m, a), b) == Register(m, a + b)
  {
    if b == [] {
      assert a + b == a;
    } else {
      var init, last := b[..|b| - 1], b[|b| - 1];
      assert b == init + [last];
      assert a + b == (a + init) + [last];
      calc {
        Register(Register(m, a), b);
        { RegisterSnoc(Register(m, a), init, last); }
        Register(Register(m, a), init)[last.name := last];
        { RegisterAppend(m, a, init); }
        Register(m, a + init)[last.name := last];
        { RegisterSnoc(m, a + init, last); }
        Register(m, a + b);
      }
    }
  }

  /** The mutable Mininet object, reduced to its name table and link list. */
  class Net {
    var nameToNode: map<string, Node>
    var links: seq<Link>

    function View(): (v: Network)
      reads this
      ensures v.nameToNode == nameToNode && v.links == links
    {
      Network(nameToNode, links)
    }

    constructor ()
      ensures nameToNode == map[] && links == []
    {
      nameToNode := map[];
      links := [];
    }

    /** `net.addSwitch(name)`: creates the switch and registers it. */
    method AddSwitch(name: string, dpid: Dpid) returns (s: Node)
      modifies this
      ensures s == Switch(name, dpid)
      ensures nameToNode == old(nameToNode)[name := s] && links == old(links)
    {
      s := Switch(name, dpid);
      nameToNode := nameToNode[name := s];
    }

    /** `net.addHost(name)`: creates the host and registers it. */
    method AddHost(name: string, ip: string) returns (h: Node)
      modifies this
      ensures h == Host(name, ip)
      ensures nameToNode == old(nameToNode)[name := h] && links == old(links)
    {
      h := Host(name, ip);
      nameToNode := nameToNode[name := h];
    }

    /** `net.addLink(a, b)`: appends a link with a fresh port on each end. */
    method AddLink(a: Node, b: Node)
      modifies this
      ensures links == old(links) + [NewLink(old(links), a, b)]
      ensures nameToNode == old(nameToNode)
    {
      links := links + [NewLink(links, a, b)];
    }
  }
}
