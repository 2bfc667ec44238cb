# containers_auto_deployment core, modelled in Dafny

This project models the sequential logic of an SDN testbed. The testbed builds a Mininet
topology, deploys service containers on its hosts, and steers host-to-host traffic
by pushing OpenFlow rules to a Ryu controller. The model covers three parts.

- **Flow manager** (`src/flow.py`, class `FlowManager`).
  - Host-to-switch and port lookups over the link list.
  - The switch-only graph and a shortest path over it.
  - `add_flow_queue`, which turns a requirement between two hosts into forward and reverse
    rules, one pair per switch on the path, and records each rule in the `active_flows`
    index under its 7-tuple key.
  - `remove_flow_queue`, which deletes the selected keys and posts a `delete` request for each.
  - The REST body `_send_flow_to_ryu` builds for each rule.
- **Legacy services** (`src/services.py`).
  - The module-global `flows` table that `setup_flow` and `remove_flow` keep symmetric with `dpctl` rules.
  - `deploy_service`'s admission rule (at most two containers per host) and its container naming.
- **Topology builders** (`src/network.py`).
  - `MyTopo.build`: hosts dealt round robin over switches, and the switches in a ring.
  - `ComplexTopo.build`: hosts on leaves, and every leaf linked to every spine.
  - `build_topology`.

Modules follow the program:
- `Wrappers`: Option and Result.
- `Text`: `str(int)` and `int(s, 16)`.
- `Mininet`: the network as the flow code sees it, and `addSwitch`/`addHost`/`addLink` with Mininet's port numbering.
- `FlowLookup`: `get_switch_for_host` and `get_port`.
- `FlowPath`: `get_path`.
- `FlowRequest`: the request body.
- `Flows`: `FlowManager`.
- `Topology`: the builders and `build_topology`.
- `Services`: the legacy flow table and `deploy_service`.

State the source changes in place is a class with fields:
- `FlowManager.activeFlows`;
- `LegacyFlows.flows`, the module-global dictionary;
- `ContainerManager.containers`, the container manager `mgr`;
- `Net`, the Mininet network being built.

Lookups, the REST body and the selection of keys to remove are functions. Loops in the
source are loops in the model:
- the per-hop loop of `add_flow_queue`;
- the deletion loop of `remove_flow_queue`;
- the graph construction in `get_path`;
- the builders' index loops.

Mininet objects enter as values:
- a node is `Host(name, ip)` or `Switch(name, dpid)`, and object identity is value equality;
- a link is `(node1, port1, node2, port2)`;
- `net.get` is a map from name to node.

Host addresses and datapath ids are Mininet's choice and are parameters: functions from
node name to value. Python can raise these exceptions on the modelled paths. The model
turns each into an outcome value with the same effect on state:
- `KeyError` from `net.get`;
- `AttributeError` on a host with no switch;
- `TypeError` from `enumerate(None)`;
- `ValueError` from `int(dpid, 16)`, raised part-way through a rule sequence;
- `ZeroDivisionError` in `MyTopo` with no switch;
- `ValueError` from `build_topology`;
- an API error from `addContainer`;
- an exception from `dpctl`.

## Model

| member | source | states |
|---|---|---|
| FlowLookup.SwitchForHost | src/flow.py:13-18 | `None` exactly when no link joins the host to a switch in either orientation; otherwise the switch at the other end of the first such link |
| FlowLookup.GetSwitchForHost | src/flow.py:11-18 | for a name `net.get` knows, `None` exactly when no link attaches that host to a switch; otherwise a switch at the other end of such a link (a name `net.get` does not know raises `KeyError`, which `AddOutcomeFor` models as `HostUnknown`) |
| FlowLookup.SwitchForHostUnique | src/flow.py:13-18 | when exactly one link attaches the host to a switch, the lookup returns that link's switch |
| FlowLookup.GetPort | src/flow.py:20-26 | `None` exactly when no link joins the two nodes; otherwise node1's own port on the first link joining them, whichever way round it is stored |
| FlowLookup.PortsFaceEachOther | src/flow.py:20-26 | if `a` has a port towards `b` then `b` has one towards `a`, and both are the two ends of one link |
| FlowPath.SwitchEdges | src/flow.py:29-33 | an edge is in the graph exactly when some link joins two switches, and it is named by the two switch names in link order |
| FlowPath.ShortestPath | src/flow.py:34-37 | a returned path is a walk from `src` to `dst` and no walk between them is shorter; `None` only when no walk from `src` reaches `dst` (including `src` not in the graph) |
| FlowPath.GetPath | src/flow.py:28-37 | the same guarantee over the graph of switch-to-switch links, which the loop builds in link order |
| FlowPath.SearchExhausted | src/flow.py:34-37 | when the breadth-first search stops without reaching `dst`, no walk from `src` ends at `dst` |
| FlowPath.LayerStep | src/flow.py:34-37 | one search round keeps the invariant: recorded walks are shortest, the frontier is the layer at distance k, and every walk of length at most k+1 ends at a recorded node |
| FlowRequest.DpidValue | src/flow.py:42 | an integer dpid is used as is; a string dpid has a value exactly when it is non-empty hexadecimal |
| FlowRequest.BuildMatch | src/flow.py:46-59 | `eth_type` is 0x0800, the addresses and `in_port` are copied; `ip_proto` is set exactly for protocols 6 and 1; `tcp_src`/`tcp_dst` exactly for protocol 6 with a truthy port |
| FlowRequest.BuildRequest | src/flow.py:39-78 | fails exactly when the dpid is an unparsable string; otherwise URL `{api}/stats/flowentry/{action}`, a table-0 permanent entry with the rule's priority, match and single output, and cookie fields that are 0 and absent only for action `remove` |
| FlowRequest.Reverse | src/flow.py:108-110 | the reverse rule swaps addresses, TCP ports and switch ports |
| FlowRequest.ReverseInvolution | src/flow.py:108-110 | reversing twice gives back the rule |
| FlowRequest.DeleteRequestMatchesAdd | src/flow.py:148-151 | the `delete` request for a stored rule has the add request's body, cookie fields included, under `/stats/flowentry/delete` |
| FlowRequest.ReverseRequestMirrors | src/flow.py:138-141 | the reverse rule's body matches the forward body's destination as source and outputs on the forward in-port |
| FlowRequest.PaddedDpidValue | src/flow.py:42 | a zero-padded lower-case hexadecimal dpid parses to the number it renders |
| Text.NatToString | src/network.py:17 | `str(n)`: at least one character, decimal digits only, last digit `n % 10`, one character exactly below 10 |
| Text.NatToStringInjective | src/network.py:16-21 | distinct numbers render differently |
| Text.PrefixedNamesDistinct | src/network.py:20-21 | `f"h{m}"` and `f"h{n}"` (any fixed prefix) differ for m ≠ n |
| Text.ParseHexOfToHex | src/flow.py:42 | `int(s, 16)` of a number's hexadecimal rendering gives back the number |
| Text.ParseHexLeadingZero | src/flow.py:42 | a leading zero does not change the parsed value |
| Mininet.NextPort | src/network.py:28 | the port `addLink` gives a node is at least its base (0 for a host, 1 for a switch) and is not yet used by that node |
| Mininet.AddLinks | src/network.py:25-32 | adding links in turn appends one link per pair, keeping order and ends |
| Mininet.Register | src/network.py:16-21 | after `addSwitch`/`addHost` in turn, a name is registered exactly when it was before or is one of the new nodes' names |
| Mininet.RegisterLast | src/network.py:26 | `net.get(name)` gives the last node registered under that name |
| Mininet.Net.AddSwitch | src/network.py:17 | registers a switch under its name and leaves the links alone |
| Mininet.Net.AddHost | src/network.py:21 | registers a host under its name and leaves the links alone |
| Mininet.Net.AddLink | src/network.py:28 | appends one link with the next free port of each end |
| Flows.ReverseKey | src/flow.py:112 | the reverse rule's key is `(sk, dst_ip, src_ip, src_port, proto, dpid, out_port)` |
| Flows.StoreAll | src/flow.py:105-142 | after storing rules in turn, a key is present exactly when it was before or is some rule's key; keys no rule names keep their value |
| Flows.StoreAllKeys | src/flow.py:105-142 | every rule stored is in the index under its key |
| Flows.StoreAllDistinct | src/flow.py:105-142 | with pairwise distinct keys every stored rule is found under its key |
| Flows.Paired | src/flow.py:134-142 | each forward rule is followed by its reverse, so twice as many rules, all on the forward rules' datapaths |
| Flows.PairedShape | src/flow.py:134-142 | position 2i is forward rule i and position 2i+1 its reverse |
| Flows.HopsShape | src/flow.py:116-142 | the multi-hop rules are 2·len(path) long, with the hop-i forward rule at 2i and its reverse at 2i+1 |
| Flows.HopRecord | src/flow.py:117-133 | each hop rule is an `add` at priority 100 on that switch's dpid with the requirement's addresses, protocol, ports and service key; the first enters by the source host's port and the last leaves by the destination host's port |
| Flows.HopsChain | src/flow.py:119-127 | along the path, hop i leaves and hop i+1 enters by the two ends of one link between the two switches |
| Flows.PairedDistinctKeys | src/flow.py:135-142 | with different addresses and a different dpid per hop, no two written rules share a key |
| Flows.MultiHopOutcome | src/flow.py:115-142 | in the multi-switch case a shortest path has at least two switches, all registered, and gives the rule sequence the outcome describes |
| Flows.MultiHopKeysDistinct | src/flow.py:115-142 | along a shortest path with distinct dpids, the multi-hop rules have distinct keys |
| Flows.ShortestPathSimple | src/flow.py:115-116 | a shortest path visits no switch twice |
| Flows.InstalledRulesPresent | src/flow.py:98-142 | after an add, every rule written is in the index under its key (distinct dpids and addresses assumed) |
| Flows.PairingSides | src/flow.py:129-142 | every even rule carries the requirement's service key and addresses, and every odd rule is the reverse of the one before |
| Flows.InstalledDirections | src/flow.py:98-142 | in both the same-switch and the multi-hop case the written rules come in forward/reverse pairs of the requirement |
| Flows.Selected | src/flow.py:145-146 | the key filter of `remove_flow_queue`: service key and both addresses equal, protocol and destination port compared only when given, `src_port` never; its effect is stated by `Flows.Remaining` and `Flows.RemoveNarrowing` |
| Flows.Remaining | src/flow.py:144-152 | exactly the selected keys are gone (service key, addresses, and protocol/dst port when given; `src_port` ignored), all other rules unchanged |
| Flows.RemoveIdempotent | src/flow.py:144-152 | a second removal with the same filter removes nothing |
| Flows.RemoveNarrowing | src/flow.py:145-146 | giving protocol or dst port can only remove fewer keys |
| Flows.RemovePairsByAddress | src/flow.py:145-146 | removing by (service key, src, dst) drops the forward rules of a requirement and keeps its reverse rules unchanged |
| Flows.AddThenRemoveLeavesReverse | src/flow.py:88-152 | assuming different source and destination addresses and distinct dpids on distinct switches: after `add_flow_queue` then `remove_flow_queue` with the same service and addresses, the forward rules are gone and each reverse rule remains with the value written for it |
| Flows.RemovePairKeys | src/flow.py:145-146 | removing by (service key, src, dst) from an index holding a requirement's paired keys drops the forward keys and keeps the reverse keys with their values |
| Flows.AddThenRemoveKeepsReverseKeys | src/flow.py:88-152 | with different addresses and no assumption on dpids: after the add and the removal, every forward key written is gone and every reverse key written remains, with what the stores left under it |
| Flows.SameAddressSelected | src/flow.py:145-146 | rules in forward/reverse pairs between one address and itself are all selected by that address pair |
| Flows.AddThenRemoveSameAddress | src/flow.py:88-152 | when source and destination address are equal, the removal takes every rule the add wrote, reverse rules included |
| Flows.DropAllContents | src/flow.py:147-152 | deleting keys one by one leaves exactly the other keys with their values |
| Flows.DropSelected | src/flow.py:144-152 | deleting each selected key once yields the filtered index, which stays consistent |
| Flows.DeleteRequest | src/flow.py:148-150 | the request sent for a stored rule goes to `/stats/flowentry/delete`, with cookie 0 and the rule's dpid, priority, match and output port |
| Flows.DeleteRequestsAt | src/flow.py:147-151 | one delete request per key, the j-th for the j-th key's stored rule |
| Flows.KeyList | src/flow.py:145-146 | the key list holds each selected key exactly once |
| Flows.ProgressStep | src/flow.py:134-142 | posting and storing one more rule extends the written prefix by that rule and its request |
| Flows.FlowManager.constructor | src/flow.py:7-9 | empty index, the given API URL (default `http://localhost:8080`) |
| Flows.FlowManager.Write | src/flow.py:134-135 | builds the request; the rule is stored under its key unless the dpid does not parse |
| Flows.FlowManager.AddFlowQueue | src/flow.py:88-142 | the outcome is the one the source reaches (unknown host, unattached host, no path, or the rule sequence for the same-switch or multi-hop case); without rules nothing changes, otherwise a prefix of the rules is stored and posted in order, all of them unless a dpid does not parse |
| Flows.FlowManager.WriteNext | src/flow.py:134-135 | one rule stored and its request recorded exactly when its dpid parses; nothing changes otherwise |
| Flows.FlowManager.WritePair | src/flow.py:134-142 | a forward rule and its reverse stored in turn when the dpid parses |
| Flows.FlowManager.InstallSameSwitch | src/flow.py:98-113 | the two priority-200 rules are written in order (or none when the dpid does not parse) |
| Flows.FlowManager.InstallPath | src/flow.py:115-142 | the multi-hop rules are written in order, stopping at the first hop whose dpid does not parse |
| Flows.FlowManager.WriteHops | src/flow.py:116-142 | the per-hop loop writes forward then reverse rule for each switch in path order |
| Flows.FlowManager.RemoveFlowQueue | src/flow.py:144-152 | the index becomes the filtered index; one delete request is posted per selected key, each selected key once, for the rule stored under it |
| Services.AddRule | src/services.py:64-65 | the `add-flow` text `priority=100,ip,nw_src=…,nw_dst=…,actions=output:…`; its use is stated by `Services.AfterSetup` and `Services.LegacyFlows.SetupFlow` |
| Services.DelMatch | src/services.py:83-84 | the `del-flows` match `ip,nw_src=…,nw_dst=…`; its use is stated by `Services.LegacyFlows.RemoveFlow` |
| Services.AfterSetup | src/services.py:64-72 | for a new pair both directions are present with the forward text using `out_port` and the reverse text using `in_port`, other keys untouched; an existing pair leaves the table as it was |
| Services.AfterRemove | src/services.py:83-91 | for a present pair neither direction remains, other keys untouched; an absent pair leaves the table as it was |
| Services.SetupKeepsSymmetric | src/services.py:71-72 | `setup_flow` keeps "(a,b) present exactly when (b,a) is" |
| Services.RemoveKeepsSymmetric | src/services.py:90-91 | `remove_flow` keeps the symmetry |
| Services.SetupIdempotent | src/services.py:68-75 | a second `setup_flow` of the same pair changes nothing, whatever ports it is given |
| Services.RemoveUndoesSetup | src/services.py:68-91 | on a symmetric table, `remove_flow` right after a `setup_flow` of a new pair restores the table |
| Services.SetupAfterRemove | src/services.py:68-91 | on a symmetric table, `setup_flow` right after `remove_flow` makes the pair present again, with the reverse text for the new in-port |
| Services.LegacyFlows.SetupFlow | src/services.py:60-77 | no `dpctl` call and no change for a known pair; otherwise the forward then the reverse `add-flow`, the second skipped when the first raises, and both keys recorded only when neither raised |
| Services.LegacyFlows.RemoveFlow | src/services.py:79-96 | no call and no change for an unknown pair; otherwise `del-flows` forward then reverse, and both keys dropped only when neither raised |
| Services.ContainerName | src/services.py:33-35 | the name `"{service}_{host}_{k+1}"` ends in an underscore and the number k+1 |
| Services.TrailingNumberUnique | src/services.py:33-35 | such a name determines its trailing number |
| Services.NameReusedAfterRemoval | src/services.py:33-41 | after removing the first of two containers, the host keeps one container whose name is exactly the name `deploy_service` generates next, the case the 409 branch reports |
| Services.ContainerNameFresh | src/services.py:28-38 | on a host whose containers are numbered 1..k in order, the new name differs from every container's name there |
| Services.NumberedAppend | src/services.py:33-38 | appending the new container keeps the host's containers numbered in order |
| Services.ContainerManager.Running | src/services.py:28 | a host's containers, or none for an unknown host |
| Services.ContainerManager.DeployService | src/services.py:24-44 | a host with two or more containers is refused and nothing changes; otherwise the container is appended under its generated name, or on an API error (409 reported as a conflict) nothing changes; a successful deploy leaves at most two on the host; a manager with at most two per host, numbered in order, stays so; and a deployed name is new on a host whose containers are numbered in order |
| Topology.SwitchNodes | src/network.py:16-18 | the i-th switch is `{prefix}{i+1}` with its dpid |
| Topology.HostNodes | src/network.py:20-21 | the i-th host is `h{i+1}` with its address |
| Topology.HostNodesDistinct | src/network.py:20-21 | the hosts are pairwise different |
| Topology.HostLookup | src/network.py:26 | `net.get(f"h{i}")` after registration gives host `h{i}` |
| Topology.AddSwitches | src/network.py:16-18 | the switch loop registers `{prefix}1 .. {prefix}{n}` in order, adding no link |
| Topology.AddHosts | src/network.py:20-21 | the host loop registers `h1 .. h{n}` in order, adding no link |
| Topology.MyTopoHostLinks | src/network.py:25-28 | host i (from 0) is linked to switch `i mod N`, host end first, in host order |
| Topology.RingLinks | src/network.py:31-32 | switch i is linked to switch `(i+1) mod N`, in order |
| Topology.BuildMyTopo | src/network.py:13-32 | registers the switches then the hosts; fails when there are hosts and no switch, adding no link: `(i - 1) % num_switches` divides by zero for 0 switches, and for a negative count the switch list is empty and indexing it raises `IndexError`; otherwise adds the host links then the ring |
| Topology.MyTopoHostSwitch | src/network.py:25-28 | in a network `MyTopo` built from scratch, `get_switch_for_host(h{i+1})` is `s{i mod N + 1}`, and the host's own link is its only link to any switch |
| Topology.MyTopoSwitchGraph | src/network.py:31-32 | `MyTopo`'s switch graph has exactly the edges `(s{j}, s{j mod N + 1})` for j = 1..N |
| Topology.MyTopoLinkCount | src/network.py:25-32 | `MyTopo` adds M + N links, exactly N of them between switches |
| Topology.SpineLeafSplit | src/network.py:41-50 | spines plus leaves is the raised switch count (at least 2, unchanged from 2 up), with at least one spine and at most one more leaf than spines |
| Topology.ComplexHostLinks | src/network.py:69-71 | host i (from 0) is linked to leaf `i mod num_leaf`, in order |
| Topology.MeshLinks | src/network.py:74-76 | each leaf in turn is linked to every spine in turn |
| Topology.BuildComplexTopo | src/network.py:39-76 | registers spines, leaves, then hosts; adds the host links then the full leaf-spine mesh |
| Topology.ComplexHostLeaf | src/network.py:69-71 | in a network `ComplexTopo` built from scratch, `get_switch_for_host(h{i+1})` is leaf `s_leaf{i mod num_leaf + 1}`, and the host's own link is its only link to any switch, so no host attaches to a spine |
| Topology.ComplexSwitchGraph | src/network.py:73-76 | `ComplexTopo`'s switch graph has exactly the edges `(s_leaf{a}, s_spine{b})`, so no leaf-leaf and no spine-spine edge |
| Topology.ComplexLinkCount | src/network.py:68-76 | `ComplexTopo` adds one link per host plus num_leaf × num_spine links, and exactly the latter join two switches |
| Topology.MeshLength | src/network.py:74-76 | the mesh has num_leaf × num_spine pairs |
| Topology.BuildTopology | src/network.py:78-93 | `"simple"` builds `MyTopo(6, 4)`, `"complex"` builds `ComplexTopo(8, 6)`, anything else is an error and leaves the network unchanged |

## Left out

- HTTP, JSON and printing. The model does not post requests: it returns the request bodies and URLs. The source catches `RequestException` after the post, so the index update never depends on the reply and the model needs no reply.
- FlowPath.ShortestPath: promises some shortest path, not the one networkx's tie-break picks.
- Text.ParseHex: accepts only non-empty strings of hexadecimal digits. Python's `int(s, 16)` also accepts a sign, a `0x` prefix, underscores and surrounding spaces. Mininet's dpids are plain hexadecimal.
- Flows.FlowManager.RemoveFlowQueue: visits the selected keys in an order the model leaves open. Python iterates the dictionary in insertion order.
- Flows.InstalledRulesPresent: assumes distinct datapath ids on distinct switches, and different source and destination addresses. With Mininet's default dpid (the digits of the name), `s_spine1` and `s_leaf1` would share a dpid. Then two rules could share a key and the later one would overwrite the earlier. Mininet's dpid rule is not part of this model.
- Flows.AddThenRemoveLeavesReverse: assumes distinct datapath ids and different addresses, as Flows.InstalledRulesPresent does, and fails without them on `ComplexTopo` with Mininet's default dpids. Without distinct dpids, Flows.AddThenRemoveKeepsReverseKeys still shows the forward keys gone and the reverse keys kept; a reverse key may then hold a later rule that shared its key. With equal addresses, Flows.AddThenRemoveSameAddress shows that every rule goes.
- Host addresses (`IP()`) and datapath ids: Mininet assigns them. Here they are parameters, as functions of the node name.
- Link options (`TCLink`, bandwidth, delay) do not affect the link list and are not modelled.
- Ports and counts are unbounded naturals. A negative count passed to a builder is treated as 0, as Python's `range` does.
- `get_active_flows` returns the dictionary. Here that is the public field `FlowManager.activeFlows`.
- The warning `ComplexTopo` prints when it raises the switch count.
- Services.ContainerManager.DeployService: assumes `addContainer` adds nothing when it raises. A deployed name is promised new on its host only while the host's containers are numbered 1..k in order. Removing a container breaks that: a host with `x_1` and `x_2` that loses `x_1` keeps `[x_2]`, and the next deploy picks `x_2` again (Services.NameReusedAfterRemoval). `addContainer` then reports the conflict, which is the 409 branch.
- `stop_service` is not modelled, because it depends on the foreign `removeContainer`. Its flow sweep tests `service_name in flow` on keys that are (source, destination) address pairs. That test holds only when a service name equals an address, so normally the sweep calls nothing and the container's removal is all that happens. When it does match, it calls `remove_flow` with two arguments against a three-parameter signature. That raises `TypeError`, which the `except ValueError` does not catch.
- `setup_docker_images` and `cleanup_containers` (Docker client calls) and `start_ryu_controller` (a subprocess and a polling loop) are left out.
- The Ryu application `src/controller.py`, the tkinter GUI, the scripts and the interactive `main` are not part of this model. The same goes for the scheduler they refer to, which no shown file defines.
