/** The rule records `FlowManager` handles (the `flow_data` dictionaries) and
    the REST request body `_send_flow_to_ryu` builds from one. The HTTP POST,
    its JSON encoding and the log lines are not modelled; the source catches
    every request error, so nothing that follows depends on the outcome. */
module FlowRequest {
  import opened Wrappers
  import opened Text
  import opened Mininet

  /** A port as `get_port` reports it: a number, or `None` for no link. */
  type Port = Option<nat>

  /** One `flow_data` dictionary. Optional TCP ports are `None` when not given. */
  datatype FlowParams = FlowParams(
    action: string, dpid: Dpid, srcIp: string, dstIp: string, protocol: int,
    srcPort: Option<int>, dstPort: Option<int>, inPort: Port, outPort: Port,
    priority: int, serviceKey: string)

  /** The `match` object of the request. A field the source leaves out is `None`. */
  datatype MatchFields = MatchFields(
    ethType: int, ipv4Src: string, ipv4Dst: string, inPort: Port,
    ipProto: Option<int>, tcpSrc: Option<int>, tcpDst: Option<int>)

  datatype OutputAction = Output(port: Port)

  /** The `flow_entry` object; `cookie` and `cookieMask` are `None` once popped. */
  datatype FlowEntry = FlowEntry(
    dpid: int, cookie: Option<int>, cookieMask: Option<int>, tableId: int,
    idleTimeout: int, hardTimeout: int, priority: int, flags: int,
    matchFields: MatchFields, actions: seq<OutputAction>)

  datatype Request = Request(url: string, body: FlowEntry)

  /** `int(dpid, 16)` raised `ValueError` on a datapath id that is not hexadecimal. */
  datatype RequestError = InvalidDpid(hex: string)

  const EthTypeIpv4 := 0x0800
  const ProtoTcp := 6
  const ProtoIcmp := 1

  /** The value of a datapath id: a string is parsed as hexadecimal. */
  function DpidValue(d: Dpid): (r: Option<int>)
    ensures d.IntDpid? ==> r == Some(d.n)
    ensures d.HexDpid? ==> (r.Some? <==> ParseHex(d.hex).Some?)
  {
    match d
    case IntDpid(n) => Some(n)
    case HexDpid(s) => match ParseHex(s) case None => None case Some(v) => Some(v)
  }

  predicate ValidDpid(d: Dpid) {
    DpidValue(d).Some?
  }

  /** Python truthiness of an optional port: neither `None` nor 0. */
  predicate Truthy(p: Option<int>) {
    p.Some? && p.value != 0
  }

  /** The rule as seen from the other direction: the source's `rev_flow_params`,
      with addresses, TCP ports and switch ports exchanged. */
  function Reverse(f: FlowParams): (r: FlowParams)
    ensures r.srcIp == f.dstIp && r.dstIp == f.srcIp
    ensures r.srcPort == f.dstPort && r.dstPort == f.srcPort
    ensures r.inPort == f.outPort && r.outPort == f.inPort
  {
    f.(srcIp := f.dstIp, dstIp := f.srcIp, srcPort := f.dstPort, dstPort := f.srcPort,
       inPort := f.outPort, outPort := f.inPort)
  }

  /** Reversing twice gives the rule back. */
  lemma ReverseInvolution(f: FlowParams)
    ensures Reverse(Reverse(f)) == f
  {
  }

  /** The `match` object: always IPv4 with both addresses and the in-port; TCP
      adds its protocol number and whichever TCP ports are truthy; ICMP adds
      only its protocol number; any other protocol adds nothing. */
  function BuildMatch(f: FlowParams): (m: MatchFields)
    ensures m.ethType == EthTypeIpv4
    ensures m.ipv4Src == f.srcIp && m.ipv4Dst == f.dstIp && m.inPort == f.inPort
    ensures m.ipProto.Some? <==> f.protocol == ProtoTcp || f.protocol == ProtoIcmp
    ensures m.ipProto.Some? ==> m.ipProto.value == f.protocol
    ensures m.tcpSrc.Some? <==> f.protocol == ProtoTcp && Truthy(f.srcPort)
    ensures m.tcpDst.Some? <==> f.protocol == ProtoTcp && Truthy(f.dstPort)
    ensures m.tcpSrc.Some? ==> m.tcpSrc == f.srcPort
    ensures m.tcpDst.Some? ==> m.tcpDst == f.dstPort
  {
    var base := MatchFields(EthTypeIpv4, f.srcIp, f.dstIp, f.inPort, None, None, None);
    if f.protocol == ProtoTcp then
      base.(ipProto := Some(ProtoTcp),
            tcpSrc := if Truthy(f.srcPort) then f.srcPort else None,
            tcpDst := if Truthy(f.dstPort) then f.dstPort else None)
    else if f.protocol == ProtoIcmp then base.(ipProto := Some(ProtoIcmp))
    else base
  }

  /** `_send_flow_to_ryu`'s request: the endpoint `/stats/flowentry/{action}`
      under the API root, and a persistent (zero timeouts) table-0 entry with
      the rule's priority, match and single output action; cookie fields are
      dropped only for the action `remove`. */
  function BuildRequest(apiUrl: string, f: FlowParams): (r: Result<Request, RequestError>)
    ensures r.Ok? <==> ValidDpid(f.dpid)
    ensures r.Err? ==> f.dpid.HexDpid? && r.error == InvalidDpid(f.dpid.hex)
    ensures r.Ok? ==> r.value.url == apiUrl + "/stats/flowentry/" + f.action
    ensures r.Ok? ==> Some(r.value.body.dpid) == DpidValue(f.dpid)
    ensures r.Ok? ==> (r.value.body.cookie.None? <==> f.action == "remove")
    ensures r.Ok? ==> r.value.body.cookie == r.value.body.cookieMask
    ensures r.Ok? ==> r.value.body.cookie.Some? ==> r.value.body.cookie.value == 0
    ensures r.Ok? ==> r.value.body.tableId == 0 && r.value.body.flags == 0
    ensures r.Ok? ==> r.value.body.idleTimeout == 0 && r.value.body.hardTimeout == 0
    ensures r.Ok? ==> r.value.body.priority == f.priority
    ensures r.Ok? ==> r.value.body.matchFields == BuildMatch(f)
    ensures r.Ok? ==> r.value.body.actions == [Output(f.outPort)]
  {
    match DpidValue(f.dpid)
    case None => Err(InvalidDpid(f.dpid.hex))
    case Some(dpid) =>
      var cookie := if f.action == "remove" then None else Some(0);
      var entry := FlowEntry(dpid, cookie, cookie, 0, 0, 0, f.priority, 0, BuildMatch(f), [Output(f.outPort)]);
      Ok(Request(apiUrl + "/stats/flowentry/" + f.action, entry))
  }

  /** The `delete` request `remove_flow_queue` issues for a stored rule carries
      exactly the body of that rule's `add` request, cookie included, so it
      names the entry that was installed; only the endpoint differs. */
  lemma DeleteRequestMatchesAdd(apiUrl: string, f: FlowParams)
    requires f.action == "add" && ValidDpid(f.dpid)
    ensures BuildRequest(apiUrl, f.(action := "delete")).Ok?
    ensures BuildRequest(apiUrl, f.(action := "delete")).value.body == BuildRequest(apiUrl, f).value.body
    ensures BuildRequest(apiUrl, f.(action := "delete")).value.body.cookie == Some(0)
    ensures BuildRequest(apiUrl, f.(action := "delete")).value.url == apiUrl + "/stats/flowentry/delete"
  {
  }

  /** The reverse rule matches what the forward rule sends out: its in-port is
      the forward rule's output port, its addresses are exchanged and, for TCP,
      so are its port fields; it outputs on the forward rule's in-port. */
  lemma ReverseRequestMirrors(apiUrl: string, f: FlowParams)
    requires ValidDpid(f.dpid)
    ensures BuildRequest(apiUrl, Reverse(f)).Ok?
    ensures var fwd := BuildRequest(apiUrl, f).value.body;
            var rev := BuildRequest(apiUrl, Reverse(f)).value.body;
            && rev.matchFields.inPort == f.outPort && rev.actions == [Output(f.inPort)]
            && rev.matchFields.ipv4Src == fwd.matchFields.ipv4Dst
            && rev.matchFields.ipv4Dst == fwd.matchFields.ipv4Src
            && rev.matchFields.tcpSrc == fwd.matchFields.tcpDst
            && rev.matchFields.tcpDst == fwd.matchFields.tcpSrc
            && rev.matchFields.ipProto == fwd.matchFields.ipProto
            && rev.dpid == fwd.dpid && rev.priority == fwd.priority
  {
  }

  /** A datapath id in Mininet's form (hexadecimal, any number of leading
      zeros) is accepted and denotes the number it renders. */
  lemma {:induction false} PaddedDpidValue(n: nat, zeros: nat)
    ensures DpidValue(HexDpid(Zeros(zeros) + ToHex(n))) == Some(n)
  {
    if zeros == 0 {
      assert Zeros(0) + ToHex(n) == ToHex(n);
      ParseHexOfToHex(n);
    } else {
      PaddedDpidValue(n, zeros - 1);
      assert Zeros(zeros) + ToHex(n) == "0" + (Zeros(zeros - 1) + ToHex(n));
      ParseHexLeadingZero(Zeros(zeros - 1) + ToHex(n));
    }
  }

  function Zeros(k: nat): string {
    if k == 0 then "" else "0" + Zeros(k - 1)
  }
}
