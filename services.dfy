/** The service module: the legacy symmetric `flows` table that `setup_flow`
    and `remove_flow` keep with `dpctl` rules, and `deploy_service`, which
    admits at most two containers per host and numbers their names. */
module Services {
  import opened Wrappers
  import opened Text

  // ---------------------------------------------------------------------
  // The legacy flow table
  // ---------------------------------------------------------------------

  /** The module-global `flows`: (src_ip, dst_ip) to the rule text installed for it. */
  type FlowTable = map<(string, string), string>

  /** The `add-flow` rule text sending `src` to `dst` traffic out of `port`. */
  function AddRule(src: string, dst: string, port: nat): string {
    "priority=100,ip,nw_src=" + src + ",nw_dst=" + dst + ",actions=output:" + NatToString(port)
  }

  /** The `del-flows` match text for `src` to `dst` traffic. */
  function DelMatch(src: string, dst: string): string {
    "ip,nw_src=" + src + ",nw_dst=" + dst
  }

  /** One `switch.dpctl(command, rule)` call. */
  datatype Dpctl = Dpctl(command: string, rule: string)

  /** How the switch answers the two `dpctl` calls of one operation: both
      return, the first raises (the second is never made), or the second raises. */
  datatype Response = BothOk | FirstRaises | SecondRaises

  /** Every pair is present exactly when its reverse is. */
  ghost predicate Symmetric(t: FlowTable) {
    forall k :: k in t ==> (k.1, k.0) in t
  }

  /** The table after a `setup_flow` whose `dpctl` calls both return. */
  function AfterSetup(t: FlowTable, src: string, dst: string, inPort: nat, outPort: nat): (r: FlowTable)
    ensures (src, dst) in r
    ensures (src, dst) !in t ==> (dst, src) in r
    ensures (src, dst) !in t ==> forall k :: k in r <==> k in t || k == (src, dst) || k == (dst, src)
    ensures forall k :: k in t ==> k in r
    ensures forall k :: k in t && k != (src, dst) && k != (dst, src) ==> r[k] == t[k]
    ensures (src, dst) in t ==> r == t
    ensures (src, dst) !in t ==> r[(dst, src)] == AddRule(dst, src, inPort)
    ensures (src, dst) !in t && src != dst ==> r[(src, dst)] == AddRule(src, dst, outPort)
  {
    if (src, dst) in t then t
    else t[(src, dst) := AddRule(src, dst, outPort)][(dst, src) := AddRule(dst, src, inPort)]
  }

  /** The table after a `remove_flow` whose `dpctl` calls both return. */
  function AfterRemove(t: FlowTable, src: string, dst: string): (r: FlowTable)
    ensures (src, dst) in t ==> (src, dst) !in r && (dst, src) !in r
    ensures (src, dst) !in t ==> r == t
    ensures forall k :: k in r <==> k in t && ((src, dst) in t ==> k != (src, dst) && k != (dst, src))
    ensures forall k :: k in r ==> r[k] == t[k]
  {
    if (src, dst) in t then t - {(src, dst), (dst, src)} else t
  }

  /** `setup_flow` keeps the table symmetric. */
  lemma SetupKeepsSymmetric(t: FlowTable, src: string, dst: string, inPort: nat, outPort: nat)
    requires Symmetric(t)
    ensures Symmetric(AfterSetup(t, src, dst, inPort, outPort))
  {
  }

  /** `remove_flow` keeps the table symmetric: the pair and its reverse go together. */
  lemma RemoveKeepsSymmetric(t: FlowTable, src: string, dst: string)
    requires Symmetric(t)
    ensures Symmetric(AfterRemove(t, src, dst))
  {
  }

  /** A second `setup_flow` for the same pair changes nothing. */
  lemma SetupIdempotent(t: FlowTable, src: string, dst: string, inPort: nat, outPort: nat,
                        inPort': nat, outPort': nat)
    ensures var t' := AfterSetup(t, src, dst, inPort, outPort);
            AfterSetup(t', src, dst, inPort', outPort') == t'
  {
  }

  /** On a symmetric table, removing a pair just set up restores the table. */
  lemma RemoveUndoesSetup(t: FlowTable, src: string, dst: string, inPort: nat, outPort: nat)
    requires Symmetric(t) && (src, dst) !in t
    ensures AfterRemove(AfterSetup(t, src, dst, inPort, outPort), src, dst) == t
  {
    var r := AfterRemove(AfterSetup(t, src, dst, inPort, outPort), src, dst);
    assert (dst, src) !in t;
    assert forall k :: k in r <==> k in t;
    assert forall k :: k in r ==> r[k] == t[k];
  }

  /** On a symmetric table, setting up a pair just removed brings back its keys,
      with the rule texts for the given ports. */
  lemma SetupAfterRemove(t: FlowTable, src: string, dst: string, inPort: nat, outPort: nat)
    requires Symmetric(t)
    ensures var r := AfterSetup(AfterRemove(t, src, dst), src, dst, inPort, outPort);
            && (forall k :: k in r <==> k in t || k == (src, dst) || k == (dst, src))
            && r[(dst, src)] == AddRule(dst, src, inPort)
  {
  }

  /** The global `flows` dictionary. */
  class LegacyFlows {
    var flows: FlowTable

    constructor()
      ensures flows == map[]
    {
      flows := map[];
    }

    /** `setup_flow`: if the pair is new, add the forward rule and then the
        reverse rule, and record both only when neither call raised. Returns
        the `dpctl` calls made, in order. */
    method SetupFlow(src: string, dst: string, inPort: nat, outPort: nat, response: Response)
      returns (calls: seq<Dpctl>)
      modifies this
      ensures (src, dst) in old(flows) ==> calls == [] && flows == old(flows)
      ensures (src, dst) !in old(flows) ==>
        calls == [Dpctl("add-flow", AddRule(src, dst, outPort))]
                 + (if response == FirstRaises then [] else [Dpctl("add-flow", AddRule(dst, src, inPort))])
      ensures flows == if response == BothOk then AfterSetup(old(flows), src, dst, inPort, outPort) else old(flows)
      ensures Symmetric(old(flows)) ==> Symmetric(flows)
    {
      calls := [];
      if (src, dst) !in flows {
        calls := calls + [Dpctl("add-flow", AddRule(src, dst, outPort))];
        if response == FirstRaises {
          return;
        }
        calls := calls + [Dpctl("add-flow", AddRule(dst, src, inPort))];
        if response == SecondRaises {
          return;
        }
        flows := flows[(src, dst) := AddRule(src, dst, outPort)];
        flows := flows[(dst, src) := AddRule(dst, src, inPort)];
      }
    }

    /** `remove_flow`: if the pair is present, delete the forward and then the
        reverse rules, and drop both keys only when neither call raised. */
    method RemoveFlow(src: string, dst: string, response: Response) returns (calls: seq<Dpctl>)
      modifies this
      ensures (src, dst) !in old(flows) ==> calls == [] && flows == old(flows)
      ensures (src, dst) in old(flows) ==>
        calls == [Dpctl("del-flows", DelMatch(src, dst))]
                 + (if response == FirstRaises then [] else [Dpctl("del-flows", DelMatch(dst, src))])
      ensures flows == if response == BothOk then AfterRemove(old(flows), src, dst) else old(flows)
      ensures Symmetric(old(flows)) ==> Symmetric(flows)
    {
      calls := [];
      if (src, dst) in flows {
        calls := calls + [Dpctl("del-flows", DelMatch(src, dst))];
        if response == FirstRaises {
          return;
        }
        calls := calls + [Dpctl("del-flows", DelMatch(dst, src))];
        if response == SecondRaises {
          return;
        }
        flows := flows - {(src, dst)};
        flows := flows - {(dst, src)};
      }
    }
  }

  // ---------------------------------------------------------------------
  // Service deployment
  // ---------------------------------------------------------------------

  /** The most containers `deploy_service` admits on one host. */
  const MaxPerHost := 2

  /** A container as `addContainer` is given it. */
  datatype Container = Container(name: string, image: string, command: string)

  /** What `deploy_service` reports: the host is full; the container was added;
      `addContainer` raised an API error with status 409 (name conflict) or
      with another status. */
  datatype DeployOutcome =
    | HostFull
    | Deployed(name: string)
    | NameConflict(name: string)
    | DeployFailed(name: string, status: int)

  /** `name` ends in an underscore followed by the decimal digits of `k`. */
  ghost predicate EndsWithNumber(name: string, k: nat) {
    var digits := NatToString(k);
    && |name| > |digits|
    && name[|name| - |digits| - 1] == '_'
    && name[|name| - |digits|..] == digits
  }

  /** The name `deploy_service` gives the next container of a host already
      running `running` containers: "{service}_{host}_{running + 1}". */
  function ContainerName(service: string, host: string, running: nat): (r: string)
    ensures EndsWithNumber(r, running + 1)
  {
    var digits := NatToString(running + 1);
    var r := service + "_" + host + "_" + digits;
    assert r[|r| - |digits|..] == digits;
    assert r[|r| - |digits| - 1] == '_';
    r
  }

  /** The trailing number of such a name is determined by the name: digits
      contain no underscore, so the last underscore marks where it starts. */
  lemma TrailingNumberUnique(name: string, m: nat, n: nat)
    requires EndsWithNumber(name, m) && EndsWithNumber(name, n)
    ensures m == n
  {
    var dm, dn := NatToString(m), NatToString(n);
    if |dm| == |dn| {
      assert dm == name[|name| - |dm|..] == dn;
      NatToStringInjective(m, n);
    }
  }

  /** Names ending in different numbers differ. */
  lemma NumbersTellApart(x: string, y: string, m: nat, n: nat)
    requires EndsWithNumber(x, m) && EndsWithNumber(y, n) && m != n
    ensures x != y
  {
    if x == y {
      TrailingNumberUnique(x, m, n);
    }
  }

  /** The host's i-th container (from 0) carries the number i + 1, as every
      container `deploy_service` adds does. */
  ghost predicate Numbered(cs: seq<Container>) {
    forall i :: 0 <= i < |cs| ==> EndsWithNumber(cs[i].name, i + 1)
  }

  /** On a host whose containers are numbered in order, the generated name is
      not the name of any container already there. */
  lemma ContainerNameFresh(cs: seq<Container>, service: string, host: string)
    requires Numbered(cs)
    ensures forall i :: 0 <= i < |cs| ==> cs[i].name != ContainerName(service, host, |cs|)
  {
    var next := ContainerName(service, host, |cs|);
    forall i | 0 <= i < |cs|
      ensures cs[i].name != next
    {
      NumbersTellApart(cs[i].name, next, i + 1, |cs| + 1);
    }
  }

  /** Appending the generated container keeps a host's containers numbered. */
  lemma NumberedAppend(cs: seq<Container>, service: string, host: string, image: string, command: string)
    requires Numbered(cs)
    ensures Numbered(cs + [Container(ContainerName(service, host, |cs|), image, command)])
  {
    var cs' := cs + [Container(ContainerName(service, host, |cs|), image, command)];
    forall i | 0 <= i < |cs'|
      ensures EndsWithNumber(cs'[i].name, i + 1)
    {
      if i < |cs| {
        assert cs'[i] == cs[i];
      }
    }
  }

  /** Once a host's first container is removed, the numbering no longer
      follows the positions: the host keeps only its second container, and the
      name generated for its next one is that container's name again. */
  lemma NameReusedAfterRemoval(service: string, host: string, image: string, command: string)
    ensures var cs := [Container(ContainerName(service, host, 0), image, command),
                       Container(ContainerName(service, host, 1), image, command)];
            var left := cs[1..];
            && Numbered(cs) && !Numbered(left)
            && ContainerName(service, host, |left|) == left[0].name
  {
    var cs := [Container(ContainerName(service, host, 0), image, command),
               Container(ContainerName(service, host, 1), image, command)];
    var left := cs[1..];
    assert left[0] == cs[1];
    NumbersTellApart(left[0].name, ContainerName(service, host, 0), 2, 1);
  }

  /** The container manager `mgr`, as far as `deploy_service` uses it: the
      containers on each host, in the order they were added. */
  class ContainerManager {
    var containers: map<string, seq<Container>>

    /** No host above the limit, and every host's containers numbered in order. */
    ghost predicate Valid()
      reads this
    {
      forall h :: h in containers ==> |containers[h]| <= MaxPerHost && Numbered(containers[h])
    }

    constructor()
      ensures Valid() && containers == map[]
    {
      containers := map[];
    }

    /** `mgr.getContainersDhost(host)`. */
    function Running(host: string): (cs: seq<Container>)
      reads this
      ensures host in containers ==> cs == containers[host]
      ensures host !in containers ==> cs == []
    {
      if host in containers then containers[host] else []
    }

    /** `deploy_service`: refuse a host already running two or more
        containers; otherwise add one named after the service, the host and
        the next number. `addError` is the status of the API error
        `addContainer` raises, if it raises; the container list is unchanged then. */
    method DeployService(service: string, image: string, command: string, host: string, addError: Option<int>)
      returns (outcome: DeployOutcome)
      modifies this
      ensures old(Valid()) ==> Valid()
      ensures outcome.Deployed? ==> |Running(host)| <= MaxPerHost
      ensures |old(Running(host))| >= MaxPerHost ==> outcome == HostFull && containers == old(containers)
      ensures |old(Running(host))| < MaxPerHost ==>
        var name := ContainerName(service, host, |old(Running(host))|);
        match addError
        case None =>
          && outcome == Deployed(name)
          && containers == old(containers)[host := old(Running(host)) + [Container(name, image, command)]]
        case Some(status) =>
          && outcome == (if status == 409 then NameConflict(name) else DeployFailed(name, status))
          && containers == old(containers)
      ensures outcome.Deployed? && Numbered(old(Running(host))) ==>
        forall c :: c in old(Running(host)) ==> c.name != outcome.name
    {
      var running := Running(host);
      if |running| >= MaxPerHost {
        return HostFull;
      }
      var name := ContainerName(service, host, |running|);
      match addError {
        case None =>
          if Numbered(running) {
            ContainerNameFresh(running, service, host);
            NumberedAppend(running, service, host, image, command);
          }
          containers := containers[host := running + [Container(name, image, command)]];
          outcome := Deployed(name);
        case Some(status) =>
          outcome := if status == 409 then NameConflict(name) else DeployFailed(name, status);
      }
    }
  }
}
