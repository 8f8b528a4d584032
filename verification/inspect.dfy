/** The policy-resolution part of `runPod` (main.go:71-84) end to end: filter the namespace's
    policies for the pod, then project the selected ones into rows. */
module Inspect {
  import opened Wrappers
  import opened Api
  import opened Selectors
  import opened Filtering
  import opened Format
  import opened Projection

  predicate AllPolicyPortsSet(items: seq<NetworkPolicy>)
  {
    forall i :: 0 <= i < |items| ==> PolicyPortsSet(items[i])
  }

  /** The policies governing a direction inherit the port invariant of the listing. */
  lemma GoverningPortsSet(pod: Pod, items: seq<NetworkPolicy>, d: Direction, lib: LabelLibrary)
    requires AllPolicyPortsSet(items)
    ensures AllDirectionPortsSet(Governing(pod, items, d, lib), d)
  {
    var g := Governing(pod, items, d, lib);
    forall i | 0 <= i < |g|
      ensures DirectionPortsSet(g[i], d)
    {
      GoverningMembership(pod, items, d, lib);
      assert g[i] in g;
      var j :| 0 <= j < |items| && items[j] == g[i];
      assert PolicyPortsSet(items[j]);
    }
  }

  /** The rows the run prints for a pod whose policy selectors all convert. */
  function Rows(pod: Pod, items: seq<NetworkPolicy>, lib: LabelLibrary): seq<Row>
    requires AllPolicyPortsSet(items)
  {
    GoverningPortsSet(pod, items, Ingress, lib);
    GoverningPortsSet(pod, items, Egress, lib);
    Render(Governing(pod, items, Ingress, lib), Governing(pod, items, Egress, lib))
  }

  /** Filter the listing, then render: aborts exactly when some policy's selector is refused, with the
      error of the first refused policy. */
  method InspectPod(pod: Pod, items: seq<NetworkPolicy>, lib: LabelLibrary) returns (r: Result<seq<Row>, SelectorError>)
    requires AllPolicyPortsSet(items)
    ensures r.Success? <==> AllSelectorsValid(items, lib)
    ensures r.Success? ==> r.value == Rows(pod, items, lib)
    ensures r.Failure? ==>
              exists i :: 0 <= i < |items| && AllSelectorsValid(items[..i], lib) &&
                          IsPodMatch(pod, items[i].spec.podSelector, lib) == Failure(r.error)
  {
    var selected := SelectPolicies(pod, items, lib);
    match selected
    case Failure(e) =>
      r := Failure(e);
    case Success(lists) =>
      GoverningPortsSet(pod, items, Ingress, lib);
      GoverningPortsSet(pod, items, Egress, lib);
      r := Success(Render(lists.ingress, lists.egress));
  }

  /** Every row of direction `d` names a listed policy that governs `d` for the pod: a policy whose
      selector does not match, or whose types omit `d`, never produces a row for `d`. */
  lemma RowsComeFromGoverningPolicies(pod: Pod, items: seq<NetworkPolicy>, lib: LabelLibrary, d: Direction, k: int)
    requires AllPolicyPortsSet(items)
    requires 0 <= k < |Rows(pod, items, lib)| && Rows(pod, items, lib)[k].direction == d.Name()
    ensures exists p :: p in items && p.name == Rows(pod, items, lib)[k].policy && Governs(pod, p, d, lib)
  {
    GoverningPortsSet(pod, items, Ingress, lib);
    GoverningPortsSet(pod, items, Egress, lib);
    var gi, ge := Governing(pod, items, Ingress, lib), Governing(pod, items, Egress, lib);
    var ingress := DirectionRows(Ingress, gi);
    var egress := DirectionRows(Egress, ge);
    var rows := Rows(pod, items, lib);
    assert rows == ingress + egress;
    DirectionRowsShape(Ingress, gi);
    DirectionRowsShape(Egress, ge);
    var p: NetworkPolicy;
    if k < |ingress| {
      assert rows[k] == ingress[k] && ingress[k] in ingress;
      assert d == Ingress;
      p := RowOrigin(Ingress, gi, k);
    } else {
      assert rows[k] == egress[k - |ingress|] && egress[k - |ingress|] in egress;
      assert d == Egress;
      p := RowOrigin(Egress, ge, k - |ingress|);
    }
    GoverningMembership(pod, items, d, lib);
  }

  /** If no listed policy called `name` declares Ingress, no ingress row carries that name,
      whatever its ingress rule list holds. */
  lemma NoIngressTypeNoIngressRows(pod: Pod, items: seq<NetworkPolicy>, lib: LabelLibrary, name: string)
    requires AllPolicyPortsSet(items)
    requires forall p :: p in items && p.name == name ==> "Ingress" !in p.spec.policyTypes
    ensures forall row :: row in Rows(pod, items, lib) && row.direction == "Ingress" ==> row.policy != name
  {
    var rows := Rows(pod, items, lib);
    forall row | row in rows && row.direction == "Ingress"
      ensures row.policy != name
    {
      var k :| 0 <= k < |rows| && rows[k] == row;
      RowsComeFromGoverningPolicies(pod, items, lib, Ingress, k);
    }
  }

  /** Ingress rows are printed before egress rows. */
  lemma IngressRowsFirst(pod: Pod, items: seq<NetworkPolicy>, lib: LabelLibrary, i: int, j: int)
    requires AllPolicyPortsSet(items)
    requires 0 <= i < |Rows(pod, items, lib)| && 0 <= j < |Rows(pod, items, lib)|
    requires Rows(pod, items, lib)[i].direction == "Egress" && Rows(pod, items, lib)[j].direction == "Ingress"
    ensures j < i
  {
    GoverningPortsSet(pod, items, Ingress, lib);
    GoverningPortsSet(pod, items, Egress, lib);
    var gi, ge := Governing(pod, items, Ingress, lib), Governing(pod, items, Egress, lib);
    var ingress := DirectionRows(Ingress, gi);
    var egress := DirectionRows(Egress, ge);
    var rows := Rows(pod, items, lib);
    assert rows == ingress + egress;
    DirectionRowsShape(Ingress, gi);
    DirectionRowsShape(Egress, ge);
  }

  /** The pod `{app: api}` and the policy `allow-web` of the worked scenario. */
  function ApiPod(): Pod
  {
    Pod("ns1", "api-0", map["app" := "api"])
  }

  function WebRule(): Rule
  {
    Rule([PolicyPort(Some("TCP"), Some(PortNumber(80)), None)], [Peer(Some(LabelSelector([("app", "web")], [])), None, None)])
  }

  function AllowWeb(): NetworkPolicy
  {
    NetworkPolicy("ns1", "allow-web", PolicySpec(LabelSelector([("app", "api")], []), Some([WebRule()]), None, ["Ingress"]))
  }

  /** The scenario: one ingress row allowing TCP 80 from pods labelled app=web, and no egress rows. */
  lemma AllowWebScenario(lib: LabelLibrary)
    requires lib.validLabel("app", "api")
    ensures AllPolicyPortsSet([AllowWeb()]) && AllSelectorsValid([AllowWeb()], lib)
    ensures Rows(ApiPod(), [AllowWeb()], lib) == [Row("Ingress", "allow-web", "ALLOW", "TCP(80)", "podLabel(app=web)")]
  {
    AllowWebSelected(lib);
    WebRuleRows();
    assert Render([AllowWeb()], []) == DirectionRows(Ingress, [AllowWeb()]) + [];
  }

  /** The policy matches the pod and is selected for ingress only. */
  lemma AllowWebSelected(lib: LabelLibrary)
    requires lib.validLabel("app", "api")
    ensures AllPolicyPortsSet([AllowWeb()]) && AllSelectorsValid([AllowWeb()], lib)
    ensures Governing(ApiPod(), [AllowWeb()], Ingress, lib) == [AllowWeb()]
    ensures Governing(ApiPod(), [AllowWeb()], Egress, lib) == []
  {
    var pod, p := ApiPod(), AllowWeb();
    assert [p][1..] == [];
    assert SelectorValid(p.spec.podSelector, lib);
    assert SelectorSatisfied(p.spec.podSelector, pod.labels, lib);
    assert IsPodMatch(pod, p.spec.podSelector, lib) == Success(true);
    assert HasPolicy(p.spec.policyTypes, "Ingress");
    assert !HasPolicy(p.spec.policyTypes, "Egress");
  }

  /** The policy's single rule gives the single ingress row. */
  lemma WebRuleRows()
    ensures DirectionPortsSet(AllowWeb(), Ingress)
    ensures DirectionRows(Ingress, [AllowWeb()]) == [Row("Ingress", "allow-web", "ALLOW", "TCP(80)", "podLabel(app=web)")]
  {
    assert PrintPorts(WebRule().ports) == "TCP(80)" by {
      assert Text.NatToDecimal(80) == "80" by { assert Text.NatToDecimal(8) == "8"; }
    }
    assert PrintPeer(WebRule().peers) == "podLabel(app=web)" by { PodLabelExample(); }
    RulesGiveOneRowEach(Ingress, AllowWeb());
  }

  /** A rule with neither ports nor peers prints ports "*" and an empty peer cell; a CIDR peer
      without exceptions keeps the dash. */
  lemma OpenAndCidrRules(name: string)
    ensures var p := NetworkPolicy("ns1", name, PolicySpec(LabelSelector([], []), Some([OpenRule(), CidrRule()]), None, ["Ingress"]));
      DirectionRows(Ingress, [p]) ==
        [Row("Ingress", name, "ALLOW", "*", ""), Row("Ingress", name, "ALLOW", "TCP(80)", "cidr(X -)")]
  {
    var p := NetworkPolicy("ns1", name, PolicySpec(LabelSelector([], []), Some([OpenRule(), CidrRule()]), None, ["Ingress"]));
    CidrRuleCells();
    assert PrintPeer(OpenRule().peers) == "";
    RulesGiveOneRowEach(Ingress, p);
  }

  function OpenRule(): Rule
  {
    Rule([], [])
  }

  function CidrRule(): Rule
  {
    Rule([PolicyPort(Some("TCP"), Some(PortNumber(80)), None)], [Peer(None, None, Some(IPBlock("X", [])))])
  }

  lemma CidrRuleCells()
    ensures AllPortsSet(CidrRule().ports)
    ensures PrintPorts(CidrRule().ports) == "TCP(80)"
    ensures PrintPeer(CidrRule().peers) == "cidr(X -)"
  {
    var cidrPeer := Peer(None, None, Some(IPBlock("X", [])));
    assert PrintPorts(CidrRule().ports) == "TCP(80)" by {
      assert Text.NatToDecimal(80) == "80" by { assert Text.NatToDecimal(8) == "8"; }
    }
    assert PeerFragment(cidrPeer) == [] + [] + [CidrFragment(cidrPeer.ipBlock.value)];
    assert [cidrPeer][1..] == [];
    assert CidrFragment(cidrPeer.ipBlock.value) == "cidr(X -)";
    assert PeerFragments([cidrPeer]) == ["cidr(X -)"];
  }
}
