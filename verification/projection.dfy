/** The data rows of `render` (main.go:97-120), without the table library: for each selected
    policy, a `DENY * *` row when its rule list for the direction is nil, else one row per rule. */
module Projection {
  import opened Wrappers
  import opened Api
  import opened Format

  /** The action printed for an explicit rule: ALLOW for ingress, and DENY for egress as well. */
  function RuleAction(d: Direction): string
  {
    match d
    case Ingress => "ALLOW"
    case Egress => "DENY"
  }

  /** Every rule list a policy declares for `d` has its ports set. */
  predicate DirectionPortsSet(p: NetworkPolicy, d: Direction)
  {
    RulesFor(p, d).Some? ==> PortsSet(RulesFor(p, d).value)
  }

  /** One row per rule, in rule order. */
  function RuleRows(d: Direction, name: string, rules: seq<Rule>): (rows: seq<Row>)
    requires PortsSet(rules)
    ensures |rows| == |rules|
    ensures forall k :: 0 <= k < |rules| ==>
              rows[k] == Row(d.Name(), name, RuleAction(d), PrintPorts(rules[k].ports), PrintPeer(rules[k].peers))
  {
    if |rules| == 0 then []
    else
      RuleTailPortsSet(rules);
      var rest := RuleRows(d, name, rules[1..]);
      RuleRowsCons(d, name, rules, rest);
      [Row(d.Name(), name, RuleAction(d), PrintPorts(rules[0].ports), PrintPeer(rules[0].peers))] + rest
  }

  /** The rules after the first keep their ports set, and so does the first rule. */
  lemma RuleTailPortsSet(rules: seq<Rule>)
    requires |rules| > 0 && PortsSet(rules)
    ensures AllPortsSet(rules[0].ports) && PortsSet(rules[1..])
  {
    forall k, m | 0 <= k < |rules[1..]| && 0 <= m < |rules[1..][k].ports|
      ensures rules[1..][k].ports[m].port.Some?
    {
      assert rules[1..][k] == rules[k + 1];
    }
  }

  /** Prepending the first rule's row to rows that describe the remaining rules gives rows that
      describe all the rules. */
  lemma RuleRowsCons(d: Direction, name: string, rules: seq<Rule>, rest: seq<Row>)
    requires |rules| > 0 && PortsSet(rules)
    requires |rest| == |rules| - 1
    requires PortsSet(rules[1..])
    requires forall k :: 0 <= k < |rest| ==>
               rest[k] == Row(d.Name(), name, RuleAction(d), PrintPorts(rules[1..][k].ports), PrintPeer(rules[1..][k].peers))
    ensures AllPortsSet(rules[0].ports)
    ensures var rows := [Row(d.Name(), name, RuleAction(d), PrintPorts(rules[0].ports), PrintPeer(rules[0].peers))] + rest;
      forall k :: 0 <= k < |rules| ==>
        rows[k] == Row(d.Name(), name, RuleAction(d), PrintPorts(rules[k].ports), PrintPeer(rules[k].peers))
  {
    RuleTailPortsSet(rules);
    var rows := [Row(d.Name(), name, RuleAction(d), PrintPorts(rules[0].ports), PrintPeer(rules[0].peers))] + rest;
    forall k | 0 <= k < |rules|
      ensures rows[k] == Row(d.Name(), name, RuleAction(d), PrintPorts(rules[k].ports), PrintPeer(rules[k].peers))
    {
      if k > 0 {
        assert rules[1..][k - 1] == rules[k];
      }
    }
  }

  /** The rows one policy contributes for direction `d`. */
  function PolicyRows(d: Direction, p: NetworkPolicy): (rows: seq<Row>)
    requires DirectionPortsSet(p, d)
    ensures RulesFor(p, d).None? ==> rows == [Row(d.Name(), p.name, "DENY", "*", "*")]
    ensures RulesFor(p, d).Some? ==> |rows| == |RulesFor(p, d).value|
    ensures forall k :: 0 <= k < |rows| ==> rows[k].direction == d.Name() && rows[k].policy == p.name
    ensures forall k :: 0 <= k < |rows| ==> rows[k].action == RuleAction(d) || rows[k].action == "DENY"
  {
    match RulesFor(p, d)
    case None => [Row(d.Name(), p.name, "DENY", "*", "*")]
    case Some(rules) => RuleRows(d, p.name, rules)
  }

  /** The number of rows a policy contributes: one for a nil rule list, one per rule otherwise. */
  function RowCount(d: Direction, p: NetworkPolicy): nat
  {
    match RulesFor(p, d)
    case None => 1
    case Some(rules) => |rules|
  }

  function TotalRows(d: Direction, policies: seq<NetworkPolicy>): nat
  {
    if |policies| == 0 then 0 else RowCount(d, policies[0]) + TotalRows(d, policies[1..])
  }

  predicate AllDirectionPortsSet(policies: seq<NetworkPolicy>, d: Direction)
  {
    forall i :: 0 <= i < |policies| ==> DirectionPortsSet(policies[i], d)
  }

  /** All rows for one direction, policy by policy in the order given. */
  function DirectionRows(d: Direction, policies: seq<NetworkPolicy>): (rows: seq<Row>)
    requires AllDirectionPortsSet(policies, d)
    ensures |rows| == TotalRows(d, policies)
  {
    if |policies| == 0 then []
    else
      assert AllDirectionPortsSet(policies[1..], d) by { TailPortsSet(d, policies); }
      PolicyRows(d, policies[0]) + DirectionRows(d, policies[1..])
  }

  lemma TailPortsSet(d: Direction, policies: seq<NetworkPolicy>)
    requires |policies| > 0 && AllDirectionPortsSet(policies, d)
    ensures AllDirectionPortsSet(policies[1..], d)
  {
    forall i | 0 <= i < |policies[1..]|
      ensures DirectionPortsSet(policies[1..][i], d)
    {
      assert policies[1..][i] == policies[i + 1];
    }
  }

  /** Every row carries the direction, the direction's rule action or DENY, and the name of one of
      the given policies. */
  lemma {:induction false} DirectionRowsShape(d: Direction, policies: seq<NetworkPolicy>)
    requires AllDirectionPortsSet(policies, d)
    ensures forall row :: row in DirectionRows(d, policies) ==>
              row.direction == d.Name() && (row.action == RuleAction(d) || row.action == "DENY") &&
              exists p :: p in policies && p.name == row.policy
  {
    if |policies| > 0 {
      TailPortsSet(d, policies);
      DirectionRowsShape(d, policies[1..]);
      var own := PolicyRows(d, policies[0]);
      var rows := DirectionRows(d, policies);
      assert rows == own + DirectionRows(d, policies[1..]);
      forall row | row in own
        ensures row.direction == d.Name() && (row.action == RuleAction(d) || row.action == "DENY") &&
                exists p :: p in policies && p.name == row.policy
      {
        var k :| 0 <= k < |own| && own[k] == row;
        assert policies[0] in policies;
      }
    }
  }

  /** The policy a row of `DirectionRows` comes from. */
  lemma RowOrigin(d: Direction, policies: seq<NetworkPolicy>, k: int) returns (p: NetworkPolicy)
    requires AllDirectionPortsSet(policies, d)
    requires 0 <= k < |DirectionRows(d, policies)|
    ensures p in policies && p.name == DirectionRows(d, policies)[k].policy
  {
    DirectionRowsShape(d, policies);
    assert DirectionRows(d, policies)[k] in DirectionRows(d, policies);
    p :| p in policies && p.name == DirectionRows(d, policies)[k].policy;
  }

  /** `render` without the table: every ingress row, then every egress row. */
  function Render(ingressPolicies: seq<NetworkPolicy>, egressPolicies: seq<NetworkPolicy>): (rows: seq<Row>)
    requires AllDirectionPortsSet(ingressPolicies, Ingress)
    requires AllDirectionPortsSet(egressPolicies, Egress)
    ensures |rows| == TotalRows(Ingress, ingressPolicies) + TotalRows(Egress, egressPolicies)
    ensures forall k :: 0 <= k < |rows| ==>
              (rows[k].direction == "Ingress" <==> k < TotalRows(Ingress, ingressPolicies))
  {
    RowsCarryDirection(Ingress, ingressPolicies);
    RowsCarryDirection(Egress, egressPolicies);
    assert Egress.Name()[0] != "Ingress"[0];
    DirectionRows(Ingress, ingressPolicies) + DirectionRows(Egress, egressPolicies)
  }

  /** Every row of direction `d` carries that direction's name. */
  lemma {:induction false} RowsCarryDirection(d: Direction, policies: seq<NetworkPolicy>)
    requires AllDirectionPortsSet(policies, d)
    ensures forall k :: 0 <= k < |DirectionRows(d, policies)| ==> DirectionRows(d, policies)[k].direction == d.Name()
  {
    if |policies| > 0 {
      TailPortsSet(d, policies);
      RowsCarryDirection(d, policies[1..]);
      assert DirectionRows(d, policies) == PolicyRows(d, policies[0]) + DirectionRows(d, policies[1..]);
    }
  }

  /** A policy with a nil rule list yields exactly the one blocking row. */
  lemma NilRulesDenyAll(d: Direction, p: NetworkPolicy)
    requires RulesFor(p, d).None?
    ensures DirectionRows(d, [p]) == [Row(d.Name(), p.name, "DENY", "*", "*")]
  {
    assert [p][1..] == [];
  }

  /** A policy with n rules yields n rows, row k made from rule k's ports and peers only. */
  lemma RulesGiveOneRowEach(d: Direction, p: NetworkPolicy)
    requires RulesFor(p, d).Some? && PortsSet(RulesFor(p, d).value)
    ensures var rules := RulesFor(p, d).value;
      var rows := DirectionRows(d, [p]);
      && |rows| == |rules|
      && forall k :: 0 <= k < |rules| ==>
           rows[k] == Row(d.Name(), p.name, RuleAction(d), PrintPorts(rules[k].ports), PrintPeer(rules[k].peers))
  {
    assert [p][1..] == [];
  }

  /** A present but empty rule list yields no rows at all. */
  lemma EmptyRulesNoRows(d: Direction, p: NetworkPolicy)
    requires RulesFor(p, d) == Some([])
    ensures DirectionRows(d, [p]) == []
  {
    assert [p][1..] == [];
  }

  /** Rows of a concatenated policy list are the two lists' rows, in order. */
  lemma {:induction false} DirectionRowsAppend(d: Direction, a: seq<NetworkPolicy>, b: seq<NetworkPolicy>)
    requires AllDirectionPortsSet(a, d) && AllDirectionPortsSet(b, d)
    ensures AllDirectionPortsSet(a + b, d)
    ensures DirectionRows(d, a + b) == DirectionRows(d, a) + DirectionRows(d, b)
  {
    if |a| == 0 {
      assert a + b == b;
    } else {
      assert (a + b)[1..] == a[1..] + b;
      DirectionRowsAppend(d, a[1..], b);
    }
  }

  /** The rows of a list are those of the policies before i, then policy i's, then those after. */
  lemma DirectionRowsSplitAt(d: Direction, policies: seq<NetworkPolicy>, i: int)
    requires AllDirectionPortsSet(policies, d)
    requires 0 <= i < |policies|
    ensures AllDirectionPortsSet(policies[..i], d) && AllDirectionPortsSet(policies[i + 1..], d)
    ensures AllDirectionPortsSet(policies[..i + 1], d)
    ensures DirectionRows(d, policies) ==
            DirectionRows(d, policies[..i]) + PolicyRows(d, policies[i]) + DirectionRows(d, policies[i + 1..])
  {
    var a, b := policies[..i], policies[i..];
    assert a + b == policies;
    assert AllDirectionPortsSet(b, d) by {
      forall k | 0 <= k < |b| ensures DirectionPortsSet(b[k], d) {
        assert b[k] == policies[i + k];
      }
    }
    DirectionRowsAppend(d, a, b);
    assert b[1..] == policies[i + 1..];
  }

  /** Rows of policy i all come before rows of policy j when i < j: policy j's rows follow the rows
      of the policies before j, and among those, policy i's rows sit between the rows before i and
      the rows between i and j. */
  lemma PolicyRowsInOrder(d: Direction, policies: seq<NetworkPolicy>, i: int, j: int)
    requires AllDirectionPortsSet(policies, d)
    requires 0 <= i < j < |policies|
    ensures AllDirectionPortsSet(policies[..i], d)
    ensures AllDirectionPortsSet(policies[..j], d)
    ensures AllDirectionPortsSet(policies[i + 1..j], d)
    ensures AllDirectionPortsSet(policies[j + 1..], d)
    ensures DirectionRows(d, policies) ==
              DirectionRows(d, policies[..j]) + PolicyRows(d, policies[j]) + DirectionRows(d, policies[j + 1..])
    ensures DirectionRows(d, policies[..j]) ==
              DirectionRows(d, policies[..i]) + PolicyRows(d, policies[i]) + DirectionRows(d, policies[i + 1..j])
  {
    DirectionRowsSplitAt(d, policies, j);
    var front := policies[..j];
    DirectionRowsSplitAt(d, front, i);
    assert front[..i] == policies[..i];
    assert front[i] == policies[i];
    assert front[i + 1..] == policies[i + 1..j];
  }

  lemma SinglePolicyRows(d: Direction, p: NetworkPolicy)
    requires DirectionPortsSet(p, d)
    ensures DirectionRows(d, [p]) == PolicyRows(d, p)
  {
    assert [p][1..] == [];
  }

  /** Every egress row says DENY, explicit rules included. */
  lemma EgressRowsAllDeny(policies: seq<NetworkPolicy>)
    requires AllDirectionPortsSet(policies, Egress)
    ensures forall row :: row in DirectionRows(Egress, policies) ==> row.action == "DENY"
  {
    DirectionRowsShape(Egress, policies);
  }

  /** On a rule's row the peer cell is never "*". */
  lemma RuleRowsPeerNotStar(d: Direction, name: string, rules: seq<Rule>)
    requires PortsSet(rules)
    ensures forall row :: row in RuleRows(d, name, rules) ==> row.peer != "*" && row.action == RuleAction(d)
  {
    var rows := RuleRows(d, name, rules);
    forall row | row in rows
      ensures row.peer != "*" && row.action == RuleAction(d)
    {
      var k :| 0 <= k < |rows| && rows[k] == row;
      PrintPeerEmptyIffBlank(rules[k].peers);
    }
  }

  /** A peer cell is "*" only on the blocking row of a nil rule list; so for ingress, the DENY rows
      are exactly those rows. */
  lemma {:induction false} StarPeerMeansNilRules(d: Direction, policies: seq<NetworkPolicy>)
    requires AllDirectionPortsSet(policies, d)
    ensures forall row :: row in DirectionRows(d, policies) && row.peer == "*" ==>
              row.action == "DENY" && row.ports == "*"
    ensures d == Ingress ==>
              forall row :: row in DirectionRows(d, policies) ==> (row.action == "DENY" <==> row.peer == "*")
  {
    if |policies| > 0 {
      var p := policies[0];
      TailPortsSet(d, policies);
      StarPeerMeansNilRules(d, policies[1..]);
      if RulesFor(p, d).Some? {
        RuleRowsPeerNotStar(d, p.name, RulesFor(p, d).value);
      }
      assert DirectionRows(d, policies) == PolicyRows(d, p) + DirectionRows(d, policies[1..]);
    }
  }
}
