/** The two cell formatters of the output table: `printPorts` (main.go:125-146) and
    `printPeer` (main.go:148-167). */
module Format {
  import opened Wrappers
  import opened Api
  import opened Text

  /** The text of a `*Protocol`: the protocol name, or nothing when unset. */
  function ProtocolText(protocol: Option<string>): string
  {
    match protocol
    case None => ""
    case Some(name) => name
  }

  /** `IntOrString.String()`: decimal text for a number, the name itself otherwise. */
  function PortText(v: PortValue): string
  {
    match v
    case PortNumber(n) => IntToDecimal(n)
    case PortName(name) => name
  }

  /** The range suffix: `-` and the decimal end port when one is set. */
  function EndPortText(endPort: Option<int>): string
  {
    match endPort
    case None => ""
    case Some(e) => "-" + IntToDecimal(e)
  }

  /** The fragment for one port: protocol, then the port (and range end) in parentheses. */
  function PortFragment(p: PolicyPort): (r: string)
    requires p.port.Some?
    ensures var proto := ProtocolText(p.protocol);
      && |r| == |proto| + |PortText(p.port.value)| + |EndPortText(p.endPort)| + 2
      && r[..|proto|] == proto && r[|proto|] == '(' && r[|r| - 1] == ')'
  {
    ProtocolText(p.protocol) + "(" + PortText(p.port.value) + EndPortText(p.endPort) + ")"
  }

  predicate AllPortsSet(ports: seq<PolicyPort>)
  {
    forall m :: 0 <= m < |ports| ==> ports[m].port.Some?
  }

  /** One fragment per port, in port order. */
  function PortFragments(ports: seq<PolicyPort>): (r: seq<string>)
    requires AllPortsSet(ports)
    ensures |r| == |ports|
    ensures forall m :: 0 <= m < |ports| ==> r[m] == PortFragment(ports[m])
  {
    if |ports| == 0 then []
    else [PortFragment(ports[0])] + PortFragments(ports[1..])
  }

  /** The joined text always starts with the first part. */
  lemma JoinStartsWithFirst(parts: seq<string>, sep: string)
    requires |parts| > 0
    ensures parts[0] <= Join(parts, sep)
  {
  }

  /** `printPorts`: "*" for no ports, else the port fragments joined by single spaces. */
  function PrintPorts(ports: seq<PolicyPort>): (s: string)
    requires AllPortsSet(ports)
    ensures s == "*" <==> |ports| == 0
  {
    if |ports| == 0 then "*"
    else
      var parts := PortFragments(ports);
      JoinStartsWithFirst(parts, " ");
      assert parts[0][|ProtocolText(ports[0].protocol)|] == '(';
      Join(parts, " ")
  }

  /** No protocol or port name contains a space. */
  predicate SpaceFreeNames(ports: seq<PolicyPort>)
  {
    forall m :: 0 <= m < |ports| ==>
      ' ' !in ProtocolText(ports[m].protocol) &&
      (ports[m].port.Some? && ports[m].port.value.PortName? ==> ' ' !in ports[m].port.value.name)
  }

  lemma NoSpaceInDecimal(n: int)
    ensures ' ' !in IntToDecimal(n)
  {
    var s := IntToDecimal(n);
    forall k | 0 <= k < |s|
      ensures s[k] != ' '
    {
      if n < 0 && k > 0 {
        assert s[k] == NatToDecimal(-n)[k - 1];
      }
    }
  }

  lemma NoSpaceInFragment(p: PolicyPort)
    requires p.port.Some?
    requires SpaceFreeNames([p])
    ensures ' ' !in PortFragment(p)
  {
    assert [p][0] == p;
    assert ' ' !in ProtocolText(p.protocol);
    if p.port.value.PortNumber? {
      NoSpaceInDecimal(p.port.value.number);
    }
    assert ' ' !in PortText(p.port.value);
    if p.endPort.Some? {
      NoSpaceInDecimal(p.endPort.value);
      assert EndPortText(p.endPort) == "-" + IntToDecimal(p.endPort.value);
    }
    assert ' ' !in EndPortText(p.endPort);
  }

  /** When names carry no spaces, splitting the text on spaces gives back exactly one fragment
      per port, in port order. */
  lemma PrintPortsSplits(ports: seq<PolicyPort>)
    requires AllPortsSet(ports)
    requires |ports| > 0
    requires SpaceFreeNames(ports)
    ensures var parts := SplitOn(PrintPorts(ports), ' ');
      |parts| == |ports| && forall m :: 0 <= m < |ports| ==> parts[m] == PortFragment(ports[m])
  {
    var parts := PortFragments(ports);
    forall m | 0 <= m < |ports|
      ensures ' ' !in parts[m]
    {
      assert SpaceFreeNames([ports[m]]);
      NoSpaceInFragment(ports[m]);
    }
    SplitOnJoin(parts, ' ');
  }

  /** A TCP port renders as `TCP(8080)`. */
  lemma TcpPortExample()
    ensures PrintPorts([PolicyPort(Some("TCP"), Some(PortNumber(8080)), None)]) == "TCP(8080)"
  {
    assert NatToDecimal(8080) == "8080" by { Decimal8080(); }
  }

  /** A TCP range renders as `TCP(8080-8090)`. */
  lemma TcpRangeExample()
    ensures PrintPorts([PolicyPort(Some("TCP"), Some(PortNumber(8080)), Some(8090))]) == "TCP(8080-8090)"
  {
    assert NatToDecimal(8080) == "8080" by { Decimal8080(); }
    assert NatToDecimal(8090) == "8090" by {
      assert NatToDecimal(8) == "8";
      assert NatToDecimal(80) == "80";
      assert NatToDecimal(809) == "809";
    }
  }

  /** Without a protocol only the parenthesised port remains. */
  lemma NoProtocolExample()
    ensures PrintPorts([PolicyPort(None, Some(PortNumber(8080)), None)]) == "(8080)"
  {
    assert NatToDecimal(8080) == "8080" by { Decimal8080(); }
  }

  /** Several ports are space-separated; a named port renders as its name. */
  lemma TwoPortsExample()
    ensures PrintPorts([PolicyPort(Some("UDP"), Some(PortName("dns")), None),
                        PolicyPort(None, Some(PortNumber(53)), None)]) == "UDP(dns) (53)"
  {
    var ports := [PolicyPort(Some("UDP"), Some(PortName("dns")), None), PolicyPort(None, Some(PortNumber(53)), None)];
    assert NatToDecimal(53) == "53" by { assert NatToDecimal(5) == "5"; }
    assert PortFragment(ports[0]) == "UDP(dns)";
    assert PortFragment(ports[1]) == "(53)";
    assert PortFragments(ports) == ["UDP(dns)", "(53)"];
  }

  lemma Decimal8080()
    ensures NatToDecimal(8080) == "8080"
  {
    assert NatToDecimal(8) == "8";
    assert NatToDecimal(80) == "80";
    assert NatToDecimal(808) == "808";
  }

  /** Named ports may contain `-`, so distinct ports can share a fragment:
      the name "a-1" and the name "a" with end port 1 both render as "(a-1)". */
  lemma PortFragmentNotInjective()
    ensures PortFragment(PolicyPort(None, Some(PortName("a-1")), None)) ==
            PortFragment(PolicyPort(None, Some(PortName("a")), Some(1)))
  {
  }

  /** The label pairs a peer's selector contributes; an unset selector contributes none. */
  function SelectorPairs(sel: Option<LabelSelector>): seq<(string, string)>
  {
    match sel
    case None => []
    case Some(s) => s.matchLabels
  }

  /** `kind(k=v)` for each pair, in iteration order. */
  function LabelFragments(kind: string, pairs: seq<(string, string)>): (r: seq<string>)
    ensures |r| == |pairs|
    ensures forall m :: 0 <= m < |pairs| ==> r[m] == kind + "(" + pairs[m].0 + "=" + pairs[m].1 + ")"
  {
    if |pairs| == 0 then []
    else [kind + "(" + pairs[0].0 + "=" + pairs[0].1 + ")"] + LabelFragments(kind, pairs[1..])
  }

  /** `cidr(CIDR -e1,e2,…)`. */
  function CidrFragment(b: IPBlock): (r: string)
    ensures |r| == |b.cidr| + |Join(b.except, ",")| + 8
    ensures r[..5] == "cidr(" && r[5..5 + |b.cidr|] == b.cidr && r[|r| - 1] == ')'
  {
    "cidr(" + b.cidr + " -" + Join(b.except, ",") + ")"
  }

  /** The fragments of one peer, in the order the peer's fields are visited. */
  function PeerFragment(peer: Peer): (r: seq<string>)
    ensures var pods := SelectorPairs(peer.podSelector);
      var nss := SelectorPairs(peer.namespaceSelector);
      && |r| == |pods| + |nss| + (if peer.ipBlock.Some? then 1 else 0)
      && (forall m :: 0 <= m < |pods| ==> r[m] == "podLabel(" + pods[m].0 + "=" + pods[m].1 + ")")
      && (forall m :: 0 <= m < |nss| ==> r[|pods| + m] == "nsLabel(" + nss[m].0 + "=" + nss[m].1 + ")")
      && (peer.ipBlock.Some? ==> r[|r| - 1] == CidrFragment(peer.ipBlock.value))
  {
    LabelFragments("podLabel", SelectorPairs(peer.podSelector)) +
    LabelFragments("nsLabel", SelectorPairs(peer.namespaceSelector)) +
    (match peer.ipBlock
     case None => []
     case Some(b) => [CidrFragment(b)])
  }

  /** The excluded ranges can be read back from a cidr fragment: the text between the dash and the
      closing parenthesis, split on commas, is the list of exceptions (when none contains a comma). */
  lemma CidrExceptionsRecoverable(b: IPBlock)
    requires |b.except| > 0
    requires forall i :: 0 <= i < |b.except| ==> ',' !in b.except[i]
    ensures var r := CidrFragment(b);
      SplitOn(r[|b.cidr| + 7..|r| - 1], ',') == b.except
  {
    var r := CidrFragment(b);
    assert r[|b.cidr| + 7..|r| - 1] == Join(b.except, ",");
    SplitOnJoin(b.except, ',');
  }

  /** All fragments of a peer list, peer by peer: one per label pair and per IP block, over all
      peers. */
  function PeerFragments(peers: seq<Peer>): (r: seq<string>)
    ensures |r| == TotalFragments(peers)
  {
    if |peers| == 0 then []
    else PeerFragment(peers[0]) + PeerFragments(peers[1..])
  }

  /** A peer contributes nothing when it sets no labels and no IP block. */
  predicate Blank(peer: Peer)
  {
    |SelectorPairs(peer.podSelector)| == 0 && |SelectorPairs(peer.namespaceSelector)| == 0 && peer.ipBlock.None?
  }

  /** The number of fragments a peer contributes. */
  function FragmentCount(peer: Peer): nat
  {
    |SelectorPairs(peer.podSelector)| + |SelectorPairs(peer.namespaceSelector)| + (if peer.ipBlock.Some? then 1 else 0)
  }

  function TotalFragments(peers: seq<Peer>): nat
  {
    if |peers| == 0 then 0 else FragmentCount(peers[0]) + TotalFragments(peers[1..])
  }

  /** The fragments of a concatenated peer list are the two lists' fragments, in order. */
  lemma {:induction false} PeerFragmentsAppend(a: seq<Peer>, b: seq<Peer>)
    ensures PeerFragments(a + b) == PeerFragments(a) + PeerFragments(b)
  {
    if |a| == 0 {
      assert a + b == b;
    } else {
      assert (a + b)[1..] == a[1..] + b;
      PeerFragmentsAppend(a[1..], b);
    }
  }

  /** No fragment is empty. */
  lemma FragmentsNonEmpty(peers: seq<Peer>)
    ensures forall m :: 0 <= m < |PeerFragments(peers)| ==> |PeerFragments(peers)[m]| > 0
  {
    if |peers| > 0 {
      FragmentsNonEmpty(peers[1..]);
      var own := PeerFragment(peers[0]);
      forall m | 0 <= m < |own|
        ensures |own[m]| > 0
      {
        var pods := SelectorPairs(peers[0].podSelector);
        var nss := SelectorPairs(peers[0].namespaceSelector);
        if m < |pods| {
        } else if m < |pods| + |nss| {
          assert own[|pods| + (m - |pods|)] == own[m];
        }
      }
    }
  }

  /** `printPeer`: all fragments joined by single spaces. */
  function PrintPeer(peers: seq<Peer>): (s: string)
    ensures |peers| == 0 ==> s == ""
  {
    Join(PeerFragments(peers), " ")
  }

  /** The peer column is empty exactly when every peer is blank, including when there are no
      peers at all; it is never "*". */
  lemma {:induction false} PrintPeerEmptyIffBlank(peers: seq<Peer>)
    ensures PrintPeer(peers) == "" <==> forall m :: 0 <= m < |peers| ==> Blank(peers[m])
    ensures PrintPeer(peers) != "*"
  {
    var parts := PeerFragments(peers);
    BlankIffNoFragments(peers);
    if |parts| > 0 {
      FragmentsNonEmpty(peers);
      JoinStartsWithFirst(parts, " ");
      FirstCharNotStar(peers);
    }
  }

  lemma {:induction false} BlankIffNoFragments(peers: seq<Peer>)
    ensures TotalFragments(peers) == 0 <==> forall m :: 0 <= m < |peers| ==> Blank(peers[m])
  {
    if |peers| > 0 {
      BlankIffNoFragments(peers[1..]);
      if forall m :: 0 <= m < |peers| ==> Blank(peers[m]) {
        assert forall m :: 0 <= m < |peers[1..]| ==> Blank(peers[1..][m]) by {
          forall m | 0 <= m < |peers[1..]| ensures Blank(peers[1..][m]) {
            assert peers[1..][m] == peers[m + 1];
          }
        }
      }
      if TotalFragments(peers) == 0 {
        forall m | 0 <= m < |peers| ensures Blank(peers[m]) {
          if m > 0 {
            assert peers[m] == peers[1..][m - 1];
          }
        }
      }
    }
  }

  /** Every fragment starts with `p`, `n` or `c`, so the first never starts with `*`. */
  lemma {:induction false} FirstCharNotStar(peers: seq<Peer>)
    requires |PeerFragments(peers)| > 0
    ensures |PeerFragments(peers)[0]| > 0 && PeerFragments(peers)[0][0] != '*'
  {
    var own := PeerFragment(peers[0]);
    if |own| == 0 {
      FirstCharNotStar(peers[1..]);
    } else {
      var pods := SelectorPairs(peers[0].podSelector);
      var nss := SelectorPairs(peers[0].namespaceSelector);
      if |pods| > 0 {
        assert own[0][0] == 'p';
      } else if |nss| > 0 {
        // No pod labels, so the first fragment is the first namespace label's, at index |pods| + 0.
        assert |pods| == 0;
        assert own[|pods| + 0] == "nsLabel(" + nss[0].0 + "=" + nss[0].1 + ")";
        assert own[0][0] == 'n';
      } else {
        assert own[0] == CidrFragment(peers[0].ipBlock.value);
        assert own[0][0] == 'c';
      }
    }
  }

  /** An IP block without exceptions keeps the dash: `cidr(CIDR -)`. */
  lemma CidrWithoutExceptions(cidr: string)
    ensures CidrFragment(IPBlock(cidr, [])) == "cidr(" + cidr + " -)"
  {
  }

  /** A pod selector `{app: web}` renders as `podLabel(app=web)`. */
  lemma PodLabelExample()
    ensures PrintPeer([Peer(Some(LabelSelector([("app", "web")], [])), None, None)]) == "podLabel(app=web)"
  {
    var peer := Peer(Some(LabelSelector([("app", "web")], [])), None, None);
    var pods := LabelFragments("podLabel", [("app", "web")]);
    assert pods[0] == "podLabel(app=web)";
    assert pods == ["podLabel(app=web)"];
    assert PeerFragment(peer) == pods + [] + [];
    assert PeerFragments([peer]) == ["podLabel(app=web)"];
  }

  /** Pod labels, then namespace labels, then the IP block with its exceptions comma-joined. */
  lemma FullPeerExample()
    ensures PrintPeer([FullPeer()]) == "podLabel(a=b)" + " " + "nsLabel(c=d)" + " " + "cidr(X -Y,Z)"
  {
    FullPeerFragments();
    var frags := ["podLabel(a=b)", "nsLabel(c=d)", "cidr(X -Y,Z)"];
    assert frags[1..] == ["nsLabel(c=d)", "cidr(X -Y,Z)"];
    assert frags[1..][1..] == ["cidr(X -Y,Z)"];
    assert Join(frags[1..][1..], " ") == "cidr(X -Y,Z)";
    assert Join(frags[1..], " ") == "nsLabel(c=d)" + " " + "cidr(X -Y,Z)";
  }

  function FullPeer(): Peer
  {
    Peer(Some(LabelSelector([("a", "b")], [])), Some(LabelSelector([("c", "d")], [])), Some(IPBlock("X", ["Y", "Z"])))
  }

  lemma FullPeerFragments()
    ensures PeerFragments([FullPeer()]) == ["podLabel(a=b)", "nsLabel(c=d)", "cidr(X -Y,Z)"]
  {
    var peer := FullPeer();
    assert Join(["Y", "Z"], ",") == "Y,Z";
    var pods := LabelFragments("podLabel", [("a", "b")]);
    var nss := LabelFragments("nsLabel", [("c", "d")]);
    var cidr := CidrFragment(peer.ipBlock.value);
    assert cidr == "cidr(X -Y,Z)";
    assert pods[0] == "podLabel(a=b)";
    assert nss[0] == "nsLabel(c=d)";
    assert PeerFragment(peer) == pods + nss + [cidr];
    assert [peer][1..] == [];
    assert PeerFragments([]) == [];
  }

  /** A blank peer adds nothing, and an IP block without exceptions keeps its dash. */
  lemma BlankPeerExample()
    ensures PrintPeer([Peer(None, None, Some(IPBlock("0.0.0.0/0", []))), Peer(None, None, None)]) == "cidr(0.0.0.0/0 -)"
  {
    var a := Peer(None, None, Some(IPBlock("0.0.0.0/0", [])));
    var b := Peer(None, None, None);
    assert CidrFragment(a.ipBlock.value) == "cidr(0.0.0.0/0 -)";
    assert PeerFragment(a) == [] + [] + [CidrFragment(a.ipBlock.value)];
    assert PeerFragment(b) == [];
    assert PeerFragments([b]) == [];
    assert PeerFragments([a, b]) == ["cidr(0.0.0.0/0 -)"];
  }
}
