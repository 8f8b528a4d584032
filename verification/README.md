# kubectl-nplist policy resolution, modelled in Dafny

`kubectl-nplist POD` lists the Kubernetes NetworkPolicy rules that apply to one pod. It
splits the policies of the pod's namespace into those that govern its ingress and those that
govern its egress. It then prints one table row per rule:
`(direction, policy name, action, ports, peer)`.

This project models the pure part of that program, in `main.go`:

- **Selection** (`selectors.dfy`, `filtering.dfy`).
  - `isPodMatch` converts a policy's pod selector with the Kubernetes label library. It panics when
    the library refuses the selector. Otherwise it answers "empty, or matches the pod's labels".
  - `hasPolicy` looks a policy type up in the `PolicyTypes` list.
  - The loop in `runPod` builds the ingress list and the egress list.
- **Row projection** (`projection.dfy`). This is `render` without the table library.
  - A nil rule list gives one `DENY * *` row.
  - A present rule list gives one row per rule. Ingress rules are labelled `ALLOW`. Egress rules
    are labelled `DENY`.
- **Formatting** (`format.dfy`, with the string helpers in `text.dfy`).
  - `printPorts` renders `PROTO(port-end)` fragments joined by spaces, or `*` when there are no ports.
  - `printPeer` renders `podLabel(k=v)`, `nsLabel(k=v)` and `cidr(CIDR -e1,e2)` fragments joined by
    spaces. An empty peer list renders as `""`.
- **End to end** (`inspect.dfy`). This is filtering followed by projection, with a worked
  scenario.

The data model (`api.dfy`) is a slice of the core/v1 and networking/v1 types. Rule lists that
may be nil are `Option<seq<Rule>>`, so a nil list and a present but empty list stay distinct.
Ingress `From` and egress `To` are both the `peers` field of one `Rule` type. Each
`MatchLabels` map is a sequence of pairs with distinct keys (`LabelPairs`). The sequence is the
order in which the Go map happened to iterate.

The label library is not part of this model. Its pieces are a `LabelLibrary` parameter:
whether a key/value pair or a matchExpressions entry is acceptable, and whether an entry holds
on a label set. The library's meaning of a matchLabels pair is modelled concretely: the key is
present with that value. A refused selector is `Failure(SelectorError)`. That failure stands for
the panic at main.go:172.

The model keeps these behaviours of the code as written:

- main.go:166 joins the peer fragments with `strings.Join`, and an empty fragment list joins to
  `""`. So a rule with no ports and no peers prints `ALLOW * ` with an empty peer cell
  (`Inspect.OpenAndCidrRules`). A list of blank peers also renders as `""`.
- main.go:117 labels explicit egress rules `DENY`, the same as the nil-list fallback at
  main.go:113-114. The two can still be told apart: a peer cell is `*` only on a fallback row
  (`Projection.StarPeerMeansNilRules`).
- main.go:152 and main.go:157 range over the label maps, so label pairs appear in the map's
  iteration order. That order is an input here.
- `hasPolicy` (main.go:177-185) does no defaulting. A policy with an empty `PolicyTypes` list
  governs neither direction, whatever rules it holds. (The API server normally fills `PolicyTypes`
  in; this program does not.)

## Model

| member | source | states |
|---|---|---|
| Selectors.LabelRequirements | main.go:170 | One Equals requirement per matchLabels pair, in order. Conversion fails iff some pair is refused, and the error names the first refused pair. |
| Selectors.ExpressionRequirements | main.go:170 | One requirement per matchExpressions entry, in order. Conversion fails iff some entry is refused, and the error names the first refused entry. |
| Selectors.AsSelector | main.go:170-173 | Conversion succeeds iff every pair and every entry is acceptable. It then yields one requirement per part. |
| Selectors.IsPodMatch | main.go:169-175 | Fails (the panic) iff the selector is refused. Otherwise true iff every pair is present in the pod's labels and every expression holds. |
| Selectors.LabelRequirementsHold | main.go:174 | The converted requirements hold on a label set iff the selector's pairs are present and its expressions hold. |
| Selectors.EmptySelectorMatchesEveryPod | main.go:174 | A selector with no pairs and no expressions matches every pod, whatever its labels. |
| Selectors.MatchLabelsOnly | main.go:169-175 | A valid selector with only matchLabels matches iff every key=value pair is among the pod's labels. |
| Selectors.InvalidSelectorAborts | main.go:170-173 | A refused selector aborts; it never yields false. |
| Selectors.MatchIgnoresLabelOrder | main.go:169-175 | Two selectors with the same pairs in any order agree on aborting and on matching. |
| Selectors.PairsCovered | main.go:170-174 | Pair lists with the same pairs agree on "every pair is acceptable" and on "every pair is present". |
| Selectors.HasPolicy | main.go:177-185 | True iff the type occurs in the list. |
| Selectors.EmptyPolicyTypesGovernNothing | main.go:177-185 | An empty PolicyTypes list contains neither Ingress nor Egress. |
| Filtering.GoverningMembership | main.go:73-82 | A policy is selected for a direction iff it is listed, its selector matches the pod, and its types contain the direction. |
| Sequences.FilterMembership | main.go:73-82 | An element is kept iff it is in the input and passes the test. |
| Sequences.FilterAppend | main.go:73-82 | Filtering a concatenation gives the concatenation of the two filterings. |
| Sequences.FilterSplitAt | main.go:73-82 | Around a passing element: the kept elements before it, then it, then the kept elements after it. |
| Sequences.FilterKeepsOrder | main.go:73-82 | Two passing elements keep their relative order. |
| Filtering.GoverningKeepsOrder | main.go:73-82 | Two selected policies keep their relative listing order. |
| Filtering.NonMatchingInNeither | main.go:74-81 | A policy whose selector does not match is in neither list. |
| Filtering.BothTypesInBoth | main.go:74-81 | A matching policy declaring both types is in both lists. |
| Filtering.SelectStep | main.go:73-81 | One loop iteration appends the item to exactly the lists whose direction it governs. |
| Filtering.SelectPolicies | main.go:71-82 | The loop succeeds iff every selector converts. It then builds exactly the ingress and egress selections. On failure the error is a listed policy's conversion error. |
| Text.Join | main.go:145 | Go's `strings.Join` (also used at main.go:162 and main.go:166): no parts give `""`; otherwise the text is every part's characters plus one separator between each pair of neighbours, so its length is the parts' total length plus (parts - 1) separators. |
| Text.JoinAppend | main.go:145 | Joining two non-empty lists puts one separator between the two joined halves. |
| Text.SplitOn | main.go:145 | Go's `strings.Split` on a one-character separator, used as the inverse of the `strings.Join` at this line (main.go itself never splits): splitting yields at least one segment, and no segment contains the separator. `Text.SplitOnJoinsBack` shows the segments join back to the text, which pins them down. |
| Text.SplitOnJoinsBack | main.go:145 | Joining the segments of a one-character split with that character gives back the text. With `Text.SplitOnJoin` this is the Split/Join round trip in both directions. |
| Text.SplitOnJoin | main.go:145 | The `strings.Join` at this line is undone by `strings.Split` on the same one-character separator: splitting the join recovers the parts when no part contains the separator. |
| Text.NatToDecimal | main.go:139 | Decimal text is non-empty and all digits, with a leading zero only for 0. |
| Text.IntToDecimal | main.go:139 | The text starts with '-' iff the number is negative. |
| Text.NatToDecimalRoundTrip | main.go:139 | Reading the digits back gives the number rendered. |
| Text.IntToDecimalRoundTrip | main.go:139 | Reading the signed text back gives the integer rendered. |
| Format.PortFragment | main.go:132-141 | One port's fragment is the protocol text (empty when nil), then `(`, then the port and the optional `-end`, then a closing `)`. Its length is the sum of those pieces plus the two parentheses. |
| Format.PortFragments | main.go:131-143 | One fragment per port, in port order. |
| Format.PrintPorts | main.go:125-146 | The text is "*" iff there are no ports. |
| Format.NoSpaceInFragment | main.go:132-141 | A port fragment has no space when its protocol and port name have none. |
| Format.PrintPortsSplits | main.go:131-145 | Splitting the text on spaces gives back one fragment per port, in order, when names have no spaces. |
| Format.TcpPortExample | main.go:133-141 | TCP 8080 renders as `TCP(8080)`. |
| Format.TcpRangeExample | main.go:133-141 | TCP 8080 with end port 8090 renders as `TCP(8080-8090)`. |
| Format.NoProtocolExample | main.go:133-141 | A port without protocol renders as `(8080)`. |
| Format.TwoPortsExample | main.go:131-145 | Two ports, one named, render as `UDP(dns) (53)`. |
| Format.PortFragmentNotInjective | main.go:136-141 | The named port `a-1` and the named port `a` with end port 1 render alike. |
| Format.LabelFragments | main.go:152-159 | One `kind(k=v)` fragment per pair, in pair order. |
| Format.PeerFragment | main.go:150-163 | A peer gives its pod-label fragments, then its namespace-label fragments, then at most one cidr fragment, last. |
| Format.PeerFragmentsAppend | main.go:150-164 | Fragments of a concatenated peer list are the two lists' fragments, in peer order. |
| Format.PeerFragments | main.go:150-164 | The fragments of all peers, peer by peer. There is one fragment per label pair and one per IP block, summed over all peers. |
| Format.FragmentsNonEmpty | main.go:153-162 | No peer fragment is empty. |
| Format.PrintPeer | main.go:148-167 | An empty peer list renders as "". |
| Format.PrintPeerEmptyIffBlank | main.go:148-167 | The peer text is "" iff every peer sets no labels and no IP block. It is never "*". |
| Format.BlankIffNoFragments | main.go:150-164 | Peers give no fragments iff all of them are blank. |
| Format.FirstCharNotStar | main.go:153-162 | The first fragment is non-empty and does not start with '*'. |
| Format.CidrFragment | main.go:162 | An IP block renders as `cidr(`, then the CIDR, then ` -`, then the exceptions joined with commas, then `)`. The length is the CIDR's plus the joined exceptions' plus 8. |
| Format.CidrExceptionsRecoverable | main.go:162 | The comma-joined exceptions can be read back: the text between the dash and the closing parenthesis, split on commas, is the exception list (when no exception contains a comma). |
| Format.CidrWithoutExceptions | main.go:162 | An IP block without exceptions renders as `cidr(CIDR -)`. |
| Format.PodLabelExample | main.go:151-155 | The pod selector {app: web} renders as `podLabel(app=web)`. |
| Format.FullPeerExample | main.go:150-166 | Pod label, namespace label and IP block render in that order, exceptions comma-joined. |
| Format.FullPeerFragments | main.go:150-164 | The fragments of that peer are the pod label, the namespace label and the cidr, in order. |
| Format.BlankPeerExample | main.go:150-166 | A blank peer adds nothing next to a cidr peer. |
| Projection.RuleRows | main.go:97-120 | One row per rule, in rule order. Its ports and peer cells are exactly the rule's formatted ports and peers. |
| Projection.PolicyRows | main.go:97-120 | A nil rule list gives the one `DENY * *` row. A present list gives one row per rule. All rows carry the direction and the policy's name. |
| Projection.DirectionRows | main.go:97-120 | The row count is the sum of per-policy counts: one for a nil list, one per rule otherwise. |
| Projection.RowsCarryDirection | main.go:97-120 | Every row a direction's loop produces carries that direction's name. |
| Projection.DirectionRowsShape | main.go:97-120 | Every row carries the direction, the rule action or DENY, and the name of a given policy. |
| Projection.DirectionRowsSplitAt | main.go:97-106 | The rows are those of the policies before i, then policy i's, then those after. |
| Projection.RowOrigin | main.go:97-120 | Every row names one of the given policies. |
| Projection.NilRulesDenyAll | main.go:99-100 | A policy with a nil rule list yields exactly one `DENY * *` row. |
| Projection.RulesGiveOneRowEach | main.go:101-104 | A policy with n rules yields n rows, with the direction's action, in rule order. |
| Projection.EmptyRulesNoRows | main.go:101-104 | A present but empty rule list yields no rows. |
| Projection.DirectionRowsAppend | main.go:97-106 | Rows of a concatenated policy list are the two lists' rows, in order. |
| Projection.PolicyRowsInOrder | main.go:97-106 | For i < j, policy j's rows follow those of the policies before j. Within those, policy i's rows follow the rows before i. |
| Projection.SinglePolicyRows | main.go:97-106 | A one-policy list gives that policy's rows. |
| Projection.EgressRowsAllDeny | main.go:111-120 | Every egress row, explicit rules included, says DENY. |
| Projection.Render | main.go:88-123 | `render` without the table. Its row count is the ingress total plus the egress total. A row is an ingress row exactly when it lies among the first ingress-total rows, so all ingress rows come first and then all egress rows. |
| Projection.RuleRowsPeerNotStar | main.go:101-104 | A rule's row never has "*" as its peer cell and carries the direction's rule action. |
| Projection.StarPeerMeansNilRules | main.go:97-120 | A peer cell is "*" only on a `DENY * *` row. For ingress, DENY rows are exactly those rows. |
| Inspect.GoverningPortsSet | main.go:71-82 | The selected policies keep the listing's ports-set property. |
| Inspect.InspectPod | main.go:71-84 | The run aborts iff some policy's selector is refused, and the error is the first refused policy's (the loop panics on it before looking further). Otherwise it prints the ingress rows, then the egress rows, of the selected policies. |
| Inspect.RowsComeFromGoverningPolicies | main.go:71-120 | Every row of a direction names a listed policy that matches the pod and declares that direction. |
| Inspect.NoIngressTypeNoIngressRows | main.go:75-77 | A policy lacking the Ingress type yields no ingress row, whatever its ingress rules. |
| Inspect.IngressRowsFirst | main.go:97-120 | Every ingress row precedes every egress row. |
| Inspect.AllowWebSelected | main.go:73-82 | In the scenario, the policy is selected for ingress and not for egress. |
| Inspect.WebRuleRows | main.go:101-104 | The scenario policy's one rule gives the row `Ingress allow-web ALLOW TCP(80) podLabel(app=web)`. |
| Inspect.AllowWebScenario | main.go:71-120 | The pod {app: api} with policy allow-web prints exactly that row, and no egress rows. |
| Inspect.CidrRuleCells | main.go:125-167 | A TCP 80 rule with an exception-free CIDR peer prints `TCP(80)` and `cidr(X -)`. |
| Inspect.OpenAndCidrRules | main.go:97-106 | A rule without ports or peers prints `*` and `""`. |

## Left out

- The command line (cobra command, flags, `main`, main.go:23-48): argument parsing only.
- Kubeconfig loading, client construction and current-context namespace lookup (main.go:50-57,
  187-202): file and network I/O.
- The pod fetch, the policy-list fetch and the `fmt.Printf` output (main.go:59-69, 84). These
  are API calls and standard output. Their errors abort the run before any policy logic.
- The go-pretty table (main.go:89-96, 108-110, 122): headers, separators, merging of the
  direction column, and the final rendering. Only the data rows are modelled.
- The Kubernetes label library (`metav1.LabelSelectorAsSelector`, `selector.Matches`): key and
  value syntax checks, operator checks, and the meaning of matchExpressions are the abstract
  `LabelLibrary` parameter. Only the meaning of matchLabels is concrete.
- `IntOrString.String()` for a nil `Port`. That rendering lives in a library outside this model.
  Every formatter and projection therefore requires `Port` to be set.
- Inspect.InspectPod: requires `Port` to be set on every rule of every listed policy, although
  only the selected policies are rendered.
- Go map iteration order: the order of each `MatchLabels` map is an input sequence, not a random choice.
- Port numbers and end ports are unbounded integers, not `int32`. They are only rendered, and
  rendering an `int32` through `int64` is exact.
- Policies of other namespaces: the listing is the pod's own namespace, as fetched.
