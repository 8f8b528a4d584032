/** Which policies select the pod: `isPodMatch` and `hasPolicy` (main.go:169-185). */
module Selectors {
  import opened Wrappers
  import opened Api

  /** The parts of the Kubernetes label library whose code is not part of this model:
      syntax validation of a label key/value (done by `labels.NewRequirement`), validation of a
      matchExpressions entry (operator and values), and the truth of an entry on a label set. */
  datatype LabelLibrary = LabelLibrary(
    validLabel: (string, string) -> bool,
    validExpression: Expression -> bool,
    expressionHolds: (Expression, map<string, string>) -> bool)

  /** One requirement of a converted `labels.Selector`. */
  datatype Requirement = Equals(key: string, value: string) | FromExpression(expr: Expression)

  /** Why `metav1.LabelSelectorAsSelector` refused a selector. */
  datatype SelectorError = InvalidLabel(key: string, value: string) | InvalidExpression(expr: Expression)

  /** Conversion succeeds exactly when every part of the selector is acceptable to the library. */
  predicate SelectorValid(sel: LabelSelector, lib: LabelLibrary)
  {
    (forall i :: 0 <= i < |sel.matchLabels| ==> lib.validLabel(sel.matchLabels[i].0, sel.matchLabels[i].1)) &&
    (forall j :: 0 <= j < |sel.matchExpressions| ==> lib.validExpression(sel.matchExpressions[j]))
  }

  /** Every matchLabels pair is present, with the same value, among the labels. */
  predicate LabelsPresent(pairs: seq<(string, string)>, labels: map<string, string>)
  {
    forall i :: 0 <= i < |pairs| ==> pairs[i].0 in labels && labels[pairs[i].0] == pairs[i].1
  }

  /** The Kubernetes meaning of a selector on a label set: every pair present and every expression true. */
  predicate SelectorSatisfied(sel: LabelSelector, labels: map<string, string>, lib: LabelLibrary)
  {
    LabelsPresent(sel.matchLabels, labels) &&
    forall j :: 0 <= j < |sel.matchExpressions| ==> lib.expressionHolds(sel.matchExpressions[j], labels)
  }

  /** One Equals requirement per matchLabels pair, in iteration order; the first invalid pair aborts. */
  function LabelRequirements(pairs: seq<(string, string)>, lib: LabelLibrary): (r: Result<seq<Requirement>, SelectorError>)
    ensures r.Success? <==> forall i :: 0 <= i < |pairs| ==> lib.validLabel(pairs[i].0, pairs[i].1)
    ensures r.Success? ==> |r.value| == |pairs|
    ensures r.Success? ==> forall i :: 0 <= i < |pairs| ==> r.value[i] == Equals(pairs[i].0, pairs[i].1)
    ensures r.Failure? ==>
              exists i :: 0 <= i < |pairs| && !lib.validLabel(pairs[i].0, pairs[i].1) && r.error == InvalidLabel(pairs[i].0, pairs[i].1) &&
                          forall k :: 0 <= k < i ==> lib.validLabel(pairs[k].0, pairs[k].1)
  {
    if |pairs| == 0 then Success([])
    else if !lib.validLabel(pairs[0].0, pairs[0].1) then Failure(InvalidLabel(pairs[0].0, pairs[0].1))
    else
      match LabelRequirements(pairs[1..], lib)
      case Failure(e) =>
        assert forall i :: 0 < i < |pairs| ==> pairs[i] == pairs[1..][i - 1];
        Failure(e)
      case Success(rest) => Success([Equals(pairs[0].0, pairs[0].1)] + rest)
  }

  /** One requirement per matchExpressions entry, in order; the first invalid entry aborts. */
  function ExpressionRequirements(exprs: seq<Expression>, lib: LabelLibrary): (r: Result<seq<Requirement>, SelectorError>)
    ensures r.Success? <==> forall j :: 0 <= j < |exprs| ==> lib.validExpression(exprs[j])
    ensures r.Success? ==> |r.value| == |exprs|
    ensures r.Success? ==> forall j :: 0 <= j < |exprs| ==> r.value[j] == FromExpression(exprs[j])
    ensures r.Failure? ==>
              exists j :: 0 <= j < |exprs| && !lib.validExpression(exprs[j]) && r.error == InvalidExpression(exprs[j]) &&
                          forall k :: 0 <= k < j ==> lib.validExpression(exprs[k])
  {
    if |exprs| == 0 then Success([])
    else if !lib.validExpression(exprs[0]) then Failure(InvalidExpression(exprs[0]))
    else
      match ExpressionRequirements(exprs[1..], lib)
      case Failure(e) =>
        assert forall j :: 0 < j < |exprs| ==> exprs[j] == exprs[1..][j - 1];
        Failure(e)
      case Success(rest) => Success([FromExpression(exprs[0])] + rest)
  }

  /** `metav1.LabelSelectorAsSelector`: a selector with no parts is Everything (no requirements);
      otherwise one requirement per matchLabels pair and per matchExpressions entry. The library
      sorts them by key, but their order does not affect `Matches`, which is a conjunction. */
  function AsSelector(sel: LabelSelector, lib: LabelLibrary): (r: Result<seq<Requirement>, SelectorError>)
    ensures r.Success? <==> SelectorValid(sel, lib)
    ensures r.Success? ==> |r.value| == |sel.matchLabels| + |sel.matchExpressions|
  {
    if |sel.matchLabels| + |sel.matchExpressions| == 0 then Success([])
    else
      match LabelRequirements(sel.matchLabels, lib)
      case Failure(e) => Failure(e)
      case Success(labelReqs) =>
        match ExpressionRequirements(sel.matchExpressions, lib)
        case Failure(e) => Failure(e)
        case Success(exprReqs) => Success(labelReqs + exprReqs)
  }

  predicate RequirementHolds(req: Requirement, labels: map<string, string>, lib: LabelLibrary)
  {
    match req
    case Equals(k, v) => k in labels && labels[k] == v
    case FromExpression(e) => lib.expressionHolds(e, labels)
  }

  /** `selector.Matches`: every requirement holds. */
  predicate RequirementsHold(reqs: seq<Requirement>, labels: map<string, string>, lib: LabelLibrary)
  {
    forall k :: 0 <= k < |reqs| ==> RequirementHolds(reqs[k], labels, lib)
  }

  /** `isPodMatch`: `Failure` is the panic on a selector the library refuses; otherwise whether the
      converted selector is empty or matches the pod's labels. */
  function IsPodMatch(pod: Pod, sel: LabelSelector, lib: LabelLibrary): (r: Result<bool, SelectorError>)
    ensures r.Failure? <==> !SelectorValid(sel, lib)
    ensures r.Success? ==> (r.value <==> SelectorSatisfied(sel, pod.labels, lib))
  {
    match AsSelector(sel, lib)
    case Failure(e) => Failure(e)
    case Success(reqs) =>
      var ok := |reqs| == 0 || RequirementsHold(reqs, pod.labels, lib);
      LabelRequirementsHold(sel, pod.labels, lib);
      Success(ok)
  }

  /** The converted requirements hold exactly when the selector is satisfied. */
  lemma LabelRequirementsHold(sel: LabelSelector, labels: map<string, string>, lib: LabelLibrary)
    requires SelectorValid(sel, lib)
    ensures AsSelector(sel, lib).Success?
    ensures RequirementsHold(AsSelector(sel, lib).value, labels, lib) <==> SelectorSatisfied(sel, labels, lib)
  {
    var reqs := AsSelector(sel, lib).value;
    var n := |sel.matchLabels|;
    if n + |sel.matchExpressions| > 0 {
      var lr := LabelRequirements(sel.matchLabels, lib).value;
      var er := ExpressionRequirements(sel.matchExpressions, lib).value;
      assert reqs == lr + er;
      assert forall i :: 0 <= i < n ==> reqs[i] == Equals(sel.matchLabels[i].0, sel.matchLabels[i].1);
      assert forall j :: 0 <= j < |sel.matchExpressions| ==> reqs[n + j] == FromExpression(sel.matchExpressions[j]);
      if RequirementsHold(reqs, labels, lib) {
        forall j | 0 <= j < |sel.matchExpressions|
          ensures lib.expressionHolds(sel.matchExpressions[j], labels)
        {
          assert RequirementHolds(reqs[n + j], labels, lib);
        }
      }
    }
  }

  /** A selector with neither matchLabels nor matchExpressions selects every pod. */
  lemma EmptySelectorMatchesEveryPod(pod: Pod, lib: LabelLibrary)
    ensures IsPodMatch(pod, LabelSelector([], []), lib) == Success(true)
  {
  }

  /** With no matchExpressions, a valid selector matches exactly the pods carrying all its pairs. */
  lemma MatchLabelsOnly(pod: Pod, sel: LabelSelector, lib: LabelLibrary)
    requires sel.matchExpressions == []
    requires SelectorValid(sel, lib)
    ensures IsPodMatch(pod, sel, lib) ==
      Success(forall i :: 0 <= i < |sel.matchLabels| ==>
        sel.matchLabels[i].0 in pod.labels && pod.labels[sel.matchLabels[i].0] == sel.matchLabels[i].1)
  {
  }

  /** A selector the library refuses aborts the run: it never yields `false`. */
  lemma InvalidSelectorAborts(pod: Pod, sel: LabelSelector, lib: LabelLibrary)
    requires !SelectorValid(sel, lib)
    ensures IsPodMatch(pod, sel, lib).Failure?
    ensures IsPodMatch(pod, sel, lib) != Success(false)
  {
  }

  /** The iteration order of matchLabels does not change the verdict: two selectors holding the same
      pairs and the same expressions agree on whether they abort and on whether they match. */
  lemma MatchIgnoresLabelOrder(pod: Pod, a: LabelSelector, b: LabelSelector, lib: LabelLibrary)
    requires multiset(a.matchLabels) == multiset(b.matchLabels)
    requires a.matchExpressions == b.matchExpressions
    ensures IsPodMatch(pod, a, lib).Success? == IsPodMatch(pod, b, lib).Success?
    ensures IsPodMatch(pod, a, lib).Success? ==> IsPodMatch(pod, a, lib).value == IsPodMatch(pod, b, lib).value
  {
    PairsCovered(a.matchLabels, b.matchLabels, pod.labels, lib);
    PairsCovered(b.matchLabels, a.matchLabels, pod.labels, lib);
    assert SelectorValid(a, lib) <==> SelectorValid(b, lib);
    assert SelectorSatisfied(a, pod.labels, lib) <==> SelectorSatisfied(b, pod.labels, lib);
  }

  /** Every pair of `x` also occurs in `y`, so whatever holds of all pairs of `y` holds of all of `x`. */
  lemma PairsCovered(x: seq<(string, string)>, y: seq<(string, string)>, labels: map<string, string>, lib: LabelLibrary)
    requires multiset(x) == multiset(y)
    ensures (forall j :: 0 <= j < |y| ==> lib.validLabel(y[j].0, y[j].1)) ==>
            (forall i :: 0 <= i < |x| ==> lib.validLabel(x[i].0, x[i].1))
    ensures LabelsPresent(y, labels) ==> LabelsPresent(x, labels)
  {
    forall i | 0 <= i < |x|
      ensures exists j :: 0 <= j < |y| && y[j] == x[i]
    {
      assert x[i] in multiset(x);
      assert x[i] in y;
    }
  }

  /** `hasPolicy`: whether the type occurs in the list, compared literally with no defaulting. */
  function HasPolicy(types: seq<string>, t: string): (r: bool)
    ensures r <==> t in types
  {
    if |types| == 0 then false
    else if types[0] == t then true
    else HasPolicy(types[1..], t)
  }

  /** An empty PolicyTypes list governs neither direction. */
  lemma EmptyPolicyTypesGovernNothing(d: Direction)
    ensures !HasPolicy([], d.Name())
  {
  }
}
