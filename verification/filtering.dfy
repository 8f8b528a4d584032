/** The policy-filter loop of `runPod` (main.go:71-82): split the namespace's policies into those
    governing the pod's ingress and those governing its egress. */
module Filtering {
  import opened Wrappers
  import opened Api
  import opened Selectors
  import opened Sequences

  /** A policy governs direction `d` of the pod: its selector converts and matches the pod, and `d`
      is among its declared policy types. */
  predicate Governs(pod: Pod, p: NetworkPolicy, d: Direction, lib: LabelLibrary)
  {
    IsPodMatch(pod, p.spec.podSelector, lib) == Success(true) && HasPolicy(p.spec.policyTypes, d.Name())
  }

  /** The test the loop applies to each listed policy for direction `d`. */
  function Keep(pod: Pod, d: Direction, lib: LabelLibrary): NetworkPolicy -> bool
  {
    p => Governs(pod, p, d, lib)
  }

  /** Reference definition: the policies governing `d`, in listing order. */
  function Governing(pod: Pod, items: seq<NetworkPolicy>, d: Direction, lib: LabelLibrary): seq<NetworkPolicy>
  {
    Filter(items, Keep(pod, d, lib))
  }

  /** A policy is selected iff it is listed and governs the direction. */
  lemma GoverningMembership(pod: Pod, items: seq<NetworkPolicy>, d: Direction, lib: LabelLibrary)
    ensures forall p :: p in Governing(pod, items, d, lib) <==> p in items && Governs(pod, p, d, lib)
  {
    FilterMembership(items, Keep(pod, d, lib));
  }

  /** Relative order is kept: if policies i < j both govern `d`, item i is listed before item j. */
  lemma GoverningKeepsOrder(pod: Pod, items: seq<NetworkPolicy>, d: Direction, lib: LabelLibrary, i: int, j: int)
    requires 0 <= i < j < |items|
    requires Governs(pod, items[i], d, lib) && Governs(pod, items[j], d, lib)
    ensures var g := Governing(pod, items, d, lib);
              exists k, l :: 0 <= k < l < |g| && g[k] == items[i] && g[l] == items[j]
  {
    var keep := Keep(pod, d, lib);
    assert keep(items[i]) && keep(items[j]);
    FilterKeepsOrder(items, keep, i, j);
    assert Governing(pod, items, d, lib) == Filter(items, keep);
  }

  /** A policy whose selector does not match the pod appears in neither list. */
  lemma NonMatchingInNeither(pod: Pod, items: seq<NetworkPolicy>, p: NetworkPolicy, lib: LabelLibrary)
    requires IsPodMatch(pod, p.spec.podSelector, lib) != Success(true)
    ensures p !in Governing(pod, items, Ingress, lib) && p !in Governing(pod, items, Egress, lib)
  {
    GoverningMembership(pod, items, Ingress, lib);
    GoverningMembership(pod, items, Egress, lib);
  }

  /** A matching policy declaring both types appears in both lists. */
  lemma BothTypesInBoth(pod: Pod, items: seq<NetworkPolicy>, p: NetworkPolicy, lib: LabelLibrary)
    requires p in items
    requires IsPodMatch(pod, p.spec.podSelector, lib) == Success(true)
    requires "Ingress" in p.spec.policyTypes && "Egress" in p.spec.policyTypes
    ensures p in Governing(pod, items, Ingress, lib) && p in Governing(pod, items, Egress, lib)
  {
    GoverningMembership(pod, items, Ingress, lib);
    GoverningMembership(pod, items, Egress, lib);
  }

  /** The two lists the loop builds. */
  datatype Selected = Selected(ingress: seq<NetworkPolicy>, egress: seq<NetworkPolicy>)

  /** Every listed policy's selector is acceptable to the label library. */
  predicate AllSelectorsValid(items: seq<NetworkPolicy>, lib: LabelLibrary)
  {
    forall i :: 0 <= i < |items| ==> SelectorValid(items[i].spec.podSelector, lib)
  }

  /** One step of the loop: extending the listing by item i extends each list by at most that item. */
  lemma SelectStep(pod: Pod, items: seq<NetworkPolicy>, i: int, lib: LabelLibrary)
    requires 0 <= i < |items|
    requires AllSelectorsValid(items[..i], lib)
    requires SelectorValid(items[i].spec.podSelector, lib)
    ensures AllSelectorsValid(items[..i + 1], lib)
    ensures forall d: Direction ::
              Governing(pod, items[..i + 1], d, lib) ==
              Governing(pod, items[..i], d, lib) + (if Governs(pod, items[i], d, lib) then [items[i]] else [])
  {
    assert items[..i + 1] == items[..i] + [items[i]];
    forall d: Direction
      ensures Governing(pod, items[..i + 1], d, lib) ==
        Governing(pod, items[..i], d, lib) + (if Governs(pod, items[i], d, lib) then [items[i]] else [])
    {
      FilterAppend(items[..i], [items[i]], Keep(pod, d, lib));
      assert [items[i]][1..] == [];
    }
  }

  /** The loop over `result.Items`: aborts on the first selector the library refuses; otherwise
      appends each matching policy to the ingress list and/or the egress list by its types. */
  method SelectPolicies(pod: Pod, items: seq<NetworkPolicy>, lib: LabelLibrary) returns (r: Result<Selected, SelectorError>)
    ensures r.Success? <==> AllSelectorsValid(items, lib)
    ensures r.Success? ==> r.value.ingress == Governing(pod, items, Ingress, lib)
    ensures r.Success? ==> r.value.egress == Governing(pod, items, Egress, lib)
    ensures r.Failure? ==>
              exists i :: 0 <= i < |items| && AllSelectorsValid(items[..i], lib) &&
                          IsPodMatch(pod, items[i].spec.podSelector, lib) == Failure(r.error)
  {
    var ingress: seq<NetworkPolicy> := [];
    var egress: seq<NetworkPolicy> := [];
    var i := 0;
    while i < |items|
      invariant 0 <= i <= |items|
      invariant AllSelectorsValid(items[..i], lib)
      invariant ingress == Governing(pod, items[..i], Ingress, lib)
      invariant egress == Governing(pod, items[..i], Egress, lib)
    {
      var item := items[i];
      var m := IsPodMatch(pod, item.spec.podSelector, lib);
      if m.Failure? {
        r := Failure(m.error);
        assert IsPodMatch(pod, items[i].spec.podSelector, lib) == Failure(r.error);
        assert !SelectorValid(items[i].spec.podSelector, lib);
        return;
      }
      if m.value {
        if HasPolicy(item.spec.policyTypes, Ingress.Name()) {
          ingress := ingress + [item];
        }
        if HasPolicy(item.spec.policyTypes, Egress.Name()) {
          egress := egress + [item];
        }
      }
      SelectStep(pod, items, i, lib);
      i := i + 1;
    }
    assert items[..i] == items;
    return Success(Selected(ingress, egress));
  }
}
