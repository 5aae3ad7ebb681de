/** scripts/assign-neighborhoods.ts: for each neighbourhood, assign every
    provider of its city whose address mentions the neighbourhood's name. */
module AssignNeighborhoods {
  import opened Text
  import opened Store

  /** The test a provider row passes for neighbourhood `hk` named `name`: the
      query's `cityId` filter, then a present, non-empty address that contains
      the name, both lower-cased. */
  predicate Matches(p: Provider, hk: HoodKey, name: Str)
  {
    p.cityId == hk.0 && Truthy(p.address) && Contains(LowerStr(p.address.value), LowerStr(name))
  }

  /** The providers of `order` that pass the test for `hk`. */
  function Matched(t: Providers, order: seq<PlaceId>, hk: HoodKey, name: Str): set<PlaceId>
  {
    set k | k in t && k in order && Matches(t[k], hk, name)
  }

  /** `t` with the neighbourhood of every provider in `ids` set to `hk` and
      every other field and row left alone. */
  function SetHood(t: Providers, ids: set<PlaceId>, hk: HoodKey): (r: Providers)
    ensures r.Keys == t.Keys
  {
    map k | k in t :: if k in ids then t[k].(neighborhoodId := Some(hk)) else t[k]
  }

  /** Adding one provider to the assigned set assigns that provider's row. */
  lemma SetHoodAdd(t: Providers, ids: set<PlaceId>, hk: HoodKey, id: PlaceId)
    requires id in t
    ensures SetHood(t, ids + {id}, hk) == SetHood(t, ids, hk)[id := SetHood(t, ids, hk)[id].(neighborhoodId := Some(hk))]
  {
    var a := SetHood(t, ids + {id}, hk);
    var b := SetHood(t, ids, hk)[id := SetHood(t, ids, hk)[id].(neighborhoodId := Some(hk))];
    assert a.Keys == b.Keys;
    forall k | k in a ensures a[k] == b[k] {
    }
  }

  /** The number of positions of `order` whose provider passes the test. */
  function MatchCount(t: Providers, order: seq<PlaceId>, hk: HoodKey, name: Str): nat
    requires forall i :: 0 <= i < |order| ==> order[i] in t
  {
    if order == [] then 0
    else
      var init := order[..|order| - 1];
      assert forall i :: 0 <= i < |init| ==> init[i] == order[i];
      MatchCount(t, init, hk, name) + if Matches(t[order[|order| - 1]], hk, name) then 1 else 0
  }

  /** One more provider of `order`: it joins the matched set, and the
      count, exactly when it passes the test. */
  lemma MatchedStep(t: Providers, order: seq<PlaceId>, hk: HoodKey, name: Str, j: nat)
    requires forall i :: 0 <= i < |order| ==> order[i] in t
    requires j < |order|
    ensures Matched(t, order[..j + 1], hk, name)
      == Matched(t, order[..j], hk, name) + if Matches(t[order[j]], hk, name) then {order[j]} else {}
    ensures MatchCount(t, order[..j + 1], hk, name)
      == MatchCount(t, order[..j], hk, name) + if Matches(t[order[j]], hk, name) then 1 else 0
  {
    PrefixSnoc(order, j);
    PrefixOfPrefix(order, j);
  }

  /** One provider of the inner loop, from the table `u` and count `n`
      reached after the first `j`. */
  lemma AssignHoodStep(t: Providers, order: seq<PlaceId>, hk: HoodKey, name: Str, j: nat, u: Providers, n: nat)
    requires forall i :: 0 <= i < |order| ==> order[i] in t
    requires j < |order|
    requires u == SetHood(t, Matched(t, order[..j], hk, name), hk)
    requires n == MatchCount(t, order[..j], hk, name)
    ensures order[j] in u
    ensures Matches(t[order[j]], hk, name) ==>
      SetHood(t, Matched(t, order[..j + 1], hk, name), hk) == u[order[j] := u[order[j]].(neighborhoodId := Some(hk))]
    ensures !Matches(t[order[j]], hk, name) ==> SetHood(t, Matched(t, order[..j + 1], hk, name), hk) == u
    ensures MatchCount(t, order[..j + 1], hk, name) == n + if Matches(t[order[j]], hk, name) then 1 else 0
  {
    MatchedStep(t, order, hk, name, j);
    if Matches(t[order[j]], hk, name) {
      SetHoodAdd(t, Matched(t, order[..j], hk, name), hk, order[j]);
    }
  }

  /** The inner loop for neighbourhood `hk`: every provider of `order` (the
      rows the query returns, read once) that passes the test gets
      `neighborhoodId` set to `hk`; `n` counts the updates. */
  method AssignHood(t: Providers, order: seq<PlaceId>, hk: HoodKey, name: Str) returns (t': Providers, n: nat)
    requires forall i :: 0 <= i < |order| ==> order[i] in t
    ensures t' == SetHood(t, Matched(t, order, hk, name), hk)
    ensures n == MatchCount(t, order, hk, name)
  {
    t', n := t, 0;
    assert order[..0] == [];
    assert t' == SetHood(t, {}, hk);
    for j := 0 to |order|
      invariant t' == SetHood(t, Matched(t, order[..j], hk, name), hk)
      invariant n == MatchCount(t, order[..j], hk, name)
    {
      var id := order[j];
      var provider := t[id];
      AssignHoodStep(t, order, hk, name, j, t', n);
      if provider.cityId == hk.0 {
        if provider.address.Some? && provider.address.value != []
           && Contains(LowerStr(provider.address.value), LowerStr(name)) {
          t' := t'[id := t'[id].(neighborhoodId := Some(hk))];
          n := n + 1;
        }
      }
    }
    assert order[..|order|] == order;
  }

  /** With each provider listed once, the count is the number of providers
      assigned. */
  lemma {:induction false} MatchCountIsMatched(t: Providers, order: seq<PlaceId>, hk: HoodKey, name: Str)
    requires forall i :: 0 <= i < |order| ==> order[i] in t
    requires Distinct(order)
    ensures MatchCount(t, order, hk, name) == |Matched(t, order, hk, name)|
  {
    if order != [] {
      var j := |order| - 1;
      var init := order[..j];
      assert Distinct(init);
      assert order[j] !in init;
      MatchCountIsMatched(t, init, hk, name);
      MatchedStep(t, order, hk, name, j);
      assert order[..j + 1] == order;
    }
  }

  /** The table after the outer loop over the neighbourhoods `hks`, each
      query reading the table as the earlier neighbourhoods left it. */
  function AssignAll(t: Providers, order: seq<PlaceId>, hks: seq<HoodKey>, hoods: map<HoodKey, Hood>): (r: Providers)
    requires forall i :: 0 <= i < |hks| ==> hks[i] in hoods
    ensures r.Keys == t.Keys
  {
    if hks == [] then t
    else
      var init := hks[..|hks| - 1];
      var hk := hks[|hks| - 1];
      assert forall i :: 0 <= i < |init| ==> init[i] == hks[i];
      var prev := AssignAll(t, order, init, hoods);
      SetHood(prev, Matched(prev, order, hk, hoods[hk].name), hk)
  }

  /** The final `matches`. */
  function TotalMatches(t: Providers, order: seq<PlaceId>, hks: seq<HoodKey>, hoods: map<HoodKey, Hood>): nat
    requires forall i :: 0 <= i < |order| ==> order[i] in t
    requires forall i :: 0 <= i < |hks| ==> hks[i] in hoods
  {
    if hks == [] then 0
    else
      var init := hks[..|hks| - 1];
      var hk := hks[|hks| - 1];
      assert forall i :: 0 <= i < |init| ==> init[i] == hks[i];
      TotalMatches(t, order, init, hoods) + MatchCount(AssignAll(t, order, init, hoods), order, hk, hoods[hk].name)
  }

  /** One more neighbourhood of the outer loop, from `u` and `n`. */
  lemma AssignAllStep(t: Providers, order: seq<PlaceId>, hks: seq<HoodKey>, hoods: map<HoodKey, Hood>,
                      i: nat, u: Providers, n: nat)
    requires forall i :: 0 <= i < |order| ==> order[i] in t
    requires forall i :: 0 <= i < |hks| ==> hks[i] in hoods
    requires i < |hks|
    requires u == AssignAll(t, order, hks[..i], hoods) && n == TotalMatches(t, order, hks[..i], hoods)
    ensures AssignAll(t, order, hks[..i + 1], hoods) == SetHood(u, Matched(u, order, hks[i], hoods[hks[i]].name), hks[i])
    ensures TotalMatches(t, order, hks[..i + 1], hoods) == n + MatchCount(u, order, hks[i], hoods[hks[i]].name)
  {
    PrefixOfPrefix(hks, i);
  }

  /** `main`: for each neighbourhood, assign the providers of its city whose
      address mentions it, counting the updates in `matches`. */
  method AssignNeighborhoods(t: Providers, order: seq<PlaceId>, hks: seq<HoodKey>, hoods: map<HoodKey, Hood>)
    returns (t': Providers, matches: nat)
    requires forall i :: 0 <= i < |order| ==> order[i] in t
    requires forall i :: 0 <= i < |hks| ==> hks[i] in hoods
    ensures t' == AssignAll(t, order, hks, hoods)
    ensures matches == TotalMatches(t, order, hks, hoods)
  {
    t', matches := t, 0;
    assert hks[..0] == [];
    for i := 0 to |hks|
      invariant t'.Keys == t.Keys
      invariant t' == AssignAll(t, order, hks[..i], hoods)
      invariant matches == TotalMatches(t, order, hks[..i], hoods)
    {
      var hk := hks[i];
      AssignAllStep(t, order, hks, hoods, i, t', matches);
      var n;
      t', n := AssignHood(t', order, hk, hoods[hk].name);
      matches := matches + n;
    }
    assert hks[..|hks|] == hks;
  }

  /** The last neighbourhood of `hks` whose test provider `p` passes. */
  function LastMatch(p: Provider, hks: seq<HoodKey>, hoods: map<HoodKey, Hood>): (r: Option<HoodKey>)
    requires forall i :: 0 <= i < |hks| ==> hks[i] in hoods
    ensures r.Some? ==> r.value in hoods && Matches(p, r.value, hoods[r.value].name)
    ensures r.None? ==> forall i :: 0 <= i < |hks| ==> !Matches(p, hks[i], hoods[hks[i]].name)
  {
    if hks == [] then None
    else
      var hk := hks[|hks| - 1];
      if Matches(p, hk, hoods[hk].name) then Some(hk)
      else
        var init := hks[..|hks| - 1];
        assert forall i :: 0 <= i < |init| ==> init[i] == hks[i];
        LastMatch(p, init, hoods)
  }

  /** The run at one provider: a listed provider passing some neighbourhood's
      test ends with the last such neighbourhood (earlier assignments are
      overwritten), every other provider keeps its row, and nothing but
      `neighborhoodId` changes. */
  lemma {:induction false} AssignAllAt(t: Providers, order: seq<PlaceId>, hks: seq<HoodKey>, hoods: map<HoodKey, Hood>,
                                       k: PlaceId)
    requires forall i :: 0 <= i < |hks| ==> hks[i] in hoods
    requires k in t
    ensures AssignAll(t, order, hks, hoods)[k]
      == if k in order && LastMatch(t[k], hks, hoods).Some? then t[k].(neighborhoodId := LastMatch(t[k], hks, hoods))
         else t[k]
  {
    if hks != [] {
      var init := hks[..|hks| - 1];
      var hk := hks[|hks| - 1];
      assert forall i :: 0 <= i < |init| ==> init[i] == hks[i];
      AssignAllAt(t, order, init, hoods, k);
      var prev := AssignAll(t, order, init, hoods);
      assert prev[k].cityId == t[k].cityId && prev[k].address == t[k].address;
      assert Matches(prev[k], hk, hoods[hk].name) == Matches(t[k], hk, hoods[hk].name);
    }
  }

  /** An assigned provider's neighbourhood lies in the provider's own city,
      and its address mentions that neighbourhood; a provider that is not
      listed, or whose address mentions no neighbourhood, keeps its row. */
  lemma AssignedInOwnCity(t: Providers, order: seq<PlaceId>, hks: seq<HoodKey>, hoods: map<HoodKey, Hood>, k: PlaceId)
    requires forall i :: 0 <= i < |hks| ==> hks[i] in hoods
    requires k in t
    ensures var r := AssignAll(t, order, hks, hoods)[k];
      r != t[k] ==>
        && r == t[k].(neighborhoodId := r.neighborhoodId)
        && r.neighborhoodId.Some? && r.neighborhoodId.value in hoods
        && r.neighborhoodId.value.0 == t[k].cityId
        && Truthy(t[k].address)
        && Contains(LowerStr(t[k].address.value), LowerStr(hoods[r.neighborhoodId.value].name))
    ensures (k !in order || forall i :: 0 <= i < |hks| ==> !Matches(t[k], hks[i], hoods[hks[i]].name))
      ==> AssignAll(t, order, hks, hoods)[k] == t[k]
  {
    AssignAllAt(t, order, hks, hoods, k);
  }
}
