/** scripts/fix-slugs.ts: regenerate every provider's slug with the three-tier
    rule, one provider at a time, writing only slugs that differ. */
module FixSlugs {
  import opened Text
  import opened Store
  import opened CleanSlug

  /** The slug the repair loop proposes for `snap`, the row of `id` as
      `findMany` read it, against the live table `t`. */
  function Proposed(lib: LibSlugify, t: Providers, snap: Provider, id: PlaceId): Str
  {
    GenerateCleanSlug(lib, t, snap.name, snap.cityId.1, id)
  }

  /** The update is attempted and succeeds: the row has a city, the proposed
      slug differs from the row's slug, and no other provider holds it. */
  predicate Writes(lib: LibSlugify, t: Providers, snap: Provider, id: PlaceId, cities: map<CityKey, City>)
  {
    snap.cityId in cities && Proposed(lib, t, snap, id) != snap.slug && !HeldByOther(t, Proposed(lib, t, snap, id), id)
  }

  /** One iteration of the loop in `main` for provider `id`: a row without a
      city is skipped, an unchanged slug is not written, and a failed update
      (the unique constraint on `slug`) leaves the table as it was. */
  function RepairOne(lib: LibSlugify, t: Providers, snap: Provider, id: PlaceId, cities: map<CityKey, City>): (r: Providers)
    requires id in t
    ensures snap.cityId !in cities ==> r == t
    ensures Writes(lib, t, snap, id, cities) ==> r == t[id := t[id].(slug := Proposed(lib, t, snap, id))]
    ensures !Writes(lib, t, snap, id, cities) ==> r == t
  {
    if snap.cityId !in cities then t
    else
      var newSlug := GenerateCleanSlug(lib, t, snap.name, snap.cityId.1, id);
      if newSlug == snap.slug then t
      else if HeldByOther(t, newSlug, id) then t
      else t[id := t[id].(slug := newSlug)]
  }

  /** The table and the `updated` counter after repairing the providers of
      `order` in turn, each read from the snapshot `t0`. */
  function RepairAll(lib: LibSlugify, t0: Providers, order: seq<PlaceId>, cities: map<CityKey, City>): (r: (Providers, nat))
    requires forall i :: 0 <= i < |order| ==> order[i] in t0
    ensures r.0.Keys == t0.Keys
    ensures r.1 <= |order|
    decreases |order|
  {
    if order == [] then (t0, 0)
    else
      var init := order[..|order| - 1];
      var id := order[|order| - 1];
      assert forall i :: 0 <= i < |init| ==> init[i] == order[i];
      var prev := RepairAll(lib, t0, init, cities);
      var w := Writes(lib, prev.0, t0[id], id, cities);
      (RepairOne(lib, prev.0, t0[id], id, cities), prev.1 + if w then 1 else 0)
  }

  /** Repairing one more provider of `order`, from the table `u` and the
      count `n` reached after the first `i`. */
  lemma RepairStep(lib: LibSlugify, t0: Providers, order: seq<PlaceId>, i: nat, cities: map<CityKey, City>,
                   u: Providers, n: nat)
    requires forall i :: 0 <= i < |order| ==> order[i] in t0
    requires i < |order| && RepairAll(lib, t0, order[..i], cities) == (u, n)
    ensures order[i] in u
    ensures RepairAll(lib, t0, order[..i + 1], cities).0 == RepairOne(lib, u, t0[order[i]], order[i], cities)
    ensures RepairAll(lib, t0, order[..i + 1], cities).1 == n + if Writes(lib, u, t0[order[i]], order[i], cities) then 1 else 0
  {
    assert order[..i + 1][..i] == order[..i];
  }

  /** `main`: for each provider read by `findMany`, propose a slug against the
      current table and write it when it differs, counting successful writes. */
  method RepairSlugs(lib: LibSlugify, t: Providers, order: seq<PlaceId>, cities: map<CityKey, City>)
    returns (t': Providers, updated: nat)
    requires forall i :: 0 <= i < |order| ==> order[i] in t
    ensures (t', updated) == RepairAll(lib, t, order, cities)
  {
    t', updated := t, 0;
    for i := 0 to |order|
      invariant RepairAll(lib, t, order[..i], cities) == (t', updated)
    {
      var id := order[i];
      var provider := t[id];
      RepairStep(lib, t, order, i, cities, t', updated);
      if provider.cityId in cities {
        var newSlug := GenerateCleanSlug(lib, t', provider.name, provider.cityId.1, id);
        if newSlug != provider.slug {
          if !HeldByOther(t', newSlug, id) {
            t' := t'[id := t'[id].(slug := newSlug)];
            updated := updated + 1;
          }
        }
      }
    }
    assert order[..|order|] == order;
  }

  /** The repair changes slugs only, and only of the providers it visits. */
  lemma {:induction false} RepairChangesOnlySlugs(lib: LibSlugify, t0: Providers, order: seq<PlaceId>,
                                                  cities: map<CityKey, City>, k: PlaceId)
    requires forall i :: 0 <= i < |order| ==> order[i] in t0
    requires k in t0
    ensures RepairAll(lib, t0, order, cities).0[k] == t0[k].(slug := RepairAll(lib, t0, order, cities).0[k].slug)
    ensures k !in order ==> RepairAll(lib, t0, order, cities).0[k] == t0[k]
  {
    if order != [] {
      var init := order[..|order| - 1];
      assert forall i :: 0 <= i < |init| ==> init[i] == order[i];
      RepairChangesOnlySlugs(lib, t0, init, cities, k);
      assert k !in order ==> k !in init;
    }
  }

  /** The repair keeps slugs unique. */
  lemma {:induction false} RepairKeepsSlugsUnique(lib: LibSlugify, t0: Providers, order: seq<PlaceId>, cities: map<CityKey, City>)
    requires forall i :: 0 <= i < |order| ==> order[i] in t0
    requires SlugsUnique(t0)
    ensures SlugsUnique(RepairAll(lib, t0, order, cities).0)
  {
    if order != [] {
      var init := order[..|order| - 1];
      var id := order[|order| - 1];
      assert forall i :: 0 <= i < |init| ==> init[i] == order[i];
      RepairKeepsSlugsUnique(lib, t0, init, cities);
      var prev := RepairAll(lib, t0, init, cities).0;
      if Writes(lib, prev, t0[id], id, cities) {
        RenameKeepsSlugsUnique(prev, id, Proposed(lib, prev, t0[id], id));
      }
    }
  }

  /** A provider that holds its bare name slug is never renamed: on its own
      turn tier 1 finds the slug held by the same place id. */
  lemma {:induction false} HolderNeverRenamed(lib: LibSlugify, t0: Providers, order: seq<PlaceId>, cities: map<CityKey, City>, id: PlaceId)
    requires forall i :: 0 <= i < |order| ==> order[i] in t0
    requires SlugsUnique(t0)
    requires id in t0 && t0[id].slug == NameSlug(lib, t0[id].name)
    ensures RepairAll(lib, t0, order, cities).0[id] == t0[id]
  {
    if order != [] {
      var init := order[..|order| - 1];
      var last := order[|order| - 1];
      assert forall i :: 0 <= i < |init| ==> init[i] == order[i];
      HolderNeverRenamed(lib, t0, init, cities, id);
      var prev := RepairAll(lib, t0, init, cities).0;
      if last == id {
        RepairKeepsSlugsUnique(lib, t0, init, cities);
        HolderKeepsNameSlug(lib, prev, id, t0[id].cityId.1);
      }
    }
  }

  /** The rows whose slug the run changed. */
  function Changed(t0: Providers, t: Providers): set<PlaceId>
    requires t.Keys == t0.Keys
  {
    set k | k in t0 && t[k].slug != t0[k].slug
  }

  /** Renaming a row that still has its starting slug adds one to the
      number of changed rows; not writing adds none. */
  lemma CountStep(t0: Providers, prev: Providers, prevCount: nat, id: PlaceId, slug: Str, w: bool,
                  next: Providers, nextCount: nat)
    requires prev.Keys == t0.Keys && id in t0 && prev[id] == t0[id]
    requires prevCount == |Changed(t0, prev)|
    requires w ==> slug != t0[id].slug && next == prev[id := prev[id].(slug := slug)] && nextCount == prevCount + 1
    requires !w ==> next == prev && nextCount == prevCount
    ensures next.Keys == t0.Keys && nextCount == |Changed(t0, next)|
  {
    if w {
      assert id !in Changed(t0, prev);
      assert Changed(t0, next) == Changed(t0, prev) + {id};
    }
  }

  /** With each provider listed once, `updated` is the number of providers
      whose slug the run changed: every counted write replaces the slug the
      row had at the start, and a failed update changes nothing. */
  lemma {:induction false} UpdatedCountsChangedRows(lib: LibSlugify, t0: Providers, order: seq<PlaceId>, cities: map<CityKey, City>)
    requires forall i :: 0 <= i < |order| ==> order[i] in t0
    requires Distinct(order)
    ensures RepairAll(lib, t0, order, cities).1 == |Changed(t0, RepairAll(lib, t0, order, cities).0)|
  {
    if order != [] {
      var init := order[..|order| - 1];
      var id := order[|order| - 1];
      assert forall i :: 0 <= i < |init| ==> init[i] == order[i];
      assert Distinct(init);
      assert id !in init;
      UpdatedCountsChangedRows(lib, t0, init, cities);
      RepairChangesOnlySlugs(lib, t0, init, cities, id);
      var n := |order| - 1;
      assert order[..n + 1] == order && order[..n] == init;
      var prev := RepairAll(lib, t0, init, cities);
      RepairStep(lib, t0, order, n, cities, prev.0, prev.1);
      var w := Writes(lib, prev.0, t0[id], id, cities);
      CountStep(t0, prev.0, prev.1, id, Proposed(lib, prev.0, t0[id], id), w,
                RepairAll(lib, t0, order, cities).0, RepairAll(lib, t0, order, cities).1);
    }
  }

  /** Repairs are sequential: two providers of the same name and city, neither
      holding a candidate slug while no one else does either, end with the
      bare name slug for the first and the name-city slug for the second,
      because the second choice sees the first write. */
  lemma SequentialScenario(lib: LibSlugify, t0: Providers, a: PlaceId, b: PlaceId, cities: map<CityKey, City>)
    requires a in t0 && b in t0 && a != b
    requires t0[a].name == t0[b].name && t0[a].cityId == t0[b].cityId && t0[a].cityId in cities
    requires NameSlug(lib, t0[a].name) != CitySlug(lib, t0[a].name, t0[a].cityId.1)
    requires forall k :: k in t0 ==> t0[k].slug != NameSlug(lib, t0[a].name) && t0[k].slug != CitySlug(lib, t0[a].name, t0[a].cityId.1)
    ensures RepairAll(lib, t0, [a, b], cities).0[a].slug == NameSlug(lib, t0[a].name)
    ensures RepairAll(lib, t0, [a, b], cities).0[b].slug == CitySlug(lib, t0[a].name, t0[a].cityId.1)
    ensures RepairAll(lib, t0, [a, b], cities).1 == 2
  {
    var name := t0[a].name;
    var citySlug := t0[a].cityId.1;
    var order := [a, b];
    assert order[..0] == [] && order[..2] == order;
    RepairStep(lib, t0, order, 0, cities, t0, 0);
    var t1 := t0[a := t0[a].(slug := NameSlug(lib, name))];
    assert Proposed(lib, t0, t0[a], a) == NameSlug(lib, name) by {
      assert !HeldByOther(t0, NameSlug(lib, name), a);
    }
    assert Writes(lib, t0, t0[a], a, cities);
    RepairStep(lib, t0, order, 1, cities, t1, 1);
    assert Proposed(lib, t1, t0[b], b) == CitySlug(lib, name, citySlug) by {
      assert HeldByOther(t1, NameSlug(lib, name), b) by {
        assert a in t1 && a != b && t1[a].slug == NameSlug(lib, name);
      }
      assert !HeldByOther(t1, CitySlug(lib, name, citySlug), b);
    }
  }
}
