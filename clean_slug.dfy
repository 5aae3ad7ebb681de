/** `generateCleanSlug`, written out identically in scripts/scrape-places.ts
    and scripts/fix-slugs.ts: a three-tier choice of provider slug that only
    reads the provider table. */
module CleanSlug {
  import opened Text
  import opened Store

  /** `placeId.slice(-4)`: the last four characters, or all of a shorter id. */
  function Last4(id: Str): (r: Str)
    ensures |r| == if |id| < 4 then |id| else 4
    ensures r == id[|id| - |r|..]
  {
    if |id| <= 4 then id else id[|id| - 4..]
  }

  /** Tier 1: the name alone. */
  function NameSlug(lib: LibSlugify, name: Str): Str
  {
    lib(name, StrictRemovingPunctuation)
  }

  /** Tier 2: name and city slug joined by `-`. */
  function CitySlug(lib: LibSlugify, name: Str, citySlug: Str): Str
  {
    lib(name + "-" + citySlug, Strict)
  }

  /** Tier 3: the tier-2 slug, `-` and the last four characters of the place id. */
  function IdSlug(lib: LibSlugify, name: Str, citySlug: Str, placeId: PlaceId): Str
  {
    CitySlug(lib, name, citySlug) + "-" + Last4(placeId)
  }

  /** The acceptance rule of tiers 1 and 2: no provider holds the slug, or the
      one that holds it has the same place id. */
  predicate Acceptable(t: Providers, slug: Str, placeId: PlaceId)
  {
    !HeldByOther(t, slug, placeId)
  }

  /** `generateCleanSlug(name, citySlug, placeId)` against provider table `t`. */
  function GenerateCleanSlug(lib: LibSlugify, t: Providers, name: Str, citySlug: Str, placeId: PlaceId): (r: Str)
    ensures Acceptable(t, NameSlug(lib, name), placeId) ==> r == NameSlug(lib, name)
    ensures (!Acceptable(t, NameSlug(lib, name), placeId) && Acceptable(t, CitySlug(lib, name, citySlug), placeId))
              ==> r == CitySlug(lib, name, citySlug)
    ensures (!Acceptable(t, NameSlug(lib, name), placeId) && !Acceptable(t, CitySlug(lib, name, citySlug), placeId))
              ==> r == IdSlug(lib, name, citySlug, placeId)
  {
    var base := NameSlug(lib, name);
    if Acceptable(t, base, placeId) then base
    else
      var withCity := CitySlug(lib, name, citySlug);
      if Acceptable(t, withCity, placeId) then withCity
      else withCity + "-" + Last4(placeId)
  }

  /** Whatever tier is chosen, the slug is free for `placeId` unless it is the
      tier-3 slug, which is returned without looking at the table. */
  lemma GeneratedSlugIsFreeOrLastResort(lib: LibSlugify, t: Providers, name: Str, citySlug: Str, placeId: PlaceId)
    ensures var r := GenerateCleanSlug(lib, t, name, citySlug, placeId);
      Acceptable(t, r, placeId) || r == IdSlug(lib, name, citySlug, placeId)
    ensures var r := GenerateCleanSlug(lib, t, name, citySlug, placeId);
      r in {NameSlug(lib, name), CitySlug(lib, name, citySlug), IdSlug(lib, name, citySlug, placeId)}
  {
  }

  /** The slug depends on the table only through which slugs other providers
      hold: two tables that agree on that give the same slug. */
  lemma GenerateCleanSlugReadsOnlyHolders(lib: LibSlugify, t1: Providers, t2: Providers, name: Str, citySlug: Str, placeId: PlaceId)
    requires forall s :: HeldByOther(t1, s, placeId) <==> HeldByOther(t2, s, placeId)
    ensures GenerateCleanSlug(lib, t1, name, citySlug, placeId) == GenerateCleanSlug(lib, t2, name, citySlug, placeId)
  {
  }

  /** A provider that already holds its tier-1 slug gets that slug back, as long
      as slugs are unique. */
  lemma HolderKeepsNameSlug(lib: LibSlugify, t: Providers, id: PlaceId, citySlug: Str)
    requires SlugsUnique(t)
    requires id in t && t[id].slug == NameSlug(lib, t[id].name)
    ensures GenerateCleanSlug(lib, t, t[id].name, citySlug, id) == t[id].slug
  {
  }

  /** Renaming `id` to a slug that no other provider holds keeps slugs unique. */
  lemma RenameKeepsSlugsUnique(t: Providers, id: PlaceId, slug: Str)
    requires SlugsUnique(t) && id in t
    requires !HeldByOther(t, slug, id)
    ensures SlugsUnique(t[id := t[id].(slug := slug)])
  {
  }

  /** Inserting a new provider under a slug nobody holds keeps slugs unique. */
  lemma InsertKeepsSlugsUnique(t: Providers, id: PlaceId, p: Provider)
    requires SlugsUnique(t) && id !in t
    requires !HeldByOther(t, p.slug, id)
    ensures SlugsUnique(t[id := p])
  {
  }

  /** The scenario of one name in one city: with an empty table the name
      alone is chosen; when another place holds it, the name-city slug; when
      other places hold both, the name-city slug suffixed with the last four
      characters of the place id. */
  lemma ThreeTierScenario(lib: LibSlugify, name: Str, citySlug: Str, a: Provider, b: Provider, idA: PlaceId, idB: PlaceId, idC: PlaceId)
    requires idA != idC && idB != idC && idA != idB
    requires NameSlug(lib, name) != CitySlug(lib, name, citySlug)
    requires a.slug == NameSlug(lib, name) && b.slug == CitySlug(lib, name, citySlug)
    ensures GenerateCleanSlug(lib, map[], name, citySlug, idC) == NameSlug(lib, name)
    ensures GenerateCleanSlug(lib, map[idA := a], name, citySlug, idC) == CitySlug(lib, name, citySlug)
    ensures GenerateCleanSlug(lib, map[idA := a, idB := b], name, citySlug, idC)
              == CitySlug(lib, name, citySlug) + "-" + Last4(idC)
  {
    var one := map[idA := a];
    assert idA in one && one[idA].slug == NameSlug(lib, name);
    var both := map[idA := a, idB := b];
    assert idA in both && both[idA].slug == NameSlug(lib, name);
    assert idB in both && both[idB].slug == CitySlug(lib, name, citySlug);
  }
}
