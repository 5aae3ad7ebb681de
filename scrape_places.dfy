/** scripts/scrape-places.ts: the place-level confidence score, the upsert of
    one place into the provider table, keyword linking of a saved place to
    therapies, the de-duplication of search results by place id and the loop
    that saves them. The Places API search itself is an input. */
module ScrapePlaces {
  import opened Text
  import opened Store
  import opened CleanSlug
  import Relink

  const ValidPlaceTypes: seq<Str> := [
    "health", "mental_health_clinic", "psychologist",
    "counselor", "therapist", "doctor", "health_establishment"]

  /** `place.types?.some(t => VALID_PLACE_TYPES.includes(t))`. */
  predicate HasValidType(place: Place)
  {
    place.types.Some? && exists i :: 0 <= i < |place.types.value| && place.types.value[i] in ValidPlaceTypes
  }

  /** `(place.rating || 0) >= 4.0`. */
  predicate WellRated(place: Place)
  {
    place.rating.Some? && place.rating.value >= 4.0
  }

  /** `(place.userRatingCount || 0) > 10`. */
  predicate ManyReviews(place: Place)
  {
    place.userRatingCount.Some? && place.userRatingCount.value > 10
  }

  /** `calculateConfidenceScore`: 0.5, plus 0.2 for a valid type and 0.1 each
      for a good rating, more than ten reviews and a website, capped at 1.0. */
  function ConfidenceScore(place: Place): (r: real)
    ensures 0.5 <= r <= 1.0
    ensures r == 0.5 <==> !HasValidType(place) && !WellRated(place) && !ManyReviews(place) && !Truthy(place.websiteUri)
    ensures r == 1.0 <==> HasValidType(place) && WellRated(place) && ManyReviews(place) && Truthy(place.websiteUri)
    ensures HasValidType(place) ==> r >= 0.7
  {
    var score := 0.5;
    var score := if HasValidType(place) then score + 0.2 else score;
    var score := if WellRated(place) then score + 0.1 else score;
    var score := if ManyReviews(place) then score + 0.1 else score;
    var score := if Truthy(place.websiteUri) then score + 0.1 else score;
    if score < 1.0 then score else 1.0
  }

  /** `q` has every scoring attribute `p` has. */
  predicate AtLeastAsGood(p: Place, q: Place)
  {
    (HasValidType(p) ==> HasValidType(q)) && (WellRated(p) ==> WellRated(q))
    && (ManyReviews(p) ==> ManyReviews(q)) && (Truthy(p.websiteUri) ==> Truthy(q.websiteUri))
  }

  /** Gaining an attribute never lowers the score. */
  lemma ConfidenceMonotone(p: Place, q: Place)
    requires AtLeastAsGood(p, q)
    ensures ConfidenceScore(p) <= ConfidenceScore(q)
  {
  }

  /** Prisma leaves a field whose new value is `undefined` as it was. */
  function OrKeep<T>(v: Option<T>, prev: Option<T>): (r: Option<T>)
    ensures v.Some? ==> r == v
    ensures v.None? ==> r == prev
  {
    if v.Some? then v else prev
  }

  /** The `create` row of `upsertProvider`. */
  function NewProvider(place: Place, slug: Str, city: CityKey, stateId: Str): (r: Provider)
    requires place.displayName.Some? && place.location.Some?
    ensures r.slug == slug && r.cityId == city && r.stateId == stateId && r.neighborhoodId.None?
    ensures r.googlePhotoRef.None? && r.description.None?
  {
    Provider(
      slug := slug,
      name := place.displayName.value,
      address := place.formattedAddress,
      lat := Some(place.location.value.latitude),
      lng := Some(place.location.value.longitude),
      rating := place.rating,
      reviewCount := place.userRatingCount,
      website := place.websiteUri,
      phone := place.nationalPhoneNumber,
      sourceData := PlaceSource(place),
      photoUrl := FirstPhoto(place),
      googlePhotoRef := None,
      description := None,
      cityId := city,
      stateId := stateId,
      neighborhoodId := None)
  }

  /** The `update` of `upsertProvider` applied to row `p`. */
  function Refresh(p: Provider, place: Place): (r: Provider)
    requires place.displayName.Some? && place.location.Some?
    ensures r.slug == p.slug && r.cityId == p.cityId && r.stateId == p.stateId
    ensures r.neighborhoodId == p.neighborhoodId && r.googlePhotoRef == p.googlePhotoRef
    ensures r.description == p.description
  {
    p.(name := place.displayName.value,
       address := OrKeep(place.formattedAddress, p.address),
       lat := Some(place.location.value.latitude),
       lng := Some(place.location.value.longitude),
       rating := OrKeep(place.rating, p.rating),
       reviewCount := OrKeep(place.userRatingCount, p.reviewCount),
       website := OrKeep(place.websiteUri, p.website),
       phone := OrKeep(place.nationalPhoneNumber, p.phone),
       sourceData := PlaceSource(place),
       photoUrl := FirstPhoto(place))
  }

  /** Refreshing twice from the same place is refreshing once, and refreshing
      a row created from the place gives that row back. */
  lemma RefreshStable(p: Provider, place: Place, slug: Str, city: CityKey, stateId: Str)
    requires place.displayName.Some? && place.location.Some?
    ensures Refresh(Refresh(p, place), place) == Refresh(p, place)
    ensures Refresh(NewProvider(place, slug, city, stateId), place) == NewProvider(place, slug, city, stateId)
  {
  }

  /** `upsertProvider(place, cityId, stateId, citySlug)`, keyed on the place id.
      A place without a display name or location fails when the code reads
      them; a new row whose generated slug another provider holds fails the
      unique constraint. */
  function UpsertProvider(lib: LibSlugify, t: Providers, place: Place, city: CityKey, stateId: Str): (r: Result<Providers>)
    ensures (place.displayName.None? || place.location.None?) <==> r == Err(MissingField)
    ensures r.Ok? ==> r.value.Keys == t.Keys + {place.id}
    ensures r.Ok? ==> forall k :: k in t && k != place.id ==> r.value[k] == t[k]
    ensures r.Ok? && place.id in t ==> r.value[place.id] == Refresh(t[place.id], place)
    ensures place.displayName.Some? && place.location.Some? && place.id in t ==> r.Ok?
    ensures place.displayName.Some? && place.location.Some? && place.id !in t ==>
      var slug := GenerateCleanSlug(lib, t, place.displayName.value, city.1, place.id);
      && (r.Ok? <==> !HeldByOther(t, slug, place.id))
      && (r.Ok? ==> r.value[place.id] == NewProvider(place, slug, city, stateId))
      && (r.Err? ==> r.error == UniqueViolation)
  {
    if place.displayName.None? || place.location.None? then Err(MissingField)
    else
      var slug := GenerateCleanSlug(lib, t, place.displayName.value, city.1, place.id);
      if place.id in t then Ok(t[place.id := Refresh(t[place.id], place)])
      else if HeldByOther(t, slug, place.id) then Err(UniqueViolation)
      else Ok(t[place.id := NewProvider(place, slug, city, stateId)])
  }

  /** A successful upsert keeps provider slugs unique, and an existing row
      keeps its slug. */
  lemma UpsertKeepsSlugsUnique(lib: LibSlugify, t: Providers, place: Place, city: CityKey, stateId: Str)
    requires SlugsUnique(t)
    requires UpsertProvider(lib, t, place, city, stateId).Ok?
    ensures SlugsUnique(UpsertProvider(lib, t, place, city, stateId).value)
    ensures place.id in t ==> UpsertProvider(lib, t, place, city, stateId).value[place.id].slug == t[place.id].slug
  {
    var r := UpsertProvider(lib, t, place, city, stateId).value;
    if place.id in t {
      assert r == t[place.id := t[place.id].(slug := t[place.id].slug)][place.id := r[place.id]];
      RenameKeepsSlugsUnique(t, place.id, t[place.id].slug);
    } else {
      InsertKeepsSlugsUnique(t, place.id, r[place.id]);
    }
  }

  /** Saving the same place again leaves the table as the first save left it,
      slug included. */
  lemma UpsertProviderRerun(lib: LibSlugify, t: Providers, place: Place, city: CityKey, stateId: Str)
    requires UpsertProvider(lib, t, place, city, stateId).Ok?
    ensures var t1 := UpsertProvider(lib, t, place, city, stateId).value;
      UpsertProvider(lib, t1, place, city, stateId) == Ok(t1)
  {
    var t1 := UpsertProvider(lib, t, place, city, stateId).value;
    var slug := GenerateCleanSlug(lib, t, place.displayName.value, city.1, place.id);
    RefreshStable(if place.id in t then t[place.id] else t1[place.id], place, slug, city, stateId);
    assert t1[place.id := Refresh(t1[place.id], place)] == t1;
  }

  /** The text a new place is matched on:
      `${displayName.text} ${types?.join(" ") || ""}`, lower-cased. */
  function PlaceText(place: Place): (r: Str)
    requires place.displayName.Some?
    ensures r == Relink.ProviderText(place.displayName.value, PlaceSource(place))
  {
    var types := if place.types.Some? then place.types.value else [];
    LowerStrConcat(place.displayName.value + " ", Join(types, " "));
    LowerStrConcat(place.displayName.value, " ");
    LowerStr(place.displayName.value + " " + Join(types, " "))
  }

  /** The ingest match: the therapy's lower-cased name or a synonym occurs. */
  predicate PlaceMatches(text: Str, th: Therapy)
  {
    MentionsAny(text, [LowerStr(th.name)] + th.synonyms)
  }

  /** A therapy matched at ingest is a direct keyword match for the relink
      pass as well, so that pass scores the pair 0.9. */
  lemma PlaceMatchIsKeywordMatch(text: Str, th: Therapy)
    requires PlaceMatches(text, th)
    ensures Relink.HasKeywordMatch(text, th)
    ensures Relink.Score(text, th) == 0.9
  {
    var kws := [LowerStr(th.name)] + th.synonyms;
    var all := kws + Relink.SpecificFor(th.name);
    var i :| 0 <= i < |kws| && Contains(text, LowerStr(kws[i]));
    assert all == [LowerStr(th.name)] + th.synonyms + Relink.SpecificFor(th.name);
    assert all[i] == kws[i];
  }

  /** The link keys `linkProviderToTherapies` writes for place `id`. */
  function MatchedKeys(id: PlaceId, text: Str, ths: seq<Therapy>): set<LinkKey>
  {
    set j | 0 <= j < |ths| && PlaceMatches(text, ths[j]) :: (id, ths[j].slug)
  }

  /** `links` with every key of `keys` upserted to `conf`. */
  function PlaceLinks(links: Links, keys: set<LinkKey>, conf: real): (r: Links)
    ensures r.Keys == links.Keys + keys
    ensures forall k :: k in keys ==> r[k] == conf
    ensures forall k :: k in links && k !in keys ==> r[k] == links[k]
  {
    map k | k in links.Keys + keys :: if k in keys then conf else links[k]
  }

  /** One more therapy adds its key when it matches. */
  lemma MatchedKeysSnoc(id: PlaceId, text: Str, ths: seq<Therapy>, th: Therapy)
    ensures MatchedKeys(id, text, ths + [th])
      == MatchedKeys(id, text, ths) + (if PlaceMatches(text, th) then {(id, th.slug)} else {})
  {
    var t := ths + [th];
    forall k | k in MatchedKeys(id, text, t)
      ensures k in MatchedKeys(id, text, ths) + (if PlaceMatches(text, th) then {(id, th.slug)} else {})
    {
      var j :| 0 <= j < |t| && PlaceMatches(text, t[j]) && k == (id, t[j].slug);
      if j < |ths| { assert t[j] == ths[j]; }
    }
    forall k | k in MatchedKeys(id, text, ths) ensures k in MatchedKeys(id, text, t) {
      var j :| 0 <= j < |ths| && PlaceMatches(text, ths[j]) && k == (id, ths[j].slug);
      assert t[j] == ths[j];
    }
    if PlaceMatches(text, th) {
      assert t[|ths|] == th;
    }
  }

  /** One step of the linking loop: a matching therapy upserts its key. */
  lemma LinkStep(links: Links, id: PlaceId, text: Str, ths: seq<Therapy>, th: Therapy, conf: real)
    ensures PlaceLinks(links, MatchedKeys(id, text, ths + [th]), conf)
      == if PlaceMatches(text, th) then PlaceLinks(links, MatchedKeys(id, text, ths), conf)[(id, th.slug) := conf]
         else PlaceLinks(links, MatchedKeys(id, text, ths), conf)
  {
    MatchedKeysSnoc(id, text, ths, th);
  }

  /** `linkProviderToTherapies(providerId, place, therapies)`: every therapy
      whose name or a synonym occurs in the place text gets a link holding
      the place's confidence score; other links are untouched. */
  method LinkProviderToTherapies(links: Links, place: Place, ths: seq<Therapy>) returns (links': Links)
    requires place.displayName.Some?
    ensures links' == PlaceLinks(links, MatchedKeys(place.id, PlaceText(place), ths), ConfidenceScore(place))
  {
    var text := PlaceText(place);
    links' := links;
    for j := 0 to |ths|
      invariant links' == PlaceLinks(links, MatchedKeys(place.id, text, ths[..j]), ConfidenceScore(place))
    {
      var th := ths[j];
      PrefixSnoc(ths, j);
      LinkStep(links, place.id, text, ths[..j], th, ConfidenceScore(place));
      if MentionsAny(text, [LowerStr(th.name)] + th.synonyms) {
        var confidence := ConfidenceScore(place);
        links' := links'[(place.id, th.slug) := confidence];
      }
    }
    assert ths[..|ths|] == ths;
  }

  /** All places of the result batches, in order. */
  function Flatten(batches: seq<seq<Place>>): seq<Place>
  {
    if batches == [] then [] else Flatten(batches[..|batches| - 1]) + batches[|batches| - 1]
  }

  function Ids(places: seq<Place>): (r: seq<PlaceId>)
    ensures |r| == |places| && forall i :: 0 <= i < |places| ==> r[i] == places[i].id
  {
    seq(|places|, i requires 0 <= i < |places| => places[i].id)
  }

  function IdEntries(places: seq<Place>): (r: seq<(PlaceId, Place)>)
    ensures |r| == |places| && forall i :: 0 <= i < |places| ==> r[i] == (places[i].id, places[i])
  {
    seq(|places|, i requires 0 <= i < |places| => (places[i].id, places[i]))
  }

  /** The distinct ids of `ids` in order of first occurrence: the iteration
      order of a JavaScript `Map` filled by `set`. */
  function FirstOccurrences(ids: seq<PlaceId>): (r: seq<PlaceId>)
    ensures Distinct(r)
    ensures forall x :: x in r <==> x in ids
  {
    if ids == [] then []
    else
      var prev := FirstOccurrences(ids[..|ids| - 1]);
      var x := ids[|ids| - 1];
      assert forall y :: y in ids <==> y in ids[..|ids| - 1] || y == x;
      if x in prev then prev else prev + [x]
  }

  /** The ids collected so far are exactly the ids of the results seen. */
  lemma CollectedKeys(seen: seq<Place>)
    ensures forall x :: x in UpsertAll(map[], IdEntries(seen)) <==> x in Ids(seen)
  {
    UpsertAllAt(map[], IdEntries(seen));
    forall x | x in Ids(seen) ensures x in EntryKeys(IdEntries(seen)) {
      var m :| 0 <= m < |seen| && Ids(seen)[m] == x;
      assert IdEntries(seen)[m].0 == x;
    }
  }

  /** One `allPlaces.set(p.id, p)`: the id is appended to the key order when
      it is new, and its entry is replaced. */
  lemma CollectStep(seen: seq<Place>, p: Place)
    ensures p.id in UpsertAll(map[], IdEntries(seen)) <==> p.id in FirstOccurrences(Ids(seen))
    ensures FirstOccurrences(Ids(seen + [p]))
      == if p.id in FirstOccurrences(Ids(seen)) then FirstOccurrences(Ids(seen)) else FirstOccurrences(Ids(seen)) + [p.id]
    ensures UpsertAll(map[], IdEntries(seen + [p])) == UpsertAll(map[], IdEntries(seen))[p.id := p]
  {
    assert Ids(seen + [p])[..|seen|] == Ids(seen);
    assert IdEntries(seen + [p])[..|seen|] == IdEntries(seen);
    CollectedKeys(seen);
  }

  /** `places.forEach(p => allPlaces.set(p.id, p))` for one result batch,
      after the results `before` have been collected. */
  method CollectBatch(order: seq<PlaceId>, byId: map<PlaceId, Place>, ghost before: seq<Place>, places: seq<Place>)
    returns (order': seq<PlaceId>, byId': map<PlaceId, Place>)
    requires order == FirstOccurrences(Ids(before))
    requires byId == UpsertAll(map[], IdEntries(before))
    ensures order' == FirstOccurrences(Ids(before + places))
    ensures byId' == UpsertAll(map[], IdEntries(before + places))
  {
    order', byId' := order, byId;
    assert before + places[..0] == before;
    for j := 0 to |places|
      invariant order' == FirstOccurrences(Ids(before + places[..j]))
      invariant byId' == UpsertAll(map[], IdEntries(before + places[..j]))
    {
      var p := places[j];
      AppendPrefix(before, places, j);
      CollectStep(before + places[..j], p);
      if p.id !in byId' {
        order' := order' + [p.id];
      }
      byId' := byId'[p.id := p];
    }
    assert places[..|places|] == places;
  }

  /** The search loop of `main`: `places.forEach(p => allPlaces.set(p.id, p))`
      over the result batch of every query (a failed query gives an empty
      batch). The map is kept as its key order and its contents. */
  method CollectPlaces(batches: seq<seq<Place>>) returns (order: seq<PlaceId>, byId: map<PlaceId, Place>)
    ensures order == FirstOccurrences(Ids(Flatten(batches)))
    ensures byId == UpsertAll(map[], IdEntries(Flatten(batches)))
  {
    order, byId := [], map[];
    for i := 0 to |batches|
      invariant order == FirstOccurrences(Ids(Flatten(batches[..i])))
      invariant byId == UpsertAll(map[], IdEntries(Flatten(batches[..i])))
    {
      assert batches[..i + 1][..i] == batches[..i];
      assert Flatten(batches[..i + 1]) == Flatten(batches[..i]) + batches[i];
      order, byId := CollectBatch(order, byId, Flatten(batches[..i]), batches[i]);
    }
    assert batches[..|batches|] == batches;
  }

  /** Every collected id maps to the last result carrying that id, and the
      key order lists each collected id exactly once. */
  lemma CollectedLatest(batches: seq<seq<Place>>, id: PlaceId)
    requires id in Ids(Flatten(batches))
    ensures id in EntryKeys(IdEntries(Flatten(batches)))
    ensures id in UpsertAll(map[], IdEntries(Flatten(batches)))
    ensures var flat := IdEntries(Flatten(batches));
      UpsertAll(map[], flat)[id] == LastValue(flat, id)
    ensures id in FirstOccurrences(Ids(Flatten(batches)))
  {
    var flat := IdEntries(Flatten(batches));
    var m :| 0 <= m < |Ids(Flatten(batches))| && Ids(Flatten(batches))[m] == id;
    assert flat[m].0 == id;
    UpsertAllAt(map[], flat);
  }

  /** One iteration of the save loop for a place with a name: upsert the
      place and, when that succeeds, link it to the therapies it matches; an
      error the `catch` block logs (a missing location, a slug clash) skips
      the place. */
  function SaveOne(lib: LibSlugify, t: Providers, links: Links, place: Place, ths: seq<Therapy>,
                   city: CityKey, stateId: Str): (r: (Providers, Links))
    requires place.displayName.Some?
    ensures UpsertProvider(lib, t, place, city, stateId).Err? ==> r == (t, links)
    ensures UpsertProvider(lib, t, place, city, stateId).Ok? ==>
      r.0 == UpsertProvider(lib, t, place, city, stateId).value
    ensures UpsertProvider(lib, t, place, city, stateId).Ok? ==>
      var matched := MatchedKeys(place.id, PlaceText(place), ths);
      && r.1.Keys == links.Keys + matched
      && (forall k :: k in matched ==> r.1[k] == ConfidenceScore(place))
      && (forall k :: k in links && k !in matched ==> r.1[k] == links[k])
  {
    match UpsertProvider(lib, t, place, city, stateId)
    case Err(_) => (t, links)
    case Ok(t1) => (t1, PlaceLinks(links, MatchedKeys(place.id, PlaceText(place), ths), ConfidenceScore(place)))
  }

  /** The save loop over `places` in order: the tables, and whether the run
      was aborted. A place without a name makes `upsertProvider` throw, and
      the `catch` block, reading the same missing name to log it, throws
      again; that error leaves the loop and ends `main`, so no later place
      is saved. */
  function SaveAll(lib: LibSlugify, t: Providers, links: Links, places: seq<Place>, ths: seq<Therapy>,
                   city: CityKey, stateId: Str): (r: (Providers, Links, bool))
    ensures !r.2 ==> forall i :: 0 <= i < |places| ==> places[i].displayName.Some?
  {
    if places == [] then (t, links, false)
    else
      var prev := SaveAll(lib, t, links, places[..|places| - 1], ths, city, stateId);
      var place := places[|places| - 1];
      if prev.2 then prev
      else if place.displayName.None? then (prev.0, prev.1, true)
      else
        var s := SaveOne(lib, prev.0, prev.1, place, ths, city, stateId);
        (s.0, s.1, false)
  }

  /** Saving one more place, from the tables `u` and `l` reached after the
      first `j` without an abort. */
  lemma SaveAllStep(lib: LibSlugify, t: Providers, links: Links, places: seq<Place>, ths: seq<Therapy>,
                    city: CityKey, stateId: Str, j: nat, u: Providers, l: Links)
    requires j < |places| && SaveAll(lib, t, links, places[..j], ths, city, stateId) == (u, l, false)
    ensures places[j].displayName.None? ==> SaveAll(lib, t, links, places[..j + 1], ths, city, stateId) == (u, l, true)
    ensures places[j].displayName.Some? ==>
      var s := SaveOne(lib, u, l, places[j], ths, city, stateId);
      SaveAll(lib, t, links, places[..j + 1], ths, city, stateId) == (s.0, s.1, false)
  {
    assert places[..j + 1][..j] == places[..j];
  }

  /** A place without a name aborts the run: nothing after it is saved. */
  lemma {:induction false} NamelessPlaceAborts(lib: LibSlugify, t: Providers, links: Links, places: seq<Place>,
                                               ths: seq<Therapy>, city: CityKey, stateId: Str, i: nat)
    requires i < |places| && places[i].displayName.None?
    ensures SaveAll(lib, t, links, places, ths, city, stateId) == SaveAll(lib, t, links, places[..i + 1], ths, city, stateId)
    ensures SaveAll(lib, t, links, places, ths, city, stateId).2
    decreases |places|
  {
    if |places| == i + 1 {
      assert places[..i + 1] == places;
    } else {
      var init := places[..|places| - 1];
      assert init[i] == places[i];
      NamelessPlaceAborts(lib, t, links, init, ths, city, stateId, i);
      assert init[..i + 1] == places[..i + 1];
    }
  }

  /** The places of `byId` in key order. */
  function InOrder(order: seq<PlaceId>, byId: map<PlaceId, Place>): (r: seq<Place>)
    requires forall i :: 0 <= i < |order| ==> order[i] in byId
    ensures |r| == |order| && forall i :: 0 <= i < |order| ==> r[i] == byId[order[i]]
  {
    seq(|order|, i requires 0 <= i < |order| => byId[order[i]])
  }

  /** The save loop of `main`: for each collected place, `upsertProvider` then
      `linkProviderToTherapies`; a logged error skips to the next place, and
      a place without a name aborts the run (`aborted`). */
  method SavePlaces(lib: LibSlugify, t: Providers, links: Links, order: seq<PlaceId>, byId: map<PlaceId, Place>,
                    ths: seq<Therapy>, city: CityKey, stateId: Str)
    returns (t': Providers, links': Links, aborted: bool)
    requires forall i :: 0 <= i < |order| ==> order[i] in byId
    ensures (t', links', aborted) == SaveAll(lib, t, links, InOrder(order, byId), ths, city, stateId)
  {
    ghost var places := InOrder(order, byId);
    t', links', aborted := t, links, false;
    for i := 0 to |order|
      invariant SaveAll(lib, t, links, places[..i], ths, city, stateId) == (t', links', false)
    {
      var place := byId[order[i]];
      SaveAllStep(lib, t, links, places, ths, city, stateId, i, t', links');
      if place.displayName.None? {
        NamelessPlaceAborts(lib, t, links, places, ths, city, stateId, i);
        return t', links', true;
      }
      var r := UpsertProvider(lib, t', place, city, stateId);
      if r.Ok? {
        t' := r.value;
        links' := LinkProviderToTherapies(links', place, ths);
      }
    }
    assert places[..|order|] == places;
  }

  /** Saving keeps slugs unique, deletes no provider and no link, and adds
      providers only for the saved place ids. */
  lemma {:induction false} SaveAllInvariants(lib: LibSlugify, t: Providers, links: Links, places: seq<Place>,
                                             ths: seq<Therapy>, city: CityKey, stateId: Str)
    requires SlugsUnique(t)
    ensures var r := SaveAll(lib, t, links, places, ths, city, stateId);
      SlugsUnique(r.0) && t.Keys <= r.0.Keys && links.Keys <= r.1.Keys
      && forall k :: k in r.0 ==> k in t || k in Ids(places)
  {
    if places != [] {
      var init := places[..|places| - 1];
      var last := places[|places| - 1];
      SaveAllInvariants(lib, t, links, init, ths, city, stateId);
      var prev := SaveAll(lib, t, links, init, ths, city, stateId);
      assert Ids(places)[|places| - 1] == last.id;
      assert forall k :: k in Ids(init) ==> k in Ids(places) by {
        forall k | k in Ids(init) ensures k in Ids(places) {
          var m :| 0 <= m < |init| && Ids(init)[m] == k;
          assert Ids(places)[m] == k;
        }
      }
      if !prev.2 && last.displayName.Some? && UpsertProvider(lib, prev.0, last, city, stateId).Ok? {
        UpsertKeepsSlugsUnique(lib, prev.0, last, city, stateId);
      }
    }
  }
}
