/** scripts/scrape-neighborhoods.ts, `scrapeNeighborhood`: page through the
    search results for one neighbourhood, filter places, and upsert each one
    by slug, retrying once on a unique violation. The responses of the Places
    API are an input list of pages. */
module ScrapeNeighborhoods {
  import opened Text
  import opened Store
  import opened LocalSlug

  /** A neighbourhood with this many providers is not scraped. */
  const FullHood: nat := 50
  /** Paging stops once this many places have been written. */
  const FetchLimit: nat := 60

  /** One response of the search endpoint, or a failed request. */
  datatype Page = Page(places: seq<Place>, nextPageToken: Option<Str>) | ApiError

  /** `prisma.provider.count({ where: { neighborhoodId } })`. */
  function HoodCount(t: Providers, hood: HoodKey): (r: nat)
    ensures r == 0 <==> forall k :: k in t ==> t[k].neighborhoodId != Some(hood)
  {
    var s := set k | k in t && t[k].neighborhoodId == Some(hood);
    assert forall k :: k in t && t[k].neighborhoodId == Some(hood) ==> k in s;
    |set k | k in t && t[k].neighborhoodId == Some(hood)|
  }

  /** Names containing either word are dropped. */
  const Excluded: seq<Str> := ["Starbucks", "Grocery"]

  /** `name.includes(w)` for a word of `Excluded`, case-sensitive. */
  predicate ExcludedName(name: Str)
  {
    exists i :: 0 <= i < |Excluded| && Contains(name, Excluded[i])
  }

  /** The per-place filter: a non-empty display name that mentions neither
      "Starbucks" nor "Grocery" (case-sensitive). */
  predicate Kept(place: Place)
  {
    Truthy(place.displayName)
    && !ExcludedName(place.displayName.value)
  }

  /** A place is kept exactly when it has a non-empty name in which neither
      "Starbucks" nor "Grocery" occurs. */
  lemma KeptIff(place: Place)
    ensures Kept(place) <==>
      place.displayName.Some? && place.displayName.value != []
      && !Contains(place.displayName.value, "Starbucks") && !Contains(place.displayName.value, "Grocery")
  {
    assert Excluded[0] == "Starbucks" && Excluded[1] == "Grocery";
  }

  /** Some provider has slug `slug`. */
  predicate Held(t: Providers, slug: Str)
  {
    exists k :: k in t && t[k].slug == slug
  }

  /** The row both `create` calls write for `place` in neighbourhood `hood`. */
  function NewRow(place: Place, slug: Str, hood: HoodKey): (r: Provider)
    requires place.displayName.Some?
    ensures r.slug == slug && r.neighborhoodId == Some(hood) && r.cityId == hood.0 && r.stateId == hood.0.0
    ensures r.photoUrl == FirstPhoto(place) && r.googlePhotoRef == FirstPhoto(place)
  {
    Provider(
      slug := slug,
      name := place.displayName.value,
      address := place.formattedAddress,
      lat := if place.location.Some? then Some(place.location.value.latitude) else None,
      lng := if place.location.Some? then Some(place.location.value.longitude) else None,
      rating := place.rating,
      reviewCount := place.userRatingCount,
      website := place.websiteUri,
      phone := place.nationalPhoneNumber,
      sourceData := PlaceSource(place),
      photoUrl := FirstPhoto(place),
      googlePhotoRef := FirstPhoto(place),
      description := Some(""),
      cityId := hood.0,
      stateId := hood.0.0,
      neighborhoodId := Some(hood))
  }

  /** The `update` branch: the row holding `slug` is assigned to the
      neighbourhood and, when the place has a non-empty photo reference,
      gets it. The slug is unique, so this touches one row. */
  function AssignHolder(t: Providers, slug: Str, hood: HoodKey, photoRef: Option<Str>): (r: Providers)
    ensures r.Keys == t.Keys
    ensures forall k :: k in t && t[k].slug != slug ==> r[k] == t[k]
    ensures forall k :: k in t && t[k].slug == slug ==>
      r[k] == t[k].(neighborhoodId := Some(hood), googlePhotoRef := if Truthy(photoRef) then photoRef else t[k].googlePhotoRef)
  {
    map k | k in t :: if t[k].slug == slug then
      t[k].(neighborhoodId := Some(hood), googlePhotoRef := if Truthy(photoRef) then photoRef else t[k].googlePhotoRef)
    else t[k]
  }

  /** `prisma.provider.create`: refused when the place id or the slug is taken. */
  function Create(t: Providers, place: Place, slug: Str, hood: HoodKey): (r: Result<Providers>)
    requires place.displayName.Some?
    ensures r.Ok? <==> place.id !in t && !Held(t, slug)
    ensures r.Ok? ==> r.value == t[place.id := NewRow(place, slug, hood)]
  {
    if place.id in t || Held(t, slug) then Err(UniqueViolation)
    else Ok(t[place.id := NewRow(place, slug, hood)])
  }

  /** `prisma.provider.upsert({ where: { slug } })`: update the holder of the
      slug, or else create the row, which fails when the place id is taken. */
  function Upsert(t: Providers, place: Place, slug: Str, hood: HoodKey): (r: Result<Providers>)
    requires place.displayName.Some?
    ensures Held(t, slug) ==> r == Ok(AssignHolder(t, slug, hood, FirstPhoto(place)))
    ensures !Held(t, slug) ==> r == Create(t, place, slug, hood)
    ensures r.Err? <==> !Held(t, slug) && place.id in t
  {
    if Held(t, slug) then Ok(AssignHolder(t, slug, hood, FirstPhoto(place)))
    else Create(t, place, slug, hood)
  }

  /** The upsert only fails when the place id is taken, and then the retry,
      which creates a row with that same place id, fails as well: the
      `P2002` retry never writes anything. */
  lemma RetryNeverSucceeds(t: Providers, place: Place, slug: Str, retrySlug: Str, hood: HoodKey)
    requires place.displayName.Some?
    requires Upsert(t, place, slug, hood).Err?
    ensures Create(t, place, retrySlug, hood).Err?
  {
  }

  /** The slug a kept place is upserted under. */
  function PlaceSlug(place: Place, hood: HoodKey): (r: Str)
    requires place.displayName.Some?
    ensures SlugChars(r) && NoDoubleHyphen(r) && NoEdgeHyphen(r)
  {
    Slugify(place.displayName.value + " in " + hood.0.1)
  }

  /** The slug of the retry. */
  function RetrySlug(place: Place, hood: HoodKey): (r: Str)
    requires place.displayName.Some?
    ensures SlugChars(r) && NoDoubleHyphen(r) && NoEdgeHyphen(r)
  {
    Slugify(place.displayName.value + " " + hood.1)
  }

  /** One place of a page: the filter, the upsert under the place slug and,
      on a unique violation, one retry as a create under the retry slug; a
      second failure is swallowed. The table after it, and whether a write
      succeeded. */
  function WritePlace(t: Providers, place: Place, hood: HoodKey): (r: (Providers, bool))
    ensures !Kept(place) ==> r == (t, false)
    ensures !r.1 ==> r.0 == t
  {
    if !Kept(place) then (t, false)
    else
      match Upsert(t, place, PlaceSlug(place, hood), hood)
      case Ok(t1) => (t1, true)
      case Err(_) =>
        match Create(t, place, RetrySlug(place, hood), hood)
        case Ok(t2) => (t2, true)
        case Err(_) => (t, false)
  }

  /** `WritePlace` for neighbourhood `hood`, as a step of a fold. */
  function WriteStep(hood: HoodKey): (f: (Providers, Place) -> (Providers, bool))
    ensures forall t, place :: f(t, place) == WritePlace(t, place, hood)
  {
    (t, place) => WritePlace(t, place, hood)
  }

  /** The places of one page in order, and the number of writes. */
  function WritePlaces(t: Providers, places: seq<Place>, hood: HoodKey): (r: (Providers, nat))
    ensures r.1 <= |places|
  {
    FoldWrites(t, places, WriteStep(hood))
  }

  /** The `do … while (nextPageToken && totalFetched < 60)` loop from the page
      `pages[0]` on, with `total` places written so far and `write` applied
      to each place: the table, the final `totalFetched`, and the number of
      pages requested. A failed request ends the loop after counting it;
      running out of pages ends it with no further request. */
  function Run(t: Providers, pages: seq<Page>, total: nat, write: (Providers, Place) -> (Providers, bool))
    : (r: (Providers, nat, nat))
    ensures r.1 >= total
    ensures r.2 <= |pages|
    ensures pages != [] ==> r.2 >= 1
    decreases |pages|
  {
    if pages == [] then (t, total, 0)
    else if pages[0].ApiError? then (t, total, 1)
    else
      var w := FoldWrites(t, pages[0].places, write);
      if Truthy(pages[0].nextPageToken) && total + w.1 < FetchLimit then
        var rest := Run(w.0, pages[1..], total + w.1, write);
        (rest.0, rest.1, rest.2 + 1)
      else (w.0, total + w.1, 1)
  }

  /** The loop from page `i` on. */
  function RunFrom(t: Providers, pages: seq<Page>, i: nat, total: nat, write: (Providers, Place) -> (Providers, bool))
    : (Providers, nat, nat)
    requires i <= |pages|
  {
    Run(t, pages[i..], total, write)
  }

  /** Requesting page `i`: a failed request ends the loop, otherwise the
      page is written and the loop goes on while there is a next token and
      fewer than 60 places have been written. */
  lemma RunStep(t: Providers, pages: seq<Page>, i: nat, total: nat, write: (Providers, Place) -> (Providers, bool))
    requires i < |pages|
    ensures pages[i].ApiError? ==> RunFrom(t, pages, i, total, write) == (t, total, 1)
    ensures pages[i].Page? ==>
      var w := FoldWrites(t, pages[i].places, write);
      RunFrom(t, pages, i, total, write)
        == if Truthy(pages[i].nextPageToken) && total + w.1 < FetchLimit
           then var rest := RunFrom(w.0, pages, i + 1, total + w.1, write); (rest.0, rest.1, rest.2 + 1)
           else (w.0, total + w.1, 1)
  {
    assert pages[i..][0] == pages[i];
    assert pages[i..][1..] == pages[i + 1..];
  }

  /** Why the loop stopped before the last page: the last page requested
      failed, carried no next-page token, or brought the total to 60. */
  lemma {:induction false} RunStopRule(t: Providers, pages: seq<Page>, total: nat, write: (Providers, Place) -> (Providers, bool))
    ensures var r := Run(t, pages, total, write);
      1 <= r.2 < |pages| ==>
        pages[r.2 - 1].ApiError? || !Truthy(pages[r.2 - 1].nextPageToken) || r.1 >= FetchLimit
    decreases |pages|
  {
    if pages != [] && pages[0].Page? {
      var w := FoldWrites(t, pages[0].places, write);
      if Truthy(pages[0].nextPageToken) && total + w.1 < FetchLimit {
        RunStopRule(w.0, pages[1..], total + w.1, write);
        var rest := Run(w.0, pages[1..], total + w.1, write);
        if 1 <= rest.2 {
          assert pages[1..][rest.2 - 1] == pages[rest.2];
        }
      }
    }
  }

  /** `scrapeNeighborhood` for neighbourhood `hood`. */
  function Scrape(t: Providers, pages: seq<Page>, hood: HoodKey): (r: (Providers, nat, nat))
    ensures HoodCount(t, hood) >= FullHood ==> r == (t, 0, 0)
  {
    if HoodCount(t, hood) >= FullHood then (t, 0, 0) else Run(t, pages, 0, WriteStep(hood))
  }

  /** The body of the page loop: every place of one page. */
  method WritePage(t: Providers, places: seq<Place>, hood: HoodKey) returns (t': Providers, written: nat)
    ensures (t', written) == WritePlaces(t, places, hood)
  {
    ghost var write := WriteStep(hood);
    t', written := t, 0;
    for j := 0 to |places|
      invariant FoldWrites(t, places[..j], write) == (t', written)
    {
      FoldWritesStep(t, places, write, j, t', written);
      var r := WritePlace(t', places[j], hood);
      t' := r.0;
      if r.1 {
        written := written + 1;
      }
    }
    assert places[..|places|] == places;
  }

  /** `scrapeNeighborhood(neighborhood, city, state)`: skip a full
      neighbourhood, otherwise request pages until there is no next token,
      60 places have been written, or a request fails. */
  method ScrapeNeighborhood(t: Providers, pages: seq<Page>, hood: HoodKey)
    returns (t': Providers, totalFetched: nat, requests: nat)
    ensures (t', totalFetched, requests) == Scrape(t, pages, hood)
  {
    if HoodCount(t, hood) >= FullHood {
      return t, 0, 0;
    }
    ghost var r := Run(t, pages, 0, WriteStep(hood));
    t', totalFetched, requests := t, 0, 0;
    var going := true;
    while going
      invariant requests <= |pages|
      invariant going ==> RunFrom(t', pages, requests, totalFetched, WriteStep(hood)) == (r.0, r.1, r.2 - requests)
      invariant !going ==> (t', totalFetched, requests) == r
      decreases |pages| - requests, going
    {
      if requests == |pages| {
        going := false;
      } else {
        RunStep(t', pages, requests, totalFetched, WriteStep(hood));
        var page := pages[requests];
        requests := requests + 1;
        if page.ApiError? {
          going := false;
        } else {
          var written;
          t', written := WritePage(t', page.places, hood);
          totalFetched := totalFetched + written;
          var next := page.nextPageToken;
          going := next.Some? && next.value != [] && totalFetched < FetchLimit;
        }
      }
    }
  }

  /** What a write does to row `k`: an existing row stays and changes at
      most in its neighbourhood, set to `hood`, and its photo reference; a
      new row belongs to `hood` and its city. */
  predicate RowAssigned(t: Providers, t': Providers, k: PlaceId, hood: HoodKey)
  {
    && (k in t ==> k in t' && (t'[k] == t[k] || t'[k] == t[k].(neighborhoodId := Some(hood), googlePhotoRef := t'[k].googlePhotoRef)))
    && (k in t' && k !in t ==> t'[k].neighborhoodId == Some(hood) && t'[k].cityId == hood.0)
  }

  lemma RowAssignedTrans(t1: Providers, t2: Providers, t3: Providers, k: PlaceId, hood: HoodKey)
    requires RowAssigned(t1, t2, k, hood) && RowAssigned(t2, t3, k, hood)
    ensures RowAssigned(t1, t3, k, hood)
  {
  }

  /** The `update` branch keeps slugs unique. */
  lemma AssignHolderKeeps(t: Providers, slug: Str, hood: HoodKey, photoRef: Option<Str>)
    requires SlugsUnique(t)
    ensures SlugsUnique(AssignHolder(t, slug, hood, photoRef))
  {
    var r := AssignHolder(t, slug, hood, photoRef);
    assert forall k :: k in t ==> r[k].slug == t[k].slug;
  }

  /** A successful `create` keeps slugs unique. */
  lemma CreateKeeps(t: Providers, place: Place, slug: Str, hood: HoodKey)
    requires SlugsUnique(t) && place.displayName.Some?
    requires Create(t, place, slug, hood).Ok?
    ensures SlugsUnique(Create(t, place, slug, hood).value)
  {
    assert Create(t, place, slug, hood).value == t[place.id := NewRow(place, slug, hood)];
    assert !Held(t, slug);
  }

  /** One write keeps slugs unique. */
  lemma WritePlaceKeeps(t: Providers, place: Place, hood: HoodKey)
    requires SlugsUnique(t)
    ensures SlugsUnique(WritePlace(t, place, hood).0)
  {
    if Kept(place) {
      var slug := PlaceSlug(place, hood);
      if Held(t, slug) {
        AssignHolderKeeps(t, slug, hood, FirstPhoto(place));
      } else if place.id !in t {
        CreateKeeps(t, place, slug, hood);
      } else {
        RetryNeverSucceeds(t, place, slug, RetrySlug(place, hood), hood);
      }
    }
  }

  /** One write only assigns rows to `hood`. */
  lemma WritePlaceAssigns(t: Providers, place: Place, hood: HoodKey, k: PlaceId)
    ensures RowAssigned(t, WritePlace(t, place, hood).0, k, hood)
  {
    if Kept(place) {
      var slug := PlaceSlug(place, hood);
      if Held(t, slug) {
      } else if place.id !in t {
        assert Create(t, place, slug, hood).value == t[place.id := NewRow(place, slug, hood)];
      } else {
        RetryNeverSucceeds(t, place, slug, RetrySlug(place, hood), hood);
      }
    }
  }

  /** A relation that every write keeps, and that is reflexive and
      transitive, holds between the start and the end of a run. */
  lemma {:induction false} RunKeeps(t: Providers, pages: seq<Page>, total: nat,
                                    write: (Providers, Place) -> (Providers, bool), rel: (Providers, Providers) -> bool)
    requires forall a :: rel(a, a)
    requires forall a, b, c :: rel(a, b) && rel(b, c) ==> rel(a, c)
    requires forall a, x :: rel(a, write(a, x).0)
    ensures rel(t, Run(t, pages, total, write).0)
    decreases |pages|
  {
    if pages != [] && pages[0].Page? {
      FoldWritesKeeps(t, pages[0].places, write, rel);
      var w := FoldWrites(t, pages[0].places, write);
      if Truthy(pages[0].nextPageToken) && total + w.1 < FetchLimit {
        RunKeeps(w.0, pages[1..], total + w.1, write, rel);
      }
    }
  }

  /** A scrape keeps slugs unique. */
  lemma ScrapeKeepsSlugsUnique(t: Providers, pages: seq<Page>, hood: HoodKey)
    requires SlugsUnique(t)
    ensures SlugsUnique(Scrape(t, pages, hood).0)
  {
    if HoodCount(t, hood) < FullHood {
      var rel := (a: Providers, b: Providers) => SlugsUnique(a) ==> SlugsUnique(b);
      forall a: Providers, x: Place ensures rel(a, WriteStep(hood)(a, x).0) {
        if SlugsUnique(a) {
          WritePlaceKeeps(a, x, hood);
        }
      }
      RunKeeps(t, pages, 0, WriteStep(hood), rel);
    }
  }

  /** A scrape only assigns rows to `hood`: every row it finds stays,
      changed at most in its neighbourhood and photo reference, and every
      row it adds belongs to `hood`. */
  lemma ScrapeAssigns(t: Providers, pages: seq<Page>, hood: HoodKey, k: PlaceId)
    ensures RowAssigned(t, Scrape(t, pages, hood).0, k, hood)
  {
    if HoodCount(t, hood) < FullHood {
      var rel := (a: Providers, b: Providers) => RowAssigned(a, b, k, hood);
      forall a: Providers, b: Providers, c: Providers | rel(a, b) && rel(b, c) ensures rel(a, c) {
        RowAssignedTrans(a, b, c, k, hood);
      }
      forall a: Providers, x: Place ensures rel(a, WriteStep(hood)(a, x).0) {
        WritePlaceAssigns(a, x, hood, k);
      }
      RunKeeps(t, pages, 0, WriteStep(hood), rel);
    }
  }

  /** Paging stops at the first page that fills the quota, so with at most
      `pageSize` places per page the run writes fewer than 60 + `pageSize`. */
  lemma {:induction false} RunOvershootsByLessThanOnePage(t: Providers, pages: seq<Page>, total: nat,
                                                          write: (Providers, Place) -> (Providers, bool), pageSize: nat)
    requires total < FetchLimit
    requires forall i :: 0 <= i < |pages| && pages[i].Page? ==> |pages[i].places| <= pageSize
    ensures Run(t, pages, total, write).1 < FetchLimit + pageSize
    decreases |pages|
  {
    if pages != [] && pages[0].Page? {
      var w := FoldWrites(t, pages[0].places, write);
      if Truthy(pages[0].nextPageToken) && total + w.1 < FetchLimit {
        assert forall i :: 0 <= i < |pages| - 1 ==> pages[1..][i] == pages[i + 1];
        RunOvershootsByLessThanOnePage(w.0, pages[1..], total + w.1, write, pageSize);
      }
    }
  }

  /** `main`: the neighbourhoods in turn, each with the responses of its own
      requests; a neighbourhood whose city or state is missing is skipped. */
  function ScrapeAll(t: Providers, jobs: seq<(HoodKey, seq<Page>)>, cities: map<CityKey, City>, states: map<Str, State>)
    : (r: Providers)
    ensures (forall i :: 0 <= i < |jobs| ==> !(jobs[i].0.0 in cities && jobs[i].0.0.0 in states)) ==> r == t
    decreases |jobs|
  {
    if jobs == [] then t
    else
      var u := ScrapeAll(t, jobs[..|jobs| - 1], cities, states);
      var (hood, pages) := jobs[|jobs| - 1];
      if hood.0 in cities && hood.0.0 in states then Scrape(u, pages, hood).0 else u
  }

  /** The loop of `main` over all neighbourhoods. */
  method ScrapeAllNeighborhoods(t: Providers, jobs: seq<(HoodKey, seq<Page>)>, cities: map<CityKey, City>, states: map<Str, State>)
    returns (t': Providers)
    ensures t' == ScrapeAll(t, jobs, cities, states)
  {
    t' := t;
    for i := 0 to |jobs|
      invariant t' == ScrapeAll(t, jobs[..i], cities, states)
    {
      PrefixOfPrefix(jobs, i);
      var (hood, pages) := jobs[i];
      if hood.0 in cities && hood.0.0 in states {
        var fetched, requests;
        t', fetched, requests := ScrapeNeighborhood(t', pages, hood);
      }
    }
    assert jobs[..|jobs|] == jobs;
  }

  /** Row `k` of `t` is still in `t'`, changed at most in its neighbourhood
      and photo reference. */
  predicate RowKept(t: Providers, t': Providers, k: PlaceId)
  {
    k in t ==> k in t' && t'[k].(neighborhoodId := t[k].neighborhoodId, googlePhotoRef := t[k].googlePhotoRef) == t[k]
  }

  /** The whole run keeps slugs unique. */
  lemma {:induction false} ScrapeAllKeepsSlugsUnique(t: Providers, jobs: seq<(HoodKey, seq<Page>)>,
                                                     cities: map<CityKey, City>, states: map<Str, State>)
    requires SlugsUnique(t)
    ensures SlugsUnique(ScrapeAll(t, jobs, cities, states))
    decreases |jobs|
  {
    if jobs != [] {
      ScrapeAllKeepsSlugsUnique(t, jobs[..|jobs| - 1], cities, states);
      var u := ScrapeAll(t, jobs[..|jobs| - 1], cities, states);
      var (hood, pages) := jobs[|jobs| - 1];
      if hood.0 in cities && hood.0.0 in states {
        ScrapeKeepsSlugsUnique(u, pages, hood);
      }
    }
  }

  /** The whole run deletes no provider and changes existing rows at most
      in their neighbourhood and photo reference. */
  lemma {:induction false} ScrapeAllKeepsRows(t: Providers, jobs: seq<(HoodKey, seq<Page>)>,
                                              cities: map<CityKey, City>, states: map<Str, State>, k: PlaceId)
    ensures RowKept(t, ScrapeAll(t, jobs, cities, states), k)
    decreases |jobs|
  {
    if jobs != [] {
      ScrapeAllKeepsRows(t, jobs[..|jobs| - 1], cities, states, k);
      var u := ScrapeAll(t, jobs[..|jobs| - 1], cities, states);
      var (hood, pages) := jobs[|jobs| - 1];
      if hood.0 in cities && hood.0.0 in states {
        ScrapeAssigns(u, pages, hood, k);
      }
    }
  }
}
