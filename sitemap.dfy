/** src/app/sitemap.ts: the list of site routes built from the states (with
    their cities and neighbourhoods) and the therapies. The route constructors
    and the specification take the site address `base` as a parameter; the
    method passes `BaseUrl`. */
module Sitemap {
  import opened Text

  const BaseUrl: Str := "https://therapydb.com"

  datatype ChangeFrequency = Daily | Weekly | Monthly

  /** A sitemap entry; `lastModified` (the clock) is not modelled. */
  datatype Route = Route(url: Str, changeFrequency: ChangeFrequency, priority: real)

  /** A city as the query returns it: its slug and its neighbourhood slugs. */
  datatype CityNode = CityNode(slug: Str, neighborhoods: seq<Str>)

  /** A state as the query returns it: its abbreviation and its cities. */
  datatype StateNode = StateNode(abbreviation: Str, cities: seq<CityNode>)

  function HomeRoute(base: Str): Route { Route(base, Daily, 1.0) }
  function TherapistsRoute(base: Str): Route { Route(base + "/therapists", Weekly, 0.9) }
  function TherapyIndexRoute(base: Str): Route { Route(base + "/therapy", Weekly, 0.9) }
  function HubRoute(base: Str, therapy: Str): Route { Route(base + "/therapy/" + therapy, Monthly, 0.8) }

  /** `/therapists/<abbr>`, `abbr` already lower-cased. */
  function StatePath(base: Str, abbr: Str): Str { base + "/therapists/" + abbr }
  function CityPath(base: Str, abbr: Str, city: Str): Str { StatePath(base, abbr) + "/" + city }

  function StateRoute(base: Str, abbr: Str): Route { Route(StatePath(base, abbr), Weekly, 0.7) }
  function CityRoute(base: Str, abbr: Str, city: Str): Route { Route(CityPath(base, abbr, city), Weekly, 0.7) }
  function HoodRoute(base: Str, abbr: Str, city: Str, hood: Str): Route { Route(CityPath(base, abbr, city) + "/" + hood, Weekly, 0.7) }
  function CityTherapyRoute(base: Str, abbr: Str, city: Str, therapy: Str): Route
  {
    Route(CityPath(base, abbr, city) + "/" + therapy, Weekly, 0.9)
  }

  /** The three static pages. */
  function StaticRoutes(base: Str): seq<Route>
  {
    [HomeRoute(base), TherapistsRoute(base), TherapyIndexRoute(base)]
  }

  /** One hub page per therapy, in input order. */
  function HubRoutes(base: Str, therapies: seq<Str>): (r: seq<Route>)
    ensures |r| == |therapies| && forall i :: 0 <= i < |therapies| ==> r[i] == HubRoute(base, therapies[i])
  {
    seq(|therapies|, i requires 0 <= i < |therapies| => HubRoute(base, therapies[i]))
  }

  function HoodRoutes(base: Str, abbr: Str, city: CityNode): (r: seq<Route>)
    ensures |r| == |city.neighborhoods|
    ensures forall j :: 0 <= j < |r| ==> r[j] == HoodRoute(base, abbr, city.slug, city.neighborhoods[j])
  {
    seq(|city.neighborhoods|, j requires 0 <= j < |city.neighborhoods| =>
      HoodRoute(base, abbr, city.slug, city.neighborhoods[j]))
  }

  function CityTherapyRoutes(base: Str, abbr: Str, city: CityNode, therapies: seq<Str>): (r: seq<Route>)
    ensures |r| == |therapies|
    ensures forall k :: 0 <= k < |r| ==> r[k] == CityTherapyRoute(base, abbr, city.slug, therapies[k])
  {
    seq(|therapies|, k requires 0 <= k < |therapies| => CityTherapyRoute(base, abbr, city.slug, therapies[k]))
  }

  /** A city's page, then its neighbourhood pages, then its therapy pages. */
  function CityRoutes(base: Str, abbr: Str, city: CityNode, therapies: seq<Str>): seq<Route>
  {
    [CityRoute(base, abbr, city.slug)] + HoodRoutes(base, abbr, city) + CityTherapyRoutes(base, abbr, city, therapies)
  }

  /** The routes of the cities of one state, in input order. */
  function CitiesRoutes(base: Str, abbr: Str, cities: seq<CityNode>, therapies: seq<Str>): seq<Route>
  {
    if cities == [] then []
    else CitiesRoutes(base, abbr, cities[..|cities| - 1], therapies) + CityRoutes(base, abbr, cities[|cities| - 1], therapies)
  }

  /** A state's page followed by the routes of its cities, under the
      lower-cased abbreviation. */
  function StateRoutes(base: Str, state: StateNode, therapies: seq<Str>): seq<Route>
  {
    var abbr := LowerStr(state.abbreviation);
    [StateRoute(base, abbr)] + CitiesRoutes(base, abbr, state.cities, therapies)
  }

  function StatesRoutes(base: Str, states: seq<StateNode>, therapies: seq<Str>): seq<Route>
  {
    if states == [] then []
    else StatesRoutes(base, states[..|states| - 1], therapies) + StateRoutes(base, states[|states| - 1], therapies)
  }

  /** The whole sitemap. */
  function SitemapRoutes(base: Str, states: seq<StateNode>, therapies: seq<Str>): (r: seq<Route>)
    ensures |r| >= 3 + |therapies|
    ensures r[0] == HomeRoute(base) && r[0].priority == 1.0
  {
    StaticRoutes(base) + HubRoutes(base, therapies) + StatesRoutes(base, states, therapies)
  }

  /** The neighbourhood and therapy loops of one city. */
  method PushCityRoutes(routes: seq<Route>, abbr: Str, city: CityNode, therapies: seq<Str>) returns (routes': seq<Route>)
    ensures routes' == routes + CityRoutes(BaseUrl, abbr, city, therapies)
  {
    routes' := routes + [CityRoute(BaseUrl, abbr, city.slug)];
    ghost var head := routes';
    ghost var hs := HoodRoutes(BaseUrl, abbr, city);
    assert hs[..0] == [];
    for j := 0 to |city.neighborhoods|
      invariant routes' == head + hs[..j]
    {
      AppendPrefix(head, hs, j);
      routes' := routes' + [HoodRoute(BaseUrl, abbr, city.slug, city.neighborhoods[j])];
    }
    assert hs[..|city.neighborhoods|] == hs;
    ghost var mid := routes';
    ghost var ts := CityTherapyRoutes(BaseUrl, abbr, city, therapies);
    assert ts[..0] == [];
    for k := 0 to |therapies|
      invariant routes' == mid + ts[..k]
    {
      AppendPrefix(mid, ts, k);
      routes' := routes' + [CityTherapyRoute(BaseUrl, abbr, city.slug, therapies[k])];
    }
    assert ts[..|therapies|] == ts;
    assert routes' == routes + ([CityRoute(BaseUrl, abbr, city.slug)] + hs + ts);
  }

  /** The city loop of one state, after its state page. */
  method PushStateRoutes(routes: seq<Route>, state: StateNode, therapies: seq<Str>) returns (routes': seq<Route>)
    ensures routes' == routes + StateRoutes(BaseUrl, state, therapies)
  {
    var stateAbbr := LowerStr(state.abbreviation);
    routes' := routes + [StateRoute(BaseUrl, stateAbbr)];
    ghost var head := routes';
    assert state.cities[..0] == [];
    for j := 0 to |state.cities|
      invariant routes' == head + CitiesRoutes(BaseUrl, stateAbbr, state.cities[..j], therapies)
    {
      PrefixOfPrefix(state.cities, j);
      ghost var before: seq<Route> := CitiesRoutes(BaseUrl, stateAbbr, state.cities[..j], therapies);
      ghost var own := CityRoutes(BaseUrl, stateAbbr, state.cities[j], therapies);
      assert CitiesRoutes(BaseUrl, stateAbbr, state.cities[..j + 1], therapies) == before + own;
      routes' := PushCityRoutes(routes', stateAbbr, state.cities[j], therapies);
      assert routes' == (head + before) + own;
    }
    assert state.cities[..|state.cities|] == state.cities;
  }

  /** `sitemap`: the static pages, the hubs, then each state in turn. */
  method BuildSitemap(states: seq<StateNode>, therapies: seq<Str>) returns (routes: seq<Route>)
    ensures routes == SitemapRoutes(BaseUrl, states, therapies)
  {
    routes := [HomeRoute(BaseUrl), TherapistsRoute(BaseUrl), TherapyIndexRoute(BaseUrl)];
    ghost var hubs := HubRoutes(BaseUrl, therapies);
    assert hubs[..0] == [];
    for i := 0 to |therapies|
      invariant routes == StaticRoutes(BaseUrl) + hubs[..i]
    {
      AppendPrefix(StaticRoutes(BaseUrl), hubs, i);
      routes := routes + [HubRoute(BaseUrl, therapies[i])];
    }
    assert hubs[..|therapies|] == hubs;
    ghost var head := routes;
    assert states[..0] == [];
    for i := 0 to |states|
      invariant routes == head + StatesRoutes(BaseUrl, states[..i], therapies)
    {
      PrefixOfPrefix(states, i);
      ghost var before: seq<Route> := StatesRoutes(BaseUrl, states[..i], therapies);
      ghost var own: seq<Route> := StateRoutes(BaseUrl, states[i], therapies);
      assert StatesRoutes(BaseUrl, states[..i + 1], therapies) == before + own;
      routes := PushStateRoutes(routes, states[i], therapies);
      assert routes == (head + before) + own;
    }
    assert states[..|states|] == states;
  }

  /** The number of routes of a state's cities: per city its page, its
      neighbourhoods and one page per therapy. */
  function CitiesCount(cities: seq<CityNode>, therapyCount: nat): nat
  {
    if cities == [] then 0
    else CitiesCount(cities[..|cities| - 1], therapyCount) + 1 + |cities[|cities| - 1].neighborhoods| + therapyCount
  }

  /** The number of routes of the states: per state its page and its cities. */
  function StatesCount(states: seq<StateNode>, therapyCount: nat): nat
  {
    if states == [] then 0
    else StatesCount(states[..|states| - 1], therapyCount) + 1 + CitiesCount(states[|states| - 1].cities, therapyCount)
  }

  lemma {:induction false} CitiesRoutesLength(base: Str, abbr: Str, cities: seq<CityNode>, therapies: seq<Str>)
    ensures |CitiesRoutes(base, abbr, cities, therapies)| == CitiesCount(cities, |therapies|)
  {
    if cities != [] {
      CitiesRoutesLength(base, abbr, cities[..|cities| - 1], therapies);
    }
  }

  lemma {:induction false} StatesRoutesLength(base: Str, states: seq<StateNode>, therapies: seq<Str>)
    ensures |StatesRoutes(base, states, therapies)| == StatesCount(states, |therapies|)
  {
    if states != [] {
      var last := states[|states| - 1];
      StatesRoutesLength(base, states[..|states| - 1], therapies);
      CitiesRoutesLength(base, LowerStr(last.abbreviation), last.cities, therapies);
    }
  }

  /** The route count is 3 + T + the sum over states of (1 + the sum over
      its cities of (1 + neighbourhoods + T)), for T therapies. */
  lemma SitemapLength(base: Str, states: seq<StateNode>, therapies: seq<Str>)
    ensures |SitemapRoutes(base, states, therapies)| == 3 + |therapies| + StatesCount(states, |therapies|)
  {
    StatesRoutesLength(base, states, therapies);
  }

  /** The sitemap opens with home, /therapists and /therapy, then one hub
      page per therapy in input order, then the state routes. */
  lemma SitemapOpening(base: Str, states: seq<StateNode>, therapies: seq<Str>)
    ensures var r := SitemapRoutes(base, states, therapies);
      && |r| >= 3 + |therapies|
      && r[0] == Route(base, Daily, 1.0)
      && r[1] == Route(base + "/therapists", Weekly, 0.9)
      && r[2] == Route(base + "/therapy", Weekly, 0.9)
      && (forall i :: 0 <= i < |therapies| ==> r[3 + i] == Route(base + "/therapy/" + therapies[i], Monthly, 0.8))
      && r[3 + |therapies|..] == StatesRoutes(base, states, therapies)
  {
  }

  /** A page below the state pages: weekly, priority 0.7 or 0.9. */
  predicate Inner(r: Route)
  {
    r.changeFrequency == Weekly && (r.priority == 0.7 || r.priority == 0.9)
  }

  /** Every route of `rs` is an inner page whose URL starts with `path`. */
  predicate AllUnder(rs: seq<Route>, path: Str)
  {
    forall i :: 0 <= i < |rs| ==> StartsWith(rs[i].url, path) && Inner(rs[i])
  }

  lemma AllUnderAppend(a: seq<Route>, b: seq<Route>, path: Str)
    requires AllUnder(a, path) && AllUnder(b, path)
    ensures AllUnder(a + b, path)
  {
    forall i | 0 <= i < |a + b|
      ensures StartsWith((a + b)[i].url, path) && Inner((a + b)[i])
    {
      if i < |a| {
        assert (a + b)[i] == a[i];
      } else {
        assert (a + b)[i] == b[i - |a|];
      }
    }
  }

  lemma AllUnderWiden(rs: seq<Route>, path: Str, shorter: Str)
    requires AllUnder(rs, path) && StartsWith(path, shorter)
    ensures AllUnder(rs, shorter)
  {
    forall i | 0 <= i < |rs|
      ensures StartsWith(rs[i].url, shorter)
    {
      StartsWithTrans(rs[i].url, path, shorter);
    }
  }

  /** Every route of a city lies under the city's path. */
  lemma CityRoutesShape(base: Str, abbr: Str, city: CityNode, therapies: seq<Str>)
    ensures AllUnder(CityRoutes(base, abbr, city, therapies), CityPath(base, abbr, city.slug))
  {
    var r := CityRoutes(base, abbr, city, therapies);
    var hs := HoodRoutes(base, abbr, city);
    var ts := CityTherapyRoutes(base, abbr, city, therapies);
    var path := CityPath(base, abbr, city.slug);
    forall i | 0 <= i < |r|
      ensures StartsWith(r[i].url, path) && Inner(r[i])
    {
      if i == 0 {
        assert path + [] == path;
        StartsWithAppend(path, []);
      } else if i <= |hs| {
        assert r[i] == hs[i - 1];
        StartsWithAppend(path, "/" + city.neighborhoods[i - 1]);
        assert r[i].url == path + ("/" + city.neighborhoods[i - 1]);
      } else {
        assert r[i] == ts[i - 1 - |hs|];
        StartsWithAppend(path, "/" + therapies[i - 1 - |hs|]);
        assert r[i].url == path + ("/" + therapies[i - 1 - |hs|]);
      }
    }
  }

  /** Every route of a state's cities lies under the state's path. */
  lemma {:induction false} CitiesRoutesShape(base: Str, abbr: Str, cities: seq<CityNode>, therapies: seq<Str>)
    ensures AllUnder(CitiesRoutes(base, abbr, cities, therapies), StatePath(base, abbr))
  {
    if cities != [] {
      var city := cities[|cities| - 1];
      CitiesRoutesShape(base, abbr, cities[..|cities| - 1], therapies);
      CityRoutesShape(base, abbr, city, therapies);
      StartsWithAppend(StatePath(base, abbr), "/" + city.slug);
      assert CityPath(base, abbr, city.slug) == StatePath(base, abbr) + ("/" + city.slug);
      AllUnderWiden(CityRoutes(base, abbr, city, therapies), CityPath(base, abbr, city.slug), StatePath(base, abbr));
      AllUnderAppend(CitiesRoutes(base, abbr, cities[..|cities| - 1], therapies), CityRoutes(base, abbr, city, therapies),
                     StatePath(base, abbr));
    }
  }

  /** Every route of a state lies under `/therapists/<abbr>` with the
      abbreviation lower-cased. */
  lemma StateRoutesShape(base: Str, state: StateNode, therapies: seq<Str>)
    ensures AllUnder(StateRoutes(base, state, therapies), StatePath(base, LowerStr(state.abbreviation)))
  {
    var abbr := LowerStr(state.abbreviation);
    CitiesRoutesShape(base, abbr, state.cities, therapies);
    StartsWithAppend(StatePath(base, abbr), []);
    assert StatePath(base, abbr) + [] == StatePath(base, abbr);
    assert AllUnder([StateRoute(base, abbr)], StatePath(base, abbr));
    AllUnderAppend([StateRoute(base, abbr)], CitiesRoutes(base, abbr, state.cities, therapies), StatePath(base, abbr));
  }

  /** Every state route lies under `base + "/therapists/"`. */
  lemma {:induction false} StatesRoutesShape(base: Str, states: seq<StateNode>, therapies: seq<Str>)
    ensures AllUnder(StatesRoutes(base, states, therapies), base + "/therapists/")
  {
    if states != [] {
      var state := states[|states| - 1];
      var path := StatePath(base, LowerStr(state.abbreviation));
      StatesRoutesShape(base, states[..|states| - 1], therapies);
      StateRoutesShape(base, state, therapies);
      StartsWithAppend(base + "/therapists/", LowerStr(state.abbreviation));
      AllUnderWiden(StateRoutes(base, state, therapies), path, base + "/therapists/");
      AllUnderAppend(StatesRoutes(base, states[..|states| - 1], therapies), StateRoutes(base, state, therapies),
                     base + "/therapists/");
    }
  }

  /** Every URL begins with the site address; only the home page is daily
      with priority 1.0; hubs have 0.8, and every priority is one of 1.0,
      0.9, 0.8 and 0.7. */
  lemma SitemapShape(base: Str, states: seq<StateNode>, therapies: seq<Str>)
    ensures var r := SitemapRoutes(base, states, therapies);
      forall i :: 0 <= i < |r| ==>
        && StartsWith(r[i].url, base)
        && (r[i].priority == 1.0 <==> i == 0)
        && (r[i].changeFrequency == Daily <==> i == 0)
        && (3 <= i < 3 + |therapies| <==> r[i].priority == 0.8)
        && r[i].priority in {1.0, 0.9, 0.8, 0.7}
  {
    var r := SitemapRoutes(base, states, therapies);
    var head := StaticRoutes(base) + HubRoutes(base, therapies);
    var tail := StatesRoutes(base, states, therapies);
    StatesRoutesShape(base, states, therapies);
    StartsWithAppend(base, "/therapists/");
    forall i | 0 <= i < |r|
      ensures StartsWith(r[i].url, base)
    {
      if i == 0 {
        StartsWithAppend(base, []);
        assert base + [] == base;
      } else if i == 1 {
        StartsWithAppend(base, "/therapists");
      } else if i == 2 {
        StartsWithAppend(base, "/therapy");
      } else if i < |head| {
        StartsWithAppend(base, "/therapy/" + therapies[i - 3]);
        assert r[i].url == base + ("/therapy/" + therapies[i - 3]);
      } else {
        assert r[i] == tail[i - |head|];
        StartsWithTrans(tail[i - |head|].url, base + "/therapists/", base);
      }
    }
    forall i | |head| <= i < |r|
      ensures Inner(r[i])
    {
      assert r[i] == tail[i - |head|];
    }
  }
}
