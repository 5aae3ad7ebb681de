/** The state list filter of src/app/therapists/TherapistsPageClient.tsx: a
    search box and a region selector narrow the list of states. */
module StateFilter {
  import opened Text

  /** A state as the page receives it (the counts it also carries are not
      used by the filter). */
  datatype StateRow = StateRow(name: Str, abbreviation: Str)

  const AllRegions: Str := "all"

  const Northeast: seq<Str> := ["CT", "ME", "MA", "NH", "RI", "VT", "NJ", "NY", "PA"]
  const Midwest: seq<Str> := ["IL", "IN", "MI", "OH", "WI", "IA", "KS", "MN", "MO", "NE", "ND", "SD"]
  const South: seq<Str> := ["DE", "FL", "GA", "MD", "NC", "SC", "VA", "WV", "AL", "KY", "MS", "TN", "AR", "LA", "OK", "TX"]
  const West: seq<Str> := ["AZ", "CO", "ID", "MT", "NV", "NM", "UT", "WY", "AK", "CA", "HI", "OR", "WA"]

  /** The `regions` table. */
  const Regions: map<Str, seq<Str>> := map["northeast" := Northeast, "midwest" := Midwest, "south" := South, "west" := West]

  /** The search half: the query, lower-cased, occurs in the lower-cased name
      or abbreviation. */
  predicate MatchesSearch(state: StateRow, query: Str)
  {
    Contains(LowerStr(state.name), LowerStr(query)) || Contains(LowerStr(state.abbreviation), LowerStr(query))
  }

  /** The region half: "all", or a known region whose list holds the
      abbreviation as written (no lower-casing). */
  predicate MatchesRegion(state: StateRow, region: Str, regions: map<Str, seq<Str>>)
  {
    region == AllRegions || (region in regions && state.abbreviation in regions[region])
  }

  predicate Keep(state: StateRow, query: Str, region: Str, regions: map<Str, seq<Str>>)
  {
    MatchesSearch(state, query) && MatchesRegion(state, region, regions)
  }

  /** `filteredStates`: the kept states in input order. */
  function Filter(states: seq<StateRow>, query: Str, region: Str, regions: map<Str, seq<Str>>): (r: seq<StateRow>)
    ensures |r| <= |states|
    ensures forall s :: s in r <==> s in states && Keep(s, query, region, regions)
  {
    if states == [] then []
    else
      var rest := Filter(states[1..], query, region, regions);
      assert forall s :: s in states <==> s == states[0] || s in states[1..];
      if Keep(states[0], query, region, regions) then [states[0]] + rest else rest
  }

  /** Filtering a concatenation filters each part and keeps them in order:
      the result is the input with the rejected states removed, in input
      order. */
  lemma {:induction false} FilterAppend(a: seq<StateRow>, b: seq<StateRow>, query: Str, region: Str, regions: map<Str, seq<Str>>)
    ensures Filter(a + b, query, region, regions) == Filter(a, query, region, regions) + Filter(b, query, region, regions)
  {
    if a == [] {
      assert a + b == b;
    } else {
      assert (a + b)[1..] == a[1..] + b;
      FilterAppend(a[1..], b, query, region, regions);
    }
  }

  /** A single state is kept exactly when it passes both halves. */
  lemma FilterOne(s: StateRow, query: Str, region: Str, regions: map<Str, seq<Str>>)
    ensures Filter([s], query, region, regions) == if Keep(s, query, region, regions) then [s] else []
  {
    assert [s][1..] == [];
  }

  /** With an empty query and region "all" every state is kept. */
  lemma {:induction false} EmptyQueryAllKeepsAll(states: seq<StateRow>, regions: map<Str, seq<Str>>)
    ensures Filter(states, [], AllRegions, regions) == states
  {
    if states != [] {
      ContainsEmpty(LowerStr(states[0].name));
      assert LowerStr([]) == [];
      EmptyQueryAllKeepsAll(states[1..], regions);
      assert [states[0]] + states[1..] == states;
    }
  }

  /** A region that is neither "all" nor a key of the table keeps nothing. */
  lemma UnknownRegionKeepsNone(states: seq<StateRow>, query: Str, region: Str, regions: map<Str, seq<Str>>)
    requires region != AllRegions && region !in regions
    ensures Filter(states, query, region, regions) == []
  {
  }

  /** The search ignores ASCII case on both sides. */
  lemma SearchIgnoresCase(state: StateRow, query: Str)
    ensures MatchesSearch(state, query) <==> MatchesSearch(state, LowerStr(query))
  {
    LowerStrIdempotent(query);
  }

  /** An empty query, the full name or the abbreviation each finds the
      state. */
  lemma SearchFindsOwnFields(state: StateRow)
    ensures MatchesSearch(state, [])
    ensures MatchesSearch(state, state.name)
    ensures MatchesSearch(state, state.abbreviation)
  {
    ContainsEmpty(LowerStr(state.name));
    assert OccursAt(LowerStr(state.name), LowerStr(state.name), 0);
    assert OccursAt(LowerStr(state.abbreviation), LowerStr(state.abbreviation), 0);
  }

  /** With the page's `regions` table, a state matches at most one region
      other than "all". */
  lemma OneRegionPerState(state: StateRow, r1: Str, r2: Str)
    requires r1 != AllRegions && r2 != AllRegions
    requires MatchesRegion(state, r1, Regions) && MatchesRegion(state, r2, Regions)
    ensures r1 == r2
  {
    NortheastMidwestDisjoint();
    NortheastSouthDisjoint();
    NortheastWestDisjoint();
    MidwestSouthDisjoint();
    MidwestWestDisjoint();
    SouthWestDisjoint();
  }

  /** The region lists have 9, 12, 16 and 13 entries: 50 in all. */
  lemma RegionSizes()
    ensures |Northeast| == 9 && |Midwest| == 12 && |South| == 16 && |West| == 13
    ensures |Northeast + Midwest + South + West| == 50
  {
  }

  // No abbreviation is listed twice within a region.

  lemma NortheastHasNoRepeats()
    ensures Distinct(Northeast)
  {
  }

  lemma MidwestHasNoRepeats()
    ensures Distinct(Midwest)
  {
  }

  lemma SouthHasNoRepeats()
    ensures Distinct(South)
  {
  }

  lemma WestHasNoRepeats()
    ensures Distinct(West)
  {
  }

  // No abbreviation belongs to two regions; one lemma per pair of regions.

  lemma NortheastMidwestDisjoint()
    ensures forall a :: a in Northeast ==> a !in Midwest
  {
  }

  lemma NortheastSouthDisjoint()
    ensures forall a :: a in Northeast ==> a !in South
  {
  }

  lemma NortheastWestDisjoint()
    ensures forall a :: a in Northeast ==> a !in West
  {
  }

  lemma MidwestSouthDisjoint()
    ensures forall a :: a in Midwest ==> a !in South
  {
  }

  lemma MidwestWestDisjoint()
    ensures forall a :: a in Midwest ==> a !in West
  {
  }

  lemma SouthWestDisjoint()
    ensures forall a :: a in South ==> a !in West
  {
  }
}
