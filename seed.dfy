/** scripts/seed.ts: upsert the canonical therapies, then every listed state
    and its cities. */
module Seed {
  import opened Text
  import opened Store

  /** One therapy of the canonical list. */
  datatype TherapySeed = TherapySeed(name: Str, slug: Str, synonyms: seq<Str>)

  /** One state of the city list with the names of its cities. */
  datatype StateSeed = StateSeed(state: Str, stateAbbr: Str, cities: seq<Str>)

  /** The therapy rows, keyed by slug; an update rewrites name and synonyms. */
  function TherapyEntries(therapies: seq<TherapySeed>): (r: seq<(Str, Therapy)>)
    ensures |r| == |therapies|
    ensures forall i :: 0 <= i < |therapies| ==>
      r[i] == (therapies[i].slug, Therapy(therapies[i].slug, therapies[i].name, therapies[i].synonyms))
  {
    seq(|therapies|, i requires 0 <= i < |therapies| =>
      (therapies[i].slug, Therapy(therapies[i].slug, therapies[i].name, therapies[i].synonyms)))
  }

  /** The state rows, keyed by abbreviation; an update rewrites name and slug. */
  function StateEntries(data: seq<StateSeed>, lib: LibSlugify): (r: seq<(Str, State)>)
    ensures |r| == |data|
    ensures forall i :: 0 <= i < |data| ==>
      r[i] == (data[i].stateAbbr, State(data[i].state, lib(data[i].state, Strict)))
  {
    seq(|data|, i requires 0 <= i < |data| =>
      (data[i].stateAbbr, State(data[i].state, lib(data[i].state, Strict))))
  }

  /** The city rows of one state, keyed by (abbreviation, city slug). */
  function StateCityEntries(abbr: Str, cities: seq<Str>, lib: LibSlugify): (r: seq<(CityKey, City)>)
    ensures |r| == |cities|
    ensures forall j :: 0 <= j < |cities| ==> r[j] == ((abbr, lib(cities[j], Strict)), City(cities[j]))
  {
    seq(|cities|, j requires 0 <= j < |cities| => ((abbr, lib(cities[j], Strict)), City(cities[j])))
  }

  /** The city rows of every state, in list order. */
  function CityEntries(data: seq<StateSeed>, lib: LibSlugify): seq<(CityKey, City)>
  {
    if data == [] then []
    else
      var last := data[|data| - 1];
      CityEntries(data[..|data| - 1], lib) + StateCityEntries(last.stateAbbr, last.cities, lib)
  }

  /** The number of city names in the list. */
  function CityCount(data: seq<StateSeed>): (r: nat)
    ensures r == 0 <==> forall i :: 0 <= i < |data| ==> data[i].cities == []
  {
    if data == [] then 0 else CityCount(data[..|data| - 1]) + |data[|data| - 1].cities|
  }

  lemma CityEntriesStep(data: seq<StateSeed>, lib: LibSlugify, i: nat)
    requires i < |data|
    ensures CityEntries(data[..i + 1], lib)
      == CityEntries(data[..i], lib) + StateCityEntries(data[i].stateAbbr, data[i].cities, lib)
    ensures CityCount(data[..i + 1]) == CityCount(data[..i]) + |data[i].cities|
  {
    PrefixOfPrefix(data, i);
  }

  /** The therapy loop. */
  method SeedTherapies(therapies: seq<TherapySeed>, table: map<Str, Therapy>) returns (table': map<Str, Therapy>)
    ensures table' == UpsertAll(table, TherapyEntries(therapies))
  {
    ghost var es := TherapyEntries(therapies);
    table' := table;
    assert es[..0] == [];
    for i := 0 to |therapies|
      invariant table' == UpsertAll(table, es[..i])
    {
      var therapy := therapies[i];
      PrefixSnoc(es, i);
      UpsertAllSnoc(table, es[..i], es[i]);
      table' := table'[therapy.slug := Therapy(therapy.slug, therapy.name, therapy.synonyms)];
    }
    assert es[..|therapies|] == es;
  }

  /** The city loop of one state: upsert each city and count it. */
  method SeedCities(cities': map<CityKey, City>, abbr: Str, names: seq<Str>, lib: LibSlugify)
    returns (cities'': map<CityKey, City>, n: nat)
    ensures cities'' == UpsertAll(cities', StateCityEntries(abbr, names, lib))
    ensures n == |names|
  {
    ghost var es := StateCityEntries(abbr, names, lib);
    cities'' := cities';
    n := 0;
    assert es[..0] == [];
    for j := 0 to |names|
      invariant cities'' == UpsertAll(cities', es[..j])
      invariant n == j
    {
      var cityName := names[j];
      var citySlug := lib(cityName, Strict);
      PrefixSnoc(es, j);
      UpsertAllSnoc(cities', es[..j], es[j]);
      cities'' := cities''[(abbr, citySlug) := City(cityName)];
      n := n + 1;
    }
    assert es[..|names|] == es;
  }

  /** `main`: upsert the therapies, then each state followed by its cities,
      counting the cities. */
  method SeedAll(therapies: seq<TherapySeed>, data: seq<StateSeed>, lib: LibSlugify,
                 therapyTable: map<Str, Therapy>, states: map<Str, State>, cities: map<CityKey, City>)
    returns (therapyTable': map<Str, Therapy>, states': map<Str, State>, cities': map<CityKey, City>, totalCities: nat)
    ensures therapyTable' == UpsertAll(therapyTable, TherapyEntries(therapies))
    ensures states' == UpsertAll(states, StateEntries(data, lib))
    ensures cities' == UpsertAll(cities, CityEntries(data, lib))
    ensures totalCities == CityCount(data)
  {
    therapyTable' := SeedTherapies(therapies, therapyTable);
    ghost var ses := StateEntries(data, lib);
    states', cities', totalCities := states, cities, 0;
    assert ses[..0] == [] && data[..0] == [];
    for i := 0 to |data|
      invariant states' == UpsertAll(states, ses[..i])
      invariant cities' == UpsertAll(cities, CityEntries(data[..i], lib))
      invariant totalCities == CityCount(data[..i])
    {
      var stateData := data[i];
      var stateSlug := lib(stateData.state, Strict);
      PrefixSnoc(ses, i);
      UpsertAllSnoc(states, ses[..i], ses[i]);
      states' := states'[stateData.stateAbbr := State(stateData.state, stateSlug)];
      CityEntriesStep(data, lib, i);
      UpsertAllAppend(cities, CityEntries(data[..i], lib), StateCityEntries(stateData.stateAbbr, stateData.cities, lib));
      var n;
      cities', n := SeedCities(cities', stateData.stateAbbr, stateData.cities, lib);
      totalCities := totalCities + n;
    }
    assert ses[..|data|] == ses && data[..|data|] == data;
  }

  /** The reported city count is the number of city upserts. */
  lemma {:induction false} CityCountIsUpserts(data: seq<StateSeed>, lib: LibSlugify)
    ensures |CityEntries(data, lib)| == CityCount(data)
  {
    if data != [] {
      CityCountIsUpserts(data[..|data| - 1], lib);
    }
  }

  /** After the run a listed therapy slug holds the name and synonyms of its
      last listing; an unlisted row is untouched. */
  lemma TherapiesSeeded(therapies: seq<TherapySeed>, table: map<Str, Therapy>, slug: Str)
    ensures var r := UpsertAll(table, TherapyEntries(therapies));
      && (slug in r <==> slug in table || exists i :: 0 <= i < |therapies| && therapies[i].slug == slug)
      && (slug !in EntryKeys(TherapyEntries(therapies)) && slug in table ==> r[slug] == table[slug])
      && (slug in EntryKeys(TherapyEntries(therapies)) ==>
            r[slug].slug == slug
            && exists i :: 0 <= i < |therapies| && therapies[i].slug == slug
                 && r[slug] == Therapy(slug, therapies[i].name, therapies[i].synonyms))
  {
    var es := TherapyEntries(therapies);
    UpsertAllAt(table, es);
    if slug in EntryKeys(es) {
      LastValueIsEntry(es, slug);
      var i :| 0 <= i < |es| && es[i] == (slug, LastValue(es, slug));
      assert therapies[i].slug == slug;
    } else {
      assert forall i :: 0 <= i < |therapies| ==> es[i].0 == therapies[i].slug;
    }
  }

  /** A listed state holds a listed name and the strict slug of that name,
      whatever state row held its abbreviation before; an unlisted row is
      untouched. */
  lemma StatesSeeded(data: seq<StateSeed>, lib: LibSlugify, states: map<Str, State>, abbr: Str)
    ensures var r := UpsertAll(states, StateEntries(data, lib));
      && (abbr in r <==> abbr in states || exists i :: 0 <= i < |data| && data[i].stateAbbr == abbr)
      && (abbr !in EntryKeys(StateEntries(data, lib)) && abbr in states ==> r[abbr] == states[abbr])
      && (abbr in EntryKeys(StateEntries(data, lib)) ==>
            r[abbr].slug == lib(r[abbr].name, Strict)
            && exists i :: 0 <= i < |data| && data[i].stateAbbr == abbr && r[abbr].name == data[i].state)
  {
    var es := StateEntries(data, lib);
    UpsertAllAt(states, es);
    if abbr in EntryKeys(es) {
      LastValueIsEntry(es, abbr);
      var i :| 0 <= i < |es| && es[i] == (abbr, LastValue(es, abbr));
      assert data[i].stateAbbr == abbr;
    } else {
      assert forall i :: 0 <= i < |data| ==> es[i].0 == data[i].stateAbbr;
    }
  }

  /** Every listed city has an entry under its own state. */
  lemma {:induction false} CityEntriesHas(data: seq<StateSeed>, lib: LibSlugify, i: nat, j: nat)
    requires i < |data| && j < |data[i].cities|
    ensures (data[i].stateAbbr, lib(data[i].cities[j], Strict)) in EntryKeys(CityEntries(data, lib))
  {
    var n := |data| - 1;
    var init := data[..n];
    var before: seq<(CityKey, City)> := CityEntries(init, lib);
    var own: seq<(CityKey, City)> := StateCityEntries(data[n].stateAbbr, data[n].cities, lib);
    var key: CityKey := (data[i].stateAbbr, lib(data[i].cities[j], Strict));
    assert CityEntries(data, lib) == before + own;
    if i == n {
      assert (before + own)[|before| + j].0 == key;
    } else {
      assert init[i] == data[i];
      CityEntriesHas(init, lib, i, j);
      var m :| 0 <= m < |before| && before[m].0 == key;
      assert (before + own)[m].0 == key;
    }
  }

  /** A city name listed under two states ("Columbus", "Arlington") gives two
      city rows, one under each state. */
  lemma SameNameTwoStates(data: seq<StateSeed>, lib: LibSlugify, cities: map<CityKey, City>, i: nat, j: nat, i2: nat, j2: nat)
    requires i < |data| && j < |data[i].cities| && i2 < |data| && j2 < |data[i2].cities|
    requires data[i].cities[j] == data[i2].cities[j2] && data[i].stateAbbr != data[i2].stateAbbr
    ensures var r := UpsertAll(cities, CityEntries(data, lib));
      var k := (data[i].stateAbbr, lib(data[i].cities[j], Strict));
      var k2 := (data[i2].stateAbbr, lib(data[i2].cities[j2], Strict));
      k in r && k2 in r && k != k2
  {
    CityEntriesHas(data, lib, i, j);
    CityEntriesHas(data, lib, i2, j2);
    UpsertAllAt(cities, CityEntries(data, lib));
  }

  /** Running the seed twice leaves every table as one run leaves it. */
  lemma SeedIdempotent(therapies: seq<TherapySeed>, data: seq<StateSeed>, lib: LibSlugify,
                       therapyTable: map<Str, Therapy>, states: map<Str, State>, cities: map<CityKey, City>)
    ensures var t1 := UpsertAll(therapyTable, TherapyEntries(therapies));
      UpsertAll(t1, TherapyEntries(therapies)) == t1
    ensures var s1 := UpsertAll(states, StateEntries(data, lib));
      UpsertAll(s1, StateEntries(data, lib)) == s1
    ensures var c1 := UpsertAll(cities, CityEntries(data, lib));
      UpsertAll(c1, CityEntries(data, lib)) == c1
  {
    UpsertAllIdempotent(therapyTable, TherapyEntries(therapies));
    UpsertAllIdempotent(states, StateEntries(data, lib));
    UpsertAllIdempotent(cities, CityEntries(data, lib));
  }
}
