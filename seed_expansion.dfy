/** scripts/seed-expansion.ts: make sure every listed city exists, with its
    state and its neighbourhoods, creating only the rows that are missing. */
module SeedExpansion {
  import opened Text
  import opened Store
  import LocalSlug

  /** One entry of the city list: name, state abbreviation, city slug and
      neighbourhood names. */
  datatype CitySeed = CitySeed(name: Str, state: Str, slug: Str, neighborhoods: seq<Str>)

  /** The full names the script knows for the states it may create. */
  const StateNames: map<Str, Str> := map["TX" := "Texas", "AZ" := "Arizona", "PA" := "Pennsylvania", "CA" := "California"]

  /** `stateNames[abbr] || abbr`: every listed name is non-empty, so the
      fallback is taken exactly for an unlisted abbreviation. */
  function StateName(abbr: Str): Str
  {
    if abbr in StateNames then StateNames[abbr] else abbr
  }

  /** The state row created for `abbr`, its slug made by `slugOf`. */
  function NewState(abbr: Str, slugOf: Str -> Str): State
  {
    State(StateName(abbr), slugOf(StateName(abbr)))
  }

  function CityKeyOf(d: CitySeed): CityKey
  {
    (d.state, d.slug)
  }

  /** The state rows the run creates when absent, in list order. */
  function StateEntries(data: seq<CitySeed>, slugOf: Str -> Str): (r: seq<(Str, State)>)
    ensures |r| == |data| && forall i :: 0 <= i < |data| ==> r[i] == (data[i].state, NewState(data[i].state, slugOf))
  {
    seq(|data|, i requires 0 <= i < |data| => (data[i].state, NewState(data[i].state, slugOf)))
  }

  /** The city rows the run creates when absent, in list order. */
  function CityEntries(data: seq<CitySeed>): (r: seq<(CityKey, City)>)
    ensures |r| == |data| && forall i :: 0 <= i < |data| ==> r[i] == (CityKeyOf(data[i]), City(data[i].name))
  {
    seq(|data|, i requires 0 <= i < |data| => (CityKeyOf(data[i]), City(data[i].name)))
  }

  /** The neighbourhood rows the run creates when absent: those of each city
      in list order, keyed by the local slug of the name. */
  function AllHoodEntries(data: seq<CitySeed>, slugOf: Str -> Str): seq<(HoodKey, Hood)>
  {
    if data == [] then []
    else
      var last := data[|data| - 1];
      AllHoodEntries(data[..|data| - 1], slugOf) + HoodEntries(CityKeyOf(last), last.neighborhoods, slugOf)
  }

  /** One more city of the list. */
  lemma AllHoodEntriesStep(data: seq<CitySeed>, slugOf: Str -> Str, i: nat)
    requires i < |data|
    ensures AllHoodEntries(data[..i + 1], slugOf)
      == AllHoodEntries(data[..i], slugOf) + HoodEntries(CityKeyOf(data[i]), data[i].neighborhoods, slugOf)
  {
    PrefixOfPrefix(data, i);
  }

  /** `main`: for each listed city, create its state when no state has the
      abbreviation, the city when no city has its (slug, state), and each
      neighbourhood when no row has its (slug, city). */
  method SeedExpansion(data: seq<CitySeed>, states: map<Str, State>, cities: map<CityKey, City>, hoods: map<HoodKey, Hood>)
    returns (states': map<Str, State>, cities': map<CityKey, City>, hoods': map<HoodKey, Hood>)
    ensures states' == InsertAbsent(states, StateEntries(data, LocalSlug.Slugify))
    ensures cities' == InsertAbsent(cities, CityEntries(data))
    ensures hoods' == InsertAbsent(hoods, AllHoodEntries(data, LocalSlug.Slugify))
  {
    ghost var ses := StateEntries(data, LocalSlug.Slugify);
    ghost var ces := CityEntries(data);
    states', cities', hoods' := states, cities, hoods;
    assert ses[..0] == [] && ces[..0] == [] && data[..0] == [];
    for i := 0 to |data|
      invariant states' == InsertAbsent(states, ses[..i])
      invariant cities' == InsertAbsent(cities, ces[..i])
      invariant hoods' == InsertAbsent(hoods, AllHoodEntries(data[..i], LocalSlug.Slugify))
    {
      var cityData := data[i];
      PrefixSnoc(ses, i);
      InsertAbsentSnoc(states, ses[..i], ses[i]);
      if cityData.state !in states' {
        var name := StateName(cityData.state);
        states' := states'[cityData.state := State(name, LocalSlug.Slugify(name))];
      }
      PrefixSnoc(ces, i);
      InsertAbsentSnoc(cities, ces[..i], ces[i]);
      var ck := (cityData.state, cityData.slug);
      if ck !in cities' {
        cities' := cities'[ck := City(cityData.name)];
      }
      AllHoodEntriesStep(data, LocalSlug.Slugify, i);
      InsertAbsentAppend(hoods, AllHoodEntries(data[..i], LocalSlug.Slugify), HoodEntries(ck, cityData.neighborhoods, LocalSlug.Slugify));
      hoods' := EnsureHoods(hoods', ck, cityData.neighborhoods, LocalSlug.Slugify);
    }
    assert ses[..|data|] == ses && ces[..|data|] == ces && data[..|data|] == data;
  }

  /** The state row for `abbr` carries the mapped full name (the
      abbreviation itself when unmapped) and the slug of that name. */
  lemma NewStateNamed(abbr: Str, slugOf: Str -> Str)
    ensures abbr in StateNames ==> NewState(abbr, slugOf).name == StateNames[abbr]
    ensures abbr !in StateNames ==> NewState(abbr, slugOf).name == abbr
    ensures NewState(abbr, slugOf).slug == slugOf(NewState(abbr, slugOf).name)
  {
  }

  /** A state is created only when no state has its abbreviation, and then
      as `NewState`; an existing state is left as it was. */
  lemma StateCreatedOnlyWhenAbsent(data: seq<CitySeed>, slugOf: Str -> Str, states: map<Str, State>, abbr: Str)
    ensures var r := InsertAbsent(states, StateEntries(data, slugOf));
      && (abbr in states ==> abbr in r && r[abbr] == states[abbr])
      && (abbr !in states && (exists i :: 0 <= i < |data| && data[i].state == abbr) ==> abbr in r && r[abbr] == NewState(abbr, slugOf))
      && (abbr !in states && (forall i :: 0 <= i < |data| ==> data[i].state != abbr) ==> abbr !in r)
  {
    var es := StateEntries(data, slugOf);
    InsertAbsentAt(states, es, abbr);
    if abbr !in states {
      if i :| 0 <= i < |data| && data[i].state == abbr {
        assert es[i].0 == abbr;
        FirstValueUniform(es, abbr, NewState(abbr, slugOf));
      } else {
        assert abbr !in EntryKeys(es);
      }
    }
  }

  /** A city is created only when no city has its (slug, state), holding the
      first listed entry with that key; an existing city is left as it was. */
  lemma CityCreatedOnlyWhenAbsent(data: seq<CitySeed>, cities: map<CityKey, City>, ck: CityKey)
    ensures var r := InsertAbsent(cities, CityEntries(data));
      && (ck in cities ==> ck in r && r[ck] == cities[ck])
      && (ck !in cities && ck in EntryKeys(CityEntries(data)) ==> ck in r && r[ck] == FirstValue(CityEntries(data), ck))
      && (ck !in cities && (forall i :: 0 <= i < |data| ==> CityKeyOf(data[i]) != ck) ==> ck !in r)
  {
    InsertAbsentAt(cities, CityEntries(data), ck);
  }

  /** Every listed neighbourhood has an entry under its own city. */
  lemma {:induction false} AllHoodEntriesHas(data: seq<CitySeed>, slugOf: Str -> Str, i: nat, j: nat)
    requires i < |data| && j < |data[i].neighborhoods|
    ensures (CityKeyOf(data[i]), slugOf(data[i].neighborhoods[j])) in EntryKeys(AllHoodEntries(data, slugOf))
  {
    var n := |data| - 1;
    var init := data[..n];
    var before: seq<(HoodKey, Hood)> := AllHoodEntries(init, slugOf);
    var own: seq<(HoodKey, Hood)> := HoodEntries(CityKeyOf(data[n]), data[n].neighborhoods, slugOf);
    var key: HoodKey := (CityKeyOf(data[i]), slugOf(data[i].neighborhoods[j]));
    assert AllHoodEntries(data, slugOf) == before + own;
    if i == n {
      assert (before + own)[|before| + j].0 == key;
    } else {
      assert init[i] == data[i];
      AllHoodEntriesHas(init, slugOf, i, j);
      var m :| 0 <= m < |before| && before[m].0 == key;
      assert (before + own)[m].0 == key;
    }
  }

  /** After the run every listed neighbourhood exists under its city, and a
      name listed under two cities (such as "Downtown") gives two rows. An
      existing neighbourhood row is left as it was. */
  lemma HoodsExistPerCity(data: seq<CitySeed>, hoods: map<HoodKey, Hood>, i: nat, j: nat, i2: nat, j2: nat)
    requires i < |data| && j < |data[i].neighborhoods|
    requires i2 < |data| && j2 < |data[i2].neighborhoods|
    ensures var r := InsertAbsent(hoods, AllHoodEntries(data, LocalSlug.Slugify));
      var k := (CityKeyOf(data[i]), LocalSlug.Slugify(data[i].neighborhoods[j]));
      var k2 := (CityKeyOf(data[i2]), LocalSlug.Slugify(data[i2].neighborhoods[j2]));
      && k in r && k2 in r
      && (CityKeyOf(data[i]) != CityKeyOf(data[i2]) ==> k != k2)
      && (k in hoods ==> r[k] == hoods[k])
  {
    var k := (CityKeyOf(data[i]), LocalSlug.Slugify(data[i].neighborhoods[j]));
    var k2 := (CityKeyOf(data[i2]), LocalSlug.Slugify(data[i2].neighborhoods[j2]));
    AllHoodEntriesHas(data, LocalSlug.Slugify, i, j);
    AllHoodEntriesHas(data, LocalSlug.Slugify, i2, j2);
    InsertAbsentAt(hoods, AllHoodEntries(data, LocalSlug.Slugify), k);
    InsertAbsentAt(hoods, AllHoodEntries(data, LocalSlug.Slugify), k2);
  }

  /** A second run over the same list creates nothing. */
  lemma ExpansionIdempotent(data: seq<CitySeed>, states: map<Str, State>, cities: map<CityKey, City>, hoods: map<HoodKey, Hood>)
    ensures var s1 := InsertAbsent(states, StateEntries(data, LocalSlug.Slugify));
      InsertAbsent(s1, StateEntries(data, LocalSlug.Slugify)) == s1
    ensures var c1 := InsertAbsent(cities, CityEntries(data));
      InsertAbsent(c1, CityEntries(data)) == c1
    ensures var h1 := InsertAbsent(hoods, AllHoodEntries(data, LocalSlug.Slugify));
      InsertAbsent(h1, AllHoodEntries(data, LocalSlug.Slugify)) == h1
  {
    InsertAbsentIdempotent(states, StateEntries(data, LocalSlug.Slugify));
    InsertAbsentIdempotent(cities, CityEntries(data));
    InsertAbsentIdempotent(hoods, AllHoodEntries(data, LocalSlug.Slugify));
  }
}
