/** scripts/seed-neighborhoods.ts: create the neighbourhoods of a few major
    cities, found by city slug, creating only the rows that are missing. */
module SeedNeighborhoods {
  import opened Text
  import opened Store

  const NewYorkCity: Str := "new-york-city"
  const NewYork: Str := "new-york"

  /** `findFirst({ where: { slug } })` over the city table `rows`, read in row
      order: the first city with that slug, whatever its state. */
  function FindBySlug(rows: seq<CityKey>, slug: Str): (r: Option<CityKey>)
    ensures r.None? <==> forall i :: 0 <= i < |rows| ==> rows[i].1 != slug
    ensures r.Some? ==> exists i :: 0 <= i < |rows| && rows[i] == r.value && r.value.1 == slug
                                     && forall i' :: 0 <= i' < i ==> rows[i'].1 != slug
  {
    if rows == [] then None
    else if rows[0].1 == slug then Some(rows[0])
    else
      var rest := FindBySlug(rows[1..], slug);
      if rest.Some? then
        ghost var i :| 0 <= i < |rows| - 1 && rows[1..][i] == rest.value && rest.value.1 == slug
                       && forall i' :: 0 <= i' < i ==> rows[1..][i'].1 != slug;
        assert rows[i + 1] == rest.value && forall i' :: 0 <= i' < i + 1 ==> rows[i'].1 != slug;
        rest
      else
        assert forall i :: 1 <= i < |rows| ==> rows[i].1 == rows[1..][i - 1].1;
        rest
  }

  /** The city a list entry names: the row with its slug, falling back from
      "new-york-city" to "new-york" and back when the first is missing. */
  function FindCity(rows: seq<CityKey>, citySlug: Str): (r: Option<CityKey>)
    ensures FindBySlug(rows, citySlug).Some? ==> r == FindBySlug(rows, citySlug)
    ensures FindBySlug(rows, citySlug).None? && citySlug == NewYorkCity ==> r == FindBySlug(rows, NewYork)
    ensures FindBySlug(rows, citySlug).None? && citySlug == NewYork ==> r == FindBySlug(rows, NewYorkCity)
    ensures FindBySlug(rows, citySlug).None? && citySlug != NewYorkCity && citySlug != NewYork ==> r.None?
  {
    var city := FindBySlug(rows, citySlug);
    if city.None? && citySlug == NewYorkCity then FindBySlug(rows, NewYork)
    else if city.None? && citySlug == NewYork then FindBySlug(rows, NewYorkCity)
    else city
  }

  /** A found city is a row of the table whose slug is the one asked for, or
      the other New York slug; no city is found exactly when neither exists. */
  lemma FindCityFinds(rows: seq<CityKey>, citySlug: Str)
    ensures var r := FindCity(rows, citySlug);
      && (r.Some? ==>
            (r.value in rows
             && (r.value.1 == citySlug
                 || (citySlug == NewYorkCity && r.value.1 == NewYork)
                 || (citySlug == NewYork && r.value.1 == NewYorkCity))))
      && (r.None? <==>
            (forall i :: 0 <= i < |rows| ==> rows[i].1 != citySlug)
            && (citySlug == NewYorkCity ==> forall i :: 0 <= i < |rows| ==> rows[i].1 != NewYork)
            && (citySlug == NewYork ==> forall i :: 0 <= i < |rows| ==> rows[i].1 != NewYorkCity))
  {
    var r := FindCity(rows, citySlug);
    if r.Some? {
      var s := if FindBySlug(rows, citySlug).Some? then citySlug
               else if citySlug == NewYorkCity then NewYork else NewYorkCity;
      assert r == FindBySlug(rows, s);
      var i :| 0 <= i < |rows| && rows[i] == r.value && r.value.1 == s
               && forall i' :: 0 <= i' < i ==> rows[i'].1 != s;
    }
  }

  /** `slugify(name, { lower: true, strict: true })`. */
  function StrictSlug(lib: LibSlugify): Str -> Str
  {
    n => lib(n, Strict)
  }

  /** The neighbourhood rows one list entry creates when absent: none when
      its city is not found. */
  function ListEntries(rows: seq<CityKey>, lib: LibSlugify, list: (Str, seq<Str>)): seq<(HoodKey, Hood)>
  {
    match FindCity(rows, list.0)
    case None => []
    case Some(ck) => HoodEntries(ck, list.1, StrictSlug(lib))
  }

  /** The rows of every list entry, in list order. */
  function SeedEntries(rows: seq<CityKey>, lib: LibSlugify, lists: seq<(Str, seq<Str>)>): seq<(HoodKey, Hood)>
  {
    if lists == [] then []
    else SeedEntries(rows, lib, lists[..|lists| - 1]) + ListEntries(rows, lib, lists[|lists| - 1])
  }

  lemma SeedEntriesStep(rows: seq<CityKey>, lib: LibSlugify, lists: seq<(Str, seq<Str>)>, i: nat)
    requires i < |lists|
    ensures SeedEntries(rows, lib, lists[..i + 1]) == SeedEntries(rows, lib, lists[..i]) + ListEntries(rows, lib, lists[i])
  {
    PrefixOfPrefix(lists, i);
  }

  /** `main`: for each list entry whose city is found, create each of its
      neighbourhoods that the city does not have yet; then count the
      neighbourhood table. */
  method SeedNeighborhoods(rows: seq<CityKey>, lib: LibSlugify, lists: seq<(Str, seq<Str>)>, hoods: map<HoodKey, Hood>)
    returns (hoods': map<HoodKey, Hood>, count: nat)
    ensures hoods' == InsertAbsent(hoods, SeedEntries(rows, lib, lists))
    ensures count == |hoods'|
  {
    hoods' := hoods;
    assert lists[..0] == [];
    for i := 0 to |lists|
      invariant hoods' == InsertAbsent(hoods, SeedEntries(rows, lib, lists[..i]))
    {
      var (citySlug, names) := lists[i];
      SeedEntriesStep(rows, lib, lists, i);
      InsertAbsentAppend(hoods, SeedEntries(rows, lib, lists[..i]), ListEntries(rows, lib, lists[i]));
      var city := FindCity(rows, citySlug);
      if city.None? {
        assert ListEntries(rows, lib, lists[i]) == [];
        assert InsertAbsent(hoods', []) == hoods';
        continue;
      }
      hoods' := EnsureHoods(hoods', city.value, names, StrictSlug(lib));
    }
    assert lists[..|lists|] == lists;
    count := |hoods'|;
  }

  /** Every neighbourhood of an entry whose city is found has an entry. */
  lemma {:induction false} SeedEntriesHas(rows: seq<CityKey>, lib: LibSlugify, lists: seq<(Str, seq<Str>)>, i: nat, j: nat, ck: CityKey)
    requires i < |lists| && j < |lists[i].1| && FindCity(rows, lists[i].0) == Some(ck)
    ensures (ck, lib(lists[i].1[j], Strict)) in EntryKeys(SeedEntries(rows, lib, lists))
  {
    var n := |lists| - 1;
    var init := lists[..n];
    var before: seq<(HoodKey, Hood)> := SeedEntries(rows, lib, init);
    var own: seq<(HoodKey, Hood)> := ListEntries(rows, lib, lists[n]);
    var key: HoodKey := (ck, lib(lists[i].1[j], Strict));
    assert SeedEntries(rows, lib, lists) == before + own;
    if i == n {
      assert own[j].0 == key;
      assert (before + own)[|before| + j].0 == key;
    } else {
      assert init[i] == lists[i];
      SeedEntriesHas(rows, lib, init, i, j, ck);
      var m :| 0 <= m < |before| && before[m].0 == key;
      assert (before + own)[m].0 == key;
    }
  }

  /** Every entry key belongs to a list entry whose city was found. */
  lemma {:induction false} SeedEntriesFrom(rows: seq<CityKey>, lib: LibSlugify, lists: seq<(Str, seq<Str>)>, k: HoodKey)
    requires k in EntryKeys(SeedEntries(rows, lib, lists))
    ensures exists i :: 0 <= i < |lists| && FindCity(rows, lists[i].0) == Some(k.0)
  {
    var n := |lists| - 1;
    var init := lists[..n];
    var before: seq<(HoodKey, Hood)> := SeedEntries(rows, lib, init);
    var own: seq<(HoodKey, Hood)> := ListEntries(rows, lib, lists[n]);
    assert SeedEntries(rows, lib, lists) == before + own;
    var m :| 0 <= m < |before + own| && (before + own)[m].0 == k;
    if m < |before| {
      assert before[m].0 == k;
      SeedEntriesFrom(rows, lib, init, k);
      var i :| 0 <= i < |init| && FindCity(rows, init[i].0) == Some(k.0);
      assert lists[i] == init[i];
    } else {
      assert own[m - |before|].0 == k;
      assert FindCity(rows, lists[n].0) == Some(k.0);
    }
  }

  /** After the run every neighbourhood of a found city exists, existing rows
      are untouched, and a new row belongs to a found city. */
  lemma SeededHoods(rows: seq<CityKey>, lib: LibSlugify, lists: seq<(Str, seq<Str>)>, hoods: map<HoodKey, Hood>, k: HoodKey)
    ensures var r := InsertAbsent(hoods, SeedEntries(rows, lib, lists));
      && (k in hoods ==> k in r && r[k] == hoods[k])
      && (k in r && k !in hoods ==> exists i :: 0 <= i < |lists| && FindCity(rows, lists[i].0) == Some(k.0))
      && (forall i, j ::
            (0 <= i < |lists| && 0 <= j < |lists[i].1| && FindCity(rows, lists[i].0) == Some(k.0)
             && k.1 == lib(lists[i].1[j], Strict)) ==> k in r)
  {
    var es := SeedEntries(rows, lib, lists);
    InsertAbsentAt(hoods, es, k);
    if k in InsertAbsent(hoods, es) && k !in hoods {
      SeedEntriesFrom(rows, lib, lists, k);
    }
    forall i, j | 0 <= i < |lists| && 0 <= j < |lists[i].1| && FindCity(rows, lists[i].0) == Some(k.0)
                  && k.1 == lib(lists[i].1[j], Strict)
      ensures k in InsertAbsent(hoods, es)
    {
      SeedEntriesHas(rows, lib, lists, i, j, k.0);
    }
  }

  /** When no listed city is found nothing is written. */
  lemma NothingFoundNothingWritten(rows: seq<CityKey>, lib: LibSlugify, lists: seq<(Str, seq<Str>)>, hoods: map<HoodKey, Hood>)
    requires forall i :: 0 <= i < |lists| ==> FindCity(rows, lists[i].0).None?
    ensures InsertAbsent(hoods, SeedEntries(rows, lib, lists)) == hoods
  {
    var r := InsertAbsent(hoods, SeedEntries(rows, lib, lists));
    forall k | k in r
      ensures k in hoods && r[k] == hoods[k]
    {
      SeededHoods(rows, lib, lists, hoods, k);
    }
    forall k | k in hoods
      ensures k in r
    {
      SeededHoods(rows, lib, lists, hoods, k);
    }
  }

  /** A second run creates nothing. */
  lemma SeedNeighborhoodsIdempotent(rows: seq<CityKey>, lib: LibSlugify, lists: seq<(Str, seq<Str>)>, hoods: map<HoodKey, Hood>)
    ensures var once := InsertAbsent(hoods, SeedEntries(rows, lib, lists));
      InsertAbsent(once, SeedEntries(rows, lib, lists)) == once
  {
    InsertAbsentIdempotent(hoods, SeedEntries(rows, lib, lists));
  }
}
