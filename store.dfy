/** The in-memory store the scripts read and write. Each table is a map keyed
    by the unique key the code relies on; the database's surrogate ids are
    replaced by those keys:
      - providers by `placeId`, and their `slug` is unique as well;
      - therapies by `slug`; provider/therapy links by (placeId, therapy slug);
      - states by `abbreviation`; cities by (state abbreviation, city slug);
      - neighbourhoods by (city key, neighbourhood slug). */
module Store {
  import opened Text

  datatype Option<T> = None | Some(value: T)

  type PlaceId = Str
  type CityKey = (Str, Str)    // (state abbreviation, city slug)
  type HoodKey = (CityKey, Str) // (city, neighbourhood slug)
  type LinkKey = (PlaceId, Str) // (provider, therapy slug)

  /** Why a write the scripts attempt is refused: a field the code dereferences
      is missing (a `TypeError`), or a unique key is already taken (Prisma's
      `P2002`). */
  datatype WriteError = MissingField | UniqueViolation

  datatype Result<T> = Ok(value: T) | Err(error: WriteError)

  /** What the stored `sourceData` JSON yields when parsed: nothing stored,
      a string `JSON.parse` rejects, or an object whose `types` list (absent
      meaning empty) is all any reader takes from it. */
  datatype SourceData = NoSource | Malformed | Parsed(types: seq<Str>)

  datatype Provider = Provider(
    slug: Str,
    name: Str,
    address: Option<Str>,
    lat: Option<real>,
    lng: Option<real>,
    rating: Option<real>,
    reviewCount: Option<int>,
    website: Option<Str>,
    phone: Option<Str>,
    sourceData: SourceData,
    photoUrl: Option<Str>,
    googlePhotoRef: Option<Str>,
    description: Option<Str>,
    cityId: CityKey,
    stateId: Str,
    neighborhoodId: Option<HoodKey>)

  type Providers = map<PlaceId, Provider>

  datatype Location = Location(latitude: real, longitude: real)

  /** A place as the Places API returns it. `displayName` is `displayName.text`;
      an absent optional field is `None`, and `photos` lists the photo names
      (empty when the field is absent). */
  datatype Place = Place(
    id: PlaceId,
    displayName: Option<Str>,
    formattedAddress: Option<Str>,
    location: Option<Location>,
    rating: Option<real>,
    userRatingCount: Option<int>,
    websiteUri: Option<Str>,
    nationalPhoneNumber: Option<Str>,
    types: Option<seq<Str>>,
    photos: seq<Str>)

  /** `place.photos && place.photos.length > 0 ? place.photos[0].name : null`,
      the photo reference both scrapers store. */
  function FirstPhoto(place: Place): (r: Option<Str>)
    ensures r.Some? <==> |place.photos| > 0
    ensures r.Some? ==> r.value == place.photos[0]
  {
    if |place.photos| > 0 then Some(place.photos[0]) else None
  }

  /** `JSON.stringify(place)` as later readers see it: its `types`, or none. */
  function PlaceSource(place: Place): (r: SourceData)
    ensures r.Parsed?
    ensures place.types.Some? ==> r.types == place.types.value
    ensures place.types.None? ==> r.types == []
  {
    Parsed(if place.types.Some? then place.types.value else [])
  }

  /** JavaScript truthiness of an optional string: present and non-empty. */
  predicate Truthy(s: Option<Str>)
  {
    s.Some? && s.value != []
  }

  /** A therapy row; `synonyms` is the parsed JSON list. */
  datatype Therapy = Therapy(slug: Str, name: Str, synonyms: seq<Str>)

  datatype State = State(name: Str, slug: Str)
  datatype City = City(name: Str)
  datatype Hood = Hood(name: Str)

  /** Links carry their confidence score. */
  type Links = map<LinkKey, real>

  /** The unique constraint on `Provider.slug`. */
  ghost predicate SlugsUnique(t: Providers)
  {
    forall a, b :: a in t && b in t && a != b ==> t[a].slug != t[b].slug
  }

  /** Some provider other than `id` holds `slug`; inserting or renaming `id`
      to `slug` would break the unique constraint. */
  predicate HeldByOther(t: Providers, slug: Str, id: PlaceId)
  {
    exists k :: k in t && k != id && t[k].slug == slug
  }

  /** The options the code passes to the npm `slugify` library. */
  datatype LibOptions =
    | Strict                      // { lower: true, strict: true }
    | StrictRemovingPunctuation   // the same plus remove: /[*+~.()'"!:@]/g

  /** The npm `slugify` library, left uninterpreted. */
  type LibSlugify = (Str, LibOptions) -> Str

  /** `m` after upserting every entry of `entries` in order, each entry
      replacing the whole value stored under its key. */
  function UpsertAll<K, V>(m: map<K, V>, entries: seq<(K, V)>): map<K, V>
  {
    if entries == [] then m
    else
      var last := entries[|entries| - 1];
      UpsertAll(m, entries[..|entries| - 1])[last.0 := last.1]
  }

  /** The keys `entries` mention. */
  function EntryKeys<K, V>(entries: seq<(K, V)>): (r: set<K>)
    ensures forall i :: 0 <= i < |entries| ==> entries[i].0 in r
    ensures forall k :: k in r ==> exists i :: 0 <= i < |entries| && entries[i].0 == k
  {
    set i | 0 <= i < |entries| :: entries[i].0
  }

  /** The value of the last entry with key `k`. */
  function LastValue<K(==), V>(entries: seq<(K, V)>, k: K): V
    requires k in EntryKeys(entries)
  {
    var last := entries[|entries| - 1];
    if last.0 == k then last.1
    else
      assert k in EntryKeys(entries[..|entries| - 1]) by {
        var i :| 0 <= i < |entries| && entries[i].0 == k;
        assert entries[..|entries| - 1][i].0 == k;
      }
      LastValue(entries[..|entries| - 1], k)
  }

  /** Upserting a list of entries: the keys are the old keys plus the
      entries' keys, a mentioned key holds its last entry's value, and every
      other key keeps its value. */
  lemma {:induction false} UpsertAllAt<K, V>(m: map<K, V>, entries: seq<(K, V)>)
    ensures UpsertAll(m, entries).Keys == m.Keys + EntryKeys(entries)
    ensures forall k :: k in EntryKeys(entries) ==> UpsertAll(m, entries)[k] == LastValue(entries, k)
    ensures forall k :: k in m && k !in EntryKeys(entries) ==> UpsertAll(m, entries)[k] == m[k]
  {
    if entries != [] {
      var init := entries[..|entries| - 1];
      UpsertAllAt(m, init);
      assert EntryKeys(entries) == EntryKeys(init) + {entries[|entries| - 1].0} by {
        assert forall i :: 0 <= i < |init| ==> init[i] == entries[i];
      }
    }
  }

  /** When every entry with key `k` carries `v`, the last one does too. */
  lemma {:induction false} LastValueUniform<K, V>(entries: seq<(K, V)>, k: K, v: V)
    requires k in EntryKeys(entries)
    requires forall i :: 0 <= i < |entries| && entries[i].0 == k ==> entries[i].1 == v
    ensures LastValue(entries, k) == v
  {
    var init := entries[..|entries| - 1];
    if entries[|entries| - 1].0 != k {
      assert forall i :: 0 <= i < |init| ==> init[i] == entries[i];
      LastValueUniform(init, k, v);
    }
  }

  /** The last value under `k` is the value of some entry with key `k`. */
  lemma {:induction false} LastValueIsEntry<K, V>(entries: seq<(K, V)>, k: K)
    requires k in EntryKeys(entries)
    ensures exists i :: 0 <= i < |entries| && entries[i] == (k, LastValue(entries, k))
  {
    var n := |entries| - 1;
    if entries[n].0 != k {
      var init := entries[..n];
      LastValueIsEntry(init, k);
      var i :| 0 <= i < |init| && init[i] == (k, LastValue(init, k));
      assert entries[i] == init[i];
    }
  }

  /** Re-running the same upserts leaves the table as the first run left it. */
  lemma UpsertAllIdempotent<K, V>(m: map<K, V>, entries: seq<(K, V)>)
    ensures UpsertAll(UpsertAll(m, entries), entries) == UpsertAll(m, entries)
  {
    var once := UpsertAll(m, entries);
    UpsertAllAt(m, entries);
    UpsertAllAt(once, entries);
  }

  /** `m` after a create-if-absent of every entry of `entries` in order: an
      entry is inserted only when no row has its key yet. */
  function InsertAbsent<K, V>(m: map<K, V>, entries: seq<(K, V)>): map<K, V>
  {
    if entries == [] then m
    else
      var prev := InsertAbsent(m, entries[..|entries| - 1]);
      var last := entries[|entries| - 1];
      if last.0 in prev then prev else prev[last.0 := last.1]
  }

  /** The value of the first entry with key `k`. */
  function FirstValue<K(==), V>(entries: seq<(K, V)>, k: K): V
    requires k in EntryKeys(entries)
  {
    if entries[0].0 == k then entries[0].1
    else
      assert k in EntryKeys(entries[1..]) by {
        var i :| 0 <= i < |entries| && entries[i].0 == k;
        assert entries[1..][i - 1].0 == k;
      }
      FirstValue(entries[1..], k)
  }

  /** `FirstValue` of a list with one more entry at the end. */
  lemma {:induction false} FirstValueSnoc<K, V>(entries: seq<(K, V)>, e: (K, V), k: K)
    requires k in EntryKeys(entries)
    ensures k in EntryKeys(entries + [e])
    ensures FirstValue(entries + [e], k) == FirstValue(entries, k)
  {
    var all := entries + [e];
    assert all[0] == entries[0];
    if entries[0].0 != k {
      assert k in EntryKeys(entries[1..]) by {
        var i :| 0 <= i < |entries| && entries[i].0 == k;
        assert entries[1..][i - 1].0 == k;
      }
      assert all[1..] == entries[1..] + [e];
      FirstValueSnoc(entries[1..], e, k);
    }
  }

  /** The first entry of a list whose other entries avoid key `k`. */
  lemma {:induction false} FirstValueLast<K, V>(entries: seq<(K, V)>, e: (K, V))
    requires e.0 !in EntryKeys(entries)
    ensures e.0 in EntryKeys(entries + [e])
    ensures FirstValue(entries + [e], e.0) == e.1
  {
    var all := entries + [e];
    assert all[|entries|].0 == e.0;
    if entries != [] {
      assert all[0] == entries[0];
      assert all[1..] == entries[1..] + [e];
      assert forall i :: 0 <= i < |entries| - 1 ==> entries[1..][i] == entries[i + 1];
      FirstValueLast(entries[1..], e);
    }
  }

  /** The keys of a list are those of all but its last entry, plus the last
      entry's key. */
  lemma EntryKeysSnoc<K, V>(entries: seq<(K, V)>)
    requires entries != []
    ensures EntryKeys(entries) == EntryKeys(entries[..|entries| - 1]) + {entries[|entries| - 1].0}
  {
    var init := entries[..|entries| - 1];
    assert forall i :: 0 <= i < |init| ==> init[i] == entries[i];
  }

  /** Create-if-absent at key `k`: `k` is present afterwards exactly when it
      was before or some entry has it, an old row is left exactly as it was,
      and a new key holds its first entry's value. */
  lemma {:induction false} InsertAbsentAt<K, V>(m: map<K, V>, entries: seq<(K, V)>, k: K)
    ensures k in InsertAbsent(m, entries) <==> k in m || k in EntryKeys(entries)
    ensures k in m ==> InsertAbsent(m, entries)[k] == m[k]
    ensures k !in m && k in EntryKeys(entries) ==> InsertAbsent(m, entries)[k] == FirstValue(entries, k)
  {
    if entries != [] {
      var init := entries[..|entries| - 1];
      var last := entries[|entries| - 1];
      InsertAbsentAt(m, init, k);
      EntryKeysSnoc(entries);
      if k !in m && k in EntryKeys(entries) {
        assert entries == init + [last];
        if k in EntryKeys(init) {
          FirstValueSnoc(init, last, k);
        } else {
          InsertAbsentAt(m, init, last.0);
          FirstValueLast(init, last);
        }
      }
    }
  }

  /** Re-running the same create-if-absent pass creates nothing. */
  lemma InsertAbsentIdempotent<K, V>(m: map<K, V>, entries: seq<(K, V)>)
    ensures InsertAbsent(InsertAbsent(m, entries), entries) == InsertAbsent(m, entries)
  {
    var once := InsertAbsent(m, entries);
    var twice := InsertAbsent(once, entries);
    forall k | k in twice
      ensures k in once && twice[k] == once[k]
    {
      InsertAbsentAt(m, entries, k);
      InsertAbsentAt(once, entries, k);
    }
    forall k | k in once
      ensures k in twice
    {
      InsertAbsentAt(once, entries, k);
    }
  }

  /** Upserting one more entry. */
  lemma UpsertAllSnoc<K, V>(m: map<K, V>, entries: seq<(K, V)>, e: (K, V))
    ensures UpsertAll(m, entries + [e]) == UpsertAll(m, entries)[e.0 := e.1]
  {
    assert (entries + [e])[..|entries|] == entries;
  }

  /** Create-if-absent of one more entry. */
  lemma InsertAbsentSnoc<K, V>(m: map<K, V>, entries: seq<(K, V)>, e: (K, V))
    ensures InsertAbsent(m, entries + [e])
      == if e.0 in InsertAbsent(m, entries) then InsertAbsent(m, entries)
         else InsertAbsent(m, entries)[e.0 := e.1]
  {
    assert (entries + [e])[..|entries|] == entries;
  }

  /** Upserting `a` then `b` is upserting `a + b`. */
  lemma {:induction false} UpsertAllAppend<K, V>(m: map<K, V>, a: seq<(K, V)>, b: seq<(K, V)>)
    ensures UpsertAll(m, a + b) == UpsertAll(UpsertAll(m, a), b)
  {
    if b == [] {
      assert a + b == a;
    } else {
      var init := b[..|b| - 1];
      UpsertAllAppend(m, a, init);
      assert a + b == (a + init) + [b[|b| - 1]];
      UpsertAllSnoc(m, a + init, b[|b| - 1]);
    }
  }

  /** Creating the absent entries of `a` then of `b` is doing so for `a + b`. */
  lemma {:induction false} InsertAbsentAppend<K, V>(m: map<K, V>, a: seq<(K, V)>, b: seq<(K, V)>)
    ensures InsertAbsent(m, a + b) == InsertAbsent(InsertAbsent(m, a), b)
  {
    if b == [] {
      assert a + b == a;
    } else {
      var init := b[..|b| - 1];
      InsertAbsentAppend(m, a, init);
      assert a + b == (a + init) + [b[|b| - 1]];
      InsertAbsentSnoc(m, a + init, b[|b| - 1]);
    }
  }

  /** When every entry with key `k` carries `v`, the first one does too. */
  lemma {:induction false} FirstValueUniform<K, V>(entries: seq<(K, V)>, k: K, v: V)
    requires k in EntryKeys(entries)
    requires forall i :: 0 <= i < |entries| && entries[i].0 == k ==> entries[i].1 == v
    ensures FirstValue(entries, k) == v
  {
    if entries[0].0 != k {
      var rest := entries[1..];
      assert k in EntryKeys(rest) by {
        var i :| 0 <= i < |entries| && entries[i].0 == k;
        assert rest[i - 1].0 == k;
      }
      assert forall i :: 0 <= i < |rest| ==> rest[i] == entries[i + 1];
      FirstValueUniform(rest, k, v);
    }
  }

  /** The neighbourhood rows a seeding script creates for city `ck` from the
      names `names`, each keyed by its slug under `slugOf`. */
  function HoodEntries(ck: CityKey, names: seq<Str>, slugOf: Str -> Str): (r: seq<(HoodKey, Hood)>)
    ensures |r| == |names|
    ensures forall j :: 0 <= j < |names| ==> r[j] == ((ck, slugOf(names[j])), Hood(names[j]))
  {
    seq(|names|, j requires 0 <= j < |names| => ((ck, slugOf(names[j])), Hood(names[j])))
  }

  /** The per-city neighbourhood loop of the seeding scripts: for each name,
      create the neighbourhood when no row has its (city, slug) and leave an
      existing row untouched. */
  method EnsureHoods(hoods: map<HoodKey, Hood>, ck: CityKey, names: seq<Str>, slugOf: Str -> Str)
    returns (hoods': map<HoodKey, Hood>)
    ensures hoods' == InsertAbsent(hoods, HoodEntries(ck, names, slugOf))
  {
    ghost var es := HoodEntries(ck, names, slugOf);
    hoods' := hoods;
    assert es[..0] == [];
    for j := 0 to |names|
      invariant hoods' == InsertAbsent(hoods, es[..j])
    {
      var hoodSlug := slugOf(names[j]);
      PrefixSnoc(es, j);
      InsertAbsentSnoc(hoods, es[..j], es[j]);
      if (ck, hoodSlug) !in hoods' {
        hoods' := hoods'[(ck, hoodSlug) := Hood(names[j])];
      }
    }
    assert es[..|names|] == es;
  }

  /** Applying `write` to the elements of `xs` in order, starting from the
      table `t`: the final table and the number of successful writes. */
  function FoldWrites<X>(t: Providers, xs: seq<X>, write: (Providers, X) -> (Providers, bool)): (r: (Providers, nat))
    ensures r.1 <= |xs|
  {
    if xs == [] then (t, 0)
    else
      var prev := FoldWrites(t, xs[..|xs| - 1], write);
      var last := write(prev.0, xs[|xs| - 1]);
      (last.0, prev.1 + if last.1 then 1 else 0)
  }

  /** One more element of `xs`. */
  lemma FoldWritesStep<X>(t: Providers, xs: seq<X>, write: (Providers, X) -> (Providers, bool), j: nat,
                          u: Providers, n: nat)
    requires j < |xs| && FoldWrites(t, xs[..j], write) == (u, n)
    ensures FoldWrites(t, xs[..j + 1], write).0 == write(u, xs[j]).0
    ensures FoldWrites(t, xs[..j + 1], write).1 == n + if write(u, xs[j]).1 then 1 else 0
  {
    assert xs[..j + 1][..j] == xs[..j];
  }

  /** A reflexive, transitive relation that every write keeps holds between
      the start and the end of the fold. */
  lemma {:induction false} FoldWritesKeeps<X>(t: Providers, xs: seq<X>, write: (Providers, X) -> (Providers, bool),
                                              rel: (Providers, Providers) -> bool)
    requires forall a :: rel(a, a)
    requires forall a, b, c :: rel(a, b) && rel(b, c) ==> rel(a, c)
    requires forall a, x :: rel(a, write(a, x).0)
    ensures rel(t, FoldWrites(t, xs, write).0)
  {
    if xs != [] {
      FoldWritesKeeps(t, xs[..|xs| - 1], write, rel);
    }
  }
}
