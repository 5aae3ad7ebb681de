/** scripts/migrate-photos.ts: copy each provider's photo URL into
    `googlePhotoRef` when the reference is missing and the URL is not
    already a local image path. */
module MigratePhotos {
  import opened Text
  import opened Store

  const ImagesPrefix: Str := "/images/"

  /** The query: a photo URL present and no photo reference. */
  predicate Selected(p: Provider)
  {
    p.photoUrl.Some? && p.googlePhotoRef.None?
  }

  /** The loop's own checks: a non-empty URL that does not start with the
      local image path `prefix` (`ImagesPrefix` in the script). */
  predicate Migratable(p: Provider, prefix: Str)
  {
    Truthy(p.photoUrl) && !StartsWith(p.photoUrl.value, prefix)
  }

  /** A row is migrated when the query selects it and its URL passes the
      loop's checks; after the copy it carries a reference, so the query no
      longer selects it. */
  lemma MigrationLeavesQuery(p: Provider, prefix: Str)
    requires Selected(p) && Migratable(p, prefix)
    ensures p.photoUrl.value != [] && !StartsWith(p.photoUrl.value, prefix)
    ensures !Selected(p.(googlePhotoRef := p.photoUrl))
  {
  }

  /** A URL that is empty or already under the local image path is never
      migrated. */
  lemma LocalOrEmptyNotMigratable(p: Provider, prefix: Str, rest: Str)
    requires p.photoUrl == Some([]) || p.photoUrl == Some(prefix + rest)
    ensures !Migratable(p, prefix)
  {
    if p.photoUrl == Some(prefix + rest) {
      assert (prefix + rest)[..|prefix|] == prefix;
    }
  }

  /** `findMany` with the query, over the table `t` read in row order `order`. */
  function Query(t: Providers, order: seq<PlaceId>): (r: seq<PlaceId>)
    ensures forall id :: id in r <==> id in order && id in t && Selected(t[id])
    ensures Distinct(order) ==> Distinct(r)
  {
    if order == [] then []
    else
      var id := order[|order| - 1];
      var init := order[..|order| - 1];
      assert forall x :: x in init ==> x in order;
      assert order == init + [id];
      var prev := Query(t, init);
      if id in t && Selected(t[id]) then prev + [id] else prev
  }

  /** The loop over the query result `ids`, each row read from the snapshot
      `snap` the query returned: the table afterwards and `updated`. */
  function Migrate(snap: Providers, ids: seq<PlaceId>, prefix: Str): (r: (Providers, nat))
    ensures r.0.Keys == snap.Keys
    ensures r.1 <= |ids|
  {
    if ids == [] then (snap, 0)
    else
      var prev := Migrate(snap, ids[..|ids| - 1], prefix);
      var id := ids[|ids| - 1];
      if id in snap && Migratable(snap[id], prefix) then
        (prev.0[id := prev.0[id].(googlePhotoRef := snap[id].photoUrl)], prev.1 + 1)
      else prev
  }

  lemma MigrateStep(snap: Providers, ids: seq<PlaceId>, prefix: Str, j: nat, u: Providers, n: nat)
    requires j < |ids| && Migrate(snap, ids[..j], prefix) == (u, n)
    ensures ids[j] in snap ==> ids[j] in u
    ensures Migrate(snap, ids[..j + 1], prefix)
      == if ids[j] in snap && Migratable(snap[ids[j]], prefix) then (u[ids[j] := u[ids[j]].(googlePhotoRef := snap[ids[j]].photoUrl)], n + 1)
         else (u, n)
  {
    var s := ids[..j + 1];
    PrefixOfPrefix(ids, j);
    assert s[..|s| - 1] == ids[..j] && s[|s| - 1] == ids[j];
  }

  /** `main`: query, then write each migratable row and count the writes. */
  method MigratePhotos(t: Providers, order: seq<PlaceId>) returns (t': Providers, updated: nat)
    ensures (t', updated) == Migrate(t, Query(t, order), ImagesPrefix)
  {
    var providers := Query(t, order);
    t', updated := t, 0;
    assert providers[..0] == [];
    for i := 0 to |providers|
      invariant Migrate(t, providers[..i], ImagesPrefix) == (t', updated)
    {
      var id := providers[i];
      MigrateStep(t, providers, ImagesPrefix, i, t', updated);
      if id !in t {
        continue;
      }
      var p := t[id];
      if !(p.photoUrl.Some? && p.photoUrl.value != []) {
        continue;
      }
      if StartsWith(p.photoUrl.value, ImagesPrefix) {
        continue;
      }
      t' := t'[id := t'[id].(googlePhotoRef := p.photoUrl)];
      updated := updated + 1;
    }
    assert providers[..|providers|] == providers;
  }

  /** The rows a run over distinct `ids` writes. */
  function Written(snap: Providers, ids: seq<PlaceId>, prefix: Str): set<PlaceId>
  {
    set id | id in ids && id in snap && Migratable(snap[id], prefix)
  }

  /** Over distinct ids, a written row gets its URL as reference and nothing
      else changes; any other row keeps its value. */
  lemma {:induction false} MigrateAt(snap: Providers, ids: seq<PlaceId>, prefix: Str, k: PlaceId)
    requires Distinct(ids) && k in snap
    ensures Migrate(snap, ids, prefix).0[k]
      == if k in ids && Migratable(snap[k], prefix) then snap[k].(googlePhotoRef := snap[k].photoUrl) else snap[k]
  {
    if ids != [] {
      var init := ids[..|ids| - 1];
      var id := ids[|ids| - 1];
      assert ids == init + [id];
      assert Distinct(init) by {
        forall i, j | 0 <= i < j < |init| ensures init[i] != init[j] {
          assert init[i] == ids[i] && init[j] == ids[j];
        }
      }
      MigrateAt(snap, init, prefix, k);
      if k == id {
        assert k !in init by {
          forall i | 0 <= i < |init| ensures init[i] != k {
            assert init[i] == ids[i];
          }
        }
      }
    }
  }

  /** Over distinct ids, `updated` is the number of rows written. */
  lemma {:induction false} MigrateCount(snap: Providers, ids: seq<PlaceId>, prefix: Str)
    requires Distinct(ids)
    ensures Migrate(snap, ids, prefix).1 == |Written(snap, ids, prefix)|
  {
    if ids == [] {
      assert Written(snap, ids, prefix) == {};
    } else {
      var init := ids[..|ids| - 1];
      var id := ids[|ids| - 1];
      assert ids == init + [id];
      assert Distinct(init) by {
        forall i, j | 0 <= i < j < |init| ensures init[i] != init[j] {
          assert init[i] == ids[i] && init[j] == ids[j];
        }
      }
      MigrateCount(snap, init, prefix);
      assert id !in init by {
        forall i | 0 <= i < |init| ensures init[i] != id {
          assert init[i] == ids[i];
        }
      }
      if id in snap && Migratable(snap[id], prefix) {
        assert Written(snap, ids, prefix) == Written(snap, init, prefix) + {id};
      } else {
        assert Written(snap, ids, prefix) == Written(snap, init, prefix);
      }
    }
  }

  /** Over a table read in a row order without repeats: exactly the selected,
      migratable rows get `googlePhotoRef := photoUrl`, every other row and
      field is unchanged, and `updated` counts those rows. */
  lemma MigratedRows(t: Providers, order: seq<PlaceId>, prefix: Str, k: PlaceId)
    requires Distinct(order) && k in t
    ensures var r := Migrate(t, Query(t, order), prefix);
      && r.0.Keys == t.Keys
      && r.0[k] == (if k in order && Selected(t[k]) && Migratable(t[k], prefix) then t[k].(googlePhotoRef := t[k].photoUrl) else t[k])
      && r.1 == |set id | id in order && id in t && Selected(t[id]) && Migratable(t[id], prefix)|
  {
    var q := Query(t, order);
    MigrateAt(t, q, prefix, k);
    MigrateCount(t, q, prefix);
    assert Written(t, q, prefix) == set id | id in order && id in t && Selected(t[id]) && Migratable(t[id], prefix);
  }

  /** Once migrated, a row carries a reference, so a second run writes
      nothing and leaves the table as it is. */
  lemma SecondRunWritesNothing(t: Providers, order: seq<PlaceId>, prefix: Str)
    requires Distinct(order)
    ensures var t1 := Migrate(t, Query(t, order), prefix).0;
      Migrate(t1, Query(t1, order), prefix) == (t1, 0)
  {
    var t1 := Migrate(t, Query(t, order), prefix).0;
    var q1 := Query(t1, order);
    forall id | id in q1
      ensures !Migratable(t1[id], prefix)
    {
      MigratedRows(t, order, prefix, id);
    }
    NoneMigratable(t1, q1, prefix);
  }

  /** When no listed row is migratable the run changes nothing. */
  lemma {:induction false} NoneMigratable(snap: Providers, ids: seq<PlaceId>, prefix: Str)
    requires forall id :: id in ids && id in snap ==> !Migratable(snap[id], prefix)
    ensures Migrate(snap, ids, prefix) == (snap, 0)
  {
    if ids != [] {
      var init := ids[..|ids| - 1];
      assert forall id :: id in init ==> id in ids;
      NoneMigratable(snap, init, prefix);
    }
  }
}
