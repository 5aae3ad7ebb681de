# Therapist directory: ingestion scripts, sitemap and state filter

This project models the deterministic core of a directory of mental-health
therapists. Maintenance scripts fill a relational store of providers, therapies,
provider–therapy links, states, cities and neighbourhoods. The web site builds
its sitemap from those tables, and its state index filters states by search
text and region.

The store is modelled as value maps keyed by the unique keys the scripts rely
on:
- providers by Google place id;
- links by (place id, therapy slug);
- therapies by slug;
- states by abbreviation;
- cities by (state abbreviation, city slug);
- neighbourhoods by (city key, neighbourhood slug).

Each script's loop is a `method` that takes the tables and returns the new
tables and counters. It is proved equal to a specification function, and the
properties the scripts promise are lemmas about that function:
- slug uniqueness;
- what changes and what does not;
- last-writer-wins;
- create-if-absent;
- idempotence;
- counters.

Modules, one per source file:
- `Text`: lower-casing, substring search and joins.
- `Store`: rows, tables, upsert and create-if-absent folds.
- `LocalSlug`: the hand-written `slugify`.
- `CleanSlug`: the three-tier slug choice.
- `Relink`, `ScrapePlaces`, `FixSlugs`, `ScrapeNeighborhoods`, `AssignNeighborhoods`, `SeedExpansion`, `SeedNeighborhoods`, `Seed`, `MigratePhotos`: one per script.
- `Sitemap`: the route list.
- `StateFilter`: the regions table and the filter.

The npm `slugify` package is a foreign library. It is a parameter
`lib: (string, options) -> string` about which nothing is assumed. The
hand-written `slugify` of two of the scripts is modelled exactly.

A consequence the proofs make visible concerns the neighbourhood scraper
(scripts/scrape-neighborhoods.ts:72-130). Its upsert keyed on the slug fails
only when no row holds the slug and the place id already has a row.
Prisma's P2002 is a unique violation; in this model it is "a unique key is
already present". In that state the retry's `create` reuses the same place id,
so it always fails too. The retry can never write anything
(`ScrapeNeighborhoods.RetryNeverSucceeds`), and such a place is silently
dropped.

The save loop of scripts/scrape-places.ts (lines 196-203) catches and logs an
error for each place and moves on, with one exception. For a place without a
display name, `upsertProvider` throws on reading the name (line 104), and the
catch block throws again when it reads that same name to log it (line 201).
That second error leaves the loop, so the places after it are never saved
(`ScrapePlaces.NamelessPlaceAborts`).

## Model

| member | source | states |
|---|---|---|
| Relink.ProviderText | scripts/relink-providers.ts:56-66 | the text starts with the lower-cased name and has no upper-case letter; unparsable or absent source data leaves just the name; parsed data appends one space and the joined types |
| Relink.ProviderTextHasTypes | scripts/relink-providers.ts:58-64 | every type of parsed source data occurs, lower-cased, in the provider text |
| Relink.KeywordMatchIff | scripts/relink-providers.ts:76-79 | a keyword match holds iff the text contains the lower-cased therapy name, a lower-cased synonym, or a specific keyword listed under exactly that therapy name |
| Relink.EvidenceSurvivesAppend | scripts/relink-providers.ts:64-79 | appending the place types to the provider text never takes generalist or keyword evidence away |
| Relink.Score | scripts/relink-providers.ts:69-87 | the score is 0, 0.6 or 0.9; 0.9 iff a keyword matches; 0.6 iff no keyword matches, the provider is a generalist and the therapy is a core therapy |
| Relink.TherapyBySlug | scripts/relink-providers.ts:47 | finds a therapy carrying the slug, or reports that none does |
| Relink.RelinkProvider | scripts/relink-providers.ts:71-108 | one provider's pass upserts exactly the pairs of that provider with positive score and counts them |
| Relink.RelinkProviders | scripts/relink-providers.ts:46-109 | the whole pass produces the upsert-by-pair of every positive-score pair, and `validConnects` is the number of positive pairs |
| Relink.RelinkedAt | scripts/relink-providers.ts:89-105 | after the pass a positive pair holds its latest score; a zero pair keeps exactly its earlier link, or stays absent |
| Relink.RelinkNeverDeletes | scripts/relink-providers.ts:89-107 | no link is ever removed, and every link the pass writes holds 0.6 or 0.9 |
| Relink.RelinkIdempotent | scripts/relink-providers.ts:46-109 | re-running the pass on its own output changes nothing, so each pair keeps one link |
| ScrapePlaces.ConfidenceScore | scripts/scrape-places.ts:75-82 | the score lies in [0.5, 1.0]; it is 0.5 iff no attribute is present, 1.0 iff all are, and at least 0.7 with a valid place type |
| ScrapePlaces.ConfidenceMonotone | scripts/scrape-places.ts:76-81 | a place with at least the attributes of another never scores lower |
| Store.FirstPhoto | scripts/scrape-places.ts:107 | the photo url (and the identical photo reference of scripts/scrape-neighborhoods.ts line 69) is present iff the place has photos, and is then the first photo's name |
| ScrapePlaces.NewProvider | scripts/scrape-places.ts:123-138 | a created row carries the generated slug, the city and the state, and no neighbourhood, photo reference or description |
| ScrapePlaces.Refresh | scripts/scrape-places.ts:111-122 | an update leaves slug, city, state, neighbourhood, photo reference and description untouched |
| ScrapePlaces.RefreshStable | scripts/scrape-places.ts:109-139 | refreshing a row from the same place twice equals refreshing once, and refreshing a freshly created row changes nothing |
| ScrapePlaces.UpsertProvider | scripts/scrape-places.ts:103-140 | the upsert keys on place id: a missing name or location is an error; an existing row is refreshed; a new row gets the generated slug unless another row holds it; every other row is unchanged |
| ScrapePlaces.UpsertKeepsSlugsUnique | scripts/scrape-places.ts:103-140 | a successful upsert keeps provider slugs unique and never changes an existing row's slug |
| ScrapePlaces.UpsertProviderRerun | scripts/scrape-places.ts:103-140 | upserting the same place again returns the same table |
| ScrapePlaces.OrKeep | scripts/scrape-places.ts:111-121 | an update field whose new value is undefined keeps the stored value; a present one replaces it |
| ScrapePlaces.PlaceText | scripts/scrape-places.ts:144 | the place text equals the provider text that the relink pass builds from the stored source data |
| ScrapePlaces.PlaceMatchIsKeywordMatch | scripts/scrape-places.ts:146-150 | a therapy linked at ingestion would also score 0.9 in the relink pass |
| ScrapePlaces.PlaceLinks | scripts/scrape-places.ts:151-156 | every matched pair holds the place's confidence, every other link is unchanged, and no link is removed |
| ScrapePlaces.LinkProviderToTherapies | scripts/scrape-places.ts:143-159 | the loop upserts exactly the pairs whose lower-cased name or synonym occurs in the place text, all with the place-level confidence |
| ScrapePlaces.FirstOccurrences | scripts/scrape-places.ts:181-187 | the saving order lists each collected id once, in first-insertion order of the `Map` |
| ScrapePlaces.CollectBatch | scripts/scrape-places.ts:186-187 | adding one query's results extends the id order and the by-id map as one upsert per place |
| ScrapePlaces.CollectPlaces | scripts/scrape-places.ts:181-192 | the collected map is the upsert of every result of every query, and the order lists each id once |
| ScrapePlaces.CollectedLatest | scripts/scrape-places.ts:187 | every collected id maps to its last result across all queries and appears in the saving order |
| ScrapePlaces.SaveOne | scripts/scrape-places.ts:197-202 | for a named place: a failed upsert, which the catch block logs, leaves both tables unchanged; a successful one stores the upserted providers and adds the place's matched links at its confidence, keeping every other link |
| ScrapePlaces.SavePlaces | scripts/scrape-places.ts:196-203 | saving follows the collected order, one place at a time, each seeing the writes of the places before it; a nameless place aborts the run with the tables reached so far |
| ScrapePlaces.SaveAll | scripts/scrape-places.ts:196-203 | a run that is not aborted has seen only named places |
| ScrapePlaces.NamelessPlaceAborts | scripts/scrape-places.ts:196-203 | at a place without a name the error thrown again by the catch block ends the run: the outcome is the one reached at that place, and nothing after it is saved |
| ScrapePlaces.SaveAllInvariants | scripts/scrape-places.ts:196-203 | saving keeps slugs unique, removes no provider or link, and adds only providers of the collected places |
| CleanSlug.Last4 | scripts/scrape-places.ts:100 | the suffix is the last four characters of the place id, or the whole id when it is shorter |
| CleanSlug.GenerateCleanSlug | scripts/scrape-places.ts:85-101 | the bare name slug when no other row holds it; otherwise the name-city slug under the same rule; otherwise name-city plus the id suffix |
| CleanSlug.GeneratedSlugIsFreeOrLastResort | scripts/scrape-places.ts:88-100 | the chosen slug is one of the three candidates and is free for this place id unless it is the unchecked last resort |
| CleanSlug.GenerateCleanSlugReadsOnlyHolders | scripts/scrape-places.ts:85-101 | the choice depends only on which slugs other rows hold, so it reads the table and writes nothing |
| CleanSlug.ThreeTierScenario | scripts/scrape-places.ts:88-100 | on an empty table the bare slug is chosen; with it taken, the city slug; with both taken, the city slug plus the id suffix |
| CleanSlug.HolderKeepsNameSlug | scripts/fix-slugs.ts:11-17 | a row already holding its bare name slug is offered that same slug again |
| CleanSlug.RenameKeepsSlugsUnique | scripts/fix-slugs.ts:61-64 | renaming a row to a slug no other row holds keeps slugs unique |
| CleanSlug.InsertKeepsSlugsUnique | scripts/scrape-places.ts:123-138 | inserting a row whose slug no other row holds keeps slugs unique |
| FixSlugs.RepairOne | scripts/fix-slugs.ts:40-68 | a row without a known city is left alone; a row whose proposal differs and is free gets only its slug replaced; otherwise nothing changes |
| FixSlugs.RepairSlugs | scripts/fix-slugs.ts:29-73 | the repair loop renames rows one at a time in the given order, and `updated` counts the successful renames |
| FixSlugs.RepairAll | scripts/fix-slugs.ts:29-73 | the repair deletes and adds no row and counts at most one update per provider visited |
| FixSlugs.RepairChangesOnlySlugs | scripts/fix-slugs.ts:40-64 | only the slug field ever changes, and rows outside the run are untouched |
| FixSlugs.RepairKeepsSlugsUnique | scripts/fix-slugs.ts:59-68 | the repair keeps provider slugs unique; a clash is refused, not written |
| FixSlugs.HolderNeverRenamed | scripts/fix-slugs.ts:15-58 | a provider already holding its bare name slug ends the run unchanged |
| FixSlugs.UpdatedCountsChangedRows | scripts/fix-slugs.ts:65 | `updated` equals the number of rows whose slug changed |
| FixSlugs.SequentialScenario | scripts/fix-slugs.ts:37-70 | two same-named providers in one city: the first takes the bare slug, the second sees it and takes the city slug, and both count |
| LocalSlug.Hyphenate | scripts/scrape-neighborhoods.ts:16 | no character other than `-` is introduced |
| LocalSlug.HyphenateRemovesSpaces | scripts/scrape-neighborhoods.ts:16 | no white space remains after the stage |
| LocalSlug.HyphenateFixesSpaceless | scripts/scrape-neighborhoods.ts:16 | a string without white space passes the stage unchanged |
| LocalSlug.RemoveNonWord | scripts/scrape-neighborhoods.ts:17 | only ASCII word characters and hyphens remain, no upper-case letter is introduced, and clean input passes unchanged |
| LocalSlug.CollapseHyphens | scripts/scrape-neighborhoods.ts:18 | no two hyphens remain adjacent; the alphabet and a non-hyphen start are kept; input without a double hyphen passes unchanged |
| LocalSlug.TrimStart | scripts/scrape-neighborhoods.ts:19 | the result is a suffix of the input that does not start with a hyphen |
| LocalSlug.TrimEnd | scripts/scrape-neighborhoods.ts:20 | the result is a prefix of the input that does not end with a hyphen |
| LocalSlug.Slugify | scripts/scrape-neighborhoods.ts:14-21 | the output uses only `[a-z0-9_-]`, has no `--`, and neither starts nor ends with `-` |
| LocalSlug.SlugifyFixesCleanSlugs | scripts/seed-expansion.ts:56-63 | a string already in slug form is returned unchanged |
| LocalSlug.SlugifyIdempotent | scripts/seed-expansion.ts:56-63 | slugifying a slug returns it unchanged |
| ScrapeNeighborhoods.HoodCount | scripts/scrape-neighborhoods.ts:27-29 | the count is zero exactly when no provider is in the neighbourhood |
| ScrapeNeighborhoods.KeptIff | scripts/scrape-neighborhoods.ts:59-63 | a place is kept iff it has a non-empty name in which neither "Starbucks" nor "Grocery" occurs (case-sensitive) |
| ScrapeNeighborhoods.PlaceSlug | scripts/scrape-neighborhoods.ts:65 | the first slug tried uses only `[a-z0-9_-]`, with no `--` and no hyphen at either end |
| ScrapeNeighborhoods.RetrySlug | scripts/scrape-neighborhoods.ts:104 | the retry slug uses only `[a-z0-9_-]`, with no `--` and no hyphen at either end |
| ScrapeNeighborhoods.ScrapeAll | scripts/scrape-neighborhoods.ts:161-166 | neighbourhoods whose city or state is missing are skipped, so a run over only such neighbourhoods changes nothing |
| ScrapeNeighborhoods.NewRow | scripts/scrape-neighborhoods.ts:80-98 | a created row carries the slug, the neighbourhood with its city and state, and the photo reference as both photo url and photo ref |
| ScrapeNeighborhoods.AssignHolder | scripts/scrape-neighborhoods.ts:74-79 | the update branch sets only the holder's neighbourhood, and its photo reference when a non-empty one exists; no row is added or removed |
| ScrapeNeighborhoods.Create | scripts/scrape-neighborhoods.ts:107-127 | a create succeeds iff neither the place id nor the slug is taken, and then adds exactly the new row |
| ScrapeNeighborhoods.Upsert | scripts/scrape-neighborhoods.ts:73-99 | a held slug updates its holder; otherwise a create is attempted; the upsert fails iff the slug is free and the place id already has a row |
| ScrapeNeighborhoods.RetryNeverSucceeds | scripts/scrape-neighborhoods.ts:101-130 | whenever the upsert fails, the retry create fails too, whatever its slug |
| ScrapeNeighborhoods.WritePlace | scripts/scrape-neighborhoods.ts:59-131 | a place without a name, or naming Starbucks or Grocery, is skipped; a place that is not written leaves the table unchanged |
| ScrapeNeighborhoods.WritePlaces | scripts/scrape-neighborhoods.ts:58-132 | a page writes at most as many places as it has |
| ScrapeNeighborhoods.Run | scripts/scrape-neighborhoods.ts:42-143 | the count of writes never falls; at most one request per page is made, and at least one if any page exists |
| ScrapeNeighborhoods.RunStopRule | scripts/scrape-neighborhoods.ts:134-143 | when the loop stops before the last page, the last page it requested failed, had no next-page token, or brought the written total to 60 or more |
| ScrapeNeighborhoods.Scrape | scripts/scrape-neighborhoods.ts:27-34 | a neighbourhood with 50 or more providers is skipped with no request and no write |
| ScrapeNeighborhoods.WritePage | scripts/scrape-neighborhoods.ts:55-132 | one page's places are written in order, and the count is the number of successful writes |
| ScrapeNeighborhoods.ScrapeNeighborhood | scripts/scrape-neighborhoods.ts:23-144 | the do-while paging loop computes exactly `Scrape`: table, `totalFetched` and requests made |
| ScrapeNeighborhoods.ScrapeAllNeighborhoods | scripts/scrape-neighborhoods.ts:161-166 | every neighbourhood is scraped in turn unless its city or state is missing |
| ScrapeNeighborhoods.WritePlaceKeeps | scripts/scrape-neighborhoods.ts:72-130 | one write keeps provider slugs unique |
| ScrapeNeighborhoods.ScrapeKeepsSlugsUnique | scripts/scrape-neighborhoods.ts:23-144 | a whole scrape keeps provider slugs unique |
| ScrapeNeighborhoods.WritePlaceAssigns | scripts/scrape-neighborhoods.ts:73-127 | one write changes an existing row only in its neighbourhood, set to this one, and its photo ref; a new row belongs to this neighbourhood |
| ScrapeNeighborhoods.ScrapeAssigns | scripts/scrape-neighborhoods.ts:23-144 | the same holds for a whole scrape of one neighbourhood |
| ScrapeNeighborhoods.ScrapeAllKeepsSlugsUnique | scripts/scrape-neighborhoods.ts:161-166 | the run over all neighbourhoods keeps provider slugs unique |
| ScrapeNeighborhoods.ScrapeAllKeepsRows | scripts/scrape-neighborhoods.ts:161-166 | the run deletes no provider and changes existing rows only in neighbourhood and photo ref |
| ScrapeNeighborhoods.RunOvershootsByLessThanOnePage | scripts/scrape-neighborhoods.ts:143 | with at most `n` places per page, a scrape writes fewer than 60 + `n` places |
| AssignNeighborhoods.SetHood | scripts/assign-neighborhoods.ts:39-42 | assigning a set of providers keeps every row and key |
| AssignNeighborhoods.AssignHood | scripts/assign-neighborhoods.ts:26-46 | one neighbourhood's loop sets the neighbourhood of exactly the same-city providers whose address contains the name case-insensitively, and counts them |
| AssignNeighborhoods.MatchCountIsMatched | scripts/assign-neighborhoods.ts:44 | over distinct rows, the count is the number of providers assigned |
| AssignNeighborhoods.AssignAll | scripts/assign-neighborhoods.ts:19-47 | the nested loops keep every provider row |
| AssignNeighborhoods.AssignNeighborhoods | scripts/assign-neighborhoods.ts:13-49 | the nested loops compute `AssignAll`, and `matches` is the total number of updates |
| AssignNeighborhoods.LastMatch | scripts/assign-neighborhoods.ts:19-42 | the last matching neighbourhood in iteration order is a real match; when there is none, no neighbourhood matches |
| AssignNeighborhoods.AssignAllAt | scripts/assign-neighborhoods.ts:19-46 | each provider ends with the last neighbourhood it matches, or with its old row if it matches none |
| AssignNeighborhoods.AssignedInOwnCity | scripts/assign-neighborhoods.ts:26-46 | a changed row differs only in its neighbourhood, which lies in its own city and whose name occurs in its non-empty address; an unmatched row is unchanged |
| Store.EnsureHoods | scripts/seed-expansion.ts:106-122 | each listed neighbourhood is created under this city when its slug is absent, and existing rows are untouched |
| SeedExpansion.SeedExpansion | scripts/seed-expansion.ts:65-126 | the loop creates states, cities and neighbourhoods only where their keys are absent, in input order |
| SeedExpansion.NewStateNamed | scripts/seed-expansion.ts:74-79 | a new state with a mapped abbreviation carries the mapped full name, an unmapped one the abbreviation itself, and its slug is the slug of that name |
| SeedExpansion.StateCreatedOnlyWhenAbsent | scripts/seed-expansion.ts:70-82 | an existing state is untouched; a missing state that is referenced is created; nothing else is added |
| SeedExpansion.CityCreatedOnlyWhenAbsent | scripts/seed-expansion.ts:88-101 | an existing city is untouched; a missing city is created from its first entry; unlisted keys stay absent |
| SeedExpansion.HoodsExistPerCity | scripts/seed-expansion.ts:106-121 | every listed neighbourhood exists afterwards under its own city; the same name in two cities gives two rows; existing rows are kept |
| SeedExpansion.ExpansionIdempotent | scripts/seed-expansion.ts:68-123 | a second run creates nothing |
| SeedNeighborhoods.FindBySlug | scripts/seed-neighborhoods.ts:34-36 | the lookup finds the first city carrying the slug, whatever its state, or reports none |
| SeedNeighborhoods.FindCity | scripts/seed-neighborhoods.ts:34-44 | a direct hit wins; otherwise `new-york-city` falls back to `new-york` and back; any other slug finds nothing |
| SeedNeighborhoods.FindCityFinds | scripts/seed-neighborhoods.ts:34-44 | a found city carries the slug or its New York alternative; nothing is found iff no candidate slug exists |
| SeedNeighborhoods.SeedNeighborhoods | scripts/seed-neighborhoods.ts:22-78 | the loop creates the absent neighbourhoods of every found city and never changes an existing one; the final count is the table size |
| SeedNeighborhoods.SeedEntriesFrom | scripts/seed-neighborhoods.ts:46-49 | every entry written belongs to a city that was found |
| SeedNeighborhoods.SeededHoods | scripts/seed-neighborhoods.ts:53-70 | existing rows are kept, new rows belong to found cities, and every listed neighbourhood of a found city exists afterwards |
| SeedNeighborhoods.NothingFoundNothingWritten | scripts/seed-neighborhoods.ts:46-49 | when no city is found, the table is unchanged |
| SeedNeighborhoods.SeedNeighborhoodsIdempotent | scripts/seed-neighborhoods.ts:53-70 | re-running adds nothing |
| Seed.SeedTherapies | scripts/seed.ts:72-78 | the therapy loop upserts every therapy on its slug |
| Seed.SeedCities | scripts/seed.ts:93-101 | one state's city loop upserts every city and counts every upsert |
| Seed.SeedAll | scripts/seed.ts:67-106 | all three tables are the upserts of their entries, and `totalCities` is the total length of the city lists |
| Seed.CityCountIsUpserts | scripts/seed.ts:83-100 | `totalCities` equals the number of city upserts, whether they create or update |
| Seed.CityCount | scripts/seed.ts:83-100 | `totalCities` is zero exactly when no state lists a city |
| Seed.TherapiesSeeded | scripts/seed.ts:72-78 | a listed therapy ends with its slug, name and synonyms from the list; an unlisted one is unchanged |
| Seed.StatesSeeded | scripts/seed.ts:85-91 | a listed state ends with a listed name and that name's slug; an unlisted state is unchanged |
| Seed.SameNameTwoStates | scripts/seed.ts:94-99 | the same city name in two states gives two separate rows |
| Seed.SeedIdempotent | scripts/seed.ts:72-102 | re-running the seed leaves all three tables unchanged |
| MigratePhotos.Query | scripts/migrate-photos.ts:14-19 | the query returns exactly the rows with a photo url and no photo ref, without repeats |
| MigratePhotos.MigrationLeavesQuery | scripts/migrate-photos.ts:14-33 | a migrated row has a non-empty URL outside `/images/`, and after the copy the query no longer selects it |
| MigratePhotos.LocalOrEmptyNotMigratable | scripts/migrate-photos.ts:25-28 | an empty URL or one under the local image path is never migrated |
| MigratePhotos.Migrate | scripts/migrate-photos.ts:24-37 | the loop keeps every row and writes at most one row per queried id |
| MigratePhotos.MigratePhotos | scripts/migrate-photos.ts:10-41 | the loop migrates the queried rows in order, and `updated` counts the writes |
| MigratePhotos.MigrateAt | scripts/migrate-photos.ts:25-35 | a qualifying row gets photo ref := photo url with every other field unchanged; any other row is unchanged |
| MigratePhotos.MigrateCount | scripts/migrate-photos.ts:36 | `updated` equals the number of rows written |
| MigratePhotos.MigratedRows | scripts/migrate-photos.ts:14-36 | per row: written iff it has a non-empty photo url not starting with `/images/` and no photo ref; `updated` counts exactly those rows |
| MigratePhotos.SecondRunWritesNothing | scripts/migrate-photos.ts:14-36 | a second run writes nothing |
| MigratePhotos.NoneMigratable | scripts/migrate-photos.ts:25-28 | rows that all fail the checks leave the table and the count unchanged |
| Sitemap.PushCityRoutes | src/app/sitemap.ts:51-78 | one city pushes its page, its neighbourhood pages, then one page per therapy |
| Sitemap.PushStateRoutes | src/app/sitemap.ts:39-79 | one state pushes its page, then each of its cities' routes |
| Sitemap.BuildSitemap | src/app/sitemap.ts:6-82 | the pushes build exactly the specified route list |
| Sitemap.CitiesRoutesLength | src/app/sitemap.ts:51-78 | a state's cities give the sum over cities of 1 + H + T routes |
| Sitemap.StatesRoutesLength | src/app/sitemap.ts:39-79 | the states give the sum over states of 1 plus their cities' routes |
| Sitemap.SitemapLength | src/app/sitemap.ts:22-79 | the route count is 3 + T + the sum over states of (1 + the sum over cities of (1 + H + T)) |
| Sitemap.SitemapOpening | src/app/sitemap.ts:22-36 | home, /therapists and /therapy come first, then one hub route per therapy, then the state routes |
| Sitemap.SitemapRoutes | src/app/sitemap.ts:22-36 | the sitemap holds at least the three static pages and one hub per therapy, and opens with the home page at priority 1.0 |
| Sitemap.CityRoutesShape | src/app/sitemap.ts:52-77 | every route of a city lies under that city's path |
| Sitemap.CitiesRoutesShape | src/app/sitemap.ts:51-78 | every city route lies under the state's path |
| Sitemap.StateRoutesShape | src/app/sitemap.ts:40-48 | a state's routes lie under `/therapists/` + the lower-cased abbreviation |
| Sitemap.StatesRoutesShape | src/app/sitemap.ts:39-79 | every state, city and neighbourhood route lies under the base URL + `/therapists/` |
| Sitemap.SitemapShape | src/app/sitemap.ts:4-79 | every URL starts with the base URL; only home has priority 1.0 and daily frequency; exactly the hubs have 0.8; every priority is 1.0, 0.9, 0.8 or 0.7 |
| StateFilter.Filter | src/app/therapists/TherapistsPageClient.tsx:45-54 | a state is kept iff its name or abbreviation contains the query case-insensitively and the region is `all` or lists its abbreviation; the result is no longer than the input |
| StateFilter.FilterAppend | src/app/therapists/TherapistsPageClient.tsx:46 | filtering distributes over concatenation, so the result is an order-preserving subsequence |
| StateFilter.FilterOne | src/app/therapists/TherapistsPageClient.tsx:46-53 | a single state is kept iff it passes both tests |
| StateFilter.EmptyQueryAllKeepsAll | src/app/therapists/TherapistsPageClient.tsx:47-51 | an empty query with region `all` keeps every state in order |
| StateFilter.UnknownRegionKeepsNone | src/app/therapists/TherapistsPageClient.tsx:50-51 | a region key that is neither `all` nor in the table keeps no state |
| StateFilter.SearchIgnoresCase | src/app/therapists/TherapistsPageClient.tsx:47-48 | the search result is the same for a query and its lower-cased form |
| StateFilter.SearchFindsOwnFields | src/app/therapists/TherapistsPageClient.tsx:47-48 | an empty query, the state's full name or its abbreviation each finds the state |
| StateFilter.OneRegionPerState | src/app/therapists/TherapistsPageClient.tsx:38-51 | a state matches at most one region other than `all` |
| StateFilter.RegionSizes | src/app/therapists/TherapistsPageClient.tsx:38-43 | the regions list 9, 12, 16 and 13 abbreviations, 50 in total |
| StateFilter.NortheastHasNoRepeats | src/app/therapists/TherapistsPageClient.tsx:39 | the northeast list has no repeated abbreviation |
| StateFilter.MidwestHasNoRepeats | src/app/therapists/TherapistsPageClient.tsx:40 | the midwest list has no repeated abbreviation |
| StateFilter.SouthHasNoRepeats | src/app/therapists/TherapistsPageClient.tsx:41 | the south list has no repeated abbreviation |
| StateFilter.WestHasNoRepeats | src/app/therapists/TherapistsPageClient.tsx:42 | the west list has no repeated abbreviation |
| StateFilter.NortheastMidwestDisjoint | src/app/therapists/TherapistsPageClient.tsx:39-40 | no abbreviation is in both the northeast and the midwest |
| StateFilter.NortheastSouthDisjoint | src/app/therapists/TherapistsPageClient.tsx:39-41 | no abbreviation is in both the northeast and the south |
| StateFilter.NortheastWestDisjoint | src/app/therapists/TherapistsPageClient.tsx:39-42 | no abbreviation is in both the northeast and the west |
| StateFilter.MidwestSouthDisjoint | src/app/therapists/TherapistsPageClient.tsx:40-41 | no abbreviation is in both the midwest and the south |
| StateFilter.MidwestWestDisjoint | src/app/therapists/TherapistsPageClient.tsx:40-42 | no abbreviation is in both the midwest and the west |
| StateFilter.SouthWestDisjoint | src/app/therapists/TherapistsPageClient.tsx:41-42 | no abbreviation is in both the south and the west |

## Left out

- Database, network and process I/O are not modelled:
  - Prisma calls become map lookups and updates;
  - Google Places responses are input pages or lists of places;
  - `searchPlaces` (scripts/scrape-places.ts:54-73) and the request headers are not modelled;
  - `setTimeout` delays, `console` output, `process.stdout` progress dots, `process.exit` and the command-line parsing in scrape-places `main` are not modelled.
- The row each script reads is a given input, and so is the order of `findMany`/`findFirst` results (an input sequence of keys or rows). The same holds for the literal seed lists (`NEW_CITIES`, `NEIGHBORHOODS`, `therapies`, `citiesData`) and the search queries.
- Surrogate ids are not modelled. Provider, state, city and neighbourhood ids are replaced by the natural unique keys. Place ids stand in for provider ids, and therapy slugs for therapy ids.
- `JSON.stringify`/`JSON.parse` of `sourceData` and synonyms are not modelled. Parsed synonyms are a list. Source data is absent, malformed, or parsed to its `types` list.
- A `types` field of the wrong JSON type, which would make `join` throw, counts as malformed.
- The npm `slugify` package is not interpreted. Slugs it produces are related only by equality of inputs. No property of its output, such as alphabet, uniqueness or idempotence, is assumed or proved.
- Lower-casing covers ASCII letters only. JavaScript's `toLowerCase` also maps non-ASCII upper-case letters. For the local `slugify` this matters only for the few letters that lower-case to ASCII, such as the Kelvin sign and dotted capital I. Every other non-ASCII letter is removed by the next stage anyway.
- `ScrapePlaces.ConfidenceScore`: scores are exact decimals. The binary floating-point sums (0.5 + 0.2 + 0.1 + … is not exactly 0.9 in IEEE doubles) are not modelled.
- `Sitemap.BuildSitemap`: `lastModified: new Date()` is not modelled.
- Fields read by none of the modelled code (counts on the state rows, enrichment text, photo downloads) are not modelled.
- The SQLite `contains` pre-filter in scripts/assign-neighborhoods.ts:26-33 is not modelled as a separate step. Prisma turns it into `LIKE`, which folds the case of ASCII letters only, while the `toLowerCase` check at line 38 folds all of Unicode. Neither check implies the other. A row is assigned only when it passes both, which for ASCII-only folding is the single case-insensitive test `Text.LowerStr` gives. The loop runs over every row of the city with that combined test.
- `AssignNeighborhoods.AssignHood`: the combined test differs from the source where lower-casing is context-dependent or changes length. An example is "İ", which `toLowerCase` turns into two characters. Neither `LIKE` nor the model reproduces that, so an address and a neighbourhood name that match only through such a letter are not modelled as the source treats them.
- A JavaScript object lookup with an inherited key is not modelled: `regions["constructor"]` in the state filter, `stateNames["toString"]` in seed-expansion, `SPECIFIC_THERAPY_KEYWORDS[tName]` in relink-providers (scripts/relink-providers.ts:77), where a therapy named "constructor" would make the spread throw and abort the relink. Region keys come from the fixed selector, state abbreviations from the fixed city list, and therapy names from the seeded therapy list.
- The relink loops take the scorer as a parameter and are proved for any scorer. The script's scorer is the keyword scorer `Relink.Score`, whose values and conditions are proved on their own, and `Relink.RelinkNeverDeletes` is stated for it.
- The final `count()` queries and the distribution table that scripts print after a run are not modelled. Only seed-neighborhoods' total is kept, as `count`.
- Uniqueness of state slugs across abbreviations is not modelled. No modelled code reads a state by slug.
- The LLM content generation, photo downloading, diagnostics scripts and page rendering are outside this model.
