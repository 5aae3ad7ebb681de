/** scripts/relink-providers.ts: re-score every (provider, therapy) pair from
    keywords and upsert a link for each pair with a positive score. */
module Relink {
  import opened Text
  import opened Store

  /** Words that mark a general mental-health professional. */
  const GeneralistKeywords: seq<Str> := [
    "psychologist", "psychotherapist", "counselor", "therapist", "mental health",
    "social worker", "lcsw", "lmft", "psychiatrist"]

  /** Therapies a generalist is presumed to offer. */
  const CoreTherapies: seq<Str> := [
    "Anxiety Therapy", "Depression Therapy", "Stress Management",
    "Individual Therapy", "Cognitive Behavioral Therapy"]

  /** Extra keywords, listed under the exact therapy name they belong to. */
  const SpecificKeywords: map<Str, seq<Str>> := map[
    "Marriage Counseling" := ["marriage", "couple", "relationship", "family", "marital", "divorce"],
    "Family Therapy" := ["family", "parenting", "child", "adolescent", "teen", "youth"],
    "Child Therapy" := ["child", "adolescent", "teen", "youth", "pediatric", "play therapy"],
    "Trauma Therapy" := ["trauma", "ptsd", "emdr", "abuse"],
    "Addiction Therapy" := ["addiction", "substance", "alcohol", "drug", "rehab", "recovery", "sobriety"],
    "Grief Counseling" := ["grief", "loss", "bereavement"],
    "Eating Disorder Therapy" := ["eating disorder", "anorexia", "bulimia", "binge"]]

  /** The searchable text of a provider: its lower-cased name, followed, when
      the stored source data parses, by a space and its lower-cased types. */
  function ProviderText(name: Str, source: SourceData): (r: Str)
    ensures StartsWith(r, LowerStr(name))
    ensures forall i :: 0 <= i < |r| ==> !IsUpper(r[i])
    ensures !source.Parsed? ==> r == LowerStr(name)
    ensures source.Parsed? ==> |r| == |name| + 1 + |Join(source.types, " ")| && r[|name|] == ' '
  {
    match source
    case Parsed(types) => LowerStr(name) + " " + LowerStr(Join(types, " "))
    case _ => LowerStr(name)
  }

  /** Every type of parsed source data occurs, lower-cased, in the text. */
  lemma ProviderTextHasTypes(name: Str, source: SourceData, i: nat)
    requires source.Parsed? && i < |source.types|
    ensures Contains(ProviderText(name, source), LowerStr(source.types[i]))
  {
    var types := source.types;
    JoinContainsParts(types, " ", i);
    ContainsLower(Join(types, " "), types[i]);
    ContainsInRight(LowerStr(name) + " ", LowerStr(Join(types, " ")), LowerStr(types[i]));
  }

  predicate IsGeneralist(text: Str)
  {
    MentionsAny(text, GeneralistKeywords)
  }

  /** The specific keywords of a therapy name, or none. */
  function SpecificFor(name: Str): seq<Str>
  {
    if name in SpecificKeywords then SpecificKeywords[name] else []
  }

  /** Direct keyword evidence: the text contains the therapy's name, one of
      its synonyms or one of its specific keywords, all lower-cased. */
  predicate HasKeywordMatch(text: Str, th: Therapy)
  {
    MentionsAny(text, [LowerStr(th.name)] + th.synonyms + SpecificFor(th.name))
  }

  /** The provider text grows as the script appends the place types to it;
      appending never takes generalist or keyword evidence away. */
  lemma EvidenceSurvivesAppend(text: Str, more: Str, th: Therapy)
    ensures IsGeneralist(text) ==> IsGeneralist(text + more)
    ensures HasKeywordMatch(text, th) ==> HasKeywordMatch(text + more, th)
  {
    if IsGeneralist(text) {
      var i :| 0 <= i < |GeneralistKeywords| && Contains(text, LowerStr(GeneralistKeywords[i]));
      ContainsInLeft(text, more, LowerStr(GeneralistKeywords[i]));
    }
    if HasKeywordMatch(text, th) {
      var kws := [LowerStr(th.name)] + th.synonyms + SpecificFor(th.name);
      var i :| 0 <= i < |kws| && Contains(text, LowerStr(kws[i]));
      ContainsInLeft(text, more, LowerStr(kws[i]));
    }
  }

  /** Keyword evidence spelled out: the lower-cased therapy name, a
      synonym (lower-cased) or a specific keyword (lower-cased) occurs in
      the text. */
  lemma KeywordMatchIff(text: Str, th: Therapy)
    ensures HasKeywordMatch(text, th) <==>
      (Contains(text, LowerStr(th.name))
       || (exists i :: 0 <= i < |th.synonyms| && Contains(text, LowerStr(th.synonyms[i])))
       || (exists i :: 0 <= i < |SpecificFor(th.name)| && Contains(text, LowerStr(SpecificFor(th.name)[i]))))
  {
    var kws := [LowerStr(th.name)] + th.synonyms + SpecificFor(th.name);
    LowerStrIdempotent(th.name);
    assert kws[0] == LowerStr(th.name);
    assert forall i :: 0 <= i < |th.synonyms| ==> kws[1 + i] == th.synonyms[i];
    assert forall i :: 0 <= i < |SpecificFor(th.name)| ==> kws[1 + |th.synonyms| + i] == SpecificFor(th.name)[i];
  }

  /** The confidence score of a (provider text, therapy) pair: 0.9 on
      keyword evidence, else 0.6 for a generalist and a core therapy, else 0. */
  function Score(text: Str, th: Therapy): (r: real)
    ensures r == 0.0 || r == 0.6 || r == 0.9
    ensures r == 0.9 <==> HasKeywordMatch(text, th)
    ensures r == 0.6 <==> !HasKeywordMatch(text, th) && IsGeneralist(text) && th.name in CoreTherapies
  {
    if HasKeywordMatch(text, th) then 0.9
    else if IsGeneralist(text) && th.name in CoreTherapies then 0.6
    else 0.0
  }

  /** A scoring function of (provider text, therapy); the pass uses `Score`. */
  type Scorer = (Str, Therapy) -> real

  /** The score `scorer` gives provider `p` for therapy `th`. */
  function PairScore(scorer: Scorer, p: Provider, th: Therapy): real
  {
    scorer(ProviderText(p.name, p.sourceData), th)
  }

  /** Therapies come from a table keyed by slug: one slug, one therapy. */
  predicate SlugsIdentify(ths: seq<Therapy>)
  {
    forall j, j' :: 0 <= j < |ths| && 0 <= j' < |ths| && ths[j].slug == ths[j'].slug ==> ths[j] == ths[j']
  }

  /** The (provider, therapy) keys the pass visits. */
  function Visited(order: seq<PlaceId>, ths: seq<Therapy>): set<LinkKey>
  {
    set i, j | 0 <= i < |order| && 0 <= j < |ths| :: (order[i], ths[j].slug)
  }

  /** Visiting provider `order[i]` after `order[..i]`. */
  lemma VisitedPrefix(order: seq<PlaceId>, i: nat, ths: seq<Therapy>)
    requires i < |order|
    ensures Visited(order[..i + 1], ths) == Visited(order[..i], ths) + Visited([order[i]], ths)
  {
    var o := order[..i + 1];
    var init := order[..i];
    forall k | k in Visited(o, ths) ensures k in Visited(init, ths) + Visited([order[i]], ths) {
      var i', j :| 0 <= i' < |o| && 0 <= j < |ths| && k == (o[i'], ths[j].slug);
      if i' < i { assert k == (init[i'], ths[j].slug); } else { assert k == ([order[i]][0], ths[j].slug); }
    }
    forall k | k in Visited(init, ths) ensures k in Visited(o, ths) {
      var i', j :| 0 <= i' < |init| && 0 <= j < |ths| && k == (init[i'], ths[j].slug);
      assert k == (o[i'], ths[j].slug);
    }
    forall k | k in Visited([order[i]], ths) ensures k in Visited(o, ths) {
      var i', j :| 0 <= i' < 1 && 0 <= j < |ths| && k == ([order[i]][i'], ths[j].slug);
      assert k == (o[i], ths[j].slug);
    }
  }

  /** Visiting therapy `ths[j]` of provider `id` after `ths[..j]`. */
  lemma VisitedRowPrefix(id: PlaceId, ths: seq<Therapy>, j: nat)
    requires j < |ths|
    ensures Visited([id], ths[..j + 1]) == Visited([id], ths[..j]) + {(id, ths[j].slug)}
  {
    var t := ths[..j + 1];
    var init := ths[..j];
    forall k | k in Visited([id], t) ensures k in Visited([id], init) + {(id, ths[j].slug)} {
      var i, j' :| 0 <= i < 1 && 0 <= j' < |t| && k == ([id][i], t[j'].slug);
      if j' < j { assert k == ([id][i], init[j'].slug); }
    }
    forall k | k in Visited([id], init) ensures k in Visited([id], t) {
      var i, j' :| 0 <= i < 1 && 0 <= j' < |init| && k == ([id][i], init[j'].slug);
      assert k == ([id][i], t[j'].slug);
    }
    assert (id, ths[j].slug) == ([id][0], t[j].slug);
  }

  /** The first therapy of `ths` with slug `slug`. */
  function TherapyBySlug(ths: seq<Therapy>, slug: Str): (r: Option<Therapy>)
    ensures r.Some? ==> r.value in ths && r.value.slug == slug
    ensures r.None? ==> forall j :: 0 <= j < |ths| ==> ths[j].slug != slug
  {
    if ths == [] then None
    else if ths[0].slug == slug then Some(ths[0])
    else TherapyBySlug(ths[1..], slug)
  }

  /** With slugs identifying therapies, the lookup of a listed therapy's slug finds it. */
  lemma TherapyBySlugAt(ths: seq<Therapy>, j: nat)
    requires j < |ths| && SlugsIdentify(ths)
    ensures TherapyBySlug(ths, ths[j].slug) == Some(ths[j])
  {
  }

  /** The score of link key `k`, 0 when its provider or therapy is unknown. */
  function KeyScore(scorer: Scorer, providers: Providers, ths: seq<Therapy>, k: LinkKey): real
  {
    match TherapyBySlug(ths, k.1)
    case Some(th) => if k.0 in providers then PairScore(scorer, providers[k.0], th) else 0.0
    case None => 0.0
  }

  /** The score of every link key, as a function. */
  function ScoreOf(scorer: Scorer, providers: Providers, ths: seq<Therapy>): (f: LinkKey -> real)
    ensures forall k :: f(k) == KeyScore(scorer, providers, ths, k)
  {
    k => KeyScore(scorer, providers, ths, k)
  }

  /** `links` after upserting every key of `keys` whose score is positive,
      with the score overwritten. */
  function UpsertPositive<K(!new)>(links: map<K, real>, keys: set<K>, score: K -> real): map<K, real>
  {
    map k | k in links.Keys + keys && (k in links || score(k) > 0.0) ::
      if k in keys && score(k) > 0.0 then score(k) else links[k]
  }

  /** Visiting one more key `c` adds (or rescores) its link when its score is
      positive, and changes nothing otherwise. */
  lemma UpsertPositiveStep<K(!new)>(links: map<K, real>, keys: set<K>, score: K -> real, c: K)
    ensures score(c) > 0.0 ==>
      UpsertPositive(links, keys + {c}, score) == UpsertPositive(links, keys, score)[c := score(c)]
    ensures score(c) <= 0.0 ==>
      UpsertPositive(links, keys + {c}, score) == UpsertPositive(links, keys, score)
  {
    var a := UpsertPositive(links, keys + {c}, score);
    var b := UpsertPositive(links, keys, score);
    if score(c) > 0.0 {
      assert a.Keys == b.Keys + {c};
      forall k | k in a.Keys ensures a[k] == b[c := score(c)][k] {
      }
    } else {
      assert a.Keys == b.Keys;
      forall k | k in a.Keys ensures a[k] == b[k] {
      }
    }
  }

  /** The links after upserting every visited key in `keys` whose score is
      positive, with the score overwritten. */
  function Upserted(scorer: Scorer, providers: Providers, ths: seq<Therapy>, keys: set<LinkKey>, links: Links): Links
  {
    UpsertPositive(links, keys, ScoreOf(scorer, providers, ths))
  }

  /** The link table after the pass: every visited pair with a positive score
      holds that score; every other link is left as it was. */
  function Relinked(scorer: Scorer, providers: Providers, order: seq<PlaceId>, ths: seq<Therapy>, links: Links): Links
  {
    Upserted(scorer, providers, ths, Visited(order, ths), links)
  }

  /** The number of positive-scoring therapies for one provider. */
  function RowCount(scorer: Scorer, p: Provider, ths: seq<Therapy>): nat
  {
    if ths == [] then 0
    else RowCount(scorer, p, ths[..|ths| - 1]) + (if PairScore(scorer, p, ths[|ths| - 1]) > 0.0 then 1 else 0)
  }

  /** The number of (provider, therapy) pairs with a positive score. */
  function PositivePairs(scorer: Scorer, providers: Providers, order: seq<PlaceId>, ths: seq<Therapy>): nat
    requires forall i :: 0 <= i < |order| ==> order[i] in providers
  {
    if order == [] then 0
    else
      var init := order[..|order| - 1];
      assert forall i :: 0 <= i < |init| ==> init[i] == order[i];
      PositivePairs(scorer, providers, init, ths) + RowCount(scorer, providers[order[|order| - 1]], ths)
  }

  /** One step of the inner loop: visiting therapy `j` of provider `id`
      upserts that pair's link when its score is positive, and counts it. */
  lemma RelinkRowStep(scorer: Scorer, providers: Providers, id: PlaceId, ths: seq<Therapy>, j: nat,
                      done: set<LinkKey>, links0: Links)
    requires id in providers && j < |ths| && SlugsIdentify(ths)
    ensures var score := PairScore(scorer, providers[id], ths[j]);
      var before := Upserted(scorer, providers, ths, done + Visited([id], ths[..j]), links0);
      Upserted(scorer, providers, ths, done + Visited([id], ths[..j + 1]), links0)
        == if score > 0.0 then before[(id, ths[j].slug) := score] else before
    ensures RowCount(scorer, providers[id], ths[..j + 1])
      == RowCount(scorer, providers[id], ths[..j]) + if PairScore(scorer, providers[id], ths[j]) > 0.0 then 1 else 0
  {
    var th := ths[j];
    TherapyBySlugAt(ths, j);
    assert KeyScore(scorer, providers, ths, (id, th.slug)) == PairScore(scorer, providers[id], th);
    VisitedRowPrefix(id, ths, j);
    assert done + Visited([id], ths[..j + 1]) == (done + Visited([id], ths[..j])) + {(id, th.slug)};
    UpsertPositiveStep(links0, done + Visited([id], ths[..j]), ScoreOf(scorer, providers, ths), (id, th.slug));
    assert ths[..j + 1][..j] == ths[..j];
  }

  /** The inner loop of `main`: score provider `id` against every therapy,
      upserting the link of each pair with a positive score. */
  method RelinkProvider(scorer: Scorer, providers: Providers, id: PlaceId, ths: seq<Therapy>, links: Links,
                        ghost done: set<LinkKey>, ghost links0: Links)
    returns (links': Links, count: nat)
    requires id in providers
    requires SlugsIdentify(ths)
    requires links == Upserted(scorer, providers, ths, done, links0)
    ensures links' == Upserted(scorer, providers, ths, done + Visited([id], ths), links0)
    ensures count == RowCount(scorer, providers[id], ths)
  {
    var p := providers[id];
    var text := ProviderText(p.name, p.sourceData);
    links', count := links, 0;
    for j := 0 to |ths|
      invariant links' == Upserted(scorer, providers, ths, done + Visited([id], ths[..j]), links0)
      invariant count == RowCount(scorer, p, ths[..j])
    {
      var th := ths[j];
      var score := scorer(text, th);
      RelinkRowStep(scorer, providers, id, ths, j, done, links0);
      if score > 0.0 {
        links' := links'[(id, th.slug) := score];
        count := count + 1;
      }
    }
    assert ths[..|ths|] == ths;
  }

  /** `main`: for each provider, for each therapy, upsert the link when the
      score is positive, counting the upserts in `validConnects`. */
  method RelinkProviders(scorer: Scorer, providers: Providers, order: seq<PlaceId>, ths: seq<Therapy>, links: Links)
    returns (links': Links, validConnects: nat)
    requires forall i :: 0 <= i < |order| ==> order[i] in providers
    requires SlugsIdentify(ths)
    ensures links' == Relinked(scorer, providers, order, ths, links)
    ensures validConnects == PositivePairs(scorer, providers, order, ths)
  {
    links', validConnects := links, 0;
    for i := 0 to |order|
      invariant links' == Upserted(scorer, providers, ths, Visited(order[..i], ths), links)
      invariant validConnects == PositivePairs(scorer, providers, order[..i], ths)
    {
      var count;
      links', count := RelinkProvider(scorer, providers, order[i], ths, links', Visited(order[..i], ths), links);
      validConnects := validConnects + count;
      assert order[..i + 1][..i] == order[..i];
      VisitedPrefix(order, i, ths);
    }
    assert order[..|order|] == order;
  }

  /** No link is deleted: the pass only adds links and rescores them, and
      with the keyword scorer every link it adds or rescores holds 0.6 or 0.9. */
  lemma RelinkNeverDeletes(providers: Providers, order: seq<PlaceId>, ths: seq<Therapy>, links: Links)
    ensures links.Keys <= Relinked(Score, providers, order, ths, links).Keys
    ensures var r := Relinked(Score, providers, order, ths, links);
      forall k :: k in r && (k !in links || r[k] != links[k]) ==> r[k] == 0.6 || r[k] == 0.9
  {
  }

  /** Each visited pair with a positive score holds exactly its score, and a
      visited pair scoring 0 keeps its earlier link and score. */
  lemma RelinkedAt(scorer: Scorer, providers: Providers, order: seq<PlaceId>, ths: seq<Therapy>, links: Links, i: nat, j: nat)
    requires i < |order| && j < |ths| && order[i] in providers
    requires SlugsIdentify(ths)
    ensures var r := Relinked(scorer, providers, order, ths, links);
      var k := (order[i], ths[j].slug);
      && (PairScore(scorer, providers[order[i]], ths[j]) > 0.0 ==> k in r && r[k] == PairScore(scorer, providers[order[i]], ths[j]))
      && (PairScore(scorer, providers[order[i]], ths[j]) <= 0.0 ==> (k in r <==> k in links) && (k in links ==> r[k] == links[k]))
  {
    assert (order[i], ths[j].slug) in Visited(order, ths);
    assert TherapyBySlug(ths, ths[j].slug) == Some(ths[j]);
  }

  /** Running the pass a second time over the same providers and therapies
      leaves the link table as the first run left it: one link per pair,
      holding the latest score. */
  lemma RelinkIdempotent(scorer: Scorer, providers: Providers, order: seq<PlaceId>, ths: seq<Therapy>, links: Links)
    ensures Relinked(scorer, providers, order, ths, Relinked(scorer, providers, order, ths, links))
      == Relinked(scorer, providers, order, ths, links)
  {
  }
}
