/** The local reranker: scores from term coverage and evidence structure, and the resulting order. */
module Rerank {
  import opened Prelude
  import opened IdentifierCuts
  import opened IdentifierTerms
  import opened HitOrder

  const CONTENT_MATCH_WEIGHT: real := 0.40
  const ENTITY_MATCH_WEIGHT: real := 0.25
  const FACT_MATCH_WEIGHT: real := 0.20
  const PATH_MATCH_WEIGHT: real := 0.05
  const PER_EXTRA_SOURCE_BONUS: real := 0.05
  const GRAPH_FACT_BONUS: real := 0.08
  const SOURCE_SPAN_BONUS: real := 0.03
  const CODE_ARTIFACT_BONUS: real := 0.04

  // ----- Terms

  function TermsOf(u: Unicode, text: string): set<string> {
    LongEnough(TextTerms(u, text), 1)
  }

  /** The terms of several texts together. */
  function TermsOfAll(u: Unicode, texts: seq<string>): set<string> {
    if texts == [] then {} else TermsOfAll(u, texts[..|texts| - 1]) + TermsOf(u, texts[|texts| - 1])
  }

  function FactTexts(fact: Fact): seq<string> {
    [fact.subject, fact.predicateName] + match fact.objectName case Some(name) => [name] case None => []
  }

  function TermsOfFacts(u: Unicode, facts: seq<Fact>): set<string> {
    if facts == [] then {} else TermsOfFacts(u, facts[..|facts| - 1]) + TermsOfAll(u, FactTexts(facts[|facts| - 1]))
  }

  method TermsFromLabels(u: Unicode, labels: seq<string>) returns (terms: set<string>)
    ensures terms == TermsOfAll(u, labels)
  {
    hide LongEnough, TextTerms;
    terms := {};
    var i := 0;
    while i < |labels|
      invariant 0 <= i <= |labels| && terms == TermsOfAll(u, labels[..i])
    {
      assert labels[..i + 1][..i] == labels[..i];
      terms := ExtendNormalizedTerms(u, labels[i], 1, terms);
      i := i + 1;
    }
    assert labels[..i] == labels;
  }

  lemma TermsOfFact(u: Unicode, fact: Fact)
    ensures TermsOfAll(u, FactTexts(fact)) == TermsOf(u, fact.subject) + TermsOf(u, fact.predicateName)
      + match fact.objectName case Some(name) => TermsOf(u, name) case None => {}
  {
    hide TermsOf;
    var two := [fact.subject, fact.predicateName];
    assert two[..1][..0] == [] && two[..1] == [fact.subject];
    assert TermsOfAll(u, two[..1]) == TermsOf(u, fact.subject);
    assert TermsOfAll(u, two) == TermsOf(u, fact.subject) + TermsOf(u, fact.predicateName);
    if fact.objectName.Some? {
      var three := two + [fact.objectName.value];
      assert three[..2] == two;
    } else {
      assert two + [] == two;
    }
  }

  method TermsFromFacts(u: Unicode, facts: seq<Fact>) returns (terms: set<string>)
    ensures terms == TermsOfFacts(u, facts)
  {
    hide LongEnough, TextTerms, TermsOfAll;
    terms := {};
    var i := 0;
    while i < |facts|
      invariant 0 <= i <= |facts| && terms == TermsOfFacts(u, facts[..i])
    {
      assert facts[..i + 1][..i] == facts[..i];
      TermsOfFact(u, facts[i]);
      terms := ExtendNormalizedTerms(u, facts[i].subject, 1, terms);
      terms := ExtendNormalizedTerms(u, facts[i].predicateName, 1, terms);
      if facts[i].objectName.Some? {
        terms := ExtendNormalizedTerms(u, facts[i].objectName.value, 1, terms);
      }
      i := i + 1;
    }
    assert facts[..i] == facts;
  }

  /** As a fraction of the query's terms, `x` is the number of those the candidate has. */
  predicate IsShare(x: real, query: set<string>, candidate: set<string>) {
    x * |query| as real == |query * candidate| as real
  }

  /** The share of the query's terms that the candidate has. */
  function TermCoverage(query: set<string>, candidate: set<string>): (coverage: real)
    ensures IsShare(coverage, query, candidate)
    ensures 0.0 <= coverage <= 1.0
    ensures coverage == 1.0 <==> query != {} && query <= candidate
    ensures coverage == 0.0 <==> query * candidate == {}
  {
    if query == {} || candidate == {} then 0.0
    else
      var matches := set term | term in query && term in candidate;
      CoverageBounds(matches, query, candidate);
      |matches| as real / |query| as real
  }

  lemma CoverageBounds(matches: set<string>, query: set<string>, candidate: set<string>)
    requires query != {} && matches == query * candidate
    ensures 0 <= |matches| <= |query|
    ensures |matches| == |query| <==> query <= candidate
    ensures 0.0 <= |matches| as real / |query| as real <= 1.0
    ensures |matches| as real / |query| as real == 1.0 <==> |matches| == |query|
    ensures |matches| as real / |query| as real == 0.0 <==> |matches| == 0
  {
    SubsetSize(matches, query);
    Ratio(|matches|, |query|);
  }

  lemma SubsetSize(a: set<string>, b: set<string>)
    requires a <= b
    ensures |a| <= |b| && (|a| == |b| <==> a == b)
  {
    assert b == a + (b - a);
    assert |b| == |a| + |b - a|;
  }

  lemma Ratio(m: nat, n: nat)
    requires n > 0 && m <= n
    ensures 0.0 <= m as real / n as real <= 1.0
    ensures m as real / n as real == 1.0 <==> m == n
    ensures m as real / n as real == 0.0 <==> m == 0
  {
    var q := m as real / n as real;
    assert q * n as real == m as real;
  }

  // ----- Scores

  function SourceDiversityBonus(hit: Hit): real {
    (if |hit.retrieverSources| > 0 then |hit.retrieverSources| - 1 else 0) as real * PER_EXTRA_SOURCE_BONUS
  }

  function EvidenceStructureBonus(hit: Hit): real {
    (if hit.graphFacts == [] then 0.0 else GRAPH_FACT_BONUS)
    + (if hit.sourceSpan.Some? then SOURCE_SPAN_BONUS else 0.0)
    + (if hit.codeArtifact.Some? then CODE_ARTIFACT_BONUS else 0.0)
  }

  /** The hit's signals against the query; its fusion score is the one it came with. */
  function Scored(u: Unicode, query: set<string>, hit: Hit): Signal {
    var content := TermCoverage(query, TermsOf(u, hit.content));
    var entities := TermCoverage(query, TermsOfAll(u, hit.entityLabels));
    var facts := TermCoverage(query, TermsOfFacts(u, hit.graphFacts));
    var path := match hit.sourcePath case Some(path) => TermCoverage(query, TermsOf(u, path)) case None => 0.0;
    Signal(
      hit.score
      + content * CONTENT_MATCH_WEIGHT + entities * ENTITY_MATCH_WEIGHT
      + facts * FACT_MATCH_WEIGHT + path * PATH_MATCH_WEIGHT
      + SourceDiversityBonus(hit) + EvidenceStructureBonus(hit),
      hit.score, content, entities, facts, path, |hit.retrieverSources|)
  }

  method ScoreHit(u: Unicode, query: set<string>, hit: Hit) returns (signal: Signal)
    ensures signal == Scored(u, query, hit)
  {
    hide TermCoverage, TermsOfAll, TermsOfFacts, LongEnough, TextTerms;
    var contentTerms := NormalizedTerms(u, hit.content, 1);
    var content := TermCoverage(query, contentTerms);
    var labelTerms := TermsFromLabels(u, hit.entityLabels);
    var entities := TermCoverage(query, labelTerms);
    var factTerms := TermsFromFacts(u, hit.graphFacts);
    var facts := TermCoverage(query, factTerms);
    var path := 0.0;
    if hit.sourcePath.Some? {
      var pathTerms := NormalizedTerms(u, hit.sourcePath.value, 1);
      path := TermCoverage(query, pathTerms);
    }
    var score := hit.score
      + content * CONTENT_MATCH_WEIGHT + entities * ENTITY_MATCH_WEIGHT
      + facts * FACT_MATCH_WEIGHT + path * PATH_MATCH_WEIGHT
      + SourceDiversityBonus(hit) + EvidenceStructureBonus(hit);
    signal := Signal(score, hit.score, content, entities, facts, path, |hit.retrieverSources|);
  }

  /** Reranking only adds, and never more than the weights and bonuses together. */
  lemma ScoreBounds(u: Unicode, query: set<string>, hit: Hit)
    ensures var signal := Scored(u, query, hit);
      && 0.0 <= signal.content <= 1.0 && 0.0 <= signal.entities <= 1.0
      && 0.0 <= signal.facts <= 1.0 && 0.0 <= signal.path <= 1.0
      && signal.fusion == hit.score
      && hit.score <= signal.score <= hit.score + 0.90 + 0.15
           + 0.05 * (if |hit.retrieverSources| > 0 then |hit.retrieverSources| - 1 else 0) as real
  {
    hide TermsOf, TermsOfAll, TermsOfFacts;
  }

  /** The score stays as it was exactly for hits with nothing to show for the query and no extra evidence. */
  lemma ScoreStaysWithoutEvidence(u: Unicode, query: set<string>, hit: Hit)
    ensures Scored(u, query, hit).score == hit.score <==>
      && query * TermsOf(u, hit.content) == {} && query * TermsOfAll(u, hit.entityLabels) == {}
      && (hit.sourcePath.Some? ==> query * TermsOf(u, hit.sourcePath.value) == {})
      && |hit.retrieverSources| <= 1 && hit.graphFacts == [] && hit.sourceSpan.None? && hit.codeArtifact.None?
  {
    hide TermsOf, TermsOfAll;
  }

  /** Each signal is the share of the query's terms found in its part of the hit. */
  lemma SignalsAreShares(u: Unicode, query: set<string>, hit: Hit)
    ensures var signal := Scored(u, query, hit);
      && IsShare(signal.content, query, TermsOf(u, hit.content))
      && IsShare(signal.entities, query, TermsOfAll(u, hit.entityLabels))
      && IsShare(signal.facts, query, TermsOfFacts(u, hit.graphFacts))
      && (if hit.sourcePath.Some? then IsShare(signal.path, query, TermsOf(u, hit.sourcePath.value)) else signal.path == 0.0)
      && signal.sources == |hit.retrieverSources|
  {
    hide IsShare, TermsOf, TermsOfAll, TermsOfFacts, TermCoverage, SourceDiversityBonus, EvidenceStructureBonus;
  }

  /** The sum, with every weight and bonus as a number. */
  lemma ScoreIsSum(u: Unicode, query: set<string>, hit: Hit)
    ensures var signal := Scored(u, query, hit);
      signal.score - hit.score ==
        0.40 * signal.content + 0.25 * signal.entities + 0.20 * signal.facts + 0.05 * signal.path
        + (if |hit.retrieverSources| > 1 then 0.05 * (|hit.retrieverSources| - 1) as real else 0.0)
        + (if |hit.graphFacts| > 0 then 0.08 else 0.0)
        + (if hit.sourceSpan.Some? then 0.03 else 0.0)
        + (if hit.codeArtifact.Some? then 0.04 else 0.0)
  {
    hide TermsOf, TermsOfAll, TermsOfFacts, TermCoverage;
  }

  /** The terms of several texts are those of any of them; of facts, those of any subject, predicate or object. */
  /** All terms of a text's tokens but an empty one. */
  lemma TermsAre(u: Unicode, text: string, t: string)
    ensures t in TermsOf(u, text) <==>
      t != "" && exists a: nat, b: nat :: IsToken(u, text, a, b) && t in TokenTerms(u, text[a..b])
  {
    LongTermsAre(u, text, 1, t);
    hide LongEnough, TextTerms, IsToken, TokenTerms;
  }

  lemma {:induction false} TermsOfAllAre(u: Unicode, texts: seq<string>, t: string)
    ensures t in TermsOfAll(u, texts) <==> exists text :: text in texts && t in TermsOf(u, text)
  {
    if texts != [] {
      var before, last := texts[..|texts| - 1], texts[|texts| - 1];
      assert texts == before + [last];
      TermsOfAllAre(u, before, t);
    }
  }

  ghost predicate FactHas(u: Unicode, fact: Fact, t: string) {
    || t in TermsOf(u, fact.subject)
    || t in TermsOf(u, fact.predicateName)
    || (fact.objectName.Some? && t in TermsOf(u, fact.objectName.value))
  }

  lemma {:induction false} TermsOfFactsAre(u: Unicode, facts: seq<Fact>, t: string)
    ensures t in TermsOfFacts(u, facts) <==> exists fact :: fact in facts && FactHas(u, fact, t)
  {
    hide TermsOf, TermsOfAll;
    if facts != [] {
      var before, last := facts[..|facts| - 1], facts[|facts| - 1];
      assert facts == before + [last];
      TermsOfFactsAre(u, before, t);
      TermsOfFact(u, last);
      assert t in TermsOfAll(u, FactTexts(last)) <==> FactHas(u, last, t);
      hide FactHas, FactTexts;
      if fact :| fact in facts && FactHas(u, fact, t) { assert fact in before || fact == last; }
      assert last in facts && forall fact | fact in before :: fact in facts;
    }
  }

  // ----- Reranking

  datatype Mode = Disabled | Local | External

  datatype Diagnostics = Diagnostics(
    requested: Mode, effective: Mode, algorithm: string, candidates: nat, returned: nat, degraded: bool, reason: Option<string>)

  const RESERVED: string := "external rerank provider contract is reserved; using local deterministic rerank"

  function Rescored(u: Unicode, query: set<string>, hit: Hit): Hit {
    var signal := Scored(u, query, hit);
    hit.(score := signal.score, rerank := Some(signal))
  }

  function RescoredAll(u: Unicode, query: set<string>, hits: seq<Hit>): (r: seq<Hit>)
    ensures |r| == |hits| && forall k {:trigger r[k]} | 0 <= k < |hits| :: r[k] == Rescored(u, query, hits[k])
  {
    seq(|hits|, k requires 0 <= k < |hits| => Rescored(u, query, hits[k]))
  }

  function Reranked(u: Unicode, query: string, hits: seq<Hit>): seq<Hit> {
    StableSort(RescoredAll(u, TermsOf(u, query), hits))
  }

  /** The loop that overwrites each hit's score and signal. */
  method RescoreHits(u: Unicode, terms: set<string>, hits: array<Hit>)
    modifies hits
    ensures hits[..] == RescoredAll(u, terms, old(hits[..]))
  {
    hide Rescored, Scored;
    var i := 0;
    while i < hits.Length
      invariant 0 <= i <= hits.Length
      invariant forall k | 0 <= k < i :: hits[k] == Rescored(u, terms, old(hits[k]))
      invariant forall k | i <= k < hits.Length :: hits[k] == old(hits[k])
    {
      var signal := ScoreHit(u, terms, hits[i]);
      RescoredIs(u, terms, hits[i]);
      hits[i] := hits[i].(score := signal.score, rerank := Some(signal));
      i := i + 1;
    }
    RescoredOneByOne(u, terms, old(hits[..]), hits[..]);
  }

  lemma RescoredOneByOne(u: Unicode, terms: set<string>, before: seq<Hit>, after: seq<Hit>)
    requires |after| == |before| && forall k | 0 <= k < |before| :: after[k] == Rescored(u, terms, before[k])
    ensures after == RescoredAll(u, terms, before)
  {
  }

  method RerankHits(u: Unicode, query: string, hits: array<Hit>, mode: Mode) returns (diagnostics: Diagnostics)
    modifies hits
    ensures hits[..] == if mode == Disabled then old(hits[..]) else Reranked(u, query, old(hits[..]))
    ensures diagnostics.requested == mode && diagnostics.effective == (if mode == Disabled then Disabled else Local)
    ensures diagnostics.candidates == diagnostics.returned == hits.Length
    ensures diagnostics.algorithm == if mode == Disabled then "reciprocal_rank_fusion_only" else "deterministic_feature_rerank"
    ensures diagnostics.degraded == (mode == External)
    ensures diagnostics.reason == if mode == External
      then Some("external rerank provider contract is reserved; using local deterministic rerank") else None
  {
    hide Rescored, LongEnough, TextTerms, StableSort;
    if mode == Disabled {
      diagnostics := Diagnostics(Disabled, Disabled, "reciprocal_rank_fusion_only", hits.Length, hits.Length, false, None);
    } else {
      var terms := NormalizedTerms(u, query, 1);
      RescoreHits(u, terms, hits);
      var sorted := StableSort(hits[..]);
      forall k | 0 <= k < hits.Length { hits[k] := sorted[k]; }
      assert hits[..] == sorted;
      var reason := if mode == External then Some(RESERVED) else None;
      diagnostics :=
        Diagnostics(mode, Local, "deterministic_feature_rerank", hits.Length, hits.Length, reason.Some?, reason);
    }
  }

  lemma RescoredIs(u: Unicode, query: set<string>, hit: Hit)
    ensures var signal := Scored(u, query, hit);
      Rescored(u, query, hit) == hit.(score := signal.score, rerank := Some(signal))
  {
  }

  // ----- The order of the input

  function Without(hits: seq<Hit>, k: nat): (rest: seq<Hit>)
    requires k < |hits|
    ensures |rest| == |hits| - 1
  {
    hits[..k] + hits[k + 1..]
  }

  lemma {:induction false} RescoredPermutation(u: Unicode, query: set<string>, a: seq<Hit>, b: seq<Hit>)
    requires multiset(a) == multiset(b)
    ensures multiset(RescoredAll(u, query, a)) == multiset(RescoredAll(u, query, b))
    decreases |a|
  {
    hide Rescored, RescoredAll, Without;
    SameSize(a, b);
    if a == [] {
      assert b == [];
    } else {
      assert a[0] in a;
      var k :| 0 <= k < |b| && b[k] == a[0];
      RescoredWithout(u, query, a, 0);
      RescoredWithout(u, query, b, k);
      RescoredPermutation(u, query, Without(a, 0), Without(b, k));
    }
  }

  lemma SameSize(a: seq<Hit>, b: seq<Hit>)
    requires multiset(a) == multiset(b)
    ensures |a| == |b| && forall x | x in a :: x in b
  {
    assert |a| == |multiset(a)| == |b|;
    forall x | x in a ensures x in b { assert x in multiset(b); }
  }

  lemma RescoredWithout(u: Unicode, query: set<string>, hits: seq<Hit>, k: nat)
    requires k < |hits|
    ensures multiset(Without(hits, k)) == multiset(hits) - multiset{hits[k]}
    ensures multiset(RescoredAll(u, query, hits))
      == multiset(RescoredAll(u, query, Without(hits, k))) + multiset{Rescored(u, query, hits[k])}
  {
    hide Rescored;
    var rest := Without(hits, k);
    assert hits == hits[..k] + [hits[k]] + hits[k + 1..];
    var all, less := RescoredAll(u, query, hits), RescoredAll(u, query, rest);
    assert less == less[..k] + less[k..];
    assert all == less[..k] + [all[k]] + less[k..];
  }

  /** The reranked list is a permutation of the rescored hits, best first. */
  lemma RerankedIsSorted(u: Unicode, query: string, hits: seq<Hit>)
    ensures Sorted(Reranked(u, query, hits))
    ensures multiset(Reranked(u, query, hits)) == multiset(RescoredAll(u, TermsOf(u, query), hits))
  {
    SortSorts(RescoredAll(u, TermsOf(u, query), hits));
  }

  /** Position by position: scores do not rise, and among equal scores ids do not fall. */
  lemma RerankedIsBestFirst(u: Unicode, query: string, hits: seq<Hit>, i: nat, j: nat)
    requires i < j < |hits|
    ensures var ranked := Reranked(u, query, hits);
      && ranked[i].score >= ranked[j].score
      && (ranked[i].score == ranked[j].score ==>
            var a, b := ranked[i].evidenceId, ranked[j].evidenceId; a == b || exists k :: Text.FirstLessAt(a, b, k))
  {
    RerankedIsSorted(u, query, hits);
    var ranked := Reranked(u, query, hits);
    assert Before(ranked[i], ranked[j]);
    Text.AtMostMeans(ranked[i].evidenceId, ranked[j].evidenceId);
  }

  /** No hit scores above the first. */
  lemma BestComesFirst(u: Unicode, query: string, hits: seq<Hit>, hit: Hit)
    requires hit in hits
    ensures Scored(u, TermsOf(u, query), hit).score <= Reranked(u, query, hits)[0].score
  {
    hide Scored, TermsOf, StableSort;
    var rescored := Rescored(u, TermsOf(u, query), hit);
    var ranked := Reranked(u, query, hits);
    RerankedIsSorted(u, query, hits);
    var k :| 0 <= k < |hits| && hits[k] == hit;
    assert RescoredAll(u, TermsOf(u, query), hits)[k] == rescored;
    assert rescored in multiset(ranked);
    var j :| 0 <= j < |ranked| && ranked[j] == rescored;
    if j > 0 { RerankedIsBestFirst(u, query, hits, 0, j); }
  }

  ghost predicate OrderFree(u: Unicode, query: string, hits: seq<Hit>) {
    forall other | multiset(other) == multiset(hits) :: Reranked(u, query, other) == Reranked(u, query, hits)
  }

  lemma SwapKeeps(hits: seq<Hit>, i: nat, j: nat)
    requires i < j < |hits|
    ensures multiset(hits[i := hits[j]][j := hits[i]]) == multiset(hits)
  {
  }

  /** The input order never matters exactly when no two different rescored hits have the same score and id. */
  lemma OrderFreeWithoutTies(u: Unicode, query: string, hits: seq<Hit>)
    ensures OrderFree(u, query, hits) <==> NoTies(RescoredAll(u, TermsOf(u, query), hits))
  {
    hide Rescored, TermsOf, StableSort;
    var terms := TermsOf(u, query);
    var scored := RescoredAll(u, terms, hits);
    if NoTies(scored) {
      forall other | multiset(other) == multiset(hits) ensures Reranked(u, query, other) == Reranked(u, query, hits) {
        RescoredPermutation(u, terms, other, hits);
        RerankedIsSorted(u, query, other);
        RerankedIsSorted(u, query, hits);
        assert NoTies(Reranked(u, query, hits)) by { SameMembers(Reranked(u, query, hits), scored); }
        SortedIsUnique(Reranked(u, query, hits), Reranked(u, query, other));
      }
    } else {
      var x, y :| x in scored && y in scored && Tied(x, y) && x != y;
      var i :| 0 <= i < |scored| && scored[i] == x;
      var j :| 0 <= j < |scored| && scored[j] == y;
      TiesDepend(u, query, hits, if i < j then i else j, if i < j then j else i);
    }
  }

  lemma SameMembers(a: seq<Hit>, b: seq<Hit>)
    requires multiset(a) == multiset(b) && NoTies(b)
    ensures NoTies(a)
  {
    forall x, y | x in a && y in a && Tied(x, y) ensures x == y {
      assert x in multiset(b) && y in multiset(b);
    }
  }

  lemma TiesDepend(u: Unicode, query: string, hits: seq<Hit>, i: nat, j: nat)
    requires i < j < |hits|
    requires var scored := RescoredAll(u, TermsOf(u, query), hits); scored[i] != scored[j] && Tied(scored[i], scored[j])
    ensures !OrderFree(u, query, hits)
  {
    hide Rescored, TermsOf, StableSort;
    var terms := TermsOf(u, query);
    var swapped := hits[i := hits[j]][j := hits[i]];
    SwapKeeps(hits, i, j);
    var a, b := RescoredAll(u, terms, hits), RescoredAll(u, terms, swapped);
    assert a[..i] == b[..i] && b[i] == a[j];
    TiesShow(a, b, i);
    assert Reranked(u, query, swapped) != Reranked(u, query, hits);
  }

  /** With distinct evidence ids the list is the same for every order of the input. */
  lemma DistinctIdsAreOrderFree(u: Unicode, query: string, hits: seq<Hit>)
    requires forall i, j | 0 <= i < j < |hits| :: hits[i].evidenceId != hits[j].evidenceId
    ensures OrderFree(u, query, hits)
  {
    hide Scored, TermsOf, OrderFree;
    var scored := RescoredAll(u, TermsOf(u, query), hits);
    forall x, y | x in scored && y in scored && Tied(x, y) ensures x == y {
      var i :| 0 <= i < |scored| && scored[i] == x;
      var j :| 0 <= j < |scored| && scored[j] == y;
      assert x.evidenceId == hits[i].evidenceId && y.evidenceId == hits[j].evidenceId;
    }
    OrderFreeWithoutTies(u, query, hits);
  }

  function Plain(evidenceId: string, content: string): Hit {
    Hit(evidenceId, content, [], [], None, None, None, [], 0.0, None)
  }

  /** Without them it can depend: two hits with one id and nothing to tell them apart but their contents. */
  lemma RepeatedIdsCanDepend(u: Unicode)
    ensures var a, b := Plain("1", "a"), Plain("1", "b");
      multiset([a, b]) == multiset([b, a]) && Reranked(u, "", [a, b]) != Reranked(u, "", [b, a])
  {
    var a, b := Plain("1", "a"), Plain("1", "b");
    NoTermsInNothing(u);
    hide TermsOf;
    PlainScoreStays(u, a);
    PlainScoreStays(u, b);
    hide Scored, Reranked, TermsOf;
    assert [a, b] == [a] + [b] && [b, a] == [b] + [a];
    assert a.content[0] != b.content[0];
    TiedPairDepends(u, "", a, b);
  }

  lemma NoTermsInNothing(u: Unicode)
    ensures TermsOf(u, "") == {}
  {
  }

  lemma TiedPairDepends(u: Unicode, query: string, a: Hit, b: Hit)
    requires Rescored(u, TermsOf(u, query), a) != Rescored(u, TermsOf(u, query), b)
    requires Tied(Rescored(u, TermsOf(u, query), a), Rescored(u, TermsOf(u, query), b))
    ensures Reranked(u, query, [a, b]) != Reranked(u, query, [b, a])
  {
    hide Rescored, TermsOf, StableSort, Tied;
    var terms := TermsOf(u, query);
    var ab, ba := RescoredAll(u, terms, [a, b]), RescoredAll(u, terms, [b, a]);
    assert ab[0] == Rescored(u, terms, a) && ba[0] == Rescored(u, terms, b) && ab[..0] == ba[..0];
    TiesShow(ab, ba, 0);
  }

  lemma PlainScoreStays(u: Unicode, hit: Hit)
    requires hit.graphFacts == [] && hit.sourceSpan.None? && hit.codeArtifact.None? && |hit.retrieverSources| <= 1
    ensures Scored(u, {}, hit).score == hit.score
  {
    ScoreStaysWithoutEvidence(u, {}, hit);
  }
}
