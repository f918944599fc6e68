/**
 The decisions of the ranking in plain conditions: who is eligible and why not, what a score adds up, in which order
 the answer lists the candidates, and which requests are refused.
 */
module RankingMeaning {
  import opened Ordering
  import opened Ranking
  import opened Wrappers

  // ---------- One candidate ----------

  /** The levels of trust that reach the floor, from untrusted up to authoritative. */
  function Reaching(floor: Trust): set<Trust> {
    match floor
    case Untrusted => {Untrusted, DerivedFact, Advisory, Verified, Authoritative}
    case DerivedFact => {DerivedFact, Advisory, Verified, Authoritative}
    case Advisory => {Advisory, Verified, Authoritative}
    case Verified => {Verified, Authoritative}
    case Authoritative => {Authoritative}
    case Unranked => {Untrusted, DerivedFact, Advisory, Verified, Authoritative, Unranked}
  }

  predicate InScope(r: Request, c: Candidate) {
    r.scope.Some? ==> c.scope == "*" || c.scope == r.scope.value
  }

  predicate Trusted(r: Request, c: Candidate) {
    r.trust.Some? ==> c.trust in Reaching(r.trust.value)
  }

  predicate Fresh(r: Request, c: Candidate) {
    r.maxFreshness.Some? ==> c.freshness.Some? && c.freshness.value <= r.maxFreshness.value
  }

  lemma FiltersMean(r: Request, c: Candidate)
    ensures ScopeMatches(r, c) <==> InScope(r, c)
    ensures TrustMatches(r, c) <==> Trusted(r, c)
    ensures FreshnessMatches(r, c) <==> Fresh(r, c)
  {
    if r.trust.Some? {
      match r.trust.value {
        case Untrusted => case DerivedFact => case Advisory => case Verified => case Authoritative => case Unranked =>
      }
    }
  }

  lemma NothingMissing(required: seq<string>, has: set<string>)
    ensures Filter(required, has, false) == [] <==> forall x | x in required :: x in has
  {
    var missing := Filter(required, has, false);
    forall x ensures x in missing <==> x in required && x !in has {
      FilterMembers(required, has, false, x);
    }
    assert missing != [] ==> missing[0] in missing;
  }

  /**
   Why a candidate is eligible or not: the first of the filters that it fails, in this order, is the reason, and it
   is eligible exactly when it fails none.
   */
  lemma ReasonMeans(r: Request, required: seq<string>, c: Candidate)
    ensures var fact := FactOf(r, required, c);
            && fact.candidate == c && (fact.eligible <==> fact.reason == Eligible)
            && fact.reason == if exists x | x in required :: x !in c.capabilities then MissingCapabilities
                              else if !c.available then Unavailable
                              else if c.policy == Some(false) then PolicyRejected
                              else if c.policy == None then PolicyUnknown
                              else if !InScope(r, c) then ScopeMismatch
                              else if !Trusted(r, c) then TrustBelowFloor
                              else if Fresh(r, c) then Eligible
                              else if c.freshness == None then FreshnessUnknown
                              else FreshnessStale
  {
    hide Filter, ScopeMatches, TrustMatches, FreshnessMatches, InScope, Trusted, Fresh, ScoreOf;
    NothingMissing(required, c.capabilities);
    FiltersMean(r, c);
    FreshWithout(r, c);
    if c.policy.Some? {
      var allowed := c.policy.value;
      assert c.policy == (if allowed then Some(true) else Some(false));
    }
  }

  lemma FreshWithout(r: Request, c: Candidate)
    ensures !Fresh(r, c) ==> r.maxFreshness.Some?
  {
  }

  /** What a score adds up: a hundred for each match, less a thousand for each miss, the costs and the penalties. */
  lemma ScoreMeans(r: Request, required: seq<string>, c: Candidate)
    ensures var fact := FactOf(r, required, c);
            && |fact.matched| + |fact.missing| == |required|
            && (forall x :: x in fact.matched <==> x in required && x in c.capabilities)
            && (forall x :: x in fact.missing <==> x in required && x !in c.capabilities)
            && fact.score == 100 * |fact.matched| - 1000 * |fact.missing|
                             - (if c.cost.Some? then c.cost.value else 0)
                             - (if c.latency.Some? then c.latency.value else 0)
                             - (if c.available then 0 else 10000)
                             - (if c.policy == None then 5000 else if c.policy == Some(true) then 0 else 10000)
                             - (if InScope(r, c) then 0 else 10000) - (if Trusted(r, c) then 0 else 10000)
                             - (if Fresh(r, c) then 0 else 10000)
  {
    hide Filter, ScopeMatches, TrustMatches, FreshnessMatches, InScope, Trusted, Fresh;
    FiltersMean(r, c);
    FilterSplits(required, c.capabilities);
    forall x, inside
      ensures x in Filter(required, c.capabilities, inside) <==> x in required && (x in c.capabilities) == inside
    {
      FilterMembers(required, c.capabilities, inside, x);
    }
    if c.policy.Some? {
      var allowed := c.policy.value;
      assert c.policy == (if allowed then Some(true) else Some(false));
    }
  }

  // ---------- The order of the answer ----------

  /** The earlier of two handles and versions, in the order of code points. */
  predicate NamedBefore(a: Candidate, b: Candidate) {
    StringLe(a.handle, b.handle) && (a.handle == b.handle ==> StringLe(a.version, b.version))
  }

  lemma NamesMean(a: Candidate, b: Candidate)
    ensures NameLe(a.handle, a.version, b.handle, b.version) <==> NamedBefore(a, b)
  {
    hide StringLe;
    StringLeTotal(a.handle, a.handle);
  }

  /**
   The answer holds a fact for every candidate and nothing else, the first `maxResults` of them in this order:
   the eligible ones first, then the higher score, then handle and version.
   */
  lemma AnswerInOrder(r: Request, candidates: seq<Candidate>, i: nat, j: nat)
    requires 0 < r.maxResults && i < j < |AnswerOf(r, candidates).candidates|
    ensures var a, b := AnswerOf(r, candidates).candidates[i], AnswerOf(r, candidates).candidates[j];
            && (b.eligible ==> a.eligible)
            && (a.eligible == b.eligible ==> a.score >= b.score)
            && (a.eligible == b.eligible && a.score == b.score ==> NamedBefore(a.candidate, b.candidate))
  {
    hide Facts, Frontier, SortedSet, Sort, NamedBefore, NameLe;
    FactLeOrders();
    SortSorts(FactLe, Facts(r, SortedSet(r.required), candidates));
    var a, b := AnswerOf(r, candidates).candidates[i], AnswerOf(r, candidates).candidates[j];
    assert FactLe(a, b);
    NamesMean(a.candidate, b.candidate);
  }

  lemma AnswerIsCut(r: Request, candidates: seq<Candidate>)
    requires 0 < r.maxResults
    ensures var answer := AnswerOf(r, candidates);
            && |answer.candidates| == (if |candidates| < r.maxResults then |candidates| else r.maxResults)
            && answer.candidates <= Ranked(r, candidates)
            && (answer.truncated <==> |candidates| > r.maxResults)
            && multiset(Ranked(r, candidates)) == multiset(Facts(r, SortedSet(r.required), candidates))
  {
    hide Frontier, SortedSet, FactLe, FactOf;
    var facts := Facts(r, SortedSet(r.required), candidates);
    SortKeeps(FactLe, facts);
    assert |multiset(Ranked(r, candidates))| == |Ranked(r, candidates)| && |multiset(facts)| == |facts|;
  }
}
