/** The advisory ranking of capability candidates: hard filter, order, and the Pareto frontier of cost and latency. */
module Ranking {
  import opened Ordering
  import opened Wrappers

  const MAX_CANDIDATES := 100_000
  const MAX_RESULTS := 10_000

  datatype Trust = Untrusted | DerivedFact | Advisory | Verified | Authoritative | Unranked

  datatype Candidate = Candidate(handle: string, version: string, capabilities: set<string>, trust: Trust,
                                 available: bool, cost: Option<nat>, latency: Option<nat>, policy: Option<bool>,
                                 scope: string, freshness: Option<nat>, metricClass: string)

  datatype Request = Request(required: seq<string>, maxResults: int, scope: Option<string>, trust: Option<Trust>,
                             maxFreshness: Option<int>)

  datatype RankingError = TrustInvalid | FreshnessInvalid | RequestInvalid | CandidateCountLimit

  datatype Reason =
    | MissingCapabilities | Unavailable | PolicyRejected | PolicyUnknown | ScopeMismatch | TrustBelowFloor
    | FreshnessUnknown | FreshnessStale | Eligible

  datatype Fact = Fact(candidate: Candidate, matched: seq<string>, missing: seq<string>, eligible: bool, score: int,
                       reason: Reason)

  /** A frontier entry; cost and latency are known. */
  datatype Point = Point(handle: string, version: string, cost: nat, latency: nat, metricClass: string)

  datatype Answer = Answer(candidates: seq<Fact>, frontier: seq<Point>, truncated: bool)

  // ---------- The request ----------

  function CheckRequest(r: Request): Outcome<RankingError> {
    if r.trust == Some(Unranked) then Fail(TrustInvalid)
    else if r.maxFreshness.Some? && r.maxFreshness.value < 0 then Fail(FreshnessInvalid)
    else if r.required == [] || !(0 < r.maxResults <= MAX_RESULTS) then Fail(RequestInvalid)
    else Pass
  }

  // ---------- One candidate ----------

  /** The elements of `s` that are in `keep`, or those that are not. */
  function Filter(s: seq<string>, keep: set<string>, inside: bool): seq<string> {
    if s == [] then []
    else
      var n := |s| - 1;
      Filter(s[..n], keep, inside) + if (s[n] in keep) == inside then [s[n]] else []
  }

  lemma {:induction false} FilterMembers(s: seq<string>, keep: set<string>, inside: bool, x: string)
    ensures x in Filter(s, keep, inside) <==> x in s && ((x in keep) == inside)
  {
    if s != [] {
      var n := |s| - 1;
      assert s == s[..n] + [s[n]];
      FilterMembers(s[..n], keep, inside, x);
    }
  }

  lemma {:induction false} FilterSplits(s: seq<string>, keep: set<string>)
    ensures |Filter(s, keep, true)| + |Filter(s, keep, false)| == |s|
  {
    if s != [] {
      FilterSplits(s[..|s| - 1], keep);
    }
  }

  /** `_split_required_capabilities`: both parts in the order of the requirement. */
  method SplitRequired(required: seq<string>, available: set<string>)
    returns (matched: seq<string>, missing: seq<string>)
    ensures matched == Filter(required, available, true) && missing == Filter(required, available, false)
  {
    matched, missing := [], [];
    for i := 0 to |required|
      invariant matched == Filter(required[..i], available, true) && missing == Filter(required[..i], available, false)
    {
      assert required[..i + 1][..i] == required[..i];
      if required[i] in available {
        matched := matched + [required[i]];
      } else {
        missing := missing + [required[i]];
      }
    }
    assert required[..|required|] == required;
  }

  function TrustRank(t: Trust): int {
    match t
    case Untrusted => 0
    case DerivedFact => 1
    case Advisory => 2
    case Verified => 3
    case Authoritative => 4
    case Unranked => -1
  }

  predicate ScopeMatches(r: Request, c: Candidate) {
    r.scope.None? || c.scope == "*" || c.scope == r.scope.value
  }

  predicate TrustMatches(r: Request, c: Candidate) {
    r.trust.None? || TrustRank(c.trust) >= TrustRank(r.trust.value)
  }

  predicate FreshnessMatches(r: Request, c: Candidate) {
    r.maxFreshness.None? || (c.freshness.Some? && c.freshness.value <= r.maxFreshness.value)
  }

  function ReasonOf(r: Request, c: Candidate, missing: seq<string>): Reason {
    if missing != [] then MissingCapabilities
    else if !c.available then Unavailable
    else if c.policy == Some(false) then PolicyRejected
    else if c.policy.None? then PolicyUnknown
    else if !ScopeMatches(r, c) then ScopeMismatch
    else if !TrustMatches(r, c) then TrustBelowFloor
    else if !FreshnessMatches(r, c) then if c.freshness.None? then FreshnessUnknown else FreshnessStale
    else Eligible
  }

  function Penalty(ok: bool): int {
    if ok then 0 else -10000
  }

  /** The sum of the score components; an unknown cost or latency adds nothing. */
  function ScoreOf(r: Request, c: Candidate, matched: nat, missing: nat): int {
    matched * 100 - missing * 1000 - c.cost.UnwrapOr(0) - c.latency.UnwrapOr(0) + Penalty(c.available)
    + (if c.policy == Some(true) then 0 else if c.policy == Some(false) then -10000 else -5000)
    + Penalty(ScopeMatches(r, c)) + Penalty(TrustMatches(r, c)) + Penalty(FreshnessMatches(r, c))
  }

  /** The fact about one candidate; `required` is the sorted requirement. */
  function FactOf(r: Request, required: seq<string>, c: Candidate): Fact {
    var matched, missing := Filter(required, c.capabilities, true), Filter(required, c.capabilities, false);
    Fact(c, matched, missing,
         missing == [] && c.available && c.policy == Some(true) && ScopeMatches(r, c) && TrustMatches(r, c)
         && FreshnessMatches(r, c),
         ScoreOf(r, c, |matched|, |missing|), ReasonOf(r, c, missing))
  }

  /**
   A candidate is eligible exactly when it has every required capability and passes every filter; then the
   reason says so, and its score is what it costs: an unknown cost or latency counts as free.
   */
  lemma EligibleMeans(r: Request, required: seq<string>, c: Candidate)
    ensures var fact := FactOf(r, required, c);
            && (fact.eligible <==> (forall x | x in required :: x in c.capabilities) && c.available
                                   && c.policy == Some(true) && ScopeMatches(r, c) && TrustMatches(r, c)
                                   && FreshnessMatches(r, c))
            && (fact.eligible <==> fact.reason == Eligible)
            && (fact.eligible ==> fact.score == 100 * |required| - c.cost.UnwrapOr(0) - c.latency.UnwrapOr(0))
  {
    hide Filter, ScopeMatches, TrustMatches, FreshnessMatches;
    var missing := Filter(required, c.capabilities, false);
    forall x ensures x in missing <==> x in required && x !in c.capabilities {
      FilterMembers(required, c.capabilities, false, x);
    }
    if missing != [] {
      assert missing[0] in missing;
    }
    FilterSplits(required, c.capabilities);
    if c.policy.Some? {
      var allowed := c.policy.value;
      assert c.policy == (if allowed then Some(true) else Some(false));
    }
  }

  // ---------- Order ----------

  predicate NameLe(h: string, v: string, h': string, v': string) {
    if h == h' then StringLe(v, v') else StringLe(h, h')
  }

  /** Eligible first, then the higher score, then handle and version. */
  predicate FactLe(a: Fact, b: Fact) {
    if a.eligible != b.eligible then a.eligible
    else if a.score != b.score then a.score > b.score
    else NameLe(a.candidate.handle, a.candidate.version, b.candidate.handle, b.candidate.version)
  }

  predicate PointLe(a: Point, b: Point) {
    NameLe(a.handle, a.version, b.handle, b.version)
  }

  lemma NameLeOrders(a: (string, string), b: (string, string), c: (string, string))
    ensures NameLe(a.0, a.1, b.0, b.1) || NameLe(b.0, b.1, a.0, a.1)
    ensures NameLe(a.0, a.1, b.0, b.1) && NameLe(b.0, b.1, a.0, a.1) ==> a == b
    ensures NameLe(a.0, a.1, b.0, b.1) && NameLe(b.0, b.1, c.0, c.1) ==> NameLe(a.0, a.1, c.0, c.1)
  {
    hide StringLe;
    OrderOf(a.0, b.0, c.0);
    OrderOf(a.1, b.1, c.1);
    OrderOf(b.0, c.0, a.0);
  }

  lemma OrderOf(a: string, b: string, c: string)
    ensures StringLe(a, b) || StringLe(b, a)
    ensures StringLe(a, b) && StringLe(b, a) ==> a == b
    ensures StringLe(a, b) && StringLe(b, c) ==> StringLe(a, c)
  {
    StringLeTotal(a, b);
    if StringLe(a, b) && StringLe(b, a) {
      StringLeAntisymmetric(a, b);
    }
    if StringLe(a, b) && StringLe(b, c) {
      StringLeTransitive(a, b, c);
    }
  }

  function NameOf(c: Candidate): (string, string) {
    (c.handle, c.version)
  }

  lemma FactLeOrders()
    ensures Total(FactLe) && Transitive(FactLe)
  {
    hide NameLe;
    forall a: Fact, b: Fact ensures FactLe(a, b) || FactLe(b, a) {
      NameLeOrders(NameOf(a.candidate), NameOf(b.candidate), NameOf(b.candidate));
    }
    forall a, b, c | FactLe(a, b) && FactLe(b, c) ensures FactLe(a, c) {
      NameLeOrders(NameOf(a.candidate), NameOf(b.candidate), NameOf(c.candidate));
    }
  }

  function Facts(r: Request, required: seq<string>, candidates: seq<Candidate>): (facts: seq<Fact>)
    ensures |facts| == |candidates|
  {
    if candidates == [] then []
    else Facts(r, required, candidates[..|candidates| - 1]) + [FactOf(r, required, candidates[|candidates| - 1])]
  }

  function Ranked(r: Request, candidates: seq<Candidate>): seq<Fact> {
    Sort(FactLe, Facts(r, SortedSet(r.required), candidates))
  }

  // ---------- The frontier ----------

  predicate Measured(f: Fact) {
    f.eligible && f.candidate.cost.Some? && f.candidate.latency.Some?
  }

  predicate Dominates(a: Fact, b: Fact)
    requires Measured(a) && Measured(b)
  {
    var x, y := a.candidate, b.candidate;
    && x.cost.value <= y.cost.value && x.latency.value <= y.latency.value
    && (x.cost.value < y.cost.value || x.latency.value < y.latency.value)
  }

  predicate Undominated(facts: seq<Fact>, f: Fact)
    requires Measured(f)
  {
    forall other | other in facts && Measured(other) :: !Dominates(other, f)
  }

  function PointOf(f: Fact): Point
    requires Measured(f)
  {
    Point(f.candidate.handle, f.candidate.version, f.candidate.cost.value, f.candidate.latency.value,
          f.candidate.metricClass)
  }

  /** The undominated measured facts among `some`, in order; dominance is judged against `all`. */
  function Front(all: seq<Fact>, some: seq<Fact>): seq<Point> {
    if some == [] then []
    else
      var n := |some| - 1;
      Front(all, some[..n]) + if Measured(some[n]) && Undominated(all, some[n]) then [PointOf(some[n])] else []
  }

  function Frontier(facts: seq<Fact>): seq<Point> {
    Sort(PointLe, Front(facts, facts))
  }

  lemma {:induction false} FrontMembers(all: seq<Fact>, some: seq<Fact>, p: Point)
    ensures p in Front(all, some)
            <==> exists f :: f in some && Measured(f) && Undominated(all, f) && p == PointOf(f)
  {
    hide Measured, Undominated, PointOf;
    if some != [] {
      var n := |some| - 1;
      assert some == some[..n] + [some[n]];
      FrontMembers(all, some[..n], p);
      assert forall f :: f in some <==> f in some[..n] || f == some[n];
    }
  }

  lemma FrontierMembers(facts: seq<Fact>, p: Point)
    ensures p in Frontier(facts) <==> exists f :: f in facts && Measured(f) && Undominated(facts, f) && p == PointOf(f)
  {
    hide Front, Measured, Undominated, PointOf, PointLe;
    SortMembers(PointLe, Front(facts, facts), p);
    FrontMembers(facts, facts, p);
  }

  /** An eligible fact whose cost and latency are both known. */
  ghost predicate Known(f: Fact) {
    f.eligible && f.candidate.cost.Some? && f.candidate.latency.Some?
  }

  /** At most as costly and at most as slow, and one of the two strictly less. */
  ghost predicate Better(cost: nat, latency: nat, p: Point) {
    (cost < p.cost && latency <= p.latency) || (cost <= p.cost && latency < p.latency)
  }

  ghost predicate NothingBetter(facts: seq<Fact>, p: Point) {
    forall f | f in facts && Known(f) :: !Better(f.candidate.cost.value, f.candidate.latency.value, p)
  }

  /** The point is the candidate's. */
  ghost predicate Shows(f: Fact, p: Point) {
    && f.candidate.handle == p.handle && f.candidate.version == p.version
    && f.candidate.cost == Some(p.cost) && f.candidate.latency == Some(p.latency)
    && f.candidate.metricClass == p.metricClass
  }

  lemma UndominatedMeans(facts: seq<Fact>, f: Fact)
    requires Measured(f)
    ensures Undominated(facts, f) <==> NothingBetter(facts, PointOf(f))
  {
    if NothingBetter(facts, PointOf(f)) {
      forall other | other in facts && Measured(other) ensures !Dominates(other, f) {
        assert Known(other);
      }
    }
    if Undominated(facts, f) {
      forall other | other in facts && Known(other)
        ensures !Better(other.candidate.cost.value, other.candidate.latency.value, PointOf(f))
      {
        assert Measured(other);
      }
    }
  }

  /**
   The frontier is exactly the points of the eligible candidates with known cost and latency such that no eligible
   candidate with known cost and latency is at most as costly and at most as slow, and better in one of the two; they
   come in order of handle and version.
   */
  lemma FrontierExact(facts: seq<Fact>, p: Point)
    ensures p in Frontier(facts) <==> NothingBetter(facts, p) && exists f | f in facts :: Known(f) && Shows(f, p)
    ensures Sorted(PointLe, Frontier(facts))
  {
    hide Front, Undominated, NameLe, NothingBetter, PointLe;
    FrontierMembers(facts, p);
    forall f | f in facts ensures Known(f) && Shows(f, p) <==> Measured(f) && p == PointOf(f) {
    }
    forall f | f in facts && Measured(f) ensures Undominated(facts, f) <==> NothingBetter(facts, PointOf(f)) {
      UndominatedMeans(facts, f);
    }
    PointLeOrders();
    SortSorts(PointLe, Front(facts, facts));
  }

  /** No point of the frontier is matched on one axis and beaten on the other by another one. */
  lemma FrontierTradesOff(facts: seq<Fact>, p: Point, q: Point)
    requires p in Frontier(facts) && q in Frontier(facts)
    ensures p.cost < q.cost <==> p.latency > q.latency
    ensures p.cost == q.cost <==> p.latency == q.latency
  {
    hide Frontier;
    FrontierExact(facts, p);
    FrontierExact(facts, q);
    var f :| f in facts && Known(f) && Shows(f, p);
    var g :| g in facts && Known(g) && Shows(g, q);
    assert !Better(f.candidate.cost.value, f.candidate.latency.value, q);
    assert !Better(g.candidate.cost.value, g.candidate.latency.value, p);
  }

  lemma PointLeOrders()
    ensures Total(PointLe) && Transitive(PointLe)
  {
    hide NameLe;
    forall a: Point, b: Point ensures PointLe(a, b) || PointLe(b, a) {
      NameLeOrders((a.handle, a.version), (b.handle, b.version), (b.handle, b.version));
    }
    forall a, b, c | PointLe(a, b) && PointLe(b, c) ensures PointLe(a, c) {
      NameLeOrders((a.handle, a.version), (b.handle, b.version), (c.handle, c.version));
    }
  }

  /** Descending along dominance ends at an undominated fact. */
  lemma {:induction false} Descend(facts: seq<Fact>, f: Fact) returns (best: Fact)
    requires f in facts && Measured(f)
    ensures best in facts && Measured(best) && Undominated(facts, best)
    ensures best.candidate.cost.value <= f.candidate.cost.value
    ensures best.candidate.latency.value <= f.candidate.latency.value
    decreases f.candidate.cost.value + f.candidate.latency.value
  {
    if Undominated(facts, f) {
      best := f;
    } else {
      var other :| other in facts && Measured(other) && Dominates(other, f);
      best := Descend(facts, other);
    }
  }

  /** Every eligible candidate with known cost and latency is matched or beaten on both by a frontier member. */
  lemma FrontierCovers(facts: seq<Fact>, f: Fact) returns (p: Point)
    requires f in facts && Measured(f)
    ensures p in Frontier(facts) && p.cost <= f.candidate.cost.value && p.latency <= f.candidate.latency.value
  {
    var best := Descend(facts, f);
    p := PointOf(best);
    FrontierMembers(facts, p);
  }

  // ---------- The answer ----------

  function AnswerOf(r: Request, candidates: seq<Candidate>): Answer {
    var facts := Ranked(r, candidates);
    Answer(if |facts| <= r.maxResults || r.maxResults < 0 then facts else facts[..r.maxResults], Frontier(facts),
           |facts| > r.maxResults)
  }

  /** `rank_capabilities`. */
  method Rank(r: Request, candidates: seq<Candidate>) returns (result: Result<Answer, RankingError>)
    ensures r.trust == Some(Unranked) ==> result == Failure(TrustInvalid)
    ensures r.trust != Some(Unranked) && r.maxFreshness.Some? && r.maxFreshness.value < 0 ==>
              result == Failure(FreshnessInvalid)
    ensures r.trust != Some(Unranked) && (r.maxFreshness.Some? ==> 0 <= r.maxFreshness.value) ==>
              result == if r.required == [] || r.maxResults < 1 || 10_000 < r.maxResults then Failure(RequestInvalid)
                        else if |candidates| > 100_000 then Failure(CandidateCountLimit)
                        else Success(AnswerOf(r, candidates))
  {
    hide FactOf, FactLe, SortedSet, Frontier;
    var checked := CheckRequest(r);
    if checked.Fail? {
      return Failure(checked.error);
    }
    var required := SortedSet(r.required);
    var facts: seq<Fact> := [];
    for i := 0 to |candidates|
      invariant i <= MAX_CANDIDATES && facts == Facts(r, required, candidates[..i])
    {
      if |facts| >= MAX_CANDIDATES {
        return Failure(CandidateCountLimit);
      }
      var fact := MakeFact(r, required, candidates[i]);
      assert candidates[..i + 1][..i] == candidates[..i];
      facts := facts + [fact];
    }
    assert candidates[..|candidates|] == candidates;
    facts := Sort(FactLe, facts);
    var frontier := FindFrontier(facts);
    result := Success(Answer(if |facts| <= r.maxResults then facts else facts[..r.maxResults], frontier,
                             |facts| > r.maxResults));
  }

  /** The body of the loop over the candidates. */
  method MakeFact(r: Request, required: seq<string>, c: Candidate) returns (fact: Fact)
    ensures fact == FactOf(r, required, c)
  {
    var matched, missing := SplitRequired(required, c.capabilities);
    var scope, trust, freshness := ScopeMatches(r, c), TrustMatches(r, c), FreshnessMatches(r, c);
    var eligible := missing == [] && c.available && c.policy == Some(true) && scope && trust && freshness;
    fact := Fact(c, matched, missing, eligible, ScoreOf(r, c, |matched|, |missing|), ReasonOf(r, c, missing));
  }

  /** The nested loops over the measured facts. */
  method FindFrontier(facts: seq<Fact>) returns (frontier: seq<Point>)
    ensures frontier == Frontier(facts)
  {
    hide Sort, PointLe, Measured, Dominates, PointOf;
    frontier := [];
    for i := 0 to |facts|
      invariant frontier == Front(facts, facts[..i])
    {
      var item := facts[i];
      assert facts[..i + 1][..i] == facts[..i];
      if Measured(item) {
        var dominated := false;
        for j := 0 to |facts|
          invariant dominated <==> exists other | other in facts[..j] && Measured(other) :: Dominates(other, item)
        {
          assert facts[..j + 1] == facts[..j] + [facts[j]];
          if Measured(facts[j]) && Dominates(facts[j], item) {
            dominated := true;
          }
        }
        assert facts[..|facts|] == facts;
        if !dominated {
          frontier := frontier + [PointOf(item)];
        }
      }
    }
    assert facts[..|facts|] == facts;
    frontier := Sort(PointLe, frontier);
  }

  /** Truncation never shows an ineligible candidate while it hides an eligible one, nor a worse-scored one. */
  lemma TruncationKeepsBest(r: Request, candidates: seq<Candidate>, shown: nat, hidden: nat)
    requires 0 < r.maxResults && shown < r.maxResults <= hidden < |Ranked(r, candidates)|
    ensures AnswerOf(r, candidates).candidates[shown] == Ranked(r, candidates)[shown]
    ensures var a, b := Ranked(r, candidates)[shown], Ranked(r, candidates)[hidden];
            && (b.eligible ==> a.eligible)
            && (a.eligible == b.eligible ==> a.score >= b.score)
  {
    hide Facts, NameLe, Frontier, SortedSet, Sort;
    FactLeOrders();
    SortSorts(FactLe, Facts(r, SortedSet(r.required), candidates));
    assert FactLe(Ranked(r, candidates)[shown], Ranked(r, candidates)[hidden]);
  }

  /** The frontier does not depend on how many results are shown. */
  lemma FrontierIgnoresLimit(r: Request, limit: int, candidates: seq<Candidate>)
    ensures AnswerOf(r.(maxResults := limit), candidates).frontier == AnswerOf(r, candidates).frontier
  {
    hide Frontier, Sort, FactLe, SortedSet;
    FactsIgnoreLimit(r, limit, SortedSet(r.required), candidates);
  }

  lemma {:induction false} FactsIgnoreLimit(r: Request, limit: int, required: seq<string>, candidates: seq<Candidate>)
    ensures Facts(r.(maxResults := limit), required, candidates) == Facts(r, required, candidates)
  {
    hide Filter, Option.UnwrapOr, TrustRank;
    if candidates != [] {
      FactsIgnoreLimit(r, limit, required, candidates[..|candidates| - 1]);
    }
  }

  // ---------- Independence of the order of the candidates ----------

  function Without<T>(s: seq<T>, i: nat): seq<T>
    requires i < |s|
  {
    s[..i] + s[i + 1..]
  }

  lemma WithoutMultiset<T>(s: seq<T>, i: nat)
    requires i < |s|
    ensures multiset(Without(s, i)) == multiset(s) - multiset{s[i]}
  {
    assert s == s[..i] + ([s[i]] + s[i + 1..]);
  }

  lemma FactsOne(r: Request, required: seq<string>, c: Candidate)
    ensures Facts(r, required, [c]) == [FactOf(r, required, c)]
  {
    assert [c][..0] == [];
    assert Facts(r, required, []) == [];
  }

  lemma FactsWithout(r: Request, required: seq<string>, b: seq<Candidate>, i: nat)
    requires i < |b|
    ensures multiset(Facts(r, required, b))
            == multiset(Facts(r, required, Without(b, i))) + multiset{FactOf(r, required, b[i])}
  {
    hide Facts, FactOf;
    var front, x, rest := b[..i], b[i], b[i + 1..];
    FactsConcat(r, required, front, rest);
    FactsConcat(r, required, front + [x], rest);
    FactsConcat(r, required, front, [x]);
    FactsOne(r, required, x);
    assert b == front + [x] + rest;
  }

  lemma {:induction false} FactsMultiset(r: Request, required: seq<string>, a: seq<Candidate>, b: seq<Candidate>)
    requires multiset(a) == multiset(b)
    ensures multiset(Facts(r, required, a)) == multiset(Facts(r, required, b))
    decreases |a|
  {
    hide FactOf, Facts, Without;
    assert |multiset(a)| == |a| && |multiset(b)| == |b|;
    if a == [] {
      assert b == [];
    } else {
      SameMembers(a, b, a[0]);
      var i :| 0 <= i < |b| && b[i] == a[0];
      WithoutMultiset(a, 0);
      WithoutMultiset(b, i);
      WithoutShorter(a, 0);
      FactsMultiset(r, required, Without(a, 0), Without(b, i));
      FactsWithout(r, required, a, 0);
      FactsWithout(r, required, b, i);
    }
  }

  lemma WithoutShorter<T>(s: seq<T>, i: nat)
    requires i < |s|
    ensures |Without(s, i)| < |s|
  {
  }

  lemma {:induction false} FactsConcat(r: Request, required: seq<string>, a: seq<Candidate>, b: seq<Candidate>)
    ensures Facts(r, required, a + b) == Facts(r, required, a) + Facts(r, required, b)
  {
    hide FactOf;
    if b == [] {
      assert a + b == a;
    } else {
      FactsConcat(r, required, a, b[..|b| - 1]);
      assert (a + b)[..|a + b| - 1] == a + b[..|b| - 1];
    }
  }

  lemma {:induction false} FactsMembers(r: Request, required: seq<string>, candidates: seq<Candidate>, f: Fact)
    requires f in Facts(r, required, candidates)
    ensures f.candidate in candidates && f == FactOf(r, required, f.candidate)
  {
    hide Filter, ScoreOf, ReasonOf;
    if candidates != [] && f in Facts(r, required, candidates[..|candidates| - 1]) {
      FactsMembers(r, required, candidates[..|candidates| - 1], f);
    }
  }

  /** When no two candidates share handle and version, the whole answer is independent of their order. */
  lemma AnswerIgnoresOrder(r: Request, a: seq<Candidate>, b: seq<Candidate>)
    requires multiset(a) == multiset(b)
    requires forall x, y | x in a && y in a && NameOf(x) == NameOf(y) :: x == y
    ensures AnswerOf(r, a) == AnswerOf(r, b)
  {
    hide Facts, FactOf, FactLe, Sort, Frontier, SortedSet;
    var required := SortedSet(r.required);
    var f, g := Facts(r, required, a), Facts(r, required, b);
    FactsMultiset(r, required, a, b);
    FactLeOrders();
    forall x, y | x in f && y in f && FactLe(x, y) && FactLe(y, x) ensures x == y {
      FactsMembers(r, required, a, x);
      FactsMembers(r, required, a, y);
      FactTies(x, y);
    }
    SortCanonical(FactLe, f, g);
  }

  lemma FactTies(x: Fact, y: Fact)
    requires FactLe(x, y) && FactLe(y, x)
    ensures NameOf(x.candidate) == NameOf(y.candidate)
  {
    hide NameLe;
    NameLeOrders(NameOf(x.candidate), NameOf(y.candidate), NameOf(y.candidate));
  }
}
