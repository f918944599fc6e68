/**
 The delta between a base snapshot's source hashes and the current tree, its composition with the base, and the
 detection of stale or unlisted sources.
 */
module Delta {
  import opened Ordering
  import opened Wrappers

  type Hashes = map<string, string>

  /** The current sources: those a walk of the tree lists, and those found when a path is probed by name. */
  datatype Tree = Tree(listed: Hashes, probed: Hashes)

  /** A changed path: gone, or with a new digest. */
  datatype Change = Tombstone | Modified(sha: string)

  type Changes = map<string, Change>

  /** The changed paths asked about; None asks about the whole tree. */
  type Scope = Option<set<string>>

  datatype DeltaError = PathMissing(path: string) | SourceUnlisted(path: string) | SourceStale(path: string)

  function Lookup(h: Hashes, p: string): Option<string> {
    if p in h then Some(h[p]) else None
  }

  function CurrentOf(tree: Tree, scope: Scope): Hashes {
    match scope
    case None => tree.listed
    case Some(paths) => map p | p in paths && p in tree.probed :: tree.probed[p]
  }

  function Candidates(base: Hashes, tree: Tree, scope: Scope): set<string> {
    match scope
    case None => tree.listed.Keys + base.Keys
    case Some(paths) => paths
  }

  // ---------- Specifications ----------

  /** The candidates whose digest differs, with what they became. */
  function Diff(base: Hashes, current: Hashes, candidates: set<string>): Changes {
    map p | p in candidates && Lookup(base, p) != Lookup(current, p) ::
      if p in current then Modified(current[p]) else Tombstone
  }

  function Compose(base: Hashes, changed: Changes): Hashes {
    map p | p in base.Keys + changed.Keys && (p in changed ==> changed[p].Modified?) ::
      if p in changed then changed[p].sha else base[p]
  }

  ghost predicate IsLeast(p: string, paths: set<string>) {
    p in paths && forall q | q in paths :: StringLe(p, q)
  }

  /** The paths compared by the validation that differ. */
  function Mismatches(current: Hashes, expected: Hashes, scope: Scope): set<string> {
    set p | p in (match scope case None => current.Keys + expected.Keys case Some(paths) => paths)
            && Lookup(current, p) != Lookup(expected, p)
  }

  // ---------- Operations ----------

  /** The first path of a sorted list that has a property is the least that has it. */
  lemma FirstIsLeast(sorted: seq<string>, i: nat, paths: set<string>)
    requires i < |sorted| && sorted[i] in paths
    requires Sorted(StringLe, sorted)
    requires forall p | p in paths :: p in sorted
    requires forall j | 0 <= j < i :: sorted[j] !in paths
    ensures IsLeast(sorted[i], paths)
  {
    forall q | q in paths ensures StringLe(sorted[i], q) {
      var j :| 0 <= j < |sorted| && sorted[j] == q;
      StringLeTotal(q, q);
    }
  }

  /** `create_delta`: the changed paths, or the first requested path that does not exist. */
  method CreateDelta(base: Hashes, tree: Tree, scope: Scope) returns (result: Result<Changes, DeltaError>)
    ensures result.Success? <==> scope.None? || forall p | p in scope.value :: p in tree.probed || p in base
    ensures result.Success? ==> result.value == Diff(base, CurrentOf(tree, scope), Candidates(base, tree, scope))
    ensures result.Failure? ==>
              && result.error.PathMissing?
              && IsLeast(result.error.path, set p | p in scope.value && p !in tree.probed && p !in base)
  {
    hide Candidates, StringLe;
    var current := CurrentOf(tree, scope);
    if scope.Some? {
      var requested := SortedKeys(scope.value);
      for i := 0 to |requested|
        invariant forall j | 0 <= j < i :: requested[j] in current || requested[j] in base
      {
        if requested[i] !in current && requested[i] !in base {
          FirstIsLeast(requested, i, set p | p in scope.value && p !in tree.probed && p !in base);
          return Failure(PathMissing(requested[i]));
        }
      }
    }
    var candidates := SortedKeys(Candidates(base, tree, scope));
    var changed := FillChanges(base, current, candidates, Candidates(base, tree, scope));
    result := Success(changed);
  }

  /** The loop over the candidates. */
  method FillChanges(base: Hashes, current: Hashes, candidates: seq<string>, ghost all: set<string>)
    returns (changed: Changes)
    requires forall p :: p in candidates <==> p in all
    ensures changed == Diff(base, current, all)
  {
    hide Diff, Lookup;
    changed := map[];
    ghost var done: set<string> := {};
    NoDiff(base, current);
    for i := 0 to |candidates|
      invariant changed == Diff(base, current, done)
      invariant forall p :: p in done <==> p in candidates[..i]
    {
      var relative := candidates[i];
      DiffStep(base, current, done, relative);
      done := done + {relative};
      if relative !in current {
        if relative in base {
          changed := changed[relative := Tombstone];
        }
      } else if Lookup(base, relative) != Some(current[relative]) {
        changed := changed[relative := Modified(current[relative])];
      }
    }
    assert candidates[..|candidates|] == candidates;
    assert done == all;
  }

  lemma NoDiff(base: Hashes, current: Hashes)
    ensures Diff(base, current, {}) == map[]
  {
  }

  lemma DiffStep(base: Hashes, current: Hashes, done: set<string>, p: string)
    ensures Lookup(base, p) == if p in base then Some(base[p]) else None
    ensures var before, after := Diff(base, current, done), Diff(base, current, done + {p});
            if p !in current then after == (if p in base then before[p := Tombstone] else before)
            else if Lookup(base, p) != Some(current[p]) then after == before[p := Modified(current[p])]
            else after == before
  {
  }

  /** `_composed_source_hashes`. */
  method ComposedSourceHashes(base: Hashes, changed: Changes) returns (hashes: Hashes)
    ensures hashes == Compose(base, changed)
  {
    hide Compose;
    hashes := base;
    ComposeNothing(base);
    var rest := changed.Keys;
    ghost var done: Changes := map[];
    while rest != {}
      invariant rest <= changed.Keys && done.Keys == changed.Keys - rest
      invariant (forall p | p in done :: done[p] == changed[p]) && hashes == Compose(base, done)
      decreases |rest|
    {
      var relative :| relative in rest;
      ComposeStep(base, done, relative, changed[relative]);
      done := done[relative := changed[relative]];
      if changed[relative].Tombstone? {
        hashes := hashes - {relative};
      } else {
        hashes := hashes[relative := changed[relative].sha];
      }
      rest := rest - {relative};
    }
    assert done == changed;
  }

  lemma ComposeStep(base: Hashes, done: Changes, p: string, change: Change)
    requires p !in done
    ensures Compose(base, done[p := change])
            == if change.Tombstone? then Compose(base, done) - {p} else Compose(base, done)[p := change.sha]
  {
  }

  lemma MismatchesAmong(current: Hashes, expected: Hashes, scope: Scope, paths: seq<string>)
    requires forall p :: p in paths <==> p in match scope case None => current.Keys + expected.Keys case Some(x) => x
    ensures forall p :: p in Mismatches(current, expected, scope)
                        <==> p in paths && Lookup(current, p) != Lookup(expected, p)
  {
    hide Lookup;
  }

  /** `_validate_composed_sources`: the first path that differs, by whether the delta lists it. */
  method ValidateComposed(base: Hashes, changed: Changes, tree: Tree, scope: Scope)
    returns (outcome: Outcome<DeltaError>)
    ensures var wrong := Mismatches(CurrentOf(tree, scope), Compose(base, changed), scope);
            && (outcome.Pass? <==> wrong == {})
            && (outcome.Fail? ==> !outcome.error.PathMissing? && IsLeast(outcome.error.path, wrong)
                                  && (outcome.error.SourceStale? <==> outcome.error.path in changed))
  {
    hide StringLe, Compose, CurrentOf, Lookup, Mismatches;
    var current := CurrentOf(tree, scope);
    var expected := ComposedSourceHashes(base, changed);
    var paths := SortedKeys(match scope case None => current.Keys + expected.Keys case Some(p) => p);
    MismatchesAmong(current, expected, scope, paths);
    for i := 0 to |paths|
      invariant forall j | 0 <= j < i :: Lookup(current, paths[j]) == Lookup(expected, paths[j])
    {
      var relative := paths[i];
      if Lookup(current, relative) != Lookup(expected, relative) {
        FirstIsLeast(paths, i, Mismatches(current, expected, scope));
        return Fail(if relative !in changed then SourceUnlisted(relative) else SourceStale(relative));
      }
    }
    outcome := Pass;
  }

  datatype Report = Report(parity: bool, filesParsed: nat, cacheReuse: nat)

  /** What a full hand-off compares the composed digests with: another snapshot, if one is given. */
  function Target(tree: Tree, snapshot: Option<Hashes>): Hashes {
    if snapshot.Some? then snapshot.value else tree.listed
  }

  /**
   The answer of `handoff` for a delta that is given. Parity of a full hand-off is equality with the snapshot it
   is compared with; a scoped one compares with the current sources and ignores the snapshot. A delta that does
   not validate is an error, except for an empty scoped one.
   */
  method Handoff(base: Hashes, changed: Changes, tree: Tree, scope: Scope, snapshot: Option<Hashes>)
    returns (result: Result<Report, DeltaError>)
    ensures var wrong := Mismatches(CurrentOf(tree, scope), Compose(base, changed), scope);
            && (result.Success? <==> wrong == {} || (scope.Some? && changed == map[]))
            && (result.Failure? ==> !result.error.PathMissing? && IsLeast(result.error.path, wrong)
                                    && (result.error.SourceStale? <==> result.error.path in changed))
            && (result.Success? && scope.Some? ==> (result.value.parity <==> wrong == {}))
    ensures result.Success? && scope.None? ==>
              (result.value.parity <==> snapshot.None? || tree.listed == snapshot.value)
    ensures result.Success? ==> result.value.filesParsed == |Parsed(changed)|
                                && result.value.cacheReuse == |base.Keys - changed.Keys|
  {
    hide Mismatches;
    var untouched := scope.Some? && changed == map[];
    if !untouched {
      var outcome := ValidateComposed(base, changed, tree, scope);
      if outcome.Fail? {
        return Failure(outcome.error);
      }
    }
    var current := CurrentOf(tree, scope);
    var merged: Hashes;
    if untouched {
      merged := base;
      ComposeNothing(base);
    } else {
      merged := ComposedSourceHashes(base, changed);
    }
    var parity: bool;
    if scope.None? {
      parity := merged == Target(tree, snapshot);
      NoMismatchIffEqual(current, merged);
    } else {
      parity := forall relative | relative in scope.value :: Lookup(current, relative) == Lookup(merged, relative);
      ParityIffNoMismatch(current, merged, scope.value);
    }
    var reuse := if untouched then |base| else |base.Keys - changed.Keys|;
    assert changed == map[] ==> base.Keys - changed.Keys == base.Keys;
    assert |base| == |base.Keys|;
    result := Success(Report(parity, |Parsed(changed)|, reuse));
  }

  lemma ParityIffNoMismatch(current: Hashes, merged: Hashes, paths: set<string>)
    ensures (forall p | p in paths :: Lookup(current, p) == Lookup(merged, p))
            <==> Mismatches(current, merged, Some(paths)) == {}
  {
    if exists p | p in paths :: Lookup(current, p) != Lookup(merged, p) {
      var p :| p in paths && Lookup(current, p) != Lookup(merged, p);
      assert p in Mismatches(current, merged, Some(paths));
    }
  }

  /** The changes that are not tombstones. */
  function Parsed(changed: Changes): set<string> {
    set p | p in changed && changed[p].Modified?
  }

  lemma ComposeNothing(base: Hashes)
    ensures Compose(base, map[]) == base
  {
  }

  lemma NoMismatchIffEqual(current: Hashes, expected: Hashes)
    ensures Mismatches(current, expected, None) == {} <==> current == expected
  {
    if Mismatches(current, expected, None) == {} {
      forall p ensures Lookup(current, p) == Lookup(expected, p) {
        assert p !in Mismatches(current, expected, None);
      }
      forall p ensures p in current <==> p in expected {
        assert Lookup(current, p) == Lookup(expected, p);
      }
      forall p | p in current ensures current[p] == expected[p] {
        assert Lookup(current, p) == Lookup(expected, p);
      }
    }
  }

  // ---------- Diff and patch ----------

  /** Patching the base with the full diff gives exactly the current tree. */
  lemma FullDeltaRestores(base: Hashes, tree: Tree)
    ensures Compose(base, Diff(base, tree.listed, Candidates(base, tree, None))) == tree.listed
  {
    var changed := Diff(base, tree.listed, Candidates(base, tree, None));
    assert Compose(base, changed).Keys == tree.listed.Keys;
  }

  /** A scoped delta gives what is probed on the scope, and the base elsewhere. */
  lemma ScopedDeltaRestores(base: Hashes, tree: Tree, paths: set<string>, p: string)
    ensures var composed := Compose(base, Diff(base, CurrentOf(tree, Some(paths)), paths));
            Lookup(composed, p) == if p in paths then Lookup(tree.probed, p) else Lookup(base, p)
  {
  }

  /** The diff is the smallest patch: whatever else patches the base to the current tree contains it. */
  lemma DiffIsSmallest(base: Hashes, tree: Tree, other: Changes, p: string)
    requires Compose(base, other) == tree.listed
    ensures var changed := Diff(base, tree.listed, Candidates(base, tree, None));
            p in changed ==> p in other && other[p] == changed[p]
  {
    assert Lookup(Compose(base, other), p) == Lookup(tree.listed, p);
  }

  /** A delta is never stale on the tree it was made from; on another tree exactly where the digests differ. */
  lemma FreshIffSame(base: Hashes, made: Tree, now: Tree, scope: Scope)
    ensures var changed := Diff(base, CurrentOf(made, scope), Candidates(base, made, scope));
            Mismatches(CurrentOf(now, scope), Compose(base, changed), scope) == {}
            <==> CurrentOf(now, scope) == CurrentOf(made, scope)
  {
    var changed := Diff(base, CurrentOf(made, scope), Candidates(base, made, scope));
    match scope
    case None =>
      FullDeltaRestores(base, made);
      NoMismatchIffEqual(now.listed, made.listed);
    case Some(paths) =>
      ScopedFresh(base, made, now, paths);
  }

  lemma ScopedFresh(base: Hashes, made: Tree, now: Tree, paths: set<string>)
    ensures var changed := Diff(base, CurrentOf(made, Some(paths)), paths);
            Mismatches(CurrentOf(now, Some(paths)), Compose(base, changed), Some(paths)) == {}
            <==> CurrentOf(now, Some(paths)) == CurrentOf(made, Some(paths))
  {
    hide Compose, Diff;
    var scope := Some(paths);
    var before, after := CurrentOf(made, scope), CurrentOf(now, scope);
    var composed := Compose(base, Diff(base, before, paths));
    forall p | p in paths ensures Lookup(composed, p) == Lookup(before, p) {
      ScopedDeltaRestores(base, made, paths, p);
    }
    if Mismatches(after, composed, scope) == {} {
      forall p ensures Lookup(after, p) == Lookup(before, p) {
        assert p !in Mismatches(after, composed, scope);
      }
      forall p ensures p !in Mismatches(after, before, None) {
      }
      NoMismatchIffEqual(after, before);
    }
  }

  /** Every composed source was reused from the base or parsed for the delta. */
  lemma ReuseAndParse(base: Hashes, changed: Changes)
    ensures |Compose(base, changed)| == |base.Keys - changed.Keys| + |Parsed(changed)|
  {
    hide Compose, Parsed;
    ComposedKeys(base, changed);
    assert |Compose(base, changed)| == |Compose(base, changed).Keys|;
    assert (base.Keys - changed.Keys) * Parsed(changed) == {};
  }

  lemma ComposedKeys(base: Hashes, changed: Changes)
    ensures Compose(base, changed).Keys == (base.Keys - changed.Keys) + Parsed(changed)
    ensures Parsed(changed) <= changed.Keys
  {
  }
}
