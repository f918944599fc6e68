/**
 The bounded, generation-bound cache of reusable decisions: its operations as a state machine, and the
 class that implements it.
 */
module DecisionCache {
  import opened Json
  import opened Ordering
  import opened Recency
  import opened Wrappers

  // ---------- Data ----------

  datatype Dimension =
    | ModelDigest | ArtifactDigest | QuantDigest | TokenizerTemplate | BackendVersion | HardwareTopology
    | DevicePlacement | ContextPressure | WorkloadClass | ConcurrencyBucket | PolicyVersion

  function AllDimensions(): seq<Dimension> {
    [ModelDigest, ArtifactDigest, QuantDigest, TokenizerTemplate, BackendVersion, HardwareTopology,
     DevicePlacement, ContextPressure, WorkloadClass, ConcurrencyBucket, PolicyVersion]
  }

  /** A key has a value for each stable dimension (the tokenizer template may be absent) and a generation. */
  datatype Key = Key(dimensions: map<Dimension, string>, generation: string)

  datatype Reason =
    | EntryMissing | GenerationUninitialized | GenerationMismatch | GenerationAdvanced
    | TelemetryContradiction | CapacityEviction | Given(text: string)

  type Payload = map<string, Json>

  datatype Entry = Entry(key: Key, decision: Payload, expectation: Payload)

  datatype Metrics = Metrics(hits: nat, misses: nat, stores: nat, invalidations: nat, quarantines: nat,
                             disabled: nat, evictions: nat)

  datatype State = State(
    generation: Option<string>,
    entries: Store<Entry>,
    invalidations: Store<Reason>,
    quarantined: Store<Reason>,
    disabled: Store<Reason>,
    metrics: Metrics)

  /** The capacity, and the key digest. */
  datatype Config = Config(max: nat, digest: Key -> string)

  datatype Operation =
    | Activate(newGeneration: string)
    | Put(key: Key, decision: Payload, expected: Payload)
    | Lookup(key: Key, observed: Payload)
    | Invalidate(key: Key, reason: Reason)
    | Drift(key: Key, dimensions: seq<Dimension>, reason: Reason)
    | Quarantine(key: Key, reason: Reason)
    | Disable(key: Key, reason: Reason)

  datatype Outcome =
    | Unchanged
    | Activated(dropped: seq<string>)
    | Stored(replacing: bool, evicted: seq<string>)
    | Blocked(reason: Reason)
    | Contradicted(fields: set<string>)
    | Hit(decision: Payload)
    | Missed(reason: Reason)
    | Removed(removed: bool)
    | Drifted(dropped: seq<string>)
    | Rejected

  // ---------- The state machine ----------

  function Initial(): State {
    State(None, Empty(), Empty(), Empty(), Empty(), Metrics(0, 0, 0, 0, 0, 0, 0))
  }

  function RememberAll(store: Store<Reason>, digests: seq<string>, reason: Reason, max: nat): Store<Reason>
    decreases |digests|
  {
    if digests == [] then store
    else RememberAll(store.Remember(digests[0], reason, max), digests[1..], reason, max)
  }

  /** `_clear_generation_locked`; the dropped digests are remembered in sorted order. */
  function ClearGeneration(s: State, generation: string, max: nat): State {
    var dropped := Sort(StringLe, s.entries.order);
    State(Some(generation), Empty(), RememberAll(s.invalidations, dropped, GenerationAdvanced, max), Empty(), Empty(),
          s.metrics.(invalidations := s.metrics.invalidations + |dropped|))
  }

  function ActivateStep(s: State, generation: string, c: Config): (State, Outcome) {
    if s.generation == Some(generation) then (s, Unchanged)
    else (ClearGeneration(s, generation, c.max), Activated(Sort(StringLe, s.entries.order)))
  }

  /** Evicts the oldest entries beyond the capacity, remembering why. */
  function Evict(entries: Store<Entry>, invalidations: Store<Reason>, max: nat)
    : (r: (Store<Entry>, Store<Reason>, seq<string>))
    decreases |entries.order|
  {
    if |entries.order| <= max then (entries, invalidations, [])
    else
      var d := entries.order[0];
      var r := Evict(entries.PopFirst(), invalidations.Remember(d, CapacityEviction, max), max);
      (r.0, r.1, [d] + r.2)
  }

  function EnterGeneration(s: State, generation: string, max: nat): State {
    if s.generation.None? then s.(generation := Some(generation))
    else if s.generation != Some(generation) then ClearGeneration(s, generation, max)
    else s
  }

  function CountMiss(s: State): State {
    s.(metrics := s.metrics.(misses := s.metrics.misses + 1))
  }

  function StoreEntry(s: State, key: Key, decision: Payload, expected: Payload, c: Config): (State, Outcome) {
    var d := c.digest(key);
    var r := Evict(s.entries.Pop(d).PutLast(d, Entry(key, decision, expected)), s.invalidations.Pop(d), c.max);
    (s.(entries := r.0, invalidations := r.1,
        metrics := s.metrics.(stores := s.metrics.stores + 1, evictions := s.metrics.evictions + |r.2|)),
     Stored(d in s.entries.values, r.2))
  }

  function PutStep(s: State, key: Key, decision: Payload, expected: Payload, c: Config): (State, Outcome) {
    var d := c.digest(key);
    var s1 := EnterGeneration(s, key.generation, c.max);
    if d in s1.disabled.values then (CountMiss(s1), Blocked(s1.disabled.values[d]))
    else if d in s1.quarantined.values then (CountMiss(s1), Blocked(s1.quarantined.values[d]))
    else StoreEntry(s1, key, decision, expected, c)
  }

  function Contradictions(expectation: Payload, observed: Payload): set<string> {
    set field | field in expectation && field in observed && observed[field] != expectation[field]
  }

  function LookupStep(s: State, key: Key, observed: Payload, c: Config): (State, Outcome) {
    var d := c.digest(key);
    if s.generation.None? then (CountMiss(s), Missed(GenerationUninitialized))
    else if Some(key.generation) != s.generation then (CountMiss(s), Missed(GenerationMismatch))
    else if d in s.disabled.values then (CountMiss(s), Blocked(s.disabled.values[d]))
    else if d in s.quarantined.values then (CountMiss(s), Blocked(s.quarantined.values[d]))
    else if d !in s.entries.values then
      (CountMiss(s), Missed(if d in s.invalidations.values then s.invalidations.values[d] else EntryMissing))
    else
      var entry := s.entries.values[d];
      var fields := Contradictions(entry.expectation, observed);
      if fields != {} then
        (s.(entries := s.entries.Pop(d),
            quarantined := s.quarantined.Remember(d, TelemetryContradiction, c.max),
            metrics := s.metrics.(invalidations := s.metrics.invalidations + 1,
                                  quarantines := s.metrics.quarantines + 1)),
         Contradicted(fields))
      else
        (s.(entries := s.entries.MoveToEnd(d), metrics := s.metrics.(hits := s.metrics.hits + 1)),
         Hit(entry.decision))
  }

  /** Removes the entry, if any; `removed` entries count as invalidations. */
  function DropEntry(s: State, d: string): State {
    s.(entries := s.entries.Pop(d),
       metrics := s.metrics.(invalidations := s.metrics.invalidations + if d in s.entries.values then 1 else 0))
  }

  function InvalidateStep(s: State, key: Key, reason: Reason, c: Config): (State, Outcome) {
    var d := c.digest(key);
    (DropEntry(s, d).(invalidations := s.invalidations.Remember(d, reason, c.max)), Removed(d in s.entries.values))
  }

  function QuarantineStep(s: State, key: Key, reason: Reason, c: Config): (State, Outcome) {
    var d := c.digest(key);
    var s1 := DropEntry(s, d);
    (s1.(quarantined := s.quarantined.Remember(d, reason, c.max),
         metrics := s1.metrics.(quarantines := s.metrics.quarantines + 1)),
     Removed(d in s.entries.values))
  }

  function DisableStep(s: State, key: Key, reason: Reason, c: Config): (State, Outcome) {
    var d := c.digest(key);
    var s1 := DropEntry(s, d);
    (s1.(disabled := s.disabled.Remember(d, reason, c.max),
         metrics := s1.metrics.(disabled := s.metrics.disabled + 1)),
     Removed(d in s.entries.values))
  }

  predicate Agrees(candidate: Key, requested: Key, dimension: Dimension) {
    (dimension in candidate.dimensions <==> dimension in requested.dimensions)
    && (dimension in candidate.dimensions ==> candidate.dimensions[dimension] == requested.dimensions[dimension])
  }

  /** Same generation, equal on the stable dimensions, different on a drifted one. */
  predicate HasDrifted(candidate: Key, requested: Key, drifted: seq<Dimension>) {
    && candidate.generation == requested.generation
    && (forall x | x in AllDimensions() :: x !in drifted ==> Agrees(candidate, requested, x))
    && (exists x | x in drifted :: !Agrees(candidate, requested, x))
  }

  function Victims(entries: Store<Entry>, order: seq<string>, requested: Key, drifted: seq<Dimension>): (r: seq<string>)
    ensures forall d ::
              d in r <==> d in order && d in entries.values && HasDrifted(entries.values[d].key, requested, drifted)
    ensures |r| <= |order|
  {
    if order == [] then []
    else
      var rest := Victims(entries, order[1..], requested, drifted);
      var d := order[0];
      if d in entries.values && HasDrifted(entries.values[d].key, requested, drifted) then [d] + rest else rest
  }

  function PopAll(entries: Store<Entry>, digests: seq<string>): Store<Entry>
    decreases |digests|
  {
    if digests == [] then entries else PopAll(entries.Pop(digests[0]), digests[1..])
  }

  predicate ValidDrift(drifted: seq<Dimension>) {
    drifted != [] && forall i, j | 0 <= i < j < |drifted| :: drifted[i] != drifted[j]
  }

  function DriftStep(s: State, key: Key, drifted: seq<Dimension>, reason: Reason, c: Config): (State, Outcome) {
    if !ValidDrift(drifted) then (s, Rejected)
    else
    var victims := Victims(s.entries, s.entries.order, key, drifted);
    (s.(entries := PopAll(s.entries, victims),
        invalidations := RememberAll(s.invalidations, victims, reason, c.max),
        metrics := s.metrics.(invalidations := s.metrics.invalidations + |victims|)),
     Drifted(victims))
  }

  function Step(s: State, op: Operation, c: Config): (State, Outcome) {
    match op
    case Activate(generation) => ActivateStep(s, generation, c)
    case Put(key, decision, expected) => PutStep(s, key, decision, expected, c)
    case Lookup(key, observed) => LookupStep(s, key, observed, c)
    case Invalidate(key, reason) => InvalidateStep(s, key, reason, c)
    case Drift(key, dimensions, reason) => DriftStep(s, key, dimensions, reason, c)
    case Quarantine(key, reason) => QuarantineStep(s, key, reason, c)
    case Disable(key, reason) => DisableStep(s, key, reason, c)
  }

  function Run(ops: seq<Operation>, c: Config): State {
    if ops == [] then Initial() else Step(Run(ops[..|ops| - 1], c), ops[|ops| - 1], c).0
  }

  // ---------- Every reachable state ----------

  ghost predicate Bounded<V>(store: Store<V>, max: nat) {
    store.Valid() && |store.order| <= max
  }

  ghost predicate Disjoint(s: State) {
    forall d | d in s.entries.values ::
      d !in s.invalidations.values && d !in s.quarantined.values && d !in s.disabled.values
  }

  ghost predicate Current(s: State, c: Config) {
    forall d | d in s.entries.values ::
      c.digest(s.entries.values[d].key) == d && Some(s.entries.values[d].key.generation) == s.generation
  }

  ghost predicate Inv(s: State, c: Config) {
    && c.max > 0
    && Bounded(s.entries, c.max) && Bounded(s.invalidations, c.max)
    && Bounded(s.quarantined, c.max) && Bounded(s.disabled, c.max)
    && Disjoint(s) && Current(s, c)
  }

  lemma {:induction false} RememberAllValid(store: Store<Reason>, digests: seq<string>, reason: Reason, max: nat)
    requires Bounded(store, max) && max > 0
    ensures Bounded(RememberAll(store, digests, reason, max), max)
    ensures forall d | d in RememberAll(store, digests, reason, max).values :: d in store.values || d in digests
    decreases |digests|
  {
    if digests != [] {
      RememberValid(store, digests[0], reason, max);
      RememberAllValid(store.Remember(digests[0], reason, max), digests[1..], reason, max);
    }
  }

  lemma {:induction false} PopAllValid(entries: Store<Entry>, digests: seq<string>)
    requires entries.Valid()
    ensures PopAll(entries, digests).Valid()
    ensures |PopAll(entries, digests).order| <= |entries.order|
    ensures forall d :: d in PopAll(entries, digests).values <==> d in entries.values && d !in digests
    ensures forall d | d in PopAll(entries, digests).values :: PopAll(entries, digests).values[d] == entries.values[d]
    decreases |digests|
  {
    if digests != [] {
      PopValid(entries, digests[0]);
      PopAllValid(entries.Pop(digests[0]), digests[1..]);
    }
  }

  /** With at most one entry too many, eviction removes exactly the oldest one. */
  lemma EvictOne(entries: Store<Entry>, invalidations: Store<Reason>, max: nat)
    requires entries.Valid() && |entries.order| <= max + 1 && Bounded(invalidations, max) && max > 0
    ensures var r := Evict(entries, invalidations, max);
            && Bounded(r.0, max) && Bounded(r.1, max)
            && |r.0.order| + |r.2| == |entries.order|
            && (|entries.order| <= max ==> r == (entries, invalidations, []))
            && (|entries.order| == max + 1 ==> r.2 == [entries.order[0]] && r.0 == entries.PopFirst())
            && (|entries.order| == max + 1 ==>
                  forall d | d in r.1.values :: d == entries.order[0] || d in invalidations.values)
  {
    if |entries.order| > max {
      var d := entries.order[0];
      PopFirstValid(entries);
      RememberValid(invalidations, d, CapacityEviction, max);
    }
  }

  lemma ClearInv(s: State, generation: string, c: Config)
    requires Inv(s, c)
    ensures Inv(ClearGeneration(s, generation, c.max), c)
  {
    RememberAllValid(s.invalidations, Sort(StringLe, s.entries.order), GenerationAdvanced, c.max);
  }

  lemma EnterInv(s: State, generation: string, c: Config)
    requires Inv(s, c)
    ensures Inv(EnterGeneration(s, generation, c.max), c)
    ensures EnterGeneration(s, generation, c.max).generation == Some(generation)
  {
    ClearInv(s, generation, c);
    assert s.generation.None? ==> s.entries.values == map[];
  }

  // ---------- What one operation does to one entry ----------

  /**
   The operation drops every entry and block: it activates another generation, even the first one, or stores
   under another one than the active one.
   */
  ghost predicate Switches(s: State, op: Operation) {
    || (op.Activate? && s.generation != Some(op.newGeneration))
    || (op.Put? && s.generation.Some? && s.generation != Some(op.key.generation))
  }

  ghost predicate Refuses(s: State, op: Operation, c: Config) {
    op.Put? && !Switches(s, op) && (c.digest(op.key) in s.disabled.values || c.digest(op.key) in s.quarantined.values)
  }

  ghost predicate Stores(s: State, op: Operation, c: Config, d: string) {
    op.Put? && c.digest(op.key) == d && !Refuses(s, op, c)
  }

  ghost predicate Contradicts(s: State, op: Operation, c: Config, d: string) {
    && op.Lookup? && c.digest(op.key) == d && Some(op.key.generation) == s.generation
    && d in s.entries.values && Contradictions(s.entries.values[d].expectation, op.observed) != {}
  }

  /** A new key enters a full cache, and `d` is the oldest one. */
  ghost predicate Evicts(s: State, op: Operation, c: Config, d: string) {
    && op.Put? && !Switches(s, op) && !Refuses(s, op, c) && c.digest(op.key) !in s.entries.values
    && |s.entries.order| == c.max > 0 && s.entries.order[0] == d
  }

  ghost predicate Drifts(s: State, op: Operation, d: string) {
    op.Drift? && ValidDrift(op.dimensions) && d in s.entries.values
    && HasDrifted(s.entries.values[d].key, op.key, op.dimensions)
  }

  /** The operation ends the life of the entry for `d`. */
  ghost predicate Ends(s: State, op: Operation, c: Config, d: string) {
    || Switches(s, op) || Contradicts(s, op, c, d) || Evicts(s, op, c, d) || Drifts(s, op, d)
    || ((op.Invalidate? || op.Quarantine? || op.Disable?) && c.digest(op.key) == d)
  }

  ghost function EntryOf(s: State, d: string): Option<Entry> {
    if d in s.entries.values then Some(s.entries.values[d]) else None
  }

  /** The entry for `d` after `op`: the stored one, none, or the one before. */
  ghost function EntryAfter(s: State, op: Operation, c: Config, d: string): Option<Entry> {
    if Stores(s, op, c, d) then Some(Entry(op.key, op.decision, op.expected))
    else if Ends(s, op, c, d) then None
    else EntryOf(s, d)
  }

  /** `t`'s store is `s`'s, or differs by remembering `e`. */
  ghost predicate Grown(before: Store<Reason>, after: Store<Reason>, e: string, max: nat) {
    Bounded(after, max) && forall d | d in after.values :: d == e || d in before.values
  }

  lemma DroppedInv(s: State, t: State, c: Config, e: string)
    requires Inv(s, c) && t.generation == s.generation && t.entries == s.entries.Pop(e)
    requires Grown(s.invalidations, t.invalidations, e, c.max)
    requires Grown(s.quarantined, t.quarantined, e, c.max)
    requires Grown(s.disabled, t.disabled, e, c.max)
    ensures Inv(t, c)
  {
    PopValid(s.entries, e);
  }

  lemma RememberGrows(store: Store<Reason>, e: string, reason: Reason, max: nat)
    requires Bounded(store, max) && max > 0
    ensures Grown(store, store, e, max) && Grown(store, store.Remember(e, reason, max), e, max)
  {
    RememberValid(store, e, reason, max);
  }

  /** The entries just before eviction. */
  lemma FullOrder(entries: Store<Entry>, e: string, entry: Entry)
    requires entries.Valid()
    ensures var stored := entries.Pop(e).PutLast(e, entry);
            && stored.Valid() && stored.values == entries.values[e := entry]
            && |stored.order| == (if e in entries.values then |entries.order| else |entries.order| + 1)
            && (e !in entries.values ==> stored.order == entries.order + [e])
  {
    hide NoRepeats;
    PopValid(entries, e);
    PutLastValid(entries.Pop(e), e, entry);
  }

  /** A full cache meets a new key. */
  ghost predicate Overflows(entries: Store<Entry>, e: string, max: nat) {
    e !in entries.values && |entries.order| == max > 0
  }

  /** What storing does to the stores. */
  ghost predicate StoreShape(s: State, t: State, e: string, entry: Entry, max: nat) {
    var full := Overflows(s.entries, e, max);
    && t.generation == s.generation && t.quarantined == s.quarantined && t.disabled == s.disabled
    && Bounded(t.entries, max) && Bounded(t.invalidations, max)
    && t.entries.values == (if full then s.entries.values - {s.entries.order[0]} else s.entries.values)[e := entry]
    && (forall d | d in t.invalidations.values ::
          d != e && (d in s.invalidations.values || (full && d == s.entries.order[0])))
  }

  lemma MapRemovePut<V>(m: map<string, V>, o: string, e: string, v: V)
    requires o != e
    ensures m[e := v] - {o} == (m - {o})[e := v]
  {
  }

  lemma EvictShape(entries: Store<Entry>, e: string, entry: Entry, kept: Store<Reason>, max: nat)
    requires Bounded(entries, max) && Bounded(kept, max) && max > 0
    ensures var r, full := Evict(entries.Pop(e).PutLast(e, entry), kept, max), Overflows(entries, e, max);
            && Bounded(r.0, max) && Bounded(r.1, max) && |r.2| == (if full then 1 else 0)
            && |r.0.order| == (if full || e in entries.values then |entries.order| else |entries.order| + 1)
            && r.0.values == (if full then entries.values - {entries.order[0]} else entries.values)[e := entry]
            && (forall d | d in r.1.values :: d in kept.values || (full && d == entries.order[0]))
  {
    hide NoRepeats, Evict;
    FullOrder(entries, e, entry);
    var stored := entries.Pop(e).PutLast(e, entry);
    EvictOne(stored, kept, max);
    if Overflows(entries, e, max) {
      assert stored.order[0] == entries.order[0];
      MapRemovePut(entries.values, entries.order[0], e, entry);
    }
  }

  lemma StoreEntryShape(s: State, op: Operation, c: Config)
    requires Inv(s, c) && op.Put?
    ensures StoreShape(s, StoreEntry(s, op.key, op.decision, op.expected, c).0, c.digest(op.key),
                       Entry(op.key, op.decision, op.expected), c.max)
  {
    hide Evict, NoRepeats;
    var e := c.digest(op.key);
    PopValid(s.invalidations, e);
    EvictShape(s.entries, e, Entry(op.key, op.decision, op.expected), s.invalidations.Pop(e), c.max);
  }

  lemma StoreEntryInv(s: State, op: Operation, c: Config)
    requires Inv(s, c) && op.Put? && !Refuses(s, op, c) && s.generation == Some(op.key.generation)
    ensures Inv(StoreEntry(s, op.key, op.decision, op.expected, c).0, c)
  {
    hide StoreEntry, Evict;
    StoreEntryShape(s, op, c);
  }

  lemma StoreEntryRule(s: State, op: Operation, c: Config, d: string)
    requires Inv(s, c) && op.Put? && !Refuses(s, op, c) && s.generation == Some(op.key.generation)
    ensures EntryOf(StoreEntry(s, op.key, op.decision, op.expected, c).0, d) == EntryAfter(s, op, c, d)
  {
    hide StoreEntry, Evict, Inv;
    StoreEntryShape(s, op, c);
  }

  lemma PutInv(s: State, op: Operation, c: Config, d: string)
    requires Inv(s, c) && op.Put?
    ensures Inv(PutStep(s, op.key, op.decision, op.expected, c).0, c)
    ensures EntryOf(PutStep(s, op.key, op.decision, op.expected, c).0, d) == EntryAfter(s, op, c, d)
  {
    hide Bounded, HasDrifted, Evict, Store.Pop, Store.PutLast;
    var s1 := EnterGeneration(s, op.key.generation, c.max);
    EnterInv(s, op.key.generation, c);
    if !Refuses(s, op, c) {
      StoreEntryInv(s1, op, c);
      StoreEntryRule(s1, op, c, d);
    }
  }

  /** `t` has some of the entries of `s`, unchanged. */
  ghost predicate Shrunk(s: State, t: State) {
    forall d | d in t.entries.values :: d in s.entries.values && t.entries.values[d] == s.entries.values[d]
  }

  lemma ShrunkCurrent(s: State, t: State, c: Config)
    requires Current(s, c) && Shrunk(s, t) && t.generation == s.generation
    ensures Current(t, c)
  {
  }

  lemma ShrunkDisjoint(s: State, t: State)
    requires Disjoint(s) && Shrunk(s, t) && t.quarantined == s.quarantined && t.disabled == s.disabled
    requires forall d | d in t.entries.values :: d !in t.invalidations.values
    ensures Disjoint(t)
  {
  }

  /** Dropping entries keeps the invariant when no entry that stays is remembered as invalidated. */
  lemma ShrunkInv(s: State, t: State, c: Config)
    requires Inv(s, c) && Shrunk(s, t) && t.generation == s.generation
    requires t.quarantined == s.quarantined && t.disabled == s.disabled
    requires Bounded(t.entries, c.max) && Bounded(t.invalidations, c.max)
    requires forall d | d in t.entries.values :: d !in t.invalidations.values
    ensures Inv(t, c)
  {
    hide Bounded, Disjoint, Current, Shrunk;
    ShrunkCurrent(s, t, c);
    ShrunkDisjoint(s, t);
  }

  lemma LookupInv(s: State, op: Operation, c: Config)
    requires Inv(s, c) && op.Lookup?
    ensures Inv(LookupStep(s, op.key, op.observed, c).0, c)
  {
    hide Bounded;
    var outcome := LookupStep(s, op.key, op.observed, c).1;
    if outcome.Contradicted? {
      ContradictedInv(s, op, c);
    } else if outcome.Hit? {
      HitInv(s, op, c);
    } else {
    }
  }

  lemma ContradictedInv(s: State, op: Operation, c: Config)
    requires Inv(s, c) && op.Lookup? && LookupStep(s, op.key, op.observed, c).1.Contradicted?
    ensures Inv(LookupStep(s, op.key, op.observed, c).0, c)
  {
    hide Store.Remember;
    var e := c.digest(op.key);
    RememberGrows(s.quarantined, e, TelemetryContradiction, c.max);
    RememberGrows(s.invalidations, e, TelemetryContradiction, c.max);
    RememberGrows(s.disabled, e, TelemetryContradiction, c.max);
    DroppedInv(s, LookupStep(s, op.key, op.observed, c).0, c, e);
  }

  lemma HitInv(s: State, op: Operation, c: Config)
    requires Inv(s, c) && op.Lookup? && LookupStep(s, op.key, op.observed, c).1.Hit?
    ensures Inv(LookupStep(s, op.key, op.observed, c).0, c)
  {
    hide Contradictions, NoRepeats, Touch;
    MoveToEndValid(s.entries, c.digest(op.key));
    ShrunkInv(s, LookupStep(s, op.key, op.observed, c).0, c);
  }

  lemma LookupRule(s: State, op: Operation, c: Config, d: string)
    requires Inv(s, c) && op.Lookup?
    ensures EntryOf(LookupStep(s, op.key, op.observed, c).0, d) == EntryAfter(s, op, c, d)
  {
    hide Current, Store.Valid, Store.Pop;
    PopValid(s.entries, c.digest(op.key));
    assert Disjoint(s);
    assert c.digest(op.key) in s.entries.values ==>
      c.digest(op.key) !in s.quarantined.values && c.digest(op.key) !in s.disabled.values;
  }

  lemma DropInv(s: State, op: Operation, c: Config)
    requires Inv(s, c) && (op.Invalidate? || op.Quarantine? || op.Disable?)
    ensures Inv(Step(s, op, c).0, c)
  {
    var e := c.digest(op.key);
    RememberGrows(s.invalidations, e, op.reason, c.max);
    RememberGrows(s.quarantined, e, op.reason, c.max);
    RememberGrows(s.disabled, e, op.reason, c.max);
    DroppedInv(s, Step(s, op, c).0, c, e);
  }

  lemma DropRule(s: State, op: Operation, c: Config, d: string)
    requires Inv(s, c) && (op.Invalidate? || op.Quarantine? || op.Disable?)
    ensures EntryOf(Step(s, op, c).0, d) == EntryAfter(s, op, c, d)
  {
    hide Current, Store.Valid, Store.Pop, DriftStep, Disjoint, ActivateStep, Contradictions, PutStep, Agrees,
         AllDimensions;
    PopValid(s.entries, c.digest(op.key));
  }

  /** What drift leaves in the stores. */
  lemma DriftShape(s: State, victims: seq<string>, reason: Reason, max: nat)
    requires Bounded(s.entries, max) && Bounded(s.invalidations, max) && Disjoint(s) && max > 0
    ensures var entries, kept := PopAll(s.entries, victims), RememberAll(s.invalidations, victims, reason, max);
            && Bounded(entries, max) && Bounded(kept, max)
            && (forall d | d in entries.values ::
                  d in s.entries.values && entries.values[d] == s.entries.values[d] && d !in kept.values)
  {
    hide PopAll, RememberAll, NoRepeats;
    PopAllValid(s.entries, victims);
    RememberAllValid(s.invalidations, victims, reason, max);
  }

  lemma DriftInv(s: State, op: Operation, c: Config)
    requires Inv(s, c) && op.Drift?
    ensures Inv(Step(s, op, c).0, c)
  {
    hide Victims, PopAll, RememberAll, Bounded, Current, Disjoint, ValidDrift;
    if ValidDrift(op.dimensions) {
      DriftShape(s, Victims(s.entries, s.entries.order, op.key, op.dimensions), op.reason, c.max);
      ShrunkInv(s, Step(s, op, c).0, c);
    }
  }

  lemma DriftRule(s: State, op: Operation, c: Config, d: string)
    requires Inv(s, c) && op.Drift?
    ensures EntryOf(Step(s, op, c).0, d) == EntryAfter(s, op, c, d)
  {
    hide Victims, HasDrifted, Current, Disjoint, ValidDrift, PopAll;
    var victims := Victims(s.entries, s.entries.order, op.key, op.dimensions);
    PopAllValid(s.entries, victims);
    assert d in s.entries.values ==> d in s.entries.order;
  }

  /** Every operation keeps the invariant and leaves each digest exactly the entry `EntryAfter` says. */
  lemma StepInv(s: State, op: Operation, c: Config, d: string)
    requires Inv(s, c)
    ensures Inv(Step(s, op, c).0, c)
    ensures EntryOf(Step(s, op, c).0, d) == EntryAfter(s, op, c, d)
  {
    hide Contradictions, Sort, LookupStep, ValidDrift, RememberAll;
    match op
    case Activate(generation) => ClearInv(s, generation, c);
    case Put(_, _, _) => PutInv(s, op, c, d);
    case Lookup(_, _) => LookupInv(s, op, c); LookupRule(s, op, c, d);
    case Drift(_, _, _) => DriftInv(s, op, c); DriftRule(s, op, c, d);
    case _ => DropInv(s, op, c); DropRule(s, op, c, d);
  }

  /** Every reachable state: bounded stores, entries of the active generation only, and disjoint from the others. */
  lemma {:induction false} RunInv(ops: seq<Operation>, c: Config)
    requires c.max > 0
    ensures Inv(Run(ops, c), c)
  {
    if ops != [] {
      RunInv(ops[..|ops| - 1], c);
      StepInv(Run(ops[..|ops| - 1], c), ops[|ops| - 1], c, "");
    }
  }

  // ---------- Hits ----------

  /** Looking back from the end: the store of `d` that nothing has replaced or ended since, if any. */
  ghost function LatestStore(ops: seq<Operation>, c: Config, d: string): (r: Option<nat>)
    ensures r.Some? ==> r.value < |ops| && ops[r.value].Put?
  {
    if ops == [] then None
    else
      var n := |ops| - 1;
      var s := Run(ops[..n], c);
      if Stores(s, ops[n], c, d) then Some(n)
      else if Ends(s, ops[n], c, d) then None
      else LatestStore(ops[..n], c, d)
  }

  /** The latest store, spelled out over the whole run. */
  lemma {:induction false} LatestStoreMeaning(ops: seq<Operation>, c: Config, d: string, i: nat)
    ensures LatestStore(ops, c, d) == Some(i)
            <==> i < |ops| && Stores(Run(ops[..i], c), ops[i], c, d)
                 && forall j {:trigger ops[j]} | i < j < |ops| ::
                      !Stores(Run(ops[..j], c), ops[j], c, d) && !Ends(Run(ops[..j], c), ops[j], c, d)
  {
    hide Stores, Ends, Run;
    if ops != [] {
      var n := |ops| - 1;
      LatestStoreMeaning(ops[..n], c, d, i);
      assert forall j | 0 <= j <= n :: ops[..n][..j] == ops[..j];
      assert forall j {:trigger ops[j]} | 0 <= j < n :: ops[..n][j] == ops[j];
      if i < n {
        assert ops[n] == ops[n];
      }
    }
  }

  /** Every reachable entry is what the latest store of its digest gave; without one there is no entry. */
  lemma {:induction false} EntryIsLatestStore(ops: seq<Operation>, c: Config, d: string)
    requires c.max > 0
    ensures var r := LatestStore(ops, c, d);
            EntryOf(Run(ops, c), d)
            == if r.None? then None
               else Some(Entry(ops[r.value].key, ops[r.value].decision, ops[r.value].expected))
  {
    if ops == [] {
      assert EntryOf(Initial(), d) == None;
    } else {
      var front := ops[..|ops| - 1];
      EntryStep(ops, c, d);
      EntryIsLatestStore(front, c, d);
      var r := LatestStore(front, c, d);
      assert r.Some? ==> front[r.value] == ops[r.value];
    }
  }

  lemma EntryStep(ops: seq<Operation>, c: Config, d: string)
    requires c.max > 0 && ops != []
    ensures EntryOf(Run(ops, c), d) == EntryAfter(Run(ops[..|ops| - 1], c), ops[|ops| - 1], c, d)
  {
    hide Inv, Step, EntryOf, EntryAfter;
    RunInv(ops[..|ops| - 1], c);
    StepInv(Run(ops[..|ops| - 1], c), ops[|ops| - 1], c, d);
  }

  /** The two agree on every field that both have. */
  ghost predicate Compatible(expected: Payload, observed: Payload) {
    forall field | field in expected && field in observed :: expected[field] == observed[field]
  }

  lemma CompatibleMeans(expected: Payload, observed: Payload)
    ensures Contradictions(expected, observed) == {} <==> Compatible(expected, observed)
    ensures forall field :: field in Contradictions(expected, observed)
              <==> field in expected && field in observed && expected[field] != observed[field]
  {
    if Compatible(expected, observed) {
      assert forall field :: field !in Contradictions(expected, observed);
    }
    forall field | field in expected && field in observed && expected[field] != observed[field]
      ensures field in Contradictions(expected, observed)
    {
    }
  }

  /**
   What a lookup that finds an entry decides: it hits, and keeps the entry, if and only if every field in both the
   stored expectation and the observation has the same value. Otherwise it answers with exactly the fields that
   differ, the entry is gone, and its key is quarantined.
   */
  lemma LookupDecides(s: State, key: Key, observed: Payload, c: Config)
    requires Inv(s, c) && c.digest(key) in s.entries.values && s.generation == Some(key.generation)
    ensures var d := c.digest(key);
            var e, step := s.entries.values[d], LookupStep(s, key, observed, c);
            && (step.1 == Hit(e.decision) <==> Compatible(e.expectation, observed))
            && (Compatible(e.expectation, observed) ==> step.0.entries.values == s.entries.values)
            && (!Compatible(e.expectation, observed) ==>
                  && step.1.Contradicted?
                  && (forall field :: field in step.1.fields
                        <==> field in e.expectation && field in observed && e.expectation[field] != observed[field])
                  && d !in step.0.entries.values
                  && d in step.0.quarantined.values && step.0.quarantined.values[d] == TelemetryContradiction)
  {
    hide Contradictions, Compatible, Store.Remember, Current, NoRepeats;
    var d := c.digest(key);
    CompatibleMeans(s.entries.values[d].expectation, observed);
    RememberValid(s.quarantined, d, TelemetryContradiction, c.max);
    PopValid(s.entries, d);
  }

  /**
   In every run, a lookup hits exactly when its digest has a latest store of its generation whose expectation agrees
   with the observation on every field that both have; and it returns that store's decision.
   */
  lemma HitIsLatestStore(ops: seq<Operation>, c: Config, key: Key, observed: Payload)
    requires c.max > 0
    ensures var r, outcome := LatestStore(ops, c, c.digest(key)), LookupStep(Run(ops, c), key, observed, c).1;
            && (outcome.Hit? <==> r.Some? && ops[r.value].key.generation == key.generation
                                  && Compatible(ops[r.value].expected, observed))
            && (outcome.Hit? ==> outcome.decision == ops[r.value].decision)
  {
    hide Contradictions, Compatible, LatestStore, Run, NoRepeats;
    EntryIsLatestStore(ops, c, c.digest(key));
    RunInv(ops, c);
    var r := LatestStore(ops, c, c.digest(key));
    if r.Some? {
      CompatibleMeans(ops[r.value].expected, observed);
    }
  }

  /** Two keys have the same value in a dimension, or both none. */
  ghost predicate SameIn(a: Key, b: Key, x: Dimension) {
    if x in a.dimensions then x in b.dimensions && a.dimensions[x] == b.dimensions[x] else x !in b.dimensions
  }

  lemma DriftedMeans(a: Key, b: Key, dimensions: seq<Dimension>)
    ensures HasDrifted(a, b, dimensions)
            <==> && a.generation == b.generation && (forall x | x !in dimensions :: SameIn(a, b, x))
                 && exists x | x in dimensions :: !SameIn(a, b, x)
  {
    forall x ensures x in AllDimensions() {
      EveryDimension(x);
    }
    hide AllDimensions;
  }

  lemma EveryDimension(x: Dimension)
    ensures x in AllDimensions()
  {
    match x
    case ModelDigest => assert AllDimensions()[0] == x;
    case ArtifactDigest => assert AllDimensions()[1] == x;
    case QuantDigest => assert AllDimensions()[2] == x;
    case TokenizerTemplate => assert AllDimensions()[3] == x;
    case BackendVersion => assert AllDimensions()[4] == x;
    case HardwareTopology => assert AllDimensions()[5] == x;
    case DevicePlacement => assert AllDimensions()[6] == x;
    case ContextPressure => assert AllDimensions()[7] == x;
    case WorkloadClass => assert AllDimensions()[8] == x;
    case ConcurrencyBucket => assert AllDimensions()[9] == x;
    case PolicyVersion => assert AllDimensions()[10] == x;
  }

  /**
   What a drift drops: exactly the entries of the key's generation that equal it in every dimension not listed and
   differ from it in one that is; the list has to name a dimension, and none twice.
   */
  lemma DriftDropsIff(s: State, key: Key, dimensions: seq<Dimension>, reason: Reason, c: Config, d: string)
    requires Inv(s, c) && d in s.entries.values
    ensures var e, step := s.entries.values[d], DriftStep(s, key, dimensions, reason, c);
            && (d in step.0.entries.values ==> step.0.entries.values[d] == e)
            && (d !in step.0.entries.values
                <==> && dimensions != [] && (forall i, j | 0 <= i < j < |dimensions| :: dimensions[i] != dimensions[j])
                     && e.key.generation == key.generation
                     && (forall x | x !in dimensions :: SameIn(e.key, key, x))
                     && exists x | x in dimensions :: !SameIn(e.key, key, x))
  {
    hide HasDrifted, RememberAll, PopAll, SameIn, NoRepeats;
    DriftedMeans(s.entries.values[d].key, key, dimensions);
    var victims := Victims(s.entries, s.entries.order, key, dimensions);
    PopAllValid(s.entries, victims);
  }

  /** A drift over no dimension, or with one listed twice, is refused and changes nothing. */
  lemma DriftRefused(s: State, key: Key, dimensions: seq<Dimension>, reason: Reason, c: Config)
    ensures var step := DriftStep(s, key, dimensions, reason, c);
            && (step.1 == Rejected
                <==> |dimensions| == 0 || exists i, j :: 0 <= i < j < |dimensions| && dimensions[i] == dimensions[j])
            && (step.1 == Rejected ==> step.0 == s)
  {
    hide Victims, PopAll, RememberAll;
  }

  /** How a lookup answers where there is no entry: what blocks the key, why its entry went, or that there was none. */
  lemma LookupWithout(s: State, key: Key, observed: Payload, c: Config)
    ensures var d, outcome := c.digest(key), LookupStep(s, key, observed, c).1;
            && (s.generation == None ==> outcome == Missed(GenerationUninitialized))
            && (s.generation != None && s.generation != Some(key.generation) ==> outcome == Missed(GenerationMismatch))
            && (s.generation == Some(key.generation) && d !in s.entries.values ==>
                  outcome == if d in s.disabled.values then Blocked(s.disabled.values[d])
                             else if d in s.quarantined.values then Blocked(s.quarantined.values[d])
                             else if d in s.invalidations.values then Missed(s.invalidations.values[d])
                             else Missed(EntryMissing))
  {
    hide Contradictions, Store.Remember, Store.MoveToEnd, Store.Pop;
  }

  /** Activating the active generation changes nothing; another one drops every entry and block, and says which. */
  lemma ActivationMeans(s: State, generation: string, c: Config)
    requires Inv(s, c)
    ensures var (after, outcome) := ActivateStep(s, generation, c);
            && (outcome == Unchanged <==> s.generation == Some(generation))
            && (outcome == Unchanged ==> after == s)
            && (outcome != Unchanged ==>
                  && after.generation == Some(generation) && after.entries.values.Keys == {}
                  && after.quarantined.values.Keys == {} && after.disabled.values.Keys == {}
                  && outcome.Activated? && Sorted(StringLe, outcome.dropped)
                  && multiset(outcome.dropped) == multiset(s.entries.order)
                  && after.metrics == s.metrics.(invalidations := s.metrics.invalidations + |s.entries.order|))
  {
    hide Sort, RememberAll, StringLe, NoRepeats, Current;
    StringLeOrders();
    SortSorts(StringLe, s.entries.order);
    SortKeeps(StringLe, s.entries.order);
    assert |multiset(Sort(StringLe, s.entries.order))| == |Sort(StringLe, s.entries.order)|;
  }

  /** The three removals answer whether there was an entry, which is gone, and remember why in their own store. */
  lemma RemovalsMean(s: State, key: Key, reason: Reason, c: Config)
    requires Inv(s, c)
    ensures var d := c.digest(key);
            var i, q, x := InvalidateStep(s, key, reason, c), QuarantineStep(s, key, reason, c),
                           DisableStep(s, key, reason, c);
            && i.1 == q.1 == x.1 == Removed(d in s.entries.values)
            && d !in i.0.entries.values && d !in q.0.entries.values && d !in x.0.entries.values
            && d in i.0.invalidations.values && i.0.invalidations.values[d] == reason
            && d in q.0.quarantined.values && q.0.quarantined.values[d] == reason
            && d in x.0.disabled.values && x.0.disabled.values[d] == reason
            && q.0.invalidations == x.0.invalidations == s.invalidations
            && i.0.quarantined == x.0.quarantined == s.quarantined && i.0.disabled == q.0.disabled == s.disabled
  {
    hide Store.Remember, Current, NoRepeats;
    var d := c.digest(key);
    RememberValid(s.invalidations, d, reason, c.max);
    RememberValid(s.quarantined, d, reason, c.max);
    RememberValid(s.disabled, d, reason, c.max);
    PopValid(s.entries, d);
  }

  // ---------- Least recently used ----------

  /** The digest that the operation stores or hits. */
  ghost function Used(s: State, op: Operation, c: Config): Option<string> {
    if op.Put? && !Refuses(s, op, c) then Some(c.digest(op.key))
    else if op.Lookup? && LookupStep(s, op.key, op.observed, c).1.Hit? then Some(c.digest(op.key))
    else None
  }

  /** When `d` was last stored or hit; -1 if never. */
  ghost function LastUse(ops: seq<Operation>, c: Config, d: string): (t: int)
    ensures -1 <= t < |ops|
  {
    if ops == [] then -1
    else
      var n := |ops| - 1;
      if Used(Run(ops[..n], c), ops[n], c) == Some(d) then n else LastUse(ops[..n], c, d)
  }

  /** The key order is the order of last use. */
  ghost predicate ByLastUse(order: seq<string>, ops: seq<Operation>, c: Config) {
    forall p, q | 0 <= p < q < |order| :: LastUse(ops, c, order[p]) < LastUse(ops, c, order[q])
  }

  lemma {:induction false} WithoutByLastUse(order: seq<string>, d: string, ops: seq<Operation>, c: Config)
    requires ByLastUse(order, ops, c)
    ensures ByLastUse(Without(order, d), ops, c)
  {
    hide Run, Used;
    if order != [] {
      WithoutByLastUse(order[1..], d, ops, c);
      forall e | e in order[1..] ensures LastUse(ops, c, order[0]) < LastUse(ops, c, e) {
        var q :| 0 <= q < |order[1..]| && order[1..][q] == e;
        assert order[q + 1] == e;
      }
    }
  }

  lemma {:induction false} PopAllByLastUse(entries: Store<Entry>, digests: seq<string>, ops: seq<Operation>, c: Config)
    requires ByLastUse(entries.order, ops, c)
    ensures ByLastUse(PopAll(entries, digests).order, ops, c)
    decreases |digests|
  {
    hide ByLastUse;
    if digests != [] {
      WithoutByLastUse(entries.order, digests[0], ops, c);
      PopAllByLastUse(entries.Pop(digests[0]), digests[1..], ops, c);
    }
  }

  /** An order by last use, apart from the key in use, which comes last. */
  ghost predicate Ordered(order: seq<string>, used: Option<string>, ops: seq<Operation>, c: Config) {
    if used.None? then ByLastUse(order, ops, c)
    else
      && order != [] && order[|order| - 1] == used.value
      && ByLastUse(order[..|order| - 1], ops, c) && used.value !in order[..|order| - 1]
  }

  /** The order after `op`: some of the old keys, then the used one. */
  lemma OrderAfter(s: State, op: Operation, c: Config, ops: seq<Operation>)
    requires Inv(s, c) && ByLastUse(s.entries.order, ops, c)
    ensures Ordered(Step(s, op, c).0.entries.order, Used(s, op, c), ops, c)
  {
    hide *;
    match op
    case Put(_, _, _) =>
      PutOrRefused(s, op, c, ops);
    case Drift(_, _, _) =>
      DriftOrder(s, op, c, ops);
    case Activate(_) =>
      ActivateOrder(s, op, c, ops);
    case Lookup(_, _) =>
      LookupOrder(s, op, c, ops);
    case _ =>
      DropOrder(s, op, c, ops);
  }

  lemma PutOrRefused(s: State, op: Operation, c: Config, ops: seq<Operation>)
    requires Inv(s, c) && ByLastUse(s.entries.order, ops, c) && op.Put?
    ensures Ordered(Step(s, op, c).0.entries.order, Used(s, op, c), ops, c)
  {
    if Refuses(s, op, c) {
    } else {
      PutOrder(s, op, c, ops);
      UsedByPut(s, op, c);
    }
  }

  lemma UsedByPut(s: State, op: Operation, c: Config)
    requires op.Put? && !Refuses(s, op, c)
    ensures Used(s, op, c) == Some(c.digest(op.key))
    ensures Step(s, op, c).0 == PutStep(s, op.key, op.decision, op.expected, c).0
  {
    hide PutStep, Refuses;
  }

  lemma DriftOrder(s: State, op: Operation, c: Config, ops: seq<Operation>)
    requires ByLastUse(s.entries.order, ops, c) && op.Drift?
    ensures Ordered(Step(s, op, c).0.entries.order, Used(s, op, c), ops, c)
  {
    hide ByLastUse, HasDrifted, Victims, PopAll, RememberAll, ValidDrift, Refuses, LookupStep;
    PopAllByLastUse(s.entries, Victims(s.entries, s.entries.order, op.key, op.dimensions), ops, c);
  }

  lemma ActivateOrder(s: State, op: Operation, c: Config, ops: seq<Operation>)
    requires ByLastUse(s.entries.order, ops, c) && op.Activate?
    ensures Ordered(Step(s, op, c).0.entries.order, Used(s, op, c), ops, c)
  {
    hide LastUse, RememberAll, Refuses, LookupStep;
  }

  lemma DropOrder(s: State, op: Operation, c: Config, ops: seq<Operation>)
    requires ByLastUse(s.entries.order, ops, c) && (op.Invalidate? || op.Quarantine? || op.Disable?)
    ensures Ordered(Step(s, op, c).0.entries.order, Used(s, op, c), ops, c)
  {
    hide ByLastUse, Without, Touch, Trim, LookupStep, Refuses;
    WithoutByLastUse(s.entries.order, c.digest(op.key), ops, c);
  }

  lemma LookupOrder(s: State, op: Operation, c: Config, ops: seq<Operation>)
    requires ByLastUse(s.entries.order, ops, c) && op.Lookup?
    ensures Ordered(Step(s, op, c).0.entries.order, Used(s, op, c), ops, c)
  {
    hide Without;
    var kept := Without(s.entries.order, c.digest(op.key));
    WithoutByLastUse(s.entries.order, c.digest(op.key), ops, c);
    assert (kept + [c.digest(op.key)])[..|kept|] == kept;
  }

  /** Storing leaves some of the old keys in their order, then the stored one. */
  lemma StoreOrder(s: State, op: Operation, c: Config)
    requires Inv(s, c) && op.Put?
    ensures var t, d := StoreEntry(s, op.key, op.decision, op.expected, c).0.entries.order, c.digest(op.key);
            var kept := Without(s.entries.order, d);
            t == kept + [d] || (kept != [] && t == kept[1..] + [d])
  {
    hide Without;
    var d := c.digest(op.key);
    PopValid(s.invalidations, d);
    var entry := Entry(op.key, op.decision, op.expected);
    FullOrder(s.entries, d, entry);
    var stored := s.entries.Pop(d).PutLast(d, entry);
    EvictOne(stored, s.invalidations.Pop(d), c.max);
    var kept := Without(s.entries.order, d);
    assert Without(kept, d) == kept;
    assert stored.order == kept + [d];
    if kept != [] {
      assert stored.order[1..] == kept[1..] + [d];
    }
  }

  lemma OrderedBehind(kept: seq<string>, d: string, ops: seq<Operation>, c: Config)
    requires ByLastUse(kept, ops, c) && d !in kept
    ensures Ordered(kept + [d], Some(d), ops, c)
    ensures kept != [] ==> Ordered(kept[1..] + [d], Some(d), ops, c)
  {
    hide LastUse;
    assert (kept + [d])[..|kept|] == kept;
    if kept != [] {
      assert (kept[1..] + [d])[..|kept| - 1] == kept[1..];
    }
  }

  lemma EnterOrder(s: State, generation: string, c: Config, ops: seq<Operation>)
    requires ByLastUse(s.entries.order, ops, c)
    ensures ByLastUse(EnterGeneration(s, generation, c.max).entries.order, ops, c)
  {
    hide LastUse, RememberAll;
  }

  lemma PutStores(s: State, op: Operation, c: Config)
    requires op.Put? && !Refuses(s, op, c)
    ensures PutStep(s, op.key, op.decision, op.expected, c)
            == StoreEntry(EnterGeneration(s, op.key.generation, c.max), op.key, op.decision, op.expected, c)
  {
    hide StoreEntry, RememberAll;
  }

  lemma PutOrder(s: State, op: Operation, c: Config, ops: seq<Operation>)
    requires Inv(s, c) && ByLastUse(s.entries.order, ops, c) && op.Put? && !Refuses(s, op, c)
    ensures Ordered(PutStep(s, op.key, op.decision, op.expected, c).0.entries.order, Some(c.digest(op.key)), ops, c)
  {
    hide *;
    var d, s1 := c.digest(op.key), EnterGeneration(s, op.key.generation, c.max);
    EnterInv(s, op.key.generation, c);
    EnterOrder(s, op.key.generation, c, ops);
    PutStores(s, op, c);
    StoreOrder(s1, op, c);
    WithoutByLastUse(s1.entries.order, d, ops, c);
    OrderedBehind(Without(s1.entries.order, d), d, ops, c);
  }

  /** Using a key at time `n` puts it behind every other. */
  lemma UseStep(t: seq<string>, ops: seq<Operation>, c: Config)
    requires ops != []
    requires Ordered(t, Used(Run(ops[..|ops| - 1], c), ops[|ops| - 1], c), ops[..|ops| - 1], c)
    ensures ByLastUse(t, ops, c)
  {
    hide Used, Run;
    var n := |ops| - 1;
    if Used(Run(ops[..n], c), ops[n], c).Some? {
      var kept := t[..|t| - 1];
      forall p, q | 0 <= p < q < |t| ensures LastUse(ops, c, t[p]) < LastUse(ops, c, t[q]) {
        assert t[p] == kept[p] && kept[p] in kept;
        if q < |kept| {
          assert t[q] == kept[q] && kept[q] in kept;
        }
      }
    }
  }

  /** In every run the entries are in order of last use, so the first one, which eviction removes, is the oldest. */
  lemma {:induction false} LeastRecentFirst(ops: seq<Operation>, c: Config)
    requires c.max > 0
    ensures ByLastUse(Run(ops, c).entries.order, ops, c)
  {
    if ops == [] {
      assert Initial().entries.order == [];
    } else {
      var n := |ops| - 1;
      LeastRecentFirst(ops[..n], c);
      RunInv(ops[..n], c);
      OrderAfter(Run(ops[..n], c), ops[n], c, ops[..n]);
      UseStep(Run(ops, c).entries.order, ops, c);
    }
  }

  /** Every eviction of every run removes the entry that was stored or hit longest ago. */
  lemma EvictionIsLeastRecent(ops: seq<Operation>, c: Config, op: Operation, d: string, e: string)
    requires c.max > 0 && Evicts(Run(ops, c), op, c, d) && e in Run(ops, c).entries.values && e != d
    ensures d in Run(ops, c).entries.values && d !in Step(Run(ops, c), op, c).0.entries.values
    ensures LastUse(ops, c, d) < LastUse(ops, c, e)
  {
    hide Current, Disjoint, Run;
    RunInv(ops, c);
    StepInv(Run(ops, c), op, c, d);
    LeastRecentFirst(ops, c);
    var order := Run(ops, c).entries.order;
    var q :| 0 <= q < |order| && order[q] == e;
  }

  // ---------- How long a quarantine or a disable lasts ----------

  ghost function NextQuarantineLog(s: State, op: Operation, c: Config, log: seq<string>): seq<string> {
    if Switches(s, op) then []
    else if op.Activate? then log
    else if op.Quarantine? || Contradicts(s, op, c, c.digest(op.key)) then log + [c.digest(op.key)]
    else log
  }

  ghost function NextDisableLog(s: State, op: Operation, c: Config, log: seq<string>): seq<string> {
    if Switches(s, op) then [] else if op.Disable? then log + [c.digest(op.key)] else log
  }

  /** The digests remembered as quarantined, oldest first, since the last switch of generation. */
  ghost function QuarantineLog(ops: seq<Operation>, c: Config): seq<string> {
    if ops == [] then []
    else
      var n := |ops| - 1;
      NextQuarantineLog(Run(ops[..n], c), ops[n], c, QuarantineLog(ops[..n], c))
  }

  /** The same for the digests disabled. */
  ghost function DisableLog(ops: seq<Operation>, c: Config): seq<string> {
    if ops == [] then []
    else
      var n := |ops| - 1;
      NextDisableLog(Run(ops[..n], c), ops[n], c, DisableLog(ops[..n], c))
  }

  /** Logged, and fewer than `max` other digests have been logged since. */
  ghost predicate Retained(log: seq<string>, d: string, max: nat) {
    d in log && |Since(log, d)| < max
  }

  lemma RememberedSnoc(log: seq<string>, d: string, max: nat)
    ensures Remembered(log + [d], max) == Trim(Touch(Remembered(log, max), d), max)
  {
    assert (log + [d])[..|log|] == log;
  }

  /** What `op` does to the orders of the two blocking stores. */
  ghost predicate BlockRule(s: State, op: Operation, c: Config, t: State) {
    var d := if op.Activate? then "" else c.digest(op.key);
    && t.quarantined.order
       == (if Switches(s, op) then []
           else if op.Quarantine? || Contradicts(s, op, c, d) then Trim(Touch(s.quarantined.order, d), c.max)
           else s.quarantined.order)
    && t.disabled.order
       == (if Switches(s, op) then []
           else if op.Disable? then Trim(Touch(s.disabled.order, d), c.max)
           else s.disabled.order)
  }

  lemma BlockStepPut(s: State, op: Operation, c: Config)
    requires Inv(s, c) && op.Put?
    ensures BlockRule(s, op, c, Step(s, op, c).0)
  {
    hide RememberAll, Trim, Touch, StoreEntry, Inv, Bounded, Overflows;
    EnterInv(s, op.key.generation, c);
    StoreEntryShape(EnterGeneration(s, op.key.generation, c.max), op, c);
  }

  lemma BlockStepLookup(s: State, op: Operation, c: Config)
    requires Inv(s, c) && op.Lookup?
    ensures BlockRule(s, op, c, Step(s, op, c).0)
  {
    hide Trim, Store.Valid, Touch, Current, Contradictions;
    var d := c.digest(op.key);
    RememberedOrder(s.quarantined, d, TelemetryContradiction, c.max);
    assert d in s.entries.values ==> d !in s.quarantined.values && d !in s.disabled.values;
  }

  lemma BlockStepRemember(s: State, op: Operation, c: Config)
    requires Inv(s, c) && (op.Quarantine? || op.Disable?)
    ensures BlockRule(s, op, c, Step(s, op, c).0)
  {
    RememberedOrder(s.quarantined, c.digest(op.key), op.reason, c.max);
    RememberedOrder(s.disabled, c.digest(op.key), op.reason, c.max);
  }

  lemma RememberedOrder(store: Store<Reason>, d: string, reason: Reason, max: nat)
    requires Bounded(store, max) && max > 0
    ensures store.Remember(d, reason, max).order == Trim(Touch(store.order, d), max)
  {
    RememberValid(store, d, reason, max);
  }

  lemma BlockStep(s: State, op: Operation, c: Config)
    requires Inv(s, c)
    ensures BlockRule(s, op, c, Step(s, op, c).0)
  {
    hide Touch, ValidDrift;
    match op
    case Put(_, _, _) => BlockStepPut(s, op, c);
    case Lookup(_, _) => BlockStepLookup(s, op, c);
    case Quarantine(_, _) => BlockStepRemember(s, op, c);
    case Disable(_, _) => BlockStepRemember(s, op, c);
    case _ => hide RememberAll, Victims, HasDrifted, PopAll, Touch, Inv;
  }

  lemma BlockOrdersStep(s: State, op: Operation, c: Config, quarantined: seq<string>, disabled: seq<string>)
    requires Inv(s, c)
    requires s.quarantined.order == Remembered(quarantined, c.max) && s.disabled.order == Remembered(disabled, c.max)
    ensures var t := Step(s, op, c).0;
            && t.quarantined.order == Remembered(NextQuarantineLog(s, op, c, quarantined), c.max)
            && t.disabled.order == Remembered(NextDisableLog(s, op, c, disabled), c.max)
  {
    hide Step, Contradictions, Remembered, Inv, Trim, Touch;
    BlockStep(s, op, c);
    EmptyRemembered(c.max);
    if !op.Activate? {
      RememberedSnoc(quarantined, c.digest(op.key), c.max);
      RememberedSnoc(disabled, c.digest(op.key), c.max);
    }
  }

  lemma {:induction false} BlockOrders(ops: seq<Operation>, c: Config)
    requires c.max > 0
    ensures Run(ops, c).quarantined.order == Remembered(QuarantineLog(ops, c), c.max)
    ensures Run(ops, c).disabled.order == Remembered(DisableLog(ops, c), c.max)
  {
    hide Step, Remembered, Inv, NextQuarantineLog, NextDisableLog;
    if ops != [] {
      var n := |ops| - 1;
      RunInv(ops[..n], c);
      BlockOrders(ops[..n], c);
      BlockOrdersStep(Run(ops[..n], c), ops[n], c, QuarantineLog(ops[..n], c), DisableLog(ops[..n], c));
    } else {
      EmptyRemembered(c.max);
    }
  }

  lemma EmptyRemembered(max: nat)
    ensures Remembered([], max) == []
  {
  }

  /**
   How long a block lasts, exactly: in every run a put of the active generation is refused, and a lookup
   blocked, if and only if the digest was quarantined or disabled since the last switch of generation and
   fewer than `max` other digests have entered that store since.
   */
  lemma BlockedIffRetained(ops: seq<Operation>, c: Config, key: Key, decision: Payload, expected: Payload,
                           observed: Payload)
    requires c.max > 0 && Run(ops, c).generation == Some(key.generation)
    ensures var d, s := c.digest(key), Run(ops, c);
            var blocked := Retained(QuarantineLog(ops, c), d, c.max) || Retained(DisableLog(ops, c), d, c.max);
            && (PutStep(s, key, decision, expected, c).1.Blocked? <==> blocked)
            && (LookupStep(s, key, observed, c).1.Blocked? <==> blocked)
            && (blocked ==> !LookupStep(s, key, observed, c).1.Hit?)
  {
    hide Remembered, Store.Pop, Store.PutLast, Current, Evict, ClearGeneration, Run;
    BlockOrders(ops, c);
    BoundedMemory(QuarantineLog(ops, c), c.digest(key), c.max);
    BoundedMemory(DisableLog(ops, c), c.digest(key), c.max);
    RunInv(ops, c);
  }

  /**
   The promise that a quarantine blocks reuse until the generation changes fails once the bounded store
   forgets it: with capacity 1 a second quarantine lets the first key be stored and hit again.
   */
  lemma QuarantineCanBeForgotten(c: Config, first: Key, second: Key, reason: Reason, decision: Payload)
    requires c.max == 1 && first.generation == second.generation && c.digest(first) != c.digest(second)
    ensures var ops := [Activate(first.generation), Quarantine(first, reason), Quarantine(second, reason),
                        Put(first, decision, map[])];
            LookupStep(Run(ops, c), first, map[], c).1 == Hit(decision)
  {
    hide Run, Step, Inv, LatestStore, LookupStep, Ends;
    var g, d := first.generation, c.digest(first);
    var ops := [Activate(g), Quarantine(first, reason), Quarantine(second, reason), Put(first, decision, map[])];
    RunStep(ops, 0, c);
    RunStep(ops, 1, c);
    RunStep(ops, 2, c);
    RunInv(ops[..1], c);
    RunInv(ops[..2], c);
    assert ops[..3][..3] == ops[..3] && ops[..4] == ops;
    AfterActivation(c, g);
    SecondQuarantine(c, Run(ops[..1], c), first, second, reason);
    LatestStoreLast(ops, c, d);
    HitIsLatestStore(ops, c, first, map[]);
  }

  lemma AfterActivation(c: Config, g: string)
    ensures var s := Step(Initial(), Activate(g), c).0; s.generation == Some(g) && s.disabled.values == map[]
  {
  }

  /** With capacity 1 the second quarantine pushes the first one out. */
  lemma SecondQuarantine(c: Config, s: State, first: Key, second: Key, reason: Reason)
    requires c.max == 1 && Inv(s, c) && s.generation == Some(first.generation) && s.disabled.values == map[]
    requires first.generation == second.generation && c.digest(first) != c.digest(second)
    requires Inv(Step(s, Quarantine(first, reason), c).0, c)
    ensures var s2 := Step(s, Quarantine(first, reason), c).0;
            var s3 := Step(s2, Quarantine(second, reason), c).0;
            && s3.generation == Some(first.generation)
            && c.digest(first) !in s3.quarantined.values && c.digest(first) !in s3.disabled.values
  {
    hide Bounded;
    var s2 := Step(s, Quarantine(first, reason), c).0;
    assert Bounded(s.quarantined, 1) && Bounded(s2.quarantined, 1);
    OneSlot(s.quarantined, c.digest(first), c.digest(second), reason);
  }

  lemma OneSlot(store: Store<Reason>, d: string, e: string, reason: Reason)
    requires Bounded(store, 1) && d != e
    ensures d !in store.Remember(d, reason, 1).Remember(e, reason, 1).values
  {
    hide NoRepeats;
    RememberValid(store, d, reason, 1);
    var next := store.Remember(d, reason, 1);
    RememberValid(next, e, reason, 1);
    assert next.Remember(e, reason, 1).order == [e];
  }

  lemma RunStep(ops: seq<Operation>, n: nat, c: Config)
    requires n < |ops|
    ensures Run(ops[..n + 1], c) == Step(Run(ops[..n], c), ops[n], c).0 && Run(ops[..0], c) == Initial()
  {
    hide Step;
    assert ops[..n + 1][..n] == ops[..n];
  }

  lemma LatestStoreLast(ops: seq<Operation>, c: Config, d: string)
    requires ops != [] && Stores(Run(ops[..|ops| - 1], c), ops[|ops| - 1], c, d)
    ensures LatestStore(ops, c, d) == Some(|ops| - 1)
  {
  }

  // ---------- Accounting ----------

  /** What the metrics do not record. */
  datatype Tally = Tally(lookups: nat, refused: nat, contradictions: nat, replacements: nat)

  function Count(t: Tally, op: Operation, outcome: Outcome): Tally {
    Tally(t.lookups + if op.Lookup? then 1 else 0,
          t.refused + if op.Put? && outcome.Blocked? then 1 else 0,
          t.contradictions + if outcome.Contradicted? then 1 else 0,
          t.replacements + if outcome.Stored? && outcome.replacing then 1 else 0)
  }

  function RunTally(ops: seq<Operation>, c: Config): Tally {
    if ops == [] then Tally(0, 0, 0, 0)
    else
      var n := |ops| - 1;
      Count(RunTally(ops[..n], c), ops[n], Step(Run(ops[..n], c), ops[n], c).1)
  }

  ghost predicate Balanced(s: State, t: Tally) {
    && s.metrics.stores == |s.entries.order| + s.metrics.evictions + s.metrics.invalidations + t.replacements
    && s.metrics.hits + s.metrics.misses + t.contradictions == t.lookups + t.refused
  }

  lemma {:induction false} VictimsNoRepeats(entries: Store<Entry>, order: seq<string>, key: Key,
                                            drifted: seq<Dimension>)
    requires NoRepeats(order)
    ensures NoRepeats(Victims(entries, order, key, drifted))
  {
    hide HasDrifted;
    if order != [] {
      VictimsNoRepeats(entries, order[1..], key, drifted);
      assert order[0] !in order[1..];
    }
  }

  lemma {:induction false} PopAllCount(entries: Store<Entry>, digests: seq<string>)
    requires entries.Valid() && NoRepeats(digests) && forall d | d in digests :: d in entries.values
    ensures |PopAll(entries, digests).order| + |digests| == |entries.order|
    decreases |digests|
  {
    if digests != [] {
      PopValid(entries, digests[0]);
      assert digests[0] !in digests[1..];
      PopAllCount(entries.Pop(digests[0]), digests[1..]);
    }
  }

  lemma StoreBalanced(s: State, op: Operation, c: Config, t: Tally)
    requires Inv(s, c) && Balanced(s, t) && op.Put?
    ensures var r := StoreEntry(s, op.key, op.decision, op.expected, c);
            Balanced(r.0, t.(replacements := t.replacements + if r.1.replacing then 1 else 0))
  {
    hide Evict, NoRepeats;
    var e := c.digest(op.key);
    PopValid(s.invalidations, e);
    EvictShape(s.entries, e, Entry(op.key, op.decision, op.expected), s.invalidations.Pop(e), c.max);
  }

  lemma LookupBalanced(s: State, op: Operation, c: Config, t: Tally)
    requires Inv(s, c) && Balanced(s, t) && op.Lookup?
    ensures Balanced(Step(s, op, c).0, Count(t, op, Step(s, op, c).1))
  {
    hide Contradictions, Store.Valid, Disjoint, ActivateStep, DriftStep, PutStep, Current;
    PopValid(s.entries, c.digest(op.key));
    if c.digest(op.key) in s.entries.values {
      MoveToEndValid(s.entries, c.digest(op.key));
    }
  }

  lemma StepBalanced(s: State, op: Operation, c: Config, t: Tally)
    requires Inv(s, c) && Balanced(s, t)
    ensures Balanced(Step(s, op, c).0, Count(t, op, Step(s, op, c).1))
  {
    hide StoreEntry, LookupStep, Empty, DriftStep, RememberAll, NoRepeats, Bounded, Contradictions, Current,
         Disjoint, Evict, HasDrifted, Store.Pop;
    match op
    case Put(key, _, _) =>
      EnterInv(s, key.generation, c);
      StoreBalanced(EnterGeneration(s, key.generation, c.max), op, c, t);
      StoredOutcome(EnterGeneration(s, key.generation, c.max), op, c);
    case Lookup(_, _) => LookupBalanced(s, op, c, t);
    case Drift(_, _, _) => DriftBalanced(s, op, c, t);
    case Activate(_) =>
    case _ => DropBalanced(s, op, c, t);
  }

  lemma DropBalanced(s: State, op: Operation, c: Config, t: Tally)
    requires Inv(s, c) && Balanced(s, t) && (op.Invalidate? || op.Quarantine? || op.Disable?)
    ensures Balanced(Step(s, op, c).0, Count(t, op, Step(s, op, c).1))
  {
    hide NoRepeats, Disjoint, Current;
    PopValid(s.entries, c.digest(op.key));
  }

  lemma DriftBalanced(s: State, op: Operation, c: Config, t: Tally)
    requires Inv(s, c) && Balanced(s, t) && op.Drift?
    ensures Balanced(Step(s, op, c).0, Count(t, op, Step(s, op, c).1))
  {
    hide Victims, ValidDrift, Current, RememberAll;
    if ValidDrift(op.dimensions) {
      var victims := Victims(s.entries, s.entries.order, op.key, op.dimensions);
      VictimsNoRepeats(s.entries, s.entries.order, op.key, op.dimensions);
      PopAllCount(s.entries, victims);
    }
  }

  lemma StoredOutcome(s: State, op: Operation, c: Config)
    requires op.Put?
    ensures StoreEntry(s, op.key, op.decision, op.expected, c).1.Stored?
    ensures StoreEntry(s, op.key, op.decision, op.expected, c).0.metrics.hits == s.metrics.hits
    ensures StoreEntry(s, op.key, op.decision, op.expected, c).0.metrics.misses == s.metrics.misses
  {
  }

  /**
   In every run each store is still there, was evicted, invalidated or replaced; and each lookup or refused put is
   counted once.
   */
  lemma {:induction false} RunBalanced(ops: seq<Operation>, c: Config)
    requires c.max > 0
    ensures Balanced(Run(ops, c), RunTally(ops, c))
  {
    hide Step, Inv;
    if ops != [] {
      var n := |ops| - 1;
      RunInv(ops[..n], c);
      RunBalanced(ops[..n], c);
      StepBalanced(Run(ops[..n], c), ops[n], c, RunTally(ops[..n], c));
    }
  }

  function QuarantineCalls(ops: seq<Operation>): nat {
    if ops == [] then 0
    else QuarantineCalls(ops[..|ops| - 1]) + if ops[|ops| - 1].Quarantine? then 1 else 0
  }

  function DisableCalls(ops: seq<Operation>): nat {
    if ops == [] then 0 else DisableCalls(ops[..|ops| - 1]) + if ops[|ops| - 1].Disable? then 1 else 0
  }

  lemma StepBlocks(s: State, op: Operation, c: Config)
    ensures var (after, outcome) := Step(s, op, c);
            && after.metrics.quarantines
               == s.metrics.quarantines + (if op.Quarantine? || outcome.Contradicted? then 1 else 0)
            && after.metrics.disabled == s.metrics.disabled + (if op.Disable? then 1 else 0)
            && (outcome.Contradicted? ==> op.Lookup?)
  {
    hide Evict, Contradictions, RememberAll, Victims, PopAll, ValidDrift, Sort;
  }

  /** In every run each quarantine counted was asked for or follows from a contradiction, and so for disablings. */
  lemma {:induction false} RunBlocks(ops: seq<Operation>, c: Config)
    ensures var s := Run(ops, c);
            && s.metrics.quarantines == QuarantineCalls(ops) + RunTally(ops, c).contradictions
            && s.metrics.disabled == DisableCalls(ops)
  {
    hide Step;
    if ops != [] {
      var n := |ops| - 1;
      RunBlocks(ops[..n], c);
      StepBlocks(Run(ops[..n], c), ops[n], c);
    }
  }

  // ---------- The class ----------

  lemma {:induction false} PopAllSnoc(entries: Store<Entry>, digests: seq<string>, d: string)
    ensures PopAll(entries, digests + [d]) == PopAll(entries, digests).Pop(d)
    decreases |digests|
  {
    if digests != [] {
      PopAllSnoc(entries.Pop(digests[0]), digests[1..], d);
      assert (digests + [d])[1..] == digests[1..] + [d];
    }
  }

  /** The digest alone, when its entry drifted. */
  function Victim(entries: Store<Entry>, d: string, key: Key, drifted: seq<Dimension>): seq<string> {
    if d in entries.values && HasDrifted(entries.values[d].key, key, drifted) then [d] else []
  }

  lemma VictimsCons(entries: Store<Entry>, d: string, order: seq<string>, key: Key, drifted: seq<Dimension>)
    ensures Victims(entries, [], key, drifted) == []
    ensures Victims(entries, [d] + order, key, drifted)
            == Victim(entries, d, key, drifted) + Victims(entries, order, key, drifted)
  {
    hide HasDrifted;
    assert ([d] + order)[1..] == order;
  }

  lemma {:induction false} VictimsSnoc(entries: Store<Entry>, order: seq<string>, d: string, key: Key,
                                       drifted: seq<Dimension>)
    ensures Victims(entries, order + [d], key, drifted)
            == Victims(entries, order, key, drifted) + Victim(entries, d, key, drifted)
  {
    hide Victims, Victim, HasDrifted;
    if order == [] {
      VictimsCons(entries, d, [], key, drifted);
      assert [] + [d] == [d] + [];
    } else {
      VictimsSnoc(entries, order[1..], d, key, drifted);
      VictimsCons(entries, order[0], order[1..], key, drifted);
      VictimsCons(entries, order[0], order[1..] + [d], key, drifted);
      assert order == [order[0]] + order[1..] && order + [d] == [order[0]] + (order[1..] + [d]);
    }
  }

  lemma NothingDropped(entries: Store<Entry>, reasons: Store<Reason>, key: Key, drifted: seq<Dimension>,
                       reason: Reason, max: nat)
    ensures Victims(entries, [], key, drifted) == [] && PopAll(entries, []) == entries
    ensures RememberAll(reasons, [], reason, max) == reasons
  {
  }

  lemma {:induction false} RememberAllSnoc(store: Store<Reason>, digests: seq<string>, d: string, reason: Reason,
                                           max: nat)
    ensures RememberAll(store, digests + [d], reason, max)
            == RememberAll(store, digests, reason, max).Remember(d, reason, max)
    decreases |digests|
  {
    if digests != [] {
      RememberAllSnoc(store.Remember(digests[0], reason, max), digests[1..], d, reason, max);
      assert (digests + [d])[1..] == digests[1..] + [d];
    }
  }

  /** Evicting on, after some were evicted. */
  function AfterEvicting(evicted: seq<string>, entries: Store<Entry>, invalidations: Store<Reason>, max: nat)
    : (Store<Entry>, Store<Reason>, seq<string>)
  {
    var rest := Evict(entries, invalidations, max);
    (rest.0, rest.1, evicted + rest.2)
  }

  lemma NothingEvicted(entries: Store<Entry>, invalidations: Store<Reason>, max: nat)
    ensures AfterEvicting([], entries, invalidations, max) == Evict(entries, invalidations, max)
  {
    var rest := Evict(entries, invalidations, max);
    assert [] + rest.2 == rest.2;
  }

  lemma EvictStep(evicted: seq<string>, entries: Store<Entry>, invalidations: Store<Reason>, max: nat)
    ensures |entries.order| <= max ==>
              AfterEvicting(evicted, entries, invalidations, max) == (entries, invalidations, evicted)
    ensures |entries.order| > max ==>
      var d := entries.order[0];
      AfterEvicting(evicted, entries, invalidations, max)
      == AfterEvicting(evicted + [d], entries.PopFirst(), invalidations.Remember(d, CapacityEviction, max), max)
  {
    if |entries.order| <= max {
      assert evicted + [] == evicted;
    } else {
      var d := entries.order[0];
      var rest := Evict(entries.PopFirst(), invalidations.Remember(d, CapacityEviction, max), max);
      assert evicted + ([d] + rest.2) == evicted + [d] + rest.2;
    }
  }

  lemma FirstActivation(c: Config, first: Option<string>)
    ensures Run([], c) == Initial()
    ensures first.Some? ==> Run([Activate(first.value)], c) == Initial().(generation := first)
  {
    if first.Some? {
      assert [Activate(first.value)][..0] == [];
      assert Sort(StringLe, Initial().entries.order) == [];
    }
  }

  class Cache {
    const config: Config
    var generation: Option<string>
    var entries: Store<Entry>
    var invalidations: Store<Reason>
    var quarantined: Store<Reason>
    var disabled: Store<Reason>
    var metrics: Metrics
    /** Every operation so far. */
    ghost var history: seq<Operation>

    ghost function Abstract(): State
      reads this
    {
      State(generation, entries, invalidations, quarantined, disabled, metrics)
    }

    ghost predicate Valid()
      reads this
    {
      config.max > 0 && Abstract() == Run(history, config)
    }

    /** A cache that is given a first generation is one that has activated it. */
    constructor (maxEntries: nat, digest: Key -> string, first: Option<string>)
      requires 1 <= maxEntries <= 4096
      ensures Valid() && config == Config(maxEntries, digest) && generation == first
      ensures history == if first.None? then [] else [Activate(first.value)]
    {
      config := Config(maxEntries, digest);
      generation, entries := first, Empty();
      invalidations, quarantined, disabled := Empty(), Empty(), Empty();
      metrics := Metrics(0, 0, 0, 0, 0, 0, 0);
      history := if first.None? then [] else [Activate(first.value)];
      new;
      FirstActivation(config, first);
      hide Run;
    }

    /** Appends `op` to the history of a cache whose fields have just become `Step`'s state. */
    ghost method Record(op: Operation, before: State)
      requires config.max > 0 && before == Run(history, config) && Abstract() == Step(before, op, config).0
      modifies this`history
      ensures Valid() && history == old(history) + [op]
    {
      hide Step;
      history := history + [op];
      assert history[..|history| - 1] == old(history);
    }

    /** `_remember`. */
    method Remember(store: Store<Reason>, d: string, reason: Reason) returns (r: Store<Reason>)
      ensures r == store.Remember(d, reason, config.max)
    {
      r := store.PutLast(d, reason);
      while |r.order| > config.max
        invariant r.TrimTo(config.max) == store.Remember(d, reason, config.max)
        decreases |r.order|
      {
        r := r.PopFirst();
      }
    }

    /** `_clear_generation_locked`. */
    method ClearGenerationLocked(newGeneration: string) returns (dropped: seq<string>)
      modifies this`generation, this`entries, this`invalidations, this`quarantined, this`disabled, this`metrics
      ensures Abstract() == ClearGeneration(old(Abstract()), newGeneration, config.max)
      ensures dropped == Sort(StringLe, old(entries.order))
    {
      hide Sort, Store.Remember;
      dropped := Sort(StringLe, entries.order);
      ghost var want := RememberAll(invalidations, dropped, GenerationAdvanced, config.max);
      for i := 0 to |dropped|
        invariant entries == old(entries) && metrics == old(metrics)
        invariant RememberAll(invalidations, dropped[i..], GenerationAdvanced, config.max) == want
      {
        assert dropped[i..][1..] == dropped[i + 1..];
        invalidations := Remember(invalidations, dropped[i], GenerationAdvanced);
      }
      entries, quarantined, disabled := Empty(), Empty(), Empty();
      generation := Some(newGeneration);
      metrics := metrics.(invalidations := metrics.invalidations + |dropped|);
    }

    method ActivateGeneration(newGeneration: string) returns (outcome: Outcome)
      requires Valid()
      modifies this
      ensures Valid() && history == old(history) + [Activate(newGeneration)]
      ensures outcome == ActivateStep(old(Abstract()), newGeneration, config).1
    {
      ghost var before := Abstract();
      if generation == Some(newGeneration) {
        outcome := Unchanged;
      } else {
        var dropped := ClearGenerationLocked(newGeneration);
        outcome := Activated(dropped);
      }
      Record(Activate(newGeneration), before);
    }

    /** The eviction loop of `put`. */
    method EvictOldest() returns (evicted: seq<string>)
      modifies this`entries, this`invalidations
      ensures (entries, invalidations, evicted) == Evict(old(entries), old(invalidations), config.max)
    {
      hide Evict, AfterEvicting;
      evicted := [];
      ghost var want := Evict(entries, invalidations, config.max);
      NothingEvicted(entries, invalidations, config.max);
      while |entries.order| > config.max
        invariant want == AfterEvicting(evicted, entries, invalidations, config.max)
        decreases |entries.order|
      {
        var d := entries.order[0];
        EvictStep(evicted, entries, invalidations, config.max);
        entries := entries.PopFirst();
        invalidations := Remember(invalidations, d, CapacityEviction);
        evicted := evicted + [d];
      }
      EvictStep(evicted, entries, invalidations, config.max);
    }

    method PutDecision(key: Key, decision: Payload, expected: Payload) returns (outcome: Outcome)
      requires Valid()
      modifies this
      ensures Valid() && history == old(history) + [Put(key, decision, expected)]
      ensures outcome == PutStep(old(Abstract()), key, decision, expected, config).1
    {
      hide Run, Sort, LookupStep, StoreEntry;
      ghost var before := Abstract();
      if generation.None? {
        generation := Some(key.generation);
      } else if generation != Some(key.generation) {
        var _ := ClearGenerationLocked(key.generation);
      }
      assert Abstract() == EnterGeneration(before, key.generation, config.max);
      var d := config.digest(key);
      if d in disabled.values {
        metrics := metrics.(misses := metrics.misses + 1);
        outcome := Blocked(disabled.values[d]);
      } else if d in quarantined.values {
        metrics := metrics.(misses := metrics.misses + 1);
        outcome := Blocked(quarantined.values[d]);
      } else {
        outcome := StoreLocked(key, decision, expected);
      }
      Record(Put(key, decision, expected), before);
    }

    /** The storing branch of `put`. */
    method StoreLocked(key: Key, decision: Payload, expected: Payload) returns (outcome: Outcome)
      modifies this`entries, this`invalidations, this`metrics
      ensures (Abstract(), outcome) == StoreEntry(old(Abstract()), key, decision, expected, config)
    {
      hide Evict, Touch, Without;
      var d := config.digest(key);
      var replacing := d in entries.values;
      entries := entries.Pop(d).PutLast(d, Entry(key, decision, expected));
      invalidations := invalidations.Pop(d);
      metrics := metrics.(stores := metrics.stores + 1);
      var evicted := EvictOldest();
      metrics := metrics.(evictions := metrics.evictions + |evicted|);
      outcome := Stored(replacing, evicted);
    }

    /** A hit returns the decision of the latest store of the digest, as `HitIsLatestStore` spells out. */
    method LookupDecision(key: Key, observed: Payload) returns (outcome: Outcome)
      requires Valid()
      modifies this
      ensures Valid() && history == old(history) + [Lookup(key, observed)]
      ensures outcome == LookupStep(old(Abstract()), key, observed, config).1
      ensures outcome.Hit? ==>
        var i := LatestStore(old(history), config, config.digest(key));
        i.Some? && outcome.decision == old(history)[i.value].decision
    {
      hide Run, Contradictions, Store.Pop, Store.Remember, Store.MoveToEnd, LatestStore, ActivateStep, PutStep;
      HitIsLatestStore(history, config, key, observed);
      ghost var before := Abstract();
      var d := config.digest(key);
      if generation.None? {
        metrics := metrics.(misses := metrics.misses + 1);
        outcome := Missed(GenerationUninitialized);
      } else if Some(key.generation) != generation {
        metrics := metrics.(misses := metrics.misses + 1);
        outcome := Missed(GenerationMismatch);
      } else if d in disabled.values {
        metrics := metrics.(misses := metrics.misses + 1);
        outcome := Blocked(disabled.values[d]);
      } else if d in quarantined.values {
        metrics := metrics.(misses := metrics.misses + 1);
        outcome := Blocked(quarantined.values[d]);
      } else if d !in entries.values {
        metrics := metrics.(misses := metrics.misses + 1);
        outcome := Missed(if d in invalidations.values then invalidations.values[d] else EntryMissing);
      } else {
        var entry := entries.values[d];
        var fields := Contradictions(entry.expectation, observed);
        if fields != {} {
          entries := entries.Pop(d);
          quarantined := Remember(quarantined, d, TelemetryContradiction);
          metrics := metrics.(invalidations := metrics.invalidations + 1, quarantines := metrics.quarantines + 1);
          outcome := Contradicted(fields);
        } else {
          entries := entries.MoveToEnd(d);
          metrics := metrics.(hits := metrics.hits + 1);
          outcome := Hit(entry.decision);
        }
      }
      Record(Lookup(key, observed), before);
    }

    method InvalidateKey(key: Key, reason: Reason) returns (outcome: Outcome)
      requires Valid()
      modifies this
      ensures Valid() && history == old(history) + [Invalidate(key, reason)]
      ensures outcome == InvalidateStep(old(Abstract()), key, reason, config).1
    {
      hide Run, LookupStep, DriftStep, Store.Pop, PutStep, Store.Remember;
      ghost var before := Abstract();
      var d := config.digest(key);
      var removed := d in entries.values;
      entries := entries.Pop(d);
      invalidations := Remember(invalidations, d, reason);
      if removed {
        metrics := metrics.(invalidations := metrics.invalidations + 1);
      }
      outcome := Removed(removed);
      Record(Invalidate(key, reason), before);
    }

    method InvalidateDrift(key: Key, dimensions: seq<Dimension>, reason: Reason) returns (outcome: Outcome)
      requires Valid()
      modifies this
      ensures Valid() && history == old(history) + [Drift(key, dimensions, reason)]
      ensures outcome == DriftStep(old(Abstract()), key, dimensions, reason, config).1
    {
      hide HasDrifted, ValidDrift, Run;
      ghost var before := Abstract();
      if ValidDrift(dimensions) {
        var dropped := DropDrifted(key, dimensions, reason);
        metrics := metrics.(invalidations := metrics.invalidations + |dropped|);
        outcome := Drifted(dropped);
      } else {
        outcome := Rejected;
      }
      Record(Drift(key, dimensions, reason), before);
    }

    /** The loop of `invalidate_drift` over a snapshot of the entries. */
    method DropDrifted(key: Key, dimensions: seq<Dimension>, reason: Reason) returns (dropped: seq<string>)
      modifies this`entries, this`invalidations
      ensures dropped == Victims(old(entries), old(entries.order), key, dimensions)
      ensures entries == PopAll(old(entries), dropped)
      ensures invalidations == RememberAll(old(invalidations), dropped, reason, config.max)
    {
      hide HasDrifted, PopAll, RememberAll, Victims;
      var order, all := entries.order, entries;
      ghost var reasons := invalidations;
      dropped := [];
      NothingDropped(all, reasons, key, dimensions, reason, config.max);
      assert order[..0] == [];
      for i := 0 to |order|
        invariant dropped == Victims(all, order[..i], key, dimensions)
        invariant entries == PopAll(all, dropped)
        invariant invalidations == RememberAll(reasons, dropped, reason, config.max)
      {
        var d := order[i];
        assert order[..i + 1] == order[..i] + [d];
        VictimsSnoc(all, order[..i], d, key, dimensions);
        if d in all.values && HasDrifted(all.values[d].key, key, dimensions) {
          PopAllSnoc(all, dropped, d);
          RememberAllSnoc(reasons, dropped, d, reason, config.max);
          entries := entries.Pop(d);
          invalidations := Remember(invalidations, d, reason);
          dropped := dropped + [d];
        }
      }
      assert order[..|order|] == order;
    }

    method QuarantineKey(key: Key, reason: Reason) returns (outcome: Outcome)
      requires Valid()
      modifies this
      ensures Valid() && history == old(history) + [Quarantine(key, reason)]
      ensures outcome == QuarantineStep(old(Abstract()), key, reason, config).1
    {
      hide Store.Pop, ActivateStep, LookupStep, Store.Valid, NoRepeats, Store.PopFirst, Store.PutLast, Store.TrimTo,
           Without, Initial, Touch, ClearGeneration, Contradictions, CountMiss, Empty, EnterGeneration,
           Store.MoveToEnd, PopAll, RememberAll, Sort, StoreEntry, StringLe, ValidDrift, Victims, Evict, HasDrifted,
           Insert, Agrees, AllDimensions, Store.Remember, Run;
      ghost var before := Abstract();
      var d := config.digest(key);
      var removed := d in entries.values;
      entries := entries.Pop(d);
      quarantined := Remember(quarantined, d, reason);
      metrics := metrics.(quarantines := metrics.quarantines + 1);
      if removed {
        metrics := metrics.(invalidations := metrics.invalidations + 1);
      }
      outcome := Removed(removed);
      Record(Quarantine(key, reason), before);
    }

    method DisableForRegression(key: Key, reason: Reason) returns (outcome: Outcome)
      requires Valid()
      modifies this
      ensures Valid() && history == old(history) + [Disable(key, reason)]
      ensures outcome == DisableStep(old(Abstract()), key, reason, config).1
    {
      hide Store.Pop, ActivateStep, Run, LookupStep, DriftStep, QuarantineStep, Store.Remember, PutStep;
      ghost var before := Abstract();
      var d := config.digest(key);
      var removed := d in entries.values;
      entries := entries.Pop(d);
      disabled := Remember(disabled, d, reason);
      metrics := metrics.(disabled := metrics.disabled + 1);
      if removed {
        metrics := metrics.(invalidations := metrics.invalidations + 1);
      }
      outcome := Removed(removed);
      Record(Disable(key, reason), before);
    }
  }
}
