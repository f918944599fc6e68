/**
 The decisions behind a context view in plain conditions: which calls are accepted, in which order items are taken,
 what the reported counts count, when a cached selection answers, and what a view says.
 */
module ViewMeaning {
  import opened ContextView
  import opened Ordering
  import opened Wrappers

  // ---------- Orders ----------

  /** The kinds of items, those taken first in front. */
  function Kinds(): seq<Kind> {
    [Evidence, Diff, Test, Receipt, Impact, Fact, Span, ImplementerPrompt]
  }

  /** An earlier kind, or the same kind and more relevant, or equally relevant with the smaller handle. */
  lemma PriorityMeans(a: Item, b: Item, p: nat, q: nat)
    requires p < 8 && q < 8 && Kinds()[p] == a.kind && Kinds()[q] == b.kind
    ensures PriorityLe(a, b) <==>
              p < q || (p == q && (a.relevance > b.relevance
                                   || (a.relevance == b.relevance && StringLe(a.handle, b.handle))))
  {
    hide StringLe;
  }

  /** The records of a selection are in that order. */
  lemma SelectedInOrder(sv: Services, stage: string, b: Budget, items: seq<Item>, i: nat, j: nat, p: nat, q: nat)
    requires i < j < |Select(sv, stage, b, items).tally.selected| && p < 8 && q < 8
    requires Kinds()[p] == Select(sv, stage, b, items).tally.selected[i].item.kind
    requires Kinds()[q] == Select(sv, stage, b, items).tally.selected[j].item.kind
    ensures var x, y := Select(sv, stage, b, items).tally.selected[i].item,
                        Select(sv, stage, b, items).tally.selected[j].item;
            p <= q && (p == q ==> x.relevance >= y.relevance
                                  && (x.relevance == y.relevance ==> StringLe(x.handle, y.handle)))
  {
    hide Select, PriorityLe, StringLe, TotalSize, TotalTokens, Redacted, Visible, Kinds;
    SelectSound(sv, stage, b, items);
    PriorityMeans(Select(sv, stage, b, items).tally.selected[i].item,
                  Select(sv, stage, b, items).tally.selected[j].item, p, q);
  }

  /** The items are normalised by kind name, then handle, then source digest, then overlay. */
  lemma NormalMeans(a: Item, b: Item)
    ensures NormalLe(a, b) <==>
              if KindName(a.kind) != KindName(b.kind) then StringLe(KindName(a.kind), KindName(b.kind))
              else if a.handle != b.handle then StringLe(a.handle, b.handle)
              else if a.sourceSha != b.sourceSha then StringLe(a.sourceSha, b.sourceSha)
              else StringLe(a.overlayDigest.UnwrapOr(""), b.overlayDigest.UnwrapOr(""))
  {
    hide StringLe, KindName, TupleLe;
    var x, y := NormalKey(a), NormalKey(b);
    TupleStep(x, y);
    TupleStep(x[1..], y[1..]);
    TupleStep(x[2..], y[2..]);
    TupleStep(x[3..], y[3..]);
    assert x[1..][0] == x[1] && x[2..][0] == x[2] && x[3..][0] == x[3];
    assert y[1..][0] == y[1] && y[2..][0] == y[2] && y[3..][0] == y[3];
    assert x[1..][1..] == x[2..] && x[2..][1..] == x[3..] && x[3..][1..] == [];
    assert y[1..][1..] == y[2..] && y[2..][1..] == y[3..];
    TupleNil(y[3..][1..]);
    StringLeTotal(x[3], x[3]);
  }

  lemma TupleStep(x: seq<string>, y: seq<string>)
    requires |x| == |y| > 0
    ensures TupleLe(x, y) <==> if x[0] == y[0] then TupleLe(x[1..], y[1..]) else StringLe(x[0], y[0])
  {
    hide StringLe;
  }

  lemma TupleNil(y: seq<string>)
    ensures TupleLe([], y)
  {
  }

  // ---------- Which calls are accepted ----------

  /** The path is a root, lies below one behind a slash, or everything is allowed. */
  predicate Inside(roots: seq<string>, path: string) {
    "." in roots || path in roots || exists i :: 0 <= i < |path| && path[i] == '/' && path[..i] in roots
  }

  lemma PermitsMeans(a: Authority, path: string)
    ensures PermitsPath(a, path) <==> Inside(a.allowedRoots, path)
  {
    if i :| 0 <= i < |path| && path[i] == '/' && path[..i] in a.allowedRoots {
      assert path[..i] + "/" == path[..i + 1];
    }
    forall root | root in a.allowedRoots && root + "/" <= path
      ensures exists i :: 0 <= i < |path| && path[i] == '/' && path[..i] in a.allowedRoots
    {
      assert path[..|root|] == (root + "/")[..|root|] == root && path[|root|] == (root + "/")[|root|];
    }
  }

  lemma AuthorityChecks(sv: Services, r: Request, a: Authority)
    ensures Authorize(sv, r, a) ==
            if sv.digestAuthority(a) != r.authorityDigest then Fail(AuthorityMismatch)
            else if a.fence != r.fence then Fail(FenceStale)
            else if exists i :: 0 <= i < |a.capabilities| && a.capabilities[i] == r.capability then Pass
            else Fail(CapabilityDenied)
  {
  }

  lemma ItemChecks(sv: Services, r: Request, a: Authority, item: Item)
    ensures CheckItem(sv, r, a, item) ==
            if item.sourceSha != sv.sha(item.content) then Fail(ItemTampered)
            else if item.baseGeneration != r.baseGeneration then Fail(StaleGeneration)
            else if item.overlayDigest !in {None, r.overlayDigest} then Fail(OverlayScopeMismatch)
            else if item.path.None? || Inside(a.allowedRoots, item.path.value) then Pass
            else Fail(PathDenied)
  {
    hide PermitsPath, Inside;
    if item.path.Some? {
      PermitsMeans(a, item.path.value);
    }
  }

  /** Which calls get as far as a selection: that depends on the request, the authority and the set of items. */
  lemma AcceptedIff(sv: Services, call: Call)
    ensures var r, a := call.request, call.authority;
            Prepare(sv, call).Success? <==>
              && sv.digestAuthority(a) == r.authorityDigest && a.fence == r.fence && r.capability in a.capabilities
              && (forall x | x in call.items ::
                    && sv.sha(x.content) == x.sourceSha && x.baseGeneration == r.baseGeneration
                    && (x.overlayDigest == None || x.overlayDigest == r.overlayDigest)
                    && (x.path == None || Inside(a.allowedRoots, x.path.value)))
              && (forall x, y | x in call.items && y in call.items && x.handle == y.handle :: x == y)
  {
    hide CheckItem, Gather, Inside, Sort;
    var r, a := call.request, call.authority;
    GatherIff(sv, r, a, call.items);
    forall x
      ensures CheckItem(sv, r, a, x).Pass? <==>
                && sv.sha(x.content) == x.sourceSha && x.baseGeneration == r.baseGeneration
                && (x.overlayDigest == None || x.overlayDigest == r.overlayDigest)
                && (x.path == None || Inside(a.allowedRoots, x.path.value))
    {
      ItemChecks(sv, r, a, x);
    }
  }

  /** When the items in front are accepted and the next one is not, the call fails with what is wrong with that one. */
  lemma {:induction false} FirstItemAtFault(sv: Services, r: Request, a: Authority, items: seq<Item>, i: nat)
    requires i < |items| && Gather(sv, r, a, items[..i]).Success?
    ensures CheckItem(sv, r, a, items[i]).Fail? ==>
              Gather(sv, r, a, items) == Failure(CheckItem(sv, r, a, items[i]).error)
    ensures CheckItem(sv, r, a, items[i]).Pass? && items[i] !in items[..i]
            && (exists x | x in items[..i] :: x.handle == items[i].handle) ==>
              Gather(sv, r, a, items) == Failure(HandleCollision)
  {
    hide CheckItem;
    GatherIff(sv, r, a, items[..i]);
    assert items[..i + 1][..i] == items[..i];
    if Gather(sv, r, a, items[..i + 1]).Failure? {
      GatherFailsOn(sv, r, a, items, i + 1);
    }
  }

  // ---------- What is selected and counted ----------

  /** Who sees an item: no reviewer what is the implementer's, and no one else what is the reviewer's. */
  lemma SeenIff(sv: Services, stage: string, b: Budget, items: seq<Item>, x: Item)
    ensures x in VisibleOf(sv, stage, items) <==>
              && x in items
              && if sv.fold(stage) == "reviewer" then x.kind != ImplementerPrompt && x.visibility in {Shared, Reviewer}
                 else x.visibility in {Shared, Implementer}
  {
    hide VisibleOf;
    VisibleOfMembers(sv, stage, items, x);
  }

  /** Every record is an item that the stage may see, with its content redacted and the rest unchanged. */
  lemma RecordIsItem(sv: Services, stage: string, b: Budget, items: seq<Item>, record: Record)
    requires record in Select(sv, stage, b, items).tally.selected
    ensures exists x :: x in VisibleOf(sv, stage, items)
                        && record == Record(x.(content := sv.redact(x.content).0), sv.redact(x.content).1)
  {
    hide Select, Visible, VisibleOf;
    SelectVisible(sv, stage, b, items, record);
    var x :| x in items && Visible(sv, stage, x) && record == Redacted(sv, x);
    VisibleOfMembers(sv, stage, items, x);
  }

  lemma OneMoreRedacted(front: seq<Record>, last: Record)
    ensures |set i: nat | i < |front + [last]| && (front + [last])[i].redacted|
            == |set i: nat | i < |front| && front[i].redacted| + if last.redacted then 1 else 0
  {
    var before, all := set i: nat | i < |front| && front[i].redacted,
                       set i: nat | i < |front + [last]| && (front + [last])[i].redacted;
    assert all == before + if last.redacted then {|front|} else {};
  }

  lemma {:induction false} RedactionsCount(sv: Services, b: Budget, items: seq<Item>)
    ensures var t := Fill(sv, b, items);
            t.redactions == |set i: nat | i < |t.selected| && t.selected[i].redacted|
  {
    hide Fits, Redacted, SizeOf;
    if items != [] {
      RedactionsCount(sv, b, items[..|items| - 1]);
      OneMoreRedacted(Fill(sv, b, items[..|items| - 1]).selected, Redacted(sv, items[|items| - 1]));
    }
  }

  lemma {:induction false} EvidenceCounts(selected: seq<Record>)
    ensures EvidenceCount(selected) == |set i: nat | i < |selected| && IsEvidence(selected[i].item.kind)|
  {
    hide IsEvidence;
    if selected != [] {
      var n := |selected| - 1;
      EvidenceCounts(selected[..n]);
      var before, all := set i: nat | i < n && IsEvidence(selected[..n][i].item.kind),
                         set i: nat | i < n + 1 && IsEvidence(selected[i].item.kind);
      assert all == before + if IsEvidence(selected[n].item.kind) then {n} else {};
    }
  }

  /** What a selection reports: how many records were redacted, and how many are evidence. */
  lemma CountsMean(sv: Services, stage: string, b: Budget, items: seq<Item>)
    ensures var s := Select(sv, stage, b, items);
            var r := s.tally.selected;
            && s.tally.redactions == |set i: nat | i < |r| && r[i].redacted|
            && s.quality.evidenceNodes == |set i: nat | i < |r| && r[i].item.kind in {Evidence, Diff, Test, Receipt}|
  {
    hide Fill, Sort, PriorityLe, VisibleOf, EvidenceCount;
    RedactionsCount(sv, b, Sort(PriorityLe, VisibleOf(sv, stage, items)));
    var r := Select(sv, stage, b, items).tally.selected;
    EvidenceCounts(r);
    assert (set i: nat | i < |r| && IsEvidence(r[i].item.kind))
           == set i: nat | i < |r| && r[i].item.kind in {Evidence, Diff, Test, Receipt};
  }

  // ---------- What the cache and a view say ----------

  /** An entry answers strictly before it expires, unless its checksum is not that of its payload. */
  lemma GetAnswers(sv: Services, st: Store, key: string, now: real)
    ensures var payload := GetStep(sv, st, key, now).payload;
            if key in st.entries && now < st.entries[key].expiresAt then
              payload == if st.entries[key].checksum == sv.digestSelection(st.entries[key].payload)
                         then Success(Some(st.entries[key].payload)) else Failure(CacheTampered)
            else payload == Success(None)
    ensures var (after, payload) := (GetStep(sv, st, key, now).store, GetStep(sv, st, key, now).payload);
            && after.metrics.lookups == st.metrics.lookups + 1 && after.metrics.evicted == st.metrics.evicted
            && after.metrics.hits == st.metrics.hits + (if payload.Success? && payload.value.Some? then 1 else 0)
            && after.metrics.misses == st.metrics.misses + (if payload == Success(None) then 1 else 0)
            && after.metrics.expired
               == st.metrics.expired + (if payload == Success(None) && key in st.entries then 1 else 0)
            && after.entries.Keys == (if payload == Success(None) then st.entries.Keys - {key} else st.entries.Keys)
  {
  }

  /** The scope under a key: the task and attempt only where an item belongs to an overlay. */
  lemma ScopeMeans(sv: Services, r: Request, items: seq<Item>)
    ensures var scope := ScopeOf(sv, r, items);
            && CacheKey(sv, r, items) == sv.digestScope(scope)
            && scope.repository == r.repository && scope.baseGeneration == r.baseGeneration
            && scope.overlayDigest == r.overlayDigest && scope.capability == r.capability
            && scope.goalFragment == r.goalFragment && scope.stage == r.identity.stage && scope.budget == r.budget
            && scope.authorityDigest == r.authorityDigest && scope.fence == r.fence
            && scope.inputDigest == sv.digestItems(items) && scope.ttlSeconds == r.ttlSeconds
            && (scope.attempt == None <==> forall x | x in items :: x.overlayDigest == None)
            && (scope.attempt.Some? ==> scope.attempt.value == (r.identity.taskId, r.identity.attempt))
  {
  }

  /**
   What a view says: its selection and whose request it answers, what it reused if it came from the cache, and a
   handle of "CTX-" with 32 characters of the digest over all that.
   */
  lemma ViewSays(sv: Services, max: nat, st: Store, call: Call, view: View, after: Store)
    requires ViewStep(sv, max, st, call, Success(view), after)
    ensures var r, body, t := call.request, view.body, view.body.selection.tally;
            var digest := sv.digestHandle(HandleMaterial(r.identity, sv.digestRequest(r),
                                                         sv.digestSelection(body.selection), r.authorityDigest,
                                                         r.fence));
            && view.viewHash == sv.digestView(body)
            && (if body.hit then (body.bytesReused, body.tokensReused) == (t.bytes, t.tokens)
                else (body.bytesReused, body.tokensReused) == (0, 0))
            && "CTX-" <= body.handle && body.handle[4..] <= digest
            && |body.handle[4..]| == (if |digest| < 32 then |digest| else 32)
            && (body.hit <==>
                  && CacheKey(sv, r, Prepare(sv, call).value) in st.entries
                  && call.now < st.entries[CacheKey(sv, r, Prepare(sv, call).value)].expiresAt)
  {
    hide Prepare, CacheKey, PutStep, Select, ProvenanceOf;
    IssuedBody(sv, max, st, call, Success(view), after);
    ViewStepParts(sv, max, st, call, Success(view), after);
    GetAnswers(sv, st, CacheKey(sv, call.request, Prepare(sv, call).value), call.now);
  }

  /** Where a view says it comes from. */
  lemma ProvenanceMeans(sv: Services, call: Call, items: seq<Item>, hit: bool, selection: Selection)
    ensures var r, p := call.request, ViewOf(sv, call, items, hit, selection).body.provenance;
            && p.repository == r.repository && p.baseGeneration == r.baseGeneration
            && p.overlayDigest == r.overlayDigest && p.inputDigest == sv.digestItems(items)
            && p.principal == call.authority.principal && p.authorityDigest == sv.digestAuthority(call.authority)
            && p.fence == call.authority.fence && p.identity == r.identity
  {
    hide HandleOf, CacheKey;
  }

  /** A view verifies exactly when nothing in it is off, and otherwise the first of these is the error. */
  lemma VerifyMeans(sv: Services, view: View, r: Request, a: Authority)
    ensures VerifyView(sv, view, r, a) ==
            if view.viewHash != sv.digestView(view.body) then Fail(ViewTampered)
            else if view.body.requestHash != sv.digestRequest(r) then Fail(RequestHashMismatch)
            else if view.body.baseGeneration != r.baseGeneration then Fail(BaseGenerationMismatch)
            else if view.body.overlayDigest != r.overlayDigest then Fail(OverlayDigestMismatch)
            else if view.body.authorityDigest != sv.digestAuthority(a) then Fail(AuthorityDigestMismatch)
            else if view.body.fence != a.fence then Fail(FenceMismatch)
            else if view.body.capability != r.capability then Fail(CapabilityMismatch)
            else if view.body.identity != r.identity then Fail(IdentityMismatch)
            else if "CTX-" <= view.body.handle then Pass
            else Fail(ViewHandleInvalid)
  {
  }
}
