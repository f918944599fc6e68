/**
 Bounded context views: the greedy selector behind a TTL and least-recently-used cache.

 Redaction, sizes, case folding and the digests are parameters; no digest is assumed to be free of collisions.
 */
module ContextView {
  import opened Ordering
  import opened Wrappers

  // ---------- Entities ----------

  datatype Kind = Evidence | Diff | Test | Receipt | Impact | Fact | Span | ImplementerPrompt

  datatype Visibility = Shared | Implementer | Reviewer

  datatype Item = Item(kind: Kind, handle: string, content: string, sourceSha: string, baseGeneration: string,
                       tokenCount: nat, path: Option<string>, overlayDigest: Option<string>, visibility: Visibility,
                       relevance: real, provenance: seq<string>)

  datatype Identity = Identity(prismId: string, slotId: string, taskId: string, attempt: nat, agentId: string,
                               stage: string)

  datatype Budget = Budget(maxTokens: nat, maxBytes: nat, maxNodes: nat)

  datatype Authority = Authority(principal: string, fence: string, capabilities: seq<string>, allowedRoots: seq<string>)

  datatype Request = Request(repository: string, identity: Identity, baseGeneration: string, capability: string,
                             goalFragment: string, budget: Budget, authorityDigest: string, fence: string,
                             overlayDigest: Option<string>, ttlSeconds: nat)

  /** What the cache key digests; the task and attempt only when an item is overlay-specific. */
  datatype Scope = Scope(repository: string, baseGeneration: string, overlayDigest: Option<string>, capability: string,
                         goalFragment: string, stage: string, budget: Budget, authorityDigest: string, fence: string,
                         inputDigest: string, ttlSeconds: nat, attempt: Option<(string, nat)>)

  datatype ViewError =
    | AuthorityMismatch | FenceStale | CapabilityDenied
    | ItemTampered | StaleGeneration | OverlayScopeMismatch | PathDenied | HandleCollision
    | CacheTampered
    | ViewTampered | RequestHashMismatch | BaseGenerationMismatch | OverlayDigestMismatch | AuthorityDigestMismatch
    | FenceMismatch | CapabilityMismatch | IdentityMismatch | ViewHandleInvalid

  datatype Services = Services(redact: string -> (string, bool), size: string -> nat, fold: string -> string,
                               sha: string -> string, digestAuthority: Authority -> string,
                               digestItems: seq<Item> -> string, digestScope: Scope -> string,
                               digestSelection: Selection -> string, digestRequest: Request -> string,
                               digestHandle: HandleMaterial -> string, digestView: Unsigned -> string)

  // ---------- Orders ----------

  function Priority(kind: Kind): nat {
    match kind
    case Evidence => 0
    case Diff => 1
    case Test => 2
    case Receipt => 3
    case Impact => 4
    case Fact => 5
    case Span => 6
    case ImplementerPrompt => 7
  }

  function KindName(kind: Kind): string {
    match kind
    case Evidence => "evidence"
    case Diff => "diff"
    case Test => "test"
    case Receipt => "receipt"
    case Impact => "impact"
    case Fact => "fact"
    case Span => "span"
    case ImplementerPrompt => "implementer_prompt"
  }

  /** Higher priority first, then higher relevance, then the handle. */
  predicate PriorityLe(a: Item, b: Item) {
    Priority(a.kind) < Priority(b.kind)
    || (Priority(a.kind) == Priority(b.kind)
        && (a.relevance > b.relevance || (a.relevance == b.relevance && StringLe(a.handle, b.handle))))
  }

  /** Python's order on tuples of strings. */
  predicate TupleLe(a: seq<string>, b: seq<string>) {
    a == [] || (b != [] && (if a[0] == b[0] then TupleLe(a[1..], b[1..]) else StringLe(a[0], b[0])))
  }

  function NormalKey(item: Item): seq<string> {
    [KindName(item.kind), item.handle, item.sourceSha, item.overlayDigest.UnwrapOr("")]
  }

  predicate NormalLe(a: Item, b: Item) {
    TupleLe(NormalKey(a), NormalKey(b))
  }

  lemma {:induction false} TupleLeTotal(a: seq<string>, b: seq<string>)
    ensures TupleLe(a, b) || TupleLe(b, a)
  {
    if a != [] && b != [] {
      StringLeTotal(a[0], b[0]);
      TupleLeTotal(a[1..], b[1..]);
    }
  }

  lemma {:induction false} TupleLeTransitive(a: seq<string>, b: seq<string>, c: seq<string>)
    requires TupleLe(a, b) && TupleLe(b, c)
    ensures TupleLe(a, c)
  {
    if a != [] {
      if a[0] == b[0] && b[0] == c[0] {
        TupleLeTransitive(a[1..], b[1..], c[1..]);
      } else if a[0] != b[0] && b[0] != c[0] {
        StringLeTransitive(a[0], b[0], c[0]);
        if a[0] == c[0] {
          StringLeAntisymmetric(a[0], b[0]);
        }
      }
    }
  }

  lemma {:induction false} TupleLeAntisymmetric(a: seq<string>, b: seq<string>)
    requires TupleLe(a, b) && TupleLe(b, a)
    ensures a == b
  {
    if a != [] {
      if a[0] != b[0] {
        StringLeAntisymmetric(a[0], b[0]);
      }
      TupleLeAntisymmetric(a[1..], b[1..]);
      assert a == [a[0]] + a[1..] && b == [b[0]] + b[1..];
    }
  }

  lemma PriorityLeOrders()
    ensures Total(PriorityLe) && Transitive(PriorityLe)
  {
    hide Priority;
    forall a: Item, b: Item ensures PriorityLe(a, b) || PriorityLe(b, a) {
      StringLeTotal(a.handle, b.handle);
    }
    forall a, b, c | PriorityLe(a, b) && PriorityLe(b, c) ensures PriorityLe(a, c) {
      if StringLe(a.handle, b.handle) && StringLe(b.handle, c.handle) {
        StringLeTransitive(a.handle, b.handle, c.handle);
      }
    }
  }

  lemma NormalLeOrders()
    ensures Total(NormalLe) && Transitive(NormalLe)
  {
    hide NormalKey, TupleLe;
    forall a: Item, b: Item ensures NormalLe(a, b) || NormalLe(b, a) {
      TupleLeTotal(NormalKey(a), NormalKey(b));
    }
    forall a, b, c | NormalLe(a, b) && NormalLe(b, c) ensures NormalLe(a, c) {
      TupleLeTransitive(NormalKey(a), NormalKey(b), NormalKey(c));
    }
  }

  // ---------- Accepting the items ----------

  function Authorize(sv: Services, r: Request, a: Authority): Outcome<ViewError> {
    if r.authorityDigest != sv.digestAuthority(a) then Fail(AuthorityMismatch)
    else if r.fence != a.fence then Fail(FenceStale)
    else if r.capability !in a.capabilities then Fail(CapabilityDenied)
    else Pass
  }

  /** Paths and roots are normalised. */
  predicate PermitsPath(a: Authority, path: string) {
    exists root | root in a.allowedRoots :: root == "." || path == root || root + "/" <= path
  }

  function CheckItem(sv: Services, r: Request, a: Authority, item: Item): Outcome<ViewError> {
    if sv.sha(item.content) != item.sourceSha then Fail(ItemTampered)
    else if item.baseGeneration != r.baseGeneration then Fail(StaleGeneration)
    else if item.overlayDigest.Some? && item.overlayDigest != r.overlayDigest then Fail(OverlayScopeMismatch)
    else if item.path.Some? && !PermitsPath(a, item.path.value) then Fail(PathDenied)
    else Pass
  }

  /** The items in order of their first appearance, without repetitions; one handle must mean one item. */
  function Gather(sv: Services, r: Request, a: Authority, items: seq<Item>): Result<seq<Item>, ViewError> {
    if items == [] then Success([])
    else
      var item := items[|items| - 1];
      var before :- Gather(sv, r, a, items[..|items| - 1]);
      :- CheckItem(sv, r, a, item);
      if item in before then Success(before)
      else if exists other | other in before :: other.handle == item.handle then Failure(HandleCollision)
      else Success(before + [item])
  }

  ghost predicate OneItemPerHandle(items: seq<Item>) {
    forall x, y | x in items && y in items && x.handle == y.handle :: x == y
  }

  /** Whether the items are accepted, and which, depends only on the set of items. */
  lemma {:induction false} GatherIff(sv: Services, r: Request, a: Authority, items: seq<Item>)
    ensures var g := Gather(sv, r, a, items);
            && (g.Success? <==> OneItemPerHandle(items) && forall x | x in items :: CheckItem(sv, r, a, x).Pass?)
            && (g.Success? ==> NoRepeats(g.value) && forall x :: x in g.value <==> x in items)
  {
    hide CheckItem;
    if items != [] {
      var front, last := items[..|items| - 1], items[|items| - 1];
      assert items == front + [last];
      GatherIff(sv, r, a, front);
      assert forall x :: x in items <==> x in front || x == last;
    }
  }

  function Normalized(sv: Services, r: Request, a: Authority, items: seq<Item>): Result<seq<Item>, ViewError> {
    var gathered :- Gather(sv, r, a, items);
    Success(Sort(NormalLe, gathered))
  }

  /** Permuting or repeating the items changes neither acceptance nor the normal form. */
  lemma NormalizedIgnoresOrder(sv: Services, r: Request, a: Authority, items: seq<Item>, others: seq<Item>)
    requires forall x :: x in items <==> x in others
    ensures Normalized(sv, r, a, items).Success? <==> Normalized(sv, r, a, others).Success?
    ensures Normalized(sv, r, a, items).Success? ==> Normalized(sv, r, a, items) == Normalized(sv, r, a, others)
  {
    hide Gather, CheckItem, NoRepeats, Sort, NormalLe;
    GatherIff(sv, r, a, items);
    GatherIff(sv, r, a, others);
    var g, h := Gather(sv, r, a, items), Gather(sv, r, a, others);
    if g.Success? {
      SameMultiset(g.value, h.value);
      NormalLeOrders();
      forall x, y | x in g.value && y in g.value && NormalLe(x, y) && NormalLe(y, x) ensures x == y {
        NormalTies(x, y);
      }
      SortCanonical(NormalLe, g.value, h.value);
    }
  }

  lemma NormalTies(x: Item, y: Item)
    requires NormalLe(x, y) && NormalLe(y, x)
    ensures x.handle == y.handle
  {
    hide TupleLe, KindName;
    TupleLeAntisymmetric(NormalKey(x), NormalKey(y));
    assert NormalKey(x)[1] == NormalKey(y)[1];
  }

  // ---------- The greedy selector ----------

  predicate IsReviewer(sv: Services, stage: string) {
    sv.fold(stage) == "reviewer"
  }

  predicate Visible(sv: Services, stage: string, item: Item) {
    if IsReviewer(sv, stage) then item.kind != ImplementerPrompt && item.visibility != Implementer
    else item.visibility != Reviewer
  }

  /** A selected item, its content redacted. */
  datatype Record = Record(item: Item, redacted: bool)

  datatype Tally = Tally(selected: seq<Record>, bytes: nat, tokens: nat, nodes: nat, redactions: nat, rejections: nat)

  function Redacted(sv: Services, item: Item): Record {
    var (content, changed) := sv.redact(item.content);
    Record(item.(content := content), changed)
  }

  function SizeOf(sv: Services, item: Item): nat {
    sv.size(Redacted(sv, item).item.content)
  }

  predicate Fits(sv: Services, b: Budget, t: Tally, item: Item) {
    t.nodes + 1 <= b.maxNodes && t.bytes + SizeOf(sv, item) <= b.maxBytes && t.tokens + item.tokenCount <= b.maxTokens
  }

  function Take(sv: Services, b: Budget, t: Tally, item: Item): Tally {
    if !Fits(sv, b, t, item) then t.(rejections := t.rejections + 1)
    else
      var record := Redacted(sv, item);
      Tally(t.selected + [record], t.bytes + SizeOf(sv, item), t.tokens + item.tokenCount, t.nodes + 1,
            t.redactions + (if record.redacted then 1 else 0), t.rejections)
  }

  function Fill(sv: Services, b: Budget, items: seq<Item>): Tally {
    if items == [] then Tally([], 0, 0, 0, 0, 0)
    else Take(sv, b, Fill(sv, b, items[..|items| - 1]), items[|items| - 1])
  }

  function VisibleOf(sv: Services, stage: string, items: seq<Item>): seq<Item> {
    if items == [] then []
    else (if Visible(sv, stage, items[0]) then [items[0]] else []) + VisibleOf(sv, stage, items[1..])
  }

  predicate IsEvidence(kind: Kind) {
    kind in {Evidence, Diff, Test, Receipt}
  }

  function EvidenceCount(selected: seq<Record>): nat {
    if selected == [] then 0
    else
      EvidenceCount(selected[..|selected| - 1])
      + if IsEvidence(selected[|selected| - 1].item.kind) then 1 else 0
  }

  datatype Fidelity = Abstained | Whole | Bounded

  datatype Abstention = InsufficientEvidence | ReviewerEvidenceMissing

  datatype Quality = Quality(coverage: real, eligibleNodes: nat, evidenceNodes: nat, fidelity: Fidelity)

  datatype Selection = Selection(tally: Tally, quality: Quality, abstention: Option<Abstention>)

  function Conclude(sv: Services, stage: string, eligible: nat, t: Tally): Selection {
    var evidence := EvidenceCount(t.selected);
    var abstention :=
      if t.selected == [] then Some(InsufficientEvidence)
      else if IsReviewer(sv, stage) && evidence == 0 then Some(ReviewerEvidenceMissing)
      else None;
    Selection(t, Quality(if eligible == 0 then 1.0 else t.nodes as real / eligible as real, eligible, evidence,
                         if abstention.Some? then Abstained else if t.rejections == 0 then Whole else Bounded),
              abstention)
  }

  /** `_select`: it depends on the request only through the stage and the budget. */
  function Select(sv: Services, stage: string, b: Budget, items: seq<Item>): Selection {
    var eligible := VisibleOf(sv, stage, items);
    Conclude(sv, stage, |eligible|, Fill(sv, b, Sort(PriorityLe, eligible)))
  }

  /** The loop of `_select` with its running totals. */
  method SelectItems(sv: Services, request: Request, items: seq<Item>) returns (selection: Selection)
    ensures selection == Select(sv, request.identity.stage, request.budget, items)
  {
    hide Sort, VisibleOf, PriorityLe, Conclude;
    var eligible := VisibleOf(sv, request.identity.stage, items);
    var ordered := Sort(PriorityLe, eligible);
    var b := request.budget;
    var selected: seq<Record> := [];
    var usedBytes: nat, usedTokens: nat, usedNodes: nat, redactions: nat, rejections: nat := 0, 0, 0, 0, 0;
    for i := 0 to |ordered|
      invariant Fill(sv, b, ordered[..i]) == Tally(selected, usedBytes, usedTokens, usedNodes, redactions, rejections)
    {
      var item := ordered[i];
      assert ordered[..i + 1][..i] == ordered[..i];
      var record := Redacted(sv, item);
      var size := sv.size(record.item.content);
      if usedNodes + 1 > b.maxNodes || usedBytes + size > b.maxBytes || usedTokens + item.tokenCount > b.maxTokens {
        rejections := rejections + 1;
        continue;
      }
      selected := selected + [record];
      usedBytes := usedBytes + size;
      usedTokens := usedTokens + item.tokenCount;
      usedNodes := usedNodes + 1;
      redactions := redactions + if record.redacted then 1 else 0;
    }
    assert ordered[..|ordered|] == ordered;
    selection := Conclude(sv, request.identity.stage, |eligible|,
                          Tally(selected, usedBytes, usedTokens, usedNodes, redactions, rejections));
  }

  function TotalSize(sv: Services, selected: seq<Record>): nat {
    if selected == [] then 0
    else TotalSize(sv, selected[..|selected| - 1]) + sv.size(selected[|selected| - 1].item.content)
  }

  function TotalTokens(selected: seq<Record>): nat {
    if selected == [] then 0
    else TotalTokens(selected[..|selected| - 1]) + selected[|selected| - 1].item.tokenCount
  }

  /** The totals are those of the selected records, no budget is exceeded, and every item was taken or rejected. */
  lemma {:induction false} FillAccounts(sv: Services, b: Budget, items: seq<Item>)
    ensures var t := Fill(sv, b, items);
            && t.nodes == |t.selected| <= b.maxNodes && |t.selected| + t.rejections == |items|
            && t.bytes == TotalSize(sv, t.selected) <= b.maxBytes
            && t.tokens == TotalTokens(t.selected) <= b.maxTokens
  {
    if items != [] {
      FillAccounts(sv, b, items[..|items| - 1]);
    }
  }

  /** What is rejected at its turn does not fit at the end either. */
  lemma {:induction false} FillMaximal(sv: Services, b: Budget, items: seq<Item>, x: Item)
    requires x in items
    ensures var t := Fill(sv, b, items);
            Redacted(sv, x) in t.selected || !Fits(sv, b, t, x)
  {
    hide Redacted;
    var front, last := items[..|items| - 1], items[|items| - 1];
    assert items == front + [last];
    if x in front {
      FillMaximal(sv, b, front, x);
    }
  }

  lemma {:induction false} FillFrom(sv: Services, b: Budget, items: seq<Item>, record: Record) returns (i: nat)
    requires record in Fill(sv, b, items).selected
    ensures i < |items| && record == Redacted(sv, items[i]) && record in Fill(sv, b, items[..i + 1]).selected
    ensures Fits(sv, b, Fill(sv, b, items[..i]), items[i])
  {
    hide Redacted;
    var n := |items| - 1;
    if record in Fill(sv, b, items[..n]).selected {
      i := FillFrom(sv, b, items[..n], record);
      assert items[..n][..i] == items[..i] && items[..n][..i + 1] == items[..i + 1];
    } else {
      i := n;
      assert items[..n + 1] == items;
    }
  }

  ghost predicate ByPriority(items: seq<Item>) {
    forall i, j | 0 <= i < j < |items| :: PriorityLe(items[i], items[j])
  }

  ghost predicate RecordsByPriority(selected: seq<Record>) {
    forall i, j | 0 <= i < j < |selected| :: PriorityLe(selected[i].item, selected[j].item)
  }

  lemma PriorityLeSnoc(a: Item, b: Item, c: Item)
    requires PriorityLe(a, b) && PriorityLe(b, c)
    ensures PriorityLe(a, c)
  {
    PriorityLeOrders();
  }

  /** Redaction does not change an item's place. */
  lemma RedactedPlace(sv: Services, x: Item, y: Item)
    ensures PriorityLe(x, Redacted(sv, y).item) <==> PriorityLe(x, y)
    ensures PriorityLe(y, y)
  {
    StringLeTotal(y.handle, y.handle);
  }

  lemma {:induction false} FillSorted(sv: Services, b: Budget, items: seq<Item>)
    requires ByPriority(items)
    ensures var s := Fill(sv, b, items).selected;
            && RecordsByPriority(s)
            && (forall i | 0 <= i < |s| && items != [] :: PriorityLe(s[i].item, items[|items| - 1]))
  {
    hide PriorityLe, Fits, Redacted;
    if items != [] {
      var n := |items| - 1;
      var last := items[n];
      FillSorted(sv, b, items[..n]);
      var s := Fill(sv, b, items[..n]).selected;
      forall i | 0 <= i < |s| ensures PriorityLe(s[i].item, last) && PriorityLe(s[i].item, Redacted(sv, last).item) {
        if n > 0 {
          PriorityLeSnoc(s[i].item, items[n - 1], last);
        }
        RedactedPlace(sv, s[i].item, last);
      }
      RedactedPlace(sv, last, last);
      RedactedIsBelow(sv, last);
    }
  }

  lemma RedactedIsBelow(sv: Services, x: Item)
    ensures PriorityLe(Redacted(sv, x).item, x)
  {
    StringLeTotal(x.handle, x.handle);
  }

  lemma {:induction false} VisibleOfMembers(sv: Services, stage: string, items: seq<Item>, x: Item)
    ensures x in VisibleOf(sv, stage, items) <==> x in items && Visible(sv, stage, x)
  {
    hide Visible;
    if items != [] {
      assert items == [items[0]] + items[1..];
      VisibleOfMembers(sv, stage, items[1..], x);
    }
  }

  /**
   The selection keeps every budget, accounts for every eligible item, leaves out only what would no longer
   fit, and lists its records by priority.
   */
  lemma SelectSound(sv: Services, stage: string, b: Budget, items: seq<Item>)
    ensures var s := Select(sv, stage, b, items);
            var t := s.tally;
            && t.nodes == |t.selected| <= b.maxNodes
            && t.bytes == TotalSize(sv, t.selected) <= b.maxBytes
            && t.tokens == TotalTokens(t.selected) <= b.maxTokens
            && |t.selected| + t.rejections == s.quality.eligibleNodes == |VisibleOf(sv, stage, items)|
            && RecordsByPriority(t.selected)
            && (forall x | x in items && Visible(sv, stage, x) ::
                  || Redacted(sv, x) in t.selected
                  || t.nodes == b.maxNodes || t.tokens + x.tokenCount > b.maxTokens
                  || t.bytes + sv.size(sv.redact(x.content).0) > b.maxBytes)
  {
    hide VisibleOf, Visible, Fill, Sort, PriorityLe, TotalSize, TotalTokens, RecordsByPriority;
    var eligible := VisibleOf(sv, stage, items);
    var ordered := Sort(PriorityLe, eligible);
    PriorityLeOrders();
    SortSorts(PriorityLe, eligible);
    FillAccounts(sv, b, ordered);
    FillSorted(sv, b, ordered);
    forall x | x in items && Visible(sv, stage, x)
      ensures Redacted(sv, x) in Fill(sv, b, ordered).selected || !Fits(sv, b, Fill(sv, b, ordered), x)
    {
      VisibleOfMembers(sv, stage, items, x);
      SortMembers(PriorityLe, eligible, x);
      FillMaximal(sv, b, ordered, x);
    }
  }

  /** Every record is a redacted item that the stage may see. */
  lemma SelectVisible(sv: Services, stage: string, b: Budget, items: seq<Item>, record: Record)
    requires record in Select(sv, stage, b, items).tally.selected
    ensures exists x :: x in items && Visible(sv, stage, x) && record == Redacted(sv, x)
    ensures IsReviewer(sv, stage) ==> record.item.kind != ImplementerPrompt && record.item.visibility != Implementer
    ensures !IsReviewer(sv, stage) ==> record.item.visibility != Reviewer
  {
    hide Fill, Sort, PriorityLe, VisibleOf, IsReviewer;
    var eligible := VisibleOf(sv, stage, items);
    var ordered := Sort(PriorityLe, eligible);
    var i := FillFrom(sv, b, ordered, record);
    SortMembers(PriorityLe, eligible, ordered[i]);
    VisibleOfMembers(sv, stage, items, ordered[i]);
  }

  /** Coverage, fidelity and abstention in terms of what was selected and rejected. */
  lemma ConclusionMeans(sv: Services, stage: string, eligible: nat, t: Tally)
    requires t.nodes == |t.selected| && t.nodes + t.rejections == eligible
    ensures var s := Conclude(sv, stage, eligible, t);
            && s.tally == t && s.quality.eligibleNodes == eligible
            && (s.quality.fidelity == Whole <==> s.abstention.None? && t.rejections == 0)
            && (s.quality.fidelity == Abstained <==> s.abstention.Some?)
            && (if eligible == 0 then s.quality.coverage == 1.0
                else s.quality.coverage * eligible as real == t.nodes as real)
            && 0.0 <= s.quality.coverage <= 1.0
            && (s.quality.coverage == 1.0 <==> t.rejections == 0)
            && (s.abstention == Some(InsufficientEvidence) <==> t.selected == [])
            && (s.abstention == Some(ReviewerEvidenceMissing)
                <==> t.selected != [] && sv.fold(stage) == "reviewer" && EvidenceCount(t.selected) == 0)
  {
    hide EvidenceCount;
    if eligible > 0 {
      ShareOf(t.nodes, eligible);
      QuotientTimes(t.nodes as real, eligible as real);
    }
  }

  lemma ShareOf(part: nat, whole: nat)
    requires part <= whole && whole > 0
    ensures 0.0 <= part as real / whole as real <= 1.0
    ensures part as real / whole as real == 1.0 <==> part == whole
  {
    var p, w := part as real, whole as real;
    QuotientTimes(p, w);
    var share := p / w;
    if share < 0.0 {
      TimesLess(share, 0.0, w);
    } else if share > 1.0 {
      TimesLess(1.0, share, w);
    } else if share < 1.0 {
      TimesLess(share, 1.0, w);
    }
  }

  lemma QuotientTimes(p: real, w: real)
    requires w > 0.0
    ensures p / w * w == p
  {
  }

  lemma TimesLess(a: real, b: real, w: real)
    requires a < b && w > 0.0
    ensures a * w < b * w
  {
    assert b * w - a * w == (b - a) * w;
  }

  /** Without a rejection every visible item is selected. */
  lemma AllSelected(sv: Services, stage: string, b: Budget, items: seq<Item>)
    requires Select(sv, stage, b, items).tally.rejections == 0
    ensures forall x | x in items && Visible(sv, stage, x) ::
              Redacted(sv, x) in Select(sv, stage, b, items).tally.selected
  {
    hide Fill, Sort, PriorityLe, VisibleOf, Redacted, Visible, IsReviewer, EvidenceCount;
    var eligible := VisibleOf(sv, stage, items);
    forall x | x in items && Visible(sv, stage, x)
      ensures Redacted(sv, x) in Select(sv, stage, b, items).tally.selected
    {
      VisibleOfMembers(sv, stage, items, x);
      SortMembers(PriorityLe, eligible, x);
      NothingRejected(sv, b, Sort(PriorityLe, eligible), x);
    }
  }

  /** What the reported quality means. */
  lemma QualityMeans(sv: Services, stage: string, b: Budget, items: seq<Item>)
    ensures var s := Select(sv, stage, b, items);
            && (s.quality.fidelity == Whole ==>
                  forall x | x in items && Visible(sv, stage, x) :: Redacted(sv, x) in s.tally.selected)
            && (s.quality.fidelity == Whole <==> s.abstention.None? && s.tally.nodes == s.quality.eligibleNodes)
            && (s.quality.fidelity == Abstained <==> s.abstention.Some?)
            && (if s.quality.eligibleNodes == 0 then s.quality.coverage == 1.0
                else s.quality.coverage * s.quality.eligibleNodes as real == s.tally.nodes as real)
            && (s.quality.coverage == 1.0 <==> s.tally.rejections == 0)
            && 0.0 <= s.quality.coverage <= 1.0
            && (s.abstention == Some(InsufficientEvidence) <==> s.tally.selected == [])
            && (s.abstention == Some(ReviewerEvidenceMissing)
                <==> s.tally.selected != [] && sv.fold(stage) == "reviewer"
                     && forall x | x in s.tally.selected :: x.item.kind !in {Evidence, Diff, Test, Receipt})
  {
    hide Fill, Sort, PriorityLe, VisibleOf, Redacted, Visible, EvidenceCount, Conclude;
    var s := Select(sv, stage, b, items);
    var eligible := VisibleOf(sv, stage, items);
    FillAccounts(sv, b, Sort(PriorityLe, eligible));
    SortKeeps(PriorityLe, eligible);
    ConclusionMeans(sv, stage, |eligible|, Fill(sv, b, Sort(PriorityLe, eligible)));
    if s.tally.rejections == 0 {
      AllSelected(sv, stage, b, items);
    }
    NoEvidence(s.tally.selected);
  }

  lemma {:induction false} NoEvidence(selected: seq<Record>)
    ensures EvidenceCount(selected) == 0
            <==> forall x | x in selected :: x.item.kind !in {Evidence, Diff, Test, Receipt}
  {
    if selected != [] {
      NoEvidence(selected[..|selected| - 1]);
      assert selected == selected[..|selected| - 1] + [selected[|selected| - 1]];
    }
  }

  lemma {:induction false} NothingRejected(sv: Services, b: Budget, items: seq<Item>, x: Item)
    requires Fill(sv, b, items).rejections == 0 && x in items
    ensures Redacted(sv, x) in Fill(sv, b, items).selected
  {
    hide Redacted, Fits;
    var front, last := items[..|items| - 1], items[|items| - 1];
    assert items == front + [last];
    if x in front {
      NothingRejected(sv, b, front, x);
    }
  }

  lemma {:induction false} FillGrows(sv: Services, b: Budget, items: seq<Item>, m: nat)
    requires m <= |items|
    ensures Fill(sv, b, items[..m]).selected <= Fill(sv, b, items).selected
  {
    hide Fits, Redacted;
    if m == |items| {
      assert items[..m] == items;
    } else {
      FillGrows(sv, b, items[..|items| - 1], m);
      assert items[..|items| - 1][..m] == items[..m];
    }
  }

  lemma FitsIsTaken(sv: Services, b: Budget, items: seq<Item>, m: nat)
    requires m < |items| && Fits(sv, b, Fill(sv, b, items[..m]), items[m])
    ensures Redacted(sv, items[m]) in Fill(sv, b, items).selected
  {
    hide Fits, Redacted;
    FillGrows(sv, b, items, m + 1);
    assert items[..m + 1][..m] == items[..m];
    var all, upto := Fill(sv, b, items).selected, Fill(sv, b, items[..m + 1]).selected;
    assert upto[|upto| - 1] == all[|upto| - 1];
  }

  /** What is left out did not fit even behind only those records that precede it by priority. */
  lemma NoPriorityInversion(sv: Services, b: Budget, items: seq<Item>, x: Item) returns (m: nat)
    requires ByPriority(items) && x in items && Redacted(sv, x) !in Fill(sv, b, items).selected
    ensures m <= |items| && !Fits(sv, b, Fill(sv, b, items[..m]), x)
    ensures Fill(sv, b, items[..m]).selected <= Fill(sv, b, items).selected
    ensures forall record | record in Fill(sv, b, items[..m]).selected :: PriorityLe(record.item, x)
  {
    hide Fits, Redacted, PriorityLe;
    m :| 0 <= m < |items| && items[m] == x;
    FillGrows(sv, b, items, m);
    if Fits(sv, b, Fill(sv, b, items[..m]), x) {
      FitsIsTaken(sv, b, items, m);
    }
    if m > 0 {
      FillSorted(sv, b, items[..m]);
      forall record | record in Fill(sv, b, items[..m]).selected ensures PriorityLe(record.item, x) {
        PriorityLeSnoc(record.item, items[m - 1], x);
      }
    }
  }

  // ---------- The cache ----------

  datatype Entry = Entry(payload: Selection, checksum: string, expiresAt: real, accessOrder: nat)

  datatype Metrics = Metrics(lookups: nat, hits: nat, misses: nat, expired: nat, evicted: nat)

  datatype Store = Store(entries: map<string, Entry>, sequence: nat, metrics: Metrics)

  function EmptyStore(): Store {
    Store(map[], 0, Metrics(0, 0, 0, 0, 0))
  }

  datatype Found = Found(store: Store, payload: Result<Option<Selection>, ViewError>)

  predicate Intact(sv: Services, entry: Entry) {
    entry.checksum == sv.digestSelection(entry.payload)
  }

  /** `get`: an entry is fresh strictly before it expires; a hit renews its place. */
  function GetStep(sv: Services, st: Store, key: string, now: real): Found {
    var m := st.metrics.(lookups := st.metrics.lookups + 1);
    if key !in st.entries then Found(st.(metrics := m.(misses := m.misses + 1)), Success(None))
    else if st.entries[key].expiresAt <= now then
      Found(Store(st.entries - {key}, st.sequence, m.(misses := m.misses + 1, expired := m.expired + 1)), Success(None))
    else if !Intact(sv, st.entries[key]) then Found(st.(metrics := m), Failure(CacheTampered))
    else
      var n := st.sequence + 1;
      Found(Store(st.entries[key := st.entries[key].(accessOrder := n)], n, m.(hits := m.hits + 1)),
            Success(Some(st.entries[key].payload)))
  }

  /** The order in which entries are evicted. */
  predicate EvictedBefore(entries: map<string, Entry>, a: string, b: string)
    requires a in entries && b in entries
  {
    entries[a].accessOrder < entries[b].accessOrder
    || (entries[a].accessOrder == entries[b].accessOrder && StringLe(a, b))
  }

  ghost predicate IsVictim(entries: map<string, Entry>, key: string) {
    key in entries && forall other | other in entries :: EvictedBefore(entries, key, other)
  }

  lemma EvictedBeforeOrders(entries: map<string, Entry>, a: string, b: string, c: string)
    requires a in entries && b in entries && c in entries
    ensures EvictedBefore(entries, a, b) || EvictedBefore(entries, b, a)
    ensures EvictedBefore(entries, a, b) && EvictedBefore(entries, b, c) ==> EvictedBefore(entries, a, c)
    ensures EvictedBefore(entries, a, b) && EvictedBefore(entries, b, a) ==> a == b
  {
    hide StringLe;
    StringLeTotal(a, b);
    if StringLe(a, b) && StringLe(b, c) {
      StringLeTransitive(a, b, c);
    }
    if StringLe(a, b) && StringLe(b, a) {
      StringLeAntisymmetric(a, b);
    }
  }

  /** The loop of `min` over the entries: the first one in the order of eviction. */
  method FindVictim(entries: map<string, Entry>) returns (victim: string)
    requires entries != map[]
    ensures IsVictim(entries, victim)
  {
    hide EvictedBefore;
    victim :| victim in entries;
    EvictedBeforeOrders(entries, victim, victim, victim);
    var rest := entries.Keys - {victim};
    while rest != {}
      invariant victim in entries && rest <= entries.Keys
      invariant forall other | other in entries && other !in rest :: EvictedBefore(entries, victim, other)
    {
      var key :| key in rest;
      EvictedBeforeOrders(entries, victim, key, key);
      EvictedBeforeOrders(entries, key, key, key);
      if EvictedBefore(entries, key, victim) {
        forall other | other in entries && other !in rest ensures EvictedBefore(entries, key, other) {
          EvictedBeforeOrders(entries, key, victim, other);
        }
        victim := key;
      }
      rest := rest - {key};
    }
  }

  /** `after` is `before` with victims removed, one at a time, until at most `max` entries are left. */
  ghost predicate Trimmed(max: nat, before: map<string, Entry>, after: map<string, Entry>)
    decreases |before|
  {
    if |before| <= max then after == before
    else exists victim :: IsVictim(before, victim) && Trimmed(max, before - {victim}, after)
  }

  function Stored(sv: Services, st: Store, key: string, payload: Selection, ttl: nat, now: real): map<string, Entry> {
    st.entries[key := Entry(payload, sv.digestSelection(payload), now + ttl as real, st.sequence + 1)]
  }

  /** `put`, as a relation between the stores before and after. */
  ghost predicate PutStep(sv: Services, max: nat, st: Store, key: string, payload: Selection, ttl: nat, now: real,
                          after: Store)
  {
    var stored := Stored(sv, st, key, payload, ttl, now);
    && Trimmed(max, stored, after.entries)
    && after.sequence == st.sequence + 1
    && |after.entries| <= |stored|
    && after.metrics == st.metrics.(evicted := st.metrics.evicted + |stored| - |after.entries|)
  }

  /** Every entry's checksum is its payload's digest. */
  ghost predicate AllIntact(sv: Services, entries: map<string, Entry>) {
    forall k | k in entries :: Intact(sv, entries[k])
  }

  /** Within capacity, entries intact and each at its own place in the order of access, every lookup a hit or a miss. */
  ghost predicate StoreInv(sv: Services, max: nat, st: Store) {
    && |st.entries| <= max
    && AllIntact(sv, st.entries) && Placed(st.entries, st.sequence)
    && st.metrics.lookups == st.metrics.hits + st.metrics.misses
    && st.metrics.expired <= st.metrics.misses
  }

  /** A lookup keeps the invariant, never finds an entry tampered, and hits exactly on an entry before its expiry. */
  lemma GetKeepsInv(sv: Services, max: nat, st: Store, key: string, now: real)
    requires StoreInv(sv, max, st)
    ensures StoreInv(sv, max, GetStep(sv, st, key, now).store)
    ensures GetStep(sv, st, key, now).payload.Success?
    ensures GetStep(sv, st, key, now).payload.value.Some? <==> key in st.entries && now < st.entries[key].expiresAt
  {
    hide AllIntact, Placed, Intact;
    if key in st.entries {
      IntactAt(sv, st.entries, key);
      PlacedWithout(st.entries, st.sequence, key);
      IntactWithout(sv, st.entries, key);
      WithoutSize(st.entries, key);
      Renewed(sv, st.entries, st.sequence, key);
    }
  }

  lemma IntactAt(sv: Services, entries: map<string, Entry>, key: string)
    requires AllIntact(sv, entries) && key in entries
    ensures Intact(sv, entries[key])
  {
  }

  lemma WithoutSize(entries: map<string, Entry>, key: string)
    requires key in entries
    ensures |entries - {key}| == |entries| - 1
  {
    assert (entries - {key}).Keys == entries.Keys - {key};
    assert |entries - {key}| == |(entries - {key}).Keys| && |entries| == |entries.Keys|;
  }

  /** The entry that is hit moves to the last place. */
  lemma Renewed(sv: Services, entries: map<string, Entry>, last: nat, key: string)
    requires AllIntact(sv, entries) && Placed(entries, last) && key in entries
    ensures var renewed := entries[key := entries[key].(accessOrder := last + 1)];
            AllIntact(sv, renewed) && Placed(renewed, last + 1) && |renewed| == |entries|
  {
    var renewed := entries[key := entries[key].(accessOrder := last + 1)];
    assert renewed.Keys == entries.Keys;
    assert |renewed| == |renewed.Keys| && |entries| == |entries.Keys|;
  }

  /** Every entry has its own place in the order of access. */
  ghost predicate Placed(entries: map<string, Entry>, last: nat) {
    && (forall k | k in entries :: 0 < entries[k].accessOrder <= last)
    && (forall j, k | j in entries && k in entries && j != k :: entries[j].accessOrder != entries[k].accessOrder)
  }

  lemma StoredPlaces(sv: Services, max: nat, st: Store, key: string, payload: Selection, ttl: nat, now: real)
    requires StoreInv(sv, max, st)
    ensures var stored := Stored(sv, st, key, payload, ttl, now);
            && Placed(stored, st.sequence + 1) && key in stored
            && (forall k | k in stored && k != key :: stored[k].accessOrder < stored[key].accessOrder)
            && AllIntact(sv, stored)
  {
  }

  lemma StoredSize(sv: Services, st: Store, key: string, payload: Selection, ttl: nat, now: real)
    ensures |Stored(sv, st, key, payload, ttl, now)| == |st.entries| + if key in st.entries then 0 else 1
  {
    var stored := Stored(sv, st, key, payload, ttl, now);
    assert stored.Keys == st.entries.Keys + {key};
    assert |stored| == |stored.Keys| && |st.entries| == |st.entries.Keys|;
  }

  lemma TrimOne(max: nat, stored: map<string, Entry>, last: nat, key: string, after: map<string, Entry>)
    returns (victim: string)
    requires 0 < max < |stored| <= max + 1 && Trimmed(max, stored, after) && Placed(stored, last) && key in stored
    requires forall k | k in stored && k != key :: stored[k].accessOrder < stored[key].accessOrder
    ensures victim in stored && victim != key && after == stored - {victim} && |after| == max
    ensures forall k | k in after :: stored[victim].accessOrder < stored[k].accessOrder
  {
    hide StringLe;
    victim :| IsVictim(stored, victim) && Trimmed(max, stored - {victim}, after);
    assert (stored - {victim}).Keys == stored.Keys - {victim};
    assert |stored - {victim}| == |(stored - {victim}).Keys| && |stored| == |stored.Keys|;
    forall k | k in after ensures stored[victim].accessOrder < stored[k].accessOrder {
      assert EvictedBefore(stored, victim, k);
    }
    var other :| other in after;
  }

  lemma TrimNone(max: nat, stored: map<string, Entry>, after: map<string, Entry>)
    requires |stored| <= max && Trimmed(max, stored, after)
    ensures after == stored
  {
  }

  /**
   A put keeps the entry it stores. It evicts nothing while there is room; otherwise exactly one entry, which
   was stored or hit before every entry that stays.
   */
  lemma PutEvictsLeastRecent(sv: Services, max: nat, st: Store, key: string, payload: Selection, ttl: nat, now: real,
                             after: Store)
    returns (victim: Option<string>)
    requires StoreInv(sv, max, st) && 0 < max && PutStep(sv, max, st, key, payload, ttl, now, after)
    ensures var stored := Stored(sv, st, key, payload, ttl, now);
            && key in after.entries && after.entries[key] == stored[key]
            && (victim.None? <==> |stored| <= max) && |after.entries| <= max
            && (victim.None? ==> after.entries == stored)
            && (victim.Some? ==> victim.value in st.entries && victim.value != key
                                 && after.entries == stored - {victim.value}
                                 && forall k | k in after.entries ::
                                      stored[victim.value].accessOrder < stored[k].accessOrder)
  {
    hide Trimmed, Placed, Intact;
    var stored := Stored(sv, st, key, payload, ttl, now);
    StoredPlaces(sv, max, st, key, payload, ttl, now);
    StoredSize(sv, st, key, payload, ttl, now);
    if |stored| > max {
      var key' := TrimOne(max, stored, st.sequence + 1, key, after.entries);
      victim := Some(key');
    } else {
      TrimNone(max, stored, after.entries);
      victim := None;
    }
  }

  lemma PlacedWithout(stored: map<string, Entry>, last: nat, victim: string)
    requires Placed(stored, last)
    ensures Placed(stored - {victim}, last)
  {
  }

  lemma IntactWithout(sv: Services, stored: map<string, Entry>, victim: string)
    requires AllIntact(sv, stored)
    ensures AllIntact(sv, stored - {victim})
  {
  }

  lemma PutKeepsInv(sv: Services, max: nat, st: Store, key: string, payload: Selection, ttl: nat, now: real,
                    after: Store)
    requires StoreInv(sv, max, st) && 0 < max && PutStep(sv, max, st, key, payload, ttl, now, after)
    ensures StoreInv(sv, max, after)
  {
    hide Trimmed, Stored, Placed, AllIntact;
    StoredPlaces(sv, max, st, key, payload, ttl, now);
    var victim := PutEvictsLeastRecent(sv, max, st, key, payload, ttl, now, after);
    if victim.Some? {
      PlacedWithout(Stored(sv, st, key, payload, ttl, now), st.sequence + 1, victim.value);
      IntactWithout(sv, Stored(sv, st, key, payload, ttl, now), victim.value);
    }
  }

  // ---------- The persisted cache ----------

  /** The file behind a cache: not there, not a cache, or the entries it holds. */
  datatype File = Absent | Unreadable | Saved(entries: map<string, Entry>)

  /** The last place in the order of access; 0 when there is none. */
  ghost predicate IsLastPlace(entries: map<string, Entry>, last: nat) {
    && (forall k | k in entries :: entries[k].accessOrder <= last)
    && (last == 0 || exists k | k in entries :: entries[k].accessOrder == last)
  }

  /** A new object on the file: `_load` takes over the entries, and refuses them all when one is not intact. */
  ghost predicate Loads(sv: Services, file: File, result: Result<Store, ViewError>) {
    match file
    case Absent => result == Success(EmptyStore())
    case Unreadable => result == Failure(CacheTampered)
    case Saved(entries) =>
      if !AllIntact(sv, entries) then result == Failure(CacheTampered)
      else
        && result.Success? && result.value.entries == entries && IsLastPlace(entries, result.value.sequence)
        && result.value.metrics == EmptyStore().metrics
  }

  /** A restart keeps the invariant, and every lookup gives what it gave before. */
  lemma RestartKeepsInv(sv: Services, max: nat, st: Store, result: Result<Store, ViewError>)
    requires StoreInv(sv, max, st) && Loads(sv, Saved(st.entries), result)
    ensures result.Success? && StoreInv(sv, max, result.value)
    ensures forall key, now ::
              GetStep(sv, result.value, key, now).payload == GetStep(sv, st, key, now).payload
  {
    hide Intact;
  }

  // ---------- Materialising a view ----------

  datatype Call = Call(request: Request, authority: Authority, items: seq<Item>, now: real, later: real)

  /** What a view's handle digests. */
  datatype HandleMaterial = HandleMaterial(identity: Identity, requestHash: string, selectionDigest: string,
                                           authorityDigest: string, fence: string)

  datatype Provenance = Provenance(repository: string, baseGeneration: string, overlayDigest: Option<string>,
                                   inputDigest: string, principal: string, authorityDigest: string, fence: string,
                                   identity: Identity)

  /** A view without its own hash. */
  datatype Unsigned = Unsigned(handle: string, identity: Identity, requestHash: string, key: string,
                               baseGeneration: string, overlayDigest: Option<string>, authorityDigest: string,
                               fence: string, capability: string, selection: Selection, hit: bool, bytesReused: nat,
                               tokensReused: nat, provenance: Provenance)

  datatype View = View(body: Unsigned, viewHash: string)

  function HandlePrefix(): (prefix: string)
    ensures |prefix| == 4
  {
    "CTX-"
  }

  /** The first 32 characters of the digest, or all of a shorter one. */
  function HandleOf(sv: Services, r: Request, selection: Selection): string {
    var digest := sv.digestHandle(HandleMaterial(r.identity, sv.digestRequest(r), sv.digestSelection(selection),
                                                 r.authorityDigest, r.fence));
    HandlePrefix() + if |digest| <= 32 then digest else digest[..32]
  }

  function ProvenanceOf(sv: Services, call: Call, items: seq<Item>): Provenance {
    var r := call.request;
    Provenance(r.repository, r.baseGeneration, r.overlayDigest, sv.digestItems(items), call.authority.principal,
               sv.digestAuthority(call.authority), call.authority.fence, r.identity)
  }

  /** The view that answers the call with this selection. */
  function ViewOf(sv: Services, call: Call, items: seq<Item>, hit: bool, selection: Selection): View {
    var r, t := call.request, selection.tally;
    var body := Unsigned(HandleOf(sv, r, selection), r.identity, sv.digestRequest(r), CacheKey(sv, r, items),
                         r.baseGeneration, r.overlayDigest, r.authorityDigest, r.fence, r.capability, selection, hit,
                         if hit then t.bytes else 0, if hit then t.tokens else 0, ProvenanceOf(sv, call, items));
    View(body, sv.digestView(body))
  }

  function ScopeOf(sv: Services, r: Request, items: seq<Item>): Scope {
    Scope(r.repository, r.baseGeneration, r.overlayDigest, r.capability, r.goalFragment, r.identity.stage, r.budget,
          r.authorityDigest, r.fence, sv.digestItems(items), r.ttlSeconds,
          if exists item | item in items :: item.overlayDigest.Some? then Some((r.identity.taskId, r.identity.attempt))
          else None)
  }

  function CacheKey(sv: Services, r: Request, items: seq<Item>): string {
    sv.digestScope(ScopeOf(sv, r, items))
  }

  /** The checks, and the items in normal form. */
  function Prepare(sv: Services, call: Call): Result<seq<Item>, ViewError> {
    var authorized := Authorize(sv, call.request, call.authority);
    :- authorized;
    Normalized(sv, call.request, call.authority, call.items)
  }

  function Direct(sv: Services, r: Request, items: seq<Item>): Selection {
    Select(sv, r.identity.stage, r.budget, items)
  }

  /** `materialize`: one call of the service. */
  ghost predicate ViewStep(sv: Services, max: nat, st: Store, call: Call, result: Result<View, ViewError>, after: Store)
  {
    match Prepare(sv, call)
    case Failure(e) => result == Failure(e) && after == st
    case Success(items) =>
      var found := GetStep(sv, st, CacheKey(sv, call.request, items), call.now);
      match found.payload
      case Failure(e) => after == found.store && result == Failure(e)
      case Success(Some(s)) => after == found.store && result == Success(ViewOf(sv, call, items, true, s))
      case Success(None) =>
        var s := Direct(sv, call.request, items);
        && PutStep(sv, max, found.store, CacheKey(sv, call.request, items), s, call.request.ttlSeconds, call.later,
                   after)
        && result == Success(ViewOf(sv, call, items, false, s))
  }

  /** A view is materialised, the cache is cleared, or the process ends and a new one opens what it persisted. */
  datatype Command = Materialize(call: Call) | Clear | Restart

  ghost predicate CommandStep(sv: Services, max: nat, st: Store, command: Command, after: Store) {
    match command
    case Materialize(call) => exists result :: ViewStep(sv, max, st, call, result, after)
    case Clear => after == st.(entries := map[])
    case Restart => Loads(sv, Saved(st.entries), Success(after))
  }

  /** `st` can be reached from the empty cache by the commands. */
  ghost predicate Reaches(sv: Services, max: nat, commands: seq<Command>, st: Store)
    decreases |commands|
  {
    if commands == [] then st == EmptyStore()
    else
      var n := |commands| - 1;
      exists before :: Reaches(sv, max, commands[..n], before) && CommandStep(sv, max, before, commands[n], st)
  }

  /** The command asked for the selection under the key. */
  ghost predicate Asked(sv: Services, command: Command, key: string, payload: Selection) {
    && command.Materialize?
    && var items := Prepare(sv, command.call);
       items.Success? && key == CacheKey(sv, command.call.request, items.value)
       && payload == Direct(sv, command.call.request, items.value)
  }

  ghost predicate Remembered(sv: Services, commands: seq<Command>, entries: map<string, Entry>) {
    forall key | key in entries ::
      exists command | command in commands :: Asked(sv, command, key, entries[key].payload)
  }

  /** What a successful call did to the cache. */
  lemma ViewStepParts(sv: Services, max: nat, st: Store, call: Call, result: Result<View, ViewError>, after: Store)
    requires ViewStep(sv, max, st, call, result, after) && Prepare(sv, call).Success?
    ensures var items := Prepare(sv, call).value;
            var found := GetStep(sv, st, CacheKey(sv, call.request, items), call.now);
            && (found.payload.Failure? ==> result == Failure(found.payload.error) && after == found.store)
            && (found.payload.Success? && found.payload.value.Some? ==>
                  after == found.store && result == Success(ViewOf(sv, call, items, true, found.payload.value.value)))
            && (found.payload == Success(None) ==>
                  var s := Direct(sv, call.request, items);
                  && PutStep(sv, max, found.store, CacheKey(sv, call.request, items), s, call.request.ttlSeconds,
                             call.later, after)
                  && result == Success(ViewOf(sv, call, items, false, s)))
  {
    hide Prepare, Direct, CacheKey, GetStep, PutStep, ViewOf;
  }

  lemma ViewStepKeepsInv(sv: Services, max: nat, st: Store, call: Call, result: Result<View, ViewError>, after: Store)
    requires 0 < max && StoreInv(sv, max, st) && ViewStep(sv, max, st, call, result, after)
    ensures StoreInv(sv, max, after)
  {
    hide Prepare, Direct, CacheKey, GetStep, PutStep, StoreInv, ViewOf;
    if Prepare(sv, call).Success? {
      ViewStepParts(sv, max, st, call, result, after);
      var key := CacheKey(sv, call.request, Prepare(sv, call).value);
      GetKeepsInv(sv, max, st, key, call.now);
      var found := GetStep(sv, st, key, call.now);
      if found.payload == Success(None) {
        PutKeepsInv(sv, max, found.store, key, Direct(sv, call.request, Prepare(sv, call).value),
                    call.request.ttlSeconds, call.later, after);
      }
    }
  }

  lemma CommandKeepsInv(sv: Services, max: nat, st: Store, command: Command, after: Store)
    requires 0 < max && StoreInv(sv, max, st) && CommandStep(sv, max, st, command, after)
    ensures StoreInv(sv, max, after)
  {
    hide ViewStep, Loads, StoreInv;
    match command
    case Materialize(call) =>
      var result :| ViewStep(sv, max, st, call, result, after);
      ViewStepKeepsInv(sv, max, st, call, result, after);
    case Clear =>
      ClearKeepsInv(sv, max, st);
    case Restart =>
      RestartKeepsInv(sv, max, st, Success(after));
  }

  lemma NothingCached(sv: Services, max: nat)
    ensures StoreInv(sv, max, EmptyStore())
  {
  }

  /** In every run, restarts included, the cache keeps its invariant; so nothing it holds is ever found tampered. */
  lemma {:induction false} ReachedInv(sv: Services, max: nat, commands: seq<Command>, st: Store)
    requires 0 < max && Reaches(sv, max, commands, st)
    ensures StoreInv(sv, max, st)
    decreases |commands|
  {
    hide StoreInv, CommandStep, EmptyStore;
    if commands == [] {
      NothingCached(sv, max);
    } else {
      var n := |commands| - 1;
      var before :| Reaches(sv, max, commands[..n], before) && CommandStep(sv, max, before, commands[n], st);
      ReachedInv(sv, max, commands[..n], before);
      CommandKeepsInv(sv, max, before, commands[n], st);
    }
  }

  lemma ClearKeepsInv(sv: Services, max: nat, st: Store)
    requires StoreInv(sv, max, st)
    ensures StoreInv(sv, max, st.(entries := map[]))
  {
  }

  lemma GetKeepsPayloads(sv: Services, st: Store, key: string, now: real)
    ensures forall k | k in GetStep(sv, st, key, now).store.entries ::
              k in st.entries && GetStep(sv, st, key, now).store.entries[k].payload == st.entries[k].payload
    ensures var found := GetStep(sv, st, key, now).payload;
            found.Success? && found.value.Some? ==> key in st.entries && found.value == Some(st.entries[key].payload)
  {
  }

  lemma {:induction false} TrimmedKeepsPayloads(max: nat, before: map<string, Entry>, after: map<string, Entry>)
    requires Trimmed(max, before, after)
    ensures forall k | k in after :: k in before && after[k] == before[k]
    decreases |before|
  {
    hide IsVictim;
    if |before| > max {
      var victim :| IsVictim(before, victim) && Trimmed(max, before - {victim}, after);
      TrimmedSmaller(before, victim);
      TrimmedKeepsPayloads(max, before - {victim}, after);
    }
  }

  lemma TrimmedSmaller(before: map<string, Entry>, victim: string)
    requires IsVictim(before, victim)
    ensures |before - {victim}| < |before|
  {
    WithoutSize(before, victim);
  }

  lemma {:induction false} ReachedRemembers(sv: Services, max: nat, commands: seq<Command>, st: Store)
    requires Reaches(sv, max, commands, st)
    ensures Remembered(sv, commands, st.entries)
    decreases |commands|
  {
    hide CommandStep, Asked;
    if commands == [] {
      assert EmptyStore().entries == map[];
    } else {
      var n := |commands| - 1;
      var before :| Reaches(sv, max, commands[..n], before) && CommandStep(sv, max, before, commands[n], st);
      ReachedRemembers(sv, max, commands[..n], before);
      assert commands[n] in commands && forall c | c in commands[..n] :: c in commands;
      forall key | key in st.entries
        ensures exists command | command in commands :: Asked(sv, command, key, st.entries[key].payload)
      {
        StepRemembers(sv, max, before, commands[n], st, key);
      }
    }
  }

  /** After a step, an entry was there before with the same payload, or the step asked for it. */
  lemma StepRemembers(sv: Services, max: nat, st: Store, command: Command, after: Store, key: string)
    requires CommandStep(sv, max, st, command, after) && key in after.entries
    ensures Asked(sv, command, key, after.entries[key].payload)
            || (key in st.entries && st.entries[key].payload == after.entries[key].payload)
  {
    hide ViewStep, Prepare, Direct, CacheKey;
    if command.Materialize? {
      var result :| ViewStep(sv, max, st, command.call, result, after);
      ViewStepRemembers(sv, max, st, command.call, result, after, key);
    }
  }

  lemma ViewStepRemembers(sv: Services, max: nat, st: Store, call: Call, result: Result<View, ViewError>, after: Store,
                          key: string)
    requires ViewStep(sv, max, st, call, result, after) && key in after.entries
    ensures Asked(sv, Materialize(call), key, after.entries[key].payload)
            || (key in st.entries && st.entries[key].payload == after.entries[key].payload)
  {
    hide Prepare, Direct, CacheKey, GetStep, Trimmed, ViewOf;
    if Prepare(sv, call).Success? {
      var items := Prepare(sv, call).value;
      var asked := CacheKey(sv, call.request, items);
      ViewStepParts(sv, max, st, call, result, after);
      GetKeepsPayloads(sv, st, asked, call.now);
      var found := GetStep(sv, st, asked, call.now);
      if found.payload == Success(None) {
        TrimmedKeepsPayloads(max, Stored(sv, found.store, asked, Direct(sv, call.request, items),
                                         call.request.ttlSeconds, call.later), after.entries);
      }
    }
  }

  /** Two calls whose different scopes, or different items, have the same digest. */
  ghost predicate Collision(sv: Services, c: Call, d: Call) {
    var x, y := Prepare(sv, c), Prepare(sv, d);
    && x.Success? && y.Success?
    && ((ScopeOf(sv, c.request, x.value) != ScopeOf(sv, d.request, y.value)
         && CacheKey(sv, c.request, x.value) == CacheKey(sv, d.request, y.value))
        || (x.value != y.value && sv.digestItems(x.value) == sv.digestItems(y.value)))
  }

  lemma KeyDecides(sv: Services, c: Call, d: Call)
    requires Prepare(sv, c).Success? && Prepare(sv, d).Success? && !Collision(sv, c, d)
    requires CacheKey(sv, c.request, Prepare(sv, c).value) == CacheKey(sv, d.request, Prepare(sv, d).value)
    ensures Direct(sv, c.request, Prepare(sv, c).value) == Direct(sv, d.request, Prepare(sv, d).value)
  {
    hide Prepare, Select;
  }

  /** Whether a call is accepted does not depend on the cache: nothing in it is tampered. */
  lemma ReachedAccepts(sv: Services, max: nat, commands: seq<Command>, st: Store, call: Call,
                       result: Result<View, ViewError>, after: Store)
    requires 0 < max && Reaches(sv, max, commands, st) && ViewStep(sv, max, st, call, result, after)
    ensures result.Success? <==> Prepare(sv, call).Success?
    ensures result.Success? ==>
              result == Success(ViewOf(sv, call, Prepare(sv, call).value, result.value.body.hit,
                                       result.value.body.selection))
  {
    hide Prepare, Direct, CacheKey, GetStep, PutStep, Reaches, StoreInv, HandleOf, ProvenanceOf;
    ReachedInv(sv, max, commands, st);
    if Prepare(sv, call).Success? {
      ViewStepParts(sv, max, st, call, result, after);
      GetKeepsInv(sv, max, st, CacheKey(sv, call.request, Prepare(sv, call).value), call.now);
    }
  }

  /** A hit returns what some earlier call asked for under the same key. */
  lemma HitWasAsked(sv: Services, max: nat, commands: seq<Command>, st: Store, call: Call,
                    result: Result<View, ViewError>, after: Store) returns (command: Command)
    requires Reaches(sv, max, commands, st) && ViewStep(sv, max, st, call, result, after)
    requires Prepare(sv, call).Success? && result.Success? && result.value.body.hit
    ensures command in commands
    ensures Asked(sv, command, CacheKey(sv, call.request, Prepare(sv, call).value), result.value.body.selection)
  {
    hide Prepare, Direct, CacheKey, GetStep, PutStep, Reaches, Asked, HandleOf, ProvenanceOf;
    ViewStepParts(sv, max, st, call, result, after);
    var key := CacheKey(sv, call.request, Prepare(sv, call).value);
    GetKeepsPayloads(sv, st, key, call.now);
    ReachedRemembers(sv, max, commands, st);
    command :| command in commands && Asked(sv, command, key, result.value.body.selection);
  }

  lemma MissIsDirect(sv: Services, max: nat, st: Store, call: Call, result: Result<View, ViewError>, after: Store)
    requires ViewStep(sv, max, st, call, result, after) && Prepare(sv, call).Success? && result.Success?
    requires !result.value.body.hit
    ensures result.value.body.selection == Direct(sv, call.request, Prepare(sv, call).value)
  {
    hide Prepare, Direct, CacheKey, GetStep, PutStep, HandleOf, ProvenanceOf;
    ViewStepParts(sv, max, st, call, result, after);
  }

  /**
   The cache is transparent: whatever ran before from an empty cache, restarts included, and whether the call hits
   or misses, the view holds what `_select` gives directly; or else an earlier call exhibits a digest collision
   with it.
   */
  lemma CacheIsTransparent(sv: Services, max: nat, commands: seq<Command>, st: Store, call: Call,
                           result: Result<View, ViewError>, after: Store)
    requires 0 < max && Reaches(sv, max, commands, st) && ViewStep(sv, max, st, call, result, after)
    ensures result.Success? <==> Prepare(sv, call).Success?
    ensures result.Success? ==>
              result.value.body.selection == Direct(sv, call.request, Prepare(sv, call).value)
              || exists command | command in commands :: command.Materialize? && Collision(sv, command.call, call)
  {
    hide Prepare, Direct, CacheKey, Collision, Reaches, ViewStep, ViewOf;
    ReachedAccepts(sv, max, commands, st, call, result, after);
    if result.Success? {
      if result.value.body.hit {
        var command := HitWasAsked(sv, max, commands, st, call, result, after);
        if !Collision(sv, command.call, call) {
          KeyDecides(sv, command.call, call);
        }
      } else {
        MissIsDirect(sv, max, st, call, result, after);
      }
    }
  }

  /** No reviewer sees an implementer prompt or an implementer's item, from the cache or not. */
  lemma ReviewerIsIsolated(sv: Services, max: nat, commands: seq<Command>, st: Store, call: Call,
                           result: Result<View, ViewError>, after: Store, record: Record)
    requires 0 < max && Reaches(sv, max, commands, st) && ViewStep(sv, max, st, call, result, after)
    requires result.Success? && record in result.value.body.selection.tally.selected
    requires IsReviewer(sv, call.request.identity.stage)
    requires forall command | command in commands && command.Materialize? :: !Collision(sv, command.call, call)
    ensures record.item.kind != ImplementerPrompt && record.item.visibility != Implementer
  {
    hide Prepare, Select, ViewStep, Reaches, Collision, IsReviewer;
    CacheIsTransparent(sv, max, commands, st, call, result, after);
    SelectVisible(sv, call.request.identity.stage, call.request.budget, Prepare(sv, call).value, record);
  }

  /** Permuting or repeating the items changes nothing: acceptance, key, view and cache are the same. */
  lemma ViewIgnoresOrder(sv: Services, max: nat, st: Store, call: Call, others: seq<Item>, view: View, after: Store)
    requires forall x :: x in call.items <==> x in others
    requires ViewStep(sv, max, st, call, Success(view), after)
    ensures ViewStep(sv, max, st, call.(items := others), Success(view), after)
  {
    hide Normalized, Direct, CacheKey, GetStep, PutStep, Authorize, HandleOf;
    NormalizedIgnoresOrder(sv, call.request, call.authority, call.items, others);
  }

  // ---------- Verifying a view ----------

  /** `verify_context_view`. */
  function VerifyView(sv: Services, view: View, r: Request, a: Authority): Outcome<ViewError> {
    var body := view.body;
    if view.viewHash != sv.digestView(body) then Fail(ViewTampered)
    else if body.requestHash != sv.digestRequest(r) then Fail(RequestHashMismatch)
    else if body.baseGeneration != r.baseGeneration then Fail(BaseGenerationMismatch)
    else if body.overlayDigest != r.overlayDigest then Fail(OverlayDigestMismatch)
    else if body.authorityDigest != sv.digestAuthority(a) then Fail(AuthorityDigestMismatch)
    else if body.fence != a.fence then Fail(FenceMismatch)
    else if body.capability != r.capability then Fail(CapabilityMismatch)
    else if body.identity != r.identity then Fail(IdentityMismatch)
    else if !(HandlePrefix() <= body.handle) then Fail(ViewHandleInvalid)
    else Pass
  }

  lemma AcceptedAuthority(sv: Services, call: Call)
    requires Prepare(sv, call).Success?
    ensures call.request.authorityDigest == sv.digestAuthority(call.authority)
    ensures call.request.fence == call.authority.fence
  {
    hide Normalized;
  }

  lemma IssuedBody(sv: Services, max: nat, st: Store, call: Call, result: Result<View, ViewError>, after: Store)
    requires ViewStep(sv, max, st, call, result, after) && result.Success?
    ensures Prepare(sv, call).Success?
    ensures result == Success(ViewOf(sv, call, Prepare(sv, call).value, result.value.body.hit,
                                     result.value.body.selection))
  {
    hide Prepare, Direct, CacheKey, GetStep, PutStep, HandleOf, ProvenanceOf;
  }

  /**
   What `materialize` returns, from whatever cache, verifies for its own request and authority. For another request
   and authority it verifies if and only if the requests have one digest and agree on generation, overlay, capability
   and identity, and the authorities have one digest and one fence. Other content under its hash verifies only when
   the two contents collide in their digest.
   */
  lemma IssuedViewVerifiesIff(sv: Services, max: nat, st: Store, call: Call, result: Result<View, ViewError>,
                              after: Store, r: Request, a: Authority, other: Unsigned)
    requires ViewStep(sv, max, st, call, result, after) && result.Success?
    ensures VerifyView(sv, result.value, call.request, call.authority).Pass?
    ensures VerifyView(sv, result.value, r, a).Pass?
            <==> && sv.digestRequest(r) == sv.digestRequest(call.request)
                 && r.baseGeneration == call.request.baseGeneration && r.overlayDigest == call.request.overlayDigest
                 && r.capability == call.request.capability && r.identity == call.request.identity
                 && sv.digestAuthority(a) == sv.digestAuthority(call.authority) && a.fence == call.authority.fence
    ensures VerifyView(sv, result.value.(body := other), r, a).Pass? ==>
              sv.digestView(other) == sv.digestView(result.value.body)
  {
    hide Prepare, CacheKey, ViewStep, HandlePrefix, HandleOf, ProvenanceOf;
    IssuedBody(sv, max, st, call, result, after);
    AcceptedAuthority(sv, call);
    PrefixOfHandle(sv, call.request, result.value.body.selection);
  }

  lemma PrefixOfHandle(sv: Services, r: Request, selection: Selection)
    ensures HandlePrefix() <= HandleOf(sv, r, selection)
  {
    hide HandlePrefix;
  }

  // ---------- The objects ----------

  /** Opens a cache on the file behind it, if any. */
  method OpenCache(services: Services, max: nat, persistent: bool, file: File)
    returns (result: Result<ContextViewCache, ViewError>)
    requires 0 < max
    ensures result.Failure? ==> persistent && Loads(services, file, Failure(result.error))
    ensures result.Success? ==>
      var c := result.value;
      && fresh(c) && c.sv == services && c.maxEntries == max && c.persistent == persistent && c.file == file
      && Loads(services, if persistent then file else Absent, Success(c.Abstract())) && c.Synced()
  {
    if !persistent || file.Absent? {
      var empty := new ContextViewCache(services, max, persistent, file, map[], 0);
      return Success(empty);
    }
    if file.Unreadable? {
      return Failure(CacheTampered);
    }
    var entries := file.entries;
    if k :| k in entries && !Intact(services, entries[k]) {
      return Failure(CacheTampered);
    }
    var last := FindLastPlace(entries);
    var c := new ContextViewCache(services, max, persistent, file, entries, last);
    result := Success(c);
  }

  /** The loop of `max` over the places. */
  method FindLastPlace(entries: map<string, Entry>) returns (last: nat)
    ensures IsLastPlace(entries, last)
  {
    last := 0;
    var rest := entries.Keys;
    while rest != {}
      invariant rest <= entries.Keys
      invariant forall k | k in entries && k !in rest :: entries[k].accessOrder <= last
      invariant last == 0 || exists k | k in entries :: entries[k].accessOrder == last
    {
      var key :| key in rest;
      if entries[key].accessOrder > last {
        last := entries[key].accessOrder;
      }
      rest := rest - {key};
    }
  }

  class ContextViewCache {
    const sv: Services
    const maxEntries: nat
    const persistent: bool
    var file: File
    var entries: map<string, Entry>
    var sequence: nat
    var metrics: Metrics

    ghost function Abstract(): Store
      reads this
    {
      Store(entries, sequence, metrics)
    }

    /** The file holds the entries; an empty cache may not have written it yet. */
    ghost predicate Synced()
      reads this
    {
      persistent ==> file == Saved(entries) || (file == Absent && entries == map[])
    }

    constructor (services: Services, max: nat, persist: bool, existing: File, loaded: map<string, Entry>, last: nat)
      ensures sv == services && maxEntries == max && persistent == persist && file == existing
      ensures Abstract() == EmptyStore().(entries := loaded, sequence := last)
    {
      sv, maxEntries, persistent, file := services, max, persist, existing;
      entries, sequence, metrics := loaded, last, Metrics(0, 0, 0, 0, 0);
    }

    /** `_persist`. */
    method Persist()
      modifies this`file
      ensures file == (if persistent then Saved(entries) else old(file)) && Synced()
    {
      if persistent {
        file := Saved(entries);
      }
    }

    method Get(key: string, now: real) returns (payload: Result<Option<Selection>, ViewError>)
      modifies this
      ensures GetStep(sv, old(Abstract()), key, now) == Found(Abstract(), payload)
      ensures old(Synced()) ==> Synced()
    {
      metrics := metrics.(lookups := metrics.lookups + 1);
      if key !in entries {
        metrics := metrics.(misses := metrics.misses + 1);
        return Success(None);
      }
      var entry := entries[key];
      if entry.expiresAt <= now {
        entries := entries - {key};
        metrics := metrics.(expired := metrics.expired + 1);
        metrics := metrics.(misses := metrics.misses + 1);
        Persist();
        return Success(None);
      }
      if entry.checksum != sv.digestSelection(entry.payload) {
        return Failure(CacheTampered);
      }
      sequence := sequence + 1;
      entries := entries[key := entry.(accessOrder := sequence)];
      metrics := metrics.(hits := metrics.hits + 1);
      Persist();
      payload := Success(Some(entry.payload));
    }

    method Put(key: string, payload: Selection, ttl: nat, now: real)
      modifies this
      ensures PutStep(sv, maxEntries, old(Abstract()), key, payload, ttl, now, Abstract())
      ensures Synced()
    {
      sequence := sequence + 1;
      entries := entries[key := Entry(payload, sv.digestSelection(payload), now + ttl as real, sequence)];
      ghost var stored := entries;
      StoredEntry(sv, old(Abstract()), key, payload, ttl, now);
      ghost var before := metrics.evicted;
      while |entries| > maxEntries
        invariant |entries| <= |stored| && sequence == old(sequence) + 1
        invariant forall after :: Trimmed(maxEntries, entries, after) ==> Trimmed(maxEntries, stored, after)
        invariant metrics == old(metrics).(evicted := before + |stored| - |entries|)
        decreases |entries|
      {
        var victim := FindVictim(entries);
        TrimmedSmaller(entries, victim);
        WithoutSize(entries, victim);
        entries := entries - {victim};
        metrics := metrics.(evicted := metrics.evicted + 1);
      }
      assert Trimmed(maxEntries, entries, entries);
      Persist();
    }

    method Clear()
      modifies this
      ensures Abstract() == old(Abstract()).(entries := map[]) && Synced()
    {
      entries := map[];
      Persist();
    }
  }

  lemma StoredEntry(sv: Services, st: Store, key: string, payload: Selection, ttl: nat, now: real)
    ensures Stored(sv, st, key, payload, ttl, now)
            == st.entries[key := Entry(payload, sv.digestSelection(payload), now + ttl as real, st.sequence + 1)]
  {
  }

  /** The loop of `materialize` over the items, with its dictionary by handle. */
  method GatherItems(sv: Services, r: Request, a: Authority, items: seq<Item>)
    returns (result: Result<seq<Item>, ViewError>)
    ensures result == Gather(sv, r, a, items)
  {
    hide CheckItem;
    var byHandle: map<string, Item> := map[];
    var found: seq<Item> := [];
    for i := 0 to |items|
      invariant Gather(sv, r, a, items[..i]) == Success(found)
      invariant forall x | x in found :: x.handle in byHandle && byHandle[x.handle] == x
      invariant forall h | h in byHandle :: byHandle[h] in found && byHandle[h].handle == h
    {
      var item := items[i];
      GatherSnoc(sv, r, a, items, i);
      var checked := CheckItem(sv, r, a, item);
      if checked.Fail? {
        GatherFailsOn(sv, r, a, items, i + 1);
        return Failure(checked.error);
      }
      if item.handle in byHandle {
        if byHandle[item.handle] != item {
          GatherFailsOn(sv, r, a, items, i + 1);
          return Failure(HandleCollision);
        }
      } else {
        found := found + [item];
        byHandle := byHandle[item.handle := item];
      }
    }
    assert items[..|items|] == items;
    result := Success(found);
  }

  lemma GatherSnoc(sv: Services, r: Request, a: Authority, items: seq<Item>, i: nat)
    requires i < |items|
    ensures items[..i + 1][..i] == items[..i]
  {
  }

  lemma {:induction false} GatherFailsOn(sv: Services, r: Request, a: Authority, items: seq<Item>, i: nat)
    requires i <= |items| && Gather(sv, r, a, items[..i]).Failure?
    ensures Gather(sv, r, a, items) == Gather(sv, r, a, items[..i])
  {
    hide CheckItem;
    if i == |items| {
      assert items[..i] == items;
    } else {
      assert items[..|items| - 1][..i] == items[..i];
      GatherFailsOn(sv, r, a, items[..|items| - 1], i);
    }
  }

  class ContextViewService {
    const sv: Services
    const cache: ContextViewCache

    constructor (services: Services, store: ContextViewCache)
      ensures sv == services && cache == store
    {
      sv, cache := services, store;
    }

    method Materialize(call: Call) returns (result: Result<View, ViewError>)
      requires cache.sv == sv
      modifies cache
      ensures ViewStep(sv, cache.maxEntries, old(cache.Abstract()), call, result, cache.Abstract())
      ensures old(cache.Synced()) ==> cache.Synced()
    {
      hide Gather, Authorize, CacheKey, GetStep, PutStep, Select, HandleOf, ProvenanceOf;
      var authorized := Authorize(sv, call.request, call.authority);
      if authorized.Fail? {
        return Failure(authorized.error);
      }
      var gathered := GatherItems(sv, call.request, call.authority, call.items);
      if gathered.Failure? {
        return Failure(gathered.error);
      }
      var normalized := Sort(NormalLe, gathered.value);
      var key := CacheKey(sv, call.request, normalized);
      var found := cache.Get(key, call.now);
      if found.Failure? {
        return Failure(found.error);
      }
      if found.value.Some? {
        return Success(ViewOf(sv, call, normalized, true, found.value.value));
      }
      var direct := SelectItems(sv, call.request, normalized);
      cache.Put(key, direct, call.request.ttlSeconds, call.later);
      result := Success(ViewOf(sv, call, normalized, false, direct));
    }
  }
}
