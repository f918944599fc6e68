/**
 Validation of a changeset against a file tree: the operations are simulated on an overlay of the tree.

 A tree maps paths to contents. Paths are normalised and follow no symbolic links.
 */
module ChangeSetValidate {
  import opened Bytes
  import opened ChangeSet
  import opened Wrappers

  type Tree = map<string, Bytes>
  type Overlay = map<string, Option<Bytes>>

  datatype Status = Ready | Idempotent

  datatype Rejection =
    | RepositoryMismatch | LeaseMismatch | FenceMismatch
    | TargetExists | SourceMissing | StaleSource | AfterHashMismatch | RenameDestinationExists
    | ReplaceLineMapRequired | EncodingMismatch | LineMapOutOfRange

  // ---------- Hash matching ----------

  /** Every line break becomes a single line feed. */
  function UnixNewlines(text: string): string {
    if text == "" then ""
    else if text[0] == '\r' then
      if |text| > 1 && text[1] == '\n' then "\n" + UnixNewlines(text[2..]) else "\n" + UnixNewlines(text[1..])
    else [text[0]] + UnixNewlines(text[1..])
  }

  function NormalizedSha(k: Codecs, data: Bytes): string {
    var text := k.decode("utf-8", data);
    if text.None? then Sha256Hex(k, data) else Sha256Hex(k, k.encodeUtf8(UnixNewlines(text.value)))
  }

  /** `_matches_hash`. */
  predicate Matches(k: Codecs, data: Bytes, expected: Option<string>) {
    expected.Some? && (expected.value == Sha256Hex(k, data) || expected.value == NormalizedSha(k, data))
  }

  // ---------- Replacing a range of lines ----------

  /** The length of the first line with its line break. */
  function LineLength(text: string): (n: nat)
    requires text != ""
    ensures 0 < n <= |text|
  {
    if text[0] == '\n' then 1
    else if text[0] == '\r' then if |text| > 1 && text[1] == '\n' then 2 else 1
    else if |text| == 1 then 1
    else 1 + LineLength(text[1..])
  }

  /** `splitlines(keepends=True)`. */
  function SplitLines(text: string): (lines: seq<string>) {
    if text == "" then [] else [text[..LineLength(text)]] + SplitLines(text[LineLength(text)..])
  }

  function Join(lines: seq<string>): string {
    if lines == [] then "" else lines[0] + Join(lines[1..])
  }

  lemma {:induction false} JoinSplit(text: string)
    ensures Join(SplitLines(text)) == text
  {
    if text != "" {
      JoinSplit(text[LineLength(text)..]);
    }
  }

  lemma JoinCons(line: string, lines: seq<string>)
    ensures Join([]) == "" && Join([line] + lines) == line + Join(lines)
  {
    assert ([line] + lines)[1..] == lines;
  }

  lemma {:induction false} JoinConcat(a: seq<string>, b: seq<string>)
    ensures Join(a + b) == Join(a) + Join(b)
  {
    hide Join;
    JoinCons("", []);
    if a == [] {
      assert a + b == b;
    } else {
      JoinConcat(a[1..], b);
      JoinCons(a[0], a[1..]);
      JoinCons(a[0], a[1..] + b);
      assert a == [a[0]] + a[1..] && a + b == [a[0]] + (a[1..] + b);
    }
  }

  predicate EndsInBreak(text: string) {
    text != "" && (text[|text| - 1] == '\n' || text[|text| - 1] == '\r')
  }

  predicate HasCrLf(text: string) {
    exists i | 0 <= i < |text| - 1 :: text[i] == '\r' && text[i + 1] == '\n'
  }

  function WithNewline(text: string, newline: string): string {
    if text == "" then ""
    else (if text[0] == '\n' then newline else [text[0]]) + WithNewline(text[1..], newline)
  }

  /** What the source demands of a line map once it is there. */
  predicate LinesOk(o: ChangeOperation) {
    && (o.lineMap.Some? ==> 1 <= o.lineMap.value.start <= o.lineMap.value.end)
    && (o.op == Rename ==> o.dest.Some? && o.dest.value != o.path)
  }

  /** The replacement in the file's own newline style, ending in a break if the last replaced line did. */
  function Replacement(text: string, lines: seq<string>, raw: string, end: nat): string
    requires 1 <= end <= |lines|
  {
    var newline := if HasCrLf(text) then "\r\n" else "\n";
    var closed := if raw != "" && !EndsInBreak(raw) && EndsInBreak(lines[end - 1]) then raw + newline else raw;
    WithNewline(UnixNewlines(closed), newline)
  }

  function ReplacedText(o: ChangeOperation, text: string, raw: string): Result<string, Rejection>
    requires LinesOk(o) && o.lineMap.Some?
  {
    var lines := SplitLines(text);
    var start, end := o.lineMap.value.start, o.lineMap.value.end;
    if end > |lines| then Failure(LineMapOutOfRange)
    else Success(Join(lines[..start - 1] + [Replacement(text, lines, raw, end)] + lines[end..]))
  }

  /** `_replace`. */
  function Replace(k: Codecs, current: Bytes, o: ChangeOperation): Result<Bytes, Rejection>
    requires LinesOk(o)
  {
    if o.encoding.None? || o.lineMap.None? then Failure(ReplaceLineMapRequired)
    else
      var content := if o.contentB64.None? then Some([]) else k.unb64(o.contentB64.value);
      var text := k.decode(o.encoding.value, current);
      var raw := if content.None? then None else k.decode(o.encoding.value, content.value);
      if text.None? || raw.None? then Failure(EncodingMismatch)
      else
        var replaced :- ReplacedText(o, text.value, raw.value);
        Success(k.encode(o.encoding.value, replaced))
  }

  /** Replacing lines `start..end` keeps the text before and after them. */
  lemma ReplaceKeepsTheRest(o: ChangeOperation, text: string, raw: string)
    requires LinesOk(o) && o.lineMap.Some? && ReplacedText(o, text, raw).Success?
    ensures var lines, start, end := SplitLines(text), o.lineMap.value.start, o.lineMap.value.end;
            && end <= |lines|
            && text == Join(lines[..start - 1]) + Join(lines[start - 1..end]) + Join(lines[end..])
            && ReplacedText(o, text, raw).value
               == Join(lines[..start - 1]) + Replacement(text, lines, raw, end) + Join(lines[end..])
  {
    hide SplitLines, Replacement, Join;
    var lines, start, end := SplitLines(text), o.lineMap.value.start, o.lineMap.value.end;
    var r := Replacement(text, lines, raw, end);
    JoinSplit(text);
    JoinConcat(lines[..start - 1], lines[start - 1..end]);
    JoinConcat(lines[..start - 1] + lines[start - 1..end], lines[end..]);
    assert lines[..start - 1] + lines[start - 1..end] + lines[end..] == lines;
    JoinConcat(lines[..start - 1], [r]);
    JoinConcat(lines[..start - 1] + [r], lines[end..]);
    JoinOne(r);
  }

  lemma JoinOne(line: string)
    ensures Join([line]) == line
  {
    assert Join([line][1..]) == "";
    assert line + "" == line;
  }

  // ---------- One operation ----------

  function Find(tree: Tree, path: string): Option<Bytes> {
    if path in tree then Some(tree[path]) else None
  }

  /** `state.get(path, _read(path))`. */
  function Seen(tree: Tree, overlay: Overlay, path: string): Option<Bytes> {
    if path in overlay then overlay[path] else Find(tree, path)
  }

  function Content(k: Codecs, o: ChangeOperation): Option<Bytes> {
    if o.contentB64.None? then None else k.unb64(o.contentB64.value)
  }

  /** What an operation does to its own paths, given their contents: a status and the new contents. */
  datatype Effect = Effect(status: Status, path: Option<Bytes>, dest: Option<Bytes>)

  function OpEffect(k: Codecs, o: ChangeOperation, current: Option<Bytes>, dest: Option<Bytes>)
    : Result<Effect, Rejection>
    requires LinesOk(o)
  {
    match o.op
    case Create =>
      if current.None? then Success(Effect(Ready, Content(k, o), dest))
      else if Matches(k, current.value, o.after) then Success(Effect(Idempotent, current, dest))
      else Failure(TargetExists)
    case ReplaceRange =>
      if current.None? then Failure(SourceMissing)
      else if Matches(k, current.value, o.after) then Success(Effect(Idempotent, current, dest))
      else if !Matches(k, current.value, o.before) then Failure(StaleSource)
      else
        var updated :- Replace(k, current.value, o);
        if !Matches(k, updated, o.after) then Failure(AfterHashMismatch)
        else Success(Effect(Ready, Some(updated), dest))
    case Rename =>
      if current.None? then
        if dest.Some? && Matches(k, dest.value, o.after) then Success(Effect(Idempotent, None, dest))
        else Failure(SourceMissing)
      else if !Matches(k, current.value, o.before) then Failure(StaleSource)
      else if dest.Some? then Failure(RenameDestinationExists)
      else Success(Effect(Ready, None, current))
    case Delete =>
      if current.None? then Success(Effect(Idempotent, None, dest))
      else if !Matches(k, current.value, o.before) then Failure(StaleSource)
      else Success(Effect(Ready, None, dest))
  }

  /** The destination an operation looks at; only a rename has one. */
  function DestOf(o: ChangeOperation): Option<string> {
    if o.op == Rename then o.dest else None
  }

  // ---------- Simulation on an overlay ----------

  function StepOverlay(k: Codecs, tree: Tree, overlay: Overlay, o: ChangeOperation)
    : Result<(Overlay, Status), Rejection>
    requires LinesOk(o)
  {
    var current := Seen(tree, overlay, o.path);
    var dest := if DestOf(o).Some? then Seen(tree, overlay, o.dest.value) else None;
    var effect :- OpEffect(k, o, current, dest);
    if effect.status == Idempotent then Success((overlay, Idempotent))
    else if DestOf(o).Some? then Success((overlay[o.dest.value := effect.dest][o.path := effect.path], Ready))
    else Success((overlay[o.path := effect.path], Ready))
  }

  function Simulate(k: Codecs, tree: Tree, overlay: Overlay, ops: seq<ChangeOperation>): Result<seq<Status>, Rejection>
    requires forall o | o in ops :: LinesOk(o)
    decreases |ops|
  {
    if ops == [] then Success([])
    else
      var step :- StepOverlay(k, tree, overlay, ops[0]);
      var rest :- Simulate(k, tree, step.0, ops[1..]);
      Success([step.1] + rest)
  }

  /** The loop of `validate` over the operations. */
  method ValidateOperations(k: Codecs, tree: Tree, ops: seq<ChangeOperation>)
    returns (result: Result<seq<Status>, Rejection>)
    requires forall o | o in ops :: LinesOk(o)
    ensures result == Simulate(k, tree, map[], ops)
  {
    hide StepOverlay;
    var state: Overlay := map[];
    var statuses: seq<Status> := [];
    assert ops[0..] == ops;
    PrependNoStatuses(Simulate(k, tree, map[], ops));
    for i := 0 to |ops|
      invariant Simulate(k, tree, map[], ops) == PrependStatuses(statuses, Simulate(k, tree, state, ops[i..]))
    {
      assert ops[i..][1..] == ops[i + 1..];
      var step := StepOverlay(k, tree, state, ops[i]);
      if step.Failure? {
        return Failure(step.error);
      }
      PrependStatusesTwice(statuses, step.value.1, Simulate(k, tree, step.value.0, ops[i + 1..]));
      state := step.value.0;
      statuses := statuses + [step.value.1];
    }
    assert statuses + [] == statuses;
    result := Success(statuses);
  }

  function PrependStatuses(head: seq<Status>, tail: Result<seq<Status>, Rejection>): Result<seq<Status>, Rejection> {
    if tail.Failure? then tail else Success(head + tail.value)
  }

  lemma PrependNoStatuses(tail: Result<seq<Status>, Rejection>)
    ensures PrependStatuses([], tail) == tail
  {
    if tail.Success? {
      assert [] + tail.value == tail.value;
    }
  }

  lemma PrependStatusesTwice(head: seq<Status>, s: Status, tail: Result<seq<Status>, Rejection>)
    ensures PrependStatuses(head, PrependStatuses([s], tail)) == PrependStatuses(head + [s], tail)
  {
    if tail.Success? {
      assert head + ([s] + tail.value) == head + [s] + tail.value;
    }
  }

  predicate AllIdempotent(statuses: seq<Status>) {
    forall i | 0 <= i < |statuses| :: statuses[i] == Idempotent
  }

  /** `validate`: bindings, then the simulation. */
  function Validate(k: Codecs, c: ChangeSet, root: string, lease: Option<string>, fence: Option<string>, tree: Tree)
    : Result<seq<Status>, Rejection>
    requires forall o | o in c.operations :: LinesOk(o)
  {
    if c.repository != root then Failure(RepositoryMismatch)
    else if lease.Some? && c.leaseId != lease.value then Failure(LeaseMismatch)
    else if fence.Some? && c.fencingToken != fence.value then Failure(FenceMismatch)
    else Simulate(k, tree, map[], c.operations)
  }

  // ---------- Performing the operations on the tree itself ----------

  function SetFile(tree: Tree, path: string, content: Option<Bytes>): Tree {
    if content.Some? then tree[path := content.value] else tree - {path}
  }

  function Perform(k: Codecs, tree: Tree, o: ChangeOperation): Result<(Tree, Status), Rejection>
    requires LinesOk(o)
  {
    var dest := if DestOf(o).Some? then Find(tree, o.dest.value) else None;
    var effect :- OpEffect(k, o, Find(tree, o.path), dest);
    if effect.status == Idempotent then Success((tree, Idempotent))
    else if DestOf(o).Some? then
      Success((SetFile(SetFile(tree, o.dest.value, effect.dest), o.path, effect.path), Ready))
    else Success((SetFile(tree, o.path, effect.path), Ready))
  }

  /** Performing every operation in order, each on the tree the one before it left. */
  function PerformAll(k: Codecs, tree: Tree, ops: seq<ChangeOperation>): Result<(Tree, seq<Status>), Rejection>
    requires forall o | o in ops :: LinesOk(o)
    decreases |ops|
  {
    if ops == [] then Success((tree, []))
    else
      var step :- Perform(k, tree, ops[0]);
      var rest :- PerformAll(k, step.0, ops[1..]);
      Success((rest.0, [step.1] + rest.1))
  }

  /** The tree that the overlay shows. */
  ghost predicate Shows(tree: Tree, overlay: Overlay, shown: Tree) {
    forall p :: Seen(tree, overlay, p) == Find(shown, p)
  }

  lemma StepRefines(k: Codecs, tree: Tree, overlay: Overlay, shown: Tree, o: ChangeOperation)
    requires LinesOk(o) && Shows(tree, overlay, shown)
    ensures var s, p := StepOverlay(k, tree, overlay, o), Perform(k, shown, o);
            && (s.Failure? <==> p.Failure?) && (s.Failure? ==> s.error == p.error)
            && (s.Success? ==> s.value.1 == p.value.1 && Shows(tree, s.value.0, p.value.0))
  {
    assert Seen(tree, overlay, o.path) == Find(shown, o.path);
    if DestOf(o).Some? {
      assert Seen(tree, overlay, o.dest.value) == Find(shown, o.dest.value);
    }
    var s := StepOverlay(k, tree, overlay, o);
    if s.Success? {
      var after := Perform(k, shown, o).value.0;
      forall p ensures Seen(tree, s.value.0, p) == Find(after, p) {
        assert Seen(tree, overlay, p) == Find(shown, p);
      }
    }
  }

  /** The overlay simulation is the real execution: same verdict, same statuses, without touching the tree. */
  lemma {:induction false} SimulationRefines(k: Codecs, tree: Tree, overlay: Overlay, shown: Tree,
                                             ops: seq<ChangeOperation>)
    requires (forall o | o in ops :: LinesOk(o)) && Shows(tree, overlay, shown)
    ensures var s, p := Simulate(k, tree, overlay, ops), PerformAll(k, shown, ops);
            && (s.Failure? <==> p.Failure?)
            && (if s.Failure? then s.error == p.error else s.value == p.value.1)
    decreases |ops|
  {
    hide StepOverlay, Perform, Shows, LinesOk;
    if ops != [] {
      StepRefines(k, tree, overlay, shown, ops[0]);
      var step := StepOverlay(k, tree, overlay, ops[0]);
      if step.Success? {
        SimulationRefines(k, tree, step.value.0, Perform(k, shown, ops[0]).value.0, ops[1..]);
      }
    }
  }

  // ---------- Idempotence ----------

  function Touched(o: ChangeOperation): (paths: set<string>) {
    {o.path} + if DestOf(o).Some? then {o.dest.value} else {}
  }

  /** No two operations share a path. */
  ghost predicate PairwiseDisjoint(ops: seq<ChangeOperation>) {
    forall i, j | 0 <= i < j < |ops| :: Touched(ops[i]) !! Touched(ops[j])
  }

  /** The one hash check that a ready create and a ready rename leave out: what they write matches `after`. */
  predicate Honest(k: Codecs, tree: Tree, o: ChangeOperation) {
    && (o.op == Create && o.path !in tree ==> Content(k, o).Some? && Matches(k, Content(k, o).value, o.after))
    && (o.op == Rename && o.path in tree ==> Matches(k, tree[o.path], o.after))
  }

  /** The operation finds its work already done. */
  predicate Settled(k: Codecs, tree: Tree, o: ChangeOperation)
    requires LinesOk(o)
  {
    Perform(k, tree, o) == Success((tree, Idempotent))
  }

  ghost predicate AgreeOn(a: Tree, b: Tree, paths: set<string>) {
    forall p | p in paths :: Find(a, p) == Find(b, p)
  }

  lemma PerformFrame(k: Codecs, tree: Tree, o: ChangeOperation, p: string)
    requires LinesOk(o) && Perform(k, tree, o).Success? && p !in Touched(o)
    ensures Find(Perform(k, tree, o).value.0, p) == Find(tree, p)
  {
    hide OpEffect;
  }

  lemma {:induction false} PerformAllFrame(k: Codecs, tree: Tree, ops: seq<ChangeOperation>, p: string)
    requires (forall o | o in ops :: LinesOk(o)) && PerformAll(k, tree, ops).Success?
    requires forall i | 0 <= i < |ops| :: p !in Touched(ops[i])
    ensures Find(PerformAll(k, tree, ops).value.0, p) == Find(tree, p)
    decreases |ops|
  {
    hide Perform, Find, LinesOk, Touched;
    if ops != [] {
      PerformFrame(k, tree, ops[0], p);
      PerformAllFrame(k, Perform(k, tree, ops[0]).value.0, ops[1..], p);
    }
  }

  /** Performing one operation settles it exactly when its hashes are honest. */
  lemma PerformedIsSettled(k: Codecs, tree: Tree, o: ChangeOperation)
    requires LinesOk(o) && Perform(k, tree, o).Success?
    ensures Settled(k, Perform(k, tree, o).value.0, o) <==> Honest(k, tree, o)
  {
    hide Matches, Replace, Content;
  }

  /** Whether an operation is settled, and whether it is honest, depends only on its own paths. */
  lemma LocalToPaths(k: Codecs, a: Tree, b: Tree, o: ChangeOperation)
    requires LinesOk(o) && AgreeOn(a, b, Touched(o))
    ensures Settled(k, a, o) <==> Settled(k, b, o)
    ensures Honest(k, a, o) <==> Honest(k, b, o)
  {
    hide Matches, Replace, Content, OpEffect;
    assert Find(a, o.path) == Find(b, o.path);
    if DestOf(o).Some? {
      assert Find(a, o.dest.value) == Find(b, o.dest.value);
    }
    SettledByEffect(k, a, o);
    SettledByEffect(k, b, o);
  }

  function Destination(tree: Tree, o: ChangeOperation): Option<Bytes>
    requires LinesOk(o)
  {
    if DestOf(o).Some? then Find(tree, o.dest.value) else None
  }

  lemma SettledByEffect(k: Codecs, tree: Tree, o: ChangeOperation)
    requires LinesOk(o)
    ensures var effect := OpEffect(k, o, Find(tree, o.path), Destination(tree, o));
            Settled(k, tree, o) <==> effect.Success? && effect.value.status == Idempotent
  {
    hide OpEffect;
  }

  /** All operations settled means that performing them again changes nothing and reports every one idempotent. */
  lemma {:induction false} SettledAll(k: Codecs, tree: Tree, ops: seq<ChangeOperation>)
    requires forall o | o in ops :: LinesOk(o)
    ensures (forall o | o in ops :: Settled(k, tree, o))
            <==> PerformAll(k, tree, ops).Success? && AllIdempotent(PerformAll(k, tree, ops).value.1)
    decreases |ops|
  {
    hide LinesOk, Perform;
    if ops != [] {
      IdempotentIsSettled(k, tree, ops[0]);
      if Settled(k, tree, ops[0]) {
        SettledAll(k, tree, ops[1..]);
        assert ops == [ops[0]] + ops[1..];
        if PerformAll(k, tree, ops).Success? {
          assert PerformAll(k, tree, ops).value.1[1..] == PerformAll(k, tree, ops[1..]).value.1;
          AllIdempotentCons(PerformAll(k, tree, ops).value.1);
        }
      } else if PerformAll(k, tree, ops).Success? {
        assert PerformAll(k, tree, ops).value.1[0] == Ready;
        assert ops[0] in ops;
      }
    }
  }

  lemma IdempotentIsSettled(k: Codecs, tree: Tree, o: ChangeOperation)
    requires LinesOk(o)
    ensures Perform(k, tree, o).Success? && Perform(k, tree, o).value.1 == Idempotent <==> Settled(k, tree, o)
  {
    hide OpEffect;
  }

  lemma AllIdempotentCons(statuses: seq<Status>)
    requires statuses != []
    ensures AllIdempotent(statuses) <==> statuses[0] == Idempotent && AllIdempotent(statuses[1..])
  {
    if statuses[0] == Idempotent && AllIdempotent(statuses[1..]) {
      forall i | 0 <= i < |statuses| ensures statuses[i] == Idempotent {
        assert i > 0 ==> statuses[i] == statuses[1..][i - 1];
      }
    }
  }

  /**
   With disjoint paths every operation runs as if alone: on a tree that agrees with the first one on its own
   paths, and what it leaves there is still there at the end.
   */
  lemma {:induction false} DisjointAt(k: Codecs, tree: Tree, ops: seq<ChangeOperation>, o: ChangeOperation)
    returns (before: Tree)
    requires (forall x | x in ops :: LinesOk(x)) && PairwiseDisjoint(ops)
    requires PerformAll(k, tree, ops).Success? && o in ops
    ensures Perform(k, before, o).Success? && AgreeOn(before, tree, Touched(o))
    ensures AgreeOn(PerformAll(k, tree, ops).value.0, Perform(k, before, o).value.0, Touched(o))
    decreases |ops|
  {
    hide LinesOk, Perform, Touched;
    var t1 := Perform(k, tree, ops[0]).value.0;
    if o == ops[0] {
      before := tree;
      forall p | p in Touched(o) ensures Find(PerformAll(k, tree, ops).value.0, p) == Find(t1, p) {
        forall i | 0 <= i < |ops[1..]| ensures p !in Touched(ops[1..][i]) {
          assert Touched(ops[0]) !! Touched(ops[i + 1]);
        }
        PerformAllFrame(k, t1, ops[1..], p);
      }
    } else {
      before := DisjointAt(k, t1, ops[1..], o);
      var i :| 0 < i < |ops| && ops[i] == o;
      assert Touched(ops[0]) !! Touched(ops[i]);
      forall p | p in Touched(o) ensures Find(before, p) == Find(tree, p) {
        PerformFrame(k, tree, ops[0], p);
      }
    }
  }

  /** With disjoint paths, an operation is settled at the end exactly when it was honest. */
  lemma DisjointSettled(k: Codecs, tree: Tree, ops: seq<ChangeOperation>, o: ChangeOperation)
    requires (forall x | x in ops :: LinesOk(x)) && PairwiseDisjoint(ops)
    requires PerformAll(k, tree, ops).Success? && o in ops
    ensures Settled(k, PerformAll(k, tree, ops).value.0, o) <==> Honest(k, tree, o)
  {
    hide LinesOk, Honest, Settled, Perform, PerformAll, Touched;
    var before := DisjointAt(k, tree, ops, o);
    PerformedIsSettled(k, before, o);
    LocalToPaths(k, PerformAll(k, tree, ops).value.0, Perform(k, before, o).value.0, o);
    LocalToPaths(k, before, tree, o);
  }

  /**
   Re-validation after application. If `validate` accepts operations on disjoint paths, then on the tree that
   performing them leaves it accepts again and reports every operation idempotent, if and only if every ready
   create and every ready rename writes content that matches its `after` hash.
   */
  lemma RevalidationIsIdempotent(k: Codecs, tree: Tree, ops: seq<ChangeOperation>)
    requires (forall o | o in ops :: LinesOk(o)) && PairwiseDisjoint(ops) && Simulate(k, tree, map[], ops).Success?
    ensures PerformAll(k, tree, ops).Success?
    ensures var again := Simulate(k, PerformAll(k, tree, ops).value.0, map[], ops);
            (again.Success? && AllIdempotent(again.value)) <==> (forall o | o in ops :: Honest(k, tree, o))
  {
    hide LinesOk, Honest, Settled, Simulate, PerformAll, AllIdempotent;
    SimulationRefines(k, tree, map[], tree, ops);
    var after := PerformAll(k, tree, ops).value.0;
    SimulationRefines(k, after, map[], after, ops);
    SettledAll(k, after, ops);
    forall o | o in ops ensures Settled(k, after, o) <==> Honest(k, tree, o) {
      DisjointSettled(k, tree, ops, o);
    }
  }

  /** A create with its payload, as `from_dict` demands. */
  predicate HasPayload(k: Codecs, o: ChangeOperation) {
    o.op == Create ==> Content(k, o).Some?
  }

  /** Right after it was performed, an operation is accepted again exactly when it was honest. */
  lemma PerformedIsAccepted(k: Codecs, tree: Tree, o: ChangeOperation)
    requires LinesOk(o) && HasPayload(k, o) && Perform(k, tree, o).Success?
    ensures Perform(k, Perform(k, tree, o).value.0, o).Success? <==> Honest(k, tree, o)
  {
    hide Matches, Replace, Content;
  }

  /** Whether an operation is accepted depends only on its own paths. */
  lemma AcceptedIsLocal(k: Codecs, a: Tree, b: Tree, o: ChangeOperation)
    requires LinesOk(o) && AgreeOn(a, b, Touched(o))
    ensures Perform(k, a, o).Success? <==> Perform(k, b, o).Success?
  {
    hide OpEffect;
    assert Find(a, o.path) == Find(b, o.path);
    if DestOf(o).Some? {
      assert Find(a, o.dest.value) == Find(b, o.dest.value);
    }
  }

  /** Operations on disjoint paths are accepted in order exactly when each is accepted alone. */
  lemma {:induction false} DisjointAccepted(k: Codecs, tree: Tree, ops: seq<ChangeOperation>)
    requires (forall o | o in ops :: LinesOk(o)) && PairwiseDisjoint(ops)
    ensures PerformAll(k, tree, ops).Success? <==> forall o | o in ops :: Perform(k, tree, o).Success?
    decreases |ops|
  {
    hide LinesOk, Perform, Touched;
    if ops != [] {
      assert ops == [ops[0]] + ops[1..];
      if Perform(k, tree, ops[0]).Success? {
        var t1 := Perform(k, tree, ops[0]).value.0;
        DisjointAccepted(k, t1, ops[1..]);
        forall o | o in ops[1..] ensures Perform(k, t1, o).Success? <==> Perform(k, tree, o).Success? {
          var i :| 0 <= i < |ops[1..]| && ops[1..][i] == o;
          assert Touched(ops[0]) !! Touched(ops[i + 1]);
          forall p | p in Touched(o) ensures Find(t1, p) == Find(tree, p) {
            PerformFrame(k, tree, ops[0], p);
          }
          AcceptedIsLocal(k, t1, tree, o);
        }
      }
    }
  }

  /**
   When `validate` accepts at all after application: for disjoint paths and payloads that are there, exactly
   when every operation was honest, and then it reports every one idempotent.
   */
  lemma RevalidationAcceptsIff(k: Codecs, tree: Tree, ops: seq<ChangeOperation>)
    requires (forall o | o in ops :: LinesOk(o) && HasPayload(k, o)) && PairwiseDisjoint(ops)
    requires Simulate(k, tree, map[], ops).Success?
    ensures PerformAll(k, tree, ops).Success?
    ensures var again := Simulate(k, PerformAll(k, tree, ops).value.0, map[], ops);
            && (again.Success? <==> forall o | o in ops :: Honest(k, tree, o))
            && (again.Success? ==> AllIdempotent(again.value))
  {
    hide LinesOk, Honest, Simulate, PerformAll, AllIdempotent, Perform, HasPayload, Touched;
    RevalidationIsIdempotent(k, tree, ops);
    var after := PerformAll(k, tree, ops).value.0;
    SimulationRefines(k, after, map[], after, ops);
    DisjointAccepted(k, after, ops);
    forall o | o in ops ensures Perform(k, after, o).Success? <==> Honest(k, tree, o) {
      var before := DisjointAt(k, tree, ops, o);
      PerformedIsAccepted(k, before, o);
      AcceptedIsLocal(k, after, Perform(k, before, o).value.0, o);
      LocalToPaths(k, before, tree, o);
    }
  }

  /** Creates a file with this content, under an `after` hash of the caller's choice. */
  function CreateFile(k: Codecs, path: string, content: Bytes, after: string): ChangeOperation {
    ChangeOperation(Create, path, None, Some(after), None, Some(k.b64(content)), None, None, None)
  }

  /**
   A dishonest operation: for every lawful codec, a well-formed create whose `after` hash is not its content's is
   ready and is performed, and then it is refused because its own file is in the way.
   */
  lemma DishonestCreate(k: Codecs, path: string, content: Bytes, after: string)
    requires Lawful(k) && GoodPath(k, path) && IsSha(after) && !Matches(k, content, Some(after))
    ensures var o := CreateFile(k, path, content, after);
            && WellFormedOp(k, o) && LinesOk(o) && HasPayload(k, o) && !Honest(k, map[], o)
            && Simulate(k, map[], map[], [o]) == Success([Ready])
            && PerformAll(k, map[], [o]) == Success((map[path := content], [Ready]))
            && Simulate(k, map[path := content], map[], [o]) == Failure(TargetExists)
  {
    hide GoodPath, IsSha, Blank, LineMapSha, Matches, Lawful;
    LawfulB64(k, content);
    var o := CreateFile(k, path, content, after);
    assert map[][path := content] == map[path := content];
    assert Perform(k, map[], o) == Success((map[path := content], Ready));
    assert Perform(k, map[path := content], o) == Failure(TargetExists);
    assert [o][1..] == [] && [Ready] + [] == [Ready];
    assert PerformAll(k, map[path := content], []) == Success((map[path := content], []));
    assert Shows(map[], map[], map[]) && Shows(map[path := content], map[], map[path := content]);
    SimulationRefines(k, map[], map[], map[], [o]);
    SimulationRefines(k, map[path := content], map[], map[path := content], [o]);
  }

  // ---------- Chained edits ----------

  /** Replacements of one file. */
  predicate Chain(ops: seq<ChangeOperation>, path: string) {
    ops != [] && forall o | o in ops :: LinesOk(o) && o.op == ReplaceRange && o.path == path
  }

  lemma ReplaceSettledIff(k: Codecs, tree: Tree, o: ChangeOperation)
    requires LinesOk(o) && o.op == ReplaceRange
    ensures Settled(k, tree, o) <==> o.path in tree && Matches(k, tree[o.path], o.after)
  {
    hide Matches, Replace;
  }

  lemma {:induction false} ChainKeepsFile(k: Codecs, tree: Tree, ops: seq<ChangeOperation>, path: string)
    requires Chain(ops, path) && PerformAll(k, tree, ops).Success?
    ensures path in PerformAll(k, tree, ops).value.0
    decreases |ops|
  {
    hide Matches, Replace;
    if |ops| > 1 {
      ChainKeepsFile(k, Perform(k, tree, ops[0]).value.0, ops[1..], path);
    } else {
      assert ops[1..] == [];
    }
  }

  /**
   Disjoint paths are needed. When `validate` accepts replacements chained on one file, then on the tree that
   performing them leaves it reports every one idempotent if and only if the final content matches the `after`
   hash of each of them.
   */
  lemma ChainedReplaceIff(k: Codecs, tree: Tree, ops: seq<ChangeOperation>, path: string)
    requires Chain(ops, path) && Simulate(k, tree, map[], ops).Success?
    ensures PerformAll(k, tree, ops).Success? && path in PerformAll(k, tree, ops).value.0
    ensures var after := PerformAll(k, tree, ops).value.0;
            var again := Simulate(k, after, map[], ops);
            again.Success? && AllIdempotent(again.value) <==> forall o | o in ops :: Matches(k, after[path], o.after)
  {
    hide LinesOk, Matches, Settled, Simulate, PerformAll, AllIdempotent;
    SimulationRefines(k, tree, map[], tree, ops);
    ChainKeepsFile(k, tree, ops, path);
    var after := PerformAll(k, tree, ops).value.0;
    SimulationRefines(k, after, map[], after, ops);
    SettledAll(k, after, ops);
    forall o | o in ops ensures Settled(k, after, o) <==> Matches(k, after[path], o.after) {
      ReplaceSettledIff(k, after, o);
    }
  }

  /** The file that two ready replacements leave: what the second one made of what the first one made. */
  lemma TwoReady(k: Codecs, tree: Tree, first: ChangeOperation, second: ChangeOperation)
    requires Chain([first, second], first.path) && PerformAll(k, tree, [first, second]).Success?
    requires PerformAll(k, tree, [first, second]).value.1 == [Ready, Ready]
    ensures first.path in tree && Matches(k, tree[first.path], first.before)
    ensures first.path in PerformAll(k, tree, [first, second]).value.0
    ensures Matches(k, PerformAll(k, tree, [first, second]).value.0[first.path], second.after)
  {
    assert first in [first, second] && second in [first, second];
    assert [first, second][1..] == [second] && [second][1..] == [];
    var all := PerformAll(k, tree, [first, second]).value;
    var one := Perform(k, tree, first).value;
    var two := Perform(k, one.0, second).value;
    assert PerformAll(k, two.0, []) == Success((two.0, []));
    assert [two.1] + [] == [two.1] && PerformAll(k, one.0, [second]) == Success((two.0, [two.1]));
    assert all.0 == two.0 && all.1 == [one.1] + [two.1];
    assert all.1[0] == one.1 && all.1[1] == two.1;
    ReadyReplace(k, tree, first);
    ReadyReplace(k, one.0, second);
  }

  lemma ReadyReplace(k: Codecs, tree: Tree, o: ChangeOperation)
    requires LinesOk(o) && o.op == ReplaceRange
    requires Perform(k, tree, o).Success? && Perform(k, tree, o).value.1 == Ready
    ensures o.path in tree && Matches(k, tree[o.path], o.before)
    ensures var after := Perform(k, tree, o).value.0; o.path in after && Matches(k, after[o.path], o.after)
  {
    hide Matches, Replace;
  }

  /**
   For two ready replacements: afterwards both are idempotent if and only if the final content matches the
   first one's `after` hash too, and the first one is refused as stale if and only if it matches neither of its
   hashes; `validate` then refuses them all.
   */
  lemma ChainedReplaceGoesStale(k: Codecs, tree: Tree, first: ChangeOperation, second: ChangeOperation)
    requires Chain([first, second], first.path) && Simulate(k, tree, map[], [first, second]) == Success([Ready, Ready])
    ensures PerformAll(k, tree, [first, second]).Success? && first.path in PerformAll(k, tree, [first, second]).value.0
    ensures var after := PerformAll(k, tree, [first, second]).value.0;
            var again, final := Simulate(k, after, map[], [first, second]), after[first.path];
            && ((again.Success? && AllIdempotent(again.value)) <==> Matches(k, final, first.after))
            && (Perform(k, after, first) == Failure(StaleSource)
                <==> !Matches(k, final, first.after) && !Matches(k, final, first.before))
            && (Perform(k, after, first) == Failure(StaleSource) ==> again == Failure(StaleSource))
  {
    hide PerformAll, Simulate;
    var ops := [first, second];
    SimulationRefines(k, tree, map[], tree, ops);
    TwoReady(k, tree, first, second);
    ChainedReplaceIff(k, tree, ops, first.path);
    var after := PerformAll(k, tree, ops).value.0;
    SimulationRefines(k, after, map[], after, ops);
    FirstFails(k, after, ops);
  }

  /** A replacement is accepted on this content: its work is done, or can be done and gives its `after` hash. */
  predicate Takes(k: Codecs, content: Bytes, o: ChangeOperation)
    requires LinesOk(o)
  {
    || Matches(k, content, o.after)
    || (&& Matches(k, content, o.before) && Replace(k, content, o).Success?
        && Matches(k, Replace(k, content, o).value, o.after))
  }

  lemma TakesIff(k: Codecs, tree: Tree, o: ChangeOperation)
    requires LinesOk(o) && o.op == ReplaceRange && o.path in tree
    ensures Perform(k, tree, o).Success? <==> Takes(k, tree[o.path], o)
    ensures Perform(k, tree, o).Success? ==>
              var next := Perform(k, tree, o).value.0;
              && o.path in next
              && next[o.path] == (if Matches(k, tree[o.path], o.after) then tree[o.path]
                                  else Replace(k, tree[o.path], o).value)
  {
    hide Matches, Replace;
  }

  lemma TwoAccepted(k: Codecs, tree: Tree, first: ChangeOperation, second: ChangeOperation)
    requires LinesOk(first) && LinesOk(second)
    ensures PerformAll(k, tree, [first, second]).Success?
            <==> Perform(k, tree, first).Success? && Perform(k, Perform(k, tree, first).value.0, second).Success?
  {
    hide Perform, LinesOk;
    assert [first, second][1..] == [second] && [second][1..] == [];
    if Perform(k, tree, first).Success? {
      var next := Perform(k, tree, first).value.0;
      assert PerformAll(k, next, [second]).Success? <==> Perform(k, next, second).Success?;
    }
  }

  lemma ChainKeepsOthers(k: Codecs, tree: Tree, ops: seq<ChangeOperation>, path: string)
    requires Chain(ops, path) && path in tree && PerformAll(k, tree, ops).Success?
    requires path in PerformAll(k, tree, ops).value.0 && PerformAll(k, tree, ops).value.0[path] == tree[path]
    ensures PerformAll(k, tree, ops).value.0 == tree
  {
    hide LinesOk, PerformAll;
    var after := PerformAll(k, tree, ops).value.0;
    forall p ensures Find(after, p) == Find(tree, p) {
      if p != path {
        PerformAllFrame(k, tree, ops, p);
      }
    }
    forall p ensures p in after <==> p in tree {
      assert Find(after, p) == Find(tree, p);
    }
    forall p | p in tree ensures after[p] == tree[p] {
      assert Find(after, p) == Find(tree, p);
    }
  }

  /**
   When `validate` accepts at all after two ready replacements: if and only if the final content takes the first
   one again, and unless that finds its work done, what it makes of the content takes the second one again. A
   chain that ends with the content it began with leaves the tree it found, and is ready once more.
   */
  lemma ChainedReplaceAcceptsIff(k: Codecs, tree: Tree, first: ChangeOperation, second: ChangeOperation)
    requires Chain([first, second], first.path)
    requires Simulate(k, tree, map[], [first, second]) == Success([Ready, Ready])
    ensures PerformAll(k, tree, [first, second]).Success?
    ensures first.path in tree && first.path in PerformAll(k, tree, [first, second]).value.0
    ensures var after := PerformAll(k, tree, [first, second]).value.0;
            var again, final := Simulate(k, after, map[], [first, second]), after[first.path];
            && (again.Success?
                <==> Takes(k, final, first)
                     && (Matches(k, final, first.after) || Takes(k, Replace(k, final, first).value, second)))
            && (final == tree[first.path] ==> after == tree)
  {
    hide LinesOk, Simulate, Matches, Replace, Perform, PerformAll;
    var ops := [first, second];
    assert first in ops && second in ops && second.path == first.path;
    SimulationRefines(k, tree, map[], tree, ops);
    TwoReady(k, tree, first, second);
    var after := PerformAll(k, tree, ops).value.0;
    SimulationRefines(k, after, map[], after, ops);
    TwoAccepted(k, after, first, second);
    TakesIff(k, after, first);
    if Perform(k, after, first).Success? {
      TakesIff(k, Perform(k, after, first).value.0, second);
    }
    if after[first.path] == tree[first.path] {
      ChainKeepsOthers(k, tree, ops, first.path);
    }
  }

  lemma FirstFails(k: Codecs, tree: Tree, ops: seq<ChangeOperation>)
    requires (forall o | o in ops :: LinesOk(o)) && ops != []
    ensures Perform(k, tree, ops[0]).Failure? ==> PerformAll(k, tree, ops) == Failure(Perform(k, tree, ops[0]).error)
  {
    hide Perform;
  }

  // ---------- A chain of replacements that the code can receive ----------

  /** A file of one line without a line break, and its text in the encoding. */
  predicate OneLine(k: Codecs, encoding: string, data: Bytes, text: string) {
    && text != "" && '\n' !in text && '\r' !in text
    && k.decode(encoding, data) == Some(text) && k.encode(encoding, text) == data
    && NormalizedSha(k, data) == Sha256Hex(k, data) && IsSha(Sha256Hex(k, data))
  }

  /** Replaces the one line of a file by another, from one digest to the other. */
  function SwapLine(k: Codecs, path: string, encoding: string, from: Bytes, to: Bytes): ChangeOperation {
    ChangeOperation(ReplaceRange, path, Some(Sha256Hex(k, from)), Some(Sha256Hex(k, to)), None, Some(k.b64(to)),
                    Some(encoding), Some(LineMap(1, 1)), Some(LineMapSha(k, LineMap(1, 1))))
  }

  lemma SwapLineWellFormed(k: Codecs, path: string, encoding: string, from: Bytes, to: Bytes)
    requires Lawful(k) && GoodPath(k, path) && !Blank(k, encoding)
    requires IsSha(Sha256Hex(k, from)) && IsSha(Sha256Hex(k, to))
    ensures WellFormedOp(k, SwapLine(k, path, encoding, from, to))
  {
    hide GoodPath, IsSha, Blank, LineMapSha, Sha256Hex;
  }

  lemma {:induction false} PlainLine(text: string, newline: string)
    requires '\n' !in text && '\r' !in text
    ensures UnixNewlines(text) == text && WithNewline(text, newline) == text && !HasCrLf(text) && !EndsInBreak(text)
    ensures text != "" ==> LineLength(text) == |text|
  {
    if text != "" {
      PlainLine(text[1..], newline);
      assert text == [text[0]] + text[1..];
    }
  }

  lemma SwapReplaces(k: Codecs, path: string, encoding: string, from: Bytes, a: string, to: Bytes, b: string)
    requires Lawful(k) && OneLine(k, encoding, from, a) && OneLine(k, encoding, to, b)
    ensures Replace(k, from, SwapLine(k, path, encoding, from, to)) == Success(to)
  {
    hide Lawful, UnixNewlines, WithNewline, HasCrLf, EndsInBreak, LineLength, NormalizedSha, Sha256Hex, LineMapSha;
    PlainLine(a, "\n");
    PlainLine(b, "\n");
    assert k.unb64(k.b64(to)) == Some(to) by {
      LawfulB64(k, to);
    }
    assert a[..|a|] == a && a[|a|..] == "";
    assert SplitLines(a) == [a];
    assert Replacement(a, [a], b, 1) == b;
    assert [a][..0] + [b] + [a][1..] == [b];
    JoinOne(b);
  }

  lemma LawfulB64(k: Codecs, x: Bytes)
    requires Lawful(k)
    ensures k.unb64(k.b64(x)) == Some(x)
  {
  }

  lemma SwapPerforms(k: Codecs, path: string, encoding: string, from: Bytes, a: string, to: Bytes, b: string)
    requires Lawful(k) && OneLine(k, encoding, from, a) && OneLine(k, encoding, to, b)
    requires Sha256Hex(k, from) != Sha256Hex(k, to)
    ensures LinesOk(SwapLine(k, path, encoding, from, to))
    ensures Perform(k, map[path := from], SwapLine(k, path, encoding, from, to)) == Success((map[path := to], Ready))
  {
    hide Replace, Lawful, NormalizedSha, Sha256Hex, LineMapSha;
    SwapReplaces(k, path, encoding, from, a, to, b);
    assert map[path := from][path := to] == map[path := to];
  }

  /**
   For every lawful codec and any three one-line files with different digests: well-formed operations that
   rewrite the first into the second and that into the third are both ready, and are refused as stale once
   they were performed.
   */
  lemma ChainedReplaceInstance(k: Codecs, path: string, encoding: string, x: Bytes, a: string, y: Bytes, b: string,
                               z: Bytes, c: string)
    requires Lawful(k) && GoodPath(k, path) && !Blank(k, encoding)
    requires OneLine(k, encoding, x, a) && OneLine(k, encoding, y, b) && OneLine(k, encoding, z, c)
    requires Sha256Hex(k, x) != Sha256Hex(k, y) && Sha256Hex(k, y) != Sha256Hex(k, z)
    requires Sha256Hex(k, x) != Sha256Hex(k, z)
    ensures var ops := [SwapLine(k, path, encoding, x, y), SwapLine(k, path, encoding, y, z)];
            && (forall o | o in ops :: WellFormedOp(k, o) && LinesOk(o))
            && Simulate(k, map[path := x], map[], ops) == Success([Ready, Ready])
            && PerformAll(k, map[path := x], ops) == Success((map[path := z], [Ready, Ready]))
            && Simulate(k, map[path := z], map[], ops) == Failure(StaleSource)
  {
    hide Lawful, Perform, Simulate, WellFormedOp;
    var first, second := SwapLine(k, path, encoding, x, y), SwapLine(k, path, encoding, y, z);
    var ops := [first, second];
    SwapLineWellFormed(k, path, encoding, x, y);
    SwapLineWellFormed(k, path, encoding, y, z);
    SwapPerforms(k, path, encoding, x, a, y, b);
    SwapPerforms(k, path, encoding, y, b, z, c);
    TwoPerformed(k, map[path := x], map[path := y], map[path := z], first, second);
    assert Shows(map[path := x], map[], map[path := x]);
    SimulationRefines(k, map[path := x], map[], map[path := x], ops);
    ChainedReplaceGoesStale(k, map[path := x], first, second);
    assert !Matches(k, z, first.after) && !Matches(k, z, first.before);
  }

  lemma TwoPerformed(k: Codecs, t0: Tree, t1: Tree, t2: Tree, first: ChangeOperation, second: ChangeOperation)
    requires LinesOk(first) && LinesOk(second)
    requires Perform(k, t0, first) == Success((t1, Ready)) && Perform(k, t1, second) == Success((t2, Ready))
    ensures PerformAll(k, t0, [first, second]) == Success((t2, [Ready, Ready]))
  {
    hide Perform;
    assert [first, second][1..] == [second] && [second][1..] == [];
    assert PerformAll(k, t2, []) == Success((t2, []));
    assert [Ready] + [] == [Ready] && [Ready] + [Ready] == [Ready, Ready];
    assert PerformAll(k, t1, [second]) == Success((t2, [Ready]));
  }
}
