/**
 Materialising a changeset through an untrusted adapter, and reconciling an unknown effect.

 The adapter and other tools that edit the tree are inputs of each command: what the adapter reports, and the
 tree that is there afterwards, are arbitrary.
 */
module Materialize {
  import opened ChangeSet
  import opened ChangeSetValidate
  import opened Journal
  import opened Json
  import opened Wrappers

  // ---------- The protocol as a state machine ----------

  datatype AdapterReport = Returned | UnknownEffect | Refused | Crashed

  /** What happens to the outside: an adapter call, or an event that becomes durable. */
  datatype Action = Called(id: string) | Logged(id: string, state: JournalState)

  datatype World = World(tree: Tree, log: seq<Entry>, history: seq<Action>)

  /** Whether the journal has the changeset's authority, and the states whose event would be too long to write. */
  datatype Writing = Writing(authorized: bool, unpackable: set<JournalState>)

  datatype Command =
    | Apply(c: ChangeSet, writing: Writing, report: AdapterReport, treeAfter: Tree)
    | Reconcile(c: ChangeSet, writing: Writing)
    | Edit(tree: Tree)

  datatype Verdict =
    | Replayed | Locked | AlreadyIdempotent | Materialized | NotMaterialized | Raised
    | NothingToReconcile | ReconciledBefore | Ambiguous | FoundApplied | FoundNotApplied

  /** One command's new actions, the tree it leaves, and its answer. */
  datatype Turn = Turn(acts: seq<Action>, tree: Tree, verdict: Verdict)

  /** The state of the last event of a changeset. */
  function LastState(log: seq<Entry>, id: string): Option<JournalState> {
    if log == [] then None
    else if log[|log| - 1].id == id then Some(log[|log| - 1].state)
    else LastState(log[..|log| - 1], id)
  }

  predicate Terminal(s: JournalState) {
    s == Applied || s == AlreadyDone
  }

  /** Appending is silent when the changeset is already recorded in this state. */
  function LogAct(w: World, id: string, s: JournalState): seq<Action> {
    if Entry(id, s) in w.log then [] else [Logged(id, s)]
  }

  /** The event is already there, or can be written. */
  predicate Writable(w: World, id: string, s: JournalState, writing: Writing) {
    Entry(id, s) in w.log || s !in writing.unpackable
  }

  predicate ValidOn(k: Codecs, root: string, c: ChangeSet, tree: Tree)
    requires forall o | o in c.operations :: LinesOk(o)
  {
    Validate(k, c, root, None, None, tree).Success?
  }

  predicate IdempotentOn(k: Codecs, root: string, c: ChangeSet, tree: Tree)
    requires forall o | o in c.operations :: LinesOk(o)
  {
    ValidOn(k, root, c, tree) && AllIdempotent(Validate(k, c, root, None, None, tree).value)
  }

  /** The handler of a rejection: the rejection itself may fail to be recorded. */
  function RejectTurn(w: World, id: string, writing: Writing, acts: seq<Action>, tree: Tree): Turn {
    if !writing.authorized then Turn(acts, tree, NotMaterialized)
    else if Writable(w, id, Rejected, writing) then Turn(acts + LogAct(w, id, Rejected), tree, NotMaterialized)
    else Turn(acts, tree, Raised)
  }

  /** What follows the adapter call. */
  function OutcomeTurn(k: Codecs, root: string, w: World, c: ChangeSet, writing: Writing, report: AdapterReport,
                       tree: Tree, acts: seq<Action>): Turn
    requires forall o | o in c.operations :: LinesOk(o)
  {
    var id := ChangesetId(k, c);
    match report
    case Crashed => Turn(acts, tree, Raised)
    case Refused => RejectTurn(w, id, writing, acts, tree)
    case UnknownEffect =>
      if Writable(w, id, Unknown, writing) then Turn(acts + LogAct(w, id, Unknown), tree, Locked)
      else Turn(acts, tree, Raised)
    case Returned =>
      if !ValidOn(k, root, c, tree) then RejectTurn(w, id, writing, acts, tree)
      else if Writable(w, id, Applied, writing) then Turn(acts + LogAct(w, id, Applied), tree, Materialized)
      else Turn(acts, tree, Raised)
  }

  /** From the adapter call on. */
  function AdapterTurn(k: Codecs, root: string, w: World, c: ChangeSet, writing: Writing, report: AdapterReport,
                       treeAfter: Tree, sealing: seq<Action>): Turn
    requires forall o | o in c.operations :: LinesOk(o)
  {
    OutcomeTurn(k, root, w, c, writing, report, treeAfter, sealing + [Called(ChangesetId(k, c))])
  }

  /** What follows the sealed event. */
  function SealedTurn(k: Codecs, root: string, w: World, c: ChangeSet, writing: Writing, report: AdapterReport,
                      treeAfter: Tree, sealing: seq<Action>): Turn
    requires forall o | o in c.operations :: LinesOk(o)
  {
    var id := ChangesetId(k, c);
    if !IdempotentOn(k, root, c, w.tree) then AdapterTurn(k, root, w, c, writing, report, treeAfter, sealing)
    else if Writable(w, id, AlreadyDone, writing) then
      Turn(sealing + LogAct(w, id, AlreadyDone), w.tree, AlreadyIdempotent)
    else Turn(sealing, w.tree, Raised)
  }

  /** From the validation on, when nothing recorded stands in the way. */
  function AttemptTurn(k: Codecs, root: string, w: World, c: ChangeSet, writing: Writing, report: AdapterReport,
                       treeAfter: Tree): Turn
    requires forall o | o in c.operations :: LinesOk(o)
  {
    var id := ChangesetId(k, c);
    if !ValidOn(k, root, c, w.tree) || !writing.authorized then RejectTurn(w, id, writing, [], w.tree)
    else if !Writable(w, id, Sealed, writing) then Turn([], w.tree, Raised)
    else SealedTurn(k, root, w, c, writing, report, treeAfter, LogAct(w, id, Sealed))
  }

  /** `materialize`. */
  function ApplyTurn(k: Codecs, root: string, w: World, c: ChangeSet, writing: Writing, report: AdapterReport,
                     treeAfter: Tree): Turn
    requires forall o | o in c.operations :: LinesOk(o)
  {
    var previous := LastState(w.log, ChangesetId(k, c));
    if previous.Some? && Terminal(previous.value) then Turn([], w.tree, Replayed)
    else if previous == Some(Unknown) then Turn([], w.tree, Locked)
    else AttemptTurn(k, root, w, c, writing, report, treeAfter)
  }

  /**
   What an attempt comes to before the adapter is called: without authority, or where the sealed event cannot be
   written, nothing happens, whatever the adapter would have done; where all is done already only events are written.
   */
  lemma AttemptStops(k: Codecs, root: string, w: World, c: ChangeSet, writing: Writing, report: AdapterReport,
                     treeAfter: Tree)
    requires forall o | o in c.operations :: LinesOk(o)
    ensures var id, turn := ChangesetId(k, c), AttemptTurn(k, root, w, c, writing, report, treeAfter);
            var held, named := (s: JournalState) => Entry(id, s) in w.log || s !in writing.unpackable,
                               (s: JournalState) => if Entry(id, s) in w.log then [] else [Logged(id, s)];
            && (!writing.authorized ==> turn == Turn([], w.tree, NotMaterialized))
            && (writing.authorized && !ValidOn(k, root, c, w.tree) ==>
                  turn == if held(Rejected) then Turn(named(Rejected), w.tree, NotMaterialized)
                          else Turn([], w.tree, Raised))
            && (writing.authorized && ValidOn(k, root, c, w.tree) && !held(Sealed) ==> turn == Turn([], w.tree, Raised))
            && (writing.authorized && IdempotentOn(k, root, c, w.tree) && held(Sealed) ==>
                  turn == if held(AlreadyDone)
                          then Turn(named(Sealed) + named(AlreadyDone), w.tree, AlreadyIdempotent)
                          else Turn(named(Sealed), w.tree, Raised))
            && (Called(id) in turn.acts
                <==> writing.authorized && ValidOn(k, root, c, w.tree) && held(Sealed)
                     && !IdempotentOn(k, root, c, w.tree))
  {
    hide ChangesetId, Validate, AllIdempotent;
  }

  /** What is recorded last decides first: a finished changeset is replayed, an unknown effect locks. */
  lemma RecordedFirst(k: Codecs, root: string, w: World, c: ChangeSet, writing: Writing, report: AdapterReport,
                      treeAfter: Tree)
    requires forall o | o in c.operations :: LinesOk(o)
    ensures var last := LastState(w.log, ChangesetId(k, c));
            ApplyTurn(k, root, w, c, writing, report, treeAfter)
            == if last == Some(Applied) || last == Some(AlreadyDone) then Turn([], w.tree, Replayed)
               else if last == Some(Unknown) then Turn([], w.tree, Locked)
               else AttemptTurn(k, root, w, c, writing, report, treeAfter)
  {
    hide ChangesetId, AttemptTurn, LastState;
  }

  /**
   What is written and answered for each report of the adapter: an unknown effect, an applied one only if the tree
   still validates, a rejection if not or if the adapter refused, and nothing if it crashed; where the event cannot be
   written the command raises, and a rejection is not written without authority.
   */
  lemma ReportDecides(k: Codecs, root: string, w: World, c: ChangeSet, writing: Writing, report: AdapterReport,
                      tree: Tree, acts: seq<Action>)
    requires forall o | o in c.operations :: LinesOk(o)
    ensures var id, turn := ChangesetId(k, c), OutcomeTurn(k, root, w, c, writing, report, tree, acts);
            var state := if report == UnknownEffect then Unknown
                         else if report == Returned && ValidOn(k, root, c, tree) then Applied else Rejected;
            var verdict := if state == Unknown then Locked
                           else if state == Applied then Materialized else NotMaterialized;
            if report == Crashed then turn == Turn(acts, tree, Raised)
            else if state == Rejected && !writing.authorized then turn == Turn(acts, tree, NotMaterialized)
            else if Entry(id, state) in w.log then turn == Turn(acts, tree, verdict)
            else if state in writing.unpackable then turn == Turn(acts, tree, Raised)
            else turn == Turn(acts + [Logged(id, state)], tree, verdict)
  {
    hide ChangesetId, Validate;
    assert acts + [] == acts;
  }

  /** `reconcile_unknown_effect`. */
  function ReconcileTurn(k: Codecs, root: string, w: World, c: ChangeSet, writing: Writing): Turn
    requires forall o | o in c.operations :: LinesOk(o)
  {
    var id := ChangesetId(k, c);
    var previous := LastState(w.log, id);
    if previous == Some(Reconciled) then Turn([], w.tree, ReconciledBefore)
    else if previous != Some(Unknown) then Turn([], w.tree, NothingToReconcile)
    else if !ValidOn(k, root, c, w.tree) then Turn([], w.tree, Ambiguous)
    else
      var outcome := if IdempotentOn(k, root, c, w.tree) then Applied else Reconciled;
      if !writing.authorized || !Writable(w, id, outcome, writing) then Turn([], w.tree, Raised)
      else Turn(LogAct(w, id, outcome), w.tree, if outcome == Applied then FoundApplied else FoundNotApplied)
  }

  function EntriesOf(acts: seq<Action>): seq<Entry> {
    if acts == [] then []
    else EntriesOf(acts[..|acts| - 1])
         + var a := acts[|acts| - 1]; if a.Logged? then [Entry(a.id, a.state)] else []
  }

  function After(w: World, turn: Turn): World {
    World(turn.tree, w.log + EntriesOf(turn.acts), w.history + turn.acts)
  }

  predicate Runnable(cmd: Command) {
    cmd.Edit? || forall o | o in cmd.c.operations :: LinesOk(o)
  }

  function TurnOf(k: Codecs, root: string, w: World, cmd: Command): Turn
    requires Runnable(cmd)
  {
    match cmd
    case Apply(c, writing, report, treeAfter) => ApplyTurn(k, root, w, c, writing, report, treeAfter)
    case Reconcile(c, writing) => ReconcileTurn(k, root, w, c, writing)
    case Edit(tree) => Turn([], tree, Replayed)
  }

  /** A run of commands from an empty journal. */
  function Run(k: Codecs, root: string, tree: Tree, commands: seq<Command>): World
    requires forall cmd | cmd in commands :: Runnable(cmd)
  {
    if commands == [] then World(tree, [], [])
    else
      var n := |commands| - 1;
      assert forall cmd | cmd in commands[..n] :: cmd in commands;
      var w := Run(k, root, tree, commands[..n]);
      After(w, TurnOf(k, root, w, commands[n]))
  }

  // ---------- Safety ----------

  /** The actions of one changeset, in order. */
  function Of(history: seq<Action>, id: string): seq<Action> {
    if history == [] then []
    else
      var a := history[|history| - 1];
      Of(history[..|history| - 1], id) + if a.id == id then [a] else []
  }

  /**
   What may directly follow an action of the same changeset: nothing follows a terminal event, and only a
   reconciliation follows an unknown effect.
   */
  predicate MayFollow(a: Action, b: Action) {
    a.Logged? ==>
      !Terminal(a.state) && (a.state == Unknown ==> b.Logged? && (b.state == Applied || b.state == Reconciled))
  }

  ghost predicate Safe(acts: seq<Action>) {
    forall i | 0 <= i < |acts| - 1 :: MayFollow(acts[i], acts[i + 1])
  }

  /** The journal is what the history logged, and every changeset's actions are safe. */
  ghost predicate Inv(w: World) {
    w.log == EntriesOf(w.history) && forall id :: Safe(Of(w.history, id))
  }

  lemma EntriesOfNothing()
    ensures EntriesOf([]) == []
  {
  }

  lemma EntriesSnoc(acts: seq<Action>, a: Action)
    ensures EntriesOf(acts + [a]) == EntriesOf(acts) + if a.Logged? then [Entry(a.id, a.state)] else []
  {
    assert (acts + [a])[..|acts|] == acts;
  }

  lemma {:induction false} EntriesConcat(a: seq<Action>, b: seq<Action>)
    ensures EntriesOf(a + b) == EntriesOf(a) + EntriesOf(b)
  {
    hide EntriesOf;
    if b == [] {
      EntriesOfNothing();
      assert a + b == a;
    } else {
      var front, last := b[..|b| - 1], b[|b| - 1];
      EntriesConcat(a, front);
      EntriesSnoc(front, last);
      EntriesSnoc(a + front, last);
      assert b == front + [last] && a + b == a + front + [last];
    }
  }

  lemma OfNothing(id: string)
    ensures Of([], id) == []
  {
  }

  lemma OfSnoc(history: seq<Action>, a: Action, id: string)
    ensures Of(history + [a], id) == Of(history, id) + if a.id == id then [a] else []
  {
    assert (history + [a])[..|history|] == history;
  }

  lemma {:induction false} OfConcat(a: seq<Action>, b: seq<Action>, id: string)
    ensures Of(a + b, id) == Of(a, id) + Of(b, id)
  {
    hide Of;
    if b == [] {
      OfNothing(id);
      assert a + b == a;
    } else {
      var front, last := b[..|b| - 1], b[|b| - 1];
      OfConcat(a, front, id);
      OfSnoc(front, last, id);
      OfSnoc(a + front, last, id);
      assert b == front + [last] && a + b == a + front + [last];
    }
  }

  lemma {:induction false} OfOne(acts: seq<Action>, mine: string, id: string)
    requires forall a | a in acts :: a.id == mine
    ensures Of(acts, id) == if id == mine then acts else []
  {
    hide Of;
    if acts == [] {
      OfNothing(id);
    } else {
      var front, last := acts[..|acts| - 1], acts[|acts| - 1];
      assert acts == front + [last] && last in acts;
      OfOne(front, mine, id);
      OfSnoc(front, last, id);
    }
  }

  /** If a changeset's last action is an event, the journal's last state for it is that event's. */
  lemma {:induction false} LastActionIsLastState(history: seq<Action>, id: string)
    requires Of(history, id) != []
    ensures var last := Of(history, id)[|Of(history, id)| - 1];
            last.id == id && (last.Logged? ==> LastState(EntriesOf(history), id) == Some(last.state))
  {
    hide Of, EntriesOf, LastState;
    if history == [] {
      OfNothing(id);
    } else {
      var front, a := history[..|history| - 1], history[|history| - 1];
      assert history == front + [a];
      OfSnoc(front, a, id);
      EntriesSnoc(front, a);
      if a.id != id {
        LastActionIsLastState(front, id);
      }
      if a.Logged? {
        LastStateSnoc(EntriesOf(front), Entry(a.id, a.state), id);
      } else {
        assert EntriesOf(front) + [] == EntriesOf(front);
      }
    }
  }

  lemma LastStateSnoc(log: seq<Entry>, e: Entry, id: string)
    ensures LastState(log + [e], id) == if e.id == id then Some(e.state) else LastState(log, id)
  {
    assert (log + [e])[..|log|] == log;
  }

  predicate Opening(a: Action) {
    a.Called? || a.state == Sealed
  }

  /** The actions of one turn: of one changeset, only the last one not an opening, and allowed by the last state. */
  ghost predicate GoodTurn(w: World, id: string, acts: seq<Action>) {
    && (forall i | 0 <= i < |acts| :: acts[i].id == id)
    && (forall i | 0 <= i < |acts| - 1 :: Opening(acts[i]))
    && (var previous := LastState(w.log, id);
        acts != [] && previous.Some? ==>
          !Terminal(previous.value)
          && (previous.value == Unknown ==>
                acts[0].Logged? && (acts[0].state == Applied || acts[0].state == Reconciled)))
  }

  lemma AdapterTurnGood(k: Codecs, root: string, w: World, c: ChangeSet, writing: Writing, report: AdapterReport,
                        treeAfter: Tree)
    requires forall o | o in c.operations :: LinesOk(o)
    ensures var id := ChangesetId(k, c);
            var acts := AdapterTurn(k, root, w, c, writing, report, treeAfter, LogAct(w, id, Sealed)).acts;
            && (forall i | 0 <= i < |acts| :: acts[i].id == id)
            && (forall i | 0 <= i < |acts| - 1 :: Opening(acts[i]))
  {
    hide Identity, Sha256Hex;
  }

  lemma AttemptTurnGood(k: Codecs, root: string, w: World, c: ChangeSet, writing: Writing, report: AdapterReport,
                        treeAfter: Tree)
    requires forall o | o in c.operations :: LinesOk(o)
    ensures var acts := AttemptTurn(k, root, w, c, writing, report, treeAfter).acts;
            && (forall i | 0 <= i < |acts| :: acts[i].id == ChangesetId(k, c))
            && (forall i | 0 <= i < |acts| - 1 :: Opening(acts[i]))
  {
    hide ValidOn, IdempotentOn, ChangesetId, Writable, LinesOk, AdapterTurn;
    AdapterTurnGood(k, root, w, c, writing, report, treeAfter);
  }

  lemma ApplyGood(k: Codecs, root: string, w: World, c: ChangeSet, writing: Writing, report: AdapterReport,
                  treeAfter: Tree)
    requires forall o | o in c.operations :: LinesOk(o)
    ensures GoodTurn(w, ChangesetId(k, c), ApplyTurn(k, root, w, c, writing, report, treeAfter).acts)
  {
    hide AttemptTurn, ChangesetId, LastState, LinesOk, Opening;
    AttemptTurnGood(k, root, w, c, writing, report, treeAfter);
  }

  lemma ReconcileGood(k: Codecs, root: string, w: World, c: ChangeSet, writing: Writing)
    requires forall o | o in c.operations :: LinesOk(o)
    ensures GoodTurn(w, ChangesetId(k, c), ReconcileTurn(k, root, w, c, writing).acts)
  {
    hide ValidOn, IdempotentOn, ChangesetId, LastState, Writable, LinesOk;
  }

  lemma SafeAppend(p: seq<Action>, acts: seq<Action>)
    requires Safe(p) && forall i | 0 <= i < |acts| - 1 :: Opening(acts[i])
    requires p != [] && acts != [] ==> MayFollow(p[|p| - 1], acts[0])
    ensures Safe(p + acts)
  {
    var all := p + acts;
    forall i | 0 <= i < |all| - 1 ensures MayFollow(all[i], all[i + 1]) {
      if i >= |p| {
        assert Opening(acts[i - |p|]);
      } else if i < |p| - 1 {
        assert MayFollow(p[i], p[i + 1]);
      }
    }
  }

  lemma GoodTurnKeepsInv(w: World, id: string, turn: Turn)
    requires Inv(w) && GoodTurn(w, id, turn.acts)
    ensures Inv(After(w, turn))
  {
    hide EntriesOf, Of, LastState;
    EntriesConcat(w.history, turn.acts);
    forall other ensures Safe(Of(w.history + turn.acts, other)) {
      OfConcat(w.history, turn.acts, other);
      OfOne(turn.acts, id, other);
      var p := Of(w.history, other);
      assert Safe(p);
      if other == id {
        if p != [] {
          LastActionIsLastState(w.history, id);
        }
        SafeAppend(p, turn.acts);
      } else {
        assert p + [] == p;
      }
    }
  }

  lemma TurnKeepsInv(k: Codecs, root: string, w: World, cmd: Command)
    requires Inv(w) && Runnable(cmd)
    ensures Inv(After(w, TurnOf(k, root, w, cmd)))
  {
    hide Inv, GoodTurn, ApplyTurn, ReconcileTurn, After, ChangesetId;
    match cmd
    case Apply(c, writing, report, treeAfter) =>
      ApplyGood(k, root, w, c, writing, report, treeAfter);
      GoodTurnKeepsInv(w, ChangesetId(k, c), TurnOf(k, root, w, cmd));
    case Reconcile(c, writing) =>
      ReconcileGood(k, root, w, c, writing);
      GoodTurnKeepsInv(w, ChangesetId(k, c), TurnOf(k, root, w, cmd));
    case Edit(tree) =>
      NoActs(w, tree);
      GoodTurnKeepsInv(w, "", Turn([], tree, Replayed));
  }

  lemma NoActs(w: World, tree: Tree)
    ensures GoodTurn(w, "", Turn([], tree, Replayed).acts)
  {
  }

  lemma {:induction false} RunKeepsInv(k: Codecs, root: string, tree: Tree, commands: seq<Command>)
    requires forall cmd | cmd in commands :: Runnable(cmd)
    ensures Inv(Run(k, root, tree, commands))
  {
    hide TurnOf, After, Runnable;
    if commands != [] {
      var n := |commands| - 1;
      assert forall cmd | cmd in commands[..n] :: cmd in commands;
      RunKeepsInv(k, root, tree, commands[..n]);
      assert commands[n] in commands;
      TurnKeepsInv(k, root, Run(k, root, tree, commands[..n]), commands[n]);
    }
  }

  /** In every run nothing happens for a changeset after its applied or idempotent event, so it has at most one. */
  lemma TerminalIsLast(k: Codecs, root: string, tree: Tree, commands: seq<Command>, id: string, i: nat)
    requires forall cmd | cmd in commands :: Runnable(cmd)
    requires var acts := Of(Run(k, root, tree, commands).history, id);
             i < |acts| && acts[i].Logged? && Terminal(acts[i].state)
    ensures i == |Of(Run(k, root, tree, commands).history, id)| - 1
  {
    hide Run, Of, Runnable;
    RunKeepsInv(k, root, tree, commands);
    var acts := Of(Run(k, root, tree, commands).history, id);
    assert Safe(acts);
    assert i < |acts| - 1 ==> MayFollow(acts[i], acts[i + 1]);
  }

  /** In every run, after an unknown event of a changeset no adapter call for it happens before a reconciliation. */
  lemma UnknownLocks(k: Codecs, root: string, tree: Tree, commands: seq<Command>, id: string, i: nat, j: nat)
    requires forall cmd | cmd in commands :: Runnable(cmd)
    requires var acts := Of(Run(k, root, tree, commands).history, id);
             i < j < |acts| && acts[i] == Logged(id, Unknown) && acts[j].Called?
    ensures var acts := Of(Run(k, root, tree, commands).history, id);
            i + 1 < j && acts[i + 1] == Logged(id, Reconciled)
  {
    hide Run, Runnable, Of;
    RunKeepsInv(k, root, tree, commands);
    var acts := Of(Run(k, root, tree, commands).history, id);
    assert Safe(acts);
    assert MayFollow(acts[i], acts[i + 1]);
    OwnActions(Run(k, root, tree, commands).history, id);
    assert acts[i + 1].id == id;
    if acts[i + 1].Logged? && acts[i + 1].state == Applied {
      TerminalIsLast(k, root, tree, commands, id, i + 1);
    }
  }

  lemma {:induction false} OwnActions(history: seq<Action>, id: string)
    ensures forall i | 0 <= i < |Of(history, id)| :: Of(history, id)[i].id == id
  {
    if history != [] {
      OwnActions(history[..|history| - 1], id);
    }
  }

  // ---------- How far the lock reaches ----------

  predicate IsLocked(w: World, id: string) {
    LastState(w.log, id) == Some(Unknown)
  }

  lemma {:induction false} LastStateFrom(log: seq<Entry>, id: string)
    ensures LastState(log, id).Some? ==> Entry(id, LastState(log, id).value) in log
  {
    if log != [] {
      LastStateFrom(log[..|log| - 1], id);
      assert log[|log| - 1] in log;
    }
  }

  lemma LastStateOfAppend(log: seq<Entry>, id: string, more: seq<Entry>)
    requires more != [] && more[|more| - 1].id == id
    ensures LastState(log + more, id) == Some(more[|more| - 1].state)
  {
  }

  /** What the journal records of an attempt that called the adapter and learned nothing about its effect. */
  lemma UnknownActs(k: Codecs, root: string, w: World, c: ChangeSet, writing: Writing, treeAfter: Tree)
    requires forall o | o in c.operations :: LinesOk(o)
    requires Called(ChangesetId(k, c)) in ApplyTurn(k, root, w, c, writing, UnknownEffect, treeAfter).acts
    ensures var id := ChangesetId(k, c);
            && !IsLocked(w, id)
            && ApplyTurn(k, root, w, c, writing, UnknownEffect, treeAfter).acts
               == LogAct(w, id, Sealed) + [Called(id)]
                  + if Writable(w, id, Unknown, writing) then LogAct(w, id, Unknown) else []
  {
    hide ValidOn, IdempotentOn, ChangesetId, Writable, LinesOk, LastState;
    var sealing := LogAct(w, ChangesetId(k, c), Sealed) + [Called(ChangesetId(k, c))];
    assert sealing + [] == sealing;
  }

  /**
   Exactly when an unknown effect locks. When the adapter was called and its effect is unknown, the changeset
   is locked afterwards if and only if no earlier unknown event of it is recorded and this one can be written:
   the journal drops a second one as a duplicate, and one that was never written locks nothing.
   */
  lemma UnknownLocksIff(k: Codecs, root: string, w: World, c: ChangeSet, writing: Writing, treeAfter: Tree)
    requires forall o | o in c.operations :: LinesOk(o)
    requires Called(ChangesetId(k, c)) in ApplyTurn(k, root, w, c, writing, UnknownEffect, treeAfter).acts
    ensures IsLocked(After(w, ApplyTurn(k, root, w, c, writing, UnknownEffect, treeAfter)), ChangesetId(k, c))
            <==> Entry(ChangesetId(k, c), Unknown) !in w.log && Unknown !in writing.unpackable
  {
    hide *;
    UnknownActs(k, root, w, c, writing, treeAfter);
    var id := ChangesetId(k, c);
    UnknownEntries(w, id, writing);
    LockedBy(w, id, writing);
    AfterLog(w, ApplyTurn(k, root, w, c, writing, UnknownEffect, treeAfter), id);
  }

  lemma AfterLog(w: World, turn: Turn, id: string)
    ensures IsLocked(After(w, turn), id) <==> LastState(w.log + EntriesOf(turn.acts), id) == Some(Unknown)
  {
    hide EntriesOf, LastState;
  }

  /** The unknown event that is written, if any. */
  function UnknownEntry(w: World, id: string, writing: Writing): seq<Entry> {
    if Entry(id, Unknown) !in w.log && Unknown !in writing.unpackable then [Entry(id, Unknown)] else []
  }

  lemma UnknownEntries(w: World, id: string, writing: Writing)
    ensures EntriesOf(LogAct(w, id, Sealed) + [Called(id)]
                      + if Writable(w, id, Unknown, writing) then LogAct(w, id, Unknown) else [])
            == (if Entry(id, Sealed) in w.log then [] else [Entry(id, Sealed)]) + UnknownEntry(w, id, writing)
  {
    hide EntriesOf;
    var unknown := if Writable(w, id, Unknown, writing) then LogAct(w, id, Unknown) else [];
    EntriesConcat(LogAct(w, id, Sealed) + [Called(id)], unknown);
    EntriesConcat(LogAct(w, id, Sealed), [Called(id)]);
    EntriesOfLogAct(w, id, Sealed);
    EntriesOfLogAct(w, id, Unknown);
    EntriesOfCall(id);
    EntriesOfNothing();
  }

  lemma LockedBy(w: World, id: string, writing: Writing)
    requires !IsLocked(w, id)
    ensures LastState(w.log + ((if Entry(id, Sealed) in w.log then [] else [Entry(id, Sealed)])
                               + UnknownEntry(w, id, writing)), id) == Some(Unknown)
            <==> UnknownEntry(w, id, writing) != []
    ensures UnknownEntry(w, id, writing) != [] <==> Entry(id, Unknown) !in w.log && Unknown !in writing.unpackable
  {
    hide LastState;
    var entries := (if Entry(id, Sealed) in w.log then [] else [Entry(id, Sealed)]) + UnknownEntry(w, id, writing);
    if entries == [] {
      assert w.log + entries == w.log;
    } else {
      LastStateOfAppend(w.log, id, entries);
    }
  }

  lemma EntriesOfLogAct(w: World, id: string, s: JournalState)
    ensures EntriesOf(LogAct(w, id, s)) == if Entry(id, s) in w.log then [] else [Entry(id, s)]
  {
    assert [Logged(id, s)][..0] == [];
    assert EntriesOf([]) == [];
  }

  lemma EntriesOfCall(id: string)
    ensures EntriesOf([Called(id)]) == []
  {
    assert [Called(id)][..0] == [];
  }

  /**
   The lock that fails: unknown, reconciled as not applied, unknown again, and the third attempt calls the
   adapter although the second unknown effect was never reconciled.
   */
  lemma SecondUnknownDoesNotLock(k: Codecs, root: string, tree: Tree, c: ChangeSet)
    requires forall o | o in c.operations :: LinesOk(o)
    requires ValidOn(k, root, c, tree) && !IdempotentOn(k, root, c, tree)
    ensures var fine := Writing(true, {});
            var attempt := Apply(c, fine, UnknownEffect, tree);
            var w := Run(k, root, tree, [attempt, Reconcile(c, fine), attempt]);
            && !IsLocked(w, ChangesetId(k, c))
            && Called(ChangesetId(k, c)) in TurnOf(k, root, w, attempt).acts
  {
    hide ValidOn, IdempotentOn, ChangesetId, LinesOk, Run, ApplyTurn, ReconcileTurn, After;
    var id, fine := ChangesetId(k, c), Writing(true, {});
    var attempt := Apply(c, fine, UnknownEffect, tree);
    RunStep(k, root, tree, [], attempt);
    RunStep(k, root, tree, [attempt], Reconcile(c, fine));
    RunStep(k, root, tree, [attempt, Reconcile(c, fine)], attempt);
    assert [] + [attempt] == [attempt] && [attempt] + [Reconcile(c, fine)] == [attempt, Reconcile(c, fine)];
    assert [attempt, Reconcile(c, fine)] + [attempt] == [attempt, Reconcile(c, fine), attempt];
    FirstAttempt(k, root, tree, c);
    Reconciliation(k, root, tree, c);
    LaterAttempt(k, root, c, Sequel(tree, id));
    var w := Sequel(tree, id);
    LaterAttempt(k, root, c, After(w, ApplyTurn(k, root, w, c, fine, UnknownEffect, tree)));
  }

  /**
   The other lock that fails: the unknown event is too long to write, the command raises, and the next attempt
   calls the adapter again.
   */
  lemma UnwrittenUnknownDoesNotLock(k: Codecs, root: string, tree: Tree, c: ChangeSet)
    requires forall o | o in c.operations :: LinesOk(o)
    requires ValidOn(k, root, c, tree) && !IdempotentOn(k, root, c, tree)
    ensures var attempt := Apply(c, Writing(true, {Unknown}), UnknownEffect, tree);
            var w := Run(k, root, tree, [attempt]);
            && TurnOf(k, root, World(tree, [], []), attempt).verdict == Raised
            && Called(ChangesetId(k, c)) in w.history && !IsLocked(w, ChangesetId(k, c))
            && Called(ChangesetId(k, c)) in TurnOf(k, root, w, attempt).acts
  {
    hide ValidOn, IdempotentOn, ChangesetId, LinesOk, Run, After, LastState, EntriesOf;
    var id, writing, empty := ChangesetId(k, c), Writing(true, {Unknown}), World(tree, [], []);
    var attempt := Apply(c, writing, UnknownEffect, tree);
    RunStep(k, root, tree, [], attempt);
    assert [] + [attempt] == [attempt];
    LastStateNone(id);
    var turn := ApplyTurn(k, root, empty, c, writing, UnknownEffect, tree);
    assert turn == Turn([Logged(id, Sealed), Called(id)], tree, Raised);
    UnwrittenAfter(tree, id);
    var w := After(empty, turn);
    LastStateOfAppend([], id, [Entry(id, Sealed)]);
    assert [] + [Entry(id, Sealed)] == [Entry(id, Sealed)];
    assert ApplyTurn(k, root, w, c, writing, UnknownEffect, tree).acts == [Called(id)];
  }

  lemma UnwrittenAfter(tree: Tree, id: string)
    ensures var acts := [Logged(id, Sealed), Called(id)];
            After(World(tree, [], []), Turn(acts, tree, Raised)) == World(tree, [Entry(id, Sealed)], acts)
  {
    hide EntriesOf;
    var w := World(tree, [], []);
    EntriesConcat([Logged(id, Sealed)], [Called(id)]);
    EntriesOfLogAct(w, id, Sealed);
    EntriesOfCall(id);
    assert [Logged(id, Sealed)] + [Called(id)] == [Logged(id, Sealed), Called(id)];
  }

  /** The world after an unknown effect that was reconciled as not applied. */
  ghost function Sequel(tree: Tree, id: string): World {
    World(tree, [Entry(id, Sealed), Entry(id, Unknown), Entry(id, Reconciled)],
          [Logged(id, Sealed), Called(id), Logged(id, Unknown), Logged(id, Reconciled)])
  }

  lemma Reconciliation(k: Codecs, root: string, tree: Tree, c: ChangeSet)
    requires forall o | o in c.operations :: LinesOk(o)
    requires ValidOn(k, root, c, tree) && !IdempotentOn(k, root, c, tree)
    ensures var id := ChangesetId(k, c);
            var w := World(tree, [Entry(id, Sealed), Entry(id, Unknown)],
                           [Logged(id, Sealed), Called(id), Logged(id, Unknown)]);
            After(w, ReconcileTurn(k, root, w, c, Writing(true, {}))) == Sequel(tree, id)
  {
    hide ValidOn, IdempotentOn, ChangesetId, LinesOk;
    var id := ChangesetId(k, c);
    var w := World(tree, [Entry(id, Sealed), Entry(id, Unknown)],
                   [Logged(id, Sealed), Called(id), Logged(id, Unknown)]);
    EntriesOfLogAct(w, id, Reconciled);
  }

  /** Once sealed, unknown and reconciled are recorded, an unknown attempt calls the adapter and records nothing. */
  lemma LaterAttempt(k: Codecs, root: string, c: ChangeSet, w: World)
    requires forall o | o in c.operations :: LinesOk(o)
    requires ValidOn(k, root, c, w.tree) && !IdempotentOn(k, root, c, w.tree)
    requires var id := ChangesetId(k, c);
             w.log == [Entry(id, Sealed), Entry(id, Unknown), Entry(id, Reconciled)]
    ensures var turn := ApplyTurn(k, root, w, c, Writing(true, {}), UnknownEffect, w.tree);
            && turn.acts == [Called(ChangesetId(k, c))]
            && After(w, turn) == World(w.tree, w.log, w.history + turn.acts)
            && !IsLocked(w, ChangesetId(k, c))
  {
    hide ValidOn, IdempotentOn, ChangesetId, LinesOk;
    EntriesOfCall(ChangesetId(k, c));
    assert w.log + [] == w.log;
  }

  lemma FirstAttempt(k: Codecs, root: string, tree: Tree, c: ChangeSet)
    requires forall o | o in c.operations :: LinesOk(o)
    requires ValidOn(k, root, c, tree) && !IdempotentOn(k, root, c, tree)
    ensures ApplyTurn(k, root, World(tree, [], []), c, Writing(true, {}), UnknownEffect, tree).acts
            == [Logged(ChangesetId(k, c), Sealed), Called(ChangesetId(k, c)), Logged(ChangesetId(k, c), Unknown)]
    ensures var id := ChangesetId(k, c);
            var w := World(tree, [], []);
            After(w, ApplyTurn(k, root, w, c, Writing(true, {}), UnknownEffect, tree))
            == World(tree, [Entry(id, Sealed), Entry(id, Unknown)],
                     [Logged(id, Sealed), Called(id), Logged(id, Unknown)])
  {
    hide EntriesOf, ChangesetId;
    var id, w := ChangesetId(k, c), World(tree, [], []);
    EntriesConcat([Logged(id, Sealed)] + [Called(id)], [Logged(id, Unknown)]);
    EntriesConcat([Logged(id, Sealed)], [Called(id)]);
    EntriesOfLogAct(w, id, Sealed);
    EntriesOfLogAct(w, id, Unknown);
    EntriesOfCall(id);
  }

  lemma RunStep(k: Codecs, root: string, tree: Tree, commands: seq<Command>, cmd: Command)
    requires (forall x | x in commands :: Runnable(x)) && Runnable(cmd)
    ensures Run(k, root, tree, []) == World(tree, [], [])
    ensures var w := Run(k, root, tree, commands);
            Run(k, root, tree, commands + [cmd]) == After(w, TurnOf(k, root, w, cmd))
  {
    hide TurnOf, After, Runnable;
    assert (commands + [cmd])[..|commands|] == commands;
  }

  // ---------- What an applied event means ----------

  /** Nothing recorded stands in the way of an attempt. */
  predicate Open(w: World, id: string) {
    LastState(w.log, id) !in {Some(Applied), Some(AlreadyDone), Some(Unknown)}
  }

  lemma WellFormedRuns(k: Codecs, o: ChangeOperation)
    requires WellFormedOp(k, o)
    ensures LinesOk(o) && HasPayload(k, o)
  {
    hide GoodPath, IsSha, Blank, LineMapSha;
  }

  /**
   The adapter returned: applied is recorded if the tree it left still validates, and otherwise rejected is,
   whatever happened to the tree. So an adapter that changed nothing is recorded as applied.
   */
  lemma AppliedMeansValid(k: Codecs, root: string, w: World, c: ChangeSet, treeAfter: Tree)
    requires forall o | o in c.operations :: LinesOk(o)
    requires ValidOn(k, root, c, w.tree) && !IdempotentOn(k, root, c, w.tree) && Open(w, ChangesetId(k, c))
    ensures var turn := ApplyTurn(k, root, w, c, Writing(true, {}), Returned, treeAfter);
            && turn.tree == treeAfter
            && turn.verdict == (if ValidOn(k, root, c, treeAfter) then Materialized else NotMaterialized)
            && Entry(ChangesetId(k, c), if ValidOn(k, root, c, treeAfter) then Applied else Rejected)
               in After(w, turn).log
    ensures ApplyTurn(k, root, w, c, Writing(true, {}), Returned, w.tree).verdict == Materialized
  {
    hide ValidOn, IdempotentOn, ChangesetId, LinesOk, LastState, EntriesOf;
    var id, s := ChangesetId(k, c), if ValidOn(k, root, c, treeAfter) then Applied else Rejected;
    var acts := LogAct(w, id, Sealed) + [Called(id)];
    EntriesConcat(acts, LogAct(w, id, s));
    EntriesOfLogAct(w, id, s);
  }

  /** Validating again gives what performing the operations again gives. */
  lemma ValidOnPerformed(k: Codecs, root: string, c: ChangeSet, tree: Tree)
    requires forall o | o in c.operations :: LinesOk(o)
    ensures ValidOn(k, root, c, tree) <==> c.repository == root && Simulate(k, tree, map[], c.operations).Success?
    ensures IdempotentOn(k, root, c, tree)
            <==> ValidOn(k, root, c, tree) && AllIdempotent(Simulate(k, tree, map[], c.operations).value)
  {
    hide Simulate, AllIdempotent;
  }

  /**
   When an applied event means that the operations were performed. For well-formed operations on disjoint paths
   and an adapter that performs them, applied is recorded if and only if every operation is honest, and then
   validation reports every one idempotent; otherwise rejected is recorded although they were performed.
   */
  lemma AppliedIffHonest(k: Codecs, root: string, w: World, c: ChangeSet)
    requires (forall o | o in c.operations :: LinesOk(o) && WellFormedOp(k, o)) && PairwiseDisjoint(c.operations)
    requires ValidOn(k, root, c, w.tree) && !IdempotentOn(k, root, c, w.tree) && Open(w, ChangesetId(k, c))
    ensures PerformAll(k, w.tree, c.operations).Success?
    ensures var performed := PerformAll(k, w.tree, c.operations).value.0;
            var turn := ApplyTurn(k, root, w, c, Writing(true, {}), Returned, performed);
            var honest := forall o | o in c.operations :: Honest(k, w.tree, o);
            && turn.tree == performed
            && turn.verdict == (if honest then Materialized else NotMaterialized)
            && Entry(ChangesetId(k, c), if honest then Applied else Rejected) in After(w, turn).log
            && (honest <==> IdempotentOn(k, root, c, performed))
  {
    hide ApplyTurn, After, Open, ValidOn, IdempotentOn, ChangesetId, LinesOk, WellFormedOp, HasPayload, Honest,
         Simulate, PerformAll, AllIdempotent, PairwiseDisjoint;
    forall o | o in c.operations ensures HasPayload(k, o) {
      WellFormedRuns(k, o);
    }
    ValidOnPerformed(k, root, c, w.tree);
    RevalidationAcceptsIff(k, w.tree, c.operations);
    var performed := PerformAll(k, w.tree, c.operations).value.0;
    ValidOnPerformed(k, root, c, performed);
    AppliedMeansValid(k, root, w, c, performed);
  }

  /**
   Chained edits that the adapter performs faithfully. They end as materialised if and only if the final content
   takes the first edit again and, unless that finds its work done, what it makes of the content takes the second
   one again; otherwise the command answers that nothing was materialised and records rejected, although the tree
   was changed as planned. They are idempotent afterwards if and only if the final content matches the first
   one's `after` hash. A chain that ends where it began is materialised.
   */
  lemma ChainedEditsAreRejected(k: Codecs, root: string, w: World, c: ChangeSet, first: ChangeOperation,
                                second: ChangeOperation)
    requires c.operations == [first, second] && Chain([first, second], first.path) && Open(w, ChangesetId(k, c))
    requires c.repository == root && Simulate(k, w.tree, map[], [first, second]) == Success([Ready, Ready])
    ensures PerformAll(k, w.tree, [first, second]).Success?
    ensures first.path in w.tree && first.path in PerformAll(k, w.tree, [first, second]).value.0
    ensures var performed := PerformAll(k, w.tree, [first, second]).value.0;
            var turn := ApplyTurn(k, root, w, c, Writing(true, {}), Returned, performed);
            var final := performed[first.path];
            var taken := Takes(k, final, first)
                         && (Matches(k, final, first.after) || Takes(k, Replace(k, final, first).value, second));
            && turn.tree == performed
            && turn.verdict == (if taken then Materialized else NotMaterialized)
            && Entry(ChangesetId(k, c), if taken then Applied else Rejected) in After(w, turn).log
            && (IdempotentOn(k, root, c, performed) <==> Matches(k, final, first.after))
            && (!taken ==> performed != w.tree)
            && (final == w.tree[first.path] ==> taken)
  {
    hide ApplyTurn, After, Open, ValidOn, IdempotentOn, ChangesetId, LinesOk, Simulate, PerformAll, Perform, Matches,
         Takes, Replace;
    ChainedReplaceGoesStale(k, w.tree, first, second);
    ChainedReplaceAcceptsIff(k, w.tree, first, second);
    assert !AllIdempotent([Ready, Ready]) by {
      assert [Ready, Ready][0] == Ready;
    }
    ValidOnPerformed(k, root, c, w.tree);
    var performed := PerformAll(k, w.tree, [first, second]).value.0;
    ValidOnPerformed(k, root, c, performed);
    AppliedMeansValid(k, root, w, c, performed);
  }

  // ---------- The commands over the journal file ----------

  datatype Recording = Done | Unauthorized | TooLong

  class Workspace {
    const journal: BinaryChangeJournal
    const root: string
    var tree: Tree
    ghost var history: seq<Action>

    ghost function Abstract(): World
      reads this, journal
    {
      World(tree, journal.log, history)
    }

    ghost predicate Valid()
      reads this, journal
    {
      journal.Valid()
    }

    /** A workspace over a journal that may hold events already; they are its history. */
    constructor (j: BinaryChangeJournal, path: string, files: Tree)
      requires j.Valid()
      ensures Valid() && journal == j && root == path
      ensures Abstract() == World(files, j.log, Recalled(j.log)) && j.log == EntriesOf(Recalled(j.log))
      ensures j.log == [] ==> Inv(Abstract())
    {
      journal, root, tree, history := j, path, files, Recalled(j.log);
      new;
      RecalledEntries(j.log);
      EmptyInv(files);
    }

    /** The process dies and `n` bytes of the journal survive; the journal is recovered before the next command. */
    method Crash(n: nat)
      requires Valid() && journal.file.Some? && HEADER_SIZE <= n <= |journal.file.value|
      modifies journal
      ensures Valid()
      ensures var kept := Complete(journal.k, [], old(journal.events), n - HEADER_SIZE);
              Abstract() == old(Abstract()).(log := old(journal.log)[..kept])
    {
      hide BinaryChangeJournal.Valid, BinaryChangeJournal.Damaged, Complete;
      journal.Tear(n);
      var report := journal.Recover();
    }

    /** Another tool edits the tree. */
    method EditTree(files: Tree)
      requires Valid()
      modifies this`tree
      ensures Valid() && Abstract() == old(Abstract()).(tree := files)
      ensures old(Inv(Abstract())) ==> Inv(Abstract())
    {
      hide EntriesOf, Of, Safe;
      tree := files;
    }

    /** Appends one event; a duplicate is silent. */
    method Record(c: ChangeSet, s: JournalState, evidence: map<Name, Json>) returns (r: Recording)
      requires journal.Valid()
      modifies this`history, journal
      ensures journal.Valid()
      ensures r == Unauthorized <==> !journal.Accepts(c)
      ensures r == TooLong ==> Entry(ChangesetId(journal.k, c), s) !in old(journal.log)
      ensures r == Done && Entry(ChangesetId(journal.k, c), s) !in old(journal.log) ==>
        && journal.log == old(journal.log) + [Entry(ChangesetId(journal.k, c), s)]
        && history == old(history) + [Logged(ChangesetId(journal.k, c), s)]
      ensures r != Done || Entry(ChangesetId(journal.k, c), s) in old(journal.log) ==>
        journal.log == old(journal.log) && history == old(history)
    {
      hide *;
      var appended := journal.Append(c, s, evidence);
      if appended.Failure? {
        return if appended.error == PackError then TooLong else Unauthorized;
      }
      if !appended.value.idempotent {
        history := history + [Logged(ChangesetId(journal.k, c), s)];
      }
      r := Done;
    }

    /** `Record` seen from the start of the turn, where the journal was in `w`. */
    method RecordNext(c: ChangeSet, s: JournalState, evidence: map<Name, Json>, ghost w: World, ghost acts: seq<Action>)
      returns (r: Recording)
      requires journal.Valid() && Midway(w, Abstract(), acts) && Unmentioned(acts, s)
      requires forall a | a in acts :: a.id == ChangesetId(journal.k, c)
      modifies this`history, journal
      ensures journal.Valid()
      ensures r == Unauthorized <==> !journal.Accepts(c)
      ensures r == TooLong ==> Entry(ChangesetId(journal.k, c), s) !in w.log
      ensures Midway(w, Abstract(), if r == Done then acts + LogAct(w, ChangesetId(journal.k, c), s) else acts)
    {
      ghost var v, id := Abstract(), ChangesetId(journal.k, c);
      UnmentionedIn(w, v, acts, id, s);
      r := Record(c, s, evidence);
      OneMore(w, v, Abstract(), acts, id, s, r == Done);
    }

    /** The state of the changeset's last event. */
    method FindPrevious(id: string) returns (previous: Option<JournalState>)
      requires journal.Valid()
      ensures previous == LastState(journal.log, id)
    {
      hide Tagged, Chained, Payload, Lawful, LastState, EventState, ReadFile;
      journal.ReadWhole(false);
      var read := journal.Read(false);
      var found := read.value;
      ghost var log := journal.log;
      assert log[..|log|] == log;
      for i := |found| downto 0
        invariant LastState(log, id) == LastState(log[..i], id)
      {
        TaggedMeans(found[i], log[i], id);
        LastStateStep(log, id, i);
        if Get(found[i], KChangesetId) == JString(id) {
          return EventState(found[i]);
        }
      }
      LastStateNone(id);
      previous := None;
    }

    /** The handler of a rejection. */
    method Reject(c: ChangeSet, evidence: map<Name, Json>, ghost w: World, ghost acts: seq<Action>)
      returns (verdict: Verdict, ghost writing: Writing)
      requires journal.Valid() && Midway(w, Abstract(), acts) && Unmentioned(acts, Rejected)
      requires forall a | a in acts :: a.id == ChangesetId(journal.k, c)
      modifies this`history, journal
      ensures journal.Valid() && writing.authorized == journal.Accepts(c) && writing.unpackable <= {Rejected}
      ensures var turn := RejectTurn(w, ChangesetId(journal.k, c), writing, acts, tree);
              verdict == turn.verdict && Midway(w, Abstract(), turn.acts)
    {
      hide ChangesetId, BinaryChangeJournal.Valid, BinaryChangeJournal.Accepts, Midway, Unmentioned, LogAct;
      var r := RecordNext(c, Rejected, evidence, w, acts);
      writing := Writing(journal.Accepts(c), if r == TooLong then {Rejected} else {});
      verdict := if r == TooLong then Raised else NotMaterialized;
    }

    /** Records the outcome of the turn. */
    method Conclude(c: ChangeSet, s: JournalState, success: Verdict, evidence: map<Name, Json>,
                    ghost w: World, ghost acts: seq<Action>)
      returns (verdict: Verdict, ghost writing: Writing)
      requires journal.Valid() && Midway(w, Abstract(), acts) && Unmentioned(acts, s) && journal.Accepts(c)
      requires forall a | a in acts :: a.id == ChangesetId(journal.k, c)
      modifies this`history, journal
      ensures journal.Valid() && writing.authorized && writing.unpackable <= {s}
      ensures var id := ChangesetId(journal.k, c);
              && verdict == (if Writable(w, id, s, writing) then success else Raised)
              && Midway(w, Abstract(), if Writable(w, id, s, writing) then acts + LogAct(w, id, s) else acts)
    {
      hide ChangesetId, BinaryChangeJournal.Valid, BinaryChangeJournal.Accepts, Midway, Unmentioned, LogAct;
      var r := RecordNext(c, s, evidence, w, acts);
      writing := Writing(true, if r == TooLong then {s} else {});
      verdict := if r == Done then success else Raised;
    }

    /** What follows the adapter call, by what the adapter reported. */
    method Settle(c: ChangeSet, report: AdapterReport, evidence: map<Name, Json>, ghost w: World,
                  ghost acts: seq<Action>)
      returns (verdict: Verdict, ghost writing: Writing)
      requires journal.Valid() && Midway(w, Abstract(), acts) && journal.Accepts(c)
      requires forall s | s != Sealed :: Unmentioned(acts, s)
      requires forall a | a in acts :: a.id == ChangesetId(journal.k, c)
      requires forall o | o in c.operations :: LinesOk(o)
      modifies this`history, journal
      ensures journal.Valid() && writing.authorized && Sealed !in writing.unpackable
      ensures var turn := OutcomeTurn(journal.k, root, w, c, writing, report, tree, acts);
              verdict == turn.verdict && Midway(w, Abstract(), turn.acts) && tree == turn.tree
    {
      hide ChangesetId, BinaryChangeJournal.Valid, BinaryChangeJournal.Accepts, Midway, Unmentioned, LogAct, LinesOk,
           ValidOn, Writable;
      if report == Crashed {
        return Raised, Writing(true, {});
      }
      if report == UnknownEffect {
        verdict, writing := Conclude(c, Unknown, Locked, evidence, w, acts);
        return;
      }
      if report == Refused || !ValidOn(journal.k, root, c, tree) {
        verdict, writing := Reject(c, evidence, w, acts);
        return;
      }
      verdict, writing := Conclude(c, Applied, Materialized, evidence, w, acts);
    }

    /** From the adapter call on; the adapter may leave any tree behind. */
    method CallAdapter(c: ChangeSet, report: AdapterReport, treeAfter: Tree, evidence: map<Name, Json>,
                       ghost w: World, ghost sealing: seq<Action>)
      returns (verdict: Verdict, ghost writing: Writing)
      requires journal.Valid() && Midway(w, Abstract(), sealing) && journal.Accepts(c)
      requires sealing == LogAct(w, ChangesetId(journal.k, c), Sealed)
      requires forall o | o in c.operations :: LinesOk(o)
      modifies this, journal
      ensures journal.Valid() && writing.authorized && Sealed !in writing.unpackable
      ensures var turn := AdapterTurn(journal.k, root, w, c, writing, report, treeAfter, sealing);
              verdict == turn.verdict && Midway(w, Abstract(), turn.acts) && tree == turn.tree
    {
      ghost var acts := sealing + [Called(ChangesetId(journal.k, c))];
      CallMore(w, Abstract(), sealing, ChangesetId(journal.k, c));
      tree, history := treeAfter, history + [Called(ChangesetId(journal.k, c))];
      verdict, writing := Settle(c, report, evidence, w, acts);
    }

    /** What follows the sealed event. */
    method Proceed(c: ChangeSet, idempotent: bool, report: AdapterReport, treeAfter: Tree, evidence: map<Name, Json>,
                   ghost w: World, ghost sealing: seq<Action>)
      returns (verdict: Verdict, ghost writing: Writing)
      requires journal.Valid() && Midway(w, Abstract(), sealing) && journal.Accepts(c) && tree == w.tree
      requires sealing == LogAct(w, ChangesetId(journal.k, c), Sealed)
      requires forall o | o in c.operations :: LinesOk(o)
      requires idempotent <==> IdempotentOn(journal.k, root, c, w.tree)
      modifies this, journal
      ensures journal.Valid() && writing.authorized && Sealed !in writing.unpackable
      ensures var turn := SealedTurn(journal.k, root, w, c, writing, report, treeAfter, sealing);
              verdict == turn.verdict && Midway(w, Abstract(), turn.acts) && tree == turn.tree
    {
      hide ChangesetId, BinaryChangeJournal.Valid, BinaryChangeJournal.Accepts, Midway, Unmentioned, LogAct, LinesOk,
           IdempotentOn, AdapterTurn, Writable;
      if idempotent {
        SealingIsOwn(w, ChangesetId(journal.k, c));
        verdict, writing := Conclude(c, AlreadyDone, AlreadyIdempotent, evidence, w, sealing);
      } else {
        verdict, writing := CallAdapter(c, report, treeAfter, evidence, w, sealing);
      }
    }

    /** Records the sealed event of a validated attempt, and goes on from there. */
    method Seal(c: ChangeSet, idempotent: bool, report: AdapterReport, treeAfter: Tree, evidence: map<Name, Json>,
                ghost w: World)
      returns (verdict: Verdict, ghost writing: Writing)
      requires journal.Valid() && w == Abstract()
      requires forall o | o in c.operations :: LinesOk(o)
      requires ValidOn(journal.k, root, c, tree) && (idempotent <==> IdempotentOn(journal.k, root, c, tree))
      modifies this, journal
      ensures journal.Valid() && writing.authorized == journal.Accepts(c)
      ensures var turn := AttemptTurn(journal.k, root, w, c, writing, report, treeAfter);
              verdict == turn.verdict && Midway(w, Abstract(), turn.acts) && tree == turn.tree
    {
      hide ChangesetId, BinaryChangeJournal.Valid, BinaryChangeJournal.Accepts, Midway, Unmentioned, LogAct, LinesOk,
           ValidOn, IdempotentOn, SealedTurn;
      AtStart(w);
      var r := RecordNext(c, Sealed, evidence, w, []);
      if r == Unauthorized {
        verdict, writing := Reject(c, evidence, w, []);
        return;
      }
      if r == TooLong {
        return Raised, Writing(true, {Sealed});
      }
      ghost var sealing := LogAct(w, ChangesetId(journal.k, c), Sealed);
      assert [] + sealing == sealing;
      verdict, writing := Proceed(c, idempotent, report, treeAfter, evidence, w, sealing);
    }

    /** From the validation on. */
    method Attempt(c: ChangeSet, report: AdapterReport, treeAfter: Tree, evidence: map<Name, Json>, ghost w: World)
      returns (verdict: Verdict, ghost writing: Writing)
      requires journal.Valid() && w == Abstract()
      requires forall o | o in c.operations :: LinesOk(o)
      modifies this, journal
      ensures journal.Valid() && writing.authorized == journal.Accepts(c)
      ensures var turn := AttemptTurn(journal.k, root, w, c, writing, report, treeAfter);
              verdict == turn.verdict && Midway(w, Abstract(), turn.acts) && tree == turn.tree
    {
      hide ChangesetId, BinaryChangeJournal.Valid, BinaryChangeJournal.Accepts, Midway, Unmentioned, LogAct, LinesOk,
           Validate, AllIdempotent, SealedTurn, Writable;
      AtStart(w);
      var validation := Validate(journal.k, c, root, None, None, tree);
      if validation.Failure? {
        verdict, writing := Reject(c, evidence, w, []);
      } else {
        verdict, writing := Seal(c, AllIdempotent(validation.value), report, treeAfter, evidence, w);
      }
    }

    /**
     `materialize`. The adapter's report and the tree it leaves are inputs; the result says which lengths did
     not fit the journal.
     */
    method Materialize(c: ChangeSet, report: AdapterReport, treeAfter: Tree, evidence: map<Name, Json>)
      returns (verdict: Verdict, ghost writing: Writing)
      requires Valid() && forall o | o in c.operations :: LinesOk(o)
      modifies this, journal
      ensures Valid() && writing.authorized == journal.Accepts(c)
      ensures var turn := ApplyTurn(journal.k, root, old(Abstract()), c, writing, report, treeAfter);
              verdict == turn.verdict && Abstract() == After(old(Abstract()), turn)
      ensures old(Inv(Abstract())) ==> Inv(Abstract())
    {
      hide ChangesetId, BinaryChangeJournal.Valid, BinaryChangeJournal.Accepts, Midway, LinesOk, AttemptTurn,
           LastState, Inv, After;
      ghost var w := Abstract();
      AtStart(w);
      var previous := FindPrevious(ChangesetId(journal.k, c));
      writing := Writing(journal.Accepts(c), {});
      if previous.Some? && Terminal(previous.value) {
        verdict := Replayed;
      } else if previous == Some(Unknown) {
        verdict := Locked;
      } else {
        verdict, writing := Attempt(c, report, treeAfter, evidence, w);
      }
      ghost var turn := ApplyTurn(journal.k, root, w, c, writing, report, treeAfter);
      MidwayIsAfter(w, Abstract(), turn);
      ApplyGood(journal.k, root, w, c, writing, report, treeAfter);
      if Inv(w) {
        GoodTurnKeepsInv(w, ChangesetId(journal.k, c), turn);
      }
    }

    /** `reconcile_unknown_effect`. */
    method Reconcile(c: ChangeSet, evidence: map<Name, Json>) returns (verdict: Verdict, ghost writing: Writing)
      requires Valid() && forall o | o in c.operations :: LinesOk(o)
      modifies this`history, journal
      ensures Valid() && writing.authorized == journal.Accepts(c)
      ensures var turn := ReconcileTurn(journal.k, root, old(Abstract()), c, writing);
              verdict == turn.verdict && Abstract() == After(old(Abstract()), turn)
      ensures old(Inv(Abstract())) ==> Inv(Abstract())
    {
      hide ChangesetId, BinaryChangeJournal.Valid, BinaryChangeJournal.Accepts, Midway, LinesOk, LastState, Inv,
           After, Validate, LogAct, AllIdempotent;
      ghost var w := Abstract();
      AtStart(w);
      var previous := FindPrevious(ChangesetId(journal.k, c));
      writing := Writing(journal.Accepts(c), {});
      if previous == Some(Reconciled) {
        verdict := ReconciledBefore;
      } else if previous != Some(Unknown) {
        verdict := NothingToReconcile;
      } else {
        var validation := Validate(journal.k, c, root, None, None, tree);
        if validation.Failure? {
          verdict := Ambiguous;
        } else {
          var outcome := if AllIdempotent(validation.value) then Applied else Reconciled;
          var r := RecordNext(c, outcome, evidence, w, []);
          assert [] + LogAct(w, ChangesetId(journal.k, c), outcome) == LogAct(w, ChangesetId(journal.k, c), outcome);
          writing := Writing(journal.Accepts(c), if r == TooLong then {outcome} else {});
          verdict := if r != Done then Raised else if outcome == Applied then FoundApplied else FoundNotApplied;
        }
      }
      ghost var turn := ReconcileTurn(journal.k, root, w, c, writing);
      MidwayIsAfter(w, Abstract(), turn);
      ReconcileGood(journal.k, root, w, c, writing);
      if Inv(w) {
        GoodTurnKeepsInv(w, ChangesetId(journal.k, c), turn);
      }
    }
  }

  /** The events of a journal as actions. */
  function Recalled(log: seq<Entry>): seq<Action> {
    if log == [] then []
    else Recalled(log[..|log| - 1]) + [Logged(log[|log| - 1].id, log[|log| - 1].state)]
  }

  lemma {:induction false} RecalledEntries(log: seq<Entry>)
    ensures EntriesOf(Recalled(log)) == log
  {
    if log != [] {
      var front, last := log[..|log| - 1], log[|log| - 1];
      RecalledEntries(front);
      EntriesConcat(Recalled(front), [Logged(last.id, last.state)]);
      assert [Logged(last.id, last.state)][..0] == [];
      assert EntriesOf([Logged(last.id, last.state)]) == [last];
    }
  }

  lemma AtStart(w: World)
    ensures Midway(w, w, []) && forall s :: Unmentioned([], s)
  {
    assert w.log + [] == w.log && w.history + [] == w.history;
  }

  lemma SealingIsOwn(w: World, id: string)
    ensures var sealing := LogAct(w, id, Sealed);
            (forall s | s != Sealed :: Unmentioned(sealing, s)) && forall a | a in sealing :: a.id == id
  {
  }

  lemma MidwayIsAfter(w: World, v: World, turn: Turn)
    requires Midway(w, v, turn.acts) && v.tree == turn.tree
    ensures v == After(w, turn)
  {
  }

  lemma CallMore(w: World, v: World, sealing: seq<Action>, id: string)
    requires Midway(w, v, sealing) && sealing == LogAct(w, id, Sealed)
    ensures var acts := sealing + [Called(id)];
            && Midway(w, World(v.tree, v.log, v.history + [Called(id)]), acts)
            && (forall s | s != Sealed :: Unmentioned(acts, s)) && (forall a | a in acts :: a.id == id)
  {
    hide EntriesOf;
    EntriesConcat(sealing, [Called(id)]);
    EntriesOfCall(id);
  }

  /** The state an event names. */
  function EventState(event: Event): Option<JournalState> {
    var state := Get(event, KState);
    if state == JString(StateName(Sealed)) then Some(Sealed)
    else if state == JString(StateName(Applied)) then Some(Applied)
    else if state == JString(StateName(AlreadyDone)) then Some(AlreadyDone)
    else if state == JString(StateName(Unknown)) then Some(Unknown)
    else if state == JString(StateName(Rejected)) then Some(Rejected)
    else if state == JString(StateName(Reconciled)) then Some(Reconciled)
    else None
  }

  lemma TaggedMeans(event: Event, entry: Entry, id: string)
    requires Tagged(event, entry)
    ensures EventState(event) == Some(entry.state)
    ensures Get(event, KChangesetId) == JString(id) <==> entry.id == id
  {
    hide StateName;
    forall s ensures StateName(entry.state) == StateName(s) ==> entry.state == s {
      StateNamesDiffer(entry.state, s);
    }
    match entry.state {
      case Sealed => case Applied => case AlreadyDone => case Unknown => case Rejected => case Reconciled =>
    }
  }

  lemma LastStateStep(log: seq<Entry>, id: string, i: nat)
    requires i < |log|
    ensures LastState(log[..i + 1], id) == if log[i].id == id then Some(log[i].state) else LastState(log[..i], id)
  {
    assert log[..i + 1][..i] == log[..i];
  }

  lemma LastStateNone(id: string)
    ensures LastState([], id) == None
  {
  }

  /** `v` is `w` after some actions, apart from the tree. */
  ghost predicate Midway(w: World, v: World, acts: seq<Action>) {
    v.log == w.log + EntriesOf(acts) && v.history == w.history + acts
  }

  predicate Unmentioned(acts: seq<Action>, s: JournalState) {
    forall a | a in acts :: a.Logged? ==> a.state != s
  }

  lemma {:induction false} UnmentionedEntries(acts: seq<Action>, id: string, s: JournalState)
    requires Unmentioned(acts, s)
    ensures Entry(id, s) !in EntriesOf(acts)
  {
    if acts != [] {
      assert forall a | a in acts[..|acts| - 1] :: a in acts;
      UnmentionedEntries(acts[..|acts| - 1], id, s);
    }
  }

  lemma UnmentionedIn(w: World, v: World, acts: seq<Action>, id: string, s: JournalState)
    requires Midway(w, v, acts) && Unmentioned(acts, s)
    ensures Entry(id, s) in v.log <==> Entry(id, s) in w.log
  {
    hide EntriesOf;
    UnmentionedEntries(acts, id, s);
  }

  lemma OneMore(w: World, v: World, u: World, acts: seq<Action>, id: string, s: JournalState, done: bool)
    requires Midway(w, v, acts) && (Entry(id, s) in v.log <==> Entry(id, s) in w.log)
    requires done && Entry(id, s) !in v.log ==>
               u.log == v.log + [Entry(id, s)] && u.history == v.history + [Logged(id, s)]
    requires !done || Entry(id, s) in v.log ==> u.log == v.log && u.history == v.history
    ensures Midway(w, u, if done then acts + LogAct(w, id, s) else acts)
  {
    hide EntriesOf;
    EntriesConcat(acts, LogAct(w, id, s));
    EntriesOfLogAct(w, id, s);
  }

  lemma EmptyInv(tree: Tree)
    ensures Inv(World(tree, [], []))
  {
    assert forall id :: Of([], id) == [];
  }
}
