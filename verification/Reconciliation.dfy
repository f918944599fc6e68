/**
 When the lock of an unknown effect ends: what `reconcile_unknown_effect` decides, stated by performing the
 operations on the tree, and what it leaves behind in every run.
 */
module Reconciliation {
  import Acceptance
  import opened ChangeSet
  import opened ChangeSetValidate
  import opened Journal
  import opened Materialize
  import opened Wrappers

  // ---------- One reconciliation ----------

  /** The changeset is of this repository, and its operations can be performed on the tree one after another. */
  predicate Accepted(k: Codecs, root: string, c: ChangeSet, tree: Tree)
    requires forall o | o in c.operations :: LinesOk(o)
  {
    c.repository == root && PerformAll(k, tree, c.operations).Success?
  }

  /** Performing them finds every one done. */
  ghost predicate FoundDone(k: Codecs, root: string, c: ChangeSet, tree: Tree)
    requires forall o | o in c.operations :: LinesOk(o)
  {
    && Accepted(k, root, c, tree)
    && forall s | s in PerformAll(k, tree, c.operations).value.1 :: s == Idempotent
  }

  /** Performing them finds one still to do. */
  ghost predicate FoundReady(k: Codecs, root: string, c: ChangeSet, tree: Tree)
    requires forall o | o in c.operations :: LinesOk(o)
  {
    Accepted(k, root, c, tree) && Ready in PerformAll(k, tree, c.operations).value.1
  }

  lemma AcceptedIsValid(k: Codecs, root: string, c: ChangeSet, tree: Tree)
    requires forall o | o in c.operations :: LinesOk(o)
    ensures ValidOn(k, root, c, tree) <==> Accepted(k, root, c, tree)
    ensures IdempotentOn(k, root, c, tree) <==> FoundDone(k, root, c, tree)
    ensures Accepted(k, root, c, tree) ==> (FoundReady(k, root, c, tree) <==> !FoundDone(k, root, c, tree))
  {
    hide Simulate, PerformAll, ValidOn, IdempotentOn, LinesOk, StepOverlay, Perform;
    ValidOnPerformed(k, root, c, tree);
    Acceptance.NothingShown(tree);
    SimulationRefines(k, tree, map[], tree, c.operations);
    if Accepted(k, root, c, tree) {
      StatusSplit(PerformAll(k, tree, c.operations).value.1);
    }
  }

  lemma StatusSplit(statuses: seq<Status>)
    ensures AllIdempotent(statuses) <==> forall s | s in statuses :: s == Idempotent
    ensures AllIdempotent(statuses) <==> Ready !in statuses
  {
    if Ready in statuses {
      var i :| 0 <= i < |statuses| && statuses[i] == Ready;
    }
  }

  /** The branches of the command on a locked changeset. */
  lemma ReconcileCases(k: Codecs, root: string, w: World, c: ChangeSet, writing: Writing)
    requires forall o | o in c.operations :: LinesOk(o)
    requires IsLocked(w, ChangesetId(k, c))
    ensures var id, accepted := ChangesetId(k, c), ValidOn(k, root, c, w.tree);
            var outcome := if IdempotentOn(k, root, c, w.tree) then Applied else Reconciled;
            var turn := ReconcileTurn(k, root, w, c, writing);
            && (!accepted ==> turn.acts == [] && turn.verdict == Ambiguous)
            && (accepted && !(writing.authorized && Writable(w, id, outcome, writing)) ==>
                  turn.acts == [] && turn.verdict == Raised)
            && (accepted && writing.authorized && Writable(w, id, outcome, writing) ==>
                  && turn.acts == LogAct(w, id, outcome)
                  && turn.verdict == (if outcome == Applied then FoundApplied else FoundNotApplied))
            && turn.tree == w.tree
  {
    hide ValidOn, IdempotentOn, ChangesetId, LastState, LinesOk, Writable;
  }

  /**
   What a reconciliation of a locked changeset decides. It logs applied if and only if performing the operations on
   the tree as it is finds every one done, and reconciled if and only if it finds them acceptable with one still to
   do, given the authority and an event that can be written and is new. Otherwise it logs nothing, and exactly then
   the changeset stays locked; on a tree that the operations do not accept the answer is that the effect is ambiguous.
   */
  lemma ReconcileIff(k: Codecs, root: string, w: World, c: ChangeSet, writing: Writing)
    requires forall o | o in c.operations :: LinesOk(o)
    requires IsLocked(w, ChangesetId(k, c))
    ensures var id, turn := ChangesetId(k, c), ReconcileTurn(k, root, w, c, writing);
            && (Logged(id, Applied) in turn.acts
                <==> && FoundDone(k, root, c, w.tree) && writing.authorized && Applied !in writing.unpackable
                     && Entry(id, Applied) !in w.log)
            && (Logged(id, Reconciled) in turn.acts
                <==> && FoundReady(k, root, c, w.tree) && writing.authorized && Reconciled !in writing.unpackable
                     && Entry(id, Reconciled) !in w.log)
            && turn.acts in {[], [Logged(id, Applied)], [Logged(id, Reconciled)]}
            && (turn.verdict == Ambiguous <==> !Accepted(k, root, c, w.tree))
            && turn.tree == w.tree && (IsLocked(After(w, turn), id) <==> turn.acts == [])
  {
    hide ValidOn, IdempotentOn, ChangesetId, LinesOk, ReconcileTurn, Accepted, FoundDone, FoundReady, LastState,
         EntriesOf;
    AcceptedIsValid(k, root, c, w.tree);
    DoneIsAccepted(k, root, c, w.tree);
    ReconcileCases(k, root, w, c, writing);
    var id, turn := ChangesetId(k, c), ReconcileTurn(k, root, w, c, writing);
    AfterOne(w, id, turn, Applied);
    AfterOne(w, id, turn, Reconciled);
  }

  lemma DoneIsAccepted(k: Codecs, root: string, c: ChangeSet, tree: Tree)
    requires forall o | o in c.operations :: LinesOk(o)
    ensures FoundDone(k, root, c, tree) || FoundReady(k, root, c, tree) ==> Accepted(k, root, c, tree)
  {
    hide PerformAll, LinesOk;
  }

  /** A turn that logs one event of the changeset, or nothing, ends in that event's state, or the state before. */
  lemma AfterOne(w: World, id: string, turn: Turn, s: JournalState)
    ensures turn.acts == [] ==> After(w, turn).log == w.log
    ensures turn.acts == [Logged(id, s)] ==> LastState(After(w, turn).log, id) == Some(s)
  {
    hide LastState;
    EntriesOfNothing();
    assert w.log + [] == w.log;
    EntriesSnoc([], Logged(id, s));
    assert [] + [Logged(id, s)] == [Logged(id, s)] && [] + [Entry(id, s)] == [Entry(id, s)];
    LastStateOfAppend(w.log, id, [Entry(id, s)]);
  }

  /** A changeset that is not locked is left alone. */
  lemma UnlockedIsLeftAlone(k: Codecs, root: string, w: World, c: ChangeSet, writing: Writing)
    requires forall o | o in c.operations :: LinesOk(o)
    requires !IsLocked(w, ChangesetId(k, c))
    ensures var turn := ReconcileTurn(k, root, w, c, writing);
            && turn.acts == [] && turn.tree == w.tree
            && (turn.verdict == ReconciledBefore <==> LastState(w.log, ChangesetId(k, c)) == Some(Reconciled))
            && (turn.verdict == NothingToReconcile <==> LastState(w.log, ChangesetId(k, c)) != Some(Reconciled))
  {
    hide ValidOn, IdempotentOn, ChangesetId, LastState, LinesOk;
  }

  // ---------- What unlocks in a run ----------

  lemma OfTurn(w: World, turn: Turn, id: string)
    ensures Of(After(w, turn).history, id) == Of(w.history, id) + Of(turn.acts, id)
  {
    OfConcat(w.history, turn.acts, id);
  }

  /** The command that an action of a run belongs to. */
  lemma {:induction false} OriginOf(k: Codecs, root: string, tree: Tree, commands: seq<Command>, id: string, p: nat)
    returns (m: nat)
    requires forall cmd | cmd in commands :: Runnable(cmd)
    requires p < |Of(Run(k, root, tree, commands).history, id)|
    ensures m < |commands| && Runnable(commands[m]) && forall cmd | cmd in commands[..m] :: Runnable(cmd)
    ensures var w := Run(k, root, tree, commands[..m]);
            var mine := Of(TurnOf(k, root, w, commands[m]).acts, id);
            var all, before := Of(Run(k, root, tree, commands).history, id), Of(w.history, id);
            && |before| <= p < |before| + |mine| && before + mine <= all && all[p] == mine[p - |before|]
  {
    hide Of, TurnOf, Runnable, After;
    if commands == [] {
      EmptyRun(k, root, tree, id);
      assert false;
    } else {
      var front, last := commands[..|commands| - 1], commands[|commands| - 1];
      assert commands == front + [last] && last in commands && forall cmd | cmd in front :: cmd in commands;
      RunStep(k, root, tree, front, last);
      var w := Run(k, root, tree, front);
      OfTurn(w, TurnOf(k, root, w, last), id);
      if p < |Of(w.history, id)| {
        m := OriginOf(k, root, tree, front, id, p);
        assert commands[..m] == front[..m] && commands[m] == front[m];
      } else {
        m := |front|;
        assert commands[..m] == front;
      }
    }
  }

  lemma EmptyRun(k: Codecs, root: string, tree: Tree, id: string)
    ensures Of(Run(k, root, tree, []).history, id) == []
  {
  }

  lemma {:induction false} OfIn(acts: seq<Action>, id: string, a: Action)
    ensures a in Of(acts, id) <==> a in acts && a.id == id
  {
    hide Of;
    if acts == [] {
      OfNothing(id);
    } else {
      var front, last := acts[..|acts| - 1], acts[|acts| - 1];
      assert acts == front + [last];
      OfIn(front, id, a);
      OfSnoc(front, last, id);
    }
  }

  lemma ApplyNeverReconciles(k: Codecs, root: string, w: World, c: ChangeSet, writing: Writing, report: AdapterReport,
                             treeAfter: Tree, id: string)
    requires forall o | o in c.operations :: LinesOk(o)
    ensures Logged(id, Reconciled) !in ApplyTurn(k, root, w, c, writing, report, treeAfter).acts
  {
    hide ValidOn, IdempotentOn, ChangesetId, LastState, LinesOk, Writable;
  }

  /** Only a reconciliation on a tree that the operations accept, with one still to do, logs reconciled. */
  lemma OnlyAcceptedReconciles(k: Codecs, root: string, w: World, cmd: Command, id: string)
    requires Runnable(cmd) && Logged(id, Reconciled) in TurnOf(k, root, w, cmd).acts
    ensures cmd.Reconcile? && ChangesetId(k, cmd.c) == id && IsLocked(w, id)
    ensures TurnOf(k, root, w, cmd).acts == [Logged(id, Reconciled)] && FoundReady(k, root, cmd.c, w.tree)
  {
    hide ApplyTurn, ReconcileTurn, FoundReady, FoundDone, Accepted, ChangesetId, LastState, LinesOk;
    match cmd
    case Apply(c, writing, report, treeAfter) =>
      ApplyNeverReconciles(k, root, w, c, writing, report, treeAfter, id);
    case Reconcile(c, writing) =>
      if IsLocked(w, ChangesetId(k, c)) {
        ReconcileIff(k, root, w, c, writing);
      } else {
        UnlockedIsLeftAlone(k, root, w, c, writing);
      }
    case Edit(_) =>
  }

  /**
   Safety of the lock, in every run: when the adapter is called for a changeset after one of its unknown events, then
   the command behind that event was a reconciliation, the changeset was locked when it came, and the tree was then
   one on which the operations could be performed, with one still to do.
   */
  lemma UnlockedOnlyByAcceptance(k: Codecs, root: string, tree: Tree, commands: seq<Command>, id: string, i: nat,
                                 j: nat)
    returns (m: nat)
    requires forall cmd | cmd in commands :: Runnable(cmd)
    requires var acts := Of(Run(k, root, tree, commands).history, id);
             i < j < |acts| && acts[i] == Logged(id, Unknown) && acts[j].Called?
    ensures m < |commands| && Runnable(commands[m]) && forall cmd | cmd in commands[..m] :: Runnable(cmd)
    ensures var w := Run(k, root, tree, commands[..m]);
            && commands[m].Reconcile? && ChangesetId(k, commands[m].c) == id
            && Of(w.history, id) == Of(Run(k, root, tree, commands).history, id)[..i + 1] && IsLocked(w, id)
            && FoundReady(k, root, commands[m].c, w.tree)
  {
    hide Of, TurnOf, Run, ChangesetId, FoundReady, LastState;
    UnknownLocks(k, root, tree, commands, id, i, j);
    m := OriginOf(k, root, tree, commands, id, i + 1);
    var w := Run(k, root, tree, commands[..m]);
    var acts := TurnOf(k, root, w, commands[m]).acts;
    OfIn(acts, id, Logged(id, Reconciled));
    OnlyAcceptedReconciles(k, root, w, commands[m], id);
    OfOneAct(id, Logged(id, Reconciled));
  }

  lemma OfOneAct(id: string, a: Action)
    requires a.id == id
    ensures Of([a], id) == [a]
  {
    hide Of;
    OfNothing(id);
    OfSnoc([], a, id);
    assert [] + [a] == [a];
  }

  // ---------- A lock in a run is always undecided ----------

  /** While the changeset is locked neither outcome is recorded. */
  predicate Undecided(log: seq<Entry>, id: string) {
    && (LastState(log, id) == Some(Unknown) ==> Entry(id, Applied) !in log && Entry(id, Reconciled) !in log)
    && (Entry(id, Reconciled) in log ==> Entry(id, Unknown) in log)
    && (Entry(id, Applied) in log ==> LastState(log, id) == Some(Applied))
  }

  /** The event may follow: it is new, nothing follows applied, and reconciled follows the lock. */
  predicate MayBeNext(log: seq<Entry>, e: Entry) {
    && e !in log && LastState(log, e.id) != Some(Applied)
    && (LastState(log, e.id) == Some(Unknown) ==> e.state in {Applied, Reconciled})
    && (e.state == Reconciled ==> LastState(log, e.id) == Some(Unknown))
  }

  lemma UndecidedMore(log: seq<Entry>, e: Entry, id: string)
    requires Undecided(log, id) && (e.id == id ==> MayBeNext(log, e))
    ensures Undecided(log + [e], id)
  {
    hide LastState;
    LastStateSnoc(log, e, id);
    LastStateFrom(log, id);
  }

  function NewEntry(w: World, id: string, s: JournalState): seq<Entry> {
    if Entry(id, s) in w.log then [] else [Entry(id, s)]
  }

  /** The events an attempt adds: none when the changeset is settled or locked; sealed, then perhaps an outcome. */
  lemma ApplyEntries(k: Codecs, root: string, w: World, c: ChangeSet, writing: Writing, report: AdapterReport,
                     treeAfter: Tree) returns (opening: seq<Entry>, outcome: seq<Entry>, s: JournalState)
    requires forall o | o in c.operations :: LinesOk(o)
    ensures EntriesOf(ApplyTurn(k, root, w, c, writing, report, treeAfter).acts) == opening + outcome
    ensures s in {Unknown, Applied, AlreadyDone, Rejected}
    ensures opening in {[], NewEntry(w, ChangesetId(k, c), Sealed)}
    ensures outcome in {[], NewEntry(w, ChangesetId(k, c), s)}
    ensures LastState(w.log, ChangesetId(k, c)) in {Some(Applied), Some(AlreadyDone), Some(Unknown)} ==>
              opening == [] && outcome == []
  {
    hide ValidOn, IdempotentOn, ChangesetId, LastState, LinesOk, EntriesOf, LogAct;
    var id, acts := ChangesetId(k, c), ApplyTurn(k, root, w, c, writing, report, treeAfter).acts;
    var sealing := LogAct(w, id, Sealed);
    s := OutcomeOf(k, root, w, c, writing, report, treeAfter);
    opening, outcome := EntriesOf(sealing), EntriesOf(LogAct(w, id, s));
    EntriesOfLogAct(w, id, Sealed);
    EntriesOfLogAct(w, id, s);
    EntriesOfNothing();
    EntriesOfCall(id);
    EntriesConcat(sealing, LogAct(w, id, s));
    EntriesConcat(sealing, [Called(id)]);
    EntriesConcat(sealing + [Called(id)], LogAct(w, id, s));
    assert [] + LogAct(w, id, s) == LogAct(w, id, s);
    assert opening + [] == opening && [] + outcome == outcome;
    if acts == [] {
      opening, outcome := [], [];
    } else if acts == LogAct(w, id, s) {
      opening := [];
    } else if acts == sealing || acts == sealing + [Called(id)] {
      outcome := [];
    }
  }

  /** The outcome that the attempt records, if it records one. */
  lemma OutcomeOf(k: Codecs, root: string, w: World, c: ChangeSet, writing: Writing, report: AdapterReport,
                  treeAfter: Tree) returns (s: JournalState)
    requires forall o | o in c.operations :: LinesOk(o)
    ensures s in {Unknown, Applied, AlreadyDone, Rejected}
    ensures var id, acts := ChangesetId(k, c), ApplyTurn(k, root, w, c, writing, report, treeAfter).acts;
            var sealing := LogAct(w, id, Sealed);
            && (acts == [] || acts == LogAct(w, id, s) || acts == [] + LogAct(w, id, s) || acts == sealing
                || acts == sealing + LogAct(w, id, s) || acts == sealing + [Called(id)]
                || acts == sealing + [Called(id)] + LogAct(w, id, s))
            && (LastState(w.log, id) in {Some(Applied), Some(AlreadyDone), Some(Unknown)} ==> acts == [])
  {
    hide ChangesetId, LastState, LinesOk, LogAct, Validate, Simulate, AllIdempotent;
    s := if !ValidOn(k, root, c, w.tree) || !writing.authorized then Rejected
         else if IdempotentOn(k, root, c, w.tree) then AlreadyDone
         else if report == UnknownEffect then Unknown
         else if report == Refused || !ValidOn(k, root, c, treeAfter) then Rejected
         else Applied;
  }

  lemma UndecidedAfterApply(k: Codecs, root: string, w: World, c: ChangeSet, writing: Writing, report: AdapterReport,
                            treeAfter: Tree, id: string)
    requires (forall o | o in c.operations :: LinesOk(o)) && Undecided(w.log, id)
    ensures Undecided(w.log + EntriesOf(ApplyTurn(k, root, w, c, writing, report, treeAfter).acts), id)
  {
    hide ChangesetId, LastState, LinesOk, EntriesOf, ApplyTurn, Undecided;
    var mine := ChangesetId(k, c);
    var opening, outcome, s := ApplyEntries(k, root, w, c, writing, report, treeAfter);
    assert w.log + [] == w.log && w.log + (opening + outcome) == w.log + opening + outcome;
    assert w.log + opening + [] == w.log + opening;
    if opening != [] {
      UndecidedMore(w.log, Entry(mine, Sealed), id);
      LastStateSnoc(w.log, Entry(mine, Sealed), mine);
    }
    if outcome != [] {
      UndecidedMore(w.log + opening, Entry(mine, s), id);
    }
  }

  lemma UndecidedAfterReconcile(k: Codecs, root: string, w: World, c: ChangeSet, writing: Writing, id: string)
    requires (forall o | o in c.operations :: LinesOk(o)) && Undecided(w.log, id)
    ensures Undecided(w.log + EntriesOf(ReconcileTurn(k, root, w, c, writing).acts), id)
  {
    hide ChangesetId, LinesOk, EntriesOf, ReconcileTurn, Undecided, FoundDone, FoundReady, Accepted, LastState;
    var mine, acts := ChangesetId(k, c), ReconcileTurn(k, root, w, c, writing).acts;
    if IsLocked(w, mine) {
      ReconcileIff(k, root, w, c, writing);
    } else {
      UnlockedIsLeftAlone(k, root, w, c, writing);
    }
    EntriesOfNothing();
    assert w.log + [] == w.log;
    if acts != [] {
      var a := acts[0];
      assert a in acts && acts == [] + [a] && [] + [Entry(a.id, a.state)] == [Entry(a.id, a.state)];
      EntriesSnoc([], a);
      UndecidedMore(w.log, Entry(a.id, a.state), id);
    }
  }

  lemma {:induction false} RunUndecided(k: Codecs, root: string, tree: Tree, commands: seq<Command>, id: string)
    requires forall cmd | cmd in commands :: Runnable(cmd)
    ensures Undecided(Run(k, root, tree, commands).log, id)
  {
    hide Run, ApplyTurn, ReconcileTurn, Undecided, LastState, ChangesetId;
    if commands == [] {
      EmptyUndecided(k, root, tree, id);
    } else {
      var front, last := commands[..|commands| - 1], commands[|commands| - 1];
      assert commands == front + [last] && last in commands && forall cmd | cmd in front :: cmd in commands;
      RunUndecided(k, root, tree, front, id);
      RunStep(k, root, tree, front, last);
      var w := Run(k, root, tree, front);
      match last {
        case Apply(c, writing, report, treeAfter) =>
          UndecidedAfterApply(k, root, w, c, writing, report, treeAfter, id);
        case Reconcile(c, writing) =>
          UndecidedAfterReconcile(k, root, w, c, writing, id);
        case Edit(_) =>
          EntriesOfNothing();
          assert w.log + [] == w.log;
      }
    }
  }

  lemma EmptyUndecided(k: Codecs, root: string, tree: Tree, id: string)
    ensures Undecided(Run(k, root, tree, []).log, id)
  {
  }

  /**
   So in every run a reconciliation that has the authority and can write its event ends the lock if and only if the
   operations can be performed on the tree: with applied when they are all done, and with reconciled otherwise.
   */
  lemma ReconcileInRun(k: Codecs, root: string, tree: Tree, commands: seq<Command>, c: ChangeSet)
    requires (forall cmd | cmd in commands :: Runnable(cmd)) && forall o | o in c.operations :: LinesOk(o)
    requires IsLocked(Run(k, root, tree, commands), ChangesetId(k, c))
    ensures var id, w := ChangesetId(k, c), Run(k, root, tree, commands);
            var turn := ReconcileTurn(k, root, w, c, Writing(true, {}));
            && (turn.acts == [Logged(id, Applied)] <==> FoundDone(k, root, c, w.tree))
            && (turn.acts == [Logged(id, Reconciled)] <==> FoundReady(k, root, c, w.tree))
            && (turn.acts == [] <==> !Accepted(k, root, c, w.tree))
            && (IsLocked(After(w, turn), id) <==> !Accepted(k, root, c, w.tree))
  {
    hide Run, ChangesetId, LinesOk, ReconcileTurn, Accepted, FoundDone, FoundReady, After, Runnable;
    var w := Run(k, root, tree, commands);
    RunUndecided(k, root, tree, commands, ChangesetId(k, c));
    ReconcileIff(k, root, w, c, Writing(true, {}));
    DoneIsAccepted(k, root, c, w.tree);
    AcceptedIsValid(k, root, c, w.tree);
    assert Logged(ChangesetId(k, c), Applied) in [Logged(ChangesetId(k, c), Applied)];
    assert Logged(ChangesetId(k, c), Reconciled) in [Logged(ChangesetId(k, c), Reconciled)];
  }
}
