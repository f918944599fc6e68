/**
 Runs of `materialize` and `reconcile_unknown_effect` with crashes between the commands: a crash tears events
 off the end of the journal, and recovery goes on from those whose frames survived.
 */
module MaterializeCrash {
  import opened ChangeSet
  import opened ChangeSetValidate
  import opened Journal
  import opened Materialize
  import opened Wrappers

  // ---------- Runs with crashes ----------

  /** What happened: an action, or a crash that only `kept` events of the journal survived. */
  datatype Mark = Did(action: Action) | Torn(kept: nat)

  datatype Trace = Trace(world: World, marks: seq<Mark>)

  datatype Incident = Commanded(command: Command) | Crash(kept: nat)

  function Marks(acts: seq<Action>): (marks: seq<Mark>)
    ensures |marks| == |acts|
    ensures forall i {:trigger marks[i]} | 0 <= i < |acts| :: marks[i] == Did(acts[i])
  {
    if acts == [] then [] else Marks(acts[..|acts| - 1]) + [Did(acts[|acts| - 1])]
  }

  function Keep(log: seq<Entry>, n: nat): seq<Entry> {
    if n <= |log| then log[..n] else log
  }

  predicate Happens(i: Incident) {
    i.Commanded? ==> Runnable(i.command)
  }

  function Happen(k: Codecs, root: string, t: Trace, i: Incident): Trace
    requires Happens(i)
  {
    match i
    case Commanded(command) =>
      var turn := TurnOf(k, root, t.world, command);
      Trace(After(t.world, turn), t.marks + Marks(turn.acts))
    case Crash(n) => Trace(t.world.(log := Keep(t.world.log, n)), t.marks + [Torn(n)])
  }

  function Live(k: Codecs, root: string, tree: Tree, incidents: seq<Incident>): Trace
    requires forall i | i in incidents :: Happens(i)
  {
    if incidents == [] then Trace(World(tree, [], []), [])
    else
      var n := |incidents| - 1;
      assert forall i | i in incidents[..n] :: i in incidents;
      Happen(k, root, Live(k, root, tree, incidents[..n]), incidents[n])
  }

  /** The journal after one more mark. */
  function Marked(log: seq<Entry>, m: Mark): seq<Entry> {
    if m.Torn? then Keep(log, m.kept)
    else if m.action.Logged? then log + [Entry(m.action.id, m.action.state)]
    else log
  }

  /** The journal that the marks lead to. */
  function LogAfter(marks: seq<Mark>): seq<Entry> {
    if marks == [] then [] else Marked(LogAfter(marks[..|marks| - 1]), marks[|marks| - 1])
  }

  // ---------- The invariant ----------

  /** What the journal allows: nothing after a terminal event, only a reconciliation after an unknown one. */
  predicate Allowed(log: seq<Entry>, a: Action) {
    var previous := LastState(log, a.id);
    previous.Some? ==>
      !Terminal(previous.value)
      && (previous.value == Unknown ==> a.Logged? && (a.state == Applied || a.state == Reconciled))
  }

  /** Every action was allowed by the journal of its time. */
  ghost predicate Legal(marks: seq<Mark>) {
    forall j {:trigger marks[j]} | 0 <= j < |marks| && marks[j].Did? :: Allowed(LogAfter(marks[..j]), marks[j].action)
  }

  ghost predicate TraceInv(t: Trace) {
    t.world.log == LogAfter(t.marks) && Legal(t.marks)
  }

  lemma LogSnoc(marks: seq<Mark>, m: Mark)
    ensures LogAfter(marks + [m]) == Marked(LogAfter(marks), m)
  {
    hide Marked;
    assert (marks + [m])[..|marks|] == marks;
  }

  lemma LegalSnoc(marks: seq<Mark>, m: Mark)
    requires Legal(marks) && (m.Did? ==> Allowed(LogAfter(marks), m.action))
    ensures Legal(marks + [m])
  {
    hide Allowed, LogAfter;
    var all := marks + [m];
    forall j {:trigger all[j]} | 0 <= j < |all| && all[j].Did? ensures Allowed(LogAfter(all[..j]), all[j].action) {
      if j < |marks| {
        assert all[..j] == marks[..j] && all[j] == marks[j];
      } else {
        assert all[..j] == marks;
      }
    }
  }

  lemma {:induction false} OpeningsState(log: seq<Entry>, id: string, acts: seq<Action>)
    requires forall a | a in acts :: a.id == id && Opening(a)
    ensures LastState(log + EntriesOf(acts), id) == LastState(log, id)
            || LastState(log + EntriesOf(acts), id) == Some(Sealed)
  {
    if acts == [] {
      assert log + [] == log;
    } else {
      var front, last := acts[..|acts| - 1], acts[|acts| - 1];
      assert acts == front + [last];
      OpeningsState(log, id, front);
      if last.Logged? {
        LastStateOfAppend(log, id, EntriesOf(acts));
      } else {
        assert EntriesOf(acts) == EntriesOf(front);
      }
    }
  }

  /** The next action of a turn is allowed after those before it. */
  lemma NextAllowed(w: World, id: string, acts: seq<Action>, n: nat)
    requires GoodTurn(w, id, acts) && n < |acts|
    ensures Allowed(w.log + EntriesOf(acts[..n]), acts[n])
  {
    hide LastState, EntriesOf;
    var before := acts[..n];
    assert acts[n].id == id;
    if n == 0 {
      EntriesOfNothing();
      assert before == [] && w.log + [] == w.log;
    } else {
      assert Opening(acts[0]) && before[0] == acts[0];
      forall a | a in before ensures a.id == id && Opening(a) {
        var i :| 0 <= i < n && acts[i] == a;
      }
      OpeningsState(w.log, id, before);
    }
  }

  lemma {:induction false} TurnLegal(t: Trace, id: string, acts: seq<Action>, n: nat)
    requires TraceInv(t) && GoodTurn(t.world, id, acts) && n <= |acts|
    ensures Legal(t.marks + Marks(acts[..n]))
    ensures LogAfter(t.marks + Marks(acts[..n])) == t.world.log + EntriesOf(acts[..n])
  {
    hide *;
    if n == 0 {
      NothingMarked(t, acts);
    } else {
      TurnLegal(t, id, acts, n - 1);
      NextAllowed(t.world, id, acts, n - 1);
      EntriesMarked(t.world.log, acts, n - 1);
      MarksSnoc(t.marks, acts, n - 1);
      LegalSnoc(t.marks + Marks(acts[..n - 1]), Did(acts[n - 1]));
      LogSnoc(t.marks + Marks(acts[..n - 1]), Did(acts[n - 1]));
    }
  }

  lemma NothingMarked(t: Trace, acts: seq<Action>)
    requires TraceInv(t)
    ensures Legal(t.marks + Marks(acts[..0]))
    ensures LogAfter(t.marks + Marks(acts[..0])) == t.world.log + EntriesOf(acts[..0])
  {
    hide Legal;
    EntriesOfNothing();
    assert acts[..0] == [] && t.marks + [] == t.marks && t.world.log + [] == t.world.log;
  }

  lemma MarksSnoc(marks: seq<Mark>, acts: seq<Action>, n: nat)
    requires n < |acts|
    ensures marks + Marks(acts[..n + 1]) == marks + Marks(acts[..n]) + [Did(acts[n])]
  {
    assert acts[..n + 1][..n] == acts[..n];
  }

  lemma EntriesMarked(log: seq<Entry>, acts: seq<Action>, n: nat)
    requires n < |acts|
    ensures log + EntriesOf(acts[..n + 1]) == Marked(log + EntriesOf(acts[..n]), Did(acts[n]))
  {
    assert acts[..n + 1][..n] == acts[..n];
    var a := acts[n];
    assert EntriesOf(acts[..n + 1]) == EntriesOf(acts[..n]) + if a.Logged? then [Entry(a.id, a.state)] else [];
  }

  lemma TurnOfIsGood(k: Codecs, root: string, w: World, command: Command) returns (id: string)
    requires Runnable(command)
    ensures GoodTurn(w, id, TurnOf(k, root, w, command).acts)
  {
    hide GoodTurn, ApplyTurn, ReconcileTurn, ChangesetId;
    match command
    case Apply(c, writing, report, treeAfter) =>
      ApplyGood(k, root, w, c, writing, report, treeAfter);
      id := ChangesetId(k, c);
    case Reconcile(c, writing) =>
      ReconcileGood(k, root, w, c, writing);
      id := ChangesetId(k, c);
    case Edit(tree) =>
      NoActs(w, tree);
      id := "";
  }

  /** Every run with crashes keeps the journal equal to what its marks say, and every action allowed at its time. */
  lemma {:induction false} LiveInv(k: Codecs, root: string, tree: Tree, incidents: seq<Incident>)
    requires forall i | i in incidents :: Happens(i)
    ensures TraceInv(Live(k, root, tree, incidents))
  {
    hide TurnOf, Runnable, Legal, Happens;
    if incidents == [] {
      NoMarks();
    } else {
      var n := |incidents| - 1;
      assert forall i | i in incidents[..n] :: i in incidents;
      LiveInv(k, root, tree, incidents[..n]);
      assert incidents[n] in incidents;
      HappenKeepsInv(k, root, Live(k, root, tree, incidents[..n]), incidents[n]);
    }
  }

  lemma NoMarks()
    ensures Legal([]) && LogAfter([]) == []
  {
  }

  lemma HappenKeepsInv(k: Codecs, root: string, t: Trace, i: Incident)
    requires TraceInv(t) && Happens(i)
    ensures TraceInv(Happen(k, root, t, i))
  {
    hide TurnOf, Legal, GoodTurn, EntriesOf, Runnable;
    match i
    case Commanded(command) =>
      var id := TurnOfIsGood(k, root, t.world, command);
      var acts := TurnOf(k, root, t.world, command).acts;
      TurnLegal(t, id, acts, |acts|);
      assert acts[..|acts|] == acts;
    case Crash(n) =>
      LegalSnoc(t.marks, Torn(n));
      LogSnoc(t.marks, Torn(n));
  }

  // ---------- Terminal events and locks, unless their frame is lost ----------

  /** The last entry of a changeset decides its state. */
  lemma {:induction false} LastStateAt(log: seq<Entry>, id: string, p: nat)
    requires p < |log| && log[p].id == id && forall q | p < q < |log| :: log[q].id != id
    ensures LastState(log, id) == Some(log[p].state)
  {
    if p < |log| - 1 {
      assert log[|log| - 1].id != id;
      LastStateAt(log[..|log| - 1], id, p);
    }
  }

  predicate Concerns(m: Mark, id: string) {
    m.Did? && m.action.id == id
  }

  /** Position `p` of the log still holds the changeset's event, as its last one. */
  ghost predicate StillLast(log: seq<Entry>, p: nat, e: Entry) {
    p < |log| && log[p] == e && forall q | p < q < |log| :: log[q].id != e.id
  }

  /** While no mark concerns the changeset and every crash spares its last event, that event stays the last one. */
  lemma {:induction false} SparedStays(marks: seq<Mark>, p: nat, e: Entry, i: nat, j: nat)
    requires i <= j <= |marks| && StillLast(LogAfter(marks[..i]), p, e)
    requires forall c {:trigger marks[c]} | i <= c < j ::
      !Concerns(marks[c], e.id) && (marks[c].Torn? ==> p < marks[c].kept)
    ensures StillLast(LogAfter(marks[..j]), p, e)
    decreases j
  {
    hide LogAfter;
    if i < j {
      SparedStays(marks, p, e, i, j - 1);
      assert marks[..j] == marks[..j - 1] + [marks[j - 1]];
      LogSnoc(marks[..j - 1], marks[j - 1]);
    }
  }

  /** The number of events that survive has to exceed the event's position for its frame to survive. */
  predicate Loses(m: Mark, position: nat) {
    m.Torn? && m.kept <= position
  }

  /** An event that nothing concerning its changeset followed, and that no crash lost, is its changeset's state. */
  lemma SparedIsState(marks: seq<Mark>, id: string, s: JournalState, i: nat, j: nat)
    requires i < j <= |marks| && marks[i] == Did(Logged(id, s))
    requires forall c {:trigger marks[c]} | i < c < j ::
      !Concerns(marks[c], id) && !Loses(marks[c], |LogAfter(marks[..i])|)
    ensures LastState(LogAfter(marks[..j]), id) == Some(s)
  {
    hide LogAfter;
    var p := |LogAfter(marks[..i])|;
    assert marks[..i + 1] == marks[..i] + [marks[i]];
    LogSnoc(marks[..i], marks[i]);
    SparedStays(marks, p, Entry(id, s), i + 1, j);
    LastStateAt(LogAfter(marks[..j]), id, p);
  }

  /**
   In every legal history, between a terminal event and any later action of its changeset lies a crash that the
   event's frame did not survive.
   */
  lemma {:induction false} FollowedOnlyIfLost(marks: seq<Mark>, id: string, s: JournalState, i: nat, j: nat)
    returns (c: nat)
    requires Legal(marks) && i < j < |marks| && marks[i] == Did(Logged(id, s)) && Terminal(s) && Concerns(marks[j], id)
    ensures i < c < j && Loses(marks[c], |LogAfter(marks[..i])|)
    decreases j
  {
    hide LogAfter, LastState;
    if d :| i < d < j && Concerns(marks[d], id) {
      c := FollowedOnlyIfLost(marks, id, s, i, d);
    } else if d :| i < d < j && Loses(marks[d], |LogAfter(marks[..i])|) {
      c := d;
    } else {
      SparedIsState(marks, id, s, i, j);
      assert false;
    }
  }

  predicate Reconciles(m: Mark, id: string) {
    m == Did(Logged(id, Applied)) || m == Did(Logged(id, Reconciled))
  }

  /**
   In every legal history, between an unknown event and any later action of its changeset but its reconciliation
   lies that reconciliation, or a crash that the event's frame did not survive.
   */
  lemma {:induction false} UnlockedOnlyIf(marks: seq<Mark>, id: string, i: nat, j: nat) returns (c: nat)
    requires Legal(marks) && i < j < |marks| && marks[i] == Did(Logged(id, Unknown))
    requires Concerns(marks[j], id) && !Reconciles(marks[j], id)
    ensures i < c < j && (Loses(marks[c], |LogAfter(marks[..i])|) || Reconciles(marks[c], id))
    decreases j
  {
    hide LogAfter, LastState;
    if d :| i < d < j && Concerns(marks[d], id) {
      if Reconciles(marks[d], id) {
        c := d;
      } else {
        c := UnlockedOnlyIf(marks, id, i, d);
      }
    } else if d :| i < d < j && Loses(marks[d], |LogAfter(marks[..i])|) {
      c := d;
    } else {
      SparedIsState(marks, id, Unknown, i, j);
      assert false;
    }
  }

  /** In every run with crashes a terminal event is its changeset's last action, unless a crash lost its frame. */
  lemma TerminalUnlessLost(k: Codecs, root: string, tree: Tree, incidents: seq<Incident>, id: string, s: JournalState,
                           i: nat, j: nat) returns (c: nat)
    requires forall x | x in incidents :: Happens(x)
    requires var marks := Live(k, root, tree, incidents).marks;
             i < j < |marks| && marks[i] == Did(Logged(id, s)) && Terminal(s) && Concerns(marks[j], id)
    ensures var marks := Live(k, root, tree, incidents).marks;
            i < c < j && Loses(marks[c], |LogAfter(marks[..i])|)
  {
    hide Live, Legal, LogAfter, Happens;
    LiveInv(k, root, tree, incidents);
    c := FollowedOnlyIfLost(Live(k, root, tree, incidents).marks, id, s, i, j);
  }

  /** In every run with crashes no adapter call follows an unknown event before its reconciliation or its loss. */
  lemma LockedUnlessLost(k: Codecs, root: string, tree: Tree, incidents: seq<Incident>, id: string, i: nat, j: nat)
    returns (c: nat)
    requires forall x | x in incidents :: Happens(x)
    requires var marks := Live(k, root, tree, incidents).marks;
             i < j < |marks| && marks[i] == Did(Logged(id, Unknown)) && marks[j] == Did(Called(id))
    ensures var marks := Live(k, root, tree, incidents).marks;
            i < c < j && (Loses(marks[c], |LogAfter(marks[..i])|) || Reconciles(marks[c], id))
  {
    hide Live, Legal, LogAfter, Happens;
    LiveInv(k, root, tree, incidents);
    c := UnlockedOnlyIf(Live(k, root, tree, incidents).marks, id, i, j);
  }

  // ---------- Exactly when a crash reopens a changeset ----------

  lemma {:induction false} LastStateSkips(log: seq<Entry>, more: seq<Entry>, id: string)
    requires forall e | e in more :: e.id != id
    ensures LastState(log + more, id) == LastState(log, id)
  {
    if more == [] {
      assert log + more == log;
    } else {
      var n := |more| - 1;
      assert more[n] in more;
      LastStateSkips(log, more[..n], id);
      assert (log + more)[..|log + more| - 1] == log + more[..n];
    }
  }

  /**
   A terminal or unknown event was recorded for a changeset, other changesets went on, and only `n` events survive
   a crash. The next attempt then calls the adapter if and only if that event's frame was lost and what survives
   before it does not lock.
   */
  lemma CrashReopensIff(k: Codecs, root: string, w: World, c: ChangeSet, before: seq<Entry>, s: JournalState,
                        others: seq<Entry>, n: nat, treeAfter: Tree)
    requires forall o | o in c.operations :: LinesOk(o)
    requires ValidOn(k, root, c, w.tree) && !IdempotentOn(k, root, c, w.tree)
    requires Terminal(s) || s == Unknown
    requires var id := ChangesetId(k, c);
             && w.log == before + [Entry(id, s)] + others && n <= |w.log|
             && (forall e | e in before :: e.id == id ==> !Terminal(e.state)) && (forall e | e in others :: e.id != id)
    ensures var id := ChangesetId(k, c);
            var turn := ApplyTurn(k, root, w.(log := w.log[..n]), c, Writing(true, {}), Returned, treeAfter);
            Called(id) in turn.acts <==> n <= |before| && LastState(before[..n], id) != Some(Unknown)
  {
    hide ValidOn, IdempotentOn, LinesOk, ChangesetId, LastState;
    var id, kept := ChangesetId(k, c), w.log[..n];
    if n > |before| {
      var rest := others[..n - |before| - 1];
      assert kept == (before + [Entry(id, s)]) + rest;
      LastStateSkips(before + [Entry(id, s)], rest, id);
      LastStateOfAppend(before, id, [Entry(id, s)]);
    } else {
      assert kept == before[..n];
      LastStateFrom(kept, id);
      assert forall e | e in kept :: e in before;
    }
    CalledIffOpen(k, root, w.(log := kept), c, treeAfter);
  }

  /**
   The lock of a changeset's first unknown event: after a crash the next attempt calls the adapter, although the
   effect was never reconciled, if and only if the event's frame was lost.
   */
  lemma CrashUnlocksIff(k: Codecs, root: string, w: World, c: ChangeSet, before: seq<Entry>, others: seq<Entry>, n: nat,
                        treeAfter: Tree)
    requires forall o | o in c.operations :: LinesOk(o)
    requires ValidOn(k, root, c, w.tree) && !IdempotentOn(k, root, c, w.tree)
    requires var id := ChangesetId(k, c);
             && w.log == before + [Entry(id, Unknown)] + others && n <= |w.log|
             && (forall e | e in before :: e.id == id ==> !Terminal(e.state) && e.state != Unknown)
             && (forall e | e in others :: e.id != id)
    ensures var turn := ApplyTurn(k, root, w.(log := w.log[..n]), c, Writing(true, {}), Returned, treeAfter);
            Called(ChangesetId(k, c)) in turn.acts <==> n <= |before|
  {
    hide ValidOn, IdempotentOn, LinesOk, ChangesetId, LastState, ApplyTurn;
    var id := ChangesetId(k, c);
    CrashReopensIff(k, root, w, c, before, Unknown, others, n, treeAfter);
    if n <= |before| {
      LastStateFrom(before[..n], id);
      assert forall e | e in before[..n] :: e in before;
    }
  }

  /**
   A lock that a crash opens: the first attempt's effect is unknown, only its sealed event survives the crash, and
   the next attempt calls the adapter again.
   */
  lemma CrashUnlocks(k: Codecs, root: string, tree: Tree, c: ChangeSet)
    requires forall o | o in c.operations :: LinesOk(o)
    requires ValidOn(k, root, c, tree) && !IdempotentOn(k, root, c, tree)
    ensures var id, attempt := ChangesetId(k, c), Apply(c, Writing(true, {}), UnknownEffect, tree);
            var t := Live(k, root, tree, [Commanded(attempt), Crash(1)]);
            && Did(Logged(id, Unknown)) in t.marks && t.marks[|t.marks| - 1] == Torn(1)
            && Called(id) in ApplyTurn(k, root, t.world, c, Writing(true, {}), Returned, tree).acts
  {
    hide ValidOn, IdempotentOn, LinesOk, ChangesetId, LastState, ApplyTurn, Live, Marks, EntriesOf;
    var id, attempt := ChangesetId(k, c), Apply(c, Writing(true, {}), UnknownEffect, tree);
    LiveStep(k, root, tree, [], Commanded(attempt));
    LiveStep(k, root, tree, [Commanded(attempt)], Crash(1));
    assert [] + [Commanded(attempt)] == [Commanded(attempt)];
    assert [Commanded(attempt)] + [Crash(1)] == [Commanded(attempt), Crash(1)];
    FirstAttempt(k, root, tree, c);
    var one, t := Live(k, root, tree, [Commanded(attempt)]), Live(k, root, tree, [Commanded(attempt), Crash(1)]);
    assert one.world.log == [Entry(id, Sealed)] + [Entry(id, Unknown)] + [];
    assert one.marks == [] + Marks([Logged(id, Sealed), Called(id), Logged(id, Unknown)]);
    assert t.marks[2] == one.marks[2] == Did(Logged(id, Unknown));
    CrashUnlocksIff(k, root, one.world, c, [Entry(id, Sealed)], [], 1, tree);
  }

  lemma LiveStep(k: Codecs, root: string, tree: Tree, incidents: seq<Incident>, i: Incident)
    requires (forall x | x in incidents :: Happens(x)) && Happens(i)
    ensures Live(k, root, tree, []) == Trace(World(tree, [], []), [])
    ensures Live(k, root, tree, incidents + [i]) == Happen(k, root, Live(k, root, tree, incidents), i)
  {
    hide Happen, Happens;
    assert (incidents + [i])[..|incidents|] == incidents;
  }

  lemma CalledIffOpen(k: Codecs, root: string, w: World, c: ChangeSet, treeAfter: Tree)
    requires forall o | o in c.operations :: LinesOk(o)
    requires ValidOn(k, root, c, w.tree) && !IdempotentOn(k, root, c, w.tree)
    ensures Called(ChangesetId(k, c)) in ApplyTurn(k, root, w, c, Writing(true, {}), Returned, treeAfter).acts
            <==> Open(w, ChangesetId(k, c))
  {
    hide ValidOn, IdempotentOn, LinesOk, ChangesetId, LastState;
    var id := ChangesetId(k, c);
    assert (LogAct(w, id, Sealed) + [Called(id)])[|LogAct(w, id, Sealed)|] == Called(id);
  }
}
