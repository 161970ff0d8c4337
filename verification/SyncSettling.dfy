/**
 When the synchronisation comes to rest, and where it falls short: quiescence after a Planner pass, what a successful
 command leaves behind, when a status column or a conflict mark is put right, and what becomes of a failed command.
 */
module SyncSettling {
  import opened Prelude
  import opened Text
  import opened SyncModel
  import opened SyncProtocol
  import opened SyncConflict

  // ---------------------------------------------------------------- settling

  ghost predicate NoPending(s: State) {
    forall k :: 0 <= k < |s.commands| ==> !s.commands[k].pending
  }

  /** The task has a row, and the row applied exactly this state of the task. */
  predicate Synced(s: State, id: string, t: Task) {
    var i := IndexByTask(s.memory, id);
    i < |s.memory| && s.memory[i].applied == TaskSignature(id, t)
  }

  /** What one Planner item does to one row. */
  lemma {:induction false} ItemOnRow(s: State, id: string, t: Task, k: nat)
    requires Invariant(s) && k < |s.memory|
    ensures var row, s' := s.memory[k], PlannerItem(s, id, t);
            k < |s'.memory| &&
            s'.memory[k] == if row.taskId != id || row.applied == TaskSignature(id, t) then row
                            else if HasPending(s.commands, id) then PatchRow(row, SetSync(Conflito))
                            else PatchRow(row, CopyTask(t, row.versao + 1, TaskSignature(id, t)))
  {
    hide TaskSignature;
    RowLookup(s, k);
    var i := IndexByTask(s.memory, id);
    if i < |s.memory| {
      RowLookup(s, i);
    }
  }

  lemma {:induction false} PlannerItemSyncsTask(s: State, id: string, t: Task)
    requires Invariant(s) && BarFree(id) && NoPending(s)
    ensures Synced(PlannerItem(s, id, t), id, t)
  {
    hide TaskSignature, PlannerItem, Invariant;
    PlannerItemInvariant(s, id, t);
    var i, s' := IndexByTask(s.memory, id), PlannerItem(s, id, t);
    assert !HasPending(s.commands, id);
    if i < |s.memory| {
      ItemOnRow(s, id, t, i);
    } else {
      NewTaskRow(s, id, t);
    }
    RowLookup(s', i);
  }

  lemma {:induction false} NewTaskRow(s: State, id: string, t: Task)
    requires IndexByTask(s.memory, id) == |s.memory|
    ensures PlannerItem(s, id, t).memory == s.memory + [NewRow(id, t, TaskSignature(id, t))]
  {
    hide TaskSignature;
  }

  lemma {:induction false} PlannerItemKeepsSynced(s: State, id: string, t: Task, id': string, t': Task)
    requires Invariant(s) && BarFree(id) && id' != id && Synced(s, id', t')
    ensures Synced(PlannerItem(s, id, t), id', t')
  {
    hide TaskSignature, PlannerItem, Invariant;
    PlannerItemInvariant(s, id, t);
    var n := IndexByTask(s.memory, id');
    ItemOnRow(s, id, t, n);
    RowLookup(PlannerItem(s, id, t), n);
  }

  lemma {:induction false} PlannerItemSyncs(s: State, id: string, t: Task)
    requires Invariant(s) && BarFree(id) && NoPending(s)
    ensures Synced(PlannerItem(s, id, t), id, t)
    ensures forall id', t' :: id' != id && Synced(s, id', t') ==> Synced(PlannerItem(s, id, t), id', t')
  {
    hide *;
    PlannerItemSyncsTask(s, id, t);
    forall id', t' | id' != id && Synced(s, id', t') ensures Synced(PlannerItem(s, id, t), id', t') {
      PlannerItemKeepsSynced(s, id, t, id', t');
    }
  }

  lemma {:induction false} PlannerPassSyncs(s: State, listing: seq<(string, Task)>)
    requires Invariant(s) && NoPending(s)
    requires forall k :: 0 <= k < |listing| ==> BarFree(listing[k].0)
    requires forall j, k :: 0 <= j < k < |listing| ==> listing[j].0 != listing[k].0
    ensures var s' := PlannerPass(s, listing);
            && s'.planner == s.planner && s'.commands == s.commands
            && (forall k :: 0 <= k < |listing| ==> Synced(s', listing[k].0, listing[k].1))
            && (forall id, t :: (forall k :: 0 <= k < |listing| ==> listing[k].0 != id) && Synced(s, id, t) ==>
                  Synced(s', id, t))
    decreases |listing|
  {
    hide PlannerItem, TaskSignature, Synced;
    if listing != [] {
      var next, rest := PlannerItem(s, listing[0].0, listing[0].1), listing[1..];
      PlannerItemInvariant(s, listing[0].0, listing[0].1);
      PlannerItemKeepsPlanner(s, listing[0].0, listing[0].1);
      PlannerItemSyncs(s, listing[0].0, listing[0].1);
      PlannerPassSyncs(next, rest);
      assert forall k :: 0 <= k < |rest| ==> rest[k] == listing[k + 1];
    }
  }

  lemma {:induction false} SyncedPassIsIdle(s: State, listing: seq<(string, Task)>)
    requires forall k :: 0 <= k < |listing| ==> Synced(s, listing[k].0, listing[k].1)
    ensures PlannerPass(s, listing) == s
    decreases |listing|
  {
    if listing != [] {
      assert Synced(s, listing[0].0, listing[0].1);
      SyncedPassIsIdle(s, listing[1..]);
    }
  }

  /**
   Quiescence: with no pending command, one Planner pass reaches a state that every further pass of either flow leaves
   exactly as it is, history included.
   */
  lemma {:induction false} OnePassQuiesces(s: State, plan: seq<(string, Task)>, later: seq<(string, Task)>)
    requires Invariant(s) && NoPending(s) && IsListing(s.planner, plan) && IsListing(s.planner, later)
    ensures var q := PlannerPass(s, plan);
            && q.planner == s.planner && q.commands == s.commands
            && PlannerPass(q, later) == q
            && PendingCommands(q) == [] && CommandPass(q, PendingCommands(q), []) == q
  {
    hide PlannerItem, TaskSignature, Synced;
    PlannerPassSyncs(s, plan);
    var q := PlannerPass(s, plan);
    forall k | 0 <= k < |later| ensures Synced(q, later[k].0, later[k].1) {
      assert later[k].0 in s.planner;
      var n :| 0 <= n < |plan| && plan[n].0 == later[k].0;
      assert Synced(q, plan[n].0, plan[n].1);
    }
    SyncedPassIsIdle(q, later);
    assert forall c :: c in q.commands ==> !c.pending;
  }

  lemma CancelMiddle(a: string, x: string, y: string, b: string)
    requires a + x + b == a + y + b
    ensures x == y
  {
    assert |x| == |y|;
    assert (a + x + b)[|a|..|a| + |x|] == x && (a + y + b)[|a|..|a| + |y|] == y;
  }

  /**
   A command that Planner acknowledged clears the first command row with its key and leaves every other one alone. Its
   memory row takes the title, percentage and deadline of the command and keeps its keys, version, status column and
   human columns, no other row changes, and the row matches Planner exactly when the percentage cell prints as the
   integer it denotes.
   */
  lemma {:induction false} SuccessSettles(s: State, c: Command)
    requires Invariant(s) && c.taskId in s.planner && WholePercent(c).Some?
    requires IndexById(s.memory, c.memoryId) < |s.memory| && IndexOfCommand(s.commands, c.memoryId) < |s.commands|
    requires s.memory[IndexById(s.memory, c.memoryId)].applied == TaskSignature(c.taskId, s.planner[c.taskId])
    ensures var s', i, j := CommandItem(s, c, Acknowledged), IndexById(s.memory, c.memoryId),
                            IndexOfCommand(s.commands, c.memoryId);
            && |s'.memory| == |s.memory| && |s'.commands| == |s.commands|
            && s'.planner == s.planner[c.taskId := WrittenTask(c, WholePercent(c).value)]
            && s'.memory[i].sync == Sincronizado && !s'.commands[j].pending
            && s'.memory[i].titulo == c.titulo && s'.memory[i].percentual == c.percentual
            && s'.memory[i].prazo == c.prazo && s'.memory[i].human == s.memory[i].human
            && s'.memory[i].memoryId == s.memory[i].memoryId && s'.memory[i].taskId == s.memory[i].taskId
            && s'.memory[i].versao == s.memory[i].versao && s'.memory[i].status == s.memory[i].status
            && (forall n :: 0 <= n < |s.memory| && n != i ==> s'.memory[n] == s.memory[n])
            && (forall n :: 0 <= n < |s.commands| && n != j ==> s'.commands[n] == s.commands[n])
            && (Synced(s', c.taskId, s'.planner[c.taskId]) <==> ShownPercent(c) == Decimal(WholePercent(c).value))
  {
    hide Decimal;
    var s', i := CommandItem(s, c, Acknowledged), IndexById(s.memory, c.memoryId);
    GuardMeansOwnTask(s, c);
    CommandItemInvariant(s, c, Acknowledged);
    RowLookup(s', i);
    var written := WrittenTask(c, WholePercent(c).value);
    assert written.due.GetOr("") == c.prazo.GetOr("");
    var a, b := c.taskId + "|" + c.titulo.GetOr("") + "|", "|" + c.prazo.GetOr("");
    var shown, whole := ShownPercent(c), Decimal(WholePercent(c).value);
    assert CommandSignature(c) == a + shown + b;
    assert TaskSignature(c.taskId, written) == a + whole + b;
    assert s'.memory[i].applied == CommandSignature(c);
    if a + shown + b == a + whole + b {
      CancelMiddle(a, shown, whole, b);
    }
  }

  // ---------------------------------------------------------------- where the flows fall short

  /**
   The Excel-to-Planner flow never rewrites PlannerStatus. After a success the column tells whether the task is
   complete exactly when it already did so for the new percentage.
   */
  lemma {:induction false} StatusColumnAfterSuccess(s: State, c: Command)
    requires Invariant(s) && c.taskId in s.planner && WholePercent(c).Some?
    requires IndexById(s.memory, c.memoryId) < |s.memory| && IndexOfCommand(s.commands, c.memoryId) < |s.commands|
    requires s.memory[IndexById(s.memory, c.memoryId)].applied == TaskSignature(c.taskId, s.planner[c.taskId])
    ensures var s', i := CommandItem(s, c, Acknowledged), IndexById(s.memory, c.memoryId);
            s'.memory[i].status == StatusOf(s'.planner[c.taskId].percent) <==>
            s.memory[i].status == StatusOf(WholePercent(c))
  {
    hide TaskSignature, CommandSignature;
    GuardMeansOwnTask(s, c);
  }

  /** Every entry of a listing that is about the task shows it as `t`. */
  ghost predicate ListsAs(listing: seq<(string, Task)>, id: string, t: Task) {
    forall n :: 0 <= n < |listing| ==> BarFree(listing[n].0) && (listing[n].0 == id ==> listing[n].1 == t)
  }

  ghost predicate Mentioned(listing: seq<(string, Task)>, id: string) {
    exists n :: 0 <= n < |listing| && listing[n].0 == id
  }

  /** What a Planner pass does to one row while no command waits for it: it copies a task that moved, once. */
  lemma {:induction false} PassOnRow(s: State, listing: seq<(string, Task)>, k: nat, t: Task)
    requires Invariant(s) && k < |s.memory| && !HasPending(s.commands, s.memory[k].taskId)
    requires ListsAs(listing, s.memory[k].taskId, t)
    ensures var row, s' := s.memory[k], PlannerPass(s, listing);
            var sig := TaskSignature(row.taskId, t);
            k < |s'.memory| &&
            s'.memory[k] == if Mentioned(listing, row.taskId) && row.applied != sig
                            then PatchRow(row, CopyTask(t, row.versao + 1, sig)) else row
    decreases |listing|
  {
    hide TaskSignature;
    if listing != [] {
      var id, rest, next := listing[0].0, listing[1..], PlannerItem(s, listing[0].0, listing[0].1);
      PlannerItemInvariant(s, id, listing[0].1);
      PlannerItemKeepsPlanner(s, id, listing[0].1);
      ItemOnRow(s, id, listing[0].1, k);
      assert ListsAs(rest, s.memory[k].taskId, t);
      PassOnRow(next, rest, k, t);
      MentionedFirst(listing, s.memory[k].taskId);
    }
  }

  lemma MentionedFirst(listing: seq<(string, Task)>, id: string)
    requires listing != []
    ensures Mentioned(listing, id) <==> listing[0].0 == id || Mentioned(listing[1..], id)
  {
    if Mentioned(listing[1..], id) {
      var n :| 0 <= n < |listing| - 1 && listing[1..][n].0 == id;
      assert listing[n + 1].0 == id;
    }
    if Mentioned(listing, id) && listing[0].0 != id {
      var n :| 0 <= n < |listing| && listing[n].0 == id;
      assert listing[1..][n - 1].0 == id;
    }
  }

  /**
   The column is right after a Planner pass exactly when the task had moved away from the applied signature, so that
   the row was copied afresh, or when it was right before.
   */
  lemma {:induction false} StatusColumnRepairedExactly(s: State, listing: seq<(string, Task)>, k: nat, t: Task)
    requires Invariant(s) && k < |s.memory| && !HasPending(s.commands, s.memory[k].taskId)
    requires ListsAs(listing, s.memory[k].taskId, t) && Mentioned(listing, s.memory[k].taskId)
    ensures var row, s' := s.memory[k], PlannerPass(s, listing);
            k < |s'.memory| &&
            (s'.memory[k].status == StatusOf(t.percent) <==>
             row.applied != TaskSignature(row.taskId, t) || row.status == StatusOf(t.percent))
  {
    hide PlannerItem, TaskSignature, ListsAs, Mentioned;
    PassOnRow(s, listing, k, t);
  }

  /** A status left wrong by a success stays wrong through every Planner pass, of any plan, until the task moves. */
  lemma {:induction false} StatusColumnStaysStale(s: State, c: Command, later: seq<(string, Task)>)
    requires Invariant(s) && c.taskId in s.planner && WholePercent(c).Some?
    requires ShownPercent(c) == Decimal(WholePercent(c).value)
    requires IndexById(s.memory, c.memoryId) < |s.memory| && IndexOfCommand(s.commands, c.memoryId) < |s.commands|
    requires s.memory[IndexById(s.memory, c.memoryId)].applied == TaskSignature(c.taskId, s.planner[c.taskId])
    requires s.memory[IndexById(s.memory, c.memoryId)].status != StatusOf(WholePercent(c))
    requires ListsAs(later, c.taskId, CommandItem(s, c, Acknowledged).planner[c.taskId])
    ensures var s', i := CommandItem(s, c, Acknowledged), IndexById(s.memory, c.memoryId);
            && |s'.memory| == |s.memory| && i < |PlannerPass(s', later).memory|
            && PlannerPass(s', later).memory[i] == s'.memory[i]
            && s'.memory[i].status != StatusOf(s'.planner[c.taskId].percent)
  {
    hide CommandItem, TaskSignature, Decimal, ListsAs;
    var s', i := CommandItem(s, c, Acknowledged), IndexById(s.memory, c.memoryId);
    SuccessSettles(s, c);
    StatusColumnAfterSuccess(s, c);
    CommandItemInvariant(s, c, Acknowledged);
    SettledRow(s, c);
    SyncedRowKept(s', later, i, s'.planner[c.taskId]);
  }

  /** The row a successful command writes belongs to the command's task and has applied what Planner now holds. */
  lemma {:induction false} SettledRow(s: State, c: Command)
    requires Invariant(s) && c.taskId in s.planner && WholePercent(c).Some?
    requires ShownPercent(c) == Decimal(WholePercent(c).value)
    requires IndexById(s.memory, c.memoryId) < |s.memory| && IndexOfCommand(s.commands, c.memoryId) < |s.commands|
    requires s.memory[IndexById(s.memory, c.memoryId)].applied == TaskSignature(c.taskId, s.planner[c.taskId])
    ensures var s', i := CommandItem(s, c, Acknowledged), IndexById(s.memory, c.memoryId);
            && i < |s'.memory| && s'.memory[i].taskId == c.taskId && c.taskId in s'.planner
            && s'.memory[i].applied == TaskSignature(c.taskId, s'.planner[c.taskId])
  {
    hide Decimal, Signature;
    GuardMeansOwnTask(s, c);
    assert WrittenTask(c, WholePercent(c).value).due.GetOr("") == c.prazo.GetOr("");
  }

  /** A row whose task is listed as it applied it is left alone, whatever else is listed and whatever waits. */
  lemma {:induction false} SyncedRowKept(s: State, listing: seq<(string, Task)>, k: nat, t: Task)
    requires Invariant(s) && k < |s.memory| && s.memory[k].applied == TaskSignature(s.memory[k].taskId, t)
    requires ListsAs(listing, s.memory[k].taskId, t)
    ensures k < |PlannerPass(s, listing).memory| && PlannerPass(s, listing).memory[k] == s.memory[k]
    decreases |listing|
  {
    hide TaskSignature, PlannerItem;
    if listing != [] {
      PlannerItemInvariant(s, listing[0].0, listing[0].1);
      ItemOnRow(s, listing[0].0, listing[0].1, k);
      SyncedRowKept(PlannerItem(s, listing[0].0, listing[0].1), listing[1..], k, t);
    }
  }

  /** Every entry about the task carries exactly the signature that the row applied. */
  ghost predicate NothingMoved(listing: seq<(string, Task)>, row: MemoryRow) {
    forall n :: 0 <= n < |listing| && listing[n].0 == row.taskId ==>
                  row.applied == TaskSignature(row.taskId, listing[n].1)
  }

  /**
   When a Planner pass clears a CONFLITO mark: the row is still marked afterwards exactly when a command waits for its
   task, or no listed state of the task differs from the applied signature. So a mark outlives its cause whenever people
   withdraw the command and put the task back.
   */
  lemma {:induction false} MarkStaysExactly(s: State, listing: seq<(string, Task)>, k: nat)
    requires Invariant(s) && k < |s.memory| && s.memory[k].sync == Conflito
    requires forall n :: 0 <= n < |listing| ==> BarFree(listing[n].0)
    ensures k < |PlannerPass(s, listing).memory|
    ensures PlannerPass(s, listing).memory[k].sync == Conflito <==>
            HasPending(s.commands, s.memory[k].taskId) || NothingMoved(listing, s.memory[k])
    decreases |listing|
  {
    hide TaskSignature, PlannerItem, PlannerPass;
    if listing == [] {
      EmptyPass(s);
    } else {
      var id, t, rest := listing[0].0, listing[0].1, listing[1..];
      var next := PlannerItem(s, id, t);
      FirstOfPass(s, listing);
      PlannerItemInvariant(s, id, t);
      PlannerItemKeepsPlanner(s, id, t);
      ItemOnRow(s, id, t, k);
      NothingMovedFirst(listing, s.memory[k]);
      if next.memory[k].sync == Conflito {
        MarkStaysExactly(next, rest, k);
      } else {
        UnmarkedRowStays(next, rest, k);
      }
      if next.memory[k].applied == s.memory[k].applied {
        assert NothingMoved(rest, next.memory[k]) <==> NothingMoved(rest, s.memory[k]);
      }
    }
  }

  lemma EmptyPass(s: State)
    ensures PlannerPass(s, []) == s
  {
  }

  lemma FirstOfPass(s: State, listing: seq<(string, Task)>)
    requires listing != []
    ensures PlannerPass(s, listing) == PlannerPass(PlannerItem(s, listing[0].0, listing[0].1), listing[1..])
  {
  }

  lemma {:induction false} NothingMovedFirst(listing: seq<(string, Task)>, row: MemoryRow)
    requires listing != []
    ensures NothingMoved(listing, row) <==>
            && NothingMoved(listing[1..], row)
            && (listing[0].0 == row.taskId ==> row.applied == TaskSignature(row.taskId, listing[0].1))
  {
    hide TaskSignature;
    if NothingMoved(listing, row) {
      forall n | 0 <= n < |listing| - 1 && listing[1..][n].0 == row.taskId
        ensures row.applied == TaskSignature(row.taskId, listing[1..][n].1)
      {
        assert listing[n + 1] == listing[1..][n];
      }
    } else {
      var n :| 0 <= n < |listing| && listing[n].0 == row.taskId
               && row.applied != TaskSignature(row.taskId, listing[n].1);
      assert n > 0 ==> listing[1..][n - 1] == listing[n];
    }
  }

  /** A row that is not marked is not marked by a Planner pass while no command waits for its task. */
  lemma {:induction false} UnmarkedRowStays(s: State, listing: seq<(string, Task)>, k: nat)
    requires Invariant(s) && k < |s.memory| && s.memory[k].sync != Conflito
    requires !HasPending(s.commands, s.memory[k].taskId)
    requires forall n :: 0 <= n < |listing| ==> BarFree(listing[n].0)
    ensures k < |PlannerPass(s, listing).memory| && PlannerPass(s, listing).memory[k].sync != Conflito
    decreases |listing|
  {
    hide TaskSignature, PlannerItem;
    if listing != [] {
      PlannerItemInvariant(s, listing[0].0, listing[0].1);
      PlannerItemKeepsPlanner(s, listing[0].0, listing[0].1);
      ItemOnRow(s, listing[0].0, listing[0].1, k);
      UnmarkedRowStays(PlannerItem(s, listing[0].0, listing[0].1), listing[1..], k);
    }
  }

  /** The Excel-to-Planner flow clears a mark exactly when it carries out a command on that row. */
  lemma {:induction false} CommandClearsMarkExactly(s: State, c: Command, o: Outcome, k: nat)
    requires Invariant(s) && k < |s.memory| && s.memory[k].sync == Conflito
    ensures k < |CommandItem(s, c, o).memory|
    ensures CommandItem(s, c, o).memory[k].sync != Conflito <==>
            && c.taskId in s.planner && c.memoryId == s.memory[k].memoryId
            && s.memory[k].applied == TaskSignature(c.taskId, s.planner[c.taskId])
  {
    hide TaskSignature, CommandSignature;
    RowLookup(s, k);
    var i := IndexById(s.memory, c.memoryId);
    if i < |s.memory| {
      MemoryIdsDistinct(s, i, k);
    }
  }

  /** A mark that nothing explains: no command waits, the one row matches Planner, and a Planner pass changes nothing. */
  ghost predicate StuckInConflict(s: State) {
    && s.commands == [] && |s.memory| == 1 && s.memory[0].taskId in s.planner
    && Synced(s, s.memory[0].taskId, s.planner[s.memory[0].taskId]) && VisiblyInConflict(s.memory, 0)
    && PlannerPass(s, [(s.memory[0].taskId, s.planner[s.memory[0].taskId])]) == s
  }

  /** The steps of a run that ends so: a task is copied, moves while a command waits, and is put back without it. */
  function StuckSteps(t: Task, u: Task, c: Command, human: Human): seq<Step> {
    [FromPlannerStep("t", t), People(map["t" := u], [c], [human]), FromPlannerStep("t", u),
     People(map["t" := t], [], [human])]
  }

  function StuckStates(t: Task, u: Task, c: Command): seq<State> {
    var row := NewRow("t", t, TaskSignature("t", t));
    var marked := row.(sync := Conflito);
    var created := [Event(MemoryIdOf("t"), "t", Some(1), FromPlanner, EventoCriada, TaskSignature("t", t))];
    var conflict := created
                    + [Event(MemoryIdOf("t"), "t", Some(1), FromPlanner, EventoConflito, TaskSignature("t", u))];
    [State(map["t" := t], [], [], []), State(map["t" := t], [row], [], created),
     State(map["t" := u], [row], [c], created), State(map["t" := u], [marked], [c], conflict),
     State(map["t" := t], [marked], [], conflict)]
  }

  lemma {:induction false} StuckRun(t: Task, u: Task, c: Command)
    requires TaskSignature("t", t) != TaskSignature("t", u) && c.taskId == "t" && c.pending
    ensures Run(StuckStates(t, u, c), StuckSteps(t, u, c, NewRow("t", t, TaskSignature("t", t)).human))
  {
    hide TaskSignature;
    var states, steps := StuckStates(t, u, c), StuckSteps(t, u, c, NewRow("t", t, TaskSignature("t", t)).human);
    assert Next(states[0], steps[0]) == states[1];
    assert Next(states[1], steps[1]) == states[2];
    assert IndexByTask(states[2].memory, "t") == 0 && IndexOfPending(states[2].commands, "t") == 0;
    assert Next(states[2], steps[2]) == states[3];
    assert Next(states[3], steps[3]) == states[4];
  }

  lemma {:induction false} StuckAtTheEnd(t: Task, u: Task, c: Command)
    ensures StuckInConflict(StuckStates(t, u, c)[4])
  {
    hide TaskSignature, HealthFails, PlannerPass;
    var s := StuckStates(t, u, c)[4];
    HealthSees(s.memory, 0);
    assert Synced(s, "t", t);
    SyncedPassIsIdle(s, [("t", t)]);
  }

  /** Some run ends in a mark that nothing explains. */
  lemma {:induction false} MarkOutlivesCause()
    ensures exists states, steps :: Run(states, steps) && StuckInConflict(states[|steps|])
  {
    hide Run, StuckInConflict, TaskSignature;
    var t, u := Task(Some("a"), Some(0), None), Task(Some("b"), Some(0), None);
    var c := Command(MemoryIdOf("t"), "t", Some("c"), None, None, true, NadaAinda, SemDetalhe);
    DifferentTitles("t");
    StuckRun(t, u, c);
    StuckAtTheEnd(t, u, c);
    var states, steps := StuckStates(t, u, c), StuckSteps(t, u, c, NewRow("t", t, TaskSignature("t", t)).human);
    assert Run(states, steps) && states[|steps|] == states[4];
  }

  lemma DifferentTitles(id: string)
    requires BarFree(id)
    ensures TaskSignature(id, Task(Some("a"), Some(0), None)) != TaskSignature(id, Task(Some("b"), Some(0), None))
  {
    var t, u := Task(Some("a"), Some(0), None), Task(Some("b"), Some(0), None);
    assert "a"[0] != "b"[0];
    if TaskSignature(id, t) == TaskSignature(id, u) {
      TaskSignatureInjective(id, t, id, u);
    }
  }

  /**
   A carried-out command that did not succeed becomes a conflict, which by `ConflictPersists` no later flow step
   resolves, exactly when its update reached Planner all the same and left another signature there. In every other case
   it still waits and its guard still holds, so that it can be retried.
   */
  lemma {:induction false} FailureBecomesConflictExactly(s: State, j: nat, o: Outcome)
    requires Invariant(s) && j < |s.commands| && s.commands[j].pending && s.commands[j].taskId in s.planner
    requires !(o.Acknowledged? && WholePercent(s.commands[j]).Some?)
    requires IndexById(s.memory, s.commands[j].memoryId) < |s.memory|
    requires s.memory[IndexById(s.memory, s.commands[j].memoryId)].applied ==
             TaskSignature(s.commands[j].taskId, s.planner[s.commands[j].taskId])
    ensures var c := s.commands[j];
            var i, s' := IndexById(s.memory, c.memoryId), CommandItem(s, c, o);
            && RequestKept(s, s', i, j) && s'.commands[j].pending
            && (InConflict(s', i, j) <==>
                Landed(c, o) && s.memory[i].applied != TaskSignature(c.taskId, WrittenTask(c, WholePercent(c).value)))
            && (!InConflict(s', i, j) ==>
                c.taskId in s'.planner && s'.memory[i].applied == TaskSignature(c.taskId, s'.planner[c.taskId]))
  {
    hide TaskSignature;
    GuardMeansOwnTask(s, s.commands[j]);
  }

  /** Row `i` keeps its key, task and applied signature; command `j` keeps its request. */
  predicate RequestKept(s: State, s': State, i: nat, j: nat) {
    && |s'.memory| == |s.memory| && |s'.commands| == |s.commands| && i < |s.memory| && j < |s.commands|
    && SameContent(s.memory[i], s'.memory[i])
    && s.commands[j].(resultado := s'.commands[j].resultado, detalhe := s'.commands[j].detalhe) == s'.commands[j]
  }
}
