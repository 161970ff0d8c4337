/** Conflicts: a command waits while Planner has moved. They are stable under both flows, and visible to the health flow. */
module SyncConflict {
  import opened Text
  import opened SyncModel
  import opened SyncProtocol

  /** Command `j` waits on its own memory row `k`, and Planner has left the signature that row applied. */
  ghost predicate InConflict(s: State, k: nat, j: nat) {
    && k < |s.memory| && j < |s.commands|
    && s.commands[j].pending
    && s.commands[j].memoryId == s.memory[k].memoryId && s.commands[j].taskId == s.memory[k].taskId
    && s.memory[k].taskId in s.planner
    && s.memory[k].applied != TaskSignature(s.memory[k].taskId, s.planner[s.memory[k].taskId])
  }

  /** What a flow step may do to a conflict: nothing, except write results and mark the row CONFLITO. */
  ghost predicate ConflictKept(s: State, s': State, k: nat, j: nat)
    requires InConflict(s, k, j)
  {
    && InConflict(s', k, j)
    && SameContent(s.memory[k], s'.memory[k])
    && s'.planner[s.memory[k].taskId] == s.planner[s.memory[k].taskId]
    && (s'.memory[k].sync == s.memory[k].sync || s'.memory[k].sync == Conflito)
    && s.commands[j].(resultado := s'.commands[j].resultado, detalhe := s'.commands[j].detalhe) == s'.commands[j]
  }

  lemma {:induction false} PlannerItemKeepsConflict(s: State, id: string, t: Task, k: nat, j: nat)
    requires Invariant(s) && BarFree(id) && InConflict(s, k, j)
    ensures ConflictKept(s, PlannerItem(s, id, t), k, j)
    ensures id == s.memory[k].taskId && t == s.planner[id] ==> PlannerItem(s, id, t).memory[k].sync == Conflito
  {
    hide TaskSignature;
    var i := IndexByTask(s.memory, id);
    if i < |s.memory| {
      RowLookup(s, i);
      RowLookup(s, k);
    }
  }

  lemma {:induction false} CommandItemKeepsConflict(s: State, c: Command, o: Outcome, k: nat, j: nat)
    requires Invariant(s) && InConflict(s, k, j)
    ensures ConflictKept(s, CommandItem(s, c, o), k, j)
    ensures c.memoryId == s.memory[k].memoryId && c.taskId == s.memory[k].taskId ==>
              CommandItem(s, c, o).memory[k].sync == Conflito
  {
    hide TaskSignature, CommandSignature;
    var i := IndexById(s.memory, c.memoryId);
    RowLookup(s, k);
    if c.taskId in s.planner && i < |s.memory| {
      var current := TaskSignature(c.taskId, s.planner[c.taskId]);
      if s.memory[i].applied == current {
        GuardMeansOwnTask(s, c);
        assert i != k;
        assert c.taskId != s.memory[k].taskId;
        MemoryIdsDistinct(s, i, k);
      } else {
        MemoryIdsDistinct(s, i, k);
      }
    }
  }

  /**
   A conflict is stable: whatever flow steps run, in whatever order and however out of date, the task, the version,
   the applied signature, the stored Planner columns and the human columns stay as they were, and the command waits on.
   */
  lemma {:induction false} ConflictPersists(states: seq<State>, steps: seq<Step>, k: nat, j: nat)
    requires |states| == |steps| + 1 && Invariant(states[0]) && InConflict(states[0], k, j)
    requires forall n :: 0 <= n < |steps| ==>
               !steps[n].People? && Possible(states[n], steps[n]) && states[n + 1] == Next(states[n], steps[n])
    ensures ConflictKept(states[0], states[|steps|], k, j)
  {
    hide PlannerItem, CommandItem, WithHuman, GoodRow, TaskSignature;
    if steps != [] {
      var n := |steps| - 1;
      ConflictPersists(states[..n + 1], steps[..n], k, j);
      InvariantAlong(states, steps, n);
      FlowStepKeepsConflict(states[n], steps[n], k, j);
    }
  }

  lemma {:induction false} FlowStepKeepsConflict(s: State, step: Step, k: nat, j: nat)
    requires Invariant(s) && Possible(s, step) && !step.People? && InConflict(s, k, j)
    ensures ConflictKept(s, Next(s, step), k, j)
  {
    hide PlannerItem, CommandItem, TaskSignature;
    if step.FromPlannerStep? {
      PlannerItemKeepsConflict(s, step.id, step.task, k, j);
    } else {
      CommandItemKeepsConflict(s, step.command, step.outcome, k, j);
    }
  }

  lemma {:induction false} InvariantAlong(states: seq<State>, steps: seq<Step>, n: nat)
    requires |states| == |steps| + 1 && Invariant(states[0]) && n <= |steps|
    requires forall m :: 0 <= m < |steps| ==>
               Possible(states[m], steps[m]) && states[m + 1] == Next(states[m], steps[m])
    ensures Invariant(states[n])
  {
    hide PlannerItem, CommandItem, WithHuman, GoodRow;
    if n > 0 {
      InvariantAlong(states, steps, n - 1);
      StepInvariant(states[n - 1], steps[n - 1]);
    }
  }

  lemma {:induction false} PlannerPassMarks(s: State, listing: seq<(string, Task)>, k: nat, j: nat)
    requires Invariant(s) && InConflict(s, k, j)
    requires forall r :: r in listing ==> BarFree(r.0)
    requires s.memory[k].sync == Conflito || (s.memory[k].taskId, s.planner[s.memory[k].taskId]) in listing
    ensures ConflictKept(s, PlannerPass(s, listing), k, j) && PlannerPass(s, listing).memory[k].sync == Conflito
    decreases |listing|
  {
    hide PlannerItem, TaskSignature;
    if listing != [] {
      PlannerItemKeepsConflict(s, listing[0].0, listing[0].1, k, j);
      PlannerItemInvariant(s, listing[0].0, listing[0].1);
      PlannerItemKeepsPlanner(s, listing[0].0, listing[0].1);
      PlannerPassMarks(PlannerItem(s, listing[0].0, listing[0].1), listing[1..], k, j);
    }
  }

  /** A pending snapshot of the conflicting command. */
  predicate Aims(c: Command, row: MemoryRow) {
    c.memoryId == row.memoryId && c.taskId == row.taskId
  }

  lemma {:induction false} CommandPassMarks(s: State, listing: seq<Command>, outcomes: seq<Outcome>, k: nat, j: nat)
    requires |outcomes| == |listing|
    requires Invariant(s) && InConflict(s, k, j)
    requires s.memory[k].sync == Conflito || exists c :: c in listing && Aims(c, s.memory[k])
    ensures var s' := CommandPass(s, listing, outcomes);
            ConflictKept(s, s', k, j) && s'.memory[k].sync == Conflito
    decreases |listing|
  {
    hide CommandItem, TaskSignature;
    if listing != [] {
      var next := CommandItem(s, listing[0], outcomes[0]);
      CommandItemKeepsConflict(s, listing[0], outcomes[0], k, j);
      CommandItemInvariant(s, listing[0], outcomes[0]);
      if next.memory[k].sync != Conflito {
        var c :| c in listing && Aims(c, s.memory[k]);
        assert c in listing[1..] && Aims(c, next.memory[k]);
      }
      CommandPassMarks(next, listing[1..], outcomes[1..], k, j);
    }
  }

  ghost predicate VisiblyInConflict(memory: seq<MemoryRow>, k: nat) {
    k < |memory| && memory[k].sync == Conflito && HealthFails(memory)
  }

  lemma HealthSees(memory: seq<MemoryRow>, k: nat)
    requires k < |memory| && memory[k].sync == Conflito
    ensures VisiblyInConflict(memory, k)
  {
    assert memory[k] in HealthProblems(memory);
  }

  /** A conflict is visible: after a pass of either flow over a fresh listing the health flow fails. */
  lemma {:induction false} ConflictVisible(s: State, k: nat, j: nat, plan: seq<(string, Task)>, outcomes: seq<Outcome>)
    requires Invariant(s) && InConflict(s, k, j)
    requires IsListing(s.planner, plan) && |outcomes| == |PendingCommands(s)|
    ensures VisiblyInConflict(PlannerPass(s, plan).memory, k)
    ensures VisiblyInConflict(CommandPass(s, PendingCommands(s), outcomes).memory, k)
  {
    hide PlannerItem, CommandItem, TaskSignature;
    var n :| 0 <= n < |plan| && plan[n].0 == s.memory[k].taskId;
    assert plan[n] == (s.memory[k].taskId, s.planner[s.memory[k].taskId]);
    forall r | r in plan ensures BarFree(r.0) {}
    PlannerPassMarks(s, plan, k, j);
    assert s.commands[j] in PendingCommands(s) && Aims(s.commands[j], s.memory[k]);
    CommandPassMarks(s, PendingCommands(s), outcomes, k, j);
    HealthSees(PlannerPass(s, plan).memory, k);
    HealthSees(CommandPass(s, PendingCommands(s), outcomes).memory, k);
  }
}
