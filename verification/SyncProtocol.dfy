/**
 Runs of the synchronisation: whole-item steps of the two flows interleaved with people editing Planner, the command
 table and the human columns in any way. A flow step carries the task or command as the flow listed it, which may be
 long out of date, so every interleaving of overlapping runs is covered.
 */
module SyncProtocol {
  import opened Prelude
  import opened Text
  import opened SyncModel

  datatype Step =
    | People(planner: map<string, Task>, commands: seq<Command>, human: seq<Human>)
    | FromPlannerStep(id: string, task: Task)
    | FromExcelStep(command: Command, outcome: Outcome)

  function WithHuman(memory: seq<MemoryRow>, human: seq<Human>): (r: seq<MemoryRow>)
    requires |human| == |memory|
    ensures |r| == |memory|
  {
    seq(|memory|, k requires 0 <= k < |memory| => memory[k].(human := human[k]))
  }

  /** Planner never issues an id with a bar in it, and people leave the rows of the memory table in place. */
  ghost predicate Possible(s: State, step: Step) {
    match step
    case People(planner, _, human) => (forall id :: id in planner ==> BarFree(id)) && |human| == |s.memory|
    case FromPlannerStep(id, _) => BarFree(id)
    case FromExcelStep(_, _) => true
  }

  function Next(s: State, step: Step): State
    requires Possible(s, step)
  {
    match step
    case People(planner, commands, human) =>
      s.(planner := planner, commands := commands, memory := WithHuman(s.memory, human))
    case FromPlannerStep(id, t) => PlannerItem(s, id, t)
    case FromExcelStep(c, o) => CommandItem(s, c, o)
  }

  ghost predicate Start(s: State) {
    && (forall id :: id in s.planner ==> BarFree(id))
    && s.memory == [] && s.history == []
  }

  /** `states[k + 1]` follows from `states[k]` by `steps[k]`. */
  ghost predicate Run(states: seq<State>, steps: seq<Step>) {
    && |states| == |steps| + 1
    && Start(states[0])
    && forall k :: 0 <= k < |steps| ==> Possible(states[k], steps[k]) && states[k + 1] == Next(states[k], steps[k])
  }

  // ---------------------------------------------------------------- invariant

  /** A history event that records the writing of `row.applied`. */
  predicate Records(e: Event, row: MemoryRow) {
    && e.memoryId == row.memoryId && e.taskId == row.taskId && e.signature == row.applied
    && e.tipo in {EventoCriada, EventoAtualizada, EventoPlannerAtualizado}
  }

  ghost predicate Recorded(history: seq<Event>, row: MemoryRow) {
    exists k :: 0 <= k < |history| && Records(history[k], row)
  }

  /** The applied signature of a row is a signature of the row's own task. */
  predicate SignsOwnTask(row: MemoryRow) {
    |row.applied| > |row.taskId| && row.applied[..|row.taskId|] == row.taskId && row.applied[|row.taskId|] == '|'
  }

  ghost predicate GoodRow(row: MemoryRow, history: seq<Event>) {
    && row.memoryId == MemoryIdOf(row.taskId) && BarFree(row.taskId)
    && SignsOwnTask(row) && Recorded(history, row)
  }

  ghost predicate Invariant(s: State) {
    && (forall id :: id in s.planner ==> BarFree(id))
    && (forall k :: 0 <= k < |s.memory| ==> GoodRow(s.memory[k], s.history))
    && (forall j, k :: 0 <= j < k < |s.memory| ==> s.memory[j].taskId != s.memory[k].taskId)
  }

  lemma SignatureShape(id: string, title: string, percent: string, due: string)
    ensures var sig := Signature(id, title, percent, due);
            |sig| > |id| && sig[..|id|] == id && sig[|id|] == '|'
            && sig == id + "|" + (title + "|" + percent + "|" + due)
  {
    assert Signature(id, title, percent, due) == id + "|" + (title + "|" + percent + "|" + due);
  }

  /** A bar-free row id and a bar-free task id with a common signature are the same id. */
  lemma SameTask(row: MemoryRow, id: string, title: string, percent: string, due: string)
    requires SignsOwnTask(row) && BarFree(row.taskId) && BarFree(id)
    requires row.applied == Signature(id, title, percent, due)
    ensures row.taskId == id
  {
    SignatureShape(id, title, percent, due);
    assert row.applied == row.taskId + "|" + row.applied[|row.taskId| + 1..];
    SplitAtFirstBar(row.taskId, row.applied[|row.taskId| + 1..], id, title + "|" + percent + "|" + due);
  }

  lemma MemoryIdsDistinct(s: State, j: nat, k: nat)
    requires Invariant(s) && j < |s.memory| && k < |s.memory|
    ensures s.memory[j].memoryId == s.memory[k].memoryId <==> j == k
  {
    if s.memory[j].memoryId == s.memory[k].memoryId {
      assert s.memory[j].taskId == s.memory[j].memoryId[|MemoryIdOf("")|..];
      assert s.memory[k].taskId == s.memory[k].memoryId[|MemoryIdOf("")|..];
    }
  }

  lemma RowLookup(s: State, k: nat)
    requires Invariant(s) && k < |s.memory|
    ensures IndexById(s.memory, s.memory[k].memoryId) == k
    ensures IndexByTask(s.memory, s.memory[k].taskId) == k
  {
    MemoryIdsDistinct(s, IndexById(s.memory, s.memory[k].memoryId), k);
  }

  lemma RecordedLater(history: seq<Event>, row: MemoryRow, more: seq<Event>)
    requires Recorded(history, row)
    ensures Recorded(history + more, row)
  {
    var k :| 0 <= k < |history| && Records(history[k], row);
    assert Records((history + more)[k], row);
  }

  lemma RecordedNow(history: seq<Event>, row: MemoryRow, e: Event)
    requires Records(e, row)
    ensures Recorded(history + [e], row)
  {
    assert Records((history + [e])[|history|], row);
  }

  /** Replacing one good row and extending the history keeps the invariant. */
  lemma PatchKeepsInvariant(s: State, t: State, key: string, p: MemoryPatch, more: seq<Event>)
    requires Invariant(s)
    requires t.memory == PatchMemory(s.memory, key, p) && t.history == s.history + more
    requires forall id :: id in t.planner ==> BarFree(id)
    requires var i := IndexById(s.memory, key);
             i < |s.memory| ==> GoodRow(PatchRow(s.memory[i], p), t.history)
    ensures Invariant(t)
  {
    forall k | 0 <= k < |t.memory| ensures GoodRow(t.memory[k], t.history) {
      RecordedLater(s.history, s.memory[k], more);
    }
  }

  lemma {:induction false} PlannerItemInvariant(s: State, id: string, t: Task)
    requires Invariant(s) && BarFree(id)
    ensures Invariant(PlannerItem(s, id, t))
  {
    hide TaskSignature;
    var sig := TaskSignature(id, t);
    TaskSignatureShape(id, t);
    var i := IndexByTask(s.memory, id);
    var s' := PlannerItem(s, id, t);
    if i == |s.memory| {
      var e := Event(MemoryIdOf(id), id, Some(1), FromPlanner, EventoCriada, sig);
      RecordedNow(s.history, NewRow(id, t, sig), e);
      forall k | 0 <= k < |s'.memory| ensures GoodRow(s'.memory[k], s'.history) {
        if k < |s.memory| { RecordedLater(s.history, s.memory[k], [e]); }
      }
    } else if s.memory[i].applied != sig {
      var row := s.memory[i];
      RowLookup(s, i);
      if HasPending(s.commands, id) {
        var e := Event(row.memoryId, id, Some(row.versao), FromPlanner, EventoConflito, sig);
        RecordedLater(s.history, row, [e]);
        AppliedKept(row, SetSync(Conflito), s.history + [e]);
        PatchKeepsInvariant(s, s', row.memoryId, SetSync(Conflito), [e]);
      } else {
        var p := CopyTask(t, row.versao + 1, sig);
        var e := Event(row.memoryId, id, Some(row.versao + 1), FromPlanner, EventoAtualizada, sig);
        RecordedNow(s.history, PatchRow(row, p), e);
        PatchKeepsInvariant(s, s', row.memoryId, p, [e]);
      }
    }
  }

  lemma TaskSignatureShape(id: string, t: Task)
    ensures var sig := TaskSignature(id, t); |sig| > |id| && sig[..|id|] == id && sig[|id|] == '|'
  {
    SignatureShape(id, t.title.GetOr(""), Decimal(t.percent.GetOr(0)), t.due.GetOr(""));
  }

  /** A status mark leaves a good row good. */
  lemma AppliedKept(row: MemoryRow, p: MemoryPatch, history: seq<Event>)
    requires p.SetSync? && GoodRow(row, history)
    ensures GoodRow(PatchRow(row, p), history)
  {
    var k :| 0 <= k < |history| && Records(history[k], row);
    assert Records(history[k], PatchRow(row, p));
  }

  lemma MarkKeepsInvariant(s: State, t: State, key: string, status: SyncStatus, more: seq<Event>)
    requires Invariant(s)
    requires t.memory == PatchMemory(s.memory, key, SetSync(status)) && t.history == s.history + more
    requires forall id :: id in t.planner ==> BarFree(id)
    ensures Invariant(t)
  {
    var i := IndexById(s.memory, key);
    if i < |s.memory| {
      RecordedLater(s.history, s.memory[i], more);
      AppliedKept(s.memory[i], SetSync(status), t.history);
    }
    PatchKeepsInvariant(s, t, key, SetSync(status), more);
  }

  /** A command whose guard held names the row's own task. */
  lemma GuardMeansOwnTask(s: State, c: Command)
    requires Invariant(s) && c.taskId in s.planner
    requires IndexById(s.memory, c.memoryId) < |s.memory|
    requires s.memory[IndexById(s.memory, c.memoryId)].applied == TaskSignature(c.taskId, s.planner[c.taskId])
    ensures s.memory[IndexById(s.memory, c.memoryId)].taskId == c.taskId
  {
    var t := s.planner[c.taskId];
    SameTask(s.memory[IndexById(s.memory, c.memoryId)], c.taskId,
             t.title.GetOr(""), Decimal(t.percent.GetOr(0)), t.due.GetOr(""));
  }

  lemma {:induction false} CommandItemInvariant(s: State, c: Command, o: Outcome)
    requires Invariant(s)
    ensures Invariant(CommandItem(s, c, o))
  {
    hide TaskSignature, CommandSignature;
    var s' := CommandItem(s, c, o);
    if c.taskId in s.planner {
      var i := IndexById(s.memory, c.memoryId);
      var current := TaskSignature(c.taskId, s.planner[c.taskId]);
      if i == |s.memory| {
        assert s'.memory == s.memory && s'.history == s.history && s'.planner == s.planner;
      } else if s.memory[i].applied != current {
        if IndexOfCommand(s.commands, c.memoryId) < |s.commands| {
          MarkKeepsInvariant(s, s', c.memoryId, Conflito,
                             [Event(c.memoryId, c.taskId, None, FromExcel, EventoConflito, current)]);
        }
      } else {
        GuardMeansOwnTask(s, c);
        ApplyItemInvariant(s, c, o);
      }
    }
  }

  lemma {:induction false} ApplyItemInvariant(s: State, c: Command, o: Outcome)
    requires Invariant(s) && c.taskId in s.planner
    requires IndexById(s.memory, c.memoryId) < |s.memory|
    requires s.memory[IndexById(s.memory, c.memoryId)].taskId == c.taskId
    ensures Invariant(ApplyItem(s, c, o))
  {
    hide CommandSignature;
    var s' := ApplyItem(s, c, o);
    assert forall id :: id in s'.planner ==> id in s.planner;
    if WholePercent(c).Some? && o.Acknowledged? {
      if IndexOfCommand(s.commands, c.memoryId) == |s.commands| {
        MarkKeepsInvariant(s, s', c.memoryId, Pendente, []);
      } else {
        var sig := CommandSignature(c);
        CommandSignatureShape(c);
        var row, p := s.memory[IndexById(s.memory, c.memoryId)], CopyCommand(c, sig);
        var e := Event(c.memoryId, c.taskId, None, FromExcel, EventoPlannerAtualizado, sig);
        RecordedNow(s.history, PatchRow(row, p), e);
        PatchKeepsInvariant(s, s', c.memoryId, p, [e]);
      }
    } else {
      MarkKeepsInvariant(s, s', c.memoryId, Erro, []);
    }
  }

  lemma CommandSignatureShape(c: Command)
    ensures var sig := CommandSignature(c);
            |sig| > |c.taskId| && sig[..|c.taskId|] == c.taskId && sig[|c.taskId|] == '|'
  {
    SignatureShape(c.taskId, c.titulo.GetOr(""), ShownPercent(c), c.prazo.GetOr(""));
  }

  lemma StepInvariant(s: State, step: Step)
    requires Invariant(s) && Possible(s, step)
    ensures Invariant(Next(s, step))
    ensures s.history <= Next(s, step).history
  {
    match step {
      case People(_, _, human) =>
        var s' := Next(s, step);
        forall k | 0 <= k < |s'.memory| ensures GoodRow(s'.memory[k], s'.history) {
          var e :| 0 <= e < |s.history| && Records(s.history[e], s.memory[k]);
          assert Records(s'.history[e], s'.memory[k]);
        }
      case FromPlannerStep(id, t) => PlannerItemInvariant(s, id, t);
      case FromExcelStep(c, o) => CommandItemInvariant(s, c, o);
    }
  }

  /** Every reachable state satisfies the invariant. */
  lemma {:induction false} RunInvariant(states: seq<State>, steps: seq<Step>, k: nat)
    requires Run(states, steps) && k <= |steps|
    ensures Invariant(states[k])
  {
    hide PlannerItem, CommandItem, WithHuman, GoodRow;
    if k > 0 {
      RunInvariant(states, steps, k - 1);
      StepInvariant(states[k - 1], steps[k - 1]);
    }
  }

  /** The history only ever grows. */
  lemma {:induction false} HistoryGrows(states: seq<State>, steps: seq<Step>, j: nat, k: nat)
    requires Run(states, steps) && j <= k <= |steps|
    ensures states[j].history <= states[k].history
    decreases k - j
  {
    hide PlannerItem, CommandItem, WithHuman, GoodRow;
    if j < k {
      HistoryGrows(states, steps, j, k - 1);
      RunInvariant(states, steps, k - 1);
      StepInvariant(states[k - 1], steps[k - 1]);
    }
  }

  // ---------------------------------------------------------------- signatures identify task states

  /** The signature is injective as soon as ids, percentages and deadlines carry no bar, whatever the title holds. */
  lemma SignatureInjective(id: string, title: string, percent: string, due: string, id': string, title': string,
          percent': string, due': string)
    requires BarFree(id) && BarFree(id') && BarFree(percent) && BarFree(percent') && BarFree(due) && BarFree(due')
    requires Signature(id, title, percent, due) == Signature(id', title', percent', due')
    ensures id == id' && title == title' && percent == percent' && due == due'
  {
    SplitAtLastBar(id + "|" + title + "|" + percent, due, id' + "|" + title' + "|" + percent', due');
    SplitAtLastBar(id + "|" + title, percent, id' + "|" + title', percent');
    SplitAtFirstBar(id, title, id', title');
  }

  /** Two task states with one signature agree on every field, up to the defaults the flow substitutes for null. */
  lemma TaskSignatureInjective(id: string, t: Task, id': string, t': Task)
    requires BarFree(id) && BarFree(id') && BarFree(t.due.GetOr("")) && BarFree(t'.due.GetOr(""))
    requires TaskSignature(id, t) == TaskSignature(id', t')
    ensures id == id' && t.title.GetOr("") == t'.title.GetOr("")
            && t.percent.GetOr(0) == t'.percent.GetOr(0) && t.due.GetOr("") == t'.due.GetOr("")
  {
    var p, p' := t.percent.GetOr(0), t'.percent.GetOr(0);
    DecimalBarFree(p);
    DecimalBarFree(p');
    SignatureInjective(id, t.title.GetOr(""), Decimal(p), t.due.GetOr(""),
                       id', t'.title.GetOr(""), Decimal(p'), t'.due.GetOr(""));
    DecimalInjective(p, p');
  }

  /** A deadline with a bar is enough to lose injectivity. */
  lemma BarInDueBreaksInjectivity(id: string)
    ensures TaskSignature(id, Task(Some("a|0"), Some(0), Some("d"))) ==
            TaskSignature(id, Task(Some("a"), Some(0), Some("0|d")))
  {
    assert Decimal(0) == "0";
    assert Signature(id, "a|0", "0", "d") == Signature(id, "a", "0", "0|d");
  }

  // ---------------------------------------------------------------- no lost update

  /** When a command item changes Planner, its guard held on the row it names, and only its own task changed. */
  lemma WriteIsGuarded(s: State, c: Command, o: Outcome)
    requires Invariant(s)
    requires CommandItem(s, c, o).planner != s.planner
    ensures c.taskId in s.planner && IndexById(s.memory, c.memoryId) < |s.memory|
    ensures var row := s.memory[IndexById(s.memory, c.memoryId)];
            row.taskId == c.taskId && row.applied == TaskSignature(c.taskId, s.planner[c.taskId])
            && Recorded(s.history, row)
    ensures WholePercent(c).Some? &&
            CommandItem(s, c, o).planner == s.planner[c.taskId := WrittenTask(c, WholePercent(c).value)]
  {
    GuardMeansOwnTask(s, c);
  }

  /** An event of `history` carries this signature for this task, as something that was written to the memory. */
  ghost predicate Remembered(history: seq<Event>, taskId: string, signature: string) {
    exists k :: 0 <= k < |history| && history[k].taskId == taskId && history[k].signature == signature
                && history[k].tipo in {EventoCriada, EventoAtualizada, EventoPlannerAtualizado}
  }

  /**
   No lost update. In every run, the only flow step that changes Planner is a command item whose task still has the
   signature that the memory row last applied, and that signature is already in the history then and for ever after.
   */
  lemma {:induction false} NoLostUpdate(states: seq<State>, steps: seq<Step>, k: nat)
    requires Run(states, steps) && k < |steps|
    requires !steps[k].People? && states[k + 1].planner != states[k].planner
    ensures steps[k].FromExcelStep?
    ensures var s, c := states[k], steps[k].command;
            && c.taskId in s.planner
            && (exists i :: 0 <= i < |s.memory| && s.memory[i].memoryId == c.memoryId && s.memory[i].taskId == c.taskId
                            && s.memory[i].applied == TaskSignature(c.taskId, s.planner[c.taskId]))
            && (forall id :: id in s.planner && id != c.taskId ==>
                  id in states[k + 1].planner && states[k + 1].planner[id] == s.planner[id])
            && forall j :: k <= j <= |steps| ==>
                 Remembered(states[j].history, c.taskId, TaskSignature(c.taskId, s.planner[c.taskId]))
  {
    hide TaskSignature, CommandSignature;
    RunInvariant(states, steps, k);
    var s, step := states[k], steps[k];
    if step.FromPlannerStep? {
      PlannerItemKeepsPlanner(s, step.id, step.task);
    } else {
      WriteIsGuarded(s, step.command, step.outcome);
      var row := s.memory[IndexById(s.memory, step.command.memoryId)];
      var e :| 0 <= e < |s.history| && Records(s.history[e], row);
      forall j | k <= j <= |steps|
        ensures Remembered(states[j].history, step.command.taskId, row.applied)
      {
        HistoryGrows(states, steps, k, j);
        assert states[j].history[e] == s.history[e];
      }
    }
  }

  lemma PlannerItemKeepsPlanner(s: State, id: string, t: Task)
    ensures PlannerItem(s, id, t).planner == s.planner && PlannerItem(s, id, t).commands == s.commands
  {
  }

  /** All columns except the synchronisation status. */
  predicate SameContent(a: MemoryRow, b: MemoryRow) {
    a.(sync := b.sync) == b
  }

  /** A command that names a task other than its memory row's own never writes: no store but the marks changes. */
  lemma {:induction false} ForeignCommandIsInert(s: State, c: Command, o: Outcome)
    requires Invariant(s)
    requires IndexById(s.memory, c.memoryId) < |s.memory|
    requires s.memory[IndexById(s.memory, c.memoryId)].taskId != c.taskId
    ensures var s' := CommandItem(s, c, o);
            && s'.planner == s.planner && |s'.memory| == |s.memory| && |s'.commands| == |s.commands|
            && (forall k :: 0 <= k < |s.memory| ==> SameContent(s.memory[k], s'.memory[k]))
            && (forall k :: 0 <= k < |s.commands| ==> s'.commands[k].pending == s.commands[k].pending)
  {
    hide TaskSignature;
    if c.taskId in s.planner
       && s.memory[IndexById(s.memory, c.memoryId)].applied == TaskSignature(c.taskId, s.planner[c.taskId]) {
      GuardMeansOwnTask(s, c);
    }
  }
}
