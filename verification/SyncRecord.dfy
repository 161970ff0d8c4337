/**
 What the memory and the history say of each other in every run: the stored columns spell the applied signature, and
 replaying the events of a row gives its version and its applied signature.
 */
module SyncRecord {
  import opened Prelude
  import opened Text
  import opened SyncModel
  import opened SyncProtocol

  /** What the history alone tells of a row. */
  datatype Account = Account(versao: int, applied: string)

  function AfterEvent(a: Account, memoryId: string, e: Event): Account {
    if e.memoryId != memoryId then a
    else
      match e.tipo
      case EventoCriada => Account(1, e.signature)
      case EventoAtualizada => Account(a.versao + 1, e.signature)
      case EventoPlannerAtualizado => Account(a.versao, e.signature)
      case EventoConflito => a
  }

  function Replay(history: seq<Event>, memoryId: string): Account {
    if history == [] then Account(0, "")
    else AfterEvent(Replay(history[..|history| - 1], memoryId), memoryId, history[|history| - 1])
  }

  function ShownCell(p: Option<Cell>): string {
    if p.Some? then p.value.shown else Decimal(0)
  }

  /** The applied signature is that of the stored columns. */
  predicate Spelled(row: MemoryRow) {
    && row.applied == Signature(row.taskId, row.titulo.GetOr(""), ShownCell(row.percentual), row.prazo.GetOr(""))
    && row.contentHash == row.applied
  }

  predicate Accounted(row: MemoryRow, history: seq<Event>) {
    Spelled(row) && Replay(history, row.memoryId) == Account(row.versao, row.applied)
  }

  ghost predicate Faithful(s: State) {
    forall k :: 0 <= k < |s.memory| ==> Accounted(s.memory[k], s.history)
  }

  lemma ReplayMore(history: seq<Event>, e: Event, memoryId: string)
    ensures Replay(history + [e], memoryId) == AfterEvent(Replay(history, memoryId), memoryId, e)
  {
    assert (history + [e])[..|history|] == history;
  }

  /** An event about another row, or a conflict, leaves a row accounted for. */
  lemma OtherEvent(row: MemoryRow, history: seq<Event>, e: Event)
    requires Accounted(row, history) && (e.memoryId != row.memoryId || e.tipo == EventoConflito)
    ensures Accounted(row, history + [e])
  {
    ReplayMore(history, e, row.memoryId);
  }

  /** One row is patched and at most one event, about that row, is appended. */
  lemma {:induction false} PatchStaysFaithful(s: State, t: State, i: nat, row: MemoryRow, more: seq<Event>)
    requires Invariant(s) && Faithful(s) && i < |s.memory| && |more| <= 1
    requires t.memory == s.memory[i := row] && t.history == s.history + more
    requires Accounted(row, t.history)
    requires forall e :: e in more ==> e.memoryId == s.memory[i].memoryId
    ensures Faithful(t)
  {
    hide Spelled, Replay, Invariant;
    forall k | 0 <= k < |t.memory| ensures Accounted(t.memory[k], t.history) {
      if k != i {
        if more == [] {
          assert t.history == s.history;
        } else {
          MemoryIdsDistinct(s, i, k);
          assert more == [more[0]] && more[0] in more;
          OtherEvent(s.memory[k], s.history, more[0]);
        }
      }
    }
  }

  /** A mark changes neither the columns nor the account. */
  lemma {:induction false} MarkStaysFaithful(s: State, t: State, key: string, status: SyncStatus, more: seq<Event>)
    requires Invariant(s) && Faithful(s) && |more| <= 1
    requires t.memory == PatchMemory(s.memory, key, SetSync(status)) && t.history == s.history + more
    requires forall e :: e in more ==> e.memoryId == key && e.tipo == EventoConflito
    requires IndexById(s.memory, key) < |s.memory|
    ensures Faithful(t)
  {
    hide Replay, Invariant, Signature;
    var i := IndexById(s.memory, key);
    var row := PatchRow(s.memory[i], SetSync(status));
    if more == [] {
      assert t.history == s.history;
    } else {
      assert more == [more[0]] && more[0] in more;
      OtherEvent(s.memory[i], s.history, more[0]);
    }
    assert Accounted(row, t.history);
    PatchStaysFaithful(s, t, i, row, more);
  }

  lemma {:induction false} CreateStaysFaithful(s: State, id: string, t: Task)
    requires Invariant(s) && Faithful(s) && IndexByTask(s.memory, id) == |s.memory|
    ensures Faithful(CreateItem(s, id, t, TaskSignature(id, t)))
  {
    hide Replay, Decimal, Signature;
    var sig := TaskSignature(id, t);
    var e := Event(MemoryIdOf(id), id, Some(1), FromPlanner, EventoCriada, sig);
    var s' := CreateItem(s, id, t, sig);
    forall k | 0 <= k < |s'.memory| ensures Accounted(s'.memory[k], s'.history) {
      if k < |s.memory| {
        assert s.memory[k].taskId == s.memory[k].memoryId[|MemoryIdOf("")|..] && id == e.memoryId[|MemoryIdOf("")|..];
        OtherEvent(s.memory[k], s.history, e);
      } else {
        ReplayMore(s.history, e, MemoryIdOf(id));
      }
    }
  }

  lemma {:induction false} RefreshStaysFaithful(s: State, id: string, t: Task)
    requires Invariant(s) && Faithful(s) && IndexByTask(s.memory, id) < |s.memory|
    ensures Faithful(RefreshItem(s, id, t, s.memory[IndexByTask(s.memory, id)], TaskSignature(id, t)))
  {
    hide Replay, Decimal, Signature, Invariant;
    var i, sig := IndexByTask(s.memory, id), TaskSignature(id, t);
    var row := s.memory[i];
    RowLookup(s, i);
    var e := Event(row.memoryId, id, Some(row.versao + 1), FromPlanner, EventoAtualizada, sig);
    ReplayMore(s.history, e, row.memoryId);
    assert Accounted(row, s.history);
    PatchStaysFaithful(s, RefreshItem(s, id, t, row, sig), i, PatchRow(row, CopyTask(t, row.versao + 1, sig)), [e]);
  }

  lemma {:induction false} PlannerItemFaithful(s: State, id: string, t: Task)
    requires Invariant(s) && Faithful(s)
    ensures Faithful(PlannerItem(s, id, t))
  {
    hide TaskSignature, Faithful, Invariant, RefreshItem, CreateItem, Replay, PatchMemory, PatchRow;
    var i, sig := IndexByTask(s.memory, id), TaskSignature(id, t);
    if i == |s.memory| {
      CreateStaysFaithful(s, id, t);
    } else if s.memory[i].applied != sig {
      if HasPending(s.commands, id) {
        var row := s.memory[i];
        RowLookup(s, i);
        var e := Event(row.memoryId, id, Some(row.versao), FromPlanner, EventoConflito, sig);
        MarkStaysFaithful(s, PreserveItem(s, id, row, sig), row.memoryId, Conflito, [e]);
      } else {
        RefreshStaysFaithful(s, id, t);
      }
    }
  }

  lemma {:induction false} SuccessStaysFaithful(s: State, t: State, c: Command)
    requires Invariant(s) && Faithful(s) && IndexById(s.memory, c.memoryId) < |s.memory|
    requires s.memory[IndexById(s.memory, c.memoryId)].taskId == c.taskId
    requires t.memory == PatchMemory(s.memory, c.memoryId, CopyCommand(c, CommandSignature(c)))
    requires t.history == s.history + [Event(c.memoryId, c.taskId, None, FromExcel, EventoPlannerAtualizado,
                                             CommandSignature(c))]
    ensures Faithful(t)
  {
    hide Replay, Decimal, Signature, Invariant;
    var i, sig := IndexById(s.memory, c.memoryId), CommandSignature(c);
    var e := Event(c.memoryId, c.taskId, None, FromExcel, EventoPlannerAtualizado, sig);
    ReplayMore(s.history, e, c.memoryId);
    assert Accounted(s.memory[i], s.history);
    PatchStaysFaithful(s, t, i, PatchRow(s.memory[i], CopyCommand(c, sig)), [e]);
  }

  lemma {:induction false} CommandItemFaithful(s: State, c: Command, o: Outcome)
    requires Invariant(s) && Faithful(s)
    ensures Faithful(CommandItem(s, c, o))
  {
    hide TaskSignature, CommandSignature, Invariant, Replay, PatchMemory, PatchCommand, Accounted, WrittenTask;
    var s', i := CommandItem(s, c, o), IndexById(s.memory, c.memoryId);
    if c.taskId in s.planner && i < |s.memory| {
      var current := TaskSignature(c.taskId, s.planner[c.taskId]);
      if s.memory[i].applied != current {
        if IndexOfCommand(s.commands, c.memoryId) < |s.commands| {
          MarkStaysFaithful(s, s', c.memoryId, Conflito,
                            [Event(c.memoryId, c.taskId, None, FromExcel, EventoConflito, current)]);
        }
      } else {
        GuardMeansOwnTask(s, c);
        if WholePercent(c).None? || !o.Acknowledged? {
          MarkStaysFaithful(s, s', c.memoryId, Erro, []);
        } else if IndexOfCommand(s.commands, c.memoryId) == |s.commands| {
          MarkStaysFaithful(s, s', c.memoryId, Pendente, []);
        } else {
          SuccessStaysFaithful(s, s', c);
        }
      }
    }
  }

  /** Every step keeps memory and history in agreement. */
  lemma {:induction false} StepFaithful(s: State, step: Step)
    requires Invariant(s) && Faithful(s) && Possible(s, step)
    ensures Faithful(Next(s, step))
  {
    hide PlannerItem, CommandItem, Invariant, Replay;
    match step {
      case People(_, _, human) =>
        assert forall k :: 0 <= k < |s.memory| ==> Accounted(s.memory[k], s.history);
      case FromPlannerStep(id, t) => PlannerItemFaithful(s, id, t);
      case FromExcelStep(c, o) => CommandItemFaithful(s, c, o);
    }
  }

  /** In every run the stored columns spell the applied signature, and the history replays to every row. */
  lemma {:induction false} HistoryReplaysMemory(states: seq<State>, steps: seq<Step>, n: nat)
    requires Run(states, steps) && n <= |steps|
    ensures forall k :: 0 <= k < |states[n].memory| ==>
              var row := states[n].memory[k];
              Spelled(row) && Replay(states[n].history, row.memoryId) == Account(row.versao, row.applied)
  {
    RunFaithful(states, steps, n);
  }

  lemma {:induction false} RunFaithful(states: seq<State>, steps: seq<Step>, n: nat)
    requires Run(states, steps) && n <= |steps|
    ensures Faithful(states[n])
  {
    hide PlannerItem, CommandItem, Invariant, Accounted, WithHuman;
    if n > 0 {
      RunFaithful(states, steps, n - 1);
      RunInvariant(states, steps, n - 1);
      StepFaithful(states[n - 1], steps[n - 1]);
    }
  }

  /** A row that applied the present state of a task shows that state in its columns. */
  lemma SyncedRowShowsTask(row: MemoryRow, id: string, t: Task)
    requires Spelled(row) && row.applied == TaskSignature(id, t)
    requires BarFree(row.taskId) && BarFree(row.prazo.GetOr("")) && BarFree(ShownCell(row.percentual))
    requires BarFree(id) && BarFree(t.due.GetOr(""))
    ensures row.taskId == id && row.titulo.GetOr("") == t.title.GetOr("") && row.prazo.GetOr("") == t.due.GetOr("")
            && ShownCell(row.percentual) == Decimal(t.percent.GetOr(0))
  {
    DecimalBarFree(t.percent.GetOr(0));
    SignatureInjective(row.taskId, row.titulo.GetOr(""), ShownCell(row.percentual), row.prazo.GetOr(""),
                       id, t.title.GetOr(""), Decimal(t.percent.GetOr(0)), t.due.GetOr(""));
  }

  /** The Planner columns of a row are those of a task. */
  predicate ShowsTask(row: MemoryRow, t: Task) {
    && row.titulo == t.title && row.prazo == t.due
    && (row.status == Concluida <==> t.percent == Some(100))
    && (row.percentual.None? <==> t.percent.None?) && (row.percentual.Some? ==> row.percentual.value.whole == t.percent)
  }

  /**
   A task that is new, or that moved while no command waits for it, is copied into its row under the next version, with
   one event that states that version; no other row, and no human column of an existing row, is touched.
   */
  lemma {:induction false} CopyShowsTask(s: State, id: string, t: Task)
    requires Invariant(s) && BarFree(id)
    requires IndexByTask(s.memory, id) < |s.memory|
        ==> s.memory[IndexByTask(s.memory, id)].applied != TaskSignature(id, t) && !HasPending(s.commands, id)
    ensures var s', i := PlannerItem(s, id, t), IndexByTask(s.memory, id);
            && |s'.memory| == (if i < |s.memory| then |s.memory| else i + 1) && ShowsTask(s'.memory[i], t)
            && s'.memory[i].taskId == id && s'.memory[i].sync == Sincronizado
            && s'.memory[i].versao == (if i < |s.memory| then s.memory[i].versao + 1 else 1)
            && s'.memory[i].memoryId == (if i < |s.memory| then s.memory[i].memoryId else "planner-" + id)
            && s'.memory[i].human == (if i < |s.memory| then s.memory[i].human
                                      else Human(t.title, "", "", "", "", "", "", "", "ativa"))
            && (forall k :: 0 <= k < |s.memory| && k != i ==> s'.memory[k] == s.memory[k])
            && s'.planner == s.planner && s'.commands == s.commands
            && s'.memory[i].applied == TaskSignature(id, t) && s'.memory[i].contentHash == TaskSignature(id, t)
            && s.history <= s'.history && |s'.history| == |s.history| + 1
            && var e := s'.history[|s.history|];
               e.memoryId == s'.memory[i].memoryId && e.taskId == id && e.versao == Some(s'.memory[i].versao)
               && e.signature == TaskSignature(id, t) && e.origem == FromPlanner
               && e.tipo == (if i < |s.memory| then EventoAtualizada else EventoCriada)
  {
    hide TaskSignature, Decimal;
    var i := IndexByTask(s.memory, id);
    if i < |s.memory| {
      RowLookup(s, i);
    }
  }
}
