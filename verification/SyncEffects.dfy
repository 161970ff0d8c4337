/**
 What one item of either flow writes, column by column, and what it never touches: the keys of a row, and the columns
 that people fill in.
 */
module SyncEffects {
  import opened Prelude
  import opened Text
  import opened SyncModel
  import opened SyncProtocol

  /** The signature is the four fields with bars between them, null fields under their defaults. */
  lemma SignatureText(id: string, t: Task, c: Command)
    ensures TaskSignature(id, t) ==
            JoinBars([id, t.title.GetOr(""), Decimal(t.percent.GetOr(0)), t.due.GetOr("")])
    ensures CommandSignature(c) ==
            JoinBars([c.taskId, c.titulo.GetOr(""), c.percentual.GetOr(WholeCell(0)).shown, c.prazo.GetOr("")])
  {
    FourFields(id, t.title.GetOr(""), Decimal(t.percent.GetOr(0)), t.due.GetOr(""));
    FourFields(c.taskId, c.titulo.GetOr(""), ShownPercent(c), c.prazo.GetOr(""));
  }

  lemma FourFields(a: string, b: string, c: string, d: string)
    ensures Signature(a, b, c, d) == JoinBars([a, b, c, d])
  {
    assert [a, b, c, d][1..] == [b, c, d] && [b, c, d][1..] == [c, d] && [c, d][1..] == [d];
    assert JoinBars([c, d]) == c + "|" + d;
    assert JoinBars([b, c, d]) == b + "|" + (c + "|" + d);
    assert JoinBars([a, b, c, d]) == a + "|" + (b + "|" + (c + "|" + d));
  }

  // ---------------------------------------------------------------- the Planner-to-Excel item

  ghost predicate Waits(commands: seq<Command>, id: string) {
    exists c :: c in commands && c.taskId == id && c.pending
  }

  lemma WaitsExactly(commands: seq<Command>, id: string)
    ensures HasPending(commands, id) <==> Waits(commands, id)
  {
    if HasPending(commands, id) {
      assert commands[IndexOfPending(commands, id)] in commands;
    }
  }

  /**
   A task whose signature was applied already is left alone. One that moved while a command waits marks its row CONFLITO
   and writes one event; every other column, of this and of every other row, stays.
   */
  lemma {:induction false} KnownTaskEffects(s: State, id: string, t: Task)
    requires Invariant(s) && IndexByTask(s.memory, id) < |s.memory|
    ensures var s', i, sig := PlannerItem(s, id, t), IndexByTask(s.memory, id), TaskSignature(id, t);
            && (s.memory[i].applied == sig ==> s' == s)
            && (s.memory[i].applied != sig && Waits(s.commands, id) ==>
                  && s'.planner == s.planner && s'.commands == s.commands
                  && s'.memory == s.memory[i := s.memory[i].(sync := Conflito)]
                  && s'.history == s.history + [Event(s.memory[i].memoryId, id, Some(s.memory[i].versao), FromPlanner,
                                                     EventoConflito, sig)])
  {
    hide TaskSignature;
    RowLookup(s, IndexByTask(s.memory, id));
    WaitsExactly(s.commands, id);
  }

  // ---------------------------------------------------------------- the Excel-to-Planner item

  /** Only the result and the detail of command `j` change. */
  ghost predicate Answered(before: seq<Command>, after: seq<Command>, j: nat, resultado: Resultado, detalhe: Detalhe)
    requires j <= |before|
  {
    after == if j == |before| then before
             else before[j := Command(before[j].memoryId, before[j].taskId, before[j].titulo, before[j].percentual,
                                      before[j].prazo, before[j].pending, resultado, detalhe)]
  }

  /** Only the synchronisation status of row `i` changes. */
  ghost predicate Marked(before: seq<MemoryRow>, after: seq<MemoryRow>, i: nat, status: SyncStatus)
    requires i < |before|
  {
    after == before[i := before[i].(sync := status)]
  }

  ghost predicate GuardHolds(s: State, c: Command) {
    && c.taskId in s.planner && IndexById(s.memory, c.memoryId) < |s.memory|
    && s.memory[IndexById(s.memory, c.memoryId)].applied == TaskSignature(c.taskId, s.planner[c.taskId])
  }

  /**
   A command whose guard does not hold never reaches Planner. A task that is gone, or a conflict whose command row is
   gone, changes nothing; a missing memory row and a conflict are answered on the command row, and a conflict also marks
   the memory row and writes one event without a version.
   */
  lemma {:induction false} BlockedCommandEffects(s: State, c: Command, o: Outcome)
    requires !GuardHolds(s, c)
    ensures var s', i, j := CommandItem(s, c, o), IndexById(s.memory, c.memoryId), IndexOfCommand(s.commands, c.memoryId);
            && s'.planner == s.planner
            && (c.taskId !in s.planner || (i < |s.memory| && j == |s.commands|) ==> s' == s)
            && (c.taskId in s.planner && i == |s.memory| ==>
                  && s'.memory == s.memory && s'.history == s.history
                  && Answered(s.commands, s'.commands, j, ComandoErro, MemoriaNaoEncontrada))
            && (c.taskId in s.planner && i < |s.memory| && j < |s.commands| ==>
                  && Marked(s.memory, s'.memory, i, Conflito)
                  && Answered(s.commands, s'.commands, j, ComandoConflito, PlannerMudou)
                  && s'.history == s.history + [Event(c.memoryId, c.taskId, None, FromExcel, EventoConflito,
                                                     TaskSignature(c.taskId, s.planner[c.taskId]))])
  {
    hide TaskSignature;
  }

  /** What Planner holds after a command whose percentage is the integer `n`: no deadline when the cell is empty. */
  function Requested(c: Command, n: int): Task {
    Task(c.titulo, Some(n), if c.prazo == None || c.prazo == Some("") then None else c.prazo)
  }

  /** The percentage a command asks for: 0 for an empty cell, `None` for one that is no integer. */
  function RequestedPercent(c: Command): Option<int> {
    match c.percentual
    case None => Some(0)
    case Some(cell) => cell.whole
  }

  /**
   A command whose guard holds. Planner changes exactly when the percentage is an integer and the call took effect, and
   then in this one task. An acknowledged call clears the request, copies title, percentage and deadline into the row
   and applies their signature, leaving the version, the status column and the human columns; without its command row it
   leaves the row PENDENTE. Any other outcome marks the row and the command ERRO and keeps the request.
   */
  lemma {:induction false} GuardedCommandEffects(s: State, c: Command, o: Outcome)
    requires GuardHolds(s, c)
    ensures var s', i, j := CommandItem(s, c, o), IndexById(s.memory, c.memoryId), IndexOfCommand(s.commands, c.memoryId);
            var percent, row, sig := RequestedPercent(c), s.memory[i], CommandSignature(c);
            && s'.planner == (if percent.Some? && (o == Acknowledged || o.landed)
                              then s.planner[c.taskId := Requested(c, percent.value)] else s.planner)
            && (percent.Some? && o == Acknowledged && j < |s.commands| ==>
                  && s'.memory == s.memory[i := MemoryRow(row.memoryId, row.taskId, row.human, c.titulo, row.status,
                                                          c.percentual, c.prazo, row.versao, sig, Sincronizado, sig)]
                  && s'.commands == s.commands[j := s.commands[j].(pending := false, resultado := ComandoSincronizado,
                                                                   detalhe := SemDetalhe)]
                  && s'.history == s.history + [Event(c.memoryId, c.taskId, None, FromExcel, EventoPlannerAtualizado,
                                                     sig)])
            && (percent.Some? && o == Acknowledged && j == |s.commands| ==>
                  && Marked(s.memory, s'.memory, i, Pendente) && s'.commands == s.commands && s'.history == s.history)
            && (!(percent.Some? && o == Acknowledged) ==>
                  && Marked(s.memory, s'.memory, i, Erro) && s'.history == s.history
                  && Answered(s.commands, s'.commands, j, ComandoErro, FalhaAoAtualizar))
  {
    hide TaskSignature, CommandSignature;
  }

  // ---------------------------------------------------------------- what no flow writes

  /** Rows keep their place, their key and their task. */
  ghost predicate KeysKept(before: seq<MemoryRow>, after: seq<MemoryRow>) {
    && |before| <= |after|
    && forall k :: 0 <= k < |before| ==> after[k].memoryId == before[k].memoryId && after[k].taskId == before[k].taskId
  }

  ghost predicate HumanKept(before: seq<MemoryRow>, after: seq<MemoryRow>) {
    |before| <= |after| && forall k :: 0 <= k < |before| ==> after[k].human == before[k].human
  }

  lemma {:induction false} PlannerItemKeepsHuman(s: State, id: string, t: Task)
    ensures var s' := PlannerItem(s, id, t); KeysKept(s.memory, s'.memory) && HumanKept(s.memory, s'.memory)
  {
    hide TaskSignature, HasPending;
  }

  lemma {:induction false} CommandItemKeepsHuman(s: State, c: Command, o: Outcome)
    ensures var s' := CommandItem(s, c, o); KeysKept(s.memory, s'.memory) && HumanKept(s.memory, s'.memory)
  {
    hide TaskSignature, CommandSignature, CommandItem, Answered;
    if GuardHolds(s, c) {
      GuardedCommandEffects(s, c, o);
    } else {
      BlockedCommandEffects(s, c, o);
    }
  }

  /** One step of the flows keeps every existing row's keys and human columns; people never change the keys. */
  lemma {:induction false} StepKeepsKeys(s: State, step: Step)
    requires Possible(s, step)
    ensures KeysKept(s.memory, Next(s, step).memory)
    ensures !step.People? ==> HumanKept(s.memory, Next(s, step).memory)
  {
    hide PlannerItem, CommandItem;
    match step {
      case People(_, _, _) =>
      case FromPlannerStep(id, t) => PlannerItemKeepsHuman(s, id, t);
      case FromExcelStep(c, o) => CommandItemKeepsHuman(s, c, o);
    }
  }

  /** In every run the rows keep their keys, and between two edits by people the flows leave every human column alone. */
  lemma {:induction false} HumanColumnsAreSafe(states: seq<State>, steps: seq<Step>, j: nat, k: nat)
    requires Run(states, steps) && j <= k <= |steps|
    ensures KeysKept(states[j].memory, states[k].memory)
    ensures (forall n :: j <= n < k ==> !steps[n].People?) ==>
              HumanKept(states[j].memory, states[k].memory)
    decreases k - j
  {
    hide Start, PlannerItem, CommandItem, WithHuman;
    if j < k {
      HumanColumnsAreSafe(states, steps, j, k - 1);
      StepKeepsKeys(states[k - 1], steps[k - 1]);
      assert states[k] == Next(states[k - 1], steps[k - 1]);
    }
  }
}
