/**
 The flow definitions as data: named actions with the host they call, their nested branches and their `runAfter`
 edges; an interpreter that runs the actions of one Foreach item; and the definition checker.
 */
module FlowActions {
  import opened Prelude
  import opened Text
  import opened SyncModel

  datatype Name =
    | ListarTarefas | ParaCadaTarefa | ListarComandos | ParaCadaComando
    | BuscarMemoria | BuscarComandoPendente | AssinaturaPlanner | CriarOuAtualizar
    | CriarMemoria | HistoricoCriacao | SeEstadoMudou | ExisteComandoPendente
    | MarcarConflito | HistoricoConflito | AtualizarMemoria | HistoricoAtualizacao
    | RelerTarefa | AssinaturaAtual | AssinaturaDesejada | ValidarMemoria | AplicarSomenteSemConflito
    | MarcarComandoErroMemoria | MarcarMemoriaPendente | AtualizarPlanner | FinalizarComando | FinalizarMemoria
    | HistoricoSucesso | MarcarMemoriaErro | MarcarComandoErro | MarcarComandoConflito | MarcarMemoriaConflito
    | ListarMemoria | FiltrarProblemas | ValidarSaude | FalharVisivelmente | SaudeOk

  datatype Status = Succeeded | Failed | TimedOut | Skipped

  datatype VersionCell = FirstVersion | SameVersion | NextVersion | NoVersion

  datatype MemoryFields = Mark(status: SyncStatus) | TaskFields | CommandFields

  datatype SignatureSource = CurrentSignature | DesiredSignature

  /** The `runAfter` object of an action: empty, or one predecessor and the statuses that release the action. */
  datatype Dependency = AtOnce | On(name: Name, statuses: set<Status>)

  /** What an action computes or asks a connector to do. */
  datatype Op =
    | ListRows
    | FindMemoryByTask | FindMemoryById | FindPending | ReadTask
    | ComposeListed | ComposeReread | ComposeDesired
    | AddMemory
    | PatchMemoryRow(fields: MemoryFields)
    | PatchCommandRow(patch: CommandPatch)
    | UpdateTask
    | AddEvent(origem: Origem, tipo: Tipo, versao: VersionCell, source: SignatureSource)

  datatype Condition = MemoryMissing | MemoryFound | StateChanged | PendingFound | NoConflict | ProblemsFound

  datatype Body =
    | OpenApi(apiId: string, operationId: string, op: Op)
    | Compose(value: Op)
    | If(condition: Condition, yes: Actions, no: Actions)
    | Foreach(each: Actions)
    | Query
    | Terminate

  datatype Action = Action(name: Name, body: Body, runAfter: Dependency)

  /** The ordered entries of an `actions` object. */
  datatype Actions = End | Then(head: Action, tail: Actions)

  const PLANNER_API := "/providers/Microsoft.PowerApps/apis/shared_planner"
  const EXCEL_API := "/providers/Microsoft.PowerApps/apis/shared_excelonlinebusiness"

  function Excel(name: Name, operation: string, op: Op, runAfter: Dependency): Action {
    Action(name, OpenApi(EXCEL_API, operation, op), runAfter)
  }

  function Planner(name: Name, operation: string, op: Op, runAfter: Dependency): Action {
    Action(name, OpenApi(PLANNER_API, operation, op), runAfter)
  }

  function After(name: Name): Dependency { On(name, {Succeeded}) }

  function Two(a: Action, b: Action): Actions { Then(a, Then(b, End)) }

  // ---------------------------------------------------------------- the three definitions

  function CreateBranch(): Actions {
    Two(
      Excel(CriarMemoria, "AddRowV2", AddMemory, AtOnce),
      Excel(HistoricoCriacao, "AddRowV2", AddEvent(FromPlanner, EventoCriada, FirstVersion, CurrentSignature),
            After(CriarMemoria)))
  }

  function PendingBranch(): Actions {
    Two(
      Excel(MarcarConflito, "PatchItem", PatchMemoryRow(Mark(Conflito)), AtOnce),
      Excel(HistoricoConflito, "AddRowV2", AddEvent(FromPlanner, EventoConflito, SameVersion, CurrentSignature),
            After(MarcarConflito)))
  }

  function RefreshBranch(): Actions {
    Two(
      Excel(AtualizarMemoria, "PatchItem", PatchMemoryRow(TaskFields), AtOnce),
      Excel(HistoricoAtualizacao, "AddRowV2", AddEvent(FromPlanner, EventoAtualizada, NextVersion, CurrentSignature),
            After(AtualizarMemoria)))
  }

  function ChangedBranch(): Actions {
    Then(Action(SeEstadoMudou,
                If(StateChanged,
                   Then(Action(ExisteComandoPendente, If(PendingFound, PendingBranch(), RefreshBranch()), AtOnce), End),
                   End),
                AtOnce),
         End)
  }

  /** The Foreach body of fluxo_planner_para_excel. */
  function PlannerBody(): Actions {
    Then(Excel(BuscarMemoria, "GetItems", FindMemoryByTask, AtOnce),
         Then(Excel(BuscarComandoPendente, "GetItems", FindPending, After(BuscarMemoria)),
              Two(Action(AssinaturaPlanner, Compose(ComposeListed), After(BuscarComandoPendente)),
                  Action(CriarOuAtualizar, If(MemoryMissing, CreateBranch(), ChangedBranch()),
                         After(AssinaturaPlanner)))))
  }

  function ApplyBranch(): Actions {
    Then(Excel(MarcarMemoriaPendente, "PatchItem", PatchMemoryRow(Mark(Pendente)), AtOnce),
         Then(Planner(AtualizarPlanner, "UpdateTask_V2", UpdateTask, After(MarcarMemoriaPendente)),
              SettleBranch()))
  }

  /** The actions that wait for Atualizar_Planner: three on success, two on failure or time-out. */
  function SettleBranch(): Actions {
    Then(Excel(FinalizarComando, "PatchItem", PatchCommandRow(Clear), After(AtualizarPlanner)),
         Then(Excel(FinalizarMemoria, "PatchItem", PatchMemoryRow(CommandFields), After(FinalizarComando)),
              Then(Excel(HistoricoSucesso, "AddRowV2",
                         AddEvent(FromExcel, EventoPlannerAtualizado, NoVersion, DesiredSignature),
                         After(FinalizarMemoria)),
                   ErrorBranch())))
  }

  function ErrorBranch(): Actions {
    Two(Excel(MarcarMemoriaErro, "PatchItem", PatchMemoryRow(Mark(Erro)),
              On(AtualizarPlanner, {Failed, TimedOut})),
        Excel(MarcarComandoErro, "PatchItem", PatchCommandRow(SetResult(ComandoErro, FalhaAoAtualizar)),
              After(MarcarMemoriaErro)))
  }

  function ConflictBranch(): Actions {
    Then(Excel(MarcarComandoConflito, "PatchItem", PatchCommandRow(SetResult(ComandoConflito, PlannerMudou)), AtOnce),
         Two(Excel(MarcarMemoriaConflito, "PatchItem", PatchMemoryRow(Mark(Conflito)), After(MarcarComandoConflito)),
             Excel(HistoricoConflito, "AddRowV2", AddEvent(FromExcel, EventoConflito, NoVersion, CurrentSignature),
                   After(MarcarMemoriaConflito))))
  }

  function FoundBranch(): Actions {
    Then(Action(AplicarSomenteSemConflito, If(NoConflict, ApplyBranch(), ConflictBranch()), After(AssinaturaDesejada)),
         End)
  }

  function MissingBranch(): Actions {
    Then(Excel(MarcarComandoErroMemoria, "PatchItem", PatchCommandRow(SetResult(ComandoErro, MemoriaNaoEncontrada)),
               AtOnce),
         End)
  }

  /** The Foreach body of fluxo_excel_para_planner. */
  function CommandBody(): Actions {
    Then(Excel(BuscarMemoria, "GetItems", FindMemoryById, AtOnce),
         Then(Planner(RelerTarefa, "GetTask_V2", ReadTask, After(BuscarMemoria)),
              Then(Action(AssinaturaAtual, Compose(ComposeReread), After(RelerTarefa)),
                   Two(Action(AssinaturaDesejada, Compose(ComposeDesired), After(AssinaturaAtual)),
                       Action(ValidarMemoria, If(MemoryFound, FoundBranch(), MissingBranch()),
                              After(AssinaturaDesejada))))))
  }

  function PlannerFlow(): Actions {
    Two(Planner(ListarTarefas, "ListTasks_V3", ListRows, AtOnce),
        Action(ParaCadaTarefa, Foreach(PlannerBody()), After(ListarTarefas)))
  }

  function CommandFlow(): Actions {
    Two(Excel(ListarComandos, "GetItems", ListRows, AtOnce),
        Action(ParaCadaComando, Foreach(CommandBody()), After(ListarComandos)))
  }

  function HealthCheck(): Action {
    Action(ValidarSaude,
           If(ProblemsFound,
              Then(Action(FalharVisivelmente, Terminate, AtOnce), End),
              Then(Action(SaudeOk, Compose(ListRows), AtOnce), End)),
           After(FiltrarProblemas))
  }

  function HealthFlow(): Actions {
    Then(Excel(ListarMemoria, "GetItems", ListRows, AtOnce),
         Two(Action(FiltrarProblemas, Query, After(ListarMemoria)), HealthCheck()))
  }

  // ---------------------------------------------------------------- interpreter

  datatype Item = Listed(id: string, task: Task) | Commanded(command: Command, outcome: Outcome)

  /** What the actions of one item can see of each other: outputs, and the statuses that `runAfter` reads. */
  datatype Scope = Scope(found: seq<MemoryRow>, pendingFound: seq<Command>, reread: Option<Task>,
                         signature: string, desired: string, status: map<Name, Status>)

  const FreshScope := Scope([], [], None, "", "", map[])

  datatype World = World(state: State, scope: Scope)

  predicate Ready(runAfter: Dependency, status: map<Name, Status>) {
    runAfter.On? ==> runAfter.name in status && status[runAfter.name] in runAfter.statuses
  }

  function MemoryKey(item: Item, scope: Scope): string {
    if item.Commanded? then item.command.memoryId
    else if scope.found == [] then MemoryIdOf(item.id)
    else scope.found[0].memoryId
  }

  function ItemTask(item: Item): string {
    if item.Commanded? then item.command.taskId else item.id
  }

  function FoundVersion(scope: Scope): int {
    if scope.found == [] then 0 else scope.found[0].versao
  }

  function VersionOf(v: VersionCell, scope: Scope): Option<int> {
    match v
    case FirstVersion => Some(1)
    case SameVersion => Some(FoundVersion(scope))
    case NextVersion => Some(FoundVersion(scope) + 1)
    case NoVersion => None
  }

  function SourceOf(source: SignatureSource, scope: Scope): string {
    if source.CurrentSignature? then scope.signature else scope.desired
  }

  function Resolve(fields: MemoryFields, item: Item, scope: Scope): Option<MemoryPatch> {
    match fields
    case Mark(status) => Some(SetSync(status))
    case TaskFields =>
      if item.Listed? then Some(CopyTask(item.task, FoundVersion(scope) + 1, scope.signature)) else None
    case CommandFields => if item.Commanded? then Some(CopyCommand(item.command, scope.desired)) else None
  }

  function OutcomeStatus(o: Outcome): Status {
    match o
    case Acknowledged => Succeeded
    case Rejected(_) => Failed
    case Expired(_) => TimedOut
  }

  /** The effect of one operation and the status it ends with. PatchItem fails when no row carries the key. */
  function Exec(op: Op, item: Item, w: World): (World, Status) {
    var s, scope := w.state, w.scope;
    match op
    case ListRows => (w, Succeeded)
    case FindMemoryByTask =>
      (w.(scope := scope.(found := TopOne(s.memory, IndexByTask(s.memory, ItemTask(item))))), Succeeded)
    case FindMemoryById =>
      (w.(scope := scope.(found := TopOne(s.memory, IndexById(s.memory, MemoryKey(item, scope))))), Succeeded)
    case FindPending =>
      (w.(scope := scope.(pendingFound := TopOne(s.commands, IndexOfPending(s.commands, ItemTask(item))))), Succeeded)
    case ReadTask =>
      if ItemTask(item) in s.planner
      then (w.(scope := scope.(reread := Some(s.planner[ItemTask(item)]))), Succeeded)
      else (w, Failed)
    case ComposeListed =>
      if item.Listed? then (w.(scope := scope.(signature := TaskSignature(item.id, item.task))), Succeeded)
      else (w, Failed)
    case ComposeReread =>
      if scope.reread.Some?
      then (w.(scope := scope.(signature := TaskSignature(ItemTask(item), scope.reread.value))), Succeeded)
      else (w, Failed)
    case ComposeDesired =>
      if item.Commanded? then (w.(scope := scope.(desired := CommandSignature(item.command))), Succeeded)
      else (w, Failed)
    case AddMemory =>
      if item.Listed?
      then (w.(state := s.(memory := s.memory + [NewRow(item.id, item.task, scope.signature)])), Succeeded)
      else (w, Failed)
    case PatchMemoryRow(fields) =>
      var key, patch := MemoryKey(item, scope), Resolve(fields, item, scope);
      if patch.Some? && IndexById(s.memory, key) < |s.memory|
      then (w.(state := s.(memory := PatchMemory(s.memory, key, patch.value))), Succeeded)
      else (w, Failed)
    case PatchCommandRow(patch) =>
      var key := MemoryKey(item, scope);
      if IndexOfCommand(s.commands, key) < |s.commands|
      then (w.(state := s.(commands := PatchCommand(s.commands, key, patch))), Succeeded)
      else (w, Failed)
    case UpdateTask =>
      if item.Commanded?
      then (w.(state := s.(planner := PlannerAfter(s.planner, item.command, item.outcome))),
            if WholePercent(item.command).Some? then OutcomeStatus(item.outcome) else Failed)
      else (w, Failed)
    case AddEvent(origem, tipo, versao, source) =>
      var event := Event(MemoryKey(item, scope), ItemTask(item), VersionOf(versao, scope), origem, tipo,
                         SourceOf(source, scope));
      (w.(state := s.(history := s.history + [event])), Succeeded)
  }

  predicate Holds(condition: Condition, w: World) {
    match condition
    case MemoryMissing => w.scope.found == []
    case MemoryFound => w.scope.found != []
    case StateChanged => w.scope.found == [] || w.scope.found[0].applied != w.scope.signature
    case PendingFound => w.scope.pendingFound != []
    case NoConflict => w.scope.found != [] && w.scope.found[0].applied == w.scope.signature
    case ProblemsFound => HealthFails(w.state.memory)
  }

  function Record(w: World, name: Name, status: Status): World {
    w.(scope := w.scope.(status := w.scope.status[name := status]))
  }

  /** Run one action: skip it unless its `runAfter` is satisfied, otherwise execute it or the branch it selects. */
  function RunAction(a: Action, item: Item, w: World): World
    decreases a, 1
  {
    if !Ready(a.runAfter, w.scope.status) then Record(w, a.name, Skipped)
    else
      match a.body
      case OpenApi(_, _, op) => var (after, status) := Exec(op, item, w); Record(after, a.name, status)
      case Compose(op) => var (after, status) := Exec(op, item, w); Record(after, a.name, status)
      case If(condition, yes, no) => if Holds(condition, w) then RunActions(yes, item, w) else RunActions(no, item, w)
      case Query => Record(w, a.name, Succeeded)
      case _ => w
  }

  function RunActions(actions: Actions, item: Item, w: World): World
    decreases actions, 0
  {
    match actions
    case End => w
    case Then(a, rest) => RunActions(rest, item, RunAction(a, item, w))
  }

  /** One Foreach item: the body runs in a fresh scope. */
  function RunItem(body: Actions, item: Item, s: State): State {
    RunActions(body, item, World(s, FreshScope)).state
  }

  // ---------------------------------------------------------------- the definitions mean the item steps

  lemma PatchTwice(rows: seq<MemoryRow>, key: string, p: SyncStatus, q: MemoryPatch)
    ensures IndexById(PatchMemory(rows, key, SetSync(p)), key) == IndexById(rows, key)
    ensures PatchMemory(PatchMemory(rows, key, SetSync(p)), key, q) == PatchMemory(rows, key, q)
  {
    var once := PatchMemory(rows, key, SetSync(p));
    var i, j := IndexById(rows, key), IndexById(once, key);
    assert forall k :: 0 <= k < |rows| ==> once[k].memoryId == rows[k].memoryId;
    assert i == j;
    assert i < |rows| ==> PatchRow(once[i], q) == PatchRow(rows[i], q);
  }

  lemma RunFirst(a: Action, rest: Actions, item: Item, w: World)
    ensures RunActions(Then(a, rest), item, w) == RunActions(rest, item, RunAction(a, item, w))
  {
  }

  lemma RunLast(a: Action, item: Item, w: World)
    ensures RunActions(Then(a, End), item, w) == RunAction(a, item, w)
  {
    RunFirst(a, End, item, w);
  }

  lemma RunBoth(a: Action, b: Action, item: Item, w: World)
    ensures RunActions(Two(a, b), item, w) == RunAction(b, item, RunAction(a, item, w))
  {
    RunFirst(a, Then(b, End), item, w);
    RunLast(b, item, RunAction(a, item, w));
  }

  /** A PatchItem on the memory table whose dependencies are met and whose row exists. */
  lemma PatchesMemory(a: Action, item: Item, w: World, fields: MemoryFields)
    requires a.body.OpenApi? && a.body.op == PatchMemoryRow(fields) && Ready(a.runAfter, w.scope.status)
    requires Resolve(fields, item, w.scope).Some?
    requires IndexById(w.state.memory, MemoryKey(item, w.scope)) < |w.state.memory|
    ensures RunAction(a, item, w) ==
            Record(w.(state := w.state.(memory := PatchMemory(w.state.memory, MemoryKey(item, w.scope),
                                                              Resolve(fields, item, w.scope).value))),
                   a.name, Succeeded)
  {
  }

  /** An action whose only dependency did not end as required is skipped and changes nothing. */
  lemma SkipOne(a: Action, item: Item, w: World, name: Name)
    requires a.runAfter.On? && a.runAfter.name == name
    requires name in w.scope.status && w.scope.status[name] !in a.runAfter.statuses
    ensures RunAction(a, item, w) == Record(w, a.name, Skipped)
  {
  }

  /** A PatchItem on the command table, for an action whose dependencies are met; without the row it does nothing. */
  lemma PatchesCommand(a: Action, c: Command, o: Outcome, w: World, patch: CommandPatch)
    requires a.body.OpenApi? && a.body.op == Op.PatchCommandRow(patch) && Ready(a.runAfter, w.scope.status)
    ensures var missing := IndexOfCommand(w.state.commands, c.memoryId) == |w.state.commands|;
            RunAction(a, Commanded(c, o), w) ==
            Record(w.(state := w.state.(commands := PatchCommand(w.state.commands, c.memoryId, patch))),
                   a.name, if missing then Failed else Succeeded)
  {
    assert IndexOfCommand(w.state.commands, c.memoryId) == |w.state.commands| ==>
        w.state.(commands := PatchCommand(w.state.commands, c.memoryId, patch)) == w.state;
  }

  /** An AddRow on the history table whose dependencies are met. */
  lemma LogsEvent(a: Action, item: Item, w: World, origem: Origem, tipo: Tipo, versao: VersionCell,
          source: SignatureSource)
    requires a.body.OpenApi? && a.body.op == AddEvent(origem, tipo, versao, source)
    requires Ready(a.runAfter, w.scope.status)
    ensures RunAction(a, item, w).state ==
            w.state.(history := w.state.history + [Event(MemoryKey(item, w.scope), ItemTask(item),
                                                         VersionOf(versao, w.scope), origem, tipo,
                                                         SourceOf(source, w.scope))])
    ensures RunAction(a, item, w).scope.status == w.scope.status[a.name := Succeeded]
  {
  }

  /** A PatchItem on the memory table followed by the history row that waits for it. */
  lemma PatchThenLog(a: Action, b: Action, item: Item, w: World, fields: MemoryFields, patch: MemoryPatch, tipo: Tipo,
          versao: VersionCell, source: SignatureSource, event: Event)
    requires a.body.OpenApi? && a.body.op == PatchMemoryRow(fields) && Ready(a.runAfter, w.scope.status)
    requires b.body.OpenApi? && b.body.op == AddEvent(event.origem, tipo, versao, source)
    requires b.runAfter == After(a.name)
    requires Resolve(fields, item, w.scope) == Some(patch)
    requires event == Event(MemoryKey(item, w.scope), ItemTask(item), VersionOf(versao, w.scope), event.origem, tipo,
                            SourceOf(source, w.scope))
    requires IndexById(w.state.memory, event.memoryId) < |w.state.memory|
    ensures RunAction(b, item, RunAction(a, item, w)).state ==
            w.state.(memory := PatchMemory(w.state.memory, event.memoryId, patch),
            history := w.state.history + [event])
    ensures RunAction(b, item, RunAction(a, item, w)).scope.status ==
            w.scope.status[a.name := Succeeded][b.name := Succeeded]
  {
    PatchesMemory(a, item, w, fields);
    var w1 := RunAction(a, item, w);
    assert w1.scope == w.scope.(status := w.scope.status[a.name := Succeeded]);
    LogsEvent(b, item, w1, event.origem, tipo, versao, source);
  }

  lemma CreateMeaning(id: string, t: Task, w: World)
    requires w.scope.found == []
    ensures RunActions(CreateBranch(), Listed(id, t), w).state == CreateItem(w.state, id, t, w.scope.signature)
  {
    RunBoth(CreateBranch().head, CreateBranch().tail.head, Listed(id, t), w);
  }

  lemma PendingMeaning(id: string, t: Task, row: MemoryRow, w: World)
    requires w.scope.found == [row]
    requires IndexById(w.state.memory, row.memoryId) < |w.state.memory|
    ensures RunActions(PendingBranch(), Listed(id, t), w).state == PreserveItem(w.state, id, row, w.scope.signature)
  {
    var item, mark, log := Listed(id, t), PendingBranch().head, PendingBranch().tail.head;
    RunBoth(mark, log, item, w);
    PatchThenLog(mark, log, item, w, Mark(Conflito), SetSync(Conflito), EventoConflito, SameVersion, CurrentSignature,
                 Event(row.memoryId, id, Some(row.versao), FromPlanner, EventoConflito, w.scope.signature));
  }

  /** The patch and the version that the refresh branch computes from the row it found. */
  lemma RefreshOutputs(id: string, t: Task, row: MemoryRow, scope: Scope)
    requires scope.found == [row]
    ensures Resolve(TaskFields, Listed(id, t), scope) == Some(CopyTask(t, row.versao + 1, scope.signature))
    ensures VersionOf(NextVersion, scope) == Some(row.versao + 1)
    ensures MemoryKey(Listed(id, t), scope) == row.memoryId
  {
  }

  lemma {:induction false} RefreshRuns(copy: Action, log: Action, id: string, t: Task, row: MemoryRow, w: World)
    requires copy.body.OpenApi? && copy.body.op == PatchMemoryRow(TaskFields) && copy.runAfter == AtOnce
    requires log.body.OpenApi? && log.runAfter == After(copy.name)
    requires log.body.op == AddEvent(FromPlanner, EventoAtualizada, NextVersion, CurrentSignature)
    requires w.scope.found == [row]
    requires IndexById(w.state.memory, row.memoryId) < |w.state.memory|
    ensures RunAction(log, Listed(id, t), RunAction(copy, Listed(id, t), w)).state ==
            RefreshItem(w.state, id, t, row, w.scope.signature)
  {
    hide PatchMemory;
    RefreshOutputs(id, t, row, w.scope);
    PatchThenLog(copy, log, Listed(id, t), w,
                 TaskFields, CopyTask(t, row.versao + 1, w.scope.signature), EventoAtualizada,
                 NextVersion, CurrentSignature,
                 Event(row.memoryId, id, Some(row.versao + 1), FromPlanner, EventoAtualizada, w.scope.signature));
  }

  lemma RefreshMeaning(id: string, t: Task, row: MemoryRow, w: World)
    requires w.scope.found == [row]
    requires IndexById(w.state.memory, row.memoryId) < |w.state.memory|
    ensures RunActions(RefreshBranch(), Listed(id, t), w).state == RefreshItem(w.state, id, t, row, w.scope.signature)
  {
    RunBoth(RefreshBranch().head, RefreshBranch().tail.head, Listed(id, t), w);
    RefreshRuns(RefreshBranch().head, RefreshBranch().tail.head, id, t, row, w);
  }

  /** Which branch the two nested conditions select for a task that has a memory row. */
  lemma ChangedMeaning(item: Item, w: World)
    requires |w.scope.found| == 1
    ensures RunActions(ChangedBranch(), item, w) ==
            if w.scope.found[0].applied == w.scope.signature then w
            else RunActions(if w.scope.pendingFound != [] then PendingBranch() else RefreshBranch(), item, w)
  {
    var outer := ChangedBranch().head;
    var inner := outer.body.yes.head;
    RunLast(outer, item, w);
    RunLast(inner, item, w);
    SelectBranch(inner, item, w);
    SelectBranch(outer, item, w);
  }

  lemma SelectBranch(a: Action, item: Item, w: World)
    requires a.body.If? && a.runAfter == AtOnce
    ensures RunAction(a, item, w) ==
            RunActions(if Holds(a.body.condition, w) then a.body.yes else a.body.no, item, w)
  {
  }

  /** The two reads and the composed signature of a listed task. */
  lemma PlannerReads(s: State, id: string, t: Task)
    ensures var item, body := Listed(id, t), PlannerBody();
            var w3 := RunAction(body.tail.tail.head, item,
                                RunAction(body.tail.head, item, RunAction(body.head, item, World(s, FreshScope))));
            && w3.state == s && w3.scope.signature == TaskSignature(id, t)
            && w3.scope.found == TopOne(s.memory, IndexByTask(s.memory, id))
            && w3.scope.pendingFound == TopOne(s.commands, IndexOfPending(s.commands, id))
            && AssinaturaPlanner in w3.scope.status && w3.scope.status[AssinaturaPlanner] == Succeeded
  {
    var item, body := Listed(id, t), PlannerBody();
    var w1 := RunAction(body.head, item, World(s, FreshScope));
    assert w1.scope.status == map[BuscarMemoria := Succeeded];
    var w2 := RunAction(body.tail.head, item, w1);
    assert w2.scope.status == w1.scope.status[BuscarComandoPendente := Succeeded];
  }

  lemma CreateOrUpdateMeaning(item: Item, w: World)
    requires AssinaturaPlanner in w.scope.status && w.scope.status[AssinaturaPlanner] == Succeeded
    ensures RunAction(PlannerBody().tail.tail.tail.head, item, w) ==
            RunActions(if w.scope.found == [] then CreateBranch() else ChangedBranch(), item, w)
  {
  }

  lemma PlannerBodySplit(item: Item, w: World)
    ensures var body := PlannerBody();
            RunActions(body, item, w) ==
            RunAction(body.tail.tail.tail.head, item,
                      RunAction(body.tail.tail.head, item,
                                RunAction(body.tail.head, item, RunAction(body.head, item, w))))
  {
    var body := PlannerBody();
    var w1 := RunAction(body.head, item, w);
    var w2 := RunAction(body.tail.head, item, w1);
    RunFirst(body.head, body.tail, item, w);
    RunFirst(body.tail.head, body.tail.tail, item, w1);
    RunBoth(body.tail.tail.head, body.tail.tail.tail.head, item, w2);
  }

  /** The last action of the body, for a task that has a memory row. */
  lemma KnownTaskMeaning(s: State, id: string, t: Task, w: World)
    requires w.state == s && w.scope.signature == TaskSignature(id, t)
    requires IndexByTask(s.memory, id) < |s.memory|
    requires w.scope.found == [s.memory[IndexByTask(s.memory, id)]]
    requires w.scope.pendingFound == TopOne(s.commands, IndexOfPending(s.commands, id))
    ensures RunActions(ChangedBranch(), Listed(id, t), w).state == PlannerItem(s, id, t)
  {
    ChangedMeaning(Listed(id, t), w);
    var row := s.memory[IndexByTask(s.memory, id)];
    assert IndexById(s.memory, row.memoryId) <= IndexByTask(s.memory, id);
    if row.applied == w.scope.signature {
    } else if HasPending(s.commands, id) {
      PendingMeaning(id, t, row, w);
    } else {
      RefreshMeaning(id, t, row, w);
    }
  }

  /** Running the Planner-to-Excel definition on a task is exactly `PlannerItem`. */
  lemma PlannerBodyMeaning(s: State, id: string, t: Task)
    ensures RunItem(PlannerBody(), Listed(id, t), s) == PlannerItem(s, id, t)
  {
    var item, body := Listed(id, t), PlannerBody();
    PlannerBodySplit(item, World(s, FreshScope));
    PlannerReads(s, id, t);
    var w3 := RunAction(body.tail.tail.head, item,
                        RunAction(body.tail.head, item, RunAction(body.head, item, World(s, FreshScope))));
    CreateOrUpdateMeaning(item, w3);
    if IndexByTask(s.memory, id) == |s.memory| {
      CreateMeaning(id, t, w3);
    } else {
      KnownTaskMeaning(s, id, t, w3);
    }
  }

  lemma ErrorMeaning(c: Command, o: Outcome, w: World)
    requires AtualizarPlanner in w.scope.status && w.scope.status[AtualizarPlanner] in {Failed, TimedOut}
    requires IndexById(w.state.memory, c.memoryId) < |w.state.memory|
    ensures RunActions(ErrorBranch(), Commanded(c, o), w).state ==
            w.state.(memory := PatchMemory(w.state.memory, c.memoryId, SetSync(Erro)),
            commands := PatchCommand(w.state.commands, c.memoryId, SetResult(ComandoErro, FalhaAoAtualizar)))
  {
    var mark, log := ErrorBranch().head, ErrorBranch().tail.head;
    RunBoth(mark, log, Commanded(c, o), w);
    PatchesMemory(mark, Commanded(c, o), w, Mark(Erro));
    PatchesCommand(log, c, o, RunAction(mark, Commanded(c, o), w), SetResult(ComandoErro, FalhaAoAtualizar));
  }

  lemma ErrorSkipped(c: Command, o: Outcome, w: World)
    requires AtualizarPlanner in w.scope.status && w.scope.status[AtualizarPlanner] == Succeeded
    ensures RunActions(ErrorBranch(), Commanded(c, o), w).state == w.state
  {
    var item := Commanded(c, o);
    RunBoth(ErrorBranch().head, ErrorBranch().tail.head, item, w);
    SkipOne(ErrorBranch().head, item, w, AtualizarPlanner);
    SkipOne(ErrorBranch().tail.head, item, Record(w, MarcarMemoriaErro, Skipped), MarcarMemoriaErro);
  }

  /** The three actions for success, as far as they run, followed by the two for failure. */
  lemma SettleSplit(item: Item, w: World)
    ensures RunActions(SettleBranch(), item, w) ==
            RunActions(ErrorBranch(), item,
                       RunAction(SettleBranch().tail.tail.head, item,
                                 RunAction(SettleBranch().tail.head, item, RunAction(SettleBranch().head, item, w))))
  {
    var acts := SettleBranch();
    var w1 := RunAction(acts.head, item, w);
    var w2 := RunAction(acts.tail.head, item, w1);
    RunFirst(acts.head, acts.tail, item, w);
    RunFirst(acts.tail.head, acts.tail.tail, item, w1);
    RunFirst(acts.tail.tail.head, ErrorBranch(), item, w2);
  }

  lemma SuccessChainStops(item: Item, w1: World)
    requires FinalizarComando in w1.scope.status && w1.scope.status[FinalizarComando] in {Failed, Skipped}
    ensures var w3 := RunAction(SettleBranch().tail.tail.head, item, RunAction(SettleBranch().tail.head, item, w1));
            w3.state == w1.state &&
            (AtualizarPlanner in w1.scope.status ==>
               AtualizarPlanner in w3.scope.status &&
               w3.scope.status[AtualizarPlanner] == w1.scope.status[AtualizarPlanner])
  {
    SkipOne(SettleBranch().tail.head, item, w1, FinalizarComando);
    var w2 := Record(w1, FinalizarMemoria, Skipped);
    SkipOne(SettleBranch().tail.tail.head, item, w2, FinalizarMemoria);
  }

  lemma SuccessChainRuns(c: Command, o: Outcome, w1: World)
    requires FinalizarComando in w1.scope.status && w1.scope.status[FinalizarComando] == Succeeded
    requires AtualizarPlanner in w1.scope.status
    requires IndexById(w1.state.memory, c.memoryId) < |w1.state.memory|
    ensures var item := Commanded(c, o);
            var w3 := RunAction(SettleBranch().tail.tail.head, item, RunAction(SettleBranch().tail.head, item, w1));
            && w3.state == w1.state.(memory := PatchMemory(w1.state.memory, c.memoryId, CopyCommand(c,
                w1.scope.desired)),
               history := w1.state.history + [Event(c.memoryId, c.taskId, None, FromExcel, EventoPlannerAtualizado,
                                                    w1.scope.desired)])
            && AtualizarPlanner in w3.scope.status
            && w3.scope.status[AtualizarPlanner] == w1.scope.status[AtualizarPlanner]
  {
    var item := Commanded(c, o);
    PatchThenLog(SettleBranch().tail.head, SettleBranch().tail.tail.head, item, w1, CommandFields,
                 CopyCommand(c, w1.scope.desired), EventoPlannerAtualizado, NoVersion, DesiredSignature,
                 Event(c.memoryId, c.taskId, None, FromExcel, EventoPlannerAtualizado, w1.scope.desired));
  }

  lemma SettleSucceeded(c: Command, o: Outcome, w: World)
    requires AtualizarPlanner in w.scope.status && w.scope.status[AtualizarPlanner] == Succeeded
    requires IndexById(w.state.memory, c.memoryId) < |w.state.memory|
    ensures var s := w.state;
            RunActions(SettleBranch(), Commanded(c, o), w).state ==
            if IndexOfCommand(s.commands, c.memoryId) == |s.commands| then s
            else s.(commands := PatchCommand(s.commands, c.memoryId, Clear),
                 memory := PatchMemory(s.memory, c.memoryId, CopyCommand(c, w.scope.desired)),
                 history := s.history + [Event(c.memoryId, c.taskId, None, FromExcel, EventoPlannerAtualizado,
                                               w.scope.desired)])
  {
    var item := Commanded(c, o);
    SettleSplit(item, w);
    var w1 := RunAction(SettleBranch().head, item, w);
    assert w1.scope.desired == w.scope.desired;
    if IndexOfCommand(w.state.commands, c.memoryId) == |w.state.commands| {
      SuccessChainStops(item, w1);
    } else {
      SuccessChainRuns(c, o, w1);
    }
    ErrorSkipped(c, o, RunAction(SettleBranch().tail.tail.head, item, RunAction(SettleBranch().tail.head, item, w1)));
  }

  lemma SettleFailed(c: Command, o: Outcome, w: World)
    requires AtualizarPlanner in w.scope.status && w.scope.status[AtualizarPlanner] in {Failed, TimedOut}
    requires IndexById(w.state.memory, c.memoryId) < |w.state.memory|
    ensures RunActions(SettleBranch(), Commanded(c, o), w).state ==
            w.state.(memory := PatchMemory(w.state.memory, c.memoryId, SetSync(Erro)),
            commands := PatchCommand(w.state.commands, c.memoryId, SetResult(ComandoErro, FalhaAoAtualizar)))
  {
    var item := Commanded(c, o);
    SettleSplit(item, w);
    SkipOne(SettleBranch().head, item, w, AtualizarPlanner);
    var w1 := Record(w, FinalizarComando, Skipped);
    SuccessChainStops(item, w1);
    ErrorMeaning(c, o, RunAction(SettleBranch().tail.tail.head, item, RunAction(SettleBranch().tail.head, item, w1)));
  }

  lemma ApplyStart(c: Command, o: Outcome, w: World)
    requires IndexById(w.state.memory, c.memoryId) < |w.state.memory|
    ensures var w2 := RunAction(ApplyBranch().tail.head, Commanded(c, o),
                                RunAction(ApplyBranch().head, Commanded(c, o), w));
            && w2.state == w.state.(memory := PatchMemory(w.state.memory, c.memoryId, SetSync(Pendente)),
               planner := PlannerAfter(w.state.planner, c, o))
            && w2.scope.desired == w.scope.desired
            && AtualizarPlanner in w2.scope.status
            && w2.scope.status[AtualizarPlanner] ==
               if WholePercent(c).Some? then OutcomeStatus(o) else Failed
  {
    var w1 := RunAction(ApplyBranch().head, Commanded(c, o), w);
    assert w1.scope.status[MarcarMemoriaPendente] == Succeeded;
  }

  lemma ApplyMeaning(c: Command, o: Outcome, w: World)
    requires w.scope.desired == CommandSignature(c)
    requires IndexById(w.state.memory, c.memoryId) < |w.state.memory|
    ensures RunActions(ApplyBranch(), Commanded(c, o), w).state == ApplyItem(w.state, c, o)
  {
    var item, acts := Commanded(c, o), ApplyBranch();
    var w1 := RunAction(acts.head, item, w);
    RunFirst(acts.head, acts.tail, item, w);
    RunFirst(acts.tail.head, SettleBranch(), item, w1);
    ApplyStart(c, o, w);
    var w2 := RunAction(acts.tail.head, item, w1);
    PatchTwice(w.state.memory, c.memoryId, Pendente, SetSync(Erro));
    PatchTwice(w.state.memory, c.memoryId, Pendente, CopyCommand(c, w.scope.desired));
    if w2.scope.status[AtualizarPlanner] == Succeeded {
      SettleSucceeded(c, o, w2);
    } else {
      SettleFailed(c, o, w2);
    }
  }

  lemma ConflictSplit(item: Item, w: World)
    ensures var acts := ConflictBranch();
            RunActions(acts, item, w) ==
            RunAction(acts.tail.tail.head, item, RunAction(acts.tail.head, item, RunAction(acts.head, item, w)))
  {
    var acts := ConflictBranch();
    RunFirst(acts.head, acts.tail, item, w);
    RunBoth(acts.tail.head, acts.tail.tail.head, item, RunAction(acts.head, item, w));
  }

  lemma ConflictStops(item: Item, w1: World)
    requires MarcarComandoConflito in w1.scope.status && w1.scope.status[MarcarComandoConflito] == Failed
    ensures RunAction(ConflictBranch().tail.tail.head, item, RunAction(ConflictBranch().tail.head, item, w1)).state
            == w1.state
  {
    SkipOne(ConflictBranch().tail.head, item, w1, MarcarComandoConflito);
    SkipOne(ConflictBranch().tail.tail.head, item, Record(w1, MarcarMemoriaConflito, Skipped), MarcarMemoriaConflito);
  }

  lemma ConflictMeaning(c: Command, o: Outcome, w: World)
    requires IndexById(w.state.memory, c.memoryId) < |w.state.memory|
    ensures RunActions(ConflictBranch(), Commanded(c, o), w).state == ConflictItem(w.state, c, w.scope.signature)
  {
    ConflictSplit(Commanded(c, o), w);
    PatchesCommand(ConflictBranch().head, c, o, w, SetResult(ComandoConflito, PlannerMudou));
    var w1 := RunAction(ConflictBranch().head, Commanded(c, o), w);
    if IndexOfCommand(w.state.commands, c.memoryId) == |w.state.commands| {
      ConflictStops(Commanded(c, o), w1);
    } else {
      MarkAndLog(c, o, w1);
    }
  }

  lemma MarkAndLog(c: Command, o: Outcome, w1: World)
    requires MarcarComandoConflito in w1.scope.status && w1.scope.status[MarcarComandoConflito] == Succeeded
    requires IndexById(w1.state.memory, c.memoryId) < |w1.state.memory|
    ensures RunAction(ConflictBranch().tail.tail.head, Commanded(c, o),
                      RunAction(ConflictBranch().tail.head, Commanded(c, o), w1)).state ==
            w1.state.(memory := PatchMemory(w1.state.memory, c.memoryId, SetSync(Conflito)),
            history := w1.state.history + [Event(c.memoryId, c.taskId, None, FromExcel, EventoConflito,
                                                 w1.scope.signature)])
  {
    PatchThenLog(ConflictBranch().tail.head, ConflictBranch().tail.tail.head, Commanded(c, o), w1, Mark(Conflito),
                 SetSync(Conflito), EventoConflito, NoVersion, CurrentSignature,
                 Event(c.memoryId, c.taskId, None, FromExcel, EventoConflito, w1.scope.signature));
  }

  lemma {:induction false} FoundMeaning(c: Command, o: Outcome, w: World)
    requires AssinaturaDesejada in w.scope.status && w.scope.status[AssinaturaDesejada] == Succeeded
    requires |w.scope.found| == 1
    ensures RunActions(FoundBranch(), Commanded(c, o), w) ==
            if w.scope.found[0].applied == w.scope.signature then RunActions(ApplyBranch(), Commanded(c, o), w)
            else RunActions(ConflictBranch(), Commanded(c, o), w)
  {
    hide ApplyBranch, ConflictBranch, Exec;
  }

  /** Reading the memory row and re-reading the task. */
  lemma ReadMeaning(s: State, c: Command, o: Outcome)
    ensures var w2 := RunAction(CommandBody().tail.head, Commanded(c, o),
                                RunAction(CommandBody().head, Commanded(c, o), World(s, FreshScope)));
            && w2.state == s && w2.scope.found == TopOne(s.memory, IndexById(s.memory, c.memoryId))
            && RelerTarefa in w2.scope.status
            && (if c.taskId in s.planner
                then w2.scope.status[RelerTarefa] == Succeeded && w2.scope.reread == Some(s.planner[c.taskId])
                else w2.scope.status[RelerTarefa] == Failed)
  {
    var w1 := RunAction(CommandBody().head, Commanded(c, o), World(s, FreshScope));
    assert w1.scope.status[BuscarMemoria] == Succeeded;
  }

  /** Composing the two signatures. */
  lemma ComposeMeaning(c: Command, o: Outcome, w2: World)
    requires RelerTarefa in w2.scope.status && w2.scope.status[RelerTarefa] == Succeeded && w2.scope.reread.Some?
    ensures var w4 := RunAction(CommandBody().tail.tail.tail.head, Commanded(c, o),
                                RunAction(CommandBody().tail.tail.head, Commanded(c, o), w2));
            && w4.state == w2.state && w4.scope.found == w2.scope.found
            && w4.scope.signature == TaskSignature(c.taskId, w2.scope.reread.value)
            && w4.scope.desired == CommandSignature(c)
            && AssinaturaDesejada in w4.scope.status && w4.scope.status[AssinaturaDesejada] == Succeeded
  {
    var w3 := RunAction(CommandBody().tail.tail.head, Commanded(c, o), w2);
    assert w3.scope.status[AssinaturaAtual] == Succeeded;
  }

  lemma ValidateMeaning(c: Command, o: Outcome, w4: World)
    requires AssinaturaDesejada in w4.scope.status && w4.scope.status[AssinaturaDesejada] == Succeeded
    ensures RunAction(CommandBody().tail.tail.tail.tail.head, Commanded(c, o), w4) ==
            RunActions(if w4.scope.found != [] then FoundBranch() else MissingBranch(), Commanded(c, o), w4)
  {
  }

  lemma CommandBodySplit(item: Item, w: World)
    ensures var body := CommandBody();
            RunActions(body, item, w) ==
            RunAction(body.tail.tail.tail.tail.head, item,
                      RunAction(body.tail.tail.tail.head, item,
                                RunAction(body.tail.tail.head, item,
                                          RunAction(body.tail.head, item, RunAction(body.head, item, w)))))
  {
    var body := CommandBody();
    var w1 := RunAction(body.head, item, w);
    var w2 := RunAction(body.tail.head, item, w1);
    RunFirst(body.head, body.tail, item, w);
    RunFirst(body.tail.head, body.tail.tail, item, w1);
    RunFirst(body.tail.tail.head, body.tail.tail.tail, item, w2);
    RunBoth(body.tail.tail.tail.head, body.tail.tail.tail.tail.head, item, RunAction(body.tail.tail.head, item, w2));
  }

  /** Running the Excel-to-Planner definition on a command is exactly `CommandItem`. */
  lemma CommandBodyMeaning(s: State, c: Command, o: Outcome)
    ensures RunItem(CommandBody(), Commanded(c, o), s) == CommandItem(s, c, o)
  {
    var item, body := Commanded(c, o), CommandBody();
    CommandBodySplit(item, World(s, FreshScope));
    ReadMeaning(s, c, o);
    var w2 := RunAction(body.tail.head, item, RunAction(body.head, item, World(s, FreshScope)));
    if c.taskId !in s.planner {
      SkipOne(body.tail.tail.head, item, w2, RelerTarefa);
      var w3 := Record(w2, AssinaturaAtual, Skipped);
      SkipOne(body.tail.tail.tail.head, item, w3, AssinaturaAtual);
      var w4 := Record(w3, AssinaturaDesejada, Skipped);
      SkipOne(body.tail.tail.tail.tail.head, item, w4, AssinaturaDesejada);
    } else {
      ComposeMeaning(c, o, w2);
      var w4 := RunAction(body.tail.tail.tail.head, item, RunAction(body.tail.tail.head, item, w2));
      ValidateMeaning(c, o, w4);
      if IndexById(s.memory, c.memoryId) < |s.memory| {
        FoundMeaning(c, o, w4);
        ApplyMeaning(c, o, w4);
        ConflictMeaning(c, o, w4);
      } else {
        MissingMeaning(c, o, w4);
      }
    }
  }

  lemma MissingMeaning(c: Command, o: Outcome, w: World)
    ensures RunActions(MissingBranch(), Commanded(c, o), w).state ==
            w.state.(commands := PatchCommand(w.state.commands, c.memoryId,
                                              SetResult(ComandoErro, MemoriaNaoEncontrada)))
  {
    var item, acts := Commanded(c, o), MissingBranch();
    assert RunActions(acts, item, w) == RunAction(acts.head, item, w);
  }

  // ---------------------------------------------------------------- whole passes

  /** The body of the Foreach that a flow runs after listing its rows. */
  function EachItem(flow: Actions): Actions
    requires flow.Then? && flow.tail.Then? && flow.tail.head.body.Foreach?
  {
    flow.tail.head.body.each
  }

  /** A whole run of a flow over the items it listed. */
  function RunFlow(flow: Actions, items: seq<Item>, s: State): State
    requires flow.Then? && flow.tail.Then? && flow.tail.head.body.Foreach?
    decreases |items|
  {
    if items == [] then s else RunFlow(flow, items[1..], RunItem(EachItem(flow), items[0], s))
  }

  lemma {:induction false} PlannerFlowMeaning(listing: seq<(string, Task)>, s: State)
    ensures RunFlow(PlannerFlow(), seq(|listing|, k requires 0 <= k < |listing| => Listed(listing[k].0,
        listing[k].1)), s)
            == PlannerPass(s, listing)
    decreases |listing|
  {
    hide PlannerBody, PlannerItem, RunItem;
    if listing != [] {
      var rest := listing[1..];
      PlannerBodyMeaning(s, listing[0].0, listing[0].1);
      PlannerFlowMeaning(rest, PlannerItem(s, listing[0].0, listing[0].1));
      var items := seq(|listing|, k requires 0 <= k < |listing| => Listed(listing[k].0, listing[k].1));
      assert items[1..] == seq(|rest|, k requires 0 <= k < |rest| => Listed(rest[k].0, rest[k].1));
    }
  }

  lemma {:induction false} CommandFlowMeaning(listing: seq<Command>, outcomes: seq<Outcome>, s: State)
    requires |outcomes| == |listing|
    ensures RunFlow(CommandFlow(),
                    seq(|listing|, k requires 0 <= k < |listing| => Commanded(listing[k], outcomes[k])), s)
            == CommandPass(s, listing, outcomes)
    decreases |listing|
  {
    if listing != [] {
      var rest, rest' := listing[1..], outcomes[1..];
      CommandBodyMeaning(s, listing[0], outcomes[0]);
      CommandFlowMeaning(rest, rest', CommandItem(s, listing[0], outcomes[0]));
      var items := seq(|listing|, k requires 0 <= k < |listing| => Commanded(listing[k], outcomes[k]));
      assert items[1..] == seq(|rest|, k requires 0 <= k < |rest| => Commanded(rest[k], rest'[k]));
    }
  }

  /** Running the action reaches a Terminate. */
  predicate Terminates(a: Action, item: Item, w: World)
    decreases a, 1
  {
    Ready(a.runAfter, w.scope.status) &&
    match a.body
    case Terminate => true
    case If(condition, yes, no) => if Holds(condition, w) then TerminatesIn(yes, item, w) else TerminatesIn(no, item, w)
    case _ => false
  }

  predicate TerminatesIn(actions: Actions, item: Item, w: World)
    decreases actions, 0
  {
    match actions
    case End => false
    case Then(a, rest) => Terminates(a, item, w) || TerminatesIn(rest, item, RunAction(a, item, w))
  }

  /** What the condition of the health flow sees: the stores as they were, with both predecessors succeeded. */
  function HealthScope(s: State): World {
    Record(Record(World(s, FreshScope), ListarMemoria, Succeeded), FiltrarProblemas, Succeeded)
  }

  lemma {:induction false} HealthFlowSplit(s: State, item: Item)
    ensures var w := World(s, FreshScope);
            && RunActions(HealthFlow(), item, w) == RunAction(HealthCheck(), item, HealthScope(s))
            && (TerminatesIn(HealthFlow(), item, w) <==> Terminates(HealthCheck(), item, HealthScope(s)))
  {
    hide Holds, HealthCheck;
    var flow, w := HealthFlow(), World(s, FreshScope);
    var listed := RunAction(flow.head, item, w);
    assert listed == Record(w, ListarMemoria, Succeeded);
    assert RunAction(flow.tail.head, item, listed) == HealthScope(s);
    assert flow.tail.tail.tail == End;
  }

  lemma {:induction false} HealthCheckMeaning(item: Item, w: World)
    requires Ready(HealthCheck().runAfter, w.scope.status)
    ensures RunAction(HealthCheck(), item, w).state == w.state
    ensures Terminates(HealthCheck(), item, w) <==> HealthFails(w.state.memory)
  {
    hide HealthFails;
  }

  /** The health flow changes no store, and terminates Failed exactly when some row is CONFLITO or ERRO. */
  lemma {:induction false} HealthFlowMeaning(s: State, item: Item)
    ensures RunItem(HealthFlow(), item, s) == s
    ensures TerminatesIn(HealthFlow(), item, World(s, FreshScope)) <==>
            exists k :: 0 <= k < |s.memory| && (s.memory[k].sync == Conflito || s.memory[k].sync == Erro)
  {
    hide HealthFlow, RunAction, Terminates;
    HealthFlowSplit(s, item);
    HealthFailsExactly(s.memory);
    HealthCheckMeaning(item, HealthScope(s));
  }

  lemma HealthFailsExactly(memory: seq<MemoryRow>)
    ensures HealthFails(memory) <==>
            exists k :: 0 <= k < |memory| && (memory[k].sync == Conflito || memory[k].sync == Erro)
  {
    var problems := HealthProblems(memory);
    if HealthFails(memory) {
      assert problems[0] in problems;
      var k :| 0 <= k < |memory| && memory[k] == problems[0];
    }
    if k :| 0 <= k < |memory| && (memory[k].sync == Conflito || memory[k].sync == Erro) {
      assert memory[k] in memory && memory[k] in problems;
    }
  }

  /** The live tenant: four stores that the flows read and update in place. */
  class Tenant {
    var planner: map<string, Task>
    var memory: seq<MemoryRow>
    var commands: seq<Command>
    var history: seq<Event>

    ghost function Stores(): State
      reads this
    {
      State(planner, memory, commands, history)
    }

    constructor (planner: map<string, Task>)
      ensures Stores() == State(planner, [], [], [])
    {
      this.planner, memory, commands, history := planner, [], [], [];
    }

    method Execute(op: Op, item: Item, scope: Scope) returns (out: Scope, status: Status)
      modifies this
      ensures (World(Stores(), out), status) == Exec(op, item, World(old(Stores()), scope))
    {
      out, status := scope, Succeeded;
      match op {
        case ListRows =>
        case FindMemoryByTask =>
          out := scope.(found := TopOne(memory, IndexByTask(memory, ItemTask(item))));
        case FindMemoryById =>
          out := scope.(found := TopOne(memory, IndexById(memory, MemoryKey(item, scope))));
        case FindPending =>
          out := scope.(pendingFound := TopOne(commands, IndexOfPending(commands, ItemTask(item))));
        case ReadTask =>
          if ItemTask(item) in planner {
            out := scope.(reread := Some(planner[ItemTask(item)]));
          } else {
            status := Failed;
          }
        case ComposeListed =>
          if item.Listed? {
            out := scope.(signature := TaskSignature(item.id, item.task));
          } else {
            status := Failed;
          }
        case ComposeReread =>
          if scope.reread.Some? {
            out := scope.(signature := TaskSignature(ItemTask(item), scope.reread.value));
          } else {
            status := Failed;
          }
        case ComposeDesired =>
          if item.Commanded? {
            out := scope.(desired := CommandSignature(item.command));
          } else {
            status := Failed;
          }
        case AddMemory =>
          if item.Listed? {
            memory := memory + [NewRow(item.id, item.task, scope.signature)];
          } else {
            status := Failed;
          }
        case PatchMemoryRow(fields) =>
          var key, patch := MemoryKey(item, scope), Resolve(fields, item, scope);
          var i := IndexById(memory, key);
          if patch.Some? && i < |memory| {
            memory := memory[i := PatchRow(memory[i], patch.value)];
          } else {
            status := Failed;
          }
        case PatchCommandRow(patch) =>
          var i := IndexOfCommand(commands, MemoryKey(item, scope));
          if i < |commands| {
            commands := commands[i := SyncModel.PatchCommandRow(commands[i], patch)];
          } else {
            status := Failed;
          }
        case UpdateTask =>
          if item.Commanded? {
            var c := item.command;
            if Landed(c, item.outcome) {
              planner := planner[c.taskId := WrittenTask(c, WholePercent(c).value)];
            }
            status := if WholePercent(c).Some? then OutcomeStatus(item.outcome) else Failed;
          } else {
            status := Failed;
          }
        case AddEvent(origem, tipo, versao, source) =>
          history := history + [Event(MemoryKey(item, scope), ItemTask(item), VersionOf(versao, scope), origem, tipo,
                                      SourceOf(source, scope))];
      }
    }

    method RunOne(a: Action, item: Item, scope: Scope) returns (out: Scope)
      modifies this
      ensures World(Stores(), out) == RunAction(a, item, World(old(Stores()), scope))
      decreases a, 1
    {
      out := scope;
      if !Ready(a.runAfter, scope.status) {
        out := out.(status := out.status[a.name := Skipped]);
        return;
      }
      match a.body {
        case OpenApi(_, _, op) =>
          var status;
          out, status := Execute(op, item, scope);
          out := out.(status := out.status[a.name := status]);
        case Compose(op) =>
          var status;
          out, status := Execute(op, item, scope);
          out := out.(status := out.status[a.name := status]);
        case If(condition, yes, no) =>
          var branch := if Holds(condition, World(State(planner, memory, commands, history), scope)) then yes else no;
          out := RunAll(branch, item, scope);
        case Query =>
          out := out.(status := out.status[a.name := Succeeded]);
        case _ =>
      }
    }

    method RunAll(actions: Actions, item: Item, scope: Scope) returns (out: Scope)
      modifies this
      ensures World(Stores(), out) == RunActions(actions, item, World(old(Stores()), scope))
      decreases actions, 0
    {
      out := scope;
      if actions.Then? {
        out := RunOne(actions.head, item, out);
        out := RunAll(actions.tail, item, out);
      }
    }

    /** One scheduled run of the Planner-to-Excel flow over the plan it listed. */
    method SyncFromPlanner(listing: seq<(string, Task)>)
      modifies this
      ensures Stores() == PlannerPass(old(Stores()), listing)
    {
      for k := 0 to |listing|
        invariant PlannerPass(Stores(), listing[k..]) == PlannerPass(old(Stores()), listing)
      {
        ghost var before := Stores();
        var _ := RunAll(PlannerBody(), Listed(listing[k].0, listing[k].1), FreshScope);
        PlannerBodyMeaning(before, listing[k].0, listing[k].1);
        assert listing[k..][1..] == listing[k + 1..];
      }
    }

    /** One scheduled run of the Excel-to-Planner flow over the commands it listed. */
    method SyncFromExcel(listing: seq<Command>, outcomes: seq<Outcome>)
      requires |outcomes| == |listing|
      modifies this
      ensures Stores() == CommandPass(old(Stores()), listing, outcomes)
    {
      for k := 0 to |listing|
        invariant CommandPass(Stores(), listing[k..], outcomes[k..]) == CommandPass(old(Stores()), listing, outcomes)
      {
        ghost var before := Stores();
        var _ := RunAll(CommandBody(), Commanded(listing[k], outcomes[k]), FreshScope);
        CommandBodyMeaning(before, listing[k], outcomes[k]);
        assert listing[k..][1..] == listing[k + 1..] && outcomes[k..][1..] == outcomes[k + 1..];
      }
    }
  }

  // ---------------------------------------------------------------- definition checker

  datatype Definition = Definition(schema: string, parameters: set<string>, hasTriggers: bool, actions: Actions,
                                   lowered: string)

  datatype DefinitionError =
    | SchemaInvalido | ParametroAusente(name: string) | GatilhoAusente | AcoesAusentes
    | DataverseProibido | PlannerPreviewProibido
    | ConectorNaoPermitido(action: Name) | OperationIdAusente(action: Name)

  const SCHEMA := "https://schema.management.azure.com/providers/Microsoft.Logic/schemas/2016-06-01/workflowdefinition.json#"

  function Nested(body: Body): seq<Action>
    decreases body, 1
  {
    match body
    case If(_, yes, no) => Walk(yes) + Walk(no)
    case Foreach(each) => Walk(each)
    case _ => []
  }

  /** Every action with its nested ones, in the order the walker yields them. */
  function Walk(actions: Actions): seq<Action>
    decreases actions, 0
  {
    match actions
    case End => []
    case Then(a, rest) => [a] + Nested(a.body) + Walk(rest)
  }

  function When(broken: bool, e: DefinitionError): (r: seq<DefinitionError>)
    ensures forall x :: x in r <==> broken && x == e
    ensures r == [] <==> !broken
  {
    if broken then [e] else []
  }

  function HeaderErrors(d: Definition): seq<DefinitionError> {
    When(d.schema != SCHEMA, SchemaInvalido)
    + When("$authentication" !in d.parameters, ParametroAusente("$authentication"))
    + When("$connections" !in d.parameters, ParametroAusente("$connections"))
    + When(!d.hasTriggers, GatilhoAusente)
    + When(d.actions.End?, AcoesAusentes)
    + When(Mentions(d.lowered, "shared_commondataserviceforapps"), DataverseProibido)
    + When(Mentions(d.lowered, "updatetask_v3"), PlannerPreviewProibido)
  }

  function ActionErrors(a: Action): seq<DefinitionError> {
    if !a.body.OpenApi? then []
    else When(a.body.apiId !in {PLANNER_API, EXCEL_API}, ConectorNaoPermitido(a.name))
         + When(a.body.operationId == "", OperationIdAusente(a.name))
  }

  function ConnectorErrors(actions: seq<Action>): seq<DefinitionError> {
    if actions == [] then [] else ConnectorErrors(actions[..|actions| - 1]) + ActionErrors(actions[|actions| - 1])
  }

  lemma OnlyConnectorsFail(a: Action)
    ensures !a.body.OpenApi? ==> ActionErrors(a) == []
  {
  }

  method ValidateDefinition(d: Definition) returns (errors: seq<DefinitionError>)
    ensures errors == HeaderErrors(d) + ConnectorErrors(Walk(d.actions))
  {
    hide HeaderErrors, Walk, ActionErrors;
    errors := HeaderErrors(d);
    var walked := Walk(d.actions);
    for k := 0 to |walked|
      invariant errors == HeaderErrors(d) + ConnectorErrors(walked[..k])
    {
      assert walked[..k + 1][..k] == walked[..k];
      OnlyConnectorsFail(walked[k]);
      if !walked[k].body.OpenApi? {
        continue;
      }
      errors := errors + ActionErrors(walked[k]);
    }
    assert walked[..|walked|] == walked;
  }

  /** An allowed connector with an operation, or no connector at all. */
  predicate AllowedAction(a: Action) {
    a.body.OpenApi? ==> a.body.apiId in {PLANNER_API, EXCEL_API} && a.body.operationId != ""
  }

  /** Every connector at every depth of the tree is allowed; follows the tree, not the walk. */
  predicate AllowedTree(actions: Actions) {
    match actions
    case End => true
    case Then(a, rest) =>
      AllowedAction(a) && AllowedTree(rest) &&
      match a.body {
        case If(_, yes, no) => AllowedTree(yes) && AllowedTree(no)
        case Foreach(each) => AllowedTree(each)
        case _ => true
      }
  }

  lemma {:induction false} ConnectorErrorsEmpty(actions: seq<Action>)
    ensures ConnectorErrors(actions) == [] <==> forall a :: a in actions ==> AllowedAction(a)
  {
    if actions != [] {
      var front, last := actions[..|actions| - 1], actions[|actions| - 1];
      ConnectorErrorsEmpty(front);
      assert actions == front + [last];
      assert ActionErrors(last) == [] <==> AllowedAction(last);
    }
  }

  lemma {:induction false} WalkReachesEverything(actions: Actions)
    ensures AllowedTree(actions) <==> forall a :: a in Walk(actions) ==> AllowedAction(a)
  {
    if actions.Then? {
      var a := actions.head;
      WalkReachesEverything(actions.tail);
      match a.body {
        case If(_, yes, no) =>
          WalkReachesEverything(yes);
          WalkReachesEverything(no);
        case Foreach(each) => WalkReachesEverything(each);
        case _ =>
      }
    }
  }

  /** What one action is reported for. */
  predicate Faults(a: Action, e: DefinitionError) {
    && a.body.OpenApi?
    && ((e == ConectorNaoPermitido(a.name) && a.body.apiId != "/providers/Microsoft.PowerApps/apis/shared_planner"
         && a.body.apiId != "/providers/Microsoft.PowerApps/apis/shared_excelonlinebusiness")
        || (e == OperationIdAusente(a.name) && a.body.operationId == ""))
  }

  /** The connector errors are the faults of the walked actions, and nothing else. */
  lemma {:induction false} ConnectorErrorsExactly(actions: seq<Action>, e: DefinitionError)
    ensures e in ConnectorErrors(actions) <==> exists a :: a in actions && Faults(a, e)
  {
    if actions != [] {
      var front, last := actions[..|actions| - 1], actions[|actions| - 1];
      ConnectorErrorsExactly(front, e);
      assert actions == front + [last];
      assert e in ActionErrors(last) <==> Faults(last, e);
    }
  }

  /** A rule of the header and the error for breaking it. */
  predicate BrokenRule(d: Definition, e: DefinitionError) {
    match e
    case SchemaInvalido => d.schema != SCHEMA
    case ParametroAusente(name) => name in {"$authentication", "$connections"} && name !in d.parameters
    case GatilhoAusente => !d.hasTriggers
    case AcoesAusentes => d.actions == End
    case DataverseProibido => Mentions(d.lowered, "shared_commondataserviceforapps")
    case PlannerPreviewProibido => Mentions(d.lowered, "updatetask_v3")
    case _ => false
  }

  /** Each error of the header is reported exactly when its rule is broken. */
  lemma {:induction false} HeaderErrorsExactly(d: Definition, e: DefinitionError)
    ensures e in HeaderErrors(d) <==> BrokenRule(d, e)
  {
    hide Mentions, When;
    var auth, connections := "$authentication", "$connections";
    var one, two, three := When(d.schema != SCHEMA, SchemaInvalido),
                           When(auth !in d.parameters, ParametroAusente(auth)),
                           When(connections !in d.parameters, ParametroAusente(connections));
    var four, five := When(!d.hasTriggers, GatilhoAusente), When(d.actions.End?, AcoesAusentes);
    var six := When(Mentions(d.lowered, "shared_commondataserviceforapps"), DataverseProibido);
    var seven := When(Mentions(d.lowered, "updatetask_v3"), PlannerPreviewProibido);
    InSeven(one, two, three, four, five, six, seven, e);
  }

  lemma InSeven(a: seq<DefinitionError>, b: seq<DefinitionError>, c: seq<DefinitionError>, d: seq<DefinitionError>,
          f: seq<DefinitionError>, g: seq<DefinitionError>, h: seq<DefinitionError>, e: DefinitionError)
    ensures e in a + b + c + d + f + g + h <==>
            e in a || e in b || e in c || e in d || e in f || e in g || e in h
  {
  }

  /** The checker accepts exactly the definitions that are complete and use allowed connectors at every depth. */
  lemma AcceptedExactly(d: Definition)
    ensures HeaderErrors(d) + ConnectorErrors(Walk(d.actions)) == [] <==>
            && d.schema == SCHEMA && {"$authentication", "$connections"} <= d.parameters
            && d.hasTriggers && d.actions.Then?
            && !Mentions(d.lowered, "shared_commondataserviceforapps") && !Mentions(d.lowered, "updatetask_v3")
            && AllowedTree(d.actions)
  {
    ConnectorErrorsEmpty(Walk(d.actions));
    WalkReachesEverything(d.actions);
  }

  /** All three generated flows use only allowed connectors. */
  lemma GeneratedFlowsAllowed()
    ensures AllowedTree(PlannerFlow()) && AllowedTree(CommandFlow()) && AllowedTree(HealthFlow())
  {
    assert AllowedTree(PlannerBody()) by { PlannerBodyAllowed(); }
    assert AllowedTree(CommandBody()) by { CommandBodyAllowed(); }
  }

  lemma PlannerBodyAllowed()
    ensures AllowedTree(PlannerBody())
  {
    assert AllowedTree(CreateBranch()) && AllowedTree(PendingBranch()) && AllowedTree(RefreshBranch());
    assert AllowedTree(ChangedBranch());
  }

  lemma CommandBodyAllowed()
    ensures AllowedTree(CommandBody())
  {
    assert AllowedTree(ErrorBranch());
    assert AllowedTree(SettleBranch());
    assert AllowedTree(ApplyBranch());
    assert AllowedTree(ConflictBranch()) && AllowedTree(MissingBranch());
    assert AllowedTree(FoundBranch());
  }

  /** The host operation is the one whose effect the action is interpreted as. */
  predicate CallsItsOperation(a: Action) {
    a.body.OpenApi? ==>
      var planner := a.body.apiId == "/providers/Microsoft.PowerApps/apis/shared_planner";
      var excel := a.body.apiId == "/providers/Microsoft.PowerApps/apis/shared_excelonlinebusiness";
      match a.body.op
      case UpdateTask => planner && a.body.operationId == "UpdateTask_V2"
      case ReadTask => planner && a.body.operationId == "GetTask_V2"
      case ListRows => (planner && a.body.operationId == "ListTasks_V3") || (excel && a.body.operationId == "GetItems")
      case PatchMemoryRow(_) => excel && a.body.operationId == "PatchItem"
      case PatchCommandRow(_) => excel && a.body.operationId == "PatchItem"
      case AddMemory => excel && a.body.operationId == "AddRowV2"
      case AddEvent(_, _, _, _) => excel && a.body.operationId == "AddRowV2"
      case _ => excel && a.body.operationId == "GetItems"
  }

  predicate CallsInTree(actions: Actions) {
    match actions
    case End => true
    case Then(a, rest) =>
      CallsItsOperation(a) && CallsInTree(rest) &&
      match a.body {
        case If(_, yes, no) => CallsInTree(yes) && CallsInTree(no)
        case Foreach(each) => CallsInTree(each)
        case _ => true
      }
  }

  /** In all three generated flows every connector action calls the operation it is interpreted as. */
  lemma {:induction false} GeneratedFlowsCallTheirOperations()
    ensures CallsInTree(PlannerFlow()) && CallsInTree(CommandFlow()) && CallsInTree(HealthFlow())
  {
    hide CallsItsOperation, PlannerBody, CommandBody;
    PlannerBodyCalls();
    CommandBodyCalls();
    ListingsCall();
  }

  lemma ListingsCall()
    ensures CallsItsOperation(PlannerFlow().head) && CallsItsOperation(CommandFlow().head)
    ensures CallsItsOperation(PlannerFlow().tail.head) && CallsItsOperation(CommandFlow().tail.head)
    ensures CallsInTree(HealthFlow())
  {
    assert CallsInTree(Then(HealthCheck(), End));
  }

  lemma PlannerBodyCalls()
    ensures CallsInTree(PlannerBody())
  {
    assert CallsInTree(CreateBranch()) && CallsInTree(PendingBranch()) && CallsInTree(RefreshBranch());
    assert CallsInTree(ChangedBranch());
  }

  lemma CommandBodyCalls()
    ensures CallsInTree(CommandBody())
  {
    assert CallsInTree(ErrorBranch());
    assert CallsInTree(SettleBranch());
    assert CallsInTree(ApplyBranch());
    assert CallsInTree(ConflictBranch()) && CallsInTree(MissingBranch());
    assert CallsInTree(FoundBranch());
  }

  /** Every dependency names an earlier entry of the same `actions` object. */
  predicate SiblingDependencies(actions: Actions, before: set<Name>) {
    match actions
    case End => true
    case Then(a, rest) =>
      (a.runAfter.On? ==> a.runAfter.name in before) && SiblingDependencies(rest, before + {a.name}) &&
      match a.body {
        case If(_, yes, no) => SiblingDependencies(yes, {}) && SiblingDependencies(no, {})
        case Foreach(each) => SiblingDependencies(each, {})
        case _ => true
      }
  }

  /** A tree with every dependency removed. */
  function Detached(actions: Actions): Actions {
    match actions
    case End => End
    case Then(a, rest) =>
      var body := match a.body {
        case If(condition, yes, no) => If(condition, Detached(yes), Detached(no))
        case Foreach(each) => Foreach(Detached(each))
        case other => other
      };
      Then(Action(a.name, body, AtOnce), Detached(rest))
  }

  lemma {:induction false} ErrorsConcat(a: seq<Action>, b: seq<Action>)
    ensures ConnectorErrors(a + b) == ConnectorErrors(a) + ConnectorErrors(b)
  {
    hide ActionErrors;
    if b == [] {
      assert a + b == a;
    } else {
      assert (a + b)[..|a + b| - 1] == a + b[..|b| - 1];
      ErrorsConcat(a, b[..|b| - 1]);
    }
  }

  lemma ErrorsOfOne(a: Action)
    ensures ConnectorErrors([a]) == ActionErrors(a)
  {
    assert [a][..0] == [];
  }

  /** The errors of a tree, entry by entry. */
  lemma {:induction false} ErrorsOfWalk(a: Action, rest: Actions)
    ensures ConnectorErrors(Walk(Then(a, rest))) ==
            ActionErrors(a) + ConnectorErrors(Nested(a.body)) + ConnectorErrors(Walk(rest))
  {
    hide ActionErrors, ConnectorErrors;
    ErrorsOfOne(a);
    ErrorsConcat([a], Nested(a.body));
    ErrorsConcat([a] + Nested(a.body), Walk(rest));
  }

  lemma {:induction false} ErrorsOfDetached(actions: Actions)
    ensures ConnectorErrors(Walk(Detached(actions))) == ConnectorErrors(Walk(actions))
  {
    hide ConnectorErrors, Walk;
    if actions.Then? {
      var a, rest := actions.head, actions.tail;
      var detached := Detached(actions);
      ErrorsOfWalk(a, rest);
      ErrorsOfWalk(detached.head, detached.tail);
      ErrorsOfDetached(rest);
      match a.body {
        case If(_, yes, no) =>
          ErrorsConcat(Walk(yes), Walk(no));
          ErrorsConcat(Walk(Detached(yes)), Walk(Detached(no)));
          ErrorsOfDetached(yes);
          ErrorsOfDetached(no);
        case Foreach(each) => ErrorsOfDetached(each);
        case _ =>
      }
    }
  }

  /** Definitions that differ in nothing but their `runAfter` edges have the same connector errors. */
  lemma {:induction false} RunAfterIgnored(a: Actions, b: Actions)
    requires Detached(a) == Detached(b)
    ensures ConnectorErrors(Walk(a)) == ConnectorErrors(Walk(b))
  {
    hide ConnectorErrors, Walk, Detached;
    ErrorsOfDetached(a);
    ErrorsOfDetached(b);
  }

  /** The checker does not look at `runAfter`: it accepts the branch whose dependency lies in the enclosing scope. */
  lemma OuterDependencyAccepted()
    ensures AllowedTree(FoundBranch()) && !SiblingDependencies(FoundBranch(), {})
  {
    CommandBodyAllowed();
    var found := CommandBody().tail.tail.tail.tail.head;
    assert AllowedTree(CommandBody().tail.tail.tail.tail);
    assert found.body.yes == FoundBranch();
  }
}
