/**
 The four stores behind the Planner/Excel synchronisation, and what one whole Foreach item of each flow does to them.
 Planner tasks are keyed by id; the three Excel tables keep their row order, because the connector reads and patches
 the first row that carries a key.
 */
module SyncModel {
  import opened Prelude
  import opened Text
  import opened Lists

  /** The Planner fields the flows read; `None` is a JSON null. */
  datatype Task = Task(title: Option<string>, percent: Option<int>, due: Option<string>)

  /** An Excel percentage: the text `string()` prints for it, and the integer `int()` reads from it, if any. */
  datatype Cell = Cell(shown: string, whole: Option<int>)

  function WholeCell(n: int): Cell { Cell(Decimal(n), Some(n)) }

  datatype PlannerStatus = Ativa | Concluida

  datatype SyncStatus = Sincronizado | Pendente | Conflito | Erro

  /** Columns filled in by people; the flows write them only when they create the row. */
  datatype Human = Human(assunto: Option<string>, contexto: string, estadoAtual: string, decisao: string,
                         pendencia: string, proximoPasso: string, fonteUrl: string, dataFonte: string, validade: string)

  /** A row of tbMemoriaCopilot. */
  datatype MemoryRow = MemoryRow(memoryId: string, taskId: string, human: Human,
                                 titulo: Option<string>, status: PlannerStatus, percentual: Option<Cell>,
                                 prazo: Option<string>, versao: int, contentHash: string,
                                 sync: SyncStatus, applied: string)

  datatype Resultado = NadaAinda | ComandoSincronizado | ComandoConflito | ComandoErro

  datatype Detalhe = SemDetalhe | MemoriaNaoEncontrada | PlannerMudou | FalhaAoAtualizar | OutroDetalhe(text: string)

  /** A row of tbAtualizacoesPlanner; `pending` is AtualizarPlanner = 'SIM'. */
  datatype Command = Command(memoryId: string, taskId: string, titulo: Option<string>, percentual: Option<Cell>,
                             prazo: Option<string>, pending: bool, resultado: Resultado, detalhe: Detalhe)

  datatype Origem = FromPlanner | FromExcel

  datatype Tipo = EventoCriada | EventoAtualizada | EventoConflito | EventoPlannerAtualizado

  /** A row of tbHistoricoCopilot; `versao` is `None` where the flow writes an empty cell. */
  datatype Event = Event(memoryId: string, taskId: string, versao: Option<int>, origem: Origem, tipo: Tipo,
                         signature: string)

  datatype State = State(planner: map<string, Task>, memory: seq<MemoryRow>, commands: seq<Command>,
                         history: seq<Event>)

  /** What became of a call to UpdateTask: a call that fails or times out may still have reached Planner. */
  datatype Outcome = Acknowledged | Rejected(landed: bool) | Expired(landed: bool)

  // ---------------------------------------------------------------- signatures

  function Signature(id: string, title: string, percent: string, due: string): string {
    id + "|" + title + "|" + percent + "|" + due
  }

  function TaskSignature(id: string, t: Task): string {
    Signature(id, t.title.GetOr(""), Decimal(t.percent.GetOr(0)), t.due.GetOr(""))
  }

  function ShownPercent(c: Command): string {
    if c.percentual.Some? then c.percentual.value.shown else Decimal(0)
  }

  /** `int(coalesce(PlannerPercentual, 0))`; `None` when the conversion fails. */
  function WholePercent(c: Command): Option<int> {
    if c.percentual.Some? then c.percentual.value.whole else Some(0)
  }

  function CommandSignature(c: Command): string {
    Signature(c.taskId, c.titulo.GetOr(""), ShownPercent(c), c.prazo.GetOr(""))
  }

  // ---------------------------------------------------------------- table access

  function IndexById(rows: seq<MemoryRow>, key: string): (i: nat)
    ensures i <= |rows|
    ensures forall j :: 0 <= j < i ==> rows[j].memoryId != key
    ensures i < |rows| ==> rows[i].memoryId == key
  {
    First(rows, (r: MemoryRow) => r.memoryId == key)
  }

  function IndexByTask(rows: seq<MemoryRow>, id: string): (i: nat)
    ensures i <= |rows|
    ensures forall j :: 0 <= j < i ==> rows[j].taskId != id
    ensures i < |rows| ==> rows[i].taskId == id
  {
    First(rows, (r: MemoryRow) => r.taskId == id)
  }

  function IndexOfCommand(rows: seq<Command>, key: string): (i: nat)
    ensures i <= |rows|
    ensures forall j :: 0 <= j < i ==> rows[j].memoryId != key
    ensures i < |rows| ==> rows[i].memoryId == key
  {
    First(rows, (c: Command) => c.memoryId == key)
  }

  /** The rows a `$top 1` query returns: none, or the first match. */
  function TopOne<T>(rows: seq<T>, i: nat): (top: seq<T>)
    requires i <= |rows|
    ensures |top| <= 1 && (|top| == 1 <==> i < |rows|)
  {
    if i < |rows| then [rows[i]] else []
  }

  function IndexOfPending(rows: seq<Command>, id: string): (i: nat)
    ensures i <= |rows|
    ensures forall j :: 0 <= j < i ==> !(rows[j].taskId == id && rows[j].pending)
    ensures i < |rows| ==> rows[i].taskId == id && rows[i].pending
  {
    First(rows, (c: Command) => c.taskId == id && c.pending)
  }

  predicate HasPending(rows: seq<Command>, id: string) {
    IndexOfPending(rows, id) < |rows|
  }

  datatype MemoryPatch =
    | SetSync(status: SyncStatus)
    | CopyTask(task: Task, versao: int, signature: string)
    | CopyCommand(command: Command, signature: string)

  function StatusOf(percent: Option<int>): PlannerStatus {
    if percent == Some(100) then Concluida else Ativa
  }

  function TaskCell(t: Task): Option<Cell> {
    if t.percent.Some? then Some(WholeCell(t.percent.value)) else None
  }

  function PatchRow(r: MemoryRow, p: MemoryPatch): MemoryRow {
    match p
    case SetSync(status) => r.(sync := status)
    case CopyTask(t, versao, sig) =>
      r.(titulo := t.title, status := StatusOf(t.percent), percentual := TaskCell(t), prazo := t.due,
      versao := versao, contentHash := sig, sync := Sincronizado, applied := sig)
    case CopyCommand(c, sig) =>
      r.(titulo := c.titulo, percentual := c.percentual, prazo := c.prazo,
      contentHash := sig, sync := Sincronizado, applied := sig)
  }

  /** PatchItem on tbMemoriaCopilot: the first row with the key, and only that one. */
  function PatchMemory(rows: seq<MemoryRow>, key: string, p: MemoryPatch): seq<MemoryRow> {
    var i := IndexById(rows, key);
    if i < |rows| then rows[i := PatchRow(rows[i], p)] else rows
  }

  datatype CommandPatch = SetResult(resultado: Resultado, detalhe: Detalhe) | Clear

  function PatchCommandRow(c: Command, p: CommandPatch): Command {
    match p
    case SetResult(r, d) => c.(resultado := r, detalhe := d)
    case Clear => c.(pending := false, resultado := ComandoSincronizado, detalhe := SemDetalhe)
  }

  /** PatchItem on tbAtualizacoesPlanner, which the flow keys by MemoryId. */
  function PatchCommand(rows: seq<Command>, key: string, p: CommandPatch): seq<Command> {
    var i := IndexOfCommand(rows, key);
    if i < |rows| then rows[i := PatchCommandRow(rows[i], p)] else rows
  }

  function MemoryIdOf(taskId: string): string { "planner-" + taskId }

  function NewRow(id: string, t: Task, sig: string): MemoryRow {
    MemoryRow(MemoryIdOf(id), id, Human(t.title, "", "", "", "", "", "", "", "ativa"),
              t.title, StatusOf(t.percent), TaskCell(t), t.due, 1, sig, Sincronizado, sig)
  }

  /** What UpdateTask stores: an empty deadline becomes null. */
  function WrittenTask(c: Command, percent: int): Task {
    Task(c.titulo, Some(percent), if c.prazo.GetOr("") == "" then None else c.prazo)
  }

  // ---------------------------------------------------------------- one item of each flow

  /** One item of the Planner-to-Excel flow, for a task as it was when the flow listed it. */
  function PlannerItem(s: State, id: string, t: Task): State {
    var sig := TaskSignature(id, t);
    var i := IndexByTask(s.memory, id);
    if i == |s.memory| then CreateItem(s, id, t, sig)
    else if s.memory[i].applied == sig then s
    else if HasPending(s.commands, id) then PreserveItem(s, id, s.memory[i], sig)
    else RefreshItem(s, id, t, s.memory[i], sig)
  }

  function CreateItem(s: State, id: string, t: Task, sig: string): State {
    s.(memory := s.memory + [NewRow(id, t, sig)],
    history := s.history + [Event(MemoryIdOf(id), id, Some(1), FromPlanner, EventoCriada, sig)])
  }

  /** Planner moved while a command waits: the memory is kept and marked. */
  function PreserveItem(s: State, id: string, row: MemoryRow, sig: string): State {
    s.(memory := PatchMemory(s.memory, row.memoryId, SetSync(Conflito)),
    history := s.history + [Event(row.memoryId, id, Some(row.versao), FromPlanner, EventoConflito, sig)])
  }

  function RefreshItem(s: State, id: string, t: Task, row: MemoryRow, sig: string): State {
    s.(memory := PatchMemory(s.memory, row.memoryId, CopyTask(t, row.versao + 1, sig)),
    history := s.history + [Event(row.memoryId, id, Some(row.versao + 1), FromPlanner, EventoAtualizada, sig)])
  }

  predicate Landed(c: Command, o: Outcome) {
    WholePercent(c).Some? && (o.Acknowledged? || o.landed)
  }

  /** Planner after the flow asked it to apply `c`: a percentage that is no integer fails before the call. */
  function PlannerAfter(planner: map<string, Task>, c: Command, o: Outcome): map<string, Task> {
    if Landed(c, o) then planner[c.taskId := WrittenTask(c, WholePercent(c).value)] else planner
  }

  /** One item of the Excel-to-Planner flow, for a command as it was when the flow listed it. */
  function CommandItem(s: State, c: Command, o: Outcome): State {
    if c.taskId !in s.planner then s
    else
      var current := TaskSignature(c.taskId, s.planner[c.taskId]);
      var i := IndexById(s.memory, c.memoryId);
      if i == |s.memory| then
        s.(commands := PatchCommand(s.commands, c.memoryId, SetResult(ComandoErro, MemoriaNaoEncontrada)))
      else if s.memory[i].applied != current then ConflictItem(s, c, current)
      else ApplyItem(s, c, o)
  }

  function ConflictItem(s: State, c: Command, current: string): State {
    if IndexOfCommand(s.commands, c.memoryId) == |s.commands| then s
    else
      s.(commands := PatchCommand(s.commands, c.memoryId, SetResult(ComandoConflito, PlannerMudou)),
      memory := PatchMemory(s.memory, c.memoryId, SetSync(Conflito)),
      history := s.history + [Event(c.memoryId, c.taskId, None, FromExcel, EventoConflito, current)])
  }

  /** The guarded branch. A command row that has vanished stops the bookkeeping where the flow first patches it. */
  function ApplyItem(s: State, c: Command, o: Outcome): State {
    var planner := PlannerAfter(s.planner, c, o);
    var missing := IndexOfCommand(s.commands, c.memoryId) == |s.commands|;
    if WholePercent(c).Some? && o.Acknowledged? then
      if missing then
        s.(planner := planner, memory := PatchMemory(s.memory, c.memoryId, SetSync(Pendente)))
      else
        s.(planner := planner,
        commands := PatchCommand(s.commands, c.memoryId, Clear),
        memory := PatchMemory(s.memory, c.memoryId, CopyCommand(c, CommandSignature(c))),
        history := s.history + [Event(c.memoryId, c.taskId, None, FromExcel, EventoPlannerAtualizado,
                                      CommandSignature(c))])
    else
      s.(planner := planner,
      memory := PatchMemory(s.memory, c.memoryId, SetSync(Erro)),
      commands := PatchCommand(s.commands, c.memoryId, SetResult(ComandoErro, FalhaAoAtualizar)))
  }

  // ---------------------------------------------------------------- whole passes and health

  /** The Planner-to-Excel Foreach over an already listed plan. */
  function PlannerPass(s: State, listing: seq<(string, Task)>): State
    decreases |listing|
  {
    if listing == [] then s
    else PlannerPass(PlannerItem(s, listing[0].0, listing[0].1), listing[1..])
  }

  /** The Excel-to-Planner Foreach; `outcomes[k]` is what Planner answers at the k-th command. */
  function CommandPass(s: State, listing: seq<Command>, outcomes: seq<Outcome>): State
    requires |outcomes| == |listing|
    decreases |listing|
  {
    if listing == [] then s
    else CommandPass(CommandItem(s, listing[0], outcomes[0]), listing[1..], outcomes[1..])
  }

  /** `listing` holds every task of the plan once, in whatever order Planner returns them. */
  ghost predicate IsListing(planner: map<string, Task>, listing: seq<(string, Task)>) {
    && (forall k :: 0 <= k < |listing| ==> listing[k].0 in planner && planner[listing[k].0] == listing[k].1)
    && (forall j, k :: 0 <= j < k < |listing| ==> listing[j].0 != listing[k].0)
    && (forall id :: id in planner ==> exists k :: 0 <= k < |listing| && listing[k].0 == id)
  }

  function PendingCommands(s: State): seq<Command> {
    Filter(s.commands, (c: Command) => c.pending)
  }

  function HealthProblems(memory: seq<MemoryRow>): seq<MemoryRow> {
    Filter(memory, (r: MemoryRow) => r.sync == Conflito || r.sync == Erro)
  }

  /** The health flow terminates Failed when its query finds a row. */
  predicate HealthFails(memory: seq<MemoryRow>) {
    |HealthProblems(memory)| > 0
  }
}
