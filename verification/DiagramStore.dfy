/** The versioned diagram store: one file per diagram, copies of overwritten files, and a manifest of content hashes. */
module DiagramStore {
  import opened Prelude

  datatype DiagramType = Flowchart | Class | Hexagonal

  function TypeValue(t: DiagramType): string {
    match t
    case Flowchart => "flowchart"
    case Class => "class"
    case Hexagonal => "hexagonal"
  }

  /** A clock reading printed as `%Y%m%d_%H%M%S`. */
  type Stamp = s: string | |s| == 15 witness "19700101_000000"

  const DIGEST_LENGTH := 12

  /** The truncated hash and the character test the file names are built from. */
  datatype Naming = Naming(hash: string -> string, alnum: char -> bool) {
    ghost predicate Valid() {
      forall text :: |hash(text)| == DIGEST_LENGTH
    }
  }

  datatype Entry = Entry(safeId: string, filename: string, filepath: string, diagramType: DiagramType,
                         contentHash: string, generatedAt: int)

  datatype Store = Store(files: map<string, string>, versions: map<string, string>, diagrams: map<string, Entry>,
                         lastUpdated: Option<int>)

  const EMPTY_STORE := Store(map[], map[], map[], None)

  /** One iteration of `execute`: what is generated for one diagram, and the clock readings taken if it is saved. */
  datatype Task = Task(path: string, diagramType: DiagramType, content: Option<string>, generatedAt: int, stamp: Stamp)

  datatype Outcome = Empty | Idempotent | Changed(contentHash: string)

  // ---------------------------------------------------------------- names

  function Dashed(n: Naming, value: string): (r: string)
    ensures |r| == |value|
  {
    seq(|value|, k requires 0 <= k < |value| => if n.alnum(value[k]) then value[k] else '-')
  }

  function StripLeft(s: string): string {
    if s != "" && s[0] == '-' then StripLeft(s[1..]) else s
  }

  function StripRight(s: string): string {
    if s != "" && s[|s| - 1] == '-' then StripRight(s[..|s| - 1]) else s
  }

  function Readable(n: Naming, value: string): string {
    var dashed := Dashed(n, value);
    StripRight(StripLeft(if |dashed| > 96 then dashed[..96] else dashed))
  }

  /** Nothing but dashes. */
  predicate Dashes(s: string) {
    forall c :: c in s ==> c == '-'
  }

  lemma {:induction false} StripLeftExactly(s: string) returns (a: string)
    ensures s == a + StripLeft(s) && Dashes(a) && (StripLeft(s) != "" ==> StripLeft(s)[0] != '-')
  {
    a := "";
    if s != "" && s[0] == '-' {
      var rest := StripLeftExactly(s[1..]);
      a := "-" + rest;
      assert s == [s[0]] + s[1..];
    }
  }

  lemma {:induction false} StripRightExactly(s: string) returns (b: string)
    ensures s == StripRight(s) + b && Dashes(b)
    ensures var r := StripRight(s); r != "" ==> r[0] == s[0] && r[|r| - 1] != '-'
  {
    b := "";
    if s != "" && s[|s| - 1] == '-' {
      var rest := StripRightExactly(s[..|s| - 1]);
      b := rest + "-";
      assert s == s[..|s| - 1] + [s[|s| - 1]];
    }
  }

  /** The readable part: the first 96 characters, dashes for what is not alphanumeric, and no dashes at the ends. */
  lemma {:induction false} ReadableExactly(n: Naming, value: string)
    ensures var r := Readable(n, value);
            && (r != "" ==> r[0] != '-' && r[|r| - 1] != '-')
            && exists a, b ::
                 && Dashes(a) && Dashes(b)
                 && |a + r + b| == (if |value| < 96 then |value| else 96)
                 && forall k :: 0 <= k < |a + r + b| ==>
                                  (a + r + b)[k] == if n.alnum(value[k]) then value[k] else '-'
  {
    hide StripLeft, StripRight;
    var dashed := Dashed(n, value);
    var cut := if |dashed| > 96 then dashed[..96] else dashed;
    var a := StripLeftExactly(cut);
    var b := StripRightExactly(StripLeft(cut));
    assert cut == a + Readable(n, value) + b;
  }

  function SafeId(n: Naming, value: string): string {
    var readable := Readable(n, value);
    if readable != "" then readable + "-" + n.hash(value) else n.hash(value)
  }

  function FileName(n: Naming, id: string): string { SafeId(n, id) + ".md" }

  function VersionName(n: Naming, id: string, stamp: Stamp): string { SafeId(n, id) + "_" + stamp + ".md" }

  function DiagramId(path: string, t: DiagramType): string { path + "::" + TypeValue(t) }

  function IdOf(t: Task): string { DiagramId(t.path, t.diagramType) }

  function Fence(content: string): string { "```mermaid\n" + content + "\n```\n" }

  /** The names: the readable part and a dash, unless it is empty, then the digest; a copy adds its second. */
  lemma NamesSpelled(n: Naming, path: string, t: DiagramType, stamp: Stamp)
    ensures var id := path + "::" + (if t == Flowchart then "flowchart" else if t == Class then "class" else "hexagonal");
            var readable := Readable(n, id);
            var stem := (if readable == "" then "" else readable + "-") + n.hash(id);
            && DiagramId(path, t) == id && SafeId(n, id) == stem
            && FileName(n, id) == stem + ".md" && VersionName(n, id, stamp) == stem + "_" + stamp + ".md"
  {
  }

  lemma SameEnds(a: string, b: string, x: string, y: string)
    requires a + x == b + y && |x| == |y|
    ensures a == b && x == y
  {
    assert |a| == |b|;
    assert (a + x)[..|a|] == a && (b + y)[..|b|] == b;
    assert (a + x)[|a|..] == x && (b + y)[|b|..] == y;
  }

  /** Two diagrams share a file exactly when their readable parts and their digests both agree. */
  lemma {:induction false} SharedFileExactly(n: Naming, a: string, b: string)
    requires n.Valid()
    ensures FileName(n, a) == FileName(n, b) <==> Readable(n, a) == Readable(n, b) && n.hash(a) == n.hash(b)
  {
    hide Readable;
    if FileName(n, a) == FileName(n, b) {
      SameEnds(SafeId(n, a), SafeId(n, b), ".md", ".md");
      var ra, rb := Readable(n, a), Readable(n, b);
      var ha := if ra != "" then ra + "-" else "";
      var hb := if rb != "" then rb + "-" else "";
      assert SafeId(n, a) == ha + n.hash(a) && SafeId(n, b) == hb + n.hash(b);
      SameEnds(ha, hb, n.hash(a), n.hash(b));
      if ra != "" && rb != "" {
        SameEnds(ra, rb, "-", "-");
      }
    }
  }

  /** A diagram id determines its path and its type. */
  lemma DiagramIdInjective(p: string, q: string, t: DiagramType, u: DiagramType)
    requires DiagramId(p, t) == DiagramId(q, u)
    ensures p == q && t == u
  {
    var a, b := DiagramId(p, t), DiagramId(q, u);
    assert a[|a| - 1] == TypeValue(t)[|TypeValue(t)| - 1] && b[|b| - 1] == TypeValue(u)[|TypeValue(u)| - 1];
    SameEnds(p + "::", q + "::", TypeValue(t), TypeValue(u));
    SameEnds(p, q, "::", "::");
  }

  /** Two copies get one name exactly when they are of one file and of one second. */
  lemma {:induction false} SharedVersionExactly(n: Naming, a: string, b: string, s: Stamp, t: Stamp)
    ensures VersionName(n, a, s) == VersionName(n, b, t) <==> FileName(n, a) == FileName(n, b) && s == t
  {
    hide SafeId;
    if VersionName(n, a, s) == VersionName(n, b, t) {
      SameEnds(SafeId(n, a) + "_" + s, SafeId(n, b) + "_" + t, ".md", ".md");
      SameEnds(SafeId(n, a) + "_", SafeId(n, b) + "_", s, t);
      SameEnds(SafeId(n, a), SafeId(n, b), "_", "_");
    }
    if FileName(n, a) == FileName(n, b) {
      SameEnds(SafeId(n, a), SafeId(n, b), ".md", ".md");
    }
  }

  lemma FenceInjective(c: string, d: string)
    requires Fence(c) == Fence(d)
    ensures c == d
  {
    SameEnds("```mermaid\n" + c, "```mermaid\n" + d, "\n```\n", "\n```\n");
    assert ("```mermaid\n" + c)[11..] == c && ("```mermaid\n" + d)[11..] == d;
  }

  // ---------------------------------------------------------------- the store

  function Save(n: Naming, s: Store, t: Task, content: string): Store {
    var id := IdOf(t);
    var name := FileName(n, id);
    Store(s.files[name := Fence(content)],
          if name in s.files then s.versions[VersionName(n, id, t.stamp) := s.files[name]] else s.versions,
          s.diagrams[id := Entry(SafeId(n, id), name, t.path, t.diagramType, n.hash(content), t.generatedAt)],
          Some(t.generatedAt))
  }

  /**
   What a save writes: the fenced content under the diagram's file, the text it replaces under the copy of this second,
   an entry with path, type, digest and time, and that time for the manifest; every other file, copy and entry stays.
   */
  lemma SaveExactly(n: Naming, s: Store, t: Task, content: string)
    ensures var after, id, name := Save(n, s, t, content), DiagramId(t.path, t.diagramType),
                                   FileName(n, DiagramId(t.path, t.diagramType));
            && name in after.files && after.files[name] == "```mermaid\n" + content + "\n```\n"
            && after.files - {name} == s.files - {name}
            && (name !in s.files ==> after.versions == s.versions)
            && (name in s.files ==> after.versions == s.versions[VersionName(n, id, t.stamp) := s.files[name]])
            && id in after.diagrams && after.diagrams - {id} == s.diagrams - {id}
            && after.lastUpdated == Some(t.generatedAt)
            && var e := after.diagrams[id];
               && e.safeId == SafeId(n, id) && e.filename == name && e.filepath == t.path
               && e.diagramType == t.diagramType && e.contentHash == n.hash(content) && e.generatedAt == t.generatedAt
  {
    assert IdOf(t) == DiagramId(t.path, t.diagramType);
  }

  predicate IsIdempotent(s: Store, id: string, newHash: string) {
    id in s.diagrams && s.diagrams[id].contentHash == newHash
  }

  function OutcomeOf(n: Naming, s: Store, t: Task): Outcome {
    if t.content.GetOr("") == "" then Empty
    else if IsIdempotent(s, IdOf(t), n.hash(t.content.value)) then Idempotent
    else Changed(n.hash(t.content.value))
  }

  function Process(n: Naming, s: Store, t: Task): Store {
    if OutcomeOf(n, s, t).Changed? then Save(n, s, t, t.content.value) else s
  }

  /** Nothing is saved for missing or empty content, nor for content whose digest is recorded for the diagram already. */
  lemma OutcomeExactly(n: Naming, s: Store, t: Task)
    ensures var o, blank := OutcomeOf(n, s, t), t.content == None || t.content == Some("");
            var recorded := !blank && IdOf(t) in s.diagrams
                            && s.diagrams[IdOf(t)].contentHash == n.hash(t.content.value);
            && (o == Empty <==> blank) && (o == Idempotent <==> recorded)
            && (!blank && !recorded ==> o == Changed(n.hash(t.content.value)))
            && (blank || recorded ==> Process(n, s, t) == s)
  {
  }

  function ProcessAll(n: Naming, s: Store, tasks: seq<Task>): Store {
    if tasks == [] then s
    else Process(n, ProcessAll(n, s, tasks[..|tasks| - 1]), tasks[|tasks| - 1])
  }

  /** What `execute` returns: the outcome of the last task of every diagram. */
  function Results(n: Naming, s: Store, tasks: seq<Task>): map<string, Outcome> {
    if tasks == [] then map[]
    else
      var earlier, t := tasks[..|tasks| - 1], tasks[|tasks| - 1];
      Results(n, s, earlier)[IdOf(t) := OutcomeOf(n, ProcessAll(n, s, earlier), t)]
  }

  /** A call reports every diagram, each with the outcome of its last task in the state that the tasks before it left. */
  lemma {:induction false} ResultsExactly(n: Naming, s: Store, tasks: seq<Task>, k: nat)
    requires k < |tasks| && forall j :: k < j < |tasks| ==> IdOf(tasks[j]) != IdOf(tasks[k])
    ensures var r := Results(n, s, tasks);
            IdOf(tasks[k]) in r && r[IdOf(tasks[k])] == OutcomeOf(n, ProcessAll(n, s, tasks[..k]), tasks[k])
  {
    hide IdOf, OutcomeOf, ProcessAll;
    var last := |tasks| - 1;
    if k < last {
      var earlier := tasks[..last];
      assert earlier[..k] == tasks[..k] && earlier[k] == tasks[k];
      ResultsExactly(n, s, earlier, k);
    }
  }

  /** The tasks of one call: the file is analysed once, so the content depends on the type alone. */
  function TasksOf(path: string, types: seq<DiagramType>, generate: DiagramType -> Option<string>, times: nat -> int,
          stamps: nat -> Stamp): (r: seq<Task>)
    ensures |r| == |types|
  {
    seq(|types|, k requires 0 <= k < |types| => Task(path, types[k], generate(types[k]), times(k), stamps(k)))
  }

  function GetDiagram(n: Naming, s: Store, id: string): Option<string> {
    var name := if id in s.diagrams then s.diagrams[id].filename else FileName(n, id);
    if name in s.files then Some(s.files[name]) else None
  }

  /** Reading goes to the file its entry names, or without an entry to the diagram's own file. */
  lemma GetDiagramReads(n: Naming, s: Store, id: string, name: string)
    requires if id in s.diagrams then name == s.diagrams[id].filename else name == FileName(n, id)
    ensures GetDiagram(n, s, id) == if name in s.files then Some(s.files[name]) else None
  {
  }

  class FileDiagramRepository {
    const naming: Naming
    var files: map<string, string>
    var versions: map<string, string>
    var diagrams: map<string, Entry>
    var lastUpdated: Option<int>

    constructor (naming: Naming)
      ensures this.naming == naming && Contents() == EMPTY_STORE
    {
      this.naming := naming;
      files, versions, diagrams, lastUpdated := map[], map[], map[], None;
    }

    function Contents(): Store
      reads this
    {
      Store(files, versions, diagrams, lastUpdated)
    }

    method SaveDiagram(t: Task, content: string)
      modifies this
      ensures Contents() == Save(naming, old(Contents()), t, content)
    {
      var id := IdOf(t);
      var safeId := SafeId(naming, id);
      var outputFile := safeId + ".md";
      if outputFile in files {
        versions := versions[VersionName(naming, id, t.stamp) := files[outputFile]];
      }
      files := files[outputFile := Fence(content)];
      diagrams := diagrams[id := Entry(safeId, outputFile, t.path, t.diagramType, naming.hash(content), t.generatedAt)];
      lastUpdated := Some(t.generatedAt);
    }

    /** `DiagramGenerationUseCase.execute` on this repository. */
    method Execute(path: string, types: seq<DiagramType>, generate: DiagramType -> Option<string>, times: nat -> int,
            stamps: nat -> Stamp) returns (results: map<string, Outcome>)
      modifies this
      ensures Contents() == ProcessAll(naming, old(Contents()), TasksOf(path, types, generate, times, stamps))
      ensures results == Results(naming, old(Contents()), TasksOf(path, types, generate, times, stamps))
    {
      hide FileName, Fence, SafeId, VersionName, Save, TypeValue;
      ghost var before := Contents();
      ghost var tasks := TasksOf(path, types, generate, times, stamps);
      results := map[];
      for k := 0 to |types|
        invariant Contents() == ProcessAll(naming, before, tasks[..k])
        invariant results == Results(naming, before, tasks[..k])
      {
        assert tasks[..k + 1][..k] == tasks[..k];
        var t := Task(path, types[k], generate(types[k]), times(k), stamps(k));
        assert t == tasks[k];
        var id := DiagramId(path, types[k]);
        var content := generate(types[k]);
        if content.GetOr("") == "" {
          results := results[id := Empty];
          continue;
        }
        var contentHash := naming.hash(content.value);
        if IsIdempotent(Contents(), id, contentHash) {
          results := results[id := Idempotent];
          continue;
        }
        SaveDiagram(t, content.value);
        results := results[id := Changed(contentHash)];
      }
      assert tasks[..|types|] == tasks;
    }
  }

  // ---------------------------------------------------------------- the manifest describes the files

  ghost predicate Describes(n: Naming, s: Store, id: string)
    requires id in s.diagrams
  {
    var e := s.diagrams[id];
    && e.safeId == SafeId(n, id) && e.filename == FileName(n, id) && e.filename in s.files
    && exists content :: content != "" && s.files[e.filename] == Fence(content) && e.contentHash == n.hash(content)
  }

  /** Every entry's hash is that of the stored content, and every file has an entry. */
  ghost predicate Consistent(n: Naming, s: Store) {
    && (forall id :: id in s.diagrams ==> Describes(n, s, id))
    && (forall f :: f in s.files ==> exists id :: id in s.diagrams && FileName(n, id) == f)
  }

  /** A new repository is consistent, so every run from it without colliding identifiers stays so. */
  lemma {:induction false} RunFromEmptyConsistent(n: Naming, tasks: seq<Task>)
    requires n.Valid() && CollisionFree(n, Ids(tasks))
    ensures Consistent(n, ProcessAll(n, EMPTY_STORE, tasks))
  {
    hide ProcessAll, Ids;
    assert EMPTY_STORE.diagrams.Keys + Ids(tasks) == Ids(tasks);
    RunStaysConsistent(n, EMPTY_STORE, tasks);
  }

  /** Another diagram's entry with another hash stands for the file that `t` writes. */
  ghost predicate Clobbers(n: Naming, s: Store, t: Task) {
    && OutcomeOf(n, s, t).Changed?
    && exists id :: id in s.diagrams && id != IdOf(t) && FileName(n, id) == FileName(n, IdOf(t))
                    && s.diagrams[id].contentHash != n.hash(t.content.value)
  }

  /** Saving leaves another entry true exactly when that entry's file is another one, or its hash is the same. */
  lemma {:induction false} SaveKeepsEntryExactly(n: Naming, s: Store, t: Task, other: string)
    requires OutcomeOf(n, s, t).Changed? && other in s.diagrams && other != IdOf(t) && Describes(n, s, other)
    ensures other in Process(n, s, t).diagrams
    ensures Describes(n, Process(n, s, t), other) <==>
            (FileName(n, other) == FileName(n, IdOf(t)) ==> s.diagrams[other].contentHash == n.hash(t.content.value))
  {
    hide FileName, SafeId, Fence, IdOf;
    var content, after := t.content.value, Process(n, s, t);
    if FileName(n, other) == FileName(n, IdOf(t)) {
      assert after.files[FileName(n, other)] == Fence(content);
      forall c | Fence(c) == Fence(content) ensures c == content {
        FenceInjective(c, content);
      }
    }
  }

  lemma {:induction false} SaveKeepsOwners(n: Naming, s: Store, t: Task, f: string)
    requires OutcomeOf(n, s, t).Changed? && f in Process(n, s, t).files
    requires f in s.files ==> exists id :: id in s.diagrams && FileName(n, id) == f
    ensures exists id :: id in Process(n, s, t).diagrams && FileName(n, id) == f
  {
    hide FileName, SafeId, Fence, IdOf;
    if f == FileName(n, IdOf(t)) {
      assert IdOf(t) in Process(n, s, t).diagrams;
    } else {
      var id :| id in s.diagrams && FileName(n, id) == f;
      assert id in Process(n, s, t).diagrams;
    }
  }

  lemma {:induction false} SaveDescribesItself(n: Naming, s: Store, t: Task)
    requires OutcomeOf(n, s, t).Changed?
    ensures IdOf(t) in Process(n, s, t).diagrams && Describes(n, Process(n, s, t), IdOf(t))
  {
    hide FileName, SafeId, Fence, IdOf;
  }

  /** A task keeps the manifest describing the files exactly when it does not write another diagram's file. */
  lemma {:induction false} ConsistentExactly(n: Naming, s: Store, t: Task)
    requires Consistent(n, s)
    ensures Consistent(n, Process(n, s, t)) <==> !Clobbers(n, s, t)
  {
    hide FileName, SafeId, Fence, IdOf, Describes, Save;
    var after := Process(n, s, t);
    if OutcomeOf(n, s, t).Changed? {
      EntriesAfter(n, s, t);
      SaveDescribesItself(n, s, t);
      forall other | other in s.diagrams && other != IdOf(t)
        ensures Describes(n, after, other) <==>
                (FileName(n, other) == FileName(n, IdOf(t)) ==>
                   s.diagrams[other].contentHash == n.hash(t.content.value))
      {
        SaveKeepsEntryExactly(n, s, t, other);
      }
      forall f | f in after.files ensures exists id :: id in after.diagrams && FileName(n, id) == f {
        SaveKeepsOwners(n, s, t, f);
      }
    }
  }

  lemma EntriesAfter(n: Naming, s: Store, t: Task)
    requires OutcomeOf(n, s, t).Changed?
    ensures Process(n, s, t).diagrams.Keys == s.diagrams.Keys + {IdOf(t)}
  {
  }

  function Ids(tasks: seq<Task>): set<string> {
    set t | t in tasks :: IdOf(t)
  }

  /** No two of the identifiers have one digest. */
  ghost predicate CollisionFree(n: Naming, ids: set<string>) {
    forall a, b :: a in ids && b in ids && n.hash(a) == n.hash(b) ==> a == b
  }

  lemma {:induction false} EntriesOfRun(n: Naming, s: Store, tasks: seq<Task>)
    ensures ProcessAll(n, s, tasks).diagrams.Keys <= s.diagrams.Keys + Ids(tasks)
  {
    hide FileName, SafeId, Fence, IdOf;
    if tasks != [] {
      var earlier, t := tasks[..|tasks| - 1], tasks[|tasks| - 1];
      EntriesOfRun(n, s, earlier);
      assert tasks == earlier + [t];
      assert IdOf(t) in Ids(tasks) && Ids(earlier) <= Ids(tasks);
    }
  }

  /** When no identifiers of a run collide, the manifest describes the files after every task. */
  lemma {:induction false} RunStaysConsistent(n: Naming, s: Store, tasks: seq<Task>)
    requires n.Valid() && Consistent(n, s) && CollisionFree(n, s.diagrams.Keys + Ids(tasks))
    ensures Consistent(n, ProcessAll(n, s, tasks))
  {
    hide FileName, SafeId, Fence, IdOf, Readable, Process, Consistent, OutcomeOf;
    if tasks != [] {
      var earlier, t := tasks[..|tasks| - 1], tasks[|tasks| - 1];
      assert tasks == earlier + [t];
      assert IdOf(t) in Ids(tasks) && Ids(earlier) <= Ids(tasks);
      RunStaysConsistent(n, s, earlier);
      var before := ProcessAll(n, s, earlier);
      EntriesOfRun(n, s, earlier);
      if Clobbers(n, before, t) {
        var id :| id in before.diagrams && id != IdOf(t) && FileName(n, id) == FileName(n, IdOf(t));
        SharedFileExactly(n, id, IdOf(t));
        assert false;
      }
      ConsistentExactly(n, before, t);
    }
  }

  /** In a consistent store without collisions, reading a diagram finds it exactly when it has an entry. */
  lemma {:induction false} GetDiagramExactly(n: Naming, s: Store, id: string)
    requires n.Valid() && Consistent(n, s) && CollisionFree(n, s.diagrams.Keys + {id})
    ensures GetDiagram(n, s, id).Some? <==> id in s.diagrams
    ensures id in s.diagrams ==>
              exists c :: GetDiagram(n, s, id) == Some(Fence(c)) && n.hash(c) == s.diagrams[id].contentHash
  {
    hide SafeId, Fence, Readable, FileName;
    if id in s.diagrams {
      assert Describes(n, s, id);
    } else if FileName(n, id) in s.files {
      var other :| other in s.diagrams && FileName(n, other) == FileName(n, id);
      SharedFileExactly(n, other, id);
      assert false;
    }
  }

  /**
   After a task with content, the diagram's file holds that content exactly when the skipped content, if it was
   skipped, is the stored one; skipping a different content takes two contents with one digest.
   */
  lemma {:induction false} StoredContentExactly(n: Naming, s: Store, t: Task)
    requires Consistent(n, s) && t.content.GetOr("") != ""
    ensures var after := Process(n, s, t);
            && FileName(n, IdOf(t)) in after.files
            && (after.files[FileName(n, IdOf(t))] != Fence(t.content.value) <==>
                  && IdOf(t) in s.diagrams
                  && exists c :: c != t.content.value && n.hash(c) == n.hash(t.content.value)
                                 && s.files[FileName(n, IdOf(t))] == Fence(c)
                                 && s.diagrams[IdOf(t)].contentHash == n.hash(c))
  {
    hide FileName, SafeId, Fence, IdOf;
    var id, content := IdOf(t), t.content.value;
    if id in s.diagrams {
      assert Describes(n, s, id);
      var stored :| stored != "" && s.files[FileName(n, id)] == Fence(stored)
          && s.diagrams[id].contentHash == n.hash(stored);
      if Fence(stored) == Fence(content) {
        FenceInjective(stored, content);
      }
      forall c | s.files[FileName(n, id)] == Fence(c) ensures c == stored {
        FenceInjective(c, stored);
      }
    }
  }

  // ---------------------------------------------------------------- idempotence

  /** A task whose diagram is empty or already recorded changes nothing. */
  predicate Settled(n: Naming, s: Store, t: Task) {
    !OutcomeOf(n, s, t).Changed?
  }

  lemma {:induction false} SettledTasksChangeNothing(n: Naming, s: Store, tasks: seq<Task>)
    requires forall t :: t in tasks ==> Settled(n, s, t)
    ensures ProcessAll(n, s, tasks) == s
    ensures forall id :: id in Results(n, s, tasks) ==> !Results(n, s, tasks)[id].Changed?
  {
    hide OutcomeOf, IdOf;
    if tasks != [] {
      var earlier, t := tasks[..|tasks| - 1], tasks[|tasks| - 1];
      assert tasks == earlier + [t];
      SettledTasksChangeNothing(n, s, earlier);
      assert Settled(n, s, t);
    }
  }

  /** `t` and `u` come from one analysis: the same diagram has the same content. */
  ghost predicate SameSource(t: Task, u: Task) {
    IdOf(t) == IdOf(u) ==> t.content == u.content
  }

  /** Every task of a call is settled afterwards, whatever the clock then reads. */
  lemma {:induction false} CallSettles(n: Naming, s: Store, tasks: seq<Task>, u: Task)
    requires forall t :: t in tasks ==> SameSource(t, u)
    requires exists t :: t in tasks && IdOf(t) == IdOf(u)
    ensures Settled(n, ProcessAll(n, s, tasks), u)
  {
    hide FileName, SafeId, Fence, IdOf;
    var earlier, t := tasks[..|tasks| - 1], tasks[|tasks| - 1];
    assert tasks == earlier + [t];
    assert SameSource(t, u);
    if IdOf(t) != IdOf(u) {
      CallSettles(n, s, earlier, u);
    }
  }

  /**
   Executing again on an unchanged source reports no change and leaves files, versions and manifest untouched. No
   assumption is made about the hash, about repeated types, or about the clock.
   */
  lemma {:induction false} ReexecutionIsIdempotent(n: Naming, s: Store, path: string, types: seq<DiagramType>,
          generate: DiagramType -> Option<string>, times: nat -> int, stamps: nat -> Stamp, laterTimes: nat -> int,
          laterStamps: nat -> Stamp)
    ensures var after := ProcessAll(n, s, TasksOf(path, types, generate, times, stamps));
            var again := TasksOf(path, types, generate, laterTimes, laterStamps);
            && ProcessAll(n, after, again) == after
            && forall id :: id in Results(n, after, again) ==> !Results(n, after, again)[id].Changed?
  {
    hide ProcessAll, Results, OutcomeOf;
    var first := TasksOf(path, types, generate, times, stamps);
    var after := ProcessAll(n, s, first);
    var again := TasksOf(path, types, generate, laterTimes, laterStamps);
    forall u | u in again ensures Settled(n, after, u) {
      var k :| 0 <= k < |again| && again[k] == u;
      assert first[k] in first && IdOf(first[k]) == IdOf(u);
      forall t | t in first ensures SameSource(t, u) {
        if IdOf(t) == IdOf(u) {
          DiagramIdInjective(t.path, u.path, t.diagramType, u.diagramType);
        }
      }
      CallSettles(n, s, first, u);
    }
    SettledTasksChangeNothing(n, after, again);
  }

  // ---------------------------------------------------------------- overwritten contents

  /** `text`, once written for `id`, is still the file or one of its copies. */
  ghost predicate Survives(n: Naming, s: Store, id: string, text: string) {
    || (FileName(n, id) in s.files && s.files[FileName(n, id)] == text)
    || exists stamp: Stamp :: HoldsCopy(n, s, id, stamp, text)
  }

  function VersionOf(n: Naming, t: Task): string { VersionName(n, IdOf(t), t.stamp) }

  /** Some copy of the diagram other than the one of `stamp` holds the text. */
  ghost predicate CopiedElsewhere(n: Naming, s: Store, id: string, stamp: Stamp, text: string) {
    exists other: Stamp :: other != stamp && HoldsCopy(n, s, id, other, text)
  }

  predicate HoldsCopy(n: Naming, s: Store, id: string, stamp: Stamp, text: string) {
    VersionName(n, id, stamp) in s.versions && s.versions[VersionName(n, id, stamp)] == text
  }

  /** The task overwrites a copy made in the same second, and nothing else holds what that copy held. */
  ghost predicate Loses(n: Naming, s: Store, t: Task) {
    && OutcomeOf(n, s, t).Changed? && FileName(n, IdOf(t)) in s.files && VersionOf(n, t) in s.versions
    && var copy := s.versions[VersionOf(n, t)];
       && copy != s.files[FileName(n, IdOf(t))] && copy != Fence(t.content.value)
       && !CopiedElsewhere(n, s, IdOf(t), t.stamp, copy)
  }

  /** A save moves the file into the copy of its second, and touches no other copy. */
  lemma {:induction false} SaveOnCopies(n: Naming, s: Store, t: Task, id: string, stamp: Stamp, text: string)
    requires OutcomeOf(n, s, t).Changed?
    ensures HoldsCopy(n, Process(n, s, t), id, stamp, text) <==>
            if FileName(n, id) == FileName(n, IdOf(t)) && stamp == t.stamp && FileName(n, id) in s.files
            then s.files[FileName(n, id)] == text
            else HoldsCopy(n, s, id, stamp, text)
  {
    hide FileName, VersionName, Fence, IdOf, SafeId;
    SharedVersionExactly(n, id, IdOf(t), stamp, t.stamp);
  }

  lemma {:induction false} KeptText(n: Naming, s: Store, t: Task, id: string, text: string)
    requires Survives(n, s, id, text) && !Loses(n, s, t)
    ensures Survives(n, Process(n, s, t), id, text)
  {
    hide FileName, VersionName, Fence, IdOf, SafeId, HoldsCopy;
    var after := Process(n, s, t);
    if OutcomeOf(n, s, t).Changed? {
      if FileName(n, id) in s.files && s.files[FileName(n, id)] == text {
        if FileName(n, id) == FileName(n, IdOf(t)) {
          SaveOnCopies(n, s, t, id, t.stamp, text);
        }
      } else {
        var stamp: Stamp :| HoldsCopy(n, s, id, stamp, text);
        SaveOnCopies(n, s, t, id, stamp, text);
        if !HoldsCopy(n, after, id, stamp, text) {
          OverwrittenCopy(n, s, t, id, text);
        }
      }
    }
  }

  /** The copy that a task overwrites without losing its text. */
  lemma {:induction false} OverwrittenCopy(n: Naming, s: Store, t: Task, id: string, text: string)
    requires OutcomeOf(n, s, t).Changed? && !Loses(n, s, t) && FileName(n, id) == FileName(n, IdOf(t))
    requires FileName(n, id) in s.files && s.files[FileName(n, id)] != text && HoldsCopy(n, s, id, t.stamp, text)
    ensures Survives(n, Process(n, s, t), id, text)
  {
    hide FileName, VersionName, Fence, IdOf, SafeId;
    SharedVersionExactly(n, id, IdOf(t), t.stamp, t.stamp);
    assert s.versions[VersionOf(n, t)] == text;
    if text != Fence(t.content.value) {
      var other: Stamp :| other != t.stamp && HoldsCopy(n, s, IdOf(t), other, text);
      SharedVersionExactly(n, id, IdOf(t), other, other);
      assert HoldsCopy(n, s, id, other, text);
      SaveOnCopies(n, s, t, id, other, text);
    }
  }

  lemma {:induction false} LostText(n: Naming, s: Store, t: Task) returns (text: string)
    requires Loses(n, s, t)
    ensures Survives(n, s, IdOf(t), text) && !Survives(n, Process(n, s, t), IdOf(t), text)
  {
    hide FileName, VersionName, Fence, IdOf, SafeId;
    var after, id := Process(n, s, t), IdOf(t);
    text := s.versions[VersionOf(n, t)];
    assert HoldsCopy(n, s, id, t.stamp, text);
    forall stamp: Stamp ensures !HoldsCopy(n, after, id, stamp, text) {
      SaveOnCopies(n, s, t, id, stamp, text);
    }
  }

  /** A task keeps every text of every diagram exactly when it does not overwrite the only place that holds one. */
  lemma {:induction false} KeepsTextsExactly(n: Naming, s: Store, t: Task)
    ensures (forall id, text :: Survives(n, s, id, text) ==> Survives(n, Process(n, s, t), id, text)) <==>
            !Loses(n, s, t)
  {
    hide Survives, Loses, Process;
    if Loses(n, s, t) {
      var text := LostText(n, s, t);
      assert Survives(n, s, IdOf(t), text);
    } else {
      forall id, text | Survives(n, s, id, text) ensures Survives(n, Process(n, s, t), id, text) {
        KeptText(n, s, t, id, text);
      }
    }
  }

  lemma LastTask(n: Naming, s: Store, earlier: seq<Task>, t: Task)
    ensures ProcessAll(n, s, earlier + [t]) == Process(n, ProcessAll(n, s, earlier), t)
  {
    assert (earlier + [t])[..|earlier|] == earlier;
  }

  /** No task of the run loses a text. */
  ghost predicate NothingLost(n: Naming, s: Store, tasks: seq<Task>) {
    forall k :: 0 <= k < |tasks| ==> !Loses(n, ProcessAll(n, s, tasks[..k]), tasks[k])
  }

  lemma {:induction false} NothingLostEarlier(n: Naming, s: Store, earlier: seq<Task>, t: Task)
    requires NothingLost(n, s, earlier + [t])
    ensures NothingLost(n, s, earlier) && !Loses(n, ProcessAll(n, s, earlier), t)
  {
    hide Loses, ProcessAll;
    var tasks := earlier + [t];
    assert tasks[|earlier|] == t && tasks[..|earlier|] == earlier;
    forall k | 0 <= k < |earlier| ensures !Loses(n, ProcessAll(n, s, earlier[..k]), earlier[k]) {
      assert tasks[..k] == earlier[..k] && tasks[k] == earlier[k];
    }
  }

  lemma {:induction false} CarriedToTheEnd(n: Naming, s: Store, tasks: seq<Task>, k: nat, id: string, text: string)
    requires NothingLost(n, s, tasks) && k <= |tasks| && Survives(n, ProcessAll(n, s, tasks[..k]), id, text)
    ensures Survives(n, ProcessAll(n, s, tasks), id, text)
  {
    hide *;
    if k == |tasks| {
      assert tasks[..k] == tasks;
    } else {
      var earlier, t := tasks[..|tasks| - 1], tasks[|tasks| - 1];
      assert tasks == earlier + [t] && tasks[..k] == earlier[..k];
      NothingLostEarlier(n, s, earlier, t);
      CarriedToTheEnd(n, s, earlier, k, id, text);
      LastTask(n, s, earlier, t);
      KeptText(n, ProcessAll(n, s, earlier), t, id, text);
    }
  }

  /** In a run of which no task loses a text, whatever a task saved survives to the end. */
  lemma {:induction false} SavedContentSurvives(n: Naming, s: Store, tasks: seq<Task>, k: nat, content: string)
    requires NothingLost(n, s, tasks) && k < |tasks| && tasks[k].content == Some(content)
    requires OutcomeOf(n, ProcessAll(n, s, tasks[..k]), tasks[k]).Changed?
    ensures Survives(n, ProcessAll(n, s, tasks), IdOf(tasks[k]), Fence(content))
  {
    hide *;
    FreshlySaved(n, ProcessAll(n, s, tasks[..k]), tasks[k], content);
    LastTask(n, s, tasks[..k], tasks[k]);
    assert tasks[..k + 1] == tasks[..k] + [tasks[k]];
    CarriedToTheEnd(n, s, tasks, k + 1, IdOf(tasks[k]), Fence(content));
  }

  /** From every point of the run on, no text is missing that was there before. */
  ghost predicate TextsStay(n: Naming, s: Store, tasks: seq<Task>) {
    forall j, k, id, text :: 0 <= j <= k <= |tasks| && Survives(n, ProcessAll(n, s, tasks[..j]), id, text) ==>
                               Survives(n, ProcessAll(n, s, tasks[..k]), id, text)
  }

  lemma {:induction false} NothingLostPrefix(n: Naming, s: Store, tasks: seq<Task>, k: nat)
    requires NothingLost(n, s, tasks) && k <= |tasks|
    ensures NothingLost(n, s, tasks[..k])
  {
    hide Loses, ProcessAll;
    forall j | 0 <= j < k ensures !Loses(n, ProcessAll(n, s, tasks[..k][..j]), tasks[..k][j]) {
      assert tasks[..k][..j] == tasks[..j];
    }
  }

  /** A run never drops a text exactly when none of its tasks loses one. */
  lemma {:induction false} RunKeepsTextsExactly(n: Naming, s: Store, tasks: seq<Task>)
    ensures TextsStay(n, s, tasks) <==> NothingLost(n, s, tasks)
  {
    hide Loses, ProcessAll, Survives, Process;
    if TextsStay(n, s, tasks) {
      forall k | 0 <= k < |tasks| ensures !Loses(n, ProcessAll(n, s, tasks[..k]), tasks[k]) {
        KeepsTextsExactly(n, ProcessAll(n, s, tasks[..k]), tasks[k]);
        LastTask(n, s, tasks[..k], tasks[k]);
        assert tasks[..k + 1] == tasks[..k] + [tasks[k]];
      }
    }
    if NothingLost(n, s, tasks) {
      forall j, k, id, text | 0 <= j <= k <= |tasks| && Survives(n, ProcessAll(n, s, tasks[..j]), id, text)
        ensures Survives(n, ProcessAll(n, s, tasks[..k]), id, text)
      {
        NothingLostPrefix(n, s, tasks, k);
        assert tasks[..k][..j] == tasks[..j];
        CarriedToTheEnd(n, s, tasks[..k], j, id, text);
      }
    }
  }

  lemma FreshlySaved(n: Naming, s: Store, t: Task, content: string)
    requires OutcomeOf(n, s, t).Changed? && t.content == Some(content)
    ensures Survives(n, Process(n, s, t), IdOf(t), Fence(content))
  {
  }

  /** Three different contents saved for one diagram within a second: the copy of the first is overwritten. */
  lemma {:induction false} SameSecondLosesContent(n: Naming, a: Task, b: Task, c: Task)
    requires IdOf(a) == IdOf(b) == IdOf(c) && b.stamp == c.stamp
    requires a.content.GetOr("") != "" && b.content.GetOr("") != "" && c.content.GetOr("") != ""
    requires n.hash(a.content.value) != n.hash(b.content.value) && n.hash(b.content.value) != n.hash(c.content.value)
    requires a.content != c.content
    ensures !Survives(n, ProcessAll(n, EMPTY_STORE, [a, b, c]), IdOf(a), Fence(a.content.value))
  {
    hide FileName, VersionName, Fence, IdOf, SafeId;
    var s1 := Process(n, EMPTY_STORE, a);
    var s2 := Process(n, s1, b);
    var s3 := Process(n, s2, c);
    assert [a, b, c][..2] == [a, b] && [a, b][..1] == [a] && [a][..0] == [];
    assert ProcessAll(n, EMPTY_STORE, [a]) == s1;
    assert ProcessAll(n, EMPTY_STORE, [a, b]) == s2;
    assert s3.versions == map[VersionOf(n, c) := Fence(b.content.value)];
    if Fence(a.content.value) == Fence(b.content.value) {
      FenceInjective(a.content.value, b.content.value);
    }
    if Fence(a.content.value) == Fence(c.content.value) {
      FenceInjective(a.content.value, c.content.value);
    }
  }
}
