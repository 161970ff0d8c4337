/** The flow completion monitor: where every execution stands along the required positions of a flow. */
module FlowCompletion {
  import opened Prelude
  import opened Text
  import opened Lists

  datatype Stage = Stage(name: string, order: int, required: bool)

  datatype Environment = Environment(name: string, order: int, required: bool, stages: seq<Stage>)

  /** A stage within an environment. */
  datatype Position = Position(environment: string, stage: string)

  /** `stamp` is the text of `updated_at`, by which events are ordered; `instant` is the time it denotes. */
  datatype Event = Event(at: Position, status: string, stamp: string, instant: int, evidenceUrl: Option<string>,
                         commitSha: Option<string>)

  datatype Execution = Execution(executionId: string, expectedCommitSha: Option<string>, events: seq<Event>)

  datatype ItemStatus = Completed | Failed | Blocked | Stale | InProgress | NotStarted

  datatype Item = Item(executionId: string, expectedCommitSha: Option<string>, status: ItemStatus, completed: bool,
                       lastCompleted: Option<Position>, nextExpected: Option<Position>)

  const TERMINAL_SUCCESS := "succeeded"

  function StagePositions(environment: string, stages: seq<Stage>): seq<Position> {
    if stages == [] then []
    else (if stages[0].required then [Position(environment, stages[0].name)] else [])
         + StagePositions(environment, stages[1..])
  }

  predicate StageBefore(s: Stage, t: Stage) { s.order < t.order }

  predicate EnvironmentBefore(e: Environment, f: Environment) { e.order < f.order }

  /** The required stages of one environment, in order. */
  function Block(e: Environment): seq<Position> {
    if e.required then StagePositions(e.name, SortBy(e.stages, StageBefore)) else []
  }

  function EnvironmentPositions(environments: seq<Environment>): seq<Position> {
    if environments == [] then []
    else Block(environments[0]) + EnvironmentPositions(environments[1..])
  }

  function RequiredPositions(environments: seq<Environment>): seq<Position> {
    EnvironmentPositions(SortBy(environments, EnvironmentBefore))
  }

  /** A required stage of a required environment. */
  ghost predicate Requires(environments: seq<Environment>, p: Position) {
    exists e, t :: e in environments && e.required && t in e.stages && t.required
                   && p == Position(e.name, t.name)
  }

  lemma {:induction false} StagePositionsMeaning(environment: string, stages: seq<Stage>, p: Position)
    ensures p in StagePositions(environment, stages) <==>
            exists t :: t in stages && t.required && p == Position(environment, t.name)
  {
    if stages != [] {
      StagePositionsMeaning(environment, stages[1..], p);
      assert stages == [stages[0]] + stages[1..];
    }
  }

  lemma {:induction false} EnvironmentPositionsMeaning(environments: seq<Environment>, p: Position)
    ensures p in EnvironmentPositions(environments) <==> Requires(environments, p)
  {
    if environments != [] {
      var e, rest := environments[0], environments[1..];
      EnvironmentPositionsMeaning(rest, p);
      assert environments == [e] + rest;
      var sorted := SortBy(e.stages, StageBefore);
      StagePositionsMeaning(e.name, sorted, p);
      SameElements(sorted, e.stages);
      assert Requires([e] + rest, p) <==> Requires([e], p) || Requires(rest, p);
      assert e in [e];
    }
  }

  /** The required positions are exactly the required stages of the required environments. */
  lemma {:induction false} RequiredPositionsMeaning(environments: seq<Environment>, p: Position)
    ensures p in RequiredPositions(environments) <==> Requires(environments, p)
  {
    var sorted := SortBy(environments, EnvironmentBefore);
    EnvironmentPositionsMeaning(sorted, p);
    SameElements(sorted, environments);
  }

  /** Environment `name` stands at `order`, and nowhere else. */
  ghost predicate EnvironmentAt(environments: seq<Environment>, name: string, order: int) {
    forall e :: e in environments && e.name == name ==> e.order == order
  }

  /** Environments come in their order: a position of an earlier environment precedes those of a later one. */
  lemma {:induction false} PositionsFollowEnvironments(environments: seq<Environment>, j: nat, k: nat, m: int, n: int)
    requires j < |RequiredPositions(environments)| && k < |RequiredPositions(environments)|
    requires EnvironmentAt(environments, RequiredPositions(environments)[j].environment, m)
    requires EnvironmentAt(environments, RequiredPositions(environments)[k].environment, n)
    requires m < n
    ensures j < k
  {
    hide EnvironmentPositions;
    var sorted := SortBy(environments, EnvironmentBefore);
    SortBySorted(environments, EnvironmentBefore);
    SameElements(sorted, environments);
    SortedEnvironments(sorted, j, k, m, n);
  }

  /** The positions of the first environment stand at its order. */
  lemma {:induction false} BlockAt(sorted: seq<Environment>, p: Position, m: int)
    requires sorted != [] && p in Block(sorted[0]) && EnvironmentAt(sorted, p.environment, m)
    ensures sorted[0].order == m
  {
    StagePositionsMeaning(sorted[0].name, SortBy(sorted[0].stages, StageBefore), p);
    assert sorted[0] in sorted;
  }

  /** The positions of the other environments do not stand before it. */
  lemma {:induction false} RestAt(sorted: seq<Environment>, p: Position, m: int)
    requires sorted != [] && SortedBy(sorted, EnvironmentBefore)
    requires p in EnvironmentPositions(sorted[1..]) && EnvironmentAt(sorted, p.environment, m)
    ensures sorted[0].order <= m
  {
    hide EnvironmentPositions;
    EnvironmentPositionsMeaning(sorted[1..], p);
    var e, t :| e in sorted[1..] && e.required && t in e.stages && t.required && p == Position(e.name, t.name);
    var i :| 0 < i < |sorted| && sorted[i] == e;
    assert e in sorted && !EnvironmentBefore(sorted[i], sorted[0]);
  }

  lemma {:induction false} SortedEnvironments(sorted: seq<Environment>, j: nat, k: nat, m: int, n: int)
    requires SortedBy(sorted, EnvironmentBefore)
    requires j < |EnvironmentPositions(sorted)| && k < |EnvironmentPositions(sorted)|
    requires EnvironmentAt(sorted, EnvironmentPositions(sorted)[j].environment, m)
    requires EnvironmentAt(sorted, EnvironmentPositions(sorted)[k].environment, n)
    requires m < n
    ensures j < k
  {
    hide Block;
    var block, later := Block(sorted[0]), EnvironmentPositions(sorted[1..]);
    var p, q := EnvironmentPositions(sorted)[j], EnvironmentPositions(sorted)[k];
    assert EnvironmentPositions(sorted) == block + later;
    if j < |block| {
      assert p in block;
      BlockAt(sorted, p, m);
    } else {
      assert p in later;
      RestAt(sorted, p, m);
    }
    if k < |block| {
      assert q in block;
      BlockAt(sorted, q, n);
    } else if j >= |block| {
      LaterEnvironments(sorted, p.environment, m);
      LaterEnvironments(sorted, q.environment, n);
      SortedEnvironments(sorted[1..], j - |block|, k - |block|, m, n);
    }
  }

  lemma LaterEnvironments(sorted: seq<Environment>, name: string, order: int)
    requires sorted != [] && SortedBy(sorted, EnvironmentBefore) && EnvironmentAt(sorted, name, order)
    ensures SortedBy(sorted[1..], EnvironmentBefore) && EnvironmentAt(sorted[1..], name, order)
  {
    assert forall e :: e in sorted[1..] ==> e in sorted;
  }

  ghost predicate StageAt(stages: seq<Stage>, name: string, order: int) {
    forall t :: t in stages && t.name == name ==> t.order == order
  }

  /** Within an environment the stages come in their order. */
  lemma {:induction false} PositionsFollowStages(e: Environment, j: nat, k: nat, m: int, n: int)
    requires j < |Block(e)| && k < |Block(e)| && m < n
    requires StageAt(e.stages, Block(e)[j].stage, m) && StageAt(e.stages, Block(e)[k].stage, n)
    ensures j < k
  {
    hide StagePositions;
    var sorted := SortBy(e.stages, StageBefore);
    SortBySorted(e.stages, StageBefore);
    SameElements(sorted, e.stages);
    SortedStages(e.name, sorted, j, k, m, n);
  }

  lemma {:induction false} SortedStages(environment: string, sorted: seq<Stage>, j: nat, k: nat, m: int, n: int)
    requires SortedBy(sorted, StageBefore) && m < n
    requires j < |StagePositions(environment, sorted)| && k < |StagePositions(environment, sorted)|
    requires StageAt(sorted, StagePositions(environment, sorted)[j].stage, m)
    requires StageAt(sorted, StagePositions(environment, sorted)[k].stage, n)
    ensures j < k
  {
    var rest := StagePositions(environment, sorted[1..]);
    var p, q := StagePositions(environment, sorted)[j], StagePositions(environment, sorted)[k];
    assert sorted[0] in sorted && forall t :: t in sorted[1..] ==> t in sorted;
    if !sorted[0].required {
      assert StagePositions(environment, sorted) == rest;
      SortedStages(environment, sorted[1..], j, k, m, n);
    } else if j > 0 {
      assert p == rest[j - 1];
      FirstStageIsLeast(environment, sorted, p, m);
      if k > 0 {
        assert q == rest[k - 1];
        SortedStages(environment, sorted[1..], j - 1, k - 1, m, n);
      }
    }
  }

  lemma {:induction false} FirstStageIsLeast(environment: string, sorted: seq<Stage>, p: Position, m: int)
    requires sorted != [] && SortedBy(sorted, StageBefore)
    requires p in StagePositions(environment, sorted[1..]) && StageAt(sorted, p.stage, m)
    ensures sorted[0].order <= m
  {
    hide StagePositions;
    StagePositionsMeaning(environment, sorted[1..], p);
    var t :| t in sorted[1..] && t.required && p == Position(environment, t.name);
    var i :| 0 < i < |sorted| && sorted[i] == t;
    assert t in sorted && !StageBefore(sorted[i], sorted[0]);
  }

  function StageName(): Stage -> string { (t: Stage) => t.name }

  function EnvironmentName(): Environment -> string { (e: Environment) => e.name }

  ghost predicate Distinct(positions: seq<Position>) {
    forall j, k :: 0 <= j < k < |positions| ==> positions[j] != positions[k]
  }

  lemma {:induction false} StagePositionsDistinct(environment: string, stages: seq<Stage>)
    requires DistinctBy(stages, StageName())
    ensures Distinct(StagePositions(environment, stages))
  {
    if stages != [] {
      StagePositionsDistinct(environment, stages[1..]);
      var first, rest := Position(environment, stages[0].name), StagePositions(environment, stages[1..]);
      StagePositionsMeaning(environment, stages[1..], first);
      forall k | 0 <= k < |rest| ensures rest[k] != first {
        assert rest[k] in rest;
      }
    }
  }

  lemma {:induction false} EnvironmentPositionsDistinct(environments: seq<Environment>)
    requires DistinctBy(environments, EnvironmentName())
    requires forall e :: e in environments ==> DistinctBy(e.stages, StageName())
    ensures Distinct(EnvironmentPositions(environments))
  {
    hide StagePositions, SortBy, EnvironmentPositions, DistinctBy;
    if environments == [] {
      assert Distinct([]);
      NoPositions();
    } else {
      var e, rest := environments[0], environments[1..];
      FirstPositions(environments);
      TailDistinct(environments);
      EnvironmentPositionsDistinct(rest);
      SortKeepsDistinct(e.stages, StageBefore, StageName());
      StagePositionsDistinct(e.name, SortBy(e.stages, StageBefore));
      forall p | p in Block(e) && p in EnvironmentPositions(rest) ensures false {
        StagePositionsMeaning(e.name, SortBy(e.stages, StageBefore), p);
        EnvironmentPositionsMeaning(rest, p);
      }
      var all, n := EnvironmentPositions(environments), |Block(e)|;
      forall j, k | 0 <= j < k < |all| ensures all[j] != all[k] {
        if j < n <= k {
          assert all[j] in Block(e) && all[k] in EnvironmentPositions(rest);
        } else if n <= j {
          assert all[j] == EnvironmentPositions(rest)[j - n] && all[k] == EnvironmentPositions(rest)[k - n];
        }
      }
    }
  }

  lemma NoPositions()
    ensures EnvironmentPositions([]) == []
  {
  }

  lemma FirstPositions(environments: seq<Environment>)
    requires environments != []
    ensures EnvironmentPositions(environments) == Block(environments[0]) + EnvironmentPositions(environments[1..])
  {
  }

  lemma TailDistinct(environments: seq<Environment>)
    requires environments != [] && DistinctBy(environments, EnvironmentName())
    ensures DistinctBy(environments[1..], EnvironmentName())
    ensures forall e :: e in environments[1..] ==> e.name != environments[0].name
  {
  }

  /** Different names of environments, and of stages within each, give every required position once. */
  lemma {:induction false} PositionsAreDistinct(environments: seq<Environment>)
    requires DistinctBy(environments, EnvironmentName())
    requires forall e :: e in environments ==> DistinctBy(e.stages, StageName())
    ensures Distinct(RequiredPositions(environments))
  {
    hide DistinctBy;
    SortKeepsDistinct(environments, EnvironmentBefore, EnvironmentName());
    SameElements(SortBy(environments, EnvironmentBefore), environments);
    EnvironmentPositionsDistinct(SortBy(environments, EnvironmentBefore));
  }

  predicate TextBefore(e: Event, f: Event) { Less(e.stamp, f.stamp) }

  lemma {:induction false} TextOrderIsStrict()
    ensures StrictOrder(TextBefore)
  {
    hide Less;
    forall x: Event, y: Event, z: Event
      ensures TextBefore(x, y) ==> !TextBefore(y, x)
      ensures !TextBefore(y, x) && !TextBefore(z, y) ==> !TextBefore(z, x)
    {
      LessIsTotal(x.stamp, y.stamp);
      LessIsTotal(y.stamp, z.stamp);
      if Less(x.stamp, y.stamp) && Less(y.stamp, z.stamp) {
        LessIsTransitive(x.stamp, y.stamp, z.stamp);
      }
      LessIsTotal(x.stamp, z.stamp);
    }
  }

  /** The dictionary built from events in order: a later event replaces an earlier one. */
  function LatestOf(events: seq<Event>): map<Position, Event> {
    if events == [] then map[]
    else LatestOf(events[..|events| - 1])[events[|events| - 1].at := events[|events| - 1]]
  }

  function Latest(events: seq<Event>): map<Position, Event> {
    LatestOf(SortBy(events, TextBefore))
  }

  lemma {:induction false} LatestOfBelongs(events: seq<Event>)
    ensures forall p :: p in LatestOf(events) ==> LatestOf(events)[p] in events && LatestOf(events)[p].at == p
    ensures forall e :: e in events ==> e.at in LatestOf(events)
  {
    if events != [] {
      var front, last := events[..|events| - 1], events[|events| - 1];
      LatestOfBelongs(front);
      assert events == front + [last];
    }
  }

  lemma {:induction false} LatestOfLast(events: seq<Event>, e: Event)
    requires SortedBy(events, TextBefore) && e in events
    ensures e.at in LatestOf(events) && !TextBefore(LatestOf(events)[e.at], e)
  {
    hide TextBefore;
    TextOrderIsStrict();
    var front, last := events[..|events| - 1], events[|events| - 1];
    assert events == front + [last];
    var k :| 0 <= k < |events| && events[k] == e;
    if e.at == last.at {
      assert k < |front| ==> !TextBefore(events[|front|], events[k]);
    } else {
      assert front[k] == e;
      LatestOfLast(front, e);
    }
  }

  /** The entry of a position is one of its events, and none of its events has a greater text. */
  lemma {:induction false} LatestByText(events: seq<Event>)
    ensures forall p :: p in Latest(events) ==> Latest(events)[p] in events && Latest(events)[p].at == p
    ensures forall e :: e in events ==> e.at in Latest(events) && !Less(Latest(events)[e.at].stamp, e.stamp)
  {
    hide Less;
    TextOrderIsStrict();
    SortBySorted(events, TextBefore);
    SameElements(SortBy(events, TextBefore), events);
    LatestOfBelongs(SortBy(events, TextBefore));
    forall e | e in events ensures !TextBefore(Latest(events)[e.at], e) {
      LatestOfLast(SortBy(events, TextBefore), e);
    }
  }

  function AtPosition(p: Position): Event -> bool { (e: Event) => e.at == p }

  function StampedAt(p: Position, stamp: string): Event -> bool { (e: Event) => e.at == p && e.stamp == stamp }

  function WithStamp(stamp: string): Event -> bool { (e: Event) => e.stamp == stamp }

  lemma {:induction false} LatestEndsPosition(events: seq<Event>, p: Position)
    requires p in LatestOf(events)
    ensures var own := Filter(events, AtPosition(p)); own != [] && LatestOf(events)[p] == own[|own| - 1]
  {
    hide Filter;
    var front, last := events[..|events| - 1], events[|events| - 1];
    assert events == front + [last];
    FilterSnoc(front, last, AtPosition(p));
    if last.at != p {
      LatestEndsPosition(front, p);
    }
  }

  /** Of the events of a position with the greatest text, the one listed last is kept. */
  lemma {:induction false} LastListedOfGreatestIsKept(events: seq<Event>, k: nat)
    requires k < |events|
    requires forall j :: 0 <= j < |events| && events[j].at == events[k].at ==> !Less(events[k].stamp, events[j].stamp)
    requires forall j :: k < j < |events| && events[j].at == events[k].at ==> events[j].stamp != events[k].stamp
    ensures events[k].at in Latest(events) && Latest(events)[events[k].at] == events[k]
  {
    hide Filter, Less, SortBy, LatestOf;
    var p, stamp, sorted := events[k].at, events[k].stamp, SortBy(events, TextBefore);
    LatestByText(events);
    assert events[k] in events;
    var kept := Latest(events)[p];
    var j :| 0 <= j < |events| && events[j] == kept;
    LessIsTotal(kept.stamp, stamp);
    LatestEndsPosition(sorted, p);
    var own := Filter(sorted, AtPosition(p));
    FilterEndsAt(own, WithStamp(stamp), |own| - 1);
    FilterTwice(sorted, AtPosition(p), WithStamp(stamp), StampedAt(p, stamp));
    LevelTexts(p, stamp);
    SortIsStable(events, TextBefore, StampedAt(p, stamp));
    FilterEndsAt(events, StampedAt(p, stamp), k);
  }

  lemma {:induction false} LevelTexts(p: Position, stamp: string)
    ensures StrictOrder(TextBefore) && MutuallyLevel(StampedAt(p, stamp), TextBefore)
  {
    hide Less, StrictOrder;
    TextOrderIsStrict();
    LessIsTotal(stamp, stamp);
  }

  // ---------------------------------------------------------------- text order and time order

  /** Equal texts denote equal instants. */
  ghost predicate Parsed(events: seq<Event>) {
    forall e, f :: e in events && f in events && e.stamp == f.stamp ==> e.instant == f.instant
  }

  /** No event of a position is newer than the entry kept for it. */
  ghost predicate NewestKept(events: seq<Event>) {
    forall e :: e in events ==> e.at in Latest(events) && e.instant <= Latest(events)[e.at].instant
  }

  /** No event of the same position has a greater text. */
  ghost predicate GreatestText(events: seq<Event>, f: Event) {
    f in events && forall g :: g in events && g.at == f.at ==> !Less(f.stamp, g.stamp)
  }

  /** The kept entries are the newest exactly when at every position the greatest text denotes the latest time. */
  lemma {:induction false} NewestKeptExactly(events: seq<Event>)
    requires Parsed(events)
    ensures NewestKept(events) <==>
            forall e, f :: e in events && GreatestText(events, f) && e.at == f.at ==> e.instant <= f.instant
  {
    hide Latest, Less;
    LatestByText(events);
    var latest := Latest(events);
    forall p | p in latest ensures GreatestText(events, latest[p]) {}
    forall f | GreatestText(events, f) ensures f.at in latest && f.instant == latest[f.at].instant {
      LessIsTotal(f.stamp, latest[f.at].stamp);
    }
  }

  /** Events whose texts come from `stamps` and are read by `parse`. */
  ghost predicate StampedFrom(events: seq<Event>, stamps: set<string>, parse: string -> int) {
    forall e :: e in events ==> e.stamp in stamps && e.instant == parse(e.stamp)
  }

  ghost predicate OrdersAgree(stamps: set<string>, parse: string -> int) {
    forall a, b :: a in stamps && b in stamps && Less(a, b) ==> parse(a) <= parse(b)
  }

  /** Every list of events stamped from a set keeps its newest entries exactly when text order is time order on the set. */
  lemma {:induction false} NewestAlwaysKeptExactly(stamps: set<string>, parse: string -> int)
    ensures (forall events :: StampedFrom(events, stamps, parse) ==> NewestKept(events)) <==> OrdersAgree(stamps, parse)
  {
    hide Latest, Less, NewestKept;
    if OrdersAgree(stamps, parse) {
      forall events | StampedFrom(events, stamps, parse) ensures NewestKept(events) {
        AgreeingOrdersKeepNewest(events, stamps, parse);
      }
    } else {
      var a, b :| a in stamps && b in stamps && Less(a, b) && parse(a) > parse(b);
      var p := Position("e", "s");
      var e, f := Event(p, "", a, parse(a), None, None), Event(p, "", b, parse(b), None, None);
      LaterTextWins(e, f);
      assert StampedFrom([e, f], stamps, parse);
    }
  }

  lemma {:induction false} AgreeingOrdersKeepNewest(events: seq<Event>, stamps: set<string>, parse: string -> int)
    requires StampedFrom(events, stamps, parse) && OrdersAgree(stamps, parse)
    ensures NewestKept(events)
  {
    hide Latest, Less;
    LatestByText(events);
    forall e | e in events ensures e.instant <= Latest(events)[e.at].instant {
      LessIsTotal(e.stamp, Latest(events)[e.at].stamp);
    }
  }

  /** Of two events at a position the one with the greater text is kept, whichever is listed first. */
  lemma {:induction false} LaterTextWins(e: Event, f: Event)
    requires e.at == f.at && Less(e.stamp, f.stamp)
    ensures Latest([e, f]) == map[f.at := f] && Latest([f, e]) == map[f.at := f]
    ensures e.instant > f.instant ==> !NewestKept([e, f])
  {
    hide Less, Latest;
    LessIsTotal(e.stamp, f.stamp);
    LatestByText([e, f]);
    LatestByText([f, e]);
    assert e in [e, f] && f in [e, f] && e in [f, e] && f in [f, e];
    assert Latest([e, f])[f.at] == f && Latest([f, e])[f.at] == f;
    assert Latest([e, f]).Keys == {f.at} && Latest([f, e]).Keys == {f.at};
  }

  /** A success half a second after a failure, printed in another form: the failure is the entry that is kept. */
  lemma {:induction false} TextOrderMisleads(p: Position)
    ensures var success := Event(p, TERMINAL_SUCCESS, "2026-07-20T12:00:00.5+00:00", 500, None, None);
            var failure := Event(p, "failed", "2026-07-20T12:00:00Z", 0, None, None);
            && success.instant > failure.instant && Latest([failure, success]) == map[p := failure]
            && !NewestKept([success, failure])
  {
    hide Latest, NewestKept;
    var second := "2026-07-20T12:00:00";
    LessAfterPrefix(second, ".5+00:00", "Z");
    assert second + ".5+00:00" == "2026-07-20T12:00:00.5+00:00" && second + "Z" == "2026-07-20T12:00:00Z";
    LaterTextWins(Event(p, TERMINAL_SUCCESS, "2026-07-20T12:00:00.5+00:00", 500, None, None),
                  Event(p, "failed", "2026-07-20T12:00:00Z", 0, None, None));
  }

  // ---------------------------------------------------------------- items

  predicate Succeeded(latest: map<Position, Event>, p: Position) {
    p in latest && latest[p].status == TERMINAL_SUCCESS
  }

  /** The final position succeeded, with evidence, on the expected commit. */
  predicate IsCompleted(final: Position, latest: map<Position, Event>, x: Execution) {
    && Succeeded(latest, final) && latest[final].evidenceUrl.GetOr("") != ""
    && latest[final].commitSha == x.expectedCommitSha
  }

  /** `k` is the length of the longest prefix of positions that all succeeded. */
  ghost predicate LongestPrefix(positions: seq<Position>, latest: map<Position, Event>, k: nat) {
    && k <= |positions|
    && (forall j :: 0 <= j < k ==> positions[j] in latest && latest[positions[j]].status == "succeeded")
    && (k < |positions| ==> !(positions[k] in latest && latest[positions[k]].status == "succeeded"))
  }

  function IndexOfPosition(positions: seq<Position>, p: Position): (i: nat)
    ensures i <= |positions| && (i < |positions| ==> positions[i] == p)
    ensures forall j :: 0 <= j < i ==> positions[j] != p
  {
    First(positions, (q: Position) => q == p)
  }

  function MaxInstant(events: seq<Event>): (m: int)
    requires events != []
    ensures forall e :: e in events ==> e.instant <= m
    ensures exists e :: e in events && e.instant == m
  {
    assert events == [events[0]] + events[1..];
    if |events| == 1 then assert events[0] in events; events[0].instant
    else
      var m := MaxInstant(events[1..]);
      if events[0].instant > m then assert events[0] in events; events[0].instant else m
  }

  function IsEntry(latest: map<Position, Event>): Event -> bool {
    (e: Event) => e.at in latest && latest[e.at] == e
  }

  /** The events that are the entry of their position. */
  function Entries(events: seq<Event>): (r: seq<Event>)
    ensures forall e :: e in r <==> e.at in Latest(events) && Latest(events)[e.at] == e
    ensures r == [] <==> events == []
  {
    hide Latest;
    LatestByText(events);
    assert events != [] ==> events[0] in events;
    Filter(events, IsEntry(Latest(events)))
  }

  predicate AnyStatus(latest: map<Position, Event>, status: string) {
    exists p :: p in latest && latest[p].status == status
  }

  /** The label of an item; `staleSeconds` is the staleness limit. */
  function StatusOf(completed: bool, events: seq<Event>, now: int, staleSeconds: int): ItemStatus {
    var latest := Latest(events);
    if completed then Completed
    else if AnyStatus(latest, "failed") then Failed
    else if AnyStatus(latest, "blocked") then Blocked
    else if events == [] then NotStarted
    else if now - MaxInstant(Entries(events)) >= staleSeconds then Stale
    else InProgress
  }

  /** Every kept entry is at least as old as the limit. */
  ghost predicate EntriesStale(events: seq<Event>, now: int, staleSeconds: int) {
    forall p :: p in Latest(events) ==> now - Latest(events)[p].instant >= staleSeconds
  }

  /** When each label is given: completion first, then a failed, then a blocked entry, then the age of the newest entry. */
  lemma {:induction false} StatusExactly(completed: bool, events: seq<Event>, now: int, staleSeconds: int)
    ensures var latest, status := Latest(events), StatusOf(completed, events, now, staleSeconds);
            var failed := exists p :: p in latest && latest[p].status == "failed";
            var blocked := exists p :: p in latest && latest[p].status == "blocked";
            && (status == Completed <==> completed)
            && (status == Failed <==> !completed && failed)
            && (status == Blocked <==> !completed && !failed && blocked)
            && (status == NotStarted <==> !completed && events == [])
            && (status == Stale <==>
                 !completed && !failed && !blocked && events != [] && EntriesStale(events, now, staleSeconds))
            && (status == InProgress <==>
                 !completed && !failed && !blocked && !EntriesStale(events, now, staleSeconds))
  {
    hide Latest;
    LatestByText(events);
    if events != [] {
      var m, latest := MaxInstant(Entries(events)), Latest(events);
      var e :| e in Entries(events) && e.instant == m;
      assert e.at in latest && latest[e.at] == e;
      forall p | p in latest ensures latest[p].instant <= m {
        assert latest[p] in Entries(events);
      }
    }
  }

  /** When the newest entries are kept, the age is that of all events. */
  lemma {:induction false} AgeOfAllEvents(events: seq<Event>, now: int, staleSeconds: int)
    requires NewestKept(events)
    ensures EntriesStale(events, now, staleSeconds) <==> forall e :: e in events ==> now - e.instant >= staleSeconds
  {
    hide Latest;
    LatestByText(events);
  }

  datatype MonitorError = NoRequiredPosition

  /** The two positions an item reports: the end of the longest successful prefix, and what the look-up finds next. */
  ghost predicate Points(item: Item, positions: seq<Position>, latest: map<Position, Event>, k: nat) {
    && LongestPrefix(positions, latest, k)
    && item.lastCompleted == (if k == 0 then None else Some(positions[k - 1]))
    && var next := if k == 0 then 0 else IndexOfPosition(positions, positions[k - 1]) + 1;
       item.nextExpected == if !item.completed && next < |positions| then Some(positions[next]) else None
  }

  /** An item describes its execution. */
  ghost predicate Describes(item: Item, positions: seq<Position>, x: Execution, now: int, staleSeconds: int)
    requires positions != []
  {
    var latest := Latest(x.events);
    && item.executionId == x.executionId && item.expectedCommitSha == x.expectedCommitSha
    && (item.completed <==>
        && positions[|positions| - 1] in latest
        && var last := latest[positions[|positions| - 1]];
           last.status == "succeeded" && last.evidenceUrl.Some? && last.evidenceUrl.value != ""
           && last.commitSha == x.expectedCommitSha)
    && item.status == StatusOf(item.completed, x.events, now, staleSeconds)
    && exists k: nat :: Points(item, positions, latest, k)
  }

  method BuildItem(positions: seq<Position>, x: Execution, now: int, staleSeconds: int) returns (item: Item)
    requires positions != []
    ensures Describes(item, positions, x, now, staleSeconds)
  {
    var latest := Latest(x.events);
    var completed := IsCompleted(positions[|positions| - 1], latest, x);
    var lastPosition: Option<Position> := None;
    ghost var prefix: nat := 0;
    for k := 0 to |positions|
      invariant prefix == k && forall j :: 0 <= j < k ==> Succeeded(latest, positions[j])
      invariant lastPosition == if k == 0 then None else Some(positions[k - 1])
    {
      if Succeeded(latest, positions[k]) {
        lastPosition := Some(positions[k]);
        prefix := k + 1;
      } else {
        break;
      }
    }
    assert LongestPrefix(positions, latest, prefix);
    var nextPosition: Option<Position> := None;
    if !completed {
      var completedCount := if lastPosition.None? then 0 else IndexOfPosition(positions, lastPosition.value) + 1;
      if completedCount < |positions| {
        nextPosition := Some(positions[completedCount]);
      }
    }
    item := Item(x.executionId, x.expectedCommitSha, StatusOf(completed, x.events, now, staleSeconds),
                 completed, lastPosition, nextPosition);
    assert Points(item, positions, latest, prefix);
  }

  /** The longest prefix is unique. */
  lemma PrefixIsUnique(positions: seq<Position>, latest: map<Position, Event>, j: nat, k: nat)
    requires LongestPrefix(positions, latest, j) && LongestPrefix(positions, latest, k)
    ensures j == k
  {
    assert j < |positions| ==> !Succeeded(latest, positions[j]);
    assert k < |positions| ==> !Succeeded(latest, positions[k]);
  }

  /** What the loop's look-up of the last position yields is the end of the prefix exactly when that position is new. */
  lemma NextFollowsPrefixExactly(positions: seq<Position>, k: nat)
    requires 0 < k <= |positions|
    ensures IndexOfPosition(positions, positions[k - 1]) + 1 == k <==> positions[k - 1] !in positions[..k - 1]
  {
    var i := IndexOfPosition(positions, positions[k - 1]);
    if i < k - 1 {
      assert positions[..k - 1][i] == positions[k - 1];
    }
  }

  /**
   With distinct positions, an item ends its longest successful prefix at `lastCompleted`, and an open item expects the
   first position after that prefix; it expects nothing when every position succeeded but the evidence is lacking.
   */
  lemma {:induction false} OpenItemPointsAfterPrefix(positions: seq<Position>, x: Execution, now: int,
          staleSeconds: int, item: Item, k: nat)
    requires positions != [] && Distinct(positions) && Describes(item, positions, x, now, staleSeconds)
    requires LongestPrefix(positions, Latest(x.events), k)
    ensures item.lastCompleted == if k == 0 then None else Some(positions[k - 1])
    ensures item.nextExpected == if !item.completed && k < |positions| then Some(positions[k]) else None
  {
    hide Latest;
    var j: nat :| Points(item, positions, Latest(x.events), j);
    PrefixIsUnique(positions, Latest(x.events), j, k);
    if k > 0 {
      NextFollowsPrefixExactly(positions, k);
    }
  }

  /** An execution whose only event is a success of `final`, with evidence, on the expected commit. */
  function FinalOnly(final: Position, commit: Option<string>): Execution {
    Execution("e", commit, [Event(final, TERMINAL_SUCCESS, "t", 0, Some("url"), commit)])
  }

  lemma {:induction false} FinalOnlyCompletes(final: Position, commit: Option<string>)
    ensures var x := FinalOnly(final, commit); Latest(x.events) == map[final := x.events[0]]
    ensures var x := FinalOnly(final, commit); IsCompleted(final, Latest(x.events), x)
  {
    hide Latest;
    var events := FinalOnly(final, commit).events;
    LatestByText(events);
    assert events[0] in events;
    assert Latest(events).Keys == {final};
  }

  /** The final position counts alone: an execution can be completed although no earlier position ever succeeded. */
  lemma {:induction false} CompletionMaySkipPositions(positions: seq<Position>, sha: string)
    requires |positions| >= 2 && Distinct(positions)
    ensures var final := positions[|positions| - 1];
            var x := FinalOnly(final, Some(sha));
            IsCompleted(final, Latest(x.events), x) && LongestPrefix(positions, Latest(x.events), 0)
  {
    hide Latest, IsCompleted;
    var final := positions[|positions| - 1];
    FinalOnlyCompletes(final, Some(sha));
    assert positions[0] != final;
  }

  /** So completion means that every position succeeded exactly when there is only one. */
  lemma {:induction false} CompletionMeansAllExactly(positions: seq<Position>)
    requires positions != [] && Distinct(positions)
    ensures (forall x: Execution :: IsCompleted(positions[|positions| - 1], Latest(x.events), x) ==>
               LongestPrefix(positions, Latest(x.events), |positions|)) <==> |positions| == 1
  {
    hide Latest;
    if |positions| > 1 {
      CompletionMaySkipPositions(positions, "sha");
      var x := FinalOnly(positions[|positions| - 1], Some("sha"));
      PrefixLength(positions, Latest(x.events));
    }
  }

  lemma PrefixLength(positions: seq<Position>, latest: map<Position, Event>)
    requires positions != [] && LongestPrefix(positions, latest, 0)
    ensures !LongestPrefix(positions, latest, |positions|)
  {
    assert !Succeeded(latest, positions[0]);
  }

  /**
   Completion always shows evidence, and a commit exactly when one is expected: without, an event that names none counts
   as matching.
   */
  lemma {:induction false} CompletionShowsCommitExactly(final: Position, expected: Option<string>)
    ensures (forall x: Execution :: x.expectedCommitSha == expected && IsCompleted(final, Latest(x.events), x) ==>
               Latest(x.events)[final].commitSha.Some?) <==> expected.Some?
    ensures forall x: Execution :: IsCompleted(final, Latest(x.events), x) ==>
              Latest(x.events)[final].evidenceUrl !in {None, Some("")}
  {
    hide Latest;
    if expected.None? {
      var x := FinalOnly(final, None);
      FinalOnlyCompletes(final, None);
      assert x.expectedCommitSha == expected && Latest(x.events)[final].commitSha.None?;
    }
  }

  /** The monitor: one item per execution, in order; open items are the ones not completed. */
  method BuildMonitor(environments: seq<Environment>, executions: seq<Execution>, now: int, staleSeconds: int)
    returns (r: Result<(seq<Item>, seq<Item>), MonitorError>)
    ensures r.Err? <==> RequiredPositions(environments) == []
    ensures r.Ok? ==>
              && |r.value.0| == |executions|
              && (forall k :: 0 <= k < |executions| ==>
                    Describes(r.value.0[k], RequiredPositions(environments), executions[k], now, staleSeconds))
              && r.value.1 == Filter(r.value.0, (i: Item) => !i.completed)
  {
    hide Describes, RequiredPositions;
    var positions := RequiredPositions(environments);
    if positions == [] {
      return Err(NoRequiredPosition);
    }
    var items: seq<Item> := [];
    for k := 0 to |executions|
      invariant |items| == k
      invariant forall j :: 0 <= j < k ==> Describes(items[j], positions, executions[j], now, staleSeconds)
    {
      var item := BuildItem(positions, executions[k], now, staleSeconds);
      items := items + [item];
    }
    r := Ok((items, Filter(items, (i: Item) => !i.completed)));
  }
}
