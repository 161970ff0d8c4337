/** Deduplicated alerts over a run of monitor reports. */
module AlertState {
  import opened Prelude
  import opened Text
  import opened Lists
  import opened FlowCompletion

  predicate Alerting(i: Item) {
    i.status == Failed || i.status == Blocked || i.status == Stale
  }

  function StatusText(s: ItemStatus): string {
    match s
    case Completed => "COMPLETED"
    case Failed => "FAILED"
    case Blocked => "BLOCKED"
    case Stale => "STALE"
    case InProgress => "IN_PROGRESS"
    case NotStarted => "PENDING"
  }

  function Fields(i: Item): seq<string> {
    [i.executionId, StatusText(i.status), ExpectedTexts(i).0, ExpectedTexts(i).1, i.expectedCommitSha.GetOr("")]
  }

  function FingerprintText(i: Item): string { JoinBars(Fields(i)) }

  ghost predicate CollisionFree(hash: string -> string) {
    forall a, b :: hash(a) == hash(b) ==> a == b
  }

  /** What an item says of the expected environment and stage; nothing expected reads as two empty texts. */
  function ExpectedTexts(i: Item): (string, string) {
    if i.nextExpected.Some? then (i.nextExpected.value.environment, i.nextExpected.value.stage) else ("", "")
  }

  /** The five fields in their order; what is missing reads as nothing. */
  lemma FieldsExactly(i: Item)
    ensures var p := i.nextExpected.GetOr(Position("", ""));
            Fields(i) == [i.executionId, StatusText(i.status), p.environment, p.stage, i.expectedCommitSha.GetOr("")]
  {
  }

  predicate BarFreeItem(i: Item) {
    && BarFree(i.executionId) && BarFree(i.expectedCommitSha.GetOr(""))
    && BarFree(ExpectedTexts(i).0) && BarFree(ExpectedTexts(i).1)
  }

  /** Without bars in the fields, two items share a fingerprint exactly when they agree on all five fields. */
  lemma {:induction false} SameFingerprintExactly(hash: string -> string, a: Item, b: Item)
    requires CollisionFree(hash) && BarFreeItem(a) && BarFreeItem(b)
    ensures hash(FingerprintText(a)) == hash(FingerprintText(b)) <==>
            && a.executionId == b.executionId && a.status == b.status && ExpectedTexts(a) == ExpectedTexts(b)
            && a.expectedCommitSha.GetOr("") == b.expectedCommitSha.GetOr("")
  {
    hide JoinBars, StatusText;
    StatusTextPlain(a.status, b.status);
    var fa, fb := Fields(a), Fields(b);
    if hash(FingerprintText(a)) == hash(FingerprintText(b)) {
      JoinBarsInjective(fa, fb);
      assert fa[0] == fb[0] && fa[1] == fb[1] && fa[2] == fb[2] && fa[3] == fb[3] && fa[4] == fb[4];
    }
  }

  predicate NamedEnvironment(i: Item) {
    i.nextExpected.Some? ==> i.nextExpected.value.environment != ""
  }

  /** When expected environments have names, a shared fingerprint also means the same expectation, or none on both sides. */
  lemma {:induction false} FingerprintIdentifies(hash: string -> string, a: Item, b: Item)
    requires CollisionFree(hash) && BarFreeItem(a) && BarFreeItem(b) && NamedEnvironment(a) && NamedEnvironment(b)
    requires hash(FingerprintText(a)) == hash(FingerprintText(b))
    ensures a.executionId == b.executionId && a.status == b.status && a.nextExpected == b.nextExpected
            && a.expectedCommitSha.GetOr("") == b.expectedCommitSha.GetOr("")
  {
    hide FingerprintText;
    SameFingerprintExactly(hash, a, b);
  }

  /** A failed execution waiting for a stage in an environment. */
  function Waiting(environment: string, stage: string): Item {
    Item("e", None, Failed, false, None, Some(Position(environment, stage)))
  }

  /** A bar in a position's name is enough for two situations to share a fingerprint, whatever the hash. */
  lemma BarInPositionCollides(hash: string -> string)
    ensures Waiting("a|b", "c") != Waiting("a", "b|c")
    ensures hash(FingerprintText(Waiting("a|b", "c"))) == hash(FingerprintText(Waiting("a", "b|c")))
  {
    assert JoinBars(["e", "FAILED", "a|b", "c", ""]) == "e|FAILED|a|b|c|";
    assert JoinBars(["e", "FAILED", "a", "b|c", ""]) == "e|FAILED|a|b|c|";
    var p, q := Waiting("a|b", "c"), Waiting("a", "b|c");
    assert p.nextExpected.value.environment != q.nextExpected.value.environment by { assert |"a|b"| != |"a"|; }
  }

  lemma StatusTextPlain(s: ItemStatus, t: ItemStatus)
    ensures BarFree(StatusText(s)) && BarFree(StatusText(t))
    ensures StatusText(s) == StatusText(t) ==> s == t
    ensures [StatusText(Completed), StatusText(Failed), StatusText(Blocked), StatusText(Stale), StatusText(InProgress),
             StatusText(NotStarted)] == ["COMPLETED", "FAILED", "BLOCKED", "STALE", "IN_PROGRESS", "PENDING"]
  {
  }

  datatype Observation = Observation(activeAlerts: nat, newNotifications: nat)

  /** The persisted state; the stored fingerprints are those of the active alerts. */
  datatype State = State(active: seq<Item>, fingerprints: seq<string>, notifications: seq<Item>,
                         history: seq<Observation>)

  const Initial := State([], [], [], [])
  const HISTORY_LIMIT := 168

  function Active(openItems: seq<Item>): seq<Item> { Filter(openItems, Alerting) }

  function Fingerprints(hash: string -> string, items: seq<Item>): (r: seq<string>)
    ensures |r| == |items| && forall k :: 0 <= k < |items| ==> r[k] == hash(FingerprintText(items[k]))
  {
    seq(|items|, k requires 0 <= k < |items| => hash(FingerprintText(items[k])))
  }

  function Unknown(hash: string -> string, previous: seq<string>): Item -> bool {
    (i: Item) => hash(FingerprintText(i)) !in previous
  }

  /** The active alerts whose fingerprint the previous state did not hold. */
  function Fresh(hash: string -> string, active: seq<Item>, previous: seq<string>): seq<Item> {
    Filter(active, Unknown(hash, previous))
  }

  function Next(hash: string -> string, openItems: seq<Item>, previous: State): State {
    var active := Active(openItems);
    var notifications := Fresh(hash, active, previous.fingerprints);
    State(active, Fingerprints(hash, active), notifications,
          TakeLast(previous.history + [Observation(|active|, |notifications|)], HISTORY_LIMIT))
  }

  method BuildState(hash: string -> string, openItems: seq<Item>, previous: State) returns (state: State)
    ensures state == Next(hash, openItems, previous)
  {
    hide FingerprintText, Filter;
    var active: seq<Item>, notifications: seq<Item> := [], [];
    NothingYet(hash, previous.fingerprints);
    for k := 0 to |openItems|
      invariant active == Active(openItems[..k])
      invariant notifications == Fresh(hash, active, previous.fingerprints)
    {
      assert openItems[..k + 1] == openItems[..k] + [openItems[k]];
      FilterSnoc(openItems[..k], openItems[k], Alerting);
      if !Alerting(openItems[k]) {
        continue;
      }
      FilterSnoc(active, openItems[k], Unknown(hash, previous.fingerprints));
      active := active + [openItems[k]];
      if hash(FingerprintText(openItems[k])) !in previous.fingerprints {
        notifications := notifications + [openItems[k]];
      }
    }
    assert openItems[..|openItems|] == openItems;
    var history := previous.history + [Observation(|active|, |notifications|)];
    state := State(active, Fingerprints(hash, active), notifications, TakeLast(history, HISTORY_LIMIT));
  }

  lemma NothingYet(hash: string -> string, previous: seq<string>)
    ensures Active([]) == [] && Fresh(hash, [], previous) == []
  {
  }

  // ---------------------------------------------------------------- runs

  /** The state after the first `n` reports. */
  function After(hash: string -> string, reports: seq<seq<Item>>, n: nat): State
    requires n <= |reports|
  {
    if n == 0 then Initial else Next(hash, reports[n - 1], After(hash, reports, n - 1))
  }

  /** Some open item of report `n` has failed, is blocked or is stale, and has fingerprint `f`. */
  ghost predicate ActiveIn(hash: string -> string, reports: seq<seq<Item>>, n: nat, f: string)
    requires n < |reports|
  {
    exists i :: i in reports[n] && i.status in {Failed, Blocked, Stale} && hash(FingerprintText(i)) == f
  }

  ghost predicate NotifiedIn(hash: string -> string, reports: seq<seq<Item>>, n: nat, f: string)
    requires n < |reports|
  {
    exists i :: i in After(hash, reports, n + 1).notifications && hash(FingerprintText(i)) == f
  }

  /** The state after a report holds its failed, blocked and stale items, and their fingerprints. */
  lemma {:induction false} StoredExactly(hash: string -> string, reports: seq<seq<Item>>, n: nat, f: string)
    requires n < |reports|
    ensures f in After(hash, reports, n + 1).fingerprints <==> ActiveIn(hash, reports, n, f)
    ensures forall i :: i in After(hash, reports, n + 1).active <==>
                        i in reports[n] && i.status in {Failed, Blocked, Stale}
  {
    hide FingerprintText, Filter;
    var active := Active(reports[n]);
    var stored := Fingerprints(hash, active);
    if f in stored {
      var k :| 0 <= k < |stored| && stored[k] == f;
      assert active[k] in active;
    }
    if ActiveIn(hash, reports, n, f) {
      var i :| i in reports[n] && i.status in {Failed, Blocked, Stale} && hash(FingerprintText(i)) == f;
      assert i in active;
      var k :| 0 <= k < |active| && active[k] == i;
      assert stored[k] == f;
    }
  }

  /** In every run, an alert is notified exactly when it is active now and was not in the previous report. */
  lemma {:induction false} NotifiedExactly(hash: string -> string, reports: seq<seq<Item>>, n: nat, f: string)
    requires n < |reports|
    ensures NotifiedIn(hash, reports, n, f) <==>
            ActiveIn(hash, reports, n, f) && (n > 0 ==> !ActiveIn(hash, reports, n - 1, f))
  {
    hide FingerprintText, Filter, Fingerprints;
    var previous := After(hash, reports, n).fingerprints;
    var told := After(hash, reports, n + 1).notifications;
    assert told == Fresh(hash, Active(reports[n]), previous);
    if n > 0 {
      StoredExactly(hash, reports, n - 1, f);
    } else {
      assert previous == [];
    }
    if ActiveIn(hash, reports, n, f) && f !in previous {
      var i :| i in reports[n] && i.status in {Failed, Blocked, Stale} && hash(FingerprintText(i)) == f;
      assert i in told;
    }
    if NotifiedIn(hash, reports, n, f) {
      var i :| i in told && hash(FingerprintText(i)) == f;
      assert i in Active(reports[n]) && f !in previous;
    }
  }

  /** Between two notifications of one alert there is a report in which it is not active. */
  lemma {:induction false} NoRepeatWhileActive(hash: string -> string, reports: seq<seq<Item>>, m: nat, n: nat, f: string)
    requires m < n < |reports| && NotifiedIn(hash, reports, m, f) && NotifiedIn(hash, reports, n, f)
    ensures m < n - 1 && !ActiveIn(hash, reports, n - 1, f)
  {
    hide *;
    NotifiedExactly(hash, reports, m, f);
    NotifiedExactly(hash, reports, n, f);
  }

  /** Every active alert was notified when its current stretch of activity began. */
  lemma {:induction false} ActiveWasNotified(hash: string -> string, reports: seq<seq<Item>>, n: nat, f: string)
    returns (m: nat)
    requires n < |reports| && ActiveIn(hash, reports, n, f)
    ensures m <= n && NotifiedIn(hash, reports, m, f)
    ensures forall k :: m <= k <= n ==> ActiveIn(hash, reports, k, f)
  {
    hide *;
    NotifiedExactly(hash, reports, n, f);
    if n > 0 && ActiveIn(hash, reports, n - 1, f) {
      m := ActiveWasNotified(hash, reports, n - 1, f);
    } else {
      m := n;
    }
  }

  ghost predicate UniqueFingerprints(hash: string -> string, items: seq<Item>) {
    forall j, k :: 0 <= j < k < |items| ==> hash(FingerprintText(items[j])) != hash(FingerprintText(items[k]))
  }

  /** The last item's fingerprint is unique exactly when it differs from those of the items before it. */
  lemma {:induction false} UniqueSnoc(hash: string -> string, front: seq<Item>, last: Item)
    ensures UniqueFingerprints(hash, front + [last]) <==>
            && UniqueFingerprints(hash, front)
            && forall i :: i in front ==> hash(FingerprintText(i)) != hash(FingerprintText(last))
  {
    hide FingerprintText;
    var all := front + [last];
    assert all[..|front|] == front && all[|front|] == last;
    if UniqueFingerprints(hash, all) {
      forall i | i in front ensures hash(FingerprintText(i)) != hash(FingerprintText(last)) {
        var k :| 0 <= k < |front| && front[k] == i;
        assert all[k] == i;
      }
      forall j, k | 0 <= j < k < |front| ensures hash(FingerprintText(front[j])) != hash(FingerprintText(front[k])) {
        assert all[j] == front[j] && all[k] == front[k];
      }
    }
  }

  /** With unique fingerprints in a report, no alert is notified twice in it. */
  lemma {:induction false} NotifiedOnce(hash: string -> string, active: seq<Item>, previous: seq<string>)
    requires UniqueFingerprints(hash, active)
    ensures UniqueFingerprints(hash, Fresh(hash, active, previous))
  {
    hide FingerprintText, UniqueFingerprints, Filter;
    if active == [] {
      NoItems(hash);
    } else {
      var front, last := active[..|active| - 1], active[|active| - 1];
      assert active == front + [last];
      UniqueSnoc(hash, front, last);
      NotifiedOnce(hash, front, previous);
      var told := Fresh(hash, front, previous);
      FilterSnoc(front, last, Unknown(hash, previous));
      UniqueSnoc(hash, told, last);
      assert told + [] == told;
    }
  }

  lemma NoItems(hash: string -> string)
    ensures UniqueFingerprints(hash, [])
  {
  }

  /** All observations of a run, unbounded. */
  function Observations(hash: string -> string, reports: seq<seq<Item>>, n: nat): seq<Observation>
    requires n <= |reports|
  {
    if n == 0 then []
    else
      var s := After(hash, reports, n);
      Observations(hash, reports, n - 1) + [Observation(|s.active|, |s.notifications|)]
  }

  /** The stored history is the newest 168 observations of the run. */
  lemma {:induction false} HistoryIsNewest(hash: string -> string, reports: seq<seq<Item>>, n: nat)
    requires n <= |reports|
    ensures After(hash, reports, n).history == TakeLast(Observations(hash, reports, n), 168)
  {
    hide FingerprintText, Filter, Fingerprints;
    if n > 0 {
      HistoryIsNewest(hash, reports, n - 1);
      var all := Observations(hash, reports, n - 1);
      var s := After(hash, reports, n);
      var x := Observation(|s.active|, |s.notifications|);
      assert TakeLast(TakeLast(all, HISTORY_LIMIT) + [x], HISTORY_LIMIT) == TakeLast(all + [x], HISTORY_LIMIT);
    }
  }
}
