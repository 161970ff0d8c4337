/** Failures grouped by workflow, ranked, with their shares of all failures; shares are reals, before rounding. */
module FailurePareto {
  import opened Prelude
  import opened Text
  import opened Lists

  datatype Run = Run(name: string, status: string, conclusion: Option<string>)

  datatype Count = Count(name: string, failures: nat)

  datatype Row = Row(count: Count, share: real, cumulativeShare: real)

  predicate IsFailure(r: Run) { r.conclusion == Some("failure") }

  predicate IsCompleted(r: Run) { r.status == "completed" }

  function InWorkflow(name: string): Run -> bool { (r: Run) => r.name == name }

  function Completed(runs: seq<Run>): seq<Run> { Filter(runs, IsCompleted) }

  function Group(runs: seq<Run>, name: string): seq<Run> { Filter(runs, InWorkflow(name)) }

  function FailureCount(runs: seq<Run>): nat {
    if runs == [] then 0 else FailureCount(runs[..|runs| - 1]) + if IsFailure(runs[|runs| - 1]) then 1 else 0
  }

  function Failures(runs: seq<Run>, name: string): nat { FailureCount(Group(runs, name)) }

  function Rate(numerator: nat, denominator: nat): real {
    if denominator != 0 then numerator as real / denominator as real * 100.0 else 0.0
  }

  /** A share times its whole is a hundred times the part, and nothing has no shares. */
  lemma RateExactly(numerator: nat, denominator: nat)
    ensures denominator > 0 ==> Rate(numerator, denominator) * denominator as real == numerator as real * 100.0
    ensures Rate(numerator, 0) == 0.0
  {
    if denominator > 0 {
      var d, q := denominator as real, numerator as real / denominator as real;
      assert q * d == numerator as real;
      assert q * 100.0 * d == q * d * 100.0;
    }
  }

  function FailedIn(name: string): Run -> bool {
    (r: Run) => r.name == name && r.status == "completed" && r.conclusion == Some("failure")
  }

  function HasFailed(): Run -> bool { (r: Run) => r.status == "completed" && r.conclusion == Some("failure") }

  lemma {:induction false} FailureCountExactly(runs: seq<Run>)
    ensures FailureCount(runs) == |Filter(runs, IsFailure)|
  {
    if runs == [] {
      assert Filter(runs, IsFailure) == [];
    } else {
      hide Filter;
      var front, last := runs[..|runs| - 1], runs[|runs| - 1];
      assert runs == front + [last];
      FailureCountExactly(front);
      FilterSnoc(front, last, IsFailure);
    }
  }

  /** The counts are numbers of runs: completed, concluded with "failure", and of the workflow. */
  lemma {:induction false} FailuresExactly(runs: seq<Run>, name: string)
    ensures Failures(Completed(runs), name) == |Filter(runs, FailedIn(name))|
    ensures FailureCount(Completed(runs)) == |Filter(runs, HasFailed())|
  {
    hide Filter, FailureCount;
    FailureCountExactly(Group(Completed(runs), name));
    FailureCountExactly(Completed(runs));
    var both: Run -> bool := (r: Run) => r.name == name && r.status == "completed";
    FilterTwice(runs, IsCompleted, InWorkflow(name), both);
    FilterTwice(runs, both, IsFailure, FailedIn(name));
    FilterTwice(runs, IsCompleted, IsFailure, HasFailed());
  }

  /** The sort key `(-failures, name)`. */
  predicate Before(x: Count, y: Count) {
    x.failures > y.failures || (x.failures == y.failures && Less(x.name, y.name))
  }

  lemma BeforeIsStrictOrder(x: Count, y: Count, z: Count)
    ensures x == y || Before(x, y) || Before(y, x)
    ensures !(Before(x, y) && Before(y, x)) && !Before(x, x)
    ensures Before(x, y) && Before(y, z) ==> Before(x, z)
  {
    LessIsTotal(x.name, y.name);
    LessIsTotal(x.name, x.name);
    if Less(x.name, y.name) && Less(y.name, z.name) {
      LessIsTransitive(x.name, y.name, z.name);
    }
  }

  ghost predicate Ranked(xs: seq<Count>) {
    forall j, k :: 0 <= j < k < |xs| ==> Before(xs[j], xs[k])
  }

  ghost predicate DistinctNames(names: seq<string>) {
    forall j, k :: 0 <= j < k < |names| ==> names[j] != names[k]
  }

  function NamesOf(counts: seq<Count>): (names: seq<string>)
    ensures |names| == |counts| && forall k :: 0 <= k < |counts| ==> names[k] == counts[k].name
  {
    seq(|counts|, k requires 0 <= k < |counts| => counts[k].name)
  }

  /** Sorting by the key ranks counts of different workflows without ties. */
  lemma {:induction false} SortRanked(xs: seq<Count>)
    requires DistinctNames(NamesOf(xs))
    ensures Ranked(SortBy(xs, Before)) && forall c :: c in SortBy(xs, Before) <==> c in xs
  {
    hide Before;
    BeforeIsStrict();
    var r := SortBy(xs, Before);
    SortBySorted(xs, Before);
    SameElements(r, xs);
    AllDistinct(xs);
    forall j, k | 0 <= j < k < |r| ensures Before(r[j], r[k]) {
      NoRepeat(r, xs, j, k);
      assert !Before(r[k], r[j]);
      BeforeIsStrictOrder(r[j], r[k], r[k]);
    }
  }

  lemma {:induction false} BeforeIsStrict()
    ensures StrictOrder(Before)
  {
    hide Before;
    forall x, y, z
      ensures Before(x, y) ==> !Before(y, x)
      ensures !Before(y, x) && !Before(z, y) ==> !Before(z, x)
    {
      BeforeIsStrictOrder(x, y, z);
      BeforeIsStrictOrder(z, x, y);
      BeforeIsStrictOrder(y, z, x);
      BeforeIsStrictOrder(z, y, x);
    }
  }

  /** Every count occurs once. */
  lemma {:induction false} AllDistinct(xs: seq<Count>)
    requires DistinctNames(NamesOf(xs))
    ensures forall c :: multiset(xs)[c] <= 1
  {
    if xs != [] {
      var front, last := xs[..|xs| - 1], xs[|xs| - 1];
      assert xs == front + [last];
      assert forall k :: 0 <= k < |front| ==> NamesOf(front)[k] == NamesOf(xs)[k] != last.name;
      AllDistinct(front);
      assert last !in multiset(front);
    }
  }

  lemma NoRepeat(r: seq<Count>, xs: seq<Count>, j: nat, k: nat)
    requires multiset(r) == multiset(xs) && (forall c :: multiset(xs)[c] <= 1) && j < k < |r|
    ensures r[j] != r[k]
  {
    assert r == r[..k] + [r[k]] + r[k + 1..];
    assert multiset(r) == multiset(r[..k]) + multiset{r[k]} + multiset(r[k + 1..]);
    assert r[..k][j] == r[j];
    assert r[j] in multiset(r[..k]);
    assert multiset(xs)[r[k]] <= 1;
  }

  // ---------------------------------------------------------------- the specification

  /** The counts are those of exactly the workflows that failed, ranked. */
  ghost predicate IsPareto(counts: seq<Count>, runs: seq<Run>) {
    && Ranked(counts)
    && (forall c :: c in counts ==> c.failures == Failures(runs, c.name) > 0)
    && (forall name :: Failures(runs, name) > 0 ==> Count(name, Failures(runs, name)) in counts)
  }

  /** Sum of the first `k` counts. */
  function SumTo(counts: seq<Count>, k: nat): nat
    requires k <= |counts|
  {
    if k == 0 then 0 else SumTo(counts, k - 1) + counts[k - 1].failures
  }

  function CountsOf(rows: seq<Row>): (counts: seq<Count>)
    ensures |counts| == |rows| && forall k :: 0 <= k < |rows| ==> counts[k] == rows[k].count
  {
    seq(|rows|, k requires 0 <= k < |rows| => rows[k].count)
  }

  ghost predicate HasShares(rows: seq<Row>, total: nat) {
    forall k :: 0 <= k < |rows| ==>
      && rows[k].share == Rate(rows[k].count.failures, total)
      && rows[k].cumulativeShare == Rate(SumTo(CountsOf(rows), k + 1), total)
  }

  ghost predicate GroupedBy(groups: map<string, seq<Run>>, names: seq<string>, runs: seq<Run>) {
    && DistinctNames(names)
    && (forall name :: name in groups <==> name in names)
    && (forall name :: name in names ==> groups[name] == Group(runs, name))
    && (forall name :: name !in names ==> Group(runs, name) == [])
  }

  /** The runs of the window that completed, grouped by workflow in order of first appearance. */
  method GroupRuns(rawRuns: seq<Run>, window: nat)
    returns (completed: seq<Run>, names: seq<string>, groups: map<string, seq<Run>>)
    ensures completed == Completed(if window < |rawRuns| then rawRuns[..window] else rawRuns)
    ensures GroupedBy(groups, names, completed)
  {
    hide GroupedBy, Filter;
    var runs := if window < |rawRuns| then rawRuns[..window] else rawRuns;
    completed, names, groups := [], [], map[];
    NothingGrouped();
    for k := 0 to |runs|
      invariant completed == Completed(runs[..k])
      invariant GroupedBy(groups, names, completed)
    {
      assert runs[..k + 1] == runs[..k] + [runs[k]];
      var run := runs[k];
      FilterSnoc(runs[..k], run, IsCompleted);
      if run.status != "completed" {
        continue;
      }
      NamesAreKeys(groups, names, completed);
      GroupedSnoc(groups, names, completed, run);
      completed := completed + [run];
      if run.name !in groups {
        names := names + [run.name];
        groups := groups[run.name := [run]];
      } else {
        groups := groups[run.name := groups[run.name] + [run]];
      }
    }
    assert runs[..|runs|] == runs;
  }

  lemma NothingGrouped()
    ensures GroupedBy(map[], [], [])
  {
  }

  lemma NamesAreKeys(groups: map<string, seq<Run>>, names: seq<string>, runs: seq<Run>)
    requires GroupedBy(groups, names, runs)
    ensures forall name :: name in groups <==> name in names
  {
  }

  /** A run joins the group of its own workflow only. */
  lemma {:induction false} GroupSnoc(runs: seq<Run>, r: Run, name: string)
    ensures Group(runs + [r], name) == if r.name == name then Group(runs, name) + [r] else Group(runs, name)
  {
    hide Filter;
    FilterSnoc(runs, r, InWorkflow(name));
  }

  lemma FailureCountSnoc(runs: seq<Run>, r: Run)
    ensures FailureCount(runs + [r]) == FailureCount(runs) + if IsFailure(r) then 1 else 0
  {
    assert (runs + [r])[..|runs|] == runs;
  }

  lemma {:induction false} GroupedSnoc(groups: map<string, seq<Run>>, names: seq<string>, runs: seq<Run>, r: Run)
    requires GroupedBy(groups, names, runs)
    ensures r.name !in groups ==> GroupedBy(groups[r.name := [r]], names + [r.name], runs + [r])
    ensures r.name in groups ==> GroupedBy(groups[r.name := groups[r.name] + [r]], names, runs + [r])
  {
    hide Group;
    forall name
      ensures Group(runs + [r], name) == if r.name == name then Group(runs, name) + [r] else Group(runs, name)
    {
      GroupSnoc(runs, r, name);
    }
    if r.name !in groups {
      assert Group(runs + [r], r.name) == [] + [r] == [r];
      NewName(names, r.name);
    }
  }

  lemma NewName(names: seq<string>, name: string)
    requires DistinctNames(names) && name !in names
    ensures DistinctNames(names + [name])
  {
    assert forall k :: 0 <= k < |names| ==> names[k] in names;
  }

  /** The counts of the failing workflows among `names`. */
  ghost predicate Tally(counts: seq<Count>, names: seq<string>, runs: seq<Run>) {
    && DistinctNames(NamesOf(counts))
    && (forall c :: c in counts ==> c.name in names && c.failures == Failures(runs, c.name) > 0)
    && (forall name :: name in names && Failures(runs, name) > 0 ==> Count(name, Failures(runs, name)) in counts)
  }

  lemma {:induction false} TallyGrows(counts: seq<Count>, names: seq<string>, runs: seq<Run>, name: string)
    requires Tally(counts, names, runs) && name !in names
    ensures Tally(if Failures(runs, name) > 0 then counts + [Count(name, Failures(runs, name))] else counts,
                  names + [name], runs)
  {
    hide Failures;
    var more := counts + [Count(name, Failures(runs, name))];
    assert forall j :: 0 <= j < |counts| ==> counts[j] in counts && NamesOf(more)[j] == NamesOf(counts)[j] != name;
    assert NamesOf(more)[|counts|] == name;
  }

  method CountFailures(groups: map<string, seq<Run>>, names: seq<string>, runs: seq<Run>) returns (pareto: seq<Count>)
    requires GroupedBy(groups, names, runs)
    ensures Tally(pareto, names, runs)
  {
    hide Group, FailureCount, Tally;
    pareto := [];
    NoTally(runs);
    for k := 0 to |names|
      invariant Tally(pareto, names[..k], runs)
    {
      assert names[..k + 1] == names[..k] + [names[k]];
      TallyGrows(pareto, names[..k], runs, names[k]);
      var failures := FailureCount(groups[names[k]]);
      if failures > 0 {
        pareto := pareto + [Count(names[k], failures)];
      }
    }
    assert names[..|names|] == names;
  }

  lemma NoTally(runs: seq<Run>)
    ensures Tally([], [], runs)
  {
  }

  /** The Pareto table of a window of runs. */
  method BuildPareto(rawRuns: seq<Run>, window: nat) returns (rows: seq<Row>)
    ensures var runs := Completed(if window < |rawRuns| then rawRuns[..window] else rawRuns);
            IsPareto(CountsOf(rows), runs) && HasShares(rows, FailureCount(runs))
  {
    hide Completed, FailureCount, HasShares;
    var completed, names, groups := GroupRuns(rawRuns, window);
    var failureCount := FailureCount(completed);
    var pareto := CountFailures(groups, names, completed);
    TallyIsPareto(pareto, groups, names, completed);
    rows := WithShares(SortBy(pareto, Before), failureCount);
  }

  lemma {:induction false} TallyIsPareto(counts: seq<Count>, groups: map<string, seq<Run>>, names: seq<string>,
          runs: seq<Run>)
    requires GroupedBy(groups, names, runs) && Tally(counts, names, runs)
    ensures IsPareto(SortBy(counts, Before), runs)
  {
    hide Ranked, SortBy, Before;
    SortRanked(counts);
    forall name | Failures(runs, name) > 0 ensures name in names {
      assert Group(runs, name) != [];
    }
  }

  method WithShares(pareto: seq<Count>, total: nat) returns (rows: seq<Row>)
    ensures CountsOf(rows) == pareto && HasShares(rows, total)
  {
    hide Rate, SumTo;
    var cumulative: nat := 0;
    assert SumTo(pareto, 0) == 0 by { SumFirst(pareto, 0); }
    rows := [];
    for k := 0 to |pareto|
      invariant |rows| == k && cumulative == SumTo(pareto, k)
      invariant forall j :: 0 <= j < k ==>
                  && rows[j].count == pareto[j] && rows[j].share == Rate(pareto[j].failures, total)
                  && rows[j].cumulativeShare == Rate(SumTo(pareto, j + 1), total)
    {
      SumFirst(pareto, k + 1);
      cumulative := cumulative + pareto[k].failures;
      rows := rows + [Row(pareto[k], Rate(pareto[k].failures, total), Rate(cumulative, total))];
    }
    assert CountsOf(rows) == pareto;
  }

  lemma SumFirst(counts: seq<Count>, k: nat)
    requires k <= |counts|
    ensures SumTo(counts, k) == if k == 0 then 0 else SumTo(counts, k - 1) + counts[k - 1].failures
  {
  }

  // ---------------------------------------------------------------- conservation

  /** Failures of several workflows together. */
  function SumOver(runs: seq<Run>, names: seq<string>): nat {
    if names == [] then 0 else SumOver(runs, names[..|names| - 1]) + Failures(runs, names[|names| - 1])
  }

  lemma {:induction false} FailuresSnoc(runs: seq<Run>, r: Run, name: string)
    ensures Failures(runs + [r], name) == Failures(runs, name) + if IsFailure(r) && r.name == name then 1 else 0
  {
    hide Group;
    GroupSnoc(runs, r, name);
    FailureCountSnoc(Group(runs, name), r);
  }

  /** A run adds to the failures of its own workflow only. */
  lemma {:induction false} SumOverSnoc(runs: seq<Run>, r: Run, names: seq<string>)
    requires DistinctNames(names)
    ensures SumOver(runs + [r], names) == SumOver(runs, names) + if IsFailure(r) && r.name in names then 1 else 0
  {
    hide Failures, IsFailure;
    if names != [] {
      var front, last := names[..|names| - 1], names[|names| - 1];
      SumOverSnoc(runs, r, front);
      FailuresSnoc(runs, r, last);
      assert names == front + [last];
    }
  }

  /** Distinct workflows together never have more failures than there are. */
  lemma {:induction false} SumOverAtMostTotal(runs: seq<Run>, names: seq<string>)
    requires DistinctNames(names)
    ensures SumOver(runs, names) <= FailureCount(runs)
    ensures (forall r :: r in runs && IsFailure(r) ==> r.name in names) ==> SumOver(runs, names) == FailureCount(runs)
  {
    if runs == [] {
      NoRunsNoFailures(names);
    } else {
      var front, last := runs[..|runs| - 1], runs[|runs| - 1];
      assert runs == front + [last];
      SumOverAtMostTotal(front, names);
      SumOverSnoc(front, last, names);
    }
  }

  lemma {:induction false} NoRunsNoFailures(names: seq<string>)
    ensures SumOver([], names) == 0
  {
    if names != [] {
      NoRunsNoFailures(names[..|names| - 1]);
    }
  }

  lemma {:induction false} FailingRunCounts(runs: seq<Run>, r: Run)
    requires r in runs && IsFailure(r)
    ensures Failures(runs, r.name) > 0
  {
    var front, last := runs[..|runs| - 1], runs[|runs| - 1];
    assert runs == front + [last];
    FailuresSnoc(front, last, r.name);
    if r in front {
      FailingRunCounts(front, r);
    }
  }

  lemma {:induction false} SumToIsSumOver(counts: seq<Count>, runs: seq<Run>, k: nat)
    requires k <= |counts| && forall c :: c in counts ==> c.failures == Failures(runs, c.name)
    ensures SumTo(counts, k) == SumOver(runs, NamesOf(counts)[..k])
  {
    if k > 0 {
      SumToIsSumOver(counts, runs, k - 1);
      assert NamesOf(counts)[..k][..k - 1] == NamesOf(counts)[..k - 1];
      assert counts[k - 1] in counts;
    }
  }

  lemma RankedNamesDistinct(counts: seq<Count>, runs: seq<Run>)
    requires IsPareto(counts, runs)
    ensures DistinctNames(NamesOf(counts))
  {
    forall j, k | 0 <= j < k < |counts| ensures NamesOf(counts)[j] != NamesOf(counts)[k] {
      assert counts[j] in counts && counts[k] in counts;
      BeforeIsStrictOrder(counts[j], counts[k], counts[k]);
      assert Before(counts[j], counts[k]);
    }
  }

  /** The failures of the listed workflows sum to all failures. */
  lemma ParetoConservesFailures(counts: seq<Count>, runs: seq<Run>)
    requires IsPareto(counts, runs)
    ensures SumTo(counts, |counts|) == FailureCount(runs)
  {
    RankedNamesDistinct(counts, runs);
    var names := NamesOf(counts);
    forall r | r in runs && IsFailure(r) ensures r.name in names {
      FailingRunCounts(runs, r);
      var k :| 0 <= k < |counts| && counts[k] == Count(r.name, Failures(runs, r.name));
      assert names[k] == r.name;
    }
    SumToIsSumOver(counts, runs, |counts|);
    assert names[..|counts|] == names;
    SumOverAtMostTotal(runs, names);
  }

  lemma {:induction false} SumToGrows(counts: seq<Count>, j: nat, k: nat)
    requires j <= k <= |counts|
    ensures SumTo(counts, j) <= SumTo(counts, k)
  {
    if j < k {
      SumToGrows(counts, j, k - 1);
    }
  }

  lemma RateIsMonotone(a: nat, b: nat, total: nat)
    requires a <= b <= total
    ensures 0.0 <= Rate(a, total) <= Rate(b, total) <= 100.0
    ensures total > 0 ==> Rate(total, total) == 100.0
    ensures total > 0 && a < b ==> Rate(a, total) < Rate(b, total)
  {
    if total > 0 {
      var t := total as real;
      assert b as real == b as real / t * t && a as real == a as real / t * t;
    }
  }

  /** Down the table the share never grows, and the cumulative share never decreases and never exceeds 100. */
  lemma {:induction false} SharesInOrder(rows: seq<Row>, runs: seq<Run>, j: nat, k: nat)
    requires IsPareto(CountsOf(rows), runs) && HasShares(rows, FailureCount(runs)) && j <= k < |rows|
    ensures rows[j].share >= rows[k].share
    ensures rows[j].cumulativeShare <= rows[k].cumulativeShare <= 100.0
  {
    hide Rate, SumTo;
    var counts, total := CountsOf(rows), FailureCount(runs);
    ParetoConservesFailures(counts, runs);
    SumToGrows(counts, j + 1, k + 1);
    SumToGrows(counts, k + 1, |counts|);
    RateIsMonotone(SumTo(counts, j + 1), SumTo(counts, k + 1), total);
    LaterIsSmaller(counts, j, k);
    SumToGrows(counts, j + 1, |counts|);
    SumFirst(counts, j + 1);
    RateIsMonotone(counts[k].failures, counts[j].failures, total);
  }

  /** The table is empty exactly when nothing failed, and otherwise its cumulative share ends at 100. */
  lemma {:induction false} SharesReachHundred(rows: seq<Row>, runs: seq<Run>)
    requires IsPareto(CountsOf(rows), runs) && HasShares(rows, FailureCount(runs))
    ensures rows == [] <==> FailureCount(runs) == 0
    ensures rows != [] ==> rows[|rows| - 1].cumulativeShare == 100.0
  {
    hide Rate, Ranked;
    var counts, total := CountsOf(rows), FailureCount(runs);
    ParetoConservesFailures(counts, runs);
    if rows != [] {
      assert counts[|counts| - 1] in counts;
      RateIsMonotone(total, total, total);
    }
  }

  lemma LaterIsSmaller(counts: seq<Count>, j: nat, k: nat)
    requires Ranked(counts) && j <= k < |counts|
    ensures counts[j].failures >= counts[k].failures
  {
    if j < k {
      assert Before(counts[j], counts[k]);
    }
  }

  // ---------------------------------------------------------------- the vital few

  function SetOf(names: seq<string>): set<string> { set name | name in names }

  lemma {:induction false} DistinctSize(names: seq<string>)
    ensures |SetOf(names)| <= |names|
    ensures DistinctNames(names) ==> |SetOf(names)| == |names|
  {
    if names != [] {
      var front, last := names[..|names| - 1], names[|names| - 1];
      DistinctSize(front);
      assert names == front + [last];
      assert SetOf(names) == SetOf(front) + {last};
    }
  }

  lemma SubsetSize(a: set<string>, b: set<string>)
    requires a <= b
    ensures |a| <= |b|
  {
    assert b == a + (b - a);
  }

  /** Some one of `k` distinct names is not among the first `k - 1` of a list. */
  lemma OneOutside(names: seq<string>, listed: seq<string>) returns (i: nat)
    requires DistinctNames(names) && |names| > |listed|
    ensures i < |names| && names[i] !in listed
  {
    DistinctSize(names);
    DistinctSize(listed);
    if SetOf(names) <= SetOf(listed) {
      SubsetSize(SetOf(names), SetOf(listed));
      assert false;
    }
    var name :| name in SetOf(names) && name !in SetOf(listed);
    i :| 0 <= i < |names| && names[i] == name;
  }

  lemma {:induction false} SumOverWithout(runs: seq<Run>, names: seq<string>, i: nat)
    requires i < |names|
    ensures SumOver(runs, names) == SumOver(runs, names[..i] + names[i + 1..]) + Failures(runs, names[i])
  {
    hide Failures;
    var front, last := names[..|names| - 1], names[|names| - 1];
    var without := names[..i] + names[i + 1..];
    if i < |names| - 1 {
      SumOverWithout(runs, front, i);
      assert without[..|without| - 1] == front[..i] + front[i + 1..];
    } else {
      assert without == front;
    }
  }

  /** A workflow that is not among the first `k` rows has no more failures than row `k`. */
  lemma OutsideIsSmaller(counts: seq<Count>, runs: seq<Run>, k: nat, name: string)
    requires IsPareto(counts, runs) && k < |counts| && name !in NamesOf(counts)[..k]
    ensures Failures(runs, name) <= counts[k].failures
  {
    assert forall j :: 0 <= j < k ==> NamesOf(counts)[..k][j] == counts[j].name;
    if Failures(runs, name) > 0 {
      var j :| 0 <= j < |counts| && counts[j] == Count(name, Failures(runs, name));
      LaterIsSmaller(counts, k, j);
    }
  }

  /** The first rows account for the most failures that so many workflows, however chosen, can account for. */
  lemma {:induction false} FirstRowsAreWorst(counts: seq<Count>, runs: seq<Run>, names: seq<string>)
    requires IsPareto(counts, runs) && DistinctNames(names)
    ensures SumOver(runs, names) <= SumTo(counts, if |names| < |counts| then |names| else |counts|)
  {
    hide Failures, Ranked, IsPareto, DistinctNames;
    if |names| >= |counts| {
      SumOverAtMostTotal(runs, names);
      ParetoConservesFailures(counts, runs);
    } else if names != [] {
      var k := |names| - 1;
      var i := OneOutside(names, NamesOf(counts)[..k]);
      OutsideIsSmaller(counts, runs, k, names[i]);
      SumOverWithout(runs, names, i);
      StillDistinct(names, i);
      FirstRowsAreWorst(counts, runs, names[..i] + names[i + 1..]);
    }
  }

  lemma StillDistinct(names: seq<string>, i: nat)
    requires DistinctNames(names) && i < |names|
    ensures DistinctNames(names[..i] + names[i + 1..])
  {
    var without := names[..i] + names[i + 1..];
    assert forall j :: 0 <= j < |without| ==> without[j] == names[if j < i then j else j + 1];
  }

  // ---------------------------------------------------------------- the order of the runs

  lemma {:induction false} FailuresConcat(a: seq<Run>, b: seq<Run>, name: string)
    ensures Failures(a + b, name) == Failures(a, name) + Failures(b, name)
  {
    hide Failures;
    if b == [] {
      assert a + b == a;
      NoRunsNoFailures([name]);
      SumOverOne([], name);
    } else {
      var front, last := b[..|b| - 1], b[|b| - 1];
      FailuresConcat(a, front, name);
      FailuresSnoc(a + front, last, name);
      FailuresSnoc(front, last, name);
      assert a + b == a + front + [last] && b == front + [last];
    }
  }

  lemma SumOverOne(runs: seq<Run>, name: string)
    ensures SumOver(runs, [name]) == Failures(runs, name)
  {
    assert [name][..0] == [];
  }

  /** Both sequences hold the first run of `a`; taking it out of each leaves permutations. */
  lemma TakeOut(a: seq<Run>, b: seq<Run>) returns (k: nat)
    requires multiset(a) == multiset(b) && a != []
    ensures k < |b| && b == b[..k] + ([a[0]] + b[k + 1..])
    ensures multiset(a[1..]) == multiset(b[..k] + b[k + 1..])
  {
    var x := a[0];
    assert x in multiset(b);
    k :| 0 <= k < |b| && b[k] == x;
    assert a == [x] + a[1..];
    assert b == b[..k] + ([x] + b[k + 1..]);
    Cancel(multiset(a[1..]), multiset(b[..k]) + multiset(b[k + 1..]), x);
  }

  lemma Cancel(m: multiset<Run>, n: multiset<Run>, x: Run)
    requires multiset{x} + m == n + multiset{x}
    ensures m == n
  {
    assert multiset{x} + m - multiset{x} == m && n + multiset{x} - multiset{x} == n;
  }

  lemma {:induction false} FailuresIgnoreOrder(a: seq<Run>, b: seq<Run>, name: string)
    requires multiset(a) == multiset(b)
    ensures Failures(a, name) == Failures(b, name)
  {
    hide Failures;
    assert |multiset(a)| == |a| && |multiset(b)| == |b|;
    if a == [] {
      assert a == b;
    } else {
      var k := TakeOut(a, b);
      FailuresIgnoreOrder(a[1..], b[..k] + b[k + 1..], name);
      FailuresConcat([a[0]], a[1..], name);
      FailuresConcat(b[..k], [a[0]] + b[k + 1..], name);
      FailuresConcat([a[0]], b[k + 1..], name);
      FailuresConcat(b[..k], b[k + 1..], name);
      assert a == [a[0]] + a[1..];
    }
  }

  lemma SameEmptiness(a: seq<Count>, b: seq<Count>)
    requires forall c :: c in a <==> c in b
    ensures a == [] <==> b == []
  {
    if a != [] {
      assert a[0] in a;
    }
    if b != [] {
      assert b[0] in b;
    }
  }

  lemma {:induction false} RankedIsUnique(a: seq<Count>, b: seq<Count>)
    requires Ranked(a) && Ranked(b) && forall c :: c in a <==> c in b
    ensures a == b
  {
    hide Before, Ranked;
    SameEmptiness(a, b);
    if a != [] {
      HeadIsFirst(a);
      HeadIsFirst(b);
      assert a[0] in a && b[0] in b;
      BeforeIsStrictOrder(a[0], b[0], a[0]);
      assert a[0] == b[0];
      assert a == [a[0]] + a[1..] && b == [b[0]] + b[1..];
      RankedIsUnique(a[1..], b[1..]);
    }
  }

  lemma HeadIsFirst(a: seq<Count>)
    requires Ranked(a)
    ensures forall c :: c in a ==> c == a[0] || Before(a[0], c)
    ensures a != [] ==> Ranked(a[1..]) && forall c :: c in a[1..] <==> c in a && c != a[0]
  {
    if a != [] {
      assert a == [a[0]] + a[1..];
      BeforeIsStrictOrder(a[0], a[0], a[0]);
      assert forall k :: 0 < k < |a| ==> Before(a[0], a[k]);
      assert forall k :: 0 <= k < |a| - 1 ==> a[1..][k] != a[0];
    }
  }

  /** The table is determined by the runs, whatever their order. */
  lemma {:induction false} ParetoIgnoresOrder(a: seq<Count>, b: seq<Count>, runs: seq<Run>, reordered: seq<Run>)
    requires multiset(runs) == multiset(reordered) && IsPareto(a, runs) && IsPareto(b, reordered)
    ensures a == b
  {
    hide Failures, Ranked;
    forall name ensures Failures(runs, name) == Failures(reordered, name) {
      FailuresIgnoreOrder(runs, reordered, name);
    }
    assert forall c :: c in a ==> c == Count(c.name, Failures(runs, c.name));
    assert forall c :: c in b ==> c == Count(c.name, Failures(runs, c.name));
    RankedIsUnique(a, b);
  }
}
