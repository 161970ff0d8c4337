/** Fixed, clock-aligned collection windows and the early-stopping page loop that feeds them. */
module FixedWindow {
  import opened Prelude
  import opened Lists

  // ---------------------------------------------------------------- clock arithmetic, in microseconds

  const MINUTE := 60_000_000
  const HOUR := 3_600_000_000

  function AtLeast(low: int, x: int): int { if x < low then low else x }

  /** `as_of` with its minute, second and microsecond replaced. */
  function SetMinute(asOf: int, minute: int): int {
    asOf / HOUR * HOUR + minute * MINUTE
  }

  function WindowEnd(asOf: int, settleMinutes: int, anchorMinute: int): int {
    var readyBefore := asOf - AtLeast(0, settleMinutes) * MINUTE;
    var endAt := SetMinute(asOf, anchorMinute);
    if endAt > readyBefore then endAt - HOUR else endAt
  }

  datatype BoundsError = AnchorOutOfRange

  function FixedWindowBounds(asOf: int, windowMinutes: int, settleMinutes: int, anchorMinute: int)
    : Result<(int, int), BoundsError>
  {
    if !(0 <= anchorMinute <= 59) then Err(AnchorOutOfRange)
    else
      var endAt := WindowEnd(asOf, settleMinutes, anchorMinute);
      Ok((endAt - AtLeast(1, windowMinutes) * MINUTE, endAt))
  }

  predicate Aligned(instant: int, anchorMinute: int) {
    (instant - anchorMinute * MINUTE) % HOUR == 0
  }

  /** The window end is aligned, and it is the only aligned instant of the settled hour before `as_of`. */
  lemma EndIsUnique(asOf: int, settle: int, anchor: int, e: int)
    requires 0 <= anchor <= 59 && 0 <= settle <= 60 - anchor
    ensures var latest := asOf - settle * MINUTE;
            e == WindowEnd(asOf, settle, anchor) <==> Aligned(e, anchor) && latest - HOUR < e <= latest
  {
    var h := asOf / HOUR;
    var end := WindowEnd(asOf, settle, anchor);
    assert h * HOUR <= asOf < h * HOUR + HOUR;
    assert end == h * HOUR + anchor * MINUTE || end == (h - 1) * HOUR + anchor * MINUTE;
    AlignedMultiple(h, anchor);
    AlignedMultiple(h - 1, anchor);
    if Aligned(e, anchor) {
      var k := AlignedIndex(e, anchor);
    }
  }

  /**
   For any settling time the window ends on the anchor minute, in the hour of `as_of` when anchor and settling time have
   both passed in it, and otherwise in the hour before; a negative settling time counts as none.
   */
  lemma EndExactly(asOf: int, settle: int, anchor: int)
    requires 0 <= anchor <= 59
    ensures var end, wait := WindowEnd(asOf, settle, anchor), if settle < 0 then 0 else settle;
            && end % 3_600_000_000 == anchor * 60_000_000
            && end / 3_600_000_000 == asOf / 3_600_000_000
               - if asOf % 3_600_000_000 >= (anchor + wait) * 60_000_000 then 0 else 1
  {
    var h := asOf / HOUR;
    assert asOf == h * HOUR + asOf % HOUR;
    var end := WindowEnd(asOf, settle, anchor);
    assert end == h * HOUR + anchor * MINUTE || end == (h - 1) * HOUR + anchor * MINUTE;
  }

  lemma AlignedMultiple(k: int, anchor: int)
    ensures Aligned(k * HOUR + anchor * MINUTE, anchor)
  {
  }

  lemma AlignedIndex(e: int, anchor: int) returns (k: int)
    requires Aligned(e, anchor)
    ensures e == k * HOUR + anchor * MINUTE
  {
    k := (e - anchor * MINUTE) / HOUR;
  }

  /** The window has settled exactly when `as_of` is far enough into its hour. */
  lemma SettledExactly(asOf: int, settle: int, anchor: int)
    requires 0 <= anchor <= 59 && settle >= 0
    ensures WindowEnd(asOf, settle, anchor) <= asOf - settle * MINUTE <==>
            asOf % HOUR >= (settle + anchor - 60) * MINUTE
  {
    assert asOf == asOf / HOUR * HOUR + asOf % HOUR;
  }

  /** A policy honours its settling time at every instant exactly when settle plus anchor fit in the hour. */
  lemma PolicySettlesExactly(settle: int, anchor: int)
    requires 0 <= anchor <= 59 && settle >= 0
    ensures (forall asOf :: WindowEnd(asOf, settle, anchor) <= asOf - settle * MINUTE) <==> settle <= 60 - anchor
  {
    forall asOf ensures WindowEnd(asOf, settle, anchor) <= asOf - settle * MINUTE <==>
                        asOf % HOUR >= (settle + anchor - 60) * MINUTE {
      SettledExactly(asOf, settle, anchor);
    }
    var onTheHour := WindowEnd(0, settle, anchor);
  }

  /** A later clock never yields an earlier window, whatever the settling time. */
  lemma EndIsMonotone(asOf: int, later: int, settle: int, anchor: int)
    requires 0 <= anchor <= 59 && asOf <= later
    ensures WindowEnd(asOf, settle, anchor) <= WindowEnd(later, settle, anchor)
  {
    var h, h' := asOf / HOUR, later / HOUR;
    assert h * HOUR <= asOf < h * HOUR + HOUR && h' * HOUR <= later < h' * HOUR + HOUR;
    assert h <= h';
  }

  /** Every aligned instant is the end of some window: the windows that can occur are exactly the aligned ones. */
  lemma EveryAlignedEndOccurs(e: int, settle: int, anchor: int)
    requires 0 <= anchor <= 59 && 0 <= settle <= 60 - anchor && Aligned(e, anchor)
    ensures WindowEnd(e + settle * MINUTE, settle, anchor) == e
  {
    EndIsUnique(e + settle * MINUTE, settle, anchor, e);
  }

  predicate InWindow(t: int, e: int, windowMinutes: int) {
    e - AtLeast(1, windowMinutes) * MINUTE <= t < e
  }

  /** Bounds are refused exactly for an anchor outside the hour; otherwise they enclose the window that ends last. */
  lemma BoundsExactly(asOf: int, windowMinutes: int, settle: int, anchor: int)
    ensures var bounds := FixedWindowBounds(asOf, windowMinutes, settle, anchor);
            && (bounds.Err? <==> !(0 <= anchor <= 59))
            && (bounds.Ok? ==> forall t :: bounds.value.0 <= t < bounds.value.1 <==>
                                 InWindow(t, WindowEnd(asOf, settle, anchor), windowMinutes))
            && (bounds.Ok? ==> bounds.value.1 - bounds.value.0 ==
                               (if windowMinutes < 1 then 1 else windowMinutes) * 60_000_000)
            && (bounds.Ok? && 0 <= settle <= 60 - anchor ==>
                 && Aligned(bounds.value.1, anchor) && bounds.value.1 <= asOf - settle * MINUTE
                 && forall e :: Aligned(e, anchor) && e <= asOf - settle * MINUTE ==> e <= bounds.value.1)
  {
    if 0 <= anchor <= 59 && 0 <= settle <= 60 - anchor {
      var end := WindowEnd(asOf, settle, anchor);
      EndIsUnique(asOf, settle, anchor, end);
      forall e | Aligned(e, anchor) && e <= asOf - settle * MINUTE ensures e <= end {
        if e > asOf - settle * MINUTE - HOUR {
          EndIsUnique(asOf, settle, anchor, e);
        }
      }
    }
  }

  ghost predicate InExactlyOneWindow(t: int, windowMinutes: int, anchor: int) {
    exists e :: Aligned(e, anchor) && InWindow(t, e, windowMinutes)
                && forall e' :: Aligned(e', anchor) && InWindow(t, e', windowMinutes) ==> e' == e
  }

  /** The aligned windows tile the timeline exactly when they last an hour. */
  lemma WindowsTileExactly(windowMinutes: int, anchor: int)
    requires 0 <= anchor <= 59
    ensures (forall t :: InExactlyOneWindow(t, windowMinutes, anchor)) <==> windowMinutes == 60
  {
    if windowMinutes == 60 {
      forall t ensures InExactlyOneWindow(t, windowMinutes, anchor) {
        HourWindowsTile(t, anchor);
      }
    } else {
      OtherWindowsDoNot(windowMinutes, anchor);
    }
  }

  lemma HourWindowsTile(t: int, anchor: int)
    requires 0 <= anchor <= 59
    ensures InExactlyOneWindow(t, 60, anchor)
  {
    var k := (t - anchor * MINUTE) / HOUR;
    var e := (k + 1) * HOUR + anchor * MINUTE;
    AlignedMultiple(k + 1, anchor);
    assert InWindow(t, e, 60);
    forall e' | Aligned(e', anchor) && InWindow(t, e', 60) ensures e' == e {
      var k' := AlignedIndex(e', anchor);
    }
  }

  /** Shorter windows leave the aligned instants themselves uncovered; longer ones cover some instant twice. */
  lemma OtherWindowsDoNot(windowMinutes: int, anchor: int)
    requires 0 <= anchor <= 59 && windowMinutes != 60
    ensures exists t :: !InExactlyOneWindow(t, windowMinutes, anchor)
  {
    if windowMinutes < 60 {
      var t := anchor * MINUTE;
      forall e | Aligned(e, anchor) ensures !InWindow(t, e, windowMinutes) {
        var k := AlignedIndex(e, anchor);
      }
      assert !InExactlyOneWindow(t, windowMinutes, anchor);
    } else {
      var t := anchor * MINUTE - 1;
      var e, e' := anchor * MINUTE, anchor * MINUTE + HOUR;
      AlignedMultiple(0, anchor);
      AlignedMultiple(1, anchor);
      assert InWindow(t, e, windowMinutes) && InWindow(t, e', windowMinutes);
      assert !InExactlyOneWindow(t, windowMinutes, anchor);
    }
  }

  // ---------------------------------------------------------------- paginated collection

  /** A workflow run; `createdAt` is `None` when the timestamp is missing. */
  datatype WorkflowRun = WorkflowRun(id: int, createdAt: Option<int>)

  predicate Created(run: WorkflowRun, startAt: int, endAt: int) {
    run.createdAt.Some? && startAt <= run.createdAt.value < endAt
  }

  predicate Before(run: WorkflowRun, instant: int) {
    run.createdAt.Some? && run.createdAt.value < instant
  }

  function Cohort(runs: seq<WorkflowRun>, startAt: int, endAt: int): seq<WorkflowRun> {
    Filter(runs, (run: WorkflowRun) => Created(run, startAt, endAt))
  }

  /** The cohort of the settled window: the dated runs that lie in it, its end excluded. */
  lemma WindowCohortExactly(runs: seq<WorkflowRun>, asOf: int, windowMinutes: int, settle: int, anchor: int,
          run: WorkflowRun)
    requires 0 <= anchor <= 59
    ensures var bounds, end := FixedWindowBounds(asOf, windowMinutes, settle, anchor), WindowEnd(asOf, settle, anchor);
            run in Cohort(runs, bounds.value.0, bounds.value.1) <==>
            && run in runs && run.createdAt.Some?
            && end - (if windowMinutes < 1 then 1 else windowMinutes) * 60_000_000 <= run.createdAt.value < end
  {
  }

  ghost predicate NewestFirst(runs: seq<WorkflowRun>) {
    forall j, k :: 0 <= j < k < |runs| && runs[j].createdAt.Some? && runs[k].createdAt.Some? ==>
                     runs[j].createdAt.value >= runs[k].createdAt.value
  }

  function Clip(n: int, length: nat): (c: nat)
    requires n >= 0
    ensures c <= length && c <= n && (c == n || c == length)
  {
    if n < length then n else length
  }

  /** Page `p`, counted from 1, of a list as the server holds it when it answers. */
  function Page(runs: seq<WorkflowRun>, p: nat, perPage: nat): seq<WorkflowRun>
    requires p >= 1
  {
    var from, to := (p - 1) * perPage, p * perPage;
    assert to == from + perPage;
    runs[Clip(from, |runs|)..Clip(to, |runs|)]
  }

  /** `views[p - 1]` is the server's list at the time of call `p`. */
  function Pages(views: seq<seq<WorkflowRun>>, perPage: nat, p: nat): seq<WorkflowRun>
    requires p <= |views|
  {
    if p == 0 then [] else Pages(views, perPage, p - 1) + Page(views[p - 1], p, perPage)
  }

  /** The oldest timestamp of a batch, if any is valid. */
  function Oldest(batch: seq<WorkflowRun>): (o: Option<int>)
    ensures o.Some? ==> exists k :: 0 <= k < |batch| && batch[k].createdAt == o
    ensures forall k :: 0 <= k < |batch| && batch[k].createdAt.Some? ==>
                          o.Some? && o.value <= batch[k].createdAt.value
  {
    if batch == [] then None
    else
      var front, last := Oldest(batch[..|batch| - 1]), batch[|batch| - 1].createdAt;
      assert forall k :: 0 <= k < |batch| - 1 ==> batch[..|batch| - 1][k] == batch[k];
      if last.None? then front
      else if front.None? || last.value < front.value then last
      else front
  }

  /** Why the loop may stop after a page: it is short, or it reaches back before the window. */
  predicate Stops(batch: seq<WorkflowRun>, perPage: nat, startAt: int) {
    |batch| < perPage || exists k :: 0 <= k < |batch| && Before(batch[k], startAt)
  }

  predicate StopsAt(views: seq<seq<WorkflowRun>>, p: nat, perPage: nat, startAt: int) {
    1 <= p <= |views| && Stops(Page(views[p - 1], p, perPage), perPage, startAt)
  }

  /** The page is short, or holds a run dated before the window. */
  lemma StopsAtExactly(views: seq<seq<WorkflowRun>>, p: nat, perPage: nat, startAt: int)
    requires 1 <= p <= |views|
    ensures StopsAt(views, p, perPage, startAt) <==>
            || |Page(views[p - 1], p, perPage)| < perPage
            || exists run :: run in Page(views[p - 1], p, perPage) && run.createdAt.Some? && run.createdAt.value < startAt
  {
    var batch := Page(views[p - 1], p, perPage);
    if run :| run in batch && run.createdAt.Some? && run.createdAt.value < startAt {
      var k :| 0 <= k < |batch| && batch[k] == run;
      assert Before(batch[k], startAt);
    }
  }

  method FetchRunsForWindow(views: seq<seq<WorkflowRun>>, startAt: int, maxPages: int, perPage: nat)
    returns (collected: seq<WorkflowRun>, complete: bool, pages: nat)
    requires perPage >= 1 && |views| == AtLeast(1, maxPages)
    ensures 1 <= pages <= |views| && collected == Pages(views, perPage, pages)
    ensures forall p :: 1 <= p < pages ==> !StopsAt(views, p, perPage, startAt)
    ensures complete <==> StopsAt(views, pages, perPage, startAt)
    ensures !complete ==> pages == |views|
  {
    collected, complete, pages := [], false, 0;
    for page := 1 to AtLeast(1, maxPages) + 1
      invariant pages == page - 1 && !complete
      invariant collected == Pages(views, perPage, pages)
      invariant forall p :: 1 <= p < page ==> !StopsAt(views, p, perPage, startAt)
    {
      var batch := Page(views[page - 1], page, perPage);
      pages := page;
      collected := collected + batch;
      if |batch| == 0 {
        complete := true;
        break;
      }
      var oldest := Oldest(batch);
      if oldest.Some? && oldest.value < startAt {
        complete := true;
        break;
      }
      if |batch| < perPage {
        complete := true;
        break;
      }
    }
  }

  /** Every call sees one and the same list. */
  ghost predicate Stable(views: seq<seq<WorkflowRun>>, runs: seq<WorkflowRun>) {
    forall v :: v in views ==> v == runs
  }

  lemma {:induction false} StablePagesArePrefix(views: seq<seq<WorkflowRun>>, runs: seq<WorkflowRun>, perPage: nat,
          p: nat)
    requires Stable(views, runs) && p <= |views|
    ensures p * perPage >= 0 && Pages(views, perPage, p) == runs[..Clip(p * perPage, |runs|)]
  {
    if p > 0 {
      StablePagesArePrefix(views, runs, perPage, p - 1);
      assert views[p - 1] in views;
      assert p * perPage == (p - 1) * perPage + perPage;
    }
  }

  /** Past a run older than the window, a newest-first list holds nothing of the window. */
  lemma TailOutsideWindow(runs: seq<WorkflowRun>, cut: nat, k: nat, startAt: int, endAt: int)
    requires NewestFirst(runs) && k < cut <= |runs| && Before(runs[k], startAt)
    ensures Cohort(runs[cut..], startAt, endAt) == []
  {
    forall run | run in runs[cut..] ensures !Created(run, startAt, endAt) {
      var n :| 0 <= n < |runs[cut..]| && runs[cut..][n] == run;
      assert run == runs[cut + n];
    }
  }

  /** A collection reported complete holds the whole cohort, as if the entire list had been filtered. */
  lemma {:induction false} CompleteCollectionIsExact(views: seq<seq<WorkflowRun>>, runs: seq<WorkflowRun>,
          perPage: nat, pages: nat, startAt: int, endAt: int)
    requires perPage >= 1 && 1 <= pages <= |views|
    requires Stable(views, runs) && NewestFirst(runs)
    requires StopsAt(views, pages, perPage, startAt)
    ensures Cohort(Pages(views, perPage, pages), startAt, endAt) == Cohort(runs, startAt, endAt)
  {
    hide Cohort, Stops, Page;
    StablePagesArePrefix(views, runs, perPage, pages);
    assert views[pages - 1] in views;
    var cut := Clip(pages * perPage, |runs|);
    PageReachesCut(runs, perPage, pages, startAt);
    if cut == |runs| {
      assert runs[..cut] == runs;
    } else {
      var k :| 0 <= k < cut && Before(runs[k], startAt);
      TailOutsideWindow(runs, cut, k, startAt, endAt);
      CohortConcat(runs[..cut], runs[cut..], startAt, endAt);
      assert runs == runs[..cut] + runs[cut..];
      assert Cohort(runs[..cut], startAt, endAt) + [] == Cohort(runs[..cut], startAt, endAt);
    }
  }

  lemma CohortConcat(a: seq<WorkflowRun>, b: seq<WorkflowRun>, startAt: int, endAt: int)
    ensures Cohort(a + b, startAt, endAt) == Cohort(a, startAt, endAt) + Cohort(b, startAt, endAt)
  {
    FilterConcat(a, b, (run: WorkflowRun) => Created(run, startAt, endAt));
  }

  /** The page that stops the loop ends the list, or some run read so far is older than the window. */
  lemma PageReachesCut(runs: seq<WorkflowRun>, perPage: nat, p: nat, startAt: int)
    requires perPage >= 1 && p >= 1 && Stops(Page(runs, p, perPage), perPage, startAt)
    ensures p * perPage >= 0
    ensures var cut := Clip(p * perPage, |runs|);
            cut == |runs| || exists k :: 0 <= k < cut && Before(runs[k], startAt)
  {
    var from := (p - 1) * perPage;
    assert p * perPage == from + perPage;
    var batch := Page(runs, p, perPage);
    if |batch| == perPage {
      var k :| 0 <= k < |batch| && Before(batch[k], startAt);
      assert batch[k] == runs[from + k];
    }
  }

  // ---------------------------------------------------------------- runs that arrive between two calls

  /** Each call sees the first list with ever more newer runs in front of it. */
  ghost predicate Growing(views: seq<seq<WorkflowRun>>, base: seq<WorkflowRun>, arrived: seq<nat>) {
    && |arrived| == |views| > 0 && arrived[0] == 0
    && (forall p :: 0 <= p < |views| ==> |views[p]| == arrived[p] + |base| && views[p][arrived[p]..] == base)
    && (forall p, q :: 0 <= p < q < |views| ==> arrived[p] <= arrived[q])
  }

  /** Arrivals shift the pages, yet the pages read so far cover a prefix of the first list without a hole. */
  lemma {:induction false} PagesCoverPrefix(views: seq<seq<WorkflowRun>>, base: seq<WorkflowRun>, arrived: seq<nat>,
          perPage: nat, p: nat, k: nat)
    requires Growing(views, base, arrived) && 1 <= p <= |views|
    requires k < |base| && arrived[p - 1] + k < p * perPage
    ensures base[k] in Pages(views, perPage, p)
  {
    var at, from := arrived[p - 1] + k, (p - 1) * perPage;
    assert p * perPage == from + perPage;
    assert views[p - 1][at] == views[p - 1][arrived[p - 1]..][k] == base[k];
    if from <= at {
      var batch := Page(views[p - 1], p, perPage);
      assert batch[at - from] == base[k];
      assert base[k] in batch;
    } else {
      PagesCoverPrefix(views, base, arrived, perPage, p - 1, k);
    }
  }

  /** So a complete collection misses no run of the window that existed at the first call. */
  lemma ArrivalsLoseNothing(views: seq<seq<WorkflowRun>>, base: seq<WorkflowRun>, arrived: seq<nat>, perPage: nat,
          pages: nat, startAt: int, endAt: int, k: nat)
    requires Growing(views, base, arrived) && perPage >= 1 && 1 <= pages <= |views|
    requires NewestFirst(views[pages - 1]) && StopsAt(views, pages, perPage, startAt)
    requires k < |base| && Created(base[k], startAt, endAt)
    ensures base[k] in Cohort(Pages(views, perPage, pages), startAt, endAt)
  {
    var view, at, from := views[pages - 1], arrived[pages - 1] + k, (pages - 1) * perPage;
    assert pages * perPage == from + perPage;
    assert view[at] == view[arrived[pages - 1]..][k] == base[k];
    var batch := Page(view, pages, perPage);
    if |batch| == perPage {
      var n :| 0 <= n < |batch| && Before(batch[n], startAt);
      assert batch[n] == view[from + n];
      assert at < from + n;
    }
    PagesCoverPrefix(views, base, arrived, perPage, pages, k);
  }
}
