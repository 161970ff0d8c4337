/** Greedy first-in-first-out pairing of empty-state views with the recoveries that follow them. */
module Recovery {
  import opened Prelude
  import opened Lists

  datatype Kind = View | Action | Other

  /** A telemetry event; `at` is `None` when `occurredAt` does not parse. */
  datatype Event = Event(at: Option<int>, context: string, kind: Kind)

  const CONTEXT_LIMIT := 80

  function ContextOf(e: Event): string {
    if |e.context| > CONTEXT_LIMIT then e.context[..CONTEXT_LIMIT] else e.context
  }

  /** Two events belong together exactly when their contexts agree on the first eighty characters. */
  lemma SameContextExactly(a: Event, b: Event)
    ensures ContextOf(a) == ContextOf(b) <==>
            || a.context == b.context
            || (|a.context| >= 80 && |b.context| >= 80 && a.context[..80] == b.context[..80])
  {
    if |a.context| < 80 || |b.context| < 80 {
      assert ContextOf(a) == a.context || |ContextOf(a)| == 80;
      assert ContextOf(b) == b.context || |ContextOf(b)| == 80;
    } else {
      assert ContextOf(a) == a.context[..80] && ContextOf(b) == b.context[..80];
    }
  }

  function Time(e: Event): int { e.at.GetOr(0) }

  predicate Earlier(a: Event, b: Event) { Time(a) < Time(b) }

  function Dated(): Event -> bool { (e: Event) => e.at.Some? }

  function Chronological(events: seq<Event>): seq<Event> {
    SortBy(Filter(events, Dated()), Earlier)
  }

  ghost predicate InOrder(es: seq<Event>) {
    && (forall k :: 0 <= k < |es| ==> es[k].at.Some?)
    && forall j, k :: 0 <= j < k < |es| ==> es[j].at.value <= es[k].at.value
  }

  lemma ChronologicalInOrder(events: seq<Event>)
    ensures InOrder(Chronological(events))
  {
    ChronologicalExactly(events);
  }

  function DatedView(): Event -> bool { (e: Event) => e.at.Some? && e.kind == View }

  /** The events of one instant. */
  function AtInstant(t: int): Event -> bool { (e: Event) => e.at == Some(t) }

  /**
   The order the evaluation works in holds every dated event as often as it was given and nothing else, by instant, and
   the events of one instant as they were given.
   */
  lemma {:induction false} ChronologicalExactly(events: seq<Event>)
    ensures InOrder(Chronological(events))
    ensures forall e :: multiset(Chronological(events))[e] == if e.at.Some? then multiset(events)[e] else 0
    ensures forall t :: Filter(Chronological(events), AtInstant(t)) == Filter(events, AtInstant(t))
  {
    hide Filter, SortBy;
    var valid := Filter(events, Dated());
    SortBySorted(valid, Earlier);
    SameElements(Chronological(events), valid);
    assert forall k :: 0 <= k < |Chronological(events)| ==> Chronological(events)[k] in Chronological(events);
    forall e { FilterCounts(events, Dated(), e); }
    forall t ensures Filter(Chronological(events), AtInstant(t)) == Filter(events, AtInstant(t)) {
      SortIsStable(valid, Earlier, AtInstant(t));
      FilterTwice(events, Dated(), AtInstant(t), AtInstant(t));
    }
  }

  // ---------------------------------------------------------------- what the loop builds, per context

  function IsAt(es: seq<Event>, k: nat, c: string, kind: Kind): bool {
    k < |es| && ContextOf(es[k]) == c && es[k].kind == kind
  }

  /** Positions of the views of a context, in order. */
  function ViewsIn(es: seq<Event>, c: string): seq<nat> {
    if es == [] then []
    else
      var n := |es| - 1;
      ViewsIn(es[..n], c) + if IsAt(es, n, c, View) then [n] else []
  }

  /** Positions of the views still waiting in a context's queue. */
  function Pending(es: seq<Event>, c: string): seq<nat> {
    if es == [] then []
    else
      var n := |es| - 1;
      var before := Pending(es[..n], c);
      if IsAt(es, n, c, View) then before + [n]
      else if IsAt(es, n, c, Action) && before != [] then before[1..]
      else before
  }

  /** The (view, recovery) positions paired in a context, in the order of the recoveries. */
  function PairsIn(es: seq<Event>, c: string): seq<(nat, nat)> {
    if es == [] then []
    else
      var n := |es| - 1;
      var waiting := Pending(es[..n], c);
      PairsIn(es[..n], c) + if IsAt(es, n, c, Action) && waiting != [] then [(waiting[0], n)] else []
  }

  function IsView(): Event -> bool { (e: Event) => e.kind == View }

  function CountViews(es: seq<Event>): nat {
    |Filter(es, IsView())|
  }

  function CountRecoveries(es: seq<Event>): nat {
    if es == [] then 0
    else
      var n := |es| - 1;
      CountRecoveries(es[..n]) + if es[n].kind == Action && Pending(es[..n], ContextOf(es[n])) != [] then 1 else 0
  }

  // ---------------------------------------------------------------- the loop

  function QueueOf<T>(queues: map<string, seq<T>>, c: string): seq<T> {
    if c in queues then queues[c] else []
  }

  /** A queue of times stands for a list of positions. */
  ghost predicate Holds(es: seq<Event>, queue: seq<int>, positions: seq<nat>) {
    |queue| == |positions| && forall k :: 0 <= k < |positions| ==>
                                positions[k] < |es| && es[positions[k]].at == Some(queue[k])
  }

  ghost predicate HoldsDurations(es: seq<Event>, lengths: seq<int>, pairs: seq<(nat, nat)>) {
    |lengths| == |pairs| &&
    forall k :: 0 <= k < |pairs| ==>
      && pairs[k].0 < pairs[k].1 < |es| && es[pairs[k].0].at.Some?
      && es[pairs[k].1].at == Some(es[pairs[k].0].at.value + lengths[k])
  }

  /** The queue of every context holds the times of its waiting views. */
  ghost predicate QueuesMatch(es: seq<Event>, queues: map<string, seq<int>>) {
    forall c :: Holds(es, QueueOf(queues, c), Pending(es, c))
  }

  /** The durations of every context are those of its pairs. */
  ghost predicate DurationsMatch(es: seq<Event>, durations: map<string, seq<int>>) {
    forall c :: HoldsDurations(es, QueueOf(durations, c), PairsIn(es, c))
  }

  /** What one event does to the queue of a context. */
  function NextQueue(queue: seq<int>, e: Event, c: string): seq<int> {
    if ContextOf(e) != c then queue
    else
      match e.kind
      case View => queue + [Time(e)]
      case Action => if queue == [] then [] else queue[1..]
      case Other => queue
  }

  lemma QueueAfter(es: seq<Event>, e: Event, c: string, queue: seq<int>)
    requires Holds(es, queue, Pending(es, c)) && e.at.Some?
    ensures Holds(es + [e], NextQueue(queue, e, c), Pending(es + [e], c))
  {
    assert (es + [e])[..|es|] == es;
  }

  lemma {:induction false} QueuesAfter(es: seq<Event>, e: Event, queues: map<string, seq<int>>,
          queues': map<string, seq<int>>)
    requires QueuesMatch(es, queues) && e.at.Some?
    requires forall d :: QueueOf(queues', d) == NextQueue(QueueOf(queues, d), e, d)
    ensures QueuesMatch(es + [e], queues')
  {
    hide Pending, NextQueue, Holds, QueueOf;
    forall d ensures Holds(es + [e], QueueOf(queues', d), Pending(es + [e], d)) {
      QueueAfter(es, e, d, QueueOf(queues, d));
    }
  }

  /** One more event appends at most one pair, in its own context. */
  lemma PairsAfter(es: seq<Event>, e: Event, c: string)
    ensures PairsIn(es + [e], c) ==
            if e.kind == Action && ContextOf(e) == c && Pending(es, c) != []
            then PairsIn(es, c) + [(Pending(es, c)[0], |es|)] else PairsIn(es, c)
  {
    assert (es + [e])[..|es|] == es;
  }

  function NextDurations(lengths: seq<int>, queue: seq<int>, e: Event, c: string): seq<int> {
    if e.kind == Action && ContextOf(e) == c && queue != [] then lengths + [Time(e) - queue[0]] else lengths
  }

  lemma {:induction false} DurationAfter(es: seq<Event>, e: Event, queue: seq<int>, lengths: seq<int>, c: string)
    requires Holds(es, queue, Pending(es, c)) && HoldsDurations(es, lengths, PairsIn(es, c)) && e.at.Some?
    ensures HoldsDurations(es + [e], NextDurations(lengths, queue, e, c), PairsIn(es + [e], c))
  {
    hide Pending, PairsIn;
    PairsAfter(es, e, c);
  }

  lemma {:induction false} DurationsAfter(es: seq<Event>, e: Event, queues: map<string, seq<int>>,
          durations: map<string, seq<int>>, durations': map<string, seq<int>>)
    requires QueuesMatch(es, queues) && DurationsMatch(es, durations) && e.at.Some?
    requires forall d :: QueueOf(durations', d) == NextDurations(QueueOf(durations, d), QueueOf(queues, d), e, d)
    ensures DurationsMatch(es + [e], durations')
  {
    hide Pending, PairsIn, NextDurations, Holds, HoldsDurations, QueueOf;
    forall d ensures HoldsDurations(es + [e], QueueOf(durations', d), PairsIn(es + [e], d)) {
      DurationAfter(es, e, QueueOf(queues, d), QueueOf(durations, d), d);
    }
  }

  /** The views counted are the dated views of the input. */
  lemma {:induction false} ViewsOfInput(events: seq<Event>)
    ensures CountViews(Chronological(events)) == |Filter(events, DatedView())|
  {
    hide Filter, SortBy;
    FilterOfSame(Chronological(events), Filter(events, Dated()), IsView());
    FilterTwice(events, Dated(), IsView(), DatedView());
  }

  lemma {:induction false} CountsAfter(es: seq<Event>, e: Event, queues: map<string, seq<int>>)
    requires QueuesMatch(es, queues)
    ensures CountViews(es + [e]) == CountViews(es) + if e.kind == View then 1 else 0
    ensures CountRecoveries(es + [e]) ==
            CountRecoveries(es) + if e.kind == Action && QueueOf(queues, ContextOf(e)) != [] then 1 else 0
  {
    hide Filter;
    FilterSnoc(es, e, IsView());
    assert (es + [e])[..|es|] == es;
    assert Holds(es, QueueOf(queues, ContextOf(e)), Pending(es, ContextOf(e)));
  }

  /** Whatever waits in a queue is not later than the next event. */
  lemma WaitingIsEarlier(es: seq<Event>, e: Event, queues: map<string, seq<int>>, c: string)
    requires QueuesMatch(es, queues) && InOrder(es + [e]) && QueueOf(queues, c) != []
    ensures QueueOf(queues, c)[0] <= Time(e)
  {
    assert Holds(es, QueueOf(queues, c), Pending(es, c));
    var v := Pending(es, c)[0];
    assert (es + [e])[v] == es[v] && (es + [e])[|es|] == e;
  }

  /** Total length of all queues. */
  ghost function SumLengths<T>(queues: map<string, seq<T>>): nat {
    if queues == map[] then 0
    else
      var c :| c in queues;
      |queues[c]| + SumLengths(queues - {c})
  }

  lemma {:induction false} SumWithout<T>(queues: map<string, seq<T>>, c: string)
    requires c in queues
    ensures SumLengths(queues) == |queues[c]| + SumLengths(queues - {c})
  {
    var d :| d in queues && SumLengths(queues) == |queues[d]| + SumLengths(queues - {d});
    if d != c {
      SumWithout(queues - {d}, c);
      SumWithout(queues - {c}, d);
      assert queues - {d} - {c} == queues - {c} - {d};
    }
  }

  lemma SumAfterUpdate<T>(queues: map<string, seq<T>>, c: string, queue: seq<T>)
    ensures SumLengths(queues[c := queue]) == SumLengths(queues) - |QueueOf(queues, c)| + |queue|
  {
    SumWithout(queues[c := queue], c);
    if c in queues {
      SumWithout(queues, c);
      assert queues[c := queue] - {c} == queues - {c};
    } else {
      assert queues[c := queue] - {c} == queues;
    }
  }

  /**
   The loop of the evaluation: the counters and queues it ends with are those of the pairing, and every view is either
   recovered or still waiting.
   */
  method Evaluate(events: seq<Event>)
    returns (views: nat, recoveries: nat, pending: map<string, seq<int>>, durations: map<string, seq<int>>)
    ensures var es := Chronological(events);
            && views == |Filter(events, DatedView())| && recoveries == CountRecoveries(es)
            && QueuesMatch(es, pending) && DurationsMatch(es, durations)
    ensures views == recoveries + SumLengths(pending)
  {
    hide Pending, PairsIn, CountViews, CountRecoveries, Chronological, QueuesMatch, DurationsMatch, SumLengths;
    views, recoveries, pending, durations := 0, 0, map[], map[];
    var ordered := Chronological(events);
    ChronologicalInOrder(events);
    NothingYet();
    assert ordered[..0] == [];
    for n := 0 to |ordered|
      invariant views == CountViews(ordered[..n]) && recoveries == CountRecoveries(ordered[..n])
      invariant QueuesMatch(ordered[..n], pending) && DurationsMatch(ordered[..n], durations)
      invariant views == recoveries + SumLengths(pending)
    {
      var e := ordered[n];
      var context, when := ContextOf(e), Time(e);
      var queue := QueueOf(pending, context);
      ghost var queues, lengths := pending, durations;
      assert ordered[..n + 1] == ordered[..n] + [e];
      CountsAfter(ordered[..n], e, pending);
      if e.kind == View {
        SumAfterUpdate(pending, context, queue + [when]);
        pending := pending[context := queue + [when]];
        views := views + 1;
      } else if e.kind == Action && queue != [] {
        SumAfterUpdate(pending, context, queue[1..]);
        WaitingIsEarlier(ordered[..n], e, pending, context);
        var started := queue[0];
        pending := pending[context := queue[1..]];
        durations := durations[context := QueueOf(durations, context) + [AtLeastZero(when - started)]];
        recoveries := recoveries + 1;
      } else if e.kind == Action {
        SumAfterUpdate(pending, context, []);
        pending := pending[context := []];
      }
      QueuesAfter(ordered[..n], e, queues, pending);
      DurationsAfter(ordered[..n], e, queues, lengths, durations);
    }
    assert ordered[..|ordered|] == ordered;
    ViewsOfInput(events);
  }

  lemma NothingYet()
    ensures CountViews([]) == 0 && CountRecoveries([]) == 0 && SumLengths<int>(map[]) == 0
    ensures QueuesMatch([], map[]) && DurationsMatch([], map[])
  {
  }

  function AtLeastZero(x: int): int { if x < 0 then 0 else x }

  // ---------------------------------------------------------------- first in, first out

  lemma {:induction false} ViewsInMeaning(es: seq<Event>, c: string)
    ensures forall k :: 0 <= k < |ViewsIn(es, c)| ==> IsAt(es, ViewsIn(es, c)[k], c, View)
    ensures forall j, k :: 0 <= j < k < |ViewsIn(es, c)| ==> ViewsIn(es, c)[j] < ViewsIn(es, c)[k]
    ensures forall v: nat :: IsAt(es, v, c, View) ==> v in ViewsIn(es, c)
  {
    if es != [] {
      var n := |es| - 1;
      ViewsInMeaning(es[..n], c);
      forall v: nat | v < |es| ensures v < n ==> (IsAt(es[..n], v, c, View) <==> IsAt(es, v, c, View)) {}
    }
  }

  /** The i-th recovery of a context is paired with its i-th view, and the views left over are the ones still waiting. */
  lemma {:induction false} FirstInFirstOut(es: seq<Event>, c: string)
    ensures |PairsIn(es, c)| <= |ViewsIn(es, c)|
    ensures Pending(es, c) == ViewsIn(es, c)[|PairsIn(es, c)|..]
    ensures forall k :: 0 <= k < |PairsIn(es, c)| ==> PairsIn(es, c)[k].0 == ViewsIn(es, c)[k]
  {
    if es != [] {
      var n := |es| - 1;
      FirstInFirstOut(es[..n], c);
      var views, pairs := ViewsIn(es[..n], c), PairsIn(es[..n], c);
      if IsAt(es, n, c, View) {
        assert ViewsIn(es, c) == views + [n] && PairsIn(es, c) == pairs;
        assert (views + [n])[|pairs|..] == views[|pairs|..] + [n];
      } else if IsAt(es, n, c, Action) && views[|pairs|..] != [] {
        assert ViewsIn(es, c) == views && PairsIn(es, c) == pairs + [(views[|pairs|], n)];
      } else {
        assert ViewsIn(es, c) == views && PairsIn(es, c) == pairs;
      }
    }
  }

  /** A legal pair: a view, and a later action in the same context. */
  predicate Legal(es: seq<Event>, v: nat, a: nat) {
    v < a < |es| && es[v].kind == View && es[a].kind == Action && ContextOf(es[v]) == ContextOf(es[a])
  }

  /** Every pair the loop makes is legal, uses a fresh action, and lasts a non-negative time without any clamping. */
  lemma {:induction false} PairsAreLegal(es: seq<Event>, c: string)
    ensures forall k :: 0 <= k < |PairsIn(es, c)| ==>
              Legal(es, PairsIn(es, c)[k].0, PairsIn(es, c)[k].1) && ContextOf(es[PairsIn(es, c)[k].0]) == c
    ensures forall j, k :: 0 <= j < k < |PairsIn(es, c)| ==> PairsIn(es, c)[j].1 < PairsIn(es, c)[k].1
  {
    if es != [] {
      var n := |es| - 1;
      PairsAreLegal(es[..n], c);
      FirstInFirstOut(es[..n], c);
      ViewsInMeaning(es[..n], c);
      assert forall k :: 0 <= k < |PairsIn(es[..n], c)| ==>
          Legal(es[..n], PairsIn(es[..n], c)[k].0, PairsIn(es[..n], c)[k].1);
    }
  }

  lemma DurationsNonNegative(events: seq<Event>, c: string, k: nat)
    requires k < |PairsIn(Chronological(events), c)|
    ensures var es, p := Chronological(events), PairsIn(Chronological(events), c)[k];
            p.0 < p.1 < |es| && es[p.0].at.Some? && es[p.1].at.Some? && es[p.0].at.value <= es[p.1].at.value
  {
    ChronologicalInOrder(events);
    PairsAreLegal(Chronological(events), c);
  }

  // ---------------------------------------------------------------- optimality

  /** No view and no action is used twice. */
  ghost predicate Matching(es: seq<Event>, m: set<(nat, nat)>) {
    && (forall p :: p in m ==> Legal(es, p.0, p.1))
    && (forall p, q :: p in m && q in m && (p.0 == q.0 || p.1 == q.1) ==> p == q)
  }

  /**
   Positions that touch every legal pair. An action that finds its queue empty makes the context start over: all its
   views so far are recovered, so they take the place of the actions that recovered them.
   */
  ghost function Cover(es: seq<Event>): set<nat> {
    if es == [] then {}
    else
      var n := |es| - 1;
      var c, cover := ContextOf(es[n]), Cover(es[..n]);
      if es[n].kind != Action then cover
      else if Pending(es[..n], c) != [] then cover + {n}
      else (cover - InContext(es, cover, c)) + ViewSet(es[..n], c)
  }

  ghost function InContext(es: seq<Event>, s: set<nat>, c: string): set<nat> {
    set k | k in s && k < |es| && ContextOf(es[k]) == c
  }

  ghost function ViewSet(es: seq<Event>, c: string): set<nat> {
    set k: nat | k < |es| && IsAt(es, k, c, View)
  }

  lemma {:induction false} CoverInRange(es: seq<Event>, k: nat)
    requires k in Cover(es)
    ensures k < |es|
  {
    var n := |es| - 1;
    if k in Cover(es[..n]) {
      CoverInRange(es[..n], k);
    }
  }

  lemma {:induction false} CoverTouches(es: seq<Event>, v: nat, a: nat)
    requires Legal(es, v, a)
    ensures v in Cover(es) || a in Cover(es)
  {
    var n := |es| - 1;
    if a < n {
      CoverTouches(es[..n], v, a);
    }
    if es[n].kind == Action && ContextOf(es[v]) == ContextOf(es[n]) {
      assert v < n && IsAt(es[..n], v, ContextOf(es[n]), View);
      assert v in ViewSet(es[..n], ContextOf(es[n]));
    }
  }

  lemma {:induction false} ViewSetSize(es: seq<Event>, c: string)
    ensures |ViewSet(es, c)| == |ViewsIn(es, c)|
  {
    hide ContextOf;
    if es == [] {
      assert ViewSet(es, c) == {};
    } else {
      var n := |es| - 1;
      ViewSetSize(es[..n], c);
      if IsAt(es, n, c, View) {
        assert ViewSet(es, c) == ViewSet(es[..n], c) + {n};
      } else {
        assert ViewSet(es, c) == ViewSet(es[..n], c);
      }
    }
  }

  /** How the part of the cover in context `c` changes with the last event. */
  lemma {:induction false} CoverStep(es: seq<Event>, c: string)
    requires es != []
    ensures var n, front := |es| - 1, es[..|es| - 1];
            InContext(es, Cover(es), c) ==
            if es[n].kind != Action || ContextOf(es[n]) != c then InContext(front, Cover(front), c)
            else if Pending(front, c) != [] then InContext(front, Cover(front), c) + {n}
            else ViewSet(front, c)
  {
    hide Pending;
    var n, front, cover := |es| - 1, es[..|es| - 1], Cover(es[..|es| - 1]);
    forall k | k in cover ensures k < n && es[k] == front[k] { CoverInRange(front, k); }
    assert InContext(es, cover, c) == InContext(front, cover, c);
    if es[n].kind == Action && Pending(front, ContextOf(es[n])) == [] {
      var d := ContextOf(es[n]);
      assert forall k :: k in ViewSet(front, d) ==> ContextOf(es[k]) == d;
    }
  }

  /** In every context the cover is as large as the number of pairs made there. */
  lemma {:induction false} CoverSizeIn(es: seq<Event>, c: string)
    ensures |InContext(es, Cover(es), c)| == |PairsIn(es, c)|
  {
    hide Cover, InContext, ViewSet;
    if es == [] {
      EmptyCover(c);
    } else {
      var n, front := |es| - 1, es[..|es| - 1];
      CoverSizeIn(front, c);
      CoverStep(es, c);
      FirstInFirstOut(front, c);
      ViewSetSize(front, c);
      if n in InContext(front, Cover(front), c) {
        InContextBound(front, Cover(front), c, n);
      }
    }
  }

  lemma EmptyCover(c: string)
    ensures InContext([], Cover([]), c) == {}
  {
  }

  lemma InContextBound(es: seq<Event>, s: set<nat>, c: string, k: nat)
    requires k in InContext(es, s, c)
    ensures k < |es|
  {
  }

  lemma {:induction false} CoverSize(es: seq<Event>)
    ensures |Cover(es)| == CountRecoveries(es)
  {
    if es != [] {
      var n := |es| - 1;
      var front, cover, c := es[..n], Cover(es[..n]), ContextOf(es[n]);
      CoverSize(front);
      forall k | k in cover ensures k < n { CoverInRange(front, k); }
      if es[n].kind == Action && Pending(front, c) == [] {
        CoverSizeIn(front, c);
        FirstInFirstOut(front, c);
        ViewSetSize(front, c);
        assert InContext(es, cover, c) == InContext(front, cover, c);
        assert InContext(es, cover, c) <= cover;
        assert (cover - InContext(es, cover, c)) !! ViewSet(front, c);
      }
    }
  }

  /** The covered end of a pair. */
  function Touch(p: (nat, nat), cover: set<nat>): nat {
    if p.0 in cover then p.0 else p.1
  }

  lemma {:induction false} TouchIsInjective(es: seq<Event>, m: set<(nat, nat)>, cover: set<nat>)
    requires Matching(es, m)
    ensures forall p, q :: p in m && q in m && Touch(p, cover) == Touch(q, cover) ==> p == q
  {
  }

  lemma {:induction false} InjectionBound(m: set<(nat, nat)>, cover: set<nat>, targets: set<nat>)
    requires forall p :: p in m ==> Touch(p, cover) in targets
    requires forall p, q :: p in m && q in m && Touch(p, cover) == Touch(q, cover) ==> p == q
    ensures |m| <= |targets|
  {
    if m != {} {
      var p :| p in m;
      InjectionBound(m - {p}, cover, targets - {Touch(p, cover)});
    }
  }

  /** The greedy pairing is optimal: no pairing of actions with earlier views of their context has more pairs. */
  lemma GreedyIsOptimal(es: seq<Event>, m: set<(nat, nat)>)
    requires Matching(es, m)
    ensures |m| <= CountRecoveries(es)
  {
    forall p | p in m ensures Touch(p, Cover(es)) in Cover(es) { CoverTouches(es, p.0, p.1); }
    TouchIsInjective(es, m, Cover(es));
    InjectionBound(m, Cover(es), Cover(es));
    CoverSize(es);
  }

  /** The pairs of all contexts together. */
  ghost function AllPairs(es: seq<Event>): set<(nat, nat)> {
    if es == [] then {}
    else
      var n := |es| - 1;
      var waiting := Pending(es[..n], ContextOf(es[n]));
      AllPairs(es[..n]) + if es[n].kind == Action && waiting != [] then {(waiting[0], n)} else {}
  }

  lemma {:induction false} AllPairsByContext(es: seq<Event>, p: (nat, nat))
    requires p in AllPairs(es)
    ensures p.1 < |es| && p in PairsIn(es, ContextOf(es[p.1]))
  {
    var n := |es| - 1;
    if p in AllPairs(es[..n]) {
      AllPairsByContext(es[..n], p);
    }
  }

  lemma {:induction false} AllPairsSize(es: seq<Event>)
    ensures |AllPairs(es)| == CountRecoveries(es)
  {
    if es != [] {
      var n := |es| - 1;
      AllPairsSize(es[..n]);
      forall p | p in AllPairs(es[..n]) ensures p.1 < n {
        AllPairsByContext(es[..n], p);
      }
    }
  }

  /** Two pairs of one context that share a view or an action are the same pair. */
  lemma {:induction false} PairsInDistinct(es: seq<Event>, c: string, p: (nat, nat), q: (nat, nat))
    requires p in PairsIn(es, c) && q in PairsIn(es, c) && (p.0 == q.0 || p.1 == q.1)
    ensures p == q
  {
    hide PairsIn, ViewsIn, Pending;
    PairsAreLegal(es, c);
    FirstInFirstOut(es, c);
    ViewsInMeaning(es, c);
    var j :| 0 <= j < |PairsIn(es, c)| && PairsIn(es, c)[j] == p;
    var k :| 0 <= k < |PairsIn(es, c)| && PairsIn(es, c)[k] == q;
    assert j == k;
  }

  /** And it is attained: the pairs of the loop form a matching with exactly that many pairs. */
  lemma {:induction false} GreedyIsAMatching(es: seq<Event>)
    ensures Matching(es, AllPairs(es)) && |AllPairs(es)| == CountRecoveries(es)
  {
    hide PairsIn, AllPairs, CountRecoveries;
    AllPairsSize(es);
    forall p | p in AllPairs(es) ensures p.1 < |es| && p in PairsIn(es, ContextOf(es[p.1])) && Legal(es, p.0, p.1) {
      AllPairsByContext(es, p);
      PairsAreLegal(es, ContextOf(es[p.1]));
    }
    forall p, q | p in AllPairs(es) && q in AllPairs(es) && (p.0 == q.0 || p.1 == q.1) ensures p == q {
      PairsInDistinct(es, ContextOf(es[p.1]), p, q);
    }
  }
}
