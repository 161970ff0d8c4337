/** The bounded post-deploy history, extended one sample at a time, and the mean time between failures read from it. */
module BoundedHistory {
  import opened Prelude
  import opened Text
  import opened Lists

  datatype Sample = Sample(epoch: int, baseUrl: string, pageUrl: string, contractUrl: string, state: string,
                           failureCount: int)

  predicate Earlier(a: Sample, b: Sample) { a.epoch < b.epoch }

  /** `str(value or "")` of an epoch. */
  function EpochText(epoch: int): string { if epoch == 0 then "" else Decimal(epoch) }

  function SampleKey(s: Sample): string {
    JoinBars([EpochText(s.epoch), s.baseUrl, s.pageUrl, s.contractUrl, s.state])
  }

  function HasKey(items: seq<Sample>, key: string): bool {
    exists k :: 0 <= k < |items| && SampleKey(items[k]) == key
  }

  function AppendBounded(existing: seq<Sample>, sample: Sample, limit: int): seq<Sample> {
    var items := if HasKey(existing, SampleKey(sample)) then existing else existing + [sample];
    TakeLast(SortBy(items, Earlier), limit)
  }

  /** The history after a whole sequence of samples, repeats included. */
  function Replay(samples: seq<Sample>, limit: int): seq<Sample> {
    if samples == [] then []
    else AppendBounded(Replay(samples[..|samples| - 1], limit), samples[|samples| - 1], limit)
  }

  /** The key begins with the epoch, so equal keys mean equal epochs. */
  lemma KeyFixesEpoch(a: Sample, b: Sample)
    requires SampleKey(a) == SampleKey(b)
    ensures a.epoch == b.epoch
  {
    var restA, restB := [a.baseUrl, a.pageUrl, a.contractUrl, a.state], [b.baseUrl, b.pageUrl, b.contractUrl, b.state];
    assert [EpochText(a.epoch), a.baseUrl, a.pageUrl, a.contractUrl, a.state][1..] == restA;
    assert [EpochText(b.epoch), b.baseUrl, b.pageUrl, b.contractUrl, b.state][1..] == restB;
    DecimalBarFree(a.epoch);
    DecimalBarFree(b.epoch);
    SplitAtFirstBar(EpochText(a.epoch), JoinBars(restA), EpochText(b.epoch), JoinBars(restB));
    EpochTextInjective(a.epoch, b.epoch);
  }

  /** The key spells the five fields, an epoch of zero as nothing. */
  lemma KeySpelled(s: Sample)
    ensures SampleKey(s) == (if s.epoch == 0 then "" else Decimal(s.epoch)) + "|" + s.baseUrl + "|" + s.pageUrl + "|"
                            + s.contractUrl + "|" + s.state
  {
    var all := [EpochText(s.epoch), s.baseUrl, s.pageUrl, s.contractUrl, s.state];
    assert all[1..] == [s.baseUrl, s.pageUrl, s.contractUrl, s.state];
    assert all[1..][1..] == [s.pageUrl, s.contractUrl, s.state];
    assert all[1..][1..][1..] == [s.contractUrl, s.state];
    var two := s.contractUrl + "|" + s.state;
    var three := s.pageUrl + "|" + two;
    assert JoinBars(all[1..][1..][1..]) == two;
    assert JoinBars(all[1..][1..]) == three;
    assert JoinBars(all[1..]) == s.baseUrl + "|" + three;
    assert JoinBars(all) == EpochText(s.epoch) + "|" + (s.baseUrl + "|" + three);
  }

  predicate BarFreeSample(s: Sample) {
    BarFree(s.baseUrl) && BarFree(s.pageUrl) && BarFree(s.contractUrl) && BarFree(s.state)
  }

  /** Without bars in the texts, two samples share a key exactly when they agree on all five fields. */
  lemma SameKeyExactly(a: Sample, b: Sample)
    requires BarFreeSample(a) && BarFreeSample(b)
    ensures SampleKey(a) == SampleKey(b) <==>
            && a.epoch == b.epoch && a.baseUrl == b.baseUrl && a.pageUrl == b.pageUrl
            && a.contractUrl == b.contractUrl && a.state == b.state
  {
    if SampleKey(a) == SampleKey(b) {
      var fa := [EpochText(a.epoch), a.baseUrl, a.pageUrl, a.contractUrl, a.state];
      var fb := [EpochText(b.epoch), b.baseUrl, b.pageUrl, b.contractUrl, b.state];
      DecimalBarFree(a.epoch);
      DecimalBarFree(b.epoch);
      JoinBarsInjective(fa, fb);
      assert fa[0] == fb[0] && fa[1] == fb[1] && fa[2] == fb[2] && fa[3] == fb[3] && fa[4] == fb[4];
      EpochTextInjective(a.epoch, b.epoch);
    }
  }

  lemma EpochTextInjective(m: int, n: int)
    requires EpochText(m) == EpochText(n)
    ensures m == n
  {
    assert |Decimal(m)| > 0 && |Decimal(n)| > 0;
    if m != 0 && n != 0 {
      DecimalInjective(m, n);
    }
  }

  /** Different keys never share an epoch. */
  ghost predicate EpochsSeparateKeys(samples: seq<Sample>) {
    forall a, b :: a in samples && b in samples && a.epoch == b.epoch ==> SampleKey(a) == SampleKey(b)
  }

  ghost predicate StrictlyByEpoch(items: seq<Sample>) {
    forall j, k :: 0 <= j < k < |items| ==> items[j].epoch < items[k].epoch
  }

  /** The samples with a key not seen before, in the order of arrival. */
  function Distinct(samples: seq<Sample>): seq<Sample> {
    if samples == [] then []
    else
      var front, x := Distinct(samples[..|samples| - 1]), samples[|samples| - 1];
      if HasKey(front, SampleKey(x)) then front else front + [x]
  }

  /** What an offline computation keeps: every key ever seen, by epoch, cut to the newest `limit`. */
  function Offline(samples: seq<Sample>, limit: int): seq<Sample> {
    TakeLast(SortBy(Distinct(samples), Earlier), limit)
  }

  lemma {:induction false} DistinctHasAllKeys(samples: seq<Sample>)
    ensures forall x :: x in Distinct(samples) ==> x in samples
    ensures forall x :: x in samples ==> HasKey(Distinct(samples), SampleKey(x))
  {
    hide SampleKey;
    if samples != [] {
      var front, x := samples[..|samples| - 1], samples[|samples| - 1];
      DistinctHasAllKeys(front);
      assert samples == front + [x];
      var d := Distinct(front);
      forall y | y in samples ensures HasKey(Distinct(samples), SampleKey(y)) {
        if y in front {
          var k :| 0 <= k < |d| && SampleKey(d[k]) == SampleKey(y);
          assert Distinct(samples)[k] == d[k];
        } else if !HasKey(d, SampleKey(x)) {
          assert Distinct(samples)[|d|] == x;
        }
      }
    }
  }

  /** `x` is the sample with its key that arrived first. */
  ghost predicate FirstOfKey(samples: seq<Sample>, x: Sample) {
    exists k :: 0 <= k < |samples| && samples[k] == x
                && forall j :: 0 <= j < k ==> SampleKey(samples[j]) != SampleKey(x)
  }

  lemma {:induction false} FirstOfKeySnoc(samples: seq<Sample>, last: Sample, x: Sample)
    ensures FirstOfKey(samples + [last], x) <==>
            FirstOfKey(samples, x) || (x == last && forall y :: y in samples ==> SampleKey(y) != SampleKey(x))
  {
    hide SampleKey;
    var all := samples + [last];
    if FirstOfKey(samples, x) {
      var k :| 0 <= k < |samples| && samples[k] == x
               && forall j :: 0 <= j < k ==> SampleKey(samples[j]) != SampleKey(x);
      assert all[k] == x && forall j :: 0 <= j < k ==> all[j] == samples[j];
    }
    if FirstOfKey(all, x) {
      var k :| 0 <= k < |all| && all[k] == x && forall j :: 0 <= j < k ==> SampleKey(all[j]) != SampleKey(x);
      if k < |samples| {
        assert samples[k] == x && forall j :: 0 <= j < k ==> all[j] == samples[j];
      } else {
        assert forall j :: 0 <= j < |samples| ==> all[j] == samples[j];
      }
    }
    if x == last && forall y :: y in samples ==> SampleKey(y) != SampleKey(x) {
      assert all[|samples|] == x && forall j :: 0 <= j < |samples| ==> all[j] == samples[j] && samples[j] in samples;
    }
  }

  /** The distinct samples are exactly the first of each key. */
  lemma {:induction false} DistinctExactly(samples: seq<Sample>, x: Sample)
    ensures x in Distinct(samples) <==> FirstOfKey(samples, x)
  {
    hide SampleKey, FirstOfKey;
    if samples == [] {
      assert !FirstOfKey([], x) by { NoFirst(x); }
    } else {
      var front, last := samples[..|samples| - 1], samples[|samples| - 1];
      assert samples == front + [last];
      DistinctExactly(front, x);
      DistinctHasAllKeys(front);
      FirstOfKeySnoc(front, last, x);
      var d := Distinct(front);
      if HasKey(d, SampleKey(last)) {
        var k :| 0 <= k < |d| && SampleKey(d[k]) == SampleKey(last);
        assert d[k] in front;
      }
    }
  }

  lemma NoFirst(x: Sample)
    ensures !FirstOfKey([], x)
  {
  }

  lemma {:induction false} InsertStrict(items: seq<Sample>, x: Sample)
    requires StrictlyByEpoch(items) && forall k :: 0 <= k < |items| ==> items[k].epoch != x.epoch
    ensures StrictlyByEpoch(Insert(items, x, Earlier))
  {
    if items != [] && x.epoch > items[0].epoch {
      InsertStrict(items[1..], x);
      var rest := Insert(items[1..], x, Earlier);
      forall k | 0 <= k < |rest| ensures items[0].epoch < rest[k].epoch {
        assert rest[k] in multiset(items[1..]) + multiset{x};
      }
    }
  }

  /** The sorted distinct samples: strictly by epoch, and with the keys of all samples. */
  lemma {:induction false} SortedDistinct(samples: seq<Sample>)
    requires EpochsSeparateKeys(samples)
    ensures StrictlyByEpoch(SortBy(Distinct(samples), Earlier))
  {
    hide SampleKey;
    if samples != [] {
      var front, x := samples[..|samples| - 1], samples[|samples| - 1];
      assert samples == front + [x];
      SortedDistinct(front);
      var d := Distinct(front);
      var sorted := SortBy(d, Earlier);
      if !HasKey(d, SampleKey(x)) {
        SortAppend(d, x);
        FreshKeyFreshEpoch(samples, d, x);
        InsertStrict(sorted, x);
      }
    }
  }

  /** A key that is new among separated samples has a new epoch. */
  lemma {:induction false} FreshKeyFreshEpoch(samples: seq<Sample>, d: seq<Sample>, x: Sample)
    requires EpochsSeparateKeys(samples) && x in samples && !HasKey(d, SampleKey(x))
    requires d == Distinct(samples[..|samples| - 1])
    ensures forall k :: 0 <= k < |SortBy(d, Earlier)| ==> SortBy(d, Earlier)[k].epoch != x.epoch
  {
    hide SampleKey, Distinct, SortBy;
    var sorted, front := SortBy(d, Earlier), samples[..|samples| - 1];
    DistinctHasAllKeys(front);
    SameElements(sorted, d);
    forall k | 0 <= k < |sorted| ensures sorted[k].epoch != x.epoch {
      assert sorted[k] in d && sorted[k] in front;
      var n :| 0 <= n < |d| && d[n] == sorted[k];
    }
  }

  lemma {:induction false} HasKeySorted(items: seq<Sample>, key: string)
    ensures HasKey(SortBy(items, Earlier), key) <==> HasKey(items, key)
  {
    hide SampleKey;
    var sorted := SortBy(items, Earlier);
    SameElements(sorted, items);
    if HasKey(items, key) {
      var k :| 0 <= k < |items| && SampleKey(items[k]) == key;
      assert items[k] in sorted;
    }
    if HasKey(sorted, key) {
      var k :| 0 <= k < |sorted| && SampleKey(sorted[k]) == key;
      assert sorted[k] in items;
    }
  }

  /** What stands before a long enough tail does not matter to the cut. */
  lemma TakeLastOfTail(front: seq<Sample>, tail: seq<Sample>, limit: int)
    requires 1 <= limit <= |tail|
    ensures TakeLast(front + tail, limit) == TakeLast(tail, limit)
  {
  }

  lemma CutInTwo(all: seq<Sample>, limit: int) returns (cut: seq<Sample>, kept: seq<Sample>)
    requires limit >= 1
    ensures all == cut + kept && kept == TakeLast(all, limit)
    ensures cut == [] || |kept| == limit
  {
    kept := TakeLast(all, limit);
    cut := all[..|all| - |kept|];
  }

  lemma CutIsEarlier(cut: seq<Sample>, kept: seq<Sample>, x: Sample)
    requires StrictlyByEpoch(cut + kept) && kept != [] && x.epoch >= kept[0].epoch
    ensures forall k :: 0 <= k < |cut| ==> !Earlier(x, cut[k])
  {
    var all := cut + kept;
    assert all[|cut|] == kept[0];
    assert forall k :: 0 <= k < |cut| ==> all[k] == cut[k] && all[k].epoch < all[|cut|].epoch;
  }

  /** Inserting into the bounded list and cutting gives the same as inserting into the whole list and cutting. */
  lemma {:induction false} CutCommutesWithInsert(all: seq<Sample>, x: Sample, limit: int)
    requires limit >= 1 && StrictlyByEpoch(all)
    ensures TakeLast(Insert(TakeLast(all, limit), x, Earlier), limit) == TakeLast(Insert(all, x, Earlier), limit)
  {
    hide SampleKey, Insert, TakeLast, StrictlyByEpoch;
    var cut, kept := CutInTwo(all, limit);
    if cut == [] {
      assert kept == all;
    } else if x.epoch < kept[0].epoch {
      InsertBefore(cut, kept, x, Earlier);
      InsertBefore([], kept, x, Earlier);
      assert [] + kept == kept;
      TakeLastOfTail(Insert(cut, x, Earlier), kept, limit);
      TakeLastOfTail(Insert([], x, Earlier), kept, limit);
    } else {
      CutIsEarlier(cut, kept, x);
      InsertBehind(cut, kept, x, Earlier);
      InsertLength(kept, x);
      TakeLastOfTail(cut, Insert(kept, x, Earlier), limit);
    }
  }

  lemma InsertLength(items: seq<Sample>, x: Sample)
    ensures |Insert(items, x, Earlier)| == |items| + 1
  {
    assert |multiset(Insert(items, x, Earlier))| == |items| + 1;
  }

  /** A key that has already been cut off is cut off again. */
  lemma {:induction false} OldKeyIsCutAgain(all: seq<Sample>, x: Sample, limit: int)
    requires limit >= 1 && StrictlyByEpoch(all)
    requires HasKey(all, SampleKey(x)) && !HasKey(TakeLast(all, limit), SampleKey(x))
    ensures TakeLast(Insert(TakeLast(all, limit), x, Earlier), limit) == TakeLast(all, limit)
  {
    hide SampleKey;
    var kept := TakeLast(all, limit);
    var drop := |all| - |kept|;
    var k :| 0 <= k < |all| && SampleKey(all[k]) == SampleKey(x);
    KeyFixesEpoch(all[k], x);
    forall n | drop <= n < |all| ensures SampleKey(all[n]) != SampleKey(x) {
      assert kept[n - drop] == all[n];
    }
    assert x.epoch < kept[0].epoch;
    assert Insert(kept, x, Earlier) == [x] + kept;
  }

  /**
   Online equals offline: the history kept one sample at a time is the newest `limit` of all distinct samples ever
   seen, in epoch order, repeats included.
   */
  lemma {:induction false} OnlineEqualsOffline(samples: seq<Sample>, limit: int)
    requires limit >= 1 && EpochsSeparateKeys(samples)
    ensures Replay(samples, limit) == Offline(samples, limit)
  {
    hide SampleKey;
    if samples != [] {
      var front, x := samples[..|samples| - 1], samples[|samples| - 1];
      assert samples == front + [x];
      OnlineEqualsOffline(front, limit);
      SortedDistinct(front);
      AppendToOffline(Distinct(front), x, limit);
    }
  }

  /** The epochs seen that are later than `epoch`. */
  function LaterEpochs(samples: seq<Sample>, epoch: int): set<int> {
    set y | y in samples && y.epoch > epoch :: y.epoch
  }

  lemma LaterSnoc(items: seq<Sample>, x: Sample, epoch: int)
    ensures LaterEpochs(items + [x], epoch) == LaterEpochs(items, epoch) + if x.epoch > epoch then {x.epoch} else {}
  {
    assert x in items + [x];
    assert forall y :: y in items + [x] <==> y in items || y == x;
  }

  lemma LaterThanNone(items: seq<Sample>, epoch: int)
    ensures (forall y :: y in items ==> y.epoch <= epoch) ==> LaterEpochs(items, epoch) == {}
    ensures forall e :: e in LaterEpochs(items, epoch) ==> exists y :: y in items && y.epoch == e
  {
  }

  lemma {:induction false} LaterInOrder(items: seq<Sample>, k: nat)
    requires StrictlyByEpoch(items) && k < |items|
    ensures |LaterEpochs(items, items[k].epoch)| == |items| - 1 - k
  {
    hide LaterEpochs;
    var n := |items| - 1;
    if k == n {
      LaterThanNone(items, items[k].epoch);
    } else {
      var front := items[..n];
      LaterInOrder(front, k);
      assert items == front + [items[n]];
      LaterSnoc(front, items[n], items[k].epoch);
      LaterThanNone(front, items[k].epoch);
    }
  }

  lemma {:induction false} SameLaterEpochs(samples: seq<Sample>, epoch: int)
    ensures LaterEpochs(SortBy(Distinct(samples), Earlier), epoch) == LaterEpochs(samples, epoch)
  {
    hide SampleKey, Distinct, SortBy;
    var d := Distinct(samples);
    SameElements(SortBy(d, Earlier), d);
    DistinctHasAllKeys(samples);
    forall y | y in samples ensures exists z :: z in d && z.epoch == y.epoch {
      var k :| 0 <= k < |d| && SampleKey(d[k]) == SampleKey(y);
      KeyFixesEpoch(d[k], y);
      assert d[k] in d;
    }
  }

  /**
   What the history holds, whatever the order of arrival: a sample is in it exactly when it was the first to arrive with
   its key and fewer than `limit` different epochs seen are later than its own.
   */
  lemma {:induction false} KeptExactly(samples: seq<Sample>, limit: int, x: Sample)
    requires limit >= 1 && EpochsSeparateKeys(samples)
    ensures x in Replay(samples, limit) <==> FirstOfKey(samples, x) && |LaterEpochs(samples, x.epoch)| < limit
  {
    hide SampleKey, Distinct, SortBy, Replay, LaterEpochs, FirstOfKey;
    var all := SortBy(Distinct(samples), Earlier);
    OnlineEqualsOffline(samples, limit);
    SortedDistinct(samples);
    SameElements(all, Distinct(samples));
    DistinctExactly(samples, x);
    SameLaterEpochs(samples, x.epoch);
    var kept := TakeLast(all, limit);
    var drop := |all| - |kept|;
    if x in all {
      var k :| 0 <= k < |all| && all[k] == x;
      LaterInOrder(all, k);
      assert k >= drop ==> kept[k - drop] == x;
    }
  }

  lemma {:induction false} AppendToOffline(d: seq<Sample>, x: Sample, limit: int)
    requires limit >= 1 && StrictlyByEpoch(SortBy(d, Earlier))
    ensures AppendBounded(TakeLast(SortBy(d, Earlier), limit), x, limit) ==
            TakeLast(SortBy(if HasKey(d, SampleKey(x)) then d else d + [x], Earlier), limit)
  {
    hide SampleKey;
    var all := SortBy(d, Earlier);
    var kept := TakeLast(all, limit);
    HasKeySorted(d, SampleKey(x));
    SortOfSorted(kept, Earlier);
    SortAppend(kept, x);
    SortAppend(d, x);
    if HasKey(kept, SampleKey(x)) {
      KeptHasKey(all, SampleKey(x), limit);
    } else if HasKey(all, SampleKey(x)) {
      OldKeyIsCutAgain(all, x, limit);
    } else {
      CutCommutesWithInsert(all, x, limit);
    }
  }

  lemma SortAppend(items: seq<Sample>, x: Sample)
    ensures SortBy(items + [x], Earlier) == Insert(SortBy(items, Earlier), x, Earlier)
  {
    assert (items + [x])[..|items|] == items;
  }

  lemma KeptHasKey(all: seq<Sample>, key: string, limit: int)
    requires limit >= 1 && HasKey(TakeLast(all, limit), key)
    ensures HasKey(all, key) && TakeLast(TakeLast(all, limit), limit) == TakeLast(all, limit)
  {
    var kept := TakeLast(all, limit);
    var k :| 0 <= k < |kept| && SampleKey(kept[k]) == key;
    assert all[|all| - |kept| + k] == kept[k];
  }

  lemma {:induction false} EqualEpochReplaces(a: Sample, b: Sample)
    requires a.epoch == b.epoch && SampleKey(a) != SampleKey(b)
    ensures AppendBounded([a], b, 1) == [b]
  {
    hide SampleKey;
    SortOfSorted([a, b], Earlier);
    assert [a] + [b] == [a, b];
  }

  lemma {:induction false} ReplayAppend(samples: seq<Sample>, x: Sample, limit: int)
    ensures Replay(samples + [x], limit) == AppendBounded(Replay(samples, limit), x, limit)
    ensures Replay([], limit) == []
  {
    hide AppendBounded;
    assert (samples + [x])[..|samples|] == samples;
  }

  lemma {:induction false} FirstSampleKept(x: Sample)
    ensures AppendBounded([], x, 1) == [x]
  {
    hide SampleKey;
    SortOfSorted([x], Earlier);
    assert [] + [x] == [x];
  }

  /** Without the separation of epochs the order of arrival decides which key survives. */
  lemma {:induction false} SharedEpochDependsOnArrival(a: Sample, b: Sample)
    requires a.epoch == b.epoch && SampleKey(a) != SampleKey(b)
    ensures Replay([a, b], 1) == [b] && Replay([a, b, a], 1) == [a]
  {
    hide SampleKey, AppendBounded, Replay;
    ReplayAppend([], a, 1);
    ReplayAppend([a], b, 1);
    ReplayAppend([a, b], a, 1);
    assert [] + [a] == [a] && [a] + [b] == [a, b] && [a, b] + [a] == [a, b, a];
    FirstSampleKept(a);
    EqualEpochReplaces(a, b);
    EqualEpochReplaces(b, a);
  }

  /** Over all sequences of samples drawn from a set, online equals offline exactly when no two keys share an epoch. */
  lemma {:induction false} OnlineEqualsOfflineExactly(pool: seq<Sample>)
    ensures (forall samples, limit :: DrawnFrom(samples, pool) && limit >= 1 ==>
               Replay(samples, limit) == Offline(samples, limit)) <==> EpochsSeparateKeys(pool)
  {
    hide Replay, Offline, SampleKey;
    if EpochsSeparateKeys(pool) {
      forall samples, limit | DrawnFrom(samples, pool) && limit >= 1
        ensures Replay(samples, limit) == Offline(samples, limit)
      {
        OnlineEqualsOffline(samples, limit);
      }
    } else {
      var a, b :| a in pool && b in pool && a.epoch == b.epoch && SampleKey(a) != SampleKey(b);
      SharedEpochDependsOnArrival(a, b);
      OfflineKeepsLaterKey(a, b);
      assert DrawnFrom([a, b, a], pool);
      assert [a][0] != [b][0];
    }
  }

  ghost predicate DrawnFrom(samples: seq<Sample>, pool: seq<Sample>) {
    forall x :: x in samples ==> x in pool
  }

  lemma {:induction false} OfflineKeepsLaterKey(a: Sample, b: Sample)
    requires a.epoch == b.epoch && SampleKey(a) != SampleKey(b)
    ensures Offline([a, b, a], 1) == [b]
  {
    hide SampleKey, Distinct;
    DistinctOfThree(a, b);
    SortOfSorted([a, b], Earlier);
  }

  lemma {:induction false} DistinctOfThree(a: Sample, b: Sample)
    requires SampleKey(a) != SampleKey(b)
    ensures Distinct([a, b, a]) == [a, b]
  {
    hide SampleKey;
    assert [a, b, a][..2] == [a, b] && [a, b][..1] == [a] && [a][..0] == [];
    assert Distinct([a]) == [a];
    assert !HasKey([a], SampleKey(b)) && [a] + [b] == [a, b];
    assert SampleKey([a, b][0]) == SampleKey(a);
  }

  // ---------------------------------------------------------------- the limit

  /** How many entries there are before the cut: a new key adds one. */
  function LengthBeforeCut(existing: seq<Sample>, x: Sample): nat {
    if HasKey(existing, SampleKey(x)) then |existing| else |existing| + 1
  }

  /** The length for every limit: a positive one bounds it, zero cuts nothing, a negative one drops that many oldest. */
  lemma {:induction false} AppendedLength(existing: seq<Sample>, x: Sample, limit: int)
    ensures var n := LengthBeforeCut(existing, x);
            |AppendBounded(existing, x, limit)| ==
            if limit >= 1 then (if limit < n then limit else n)
            else if limit == 0 then n
            else if -limit < n then n + limit else 0
  {
    hide SampleKey;
    SortedLength(if HasKey(existing, SampleKey(x)) then existing else existing + [x], Earlier);
  }

  /** The limit bounds the history exactly when it is positive. */
  lemma {:induction false} LimitBoundsExactly(limit: int)
    ensures (forall existing, x :: |AppendBounded(existing, x, limit)| <= limit) <==> limit >= 1
  {
    hide AppendBounded, SampleKey;
    if limit >= 1 {
      forall existing, x ensures |AppendBounded(existing, x, limit)| <= limit {
        AppendedLength(existing, x, limit);
      }
    } else {
      var x := Sample(0, "", "", "", "", 0);
      AppendedLength([], x, limit);
      assert |AppendBounded([], x, limit)| > limit;
    }
  }

  /** With limit zero every new key makes the history longer. */
  lemma ZeroLimitKeepsEverything(existing: seq<Sample>, x: Sample)
    requires !HasKey(existing, SampleKey(x))
    ensures |AppendBounded(existing, x, 0)| == |existing| + 1
  {
    AppendedLength(existing, x, 0);
  }

  /** With a negative limit nothing is ever kept. */
  lemma {:induction false} NegativeLimitKeepsNothing(samples: seq<Sample>, limit: int)
    requires limit < 0
    ensures Replay(samples, limit) == []
  {
    hide AppendBounded;
    if samples != [] {
      NegativeLimitKeepsNothing(samples[..|samples| - 1], limit);
      AppendedLength([], samples[|samples| - 1], limit);
    }
  }

  // ---------------------------------------------------------------- mean time between failures

  function FailureEpochs(samples: seq<Sample>): seq<int> {
    if samples == [] then []
    else
      var x := samples[|samples| - 1];
      FailureEpochs(samples[..|samples| - 1]) + if x.failureCount > 0 then [x.epoch] else []
  }

  function Gaps(epochs: seq<int>): (r: seq<int>)
    requires |epochs| >= 1
    ensures |r| == |epochs| - 1
  {
    seq(|epochs| - 1, k requires 0 <= k < |epochs| - 1 => epochs[k + 1] - epochs[k])
  }

  function Sum(xs: seq<int>): int {
    if xs == [] then 0 else Sum(xs[..|xs| - 1]) + xs[|xs| - 1]
  }

  /** Mean gap between failures in hours, before rounding. */
  function MeanTimeBetweenFailures(samples: seq<Sample>): Option<real> {
    var epochs := FailureEpochs(samples);
    if |epochs| < 2 then None
    else Some(Sum(Gaps(epochs)) as real / |Gaps(epochs)| as real / 3600.0)
  }

  lemma {:induction false} GapsTelescope(epochs: seq<int>)
    requires |epochs| >= 1
    ensures Sum(Gaps(epochs)) == epochs[|epochs| - 1] - epochs[0]
  {
    if |epochs| > 1 {
      var front := epochs[..|epochs| - 1];
      GapsTelescope(front);
      assert Gaps(epochs)[..|epochs| - 2] == Gaps(front);
    }
  }

  function HasFailed(): Sample -> bool { (x: Sample) => x.failureCount > 0 }

  /** The failure epochs are those of the samples with failures, in order. */
  lemma {:induction false} FailureEpochsExactly(samples: seq<Sample>)
    ensures var failing, epochs := Filter(samples, HasFailed()), FailureEpochs(samples);
            |epochs| == |failing| && forall k :: 0 <= k < |epochs| ==> epochs[k] == failing[k].epoch
  {
    if samples != [] {
      hide Filter;
      var front, last := samples[..|samples| - 1], samples[|samples| - 1];
      assert samples == front + [last];
      FailureEpochsExactly(front);
      FilterSnoc(front, last, HasFailed());
    }
  }

  /** Two failures at least are needed, and only the first and the last of them and their number matter. */
  lemma {:induction false} MtbfIsSpanOverCount(samples: seq<Sample>)
    ensures var f := Filter(samples, HasFailed());
            MeanTimeBetweenFailures(samples) ==
            if |f| < 2 then None
            else Some((f[|f| - 1].epoch - f[0].epoch) as real / (|f| - 1) as real / 3600.0)
  {
    hide Filter, FailureEpochs, Sum, Gaps;
    FailureEpochsExactly(samples);
    if |FailureEpochs(samples)| >= 2 {
      GapsTelescope(FailureEpochs(samples));
    }
  }
}
