/** The evidence ledger: one entry per run and environment, replaced in place, cut to its newest entries. */
module EvidenceLedger {
  import opened Text
  import opened Lists

  const MAX_LEDGER_ENTRIES := 90

  datatype Record = Record(runId: string, environment: string, evidence: string)

  function Key(r: Record): string { r.runId + ":" + r.environment }

  /** For the environments the record builder lets through, the key names the run and the environment. */
  lemma KeyInjective(a: Record, b: Record)
    requires a.environment in {"dev", "stg", "prod"} && b.environment in {"dev", "stg", "prod"}
    requires Key(a) == Key(b)
    ensures a.runId == b.runId && a.environment == b.environment
  {
    SplitAtLast(a.runId, a.environment, b.runId, b.environment, ':');
  }

  function IndexOfKey(ledger: seq<Record>, key: string): (i: nat)
    ensures i <= |ledger| && (i < |ledger| ==> Key(ledger[i]) == key)
    ensures forall j :: 0 <= j < i ==> Key(ledger[j]) != key
  {
    First(ledger, (r: Record) => Key(r) == key)
  }

  /** Replace the entry with the record's key, or put the record at the end. */
  function Upsert(ledger: seq<Record>, r: Record): seq<Record> {
    var i := IndexOfKey(ledger, Key(r));
    if i < |ledger| then ledger[i := r] else ledger + [r]
  }

  function Collapse(items: seq<Record>): seq<Record> {
    if items == [] then [] else Upsert(Collapse(items[..|items| - 1]), items[|items| - 1])
  }

  ghost predicate UniqueKeys(ledger: seq<Record>) {
    forall j, k :: 0 <= j < k < |ledger| ==> Key(ledger[j]) != Key(ledger[k])
  }

  /** `indexed` and `order` together spell the ledger. */
  ghost predicate Spells(ledger: seq<Record>, indexed: map<string, Record>, order: seq<string>) {
    && |order| == |ledger| && UniqueKeys(ledger)
    && (forall k :: 0 <= k < |ledger| ==> order[k] == Key(ledger[k]) && order[k] in indexed
                                          && indexed[order[k]] == ledger[k])
    && (forall key :: key in indexed ==> key in order)
  }

  method AppendLedger(previous: seq<Record>, record: Record) returns (ledger: seq<Record>)
    ensures ledger == TakeLast(Collapse(previous + [record]), MAX_LEDGER_ENTRIES)
  {
    hide Key, Upsert, Spells;
    var indexed: map<string, Record>, order: seq<string> := map[], [];
    var items := previous + [record];
    NothingSpelled();
    assert items[..0] == [];
    for n := 0 to |items|
      invariant Spells(Collapse(items[..n]), indexed, order)
      invariant n > 0 ==> Key(items[n - 1]) in indexed
    {
      var itemKey := Key(items[n]);
      assert items[..n + 1][..n] == items[..n];
      SpellsUpsert(Collapse(items[..n]), indexed, order, items[n]);
      if itemKey !in indexed {
        order := order + [itemKey];
      }
      indexed := indexed[itemKey := items[n]];
    }
    assert items[..|items|] == items;
    // The record's own key is always indexed by now, so appending it once more never happens.
    assert Key(record) in indexed;
    SpelledOut(Collapse(items), indexed, order);
    ledger := TakeLast(seq(|order|, k requires 0 <= k < |order| => indexed[order[k]]), MAX_LEDGER_ENTRIES);
  }

  lemma SpelledOut(ledger: seq<Record>, indexed: map<string, Record>, order: seq<string>)
    requires Spells(ledger, indexed, order)
    ensures forall k :: 0 <= k < |order| ==> order[k] in indexed
    ensures seq(|order|, k requires 0 <= k < |order| => indexed[order[k]]) == ledger
  {
  }

  lemma NothingSpelled()
    ensures Spells(Collapse([]), map[], [])
  {
  }

  /** Replacing in place keeps every key where it is. */
  lemma UpsertShape(ledger: seq<Record>, r: Record)
    ensures var i, after := IndexOfKey(ledger, Key(r)), Upsert(ledger, r);
            && i < |after| && after[i] == r && |after| == (if i < |ledger| then |ledger| else |ledger| + 1)
            && forall k :: 0 <= k < |ledger| && k != i ==> after[k] == ledger[k]
  {
  }

  lemma {:induction false} UpsertUnique(ledger: seq<Record>, r: Record)
    requires UniqueKeys(ledger)
    ensures UniqueKeys(Upsert(ledger, r))
  {
    hide Key, Upsert;
    UpsertShape(ledger, r);
    var i, after := IndexOfKey(ledger, Key(r)), Upsert(ledger, r);
    assert forall k :: 0 <= k < |ledger| ==> Key(after[k]) == Key(ledger[k]);
  }

  lemma {:induction false} SpellsReplace(ledger: seq<Record>, indexed: map<string, Record>, order: seq<string>,
          r: Record, i: nat)
    requires Spells(ledger, indexed, order) && i < |ledger| && Key(ledger[i]) == Key(r)
    ensures Spells(ledger[i := r], indexed[Key(r) := r], order)
  {
    hide Key;
    var after := ledger[i := r];
    assert forall k :: 0 <= k < |ledger| ==> Key(after[k]) == Key(ledger[k]);
  }

  lemma {:induction false} SpellsAppend(ledger: seq<Record>, indexed: map<string, Record>, order: seq<string>,
          r: Record)
    requires Spells(ledger, indexed, order) && Key(r) !in indexed
    ensures Spells(ledger + [r], indexed[Key(r) := r], order + [Key(r)])
  {
    hide Key;
  }

  lemma {:induction false} SpellsUpsert(ledger: seq<Record>, indexed: map<string, Record>, order: seq<string>,
          r: Record)
    requires Spells(ledger, indexed, order)
    ensures Spells(Upsert(ledger, r), indexed[Key(r) := r],
                   if Key(r) in indexed then order else order + [Key(r)])
  {
    hide Key;
    var i := IndexOfKey(ledger, Key(r));
    if Key(r) in indexed {
      var k :| 0 <= k < |order| && order[k] == Key(r);
      SpellsReplace(ledger, indexed, order, r, i);
    } else {
      assert forall k :: 0 <= k < |ledger| ==> order[k] in indexed;
      SpellsAppend(ledger, indexed, order, r);
    }
  }

  // ---------------------------------------------------------------- runs from the empty ledger

  /** A ledger with unique keys is read back as it stands. */
  lemma {:induction false} CollapseOfUnique(ledger: seq<Record>)
    requires UniqueKeys(ledger)
    ensures Collapse(ledger) == ledger
  {
    hide Key;
    if ledger != [] {
      var front := ledger[..|ledger| - 1];
      CollapseOfUnique(front);
      assert IndexOfKey(front, Key(ledger[|ledger| - 1])) == |front|;
    }
  }

  lemma {:induction false} CollapseUnique(items: seq<Record>)
    ensures UniqueKeys(Collapse(items))
  {
    if items != [] {
      CollapseUnique(items[..|items| - 1]);
      UpsertUnique(Collapse(items[..|items| - 1]), items[|items| - 1]);
    }
  }

  /** `r` is the last of the items with its key. */
  ghost predicate LastOfKey(items: seq<Record>, r: Record) {
    exists k :: 0 <= k < |items| && items[k] == r && forall j :: k < j < |items| ==> Key(items[j]) != Key(r)
  }

  lemma {:induction false} LastOfKeySnoc(items: seq<Record>, last: Record, r: Record)
    ensures LastOfKey(items + [last], r) <==> r == last || (Key(r) != Key(last) && LastOfKey(items, r))
  {
    hide Key;
    var all := items + [last];
    assert all[|items|] == last;
    if r != last && Key(r) != Key(last) && LastOfKey(items, r) {
      var k :| 0 <= k < |items| && items[k] == r && forall j :: k < j < |items| ==> Key(items[j]) != Key(r);
      assert all[k] == r && forall j :: k < j < |items| ==> all[j] == items[j];
    }
    if LastOfKey(all, r) && r != last {
      var k :| 0 <= k < |all| && all[k] == r && forall j :: k < j < |all| ==> Key(all[j]) != Key(r);
      assert k < |items| && items[k] == r;
      assert forall j :: k < j < |items| ==> all[j] == items[j];
    }
  }

  /** The entries follow the first appearances of their keys. */
  ghost predicate ByFirstAppearance(ledger: seq<Record>, items: seq<Record>) {
    && (forall k :: 0 <= k < |ledger| ==> IndexOfKey(items, Key(ledger[k])) < |items|)
    && forall j, k :: 0 <= j < k < |ledger| ==>
                        IndexOfKey(items, Key(ledger[j])) < IndexOfKey(items, Key(ledger[k]))
  }

  lemma {:induction false} AppearanceSnoc(items: seq<Record>, last: Record, key: string)
    ensures IndexOfKey(items + [last], key) ==
            if IndexOfKey(items, key) < |items| then IndexOfKey(items, key)
            else if Key(last) == key then |items| else |items| + 1
  {
    hide Key;
    var all, i, n := items + [last], IndexOfKey(items + [last], key), IndexOfKey(items, key);
    assert forall k :: 0 <= k < |items| ==> all[k] == items[k];
    assert all[|items|] == last;
    assert n < |items| ==> Key(all[n]) == key;
    assert i < |items| ==> Key(items[i]) == key;
  }

  /** Every list collapses to the last item of each key, in the order in which the keys first appeared. */
  lemma {:induction false} CollapseExactly(items: seq<Record>)
    ensures UniqueKeys(Collapse(items)) && ByFirstAppearance(Collapse(items), items)
    ensures forall r :: r in Collapse(items) <==> LastOfKey(items, r)
  {
    hide *;
    CollapseUnique(items);
    CollapseInOrder(items);
    forall r { CollapseKeepsLast(items, r); }
  }

  lemma {:induction false} CollapseKeepsLast(items: seq<Record>, r: Record)
    ensures r in Collapse(items) <==> LastOfKey(items, r)
  {
    hide Key, Upsert, LastOfKey, UniqueKeys;
    if items == [] {
      NoLast(r);
    } else {
      var front, last := items[..|items| - 1], items[|items| - 1];
      assert items == front + [last];
      CollapseKeepsLast(front, r);
      CollapseAppend(front, last);
      CollapseUnique(front);
      LastOfKeySnoc(front, last, r);
      UpsertMembers(Collapse(front), last, r);
    }
  }

  lemma {:induction false} CollapseInOrder(items: seq<Record>)
    ensures ByFirstAppearance(Collapse(items), items)
  {
    hide Key, Upsert;
    if items != [] {
      var front, last := items[..|items| - 1], items[|items| - 1];
      assert items == front + [last];
      CollapseInOrder(front);
      var before, after := Collapse(front), Collapse(items);
      CollapseAppend(front, last);
      UpsertShape(before, last);
      forall k | 0 <= k < |after| ensures Key(after[k]) == if k < |before| then Key(before[k]) else Key(last) {}
      forall k | 0 <= k < |after| { AppearanceSnoc(front, last, Key(after[k])); }
      if IndexOfKey(before, Key(last)) == |before| {
        NewKeyAppearsLast(front, last);
      }
    }
  }

  lemma NoLast(r: Record)
    ensures !LastOfKey([], r)
  {
  }

  lemma {:induction false} UpsertMembers(ledger: seq<Record>, last: Record, r: Record)
    requires UniqueKeys(ledger)
    ensures r in Upsert(ledger, last) <==> r == last || (Key(r) != Key(last) && r in ledger)
  {
    hide Key, Upsert;
    UpsertShape(ledger, last);
    var after, i := Upsert(ledger, last), IndexOfKey(ledger, Key(last));
    if r in ledger && Key(r) != Key(last) {
      var k :| 0 <= k < |ledger| && ledger[k] == r;
      assert after[k] == r;
    }
    if r in after && r != last {
      var k :| 0 <= k < |after| && after[k] == r;
      assert k != i && ledger[k] == r;
      assert i < |ledger| ==> Key(ledger[i]) == Key(last);
    }
  }

  /** A key without an entry has not appeared before. */
  lemma {:induction false} NewKeyAppearsLast(front: seq<Record>, last: Record)
    requires IndexOfKey(Collapse(front), Key(last)) == |Collapse(front)|
    ensures IndexOfKey(front, Key(last)) == |front|
  {
    hide Key, Upsert;
    if front != [] {
      var items, x := front[..|front| - 1], front[|front| - 1];
      assert front == items + [x];
      UpsertShape(Collapse(items), x);
      var before, after := Collapse(items), Collapse(front);
      forall k | 0 <= k < |before| ensures Key(before[k]) != Key(last) {
        assert Key(after[k]) == Key(before[k]);
      }
      NewKeyAppearsLast(items, last);
      AppearanceSnoc(items, x, Key(last));
    }
  }

  ghost predicate Bounded(ledger: seq<Record>) {
    UniqueKeys(ledger) && |ledger| <= MAX_LEDGER_ENTRIES
  }

  /**
   From a bounded ledger, one append keeps keys unique and the bound, replaces a repeated key in place without moving
   any other entry, and otherwise puts the record last; either way the record just appended is retained.
   */
  lemma {:induction false} AppendStep(previous: seq<Record>, record: Record)
    requires Bounded(previous)
    ensures var ledger := TakeLast(Collapse(previous + [record]), 90);
            && Bounded(ledger) && record in ledger
            && var i := IndexOfKey(previous, Key(record));
               if i < |previous| then ledger == previous[i := record]
               else ledger == TakeLast(previous + [record], 90)
  {
    hide Key, Upsert;
    CollapseAppend(previous, record);
    CollapseOfUnique(previous);
    UpsertUnique(previous, record);
    UpsertShape(previous, record);
    var whole, i := Upsert(previous, record), IndexOfKey(previous, Key(record));
    if i < |previous| {
      assert whole == previous[i := record];
      assert TakeLast(whole, MAX_LEDGER_ENTRIES) == whole;
    } else {
      assert whole == previous + [record];
      CutKeepsLast(whole);
    }
  }

  lemma {:induction false} CollapseAppend(items: seq<Record>, r: Record)
    ensures Collapse(items + [r]) == Upsert(Collapse(items), r)
  {
    hide Upsert;
    assert (items + [r])[..|items|] == items;
  }

  lemma {:induction false} CutKeepsLast(whole: seq<Record>)
    requires UniqueKeys(whole) && whole != []
    ensures var kept := TakeLast(whole, MAX_LEDGER_ENTRIES); Bounded(kept) && whole[|whole| - 1] in kept
  {
    hide Key;
    var kept := TakeLast(whole, MAX_LEDGER_ENTRIES);
    assert kept[|kept| - 1] == whole[|whole| - 1];
    assert forall k :: 0 <= k < |kept| ==> kept[k] == whole[|whole| - |kept| + k];
  }

  function LedgerAfter(records: seq<Record>): seq<Record> {
    if records == [] then []
    else TakeLast(Collapse(LedgerAfter(records[..|records| - 1]) + [records[|records| - 1]]), MAX_LEDGER_ENTRIES)
  }

  /** Every run of appends from the empty ledger keeps it bounded and retains the record appended last. */
  lemma {:induction false} RunStaysBounded(records: seq<Record>)
    ensures Bounded(LedgerAfter(records))
    ensures records != [] ==> records[|records| - 1] in LedgerAfter(records)
  {
    if records != [] {
      RunStaysBounded(records[..|records| - 1]);
      AppendStep(LedgerAfter(records[..|records| - 1]), records[|records| - 1]);
    }
  }

  /**
   For a previous ledger that is not bounded, the new record can be cut off: it survives exactly when fewer than
   ninety distinct keys stand behind its own key.
   */
  lemma {:induction false} RetainedExactly(previous: seq<Record>, record: Record)
    ensures var whole := Collapse(previous + [record]);
            IndexOfKey(whole, Key(record)) < |whole| &&
            (record in TakeLast(whole, MAX_LEDGER_ENTRIES) <==>
             |whole| - 1 - IndexOfKey(whole, Key(record)) < 90)
  {
    hide Key, Upsert;
    CollapseAppend(previous, record);
    CollapseUnique(previous + [record]);
    UpsertShape(Collapse(previous), record);
    var whole := Collapse(previous + [record]);
    var n := IndexOfKey(Collapse(previous), Key(record));
    assert IndexOfKey(whole, Key(record)) == n;
    SurvivesCut(whole, n);
  }

  /** Cutting keeps exactly the entries that are near enough to the end. */
  lemma {:induction false} SurvivesCut(whole: seq<Record>, n: nat)
    requires UniqueKeys(whole) && n < |whole|
    ensures whole[n] in TakeLast(whole, MAX_LEDGER_ENTRIES) <==> |whole| - 1 - n < MAX_LEDGER_ENTRIES
  {
    hide Key;
    var kept := TakeLast(whole, MAX_LEDGER_ENTRIES);
    var drop := |whole| - |kept|;
    assert forall k :: 0 <= k < |kept| ==> kept[k] == whole[drop + k];
    assert forall k :: drop <= k < |whole| ==> whole[k] == kept[k - drop];
  }
}
