/** Guarded transitions of remediation items, and the audit records they leave. */
module Remediation {
  import opened Prelude
  import opened Lists

  type Evidence = map<string, string>

  /** Signature of an evidence under a secret. */
  type Signer = (Evidence, string) -> string

  datatype Item = Item(id: string, state: string, sourceRunId: string, updatedAt: Option<int>,
                       updatedBy: Option<string>, evidence: Option<Evidence>, signature: Option<string>,
                       qualifiedRunId: Option<string>, resolvedAt: Option<int>)

  /** `evidence` is None when the request carries no dictionary; an absent signature is the empty text. */
  datatype Request = Request(remediationId: string, target: string, actor: string, evidence: Option<Evidence>,
                             signature: string)

  datatype Qualified = Qualified(ready: bool, sourceRunId: Option<string>)

  datatype Audit = Audit(remediationId: string, fromState: string, toState: string, actor: string, at: int,
                         signedResolution: bool, qualifiedRunId: Option<string>)

  /** One invocation: the request, the secret, the qualified evidence if a file was given, and the clock. */
  datatype Attempt = Attempt(request: Request, secret: string, qualified: Option<Qualified>, now: int)

  datatype Error = FieldMissing | NotFound | InvalidTransition | EvidenceRequired | NotQualified | SameRun
                 | SecretRequired | BadSignature

  const OPEN := "open"
  const IN_PROGRESS := "in_progress"
  const RESOLVED := "resolved"

  function Allowed(current: string): set<string> {
    if current == OPEN then {IN_PROGRESS}
    else if current == IN_PROGRESS then {RESOLVED, OPEN}
    else if current == RESOLVED then {IN_PROGRESS}
    else {}
  }

  /** The four edges; a state outside them leads nowhere. */
  lemma EdgesExactly(current: string, target: string)
    ensures target in Allowed(current) <==>
            (current, target) in {("open", "in_progress"), ("in_progress", "resolved"), ("in_progress", "open"),
                                  ("resolved", "in_progress")}
  {
    assert OPEN[0] != IN_PROGRESS[0] && OPEN[0] != RESOLVED[0] && IN_PROGRESS[0] != RESOLVED[0];
  }

  function Find(history: seq<Item>, id: string): (i: nat)
    ensures i <= |history| && (i < |history| ==> history[i].id == id)
    ensures forall j :: 0 <= j < i ==> history[j].id != id
  {
    First(history, (item: Item) => item.id == id)
  }

  /** The first check that refuses closing `item`, in the order they are made. */
  function ClosingRefusal(sign: Signer, item: Item, a: Attempt): Option<Error> {
    if a.request.evidence.None? then Some(EvidenceRequired)
    else if a.qualified.None? || !a.qualified.value.ready then Some(NotQualified)
    else if a.qualified.value.sourceRunId.GetOr("") == item.sourceRunId then Some(SameRun)
    else if a.secret == "" then Some(SecretRequired)
    else if a.request.signature != sign(a.request.evidence.value, a.secret) then Some(BadSignature)
    else None
  }

  function Refusal(sign: Signer, history: seq<Item>, a: Attempt): Option<Error> {
    var i := Find(history, a.request.remediationId);
    if a.request.remediationId == "" || a.request.actor == "" then Some(FieldMissing)
    else if i == |history| then Some(NotFound)
    else if a.request.target !in Allowed(history[i].state) then Some(InvalidTransition)
    else if a.request.target == RESOLVED then ClosingRefusal(sign, history[i], a)
    else None
  }

  function Updated(item: Item, a: Attempt): Item {
    var moved := item.(state := a.request.target, updatedAt := Some(a.now), updatedBy := Some(a.request.actor));
    if a.request.target == RESOLVED then
      moved.(evidence := a.request.evidence, signature := Some(a.request.signature),
             qualifiedRunId := if a.qualified.Some? then a.qualified.value.sourceRunId else None,
             resolvedAt := Some(a.now))
    else if item.state == RESOLVED then moved.(resolvedAt := None)
    else moved
  }

  /** Every entry with the identifier is replaced. */
  function Replace(history: seq<Item>, id: string, updated: Item): (r: seq<Item>)
    ensures |r| == |history|
    ensures forall k :: 0 <= k < |history| ==> r[k] == if history[k].id == id then updated else history[k]
  {
    seq(|history|, k requires 0 <= k < |history| => if history[k].id == id then updated else history[k])
  }

  function AuditOf(item: Item, a: Attempt): Audit {
    Audit(a.request.remediationId, item.state, a.request.target, a.request.actor, a.now,
          a.request.target == RESOLVED, Updated(item, a).qualifiedRunId)
  }

  function Apply(sign: Signer, history: seq<Item>, a: Attempt): Result<(seq<Item>, Audit), Error> {
    var refusal := Refusal(sign, history, a);
    if refusal.Some? then Err(refusal.value)
    else
      var item := history[Find(history, a.request.remediationId)];
      Ok((Replace(history, a.request.remediationId, Updated(item, a)), AuditOf(item, a)))
  }

  method ApplyTransition(sign: Signer, history: seq<Item>, a: Attempt) returns (r: Result<(seq<Item>, Audit), Error>)
    ensures r == Apply(sign, history, a)
  {
    var request := a.request;
    if request.remediationId == "" || request.actor == "" {
      return Err(FieldMissing);
    }
    var i := Find(history, request.remediationId);
    if i == |history| {
      return Err(NotFound);
    }
    var item := history[i];
    var current := item.state;
    if request.target !in Allowed(current) {
      return Err(InvalidTransition);
    }
    if request.target == RESOLVED {
      if request.evidence.None? {
        return Err(EvidenceRequired);
      }
      var qualified := a.qualified.GetOr(Qualified(false, None));
      if !qualified.ready {
        return Err(NotQualified);
      }
      if qualified.sourceRunId.GetOr("") == item.sourceRunId {
        return Err(SameRun);
      }
      if a.secret == "" {
        return Err(SecretRequired);
      }
      if request.signature != sign(request.evidence.value, a.secret) {
        return Err(BadSignature);
      }
    }
    var updated := item;
    updated := updated.(state := request.target);
    updated := updated.(updatedAt := Some(a.now));
    updated := updated.(updatedBy := Some(request.actor));
    if request.target == RESOLVED {
      updated := updated.(evidence := request.evidence);
      updated := updated.(signature := Some(request.signature));
      updated := updated.(qualifiedRunId := a.qualified.value.sourceRunId);
      updated := updated.(resolvedAt := Some(a.now));
    } else if current == RESOLVED {
      updated := updated.(resolvedAt := None);
    }
    var audit := Audit(request.remediationId, current, request.target, request.actor, a.now,
                       request.target == RESOLVED, updated.qualifiedRunId);
    return Ok((Replace(history, request.remediationId, updated), audit));
  }

  // ---------------------------------------------------------------- what is accepted

  ghost predicate UniqueIds(history: seq<Item>) {
    forall j, k :: 0 <= j < k < |history| ==> history[j].id != history[k].id
  }

  /** The closing of `item` is justified by `a`: signed evidence, and readiness seen in another run. */
  ghost predicate Justifies(sign: Signer, item: Item, a: Attempt) {
    && a.request.evidence.Some? && a.secret != ""
    && a.request.signature == sign(a.request.evidence.value, a.secret)
    && a.qualified.Some? && a.qualified.value.ready
    && a.qualified.value.sourceRunId.GetOr("") != item.sourceRunId
  }

  /** With unique ids, an attempt on an item is accepted exactly when it moves along an edge and justifies a closing. */
  lemma AcceptedExactly(sign: Signer, history: seq<Item>, a: Attempt, k: nat)
    requires UniqueIds(history) && k < |history| && history[k].id == a.request.remediationId != ""
    ensures Apply(sign, history, a).Ok? <==>
            && a.request.actor != ""
            && (history[k].state, a.request.target) in {("open", "in_progress"), ("in_progress", "resolved"),
                                                        ("in_progress", "open"), ("resolved", "in_progress")}
            && (a.request.target == "resolved" ==> Justifies(sign, history[k], a))
  {
    assert Find(history, a.request.remediationId) == k;
    EdgesExactly(history[k].state, a.request.target);
  }

  /** The reason of a refusal is the first check that fails: fields, item, edge, and for a closing its five conditions. */
  lemma {:induction false} RefusedExactly(sign: Signer, history: seq<Item>, a: Attempt)
    ensures var e, q, i := Refusal(sign, history, a), a.request, Find(history, a.request.remediationId);
            var named := q.remediationId != "" && q.actor != "";
            var found := named && i < |history|;
            var moves := found && q.target in Allowed(history[i].state);
            var shown := moves && q.target == "resolved" && q.evidence.Some?;
            var ready := shown && a.qualified.Some? && a.qualified.value.ready;
            var other := ready && a.qualified.value.sourceRunId.GetOr("") != history[i].sourceRunId;
            && (e == Some(FieldMissing) <==> !named) && (e == Some(NotFound) <==> named && !found)
            && (e == Some(InvalidTransition) <==> found && !moves)
            && (e == Some(EvidenceRequired) <==> moves && q.target == "resolved" && !shown)
            && (e == Some(NotQualified) <==> shown && !ready) && (e == Some(SameRun) <==> ready && !other)
            && (e == Some(SecretRequired) <==> other && a.secret == "")
            && (e == Some(BadSignature) <==>
                other && a.secret != "" && q.signature != sign(q.evidence.value, a.secret))
  {
    hide Allowed;
  }

  /**
   What a transition writes: state, time and actor always; evidence, signature, qualifying run and resolution time only
   on a closing; leaving "resolved" takes the resolution time away; identifier and source run stay. The record repeats
   the request, the state left and the qualifying run.
   */
  lemma {:induction false} TransitionExactly(item: Item, a: Attempt)
    ensures var u, q := Updated(item, a), a.request;
            && u.id == item.id && u.sourceRunId == item.sourceRunId
            && u.state == q.target && u.updatedAt == Some(a.now) && u.updatedBy == Some(q.actor)
            && (if q.target == "resolved"
                then && u.evidence == q.evidence && u.signature == Some(q.signature) && u.resolvedAt == Some(a.now)
                     && (a.qualified.Some? ==> u.qualifiedRunId == a.qualified.value.sourceRunId)
                else && u.evidence == item.evidence && u.signature == item.signature
                     && u.qualifiedRunId == item.qualifiedRunId
                     && u.resolvedAt == if item.state == "resolved" then None else item.resolvedAt)
            && AuditOf(item, a) == Audit(q.remediationId, item.state, q.target, q.actor, a.now, q.target == "resolved",
                                         u.qualifiedRunId)
  {
  }

  // ---------------------------------------------------------------- runs

  /** A run's state; a refused attempt changes nothing, because nothing is written. */
  datatype Run = Run(history: seq<Item>, audits: seq<Audit>)

  function Step(sign: Signer, s: Run, a: Attempt): Run {
    match Apply(sign, s.history, a)
    case Err(_) => s
    case Ok(accepted) => Run(accepted.0, s.audits + [accepted.1])
  }

  function After(sign: Signer, initial: seq<Item>, attempts: seq<Attempt>): Run {
    if attempts == [] then Run(initial, [])
    else Step(sign, After(sign, initial, attempts[..|attempts| - 1]), attempts[|attempts| - 1])
  }

  ghost predicate SameItems(before: seq<Item>, after: seq<Item>) {
    && |before| == |after|
    && forall k :: 0 <= k < |before| ==> before[k].id == after[k].id && before[k].sourceRunId == after[k].sourceRunId
  }

  /** A step moves at most the named item, along one edge, and says so in one audit record. */
  lemma StepMeaning(sign: Signer, s: Run, a: Attempt)
    requires UniqueIds(s.history)
    ensures var t := Step(sign, s, a);
            && SameItems(s.history, t.history)
            && (t == s || exists i ::
                  && 0 <= i < |s.history| && a.request.remediationId == s.history[i].id
                  && t.history == s.history[i := Updated(s.history[i], a)]
                  && t.audits == s.audits + [AuditOf(s.history[i], a)]
                  && a.request.target in Allowed(s.history[i].state)
                  && (a.request.target == RESOLVED ==> Justifies(sign, s.history[i], a)))
  {
    var t := Step(sign, s, a);
    if Apply(sign, s.history, a).Ok? {
      var i := Find(s.history, a.request.remediationId);
      assert t.history == s.history[i := Updated(s.history[i], a)];
    }
  }

  /** Items are never added, dropped, reordered or re-identified. */
  lemma {:induction false} RunKeepsItems(sign: Signer, initial: seq<Item>, attempts: seq<Attempt>)
    requires UniqueIds(initial)
    ensures SameItems(initial, After(sign, initial, attempts).history)
    ensures UniqueIds(After(sign, initial, attempts).history)
  {
    hide Step;
    if attempts != [] {
      RunKeepsItems(sign, initial, attempts[..|attempts| - 1]);
      StepMeaning(sign, After(sign, initial, attempts[..|attempts| - 1]), attempts[|attempts| - 1]);
    }
  }

  /** `a` is the attempt that closed `item` as it stands. */
  ghost predicate ClosedBy(sign: Signer, item: Item, a: Attempt) {
    && a.request.remediationId == item.id && a.request.target == RESOLVED && Justifies(sign, item, a)
    && item.evidence == a.request.evidence && item.signature == Some(a.request.signature)
    && item.qualifiedRunId == a.qualified.value.sourceRunId
    && item.resolvedAt == Some(a.now) && item.updatedAt == Some(a.now) && item.updatedBy == Some(a.request.actor)
  }

  /** The evidence fields were put there together by one justified closing, or never. */
  ghost predicate EvidenceFrom(sign: Signer, item: Item, attempts: seq<Attempt>) {
    || (item.evidence.None? && item.signature.None? && item.qualifiedRunId.None?)
    || exists a :: a in attempts && a.request.remediationId == item.id && Justifies(sign, item, a)
                   && item.evidence == a.request.evidence && item.signature == Some(a.request.signature)
                   && item.qualifiedRunId == a.qualified.value.sourceRunId
  }

  ghost predicate ItemInvariant(sign: Signer, item: Item, attempts: seq<Attempt>) {
    && item.state in {OPEN, IN_PROGRESS, RESOLVED}
    && (item.state == RESOLVED ==> exists a :: a in attempts && ClosedBy(sign, item, a))
    && (item.state != RESOLVED ==> item.resolvedAt == None)
    && EvidenceFrom(sign, item, attempts)
  }

  ghost predicate AllOpen(history: seq<Item>) {
    forall item :: item in history ==>
      item.state == OPEN && item.resolvedAt.None? && item.evidence.None? && item.signature.None?
      && item.qualifiedRunId.None?
  }

  lemma UpdatedInvariant(sign: Signer, item: Item, attempts: seq<Attempt>, a: Attempt)
    requires ItemInvariant(sign, item, attempts) && a.request.remediationId == item.id
    requires a.request.target in Allowed(item.state)
    requires a.request.target == RESOLVED ==> Justifies(sign, item, a)
    ensures ItemInvariant(sign, Updated(item, a), attempts + [a])
  {
    var updated := Updated(item, a);
    assert a in attempts + [a];
    if a.request.target == RESOLVED {
      assert ClosedBy(sign, updated, a);
    } else {
      InvariantGrows(sign, item, attempts, a);
      assert EvidenceFrom(sign, updated, attempts + [a]);
    }
  }

  lemma InvariantGrows(sign: Signer, item: Item, attempts: seq<Attempt>, a: Attempt)
    requires ItemInvariant(sign, item, attempts)
    ensures ItemInvariant(sign, item, attempts + [a])
  {
    assert forall b :: b in attempts ==> b in attempts + [a];
  }

  /**
   In every run from open items with unique ids, a resolved item was closed by an attempt of the run that carried
   validly signed evidence and a readiness which does not name the item's own run, though it may name none at all; no
   other item has a resolution time.
   */
  lemma {:induction false} RunInvariant(sign: Signer, initial: seq<Item>, attempts: seq<Attempt>, k: nat)
    requires UniqueIds(initial) && AllOpen(initial) && k < |initial|
    ensures |After(sign, initial, attempts).history| == |initial|
    ensures ItemInvariant(sign, After(sign, initial, attempts).history[k], attempts)
  {
    hide Step, Updated, Allowed, Justifies, ItemInvariant, UniqueIds;
    RunKeepsItems(sign, initial, attempts);
    if attempts == [] {
      OpenInvariant(sign, initial[k]);
    } else {
      var earlier, a := attempts[..|attempts| - 1], attempts[|attempts| - 1];
      assert attempts == earlier + [a];
      RunInvariant(sign, initial, earlier, k);
      RunKeepsItems(sign, initial, earlier);
      var s := After(sign, initial, earlier);
      StepMeaning(sign, s, a);
      InvariantGrows(sign, s.history[k], earlier, a);
      if a.request.remediationId == s.history[k].id && a.request.target in Allowed(s.history[k].state)
         && (a.request.target == RESOLVED ==> Justifies(sign, s.history[k], a)) {
        UpdatedInvariant(sign, s.history[k], earlier, a);
      }
    }
  }

  lemma OpenInvariant(sign: Signer, item: Item)
    requires AllOpen([item])
    ensures ItemInvariant(sign, item, [])
  {
    assert item in [item];
  }

  // ---------------------------------------------------------------- a later run

  /** The readiness behind a closing names a run, and `later` puts it after the item's own. */
  predicate QualifiedLater(later: (string, string) -> bool, item: Item, a: Attempt) {
    && a.qualified.Some? && a.qualified.value.sourceRunId.Some?
    && later(a.qualified.value.sourceRunId.value, item.sourceRunId)
  }

  /** The item names the run that qualified its closing, and it comes after the item's own. */
  predicate NamesLaterRun(later: (string, string) -> bool, item: Item) {
    item.qualifiedRunId.Some? && later(item.qualifiedRunId.value, item.sourceRunId)
  }

  /** A closing of `item` that justifies itself by readiness in `run`. */
  function ClosingBy(sign: Signer, item: Item, run: Option<string>): Attempt {
    var secret := "s";
    Attempt(Request(item.id, RESOLVED, "actor", Some(map[]), sign(map[], secret)), secret, Some(Qualified(true, run)), 0)
  }

  /**
   The closing check only refuses the item's own run. It makes every closing come from a later run exactly when the item
   names no run itself and every named run counts as later; for an item that names its run, never.
   */
  lemma {:induction false} ClosingIsLaterExactly(sign: Signer, later: (string, string) -> bool, item: Item)
    ensures (forall a :: Justifies(sign, item, a) ==> QualifiedLater(later, item, a)) <==>
            item.sourceRunId == "" && forall run :: run != "" ==> later(run, "")
  {
    if item.sourceRunId != "" {
      assert Justifies(sign, item, ClosingBy(sign, item, None));
    } else {
      forall run | run != "" && forall a :: Justifies(sign, item, a) ==> QualifiedLater(later, item, a)
        ensures later(run, "")
      {
        var a := ClosingBy(sign, item, Some(run));
        assert Justifies(sign, item, a);
        assert QualifiedLater(later, item, a);
      }
    }
  }

  function ItemOfRun(run: string): Item {
    Item("r", IN_PROGRESS, run, None, None, None, None, None, None)
  }

  /** Two closings of an item of run "7" that are accepted: one by readiness of no run, one by readiness of run "6". */
  lemma {:induction false} EarlierOrNoRunCloses(sign: Signer)
    ensures var item := ItemOfRun("7");
            var none := Apply(sign, [item], ClosingBy(sign, item, None));
            var earlier := Apply(sign, [item], ClosingBy(sign, item, Some("6")));
            && none.Ok? && none.value.0[0].state == RESOLVED && none.value.0[0].qualifiedRunId == None
            && earlier.Ok? && earlier.value.0[0].state == RESOLVED && earlier.value.0[0].qualifiedRunId == Some("6")
  {
    var item := ItemOfRun("7");
    assert "6"[0] != "7"[0] && |""| != |"7"|;
    AcceptedExactly(sign, [item], ClosingBy(sign, item, None), 0);
    AcceptedExactly(sign, [item], ClosingBy(sign, item, Some("6")), 0);
  }

  /** A resolved item names a run, or a later run, exactly when the attempt that closed it was qualified by one. */
  lemma {:induction false} ResolvedByExactly(sign: Signer, later: (string, string) -> bool, initial: seq<Item>,
          attempts: seq<Attempt>, k: nat) returns (a: Attempt)
    requires UniqueIds(initial) && AllOpen(initial) && k < |initial|
    requires |After(sign, initial, attempts).history| == |initial|
    requires After(sign, initial, attempts).history[k].state == RESOLVED
    ensures var item := After(sign, initial, attempts).history[k];
            && a in attempts && ClosedBy(sign, item, a)
            && (item.qualifiedRunId.Some? <==> a.qualified.value.sourceRunId.Some?)
            && (NamesLaterRun(later, item) <==> QualifiedLater(later, item, a))
  {
    hide After, Justifies;
    RunInvariant(sign, initial, attempts, k);
    var item := After(sign, initial, attempts).history[k];
    a :| a in attempts && ClosedBy(sign, item, a);
    assert Justifies(sign, item, a);
    JustifiedIsQualified(sign, item, a);
  }

  lemma JustifiedIsQualified(sign: Signer, item: Item, a: Attempt)
    requires Justifies(sign, item, a)
    ensures a.qualified.Some?
  {
  }

  /** Attempt `n` of the run closes item `k`. */
  ghost predicate Closes(sign: Signer, initial: seq<Item>, attempts: seq<Attempt>, k: nat, n: nat)
    requires n < |attempts|
  {
    var s := After(sign, initial, attempts[..n]);
    && k < |s.history| && attempts[n].request.remediationId == s.history[k].id
    && attempts[n].request.target == RESOLVED && Apply(sign, s.history, attempts[n]).Ok?
  }

  /** Whenever item `k` is resolved along the run, it names a later run. */
  ghost predicate AlwaysNamesLater(sign: Signer, later: (string, string) -> bool, initial: seq<Item>,
          attempts: seq<Attempt>, k: nat)
    requires k < |initial|
  {
    forall n :: 0 <= n <= |attempts| && k < |After(sign, initial, attempts[..n]).history|
                && After(sign, initial, attempts[..n]).history[k].state == RESOLVED ==>
                  NamesLaterRun(later, After(sign, initial, attempts[..n]).history[k])
  }

  /** Every closing of item `k` along the run is qualified by a later run. */
  ghost predicate AlwaysQualifiedLater(sign: Signer, later: (string, string) -> bool, initial: seq<Item>,
          attempts: seq<Attempt>, k: nat)
    requires k < |initial|
  {
    forall n :: 0 <= n < |attempts| && Closes(sign, initial, attempts, k, n) ==>
                  QualifiedLater(later, initial[k], attempts[n])
  }

  lemma Unfold(sign: Signer, initial: seq<Item>, attempts: seq<Attempt>, n: nat)
    requires n < |attempts|
    ensures After(sign, initial, attempts[..n + 1]) == Step(sign, After(sign, initial, attempts[..n]), attempts[n])
  {
    assert attempts[..n + 1][..n] == attempts[..n];
  }

  /** What attempt `n` does to item `k`: it closes it, moves it elsewhere, or leaves it alone. */
  lemma {:induction false} AttemptOnItem(sign: Signer, initial: seq<Item>, attempts: seq<Attempt>, k: nat, n: nat)
    requires UniqueIds(initial) && k < |initial| && n < |attempts|
    ensures var s, t := After(sign, initial, attempts[..n]), After(sign, initial, attempts[..n + 1]);
            && |s.history| == |t.history| == |initial|
            && s.history[k].sourceRunId == t.history[k].sourceRunId == initial[k].sourceRunId
            && (Closes(sign, initial, attempts, k, n) ==> t.history[k] == Updated(s.history[k], attempts[n]))
            && (!Closes(sign, initial, attempts, k, n) ==> t.history[k] == s.history[k] || t.history[k].state != RESOLVED)
  {
    hide After, Justifies, Refusal, Allowed;
    RunKeepsItems(sign, initial, attempts[..n]);
    RunKeepsItems(sign, initial, attempts[..n + 1]);
    Unfold(sign, initial, attempts, n);
    var s, a := After(sign, initial, attempts[..n]), attempts[n];
    if a.request.remediationId == s.history[k].id {
      assert Find(s.history, a.request.remediationId) == k;
    }
  }

  /** An item names a later run whenever it is resolved exactly when every attempt that closes it is qualified by one. */
  lemma {:induction false} AlwaysLaterExactly(sign: Signer, later: (string, string) -> bool, initial: seq<Item>,
          attempts: seq<Attempt>, k: nat)
    requires UniqueIds(initial) && AllOpen(initial) && k < |initial|
    ensures AlwaysNamesLater(sign, later, initial, attempts, k) <==>
            AlwaysQualifiedLater(sign, later, initial, attempts, k)
  {
    hide After, Closes, Apply;
    if AlwaysNamesLater(sign, later, initial, attempts, k) {
      forall n | 0 <= n < |attempts| && Closes(sign, initial, attempts, k, n)
        ensures QualifiedLater(later, initial[k], attempts[n])
      {
        AttemptOnItem(sign, initial, attempts, k, n);
        ClosingIsQualified(sign, initial, attempts, k, n);
        assert NamesLaterRun(later, After(sign, initial, attempts[..n + 1]).history[k]);
      }
    }
    if AlwaysQualifiedLater(sign, later, initial, attempts, k) {
      forall n | 0 <= n <= |attempts| && k < |After(sign, initial, attempts[..n]).history|
                 && After(sign, initial, attempts[..n]).history[k].state == RESOLVED
        ensures NamesLaterRun(later, After(sign, initial, attempts[..n]).history[k])
      {
        RunKeepsItems(sign, initial, attempts[..n]);
        ResolvedIsLater(sign, later, initial, attempts, k, n);
      }
    }
  }

  lemma {:induction false} ClosingIsQualified(sign: Signer, initial: seq<Item>, attempts: seq<Attempt>, k: nat, n: nat)
    requires UniqueIds(initial) && k < |initial| && n < |attempts| && Closes(sign, initial, attempts, k, n)
    ensures attempts[n].qualified.Some? && attempts[n].request.target == RESOLVED
  {
    hide After;
  }

  lemma {:induction false} ResolvedIsLater(sign: Signer, later: (string, string) -> bool, initial: seq<Item>,
          attempts: seq<Attempt>, k: nat, n: nat)
    requires UniqueIds(initial) && AllOpen(initial) && k < |initial| && n <= |attempts|
    requires AlwaysQualifiedLater(sign, later, initial, attempts, k)
    requires |After(sign, initial, attempts[..n]).history| == |initial|
    requires After(sign, initial, attempts[..n]).history[k].state == RESOLVED
    ensures NamesLaterRun(later, After(sign, initial, attempts[..n]).history[k])
  {
    hide After, Closes, Apply, UniqueIds;
    OpenAtStart(sign, initial, k);
    assert attempts[..0] == [];
    if n > 0 {
      AttemptOnItem(sign, initial, attempts, k, n - 1);
      if Closes(sign, initial, attempts, k, n - 1) {
        ClosingIsQualified(sign, initial, attempts, k, n - 1);
        assert QualifiedLater(later, initial[k], attempts[n - 1]);
      } else {
        ResolvedIsLater(sign, later, initial, attempts, k, n - 1);
      }
    }
  }

  lemma OpenAtStart(sign: Signer, initial: seq<Item>, k: nat)
    requires AllOpen(initial) && k < |initial|
    ensures After(sign, initial, []).history == initial && initial[k].state != RESOLVED
  {
    assert initial[k] in initial && OPEN[0] != RESOLVED[0];
  }

  // ---------------------------------------------------------------- the audit records

  /** What one record says about an item: every field the transitions change except the evidence and its signature. */
  function Replayed(item: Item, record: Audit): Item {
    if record.remediationId != item.id then item
    else
      item.(state := record.toState, updatedAt := Some(record.at), updatedBy := Some(record.actor),
            qualifiedRunId := record.qualifiedRunId,
            resolvedAt := if record.signedResolution then Some(record.at)
                          else if record.fromState == RESOLVED then None
                          else item.resolvedAt)
  }

  function Replay(item: Item, audits: seq<Audit>): Item {
    if audits == [] then item else Replayed(Replay(item, audits[..|audits| - 1]), audits[|audits| - 1])
  }

  function WithoutEvidence(item: Item): Item {
    item.(evidence := None, signature := None)
  }

  lemma UpdatedIsReplayed(item: Item, a: Attempt)
    requires a.request.remediationId == item.id
    ensures WithoutEvidence(Updated(item, a)) == Replayed(WithoutEvidence(item), AuditOf(item, a))
  {
  }

  /** Replaying the audit records over the initial items gives every item of the current history. */
  lemma {:induction false} AuditReplaysHistory(sign: Signer, initial: seq<Item>, attempts: seq<Attempt>, k: nat)
    requires UniqueIds(initial) && k < |initial|
    ensures var s := After(sign, initial, attempts);
            |s.history| == |initial| && WithoutEvidence(s.history[k]) == Replay(WithoutEvidence(initial[k]), s.audits)
  {
    hide Step, Updated, Replayed, Allowed, Justifies, UniqueIds, AuditOf;
    RunKeepsItems(sign, initial, attempts);
    if attempts != [] {
      var earlier, a := attempts[..|attempts| - 1], attempts[|attempts| - 1];
      AuditReplaysHistory(sign, initial, earlier, k);
      RunKeepsItems(sign, initial, earlier);
      var s, t := After(sign, initial, earlier), After(sign, initial, attempts);
      StepMeaning(sign, s, a);
      if t != s {
        var i :| 0 <= i < |s.history| && a.request.remediationId == s.history[i].id
                 && t.history == s.history[i := Updated(s.history[i], a)]
                 && t.audits == s.audits + [AuditOf(s.history[i], a)];
        var record := AuditOf(s.history[i], a);
        assert t.audits[..|s.audits|] == s.audits && t.audits[|s.audits|] == record;
        if i == k {
          UpdatedIsReplayed(s.history[k], a);
        } else {
          DifferentIds(s.history, i, k);
          ForeignRecord(WithoutEvidence(s.history[k]), s.history[i], a);
        }
      }
    }
  }

  lemma DifferentIds(history: seq<Item>, i: nat, k: nat)
    requires UniqueIds(history) && i < |history| && k < |history| && i != k
    ensures history[i].id != history[k].id
  {
  }

  lemma ForeignRecord(item: Item, other: Item, a: Attempt)
    requires a.request.remediationId == other.id != item.id
    ensures Replayed(item, AuditOf(other, a)) == item
  {
  }

  /** Each record starts where replaying the records before it ends, and follows an edge. */
  ghost predicate Chained(initial: seq<Item>, audits: seq<Audit>) {
    forall j :: 0 <= j < |audits| ==>
      && audits[j].toState in Allowed(audits[j].fromState)
      && (audits[j].signedResolution <==> audits[j].toState == "resolved")
      && exists k :: 0 <= k < |initial| && initial[k].id == audits[j].remediationId
                     && Replay(WithoutEvidence(initial[k]), audits[..j]).state == audits[j].fromState
  }

  lemma {:induction false} AuditsAreChained(sign: Signer, initial: seq<Item>, attempts: seq<Attempt>)
    requires UniqueIds(initial)
    ensures Chained(initial, After(sign, initial, attempts).audits)
  {
    hide Step, Updated, Replay, Justifies, UniqueIds, Allowed;
    if attempts != [] {
      var earlier, a := attempts[..|attempts| - 1], attempts[|attempts| - 1];
      AuditsAreChained(sign, initial, earlier);
      RunKeepsItems(sign, initial, earlier);
      var s, t := After(sign, initial, earlier), After(sign, initial, attempts);
      StepMeaning(sign, s, a);
      if t != s {
        var i :| 0 <= i < |s.history| && a.request.remediationId == s.history[i].id
                 && t.history == s.history[i := Updated(s.history[i], a)]
                 && t.audits == s.audits + [AuditOf(s.history[i], a)]
                 && a.request.target in Allowed(s.history[i].state);
        AuditReplaysHistory(sign, initial, earlier, i);
        ChainExtends(initial, s.audits, AuditOf(s.history[i], a), i);
      }
    }
  }

  lemma {:induction false} ChainExtends(initial: seq<Item>, audits: seq<Audit>, record: Audit, k: nat)
    requires Chained(initial, audits) && k < |initial| && initial[k].id == record.remediationId
    requires Replay(WithoutEvidence(initial[k]), audits).state == record.fromState
    requires record.toState in Allowed(record.fromState) && (record.signedResolution <==> record.toState == RESOLVED)
    ensures Chained(initial, audits + [record])
  {
    hide Replay, Allowed;
    var all := audits + [record];
    forall j | 0 <= j < |all|
      ensures all[j].toState in Allowed(all[j].fromState)
      ensures all[j].signedResolution <==> all[j].toState == RESOLVED
      ensures exists k :: 0 <= k < |initial| && initial[k].id == all[j].remediationId
                          && Replay(WithoutEvidence(initial[k]), all[..j]).state == all[j].fromState
    {
      assert all[..j] == audits[..j];
    }
  }

  /** With two entries under one id the records no longer tell: an accepted attempt overwrites both with the first. */
  lemma DuplicateIdsCollapse(sign: Signer, history: seq<Item>, a: Attempt, j: nat, k: nat)
    requires j < k < |history| && history[j].id == history[k].id == a.request.remediationId
    requires Apply(sign, history, a).Ok?
    ensures Apply(sign, history, a).value.0[j] == Apply(sign, history, a).value.0[k]
    ensures Apply(sign, history, a).value.0[k].sourceRunId == history[Find(history,
        a.request.remediationId)].sourceRunId
  {
  }

  /** A record names a run that did not qualify its own transition exactly when its item was closed with a run before. */
  lemma RecordNamesOldRunExactly(item: Item, a: Attempt)
    ensures AuditOf(item, a).qualifiedRunId.Some? && !AuditOf(item, a).signedResolution <==>
            a.request.target != RESOLVED && item.qualifiedRunId.Some?
    ensures a.request.target != RESOLVED ==> AuditOf(item, a).qualifiedRunId == item.qualifiedRunId
  {
  }

  /** The run named by the last closing of the item among the records. */
  function LastClosingRun(audits: seq<Audit>, id: string): Option<string> {
    if audits == [] then None
    else
      var last := audits[|audits| - 1];
      if last.remediationId == id && last.signedResolution then last.qualifiedRunId
      else LastClosingRun(audits[..|audits| - 1], id)
  }

  /** Every record that closes nothing repeats the run of the last closing of its item before it, if there was one. */
  ghost predicate RepeatLastClosing(audits: seq<Audit>) {
    forall j :: 0 <= j < |audits| && !audits[j].signedResolution ==>
                  audits[j].qualifiedRunId == LastClosingRun(audits[..j], audits[j].remediationId)
  }

  lemma {:induction false} ItemsShowLastClosing(sign: Signer, initial: seq<Item>, attempts: seq<Attempt>, k: nat)
    requires UniqueIds(initial) && AllOpen(initial) && k < |initial|
    ensures var s := After(sign, initial, attempts);
            |s.history| == |initial| && s.history[k].qualifiedRunId == LastClosingRun(s.audits, initial[k].id)
  {
    hide Step, Updated, Allowed, Justifies, UniqueIds, AuditOf;
    RunKeepsItems(sign, initial, attempts);
    if attempts == [] {
      assert initial[k] in initial;
    } else {
      var earlier, a := attempts[..|attempts| - 1], attempts[|attempts| - 1];
      ItemsShowLastClosing(sign, initial, earlier, k);
      RunKeepsItems(sign, initial, earlier);
      var s, t := After(sign, initial, earlier), After(sign, initial, attempts);
      StepMeaning(sign, s, a);
      if t != s {
        var i :| 0 <= i < |s.history| && a.request.remediationId == s.history[i].id
                 && t.history == s.history[i := Updated(s.history[i], a)]
                 && t.audits == s.audits + [AuditOf(s.history[i], a)];
        assert t.audits[..|s.audits|] == s.audits;
        RecordedClosing(s.history[i], a);
        if i != k {
          DifferentIds(s.history, i, k);
        }
      }
    }
  }

  lemma RecordedClosing(item: Item, a: Attempt)
    ensures AuditOf(item, a).remediationId == a.request.remediationId
    ensures AuditOf(item, a).qualifiedRunId == Updated(item, a).qualifiedRunId
    ensures !AuditOf(item, a).signedResolution ==> Updated(item, a).qualifiedRunId == item.qualifiedRunId
  {
  }

  /**
   In every run from open items, a record that closes nothing names a run exactly when its item was closed before and
   its last closing named one; it is that closing's run, although nothing qualified the present transition.
   */
  lemma {:induction false} RecordsRepeatLastClosing(sign: Signer, initial: seq<Item>, attempts: seq<Attempt>)
    requires UniqueIds(initial) && AllOpen(initial)
    ensures RepeatLastClosing(After(sign, initial, attempts).audits)
  {
    hide Step, Updated, Allowed, Justifies, UniqueIds, AuditOf, LastClosingRun, AllOpen;
    if attempts != [] {
      var earlier, a := attempts[..|attempts| - 1], attempts[|attempts| - 1];
      RecordsRepeatLastClosing(sign, initial, earlier);
      RunKeepsItems(sign, initial, earlier);
      var s, t := After(sign, initial, earlier), After(sign, initial, attempts);
      StepMeaning(sign, s, a);
      if t != s {
        var i :| 0 <= i < |s.history| && a.request.remediationId == s.history[i].id
                 && t.history == s.history[i := Updated(s.history[i], a)]
                 && t.audits == s.audits + [AuditOf(s.history[i], a)];
        ItemsShowLastClosing(sign, initial, earlier, i);
        RecordedClosing(s.history[i], a);
        forall j | 0 <= j < |t.audits| && !t.audits[j].signedResolution
          ensures t.audits[j].qualifiedRunId == LastClosingRun(t.audits[..j], t.audits[j].remediationId)
        {
          assert t.audits[..j] == s.audits[..j];
        }
      }
    }
  }
}
