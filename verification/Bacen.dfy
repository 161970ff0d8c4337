/**
 Regulatory status derived from assessments and dated evidence, and the gate that compares two snapshots of the
 obligations at one frozen instant.
 */
module Bacen {
  import opened Prelude
  import opened Lists

  // ---------------------------------------------------------------- evidence

  /** A timestamp text: an instant in seconds, or something that is not a UTC timestamp. */
  datatype Stamp = Utc(instant: int) | NotUtc

  const DAY := 86_400

  datatype Evidence = Evidence(declaresStatus: bool, uid: Option<string>, normUid: Option<string>,
                               eventAt: Option<Stamp>, collectedAt: Option<Stamp>, sha256: Option<string>,
                               source: Option<string>, validUntil: Option<Stamp>, retentionUntil: Option<Stamp>)

  datatype Error =
    | EvidenceDeclaresStatus | FieldsMissing | TimestampNotUtc | CollectedBeforeEvent | ShaInvalid
    | ValidUntilBeforeEvent | RetentionBeforeEvent | NegativeDays
    | ObligationDeclaresStatus | AssessmentDeclaresStatus | DecisionIncomplete | ImplementationInvalid

  datatype Policy = Policy(validityDays: Option<int>, retentionDays: Option<int>)

  predicate LegalPolicy(p: Policy) {
    (p.validityDays.Some? ==> p.validityDays.value >= 0) && (p.retentionDays.Some? ==> p.retentionDays.value >= 0)
  }

  /** (valid until, retained until), both counted from the event and never from its collection. */
  function DeriveTemporalFields(eventAt: Stamp, p: Policy): Result<(Option<Stamp>, Option<Stamp>), Error> {
    if !LegalPolicy(p) then Err(NegativeDays)
    else
      match eventAt
      case NotUtc => Err(TimestampNotUtc)
      case Utc(event) =>
        Ok((if p.validityDays.Some? then Some(Utc(event + p.validityDays.value * DAY)) else None,
            if p.retentionDays.Some? then Some(Utc(event + p.retentionDays.value * DAY)) else None))
  }

  /** A character that `casefold` turns into hexadecimal digits: the ligature U+FB00 becomes two letters f. */
  predicate FoldsToHex(c: char) {
    '0' <= c <= '9' || 'a' <= c <= 'f' || 'A' <= c <= 'F' || c == '\U{FB00}'
  }

  predicate Sha256(s: string) {
    |s| == 64 && forall k :: 0 <= k < |s| ==> FoldsToHex(s[k])
  }

  /** Sixty-four characters are accepted exactly when each is a digit, a letter of a hexadecimal number, or U+FB00. */
  lemma ShaExactly(s: string)
    ensures Sha256(s) <==> |s| == 64 && forall c :: c in s ==> c in "0123456789abcdefABCDEF\U{FB00}"
  {
    assert forall c :: FoldsToHex(c) <==> c in "0123456789abcdefABCDEF\U{FB00}" by {
      forall c | FoldsToHex(c) ensures c in "0123456789abcdefABCDEF\U{FB00}" {
        var t := "0123456789abcdefABCDEF\U{FB00}";
        var at := if c <= '9' then c as int - '0' as int else if c <= 'F' then 16 + c as int - 'A' as int
                  else if c <= 'f' then 10 + c as int - 'a' as int else 22;
        assert t[at] == c;
      }
    }
  }

  predicate Complete(e: Evidence) {
    e.uid.Some? && e.normUid.Some? && e.eventAt.Some? && e.collectedAt.Some? && e.sha256.Some? && e.source.Some?
  }

  /** A limit that does not parse, or lies before the event. */
  function LimitError(limit: Option<Stamp>, event: int, early: Error): Option<Error> {
    match limit
    case None => None
    case Some(NotUtc) => Some(TimestampNotUtc)
    case Some(Utc(t)) => if t < event then Some(early) else None
  }

  /** The first rule an evidence record breaks. */
  function EvidenceError(e: Evidence): Option<Error> {
    if e.declaresStatus then Some(EvidenceDeclaresStatus)
    else if !Complete(e) then Some(FieldsMissing)
    else if e.eventAt.value.NotUtc? || e.collectedAt.value.NotUtc? then Some(TimestampNotUtc)
    else if e.collectedAt.value.instant < e.eventAt.value.instant then Some(CollectedBeforeEvent)
    else if !Sha256(e.sha256.value) then Some(ShaInvalid)
    else
      var limit := LimitError(e.validUntil, e.eventAt.value.instant, ValidUntilBeforeEvent);
      if limit.Some? then limit else LimitError(e.retentionUntil, e.eventAt.value.instant, RetentionBeforeEvent)
  }

  predicate WellFormed(e: Evidence) {
    EvidenceError(e).None?
  }

  predicate CurrentAt(e: Evidence, asOf: int)
    requires WellFormed(e)
  {
    e.eventAt.value.instant <= asOf && (e.validUntil.None? || asOf <= e.validUntil.value.instant)
  }

  function EvidenceIsValid(e: Evidence, asOf: int): Result<bool, Error> {
    if EvidenceError(e).Some? then Err(EvidenceError(e).value) else Ok(CurrentAt(e, asOf))
  }

  /** Whether a piece must be kept: only while a retention limit is given and not passed. */
  function MustBeRetained(e: Evidence, asOf: int): Result<bool, Error> {
    if EvidenceError(e).Some? then Err(EvidenceError(e).value)
    else Ok(e.retentionUntil.Some? && asOf <= e.retentionUntil.value.instant)
  }

  /** Both limits are whole days after the event, each present exactly when the policy names it. */
  lemma LimitsCountFromEvent(eventAt: Stamp, p: Policy)
    ensures var r, bad := DeriveTemporalFields(eventAt, p), p.validityDays.GetOr(0) < 0 || p.retentionDays.GetOr(0) < 0;
            && (r == Err(NegativeDays) <==> bad)
            && (r == Err(TimestampNotUtc) <==> !bad && eventAt == NotUtc)
            && (r.Ok? <==> !bad && eventAt.Utc?)
            && (r.Ok? ==>
                  && (r.value.0.Some? <==> p.validityDays.Some?) && (r.value.1.Some? <==> p.retentionDays.Some?)
                  && (r.value.0.Some? ==> r.value.0 == Some(Utc(eventAt.instant + p.validityDays.value * 86_400)))
                  && (r.value.1.Some? ==> r.value.1 == Some(Utc(eventAt.instant + p.retentionDays.value * 86_400))))
  {
  }

  /** Evidence that carries the derived limits is valid from its event for the validity, and retained for the retention. */
  lemma ValidExactlyDuringValidity(e: Evidence, p: Policy, asOf: int)
    requires WellFormed(e) && DeriveTemporalFields(e.eventAt.value, p) == Ok((e.validUntil, e.retentionUntil))
    ensures var event := e.eventAt.value.instant;
            && EvidenceIsValid(e, asOf) ==
               Ok(event <= asOf && (p.validityDays.Some? ==> asOf <= event + p.validityDays.value * 86_400))
            && MustBeRetained(e, asOf) ==
               Ok(p.retentionDays.Some? && asOf <= event + p.retentionDays.value * 86_400)
  {
  }

  ghost predicate LimitAllows(limit: Option<Stamp>, event: int) {
    limit.Some? ==> limit.value.Utc? && limit.value.instant >= event
  }

  /** A record is well formed exactly when every rule holds; otherwise the first one broken is named. */
  lemma {:induction false} WellFormedExactly(e: Evidence)
    ensures var r := EvidenceError(e);
            var whole := !e.declaresStatus && e.uid.Some? && e.normUid.Some? && e.eventAt.Some? && e.collectedAt.Some?
                         && e.sha256.Some? && e.source.Some?;
            var dated := whole && e.eventAt.value.Utc? && e.collectedAt.value.Utc?;
            var ordered := dated && e.eventAt.value.instant <= e.collectedAt.value.instant;
            var hashed := ordered && Sha256(e.sha256.value);
            var limited := hashed && LimitAllows(e.validUntil, e.eventAt.value.instant);
            && (WellFormed(e) <==> limited && LimitAllows(e.retentionUntil, e.eventAt.value.instant))
            && (r == Some(EvidenceDeclaresStatus) <==> e.declaresStatus)
            && (r == Some(FieldsMissing) <==> !e.declaresStatus && !whole)
            && (r == Some(CollectedBeforeEvent) <==> dated && !ordered)
            && (r == Some(ShaInvalid) <==> ordered && !hashed)
            && (r == Some(ValidUntilBeforeEvent) <==> hashed && !limited && e.validUntil.value.Utc?)
            && (r == Some(RetentionBeforeEvent) <==>
                limited && e.retentionUntil.Some? && e.retentionUntil.value.Utc?
                && !LimitAllows(e.retentionUntil, e.eventAt.value.instant))
            && (r == Some(TimestampNotUtc) <==>
                || (whole && !dated)
                || (hashed && e.validUntil == Some(NotUtc)) || (limited && e.retentionUntil == Some(NotUtc)))
  {
    hide Sha256;
  }

  // ---------------------------------------------------------------- derived status

  datatype Status = NaoAvaliado | NaoAplicavel | Lacuna | Parcial | Implementado | Evidenciado

  datatype Assessment = Assessment(declaresStatus: bool, evaluated: bool, implementation: Option<string>)

  /** A field is empty when it is missing or blank; `decidedAt` is then `None`. */
  datatype Decision = Decision(decision: string, decidedBy: string, decidedAt: Option<Stamp>, rationale: string)

  datatype Obligation = Obligation(uid: Option<string>, code: Option<string>, declaresStatus: bool,
                                   assessment: Option<Assessment>, decision: Option<Decision>)

  predicate Relevant(e: Evidence, o: Obligation) {
    e.normUid == o.uid
  }

  /** The search for a valid piece of evidence, which stops at the first one and raises at the first malformed one. */
  function Search(evidences: seq<Evidence>, o: Obligation, asOf: int): Result<bool, Error> {
    if evidences == [] then Ok(false)
    else if !Relevant(evidences[0], o) then Search(evidences[1..], o, asOf)
    else
      match EvidenceIsValid(evidences[0], asOf)
      case Err(e) => Err(e)
      case Ok(valid) => if valid then Ok(true) else Search(evidences[1..], o, asOf)
  }

  method FindValidEvidence(evidences: seq<Evidence>, o: Obligation, asOf: int) returns (r: Result<bool, Error>)
    ensures r == Search(evidences, o, asOf)
  {
    var validEvidence := false;
    for k := 0 to |evidences|
      invariant !validEvidence && Search(evidences[k..], o, asOf) == Search(evidences, o, asOf)
    {
      assert evidences[k..][0] == evidences[k] && evidences[k..][1..] == evidences[k + 1..];
      if !Relevant(evidences[k], o) {
        continue;
      }
      var valid := EvidenceIsValid(evidences[k], asOf);
      if valid.Err? {
        return Err(valid.error);
      }
      if valid.value {
        validEvidence := true;
        break;
      }
    }
    r := Ok(validEvidence);
  }

  function DecisionApplies(d: Option<Decision>): Result<bool, Error> {
    if d.None? || d.value.decision != "nao_aplicavel" then Ok(false)
    else if d.value.decidedBy == "" || d.value.decidedAt.None? || d.value.rationale == "" then Err(DecisionIncomplete)
    else if d.value.decidedAt.value.NotUtc? then Err(TimestampNotUtc)
    else Ok(true)
  }

  /** Everything but the evidence: an error, a final status, or that evidence decides. */
  function Assess(o: Obligation): Result<Option<Status>, Error> {
    if o.declaresStatus then Err(ObligationDeclaresStatus)
    else if o.assessment.Some? && o.assessment.value.declaresStatus then Err(AssessmentDeclaresStatus)
    else if DecisionApplies(o.decision).Err? then Err(DecisionApplies(o.decision).error)
    else if DecisionApplies(o.decision).value then Ok(Some(NaoAplicavel))
    else if o.assessment.None? || !o.assessment.value.evaluated then Ok(Some(NaoAvaliado))
    else
      match o.assessment.value.implementation
      case None => Ok(Some(Lacuna))
      case Some(i) =>
        if i == "none" || i == "nao_implementado" then Ok(Some(Lacuna))
        else if i == "partial" || i == "parcial" then Ok(Some(Parcial))
        else if i != "complete" && i != "completo" && i != "implementado" then Err(ImplementationInvalid)
        else Ok(None)
  }

  function DeriveStatus(o: Obligation, asOf: Stamp, evidences: seq<Evidence>): Result<Status, Error> {
    if asOf.NotUtc? then Err(TimestampNotUtc)
    else
      match Assess(o)
      case Err(e) => Err(e)
      case Ok(Some(status)) => Ok(status)
      case Ok(None) =>
        match Search(evidences, o, asOf.instant) {
          case Err(e) => Err(e)
          case Ok(valid) => Ok(if valid then Evidenciado else Implementado)
        }
  }

  // ---------------------------------------------------------------- order of the evidence

  ghost predicate HasMalformed(evidences: seq<Evidence>, o: Obligation) {
    exists e :: e in evidences && e.normUid == o.uid && !WellFormed(e)
  }

  ghost predicate HasCurrent(evidences: seq<Evidence>, o: Obligation, asOf: int) {
    exists e :: e in evidences && e.normUid == o.uid && WellFormed(e)
                && e.eventAt.value.instant <= asOf && (e.validUntil.Some? ==> asOf <= e.validUntil.value.instant)
  }

  /** What the search finds, wherever the order does not matter. */
  lemma {:induction false} SearchMeaning(evidences: seq<Evidence>, o: Obligation, asOf: int)
    ensures !HasMalformed(evidences, o) ==> Search(evidences, o, asOf) == Ok(HasCurrent(evidences, o, asOf))
    ensures HasMalformed(evidences, o) && !HasCurrent(evidences, o, asOf) ==> Search(evidences, o, asOf).Err?
  {
    hide EvidenceError;
    if evidences != [] {
      var e, rest := evidences[0], evidences[1..];
      assert evidences == [e] + rest;
      SearchMeaning(rest, o, asOf);
      assert HasMalformed(evidences, o) <==> (Relevant(e, o) && !WellFormed(e)) || HasMalformed(rest, o);
      assert HasCurrent(evidences, o, asOf) <==>
             (Relevant(e, o) && WellFormed(e) && CurrentAt(e, asOf)) || HasCurrent(rest, o, asOf);
    }
  }

  function About(uid: Option<string>): Evidence -> bool { (e: Evidence) => e.normUid == uid }

  /** Evidence about other obligations makes no difference to a status. */
  lemma {:induction false} OthersMakeNoDifference(evidences: seq<Evidence>, o: Obligation, asOf: Stamp)
    ensures DeriveStatus(o, asOf, Filter(evidences, About(o.uid))) == DeriveStatus(o, asOf, evidences)
  {
    hide Assess;
    if asOf.Utc? {
      SearchAmongOwn(evidences, o, asOf.instant);
    }
  }

  lemma {:induction false} SearchAmongOwn(evidences: seq<Evidence>, o: Obligation, asOf: int)
    ensures Search(Filter(evidences, About(o.uid)), o, asOf) == Search(evidences, o, asOf)
  {
    hide EvidenceIsValid, Filter;
    if evidences == [] {
      assert Filter(evidences, About(o.uid)) == [];
    } else {
      var e, rest := evidences[0], evidences[1..];
      SearchAmongOwn(rest, o, asOf);
      assert evidences == [e] + rest;
      PrependFilter(e, rest, About(o.uid));
      assert ([e] + Filter(rest, About(o.uid)))[1..] == Filter(rest, About(o.uid));
      assert [] + Filter(rest, About(o.uid)) == Filter(rest, About(o.uid));
    }
  }

  predicate Waived(o: Obligation) {
    o.decision.Some? && o.decision.value.decision == "nao_aplicavel"
  }

  predicate Documented(d: Decision) {
    d.decidedBy != "" && d.rationale != "" && d.decidedAt.Some?
  }

  predicate Declared(o: Obligation) {
    o.declaresStatus || (o.assessment.Some? && o.assessment.value.declaresStatus)
  }

  /** No status is declared by hand, and a waiver is documented and dated. */
  predicate Governed(o: Obligation) {
    !Declared(o) && (Waived(o) ==> Documented(o.decision.value) && o.decision.value.decidedAt.value.Utc?)
  }

  predicate Judged(o: Obligation) {
    Governed(o) && !Waived(o) && o.assessment.Some? && o.assessment.value.evaluated
  }

  predicate ImplementedAs(o: Obligation, words: set<string>) {
    Judged(o) && o.assessment.value.implementation.Some? && o.assessment.value.implementation.value in words
  }

  const ABSENT := {"none", "nao_implementado"}
  const PARTIAL := {"partial", "parcial"}
  const COMPLETE := {"complete", "completo", "implementado"}

  /** The words of the three degrees are different. */
  lemma DegreesDiffer()
    ensures ABSENT !! PARTIAL && ABSENT !! COMPLETE && PARTIAL !! COMPLETE
  {
    assert |"none"| == 4 && |"nao_implementado"| == 16 && |"partial"| == 7 && |"parcial"| == 7;
    assert |"complete"| == 8 && |"completo"| == 8 && |"implementado"| == 12;
  }

  /** When each status is derived and each refusal made, with no malformed evidence about the obligation. */
  lemma {:induction false} DerivedStatusExactly(o: Obligation, asOf: int, evidences: seq<Evidence>)
    requires !HasMalformed(evidences, o)
    ensures var r := DeriveStatus(o, Utc(asOf), evidences);
            && (r == Ok(NaoAplicavel) <==> Governed(o) && Waived(o))
            && (r == Ok(NaoAvaliado) <==>
                 Governed(o) && !Waived(o) && (o.assessment.None? || !o.assessment.value.evaluated))
            && (r == Ok(Lacuna) <==>
                 ImplementedAs(o, ABSENT) || (Judged(o) && o.assessment.value.implementation.None?))
            && (r == Ok(Parcial) <==> ImplementedAs(o, PARTIAL))
            && (r == Ok(Implementado) <==> ImplementedAs(o, COMPLETE) && !HasCurrent(evidences, o, asOf))
            && (r == Ok(Evidenciado) <==> ImplementedAs(o, COMPLETE) && HasCurrent(evidences, o, asOf))
            && (r == Err(ObligationDeclaresStatus) <==> o.declaresStatus)
            && (r == Err(AssessmentDeclaresStatus) <==> !o.declaresStatus && Declared(o))
            && (r == Err(DecisionIncomplete) <==> !Declared(o) && Waived(o) && !Documented(o.decision.value))
            && (r == Err(TimestampNotUtc) <==>
                !Declared(o) && Waived(o) && Documented(o.decision.value) && o.decision.value.decidedAt == Some(NotUtc))
            && (r == Err(ImplementationInvalid) <==>
                && Judged(o) && o.assessment.value.implementation.Some?
                && !ImplementedAs(o, ABSENT) && !ImplementedAs(o, PARTIAL) && !ImplementedAs(o, COMPLETE))
  {
    hide HasMalformed, HasCurrent, Search;
    SearchMeaning(evidences, o, asOf);
    DegreesDiffer();
  }

  /**
   An obligation is evidenced exactly when it is judged completely implemented and some well-formed piece that names it
   covers the instant, provided that no piece that names it is malformed.
   */
  lemma {:induction false} EvidencedExactly(o: Obligation, asOf: int, evidences: seq<Evidence>)
    requires forall e :: e in evidences && e.normUid == o.uid ==> WellFormed(e)
    ensures DeriveStatus(o, Utc(asOf), evidences) == Ok(Evidenciado) <==>
            && ImplementedAs(o, {"complete", "completo", "implementado"})
            && exists e :: e in evidences && e.normUid == o.uid && WellFormed(e) && e.eventAt.value.instant <= asOf
                           && (e.validUntil.Some? ==> asOf <= e.validUntil.value.instant)
  {
    hide DeriveStatus, EvidenceError;
    DerivedStatusExactly(o, asOf, evidences);
  }

  /** Same outcome; which of several errors is raised may differ. */
  predicate SameOutcome(a: Result<bool, Error>, b: Result<bool, Error>) {
    (a.Err? <==> b.Err?) && (a.Ok? ==> a == b)
  }

  function ToFront(evidences: seq<Evidence>, k: nat): (r: seq<Evidence>)
    requires k < |evidences|
    ensures multiset(r) == multiset(evidences) && |r| > 0 && r[0] == evidences[k]
  {
    assert evidences == evidences[..k] + [evidences[k]] + evidences[k + 1..];
    [evidences[k]] + evidences[..k] + evidences[k + 1..]
  }

  lemma SameMembers(a: seq<Evidence>, b: seq<Evidence>)
    requires multiset(a) == multiset(b)
    ensures forall e :: e in a <==> e in b
  {
    forall e ensures e in a <==> e in b {
      assert e in a <==> e in multiset(a);
      assert e in b <==> e in multiset(b);
    }
  }

  /**
   The outcome is the same for every order of the evidence exactly when the obligation does not have both a malformed
   and a currently valid piece of evidence.
   */
  lemma {:induction false} OrderIndependentExactly(evidences: seq<Evidence>, o: Obligation, asOf: int)
    ensures (forall other :: multiset(other) == multiset(evidences) ==>
               SameOutcome(Search(other, o, asOf), Search(evidences, o, asOf)))
            <==> !(HasMalformed(evidences, o) && HasCurrent(evidences, o, asOf))
  {
    hide EvidenceError, Search;
    if HasMalformed(evidences, o) && HasCurrent(evidences, o, asOf) {
      var bad :| bad in evidences && bad.normUid == o.uid && !WellFormed(bad);
      var good :| good in evidences && good.normUid == o.uid && WellFormed(good) && CurrentAt(good, asOf);
      var j :| 0 <= j < |evidences| && evidences[j] == bad;
      var k :| 0 <= k < |evidences| && evidences[k] == good;
      FirstDecides(ToFront(evidences, j), o, asOf, 0);
      FirstDecides(ToFront(evidences, k), o, asOf, 0);
      assert Search(ToFront(evidences, j), o, asOf).Err? && Search(ToFront(evidences, k), o, asOf).Ok?;
    } else {
      forall other | multiset(other) == multiset(evidences)
        ensures SameOutcome(Search(other, o, asOf), Search(evidences, o, asOf))
      {
        SameMembers(other, evidences);
        SearchMeaning(other, o, asOf);
        SearchMeaning(evidences, o, asOf);
      }
    }
  }

  /** The piece names the obligation, and is malformed or covers the instant. */
  predicate Decides(e: Evidence, o: Obligation, asOf: int) {
    e.normUid == o.uid && (EvidenceError(e).Some? || EvidenceIsValid(e, asOf) == Ok(true))
  }

  /** The first deciding piece gives the result: its error, or that it is valid. */
  lemma {:induction false} FirstDecides(evidences: seq<Evidence>, o: Obligation, asOf: int, k: nat)
    requires k < |evidences| && Decides(evidences[k], o, asOf)
    requires forall j :: 0 <= j < k ==> !Decides(evidences[j], o, asOf)
    ensures Search(evidences, o, asOf) ==
            if EvidenceError(evidences[k]).Some? then Err(EvidenceError(evidences[k]).value) else Ok(true)
  {
    hide EvidenceError;
    if k > 0 {
      assert !Decides(evidences[0], o, asOf);
      assert forall j :: 0 <= j < k ==> evidences[1..][j] == evidences[j + 1];
      FirstDecides(evidences[1..], o, asOf, k - 1);
    }
  }

  // ---------------------------------------------------------------- the gate

  datatype Snapshot = Snapshot(obligations: map<string, Obligation>, evidences: seq<Evidence>)

  function StatusAt(s: Snapshot, uid: string, asOf: Stamp): Result<Status, Error>
    requires uid in s.obligations
  {
    DeriveStatus(s.obligations[uid], asOf, s.evidences)
  }

  /** Every status of the snapshot can be derived at this instant. */
  ghost predicate Derives(s: Snapshot, asOf: Stamp) {
    asOf.Utc? && forall uid :: uid in s.obligations ==> StatusAt(s, uid, asOf).Ok?
  }

  function Rank(s: Status): int {
    match s
    case NaoAvaliado => 0
    case Lacuna => 1
    case Parcial => 2
    case Implementado => 3
    case Evidenciado => 4
    case NaoAplicavel => -1
  }

  datatype Reason = ObrigacaoRemovida | IdentidadeAlterada | RevisaoNaoAplicavel | RegressaoDeStatus

  /** `None` when the transition is no regression. */
  function TransitionRegression(base: Status, head: Status): Option<Reason> {
    if base == head then None
    else if base == NaoAplicavel || head == NaoAplicavel then Some(RevisaoNaoAplicavel)
    else if Rank(head) < Rank(base) then Some(RegressaoDeStatus)
    else None
  }

  /** The governed order, from the least to the most advanced status. */
  const LADDER := [NaoAvaliado, Lacuna, Parcial, Implementado, Evidenciado]

  /** A change regresses exactly when it enters or leaves NaoAplicavel, or goes down the ladder. */
  lemma RegressionExactly(base: Status, head: Status)
    ensures var r := TransitionRegression(base, head);
            && (r == Some(RevisaoNaoAplicavel) <==> (base == NaoAplicavel) != (head == NaoAplicavel))
            && (r == Some(RegressaoDeStatus) <==>
                exists j, k :: 0 <= j < k < |LADDER| && LADDER[j] == head && LADDER[k] == base)
            && (r.Some? ==> r.value in {RevisaoNaoAplicavel, RegressaoDeStatus})
  {
    assert forall k :: 0 <= k < |LADDER| ==> Rank(LADDER[k]) == k;
    if TransitionRegression(base, head) == Some(RegressaoDeStatus) {
      assert LADDER[Rank(head)] == head && LADDER[Rank(base)] == base;
    }
  }

  /** Why one obligation of the base blocks the head, if it does. */
  function Blocks(base: Snapshot, head: Snapshot, asOf: Stamp, uid: string): Option<Reason>
    requires uid in base.obligations && StatusAt(base, uid, asOf).Ok?
    requires uid in head.obligations ==> StatusAt(head, uid, asOf).Ok?
  {
    if uid !in head.obligations then Some(ObrigacaoRemovida)
    else if base.obligations[uid].code != head.obligations[uid].code then Some(IdentidadeAlterada)
    else TransitionRegression(StatusAt(base, uid, asOf).value, StatusAt(head, uid, asOf).value)
  }

  /** An obligation that is gone blocks, then one whose code changed, then one whose status regresses. */
  lemma {:induction false} BlocksExactly(base: Snapshot, head: Snapshot, asOf: Stamp, uid: string)
    requires uid in base.obligations && StatusAt(base, uid, asOf).Ok?
    requires uid in head.obligations ==> StatusAt(head, uid, asOf).Ok?
    ensures var r := Blocks(base, head, asOf, uid);
            var same := uid in head.obligations && base.obligations[uid].code == head.obligations[uid].code;
            && (r == Some(ObrigacaoRemovida) <==> uid !in head.obligations)
            && (r == Some(IdentidadeAlterada) <==> uid in head.obligations && !same)
            && (r == Some(RevisaoNaoAplicavel) <==>
                same && (StatusAt(base, uid, asOf) == Ok(NaoAplicavel)) != (StatusAt(head, uid, asOf) == Ok(NaoAplicavel)))
            && (r == Some(RegressaoDeStatus) <==>
                same && exists j, k :: 0 <= j < k < |LADDER|
                                       && Ok(LADDER[j]) == StatusAt(head, uid, asOf)
                                       && Ok(LADDER[k]) == StatusAt(base, uid, asOf))
  {
    hide StatusAt;
    if uid in head.obligations {
      RegressionExactly(StatusAt(base, uid, asOf).value, StatusAt(head, uid, asOf).value);
    }
  }

  ghost predicate Passes(base: Snapshot, head: Snapshot, asOf: Stamp)
    requires Derives(base, asOf) && Derives(head, asOf)
  {
    forall uid :: uid in base.obligations ==> Blocks(base, head, asOf, uid).None?
  }

  datatype Regression = Regression(uid: string, reason: Reason)

  ghost predicate ListsKeys(uids: seq<string>, m: map<string, Obligation>) {
    && (forall uid :: uid in uids <==> uid in m)
    && forall j, k :: 0 <= j < k < |uids| ==> uids[j] != uids[k]
  }

  /** The entries follow the order of `uids`. */
  ghost predicate InOrderOf(found: seq<Regression>, uids: seq<string>) {
    && (forall j :: 0 <= j < |found| ==> found[j].uid in uids)
    && forall j, k :: 0 <= j < k < |found| ==>
         exists m, n :: 0 <= m < n < |uids| && uids[m] == found[j].uid && uids[n] == found[k].uid
  }

  lemma NothingFound()
    ensures InOrderOf([], [])
  {
  }

  lemma InOrderOfMore(found: seq<Regression>, uids: seq<string>, uid: string, reason: Reason)
    requires InOrderOf(found, uids)
    ensures InOrderOf(found, uids + [uid]) && InOrderOf(found + [Regression(uid, reason)], uids + [uid])
  {
    var all, more := found + [Regression(uid, reason)], uids + [uid];
    forall j, k | 0 <= j < k < |all|
      ensures exists m, n :: 0 <= m < n < |more| && more[m] == all[j].uid && more[n] == all[k].uid
    {
      if k < |found| {
        var m, n :| 0 <= m < n < |uids| && uids[m] == found[j].uid && uids[n] == found[k].uid;
        assert more[m] == all[j].uid && more[n] == all[k].uid;
      } else {
        var m :| 0 <= m < |uids| && uids[m] == found[j].uid;
        assert more[m] == all[j].uid && more[|uids|] == all[k].uid;
      }
    }
    assert forall j, k :: 0 <= j < k < |found| ==> all[j] == found[j] && all[k] == found[k];
    assert forall j :: 0 <= j < |found| ==> found[j].uid in more;
  }

  /** All statuses of a snapshot, or the first error along `uids`. */
  method DeriveSnapshot(s: Snapshot, asOf: Stamp, uids: seq<string>) returns (r: Result<map<string, Status>, Error>)
    requires ListsKeys(uids, s.obligations)
    ensures r.Ok? <==> Derives(s, asOf)
    ensures asOf.NotUtc? ==> r == Err(TimestampNotUtc)
    ensures asOf.Utc? && r.Err? ==> exists k :: 0 <= k < |uids| && StatusAt(s, uids[k], asOf) == Err(r.error)
                                                && forall j :: 0 <= j < k ==> StatusAt(s, uids[j], asOf).Ok?
    ensures r.Ok? ==> r.value.Keys == s.obligations.Keys
                      && forall uid :: uid in s.obligations ==> Ok(r.value[uid]) == StatusAt(s, uid, asOf)
  {
    hide DeriveStatus;
    if asOf.NotUtc? {
      return Err(TimestampNotUtc);
    }
    var result: map<string, Status> := map[];
    for k := 0 to |uids|
      invariant forall uid :: uid in result <==> uid in uids[..k]
      invariant forall uid :: uid in result ==> uid in s.obligations && Ok(result[uid]) == StatusAt(s, uid, asOf)
      invariant forall j :: 0 <= j < k ==> StatusAt(s, uids[j], asOf).Ok?
    {
      assert uids[k] in uids;
      var status := DeriveStatus(s.obligations[uids[k]], asOf, s.evidences);
      if status.Err? {
        assert StatusAt(s, uids[k], asOf).Err?;
        return Err(status.error);
      }
      result := result[uids[k] := status.value];
    }
    assert uids[..|uids|] == uids;
    r := Ok(result);
  }

  /**
   The comparison: it fails when a status cannot be derived, otherwise it lists exactly the obligations that block, in
   order, and passes when there is none.
   */
  method CompareSnapshots(base: Snapshot, head: Snapshot, asOf: Stamp, uids: seq<string>, headUids: seq<string>)
    returns (r: Result<(bool, seq<Regression>), Error>)
    requires ListsKeys(uids, base.obligations) && ListsKeys(headUids, head.obligations)
    ensures r.Ok? <==> Derives(base, asOf) && Derives(head, asOf)
    ensures r.Ok? ==> (r.value.0 <==> Passes(base, head, asOf))
    ensures r.Ok? ==> forall uid, reason :: Regression(uid, reason) in r.value.1 <==>
                        uid in base.obligations && Blocks(base, head, asOf, uid) == Some(reason)
    ensures r.Ok? ==> InOrderOf(r.value.1, uids)
  {
    hide DeriveStatus, InOrderOf;
    NothingFound();
    var baseStatuses := DeriveSnapshot(base, asOf, uids);
    if baseStatuses.Err? {
      return Err(baseStatuses.error);
    }
    var headStatuses := DeriveSnapshot(head, asOf, headUids);
    if headStatuses.Err? {
      return Err(headStatuses.error);
    }
    var regressions: seq<Regression> := [];
    for k := 0 to |uids|
      invariant forall uid, reason :: Regression(uid, reason) in regressions <==>
                  uid in uids[..k] && uid in base.obligations && Blocks(base, head, asOf, uid) == Some(reason)
      invariant InOrderOf(regressions, uids[..k])
    {
      var uid := uids[k];
      assert uid in uids;
      assert uids[..k + 1] == uids[..k] + [uid];
      ghost var why := Blocks(base, head, asOf, uid);
      InOrderOfMore(regressions, uids[..k], uid, why.GetOr(ObrigacaoRemovida));
      if uid !in head.obligations {
        regressions := regressions + [Regression(uid, ObrigacaoRemovida)];
        continue;
      }
      if base.obligations[uid].code != head.obligations[uid].code {
        regressions := regressions + [Regression(uid, IdentidadeAlterada)];
        continue;
      }
      var reason := TransitionRegression(baseStatuses.value[uid], headStatuses.value[uid]);
      assert why == reason;
      if reason.Some? {
        regressions := regressions + [Regression(uid, reason.value)];
      }
    }
    assert uids[..|uids|] == uids;
    assert forall uid :: uid in base.obligations && Blocks(base, head, asOf, uid).Some? ==>
        Regression(uid, Blocks(base, head, asOf, uid).value) in regressions;
    if regressions != [] {
      var first := regressions[0];
      assert first in regressions && first == Regression(first.uid, first.reason);
    }
    r := Ok((regressions == [], regressions));
  }

  // ---------------------------------------------------------------- the gate is an order

  lemma GateReflexive(s: Snapshot, asOf: Stamp)
    requires Derives(s, asOf)
    ensures Passes(s, s, asOf)
  {
  }

  lemma {:induction false} GateTransitive(a: Snapshot, b: Snapshot, c: Snapshot, asOf: Stamp)
    requires Derives(a, asOf) && Derives(b, asOf) && Derives(c, asOf)
    requires Passes(a, b, asOf) && Passes(b, c, asOf)
    ensures Passes(a, c, asOf)
  {
    hide DeriveStatus;
    forall uid | uid in a.obligations ensures Blocks(a, c, asOf, uid).None? {
      assert Blocks(a, b, asOf, uid).None?;
      assert Blocks(b, c, asOf, uid).None?;
    }
  }

  /** Passing both ways leaves the same obligations, with the same codes and the same derived statuses. */
  lemma {:induction false} GateAntisymmetric(a: Snapshot, b: Snapshot, asOf: Stamp)
    requires Derives(a, asOf) && Derives(b, asOf) && Passes(a, b, asOf) && Passes(b, a, asOf)
    ensures a.obligations.Keys == b.obligations.Keys
    ensures forall uid :: uid in a.obligations ==>
              a.obligations[uid].code == b.obligations[uid].code && StatusAt(a, uid, asOf) == StatusAt(b, uid, asOf)
  {
    hide DeriveStatus;
    forall uid | uid in a.obligations
      ensures uid in b.obligations && a.obligations[uid].code == b.obligations[uid].code
              && StatusAt(a, uid, asOf) == StatusAt(b, uid, asOf)
    {
      assert Blocks(a, b, asOf, uid).None?;
      assert Blocks(b, a, asOf, uid).None?;
    }
    forall uid | uid in b.obligations ensures uid in a.obligations {
      assert Blocks(b, a, asOf, uid).None?;
    }
  }

  /** `more` holds every piece of evidence of `evidences`, in any order, and possibly others. */
  ghost predicate Extends(more: seq<Evidence>, evidences: seq<Evidence>) {
    forall e :: e in evidences ==> e in more
  }

  /** Well-formed evidence can only raise a derived status. */
  lemma {:induction false} DerivationMonotone(o: Obligation, asOf: Stamp, evidences: seq<Evidence>, more: seq<Evidence>)
    requires DeriveStatus(o, asOf, evidences).Ok? && Extends(more, evidences) && !HasMalformed(more, o)
    ensures DeriveStatus(o, asOf, more).Ok?
    ensures TransitionRegression(DeriveStatus(o, asOf, evidences).value, DeriveStatus(o, asOf, more).value).None?
  {
    hide EvidenceError, Search, Assess;
    SearchMeaning(evidences, o, asOf.instant);
    SearchMeaning(more, o, asOf.instant);
    assert !HasMalformed(evidences, o);
    assert HasCurrent(evidences, o, asOf.instant) ==> HasCurrent(more, o, asOf.instant);
  }

  /** `more` is `evidences` in its order, with well-formed pieces put in anywhere. */
  ghost predicate Inserts(more: seq<Evidence>, evidences: seq<Evidence>) {
    if more == [] then evidences == []
    else
      || (WellFormed(more[0]) && Inserts(more[1..], evidences))
      || (evidences != [] && more[0] == evidences[0] && Inserts(more[1..], evidences[1..]))
  }

  /** Appending well-formed pieces is one way of inserting them. */
  lemma {:induction false} AppendInserts(evidences: seq<Evidence>, added: seq<Evidence>)
    requires forall e :: e in added ==> WellFormed(e)
    ensures Inserts(evidences + added, evidences)
  {
    hide WellFormed;
    if evidences != [] {
      AppendInserts(evidences[1..], added);
      assert (evidences + added)[1..] == evidences[1..] + added;
    } else if added != [] {
      AppendInserts([], added[1..]);
      assert [] + added == added && [] + added[1..] == added[1..];
    }
  }

  /** A search that succeeds goes on succeeding, and a valid piece found is still found. */
  lemma {:induction false} SearchAfterInsertion(more: seq<Evidence>, evidences: seq<Evidence>, o: Obligation, asOf: int)
    requires Inserts(more, evidences) && Search(evidences, o, asOf).Ok?
    ensures Search(more, o, asOf).Ok? && (Search(evidences, o, asOf).value ==> Search(more, o, asOf).value)
  {
    hide EvidenceError;
    if more != [] {
      if evidences != [] && more[0] == evidences[0] && Inserts(more[1..], evidences[1..]) {
        if Search(evidences[1..], o, asOf).Ok? {
          SearchAfterInsertion(more[1..], evidences[1..], o, asOf);
        }
      } else {
        SearchAfterInsertion(more[1..], evidences, o, asOf);
      }
    }
  }

  /**
   A head that keeps the obligations of the base and puts in well-formed evidence anywhere derives a status for all of
   them and is blocked by none, whatever was malformed in the base already and whatever new obligations do.
   */
  lemma {:induction false} AdditiveHeadPasses(base: Snapshot, head: Snapshot, asOf: Stamp)
    requires Derives(base, asOf) && Inserts(head.evidences, base.evidences)
    requires forall uid :: uid in base.obligations ==>
               uid in head.obligations && head.obligations[uid] == base.obligations[uid]
    ensures forall uid :: uid in base.obligations ==>
              StatusAt(head, uid, asOf).Ok? && Blocks(base, head, asOf, uid).None?
    ensures Derives(head, asOf) ==> Passes(base, head, asOf)
  {
    hide EvidenceError, Search, Inserts;
    forall uid | uid in base.obligations ensures StatusAt(head, uid, asOf).Ok? && Blocks(base, head, asOf, uid).None? {
      var o := base.obligations[uid];
      assert StatusAt(base, uid, asOf).Ok?;
      if Assess(o) == Ok(None) {
        SearchAfterInsertion(head.evidences, base.evidences, o, asOf.instant);
      }
    }
  }

  /** The evidence of the base may also be reordered, as long as no piece of the head is malformed. */
  lemma {:induction false} ReorderedHeadPasses(base: Snapshot, head: Snapshot, asOf: Stamp)
    requires Derives(base, asOf) && Derives(head, asOf)
    requires forall uid :: uid in base.obligations ==>
               uid in head.obligations && head.obligations[uid] == base.obligations[uid]
    requires Extends(head.evidences, base.evidences)
    requires forall e :: e in head.evidences ==> WellFormed(e)
    ensures Passes(base, head, asOf)
  {
    hide EvidenceError, DeriveStatus;
    forall uid | uid in base.obligations ensures Blocks(base, head, asOf, uid).None? {
      DerivationMonotone(base.obligations[uid], asOf, base.evidences, head.evidences);
    }
  }

  /**
   Why the instant is frozen: one and the same obligation, with one and the same evidence, regresses when its evidence
   expires between two instants.
   */
  lemma {:induction false} MovingClockRegresses(o: Obligation, e: Evidence)
    requires Assess(o) == Ok(None) && e.normUid == o.uid && WellFormed(e) && e.validUntil.Some?
    ensures var t := e.validUntil.value.instant;
            && DeriveStatus(o, Utc(t), [e]) == Ok(Evidenciado) && DeriveStatus(o, Utc(t + 1), [e]) == Ok(Implementado)
            && TransitionRegression(Evidenciado, Implementado) == Some(RegressaoDeStatus)
  {
    hide Assess;
    var t := e.validUntil.value.instant;
    assert Search([], o, t + 1) == Ok(false);
    assert [e][1..] == [];
  }
}
