/**
 Admission of repeated owner commands. Every event decides on its own from a read of the comment list; that exactly one
 command of every burst is admitted is a property of all those decisions together.
 */
module Admission {
  import opened Prelude

  const OWNER := "ericson-j-santos"
  const ISSUE_NUMBER := 1705
  const ALLOWLISTED := {
    "/reqsys run pc24x7-teams-e2e-dev",
    "/reqsys run pc24x7-worker-pool-candidate-canary-dev",
    "/reqsys run pc24x7-worker-pool-real-restore-dev",
    "/reqsys run pc24x7-dev-deploy-check"
  }

  /** A `created_at` value as the parser sees it; instants count seconds. */
  datatype Stamp = At(instant: int) | Absent | Unparsable | WithoutZone

  datatype Comment = Comment(id: Option<int>, createdAt: Stamp, body: string, login: string)

  datatype Event = Event(action: string, issue: Option<int>, comment: Option<Comment>)

  /** A line of the comment list: an object, or some other JSON value. */
  datatype Record = Record(id: Option<int>, createdAt: Stamp, login: string) | NotAnObject

  datatype Error =
    | ExpectedMainShaInvalid | DuplicateWindowInvalid | CommandNotAllowlistedAtAll | UnexpectedAction
    | IssueNotAllowlisted | CommentMissing | AuthorNotAllowlisted | CommandNotAllowlisted | CommentIdInvalid
    | TimestampMissing | TimestampInvalid | TimestampWithoutTimezone
    | RecordInvalid | RecordIdInvalid | RecordAuthorInvalid | TimestampMismatch | NotUniquelyReadBack

  datatype Decision = Decision(admitted: bool, canonicalId: int, eventId: int)

  predicate Hex40(sha: string) {
    |sha| == 40 && forall k :: 0 <= k < |sha| ==> '0' <= sha[k] <= '9' || 'a' <= sha[k] <= 'f'
  }

  function StampError(s: Stamp): Option<Error> {
    match s
    case At(_) => None
    case Absent => Some(TimestampMissing)
    case Unparsable => Some(TimestampInvalid)
    case WithoutZone => Some(TimestampWithoutTimezone)
  }

  predicate PositiveId(id: Option<int>) {
    id.Some? && id.value > 0
  }

  /** The first reason to refuse the event itself. */
  function EventError(event: Event, sha: string, window: int, command: string): Option<Error> {
    if !Hex40(sha) then Some(ExpectedMainShaInvalid)
    else if window <= 0 then Some(DuplicateWindowInvalid)
    else if command !in ALLOWLISTED then Some(CommandNotAllowlistedAtAll)
    else if event.action != "created" then Some(UnexpectedAction)
    else if event.issue != Some(ISSUE_NUMBER) then Some(IssueNotAllowlisted)
    else if event.comment.None? then Some(CommentMissing)
    else if event.comment.value.login != OWNER then Some(AuthorNotAllowlisted)
    else if event.comment.value.body != command then Some(CommandNotAllowlisted)
    else if !PositiveId(event.comment.value.id) then Some(CommentIdInvalid)
    else StampError(event.comment.value.createdAt)
  }

  /** The first reason to refuse one line of the comment list. */
  function RecordError(c: Record, eventId: int, eventAt: int): Option<Error> {
    if c.NotAnObject? then Some(RecordInvalid)
    else if !PositiveId(c.id) then Some(RecordIdInvalid)
    else if StampError(c.createdAt).Some? then StampError(c.createdAt)
    else if c.login != OWNER then Some(RecordAuthorInvalid)
    else if c.id.value == eventId && c.createdAt.instant != eventAt then Some(TimestampMismatch)
    else None
  }

  /** The refusal of the first line that is refused. */
  function FirstRecordError(comments: seq<Record>, eventId: int, eventAt: int): (e: Option<Error>)
    ensures e.None? <==> forall c :: c in comments ==> RecordError(c, eventId, eventAt).None?
  {
    if comments == [] then None
    else
      assert comments == [comments[0]] + comments[1..];
      if RecordError(comments[0], eventId, eventAt).Some? then RecordError(comments[0], eventId, eventAt)
      else FirstRecordError(comments[1..], eventId, eventAt)
  }

  lemma {:induction false} FirstRefusedLine(comments: seq<Record>, eventId: int, eventAt: int)
    requires FirstRecordError(comments, eventId, eventAt).Some?
    ensures exists k :: 0 <= k < |comments|
                        && RecordError(comments[k], eventId, eventAt) == FirstRecordError(comments, eventId, eventAt)
                        && forall j :: 0 <= j < k ==> RecordError(comments[j], eventId, eventAt).None?
  {
    hide RecordError;
    if RecordError(comments[0], eventId, eventAt).None? {
      FirstRefusedLine(comments[1..], eventId, eventAt);
      var k :| 0 <= k < |comments| - 1
               && RecordError(comments[1..][k], eventId, eventAt) == FirstRecordError(comments, eventId, eventAt)
               && forall j :: 0 <= j < k ==> RecordError(comments[1..][j], eventId, eventAt).None?;
      assert comments[k + 1] == comments[1..][k];
      assert forall j :: 0 < j < k + 1 ==> comments[j] == comments[1..][j - 1];
    }
  }

  ghost predicate IsLowerHex(sha: string, length: nat) {
    |sha| == length && forall k :: 0 <= k < |sha| ==> sha[k] in "0123456789abcdef"
  }

  /**
   An event is considered exactly when it is an owner's allowlisted command, freshly posted on the one issue; otherwise
   the reason given is that of the first check that fails.
   */
  lemma {:induction false} EventAcceptedExactly(event: Event, sha: string, window: int, command: string)
    ensures var e, c := EventError(event, sha, window, command), event.comment;
            var listed := command in {"/reqsys run pc24x7-teams-e2e-dev",
                                      "/reqsys run pc24x7-worker-pool-candidate-canary-dev",
                                      "/reqsys run pc24x7-worker-pool-real-restore-dev",
                                      "/reqsys run pc24x7-dev-deploy-check"};
            var asked := IsLowerHex(sha, 40) && window > 0 && listed;
            var posted := asked && event.action == "created" && event.issue == Some(1705);
            var ours := posted && c.Some? && c.value.login == "ericson-j-santos" && c.value.body == command;
            var numbered := ours && c.value.id.Some? && c.value.id.value > 0;
            && (e.None? <==> numbered && c.value.createdAt.At?)
            && (e == Some(ExpectedMainShaInvalid) <==> !IsLowerHex(sha, 40))
            && (e == Some(DuplicateWindowInvalid) <==> IsLowerHex(sha, 40) && window <= 0)
            && (e == Some(CommandNotAllowlistedAtAll) <==> IsLowerHex(sha, 40) && window > 0 && !listed)
            && (e == Some(UnexpectedAction) <==> asked && event.action != "created")
            && (e == Some(IssueNotAllowlisted) <==> asked && event.action == "created" && event.issue != Some(1705))
            && (e == Some(CommentMissing) <==> posted && c.None?)
            && (e == Some(AuthorNotAllowlisted) <==> posted && c.Some? && c.value.login != "ericson-j-santos")
            && (e == Some(CommandNotAllowlisted) <==>
                posted && c.Some? && c.value.login == "ericson-j-santos" && c.value.body != command)
            && (e == Some(CommentIdInvalid) <==> ours && !numbered)
            && (e == Some(TimestampMissing) <==> numbered && c.value.createdAt.Absent?)
            && (e == Some(TimestampInvalid) <==> numbered && c.value.createdAt.Unparsable?)
            && (e == Some(TimestampWithoutTimezone) <==> numbered && c.value.createdAt.WithoutZone?)
  {
    hide Hex40, IsLowerHex;
    HexMeaning(sha);
  }

  lemma HexMeaning(sha: string)
    ensures Hex40(sha) <==> IsLowerHex(sha, 40)
  {
    assert forall c: char :: c in "0123456789abcdef" <==> '0' <= c <= '9' || 'a' <= c <= 'f' by {
      forall c: char | '0' <= c <= '9' ensures c in "0123456789" {
        assert "0123456789"[c as int - '0' as int] == c;
      }
      forall c: char | 'a' <= c <= 'f' ensures c in "abcdef" {
        assert "abcdef"[c as int - 'a' as int] == c;
      }
      assert "0123456789abcdef" == "0123456789" + "abcdef";
    }
  }

  /** The one check that a line fails, when all earlier ones pass. */
  lemma LineRefusedExactly(c: Record, eventId: int, eventAt: int)
    ensures var e := RecordError(c, eventId, eventAt);
            var numbered := c.Record? && c.id.Some? && c.id.value > 0;
            var dated := numbered && c.createdAt.At?;
            && (e == Some(RecordInvalid) <==> !c.Record?)
            && (e == Some(RecordIdInvalid) <==> c.Record? && !numbered)
            && (e == Some(TimestampMissing) <==> numbered && c.createdAt == Absent)
            && (e == Some(TimestampInvalid) <==> numbered && c.createdAt == Unparsable)
            && (e == Some(TimestampWithoutTimezone) <==> numbered && c.createdAt == WithoutZone)
            && (e == Some(RecordAuthorInvalid) <==> dated && c.login != "ericson-j-santos")
            && (e == Some(TimestampMismatch) <==>
                dated && c.login == "ericson-j-santos" && c.id == Some(eventId) && c.createdAt != At(eventAt))
            && (e.None? <==>
                && dated && c.login == "ericson-j-santos" && (c.id == Some(eventId) ==> c.createdAt == At(eventAt)))
  {
  }

  /** A read is usable exactly when every line is an owner's dated comment, and the event's own carries its instant. */
  lemma ReadAcceptedExactly(comments: seq<Record>, eventId: int, eventAt: int)
    ensures FirstRecordError(comments, eventId, eventAt).None? <==>
            forall c :: c in comments ==>
              && c.Record? && c.id.Some? && c.id.value > 0 && c.createdAt.At? && c.login == "ericson-j-santos"
              && (c.id == Some(eventId) ==> c.createdAt == At(eventAt))
  {
    forall c { LineRefusedExactly(c, eventId, eventAt); }
  }

  predicate HasId(c: Record, id: int) {
    c.Record? && c.id == Some(id)
  }

  /** An earlier comment close enough to suppress the event. */
  predicate Suppresses(c: Record, eventId: int, eventAt: int, window: int) {
    c.Record? && c.id.Some? && c.createdAt.At?
    && c.id.value < eventId && 0 <= eventAt - c.createdAt.instant <= window
  }

  function CountId(comments: seq<Record>, id: int): nat {
    if comments == [] then 0
    else CountId(comments[..|comments| - 1], id) + if HasId(comments[|comments| - 1], id) then 1 else 0
  }

  /** The suppressing ids in list order. */
  function OlderIds(comments: seq<Record>, eventId: int, eventAt: int, window: int): seq<int> {
    if comments == [] then []
    else
      var c := comments[|comments| - 1];
      OlderIds(comments[..|comments| - 1], eventId, eventAt, window)
      + if Suppresses(c, eventId, eventAt, window) then [c.id.value] else []
  }

  predicate Numbered(comments: seq<Record>, k: int, id: int) {
    0 <= k < |comments| && comments[k].Record? && comments[k].id == Some(id)
  }

  /** Line `k` and no other carries the id. */
  ghost predicate OnlyAt(comments: seq<Record>, k: int, id: int) {
    Numbered(comments, k, id) && forall j :: Numbered(comments, j, id) ==> j == k
  }

  /** Counting to one is finding the id on exactly one line. */
  lemma {:induction false} CountedOnceExactly(comments: seq<Record>, id: int)
    ensures CountId(comments, id) == 0 <==> forall k :: !Numbered(comments, k, id)
    ensures CountId(comments, id) == 1 <==> exists k :: OnlyAt(comments, k, id)
  {
    if comments != [] {
      var n := |comments| - 1;
      var front := comments[..n];
      CountedOnceExactly(front, id);
      assert forall k :: Numbered(comments, k, id) <==> Numbered(front, k, id) || (k == n && HasId(comments[n], id));
      if HasId(comments[n], id) {
        assert Numbered(comments, n, id);
        if CountId(front, id) == 0 {
          assert OnlyAt(comments, n, id);
        }
      } else {
        forall k ensures OnlyAt(comments, k, id) <==> OnlyAt(front, k, id) {}
      }
    }
  }

  ghost predicate SuppressedBy(comments: seq<Record>, eventId: int, eventAt: int, window: int, id: int) {
    exists c :: c in comments && Suppresses(c, eventId, eventAt, window) && c.id.value == id
  }

  lemma {:induction false} OlderIdsMeaning(comments: seq<Record>, eventId: int, eventAt: int, window: int)
    ensures forall id :: id in OlderIds(comments, eventId, eventAt, window) <==>
                         SuppressedBy(comments, eventId, eventAt, window, id)
  {
    if comments != [] {
      var front, last := comments[..|comments| - 1], comments[|comments| - 1];
      OlderIdsMeaning(front, eventId, eventAt, window);
      assert comments == front + [last];
      forall id
        ensures SuppressedBy(comments, eventId, eventAt, window, id) <==>
                SuppressedBy(front, eventId, eventAt, window, id)
                || (Suppresses(last, eventId, eventAt, window) && last.id.value == id)
      {
        if Suppresses(last, eventId, eventAt, window) && last.id.value == id {
          assert last in comments;
        }
        if SuppressedBy(front, eventId, eventAt, window, id) {
          var c :| c in front && Suppresses(c, eventId, eventAt, window) && c.id.value == id;
          assert c in comments;
        }
      }
    }
  }

  function Min(xs: seq<int>): (m: int)
    requires xs != []
    ensures m in xs && forall x :: x in xs ==> m <= x
  {
    assert xs == [xs[0]] + xs[1..];
    if |xs| == 1 then xs[0]
    else
      var m := Min(xs[1..]);
      if xs[0] <= m then xs[0] else m
  }

  /** The decision as a function of the event and the comments read. */
  function Verdict(event: Event, comments: seq<Record>, sha: string, window: int, command: string)
    : Result<Decision, Error>
  {
    if EventError(event, sha, window, command).Some? then Err(EventError(event, sha, window, command).value)
    else
      var id, at := event.comment.value.id.value, event.comment.value.createdAt.instant;
      if FirstRecordError(comments, id, at).Some? then Err(FirstRecordError(comments, id, at).value)
      else if CountId(comments, id) != 1 then Err(NotUniquelyReadBack)
      else
        var older := OlderIds(comments, id, at, window);
        Ok(Decision(older == [], if older == [] then id else Min(older), id))
  }

  /** The ids of the lines below `eventId` dated at most `window` seconds before `eventAt`, and not after it. */
  function ClosePredecessors(comments: seq<Record>, eventId: int, eventAt: int, window: int): set<int> {
    set c | c in comments && c.Record? && c.id.Some? && c.createdAt.At? && c.id.value < eventId
            && c.createdAt.instant <= eventAt <= c.createdAt.instant + window :: c.id.value
  }

  /**
   What a decision says: for an accepted event and an accepted list there is one exactly when the event's id stands on
   exactly one line; it admits exactly when no line of a smaller id lies within the window before the event, and names
   the smallest of those ids, or the event's own.
   */
  lemma {:induction false} VerdictExactly(event: Event, comments: seq<Record>, sha: string, window: int,
                                         command: string)
    requires EventError(event, sha, window, command).None?
    requires FirstRecordError(comments, event.comment.value.id.value, event.comment.value.createdAt.instant).None?
    ensures var id, at := event.comment.value.id.value, event.comment.value.createdAt.instant;
            var r, close := Verdict(event, comments, sha, window, command), ClosePredecessors(comments, id, at, window);
            && (r.Ok? <==> exists k :: OnlyAt(comments, k, id))
            && (r.Err? ==> r.error == NotUniquelyReadBack)
            && (r.Ok? ==>
                  && r.value.eventId == id && (r.value.admitted <==> close == {})
                  && (if close == {} then r.value.canonicalId == id
                      else r.value.canonicalId in close && forall x :: x in close ==> r.value.canonicalId <= x))
  {
    hide Hex40, FirstRecordError, OnlyAt;
    var id, at := event.comment.value.id.value, event.comment.value.createdAt.instant;
    CountedOnceExactly(comments, id);
    OlderIdsMeaning(comments, id, at, window);
    var older, close := OlderIds(comments, id, at, window), ClosePredecessors(comments, id, at, window);
    forall x ensures x in close <==> SuppressedBy(comments, id, at, window, x) {
      if x in close {
        var c :| c in comments && c.Record? && c.id == Some(x) && c.createdAt.At? && c.id.value < id
                 && c.createdAt.instant <= at <= c.createdAt.instant + window;
        assert Suppresses(c, id, at, window);
      }
    }
    assert forall x :: x in older <==> x in close;
    assert older != [] ==> older[0] in older;
  }

  method Decide(event: Event, comments: seq<Record>, sha: string, window: int, command: string)
    returns (r: Result<Decision, Error>)
    ensures r == Verdict(event, comments, sha, window, command)
  {
    if EventError(event, sha, window, command).Some? {
      return Err(EventError(event, sha, window, command).value);
    }
    var eventId, eventAt := event.comment.value.id.value, event.comment.value.createdAt.instant;
    var seenCurrent := 0;
    var older: seq<int> := [];
    for k := 0 to |comments|
      invariant FirstRecordError(comments, eventId, eventAt) == FirstRecordError(comments[k..], eventId, eventAt)
      invariant seenCurrent == CountId(comments[..k], eventId)
      invariant older == OlderIds(comments[..k], eventId, eventAt, window)
    {
      var candidate := comments[k];
      assert comments[..k + 1][..k] == comments[..k];
      assert comments[k..][1..] == comments[k + 1..];
      if RecordError(candidate, eventId, eventAt).Some? {
        return Err(RecordError(candidate, eventId, eventAt).value);
      }
      if candidate.id.value == eventId {
        seenCurrent := seenCurrent + 1;
        continue;
      }
      var delta := eventAt - candidate.createdAt.instant;
      if candidate.id.value < eventId && 0 <= delta <= window {
        older := older + [candidate.id.value];
      }
    }
    assert comments[..|comments|] == comments;
    if seenCurrent != 1 {
      return Err(NotUniquelyReadBack);
    }
    var canonicalId := if older != [] then Min(older) else eventId;
    r := Ok(Decision(older == [], canonicalId, eventId));
  }

  // ---------------------------------------------------------------- all decisions of a log together

  /** An authorised command as GitHub numbered and stamped it. */
  datatype Entry = Entry(id: int, at: int)

  /** Ids grow, and time does not run backwards along them. */
  ghost predicate Ordered(log: seq<Entry>) {
    && (forall j, k :: 0 <= j < k < |log| ==> log[j].id < log[k].id)
    && (forall j, k :: 0 <= j < k < |log| ==> log[j].at <= log[k].at)
  }

  function AsRecord(e: Entry): Record { Record(Some(e.id), At(e.at), OWNER) }

  /** A read made for entry `i`: every entry so far, in any order, and any later commands whatsoever. */
  ghost predicate ReadFor(log: seq<Entry>, i: nat, comments: seq<Record>)
    requires i < |log|
  {
    && (forall j :: 0 <= j <= i ==> AsRecord(log[j]) in comments)
    && (forall c :: c in comments ==>
          (c.Record? && c.id.Some? && c.id.value > log[i].id) || exists j :: 0 <= j <= i && c == AsRecord(log[j]))
  }

  /** The log up to entry `i` with any later comments, in any order and with any repetitions, is such a read. */
  lemma LaterCommentsAreAllowed(log: seq<Entry>, i: nat, later: seq<Record>, comments: seq<Record>)
    requires i < |log| && forall c :: c in later ==> c.Record? && c.id.Some? && c.id.value > log[i].id
    requires forall c :: c in comments <==> c in later || exists j :: 0 <= j <= i && c == AsRecord(log[j])
    ensures ReadFor(log, i, comments)
  {
  }

  /** Two commands of one second are ordered by their ids. */
  lemma SameSecondIsOrdered(id: int, at: int)
    ensures Ordered([Entry(id, at), Entry(id + 1, at)]) && !Ordered([Entry(id, at), Entry(id, at)])
  {
    assert [Entry(id, at), Entry(id, at)][0].id == [Entry(id, at), Entry(id, at)][1].id;
  }

  /** The first entry within the window before entry `i`. */
  function Canonical(log: seq<Entry>, w: int, i: nat): (c: nat)
    requires i < |log| && w >= 0
    ensures c <= i && log[i].at - log[c].at <= w
    ensures c > 0 ==> log[i].at - log[c - 1].at > w || log[c - 1].at > log[c].at
  {
    CanonicalFrom(log, w, i, i)
  }

  function CanonicalFrom(log: seq<Entry>, w: int, i: nat, j: nat): (c: nat)
    requires j <= i < |log| && log[i].at - log[j].at <= w
    ensures c <= j && log[i].at - log[c].at <= w
    ensures c > 0 ==> log[i].at - log[c - 1].at > w || log[c - 1].at > log[c].at
    decreases j
  {
    if j > 0 && log[i].at - log[j - 1].at <= w then CanonicalFrom(log, w, i, j - 1) else j
  }

  /** The head of entry `i`'s burst: walk back while consecutive gaps stay within the window. */
  function BurstHead(log: seq<Entry>, w: int, i: nat): (h: nat)
    requires i < |log|
    ensures h <= i
  {
    if i > 0 && log[i].at - log[i - 1].at <= w then BurstHead(log, w, i - 1) else i
  }

  /** Following canonical ids from entry `i` until one points at itself. */
  function Follow(log: seq<Entry>, w: int, i: nat): (h: nat)
    requires i < |log| && w >= 0
    ensures h <= i
  {
    var c := Canonical(log, w, i);
    if c == i then i else Follow(log, w, c)
  }

  /** The entries within the window before `i` are the ones from the canonical entry on. */
  lemma WindowIsSuffix(log: seq<Entry>, w: int, i: nat, j: nat)
    requires Ordered(log) && w >= 0 && j <= i < |log|
    ensures log[i].at - log[j].at <= w <==> Canonical(log, w, i) <= j
  {
    var c := Canonical(log, w, i);
    if j < c {
      assert log[j].at <= log[c - 1].at;
    } else if c < j {
      assert log[c].at <= log[j].at;
    }
  }

  /** `c` stands in the list with id `x`, below `eventId` and close enough before it. */
  predicate IsClose(comments: seq<Record>, c: Record, x: int, eventId: int, eventAt: int, window: int) {
    && c in comments && c.Record? && c.id == Some(x) && c.createdAt.At?
    && x < eventId && c.createdAt.instant <= eventAt <= c.createdAt.instant + window
  }

  lemma CloseMeaning(comments: seq<Record>, eventId: int, eventAt: int, window: int, x: int)
    ensures x in ClosePredecessors(comments, eventId, eventAt, window) <==>
            exists c :: IsClose(comments, c, x, eventId, eventAt, window)
  {
    if x in ClosePredecessors(comments, eventId, eventAt, window) {
      var c :| c in comments && c.Record? && c.id.Some? && c.createdAt.At? && c.id.value < eventId
               && c.createdAt.instant <= eventAt <= c.createdAt.instant + window && c.id.value == x;
      assert IsClose(comments, c, x, eventId, eventAt, window);
    }
  }

  /** In a read for entry `i`, the entries from the canonical one up to `i` are the close predecessors. */
  lemma {:induction false} CloseEntries(log: seq<Entry>, w: int, i: nat, comments: seq<Record>, x: int)
    requires Ordered(log) && w > 0 && i < |log| && ReadFor(log, i, comments)
    ensures x in ClosePredecessors(comments, log[i].id, log[i].at, w) <==>
            exists j :: Canonical(log, w, i) <= j < i && log[j].id == x
  {
    hide ClosePredecessors;
    CloseMeaning(comments, log[i].id, log[i].at, w, x);
    if c :| IsClose(comments, c, x, log[i].id, log[i].at, w) {
      var j :| 0 <= j <= i && c == AsRecord(log[j]);
      WindowIsSuffix(log, w, i, j);
    }
    if j :| Canonical(log, w, i) <= j < i && log[j].id == x {
      WindowIsSuffix(log, w, i, j);
      assert log[j].at <= log[i].at;
      assert IsClose(comments, AsRecord(log[j]), x, log[i].id, log[i].at, w);
    }
  }

  /** A fresh comment event for entry `i` that the checks before the comment list let through. */
  predicate EventFor(event: Event, sha: string, w: int, command: string, e: Entry) {
    && EventError(event, sha, w, command).None?
    && event.comment.value.id == Some(e.id) && event.comment.value.createdAt == At(e.at)
  }

  /**
   The gate decides every entry of a log, and decides it the same from every read that holds the entry once: admitted
   exactly when `i` heads its burst, with the first entry inside the window as canonical id. List order, repetitions of
   other lines and later comments make no difference.
   */
  lemma {:induction false} DecisionFromAnyRead(log: seq<Entry>, w: int, i: nat, comments: seq<Record>, event: Event,
                                              sha: string, command: string)
    requires Ordered(log) && w > 0 && i < |log| && log[0].id > 0
    requires ReadFor(log, i, comments) && (exists k :: OnlyAt(comments, k, log[i].id))
    requires forall c :: c in comments ==> c.Record? && c.createdAt.At? && c.login == OWNER
    requires EventFor(event, sha, w, command, log[i])
    ensures Verdict(event, comments, sha, w, command) ==
            Ok(Decision(BurstHead(log, w, i) == i, log[Canonical(log, w, i)].id, log[i].id))
  {
    hide EventError, ReadFor, OnlyAt, ClosePredecessors, Verdict;
    var c, close := Canonical(log, w, i), ClosePredecessors(comments, log[i].id, log[i].at, w);
    ReadIsAccepted(log, i, comments);
    VerdictExactly(event, comments, sha, w, command);
    forall x ensures x in close <==> exists j :: c <= j < i && log[j].id == x {
      CloseEntries(log, w, i, comments, x);
    }
    CanonicalInBurst(log, w, i);
    if c < i {
      assert log[c].id in close;
    }
  }

  /** A read for entry `i` passes every check on its lines. */
  lemma ReadIsAccepted(log: seq<Entry>, i: nat, comments: seq<Record>)
    requires Ordered(log) && i < |log| && ReadFor(log, i, comments)
    requires log[0].id > 0
    requires forall c :: c in comments ==> c.Record? && c.createdAt.At? && c.login == OWNER
    ensures FirstRecordError(comments, log[i].id, log[i].at).None?
  {
    forall c | c in comments ensures RecordError(c, log[i].id, log[i].at).None? {
      if c.id.value <= log[i].id {
        var j :| 0 <= j <= i && c == AsRecord(log[j]);
        assert log[0].id <= log[j].id;
      }
    }
  }

  /** Bursts are intervals with one head: between a head and its member every entry has that head. */
  lemma {:induction false} BurstIsInterval(log: seq<Entry>, w: int, i: nat, j: nat)
    requires i < |log| && BurstHead(log, w, i) <= j <= i
    ensures BurstHead(log, w, j) == BurstHead(log, w, i)
  {
    if j < i {
      BurstIsInterval(log, w, i - 1, j);
    }
  }

  /** Exactly one admission per burst: its head is admitted and no other member is. */
  lemma OneAdmissionPerBurst(log: seq<Entry>, w: int, i: nat)
    requires i < |log|
    ensures var h := BurstHead(log, w, i);
            BurstHead(log, w, h) == h && forall j :: h < j <= i ==> BurstHead(log, w, j) != j
  {
    var h := BurstHead(log, w, i);
    BurstIsInterval(log, w, i, h);
    forall j | h < j <= i ensures BurstHead(log, w, j) != j {
      BurstIsInterval(log, w, i, j);
    }
  }

  /** Any two admitted commands are more than the window apart. */
  lemma AdmissionsFarApart(log: seq<Entry>, w: int, i: nat, j: nat)
    requires Ordered(log) && i < j < |log|
    requires BurstHead(log, w, i) == i && BurstHead(log, w, j) == j
    ensures log[j].at - log[i].at > w
  {
    assert log[i].at <= log[j - 1].at;
  }

  /** Everything before the head of the burst is out of the window. */
  lemma BeforeBurst(log: seq<Entry>, w: int, i: nat, j: nat)
    requires Ordered(log) && i < |log| && j < BurstHead(log, w, i)
    ensures log[i].at - log[j].at > w
  {
    var h := BurstHead(log, w, i);
    OneAdmissionPerBurst(log, w, i);
    assert log[j].at <= log[h - 1].at;
    assert h < i ==> log[h].at <= log[i].at;
  }

  lemma CanonicalInBurst(log: seq<Entry>, w: int, i: nat)
    requires Ordered(log) && w >= 0 && i < |log|
    ensures BurstHead(log, w, i) <= Canonical(log, w, i)
    ensures Canonical(log, w, i) == i <==> BurstHead(log, w, i) == i
  {
    var h, c := BurstHead(log, w, i), Canonical(log, w, i);
    if c < h {
      BeforeBurst(log, w, i, c);
    }
    if i > 0 {
      WindowIsSuffix(log, w, i, i - 1);
    }
  }

  /** Following canonical ids always ends at the admitted head of the burst. */
  lemma {:induction false} FollowEndsAtHead(log: seq<Entry>, w: int, i: nat)
    requires Ordered(log) && w >= 0 && i < |log|
    ensures Follow(log, w, i) == BurstHead(log, w, i)
  {
    var c := Canonical(log, w, i);
    CanonicalInBurst(log, w, i);
    if c < i {
      FollowEndsAtHead(log, w, c);
      BurstIsInterval(log, w, i, c);
    }
  }

  /**
   The canonical id need not belong to an admitted command: it does exactly when the head of the burst is itself
   within the window.
   */
  lemma CanonicalAdmittedExactly(log: seq<Entry>, w: int, i: nat)
    requires Ordered(log) && w >= 0 && i < |log|
    ensures var c, h := Canonical(log, w, i), BurstHead(log, w, i);
            BurstHead(log, w, c) == c <==> log[i].at - log[h].at <= w
  {
    CanonicalInBurst(log, w, i);
    BurstIsInterval(log, w, i, Canonical(log, w, i));
    WindowIsSuffix(log, w, i, BurstHead(log, w, i));
  }

  /** Three commands a hundred seconds apart with a window of 120: the third names the second, which was suppressed. */
  lemma CanonicalMayBeSuppressed()
    ensures var log := [Entry(1, 0), Entry(2, 100), Entry(3, 200)];
            Ordered(log) && Canonical(log, 120, 2) == 1 && BurstHead(log, 120, 1) == 0
  {
    var log := [Entry(1, 0), Entry(2, 100), Entry(3, 200)];
    WindowIsSuffix(log, 120, 2, 1);
    WindowIsSuffix(log, 120, 2, 0);
  }
}
