/** Recording verdicts and announcing changes: one row per deployment holds the latest verdict, and at
    most one notification per deployment waits to be sent. */
module Notifications {
  import opened Core
  import opened DecimalText
  import opened Comparison
  import opened Tables
  import opened Store
  import opened Operation

  // A change is announced, and so is a first verdict, but not that a NotFound has become a Match.
  predicate Announceable(before: Option<ResultType>, now: ResultType) {
    before.None? || (before.value != now && !(before.value == NotFound && now == Match))
  }

  // The text a comparison result is shown as
  function Shown(r: ComparisonResult): string {
    var about := "deployment " + r.deployment + " at block " + Render(r.blockNumber);
    if r.resultType == NotFound then
      var missing := if r.localAttestation.None? then " for local attestation: " else " for remote attestations: ";
      TypeName(NotFound) + missing + about
    else TypeName(r.resultType) + ": " + about
  }

  function NoteOf(r: ComparisonResult): Notification {
    Notification(r.deployment, Shown(r))
  }

  // The recorded verdict of a deployment, as far as it can be read back
  function Recorded(t: Tables, deployment: string): Option<ResultType> {
    if deployment in t.results then ParseType(t.results[deployment].resultType) else None
  }

  predicate Readable(t: Tables, deployment: string) {
    deployment in t.results ==> ParseType(t.results[deployment].resultType).Some?
  }

  // The verdict is recorded first; a notification that is refused does not undo that.
  function Handled(t: Tables, r: ComparisonResult): (Tables, Result<ResultType, DatabaseError>) {
    if !Readable(t, r.deployment) then (t, Err(ParseError))
    else
      var saved := t.(results := t.results[r.deployment := RowOf(r)]);
      if !Announceable(Recorded(t, r.deployment), r.resultType) then (saved, Ok(r.resultType))
      else if Pending(t.notifications, r.deployment) then (saved, Err(UniqueViolation))
      else (saved.(notifications := t.notifications + [NoteOf(r)]), Ok(r.resultType))
  }

  method HandleComparisonResult(db: Database, r: ComparisonResult) returns (result: Result<ResultType, DatabaseError>)
    modifies db`results, db`notifications
    ensures (db.Contents(), result) == Handled(old(db.Contents()), r)
    ensures match ReadResult(old(db.results), r.deployment)
            case Err(e) => result == Err(e) && db.Contents() == old(db.Contents())
            case Ok(recorded) =>
              var news := recorded.None? || (recorded.value.resultType != r.resultType
                                             && !(recorded.value.resultType == NotFound && r.resultType == Match));
              var taken := exists n :: n in old(db.notifications) && n.deployment == r.deployment;
              && db.results == old(db.results)[r.deployment := RowOf(r)]
              && db.notifications == old(db.notifications)
                   + (if news && !taken then [Notification(r.deployment, Shown(r))] else [])
              && result == if news && taken then Err(UniqueViolation) else Ok(r.resultType)
  {
    var existing := db.GetComparisonResultByDeployment(r.deployment);
    if existing.Err? {
      return Err(existing.error);
    }
    var current := existing.value;
    var isStateChanged := current.None? || current.value.resultType != r.resultType;
    var isNotFoundToMatch := r.resultType == Match && current.Some? && current.value.resultType == NotFound;
    var rowsUpdated := db.SaveComparisonResult(r);
    var shouldNotify := rowsUpdated > 0 && isStateChanged && !isNotFoundToMatch;
    if shouldNotify {
      var created := db.CreateNotification(NoteOf(r));
      if created.Err? {
        return Err(created.error);
      }
    }
    result := Ok(r.resultType);
  }

  // ---------- a batch of results, and what is sent out ----------

  datatype Mode = PeriodicReport | PeriodicUpdate | Live

  function Successes(os: seq<Outcome>): seq<ComparisonResult> {
    if os == [] then []
    else
      var before := Successes(os[..|os| - 1]);
      if os[|os| - 1].Ok? then before + [os[|os| - 1].value] else before
  }

  /** They are all successes of the batch, in order. */
  lemma {:induction false} SuccessesExact(os: seq<Outcome>)
    ensures var oks := Filter((o: Outcome) => o.Ok?, os);
            |oks| == |Successes(os)| && forall k :: 0 <= k < |oks| ==> oks[k] == Ok(Successes(os)[k])
  {
    if os != [] {
      SuccessesExact(os[..|os| - 1]);
    }
  }

  function HandledAll(t: Tables, rs: seq<ComparisonResult>): Tables {
    if rs == [] then t else Handled(HandledAll(t, rs[..|rs| - 1]), rs[|rs| - 1]).0
  }

  // Everything that is pending is sent and forgotten.
  function Flushed(t: Tables): Tables {
    t.(notifications := [])
  }

  // Returns what is sent to the operator: in Live mode, everything pending.
  method ProcessComparisonResults(db: Database, results: seq<Outcome>, mode: Mode) returns (sent: seq<Notification>)
    modifies db`results, db`notifications
    ensures var t := HandledAll(old(db.Contents()), Successes(results));
            if mode.Live? then db.Contents() == Flushed(t) && sent == t.notifications
            else db.Contents() == t && sent == []
  {
    ghost var t := db.Contents();
    for i := 0 to |results|
      invariant db.Contents() == HandledAll(t, Successes(results[..i]))
    {
      PrefixSnoc(results, i);
      SuccessesSnoc(results[..i], results[i]);
      if results[i].Ok? {
        HandledSnoc(t, Successes(results[..i]), results[i].value);
        var _ := HandleComparisonResult(db, results[i].value);
      }
    }
    assert results[..|results|] == results;
    sent := [];
    if mode == Live && db.notifications != [] {
      sent := db.notifications;
      db.ClearAllNotifications();
    }
  }

  // The notification timer
  method NotificationTick(db: Database, mode: Mode) returns (sent: seq<Notification>)
    modifies db`notifications
    ensures if mode.PeriodicUpdate? then db.Contents() == Flushed(old(db.Contents())) && sent == old(db.notifications)
            else db.Contents() == old(db.Contents()) && sent == []
  {
    sent := [];
    if mode == PeriodicUpdate && db.notifications != [] {
      sent := db.notifications;
      db.ClearAllNotifications();
    }
  }

  lemma SuccessesSnoc(os: seq<Outcome>, o: Outcome)
    ensures Successes(os + [o]) == if o.Ok? then Successes(os) + [o.value] else Successes(os)
  {
    assert (os + [o])[..|os|] == os;
  }

  lemma HandledSnoc(t: Tables, rs: seq<ComparisonResult>, r: ComparisonResult)
    ensures HandledAll(t, rs + [r]) == Handled(HandledAll(t, rs), r).0
  {
    assert (rs + [r])[..|rs|] == rs;
  }

  // ---------- a verdict that cannot be read back ----------

  // Result k of the list is refused because the recorded one cannot be read, and nothing is changed.
  predicate RefusedAt(t: Tables, rs: seq<ComparisonResult>, k: nat)
    requires k < |rs|
  {
    Handled(HandledAll(t, rs[..k]), rs[k]) == (HandledAll(t, rs[..k]), Err(ParseError))
  }

  // Some result of the list is a BuildFailed for the deployment.
  predicate Spoiled(rs: seq<ComparisonResult>, deployment: string) {
    exists r :: r in rs && r.deployment == deployment && r.resultType == BuildFailed
  }

  lemma HandledReadable(t: Tables, r: ComparisonResult, deployment: string)
    requires Readable(t, deployment)
    ensures Readable(Handled(t, r).0, deployment) <==> !(r.deployment == deployment && r.resultType == BuildFailed)
  {
    TypeRoundTrip(r.resultType);
  }

  lemma HandledUnreadable(t: Tables, r: ComparisonResult, deployment: string)
    requires !Readable(t, deployment)
    ensures !Readable(Handled(t, r).0, deployment)
  {
  }

  lemma {:induction false} ReadableUnlessSpoiled(t: Tables, rs: seq<ComparisonResult>, deployment: string)
    requires Readable(t, deployment)
    ensures Readable(HandledAll(t, rs), deployment) <==> !Spoiled(rs, deployment)
  {
    if rs != [] {
      var init, r := rs[..|rs| - 1], rs[|rs| - 1];
      ReadableUnlessSpoiled(t, init, deployment);
      assert rs == init + [r];
      assert Spoiled(rs, deployment) <==>
             Spoiled(init, deployment) || (r.deployment == deployment && r.resultType == BuildFailed);
      if Readable(HandledAll(t, init), deployment) {
        HandledReadable(HandledAll(t, init), r, deployment);
      } else {
        HandledUnreadable(HandledAll(t, init), r, deployment);
      }
    }
  }

  /** A BuildFailed verdict is recorded in a form that cannot be read back: in any list of results, one is
      refused and lost if and only if a BuildFailed for its deployment has come before it. */
  lemma BuildFailedIsFinal(t: Tables, rs: seq<ComparisonResult>, k: nat)
    requires k < |rs| && Readable(t, rs[k].deployment)
    ensures RefusedAt(t, rs, k) <==> Spoiled(rs[..k], rs[k].deployment)
  {
    ReadableUnlessSpoiled(t, rs[..k], rs[k].deployment);
  }
}
