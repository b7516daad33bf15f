/** What gets announced over whole histories of verdicts. */
module NotificationLaws {
  import opened Core
  import opened Aggregation
  import opened Comparison
  import opened Tables
  import opened Operation
  import opened Notifications

  // ---------- histories of verdicts and flushes, in any order ----------

  datatype Happening = Verdict(r: ComparisonResult) | Flush

  function TablesAfter(t: Tables, h: seq<Happening>): Tables {
    if h == [] then t
    else match h[|h| - 1]
      case Verdict(r) => Handled(TablesAfter(t, h[..|h| - 1]), r).0
      case Flush => Flushed(TablesAfter(t, h[..|h| - 1]))
  }

  predicate About(e: Happening, deployment: string) {
    e.Verdict? && e.r.deployment == deployment
  }

  // The latest verdict on a deployment
  function Latest(h: seq<Happening>, deployment: string): Option<ComparisonResult> {
    if h == [] then None
    else if About(h[|h| - 1], deployment) then Some(h[|h| - 1].r)
    else Latest(h[..|h| - 1], deployment)
  }

  function LatestType(t: Tables, h: seq<Happening>, deployment: string): Option<ResultType> {
    match Latest(h, deployment)
    case Some(r) => Some(r.resultType)
    case None => Recorded(t, deployment)
  }

  // What the verdicts of a radio are like, and the tables it starts from
  ghost predicate Regular(t: Tables, h: seq<Happening>) {
    && (forall d :: Readable(t, d))
    && t.notifications == []
    && forall e :: e in h && e.Verdict? ==> e.r.resultType != BuildFailed
  }

  lemma HandledResults(t: Tables, r: ComparisonResult)
    requires Readable(t, r.deployment)
    ensures Handled(t, r).0.results == t.results[r.deployment := RowOf(r)]
  {
  }

  lemma RowReadable(r: ComparisonResult)
    requires r.resultType != BuildFailed
    ensures ParseType(RowOf(r).resultType) == Some(r.resultType)
  {
    TypeRoundTrip(r.resultType);
  }

  // The table of results carries the latest verdict of every deployment.
  ghost predicate CarriesLatest(t: Tables, h: seq<Happening>, u: Tables, d: string) {
    && Readable(u, d) && Recorded(u, d) == LatestType(t, h, d)
    && (match Latest(h, d)
        case Some(r) => d in u.results && u.results[d] == RowOf(r)
        case None => (d in u.results <==> d in t.results) && (d in t.results ==> u.results[d] == t.results[d]))
  }

  /** After any history the results table carries the latest verdict of each deployment, also where the
      notification was refused. */
  lemma {:induction false} RecordedLatest(t: Tables, h: seq<Happening>, d: string)
    requires Regular(t, h)
    ensures CarriesLatest(t, h, TablesAfter(t, h), d)
  {
    if h != [] {
      var init, e := h[..|h| - 1], h[|h| - 1];
      RecordedLatest(t, init, d);
      if e.Verdict? {
        assert e in h;
        RecordedLatest(t, init, e.r.deployment);
        HandledResults(TablesAfter(t, init), e.r);
        RowReadable(e.r);
      }
    }
  }

  // Happening i is a verdict worth announcing.
  ghost predicate NewsAt(t: Tables, h: seq<Happening>, i: int) {
    0 <= i < |h| && h[i].Verdict? && Announceable(LatestType(t, h[..i], h[i].r.deployment), h[i].r.resultType)
  }

  ghost predicate FlushBetween(h: seq<Happening>, i: int, j: int) {
    exists k :: i < k < j && 0 <= k < |h| && h[k].Flush?
  }

  // The first news of its deployment since the last flush
  ghost predicate FirstNews(t: Tables, h: seq<Happening>, i: int) {
    && NewsAt(t, h, i) && !FlushBetween(h, i, |h|)
    && forall j :: 0 <= j < i && NewsAt(t, h, j) && h[j].r.deployment == h[i].r.deployment ==> FlushBetween(h, j, i)
  }

  lemma NewsSnoc(t: Tables, h: seq<Happening>, e: Happening, i: int)
    requires i < |h|
    ensures NewsAt(t, h + [e], i) <==> NewsAt(t, h, i)
  {
    if 0 <= i {
      assert (h + [e])[..i] == h[..i];
    }
  }

  lemma FlushSnoc(h: seq<Happening>, e: Happening, i: int, j: int)
    requires j <= |h|
    ensures FlushBetween(h + [e], i, j) <==> FlushBetween(h, i, j)
    ensures FlushBetween(h + [e], i, |h| + 1) <==> FlushBetween(h, i, |h|) || (e.Flush? && i < |h|)
  {
    var h' := h + [e];
    assert forall k :: 0 <= k < |h| ==> h'[k] == h[k];
    if e.Flush? && i < |h| {
      assert h'[|h|].Flush?;
    }
  }

  lemma FirstNewsEarlier(t: Tables, h: seq<Happening>, e: Happening, i: int)
    requires i < |h|
    ensures FirstNews(t, h + [e], i) <==> FirstNews(t, h, i) && e.Verdict?
  {
    var h' := h + [e];
    NewsSnoc(t, h, e, i);
    FlushSnoc(h, e, i, |h|);
    forall j | 0 <= j < i
      ensures NewsAt(t, h', j) <==> NewsAt(t, h, j)
      ensures FlushBetween(h', j, i) <==> FlushBetween(h, j, i)
    {
      NewsSnoc(t, h, e, j);
      FlushSnoc(h, e, j, i);
    }
  }

  ghost predicate HasFirstNews(t: Tables, h: seq<Happening>, d: string) {
    exists i :: FirstNews(t, h, i) && h[i].r.deployment == d
  }

  // News since the last flush means there was a first.
  lemma FirstExists(t: Tables, h: seq<Happening>, i: int)
    requires NewsAt(t, h, i) && !FlushBetween(h, i, |h|)
    ensures HasFirstNews(t, h, h[i].r.deployment)
    decreases i
  {
    if !FirstNews(t, h, i) {
      var j :| 0 <= j < i && NewsAt(t, h, j) && h[j].r.deployment == h[i].r.deployment && !FlushBetween(h, j, i);
      assert !FlushBetween(h, j, |h|);
      FirstExists(t, h, j);
    }
  }

  // The note is the one of the first news of its deployment.
  ghost predicate NoteOfFirst(t: Tables, h: seq<Happening>, n: Notification) {
    exists i :: FirstNews(t, h, i) && n == NoteOf(h[i].r)
  }

  lemma PendingVerdict(t: Tables, h: seq<Happening>, r: ComparisonResult)
    requires Regular(t, h + [Verdict(r)])
    requires forall n :: n in TablesAfter(t, h).notifications <==> NoteOfFirst(t, h, n)
    ensures FirstNews(t, h + [Verdict(r)], |h|) <==>
            NewsAt(t, h + [Verdict(r)], |h|) && !Pending(TablesAfter(t, h).notifications, r.deployment)
  {
    var h' := h + [Verdict(r)];
    var ns := TablesAfter(t, h).notifications;
    assert h'[|h|] == Verdict(r) && !FlushBetween(h', |h|, |h'|);
    forall j | 0 <= j < |h|
      ensures NewsAt(t, h', j) <==> NewsAt(t, h, j)
      ensures FlushBetween(h', j, |h|) <==> FlushBetween(h, j, |h|)
    {
      NewsSnoc(t, h, Verdict(r), j);
      FlushSnoc(h, Verdict(r), j, |h|);
    }
    if Pending(ns, r.deployment) {
      var n :| n in ns && n.deployment == r.deployment;
      var i :| FirstNews(t, h, i) && n == NoteOf(h[i].r);
      assert h'[i] == h[i] && NewsAt(t, h', i) && !FlushBetween(h', i, |h|);
    } else if j :| 0 <= j < |h| && NewsAt(t, h', j) && h'[j].r.deployment == r.deployment && !FlushBetween(h', j, |h|) {
      assert h'[j] == h[j];
      FirstExists(t, h, j);
      var i :| FirstNews(t, h, i) && h[i].r.deployment == r.deployment;
      assert NoteOfFirst(t, h, NoteOf(h[i].r));
    }
  }

  lemma NoteOfFirstSnoc(t: Tables, h: seq<Happening>, e: Happening, n: Notification)
    ensures NoteOfFirst(t, h + [e], n) <==>
            (e.Verdict? && NoteOfFirst(t, h, n)) || (FirstNews(t, h + [e], |h|) && e.Verdict? && n == NoteOf(e.r))
  {
    var h' := h + [e];
    forall i | i < |h|
      ensures FirstNews(t, h', i) <==> FirstNews(t, h, i) && e.Verdict?
    {
      FirstNewsEarlier(t, h, e, i);
    }
    assert h'[|h|] == e;
    if NoteOfFirst(t, h', n) {
      var i :| FirstNews(t, h', i) && n == NoteOf(h'[i].r);
      assert i < |h| ==> h'[i] == h[i];
    }
    if e.Verdict? && NoteOfFirst(t, h, n) {
      var i :| FirstNews(t, h, i) && n == NoteOf(h[i].r);
      assert h'[i] == h[i] && FirstNews(t, h', i);
    }
  }

  /** Whatever the order of verdicts and flushes, what is pending is, for each deployment, the first
      announceable verdict since the last flush; later ones are refused until the next. */
  lemma {:induction false} PendingIsFirstNews(t: Tables, h: seq<Happening>)
    requires Regular(t, h)
    ensures forall n :: n in TablesAfter(t, h).notifications <==> NoteOfFirst(t, h, n)
  {
    if h != [] {
      var init, e := h[..|h| - 1], h[|h| - 1];
      assert h == init + [e];
      PendingIsFirstNews(t, init);
      forall n
        ensures NoteOfFirst(t, h, n) <==>
                (e.Verdict? && NoteOfFirst(t, init, n)) || (FirstNews(t, h, |init|) && e.Verdict? && n == NoteOf(e.r))
      {
        NoteOfFirstSnoc(t, init, e, n);
      }
      if e.Verdict? {
        PendingVerdict(t, init, e.r);
        RecordedLatest(t, init, e.r.deployment);
        assert h[..|init|] == init;
      }
    }
  }

  predicate OneEach(ns: seq<Notification>) {
    forall i, j :: 0 <= i < j < |ns| ==> ns[i].deployment != ns[j].deployment
  }

  lemma OneEachSnoc(ns: seq<Notification>, n: Notification)
    requires OneEach(ns) && !Pending(ns, n.deployment)
    ensures OneEach(ns + [n])
  {
    forall i | 0 <= i < |ns|
      ensures ns[i].deployment != n.deployment
    {
      assert ns[i] in ns;
    }
  }

  /** At most one notification is pending per deployment, whatever is handled and flushed. */
  lemma {:induction false} PendingOneEach(t: Tables, h: seq<Happening>)
    requires OneEach(t.notifications)
    ensures OneEach(TablesAfter(t, h).notifications)
  {
    if h != [] {
      var init, e := h[..|h| - 1], h[|h| - 1];
      PendingOneEach(t, init);
      if e.Verdict? && !Pending(TablesAfter(t, init).notifications, e.r.deployment) {
        OneEachSnoc(TablesAfter(t, init).notifications, NoteOf(e.r));
      }
    }
  }

  // ---------- Live mode: every batch is followed by a flush ----------

  function LiveTables(t: Tables, batches: seq<seq<ComparisonResult>>): Tables {
    if batches == [] then t
    else Flushed(HandledAll(LiveTables(t, batches[..|batches| - 1]), batches[|batches| - 1]))
  }

  function LiveSent(t: Tables, batches: seq<seq<ComparisonResult>>): seq<Notification> {
    if batches == [] then []
    else
      var init := batches[..|batches| - 1];
      LiveSent(t, init) + HandledAll(LiveTables(t, init), batches[|batches| - 1]).notifications
  }

  // The same run as a history: after the verdicts of each batch, a flush
  function AsVerdicts(rs: seq<ComparisonResult>): seq<Happening> {
    if rs == [] then [] else AsVerdicts(rs[..|rs| - 1]) + [Verdict(rs[|rs| - 1])]
  }

  function LiveHistory(batches: seq<seq<ComparisonResult>>): seq<Happening> {
    if batches == [] then []
    else LiveHistory(batches[..|batches| - 1]) + AsVerdicts(batches[|batches| - 1]) + [Flush]
  }

  // What the flushes of a history send
  function FlushedBy(t: Tables, h: seq<Happening>): seq<Notification> {
    if h == [] then []
    else
      var init := h[..|h| - 1];
      FlushedBy(t, init) + if h[|h| - 1].Flush? then TablesAfter(t, init).notifications else []
  }

  lemma AfterSnoc(t: Tables, h: seq<Happening>, e: Happening)
    ensures TablesAfter(t, h + [e]) ==
            match e case Verdict(r) => Handled(TablesAfter(t, h), r).0 case Flush => Flushed(TablesAfter(t, h))
    ensures FlushedBy(t, h + [e]) == FlushedBy(t, h) + if e.Flush? then TablesAfter(t, h).notifications else []
  {
    assert (h + [e])[..|h|] == h;
  }

  lemma {:induction false} AfterVerdicts(t: Tables, h: seq<Happening>, rs: seq<ComparisonResult>)
    ensures TablesAfter(t, h + AsVerdicts(rs)) == HandledAll(TablesAfter(t, h), rs)
    ensures FlushedBy(t, h + AsVerdicts(rs)) == FlushedBy(t, h)
  {
    if rs == [] {
      assert h + AsVerdicts(rs) == h;
    } else {
      var init, r := rs[..|rs| - 1], rs[|rs| - 1];
      AfterVerdicts(t, h, init);
      AppendSnoc(h, AsVerdicts(init), Verdict(r));
      AfterSnoc(t, h + AsVerdicts(init), Verdict(r));
    }
  }

  /** A run in Live mode is the history of its verdicts with a flush after each batch: the same tables, and
      the same notes sent. */
  lemma {:induction false} LiveIsHistory(t: Tables, batches: seq<seq<ComparisonResult>>)
    ensures TablesAfter(t, LiveHistory(batches)) == LiveTables(t, batches)
    ensures FlushedBy(t, LiveHistory(batches)) == LiveSent(t, batches)
  {
    if batches != [] {
      var init, rs := batches[..|batches| - 1], batches[|batches| - 1];
      LiveIsHistory(t, init);
      AfterVerdicts(t, LiveHistory(init), rs);
      AfterSnoc(t, LiveHistory(init) + AsVerdicts(rs), Flush);
    }
  }

  function VerdictsOf(rs: seq<ComparisonResult>, d: string): seq<ComparisonResult> {
    Filter((r: ComparisonResult) => r.deployment == d, rs)
  }

  function HistoryOf(batches: seq<seq<ComparisonResult>>, d: string): seq<ComparisonResult> {
    if batches == [] then []
    else HistoryOf(batches[..|batches| - 1], d) + VerdictsOf(batches[|batches| - 1], d)
  }

  function NotesOf(ns: seq<Notification>, d: string): seq<Notification> {
    Filter((n: Notification) => n.deployment == d, ns)
  }

  function TypeAfter(before: Option<ResultType>, vs: seq<ComparisonResult>): Option<ResultType> {
    if vs == [] then before else Some(vs[|vs| - 1].resultType)
  }

  // A history of verdicts with repeats left out, and changes from NotFound to Match too
  function Changes(before: Option<ResultType>, vs: seq<ComparisonResult>): seq<Notification> {
    if vs == [] then []
    else
      var init, r := vs[..|vs| - 1], vs[|vs| - 1];
      Changes(before, init) + if Announceable(TypeAfter(before, init), r.resultType) then [NoteOf(r)] else []
  }

  lemma TypeAfterAppend(before: Option<ResultType>, vs: seq<ComparisonResult>, ws: seq<ComparisonResult>)
    ensures TypeAfter(before, vs + ws) == TypeAfter(TypeAfter(before, vs), ws)
  {
  }

  lemma ChangesSnoc(before: Option<ResultType>, vs: seq<ComparisonResult>, r: ComparisonResult)
    ensures Changes(before, vs + [r]) ==
            Changes(before, vs) + if Announceable(TypeAfter(before, vs), r.resultType) then [NoteOf(r)] else []
  {
    assert (vs + [r])[..|vs|] == vs;
  }

  lemma ChangesAppendSnoc(before: Option<ResultType>, vs: seq<ComparisonResult>, ws: seq<ComparisonResult>,
                          r: ComparisonResult)
    requires Changes(before, vs + ws) == Changes(before, vs) + Changes(TypeAfter(before, vs), ws)
    ensures Changes(before, vs + (ws + [r])) == Changes(before, vs) + Changes(TypeAfter(before, vs), ws + [r])
  {
    AppendSnoc(vs, ws, r);
    ChangesSnoc(before, vs + ws, r);
    ChangesSnoc(TypeAfter(before, vs), ws, r);
    TypeAfterAppend(before, vs, ws);
  }

  lemma {:induction false} ChangesAppend(before: Option<ResultType>, vs: seq<ComparisonResult>,
                                         ws: seq<ComparisonResult>)
    ensures Changes(before, vs + ws) == Changes(before, vs) + Changes(TypeAfter(before, vs), ws)
  {
    if ws == [] {
      assert vs + ws == vs;
    } else {
      var init, r := ws[..|ws| - 1], ws[|ws| - 1];
      ChangesAppend(before, vs, init);
      ChangesAppendSnoc(before, vs, init, r);
      assert init + [r] == ws;
    }
  }

  lemma {:induction false} NotesAppend(ns: seq<Notification>, ms: seq<Notification>, d: string)
    ensures NotesOf(ns + ms, d) == NotesOf(ns, d) + NotesOf(ms, d)
  {
    if ms == [] {
      assert ns + ms == ns;
    } else {
      var init, n := ms[..|ms| - 1], ms[|ms| - 1];
      assert ns + ms == (ns + init) + [n];
      NotesAppend(ns, init, d);
      FilterSnoc((x: Notification) => x.deployment == d, ns + init, n);
    }
  }

  predicate OncePerBatch(rs: seq<ComparisonResult>) {
    forall i, j :: 0 <= i < j < |rs| ==> rs[i].deployment != rs[j].deployment
  }

  predicate NoBuildFailed(rs: seq<ComparisonResult>) {
    forall i :: 0 <= i < |rs| ==> rs[i].resultType != BuildFailed
  }

  // What a batch has done so far to the rows and notes of one deployment
  ghost predicate BatchSoFar(t: Tables, rs: seq<ComparisonResult>, d: string) {
    var u := HandledAll(t, rs);
    && Readable(u, d)
    && Recorded(u, d) == TypeAfter(Recorded(t, d), VerdictsOf(rs, d))
    && NotesOf(u.notifications, d) == Changes(Recorded(t, d), VerdictsOf(rs, d))
  }

  lemma NotPending(ns: seq<Notification>, d: string)
    ensures Pending(ns, d) <==> NotesOf(ns, d) != []
  {
    if NotesOf(ns, d) != [] {
      assert NotesOf(ns, d)[0] in NotesOf(ns, d);
    }
  }

  lemma HandledElsewhere(u: Tables, r: ComparisonResult, d: string)
    requires d != r.deployment
    ensures var v := Handled(u, r).0;
            && Recorded(v, d) == Recorded(u, d) && (Readable(v, d) <==> Readable(u, d))
            && NotesOf(v.notifications, d) == NotesOf(u.notifications, d)
  {
    NotesElsewhere(u.notifications, NoteOf(r), d);
  }

  lemma NotesElsewhere(ns: seq<Notification>, n: Notification, d: string)
    requires d != n.deployment
    ensures NotesOf(ns + [n], d) == NotesOf(ns, d)
  {
    FilterSnoc((x: Notification) => x.deployment == d, ns, n);
  }

  lemma HandledHere(u: Tables, r: ComparisonResult)
    requires Readable(u, r.deployment) && !Pending(u.notifications, r.deployment) && r.resultType != BuildFailed
    ensures var v := Handled(u, r).0;
            && Recorded(v, r.deployment) == Some(r.resultType) && Readable(v, r.deployment)
            && NotesOf(v.notifications, r.deployment) == NotesOf(u.notifications, r.deployment)
                 + if Announceable(Recorded(u, r.deployment), r.resultType) then [NoteOf(r)] else []
  {
    RowReadable(r);
    FilterSnoc((x: Notification) => x.deployment == r.deployment, u.notifications, NoteOf(r));
  }

  lemma BatchStep(t: Tables, rs: seq<ComparisonResult>, r: ComparisonResult, d: string)
    requires BatchSoFar(t, rs, d) && BatchSoFar(t, rs, r.deployment)
    requires VerdictsOf(rs, r.deployment) == [] && r.resultType != BuildFailed
    ensures BatchSoFar(t, rs + [r], d)
  {
    var u := HandledAll(t, rs);
    HandledSnoc(t, rs, r);
    FilterSnoc((x: ComparisonResult) => x.deployment == d, rs, r);
    if d == r.deployment {
      NotPending(u.notifications, d);
      HandledHere(u, r);
      ChangesSnoc(Recorded(t, d), VerdictsOf(rs, d), r);
    } else {
      HandledElsewhere(u, r, d);
    }
  }

  lemma FirstOfBatch(rs: seq<ComparisonResult>)
    requires rs != [] && OncePerBatch(rs)
    ensures VerdictsOf(rs[..|rs| - 1], rs[|rs| - 1].deployment) == []
  {
    var init, d := rs[..|rs| - 1], rs[|rs| - 1].deployment;
    forall r | r in init
      ensures r.deployment != d
    {
      var i :| 0 <= i < |init| && init[i] == r;
      assert rs[i] == r;
    }
    FilterNone((r: ComparisonResult) => r.deployment == d, init);
  }

  lemma {:induction false} BatchNotes(t: Tables, rs: seq<ComparisonResult>, d: string)
    requires t.notifications == [] && (forall x :: Readable(t, x)) && OncePerBatch(rs) && NoBuildFailed(rs)
    ensures BatchSoFar(t, rs, d)
  {
    if rs != [] {
      var init, r := rs[..|rs| - 1], rs[|rs| - 1];
      BatchNotes(t, init, d);
      BatchNotes(t, init, r.deployment);
      FirstOfBatch(rs);
      assert rs == init + [r];
      BatchStep(t, init, r, d);
    }
  }

  ghost predicate LiveSoFar(t: Tables, batches: seq<seq<ComparisonResult>>, d: string) {
    var u := LiveTables(t, batches);
    && u.notifications == [] && Readable(u, d)
    && Recorded(u, d) == TypeAfter(Recorded(t, d), HistoryOf(batches, d))
    && NotesOf(LiveSent(t, batches), d) == Changes(Recorded(t, d), HistoryOf(batches, d))
  }

  lemma LiveStep(t: Tables, batches: seq<seq<ComparisonResult>>, d: string)
    requires batches != [] && LiveSoFar(t, batches[..|batches| - 1], d)
    requires BatchSoFar(LiveTables(t, batches[..|batches| - 1]), batches[|batches| - 1], d)
    ensures LiveSoFar(t, batches, d)
  {
    var init, rs := batches[..|batches| - 1], batches[|batches| - 1];
    var history, verdicts := HistoryOf(init, d), VerdictsOf(rs, d);
    var sent, notes := LiveSent(t, init), HandledAll(LiveTables(t, init), rs).notifications;
    assert HistoryOf(batches, d) == history + verdicts && LiveSent(t, batches) == sent + notes;
    TypeAfterAppend(Recorded(t, d), history, verdicts);
    ChangesAppend(Recorded(t, d), history, verdicts);
    NotesAppend(sent, notes, d);
  }

  /** In Live mode, with no deployment twice in a batch, what is sent about a deployment over any run is
      exactly its history of verdicts without the repeats and without changes from NotFound to Match;
      and nothing is pending after a batch. */
  lemma {:induction false} LiveAnnouncesChanges(t: Tables, batches: seq<seq<ComparisonResult>>, d: string)
    requires t.notifications == [] && forall x :: Readable(t, x)
    requires forall k :: 0 <= k < |batches| ==> OncePerBatch(batches[k]) && NoBuildFailed(batches[k])
    ensures LiveTables(t, batches).notifications == []
    ensures NotesOf(LiveSent(t, batches), d) == Changes(Recorded(t, d), HistoryOf(batches, d))
    ensures LiveSoFar(t, batches, d)
  {
    if batches != [] {
      var init, rs := batches[..|batches| - 1], batches[|batches| - 1];
      forall x
        ensures Readable(LiveTables(t, init), x)
      {
        LiveAnnouncesChanges(t, init, x);
      }
      LiveAnnouncesChanges(t, init, d);
      BatchNotes(LiveTables(t, init), rs, d);
      LiveStep(t, batches, d);
    }
  }

  // Which verdicts of a history are changes worth telling: a first one, and one of another type than the
  // verdict before it, unless that was NotFound and this one is Match.
  ghost predicate ChangesAt(before: Option<ResultType>, vs: seq<ComparisonResult>, i: int) {
    && 0 <= i < |vs|
    && ((i == 0 && before.None?) ||
        var was, now := if i == 0 then before.value else vs[i - 1].resultType, vs[i].resultType;
        was != now && !(was == NotFound && now == Match))
  }

  lemma {:induction false} ChangesExact(before: Option<ResultType>, vs: seq<ComparisonResult>) returns (at: seq<nat>)
    ensures |Changes(before, vs)| == |at|
    ensures forall k :: 0 <= k < |at| ==>
              at[k] < |vs| && Changes(before, vs)[k] == Notification(vs[at[k]].deployment, Shown(vs[at[k]]))
    ensures forall k, l :: 0 <= k < l < |at| ==> at[k] < at[l]
    ensures forall i :: i in at <==> ChangesAt(before, vs, i)
  {
    at := [];
    if vs != [] {
      var n := |vs| - 1;
      at := ChangesExact(before, vs[..n]);
      forall i
        ensures ChangesAt(before, vs, i) <==> ChangesAt(before, vs[..n], i) || (i == n && ChangesAt(before, vs, n))
      {
      }
      assert Announceable(TypeAfter(before, vs[..n]), vs[n].resultType) <==> ChangesAt(before, vs, n);
      if ChangesAt(before, vs, n) {
        at := at + [n];
      }
    }
  }

  /** The same law with the changes written out: in Live mode the notes sent about a deployment are those of
      the verdicts, at such positions of its history, one each and in order. */
  lemma LiveAnnounced(t: Tables, batches: seq<seq<ComparisonResult>>, d: string) returns (at: seq<nat>)
    requires t.notifications == [] && forall x :: Readable(t, x)
    requires forall k :: 0 <= k < |batches| ==> OncePerBatch(batches[k]) && NoBuildFailed(batches[k])
    ensures var vs, notes := HistoryOf(batches, d), NotesOf(LiveSent(t, batches), d);
            && |notes| == |at|
            && (forall k :: 0 <= k < |at| ==> at[k] < |vs| && notes[k] == Notification(d, Shown(vs[at[k]])))
            && (forall k, l :: 0 <= k < l < |at| ==> at[k] < at[l])
            && forall i :: i in at <==> ChangesAt(Recorded(t, d), vs, i)
  {
    LiveAnnouncesChanges(t, batches, d);
    HistoryAbout(batches, d);
    at := ChangesExact(Recorded(t, d), HistoryOf(batches, d));
  }

  lemma {:induction false} HistoryAbout(batches: seq<seq<ComparisonResult>>, d: string)
    ensures forall i :: 0 <= i < |HistoryOf(batches, d)| ==> HistoryOf(batches, d)[i].deployment == d
  {
    if batches != [] {
      HistoryAbout(batches[..|batches| - 1], d);
      var vs := VerdictsOf(batches[|batches| - 1], d);
      assert forall i :: 0 <= i < |vs| ==> vs[i] in vs;
    }
  }

  // The results of a batch are about its deployments, each about its own.
  ghost predicate BatchResults(ids: seq<string>, rs: seq<ComparisonResult>) {
    && OncePerBatch(rs) && NoBuildFailed(rs)
    && forall i :: 0 <= i < |rs| ==> rs[i].deployment in ids
  }

  lemma BatchResultsSnoc(ids: seq<string>, rs: seq<ComparisonResult>, id: string, o: Outcome)
    requires BatchResults(ids, rs) && id !in ids
    requires o.Ok? ==> o.value.deployment == id && o.value.resultType != BuildFailed
    ensures BatchResults(ids + [id], if o.Ok? then rs + [o.value] else rs)
  {
    assert forall x :: x in ids ==> x in ids + [id];
    assert id in ids + [id];
  }

  lemma {:induction false} SuccessesFrom(ids: seq<string>, os: seq<Outcome>)
    requires |os| == |ids| && Distinct(ids)
    requires forall k :: 0 <= k < |os| && os[k].Ok? ==>
               os[k].value.deployment == ids[k] && os[k].value.resultType != BuildFailed
    ensures BatchResults(ids, Successes(os))
  {
    if os != [] {
      var n := |os| - 1;
      SuccessesFrom(ids[..n], os[..n]);
      assert ids == ids[..n] + [ids[n]];
      DistinctSnoc(ids[..n], ids[n]);
      BatchResultsSnoc(ids[..n], Successes(os[..n]), ids[n], os[n]);
    }
  }

  /** The results of a batch of distinct deployments are as the law above asks. */
  lemma ComparedBatch(env: Env, t: Tables, ids: seq<string>, window: u64, times: seq<u64>)
    requires |times| == |ids| && Distinct(ids)
    ensures var rs := Successes(Outcomes(env, t, ids, window, times));
            OncePerBatch(rs) && NoBuildFailed(rs)
  {
    SuccessesFrom(ids, Outcomes(env, t, ids, window, times));
  }
}
