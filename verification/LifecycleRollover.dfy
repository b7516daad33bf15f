/** What a cleanup that leaves a row behind, or a send that falls behind, does to the order of comparisons,
    and a run in which a digit rollover makes that happen. */
module LifecycleRollover {
  import opened Core
  import opened DecimalText
  import opened Attestations
  import opened Aggregation
  import opened Comparison
  import opened Tables
  import opened CrossCheck
  import opened CrossCheckLaws
  import opened Operation
  import opened Lifecycle
  import opened LifecycleOrder

  // ---------- what happens when a cleanup leaves a row behind ----------

  // From the end of the window on, a comparison reaches a verdict about its point if all stakes are known;
  // and there is a point no higher than any shared block.
  lemma JudgedUpTo(env: Env, t: Tables, id: string, window: u64, block: u64, now: u64)
    requires Timed(t.local) && SharedBlock(t, id, block) && forall account :: env.stake(account).Some?
    ensures var p, r := ComparisonPoint(t, id, window), Compare(env, t, id, window, now);
            && p.Some? && p.value.block <= block && SharedBlock(t, id, p.value.block)
            && (p.value.end <= now ==> r.Ok? && r.value.blockNumber == p.value.block)
  {
    PointExact(t, id, window);
    OutcomeExact(env, t, id, window, now);
  }

  /** Once a cleanup at some block has left a row up to that block behind, a single message for the row's
      block makes the next verdict, as soon as its window is over, go back to it, or further. */
  lemma StaleRowGoesBack(env: Env, t: Tables, id: string, block: u64, window: u64, a: Attestation, m: PoiMessage,
                         now: u64)
    requires Timed(t.local) && (forall account :: env.stake(account).Some?)
    requires a in t.local && a.identifier == id && a.blockNumber <= block && !UpTo(a.blockNumber, block)
    requires m.AtBlock(id, a.blockNumber)
    ensures !Thorough(t.local, id, block)
    ensures var t' := Received(Cleaned(t, id, block), m);
            var p, r := ComparisonPoint(t', id, window), Compare(env, t', id, window, now);
            && p.Some? && p.value.block <= block
            && (p.value.end <= now ==> r.Ok? && r.value.blockNumber == p.value.block)
  {
    var t' := Received(Cleaned(t, id, block), m);
    assert a in t'.local;
    assert Stored(m) in t'.remote && Stored(m).AtBlock(id, a.blockNumber);
    JudgedUpTo(env, t', id, window, a.blockNumber, now);
  }

  // The state after the cleanup that is due, one more message, and the next comparison
  function NextRound(c: Config, s: State, id: string, m: PoiMessage, now: u64): State
    requires id in s.cleaning && Receivable(m)
  {
    Next(c, Next(c, Next(c, s, Sweep(id)), Receive(m)), Judge(id, now))
  }

  // Whatever is heard after the cleanup, and whenever it is compared, compared blocks go on increasing.
  ghost predicate OrderlyRound(c: Config, s: State, id: string)
    requires id in s.cleaning
  {
    forall m, now: u64 :: Receivable(m) ==> Increasing(NextRound(c, s, id, m, now).log)
  }

  // The verdict whose rows are waiting to be cleaned up is on record.
  ghost predicate CleaningLogged(s: State) {
    forall id :: id in s.cleaning ==> exists e :: e in s.log && e.Verdicted? && e.id == id && e.block == s.cleaning[id]
  }

  lemma CleaningLoggedSnoc(s: State, s': State, e: Event)
    requires CleaningLogged(s) && s'.log == s.log + [e]
    requires forall id :: id in s'.cleaning ==>
               || (id in s.cleaning && s'.cleaning[id] == s.cleaning[id])
               || (e.Verdicted? && e.id == id && e.block == s'.cleaning[id])
    ensures CleaningLogged(s')
  {
    forall id | id in s'.cleaning
      ensures exists x :: x in s'.log && x.Verdicted? && x.id == id && x.block == s'.cleaning[id]
    {
      if e.Verdicted? && e.id == id && e.block == s'.cleaning[id] {
        assert e in s'.log;
      } else {
        var x :| x in s.log && x.Verdicted? && x.id == id && x.block == s.cleaning[id];
        assert x in s'.log;
      }
    }
  }

  lemma CleaningLoggedStep(c: Config, s: State, step: Step)
    requires CleaningLogged(s) && Enabled(s, step)
    ensures CleaningLogged(Next(c, s, step))
  {
    var s' := Next(c, s, step);
    if |s'.log| > |s.log| {
      CleaningLoggedSnoc(s, s', s'.log[|s.log|]);
    }
  }

  lemma {:induction false} CleaningLoggedRun(c: Config, steps: seq<Step>)
    requires After(c, INIT, steps).Some?
    ensures CleaningLogged(After(c, INIT, steps).value)
  {
    if steps != [] {
      var init := steps[..|steps| - 1];
      CleaningLoggedRun(c, init);
      CleaningLoggedStep(c, After(c, INIT, init).value, steps[|steps| - 1]);
    }
  }

  lemma NotIncreasing(log: seq<Event>, e: Event, e': Event)
    requires e in log && e.Verdicted? && e'.Verdicted? && e.id == e'.id && e'.block <= e.block
    ensures !Increasing(log + [e'])
  {
    var i :| 0 <= i < |log| && log[i] == e;
    assert (log + [e'])[i] == e && (log + [e'])[|log|] == e';
  }

  lemma NextRoundLog(c: Config, s: State, id: string, m: PoiMessage, now: u64)
    requires id in s.cleaning && Receivable(m)
    ensures var r := c.judge(Received(Cleaned(s.tables, id, s.cleaning[id]), m), id, now);
            r.Ok? ==> NextRound(c, s, id, m, now).log == s.log + [Swept(id, s.cleaning[id])]
                                                         + [Verdicted(id, r.value.blockNumber, r.value.resultType)]
  {
  }

  // A row that the coming cleanup leaves behind upsets the order as soon as its block is heard of.
  lemma SpareRowUpsets(env: Env, window: u64, s: State, id: string, a: Attestation, m: PoiMessage) returns (now: u64)
    requires Timed(s.tables.local) && CleaningLogged(s) && (forall account :: env.stake(account).Some?)
    requires id in s.cleaning && a in s.tables.local && a.identifier == id
    requires a.blockNumber <= s.cleaning[id] && !UpTo(a.blockNumber, s.cleaning[id])
    requires m.AtBlock(id, a.blockNumber) && Receivable(m)
    ensures !Increasing(NextRound(Radio(env, window), s, id, m, now).log)
  {
    var block := s.cleaning[id];
    var t := Received(Cleaned(s.tables, id, block), m);
    StaleRowGoesBack(env, s.tables, id, block, window, a, m, 0);
    now := ComparisonPoint(t, id, window).value.end;
    StaleRowGoesBack(env, s.tables, id, block, window, a, m, now);
    NextRoundLog(Radio(env, window), s, id, m, now);
    var e :| e in s.log && e.Verdicted? && e.id == id && e.block == block;
    var r := Compare(env, t, id, window, now).value;
    NotIncreasing(s.log + [Swept(id, block)], e, Verdicted(id, r.blockNumber, r.resultType));
  }

  lemma NextRoundOrderly(c: Config, s: State, id: string, m: PoiMessage, now: u64)
    requires Sound(c) && TablesInv(s) && OrderInv(s) && Receivable(m)
    requires id in s.cleaning && Thorough(s.tables.local, id, s.cleaning[id])
    ensures Increasing(NextRound(c, s, id, m, now).log)
  {
    var s1 := Next(c, s, Sweep(id));
    StepKeeps(c, s, Sweep(id));
    OrderStep(c, s, Sweep(id));
    StepKeeps(c, s1, Receive(m));
    OrderStep(c, s1, Receive(m));
    OrderStep(c, Next(c, s1, Receive(m)), Judge(id, now));
  }

  // What an account has sent about a block
  function HeardAt(id: string, block: u64, nonce: u64): PoiMessage {
    PoiMessage(id, nonce, "0xa1", PublicPoiMessage(id, "", nonce, "", block, "", "0xa1"), "")
  }

  lemma HeardReceivable(id: string, block: u64, nonce: u64)
    ensures Receivable(HeardAt(id, block, nonce)) && HeardAt(id, block, nonce).ValidOuter()
  {
    assert "0xa1"[2..] == "a1" && "a1"[2..] == "";
  }

  /** Which cleanups keep the order: after any orderly run the coming one leaves nothing behind if and only
      if compared blocks still increase whatever is heard next and whenever it is compared. */
  lemma ThoroughExactly(env: Env, window: u64, steps: seq<Step>, s: State, id: string)
    requires OrderlyRun(Radio(env, window), steps) && After(Radio(env, window), INIT, steps) == Some(s)
    requires id in s.cleaning && forall account :: env.stake(account).Some?
    ensures Thorough(s.tables.local, id, s.cleaning[id]) <==> OrderlyRound(Radio(env, window), s, id)
  {
    var c := Radio(env, window);
    RadioSound(env, window);
    OrderRun(c, steps);
    TablesInvariant(c, steps);
    if Thorough(s.tables.local, id, s.cleaning[id]) {
      forall m, now: u64 | Receivable(m)
        ensures Increasing(NextRound(c, s, id, m, now).log)
      {
        NextRoundOrderly(c, s, id, m, now);
      }
    } else {
      var a :| a in s.tables.local && a.identifier == id && a.blockNumber <= s.cleaning[id]
               && !UpTo(a.blockNumber, s.cleaning[id]);
      ReachableTimed(env, window, steps, s);
      CleaningLoggedRun(c, steps);
      HeardReceivable(id, a.blockNumber, 0);
      var _ := SpareRowUpsets(env, window, s, id, a, HeardAt(id, a.blockNumber, 0));
    }
  }

  // ---------- what happens when a send falls behind ----------

  // The state after the send in progress, one more message, and the next comparison
  function SendRound(c: Config, s: State, id: string, ppoi: string, nonce: u64, m: PoiMessage, now: u64): State
    requires id in s.sending && id !in s.cleaning && Receivable(m)
  {
    Next(c, Next(c, Next(c, s, EndSend(id, ppoi, nonce)), Receive(m)), Judge(id, now))
  }

  // Whatever is heard after the send, and whenever it is compared, compared blocks go on increasing.
  ghost predicate OrderlySend(c: Config, s: State, id: string, ppoi: string, nonce: u64)
    requires id in s.sending && id !in s.cleaning
  {
    forall m, now: u64 :: Receivable(m) ==> Increasing(SendRound(c, s, id, ppoi, nonce, m, now).log)
  }

  lemma SendRoundOrderly(c: Config, s: State, id: string, ppoi: string, nonce: u64, m: PoiMessage, now: u64)
    requires Sound(c) && TablesInv(s) && OrderInv(s) && Receivable(m)
    requires id in s.sending && id !in s.cleaning && Ahead(s.log, id, s.sending[id].block)
    ensures Increasing(SendRound(c, s, id, ppoi, nonce, m, now).log)
  {
    var send := EndSend(id, ppoi, nonce);
    var s1 := Next(c, s, send);
    StepKeeps(c, s, send);
    OrderStep(c, s, send);
    StepKeeps(c, s1, Receive(m));
    OrderStep(c, s1, Receive(m));
    OrderStep(c, Next(c, s1, Receive(m)), Judge(id, now));
  }

  lemma SendRoundLog(c: Config, s: State, id: string, ppoi: string, nonce: u64, m: PoiMessage, now: u64)
    requires id in s.sending && id !in s.cleaning && Receivable(m)
    ensures var block := s.sending[id].block;
            var r := c.judge(Received(Inserted(s.tables, SentRow(id, block, ppoi, nonce)), m), id, now);
            r.Ok? ==> SendRound(c, s, id, ppoi, nonce, m, now).log ==
                      s.log + [Sent(id, block, s.sending[id].latest, ppoi, nonce)]
                            + [Verdicted(id, r.value.blockNumber, r.value.resultType)]
  {
  }

  // A send that ends behind what has been compared upsets the order as soon as its block is heard of.
  lemma LateSendUpsets(env: Env, window: u64, s: State, id: string, ppoi: string, nonce: u64, m: PoiMessage)
    returns (now: u64)
    requires TablesInv(s) && Timed(s.tables.local) && (forall account :: env.stake(account).Some?)
    requires id in s.sending && id !in s.cleaning && !Ahead(s.log, id, s.sending[id].block)
    requires m.AtBlock(id, s.sending[id].block) && Receivable(m)
    ensures !Increasing(SendRound(Radio(env, window), s, id, ppoi, nonce, m, now).log)
  {
    var block, latest := s.sending[id].block, s.sending[id].latest;
    var row := SentRow(id, block, ppoi, nonce);
    var t := Received(Inserted(s.tables, row), m);
    EndSendKeeps(Radio(env, window), s, id, ppoi, nonce);
    assert t.local == s.tables.local + [row] && row in t.local;
    assert Stored(m) in t.remote && Stored(m).AtBlock(id, block);
    JudgedUpTo(env, t, id, window, block, 0);
    now := ComparisonPoint(t, id, window).value.end;
    JudgedUpTo(env, t, id, window, block, now);
    SendRoundLog(Radio(env, window), s, id, ppoi, nonce, m, now);
    var e :| e in s.log && e.Verdicted? && e.id == id && e.block >= block;
    var r := Compare(env, t, id, window, now).value;
    NotIncreasing(s.log + [Sent(id, block, latest, ppoi, nonce)], e, Verdicted(id, r.blockNumber, r.resultType));
  }

  /** Which sends keep the order: after any orderly run the one in progress ends ahead of what has been
      compared if and only if compared blocks still increase whatever is heard next and whenever it is
      compared. */
  lemma AheadExactly(env: Env, window: u64, steps: seq<Step>, s: State, id: string, ppoi: string, nonce: u64)
    requires OrderlyRun(Radio(env, window), steps) && After(Radio(env, window), INIT, steps) == Some(s)
    requires id in s.sending && id !in s.cleaning && forall account :: env.stake(account).Some?
    ensures Ahead(s.log, id, s.sending[id].block) <==> OrderlySend(Radio(env, window), s, id, ppoi, nonce)
  {
    var c := Radio(env, window);
    RadioSound(env, window);
    OrderRun(c, steps);
    TablesInvariant(c, steps);
    if Ahead(s.log, id, s.sending[id].block) {
      forall m, now: u64 | Receivable(m)
        ensures Increasing(SendRound(c, s, id, ppoi, nonce, m, now).log)
      {
        SendRoundOrderly(c, s, id, ppoi, nonce, m, now);
      }
    } else {
      ReachableTimed(env, window, steps, s);
      HeardReceivable(id, s.sending[id].block, 0);
      var _ := LateSendUpsets(env, window, s, id, ppoi, nonce, HeardAt(id, s.sending[id].block, 0));
    }
  }

  // ---------- a run across a digit rollover ----------

  function Attest(id: string, block: u64, sent: u64): seq<Step> {
    [BeginSend(id, block, block), EndSend(id, "", sent)]
  }

  // Two blocks are attested, the upper one is heard of and compared ...
  function RolloverCompared(id: string, low: u64, high: u64, sent: u64, now: u64): seq<Step> {
    Attest(id, low, sent) + Attest(id, high, sent) + [Receive(HeardAt(id, high, sent)), Judge(id, now)]
  }

  // ... and cleaned up after; then the lower one is heard of and compared.
  function RolloverRun(id: string, low: u64, high: u64, sent: u64, now: u64): seq<Step> {
    RolloverCompared(id, low, high, sent, now) + [Sweep(id), Receive(HeardAt(id, low, sent)), Judge(id, now)]
  }

  // A run whose sends stay ahead leads to s.
  ghost predicate AheadTo(c: Config, steps: seq<Step>, s: State) {
    After(c, INIT, steps) == Some(s) && SendsAhead(c, steps)
  }

  lemma OneMore(c: Config, steps: seq<Step>, s: State, step: Step)
    requires AheadTo(c, steps, s) && Enabled(s, step) && (step.EndSend? ==> Orderly(s, step))
    ensures AheadTo(c, steps + [step], Next(c, s, step))
  {
    assert (steps + [step])[..|steps|] == steps;
  }

  lemma AttestRuns(c: Config, steps: seq<Step>, s: State, id: string, block: u64, sent: u64) returns (s': State)
    requires AheadTo(c, steps, s) && id !in s.sending
    requires Ahead(s.log, id, block) && !LocalBlock(s.tables, id, block)
    ensures AheadTo(c, steps + Attest(id, block, sent), s')
    ensures s'.tables == s.tables.(local := s.tables.local + [SentRow(id, block, "", sent)])
    ensures s'.log == s.log + [Sent(id, block, block, "", sent)]
    ensures s'.sending == s.sending && s'.cleaning == s.cleaning
  {
    var begin, end := BeginSend(id, block, block), EndSend(id, "", sent);
    OneMore(c, steps, s, begin);
    OneMore(c, steps + [begin], Next(c, s, begin), end);
    assert steps + [begin] + [end] == steps + Attest(id, block, sent);
    s' := Next(c, Next(c, s, begin), end);
  }

  lemma RolloverSent(c: Config, id: string, low: u64, high: u64, sent: u64) returns (s: State)
    requires low < high
    ensures AheadTo(c, Attest(id, low, sent) + Attest(id, high, sent), s)
    ensures s.tables == EMPTY.(local := [SentRow(id, low, "", sent), SentRow(id, high, "", sent)])
    ensures s.log == [Sent(id, low, low, "", sent), Sent(id, high, high, "", sent)] && s.cleaning == map[]
  {
    var a, b := SentRow(id, low, "", sent), SentRow(id, high, "", sent);
    var s1 := AttestRuns(c, [], INIT, id, low, sent);
    assert [] + Attest(id, low, sent) == Attest(id, low, sent) && [] + [a] == [a] && [a] + [b] == [a, b];
    assert s1.tables.local == [a] && a.blockNumber != high;
    s := AttestRuns(c, Attest(id, low, sent), s1, id, high, sent);
  }

  // All rows were sent at one time, and of one block only somebody else has been heard.
  ghost predicate OnlyHeard(t: Tables, id: string, block: u64, sent: u64) {
    && (forall a :: a in t.local ==> a.timestamp == [sent])
    && LocalBlock(t, id, block) && t.remote == [HeardAt(id, block, sent)]
  }

  // In such tables that block gets compared.
  ghost predicate ComparesHeard(c: Config, id: string, sent: u64, now: u64) {
    forall t: Tables, block: u64 :: OnlyHeard(t, id, block, sent) ==>
      c.judge(t, id, now).Ok? && c.judge(t, id, now).value.blockNumber == block
  }

  lemma RadioComparesHeard(env: Env, window: u64, id: string, sent: u64, now: u64)
    requires (forall account :: env.stake(account).Some?) && WrappingAdd(sent, window) <= now
    ensures ComparesHeard(Radio(env, window), id, sent, now)
  {
    forall t: Tables, block: u64 | OnlyHeard(t, id, block, sent)
      ensures var r := Compare(env, t, id, window, now); r.Ok? && r.value.blockNumber == block
    {
      assert t.remote[0] in t.remote && t.remote[0].AtBlock(id, block);
      assert SharedBlock(t, id, block);
      PointExact(t, id, window);
      JudgedUpTo(env, t, id, window, block, now);
    }
  }

  lemma HeardAndJudged(c: Config, steps: seq<Step>, s: State, id: string, m: PoiMessage, now: u64) returns (s': State)
    requires AheadTo(c, steps, s) && id !in s.cleaning && Receivable(m)
    requires c.judge(Received(s.tables, m), id, now).Ok?
    ensures AheadTo(c, steps + [Receive(m), Judge(id, now)], s')
    ensures var r := c.judge(Received(s.tables, m), id, now).value;
            && s'.tables == Received(s.tables, m)
            && s'.cleaning == s.cleaning[id := r.blockNumber]
            && s'.log == s.log + [Verdicted(id, r.blockNumber, r.resultType)]
  {
    var s1 := Next(c, s, Receive(m));
    OneMore(c, steps, s, Receive(m));
    OneMore(c, steps + [Receive(m)], s1, Judge(id, now));
    assert steps + [Receive(m)] + [Judge(id, now)] == steps + [Receive(m), Judge(id, now)];
    s' := Next(c, s1, Judge(id, now));
  }

  // The cleanup at the upper block takes its row and message, but leaves the lower row.
  lemma RolloverCleaned(t: Tables, id: string, k: nat, sent: u64)
    requires k > 0 && Pow10(k) < U64_LIMIT
    requires t.local == [SentRow(id, Pow10(k) - 1, "", sent), SentRow(id, Pow10(k), "", sent)]
    requires t.remote == [HeardAt(id, Pow10(k), sent)]
    ensures var u := Cleaned(t, id, Pow10(k));
            && u.remote == [] && LocalBlock(u, id, Pow10(k) - 1)
            && forall a :: a in u.local ==> a.timestamp == [sent]
  {
    RolloverReversed(k);
    SameLengthOrder(Pow10(k), Pow10(k));
    var u := Cleaned(t, id, Pow10(k));
    assert t.local[0] in t.local && t.local[0] in u.local;
  }

  lemma RoundRuns(c: Config, steps: seq<Step>, s: State, id: string, m: PoiMessage, now: u64) returns (s': State)
    requires AheadTo(c, steps, s) && id in s.cleaning && Receivable(m)
    requires c.judge(Received(Cleaned(s.tables, id, s.cleaning[id]), m), id, now).Ok?
    ensures AheadTo(c, steps + [Sweep(id), Receive(m), Judge(id, now)], s')
    ensures var r := c.judge(Received(Cleaned(s.tables, id, s.cleaning[id]), m), id, now).value;
            s'.log == s.log + [Swept(id, s.cleaning[id]), Verdicted(id, r.blockNumber, r.resultType)]
  {
    var s1 := Next(c, s, Sweep(id));
    OneMore(c, steps, s, Sweep(id));
    s' := HeardAndJudged(c, steps + [Sweep(id)], s1, id, m, now);
    assert steps + [Sweep(id)] + [Receive(m), Judge(id, now)] == steps + [Sweep(id), Receive(m), Judge(id, now)];
  }

  lemma RolloverHighJudged(c: Config, id: string, low: u64, high: u64, sent: u64, now: u64)
    returns (s: State, verdict: ResultType)
    requires low < high && ComparesHeard(c, id, sent, now)
    ensures AheadTo(c, RolloverCompared(id, low, high, sent, now), s)
    ensures s.tables.local == [SentRow(id, low, "", sent), SentRow(id, high, "", sent)]
    ensures s.tables.remote == [HeardAt(id, high, sent)] && s.cleaning == map[id := high]
    ensures s.log == [Sent(id, low, low, "", sent), Sent(id, high, high, "", sent), Verdicted(id, high, verdict)]
  {
    var m := HeardAt(id, high, sent);
    var before := RolloverSent(c, id, low, high, sent);
    var t := Received(before.tables, m);
    HeardReceivable(id, high, sent);
    assert t.remote == [m] && t.local[1] in t.local;
    assert OnlyHeard(t, id, high, sent);
    verdict := c.judge(t, id, now).value.resultType;
    s := HeardAndJudged(c, Attest(id, low, sent) + Attest(id, high, sent), before, id, m, now);
  }

  lemma RolloverRuns(c: Config, id: string, k: nat, sent: u64, now: u64)
    returns (s: State, first: ResultType, second: ResultType)
    requires k > 0 && Pow10(k) < U64_LIMIT && ComparesHeard(c, id, sent, now)
    ensures var low, high := Pow10(k) - 1, Pow10(k);
            && AheadTo(c, RolloverRun(id, low, high, sent, now), s)
            && s.log == [Sent(id, low, low, "", sent), Sent(id, high, high, "", sent),
                         Verdicted(id, high, first), Swept(id, high), Verdicted(id, low, second)]
  {
    var low: u64, high: u64 := Pow10(k) - 1, Pow10(k);
    var m := HeardAt(id, low, sent);
    var judged;
    judged, first := RolloverHighJudged(c, id, low, high, sent, now);
    RolloverCleaned(judged.tables, id, k, sent);
    var t := Received(Cleaned(judged.tables, id, high), m);
    HeardReceivable(id, low, sent);
    assert t.remote == [m] && OnlyHeard(t, id, low, sent);
    second := c.judge(t, id, now).value.resultType;
    s := RoundRuns(c, RolloverCompared(id, low, high, sent, now), judged, id, m, now);
  }

  /** Digit rollovers do break the order: at every power of ten, and whenever the sends are made and the
      comparisons come after the window, this run, whose sends all stay ahead, compares the block 10..0 and
      then goes back to 9..9. */
  lemma RolloverUpsets(env: Env, window: u64, id: string, k: nat, sent: u64, now: u64)
    returns (s: State, first: ResultType, second: ResultType)
    requires k > 0 && Pow10(k) < U64_LIMIT && WrappingAdd(sent, window) <= now
    requires forall account :: env.stake(account).Some?
    ensures var low, high := Pow10(k) - 1, Pow10(k);
            && AheadTo(Radio(env, window), RolloverRun(id, low, high, sent, now), s)
            && s.log == [Sent(id, low, low, "", sent), Sent(id, high, high, "", sent),
                         Verdicted(id, high, first), Swept(id, high), Verdicted(id, low, second)]
    ensures !Increasing(s.log)
  {
    RadioComparesHeard(env, window, id, sent, now);
    s, first, second := RolloverRuns(Radio(env, window), id, k, sent, now);
    assert s.log[2].block > s.log[4].block;
  }
}
