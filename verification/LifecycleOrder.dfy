/** In which order blocks get compared, and what the comparison point of a reachable store is. */
module LifecycleOrder {
  import opened Core
  import opened DecimalText
  import opened Attestations
  import opened Aggregation
  import opened Tables
  import opened CrossCheck
  import opened CrossCheckLaws
  import opened Lifecycle

  ghost predicate Increasing(log: seq<Event>) {
    forall i, j :: 0 <= i < j < |log| && log[i].Verdicted? && log[j].Verdicted? && log[i].id == log[j].id ==>
      log[i].block < log[j].block
  }

  // Block is beyond everything compared for the deployment so far.
  ghost predicate Ahead(log: seq<Event>, id: string, block: u64) {
    forall e :: e in log && e.Verdicted? && e.id == id ==> e.block < block
  }

  // A cleanup at a block that removes every row of the deployment up to it, as it is meant to
  ghost predicate Thorough(rows: seq<Attestation>, id: string, block: u64) {
    forall a :: a in rows && a.identifier == id && a.blockNumber <= block ==> UpTo(a.blockNumber, block)
  }

  // A send ends ahead of what has been compared; a cleanup leaves nothing behind.
  ghost predicate Orderly(s: State, step: Step) {
    match step
    case EndSend(id, _, _) => id in s.sending ==> Ahead(s.log, id, s.sending[id].block)
    case Sweep(id) => id in s.cleaning ==> Thorough(s.tables.local, id, s.cleaning[id])
    case _ => true
  }

  ghost predicate OrderlyRun(c: Config, steps: seq<Step>) {
    After(c, INIT, steps).Some? && (steps != [] ==>
      var init := steps[..|steps| - 1];
      OrderlyRun(c, init) && Orderly(After(c, INIT, init).value, steps[|steps| - 1]))
  }

  ghost predicate OrderInv(s: State) {
    && Increasing(s.log)
    && (forall id :: id in s.cleaning ==>
          forall e :: e in s.log && e.Verdicted? && e.id == id ==> e.block <= s.cleaning[id])
    && (forall a :: a in s.tables.local ==> RowAhead(s, a))
  }

  // A row is beyond everything compared, but for the comparison it is waiting to be cleaned up after.
  ghost predicate RowAhead(s: State, a: Attestation) {
    forall e :: e in s.log && e.Verdicted? && e.id == a.identifier ==>
      e.block < a.blockNumber || (e.id in s.cleaning && e.block == s.cleaning[e.id])
  }

  lemma IncreasingSnoc(log: seq<Event>, e: Event)
    requires Increasing(log) && (e.Verdicted? ==> Ahead(log, e.id, e.block))
    ensures Increasing(log + [e])
  {
    var log' := log + [e];
    forall i, j | 0 <= i < j < |log'| && log'[i].Verdicted? && log'[j].Verdicted? && log'[i].id == log'[j].id
      ensures log'[i].block < log'[j].block
    {
      assert log'[i] == log[i] && log[i] in log;
    }
  }

  lemma OrderEndSend(c: Config, s: State, id: string, ppoi: string, nonce: u64)
    requires TablesInv(s) && OrderInv(s) && id in s.sending && Ahead(s.log, id, s.sending[id].block)
    ensures OrderInv(Next(c, s, EndSend(id, ppoi, nonce)))
  {
    var k, s' := s.sending[id], Next(c, s, EndSend(id, ppoi, nonce));
    EndSendKeeps(c, s, id, ppoi, nonce);
    var e := Sent(id, k.block, k.latest, ppoi, nonce);
    IncreasingSnoc(s.log, e);
    assert forall x :: x in s'.log && x.Verdicted? ==> x in s.log;
    forall a | a in s'.tables.local
      ensures RowAhead(s', a)
    {
      assert a in s.tables.local ==> RowAhead(s, a);
    }
  }

  lemma OrderJudge(c: Config, s: State, id: string, now: u64)
    requires Sound(c) && OrderInv(s) && id !in s.cleaning
    ensures OrderInv(Next(c, s, Judge(id, now)))
  {
    var r := c.judge(s.tables, id, now);
    if r.Ok? {
      var block := r.value.blockNumber;
      var a :| a in s.tables.local && a.identifier == id && a.blockNumber == block;
      assert RowAhead(s, a);
      var e := Verdicted(id, block, r.value.resultType);
      var s' := Judged(s, id, r.value);
      IncreasingSnoc(s.log, e);
      assert forall x :: x in s'.log <==> x in s.log || x == e;
      forall b | b in s'.tables.local
        ensures RowAhead(s', b)
      {
        assert RowAhead(s, b);
      }
    }
  }

  lemma OrderSweep(c: Config, s: State, id: string)
    requires OrderInv(s) && id in s.cleaning && Thorough(s.tables.local, id, s.cleaning[id])
    ensures OrderInv(Next(c, s, Sweep(id)))
  {
    var s' := Next(c, s, Sweep(id));
    IncreasingSnoc(s.log, Swept(id, s.cleaning[id]));
    assert forall x :: x in s'.log && x.Verdicted? ==> x in s.log;
    forall a | a in s'.tables.local
      ensures RowAhead(s', a)
    {
      assert a in s.tables.local && RowAhead(s, a);
    }
  }

  lemma OrderStep(c: Config, s: State, step: Step)
    requires Sound(c) && TablesInv(s) && OrderInv(s) && Enabled(s, step) && Orderly(s, step)
    ensures OrderInv(Next(c, s, step))
  {
    match step
    case EndSend(id, ppoi, nonce) => OrderEndSend(c, s, id, ppoi, nonce);
    case Judge(id, now) => OrderJudge(c, s, id, now);
    case Sweep(id) => OrderSweep(c, s, id);
    case Receive(m) =>
      var s' := Next(c, s, step);
      forall a | a in s'.tables.local
        ensures RowAhead(s', a)
      {
        assert RowAhead(s, a);
      }
    case BeginSend(_, _, _) =>
      var s' := Next(c, s, step);
      forall a | a in s'.tables.local
        ensures RowAhead(s', a)
      {
        assert RowAhead(s, a);
      }
    case AbortSend(_) =>
      var s' := Next(c, s, step);
      forall a | a in s'.tables.local
        ensures RowAhead(s', a)
      {
        assert RowAhead(s, a);
      }
  }

  lemma {:induction false} OrderRun(c: Config, steps: seq<Step>)
    requires Sound(c) && OrderlyRun(c, steps)
    ensures OrderInv(After(c, INIT, steps).value)
  {
    if steps != [] {
      var init := steps[..|steps| - 1];
      OrderRun(c, init);
      TablesInvariant(c, init);
      OrderStep(c, After(c, INIT, init).value, steps[|steps| - 1]);
    }
  }

  /** However sends, receptions, comparisons and cleanups interleave: if gossip never inserts a block at
      or below the last compared one, and no cleanup leaves a row up to its block behind, the blocks
      compared for a deployment strictly increase. */
  lemma VerdictsIncrease(env: Env, window: u64, steps: seq<Step>, s: State)
    requires OrderlyRun(Radio(env, window), steps) && After(Radio(env, window), INIT, steps) == Some(s)
    ensures Increasing(s.log)
  {
    RadioSound(env, window);
    OrderRun(Radio(env, window), steps);
  }

  /** The condition on cleanups is met, in particular, when the blocks of the deployment all have the
      same number of digits. */
  lemma EqualDigitsThorough(rows: seq<Attestation>, id: string, block: u64)
    requires forall a :: a in rows && a.identifier == id ==> |Render(a.blockNumber)| == |Render(block)|
    ensures Thorough(rows, id, block)
  {
    forall a | a in rows && a.identifier == id
      ensures UpTo(a.blockNumber, block) <==> a.blockNumber <= block
    {
      SameLengthOrder(a.blockNumber, block);
    }
  }

  // Every block gossiped for a deployment has the same number of digits.
  predicate EqualDigits(steps: seq<Step>, digits: string -> nat) {
    forall n :: 0 <= n < |steps| && steps[n].BeginSend? ==> |Render(steps[n].block)| == digits(steps[n].id)
  }

  ghost predicate DigitsInv(s: State, digits: string -> nat) {
    && (forall a :: a in s.tables.local ==> |Render(a.blockNumber)| == digits(a.identifier))
    && (forall id :: id in s.sending ==> |Render(s.sending[id].block)| == digits(id))
  }

  lemma {:induction false} DigitsRun(c: Config, steps: seq<Step>, digits: string -> nat)
    requires Sound(c) && EqualDigits(steps, digits) && After(c, INIT, steps).Some?
    ensures DigitsInv(After(c, INIT, steps).value, digits)
  {
    if steps != [] {
      var n := |steps| - 1;
      DigitsRun(c, steps[..n], digits);
      TablesInvariant(c, steps[..n]);
      var s := After(c, INIT, steps[..n]).value;
      match steps[n]
      case EndSend(id, ppoi, nonce) => EndSendKeeps(c, s, id, ppoi, nonce);
      case _ =>
    }
  }

  // Every send of the run ends ahead of what has been compared by then.
  ghost predicate SendsAhead(c: Config, steps: seq<Step>)
    requires After(c, INIT, steps).Some?
  {
    steps != [] ==>
      var init, last := steps[..|steps| - 1], steps[|steps| - 1];
      SendsAhead(c, init) && (last.EndSend? ==> Orderly(After(c, INIT, init).value, last))
  }

  lemma {:induction false} EqualDigitsOrderly(c: Config, steps: seq<Step>, digits: string -> nat)
    requires Sound(c) && After(c, INIT, steps).Some? && SendsAhead(c, steps) && EqualDigits(steps, digits)
    ensures OrderlyRun(c, steps)
  {
    if steps != [] {
      var init, last := steps[..|steps| - 1], steps[|steps| - 1];
      var s := After(c, INIT, init).value;
      EqualDigitsOrderly(c, init, digits);
      if last.Sweep? {
        DigitsRun(c, init, digits);
        TablesInvariant(c, init);
        assert LocalBlock(s.tables, last.id, s.cleaning[last.id]);
        EqualDigitsThorough(s.tables.local, last.id, s.cleaning[last.id]);
      }
    }
  }

  /** With equal digit counts the one thing left to ask is that gossip stays ahead of the comparisons. */
  lemma VerdictsIncreaseWithEqualDigits(env: Env, window: u64, steps: seq<Step>, digits: string -> nat, s: State)
    requires After(Radio(env, window), INIT, steps) == Some(s)
    requires SendsAhead(Radio(env, window), steps) && EqualDigits(steps, digits)
    ensures Increasing(s.log)
  {
    RadioSound(env, window);
    EqualDigitsOrderly(Radio(env, window), steps, digits);
    OrderRun(Radio(env, window), steps);
  }

  /** In every reachable store the comparison point is the least block in both tables, with the timestamp
      of the one row the deployment has for it; and there is none exactly when no block is in both. */
  lemma ReachablePoint(env: Env, window: u64, steps: seq<Step>, s: State, id: string)
    requires After(Radio(env, window), INIT, steps) == Some(s)
    ensures match ComparisonPoint(s.tables, id, window)
            case None => forall block :: !SharedBlock(s.tables, id, block)
            case Some(p) =>
              && SharedBlock(s.tables, id, p.block)
              && (forall block :: SharedBlock(s.tables, id, block) ==> p.block <= block)
              && (forall a :: a in s.tables.local && a.identifier == id && a.blockNumber == p.block ==>
                    a.timestamp != [] && p.end == WrappingAdd(a.timestamp[0], window))
  {
    ReachableTimed(env, window, steps, s);
    PointExact(s.tables, id, window);
  }

  lemma ReachableTimed(env: Env, window: u64, steps: seq<Step>, s: State)
    requires After(Radio(env, window), INIT, steps) == Some(s)
    ensures Timed(s.tables.local) && OneRowPerBlock(s.tables.local)
  {
    RadioSound(env, window);
    TablesInvariant(Radio(env, window), steps);
    forall a | a in s.tables.local
      ensures |a.timestamp| == 1
    {
      assert RowSent(s.log, a);
    }
  }
}
