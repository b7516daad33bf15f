/** What holds of every run of the store: a block is attested once between cleanups, and comparisons never
    outnumber attestations. */
module LifecycleLaws {
  import opened Core
  import opened DecimalText
  import opened Attestations
  import opened Aggregation
  import opened Tables
  import opened CrossCheckLaws
  import opened Operation
  import opened Lifecycle

  // ---------- one send per block between cleanups ----------

  predicate Sweeps(e: Event, id: string, block: u64) {
    e.Swept? && e.id == id && UpTo(block, e.block)
  }

  ghost predicate SweptBetween(log: seq<Event>, i: int, j: int, id: string, block: u64) {
    exists k :: i < k < j && 0 <= k < |log| && Sweeps(log[k], id, block)
  }

  ghost predicate SentBlock(e: Event, id: string, block: u64) {
    e.Sent? && e.id == id && e.block == block
  }

  // A send that no cleanup has covered since still has its row.
  ghost predicate UnsweptPresent(s: State) {
    forall i, id, block :: 0 <= i < |s.log| && SentBlock(s.log[i], id, block) ==>
      LocalBlock(s.tables, id, block) || SweptBetween(s.log, i, |s.log|, id, block)
  }

  ghost predicate SentOnce(log: seq<Event>) {
    forall i, j, id, block :: 0 <= i < j < |log| && SentBlock(log[i], id, block) && SentBlock(log[j], id, block) ==>
      SweptBetween(log, i, j, id, block)
  }

  lemma SweptLonger(log: seq<Event>, e: Event, i: int, j: int, id: string, block: u64)
    requires j <= |log|
    ensures SweptBetween(log, i, j, id, block) ==> SweptBetween(log + [e], i, j, id, block)
  {
    if SweptBetween(log, i, j, id, block) {
      var k :| i < k < j && 0 <= k < |log| && Sweeps(log[k], id, block);
      assert (log + [e])[k] == log[k];
    }
  }

  lemma SweptWider(log: seq<Event>, i: int, j: int, l: int, id: string, block: u64)
    requires SweptBetween(log, i, j, id, block) && j <= l
    ensures SweptBetween(log, i, l, id, block)
  {
  }

  // Every event but a send leaves the history of sends as it was.
  lemma SentOnceSnoc(log: seq<Event>, e: Event)
    requires SentOnce(log)
    requires forall i, id, block :: 0 <= i < |log| && SentBlock(log[i], id, block) && SentBlock(e, id, block) ==>
               SweptBetween(log, i, |log|, id, block)
    ensures SentOnce(log + [e])
  {
    var log' := log + [e];
    forall i, j, id, block | 0 <= i < j < |log'| && SentBlock(log'[i], id, block) && SentBlock(log'[j], id, block)
      ensures SweptBetween(log', i, j, id, block)
    {
      SweptLonger(log, e, i, j, id, block);
    }
  }

  lemma UnsweptSnoc(s: State, s': State, e: Event)
    requires UnsweptPresent(s) && s'.log == s.log + [e]
    requires forall id, block :: LocalBlock(s.tables, id, block) ==>
               LocalBlock(s'.tables, id, block) || Sweeps(e, id, block)
    requires forall id, block :: SentBlock(e, id, block) ==> LocalBlock(s'.tables, id, block)
    ensures UnsweptPresent(s')
  {
    forall i, id, block | 0 <= i < |s'.log| && SentBlock(s'.log[i], id, block)
      ensures LocalBlock(s'.tables, id, block) || SweptBetween(s'.log, i, |s'.log|, id, block)
    {
      if i < |s.log| {
        assert SentBlock(s.log[i], id, block);
        if SweptBetween(s.log, i, |s.log|, id, block) {
          SweptLonger(s.log, e, i, |s.log|, id, block);
          SweptWider(s'.log, i, |s.log|, |s'.log|, id, block);
        } else if Sweeps(e, id, block) {
          assert Sweeps(s'.log[|s.log|], id, block);
        }
      }
    }
  }

  lemma SendHistoryEndSend(c: Config, s: State, id: string, ppoi: string, nonce: u64)
    requires TablesInv(s) && UnsweptPresent(s) && SentOnce(s.log) && id in s.sending
    ensures var s' := Next(c, s, EndSend(id, ppoi, nonce)); UnsweptPresent(s') && SentOnce(s'.log)
  {
    var k, s' := s.sending[id], Next(c, s, EndSend(id, ppoi, nonce));
    var row := SentRow(id, k.block, ppoi, nonce);
    EndSendKeeps(c, s, id, ppoi, nonce);
    assert forall a :: a in s'.tables.local <==> a in s.tables.local || a == row;
    assert row in s'.tables.local;
    var e := Sent(id, k.block, k.latest, ppoi, nonce);
    UnsweptSnoc(s, s', e);
    SentOnceSnoc(s.log, e);
  }

  lemma SendHistorySweep(c: Config, s: State, id: string)
    requires UnsweptPresent(s) && SentOnce(s.log) && id in s.cleaning
    ensures var s' := Next(c, s, Sweep(id)); UnsweptPresent(s') && SentOnce(s'.log)
  {
    var s', e := Next(c, s, Sweep(id)), Swept(id, s.cleaning[id]);
    forall i, block | LocalBlock(s.tables, i, block)
      ensures LocalBlock(s'.tables, i, block) || Sweeps(e, i, block)
    {
      var a :| a in s.tables.local && a.identifier == i && a.blockNumber == block;
      assert a in s'.tables.local || Sweeps(e, i, block);
    }
    UnsweptSnoc(s, s', e);
    SentOnceSnoc(s.log, e);
  }

  lemma SendHistoryJudge(c: Config, s: State, id: string, now: u64)
    requires UnsweptPresent(s) && SentOnce(s.log) && id !in s.cleaning
    ensures var s' := Next(c, s, Judge(id, now)); UnsweptPresent(s') && SentOnce(s'.log)
  {
    var r := c.judge(s.tables, id, now);
    if r.Ok? {
      var e := Verdicted(id, r.value.blockNumber, r.value.resultType);
      UnsweptSnoc(s, Judged(s, id, r.value), e);
      SentOnceSnoc(s.log, e);
    }
  }

  lemma SendHistoryStep(c: Config, s: State, step: Step)
    requires TablesInv(s) && UnsweptPresent(s) && SentOnce(s.log) && Enabled(s, step)
    ensures var s' := Next(c, s, step); UnsweptPresent(s') && SentOnce(s'.log)
  {
    match step
    case EndSend(id, ppoi, nonce) => SendHistoryEndSend(c, s, id, ppoi, nonce);
    case Judge(id, now) => SendHistoryJudge(c, s, id, now);
    case Sweep(id) => SendHistorySweep(c, s, id);
    case Receive(m) =>
      assert forall i, b :: LocalBlock(s.tables, i, b) ==> LocalBlock(Received(s.tables, m), i, b);
    case BeginSend(_, _, _) =>
    case AbortSend(_) =>
  }

  lemma {:induction false} SendHistory(c: Config, steps: seq<Step>)
    requires Sound(c) && After(c, INIT, steps).Some?
    ensures var s := After(c, INIT, steps).value; UnsweptPresent(s) && SentOnce(s.log)
  {
    if steps != [] {
      var init := steps[..|steps| - 1];
      SendHistory(c, init);
      TablesInvariant(c, init);
      SendHistoryStep(c, After(c, INIT, init).value, steps[|steps| - 1]);
    }
  }

  /** Over any run, an attestation for a deployment and block is sent a second time only after a cleanup
      that covers the block. */
  lemma SentOncePerCleanup(env: Env, window: u64, steps: seq<Step>, s: State)
    requires After(Radio(env, window), INIT, steps) == Some(s)
    ensures SentOnce(s.log)
  {
    RadioSound(env, window);
    SendHistory(Radio(env, window), steps);
  }

  /** The table's own UNIQUE key does not give that: two sends of one block that both pass the check
      before either inserts leave two rows, if and only if the PPOI has changed in between. */
  lemma UniqueKeyNotEnough(t: Tables, id: string, block: u64, latest: u64, p: string, nonce: u64, q: string, later: u64)
    requires block <= latest && !LocalBlock(t, id, block)
    ensures SendGuard(t, id, block, latest).None?
    ensures Inserted(Inserted(t, SentRow(id, block, p, nonce)), SentRow(id, block, q, later)).local
         == t.local + [SentRow(id, block, p, nonce)] + if p != q then [SentRow(id, block, q, later)] else []
  {
    var a, b := SentRow(id, block, p, nonce), SentRow(id, block, q, later);
    assert !Clashes(t.local, a);
    assert forall r :: r in t.local + [a] <==> r in t.local || r == a;
    assert Clashes(t.local + [a], b) <==> p == q;
  }

  // ---------- comparisons are paid for by attestations ----------

  function Sends(log: seq<Event>, id: string): nat {
    |Filter((e: Event) => e.Sent? && e.id == id, log)|
  }

  function Verdicts(log: seq<Event>, id: string): nat {
    |Filter((e: Event) => e.Verdicted? && e.id == id, log)|
  }

  function Cleanups(log: seq<Event>, id: string): nat {
    |Filter((e: Event) => e.Swept? && e.id == id, log)|
  }

  function Rows(s: State, id: string): nat {
    |LocalRows(s.tables.local, id)|
  }

  function Waiting(s: State, id: string): nat {
    if id in s.cleaning then 1 else 0
  }

  lemma CountSnoc(log: seq<Event>, e: Event, id: string)
    ensures Sends(log + [e], id) == Sends(log, id) + if e.Sent? && e.id == id then 1 else 0
    ensures Verdicts(log + [e], id) == Verdicts(log, id) + if e.Verdicted? && e.id == id then 1 else 0
    ensures Cleanups(log + [e], id) == Cleanups(log, id) + if e.Swept? && e.id == id then 1 else 0
  {
    FilterSnoc((e: Event) => e.Sent? && e.id == id, log, e);
    FilterSnoc((e: Event) => e.Verdicted? && e.id == id, log, e);
    FilterSnoc((e: Event) => e.Swept? && e.id == id, log, e);
  }

  lemma {:induction false} KeepShrinks(rows: seq<Attestation>, id: string, block: u64)
    ensures var left := LocalRows(KeepLocal(rows, id, block), id);
            && |left| <= |LocalRows(rows, id)|
            && ((exists a :: a in rows && a.identifier == id && a.blockNumber == block) ==>
                  |left| < |LocalRows(rows, id)|)
  {
    if rows != [] {
      var init, a := rows[..|rows| - 1], rows[|rows| - 1];
      assert rows == init + [a];
      KeepShrinks(init, id, block);
      FilterSnoc((x: Attestation) => x.identifier == id, KeepLocal(init, id, block), a);
      SameLengthOrder(block, block);
    }
  }

  // What every step keeps between the rows of a deployment and the events about it
  ghost predicate Balanced(s: State, s': State, id: string) {
    && Rows(s', id) + Cleanups(s'.log, id) + Sends(s.log, id) <= Rows(s, id) + Cleanups(s.log, id) + Sends(s'.log, id)
    && Verdicts(s'.log, id) + Cleanups(s.log, id) + Waiting(s, id)
         == Verdicts(s.log, id) + Cleanups(s'.log, id) + Waiting(s', id)
    && Sends(s.log, id) <= Sends(s'.log, id)
  }

  lemma BalancedEndSend(c: Config, s: State, i: string, ppoi: string, nonce: u64, id: string)
    requires TablesInv(s) && i in s.sending
    ensures Balanced(s, Next(c, s, EndSend(i, ppoi, nonce)), id)
  {
    var k := s.sending[i];
    EndSendKeeps(c, s, i, ppoi, nonce);
    FilterSnoc((a: Attestation) => a.identifier == id, s.tables.local, SentRow(i, k.block, ppoi, nonce));
    CountSnoc(s.log, Sent(i, k.block, k.latest, ppoi, nonce), id);
  }

  lemma SweepShrinks(s: State, id: string)
    requires TablesInv(s) && id in s.cleaning
    ensures |LocalRows(KeepLocal(s.tables.local, id, s.cleaning[id]), id)| < Rows(s, id)
  {
    assert LocalBlock(s.tables, id, s.cleaning[id]);
    KeepShrinks(s.tables.local, id, s.cleaning[id]);
  }

  lemma BalancedSweep(c: Config, s: State, i: string, id: string)
    requires i in s.cleaning
    requires i == id ==> |LocalRows(KeepLocal(s.tables.local, id, s.cleaning[id]), id)| < Rows(s, id)
    requires i != id ==> LocalRows(KeepLocal(s.tables.local, i, s.cleaning[i]), id) == LocalRows(s.tables.local, id)
    ensures Balanced(s, Next(c, s, Sweep(i)), id)
  {
    var s' := Next(c, s, Sweep(i));
    CountSnoc(s.log, Swept(i, s.cleaning[i]), id);
    assert Rows(s', id) == |LocalRows(KeepLocal(s.tables.local, i, s.cleaning[i]), id)|;
    assert Waiting(s', id) == if i == id then 0 else Waiting(s, id);
  }

  lemma BalancedStep(c: Config, s: State, step: Step, id: string)
    requires TablesInv(s) && Enabled(s, step)
    ensures Balanced(s, Next(c, s, step), id)
  {
    match step
    case EndSend(i, ppoi, nonce) => BalancedEndSend(c, s, i, ppoi, nonce, id);
    case Judge(i, now) =>
      var r := c.judge(s.tables, i, now);
      if r.Ok? {
        CountSnoc(s.log, Verdicted(i, r.value.blockNumber, r.value.resultType), id);
      }
    case Sweep(i) =>
      if i == id { SweepShrinks(s, id); } else { KeepLocalOthers(s.tables.local, i, s.cleaning[i], id); }
      BalancedSweep(c, s, i, id);
    case Receive(_) =>
    case BeginSend(_, _, _) =>
    case AbortSend(_) =>
  }

  lemma {:induction false} BalancedRun(c: Config, s: State, steps: seq<Step>, id: string)
    requires Sound(c) && TablesInv(s) && After(c, s, steps).Some?
    ensures TablesInv(After(c, s, steps).value) && Balanced(s, After(c, s, steps).value, id)
  {
    if steps != [] {
      var init := steps[..|steps| - 1];
      BalancedRun(c, s, init, id);
      StepKeeps(c, After(c, s, init).value, steps[|steps| - 1]);
      BalancedStep(c, After(c, s, init).value, steps[|steps| - 1], id);
    }
  }

  lemma WaitingHasRow(s: State, id: string)
    requires TablesInv(s)
    ensures Waiting(s, id) <= Rows(s, id)
  {
    if id in s.cleaning {
      var a :| a in s.tables.local && a.identifier == id && a.blockNumber == s.cleaning[id];
      assert a in LocalRows(s.tables.local, id);
    }
  }

  /** From any reachable state on, a deployment gets at most as many more verdicts as it has rows now
      plus attestations still to be sent.  In particular, with no new gossip comparing comes to an end,
      whatever the order of texts does to the cleanups. */
  lemma VerdictsBounded(env: Env, window: u64, past: seq<Step>, s: State, future: seq<Step>, s': State, id: string)
    requires After(Radio(env, window), INIT, past) == Some(s) && After(Radio(env, window), s, future) == Some(s')
    ensures Verdicts(s'.log, id) - Verdicts(s.log, id) <= Rows(s, id) + (Sends(s'.log, id) - Sends(s.log, id))
    ensures Verdicts(s'.log, id) <= Sends(s'.log, id)
  {
    RadioSound(env, window);
    BalancedRun(Radio(env, window), INIT, past, id);
    BalancedRun(Radio(env, window), s, future, id);
    WaitingHasRow(s, id);
    WaitingHasRow(s', id);
  }
}
