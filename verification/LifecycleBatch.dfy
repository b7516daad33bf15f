/** What the operator's methods do to the database, told as steps of the life cycle. */
module LifecycleBatch {
  import opened Core
  import opened Attestations
  import opened Aggregation
  import opened Comparison
  import opened Tables
  import opened CrossCheckLaws
  import opened Operation
  import opened Lifecycle

  lemma OneStep(c: Config, s: State, steps: seq<Step>, step: Step)
    requires After(c, s, steps).Some? && Enabled(After(c, s, steps).value, step)
    ensures After(c, s, steps + [step]) == Some(Next(c, After(c, s, steps).value, step))
  {
    assert (steps + [step])[..|steps|] == steps;
  }

  lemma {:induction false} AfterAppend(c: Config, s: State, steps: seq<Step>, more: seq<Step>)
    requires After(c, s, steps).Some?
    ensures After(c, s, steps + more) == After(c, After(c, s, steps).value, more)
  {
    if more == [] {
      assert steps + more == steps;
    } else {
      var init, last := more[..|more| - 1], more[|more| - 1];
      AfterAppend(c, s, steps, init);
      assert (steps + more)[..|steps + more| - 1] == steps + init;
    }
  }

  // ---------- a batch of comparisons ----------

  function Judging(ids: seq<string>, times: seq<u64>): seq<Step>
    requires |times| == |ids|
  {
    if ids == [] then []
    else
      var n := |ids| - 1;
      Judging(ids[..n], times[..n]) + [Judge(ids[n], times[n])]
  }

  // A cleanup for each success
  function Sweeping(os: seq<Outcome>): seq<Step> {
    if os == [] then []
    else
      var n := |os| - 1;
      Sweeping(os[..n]) + if os[n].Ok? then [Sweep(os[n].value.deployment)] else []
  }

  function Deployments(os: seq<Outcome>): set<string> {
    if os == [] then {}
    else Deployments(os[..|os| - 1]) + if os[|os| - 1].Ok? then {os[|os| - 1].value.deployment} else {}
  }

  lemma DeploymentsSnoc(os: seq<Outcome>, o: Outcome)
    ensures Deployments(os + [o]) == Deployments(os) + if o.Ok? then {o.value.deployment} else {}
  {
    assert (os + [o])[..|os|] == os;
  }

  lemma {:induction false} DeploymentsAmong(os: seq<Outcome>, ids: seq<string>)
    requires AboutBatch(os, ids)
    ensures Deployments(os) <= Elements(ids)
  {
    if os != [] {
      var n := |os| - 1;
      assert ids == ids[..n] + [ids[n]];
      DeploymentsAmong(os[..n], ids[..n]);
    }
  }

  // Each success is about its own deployment of the batch.
  predicate AboutBatch(os: seq<Outcome>, ids: seq<string>) {
    |os| == |ids| && forall k :: 0 <= k < |os| && os[k].Ok? ==> os[k].value.deployment == ids[k]
  }

  // Each success is waiting to be cleaned up after.
  predicate Awaited(cleaning: map<string, u64>, os: seq<Outcome>) {
    forall k :: 0 <= k < |os| && os[k].Ok? ==>
      os[k].value.deployment in cleaning && cleaning[os[k].value.deployment] == os[k].value.blockNumber
  }

  predicate JudgedAs(c: Config, t: Tables, ids: seq<string>, times: seq<u64>, os: seq<Outcome>)
    requires |times| == |ids|
  {
    |os| == |ids| && forall k :: 0 <= k < |ids| ==> os[k] == c.judge(t, ids[k], times[k])
  }

  // s' differs from s only by the verdicts of the batch, all of them waiting.
  ghost predicate OnRecord(s: State, s': State, os: seq<Outcome>) {
    && s'.tables == s.tables && s'.sending == s.sending
    && s'.cleaning - Deployments(os) == s.cleaning && Awaited(s'.cleaning, os)
  }

  lemma OnRecordSnoc(c: Config, s: State, s1: State, os: seq<Outcome>, ids: seq<string>, id: string, now: u64)
    requires OnRecord(s, s1, os) && AboutBatch(os, ids) && id !in ids && id !in s.cleaning
    requires var o := c.judge(s.tables, id, now); o.Ok? ==> o.value.deployment == id
    ensures id !in s1.cleaning && OnRecord(s, Next(c, s1, Judge(id, now)), os + [c.judge(s.tables, id, now)])
  {
    var o := c.judge(s.tables, id, now);
    DeploymentsAmong(os, ids);
    assert id !in Deployments(os);
    DeploymentsSnoc(os, o);
  }

  lemma JudgingStep(c: Config, s: State, ids: seq<string>, times: seq<u64>, id: string, now: u64, s1: State)
    requires |times| == |ids| && After(c, s, Judging(ids, times)) == Some(s1) && id !in s1.cleaning
    ensures After(c, s, Judging(ids + [id], times + [now])) == Some(Next(c, s1, Judge(id, now)))
  {
    assert (ids + [id])[..|ids|] == ids && (times + [now])[..|ids|] == times;
    OneStep(c, s, Judging(ids, times), Judge(id, now));
  }

  lemma {:induction false} JudgingRuns(c: Config, s: State, ids: seq<string>, times: seq<u64>, os: seq<Outcome>)
    requires |times| == |ids| && Distinct(ids) && forall id :: id in ids ==> id !in s.cleaning
    requires JudgedAs(c, s.tables, ids, times, os) && AboutBatch(os, ids)
    ensures var r := After(c, s, Judging(ids, times)); r.Some? && OnRecord(s, r.value, os)
  {
    if ids == [] {
      assert s.cleaning - {} == s.cleaning;
    } else {
      var n := |ids| - 1;
      var init, before, results := ids[..n], times[..n], os[..n];
      assert ids == init + [ids[n]] && times == before + [times[n]] && os == results + [os[n]];
      DistinctSnoc(init, ids[n]);
      JudgingRuns(c, s, init, before, results);
      var s1 := After(c, s, Judging(init, before)).value;
      OnRecordSnoc(c, s, s1, results, init, ids[n], times[n]);
      JudgingStep(c, s, init, before, ids[n], times[n], s1);
    }
  }

  // The cleanups of the batch have been made.
  ghost predicate SweptAll(s: State, s': State, os: seq<Outcome>) {
    && s'.tables == CleanedAfterAll(s.tables, os) && s'.sending == s.sending
    && s'.cleaning == s.cleaning - Deployments(os)
  }

  lemma SweptSnoc(c: Config, s: State, s1: State, os: seq<Outcome>, r: ComparisonResult)
    requires SweptAll(s, s1, os) && r.deployment !in Deployments(os)
    requires r.deployment in s.cleaning && s.cleaning[r.deployment] == r.blockNumber
    ensures r.deployment in s1.cleaning && SweptAll(s, Next(c, s1, Sweep(r.deployment)), os + [Ok(r)])
  {
    CleanedSnoc(s.tables, os, Ok(r));
    DeploymentsSnoc(os, Ok(r));
    assert s.cleaning - Deployments(os) - {r.deployment} == s.cleaning - (Deployments(os) + {r.deployment});
  }

  lemma SkippedSnoc(s: State, s1: State, os: seq<Outcome>, o: Outcome)
    requires SweptAll(s, s1, os) && o.Err?
    ensures SweptAll(s, s1, os + [o]) && Sweeping(os + [o]) == Sweeping(os)
  {
    CleanedSnoc(s.tables, os, o);
    DeploymentsSnoc(os, o);
    assert (os + [o])[..|os|] == os;
  }

  lemma {:induction false} SweepingRuns(c: Config, s: State, os: seq<Outcome>, ids: seq<string>)
    requires AboutBatch(os, ids) && Distinct(ids) && Awaited(s.cleaning, os)
    ensures var r := After(c, s, Sweeping(os)); r.Some? && SweptAll(s, r.value, os)
  {
    if os == [] {
      assert s.cleaning - {} == s.cleaning;
    } else {
      var n := |os| - 1;
      assert ids == ids[..n] + [ids[n]] && os == os[..n] + [os[n]];
      DistinctSnoc(ids[..n], ids[n]);
      SweepingRuns(c, s, os[..n], ids[..n]);
      var s1 := After(c, s, Sweeping(os[..n])).value;
      DeploymentsAmong(os[..n], ids[..n]);
      if os[n].Ok? {
        SweptSnoc(c, s, s1, os[..n], os[n].value);
        OneStep(c, s, Sweeping(os[..n]), Sweep(ids[n]));
      } else {
        SkippedSnoc(s, s1, os[..n], os[n]);
      }
    }
  }

  /** A batch of comparisons of distinct deployments, none of them awaiting cleanup, is a run: the verdicts
      one by one, then a cleanup for each success.  It leads to the very tables the method leaves. */
  lemma BatchIsRun(env: Env, window: u64, s: State, ids: seq<string>, times: seq<u64>)
    requires |times| == |ids| && Distinct(ids) && forall id :: id in ids ==> id !in s.cleaning
    ensures var os := Outcomes(env, s.tables, ids, window, times);
            var r := After(Radio(env, window), s, Judging(ids, times) + Sweeping(os));
            && r.Some? && r.value.tables == CleanedAfterAll(s.tables, os)
            && r.value.sending == s.sending && r.value.cleaning == s.cleaning
  {
    var c, os := Radio(env, window), Outcomes(env, s.tables, ids, window, times);
    OutcomeDeployments(env, s.tables, ids, window, times);
    JudgingRuns(c, s, ids, times, os);
    var s1 := After(c, s, Judging(ids, times)).value;
    SweepingRuns(c, s1, os, ids);
    AfterAppend(c, s, Judging(ids, times), Sweeping(os));
  }

  // ---------- sends and receptions ----------

  /** A send that goes through is its two steps, with the row the method inserts; one that does not leaves
      the tables as they are. */
  lemma SendIsRun(c: Config, s: State, id: string, block: u64, latest: u64, ppoi: string, nonce: u64)
    requires id !in s.sending
    ensures var r := After(c, s, [BeginSend(id, block, latest), EndSend(id, ppoi, nonce)]);
            if latest < block || LocalBlock(s.tables, id, block) then r == None
            else r.Some?
                 && r.value.tables ==
                      s.tables.(local := s.tables.local + [Attestation(id, block, ppoi, 0, [], "", [nonce])])
                 && r.value.sending == s.sending && r.value.cleaning == s.cleaning
  {
    var begin, end := BeginSend(id, block, latest), EndSend(id, ppoi, nonce);
    SendGuardExact(s.tables, id, block, latest);
    OneStep(c, s, [], begin);
    assert [] + [begin] == [begin] && [begin, end][..1] == [begin];
    if SendGuard(s.tables, id, block, latest).None? {
      OneStep(c, s, [begin], end);
      assert [begin] + [end] == [begin, end];
      assert !Clashes(s.tables.local, SentRow(id, block, ppoi, nonce));
      assert Next(c, s, begin).sending - {id} == s.sending;
    }
  }
}
