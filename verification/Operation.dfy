/** The operator's two periodic tasks: sending an attestation for a deployment, and comparing a batch of
    deployments. */
module Operation {
  import opened Core
  import opened Attestations
  import opened Aggregation
  import opened Comparison
  import opened Tables
  import opened Store
  import opened CrossCheck
  import opened CrossCheckLaws

  // ---------- sending ----------

  datatype SendError = SendTrigger | SkipDuplicate | Query | Agent

  // How the outside world answers: the block hash, the PPOI of the block, the id of the sent message.
  datatype Outside = Outside(blockHash: Option<string>, poi: Option<string>, messageId: Option<string>)

  // The two reasons not to send: the deployment has not synced that far, or it has been done before.
  function SendGuard(t: Tables, id: string, messageBlock: u64, latestBlock: u64): Option<SendError> {
    if latestBlock < messageBlock then Some(SendTrigger)
    else if LocalAt(t.local, id, messageBlock).Some? then Some(SkipDuplicate)
    else None
  }

  lemma SendGuardExact(t: Tables, id: string, messageBlock: u64, latestBlock: u64)
    ensures SendGuard(t, id, messageBlock, latestBlock) ==
            if latestBlock < messageBlock then Some(SendTrigger)
            else if LocalBlock(t, id, messageBlock) then Some(SkipDuplicate)
            else None
  {
  }

  // The row that records a sent attestation
  function SentRow(id: string, block: u64, ppoi: string, nonce: u64): Attestation {
    Attestation(id, block, ppoi, 0, [], "", [nonce])
  }

  // The table after an attempt to insert a row
  function Inserted(t: Tables, a: Attestation): Tables {
    if Clashes(t.local, a) then t else t.(local := t.local + [a])
  }

  method SendPoiMessage(db: Database, id: string, messageBlock: u64, latestBlock: u64, world: Outside, nonce: u64)
    returns (r: Result<string, SendError>)
    modifies db`local
    ensures r == Err(SendTrigger) <==> latestBlock < messageBlock
    ensures r == Err(SkipDuplicate) <==> messageBlock <= latestBlock && LocalBlock(old(db.Contents()), id, messageBlock)
    ensures messageBlock <= latestBlock && !LocalBlock(old(db.Contents()), id, messageBlock) ==>
              r == if world.blockHash.None? then Err(Query)
                   else if world.poi.None? || world.messageId.None? then Err(Agent)
                   else Ok(world.messageId.value)
    ensures r.Ok? ==> db.local == old(db.local) + [Attestation(id, messageBlock, world.poi.value, 0, [], "", [nonce])]
    ensures r.Err? ==> db.local == old(db.local)
    ensures db.Contents() == old(db.Contents()).(local := db.local)
  {
    if latestBlock < messageBlock {
      return Err(SendTrigger);
    }
    var existing := db.GetLocalAttestation(id, messageBlock);
    if existing.Some? {
      return Err(SkipDuplicate);
    }
    if world.blockHash.None? {
      return Err(Query);
    }
    if world.poi.None? {
      return Err(Agent);
    }
    if world.messageId.None? {
      return Err(Agent);
    }
    var inserted := db.InsertLocalAttestation(SentRow(id, messageBlock, world.poi.value, nonce));
    // The guard has seen to it that no row is in the way.
    assert inserted.Ok?;
    r := Ok(world.messageId.value);
  }

  // ---------- receiving ----------

  // A message that has passed validation is stored as it is.
  method ProcessValidMessage(db: Database, m: PoiMessage)
    modifies db`remote
    ensures db.Contents() == Received(old(db.Contents()), m)
    ensures m.ValidOuter() <==> db.remote == old(db.remote) + [m]
  {
    db.InsertRemotePpoiMessage(m);
    StoredValid(m);
    assert db.remote[|old(db.remote)|] == Stored(m);
  }

  // ---------- comparing a batch ----------

  type Outcome = Result<ComparisonResult, ComparisonError>

  // Every comparison of the batch, made against the same tables
  function Outcomes(env: Env, t: Tables, ids: seq<string>, window: u64, times: seq<u64>): (r: seq<Outcome>)
    requires |times| == |ids|
    ensures |r| == |ids|
    ensures forall k :: 0 <= k < |ids| ==> r[k] == Compare(env, t, ids[k], window, times[k])
  {
    seq(|ids|, k requires 0 <= k < |ids| => Compare(env, t, ids[k], window, times[k]))
  }

  function CleanedAfter(t: Tables, o: Outcome): Tables {
    match o
    case Ok(r) => Cleaned(t, r.deployment, r.blockNumber)
    case Err(_) => t
  }

  function CleanedAfterAll(t: Tables, os: seq<Outcome>): Tables {
    if os == [] then t else CleanedAfter(CleanedAfterAll(t, os[..|os| - 1]), os[|os| - 1])
  }

  // All tasks are started before the first result is awaited; each success is cleaned up in turn.
  method ComparePoi(env: Env, db: Database, ids: seq<string>, window: u64, times: seq<u64>)
    returns (ops: seq<Outcome>)
    requires |times| == |ids|
    requires WellFormedSenders(db.remote)
    modifies db`local, db`remote
    ensures ops == Outcomes(env, old(db.Contents()), ids, window, times)
    ensures db.Contents() == CleanedAfterAll(old(db.Contents()), ops)
  {
    ghost var t := db.Contents();
    var handles: seq<Outcome> := [];
    for i := 0 to |ids|
      invariant db.Contents() == t
      invariant handles == Outcomes(env, t, ids[..i], window, times[..i])
    {
      PrefixSnoc(ids, i);
      PrefixSnoc(times, i);
      OutcomesSnoc(env, t, ids[..i], window, times[..i], ids[i], times[i]);
      var r := PoiMessageComparison(env, db, ids[i], window, times[i]);
      handles := handles + [r];
    }
    assert ids[..|ids|] == ids && times[..|ids|] == times;
    ops := [];
    for i := 0 to |handles|
      invariant ops == handles[..i]
      invariant db.Contents() == CleanedAfterAll(t, handles[..i])
    {
      PrefixSnoc(handles, i);
      CleanedSnoc(t, handles[..i], handles[i]);
      ops := ops + [handles[i]];
      if handles[i].Ok? {
        CleanupAfterComparison(db, handles[i].value);
      }
    }
    assert handles[..|handles|] == handles;
  }

  // The same batch with each deployment compared and cleaned up before the next is looked at
  function OneByOne(env: Env, t: Tables, ids: seq<string>, window: u64, times: seq<u64>): (Tables, seq<Outcome>)
    requires |times| == |ids|
  {
    if ids == [] then (t, [])
    else
      var n := |ids| - 1;
      var before := OneByOne(env, t, ids[..n], window, times[..n]);
      var o := Compare(env, before.0, ids[n], window, times[n]);
      (CleanedAfter(before.0, o), before.1 + [o])
  }

  lemma OutcomesSnoc(env: Env, t: Tables, ids: seq<string>, window: u64, times: seq<u64>, id: string, now: u64)
    requires |times| == |ids|
    ensures Outcomes(env, t, ids + [id], window, times + [now]) ==
            Outcomes(env, t, ids, window, times) + [Compare(env, t, id, window, now)]
  {
  }

  lemma CleanedSnoc(t: Tables, os: seq<Outcome>, o: Outcome)
    ensures CleanedAfterAll(t, os + [o]) == CleanedAfter(CleanedAfterAll(t, os), o)
  {
    assert (os + [o])[..|os|] == os;
  }

  lemma CleanedOther(t: Tables, u: Tables, o: Outcome, other: string)
    requires SameRows(t, u, other) && (o.Ok? ==> o.value.deployment != other)
    ensures SameRows(t, CleanedAfter(u, o), other)
  {
    if o.Ok? {
      CleanupFrame(u, o.value.deployment, o.value.blockNumber, other);
    }
  }

  lemma {:induction false} OthersUntouched(t: Tables, os: seq<Outcome>, other: string)
    requires forall k :: 0 <= k < |os| && os[k].Ok? ==> os[k].value.deployment != other
    ensures SameRows(t, CleanedAfterAll(t, os), other)
  {
    if os != [] {
      OthersUntouched(t, os[..|os| - 1], other);
      CleanedOther(t, CleanedAfterAll(t, os[..|os| - 1]), os[|os| - 1], other);
    }
  }

  lemma OutcomeDeployments(env: Env, t: Tables, ids: seq<string>, window: u64, times: seq<u64>)
    requires |times| == |ids|
    ensures var os := Outcomes(env, t, ids, window, times);
            forall k :: 0 <= k < |os| && os[k].Ok? ==> os[k].value.deployment == ids[k]
  {
  }

  /** When no deployment is listed twice, comparing all and then cleaning up gives the same results and
      the same tables as taking the deployments one at a time: the tasks of a batch do not interfere. */
  lemma {:induction false} BatchIsSequential(env: Env, t: Tables, ids: seq<string>, window: u64, times: seq<u64>)
    requires |times| == |ids| && Distinct(ids)
    ensures var os := Outcomes(env, t, ids, window, times);
            OneByOne(env, t, ids, window, times) == (CleanedAfterAll(t, os), os)
  {
    if ids != [] {
      var n := |ids| - 1;
      var before := Outcomes(env, t, ids[..n], window, times[..n]);
      BatchIsSequential(env, t, ids[..n], window, times[..n]);
      OutcomeDeployments(env, t, ids[..n], window, times[..n]);
      OthersUntouched(t, before, ids[n]);
      CompareFrame(env, t, CleanedAfterAll(t, before), ids[n], window, times[n]);
      PrefixSnoc(ids, n);
      PrefixSnoc(times, n);
      assert ids[..n + 1] == ids && times[..n + 1] == times;
      OutcomesSnoc(env, t, ids[..n], window, times[..n], ids[n], times[n]);
      CleanedSnoc(t, before, Compare(env, t, ids[n], window, times[n]));
    }
  }
}
