/** The store over whole runs: sends, receptions, comparisons and cleanups of all deployments, freely
    interleaved.  A send is two steps, the check and the insert, as is a comparison, the verdict and its
    cleanup; anything may happen in between except another send, or comparison, of that deployment. */
module Lifecycle {
  import opened Core
  import opened Attestations
  import opened Aggregation
  import opened Comparison
  import opened Tables
  import opened CrossCheck
  import opened CrossCheckLaws
  import opened Operation

  // How a verdict is reached at a given time
  datatype Config = Config(judge: (Tables, string, u64) -> Outcome)

  // The radio: stakes and hashes from outside, and the collection window
  function Radio(env: Env, window: u64): Config {
    Config((t: Tables, id: string, now: u64) => Compare(env, t, id, window, now))
  }

  // All that most of this module needs to know of it: a verdict is about a local row.
  ghost predicate Sound(c: Config) {
    forall t: Tables, id: string, now: u64 :: c.judge(t, id, now).Ok? ==>
      LocalBlock(t, id, c.judge(t, id, now).value.blockNumber)
  }

  lemma RadioSound(env: Env, window: u64)
    ensures Sound(Radio(env, window))
  {
    forall t: Tables, id: string, now: u64 | Compare(env, t, id, window, now).Ok?
      ensures LocalBlock(t, id, Compare(env, t, id, window, now).value.blockNumber)
    {
      assert LocalAt(t.local, id, ComparisonPoint(t, id, window).value.block).Some?;
    }
  }

  // A send that has passed its checks: the block, and how far the deployment had synced
  datatype Ticket = Ticket(block: u64, latest: u64)

  datatype Event =
    | Sent(id: string, block: u64, latest: u64, ppoi: string, nonce: u64)
    | Verdicted(id: string, block: u64, resultType: ResultType)
    | Swept(id: string, block: u64)

  datatype State = State(tables: Tables, sending: map<string, Ticket>, cleaning: map<string, u64>, log: seq<Event>)

  const INIT := State(EMPTY, map[], map[], [])

  datatype Step =
    | BeginSend(id: string, block: u64, latest: u64)
    | EndSend(id: string, ppoi: string, nonce: u64)
    | AbortSend(id: string)
    | Receive(m: PoiMessage)
    | Judge(id: string, now: u64)
    | Sweep(id: string)

  // What passes validation: the account is that of a signer.
  predicate Receivable(m: PoiMessage) {
    WellFormedAddress(m.graphAccount)
  }

  predicate Enabled(s: State, step: Step) {
    match step
    case BeginSend(id, _, _) => id !in s.sending
    case EndSend(id, _, _) => id in s.sending
    case AbortSend(id) => id in s.sending
    case Receive(m) => Receivable(m)
    case Judge(id, _) => id !in s.cleaning
    case Sweep(id) => id in s.cleaning
  }

  // A verdict is on its way; its rows are still to be cleaned up.
  function Judged(s: State, id: string, r: ComparisonResult): State {
    s.(cleaning := s.cleaning[id := r.blockNumber], log := s.log + [Verdicted(id, r.blockNumber, r.resultType)])
  }

  function Next(c: Config, s: State, step: Step): State
    requires Enabled(s, step)
  {
    match step
    case BeginSend(id, block, latest) =>
      if SendGuard(s.tables, id, block, latest).Some? then s
      else s.(sending := s.sending[id := Ticket(block, latest)])
    case EndSend(id, ppoi, nonce) =>
      var k := s.sending[id];
      s.(tables := Inserted(s.tables, SentRow(id, k.block, ppoi, nonce)),
         sending := s.sending - {id},
         log := s.log + [Sent(id, k.block, k.latest, ppoi, nonce)])
    case AbortSend(id) => s.(sending := s.sending - {id})
    case Receive(m) => s.(tables := Received(s.tables, m))
    case Judge(id, now) =>
      (match c.judge(s.tables, id, now)
       case Err(_) => s
       case Ok(r) => Judged(s, id, r))
    case Sweep(id) =>
      s.(tables := Cleaned(s.tables, id, s.cleaning[id]),
         cleaning := s.cleaning - {id},
         log := s.log + [Swept(id, s.cleaning[id])])
  }

  // The state a list of steps leads to, if each of them is enabled when its turn comes
  function After(c: Config, s: State, steps: seq<Step>): Option<State> {
    if steps == [] then Some(s)
    else match After(c, s, steps[..|steps| - 1])
      case None => None
      case Some(t) => if Enabled(t, steps[|steps| - 1]) then Some(Next(c, t, steps[|steps| - 1])) else None
  }

  // ---------- the tables ----------

  ghost predicate RowSent(log: seq<Event>, a: Attestation) {
    exists e :: e in log && e.Sent? && e.block <= e.latest && a == SentRow(e.id, e.block, e.ppoi, e.nonce)
  }

  ghost predicate OneRowPerBlock(rows: seq<Attestation>) {
    && Distinct(rows)
    && forall a, b ::
         a in rows && b in rows && a.identifier == b.identifier && a.blockNumber == b.blockNumber ==> a == b
  }

  ghost predicate TablesInv(s: State) {
    && OneRowPerBlock(s.tables.local)
    && (forall a :: a in s.tables.local ==> RowSent(s.log, a))
    && (forall m :: m in s.tables.remote ==> m.ValidOuter())
    && WellFormedSenders(s.tables.remote)
    && (forall id :: id in s.sending ==>
          s.sending[id].block <= s.sending[id].latest && !LocalBlock(s.tables, id, s.sending[id].block))
    && (forall id :: id in s.cleaning ==> LocalBlock(s.tables, id, s.cleaning[id]))
  }

  lemma {:induction false} FilterDistinct(p: Attestation -> bool, s: seq<Attestation>)
    requires Distinct(s)
    ensures Distinct(Filter(p, s))
  {
    if s != [] {
      var init, x := s[..|s| - 1], s[|s| - 1];
      FilterDistinct(p, init);
      assert s == init + [x];
      DistinctSnoc(init, x);
      DistinctSnoc(Filter(p, init), x);
    }
  }

  lemma RowsStaySent(log: seq<Event>, e: Event, rows: seq<Attestation>)
    requires forall a :: a in rows ==> RowSent(log, a)
    ensures forall a :: a in rows ==> RowSent(log + [e], a)
  {
    forall a | a in rows
      ensures RowSent(log + [e], a)
    {
      var x :| x in log && x.Sent? && x.block <= x.latest && a == SentRow(x.id, x.block, x.ppoi, x.nonce);
      assert x in log + [e];
    }
  }

  lemma EndSendKeeps(c: Config, s: State, id: string, ppoi: string, nonce: u64)
    requires TablesInv(s) && id in s.sending
    ensures var s' := Next(c, s, EndSend(id, ppoi, nonce));
            TablesInv(s') && s'.tables.local == s.tables.local + [SentRow(id, s.sending[id].block, ppoi, nonce)]
  {
    var k, a := s.sending[id], SentRow(id, s.sending[id].block, ppoi, nonce);
    var s' := Next(c, s, EndSend(id, ppoi, nonce));
    var rows, rows' := s.tables.local, s.tables.local + [a];
    assert !Clashes(rows, a) && a !in rows;
    assert s'.tables.local == rows';
    DistinctSnoc(rows, a);
    var e := Sent(id, k.block, k.latest, ppoi, nonce);
    RowsStaySent(s.log, e, rows);
    assert e in s'.log && RowSent(s'.log, a);
    assert forall x :: x in rows' <==> x in rows || x == a;
    forall i | i in s'.cleaning
      ensures LocalBlock(s'.tables, i, s'.cleaning[i])
    {
      var x :| x in rows && x.identifier == i && x.blockNumber == s.cleaning[i];
      assert x in rows';
    }
  }

  lemma JudgedKeeps(s: State, id: string, r: ComparisonResult)
    requires TablesInv(s) && id !in s.cleaning && LocalBlock(s.tables, id, r.blockNumber)
    ensures TablesInv(Judged(s, id, r))
  {
    RowsStaySent(s.log, Verdicted(id, r.blockNumber, r.resultType), s.tables.local);
  }

  lemma JudgeKeeps(c: Config, s: State, id: string, now: u64)
    requires TablesInv(s) && id !in s.cleaning && Sound(c)
    ensures TablesInv(Next(c, s, Judge(id, now)))
  {
    var r := c.judge(s.tables, id, now);
    if r.Ok? {
      JudgedKeeps(s, id, r.value);
    }
  }

  lemma SweepKeeps(c: Config, s: State, id: string)
    requires TablesInv(s) && id in s.cleaning
    ensures TablesInv(Next(c, s, Sweep(id)))
  {
    var block := s.cleaning[id];
    var s' := Next(c, s, Sweep(id));
    FilterDistinct((a: Attestation) => !(a.identifier == id && UpTo(a.blockNumber, block)), s.tables.local);
    RowsStaySent(s.log, Swept(id, block), s'.tables.local);
    forall i | i in s'.cleaning
      ensures LocalBlock(s'.tables, i, s'.cleaning[i])
    {
      var x :| x in s.tables.local && x.identifier == i && x.blockNumber == s.cleaning[i];
      assert x in s'.tables.local;
    }
  }

  lemma ReceiveKeeps(c: Config, s: State, m: PoiMessage)
    requires TablesInv(s) && Receivable(m)
    ensures TablesInv(Next(c, s, Receive(m)))
  {
    var s' := Next(c, s, Receive(m));
    assert s'.tables.local == s.tables.local;
    assert forall i, b :: LocalBlock(s'.tables, i, b) <==> LocalBlock(s.tables, i, b);
  }

  lemma StepKeeps(c: Config, s: State, step: Step)
    requires TablesInv(s) && Enabled(s, step) && Sound(c)
    ensures TablesInv(Next(c, s, step))
  {
    match step
    case BeginSend(id, block, latest) =>
    case EndSend(id, ppoi, nonce) => EndSendKeeps(c, s, id, ppoi, nonce);
    case AbortSend(id) =>
    case Receive(m) => ReceiveKeeps(c, s, m);
    case Judge(id, now) => JudgeKeeps(c, s, id, now);
    case Sweep(id) => SweepKeeps(c, s, id);
  }

  /** In every reachable state a deployment has at most one local row per block, every row records a
      send made when the deployment had synced to its block, the insert of a send in progress cannot be
      refused, and no stored sender is one whose address a comparison would fail to decode. */
  lemma {:induction false} TablesInvariant(c: Config, steps: seq<Step>)
    requires Sound(c) && After(c, INIT, steps).Some?
    ensures TablesInv(After(c, INIT, steps).value)
  {
    if steps != [] {
      TablesInvariant(c, steps[..|steps| - 1]);
      StepKeeps(c, After(c, INIT, steps[..|steps| - 1]).value, steps[|steps| - 1]);
    }
  }
}
