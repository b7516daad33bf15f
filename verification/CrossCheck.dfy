/** One cross-check: choosing the block and the moment to compare, gathering the messages that count,
    reaching a verdict, and cleaning up after it. */
module CrossCheck {
  import opened Core
  import opened StableSort
  import opened Attestations
  import opened Aggregation
  import opened AggregationLaws
  import opened Comparison
  import opened Tables
  import opened Store

  datatype ComparisonError =
    | NoComparisonPoint
    | CompareTrigger(id: string, block: u64)
    | AttestationFailed(error: AttestationError)
    | RecordNotFound

  // ---------- the comparison point ----------

  // The key the code minimises; a row without a timestamp sorts last.
  function Key(a: Attestation): (u64, u64) {
    if a.timestamp == [] then (U64_MAX, U64_MAX) else (a.blockNumber, a.timestamp[0])
  }

  predicate KeyLess(k: (u64, u64), l: (u64, u64)) {
    k.0 < l.0 || (k.0 == l.0 && k.1 < l.1)
  }

  // Iterator::min_by_key keeps the first of equal minima.
  function MinByKey(rows: seq<Attestation>): (r: Option<Attestation>)
    ensures r.None? <==> rows == []
    ensures r.Some? ==> r.value in rows
  {
    if rows == [] then None
    else
      var best, last := MinByKey(rows[..|rows| - 1]), rows[|rows| - 1];
      if best.None? || KeyLess(Key(last), Key(best.value)) then Some(last) else best
  }

  function RemoteBlocks(remote: seq<PoiMessage>, id: string): set<u64> {
    set m | m in RemoteRows(remote, id) :: m.payload.blockNumber
  }

  // The local rows somebody else has attested too
  function SharedRows(t: Tables, id: string): seq<Attestation> {
    var blocks := RemoteBlocks(t.remote, id);
    Filter((a: Attestation) => a.blockNumber in blocks, LocalRows(t.local, id))
  }

  // The block to compare and the end of its collection window
  datatype Point = Point(block: u64, end: u64)

  function ComparisonPoint(t: Tables, id: string, window: u64): Option<Point> {
    match MinByKey(SharedRows(t, id))
    case None => None
    case Some(a) => Some(Point(a.blockNumber, WrappingAdd(if a.timestamp == [] then 0 else a.timestamp[0], window)))
  }

  method LocalComparisonPoint(db: Database, id: string, window: u64) returns (r: Option<Point>)
    ensures r == ComparisonPoint(db.Contents(), id, window)
  {
    var localAttestations := db.GetLocalAttestationsByIdentifier(id);
    var remoteMessages := db.GetRemotePpoiMessagesByIdentifier(id);
    var remoteBlocks := set m | m in remoteMessages :: m.payload.blockNumber;
    var shared := Filter((a: Attestation) => a.blockNumber in remoteBlocks, localAttestations);
    var least := MinByKey(shared);
    if least.None? {
      return None;
    }
    var timestamp := if least.value.timestamp == [] then 0 else least.value.timestamp[0];
    r := Some(Point(least.value.blockNumber, WrappingAdd(timestamp, window)));
  }

  // ---------- the verdict ----------

  // The messages that count: at the block, and not after the end of the window
  function InWindow(remote: seq<PoiMessage>, id: string, p: Point): seq<PoiMessage> {
    Filter((m: PoiMessage) => m.payload.blockNumber == p.block && m.nonce <= p.end, RemoteRows(remote, id))
  }

  // A comparison once its point has been chosen
  function CompareAt(env: Env, t: Tables, point: Option<Point>, id: string, now: u64)
    : (r: Result<ComparisonResult, ComparisonError>)
    ensures r.Ok? ==> r.value.deployment == id && r.value.resultType != BuildFailed
  {
    match point
    case None => Err(NoComparisonPoint)
    case Some(p) =>
      if now < p.end then Err(CompareTrigger(id, p.block))
      else if !StakesKnown(env, InWindow(t.remote, id, p)) then Err(AttestationFailed(BuildError))
      else match LocalAt(t.local, id, p.block)
        case None => Err(RecordNotFound)
        case Some(local) => Ok(Compared(Some(local), p.block, id, Gathered(env, t.remote, id, p)))
  }

  function Compare(env: Env, t: Tables, id: string, window: u64, now: u64)
    : (r: Result<ComparisonResult, ComparisonError>)
    ensures r.Ok? ==> r.value.deployment == id && r.value.resultType != BuildFailed
  {
    CompareAt(env, t, ComparisonPoint(t, id, window), id, now)
  }

  // The attestations the messages that count add up to
  function Gathered(env: Env, remote: seq<PoiMessage>, id: string, p: Point): seq<Attestation> {
    Lookup(Fold(env, InWindow(remote, id, p)), id, p.block)
  }

  method PoiMessageComparison(env: Env, db: Database, id: string, window: u64, now: u64)
    returns (r: Result<ComparisonResult, ComparisonError>)
    requires WellFormedSenders(db.remote)
    ensures r == Compare(env, db.Contents(), id, window, now)
  {
    var point := LocalComparisonPoint(db, id, window);
    if point.None? {
      return Err(NoComparisonPoint);
    }
    var Point(block, end) := point.value;
    if now < end {
      return Err(CompareTrigger(id, block));
    }
    var messages := db.GetRemotePpoiMessagesByIdentifier(id);
    messages := Filter((m: PoiMessage) => m.payload.blockNumber == block && m.nonce <= end, messages);
    var remote := ProcessPpoiMessage(env, messages);
    if remote.Err? {
      return Err(AttestationFailed(remote.error));
    }
    var local := db.GetLocalAttestation(id, block);
    if local.None? {
      return Err(RecordNotFound);
    }
    var result := CompareAttestations(local, block, remote.value, id);
    r := Ok(result);
  }

  // ---------- cleaning up ----------

  function Cleaned(t: Tables, id: string, block: u64): Tables {
    t.(local := KeepLocal(t.local, id, block), remote := KeepRemote(t.remote, id, block))
  }

  method CleanupAfterComparison(db: Database, r: ComparisonResult)
    modifies db`local, db`remote
    ensures db.Contents() == Cleaned(old(db.Contents()), r.deployment, r.blockNumber)
  {
    var _ := db.DeleteOutdatedLocalAttestations(r.deployment, r.blockNumber);
    var _ := db.CleanRemotePpoiMessages(r.deployment, r.blockNumber);
  }

  // ---------- what the comparison point is ----------

  // Every row the radio writes has exactly one timestamp.
  ghost predicate Timed(rows: seq<Attestation>) {
    forall a :: a in rows ==> |a.timestamp| == 1
  }

  // A block both attested locally and reported by somebody else
  ghost predicate SharedBlock(t: Tables, id: string, block: u64) {
    && (exists a :: a in t.local && a.identifier == id && a.blockNumber == block)
    && (exists m :: m in t.remote && m.AtBlock(id, block))
  }

  lemma {:induction false} MinByKeyLeast(rows: seq<Attestation>)
    ensures forall a :: a in rows ==> !KeyLess(Key(a), Key(MinByKey(rows).value))
  {
    if rows != [] {
      MinByKeyLeast(rows[..|rows| - 1]);
      var best, last := MinByKey(rows[..|rows| - 1]), rows[|rows| - 1];
      forall a | a in rows
        ensures !KeyLess(Key(a), Key(MinByKey(rows).value))
      {
        assert a in rows[..|rows| - 1] || a == last;
      }
    }
  }

  lemma SharedRowsExact(t: Tables, id: string)
    ensures forall a :: a in SharedRows(t, id) <==>
              a in t.local && a.identifier == id && SharedBlock(t, id, a.blockNumber)
  {
    forall block
      ensures block in RemoteBlocks(t.remote, id) <==> exists m :: m in t.remote && m.AtBlock(id, block)
    {
      if block in RemoteBlocks(t.remote, id) {
        var m :| m in RemoteRows(t.remote, id) && m.payload.blockNumber == block;
        assert m in t.remote && m.AtBlock(id, block);
      }
      if m :| m in t.remote && m.AtBlock(id, block) {
        assert m in RemoteRows(t.remote, id);
      }
    }
  }

  // The end of the window that opens with the earliest timestamp recorded for a block
  ghost predicate EarliestEnd(local: seq<Attestation>, id: string, window: u64, p: Point)
    requires Timed(local)
  {
    exists a :: a in local && a.identifier == id && a.blockNumber == p.block
      && p.end == WrappingAdd(a.timestamp[0], window)
      && forall b :: b in local && b.identifier == id && b.blockNumber == p.block ==> a.timestamp[0] <= b.timestamp[0]
  }

  ghost predicate IsPoint(t: Tables, id: string, window: u64, p: Point)
    requires Timed(t.local)
  {
    && SharedBlock(t, id, p.block)
    && (forall other :: SharedBlock(t, id, other) ==> p.block <= other)
    && EarliestEnd(t.local, id, window, p)
  }

  /** There is a comparison point exactly when some block is shared; it is the least shared block,
      with the earliest timestamp recorded for that block plus the collection window. */
  lemma PointExact(t: Tables, id: string, window: u64)
    requires Timed(t.local)
    ensures match ComparisonPoint(t, id, window)
            case None => forall block :: !SharedBlock(t, id, block)
            case Some(p) => IsPoint(t, id, window, p)
  {
    var rows := SharedRows(t, id);
    SharedRowsExact(t, id);
    MinByKeyLeast(rows);
    match MinByKey(rows)
    case None =>
    case Some(a) =>
      assert a in rows && a in t.local;
      forall other | SharedBlock(t, id, other)
        ensures a.blockNumber <= other
      {
        var b :| b in t.local && b.identifier == id && b.blockNumber == other;
        assert b in rows && !KeyLess(Key(b), Key(a));
      }
      forall b | b in t.local && b.identifier == id && b.blockNumber == a.blockNumber
        ensures a.timestamp[0] <= b.timestamp[0]
      {
        assert b in rows && !KeyLess(Key(b), Key(a));
      }
  }

  // A row comes before another in the code's eyes: rows without a timestamp last, the others by block and
  // by first timestamp.
  predicate Precedes(a: Attestation, b: Attestation) {
    && a.timestamp != []
    && (if b.timestamp == [] then a.blockNumber != U64_MAX || a.timestamp[0] != U64_MAX
        else a.blockNumber < b.blockNumber || (a.blockNumber == b.blockNumber && a.timestamp[0] < b.timestamp[0]))
  }

  // Row i is one that no other comes before, and the first of these.
  ghost predicate FirstRow(rows: seq<Attestation>, i: nat) {
    && i < |rows|
    && (forall j :: 0 <= j < |rows| ==> !Precedes(rows[j], rows[i]))
    && (forall j :: 0 <= j < i ==> Precedes(rows[i], rows[j]))
  }

  lemma BeforeAll(a: Attestation, b: Attestation, c: Attestation)
    requires Precedes(a, b) && !Precedes(c, b)
    ensures Precedes(a, c) && !Precedes(c, a)
  {
  }

  lemma FirstRowSnoc(rows: seq<Attestation>, a: Attestation, i: nat)
    requires FirstRow(rows, i)
    ensures FirstRow(rows + [a], if Precedes(a, rows[i]) then |rows| else i)
  {
    if Precedes(a, rows[i]) {
      forall j | 0 <= j < |rows|
        ensures Precedes(a, rows[j]) && !Precedes(rows[j], a)
      {
        BeforeAll(a, rows[i], rows[j]);
      }
    }
  }

  lemma MinByKeySnoc(rows: seq<Attestation>, a: Attestation)
    ensures MinByKey(rows + [a]) ==
            if MinByKey(rows).None? || Precedes(a, MinByKey(rows).value) then Some(a) else MinByKey(rows)
  {
    assert (rows + [a])[..|rows|] == rows;
  }

  lemma {:induction false} MinByKeyFirst(rows: seq<Attestation>) returns (i: nat)
    requires rows != []
    ensures FirstRow(rows, i) && MinByKey(rows) == Some(rows[i])
  {
    var init, a := rows[..|rows| - 1], rows[|rows| - 1];
    assert rows == init + [a];
    MinByKeySnoc(init, a);
    if init == [] {
      i := 0;
    } else {
      i := MinByKeyFirst(init);
      FirstRowSnoc(init, a, i);
      i := if Precedes(a, init[i]) then |init| else i;
    }
  }

  /** The comparison point of any tables, rows without a timestamp included: the block of the first shared
      row that no other comes before, and its first timestamp, or zero, plus the window. */
  lemma PointOfFirst(t: Tables, id: string, window: u64) returns (i: nat)
    requires SharedRows(t, id) != []
    ensures var rows := SharedRows(t, id);
            && FirstRow(rows, i)
            && ComparisonPoint(t, id, window) == Some(Point(
                 rows[i].blockNumber, WrappingAdd(if rows[i].timestamp == [] then 0 else rows[i].timestamp[0], window)))
  {
    i := MinByKeyFirst(SharedRows(t, id));
  }

  /** That describes it completely. */
  lemma PointUnique(t: Tables, id: string, window: u64, p: Point)
    requires Timed(t.local) && IsPoint(t, id, window, p)
    ensures ComparisonPoint(t, id, window) == Some(p)
  {
    PointExact(t, id, window);
    var q := ComparisonPoint(t, id, window).value;
    assert p.block <= q.block && q.block <= p.block;
    var a :| a in t.local && a.identifier == id && a.blockNumber == p.block
      && p.end == WrappingAdd(a.timestamp[0], window)
      && forall b :: b in t.local && b.identifier == id && b.blockNumber == p.block ==>
           a.timestamp[0] <= b.timestamp[0];
    var c :| c in t.local && c.identifier == id && c.blockNumber == q.block
      && q.end == WrappingAdd(c.timestamp[0], window)
      && forall b :: b in t.local && b.identifier == id && b.blockNumber == q.block ==>
           c.timestamp[0] <= b.timestamp[0];
    assert a.timestamp[0] == c.timestamp[0];
  }

  // ---------- what the verdict is ----------

  ghost predicate HeardInWindow(t: Tables, id: string, p: Point) {
    exists m :: m in t.remote && m.AtBlock(id, p.block) && m.nonce <= p.end
  }

  lemma InWindowExact(t: Tables, id: string, p: Point)
    ensures forall m :: m in InWindow(t.remote, id, p) <==>
              m in t.remote && m.AtBlock(id, p.block) && m.nonce <= p.end
    ensures InWindow(t.remote, id, p) != [] <==> HeardInWindow(t, id, p)
  {
    var ms := InWindow(t.remote, id, p);
    if ms != [] {
      assert ms[0] in ms;
    }
  }

  lemma GroupsEmpty(env: Env, ms: seq<PoiMessage>, id: string, block: u64)
    requires forall m :: m in ms ==> m.AtBlock(id, block)
    ensures Lookup(Fold(env, ms), id, block) == [] <==> ms == []
  {
    FoldRepresents(env, ms);
    if ms != [] {
      assert ms[0] in ms && ms[0].Attests(id, block, ms[0].payload.content);
      PpoisAttested(ms, id, block, ms[0].payload.content);
    }
  }

  // The verdict on a block that is in both tables
  lemma VerdictAt(env: Env, t: Tables, id: string, p: Point)
    requires SharedBlock(t, id, p.block)
    ensures var local := LocalAt(t.local, id, p.block);
            var r := Compared(local, p.block, id, Gathered(env, t.remote, id, p));
            local.Some? && r.resultType != BuildFailed && (r.resultType == NotFound <==> !HeardInWindow(t, id, p))
  {
    InWindowExact(t, id, p);
    GroupsEmpty(env, InWindow(t.remote, id, p), id, p.block);
    assert LocalAt(t.local, id, p.block).Some?;
  }

  // The stake behind some message that counts cannot be looked up.
  ghost predicate StakeMissing(env: Env, t: Tables, id: string, p: Point) {
    exists m :: m in t.remote && m.AtBlock(id, p.block) && m.nonce <= p.end && env.stake(m.payload.graphAccount).None?
  }

  lemma StakeMissingExact(env: Env, t: Tables, id: string, p: Point)
    ensures StakeMissing(env, t, id, p) <==> !StakesKnown(env, InWindow(t.remote, id, p))
  {
    InWindowExact(t, id, p);
    if m :| m in InWindow(t.remote, id, p) && !StakeKnown(env, m) {
      assert m in t.remote && m.AtBlock(id, p.block) && m.nonce <= p.end;
    }
    if m :| m in t.remote && m.AtBlock(id, p.block) && m.nonce <= p.end && env.stake(m.payload.graphAccount).None? {
      assert !StakeKnown(env, m);
    }
  }

  /** Every outcome of a comparison, told from the tables alone.  A verdict comes at or after the end of
      the window, about the comparison point; it is NotFound exactly when no stored message for that
      block arrived in the window, and never BuildFailed; the local record is never missing; and the remote
      attestations are those gathered, heaviest first. */
  lemma OutcomeExact(env: Env, t: Tables, id: string, window: u64, now: u64)
    requires Timed(t.local)
    ensures var r := Compare(env, t, id, window, now);
            match ComparisonPoint(t, id, window)
            case None => r == Err(NoComparisonPoint)
            case Some(p) =>
              if now < p.end then r == Err(CompareTrigger(id, p.block))
              else if StakeMissing(env, t, id, p) then r == Err(AttestationFailed(BuildError))
              else
                && r.Ok? && r.value.deployment == id && r.value.blockNumber == p.block
                && r.value.localAttestation == LocalAt(t.local, id, p.block)
                && r.value.localAttestation.Some?
                && HeaviestFirst(Gathered(env, t.remote, id, p), r.value.attestations)
                && (r.value.resultType == NotFound <==> !HeardInWindow(t, id, p))
                && r.value.resultType != BuildFailed
  {
    PointExact(t, id, window);
    match ComparisonPoint(t, id, window)
    case None =>
    case Some(p) =>
      StakeMissingExact(env, t, id, p);
      VerdictAt(env, t, id, p);
      SortHeaviest(Gathered(env, t.remote, id, p));
  }

  /** A verdict is Match, rather than Divergent, exactly when the last-arrived of the least-staked
      attestations gathered in the window carries the local PPOI. */
  lemma MatchExact(env: Env, t: Tables, id: string, window: u64, now: u64)
    requires Compare(env, t, id, window, now).Ok?
    ensures var r := Compare(env, t, id, window, now).value;
            var list := Gathered(env, t.remote, id, ComparisonPoint(t, id, window).value);
            r.localAttestation.Some? && (r.resultType == Match <==> LeastCarries(list, r.localAttestation.value.ppoi))
  {
    var r, p := Compare(env, t, id, window, now).value, ComparisonPoint(t, id, window).value;
    MatchesLeast(r.localAttestation.value, p.block, id, Gathered(env, t.remote, id, p));
  }

  /** No PPOI is listed twice in the result of a comparison. */
  lemma DistinctInResult(env: Env, t: Tables, id: string, window: u64, now: u64)
    requires Compare(env, t, id, window, now).Ok?
    ensures DistinctPpois(Compare(env, t, id, window, now).value.attestations)
  {
    var p := ComparisonPoint(t, id, window).value;
    FoldDistinct(env, InWindow(t.remote, id, p), id, p.block);
    SortMembers(Gathered(env, t.remote, id, p), HeavierFirst);
    DistinctRearranged(Gathered(env, t.remote, id, p), Sort(Gathered(env, t.remote, id, p), HeavierFirst));
  }

  lemma DistinctRearranged(list: seq<Attestation>, other: seq<Attestation>)
    requires DistinctPpois(list) && multiset(other) == multiset(list)
    ensures DistinctPpois(other)
  {
    var ppoi := (a: Attestation) => a.ppoi;
    var s, t := Map(ppoi, list), Map(ppoi, other);
    MapPermutation(ppoi, list, other);
    assert Distinct(s);
    DistinctPermutation(s, t);
    forall i, j | 0 <= i < j < |other|
      ensures other[i].ppoi != other[j].ppoi
    {
      assert t[i] != t[j];
    }
  }

  /** What the attestations of a result are: for each PPOI sent about the block in the window one, which
      lists the distinct senders and their first nonces, weighs what their stakes add up to modulo 2^64, and
      carries their group hash. */
  lemma ResultMeaning(env: Env, t: Tables, id: string, window: u64, now: u64)
    requires Compare(env, t, id, window, now).Ok? && forall m :: m in t.remote ==> m.ValidOuter()
    ensures var r, p := Compare(env, t, id, window, now).value, ComparisonPoint(t, id, window).value;
            && ListMeans(env, InWindow(t.remote, id, p), id, p.block, Gathered(env, t.remote, id, p))
            && HeaviestFirst(Gathered(env, t.remote, id, p), r.attestations)
            && forall a :: a in r.attestations ==> WeighsStakes(env, a)
  {
    var p := ComparisonPoint(t, id, window).value;
    GatheredMeaning(env, t, id, p);
    SortHeaviest(Gathered(env, t.remote, id, p));
    SortedWeigh(env, Gathered(env, t.remote, id, p));
  }

  lemma GatheredMeaning(env: Env, t: Tables, id: string, p: Point)
    requires StakesKnown(env, InWindow(t.remote, id, p)) && forall m :: m in t.remote ==> m.ValidOuter()
    ensures ListMeans(env, InWindow(t.remote, id, p), id, p.block, Gathered(env, t.remote, id, p))
    ensures forall a :: a in Gathered(env, t.remote, id, p) ==> WeighsStakes(env, a)
  {
    var ms := InWindow(t.remote, id, p);
    forall m | m in ms
      ensures m.ValidOuter() && env.stake(m.graphAccount).Some?
    {
      assert StakeKnown(env, m);
    }
    TableMeaning(env, ms, id, p.block);
  }

  lemma SortedWeigh(env: Env, list: seq<Attestation>)
    requires forall a :: a in list ==> WeighsStakes(env, a)
    ensures forall a :: a in Sort(list, HeavierFirst) ==> WeighsStakes(env, a)
  {
    SortMembers(list, HeavierFirst);
    PermutationMembers(Sort(list, HeavierFirst), list);
  }
}
