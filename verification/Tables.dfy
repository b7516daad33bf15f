/** The five database tables as values: the rows each query selects, keeps or refuses. */
module Tables {
  import opened Core
  import opened DecimalText
  import opened Attestations
  import opened Aggregation
  import opened Comparison

  datatype Notification = Notification(deployment: string, message: string)

  // The result type is kept as the text `Display` writes; reading it back parses that text.
  datatype ResultRow = ResultRow(
    blockNumber: u64,
    resultType: string,
    localAttestation: Option<Attestation>,
    attestations: seq<Attestation>)

  datatype UpgradeRow = UpgradeRow(
    deployment: string, nonce: u64, graphAccount: string, newHash: string, signature: string)

  datatype Tables = Tables(
    local: seq<Attestation>,
    remote: seq<PoiMessage>,
    results: map<string, ResultRow>,
    notifications: seq<Notification>,
    upgrades: map<string, UpgradeRow>)

  const EMPTY := Tables([], [], map[], [], map[])

  datatype DatabaseError = UniqueViolation | ParseError

  // block_number <= ?, on two text columns
  predicate UpTo(block: u64, limit: u64) {
    TextLe(Render(block), Render(limit))
  }

  // ---------- local_attestations ----------

  function LocalRows(rows: seq<Attestation>, id: string): seq<Attestation> {
    Filter((a: Attestation) => a.identifier == id, rows)
  }

  // SELECT ... WHERE identifier = ? AND block_number = ?, first row
  function LocalAt(rows: seq<Attestation>, id: string, block: u64): (r: Option<Attestation>)
    ensures r.Some? ==> r.value in rows && r.value.identifier == id && r.value.blockNumber == block
    ensures r.None? ==> forall a :: a in rows ==> a.identifier != id || a.blockNumber != block
  {
    if rows == [] then None
    else if rows[0].identifier == id && rows[0].blockNumber == block then Some(rows[0])
    else LocalAt(rows[1..], id, block)
  }

  // UNIQUE (block_number, identifier, ppoi)
  predicate Clashes(rows: seq<Attestation>, a: Attestation) {
    exists r :: r in rows && r.blockNumber == a.blockNumber && r.identifier == a.identifier && r.ppoi == a.ppoi
  }

  // What a DELETE ... WHERE identifier = ? AND block_number <= ? leaves
  function KeepLocal(rows: seq<Attestation>, id: string, block: u64): seq<Attestation> {
    Filter((a: Attestation) => !(a.identifier == id && UpTo(a.blockNumber, block)), rows)
  }

  // ---------- remote_ppoi_messages ----------

  // What comes back when a stored message is read: one column each for the duplicated fields.
  function Stored(m: PoiMessage): PoiMessage {
    m.(payload := m.payload.(identifier := m.identifier, nonce := m.nonce, graphAccount := m.graphAccount))
  }

  function RemoteRows(rows: seq<PoiMessage>, id: string): seq<PoiMessage> {
    Filter((m: PoiMessage) => m.identifier == id, rows)
  }

  function KeepRemote(rows: seq<PoiMessage>, id: string, block: u64): seq<PoiMessage> {
    Filter((m: PoiMessage) => !(m.identifier == id && UpTo(m.payload.blockNumber, block)), rows)
  }

  // A stored message keeps what was sent, and its duplicated fields agree.
  lemma StoredValid(m: PoiMessage)
    ensures Stored(m).ValidOuter()
    ensures m.ValidOuter() <==> Stored(m) == m
  {
  }

  // ---------- comparison_results ----------

  function TypeName(t: ResultType): string {
    match t
    case NotFound => "NotFound"
    case Divergent => "Divergent"
    case Match => "Match"
    case BuildFailed => "Failed to build message"
  }

  function ParseType(s: string): Option<ResultType> {
    if s == "NotFound" then Some(NotFound)
    else if s == "Divergent" then Some(Divergent)
    else if s == "Match" then Some(Match)
    else if s == "BuildFailed" then Some(BuildFailed)
    else None
  }

  /** A result type survives being stored and read back unless it is BuildFailed, whose written form
      is not one the parser accepts. */
  lemma TypeRoundTrip(t: ResultType)
    ensures ParseType(TypeName(t)) == Some(t) <==> t != BuildFailed
    ensures t == BuildFailed ==> ParseType(TypeName(t)) == None
  {
    assert "Failed to build message"[0] == 'F';
    assert "NotFound"[0] == 'N' && "Divergent"[0] == 'D' && "Match"[0] == 'M' && "BuildFailed"[0] == 'B';
  }

  /** The four texts that can be read, and what each is read as. */
  lemma ParseExact(s: string)
    ensures ParseType(s) == Some(NotFound) <==> s == "NotFound"
    ensures ParseType(s) == Some(Divergent) <==> s == "Divergent"
    ensures ParseType(s) == Some(Match) <==> s == "Match"
    ensures ParseType(s) == Some(BuildFailed) <==> s == "BuildFailed"
  {
    assert "NotFound"[0] == 'N' && "Divergent"[0] == 'D' && "Match"[0] == 'M' && "BuildFailed"[0] == 'B';
  }

  function RowOf(r: ComparisonResult): ResultRow {
    ResultRow(r.blockNumber, TypeName(r.resultType), r.localAttestation, r.attestations)
  }

  // SELECT ... WHERE deployment = ?, the type parsed
  function ReadResult(rows: map<string, ResultRow>, deployment: string)
    : Result<Option<ComparisonResult>, DatabaseError>
  {
    if deployment !in rows then Ok(None)
    else
      var row := rows[deployment];
      match ParseType(row.resultType)
      case None => Err(ParseError)
      case Some(t) => Ok(Some(ComparisonResult(deployment, row.blockNumber, t, row.localAttestation, row.attestations)))
  }

  /** A result that has been saved is read back, whole, if and only if it is not a BuildFailed; and what is
      read of other deployments is what it was. */
  lemma SavedIsRead(rows: map<string, ResultRow>, r: ComparisonResult, other: string)
    ensures var saved := rows[r.deployment := RowOf(r)];
            && (ReadResult(saved, r.deployment) == Ok(Some(r)) <==> r.resultType != BuildFailed)
            && (other != r.deployment ==> ReadResult(saved, other) == ReadResult(rows, other))
  {
    TypeRoundTrip(r.resultType);
  }

  // ---------- notifications ----------

  predicate Pending(ns: seq<Notification>, deployment: string) {
    exists n :: n in ns && n.deployment == deployment
  }

  // ---------- upgrade_intent_messages ----------

  // nonce > ? on a text column, the bound computed in 64 bits
  predicate TooSoon(stored: u64, nonce: u64, threshold: u64) {
    !TextLe(Render(stored), Render(WrappingSub(nonce, threshold)))
  }

  // EXISTS (... WHERE subgraph_id = ? AND nonce > ?)
  predicate RecentlyUpgraded(rows: map<string, UpgradeRow>, subgraph: string, nonce: u64, threshold: u64) {
    subgraph in rows && TooSoon(rows[subgraph].nonce, nonce, threshold)
  }

  // ---------- what the text comparison does to the two deletes ----------

  // The delete as it reads: rows of the deployment up to the block go, all others stay.
  function KeepAbove(rows: seq<Attestation>, id: string, block: u64): seq<Attestation> {
    Filter((a: Attestation) => !(a.identifier == id && a.blockNumber <= block), rows)
  }

  function KeepRemoteAbove(rows: seq<PoiMessage>, id: string, block: u64): seq<PoiMessage> {
    Filter((m: PoiMessage) => !(m.identifier == id && m.payload.blockNumber <= block), rows)
  }

  /** The cleanup of local rows drops exactly the rows of this deployment up to the block, and keeps
      all others in order, if and only if every such row's number and text compare alike. */
  lemma LocalCleanupExact(rows: seq<Attestation>, id: string, block: u64)
    ensures KeepLocal(rows, id, block) == KeepAbove(rows, id, block) <==>
            forall a :: a in rows && a.identifier == id ==> OrdersAlike(a.blockNumber, block)
  {
    forall a | a in rows
      ensures (UpTo(a.blockNumber, block) <==> a.blockNumber <= block) <==> OrdersAlike(a.blockNumber, block)
    {
      TextAgreesExactly(a.blockNumber, block);
    }
    if forall a :: a in rows && a.identifier == id ==> OrdersAlike(a.blockNumber, block) {
      FilterCongruent((a: Attestation) => !(a.identifier == id && UpTo(a.blockNumber, block)),
                      (a: Attestation) => !(a.identifier == id && a.blockNumber <= block), rows);
    } else {
      var a :| a in rows && a.identifier == id && !OrdersAlike(a.blockNumber, block);
      assert a in KeepLocal(rows, id, block) <==> a !in KeepAbove(rows, id, block);
    }
  }

  /** The same for the remote messages. */
  lemma RemoteCleanupExact(rows: seq<PoiMessage>, id: string, block: u64)
    ensures KeepRemote(rows, id, block) == KeepRemoteAbove(rows, id, block) <==>
            forall m :: m in rows && m.identifier == id ==> OrdersAlike(m.payload.blockNumber, block)
  {
    forall m | m in rows
      ensures (UpTo(m.payload.blockNumber, block) <==> m.payload.blockNumber <= block)
         <==> OrdersAlike(m.payload.blockNumber, block)
    {
      TextAgreesExactly(m.payload.blockNumber, block);
    }
    if forall m :: m in rows && m.identifier == id ==> OrdersAlike(m.payload.blockNumber, block) {
      FilterCongruent((m: PoiMessage) => !(m.identifier == id && UpTo(m.payload.blockNumber, block)),
                      (m: PoiMessage) => !(m.identifier == id && m.payload.blockNumber <= block), rows);
    } else {
      var m :| m in rows && m.identifier == id && !OrdersAlike(m.payload.blockNumber, block);
      assert m in KeepRemote(rows, id, block) <==> m !in KeepRemoteAbove(rows, id, block);
    }
  }

  /** Across every digit rollover the cleanup is wrong both ways: cleaning up at 10..0 keeps 9..9, and
      cleaning up at 9..9 drops 10..0. */
  lemma CleanupAtRollover(low: Attestation, high: Attestation, k: nat)
    requires k > 0 && low.identifier == high.identifier
    requires low.blockNumber == Pow10(k) - 1 && high.blockNumber == Pow10(k)
    ensures KeepLocal([low, high], low.identifier, high.blockNumber) == [low]
    ensures KeepLocal([low, high], low.identifier, low.blockNumber) == []
  {
    RolloverReversed(k);
    SameLengthOrder(low.blockNumber, low.blockNumber);
    SameLengthOrder(high.blockNumber, high.blockNumber);
    assert [low, high] == ([] + [low]) + [high];
    forall limit: u64 | limit == low.blockNumber || limit == high.blockNumber
      ensures KeepLocal([low, high], low.identifier, limit) ==
              if limit == low.blockNumber then [] else [low]
    {
      var keep := (a: Attestation) => !(a.identifier == low.identifier && UpTo(a.blockNumber, limit));
      FilterSnoc(keep, [low], high);
      FilterSnoc(keep, [], low);
      assert [] + [low] == [low] && [low] + [high] == [low, high];
    }
  }
}
