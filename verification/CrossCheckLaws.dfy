/** What a comparison does not depend on: later and irrelevant messages, other deployments, and the
    order in which a batch of deployments is compared and cleaned up. */
module CrossCheckLaws {
  import opened Core
  import opened Attestations
  import opened Aggregation
  import opened Tables
  import opened CrossCheck

  function Received(t: Tables, m: PoiMessage): Tables {
    t.(remote := t.remote + [Stored(m)])
  }

  ghost predicate LocalBlock(t: Tables, id: string, block: u64) {
    exists a :: a in t.local && a.identifier == id && a.blockNumber == block
  }

  lemma SharedAfter(t: Tables, m: PoiMessage, id: string, block: u64)
    ensures SharedBlock(Received(t, m), id, block) <==>
            SharedBlock(t, id, block) || (LocalBlock(t, id, block) && Stored(m).AtBlock(id, block))
  {
    var t' := Received(t, m);
    assert forall x :: x in t'.remote <==> x in t.remote || x == Stored(m);
    assert Stored(m) in t'.remote;
  }

  // ---------- a message that arrives while a comparison is due ----------

  // The message makes a block comparable that is lower than every block comparable so far.
  ghost predicate Preempts(t: Tables, id: string, window: u64, m: PoiMessage) {
    && m.identifier == id && LocalBlock(t, id, m.payload.blockNumber)
    && match ComparisonPoint(t, id, window)
       case None => true
       case Some(p) => m.payload.blockNumber < p.block
  }

  // The message belongs to the comparison that is due.
  predicate Counts(t: Tables, id: string, window: u64, m: PoiMessage) {
    match ComparisonPoint(t, id, window)
    case None => false
    case Some(p) => m.AtBlock(id, p.block) && m.nonce <= p.end
  }

  lemma PointStays(t: Tables, id: string, window: u64, m: PoiMessage)
    requires Timed(t.local) && !Preempts(t, id, window, m)
    ensures ComparisonPoint(Received(t, m), id, window) == ComparisonPoint(t, id, window)
  {
    var t' := Received(t, m);
    PointExact(t, id, window);
    forall b | SharedBlock(t', id, b)
      ensures SharedBlock(t, id, b) || (m.AtBlock(id, b) && ComparisonPoint(t, id, window).Some?
                                        && ComparisonPoint(t, id, window).value.block <= b)
    {
      SharedAfter(t, m, id, b);
    }
    if ComparisonPoint(t, id, window).Some? {
      SharedAfter(t, m, id, ComparisonPoint(t, id, window).value.block);
      PointUnique(t', id, window, ComparisonPoint(t, id, window).value);
    } else {
      PointExact(t', id, window);
    }
  }

  /** A received message moves the comparison point exactly when it preempts it. */
  lemma PointMoves(t: Tables, id: string, window: u64, m: PoiMessage)
    requires Timed(t.local)
    ensures ComparisonPoint(Received(t, m), id, window) != ComparisonPoint(t, id, window) <==>
            Preempts(t, id, window, m)
  {
    if Preempts(t, id, window, m) {
      SharedAfter(t, m, id, m.payload.blockNumber);
      PointExact(Received(t, m), id, window);
    } else {
      PointStays(t, id, window, m);
    }
  }

  lemma InWindowSnoc(remote: seq<PoiMessage>, m: PoiMessage, id: string, p: Point)
    ensures InWindow(remote + [m], id, p) ==
            if m.AtBlock(id, p.block) && m.nonce <= p.end then InWindow(remote, id, p) + [m]
            else InWindow(remote, id, p)
  {
    FilterSnoc((x: PoiMessage) => x.identifier == id, remote, m);
    if m.identifier == id {
      FilterSnoc((x: PoiMessage) => x.payload.blockNumber == p.block && x.nonce <= p.end, RemoteRows(remote, id), m);
    }
  }

  /** A message that neither preempts the comparison point nor counts towards it changes nothing: not
      the verdict, and not the error if there is none. */
  lemma NonInterference(env: Env, t: Tables, id: string, window: u64, now: u64, m: PoiMessage)
    requires Timed(t.local)
    requires !Preempts(t, id, window, m) && !Counts(t, id, window, m)
    ensures Compare(env, Received(t, m), id, window, now) == Compare(env, t, id, window, now)
  {
    PointMoves(t, id, window, m);
    match ComparisonPoint(t, id, window)
    case None =>
    case Some(p) => InWindowSnoc(t.remote, Stored(m), id, p);
  }

  // ---------- messages that arrive in the middle of a comparison ----------

  function ReceivedAll(t: Tables, ms: seq<PoiMessage>): (u: Tables)
    ensures u.local == t.local
  {
    if ms == [] then t else Received(ReceivedAll(t, ms[..|ms| - 1]), ms[|ms| - 1])
  }

  // The messages that do not preempt the comparison
  ghost function Calm(t: Tables, id: string, window: u64, ms: seq<PoiMessage>): seq<PoiMessage> {
    if ms == [] then []
    else
      var before, m := Calm(t, id, window, ms[..|ms| - 1]), ms[|ms| - 1];
      if Preempts(t, id, window, m) then before else before + [m]
  }

  lemma ReceivedSnoc(t: Tables, ms: seq<PoiMessage>, m: PoiMessage)
    ensures ReceivedAll(t, ms + [m]) == Received(ReceivedAll(t, ms), m)
  {
    assert (ms + [m])[..|ms|] == ms;
  }

  lemma {:induction false} CalmKeepsPoint(t: Tables, id: string, window: u64, ms: seq<PoiMessage>)
    requires Timed(t.local)
    ensures ComparisonPoint(ReceivedAll(t, Calm(t, id, window, ms)), id, window) == ComparisonPoint(t, id, window)
  {
    if ms != [] {
      var init, m := ms[..|ms| - 1], ms[|ms| - 1];
      CalmKeepsPoint(t, id, window, init);
      if !Preempts(t, id, window, m) {
        var u := ReceivedAll(t, Calm(t, id, window, init));
        assert LocalBlock(u, id, m.payload.blockNumber) <==> LocalBlock(t, id, m.payload.blockNumber);
        PointStays(u, id, window, m);
        ReceivedSnoc(t, Calm(t, id, window, init), m);
      }
    }
  }

  lemma {:induction false} CalmKeepsWindow(t: Tables, id: string, window: u64, ms: seq<PoiMessage>, p: Point)
    requires ComparisonPoint(t, id, window) == Some(p)
    ensures InWindow(ReceivedAll(t, Calm(t, id, window, ms)).remote, id, p) ==
            InWindow(ReceivedAll(t, ms).remote, id, p)
  {
    if ms != [] {
      var init, m := ms[..|ms| - 1], ms[|ms| - 1];
      CalmKeepsWindow(t, id, window, init, p);
      InWindowSnoc(ReceivedAll(t, init).remote, Stored(m), id, p);
      if !Preempts(t, id, window, m) {
        ReceivedSnoc(t, Calm(t, id, window, init), m);
        InWindowSnoc(ReceivedAll(t, Calm(t, id, window, init)).remote, Stored(m), id, p);
      }
    }
  }

  lemma {:induction false} LaterRows(local: seq<Attestation>, rows: seq<Attestation>, id: string, block: u64)
    requires LocalAt(local, id, block).Some?
    ensures LocalAt(local + rows, id, block) == LocalAt(local, id, block)
  {
    if rows == [] {
      assert local + rows == local;
    } else {
      var init, a := rows[..|rows| - 1], rows[|rows| - 1];
      LaterRows(local, init, id, block);
      AppendSnoc(local, init, a);
      assert rows == init + [a];
      LocalAtSnoc(local + init, a, id, block);
    }
  }

  /** The point is chosen first; the messages and the local row are read later.  Whatever is sent and received
      in between, the outcome is that of a comparison made in one piece: the sends, and the messages that
      would have moved the point, count as made after it, all other messages as received before. */
  lemma ReadApart(env: Env, t: Tables, id: string, window: u64, now: u64, rows: seq<Attestation>, ms: seq<PoiMessage>)
    requires Timed(t.local)
    ensures CompareAt(env, ReceivedAll(t, ms).(local := t.local + rows), ComparisonPoint(t, id, window), id, now) ==
            Compare(env, ReceivedAll(t, Calm(t, id, window, ms)), id, window, now)
  {
    CalmKeepsPoint(t, id, window, ms);
    match ComparisonPoint(t, id, window)
    case None =>
    case Some(p) =>
      CalmKeepsWindow(t, id, window, ms, p);
      PointExact(t, id, window);
      assert LocalAt(t.local, id, p.block).Some?;
      LaterRows(t.local, rows, id, p.block);
  }

  // ---------- other deployments ----------

  // Two stores with the same rows for a deployment
  predicate SameRows(t: Tables, u: Tables, id: string) {
    LocalRows(t.local, id) == LocalRows(u.local, id) && RemoteRows(t.remote, id) == RemoteRows(u.remote, id)
  }

  lemma {:induction false} LocalAtOwnRows(rows: seq<Attestation>, id: string, block: u64)
    ensures LocalAt(rows, id, block) == LocalAt(LocalRows(rows, id), id, block)
  {
    if rows != [] {
      var init, a := rows[..|rows| - 1], rows[|rows| - 1];
      assert rows == init + [a];
      LocalAtOwnRows(init, id, block);
      LocalAtSnoc(init, a, id, block);
      LocalAtSnoc(LocalRows(init, id), a, id, block);
    }
  }

  lemma {:induction false} LocalAtSnoc(rows: seq<Attestation>, a: Attestation, id: string, block: u64)
    ensures LocalAt(rows + [a], id, block) ==
            if LocalAt(rows, id, block).Some? then LocalAt(rows, id, block)
            else if a.identifier == id && a.blockNumber == block then Some(a) else None
  {
    if rows == [] {
      assert rows + [a] == [a] && [a][1..] == [];
    } else {
      LocalAtSnoc(rows[1..], a, id, block);
      assert (rows + [a])[1..] == rows[1..] + [a];
    }
  }

  /** A comparison reads only the rows of its own deployment. */
  lemma CompareFrame(env: Env, t: Tables, u: Tables, id: string, window: u64, now: u64)
    requires SameRows(t, u, id)
    ensures Compare(env, t, id, window, now) == Compare(env, u, id, window, now)
  {
    match ComparisonPoint(t, id, window)
    case None =>
    case Some(p) =>
      LocalAtOwnRows(t.local, id, p.block);
      LocalAtOwnRows(u.local, id, p.block);
  }

  lemma {:induction false} KeepLocalOthers(rows: seq<Attestation>, id: string, block: u64, other: string)
    requires other != id
    ensures LocalRows(KeepLocal(rows, id, block), other) == LocalRows(rows, other)
  {
    if rows != [] {
      var init, a := rows[..|rows| - 1], rows[|rows| - 1];
      KeepLocalOthers(init, id, block, other);
      FilterSnoc((x: Attestation) => x.identifier == other, KeepLocal(init, id, block), a);
    }
  }

  lemma {:induction false} KeepRemoteOthers(rows: seq<PoiMessage>, id: string, block: u64, other: string)
    requires other != id
    ensures RemoteRows(KeepRemote(rows, id, block), other) == RemoteRows(rows, other)
  {
    if rows != [] {
      var init, m := rows[..|rows| - 1], rows[|rows| - 1];
      KeepRemoteOthers(init, id, block, other);
      FilterSnoc((x: PoiMessage) => x.identifier == other, KeepRemote(init, id, block), m);
    }
  }

  /** A cleanup leaves the rows of every other deployment as they are. */
  lemma CleanupFrame(t: Tables, id: string, block: u64, other: string)
    requires other != id
    ensures SameRows(t, Cleaned(t, id, block), other)
  {
    KeepLocalOthers(t.local, id, block, other);
    KeepRemoteOthers(t.remote, id, block, other);
  }

  /** What a cleanup does, table by table: of its own deployment it removes the blocks whose text is up to
      that of the compared block, and nothing else of any deployment. */
  lemma CleanupExact(t: Tables, id: string, block: u64, other: string, b: u64)
    ensures var u := Cleaned(t, id, block);
            var gone := other == id && UpTo(b, block);
            && (LocalBlock(u, other, b) <==> LocalBlock(t, other, b) && !gone)
            && (b in RemoteBlocks(u.remote, other) <==> b in RemoteBlocks(t.remote, other) && !gone)
            && u.results == t.results && u.notifications == t.notifications && u.upgrades == t.upgrades
  {
    var u := Cleaned(t, id, block);
    if LocalBlock(t, other, b) {
      var a :| a in t.local && a.identifier == other && a.blockNumber == b;
      assert a in u.local <==> !(other == id && UpTo(b, block));
    }
    if b in RemoteBlocks(t.remote, other) {
      var m :| m in RemoteRows(t.remote, other) && m.payload.blockNumber == b;
      assert m in RemoteRows(u.remote, other) <==> !(other == id && UpTo(b, block));
    }
  }
}
