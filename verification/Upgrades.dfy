/** Upgrade intent messages: who gets through the rate limit, and what is remembered. */
module Upgrades {
  import opened Core
  import opened DecimalText
  import opened Tables
  import opened Store

  datatype UpgradeIntent = UpgradeIntent(
    deployment: string, subgraphId: string, newHash: string, nonce: u64, graphAccount: string)

  // A GraphcastMessage around an upgrade intent
  datatype UpgradeMessage = UpgradeMessage(
    identifier: string, nonce: u64, graphAccount: string, payload: UpgradeIntent, signature: string)
  {
    predicate ValidOuter() {
      payload.nonce == nonce && payload.graphAccount == graphAccount
    }
  }

  // How the outside world treats a message: is its sender the subgraph's owner, and do the calls after
  // the notification, the automatic deployment, go through.
  datatype Attempt = Attempt(m: UpgradeMessage, owner: bool, deployed: bool)

  datatype Fate = Invalid | Suppressed | Accepted | Failed

  function FateOf(rows: map<string, UpgradeRow>, threshold: u64, a: Attempt): Fate {
    if !a.owner || !a.m.ValidOuter() then Invalid
    else if RecentlyUpgraded(rows, a.m.payload.subgraphId, a.m.payload.nonce, threshold) then Suppressed
    else if a.deployed then Accepted
    else Failed
  }

  // A suppressed message also finishes without an error, so it too is stored.
  predicate Finishes(f: Fate) {
    f == Suppressed || f == Accepted
  }

  // The operator is notified of the upgrade, whether or not the deployment then fails.
  predicate Announces(f: Fate) {
    f == Accepted || f == Failed
  }

  function RowOfMessage(m: UpgradeMessage): UpgradeRow {
    UpgradeRow(m.identifier, m.nonce, m.graphAccount, m.payload.newHash, m.signature)
  }

  function Remembered(rows: map<string, UpgradeRow>, threshold: u64, a: Attempt): map<string, UpgradeRow> {
    if Finishes(FateOf(rows, threshold, a)) then rows[a.m.payload.subgraphId := RowOfMessage(a.m)] else rows
  }

  // Processes a validated message: nothing more happens if there was a recent upgrade; otherwise the
  // operator is notified, and the deployment that follows may fail.
  method ProcessValidMessage(db: Database, intent: UpgradeIntent, threshold: u64, deployed: bool)
    returns (ok: bool, notified: bool)
    ensures var recent := RecentlyUpgraded(db.upgrades, intent.subgraphId, intent.nonce, threshold);
            notified == !recent && ok == (recent || deployed)
  {
    var recent := db.RecentUpgrade(intent.subgraphId, intent.nonce, threshold);
    if recent {
      return true, false;
    }
    notified := true;
    ok := deployed;
  }

  // The upgrade branch of the message processor
  method ProcessUpgradeMessage(db: Database, a: Attempt, threshold: u64) returns (notified: bool)
    modifies db`upgrades
    ensures db.upgrades == Remembered(old(db.upgrades), threshold, a)
    ensures notified <==> Announces(FateOf(old(db.upgrades), threshold, a))
    ensures var m := a.m;
            var valid := a.owner && m.payload.nonce == m.nonce && m.payload.graphAccount == m.graphAccount;
            var recent := RecentlyUpgraded(old(db.upgrades), m.payload.subgraphId, m.nonce, threshold);
            && notified == (valid && !recent)
            && db.upgrades ==
                 if valid && (recent || a.deployed)
                 then old(db.upgrades)[m.payload.subgraphId := UpgradeRow(
                        m.identifier, m.nonce, m.graphAccount, m.payload.newHash, m.signature)]
                 else old(db.upgrades)
  {
    notified := false;
    if a.owner && a.m.ValidOuter() {
      var ok;
      ok, notified := ProcessValidMessage(db, a.m.payload, threshold, a.deployed);
      if ok {
        db.SaveUpgradeIntentMessage(a.m.payload.subgraphId, RowOfMessage(a.m));
      }
    }
  }

  // ---------- histories ----------

  function RowsAfter(h: seq<Attempt>, threshold: u64): map<string, UpgradeRow> {
    if h == [] then map[] else Remembered(RowsAfter(h[..|h| - 1], threshold), threshold, h[|h| - 1])
  }

  function FateAt(h: seq<Attempt>, threshold: u64, i: int): Fate
    requires 0 <= i < |h|
  {
    FateOf(RowsAfter(h[..i], threshold), threshold, h[i])
  }

  function Subgraph(a: Attempt): string {
    a.m.payload.subgraphId
  }

  // Attempt i concerns a subgraph and finishes without an error.
  predicate FinishesAt(h: seq<Attempt>, threshold: u64, i: int, subgraph: string) {
    0 <= i < |h| && Subgraph(h[i]) == subgraph && Finishes(FateAt(h, threshold, i))
  }

  // i is the last attempt before j for this subgraph to finish without an error.
  ghost predicate LastFinish(h: seq<Attempt>, threshold: u64, i: int, j: int, subgraph: string) {
    && i < j && FinishesAt(h, threshold, i, subgraph)
    && forall k :: i < k < j ==> !FinishesAt(h, threshold, k, subgraph)
  }

  // What is remembered of a subgraph is the last message for it that finished.
  lemma {:induction false} RememberedLast(h: seq<Attempt>, threshold: u64, n: nat, subgraph: string) returns (i: int)
    requires n <= |h|
    ensures var rows := RowsAfter(h[..n], threshold);
            if subgraph in rows
            then LastFinish(h, threshold, i, n, subgraph) && rows[subgraph] == RowOfMessage(h[i].m)
            else forall k :: 0 <= k < n ==> !FinishesAt(h, threshold, k, subgraph)
    decreases n
  {
    i := -1;
    if n > 0 {
      i := RememberedLast(h, threshold, n - 1, subgraph);
      assert h[..n][..n - 1] == h[..n - 1];
      if FinishesAt(h, threshold, n - 1, subgraph) {
        i := n - 1;
      }
    }
  }

  // Two messages for one subgraph keep the same distance from each other in the database's eyes, which
  // compares texts and wraps at zero, as in truth.
  predicate Comparable(stored: u64, nonce: u64, threshold: u64) {
    if threshold <= nonce then OrdersAlike(stored, nonce - threshold)
    else
      // The bound has wrapped: to be found too soon, the stored text must read above it.
      var bound := nonce - threshold + U64_LIMIT;
      var ds, db := |Render(stored)|, |Render(bound)|;
      if ds <= db then DropDigits(bound, db - ds) < stored else bound <= DropDigits(stored, ds - db)
  }

  /** The query finds a nonce too soon after the stored one when it is less than the threshold after it,
      if and only if the two are comparable.  A nonce below the threshold is always that close; whether the
      query says so depends on how the stored text reads against the wrapped bound. */
  lemma TooSoonExact(stored: u64, nonce: u64, threshold: u64)
    ensures (TooSoon(stored, nonce, threshold) <==> nonce < stored + threshold) <==>
            Comparable(stored, nonce, threshold)
    ensures nonce < threshold ==> (TooSoon(stored, nonce, threshold) <==> Comparable(stored, nonce, threshold))
  {
    if threshold <= nonce {
      TextAgreesExactly(stored, nonce - threshold);
    } else {
      TextOrder(stored, nonce - threshold + U64_LIMIT);
    }
  }

  lemma LastFinishUnique(h: seq<Attempt>, threshold: u64, i: int, k: int, j: int, subgraph: string)
    requires LastFinish(h, threshold, i, j, subgraph) && LastFinish(h, threshold, k, j, subgraph)
    ensures i == k
  {
  }

  // What is known of a subgraph before message j if message i was the last to finish
  lemma StoredByLast(h: seq<Attempt>, threshold: u64, i: int, j: int, subgraph: string)
    requires LastFinish(h, threshold, i, j, subgraph) && j <= |h|
    ensures var rows := RowsAfter(h[..j], threshold);
            subgraph in rows && rows[subgraph].nonce == h[i].m.nonce
  {
    var k := RememberedLast(h, threshold, j, subgraph);
    if subgraph in RowsAfter(h[..j], threshold) {
      LastFinishUnique(h, threshold, i, k, j, subgraph);
    }
  }

  /** The first valid message for a subgraph is never suppressed; any other is, as far as it is comparable,
      exactly when it comes less than the threshold after the last one that finished, whether that one was
      itself suppressed or not.  Where the two are not comparable, it is the other way round. */
  lemma SuppressedExactly(h: seq<Attempt>, threshold: u64, j: int)
    requires 0 <= j < |h| && FateAt(h, threshold, j) != Invalid
    ensures FateAt(h, threshold, j) == Suppressed ==> exists i :: LastFinish(h, threshold, i, j, Subgraph(h[j]))
    ensures forall i :: LastFinish(h, threshold, i, j, Subgraph(h[j])) ==>
              ((FateAt(h, threshold, j) == Suppressed <==> h[j].m.nonce < h[i].m.nonce + threshold) <==>
               Comparable(h[i].m.nonce, h[j].m.nonce, threshold))
  {
    var subgraph := Subgraph(h[j]);
    var k := RememberedLast(h, threshold, j, subgraph);
    forall i | LastFinish(h, threshold, i, j, subgraph)
      ensures (FateAt(h, threshold, j) == Suppressed <==> h[j].m.nonce < h[i].m.nonce + threshold) <==>
              Comparable(h[i].m.nonce, h[j].m.nonce, threshold)
    {
      StoredByLast(h, threshold, i, j, subgraph);
      TooSoonExact(h[i].m.nonce, h[j].m.nonce, threshold);
    }
  }

  // ---------- the distance between accepted upgrades ----------

  // The nonces of the messages that finish do not go down.
  ghost predicate Ordered(h: seq<Attempt>, threshold: u64) {
    forall i, j, subgraph ::
      0 <= i < j && FinishesAt(h, threshold, i, subgraph) && FinishesAt(h, threshold, j, subgraph) ==>
      h[i].m.nonce <= h[j].m.nonce
  }

  /** While the nonces of a subgraph do not go down, an announced upgrade comparable with the message last
      stored is at least the threshold after every message before it that finished, and so after every
      upgrade accepted before it. */
  lemma AcceptedApart(h: seq<Attempt>, threshold: u64, i: int, j: int)
    requires Ordered(h, threshold)
    requires 0 <= i < j < |h| && FinishesAt(h, threshold, i, Subgraph(h[j])) && Announces(FateAt(h, threshold, j))
    requires forall k :: LastFinish(h, threshold, k, j, Subgraph(h[j])) ==>
               Comparable(h[k].m.nonce, h[j].m.nonce, threshold)
    ensures h[i].m.nonce + threshold <= h[j].m.nonce
  {
    var k := RememberedLast(h, threshold, j, Subgraph(h[j]));
    assert LastFinish(h, threshold, k, j, Subgraph(h[j]));
    SuppressedExactly(h, threshold, j);
    assert i <= k;
  }

  // ---------- a steady stream ----------

  // A message for the subgraph, from its owner and well-formed
  predicate Concerns(a: Attempt, subgraph: string) {
    a.owner && a.m.ValidOuter() && Subgraph(a) == subgraph
  }

  // Two messages for the subgraph, one right after the other
  ghost predicate Consecutive(h: seq<Attempt>, i: int, j: int, subgraph: string) {
    && 0 <= i < j < |h| && Concerns(h[i], subgraph) && Concerns(h[j], subgraph)
    && forall k :: i < k < j ==> !Concerns(h[k], subgraph)
  }

  lemma ConsecutiveFate(h: seq<Attempt>, threshold: u64, i: int, j: int, subgraph: string)
    requires Consecutive(h, i, j, subgraph) && Finishes(FateAt(h, threshold, i))
    ensures FateAt(h, threshold, j) == Suppressed <==> TooSoon(h[i].m.nonce, h[j].m.nonce, threshold)
  {
    assert FinishesAt(h, threshold, i, subgraph);
    assert forall k :: i < k < j && FinishesAt(h, threshold, k, subgraph) ==> Concerns(h[k], subgraph);
    StoredByLast(h, threshold, i, j, subgraph);
  }

  lemma Predecessor(h: seq<Attempt>, i: int, j: int, subgraph: string) returns (k: int)
    requires 0 <= i < j < |h| && Concerns(h[i], subgraph) && Concerns(h[j], subgraph)
    ensures i <= k < j && Consecutive(h, k, j, subgraph)
  {
    k := j - 1;
    while !Concerns(h[k], subgraph)
      invariant i <= k < j && forall l :: k < l < j ==> !Concerns(h[l], subgraph)
      decreases k
    {
      k := k - 1;
    }
  }

  // From message i on, each message for the subgraph comes too soon after the one before it.
  ghost predicate SteadyFrom(h: seq<Attempt>, threshold: u64, i: int, subgraph: string) {
    forall k, l :: i <= k && Consecutive(h, k, l, subgraph) ==> TooSoon(h[k].m.nonce, h[l].m.nonce, threshold)
  }

  lemma {:induction false} SteadySuppressed(h: seq<Attempt>, threshold: u64, i: int, j: int, subgraph: string)
    requires 0 <= i < j < |h| && Concerns(h[i], subgraph) && Concerns(h[j], subgraph)
    requires Finishes(FateAt(h, threshold, i)) && SteadyFrom(h, threshold, i, subgraph)
    ensures FateAt(h, threshold, j) == Suppressed
    decreases j
  {
    var k := Predecessor(h, i, j, subgraph);
    if i < k {
      SteadySuppressed(h, threshold, i, k, subgraph);
    }
    ConsecutiveFate(h, threshold, k, j, subgraph);
  }

  /** After a message that finished, all later ones for its subgraph are suppressed if and only if each
      comes too soon after the one right before it, however long the stream goes on; whether a message is
      accepted plays no part in that. */
  lemma SteadyStreamExact(h: seq<Attempt>, threshold: u64, i: int, subgraph: string)
    requires FinishesAt(h, threshold, i, subgraph)
    ensures (forall j :: i < j < |h| && Concerns(h[j], subgraph) ==> FateAt(h, threshold, j) == Suppressed) <==>
            SteadyFrom(h, threshold, i, subgraph)
  {
    if SteadyFrom(h, threshold, i, subgraph) {
      forall j | i < j < |h| && Concerns(h[j], subgraph)
        ensures FateAt(h, threshold, j) == Suppressed
      {
        SteadySuppressed(h, threshold, i, j, subgraph);
      }
    }
    if forall j :: i < j < |h| && Concerns(h[j], subgraph) ==> FateAt(h, threshold, j) == Suppressed {
      forall k, l | i <= k && Consecutive(h, k, l, subgraph)
        ensures TooSoon(h[k].m.nonce, h[l].m.nonce, threshold)
      {
        assert k == i || FateAt(h, threshold, k) == Suppressed;
        ConsecutiveFate(h, threshold, k, l, subgraph);
      }
    }
  }

  /** A stream in which each message comes less than the threshold after the one before it, and can be
      compared with it, has one message accepted at most: the rest is suppressed. */
  lemma SteadyStreamAcceptedOnce(h: seq<Attempt>, threshold: u64, subgraph: string, i: int, j: int)
    requires forall k, l :: Consecutive(h, k, l, subgraph) ==>
               h[l].m.nonce < h[k].m.nonce + threshold && Comparable(h[k].m.nonce, h[l].m.nonce, threshold)
    requires 0 <= i < j < |h| && Concerns(h[i], subgraph) && Concerns(h[j], subgraph)
    ensures FateAt(h, threshold, i) == Accepted ==> FateAt(h, threshold, j) == Suppressed
  {
    forall k, l | Consecutive(h, k, l, subgraph)
      ensures TooSoon(h[k].m.nonce, h[l].m.nonce, threshold)
    {
      TooSoonExact(h[k].m.nonce, h[l].m.nonce, threshold);
    }
    if FateAt(h, threshold, i) == Accepted {
      SteadySuppressed(h, threshold, i, j, subgraph);
    }
  }
}
