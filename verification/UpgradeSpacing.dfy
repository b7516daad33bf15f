/** How far apart the upgrades are that get through: what is sure to hold of the next one after any
    history, given that the rate limit compares texts, wraps below zero and forgets failures. */
module UpgradeSpacing {
  import opened Core
  import opened DecimalText
  import opened Tables
  import opened Upgrades

  // A message that passes everything
  function Flawless(subgraph: string, nonce: u64): Attempt {
    Attempt(UpgradeMessage("", nonce, "", UpgradeIntent("", subgraph, "", nonce, ""), ""), true, true)
  }

  // Whatever comes next for the subgraph: if it is accepted, it is at least the threshold after this nonce.
  ghost predicate NextApart(h: seq<Attempt>, threshold: u64, subgraph: string, nonce: u64) {
    forall a: Attempt :: Subgraph(a) == subgraph ==>
      FateOf(RowsAfter(h, threshold), threshold, a) == Accepted ==> nonce + threshold <= a.m.nonce
  }

  // The same of the announcements
  ghost predicate NextAnnouncedApart(h: seq<Attempt>, threshold: u64, subgraph: string, nonce: u64) {
    forall a: Attempt :: Subgraph(a) == subgraph ==>
      Announces(FateOf(RowsAfter(h, threshold), threshold, a)) ==> nonce + threshold <= a.m.nonce
  }

  // ---------- nonces alone ----------

  /** Of the nonces from the threshold on, those that are let through are all a threshold after a given one
      if and only if that one is no greater than the least number whose text is not below the stored one. */
  lemma LaterNonces(stored: u64, threshold: u64, nonce: u64)
    ensures (forall n: u64 :: threshold <= n && !TooSoon(stored, n, threshold) ==> nonce + threshold <= n) <==>
            nonce <= LeastAbove(stored) || LeastAbove(stored) + threshold >= U64_LIMIT
  {
    LeastAboveExact(stored);
    forall n: u64 | threshold <= n && !TooSoon(stored, n, threshold)
      ensures LeastAbove(stored) + threshold <= n
    {
      assert TextLe(Render(stored), Render(n - threshold));
    }
    if LeastAbove(stored) + threshold < U64_LIMIT {
      assert !TooSoon(stored, LeastAbove(stored) + threshold, threshold);
    }
  }

  // No nonce below the threshold is let through.
  predicate WrapRefuses(stored: u64, threshold: u64) {
    threshold == 0 || (threshold <= U64_LIMIT - Pow10(19) && !TextLe(Render(stored), Render(U64_MAX)))
  }

  // 2^64 has twenty digits, and starts with a one.
  lemma TwentyDigits(n: u64)
    ensures Pow10(19) < U64_LIMIT < 2 * Pow10(19)
    ensures |Render(n)| <= 20 && (Pow10(19) <= n ==> |Render(n)| == 20)
  {
    assert Pow10(5) == 100_000;
    assert Pow10(10) == 100_000 * Pow10(5);
    assert Pow10(15) == 100_000 * Pow10(10);
    assert Pow10(19) == 10_000 * Pow10(15);
    DigitBounds(n);
    if |Render(n)| > 20 {
      PowersGrow(20, |Render(n)| - 1);
    }
    if |Render(n)| < 20 {
      PowersGrow(|Render(n)|, 19);
    }
  }

  lemma BelowMaximum(stored: u64, b: u64)
    requires Pow10(19) <= b && TextLe(Render(stored), Render(b))
    ensures TextLe(Render(stored), Render(U64_MAX))
  {
    TwentyDigits(stored);
    TwentyDigits(b);
    TwentyDigits(U64_MAX);
    BelowGreatest(stored, b, U64_MAX);
  }

  lemma EarlierRefused(stored: u64, threshold: u64, n: u64)
    requires WrapRefuses(stored, threshold) && n < threshold
    ensures TooSoon(stored, n, threshold)
  {
    if !TooSoon(stored, n, threshold) {
      BelowMaximum(stored, WrappingSub(n, threshold));
    }
  }

  // With so high a threshold some bound is all nines, with a digit less than the others.
  lemma NinesLetThrough(stored: u64, threshold: u64, k: nat) returns (n: u64)
    requires k > 0 && |Render(stored)| <= k + 1 && stored < 2 * Pow10(k)
    requires Pow10(k) <= U64_LIMIT && threshold > U64_LIMIT - Pow10(k)
    ensures n < threshold && !TooSoon(stored, n, threshold)
  {
    BelowNines(stored, k);
    n := threshold + Pow10(k) - 1 - U64_LIMIT;
    assert WrappingSub(n, threshold) == Pow10(k) - 1;
  }

  lemma GreatestBoundLetsThrough(stored: u64, threshold: u64) returns (n: u64)
    requires threshold > 0 && TextLe(Render(stored), Render(U64_MAX))
    ensures n < threshold && !TooSoon(stored, n, threshold)
  {
    n := threshold - 1;
    assert WrappingSub(n, threshold) == U64_MAX;
  }

  /** The bound of a nonce below the threshold wraps to a number just under 2^64.  No such nonce is let
      through if and only if the stored text is above that of the greatest bound, and all bounds have the
      same number of digits. */
  lemma EarlierNonces(stored: u64, threshold: u64)
    ensures (forall n: u64 :: n < threshold ==> TooSoon(stored, n, threshold)) <==> WrapRefuses(stored, threshold)
  {
    if WrapRefuses(stored, threshold) {
      forall n: u64 | n < threshold
        ensures TooSoon(stored, n, threshold)
      {
        EarlierRefused(stored, threshold, n);
      }
    } else if threshold > U64_LIMIT - Pow10(19) {
      TwentyDigits(stored);
      var _ := NinesLetThrough(stored, threshold, 19);
    } else {
      var _ := GreatestBoundLetsThrough(stored, threshold);
    }
  }

  // What it takes, of the stored nonce alone, for every nonce let through to be a threshold after a given one
  predicate Safe(stored: u64, threshold: u64, nonce: u64) {
    && (nonce <= LeastAbove(stored) || LeastAbove(stored) + threshold >= U64_LIMIT)
    && WrapRefuses(stored, threshold)
  }

  lemma NoncesApart(stored: u64, threshold: u64, nonce: u64)
    ensures (forall n: u64 :: !TooSoon(stored, n, threshold) ==> nonce + threshold <= n) <==>
            Safe(stored, threshold, nonce)
  {
    LaterNonces(stored, threshold, nonce);
    EarlierNonces(stored, threshold);
    if forall n: u64 :: !TooSoon(stored, n, threshold) ==> nonce + threshold <= n {
      forall n: u64 | n < threshold
        ensures TooSoon(stored, n, threshold)
      {
        assert !(nonce + threshold <= n);
      }
    }
  }

  // ---------- histories ----------

  lemma LetThrough(h: seq<Attempt>, threshold: u64, k: int, subgraph: string, a: Attempt)
    requires LastFinish(h, threshold, k, |h|, subgraph) && Concerns(a, subgraph)
    ensures Announces(FateOf(RowsAfter(h, threshold), threshold, a)) <==> !TooSoon(h[k].m.nonce, a.m.nonce, threshold)
  {
    assert h[..|h|] == h;
    StoredByLast(h, threshold, k, |h|, subgraph);
  }

  /** After any history, the next upgrade of a subgraph, whatever its nonce, is sure to be at least the
      threshold after a given nonce if and only if the message last stored makes it so; and there is no
      difference between accepted upgrades and announced ones. */
  lemma SpacingExact(h: seq<Attempt>, threshold: u64, k: int, subgraph: string, nonce: u64)
    requires LastFinish(h, threshold, k, |h|, subgraph)
    ensures NextApart(h, threshold, subgraph, nonce) <==> Safe(h[k].m.nonce, threshold, nonce)
    ensures NextAnnouncedApart(h, threshold, subgraph, nonce) <==> Safe(h[k].m.nonce, threshold, nonce)
  {
    var stored := h[k].m.nonce;
    NoncesApart(stored, threshold, nonce);
    if Safe(stored, threshold, nonce) {
      forall a: Attempt | Subgraph(a) == subgraph && Announces(FateOf(RowsAfter(h, threshold), threshold, a))
        ensures nonce + threshold <= a.m.nonce
      {
        LetThrough(h, threshold, k, subgraph, a);
      }
    } else {
      var n: u64 :| !TooSoon(stored, n, threshold) && !(nonce + threshold <= n);
      var a := Flawless(subgraph, n);
      LetThrough(h, threshold, k, subgraph, a);
      assert Subgraph(a) == subgraph && FateOf(RowsAfter(h, threshold), threshold, a) == Accepted;
    }
  }

  /** In particular the next one is sure to be the threshold after the message last stored only if that
      one's nonce has a single digit, or nines before its last digit. */
  lemma LastIsSafe(stored: u64, threshold: u64)
    requires stored + threshold < U64_LIMIT
    ensures Safe(stored, threshold, stored) <==>
            (stored < 10 || stored / 10 == Pow10(|Render(stored)| - 1) - 1) && WrapRefuses(stored, threshold)
  {
    LeastAtMost(stored);
    if stored >= 10 && !Nines(stored / 10) {
      LeastAboveStrict(stored);
    }
  }

  lemma LeastAboveStrict(n: nat)
    requires n >= 10 && !Nines(n / 10)
    ensures LeastAbove(n) < n
  {
    NextAboveIsAbove(n / 10);
  }

  /** Where nothing is stored, as after failures only, anything goes. */
  lemma NothingStored(h: seq<Attempt>, threshold: u64, subgraph: string, nonce: u64)
    requires forall k :: 0 <= k < |h| ==> !FinishesAt(h, threshold, k, subgraph)
    ensures NextApart(h, threshold, subgraph, nonce) <==> nonce + threshold == 0
    ensures NextAnnouncedApart(h, threshold, subgraph, nonce) <==> nonce + threshold == 0
  {
    assert h[..|h|] == h;
    var _ := RememberedLast(h, threshold, |h|, subgraph);
    var a := Flawless(subgraph, 0);
    assert Subgraph(a) == subgraph && FateOf(RowsAfter(h, threshold), threshold, a) == Accepted;
  }

  lemma StoredSince(h: seq<Attempt>, threshold: u64, i: int, subgraph: string)
    requires 0 <= i <= |h| && forall k :: i <= k < |h| ==> !FinishesAt(h, threshold, k, subgraph)
    ensures var was, now := RowsAfter(h[..i], threshold), RowsAfter(h, threshold);
            (subgraph in was <==> subgraph in now) && (subgraph in was ==> was[subgraph] == now[subgraph])
  {
    assert h[..|h|] == h;
    var k := RememberedLast(h, threshold, i, subgraph);
    var l := RememberedLast(h, threshold, |h|, subgraph);
  }

  /** An announced upgrade that then failed is not stored: as long as nothing else is, a message with the
      same nonce is announced again. */
  lemma FailedAnnouncedAgain(h: seq<Attempt>, threshold: u64, i: int, a: Attempt)
    requires 0 <= i < |h| && FateAt(h, threshold, i) == Failed && Concerns(a, Subgraph(h[i]))
    requires forall k :: i < k < |h| ==> !FinishesAt(h, threshold, k, Subgraph(h[i]))
    requires a.m.nonce == h[i].m.nonce
    ensures Announces(FateOf(RowsAfter(h, threshold), threshold, a))
  {
    StoredSince(h, threshold, i, Subgraph(h[i]));
  }

  // ---------- where text and number agree ----------

  // Whatever comes next for the subgraph and can be compared with the stored nonce
  ghost predicate NextComparableApart(h: seq<Attempt>, threshold: u64, stored: u64, subgraph: string, nonce: u64) {
    forall a: Attempt :: Subgraph(a) == subgraph && Comparable(stored, a.m.nonce, threshold) ==>
      FateOf(RowsAfter(h, threshold), threshold, a) == Accepted ==> nonce + threshold <= a.m.nonce
  }

  lemma NotTooSoonAfterThreshold(stored: u64, threshold: u64)
    requires stored + threshold < U64_LIMIT
    ensures Comparable(stored, stored + threshold, threshold) && !TooSoon(stored, stored + threshold, threshold)
  {
    TooSoonExact(stored, stored + threshold, threshold);
  }

  /** Among nonces comparable with the last stored one, the next accepted upgrade is sure to be at least the
      threshold after a given nonce if and only if that is not above the last stored one, or nothing can be
      accepted any more for lack of 64-bit numbers. */
  lemma ComparableSpacing(h: seq<Attempt>, threshold: u64, k: int, subgraph: string, nonce: u64)
    requires LastFinish(h, threshold, k, |h|, subgraph)
    ensures NextComparableApart(h, threshold, h[k].m.nonce, subgraph, nonce) <==>
            nonce <= h[k].m.nonce || h[k].m.nonce + threshold >= U64_LIMIT
  {
    var stored := h[k].m.nonce;
    forall a: Attempt | Subgraph(a) == subgraph && Comparable(stored, a.m.nonce, threshold)
      && FateOf(RowsAfter(h, threshold), threshold, a) == Accepted
      ensures stored + threshold <= a.m.nonce
    {
      LetThrough(h, threshold, k, subgraph, a);
      TooSoonExact(stored, a.m.nonce, threshold);
    }
    if stored + threshold < U64_LIMIT {
      var a := Flawless(subgraph, stored + threshold);
      NotTooSoonAfterThreshold(stored, threshold);
      LetThrough(h, threshold, k, subgraph, a);
      assert Subgraph(a) == subgraph && FateOf(RowsAfter(h, threshold), threshold, a) == Accepted;
    }
  }

  /** So a late message with an old nonce reopens the window: it is suppressed, but overwrites the stored
      nonce, and an upgrade less than the threshold after the first one gets through. */
  lemma OldNonceReopens(a: Attempt, stale: Attempt, next: Attempt, threshold: u64)
    requires a.owner && a.m.ValidOuter() && a.deployed
    requires stale.owner && stale.m.ValidOuter()
    requires next.owner && next.m.ValidOuter() && next.deployed
    requires Subgraph(a) == Subgraph(stale) == Subgraph(next)
    requires stale.m.nonce < a.m.nonce && Comparable(a.m.nonce, stale.m.nonce, threshold)
    requires next.m.nonce == stale.m.nonce + threshold
    ensures var h := [a, stale, next];
            && FateAt(h, threshold, 0) == Accepted
            && FateAt(h, threshold, 1) == Suppressed
            && FateAt(h, threshold, 2) == Accepted
            && next.m.nonce < a.m.nonce + threshold
  {
    var h := [a, stale, next];
    assert h[..0] == [] && h[..1] == [a] && h[..2] == [a, stale] && [a, stale][..1] == [a] && [a][..0] == [];
    assert RowsAfter([a], threshold) == map[Subgraph(a) := RowOfMessage(a.m)];
    TooSoonExact(a.m.nonce, stale.m.nonce, threshold);
    assert FateOf(RowsAfter([a], threshold), threshold, stale) == Suppressed;
    assert RowsAfter([a, stale], threshold)[Subgraph(a)] == RowOfMessage(stale.m);
    NotTooSoonAfterThreshold(stale.m.nonce, threshold);
  }
}
