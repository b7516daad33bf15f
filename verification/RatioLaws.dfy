/** Conservation: where the stake and the senders shown in a ratio come from. */
module RatioLaws {
  import opened Core
  import opened StableSort
  import opened Attestations
  import opened Comparison
  import opened Ratios

  type Measure = Attestation -> nat

  function SumOver(f: Measure, list: seq<Attestation>): nat {
    Sum(Map(f, list))
  }

  function Values(es: seq<Entry>): nat {
    if es == [] then 0 else Values(es[..|es| - 1]) + es[|es| - 1].value
  }

  function Stars(es: seq<Entry>): nat {
    if es == [] then 0 else Stars(es[..|es| - 1]) + if es[|es| - 1].starred then 1 else 0
  }

  lemma SumOverAppend(f: Measure, s: seq<Attestation>, t: seq<Attestation>)
    ensures SumOver(f, s + t) == SumOver(f, s) + SumOver(f, t)
  {
    assert Map(f, s + t) == Map(f, s) + Map(f, t);
    SumAppend(Map(f, s), Map(f, t));
  }

  lemma SumOverOne(f: Measure, a: Attestation)
    ensures SumOver(f, [a]) == f(a) && SumOver(f, []) == 0
  {
    assert Map(f, [a]) == [f(a)] && Map(f, []) == [];
    assert [f(a)][..0] == [] && Sum([f(a)]) == Sum([f(a)][..0]) + f(a);
  }

  lemma SumOverSorted(f: Measure, s: seq<Attestation>)
    ensures SumOver(f, Sort(s, HeavierFirst)) == SumOver(f, s)
  {
    SortMembers(s, HeavierFirst);
    MapPermutation(f, s, Sort(s, HeavierFirst));
    SumMonotone(Map(f, s), Map(f, Sort(s, HeavierFirst)));
    SumMonotone(Map(f, Sort(s, HeavierFirst)), Map(f, s));
  }

  lemma {:induction false} EntrySums(es: seq<Entry>, list: seq<Attestation>, value: Measure, star: Measure)
    requires |es| == |list|
    requires forall k :: 0 <= k < |es| ==>
               es[k].value == value(list[k]) && (if es[k].starred then 1 else 0) == star(list[k])
    ensures Values(es) == SumOver(value, list) && Stars(es) == SumOver(star, list)
  {
    if es == [] {
      assert Map(value, list) == [] && Map(star, list) == [];
    } else {
      var n := |es| - 1;
      EntrySums(es[..n], list[..n], value, star);
      assert list == list[..n] + [list[n]];
      SumOverAppend(value, list[..n], [list[n]]);
      SumOverAppend(star, list[..n], [list[n]]);
      SumOverOne(value, list[n]);
      SumOverOne(star, list[n]);
    }
  }

  // What an attestation shows in each ratio
  function ShownStake(localPpoi: Option<string>, stake: u64): Measure {
    (a: Attestation) => StakeEntry(a, localPpoi, stake).value
  }

  function ShownSenders(localPpoi: Option<string>): Measure {
    (a: Attestation) => SenderEntry(a, localPpoi).value
  }

  function ShownStar(localPpoi: Option<string>): Measure {
    (a: Attestation) => if IsLocal(a, localPpoi) then 1 else 0
  }

  lemma EntriesTotal(list: seq<Attestation>, localPpoi: Option<string>, stake: u64)
    ensures Values(StakeEntries(list, localPpoi, stake)) == SumOver(ShownStake(localPpoi, stake), list)
    ensures Values(SenderEntries(list, localPpoi)) == SumOver(ShownSenders(localPpoi), list)
    ensures Stars(StakeEntries(list, localPpoi, stake)) == Stars(SenderEntries(list, localPpoi))
         == SumOver(ShownStar(localPpoi), list) + if localPpoi.None? then 1 else 0
  {
    var sorted := Sort(list, HeavierFirst);
    var stakes := Map((a: Attestation) => StakeEntry(a, localPpoi, stake), sorted);
    var senders := Map((a: Attestation) => SenderEntry(a, localPpoi), sorted);
    EntrySums(stakes, sorted, ShownStake(localPpoi, stake), ShownStar(localPpoi));
    EntrySums(senders, sorted, ShownSenders(localPpoi), ShownStar(localPpoi));
    SumOverSorted(ShownStake(localPpoi, stake), list);
    SumOverSorted(ShownSenders(localPpoi), list);
    SumOverSorted(ShownStar(localPpoi), list);
    TrailingZero(stakes, localPpoi);
    TrailingZero(senders, localPpoi);
  }

  lemma TrailingZero(es: seq<Entry>, localPpoi: Option<string>)
    ensures Values(es + NoLocal(localPpoi)) == Values(es)
    ensures Stars(es + NoLocal(localPpoi)) == Stars(es) + if localPpoi.None? then 1 else 0
  {
    if localPpoi.None? {
      assert (es + [Entry(0, true)])[..|es|] == es;
    } else {
      assert es + [] == es;
    }
  }

  // ---------- the order of the entries ----------

  // The entry of an attestation: its own mark, and the local radio's share on top where it is starred
  ghost predicate ShowsStake(e: Entry, a: Attestation, localPpoi: Option<string>, stake: u64) {
    && (e.starred <==> localPpoi == Some(a.ppoi))
    && e.value == if e.starred then (a.stakeWeight + stake) % U64_LIMIT else a.stakeWeight
  }

  ghost predicate ShowsSenders(e: Entry, a: Attestation, localPpoi: Option<string>) {
    && (e.starred <==> localPpoi == Some(a.ppoi))
    && e.value == if e.starred then |a.senders| + 1 else |a.senders|
  }

  /** Both ratios list the attestations heaviest first, equal weights in their old order, the same one at the
      same place in each; only without a local PPOI does a starred zero follow. */
  lemma EntriesInOrder(list: seq<Attestation>, localPpoi: Option<string>, stake: u64) returns (order: seq<Attestation>)
    ensures HeaviestFirst(list, order)
    ensures var stakes, senders := StakeEntries(list, localPpoi, stake), SenderEntries(list, localPpoi);
            && |stakes| == |senders| == |order| + (if localPpoi.None? then 1 else 0)
            && (forall k :: 0 <= k < |order| ==>
                  ShowsStake(stakes[k], order[k], localPpoi, stake) && ShowsSenders(senders[k], order[k], localPpoi))
            && (localPpoi.None? ==> stakes[|order|] == senders[|order|] == Entry(0, true))
  {
    order := Sort(list, HeavierFirst);
    SortHeaviest(list);
    forall k | 0 <= k < |order|
      ensures ShowsStake(StakeEntry(order[k], localPpoi, stake), order[k], localPpoi, stake)
    {
    }
  }

  // ---------- through the merge ----------

  lemma {:induction false} MergedSum(hash: GroupHasher, list: seq<Attestation>, ppoi: string, info: IndexerInfo,
                                     now: u64, shown: Measure, share: Measure)
    requires forall a :: a in list ==> SumOver(shown, MergeOne(hash, a, ppoi, info, now)) == share(a)
    ensures SumOver(shown, Merged(hash, list, ppoi, info, now)) == SumOver(share, list)
  {
    if list == [] {
      assert Map(shown, Merged(hash, list, ppoi, info, now)) == [] && Map(share, list) == [];
    } else {
      var init, a := list[..|list| - 1], list[|list| - 1];
      assert list == init + [a];
      MergedSum(hash, init, ppoi, info, now, shown, share);
      SumOverAppend(shown, Merged(hash, init, ppoi, info, now), MergeOne(hash, a, ppoi, info, now));
      SumOverAppend(share, init, [a]);
      SumOverOne(share, a);
    }
  }

  // A remote attestation already lists the local radio under the local PPOI, and so gets lost.
  predicate Lost(a: Attestation, ppoi: string, info: IndexerInfo) {
    a.ppoi == ppoi && info.address in a.senders
  }

  // b is a with the local radio as one more sender, if a carries the local PPOI, and a itself if not.
  ghost predicate Joined(hash: GroupHasher, a: Attestation, b: Attestation, ppoi: string, info: IndexerInfo, now: u64) {
    if a.ppoi != ppoi then b == a
    else
      && b.identifier == a.identifier && b.blockNumber == a.blockNumber && b.ppoi == a.ppoi
      && b.stakeWeight == WrappingAdd(a.stakeWeight, info.stake)
      && b.senders == a.senders + [info.address] && b.senderGroupHash == hash(b.senders)
      && b.timestamp == a.timestamp + [now]
  }

  function Kept(list: seq<Attestation>, ppoi: string, info: IndexerInfo): seq<Attestation> {
    Filter((a: Attestation) => !Lost(a, ppoi, info), list)
  }

  lemma {:induction false} MergedExact(hash: GroupHasher, list: seq<Attestation>, ppoi: string, info: IndexerInfo,
                                       now: u64)
    ensures var merged, kept := Merged(hash, list, ppoi, info, now), Kept(list, ppoi, info);
            && |merged| == |kept|
            && forall k :: 0 <= k < |kept| ==> Joined(hash, kept[k], merged[k], ppoi, info, now)
  {
    if list != [] {
      MergedExact(hash, list[..|list| - 1], ppoi, info, now);
    }
  }

  /** What is reported on: the remote attestations in their order, but for those that already list the local
      radio under the local PPOI; the radio joins those of that PPOI, and its own row follows if there was
      none. */
  lemma AggregatedExact(hash: GroupHasher, local: Attestation, list: seq<Attestation>, info: IndexerInfo, now: u64)
    ensures var all, kept := Aggregated(hash, local, list, info, now), Kept(list, local.ppoi, info);
            var matched := exists a :: a in list && a.ppoi == local.ppoi;
            && |all| == |kept| + (if matched then 0 else 1)
            && (forall k :: 0 <= k < |kept| ==> Joined(hash, kept[k], all[k], local.ppoi, info, now))
            && (!matched ==> all[|kept|] == local)
  {
    MergedExact(hash, list, local.ppoi, info, now);
  }

  // What a remote attestation contributes to each ratio
  function StakeShare(ppoi: string, info: IndexerInfo): Measure {
    (a: Attestation) => if a.ppoi != ppoi then a.stakeWeight else if Lost(a, ppoi, info) then 0
                        else WrappingAdd(WrappingAdd(a.stakeWeight, info.stake), info.stake)
  }

  function SenderShare(ppoi: string, info: IndexerInfo): Measure {
    (a: Attestation) => if a.ppoi != ppoi then |a.senders| else if Lost(a, ppoi, info) then 0 else |a.senders| + 2
  }

  function StarShare(ppoi: string, info: IndexerInfo): Measure {
    (a: Attestation) => if a.ppoi == ppoi && !Lost(a, ppoi, info) then 1 else 0
  }

  // No sum of this report reaches the end of the 64-bit range.
  predicate Fits(local: Attestation, list: seq<Attestation>, info: IndexerInfo) {
    && local.stakeWeight + info.stake < U64_LIMIT
    && forall a :: a in list && a.ppoi == local.ppoi ==> a.stakeWeight + 2 * info.stake < U64_LIMIT
  }

  lemma MergeOneShares(hash: GroupHasher, a: Attestation, ppoi: string, info: IndexerInfo, now: u64)
    ensures var one, p := MergeOne(hash, a, ppoi, info, now), Some(ppoi);
            && SumOver(ShownStake(p, info.stake), one) == StakeShare(ppoi, info)(a)
            && SumOver(ShownSenders(p), one) == SenderShare(ppoi, info)(a)
            && SumOver(ShownStar(p), one) == StarShare(ppoi, info)(a)
  {
    var one, p := MergeOne(hash, a, ppoi, info, now), Some(ppoi);
    var b := if one == [] then a else one[0];
    assert one == [] || one == [b];
    SumOverOne(ShownStake(p, info.stake), b);
    SumOverOne(ShownSenders(p), b);
    SumOverOne(ShownStar(p), b);
  }

  /** Every ratio with a local attestation, for any list of remote ones: what each of them contributes,
      and what the local one does when no remote one has its PPOI. */
  lemma RatioTotals(hash: GroupHasher, local: Attestation, list: seq<Attestation>, info: IndexerInfo, now: u64)
    ensures var shown, p := Aggregated(hash, local, list, info, now), Some(local.ppoi);
            var alone := if Matched(list, local.ppoi) then 0 else 1;
            && Values(StakeEntries(shown, p, info.stake)) ==
                 SumOver(StakeShare(local.ppoi, info), list) + alone * WrappingAdd(local.stakeWeight, info.stake)
            && Values(SenderEntries(shown, p)) ==
                 SumOver(SenderShare(local.ppoi, info), list) + alone * (|local.senders| + 1)
            && Stars(StakeEntries(shown, p, info.stake)) == Stars(SenderEntries(shown, p)) ==
                 SumOver(StarShare(local.ppoi, info), list) + alone
  {
    var p := Some(local.ppoi);
    var merged := Merged(hash, list, local.ppoi, info, now);
    forall a | a in list
      ensures SumOver(ShownStake(p, info.stake), MergeOne(hash, a, local.ppoi, info, now)) ==
              StakeShare(local.ppoi, info)(a)
      ensures SumOver(ShownSenders(p), MergeOne(hash, a, local.ppoi, info, now)) == SenderShare(local.ppoi, info)(a)
      ensures SumOver(ShownStar(p), MergeOne(hash, a, local.ppoi, info, now)) == StarShare(local.ppoi, info)(a)
    {
      MergeOneShares(hash, a, local.ppoi, info, now);
    }
    MergedSum(hash, list, local.ppoi, info, now, ShownStake(p, info.stake), StakeShare(local.ppoi, info));
    MergedSum(hash, list, local.ppoi, info, now, ShownSenders(p), SenderShare(local.ppoi, info));
    MergedSum(hash, list, local.ppoi, info, now, ShownStar(p), StarShare(local.ppoi, info));
    EntriesTotal(Aggregated(hash, local, list, info, now), p, info.stake);
    if Matched(list, local.ppoi) {
      assert merged + [] == merged;
    } else {
      SumOverAppend(ShownStake(p, info.stake), merged, [local]);
      SumOverAppend(ShownSenders(p), merged, [local]);
      SumOverAppend(ShownStar(p), merged, [local]);
      SumOverOne(ShownStake(p, info.stake), local);
      SumOverOne(ShownSenders(p), local);
      SumOverOne(ShownStar(p), local);
    }
  }

  // ---------- with distinct PPOIs ----------

  function Weight(): Measure {
    (a: Attestation) => a.stakeWeight
  }

  function SenderCount(): Measure {
    (a: Attestation) => |a.senders|
  }

  function Nothing(): Measure {
    (a: Attestation) => 0
  }

  // A bonus for the local PPOI is given once at most, as the PPOIs are distinct.
  lemma {:induction false} BonusOnce(list: seq<Attestation>, ppoi: string, share: Measure, base: Measure, bonus: nat)
    requires DistinctPpois(list)
    requires forall a :: a in list ==> share(a) == base(a) + if a.ppoi == ppoi then bonus else 0
    ensures SumOver(share, list) == SumOver(base, list) + if Matched(list, ppoi) then bonus else 0
  {
    if list == [] {
      assert Map(share, list) == [] && Map(base, list) == [];
    } else {
      var init, a := list[..|list| - 1], list[|list| - 1];
      assert list == init + [a];
      BonusOnce(init, ppoi, share, base, bonus);
      SumOverAppend(share, init, [a]);
      SumOverAppend(base, init, [a]);
      SumOverOne(share, a);
      SumOverOne(base, a);
      assert Matched(list, ppoi) <==> Matched(init, ppoi) || a.ppoi == ppoi;
      LastUnmatched(list);
    }
  }

  lemma LastUnmatched(list: seq<Attestation>)
    requires DistinctPpois(list) && list != []
    ensures !Matched(list[..|list| - 1], list[|list| - 1].ppoi)
  {
    var init := list[..|list| - 1];
    forall b | b in init
      ensures b.ppoi != list[|list| - 1].ppoi
    {
      var i :| 0 <= i < |init| && init[i] == b;
      assert list[i] == b;
    }
  }

  lemma {:induction false} SumOfNone(list: seq<Attestation>)
    ensures SumOver(Nothing(), list) == 0
  {
    if list == [] {
      assert Map(Nothing(), list) == [];
    } else {
      var init, a := list[..|list| - 1], list[|list| - 1];
      assert list == init + [a];
      SumOfNone(init);
      SumOverAppend(Nothing(), init, [a]);
      SumOverOne(Nothing(), a);
    }
  }

  /** Conservation: with distinct remote PPOIs, none of them lost, the stakes shown, as long as none wraps,
      add up to the remote stake plus twice the local stake if the local PPOI is among them, and plus the
      local row's weight and once the local stake if it is not; the sender counts likewise; and one entry
      is starred. */
  lemma RatiosConserve(hash: GroupHasher, local: Attestation, list: seq<Attestation>, info: IndexerInfo, now: u64)
    requires DistinctPpois(list)
    requires forall a :: a in list ==> !Lost(a, local.ppoi, info)
    ensures var shown, p := Aggregated(hash, local, list, info, now), Some(local.ppoi);
            var matched := Matched(list, local.ppoi);
            && (Fits(local, list, info) ==>
                 Values(StakeEntries(shown, p, info.stake)) ==
                 SumOver(Weight(), list) + (if matched then 2 * info.stake else local.stakeWeight + info.stake))
            && Values(SenderEntries(shown, p)) ==
                 SumOver(SenderCount(), list) + (if matched then 2 else |local.senders| + 1)
            && Stars(StakeEntries(shown, p, info.stake)) == Stars(SenderEntries(shown, p)) == 1
  {
    RatioTotals(hash, local, list, info, now);
    if Fits(local, list, info) {
      BonusOnce(list, local.ppoi, StakeShare(local.ppoi, info), Weight(), 2 * info.stake);
    }
    BonusOnce(list, local.ppoi, SenderShare(local.ppoi, info), SenderCount(), 2);
    BonusOnce(list, local.ppoi, StarShare(local.ppoi, info), Nothing(), 1);
    SumOfNone(list);
  }

  /** A starred entry is missing exactly when the remote attestation of the local PPOI already lists the
      local radio: it is then dropped from the report, with all its stake. */
  lemma StarMissingExactly(hash: GroupHasher, local: Attestation, list: seq<Attestation>, info: IndexerInfo, now: u64)
    requires DistinctPpois(list)
    ensures var shown, p := Aggregated(hash, local, list, info, now), Some(local.ppoi);
            Stars(StakeEntries(shown, p, info.stake)) ==
            if (exists a :: a in list && Lost(a, local.ppoi, info)) then 0 else 1
  {
    RatioTotals(hash, local, list, info, now);
    SumOfNone(list);
    if a :| a in list && Lost(a, local.ppoi, info) {
      var i :| 0 <= i < |list| && list[i] == a;
      forall b | b in list
        ensures StarShare(local.ppoi, info)(b) == 0
      {
        var j :| 0 <= j < |list| && list[j] == b;
        assert b.ppoi == local.ppoi ==> i == j;
      }
      BonusOnce(list, local.ppoi, StarShare(local.ppoi, info), Nothing(), 0);
    } else {
      BonusOnce(list, local.ppoi, StarShare(local.ppoi, info), Nothing(), 1);
    }
  }

  /** Without a local attestation the report is the remote one, with a starred zero at the end. */
  lemma RatiosWithoutLocal(list: seq<Attestation>, stake: u64)
    ensures var es := StakeEntries(list, None, stake);
            && Values(es) == SumOver(Weight(), list)
            && Stars(es) == 1 && es != [] && es[|es| - 1] == Entry(0, true)
    ensures var es := SenderEntries(list, None);
            && Values(es) == SumOver(SenderCount(), list)
            && Stars(es) == 1 && es != [] && es[|es| - 1] == Entry(0, true)
  {
    EntriesTotal(list, None, stake);
    assert Map(ShownStake(None, stake), list) == Map(Weight(), list);
    assert Map(ShownSenders(None), list) == Map(SenderCount(), list);
    assert Map(ShownStar(None), list) == Map(Nothing(), list);
    SumOfNone(list);
  }
}
