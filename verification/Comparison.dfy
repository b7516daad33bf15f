/** Comparing the local attestation with the remote ones of the same deployment and block. */
module Comparison {
  import opened Core
  import opened StableSort
  import opened Attestations
  import opened Aggregation
  import opened AggregationLaws

  datatype ResultType = NotFound | Divergent | Match | BuildFailed

  datatype ComparisonResult = ComparisonResult(
    deployment: string,
    blockNumber: u64,
    resultType: ResultType,
    localAttestation: Option<Attestation>,
    attestations: seq<Attestation>)

  predicate HeavierFirst(a: Attestation, b: Attestation) {
    b.stakeWeight <= a.stakeWeight
  }

  predicate LighterFirst(a: Attestation, b: Attestation) {
    a.stakeWeight <= b.stakeWeight
  }

  // ---------- what is compared: no sorting, just a position in the order of arrival ----------

  // The last-arrived of the attestations of least weight
  ghost predicate LastOfLeast(list: seq<Attestation>, i: nat) {
    && i < |list|
    && (forall j :: 0 <= j < |list| ==> list[i].stakeWeight <= list[j].stakeWeight)
    && (forall j :: i < j < |list| ==> list[i].stakeWeight < list[j].stakeWeight)
  }

  // The last-arrived of the attestations of greatest weight
  ghost predicate LastOfMost(list: seq<Attestation>, i: nat) {
    && i < |list|
    && (forall j :: 0 <= j < |list| ==> list[j].stakeWeight <= list[i].stakeWeight)
    && (forall j :: i < j < |list| ==> list[j].stakeWeight < list[i].stakeWeight)
  }

  function LeastStaked(list: seq<Attestation>): (i: nat)
    requires list != []
    ensures i < |list|
  {
    ScanGreatest(list, HeavierFirst)
  }

  function MostStaked(list: seq<Attestation>): (i: nat)
    requires list != []
    ensures i < |list|
  {
    ScanGreatest(list, LighterFirst)
  }

  lemma LeastStakedExact(list: seq<Attestation>)
    requires list != []
    ensures LastOfLeast(list, LeastStaked(list))
  {
    ScanFindsLastGreatest(list, HeavierFirst);
    assert LastGreatest(list, HeavierFirst, LeastStaked(list));
  }

  lemma MostStakedExact(list: seq<Attestation>)
    requires list != []
    ensures LastOfMost(list, MostStaked(list))
  {
    ScanFindsLastGreatest(list, LighterFirst);
    assert LastGreatest(list, LighterFirst, MostStaked(list));
  }

  function Verdict(tested: Option<Attestation>, local: Option<Attestation>): ResultType {
    if tested.None? || local.None? then NotFound
    else if tested.value.ppoi == local.value.ppoi then Match
    else Divergent
  }

  function Tested(list: seq<Attestation>): Option<Attestation> {
    if list == [] then None else Some(list[LeastStaked(list)])
  }

  // The result of the main loop's comparator
  function Compared(local: Option<Attestation>, block: u64, id: string, list: seq<Attestation>): ComparisonResult {
    ComparisonResult(id, block, Verdict(Tested(list), local), local, Sort(list, HeavierFirst))
  }

  // The result of the query interface's comparator
  function ComparedToTop(local: Attestation, list: seq<Attestation>): ComparisonResult
    requires list != []
  {
    ComparisonResult(local.identifier, local.blockNumber,
                     Verdict(Some(list[MostStaked(list)]), Some(local)), Some(local), Sort(list, LighterFirst))
  }

  // ---------- the attestations of a result ----------

  // Those of one weight, in order
  function OfWeight(list: seq<Attestation>, weight: u64): seq<Attestation> {
    Filter((a: Attestation) => a.stakeWeight == weight, list)
  }

  // The same attestations, equal weights in the same order
  ghost predicate SameByWeight(list: seq<Attestation>, other: seq<Attestation>) {
    && multiset(list) == multiset(other)
    && forall weight: u64 :: OfWeight(list, weight) == OfWeight(other, weight)
  }

  ghost predicate HeaviestFirst(list: seq<Attestation>, sorted: seq<Attestation>) {
    && SameByWeight(list, sorted)
    && forall i, j :: 0 <= i < j < |sorted| ==> sorted[j].stakeWeight <= sorted[i].stakeWeight
  }

  ghost predicate LightestFirst(list: seq<Attestation>, sorted: seq<Attestation>) {
    && SameByWeight(list, sorted)
    && forall i, j :: 0 <= i < j < |sorted| ==> sorted[i].stakeWeight <= sorted[j].stakeWeight
  }

  lemma {:induction false} PeersOfWeight(list: seq<Attestation>, le: (Attestation, Attestation) -> bool, x: Attestation)
    requires forall a, b :: le(a, b) && le(b, a) <==> a.stakeWeight == b.stakeWeight
    ensures Peers(list, le, x) == OfWeight(list, x.stakeWeight)
  {
    if list != [] {
      PeersOfWeight(list[..|list| - 1], le, x);
    }
  }

  lemma SortByWeight(list: seq<Attestation>, le: (Attestation, Attestation) -> bool)
    requires TotalPreorder(le) && forall a, b :: le(a, b) && le(b, a) <==> a.stakeWeight == b.stakeWeight
    ensures SameByWeight(list, Sort(list, le)) && Sorted(Sort(list, le), le)
  {
    SortMembers(list, le);
    SortSorted(list, le);
    forall weight: u64
      ensures OfWeight(list, weight) == OfWeight(Sort(list, le), weight)
    {
      var x := Attestation("", 0, "", weight, [], "", []);
      SortPeers(list, le, x);
      PeersOfWeight(list, le, x);
      PeersOfWeight(Sort(list, le), le, x);
    }
  }

  lemma SortHeaviest(list: seq<Attestation>)
    ensures HeaviestFirst(list, Sort(list, HeavierFirst))
  {
    SortByWeight(list, HeavierFirst);
    assert forall a, b :: HeavierFirst(a, b) ==> b.stakeWeight <= a.stakeWeight;
  }

  lemma SortLightest(list: seq<Attestation>)
    ensures LightestFirst(list, Sort(list, LighterFirst))
  {
    SortByWeight(list, LighterFirst);
    assert forall a, b :: LighterFirst(a, b) ==> a.stakeWeight <= b.stakeWeight;
  }

  // ---------- the two comparators ----------

  method CompareAttestations(local: Option<Attestation>, attestationBlock: u64, remote: RemoteAttestations,
                             ipfsHash: string)
    returns (r: ComparisonResult)
    ensures r == Compared(local, attestationBlock, ipfsHash, Lookup(remote, ipfsHash, attestationBlock))
    ensures r.deployment == ipfsHash && r.blockNumber == attestationBlock && r.localAttestation == local
    ensures HeaviestFirst(Lookup(remote, ipfsHash, attestationBlock), r.attestations)
    ensures var list := Lookup(remote, ipfsHash, attestationBlock);
            r.resultType == if local.None? || list == [] then NotFound
                            else if LeastCarries(list, local.value.ppoi) then Match else Divergent
  {
    var sorted := Lookup(remote, ipfsHash, attestationBlock);
    ghost var list := sorted;
    SortHeaviest(list);
    if list != [] { LeastTested(list); }
    sorted := Sort(sorted, HeavierFirst);
    var mostAttested := if sorted == [] then None else Some(sorted[|sorted| - 1]);
    if list != [] {
      SortEndsWithScan(list, HeavierFirst);
    }
    var resultType;
    if mostAttested.Some? && local.Some? {
      resultType := if mostAttested.value.ppoi == local.value.ppoi then Match else Divergent;
    } else {
      resultType := NotFound;
    }
    r := ComparisonResult(ipfsHash, attestationBlock, resultType, local, sorted);
  }

  // The code unwraps the last element, so the caller must bring at least one remote attestation.
  method CompareAttestation(local: Attestation, remoteAttestations: seq<Attestation>) returns (r: ComparisonResult)
    requires remoteAttestations != []
    ensures r == ComparedToTop(local, remoteAttestations)
    ensures r.deployment == local.identifier && r.blockNumber == local.blockNumber
    ensures r.localAttestation == Some(local) && LightestFirst(remoteAttestations, r.attestations)
    ensures r.resultType == if MostCarries(remoteAttestations, local.ppoi) then Match else Divergent
  {
    var sorted := Sort(remoteAttestations, LighterFirst);
    SortEndsWithScan(remoteAttestations, LighterFirst);
    SortLightest(remoteAttestations);
    MostTested(remoteAttestations, local.ppoi);
    var mostAttested := sorted[|sorted| - 1].ppoi;
    var resultType := if mostAttested == local.ppoi then Match else Divergent;
    r := ComparisonResult(local.identifier, local.blockNumber, resultType, Some(local), sorted);
  }

  // The last-arrived of the attestations of least weight carries the PPOI.
  ghost predicate LeastCarries(list: seq<Attestation>, ppoi: string) {
    exists i: nat :: LastOfLeast(list, i) && list[i].ppoi == ppoi
  }

  lemma LastOfLeastUnique(list: seq<Attestation>, i: nat, j: nat)
    requires LastOfLeast(list, i) && LastOfLeast(list, j)
    ensures i == j
  {
    assert list[i].stakeWeight == list[j].stakeWeight;
  }

  lemma LeastTested(list: seq<Attestation>)
    requires list != []
    ensures forall ppoi :: LeastCarries(list, ppoi) <==> list[LeastStaked(list)].ppoi == ppoi
  {
    LeastStakedExact(list);
    forall i: nat | LastOfLeast(list, i)
      ensures i == LeastStaked(list)
    {
      LastOfLeastUnique(list, i, LeastStaked(list));
    }
  }

  // The last-arrived of the attestations of greatest weight carries the PPOI.
  ghost predicate MostCarries(list: seq<Attestation>, ppoi: string) {
    exists i: nat :: LastOfMost(list, i) && list[i].ppoi == ppoi
  }

  lemma MostTested(list: seq<Attestation>, ppoi: string)
    requires list != []
    ensures MostCarries(list, ppoi) <==> list[MostStaked(list)].ppoi == ppoi
  {
    MostStakedExact(list);
    forall i: nat | LastOfMost(list, i)
      ensures i == MostStaked(list)
    {
      LastOfMostUnique(list, i, MostStaked(list));
    }
  }

  lemma LastOfMostUnique(list: seq<Attestation>, i: nat, j: nat)
    requires LastOfMost(list, i) && LastOfMost(list, j)
    ensures i == j
  {
    assert list[i].stakeWeight == list[j].stakeWeight;
  }

  // ---------- what they say ----------

  predicate DistinctPpois(list: seq<Attestation>) {
    forall i, j :: 0 <= i < j < |list| ==> list[i].ppoi != list[j].ppoi
  }

  // The table lists no PPOI twice under a key.
  lemma FoldDistinct(env: Env, ms: seq<PoiMessage>, id: string, block: u64)
    ensures DistinctPpois(Lookup(Fold(env, ms), id, block))
  {
    FoldRepresents(env, ms);
    PpoisDistinct(ms, id, block);
  }

  predicate EqualWeights(list: seq<Attestation>) {
    forall i, j :: 0 <= i < |list| && 0 <= j < |list| ==> list[i].stakeWeight == list[j].stakeWeight
  }

  /** The two comparators give the same verdict exactly when all weights are equal or the local PPOI is
      neither of the two that get tested.  The comment on the first one promises the verdict of the
      second, so this is also exactly when that promise is kept. */
  lemma ComparatorsAgree(local: Attestation, block: u64, id: string, list: seq<Attestation>)
    requires list != [] && DistinctPpois(list)
    ensures Compared(Some(local), block, id, list).resultType == ComparedToTop(local, list).resultType
       <==> EqualWeights(list)
            || (local.ppoi != list[LeastStaked(list)].ppoi && local.ppoi != list[MostStaked(list)].ppoi)
  {
    LeastStakedExact(list);
    MostStakedExact(list);
    var l, m := LeastStaked(list), MostStaked(list);
    if EqualWeights(list) {
      assert l == m;
    }
  }

  /** The main loop calls a radio that agrees with the heaviest group divergent as soon as there is one
      lighter group. */
  lemma MajorityDiverges(local: Attestation, block: u64, id: string, list: seq<Attestation>, i: nat)
    requires DistinctPpois(list) && i < |list| && list[i].ppoi == local.ppoi
    requires exists j :: 0 <= j < |list| && list[j].stakeWeight < list[i].stakeWeight
    ensures Compared(Some(local), block, id, list).resultType == Divergent
  {
    LeastStakedExact(list);
  }

  /** A verdict on a local attestation is Match exactly when the last-arrived of the least-staked
      attestations carries its PPOI. */
  lemma MatchesLeast(local: Attestation, block: u64, id: string, list: seq<Attestation>)
    ensures Compared(Some(local), block, id, list).resultType == Match <==> LeastCarries(list, local.ppoi)
  {
    if list != [] {
      LeastTested(list);
    }
  }

  lemma OneGroup(env: Env, m: PoiMessage, id: string, block: u64)
    requires m.AtBlock(id, block)
    ensures Ppois([m], id, block) == [m.payload.content] && Groups(env, [m], id, block) == [Opened(env, m)]
  {
    var none: seq<PoiMessage> := [];
    assert none + [m] == [m];
    PpoisSnoc(none, m, id, block);
    GroupsOpen(env, none, m);
    assert Groups(env, none, id, block) == [];
  }

  lemma TwoGroups(env: Env, m: PoiMessage, m': PoiMessage, id: string, block: u64)
    requires m.AtBlock(id, block) && m'.AtBlock(id, block) && m.payload.content != m'.payload.content
    ensures Lookup(Fold(env, [m, m']), id, block) == [Opened(env, m), Opened(env, m')]
  {
    OneGroup(env, m, id, block);
    var one := [m];
    GroupsOpen(env, one, m');
    assert one + [m'] == [m, m'];
    FoldRepresents(env, one + [m']);
  }

  /** Two messages for different PPOIs are enough: a radio that agrees with the sender of more stake is said
      to match by the query interface, and to diverge by the main loop. */
  lemma NotTheTopAttested(env: Env, m: PoiMessage, m': PoiMessage, local: Attestation, id: string, block: u64)
    requires m.AtBlock(id, block) && m'.AtBlock(id, block) && m.payload.content != m'.payload.content
    requires StakeOf(env, m.payload.graphAccount) < StakeOf(env, m'.payload.graphAccount)
    requires local.ppoi == m'.payload.content
    ensures var list := Lookup(Fold(env, [m, m']), id, block);
            && list != [] && ComparedToTop(local, list).resultType == Match
            && Compared(Some(local), block, id, list).resultType == Divergent
  {
    TwoGroups(env, m, m', id, block);
    var list := [Opened(env, m), Opened(env, m')];
    MostStakedExact(list);
    LeastStakedExact(list);
    assert list[0].stakeWeight < list[1].stakeWeight;
  }

  // ---------- order of arrival ----------

  ghost predicate UniqueMost(list: seq<Attestation>) {
    exists i :: 0 <= i < |list| && forall j :: 0 <= j < |list| && j != i ==> list[j].stakeWeight < list[i].stakeWeight
  }

  ghost predicate Lightest(list: seq<Attestation>, i: nat) {
    i < |list| && forall j :: 0 <= j < |list| && j != i ==> list[i].stakeWeight < list[j].stakeWeight
  }

  ghost predicate UniqueLeast(list: seq<Attestation>) {
    exists i: nat :: Lightest(list, i)
  }

  lemma SameMost(list: seq<Attestation>, i: nat, other: seq<Attestation>, j: nat)
    requires Covers(list, other) && Covers(other, list) && UniqueMost(list)
    requires LastOfMost(list, i) && LastOfMost(other, j)
    ensures list[i].ppoi == other[j].ppoi
  {
    assert list[i] in list && other[j] in other;
    assert HasLike(list[i], other) && HasLike(other[j], list);
    var a :| a in other && SameGroup(list[i], a);
    var b :| b in list && SameGroup(other[j], b);
  }

  lemma SameLeast(list: seq<Attestation>, i: nat, other: seq<Attestation>, j: nat)
    requires Covers(list, other) && Covers(other, list) && UniqueLeast(list)
    requires LastOfLeast(list, i) && LastOfLeast(other, j)
    ensures list[i].ppoi == other[j].ppoi
  {
    assert list[i] in list && other[j] in other;
    assert HasLike(list[i], other) && HasLike(other[j], list);
    var a :| a in other && SameGroup(list[i], a);
    var b :| b in list && SameGroup(other[j], b);
  }

  // The verdicts reached on two lists are the same wherever that is meant to be so.
  ghost predicate SameVerdicts(local: Attestation, id: string, block: u64,
                               list: seq<Attestation>, other: seq<Attestation>)
  {
    && (list == [] <==> other == [])
    && (list != [] && UniqueMost(list) ==>
          ComparedToTop(local, list).resultType == ComparedToTop(local, other).resultType)
    && (list != [] && UniqueLeast(list) ==>
          Compared(Some(local), block, id, list).resultType == Compared(Some(local), block, id, other).resultType)
  }

  lemma CoveredEmpty(list: seq<Attestation>, other: seq<Attestation>)
    requires Covers(list, other)
    ensures list != [] ==> other != []
  {
    if list != [] {
      assert list[0] in list && HasLike(list[0], other);
    }
  }

  lemma TopVerdicts(local: Attestation, list: seq<Attestation>, other: seq<Attestation>)
    requires Covers(list, other) && Covers(other, list) && list != [] && other != [] && UniqueMost(list)
    ensures ComparedToTop(local, list).resultType == ComparedToTop(local, other).resultType
  {
    MostStakedExact(list);
    MostStakedExact(other);
    SameMost(list, MostStaked(list), other, MostStaked(other));
  }

  lemma MainVerdicts(local: Attestation, id: string, block: u64, list: seq<Attestation>, other: seq<Attestation>)
    requires Covers(list, other) && Covers(other, list) && list != [] && other != [] && UniqueLeast(list)
    ensures Compared(Some(local), block, id, list).resultType == Compared(Some(local), block, id, other).resultType
  {
    LeastStakedExact(list);
    LeastStakedExact(other);
    SameLeast(list, LeastStaked(list), other, LeastStaked(other));
  }

  lemma CoveringVerdicts(local: Attestation, id: string, block: u64, list: seq<Attestation>, other: seq<Attestation>)
    requires Covers(list, other) && Covers(other, list)
    ensures SameVerdicts(local, id, block, list, other)
  {
    if other == [] {
      CoveredEmpty(list, other);
    } else if list == [] {
      CoveredEmpty(other, list);
    } else {
      if UniqueMost(list) { TopVerdicts(local, list, other); }
      if UniqueLeast(list) { MainVerdicts(local, id, block, list, other); }
    }
  }

  /** From messages to verdicts: permuting the messages changes neither verdict, provided the extreme
      each comparator looks for is reached by one attestation only. */
  lemma VerdictsOrderIndependent(env: Env, ms: seq<PoiMessage>, ms': seq<PoiMessage>,
                                 local: Attestation, id: string, block: u64)
    requires multiset(ms) == multiset(ms')
    requires forall m :: m in ms ==> m.ValidOuter()
    ensures SameVerdicts(local, id, block, Lookup(Fold(env, ms), id, block), Lookup(Fold(env, ms'), id, block))
  {
    OrderIndependent(env, ms, ms', id, block);
    CoveringVerdicts(local, id, block, Lookup(Fold(env, ms), id, block), Lookup(Fold(env, ms'), id, block));
  }
}
