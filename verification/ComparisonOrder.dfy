/** Which verdicts of the main loop depend on the order in which the messages arrived. */
module ComparisonOrder {
  import opened Core
  import opened Attestations
  import opened Aggregation
  import opened AggregationLaws
  import opened Comparison

  // What the main loop says of a local attestation, given the messages about its block
  function MainVerdict(env: Env, ms: seq<PoiMessage>, local: Attestation, id: string, block: u64): ResultType {
    Compared(Some(local), block, id, Lookup(Fold(env, ms), id, block)).resultType
  }

  ghost predicate LeastIn(list: seq<Attestation>, a: Attestation) {
    a in list && forall b :: b in list ==> a.stakeWeight <= b.stakeWeight
  }

  // ---------- an order in which a given PPOI comes last ----------

  function MovedLast(ms: seq<PoiMessage>, id: string, block: u64, ppoi: string): seq<PoiMessage> {
    Filter((m: PoiMessage) => !m.Attests(id, block, ppoi), ms)
      + Filter((m: PoiMessage) => m.Attests(id, block, ppoi), ms)
  }

  lemma MovedLastPermutes(ms: seq<PoiMessage>, id: string, block: u64, ppoi: string)
    ensures multiset(MovedLast(ms, id, block, ppoi)) == multiset(ms)
  {
    FilterParts((m: PoiMessage) => !m.Attests(id, block, ppoi), (m: PoiMessage) => m.Attests(id, block, ppoi), ms);
  }

  lemma {:induction false} PpoisThen(ms: seq<PoiMessage>, more: seq<PoiMessage>, id: string, block: u64, ppoi: string)
    requires ppoi !in Ppois(ms, id, block) && forall m :: m in more ==> m.Attests(id, block, ppoi)
    ensures Ppois(ms + more, id, block) == Ppois(ms, id, block) + if more == [] then [] else [ppoi]
  {
    if more == [] {
      assert ms + more == ms;
    } else {
      var init, m := more[..|more| - 1], more[|more| - 1];
      assert m in more && m.Attests(id, block, ppoi);
      PpoisThen(ms, init, id, block, ppoi);
      AppendSnoc(ms, init, m);
      PpoisSnoc(ms + init, m, id, block);
      assert more == init + [m];
    }
  }

  lemma LastGroup(env: Env, ms: seq<PoiMessage>, id: string, block: u64, ppoi: string)
    requires PpoiSent(ms, id, block, ppoi)
    ensures var list := Lookup(Fold(env, MovedLast(ms, id, block, ppoi)), id, block);
            list != [] && list[|list| - 1].ppoi == ppoi
  {
    var others := Filter((m: PoiMessage) => !m.Attests(id, block, ppoi), ms);
    var own := Filter((m: PoiMessage) => m.Attests(id, block, ppoi), ms);
    var m :| m in ms && m.Attests(id, block, ppoi);
    assert m in own;
    PpoisAttested(others, id, block, ppoi);
    PpoisThen(others, own, id, block, ppoi);
    FoldRepresents(env, others + own);
  }

  // In that order the group of a least-staked attestation is the one that is tested.
  lemma TestedLast(env: Env, ms: seq<PoiMessage>, id: string, block: u64, a: Attestation)
    requires (forall m :: m in ms ==> m.ValidOuter()) && LeastIn(Lookup(Fold(env, ms), id, block), a)
    ensures var list := Lookup(Fold(env, MovedLast(ms, id, block, a.ppoi)), id, block);
            list != [] && list[LeastStaked(list)].ppoi == a.ppoi
  {
    var moved := MovedLast(ms, id, block, a.ppoi);
    var was, list := Lookup(Fold(env, ms), id, block), Lookup(Fold(env, moved), id, block);
    MovedLastPermutes(ms, id, block, a.ppoi);
    FoldDistinct(env, ms, id, block);
    TableMeaning(env, ms, id, block);
    LastGroup(env, ms, id, block, a.ppoi);
    OrderIndependent(env, ms, moved, id, block);
    LastIsLeast(was, list, a);
    LeastStakedExact(list);
    LastOfLeastUnique(list, |list| - 1, LeastStaked(list));
  }

  lemma LastIsLeast(was: seq<Attestation>, list: seq<Attestation>, a: Attestation)
    requires DistinctPpois(was) && Covers(list, was) && LeastIn(was, a)
    requires list != [] && list[|list| - 1].ppoi == a.ppoi
    ensures LastOfLeast(list, |list| - 1)
  {
    var last := list[|list| - 1];
    assert HasLike(last, was);
    var b :| b in was && SameGroup(last, b);
    assert b == a;
    forall j | 0 <= j < |list|
      ensures last.stakeWeight <= list[j].stakeWeight
    {
      assert HasLike(list[j], was);
      var c :| c in was && SameGroup(list[j], c);
    }
  }

  // ---------- when no order matters ----------

  // Some least-staked attestation carries the PPOI.
  ghost predicate LeastWith(list: seq<Attestation>, ppoi: string) {
    exists a :: LeastIn(list, a) && a.ppoi == ppoi
  }

  lemma NoLeastWith(local: Attestation, id: string, block: u64, list: seq<Attestation>, other: seq<Attestation>)
    requires Covers(list, other) && Covers(other, list) && !LeastWith(other, local.ppoi)
    ensures Compared(Some(local), block, id, list).resultType == if other == [] then NotFound else Divergent
  {
    CoveredEmpty(list, other);
    CoveredEmpty(other, list);
    if list != [] {
      var tested := list[LeastStaked(list)];
      LeastStakedExact(list);
      assert HasLike(tested, other);
      var b :| b in other && SameGroup(tested, b);
      forall c | c in other
        ensures b.stakeWeight <= c.stakeWeight
      {
        assert HasLike(c, list);
      }
      assert LeastIn(other, b);
    }
  }

  lemma CoversItself(list: seq<Attestation>)
    ensures Covers(list, list)
  {
    forall a | a in list
      ensures HasLike(a, list)
    {
      assert SameGroup(a, a);
    }
  }

  lemma AnotherIndex(list: seq<Attestation>, i: nat) returns (j: nat)
    requires i < |list| && !UniqueLeast(list)
    ensures j < |list| && j != i && list[j].stakeWeight <= list[i].stakeWeight
  {
    assert !Lightest(list, i);
    j :| j < |list| && j != i && list[j].stakeWeight <= list[i].stakeWeight;
  }

  lemma AnotherLeast(list: seq<Attestation>, a: Attestation) returns (b: Attestation)
    requires DistinctPpois(list) && LeastIn(list, a) && !UniqueLeast(list)
    ensures LeastIn(list, b) && b.ppoi != a.ppoi
  {
    var i: nat :| i < |list| && list[i] == a;
    var j := AnotherIndex(list, i);
    b := list[j];
    DifferentPpois(list, i, j);
    forall c | c in list
      ensures b.stakeWeight <= c.stakeWeight
    {
    }
  }

  lemma DifferentPpois(list: seq<Attestation>, i: nat, j: nat)
    requires DistinctPpois(list) && i < |list| && j < |list| && i != j
    ensures list[i].ppoi != list[j].ppoi
  {
  }

  ghost predicate AnyOrder(env: Env, ms: seq<PoiMessage>, local: Attestation, id: string, block: u64) {
    forall ms' :: multiset(ms') == multiset(ms) ==>
      MainVerdict(env, ms', local, id, block) == MainVerdict(env, ms, local, id, block)
  }

  /** The verdict of the main loop is the same for every order of the messages if and only if the least
      weight is reached only once, or none of the attestations that reach it carries the local PPOI. */
  lemma AnyOrderExactly(env: Env, ms: seq<PoiMessage>, local: Attestation, id: string, block: u64)
    requires forall m :: m in ms ==> m.ValidOuter()
    ensures var list := Lookup(Fold(env, ms), id, block);
            AnyOrder(env, ms, local, id, block) <==> UniqueLeast(list) || !LeastWith(list, local.ppoi)
  {
    var list := Lookup(Fold(env, ms), id, block);
    if UniqueLeast(list) || !LeastWith(list, local.ppoi) {
      forall ms' | multiset(ms') == multiset(ms)
        ensures MainVerdict(env, ms', local, id, block) == MainVerdict(env, ms, local, id, block)
      {
        SameInOrder(env, ms, ms', local, id, block);
      }
    } else {
      OrdersDiffer(env, ms, local, id, block);
    }
  }

  lemma SameInOrder(env: Env, ms: seq<PoiMessage>, ms': seq<PoiMessage>, local: Attestation, id: string, block: u64)
    requires multiset(ms') == multiset(ms) && forall m :: m in ms ==> m.ValidOuter()
    requires var list := Lookup(Fold(env, ms), id, block); UniqueLeast(list) || !LeastWith(list, local.ppoi)
    ensures MainVerdict(env, ms', local, id, block) == MainVerdict(env, ms, local, id, block)
  {
    var list, other := Lookup(Fold(env, ms), id, block), Lookup(Fold(env, ms'), id, block);
    if UniqueLeast(list) {
      VerdictsOrderIndependent(env, ms, ms', local, id, block);
    } else {
      OrderIndependent(env, ms, ms', id, block);
      CoversItself(list);
      NoLeastWith(local, id, block, other, list);
      NoLeastWith(local, id, block, list, list);
    }
  }

  lemma OrdersDiffer(env: Env, ms: seq<PoiMessage>, local: Attestation, id: string, block: u64)
    requires forall m :: m in ms ==> m.ValidOuter()
    requires var list := Lookup(Fold(env, ms), id, block); !UniqueLeast(list) && LeastWith(list, local.ppoi)
    ensures !AnyOrder(env, ms, local, id, block)
  {
    var list := Lookup(Fold(env, ms), id, block);
    var a :| LeastIn(list, a) && a.ppoi == local.ppoi;
    FoldDistinct(env, ms, id, block);
    var b := AnotherLeast(list, a);
    VerdictMoved(env, ms, local, id, block, a);
    VerdictMoved(env, ms, local, id, block, b);
    assert MainVerdict(env, MovedLast(ms, id, block, a.ppoi), local, id, block)
        != MainVerdict(env, MovedLast(ms, id, block, b.ppoi), local, id, block);
  }

  lemma VerdictMoved(env: Env, ms: seq<PoiMessage>, local: Attestation, id: string, block: u64, a: Attestation)
    requires (forall m :: m in ms ==> m.ValidOuter()) && LeastIn(Lookup(Fold(env, ms), id, block), a)
    ensures var moved := MovedLast(ms, id, block, a.ppoi);
            && multiset(moved) == multiset(ms)
            && MainVerdict(env, moved, local, id, block) == if a.ppoi == local.ppoi then Match else Divergent
  {
    MovedLastPermutes(ms, id, block, a.ppoi);
    TestedLast(env, ms, id, block, a);
  }
}
