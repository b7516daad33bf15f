/** What the aggregation means, message by message; that the order of arrival does not matter; and
    that its 64-bit sums cannot overflow while the senders' total stake fits. */
module AggregationLaws {
  import opened Core
  import opened Attestations
  import opened Aggregation

  // Message i is the first of its account to attest the PPOI.
  ghost predicate FirstFrom(ms: seq<PoiMessage>, i: int, id: string, block: u64, ppoi: string) {
    && 0 <= i < |ms| && ms[i].Attests(id, block, ppoi)
    && forall j :: 0 <= j < i && ms[j].Attests(id, block, ppoi) ==> ms[j].graphAccount != ms[i].graphAccount
  }

  ghost predicate Attested(ms: seq<PoiMessage>, id: string, block: u64, ppoi: string, account: string) {
    exists i :: 0 <= i < |ms| && ms[i].Attests(id, block, ppoi) && ms[i].graphAccount == account
  }

  lemma AttestedSnoc(ms: seq<PoiMessage>, m: PoiMessage, id: string, block: u64, ppoi: string, account: string)
    ensures Attested(ms + [m], id, block, ppoi, account) <==>
            Attested(ms, id, block, ppoi, account) || (m.Attests(id, block, ppoi) && m.graphAccount == account)
  {
    var longer := ms + [m];
    assert longer[|ms|] == m && forall j :: 0 <= j < |ms| ==> longer[j] == ms[j];
  }

  lemma AccountsStep(ms: seq<PoiMessage>, m: PoiMessage, id: string, block: u64, ppoi: string, account: string)
    requires account in Accounts(Contributors(ms, id, block, ppoi)) <==> Attested(ms, id, block, ppoi, account)
    ensures account in Accounts(Contributors(ms + [m], id, block, ppoi)) <==>
            Attested(ms + [m], id, block, ppoi, account)
  {
    ContributorsSnoc(ms, m, id, block, ppoi);
    AccountsSnoc(Contributors(ms, id, block, ppoi), m);
    AttestedSnoc(ms, m, id, block, ppoi, account);
  }

  lemma {:induction false} AccountsExact(ms: seq<PoiMessage>, id: string, block: u64, ppoi: string, account: string)
    ensures account in Accounts(Contributors(ms, id, block, ppoi)) <==> Attested(ms, id, block, ppoi, account)
  {
    if ms != [] {
      var init, m := ms[..|ms| - 1], ms[|ms| - 1];
      AccountsExact(init, id, block, ppoi, account);
      AccountsStep(init, m, id, block, ppoi, account);
      assert ms == init + [m];
    }
  }

  lemma {:induction false} AccountsDistinct(ms: seq<PoiMessage>, id: string, block: u64, ppoi: string)
    ensures Distinct(Accounts(Contributors(ms, id, block, ppoi)))
  {
    if ms != [] {
      AccountsDistinct(ms[..|ms| - 1], id, block, ppoi);
      var cs, m := Contributors(ms[..|ms| - 1], id, block, ppoi), ms[|ms| - 1];
      AccountsSnoc(cs, m);
      DistinctSnoc(Accounts(cs), m.graphAccount);
    }
  }

  lemma FirstFromSnoc(ms: seq<PoiMessage>, m: PoiMessage, i: int, id: string, block: u64, ppoi: string)
    ensures FirstFrom(ms + [m], i, id, block, ppoi) <==>
            if i == |ms| then m.Attests(id, block, ppoi) && !Attested(ms, id, block, ppoi, m.graphAccount)
            else FirstFrom(ms, i, id, block, ppoi)
  {
    var longer := ms + [m];
    assert forall j :: 0 <= j < |ms| ==> longer[j] == ms[j];
  }

  /** The contributors of a PPOI are the first messages of its accounts, all of them, in order. */
  lemma {:induction false} ContributorsExact(ms: seq<PoiMessage>, id: string, block: u64, ppoi: string)
    returns (at: seq<nat>)
    ensures |at| == |Contributors(ms, id, block, ppoi)|
    ensures forall k :: 0 <= k < |at| ==> at[k] < |ms| && Contributors(ms, id, block, ppoi)[k] == ms[at[k]]
    ensures forall k, l :: 0 <= k < l < |at| ==> at[k] < at[l]
    ensures forall i :: i in at <==> FirstFrom(ms, i, id, block, ppoi)
  {
    at := [];
    if ms != [] {
      var init, m := ms[..|ms| - 1], ms[|ms| - 1];
      assert ms == init + [m];
      at := ContributorsExact(init, id, block, ppoi);
      AccountsExact(init, id, block, ppoi, m.graphAccount);
      forall i
        ensures FirstFrom(ms, i, id, block, ppoi) <==>
                if i == |init| then
                  m.Attests(id, block, ppoi) && m.graphAccount !in Accounts(Contributors(init, id, block, ppoi))
                else i in at
      {
        FirstFromSnoc(init, m, i, id, block, ppoi);
      }
      if m.Attests(id, block, ppoi) && m.graphAccount !in Accounts(Contributors(init, id, block, ppoi)) {
        at := at + [|init|];
      }
    }
  }

  // ---------- the table, read as a statement about the messages ----------

  function SenderStake(env: Env, senders: seq<string>): nat {
    var stake: string -> nat := s => StakeOf(env, s);
    Sum(Map(stake, senders))
  }

  lemma {:induction false} StakeSumBySender(env: Env, cs: seq<PoiMessage>)
    requires forall m :: m in cs ==> m.ValidOuter()
    ensures StakeSum(env, cs) == SenderStake(env, Accounts(cs))
  {
    if cs == [] {
      var stake: string -> nat := s => StakeOf(env, s);
      assert Map(stake, Accounts(cs)) == [];
    } else {
      var init, m := cs[..|cs| - 1], cs[|cs| - 1];
      assert m in cs && m.ValidOuter();
      StakeSumBySender(env, init);
      SenderStakeSnoc(env, Accounts(init), m.graphAccount);
    }
  }

  lemma SenderStakeSnoc(env: Env, senders: seq<string>, s: string)
    ensures SenderStake(env, senders + [s]) == SenderStake(env, senders) + StakeOf(env, s)
  {
    var stake: string -> nat := s => StakeOf(env, s);
    assert Map(stake, senders + [s]) == Map(stake, senders) + [stake(s)];
  }

  // The account's first message with the PPOI has this nonce.
  ghost predicate FirstMessage(ms: seq<PoiMessage>, id: string, block: u64, ppoi: string, account: string, nonce: u64) {
    exists i :: FirstFrom(ms, i, id, block, ppoi) && ms[i].graphAccount == account && ms[i].nonce == nonce
  }

  // a says of a list of messages what an attestation is meant to say
  ghost predicate Summarises(env: Env, ms: seq<PoiMessage>, a: Attestation) {
    && Distinct(a.senders)
    && (forall s :: s in a.senders <==> Attested(ms, a.identifier, a.blockNumber, a.ppoi, s))
    && |a.timestamp| == |a.senders|
    && (forall k :: 0 <= k < |a.senders| ==>
          FirstMessage(ms, a.identifier, a.blockNumber, a.ppoi, a.senders[k], a.timestamp[k]))
    && a.stakeWeight == SenderStake(env, a.senders) % U64_LIMIT
    && a.senderGroupHash == env.hash(a.senders)
  }

  lemma SenderFirst(env: Env, ms: seq<PoiMessage>, id: string, block: u64, ppoi: string, k: nat)
    requires k < |Contributors(ms, id, block, ppoi)|
    ensures var c := Contributors(ms, id, block, ppoi)[k]; FirstMessage(ms, id, block, ppoi, c.graphAccount, c.nonce)
  {
    var at := ContributorsExact(ms, id, block, ppoi);
    assert at[k] in at;
  }

  lemma GroupSummarises(env: Env, ms: seq<PoiMessage>, id: string, block: u64, ppoi: string)
    requires forall m :: m in ms ==> m.ValidOuter()
    ensures Summarises(env, ms, Group(env, ms, id, block, ppoi))
    ensures ValidKnown(env, ms) ==> WeighsStakes(env, Group(env, ms, id, block, ppoi))
  {
    if ValidKnown(env, ms) { GroupWeighsStakes(env, ms, id, block, ppoi); }
    var cs := Contributors(ms, id, block, ppoi);
    AccountsDistinct(ms, id, block, ppoi);
    forall s
      ensures s in Accounts(cs) <==> Attested(ms, id, block, ppoi, s)
    {
      AccountsExact(ms, id, block, ppoi, s);
    }
    forall k | 0 <= k < |cs|
      ensures FirstMessage(ms, id, block, ppoi, Accounts(cs)[k], Nonces(cs)[k])
    {
      SenderFirst(env, ms, id, block, ppoi, k);
    }
    GroupWeight(env, ms, id, block, ppoi);
  }

  ghost predicate PpoiSent(ms: seq<PoiMessage>, id: string, block: u64, ppoi: string) {
    exists m :: m in ms && m.Attests(id, block, ppoi)
  }

  // A list holds one faithful summary for each PPOI sent for a deployment and block, and no more.
  ghost predicate ListMeans(env: Env, ms: seq<PoiMessage>, id: string, block: u64, list: seq<Attestation>) {
    && (forall j, k :: 0 <= j < k < |list| ==> list[j].ppoi != list[k].ppoi)
    && (forall a :: a in list ==> a.identifier == id && a.blockNumber == block && Summarises(env, ms, a))
    && (forall p :: PpoiSent(ms, id, block, p) <==> exists a :: a in list && a.ppoi == p)
  }

  lemma GroupsMeaning(env: Env, ms: seq<PoiMessage>, id: string, block: u64)
    requires forall m :: m in ms ==> m.ValidOuter()
    ensures ListMeans(env, ms, id, block, Groups(env, ms, id, block))
  {
    PpoisDistinct(ms, id, block);
    var list, ps := Groups(env, ms, id, block), Ppois(ms, id, block);
    forall a | a in list
      ensures a.identifier == id && a.blockNumber == block && Summarises(env, ms, a)
    {
      var k :| 0 <= k < |list| && list[k] == a;
      GroupSummarises(env, ms, id, block, ps[k]);
    }
    forall p
      ensures PpoiSent(ms, id, block, p) <==> exists a :: a in list && a.ppoi == p
    {
      PpoisAttested(ms, id, block, p);
      if p in ps {
        var k :| 0 <= k < |ps| && ps[k] == p;
        assert list[k] in list && list[k].ppoi == p;
      }
    }
  }

  /** Every list of the table the loop builds: one attestation per PPOI sent for that deployment and
      block, each a faithful summary; and nothing is listed for a key nobody attested. */
  lemma TableMeaning(env: Env, ms: seq<PoiMessage>, id: string, block: u64)
    requires forall m :: m in ms ==> m.ValidOuter()
    ensures ListMeans(env, ms, id, block, Lookup(Fold(env, ms), id, block))
    ensures ValidKnown(env, ms) ==> TableWeighsStakes(env, Fold(env, ms))
  {
    FoldRepresents(env, ms);
    GroupsMeaning(env, ms, id, block);
    if ValidKnown(env, ms) { FoldWeighsStakes(env, ms); }
  }

  // ---------- an account under several PPOIs ----------

  // The account is a sender of two attestations of the list.
  ghost predicate ListedTwice(list: seq<Attestation>, account: string) {
    exists a, b :: a in list && b in list && a.ppoi != b.ppoi && account in a.senders && account in b.senders
  }

  ghost predicate SentTwoPpois(ms: seq<PoiMessage>, id: string, block: u64, account: string) {
    exists p, q :: p != q && Attested(ms, id, block, p, account) && Attested(ms, id, block, q, account)
  }

  lemma ListedUnder(env: Env, ms: seq<PoiMessage>, id: string, block: u64, list: seq<Attestation>, p: string,
                    account: string)
    requires ListMeans(env, ms, id, block, list)
    ensures Attested(ms, id, block, p, account) <==> exists a :: a in list && a.ppoi == p && account in a.senders
  {
    if Attested(ms, id, block, p, account) {
      var i :| 0 <= i < |ms| && ms[i].Attests(id, block, p) && ms[i].graphAccount == account;
      assert ms[i] in ms && PpoiSent(ms, id, block, p);
      var a :| a in list && a.ppoi == p;
      assert account in a.senders;
    }
  }

  // The senders of an attestation but for one
  function Without(senders: seq<string>, account: string): seq<string> {
    Filter((s: string) => s != account, senders)
  }

  lemma {:induction false} StakeInFull(env: Env, senders: seq<string>, account: string)
    requires Distinct(senders)
    ensures SenderStake(env, senders) ==
            SenderStake(env, Without(senders, account)) + if account in senders then StakeOf(env, account) else 0
  {
    if senders != [] {
      var init, s := senders[..|senders| - 1], senders[|senders| - 1];
      assert senders == init + [s];
      DistinctSnoc(init, s);
      StakeInFull(env, init, account);
      SenderStakeSnoc(env, init, s);
      FilterSnoc((s: string) => s != account, init, s);
      SenderStakeSnoc(env, Without(init, account), s);
    }
  }

  // The account's stake is part of the weight, on top of that of the other senders.
  ghost predicate WeighsInFull(env: Env, a: Attestation, account: string) {
    a.stakeWeight == (SenderStake(env, Without(a.senders, account)) + StakeOf(env, account)) % U64_LIMIT
  }

  lemma SummaryWeighsInFull(env: Env, ms: seq<PoiMessage>, a: Attestation, account: string)
    requires Summarises(env, ms, a) && account in a.senders
    ensures WeighsInFull(env, a, account)
  {
    StakeInFull(env, a.senders, account);
  }

  /** An account is a sender of two attestations at a deployment and block if and only if it has sent two
      different PPOIs for it: senders are told apart only within an attestation.  In the weight of each
      it has its full stake. */
  lemma CountedUnderEach(env: Env, ms: seq<PoiMessage>, id: string, block: u64, account: string)
    requires forall m :: m in ms ==> m.ValidOuter()
    ensures var list := Lookup(Fold(env, ms), id, block);
            && (ListedTwice(list, account) <==> SentTwoPpois(ms, id, block, account))
            && forall a :: a in list && account in a.senders ==> WeighsInFull(env, a, account)
  {
    TableMeaning(env, ms, id, block);
    ListMeansTwice(env, ms, id, block, Lookup(Fold(env, ms), id, block), account);
  }

  lemma ListMeansTwice(env: Env, ms: seq<PoiMessage>, id: string, block: u64, list: seq<Attestation>, account: string)
    requires ListMeans(env, ms, id, block, list)
    ensures ListedTwice(list, account) <==> SentTwoPpois(ms, id, block, account)
    ensures forall a :: a in list && account in a.senders ==> WeighsInFull(env, a, account)
  {
    forall p
      ensures Attested(ms, id, block, p, account) <==> exists a :: a in list && a.ppoi == p && account in a.senders
    {
      ListedUnder(env, ms, id, block, list, p, account);
    }
    forall a | a in list && account in a.senders
      ensures WeighsInFull(env, a, account)
    {
      SummaryWeighsInFull(env, ms, a, account);
    }
  }

  // ---------- order of arrival ----------

  // Two attestations alike in everything but the order of senders and their timestamps.
  predicate SameGroup(a: Attestation, b: Attestation) {
    && a.identifier == b.identifier && a.blockNumber == b.blockNumber && a.ppoi == b.ppoi
    && Elements(a.senders) == Elements(b.senders) && |a.senders| == |b.senders|
    && a.stakeWeight == b.stakeWeight
    && a.senderGroupHash == b.senderGroupHash
  }

  lemma SenderStakePermutation(env: Env, s: seq<string>, t: seq<string>)
    requires multiset(s) <= multiset(t)
    ensures SenderStake(env, s) <= SenderStake(env, t)
  {
    var stake: string -> nat := s => StakeOf(env, s);
    MapMonotone(stake, s, t);
    SumMonotone(Map(stake, s), Map(stake, t));
  }

  lemma AttestedPermutation(ms: seq<PoiMessage>, ms': seq<PoiMessage>, id: string, block: u64, ppoi: string, s: string)
    requires multiset(ms) == multiset(ms') && Attested(ms, id, block, ppoi, s)
    ensures Attested(ms', id, block, ppoi, s)
  {
    var i :| 0 <= i < |ms| && ms[i].Attests(id, block, ppoi) && ms[i].graphAccount == s;
    PermutationMembers(ms, ms');
    assert ms[i] in ms';
  }

  lemma SendersPermutation(env: Env, ms: seq<PoiMessage>, ms': seq<PoiMessage>, id: string, block: u64, ppoi: string)
    requires multiset(ms) == multiset(ms')
    ensures var s, t := Accounts(Contributors(ms, id, block, ppoi)), Accounts(Contributors(ms', id, block, ppoi));
            Distinct(s) && Distinct(t) && Elements(s) == Elements(t) && multiset(s) == multiset(t)
  {
    var s, t := Accounts(Contributors(ms, id, block, ppoi)), Accounts(Contributors(ms', id, block, ppoi));
    AccountsDistinct(ms, id, block, ppoi);
    AccountsDistinct(ms', id, block, ppoi);
    forall x
      ensures x in s <==> x in t
    {
      AccountsExact(ms, id, block, ppoi, x);
      AccountsExact(ms', id, block, ppoi, x);
      if x in s { AttestedPermutation(ms, ms', id, block, ppoi, x); }
      if x in t { AttestedPermutation(ms', ms, id, block, ppoi, x); }
    }
    assert Elements(s) == Elements(t);
    DistinctMultiset(s);
    DistinctMultiset(t);
  }

  lemma GroupPermutation(env: Env, ms: seq<PoiMessage>, ms': seq<PoiMessage>,
                         id: string, block: u64, ppoi: string)
    requires multiset(ms) == multiset(ms')
    requires forall m :: m in ms ==> m.ValidOuter()
    ensures SameGroup(Group(env, ms, id, block, ppoi), Group(env, ms', id, block, ppoi))
  {
    var s, t := Accounts(Contributors(ms, id, block, ppoi)), Accounts(Contributors(ms', id, block, ppoi));
    SendersPermutation(env, ms, ms', id, block, ppoi);
    assert |multiset(s)| == |s| && |multiset(t)| == |t|;
    assert env.hash(s) == env.hash(t) by { SameSendersSameHash(env.sha3, s, t); }
    PermutationMembers(ms, ms');
    GroupWeight(env, ms, id, block, ppoi);
    GroupWeight(env, ms', id, block, ppoi);
    SenderStakePermutation(env, s, t);
    SenderStakePermutation(env, t, s);
  }

  lemma GroupWeight(env: Env, ms: seq<PoiMessage>, id: string, block: u64, ppoi: string)
    requires forall m :: m in ms ==> m.ValidOuter()
    ensures var a := Group(env, ms, id, block, ppoi);
            a.stakeWeight == SenderStake(env, a.senders) % U64_LIMIT
    ensures StakeSum(env, Contributors(ms, id, block, ppoi)) ==
            SenderStake(env, Group(env, ms, id, block, ppoi).senders)
  {
    ContributorsFrom(ms, id, block, ppoi);
    StakeSumBySender(env, Contributors(ms, id, block, ppoi));
  }

  lemma PpoisPermutation(ms: seq<PoiMessage>, ms': seq<PoiMessage>, id: string, block: u64, p: string)
    requires multiset(ms) == multiset(ms') && p in Ppois(ms, id, block)
    ensures p in Ppois(ms', id, block)
  {
    PermutationMembers(ms, ms');
    PpoisAttested(ms, id, block, p);
    PpoisAttested(ms', id, block, p);
  }

  ghost predicate HasLike(a: Attestation, list: seq<Attestation>) {
    exists b :: b in list && SameGroup(a, b)
  }

  // Every attestation of the one list has its like in the other.
  ghost predicate Covers(list: seq<Attestation>, other: seq<Attestation>) {
    forall a {:trigger HasLike(a, other)} :: a in list ==> HasLike(a, other)
  }

  lemma CoversPermutation(env: Env, ms: seq<PoiMessage>, ms': seq<PoiMessage>, id: string, block: u64)
    requires multiset(ms) == multiset(ms')
    requires forall m :: m in ms ==> m.ValidOuter()
    ensures Covers(Groups(env, ms, id, block), Groups(env, ms', id, block))
  {
    var list, other := Groups(env, ms, id, block), Groups(env, ms', id, block);
    forall a | a in list
      ensures HasLike(a, other)
    {
      var k :| 0 <= k < |list| && list[k] == a;
      var p := Ppois(ms, id, block)[k];
      PpoisPermutation(ms, ms', id, block, p);
      var l :| 0 <= l < |Ppois(ms', id, block)| && Ppois(ms', id, block)[l] == p;
      GroupPermutation(env, ms, ms', id, block, p);
      assert other[l] in other && SameGroup(a, other[l]);
    }
  }

  /** Permuting the messages permutes the attestations and changes none of them: same PPOIs, sender
      sets, weights and group hashes at every deployment and block. */
  lemma OrderIndependent(env: Env, ms: seq<PoiMessage>, ms': seq<PoiMessage>, id: string, block: u64)
    requires multiset(ms) == multiset(ms')
    requires forall m :: m in ms ==> m.ValidOuter()
    ensures var list, other := Lookup(Fold(env, ms), id, block), Lookup(Fold(env, ms'), id, block);
            Covers(list, other) && Covers(other, list)
  {
    PermutationMembers(ms, ms');
    FoldRepresents(env, ms);
    FoldRepresents(env, ms');
    CoversPermutation(env, ms, ms', id, block);
    CoversPermutation(env, ms', ms, id, block);
  }

  // ---------- 64-bit sums ----------

  function AccountsSeen(ms: seq<PoiMessage>): seq<string> {
    if ms == [] then []
    else
      var before, account := AccountsSeen(ms[..|ms| - 1]), ms[|ms| - 1].graphAccount;
      if account in before then before else before + [account]
  }

  lemma {:induction false} AccountsSeenExact(ms: seq<PoiMessage>)
    ensures Distinct(AccountsSeen(ms))
    ensures forall m :: m in ms ==> m.graphAccount in AccountsSeen(ms)
  {
    if ms != [] {
      AccountsSeenExact(ms[..|ms| - 1]);
      DistinctSnoc(AccountsSeen(ms[..|ms| - 1]), ms[|ms| - 1].graphAccount);
    }
  }

  lemma ContainedMultiset(s: seq<string>, t: seq<string>)
    requires Distinct(s) && Distinct(t) && forall x :: x in s ==> x in t
    ensures multiset(s) <= multiset(t)
  {
    DistinctMultiset(s);
    DistinctMultiset(t);
    assert Elements(s) <= Elements(t);
  }

  lemma InPrefix(ms: seq<PoiMessage>, n: nat, m: PoiMessage)
    requires n <= |ms| && m in ms[..n]
    ensures m in ms
  {
    var i :| 0 <= i < n && ms[..n][i] == m;
    assert ms[i] == m;
  }

  lemma SendersSeen(env: Env, ms: seq<PoiMessage>, n: nat, id: string, block: u64, ppoi: string)
    requires n <= |ms|
    ensures multiset(Accounts(Contributors(ms[..n], id, block, ppoi))) <= multiset(AccountsSeen(ms))
  {
    var cs := Contributors(ms[..n], id, block, ppoi);
    AccountsDistinct(ms[..n], id, block, ppoi);
    AccountsSeenExact(ms);
    ContributorsFrom(ms[..n], id, block, ppoi);
    forall s | s in Accounts(cs)
      ensures s in AccountsSeen(ms)
    {
      var k :| 0 <= k < |cs| && Accounts(cs)[k] == s;
      assert cs[k] in cs;
      InPrefix(ms, n, cs[k]);
    }
    ContainedMultiset(Accounts(cs), AccountsSeen(ms));
  }

  lemma SmallMod(n: nat)
    ensures n < U64_LIMIT ==> n % U64_LIMIT == n
  {
  }

  /** After any prefix of the loop every weight is at most the stake of the distinct accounts in the
      whole list.  So while that total fits in 64 bits no addition wraps, and the weight is the sum. */
  lemma WeightBound(env: Env, ms: seq<PoiMessage>, n: nat, id: string, block: u64, ppoi: string)
    requires n <= |ms| && forall m :: m in ms ==> m.ValidOuter()
    ensures var a := Group(env, ms[..n], id, block, ppoi);
            var total := SenderStake(env, AccountsSeen(ms));
            && SenderStake(env, a.senders) <= total
            && (total < U64_LIMIT ==> a.stakeWeight == SenderStake(env, a.senders))
  {
    SendersSeen(env, ms, n, id, block, ppoi);
    SenderStakePermutation(env, Accounts(Contributors(ms[..n], id, block, ppoi)), AccountsSeen(ms));
    forall m | m in ms[..n]
      ensures m.ValidOuter()
    {
      InPrefix(ms, n, m);
    }
    GroupWeight(env, ms[..n], id, block, ppoi);
    SmallMod(SenderStake(env, Accounts(Contributors(ms[..n], id, block, ppoi))));
  }

  /** The addition the loop performs for message n is exact under the same bound. */
  lemma AdditionFits(env: Env, ms: seq<PoiMessage>, n: nat)
    requires n < |ms| && forall m :: m in ms ==> m.ValidOuter()
    requires SenderStake(env, AccountsSeen(ms)) < U64_LIMIT
    ensures var m := ms[n];
            var a := Group(env, ms[..n], m.identifier, m.payload.blockNumber, m.payload.content);
            m.graphAccount !in a.senders ==>
              a.stakeWeight + StakeOf(env, m.graphAccount) < U64_LIMIT
  {
    var m := ms[n];
    var id, block, p := m.identifier, m.payload.blockNumber, m.payload.content;
    var senders := Group(env, ms[..n], id, block, p).senders;
    if m.graphAccount !in senders {
      PrefixSnoc(ms, n);
      SenderJoins(env, ms[..n], m);
      WeightBound(env, ms, n, id, block, p);
      WeightBound(env, ms, n + 1, id, block, p);
      SenderStakeSnoc(env, senders, m.graphAccount);
    }
  }

  lemma SenderJoins(env: Env, ms: seq<PoiMessage>, m: PoiMessage)
    ensures var id, block, p := m.identifier, m.payload.blockNumber, m.payload.content;
            var senders := Group(env, ms, id, block, p).senders;
            m.graphAccount !in senders ==> Group(env, ms + [m], id, block, p).senders == senders + [m.graphAccount]
  {
    GroupSnoc(env, ms, m);
  }
}
