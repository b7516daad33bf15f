/** Folding signed messages into stake-weighted attestations: the loop over a nested table, and the
    group-by it computes. */
module Aggregation {
  import opened Core
  import opened Attestations

  datatype PublicPoiMessage = PublicPoiMessage(
    identifier: string,
    content: string,
    nonce: u64,
    network: string,
    blockNumber: u64,
    blockHash: string,
    graphAccount: string)

  // A GraphcastMessage around a public PoI payload
  datatype PoiMessage = PoiMessage(
    identifier: string,
    nonce: u64,
    graphAccount: string,
    payload: PublicPoiMessage,
    signature: string)
  {
    // The duplicated fields agree; checked before a message is stored.
    predicate ValidOuter() {
      && payload.nonce == nonce
      && payload.graphAccount == graphAccount
      && payload.identifier == identifier
    }

    predicate AtBlock(id: string, block: u64) {
      identifier == id && payload.blockNumber == block
    }

    predicate Attests(id: string, block: u64, ppoi: string) {
      AtBlock(id, block) && payload.content == ppoi
    }
  }

  // What the code asks of the outside world: an account's stake (the query may fail) and SHA3-256; with it
  // goes the hash of a list of senders that the code computes from it.
  datatype World = World(stake: string -> Option<u64>, sha3: Digest, hash: GroupHasher)
  {
    ghost predicate Faithful() {
      forall senders {:trigger GroupHash(sha3, senders)} :: hash(senders) == GroupHash(sha3, senders)
    }
  }

  type Env = w: World | w.Faithful() ghost witness World(_ => None, _ => "", Hasher(_ => ""))

  // There is one for all stakes and every hash function.
  lemma EnvExists(stake: string -> Option<u64>, sha3: Digest) returns (env: Env)
    ensures env.stake == stake && env.sha3 == sha3
  {
    env := World(stake, sha3, Hasher(sha3));
  }

  type RemoteAttestations = map<string, map<u64, seq<Attestation>>>

  function Lookup(remote: RemoteAttestations, id: string, block: u64): seq<Attestation> {
    if id in remote && block in remote[id] then remote[id][block] else []
  }

  // ---------- the group-by ----------

  // An account's stake; none is counted for one whose stake is not known.
  function StakeOf(env: Env, account: string): (stake: u64)
    ensures env.stake(account) == Some(stake) || (env.stake(account).None? && stake == 0)
  {
    match env.stake(account)
    case Some(s) => s
    case None => 0
  }

  function Accounts(cs: seq<PoiMessage>): (r: seq<string>)
    ensures |r| == |cs| && forall k :: 0 <= k < |cs| ==> r[k] == cs[k].graphAccount
  {
    if cs == [] then [] else Accounts(cs[..|cs| - 1]) + [cs[|cs| - 1].graphAccount]
  }

  function Nonces(cs: seq<PoiMessage>): (r: seq<u64>)
    ensures |r| == |cs| && forall k :: 0 <= k < |cs| ==> r[k] == cs[k].nonce
  {
    if cs == [] then [] else Nonces(cs[..|cs| - 1]) + [cs[|cs| - 1].nonce]
  }

  function StakeSum(env: Env, cs: seq<PoiMessage>): nat {
    if cs == [] then 0
    else StakeSum(env, cs[..|cs| - 1]) + StakeOf(env, cs[|cs| - 1].payload.graphAccount)
  }

  // The messages that count towards a PPOI: the first one of each account.
  function Contributors(ms: seq<PoiMessage>, id: string, block: u64, ppoi: string): seq<PoiMessage> {
    if ms == [] then []
    else
      var before, m := Contributors(ms[..|ms| - 1], id, block, ppoi), ms[|ms| - 1];
      if m.Attests(id, block, ppoi) && m.graphAccount !in Accounts(before) then before + [m] else before
  }

  // The PPOIs attested at a block, in order of first appearance.
  function Ppois(ms: seq<PoiMessage>, id: string, block: u64): seq<string> {
    if ms == [] then []
    else
      var before, m := Ppois(ms[..|ms| - 1], id, block), ms[|ms| - 1];
      if m.AtBlock(id, block) && m.payload.content !in before then before + [m.payload.content] else before
  }

  // The attestation a list of contributing messages adds up to.
  function Total(env: Env, id: string, block: u64, ppoi: string, cs: seq<PoiMessage>): Attestation {
    New(env.hash, id, block, ppoi, StakeSum(env, cs) % U64_LIMIT, Accounts(cs), Nonces(cs))
  }

  function Group(env: Env, ms: seq<PoiMessage>, id: string, block: u64, ppoi: string): Attestation {
    Total(env, id, block, ppoi, Contributors(ms, id, block, ppoi))
  }

  function Groups(env: Env, ms: seq<PoiMessage>, id: string, block: u64): (r: seq<Attestation>)
    ensures |r| == |Ppois(ms, id, block)|
    ensures forall k :: 0 <= k < |r| ==> r[k] == Group(env, ms, id, block, Ppois(ms, id, block)[k])
  {
    var ps := Ppois(ms, id, block);
    seq(|ps|, k requires 0 <= k < |ps| => Group(env, ms, id, block, ps[k]))
  }

  // ---------- what one more message does to the group-by ----------

  lemma ContributorsSnoc(ms: seq<PoiMessage>, m: PoiMessage, id: string, block: u64, ppoi: string)
    ensures var before := Contributors(ms, id, block, ppoi);
            Contributors(ms + [m], id, block, ppoi) ==
            if m.Attests(id, block, ppoi) && m.graphAccount !in Accounts(before) then before + [m] else before
  {
    assert (ms + [m])[..|ms|] == ms;
  }

  lemma PpoisSnoc(ms: seq<PoiMessage>, m: PoiMessage, id: string, block: u64)
    ensures var before := Ppois(ms, id, block);
            Ppois(ms + [m], id, block) ==
            if m.AtBlock(id, block) && m.payload.content !in before then before + [m.payload.content] else before
  {
    assert (ms + [m])[..|ms|] == ms;
  }

  lemma {:induction false} PpoisDistinct(ms: seq<PoiMessage>, id: string, block: u64)
    ensures Distinct(Ppois(ms, id, block))
  {
    if ms != [] {
      PpoisDistinct(ms[..|ms| - 1], id, block);
      DistinctSnoc(Ppois(ms[..|ms| - 1], id, block), ms[|ms| - 1].payload.content);
    }
  }

  lemma {:induction false} PpoisAttested(ms: seq<PoiMessage>, id: string, block: u64, p: string)
    ensures p in Ppois(ms, id, block) <==> exists m :: m in ms && m.Attests(id, block, p)
  {
    if ms != [] {
      var init, m := ms[..|ms| - 1], ms[|ms| - 1];
      PpoisAttested(init, id, block, p);
      assert ms == init + [m];
      if m.Attests(id, block, p) {
        assert m in ms;
      }
    }
  }

  lemma {:induction false} NoContributors(ms: seq<PoiMessage>, id: string, block: u64, ppoi: string)
    ensures ppoi in Ppois(ms, id, block) <==> Contributors(ms, id, block, ppoi) != []
  {
    if ms != [] {
      NoContributors(ms[..|ms| - 1], id, block, ppoi);
    }
  }

  lemma {:induction false} ContributorsFrom(ms: seq<PoiMessage>, id: string, block: u64, ppoi: string)
    ensures forall m :: m in Contributors(ms, id, block, ppoi) ==> m in ms && m.Attests(id, block, ppoi)
  {
    if ms != [] {
      ContributorsFrom(ms[..|ms| - 1], id, block, ppoi);
    }
  }

  // The position of the first attestation of a PPOI; the length of the list if there is none.
  function FindPpoi(attestations: seq<Attestation>, ppoi: string): (k: nat)
    ensures k <= |attestations|
  {
    if attestations == [] || attestations[0].ppoi == ppoi then 0 else 1 + FindPpoi(attestations[1..], ppoi)
  }

  lemma {:induction false} FindPpoiExact(attestations: seq<Attestation>, ppoi: string)
    ensures var k := FindPpoi(attestations, ppoi);
            && (k < |attestations| ==> attestations[k].ppoi == ppoi)
            && (forall j :: 0 <= j < k ==> attestations[j].ppoi != ppoi)
  {
    if attestations != [] && attestations[0].ppoi != ppoi {
      FindPpoiExact(attestations[1..], ppoi);
      var k := FindPpoi(attestations[1..], ppoi);
      forall j | 0 <= j < 1 + k
        ensures attestations[j].ppoi != ppoi
      {
        if j > 0 {
          assert attestations[j] == attestations[1..][j - 1];
        }
      }
    }
  }

  // What a message does to the attestation it belongs to: its sender joins, unless already there.
  function Join(env: Env, a: Attestation, m: PoiMessage): Attestation {
    match Update(env.hash, a, m.graphAccount, StakeOf(env, m.payload.graphAccount), m.nonce)
    case Ok(updated) => updated
    case Err(_) => a
  }

  function Opened(env: Env, m: PoiMessage): Attestation {
    New(env.hash, m.identifier, m.payload.blockNumber, m.payload.content,
        StakeOf(env, m.payload.graphAccount), [m.graphAccount], [m.nonce])
  }

  // ... and to the list of its deployment and block.
  function Absorb(env: Env, attestations: seq<Attestation>, m: PoiMessage): seq<Attestation> {
    var k := FindPpoi(attestations, m.payload.content);
    if k < |attestations| then attestations[k := Join(env, attestations[k], m)]
    else attestations + [Opened(env, m)]
  }

  lemma AccountsSnoc(cs: seq<PoiMessage>, m: PoiMessage)
    ensures Accounts(cs + [m]) == Accounts(cs) + [m.graphAccount]
  {
  }

  lemma PartsSnoc(env: Env, cs: seq<PoiMessage>, m: PoiMessage)
    ensures Accounts(cs + [m]) == Accounts(cs) + [m.graphAccount]
    ensures Nonces(cs + [m]) == Nonces(cs) + [m.nonce]
    ensures StakeSum(env, cs + [m]) == StakeSum(env, cs) + StakeOf(env, m.payload.graphAccount)
  {
    assert (cs + [m])[..|cs|] == cs;
  }

  // A sender joining an attestation whose weight is a sum, wrapped once at the end
  lemma JoinTotal(env: Env, id: string, block: u64, ppoi: string, total: nat, senders: seq<string>, nonces: seq<u64>,
                  m: PoiMessage)
    requires m.graphAccount !in senders
    ensures Join(env, New(env.hash, id, block, ppoi, total % U64_LIMIT, senders, nonces), m) ==
            New(env.hash, id, block, ppoi, (total + StakeOf(env, m.payload.graphAccount)) % U64_LIMIT,
                senders + [m.graphAccount], nonces + [m.nonce])
  {
    WrapOnce(total, StakeOf(env, m.payload.graphAccount));
  }

  lemma TotalMore(env: Env, id: string, block: u64, ppoi: string, cs: seq<PoiMessage>, more: seq<PoiMessage>,
                  m: PoiMessage)
    requires m.graphAccount !in Accounts(cs)
    requires Accounts(more) == Accounts(cs) + [m.graphAccount] && Nonces(more) == Nonces(cs) + [m.nonce]
    requires StakeSum(env, more) == StakeSum(env, cs) + StakeOf(env, m.payload.graphAccount)
    ensures Total(env, id, block, ppoi, more) == Join(env, Total(env, id, block, ppoi, cs), m)
  {
    JoinTotal(env, id, block, ppoi, StakeSum(env, cs), Accounts(cs), Nonces(cs), m);
  }

  lemma TotalSnoc(env: Env, id: string, block: u64, ppoi: string, cs: seq<PoiMessage>, m: PoiMessage)
    requires m.graphAccount !in Accounts(cs)
    ensures Total(env, id, block, ppoi, cs + [m]) == Join(env, Total(env, id, block, ppoi, cs), m)
  {
    PartsSnoc(env, cs, m);
    TotalMore(env, id, block, ppoi, cs, cs + [m], m);
  }

  lemma TotalOne(env: Env, m: PoiMessage)
    ensures Total(env, m.identifier, m.payload.blockNumber, m.payload.content, [m]) == Opened(env, m)
  {
    assert [m][..0] == [];
    assert Accounts([m]) == [m.graphAccount] && Nonces([m]) == [m.nonce];
    assert StakeSum(env, [m]) == StakeOf(env, m.payload.graphAccount);
  }

  lemma GroupSnoc(env: Env, ms: seq<PoiMessage>, m: PoiMessage)
    ensures var id, block, p := m.identifier, m.payload.blockNumber, m.payload.content;
            Group(env, ms + [m], id, block, p) == Join(env, Group(env, ms, id, block, p), m)
  {
    var id, block, p := m.identifier, m.payload.blockNumber, m.payload.content;
    ContributorsSnoc(ms, m, id, block, p);
    var cs := Contributors(ms, id, block, p);
    if m.graphAccount !in Accounts(cs) {
      TotalSnoc(env, id, block, p, cs, m);
    }
  }

  lemma OtherGroups(env: Env, ms: seq<PoiMessage>, m: PoiMessage, id: string, block: u64, ppoi: string)
    requires !m.Attests(id, block, ppoi)
    ensures Group(env, ms + [m], id, block, ppoi) == Group(env, ms, id, block, ppoi)
  {
    ContributorsSnoc(ms, m, id, block, ppoi);
  }

  // A message leaves the list of every other key alone ...
  lemma GroupsElsewhere(env: Env, ms: seq<PoiMessage>, m: PoiMessage, id: string, block: u64)
    requires !m.AtBlock(id, block)
    ensures Groups(env, ms + [m], id, block) == Groups(env, ms, id, block)
  {
    PpoisSnoc(ms, m, id, block);
    forall p
      ensures Group(env, ms + [m], id, block, p) == Group(env, ms, id, block, p)
    {
      OtherGroups(env, ms, m, id, block, p);
    }
  }

  lemma GroupOpened(env: Env, ms: seq<PoiMessage>, m: PoiMessage)
    requires m.payload.content !in Ppois(ms, m.identifier, m.payload.blockNumber)
    ensures Group(env, ms + [m], m.identifier, m.payload.blockNumber, m.payload.content) == Opened(env, m)
  {
    NoContributors(ms, m.identifier, m.payload.blockNumber, m.payload.content);
    ContributorsSnoc(ms, m, m.identifier, m.payload.blockNumber, m.payload.content);
    TotalOne(env, m);
  }

  // ... and changes its own as the loop body does: by a new group at the end ...
  lemma GroupsOpen(env: Env, ms: seq<PoiMessage>, m: PoiMessage)
    requires m.payload.content !in Ppois(ms, m.identifier, m.payload.blockNumber)
    ensures var id, block := m.identifier, m.payload.blockNumber;
            Groups(env, ms + [m], id, block) == Groups(env, ms, id, block) + [Opened(env, m)]
  {
    var id, block, p := m.identifier, m.payload.blockNumber, m.payload.content;
    var was, ps := Groups(env, ms, id, block), Ppois(ms, id, block);
    PpoisSnoc(ms, m, id, block);
    var now := Groups(env, ms + [m], id, block);
    forall k | 0 <= k < |ps|
      ensures now[k] == was[k]
    {
      OtherGroups(env, ms, m, id, block, ps[k]);
    }
    GroupOpened(env, ms, m);
    EqualsSnoc(now, was, Opened(env, m));
  }

  // ... or by a sender joining the group that is there.
  lemma GroupsJoin(env: Env, ms: seq<PoiMessage>, m: PoiMessage, k: nat)
    requires var ps := Ppois(ms, m.identifier, m.payload.blockNumber); k < |ps| && ps[k] == m.payload.content
    ensures var was := Groups(env, ms, m.identifier, m.payload.blockNumber);
            Groups(env, ms + [m], m.identifier, m.payload.blockNumber) == was[k := Join(env, was[k], m)]
  {
    var id, block := m.identifier, m.payload.blockNumber;
    var was, ps := Groups(env, ms, id, block), Ppois(ms, id, block);
    PpoisSnoc(ms, m, id, block);
    PpoisDistinct(ms, id, block);
    var now := Groups(env, ms + [m], id, block);
    forall j | 0 <= j < |ps| && j != k
      ensures now[j] == was[j]
    {
      OtherGroups(env, ms, m, id, block, ps[j]);
    }
    GroupSnoc(env, ms, m);
    EqualsUpdated(now, was, k, Join(env, was[k], m));
  }

  lemma GroupsHere(env: Env, ms: seq<PoiMessage>, m: PoiMessage)
    ensures var id, block := m.identifier, m.payload.blockNumber;
            Groups(env, ms + [m], id, block) == Absorb(env, Groups(env, ms, id, block), m)
  {
    var id, block, p := m.identifier, m.payload.blockNumber, m.payload.content;
    var was, ps := Groups(env, ms, id, block), Ppois(ms, id, block);
    assert forall k :: 0 <= k < |ps| ==> was[k].ppoi == ps[k];
    var k := FindPpoi(was, p);
    FindPpoiExact(was, p);
    if k < |was| {
      GroupsJoin(env, ms, m, k);
    } else {
      assert p !in ps by {
        assert forall j :: 0 <= j < |ps| ==> ps[j] != p;
      }
      GroupsOpen(env, ms, m);
    }
  }

  // ---------- the loop ----------

  // The nested table with one list stored into it.
  function Put(remote: RemoteAttestations, id: string, block: u64, attestations: seq<Attestation>)
    : RemoteAttestations
  {
    var blocks := if id in remote then remote[id] else map[];
    remote[id := blocks[block := attestations]]
  }

  // No entry of the table is empty.
  ghost predicate Pruned(remote: RemoteAttestations) {
    forall id :: id in remote ==> remote[id] != map[] && forall block :: block in remote[id] ==> remote[id][block] != []
  }

  // A table holds the group-by of a list: the groups of every key, and no empty entry.
  ghost predicate Represents(env: Env, ms: seq<PoiMessage>, remote: RemoteAttestations) {
    && (forall id, block: u64 :: Lookup(remote, id, block) == Groups(env, ms, id, block))
    && Pruned(remote)
  }

  predicate StakeKnown(env: Env, m: PoiMessage) {
    env.stake(m.payload.graphAccount).Some?
  }

  predicate StakesKnown(env: Env, ms: seq<PoiMessage>) {
    forall m :: m in ms ==> StakeKnown(env, m)
  }

  lemma LookupStored(remote: RemoteAttestations, id: string, block: u64, attestations: seq<Attestation>)
    ensures forall i, b: u64 :: Lookup(Put(remote, id, block, attestations), i, b) ==
              if i == id && b == block then attestations else Lookup(remote, i, b)
    ensures Pruned(remote) && attestations != [] ==> Pruned(Put(remote, id, block, attestations))
  {
    var stored := Put(remote, id, block, attestations);
    assert block in stored[id];
  }

  // The table after each message in turn.
  function Step(env: Env, remote: RemoteAttestations, m: PoiMessage): RemoteAttestations {
    var id, block := m.identifier, m.payload.blockNumber;
    Put(remote, id, block, Absorb(env, Lookup(remote, id, block), m))
  }

  function Fold(env: Env, ms: seq<PoiMessage>): RemoteAttestations {
    if ms == [] then map[] else Step(env, Fold(env, ms[..|ms| - 1]), ms[|ms| - 1])
  }

  lemma StepElsewhere(env: Env, ms: seq<PoiMessage>, m: PoiMessage, remote: RemoteAttestations, id: string, block: u64)
    requires Lookup(remote, id, block) == Groups(env, ms, id, block) && !m.AtBlock(id, block)
    ensures Lookup(Step(env, remote, m), id, block) == Groups(env, ms + [m], id, block)
  {
    GroupsElsewhere(env, ms, m, id, block);
    LookupStored(remote, m.identifier, m.payload.blockNumber,
                 Absorb(env, Lookup(remote, m.identifier, m.payload.blockNumber), m));
  }

  lemma StepHere(env: Env, ms: seq<PoiMessage>, m: PoiMessage, remote: RemoteAttestations)
    requires Represents(env, ms, remote)
    ensures var id, block := m.identifier, m.payload.blockNumber;
            Lookup(Step(env, remote, m), id, block) == Groups(env, ms + [m], id, block)
    ensures Pruned(Step(env, remote, m))
  {
    var id, block := m.identifier, m.payload.blockNumber;
    GroupsHere(env, ms, m);
    LookupStored(remote, id, block, Absorb(env, Lookup(remote, id, block), m));
  }

  lemma RepresentsSnoc(env: Env, ms: seq<PoiMessage>, m: PoiMessage, remote: RemoteAttestations)
    requires Represents(env, ms, remote)
    ensures Represents(env, ms + [m], Step(env, remote, m))
  {
    StepHere(env, ms, m, remote);
    forall i, b: u64 | !m.AtBlock(i, b)
      ensures Lookup(Step(env, remote, m), i, b) == Groups(env, ms + [m], i, b)
    {
      StepElsewhere(env, ms, m, remote, i, b);
    }
  }

  lemma FoldSnoc(env: Env, ms: seq<PoiMessage>, n: nat)
    requires n < |ms|
    ensures Fold(env, ms[..n + 1]) == Step(env, Fold(env, ms[..n]), ms[n])
    ensures StakesKnown(env, ms[..n + 1]) <==> StakesKnown(env, ms[..n]) && StakeKnown(env, ms[n])
  {
    PrefixSnoc(ms, n);
    assert ms[..n + 1][..n] == ms[..n];
  }

  lemma {:induction false} PrefixRepresents(env: Env, ms: seq<PoiMessage>, n: nat)
    requires n <= |ms|
    ensures Represents(env, ms[..n], Fold(env, ms[..n]))
    decreases n
  {
    if n > 0 {
      PrefixRepresents(env, ms, n - 1);
      RepresentsSnoc(env, ms[..n - 1], ms[n - 1], Fold(env, ms[..n - 1]));
      FoldSnoc(env, ms, n - 1);
      PrefixSnoc(ms, n - 1);
    }
  }

  lemma FoldRepresents(env: Env, ms: seq<PoiMessage>)
    ensures Represents(env, ms, Fold(env, ms))
  {
    PrefixRepresents(env, ms, |ms|);
    assert ms[..|ms|] == ms;
  }

  // Everything the loop body does to the list of the message's deployment and block.
  method MergeMessage(env: Env, list: seq<Attestation>, msg: PoiMessage) returns (attestations: seq<Attestation>)
    requires StakeKnown(env, msg)
    requires WellFormedAddress(msg.graphAccount) && forall a :: a in list ==> WellFormed(a.senders)
    ensures attestations == Absorb(env, list, msg) != []
  {
    attestations := list;
    var senderStake := env.stake(msg.payload.graphAccount).value;
    var k := FindPpoi(attestations, msg.payload.content);
    if k < |attestations| {
      var updated := UpdateAttestation(env.sha3, attestations[k], msg.graphAccount, senderStake, msg.nonce);
      if updated.Ok? {
        attestations := attestations[k := updated.value];
      }
    } else {
      var added := NewAttestation(env.sha3, msg.identifier, msg.payload.blockNumber, msg.payload.content,
                                  senderStake, [msg.graphAccount], [msg.nonce]);
      attestations := attestations + [added];
    }
  }

  // ---------- the weights, in terms of the stakes looked up ----------

  // The weight is the sum of the stakes looked up for the senders, one each, modulo 2^64.
  ghost predicate WeighsStakes(env: Env, a: Attestation) {
    exists stakes: seq<nat> ::
      && |stakes| == |a.senders|
      && (forall k :: 0 <= k < |stakes| ==> env.stake(a.senders[k]).Some? && env.stake(a.senders[k]).value == stakes[k])
      && a.stakeWeight == Sum(stakes) % U64_LIMIT
  }

  predicate ValidKnown(env: Env, ms: seq<PoiMessage>) {
    forall m :: m in ms ==> m.ValidOuter() && env.stake(m.graphAccount).Some?
  }

  function Stakes(env: Env, cs: seq<PoiMessage>): seq<nat> {
    Map((m: PoiMessage) => StakeOf(env, m.graphAccount) as nat, cs)
  }

  lemma {:induction false} StakesSum(env: Env, cs: seq<PoiMessage>)
    requires ValidKnown(env, cs)
    ensures StakeSum(env, cs) == Sum(Stakes(env, cs))
  {
    if cs == [] {
      assert Stakes(env, cs) == [];
    } else {
      var init, m := cs[..|cs| - 1], cs[|cs| - 1];
      assert m in cs && m.ValidOuter();
      StakesSum(env, init);
      assert Stakes(env, cs) == Stakes(env, init) + [StakeOf(env, m.graphAccount) as nat];
      SumSnoc(Stakes(env, init), StakeOf(env, m.graphAccount));
    }
  }

  lemma GroupWeighsStakes(env: Env, ms: seq<PoiMessage>, id: string, block: u64, ppoi: string)
    requires ValidKnown(env, ms)
    ensures WeighsStakes(env, Group(env, ms, id, block, ppoi))
  {
    var cs := Contributors(ms, id, block, ppoi);
    ContributorsFrom(ms, id, block, ppoi);
    StakesSum(env, cs);
    var a, stakes := Group(env, ms, id, block, ppoi), Stakes(env, cs);
    forall k | 0 <= k < |stakes|
      ensures env.stake(a.senders[k]).Some? && env.stake(a.senders[k]).value == stakes[k]
    {
      assert cs[k] in cs;
    }
  }

  // Every attestation of the table has the stakes of its senders for its weight.
  ghost predicate TableWeighsStakes(env: Env, remote: RemoteAttestations) {
    forall id, block: u64, a :: a in Lookup(remote, id, block) ==> WeighsStakes(env, a)
  }

  lemma FoldWeighsStakes(env: Env, ms: seq<PoiMessage>)
    requires ValidKnown(env, ms)
    ensures TableWeighsStakes(env, Fold(env, ms))
  {
    FoldRepresents(env, ms);
    forall id, block: u64, a | a in Lookup(Fold(env, ms), id, block)
      ensures WeighsStakes(env, a)
    {
      var list := Groups(env, ms, id, block);
      var k :| 0 <= k < |list| && list[k] == a;
      GroupWeighsStakes(env, ms, id, block, Ppois(ms, id, block)[k]);
    }
  }

  predicate WellFormedSenders(ms: seq<PoiMessage>) {
    forall m :: m in ms ==> WellFormedAddress(m.graphAccount)
  }

  lemma GroupWellFormed(env: Env, ms: seq<PoiMessage>, id: string, block: u64, ppoi: string)
    requires WellFormedSenders(ms)
    ensures WellFormed(Group(env, ms, id, block, ppoi).senders)
  {
    var cs := Contributors(ms, id, block, ppoi);
    ContributorsFrom(ms, id, block, ppoi);
    assert forall j :: 0 <= j < |cs| ==> cs[j] in cs;
  }

  // The table lists no sender but those of the messages, so none that cannot be decoded.
  lemma ListedWellFormed(env: Env, ms: seq<PoiMessage>, id: string, block: u64)
    requires WellFormedSenders(ms)
    ensures forall a :: a in Lookup(Fold(env, ms), id, block) ==> WellFormed(a.senders)
  {
    FoldRepresents(env, ms);
    var list := Groups(env, ms, id, block);
    forall k | 0 <= k < |list|
      ensures WellFormed(list[k].senders)
    {
      GroupWellFormed(env, ms, id, block, Ppois(ms, id, block)[k]);
    }
  }

  // What is known of the weights once all stakes have been found
  ghost predicate Weighed(env: Env, ms: seq<PoiMessage>, remote: RemoteAttestations) {
    (forall m :: m in ms ==> m.ValidOuter()) ==> TableWeighsStakes(env, remote)
  }

  lemma FoldWeighed(env: Env, ms: seq<PoiMessage>)
    requires StakesKnown(env, ms)
    ensures Weighed(env, ms, Fold(env, ms))
  {
    if forall m :: m in ms ==> m.ValidOuter() {
      forall m | m in ms
        ensures env.stake(m.graphAccount).Some?
      {
        assert StakeKnown(env, m);
      }
      FoldWeighsStakes(env, ms);
    }
  }

  /** The in-place fold computes the group-by.  It fails exactly when some sender's stake cannot be
      looked up. */
  method ProcessPpoiMessage(env: Env, messages: seq<PoiMessage>)
    returns (r: Result<RemoteAttestations, AttestationError>)
    requires WellFormedSenders(messages)
    ensures r.Ok? <==> forall m :: m in messages ==> env.stake(m.payload.graphAccount).Some?
    ensures r.Ok? ==> r.value == Fold(env, messages)
    ensures r.Ok? ==> Weighed(env, messages, r.value)
    ensures r.Err? ==> r.error == BuildError
  {
    var remote: RemoteAttestations := map[];
    if |messages| == 0 {
      FoldWeighed(env, messages);
      return Ok(remote);
    }
    for i := 0 to |messages|
      invariant remote == Fold(env, messages[..i])
      invariant StakesKnown(env, messages[..i])
    {
      FoldSnoc(env, messages, i);
      var msg := messages[i];
      if !StakeKnown(env, msg) {
        assert msg in messages;
        return Err(BuildError);
      }
      var id, block := msg.identifier, msg.payload.blockNumber;
      ListedWellFormed(env, messages[..i], id, block);
      var attestations := MergeMessage(env, Lookup(remote, id, block), msg);
      remote := Put(remote, id, block, attestations);
    }
    assert messages[..|messages|] == messages;
    FoldWeighed(env, messages);
    // The entry of the first message, which the code now asks for once more, is already there.
    r := Ok(remote);
  }
}
