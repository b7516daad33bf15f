/** Attestations: who vouches for a proof of indexing, with how much stake, and the canonical hash
    of that group of senders. */
module Attestations {
  import opened Core
  import opened StableSort

  type byte = n: int | 0 <= n < 256

  predicate HexDigit(c: char) {
    '0' <= c <= '9' || 'a' <= c <= 'f' || 'A' <= c <= 'F'
  }

  function Nibble(c: char): (v: int)
    ensures 0 <= v < 16
  {
    if '0' <= c <= '9' then c as int - '0' as int
    else if 'a' <= c <= 'f' then c as int - 'a' as int + 10
    else if 'A' <= c <= 'F' then c as int - 'A' as int + 10
    else 0
  }

  // hex::decode, section 8 of RFC 4648, either case
  function DecodeHex(s: string): seq<byte> {
    if |s| < 2 then [] else [(16 * Nibble(s[0]) + Nibble(s[1])) as byte] + DecodeHex(s[2..])
  }

  // The addresses the code can decode; on any other it panics.  The functions of this module are
  // total for convenience, and the operations that would panic require this predicate.
  predicate WellFormedAddress(a: string) {
    |a| >= 2 && HexPairs(a[2..])
  }

  predicate HexPairs(s: string) {
    s == [] || (|s| >= 2 && HexDigit(s[0]) && HexDigit(s[1]) && HexPairs(s[2..]))
  }

  function AddressBytes(a: string): seq<byte> {
    if |a| < 2 then [] else DecodeHex(a[2..])
  }

  // Vec<u8> comparison
  predicate BytesLe(a: seq<byte>, b: seq<byte>) {
    a == [] || (b != [] && (a[0] < b[0] || (a[0] == b[0] && BytesLe(a[1..], b[1..]))))
  }

  predicate AddressLe(a: string, b: string) {
    BytesLe(AddressBytes(a), AddressBytes(b))
  }

  lemma {:induction false} BytesTotal(a: seq<byte>, b: seq<byte>)
    ensures BytesLe(a, b) || BytesLe(b, a)
  {
    if a != [] && b != [] {
      BytesTotal(a[1..], b[1..]);
    }
  }

  lemma {:induction false} BytesTransitive(a: seq<byte>, b: seq<byte>, c: seq<byte>)
    requires BytesLe(a, b) && BytesLe(b, c)
    ensures BytesLe(a, c)
  {
    if a != [] && a[0] == b[0] == c[0] {
      BytesTransitive(a[1..], b[1..], c[1..]);
    }
  }

  lemma {:induction false} BytesAntisymmetric(a: seq<byte>, b: seq<byte>)
    requires BytesLe(a, b) && BytesLe(b, a)
    ensures a == b
  {
    if a != [] && b != [] {
      BytesAntisymmetric(a[1..], b[1..]);
      assert a == [a[0]] + a[1..] && b == [b[0]] + b[1..];
    }
  }

  lemma ByteOrder()
    ensures TotalPreorder(BytesLe) && Antisymmetric(BytesLe)
  {
    forall a, b
      ensures BytesLe(a, b) || BytesLe(b, a)
      ensures BytesLe(a, b) && BytesLe(b, a) ==> a == b
    {
      BytesTotal(a, b);
      if BytesLe(a, b) && BytesLe(b, a) {
        BytesAntisymmetric(a, b);
      }
    }
    forall a, b, c | BytesLe(a, b) && BytesLe(b, c)
      ensures BytesLe(a, c)
    {
      BytesTransitive(a, b, c);
    }
  }

  lemma AddressOrder()
    ensures TotalPreorder(AddressLe)
  {
    ByteOrder();
  }

  function ConcatBytes(addresses: seq<string>): seq<byte> {
    if addresses == [] then []
    else ConcatBytes(addresses[..|addresses| - 1]) + AddressBytes(addresses[|addresses| - 1])
  }

  function SortedAddresses(addresses: seq<string>): seq<string> {
    Sort(addresses, AddressLe)
  }

  // The hash function (SHA3-256, FIPS 202, then hex::encode) is a parameter.
  type Digest = seq<byte> -> string

  function GroupHash(sha3: Digest, senders: seq<string>): string {
    sha3(ConcatBytes(SortedAddresses(senders)))
  }

  // A list with x put before its element j, and something behind it
  ghost function With(before: seq<string>, x: string, j: nat, rest: seq<string>): seq<string>
    requires j <= |before|
  {
    before[..j] + [x] + before[j..] + rest
  }

  lemma WithEarlier(before: seq<string>, x: string, j: nat, rest: seq<string>)
    requires 0 < j <= |before|
    ensures var s := With(before, x, j, rest);
            && s[j] == x && s[j - 1] == before[j - 1]
            && With(before, x, j - 1, rest) == s[j - 1 := x][j := before[j - 1]]
  {
  }

  method SwapWithPrevious(addresses: array<string>, j: nat)
    requires 0 < j < addresses.Length
    modifies addresses
    ensures addresses[..] == old(addresses[..])[j - 1 := old(addresses[j])][j := old(addresses[j - 1])]
  {
    addresses[j - 1], addresses[j] := addresses[j], addresses[j - 1];
  }

  // Element i, behind a sorted part of the array, moves to its place in it.
  method InsertAddress(addresses: array<string>, i: nat)
    requires i < addresses.Length
    modifies addresses
    ensures addresses[..] == Insert(old(addresses[i]), old(addresses[..i]), AddressLe) + old(addresses[i + 1..])
  {
    ghost var x, before, rest := addresses[i], addresses[..i], addresses[i + 1..];
    assert before[..i] == before && before[i..] == [];
    var j := i;
    while j > 0 && !AddressLe(addresses[j - 1], addresses[j])
      invariant j <= i && addresses[..] == With(before, x, j, rest)
      invariant addresses[j] == x && (j > 0 ==> addresses[j - 1] == before[j - 1])
      invariant Insert(x, before, AddressLe) == Insert(x, before[..j], AddressLe) + before[j..]
    {
      InsertBefore(x, before, j, AddressLe);
      WithEarlier(before, x, j, rest);
      SwapWithPrevious(addresses, j);
      j := j - 1;
    }
    InsertBehind(x, before[..j], AddressLe);
    assert Insert(x, before, AddressLe) == before[..j] + [x] + before[j..];
  }

  method SortAddresses(addresses: array<string>)
    requires forall i :: 0 <= i < addresses.Length ==> WellFormedAddress(addresses[i])
    modifies addresses
    ensures addresses[..] == SortedAddresses(old(addresses[..]))
  {
    ghost var was := addresses[..];
    for i := 0 to addresses.Length
      invariant addresses[..] == SortedAddresses(was[..i]) + was[i..]
    {
      SortSnoc(was[..i], was[i], AddressLe);
      PrefixSnoc(was, i);
      assert addresses[..i] == SortedAddresses(was[..i]);
      assert addresses[i] == was[i] && addresses[i + 1..] == was[i + 1..];
      InsertAddress(addresses, i);
    }
    assert was == was[..addresses.Length] && was[addresses.Length..] == [];
  }

  method HashAddresses(sha3: Digest, addresses: array<string>) returns (hash: string)
    requires forall i :: 0 <= i < addresses.Length ==> WellFormedAddress(addresses[i])
    ensures hash == sha3(ConcatBytes(addresses[..]))
  {
    var bytes: seq<byte> := [];
    for i := 0 to addresses.Length
      invariant bytes == ConcatBytes(addresses[..i])
    {
      assert addresses[..i + 1][..i] == addresses[..i];
      bytes := bytes + AddressBytes(addresses[i]);
    }
    assert addresses[..addresses.Length] == addresses[..];
    hash := sha3(bytes);
  }

  predicate WellFormed(senders: seq<string>) {
    forall s :: s in senders ==> WellFormedAddress(s)
  }

  // A copy of the senders is sorted and hashed.
  method SenderGroupHash(sha3: Digest, senders: seq<string>) returns (hash: string)
    requires WellFormed(senders)
    ensures hash == GroupHash(sha3, senders)
  {
    var addresses := new string[|senders|](i requires 0 <= i < |senders| => senders[i]);
    assert addresses[..] == senders;
    SortAddresses(addresses);
    SortMembers(senders, AddressLe);
    PermutationMembers(addresses[..], senders);
    assert forall i :: 0 <= i < addresses.Length ==> addresses[i] in addresses[..];
    hash := HashAddresses(sha3, addresses);
  }

  // Sorting rearranges the decoded addresses and puts them in byte order.
  lemma SortedBytes(s: seq<string>)
    ensures var t := Map(AddressBytes, SortedAddresses(s));
            multiset(t) == multiset(Map(AddressBytes, s)) && Sorted(t, BytesLe)
  {
    AddressOrder();
    SortSorted(s, AddressLe);
    SortMembers(s, AddressLe);
    MapPermutation(AddressBytes, SortedAddresses(s), s);
  }

  lemma {:induction false} ConcatFromDecoded(s: seq<string>, t: seq<string>)
    requires Map(AddressBytes, s) == Map(AddressBytes, t)
    ensures ConcatBytes(s) == ConcatBytes(t)
  {
    assert |s| == |Map(AddressBytes, s)| == |Map(AddressBytes, t)| == |t|;
    if s != [] {
      var n := |s| - 1;
      assert Map(AddressBytes, s[..n]) == Map(AddressBytes, s)[..n] == Map(AddressBytes, t)[..n]
          == Map(AddressBytes, t[..n]);
      ConcatFromDecoded(s[..n], t[..n]);
      assert AddressBytes(s[n]) == Map(AddressBytes, s)[n] == AddressBytes(t[n]);
    }
  }

  /** The group hash depends only on which decoded addresses occur and how often: neither the order
      of the senders nor the case of their hex digits matters. */
  lemma GroupHashCanonical(sha3: Digest, s: seq<string>, t: seq<string>)
    requires multiset(Map(AddressBytes, s)) == multiset(Map(AddressBytes, t))
    ensures GroupHash(sha3, s) == GroupHash(sha3, t)
  {
    SortedBytes(s);
    SortedBytes(t);
    ByteOrder();
    SortedUnique(Map(AddressBytes, SortedAddresses(s)), Map(AddressBytes, SortedAddresses(t)), BytesLe);
    ConcatFromDecoded(SortedAddresses(s), SortedAddresses(t));
  }

  // The hash of a list of senders, as attestations are built with it.  Most laws hold for any function
  // in its place.
  type GroupHasher = seq<string> -> string

  function Hasher(sha3: Digest): GroupHasher {
    (senders: seq<string>) => GroupHash(sha3, senders)
  }

  datatype Attestation = Attestation(
    identifier: string,
    blockNumber: u64,
    ppoi: string,
    stakeWeight: u64,
    senders: seq<string>,
    senderGroupHash: string,
    timestamp: seq<u64>)

  datatype AttestationError = BuildError | UpdateError

  function New(hash: GroupHasher, identifier: string, blockNumber: u64, ppoi: string, stakeWeight: u64,
               senders: seq<string>, timestamp: seq<u64>): Attestation {
    Attestation(identifier, blockNumber, ppoi, stakeWeight, senders, hash(senders), timestamp)
  }

  // A copy of the senders is sorted and hashed; the senders themselves stay in their order.
  method NewAttestation(sha3: Digest, identifier: string, blockNumber: u64, ppoi: string, stakeWeight: u64,
                        senders: seq<string>, timestamp: seq<u64>) returns (a: Attestation)
    requires WellFormed(senders)
    ensures a == New(Hasher(sha3), identifier, blockNumber, ppoi, stakeWeight, senders, timestamp)
    ensures a.senders == senders && a.senderGroupHash == GroupHash(sha3, senders)
  {
    var senderGroupHash := SenderGroupHash(sha3, senders);
    a := Attestation(identifier, blockNumber, ppoi, stakeWeight, senders, senderGroupHash, timestamp);
  }

  function Update(hash: GroupHasher, base: Attestation, address: string, stake: u64, timestamp: u64)
    : (r: Result<Attestation, AttestationError>)
    ensures r.Err? <==> address in base.senders
    ensures r.Ok? ==>
              && r.value.identifier == base.identifier && r.value.blockNumber == base.blockNumber
              && r.value.ppoi == base.ppoi
              && r.value.senders == base.senders + [address]
              && r.value.timestamp == base.timestamp + [timestamp]
              && r.value.stakeWeight == WrappingAdd(base.stakeWeight, stake)
              && r.value.senderGroupHash == hash(r.value.senders)
  {
    if address in base.senders then Err(UpdateError)
    else Ok(New(hash, base.identifier, base.blockNumber, base.ppoi,
                WrappingAdd(base.stakeWeight, stake),
                base.senders + [address], base.timestamp + [timestamp]))
  }

  method UpdateAttestation(sha3: Digest, base: Attestation, address: string, stake: u64, timestamp: u64)
    returns (r: Result<Attestation, AttestationError>)
    requires address !in base.senders ==> WellFormed(base.senders) && WellFormedAddress(address)
    ensures r == Update(Hasher(sha3), base, address, stake, timestamp)
  {
    if address in base.senders {
      return Err(UpdateError);
    }
    var updated := NewAttestation(sha3, base.identifier, base.blockNumber, base.ppoi,
                                  WrappingAdd(base.stakeWeight, stake),
                                  base.senders + [address], base.timestamp + [timestamp]);
    r := Ok(updated);
  }

  datatype Contribution = Contribution(address: string, stake: u64, timestamp: u64)

  // A chain of updates; one that is refused leaves the attestation alone.
  function Updates(hash: GroupHasher, base: Attestation, more: seq<Contribution>): Attestation {
    if more == [] then base
    else
      var a := Updates(hash, base, more[..|more| - 1]);
      var c := more[|more| - 1];
      match Update(hash, a, c.address, c.stake, c.timestamp)
      case Ok(updated) => updated
      case Err(_) => a
  }

  function Addresses(cs: seq<Contribution>): seq<string> {
    if cs == [] then [] else Addresses(cs[..|cs| - 1]) + [cs[|cs| - 1].address]
  }

  lemma {:induction false} UpdatesSenders(hash: GroupHasher, base: Attestation, more: seq<Contribution>)
    requires Distinct(base.senders) && base.senderGroupHash == hash(base.senders)
    ensures var a := Updates(hash, base, more);
            && a.senderGroupHash == hash(a.senders)
            && Distinct(a.senders)
            && Elements(a.senders) == Elements(base.senders) + Elements(Addresses(more))
  {
    if more != [] {
      var init, c := more[..|more| - 1], more[|more| - 1];
      UpdatesSenders(hash, base, init);
      var a := Updates(hash, base, init);
      DistinctSnoc(a.senders, c.address);
      ElementsSnoc(a.senders, c.address);
      ElementsSnoc(Addresses(init), c.address);
    }
  }

  /** Two attestations, each built by `New` and any chain of updates, carry the same hash as soon as
      the same addresses took part: order, repeats, stakes and timestamps make no difference. */
  lemma ChainHashCanonical(sha3: Digest, a: Attestation, more: seq<Contribution>,
                           b: Attestation, others: seq<Contribution>)
    requires a.senderGroupHash == GroupHash(sha3, a.senders) && Distinct(a.senders)
    requires b.senderGroupHash == GroupHash(sha3, b.senders) && Distinct(b.senders)
    requires Elements(a.senders + Addresses(more)) == Elements(b.senders + Addresses(others))
    ensures Updates(Hasher(sha3), a, more).senderGroupHash == Updates(Hasher(sha3), b, others).senderGroupHash
  {
    UpdatesSenders(Hasher(sha3), a, more);
    UpdatesSenders(Hasher(sha3), b, others);
    var s, t := Updates(Hasher(sha3), a, more).senders, Updates(Hasher(sha3), b, others).senders;
    assert Elements(s) == Elements(a.senders + Addresses(more));
    assert Elements(t) == Elements(b.senders + Addresses(others));
    SameSendersSameHash(sha3, s, t);
  }

  lemma SameSendersSameHash(sha3: Digest, s: seq<string>, t: seq<string>)
    requires Distinct(s) && Distinct(t) && Elements(s) == Elements(t)
    ensures Hasher(sha3)(s) == Hasher(sha3)(t)
  {
    DistinctMultiset(s);
    DistinctMultiset(t);
    MapPermutation(AddressBytes, s, t);
    GroupHashCanonical(sha3, s, t);
  }
}
