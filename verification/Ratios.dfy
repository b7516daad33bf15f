/** The ratios shown to an operator: how much stake, and how many senders, stand behind each PPOI, the
    local radio's own marked with a star. */
module Ratios {
  import opened Core
  import opened DecimalText
  import opened StableSort
  import opened Attestations
  import opened Comparison

  datatype IndexerInfo = IndexerInfo(address: string, stake: u64)

  // ---------- bringing the local radio in ----------

  // A remote attestation of the local PPOI gains the local radio as a sender; it is left out if the local
  // radio is among its senders already.
  function MergeOne(hash: GroupHasher, a: Attestation, ppoi: string, info: IndexerInfo, now: u64): seq<Attestation> {
    if a.ppoi != ppoi then [a]
    else match Update(hash, a, info.address, info.stake, now)
      case Ok(updated) => [updated]
      case Err(_) => []
  }

  function Merged(hash: GroupHasher, list: seq<Attestation>, ppoi: string, info: IndexerInfo, now: u64)
    : seq<Attestation>
  {
    if list == [] then []
    else Merged(hash, list[..|list| - 1], ppoi, info, now) + MergeOne(hash, list[|list| - 1], ppoi, info, now)
  }

  predicate Matched(list: seq<Attestation>, ppoi: string) {
    exists a :: a in list && a.ppoi == ppoi
  }

  function Aggregated(hash: GroupHasher, local: Attestation, list: seq<Attestation>, info: IndexerInfo, now: u64)
    : seq<Attestation>
  {
    Merged(hash, list, local.ppoi, info, now) + if Matched(list, local.ppoi) then [] else [local]
  }

  // If the address is added to the attestation, the addresses that then get hashed can be decoded.
  predicate Hashable(a: Attestation, ppoi: string, address: string) {
    a.ppoi == ppoi && address !in a.senders ==> WellFormed(a.senders) && WellFormedAddress(address)
  }

  method AggregateAttestation(sha3: Digest, r: ComparisonResult, info: IndexerInfo, now: u64)
    returns (aggregated: seq<Attestation>, localPpoi: Option<string>)
    requires match r.localAttestation
             case None => true
             case Some(local) =>
               forall i :: 0 <= i < |r.attestations| ==> Hashable(r.attestations[i], local.ppoi, info.address)
    ensures match r.localAttestation
            case None => aggregated == r.attestations && localPpoi == None
            case Some(local) => aggregated == Aggregated(Hasher(sha3), local, r.attestations, info, now)
                                && localPpoi == Some(local.ppoi)
  {
    if r.localAttestation.None? {
      return r.attestations, None;
    }
    var local := r.localAttestation.value;
    localPpoi := Some(local.ppoi);
    aggregated := [];
    var matched := false;
    for i := 0 to |r.attestations|
      invariant aggregated == Merged(Hasher(sha3), r.attestations[..i], local.ppoi, info, now)
      invariant matched <==> Matched(r.attestations[..i], local.ppoi)
    {
      var a := r.attestations[i];
      assert Hashable(a, local.ppoi, info.address);
      PrefixSnoc(r.attestations, i);
      MergedSnoc(Hasher(sha3), r.attestations[..i], a, local.ppoi, info, now);
      if a.ppoi == local.ppoi {
        var updated := UpdateAttestation(sha3, a, info.address, info.stake, now);
        if updated.Ok? {
          aggregated := aggregated + [updated.value];
        }
        matched := true;
      } else {
        aggregated := aggregated + [a];
      }
    }
    assert r.attestations[..|r.attestations|] == r.attestations;
    if !matched {
      aggregated := aggregated + [local];
    }
  }

  lemma MergedSnoc(hash: GroupHasher, list: seq<Attestation>, a: Attestation, ppoi: string, info: IndexerInfo, now: u64)
    ensures Merged(hash, list + [a], ppoi, info, now) ==
            Merged(hash, list, ppoi, info, now) + MergeOne(hash, a, ppoi, info, now)
    ensures Matched(list + [a], ppoi) <==> Matched(list, ppoi) || a.ppoi == ppoi
  {
    assert (list + [a])[..|list|] == list;
    assert forall x :: x in list + [a] <==> x in list || x == a;
  }

  // ---------- the entries, and how they are printed ----------

  datatype Entry = Entry(value: nat, starred: bool)

  predicate IsLocal(a: Attestation, localPpoi: Option<string>) {
    localPpoi == Some(a.ppoi)
  }

  function StakeEntry(a: Attestation, localPpoi: Option<string>, localStake: u64): Entry {
    if IsLocal(a, localPpoi) then Entry(WrappingAdd(a.stakeWeight, localStake), true) else Entry(a.stakeWeight, false)
  }

  function SenderEntry(a: Attestation, localPpoi: Option<string>): Entry {
    if IsLocal(a, localPpoi) then Entry(|a.senders| + 1, true) else Entry(|a.senders|, false)
  }

  function NoLocal(localPpoi: Option<string>): seq<Entry> {
    if localPpoi.None? then [Entry(0, true)] else []
  }

  function StakeEntries(list: seq<Attestation>, localPpoi: Option<string>, localStake: u64): seq<Entry> {
    Map((a: Attestation) => StakeEntry(a, localPpoi, localStake), Sort(list, HeavierFirst)) + NoLocal(localPpoi)
  }

  function SenderEntries(list: seq<Attestation>, localPpoi: Option<string>): seq<Entry> {
    Map((a: Attestation) => SenderEntry(a, localPpoi), Sort(list, HeavierFirst)) + NoLocal(localPpoi)
  }

  function EntryText(e: Entry): string {
    Render(e.value) + if e.starred then "*" else ""
  }

  // [String]::join(":")
  function Join(parts: seq<string>): string {
    if |parts| == 0 then ""
    else if |parts| == 1 then parts[0]
    else Join(parts[..|parts| - 1]) + ":" + parts[|parts| - 1]
  }

  function Print(es: seq<Entry>): string {
    Join(Map(EntryText, es))
  }

  method CalcRatios(attestations: seq<Attestation>, localPpoi: Option<string>, localStake: u64)
    returns (stakeRatio: string, senderRatio: string)
    ensures stakeRatio == Print(StakeEntries(attestations, localPpoi, localStake))
    ensures senderRatio == Print(SenderEntries(attestations, localPpoi))
  {
    var sorted := Sort(attestations, HeavierFirst);
    var stakes: seq<string> := [];
    var senders: seq<string> := [];
    for i := 0 to |sorted|
      invariant |stakes| == |senders| == i
      invariant forall k :: 0 <= k < i ==> stakes[k] == EntryText(StakeEntry(sorted[k], localPpoi, localStake))
      invariant forall k :: 0 <= k < i ==> senders[k] == EntryText(SenderEntry(sorted[k], localPpoi))
    {
      var att := sorted[i];
      if localPpoi.Some? && att.ppoi == localPpoi.value {
        stakes := stakes + [Render(WrappingAdd(att.stakeWeight, localStake)) + "*"];
        senders := senders + [Render(|att.senders| + 1) + "*"];
      } else {
        stakes := stakes + [Render(att.stakeWeight)];
        senders := senders + [Render(|att.senders|)];
      }
    }
    if localPpoi.None? {
      stakes := stakes + ["0*"];
      senders := senders + ["0*"];
    }
    PrintedTexts(Map((a: Attestation) => StakeEntry(a, localPpoi, localStake), sorted), localPpoi, stakes);
    PrintedTexts(Map((a: Attestation) => SenderEntry(a, localPpoi), sorted), localPpoi, senders);
    stakeRatio := Join(stakes);
    senderRatio := Join(senders);
  }

  // The texts of the entries, and a starred zero where there is no local PPOI
  lemma PrintedTexts(es: seq<Entry>, localPpoi: Option<string>, texts: seq<string>)
    requires |texts| == |es| + if localPpoi.None? then 1 else 0
    requires forall k :: 0 <= k < |es| ==> texts[k] == EntryText(es[k])
    requires localPpoi.None? ==> texts[|es|] == "0*"
    ensures Join(texts) == Print(es + NoLocal(localPpoi))
  {
    var all := es + NoLocal(localPpoi);
    forall k | 0 <= k < |all|
      ensures texts[k] == EntryText(all[k])
    {
      if k == |es| {
        ZeroText();
      }
    }
    MapFromElements(EntryText, all, texts);
  }

  lemma ZeroText()
    ensures EntryText(Entry(0, true)) == "0*"
  {
    assert Render(0) == "0";
  }

  // ---------- reading a printed ratio back ----------

  // Text added to the last part
  function Extend(parts: seq<string>, t: string): (r: seq<string>)
    requires parts != []
    ensures r != []
  {
    parts[..|parts| - 1] + [parts[|parts| - 1] + t]
  }

  function Split(s: string): (parts: seq<string>)
    ensures parts != []
  {
    if s == "" then [""]
    else
      var parts, c := Split(s[..|s| - 1]), s[|s| - 1];
      if c == ':' then parts + [""] else Extend(parts, [c])
  }

  function EntryOf(text: string): Option<Entry> {
    var starred := text != "" && text[|text| - 1] == '*';
    var digits := if starred then text[..|text| - 1] else text;
    if Decimal(digits) then Some(Entry(Parse(digits), starred)) else None
  }

  lemma EntryRoundTrip(e: Entry)
    ensures EntryOf(EntryText(e)) == Some(e)
  {
    ParseRender(e.value);
    var text := EntryText(e);
    if e.starred {
      assert text[..|text| - 1] == Render(e.value);
    } else {
      assert text == Render(e.value);
    }
  }

  predicate NoColon(s: string) {
    forall i :: 0 <= i < |s| ==> s[i] != ':'
  }

  lemma ExtendSnoc(parts: seq<string>, t: string, c: char)
    requires parts != []
    ensures Extend(Extend(parts, t), [c]) == Extend(parts, t + [c])
  {
    AppendSnoc(parts[|parts| - 1], t, c);
    assert Extend(parts, t)[..|parts| - 1] == parts[..|parts| - 1];
  }

  lemma SplitSnoc(s: string, c: char)
    ensures Split(s + [c]) == if c == ':' then Split(s) + [""] else Extend(Split(s), [c])
  {
    assert (s + [c])[..|s|] == s;
  }

  lemma SplitAppendSnoc(s: string, t: string, c: char)
    requires Split(s + t) == Extend(Split(s), t) && c != ':'
    ensures Split(s + (t + [c])) == Extend(Split(s), t + [c])
  {
    AppendSnoc(s, t, c);
    SplitSnoc(s + t, c);
    ExtendSnoc(Split(s), t, c);
  }

  lemma {:induction false} SplitAppend(s: string, t: string)
    requires NoColon(t)
    ensures Split(s + t) == Extend(Split(s), t)
  {
    if t == "" {
      assert s + t == s;
      ExtendByNothing(Split(s));
    } else {
      var init, c := t[..|t| - 1], t[|t| - 1];
      SplitAppend(s, init);
      SplitAppendSnoc(s, init, c);
      assert init + [c] == t;
    }
  }

  lemma ExtendByNothing(parts: seq<string>)
    requires parts != []
    ensures Extend(parts, "") == parts
  {
    assert parts[|parts| - 1] + "" == parts[|parts| - 1];
  }

  lemma SplitStep(s: string, done: seq<string>, last: string)
    requires Split(s) == done && NoColon(last)
    ensures Split(s + ":" + last) == done + [last]
  {
    SplitSnoc(s, ':');
    assert ":" == [':'];
    SplitAppend(s + ":", last);
    assert (done + [""])[..|done|] == done && "" + last == last;
  }

  lemma SplitOne(part: string)
    requires NoColon(part)
    ensures Split(part) == [part]
  {
    SplitAppend("", part);
    assert "" + part == part;
  }

  lemma {:induction false} SplitJoin(parts: seq<string>)
    requires parts != [] && forall i :: 0 <= i < |parts| ==> NoColon(parts[i])
    ensures Split(Join(parts)) == parts
  {
    var init, last := parts[..|parts| - 1], parts[|parts| - 1];
    assert parts == init + [last];
    if init == [] {
      SplitOne(last);
    } else {
      SplitJoin(init);
      SplitStep(Join(init), init, last);
    }
  }

  lemma EntryNoColon(e: Entry)
    ensures NoColon(EntryText(e))
  {
  }

  /** A printed ratio can be read back entry by entry: printing loses nothing. */
  lemma PrintRoundTrip(es: seq<Entry>)
    requires es != []
    ensures Map(EntryOf, Split(Print(es))) == Map((e: Entry) => Some(e), es)
  {
    var parts := Map(EntryText, es);
    forall i | 0 <= i < |parts|
      ensures NoColon(parts[i]) && EntryOf(parts[i]) == Some(es[i])
    {
      EntryNoColon(es[i]);
      EntryRoundTrip(es[i]);
    }
    SplitJoin(parts);
  }
}
