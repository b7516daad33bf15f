/** What addresses decode to, in which order they are put, and which bytes get hashed: the canonical hash
    of a group of senders, described without the code's own functions. */
module AddressLaws {
  import opened Core
  import opened StableSort
  import opened Attestations

  // ---------- hexadecimal ----------

  /** The addresses that can be decoded: after two characters, an even number of hexadecimal digits. */
  lemma WellFormedExact(a: string)
    ensures WellFormedAddress(a) <==>
            |a| >= 2 && |a| % 2 == 0 && forall i :: 2 <= i < |a| ==>
              '0' <= a[i] <= '9' || 'a' <= a[i] <= 'f' || 'A' <= a[i] <= 'F'
  {
    if |a| >= 2 {
      HexPairsExact(a[2..]);
      assert forall i :: 2 <= i < |a| ==> a[i] == a[2..][i - 2];
    }
  }

  lemma {:induction false} HexPairsExact(s: string)
    ensures HexPairs(s) <==>
            |s| % 2 == 0 && forall i :: 0 <= i < |s| ==>
              '0' <= s[i] <= '9' || 'a' <= s[i] <= 'f' || 'A' <= s[i] <= 'F'
  {
    if |s| >= 2 {
      HexPairsExact(s[2..]);
      assert forall i :: 2 <= i < |s| ==> s[i] == s[2..][i - 2];
    }
  }

  const DIGITS := "0123456789abcdef"

  // Base16, section 8 of RFC 4648, with a table of its sixteen digits
  function Encode(table: string, bytes: seq<byte>): string
    requires |table| == 16
  {
    if bytes == [] then ""
    else [table[bytes[0] / 16], table[bytes[0] % 16]] + Encode(table, bytes[1..])
  }

  function EncodeHex(bytes: seq<byte>): string {
    Encode(DIGITS, bytes)
  }

  function LowerDigit(c: char): char {
    if 'A' <= c <= 'F' then (c as int - 'A' as int + 'a' as int) as char else c
  }

  function Lower(s: string): string {
    Map(LowerDigit, s)
  }

  // What the code makes of a digit is its place in the table.
  ghost predicate Reads(table: string)
    requires |table| == 16
  {
    && (forall v :: 0 <= v < 16 ==> HexDigit(table[v]) && Nibble(table[v]) == v)
    && forall c {:trigger LowerDigit(c)} :: HexDigit(c) ==> table[Nibble(c)] == LowerDigit(c)
  }

  lemma ReadsDigits()
    ensures Reads(DIGITS)
  {
    assert DIGITS[..10] == "0123456789" && DIGITS[10..] == "abcdef";
    forall v | 0 <= v < 16
      ensures DIGITS[v] == if v < 10 then ('0' as int + v) as char else ('a' as int + v - 10) as char
    {
      assert DIGITS[v] == if v < 10 then "0123456789"[v] else "abcdef"[v - 10];
    }
  }

  lemma {:induction false} DecodeTable(table: string, bytes: seq<byte>)
    requires |table| == 16 && Reads(table)
    ensures HexPairs(Encode(table, bytes)) && DecodeHex(Encode(table, bytes)) == bytes
  {
    if bytes != [] {
      DecodeTable(table, bytes[1..]);
      assert Encode(table, bytes)[2..] == Encode(table, bytes[1..]);
    }
  }

  lemma EncodePair(table: string, u: nat, v: nat, rest: seq<byte>)
    requires |table| == 16 && u < 16 && v < 16
    ensures Encode(table, [(16 * u + v) as byte] + rest) == [table[u], table[v]] + Encode(table, rest)
  {
    var bytes := [(16 * u + v) as byte] + rest;
    assert bytes[1..] == rest;
    assert bytes[0] / 16 == u && bytes[0] % 16 == v;
  }

  lemma LowerPair(s: string)
    requires |s| >= 2
    ensures Lower(s) == [LowerDigit(s[0]), LowerDigit(s[1])] + Lower(s[2..])
  {
  }

  lemma {:induction false} EncodeTable(table: string, s: string)
    requires |table| == 16 && Reads(table) && HexPairs(s)
    ensures Encode(table, DecodeHex(s)) == Lower(s)
  {
    if s != [] {
      EncodeTable(table, s[2..]);
      EncodePair(table, Nibble(s[0]), Nibble(s[1]), DecodeHex(s[2..]));
      LowerPair(s);
    }
  }

  /** Decoding the encoding of any bytes gives them back. */
  lemma DecodeEncode(bytes: seq<byte>)
    ensures HexPairs(EncodeHex(bytes)) && DecodeHex(EncodeHex(bytes)) == bytes
  {
    ReadsDigits();
    DecodeTable(DIGITS, bytes);
  }

  /** Encoding the decoding of well-formed hexadecimal gives it back in lower case. */
  lemma EncodeDecode(s: string)
    requires HexPairs(s)
    ensures EncodeHex(DecodeHex(s)) == Lower(s)
  {
    ReadsDigits();
    EncodeTable(DIGITS, s);
  }

  /** Two addresses decode to the same bytes if and only if they differ in the case of their digits, and in
      their first two characters, at most. */
  lemma SameAddress(a: string, b: string)
    requires WellFormedAddress(a) && WellFormedAddress(b)
    ensures AddressBytes(a) == AddressBytes(b) <==> Lower(a[2..]) == Lower(b[2..])
  {
    EncodeDecode(a[2..]);
    EncodeDecode(b[2..]);
    if Lower(a[2..]) == Lower(b[2..]) {
      DecodeEncode(DecodeHex(a[2..]));
      DecodeEncode(DecodeHex(b[2..]));
    }
  }

  // ---------- the order of bytes ----------

  // The first byte in which the two differ is less in the first one.
  ghost predicate LessAt(a: seq<byte>, b: seq<byte>, k: nat) {
    k < |a| && k < |b| && a[..k] == b[..k] && a[k] < b[k]
  }

  /** One list of bytes is not above another if and only if it is a prefix, or less in the first byte in
      which they differ. */
  lemma {:induction false} BytesLeExact(a: seq<byte>, b: seq<byte>)
    ensures BytesLe(a, b) <==> a <= b || exists k :: LessAt(a, b, k)
  {
    if a != [] && b != [] {
      BytesLeExact(a[1..], b[1..]);
      assert a == [a[0]] + a[1..] && b == [b[0]] + b[1..];
      if a[0] < b[0] {
        assert LessAt(a, b, 0);
      } else if a[0] == b[0] {
        if k: nat :| LessAt(a[1..], b[1..], k) {
          LessLater(a, b, k);
        }
        if k: nat :| LessAt(a, b, k) {
          assert k > 0;
          LessLater(a, b, k - 1);
        }
      }
    }
  }

  lemma LessLater(a: seq<byte>, b: seq<byte>, k: nat)
    requires a != [] && b != [] && a[0] == b[0]
    ensures LessAt(a, b, k + 1) <==> LessAt(a[1..], b[1..], k)
  {
    if k + 1 < |a| && k + 1 < |b| {
      assert a[..k + 1] == [a[0]] + a[1..][..k] && b[..k + 1] == [b[0]] + b[1..][..k];
      assert a[..k + 1][1..] == a[1..][..k] && b[..k + 1][1..] == b[1..][..k];
    }
  }

  // ---------- the bytes that get hashed ----------

  // The length of the first k decoded addresses together
  function Offset(addresses: seq<string>, k: nat): nat
    requires k <= |addresses|
  {
    if k == 0 then 0 else Offset(addresses, k - 1) + |AddressBytes(addresses[k - 1])|
  }

  /** The hashed bytes are the decoded addresses one after the other: each at its place, and nothing else. */
  lemma {:induction false} ConcatAt(addresses: seq<string>, k: nat)
    requires k < |addresses|
    ensures var bytes := AddressBytes(addresses[k]);
            && |ConcatBytes(addresses)| == Offset(addresses, |addresses|)
            && Offset(addresses, k) + |bytes| <= |ConcatBytes(addresses)|
            && ConcatBytes(addresses)[Offset(addresses, k)..Offset(addresses, k) + |bytes|] == bytes
  {
    var n := |addresses| - 1;
    ConcatLength(addresses, n + 1);
    ConcatLength(addresses, n);
    assert addresses[..n + 1] == addresses;
    if k < n {
      ConcatAt(addresses[..n], k);
      OffsetPrefix(addresses, n, k);
    }
  }

  lemma {:induction false} OffsetPrefix(addresses: seq<string>, n: nat, k: nat)
    requires k <= n <= |addresses|
    ensures Offset(addresses[..n], k) == Offset(addresses, k)
  {
    if k > 0 {
      OffsetPrefix(addresses, n, k - 1);
    }
  }

  lemma {:induction false} ConcatLength(addresses: seq<string>, n: nat)
    requires n <= |addresses|
    ensures |ConcatBytes(addresses[..n])| == Offset(addresses, n)
  {
    if n > 0 {
      ConcatLength(addresses, n - 1);
      assert addresses[..n][..n - 1] == addresses[..n - 1];
    }
  }

  /** The group hash is the hash of the decoded addresses in any order in which their bytes do not go down. */
  lemma GroupHashExact(sha3: Digest, senders: seq<string>, order: seq<string>)
    requires multiset(order) == multiset(senders)
    requires forall i, j :: 0 <= i < j < |order| ==> BytesLe(AddressBytes(order[i]), AddressBytes(order[j]))
    ensures GroupHash(sha3, senders) == sha3(ConcatBytes(order))
  {
    SortedBytes(senders);
    MapPermutation(AddressBytes, order, senders);
    ByteOrder();
    assert Sorted(Map(AddressBytes, order), BytesLe);
    SortedUnique(Map(AddressBytes, SortedAddresses(senders)), Map(AddressBytes, order), BytesLe);
    ConcatFromDecoded(SortedAddresses(senders), order);
  }
}
