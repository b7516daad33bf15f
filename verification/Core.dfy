/** The 64-bit integers, error returns and list helpers shared by every other module. */
module Core {
  datatype Option<+T> = None | Some(value: T)
  datatype Result<+T, +E> = Ok(value: T) | Err(error: E)

  const U64_LIMIT: int := 0x1_0000_0000_0000_0000

  // Rust's `u64`.  A release build wraps on overflow; the two functions below say so.
  type u64 = n: int | 0 <= n < U64_LIMIT

  const U64_MAX: u64 := U64_LIMIT - 1

  function WrappingAdd(a: u64, b: u64): u64 {
    if a + b < U64_LIMIT then a + b else a + b - U64_LIMIT
  }

  function WrappingSub(a: u64, b: u64): u64 {
    if b <= a then a - b else a - b + U64_LIMIT
  }

  // Adding to an accumulator that has already wrapped is adding first and wrapping once.
  lemma WrapOnce(total: nat, x: u64)
    ensures WrappingAdd(total % U64_LIMIT, x) == (total + x) % U64_LIMIT
  {
  }

  // The elements of s that satisfy p, in order.
  function Filter<T(!new)>(p: T -> bool, s: seq<T>): (r: seq<T>)
    ensures forall x :: x in r <==> x in s && p(x)
    ensures |r| <= |s|
  {
    if s == [] then []
    else
      var rest := Filter(p, s[..|s| - 1]);
      if p(s[|s| - 1]) then rest + [s[|s| - 1]] else rest
  }

  lemma FilterSnoc<T(!new)>(p: T -> bool, s: seq<T>, x: T)
    ensures Filter(p, s + [x]) == if p(x) then Filter(p, s) + [x] else Filter(p, s)
  {
    assert (s + [x])[..|s|] == s;
  }

  lemma {:induction false} FilterNone<T(!new)>(p: T -> bool, s: seq<T>)
    requires forall x :: x in s ==> !p(x)
    ensures Filter(p, s) == []
  {
    if s != [] {
      FilterNone(p, s[..|s| - 1]);
    }
  }

  // A list in two parts, what satisfies q and what satisfies p
  lemma {:induction false} FilterParts<T(!new)>(q: T -> bool, p: T -> bool, s: seq<T>)
    requires forall x :: x in s ==> q(x) == !p(x)
    ensures multiset(Filter(q, s) + Filter(p, s)) == multiset(s)
  {
    if s != [] {
      assert s == s[..|s| - 1] + [s[|s| - 1]];
      FilterParts(q, p, s[..|s| - 1]);
    }
  }

  // Filters that agree on the elements of s give the same list.
  lemma {:induction false} FilterCongruent<T(!new)>(p: T -> bool, q: T -> bool, s: seq<T>)
    requires forall x :: x in s ==> p(x) == q(x)
    ensures Filter(p, s) == Filter(q, s)
  {
    if s != [] {
      FilterCongruent(p, q, s[..|s| - 1]);
    }
  }

  lemma PrefixSnoc<T>(s: seq<T>, n: nat)
    requires n < |s|
    ensures s[..n + 1] == s[..n] + [s[n]]
  {
  }

  lemma AppendSnoc<T>(s: seq<T>, t: seq<T>, x: T)
    ensures s + (t + [x]) == (s + t) + [x]
  {
  }

  lemma EqualsSnoc<T>(s: seq<T>, t: seq<T>, x: T)
    requires |s| == |t| + 1 && s[|t|] == x && forall k :: 0 <= k < |t| ==> s[k] == t[k]
    ensures s == t + [x]
  {
  }

  lemma EqualsUpdated<T>(s: seq<T>, t: seq<T>, k: nat, x: T)
    requires |s| == |t| && k < |t| && s[k] == x && forall j :: 0 <= j < |t| && j != k ==> s[j] == t[j]
    ensures s == t[k := x]
  {
  }

  function Elements<T>(s: seq<T>): set<T> {
    set x | x in s
  }

  lemma ElementsSnoc<T>(s: seq<T>, x: T)
    ensures Elements(s + [x]) == Elements(s) + {x}
  {
  }

  predicate Distinct<T(==)>(s: seq<T>) {
    forall i, j :: 0 <= i < j < |s| ==> s[i] != s[j]
  }

  lemma DistinctSnoc<T>(s: seq<T>, x: T)
    ensures Distinct(s + [x]) <==> Distinct(s) && x !in s
  {
    var t := s + [x];
    if Distinct(t) {
      assert forall i :: 0 <= i < |s| ==> t[i] == s[i];
      assert t[|s|] == x;
    }
  }

  // A list without repeats is, as a multiset, the set of its elements.
  lemma {:induction false} DistinctMultiset<T>(s: seq<T>)
    requires Distinct(s)
    ensures multiset(s) == multiset(Elements(s))
  {
    if s != [] {
      var init, x := s[..|s| - 1], s[|s| - 1];
      DistinctMultiset(init);
      assert s == init + [x];
      ElementsSnoc(init, x);
    }
  }

  lemma DistinctPermutation<T>(s: seq<T>, t: seq<T>)
    requires Distinct(s) && multiset(s) == multiset(t)
    ensures Distinct(t)
  {
    DistinctMultiset(s);
    forall i, j | 0 <= i < j < |t|
      ensures t[i] != t[j]
    {
      assert t == t[..j] + [t[j]] + t[j + 1..];
      assert t[i] in t[..j];
      assert multiset(t)[t[j]] == multiset(t[..j])[t[j]] + 1 + multiset(t[j + 1..])[t[j]] <= 1;
    }
  }

  function Map<T, U>(f: T -> U, s: seq<T>): seq<U> {
    seq(|s|, i requires 0 <= i < |s| => f(s[i]))
  }

  lemma MapFromElements<T, U>(f: T -> U, s: seq<T>, t: seq<U>)
    requires |s| == |t| && forall k :: 0 <= k < |s| ==> t[k] == f(s[k])
    ensures t == Map(f, s)
  {
  }

  function Sum(s: seq<nat>): nat {
    if s == [] then 0 else Sum(s[..|s| - 1]) + s[|s| - 1]
  }

  lemma SumSnoc(s: seq<nat>, x: nat)
    ensures Sum(s + [x]) == Sum(s) + x
  {
    assert (s + [x])[..|s|] == s;
  }

  lemma {:induction false} SumAppend(s: seq<nat>, t: seq<nat>)
    ensures Sum(s + t) == Sum(s) + Sum(t)
  {
    if t == [] {
      assert s + t == s;
    } else {
      SumAppend(s, t[..|t| - 1]);
      assert (s + t)[..|s + t| - 1] == s + t[..|t| - 1];
    }
  }

  // Taking one occurrence of x out of a list that has it.
  lemma TakeOut<T>(s: seq<T>, x: T) returns (k: nat, rest: seq<T>)
    requires x in s
    ensures k < |s| && s[k] == x && rest == s[..k] + s[k + 1..]
    ensures multiset(rest) == multiset(s) - multiset{x}
  {
    k :| k < |s| && s[k] == x;
    rest := s[..k] + s[k + 1..];
    assert s == s[..k] + [x] + s[k + 1..];
  }

  lemma TakeOutSum(s: seq<nat>, x: nat) returns (rest: seq<nat>)
    requires x in s
    ensures multiset(rest) == multiset(s) - multiset{x}
    ensures Sum(s) == Sum(rest) + x
  {
    var k;
    k, rest := TakeOut(s, x);
    SumAppend(s[..k], s[k + 1..]);
    SumAppend(s[..k + 1], s[k + 1..]);
    assert s[..k + 1][..k] == s[..k] && s == s[..k + 1] + s[k + 1..];
  }

  /** A list contained in another, counting repeats, has no greater sum; so the order of the
      summands does not matter. */
  lemma {:induction false} SumMonotone(s: seq<nat>, t: seq<nat>)
    requires multiset(s) <= multiset(t)
    ensures Sum(s) <= Sum(t)
  {
    if s != [] {
      var init, x := s[..|s| - 1], s[|s| - 1];
      assert s == init + [x];
      assert multiset(init) == multiset(s) - multiset{x};
      assert x in multiset(t);
      var rest := TakeOutSum(t, x);
      SumMonotone(init, rest);
    }
  }

  lemma TakeOutMapped<T, U>(f: T -> U, s: seq<T>, x: T) returns (rest: seq<T>)
    requires x in s
    ensures multiset(rest) == multiset(s) - multiset{x}
    ensures multiset(Map(f, s)) == multiset(Map(f, rest)) + multiset{f(x)}
  {
    var k;
    k, rest := TakeOut(s, x);
    assert Map(f, rest) == Map(f, s[..k]) + Map(f, s[k + 1..]);
    assert Map(f, s) == Map(f, s[..k]) + ([f(x)] + Map(f, s[k + 1..]));
  }

  lemma {:induction false} MapMonotone<T, U>(f: T -> U, s: seq<T>, t: seq<T>)
    requires multiset(s) <= multiset(t)
    ensures multiset(Map(f, s)) <= multiset(Map(f, t))
    decreases |s|
  {
    if s != [] {
      var x := s[|s| - 1];
      assert x in multiset(s) && x in multiset(t);
      var init := TakeOutMapped(f, s, x);
      var rest := TakeOutMapped(f, t, x);
      assert |init| == |multiset(init)| == |multiset(s)| - 1;
      MapMonotone(f, init, rest);
    }
  }

  lemma MapPermutation<T, U>(f: T -> U, s: seq<T>, t: seq<T>)
    requires multiset(s) == multiset(t)
    ensures multiset(Map(f, s)) == multiset(Map(f, t))
  {
    MapMonotone(f, s, t);
    MapMonotone(f, t, s);
  }

  lemma PermutationMembers<T>(s: seq<T>, t: seq<T>)
    requires multiset(s) == multiset(t)
    ensures forall x :: x in s <==> x in t
  {
    forall x
      ensures x in s <==> x in t
    {
      assert x in s <==> x in multiset(s);
      assert x in t <==> x in multiset(t);
    }
  }
}
