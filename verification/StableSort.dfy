/** `slice::sort_by` is a stable sort; this is its result, and the proof that there is only one. */
module StableSort {
  import opened Core

  ghost predicate TotalPreorder<T(!new)>(le: (T, T) -> bool) {
    && (forall a, b :: le(a, b) || le(b, a))
    && (forall a, b, c :: le(a, b) && le(b, c) ==> le(a, c))
  }

  ghost predicate Sorted<T>(s: seq<T>, le: (T, T) -> bool) {
    forall i, j :: 0 <= i < j < |s| ==> le(s[i], s[j])
  }

  // x goes behind everything it does not precede
  function Insert<T>(x: T, s: seq<T>, le: (T, T) -> bool): (r: seq<T>)
    ensures |r| == |s| + 1
  {
    if s == [] then [x]
    else
      var init, last := s[..|s| - 1], s[|s| - 1];
      if le(last, x) then s + [x] else Insert(x, init, le) + [last]
  }

  function Sort<T>(s: seq<T>, le: (T, T) -> bool): (r: seq<T>)
    ensures |r| == |s|
  {
    if s == [] then [] else Insert(s[|s| - 1], Sort(s[..|s| - 1], le), le)
  }

  // Insertion from the right, step by step: past a greater last element, or behind one that is not.
  lemma InsertBefore<T>(x: T, s: seq<T>, j: nat, le: (T, T) -> bool)
    requires 0 < j <= |s| && !le(s[j - 1], x)
    ensures Insert(x, s[..j], le) + s[j..] == Insert(x, s[..j - 1], le) + s[j - 1..]
  {
    assert s[..j][..j - 1] == s[..j - 1];
    assert s[j - 1..] == [s[j - 1]] + s[j..];
  }

  lemma InsertBehind<T>(x: T, s: seq<T>, le: (T, T) -> bool)
    requires s == [] || le(s[|s| - 1], x)
    ensures Insert(x, s, le) == s + [x]
  {
  }

  lemma SortSnoc<T>(s: seq<T>, x: T, le: (T, T) -> bool)
    ensures Sort(s + [x], le) == Insert(x, Sort(s, le), le)
  {
    assert (s + [x])[..|s|] == s;
  }

  lemma {:induction false} InsertMembers<T>(x: T, s: seq<T>, le: (T, T) -> bool)
    ensures multiset(Insert(x, s, le)) == multiset(s) + multiset{x}
  {
    if s != [] {
      assert s == s[..|s| - 1] + [s[|s| - 1]];
      InsertMembers(x, s[..|s| - 1], le);
    }
  }

  lemma {:induction false} SortMembers<T>(s: seq<T>, le: (T, T) -> bool)
    ensures multiset(Sort(s, le)) == multiset(s)
  {
    if s != [] {
      assert s == s[..|s| - 1] + [s[|s| - 1]];
      SortMembers(s[..|s| - 1], le);
      InsertMembers(s[|s| - 1], Sort(s[..|s| - 1], le), le);
    }
  }

  lemma SortedSnoc<T(!new)>(s: seq<T>, x: T, le: (T, T) -> bool)
    requires TotalPreorder(le) && Sorted(s, le) && (s == [] || le(s[|s| - 1], x))
    ensures Sorted(s + [x], le)
  {
    forall i | 0 <= i < |s|
      ensures le(s[i], x)
    {
      assert i == |s| - 1 || le(s[i], s[|s| - 1]);
    }
  }

  lemma {:induction false} InsertSorted<T(!new)>(x: T, s: seq<T>, le: (T, T) -> bool)
    requires TotalPreorder(le) && Sorted(s, le)
    ensures Sorted(Insert(x, s, le), le)
  {
    if s != [] {
      var init, last := s[..|s| - 1], s[|s| - 1];
      if !le(last, x) {
        InsertSorted(x, init, le);
        var r := Insert(x, init, le);
        InsertMembers(x, init, le);
        PermutationMembers(r, init + [x]);
        forall k | 0 <= k < |r|
          ensures le(r[k], last)
        {
          assert r[k] in init + [x];
        }
      } else {
        SortedSnoc(s, x, le);
      }
    }
  }

  lemma {:induction false} SortSorted<T(!new)>(s: seq<T>, le: (T, T) -> bool)
    requires TotalPreorder(le)
    ensures Sorted(Sort(s, le), le)
  {
    if s != [] {
      SortSorted(s[..|s| - 1], le);
      InsertSorted(s[|s| - 1], Sort(s[..|s| - 1], le), le);
    }
  }

  // The elements that compare equal to x, in order of arrival.
  ghost function Peers<T>(s: seq<T>, le: (T, T) -> bool, x: T): seq<T> {
    if s == [] then []
    else
      var y := s[|s| - 1];
      var rest := Peers(s[..|s| - 1], le, x);
      if le(x, y) && le(y, x) then rest + [y] else rest
  }

  ghost predicate StableRearrangement<T(!new)>(s: seq<T>, t: seq<T>, le: (T, T) -> bool) {
    forall x :: Peers(s, le, x) == Peers(t, le, x)
  }

  lemma PeersSnoc<T>(s: seq<T>, y: T, le: (T, T) -> bool, x: T)
    ensures Peers(s + [y], le, x) ==
            if le(x, y) && le(y, x) then Peers(s, le, x) + [y] else Peers(s, le, x)
  {
    assert (s + [y])[..|s|] == s;
  }

  lemma {:induction false} InsertPeers<T(!new)>(y: T, s: seq<T>, le: (T, T) -> bool, x: T)
    requires TotalPreorder(le)
    ensures Peers(Insert(y, s, le), le, x) == Peers(s + [y], le, x)
  {
    PeersSnoc(s, y, le, x);
    if s == [] {
      assert [y] == s + [y];
    } else {
      var init, last := s[..|s| - 1], s[|s| - 1];
      if !le(last, y) {
        InsertPeers(y, init, le, x);
        PeersSnoc(init, y, le, x);
        PeersSnoc(Insert(y, init, le), last, le, x);
      }
    }
  }

  lemma {:induction false} SortStable<T(!new)>(s: seq<T>, le: (T, T) -> bool)
    requires TotalPreorder(le)
    ensures StableRearrangement(s, Sort(s, le), le)
  {
    forall x
      ensures Peers(s, le, x) == Peers(Sort(s, le), le, x)
    {
      SortPeers(s, le, x);
    }
  }

  lemma {:induction false} SortPeers<T(!new)>(s: seq<T>, le: (T, T) -> bool, x: T)
    requires TotalPreorder(le)
    ensures Peers(s, le, x) == Peers(Sort(s, le), le, x)
  {
    if s != [] {
      var init, y := s[..|s| - 1], s[|s| - 1];
      SortPeers(init, le, x);
      InsertPeers(y, Sort(init, le), le, x);
      PeersSnoc(Sort(init, le), y, le, x);
    }
  }

  lemma {:induction false} PeersMember<T>(s: seq<T>, le: (T, T) -> bool, x: T, y: T)
    ensures y in Peers(s, le, x) <==> y in s && le(x, y) && le(y, x)
  {
    if s != [] {
      PeersMember(s[..|s| - 1], le, x, y);
    }
  }

  lemma {:induction false} SortedArrangementsEqual<T(!new)>(t: seq<T>, u: seq<T>, le: (T, T) -> bool)
    requires TotalPreorder(le) && Sorted(t, le) && Sorted(u, le)
    requires StableRearrangement(t, u, le)
    ensures t == u
  {
    if t != [] {
      var t', a := t[..|t| - 1], t[|t| - 1];
      PeersMember(t, le, a, a);
      PeersMember(u, le, a, a);
      var u', b := u[..|u| - 1], u[|u| - 1];
      PeersMember(t, le, b, b);
      PeersMember(u, le, b, b);
      assert le(a, b) && le(b, a);
      var pt, pu := Peers(t, le, a), Peers(u, le, a);
      assert pt == pu && pt[|pt| - 1] == a && pu[|pu| - 1] == b;
      forall x
        ensures Peers(t', le, x) == Peers(u', le, x)
      {
        var qt, qu := Peers(t, le, x), Peers(u, le, x);
        assert qt == qu;
        assert le(x, a) && le(a, x) ==> qt[..|qt| - 1] == Peers(t', le, x) && qu[..|qu| - 1] == Peers(u', le, x);
      }
      SortedArrangementsEqual(t', u', le);
      assert t == t' + [a] && u == u' + [b];
    }
  }

  /** Whatever algorithm is used, a sorted list that keeps equal elements in their old order is
      this one; `Sort` therefore stands for the standard library's merge sort. */
  lemma StableSortUnique<T(!new)>(s: seq<T>, t: seq<T>, le: (T, T) -> bool)
    requires TotalPreorder(le)
    ensures t == Sort(s, le) <==> Sorted(t, le) && StableRearrangement(s, t, le)
  {
    SortSorted(s, le);
    SortStable(s, le);
    if Sorted(t, le) && StableRearrangement(s, t, le) {
      forall x
        ensures Peers(t, le, x) == Peers(Sort(s, le), le, x)
      {
        assert Peers(s, le, x) == Peers(t, le, x);
      }
      SortedArrangementsEqual(t, Sort(s, le), le);
    }
  }

  // s[i] is a greatest element and the last one of its weight to arrive
  ghost predicate LastGreatest<T>(s: seq<T>, le: (T, T) -> bool, i: nat) {
    && i < |s|
    && (forall j :: 0 <= j < |s| ==> le(s[j], s[i]))
    && (forall j :: i < j < |s| ==> !le(s[i], s[j]))
  }

  lemma InsertLast<T>(x: T, s: seq<T>, le: (T, T) -> bool)
    requires s != []
    ensures var r := Insert(x, s, le);
            r[|r| - 1] == if le(s[|s| - 1], x) then x else s[|s| - 1]
  {
  }

  // The position a left-to-right scan ends with when every element that is no smaller takes over.
  function ScanGreatest<T>(s: seq<T>, le: (T, T) -> bool): (i: nat)
    requires s != []
    ensures i < |s|
  {
    if |s| == 1 then 0
    else
      var k := ScanGreatest(s[..|s| - 1], le);
      if le(s[k], s[|s| - 1]) then |s| - 1 else k
  }

  lemma {:induction false} ScanFindsLastGreatest<T(!new)>(s: seq<T>, le: (T, T) -> bool)
    requires TotalPreorder(le) && s != []
    ensures LastGreatest(s, le, ScanGreatest(s, le))
  {
    if |s| > 1 {
      ScanFindsLastGreatest(s[..|s| - 1], le);
    }
  }

  lemma {:induction false} SortEndsWithScan<T>(s: seq<T>, le: (T, T) -> bool)
    requires s != []
    ensures Sort(s, le)[|s| - 1] == s[ScanGreatest(s, le)]
  {
    if |s| == 1 {
      assert s[..0] == [];
    } else {
      SortEndsWithScan(s[..|s| - 1], le);
      InsertLast(s[|s| - 1], Sort(s[..|s| - 1], le), le);
    }
  }

  ghost predicate Antisymmetric<T(!new)>(le: (T, T) -> bool) {
    forall a, b :: le(a, b) && le(b, a) ==> a == b
  }

  lemma SameLast<T(!new)>(t: seq<T>, u: seq<T>, le: (T, T) -> bool)
    requires Antisymmetric(le)
    requires Sorted(t, le) && Sorted(u, le) && multiset(t) == multiset(u) && t != [] && u != []
    ensures t[|t| - 1] == u[|u| - 1]
  {
    PermutationMembers(t, u);
    var a, b := t[|t| - 1], u[|u| - 1];
    assert a in t && b in u;
    var i :| 0 <= i < |u| && u[i] == a;
    var j :| 0 <= j < |t| && t[j] == b;
  }

  lemma DropLast<T>(t: seq<T>, le: (T, T) -> bool)
    requires t != [] && Sorted(t, le)
    ensures Sorted(t[..|t| - 1], le)
    ensures multiset(t[..|t| - 1]) == multiset(t) - multiset{t[|t| - 1]}
    ensures t == t[..|t| - 1] + [t[|t| - 1]]
  {
    assert t == t[..|t| - 1] + [t[|t| - 1]];
  }

  lemma SameLength<T>(t: seq<T>, u: seq<T>)
    requires multiset(t) == multiset(u)
    ensures |t| == |u|
  {
    assert |multiset(t)| == |t| && |multiset(u)| == |u|;
  }

  /** When elements that compare equal are equal, sorting forgets the original order altogether. */
  lemma {:induction false} SortedUnique<T(!new)>(t: seq<T>, u: seq<T>, le: (T, T) -> bool)
    requires Antisymmetric(le)
    requires Sorted(t, le) && Sorted(u, le) && multiset(t) == multiset(u)
    ensures t == u
  {
    SameLength(t, u);
    if t != [] {
      SameLast(t, u, le);
      DropLast(t, le);
      DropLast(u, le);
      SortedUnique(t[..|t| - 1], u[..|u| - 1], le);
    }
  }
}
