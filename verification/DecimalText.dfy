/** Block numbers and nonces are stored as decimal text and compared by the database as text.
    This module says exactly when that order is the order of the numbers. */
module DecimalText {

  function Digit(d: nat): (c: char)
    requires d < 10
    ensures '0' <= c <= '9'
  {
    ('0' as int + d) as char
  }

  // u64::to_string
  function Render(n: nat): (s: string)
    ensures Decimal(s)
  {
    if n < 10 then [Digit(n)] else Render(n / 10) + [Digit(n % 10)]
  }

  predicate Decimal(s: string) {
    |s| > 0 && forall i :: 0 <= i < |s| ==> '0' <= s[i] <= '9'
  }

  // str::parse::<u64> on a non-empty string of digits
  function Parse(s: string): nat
    requires Decimal(s)
  {
    var last := s[|s| - 1] as int - '0' as int;
    if |s| == 1 then last else 10 * Parse(s[..|s| - 1]) + last
  }

  lemma {:induction false} ParseRender(n: nat)
    ensures Parse(Render(n)) == n
  {
    if n >= 10 {
      ParseRender(n / 10);
      assert Render(n)[..|Render(n)| - 1] == Render(n / 10);
    }
  }

  // The text column keeps numbers apart: equality of the texts is equality of the numbers.
  lemma RenderInjective(x: nat, y: nat)
    ensures Render(x) == Render(y) <==> x == y
  {
    ParseRender(x);
    ParseRender(y);
  }

  // SQLite's BINARY collation: byte by byte, a proper prefix comes first.
  predicate TextLe(a: string, b: string) {
    a == [] || (b != [] && (a[0] < b[0] || (a[0] == b[0] && TextLe(a[1..], b[1..]))))
  }

  // n without its last k decimal digits
  function DropDigits(n: nat, k: nat): nat {
    if k == 0 then n else DropDigits(n / 10, k - 1)
  }

  lemma {:induction false} TextLeSnoc(a: string, b: string, c: char, d: char)
    requires |a| == |b|
    ensures TextLe(a + [c], b + [d]) <==> if a == b then c <= d else TextLe(a, b)
  {
    if a != [] {
      assert (a + [c])[1..] == a[1..] + [c] && (b + [d])[1..] == b[1..] + [d];
      TextLeSnoc(a[1..], b[1..], c, d);
    }
  }

  lemma {:induction false} SameLengthOrder(x: nat, y: nat)
    requires |Render(x)| == |Render(y)|
    ensures TextLe(Render(x), Render(y)) <==> x <= y
  {
    if x >= 10 {
      SameLengthOrder(x / 10, y / 10);
      RenderInjective(x / 10, y / 10);
      TextLeSnoc(Render(x / 10), Render(y / 10), Digit(x % 10), Digit(y % 10));
    } else {
      assert TextLe([Digit(x)], [Digit(y)]) <==> Digit(x) <= Digit(y);
    }
  }

  // Text order looks only at the common length, and breaks a tie for the shorter text.
  lemma {:induction false} TextLeTruncate(a: string, b: string)
    ensures |a| <= |b| ==> (TextLe(a, b) <==> TextLe(a, b[..|a|]))
    ensures |a| > |b| ==> (TextLe(a, b) <==> TextLe(a[..|b|], b) && a[..|b|] != b)
  {
    if a != [] && b != [] {
      TextLeTruncate(a[1..], b[1..]);
      if |a| <= |b| {
        assert b[..|a|][1..] == b[1..][..|a| - 1];
      } else {
        assert a[..|b|][1..] == a[1..][..|b| - 1];
        assert a[..|b|] == [a[0]] + a[1..][..|b| - 1] && b == [b[0]] + b[1..];
      }
    }
  }

  lemma {:induction false} RenderTruncate(n: nat, k: nat)
    requires k < |Render(n)|
    ensures Render(n)[..|Render(n)| - k] == Render(DropDigits(n, k))
  {
    if k == 0 {
      assert Render(n)[..|Render(n)|] == Render(n);
    } else {
      RenderTruncate(n / 10, k - 1);
      assert Render(n)[..|Render(n)| - k] == Render(n / 10)[..|Render(n / 10)| - (k - 1)];
    }
  }

  lemma ShorterText(x: nat, y: nat)
    requires |Render(x)| <= |Render(y)|
    ensures TextLe(Render(x), Render(y)) <==> x <= DropDigits(y, |Render(y)| - |Render(x)|)
  {
    var k := |Render(y)| - |Render(x)|;
    var leading := DropDigits(y, k);
    RenderTruncate(y, k);
    assert Render(y)[..|Render(x)|] == Render(leading) && |Render(leading)| == |Render(x)|;
    TextLeTruncate(Render(x), Render(y));
    SameLengthOrder(x, leading);
  }

  lemma LongerText(x: nat, y: nat)
    requires |Render(x)| > |Render(y)|
    ensures TextLe(Render(x), Render(y)) <==> DropDigits(x, |Render(x)| - |Render(y)|) < y
  {
    var k := |Render(x)| - |Render(y)|;
    var leading := DropDigits(x, k);
    RenderTruncate(x, k);
    assert Render(x)[..|Render(y)|] == Render(leading) && |Render(leading)| == |Render(y)|;
    TextLeTruncate(Render(x), Render(y));
    SameLengthOrder(leading, y);
    RenderInjective(leading, y);
  }

  /** What the database's text comparison of two rendered numbers means, for every pair: the
      longer number is cut to the length of the shorter one before they are compared. */
  lemma TextOrder(x: nat, y: nat)
    ensures TextLe(Render(x), Render(y)) <==>
            if |Render(x)| <= |Render(y)|
            then x <= DropDigits(y, |Render(y)| - |Render(x)|)
            else DropDigits(x, |Render(x)| - |Render(y)|) < y
  {
    if |Render(x)| <= |Render(y)| { ShorterText(x, y); } else { LongerText(x, y); }
  }

  lemma {:induction false} MoreDigits(x: nat, y: nat)
    requires x <= y
    ensures |Render(x)| <= |Render(y)|
  {
    if x >= 10 {
      MoreDigits(x / 10, y / 10);
    }
  }

  // A condition on two numbers under which their texts compare as the numbers do.
  predicate OrdersAlike(x: nat, y: nat) {
    var dx, dy := |Render(x)|, |Render(y)|;
    || dx == dy
    || (dx < dy && x <= DropDigits(y, dy - dx))
    || (dx > dy && y <= DropDigits(x, dx - dy))
  }

  /** Text order and numeric order agree on a pair exactly when the digit counts are equal or
      the shorter number does not exceed the leading digits of the longer one. */
  lemma TextAgreesExactly(x: nat, y: nat)
    ensures (TextLe(Render(x), Render(y)) <==> x <= y) <==> OrdersAlike(x, y)
  {
    TextOrder(x, y);
    if x <= y { MoreDigits(x, y); } else { MoreDigits(y, x); }
  }

  function Pow10(k: nat): (p: nat)
    ensures p >= 1
  {
    if k == 0 then 1 else 10 * Pow10(k - 1)
  }

  lemma {:induction false} PowerDigits(k: nat)
    ensures |Render(Pow10(k))| == k + 1
    ensures k > 0 ==> |Render(Pow10(k) - 1)| == k
  {
    if k > 0 {
      PowerDigits(k - 1);
      assert Pow10(k) / 10 == Pow10(k - 1);
      if k > 1 {
        assert (Pow10(k) - 1) / 10 == Pow10(k - 1) - 1;
        assert Pow10(k) - 1 >= 10;
      }
    }
  }

  /** At every digit rollover the two orders disagree both ways: as texts, 99..9 is above 100..0. */
  lemma RolloverReversed(k: nat)
    requires k > 0
    ensures TextLe(Render(Pow10(k)), Render(Pow10(k) - 1))
    ensures !TextLe(Render(Pow10(k) - 1), Render(Pow10(k)))
  {
    PowerDigits(k);
    TextOrder(Pow10(k), Pow10(k) - 1);
    TextOrder(Pow10(k) - 1, Pow10(k));
    assert DropDigits(Pow10(k), 1) == DropDigits(Pow10(k) / 10, 0) == Pow10(k - 1);
  }

  // ---------- the least number whose text is not below a given one ----------

  lemma {:induction false} DigitBounds(n: nat)
    ensures n < Pow10(|Render(n)|) && (n > 0 ==> Pow10(|Render(n)| - 1) <= n)
  {
    if n >= 10 {
      DigitBounds(n / 10);
    }
  }

  // All digits of n are nines.
  predicate Nines(n: nat) {
    n + 1 == Pow10(|Render(n)|)
  }

  lemma NinesPrefix(n: nat)
    requires n >= 10 && Nines(n)
    ensures Nines(n / 10)
  {
    assert n + 1 == 10 * Pow10(|Render(n / 10)|);
  }

  lemma SameDigitsNext(n: nat)
    requires !Nines(n)
    ensures |Render(n + 1)| == |Render(n)|
  {
    var d, e := |Render(n)|, |Render(n + 1)|;
    DigitBounds(n);
    DigitBounds(n + 1);
    MoreDigits(n, n + 1);
    if e > d {
      PowersGrow(d, e - 1);
    }
  }

  lemma {:induction false} PowersGrow(j: nat, k: nat)
    requires j <= k
    ensures Pow10(j) <= Pow10(k)
  {
    if j < k {
      PowersGrow(j, k - 1);
    }
  }

  // The least number, of no more digits, whose text is above every text that begins with that of n
  function NextAbove(n: nat): (r: nat)
    requires !Nines(n)
  {
    if n < 10 || Nines(n / 10) then n + 1 else NextAbove(n / 10)
  }

  // The least number whose text is not below that of n: n itself if all its digits before the last are
  // nines, and otherwise the next number after its leading digits, as few of them as are not all nines.
  function LeastAbove(n: nat): nat {
    if n < 10 || Nines(n / 10) then n else NextAbove(n / 10)
  }

  lemma {:induction false} NextAboveIsAbove(n: nat)
    requires !Nines(n)
    ensures var r := NextAbove(n);
            r <= n + 1 && |Render(r)| <= |Render(n)| && DropDigits(n, |Render(n)| - |Render(r)|) < r
  {
    if n < 10 || Nines(n / 10) {
      SameDigitsNext(n);
    } else {
      NextAboveIsAbove(n / 10);
    }
  }

  lemma {:induction false} NinesLeading(n: nat, b: nat)
    requires Nines(n) && |Render(b)| <= |Render(n)|
    ensures b <= DropDigits(n, |Render(n)| - |Render(b)|)
  {
    DigitBounds(b);
    if |Render(b)| < |Render(n)| {
      NinesPrefix(n);
      NinesLeading(n / 10, b);
    }
  }

  lemma {:induction false} NextAboveLeast(n: nat, b: nat)
    requires !Nines(n) && |Render(b)| <= |Render(n)| && DropDigits(n, |Render(n)| - |Render(b)|) < b
    ensures NextAbove(n) <= b
  {
    if |Render(b)| == |Render(n)| {
      NextAboveIsAbove(n);
    } else if Nines(n / 10) {
      NinesLeading(n / 10, b);
      assert false;
    } else {
      NextAboveLeast(n / 10, b);
    }
  }

  /** LeastAbove is what its name says. */
  lemma LeastAboveExact(n: nat)
    ensures TextLe(Render(n), Render(LeastAbove(n)))
    ensures forall b: nat :: TextLe(Render(n), Render(b)) ==> LeastAbove(n) <= b
    ensures LeastAbove(n) <= n
  {
    TextOrder(n, LeastAbove(n));
    if n >= 10 && !Nines(n / 10) {
      NextAboveIsAbove(n / 10);
    }
    forall b: nat | TextLe(Render(n), Render(b))
      ensures LeastAbove(n) <= b
    {
      LeastAboveBelow(n, b);
    }
  }

  lemma LeastAboveBelow(n: nat, b: nat)
    requires TextLe(Render(n), Render(b))
    ensures LeastAbove(n) <= b
  {
    if |Render(n)| <= |Render(b)| {
      LongerAbove(n, b);
      LeastAtMost(n);
    } else {
      FewerDigits(n, b);
      ShorterAbove(n / 10, b);
      LeastOfPrefix(n);
    }
  }

  lemma LeastOfPrefix(n: nat)
    requires n >= 10 && !Nines(n / 10)
    ensures LeastAbove(n) == NextAbove(n / 10)
  {
  }

  lemma LongerAbove(n: nat, b: nat)
    requires TextLe(Render(n), Render(b)) && |Render(n)| <= |Render(b)|
    ensures n <= b
  {
    TextOrder(n, b);
    LeadingLess(b, |Render(b)| - |Render(n)|);
  }

  lemma FewerDigits(n: nat, b: nat)
    requires TextLe(Render(n), Render(b)) && |Render(b)| < |Render(n)|
    ensures n >= 10 && |Render(b)| <= |Render(n / 10)|
    ensures DropDigits(n / 10, |Render(n / 10)| - |Render(b)|) < b
  {
    TextOrder(n, b);
    assert |Render(n / 10)| == |Render(n)| - 1;
  }

  // A number of no more digits, above the leading ones of n
  lemma ShorterAbove(n: nat, b: nat)
    requires |Render(b)| <= |Render(n)| && DropDigits(n, |Render(n)| - |Render(b)|) < b
    ensures !Nines(n) && NextAbove(n) <= b
  {
    if Nines(n) {
      NinesLeading(n, b);
    } else {
      NextAboveLeast(n, b);
    }
  }

  lemma LeastAtMost(n: nat)
    ensures LeastAbove(n) <= n
  {
    if n >= 10 && !Nines(n / 10) {
      NextAboveIsAbove(n / 10);
    }
  }

  lemma {:induction false} LeadingLess(n: nat, k: nat)
    ensures DropDigits(n, k) <= n
  {
    if k > 0 {
      LeadingLess(n / 10, k - 1);
    }
  }

  // The text of k nines is not below that of any number of at most k + 1 digits that starts with less.
  lemma BelowNines(n: nat, k: nat)
    requires k > 0 && |Render(n)| <= k + 1 && n < 2 * Pow10(k)
    ensures TextLe(Render(n), Render(Pow10(k) - 1))
  {
    var nines := Pow10(k) - 1;
    PowerDigits(k);
    TextOrder(n, nines);
    if |Render(n)| <= k {
      NinesLeading(nines, n);
    } else {
      assert DropDigits(n, 1) == DropDigits(n / 10, 0) == n / 10;
    }
  }

  lemma {:induction false} LeadingMonotone(m: nat, n: nat, k: nat)
    requires m <= n
    ensures DropDigits(m, k) <= DropDigits(n, k)
  {
    if k > 0 {
      LeadingMonotone(m / 10, n / 10, k - 1);
    }
  }

  // Among numbers of equally many digits the greatest has the greatest text.
  lemma BelowGreatest(n: nat, b: nat, top: nat)
    requires b <= top && |Render(n)| <= |Render(b)| == |Render(top)|
    requires TextLe(Render(n), Render(b))
    ensures TextLe(Render(n), Render(top))
  {
    TextOrder(n, b);
    TextOrder(n, top);
    LeadingMonotone(b, top, |Render(b)| - |Render(n)|);
  }
}
