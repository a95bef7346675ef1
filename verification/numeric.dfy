/** Numbers as the cleaning pipeline reads them out of text, and the median
    that pandas' Series.median computes over the non-null values. */
module Numeric {
  import opened Wrappers

  // ---------------------------------------------------------------------
  // Reading a number out of text
  // ---------------------------------------------------------------------

  predicate IsDigit(c: char) {
    '0' <= c <= '9'
  }

  predicate AllDigits(s: string) {
    forall i | 0 <= i < |s| :: IsDigit(s[i])
  }

  function DigitValue(c: char): nat
    requires IsDigit(c)
  {
    c as int - '0' as int
  }

  /** The value of a run of decimal digits, most significant digit first. */
  function DigitsValue(s: string): nat
    requires AllDigits(s)
  {
    if s == [] then 0 else 10 * DigitsValue(s[..|s| - 1]) + DigitValue(s[|s| - 1])
  }

  function Pow10(n: nat): (p: nat)
    ensures p > 0
  {
    if n == 0 then 1 else 10 * Pow10(n - 1)
  }

  /** Position of the first '.', or |s| when there is none. */
  function DotIndex(s: string): (k: nat)
    ensures k <= |s|
    ensures forall i | 0 <= i < k :: s[i] != '.'
    ensures k < |s| ==> s[k] == '.'
  {
    if s == [] then 0
    else if s[0] == '.' then 0
    else 1 + DotIndex(s[1..])
  }

  /** Digits, optionally followed by '.' and more digits; at least one digit in all. */
  function ParseUnsigned(s: string): Option<real> {
    var k := DotIndex(s);
    var whole := s[..k];
    var frac := if k < |s| then s[k + 1..] else [];
    if AllDigits(whole) && AllDigits(frac) && |whole| + |frac| > 0 then
      Some(DecimalValue(whole, frac))
    else
      None
  }

  /** The value of whole.frac. */
  function DecimalValue(whole: string, frac: string): real
    requires AllDigits(whole) && AllDigits(frac)
  {
    DigitsValue(whole) as real + DigitsValue(frac) as real / Pow10(|frac|) as real
  }

  /** The number a piece of text denotes, or None when it does not read as
      one: an optional sign followed by an unsigned decimal. */
  function ParseNumber(s: string): (r: Option<real>)
    ensures r.Some? ==> exists i | 0 <= i < |s| :: IsDigit(s[i])
  {
    if |s| > 0 && s[0] == '-' then
      match ParseUnsigned(s[1..])
      case Some(x) => Some(-x)
      case None => None
    else if |s| > 0 && s[0] == '+' then
      ParseUnsigned(s[1..])
    else
      ParseUnsigned(s)
  }

  /** Decimal digits of n, without leading zeros. */
  function NatDigits(n: nat): (s: string)
    ensures AllDigits(s) && |s| > 0
  {
    var d := ('0' as int + n % 10) as char;
    if n < 10 then [d] else NatDigits(n / 10) + [d]
  }

  /** The decimal rendering of an integer, with '-' for negatives. */
  function FormatInt(i: int): string {
    if i < 0 then "-" + NatDigits(-i) else NatDigits(i)
  }

  lemma {:induction false} NatDigitsValue(n: nat)
    ensures DigitsValue(NatDigits(n)) == n
  {
    var s := NatDigits(n);
    if n >= 10 {
      NatDigitsValue(n / 10);
      assert s[..|s| - 1] == NatDigits(n / 10);
    }
  }

  /** A run of digits, with no '.', is an unsigned decimal of its value. */
  lemma ParseDigits(s: string)
    requires AllDigits(s) && |s| > 0
    ensures ParseUnsigned(s) == Some(DigitsValue(s) as real)
  {
    DotIndexOfDigits(s);
    assert s[..|s|] == s;
    assert DecimalValue(s, []) == DigitsValue(s) as real;
  }

  /** A run of digits reads as the number it denotes. */
  lemma ParsePlainDigits(s: string)
    requires AllDigits(s) && |s| > 0
    ensures ParseNumber(s) == Some(DigitsValue(s) as real)
  {
    assert IsDigit(s[0]);
    ParseDigits(s);
  }

  /** Text starting with '-' reads as the negation of what follows. */
  lemma ParseAfterMinus(s: string, x: real)
    requires ParseUnsigned(s) == Some(x)
    ensures ParseNumber("-" + s) == Some(-x)
  {
    assert ("-" + s)[1..] == s;
  }

  /** Text written as a decimal integer reads back as that integer. */
  lemma ParseFormatInt(i: int)
    ensures ParseNumber(FormatInt(i)) == Some(i as real)
  {
    var n: nat := if i < 0 then -i else i;
    NatDigitsValue(n);
    if i < 0 {
      ParseDigits(NatDigits(n));
      ParseAfterMinus(NatDigits(n), n as real);
    } else {
      ParsePlainDigits(NatDigits(n));
    }
  }

  lemma {:induction false} DotIndexOfDigits(s: string)
    requires AllDigits(s)
    ensures DotIndex(s) == |s|
  {
    if s != [] {
      DotIndexOfDigits(s[1..]);
    }
  }

  // ---------------------------------------------------------------------
  // Sorting and the median
  // ---------------------------------------------------------------------

  predicate Sorted(s: seq<real>) {
    forall i, j | 0 <= i < j < |s| :: s[i] <= s[j]
  }

  function Insert(x: real, s: seq<real>): (t: seq<real>)
    requires Sorted(s)
    ensures Sorted(t)
    ensures multiset(t) == multiset(s) + multiset{x}
  {
    if s == [] || x <= s[0] then
      SortedCons(x, s);
      [x] + s
    else
      var rest := Insert(x, s[1..]);
      assert s == [s[0]] + s[1..];
      BoundedInsert(s[0], x, s[1..], rest);
      SortedCons(s[0], rest);
      [s[0]] + rest
  }

  /** A value no larger than the first of a sorted sequence, or than all
      of it, can go in front. */
  lemma SortedCons(y: real, s: seq<real>)
    requires Sorted(s)
    requires (s != [] ==> y <= s[0]) || forall i | 0 <= i < |s| :: y <= s[i]
    ensures Sorted([y] + s)
  {
    var t := [y] + s;
    forall i, j | 0 <= i < j < |t|
      ensures t[i] <= t[j]
    {
      if i > 0 {
        assert t[i] == s[i - 1] && t[j] == s[j - 1];
      } else if s != [] && y <= s[0] {
        assert t[j] == s[j - 1] && s[0] <= s[j - 1];
      }
    }
  }

  /** A lower bound of x and of a sorted s bounds everything x inserted
      into s can hold. */
  lemma BoundedInsert(y: real, x: real, s: seq<real>, rest: seq<real>)
    requires y <= x && forall i | 0 <= i < |s| :: y <= s[i]
    requires multiset(rest) == multiset(s) + multiset{x}
    ensures forall k | 0 <= k < |rest| :: y <= rest[k]
  {
    forall k | 0 <= k < |rest|
      ensures y <= rest[k]
    {
      assert rest[k] in multiset(rest);
      if rest[k] != x {
        assert rest[k] in multiset(s);
        assert rest[k] in s;
      }
    }
  }

  /** Insertion sort into ascending order. */
  function Sort(s: seq<real>): (t: seq<real>)
    ensures Sorted(t)
    ensures multiset(t) == multiset(s)
  {
    if s == [] then []
    else
      assert s == [s[0]] + s[1..];
      Insert(s[0], Sort(s[1..]))
  }

  /** The middle value of an ascending sequence, or the mean of the two
      middle ones when the count is even. */
  function Middle(t: seq<real>): real
    requires t != []
  {
    var n := |t|;
    if n % 2 == 1 then t[n / 2] else (t[n / 2 - 1] + t[n / 2]) / 2.0
  }

  /** The median of the values: the middle one of the sorted values, or the
      mean of the two middle ones when their count is even; None when there
      are no values. */
  function Median(xs: seq<real>): (m: Option<real>)
    ensures m.None? <==> xs == []
  {
    if xs == [] then None
    else
      var t := Sort(xs);
      SortLength(xs);
      Some(Middle(t))
  }

  lemma SortLength(xs: seq<real>)
    ensures |Sort(xs)| == |xs|
  {
    assert |multiset(Sort(xs))| == |multiset(xs)|;
  }

  /** How many values lie at or below m (below == true) or at or above m. */
  function CountSide(xs: seq<real>, m: real, below: bool): (c: nat)
    ensures c <= |xs|
  {
    if xs == [] then 0
    else (if (if below then xs[0] <= m else xs[0] >= m) then 1 else 0) + CountSide(xs[1..], m, below)
  }

  lemma {:induction false} CountSideAppend(a: seq<real>, b: seq<real>, m: real, below: bool)
    ensures CountSide(a + b, m, below) == CountSide(a, m, below) + CountSide(b, m, below)
  {
    if a == [] {
      assert a + b == b;
    } else {
      assert (a + b)[0] == a[0];
      assert (a + b)[1..] == a[1..] + b;
      CountSideAppend(a[1..], b, m, below);
    }
  }

  /** The sequence without its element at position k. */
  function Without(ys: seq<real>, k: nat): seq<real>
    requires k < |ys|
  {
    ys[..k] + ys[k + 1..]
  }

  lemma WithoutMultiset(ys: seq<real>, k: nat)
    requires k < |ys|
    ensures multiset(Without(ys, k)) == multiset(ys) - multiset{ys[k]}
  {
    assert ys == ys[..k] + [ys[k]] + ys[k + 1..];
    assert multiset(ys) == multiset(ys[..k]) + multiset{ys[k]} + multiset(ys[k + 1..]);
  }

  lemma WithoutCount(ys: seq<real>, k: nat, m: real, below: bool)
    requires k < |ys|
    ensures CountSide(ys, m, below) == CountSide(Without(ys, k), m, below) + CountSide([ys[k]], m, below)
  {
    assert ys == (ys[..k] + [ys[k]]) + ys[k + 1..];
    CountSideAppend(ys[..k] + [ys[k]], ys[k + 1..], m, below);
    CountSideAppend(ys[..k], [ys[k]], m, below);
    CountSideAppend(ys[..k], ys[k + 1..], m, below);
  }

  lemma {:induction false} CountSidePerm(xs: seq<real>, ys: seq<real>, m: real, below: bool)
    requires multiset(xs) == multiset(ys)
    ensures CountSide(xs, m, below) == CountSide(ys, m, below)
  {
    if xs == [] {
      assert |ys| == |multiset(ys)| == 0;
    } else {
      var x := xs[0];
      assert x in multiset(ys);
      var k :| 0 <= k < |ys| && ys[k] == x;
      WithoutMultiset(ys, k);
      WithoutMultiset(xs, 0);
      assert Without(xs, 0) == xs[1..];
      CountSidePerm(xs[1..], Without(ys, k), m, below);
      WithoutCount(ys, k, m, below);
      WithoutCount(xs, 0, m, below);
    }
  }

  lemma {:induction false} CountSideAll(xs: seq<real>, m: real, below: bool)
    requires forall i | 0 <= i < |xs| :: if below then xs[i] <= m else xs[i] >= m
    ensures CountSide(xs, m, below) == |xs|
  {
    if xs != [] {
      CountSideAll(xs[1..], m, below);
    }
  }

  lemma SortedCountBelow(t: seq<real>, k: nat, m: real)
    requires Sorted(t) && k < |t| && t[k] <= m
    ensures CountSide(t, m, true) >= k + 1
  {
    assert t == t[..k + 1] + t[k + 1..];
    CountSideAppend(t[..k + 1], t[k + 1..], m, true);
    CountSideAll(t[..k + 1], m, true);
  }

  lemma SortedCountAbove(t: seq<real>, k: nat, m: real)
    requires Sorted(t) && k < |t| && t[k] >= m
    ensures CountSide(t, m, false) >= |t| - k
  {
    assert t == t[..k] + t[k..];
    CountSideAppend(t[..k], t[k..], m, false);
    CountSideAll(t[k..], m, false);
  }

  /** At least half of the values lie at or below the median, and at least
      half lie at or above it. */
  lemma MedianSplitsValues(xs: seq<real>)
    requires xs != []
    ensures 2 * CountSide(xs, Median(xs).value, true) >= |xs|
    ensures 2 * CountSide(xs, Median(xs).value, false) >= |xs|
  {
    var t := Sort(xs);
    SortLength(xs);
    var n := |t|;
    var m := Middle(t);
    assert Median(xs).value == m;
    CountSidePerm(xs, t, m, true);
    CountSidePerm(xs, t, m, false);
    // the values up to index lo are at or below m; those from hi on are at or above it
    var lo := if n % 2 == 1 then n / 2 else n / 2 - 1;
    var hi := n / 2;
    assert t[lo] <= t[hi];
    assert t[lo] <= m <= t[hi];
    SortedCountBelow(t, lo, m);
    SortedCountAbove(t, hi, m);
  }

  lemma SortedHeadIsLeast(a: seq<real>, x: real)
    requires Sorted(a) && x in multiset(a)
    ensures a[0] <= x
  {
    var i :| 0 <= i < |a| && a[i] == x;
    assert a[0] <= a[i];
  }

  lemma SortedTail(a: seq<real>)
    requires Sorted(a) && a != []
    ensures Sorted(a[1..])
  {
  }

  lemma SortedSameHead(a: seq<real>, b: seq<real>)
    requires Sorted(a) && Sorted(b) && a != [] && b != []
    requires multiset(a) == multiset(b)
    ensures a[0] == b[0]
    ensures Sorted(a[1..]) && Sorted(b[1..])
    ensures multiset(a[1..]) == multiset(b[1..])
  {
    assert b[0] in multiset(b);
    assert a[0] in multiset(a);
    SortedHeadIsLeast(a, b[0]);
    SortedHeadIsLeast(b, a[0]);
    WithoutMultiset(a, 0);
    WithoutMultiset(b, 0);
    assert Without(a, 0) == a[1..] && Without(b, 0) == b[1..];
    SortedTail(a);
    SortedTail(b);
  }

  lemma {:induction false} SortedUnique(a: seq<real>, b: seq<real>)
    requires Sorted(a) && Sorted(b)
    requires multiset(a) == multiset(b)
    ensures a == b
  {
    assert |a| == |multiset(a)| == |b|;
    if a != [] {
      SortedSameHead(a, b);
      SortedUnique(a[1..], b[1..]);
      assert a == [a[0]] + a[1..] && b == [b[0]] + b[1..];
    }
  }

  /** The median depends only on which values there are, not on their order. */
  lemma MedianOrderFree(xs: seq<real>, ys: seq<real>)
    requires multiset(xs) == multiset(ys)
    ensures Median(xs) == Median(ys)
  {
    SortedUnique(Sort(xs), Sort(ys));
    assert |xs| == |multiset(xs)| == |ys|;
  }

  /** The median of one value is that value. */
  lemma MedianOfOne(xs: seq<real>)
    requires |xs| == 1
    ensures Median(xs) == Some(xs[0])
  {
    assert Sort(xs) == xs by { assert xs[1..] == []; }
  }

  /** Two values sorted: in order, or swapped. */
  lemma SortOfTwo(xs: seq<real>)
    requires |xs| == 2
    ensures Sort(xs) == if xs[0] <= xs[1] then xs else [xs[1], xs[0]]
  {
    var t := xs[1..];
    assert t[1..] == [];
    assert Sort(t) == t;
    assert xs == [xs[0]] + t;
    assert xs[0] > xs[1] ==> Insert(xs[0], t) == [xs[1], xs[0]];
  }

  /** The middle of two values is their mean. */
  lemma MiddleOfTwo(t: seq<real>)
    requires |t| == 2
    ensures Middle(t) == (t[0] + t[1]) / 2.0
  {
  }

  /** The median of two values is their mean. */
  lemma MedianOfTwo(xs: seq<real>)
    requires |xs| == 2
    ensures Median(xs) == Some((xs[0] + xs[1]) / 2.0)
  {
    SortOfTwo(xs);
    MiddleOfTwo(Sort(xs));
  }
}
