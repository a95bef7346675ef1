/** Full-row duplicate detection and removal as DataFrame.duplicated and
    DataFrame.drop_duplicates do it with their default keep='first': an
    element is a duplicate when an equal element occurs earlier. */
module Duplicates {

  predicate Distinct<T(==)>(s: seq<T>) {
    forall i, j | 0 <= i < j < |s| :: s[i] != s[j]
  }

  function Elems<T(==)>(s: seq<T>): set<T> {
    set x | x in s
  }

  /** Element i repeats an element that comes before it. */
  predicate Duplicated<T(==)>(s: seq<T>, i: nat)
    requires i < |s|
  {
    s[i] in s[..i]
  }

  /** How many elements are duplicates (duplicated().sum()). */
  function CountDuplicated<T(==)>(s: seq<T>): (n: nat)
    ensures n <= |s|
  {
    if s == [] then 0
    else CountDuplicated(s[..|s| - 1]) + (if Duplicated(s, |s| - 1) then 1 else 0)
  }

  /** The elements that are not duplicates, in their original order. */
  function DropDuplicates<T(==)>(s: seq<T>): (r: seq<T>)
    ensures forall k | 0 <= k < |r| :: r[k] in s
    ensures forall k | 0 <= k < |s| :: s[k] in r
    ensures Distinct(r)
  {
    if s == [] then []
    else
      var init := s[..|s| - 1];
      var last := s[|s| - 1];
      assert s == init + [last];
      DropDuplicates(init) + if Duplicated(s, |s| - 1) then [] else [last]
  }

  /** The position of the first occurrence of x. */
  function FirstIndex<T(==)>(s: seq<T>, x: T): (k: nat)
    requires x in s
    ensures k < |s| && s[k] == x && x !in s[..k]
  {
    if s[0] == x then 0
    else
      assert s[..1 + FirstIndex(s[1..], x)] == [s[0]] + s[1..][..FirstIndex(s[1..], x)];
      1 + FirstIndex(s[1..], x)
  }

  lemma FirstIndexOfPrefix<T>(s: seq<T>, n: nat, x: T)
    requires n <= |s| && x in s[..n]
    ensures FirstIndex(s, x) == FirstIndex(s[..n], x)
  {
    var k := FirstIndex(s[..n], x);
    var j := FirstIndex(s, x);
    assert s[..n][..k] == s[..k];
    assert forall i | 0 <= i < j :: s[..j][i] == s[i];
    assert forall i | 0 <= i < k :: s[..k][i] == s[i];
  }

  /** The kept elements appear in the order of their first occurrences. */
  lemma {:induction false} DropDuplicatesKeepsFirstOrder<T>(s: seq<T>)
    ensures forall a, b | 0 <= a < b < |DropDuplicates(s)| ::
      FirstIndex(s, DropDuplicates(s)[a]) < FirstIndex(s, DropDuplicates(s)[b])
  {
    if s != [] {
      var n := |s| - 1;
      var init := s[..n];
      var r0 := DropDuplicates(init);
      var r := DropDuplicates(s);
      DropDuplicatesKeepsFirstOrder(init);
      forall a, b | 0 <= a < b < |r|
        ensures FirstIndex(s, r[a]) < FirstIndex(s, r[b])
      {
        assert r[a] == r0[a] && r[a] in init;
        FirstIndexOfPrefix(s, n, r[a]);
        if b < |r0| {
          assert r[b] == r0[b] && r[b] in init;
          FirstIndexOfPrefix(s, n, r[b]);
        } else {
          assert r[b] == s[n] && s[n] !in init;
          assert FirstIndex(s, r[b]) == n;
        }
      }
    }
  }

  lemma {:induction false} DistinctElemsCard<T>(s: seq<T>)
    requires Distinct(s)
    ensures |Elems(s)| == |s|
  {
    if s != [] {
      var init := s[..|s| - 1];
      DistinctElemsCard(init);
      assert Elems(s) == Elems(init) + {s[|s| - 1]};
      assert s[|s| - 1] !in Elems(init);
    }
  }

  /** Removing duplicates removes exactly the elements duplicated() flags, and
      leaves one element per distinct value. */
  lemma {:induction false} DropDuplicatesCount<T>(s: seq<T>)
    ensures |DropDuplicates(s)| == |s| - CountDuplicated(s)
    ensures |DropDuplicates(s)| == |Elems(s)|
  {
    if s != [] {
      DropDuplicatesCount(s[..|s| - 1]);
    }
    var r := DropDuplicates(s);
    DistinctElemsCard(r);
    assert Elems(r) == Elems(s);
  }

  /** A prefix of a sequence without duplicates has none either, and the
      last element does not repeat an earlier one. */
  lemma DistinctInit<T>(s: seq<T>)
    requires Distinct(s) && s != []
    ensures Distinct(s[..|s| - 1])
    ensures !Duplicated(s, |s| - 1)
  {
    var n := |s| - 1;
    forall i, j | 0 <= i < j < n
      ensures s[..n][i] != s[..n][j]
    {
      assert s[..n][i] == s[i] && s[..n][j] == s[j];
    }
    forall k | 0 <= k < n
      ensures s[..n][k] != s[n]
    {
      assert s[..n][k] == s[k];
    }
  }

  /** A sequence without duplicates is left as it is. */
  lemma {:induction false} DistinctUnchanged<T>(s: seq<T>)
    requires Distinct(s)
    ensures DropDuplicates(s) == s
    ensures CountDuplicated(s) == 0
  {
    if s != [] {
      var init := s[..|s| - 1];
      DistinctInit(s);
      DistinctUnchanged(init);
      assert DropDuplicates(s) == init + [s[|s| - 1]];
      assert s == init + [s[|s| - 1]];
    }
  }

  /** When duplicated() flags nothing there is nothing to drop. */
  lemma NothingFlaggedNothingDropped<T>(s: seq<T>)
    requires CountDuplicated(s) == 0
    ensures DropDuplicates(s) == s
  {
    DropDuplicatesCount(s);
    DropDuplicatesIsPrefixFiltered(s);
  }

  /** Every element kept comes from the input, and the result is the input
      when nothing is dropped. */
  lemma {:induction false} DropDuplicatesIsPrefixFiltered<T>(s: seq<T>)
    ensures |DropDuplicates(s)| == |s| ==> DropDuplicates(s) == s
  {
    if s != [] && |DropDuplicates(s)| == |s| {
      var n := |s| - 1;
      var init := s[..n];
      var r0 := DropDuplicates(init);
      DropDuplicatesCount(init);
      assert |r0| <= |init|;
      assert DropDuplicates(s) == r0 + if Duplicated(s, n) then [] else [s[n]];
      assert !Duplicated(s, n) && |r0| == |init|;
      DropDuplicatesIsPrefixFiltered(init);
      assert s == init + [s[n]];
    }
  }

  /** Dropping duplicates a second time changes nothing. */
  lemma DropDuplicatesIdempotent<T>(s: seq<T>)
    ensures DropDuplicates(DropDuplicates(s)) == DropDuplicates(s)
  {
    DistinctUnchanged(DropDuplicates(s));
  }
}
