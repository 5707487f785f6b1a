/** Generic sequence helpers shared by the models: sums, mapping that can fail, de-duplication. */
module Seqs {
  import opened Wrappers

  /** Sum of `f` over the elements of `s`. */
  function Sum<T>(s: seq<T>, f: T -> int): int
  {
    if |s| == 0 then 0 else Sum(s[..|s| - 1], f) + f(s[|s| - 1])
  }

  lemma {:induction false} SumAppend<T>(a: seq<T>, b: seq<T>, f: T -> int)
    ensures Sum(a + b, f) == Sum(a, f) + Sum(b, f)
    decreases |b|
  {
    if |b| == 0 {
      assert a + b == a;
    } else {
      assert (a + b)[..|a + b| - 1] == a + b[..|b| - 1];
      SumAppend(a, b[..|b| - 1], f);
    }
  }

  /** A sum does not depend on the order of its terms. */
  lemma {:induction false} SumPermutation<T>(a: seq<T>, b: seq<T>, f: T -> int)
    requires multiset(a) == multiset(b)
    ensures Sum(a, f) == Sum(b, f)
    decreases |a|
  {
    if |a| == 0 {
      assert |b| == |multiset(b)| == 0;
    } else {
      var n := |a| - 1;
      var x := a[n];
      assert x in multiset(a);
      assert x in b;
      var k :| 0 <= k < |b| && b[k] == x;
      var rest := b[..k] + b[k + 1..];
      RemoveAt(a, b, k);
      SumPermutation(a[..n], rest, f);
      SumWithout(b, k, f);
    }
  }

  lemma RemoveAt<T>(a: seq<T>, b: seq<T>, k: nat)
    requires |a| > 0 && k < |b| && b[k] == a[|a| - 1]
    requires multiset(a) == multiset(b)
    ensures multiset(b[..k] + b[k + 1..]) == multiset(a[..|a| - 1])
  {
    var n := |a| - 1;
    assert a == a[..n] + [a[n]];
    assert b == b[..k] + [b[k]] + b[k + 1..];
    assert multiset(a) == multiset(a[..n]) + multiset{a[n]};
    assert multiset(b) == multiset(b[..k]) + multiset{b[k]} + multiset(b[k + 1..]);
    assert multiset(b[..k] + b[k + 1..]) == multiset(b[..k]) + multiset(b[k + 1..]);
    var rest := b[..k] + b[k + 1..];
    forall y ensures multiset(rest)[y] == multiset(a[..n])[y] {
      assert multiset(a)[y] == multiset(a[..n])[y] + multiset{a[n]}[y];
      assert multiset(b)[y] == multiset(rest)[y] + multiset{a[n]}[y];
    }
  }

  lemma SumWithout<T>(b: seq<T>, k: nat, f: T -> int)
    requires k < |b|
    ensures Sum(b, f) == Sum(b[..k] + b[k + 1..], f) + f(b[k])
  {
    assert b == b[..k] + ([b[k]] + b[k + 1..]);
    SumAppend(b[..k], [b[k]] + b[k + 1..], f);
    SumAppend([b[k]], b[k + 1..], f);
    SumAppend(b[..k], b[k + 1..], f);
    assert [b[k]][..0] == [];
  }

  /** A sum of non-negative terms is at least the sum of any prefix. */
  lemma {:induction false} SumPrefixBelow<T>(s: seq<T>, k: nat, f: T -> int)
    requires k <= |s|
    requires forall i | 0 <= i < |s| :: f(s[i]) >= 0
    ensures Sum(s[..k], f) <= Sum(s, f)
    decreases |s| - k
  {
    if k < |s| {
      var n := |s| - 1;
      assert s[..n][..k] == s[..k];
      SumPrefixBelow(s[..n], k, f);
      assert s[..n][..k] == s[..k];
    } else {
      assert s[..k] == s;
    }
  }

  /**
   * Applies `f` to every element in order and collects the values; the first
   * failure in order is the result, as a comprehension that raises would do.
   */
  function MapResult<A, B, E>(s: seq<A>, f: A -> Result<B, E>): (r: Result<seq<B>, E>)
    ensures r.Success? <==> forall i | 0 <= i < |s| :: f(s[i]).Success?
    ensures r.Success? ==> |r.value| == |s| && forall i | 0 <= i < |s| :: r.value[i] == f(s[i]).value
    ensures r.Failure? ==>
      exists i | 0 <= i < |s| :: f(s[i]) == Failure(r.error) && forall j | 0 <= j < i :: f(s[j]).Success?
  {
    if |s| == 0 then Success([])
    else
      var n := |s| - 1;
      match MapResult(s[..n], f)
      case Failure(e) => Failure(e)
      case Success(init) =>
        match f(s[n])
        case Failure(e) => Failure(e)
        case Success(y) => Success(init + [y])
  }

  /** The elements of `s` without repetitions, each kept at its first occurrence. */
  function Distinct<T(==)>(s: seq<T>): seq<T>
  {
    if |s| == 0 then []
    else
      var n := |s| - 1;
      var init := Distinct(s[..n]);
      if s[n] in init then init else init + [s[n]]
  }

  /** The first occurrences keep every element and repeat none. */
  lemma {:induction false} DistinctSpec<T>(s: seq<T>)
    ensures forall i | 0 <= i < |Distinct(s)| :: Distinct(s)[i] in s
    ensures forall i | 0 <= i < |s| :: s[i] in Distinct(s)
    ensures forall i, j | 0 <= i < j < |Distinct(s)| :: Distinct(s)[i] != Distinct(s)[j]
  {
    if |s| > 0 {
      var n := |s| - 1;
      DistinctSpec(s[..n]);
      assert s == s[..n] + [s[n]];
    }
  }

  /** The position of the first occurrence of `x` in `s`. */
  function FirstIndex<T(==)>(s: seq<T>, x: T): (i: nat)
    requires x in s
    ensures i < |s| && s[i] == x && x !in s[..i]
  {
    if s[0] == x then 0
    else
      assert s == [s[0]] + s[1..];
      1 + FirstIndex(s[1..], x)
  }

  /** An occurrence with no earlier one is the first occurrence. */
  lemma FirstIndexUnique<T>(s: seq<T>, x: T, k: nat)
    requires k < |s| && s[k] == x && x !in s[..k]
    ensures FirstIndex(s, x) == k
  {
    var i := FirstIndex(s, x);
    assert forall m | 0 <= m < k :: s[..k][m] == s[m];
    assert forall m | 0 <= m < i :: s[..i][m] == s[m];
  }

  /** Appending elements does not move a first occurrence. */
  lemma FirstIndexPrefix<T>(s: seq<T>, t: seq<T>, x: T)
    requires x in s
    ensures x in s + t && FirstIndex(s + t, x) == FirstIndex(s, x)
  {
    var k := FirstIndex(s, x);
    assert (s + t)[..k] == s[..k];
    FirstIndexUnique(s + t, x, k);
  }

  /** `Distinct` lists the elements in the order of their first occurrences. */
  lemma {:induction false} DistinctFirstOrder<T>(s: seq<T>)
    ensures forall i, j | 0 <= i < j < |Distinct(s)| ::
      Distinct(s)[i] in s && Distinct(s)[j] in s && FirstIndex(s, Distinct(s)[i]) < FirstIndex(s, Distinct(s)[j])
  {
    if |s| > 0 {
      var n := |s| - 1;
      var init := Distinct(s[..n]);
      var d := Distinct(s);
      DistinctFirstOrder(s[..n]);
      DistinctSpec(s[..n]);
      assert s == s[..n] + [s[n]];
      forall i, j | 0 <= i < j < |d| ensures d[i] in s && d[j] in s && FirstIndex(s, d[i]) < FirstIndex(s, d[j]) {
        assert d[i] == init[i];
        FirstIndexPrefix(s[..n], [s[n]], init[i]);
        if j < |init| {
          assert d[j] == init[j];
          FirstIndexPrefix(s[..n], [s[n]], init[j]);
        } else {
          assert d[j] == s[n] && s[n] !in s[..n];
          FirstIndexUnique(s, s[n], n);
        }
      }
    }
  }

  /** A sequence without repetitions has as many elements as its set. */
  lemma {:induction false} DistinctCardinality<T>(s: seq<T>)
    requires forall i, j | 0 <= i < j < |s| :: s[i] != s[j]
    ensures |set x | x in s| == |s|
  {
    if |s| > 0 {
      var n := |s| - 1;
      DistinctCardinality(s[..n]);
      assert s == s[..n] + [s[n]];
      assert (set x | x in s) == (set x | x in s[..n]) + {s[n]};
      assert s[n] !in (set x | x in s[..n]);
    }
  }
}
