/**
 * What `scg_sorted` (fetch.py:231-253) promises about its result, proved about
 * the model in ScgSort: it is a permutation of the table, ordered by the chosen
 * key (non-increasing when `reverse` is set), and stable among equal keys.
 */
module ScgSortFacts {
  import opened ScgSort

  /** `a <= b` in the key order. */
  predicate KeyLe(a: Key, b: Key)
  {
    KeyLt(a, b) || a == b
  }

  /** The "must come before" relation is a strict weak order whose ties are exactly the equal keys. */
  lemma BeforeOrder(field: Field, reverse: bool, a: Entry, b: Entry, c: Entry)
    ensures Before(field, reverse, a, b) ==> !Before(field, reverse, b, a)
    ensures !Before(field, reverse, a, b) && !Before(field, reverse, b, c) ==> !Before(field, reverse, a, c)
    ensures !Before(field, reverse, a, b) && !Before(field, reverse, b, a) <==> KeyOf(field, a) == KeyOf(field, b)
  {
    var ka, kb, kc := KeyOf(field, a), KeyOf(field, b), KeyOf(field, c);
    KeyLtOrder(ka, kb, ka);
    KeyLtOrder(kb, ka, kb);
    KeyLtOrder(ka, kb, kc);
    KeyLtOrder(kb, ka, kc);
    KeyLtOrder(ka, kc, kb);
    KeyLtOrder(kc, ka, kb);
    KeyLtOrder(kb, kc, ka);
    KeyLtOrder(kc, kb, ka);
  }

  /** Entries one of which must precede the other have different keys. */
  lemma BeforeKeysDiffer(field: Field, reverse: bool, a: Entry, b: Entry)
    requires Before(field, reverse, a, b)
    ensures KeyOf(field, a) != KeyOf(field, b)
  {
    KeyLtOrder(KeyOf(field, a), KeyOf(field, b), KeyOf(field, a));
  }

  /** Appending an entry that need not precede any entry keeps a table sorted. */
  lemma SortedSnoc(field: Field, reverse: bool, r: seq<Entry>, x: Entry)
    requires Sorted(field, reverse, r)
    requires forall i | 0 <= i < |r| :: !Before(field, reverse, x, r[i])
    ensures Sorted(field, reverse, r + [x])
  {
    var r' := r + [x];
    forall i, j | 0 <= i < j < |r'| ensures !Before(field, reverse, r'[j], r'[i]) {
      assert r'[i] == r[i];
      if j < |r| {
        assert r'[j] == r[j];
      }
    }
  }

  /** An entry that must precede the last entry is inserted in front of it. */
  lemma InsertSortedBefore(field: Field, reverse: bool, r: seq<Entry>, x: Entry)
    requires |r| > 0 && Sorted(field, reverse, r) && Before(field, reverse, x, r[|r| - 1])
    requires Sorted(field, reverse, Insert(field, reverse, r[..|r| - 1], x))
    ensures Sorted(field, reverse, Insert(field, reverse, r, x))
  {
    var n := |r| - 1;
    var last := r[n];
    var front := Insert(field, reverse, r[..n], x);
    InsertPermutes(field, reverse, r[..n], x);
    assert Insert(field, reverse, r, x) == front + [last];
    forall i | 0 <= i < |front| ensures !Before(field, reverse, last, front[i]) {
      assert front[i] in multiset(front);
      if front[i] == x {
        BeforeOrder(field, reverse, x, last, x);
      } else {
        assert front[i] in r[..n];
        var k :| 0 <= k < n && r[..n][k] == front[i];
        assert r[k] == front[i];
      }
    }
    SortedSnoc(field, reverse, front, last);
  }

  /** An entry that need not precede the last entry goes at the end. */
  lemma InsertSortedAfter(field: Field, reverse: bool, r: seq<Entry>, x: Entry)
    requires |r| > 0 && Sorted(field, reverse, r) && !Before(field, reverse, x, r[|r| - 1])
    ensures Sorted(field, reverse, Insert(field, reverse, r, x))
  {
    var n := |r| - 1;
    assert Insert(field, reverse, r, x) == r + [x];
    forall i | 0 <= i < |r| ensures !Before(field, reverse, x, r[i]) {
      BeforeOrder(field, reverse, x, r[n], r[i]);
    }
    SortedSnoc(field, reverse, r, x);
  }

  /** Inserting into a sorted table keeps it sorted. */
  lemma {:induction false} InsertSorted(field: Field, reverse: bool, r: seq<Entry>, x: Entry)
    requires Sorted(field, reverse, r)
    ensures Sorted(field, reverse, Insert(field, reverse, r, x))
    decreases |r|
  {
    if |r| > 0 {
      var n := |r| - 1;
      if Before(field, reverse, x, r[n]) {
        assert forall i, j | 0 <= i < j < n :: r[..n][i] == r[i] && r[..n][j] == r[j];
        InsertSorted(field, reverse, r[..n], x);
        InsertSortedBefore(field, reverse, r, x);
      } else {
        InsertSortedAfter(field, reverse, r, x);
      }
    }
  }

  /** `sorted` returns a sorted table. */
  lemma {:induction false} SortSorted(field: Field, reverse: bool, s: seq<Entry>)
    ensures Sorted(field, reverse, Sort(field, reverse, s))
    decreases |s|
  {
    if |s| > 0 {
      SortSorted(field, reverse, s[..|s| - 1]);
      InsertSorted(field, reverse, Sort(field, reverse, s[..|s| - 1]), s[|s| - 1]);
    }
  }

  /** In a sorted table the keys never decrease, or never increase when sorting in reverse. */
  lemma SortedKeys(field: Field, reverse: bool, r: seq<Entry>)
    requires Sorted(field, reverse, r)
    ensures forall i, j | 0 <= i < j < |r| ::
      if reverse then KeyLe(KeyOf(field, r[j]), KeyOf(field, r[i])) else KeyLe(KeyOf(field, r[i]), KeyOf(field, r[j]))
  {
    forall i, j | 0 <= i < j < |r|
      ensures if reverse then KeyLe(KeyOf(field, r[j]), KeyOf(field, r[i])) else KeyLe(KeyOf(field, r[i]), KeyOf(field, r[j]))
    {
      KeyLtOrder(KeyOf(field, r[i]), KeyOf(field, r[j]), KeyOf(field, r[j]));
    }
  }

  /** The entries of a table whose key is `k`, in table order. */
  function WithKey(field: Field, k: Key, s: seq<Entry>): seq<Entry>
  {
    if |s| == 0 then []
    else WithKey(field, k, s[..|s| - 1]) + (if KeyOf(field, s[|s| - 1]) == k then [s[|s| - 1]] else [])
  }

  lemma {:induction false} WithKeyAppend(field: Field, k: Key, a: seq<Entry>, b: seq<Entry>)
    ensures WithKey(field, k, a + b) == WithKey(field, k, a) + WithKey(field, k, b)
    decreases |b|
  {
    if |b| == 0 {
      assert a + b == a;
    } else {
      var n := |b| - 1;
      assert (a + b)[..|a + b| - 1] == a + b[..n];
      assert (a + b)[|a + b| - 1] == b[n];
      WithKeyAppend(field, k, a, b[..n]);
    }
  }

  /** The entries with key `k` of one entry. */
  function Own(field: Field, k: Key, x: Entry): seq<Entry>
  {
    if KeyOf(field, x) == k then [x] else []
  }

  lemma WithKeySnoc(field: Field, k: Key, r: seq<Entry>, x: Entry)
    ensures WithKey(field, k, r + [x]) == WithKey(field, k, r) + Own(field, k, x)
  {
    assert (r + [x])[..|r|] == r;
  }

  /** The step of InsertStable where `x` moves in front of the last entry. */
  lemma InsertStableBefore(field: Field, reverse: bool, r: seq<Entry>, x: Entry, k: Key)
    requires |r| > 0 && Before(field, reverse, x, r[|r| - 1])
    requires WithKey(field, k, Insert(field, reverse, r[..|r| - 1], x)) == WithKey(field, k, r[..|r| - 1]) + Own(field, k, x)
    ensures WithKey(field, k, Insert(field, reverse, r, x)) == WithKey(field, k, r) + Own(field, k, x)
  {
    var n := |r| - 1;
    assert Insert(field, reverse, r, x) == Insert(field, reverse, r[..n], x) + [r[n]];
    assert r[..n] + [r[n]] == r;
    BeforeKeysDiffer(field, reverse, x, r[n]);
    WithKeyPassOver(field, k, Insert(field, reverse, r[..n], x), r[..n], x, r[n]);
  }

  /** An entry of another key appended after `x` leaves `x`'s place among the entries with key `k` unchanged. */
  lemma WithKeyPassOver(field: Field, k: Key, front: seq<Entry>, init: seq<Entry>, x: Entry, last: Entry)
    requires WithKey(field, k, front) == WithKey(field, k, init) + Own(field, k, x)
    requires KeyOf(field, x) != KeyOf(field, last)
    ensures WithKey(field, k, front + [last]) == WithKey(field, k, init + [last]) + Own(field, k, x)
  {
    WithKeySnoc(field, k, front, last);
    WithKeySnoc(field, k, init, last);
    SwapEmpty(WithKey(field, k, init), Own(field, k, x), Own(field, k, last));
  }

  /** Two pieces one of which is empty can be appended in either order. */
  lemma SwapEmpty(w: seq<Entry>, a: seq<Entry>, b: seq<Entry>)
    requires a == [] || b == []
    ensures w + a + b == w + b + a
  {
    if a == [] {
      assert w + a == w && w + b + a == w + b;
    } else {
      assert w + a + b == w + a && w + b == w;
    }
  }

  /** Insertion puts an entry after every entry with the same key. */
  lemma {:induction false} InsertStable(field: Field, reverse: bool, r: seq<Entry>, x: Entry, k: Key)
    ensures WithKey(field, k, Insert(field, reverse, r, x)) == WithKey(field, k, r) + Own(field, k, x)
    decreases |r|
  {
    if |r| == 0 {
      WithKeySnoc(field, k, [], x);
    } else if Before(field, reverse, x, r[|r| - 1]) {
      InsertStable(field, reverse, r[..|r| - 1], x, k);
      InsertStableBefore(field, reverse, r, x, k);
    } else {
      WithKeySnoc(field, k, r, x);
    }
  }

  /** `sorted` is stable: entries with equal keys keep their input order. */
  lemma {:induction false} SortStable(field: Field, reverse: bool, s: seq<Entry>, k: Key)
    ensures WithKey(field, k, Sort(field, reverse, s)) == WithKey(field, k, s)
    decreases |s|
  {
    if |s| > 0 {
      var n := |s| - 1;
      SortStable(field, reverse, s[..n], k);
      InsertStable(field, reverse, Sort(field, reverse, s[..n]), s[n], k);
    }
  }

  /**
   * The table `scg_sorted` returns or writes holds the input entries, sorted by
   * the chosen key and stable among equal keys.
   */
  lemma ScgSortedOrder(path: string, data: seq<Entry>, sortKey: string, reverse: bool, output: bool, k: Key)
    ensures var o := ScgSorted(path, data, sortKey, reverse, output);
      var field := ChooseField(sortKey);
      && multiset(o.items) == multiset(data)
      && Sorted(field, reverse, o.items)
      && WithKey(field, k, o.items) == WithKey(field, k, data)
  {
    SortSorted(ChooseField(sortKey), reverse, data);
    SortStable(ChooseField(sortKey), reverse, data, k);
  }
}
