/**
 * `scg_sorted` of fetch.py (lines 231-253): the card table is sorted by the
 * name or by one of its statistics with Python's stable `sorted`, descending
 * by default; except when sorting by name, the result may instead be written
 * next to the input file.
 */
module ScgSort {
  import opened PyStr

  /** The statistics of a card as stored: mean rank, its standard deviation, and the number of plays. */
  datatype Stats = Stats(mean: real, std: real, plays: int)

  /** One stored entry `[name, [mean, std, plays]]`. */
  datatype Entry = Entry(name: string, stats: Stats)

  /** What the entries are compared by: element 0, or element `index` of the statistics. */
  datatype Field = NameField | StatField(index: nat)

  /** A sort key: a string or a number. */
  datatype Key = Text(s: string) | Number(x: real)

  // ---------------------------------------------------------------------------
  // Python's ordering of keys

  /** Python's `<` on strings: code point by code point, a proper prefix first. */
  predicate StrLt(a: string, b: string)
  {
    |b| > 0 && (|a| == 0 || a[0] < b[0] || (a[0] == b[0] && StrLt(a[1..], b[1..])))
  }

  lemma {:induction false} StrLtIrreflexive(a: string)
    ensures !StrLt(a, a)
  {
    if |a| > 0 {
      StrLtIrreflexive(a[1..]);
    }
  }

  lemma {:induction false} StrLtTransitive(a: string, b: string, c: string)
    requires StrLt(a, b) && StrLt(b, c)
    ensures StrLt(a, c)
  {
    if |a| > 0 && a[0] == b[0] && b[0] == c[0] {
      StrLtTransitive(a[1..], b[1..], c[1..]);
    }
  }

  /** Two different strings are ordered one way or the other. */
  lemma {:induction false} StrLtTotal(a: string, b: string)
    requires a != b
    ensures StrLt(a, b) || StrLt(b, a)
  {
    if |a| > 0 && |b| > 0 && a[0] == b[0] {
      assert a == [a[0]] + a[1..] && b == [b[0]] + b[1..];
      StrLtTotal(a[1..], b[1..]);
    }
  }

  /**
   * The strict order on keys. Python compares only strings with strings and
   * numbers with numbers (a mixed comparison raises TypeError); `KeyOfOneKind`
   * shows every key of one sort has the same kind, so the two mixed cases are
   * never reached and are ordered only to keep the relation total.
   */
  predicate KeyLt(a: Key, b: Key)
  {
    match (a, b)
    case (Text(s), Text(t)) => StrLt(s, t)
    case (Number(x), Number(y)) => x < y
    case (Text(_), Number(_)) => true
    case (Number(_), Text(_)) => false
  }

  /** The key order is a strict total order. */
  lemma KeyLtOrder(a: Key, b: Key, c: Key)
    ensures !KeyLt(a, a)
    ensures KeyLt(a, b) && KeyLt(b, c) ==> KeyLt(a, c)
    ensures a != b ==> KeyLt(a, b) || KeyLt(b, a)
  {
    if a.Text? {
      StrLtIrreflexive(a.s);
      if b.Text? && c.Text? && StrLt(a.s, b.s) && StrLt(b.s, c.s) {
        StrLtTransitive(a.s, b.s, c.s);
      }
      if b.Text? && a != b {
        StrLtTotal(a.s, b.s);
      }
    }
  }

  // ---------------------------------------------------------------------------
  // Key choice (fetch.py:237-244)

  /** The sort field named by `sort_key`: any name other than the three known ones means the play count. */
  function ChooseField(sortKey: string): (f: Field)
    ensures f == NameField <==> sortKey == "name"
    ensures f.StatField? ==> f.index < 3
    ensures f == StatField(0) <==> sortKey == "avg_rank"
    ensures f == StatField(1) <==> sortKey == "std_dev_rank"
    ensures f == StatField(2) <==> sortKey !in {"name", "avg_rank", "std_dev_rank"}
  {
    if sortKey == "name" then NameField
    else if sortKey == "avg_rank" then StatField(0)
    else if sortKey == "std_dev_rank" then StatField(1)
    else StatField(2)
  }

  /** `x[0]` or `x[1][k]`. */
  function KeyOf(field: Field, e: Entry): Key
  {
    match field
    case NameField => Text(e.name)
    case StatField(k) =>
      if k == 0 then Number(e.stats.mean)
      else if k == 1 then Number(e.stats.std)
      else Number(e.stats.plays as real)
  }

  /** The keys of one field are all strings or all numbers, so the sort never compares across kinds. */
  lemma KeyOfOneKind(field: Field, a: Entry, b: Entry)
    ensures KeyOf(field, a).Text? <==> KeyOf(field, b).Text?
    ensures KeyOf(field, a).Text? <==> field == NameField
  {
  }

  // ---------------------------------------------------------------------------
  // Stable sort (fetch.py:238, 246)

  /**
   * `a` must come before `b` in the output: its key is smaller, or larger when
   * sorting in reverse. Entries with equal keys are never ordered by this.
   */
  predicate Before(field: Field, reverse: bool, a: Entry, b: Entry)
  {
    if reverse then KeyLt(KeyOf(field, b), KeyOf(field, a)) else KeyLt(KeyOf(field, a), KeyOf(field, b))
  }

  /** No entry is followed by one that must come before it. */
  predicate Sorted(field: Field, reverse: bool, r: seq<Entry>)
  {
    forall i, j | 0 <= i < j < |r| :: !Before(field, reverse, r[j], r[i])
  }

  /** Inserts `x` after every entry it need not precede: after all entries with its key. */
  function Insert(field: Field, reverse: bool, r: seq<Entry>, x: Entry): (r': seq<Entry>)
    ensures |r'| == |r| + 1
  {
    if |r| == 0 then [x]
    else
      var last := r[|r| - 1];
      if Before(field, reverse, x, last) then Insert(field, reverse, r[..|r| - 1], x) + [last]
      else r + [x]
  }

  /** Python's stable `sorted`, as insertion of each entry in input order. */
  function Sort(field: Field, reverse: bool, s: seq<Entry>): (r: seq<Entry>)
    ensures |r| == |s|
  {
    if |s| == 0 then []
    else Insert(field, reverse, Sort(field, reverse, s[..|s| - 1]), s[|s| - 1])
  }

  /** Insertion adds exactly the inserted entry. */
  lemma {:induction false} InsertPermutes(field: Field, reverse: bool, r: seq<Entry>, x: Entry)
    ensures multiset(Insert(field, reverse, r, x)) == multiset(r) + multiset{x}
    decreases |r|
  {
    if |r| > 0 {
      var n := |r| - 1;
      assert r == r[..n] + [r[n]];
      if Before(field, reverse, x, r[n]) {
        InsertPermutes(field, reverse, r[..n], x);
      }
    }
  }

  /** Sorting neither loses, adds nor duplicates an entry. */
  lemma {:induction false} SortPermutes(field: Field, reverse: bool, s: seq<Entry>)
    ensures multiset(Sort(field, reverse, s)) == multiset(s)
    decreases |s|
  {
    if |s| > 0 {
      var n := |s| - 1;
      assert s == s[..n] + [s[n]];
      SortPermutes(field, reverse, s[..n]);
      InsertPermutes(field, reverse, Sort(field, reverse, s[..n]), s[n]);
    }
  }

  /** What `scg_sorted` does with the sorted table. */
  datatype Outcome = Returned(items: seq<Entry>) | Written(path: string, items: seq<Entry>)

  /** The output path: the input path up to its first '.', then the sort key and "_sorted.json" (fetch.py:249). */
  function SortedPath(path: string, sortKey: string): string
  {
    Split(path, '.')[0] + sortKey + "_sorted.json"
  }

  /**
   * `scg_sorted` on the loaded table: sorting by name always returns; any
   * other key writes the sorted table when `output` is set and returns it
   * otherwise.
   */
  function ScgSorted(path: string, data: seq<Entry>, sortKey: string, reverse: bool, output: bool): (o: Outcome)
    ensures multiset(o.items) == multiset(data)
    ensures sortKey == "name" ==> o.Returned?
    ensures o.Written? <==> sortKey != "name" && output
    ensures o.Written? ==> o.path == SortedPath(path, sortKey)
  {
    var field := ChooseField(sortKey);
    SortPermutes(field, reverse, data);
    if field == NameField then Returned(Sort(field, reverse, data))
    else
      var sorted := Sort(field, reverse, data);
      if output then Written(SortedPath(path, sortKey), sorted) else Returned(sorted)
  }
}
