/**
 * `scg_card_data` of fetch.py (lines 206-222): the rank of every deck is
 * credited to each of its cards (or to each combination of `combo` of its
 * cards) once per copy, in a table keyed by card name (or by the combination's
 * names joined with "; "); cards played fewer than `min_plays` times are
 * dropped. The table keeps Python's insertion order.
 */
module ScgCards {
  import opened Wrappers
  import opened PyStr
  import opened Seqs

  /** A card of a deck as loaded: `[name, quantity]`. */
  datatype ScgCard = ScgCard(name: string, qty: int)

  /** A deck as loaded: its rank (parsed with `int`) and its cards. */
  datatype ScgDeck = ScgDeck(rank: string, cards: seq<ScgCard>)

  /** What one card, or one combination of cards, of a deck adds: a table key and a copy count. */
  datatype Group = Group(key: string, count: int)

  /** A group credited with its deck's rank. */
  datatype Play = Play(key: string, count: int, rank: int)

  /** A table entry: the key and the ranks credited to it, one per play. */
  datatype CardPlays = CardPlays(key: string, ranks: seq<int>)

  /** The exceptions of `scg_card_data`; each aborts the call. */
  datatype ScgError =
    | BadRank(rank: string)   // ValueError from `int(deck['rank'])`
    | NegativeCombo(r: int)   // ValueError from `itertools.combinations` with r < 0

  /** `n * [x]`: n copies of x, none when n is not positive. */
  function Repeat(n: int, x: int): (r: seq<int>)
    ensures |r| == if n > 0 then n else 0
    ensures forall i | 0 <= i < |r| :: r[i] == x
  {
    if n <= 0 then [] else Repeat(n - 1, x) + [x]
  }

  /** Prefixes `x` to every sequence of `cs`. */
  function Prepend<T>(x: T, cs: seq<seq<T>>): (r: seq<seq<T>>)
    ensures |r| == |cs| && forall i | 0 <= i < |cs| :: r[i] == [x] + cs[i]
  {
    seq(|cs|, i requires 0 <= i < |cs| => [x] + cs[i])
  }

  /**
   * `itertools.combinations(s, r)`: the r-element selections of `s` keeping
   * the order of `s`, in lexicographic order of positions.
   */
  function Combinations<T>(s: seq<T>, r: nat): (cs: seq<seq<T>>)
    decreases |s|
  {
    if r == 0 then [[]]
    else if |s| < r then []
    else Prepend(s[0], Combinations(s[1..], r - 1)) + Combinations(s[1..], r)
  }

  /** The names of a combination's cards, in order. */
  function Names(group: seq<ScgCard>): (names: seq<string>)
    ensures |names| == |group| && forall i | 0 <= i < |group| :: names[i] == group[i].name
  {
    seq(|group|, i requires 0 <= i < |group| => group[i].name)
  }

  /** The total quantity of a combination's cards. */
  function TotalQty(group: seq<ScgCard>): int
  {
    Sum(group, (card: ScgCard) => card.qty)
  }

  /** Each card as its own group: its name and its quantity (fetch.py:213-214). */
  function Singles(cards: seq<ScgCard>): (groups: seq<Group>)
    ensures |groups| == |cards|
    ensures forall i | 0 <= i < |cards| :: groups[i] == Group(cards[i].name, cards[i].qty)
  {
    seq(|cards|, i requires 0 <= i < |cards| => Group(cards[i].name, cards[i].qty))
  }

  /** A combination's key (the names joined with "; ") and count (the sum of its quantities), fetch.py:210-211. */
  function ComboGroup(group: seq<ScgCard>): Group
  {
    Group(Join("; ", Names(group)), TotalQty(group))
  }

  /**
   * The groups of one deck: each card by itself when `combo` is 0 (Python's
   * `False`), each `combo`-combination otherwise; a negative `combo` raises.
   */
  function Groups(deck: ScgDeck, combo: int): Result<seq<Group>, ScgError>
  {
    if combo == 0 then Success(Singles(deck.cards))
    else if combo < 0 then Failure(NegativeCombo(combo))
    else
      var combos := Combinations(deck.cards, combo);
      Success(seq(|combos|, i requires 0 <= i < |combos| => ComboGroup(combos[i])))
  }

  /** Each group credited with `rank`. */
  function Attach(groups: seq<Group>, rank: int): (plays: seq<Play>)
    ensures |plays| == |groups|
    ensures forall i | 0 <= i < |groups| :: plays[i] == Play(groups[i].key, groups[i].count, rank)
  {
    seq(|groups|, i requires 0 <= i < |groups| => Play(groups[i].key, groups[i].count, rank))
  }

  /**
   * Every play of the decks, deck after deck, or the first exception: a deck's
   * rank is parsed only when the deck has at least one group.
   */
  function Contributions(data: seq<ScgDeck>, combo: int): Result<seq<Play>, ScgError>
  {
    if |data| == 0 then Success([])
    else
      var deck := data[|data| - 1];
      var init :- Contributions(data[..|data| - 1], combo);
      var groups :- Groups(deck, combo);
      if |groups| == 0 then Success(init)
      else
        match ParseInt(deck.rank)
        case None => Failure(BadRank(deck.rank))
        case Some(rank) => Success(init + Attach(groups, rank))
  }

  function KeysOf(plays: seq<Play>): (keys: seq<string>)
    ensures |keys| == |plays| && forall i | 0 <= i < |plays| :: keys[i] == plays[i].key
  {
    seq(|plays|, i requires 0 <= i < |plays| => plays[i].key)
  }

  /** The list `card_data[key]` after the plays: each play's count copies of its rank, in play order. */
  function RanksOf(plays: seq<Play>, key: string): seq<int>
  {
    if |plays| == 0 then []
    else
      var last := plays[|plays| - 1];
      RanksOf(plays[..|plays| - 1], key) + (if last.key == key then Repeat(last.count, last.rank) else [])
  }

  /** No two entries share a key. */
  predicate DistinctKeys(items: seq<CardPlays>)
  {
    forall i, j | 0 <= i < j < |items| :: items[i].key != items[j].key
  }

  /** `card_data.items()`: one entry per key, keys in order of first play. */
  function Aggregate(plays: seq<Play>): (items: seq<CardPlays>)
    ensures DistinctKeys(items)
    ensures forall i | 0 <= i < |items| :: items[i].ranks == RanksOf(plays, items[i].key)
    ensures forall i | 0 <= i < |items| :: items[i].key in KeysOf(plays)
    ensures forall i | 0 <= i < |plays| :: exists j | 0 <= j < |items| :: items[j].key == plays[i].key
  {
    var keys := Distinct(KeysOf(plays));
    DistinctSpec(KeysOf(plays));
    var items := seq(|keys|, i requires 0 <= i < |keys| => CardPlays(keys[i], RanksOf(plays, keys[i])));
    forall i | 0 <= i < |plays| ensures exists j | 0 <= j < |items| :: items[j].key == plays[i].key {
      assert KeysOf(plays)[i] == plays[i].key;
      var j :| 0 <= j < |keys| && keys[j] == plays[i].key;
      assert items[j].key == plays[i].key;
    }
    items
  }

  /** The entries with at least `minPlays` plays, in table order (fetch.py:222); the play count is the length of the rank list. */
  function MinPlays(items: seq<CardPlays>, minPlays: int): (kept: seq<CardPlays>)
    ensures |kept| <= |items|
  {
    if |items| == 0 then []
    else
      var last := items[|items| - 1];
      var init := MinPlays(items[..|items| - 1], minPlays);
      if |last.ranks| >= minPlays then init + [last] else init
  }

  /**
   * What `scg_card_data` does with its table: with a falsy `output` it
   * returns the table; with a path it writes the table there and returns None.
   */
  datatype CardOutcome = TableReturned(items: seq<CardPlays>) | TableWritten(path: string, items: seq<CardPlays>)

  /** The table of `scg_card_data` on loaded deck data, without the mean and standard deviation. */
  function CardData(data: seq<ScgDeck>, minPlays: int, combo: int): Result<seq<CardPlays>, ScgError>
  {
    var plays :- Contributions(data, combo);
    Success(MinPlays(Aggregate(plays), minPlays))
  }

  lemma KeysOfSnoc(plays: seq<Play>, p: Play)
    ensures KeysOf(plays + [p]) == KeysOf(plays) + [p.key]
  {
  }

  /** De-duplicating one more key appends it when it is new. */
  lemma DistinctSnoc(s: seq<string>, x: string)
    ensures Distinct(s + [x]) == if x in s then Distinct(s) else Distinct(s) + [x]
  {
    DistinctHas(s, x);
    assert (s + [x])[..|s|] == s;
    assert (s + [x])[|s|] == x;
  }

  lemma RanksOfSnoc(plays: seq<Play>, p: Play, key: string)
    ensures RanksOf(plays + [p], key) == RanksOf(plays, key) + (if p.key == key then Repeat(p.count, p.rank) else [])
  {
    assert (plays + [p])[..|plays|] == plays;
  }

  lemma ContributionsStep(data: seq<ScgDeck>, d: nat, combo: int, done: seq<Play>)
    requires d < |data| && Contributions(data[..d], combo) == Success(done)
    ensures Contributions(data[..d + 1], combo) ==
      match Groups(data[d], combo)
      case Failure(e) => Failure(e)
      case Success(groups) =>
        if |groups| == 0 then Success(done)
        else
          match ParseInt(data[d].rank)
          case None => Failure(BadRank(data[d].rank))
          case Some(rank) => Success(done + Attach(groups, rank))
  {
    assert data[..d + 1][..d] == data[..d];
    assert data[..d + 1][d] == data[d];
  }

  lemma {:induction false} ContributionsPrefixFailure(data: seq<ScgDeck>, k: nat, combo: int)
    requires k <= |data| && Contributions(data[..k], combo).Failure?
    ensures Contributions(data, combo) == Contributions(data[..k], combo)
    decreases |data| - k
  {
    if k == |data| {
      assert data[..k] == data;
    } else {
      var n := |data| - 1;
      assert data[..n][..k] == data[..k];
      ContributionsPrefixFailure(data[..n], k, combo);
    }
  }

  /** The table after `plays`: its keys in first-play order, and each key's list of ranks. */
  ghost predicate TableOf(plays: seq<Play>, order: seq<string>, table: map<string, seq<int>>)
  {
    && order == Distinct(KeysOf(plays))
    && (forall k :: k in table <==> k in order)
    && (forall k | k in table :: table[k] == RanksOf(plays, k))
  }

  /** A key is among the distinct keys iff it is among the keys. */
  lemma DistinctHas(s: seq<string>, x: string)
    ensures x in Distinct(s) <==> x in s
  {
    DistinctSpec(s);
    if x in s {
      var i :| 0 <= i < |s| && s[i] == x;
    }
    if x in Distinct(s) {
      var i :| 0 <= i < |Distinct(s)| && Distinct(s)[i] == x;
    }
  }

  /** One `card_data[key] += count * [rank]` step keeps the table in step with the plays. */
  lemma TableStep(plays: seq<Play>, order: seq<string>, table: map<string, seq<int>>, p: Play)
    requires TableOf(plays, order, table)
    ensures var previous := if p.key in table then table[p.key] else [];
      TableOf(plays + [p], if p.key in table then order else order + [p.key],
              table[p.key := previous + Repeat(p.count, p.rank)])
  {
    KeysOfSnoc(plays, p);
    DistinctSnoc(KeysOf(plays), p.key);
    DistinctHas(KeysOf(plays), p.key);
    if p.key in table {
      TableStepPresent(plays, order, table, p);
    } else {
      assert [] + Repeat(p.count, p.rank) == Repeat(p.count, p.rank);
      TableStepAbsent(plays, order, table, p);
    }
  }

  /** The step for a key already in the table: its list grows, the order stays. */
  lemma TableStepPresent(plays: seq<Play>, order: seq<string>, table: map<string, seq<int>>, p: Play)
    requires TableOf(plays, order, table) && p.key in table
    requires Distinct(KeysOf(plays + [p])) == order
    ensures TableOf(plays + [p], order, table[p.key := table[p.key] + Repeat(p.count, p.rank)])
  {
    var table' := table[p.key := table[p.key] + Repeat(p.count, p.rank)];
    assert table'.Keys == table.Keys;
    forall k | k in table' ensures table'[k] == RanksOf(plays + [p], k) {
      RanksOfSnoc(plays, p, k);
      if k == p.key {
        assert table'[k] == RanksOf(plays, k) + Repeat(p.count, p.rank);
      } else {
        assert table'[k] == RanksOf(plays, k);
      }
    }
  }

  /** The step for a new key: it joins the order with just this play's ranks. */
  lemma TableStepAbsent(plays: seq<Play>, order: seq<string>, table: map<string, seq<int>>, p: Play)
    requires TableOf(plays, order, table) && p.key !in table
    requires Distinct(KeysOf(plays + [p])) == order + [p.key]
    requires p.key !in KeysOf(plays)
    ensures TableOf(plays + [p], order + [p.key], table[p.key := Repeat(p.count, p.rank)])
  {
    var table' := table[p.key := Repeat(p.count, p.rank)];
    forall k | k in table' ensures table'[k] == RanksOf(plays + [p], k) {
      RanksOfSnoc(plays, p, k);
      if k == p.key {
        forall i | 0 <= i < |plays| ensures plays[i].key != k {
          assert KeysOf(plays)[i] == plays[i].key;
        }
        RanksOfAbsent(plays, k);
      }
    }
  }

  /** A key that no play has has no ranks. */
  lemma {:induction false} RanksOfAbsent(plays: seq<Play>, key: string)
    requires forall i | 0 <= i < |plays| :: plays[i].key != key
    ensures RanksOf(plays, key) == []
    decreases |plays|
  {
    if |plays| > 0 {
      var n := |plays| - 1;
      assert forall i | 0 <= i < n :: plays[..n][i] == plays[i];
      RanksOfAbsent(plays[..n], key);
    }
  }

  /** The table after the first `j` groups of a deck, one group more. */
  lemma GroupStep(done: seq<Play>, groups: seq<Group>, j: nat, rank: int, order: seq<string>, table: map<string, seq<int>>)
    requires j < |groups| && TableOf(done + Attach(groups[..j], rank), order, table)
    ensures var g := groups[j];
      var previous := if g.key in table then table[g.key] else [];
      TableOf(done + Attach(groups[..j + 1], rank), if g.key in table then order else order + [g.key],
              table[g.key := previous + Repeat(g.count, rank)])
  {
    TableStep(done + Attach(groups[..j], rank), order, table, Play(groups[j].key, groups[j].count, rank));
    AttachSnoc(done, groups, j, rank);
  }

  lemma AttachSnoc(done: seq<Play>, groups: seq<Group>, j: nat, rank: int)
    requires j < |groups|
    ensures done + Attach(groups[..j + 1], rank) == done + Attach(groups[..j], rank) + [Play(groups[j].key, groups[j].count, rank)]
  {
    assert Attach(groups[..j + 1], rank) == Attach(groups[..j], rank) + [Play(groups[j].key, groups[j].count, rank)];
  }

  /**
   * Adds the plays of one deck to the table, group by group, as the inner loops
   * of fetch.py:207-216 do.
   */
  method AddDeck(order: seq<string>, table: map<string, seq<int>>, groups: seq<Group>, rank: int,
                 ghost done: seq<Play>)
    returns (order': seq<string>, table': map<string, seq<int>>)
    requires TableOf(done, order, table)
    ensures TableOf(done + Attach(groups, rank), order', table')
  {
    order', table' := order, table;
    assert done + Attach(groups[..0], rank) == done;
    for j := 0 to |groups|
      invariant TableOf(done + Attach(groups[..j], rank), order', table')
    {
      GroupStep(done, groups, j, rank, order', table');
      var g := groups[j];
      var previous := if g.key in table' then table'[g.key] else [];
      if g.key !in table' {
        order' := order' + [g.key];
      }
      table' := table'[g.key := previous + Repeat(g.count, rank)];
    }
    assert groups[..|groups|] == groups;
  }

  /**
   * `scg_card_data` (fetch.py:202-229) on the loaded decks: the rank table is
   * built deck by deck in a dictionary kept in insertion order, then the entries
   * with at least `minPlays` plays are kept, and returned, or written to
   * `output` when it is a non-empty path (the empty string stands for `False`).
   */
  method ScgCardData(data: seq<ScgDeck>, minPlays: int, combo: int, output: string)
    returns (result: Result<CardOutcome, ScgError>)
    ensures result.Failure? <==> CardData(data, minPlays, combo).Failure?
    ensures result.Failure? ==> result.error == CardData(data, minPlays, combo).error
    ensures result.Success? ==> result.value.items == CardData(data, minPlays, combo).value
    ensures result.Success? ==> (result.value.TableWritten? <==> output != "")
    ensures result.Success? && result.value.TableWritten? ==> result.value.path == output
  {
    var order: seq<string> := [];
    var table: map<string, seq<int>> := map[];
    ghost var done: seq<Play> := [];
    for d := 0 to |data|
      invariant Contributions(data[..d], combo) == Success(done)
      invariant TableOf(done, order, table)
    {
      var deck := data[d];
      ContributionsStep(data, d, combo, done);
      var groups := Groups(deck, combo);
      if groups.Failure? {
        ContributionsPrefixFailure(data, d + 1, combo);
        return Failure(groups.error);
      }
      if |groups.value| > 0 {
        var rank := ParseInt(deck.rank);
        if rank.None? {
          ContributionsPrefixFailure(data, d + 1, combo);
          return Failure(BadRank(deck.rank));
        }
        order, table := AddDeck(order, table, groups.value, rank.value, done);
        done := done + Attach(groups.value, rank.value);
      }
    }
    assert data[..|data|] == data;
    var items := seq(|order|, i requires 0 <= i < |order| && order[i] in table => CardPlays(order[i], table[order[i]]));
    assert items == Aggregate(done);
    var kept := MinPlays(items, minPlays);
    if output != "" {
      return Success(TableWritten(output, kept));
    }
    return Success(TableReturned(kept));
  }
}
