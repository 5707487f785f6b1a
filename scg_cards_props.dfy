/**
 * What `scg_card_data` (fetch.py:202-229) computes, proved about the model in
 * ScgCards: how many ranks a key collects, where they come from, which
 * exceptions end the call, which entries survive the `min_plays` filter, and
 * the itertools facts its combination mode rests on.
 */
module ScgCardFacts {
  import opened Wrappers
  import opened PyStr
  import opened Seqs
  import opened ScgCards

  // ---------------------------------------------------------------------------
  // itertools.combinations

  /** The binomial coefficient by Pascal's rule. */
  function Binomial(n: nat, r: nat): nat
  {
    if r == 0 then 1 else if n < r then 0 else Binomial(n - 1, r - 1) + Binomial(n - 1, r)
  }

  /** There are n-choose-r combinations of r out of n cards. */
  lemma {:induction false} CombinationsCount<T>(s: seq<T>, r: nat)
    ensures |Combinations(s, r)| == Binomial(|s|, r)
    decreases |s|
  {
    if r == 0 {
      assert Combinations(s, r) == [[]];
    } else if |s| < r {
      assert Combinations(s, r) == [];
    } else {
      var firsts := Combinations(s[1..], r - 1);
      var rest := Combinations(s[1..], r);
      CombinationsCount(s[1..], r - 1);
      CombinationsCount(s[1..], r);
      assert |s[1..]| == |s| - 1;
      assert Combinations(s, r) == Prepend(s[0], firsts) + rest;
      assert |Combinations(s, r)| == |firsts| + |rest|;
      assert Binomial(|s|, r) == Binomial(|s| - 1, r - 1) + Binomial(|s| - 1, r);
    }
  }

  /** `c` is `s` with some elements removed, the rest kept in order. */
  ghost predicate IsSubsequence<T>(c: seq<T>, s: seq<T>)
    decreases |s|
  {
    |c| == 0 || (|s| > 0 && ((c[0] == s[0] && IsSubsequence(c[1..], s[1..])) || IsSubsequence(c, s[1..])))
  }

  /** Every combination lists its cards in deck order, each position at most once. */
  lemma {:induction false} CombinationsInOrder<T>(s: seq<T>, r: nat, c: seq<T>)
    requires c in Combinations(s, r)
    ensures |c| == r && IsSubsequence(c, s)
    decreases |s|
  {
    if r > 0 {
      var firsts := Prepend(s[0], Combinations(s[1..], r - 1));
      if c in firsts {
        var i :| 0 <= i < |firsts| && firsts[i] == c;
        var rest := Combinations(s[1..], r - 1)[i];
        CombinationsInOrder(s[1..], r - 1, rest);
        assert c[1..] == rest;
      } else {
        CombinationsInOrder(s[1..], r, c);
      }
    }
  }

  /** A subsequence is no longer than the sequence it is taken from. */
  lemma {:induction false} SubsequenceShorter<T>(c: seq<T>, s: seq<T>)
    requires IsSubsequence(c, s)
    ensures |c| <= |s|
    decreases |s|
  {
    if |c| > 0 {
      if c[0] == s[0] && IsSubsequence(c[1..], s[1..]) {
        SubsequenceShorter(c[1..], s[1..]);
      } else {
        SubsequenceShorter(c, s[1..]);
      }
    }
  }

  /** Every selection of r cards in deck order is one of the r-combinations. */
  lemma {:induction false} SubsequenceInCombinations<T>(s: seq<T>, c: seq<T>)
    requires IsSubsequence(c, s)
    ensures c in Combinations(s, |c|)
    decreases |s|
  {
    SubsequenceShorter(c, s);
    if |c| > 0 {
      var r := |c|;
      var firsts := Combinations(s[1..], r - 1);
      var rest := Combinations(s[1..], r);
      assert Combinations(s, r) == Prepend(s[0], firsts) + rest;
      if c[0] == s[0] && IsSubsequence(c[1..], s[1..]) {
        SubsequenceInCombinations(s[1..], c[1..]);
        PrependMember(s[0], firsts, c[1..]);
        assert [s[0]] + c[1..] == c;
      } else {
        SubsequenceInCombinations(s[1..], c);
      }
    }
  }

  lemma PrependMember<T>(x: T, cs: seq<seq<T>>, c: seq<T>)
    requires c in cs
    ensures [x] + c in Prepend(x, cs)
  {
    var k :| 0 <= k < |cs| && cs[k] == c;
    assert Prepend(x, cs)[k] == [x] + c;
  }

  /** The r-combinations are exactly the selections of r cards in deck order. */
  lemma CombinationsExactly<T>(s: seq<T>, r: nat, c: seq<T>)
    ensures c in Combinations(s, r) <==> |c| == r && IsSubsequence(c, s)
  {
    if c in Combinations(s, r) {
      CombinationsInOrder(s, r, c);
    }
    if |c| == r && IsSubsequence(c, s) {
      SubsequenceInCombinations(s, c);
    }
  }

  /** Combinations of one card are the cards themselves, in order. */
  lemma {:induction false} CombinationsOfOne<T>(s: seq<T>)
    ensures |Combinations(s, 1)| == |s|
    ensures forall i | 0 <= i < |s| :: Combinations(s, 1)[i] == [s[i]]
    decreases |s|
  {
    if |s| > 0 {
      CombinationsOfOne(s[1..]);
      var rest := Combinations(s[1..], 1);
      assert Combinations(s[1..], 0) == [[]];
      assert [s[0]] + [] == [s[0]];
      assert Prepend(s[0], [[]]) == [[s[0]]];
      assert Combinations(s, 1) == [[s[0]]] + rest;
      forall i | 1 <= i < |s| ensures Combinations(s, 1)[i] == [s[i]] {
        assert Combinations(s, 1)[i] == rest[i - 1];
      }
    }
  }

  /** A group of one card has that card's name as key and its quantity as count. */
  lemma ComboGroupOfOne(card: ScgCard)
    ensures ComboGroup([card]) == Group(card.name, card.qty)
  {
    assert Names([card]) == [card.name];
    assert Join("; ", [card.name]) == card.name;
    assert [card][..0] == [];
    assert Sum([card], (c: ScgCard) => c.qty) == card.qty;
  }

  /** With `combo` 1 (Python's `True`) a deck has exactly its single-card groups. */
  lemma GroupsOfOne(deck: ScgDeck)
    ensures Groups(deck, 1) == Groups(deck, 0)
  {
    CombinationsOfOne(deck.cards);
    var combos := Combinations(deck.cards, 1);
    forall i | 0 <= i < |combos| ensures ComboGroup(combos[i]) == Group(deck.cards[i].name, deck.cards[i].qty) {
      ComboGroupOfOne(deck.cards[i]);
    }
    assert Groups(deck, 1).value == Singles(deck.cards);
  }

  /** `card_combo=1` and `card_combo=False` produce the same table, or the same exception. */
  lemma {:induction false} ComboOneIsSingleCards(data: seq<ScgDeck>, minPlays: int)
    ensures Contributions(data, 1) == Contributions(data, 0)
    ensures CardData(data, minPlays, 1) == CardData(data, minPlays, 0)
    decreases |data|
  {
    if |data| > 0 {
      ComboOneIsSingleCards(data[..|data| - 1], minPlays);
      GroupsOfOne(data[|data| - 1]);
    }
  }

  // ---------------------------------------------------------------------------
  // Play counts

  /** The copies a play adds to `key`: its count when positive (`n * [rank]` is empty otherwise). */
  function PlayWeight(key: string): Play -> int
  {
    (p: Play) => if p.key == key && p.count > 0 then p.count else 0
  }

  /** The number of plays recorded for a key is the sum of the positive counts of its groups. */
  lemma {:induction false} RanksCount(plays: seq<Play>, key: string)
    ensures |RanksOf(plays, key)| == Sum(plays, PlayWeight(key))
    decreases |plays|
  {
    if |plays| > 0 {
      RanksCount(plays[..|plays| - 1], key);
    }
  }

  /** The copies of a card named `name` in one card list. */
  function CardCopies(name: string): ScgCard -> int
  {
    (card: ScgCard) => if card.name == name && card.qty > 0 then card.qty else 0
  }

  /** The copies of cards named `name` over all decks. */
  function DeckCopies(name: string): ScgDeck -> int
  {
    (deck: ScgDeck) => Sum(deck.cards, CardCopies(name))
  }

  /** Without combinations a deck adds to a card's play count exactly its positive copies of that card. */
  lemma {:induction false} SinglesWeight(cards: seq<ScgCard>, rank: int, name: string)
    ensures Sum(Attach(Singles(cards), rank), PlayWeight(name)) == Sum(cards, CardCopies(name))
    decreases |cards|
  {
    if |cards| > 0 {
      var n := |cards| - 1;
      SinglesWeight(cards[..n], rank, name);
      var plays := Attach(Singles(cards), rank);
      assert plays[..n] == Attach(Singles(cards[..n]), rank);
      assert plays[n] == Play(cards[n].name, cards[n].qty, rank);
    }
  }

  /**
   * Without combinations a card's play count is the number of its copies over
   * all decks: every copy of every deck adds one rank.
   */
  lemma {:induction false} SingleCardPlays(data: seq<ScgDeck>, plays: seq<Play>, name: string)
    requires Contributions(data, 0) == Success(plays)
    ensures |RanksOf(plays, name)| == Sum(data, DeckCopies(name))
    decreases |data|
  {
    RanksCount(plays, name);
    if |data| > 0 {
      var n := |data| - 1;
      var deck := data[n];
      var init := Contributions(data[..n], 0).value;
      SingleCardPlays(data[..n], init, name);
      RanksCount(init, name);
      if |deck.cards| == 0 {
        assert plays == init;
      } else {
        var rank := ParseInt(deck.rank).value;
        assert plays == init + Attach(Singles(deck.cards), rank);
        SumAppend(init, Attach(Singles(deck.cards), rank), PlayWeight(name));
        SinglesWeight(deck.cards, rank, name);
      }
    }
  }

  // ---------------------------------------------------------------------------
  // Where ranks come from

  /** Each recorded rank is the rank of a play of that key with a positive count. */
  lemma {:induction false} RankOfPlay(plays: seq<Play>, key: string, x: int)
    requires x in RanksOf(plays, key)
    ensures exists i | 0 <= i < |plays| :: plays[i].key == key && plays[i].rank == x && plays[i].count > 0
    decreases |plays|
  {
    var n := |plays| - 1;
    if x in RanksOf(plays[..n], key) {
      RankOfPlay(plays[..n], key, x);
      var i :| 0 <= i < n && plays[..n][i].key == key && plays[..n][i].rank == x && plays[..n][i].count > 0;
      assert plays[i] == plays[..n][i];
    } else {
      assert plays[n].key == key && x in Repeat(plays[n].count, plays[n].rank);
    }
  }

  /** A successful run over the decks is the run over all but the last, plus the last deck's plays. */
  lemma ContributionsLast(data: seq<ScgDeck>, combo: int, plays: seq<Play>)
    requires |data| > 0 && Contributions(data, combo) == Success(plays)
    ensures var n := |data| - 1;
      && Contributions(data[..n], combo).Success? && Groups(data[n], combo).Success?
      && var init := Contributions(data[..n], combo).value;
         var groups := Groups(data[n], combo).value;
         || (|groups| == 0 && plays == init)
         || (|groups| > 0 && ParseInt(data[n].rank).Some? && plays == init + Attach(groups, ParseInt(data[n].rank).value))
  {
  }

  /** Every play belongs to a group of a deck whose rank parsed to the play's rank. */
  lemma {:induction false} PlayFromDeck(data: seq<ScgDeck>, combo: int, plays: seq<Play>, i: nat)
    requires Contributions(data, combo) == Success(plays) && i < |plays|
    ensures exists d | 0 <= d < |data| ::
      (ParseInt(data[d].rank) == Some(plays[i].rank)
       && Groups(data[d], combo).Success? && Group(plays[i].key, plays[i].count) in Groups(data[d], combo).value)
    decreases |data|
  {
    var n := |data| - 1;
    ContributionsLast(data, combo, plays);
    var init := Contributions(data[..n], combo).value;
    if i < |init| {
      PlayFromDeck(data[..n], combo, init, i);
      var d :| 0 <= d < n && ParseInt(data[..n][d].rank) == Some(init[i].rank)
        && Groups(data[..n][d], combo).Success? && Group(init[i].key, init[i].count) in Groups(data[..n][d], combo).value;
      assert data[..n][d] == data[d];
      assert plays[i] == init[i];
    } else {
      var groups := Groups(data[n], combo).value;
      var rank := ParseInt(data[n].rank).value;
      assert plays == init + Attach(groups, rank);
      assert plays[i] == Attach(groups, rank)[i - |init|];
      assert groups[i - |init|] == Group(plays[i].key, plays[i].count);
    }
  }

  /** Every rank listed for a card is the parsed rank of a deck that holds that card (or card group). */
  lemma RankFromDeck(data: seq<ScgDeck>, combo: int, plays: seq<Play>, key: string, x: int)
    requires Contributions(data, combo) == Success(plays) && x in RanksOf(plays, key)
    ensures exists d | 0 <= d < |data| ::
      (ParseInt(data[d].rank) == Some(x)
       && Groups(data[d], combo).Success? && exists g | g in Groups(data[d], combo).value :: g.key == key && g.count > 0)
  {
    RankOfPlay(plays, key, x);
    var i :| 0 <= i < |plays| && plays[i].key == key && plays[i].rank == x && plays[i].count > 0;
    PlayFromDeck(data, combo, plays, i);
    var d :| 0 <= d < |data| && ParseInt(data[d].rank) == Some(plays[i].rank)
      && Groups(data[d], combo).Success? && Group(plays[i].key, plays[i].count) in Groups(data[d], combo).value;
    assert Group(key, plays[i].count).key == key;
  }

  /** Every group of every deck is credited with that deck's rank: the converse of `PlayFromDeck`. */
  lemma {:induction false} GroupCredited(data: seq<ScgDeck>, combo: int, plays: seq<Play>, d: nat, g: Group)
    requires Contributions(data, combo) == Success(plays) && d < |data|
    requires Groups(data[d], combo).Success? && g in Groups(data[d], combo).value
    ensures ParseInt(data[d].rank).Some? && Play(g.key, g.count, ParseInt(data[d].rank).value) in plays
    decreases |data|
  {
    var n := |data| - 1;
    ContributionsSplit(data, combo, plays);
    var init := Contributions(data[..n], combo).value;
    if d < n {
      assert data[..n][d] == data[d];
      GroupCredited(data[..n], combo, init, d, g);
      PrefixMember(init, plays, Play(g.key, g.count, ParseInt(data[d].rank).value));
    } else {
      var groups := Groups(data[n], combo).value;
      var j :| 0 <= j < |groups| && groups[j] == g;
      var rank := ParseInt(data[n].rank).value;
      assert plays[|init|..][j] == Attach(groups, rank)[j] == Play(g.key, g.count, rank);
      assert plays[|init| + j] == Play(g.key, g.count, rank);
    }
  }

  /** A successful run's plays start with those of all decks but the last, then hold the last deck's plays. */
  lemma ContributionsSplit(data: seq<ScgDeck>, combo: int, plays: seq<Play>)
    requires |data| > 0 && Contributions(data, combo) == Success(plays)
    ensures var n := |data| - 1;
      && Contributions(data[..n], combo).Success? && Groups(data[n], combo).Success?
      && var init := Contributions(data[..n], combo).value;
         var groups := Groups(data[n], combo).value;
         && |init| <= |plays| && plays[..|init|] == init
         && (|groups| > 0 ==> ParseInt(data[n].rank).Some? && plays[|init|..] == Attach(groups, ParseInt(data[n].rank).value))
  {
    ContributionsLast(data, combo, plays);
  }

  lemma PrefixMember<T>(init: seq<T>, s: seq<T>, x: T)
    requires |init| <= |s| && s[..|init|] == init && x in init
    ensures x in s
  {
    var k :| 0 <= k < |init| && init[k] == x;
    assert s[k] == x;
  }

  /** The copies a group adds to `key`: its count when positive. */
  function GroupCopies(key: string): Group -> int
  {
    (g: Group) => if g.key == key && g.count > 0 then g.count else 0
  }

  /** Crediting groups with a rank adds, to each key, exactly the groups' copies. */
  lemma {:induction false} AttachWeight(groups: seq<Group>, rank: int, key: string)
    ensures Sum(Attach(groups, rank), PlayWeight(key)) == Sum(groups, GroupCopies(key))
    decreases |groups|
  {
    if |groups| > 0 {
      var n := |groups| - 1;
      AttachWeight(groups[..n], rank, key);
      assert Attach(groups, rank)[..n] == Attach(groups[..n], rank);
    }
  }

  /** The copies a combination adds to `key`: its total quantity when its joined names are `key` and it is positive. */
  function ComboCopies(key: string): seq<ScgCard> -> int
  {
    (c: seq<ScgCard>) => if Join("; ", Names(c)) == key && TotalQty(c) > 0 then TotalQty(c) else 0
  }

  /** The copies a deck adds to `key` over all its combinations of `combo` cards. */
  function DeckComboCopies(combo: nat, key: string): ScgDeck -> int
  {
    (deck: ScgDeck) => Sum(Combinations(deck.cards, combo), ComboCopies(key))
  }

  lemma {:induction false} ComboGroupsWeight(cs: seq<seq<ScgCard>>, groups: seq<Group>, key: string)
    requires |groups| == |cs| && forall i | 0 <= i < |cs| :: groups[i] == ComboGroup(cs[i])
    ensures Sum(groups, GroupCopies(key)) == Sum(cs, ComboCopies(key))
    decreases |cs|
  {
    if |cs| > 0 {
      var n := |cs| - 1;
      ComboGroupsWeight(cs[..n], groups[..n], key);
    }
  }

  /**
   * With combinations a key's play count is, over all decks, the total
   * quantity of every combination whose joined names are the key: each
   * r-combination adds its summed quantities in copies of its deck's rank.
   */
  lemma {:induction false} ComboCardPlays(data: seq<ScgDeck>, combo: nat, plays: seq<Play>, key: string)
    requires combo > 0 && Contributions(data, combo) == Success(plays)
    ensures |RanksOf(plays, key)| == Sum(data, DeckComboCopies(combo, key))
    decreases |data|
  {
    RanksCount(plays, key);
    if |data| > 0 {
      var n := |data| - 1;
      var deck := data[n];
      ContributionsLast(data, combo, plays);
      var init := Contributions(data[..n], combo).value;
      ComboCardPlays(data[..n], combo, init, key);
      RanksCount(init, key);
      var combos := Combinations(deck.cards, combo);
      var groups := Groups(deck, combo).value;
      ComboGroupsWeight(combos, groups, key);
      if |groups| == 0 {
        assert plays == init;
      } else {
        var rank := ParseInt(deck.rank).value;
        assert plays == init + Attach(groups, rank);
        SumAppend(init, Attach(groups, rank), PlayWeight(key));
        AttachWeight(groups, rank, key);
      }
    }
  }

  // ---------------------------------------------------------------------------
  // Exceptions

  /** Pascal's rule gives a positive count exactly when there are enough elements to choose from. */
  lemma {:induction false} BinomialPositive(n: nat, r: nat)
    ensures Binomial(n, r) > 0 <==> n >= r
    decreases n
  {
    if r > 0 && n >= r {
      BinomialPositive(n - 1, r - 1);
    }
  }

  /** `int(deck['rank'])` is evaluated for a deck iff the deck has a group: a card, or at least `combo` cards. */
  predicate NeedsRank(deck: ScgDeck, combo: int)
  {
    if combo == 0 then |deck.cards| > 0 else |deck.cards| >= combo
  }

  lemma GroupsNonEmpty(deck: ScgDeck, combo: int)
    requires combo >= 0
    ensures Groups(deck, combo).Success?
    ensures |Groups(deck, combo).value| > 0 <==> NeedsRank(deck, combo)
  {
    if combo > 0 {
      CombinationsCount(deck.cards, combo);
      BinomialPositive(|deck.cards|, combo);
    }
  }

  /** A deck whose rank is needed and that `int` rejects. */
  predicate RankFails(deck: ScgDeck, combo: int)
  {
    NeedsRank(deck, combo) && ParseInt(deck.rank).None?
  }

  /** After a successful prefix, one more deck fails exactly when its rank is needed and does not parse. */
  lemma LastDeckFails(data: seq<ScgDeck>, combo: int)
    requires |data| > 0 && combo >= 0 && Contributions(data[..|data| - 1], combo).Success?
    ensures Contributions(data, combo).Failure? <==> RankFails(data[|data| - 1], combo)
    ensures Contributions(data, combo).Failure? ==> Contributions(data, combo).error == BadRank(data[|data| - 1].rank)
  {
    GroupsNonEmpty(data[|data| - 1], combo);
  }

  /** Deck `d` is the first deck whose rank is needed and does not parse. */
  predicate FirstRankFails(data: seq<ScgDeck>, combo: int, d: int)
  {
    0 <= d < |data| && RankFails(data[d], combo) && forall e | 0 <= e < d :: !RankFails(data[e], combo)
  }

  /** When no earlier deck fails, the call fails exactly when the last deck does, and reports it. */
  lemma FirstBadRankLast(data: seq<ScgDeck>, combo: int)
    requires |data| > 0 && combo >= 0 && Contributions(data[..|data| - 1], combo).Success?
    requires forall d | 0 <= d < |data| - 1 :: !RankFails(data[d], combo)
    ensures Contributions(data, combo).Failure? <==> exists d | 0 <= d < |data| :: RankFails(data[d], combo)
    ensures Contributions(data, combo).Failure? ==>
      FirstRankFails(data, combo, |data| - 1) && Contributions(data, combo).error == BadRank(data[|data| - 1].rank)
  {
    var n := |data| - 1;
    LastDeckFails(data, combo);
    if !RankFails(data[n], combo) {
      forall d | 0 <= d < |data| ensures !RankFails(data[d], combo) {
        if d == n {
        }
      }
    }
  }

  /**
   * With a non-negative `combo` the call fails exactly when some deck with at
   * least one card (at least `combo` cards) has a rank `int` rejects, and it
   * reports the first such deck.
   */
  lemma {:induction false} BadRankFails(data: seq<ScgDeck>, combo: int)
    requires combo >= 0
    ensures Contributions(data, combo).Failure? <==> exists d | 0 <= d < |data| :: RankFails(data[d], combo)
    ensures Contributions(data, combo).Failure? ==>
      exists d :: FirstRankFails(data, combo, d) && Contributions(data, combo).error == BadRank(data[d].rank)
    decreases |data|
  {
    if |data| > 0 {
      var n := |data| - 1;
      var prefix := data[..n];
      BadRankFails(prefix, combo);
      if Contributions(prefix, combo).Failure? {
        var d :| FirstRankFails(prefix, combo, d) && Contributions(prefix, combo).error == BadRank(prefix[d].rank);
        EarlierBadRank(data, combo, d);
      } else {
        forall d | 0 <= d < n ensures !RankFails(data[d], combo) {
          assert prefix[d] == data[d];
        }
        FirstBadRankLast(data, combo);
      }
    }
  }

  /** When an earlier deck already fails, the call reports that deck. */
  lemma EarlierBadRank(data: seq<ScgDeck>, combo: int, d: int)
    requires |data| > 0 && Contributions(data[..|data| - 1], combo).Failure?
    requires FirstRankFails(data[..|data| - 1], combo, d)
    requires Contributions(data[..|data| - 1], combo).error == BadRank(data[..|data| - 1][d].rank)
    ensures Contributions(data, combo).Failure?
    ensures FirstRankFails(data, combo, d) && Contributions(data, combo).error == BadRank(data[d].rank)
  {
    var n := |data| - 1;
    FirstRankFailsGrow(data, n, combo, d);
    ContributionsPrefixFailure(data, n, combo);
  }

  lemma FirstRankFailsGrow(data: seq<ScgDeck>, n: nat, combo: int, d: int)
    requires n <= |data| && FirstRankFails(data[..n], combo, d)
    ensures FirstRankFails(data, combo, d)
  {
    assert data[..n][d] == data[d];
    forall e | 0 <= e < d ensures !RankFails(data[e], combo) {
      assert data[..n][e] == data[e];
    }
  }

  /** A negative `combo` makes the first deck raise, so the call fails exactly when there is a deck. */
  lemma {:induction false} NegativeComboFails(data: seq<ScgDeck>, combo: int, minPlays: int)
    requires combo < 0
    ensures Contributions(data, combo).Failure? <==> |data| > 0
    ensures |data| > 0 ==> Contributions(data, combo).error == NegativeCombo(combo)
    ensures CardData(data, minPlays, combo).Failure? <==> |data| > 0
    ensures |data| > 0 ==> CardData(data, minPlays, combo).error == NegativeCombo(combo)
    decreases |data|
  {
    if |data| > 0 {
      var n := |data| - 1;
      NegativeComboFails(data[..n], combo, minPlays);
      if n > 0 {
        ContributionsPrefixFailure(data, n, combo);
      }
    }
  }

  // ---------------------------------------------------------------------------
  // The returned entries

  /** The table lists its keys in the order of their first plays, as a dict keeps insertion order. */
  lemma AggregateOrder(plays: seq<Play>)
    ensures forall i, j | 0 <= i < j < |Aggregate(plays)| ::
      FirstIndex(KeysOf(plays), Aggregate(plays)[i].key) < FirstIndex(KeysOf(plays), Aggregate(plays)[j].key)
  {
    var keys := Distinct(KeysOf(plays));
    DistinctFirstOrder(KeysOf(plays));
    assert |Aggregate(plays)| == |keys|;
    assert forall i | 0 <= i < |keys| :: Aggregate(plays)[i].key == keys[i];
  }

  /** An entry is returned iff its key was played, it holds every rank of that key, and it has at least `minPlays` of them. */
  lemma CardDataEntries(data: seq<ScgDeck>, minPlays: int, combo: int, x: CardPlays)
    requires Contributions(data, combo).Success?
    ensures var plays := Contributions(data, combo).value;
      x in CardData(data, minPlays, combo).value <==>
        x.key in KeysOf(plays) && x.ranks == RanksOf(plays, x.key) && |x.ranks| >= minPlays
  {
    var plays := Contributions(data, combo).value;
    var items := Aggregate(plays);
    MinPlaysMembers(items, minPlays, x);
    if x.key in KeysOf(plays) && x.ranks == RanksOf(plays, x.key) {
      var i :| 0 <= i < |plays| && KeysOf(plays)[i] == x.key;
      var j :| 0 <= j < |items| && items[j].key == plays[i].key;
      assert items[j] == x;
    }
  }

  /** An entry survives the filter iff it is in the table and has at least `minPlays` plays. */
  lemma {:induction false} MinPlaysMembers(items: seq<CardPlays>, minPlays: int, x: CardPlays)
    ensures x in MinPlays(items, minPlays) <==> x in items && |x.ranks| >= minPlays
    decreases |items|
  {
    if |items| > 0 {
      var n := |items| - 1;
      MinPlaysMembers(items[..n], minPlays, x);
      assert items == items[..n] + [items[n]];
    }
  }

  /** Filtering keeps the order: what survives is the kept entries, in their original order. */
  lemma {:induction false} MinPlaysAppend(a: seq<CardPlays>, b: seq<CardPlays>, minPlays: int)
    ensures MinPlays(a + b, minPlays) == MinPlays(a, minPlays) + MinPlays(b, minPlays)
    decreases |b|
  {
    if |b| == 0 {
      assert a + b == a;
    } else {
      var n := |b| - 1;
      assert (a + b)[..|a + b| - 1] == a + b[..n];
      assert (a + b)[|a + b| - 1] == b[n];
      MinPlaysAppend(a, b[..n], minPlays);
    }
  }

  /** A filter that lets everything through returns the table unchanged. */
  lemma {:induction false} MinPlaysKeepsAll(items: seq<CardPlays>, minPlays: int)
    requires forall i | 0 <= i < |items| :: |items[i].ranks| >= minPlays
    ensures MinPlays(items, minPlays) == items
    decreases |items|
  {
    if |items| > 0 {
      var n := |items| - 1;
      assert forall i | 0 <= i < n :: items[..n][i] == items[i];
      MinPlaysKeepsAll(items[..n], minPlays);
      assert items == items[..n] + [items[n]];
    }
  }

  /** Filtering entries with distinct keys leaves entries with distinct keys. */
  lemma {:induction false} MinPlaysDistinctKeys(items: seq<CardPlays>, minPlays: int)
    requires DistinctKeys(items)
    ensures DistinctKeys(MinPlays(items, minPlays))
    decreases |items|
  {
    if |items| > 0 {
      var n := |items| - 1;
      var prefix := items[..n];
      assert forall i | 0 <= i < n :: prefix[i] == items[i];
      MinPlaysDistinctKeys(prefix, minPlays);
      var init := MinPlays(prefix, minPlays);
      if |items[n].ranks| >= minPlays {
        forall i | 0 <= i < |init| ensures init[i].key != items[n].key {
          MinPlaysMembers(prefix, minPlays, init[i]);
          var k :| 0 <= k < n && prefix[k] == init[i];
        }
        var kept := init + [items[n]];
        assert MinPlays(items, minPlays) == kept;
        forall i, j | 0 <= i < j < |kept| ensures kept[i].key != kept[j].key {
          if j < |init| {
            assert kept[i] == init[i] && kept[j] == init[j];
          }
        }
      } else {
        assert MinPlays(items, minPlays) == init;
      }
    }
  }

  /** No card is listed twice, and with `minPlays` at most 0 every played card is listed. */
  lemma CardDataKeys(data: seq<ScgDeck>, minPlays: int, combo: int)
    requires Contributions(data, combo).Success?
    ensures DistinctKeys(CardData(data, minPlays, combo).value)
    ensures minPlays <= 0 ==> CardData(data, minPlays, combo).value == Aggregate(Contributions(data, combo).value)
  {
    var items := Aggregate(Contributions(data, combo).value);
    MinPlaysDistinctKeys(items, minPlays);
    if minPlays <= 0 {
      MinPlaysKeepsAll(items, minPlays);
    }
  }
}
