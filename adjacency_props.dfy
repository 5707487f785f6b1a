/**
 * What the interaction matrix means. A cell has a closed form (copies of the
 * row card on one side times the lines of the column card on the other), it is
 * only touched by cards that met, it never decreases, and it does not depend on
 * the order of games, matchups or tournaments. Error and skip cases of a
 * matchup, the record format and a few worked matchups complete the picture.
 */
module AdjacencyFacts {
  import opened Wrappers
  import opened PyStr
  import opened Seqs
  import opened CardIndex
  import opened Adjacency

  // ---------------------------------------------------------------------------
  // A cell in closed form

  /** Total copy count of the lines of `cards` whose identifier is `x`. */
  function Copies(cards: seq<Card>, x: int): int
  {
    if |cards| == 0 then 0
    else Copies(cards[..|cards| - 1], x) + (if cards[|cards| - 1].id == x then cards[|cards| - 1].qty else 0)
  }

  /** Number of lines of `cards` whose identifier is `y`. */
  function Lines(cards: seq<Card>, y: int): nat
  {
    if |cards| == 0 then 0
    else Lines(cards[..|cards| - 1], y) + (if cards[|cards| - 1].id == y then 1 else 0)
  }

  /** Some line of `cards` has identifier `id`. */
  predicate HasCard(cards: seq<Card>, id: int)
  {
    exists i | 0 <= i < |cards| :: cards[i].id == id
  }

  /** One card against a side adds its copy count once per opposing line with the column identifier. */
  lemma {:induction false} PairCellFormula(card: Card, opp: seq<Card>, x: int, y: int)
    ensures PairCell(card, opp, x, y) == if card.id == x then card.qty * Lines(opp, y) else 0
    decreases |opp|
  {
    if |opp| > 0 {
      var n := |opp| - 1;
      PairCellFormula(card, opp[..n], x, y);
      var l := Lines(opp[..n], y);
      assert card.qty * (l + 1) == card.qty * l + card.qty;
    }
  }

  /** What one side adds to (x, y) is its copies of x times the opposing lines of y. */
  lemma {:induction false} SideCellFormula(cards: seq<Card>, opp: seq<Card>, x: int, y: int)
    ensures SideCell(cards, opp, x, y) == Copies(cards, x) * Lines(opp, y)
    decreases |cards|
  {
    if |cards| > 0 {
      var n := |cards| - 1;
      SideCellFormula(cards[..n], opp, x, y);
      PairCellFormula(cards[n], opp, x, y);
      var c := Copies(cards[..n], x);
      var q := if cards[n].id == x then cards[n].qty else 0;
      assert (c + q) * Lines(opp, y) == c * Lines(opp, y) + q * Lines(opp, y);
    }
  }

  /**
   * The cell (x, y) of a game: for each side whose record count is non-zero,
   * that side's copies of x times the other side's lines of y.
   */
  lemma GameCellFormula(g: Game, x: int, y: int)
    ensures GameCell(g, x, y) ==
      (if g.wins != 0 then Copies(g.home, x) * Lines(g.away, y) else 0)
      + (if g.losses != 0 then Copies(g.away, x) * Lines(g.home, y) else 0)
  {
    SideCellFormula(g.home, g.away, x, y);
    SideCellFormula(g.away, g.home, x, y);
  }

  /** A side without the identifier has no copies and no lines of it. */
  lemma {:induction false} AbsentCard(cards: seq<Card>, id: int)
    requires !HasCard(cards, id)
    ensures Copies(cards, id) == 0 && Lines(cards, id) == 0
    decreases |cards|
  {
    if |cards| > 0 {
      var n := |cards| - 1;
      assert !HasCard(cards[..n], id) by {
        forall i | 0 <= i < n ensures cards[..n][i].id != id {
          assert cards[..n][i] == cards[i];
        }
      }
      AbsentCard(cards[..n], id);
      assert cards[n].id != id;
    }
  }

  /**
   * A game only changes cells of cards that met: a non-zero (x, y) means a side
   * with a non-zero record count holds x and its opponent holds y.
   */
  lemma GameCellSupport(g: Game, x: int, y: int)
    requires GameCell(g, x, y) != 0
    ensures || (g.wins != 0 && HasCard(g.home, x) && HasCard(g.away, y))
            || (g.losses != 0 && HasCard(g.away, x) && HasCard(g.home, y))
  {
    GameCellFormula(g, x, y);
    if !HasCard(g.home, x) { AbsentCard(g.home, x); }
    if !HasCard(g.home, y) { AbsentCard(g.home, y); }
    if !HasCard(g.away, x) { AbsentCard(g.away, x); }
    if !HasCard(g.away, y) { AbsentCard(g.away, y); }
  }

  /** The identifiers of a side's lines are pairwise different. */
  predicate DistinctIds(cards: seq<Card>)
  {
    forall i, j | 0 <= i < j < |cards| :: cards[i].id != cards[j].id
  }

  lemma {:induction false} CopiesDistinct(cards: seq<Card>, p: nat)
    requires DistinctIds(cards) && p < |cards|
    ensures Copies(cards, cards[p].id) == cards[p].qty
    decreases |cards|
  {
    var n := |cards| - 1;
    var x := cards[p].id;
    if p == n {
      assert !HasCard(cards[..n], x) by {
        forall i | 0 <= i < n ensures cards[..n][i].id != x {
          assert cards[..n][i] == cards[i];
        }
      }
      AbsentCard(cards[..n], x);
    } else {
      assert cards[..n][p] == cards[p];
      assert DistinctIds(cards[..n]) by {
        forall i, j | 0 <= i < j < n ensures cards[..n][i].id != cards[..n][j].id {
          assert cards[..n][i] == cards[i] && cards[..n][j] == cards[j];
        }
      }
      CopiesDistinct(cards[..n], p);
    }
  }

  lemma {:induction false} LinesDistinct(cards: seq<Card>, q: nat)
    requires DistinctIds(cards) && q < |cards|
    ensures Lines(cards, cards[q].id) == 1
    decreases |cards|
  {
    var n := |cards| - 1;
    var y := cards[q].id;
    if q == n {
      assert !HasCard(cards[..n], y) by {
        forall i | 0 <= i < n ensures cards[..n][i].id != y {
          assert cards[..n][i] == cards[i];
        }
      }
      AbsentCard(cards[..n], y);
    } else {
      assert cards[..n][q] == cards[q];
      assert DistinctIds(cards[..n]) by {
        forall i, j | 0 <= i < j < n ensures cards[..n][i].id != cards[..n][j].id {
          assert cards[..n][i] == cards[i] && cards[..n][j] == cards[j];
        }
      }
      LinesDistinct(cards[..n], q);
    }
  }

  /**
   * With every card listed once per deck, a side adds to (card, opposing card)
   * exactly the card's copy count.
   */
  lemma SideCellOncePerPair(cards: seq<Card>, opp: seq<Card>, p: nat, q: nat)
    requires DistinctIds(cards) && DistinctIds(opp) && p < |cards| && q < |opp|
    ensures SideCell(cards, opp, cards[p].id, opp[q].id) == cards[p].qty
  {
    SideCellFormula(cards, opp, cards[p].id, opp[q].id);
    CopiesDistinct(cards, p);
    LinesDistinct(opp, q);
  }

  // ---------------------------------------------------------------------------
  // Cells never decrease

  /** Every copy count of the game is non-negative. */
  predicate NonNegative(g: Game)
  {
    (forall c | c in g.home :: c.qty >= 0) && (forall c | c in g.away :: c.qty >= 0)
  }

  lemma {:induction false} CopiesNonNegative(cards: seq<Card>, x: int)
    requires forall c | c in cards :: c.qty >= 0
    ensures Copies(cards, x) >= 0
    decreases |cards|
  {
    if |cards| > 0 {
      var n := |cards| - 1;
      assert cards[n] in cards;
      assert forall c | c in cards[..n] :: c in cards;
      CopiesNonNegative(cards[..n], x);
    }
  }

  /** A game with non-negative copy counts adds a non-negative amount to every cell. */
  lemma GameCellNonNegative(g: Game, x: int, y: int)
    requires NonNegative(g)
    ensures GameCell(g, x, y) >= 0
  {
    GameCellFormula(g, x, y);
    CopiesNonNegative(g.home, x);
    CopiesNonNegative(g.away, x);
  }

  /** Playing more games with non-negative copy counts never lowers a cell. */
  lemma {:induction false} CellsNeverDecrease(gs: seq<Game>, more: seq<Game>, x: int, y: int)
    requires forall g | g in more :: NonNegative(g)
    ensures CellSum(gs + more, x, y) >= CellSum(gs, x, y)
    decreases |more|
  {
    if |more| == 0 {
      assert gs + more == gs;
    } else {
      var n := |more| - 1;
      assert (gs + more)[..|gs + more| - 1] == gs + more[..n];
      assert more[n] in more;
      assert forall g | g in more[..n] :: g in more;
      CellsNeverDecrease(gs, more[..n], x, y);
      GameCellNonNegative(more[n], x, y);
    }
  }

  // ---------------------------------------------------------------------------
  // Order does not matter

  lemma {:induction false} CellSumIsSum(gs: seq<Game>, x: int, y: int, f: Game -> int)
    requires forall g :: f(g) == GameCell(g, x, y)
    ensures CellSum(gs, x, y) == Sum(gs, f)
    decreases |gs|
  {
    if |gs| > 0 {
      CellSumIsSum(gs[..|gs| - 1], x, y, f);
    }
  }

  /** Games played in any order leave the same matrix. */
  lemma GameOrderIrrelevant(gs1: seq<Game>, gs2: seq<Game>, x: int, y: int)
    requires multiset(gs1) == multiset(gs2)
    ensures CellSum(gs1, x, y) == CellSum(gs2, x, y)
  {
    var f := (g: Game) => GameCell(g, x, y);
    CellSumIsSum(gs1, x, y, f);
    CellSumIsSum(gs2, x, y, f);
    SumPermutation(gs1, gs2, f);
  }

  /** A tournament's matchups resolve without an exception iff each of them does. */
  lemma {:induction false} PlayedSucceeds(entries: seq<Entry>, ms: seq<Matchup>, key: map<string, int>)
    ensures Played(entries, ms, key).Success? <==> forall i | 0 <= i < |ms| :: Resolve(entries, ms[i], key).Success?
    decreases |ms|
  {
    if |ms| > 0 {
      var n := |ms| - 1;
      var init := ms[..n];
      PlayedSucceeds(entries, init, key);
      assert Played(entries, ms, key).Success? <==>
        Played(entries, init, key).Success? && Resolve(entries, ms[n], key).Success?;
      assert forall i | 0 <= i < n :: init[i] == ms[i];
      if forall i | 0 <= i < |ms| :: Resolve(entries, ms[i], key).Success? {
        assert forall i | 0 <= i < n :: Resolve(entries, init[i], key).Success?;
      } else {
        var i :| 0 <= i < |ms| && Resolve(entries, ms[i], key).Failure?;
        if i != n {
          assert Resolve(entries, init[i], key).Failure?;
        }
      }
    }
  }

  /** What one matchup adds to cell (x, y): its game's contribution, nothing when it is skipped. */
  function MatchupCell(entries: seq<Entry>, m: Matchup, key: map<string, int>, x: int, y: int): int
  {
    match Resolve(entries, m, key)
    case Success(Some(g)) => GameCell(g, x, y)
    case _ => 0
  }

  lemma {:induction false} PlayedCell(entries: seq<Entry>, ms: seq<Matchup>, key: map<string, int>, x: int, y: int,
                                      f: Matchup -> int)
    requires forall m :: f(m) == MatchupCell(entries, m, key, x, y)
    requires Played(entries, ms, key).Success?
    ensures CellSum(Played(entries, ms, key).value, x, y) == Sum(ms, f)
    decreases |ms|
  {
    if |ms| > 0 {
      var n := |ms| - 1;
      PlayedCell(entries, ms[..n], key, x, y, f);
      var prev := Played(entries, ms[..n], key).value;
      var r := Resolve(entries, ms[n], key);
      assert Sum(ms, f) == Sum(ms[..n], f) + MatchupCell(entries, ms[n], key, x, y);
      if r.value.Some? {
        assert Played(entries, ms, key).value == prev + [r.value.value];
        CellSumSnoc(prev, r.value.value, x, y);
      } else {
        assert Played(entries, ms, key).value == prev;
      }
    }
  }

  /**
   * Reordering a tournament's matchups changes neither whether it raises nor,
   * when it does not, any cell of the matrix.
   */
  lemma MatchupOrderIrrelevant(entries: seq<Entry>, ms1: seq<Matchup>, ms2: seq<Matchup>, key: map<string, int>,
                               x: int, y: int)
    requires multiset(ms1) == multiset(ms2)
    ensures Played(entries, ms1, key).Success? <==> Played(entries, ms2, key).Success?
    ensures Played(entries, ms1, key).Success? ==>
      CellSum(Played(entries, ms1, key).value, x, y) == CellSum(Played(entries, ms2, key).value, x, y)
  {
    PlayedSucceeds(entries, ms1, key);
    PlayedSucceeds(entries, ms2, key);
    forall i | 0 <= i < |ms1| ensures ms1[i] in ms2 {
      assert ms1[i] in multiset(ms1);
    }
    forall i | 0 <= i < |ms2| ensures ms2[i] in ms1 {
      assert ms2[i] in multiset(ms2);
    }
    if Played(entries, ms1, key).Success? {
      var f := (m: Matchup) => MatchupCell(entries, m, key, x, y);
      PlayedCell(entries, ms1, key, x, y, f);
      PlayedCell(entries, ms2, key, x, y, f);
      SumPermutation(ms1, ms2, f);
    }
  }

  /** All tournaments resolve without an exception iff each of them does. */
  lemma {:induction false} GamesSucceed(data: seq<Tournament>, key: map<string, int>)
    ensures Games(data, key).Success? <==>
      forall i | 0 <= i < |data| :: Played(data[i].entries, data[i].matchups, key).Success?
    decreases |data|
  {
    if |data| > 0 {
      var n := |data| - 1;
      var init := data[..n];
      GamesSucceed(init, key);
      assert forall i | 0 <= i < n :: init[i] == data[i];
      if !forall i | 0 <= i < |data| :: Played(data[i].entries, data[i].matchups, key).Success? {
        var i :| 0 <= i < |data| && Played(data[i].entries, data[i].matchups, key).Failure?;
        if i != n {
          assert Played(init[i].entries, init[i].matchups, key).Failure?;
        }
      }
    }
  }

  /** What one tournament adds to cell (x, y). */
  function TournamentCell(t: Tournament, key: map<string, int>, x: int, y: int): int
  {
    match Played(t.entries, t.matchups, key)
    case Success(gs) => CellSum(gs, x, y)
    case Failure(_) => 0
  }

  lemma {:induction false} GamesCell(data: seq<Tournament>, key: map<string, int>, x: int, y: int,
                                     f: Tournament -> int)
    requires forall t :: f(t) == TournamentCell(t, key, x, y)
    requires Games(data, key).Success?
    ensures CellSum(Games(data, key).value, x, y) == Sum(data, f)
    decreases |data|
  {
    if |data| > 0 {
      var n := |data| - 1;
      GamesCell(data[..n], key, x, y, f);
      var t := data[n];
      CellSumAppend(Games(data[..n], key).value, Played(t.entries, t.matchups, key).value, x, y);
    }
  }

  /**
   * Reordering the tournaments changes neither whether `matrix` raises nor,
   * when it does not, any cell of the matrix.
   */
  lemma TournamentOrderIrrelevant(data1: seq<Tournament>, data2: seq<Tournament>, key: map<string, int>,
                                  x: int, y: int)
    requires multiset(data1) == multiset(data2)
    ensures Games(data1, key).Success? <==> Games(data2, key).Success?
    ensures Games(data1, key).Success? ==>
      CellSum(Games(data1, key).value, x, y) == CellSum(Games(data2, key).value, x, y)
  {
    GamesSucceed(data1, key);
    GamesSucceed(data2, key);
    forall i | 0 <= i < |data1| ensures data1[i] in data2 {
      assert data1[i] in multiset(data1);
    }
    forall i | 0 <= i < |data2| ensures data2[i] in data1 {
      assert data2[i] in multiset(data2);
    }
    if Games(data1, key).Success? {
      var f := (t: Tournament) => TournamentCell(t, key, x, y);
      GamesCell(data1, key, x, y, f);
      GamesCell(data2, key, x, y, f);
      SumPermutation(data1, data2, f);
    }
  }

  // ---------------------------------------------------------------------------
  // Byes and empty matchups

  /** Removing a bye from anywhere in the matchups changes neither the games played nor any exception. */
  lemma {:induction false} ByeSkipped(entries: seq<Entry>, before: seq<Matchup>, m: Matchup, after: seq<Matchup>,
                                      key: map<string, int>)
    requires "Bye" in m
    ensures Played(entries, before + [m] + after, key) == Played(entries, before + after, key)
    decreases |after|
  {
    if |after| == 0 {
      assert before + [m] + after == before + [m];
      assert before + after == before;
      PlayedBye(entries, before, m, key);
    } else {
      var n := |after| - 1;
      ByeSkipped(entries, before, m, after[..n], key);
      assert before + [m] + after == (before + [m] + after[..n]) + [after[n]];
      assert before + after == (before + after[..n]) + [after[n]];
      PlayedSnoc(entries, before + [m] + after[..n], before + after[..n], after[n], key);
    }
  }

  /** A bye at the end of a run of matchups is skipped. */
  lemma PlayedBye(entries: seq<Entry>, a: seq<Matchup>, m: Matchup, key: map<string, int>)
    requires "Bye" in m
    ensures Played(entries, a + [m], key) == Played(entries, a, key)
  {
    assert (a + [m])[..|a|] == a;
    assert Resolve(entries, m, key) == Success(None);
  }

  /** Matchup runs that play alike still play alike after one more matchup. */
  lemma PlayedSnoc(entries: seq<Entry>, a: seq<Matchup>, b: seq<Matchup>, m: Matchup, key: map<string, int>)
    requires Played(entries, a, key) == Played(entries, b, key)
    ensures Played(entries, a + [m], key) == Played(entries, b + [m], key)
  {
    assert (a + [m])[..|a|] == a;
    assert (b + [m])[..|b|] == b;
  }

  /** An empty matchup that is reached raises, whatever follows it. */
  lemma EmptyMatchupRaises(entries: seq<Entry>, ms: seq<Matchup>, i: nat, key: map<string, int>)
    requires i < |ms| && ms[i] == [] && Played(entries, ms[..i], key).Success?
    ensures Played(entries, ms, key) == Failure(EmptyMatchup)
  {
    PlayedStep(entries, ms, i, key);
    PlayedPrefixFailure(entries, ms, i + 1, key);
  }

  // ---------------------------------------------------------------------------
  // When a matchup raises

  /**
   * A matchup that is not a bye raises iff one of its players' deck lines names
   * an unknown card or has a bad quantity (whatever the number of decks), or it
   * has exactly two decks and a malformed record.
   */
  lemma ResolveFails(entries: seq<Entry>, m: Matchup, key: map<string, int>)
    requires "Bye" !in m && |m| >= 1
    ensures var decks := DecksOf(entries, m[..|m| - 1]);
      Resolve(entries, m, key).Failure? <==>
        || (exists d, l | 0 <= d < |decks| && 0 <= l < |decks[d]| ::
              LookupCard(key, decks[d][l]).Failure? || ParseCount(decks[d][l]).Failure?)
        || (|decks| == 2 && ParseRecord(m[|m| - 1]).Failure?)
  {
    var decks := DecksOf(entries, m[..|m| - 1]);
    assert Resolve(entries, m, key) == ResolveDecks(decks, m[|m| - 1], key);
    ResolveDecksFails(decks, m[|m| - 1], key);
  }

  lemma ResolveDecksFails(decks: seq<seq<string>>, record: string, key: map<string, int>)
    ensures ResolveDecks(decks, record, key).Failure? <==>
        || (exists d, l | 0 <= d < |decks| && 0 <= l < |decks[d]| ::
              LookupCard(key, decks[d][l]).Failure? || ParseCount(decks[d][l]).Failure?)
        || (|decks| == 2 && ParseRecord(record).Failure?)
  {
  }

  /** Each deck collected for a matchup is the deck of one of the entries. */
  predicate FromEntries(decks: seq<seq<string>>, entries: seq<Entry>)
  {
    forall d | 0 <= d < |decks| :: exists e | 0 <= e < |entries| :: decks[d] == entries[e].deck
  }

  lemma {:induction false} DecksOfPlayerFromEntries(entries: seq<Entry>, player: string)
    ensures FromEntries(DecksOfPlayer(entries, player), entries)
    decreases |entries|
  {
    if |entries| > 0 {
      var n := |entries| - 1;
      DecksOfPlayerFromEntries(entries[..n], player);
      var decks := DecksOfPlayer(entries, player);
      var init := DecksOfPlayer(entries[..n], player);
      forall d | 0 <= d < |decks| ensures exists e | 0 <= e < |entries| :: decks[d] == entries[e].deck {
        if d < |init| {
          var e :| 0 <= e < n && init[d] == entries[..n][e].deck;
          assert decks[d] == entries[e].deck;
        } else {
          assert decks[d] == entries[n].deck;
        }
      }
    }
  }

  lemma {:induction false} DecksOfFromEntries(entries: seq<Entry>, players: seq<string>)
    ensures FromEntries(DecksOf(entries, players), entries)
    decreases |players|
  {
    if |players| > 0 {
      var n := |players| - 1;
      DecksOfFromEntries(entries, players[..n]);
      DecksOfPlayerFromEntries(entries, players[n]);
      var init := DecksOf(entries, players[..n]);
      var last := DecksOfPlayer(entries, players[n]);
      forall d | 0 <= d < |init + last| ensures exists e | 0 <= e < |entries| :: (init + last)[d] == entries[e].deck {
        if d < |init| {
          var e :| 0 <= e < |entries| && init[d] == entries[e].deck;
          assert (init + last)[d] == entries[e].deck;
        } else {
          var e :| 0 <= e < |entries| && last[d - |init|] == entries[e].deck;
          assert (init + last)[d] == entries[e].deck;
        }
      }
      assert DecksOf(entries, players) == init + last;
    }
  }

  /**
   * With the key built from the data (`card_key(data)`), no matchup of the data
   * raises for an unknown card.
   */
  lemma CardKeyKnowsEveryCard(data: seq<Tournament>, t: nat, m: Matchup)
    requires t < |data|
    ensures var r := Resolve(data[t].entries, m, CardKey(data));
      !(r.Failure? && r.error.UnknownCard?)
  {
    var key := CardKey(data);
    var entries := data[t].entries;
    if "Bye" !in m && |m| >= 1 {
      var decks := DecksOf(entries, m[..|m| - 1]);
      DecksOfFromEntries(entries, m[..|m| - 1]);
      forall d, l | 0 <= d < |decks| && 0 <= l < |decks[d]| ensures LookupCard(key, decks[d][l]).Success? {
        var e :| 0 <= e < |entries| && decks[d] == entries[e].deck;
        DeckNamesExactly(data, IndexName(decks[d][l]));
        assert IndexName(data[t].entries[e].deck[l]) == IndexName(decks[d][l]);
      }
      assert LookupDecks(decks, key).Success?;
    }
  }

  // ---------------------------------------------------------------------------
  // The record "wins-losses"

  /** The record string `str(wins) + '-' + str(losses)`. */
  function ShowRecord(wins: nat, losses: nat): string
  {
    ShowNat(wins) + "-" + ShowNat(losses)
  }

  /** The first two pieces of `a-b...` split at '-' are `a` and `b`. */
  lemma RecordSplit(a: string, b: string, tail: string)
    requires '-' !in a && '-' !in b
    requires tail == [] || tail[0] == '-'
    ensures var parts := Split(a + "-" + b + tail, '-');
      |parts| >= 2 && parts[0] == a && parts[1] == b
  {
    var s := a + "-" + b + tail;
    assert s[..|a|] == a && s[|a|] == '-' && s[|a| + 1..] == b + tail;
    SplitAtFirst(s, '-', |a|);
    SplitPrefix(b, tail, '-');
    if tail == [] {
      assert b + tail == b;
      SplitNoSep(b, '-');
    } else {
      assert tail == [tail[0]] + tail[1..];
      SplitSepFirst(tail[1..], '-');
    }
  }

  /**
   * `str(wins) + '-' + str(losses)` reads back as (wins, losses); anything after
   * a further '-' is ignored.
   */
  lemma ParseRecordShow(wins: nat, losses: nat, tail: string)
    requires tail == [] || tail[0] == '-'
    ensures ParseRecord(ShowRecord(wins, losses) + tail) == Success((wins as int, losses as int))
  {
    var a := ShowNat(wins);
    var b := ShowNat(losses);
    assert '-' !in a && '-' !in b by {
      assert forall i | 0 <= i < |a| :: IsDigit(a[i]);
      assert forall i | 0 <= i < |b| :: IsDigit(b[i]);
    }
    RecordSplit(a, b, tail);
    ParseShowNat(wins);
    ParseShowNat(losses);
  }

  /** A record without '-' raises: a ValueError if it is not an integer, an IndexError otherwise. */
  lemma ParseRecordWithoutDash(record: string)
    requires '-' !in record
    ensures ParseRecord(record) ==
      if ParseInt(record).None? then Failure(BadRecord(record)) else Failure(MissingLosses(record))
  {
    SplitNoSep(record, '-');
  }

  /** A deck's lines determine its looked-up cards. */
  lemma DeckCardsUnique(deck: seq<string>, key: map<string, int>, cards1: seq<Card>, cards2: seq<Card>)
    requires DeckCards(deck, key, cards1) && DeckCards(deck, key, cards2)
    ensures cards1 == cards2
  {
    forall i | 0 <= i < |deck| ensures cards1[i] == cards2[i] {
      assert LookupCard(key, deck[i]) == Success(cards1[i].id) == Success(cards2[i].id);
      assert ParseCount(deck[i]) == Success(cards1[i].qty) == Success(cards2[i].qty);
    }
  }

  /** Every line of two decks with looked-up cards names a known card and has a valid quantity. */
  predicate LinesReadable(decks: seq<seq<string>>, key: map<string, int>)
  {
    forall d, l | 0 <= d < |decks| && 0 <= l < |decks[d]| ::
      LookupCard(key, decks[d][l]).Success? && ParseCount(decks[d][l]).Success?
  }

  lemma DeckLinesReadable(decks: seq<seq<string>>, key: map<string, int>, home: seq<Card>, away: seq<Card>)
    requires |decks| == 2 && DeckCards(decks[0], key, home) && DeckCards(decks[1], key, away)
    ensures LinesReadable(decks, key)
  {
    forall d, l | 0 <= d < |decks| && 0 <= l < |decks[d]|
      ensures LookupCard(key, decks[d][l]).Success? && ParseCount(decks[d][l]).Success?
    {
      if d == 0 {
        assert LookupCard(key, decks[0][l]) == Success(home[l].id);
        assert ParseCount(decks[0][l]) == Success(home[l].qty);
      } else {
        assert LookupCard(key, decks[1][l]) == Success(away[l].id);
        assert ParseCount(decks[1][l]) == Success(away[l].qty);
      }
    }
  }

  /**
   * A matchup that is not a bye, with exactly two decks whose lines all look up
   * and parse, and a well-formed record, is played as exactly that game.
   */
  lemma ResolveTwoDecks(entries: seq<Entry>, m: Matchup, key: map<string, int>,
                        home: seq<Card>, away: seq<Card>, wins: int, losses: int)
    requires "Bye" !in m && |m| >= 1
    requires var decks := DecksOf(entries, m[..|m| - 1]);
      |decks| == 2 && DeckCards(decks[0], key, home) && DeckCards(decks[1], key, away)
    requires ParseRecord(m[|m| - 1]) == Success((wins, losses))
    ensures Resolve(entries, m, key) == Success(Some(Game(home, away, wins, losses)))
  {
    ResolveDecksTwo(DecksOf(entries, m[..|m| - 1]), m[|m| - 1], key, home, away, wins, losses);
  }

  lemma ResolveDecksTwo(decks: seq<seq<string>>, record: string, key: map<string, int>,
                        home: seq<Card>, away: seq<Card>, wins: int, losses: int)
    requires |decks| == 2 && DeckCards(decks[0], key, home) && DeckCards(decks[1], key, away)
    requires ParseRecord(record) == Success((wins, losses))
    ensures ResolveDecks(decks, record, key) == Success(Some(Game(home, away, wins, losses)))
  {
    var ids, counts := LookupDecks(decks, key), CountDecks(decks);
    assert ids.Success? && counts.Success? by {
      DeckLinesReadable(decks, key, home, away);
    }
    var g := Game(Zip(ids.value[0], counts.value[0]), Zip(ids.value[1], counts.value[1]), wins, losses);
    assert ResolveDecks(decks, record, key) == Success(Some(g));
    assert g.home == home by {
      assert DeckCards(decks[0], key, g.home);
      DeckCardsUnique(decks[0], key, g.home, home);
    }
    assert g.away == away by {
      assert DeckCards(decks[1], key, g.away);
      DeckCardsUnique(decks[1], key, g.away, away);
    }
  }

  // ---------------------------------------------------------------------------
  // Worked matchups: one card per deck

  /** A deck line `str(qty) + ' ' + name` looks up `name` and counts `qty` copies. */
  lemma DeckLine(line: string, qty: nat, name: string)
    requires line == ShowNat(qty) + " " + name
    ensures IndexName(line) == name && ParseCount(line) == Success(qty as int)
  {
    var token := ShowNat(qty);
    assert ' ' !in token by {
      assert forall i | 0 <= i < |token| :: IsDigit(token[i]);
    }
    assert line[..|token|] == token && line[|token| + 1..] == name;
    IndexNameAfterFirstSpace(line, |token|);
    ParseShowNat(qty);
  }

  lemma OneLineDeck(qty: nat, name: string, key: map<string, int>)
    requires name in key
    ensures DeckCards([ShowNat(qty) + " " + name], key, [Card(key[name], qty)])
  {
    DeckLine(ShowNat(qty) + " " + name, qty, name);
  }

  /** A record `str(wins) + '-' + str(losses)` is not the word "Bye". */
  lemma RecordNotBye(wins: nat, losses: nat)
    ensures ShowRecord(wins, losses) != "Bye"
  {
    var a := ShowNat(wins);
    assert IsDigit(a[0]);
    assert (a + "-" + ShowNat(losses))[0] == a[0];
  }

  /** The matchup `[a, b, str(wins) + '-' + str(losses)]` between two real players. */
  lemma ShownMatchup(a: string, b: string, wins: nat, losses: nat)
    requires a != "Bye" && b != "Bye"
    ensures var m: Matchup := [a, b, ShowRecord(wins, losses)];
      "Bye" !in m && |m| == 3 && m[..2] == [a, b]
  {
    RecordNotBye(wins, losses);
  }

  lemma ParseRecordShown(wins: nat, losses: nat)
    ensures ParseRecord(ShowRecord(wins, losses)) == Success((wins as int, losses as int))
  {
    ParseRecordShow(wins, losses, []);
    assert ShowRecord(wins, losses) + [] == ShowRecord(wins, losses);
  }

  /** A tournament whose one matchup resolves two decks to `g`'s sides and its record to `g`'s counts. */
  lemma OneGameTournament(entries: seq<Entry>, m: Matchup, key: map<string, int>,
                          da: seq<string>, db: seq<string>, g: Game)
    requires |m| == 3 && "Bye" !in m && DecksOf(entries, m[..2]) == [da, db]
    requires DeckCards(da, key, g.home) && DeckCards(db, key, g.away)
    requires ParseRecord(m[2]) == Success((g.wins, g.losses))
    ensures Games([Tournament(entries, [m])], key) == Success([g])
  {
    ResolveTwoDecks(entries, m, key, g.home, g.away, g.wins, g.losses);
    PlayedSingle(entries, m, key, g);
    GamesSingle(Tournament(entries, [m]), key, [g]);
  }

  /** A tournament with the one matchup `m` plays its game, if any. */
  lemma {:induction false} PlayedSingle(entries: seq<Entry>, m: Matchup, key: map<string, int>, g: Game)
    requires Resolve(entries, m, key) == Success(Some(g))
    ensures Played(entries, [m], key) == Success([g])
  {
    var ms := [m];
    assert ms[..0] == [] && ms[0] == m;
    assert Played(entries, ms[..0], key) == Success([]);
    assert [] + [g] == [g];
  }

  /** Data with the one tournament `t` plays that tournament's games. */
  lemma {:induction false} GamesSingle(t: Tournament, key: map<string, int>, gs: seq<Game>)
    requires Played(t.entries, t.matchups, key) == Success(gs)
    ensures Games([t], key) == Success(gs)
  {
    assert [t][..0] == [] && [t][0] == t;
    assert Games([t][..0], key) == Success([]);
    assert [] + gs == gs;
  }

  /** The decks two entries hold for player `p`, in entry order. */
  lemma DecksOfPlayerTwoEntries(e1: Entry, e2: Entry, p: string)
    ensures DecksOfPlayer([e1, e2], p) ==
      (if e1.player == p then [e1.deck] else []) + (if e2.player == p then [e2.deck] else [])
  {
    assert [e1, e2][..1] == [e1] && [e1][..0] == [];
    assert DecksOfPlayer([e1], p) == (if e1.player == p then [e1.deck] else []);
  }

  /** The decks of a two-player matchup: the first player's, then the second's. */
  lemma DecksOfTwoPlayers(entries: seq<Entry>, a: string, b: string)
    ensures DecksOf(entries, [a, b]) == DecksOfPlayer(entries, a) + DecksOfPlayer(entries, b)
  {
    assert [a, b][..1] == [a] && [a][..0] == [];
    assert DecksOf(entries, [a]) == DecksOfPlayer(entries, a);
  }

  /** Two entries, the first of player `a`, the second of `b` or again of `a`, give a's matchup against b their two decks in entry order. */
  lemma DecksOfTwoEntries(e1: Entry, e2: Entry, a: string, b: string)
    requires a != b && e1.player == a && (e2.player == a || e2.player == b)
    ensures DecksOf([e1, e2], [a, b]) == [e1.deck, e2.deck]
  {
    DecksOfTwoPlayers([e1, e2], a, b);
    DecksOfPlayerTwoEntries(e1, e2, a);
    DecksOfPlayerTwoEntries(e1, e2, b);
  }

  /** A tournament with the one matchup `[a, b, str(wins) + '-' + str(losses)]` over two resolved decks. */
  lemma ShownGame(entries: seq<Entry>, a: string, b: string, key: map<string, int>,
                  da: seq<string>, db: seq<string>, g: Game, wins: nat, losses: nat)
    requires a != "Bye" && b != "Bye" && DecksOf(entries, [a, b]) == [da, db]
    requires DeckCards(da, key, g.home) && DeckCards(db, key, g.away)
    requires g.wins == wins && g.losses == losses
    ensures Games([Tournament(entries, [[a, b, ShowRecord(wins, losses)]])], key) == Success([g])
  {
    ShownMatchup(a, b, wins, losses);
    ParseRecordShown(wins, losses);
    OneGameTournament(entries, [a, b, ShowRecord(wins, losses)], key, da, db, g);
  }

  /** The cells of a single game between two one-line decks. */
  lemma OneCardGameCells(g: Game, x: int, y: int)
    requires |g.home| == 1 && |g.away| == 1 && g.home[0].id == x && g.away[0].id == y && x != y
    ensures CellSum([g], x, y) == (if g.wins != 0 then g.home[0].qty else 0)
    ensures CellSum([g], y, x) == (if g.losses != 0 then g.away[0].qty else 0)
    ensures CellSum([g], x, x) == 0 && CellSum([g], y, y) == 0
  {
    assert [g][..0] == [];
    assert g.home[..0] == [] && g.away[..0] == [];
    GameCellFormula(g, x, y);
    GameCellFormula(g, y, x);
    GameCellFormula(g, x, x);
    GameCellFormula(g, y, y);
  }

  /**
   * Player `a` (qa copies of card x) meets player `b` (qb copies of card y)
   * with record "wins-losses": the game is a's deck against b's; a's side adds
   * qa to (x, y) when wins is non-zero, b's side adds qb to (y, x) when losses
   * is non-zero, and nothing else changes.
   */
  lemma OneCardEach(a: string, b: string, x: string, y: string, qa: nat, qb: nat, wins: nat, losses: nat,
                    key: map<string, int>, ra: string, rb: string)
    requires a != b && a != "Bye" && b != "Bye"
    requires x in key && y in key && key[x] != key[y]
    ensures var entries := [Entry(a, [ShowNat(qa) + " " + x], ra), Entry(b, [ShowNat(qb) + " " + y], rb)];
      var record := ShowRecord(wins, losses);
      var played := Games([Tournament(entries, [[a, b, record]])], key);
      && played == Success([Game([Card(key[x], qa)], [Card(key[y], qb)], wins, losses)])
      && CellSum(played.value, key[x], key[y]) == (if wins != 0 then qa else 0)
      && CellSum(played.value, key[y], key[x]) == (if losses != 0 then qb else 0)
      && CellSum(played.value, key[x], key[x]) == 0
  {
    var ea := Entry(a, [ShowNat(qa) + " " + x], ra);
    var eb := Entry(b, [ShowNat(qb) + " " + y], rb);
    var g := Game([Card(key[x], qa)], [Card(key[y], qb)], wins, losses);
    OneLineDeck(qa, x, key);
    OneLineDeck(qb, y, key);
    DecksOfTwoEntries(ea, eb, a, b);
    ShownGame([ea, eb], a, b, key, ea.deck, eb.deck, g, wins, losses);
    OneCardGameCells(g, key[x], key[y]);
  }

  /**
   * Two entries of the same player `a` and none of `b` still make two decks,
   * so the matchup a vs b is played as a's first deck against a's second one;
   * listing the two entries the other way round swaps the sides.
   */
  lemma DuplicateEntry(a: string, b: string, x: string, y: string, qa: nat, qb: nat, wins: nat, losses: nat,
                       key: map<string, int>, ra: string, rb: string)
    requires a != b && a != "Bye" && b != "Bye"
    requires x in key && y in key && key[x] != key[y]
    ensures var first := Entry(a, [ShowNat(qa) + " " + x], ra);
      var second := Entry(a, [ShowNat(qb) + " " + y], rb);
      var ms: seq<Matchup> := [[a, b, ShowRecord(wins, losses)]];
      && Games([Tournament([first, second], ms)], key) == Success([Game([Card(key[x], qa)], [Card(key[y], qb)], wins, losses)])
      && Games([Tournament([second, first], ms)], key) == Success([Game([Card(key[y], qb)], [Card(key[x], qa)], wins, losses)])
  {
    var first := Entry(a, [ShowNat(qa) + " " + x], ra);
    var second := Entry(a, [ShowNat(qb) + " " + y], rb);
    OneLineDeck(qa, x, key);
    OneLineDeck(qb, y, key);
    DecksOfTwoEntries(first, second, a, b);
    DecksOfTwoEntries(second, first, a, b);
    ShownGame([first, second], a, b, key, first.deck, second.deck,
              Game([Card(key[x], qa)], [Card(key[y], qb)], wins, losses), wins, losses);
    ShownGame([second, first], a, b, key, second.deck, first.deck,
              Game([Card(key[y], qb)], [Card(key[x], qa)], wins, losses), wins, losses);
  }
}
