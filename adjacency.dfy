/**
 * The interaction matrix of adjacency.py (`matrix`). Every matchup of every
 * tournament is resolved to the decks of its players; a usable one adds, for
 * each side whose record count is non-zero, the copy count of each of that
 * side's cards to the cell (card, opposing card) of an N x N matrix.
 */
module Adjacency {
  import opened Wrappers
  import opened PyStr
  import opened Seqs
  import opened CardIndex

  /** The exceptions `matrix` raises on malformed data; each aborts the whole call. */
  datatype Error =
    | EmptyMatchup                  // `*players, record = matchup` on an empty matchup
    | UnknownCard(name: string)     // KeyError: a deck line's name is not in the card key
    | BadCount(token: string)       // ValueError: a quantity token is not an integer
    | BadRecord(token: string)      // ValueError: a side of the record is not an integer
    | MissingLosses(record: string) // IndexError: the record has no '-'

  /** A resolved deck line: card identifier and number of copies. */
  datatype Card = Card(id: int, qty: int)

  /** A usable matchup: the two decks in the order they were resolved, and the record "wins-losses". */
  datatype Game = Game(home: seq<Card>, away: seq<Card>, wins: int, losses: int)

  /** The decks of `entries` registered under `player`, in entry order. */
  function DecksOfPlayer(entries: seq<Entry>, player: string): seq<seq<string>>
  {
    if |entries| == 0 then []
    else
      var last := entries[|entries| - 1];
      DecksOfPlayer(entries[..|entries| - 1], player) + (if last.player == player then [last.deck] else [])
  }

  /** The decks of the matchup's players: player by player, and for each player its entries' decks in entry order (adjacency.py:41-43). */
  function DecksOf(entries: seq<Entry>, players: seq<string>): seq<seq<string>>
  {
    if |players| == 0 then []
    else DecksOf(entries, players[..|players| - 1]) + DecksOfPlayer(entries, players[|players| - 1])
  }

  /** The identifier of a deck line's index name in the card key; an unknown name raises (adjacency.py:44). */
  function LookupCard(key: map<string, int>, line: string): Result<int, Error>
  {
    var name := IndexName(line);
    if name in key then Success(key[name]) else Failure(UnknownCard(name))
  }

  /** The integer value of a deck line's quantity token (adjacency.py:45). */
  function ParseCount(line: string): Result<int, Error>
  {
    var token := QuantityToken(line);
    match ParseInt(token)
    case Some(n) => Success(n)
    case None => Failure(BadCount(token))
  }

  /**
   * The record's first two '-'-separated parts as integers, the first read
   * before the second is looked for (adjacency.py:48).
   */
  function ParseRecord(record: string): (r: Result<(int, int), Error>)
    ensures r.Failure? ==> r.error.BadRecord? || r.error.MissingLosses?
  {
    var parts := Split(record, '-');
    match ParseInt(parts[0])
    case None => Failure(BadRecord(parts[0]))
    case Some(wins) =>
      if |parts| < 2 then Failure(MissingLosses(record))
      else
        match ParseInt(parts[1])
        case None => Failure(BadRecord(parts[1]))
        case Some(losses) => Success((wins, losses))
  }

  function Zip(ids: seq<int>, counts: seq<int>): (cards: seq<Card>)
    requires |ids| == |counts|
    ensures |cards| == |ids| && forall i | 0 <= i < |ids| :: cards[i] == Card(ids[i], counts[i])
  {
    seq(|ids|, i requires 0 <= i < |ids| => Card(ids[i], counts[i]))
  }

  /** `cards` are the deck lines of `deck` looked up in `key`, line by line. */
  predicate DeckCards(deck: seq<string>, key: map<string, int>, cards: seq<Card>)
  {
    && |cards| == |deck|
    && forall i | 0 <= i < |deck| ::
         LookupCard(key, deck[i]) == Success(cards[i].id) && ParseCount(deck[i]) == Success(cards[i].qty)
  }

  /** Every card of the game has an identifier in [0, n). */
  predicate Fits(g: Game, n: int)
  {
    && (forall c | c in g.home :: 0 <= c.id < n)
    && (forall c | c in g.away :: 0 <= c.id < n)
  }

  /**
   * One matchup of a tournament, as `matrix` treats it (adjacency.py:38-48): a
   * bye is skipped, a matchup without a record raises, and otherwise the decks
   * of its players and its record are played.
   */
  function Resolve(entries: seq<Entry>, m: Matchup, key: map<string, int>): (r: Result<Option<Game>, Error>)
    ensures "Bye" in m ==> r == Success(None)
    ensures "Bye" !in m && |m| == 0 ==> r == Failure(EmptyMatchup)
  {
    if "Bye" in m then Success(None)
    else if |m| == 0 then Failure(EmptyMatchup)
    else ResolveDecks(DecksOf(entries, m[..|m| - 1]), m[|m| - 1], key)
  }

  /**
   * adjacency.py:41-48 once the decks are collected: EVERY collected line is
   * looked up and its count parsed (raising on failure) before the matchup is
   * skipped for not having exactly two decks; then the record is parsed.
   */
  function ResolveDecks(decks: seq<seq<string>>, record: string, key: map<string, int>): Result<Option<Game>, Error>
  {
    var ids :- LookupDecks(decks, key);
    var counts :- CountDecks(decks);
    if |decks| != 2 then Success(None)
    else
      var r :- ParseRecord(record);
      Success(Some(Game(Zip(ids[0], counts[0]), Zip(ids[1], counts[1]), r.0, r.1)))
  }

  /**
   * A usable matchup has exactly two decks, whose lines are the game's cards,
   * and a record whose counts are the game's; a skipped one does not have two
   * decks.
   */
  lemma ResolveDecksGame(decks: seq<seq<string>>, record: string, key: map<string, int>)
    ensures var r := ResolveDecks(decks, record, key);
      r.Success? && r.value.Some? ==>
        && |decks| == 2
        && DeckCards(decks[0], key, r.value.value.home) && DeckCards(decks[1], key, r.value.value.away)
        && ParseRecord(record) == Success((r.value.value.wins, r.value.value.losses))
    ensures ResolveDecks(decks, record, key) == Success(None) ==> |decks| != 2
  {
    var ids, counts := LookupDecks(decks, key), CountDecks(decks);
    if ids.Success? && counts.Success? && |decks| == 2 && ParseRecord(record).Success? {
      var g := ResolveDecks(decks, record, key).value.value;
      assert DeckCards(decks[0], key, g.home);
      assert DeckCards(decks[1], key, g.away);
    }
  }

  /** With a valid key, every card of a usable matchup has a cell in the matrix. */
  lemma ResolveFits(entries: seq<Entry>, m: Matchup, key: map<string, int>)
    requires ValidKey(key)
    requires Resolve(entries, m, key).Success? && Resolve(entries, m, key).value.Some?
    ensures Fits(Resolve(entries, m, key).value.value, |key|)
  {
    var decks := DecksOf(entries, m[..|m| - 1]);
    ResolveDecksGame(decks, m[|m| - 1], key);
    var g := Resolve(entries, m, key).value.value;
    DeckCardsFit(decks[0], key, g.home);
    DeckCardsFit(decks[1], key, g.away);
  }

  /** Cards looked up in a valid key have identifiers in [0, |key|). */
  lemma DeckCardsFit(deck: seq<string>, key: map<string, int>, cards: seq<Card>)
    requires DeckCards(deck, key, cards)
    ensures ValidKey(key) ==> forall c | c in cards :: 0 <= c.id < |key|
  {
    if ValidKey(key) {
      forall c | c in cards ensures 0 <= c.id < |key| {
        var i :| 0 <= i < |cards| && cards[i] == c;
        assert LookupCard(key, deck[i]) == Success(c.id);
      }
    }
  }

  /** The identifiers of every line of every collected deck; the first unknown name raises (adjacency.py:44). */
  function LookupDecks(decks: seq<seq<string>>, key: map<string, int>): (r: Result<seq<seq<int>>, Error>)
    ensures r.Success? <==>
      forall d, l | 0 <= d < |decks| && 0 <= l < |decks[d]| :: LookupCard(key, decks[d][l]).Success?
    ensures r.Success? ==>
      && |r.value| == |decks|
      && forall d | 0 <= d < |decks| ::
           |r.value[d]| == |decks[d]| &&
           forall l | 0 <= l < |decks[d]| :: LookupCard(key, decks[d][l]) == Success(r.value[d][l])
  {
    var lookup := (deck: seq<string>) => MapResult(deck, (line: string) => LookupCard(key, line));
    var r := MapResult(decks, lookup);
    forall d | 0 <= d < |decks|
      ensures lookup(decks[d]).Success? <==> forall l | 0 <= l < |decks[d]| :: LookupCard(key, decks[d][l]).Success?
    {
    }
    r
  }

  /** The quantities of every line of every collected deck; the first bad token raises (adjacency.py:45). */
  function CountDecks(decks: seq<seq<string>>): (r: Result<seq<seq<int>>, Error>)
    ensures r.Failure? ==> r.error.BadCount?
    ensures r.Success? <==>
      forall d, l | 0 <= d < |decks| && 0 <= l < |decks[d]| :: ParseCount(decks[d][l]).Success?
    ensures r.Success? ==>
      && |r.value| == |decks|
      && forall d | 0 <= d < |decks| ::
           |r.value[d]| == |decks[d]| &&
           forall l | 0 <= l < |decks[d]| :: ParseCount(decks[d][l]) == Success(r.value[d][l])
  {
    var count := (deck: seq<string>) => MapResult(deck, ParseCount);
    var r := MapResult(decks, count);
    forall d | 0 <= d < |decks|
      ensures count(decks[d]).Success? <==> forall l | 0 <= l < |decks[d]| :: ParseCount(decks[d][l]).Success?
      ensures count(decks[d]).Failure? ==> count(decks[d]).error.BadCount?
    {
    }
    r
  }

  /** The games of the matchups `ms`, in order, or the first exception raised. */
  function Played(entries: seq<Entry>, ms: seq<Matchup>, key: map<string, int>): Result<seq<Game>, Error>
  {
    if |ms| == 0 then Success([])
    else
      match Played(entries, ms[..|ms| - 1], key)
      case Failure(e) => Failure(e)
      case Success(gs) =>
        match Resolve(entries, ms[|ms| - 1], key)
        case Failure(e) => Failure(e)
        case Success(None) => Success(gs)
        case Success(Some(g)) => Success(gs + [g])
  }

  /** The games of every tournament, in order, or the first exception raised. */
  function Games(data: seq<Tournament>, key: map<string, int>): Result<seq<Game>, Error>
  {
    if |data| == 0 then Success([])
    else
      var t := data[|data| - 1];
      match Games(data[..|data| - 1], key)
      case Failure(e) => Failure(e)
      case Success(gs) =>
        match Played(t.entries, t.matchups, key)
        case Failure(e) => Failure(e)
        case Success(more) => Success(gs + more)
  }

  /** What `card` adds to cell (x, y) when played against `opp`: its copy count once per opposing line with id y. */
  function PairCell(card: Card, opp: seq<Card>, x: int, y: int): int
  {
    if |opp| == 0 then 0
    else PairCell(card, opp[..|opp| - 1], x, y) + (if card.id == x && opp[|opp| - 1].id == y then card.qty else 0)
  }

  /** What one side adds to cell (x, y): every card of `cards` against every card of `opp`. */
  function SideCell(cards: seq<Card>, opp: seq<Card>, x: int, y: int): int
  {
    if |cards| == 0 then 0
    else SideCell(cards[..|cards| - 1], opp, x, y) + PairCell(cards[|cards| - 1], opp, x, y)
  }

  /** What a game adds to cell (x, y): each side whose record count is non-zero, against the other side. */
  function GameCell(g: Game, x: int, y: int): int
  {
    (if g.wins != 0 then SideCell(g.home, g.away, x, y) else 0)
    + (if g.losses != 0 then SideCell(g.away, g.home, x, y) else 0)
  }

  /** Cell (x, y) after the games `gs`, starting from zero. */
  function CellSum(gs: seq<Game>, x: int, y: int): int
  {
    if |gs| == 0 then 0 else CellSum(gs[..|gs| - 1], x, y) + GameCell(gs[|gs| - 1], x, y)
  }

  lemma CellSumSnoc(gs: seq<Game>, g: Game, x: int, y: int)
    ensures CellSum(gs + [g], x, y) == CellSum(gs, x, y) + GameCell(g, x, y)
  {
    assert (gs + [g])[..|gs|] == gs;
  }

  lemma PlayedStep(entries: seq<Entry>, ms: seq<Matchup>, i: nat, key: map<string, int>)
    requires i < |ms|
    ensures Played(entries, ms[..i + 1], key) ==
      match Played(entries, ms[..i], key)
      case Failure(e) => Failure(e)
      case Success(gs) =>
        match Resolve(entries, ms[i], key)
        case Failure(e) => Failure(e)
        case Success(None) => Success(gs)
        case Success(Some(g)) => Success(gs + [g])
  {
    assert ms[..i + 1][..i] == ms[..i];
    assert ms[..i + 1][i] == ms[i];
  }

  lemma {:induction false} PlayedPrefixFailure(entries: seq<Entry>, ms: seq<Matchup>, k: nat, key: map<string, int>)
    requires k <= |ms| && Played(entries, ms[..k], key).Failure?
    ensures Played(entries, ms, key) == Played(entries, ms[..k], key)
    decreases |ms| - k
  {
    if k == |ms| {
      assert ms[..k] == ms;
    } else {
      var n := |ms| - 1;
      assert ms[..n][..k] == ms[..k];
      PlayedPrefixFailure(entries, ms[..n], k, key);
      assert Played(entries, ms[..n], key).Failure?;
    }
  }

  lemma {:induction false} GamesPrefixFailure(data: seq<Tournament>, k: nat, key: map<string, int>)
    requires k <= |data| && Games(data[..k], key).Failure?
    ensures Games(data, key) == Games(data[..k], key)
    decreases |data| - k
  {
    if k == |data| {
      assert data[..k] == data;
    } else {
      var n := |data| - 1;
      assert data[..n][..k] == data[..k];
      GamesPrefixFailure(data[..n], k, key);
    }
  }

  /**
   * adjacency.py:52-54 for one side: every card of `cards` against every card of
   * `opp` adds the card's copy count to cell (card, opposing card).
   */
  method AddSide(adjacency: array2<int>, cards: seq<Card>, opp: seq<Card>)
    requires forall c | c in cards :: 0 <= c.id < adjacency.Length0
    requires forall c | c in opp :: 0 <= c.id < adjacency.Length1
    modifies adjacency
    ensures forall x, y | 0 <= x < adjacency.Length0 && 0 <= y < adjacency.Length1 ::
      adjacency[x, y] == old(adjacency[x, y]) + SideCell(cards, opp, x, y)
  {
    for i := 0 to |cards|
      invariant forall x, y | 0 <= x < adjacency.Length0 && 0 <= y < adjacency.Length1 ::
        adjacency[x, y] == old(adjacency[x, y]) + SideCell(cards[..i], opp, x, y)
    {
      var card := cards[i];
      assert cards[..i + 1][..i] == cards[..i];
      for j := 0 to |opp|
        invariant forall x, y | 0 <= x < adjacency.Length0 && 0 <= y < adjacency.Length1 ::
          adjacency[x, y] == old(adjacency[x, y]) + SideCell(cards[..i], opp, x, y) + PairCell(card, opp[..j], x, y)
      {
        assert opp[..j + 1][..j] == opp[..j];
        adjacency[card.id, opp[j].id] := adjacency[card.id, opp[j].id] + card.qty;
      }
      assert opp[..|opp|] == opp;
    }
    assert cards[..|cards|] == cards;
  }

  /** adjacency.py:49-54 for one game: side 0 if its count is non-zero, then side 1 likewise. */
  method AddGame(adjacency: array2<int>, g: Game)
    requires Fits(g, adjacency.Length0) && adjacency.Length0 == adjacency.Length1
    modifies adjacency
    ensures forall x, y | 0 <= x < adjacency.Length0 && 0 <= y < adjacency.Length1 ::
      adjacency[x, y] == old(adjacency[x, y]) + GameCell(g, x, y)
  {
    if g.wins != 0 {
      AddSide(adjacency, g.home, g.away);
    }
    if g.losses != 0 {
      AddSide(adjacency, g.away, g.home);
    }
  }

  /**
   * adjacency.py:37-54 for one tournament: its matchups in order, each resolved
   * and, when usable, added; the first exception stops the walk.
   */
  method AddTournament(adjacency: array2<int>, entries: seq<Entry>, ms: seq<Matchup>, key: map<string, int>)
    returns (err: Option<Error>)
    requires ValidKey(key) && adjacency.Length0 == |key| == adjacency.Length1
    modifies adjacency
    ensures err.None? <==> Played(entries, ms, key).Success?
    ensures err.Some? ==> Played(entries, ms, key) == Failure(err.value)
    ensures err.None? ==> forall x, y | 0 <= x < |key| && 0 <= y < |key| ::
      adjacency[x, y] == old(adjacency[x, y]) + CellSum(Played(entries, ms, key).value, x, y)
  {
    var n := |key|;
    ghost var played: seq<Game> := [];
    for mi := 0 to |ms|
      invariant Played(entries, ms[..mi], key) == Success(played)
      invariant forall x, y | 0 <= x < n && 0 <= y < n :: adjacency[x, y] == old(adjacency[x, y]) + CellSum(played, x, y)
    {
      var resolved := Resolve(entries, ms[mi], key);
      PlayedStep(entries, ms, mi, key);
      if resolved.Failure? {
        PlayedPrefixFailure(entries, ms, mi + 1, key);
        return Some(resolved.error);
      }
      if resolved.value.Some? {
        ResolveFits(entries, ms[mi], key);
        var g := resolved.value.value;
        AddGame(adjacency, g);
        forall x, y | 0 <= x < n && 0 <= y < n
          ensures adjacency[x, y] == old(adjacency[x, y]) + CellSum(played + [g], x, y)
        {
          CellSumSnoc(played, g, x, y);
        }
        played := played + [g];
      }
    }
    assert ms[..|ms|] == ms;
    return None;
  }

  /**
   * `matrix` (adjacency.py:35-55) with the tournament data and the card key given:
   * an N x N zero matrix, N the size of the key, to which every usable matchup
   * adds its contribution; the first exception aborts the call.
   */
  method Matrix(data: seq<Tournament>, key: map<string, int>) returns (result: Result<array2<int>, Error>)
    requires ValidKey(key)
    ensures result.Failure? <==> Games(data, key).Failure?
    ensures result.Failure? ==> result.error == Games(data, key).error
    ensures result.Success? ==>
      && fresh(result.value)
      && result.value.Length0 == |key| && result.value.Length1 == |key|
      && forall x, y | 0 <= x < |key| && 0 <= y < |key| ::
           result.value[x, y] == CellSum(Games(data, key).value, x, y)
  {
    var n := |key|;
    var adjacency := new int[n, n]((x, y) => 0);
    ghost var done: seq<Game> := [];
    for ti := 0 to |data|
      invariant Games(data[..ti], key) == Success(done)
      invariant forall x, y | 0 <= x < n && 0 <= y < n :: adjacency[x, y] == CellSum(done, x, y)
    {
      var tournament := data[ti];
      assert data[..ti + 1][..ti] == data[..ti];
      var err := AddTournament(adjacency, tournament.entries, tournament.matchups, key);
      if err.Some? {
        GamesPrefixFailure(data, ti + 1, key);
        return Failure(err.value);
      }
      ghost var more := Played(tournament.entries, tournament.matchups, key).value;
      forall x, y | 0 <= x < n && 0 <= y < n ensures adjacency[x, y] == CellSum(done + more, x, y) {
        CellSumAppend(done, more, x, y);
      }
      done := done + more;
    }
    assert data[..|data|] == data;
    return Success(adjacency);
  }

  lemma {:induction false} CellSumAppend(gs: seq<Game>, more: seq<Game>, x: int, y: int)
    ensures CellSum(gs + more, x, y) == CellSum(gs, x, y) + CellSum(more, x, y)
    decreases |more|
  {
    if |more| == 0 {
      assert gs + more == gs;
    } else {
      var n := |more| - 1;
      assert (gs + more)[..|gs + more| - 1] == gs + more[..n];
      CellSumAppend(gs, more[..n], x, y);
    }
  }
}
