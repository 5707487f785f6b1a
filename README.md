# mtg-hypergraph core in Dafny

A model of the computational core of mtg-hypergraph, a set of Python scripts
that scrape Magic: the Gathering tournament results and turn them into card
statistics:

- **Card index** (`card_key`, adjacency.py): every deck line `"<qty> <name>"`
  loses its leading quantity token, and each distinct card name gets a dense
  identifier in `[0, N)`. Modelled in `CardIndex` (card_index.dfy).
- **Interaction matrix** (`matrix`, adjacency.py): every matchup
  `[player, player, "W-L"]` of every tournament is resolved to the decks of its
  players. A usable matchup adds, for each side whose record count is non-zero,
  the copy count of each of its cards to the cell (card, opposing card) of an
  N x N matrix. Byes are skipped, and so are matchups that do not yield exactly
  two decks. An unknown card, a bad quantity or a bad record raises, which
  aborts the whole call. Modelled in `Adjacency` (adjacency.dfy): `Matrix`,
  `AddTournament`, `AddGame` and `AddSide` are methods that update an
  `array2<int>` in place. They are proved against the value-level
  specification `Games`/`CellSum`, whose properties are in `AdjacencyFacts`
  (adjacency_props.dfy).
- **Tournament-page row filter** (fetch.py:40-45) and **main deck/sideboard
  pairing** (fetch.py:99). Modelled in `Scrape` (scrape.dfy).
- **Rank aggregation** (`scg_card_data`, fetch.py:202-229): every deck's rank
  is credited to each card (or each `combo`-combination of cards) once per
  copy, in an insertion-ordered table, and entries with fewer than `min_plays`
  ranks are dropped. Modelled in `ScgCards` (scg_cards.dfy). `ScgCardData` is a
  method with the dictionary as a local map plus its insertion order, proved
  to yield the table of the function `CardData`, returned or, given an
  `output` path, written. Properties are in `ScgCardFacts`
  (scg_cards_props.dfy).
- **Sorting the card table** (`scg_sorted`, fetch.py:231-253): a stable sort by
  name or by one statistic, descending by default. Modelled in `ScgSort`
  (scg_sort.dfy), with order, permutation and stability proved in
  `ScgSortFacts` (scg_sort_props.dfy).

Support modules:

- `Wrappers` (wrappers.dfy): `Option`/`Result`.
- `Seqs` (seqs.dfy): sums, `MapResult`, first-occurrence de-duplication.
- `PyStr` (pystr.dfy): Python's `str.split`, `str.join` and `str.strip` on
  strings of any characters, and `str.isnumeric` and `int()` restricted to
  ASCII.

## Model

| member | source | states |
|---|---|---|
| CardIndex.CardKey | mtg-hypergraph/adjacency.py:20-22 | the key's names are exactly the index names of the deck lines of the data; identifiers are distinct and cover exactly [0, N); no data gives the empty key |
| CardIndex.IndexNameAfterFirstSpace | mtg-hypergraph/adjacency.py:20 | the index name of a line is everything after its first space, the quantity token everything before it, and the line is token + " " + name |
| CardIndex.IndexNameWithoutSpace | mtg-hypergraph/adjacency.py:20 | a line without a space is all quantity token and is indexed under the empty name |
| CardIndex.EntryNamesExactly | mtg-hypergraph/adjacency.py:20-21 | a name is collected from a tournament's entries iff some deck line of some entry has it as index name |
| CardIndex.DeckNamesExactly | mtg-hypergraph/adjacency.py:20-21 | a name is collected from the data iff some deck line of some entry of some tournament has it as index name |
| CardIndex.EnumerateBijection | mtg-hypergraph/adjacency.py:22 | enumerating names without repetitions gives a map of the same size, injective, onto [0, N) |
| Adjacency.ParseRecord | mtg-hypergraph/adjacency.py:48 | parsing a record fails only with a bad integer or a missing second part |
| Adjacency.LookupDecks | mtg-hypergraph/adjacency.py:44 | the ids of all collected decks are found iff every line's name is in the key, and then each id is that line's lookup |
| Adjacency.CountDecks | mtg-hypergraph/adjacency.py:45 | the counts of all decks are parsed iff every quantity token is an integer, and then each count is that line's; any failure is a bad count |
| AdjacencyFacts.ByeSkipped | mtg-hypergraph/adjacency.py:38-39 | a matchup containing "Bye" can be removed from anywhere in a tournament without changing the games played or the exception raised |
| AdjacencyFacts.EmptyMatchupRaises | mtg-hypergraph/adjacency.py:40 | an empty matchup without a bye raises once it is reached, whatever follows it |
| Adjacency.ResolveDecksGame | mtg-hypergraph/adjacency.py:41-48 | a usable matchup has exactly two decks whose lines are the game's cards, and a record whose two counts are the game's; a skipped one does not have two decks |
| Adjacency.ResolveFits | mtg-hypergraph/adjacency.py:44 | with a valid key every card id of a resolved game is a valid row and column index |
| Adjacency.AddSide | mtg-hypergraph/adjacency.py:52-54 | the two nested loops add to each cell exactly the side's contribution to it and leave the rest as it was |
| Adjacency.AddGame | mtg-hypergraph/adjacency.py:49-54 | each side with a non-zero record count is added against the other side; every cell grows by the game's contribution |
| Adjacency.AddTournament | mtg-hypergraph/adjacency.py:37-54 | the walk over one tournament's matchups fails iff playing them fails, with the same exception; otherwise each cell grows by the sum over its games |
| Adjacency.Matrix | mtg-hypergraph/adjacency.py:35-55 | a fresh N x N matrix whose every cell is the sum of the games of all tournaments, or exactly the first exception the games raise |
| Adjacency.CellSumAppend | mtg-hypergraph/adjacency.py:36-37 | a cell after two runs of games is the sum of the cell after each |
| AdjacencyFacts.GameCellFormula | mtg-hypergraph/adjacency.py:49-54 | a game adds to cell (x, y) the copies of x in the home deck times the away lines with id y when wins is non-zero, plus the copies of x in the away deck times the home lines with id y when losses is non-zero |
| AdjacencyFacts.SideCellFormula | mtg-hypergraph/adjacency.py:52-54 | one side adds copies of x times the number of opposing lines with y |
| AdjacencyFacts.PairCellFormula | mtg-hypergraph/adjacency.py:53-54 | one card adds its copy count once per opposing line with id y, and only to its own row |
| AdjacencyFacts.AbsentCard | mtg-hypergraph/adjacency.py:52-54 | a card not in a deck has no copies and no lines there |
| AdjacencyFacts.GameCellSupport | mtg-hypergraph/adjacency.py:49-54 | a non-zero cell needs x on one side and y on the other, with that side's count non-zero |
| AdjacencyFacts.SideCellOncePerPair | mtg-hypergraph/adjacency.py:52-54 | with distinct ids on both sides, cell (card, opposing card) receives exactly the card's copy count |
| AdjacencyFacts.CopiesDistinct | mtg-hypergraph/adjacency.py:52-54 | with distinct ids a card's copies are its own quantity |
| AdjacencyFacts.LinesDistinct | mtg-hypergraph/adjacency.py:53 | with distinct ids a card occurs on exactly one line |
| AdjacencyFacts.GameCellNonNegative | mtg-hypergraph/adjacency.py:49-54 | games with non-negative quantities never add a negative amount |
| AdjacencyFacts.CellsNeverDecrease | mtg-hypergraph/adjacency.py:36-54 | more games with non-negative quantities never decrease a cell |
| AdjacencyFacts.CellSumIsSum | mtg-hypergraph/adjacency.py:36-54 | a cell is the plain sum of the games' contributions |
| AdjacencyFacts.GameOrderIrrelevant | mtg-hypergraph/adjacency.py:36-54 | the cells do not depend on the order of the games |
| AdjacencyFacts.PlayedSucceeds | mtg-hypergraph/adjacency.py:37-48 | a tournament's matchups are played without exception iff every matchup resolves without exception |
| AdjacencyFacts.PlayedCell | mtg-hypergraph/adjacency.py:37-54 | a tournament's cell is the sum of what each of its matchups contributes |
| AdjacencyFacts.MatchupOrderIrrelevant | mtg-hypergraph/adjacency.py:37-54 | reordering a tournament's matchups changes neither whether it raises nor any cell |
| AdjacencyFacts.GamesSucceed | mtg-hypergraph/adjacency.py:36-48 | all tournaments are played without exception iff each is |
| AdjacencyFacts.GamesCell | mtg-hypergraph/adjacency.py:36-54 | the matrix cell is the sum over tournaments of each tournament's cell |
| AdjacencyFacts.TournamentOrderIrrelevant | mtg-hypergraph/adjacency.py:36-54 | reordering the tournaments changes neither whether the call raises nor any cell |
| AdjacencyFacts.ResolveFails | mtg-hypergraph/adjacency.py:40-48 | a matchup without a bye raises iff some collected line has an unknown name or a bad quantity, or it has two decks and a bad record |
| AdjacencyFacts.ResolveDecksFails | mtg-hypergraph/adjacency.py:44-48 | the same, stated on the collected decks |
| AdjacencyFacts.ResolveTwoDecks | mtg-hypergraph/adjacency.py:40-48 | two readable decks and a readable record always give exactly that game |
| AdjacencyFacts.ResolveDecksTwo | mtg-hypergraph/adjacency.py:44-48 | the same, stated on the collected decks |
| AdjacencyFacts.DecksOfPlayerFromEntries | mtg-hypergraph/adjacency.py:41-43 | every deck collected for a player is the deck of some entry |
| AdjacencyFacts.DecksOfFromEntries | mtg-hypergraph/adjacency.py:41-43 | every deck collected for a matchup is the deck of some entry |
| AdjacencyFacts.CardKeyKnowsEveryCard | mtg-hypergraph/adjacency.py:44 | with the key built from the same data, no matchup of it raises for an unknown card |
| AdjacencyFacts.RecordSplit | mtg-hypergraph/adjacency.py:48 | splitting "a-b..." on '-' gives a and b first |
| AdjacencyFacts.ParseRecordShow | mtg-hypergraph/adjacency.py:48 | a record "W-L", followed by anything starting with '-', parses to (W, L) |
| AdjacencyFacts.ParseRecordShown | mtg-hypergraph/adjacency.py:48 | "W-L" parses back to (W, L) |
| AdjacencyFacts.ParseRecordWithoutDash | mtg-hypergraph/adjacency.py:48 | a record without '-' raises: a bad integer if its text is not one, otherwise the missing second part |
| AdjacencyFacts.DeckCardsUnique | mtg-hypergraph/adjacency.py:44-45 | a deck's resolved cards are determined by its lines |
| AdjacencyFacts.DeckLine | mtg-hypergraph/adjacency.py:44-45 | the line "Q name" is indexed under name with count Q |
| AdjacencyFacts.OneLineDeck | mtg-hypergraph/adjacency.py:44-45 | a one-line deck of a known card resolves to that card with its count |
| AdjacencyFacts.RecordNotBye | mtg-hypergraph/adjacency.py:38 | a "W-L" record is never "Bye" |
| AdjacencyFacts.OneGameTournament | mtg-hypergraph/adjacency.py:36-48 | a tournament with one readable matchup between two decks plays exactly that game |
| AdjacencyFacts.PlayedSingle | mtg-hypergraph/adjacency.py:37-48 | one usable matchup plays exactly its game |
| AdjacencyFacts.GamesSingle | mtg-hypergraph/adjacency.py:36-37 | a single tournament's games are the games of its matchups |
| AdjacencyFacts.DecksOfTwoEntries | mtg-hypergraph/adjacency.py:41-43 | decks are collected player by player and, for each player, in entry order |
| AdjacencyFacts.ShownGame | mtg-hypergraph/adjacency.py:36-48 | a matchup [a, b, "W-L"] whose two decks are readable plays the game with those cards and counts |
| AdjacencyFacts.OneCardGameCells | mtg-hypergraph/adjacency.py:49-54 | with one card per side, (x, y) gets x's copies if wins is non-zero, (y, x) gets y's copies if losses is non-zero, and nothing else changes |
| AdjacencyFacts.OneCardEach | mtg-hypergraph/adjacency.py:35-55 | worked instance: two one-card decks and a "W-L" record give exactly the expected matrix cells, weighted by quantity, with the record only as a zero/non-zero gate |
| AdjacencyFacts.DuplicateEntry | mtg-hypergraph/adjacency.py:41-46 | a player registered twice while the opponent has no entry still gives two decks and is played; which deck is "home" depends on the entry order |
| PyStr.Split | mtg-hypergraph/adjacency.py:20 | a split has at least one piece and no piece contains the separator |
| PyStr.JoinSplit | mtg-hypergraph/adjacency.py:20 | joining the pieces of a split with the separator gives back the string |
| PyStr.SplitJoin | mtg-hypergraph/adjacency.py:20 | splitting the join of separator-free pieces gives back the pieces |
| PyStr.SplitAtFirst | mtg-hypergraph/adjacency.py:20 | the first piece of a split is everything before the first separator |
| PyStr.StripSpec | mtg-hypergraph/fetch.py:99 | strip returns the infix between a prefix and a suffix made only of stripped characters, and its ends are not stripped characters |
| PyStr.StripUnchanged | mtg-hypergraph/fetch.py:99 | a string whose ends are not stripped characters is left as it is |
| PyStr.StripIdempotent | mtg-hypergraph/fetch.py:99 | stripping twice is stripping once |
| PyStr.ParseShowInt | mtg-hypergraph/adjacency.py:45-48 | `int()` reads back every decimal numeral, negative ones included |
| PyStr.ParseDigits | mtg-hypergraph/adjacency.py:45 | every numeral that passes `isnumeric` parses with `int()` to its decimal value |
| PyStr.ParseNegative | mtg-hypergraph/adjacency.py:45-48 | a '-' followed by a numeral parses to minus its value |
| Scrape.Rows | mtg-hypergraph/fetch.py:40-42 | zip yields as many rows as the shortest column, each the columns' i-th elements |
| Scrape.LastSegmentTail | mtg-hypergraph/fetch.py:44-45 | the last '/'-segment of a link is its slash-free tail, preceded by '/' unless it is the whole link |
| Scrape.Decks | mtg-hypergraph/fetch.py:43-45 | every kept deck has numeric wins, losses and id, and the id has no '/' |
| Scrape.DecksExactly | mtg-hypergraph/fetch.py:43-45 | a deck is listed iff some row passes the filter and builds it |
| Scrape.DecksAppend | mtg-hypergraph/fetch.py:43-45 | the filter works row by row: the decks of two runs of rows are the decks of each, in order |
| Scrape.DecksAllKept | mtg-hypergraph/fetch.py:43-45 | when every row passes, every row becomes its deck, in order |
| Scrape.PairDecks | mtg-hypergraph/fetch.py:99 | an even number of card lists gives half as many decks, deck k being lists 2k and 2k+1 stripped; an odd number raises |
| Scrape.PairDecksKeepsCards | mtg-hypergraph/fetch.py:99 | pairing neither loses, adds nor reorders card strings |
| Scrape.PairedCardsTrimmed | mtg-hypergraph/fetch.py:99 | no paired card string starts or ends with a newline or tab |
| ScgCards.Repeat | mtg-hypergraph/fetch.py:213-216 | `n * [x]` has max(n, 0) copies of x |
| ScgCardFacts.SinglesWeight | mtg-hypergraph/fetch.py:215-216 | without combinations a deck adds to a card's play count exactly its positive copies of that card |
| ScgCards.Aggregate | mtg-hypergraph/fetch.py:218-219 | one entry per key played, no key twice, each with exactly the ranks credited to it |
| ScgCards.TableStep | mtg-hypergraph/fetch.py:213-216 | one `card_data[key] += count * [rank]` appends the key to the order only when new and extends only its list, keeping the table equal to the one the plays determine |
| ScgCards.AddDeck | mtg-hypergraph/fetch.py:207-216 | adding a deck group by group keeps the table equal to the one the plays so far determine |
| ScgCards.ScgCardData | mtg-hypergraph/fetch.py:202-229 | the imperative aggregation yields exactly the table of `CardData`, or its first exception; the table is written to `output` when that is a path and returned otherwise |
| ScgCardFacts.CombinationsCount | mtg-hypergraph/fetch.py:208 | there are n-choose-r combinations |
| ScgCardFacts.CombinationsInOrder | mtg-hypergraph/fetch.py:208 | each combination has r cards, taken in deck order |
| ScgCardFacts.CombinationsExactly | mtg-hypergraph/fetch.py:208 | a card sequence is an r-combination of a deck iff it has r cards taken in deck order |
| ScgCardFacts.CombinationsOfOne | mtg-hypergraph/fetch.py:208 | the 1-combinations are the single cards in order |
| ScgCardFacts.ComboOneIsSingleCards | mtg-hypergraph/fetch.py:207-216 | `card_combo=1` (or `True`) computes the same table as single cards |
| ScgCardFacts.RanksCount | mtg-hypergraph/fetch.py:213-216 | a key collects as many ranks as the sum of the counts of its plays |
| ScgCardFacts.SingleCardPlays | mtg-hypergraph/fetch.py:215-219 | without combinations a card's play count is its total number of copies over all decks |
| ScgCardFacts.PlayFromDeck | mtg-hypergraph/fetch.py:206-216 | every play comes from some deck: its rank is that deck's parsed rank and its key and count are one of that deck's groups |
| ScgCardFacts.GroupCredited | mtg-hypergraph/fetch.py:206-216 | every group of every deck, single card or combination, is credited with that deck's parsed rank |
| ScgCardFacts.ComboCardPlays | mtg-hypergraph/fetch.py:207-212 | with combinations a key's play count is the sum, over all decks, of the positive total quantities of the combinations whose joined names are the key |
| ScgCardFacts.RankFromDeck | mtg-hypergraph/fetch.py:206-216 | every rank credited to a key is the rank of some deck that has a group with that key |
| ScgCardFacts.GroupsNonEmpty | mtg-hypergraph/fetch.py:207-216 | a deck's rank is needed iff it has a group |
| ScgCardFacts.BadRankFails | mtg-hypergraph/fetch.py:213-216 | the call raises iff some deck whose rank is read has a non-integer rank, and the exception names the first such deck's rank |
| ScgCardFacts.NegativeComboFails | mtg-hypergraph/fetch.py:208 | a negative combination size raises as soon as there is a deck |
| ScgCardFacts.CardDataEntries | mtg-hypergraph/fetch.py:218-222 | an entry is returned iff its key was played, its ranks are all the ranks of that key, and there are at least `min_plays` of them |
| ScgCardFacts.AggregateOrder | mtg-hypergraph/fetch.py:218-222 | table entries come in the order of their keys' first plays, as a dict's insertion order gives |
| ScgCardFacts.MinPlaysMembers | mtg-hypergraph/fetch.py:222 | the filter keeps exactly the entries with at least `min_plays` plays |
| ScgCardFacts.MinPlaysAppend | mtg-hypergraph/fetch.py:222 | the filter works entry by entry and keeps the table order |
| ScgCardFacts.MinPlaysDistinctKeys | mtg-hypergraph/fetch.py:222 | filtering keeps keys distinct |
| ScgCardFacts.MinPlaysKeepsAll | mtg-hypergraph/fetch.py:222 | when every entry qualifies the filter changes nothing |
| ScgCardFacts.CardDataKeys | mtg-hypergraph/fetch.py:218-222 | returned keys are distinct; with `min_plays <= 0` the whole table is returned |
| ScgSort.ChooseField | mtg-hypergraph/fetch.py:237-244 | "name" sorts by name, "avg_rank" by the mean, "std_dev_rank" by the deviation, anything else by the play count |
| ScgSort.KeyOfOneKind | mtg-hypergraph/fetch.py:238-246 | the keys of one sort are all strings (by name) or all numbers (by a statistic), so no comparison mixes the two |
| ScgSort.KeyLtOrder | mtg-hypergraph/fetch.py:238-246 | the key comparison is a strict total order |
| ScgSort.SortPermutes | mtg-hypergraph/fetch.py:238-246 | sorting neither loses, adds nor duplicates an entry |
| ScgSort.ScgSorted | mtg-hypergraph/fetch.py:233-253 | the result holds the input's entries; sorting by name always returns; any other key writes, to the derived path, exactly when `output` is set |
| ScgSortFacts.SortSorted | mtg-hypergraph/fetch.py:238-246 | the sorted table is sorted |
| ScgSortFacts.SortedKeys | mtg-hypergraph/fetch.py:238-246 | in a sorted table the keys are non-decreasing, or non-increasing with `reverse` |
| ScgSortFacts.SortStable | mtg-hypergraph/fetch.py:238-246 | entries with equal keys keep their input order |
| ScgSortFacts.ScgSortedOrder | mtg-hypergraph/fetch.py:233-253 | the table returned or written is a permutation of the input, sorted by the chosen key and stable |

## Left out

- File and network I/O, HTML parsing with XPath, JSON loading and writing, and
  the card-key cache file are not modelled. The functions take the loaded data
  as parameters, and `ScgSorted` returns the path it would write to instead of
  writing.
- The element texts and link attributes of fetch.py:40-42 are taken as
  already extracted. The lxml `if element` test on the link cells is not
  modelled: the link column is given directly.
- The mean and standard deviation of fetch.py:219 (numpy floating point) are
  not computed. An entry carries its list of ranks, whose length is the play
  count that `min_plays` tests. `ScgSort` takes mean and deviation as given
  reals.
- Python's set iteration order in `card_key` is arbitrary. `CardKey`
  enumerates names in first-occurrence order, and its contract states only
  what holds for every order: a bijection from the names onto [0, N).
- `int()` is modelled on ASCII text: surrounding ASCII whitespace, an optional
  sign and ASCII digits. Underscores between digits, non-ASCII digits and
  non-ASCII whitespace are not modelled. `str.isnumeric` is modelled as
  "non-empty and all ASCII digits".
- numpy's float64 matrix cells are modelled as unbounded integers. They are
  exact while counts stay below 2^53.
- A deck rank in `scg_card_data` is modelled as the string `int()` parses. A
  JSON rank that is already a number is not modelled separately.
- `card_combo` is modelled by its integer value: `False` is 0 and `True` is 1.
  The `output` of `scg_sorted` is modelled by its truth value. The `output` of
  `scg_card_data` is a path string, with the empty string standing for `False`
  (Python treats both as false); with a path, `ScgCardData` yields the table
  it would write there instead of writing it, as `scg_card_data` writes the
  table and returns None.
- That each selection of card positions yields its combination exactly once
  is not proved: `CombinationsExactly` characterises which card sequences
  occur and `CombinationsCount` how many there are, but a deck listing the
  same card twice has equal combinations at different positions.
- Entries, matchups and decks are assumed to have the JSON shape the code
  indexes (`entry['player']`, `entry['deck']`, `tournament['matchups']`). A
  missing field (KeyError) is not modelled.
- The round count `ceil(log2(len(players)))` of fetch.py:146 belongs to the
  `ml_tournament` scraper, which decides how many rounds to fetch, and is not
  modelled. Smoothing, confidence intervals and rankings are not in these
  source files.
- NaN statistics are not modelled. With `min_plays <= 0`, `scg_card_data` can
  keep an entry with no ranks, whose numpy mean and deviation are NaN. Python's
  `sorted` guarantees no order for NaN keys, whereas `ScgSort` treats every
  statistic as an ordinary real.

### Behaviour worth noting

- A cell grows by the card's copy count only. The record counts decide only
  whether a side is added at all (`if not record[index]: continue`,
  adjacency.py:49-54).
- An unknown card (adjacency.py:44), a bad quantity (adjacency.py:45) or a bad
  or incomplete record (adjacency.py:48) raises an exception that nothing in
  `matrix` catches, so the whole call ends there.
- A matchup is skipped unless exactly two decks are collected in total
  (adjacency.py:46). All collected lines are looked up and their quantities
  parsed before this test (adjacency.py:44-45), so a matchup with three decks
  and an unknown card still raises. A player registered twice whose opponent
  has no entry yields two decks and is played (`AdjacencyFacts.DuplicateEntry`).
- Only the first two '-'-parts of a record are read (adjacency.py:48), so a
  record such as "2-0-5" is accepted.
