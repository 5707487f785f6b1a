/**
 * The pure pieces of the scrapers in fetch.py: the row filter that turns the
 * cells of a tournament table into deck references (fetch.py:40-45) and the
 * pairing of main decks with sideboards (fetch.py:99).
 */
module Scrape {
  import opened Wrappers
  import opened PyStr

  // ---------------------------------------------------------------------------
  // Tournament rows (fetch.py:40-45)

  /** One table row: the text of the wins and losses cells (absent when a cell has no text) and the deck link. */
  datatype Row = Row(wins: Option<string>, losses: Option<string>, href: string)

  /** A kept deck: its record strings and the numeric identifier from its link. */
  datatype DeckRef = DeckRef(wins: string, losses: string, id: string)

  /** `zip(wins, losses, hrefs)`: as many rows as the shortest column. */
  function Rows(wins: seq<Option<string>>, losses: seq<Option<string>>, hrefs: seq<string>): (rows: seq<Row>)
    ensures |rows| <= |wins| && |rows| <= |losses| && |rows| <= |hrefs|
    ensures |rows| == |wins| || |rows| == |losses| || |rows| == |hrefs|
    ensures forall i | 0 <= i < |rows| :: rows[i] == Row(wins[i], losses[i], hrefs[i])
  {
    var n := if |wins| <= |losses| && |wins| <= |hrefs| then |wins| else if |losses| <= |hrefs| then |losses| else |hrefs|;
    seq(n, i requires 0 <= i < n => Row(wins[i], losses[i], hrefs[i]))
  }

  /** `href.split('/')[-1]`. */
  function LastSegment(href: string): string
  {
    var parts := Split(href, '/');
    parts[|parts| - 1]
  }

  /**
   * The last segment is the slash-free tail of the link: everything after its
   * last '/', or the whole link when it has none.
   */
  lemma {:induction false} LastSegmentTail(href: string)
    ensures var id := LastSegment(href);
      && '/' !in id && |id| <= |href| && href[|href| - |id|..] == id
      && (|id| < |href| ==> href[|href| - |id| - 1] == '/')
    decreases |href|
  {
    if '/' !in href {
      SplitNoSep(href, '/');
    } else {
      var tail := href[1..];
      if href[0] != '/' {
        assert '/' in tail;
        SlashSplits(tail);
      }
      LastSegmentShift(href);
      LastSegmentTail(tail);
      var id := LastSegment(href);
      if |id| == |tail| {
        assert id == tail[|tail| - |id|..] == tail;
        assert href == [href[0]] + tail;
      } else {
        assert tail[|tail| - |id| - 1] == href[|href| - |id| - 1];
      }
      assert tail[|tail| - |id|..] == href[|href| - |id|..];
    }
  }

  /** A string with a separator in it splits into more than one piece. */
  lemma SlashSplits(s: string)
    requires '/' in s
    ensures |Split(s, '/')| > 1
  {
    if |Split(s, '/')| == 1 {
      JoinSplit(s, '/');
    }
  }

  /** Past a leading '/', or with a '/' further on, the first character does not reach the last piece. */
  lemma LastSegmentShift(href: string)
    requires |href| > 0 && (href[0] == '/' || |Split(href[1..], '/')| > 1)
    ensures LastSegment(href) == LastSegment(href[1..])
  {
  }

  /** The filter of fetch.py:43-44: both counts are non-empty numerals and the link ends in a numeral. */
  predicate Keep(row: Row)
  {
    && row.wins.Some? && |row.wins.value| > 0
    && row.losses.Some? && |row.losses.value| > 0
    && |row.href| > 0
    && IsNumeric(row.wins.value) && IsNumeric(row.losses.value) && IsNumeric(LastSegment(row.href))
  }

  /** The deck dictionary built from a kept row (fetch.py:45). */
  function ToDeck(row: Row): DeckRef
    requires row.wins.Some? && row.losses.Some?
  {
    DeckRef(row.wins.value, row.losses.value, LastSegment(row.href))
  }

  /** The decks of a tournament page: the kept rows, in order, as deck references. */
  function Decks(rows: seq<Row>): (decks: seq<DeckRef>)
    ensures |decks| <= |rows|
    ensures forall d | d in decks :: IsNumeric(d.wins) && IsNumeric(d.losses) && IsNumeric(d.id) && '/' !in d.id
  {
    if |rows| == 0 then []
    else
      var last := rows[|rows| - 1];
      if Keep(last) then
        LastSegmentTail(last.href);
        Decks(rows[..|rows| - 1]) + [ToDeck(last)]
      else Decks(rows[..|rows| - 1])
  }

  /** A kept row's deck is listed. */
  lemma {:induction false} DeckKept(rows: seq<Row>, i: nat)
    requires i < |rows| && Keep(rows[i])
    ensures ToDeck(rows[i]) in Decks(rows)
    decreases |rows|
  {
    var n := |rows| - 1;
    if i != n {
      assert rows[..n][i] == rows[i];
      DeckKept(rows[..n], i);
    }
  }

  /** A listed deck comes from a kept row. */
  lemma {:induction false} DeckSource(rows: seq<Row>, d: DeckRef) returns (i: nat)
    requires d in Decks(rows)
    ensures i < |rows| && Keep(rows[i]) && ToDeck(rows[i]) == d
    decreases |rows|
  {
    var n := |rows| - 1;
    if Keep(rows[n]) && d == ToDeck(rows[n]) {
      i := n;
    } else {
      i := DeckSource(rows[..n], d);
      assert rows[..n][i] == rows[i];
    }
  }

  /** A deck is listed iff some kept row has its wins, losses and link identifier. */
  lemma DecksExactly(rows: seq<Row>, d: DeckRef)
    ensures d in Decks(rows) <==> exists i | 0 <= i < |rows| :: Keep(rows[i]) && ToDeck(rows[i]) == d
  {
    if d in Decks(rows) {
      var i := DeckSource(rows, d);
    }
    if exists i | 0 <= i < |rows| :: Keep(rows[i]) && ToDeck(rows[i]) == d {
      var i :| 0 <= i < |rows| && Keep(rows[i]) && ToDeck(rows[i]) == d;
      DeckKept(rows, i);
    }
  }

  /** Filtering is row by row: the decks of two pages of rows are the decks of each, in order. */
  lemma {:induction false} DecksAppend(a: seq<Row>, b: seq<Row>)
    ensures Decks(a + b) == Decks(a) + Decks(b)
    decreases |b|
  {
    if |b| == 0 {
      assert a + b == a;
    } else {
      var n := |b| - 1;
      assert (a + b)[..|a + b| - 1] == a + b[..n];
      assert (a + b)[|a + b| - 1] == b[n];
      DecksAppend(a, b[..n]);
    }
  }

  /** When every row passes the filter, every row becomes a deck, in order. */
  lemma {:induction false} DecksAllKept(rows: seq<Row>)
    requires forall i | 0 <= i < |rows| :: Keep(rows[i])
    ensures |Decks(rows)| == |rows|
    ensures forall i | 0 <= i < |rows| :: Keep(rows[i]) && Decks(rows)[i] == ToDeck(rows[i])
    decreases |rows|
  {
    if |rows| > 0 {
      var n := |rows| - 1;
      assert forall i | 0 <= i < n :: rows[..n][i] == rows[i];
      DecksAllKept(rows[..n]);
      assert Decks(rows) == Decks(rows[..n]) + [ToDeck(rows[n])];
      forall i | 0 <= i < |rows| ensures Decks(rows)[i] == ToDeck(rows[i]) {
        if i != n {
          assert Decks(rows)[i] == Decks(rows[..n])[i];
        }
      }
    }
  }

  // ---------------------------------------------------------------------------
  // Main deck and sideboard pairing (fetch.py:99)

  /** The characters the pairing strips from each card: newline and tab. */
  const Blanks: set<char> := {'\n', '\t'}

  /** Every card string trimmed of leading and trailing newlines and tabs. */
  function StripCards(cards: seq<string>): (r: seq<string>)
    ensures |r| == |cards|
    ensures forall i | 0 <= i < |cards| :: r[i] == Strip(cards[i], Blanks)
  {
    seq(|cards|, i requires 0 <= i < |cards| => Strip(cards[i], Blanks))
  }

  /** `decks[i + 1]` past the end: an odd number of card lists raises IndexError. */
  datatype PairingError = MissingSideboard

  /**
   * The card lists taken two at a time, each pair concatenated and every card
   * stripped (fetch.py:99):
   * list 2k (main deck) and list 2k + 1 (sideboard) make deck k.
   */
  function PairDecks(decks: seq<seq<string>>): (r: Result<seq<seq<string>>, PairingError>)
    ensures r.Success? <==> |decks| % 2 == 0
    ensures r.Success? ==>
      && 2 * |r.value| == |decks|
      && forall k | 0 <= k < |r.value| :: r.value[k] == StripCards(decks[2 * k] + decks[2 * k + 1])
    decreases |decks|
  {
    if |decks| == 0 then Success([])
    else if |decks| == 1 then Failure(MissingSideboard)
    else
      var rest :- PairDecks(decks[2..]);
      PairsShift(decks, rest);
      Success([StripCards(decks[0] + decks[1])] + rest)
  }

  lemma PairsShift(decks: seq<seq<string>>, rest: seq<seq<string>>)
    requires 2 * |rest| + 2 == |decks|
    requires forall k | 0 <= k < |rest| :: rest[k] == StripCards(decks[2..][2 * k] + decks[2..][2 * k + 1])
    ensures var r := [StripCards(decks[0] + decks[1])] + rest;
      forall k | 0 <= k < |r| :: r[k] == StripCards(decks[2 * k] + decks[2 * k + 1])
  {
    var r := [StripCards(decks[0] + decks[1])] + rest;
    forall k | 1 <= k < |r| ensures r[k] == StripCards(decks[2 * k] + decks[2 * k + 1]) {
      assert r[k] == rest[k - 1];
      assert decks[2..][2 * (k - 1)] == decks[2 * k];
      assert decks[2..][2 * (k - 1) + 1] == decks[2 * k + 1];
    }
  }

  /** All the lists, one after the other. */
  function Flatten(lists: seq<seq<string>>): seq<string>
  {
    if |lists| == 0 then [] else lists[0] + Flatten(lists[1..])
  }

  lemma StripCardsAppend(a: seq<string>, b: seq<string>)
    ensures StripCards(a + b) == StripCards(a) + StripCards(b)
  {
  }

  /** Pairing loses, adds and reorders no card: the paired decks hold every trimmed card in input order. */
  lemma {:induction false} PairDecksKeepsCards(decks: seq<seq<string>>)
    requires |decks| % 2 == 0
    ensures Flatten(PairDecks(decks).value) == StripCards(Flatten(decks))
    decreases |decks|
  {
    if |decks| > 0 {
      PairDecksKeepsCards(decks[2..]);
      var rest := PairDecks(decks[2..]).value;
      assert PairDecks(decks).value == [StripCards(decks[0] + decks[1])] + rest;
      assert ([StripCards(decks[0] + decks[1])] + rest)[1..] == rest;
      assert decks[1..][1..] == decks[2..];
      assert Flatten(decks) == decks[0] + (decks[1] + Flatten(decks[2..]));
      StripCardsAppend(decks[0], decks[1] + Flatten(decks[2..]));
      StripCardsAppend(decks[1], Flatten(decks[2..]));
      StripCardsAppend(decks[0], decks[1]);
    }
  }

  /** Every card of a paired deck neither starts nor ends with a newline or a tab. */
  lemma PairedCardsTrimmed(decks: seq<seq<string>>, k: nat, i: nat)
    requires |decks| % 2 == 0 && k < |decks| / 2 && i < |PairDecks(decks).value[k]|
    ensures var card := PairDecks(decks).value[k][i];
      |card| > 0 ==> card[0] !in Blanks && card[|card| - 1] !in Blanks
  {
    var cards := decks[2 * k] + decks[2 * k + 1];
    StripSpec(cards[i], Blanks);
  }
}
