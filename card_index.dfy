/**
 * The card index of adjacency.py (`card_key`): every deck line "<qty> <name>"
 * loses its leading quantity token, and each distinct name gets a dense
 * identifier in [0, N).
 */
module CardIndex {
  import opened PyStr
  import opened Seqs

  /** One player's registration: the player, the deck lines "<qty> <name>", the "W-L" record. */
  datatype Entry = Entry(player: string, deck: seq<string>, record: string)

  /** A matchup as stored: [player, player, result]; "Bye" may stand for a missing opponent. */
  type Matchup = seq<string>

  datatype Tournament = Tournament(entries: seq<Entry>, matchups: seq<Matchup>)

  /** `card.split(' ')[0]`: the quantity token of a deck line. */
  function QuantityToken(line: string): string
  {
    Split(line, ' ')[0]
  }

  /** `' '.join(card.split(' ')[1:])`: the card name a deck line is indexed under. */
  function IndexName(line: string): string
  {
    Join(" ", Split(line, ' ')[1..])
  }

  /** With a first space at `k`, the token is what precedes it and the name is everything after it. */
  lemma IndexNameAfterFirstSpace(line: string, k: nat)
    requires k < |line| && line[k] == ' ' && ' ' !in line[..k]
    ensures QuantityToken(line) == line[..k]
    ensures IndexName(line) == line[k + 1..]
    ensures line == QuantityToken(line) + " " + IndexName(line)
  {
    SplitAtFirst(line, ' ', k);
    assert Split(line, ' ')[1..] == Split(line[k + 1..], ' ');
    JoinSplit(line[k + 1..], ' ');
    assert line == line[..k] + [' '] + line[k + 1..];
  }

  /** A line without a space is all quantity token and has the empty name. */
  lemma IndexNameWithoutSpace(line: string)
    requires ' ' !in line
    ensures QuantityToken(line) == line && IndexName(line) == ""
  {
    SplitNoSep(line, ' ');
  }

  /** The index names of a deck's lines, in order. */
  function LineNames(lines: seq<string>): (names: seq<string>)
    ensures |names| == |lines|
    ensures forall i | 0 <= i < |lines| :: names[i] == IndexName(lines[i])
  {
    seq(|lines|, i requires 0 <= i < |lines| => IndexName(lines[i]))
  }

  /** The index names of every deck line of the entries, in order. */
  function EntryNames(entries: seq<Entry>): seq<string>
  {
    if |entries| == 0 then []
    else EntryNames(entries[..|entries| - 1]) + LineNames(entries[|entries| - 1].deck)
  }

  /** The index names of every deck line of every tournament, in order. */
  function DeckNames(data: seq<Tournament>): seq<string>
  {
    if |data| == 0 then []
    else DeckNames(data[..|data| - 1]) + EntryNames(data[|data| - 1].entries)
  }

  /** The index name of every deck line of the entries occurs in their names. */
  lemma {:induction false} EntryNameIn(entries: seq<Entry>, e: nat, l: nat)
    requires e < |entries| && l < |entries[e].deck|
    ensures IndexName(entries[e].deck[l]) in EntryNames(entries)
  {
    var n := |entries| - 1;
    if e == n {
      assert LineNames(entries[n].deck)[l] == IndexName(entries[e].deck[l]);
    } else {
      assert entries[..n][e] == entries[e];
      EntryNameIn(entries[..n], e, l);
    }
  }

  /** Every name of the entries is the index name of one of their deck lines. */
  lemma {:induction false} EntryNameSource(entries: seq<Entry>, name: string) returns (e: nat, l: nat)
    requires name in EntryNames(entries)
    ensures e < |entries| && l < |entries[e].deck| && IndexName(entries[e].deck[l]) == name
  {
    var n := |entries| - 1;
    if name in LineNames(entries[n].deck) {
      e := n;
      l :| 0 <= l < |entries[n].deck| && LineNames(entries[n].deck)[l] == name;
    } else {
      e, l := EntryNameSource(entries[..n], name);
      assert entries[..n][e] == entries[e];
    }
  }

  /** The name of a deck line of some entry occurs in the entries' names, and only those do. */
  lemma EntryNamesExactly(entries: seq<Entry>, name: string)
    ensures name in EntryNames(entries) <==>
      exists e, l | 0 <= e < |entries| && 0 <= l < |entries[e].deck| :: IndexName(entries[e].deck[l]) == name
  {
    if name in EntryNames(entries) {
      var e, l := EntryNameSource(entries, name);
    }
    if exists e, l | 0 <= e < |entries| && 0 <= l < |entries[e].deck| :: IndexName(entries[e].deck[l]) == name {
      var e, l :| 0 <= e < |entries| && 0 <= l < |entries[e].deck| && IndexName(entries[e].deck[l]) == name;
      EntryNameIn(entries, e, l);
    }
  }

  /** The index name of every deck line of the data occurs in its names. */
  lemma {:induction false} DeckNameIn(data: seq<Tournament>, t: nat, e: nat, l: nat)
    requires t < |data| && e < |data[t].entries| && l < |data[t].entries[e].deck|
    ensures IndexName(data[t].entries[e].deck[l]) in DeckNames(data)
  {
    var n := |data| - 1;
    if t == n {
      EntryNameIn(data[n].entries, e, l);
    } else {
      assert data[..n][t] == data[t];
      DeckNameIn(data[..n], t, e, l);
    }
  }

  /** Every name of the data is the index name of one of its deck lines. */
  lemma {:induction false} DeckNameSource(data: seq<Tournament>, name: string) returns (t: nat, e: nat, l: nat)
    requires name in DeckNames(data)
    ensures t < |data| && e < |data[t].entries| && l < |data[t].entries[e].deck|
    ensures IndexName(data[t].entries[e].deck[l]) == name
  {
    var n := |data| - 1;
    if name in EntryNames(data[n].entries) {
      t := n;
      e, l := EntryNameSource(data[n].entries, name);
    } else {
      t, e, l := DeckNameSource(data[..n], name);
      assert data[..n][t] == data[t];
    }
  }

  /** The names in the data are exactly the index names of its deck lines. */
  lemma DeckNamesExactly(data: seq<Tournament>, name: string)
    ensures name in DeckNames(data) <==>
      exists t, e, l | 0 <= t < |data| && 0 <= e < |data[t].entries| && 0 <= l < |data[t].entries[e].deck| ::
        IndexName(data[t].entries[e].deck[l]) == name
  {
    if name in DeckNames(data) {
      var t, e, l := DeckNameSource(data, name);
    }
    if exists t, e, l | 0 <= t < |data| && 0 <= e < |data[t].entries| && 0 <= l < |data[t].entries[e].deck| ::
      IndexName(data[t].entries[e].deck[l]) == name
    {
      var t, e, l :| 0 <= t < |data| && 0 <= e < |data[t].entries| && 0 <= l < |data[t].entries[e].deck| &&
        IndexName(data[t].entries[e].deck[l]) == name;
      DeckNameIn(data, t, e, l);
    }
  }

  /** Each name mapped to its position, over names without repetitions (adjacency.py:22). */
  function Enumerate(names: seq<string>): (key: map<string, int>)
    requires forall i, j | 0 <= i < j < |names| :: names[i] != names[j]
    ensures forall i | 0 <= i < |names| :: names[i] in key && key[names[i]] == i
    ensures forall name | name in key :: name in names
  {
    map i | 0 <= i < |names| :: names[i] := i
  }

  /** Every name maps into [0, |key|). */
  predicate ValidKey(key: map<string, int>)
  {
    forall name | name in key :: 0 <= key[name] < |key|
  }

  /** Distinct names get distinct identifiers. */
  predicate Injective(key: map<string, int>)
  {
    forall a, b | a in key && b in key && a != b :: key[a] != key[b]
  }

  /** Enumerating names without repetitions is a bijection from those names onto [0, N). */
  lemma EnumerateBijection(names: seq<string>)
    requires forall i, j | 0 <= i < j < |names| :: names[i] != names[j]
    ensures |Enumerate(names)| == |names|
    ensures ValidKey(Enumerate(names)) && Injective(Enumerate(names))
    ensures forall i | 0 <= i < |names| :: i in Enumerate(names).Values
  {
    var key := Enumerate(names);
    EnumerateSize(names);
    EnumerateIndices(names);
    forall i | 0 <= i < |names| ensures i in key.Values {
      assert key[names[i]] == i;
    }
  }

  lemma EnumerateSize(names: seq<string>)
    requires forall i, j | 0 <= i < j < |names| :: names[i] != names[j]
    ensures |Enumerate(names)| == |names|
  {
    assert Enumerate(names).Keys == set name | name in names;
    DistinctCardinality(names);
  }

  /** Each name is mapped to its own position. */
  lemma EnumerateIndices(names: seq<string>)
    requires forall i, j | 0 <= i < j < |names| :: names[i] != names[j]
    ensures forall name | name in Enumerate(names) ::
      0 <= Enumerate(names)[name] < |names| && names[Enumerate(names)[name]] == name
  {
    var key := Enumerate(names);
    forall name | name in key ensures 0 <= key[name] < |names| && names[key[name]] == name {
      var i :| 0 <= i < |names| && names[i] == name;
    }
  }

  /**
   * `card_key` without its cache: the set of index names enumerated. Python's
   * set order is arbitrary; this model enumerates names in order of first
   * occurrence, and its contract holds for any enumeration order.
   */
  function CardKey(data: seq<Tournament>): (key: map<string, int>)
    ensures forall name :: name in key <==> name in DeckNames(data)
    ensures ValidKey(key) && Injective(key)
    ensures forall i | 0 <= i < |key| :: i in key.Values
    ensures data == [] ==> key == map[]
  {
    var names := Distinct(DeckNames(data));
    DistinctSpec(DeckNames(data));
    EnumerateBijection(names);
    Enumerate(names)
  }
}
