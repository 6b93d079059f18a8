/** The card catalog: the cards read from the tab-separated data file, bucketed
    by suit. The file itself is not read here; its rows come in as
    `csv.DictReader` yields them, in file order. */
module Catalog {
  import opened Outcomes
  import opened Text

  /** A card as the API serves it. Cards loaded from the data file carry
      their row number as `id`. */
  datatype Card = Card(id: string, suit: string, name: string, shortText: string, text: string, url: Option<string>)

  /** The catalog is a Python dict from suit to cards: `suits` lists its keys
      in insertion order, `pools` maps each key to its cards. */
  datatype Catalog = Catalog(suits: seq<string>, pools: map<string, seq<Card>>) {

    /** The key list and the map agree, as they do for every dict. */
    ghost predicate WellFormed() {
      && (forall i, j :: 0 <= i < j < |suits| ==> suits[i] != suits[j])
      && (forall s :: s in pools <==> s in suits)
    }
  }

  /** One row as `csv.DictReader` yields it: a column of the header maps to
      its cell, or to `None` when the row is shorter than the header. */
  type Cells = map<string, Option<string>>

  /** One row whose cells are all present: column name to cell text. */
  type Row = map<string, string>

  const SUIT_COLUMN := "Category2"
  const NAME_COLUMN := "Name"
  const TEXT_COLUMN := "Text"
  const SHORT_TEXT_COLUMN := "ShortText"
  const URL_COLUMN := "URL"

  /** The default length of a summary cut from the full text. */
  const SHORT_TEXT_LIMIT: nat := 190

  /** Python truthiness of an optional string: present and non-empty. */
  predicate Truthy(s: Option<string>) {
    s.Some? && s.value != ""
  }

  /** `summary` is the first `limit` characters of `snippet`, cut back to
      before their last space if they hold one, followed by "...". */
  ghost predicate IsTruncatedSummary(snippet: string, limit: nat, summary: string)
    requires limit <= |snippet|
  {
    var cut := snippet[..limit];
    && |summary| >= 3 && summary[|summary| - 3..] == "..."
    && var kept := summary[..|summary| - 3];
       && kept <= cut
       && (kept == cut ==> ' ' !in cut)
       && (kept != cut ==> cut[|kept|] == ' ' && ' ' !in cut[|kept| + 1..])
  }

  /** `_build_short_text`: the given short text when there is one, otherwise
      the full text, shortened when it is longer than `limit`. */
  function BuildShortText(text: string, shortText: Option<string>, limit: nat): (r: string)
    ensures Truthy(shortText) ==> r == Strip(shortText.value)
    ensures !Truthy(shortText) && |Strip(text)| <= limit ==> r == Strip(text)
    ensures !Truthy(shortText) && |Strip(text)| > limit ==> IsTruncatedSummary(Strip(text), limit, r)
    ensures !Truthy(shortText) ==> |r| <= limit + 3
  {
    if Truthy(shortText) then Strip(shortText.value)
    else
      var snippet := Strip(text);
      if |snippet| <= limit then snippet
      else
        var truncated := BeforeLastSpace(snippet[..limit]);
        assert (truncated + "...")[..|truncated|] == truncated;
        truncated + "..."
  }

  /** The columns `load_cards` reads from every row. */
  const READ_COLUMNS := [SUIT_COLUMN, NAME_COLUMN, TEXT_COLUMN, SHORT_TEXT_COLUMN, URL_COLUMN]

  /** No column that `load_cards` reads is a missing cell; `.strip()` on one
      raises. A column absent from the header reads as the default `""`. */
  predicate Readable(cells: Cells) {
    forall c :: c in READ_COLUMNS && c in cells ==> cells[c].Some?
  }

  /** The row's present cells. */
  function Present(cells: Cells): (row: Row)
    ensures forall c :: c in row <==> c in cells && cells[c].Some?
    ensures forall c :: c in row ==> row[c] == cells[c].value
  {
    map c | c in cells && cells[c].Some? :: cells[c].value
  }

  /** The present cells of every row, in file order. */
  function Rows(raw: seq<Cells>): (rows: seq<Row>)
    ensures |rows| == |raw|
  {
    seq(|raw|, i requires 0 <= i < |raw| => Present(raw[i]))
  }

  /** `row.get(column, "").strip()`. */
  function Field(row: Row, column: string): string {
    Strip(if column in row then row[column] else "")
  }

  /** A row becomes a card only when its suit, name and text are all non-blank. */
  predicate Kept(row: Row) {
    Field(row, SUIT_COLUMN) != "" && Field(row, NAME_COLUMN) != "" && Field(row, TEXT_COLUMN) != ""
  }

  /** The card made from the row at position `index` of the file. */
  function CardOfRow(row: Row, index: nat): Card {
    var url := Field(row, URL_COLUMN);
    Card(
      id := DecimalString(index),
      suit := Field(row, SUIT_COLUMN),
      name := Field(row, NAME_COLUMN),
      shortText := BuildShortText(Field(row, TEXT_COLUMN), Some(Field(row, SHORT_TEXT_COLUMN)), SHORT_TEXT_LIMIT),
      text := Field(row, TEXT_COLUMN),
      url := if url == "" then None else Some(url))
  }

  /** The card made from the row at position `index`, or nothing when its
      suit, name or text is blank. */
  function ParseRow(row: Row, index: nat): (r: Option<Card>)
    ensures r.Some? <==> Kept(row)
    ensures r.Some? ==> r.value.id == DecimalString(index) && r.value.suit == Field(row, SUIT_COLUMN)
  {
    if Kept(row) then Some(CardOfRow(row, index)) else None
  }

  /** Every row of the file, parsed, in file order. */
  function Parsed(rows: seq<Row>): (entries: seq<Option<Card>>)
    ensures |entries| == |rows|
  {
    seq(|rows|, i requires 0 <= i < |rows| => ParseRow(rows[i], i))
  }

  /** `suits.setdefault(card.suit, []).append(card)`. */
  function AddCard(catalog: Catalog, card: Card): Catalog {
    if card.suit in catalog.pools then
      catalog.(pools := catalog.pools[card.suit := catalog.pools[card.suit] + [card]])
    else
      Catalog(catalog.suits + [card.suit], catalog.pools[card.suit := [card]])
  }

  /** The catalog built from parsed rows: every card is appended to the bucket
      of its suit, buckets appearing in the order their suits first occur. */
  function Bucket(entries: seq<Option<Card>>): Catalog
    decreases |entries|
  {
    if entries == [] then Catalog([], map[])
    else
      var previous := Bucket(entries[..|entries| - 1]);
      match entries[|entries| - 1]
      case None => previous
      case Some(card) => AddCard(previous, card)
  }

  /** `load_cards`, from the rows on: bucket the usable rows by suit, failing
      when a row lacks a cell that is read or when no row is usable. */
  method LoadCards(raw: seq<Cells>) returns (r: Result<Catalog>)
    ensures r.Err? <==> (exists i :: 0 <= i < |raw| && !Readable(raw[i])) || forall i :: 0 <= i < |raw| ==> !Kept(Present(raw[i]))
    ensures (exists i :: 0 <= i < |raw| && !Readable(raw[i])) ==> r == Err(MissingCell)
    ensures (forall i :: 0 <= i < |raw| ==> Readable(raw[i])) && r.Err? ==> r.error == NoCardsLoaded
    ensures r.Ok? ==> r.value == Bucket(Parsed(Rows(raw)))
  {
    var suits: seq<string> := [];
    var pools: map<string, seq<Card>> := map[];
    ghost var rows := Rows(raw);
    ghost var entries := Parsed(rows);
    for index := 0 to |raw|
      invariant Catalog(suits, pools) == Bucket(entries[..index])
      invariant forall i :: 0 <= i < index ==> Readable(raw[i])
    {
      assert entries[..index + 1][..index] == entries[..index];
      if !Readable(raw[index]) {
        return Err(MissingCell);
      }
      assert forall i :: 0 <= i < index + 1 ==> Readable(raw[i]);
      var row := Present(raw[index]);
      assert row == rows[index];
      suits, pools := LoadRow(suits, pools, row, index);
    }
    assert entries[..|raw|] == entries;
    BucketIsEmptyIffNoCard(entries);
    assert forall i :: 0 <= i < |raw| ==> (entries[i].None? <==> !Kept(Present(raw[i])));
    if suits == [] {
      return Err(NoCardsLoaded);
    }
    return Ok(Catalog(suits, pools));
  }

  /** One pass of the loop of `load_cards`: read the row's cells and, when
      its suit, name and text are non-blank, append its card to the bucket of
      its suit, opening the bucket when the suit is new. */
  method LoadRow(suits: seq<string>, pools: map<string, seq<Card>>, row: Row, index: nat)
    returns (suits': seq<string>, pools': map<string, seq<Card>>)
    ensures ParseRow(row, index).None? ==> suits' == suits && pools' == pools
    ensures ParseRow(row, index).Some? ==> Catalog(suits', pools') == AddCard(Catalog(suits, pools), ParseRow(row, index).value)
  {
    var suit := Field(row, SUIT_COLUMN);
    var name := Field(row, NAME_COLUMN);
    var text := Field(row, TEXT_COLUMN);
    var shortText := Field(row, SHORT_TEXT_COLUMN);
    var url := Field(row, URL_COLUMN);
    if suit == "" || name == "" || text == "" {
      return suits, pools;
    }
    var card := Card(DecimalString(index), suit, name, BuildShortText(text, Some(shortText), SHORT_TEXT_LIMIT),
                     text, if url == "" then None else Some(url));
    if suit in pools {
      return suits, pools[suit := pools[suit] + [card]];
    }
    return suits + [suit], pools[suit := [card]];
  }

  /** The row number a loaded card's id spells. */
  function RowIndex(card: Card): nat {
    ParseDecimal(card.id)
  }

  /** Each parsed card carries its own position as id, and a trimmed,
      non-blank suit. */
  predicate Numbered(entries: seq<Option<Card>>) {
    forall i :: 0 <= i < |entries| && entries[i].Some? ==>
      RowIndex(entries[i].value) == i && entries[i].value.suit != "" && Trimmed(entries[i].value.suit)
  }

  lemma ParsedIsNumbered(rows: seq<Row>)
    ensures Numbered(Parsed(rows))
  {
    forall i | 0 <= i < |rows| && Parsed(rows)[i].Some?
      ensures RowIndex(Parsed(rows)[i].value) == i
    {
      ParseDecimalString(i);
    }
  }

  lemma {:induction false} BucketIsEmptyIffNoCard(entries: seq<Option<Card>>)
    ensures Bucket(entries).suits == [] <==> forall i :: 0 <= i < |entries| ==> entries[i].None?
    decreases |entries|
  {
    if entries != [] {
      var index := |entries| - 1;
      var prefix := entries[..index];
      BucketIsEmptyIffNoCard(prefix);
      BucketShape(prefix);
      assert forall i :: 0 <= i < index ==> prefix[i] == entries[i];
    }
  }

  /** Which bucket a card goes to depends on its suit alone, so the catalog is
      a well-formed dict whose buckets are non-empty and whose cards each sit
      in the bucket of their own suit. */
  lemma {:induction false} BucketShape(entries: seq<Option<Card>>)
    ensures Bucket(entries).WellFormed()
    ensures forall s :: s in Bucket(entries).pools ==> Bucket(entries).pools[s] != []
    ensures forall s, k :: s in Bucket(entries).pools && 0 <= k < |Bucket(entries).pools[s]| ==>
      Bucket(entries).pools[s][k].suit == s
    decreases |entries|
  {
    if entries != [] {
      var prefix := entries[..|entries| - 1];
      BucketShape(prefix);
      if entries[|entries| - 1].Some? {
        AddCardShape(Bucket(prefix), entries[|entries| - 1].value);
      }
    }
  }

  /** Adding a card keeps the shape above. */
  lemma AddCardShape(c: Catalog, card: Card)
    requires c.WellFormed()
    requires forall s :: s in c.pools ==> c.pools[s] != []
    requires forall s, k :: s in c.pools && 0 <= k < |c.pools[s]| ==> c.pools[s][k].suit == s
    ensures AddCard(c, card).WellFormed()
    ensures forall s :: s in AddCard(c, card).pools ==> AddCard(c, card).pools[s] != []
    ensures forall s, k :: s in AddCard(c, card).pools && 0 <= k < |AddCard(c, card).pools[s]| ==>
      AddCard(c, card).pools[s][k].suit == s
  {
    var d := AddCard(c, card);
    forall s, k | s in d.pools && 0 <= k < |d.pools[s]| ensures d.pools[s][k].suit == s {
      if s == card.suit && card.suit in c.pools && k < |c.pools[s]| {
        assert d.pools[s][k] == c.pools[s][k];
      }
    }
  }

  /** With numbered entries every suit of the catalog is trimmed and non-blank. */
  lemma BucketSuitsTrimmed(entries: seq<Option<Card>>)
    requires Numbered(entries)
    ensures forall s :: s in Bucket(entries).pools ==> s != "" && Trimmed(s)
  {
    forall s | s in Bucket(entries).pools ensures s != "" && Trimmed(s) {
      BucketIsPool(entries, s);
      PoolSound(entries, s);
      var card := Pool(entries, s)[0];
      assert IsEntryOf(entries, card, s);
    }
  }

  /** The cards of suit `suit`, in order: a reference definition of one bucket
      that does not go through the dict. */
  function Pool(entries: seq<Option<Card>>, suit: string): seq<Card>
    decreases |entries|
  {
    if entries == [] then []
    else
      var last := entries[|entries| - 1];
      Pool(entries[..|entries| - 1], suit) + if last.Some? && last.value.suit == suit then [last.value] else []
  }

  /** Bucketing by suit and filtering by suit agree: the catalog has a bucket
      for `suit` exactly when some card has that suit, and that bucket is the
      suit's pool. */
  lemma {:induction false} BucketIsPool(entries: seq<Option<Card>>, suit: string)
    ensures suit in Bucket(entries).pools <==> Pool(entries, suit) != []
    ensures suit in Bucket(entries).pools ==> Bucket(entries).pools[suit] == Pool(entries, suit)
    decreases |entries|
  {
    if entries != [] {
      BucketIsPool(entries[..|entries| - 1], suit);
    }
  }

  /** `card` has suit `suit` and is the entry at the position its id names. */
  predicate IsEntryOf(entries: seq<Option<Card>>, card: Card, suit: string) {
    RowIndex(card) < |entries| && entries[RowIndex(card)] == Some(card) && card.suit == suit
  }

  /** A suit's pool holds every card of that suit, so it is empty exactly when
      no card has the suit. */
  lemma {:induction false} PoolComplete(entries: seq<Option<Card>>, suit: string)
    ensures forall i :: 0 <= i < |entries| && entries[i].Some? && entries[i].value.suit == suit ==>
      entries[i].value in Pool(entries, suit)
    ensures Pool(entries, suit) != [] <==>
      exists i :: 0 <= i < |entries| && entries[i].Some? && entries[i].value.suit == suit
    decreases |entries|
  {
    if entries != [] {
      var index := |entries| - 1;
      var prefix := entries[..index];
      PoolComplete(prefix, suit);
      assert forall i :: 0 <= i < index ==> prefix[i] == entries[i];
    }
  }

  /** With numbered entries, each card of a suit's pool is the entry its id
      names, and the cards are in file order. */
  lemma {:induction false} PoolSound(entries: seq<Option<Card>>, suit: string)
    requires Numbered(entries)
    ensures forall k :: 0 <= k < |Pool(entries, suit)| ==> IsEntryOf(entries, Pool(entries, suit)[k], suit)
    ensures forall a, b :: 0 <= a < b < |Pool(entries, suit)| ==>
      RowIndex(Pool(entries, suit)[a]) < RowIndex(Pool(entries, suit)[b])
    decreases |entries|
  {
    if entries != [] {
      var index := |entries| - 1;
      var prefix := entries[..index];
      assert Numbered(prefix) by {
        forall i | 0 <= i < index && prefix[i].Some? ensures RowIndex(prefix[i].value) == i {
          assert prefix[i] == entries[i];
        }
      }
      PoolSound(prefix, suit);
      forall k | 0 <= k < |Pool(prefix, suit)|
        ensures IsEntryOf(entries, Pool(prefix, suit)[k], suit) && RowIndex(Pool(prefix, suit)[k]) < index
      {
        assert entries[RowIndex(Pool(prefix, suit)[k])] == prefix[RowIndex(Pool(prefix, suit)[k])];
      }
    }
  }

  /** The loaded catalog has a bucket for exactly the suits some usable row
      names, and that bucket holds the card of every usable row of the suit. */
  lemma LoadedBuckets(rows: seq<Row>, suit: string)
    ensures suit in Bucket(Parsed(rows)).pools <==>
      exists i :: 0 <= i < |rows| && ParseRow(rows[i], i).Some? && ParseRow(rows[i], i).value.suit == suit
    ensures forall i :: 0 <= i < |rows| && ParseRow(rows[i], i).Some? && ParseRow(rows[i], i).value.suit == suit ==>
      suit in Bucket(Parsed(rows)).pools && ParseRow(rows[i], i).value in Bucket(Parsed(rows)).pools[suit]
  {
    var entries := Parsed(rows);
    BucketIsPool(entries, suit);
    PoolComplete(entries, suit);
    assert forall i :: 0 <= i < |rows| ==> entries[i] == ParseRow(rows[i], i);
  }

  /** A bucket of the loaded catalog holds no other card: each of its cards
      is the one parsed from the row its id names, and they are in file
      order. */
  lemma LoadedBucketSound(rows: seq<Row>, suit: string)
    requires suit in Bucket(Parsed(rows)).pools
    ensures forall card :: card in Bucket(Parsed(rows)).pools[suit] ==>
      RowIndex(card) < |rows| && ParseRow(rows[RowIndex(card)], RowIndex(card)) == Some(card) && card.suit == suit
    ensures forall a, b :: 0 <= a < b < |Bucket(Parsed(rows)).pools[suit]| ==>
      RowIndex(Bucket(Parsed(rows)).pools[suit][a]) < RowIndex(Bucket(Parsed(rows)).pools[suit][b])
  {
    var entries := Parsed(rows);
    ParsedIsNumbered(rows);
    BucketIsPool(entries, suit);
    PoolSound(entries, suit);
    forall card | card in Bucket(entries).pools[suit]
      ensures RowIndex(card) < |rows| && ParseRow(rows[RowIndex(card)], RowIndex(card)) == Some(card) && card.suit == suit
    {
      var k :| 0 <= k < |Pool(entries, suit)| && Pool(entries, suit)[k] == card;
      assert IsEntryOf(entries, card, suit);
    }
  }

  /** A loaded catalog is a proper dict whose every suit is a non-empty,
      trimmed name with at least one card. */
  lemma LoadedCatalogShape(rows: seq<Row>)
    ensures Bucket(Parsed(rows)).WellFormed()
    ensures forall s :: s in Bucket(Parsed(rows)).suits ==>
      s != "" && Trimmed(s) && s in Bucket(Parsed(rows)).pools && Bucket(Parsed(rows)).pools[s] != []
  {
    BucketShape(Parsed(rows));
    ParsedIsNumbered(rows);
    BucketSuitsTrimmed(Parsed(rows));
  }

  /** Different usable rows give cards with different ids. */
  lemma CardIdsIdentifyRows(rows: seq<Row>, i: nat, j: nat)
    requires i < |rows| && j < |rows| && i != j
    ensures CardOfRow(rows[i], i).id != CardOfRow(rows[j], j).id
  {
    DecimalStringInjective(i, j);
  }
}
