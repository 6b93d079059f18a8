/** The database session of the game endpoints: the `Game` and `GameCard`
    tables, and the helpers that read and update them. */
module Store {
  import opened Outcomes
  import opened Catalog
  import opened Suits
  import opened Games

  /** `_rows_to_cards`, as the loop it is. */
  method RowsToCards(rows: seq<GameCard>) returns (cards: map<string, Card>)
    ensures cards == Fold(rows)
  {
    cards := map[];
    for i := 0 to |rows|
      invariant cards == Fold(rows[..i])
    {
      assert rows[..i + 1][..i] == rows[..i];
      cards := cards[rows[i].suit := RowCard(rows[i])];
    }
    assert rows[..|rows|] == rows;
  }

  class GameStore {
    /** The `Game` table, by primary key. */
    var games: map<string, Game>
    /** The `GameCard` table, in insertion order. */
    var rows: seq<GameCard>

    /** Every game is stored under its own id, and every card row belongs to a
        stored game (the foreign key). */
    ghost predicate Valid()
      reads this
    {
      && (forall id :: id in games ==> games[id].id == id)
      && (forall k :: 0 <= k < |rows| ==> rows[k].gameId in games)
    }

    /** Empty tables. */
    constructor ()
      ensures Valid() && games == map[] && rows == []
    {
      games := map[];
      rows := [];
    }

    /** `session.add(game); session.commit()` for a new game; a second game
        under a taken id violates the primary key. */
    method AddGame(game: Game) returns (r: Result<Game>)
      requires Valid()
      modifies this
      ensures Valid()
      ensures r.Err? <==> game.id in old(games)
      ensures r.Err? ==> r.error == DuplicateGameId && games == old(games)
      ensures r.Ok? ==> r.value == game && games == old(games)[game.id := game]
      ensures rows == old(rows)
    {
      if game.id in games {
        return Err(DuplicateGameId);
      }
      games := games[game.id := game];
      return Ok(game);
    }

    /** `_get_game_or_404`. */
    function GameOr404(gameId: string): (r: Result<Game>)
      reads this
      ensures r.Err? <==> gameId !in games
      ensures r.Err? ==> r.error == HttpError(NOT_FOUND)
      ensures r.Ok? ==> r.value == games[gameId]
    {
      if gameId in games then Ok(games[gameId]) else Err(HttpError(NOT_FOUND))
    }

    /** `_get_cards_for_game`: the game's rows, folded into one card per suit. */
    method CardsForGame(gameId: string) returns (cards: map<string, Card>)
      ensures cards == CardsFor(rows, gameId)
    {
      var selected := GameRows(rows, gameId);
      if selected == [] {
        return map[];
      }
      cards := RowsToCards(selected);
    }

    /** What `_update_game_cards` leaves behind, given the tables before it ran:
        the first failing check's error with nothing changed, or the plan's
        rows committed, the game's last activity set, and the game's cards
        returned, which are its old cards with every planned suit showing the
        card drawn last for it. */
    ghost predicate Updated(catalog: Catalog, oldGames: map<string, Game>, oldRows: seq<GameCard>, gameId: string,
                            names: seq<string>, now: Timestamp, r: Result<map<string, Card>>,
                            plan: seq<string>, drawn: seq<Card>)
      reads this
      requires gameId in oldGames
    {
      var planned := Plan(catalog, oldRows, gameId, names);
      && (r.Err? <==> planned.Err?)
      && (r.Err? ==> r.error == planned.error && rows == oldRows && games == oldGames)
      && (r.Ok? ==>
            && planned == Ok(plan) && DrawnFrom(catalog, plan, drawn)
            && rows == Committed(oldRows, gameId, plan, drawn, now)
            && games == oldGames[gameId := oldGames[gameId].(lastActivity := now)]
            && r.value == CardsFor(rows, gameId)
            && r.value == CardsFor(oldRows, gameId) + DrawnCards(plan, drawn))
    }

    /** `_update_game_cards`: stage the requested suits in the session, then
        set the game's last activity and commit. Any failure abandons the
        session, so nothing is stored. `plan` and `drawn` record the suits and
        the cards drawn. */
    method UpdateGameCards(catalog: Catalog, gameId: string, names: seq<string>, now: Timestamp)
      returns (r: Result<map<string, Card>>, ghost plan: seq<string>, ghost drawn: seq<Card>)
      requires Valid() && gameId in games
      modifies this
      ensures Valid()
      ensures Updated(catalog, old(games), old(rows), gameId, names, now, r, plan, drawn)
    {
      var staged;
      staged, plan, drawn := StageUpdates(catalog, rows, gameId, names, now);
      if staged.Err? {
        return Err(staged.error), plan, drawn;
      }
      var (table, pending) := staged.value;
      rows := table + pending;
      games := games[gameId := games[gameId].(lastActivity := now)];
      CommittedCards(old(rows), gameId, plan, drawn, now);
      var cards := CardsForGame(gameId);
      return Ok(cards), plan, drawn;
    }
  }

  /** What one pass of the loop leaves behind: the canonical suit, the card
      drawn for it, and the session's table and queued rows. */
  datatype Pass = Pass(suit: string, card: Card, table: seq<GameCard>, pending: seq<GameCard>)

  /** One pass of the loop of `_update_game_cards`, on the session's
      uncommitted state: normalise the name, draw a card of the suit, and
      overwrite the game's row for the suit in place or queue a new row. The
      row query sees `table`, which has the same keys as the stored rows;
      queued rows are not visible to it. */
  method StageSuit(catalog: Catalog, rows: seq<GameCard>, table: seq<GameCard>, pending: seq<GameCard>,
                   gameId: string, name: string, now: Timestamp)
    returns (r: Result<Pass>)
    requires SameKeys(table, rows)
    ensures r.Err? <==> SuitStep(catalog, rows, gameId, name).Err?
    ensures r.Err? ==> r.error == SuitStep(catalog, rows, gameId, name).error
    ensures r.Ok? ==> SuitStep(catalog, rows, gameId, name) == Ok(r.value.suit)
    ensures r.Ok? ==> r.value.card in catalog.pools[r.value.suit]
    ensures r.Ok? ==> (r.value.table, r.value.pending) == Upsert(table, pending, gameId, r.value.suit, r.value.card, now)
    ensures r.Ok? ==> SameKeys(r.value.table, rows)
    ensures r.Ok? ==> r.value.pending == pending || r.value.pending == pending + [NewRow(gameId, r.value.suit, r.value.card, now)]
  {
    var suit :- NormalizeSuitName(catalog, name);
    var card :- ChooseRandomCard(catalog, suit);
    SameKeysQueries(table, rows, gameId, suit);
    var existing :- OneOrNone(table, gameId, suit);
    match existing {
      case Some(j) =>
        r := Ok(Pass(suit, card, table[j := Redrawn(table[j], card, now)], pending));
      case None =>
        r := Ok(Pass(suit, card, table, pending + [NewRow(gameId, suit, card, now)]));
    }
  }

  /** The loop of `_update_game_cards`: one pass per requested name, stopping
      at the first failure. */
  method StageUpdates(catalog: Catalog, rows: seq<GameCard>, gameId: string, names: seq<string>, now: Timestamp)
    returns (r: Result<(seq<GameCard>, seq<GameCard>)>, ghost plan: seq<string>, ghost drawn: seq<Card>)
    ensures r.Err? <==> Plan(catalog, rows, gameId, names).Err?
    ensures r.Err? ==> r.error == Plan(catalog, rows, gameId, names).error
    ensures r.Ok? ==> Plan(catalog, rows, gameId, names) == Ok(plan) && DrawnFrom(catalog, plan, drawn)
    ensures r.Ok? ==> forall i :: 0 <= i < |plan| ==> RowCount(rows, gameId, plan[i]) <= 1
    ensures r.Ok? ==> r.value == Applied(rows, gameId, plan, drawn, now)
    ensures r.Ok? ==> SameKeys(r.value.0, rows)
    ensures r.Ok? ==> forall k :: 0 <= k < |r.value.1| ==> r.value.1[k].gameId == gameId
  {
    var table := rows;
    var pending: seq<GameCard> := [];
    ghost var checks := Checks(catalog, rows, gameId, names);
    plan, drawn := [], [];
    for i := 0 to |names|
      invariant |plan| == i && DrawnFrom(catalog, plan, drawn)
      invariant Collect(checks[..i]) == Ok(plan)
      invariant (table, pending) == Applied(rows, gameId, plan, drawn, now)
      invariant SameKeys(table, rows)
      invariant forall k :: 0 <= k < |pending| ==> pending[k].gameId == gameId
    {
      PlanStep(catalog, rows, gameId, names, i, plan);
      var step := StageSuit(catalog, rows, table, pending, gameId, names[i], now);
      if step.Err? {
        return Err(step.error), plan, drawn;
      }
      var pass := step.value;
      AppliedStep(rows, gameId, plan, drawn, now, pass.suit, pass.card);
      DrawnFromStep(catalog, plan, drawn, pass.suit, pass.card);
      table, pending := pass.table, pass.pending;
      plan, drawn := plan + [pass.suit], drawn + [pass.card];
    }
    assert checks[..|names|] == checks;
    PlanIsFeasible(catalog, rows, gameId, names);
    return Ok((table, pending)), plan, drawn;
  }
}
