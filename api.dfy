/** The HTTP endpoints of the game API, over the catalog loaded at start-up
    and the game store. Requests and responses are values; a failure is the
    status code the endpoint answers with. */
module Api {
  import opened Outcomes
  import opened Text
  import opened Catalog
  import opened Suits
  import opened Games
  import opened Store

  /** The body of a game endpoint's answer. */
  datatype GameResponse = GameResponse(gameId: string, cards: map<string, Card>)

  /** The cards of an answer, or its failure. */
  function CardsOf(r: Result<GameResponse>): Result<map<string, Card>> {
    match r
    case Ok(response) => Ok(response.cards)
    case Err(e) => Err(e)
  }

  /** The suits a request draws for: every suit of the catalog when the
      request names none, otherwise the canonical name of the one it names. */
  function TargetSuits(catalog: Catalog, suit: Option<string>): Result<seq<string>> {
    match suit
    case None => Ok(catalog.suits)
    case Some(name) =>
      var canonical :- NormalizeSuitName(catalog, name);
      Ok([canonical])
  }

  /** Every target suit has a card to draw. */
  predicate Drawable(catalog: Catalog, targets: seq<string>) {
    forall s :: s in targets ==> HasCards(catalog, s)
  }

  /** `GET /api/draw`: one random card of every target suit, keyed by suit;
      500 when the catalog is empty or a target suit has no cards, and the
      error of the suit name when it does not name a suit. */
  method DrawCards(catalog: Catalog, suit: Option<string>) returns (r: Result<map<string, Card>>)
    ensures r.Ok? <==> catalog.suits != [] && TargetSuits(catalog, suit).Ok? && Drawable(catalog, TargetSuits(catalog, suit).value)
    ensures r.Err? && catalog.suits != [] && TargetSuits(catalog, suit).Err? ==> r.error == TargetSuits(catalog, suit).error
    ensures r.Err? && (catalog.suits == [] || TargetSuits(catalog, suit).Ok?) ==> r.error == HttpError(SERVER_ERROR)
    ensures r.Ok? ==> forall s :: s in r.value <==> s in TargetSuits(catalog, suit).value
    ensures r.Ok? ==> forall s :: s in r.value ==> s in catalog.pools && r.value[s] in catalog.pools[s]
  {
    if catalog.suits == [] {
      return Err(HttpError(SERVER_ERROR));
    }
    var targets :- TargetSuits(catalog, suit);
    var drawn: map<string, Card> := map[];
    for i := 0 to |targets|
      invariant forall s :: s in drawn <==> s in targets[..i]
      invariant forall s :: s in drawn ==> s in catalog.pools && drawn[s] in catalog.pools[s]
      invariant Drawable(catalog, targets[..i])
    {
      assert targets[..i + 1] == targets[..i] + [targets[i]];
      var card := ChooseRandomCard(catalog, targets[i]);
      if card.Err? {
        return Err(card.error);
      }
      drawn := drawn[targets[i] := card.value];
    }
    assert targets[..|targets|] == targets;
    return Ok(drawn);
  }

  /** On a loaded catalog every request that names a suit it has, or none,
      finds cards to draw: `GET /api/draw` then answers 500 only for a suit
      it cannot resolve. */
  lemma LoadedCatalogIsDrawable(rows: seq<Row>, suit: Option<string>)
    requires TargetSuits(Bucket(Parsed(rows)), suit).Ok?
    ensures Drawable(Bucket(Parsed(rows)), TargetSuits(Bucket(Parsed(rows)), suit).value)
  {
    LoadedCatalogShape(rows);
  }

  /** `POST /api/games`: store a game under the fresh id, then draw a card
      of every suit for it. A failed draw leaves the game stored without
      cards. */
  method CreateGame(store: GameStore, catalog: Catalog, newId: string, created: Timestamp, now: Timestamp)
    returns (r: Result<GameResponse>, ghost plan: seq<string>, ghost drawn: seq<Card>)
    requires store.Valid()
    modifies store
    ensures store.Valid()
    ensures newId in old(store.games) ==>
      r == Err(DuplicateGameId) && store.games == old(store.games) && store.rows == old(store.rows)
    ensures newId !in old(store.games) ==>
      store.Updated(catalog, old(store.games)[newId := Game(newId, created, created)], old(store.rows), newId,
                    catalog.suits, now, CardsOf(r), plan, drawn)
    ensures r.Ok? ==> r.value.gameId == newId && r.value.cards == DrawnCards(plan, drawn)
  {
    var added := store.AddGame(Game(newId, created, created));
    if added.Err? {
      return Err(added.error), [], [];
    }
    var update;
    update, plan, drawn := store.UpdateGameCards(catalog, newId, catalog.suits, now);
    if update.Err? {
      return Err(update.error), plan, drawn;
    }
    GameRowsNone(old(store.rows), newId);
    return Ok(GameResponse(newId, update.value)), plan, drawn;
  }

  /** `GET /api/games/{game_id}`: 404 for an unknown game; the stored cards
      when the game has any; otherwise a card of every suit is drawn for it. */
  method GetGame(store: GameStore, catalog: Catalog, gameId: string, now: Timestamp)
    returns (r: Result<GameResponse>, ghost plan: seq<string>, ghost drawn: seq<Card>)
    requires store.Valid()
    modifies store
    ensures store.Valid()
    ensures gameId !in old(store.games) ==> r == Err(HttpError(NOT_FOUND)) && unchanged(store)
    ensures gameId in old(store.games) && CardsFor(old(store.rows), gameId) != map[] ==>
      r == Ok(GameResponse(gameId, CardsFor(old(store.rows), gameId))) && unchanged(store)
    ensures gameId in old(store.games) && CardsFor(old(store.rows), gameId) == map[] ==>
      store.Updated(catalog, old(store.games), old(store.rows), gameId, catalog.suits, now, CardsOf(r), plan, drawn)
    ensures r.Ok? ==> r.value.gameId == gameId
  {
    var game := store.GameOr404(gameId);
    if game.Err? {
      return Err(game.error), [], [];
    }
    var cards := store.CardsForGame(gameId);
    if cards != map[] {
      return Ok(GameResponse(gameId, cards)), [], [];
    }
    var update;
    update, plan, drawn := store.UpdateGameCards(catalog, gameId, catalog.suits, now);
    if update.Err? {
      return Err(update.error), plan, drawn;
    }
    return Ok(GameResponse(gameId, update.value)), plan, drawn;
  }

  /** `POST /api/games/{game_id}/draw`: 404 for an unknown game, then the
      error of the suit name, if any; otherwise a card of every target suit
      is drawn for the game. */
  method DrawGameCards(store: GameStore, catalog: Catalog, gameId: string, suit: Option<string>, now: Timestamp)
    returns (r: Result<GameResponse>, ghost plan: seq<string>, ghost drawn: seq<Card>)
    requires store.Valid()
    modifies store
    ensures store.Valid()
    ensures gameId !in old(store.games) ==> r == Err(HttpError(NOT_FOUND)) && unchanged(store)
    ensures gameId in old(store.games) && TargetSuits(catalog, suit).Err? ==>
      r == Err(TargetSuits(catalog, suit).error) && unchanged(store)
    ensures gameId in old(store.games) && TargetSuits(catalog, suit).Ok? ==>
      store.Updated(catalog, old(store.games), old(store.rows), gameId, TargetSuits(catalog, suit).value, now,
                    CardsOf(r), plan, drawn)
    ensures r.Ok? ==> r.value.gameId == gameId
  {
    var game := store.GameOr404(gameId);
    if game.Err? {
      return Err(game.error), [], [];
    }
    var targets := TargetSuits(catalog, suit);
    if targets.Err? {
      return Err(targets.error), [], [];
    }
    var update;
    update, plan, drawn := store.UpdateGameCards(catalog, gameId, targets.value, now);
    if update.Err? {
      return Err(update.error), plan, drawn;
    }
    return Ok(GameResponse(gameId, update.value)), plan, drawn;
  }

  /** A game with no rows yet gets exactly one card of every suit, provided
      the catalog's suit names are trimmed, differ even ignoring case, and
      each has cards (a loaded catalog has all but the second): the plan is
      the catalog's own suit list. */
  lemma FreshGamePlansEverySuit(catalog: Catalog, table: seq<GameCard>, gameId: string)
    requires forall s :: s in catalog.suits ==> s != "" && Trimmed(s) && HasCards(catalog, s)
    requires forall i, j :: 0 <= i < j < |catalog.suits| ==> Lower(catalog.suits[i]) != Lower(catalog.suits[j])
    requires forall k :: 0 <= k < |table| ==> table[k].gameId != gameId
    ensures Plan(catalog, table, gameId, catalog.suits) == Ok(catalog.suits)
  {
    var names := catalog.suits;
    PlanSpec(catalog, table, gameId, names);
    forall i | 0 <= i < |names|
      ensures SuitStep(catalog, table, gameId, names[i]) == Ok(names[i])
    {
      assert names[i] in names;
      NormalizeCatalogSuit(catalog, i);
      RowCountSpec(table, gameId, names[i]);
    }
    assert Plan(catalog, table, gameId, names).Ok?;
    var plan := Plan(catalog, table, gameId, names).value;
    assert |plan| == |names| && forall i :: 0 <= i < |names| ==> plan[i] == names[i];
    assert plan == names;
  }

  /** Once a plan has named a suit twice for a game without a row for it,
      every later request that resolves to that suit fails with
      `MultipleRowsFound`. */
  lemma RepeatedSuitJamsGame(catalog: Catalog, table: seq<GameCard>, gameId: string, names: seq<string>,
                             plan: seq<string>, drawn: seq<Card>, now: Timestamp, a: nat, b: nat, name: string)
    requires Plan(catalog, table, gameId, names) == Ok(plan) && |drawn| == |plan|
    requires a < b < |plan| && plan[a] == plan[b] && RowCount(table, gameId, plan[a]) == 0
    requires NormalizeSuitName(catalog, name) == Ok(plan[a])
    ensures SuitStep(catalog, Committed(table, gameId, plan, drawn, now), gameId, name) == Err(MultipleRowsFound)
  {
    PlanIsFeasible(catalog, table, gameId, names);
    RepeatedSuitDuplicatesRows(table, gameId, plan, drawn, now, a, b);
  }

  /** Two catalog suits that differ only in case both resolve to the later
      one, so drawing every suit names it twice. */
  lemma CaseCollidingSuitsRepeat(catalog: Catalog, table: seq<GameCard>, gameId: string, i: nat, j: nat)
    requires i < j < |catalog.suits|
    requires Lower(catalog.suits[i]) == Lower(catalog.suits[j])
    requires forall k :: j < k < |catalog.suits| ==> Lower(catalog.suits[k]) != Lower(catalog.suits[j])
    requires catalog.suits[i] != "" && Trimmed(catalog.suits[i]) && Trimmed(catalog.suits[j])
    requires Plan(catalog, table, gameId, catalog.suits).Ok?
    ensures |Plan(catalog, table, gameId, catalog.suits).value| == |catalog.suits|
    ensures Plan(catalog, table, gameId, catalog.suits).value[i] == catalog.suits[j]
    ensures Plan(catalog, table, gameId, catalog.suits).value[j] == catalog.suits[j]
  {
    PlanSpec(catalog, table, gameId, catalog.suits);
    CaseCollidingSuitsMerge(catalog, i, j);
  }
}
