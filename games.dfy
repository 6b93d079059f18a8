/** The two tables of shared games (`Game` and `GameCard`) as values, and what
    `_update_game_cards` does to the card table, stated as functions: the
    validation of the requested suits, the row-by-row upsert, an independent
    description of its outcome, and the cards a game then shows. */
module Games {
  import opened Outcomes
  import opened Text
  import opened Catalog
  import opened Suits

  /** `datetime.utcnow()` values; only their identity matters here. */
  type Timestamp = int

  datatype Game = Game(id: string, createdAt: Timestamp, lastActivity: Timestamp)

  /** One stored card of a game. The surrogate integer key is left out: no
      operation reads it. */
  datatype GameCard = GameCard(gameId: string, suit: string, cardId: string, name: string,
                               shortText: string, text: string, url: Option<string>, updatedAt: Timestamp)

  /** The API card a stored row stands for. */
  function RowCard(row: GameCard): Card {
    Card(row.cardId, row.suit, row.name, row.shortText, row.text, row.url)
  }

  /** The row inserted for a suit the game has no row for yet. */
  function NewRow(gameId: string, suit: string, card: Card, now: Timestamp): GameCard {
    GameCard(gameId, suit, card.id, card.name, card.shortText, card.text, card.url, now)
  }

  /** An existing row with a freshly drawn card copied into it. */
  function Redrawn(row: GameCard, card: Card, now: Timestamp): GameCard {
    row.(cardId := card.id, name := card.name, shortText := card.shortText, text := card.text,
         url := card.url, updatedAt := now)
  }

  /** The filter `GameCard.game_id == game_id AND GameCard.suit == suit`. */
  predicate Matches(row: GameCard, gameId: string, suit: string) {
    row.gameId == gameId && row.suit == suit
  }

  /** How many rows pass that filter. */
  function RowCount(table: seq<GameCard>, gameId: string, suit: string): nat
    decreases |table|
  {
    if table == [] then 0
    else RowCount(table[..|table| - 1], gameId, suit) + if Matches(table[|table| - 1], gameId, suit) then 1 else 0
  }

  /** No row passes the filter exactly when the count is zero, and a count of
      at most one leaves room for one matching row only. */
  lemma {:induction false} RowCountSpec(table: seq<GameCard>, gameId: string, suit: string)
    ensures RowCount(table, gameId, suit) == 0 <==> forall i :: 0 <= i < |table| ==> !Matches(table[i], gameId, suit)
    ensures RowCount(table, gameId, suit) <= 1 ==>
      forall i, j :: 0 <= i < |table| && 0 <= j < |table| && Matches(table[i], gameId, suit) && Matches(table[j], gameId, suit) ==> i == j
    decreases |table|
  {
    if table != [] {
      var prefix := table[..|table| - 1];
      RowCountSpec(prefix, gameId, suit);
      assert forall i :: 0 <= i < |prefix| ==> prefix[i] == table[i];
    }
  }

  /** The position of the first row passing the filter. */
  function FindRow(table: seq<GameCard>, gameId: string, suit: string): (r: Option<nat>)
    ensures r.None? <==> forall i :: 0 <= i < |table| ==> !Matches(table[i], gameId, suit)
    ensures r.Some? ==> r.value < |table| && Matches(table[r.value], gameId, suit)
    decreases |table|
  {
    if table == [] then None
    else if Matches(table[0], gameId, suit) then Some(0)
    else
      var rest := FindRow(table[1..], gameId, suit);
      assert forall i :: 1 <= i < |table| ==> table[i] == table[1..][i - 1];
      match rest
      case None => None
      case Some(i) => Some(i + 1)
  }

  /** `session.exec(...).one_or_none()`: the one matching row if there is
      one, nothing if there is none, an error if there are several. */
  function OneOrNone(table: seq<GameCard>, gameId: string, suit: string): (r: Result<Option<nat>>)
    ensures r.Err? <==> RowCount(table, gameId, suit) > 1
    ensures r.Err? ==> r.error == MultipleRowsFound
    ensures r == Ok(None) <==> forall i :: 0 <= i < |table| ==> !Matches(table[i], gameId, suit)
    ensures r.Ok? && r.value.Some? ==>
      var j := r.value.value;
      j < |table| && Matches(table[j], gameId, suit)
      && forall i :: 0 <= i < |table| && Matches(table[i], gameId, suit) ==> i == j
  {
    RowCountSpec(table, gameId, suit);
    if RowCount(table, gameId, suit) > 1 then Err(MultipleRowsFound) else Ok(FindRow(table, gameId, suit))
  }

  /** Two tables with the same game and suit in every position. */
  predicate SameKeys(a: seq<GameCard>, b: seq<GameCard>) {
    |a| == |b| && forall j :: 0 <= j < |a| ==> a[j].gameId == b[j].gameId && a[j].suit == b[j].suit
  }

  /** Queries by game and suit cannot tell such tables apart. */
  lemma {:induction false} SameKeysQueries(a: seq<GameCard>, b: seq<GameCard>, gameId: string, suit: string)
    requires SameKeys(a, b)
    ensures RowCount(a, gameId, suit) == RowCount(b, gameId, suit)
    ensures FindRow(a, gameId, suit) == FindRow(b, gameId, suit)
    decreases |a|
  {
    if a != [] {
      SameKeysQueries(a[..|a| - 1], b[..|b| - 1], gameId, suit);
      SameKeysQueries(a[1..], b[1..], gameId, suit);
    }
  }

  /** One requested suit, as the loop body checks it: normalise the name
      (400 or 404), check the suit has cards (500), and query the game's row
      for it (several rows are an error). */
  function SuitStep(catalog: Catalog, table: seq<GameCard>, gameId: string, name: string): (r: Result<string>)
    ensures r.Ok? ==> NormalizeSuitName(catalog, name) == Ok(r.value)
    ensures r.Ok? ==> HasCards(catalog, r.value) && RowCount(table, gameId, r.value) <= 1
    ensures NormalizeSuitName(catalog, name).Err? ==> r == NormalizeSuitName(catalog, name)
    ensures NormalizeSuitName(catalog, name).Ok? && !HasCards(catalog, NormalizeSuitName(catalog, name).value) ==>
      r == Err(HttpError(SERVER_ERROR))
    ensures (NormalizeSuitName(catalog, name).Ok? && HasCards(catalog, NormalizeSuitName(catalog, name).value)
             && RowCount(table, gameId, NormalizeSuitName(catalog, name).value) > 1) ==> r == Err(MultipleRowsFound)
    ensures (NormalizeSuitName(catalog, name).Ok? && HasCards(catalog, NormalizeSuitName(catalog, name).value)
             && RowCount(table, gameId, NormalizeSuitName(catalog, name).value) <= 1) ==> r.Ok?
  {
    var suit :- NormalizeSuitName(catalog, name);
    if !HasCards(catalog, suit) then Err(HttpError(SERVER_ERROR))
    else if RowCount(table, gameId, suit) > 1 then Err(MultipleRowsFound)
    else Ok(suit)
  }

  /** Checks taken in order: all the values when every check passed,
      otherwise the first failure. */
  function Collect(results: seq<Result<string>>): Result<seq<string>>
    decreases |results|
  {
    if results == [] then Ok([])
    else
      var values :- Collect(results[..|results| - 1]);
      var value :- results[|results| - 1];
      Ok(values + [value])
  }

  /** Collecting succeeds exactly when every check passed, and then holds their
      values in order; otherwise its error is that of the first failed check. */
  lemma {:induction false} CollectSpec(results: seq<Result<string>>)
    ensures Collect(results).Ok? <==> forall i :: 0 <= i < |results| ==> results[i].Ok?
    ensures Collect(results).Ok? ==>
      |Collect(results).value| == |results| && forall i :: 0 <= i < |results| ==> results[i] == Ok(Collect(results).value[i])
    ensures Collect(results).Err? ==>
      exists i :: 0 <= i < |results| && results[i].Err? && Collect(results).error == results[i].error
        && forall j :: 0 <= j < i ==> results[j].Ok?
    decreases |results|
  {
    if results != [] {
      var n := |results| - 1;
      var prefix := results[..n];
      CollectSpec(prefix);
      assert forall i :: 0 <= i < n ==> prefix[i] == results[i];
      var before := Collect(prefix);
      if before.Err? {
        var i :| 0 <= i < n && prefix[i].Err? && before.error == prefix[i].error
          && forall j :: 0 <= j < i ==> prefix[j].Ok?;
        assert results[i].Err?;
      } else if results[n].Ok? {
        var all := Collect(results).value;
        assert all == before.value + [results[n].value];
        assert forall i :: 0 <= i < n ==> all[i] == before.value[i];
      }
    }
  }

  /** The check of each requested name, in order. */
  function Checks(catalog: Catalog, table: seq<GameCard>, gameId: string, names: seq<string>): (r: seq<Result<string>>)
    ensures |r| == |names|
  {
    seq(|names|, i requires 0 <= i < |names| => SuitStep(catalog, table, gameId, names[i]))
  }

  /** The requested names, checked in order: the canonical suits when all
      pass, otherwise the first failure. */
  function Plan(catalog: Catalog, table: seq<GameCard>, gameId: string, names: seq<string>): Result<seq<string>> {
    Collect(Checks(catalog, table, gameId, names))
  }

  /** A plan succeeds exactly when every name passes, and it then holds each
      name's canonical suit; otherwise its error is that of the first name that
      fails. */
  lemma PlanSpec(catalog: Catalog, table: seq<GameCard>, gameId: string, names: seq<string>)
    ensures Plan(catalog, table, gameId, names).Ok? <==>
      forall i :: 0 <= i < |names| ==> SuitStep(catalog, table, gameId, names[i]).Ok?
    ensures Plan(catalog, table, gameId, names).Ok? ==>
      |Plan(catalog, table, gameId, names).value| == |names|
      && forall i :: 0 <= i < |names| ==>
        SuitStep(catalog, table, gameId, names[i]) == Ok(Plan(catalog, table, gameId, names).value[i])
    ensures Plan(catalog, table, gameId, names).Err? ==>
      exists i :: 0 <= i < |names| && SuitStep(catalog, table, gameId, names[i]).Err?
        && Plan(catalog, table, gameId, names).error == SuitStep(catalog, table, gameId, names[i]).error
        && forall j :: 0 <= j < i ==> SuitStep(catalog, table, gameId, names[j]).Ok?
  {
    var checks := Checks(catalog, table, gameId, names);
    CollectSpec(checks);
    assert forall i :: 0 <= i < |names| ==> checks[i] == SuitStep(catalog, table, gameId, names[i]);
    if Collect(checks).Err? {
      var i :| 0 <= i < |checks| && checks[i].Err? && Collect(checks).error == checks[i].error
        && forall j :: 0 <= j < i ==> checks[j].Ok?;
      assert SuitStep(catalog, table, gameId, names[i]) == checks[i];
      assert forall j :: 0 <= j < i ==> SuitStep(catalog, table, gameId, names[j]).Ok?;
    }
  }

  /** Checking one more name: the plan so far grows by its suit, or the
      whole plan fails with its error. */
  lemma PlanStep(catalog: Catalog, table: seq<GameCard>, gameId: string, names: seq<string>, i: nat,
                 planned: seq<string>)
    requires i < |names| && Collect(Checks(catalog, table, gameId, names)[..i]) == Ok(planned)
    ensures SuitStep(catalog, table, gameId, names[i]).Ok? ==>
      Collect(Checks(catalog, table, gameId, names)[..i + 1]) == Ok(planned + [SuitStep(catalog, table, gameId, names[i]).value])
    ensures SuitStep(catalog, table, gameId, names[i]).Err? ==>
      Plan(catalog, table, gameId, names) == Err(SuitStep(catalog, table, gameId, names[i]).error)
  {
    var checks := Checks(catalog, table, gameId, names);
    assert checks[..i + 1][..i] == checks[..i];
    assert checks[..i + 1][i] == SuitStep(catalog, table, gameId, names[i]);
    if SuitStep(catalog, table, gameId, names[i]).Err? {
      CollectStopsAtFailure(checks, i + 1);
    }
  }

  /** Checks taken in order stop at the first failure: once a prefix has
      failed, so has every longer list, with the same error. */
  lemma {:induction false} CollectStopsAtFailure(results: seq<Result<string>>, m: nat)
    requires m <= |results| && Collect(results[..m]).Err?
    ensures Collect(results) == Collect(results[..m])
    decreases |results|
  {
    if m < |results| {
      var n := |results| - 1;
      assert results[..n][..m] == results[..m];
      CollectStopsAtFailure(results[..n], m);
    } else {
      assert results[..m] == results;
    }
  }

  /** Every suit of a plan has cards and at most one row of the game. */
  predicate Feasible(catalog: Catalog, table: seq<GameCard>, gameId: string, plan: seq<string>) {
    forall i :: 0 <= i < |plan| ==> HasCards(catalog, plan[i]) && RowCount(table, gameId, plan[i]) <= 1
  }

  lemma PlanIsFeasible(catalog: Catalog, table: seq<GameCard>, gameId: string, names: seq<string>)
    requires Plan(catalog, table, gameId, names).Ok?
    ensures Feasible(catalog, table, gameId, Plan(catalog, table, gameId, names).value)
  {
    PlanSpec(catalog, table, gameId, names);
    var plan := Plan(catalog, table, gameId, names).value;
    forall i | 0 <= i < |plan| ensures HasCards(catalog, plan[i]) && RowCount(table, gameId, plan[i]) <= 1 {
      assert SuitStep(catalog, table, gameId, names[i]) == Ok(plan[i]);
    }
  }

  /** Each card drawn is a card of the suit it was drawn for. */
  ghost predicate DrawnFrom(catalog: Catalog, plan: seq<string>, drawn: seq<Card>) {
    |drawn| == |plan| && forall i :: 0 <= i < |plan| ==> plan[i] in catalog.pools && drawn[i] in catalog.pools[plan[i]]
  }

  lemma DrawnFromStep(catalog: Catalog, plan: seq<string>, drawn: seq<Card>, suit: string, card: Card)
    requires DrawnFrom(catalog, plan, drawn) && suit in catalog.pools && card in catalog.pools[suit]
    ensures DrawnFrom(catalog, plan + [suit], drawn + [card])
  {
  }

  /** One pass of the loop body after the checks: overwrite the game's row for
      the suit in place, or queue a new row when there is none. `table` is the
      table as the session sees it; queued rows are not visible to it. */
  function Upsert(table: seq<GameCard>, pending: seq<GameCard>, gameId: string, suit: string, card: Card, now: Timestamp)
    : (seq<GameCard>, seq<GameCard>)
  {
    match FindRow(table, gameId, suit)
    case None => (table, pending + [NewRow(gameId, suit, card, now)])
    case Some(j) => (table[j := Redrawn(table[j], card, now)], pending)
  }

  /** The table and the queued rows after the loop has upserted `drawn[i]`
      for each planned suit `plan[i]`, in order. */
  function Applied(table: seq<GameCard>, gameId: string, plan: seq<string>, drawn: seq<Card>, now: Timestamp)
    : (seq<GameCard>, seq<GameCard>)
    requires |drawn| == |plan|
    decreases |plan|
  {
    if plan == [] then (table, [])
    else
      var n := |plan| - 1;
      var (t, p) := Applied(table, gameId, plan[..n], drawn[..n], now);
      Upsert(t, p, gameId, plan[n], drawn[n], now)
  }

  /** One more pass of the loop upserts one more card. */
  lemma AppliedStep(table: seq<GameCard>, gameId: string, plan: seq<string>, drawn: seq<Card>, now: Timestamp,
                    suit: string, card: Card)
    requires |drawn| == |plan|
    ensures Applied(table, gameId, plan + [suit], drawn + [card], now)
         == Upsert(Applied(table, gameId, plan, drawn, now).0, Applied(table, gameId, plan, drawn, now).1,
                   gameId, suit, card, now)
  {
    assert (plan + [suit])[..|plan|] == plan && (drawn + [card])[..|drawn|] == drawn;
  }

  /** The card table once the session commits: the updated rows, then the
      queued ones. */
  function Committed(table: seq<GameCard>, gameId: string, plan: seq<string>, drawn: seq<Card>, now: Timestamp)
    : seq<GameCard>
    requires |drawn| == |plan|
  {
    Applied(table, gameId, plan, drawn, now).0 + Applied(table, gameId, plan, drawn, now).1
  }

  /** The position of the last occurrence of `suit` in `plan`. */
  function LastIndex(plan: seq<string>, suit: string): (i: nat)
    requires suit in plan
    ensures i < |plan| && plan[i] == suit
    ensures forall j :: i < j < |plan| ==> plan[j] != suit
    decreases |plan|
  {
    if plan[|plan| - 1] == suit then |plan| - 1
    else
      assert suit in plan[..|plan| - 1] by {
        var k :| 0 <= k < |plan| && plan[k] == suit;
        assert plan[..|plan| - 1][k] == suit;
      }
      LastIndex(plan[..|plan| - 1], suit)
  }

  /** Reference description of the updated rows: each row of the game whose
      suit is planned holds the card drawn last for that suit; every other row
      is as it was. */
  function RedrawnTable(table: seq<GameCard>, gameId: string, plan: seq<string>, drawn: seq<Card>, now: Timestamp)
    : (r: seq<GameCard>)
    requires |drawn| == |plan|
    ensures |r| == |table|
  {
    seq(|table|, j requires 0 <= j < |table| =>
      if table[j].gameId == gameId && table[j].suit in plan
      then Redrawn(table[j], drawn[LastIndex(plan, table[j].suit)], now)
      else table[j])
  }

  /** Reference description of the queued rows: a new row for each planned
      suit the game had no row for, in plan order. */
  function Appended(table: seq<GameCard>, gameId: string, plan: seq<string>, drawn: seq<Card>, now: Timestamp)
    : seq<GameCard>
    requires |drawn| == |plan|
    decreases |plan|
  {
    if plan == [] then []
    else
      var n := |plan| - 1;
      Appended(table, gameId, plan[..n], drawn[..n], now)
        + if RowCount(table, gameId, plan[n]) == 0 then [NewRow(gameId, plan[n], drawn[n], now)] else []
  }

  /** Overwriting a row twice leaves the second card. */
  lemma RedrawnTwice(row: GameCard, first: Card, second: Card, now: Timestamp, later: Timestamp)
    ensures Redrawn(Redrawn(row, first, now), second, later) == Redrawn(row, second, later)
  {
  }

  /** The loop's row-by-row upsert agrees with the reference description,
      provided every planned suit has at most one row of the game. */
  lemma {:induction false} AppliedIsReference(table: seq<GameCard>, gameId: string, plan: seq<string>, drawn: seq<Card>,
                                              now: Timestamp)
    requires |drawn| == |plan|
    requires forall i :: 0 <= i < |plan| ==> RowCount(table, gameId, plan[i]) <= 1
    ensures Applied(table, gameId, plan, drawn, now).0 == RedrawnTable(table, gameId, plan, drawn, now)
    ensures Applied(table, gameId, plan, drawn, now).1 == Appended(table, gameId, plan, drawn, now)
    decreases |plan|
  {
    if plan != [] {
      var n := |plan| - 1;
      AppliedIsReference(table, gameId, plan[..n], drawn[..n], now);
      ReferenceStep(table, gameId, plan, drawn, now);
    }
  }

  /** Upserting the last planned suit into the reference description of the
      earlier ones gives the reference description of the whole plan. */
  lemma ReferenceStep(table: seq<GameCard>, gameId: string, plan: seq<string>, drawn: seq<Card>, now: Timestamp)
    requires |drawn| == |plan| && plan != []
    requires RowCount(table, gameId, plan[|plan| - 1]) <= 1
    ensures var n := |plan| - 1;
      Upsert(RedrawnTable(table, gameId, plan[..n], drawn[..n], now), Appended(table, gameId, plan[..n], drawn[..n], now),
             gameId, plan[n], drawn[n], now)
      == (RedrawnTable(table, gameId, plan, drawn, now), Appended(table, gameId, plan, drawn, now))
  {
    var n := |plan| - 1;
    var prefix, drawnBefore := plan[..n], drawn[..n];
    var suit, card := plan[n], drawn[n];
    var t := RedrawnTable(table, gameId, prefix, drawnBefore, now);
    var full := RedrawnTable(table, gameId, plan, drawn, now);
    assert SameKeys(t, table);
    SameKeysQueries(t, table, gameId, suit);
    RowCountSpec(table, gameId, suit);
    ReferenceOthers(table, gameId, plan, drawn, now);
    match FindRow(table, gameId, suit)
    case None =>
      assert full == t;
    case Some(j) =>
      ReferenceLast(table, gameId, plan, drawn, now, j);
      assert full == t[j := Redrawn(t[j], card, now)];
      assert RowCount(table, gameId, suit) != 0;
      assert Appended(table, gameId, plan, drawn, now) == Appended(table, gameId, prefix, drawnBefore, now);
  }

  /** Rows not matching the last planned suit look the same in the reference
      descriptions with and without it. */
  lemma ReferenceOthers(table: seq<GameCard>, gameId: string, plan: seq<string>, drawn: seq<Card>, now: Timestamp)
    requires |drawn| == |plan| && plan != []
    ensures var n := |plan| - 1;
      forall j :: 0 <= j < |table| && !Matches(table[j], gameId, plan[n]) ==>
        RedrawnTable(table, gameId, plan, drawn, now)[j] == RedrawnTable(table, gameId, plan[..n], drawn[..n], now)[j]
  {
    var n := |plan| - 1;
    var prefix, drawnBefore := plan[..n], drawn[..n];
    forall j | 0 <= j < |table| && !Matches(table[j], gameId, plan[n])
      ensures RedrawnTable(table, gameId, plan, drawn, now)[j] == RedrawnTable(table, gameId, prefix, drawnBefore, now)[j]
    {
      var row := table[j];
      if row.gameId == gameId && row.suit in plan {
        var k :| 0 <= k < |plan| && plan[k] == row.suit;
        assert prefix[k] == row.suit;
        var last := LastIndex(prefix, row.suit);
        assert LastIndex(plan, row.suit) == last;
        assert drawn[last] == drawnBefore[last];
      }
    }
  }

  /** The row matching the last planned suit gets that suit's card. */
  lemma ReferenceLast(table: seq<GameCard>, gameId: string, plan: seq<string>, drawn: seq<Card>, now: Timestamp, j: nat)
    requires |drawn| == |plan| && plan != []
    requires j < |table| && Matches(table[j], gameId, plan[|plan| - 1])
    ensures var n := |plan| - 1;
      var t := RedrawnTable(table, gameId, plan[..n], drawn[..n], now);
      RedrawnTable(table, gameId, plan, drawn, now)[j] == Redrawn(t[j], drawn[n], now)
  {
    var n := |plan| - 1;
    assert LastIndex(plan, plan[n]) == n;
  }

  /** Rows of other games, and rows of the game whose suit is not planned,
      are left as they were; each new row belongs to the game and to a
      planned suit it had no row for. */
  lemma CommittedLeavesOthers(table: seq<GameCard>, gameId: string, plan: seq<string>, drawn: seq<Card>, now: Timestamp)
    requires |drawn| == |plan|
    requires forall i :: 0 <= i < |plan| ==> RowCount(table, gameId, plan[i]) <= 1
    ensures |Committed(table, gameId, plan, drawn, now)| >= |table|
    ensures forall j :: 0 <= j < |table| && (table[j].gameId != gameId || table[j].suit !in plan) ==>
      Committed(table, gameId, plan, drawn, now)[j] == table[j]
    ensures forall j :: |table| <= j < |Committed(table, gameId, plan, drawn, now)| ==>
      var row := Committed(table, gameId, plan, drawn, now)[j];
      row.gameId == gameId && row.suit in plan && RowCount(table, gameId, row.suit) == 0
  {
    AppliedIsReference(table, gameId, plan, drawn, now);
    AppendedShape(table, gameId, plan, drawn, now);
  }

  /** What the queued rows are: rows of the game, for planned suits it had no
      row for, each suit once when the plan names each suit once. */
  lemma {:induction false} AppendedShape(table: seq<GameCard>, gameId: string, plan: seq<string>, drawn: seq<Card>,
                                         now: Timestamp)
    requires |drawn| == |plan|
    ensures forall k :: 0 <= k < |Appended(table, gameId, plan, drawn, now)| ==>
      var row := Appended(table, gameId, plan, drawn, now)[k];
      row.gameId == gameId && row.suit in plan && RowCount(table, gameId, row.suit) == 0
    ensures Distinct(plan) ==> UniqueRows(Appended(table, gameId, plan, drawn, now))
    decreases |plan|
  {
    if plan != [] {
      var n := |plan| - 1;
      var prefix := plan[..n];
      AppendedShape(table, gameId, prefix, drawn[..n], now);
      var before := Appended(table, gameId, prefix, drawn[..n], now);
      assert forall s :: s in prefix ==> s in plan;
      if Distinct(plan) {
        assert Distinct(prefix);
        assert forall k :: 0 <= k < |before| ==> before[k].suit in prefix;
        assert plan[n] !in prefix;
      }
    }
  }

  /** Each suit at most once. */
  predicate Distinct(plan: seq<string>) {
    forall i, j :: 0 <= i < j < |plan| ==> plan[i] != plan[j]
  }

  /** At most one row per game and suit. */
  predicate UniqueRows(table: seq<GameCard>) {
    forall i, j :: 0 <= i < j < |table| ==> !Matches(table[j], table[i].gameId, table[i].suit)
  }

  /** A table with one row per game and suit keeps that shape when the plan
      names each suit once. */
  lemma CommittedUnique(table: seq<GameCard>, gameId: string, plan: seq<string>, drawn: seq<Card>, now: Timestamp)
    requires |drawn| == |plan|
    requires forall i :: 0 <= i < |plan| ==> RowCount(table, gameId, plan[i]) <= 1
    requires UniqueRows(table) && Distinct(plan)
    ensures UniqueRows(Committed(table, gameId, plan, drawn, now))
  {
    AppliedIsReference(table, gameId, plan, drawn, now);
    AppendedShape(table, gameId, plan, drawn, now);
    var t := RedrawnTable(table, gameId, plan, drawn, now);
    var p := Appended(table, gameId, plan, drawn, now);
    var all := t + p;
    forall i, j | 0 <= i < j < |all| ensures !Matches(all[j], all[i].gameId, all[i].suit) {
      if j < |t| {
        assert all[i].gameId == table[i].gameId && all[i].suit == table[i].suit;
        assert all[j].gameId == table[j].gameId && all[j].suit == table[j].suit;
      } else if i < |t| {
        var row := p[j - |t|];
        RowCountSpec(table, gameId, row.suit);
        assert all[i].gameId == table[i].gameId && all[i].suit == table[i].suit;
      } else {
        assert all[i] == p[i - |t|] && all[j] == p[j - |t|];
      }
    }
  }

  /** The rows queued for the first `m` planned suits come first among all
      queued rows. */
  lemma {:induction false} AppendedPrefix(table: seq<GameCard>, gameId: string, plan: seq<string>, drawn: seq<Card>,
                                          now: Timestamp, m: nat)
    requires |drawn| == |plan| && m <= |plan|
    ensures Appended(table, gameId, plan[..m], drawn[..m], now) <= Appended(table, gameId, plan, drawn, now)
    decreases |plan|
  {
    if m < |plan| {
      var n := |plan| - 1;
      AppendedPrefix(table, gameId, plan[..n], drawn[..n], now, m);
      assert plan[..n][..m] == plan[..m] && drawn[..n][..m] == drawn[..m];
    } else {
      assert plan[..m] == plan && drawn[..m] == drawn;
    }
  }

  /** The position, among the queued rows, of the row queued for `plan[a]`. */
  lemma QueuedRowAt(table: seq<GameCard>, gameId: string, plan: seq<string>, drawn: seq<Card>, now: Timestamp, a: nat)
    requires |drawn| == |plan| && a < |plan| && RowCount(table, gameId, plan[a]) == 0
    ensures var k := |Appended(table, gameId, plan[..a], drawn[..a], now)|;
      k < |Appended(table, gameId, plan, drawn, now)|
      && Appended(table, gameId, plan, drawn, now)[k] == NewRow(gameId, plan[a], drawn[a], now)
      && k + 1 == |Appended(table, gameId, plan[..a + 1], drawn[..a + 1], now)|
  {
    AppendedPrefix(table, gameId, plan, drawn, now, a + 1);
    var upTo := plan[..a + 1];
    assert upTo[..a] == plan[..a] && drawn[..a + 1][..a] == drawn[..a];
  }

  /** Naming a suit twice for a game that has no row for it queues two rows
      for the same suit, and the table loses its one-row-per-suit shape. */
  lemma RepeatedSuitDuplicatesRows(table: seq<GameCard>, gameId: string, plan: seq<string>, drawn: seq<Card>,
                                   now: Timestamp, a: nat, b: nat)
    requires |drawn| == |plan|
    requires forall i :: 0 <= i < |plan| ==> RowCount(table, gameId, plan[i]) <= 1
    requires a < b < |plan| && plan[a] == plan[b] && RowCount(table, gameId, plan[a]) == 0
    ensures RowCount(Committed(table, gameId, plan, drawn, now), gameId, plan[a]) >= 2
    ensures !UniqueRows(Committed(table, gameId, plan, drawn, now))
  {
    AppliedIsReference(table, gameId, plan, drawn, now);
    var ka := |Appended(table, gameId, plan[..a], drawn[..a], now)|;
    var kb := |Appended(table, gameId, plan[..b], drawn[..b], now)|;
    QueuedTwice(table, gameId, plan, drawn, now, a, b);
    TwoMatchingRows(Committed(table, gameId, plan, drawn, now), |table| + ka, |table| + kb, gameId, plan[a]);
  }

  /** A suit planned at `a` and again at `b`, with no row of the game, is
      queued twice: first at the position reached after the first `a`
      suits, then at the one reached after the first `b`. */
  lemma QueuedTwice(table: seq<GameCard>, gameId: string, plan: seq<string>, drawn: seq<Card>,
                    now: Timestamp, a: nat, b: nat)
    requires |drawn| == |plan|
    requires a < b < |plan| && plan[a] == plan[b] && RowCount(table, gameId, plan[a]) == 0
    ensures var queued := Appended(table, gameId, plan, drawn, now);
      var ka := |Appended(table, gameId, plan[..a], drawn[..a], now)|;
      var kb := |Appended(table, gameId, plan[..b], drawn[..b], now)|;
      ka < kb < |queued| && Matches(queued[ka], gameId, plan[a]) && Matches(queued[kb], gameId, plan[a])
  {
    QueuedRowAt(table, gameId, plan, drawn, now, a);
    QueuedRowAt(table, gameId, plan, drawn, now, b);
    AppendedPrefix(table, gameId, plan[..b], drawn[..b], now, a + 1);
    assert plan[..b][..a + 1] == plan[..a + 1] && drawn[..b][..a + 1] == drawn[..a + 1];
  }

  /** Two rows that pass the same filter make its count at least two and the
      table no longer one row per game and suit. */
  lemma TwoMatchingRows(rows: seq<GameCard>, i: nat, j: nat, gameId: string, suit: string)
    requires i < j < |rows| && Matches(rows[i], gameId, suit) && Matches(rows[j], gameId, suit)
    ensures RowCount(rows, gameId, suit) >= 2
    ensures !UniqueRows(rows)
  {
    RowCountSpec(rows, gameId, suit);
    assert Matches(rows[j], rows[i].gameId, rows[i].suit);
  }

  /** `_rows_to_cards`: each row's card under its suit; a later row for the
      same suit replaces an earlier one. */
  function Fold(rows: seq<GameCard>): map<string, Card>
    decreases |rows|
  {
    if rows == [] then map[]
    else
      var last := rows[|rows| - 1];
      Fold(rows[..|rows| - 1])[last.suit := RowCard(last)]
  }

  /** The folded map has a key for exactly the suits of the rows. */
  lemma {:induction false} FoldKeys(rows: seq<GameCard>)
    ensures forall suit :: suit in Fold(rows) <==> exists i :: 0 <= i < |rows| && rows[i].suit == suit
    decreases |rows|
  {
    if rows != [] {
      var n := |rows| - 1;
      var prefix := rows[..n];
      FoldKeys(prefix);
      forall suit ensures suit in Fold(rows) <==> exists i :: 0 <= i < |rows| && rows[i].suit == suit {
        if suit != rows[n].suit && suit in Fold(prefix) {
          var i :| 0 <= i < n && prefix[i].suit == suit;
          assert rows[i].suit == suit;
        }
        if suit != rows[n].suit && exists i :: 0 <= i < |rows| && rows[i].suit == suit {
          var i :| 0 <= i < |rows| && rows[i].suit == suit;
          assert prefix[i].suit == suit;
        }
      }
    }
  }

  /** Each card of the folded map is filed under its own suit. */
  lemma {:induction false} FoldValueSuits(rows: seq<GameCard>)
    ensures forall suit :: suit in Fold(rows) ==> Fold(rows)[suit].suit == suit
    decreases |rows|
  {
    if rows != [] {
      FoldValueSuits(rows[..|rows| - 1]);
    }
  }

  /** Under each suit the folded map holds the card of the last row of that
      suit. */
  lemma {:induction false} FoldLastWins(rows: seq<GameCard>, i: nat)
    requires i < |rows|
    requires forall j :: i < j < |rows| ==> rows[j].suit != rows[i].suit
    ensures rows[i].suit in Fold(rows) && Fold(rows)[rows[i].suit] == RowCard(rows[i])
    decreases |rows|
  {
    var n := |rows| - 1;
    if i < n {
      var prefix := rows[..n];
      assert prefix[i] == rows[i];
      assert forall j :: i < j < n ==> prefix[j] == rows[j];
      FoldLastWins(prefix, i);
    }
  }

  /** `select(GameCard).where(GameCard.game_id == game_id)`, in table order. */
  function GameRows(table: seq<GameCard>, gameId: string): (rows: seq<GameCard>)
    ensures forall k :: 0 <= k < |rows| ==> rows[k].gameId == gameId && rows[k] in table
    decreases |table|
  {
    if table == [] then []
    else
      var last := table[|table| - 1];
      var rows := GameRows(table[..|table| - 1], gameId);
      assert forall k :: 0 <= k < |rows| ==> rows[k] in table by {
        forall k | 0 <= k < |rows| ensures rows[k] in table {
          var i :| 0 <= i < |table| - 1 && table[..|table| - 1][i] == rows[k];
        }
      }
      rows + if last.gameId == gameId then [last] else []
  }

  /** `_get_cards_for_game` on a table: the game's rows, folded. */
  function CardsFor(table: seq<GameCard>, gameId: string): map<string, Card> {
    Fold(GameRows(table, gameId))
  }

  /** A game shows a card for exactly the suits it has rows for. */
  lemma {:induction false} CardsForKeys(table: seq<GameCard>, gameId: string, suit: string)
    ensures suit in CardsFor(table, gameId) <==> RowCount(table, gameId, suit) > 0
    decreases |table|
  {
    if table != [] {
      var n := |table| - 1;
      var prefix := table[..n];
      CardsForKeys(prefix, gameId, suit);
      assert table == prefix + [table[n]];
      CardsForAppend(prefix, table[n], gameId);
    }
  }

  /** Under each suit a game shows the card of its last row of that suit. */
  lemma {:induction false} CardsForLastWins(table: seq<GameCard>, gameId: string, i: nat)
    requires i < |table| && table[i].gameId == gameId
    requires forall j :: i < j < |table| ==> !Matches(table[j], gameId, table[i].suit)
    ensures table[i].suit in CardsFor(table, gameId) && CardsFor(table, gameId)[table[i].suit] == RowCard(table[i])
    decreases |table|
  {
    var n := |table| - 1;
    var prefix := table[..n];
    assert table == prefix + [table[n]];
    CardsForAppend(prefix, table[n], gameId);
    if i < n {
      assert prefix[i] == table[i];
      assert forall j :: i < j < n ==> prefix[j] == table[j];
      CardsForLastWins(prefix, gameId, i);
    }
  }

  /** A game with a single row for a suit shows that row's card. */
  lemma CardsForSingleRow(table: seq<GameCard>, gameId: string, suit: string)
    requires RowCount(table, gameId, suit) == 1
    ensures FindRow(table, gameId, suit).Some?
    ensures suit in CardsFor(table, gameId)
    ensures CardsFor(table, gameId)[suit] == RowCard(table[FindRow(table, gameId, suit).value])
  {
    RowCountSpec(table, gameId, suit);
    CardsForLastWins(table, gameId, FindRow(table, gameId, suit).value);
  }

  /** Appending a row changes only what its own game shows, and only under
      its suit. */
  lemma CardsForAppend(table: seq<GameCard>, row: GameCard, gameId: string)
    ensures CardsFor(table + [row], gameId) ==
      if row.gameId == gameId then CardsFor(table, gameId)[row.suit := RowCard(row)] else CardsFor(table, gameId)
  {
    assert (table + [row])[..|table|] == table;
    var rows := GameRows(table, gameId);
    if row.gameId == gameId {
      assert GameRows(table + [row], gameId) == rows + [row];
      assert (rows + [row])[..|rows|] == rows;
    } else {
      assert GameRows(table + [row], gameId) == rows;
    }
  }

  /** Overwriting a game's only row for a suit changes what the game shows
      under that suit and nothing else. */
  lemma {:induction false} CardsForReplace(table: seq<GameCard>, j: nat, row: GameCard, gameId: string)
    requires j < |table| && Matches(table[j], gameId, row.suit) && row.gameId == gameId
    requires forall i :: 0 <= i < |table| && i != j ==> !Matches(table[i], gameId, row.suit)
    ensures CardsFor(table[j := row], gameId) == CardsFor(table, gameId)[row.suit := RowCard(row)]
    decreases |table|
  {
    var n := |table| - 1;
    var prefix := table[..n];
    var last := table[n];
    SplitLast(table, j, row);
    if j == n {
      ReplaceLast(prefix, last, row, gameId);
    } else {
      assert !Matches(table[n], gameId, row.suit);
      CardsForReplace(prefix, j, row, gameId);
      AppendAfterUpdate(prefix, prefix[j := row], last, gameId, row.suit, RowCard(row));
    }
  }

  /** Replacing the last row by a row of the same game and suit. */
  lemma ReplaceLast(prefix: seq<GameCard>, last: GameCard, row: GameCard, gameId: string)
    requires Matches(last, gameId, row.suit) && row.gameId == gameId
    ensures CardsFor(prefix + [row], gameId) == CardsFor(prefix + [last], gameId)[row.suit := RowCard(row)]
  {
    var m := CardsFor(prefix, gameId);
    CardsForAppend(prefix, last, gameId);
    CardsForAppend(prefix, row, gameId);
    OverrideTwice(m, row.suit, RowCard(last), RowCard(row));
  }

  /** A row appended after an update under another suit does not disturb it. */
  lemma AppendAfterUpdate(before: seq<GameCard>, after: seq<GameCard>, last: GameCard, gameId: string,
                          suit: string, card: Card)
    requires CardsFor(after, gameId) == CardsFor(before, gameId)[suit := card]
    requires last.gameId == gameId ==> last.suit != suit
    ensures CardsFor(after + [last], gameId) == CardsFor(before + [last], gameId)[suit := card]
  {
    CardsForAppend(before, last, gameId);
    CardsForAppend(after, last, gameId);
    if last.gameId == gameId {
      UpdatesCommute(CardsFor(before, gameId), suit, card, last.suit, RowCard(last));
    }
  }

  /** A table is its rows before the last, then the last; overwriting one
      row keeps that split. */
  lemma SplitLast(table: seq<GameCard>, j: nat, row: GameCard)
    requires j < |table|
    ensures table == table[..|table| - 1] + [table[|table| - 1]]
    ensures j == |table| - 1 ==> table[j := row] == table[..|table| - 1] + [row]
    ensures j < |table| - 1 ==> table[j := row] == table[..|table| - 1][j := row] + [table[|table| - 1]]
    ensures forall i :: 0 <= i < |table| - 1 ==> table[..|table| - 1][i] == table[i]
  {
  }

  /** A second update under the same key overrides the first. */
  lemma OverrideTwice<K, V>(m: map<K, V>, k: K, v1: V, v2: V)
    ensures m[k := v1][k := v2] == m[k := v2]
  {
  }

  /** Updates of a map under two different keys commute. */
  lemma UpdatesCommute<K, V>(m: map<K, V>, k1: K, v1: V, k2: K, v2: V)
    requires k1 != k2
    ensures m[k1 := v1][k2 := v2] == m[k2 := v2][k1 := v1]
  {
  }

  /** The cards drawn, under their planned suits: the last draw for a suit
      wins. */
  function DrawnCards(plan: seq<string>, drawn: seq<Card>): map<string, Card>
    requires |drawn| == |plan|
    decreases |plan|
  {
    if plan == [] then map[]
    else
      var n := |plan| - 1;
      DrawnCards(plan[..n], drawn[..n])[plan[n] := drawn[n].(suit := plan[n])]
  }

  /** The drawn map has a key for each planned suit, holding the card drawn
      last for that suit. */
  lemma {:induction false} DrawnCardsSpec(plan: seq<string>, drawn: seq<Card>)
    requires |drawn| == |plan|
    ensures forall suit :: suit in DrawnCards(plan, drawn) <==> suit in plan
    ensures forall suit :: suit in plan ==> DrawnCards(plan, drawn)[suit] == drawn[LastIndex(plan, suit)].(suit := suit)
    decreases |plan|
  {
    if plan != [] {
      var n := |plan| - 1;
      var prefix := plan[..n];
      DrawnCardsSpec(prefix, drawn[..n]);
      assert forall suit :: suit in plan <==> suit in prefix || suit == plan[n];
      forall suit | suit in plan && suit != plan[n]
        ensures DrawnCards(plan, drawn)[suit] == drawn[LastIndex(plan, suit)].(suit := suit)
      {
        assert LastIndex(plan, suit) == LastIndex(prefix, suit);
      }
    }
  }

  /** After the update the game shows what it showed before, with every planned
      suit holding the card drawn last for it. */
  lemma {:induction false} CommittedCards(table: seq<GameCard>, gameId: string, plan: seq<string>, drawn: seq<Card>,
                                          now: Timestamp)
    requires |drawn| == |plan|
    requires forall i :: 0 <= i < |plan| ==> RowCount(table, gameId, plan[i]) <= 1
    ensures CardsFor(Committed(table, gameId, plan, drawn, now), gameId) == CardsFor(table, gameId) + DrawnCards(plan, drawn)
    decreases |plan|
  {
    if plan == [] {
      assert Committed(table, gameId, plan, drawn, now) == table + [];
      assert table + [] == table;
    } else {
      var n := |plan| - 1;
      assert forall i :: 0 <= i < n ==> plan[..n][i] == plan[i];
      CommittedCards(table, gameId, plan[..n], drawn[..n], now);
      CommittedCardsStep(table, gameId, plan, drawn, now);
      MergeUpdate(CardsFor(table, gameId), DrawnCards(plan[..n], drawn[..n]), plan[n], drawn[n].(suit := plan[n]));
    }
  }

  /** Merging then updating is merging the updated map. */
  lemma MergeUpdate<K, V>(m: map<K, V>, d: map<K, V>, k: K, v: V)
    ensures (m + d)[k := v] == m + d[k := v]
  {
  }

  /** Upserting the last planned suit sets what the game shows under that suit
      to the card drawn for it, and changes nothing else it shows. */
  lemma CommittedCardsStep(table: seq<GameCard>, gameId: string, plan: seq<string>, drawn: seq<Card>, now: Timestamp)
    requires |drawn| == |plan| && plan != []
    requires forall i :: 0 <= i < |plan| ==> RowCount(table, gameId, plan[i]) <= 1
    ensures var n := |plan| - 1;
      CardsFor(Committed(table, gameId, plan, drawn, now), gameId)
      == CardsFor(Committed(table, gameId, plan[..n], drawn[..n], now), gameId)[plan[n] := drawn[n].(suit := plan[n])]
  {
    var n := |plan| - 1;
    var prefix, drawnBefore := plan[..n], drawn[..n];
    AppliedIsReference(table, gameId, prefix, drawnBefore, now);
    AppendedShape(table, gameId, prefix, drawnBefore, now);
    var t := Applied(table, gameId, prefix, drawnBefore, now).0;
    var p := Applied(table, gameId, prefix, drawnBefore, now).1;
    assert SameKeys(t, table);
    UpsertCards(t, p, table, gameId, plan[n], drawn[n], now);
  }

  /** One upsert, on a table with the keys of the original and queued rows
      for suits the game had no row for: what the game shows changes under
      the upserted suit only, to the drawn card. */
  lemma UpsertCards(t: seq<GameCard>, p: seq<GameCard>, table: seq<GameCard>, gameId: string, suit: string,
                    card: Card, now: Timestamp)
    requires SameKeys(t, table) && RowCount(table, gameId, suit) <= 1
    requires forall k :: 0 <= k < |p| ==> p[k].gameId == gameId && RowCount(table, gameId, p[k].suit) == 0
    ensures CardsFor(Upsert(t, p, gameId, suit, card, now).0 + Upsert(t, p, gameId, suit, card, now).1, gameId)
         == CardsFor(t + p, gameId)[suit := card.(suit := suit)]
  {
    SameKeysQueries(t, table, gameId, suit);
    match FindRow(t, gameId, suit)
    case None =>
      QueuedCards(t, p, gameId, suit, card, now);
    case Some(j) =>
      RedrawnCards(t, p, table, j, gameId, suit, card, now);
  }

  /** A queued row shows its card under its suit. */
  lemma QueuedCards(t: seq<GameCard>, p: seq<GameCard>, gameId: string, suit: string, card: Card, now: Timestamp)
    ensures CardsFor(t + (p + [NewRow(gameId, suit, card, now)]), gameId)
         == CardsFor(t + p, gameId)[suit := card.(suit := suit)]
  {
    assert (t + p) + [NewRow(gameId, suit, card, now)] == t + (p + [NewRow(gameId, suit, card, now)]);
    CardsForAppend(t + p, NewRow(gameId, suit, card, now), gameId);
  }

  /** Redrawing the game's only row for a suit shows the new card under it. */
  lemma RedrawnCards(t: seq<GameCard>, p: seq<GameCard>, table: seq<GameCard>, j: nat, gameId: string, suit: string,
                     card: Card, now: Timestamp)
    requires SameKeys(t, table) && RowCount(table, gameId, suit) <= 1
    requires forall k :: 0 <= k < |p| ==> p[k].gameId == gameId && RowCount(table, gameId, p[k].suit) == 0
    requires j < |t| && Matches(t[j], gameId, suit)
    ensures CardsFor(t[j := Redrawn(t[j], card, now)] + p, gameId) == CardsFor(t + p, gameId)[suit := card.(suit := suit)]
  {
    var row := Redrawn(t[j], card, now);
    assert t[j := row] + p == (t + p)[j := row];
    RowCountSpec(table, gameId, suit);
    assert RowCount(table, gameId, suit) != 0 by {
      assert Matches(table[j], gameId, suit);
    }
    assert forall k :: 0 <= k < |p| ==> p[k].suit != suit;
    assert forall i :: 0 <= i < |t| && i != j ==> !Matches(table[i], gameId, suit);
    CardsForReplace(t + p, j, row, gameId);
  }

  /** Updating one game leaves what every other game shows unchanged. */
  lemma CommittedOtherGames(table: seq<GameCard>, gameId: string, plan: seq<string>, drawn: seq<Card>, now: Timestamp,
                            other: string)
    requires |drawn| == |plan| && other != gameId
    requires forall i :: 0 <= i < |plan| ==> RowCount(table, gameId, plan[i]) <= 1
    ensures GameRows(Committed(table, gameId, plan, drawn, now), other) == GameRows(table, other)
    ensures CardsFor(Committed(table, gameId, plan, drawn, now), other) == CardsFor(table, other)
  {
    AppliedIsReference(table, gameId, plan, drawn, now);
    AppendedShape(table, gameId, plan, drawn, now);
    var t := RedrawnTable(table, gameId, plan, drawn, now);
    var p := Appended(table, gameId, plan, drawn, now);
    GameRowsPointwise(t, table, other);
    GameRowsConcat(t, p, other);
    GameRowsNone(p, other);
  }

  lemma {:induction false} GameRowsPointwise(a: seq<GameCard>, b: seq<GameCard>, gameId: string)
    requires |a| == |b|
    requires forall j :: 0 <= j < |a| ==> (a[j].gameId == gameId || b[j].gameId == gameId) ==> a[j] == b[j]
    ensures GameRows(a, gameId) == GameRows(b, gameId)
    decreases |a|
  {
    if a != [] {
      GameRowsPointwise(a[..|a| - 1], b[..|b| - 1], gameId);
    }
  }

  lemma {:induction false} GameRowsConcat(a: seq<GameCard>, b: seq<GameCard>, gameId: string)
    ensures GameRows(a + b, gameId) == GameRows(a, gameId) + GameRows(b, gameId)
    decreases |b|
  {
    if b != [] {
      var n := |b| - 1;
      GameRowsConcat(a, b[..n], gameId);
      assert (a + b)[..|a + b| - 1] == a + b[..n];
    } else {
      assert a + b == a;
    }
  }

  lemma {:induction false} GameRowsNone(rows: seq<GameCard>, gameId: string)
    requires forall k :: 0 <= k < |rows| ==> rows[k].gameId != gameId
    ensures GameRows(rows, gameId) == []
    decreases |rows|
  {
    if rows != [] {
      GameRowsNone(rows[..|rows| - 1], gameId);
    }
  }
}
