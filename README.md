# Category 2 cards backend, modelled in Dafny

The backend serves a deck of cards read from a tab-separated data file, bucketed
by suit (the `Category2` column). A client can draw one random card of every
suit, or of one suit named case-insensitively. A client can also open a shared
game. A game stores its cards in a `GameCard` table, one row per suit as long
as each request names distinct suits, and each redraw replaces the cards of the
requested suits only. A second backend file
normalises the `DATABASE_URL` setting before the SQLAlchemy engine is built.

`backend/app.py` is one file; the model splits it into six modules by concern,
and gives `backend/database.py` a module of its own:

| file | module | models |
|---|---|---|
| `outcomes.dfy` | `Outcomes` | `Option`, `Result`, and the failures the endpoints answer with (HTTP status codes, `MultipleRowsFound` from `one_or_none`, a primary-key clash, the start-up error when no card is loaded) |
| `text.dfy` | `Text` | the Python string operations the backend uses: `strip` over the full `str.isspace` set, `lower`, `startswith`, `rsplit(" ", 1)[0]` (`BeforeLastSpace`), `str(int)` |
| `database.dfy` | `Database` | `_normalize_database_url` and the `connect_args` choice of `_build_engine` |
| `catalog.dfy` | `Catalog` | `Card`, `_build_short_text`, and `load_cards` from the rows `csv.DictReader` yields on, as a loop over the rows that fills an insertion-ordered dict; `AddCard` is one `setdefault(...).append` and `Bucket` the dict all rows build |
| `suits.dfy` | `Suits` | `suit_lookup`, `_normalize_suit_name`, `_choose_random_card` |
| `games.dfy` | `Games` | the `Game` and `GameCard` records, the row queries, and specification functions for the redraw: the sequence of checks, the row-by-row upsert (`Upsert`, one pass of the loop), the committed table, and the cards a game shows (`Fold` for `_rows_to_cards`, `CardsFor` for `_get_cards_for_game`) |
| `store.dfy` | `Store` | the database session as a class `GameStore` holding the two tables, plus the imperative `_rows_to_cards`, `_get_cards_for_game` and `_update_game_cards` |
| `api.dfy` | `Api` | the endpoints `draw_cards`, `create_game`, `get_game` and `draw_game_cards`; `TargetSuits` is the list of suits a draw covers |

Randomness is a nondeterministic choice (`:|`) from the suit's pool. The store
methods hand back, as ghost outputs, the suits they drew for and the cards they
drew, so each post-state can be stated exactly. `_update_game_cards` works on
the session's copy of the table plus a list of queued rows. The stored table is
assigned once, at the commit, so every failure leaves it as it was. The
catalog is an insertion-ordered dict: a key list `suits` plus a map `pools`.
Key order matters because `suit_lookup` keeps the later of two suits that
differ only in case.

One consequence of the code as written is proved rather than filed as a defect.
Take a data file with two suits that differ only in case, such as `Tool` and
`tool`. Both resolve to the later one, so drawing every suit names it twice
(`Api.CaseCollidingSuitsRepeat`). A fresh game then gets two rows for that suit
(`Games.RepeatedSuitDuplicatesRows`), and every later draw that resolves to it
fails in `one_or_none` (`Api.RepeatedSuitJamsGame`).

## Model

| member | source | states |
|---|---|---|
| Text.TrimLeftSpec | backend/app.py:66-70 | `lstrip` drops a prefix made only of whitespace and leaves a result that does not start with whitespace |
| Text.TrimRightSpec | backend/app.py:66-70 | `rstrip` drops a suffix made only of whitespace and leaves a result that does not end with whitespace |
| Text.Strip | backend/app.py:66-70 | `strip` never lengthens a string and its result neither starts nor ends with whitespace |
| Text.StripIsSlice | backend/app.py:66-70 | the stripped string is a contiguous slice of the input, and everything cut off on either side is whitespace |
| Text.StripKeeps | backend/app.py:97 | a string that neither starts nor ends with whitespace is its own `strip` |
| Text.StripIdempotent | backend/app.py:97 | stripping twice is stripping once |
| Text.Lower | backend/app.py:92 | `lower` keeps the length and maps each character on its own |
| Text.LastIndexOf | backend/app.py:54 | the position found holds the character and no later position does; no position is found only when the character is absent |
| Text.DecimalString | backend/app.py:76 | `str(idx)` is a non-empty string of decimal digits |
| Text.ParseDecimalString | backend/app.py:76 | reading the decimal string of a number back gives the number |
| Text.DecimalStringInjective | backend/app.py:76 | different row indices give different card ids |
| Database.NormalizeDatabaseUrl | backend/database.py:16-30 | the normalised URL never starts with `postgres://` or `postgresql://` |
| Database.Rewrite | backend/database.py:26-29 | a bare scheme is replaced by `postgresql+psycopg://` and the rest of the URL is kept; the result names a driver and is trimmed |
| Database.RewriteKeepsStripped | backend/database.py:26-29 | a rewritten URL starts with the driver prefix and neither starts nor ends with whitespace, so a second normalisation keeps it |
| Database.DriverPrefixIsNoBareScheme | backend/database.py:24-25 | a URL that starts with `postgresql+` starts with neither bare scheme |
| Database.NormalizeDatabaseUrlCases | backend/database.py:23-30 | each of the four branches in terms of the trimmed input: kept with a driver, either bare scheme rewritten with the remainder unchanged, anything else returned trimmed |
| Database.NormalizedIsTrimmed | backend/database.py:23-30 | the normalised URL is its own `strip` |
| Database.NormalizeDatabaseUrlIdempotent | backend/database.py:16-30 | normalising twice gives the same URL as normalising once |
| Database.ConnectArgs | backend/database.py:35 | `check_same_thread` is passed, switched off, exactly when the URL starts with `sqlite`; nothing else is passed |
| Database.BuildEngineConfig | backend/database.py:33-36 | the engine URL is the normalised setting, or the normalised default when none is set, and it gets `check_same_thread` exactly when it is a SQLite URL |
| Database.DefaultEngineIsSqlite | backend/database.py:13-36 | without a setting the engine opens the default SQLite file, unchanged, with `check_same_thread` off |
| Database.NonPostgresUrlKept | backend/database.py:30 | a trimmed URL whose scheme does not begin with `p` passes through unchanged |
| Database.PostgresGetsNoConnectArgs | backend/database.py:26-35 | a PostgreSQL URL in either bare scheme gets no connection arguments |
| Catalog.BuildShortText | backend/app.py:44-54 | a non-empty short text wins, stripped; otherwise the stripped text when it fits the limit, else its first `limit` characters cut back to before their last space and followed by `...`; without a short text the result is at most `limit + 3` long |
| Catalog.Present | backend/app.py:66-70 | the cells of a row that `row.get` returns as strings: exactly the columns whose cell is present, with their text |
| Catalog.ParseRow | backend/app.py:65-82 | a row gives a card exactly when its suit, name and text are all non-empty; the card's id is the row's index and its suit the row's suit |
| Catalog.LoadCards | backend/app.py:57-88 | fails with `MissingCell` when some row lacks a cell that is read, since `.strip()` on `None` raises; otherwise fails with `NoCardsLoaded` exactly when no row is usable; otherwise returns the catalog obtained by appending each usable row's card to the bucket of its suit in file order |
| Catalog.LoadRow | backend/app.py:66-83 | one pass of the loop leaves the dict alone for a row with a blank suit, name or text, and otherwise appends the row's card to the bucket of its suit |
| Catalog.ParsedIsNumbered | backend/app.py:65-83 | every parsed card's id reads back as its row index and its suit is non-empty and trimmed |
| Catalog.BucketIsEmptyIffNoCard | backend/app.py:83-86 | the loaded dict is empty exactly when no row gave a card |
| Catalog.BucketShape | backend/app.py:62-83 | the dict built with `setdefault(...).append` has distinct keys that match its key list, no empty bucket, and every card in the bucket of its own suit |
| Catalog.AddCardShape | backend/app.py:83 | one `setdefault(...).append` keeps those three facts |
| Catalog.BucketSuitsTrimmed | backend/app.py:66-73 | every key of the loaded dict is a non-empty, trimmed suit name |
| Catalog.BucketIsPool | backend/app.py:83 | each bucket equals the suit's cards filtered from the rows in order, and a bucket exists exactly when that filter is non-empty |
| Catalog.PoolComplete | backend/app.py:72-83 | every card of the suit is in that filter, which is non-empty exactly when some card has the suit |
| Catalog.PoolSound | backend/app.py:75-83 | every card in the filter is the card at the row its id names, and the cards are in increasing row order |
| Catalog.LoadedBuckets | backend/app.py:57-88 | the catalog has a bucket for exactly the suits some usable row names, and every usable row's card is in the bucket of its suit |
| Catalog.LoadedBucketSound | backend/app.py:57-88 | every card in a bucket is the one parsed from the row its id names, of that suit, and the bucket keeps file order |
| Catalog.LoadedCatalogShape | backend/app.py:57-88 | a loaded catalog is a proper dict whose every suit is a non-empty trimmed name with at least one card |
| Catalog.CardIdsIdentifyRows | backend/app.py:76 | cards from different rows have different ids |
| Suits.SuitLookup | backend/app.py:92 | every suit is reachable under its lower-case form, and every entry maps a lower-case form to a suit that has it |
| Suits.SuitLookupLastWins | backend/app.py:92 | of several suits that share a lower-case form, the last one wins |
| Suits.NormalizeSuitName | backend/app.py:95-105 | 400 exactly when the name is blank after trimming; 404 exactly when no suit matches it ignoring case; otherwise a non-empty catalog suit whose lower-case form is that of the trimmed name |
| Suits.NormalizeIdempotent | backend/app.py:95-105 | normalising a canonical suit name gives it back, when the catalog's suits are trimmed |
| Suits.NormalizeCatalogSuit | backend/app.py:92-105 | a trimmed suit that no other suit matches ignoring case resolves to itself |
| Suits.CaseCollidingSuitsMerge | backend/app.py:92-105 | two suits that differ only in case both resolve to the later one |
| Suits.ChooseRandomCard | backend/app.py:130-136 | 500 exactly when the suit has no cards; otherwise some card of that suit's pool |
| Games.RowCountSpec | backend/app.py:168-171 | the query finds no row exactly when the count is zero, and a count of at most one means at most one matching row |
| Games.FindRow | backend/app.py:171 | no position is found exactly when no row matches; a found position holds a matching row |
| Games.OneOrNone | backend/app.py:171 | `MultipleRowsFound` exactly when more than one row matches; no row exactly when none matches; otherwise the one matching row |
| Games.SameKeysQueries | backend/app.py:168-179 | overwriting card fields in place changes no count or position that the per-suit query sees |
| Games.SuitStep | backend/app.py:165-171 | one name's checks in the loop's order: the name's error, then 500 for a suit with no cards, then `MultipleRowsFound`; a name passes exactly when all three pass |
| Games.CollectSpec | backend/app.py:164-171 | checks run in order succeed exactly when all pass, with their values in order; otherwise the error is that of the first failing check |
| Games.PlanSpec | backend/app.py:164-171 | a redraw passes its checks exactly when every name does, and then plans each name's canonical suit; otherwise it fails with the first failing name's error |
| Games.PlanStep | backend/app.py:164-171 | one more passing name extends the plan by its suit; a failing name decides the whole redraw's error |
| Games.CollectStopsAtFailure | backend/app.py:164-171 | after the first failure no later check changes the outcome |
| Games.PlanIsFeasible | backend/app.py:164-171 | every planned suit has cards and at most one row of the game |
| Games.DrawnFromStep | backend/app.py:166 | drawing one more card from its suit's pool keeps every drawn card in the pool of its suit |
| Games.AppliedStep | backend/app.py:164-192 | one more pass of the loop upserts one more card into the session's table and queue |
| Games.LastIndex | backend/app.py:164 | the position of the last time a suit is planned |
| Games.RedrawnTable | backend/app.py:173-179 | the reference table has the original length |
| Games.RedrawnTwice | backend/app.py:173-179 | overwriting a row twice leaves the second card |
| Games.AppliedIsReference | backend/app.py:164-192 | when each planned suit has at most one row, the loop's upsert overwrites exactly the game's rows of planned suits with the card drawn last for their suit, and queues one new row per planned suit that had no row, in plan order |
| Games.ReferenceStep | backend/app.py:173-192 | upserting the last planned suit into the reference result for the earlier suits gives the reference result for all of them |
| Games.ReferenceOthers | backend/app.py:173-179 | rows that do not match the last planned suit are the same with or without it |
| Games.ReferenceLast | backend/app.py:173-179 | the row that matches the last planned suit gets that suit's card |
| Games.CommittedLeavesOthers | backend/app.py:160-199 | the commit keeps every row of another game or of an unplanned suit unchanged, and adds only rows of this game, each for a planned suit that had no row |
| Games.AppendedShape | backend/app.py:180-195 | every queued row belongs to the game and to a planned suit it had no row for, and the queue has each suit at most once when the plan does |
| Games.CommittedUnique | backend/app.py:160-199 | with each suit requested once, a table with at most one row per game and suit keeps that shape |
| Games.AppendedPrefix | backend/app.py:180-192 | the rows queued for the first suits come first in the queue |
| Games.QueuedRowAt | backend/app.py:180-192 | the row queued for a planned suit sits right after the rows queued before it |
| Games.RepeatedSuitDuplicatesRows | backend/app.py:164-195 | a suit named twice for a game without a row for it ends up with two rows, so the table no longer has one row per suit |
| Games.QueuedTwice | backend/app.py:180-192 | a suit planned twice with no row of the game is queued twice, at two distinct positions |
| Games.TwoMatchingRows | backend/app.py:168-171 | two rows passing the same filter make its count at least two, which `one_or_none` rejects |
| Games.FoldKeys | backend/app.py:139-150 | `_rows_to_cards` has a key for exactly the suits of the rows |
| Games.FoldValueSuits | backend/app.py:139-150 | each card of the folded map is filed under its own suit |
| Games.FoldLastWins | backend/app.py:139-150 | under each suit the folded map holds the card of the last row of that suit |
| Games.GameRows | backend/app.py:205 | the game's query returns only rows of the game, taken from the table |
| Games.CardsForKeys | backend/app.py:204-208 | a game shows a card for exactly the suits it has rows for |
| Games.CardsForLastWins | backend/app.py:204-208 | under each suit a game shows the card of its last row of that suit |
| Games.CardsForSingleRow | backend/app.py:204-208 | a game with one row for a suit shows that row's card under it |
| Games.CardsForAppend | backend/app.py:194-208 | adding a row of the game shows its card under its suit; a row of another game changes nothing |
| Games.CardsForReplace | backend/app.py:173-208 | overwriting a game's only row for a suit changes what it shows under that suit and nothing else |
| Games.ReplaceLast | backend/app.py:173-179 | overwriting the last row, which matches, shows the new card under its suit |
| Games.AppendAfterUpdate | backend/app.py:204-208 | a row appended after an update under another suit does not disturb it |
| Games.DrawnCardsSpec | backend/app.py:164-192 | the drawn cards have a key for exactly the planned suits, each holding the card drawn last for it |
| Games.CommittedCards | backend/app.py:160-201 | after the commit the game shows its old cards with every planned suit replaced by the card drawn last for it |
| Games.CommittedCardsStep | backend/app.py:164-199 | upserting the last planned suit changes what the game shows under that suit only |
| Games.UpsertCards | backend/app.py:173-192 | one upsert, whether it redraws or queues, changes what the game shows under the upserted suit only, to the drawn card |
| Games.QueuedCards | backend/app.py:180-195 | a queued row shows its card under its suit once committed |
| Games.RedrawnCards | backend/app.py:173-179 | redrawing the game's only row for a suit shows the new card under it |
| Games.CommittedOtherGames | backend/app.py:160-199 | a redraw leaves the rows and the cards of every other game unchanged |
| Games.GameRowsPointwise | backend/app.py:205 | two tables of equal length that agree at every position where either holds a row of the game select the same rows for it |
| Games.GameRowsConcat | backend/app.py:205 | selecting from a concatenation selects from each part |
| Games.GameRowsNone | backend/app.py:206-207 | a table with no row of the game selects nothing for it |
| Store.RowsToCards | backend/app.py:139-150 | the loop builds exactly the fold of the rows |
| Store.GameStore.constructor | backend/database.py:42-46 | a freshly created database: `create_all` on an empty database gives empty tables (on an existing database `init_db` keeps its rows, which the model does not represent) |
| Store.GameStore.AddGame | backend/app.py:236-239 | a new game is stored under its id; a taken id is refused and nothing changes |
| Store.GameStore.GameOr404 | backend/app.py:153-157 | 404 exactly when the game is not stored; otherwise the stored game |
| Store.GameStore.CardsForGame | backend/app.py:204-208 | the cards the game shows: its rows, folded |
| Store.GameStore.UpdateGameCards | backend/app.py:160-201 | a failing redraw returns the first failing name's error and changes no table; a passing one commits the upserted rows, sets the game's last activity, and returns the game's cards, its old cards with each planned suit showing the card drawn for it from that suit's pool |
| Store.StageSuit | backend/app.py:165-192 | one pass fails exactly when the name's checks fail, with their error; otherwise it draws a card of the canonical suit and upserts it into the session |
| Store.StageUpdates | backend/app.py:164-195 | the loop fails exactly when the redraw's checks fail, with the first error; otherwise it leaves the session holding the upsert of every planned suit, each with at most one row and with a card from its pool |
| Api.DrawCards | backend/app.py:216-230 | 500 when the catalog is empty; the suit name's error when it does not resolve; otherwise succeeds exactly when every target suit has cards, with one card from each target suit's pool under that suit, for every suit when none is named and for the named one only otherwise |
| Api.LoadedCatalogIsDrawable | backend/app.py:222-228 | on a loaded catalog every resolvable request finds cards in every target suit |
| Api.CreateGame | backend/app.py:233-242 | a taken id is refused with nothing changed; otherwise the game is stored first, then every suit is drawn for it; a failed draw leaves the game stored without cards, and a successful one returns exactly the drawn cards |
| Api.GetGame | backend/app.py:245-252 | 404 for an unknown game; the stored cards, with nothing changed, when there are any; otherwise every suit is drawn for the game |
| Api.DrawGameCards | backend/app.py:255-267 | 404 before anything else; then the suit name's error, with nothing changed; otherwise a redraw of every suit, or of the named one |
| Api.FreshGamePlansEverySuit | backend/app.py:241-251 | for a game without rows and a catalog of trimmed, case-distinct suits that all have cards, the redraw plans exactly the catalog's suits |
| Api.RepeatedSuitJamsGame | backend/app.py:164-199 | once a plan has named a suit twice for a game without a row for it, every later request that resolves to that suit fails with `MultipleRowsFound` |
| Api.CaseCollidingSuitsRepeat | backend/app.py:92-105 | two catalog suits that differ only in case are both planned as the later one when every suit is drawn |

## Left out

- Reading the data file: the existence check, the file encoding and the tab-separated parsing of `csv.DictReader`. The rows come in as maps from header column to cell, in file order. A cell a short row lacks is `None`, as `DictReader`'s default `restval` makes it, and `load_cards` then fails. A column absent from the header reads as the empty string, as `row.get(column, "")` makes it.
- Text.Lower: only ASCII letters are lower-cased. Python's `str.lower` also maps non-ASCII letters, so two suits that differ only in the case of a non-ASCII letter are distinct in the model.
- The detail messages of the HTTP errors. Only their status codes are modelled.
- The `GameCard` surrogate integer key. Rows are identified by their position in the table, and query results come back in table order.
- The distribution of `random.choice` and of `secrets.token_urlsafe`. A draw is any card of the pool, and a new game's id is a parameter of `Api.CreateGame`.
- Timestamps from `datetime.utcnow` are opaque integers passed in as parameters. Api.CreateGame: the game's `created_at` and `last_activity` defaults get one value, where the source calls the clock once for each.
- The web framework: the FastAPI app, CORS, the query annotation, static mounting, `serve_frontend` and the start-up hook.
- Start-up failure of `load_cards` is the `NoCardsLoaded` result; the endpoints take the loaded catalog as a parameter, and `suit_lookup` is recomputed from it instead of being cached.
- `init_db`, `get_session` and the engine object itself. The engine is modelled only by the URL and the connection arguments it is given.
- The root directory's path formatting in the default SQLite URL. It is a string parameter.
- Database.NormalizeDatabaseUrl: whitespace is Python's `str.isspace` set, spelled out character by character.
- Concurrency between requests, and the database's transaction isolation.
- `backend/models.py` has no behaviour. Its `Game` and `GameCard` fields are mirrored as the records in `games.dfy`.
