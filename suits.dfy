/** Naming a suit: the case-insensitive lookup from a request's suit name to
    the catalog's own spelling, and drawing a card of a suit. */
module Suits {
  import opened Outcomes
  import opened Text
  import opened Catalog

  /** `{suit.lower(): suit for suit in suits}`: every suit under its lower-case
      form; when two suits share a lower-case form the later one wins. */
  function SuitLookup(suits: seq<string>): (lookup: map<string, string>)
    ensures forall s :: s in suits ==> Lower(s) in lookup
    ensures forall key :: key in lookup ==> lookup[key] in suits && Lower(lookup[key]) == key
    decreases |suits|
  {
    if suits == [] then map[]
    else
      var last := suits[|suits| - 1];
      var lookup := SuitLookup(suits[..|suits| - 1]);
      assert forall s :: s in suits ==> s in suits[..|suits| - 1] || s == last;
      lookup[Lower(last) := last]
  }

  /** The lookup keeps, for each lower-case form, the last suit that has it. */
  lemma {:induction false} SuitLookupLastWins(suits: seq<string>, i: nat)
    requires i < |suits|
    requires forall j :: i < j < |suits| ==> Lower(suits[j]) != Lower(suits[i])
    ensures SuitLookup(suits)[Lower(suits[i])] == suits[i]
    decreases |suits|
  {
    if i < |suits| - 1 {
      SuitLookupLastWins(suits[..|suits| - 1], i);
    }
  }

  /** `_normalize_suit_name`: trim and lower-case the requested name, then look
      it up; 400 when nothing is left after trimming, 404 when no suit has
      that lower-case form. */
  function NormalizeSuitName(catalog: Catalog, value: string): (r: Result<string>)
    ensures r == Err(HttpError(BAD_REQUEST)) <==> Strip(value) == ""
    ensures r == Err(HttpError(NOT_FOUND)) <==>
      Strip(value) != "" && forall s :: s in catalog.suits ==> Lower(s) != Lower(Strip(value))
    ensures r.Err? ==> r == Err(HttpError(BAD_REQUEST)) || r == Err(HttpError(NOT_FOUND))
    ensures r.Ok? ==> r.value in catalog.suits && Lower(r.value) == Lower(Strip(value)) && r.value != ""
  {
    var normalized := Lower(Strip(value));
    var lookup := SuitLookup(catalog.suits);
    if normalized == "" then Err(HttpError(BAD_REQUEST))
    else if normalized !in lookup || lookup[normalized] == "" then Err(HttpError(NOT_FOUND))
    else Ok(lookup[normalized])
  }

  /** Normalising a name the lookup returned gives it back, provided the
      catalog's suit names are trimmed (as loaded ones are). */
  lemma NormalizeIdempotent(catalog: Catalog, value: string)
    requires forall s :: s in catalog.suits ==> Trimmed(s)
    requires NormalizeSuitName(catalog, value).Ok?
    ensures NormalizeSuitName(catalog, NormalizeSuitName(catalog, value).value) == NormalizeSuitName(catalog, value)
  {
    var canonical := NormalizeSuitName(catalog, value).value;
    StripKeeps(canonical);
  }

  /** A trimmed suit whose lower-case form no other suit shares is its own
      canonical name. */
  lemma NormalizeCatalogSuit(catalog: Catalog, i: nat)
    requires i < |catalog.suits| && catalog.suits[i] != "" && Trimmed(catalog.suits[i])
    requires forall j :: 0 <= j < |catalog.suits| && j != i ==> Lower(catalog.suits[j]) != Lower(catalog.suits[i])
    ensures NormalizeSuitName(catalog, catalog.suits[i]) == Ok(catalog.suits[i])
  {
    StripKeeps(catalog.suits[i]);
    SuitLookupLastWins(catalog.suits, i);
  }

  /** Two suits that differ only in case name the same canonical suit: the
      later of the two. */
  lemma CaseCollidingSuitsMerge(catalog: Catalog, i: nat, j: nat)
    requires i < j < |catalog.suits|
    requires Lower(catalog.suits[i]) == Lower(catalog.suits[j])
    requires forall k :: j < k < |catalog.suits| ==> Lower(catalog.suits[k]) != Lower(catalog.suits[j])
    requires catalog.suits[i] != "" && Trimmed(catalog.suits[i]) && Trimmed(catalog.suits[j])
    ensures NormalizeSuitName(catalog, catalog.suits[i]) == Ok(catalog.suits[j])
    ensures NormalizeSuitName(catalog, catalog.suits[j]) == Ok(catalog.suits[j])
  {
    StripKeeps(catalog.suits[i]);
    StripKeeps(catalog.suits[j]);
    SuitLookupLastWins(catalog.suits, j);
  }

  /** `cards_by_suit.get(suit, [])` is non-empty. */
  predicate HasCards(catalog: Catalog, suit: string) {
    suit in catalog.pools && catalog.pools[suit] != []
  }

  /** `_choose_random_card`: any card of the suit's pool, or 500 when the suit
      has no cards. Which card is drawn is left open. */
  method ChooseRandomCard(catalog: Catalog, suit: string) returns (r: Result<Card>)
    ensures r.Err? <==> !HasCards(catalog, suit)
    ensures r.Err? ==> r.error == HttpError(SERVER_ERROR)
    ensures r.Ok? ==> r.value in catalog.pools[suit]
  {
    var options := if suit in catalog.pools then catalog.pools[suit] else [];
    if options == [] {
      return Err(HttpError(SERVER_ERROR));
    }
    assert options[0] in options;
    var card :| card in options;
    return Ok(card);
  }
}
