/**
  Member cards: printing one card (print_carte_membre), printing a page of up
  to 20 cards from a comma-separated id list (print_cartes_multiples), and the
  selection page that builds that list (generer_cartes). A card is created the
  first time a member's card is printed, and its printing date is set once.
*/
module Cards {
  import opened Wrappers
  import opened Text
  import opened Entities
  import opened Tables
  import opened Store

  /** The most cards a print page holds (a 4 x 5 grid). */
  const MaxCardsPerPage := 20

  // ---------------------------------------------------------------------------
  // One card
  // ---------------------------------------------------------------------------

  /** The numero_unique of a new card: uuid4() is random, so the model takes a value
      that no stored card has. */
  function FreshUuid(cards: seq<Card>): (u: Uuid)
    ensures forall i :: 0 <= i < |cards| ==> cards[i].numeroUnique < u
  {
    if cards == [] then 0
    else
      var rest := FreshUuid(cards[1..]);
      assert forall i :: 1 <= i < |cards| ==> cards[i] == cards[1..][i - 1];
      if cards[0].numeroUnique + 1 > rest then cards[0].numeroUnique + 1 else rest
  }

  /** The member has a card and it is marked as printed. */
  predicate HasPrintedCard(cards: seq<Card>, m: nat) {
    exists i :: 0 <= i < |cards| && cards[i].membre == m && cards[i].estImprimee
  }

  /** Lookups find the same card in two tables that hold cards of the same members
      at the same places. */
  lemma {:induction false} FindCardSameMembers(a: seq<Card>, b: seq<Card>, m: nat)
    requires |a| == |b| && forall i :: 0 <= i < |a| ==> a[i].membre == b[i].membre
    ensures FindCard(a, m) == FindCard(b, m)
  {
    if a != [] {
      FindCardSameMembers(a[..|a| - 1], b[..|b| - 1], m);
    }
  }

  /** The cards after one member's card is printed: the card is created when the member
      has none, marked as printed now when it was not printed yet, and left alone when it
      was. PrintCardFacts states what that means. */
  function PrintCard(cards: seq<Card>, m: nat, now: Instant): seq<Card> {
    match FindCard(cards, m)
    case None => cards + [Card(m, FreshUuid(cards), true, Some(now))]
    case Some(k) =>
      if cards[k].estImprimee then cards
      else cards[k := cards[k].(estImprimee := true, dateImpression := Some(now))]
  }

  /** After printing, the member's card is found and printed. A new card goes at the end
      with a numero_unique no other card has and today's printing date; otherwise only the
      member's card may change, keeping its numero_unique, and its printing date changes
      only when it had not been printed. */
  lemma PrintCardFacts(cards: seq<Card>, m: nat, now: Instant)
    ensures var r := PrintCard(cards, m, now);
      && FindCard(r, m).Some? && r[FindCard(r, m).value].estImprimee
      && (FindCard(cards, m).None? ==>
        && |r| == |cards| + 1 && r[..|cards|] == cards
        && r[|cards|].membre == m && r[|cards|].dateImpression == Some(now)
        && forall i :: 0 <= i < |cards| ==> cards[i].numeroUnique != r[|cards|].numeroUnique)
      && (FindCard(cards, m).Some? ==>
        var k := FindCard(cards, m).value;
        && |r| == |cards|
        && (forall i :: 0 <= i < |cards| && i != k ==> r[i] == cards[i])
        && r[k].membre == m && r[k].numeroUnique == cards[k].numeroUnique
        && r[k].dateImpression == (if cards[k].estImprimee then cards[k].dateImpression else Some(now)))
  {
    var r := PrintCard(cards, m, now);
    match FindCard(cards, m)
    case None =>
      assert r[|cards|].membre == m;
    case Some(k) =>
      if !cards[k].estImprimee {
        FindCardSameMembers(r, cards, m);
      }
  }

  /** Printing again changes nothing: the printing date is the first one. */
  lemma PrintTwice(cards: seq<Card>, m: nat, first: Instant, later: Instant)
    ensures PrintCard(PrintCard(cards, m, first), m, later) == PrintCard(cards, m, first)
  {
    PrintCardFacts(cards, m, first);
  }

  /** Printing keeps the constraints of the card table: one card per member, distinct
      numero_unique. */
  lemma PrintKeepsCards(cards: seq<Card>, m: nat, now: Instant)
    requires Pairwise(cards, DistinctCards)
    ensures Pairwise(PrintCard(cards, m, now), DistinctCards)
  {
    var r := PrintCard(cards, m, now);
    PrintCardFacts(cards, m, now);
    match FindCard(cards, m)
    case None =>
      AppendPairwise(cards, r[|cards|], DistinctCards);
      assert r == cards + [r[|cards|]];
    case Some(k) =>
      forall i | 0 <= i < k ensures DistinctCards(cards[i], r[k]) {
        assert DistinctCards(cards[i], cards[k]);
      }
      forall j | k < j < |cards| ensures DistinctCards(r[k], cards[j]) {
        assert DistinctCards(cards[k], cards[j]);
      }
      ReplacePairwise(cards, k, r[k], DistinctCards);
      assert r == cards[k := r[k]];
  }

  /** Printing one member's card leaves every other member's cards as they were:
      a member without a card still has none, and a printed card stays printed. */
  lemma PrintLeavesOthers(cards: seq<Card>, m: nat, x: nat, now: Instant)
    requires x != m
    ensures FindCard(PrintCard(cards, m, now), x).None? <==> FindCard(cards, x).None?
    ensures HasPrintedCard(cards, x) ==> HasPrintedCard(PrintCard(cards, m, now), x)
  {
    var r := PrintCard(cards, m, now);
    PrintCardFacts(cards, m, now);
    if FindCard(r, x).Some? {
      var i := FindCard(r, x).value;
      if i < |cards| {
        assert r[i] == cards[i];
      }
    }
    if FindCard(cards, x).Some? {
      var i := FindCard(cards, x).value;
      assert r[i] == cards[i];
    }
    if HasPrintedCard(cards, x) {
      var i :| 0 <= i < |cards| && cards[i].membre == x && cards[i].estImprimee;
      assert r[i] == cards[i];
    }
  }

  /** print_carte_membre: an unknown member is a 404; otherwise get_or_create makes the
      card (not printed) when the member has none, and an unprinted card is marked as
      printed now. Returns the member's card. */
  method PrintCarte(db: Db, membre: nat, now: Instant) returns (r: Result<Card>)
    requires db.Valid()
    modifies db`cards
    ensures db.Valid()
    ensures r == Err(NotFound) <==> FindMember(old(db.members), membre).None?
    ensures r.Err? ==> r.error == NotFound
    ensures r.Err? ==> db.cards == old(db.cards)
    ensures r.Ok? ==>
      && db.cards == PrintCard(old(db.cards), membre, now)
      && r.value.membre == membre && r.value.estImprimee && r.value in db.cards
  {
    if FindMember(db.members, membre).None? {
      return Err(NotFound);
    }
    ghost var before := db.cards;
    PrintKeepsCards(db.cards, membre, now);
    PrintCardFacts(db.cards, membre, now);
    var found := FindCard(db.cards, membre);
    var k: nat;
    if found.None? {
      db.cards := db.cards + [Card(membre, FreshUuid(db.cards), false, None)];
      k := |db.cards| - 1;
    } else {
      k := found.value;
    }
    var carte := db.cards[k];
    if !carte.estImprimee {
      carte := carte.(estImprimee := true, dateImpression := Some(now));
      db.cards := db.cards[k := carte];
    }
    assert db.cards == PrintCard(before, membre, now);
    r := Ok(carte);
  }

  // ---------------------------------------------------------------------------
  // A page of cards
  // ---------------------------------------------------------------------------

  /** [int(t.strip()) for t in tokens if t.strip()]: None when int() raises ValueError. */
  function ParseIds(tokens: seq<string>): (r: Option<seq<int>>)
    ensures r.Some? <==> forall k :: 0 <= k < |tokens| && Strip(tokens[k]) != "" ==> ParseInt(Strip(tokens[k])).Some?
    ensures r.Some? ==> |r.value| <= |tokens|
  {
    if tokens == [] then Some([])
    else
      var rest := ParseIds(tokens[1..]);
      assert forall k :: 1 <= k < |tokens| ==> tokens[k] == tokens[1..][k - 1];
      var t := Strip(tokens[0]);
      if t == "" then rest
      else match ParseInt(t)
        case None => None
        case Some(v) => if rest.None? then None else Some([v] + rest.value)
  }

  /** The ids of the URL parameter membres_ids. */
  function ParseIdList(text: string): Option<seq<int>> {
    ParseIds(Split(text, ','))
  }

  /** f"{id}" for each id. */
  function Decimals(ids: seq<nat>): (r: seq<string>)
    ensures |r| == |ids|
    ensures forall k :: 0 <= k < |r| ==> r[k] == Decimal(ids[k])
  {
    if ids == [] then [] else [Decimal(ids[0])] + Decimals(ids[1..])
  }

  /** A formatted id is a token that the list comprehension keeps and reads back. */
  lemma DecimalToken(n: nat)
    requires |Decimal(n)| <= MaxStrDigits
    ensures Strip(Decimal(n)) == Decimal(n) != "" && ParseInt(Strip(Decimal(n))) == Some(n)
  {
    var d := Decimal(n);
    DecimalRoundTrip(n);
    forall i | 0 <= i < |d| ensures !IsSpace(d[i]) {
      assert IsDigit(d[i]);
    }
    StripNoSpace(d);
    ParseDecimal(n);
  }

  /** A list of formatted ids reads back as the ids. */
  lemma {:induction false} ParseDecimals(ids: seq<nat>)
    requires forall k :: 0 <= k < |ids| ==> |Decimal(ids[k])| <= MaxStrDigits
    ensures ParseIds(Decimals(ids)) == Some(ids)
  {
    if ids != [] {
      DecimalToken(ids[0]);
      ParseDecimals(ids[1..]);
      assert Decimals(ids)[1..] == Decimals(ids[1..]);
      assert [ids[0]] + ids[1..] == ids;
    }
  }

  /** generer_cartes: an empty selection and one of more than 20 members are refused;
      otherwise the selected ids are joined with commas for the print page. */
  function GenererCartes(selected: seq<string>): (r: Result<string>)
    ensures r == Err(NothingFound) <==> selected == []
    ensures r == Err(TooMany) <==> |selected| > MaxCardsPerPage
    ensures r.Ok? && (forall k :: 0 <= k < |selected| ==> ',' !in selected[k]) ==> Split(r.value, ',') == selected
  {
    if selected == [] then Err(NothingFound)
    else if |selected| > MaxCardsPerPage then Err(TooMany)
    else
      SplitJoinWhenClean(selected);
      Ok(Join(selected, ','))
  }

  lemma SplitJoinWhenClean(parts: seq<string>)
    requires |parts| >= 1
    ensures (forall k :: 0 <= k < |parts| ==> ',' !in parts[k]) ==> Split(Join(parts, ','), ',') == parts
  {
    if forall k :: 0 <= k < |parts| ==> ',' !in parts[k] {
      SplitJoin(parts, ',');
    }
  }

  /** What generer_cartes hands over is what print_cartes_multiples reads back. */
  lemma SelectionReadsBack(ids: seq<nat>)
    requires 1 <= |ids| <= MaxCardsPerPage
    requires forall k :: 0 <= k < |ids| ==> |Decimal(ids[k])| <= MaxStrDigits
    ensures GenererCartes(Decimals(ids)).Ok?
    ensures ParseIdList(GenererCartes(Decimals(ids)).value) == Some(ids)
  {
    var d := Decimals(ids);
    forall k | 0 <= k < |d| ensures ',' !in d[k] {
      DecimalRoundTrip(ids[k]);
    }
    ParseDecimals(ids);
  }

  /** filter(id__in=ids) */
  predicate MemberIdIn(ids: set<int>, m: Member) { m.id in ids }

  /** The member has no card yet (get_or_create will create one). */
  predicate HasNoCard(cards: seq<Card>, m: nat) { FindCard(cards, m).None? }

  /** The keys of the selected members, in the same order. */
  function MemberIds(ms: seq<Member>): (r: seq<nat>)
    ensures |r| == |ms| && forall k :: 0 <= k < |r| ==> r[k] == ms[k].id
  {
    seq(|ms|, k requires 0 <= k < |ms| => ms[k].id)
  }

  /** The cards after printing the cards of the given members one after the other. */
  function PrintAll(cards: seq<Card>, ms: seq<nat>, now: Instant): seq<Card> {
    if ms == [] then cards
    else PrintCard(PrintAll(cards, ms[..|ms| - 1], now), ms[|ms| - 1], now)
  }

  /** Printing a page leaves a member outside it with a card exactly when it had one. */
  lemma {:induction false} PrintAllLeavesOthers(cards: seq<Card>, ms: seq<nat>, x: nat, now: Instant)
    requires x !in ms
    ensures FindCard(PrintAll(cards, ms, now), x).None? <==> FindCard(cards, x).None?
  {
    if ms != [] {
      PrintAllLeavesOthers(cards, ms[..|ms| - 1], x, now);
      PrintLeavesOthers(PrintAll(cards, ms[..|ms| - 1], now), ms[|ms| - 1], x, now);
    }
  }

  /** After a page is printed, every member on it has a printed card. */
  lemma {:induction false} PrintAllPrints(cards: seq<Card>, ms: seq<nat>, now: Instant)
    ensures forall x :: x in ms ==> HasPrintedCard(PrintAll(cards, ms, now), x)
  {
    if ms != [] {
      var init := ms[..|ms| - 1];
      var last := ms[|ms| - 1];
      var before := PrintAll(cards, init, now);
      var after := PrintCard(before, last, now);
      PrintAllPrints(cards, init, now);
      PrintCardFacts(before, last, now);
      assert after[FindCard(after, last).value].membre == last;
      forall x | x in ms ensures HasPrintedCard(after, x) {
        if x != last {
          var k :| 0 <= k < |ms| && ms[k] == x;
          assert x in init by { assert init[k] == x; }
          PrintLeavesOthers(before, last, x, now);
        }
      }
    }
  }

  /** Printing a page keeps the constraints of the card table. */
  lemma {:induction false} PrintAllKeepsCards(cards: seq<Card>, ms: seq<nat>, now: Instant)
    requires Pairwise(cards, DistinctCards)
    ensures Pairwise(PrintAll(cards, ms, now), DistinctCards)
  {
    if ms != [] {
      PrintAllKeepsCards(cards, ms[..|ms| - 1], now);
      PrintKeepsCards(PrintAll(cards, ms[..|ms| - 1], now), ms[|ms| - 1], now);
    }
  }

  /** One step of the loop of print_cartes_multiples: get_or_create with the card already
      printed, or mark an existing unprinted card as printed now. Reports whether the
      card was created. */
  method GetOrCreatePrinted(db: Db, m: nat, now: Instant) returns (created: bool)
    modifies db`cards
    ensures db.cards == PrintCard(old(db.cards), m, now)
    ensures created <==> FindCard(old(db.cards), m).None?
  {
    var found := FindCard(db.cards, m);
    if found.None? {
      db.cards := db.cards + [Card(m, FreshUuid(db.cards), true, Some(now))];
      created := true;
    } else {
      var k := found.value;
      if !db.cards[k].estImprimee {
        db.cards := db.cards[k := db.cards[k].(estImprimee := true, dateImpression := Some(now))];
      }
      created := false;
    }
  }

  /** The loop of print_cartes_multiples over the found members: prints each card and
      counts the cards it created (cartes_crees). */
  method PrintPage(db: Db, ms: seq<nat>, now: Instant) returns (crees: nat)
    requires forall i, j :: 0 <= i < j < |ms| ==> ms[i] != ms[j]
    modifies db`cards
    ensures db.cards == PrintAll(old(db.cards), ms, now)
    ensures crees == Count(ms, HasNoCard, old(db.cards))
  {
    ghost var c0 := db.cards;
    crees := 0;
    var i := 0;
    while i < |ms|
      invariant 0 <= i <= |ms|
      invariant db.cards == PrintAll(c0, ms[..i], now)
      invariant crees == Count(ms[..i], HasNoCard, c0)
    {
      assert ms[i] !in ms[..i];
      PrintAllLeavesOthers(c0, ms[..i], ms[i], now);
      CountSnoc(ms[..i], ms[i], HasNoCard, c0);
      var created := GetOrCreatePrinted(db, ms[i], now);
      if created {
        crees := crees + 1;
      }
      assert ms[..i + 1] == ms[..i] + [ms[i]];
      assert ms[..i + 1][..i] == ms[..i];
      i := i + 1;
    }
    assert ms[..|ms|] == ms;
  }

  /** The set of the parsed ids, as id__in uses it. */
  function IdSet(ids: seq<int>): set<int> {
    set i | i in ids
  }

  /** The members found for a page: none exactly when no member has one of the ids, each
      member at most once, and every member whose id was asked for. */
  lemma FoundMembers(members: seq<Member>, ids: seq<int>)
    requires Pairwise(members, DistinctMembers)
    ensures var found := MemberIds(Select(members, MemberIdIn, IdSet(ids), true));
      && (|found| == 0 <==> forall m :: m in members ==> m.id !in ids)
      && (forall i, j :: 0 <= i < j < |found| ==> found[i] != found[j])
      && (forall m :: m in members && m.id in ids ==> m.id in found)
  {
    var membres := Select(members, MemberIdIn, IdSet(ids), true);
    var found := MemberIds(membres);
    SelectIn(members, MemberIdIn, IdSet(ids), true);
    SelectPairwise(members, MemberIdIn, IdSet(ids), true, DistinctMembers);
    if |found| > 0 {
      assert membres[0] in members;
    }
    forall i, j | 0 <= i < j < |found| ensures found[i] != found[j] {
      assert DistinctMembers(membres[i], membres[j]);
    }
    forall m | m in members && m.id in ids ensures m.id in found {
      assert m in membres;
      var k :| 0 <= k < |membres| && membres[k] == m;
      assert found[k] == m.id;
    }
  }

  /** print_cartes_multiples: ids that int() rejects, more than 20 ids, or ids that match
      no member are refused; otherwise every member found gets a printed card. Returns
      total_cartes (the members found) and cartes_crees (the cards created). */
  method PrintCartesMultiples(db: Db, text: string, now: Instant) returns (r: Result<(nat, nat)>)
    requires db.Valid()
    modifies db`cards
    ensures db.Valid()
    ensures r == Err(BadIds) <==> ParseIdList(text).None?
    ensures r == Err(TooMany) <==> ParseIdList(text).Some? && |ParseIdList(text).value| > MaxCardsPerPage
    ensures r == Err(NothingFound) <==>
      && ParseIdList(text).Some? && |ParseIdList(text).value| <= MaxCardsPerPage
      && forall m :: m in old(db.members) ==> m.id !in ParseIdList(text).value
    ensures r.Err? ==> r.error == BadIds || r.error == TooMany || r.error == NothingFound
    ensures r.Err? ==> db.cards == old(db.cards)
    ensures r.Ok? ==>
      var ids := ParseIdList(text).value;
      var found := MemberIds(Select(old(db.members), MemberIdIn, IdSet(ids), true));
      && r.value.0 == |found| && r.value.1 == Count(found, HasNoCard, old(db.cards))
      && db.cards == PrintAll(old(db.cards), found, now)
  {
    var parsed := ParseIdList(text);
    if parsed.None? {
      return Err(BadIds);
    }
    var ids := parsed.value;
    if |ids| > MaxCardsPerPage {
      return Err(TooMany);
    }
    var found := MemberIds(Select(db.members, MemberIdIn, IdSet(ids), true));
    FoundMembers(db.members, ids);
    if |found| == 0 {
      return Err(NothingFound);
    }
    PrintAllKeepsCards(db.cards, found, now);
    var crees := PrintPage(db, found, now);
    r := Ok((|found|, crees));
  }

  /** After print_cartes_multiples, every member whose id was asked for has a printed card. */
  lemma PageIsPrinted(members: seq<Member>, ids: seq<int>, cards: seq<Card>, now: Instant)
    requires Pairwise(members, DistinctMembers)
    ensures var found := MemberIds(Select(members, MemberIdIn, IdSet(ids), true));
      forall m :: m in members && m.id in ids ==> HasPrintedCard(PrintAll(cards, found, now), m.id)
  {
    FoundMembers(members, ids);
    PrintAllPrints(cards, MemberIds(Select(members, MemberIdIn, IdSet(ids), true)), now);
  }
}
