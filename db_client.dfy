/**
 * The deck store behind `db_client.py`: the `decks` and `cards` tables as an
 * in-memory store, the due-card count of `get_all_decks`, the all-or-nothing
 * step sequence of `import_deck` and the existence check and cascade of
 * `delete_deck`. Failures of the remote database are an input (`fault` flags):
 * whether a request fails is the environment's choice, not the program's.
 */
module DbClient {
  import opened Wrappers
  import opened Text
  import Srs

  datatype DeckRow = DeckRow(id: int, name: string)

  /** A row of `cards`; `reviewDate` is an ISO date string, `None` for NULL. */
  datatype CardRow = CardRow(
    deckId: int, front: string, back: string, tags: seq<string>,
    status: string, interval: int, easeFactor: int, reviewDate: Option<string>)

  /** A deck as `get_all_decks` lists it. */
  datatype DeckSummary = DeckSummary(id: int, name: string, dueCardCount: nat)

  /** A card as `parse_deck` hands it on. */
  datatype NewCard = NewCard(front: string, back: string, tags: seq<string>)
  datatype NewDeck = NewDeck(name: string, cards: seq<NewCard>)

  /** Both tables and the next value of the deck id sequence. */
  datatype Store = Store(decks: seq<DeckRow>, cards: seq<CardRow>, nextId: int)

  datatype DbError =
    | DeckExists(name: string)        // the ValueError of the name check
    | CheckFailed                     // the name check itself failed
    | DeckInsertFailed
    | MissingDeckId                   // the new deck's id is falsy
    | CardInsertFailed(rolledBack: bool)
    | DeckNotFound(id: int)
    | DeleteFailed(id: int)

  /** Which requests of `import_deck` fail. */
  datatype ImportFaults = ImportFaults(checkFails: bool, deckInsertFails: bool, cardInsertFails: bool, rollbackFails: bool)

  /** Which requests of `delete_deck` fail. */
  datatype DeleteFaults = DeleteFaults(checkFails: bool, deleteFails: bool)

  /** The store after an operation, and what the operation returned or raised. */
  datatype Change<T> = Change(store: Store, result: Result<T, DbError>)

  // ---------------------------------------------------------------------------
  // Due cards

  /** A card is due when it is new, or has a review date that is not after today
      (ISO dates compare as strings). An empty review date counts as none. */
  predicate IsDue(card: CardRow, today: string) {
    || card.status == "new"
    || (card.reviewDate.Some? && card.reviewDate.value != [] && LexLe(card.reviewDate.value, today))
  }

  /** The number of due cards of deck `id`. */
  function DueCount(cards: seq<CardRow>, id: int, today: string): nat
    decreases |cards|
  {
    if cards == [] then 0
    else
      var last := cards[|cards| - 1];
      DueCount(cards[..|cards| - 1], id, today) + if last.deckId == id && IsDue(last, today) then 1 else 0
  }

  /** `due_counts.get(id, 0)`. */
  function CountOf(counts: map<int, nat>, id: int): nat {
    if id in counts then counts[id] else 0
  }

  /** What `get_all_decks` returns: `[]` when a request fails or there are no
      decks, otherwise every deck, in order, with its due-card count. */
  function AllDecks(st: Store, today: string, fault: bool): seq<DeckSummary> {
    if fault || st.decks == [] then []
    else seq(|st.decks|, k requires 0 <= k < |st.decks| =>
               DeckSummary(st.decks[k].id, st.decks[k].name, DueCount(st.cards, st.decks[k].id, today)))
  }

  lemma {:induction false} DueCountAppend(a: seq<CardRow>, b: seq<CardRow>, id: int, today: string)
    ensures DueCount(a + b, id, today) == DueCount(a, id, today) + DueCount(b, id, today)
    decreases |b|
  {
    if b == [] {
      assert a + b == a;
    } else {
      var n := |b| - 1;
      assert (a + b)[..|a + b| - 1] == a + b[..n];
      DueCountAppend(a, b[..n], id, today);
    }
  }

  /** A deck has no due cards exactly when none of its cards is due. */
  lemma {:induction false} DueCountZero(cards: seq<CardRow>, id: int, today: string)
    ensures DueCount(cards, id, today) == 0 <==>
            forall k :: 0 <= k < |cards| && cards[k].deckId == id ==> !IsDue(cards[k], today)
    decreases |cards|
  {
    if cards != [] {
      var n := |cards| - 1;
      DueCountZero(cards[..n], id, today);
      assert forall k :: 0 <= k < n ==> cards[..n][k] == cards[k];
    }
  }

  /** A card due today is still due later, so a deck's count never drops as the date advances. */
  lemma {:induction false} DueCountLater(cards: seq<CardRow>, id: int, today: string, later: string)
    requires LexLe(today, later)
    ensures DueCount(cards, id, today) <= DueCount(cards, id, later)
    decreases |cards|
  {
    if cards != [] {
      var last := cards[|cards| - 1];
      DueCountLater(cards[..|cards| - 1], id, today, later);
      if last.reviewDate.Some? && LexLe(last.reviewDate.value, today) {
        LexLeTransitive(last.reviewDate.value, today, later);
      }
    }
  }

  // ---------------------------------------------------------------------------
  // The store's invariant

  function DeckIds(decks: seq<DeckRow>): set<int> {
    set k | 0 <= k < |decks| :: decks[k].id
  }

  /** Deck ids and names are unique, every id was handed out by the sequence,
      and every card belongs to a deck. */
  predicate Valid(st: Store) {
    && Unique(st.decks)
    && (forall i :: 0 <= i < |st.decks| ==> st.decks[i].id < st.nextId)
    && (forall k :: 0 <= k < |st.cards| ==> st.cards[k].deckId in DeckIds(st.decks))
  }

  /** `select('id', count='exact').eq('name', name)`. */
  function CountNamed(decks: seq<DeckRow>, name: string): (n: nat)
    ensures n == 0 <==> forall k :: 0 <= k < |decks| ==> decks[k].name != name
    decreases |decks|
  {
    if decks == [] then 0
    else (if decks[0].name == name then 1 else 0) + CountNamed(decks[1..], name)
  }

  /** `select('id', count='exact').eq('id', id)`. */
  function CountWithId(decks: seq<DeckRow>, id: int): (n: nat)
    ensures n == 0 <==> id !in DeckIds(decks)
    decreases |decks|
  {
    if decks == [] then 0
    else
      var n := (if decks[0].id == id then 1 else 0) + CountWithId(decks[1..], id);
      assert DeckIds(decks) == {decks[0].id} + DeckIds(decks[1..]) by {
        assert forall k :: 0 < k < |decks| ==> decks[k] == decks[1..][k - 1];
      }
      n
  }

  // ---------------------------------------------------------------------------
  // Deleting a deck

  /** The decks other than `id`, in order. */
  function WithoutDeck(decks: seq<DeckRow>, id: int): seq<DeckRow>
    decreases |decks|
  {
    if decks == [] then []
    else if decks[|decks| - 1].id == id then WithoutDeck(decks[..|decks| - 1], id)
    else WithoutDeck(decks[..|decks| - 1], id) + [decks[|decks| - 1]]
  }

  /** The cards of decks other than `id`, in order (`ON DELETE CASCADE`). */
  function WithoutCards(cards: seq<CardRow>, id: int): seq<CardRow>
    decreases |cards|
  {
    if cards == [] then []
    else if cards[|cards| - 1].deckId == id then WithoutCards(cards[..|cards| - 1], id)
    else WithoutCards(cards[..|cards| - 1], id) + [cards[|cards| - 1]]
  }

  /** `delete().eq('id', id)` on `decks`, with the cascade to `cards`. */
  function RemoveDeck(st: Store, id: int): Store {
    Store(WithoutDeck(st.decks, id), WithoutCards(st.cards, id), st.nextId)
  }

  /** `delete_deck(id)`. */
  function DeleteSpec(st: Store, id: int, f: DeleteFaults): Change<()> {
    if f.checkFails then Change(st, Failure(DeleteFailed(id)))
    else if CountWithId(st.decks, id) == 0 then Change(st, Failure(DeckNotFound(id)))
    else if f.deleteFails then Change(st, Failure(DeleteFailed(id)))
    else Change(RemoveDeck(st, id), Success(()))
  }

  /** `WithoutDeck` keeps only decks of the list, and none with the id. */
  lemma {:induction false} WithoutDeckSound(decks: seq<DeckRow>, id: int)
    ensures forall k :: 0 <= k < |WithoutDeck(decks, id)| ==>
              WithoutDeck(decks, id)[k].id != id && WithoutDeck(decks, id)[k] in decks
    decreases |decks|
  {
    if decks != [] {
      var n := |decks| - 1;
      var prefix := decks[..n];
      WithoutDeckSound(prefix, id);
      var rest := WithoutDeck(prefix, id);
      forall k | 0 <= k < |rest|
        ensures rest[k] in decks
      {
        assert rest[k] in prefix;
        var j :| 0 <= j < n && prefix[j] == rest[k];
        assert decks[j] == rest[k];
      }
      if decks[n].id != id {
        var r := rest + [decks[n]];
        forall k | 0 <= k < |r|
          ensures r[k].id != id && r[k] in decks
        {
          if k < |rest| {
            assert r[k] == rest[k];
          }
        }
      }
    }
  }

  /** `WithoutCards` keeps only cards of the list, and none of the deck. */
  lemma {:induction false} WithoutCardsSound(cards: seq<CardRow>, id: int)
    ensures forall k :: 0 <= k < |WithoutCards(cards, id)| ==>
              WithoutCards(cards, id)[k].deckId != id && WithoutCards(cards, id)[k] in cards
    decreases |cards|
  {
    if cards != [] {
      var n := |cards| - 1;
      var prefix := cards[..n];
      WithoutCardsSound(prefix, id);
      var rest := WithoutCards(prefix, id);
      forall k | 0 <= k < |rest|
        ensures rest[k] in cards
      {
        assert rest[k] in prefix;
        var j :| 0 <= j < n && prefix[j] == rest[k];
        assert cards[j] == rest[k];
      }
      if cards[n].deckId != id {
        var r := rest + [cards[n]];
        forall k | 0 <= k < |r|
          ensures r[k].deckId != id && r[k] in cards
        {
          if k < |rest| {
            assert r[k] == rest[k];
          }
        }
      }
    }
  }

  /** Removing a deck nobody has leaves the list as it is. */
  lemma {:induction false} WithoutAbsentDeck(decks: seq<DeckRow>, id: int)
    requires forall k :: 0 <= k < |decks| ==> decks[k].id != id
    ensures WithoutDeck(decks, id) == decks
    decreases |decks|
  {
    if decks != [] {
      var n := |decks| - 1;
      WithoutAbsentDeck(decks[..n], id);
      assert decks[..n] + [decks[n]] == decks;
    }
  }

  lemma {:induction false} WithoutAbsentCards(cards: seq<CardRow>, id: int)
    requires forall k :: 0 <= k < |cards| ==> cards[k].deckId != id
    ensures WithoutCards(cards, id) == cards
    decreases |cards|
  {
    if cards != [] {
      var n := |cards| - 1;
      WithoutAbsentCards(cards[..n], id);
      assert cards[..n] + [cards[n]] == cards;
    }
  }

  /** Filtering a concatenation filters each part. */
  lemma {:induction false} WithoutCardsAppend(a: seq<CardRow>, b: seq<CardRow>, id: int)
    ensures WithoutCards(a + b, id) == WithoutCards(a, id) + WithoutCards(b, id)
    decreases |b|
  {
    if b == [] {
      assert a + b == a;
      assert WithoutCards(a, id) + [] == WithoutCards(a, id);
    } else {
      var n := |b| - 1;
      assert (a + b)[..|a + b| - 1] == a + b[..n];
      WithoutCardsAppend(a, b[..n], id);
      AppendAssoc(WithoutCards(a, id), WithoutCards(b[..n], id), [b[n]]);
    }
  }

  /** `WithoutDeck` keeps every other deck. */
  lemma {:induction false} WithoutDeckKeeps(decks: seq<DeckRow>, id: int, d: DeckRow)
    requires d in decks && d.id != id
    ensures d in WithoutDeck(decks, id)
    decreases |decks|
  {
    var n := |decks| - 1;
    if decks[n] != d {
      assert d in decks[..n] by {
        var k :| 0 <= k < |decks| && decks[k] == d;
        assert k < n && decks[..n][k] == d;
      }
      WithoutDeckKeeps(decks[..n], id, d);
    }
  }

  /** `WithoutCards` keeps every card of another deck. */
  lemma {:induction false} WithoutCardsKeeps(cards: seq<CardRow>, id: int, c: CardRow)
    requires c in cards && c.deckId != id
    ensures c in WithoutCards(cards, id)
    decreases |cards|
  {
    var n := |cards| - 1;
    if cards[n] != c {
      assert c in cards[..n] by {
        var k :| 0 <= k < |cards| && cards[k] == c;
        assert k < n && cards[..n][k] == c;
      }
      WithoutCardsKeeps(cards[..n], id, c);
    }
  }

  predicate Unique(decks: seq<DeckRow>) {
    forall i, j :: 0 <= i < j < |decks| ==> decks[i].id != decks[j].id && decks[i].name != decks[j].name
  }

  /** A filtered list keeps its order, so ids and names stay unique. */
  lemma {:induction false} WithoutDeckUnique(decks: seq<DeckRow>, id: int)
    requires Unique(decks)
    ensures Unique(WithoutDeck(decks, id))
    decreases |decks|
  {
    if decks != [] {
      var n := |decks| - 1;
      var prefix := decks[..n];
      WithoutDeckUnique(prefix, id);
      if decks[n].id != id {
        var rest := WithoutDeck(prefix, id);
        WithoutDeckSound(prefix, id);
        forall i | 0 <= i < |rest|
          ensures rest[i].id != decks[n].id && rest[i].name != decks[n].name
        {
          assert rest[i] in prefix;
          var k :| 0 <= k < n && prefix[k] == rest[i];
          assert prefix[k] == decks[k];
        }
        UniqueSnoc(rest, decks[n]);
      }
    }
  }

  lemma UniqueSnoc(rest: seq<DeckRow>, d: DeckRow)
    requires Unique(rest)
    requires forall i :: 0 <= i < |rest| ==> rest[i].id != d.id && rest[i].name != d.name
    ensures Unique(rest + [d])
  {
    var r := rest + [d];
    forall i, j | 0 <= i < j < |r|
      ensures r[i].id != r[j].id && r[i].name != r[j].name
    {
      assert r[i] == rest[i];
      if j < |rest| {
        assert r[j] == rest[j];
      }
    }
  }

  /** A successful delete removes the deck and its cards and keeps everything
      else; a missing deck is reported and nothing changes. */
  lemma DeleteRemoves(st: Store, id: int, f: DeleteFaults)
    ensures var c := DeleteSpec(st, id, f);
            && (c.result.Success? ==>
                  && id in DeckIds(st.decks)
                  && (forall k :: 0 <= k < |c.store.decks| ==> c.store.decks[k].id != id)
                  && (forall k :: 0 <= k < |c.store.cards| ==> c.store.cards[k].deckId != id)
                  && (forall d :: d in st.decks && d.id != id ==> d in c.store.decks)
                  && (forall x :: x in st.cards && x.deckId != id ==> x in c.store.cards))
            && (!f.checkFails && id !in DeckIds(st.decks) ==> c == Change(st, Failure(DeckNotFound(id))))
            && (c.result.Failure? ==> c.store == st)
  {
    var c := DeleteSpec(st, id, f);
    if c.result.Success? {
      WithoutDeckSound(st.decks, id);
      WithoutCardsSound(st.cards, id);
      forall d | d in st.decks && d.id != id
        ensures d in c.store.decks
      {
        WithoutDeckKeeps(st.decks, id, d);
      }
      forall x | x in st.cards && x.deckId != id
        ensures x in c.store.cards
      {
        WithoutCardsKeeps(st.cards, id, x);
      }
    }
  }

  /** Deleting keeps the store's invariant. */
  lemma RemoveDeckKeepsValid(st: Store, id: int)
    requires Valid(st)
    ensures Valid(RemoveDeck(st, id))
  {
    var r := RemoveDeck(st, id);
    assert Unique(st.decks);
    WithoutDeckUnique(st.decks, id);
    WithoutDeckSound(st.decks, id);
    WithoutCardsSound(st.cards, id);
    forall k | 0 <= k < |r.cards|
      ensures r.cards[k].deckId in DeckIds(r.decks)
    {
      var x := r.cards[k];
      assert x in st.cards && x.deckId != id;
      var j :| 0 <= j < |st.cards| && st.cards[j] == x;
      assert x.deckId in DeckIds(st.decks);
      var i :| 0 <= i < |st.decks| && st.decks[i].id == x.deckId;
      WithoutDeckKeeps(st.decks, id, st.decks[i]);
      var m :| 0 <= m < |r.decks| && r.decks[m] == st.decks[i];
    }
    forall i | 0 <= i < |r.decks|
      ensures r.decks[i].id < r.nextId
    {
      assert r.decks[i] in st.decks;
      var j :| 0 <= j < |st.decks| && st.decks[j] == r.decks[i];
    }
  }

  // ---------------------------------------------------------------------------
  // Importing a deck

  /** The row inserted for a parsed card: a new card, interval 0, ease 2.5, no review date. */
  function NewRow(id: int, c: NewCard): CardRow {
    CardRow(id, c.front, c.back, c.tags, "new", 0, Srs.DefaultEase, None)
  }

  /** `cards_to_insert`: one row per card, in order. */
  function NewRows(id: int, cards: seq<NewCard>): (rows: seq<CardRow>)
    ensures |rows| == |cards|
    ensures forall k :: 0 <= k < |cards| ==> rows[k] == NewRow(id, cards[k])
  {
    seq(|cards|, k requires 0 <= k < |cards| => NewRow(id, cards[k]))
  }

  /** The deck insert: a row under the sequence's next value. */
  function AddDeck(st: Store, name: string): Store {
    Store(st.decks + [DeckRow(st.nextId, name)], st.cards, st.nextId + 1)
  }

  /** `import_deck(deck)`: the name check, the deck insert, the id check, the
      batch insert of the cards and, when that fails, the compensating delete. */
  function ImportSpec(st: Store, deck: NewDeck, f: ImportFaults): Change<int> {
    if f.checkFails then Change(st, Failure(CheckFailed))
    else if CountNamed(st.decks, deck.name) > 0 then Change(st, Failure(DeckExists(deck.name)))
    else if f.deckInsertFails then Change(st, Failure(DeckInsertFailed))
    else
      var id := st.nextId;
      var added := AddDeck(st, deck.name);
      if id == 0 then Change(added, Failure(MissingDeckId))
      else if deck.cards == [] then Change(added, Success(id))
      else if !f.cardInsertFails then Change(added.(cards := st.cards + NewRows(id, deck.cards)), Success(id))
      else if f.rollbackFails then Change(added, Failure(CardInsertFailed(false)))
      else Change(RemoveDeck(added, id), Failure(CardInsertFailed(true)))
  }

  /** A name already in the store is refused before anything is inserted. */
  lemma ImportRefusesTakenName(st: Store, deck: NewDeck, f: ImportFaults)
    requires !f.checkFails
    ensures (exists k :: 0 <= k < |st.decks| && st.decks[k].name == deck.name) <==>
            ImportSpec(st, deck, f) == Change(st, Failure(DeckExists(deck.name)))
  {
  }

  /** On success the store holds the new deck under the next id and, after the
      cards already there, one new row per input card, in order. */
  lemma ImportAdds(st: Store, deck: NewDeck, f: ImportFaults)
    ensures var c := ImportSpec(st, deck, f);
            c.result.Success? ==>
              && c.result.value == st.nextId != 0
              && c.store.decks == st.decks + [DeckRow(c.result.value, deck.name)]
              && c.store.cards[..|st.cards|] == st.cards
              && |c.store.cards| == |st.cards| + |deck.cards|
              && forall k :: 0 <= k < |deck.cards| ==> c.store.cards[|st.cards| + k] == NewRow(c.result.value, deck.cards[k])
  {
    var c := ImportSpec(st, deck, f);
    if c.result.Success? && deck.cards == [] {
      assert st.cards + [] == st.cards;
    }
  }

  /** A fresh id has no cards: every card belongs to a deck, and every deck's
      id is below the sequence's next value. */
  lemma NoCardsForNextId(st: Store)
    requires Valid(st)
    ensures forall k :: 0 <= k < |st.cards| ==> st.cards[k].deckId != st.nextId
  {
    forall k | 0 <= k < |st.cards|
      ensures st.cards[k].deckId != st.nextId
    {
      var i :| 0 <= i < |st.decks| && st.decks[i].id == st.cards[k].deckId;
    }
  }

  /** Deleting the deck just added gives back both tables as they were. */
  lemma RemoveAddedDeck(st: Store, name: string)
    requires Valid(st)
    ensures RemoveDeck(AddDeck(st, name), st.nextId) == Store(st.decks, st.cards, st.nextId + 1)
  {
    var id := st.nextId;
    var decks := st.decks + [DeckRow(id, name)];
    assert decks[..|decks| - 1] == st.decks;
    WithoutAbsentDeck(st.decks, id);
    NoCardsForNextId(st);
    WithoutAbsentCards(st.cards, id);
  }

  /** All or nothing: when the cards cannot be inserted and the deck is deleted
      again, both tables are as they were. */
  lemma ImportRollsBack(st: Store, deck: NewDeck, f: ImportFaults)
    requires Valid(st)
    ensures var c := ImportSpec(st, deck, f);
            c.result == Failure(CardInsertFailed(true)) ==> c.store.decks == st.decks && c.store.cards == st.cards
  {
    RemoveAddedDeck(st, deck.name);
  }

  /** Adding a deck under a fresh id and an unused name keeps the invariant. */
  lemma AddDeckKeepsValid(st: Store, name: string)
    requires Valid(st) && forall k :: 0 <= k < |st.decks| ==> st.decks[k].name != name
    ensures Valid(AddDeck(st, name)) && st.nextId in DeckIds(AddDeck(st, name).decks)
  {
    var decks := AddDeck(st, name).decks;
    assert decks[|st.decks|].id == st.nextId;
    assert Unique(st.decks);
    UniqueSnoc(st.decks, DeckRow(st.nextId, name));
    assert DeckIds(st.decks) <= DeckIds(decks) by {
      assert forall k :: 0 <= k < |st.decks| ==> decks[k] == st.decks[k];
    }
  }

  /** Cards added to an existing deck keep the invariant. */
  lemma AddRowsKeepsValid(st: Store, id: int, cards: seq<NewCard>)
    requires Valid(st) && id in DeckIds(st.decks)
    ensures Valid(st.(cards := st.cards + NewRows(id, cards)))
  {
    var rows := NewRows(id, cards);
    var all := st.cards + rows;
    forall k | 0 <= k < |all|
      ensures all[k].deckId in DeckIds(st.decks)
    {
      if k < |st.cards| {
        assert all[k] == st.cards[k];
      } else {
        assert all[k] == rows[k - |st.cards|];
      }
    }
  }

  /** Importing keeps the store's invariant. */
  lemma ImportKeepsValid(st: Store, deck: NewDeck, f: ImportFaults)
    requires Valid(st)
    ensures Valid(ImportSpec(st, deck, f).store)
  {
    if !f.checkFails && CountNamed(st.decks, deck.name) == 0 && !f.deckInsertFails {
      var id := st.nextId;
      var added := AddDeck(st, deck.name);
      AddDeckKeepsValid(st, deck.name);
      if id != 0 && deck.cards != [] {
        if !f.cardInsertFails {
          AddRowsKeepsValid(added, id, deck.cards);
        } else if !f.rollbackFails {
          RemoveAddedDeck(st, deck.name);
        }
      }
    }
  }

  lemma {:induction false} NewRowsAllDue(id: int, cards: seq<NewCard>, today: string)
    ensures DueCount(NewRows(id, cards), id, today) == |cards|
    decreases |cards|
  {
    if cards != [] {
      var n := |cards| - 1;
      NewRowsAllDue(id, cards[..n], today);
      assert NewRows(id, cards)[..n] == NewRows(id, cards[..n]);
    }
  }

  /** Every card of a freshly imported deck is new, so all of them are due. */
  lemma ImportedCardsAreDue(st: Store, deck: NewDeck, f: ImportFaults, today: string)
    requires Valid(st)
    ensures var c := ImportSpec(st, deck, f);
            c.result.Success? ==> DueCount(c.store.cards, c.result.value, today) == |deck.cards|
  {
    var c := ImportSpec(st, deck, f);
    if c.result.Success? {
      var id := st.nextId;
      NoCardsForNextId(st);
      DueCountZero(st.cards, id, today);
      NewRowsAllDue(id, deck.cards, today);
      if deck.cards != [] {
        DueCountAppend(st.cards, NewRows(id, deck.cards), id, today);
      }
    }
  }

  /** None of the rows of a new deck survives deleting that deck. */
  lemma {:induction false} WithoutNewRows(id: int, cards: seq<NewCard>)
    ensures WithoutCards(NewRows(id, cards), id) == []
    decreases |cards|
  {
    if cards != [] {
      var n := |cards| - 1;
      WithoutNewRows(id, cards[..n]);
      assert NewRows(id, cards)[..n] == NewRows(id, cards[..n]);
    }
  }

  /** Deleting a deck just imported gives back the tables as they were before
      the import (only the id sequence has moved on). */
  lemma DeleteUndoesImport(st: Store, deck: NewDeck, fi: ImportFaults)
    requires Valid(st) && ImportSpec(st, deck, fi).result.Success?
    ensures var c := ImportSpec(st, deck, fi);
            DeleteSpec(c.store, c.result.value, DeleteFaults(false, false))
              == Change(Store(st.decks, st.cards, st.nextId + 1), Success(()))
  {
    var id := st.nextId;
    var added := AddDeck(st, deck.name);
    RemoveAddedDeck(st, deck.name);
    AddDeckKeepsValid(st, deck.name);
    var rows := NewRows(id, deck.cards);
    WithoutCardsAppend(st.cards, rows, id);
    WithoutNewRows(id, deck.cards);
    assert WithoutCards(st.cards, id) + [] == st.cards;
  }

  // ---------------------------------------------------------------------------
  // The client over a store

  class Database {
    var decks: seq<DeckRow>
    var cards: seq<CardRow>
    var nextId: int

    function State(): Store
      reads this
    {
      Store(decks, cards, nextId)
    }

    constructor()
      ensures State() == Store([], [], 1) && Valid(State())
    {
      decks := [];
      cards := [];
      nextId := 1;
    }

    /** `get_all_decks()`: counts the due cards per deck in one pass over the
        cards, then annotates each deck with its count. */
    method GetAllDecks(today: string, fault: bool) returns (listed: seq<DeckSummary>)
      ensures listed == AllDecks(State(), today, fault)
    {
      if fault || decks == [] {
        return [];
      }
      var dueCounts: map<int, nat> := map[];
      for i := 0 to |cards|
        invariant forall id :: CountOf(dueCounts, id) == DueCount(cards[..i], id, today)
      {
        var card := cards[i];
        assert cards[..i + 1][..i] == cards[..i];
        if IsDue(card, today) {
          dueCounts := dueCounts[card.deckId := CountOf(dueCounts, card.deckId) + 1];
        }
      }
      assert cards[..|cards|] == cards;
      listed := [];
      for k := 0 to |decks|
        invariant |listed| == k
        invariant forall j :: 0 <= j < k ==> listed[j] == AllDecks(State(), today, fault)[j]
      {
        listed := listed + [DeckSummary(decks[k].id, decks[k].name, CountOf(dueCounts, decks[k].id))];
      }
    }

    /** `import_deck(deck)`, step by step. */
    method ImportDeck(deck: NewDeck, f: ImportFaults) returns (r: Result<int, DbError>)
      requires Valid(State())
      modifies this
      ensures State() == ImportSpec(old(State()), deck, f).store
      ensures r == ImportSpec(old(State()), deck, f).result
      ensures Valid(State())
    {
      ImportKeepsValid(State(), deck, f);
      if f.checkFails {
        return Failure(CheckFailed);
      }
      if CountNamed(decks, deck.name) > 0 {
        return Failure(DeckExists(deck.name));
      }
      if f.deckInsertFails {
        return Failure(DeckInsertFailed);
      }
      var newDeckId := nextId;
      decks := decks + [DeckRow(newDeckId, deck.name)];
      nextId := nextId + 1;
      if newDeckId == 0 {
        return Failure(MissingDeckId);
      }
      if deck.cards == [] {
        return Success(newDeckId);
      }
      var cardsToInsert := NewRows(newDeckId, deck.cards);
      if !f.cardInsertFails {
        cards := cards + cardsToInsert;
        return Success(newDeckId);
      }
      if !f.rollbackFails {
        decks := WithoutDeck(decks, newDeckId);
        cards := WithoutCards(cards, newDeckId);
      }
      r := Failure(CardInsertFailed(!f.rollbackFails));
    }

    /** `delete_deck(id)`: the existence check, then the delete (which cascades to the cards). */
    method DeleteDeck(id: int, f: DeleteFaults) returns (r: Result<(), DbError>)
      requires Valid(State())
      modifies this
      ensures State() == DeleteSpec(old(State()), id, f).store
      ensures r == DeleteSpec(old(State()), id, f).result
      ensures Valid(State())
    {
      RemoveDeckKeepsValid(State(), id);
      if f.checkFails {
        return Failure(DeleteFailed(id));
      }
      if CountWithId(decks, id) == 0 {
        return Failure(DeckNotFound(id));
      }
      if f.deleteFails {
        return Failure(DeleteFailed(id));
      }
      decks := WithoutDeck(decks, id);
      cards := WithoutCards(cards, id);
      r := Success(());
    }
  }
}
