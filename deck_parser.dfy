/**
 * `parse_deck`: checks a decoded deck file against the shape
 * `{"deck_name": str, "cards": [{"front_content": str, "back_content": str,
 * "tags": [str]?}]}`, strips the deck name and rebuilds each card from its
 * three fields. The caller's object is changed in place and returned.
 */
module DeckParser {
  import opened Wrappers
  import opened Text
  import opened Json

  /** Which check failed; card errors carry the index of the card. */
  datatype DeckError =
    | RootNotObject
    | BadDeckName
    | BadCards
    | CardNotObject(index: nat)
    | BadFront(index: nat)
    | BadBack(index: nat)
    | TagsNotList(index: nat)
    | TagNotString(index: nat)
  {
    predicate IsCardError() {
      !(RootNotObject? || BadDeckName? || BadCards?)
    }
  }

  /** `card.get('tags', [])`. */
  function TagsOf(fields: map<string, Value>): Value {
    if "tags" in fields then fields["tags"] else Array([])
  }

  predicate HasString(fields: map<string, Value>, key: string) {
    key in fields && fields[key].Str?
  }

  /** A card the loop accepts: an object with string contents and a list of string tags. */
  predicate IsCard(card: Value) {
    && card.Object?
    && HasString(card.fields, "front_content")
    && HasString(card.fields, "back_content")
    && TagsOf(card.fields).Array?
    && AllStrings(TagsOf(card.fields).items)
  }

  /** The card stored in place of a valid one: the three fields and nothing else. */
  function CleanCard(front: Value, back: Value, tags: Value): Value {
    Object(map["front_content" := front, "back_content" := back, "tags" := tags])
  }

  /** The checks of one turn of the loop over the cards, for the card at index `i`. */
  function CheckCard(card: Value, i: nat): (r: Result<Value, DeckError>)
    ensures r.Success? <==> IsCard(card)
    ensures r.Failure? ==> r.error.IsCardError() && r.error.index == i
    ensures r.Success? ==>
              r.value == CleanCard(card.fields["front_content"], card.fields["back_content"], TagsOf(card.fields))
  {
    if !card.Object? then Failure(CardNotObject(i))
    else if !HasString(card.fields, "front_content") then Failure(BadFront(i))
    else if !HasString(card.fields, "back_content") then Failure(BadBack(i))
    else
      var tags := TagsOf(card.fields);
      if !tags.Array? then Failure(TagsNotList(i))
      else if !AllStrings(tags.items) then Failure(TagNotString(i))
      else Success(CleanCard(card.fields["front_content"], card.fields["back_content"], tags))
  }

  /** The whole loop: every card checked in order, stopping at the first failure. */
  function CheckCards(cards: seq<Value>): Result<seq<Value>, DeckError>
    decreases |cards|
  {
    if cards == [] then Success([])
    else
      var i := |cards| - 1;
      match CheckCards(cards[..i])
      case Failure(e) => Failure(e)
      case Success(done) =>
        match CheckCard(cards[i], i)
        case Failure(e) => Failure(e)
        case Success(card) => Success(done + [card])
  }

  /** On success, card `k` of the result is what checking input card `k` gave;
      on failure, the error is that of the first card that fails. */
  lemma {:induction false} CheckCardsFirstFailure(cards: seq<Value>)
    ensures var r := CheckCards(cards);
            && (r.Success? ==>
                  && |r.value| == |cards|
                  && forall k :: 0 <= k < |cards| ==> CheckCard(cards[k], k) == Success(r.value[k]))
            && (r.Failure? ==>
                  && r.error.IsCardError()
                  && r.error.index < |cards|
                  && CheckCard(cards[r.error.index], r.error.index) == Failure(r.error)
                  && forall k :: 0 <= k < r.error.index ==> CheckCard(cards[k], k).Success?)
    decreases |cards|
  {
    if cards != [] {
      var i := |cards| - 1;
      var prefix := cards[..i];
      CheckCardsFirstFailure(prefix);
      assert forall k :: 0 <= k < i ==> prefix[k] == cards[k];
    }
  }

  /** What `parse_deck(data)` leaves in `data` and what it returns or raises. */
  datatype Outcome = Outcome(data: Value, result: Result<Value, DeckError>)

  predicate HasDeckName(fields: map<string, Value>) {
    HasString(fields, "deck_name") && Trim(fields["deck_name"].s) != []
  }

  /** `parse_deck(data)`, with the changes to the caller's object made visible. */
  function ParseDeckSpec(data: Value): Outcome {
    if !data.Object? then Outcome(data, Failure(RootNotObject))
    else if !HasDeckName(data.fields) then Outcome(data, Failure(BadDeckName))
    else
      var named := data.fields["deck_name" := Str(Trim(data.fields["deck_name"].s))];
      if "cards" !in named || !named["cards"].Array? then Outcome(Object(named), Failure(BadCards))
      else
        match CheckCards(named["cards"].items)
        case Failure(e) => Outcome(Object(named), Failure(e))
        case Success(parsed) =>
          var done := Object(named["cards" := Array(parsed)]);
          Outcome(done, Success(done))
  }

  /** The checks before the cards: the root must be an object, the name a
      string that is not blank, and `cards` a list; the name is stored stripped
      as soon as it passes, even when a later check fails. */
  lemma ParseDeckHeader(data: Value)
    ensures var o := ParseDeckSpec(data);
            && (!data.Object? ==> o == Outcome(data, Failure(RootNotObject)))
            && (data.Object? && !HasDeckName(data.fields) ==> o == Outcome(data, Failure(BadDeckName)))
            && (data.Object? && HasDeckName(data.fields) ==>
                  && o.data.Object?
                  && o.data.fields["deck_name"] == Str(Trim(data.fields["deck_name"].s))
                  && (o.result == Failure(BadCards) <==> !("cards" in data.fields && data.fields["cards"].Array?)))
  {
    if data.Object? && "cards" in data.fields && data.fields["cards"].Array? {
      CheckCardsFirstFailure(data.fields["cards"].items);
    }
  }

  /** `parse_deck` touches only `deck_name` and `cards`: the caller's object
      keeps its keys, and every other key keeps its value. */
  lemma ParseDeckKeepsOtherKeys(data: Value)
    requires data.Object?
    ensures var o := ParseDeckSpec(data);
            && o.data.Object?
            && o.data.fields.Keys == data.fields.Keys
            && forall k :: k in data.fields && k != "deck_name" && k != "cards" ==> o.data.fields[k] == data.fields[k]
  {
  }

  /** On success the object itself is returned, with one clean card per input
      card, in order, holding the same contents. */
  lemma ParseDeckCards(data: Value)
    ensures var o := ParseDeckSpec(data);
            o.result.Success? ==>
              && o.result.value == o.data
              && var cards, out := data.fields["cards"].items, o.data.fields["cards"].items;
              && |out| == |cards|
              && forall k :: 0 <= k < |cards| ==>
                   && IsCard(cards[k])
                   && out[k] == CleanCard(cards[k].fields["front_content"], cards[k].fields["back_content"], TagsOf(cards[k].fields))
  {
    var o := ParseDeckSpec(data);
    if o.result.Success? {
      var cards := data.fields["cards"].items;
      assert CheckCards(cards).Success?;
      CheckCardsFirstFailure(cards);
    }
  }

  /** A card error names the first card, by index, that fails a check. */
  lemma ParseDeckFirstBadCard(data: Value)
    ensures var o := ParseDeckSpec(data);
            o.result.Failure? && o.result.error.IsCardError() ==>
              && var cards, i := data.fields["cards"].items, o.result.error.index;
              && i < |cards| && !IsCard(cards[i])
              && forall k :: 0 <= k < i ==> IsCard(cards[k])
  {
    var o := ParseDeckSpec(data);
    if o.result.Failure? && o.result.error.IsCardError() {
      var cards := data.fields["cards"].items;
      assert CheckCards(cards).Failure?;
      CheckCardsFirstFailure(cards);
    }
  }

  /** A clean card passes the checks again and comes back unchanged. */
  lemma CleanCardIsCard(card: Value, i: nat)
    requires IsCard(card)
    ensures var c := CheckCard(card, i).value; CheckCard(c, i) == Success(c)
  {
    var c := CheckCard(card, i).value;
    assert c.fields["front_content"] == card.fields["front_content"];
    assert c.fields["back_content"] == card.fields["back_content"];
    assert c.fields["tags"] == TagsOf(card.fields);
  }

  /** Checking the cards a successful check returned gives the same cards. */
  lemma {:induction false} CheckCardsIdempotent(cards: seq<Value>)
    requires CheckCards(cards).Success?
    ensures CheckCards(CheckCards(cards).value) == CheckCards(cards)
    decreases |cards|
  {
    if cards != [] {
      var i := |cards| - 1;
      var out := CheckCards(cards).value;
      var done := CheckCards(cards[..i]).value;
      CheckCardsIdempotent(cards[..i]);
      CheckCardsFirstFailure(cards[..i]);
      assert out == done + [CheckCard(cards[i], i).value];
      assert out[..i] == done;
      CleanCardIsCard(cards[i], i);
    }
  }

  /** Parsing a deck `parse_deck` accepted changes nothing and accepts it again. */
  lemma ParseDeckIdempotent(data: Value)
    requires ParseDeckSpec(data).result.Success?
    ensures var d := ParseDeckSpec(data).data; ParseDeckSpec(d) == Outcome(d, Success(d))
  {
    var d := ParseDeckSpec(data).data;
    var name := data.fields["deck_name"].s;
    TrimIdempotent(name);
    var named := data.fields["deck_name" := Str(Trim(name))];
    var parsed := CheckCards(named["cards"].items).value;
    CheckCardsIdempotent(named["cards"].items);
    assert d.fields == named["cards" := Array(parsed)];
    assert d.fields["deck_name" := Str(Trim(Trim(name)))] == d.fields;
    assert d.fields["cards" := Array(parsed)] == d.fields;
  }

  /** The caller's deck object, which `parse_deck` updates in place. */
  class DeckDocument {
    var root: Value

    constructor(root: Value)
      ensures this.root == root
    {
      this.root := root;
    }

    /** `parse_deck(data)`: the checks in order, the name stripped in place
        before the cards are looked at, the cards rebuilt one at a time and
        stored only once all of them pass. */
    method ParseDeck() returns (r: Result<Value, DeckError>)
      modifies this
      ensures root == ParseDeckSpec(old(root)).data
      ensures r == ParseDeckSpec(old(root)).result
    {
      if !root.Object? {
        return Failure(RootNotObject);
      }
      if !HasDeckName(root.fields) {
        return Failure(BadDeckName);
      }
      root := Object(root.fields["deck_name" := Str(Trim(root.fields["deck_name"].s))]);
      if "cards" !in root.fields || !root.fields["cards"].Array? {
        return Failure(BadCards);
      }
      var checked := CheckAll(root.fields["cards"].items);
      if checked.Failure? {
        return Failure(checked.error);
      }
      root := Object(root.fields["cards" := Array(checked.value)]);
      r := Success(root);
    }
  }

  /** The loop over the cards: each one checked and rebuilt in turn, the first
      failure ending the loop. */
  method CheckAll(cards: seq<Value>) returns (r: Result<seq<Value>, DeckError>)
    ensures r == CheckCards(cards)
  {
    var parsedCards: seq<Value> := [];
    var i := 0;
    while i < |cards|
      invariant 0 <= i <= |cards|
      invariant CheckCards(cards[..i]) == Success(parsedCards)
    {
      assert cards[..i + 1][..i] == cards[..i];
      var checked := CheckCard(cards[i], i);
      if checked.Failure? {
        ParsedCardsStop(cards, i + 1, checked.error);
        return Failure(checked.error);
      }
      parsedCards := parsedCards + [checked.value];
      i := i + 1;
    }
    assert cards[..i] == cards;
    r := Success(parsedCards);
  }
  /** Once a prefix of the cards fails, the whole list fails the same way. */
  lemma {:induction false} ParsedCardsStop(cards: seq<Value>, n: nat, e: DeckError)
    requires n <= |cards| && CheckCards(cards[..n]) == Failure(e)
    ensures CheckCards(cards) == Failure(e)
    decreases |cards| - n
  {
    if n < |cards| {
      assert cards[..n + 1][..n] == cards[..n];
      ParsedCardsStop(cards, n + 1, e);
    } else {
      assert cards[..n] == cards;
    }
  }
}
