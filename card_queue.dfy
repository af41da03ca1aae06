/** The card iterator the review sequencer drives (`IDeckTreeIterator`). Its code is
    not part of this model; this stand-in walks the lists of one deck: the current card
    is the first due card or, when no card is due, the first new card. */
module CardQueues {
  import opened Cards
  import opened Decks

  class CardQueue {
    /** The deck the cards are taken from. */
    var deck: Deck?
    /** The card under review, or null when there is none. */
    var currentCard: Card?
    /** The list of `deck` holding the current card, and its position there. */
    var listType: CardListType
    var index: int

    constructor ()
      ensures deck == null && currentCard == null
    {
      deck := null;
      currentCard := null;
      listType := DueCard;
      index := 0;
    }

    /** The current card, when there is one, is at `index` of the list `listType`
        names in `deck`. */
    predicate Valid()
      reads this, deck
    {
      currentCard != null ==>
        deck != null && listType != All
        && 0 <= index < |deck.GetCardListForCardType(listType)|
        && deck.GetCardListForCardType(listType)[index] == currentCard
    }

    /** The deck, as a set, empty when there is none. */
    function DeckSet(): set<Deck>
      reads this`deck
    {
      if deck == null then {} else {deck}
    }

    /** The current card is the first card of the deck, due cards first. */
    predicate AtFirstCard()
      reads this, deck
    {
      if deck == null || (deck.dueFlashcards == [] && deck.newFlashcards == []) then currentCard == null
      else
        currentCard != null && index == 0
        && listType == (if deck.dueFlashcards != [] then DueCard else NewCard)
    }

    /** Between the two states neither the deck, its lists nor the current card and
        its place changed. */
    twostate predicate Unmoved()
      reads this, deck
    {
      deck == old(deck) && currentCard == old(currentCard) && listType == old(listType) && index == old(index)
      && (deck != null ==> deck.dueFlashcards == old(deck.dueFlashcards) && deck.newFlashcards == old(deck.newFlashcards))
    }

    /** `setDeck`: the cards are now taken from `d`; no card is current until the next
        `NextCard`. */
    method SetDeck(d: Deck?)
      modifies this
      ensures deck == d && currentCard == null && Valid()
    {
      deck := d;
      currentCard := null;
    }

    /** `nextCard`: the first card of the deck becomes current. */
    method NextCard()
      modifies this`currentCard, this`listType, this`index
      ensures Valid() && AtFirstCard()
    {
      if deck == null {
        currentCard := null;
      } else if deck.dueFlashcards != [] {
        listType, index, currentCard := DueCard, 0, deck.dueFlashcards[0];
      } else if deck.newFlashcards != [] {
        listType, index, currentCard := NewCard, 0, deck.newFlashcards[0];
      } else {
        currentCard := null;
      }
    }

    /** `deleteCurrentCard`: the current card is removed from its list, whose other
        cards keep their order, and the next card becomes current. */
    method DeleteCurrentCard()
      requires Valid()
      modifies this`currentCard, this`listType, this`index, DeckSet()`newFlashcards, DeckSet()`dueFlashcards
      ensures deck == old(deck) && Valid() && AtFirstCard()
      ensures old(currentCard) != null ==>
        (deck.dueFlashcards, deck.newFlashcards) == old(Requeue(deck.dueFlashcards, deck.newFlashcards, listType, index, false))
      ensures old(currentCard) == null && deck != null ==>
        deck.newFlashcards == old(deck.newFlashcards) && deck.dueFlashcards == old(deck.dueFlashcards)
    {
      if currentCard != null {
        ghost var after := Requeue(deck.dueFlashcards, deck.newFlashcards, listType, index, false);
        deck.DeleteFlashcardAtIndex(index, listType);
        assert (deck.dueFlashcards, deck.newFlashcards) == after;
      }
      NextCard();
    }

    /** `deleteCurrentQuestion`: every card of the current card's question is removed
        from the deck, as `Deck.deleteAllCardsForQuestion` does, and the next card
        becomes current. */
    method DeleteCurrentQuestion()
      requires Valid()
      modifies this`currentCard, this`listType, this`index, DeckSet()`newFlashcards, DeckSet()`dueFlashcards
      ensures deck == old(deck) && Valid() && AtFirstCard()
      ensures old(currentCard) != null && old(currentCard.question) != null ==>
        (deck.dueFlashcards, deck.newFlashcards)
          == RemoveSiblings(old(deck.dueFlashcards), old(deck.newFlashcards), old(currentCard.question.cards))
      ensures (old(currentCard) == null || old(currentCard.question) == null) && deck != null ==>
        deck.newFlashcards == old(deck.newFlashcards) && deck.dueFlashcards == old(deck.dueFlashcards)
    {
      if currentCard != null && currentCard.question != null {
        deck.DeleteAllCardsForQuestion(currentCard.question);
      }
      NextCard();
    }

    /** `moveCurrentCardToEndOfList`: the current card is taken out of its list and put
        back at the end, and stays current; the other list does not change. */
    method MoveCurrentCardToEndOfList()
      requires Valid()
      modifies this`index, DeckSet()`newFlashcards, DeckSet()`dueFlashcards
      ensures deck == old(deck) && Valid() && currentCard == old(currentCard) && listType == old(listType)
      ensures currentCard != null ==>
        (deck.dueFlashcards, deck.newFlashcards) == old(Requeue(deck.dueFlashcards, deck.newFlashcards, listType, index, true))
      ensures currentCard == null && deck != null ==>
        deck.newFlashcards == old(deck.newFlashcards) && deck.dueFlashcards == old(deck.dueFlashcards)
    {
      if currentCard != null {
        var list := deck.GetCardListForCardType(listType);
        list := list[..index] + list[index + 1..] + [currentCard];
        if listType == DueCard {
          deck.dueFlashcards := list;
        } else {
          deck.newFlashcards := list;
        }
        index := |list| - 1;
      }
    }

    /** `appendCard`: the card is added at the end of the list of the deck its type
        selects; the current card stays where it is. */
    method AppendCard(card: Card)
      requires Valid() && deck != null
      modifies DeckSet()`newFlashcards, DeckSet()`dueFlashcards
      ensures Valid()
      ensures deck.GetCardListForCardType(card.ListType()) == old(deck.GetCardListForCardType(card.ListType())) + [card]
      ensures card.isNew ==> deck.dueFlashcards == old(deck.dueFlashcards)
      ensures !card.isNew ==> deck.newFlashcards == old(deck.newFlashcards)
    {
      deck.Push(card);
    }
  }

  /** The due and new lists after the reviewed card, at `i` of list `t`, is taken out
      and, when `keep` holds, put back at the end of the same list. */
  function Requeue(due: seq<Card>, newCards: seq<Card>, t: CardListType, i: int, keep: bool)
    : (seq<Card>, seq<Card>)
    requires t != All && 0 <= i < |if t == DueCard then due else newCards|
  {
    var list := if t == DueCard then due else newCards;
    var rest := if keep then list[..i] + list[i + 1..] + [list[i]] else list[..i] + list[i + 1..];
    if t == DueCard then (rest, newCards) else (due, rest)
  }

  /** A card put back keeps every card in the deck; a card taken out is the only card
      that leaves, and the other list never changes. */
  lemma RequeueKeepsOrRemoves(due: seq<Card>, newCards: seq<Card>, t: CardListType, i: int, keep: bool)
    requires t != All && 0 <= i < |if t == DueCard then due else newCards|
    ensures var list := if t == DueCard then due else newCards;
      var r := Requeue(due, newCards, t, i, keep);
      (keep ==> multiset(r.0) + multiset(r.1) == multiset(due) + multiset(newCards))
      && (!keep ==> multiset(r.0) + multiset(r.1) + multiset{list[i]} == multiset(due) + multiset(newCards))
      && (t == DueCard ==> r.1 == newCards) && (t == NewCard ==> r.0 == due)
  {
    var list := if t == DueCard then due else newCards;
    assert list == list[..i] + [list[i]] + list[i + 1..];
  }
}
