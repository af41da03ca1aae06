/** The review sequencer (`FlashcardReviewSequencer` in src/FlashcardReviewSequencer.ts):
    it holds the deck tree as loaded and the tree of the cards still to review, drives
    the card iterator one card at a time, computes each reviewed card's new schedule and
    writes the question back to its note. */
module ReviewSequencer {
  import opened Wrappers
  import opened Text
  import opened ScheduleInfo
  import opened QuestionTexts
  import opened Cards
  import opened Decks
  import opened CardQueues

  datatype ReviewResponse = Easy | Good | Hard | Reset

  datatype FlashcardReviewMode = Cram | Review

  datatype DeckStats = DeckStats(dueCount: nat, newCount: nat, totalCount: nat)

  /** The schedule calculator (`ICardScheduleCalculator`), whose code is not part of
      this model: the schedule after a reset, the schedule after a review of a card
      that has one, and the first schedule of a new card of the note at a path. */
  datatype ScheduleCalculator = ScheduleCalculator(
    resetCardSchedule: RepItemScheduleInfo,
    calcUpdatedSchedule: (ReviewResponse, RepItemScheduleInfo) -> RepItemScheduleInfo,
    newCardSchedule: (ReviewResponse, string) -> RepItemScheduleInfo)

  /** A question handed to `writeQuestion`, with its text and the schedules of its cards at that
      moment; writing the note file is not part of this model. */
  datatype WrittenQuestion = WrittenQuestion(question: Question, text: QuestionText,
                                             schedules: seq<Option<RepItemScheduleInfo>>)

  /** `determineCardSchedule`: a reset gives the reset schedule whatever the card; a
      card with a schedule gets the updated one; a card without one gets the new-card
      schedule of its note, and fails when it has no question or its question no note. */
  function DetermineCardSchedule(sc: ScheduleCalculator, response: ReviewResponse,
                                 scheduleInfo: Option<RepItemScheduleInfo>, note: Option<Note>)
    : (r: Result<RepItemScheduleInfo>)
    ensures response == Reset ==> r == Ok(sc.resetCardSchedule)
    ensures response != Reset && scheduleInfo.Some? ==> r == Ok(sc.calcUpdatedSchedule(response, scheduleInfo.value))
    ensures response != Reset && scheduleInfo.None? && note.Some? ==> r == Ok(sc.newCardSchedule(response, note.value.filePath))
    ensures r.Fail? <==> response != Reset && scheduleInfo.None? && note.None?
  {
    if response == Reset then Ok(sc.resetCardSchedule)
    else if scheduleInfo.Some? then Ok(sc.calcUpdatedSchedule(response, scheduleInfo.value))
    else if note.Some? then Ok(sc.newCardSchedule(response, note.value.filePath))
    else Fail("the card's question has no note")
  }

  /** The note of a card's question, absent when the card has no question. */
  function NoteOf(card: Card): Option<Note>
    reads card`question, card.question
  {
    if card.question == null then None else card.question.note
  }

  /** The deck statistics of the deck at `topicPath`: the total of all cards below it in
      the tree as loaded, and the new and due cards below it still to review. */
  ghost function Stats(original: Deck, remaining: Deck, topicPath: seq<string>): (r: Option<DeckStats>)
    requires original.Valid() && remaining.Valid()
    reads original, original.Repr, remaining, remaining.Repr
  {
    var o := original.GetDeck(topicPath);
    var d := remaining.GetDeck(topicPath);
    if o == null || d == null then None
    else Some(DeckStats(d.Count(DueCard, true), d.Count(NewCard, true), o.Count(All, true)))
  }

  /** The counts of `getDeckStats` for the decks found in the two trees. */
  method CountStats(original: Deck, remainingDeck: Deck) returns (s: DeckStats)
    requires original.Valid() && remainingDeck.Valid()
    ensures s == DeckStats(remainingDeck.Count(DueCard, true), remainingDeck.Count(NewCard, true), original.Count(All, true))
  {
    var totalCount := original.GetCardCount(All, true);
    var newCount := remainingDeck.GetCardCount(NewCard, true);
    var dueCount := remainingDeck.GetCardCount(DueCard, true);
    s := DeckStats(dueCount, newCount, totalCount);
  }

  /** The statistics of decks found in both trees. */
  lemma StatsOfFound(original: Deck, remaining: Deck, topicPath: seq<string>, o: Deck, d: Deck)
    requires original.Valid() && remaining.Valid()
    requires o == original.GetDeck(topicPath) && d == remaining.GetDeck(topicPath)
    ensures Stats(original, remaining, topicPath) == Some(DeckStats(d.Count(DueCard, true), d.Count(NewCard, true), o.Count(All, true)))
  {
  }

  /** While no card has been reviewed, the total of a deck is its new plus its due count. */
  lemma StatsBeforeReview(tree: Deck, topicPath: seq<string>)
    requires tree.Valid() && Stats(tree, tree, topicPath).Some?
    ensures var s := Stats(tree, tree, topicPath).value; s.totalCount == s.newCount + s.dueCount
  {
    tree.GetDeck(topicPath).CountAll(true);
  }

  /** The version of `createUpdatedQuestion`'s question text the rest of the model uses:
      the original text and topic path are kept, the question becomes the edited text,
      the block identifier is kept and the hash is taken of the new topic and question. */
  function UpdatedQuestionText(qt: QuestionText, newText: string, c: Collaborators): (r: QuestionText)
  {
    NewQuestionText(qt.original, qt.topicPathWithWs, newText, qt.obsidianBlockId, c)
  }

  /** The edited question text keeps everything but the question, and its hash is that
      of a question read with the same topic path and the new text. */
  lemma UpdatedQuestionTextKeeps(qt: QuestionText, newText: string, c: Collaborators)
    ensures var r := UpdatedQuestionText(qt, newText, c);
      r.original == qt.original && r.topicPathWithWs == qt.topicPathWithWs
      && r.actualQuestion == newText && r.obsidianBlockId == qt.obsidianBlockId
      && FormatTopicAndQuestion(r, c) == TopicAndQuestion(qt.topicPathWithWs, newText, c)
      && EndsWith(FormatTopicAndQuestion(r, c), newText)
      && r.textHash == c.hash(FormatTopicAndQuestion(r, c))
  {
  }

  /** `createUpdatedQuestion` as written: the `QuestionText` constructor takes the
      original text, the topic path with its white space, the question and the block
      identifier, but is called with the original text, two fields `QuestionText` does
      not have (so undefined: no topic path and no question) and the edited text, which
      thus lands in the block identifier. The hash is then taken of the text
      `undefined`, which is what appending an undefined question to "" gives. */
  function UpdatedQuestionTextAsWritten(qt: QuestionText, newText: string, c: Collaborators): QuestionText
  {
    QuestionText(qt.original, None, "", Some(newText), c.hash("undefined"))
  }

  /** The edited text of any question is lost as the question and becomes its block
      identifier; the topic path is dropped too. */
  lemma UpdatedQuestionTextAsWrittenLosesText(qt: QuestionText, newText: string, c: Collaborators)
    requires newText != ""
    ensures var r := UpdatedQuestionTextAsWritten(qt, newText, c);
      r.actualQuestion != newText && r.obsidianBlockId == Some(newText) && r.topicPathWithWs.None?
      && r.textHash == c.hash("undefined")
      && r != UpdatedQuestionText(qt, newText, c)
  {
  }

  /** Each card is the new card number `k` with the `k`th front and back. */
  predicate NewCardsFor(cards: seq<Card>, frontBacks: seq<(string, string)>) {
    |cards| == |frontBacks|
    && forall k :: 0 <= k < |cards| ==>
         cards[k].cardIdx == k && (cards[k].front, cards[k].back) == frontBacks[k] && cards[k].isNew
  }

  /** The new cards for `frontBacks`, none of them scheduled yet. */
  predicate UnscheduledCardsFor(cards: seq<Card>, frontBacks: seq<(string, string)>)
    reads cards
  {
    NewCardsFor(cards, frontBacks) && forall k :: 0 <= k < |cards| ==> cards[k].scheduleInfo.None?
  }

  /** Cards made for an update carry no schedule. */
  lemma UpdatedQuestionUnscheduled(cards: seq<Card>, frontBacks: seq<(string, string)>)
    requires UnscheduledCardsFor(cards, frontBacks)
    ensures !AnyScheduled(Schedules(cards))
  {
  }

  /** `NoteQuestionParser.createCardList` with no schedules: one new card per front and
      back, numbered in order, none of them scheduled. */
  method CreateCardList(frontBacks: seq<(string, string)>) returns (cards: seq<Card>)
    ensures UnscheduledCardsFor(cards, frontBacks)
    ensures forall k :: 0 <= k < |cards| ==> fresh(cards[k])
  {
    cards := [];
    for i := 0 to |frontBacks|
      invariant |cards| == i
      invariant forall k :: 0 <= k < i ==>
        fresh(cards[k]) && cards[k].cardIdx == k && (cards[k].front, cards[k].back) == frontBacks[k]
        && cards[k].scheduleInfo.None? && cards[k].isNew
    {
      var card := new Card(null, i, frontBacks[i].0, frontBacks[i].1, None, true);
      cards := cards + [card];
    }
  }

  /** `q` sits where `original` sits: same note, type, topic path, line, tag and
      context. */
  predicate SamePlace(q: Question, original: Question)
    reads q, original
  {
    q.note == original.note && q.questionType == original.questionType
    && q.topicPath == original.topicPath && q.lineNo == original.lineNo
    && q.hasEditLaterTag == original.hasEditLaterTag && q.questionContext == original.questionContext
  }

  /** A new question with the given text and no cards that keeps everything else of
      `originalQ`. */
  method RetainedQuestion(originalQ: Question, questionText: QuestionText) returns (question: Question)
    ensures fresh(question) && question.questionText == questionText && question.cards == []
    ensures SamePlace(question, originalQ) && !question.hasChanged
  {
    question := new Question(originalQ.note, originalQ.questionType, originalQ.topicPath, questionText,
                             originalQ.lineNo, originalQ.hasEditLaterTag, originalQ.questionContext, [], false);
  }

  /** `createUpdatedQuestion`: a new question that keeps the note, type, topic path,
      line, tag and context of the original, with the edited text and a new unscheduled
      card for each front and back `expand` (`CardFrontBackUtil.expand`) makes of it. */
  method CreateUpdatedQuestion(originalQ: Question, newText: string, newCardType: CardType,
                               expand: (CardType, string) -> seq<(string, string)>, c: Collaborators)
    returns (question: Question)
    ensures fresh(question)
    ensures SamePlace(question, originalQ) && !question.hasChanged
    ensures question.questionText == UpdatedQuestionText(originalQ.questionText, newText, c)
    ensures UnscheduledCardsFor(question.cards, expand(newCardType, newText))
    ensures forall k :: 0 <= k < |question.cards| ==> fresh(question.cards[k]) && question.cards[k].question == question
  {
    var frontBacks := expand(newCardType, newText);
    var questionText := UpdatedQuestionText(originalQ.questionText, newText, c);
    var cards := CreateCardList(frontBacks);
    question := RetainedQuestion(originalQ, questionText);
    question.SetCardList(cards);
    assert question.questionText == questionText;
  }

  class FlashcardReviewSequencer {
    var originalDeckTree: Deck?
    var remainingDeckTree: Deck?
    const reviewMode: FlashcardReviewMode
    const cardSequencer: CardQueue
    const calculator: ScheduleCalculator
    /** The questions written back to their notes, oldest first. */
    var written: seq<WrittenQuestion>

    constructor (reviewMode: FlashcardReviewMode, cardSequencer: CardQueue, calculator: ScheduleCalculator)
      ensures this.reviewMode == reviewMode && this.cardSequencer == cardSequencer
      ensures this.calculator == calculator && written == []
      ensures originalDeckTree == null && remainingDeckTree == null
    {
      this.reviewMode := reviewMode;
      this.cardSequencer := cardSequencer;
      this.calculator := calculator;
      written := [];
      originalDeckTree := null;
      remainingDeckTree := null;
    }

    /** `hasCurrentCard`. */
    function HasCurrentCard(): (r: bool)
      reads cardSequencer`currentCard
      ensures r <==> cardSequencer.currentCard != null
    {
      cardSequencer.currentCard != null
    }

    /** `currentQuestion`: the question of the current card, null without a card. */
    function CurrentQuestion(): (r: Question?)
      reads cardSequencer`currentCard, cardSequencer.currentCard
      ensures !HasCurrentCard() ==> r == null
      ensures HasCurrentCard() ==> r == cardSequencer.currentCard.question
    {
      if cardSequencer.currentCard == null then null else cardSequencer.currentCard.question
    }

    /** `setDeckTree`: both trees are kept, and review starts at the first card of the
        root of the remaining tree. */
    method SetDeckTree(originalDeckTree: Deck, remainingDeckTree: Deck)
      requires remainingDeckTree.Valid()
      modifies this`originalDeckTree, this`remainingDeckTree, cardSequencer
      ensures this.originalDeckTree == originalDeckTree && this.remainingDeckTree == remainingDeckTree
      ensures cardSequencer.deck == remainingDeckTree && cardSequencer.Valid() && cardSequencer.AtFirstCard()
    {
      this.originalDeckTree := originalDeckTree;
      this.remainingDeckTree := remainingDeckTree;
      SetCurrentDeck([]);
    }

    /** `setCurrentDeck`: the iterator moves to the deck at `topicPath` in the remaining
        tree and its first card becomes current. */
    method SetCurrentDeck(topicPath: seq<string>)
      requires remainingDeckTree != null && remainingDeckTree.Valid()
      modifies cardSequencer
      ensures cardSequencer.deck == remainingDeckTree.GetDeck(topicPath)
      ensures cardSequencer.Valid() && cardSequencer.AtFirstCard()
    {
      var deck := remainingDeckTree.GetDeck(topicPath);
      cardSequencer.SetDeck(deck);
      cardSequencer.NextCard();
    }

    /** `getDeckStats`: absent when either tree has no deck at `topicPath` (where the
        source fails on a null deck). */
    method GetDeckStats(topicPath: seq<string>) returns (r: Option<DeckStats>)
      requires originalDeckTree != null && originalDeckTree.Valid()
      requires remainingDeckTree != null && remainingDeckTree.Valid()
      ensures r == Stats(originalDeckTree, remainingDeckTree, topicPath)
      ensures r.Some? <==> originalDeckTree.GetDeck(topicPath) != null && remainingDeckTree.GetDeck(topicPath) != null
    {
      var original := originalDeckTree.GetDeck(topicPath);
      var remainingDeck := remainingDeckTree.GetDeck(topicPath);
      if original == null || remainingDeck == null {
        return None;
      }
      var stats := CountStats(original, remainingDeck);
      r := Some(stats);
      StatsOfFound(originalDeckTree, remainingDeckTree, topicPath, original, remainingDeck);
    }

    /** `skipCurrentCard`: every card of the current question leaves the deck, with no
        schedule computed and nothing written. */
    method SkipCurrentCard()
      requires cardSequencer.Valid()
      modifies cardSequencer`currentCard, cardSequencer`listType, cardSequencer`index
      modifies cardSequencer.DeckSet()`newFlashcards, cardSequencer.DeckSet()`dueFlashcards
      ensures cardSequencer.deck == old(cardSequencer.deck) && cardSequencer.Valid() && cardSequencer.AtFirstCard()
      ensures old(CurrentQuestion()) != null ==>
        (cardSequencer.deck.dueFlashcards, cardSequencer.deck.newFlashcards)
          == RemoveSiblings(old(cardSequencer.deck.dueFlashcards), old(cardSequencer.deck.newFlashcards),
                            old(CurrentQuestion().cards))
    {
      cardSequencer.DeleteCurrentQuestion();
    }

    /** `updateCurrentQuestionText`: `parsed` is what the note parser makes of the
        edited text. Unless it is exactly one question, this fails and nothing changes.
        Otherwise the cards of the current question leave the deck, the unscheduled
        cards of the updated question are appended to the new cards, the updated
        question is written, and the first card becomes current. */
    method UpdateCurrentQuestionText(parsed: seq<(CardType, string, int)>,
                                     expand: (CardType, string) -> seq<(string, string)>, c: Collaborators)
      returns (r: Result<()>)
      requires cardSequencer.Valid()
      modifies this`written, cardSequencer`currentCard, cardSequencer`listType, cardSequencer`index
      modifies cardSequencer.DeckSet()`newFlashcards, cardSequencer.DeckSet()`dueFlashcards
      ensures cardSequencer.deck == old(cardSequencer.deck) && cardSequencer.Valid()
      ensures r.Ok? <==> |parsed| == 1 && old(CurrentQuestion()) != null
      ensures r.Fail? ==> written == old(written) && cardSequencer.Unmoved()
      ensures r.Ok? ==>
        |written| == |old(written)| + 1 && written[..|old(written)|] == old(written)
        && var w := written[|old(written)|];
        var frontBacks := expand(parsed[0].0, parsed[0].1);
        var removed := RemoveSiblings(old(cardSequencer.deck.dueFlashcards), old(cardSequencer.deck.newFlashcards),
                                      old(CurrentQuestion().cards));
        w.text == UpdatedQuestionText(old(CurrentQuestion().questionText), parsed[0].1, c)
        && |w.schedules| == |frontBacks| && !AnyScheduled(w.schedules)
        && cardSequencer.deck.dueFlashcards == removed.0
        && |cardSequencer.deck.newFlashcards| == |removed.1| + |frontBacks|
        && cardSequencer.deck.newFlashcards[..|removed.1|] == removed.1
        && NewCardsFor(cardSequencer.deck.newFlashcards[|removed.1|..], frontBacks)
        && cardSequencer.AtFirstCard()
    {
      if |parsed| != 1 {
        return Fail("Expected a single question");
      }
      var (newCardType, newText, _) := parsed[0];
      var originalQ := CurrentQuestion();
      if originalQ == null {
        return Fail("no current question");
      }
      var updatedQ, cards := ApplyUpdate(originalQ, newText, newCardType, expand, c);
      r := Ok(());
    }

    /** The current question, `originalQ`, replaced by its update with the edited text;
        `cards` are the update's cards, appended to the new cards of the deck. */
    method ApplyUpdate(originalQ: Question, newText: string, newCardType: CardType,
                       expand: (CardType, string) -> seq<(string, string)>, c: Collaborators)
      returns (updatedQ: Question, cards: seq<Card>)
      requires cardSequencer.Valid() && CurrentQuestion() == originalQ
      modifies this`written, cardSequencer`currentCard, cardSequencer`listType, cardSequencer`index
      modifies cardSequencer.DeckSet()`newFlashcards, cardSequencer.DeckSet()`dueFlashcards
      ensures cardSequencer.deck == old(cardSequencer.deck) && cardSequencer.Valid() && cardSequencer.AtFirstCard()
      ensures |written| == |old(written)| + 1 && written[..|old(written)|] == old(written)
      ensures var w := written[|old(written)|];
        w.question == updatedQ && w.text == UpdatedQuestionText(old(originalQ.questionText), newText, c)
        && |w.schedules| == |cards| && !AnyScheduled(w.schedules)
      ensures NewCardsFor(cards, expand(newCardType, newText))
      ensures var removed := RemoveSiblings(old(cardSequencer.deck.dueFlashcards), old(cardSequencer.deck.newFlashcards),
                                            old(originalQ.cards));
        cardSequencer.deck.dueFlashcards == removed.0 && cardSequencer.deck.newFlashcards == removed.1 + cards
    {
      updatedQ := CreateUpdatedQuestion(originalQ, newText, newCardType, expand, c);
      cards := updatedQ.cards;
      UpdatedQuestionUnscheduled(cards, expand(newCardType, newText));
      ReplaceCurrentQuestion(updatedQ);
    }

    /** The cards of the current question replaced by the new cards of `updatedQ`,
        which is written with its text and schedules; the first card becomes current.
        The deck update changes neither the question nor its cards, so the record is
        taken before it. */
    method ReplaceCurrentQuestion(updatedQ: Question)
      requires cardSequencer.Valid() && CurrentQuestion() != null
      requires forall k :: 0 <= k < |updatedQ.cards| ==> updatedQ.cards[k].isNew
      modifies this`written, cardSequencer`currentCard, cardSequencer`listType, cardSequencer`index
      modifies cardSequencer.DeckSet()`newFlashcards, cardSequencer.DeckSet()`dueFlashcards
      ensures cardSequencer.deck == old(cardSequencer.deck) && cardSequencer.Valid() && cardSequencer.AtFirstCard()
      ensures written == old(written) + [WrittenQuestion(updatedQ, old(updatedQ.questionText), old(Schedules(updatedQ.cards)))]
      ensures var removed := RemoveSiblings(old(cardSequencer.deck.dueFlashcards), old(cardSequencer.deck.newFlashcards),
                                            old(CurrentQuestion().cards));
        cardSequencer.deck.dueFlashcards == removed.0 && cardSequencer.deck.newFlashcards == removed.1 + old(updatedQ.cards)
    {
      var cards := updatedQ.cards;
      var record := WrittenQuestion(updatedQ, updatedQ.questionText, Schedules(cards));
      cardSequencer.DeleteCurrentQuestion();
      AppendCards(cards);
      written := written + [record];
      cardSequencer.NextCard();
    }

    /** Each of the new cards appended in turn to the new cards of the iterator's deck. */
    method AppendCards(cards: seq<Card>)
      requires cardSequencer.Valid() && cardSequencer.deck != null
      requires forall k :: 0 <= k < |cards| ==> cards[k].isNew
      modifies cardSequencer.DeckSet()`newFlashcards, cardSequencer.DeckSet()`dueFlashcards
      ensures cardSequencer.Valid()
      ensures cardSequencer.deck.newFlashcards == old(cardSequencer.deck.newFlashcards) + cards
      ensures cardSequencer.deck.dueFlashcards == old(cardSequencer.deck.dueFlashcards)
    {
      for i := 0 to |cards|
        invariant cardSequencer.Valid()
        invariant cardSequencer.deck.newFlashcards == old(cardSequencer.deck.newFlashcards) + cards[..i]
        invariant cardSequencer.deck.dueFlashcards == old(cardSequencer.deck.dueFlashcards)
      {
        cardSequencer.AppendCard(cards[i]);
        assert cards[..i + 1] == cards[..i] + [cards[i]];
      }
      assert cards[..|cards|] == cards;
    }

    /** `processReview`: dispatches on the review mode. */
    method ProcessReview(response: ReviewResponse) returns (r: Result<()>)
      requires cardSequencer.Valid()
      modifies this`written, cardSequencer`currentCard, cardSequencer`listType, cardSequencer`index
      modifies cardSequencer.DeckSet()`newFlashcards, cardSequencer.DeckSet()`dueFlashcards
      modifies (if cardSequencer.currentCard == null then {} else {cardSequencer.currentCard})`scheduleInfo
      ensures cardSequencer.deck == old(cardSequencer.deck) && cardSequencer.Valid()
      ensures reviewMode == Cram ==>
        r.Ok? && written == old(written) && cardSequencer.AtFirstCard()
        && (old(cardSequencer.currentCard) != null ==>
              (cardSequencer.deck.dueFlashcards, cardSequencer.deck.newFlashcards)
              == old(Requeue(cardSequencer.deck.dueFlashcards, cardSequencer.deck.newFlashcards,
                             cardSequencer.listType, cardSequencer.index, response != Easy)))
      ensures reviewMode == Review && old(cardSequencer.currentCard) == null ==>
        r.Fail? && written == old(written) && cardSequencer.Unmoved()
      ensures reviewMode == Review && old(cardSequencer.currentCard) != null ==>
        var card := old(cardSequencer.currentCard);
        var question := old(card.question);
        var schedule := DetermineCardSchedule(calculator, response, old(card.scheduleInfo), old(NoteOf(card)));
        (schedule.Fail? ==> r.Fail? && written == old(written) && card.scheduleInfo == old(card.scheduleInfo)
                            && cardSequencer.Unmoved())
        && (schedule.Ok? ==> card.scheduleInfo == Some(schedule.value))
        && (schedule.Ok? && question == null ==> r.Fail? && written == old(written) && cardSequencer.Unmoved())
        && (schedule.Ok? && question != null ==>
              r.Ok? && written == old(written) + [WrittenQuestion(question, question.questionText, Schedules(question.cards))]
              && cardSequencer.AtFirstCard()
              && (cardSequencer.deck.dueFlashcards, cardSequencer.deck.newFlashcards)
                 == old(Requeue(cardSequencer.deck.dueFlashcards, cardSequencer.deck.newFlashcards,
                                cardSequencer.listType, cardSequencer.index, response == Reset)))
    {
      match reviewMode
      case Review =>
        r := ProcessReviewReviewMode(response);
      case Cram =>
        ProcessReviewCramMode(response);
        r := Ok(());
    }

    /** `processReview_ReviewMode`: the current card gets its new schedule and its
        question is written to the note; then a reset card goes to the end of its list
        and the next card becomes current, and any other card leaves the deck. A card
        whose schedule cannot be determined changes nothing; a card without a question
        keeps its new schedule but is neither written nor moved. */
    method ProcessReviewReviewMode(response: ReviewResponse) returns (r: Result<()>)
      requires cardSequencer.Valid()
      modifies this`written, cardSequencer`currentCard, cardSequencer`listType, cardSequencer`index
      modifies cardSequencer.DeckSet()`newFlashcards, cardSequencer.DeckSet()`dueFlashcards
      modifies (if cardSequencer.currentCard == null then {} else {cardSequencer.currentCard})`scheduleInfo
      ensures cardSequencer.deck == old(cardSequencer.deck) && cardSequencer.Valid()
      ensures old(cardSequencer.currentCard) == null ==> r.Fail? && written == old(written) && cardSequencer.Unmoved()
      ensures old(cardSequencer.currentCard) != null ==>
        var card := old(cardSequencer.currentCard);
        var question := old(card.question);
        var schedule := DetermineCardSchedule(calculator, response, old(card.scheduleInfo), old(NoteOf(card)));
        (schedule.Fail? ==> r.Fail? && written == old(written) && card.scheduleInfo == old(card.scheduleInfo)
                            && cardSequencer.Unmoved())
        && (schedule.Ok? ==> card.scheduleInfo == Some(schedule.value))
        && (schedule.Ok? && question == null ==> r.Fail? && written == old(written) && cardSequencer.Unmoved())
        && (schedule.Ok? && question != null ==>
              r.Ok? && written == old(written) + [WrittenQuestion(question, question.questionText, Schedules(question.cards))]
              && cardSequencer.AtFirstCard()
              && (cardSequencer.deck.dueFlashcards, cardSequencer.deck.newFlashcards)
                 == old(Requeue(cardSequencer.deck.dueFlashcards, cardSequencer.deck.newFlashcards,
                                cardSequencer.listType, cardSequencer.index, response == Reset)))
    {
      var card := cardSequencer.currentCard;
      if card == null {
        return Fail("no current card");
      }
      var schedule := DetermineCardSchedule(calculator, response, card.scheduleInfo, NoteOf(card));
      if schedule.Fail? {
        return Fail(schedule.message);
      }
      card.scheduleInfo := Some(schedule.value);
      var question := card.question;
      if question == null {
        return Fail("the card has no question");
      }
      var schedules := Schedules(question.cards);
      written := written + [WrittenQuestion(question, question.questionText, schedules)];
      if response == Reset {
        cardSequencer.MoveCurrentCardToEndOfList();
        cardSequencer.NextCard();
      } else {
        cardSequencer.DeleteCurrentCard();
      }
      assert Schedules(question.cards) == schedules;
      r := Ok(());
    }

    /** `processReview_CramMode`: nothing is scheduled or written; an easy card leaves
        the deck and any other goes to the end of its list, and the next card becomes
        current. */
    method ProcessReviewCramMode(response: ReviewResponse)
      requires cardSequencer.Valid()
      modifies cardSequencer`currentCard, cardSequencer`listType, cardSequencer`index
      modifies cardSequencer.DeckSet()`newFlashcards, cardSequencer.DeckSet()`dueFlashcards
      ensures cardSequencer.deck == old(cardSequencer.deck) && cardSequencer.Valid() && cardSequencer.AtFirstCard()
      ensures old(cardSequencer.currentCard) != null ==>
        (cardSequencer.deck.dueFlashcards, cardSequencer.deck.newFlashcards)
          == old(Requeue(cardSequencer.deck.dueFlashcards, cardSequencer.deck.newFlashcards,
                         cardSequencer.listType, cardSequencer.index, response != Easy))
    {
      if response == Easy {
        cardSequencer.DeleteCurrentCard();
      } else {
        cardSequencer.MoveCurrentCardToEndOfList();
        cardSequencer.NextCard();
      }
    }
  }
}
