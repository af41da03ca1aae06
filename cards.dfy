/**
 * Cards and the questions they come from: a `Card` knows its question, its schedule
 * and whether it is new; a `Question` owns its cards and its text, formats itself
 * for the note and replaces its old text in the note.
 */
module Cards {
  import opened Wrappers
  import opened Text
  import opened ScheduleInfo
  import opened StoreInNote
  import opened QuestionTexts

  /** Which of a deck's two lists a card belongs to, or both. */
  datatype CardListType = NewCard | DueCard | All

  datatype CardType = SingleLineBasic | SingleLineReversed | MultiLineBasic | MultiLineReversed | Cloze

  /** The note a question was read from; only its path is used here. */
  datatype Note = Note(filePath: string)

  class Card {
    var question: Question?
    const cardIdx: int
    const front: string
    const back: string
    /** The schedule of the repetition item, absent for a card never reviewed. */
    var scheduleInfo: Option<RepItemScheduleInfo>
    const isNew: bool

    constructor (question: Question?, cardIdx: int, front: string, back: string,
                 scheduleInfo: Option<RepItemScheduleInfo>, isNew: bool)
      ensures this.question == question && this.cardIdx == cardIdx
      ensures this.front == front && this.back == back
      ensures this.scheduleInfo == scheduleInfo && this.isNew == isNew
    {
      this.question := question;
      this.cardIdx := cardIdx;
      this.front := front;
      this.back := back;
      this.scheduleInfo := scheduleInfo;
      this.isNew := isNew;
    }

    /** `cardListType`: the list of a deck the card is kept in. */
    function ListType(): (r: CardListType)
      ensures r == NewCard <==> isNew
      ensures r == DueCard <==> !isNew
      ensures r != All
    {
      if isNew then NewCard else DueCard
    }

    predicate HasSchedule()
      reads this`scheduleInfo
    {
      scheduleInfo.Some?
    }
  }

  /** The schedules of a list of cards, in card order. */
  function Schedules(cards: seq<Card>): (r: seq<Option<RepItemScheduleInfo>>)
    reads cards`scheduleInfo
    ensures |r| == |cards| && forall k :: 0 <= k < |cards| ==> r[k] == cards[k].scheduleInfo
  {
    if cards == [] then [] else [cards[0].scheduleInfo] + Schedules(cards[1..])
  }

  predicate AnyScheduled(schedules: seq<Option<RepItemScheduleInfo>>) {
    exists k :: 0 <= k < |schedules| && schedules[k].Some?
  }

  predicate AllScheduled(schedules: seq<Option<RepItemScheduleInfo>>) {
    forall k :: 0 <= k < |schedules| ==> schedules[k].Some?
  }

  function Present(schedules: seq<Option<RepItemScheduleInfo>>): (r: seq<RepItemScheduleInfo>)
    requires AllScheduled(schedules)
    ensures |r| == |schedules| && forall k :: 0 <= k < |r| ==> schedules[k] == Some(r[k])
  {
    if schedules == [] then [] else [schedules[0].value] + Present(schedules[1..])
  }

  /** The text `formatForNote` writes for a question with the given card schedules:
      without any schedule there is no comment; with one, every card's schedule is
      written, and a card without one makes the serialiser fail. */
  function NoteText(qt: QuestionText, schedules: seq<Option<RepItemScheduleInfo>>, sameLine: bool,
                    c: Collaborators): Result<string>
  {
    if !AnyScheduled(schedules) then Ok(QuestionTexts.FormatForNote(qt, c, false, "", sameLine))
    else if AllScheduled(schedules) then
      Ok(QuestionTexts.FormatForNote(qt, c, true, ScheduleComment(Present(schedules)), sameLine))
    else Fail("a card of the question has no schedule")
  }

  /** What is written for a question is read back as the same question text and block
      identifier: the partner of `NoteText` through `QuestionText.create`. */
  lemma NoteTextReadBack(qt: QuestionText, schedules: seq<Option<RepItemScheduleInfo>>, sameLine: bool,
                         c: Collaborators, convertFoldersToDecks: bool, text: string)
    requires NoteText(qt, schedules, sameLine, c) == Ok(text)
    requires SuffixMatcher(c) && QuestionTexts.Writable(qt)
    requires !EndsWithWhiteSpace(qt.actualQuestion) && qt.textHash == c.hash(FormatTopicAndQuestion(qt, c))
    requires AllScheduled(schedules) ==> AllWritable(Present(schedules))
    requires !DetectsTopicPath(c, QuestionRemoveScheduleInfo(text))
    requires FindsWrittenBlockId(qt, c.blockIdMatch(ReadBackText(qt, AnyScheduled(schedules), sameLine)),
                                 ReadBackText(qt, AnyScheduled(schedules), sameLine))
    ensures var r := CreateQuestionText(text, convertFoldersToDecks, c);
      r.topicPathWithWs == qt.topicPathWithWs && r.actualQuestion == qt.actualQuestion
      && r.obsidianBlockId == WrittenBlockId(qt) && r.textHash == qt.textHash
  {
    if AnyScheduled(schedules) {
      assert schedules != [];
      CreateFromFormattedQuestion(qt, c, true, Present(schedules), sameLine, convertFoldersToDecks);
    } else {
      CreateFromFormattedQuestion(qt, c, false, [], sameLine, convertFoldersToDecks);
    }
  }

  class Question {
    var note: Option<Note>
    var questionType: CardType
    var topicPath: TopicPath
    var questionText: QuestionText
    var lineNo: int
    var hasEditLaterTag: bool
    var questionContext: seq<string>
    var cards: seq<Card>
    var hasChanged: bool

    constructor (note: Option<Note>, questionType: CardType, topicPath: TopicPath, questionText: QuestionText,
                 lineNo: int, hasEditLaterTag: bool, questionContext: seq<string>, cards: seq<Card>,
                 hasChanged: bool)
      ensures this.note == note && this.questionType == questionType && this.topicPath == topicPath
      ensures this.questionText == questionText && this.lineNo == lineNo
      ensures this.hasEditLaterTag == hasEditLaterTag && this.questionContext == questionContext
      ensures this.cards == cards && this.hasChanged == hasChanged
    {
      this.note := note;
      this.questionType := questionType;
      this.topicPath := topicPath;
      this.questionText := questionText;
      this.lineNo := lineNo;
      this.hasEditLaterTag := hasEditLaterTag;
      this.questionContext := questionContext;
      this.cards := cards;
      this.hasChanged := hasChanged;
    }

    /** `Question.Create`: the question text is split from the original text, and a
        topic path written in it overrides the note's. */
    static method Create(editLaterTag: string, convertFoldersToDecks: bool, c: Collaborators,
                         questionType: CardType, noteTopicPath: TopicPath, originalText: string,
                         lineNo: int, context: seq<string>) returns (q: Question)
      requires SuffixMatcher(c)
      ensures fresh(q)
      ensures q.hasEditLaterTag == Contains(originalText, editLaterTag)
      ensures q.questionText == CreateQuestionText(originalText, convertFoldersToDecks, c)
      ensures q.questionText.topicPathWithWs.Some? ==> q.topicPath == q.questionText.topicPathWithWs.value.topicPath
      ensures q.questionText.topicPathWithWs.None? ==> q.topicPath == noteTopicPath
      ensures q.note.None? && q.questionType == questionType && q.lineNo == lineNo
      ensures q.questionContext == context && q.cards == [] && !q.hasChanged
    {
      var hasEditLaterTag := Contains(originalText, editLaterTag);
      var questionText := CreateQuestionText(originalText, convertFoldersToDecks, c);
      var topicPath := noteTopicPath;
      if questionText.topicPathWithWs.Some? {
        topicPath := questionText.topicPathWithWs.value.topicPath;
      }
      q := new Question(None, questionType, topicPath, questionText, lineNo, hasEditLaterTag, context, [], false);
    }

    /** `setCardList`: the question takes the cards, and each card points back to it. */
    method SetCardList(cards: seq<Card>)
      modifies this`cards, cards`question
      ensures this.cards == cards
      ensures forall k :: 0 <= k < |cards| ==> cards[k].question == this
    {
      this.cards := cards;
      for i := 0 to |cards|
        invariant this.cards == cards
        invariant forall k :: 0 <= k < i ==> cards[k].question == this
      {
        cards[i].question := this;
      }
    }

    /** `formatForNote`: the question text with its block identifier and, when some card
        has a schedule, the schedule comment of all its cards. */
    method FormatForNote(sameLine: bool, c: Collaborators) returns (r: Result<string>)
      ensures r == NoteText(questionText, Schedules(cards), sameLine, c)
    {
      ghost var schedules := Schedules(cards);
      var hasSchedule := false;
      for i := 0 to |cards|
        invariant hasSchedule <==> exists k :: 0 <= k < i && schedules[k].Some?
      {
        if cards[i].HasSchedule() {
          hasSchedule := true;
        }
      }
      if !hasSchedule {
        r := Ok(QuestionTexts.FormatForNote(questionText, c, false, "", sameLine));
        return;
      }
      var infos: seq<RepItemScheduleInfo> := [];
      for i := 0 to |cards|
        invariant |infos| == i && forall k :: 0 <= k < i ==> schedules[k] == Some(infos[k])
      {
        if cards[i].scheduleInfo.None? {
          r := Fail("a card of the question has no schedule");
          return;
        }
        infos := infos + [cards[i].scheduleInfo.value];
      }
      assert infos == Present(schedules);
      var scheduleHtml := QuestionFormatScheduleAsHtmlComment(infos);
      r := Ok(QuestionTexts.FormatForNote(questionText, c, true, scheduleHtml, sameLine));
    }

    /** `updateQuestionWithinNoteText`: the note text with the question's original text
        replaced by its formatted text, given the search-and-replace of the note (absent
        or empty when the original text is not found). When it is found, the question
        text becomes the one read from the formatted text; otherwise nothing changes. */
    method UpdateQuestionWithinNoteText(noteText: string, sameLine: bool, convertFoldersToDecks: bool,
                                        c: Collaborators, findAndReplace: (string, string, string) -> Option<string>)
      returns (r: Result<string>)
      requires SuffixMatcher(c)
      modifies this`questionText
      ensures match NoteText(old(questionText), Schedules(cards), sameLine, c)
        case Fail(_) => r.Fail? && questionText == old(questionText)
        case Ok(replacement) =>
          var found := findAndReplace(noteText, old(questionText).original, replacement);
          if found.Some? && found.value != "" then
            r == Ok(found.value) && questionText == CreateQuestionText(replacement, convertFoldersToDecks, c)
          else
            r == Ok(noteText) && questionText == old(questionText)
    {
      var originalText := questionText.original;
      var replacement := FormatForNote(sameLine, c);
      if replacement.Fail? {
        r := Fail(replacement.message);
        return;
      }
      var newText := findAndReplace(noteText, originalText, replacement.value);
      if newText.Some? && newText.value != "" {
        questionText := CreateQuestionText(replacement.value, convertFoldersToDecks, c);
        r := Ok(newText.value);
      } else {
        r := Ok(noteText);
      }
    }
  }
}
