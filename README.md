# Spaced-repetition flashcard core, modelled in Dafny

This project models the core of an Obsidian spaced-repetition plugin:

- the deck tree (`Deck`): each deck has a list of new cards, a list of due cards and
  ordered subdecks. Decks are created lazily along a topic path, and a deck's path is
  read back through its parent links;
- cards (`Card`) and questions (`Question`, `QuestionText`). A question's text is split
  into topic path, question and Obsidian block identifier when read, and put back
  together with the schedule comment when written;
- the schedule of one card (`RepItemScheduleInfo_Simple`) and its
  `<!--SR:!YYYY-MM-DD,interval,ease...-->` comment. The comment is written, read back
  and removed (`DataStore_StoreInNote`);
- the review sequencer (`FlashcardReviewSequencer`), in Review and Cram mode;
- the parser's option record and line-range check (`src/parser.ts`), and the choice of
  scheduling algorithm (`SrsAlgorithm`, `SrsAlgorithmFactory`);
- the note-review arithmetic of `main.ts`: the ease and interval update, the fuzz, the
  load balancing of new notes, the choice of the next overdue note, and `getFileLength`.

Files: `wrappers.dfy` (Option, Result), `text.dfy` (string helpers and string order), `calendar.dfy` (dates as day numbers and `YYYY-MM-DD` text),
`schedule_info.dfy`, `store_in_note.dfy`, `question_text.dfy`, `cards.dfy`, `deck.dfy`,
`card_queue.dfy` (a stand-in for the card iterator), `sequencer.dfy`,
`parser_options.dfy`, `srs_algorithm.dfy`, `note_review.dfy`.

Modelling choices:

- Dates are whole day numbers counted from 0000-01-01 in the proleptic Gregorian
  calendar. "Today" is a parameter. A day is 86 400 000 ticks.
- Some code is not part of this model: the regular expressions whose text is not
  shown, `TopicPath`, `cyrb53` and `MultiLineTextFinder`. They are passed in as
  functions (`QuestionTexts.Collaborators`). The schedule calculator is passed in the
  same way (`ReviewSequencer.ScheduleCalculator`). The two schedule extractors follow
  the grammar of the comment format `!date,interval,ease`: the current one is
  `!` date `,` digits `,` digits, and the legacy one is the same inside `<!--SR:` and
  `-->`. Both are modelled by exact left-to-right scanners.
- The block-identifier expression is anchored at the end of the line, so every match
  it reports is a suffix of the text it searched (`QuestionTexts.SuffixMatcher`).
  Splitting a question assumes this of the matcher that is passed in.
- The deck tree iterator (`IDeckTreeIterator`) is not part of this model.
  `CardQueues.CardQueue` stands in for it. It walks the lists of one deck, due cards
  first, always taking the first card.
- Writing a question back to its note is I/O. The sequencer records each question it
  writes, with its text and its cards' schedules, in the `written` list.
- `lapses_interval_change` is an integer percentage from 1 to 99, as the settings tab
  accepts it. `Math.round(a / b)` is integer rounding with halves rounded up.

## Model

| member | source | states |
|---|---|---|
| Decks.Deck.constructor | src/deck.ts:29-35 | a new deck has the given name and parent, empty card lists and no subdecks; its path extends the parent's path by its name |
| Decks.Deck.RootHasEmptyPath | src/deck.ts:37-39 | a deck is a root exactly when its topic path is empty |
| Decks.Deck.GetCardCount | src/deck.ts:14-27 | the count is the selected local lists (new, due or both), plus each subdeck's own recursive count when subdeck counts are included |
| Decks.Deck.SubdeckCardCount | src/deck.ts:21-25 | the loop over the subdecks adds up each subdeck's count including its own subdecks |
| Decks.Deck.CountAll | src/deck.ts:14-27 | counting both lists gives the new count plus the due count, at every depth |
| Decks.FindChild | src/deck.ts:46-50 | the first subdeck with the name is found; no earlier subdeck has it |
| Decks.Deck.GetOrCreateDeck | src/deck.ts:41-56 | the deck returned is the one at the path; an empty path returns this deck and adds nothing; an existing child with the next name is reused and the subdecks are unchanged; otherwise exactly one new child with that name and this parent is appended at the end. The frame lets only the deepest existing deck on the path (`Deepest`) change its subdecks: it gains exactly the first new deck, at the end. The new decks are fresh and form a chain down the path: each holds no card, lies on the path at its own depth and has at most one subdeck; there are at most as many as names in the path |
| Decks.Deck.Deepest | src/deck.ts:41-56 | where following the path stops is a deck of the tree whose path begins the path followed |
| Decks.Deck.DescendInto | src/deck.ts:46-49 | following the first subdeck with the next name: this deck's subdecks are unchanged, and fewer decks than names are created below it, as a chain hung from the deepest deck below that subdeck |
| Decks.Deck.AppendSubdeck | src/deck.ts:52-55 | with no subdeck of the next name, one new subdeck with that name and this parent is appended at the end, and it heads a chain of exactly one new empty deck per name of the path |
| Decks.Deck.AddSubdeck | src/deck.ts:52-54 | the new deck has the name, this parent and no subdecks, and is appended to this deck's subdecks |
| Decks.GrowthBounded | src/deck.ts:52-55 | a footprint grown by a chain of new decks grew by at most the chain's length |
| Decks.Deck.CreatedHoldNoCards | src/deck.ts:29-35 | every deck of a chain created along a path holds no card |
| Decks.Deck.GetDeck | src/FlashcardReviewSequencer.ts:100 | the deck found along a path lies in the subtree and has this deck's path extended by that path |
| Decks.Deck.GetTopicPath | src/deck.ts:58-66 | walking up the parent links gives the names from the root down to this deck |
| Decks.Deck.ReachesLinked | src/deck.ts:41-66 | the deck reached along `p` from a root has topic path `p` and linked parents |
| Decks.CreateAndReadTopicPath | src/deck.ts:41-66 | on a root deck, `getOrCreateDeck(p)` followed by `getTopicPath()` gives back `p` |
| Decks.Deck.GetCardListForCardType | src/deck.ts:68-70 | the due list for `DueCard`, the new list for any other type |
| Decks.Deck.Push | src/deck.ts:74-76 | the card is appended to the list its type selects; the other list is unchanged |
| Decks.Deck.InsertFlashcard | src/deck.ts:72-77 | the card is appended to the end of the list its type selects, in the deck at the path; no other list of any deck changes; only the deepest existing deck on the path may gain a subdeck, and every other deck keeps its subdecks; every deck created on the way, other than the one that receives the card, holds no card, and at most one deck per name of the path is created |
| Decks.SpliceOne | src/deck.ts:81 | `splice(index, 1)`: an index inside removes exactly that element, a negative one counts from the end, one past the end removes nothing |
| Decks.SpliceOneRemoves | src/deck.ts:81 | removing at an index inside the list removes exactly that card, and the other cards keep their order |
| Decks.Deck.DeleteFlashcardAtIndex | src/deck.ts:79-82 | the selected list becomes its splice at the index; the other list is unchanged |
| Decks.IndexOf | src/deck.ts:86-87 | `indexOf` is -1 exactly when the card is absent, and otherwise it is the first position of the card |
| Decks.Deck.DeleteAllCardsForQuestion | src/deck.ts:84-101 | the lists become those left after removing, for each sibling in turn, its first occurrence from the due list, or else from the new list |
| Decks.RemoveAbsentSiblings | src/deck.ts:84-101 | siblings that are in neither list leave both lists unchanged |
| Decks.RemoveSiblingsOnlyRemovesSiblings | src/deck.ts:84-101 | only cards are removed, and only sibling cards: every other card occurs as often as before |
| Decks.SortByName | src/deck.ts:104-111 | the sort of the subdecks is a permutation ordered by name, with names compared character by character by code point |
| Decks.SortByNameStable | src/deck.ts:104-111 | the sort is stable, as `Array.prototype.sort` is: for every name, the decks with that name keep their order |
| Decks.Deck.SortOwnSubdecks | src/deck.ts:104-111 | this deck's subdecks become a name-ordered permutation of themselves, and the tree stays well formed |
| Decks.Deck.SortSubdecksList | src/deck.ts:103-116 | the subdecks at every level of the subtree end up ordered by name, each list a permutation of what it was; only `subdecks` fields change, so no card list changes |
| Cards.Card.constructor | src/Card.ts:13-16 | every given field is copied onto the card |
| Cards.Card.ListType | src/Card.ts:18-20 | `NewCard` exactly when the card is new, `DueCard` exactly when it is not, never `All` |
| Cards.Question.constructor | src/Question.ts:190-192 | every given field is copied onto the question |
| Cards.Question.Create | src/Question.ts:258-286 | the edit-later flag says whether the text holds the tag; the question text is read from the original text; a topic path written in the text overrides the note's; no cards, unchanged |
| Cards.Question.SetCardList | src/Question.ts:208-211 | the question takes the cards, and each card's question points back to it |
| Cards.Question.FormatForNote | src/Question.ts:213-232 | the text is the question text alone when no card has a schedule, with all cards' schedule comment when every card has one, and a failure when only some do |
| Cards.NoteTextReadBack | src/Question.ts:213-232 | what `formatForNote` writes is read back by `QuestionText.create` as the same question, block identifier and hash |
| Cards.Question.UpdateQuestionWithinNoteText | src/Question.ts:234-256 | when the original text is found, the note text is replaced and the question text is read again from the replacement; otherwise the note text and the question are unchanged |
| QuestionTexts.TopicAndQuestion | src/Question.ts:168-176 | the topic path with its white space, if present, followed by the question; the result ends with the question |
| QuestionTexts.FormatTopicAndQuestion | src/Question.ts:168-176 | `formatTopicAndQuestion`: the question alone without a topic path, else the formatted topic path followed by the question; it always ends with the question |
| QuestionTexts.EndsWithCodeBlock | src/Question.ts:116-118 | true exactly when the question's last three characters are backticks |
| QuestionTexts.NewQuestionText | src/Question.ts:101-114 | the four fields are stored, and the hash is taken of the topic and question only |
| QuestionTexts.HashOfTopicAndQuestionOnly | src/Question.ts:112-113 | the hash does not depend on the original text or the block identifier |
| QuestionTexts.IsCardCommentsOnSameLine | src/Question.ts:199-206 | true exactly when the setting is on and the question does not end with three backticks |
| QuestionTexts.GetHtmlCommentSeparator | src/Question.ts:194-197 | `" "` exactly when comments are on the same line, `"\n"` otherwise |
| QuestionTexts.FormatForNoteStart | src/Question.ts:213-232 | what `formatForNote` writes starts with the topic and question: with their trailing white space trimmed when a schedule follows, untouched otherwise, and exactly them when there is neither a schedule nor a block identifier |
| QuestionTexts.FormatForNoteEnd | src/Question.ts:213-232 | with a schedule, the comment is in what `formatForNote` writes, and it ends the text unless a same-line block identifier follows; the block identifier ends the text when there is no schedule or it shares the comment's line |
| QuestionTexts.Trim | src/Question.ts:161 | `trim()`: the result is a slice of the text with only white space cut off before and after it, and it neither starts nor ends with white space |
| QuestionTexts.ExtractObsidianBlockId | src/Question.ts:156-166 | without a match the text is kept and there is no identifier; with one, the identifier is the trimmed match and the question is the text before it, with trailing white space removed |
| QuestionTexts.SplitText | src/Question.ts:126-154 | after the schedule comment is removed: without a topic path, no path, and question and block identifier from the text with trailing white space trimmed; with one, the path and its surrounding white space are kept exactly when folders are not converted to decks, and question and block identifier come from the text after the path, its tag and the white space around it |
| QuestionTexts.CreateQuestionText | src/Question.ts:120-124 | the fields are those `splitText` gives, and the hash is that of the topic and question |
| QuestionTexts.ExtractWrittenBlockId | src/Question.ts:156-166 | the text written with a block identifier gives back that identifier and the question without trailing white space |
| QuestionTexts.RemoveFromFormatted | src/Question.ts:213-232 | removing the schedule comment from written text, in any of the four layouts, leaves the question and block identifier |
| QuestionTexts.SplitFormattedQuestion | src/Question.ts:126-154 | splitting written text gives no topic path, the question without trailing white space, and the written block identifier |
| QuestionTexts.CreateFromFormattedQuestion | src/Question.ts:213-232 | `QuestionText.create` on written text gives back the question, the block identifier and the hash it was written from |
| ScheduleInfo.Round | src/algorithms/base/RepItemScheduleInfo_Simple.ts:24 | the stored interval is the nearest integer, with halves rounded up |
| ScheduleInfo.NewScheduleInfo | src/algorithms/base/RepItemScheduleInfo_Simple.ts:16-30 | the due date and ease are stored, the interval is rounded; with a due date and no delay, the delay is today minus the due date; otherwise the delay is as given |
| ScheduleInfo.FormatDummyDay | src/algorithms/base/RepItemScheduleInfo_Simple.ts:14 | the new-card day is written as `2000-01-01` |
| ScheduleInfo.ParseDummyDueDate | src/dataStore/storeInNote/DataStore_StoreInNote.ts:38-41 | `2000-01-01` reads back as the new-card day |
| ScheduleInfo.FormatWithoutDueDate | src/algorithms/base/RepItemScheduleInfo_Simple.ts:32-38 | a schedule without a due date is written like one due on the new-card date |
| ScheduleInfo.DueDateTextShape | src/algorithms/base/RepItemScheduleInfo_Simple.ts:32-38 | the date field is ten digits and dashes, and reads back as the due date, or as the new-card date when there is none |
| StoreInNote.EntryReadBack | src/algorithms/base/RepItemScheduleInfo_Simple.ts:32-38 | `formatCardScheduleForHtmlComment` writes `!date,interval,ease`: on its own it is exactly one match of the current extractor, and it reads back as the same interval, ease and due date |
| ScheduleInfo.Create | src/algorithms/base/RepItemScheduleInfo_Simple.ts:44-48 | due `interval` days after today, rounded interval, the given ease, delay 0 |
| ScheduleInfo.GetDummyScheduleForNewCard | src/algorithms/base/RepItemScheduleInfo_Simple.ts:50-56 | due on the new-card date, interval 1, the base ease, and the default delay from that date to today |
| Calendar.DateOf | src/dataStore/storeInNote/DataStore_StoreInNote.ts:38 | every day number has a valid calendar date with that number |
| Calendar.DateOfDayNumber | src/dataStore/storeInNote/DataStore_StoreInNote.ts:38 | a valid date's day number gives back that date |
| Calendar.ParseFormatDate | src/dataStore/storeInNote/DataStore_StoreInNote.ts:38-39 | every day of years 0 to 9999 is read back from its `YYYY-MM-DD` text |
| Calendar.FormatDateShape | src/algorithms/base/RepItemScheduleInfo_Simple.ts:34-35 | a day's text is ten characters of digits and dashes |
| StoreInNote.ExtractScheduling | src/dataStore/storeInNote/DataStore_StoreInNote.ts:28-30 | the current extractor's matches, or the legacy extractor's only when the current one finds nothing |
| StoreInNote.ExtractSchedulingWellFormed | src/dataStore/storeInNote/DataStore_StoreInNote.ts:28-30 | every match has digit runs as its interval and ease groups |
| StoreInNote.MatchDueDate | src/dataStore/storeInNote/DataStore_StoreInNote.ts:38-41 | the new-card date becomes no due date, and any other date read is kept |
| StoreInNote.ScheduleFromMatch | src/dataStore/storeInNote/DataStore_StoreInNote.ts:32-50 | interval and ease come from the match's fields; the delay is today minus the due date, or none without a due date |
| StoreInNote.ScheduleFromMatchAsWritten | src/dataStore/storeInNote/DataStore_StoreInNote.ts:42-50 | as the loop computes it: the delay is the due date minus today |
| StoreInNote.ParsedDelayHasWrongSign | src/dataStore/storeInNote/DataStore_StoreInNote.ts:42-43 | for a card read after its due date, the loop records a negative delay where the constructor records a positive one |
| StoreInNote.ParsedDelayExample | src/dataStore/storeInNote/DataStore_StoreInNote.ts:42-43 | a card due 2000-01-09 and read on 2000-01-11 gets a delay of minus two days |
| StoreInNote.QuestionCreateSchedule | src/dataStore/storeInNote/DataStore_StoreInNote.ts:27-55 | exactly one schedule per match, in text order, each read from its match by the corrected `ScheduleFromMatch` (see Findings) |
| StoreInNote.QuestionFormatScheduleAsHtmlComment | src/dataStore/storeInNote/DataStore_StoreInNote.ts:57-66 | the begin marker, each card's `!date,interval,ease` in card order, then the end marker |
| StoreInNote.ExtractScheduleComment | src/dataStore/storeInNote/DataStore_StoreInNote.ts:57-66 | the extractors find in a written comment exactly one match per card, in card order |
| StoreInNote.CreateScheduleOfComment | src/dataStore/storeInNote/DataStore_StoreInNote.ts:27-66 | round trip: reading a written comment gives each card's interval and ease back, in card order; a missing due date or the new-card date reads back as none |
| StoreInNote.RemoveWithoutComment | src/dataStore/storeInNote/DataStore_StoreInNote.ts:68-70 | a text without `<!--SR:` is left unchanged |
| StoreInNote.QuestionRemoveScheduleInfo | src/dataStore/storeInNote/DataStore_StoreInNote.ts:68-70 | removing the schedule comments never lengthens the text, and a text without `<!--SR:` is returned unchanged |
| StoreInNote.RemoveCommentBetween | src/dataStore/storeInNote/DataStore_StoreInNote.ts:68-70 | a one-line `<!--SR:...-->` span is removed, and the text around it is kept intact |
| StoreInNote.RemoveWrittenComment | src/dataStore/storeInNote/DataStore_StoreInNote.ts:68-70 | the comment written for a question's cards is removed exactly, and nothing else is |
| CardQueues.RequeueKeepsOrRemoves | src/FlashcardReviewSequencer.ts:146-157 | moving the card to the end keeps every card; deleting it removes only that card; the other list never changes |
| ReviewSequencer.DetermineCardSchedule | src/FlashcardReviewSequencer.ts:160-182 | Reset gives the reset schedule whatever the card; a scheduled card gets its updated schedule; otherwise the new-card schedule for the note's path; it fails only for an unscheduled card without a note |
| ReviewSequencer.CountStats | src/FlashcardReviewSequencer.ts:109-117 | total from the original tree, new and due from the remaining tree, subdecks included |
| ReviewSequencer.StatsOfFound | src/FlashcardReviewSequencer.ts:109-117 | the statistics of a path are the counts of the decks found at that path in the two trees |
| ReviewSequencer.StatsBeforeReview | src/FlashcardReviewSequencer.ts:109-117 | before any card is reviewed, a deck's total is its new count plus its due count |
| ReviewSequencer.UpdatedQuestionTextKeeps | src/FlashcardReviewSequencer.ts:217-220 | the edited text keeps everything but the question, and its hash is that of the topic path and the new question |
| ReviewSequencer.UpdatedQuestionTextAsWrittenLosesText | src/FlashcardReviewSequencer.ts:217-220 | as written, the edited text lands in the block identifier, not the question, and the topic path is dropped |
| ReviewSequencer.CreateCardList | src/FlashcardReviewSequencer.ts:236-238 | one fresh new card per front and back, numbered in order, none scheduled |
| ReviewSequencer.UpdatedQuestionUnscheduled | src/FlashcardReviewSequencer.ts:236-238 | the cards of an updated question carry no schedule |
| ReviewSequencer.RetainedQuestion | src/FlashcardReviewSequencer.ts:222-233 | the new question keeps the note, type, topic path, line, tag and context of the original |
| ReviewSequencer.CreateUpdatedQuestion | src/FlashcardReviewSequencer.ts:209-242 | the updated question keeps the original's place, has the corrected edited text (see Findings), and has one unscheduled card per front and back, each pointing back to it |
| ReviewSequencer.FlashcardReviewSequencer.constructor | src/FlashcardReviewSequencer.ts:59-71 | mode, iterator and calculator are stored; nothing written yet |
| ReviewSequencer.FlashcardReviewSequencer.HasCurrentCard | src/FlashcardReviewSequencer.ts:73-75 | true exactly when the iterator has a current card |
| ReviewSequencer.FlashcardReviewSequencer.CurrentQuestion | src/FlashcardReviewSequencer.ts:77-83 | null without a current card, and otherwise the current card's question |
| ReviewSequencer.FlashcardReviewSequencer.SetDeckTree | src/FlashcardReviewSequencer.ts:93-97 | both trees are stored, the iterator is at the root of the remaining tree (empty path), and the first card is current |
| ReviewSequencer.FlashcardReviewSequencer.SetCurrentDeck | src/FlashcardReviewSequencer.ts:99-103 | the iterator moves to the deck at the path in the remaining tree, and its first card is current |
| ReviewSequencer.FlashcardReviewSequencer.GetDeckStats | src/FlashcardReviewSequencer.ts:109-117 | the statistics of the path: total from the original tree, new and due from the remaining tree; absent when either tree lacks the deck |
| ReviewSequencer.FlashcardReviewSequencer.SkipCurrentCard | src/FlashcardReviewSequencer.ts:119-121 | every card of the current question leaves the deck; nothing is scheduled or written |
| ReviewSequencer.FlashcardReviewSequencer.UpdateCurrentQuestionText | src/FlashcardReviewSequencer.ts:187-207 | fails, changing nothing, unless the text parses to exactly one question and there is a current question; otherwise the old question's cards leave, the new unscheduled cards are appended, the question with the corrected edited text (see Findings) is written and the next card is current |
| ReviewSequencer.FlashcardReviewSequencer.ApplyUpdate | src/FlashcardReviewSequencer.ts:196-206 | the current question is replaced by its update, which carries the corrected edited text (see Findings): its cards are removed, the update's cards are appended to the new list, and the update is written |
| ReviewSequencer.FlashcardReviewSequencer.ReplaceCurrentQuestion | src/FlashcardReviewSequencer.ts:200-206 | the old cards are removed, the new ones appended, the updated question written, and the first card is current |
| ReviewSequencer.FlashcardReviewSequencer.AppendCards | src/FlashcardReviewSequencer.ts:201-203 | each card is appended in turn to the new list |
| ReviewSequencer.FlashcardReviewSequencer.ProcessReview | src/FlashcardReviewSequencer.ts:127-137 | Cram mode writes nothing, returns to the first card, and requeues the card (kept unless the response is Easy); Review mode assigns the card the schedule `determineCardSchedule` gives, writes the question, returns to the first card and requeues the card (kept only on Reset); when review mode fails nothing but the schedule changes; only the current card's schedule may be modified |
| ReviewSequencer.FlashcardReviewSequencer.ProcessReviewReviewMode | src/FlashcardReviewSequencer.ts:139-150 | the new schedule is assigned and the question written before the card moves; Reset moves the card to the end of its list and advances; any other response deletes it; without a current card, a schedule or a question nothing is written and the deck lists, the current card and its place are unchanged; only the current card's schedule may be modified |
| ReviewSequencer.FlashcardReviewSequencer.ProcessReviewCramMode | src/FlashcardReviewSequencer.ts:152-158 | nothing is scheduled or written; Easy deletes the card; any other response moves it to the end of its list and advances |
| ParserOptionsModel.AreParserOptionsEqual | src/parser.ts:17-28 | true exactly when all eight fields are pairwise equal, so it is reflexive and symmetric |
| ParserOptionsModel.CopyParserOptions | src/parser.ts:30-41 | the copy equals the original under `areParserOptionsEqual` |
| ParserOptionsModel.ParsedQuestionInfo.IsQuestionLineNum | src/parser.ts:58-60 | true exactly when the line lies in the question's range, both ends included |
| ParserOptionsModel.LineRangeMembers | src/parser.ts:58-60 | a line is in the range from first to last exactly when `first <= n <= last` |
| SrsAlgorithms.GetTypeFromName | src/algorithms/base/SrsAlgorithm.ts:16-29 | `SM2_Osr` and `SpecifiedIntervals` map to their types; any other name fails |
| SrsAlgorithms.CreateAlgorithm | src/algorithms/base/SrsAlgorithm.ts:32-46 | builds the implementation of the type the settings name, from those settings, and fails for an unknown name |
| SrsAlgorithms.SrsAlgorithmRegistry.SetInstance | src/algorithms/base/SrsAlgorithm.ts:7 | the registered instance becomes the given algorithm |
| SrsAlgorithms.SrsAlgorithmRegistry.GetInstance | src/algorithms/base/SrsAlgorithm.ts:9-14 | fails when no instance is registered, and otherwise returns it |
| NoteReview.RoundDiv | main.ts:365-369 | `Math.round(a / b)`: the nearest integer, halves rounded up |
| NoteReview.CeilDiv | main.ts:373 | `Math.ceil(a / b)`: the least integer at least `a / b` |
| NoteReview.NewEase | main.ts:362 | Easy (quality 1) raises ease by exactly 20; any other quality lowers it by 20 but never below 130 |
| NoteReview.EasyUndoesHard | main.ts:362 | an Easy review undoes a Hard one not held up by the floor |
| NoteReview.NewInterval | main.ts:363-370 | the interval before fuzz is the old interval times the new ease (Easy) or times the lapse change (Hard), over 100, rounded to the nearest day with halves up, and 1 when that is below 1 |
| NoteReview.EasyNeverShortens | main.ts:363-370 | with ease at least 100, an Easy review never shortens the interval |
| NoteReview.HardNeverLengthens | main.ts:363-370 | with a lapse change under 100%, a Hard review never lengthens the interval |
| NoteReview.Fuzz | main.ts:371-376 | intervals under 8 are kept; a longer one moves by exactly `-f`, `0` or `+f` days as drawn, where `f` is the least integer with `20 * f >= interval`, and stays at least 1 |
| NoteReview.FuzzOutcomesDiffer | main.ts:371-376 | the three draws give `interval - f`, `interval` and `interval + f` for the one step `f >= 1` with `20 * (f - 1) < interval <= 20 * f` |
| NoteReview.ReviewedSchedule | main.ts:359-376 | the written ease is the new ease, and the written interval is the fuzzed new interval computed with that ease, at least 1 |
| NoteReview.FreeDayIsFirst | main.ts:241-248 | the chosen day is the first day at or after the start whose bucket holds fewer notes than the threshold, and the only such day |
| NoteReview.PlacementKeepsOrder | main.ts:237-253 | every new note is placed; the days never decrease and never come before tomorrow; each note is in its day's bucket; no bucket loses a note |
| NoteReview.NoteScheduler.FirstFreeDay | main.ts:241-248 | the `while` loop stops at the first day with room |
| NoteReview.NoteScheduler.ScheduleNewNotes | main.ts:237-253 | the days chosen and the buckets after the loop are the placement above |
| NoteReview.ReviewNextNote | main.ts:398-415 | nothing when the list is empty; otherwise a note with the minimum due time whatever the starting pick: the pick itself when it is already earliest, else the first earliest note |
| NoteReview.NextLine | main.ts:15 | the next line start after a line of non-terminator characters ending in `\n` |
| NoteReview.ReachableIsLineStart | main.ts:15 | a position reached through whole lines is the start or follows a `\n` |
| NoteReview.ClosingMarker | main.ts:15 | the greedy `(?:.*\n)*---`: the closing `---` found is at a line start reached through whole lines and is the last such; none is found exactly when no reachable line start holds `---` |
| NoteReview.FrontMatter | main.ts:15 | front matter exists exactly when the note starts with `---\n` and some line start reached through whole lines after it holds `---`; it is then the prefix of the note up to the end of the last such `---` |
| NoteReview.LineBreaksAppend | main.ts:447-448 | line breaks add up across a cut that does not split `\r\n` |
| NoteReview.GetFileLength | main.ts:442-449 | the note's line count when there is no front matter; otherwise the line breaks after the front matter, which is the line count minus the front matter's lines |
| NoteReview.HasReviewableContent | main.ts:355 | a note is reviewed only when it does not contain `review: ignore` and has more than one line besides its front matter |

## Left out

- The deck tree iterator (`IDeckTreeIterator`) is not part of this model. `CardQueues.CardQueue` stands in for it over a single deck, due cards first, first card first. Deck and card ordering policies, random order, subtree traversal and sibling skipping are not modelled.
- `Deck.getDeck` is not part of this model. `Decks.Deck.GetDeck` follows the first subdeck with each name and gives null when there is none.
- The schedule calculator (`ICardScheduleCalculator`), the OSR scheduling function and `DueDateHistogram` are not part of this model. They are parameters: `ReviewSequencer.ScheduleCalculator`.
- `RepItemScheduleInfo_Osr` is not part of this model. Parsed schedules are built with the `RepItemScheduleInfo_Simple` constructor.
- The regular expressions whose text is not shown are passed in as functions: the topic-path detector, the tag removal and the block-identifier match. So are `cyrb53`, `TopicPathWithWs.formatWithWs` and `MultiLineTextFinder.findAndReplace`. The Peggy grammar (`parseEx`), `parseUsingSettings` and `CardFrontBackUtil.expand` are given as their results.
- Reading and writing notes (`questionWrite`, `writeQuestion`, `vault.modify`), notices, timers and plugin data are I/O. The sequencer records each written question in `written` instead.
- QuestionTexts.CreateFromFormattedQuestion: is proved only for question texts without a topic path, because the topic-path detector is not part of this model.
- StoreInNote.MatchDueDate: maps date text that is not a calendar date to no due date. The source keeps an invalid `moment` instead.
- StoreInNote.CreateScheduleOfComment: covers due dates in the years 0 to 9999 and non-negative intervals and eases (`ScheduleInfo.Writable`).
- ReviewSequencer.FlashcardReviewSequencer.GetDeckStats: returns no statistics where the source would throw on a missing deck.
- ReviewSequencer.FlashcardReviewSequencer.ProcessReviewReviewMode: returns a failure where the source would throw on an unscheduled card without a note, on a card without a question, or when there is no current card.
- PageRank and the link-based initial ease (`main.ts:182-291`) use floating point over a graph library. The rest of `sync`, rewriting the front matter in `saveReviewResponse`, the due-date text, and the settings tab and views are also left out: they are I/O and presentation.
- `Math.random` is not modelled. The fuzz outcome (`NoteReview.FuzzChoice`) and the random starting note (`start` of `NoteReview.ReviewNextNote`) are parameters. In the note-review code, days are offsets from today, not Unix times.
- `SrsAlgorithm_SpecifiedIntervals` only throws, and the GUI files are presentation. Both are left out, as is the dead code in `src/deck.ts:117-461`.
- `NoteFileLoader` and `NoteParser` only delegate to a parser that is not part of this model.
- Decks.SortByName: compares names character by character by code point. JavaScript's `<` compares UTF-16 code units, so a name with a character outside the Basic Multilingual Plane sorts differently: "😀" (U+1F600, first unit 0xD83D) comes after "！" (U+FF01) here and before it in JavaScript.
- NoteReview.NewInterval: computes with the lapse change as an exact integer percentage. The source stores it as the double `p / 100` (`main.ts:587`), so rounding can differ at halves: with `p = 29` and an interval of 50 the source gets `Math.round(14.499999999999998) = 14`, and the model gets 15.
- StoreInNote.QuestionCreateSchedule: reads each schedule with the corrected `StoreInNote.ScheduleFromMatch` (delay is today minus the due date). The delay the source computes at `DataStore_StoreInNote.ts:42-43` (due date minus today) is modelled by `StoreInNote.ScheduleFromMatchAsWritten`; see Findings.
- ReviewSequencer.CreateUpdatedQuestion: gives the updated question the corrected `ReviewSequencer.UpdatedQuestionText`. The text the source builds at `FlashcardReviewSequencer.ts:217-220` is modelled by `ReviewSequencer.UpdatedQuestionTextAsWritten`; see Findings.
- ReviewSequencer.FlashcardReviewSequencer.UpdateCurrentQuestionText: writes the corrected edited text, as `ReviewSequencer.CreateUpdatedQuestion` above. It also returns a failure when there is no current question, where the source would throw a `TypeError`.
- ReviewSequencer.FlashcardReviewSequencer.ApplyUpdate: writes the update with the corrected edited text, as `ReviewSequencer.CreateUpdatedQuestion` above.
- Cards.NoteTextReadBack: is proved only for writable question texts (`QuestionTexts.Writable`) whose question does not end in white space, with writable schedules, and for written text in which the topic-path detector finds no topic path; the detector and the block-identifier match are parameters, so the lemma also requires that they find what the written format puts there.
- Decks.Deck.GetOrCreateDeck: takes the topic path as an immutable sequence. The source consumes the caller's `TopicPath` with `shift()` (src/deck.ts:45, reached from `insertFlashcard` at src/deck.ts:73), so after the call the caller's path is empty; the model does not capture that.
- Cards.Question.Create: gives the new question an empty card list where the source leaves `cards` null until `setCardList`.

## Findings

| source | as written | input that shows it | evidently intended | confidence | as-written member | corrected member |
|---|---|---|---|---|---|---|
| src/dataStore/storeInNote/DataStore_StoreInNote.ts:42-43 | a parsed schedule's delay is the due date minus today, so it is negative for an overdue card | a card due 2000-01-09 read on 2000-01-11 gets a delay of minus two days | the delay is today minus the due date, as the constructor at src/algorithms/base/RepItemScheduleInfo_Simple.ts:28 computes it | medium, not executed | StoreInNote.ParsedDelayHasWrongSign | StoreInNote.ScheduleFromMatch |
| src/FlashcardReviewSequencer.ts:217-220 | `QuestionText` is built from the original text, two fields `QuestionText` does not have (`topicPath`, `postTopicPathWhiteSpace`), and the edited text, so the edited text becomes the block identifier and the question is undefined | editing any question to the text `Q::A` | original text, topic path with its white space, edited question, and the old block identifier | high, not executed | ReviewSequencer.UpdatedQuestionTextAsWrittenLosesText | ReviewSequencer.UpdatedQuestionTextKeeps |
