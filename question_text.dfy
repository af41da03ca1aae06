/** The text of a question as it is kept in a note (`QuestionText` in src/Question.ts)
    and the pure parts of `Question`: an optional topic path with the white space around
    it, the question itself, an optional schedule comment and an optional Obsidian block
    identifier; how they are split apart when read and put together when written. */
module QuestionTexts {
  import opened Wrappers
  import opened Text
  import opened ScheduleInfo
  import opened StoreInNote

  /** A topic path: the names of the decks from the root down. */
  datatype TopicPath = TopicPath(path: seq<string>)

  predicate HasPath(t: TopicPath) {
    |t.path| > 0
  }

  /** A topic path as written in a question, with the white space before and after it. */
  datatype TopicPathWithWs = TopicPathWithWs(topicPath: TopicPath, preTopicPathWs: string, postTopicPathWs: string)

  /** The collaborators whose code is not part of this model, as functions:
      `TopicPath.getTopicPathFromCardText`, the tag-removing replacement with
      `OBSIDIAN_TAG_AT_STARTOFLINE_REGEX`, the first match of
      `OBSIDIAN_BLOCK_ID_ENDOFLINE_REGEX`, `TopicPathWithWs.formatWithWs` and `cyrb53`. */
  datatype Collaborators = Collaborators(
    topicPathOf: string -> Option<TopicPath>,
    stripTag: string -> string,
    blockIdMatch: string -> Option<string>,
    formatWithWs: TopicPathWithWs -> string,
    hash: string -> string)

  /** The topic-path detector finds a path in the text. */
  predicate DetectsTopicPath(c: Collaborators, text: string) {
    c.topicPathOf(text).Some? && HasPath(c.topicPathOf(text).value)
  }

  /** The block-identifier expression is anchored at the end of the text: whatever it
      matches is a suffix of the text. */
  ghost predicate SuffixMatcher(c: Collaborators) {
    forall t :: c.blockIdMatch(t).Some? ==> EndsWith(t, c.blockIdMatch(t).value)
  }

  datatype QuestionText = QuestionText(
    original: string,
    topicPathWithWs: Option<TopicPathWithWs>,
    actualQuestion: string,
    obsidianBlockId: Option<string>,
    textHash: string)

  /** The topic path with its white space, if there is one, followed by the question. */
  function TopicAndQuestion(tp: Option<TopicPathWithWs>, actualQuestion: string, c: Collaborators): (r: string)
    ensures EndsWith(r, actualQuestion)
    ensures tp.None? ==> r == actualQuestion
    ensures tp.Some? ==> r == c.formatWithWs(tp.value) + actualQuestion
  {
    var prefix := if tp.Some? then c.formatWithWs(tp.value) else "";
    assert (prefix + actualQuestion)[|prefix|..] == actualQuestion;
    prefix + actualQuestion
  }

  /** `formatTopicAndQuestion`. */
  function FormatTopicAndQuestion(q: QuestionText, c: Collaborators): (r: string)
    ensures EndsWith(r, q.actualQuestion)
    ensures q.topicPathWithWs.None? ==> r == q.actualQuestion
    ensures q.topicPathWithWs.Some? ==> r == c.formatWithWs(q.topicPathWithWs.value) + q.actualQuestion
  {
    TopicAndQuestion(q.topicPathWithWs, q.actualQuestion, c)
  }

  /** The constructor of `QuestionText`: the hash is taken of the topic and question. */
  function NewQuestionText(original: string, tp: Option<TopicPathWithWs>, actualQuestion: string,
                           blockId: Option<string>, c: Collaborators): (q: QuestionText)
    ensures q.original == original && q.topicPathWithWs == tp
    ensures q.actualQuestion == actualQuestion && q.obsidianBlockId == blockId
    ensures q.textHash == c.hash(FormatTopicAndQuestion(q, c))
  {
    QuestionText(original, tp, actualQuestion, blockId, c.hash(TopicAndQuestion(tp, actualQuestion, c)))
  }

  /** Neither the text as read, nor the block identifier, nor (since it is not part of
      either argument) the schedule comment changes the hash. */
  lemma HashOfTopicAndQuestionOnly(o1: string, o2: string, tp: Option<TopicPathWithWs>, actualQuestion: string,
                                   b1: Option<string>, b2: Option<string>, c: Collaborators)
    ensures NewQuestionText(o1, tp, actualQuestion, b1, c).textHash
         == NewQuestionText(o2, tp, actualQuestion, b2, c).textHash
  {
  }

  /** `endsWithCodeBlock`: the question ends with the three backticks that close a
      fenced code block. */
  function EndsWithCodeBlock(q: QuestionText): (r: bool)
    ensures var a := q.actualQuestion;
      r <==> |a| >= 3 && a[|a| - 3] == '`' && a[|a| - 2] == '`' && a[|a| - 1] == '`'
  {
    var a := q.actualQuestion;
    assert |a| >= 3 ==> a[|a| - 3..] == [a[|a| - 3], a[|a| - 2], a[|a| - 1]];
    EndsWith(a, "```")
  }

  /** `isCardCommentsOnSameLine`: the setting, overridden when the question ends with a
      code block. */
  function IsCardCommentsOnSameLine(q: QuestionText, cardCommentOnSameLine: bool): (r: bool)
    ensures r <==> cardCommentOnSameLine && !EndsWithCodeBlock(q)
  {
    var result := cardCommentOnSameLine;
    if EndsWithCodeBlock(q) then false else result
  }

  /** `getHtmlCommentSeparator`. */
  function GetHtmlCommentSeparator(q: QuestionText, cardCommentOnSameLine: bool): (sep: string)
    ensures |sep| == 1 && AllWhiteSpace(sep)
    ensures sep == " " <==> IsCardCommentsOnSameLine(q, cardCommentOnSameLine)
    ensures sep == "\n" <==> !IsCardCommentsOnSameLine(q, cardCommentOnSameLine)
  {
    if IsCardCommentsOnSameLine(q, cardCommentOnSameLine) then " " else "\n"
  }

  /** A block identifier counts only when it is present and not empty. */
  predicate HasBlockId(b: Option<string>) {
    b.Some? && b.value != ""
  }

  /** `formatForNote`, given whether some card has a schedule and the schedule comment. */
  function FormatForNote(q: QuestionText, c: Collaborators, hasSchedule: bool, scheduleHtml: string,
                         cardCommentOnSameLine: bool): string
  {
    var result := FormatTopicAndQuestion(q, c);
    var blockId := q.obsidianBlockId;
    if hasSchedule then
      var trimmed := TrimEnd(result);
      if HasBlockId(blockId) then
        if IsCardCommentsOnSameLine(q, cardCommentOnSameLine) then
          trimmed + " " + scheduleHtml + " " + blockId.value
        else
          trimmed + " " + blockId.value + "\n" + scheduleHtml
      else
        trimmed + GetHtmlCommentSeparator(q, cardCommentOnSameLine) + scheduleHtml
    else if HasBlockId(blockId) then
      result + " " + blockId.value
    else
      result
  }

  /** How `formatForNote` starts: with the topic and question, without their trailing
      white space when a schedule follows and untouched otherwise. */
  lemma FormatForNoteStart(q: QuestionText, c: Collaborators, hasSchedule: bool, scheduleHtml: string,
                           sameLine: bool)
    ensures var r := FormatForNote(q, c, hasSchedule, scheduleHtml, sameLine);
      StartsWith(r, TrimEnd(FormatTopicAndQuestion(q, c)))
      && (!hasSchedule ==> StartsWith(r, FormatTopicAndQuestion(q, c)))
      && (!hasSchedule && !HasBlockId(q.obsidianBlockId) ==> r == FormatTopicAndQuestion(q, c))
  {
    var r := FormatForNote(q, c, hasSchedule, scheduleHtml, sameLine);
    var full := FormatTopicAndQuestion(q, c);
    var t := TrimEnd(full);
    if hasSchedule {
      if HasBlockId(q.obsidianBlockId) {
        var id := q.obsidianBlockId.value;
        if IsCardCommentsOnSameLine(q, sameLine) {
          assert StartsWith(r, t) by {
            FormatSameLine(q, c, scheduleHtml, sameLine);
            SameLineLayout(t, scheduleHtml, id);
          }
        } else {
          assert StartsWith(r, t) by {
            FormatNextLine(q, c, scheduleHtml, sameLine);
            NextLineLayout(t, scheduleHtml, id);
          }
        }
      } else {
        assert StartsWith(r, t) by {
          FormatSeparated(q, c, scheduleHtml, sameLine);
          SeparatorLayout(t, GetHtmlCommentSeparator(q, sameLine), scheduleHtml);
        }
      }
    } else {
      assert StartsWith(full, t) by {
        assert t == full[..|t|];
      }
      if HasBlockId(q.obsidianBlockId) {
        var id := q.obsidianBlockId.value;
        assert StartsWith(r, full) by {
          FormatUnscheduled(q, c, scheduleHtml, sameLine);
          SeparatorLayout(full, " ", id);
        }
        PrefixesChain(r, full, t);
      } else {
        assert r == full by {
          FormatUnscheduled(q, c, scheduleHtml, sameLine);
        }
      }
    }
  }

  /** How `formatForNote` ends: with a schedule the comment is in the text, and ends it
      unless a block identifier follows it on the same line; the block identifier ends
      the text when there is no schedule or it shares the comment's line. */
  lemma FormatForNoteEnd(q: QuestionText, c: Collaborators, hasSchedule: bool, scheduleHtml: string,
                         sameLine: bool)
    ensures var r := FormatForNote(q, c, hasSchedule, scheduleHtml, sameLine);
      (hasSchedule ==> Contains(r, scheduleHtml))
      && (hasSchedule && !(HasBlockId(q.obsidianBlockId) && IsCardCommentsOnSameLine(q, sameLine))
          ==> EndsWith(r, scheduleHtml))
      && (HasBlockId(q.obsidianBlockId) && (!hasSchedule || IsCardCommentsOnSameLine(q, sameLine))
          ==> EndsWith(r, " " + q.obsidianBlockId.value))
  {
    var r := FormatForNote(q, c, hasSchedule, scheduleHtml, sameLine);
    var full := FormatTopicAndQuestion(q, c);
    var t := TrimEnd(full);
    if hasSchedule {
      if HasBlockId(q.obsidianBlockId) {
        var id := q.obsidianBlockId.value;
        if IsCardCommentsOnSameLine(q, sameLine) {
          assert Contains(r, scheduleHtml) && EndsWith(r, " " + id) by {
            FormatSameLine(q, c, scheduleHtml, sameLine);
            SameLineLayout(t, scheduleHtml, id);
          }
        } else {
          assert Contains(r, scheduleHtml) && EndsWith(r, scheduleHtml) by {
            FormatNextLine(q, c, scheduleHtml, sameLine);
            NextLineLayout(t, scheduleHtml, id);
          }
        }
      } else {
        assert Contains(r, scheduleHtml) && EndsWith(r, scheduleHtml) by {
          FormatSeparated(q, c, scheduleHtml, sameLine);
          SeparatorLayout(t, GetHtmlCommentSeparator(q, sameLine), scheduleHtml);
        }
      }
    } else if HasBlockId(q.obsidianBlockId) {
      var id := q.obsidianBlockId.value;
      assert EndsWith(r, " " + id) by {
        FormatUnscheduled(q, c, scheduleHtml, sameLine);
        SeparatorLayout(full, " ", id);
        assert full + " " + id == full + (" " + id);
      }
    }
  }

  lemma FormatSameLine(q: QuestionText, c: Collaborators, html: string, sameLine: bool)
    requires HasBlockId(q.obsidianBlockId) && IsCardCommentsOnSameLine(q, sameLine)
    ensures FormatForNote(q, c, true, html, sameLine)
         == TrimEnd(FormatTopicAndQuestion(q, c)) + " " + html + " " + q.obsidianBlockId.value
  {
  }

  lemma FormatNextLine(q: QuestionText, c: Collaborators, html: string, sameLine: bool)
    requires HasBlockId(q.obsidianBlockId) && !IsCardCommentsOnSameLine(q, sameLine)
    ensures FormatForNote(q, c, true, html, sameLine)
         == TrimEnd(FormatTopicAndQuestion(q, c)) + " " + q.obsidianBlockId.value + "\n" + html
  {
  }

  lemma FormatSeparated(q: QuestionText, c: Collaborators, html: string, sameLine: bool)
    requires !HasBlockId(q.obsidianBlockId)
    ensures FormatForNote(q, c, true, html, sameLine)
         == TrimEnd(FormatTopicAndQuestion(q, c)) + GetHtmlCommentSeparator(q, sameLine) + html
  {
  }

  lemma FormatUnscheduled(q: QuestionText, c: Collaborators, html: string, sameLine: bool)
    ensures FormatForNote(q, c, false, html, sameLine)
         == if HasBlockId(q.obsidianBlockId) then FormatTopicAndQuestion(q, c) + " " + q.obsidianBlockId.value
            else FormatTopicAndQuestion(q, c)
  {
  }

  /** A prefix of a prefix is a prefix. */
  lemma PrefixesChain(r: string, a: string, b: string)
    requires StartsWith(r, a) && StartsWith(a, b)
    ensures StartsWith(r, b)
  {
    assert r[..|b|] == a[..|b|];
  }

  /** The same-line layout `t + " " + html + " " + id`. */
  lemma SameLineLayout(t: string, html: string, id: string)
    ensures var r := t + " " + html + " " + id;
      StartsWith(r, t) && Contains(r, html) && EndsWith(r, " " + id)
  {
    var r := t + " " + html + " " + id;
    assert r[..|t|] == t;
    assert r[|t| + 1..|t| + 1 + |html|] == html;
    assert OccursAt(r, html, |t| + 1);
    assert r[|r| - |id| - 1..] == " " + id;
  }

  /** The next-line layout `t + " " + id + "\n" + html`. */
  lemma NextLineLayout(t: string, html: string, id: string)
    ensures var r := t + " " + id + "\n" + html;
      StartsWith(r, t) && Contains(r, html) && EndsWith(r, html)
  {
    var r := t + " " + id + "\n" + html;
    assert r[..|t|] == t;
    assert r[|r| - |html|..] == html;
    assert OccursAt(r, html, |r| - |html|);
  }

  /** The layout `t + sep + x` with a separator. */
  lemma SeparatorLayout(t: string, sep: string, x: string)
    ensures var r := t + sep + x;
      StartsWith(r, t) && Contains(r, x) && EndsWith(r, x) && EndsWith(r, sep + x)
  {
    var r := t + sep + x;
    assert r[..|t|] == t;
    assert r[|r| - |x|..] == x;
    assert r[|r| - |x| - |sep|..] == sep + x;
    assert OccursAt(r, x, |r| - |x|);
  }

  /** `s.trim()`. */
  function Trim(s: string): (r: string)
    ensures !EndsWithWhiteSpace(r)
    ensures |r| > 0 ==> !IsWhiteSpace(r[0])
    ensures |r| <= |s|
    ensures exists i: nat :: i + |r| <= |s| && s[i..i + |r|] == r && AllWhiteSpace(s[..i]) && AllWhiteSpace(s[i + |r|..])
  {
    var e := TrimEnd(s);
    var t := TrimStart(e);
    assert e == t.0 + t.1;
    assert |t.1| > 0 ==> t.1[|t.1| - 1] == e[|e| - 1];
    var i := |t.0|;
    assert e == s[..|e|];
    assert s[i..i + |t.1|] == t.1 && s[..i] == t.0 && s[i + |t.1|..] == s[|e|..];
    t.1
  }

  /** `extractObsidianBlockId`, given the match of the block-identifier expression on
      `text`: without a match the text is kept and there is no identifier; with one,
      the identifier is the trimmed match and the question is what precedes it, with
      its trailing white space removed. */
  function ExtractObsidianBlockId(text: string, m: Option<string>): (r: (string, Option<string>))
    requires m.Some? ==> EndsWith(text, m.value)
    ensures m.None? ==> r == (text, None)
    ensures m.Some? ==> r.1 == Some(Trim(m.value))
    ensures m.Some? ==> r.0 == TrimEnd(text[..|text| - |Trim(m.value)|])
    ensures m.Some? ==> !EndsWithWhiteSpace(r.0) && r.0 <= text
  {
    match m
    case None => (text, None)
    case Some(matched) =>
      var blockId := Trim(matched);
      var newLength := |text| - |blockId|;
      (TrimEnd(text[..newLength]), Some(blockId))
  }

  /** `splitText`: the schedule comment is removed; a topic path found by the unseen
      detector is cut off the front with the white space around it (and kept unless
      folders are converted to decks); then the block identifier is cut off the end. */
  function SplitText(original: string, convertFoldersToDecks: bool, c: Collaborators)
    : (r: (Option<TopicPathWithWs>, string, Option<string>))
    requires SuffixMatcher(c)
    ensures r.0.Some? ==> !convertFoldersToDecks
    ensures var text := QuestionRemoveScheduleInfo(original);
      !DetectsTopicPath(c, text) ==>
        r.0 == None && (r.1, r.2) == ExtractObsidianBlockId(TrimEnd(text), c.blockIdMatch(TrimEnd(text)))
    ensures var text := QuestionRemoveScheduleInfo(original);
      DetectsTopicPath(c, text) ==>
        var (pre, rest) := TrimStart(text);
        var (post, question) := TrimStart(c.stripTag(rest));
        (r.0.Some? <==> !convertFoldersToDecks)
        && (r.0.Some? ==> r.0.value == TopicPathWithWs(c.topicPathOf(text).value, pre, post))
        && (r.1, r.2) == ExtractObsidianBlockId(question, c.blockIdMatch(question))
  {
    var originalWithoutSR := QuestionRemoveScheduleInfo(original);
    var topicPath := c.topicPathOf(originalWithoutSR);
    var (topicPathWithWs, actualQuestion) :=
      if DetectsTopicPath(c, originalWithoutSR) then
        var (preTopicPathWs, cardText2) := TrimStart(originalWithoutSR);
        var cardText3 := c.stripTag(cardText2);
        var (postTopicPathWs, question) := TrimStart(cardText3);
        (if !convertFoldersToDecks then Some(TopicPathWithWs(topicPath.value, preTopicPathWs, postTopicPathWs)) else None,
         question)
      else
        (None, TrimEnd(originalWithoutSR));
    var (question, blockId) := ExtractObsidianBlockId(actualQuestion, c.blockIdMatch(actualQuestion));
    (topicPathWithWs, question, blockId)
  }

  /** `QuestionText.create`. */
  function CreateQuestionText(original: string, convertFoldersToDecks: bool, c: Collaborators): (q: QuestionText)
    requires SuffixMatcher(c)
    ensures q.original == original
    ensures (q.topicPathWithWs, q.actualQuestion, q.obsidianBlockId) == SplitText(original, convertFoldersToDecks, c)
    ensures q.textHash == c.hash(FormatTopicAndQuestion(q, c))
  {
    var (tp, question, blockId) := SplitText(original, convertFoldersToDecks, c);
    NewQuestionText(original, tp, question, blockId, c)
  }

  /* Reading back a formatted question. */

  predicate IsBlockIdChar(ch: char) {
    ('a' <= ch <= 'z') || ('A' <= ch <= 'Z') || ('0' <= ch <= '9') || ch == '-'
  }

  /** An Obsidian block identifier: `^` followed by letters, digits and dashes. */
  predicate IsBlockId(id: string) {
    |id| >= 2 && id[0] == '^' && forall i :: 1 <= i < |id| ==> IsBlockIdChar(id[i])
  }

  /** The block identifier a question is written with, if any. */
  function WrittenBlockId(q: QuestionText): Option<string> {
    if HasBlockId(q.obsidianBlockId) then q.obsidianBlockId else None
  }

  /** What the block-identifier expression finds at the end of a formatted question. */
  function BlockIdMatchOf(q: QuestionText): Option<string> {
    if HasBlockId(q.obsidianBlockId) then Some(" " + q.obsidianBlockId.value) else None
  }

  /** A question whose text holds no schedule comment and whose block identifier, if it
      counts, is well formed. */
  predicate Writable(q: QuestionText) {
    q.topicPathWithWs.None? && !Contains(q.actualQuestion, SrHtmlCommentBegin)
    && (HasBlockId(q.obsidianBlockId) ==> IsBlockId(q.obsidianBlockId.value))
  }

  /** A text without the character `p[k]` holds no occurrence of `p`. */
  lemma AbsentChar(s: string, p: string, k: nat)
    requires k < |p| && forall i :: 0 <= i < |s| ==> s[i] != p[k]
    ensures !Contains(s, p)
  {
    forall j: nat | j + |p| <= |s|
      ensures !OccursAt(s, p, j)
    {
      assert s[j..j + |p|][k] == s[j + k];
    }
  }

  lemma BlockIdHasNoMarkers(id: string)
    requires IsBlockId(id)
    ensures !Contains(id, SrHtmlCommentBegin) && !Contains(id, SrHtmlCommentEnd)
    ensures !Contains(" " + id, SrHtmlCommentBegin) && !Contains(" " + id, SrHtmlCommentEnd)
  {
    var s := " " + id;
    assert forall i :: 0 <= i < |id| ==> id[i] != '<' && id[i] != '>';
    assert forall i :: 0 <= i < |s| ==> s[i] != '<' && s[i] != '>';
    AbsentChar(id, SrHtmlCommentBegin, 0);
    AbsentChar(id, SrHtmlCommentEnd, 2);
    AbsentChar(s, SrHtmlCommentBegin, 0);
    AbsentChar(s, SrHtmlCommentEnd, 2);
  }

  /** No occurrence of a pattern can straddle a character the pattern does not hold. */
  lemma NoOccurrenceAcross(x: string, ch: char, y: string, p: string)
    requires !Contains(x, p) && !Contains(y, p)
    requires forall k :: 0 <= k < |p| ==> p[k] != ch
    ensures !Contains(x + [ch] + y, p)
  {
    var s := x + [ch] + y;
    forall j: nat | j + |p| <= |s|
      ensures !OccursAt(s, p, j)
    {
      if j + |p| <= |x| {
        assert s == x + ([ch] + y);
        if OccursAt(s, p, j) {
          OccursInPrefix(x, [ch] + y, p, j);
        }
      } else if j > |x| {
        if OccursAt(s, p, j) {
          OccursInSuffix(x + [ch], y, p, j);
        }
      } else {
        assert s[j..j + |p|][|x| - j] == s[|x|] == ch;
      }
    }
  }

  lemma NoOccurrenceInPrefix(s: string, r: string, p: string)
    requires r <= s && !Contains(s, p)
    ensures !Contains(r, p)
  {
    forall j: nat | j + |p| <= |r|
      ensures !OccursAt(r, p, j)
    {
      assert r == s[..|r|];
      assert s[j..j + |p|] == r[j..j + |p|];
      assert !OccursAt(s, p, j);
    }
  }

  lemma EmptyHasNoBegin()
    ensures !Contains("", SrHtmlCommentBegin)
  {
  }

  lemma BeginHasNoWhiteSpace()
    ensures forall k :: 0 <= k < |SrHtmlCommentBegin| ==> !IsWhiteSpace(SrHtmlCommentBegin[k])
  {
  }

  /** `TrimEnd` ignores white space added at the end. */
  lemma {:induction false} TrimEndAppendWhiteSpace(s: string, w: string)
    requires AllWhiteSpace(w)
    ensures TrimEnd(s + w) == TrimEnd(s)
    decreases |w|
  {
    if w == [] {
      assert s + w == s;
    } else {
      assert (s + w)[..|s + w| - 1] == s + w[..|w| - 1];
      TrimEndAppendWhiteSpace(s, w[..|w| - 1]);
    }
  }

  lemma TrimOfSpacedBlockId(id: string)
    requires IsBlockId(id)
    ensures Trim(" " + id) == id
  {
    assert !EndsWithWhiteSpace(" " + id);
    TrimEndOfTrimmed(" " + id, "");
    assert " " + id + "" == " " + id;
    assert LeadingWhiteSpace((" " + id)[1..]) == 0 by {
      assert (" " + id)[1..] == id;
    }
  }

  lemma TrimEndIdempotent(s: string)
    ensures TrimEnd(TrimEnd(s)) == TrimEnd(s)
  {
    TrimEndOfTrimmed(TrimEnd(s), "");
    assert TrimEnd(s) + "" == TrimEnd(s);
  }

  lemma NotEndingInWhiteSpace(s: string)
    requires !EndsWithWhiteSpace(s)
    ensures TrimEnd(s) == s
  {
    TrimEndOfTrimmed(s, "");
    assert s + "" == s;
  }

  /** The white space a formatted question leaves between the question and its block
      identifier once the schedule comment is removed. */
  function BlockIdSpacing(q: QuestionText, hasSchedule: bool, cardCommentOnSameLine: bool): string {
    if hasSchedule && IsCardCommentsOnSameLine(q, cardCommentOnSameLine) then "  " else " "
  }

  /** The text a formatted question is read back from, once its schedule comment is
      removed and its end trimmed. */
  function ReadBackText(q: QuestionText, hasSchedule: bool, cardCommentOnSameLine: bool): string {
    var question := if hasSchedule then TrimEnd(q.actualQuestion) else q.actualQuestion;
    if HasBlockId(q.obsidianBlockId) then
      question + BlockIdSpacing(q, hasSchedule, cardCommentOnSameLine) + q.obsidianBlockId.value
    else TrimEnd(question)
  }

  /** The block-identifier expression finds the written identifier at the end of the
      read-back text, and nothing when none was written. */
  predicate FindsWrittenBlockId(q: QuestionText, m: Option<string>, text: string) {
    if HasBlockId(q.obsidianBlockId) then m.Some? && EndsWith(text, m.value) && Trim(m.value) == q.obsidianBlockId.value
    else m.None?
  }

  /** With a block identifier, it is read back from the trimmed text, and the question with it. */
  lemma ExtractWrittenBlockIdPresent(q: QuestionText, hasSchedule: bool, sameLine: bool, m: Option<string>)
    requires Writable(q) && HasBlockId(q.obsidianBlockId)
    requires FindsWrittenBlockId(q, m, ReadBackText(q, hasSchedule, sameLine))
    ensures ExtractObsidianBlockId(ReadBackText(q, hasSchedule, sameLine), m)
         == (TrimEnd(q.actualQuestion), WrittenBlockId(q))
  {
    var question := if hasSchedule then TrimEnd(q.actualQuestion) else q.actualQuestion;
    var id := q.obsidianBlockId.value;
    var w := BlockIdSpacing(q, hasSchedule, sameLine);
    var t := question + w + id;
    assert t[..|t| - |id|] == question + w;
    TrimEndAppendWhiteSpace(question, w);
    TrimEndIdempotent(q.actualQuestion);
  }

  /** The question and its block identifier are read back from the trimmed text. */
  lemma ExtractWrittenBlockId(q: QuestionText, hasSchedule: bool, sameLine: bool, m: Option<string>)
    requires Writable(q)
    requires FindsWrittenBlockId(q, m, ReadBackText(q, hasSchedule, sameLine))
    ensures ExtractObsidianBlockId(ReadBackText(q, hasSchedule, sameLine), m)
         == (TrimEnd(q.actualQuestion), WrittenBlockId(q))
  {
    if HasBlockId(q.obsidianBlockId) {
      ExtractWrittenBlockIdPresent(q, hasSchedule, sameLine, m);
    } else {
      TrimEndIdempotent(q.actualQuestion);
    }
  }

  /** A written question without a schedule holds no schedule comment, so removing
      comments leaves it as it is. */
  lemma RemoveFromUnscheduled(q: QuestionText, c: Collaborators, sameLine: bool, html: string)
    requires Writable(q)
    ensures TrimEnd(QuestionRemoveScheduleInfo(FormatForNote(q, c, false, html, sameLine))) == ReadBackText(q, false, sameLine)
  {
    var aq := q.actualQuestion;
    var text := FormatForNote(q, c, false, html, sameLine);
    if HasBlockId(q.obsidianBlockId) {
      var id := q.obsidianBlockId.value;
      BlockIdHasNoMarkers(id);
      NoOccurrenceAcross(aq, ' ', id, SrHtmlCommentBegin);
      assert text == aq + [' '] + id;
      RemoveWithoutComment(text);
      NotEndingInWhiteSpace(text);
    } else {
      assert text == aq;
      RemoveWithoutComment(text);
    }
  }

  /** Text ending in a white-space character, without a comment, is clean before one. */
  lemma CleanBeforeWith(x: string, ch: char)
    requires !Contains(x, SrHtmlCommentBegin) && IsWhiteSpace(ch)
    ensures CleanBefore(x + [ch])
  {
    EmptyHasNoBegin();
    BeginHasNoWhiteSpace();
    NoOccurrenceAcross(x, ch, "", SrHtmlCommentBegin);
    assert x + [ch] + "" == x + [ch];
  }

  lemma EmptyCleanAfter()
    ensures CleanAfter("")
  {
  }

  /** Removing a well-placed schedule comment and trimming the end leaves the trimmed
      text around it. */
  lemma RemoveThenTrim(a: string, infos: seq<RepItemScheduleInfo>, b: string)
    requires infos != [] && AllWritable(infos) && CleanBefore(a) && CleanAfter(b)
    ensures TrimEnd(QuestionRemoveScheduleInfo(a + ScheduleComment(infos) + b)) == TrimEnd(a + b)
  {
    RemoveWrittenComment(a, infos, b);
  }

  /** The trimmed question of a writable question holds no comment start. */
  lemma TrimmedQuestionClean(q: QuestionText)
    requires Writable(q)
    ensures !Contains(TrimEnd(q.actualQuestion), SrHtmlCommentBegin)
  {
    NoOccurrenceInPrefix(q.actualQuestion, TrimEnd(q.actualQuestion), SrHtmlCommentBegin);
  }

  /** Neither does the first line of a question written with its block identifier. */
  lemma BlockIdLineClean(q: QuestionText)
    requires Writable(q) && HasBlockId(q.obsidianBlockId)
    ensures !Contains(TrimEnd(q.actualQuestion) + [' '] + q.obsidianBlockId.value, SrHtmlCommentBegin)
  {
    TrimmedQuestionClean(q);
    BlockIdHasNoMarkers(q.obsidianBlockId.value);
    NoOccurrenceAcross(TrimEnd(q.actualQuestion), ' ', q.obsidianBlockId.value, SrHtmlCommentBegin);
  }

  /** Same line, with a block identifier: the comment sits between two spaces. */
  lemma RemoveFromSameLine(q: QuestionText, c: Collaborators, infos: seq<RepItemScheduleInfo>, sameLine: bool)
    requires Writable(q) && infos != [] && AllWritable(infos)
    requires HasBlockId(q.obsidianBlockId) && IsCardCommentsOnSameLine(q, sameLine)
    ensures TrimEnd(QuestionRemoveScheduleInfo(FormatForNote(q, c, true, ScheduleComment(infos), sameLine)))
         == ReadBackText(q, true, sameLine)
  {
    var t := TrimEnd(q.actualQuestion);
    var id := q.obsidianBlockId.value;
    TrimmedQuestionClean(q);
    CleanBeforeWith(t, ' ');
    BlockIdHasNoMarkers(id);
    assert CleanAfter(" " + id);
    assert FormatForNote(q, c, true, ScheduleComment(infos), sameLine) == (t + [' ']) + ScheduleComment(infos) + (" " + id);
    RemoveThenTrim(t + [' '], infos, " " + id);
    SpacedBlockIdJoin(t, id);
  }

  /** The question and identifier on either side of a removed same-line comment are
      separated by two spaces and do not end in white space. */
  lemma SpacedBlockIdJoin(t: string, id: string)
    requires IsBlockId(id)
    ensures TrimEnd((t + [' ']) + (" " + id)) == t + "  " + id
  {
    var x := (t + [' ']) + (" " + id);
    assert x == t + "  " + id;
    assert x[|x| - 1] == id[|id| - 1];
    NotEndingInWhiteSpace(x);
  }

  /** Next line, with a block identifier: the identifier ends the first line and the
      comment is the whole second line. */
  lemma RemoveFromNextLine(q: QuestionText, c: Collaborators, infos: seq<RepItemScheduleInfo>, sameLine: bool)
    requires Writable(q) && infos != [] && AllWritable(infos)
    requires HasBlockId(q.obsidianBlockId) && !IsCardCommentsOnSameLine(q, sameLine)
    ensures TrimEnd(QuestionRemoveScheduleInfo(FormatForNote(q, c, true, ScheduleComment(infos), sameLine)))
         == ReadBackText(q, true, sameLine)
  {
    var a := TrimEnd(q.actualQuestion) + [' '] + q.obsidianBlockId.value;
    BlockIdLineClean(q);
    CleanBeforeWith(a, '\n');
    EmptyCleanAfter();
    NextLineFormat(q, c, ScheduleComment(infos), sameLine);
    RemoveThenTrim(a + ['\n'], infos, "");
    LineBreakJoin(TrimEnd(q.actualQuestion), q.obsidianBlockId.value);
  }

  /** The next-line layout, with the comment as the last part. */
  lemma NextLineFormat(q: QuestionText, c: Collaborators, html: string, sameLine: bool)
    requires Writable(q)
    requires HasBlockId(q.obsidianBlockId) && !IsCardCommentsOnSameLine(q, sameLine)
    ensures FormatForNote(q, c, true, html, sameLine)
         == ((TrimEnd(q.actualQuestion) + [' '] + q.obsidianBlockId.value) + ['\n']) + html + ""
  {
  }

  /** The first line of a question written with its identifier keeps its identifier when
      the line break after it is trimmed. */
  lemma LineBreakJoin(t: string, id: string)
    requires IsBlockId(id)
    ensures TrimEnd(((t + [' '] + id) + ['\n']) + "") == t + " " + id
  {
    var a := t + [' '] + id;
    assert ((t + [' '] + id) + ['\n']) + "" == a + "\n";
    assert a[|a| - 1] == id[|id| - 1];
    TrimEndOfTrimmed(a, "\n");
  }

  /** Without a block identifier: the comment follows the separator. */
  lemma RemoveFromNoBlockId(q: QuestionText, c: Collaborators, infos: seq<RepItemScheduleInfo>, sameLine: bool)
    requires Writable(q) && infos != [] && AllWritable(infos)
    requires !HasBlockId(q.obsidianBlockId)
    ensures TrimEnd(QuestionRemoveScheduleInfo(FormatForNote(q, c, true, ScheduleComment(infos), sameLine)))
         == ReadBackText(q, true, sameLine)
  {
    var t := TrimEnd(q.actualQuestion);
    var sep := GetHtmlCommentSeparator(q, sameLine);
    TrimmedQuestionClean(q);
    CleanBeforeWith(t, sep[0]);
    EmptyCleanAfter();
    assert sep == [sep[0]];
    assert FormatForNote(q, c, true, ScheduleComment(infos), sameLine) == (t + [sep[0]]) + ScheduleComment(infos) + "";
    RemoveThenTrim(t + [sep[0]], infos, "");
    assert (t + [sep[0]]) + "" == t + sep;
    TrimEndOfTrimmed(t, sep);
    TrimEndIdempotent(q.actualQuestion);
  }

  /** Removing the schedule comment from a formatted question and trimming the end
      gives the read-back text, whatever the layout. */
  lemma RemoveFromFormatted(q: QuestionText, c: Collaborators, hasSchedule: bool,
                            infos: seq<RepItemScheduleInfo>, sameLine: bool)
    requires Writable(q) && (hasSchedule ==> infos != [] && AllWritable(infos))
    ensures TrimEnd(QuestionRemoveScheduleInfo(FormatForNote(q, c, hasSchedule, ScheduleComment(infos), sameLine)))
         == ReadBackText(q, hasSchedule, sameLine)
  {
    if !hasSchedule {
      RemoveFromUnscheduled(q, c, sameLine, ScheduleComment(infos));
    } else if !HasBlockId(q.obsidianBlockId) {
      RemoveFromNoBlockId(q, c, infos, sameLine);
    } else if IsCardCommentsOnSameLine(q, sameLine) {
      RemoveFromSameLine(q, c, infos, sameLine);
    } else {
      RemoveFromNextLine(q, c, infos, sameLine);
    }
  }

  /** Reading back a formatted question: splitting the text `formatForNote` writes gives
      back the question without trailing white space and the block identifier it was
      written with, when the topic-path detector finds no path in it and the block-id
      expression finds the written identifier. */
  lemma SplitFormattedQuestion(q: QuestionText, c: Collaborators, hasSchedule: bool,
                               infos: seq<RepItemScheduleInfo>, sameLine: bool, convertFoldersToDecks: bool)
    requires SuffixMatcher(c) && Writable(q) && (hasSchedule ==> infos != [] && AllWritable(infos))
    requires !DetectsTopicPath(c, QuestionRemoveScheduleInfo(FormatForNote(q, c, hasSchedule, ScheduleComment(infos), sameLine)))
    requires FindsWrittenBlockId(q, c.blockIdMatch(ReadBackText(q, hasSchedule, sameLine)), ReadBackText(q, hasSchedule, sameLine))
    ensures SplitText(FormatForNote(q, c, hasSchedule, ScheduleComment(infos), sameLine), convertFoldersToDecks, c)
         == (None, TrimEnd(q.actualQuestion), WrittenBlockId(q))
  {
    RemoveFromFormatted(q, c, hasSchedule, infos, sameLine);
    var w := ReadBackText(q, hasSchedule, sameLine);
    ExtractWrittenBlockId(q, hasSchedule, sameLine, c.blockIdMatch(w));
  }

  /** `QuestionText.create` on the text `formatForNote` writes gives back the same
      question, block identifier and hash when the question does not end in white space. */
  lemma CreateFromFormattedQuestion(q: QuestionText, c: Collaborators, hasSchedule: bool,
                                    infos: seq<RepItemScheduleInfo>, sameLine: bool, convertFoldersToDecks: bool)
    requires SuffixMatcher(c) && Writable(q) && (hasSchedule ==> infos != [] && AllWritable(infos))
    requires !EndsWithWhiteSpace(q.actualQuestion) && q.textHash == c.hash(FormatTopicAndQuestion(q, c))
    requires !DetectsTopicPath(c, QuestionRemoveScheduleInfo(FormatForNote(q, c, hasSchedule, ScheduleComment(infos), sameLine)))
    requires FindsWrittenBlockId(q, c.blockIdMatch(ReadBackText(q, hasSchedule, sameLine)), ReadBackText(q, hasSchedule, sameLine))
    ensures var r := CreateQuestionText(FormatForNote(q, c, hasSchedule, ScheduleComment(infos), sameLine), convertFoldersToDecks, c);
      r.topicPathWithWs == q.topicPathWithWs && r.actualQuestion == q.actualQuestion
      && r.obsidianBlockId == WrittenBlockId(q) && r.textHash == q.textHash
  {
    SplitFormattedQuestion(q, c, hasSchedule, infos, sameLine, convertFoldersToDecks);
    NotEndingInWhiteSpace(q.actualQuestion);
  }
}
