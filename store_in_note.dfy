/** Schedules kept inside the note: `DataStore_StoreInNote`.

    All cards of a question share one HTML comment after the question text,
    `<!--SR:!2023-09-02,4,270!2023-09-02,5,270-->`, one `!date,interval,ease` entry per
    card in card order. This module reads such comments back into schedules, writes
    them, and removes them from a question's text.

    The two extractors are regular expressions applied with `matchAll`:
    the current one, `!` then a run of digits and dashes, `,`, digits, `,`, digits;
    and the legacy one, the same three fields between `<!--SR:` and `-->`. Each is
    modelled by a scanner that tries every position from left to right and resumes
    after a match. Because `,` and `-` are not digits and `,` is not a date
    character, each greedy run must be the longest run of its characters, so the
    regular expressions never backtrack and the scanners below are exact. */
module StoreInNote {
  import opened Wrappers
  import opened Text
  import opened Calendar
  import opened ScheduleInfo

  const SrHtmlCommentBegin: string := "<!--SR:"
  const SrHtmlCommentEnd: string := "-->"

  /** The end of the longest run of date characters starting at `j`. */
  function DateRunEnd(s: string, j: nat): (k: nat)
    requires j <= |s|
    ensures j <= k <= |s|
    decreases |s| - j
  {
    if j < |s| && IsDateChar(s[j]) then DateRunEnd(s, j + 1) else j
  }

  /** The end of the longest run of digits starting at `j`. */
  function DigitRunEnd(s: string, j: nat): (k: nat)
    requires j <= |s|
    ensures j <= k <= |s|
    decreases |s| - j
  {
    if j < |s| && IsDigit(s[j]) then DigitRunEnd(s, j + 1) else j
  }

  /** Any run of date characters that stops at a non-date character is the longest one. */
  lemma {:induction false} DateRunEndAt(s: string, j: nat, k: nat)
    requires j <= k <= |s|
    requires AllDateChars(s[j..k])
    requires k == |s| || !IsDateChar(s[k])
    ensures DateRunEnd(s, j) == k
    decreases k - j
  {
    if j < k {
      assert IsDateChar(s[j..k][0]);
      assert s[j + 1..k] == s[j..k][1..];
      DateRunEndAt(s, j + 1, k);
    }
  }

  lemma {:induction false} DigitRunEndAt(s: string, j: nat, k: nat)
    requires j <= k <= |s|
    requires AllDigits(s[j..k])
    requires k == |s| || !IsDigit(s[k])
    ensures DigitRunEnd(s, j) == k
    decreases k - j
  {
    if j < k {
      assert IsDigit(s[j..k][0]);
      assert s[j + 1..k] == s[j..k][1..];
      DigitRunEndAt(s, j + 1, k);
    }
  }

  /** The longest run of digits is made of digits. */
  lemma {:induction false} DigitRunIsDigits(s: string, j: nat)
    requires j <= |s|
    ensures AllDigits(s[j..DigitRunEnd(s, j)])
    decreases |s| - j
  {
    if j < |s| && IsDigit(s[j]) {
      DigitRunIsDigits(s, j + 1);
      var k := DigitRunEnd(s, j);
      assert forall i :: 0 <= i < k - j ==> s[j..k][i] == s[i + j];
    }
  }

  /** The three groups of one match. */
  datatype ScheduleMatch = ScheduleMatch(dueDateStr: string, intervalStr: string, easeStr: string)

  /** Both numeric groups are runs of digits, as the extractors guarantee. */
  predicate WellFormedMatch(m: ScheduleMatch) {
    AllDigits(m.intervalStr) && AllDigits(m.easeStr)
  }

  /** A match of the current extractor starting at `i`, with the index just after it. */
  function MultiMatchAt(s: string, i: nat): (r: Option<(ScheduleMatch, nat)>)
    requires i <= |s|
    ensures r.Some? ==> i < r.value.1 <= |s|
  {
    if i < |s| && s[i] == '!' then
      var a := DateRunEnd(s, i + 1);
      if a > i + 1 && a < |s| && s[a] == ',' then
        var b := DigitRunEnd(s, a + 1);
        if b > a + 1 && b < |s| && s[b] == ',' then
          var c := DigitRunEnd(s, b + 1);
          if c > b + 1 then
            Some((ScheduleMatch(s[i + 1..a], s[a + 1..b], s[b + 1..c]), c))
          else None
        else None
      else None
    else None
  }

  /** A match of the legacy extractor starting at `i`, with the index just after it. */
  function LegacyMatchAt(s: string, i: nat): (r: Option<(ScheduleMatch, nat)>)
    requires i <= |s|
    ensures r.Some? ==> i < r.value.1 <= |s|
  {
    if OccursAt(s, SrHtmlCommentBegin, i) then
      var a := DateRunEnd(s, i + 7);
      if a > i + 7 && a < |s| && s[a] == ',' then
        var b := DigitRunEnd(s, a + 1);
        if b > a + 1 && b < |s| && s[b] == ',' then
          var c := DigitRunEnd(s, b + 1);
          if c > b + 1 && OccursAt(s, SrHtmlCommentEnd, c) then
            Some((ScheduleMatch(s[i + 7..a], s[a + 1..b], s[b + 1..c]), c + 3))
          else None
        else None
      else None
    else None
  }

  /** `matchAll` with the current extractor, from index `i` on. */
  function ScanMulti(s: string, i: nat): seq<ScheduleMatch>
    requires i <= |s|
    decreases |s| - i
  {
    if i == |s| then []
    else match MultiMatchAt(s, i)
      case Some((m, e)) => [m] + ScanMulti(s, e)
      case None => ScanMulti(s, i + 1)
  }

  /** `matchAll` with the legacy extractor, from index `i` on. */
  function ScanLegacy(s: string, i: nat): seq<ScheduleMatch>
    requires i <= |s|
    decreases |s| - i
  {
    if i == |s| then []
    else match LegacyMatchAt(s, i)
      case Some((m, e)) => [m] + ScanLegacy(s, e)
      case None => ScanLegacy(s, i + 1)
  }

  /** The matches `questionCreateSchedule` reads: the current format, or the legacy
      format only when the text holds no entry of the current one. */
  function ExtractScheduling(s: string): (r: seq<ScheduleMatch>)
    ensures ScanMulti(s, 0) != [] ==> r == ScanMulti(s, 0)
    ensures ScanMulti(s, 0) == [] ==> r == ScanLegacy(s, 0)
  {
    var multi := ScanMulti(s, 0);
    if |multi| == 0 then ScanLegacy(s, 0) else multi
  }

  /** The due date of a match: `None` for the new-card date, and also (see the
      README) for text that is not a calendar date. */
  function MatchDueDate(m: ScheduleMatch): (r: Option<Day>)
    ensures r.Some? ==> ParseDate(m.dueDateStr) == r && r.value != DummyDay()
    ensures ParseDate(m.dueDateStr) == Some(DummyDay()) ==> r.None?
  {
    var parsed := ParseDate(m.dueDateStr);
    if parsed == Some(DummyDay()) then None else parsed
  }

  /** One schedule read from a match, with the delay as the parse loop computes it:
      the due date minus today. */
  function ScheduleFromMatchAsWritten(today: Day, m: ScheduleMatch): (s: RepItemScheduleInfo)
    requires WellFormedMatch(m)
    ensures s.dueDate == MatchDueDate(m)
    ensures s.interval == ParseNat(m.intervalStr) && s.latestEase == ParseNat(m.easeStr)
    ensures s.dueDate.Some? ==> s.delayedBeforeReviewTicks == Some((s.dueDate.value - today) * TicksPerDay)
    ensures s.dueDate.None? ==> s.delayedBeforeReviewTicks.None?
  {
    var due := MatchDueDate(m);
    var delay := if due.Some? then Some((due.value - today) * TicksPerDay) else None;
    var interval := ParseNat(m.intervalStr);
    RoundInteger(interval);
    NewScheduleInfo(today, due, interval as real, ParseNat(m.easeStr), delay)
  }

  /** For every card read back after its due date, the parse loop records the delay
      as negative, where the schedule's own constructor, given the same due date,
      records it as positive. */
  lemma ParsedDelayHasWrongSign(today: Day, m: ScheduleMatch)
    requires WellFormedMatch(m)
    requires MatchDueDate(m).Some? && MatchDueDate(m).value < today
    ensures ScheduleFromMatchAsWritten(today, m).delayedBeforeReviewTicks.value < 0
    ensures NewScheduleInfo(today, MatchDueDate(m), ParseNat(m.intervalStr) as real,
                            ParseNat(m.easeStr), None).delayedBeforeReviewTicks.value > 0
  {
  }

  /** The text `2000-01-09`. */
  function ExampleDueText(): string {
    PadNat(2000, 4) + "-" + PadNat(1, 2) + "-" + PadNat(9, 2)
  }

  lemma ExampleDueDate()
    ensures ParseDate(ExampleDueText()) == Some(DummyDay() + 8)
  {
    assert ValidDate(Date(2000, 1, 9));
    assert DayNumber(Date(2000, 1, 9)) == DummyDay() + 8;
    ParseDateText(Date(2000, 1, 9));
  }

  /** A card due on 2000-01-09 with interval 10 and ease 250, read back on 2000-01-11:
      the recorded delay is minus two days. */
  lemma ParsedDelayExample()
    ensures var m := ScheduleMatch(ExampleDueText(), NatToString(10), NatToString(250));
            WellFormedMatch(m) && MatchDueDate(m) == Some(DummyDay() + 8)
            && ScheduleFromMatchAsWritten(DummyDay() + 10, m).delayedBeforeReviewTicks
               == Some(-2 * TicksPerDay)
  {
    ExampleDueDate();
  }

  /** One schedule read from a match, with the delay measured the way the schedule's
      constructor and the scheduler measure it: today minus the due date. */
  function ScheduleFromMatch(today: Day, m: ScheduleMatch): (s: RepItemScheduleInfo)
    requires WellFormedMatch(m)
    ensures s == NewScheduleInfo(today, MatchDueDate(m), ParseNat(m.intervalStr) as real, ParseNat(m.easeStr), None)
    ensures s.interval == ParseNat(m.intervalStr) && s.latestEase == ParseNat(m.easeStr)
    ensures s.dueDate.Some? ==> s.delayedBeforeReviewTicks == Some((today - s.dueDate.value) * TicksPerDay)
    ensures s.dueDate.None? ==> s.delayedBeforeReviewTicks.None?
  {
    var due := MatchDueDate(m);
    var delay := if due.Some? then Some((today - due.value) * TicksPerDay) else None;
    var interval := ParseNat(m.intervalStr);
    RoundInteger(interval);
    NewScheduleInfo(today, due, interval as real, ParseNat(m.easeStr), delay)
  }

  /** Every match of the current extractor has digit runs as its numeric groups. */
  lemma {:induction false} ScanMultiWellFormed(s: string, i: nat)
    requires i <= |s|
    ensures forall k :: 0 <= k < |ScanMulti(s, i)| ==> WellFormedMatch(ScanMulti(s, i)[k])
    decreases |s| - i
  {
    if i < |s| {
      match MultiMatchAt(s, i)
      case Some((m, e)) =>
        var a := DateRunEnd(s, i + 1);
        var b := DigitRunEnd(s, a + 1);
        DigitRunIsDigits(s, a + 1);
        DigitRunIsDigits(s, b + 1);
        ScanMultiWellFormed(s, e);
      case None =>
        ScanMultiWellFormed(s, i + 1);
    }
  }

  /** Likewise for the legacy extractor. */
  lemma {:induction false} ScanLegacyWellFormed(s: string, i: nat)
    requires i <= |s|
    ensures forall k :: 0 <= k < |ScanLegacy(s, i)| ==> WellFormedMatch(ScanLegacy(s, i)[k])
    decreases |s| - i
  {
    if i < |s| {
      match LegacyMatchAt(s, i)
      case Some((m, e)) =>
        var a := DateRunEnd(s, i + 7);
        var b := DigitRunEnd(s, a + 1);
        DigitRunIsDigits(s, a + 1);
        DigitRunIsDigits(s, b + 1);
        ScanLegacyWellFormed(s, e);
      case None =>
        ScanLegacyWellFormed(s, i + 1);
    }
  }

  lemma ExtractSchedulingWellFormed(s: string)
    ensures forall k :: 0 <= k < |ExtractScheduling(s)| ==> WellFormedMatch(ExtractScheduling(s)[k])
  {
    ScanMultiWellFormed(s, 0);
    ScanLegacyWellFormed(s, 0);
  }

  /** `questionCreateSchedule`: one schedule per match, in the order of the text. */
  method QuestionCreateSchedule(originalQuestionText: string, today: Day)
    returns (result: seq<RepItemScheduleInfo>)
    ensures var scheduling := ExtractScheduling(originalQuestionText);
            |result| == |scheduling|
            && forall i :: 0 <= i < |scheduling| ==>
                 WellFormedMatch(scheduling[i]) && result[i] == ScheduleFromMatch(today, scheduling[i])
  {
    ExtractSchedulingWellFormed(originalQuestionText);
    var scheduling := ScanMulti(originalQuestionText, 0);
    if |scheduling| == 0 {
      scheduling := ScanLegacy(originalQuestionText, 0);
    }
    assert scheduling == ExtractScheduling(originalQuestionText);
    result := [];
    for i := 0 to |scheduling|
      invariant |result| == i
      invariant forall k :: 0 <= k < i ==> result[k] == ScheduleFromMatch(today, scheduling[k])
    {
      var info := ScheduleFromMatch(today, scheduling[i]);
      result := result + [info];
    }
  }

  /** The entries of all cards, in card order. */
  function FormatEntries(infos: seq<RepItemScheduleInfo>): string {
    if infos == [] then ""
    else FormatCardScheduleForHtmlComment(infos[0]) + FormatEntries(infos[1..])
  }

  lemma {:induction false} FormatEntriesAppend(infos: seq<RepItemScheduleInfo>, s: RepItemScheduleInfo)
    ensures FormatEntries(infos + [s]) == FormatEntries(infos) + FormatCardScheduleForHtmlComment(s)
  {
    if infos == [] {
      assert infos + [s] == [s];
      assert [s][1..] == [];
    } else {
      assert (infos + [s])[1..] == infos[1..] + [s];
      FormatEntriesAppend(infos[1..], s);
    }
  }

  lemma FormatEntriesPrefix(infos: seq<RepItemScheduleInfo>, i: nat)
    requires i < |infos|
    ensures FormatEntries(infos[..i + 1])
            == FormatEntries(infos[..i]) + FormatCardScheduleForHtmlComment(infos[i])
  {
    assert infos[..i + 1] == infos[..i] + [infos[i]];
    FormatEntriesAppend(infos[..i], infos[i]);
  }

  /** The whole comment for a question whose cards have these schedules. */
  function ScheduleComment(infos: seq<RepItemScheduleInfo>): string {
    SrHtmlCommentBegin + FormatEntries(infos) + SrHtmlCommentEnd
  }

  /** `questionFormatScheduleAsHtmlComment`, given the cards' schedules in card order. */
  method QuestionFormatScheduleAsHtmlComment(infos: seq<RepItemScheduleInfo>) returns (result: string)
    ensures result == ScheduleComment(infos)
  {
    result := SrHtmlCommentBegin;
    for i := 0 to |infos|
      invariant result == SrHtmlCommentBegin + FormatEntries(infos[..i])
    {
      FormatEntriesPrefix(infos, i);
      ConcatAssoc(SrHtmlCommentBegin, FormatEntries(infos[..i]), FormatCardScheduleForHtmlComment(infos[i]));
      result := result + FormatCardScheduleForHtmlComment(infos[i]);
    }
    assert infos[..|infos|] == infos;
    result := result + SrHtmlCommentEnd;
  }

  /* Reading back what was written. */

  /** The match the current extractor finds for a written schedule. */
  function MatchOf(s: RepItemScheduleInfo): ScheduleMatch {
    ScheduleMatch(DueDateText(s), IntToString(s.interval), IntToString(s.latestEase))
  }

  function MatchesOf(infos: seq<RepItemScheduleInfo>): (r: seq<ScheduleMatch>)
    ensures |r| == |infos| && forall k :: 0 <= k < |infos| ==> r[k] == MatchOf(infos[k])
  {
    if infos == [] then [] else [MatchOf(infos[0])] + MatchesOf(infos[1..])
  }

  /** What reading a written schedule should give: the same interval and ease; no
      due date when there was none or when it was the new-card date; and otherwise the
      same due date with the delay from it to today. */
  function ReadBack(today: Day, s: RepItemScheduleInfo): RepItemScheduleInfo {
    var due := if s.dueDate == Some(DummyDay()) then None else s.dueDate;
    var delay := if due.Some? then Some((today - due.value) * TicksPerDay) else None;
    RepItemScheduleInfo(due, s.interval, s.latestEase, delay)
  }

  /** The text `!date,interval,ease` of a match. */
  function EntryString(m: ScheduleMatch): string {
    "!" + m.dueDateStr + "," + m.intervalStr + "," + m.easeStr
  }

  /** A match whose groups are non-empty runs of their characters. */
  predicate IsEntryMatch(m: ScheduleMatch) {
    |m.dueDateStr| > 0 && AllDateChars(m.dueDateStr)
    && |m.intervalStr| > 0 && AllDigits(m.intervalStr)
    && |m.easeStr| > 0 && AllDigits(m.easeStr)
  }

  predicate AllEntryMatches(ms: seq<ScheduleMatch>) {
    forall k :: 0 <= k < |ms| ==> IsEntryMatch(ms[k])
  }

  /** The texts of several matches, one after another. */
  function JoinEntries(ms: seq<ScheduleMatch>): string {
    if ms == [] then "" else EntryString(ms[0]) + JoinEntries(ms[1..])
  }

  /** A match is found at `i` when the three runs end where the separators are. */
  lemma MultiMatchAtRuns(s: string, i: nat, a: nat, b: nat, c: nat)
    requires i + 1 < a < b < c <= |s|
    requires s[i] == '!' && s[a] == ',' && s[b] == ','
    requires DateRunEnd(s, i + 1) == a && DigitRunEnd(s, a + 1) == b && DigitRunEnd(s, b + 1) == c
    requires b > a + 1 && c > b + 1
    ensures MultiMatchAt(s, i) == Some((ScheduleMatch(s[i + 1..a], s[a + 1..b], s[b + 1..c]), c))
  {
  }

  /** Where the groups of a match lie in a text holding the match's text. */
  lemma EntryTextLayout(s: string, i: nat, m: ScheduleMatch)
    requires OccursAt(s, EntryString(m), i)
    ensures var a := i + 1 + |m.dueDateStr|;
            var b := a + 1 + |m.intervalStr|;
            var c := b + 1 + |m.easeStr|;
            c <= |s| && s[i] == '!' && s[a] == ',' && s[b] == ','
            && s[i + 1..a] == m.dueDateStr && s[a + 1..b] == m.intervalStr && s[b + 1..c] == m.easeStr
  {
    var p1 := "!" + m.dueDateStr;
    var p2 := p1 + ",";
    var p3 := p2 + m.intervalStr;
    var p4 := p3 + ",";
    OccursAtConcat(s, p4, m.easeStr, i);
    OccursAtConcat(s, p3, ",", i);
    OccursAtConcat(s, p2, m.intervalStr, i);
    OccursAtConcat(s, p1, ",", i);
    OccursAtConcat(s, "!", m.dueDateStr, i);
  }

  /** A match is found at `i` when its groups lie in the text as `!date,digits,digits`
      followed by anything but a digit. */
  lemma MatchAtLayout(s: string, i: nat, m: ScheduleMatch, a: nat, b: nat, c: nat)
    requires IsEntryMatch(m)
    requires a == i + 1 + |m.dueDateStr| && b == a + 1 + |m.intervalStr| && c == b + 1 + |m.easeStr|
    requires c <= |s| && s[i] == '!' && s[a] == ',' && s[b] == ','
    requires s[i + 1..a] == m.dueDateStr && s[a + 1..b] == m.intervalStr && s[b + 1..c] == m.easeStr
    requires c == |s| || !IsDigit(s[c])
    ensures MultiMatchAt(s, i) == Some((m, c))
  {
    DateRunEndAt(s, i + 1, a);
    DigitRunEndAt(s, a + 1, b);
    DigitRunEndAt(s, b + 1, c);
    MultiMatchAtRuns(s, i, a, b, c);
  }

  /** The text of a match, followed by anything but a digit, is matched as a whole and
      gives that match back. */
  lemma EntryTextMatches(s: string, i: nat, m: ScheduleMatch)
    requires IsEntryMatch(m)
    requires OccursAt(s, EntryString(m), i)
    requires var e := i + |EntryString(m)|; e == |s| || !IsDigit(s[e])
    ensures MultiMatchAt(s, i) == Some((m, i + |EntryString(m)|))
  {
    EntryTextLayout(s, i, m);
    var a := i + 1 + |m.dueDateStr|;
    var b := a + 1 + |m.intervalStr|;
    var c := b + 1 + |m.easeStr|;
    MatchAtLayout(s, i, m, a, b, c);
  }

  /** After a match the scan resumes where the match ends. */
  lemma ScanMultiAtMatch(s: string, i: nat, m: ScheduleMatch, e: nat)
    requires i < |s| && MultiMatchAt(s, i) == Some((m, e))
    ensures ScanMulti(s, i) == [m] + ScanMulti(s, e)
  {
  }

  /** Nothing in `-->` at the end of the text starts a match. */
  lemma CommentEndHasNoEntry(s: string, i: nat)
    requires i <= |s| && s[i..] == SrHtmlCommentEnd
    ensures ScanMulti(s, i) == []
  {
    assert s[i] == '-' && s[i + 1] == '-' && s[i + 2] == '>' && i + 3 == |s|;
    assert MultiMatchAt(s, i + 2) == None;
    assert ScanMulti(s, i + 2) == [];
    assert MultiMatchAt(s, i + 1) == None;
    assert ScanMulti(s, i + 1) == [];
    assert MultiMatchAt(s, i) == None;
  }

  /** The current extractor finds exactly the joined matches, in order, when the
      comment end follows them. */
  lemma {:induction false} ScanJoinedEntries(s: string, i: nat, ms: seq<ScheduleMatch>)
    requires AllEntryMatches(ms)
    requires i <= |s| && s[i..] == JoinEntries(ms) + SrHtmlCommentEnd
    ensures ScanMulti(s, i) == ms
    decreases ms
  {
    if ms == [] {
      CommentEndHasNoEntry(s, i);
    } else {
      var e := i + |EntryString(ms[0])|;
      JoinedHeadLayout(s, i, ms);
      EntryTextMatches(s, i, ms[0]);
      ScanJoinedEntries(s, e, ms[1..]);
      ScanMultiAtMatch(s, i, ms[0], e);
      assert ms == [ms[0]] + ms[1..];
    }
  }

  /** Where joined matches are followed by the comment end, the first match's text
      comes first and is followed by no digit, then the rest. */
  lemma JoinedHeadLayout(s: string, i: nat, ms: seq<ScheduleMatch>)
    requires AllEntryMatches(ms) && ms != []
    requires i <= |s| && s[i..] == JoinEntries(ms) + SrHtmlCommentEnd
    ensures var e := i + |EntryString(ms[0])|;
      IsEntryMatch(ms[0]) && AllEntryMatches(ms[1..])
      && OccursAt(s, EntryString(ms[0]), i) && e < |s| && !IsDigit(s[e])
      && s[e..] == JoinEntries(ms[1..]) + SrHtmlCommentEnd
  {
    var f := EntryString(ms[0]);
    var rest := JoinEntries(ms[1..]);
    var e := i + |f|;
    ConcatAssoc(f, rest, SrHtmlCommentEnd);
    assert s[i..] == f + (rest + SrHtmlCommentEnd);
    assert s[i..e] == f;
    assert s[e..] == rest + SrHtmlCommentEnd;
    assert s[e] == (rest + SrHtmlCommentEnd)[0];
    assert rest != [] ==> rest[0] == EntryString(ms[1])[0];
  }

  /** The pieces of a written schedule. */
  lemma MatchOfEntry(info: RepItemScheduleInfo)
    requires Writable(info)
    ensures IsEntryMatch(MatchOf(info))
    ensures FormatCardScheduleForHtmlComment(info) == EntryString(MatchOf(info))
  {
    DueDateTextShape(info);
  }

  /** The written entries are the texts of their matches. */
  lemma {:induction false} FormatEntriesJoin(infos: seq<RepItemScheduleInfo>)
    requires AllWritable(infos)
    ensures FormatEntries(infos) == JoinEntries(MatchesOf(infos))
    ensures AllEntryMatches(MatchesOf(infos))
  {
    if infos != [] {
      MatchOfEntry(infos[0]);
      FormatEntriesJoin(infos[1..]);
      assert MatchesOf(infos)[1..] == MatchesOf(infos[1..]);
      forall k | 0 <= k < |infos|
        ensures IsEntryMatch(MatchesOf(infos)[k])
      {
        MatchOfEntry(infos[k]);
      }
    }
  }

  /** Nothing in `<!--SR:` starts a match of either extractor, except the legacy
      one at its first character. */
  lemma CommentBeginHasNoEntry(s: string)
    requires StartsWith(s, SrHtmlCommentBegin)
    ensures ScanMulti(s, 0) == ScanMulti(s, 7)
  {
    assert s[..7] == "<!--SR:";
    assert s[0] == '<' && s[1] == '!' && s[2] == '-' && s[3] == '-' && s[4] == 'S';
    assert s[5] == 'R' && s[6] == ':';
    assert s[2..4] == "--";
    DateRunEndAt(s, 2, 4);
    assert MultiMatchAt(s, 1) == None;
    assert ScanMulti(s, 6) == ScanMulti(s, 7);
    assert ScanMulti(s, 5) == ScanMulti(s, 7);
    assert ScanMulti(s, 4) == ScanMulti(s, 7);
    assert ScanMulti(s, 3) == ScanMulti(s, 7);
    assert ScanMulti(s, 2) == ScanMulti(s, 7);
    assert ScanMulti(s, 1) == ScanMulti(s, 7);
  }

  /** The comment of a question without cards holds no schedule in either format. */
  lemma EmptyCommentHasNoEntry()
    ensures ScanLegacy(ScheduleComment([]), 0) == []
  {
    var s := ScheduleComment([]);
    assert s == "<!--SR:-->";
    assert s[7..9] == "--";
    DateRunEndAt(s, 7, 9);
    assert LegacyMatchAt(s, 0) == None;
    assert ScanLegacy(s, 9) == [];
    assert ScanLegacy(s, 8) == [];
    assert ScanLegacy(s, 7) == [];
    assert ScanLegacy(s, 6) == [];
    assert ScanLegacy(s, 5) == [];
    assert ScanLegacy(s, 4) == [];
    assert s[1] == '!' && s[2] == '-' && s[3] == '-';
    assert !OccursAt(s, SrHtmlCommentBegin, 3);
    assert !OccursAt(s, SrHtmlCommentBegin, 2);
    assert !OccursAt(s, SrHtmlCommentBegin, 1);
    assert ScanLegacy(s, 1) == [];
  }

  /** A comment holding the texts of some matches. */
  function CommentText(ms: seq<ScheduleMatch>): string {
    SrHtmlCommentBegin + JoinEntries(ms) + SrHtmlCommentEnd
  }

  /** The current extractor finds in a comment holding the texts of some matches
      exactly those matches, in order. */
  lemma ScanJoinedComment(s: string, ms: seq<ScheduleMatch>)
    requires AllEntryMatches(ms)
    requires |s| >= 7 && s[..7] == SrHtmlCommentBegin && s[7..] == JoinEntries(ms) + SrHtmlCommentEnd
    ensures ScanMulti(s, 0) == ms
  {
    ScanJoinedEntries(s, 7, ms);
    CommentBeginHasNoEntry(s);
  }

  /** What `questionCreateSchedule` reads once both scans are known. */
  lemma ExtractFromScans(s: string, ms: seq<ScheduleMatch>)
    requires ScanMulti(s, 0) == ms && (ms == [] ==> ScanLegacy(s, 0) == [])
    ensures ExtractScheduling(s) == ms
  {
  }

  lemma CommentTextLayout(ms: seq<ScheduleMatch>)
    ensures var s := CommentText(ms);
            |s| >= 7 && s[..7] == SrHtmlCommentBegin && s[7..] == JoinEntries(ms) + SrHtmlCommentEnd
  {
    ConcatAssoc(SrHtmlCommentBegin, JoinEntries(ms), SrHtmlCommentEnd);
  }

  /** The extractors find in a comment holding the texts of some matches exactly those
      matches, in order. */
  lemma ExtractCommentText(ms: seq<ScheduleMatch>)
    requires AllEntryMatches(ms)
    ensures ExtractScheduling(CommentText(ms)) == ms
  {
    CommentTextLayout(ms);
    ScanJoinedComment(CommentText(ms), ms);
    EmptyCommentHasNoEntry();
    assert ms == [] ==> CommentText(ms) == ScheduleComment([]);
    ExtractFromScans(CommentText(ms), ms);
  }

  /** A written comment holds the texts of its cards' matches. */
  lemma ScheduleCommentText(infos: seq<RepItemScheduleInfo>)
    requires AllWritable(infos)
    ensures ScheduleComment(infos) == CommentText(MatchesOf(infos))
    ensures AllEntryMatches(MatchesOf(infos))
  {
    FormatEntriesJoin(infos);
  }

  /** The extractors find in a written comment exactly one match per card, in card order. */
  lemma ExtractScheduleComment(infos: seq<RepItemScheduleInfo>)
    requires AllWritable(infos)
    ensures ExtractScheduling(ScheduleComment(infos)) == MatchesOf(infos)
  {
    ScheduleCommentText(infos);
    ExtractCommentText(MatchesOf(infos));
  }

  /** The date group of a written schedule reads back as its due date, except the
      new-card date, which reads back as none. */
  lemma MatchDueDateOf(s: RepItemScheduleInfo)
    requires Writable(s)
    ensures MatchDueDate(MatchOf(s)) == if s.dueDate == Some(DummyDay()) then None else s.dueDate
  {
    DueDateTextShape(s);
  }

  /** The numeric groups of a written schedule are digit runs that read back as its
      interval and ease. */
  lemma MatchNumbersOf(s: RepItemScheduleInfo)
    requires Writable(s)
    ensures WellFormedMatch(MatchOf(s))
    ensures ParseNat(MatchOf(s).intervalStr) == s.interval
    ensures ParseNat(MatchOf(s).easeStr) == s.latestEase
  {
    ParseNatToString(s.interval);
    ParseNatToString(s.latestEase);
  }

  /** A match whose groups read as a schedule's fields is read back as `ReadBack` says. */
  lemma ScheduleFromMatchFields(today: Day, m: ScheduleMatch, s: RepItemScheduleInfo)
    requires WellFormedMatch(m)
    requires MatchDueDate(m) == (if s.dueDate == Some(DummyDay()) then None else s.dueDate)
    requires ParseNat(m.intervalStr) == s.interval && ParseNat(m.easeStr) == s.latestEase
    ensures ScheduleFromMatch(today, m) == ReadBack(today, s)
  {
    RoundInteger(s.interval);
  }

  /** Each match of a written schedule is read back as `ReadBack` says. */
  lemma ScheduleFromMatchOf(today: Day, s: RepItemScheduleInfo)
    requires Writable(s)
    ensures WellFormedMatch(MatchOf(s))
    ensures ScheduleFromMatch(today, MatchOf(s)) == ReadBack(today, s)
  {
    MatchDueDateOf(s);
    MatchNumbersOf(s);
    ScheduleFromMatchFields(today, MatchOf(s), s);
  }

  /** One written schedule `!date,interval,ease` on its own is one match of the current
      extractor, spanning the whole text, and it is read back as `ReadBack` says. */
  lemma EntryReadBack(today: Day, info: RepItemScheduleInfo)
    requires Writable(info)
    ensures var t := FormatCardScheduleForHtmlComment(info);
      MultiMatchAt(t, 0) == Some((MatchOf(info), |t|))
      && ScheduleFromMatch(today, MatchOf(info)) == ReadBack(today, info)
  {
    MatchOfEntry(info);
    EntryMatchesWhole(MatchOf(info));
    ScheduleFromMatchOf(today, info);
  }

  /** The text of a match, on its own, is that one match. */
  lemma EntryMatchesWhole(m: ScheduleMatch)
    requires IsEntryMatch(m)
    ensures MultiMatchAt(EntryString(m), 0) == Some((m, |EntryString(m)|))
  {
    var t := EntryString(m);
    assert t[0..|t|] == t;
    EntryTextMatches(t, 0, m);
  }

  /** Round trip: `questionCreateSchedule` applied to the comment that
      `questionFormatScheduleAsHtmlComment` writes for a question's cards gives one
      schedule per card, in card order, each with the card's interval and ease, its
      due date unless it had none (or had the new-card date), and the delay from that
      due date to today. */
  lemma CreateScheduleOfComment(today: Day, infos: seq<RepItemScheduleInfo>)
    requires AllWritable(infos)
    ensures var scheduling := ExtractScheduling(ScheduleComment(infos));
            |scheduling| == |infos|
            && forall k :: 0 <= k < |infos| ==>
                 WellFormedMatch(scheduling[k]) && ScheduleFromMatch(today, scheduling[k]) == ReadBack(today, infos[k])
  {
    ExtractScheduleComment(infos);
    forall k | 0 <= k < |infos|
      ensures WellFormedMatch(MatchOf(infos[k]))
      ensures ScheduleFromMatch(today, MatchOf(infos[k])) == ReadBack(today, infos[k])
    {
      ScheduleFromMatchOf(today, infos[k]);
    }
  }

  /* `questionRemoveScheduleInfo`: `questionText.replace(/<!--SR:.+-->/gm, "")`. */

  /** The first line terminator at or after `j`, or the end of the text. */
  function LineEnd(s: string, j: nat): (l: nat)
    requires j <= |s|
    ensures j <= l <= |s|
    decreases |s| - j
  {
    if j < |s| && !IsLineTerminator(s[j]) then LineEnd(s, j + 1) else j
  }

  /** The last start of `-->` that lies in `s[lo..hi]`. */
  function LastEndMarker(s: string, lo: nat, hi: nat): (r: Option<nat>)
    requires hi <= |s|
    ensures r.Some? ==> lo <= r.value && r.value + 3 <= hi
    decreases hi
  {
    if hi < lo + 3 then None
    else if OccursAt(s, SrHtmlCommentEnd, hi - 3) then Some(hi - 3)
    else LastEndMarker(s, lo, hi - 1)
  }

  /** The end of the match of `<!--SR:.+-->` starting at `i`, if there is one. The greedy
      `.+` cannot pass a line terminator, so the match closes at the last `-->` of the
      line that leaves at least one character after `<!--SR:`. */
  function CommentMatchAt(s: string, i: nat): (r: Option<nat>)
    requires i <= |s|
    ensures r.Some? ==> i < r.value <= |s|
  {
    if OccursAt(s, SrHtmlCommentBegin, i) then
      match LastEndMarker(s, i + 8, LineEnd(s, i + 7))
      case Some(k) => Some(k + 3)
      case None => None
    else None
  }

  /** The global replacement from index `i` on: each match is dropped and the search
      resumes after it; every other character is kept. */
  function RemoveFrom(s: string, i: nat): (r: string)
    requires i <= |s|
    ensures |r| <= |s| - i
    decreases |s| - i
  {
    if i == |s| then ""
    else match CommentMatchAt(s, i)
      case Some(e) => RemoveFrom(s, e)
      case None => [s[i]] + RemoveFrom(s, i + 1)
  }

  /** `questionRemoveScheduleInfo`: every `<!--SR:...-->` on one line is removed; the
      text never grows, and a text without `<!--SR:` is kept as it is. */
  function QuestionRemoveScheduleInfo(questionText: string): (r: string)
    ensures |r| <= |questionText|
    ensures !Contains(questionText, SrHtmlCommentBegin) ==> r == questionText
  {
    var r := RemoveFrom(questionText, 0);
    assert !Contains(questionText, SrHtmlCommentBegin) ==> r == questionText by {
      if !Contains(questionText, SrHtmlCommentBegin) {
        RemoveSkips(questionText, 0, |questionText|);
        assert questionText[0..|questionText|] == questionText;
      }
    }
    r
  }

  /** No `<!--SR:` starts in `s[i..n]`. */
  predicate NoCommentStartIn(s: string, i: nat, n: nat) {
    forall j :: i <= j < n ==> !OccursAt(s, SrHtmlCommentBegin, j)
  }

  /** A character where no comment starts is kept. */
  lemma RemoveKeeps(s: string, i: nat)
    requires i < |s| && !OccursAt(s, SrHtmlCommentBegin, i)
    ensures RemoveFrom(s, i) == [s[i]] + RemoveFrom(s, i + 1)
  {
  }

  /** A match is dropped as a whole. */
  lemma RemoveDrops(s: string, i: nat, e: nat)
    requires i < |s| && CommentMatchAt(s, i) == Some(e)
    ensures RemoveFrom(s, i) == RemoveFrom(s, e)
  {
  }

  /** Where no comment starts, the text is kept as it is. */
  lemma {:induction false} RemoveSkips(s: string, i: nat, n: nat)
    requires i <= n <= |s| && NoCommentStartIn(s, i, n)
    ensures RemoveFrom(s, i) == s[i..n] + RemoveFrom(s, n)
    decreases n - i
  {
    if i < n {
      RemoveSkips(s, i + 1, n);
      RemoveKeeps(s, i);
      assert s[i..n] == [s[i]] + s[i + 1..n];
      ConcatAssoc([s[i]], s[i + 1..n], RemoveFrom(s, n));
    } else {
      assert s[i..n] == [];
    }
  }

  /** A text holding no `<!--SR:` is left unchanged. */
  lemma RemoveWithoutComment(s: string)
    requires !Contains(s, SrHtmlCommentBegin)
    ensures QuestionRemoveScheduleInfo(s) == s
  {
    RemoveSkips(s, 0, |s|);
  }

  /** The line containing `s[j..m]` does not end before `m`. */
  lemma {:induction false} LineEndBeyond(s: string, j: nat, m: nat)
    requires j <= m <= |s| && NoLineTerminator(s[j..m])
    ensures LineEnd(s, j) >= m
    decreases m - j
  {
    if j < m {
      assert s[j] == s[j..m][0];
      assert s[j + 1..m] == s[j..m][1..];
      LineEndBeyond(s, j + 1, m);
    }
  }

  /** The last `-->` is the one with none after it. */
  lemma {:induction false} LastEndMarkerIs(s: string, lo: nat, hi: nat, k: nat)
    requires hi <= |s| && lo <= k && k + 3 <= hi && OccursAt(s, SrHtmlCommentEnd, k)
    requires forall j :: k < j && j + 3 <= hi ==> !OccursAt(s, SrHtmlCommentEnd, j)
    ensures LastEndMarker(s, lo, hi) == Some(k)
    decreases hi
  {
    if hi - 3 != k {
      LastEndMarkerIs(s, lo, hi - 1, k);
    }
  }

  /** The shape of a schedule comment the replacement removes as a whole: `<!--SR:`, at
      least one character, `-->`, all on one line. */
  predicate CommentShape(c: string) {
    |c| >= 11 && StartsWith(c, SrHtmlCommentBegin) && EndsWith(c, SrHtmlCommentEnd)
    && NoLineTerminator(c)
  }

  /** Text before a comment, ending in white space, in which no comment starts. */
  predicate CleanBefore(a: string) {
    !Contains(a, SrHtmlCommentBegin) && (a == [] || IsWhiteSpace(a[|a| - 1]))
  }

  /** Text after a comment, with neither a comment start nor a `-->` in it. */
  predicate CleanAfter(b: string) {
    !Contains(b, SrHtmlCommentBegin) && !Contains(b, SrHtmlCommentEnd)
  }

  /** No comment starts inside clean text, nor across its end. */
  lemma NoCommentStartAtBefore(a: string, rest: string, j: nat)
    requires CleanBefore(a) && j < |a|
    ensures !OccursAt(a + rest, SrHtmlCommentBegin, j)
  {
    var s := a + rest;
    if j + 7 <= |a| {
      if OccursAt(s, SrHtmlCommentBegin, j) {
        OccursInPrefix(a, rest, SrHtmlCommentBegin, j);
      }
    } else {
      assert s[|a| - 1] == a[|a| - 1];
    }
  }

  lemma NoCommentStartBefore(a: string, rest: string)
    requires CleanBefore(a)
    ensures NoCommentStartIn(a + rest, 0, |a|)
  {
    forall j | 0 <= j < |a|
      ensures !OccursAt(a + rest, SrHtmlCommentBegin, j)
    {
      NoCommentStartAtBefore(a, rest, j);
    }
  }

  lemma NoCommentStartAfter(x: string, b: string)
    requires CleanAfter(b)
    ensures NoCommentStartIn(x + b, |x|, |x + b|)
  {
    forall j | |x| <= j < |x + b|
      ensures !OccursAt(x + b, SrHtmlCommentBegin, j)
    {
      if OccursAt(x + b, SrHtmlCommentBegin, j) {
        OccursInSuffix(x, b, SrHtmlCommentBegin, j);
      }
    }
  }

  /** After the `-->` that closes a comment, no other `-->` starts on its line. */
  lemma NoLaterEndMarker(x: string, b: string, j: nat)
    requires EndsWith(x, SrHtmlCommentEnd) && CleanAfter(b)
    requires |x| - 3 < j && j + 3 <= |x + b|
    ensures !OccursAt(x + b, SrHtmlCommentEnd, j)
  {
    var s := x + b;
    if j < |x| {
      assert s[|x| - 1] == x[|x| - 1] == x[|x| - 3..][2];
    } else if OccursAt(s, SrHtmlCommentEnd, j) {
      OccursInSuffix(x, b, SrHtmlCommentEnd, j);
    }
  }

  /** The match starting at a comment ends with that comment. */
  lemma CommentMatchesWhole(a: string, c: string, b: string)
    requires CommentShape(c) && CleanAfter(b)
    ensures CommentMatchAt(a + c + b, |a|) == Some(|a| + |c|)
  {
    var s := a + c + b;
    var e := |a| + |c|;
    CommentMarkers(a, c, b);
    var l := LineEnd(s, |a| + 7);
    NoEndMarkerAfterComment(a, c, b, l);
    LastEndMarkerIs(s, |a| + 8, l, e - 3);
  }

  /** A comment placed in a text starts with the begin marker, ends with the end
      marker, and its line reaches at least its end. */
  lemma CommentMarkers(a: string, c: string, b: string)
    requires CommentShape(c)
    ensures OccursAt(a + c + b, SrHtmlCommentBegin, |a|)
    ensures OccursAt(a + c + b, SrHtmlCommentEnd, |a| + |c| - 3)
    ensures LineEnd(a + c + b, |a| + 7) >= |a| + |c|
  {
    var s := a + c + b;
    var e := |a| + |c|;
    assert s[|a|..e] == c;
    assert s[|a|..|a| + 7] == c[..7];
    assert s[e - 3..e] == c[|c| - 3..];
    LineEndBeyond(s, |a| + 7, e) by {
      assert s[|a| + 7..e] == c[7..];
    }
  }

  /** After a comment, clean text holds no end marker. */
  lemma NoEndMarkerAfterComment(a: string, c: string, b: string, l: nat)
    requires CommentShape(c) && CleanAfter(b)
    ensures forall j :: |a| + |c| - 3 < j && j + 3 <= l && l <= |a + c + b| ==> !OccursAt(a + c + b, SrHtmlCommentEnd, j)
  {
    var e := |a| + |c|;
    assert EndsWith(a + c, SrHtmlCommentEnd) by {
      assert (a + c)[e - 3..] == c[|c| - 3..];
    }
    assert a + c + b == (a + c) + b;
    forall j | e - 3 < j && j + 3 <= l && l <= |a + c + b|
      ensures !OccursAt(a + c + b, SrHtmlCommentEnd, j)
    {
      NoLaterEndMarker(a + c, b, j);
    }
  }

  /** The text of a match stays on one line. */
  lemma EntryStringOneLine(m: ScheduleMatch)
    requires IsEntryMatch(m)
    ensures NoLineTerminator(EntryString(m))
  {
    DateCharsOneLine(m.dueDateStr);
    assert AllDateChars(m.intervalStr) && AllDateChars(m.easeStr);
    DateCharsOneLine(m.intervalStr);
    DateCharsOneLine(m.easeStr);
    NoLineTerminatorConcat("!", m.dueDateStr);
    NoLineTerminatorConcat("!" + m.dueDateStr, ",");
    NoLineTerminatorConcat("!" + m.dueDateStr + ",", m.intervalStr);
    NoLineTerminatorConcat("!" + m.dueDateStr + "," + m.intervalStr, ",");
    NoLineTerminatorConcat("!" + m.dueDateStr + "," + m.intervalStr + ",", m.easeStr);
  }

  /** The texts of several matches stay on one line, and are not empty when there is
      a match. */
  lemma {:induction false} JoinEntriesOneLine(ms: seq<ScheduleMatch>)
    requires AllEntryMatches(ms)
    ensures NoLineTerminator(JoinEntries(ms))
    ensures ms != [] ==> |JoinEntries(ms)| > 0
  {
    if ms != [] {
      assert IsEntryMatch(ms[0]);
      EntryStringOneLine(ms[0]);
      JoinEntriesOneLine(ms[1..]);
      NoLineTerminatorConcat(EntryString(ms[0]), JoinEntries(ms[1..]));
    }
  }

  /** A comment holding at least one match has the shape the replacement removes. */
  lemma CommentTextShape(ms: seq<ScheduleMatch>)
    requires ms != [] && AllEntryMatches(ms)
    ensures CommentShape(CommentText(ms))
  {
    var c := CommentText(ms);
    JoinEntriesOneLine(ms);
    NoLineTerminatorConcat(SrHtmlCommentBegin, JoinEntries(ms));
    NoLineTerminatorConcat(SrHtmlCommentBegin + JoinEntries(ms), SrHtmlCommentEnd);
    assert c[..7] == SrHtmlCommentBegin;
    assert c[|c| - 3..] == SrHtmlCommentEnd;
  }

  /** The comment written for at least one card has that shape. */
  lemma ScheduleCommentShape(infos: seq<RepItemScheduleInfo>)
    requires infos != [] && AllWritable(infos)
    ensures CommentShape(ScheduleComment(infos))
  {
    ScheduleCommentText(infos);
    CommentTextShape(MatchesOf(infos));
  }

  /** From the start of a comment on, only the text after it is left. */
  lemma RemoveFromComment(a: string, c: string, b: string)
    requires CommentShape(c) && CleanAfter(b)
    ensures RemoveFrom(a + c + b, |a|) == b
  {
    var s := a + c + b;
    var e := |a| + |c|;
    CommentMatchesWhole(a, c, b);
    RemoveDrops(s, |a|, e);
    assert s == (a + c) + b;
    NoCommentStartAfter(a + c, b);
    RemoveSkips(s, e, |s|);
    assert s[e..] == b;
  }

  /** A comment of that shape, between text that ends in white space and holds no
      comment and text that holds neither a comment start nor `-->`, is removed and
      nothing else is. */
  lemma RemoveCommentBetween(a: string, c: string, b: string)
    requires CleanBefore(a) && CommentShape(c) && CleanAfter(b)
    ensures QuestionRemoveScheduleInfo(a + c + b) == a + b
  {
    var s := a + c + b;
    assert s == a + (c + b);
    NoCommentStartBefore(a, c + b);
    RemoveSkips(s, 0, |a|);
    assert s[..|a|] == a;
    RemoveFromComment(a, c, b);
  }

  /** Removing the schedule information takes out exactly the comment written for the
      cards, when the text before it ends in white space and holds no comment and the
      text after it holds neither a comment start nor `-->`. */
  lemma RemoveWrittenComment(a: string, infos: seq<RepItemScheduleInfo>, b: string)
    requires infos != [] && AllWritable(infos)
    requires CleanBefore(a) && CleanAfter(b)
    ensures QuestionRemoveScheduleInfo(a + ScheduleComment(infos) + b) == a + b
  {
    ScheduleCommentShape(infos);
    RemoveCommentBetween(a, ScheduleComment(infos), b);
  }
}
