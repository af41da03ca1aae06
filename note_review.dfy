/** The scheduling rules of the note-review mode (`main.ts`): the ease and interval
    update after a review, the fuzz applied to long intervals, the spreading of new
    notes over days that still have room, the choice of the next overdue note, and the
    line count that decides whether a note has content. Reading and writing notes, the
    clock and the status bar are left to the caller: days are counted from today, and
    the random numbers become parameters. */
module NoteReview {
  import opened Wrappers
  import opened Text

  /** A Hard response never takes the ease below this. */
  const MinimumEase := 130
  /** How much an Easy response adds to the ease and a Hard response takes away. */
  const EaseStep := 20
  /** Intervals of at least this many days are fuzzed. */
  const FuzzThreshold := 8
  /** The review quality the "Easy" menu item reports; "Hard" reports 0. */
  const EasyQuality := 1

  /** `Math.round(a / b)` for a positive `b`: the nearest integer, halves rounded up. */
  function RoundDiv(a: int, b: int): (r: int)
    requires b > 0
    ensures 2 * b * r - b <= 2 * a < 2 * b * r + b
  {
    var q := (2 * a + b) / (2 * b);
    assert 2 * b * q <= 2 * a + b < 2 * b * q + 2 * b by {
      DivBounds(2 * a + b, 2 * b);
    }
    q
  }

  /** `Math.ceil(a / b)` for a positive `b`. */
  function CeilDiv(a: int, b: int): (r: int)
    requires b > 0
    ensures b * (r - 1) < a <= b * r
  {
    var q := (a + b - 1) / b;
    assert b * q <= a + b - 1 < b * q + b by {
      DivBounds(a + b - 1, b);
    }
    q
  }

  lemma DivBounds(a: int, b: int)
    requires b > 0
    ensures b * (a / b) <= a < b * (a / b) + b
  {
  }

  /** The new ease: an Easy review raises it by 20, a Hard one lowers it by 20 but not
      below 130. */
  function NewEase(quality: int, ease: int): (r: int)
    ensures quality == EasyQuality ==> r == ease + EaseStep
    ensures quality != EasyQuality ==>
      r >= MinimumEase && r <= Max(ease - EaseStep, MinimumEase) && (ease - EaseStep >= MinimumEase ==> r == ease - EaseStep)
  {
    if quality == EasyQuality then ease + EaseStep else Max(MinimumEase, ease - EaseStep)
  }

  function Max(a: int, b: int): int
  {
    if a >= b then a else b
  }

  /** An Easy review undoes a Hard one whenever the Hard one was not held up by the
      minimum ease. */
  lemma EasyUndoesHard(ease: int)
    requires ease - EaseStep >= MinimumEase
    ensures NewEase(EasyQuality, NewEase(0, ease)) == ease
  {
  }

  /** The interval before fuzz: after an Easy review the old interval times the new ease
      in percent, after a Hard one the old interval times the lapse change in percent,
      rounded to the nearest day and at least one day. */
  function NewInterval(quality: int, interval: int, newEase: int, lapsesIntervalChange: int): (r: int)
    ensures r >= 1
    ensures var x := if quality == EasyQuality then interval * newEase else interval * lapsesIntervalChange;
      (2 * x < 300 ==> r == 1) && (2 * x >= 300 ==> 200 * r - 100 <= 2 * x < 200 * r + 100)
  {
    Max(1, RoundDiv(if quality == EasyQuality then interval * newEase else interval * lapsesIntervalChange, 100))
  }

  /** An Easy review with an ease of at least 100% never shortens an interval. */
  lemma {:induction false} EasyNeverShortens(interval: int, newEase: int, lapsesIntervalChange: int)
    requires interval >= 1 && newEase >= 100
    ensures NewInterval(EasyQuality, interval, newEase, lapsesIntervalChange) >= interval
  {
    var r := RoundDiv(interval * newEase, 100);
    assert interval * newEase >= interval * 100 by {
      assert interval * newEase - interval * 100 == interval * (newEase - 100);
    }
  }

  /** A Hard review with a lapse change below 100% never lengthens an interval. */
  lemma {:induction false} HardNeverLengthens(quality: int, interval: int, newEase: int, lapsesIntervalChange: int)
    requires quality != EasyQuality && interval >= 1 && 0 <= lapsesIntervalChange < 100
    ensures NewInterval(quality, interval, newEase, lapsesIntervalChange) <= interval
  {
    var r := RoundDiv(interval * lapsesIntervalChange, 100);
    assert interval * lapsesIntervalChange <= interval * 99 by {
      assert interval * 99 - interval * lapsesIntervalChange == interval * (99 - lapsesIntervalChange);
    }
  }

  /** The outcome of the random draw that fuzzes an interval: a third of the draws
      shorten it, a third keep it, a third lengthen it. */
  datatype FuzzChoice = Shorten | Keep | Lengthen

  /** An interval of at least 8 days moves by `-f`, `0` or `+f` days, where `f` is 5% of
      the interval rounded up; shorter intervals are kept. */
  function Fuzz(interval: int, choice: FuzzChoice): (r: int)
    ensures interval < FuzzThreshold ==> r == interval
    ensures interval >= FuzzThreshold ==> 20 * (r - interval) < interval + 20 && 20 * (interval - r) < interval + 20
    ensures interval >= FuzzThreshold ==> r >= interval - interval / 20 - 1 >= 1
    ensures interval >= FuzzThreshold && choice == Shorten ==> 20 * (interval - r - 1) < interval <= 20 * (interval - r)
    ensures interval >= FuzzThreshold && choice == Keep ==> r == interval
    ensures interval >= FuzzThreshold && choice == Lengthen ==> 20 * (r - interval - 1) < interval <= 20 * (r - interval)
  {
    if interval >= FuzzThreshold then
      var f := CeilDiv(interval, 20);
      match choice
      case Shorten => interval - f
      case Keep => interval
      case Lengthen => interval + f
    else
      interval
  }

  /** The three draws give `interval - f`, `interval` and `interval + f` for one step
      `f >= 1`, which is 5% of the interval rounded up. */
  lemma FuzzOutcomesDiffer(interval: int)
    requires interval >= FuzzThreshold
    ensures var f := Fuzz(interval, Lengthen) - interval;
      f >= 1 && 20 * (f - 1) < interval <= 20 * f
      && Fuzz(interval, Keep) == interval && Fuzz(interval, Shorten) == interval - f
  {
  }

  /** `saveReviewResponse`: the interval and ease written back after a review with the
      given quality, starting from the interval and ease read from the note. */
  function ReviewedSchedule(quality: int, interval: int, ease: int, lapsesIntervalChange: int, choice: FuzzChoice)
    : (r: (int, int))
    ensures r.0 >= 1
    ensures r.1 == NewEase(quality, ease)
    ensures r.0 == Fuzz(NewInterval(quality, interval, r.1, lapsesIntervalChange), choice)
  {
    var newEase := NewEase(quality, ease);
    (Fuzz(NewInterval(quality, interval, newEase, lapsesIntervalChange), choice), newEase)
  }

  // ---------------------------------------------------------------------------------
  // Spreading new notes over the days ahead (`sync`).

  /** The notes scheduled on each day, keyed by the number of days from today. */
  type Buckets = map<int, set<string>>

  /** The number of notes already scheduled on `day`. */
  function BucketSize(scheduled: Buckets, day: int): nat
  {
    if day in scheduled then |scheduled[day]| else 0
  }

  /** The days from `day` on that hold a bucket. */
  function DaysFrom(scheduled: Buckets, day: int): set<int>
  {
    set k | k in scheduled && k >= day
  }

  /** `day` is the first day at or after `from` whose bucket holds fewer than
      `threshold` notes. */
  predicate IsFirstFreeDay(scheduled: Buckets, threshold: int, from: int, day: int)
  {
    from <= day && BucketSize(scheduled, day) < threshold
    && forall k :: from <= k < day ==> BucketSize(scheduled, k) >= threshold
  }

  /** Leaving a full day behind leaves one fewer day with a bucket ahead. */
  lemma DaysFromShrinks(scheduled: Buckets, day: int)
    requires day in scheduled
    ensures |DaysFrom(scheduled, day + 1)| < |DaysFrom(scheduled, day)|
  {
    assert DaysFrom(scheduled, day + 1) == DaysFrom(scheduled, day) - {day};
  }

  /** The first day at or after `from` with room, as a specification. */
  ghost function FreeDay(scheduled: Buckets, threshold: int, from: int): int
    requires threshold >= 1
    decreases |DaysFrom(scheduled, from)|
  {
    if BucketSize(scheduled, from) < threshold then from
    else
      DaysFromShrinks(scheduled, from);
      FreeDay(scheduled, threshold, from + 1)
  }

  /** `FreeDay` is the first day with room, and it is the only such day. */
  lemma {:induction false} FreeDayIsFirst(scheduled: Buckets, threshold: int, from: int, day: int)
    requires threshold >= 1
    ensures IsFirstFreeDay(scheduled, threshold, from, FreeDay(scheduled, threshold, from))
    ensures IsFirstFreeDay(scheduled, threshold, from, day) <==> day == FreeDay(scheduled, threshold, from)
    decreases |DaysFrom(scheduled, from)|
  {
    if BucketSize(scheduled, from) >= threshold {
      DaysFromShrinks(scheduled, from);
      FreeDayIsFirst(scheduled, threshold, from + 1, day);
    }
  }

  /** The place of each new note and the buckets once they are all placed: each note
      goes to the first day with room at or after the day the previous note went to. */
  ghost function Placement(scheduled: Buckets, threshold: int, from: int, notes: seq<string>): (seq<int>, Buckets)
    requires threshold >= 1
    decreases |notes|
  {
    if notes == [] then ([], scheduled)
    else
      var day := FreeDay(scheduled, threshold, from);
      var bucket := if day in scheduled then scheduled[day] else {};
      var rest := Placement(scheduled[day := bucket + {notes[0]}], threshold, day, notes[1..]);
      ([day] + rest.0, rest.1)
  }

  /** Every note is placed, on days that never go back and never come before `from`,
      in the bucket of its day, and no bucket loses a note. */
  lemma {:induction false} PlacementKeepsOrder(scheduled: Buckets, threshold: int, from: int, notes: seq<string>)
    requires threshold >= 1
    ensures var (days, after) := Placement(scheduled, threshold, from, notes);
      |days| == |notes|
      && (forall j :: 0 <= j < |days| ==> from <= days[j])
      && (forall j :: 0 <= j < |days| - 1 ==> days[j] <= days[j + 1])
      && (forall j :: 0 <= j < |days| ==> days[j] in after && notes[j] in after[days[j]])
      && (forall d :: d in scheduled ==> d in after && scheduled[d] <= after[d])
    decreases |notes|
  {
    if notes != [] {
      var day := FreeDay(scheduled, threshold, from);
      FreeDayIsFirst(scheduled, threshold, from, day);
      var bucket := if day in scheduled then scheduled[day] else {};
      var next := scheduled[day := bucket + {notes[0]}];
      PlacementKeepsOrder(next, threshold, day, notes[1..]);
      var (days, after) := Placement(scheduled, threshold, from, notes);
      var rest := Placement(next, threshold, day, notes[1..]);
      assert days == [day] + rest.0 && after == rest.1;
      forall j | 0 <= j < |days|
        ensures days[j] in after && notes[j] in after[days[j]]
      {
        if j == 0 {
          assert day in next && notes[0] in next[day];
        } else {
          assert days[j] == rest.0[j - 1] && notes[j] == notes[1..][j - 1];
        }
      }
      forall d | d in scheduled
        ensures d in after && scheduled[d] <= after[d]
      {
        assert d in next && scheduled[d] <= next[d];
      }
    }
  }

  /** The due dates of the notes, as the plugin keeps them during `sync`. */
  class NoteScheduler {
    var scheduledNotes: Buckets
    /** `load_balancing_threshold`: the settings accept only values of at least 1. */
    const loadBalancingThreshold: int

    constructor (scheduled: Buckets, threshold: int)
      requires threshold >= 1
      ensures scheduledNotes == scheduled && loadBalancingThreshold == threshold
    {
      scheduledNotes := scheduled;
      loadBalancingThreshold := threshold;
    }

    /** The `while` loop of `sync`: steps `i` from the current day `n` until it finds a
        day with room. */
    method FirstFreeDay(n: int) returns (day: int)
      requires loadBalancingThreshold >= 1
      ensures IsFirstFreeDay(scheduledNotes, loadBalancingThreshold, n, day)
      ensures day == FreeDay(scheduledNotes, loadBalancingThreshold, n)
    {
      var i := 0;
      while BucketSize(scheduledNotes, n + i) >= loadBalancingThreshold
        invariant i >= 0
        invariant forall k :: n <= k < n + i ==> BucketSize(scheduledNotes, k) >= loadBalancingThreshold
        decreases |DaysFrom(scheduledNotes, n + i)|
      {
        DaysFromShrinks(scheduledNotes, n + i);
        i := i + 1;
      }
      day := n + i;
      FreeDayIsFirst(scheduledNotes, loadBalancingThreshold, n, day);
    }

    /** The new-note loop of `sync`: starting tomorrow, each new note is scheduled on the
        first day with room at or after the day of the note before it. */
    method ScheduleNewNotes(newNotes: seq<string>) returns (days: seq<int>)
      requires loadBalancingThreshold >= 1
      modifies this`scheduledNotes
      ensures (days, scheduledNotes) == old(Placement(scheduledNotes, loadBalancingThreshold, 1, newNotes))
    {
      ghost var target := Placement(scheduledNotes, loadBalancingThreshold, 1, newNotes);
      var n := 1;
      days := [];
      assert newNotes[0..] == newNotes;
      for j := 0 to |newNotes|
        invariant target.0 == days + Placement(scheduledNotes, loadBalancingThreshold, n, newNotes[j..]).0
        invariant target.1 == Placement(scheduledNotes, loadBalancingThreshold, n, newNotes[j..]).1
      {
        var day := FirstFreeDay(n);
        var bucket := if day in scheduledNotes then scheduledNotes[day] else {};
        ghost var rest := Placement(scheduledNotes[day := bucket + {newNotes[j]}], loadBalancingThreshold, day, newNotes[j + 1..]);
        assert newNotes[j..][1..] == newNotes[j + 1..];
        assert Placement(scheduledNotes, loadBalancingThreshold, n, newNotes[j..]) == ([day] + rest.0, rest.1);
        assert days + ([day] + rest.0) == (days + [day]) + rest.0;
        n := day;
        scheduledNotes := scheduledNotes[day := bucket + {newNotes[j]}];
        days := days + [day];
      }
      assert newNotes[|newNotes|..] == [];
      assert Placement(scheduledNotes, loadBalancingThreshold, n, []) == ([], scheduledNotes);
      assert days + [] == days;
    }
  }

  // ---------------------------------------------------------------------------------
  // Opening the next overdue note (`reviewNextNote`).

  /** An overdue note as `sync` records it: its path, due time, interval and ease. */
  datatype OverdueNote = OverdueNote(path: string, dueUnix: int, interval: int, ease: int)

  /** The note to open: none when nothing is overdue, otherwise a note with the earliest
      due time. The scan starts from the note at `start` (the random pick, or 0) and
      only a strictly earlier note replaces it, so the start note is kept when it is
      already earliest and otherwise the first earliest note is taken. */
  method ReviewNextNote(overdueNotes: seq<OverdueNote>, start: nat) returns (r: Option<OverdueNote>)
    requires overdueNotes != [] ==> start < |overdueNotes|
    ensures r.None? <==> overdueNotes == []
    ensures r.Some? ==> r.value in overdueNotes && forall n :: n in overdueNotes ==> r.value.dueUnix <= n.dueUnix
    ensures r.Some? && overdueNotes[start].dueUnix == r.value.dueUnix ==> r.value == overdueNotes[start]
    ensures r.Some? && overdueNotes[start].dueUnix != r.value.dueUnix ==>
      exists k :: 0 <= k < |overdueNotes| && r.value == overdueNotes[k]
        && forall m :: 0 <= m < k ==> overdueNotes[m].dueUnix > r.value.dueUnix
  {
    if |overdueNotes| == 0 {
      return None;
    }
    var cNote := overdueNotes[start];
    ghost var c := start;
    for i := 0 to |overdueNotes|
      invariant 0 <= c < |overdueNotes| && cNote == overdueNotes[c]
      invariant cNote.dueUnix <= overdueNotes[start].dueUnix
      invariant forall m :: 0 <= m < i ==> cNote.dueUnix <= overdueNotes[m].dueUnix
      invariant c == start || (c < i && forall m :: 0 <= m < c ==> overdueNotes[m].dueUnix > cNote.dueUnix)
      invariant c != start ==> cNote.dueUnix < overdueNotes[start].dueUnix
    {
      if overdueNotes[i].dueUnix < cNote.dueUnix {
        cNote := overdueNotes[i];
        c := i;
      }
    }
    r := Some(cNote);
  }

  // ---------------------------------------------------------------------------------
  // The length of a note (`getFileLength`).

  /** The number of line breaks, where `\r\n`, a lone `\r` and a lone `\n` each count
      once, as `split(/\r\n|\r|\n/)` takes them. */
  function LineBreaks(s: string): nat
    decreases |s|
  {
    if s == [] then 0
    else if s[0] == '\r' && |s| >= 2 && s[1] == '\n' then 1 + LineBreaks(s[2..])
    else if s[0] == '\r' || s[0] == '\n' then 1 + LineBreaks(s[1..])
    else LineBreaks(s[1..])
  }

  /** The number of pieces `split(/\r\n|\r|\n/)` gives: one more than the breaks. */
  function LineCount(s: string): nat
  {
    LineBreaks(s) + 1
  }

  /** Breaks are counted separately on either side of a cut that does not fall inside
      a `\r\n`. */
  lemma {:induction false} LineBreaksAppend(a: string, b: string)
    requires a == [] || a[|a| - 1] != '\r'
    ensures LineBreaks(a + b) == LineBreaks(a) + LineBreaks(b)
    decreases |a|
  {
    if a == [] {
      assert a + b == b;
    } else {
      assert (a + b)[0] == a[0];
      assert |a| >= 2 ==> (a + b)[1] == a[1];
      assert |a| == 1 ==> a[0] != '\r';
      if a[0] == '\r' && |a| >= 2 && a[1] == '\n' {
        assert (a + b)[2..] == a[2..] + b;
        LineBreaksAppend(a[2..], b);
      } else {
        assert (a + b)[1..] == a[1..] + b;
        LineBreaksAppend(a[1..], b);
      }
    }
  }

  /** The start of the line after the one beginning at `p`, when that line holds only
      characters `.` matches and ends with `\n`. */
  function NextLine(s: string, p: nat): (r: Option<nat>)
    requires p <= |s|
    ensures r.Some? ==>
      p < r.value <= |s| && s[r.value - 1] == '\n' && NoLineTerminator(s[p..r.value - 1])
    decreases |s| - p
  {
    if p == |s| || (IsLineTerminator(s[p]) && s[p] != '\n') then None
    else if s[p] == '\n' then Some(p + 1)
    else
      var r := NextLine(s, p + 1);
      if r.Some? then
        assert s[p..r.value - 1] == [s[p]] + s[p + 1..r.value - 1];
        r
      else None
  }

  /** `q` is reached from the line start `p` by whole lines, each of characters `.`
      matches followed by `\n`: the positions `(?:.*\n)*` can stop at. */
  predicate Reachable(s: string, p: nat, q: nat)
    decreases |s| - p
  {
    p <= |s| && (p == q || (NextLine(s, p).Some? && Reachable(s, NextLine(s, p).value, q)))
  }

  /** A position reached by whole lines lies at or after the start and at a line start. */
  lemma {:induction false} ReachableIsLineStart(s: string, p: nat, q: nat)
    requires Reachable(s, p, q)
    ensures p <= q <= |s|
    ensures q == p || s[q - 1] == '\n'
    decreases |s| - p
  {
    if p != q {
      ReachableIsLineStart(s, NextLine(s, p).value, q);
    }
  }

  /** Where the closing `---` of the front matter starts, for a body whose lines start
      at `p`: the `(?:.*\n)*` of the regular expression is greedy, so the last line
      start reachable through whole lines that holds `---` wins. */
  function ClosingMarker(s: string, p: nat): (r: Option<nat>)
    requires p <= |s|
    ensures r.Some? ==> Reachable(s, p, r.value) && OccursAt(s, "---", r.value)
    ensures r.Some? ==> forall q: nat :: Reachable(s, p, q) && OccursAt(s, "---", q) ==> q <= r.value
    ensures r.None? ==> forall q: nat :: Reachable(s, p, q) ==> !OccursAt(s, "---", q)
    decreases |s| - p
  {
    var next := NextLine(s, p);
    var later := if next.Some? then ClosingMarker(s, next.value) else None;
    if later.Some? then
      ReachableIsLineStart(s, next.value, later.value);
      later
    else if OccursAt(s, "---", p) then Some(p)
    else None
  }

  /** The text `/^---\n((?:.*\n)*)---/` matches at the start of the note, if any: the
      opening line, whole lines, and the last `---` reached that way. */
  function FrontMatter(s: string): (r: Option<string>)
    ensures r.Some? ==> StartsWith(s, r.value) && StartsWith(r.value, "---\n") && EndsWith(r.value, "---")
    ensures r.Some? <==> StartsWith(s, "---\n") && exists q: nat :: Reachable(s, 4, q) && OccursAt(s, "---", q)
    ensures r.Some? ==>
      |r.value| >= 3 && Reachable(s, 4, |r.value| - 3)
      && (forall q: nat :: Reachable(s, 4, q) && OccursAt(s, "---", q) ==> q <= |r.value| - 3)
  {
    if StartsWith(s, "---\n") then
      var close := ClosingMarker(s, 4);
      if close.Some? then
        ReachableIsLineStart(s, 4, close.value);
        var m := s[..close.value + 3];
        assert m[..4] == s[..4];
        assert m[|m| - 3..] == s[close.value..close.value + 3];
        Some(m)
      else None
    else None
  }

  /** `getFileLength`: the lines of the note minus the lines of its front matter. */
  function GetFileLength(s: string): (r: int)
    ensures FrontMatter(s).None? ==> r == LineCount(s)
    ensures FrontMatter(s).Some? ==> r == LineBreaks(s[|FrontMatter(s).value|..])
  {
    var front := FrontMatter(s);
    var frontLength := if front.None? then 0 else LineCount(front.value);
    if front.Some? then
      var m := front.value;
      assert s == m + s[|m|..];
      assert m[|m| - 1] == '-' by {
        assert m[|m| - 3..][2] == '-';
      }
      LineBreaksAppend(m, s[|m|..]);
      LineCount(s) - frontLength
    else
      LineCount(s) - frontLength
  }

  /** A note is scheduled only when it is not marked `review: ignore` and has more than
      one line besides its front matter. */
  function HasReviewableContent(s: string): (r: bool)
    ensures r ==> !Contains(s, "review: ignore")
    ensures !Contains(s, "review: ignore") && FrontMatter(s).None? ==> (r <==> LineCount(s) > 1)
    ensures !Contains(s, "review: ignore") && FrontMatter(s).Some? ==>
      (r <==> LineBreaks(s[|FrontMatter(s).value|..]) > 1)
  {
    !Contains(s, "review: ignore") && GetFileLength(s) > 1
  }
}
