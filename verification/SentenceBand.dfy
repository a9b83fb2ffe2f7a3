/** The sentence-band progression signal (src/literacy/literacy-lesson/sentence-band-signal.utils.ts). */
module SentenceBand {
  import opened Options
  import opened StableSort

  const SENTENCE_RECENT_ROWS_WINDOW: nat := 18

  datatype TurnRow = TurnRow(rn: int, isDone: bool, stid: Option<string>, answerCorrect: Option<bool>)

  datatype LessonFlags = LessonFlags(firstTryPass: bool, enteredImage: bool, failedOut: bool)

  datatype Decision = Increment | Decrement | Hold

  datatype Signal = Signal(
    decision: Decision, doneInWindow: nat, lowCompletionDecrement: bool,
    bothFirstTryPass: bool, bothEnteredImage: bool, bothFailedOut: bool)

  predicate EndsWith(s: string, suffix: string) { |suffix| <= |s| && s[|s| - |suffix|..] == suffix }

  function Stid(r: TurnRow): string { if r.stid.Some? then r.stid.value else "" }

  predicate AnyEndsWith(rows: seq<TurnRow>, suffix: string) {
    exists k :: 0 <= k < |rows| && EndsWith(Stid(rows[k]), suffix)
  }

  /** The flags of one lesson, whose first row is its done row. */
  function FlagsOf(rows: seq<TurnRow>): LessonFlags
    requires rows != []
  {
    var flowLesson := AnyEndsWith(rows, "-passage-comprehension-initial")
        && EndsWith(Stid(rows[0]), "-comprehension-complete");
    LessonFlags(
      AnyEndsWith(rows, "-sentence-comprehension-correct-first")
        || AnyEndsWith(rows, "-sentence-complete-correct-first")
        || (flowLesson && rows[0].answerCorrect == Some(true)),
      AnyEndsWith(rows, "-letter-image-wrong"),
      Stid(rows[0]) == "sentence-sentence-complete-maxErrors" || (flowLesson && rows[0].answerCorrect == Some(false)))
  }

  ghost predicate Ends(r: TurnRow, suffix: string) { exists p: string :: r.stid == Some(p + suffix) }

  ghost predicate SomeEnds(rows: seq<TurnRow>, suffix: string) { exists r :: r in rows && Ends(r, suffix) }

  lemma EndsIsEndsWith(rows: seq<TurnRow>, suffix: string)
    requires suffix != ""
    ensures AnyEndsWith(rows, suffix) <==> SomeEnds(rows, suffix)
    ensures forall r :: r in rows ==> (EndsWith(Stid(r), suffix) <==> Ends(r, suffix))
  {
    forall r | r in rows ensures EndsWith(Stid(r), suffix) <==> Ends(r, suffix) {
      if EndsWith(Stid(r), suffix) {
        var s := r.stid.value;
        assert s == s[..|s| - |suffix|] + suffix;
      }
      if p: string :| r.stid == Some(p + suffix) { assert (p + suffix)[|p|..] == suffix; }
    }
    hide EndsWith, Ends;
    if AnyEndsWith(rows, suffix) {
      var k :| 0 <= k < |rows| && EndsWith(Stid(rows[k]), suffix);
      assert rows[k] in rows;
    }
    if r :| r in rows && Ends(r, suffix) {
      var k :| 0 <= k < |rows| && rows[k] == r;
    }
  }

  /** A lesson that opened on the flow is passed or failed by the answer on its done row; one that was read is passed
      by a first-try stid on any row and failed by the max-errors stid on its done row. Either entered the image tier if
      some row says so. */
  lemma FlagsMeanWhatHappened(rows: Lesson)
    ensures var f := FlagsOf(rows);
            var firstTry := SomeEnds(rows, "-sentence-comprehension-correct-first")
                || SomeEnds(rows, "-sentence-complete-correct-first");
            && (f.enteredImage <==> SomeEnds(rows, "-letter-image-wrong"))
            && if SomeEnds(rows, "-passage-comprehension-initial") && Ends(rows[0], "-comprehension-complete") then
                 && (f.firstTryPass <==> firstTry || rows[0].answerCorrect == Some(true))
                 && (f.failedOut <==> rows[0].answerCorrect == Some(false))
               else
                 && (f.firstTryPass <==> firstTry)
                 && (f.failedOut <==> rows[0].stid == Some("sentence-sentence-complete-maxErrors"))
  {
    EndsIsEndsWith(rows, "-sentence-comprehension-correct-first");
    EndsIsEndsWith(rows, "-sentence-complete-correct-first");
    EndsIsEndsWith(rows, "-letter-image-wrong");
    EndsIsEndsWith(rows, "-passage-comprehension-initial");
    EndsIsEndsWith(rows, "-comprehension-complete");
    if rows[0].stid == Some("sentence-sentence-complete-maxErrors") { FailedReadIsNoAnswer(rows[0]); }
    hide AnyEndsWith, SomeEnds, Ends, EndsWith;
  }

  lemma FailedReadIsNoAnswer(r: TurnRow)
    requires r.stid == Some("sentence-sentence-complete-maxErrors")
    ensures !EndsWith(Stid(r), "-comprehension-complete")
  {
    LastOfSuffix(Stid(r), "-comprehension-complete");
    assert Stid(r)[|Stid(r)| - 1] == 's';
  }

  lemma LastOfSuffix(s: string, suffix: string)
    requires suffix != ""
    ensures EndsWith(s, suffix) ==> s != "" && s[|s| - 1] == suffix[|suffix| - 1]
  {
    if EndsWith(s, suffix) { assert s[|s| - |suffix|..][|suffix| - 1] == s[|s| - 1]; }
  }

  // ---------------------------------------------------------------------------
  // Lessons of a history, newest row first
  // ---------------------------------------------------------------------------

  type Lesson = rows: seq<TurnRow> | rows != [] witness [TurnRow(0, true, None, None)]

  /** A done row opens a lesson, the older rows after it belong to it; rows newer than every done row belong to none. */
  function Lessons(rows: seq<TurnRow>): seq<Lesson> {
    if rows == [] then []
    else
      var newer, row := Lessons(rows[..|rows| - 1]), rows[|rows| - 1];
      if row.isDone then newer + [[row]]
      else if newer == [] then []
      else newer[..|newer| - 1] + [newer[|newer| - 1] + [row]]
  }

  function Flatten(ls: seq<Lesson>): seq<TurnRow> { if ls == [] then [] else Flatten(ls[..|ls| - 1]) + ls[|ls| - 1] }

  ghost predicate LessonShaped(l: Lesson) { l[0].isDone && forall k :: 1 <= k < |l| ==> !l[k].isDone }

  /** The lessons are exactly the history from its newest done row on, cut before every done row. */
  lemma {:induction false} LessonsCutAtDoneRows(rows: seq<TurnRow>, open: nat)
    requires open <= |rows| && (forall k :: 0 <= k < open ==> !rows[k].isDone) && (open < |rows| ==> rows[open].isDone)
    ensures Flatten(Lessons(rows)) == rows[open..]
    ensures forall k :: 0 <= k < |Lessons(rows)| ==> LessonShaped(Lessons(rows)[k])
    ensures Lessons(rows) == [] <==> open == |rows|
    decreases |rows|
  {
    hide Lessons, Flatten;
    LessonsStep(rows);
    if rows != [] {
      var before, row := rows[..|rows| - 1], rows[|rows| - 1];
      var newer := Lessons(before);
      if open == |rows| {
        LessonsCutAtDoneRows(before, open - 1);
        NothingFlat();
      } else {
        LessonsCutAtDoneRows(before, open);
        assert rows[open..] == before[open..] + [row];
        if row.isDone { FlattenAppends(newer, [row]); } else { FlattenExtends(newer, row); }
      }
    } else {
      NothingFlat();
    }
  }

  lemma NothingFlat()
    ensures Flatten([]) == []
  {
  }

  lemma LessonsStep(rows: seq<TurnRow>)
    ensures rows == [] ==> Lessons(rows) == []
    ensures rows != [] ==>
              var newer, row := Lessons(rows[..|rows| - 1]), rows[|rows| - 1];
              Lessons(rows) == if row.isDone then newer + [[row]]
                               else if newer == [] then []
                               else newer[..|newer| - 1] + [newer[|newer| - 1] + [row]]
  {
  }

  lemma FlattenAppends(ls: seq<Lesson>, l: Lesson)
    ensures Flatten(ls + [l]) == Flatten(ls) + l
  {
  }

  lemma FlattenExtends(ls: seq<Lesson>, row: TurnRow)
    requires ls != []
    ensures Flatten(ls[..|ls| - 1] + [ls[|ls| - 1] + [row]]) == Flatten(ls) + [row]
  {
    FlattenAppends(ls[..|ls| - 1], ls[|ls| - 1] + [row]);
  }

  /** Older rows only ever extend the oldest lesson or add older ones. */
  lemma {:induction false} OlderRowsKeepNewerLessons(rows: seq<TurnRow>, older: seq<TurnRow>)
    ensures var some, all := Lessons(rows), Lessons(rows + older);
            |some| <= |all| && forall k :: 0 <= k < |some| - 1 ==> all[k] == some[k]
    decreases |older|
  {
    if older == [] {
      assert rows + older == rows;
    } else {
      var before := older[..|older| - 1];
      OlderRowsKeepNewerLessons(rows, before);
      assert (rows + older)[..|rows + older| - 1] == rows + before;
    }
  }

  /** The lessons whose lower boundary is visible in a window. */
  function ValidLessons(window: seq<TurnRow>): seq<Lesson> {
    var ls := Lessons(window);
    if ls == [] || |window| < SENTENCE_RECENT_ROWS_WINDOW then ls else ls[..|ls| - 1]
  }

  function Window(history: seq<TurnRow>): seq<TurnRow> {
    if |history| <= SENTENCE_RECENT_ROWS_WINDOW then history else history[..SENTENCE_RECENT_ROWS_WINDOW]
  }

  /** What is scored from the newest 18 rows is a prefix of the whole history's lessons, row for row and so flag for
      flag; it is all of them when the history is shorter than the window, and all but the oldest one seen
      otherwise. */
  lemma WindowSeesAPrefix(history: seq<TurnRow>)
    ensures ValidLessons(Window(history)) <= Lessons(history)
    ensures Window(history) <= history && |Window(history)| == if |history| < 18 then |history| else 18
    ensures |history| < 18 ==> ValidLessons(Window(history)) == Lessons(history)
    ensures |history| >= 18 && Lessons(Window(history)) != [] ==>
              |ValidLessons(Window(history))| == |Lessons(Window(history))| - 1
  {
    var w := Window(history);
    var older := history[|w|..];
    assert w + older == history;
    OlderRowsKeepNewerLessons(w, older);
  }

  // ---------------------------------------------------------------------------
  // The signal
  // ---------------------------------------------------------------------------

  function Flags(ls: seq<Lesson>): (r: seq<LessonFlags>)
    ensures |r| == |ls| && forall k :: 0 <= k < |ls| ==> r[k] == FlagsOf(ls[k])
  {
    seq(|ls|, k requires 0 <= k < |ls| => FlagsOf(ls[k]))
  }

  function DoneCount(rows: seq<TurnRow>): nat {
    if rows == [] then 0 else DoneCount(rows[..|rows| - 1]) + (if rows[|rows| - 1].isDone then 1 else 0)
  }

  /** The rules, first match wins. */
  function SignalOf(flags: seq<LessonFlags>, doneInWindow: nat, lifetimeDoneCount: nat): Signal {
    var two := |flags| >= 2;
    var bothFirstTryPass := two && flags[0].firstTryPass && flags[1].firstTryPass;
    var bothEnteredImage := two && flags[0].enteredImage && flags[1].enteredImage;
    var bothFailedOut := two && flags[0].failedOut && flags[1].failedOut;
    var lowCompletion := doneInWindow < 3 && lifetimeDoneCount >= 3;
    var decision :=
      if bothFirstTryPass then Increment
      else if lowCompletion then Decrement
      else if !two then Hold
      else if bothEnteredImage || bothFailedOut then Decrement
      else Hold;
    Signal(decision, doneInWindow, !bothFirstTryPass && lowCompletion,
           bothFirstTryPass, bothEnteredImage, bothFailedOut)
  }

  /** The rules, read off the complete lessons. Up when the newest two both passed at the first try; otherwise down
      when there are three done rows or more in all but fewer are seen, or the newest two both reached the image tier,
      or both failed out; otherwise as before. */
  ghost predicate FollowsTheRules(ls: seq<Lesson>, done: nat, lifetimeDoneCount: nat, r: Signal) {
    && (r.bothFirstTryPass <==> |ls| >= 2 && FlagsOf(ls[0]).firstTryPass && FlagsOf(ls[1]).firstTryPass)
    && (r.bothEnteredImage <==> |ls| >= 2 && FlagsOf(ls[0]).enteredImage && FlagsOf(ls[1]).enteredImage)
    && (r.bothFailedOut <==> |ls| >= 2 && FlagsOf(ls[0]).failedOut && FlagsOf(ls[1]).failedOut)
    && r.doneInWindow == done
    && (r.lowCompletionDecrement <==> !r.bothFirstTryPass && done < 3 && lifetimeDoneCount >= 3)
    && (r.decision == Increment <==> r.bothFirstTryPass)
    && (r.decision == Decrement <==>
          !r.bothFirstTryPass && ((done < 3 && lifetimeDoneCount >= 3) || r.bothEnteredImage || r.bothFailedOut))
  }

  lemma SignalFollowsTheRules(ls: seq<Lesson>, done: nat, lifetimeDoneCount: nat)
    ensures FollowsTheRules(ls, done, lifetimeDoneCount, SignalOf(Flags(ls), done, lifetimeDoneCount))
  {
    hide FlagsOf;
  }

  const BY_RN: TurnRow -> int := (r: TurnRow) => r.rn

  /** What the grouping loop holds: the lesson being collected, the oldest so far, and the flags of those before it. */
  ghost predicate Grouped(rows: seq<TurnRow>, validLessons: seq<LessonFlags>, current: Option<Lesson>) {
    var ls := Lessons(rows);
    if ls == [] then validLessons == [] && current == None
    else validLessons == Flags(ls[..|ls| - 1]) && current == Some(ls[|ls| - 1])
  }

  method GroupRow(ghost rows: seq<TurnRow>, turn: TurnRow, validLessons: seq<LessonFlags>, current: Option<Lesson>)
    returns (valid': seq<LessonFlags>, current': Option<Lesson>)
    requires Grouped(rows, validLessons, current)
    ensures Grouped(rows + [turn], valid', current')
  {
    hide FlagsOf;
    valid', current' := validLessons, current;
    assert (rows + [turn])[..|rows|] == rows;
    if turn.isDone {
      if current.Some? { valid' := validLessons + [FlagsOf(current.value)]; }
      current' := Some([turn]);
    } else if current.Some? {
      current' := Some(current.value + [turn]);
    }
  }

  method ComputeSentenceBandSignal(turns: seq<TurnRow>, lifetimeDoneCount: nat) returns (r: Signal)
    ensures var sorted := Sort(turns, BY_RN);
            r == SignalOf(Flags(ValidLessons(sorted)), DoneCount(sorted), lifetimeDoneCount)
    ensures FollowsTheRules(ValidLessons(Sort(turns, BY_RN)), DoneCount(Sort(turns, BY_RN)), lifetimeDoneCount, r)
  {
    hide FlagsOf, SignalOf, FollowsTheRules;
    var sorted := Sort(turns, BY_RN);
    var doneInWindow := 0;
    var validLessons: seq<LessonFlags> := [];
    var current: Option<Lesson> := None;
    for k := 0 to |sorted|
      invariant doneInWindow == DoneCount(sorted[..k])
      invariant Grouped(sorted[..k], validLessons, current)
    {
      hide Grouped;
      assert sorted[..k + 1] == sorted[..k] + [sorted[k]] && sorted[..k + 1][..k] == sorted[..k];
      if sorted[k].isDone { doneInWindow := doneInWindow + 1; }
      validLessons, current := GroupRow(sorted[..k], sorted[k], validLessons, current);
    }
    assert sorted[..|sorted|] == sorted;
    if current.Some? && |sorted| < SENTENCE_RECENT_ROWS_WINDOW {
      validLessons := validLessons + [FlagsOf(current.value)];
    }
    assert validLessons == Flags(ValidLessons(sorted));
    r := SignalOf(validLessons, doneInWindow, lifetimeDoneCount);
    SignalFollowsTheRules(ValidLessons(sorted), doneInWindow, lifetimeDoneCount);
  }

  /** Rows numbered newest first, as row_number() numbers them. */
  ghost predicate Numbered(history: seq<TurnRow>) { forall k :: 0 <= k < |history| ==> history[k].rn == k + 1 }

  /** From the newest 18 rows in any order, the signal is the one the whole history gives on as many of its lessons
      as the window bounds: every lesson it scores is a lesson of the history, with identical flags. */
  lemma SignalAgreesWithHistory(history: seq<TurnRow>, turns: seq<TurnRow>)
    requires Numbered(history) && multiset(turns) == multiset(Window(history))
    ensures Sort(turns, BY_RN) == Window(history)
    ensures var seen := |ValidLessons(Window(history))|;
            && seen <= |Lessons(history)|
            && Flags(ValidLessons(Sort(turns, BY_RN))) == Flags(Lessons(history)[..seen])
  {
    assert Increasing(Window(history), BY_RN);
    SortRecovers(turns, Window(history), BY_RN);
    WindowSeesAPrefix(history);
  }

  lemma {:induction false} DoneCountIsLessons(rows: seq<TurnRow>)
    ensures DoneCount(rows) == |Lessons(rows)|
    decreases |rows|
  {
    if rows != [] { DoneCountIsLessons(rows[..|rows| - 1]); }
  }

  /** The newest two lessons, read in full, call for a move that a window with too few done rows cannot see. */
  predicate Overlooked(history: seq<TurnRow>, lifetimeDoneCount: nat) {
    && |history| >= SENTENCE_RECENT_ROWS_WINDOW && DoneCount(Window(history)) < 3 && |Lessons(history)| >= 2
    && var a, b := FlagsOf(Lessons(history)[0]), FlagsOf(Lessons(history)[1]);
       || (a.firstTryPass && b.firstTryPass)
       || (lifetimeDoneCount < 3 && ((a.enteredImage && b.enteredImage) || (a.failedOut && b.failedOut)))
  }

  /** The window decides as the full history would, except exactly when it overlooks the second lesson. */
  lemma WindowDecidesAsHistory(history: seq<TurnRow>, lifetimeDoneCount: nat)
    ensures var done := DoneCount(Window(history));
            !Overlooked(history, lifetimeDoneCount) <==>
            SignalOf(Flags(ValidLessons(Window(history))), done, lifetimeDoneCount).decision
            == SignalOf(Flags(Lessons(history)), done, lifetimeDoneCount).decision
  {
    if DoneCount(Window(history)) >= 3 || |history| < SENTENCE_RECENT_ROWS_WINDOW {
      TwoLessonsDecide(history, lifetimeDoneCount);
    } else {
      SparseWindowDecides(history, lifetimeDoneCount);
    }
    hide FlagsOf, Lessons, Window;
  }

  /** Once the window holds three done rows, or the whole history, the newest two lessons decide as they would on
      the whole history: nothing clipped can change the outcome. */
  lemma TwoLessonsDecide(history: seq<TurnRow>, lifetimeDoneCount: nat)
    requires DoneCount(Window(history)) >= 3 || |history| < SENTENCE_RECENT_ROWS_WINDOW
    ensures SignalOf(Flags(ValidLessons(Window(history))), DoneCount(Window(history)), lifetimeDoneCount).decision
         == SignalOf(Flags(Lessons(history)), DoneCount(Window(history)), lifetimeDoneCount).decision
  {
    WindowSeesAPrefix(history);
    DoneCountIsLessons(Window(history));
    hide FlagsOf, Lessons;
  }

  /** A full window with fewer than three done rows leaves at most one scored lesson: it never increments, and it
      decrements exactly when there are three done rows in all. */
  lemma SparseWindowDecides(history: seq<TurnRow>, lifetimeDoneCount: nat)
    requires DoneCount(Window(history)) < 3 && |history| >= SENTENCE_RECENT_ROWS_WINDOW
    ensures SignalOf(Flags(ValidLessons(Window(history))), DoneCount(Window(history)), lifetimeDoneCount).decision
         == if lifetimeDoneCount >= 3 then Decrement else Hold
  {
    WindowSeesAPrefix(history);
    DoneCountIsLessons(Window(history));
    hide FlagsOf, Lessons;
  }

  const DONE_ROW: TurnRow := TurnRow(0, true, Some("x-sentence-complete-correct-first"), None)

  const OPEN_ROW: TurnRow := TurnRow(0, false, None, None)

  /** Two first-try passes, the older one sixteen turns long: the history increments, its newest 18 rows hold. */
  lemma OverlookedHistory() returns (history: seq<TurnRow>)
    ensures |history| == SENTENCE_RECENT_ROWS_WINDOW && Overlooked(history, 2)
    ensures SignalOf(Flags(ValidLessons(Window(history))), DoneCount(Window(history)), 2).decision == Hold
    ensures SignalOf(Flags(Lessons(history)), DoneCount(Window(history)), 2).decision == Increment
  {
    history := Tail(16);
    TailHasTwoLessons(16);
    DoneRowPasses([DONE_ROW]);
    DoneRowPasses([DONE_ROW] + Opens(16));
    hide FlagsOf, Lessons, DoneCount, Opens;
    assert Window(history) == history;
    SparseWindowDecides(history, 2);
  }

  function Opens(n: nat): (r: seq<TurnRow>)
    ensures |r| == n
  {
    seq(n, _ => OPEN_ROW)
  }

  /** Two done rows, then n open rows. */
  function Tail(n: nat): seq<TurnRow> { [DONE_ROW, DONE_ROW] + Opens(n) }

  lemma {:induction false} TailHasTwoLessons(n: nat)
    ensures Lessons(Tail(n)) == [[DONE_ROW], [DONE_ROW] + Opens(n)] && DoneCount(Tail(n)) == 2
  {
    hide Lessons, DoneCount, Tail, Opens;
    if n == 0 {
      TwoDoneRows();
    } else {
      TailHasTwoLessons(n - 1);
      TailExtends(n);
      LessonsStep(Tail(n));
      DoneCountStep(Tail(n));
      var newer := Lessons(Tail(n - 1));
      assert newer[..1] == [[DONE_ROW]] && newer[1] == [DONE_ROW] + Opens(n - 1);
    }
  }

  lemma DoneCountStep(rows: seq<TurnRow>)
    requires rows != []
    ensures DoneCount(rows) == DoneCount(rows[..|rows| - 1]) + (if rows[|rows| - 1].isDone then 1 else 0)
  {
  }

  lemma TwoDoneRows()
    ensures Lessons(Tail(0)) == [[DONE_ROW], [DONE_ROW] + Opens(0)] && DoneCount(Tail(0)) == 2
  {
    var one := [DONE_ROW];
    assert Tail(0)[..1] == one && one[..0] == [] && one + Opens(0) == one;
    LessonsStep(Tail(0));
    LessonsStep(one);
    LessonsStep([]);
    DoneCountStep(Tail(0));
    DoneCountStep(one);
    hide Lessons;
  }

  lemma TailExtends(n: nat)
    requires n > 0
    ensures |Tail(n)| == n + 2 && Tail(n)[..n + 1] == Tail(n - 1) && Tail(n)[n + 1] == OPEN_ROW
    ensures [DONE_ROW] + Opens(n - 1) + [OPEN_ROW] == [DONE_ROW] + Opens(n)
  {
  }

  lemma DoneRowPasses(l: Lesson)
    requires l[0] == DONE_ROW
    ensures FlagsOf(l).firstTryPass
  {
    assert EndsWith(Stid(l[0]), "-sentence-complete-correct-first");
  }
}
