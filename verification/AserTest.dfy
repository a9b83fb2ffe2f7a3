/** The adaptive reading test as a state machine (src/literacy/aser/aser.ts). */
module AserTest {
  import opened Options
  import opened AserBanks

  const PASS_CORRECT: nat := 4
  const FAIL_INCORRECT: nat := 7
  const FAST_JUMP_ITEMS: nat := 2
  const PARAGRAPH_ATTEMPTS: nat := 2

  datatype Stage = Letter | Word | Paragraph | Story

  datatype Outcome = Passed | Failed

  /** Highest level passed. */
  datatype Level = Beginner | At(stage: Stage)

  datatype Tally = Tally(correct: nat, incorrect: nat)

  datatype PerStage<T> = PerStage(letter: T, word: T, paragraph: T, story: T) {
    function Get(s: Stage): T {
      match s case Letter => letter case Word => word case Paragraph => paragraph case Story => story
    }

    function Set(s: Stage, x: T): PerStage<T> {
      match s
      case Letter => this.(letter := x)
      case Word => this.(word := x)
      case Paragraph => this.(paragraph := x)
      case Story => this.(story := x)
    }
  }

  datatype Item = Item(stage: Stage, value: string, answered: bool)

  datatype Status = InProgress | Done

  datatype State = State(
    run: nat, milestone: nat, bank: Bank, status: Status, startStage: Stage, stage: Stage,
    outcomes: PerStage<Option<Outcome>>, counts: PerStage<Tally>, used: PerStage<seq<string>>, item: Option<Item>,
    wordDrills: seq<string>, paragraphDrills: seq<string>, result: Option<Level>, placementLevel: Option<nat>)

  function NewState(run: nat, milestone: nat, bank: Bank, startStage: Stage): State {
    var zero := Tally(0, 0);
    State(run, milestone, bank, InProgress, startStage, startStage, PerStage(None, None, None, None),
          PerStage(zero, zero, zero, zero), PerStage([], [], [], []), None, [], [], None, None)
  }

  function CountVerdict(c: Tally): Option<Outcome> {
    if c.correct >= PASS_CORRECT then Some(Passed)
    else if c.incorrect >= FAIL_INCORRECT then Some(Failed)
    else None
  }

  function AserLevel(outcomes: PerStage<Option<Outcome>>): Level {
    if outcomes.story == Some(Passed) then At(Story)
    else if outcomes.paragraph == Some(Passed) then At(Paragraph)
    else if outcomes.word == Some(Passed) then At(Word)
    else if outcomes.letter == Some(Passed) then At(Letter)
    else Beginner
  }

  function PlacementLevel(level: Level): nat {
    match level
    case Beginner => 1
    case At(Letter) => 2
    case At(Word) => 3
    case At(Paragraph) => 9
    case At(Story) => 10
  }

  function Above(s: Stage): Option<Stage> {
    match s case Letter => Some(Word) case Word => Some(Paragraph) case Paragraph => Some(Story) case Story => None
  }

  function Below(s: Stage): Option<Stage> {
    match s case Letter => None case Word => Some(Letter) case Paragraph => Some(Word) case Story => Some(Paragraph)
  }

  function Finish(s: State): State {
    var result := AserLevel(s.outcomes);
    s.(status := Done, result := Some(result),
       placementLevel := if s.milestone == 0 then Some(PlacementLevel(result)) else None)
  }

  function AfterDecision(s: State, stage: Stage): State {
    var next := if s.outcomes.Get(stage) == Some(Passed) then Above(stage) else Below(stage);
    if next.None? || s.outcomes.Get(next.value).Some? then Finish(s) else s.(stage := next.value)
  }

  function Decide(s: State, stage: Stage, outcome: Outcome): State {
    AfterDecision(s.(outcomes := s.outcomes.Set(stage, Some(outcome))), stage)
  }

  function RecordAnswer(state: State, correct: bool): State {
    if state.status == Done || state.item.None? || state.item.value.answered then state
    else
      var stage := state.item.value.stage;
      var prev := state.counts.Get(stage);
      var c := if correct then Tally(prev.correct + 1, prev.incorrect) else Tally(prev.correct, prev.incorrect + 1);
      var s := state.(counts := state.counts.Set(stage, c),
                      item := Some(state.item.value.(answered := true)),
                      wordDrills := if stage == Word && !correct then state.wordDrills + [state.item.value.value]
                                    else state.wordDrills);
      match stage
      case Letter => AfterCount(s, stage, c)
      case Word => AfterCount(s, stage, c)
      case Paragraph =>
        if correct then Decide(s, stage, Passed)
        else if c.incorrect >= PARAGRAPH_ATTEMPTS then Decide(s, stage, Failed)
        else s
      case Story => Decide(s, stage, if correct then Passed else Failed)
  }

  /** The letter and word levels: a verdict, a fast jump, or one more item. */
  function AfterCount(s: State, stage: Stage, c: Tally): State {
    var verdict := CountVerdict(c);
    if verdict.Some? then Decide(s, stage, verdict.value)
    else if stage == Word && s.startStage == Word && c.correct + c.incorrect == FAST_JUMP_ITEMS then
      if c.correct == FAST_JUMP_ITEMS && s.outcomes.paragraph.None? then s.(stage := Paragraph)
      else if c.incorrect == FAST_JUMP_ITEMS && s.outcomes.letter.None? then s.(stage := Letter)
      else s
    else s
  }

  function WithItem(s: State, item: Item): State {
    s.(item := Some(item), used := s.used.Set(item.stage, s.used.Get(item.stage) + [item.value]))
  }

  function RecordParagraphDrill(s: State, word: string): State {
    if word in s.paragraphDrills then s else s.(paragraphDrills := s.paragraphDrills + [word])
  }

  // ---------------------------------------------------------------------------
  // What every run keeps
  // ---------------------------------------------------------------------------

  function Height(s: Stage): nat { match s case Letter => 0 case Word => 1 case Paragraph => 2 case Story => 3 }

  /** Passed levels lie below the stage and failed levels above it. */
  ghost predicate Ordered(s: State) {
    OrderedAt(s, Letter) && OrderedAt(s, Word) && OrderedAt(s, Paragraph) && OrderedAt(s, Story)
  }

  ghost predicate OrderedAt(s: State, l: Stage) {
    && (s.outcomes.Get(l) == Some(Passed) ==> Height(l) < Height(s.stage))
    && (s.outcomes.Get(l) == Some(Failed) ==> Height(l) > Height(s.stage))
  }

  /** No level at or below a passed one is failed. */
  ghost predicate PassedBelowFailed(s: State) {
    forall p: Stage, f: Stage :: s.outcomes.Get(p) == Some(Passed) && s.outcomes.Get(f) == Some(Failed) ==>
      Height(p) < Height(f)
  }

  /** The pass rules of the four tests, and how far a level can be counted while it is undecided or decided. */
  ghost predicate Scored(l: Stage, c: Tally, outcome: Option<Outcome>) {
    match l
    case Paragraph =>
      (match outcome
       case None => c.correct == 0 && c.incorrect < PARAGRAPH_ATTEMPTS
       case Some(Passed) => c.correct == 1 && c.incorrect < PARAGRAPH_ATTEMPTS
       case Some(Failed) => c.correct == 0 && c.incorrect == PARAGRAPH_ATTEMPTS)
    case Story =>
      (match outcome
       case None => c == Tally(0, 0)
       case Some(Passed) => c == Tally(1, 0)
       case Some(Failed) => c == Tally(0, 1))
    case _ =>
      (match outcome
       case None => c.correct < PASS_CORRECT && c.incorrect < FAIL_INCORRECT
       case Some(Passed) => c.correct == PASS_CORRECT && c.incorrect < FAIL_INCORRECT
       case Some(Failed) => c.correct < PASS_CORRECT && c.incorrect == FAIL_INCORRECT)
  }

  ghost predicate AllScored(s: State) {
    && Scored(Letter, s.counts.letter, s.outcomes.letter) && Scored(Word, s.counts.word, s.outcomes.word)
    && Scored(Paragraph, s.counts.paragraph, s.outcomes.paragraph) && Scored(Story, s.counts.story, s.outcomes.story)
  }

  /** A test in progress. */
  ghost predicate Running(s: State) { s.status == InProgress && Ordered(s) && AllScored(s) }

  /** A test that ended by itself: its result is the highest passed level, and the level above it was failed. */
  ghost predicate Concluded(s: State) {
    && s.status == Done && AllScored(s) && PassedBelowFailed(s)
    && s.result == Some(AserLevel(s.outcomes))
    && (match AserLevel(s.outcomes)
        case Beginner => s.outcomes.letter == Some(Failed)
        case At(Story) => true
        case At(l) => s.outcomes.Get(Above(l).value) == Some(Failed))
    && s.placementLevel == (if s.milestone == 0 then Some(PlacementLevel(AserLevel(s.outcomes))) else None)
  }

  function Answers(s: State): nat {
    s.counts.letter.correct + s.counts.letter.incorrect + s.counts.word.correct + s.counts.word.incorrect +
    s.counts.paragraph.correct + s.counts.paragraph.incorrect + s.counts.story.correct + s.counts.story.incorrect
  }

  const MAX_ANSWERS: nat := 23

  /** A decision moves the stage past the decided level, or ends the test. */
  lemma DecisionKeepsOrder(s: State, outcome: Outcome)
    requires s.status == InProgress && Ordered(s)
    requires AllScored(s.(outcomes := s.outcomes.Set(s.stage, Some(outcome))))
    ensures var r := Decide(s, s.stage, outcome); (Running(r) || Concluded(r)) && r.counts == s.counts
  {
    match outcome { case Passed => PassMovesUp(s); case Failed => FailMovesDown(s); }
  }

  lemma PassMovesUp(s: State)
    requires s.status == InProgress && Ordered(s)
    requires AllScored(s.(outcomes := s.outcomes.Set(s.stage, Some(Passed))))
    ensures var r := Decide(s, s.stage, Passed); (Running(r) || Concluded(r)) && r.counts == s.counts
  {
    match s.stage { case Letter => case Word => case Paragraph => case Story => }
  }

  lemma FailMovesDown(s: State)
    requires s.status == InProgress && Ordered(s)
    requires AllScored(s.(outcomes := s.outcomes.Set(s.stage, Some(Failed))))
    ensures var r := Decide(s, s.stage, Failed); (Running(r) || Concluded(r)) && r.counts == s.counts
  {
    match s.stage { case Letter => case Word => case Paragraph => case Story => }
  }

  /** The state right after an answer is counted, before the rules look at it. */
  function Counted(s: State, correct: bool): State
    requires s.item.Some?
  {
    var item := s.item.value;
    var prev := s.counts.Get(item.stage);
    s.(counts := s.counts.Set(item.stage, if correct then Tally(prev.correct + 1, prev.incorrect)
                                          else Tally(prev.correct, prev.incorrect + 1)),
       item := Some(item.(answered := true)),
       wordDrills := if item.stage == Word && !correct then s.wordDrills + [item.value] else s.wordDrills)
  }

  ghost predicate Askable(s: State) {
    Running(s) && s.item.Some? && !s.item.value.answered && s.item.value.stage == s.stage
  }

  lemma CountedAnswerKeepsOrder(s: State, correct: bool)
    requires Askable(s) && (s.stage == Letter || s.stage == Word)
    ensures var r := RecordAnswer(s, correct); (Running(r) || Concluded(r)) && r.counts == Counted(s, correct).counts
  {
    var t := Counted(s, correct);
    var verdict := CountVerdict(t.counts.Get(s.stage));
    assert s.outcomes.Get(s.stage) == None;
    if verdict.Some? {
      DecisionKeepsOrder(t, verdict.value);
      hide Concluded, Running, Decide;
    } else {
      hide Concluded;
    }
  }

  lemma ParagraphAnswerKeepsOrder(s: State, correct: bool)
    requires Askable(s) && s.stage == Paragraph
    ensures var r := RecordAnswer(s, correct); (Running(r) || Concluded(r)) && r.counts == Counted(s, correct).counts
  {
    var t := Counted(s, correct);
    assert s.outcomes.Get(s.stage) == None;
    if correct {
      DecisionKeepsOrder(t, Passed);
    } else if t.counts.paragraph.incorrect >= PARAGRAPH_ATTEMPTS {
      DecisionKeepsOrder(t, Failed);
    }
    hide Concluded;
  }

  lemma StoryAnswerKeepsOrder(s: State, correct: bool)
    requires Askable(s) && s.stage == Story
    ensures var r := RecordAnswer(s, correct); (Running(r) || Concluded(r)) && r.counts == Counted(s, correct).counts
  {
    assert s.outcomes.Get(s.stage) == None;
    DecisionKeepsOrder(Counted(s, correct), if correct then Passed else Failed);
    hide Concluded;
  }

  lemma AnswerTouchesOnlyItsItem(s: State, correct: bool)
    requires s.status == InProgress && s.item.Some? && !s.item.value.answered
    ensures var r := RecordAnswer(s, correct);
            && r.item == Some(s.item.value.(answered := true)) && r.used == s.used && r.bank == s.bank
            && r.counts == Counted(s, correct).counts
            && r.run == s.run && r.milestone == s.milestone && r.startStage == s.startStage
            && r.paragraphDrills == s.paragraphDrills
            && r.wordDrills ==
               s.wordDrills + (if s.item.value.stage == Word && !correct then [s.item.value.value] else [])
  {
  }

  /** One first answer to an item of the current stage: the test goes on in order or is concluded, and one more
      answer is counted, so the distance to MAX_ANSWERS strictly falls. */
  lemma AnswerKeepsOrder(s: State, correct: bool)
    requires Askable(s)
    ensures var r := RecordAnswer(s, correct); (Running(r) || Concluded(r)) && Answers(r) == Answers(s) + 1
  {
    match s.stage
    case Paragraph => ParagraphAnswerKeepsOrder(s, correct);
    case Story => StoryAnswerKeepsOrder(s, correct);
    case _ => CountedAnswerKeepsOrder(s, correct);
    hide RecordAnswer, Running, Concluded;
  }

  /** Only the first answer to an item counts, and none once the test is done. */
  lemma OnlyTheFirstAnswerCounts(s: State, first: bool, second: bool)
    ensures RecordAnswer(RecordAnswer(s, first), second) == RecordAnswer(s, first)
    ensures s.status == Done ==> RecordAnswer(s, first) == s
  {
    if s.status == InProgress && s.item.Some? && !s.item.value.answered {
      AnswerTouchesOnlyItsItem(s, first);
      hide Decide, AfterCount;
    }
  }

  /** An answer that decides nothing leaves the stage alone, with one exception: the second word of a test that started
      at words. Two right go to the paragraph, two wrong to the letters, unless that level is decided. */
  lemma UndecidedAnswerStays(s: State, correct: bool)
    requires Askable(s)
    ensures var r := RecordAnswer(s, correct);
            r.outcomes == s.outcomes ==>
              && r.status == InProgress
              && r.stage ==
                 (if s.startStage == Word && s.stage == Word && r.counts.word == Tally(2, 0)
                     && s.outcomes.paragraph == None then Paragraph
                  else if s.startStage == Word && s.stage == Word && r.counts.word == Tally(0, 2)
                          && s.outcomes.letter == None then Letter
                  else s.stage)
  {
    match s.stage { case Letter => case Word => case Paragraph => case Story => }
  }

  /** An answer that decides something decides the level asked, by the pass rules: four right or seven wrong for letters
      and words, one right or two wrong for the paragraph, one answer for the story. */
  lemma AnswerDecides(s: State, correct: bool)
    requires Askable(s)
    ensures var r := RecordAnswer(s, correct);
            var c := r.counts.Get(s.stage);
            && s.outcomes.Get(s.stage) == None
            && r.outcomes ==
               (if (match s.stage case Story => correct case Paragraph => correct case _ => c.correct == 4) then
                  s.outcomes.Set(s.stage, Some(Passed))
                else if (match s.stage case Story => true case Paragraph => c.incorrect == 2
                                       case _ => c.incorrect == 7) then
                  s.outcomes.Set(s.stage, Some(Failed))
                else s.outcomes)
  {
    match s.stage { case Letter => case Word => case Paragraph => case Story => }
  }

  /** A decision leads one level up when passed and one down when failed; the test goes on there if that level exists
      and is undecided, and is done otherwise. */
  lemma DecisionMovesOneLevel(s: State, correct: bool)
    requires Askable(s) && RecordAnswer(s, correct).outcomes != s.outcomes
    ensures var r := RecordAnswer(s, correct);
            var next := Height(s.stage) + (if r.outcomes.Get(s.stage) == Some(Passed) then 1 else -1);
            if r.status == InProgress then Height(r.stage) == next && r.outcomes.Get(r.stage) == None
            else forall l: Stage :: Height(l) == next ==> r.outcomes.Get(l).Some?
  {
    match s.stage { case Letter => case Word => case Paragraph => case Story => }
  }

  /** A test that is done reports its highest passed level, and an onboarding test the lesson level that stands for. */
  lemma FinishReports(s: State)
    ensures var r := Finish(s);
            && r.status == Done && r.result.Some? && r.outcomes == s.outcomes
            && (match r.result.value
                case Beginner => forall l: Stage :: r.outcomes.Get(l) != Some(Passed)
                case At(level) =>
                  && r.outcomes.Get(level) == Some(Passed)
                  && forall l: Stage :: r.outcomes.Get(l) == Some(Passed) ==> Height(l) <= Height(level))
            && r.placementLevel ==
               (if s.milestone != 0 then None
                else if s.outcomes.story == Some(Passed) then Some(10)
                else if s.outcomes.paragraph == Some(Passed) then Some(9)
                else if s.outcomes.word == Some(Passed) then Some(3)
                else if s.outcomes.letter == Some(Passed) then Some(2)
                else Some(1))
  {
  }

  /** No test counts more than 23 answers, and one still in progress has room for another. */
  lemma AnswersAreBounded(s: State)
    requires AllScored(s)
    ensures Answers(s) <= MAX_ANSWERS
    ensures Running(s) ==> Answers(s) < MAX_ANSWERS
  {
    if Running(s) { assert s.outcomes.Get(s.stage) == None; }
  }

  // ---------------------------------------------------------------------------
  // Whole runs
  // ---------------------------------------------------------------------------

  /** An item of the current stage is delivered and answered. */
  function Ask(s: State, value: string, correct: bool): State {
    RecordAnswer(WithItem(s, Item(s.stage, value, false)), correct)
  }

  function Run(s: State, answers: seq<(string, bool)>): State
    decreases |answers|
  {
    if answers == [] || s.status == Done then s
    else Run(Ask(s, answers[0].0, answers[0].1), answers[1..])
  }

  lemma NewStateRuns(run: nat, milestone: nat, bank: Bank, startStage: Stage)
    ensures Running(NewState(run, milestone, bank, startStage))
            && Answers(NewState(run, milestone, bank, startStage)) == 0
  {
  }

  lemma {:induction false} RunFrom(s: State, answers: seq<(string, bool)>)
    requires Running(s) || Concluded(s)
    ensures var r := Run(s, answers);
            (Running(r) && Answers(r) == Answers(s) + |answers|)
              || (Concluded(r) && Answers(r) <= Answers(s) + |answers|)
    decreases |answers|
  {
    if answers != [] && s.status != Done {
      var asked := WithItem(s, Item(s.stage, answers[0].0, false));
      hide AllScored;
      AnswerKeepsOrder(asked, answers[0].1);
      RunFrom(Ask(s, answers[0].0, answers[0].1), answers[1..]);
    }
  }

  /** Whatever is answered, the run is concluded within 23 answers; until then it stays in order. */
  lemma EveryRunEnds(run: nat, milestone: nat, bank: Bank, startStage: Stage, answers: seq<(string, bool)>)
    ensures var r := Run(NewState(run, milestone, bank, startStage), answers);
            && (Running(r) || Concluded(r)) && PassedBelowFailed(r)
            && (|answers| >= MAX_ANSWERS ==> Concluded(r))
  {
    var s := NewState(run, milestone, bank, startStage);
    NewStateRuns(run, milestone, bank, startStage);
    RunFrom(s, answers);
    var r := Run(s, answers);
    AnswersAreBounded(r);
    hide Run, Answers;
    if Running(r) { OrderSeparates(r); }
  }

  /** The first two words of a test that starts there: both right lead to the paragraph, both wrong to the letters,
      one of each to more words; nothing is decided yet. */
  lemma FirstTwoWords(run: nat, milestone: nat, bank: Bank, v: string, p: bool, w: string, q: bool)
    ensures var r := Run(NewState(run, milestone, bank, Word), [(v, p), (w, q)]);
            && r.status == InProgress && r.outcomes == PerStage(None, None, None, None)
            && r.stage == (if p && q then Paragraph else if !p && !q then Letter else Word)
            && r.wordDrills == (if p then [] else [v]) + (if q then [] else [w])
  {
    var s := NewState(run, milestone, bank, Word);
    var one := Ask(s, v, p);
    var answers := [(v, p), (w, q)];
    assert answers[1..] == [(w, q)] && answers[1..][1..] == [];
    assert Run(s, answers) == Run(one, answers[1..]) == Run(Ask(one, w, q), answers[1..][1..]);
  }

  lemma OrderSeparates(s: State)
    requires Ordered(s)
    ensures PassedBelowFailed(s)
  {
    forall p: Stage, f: Stage | s.outcomes.Get(p) == Some(Passed) && s.outcomes.Get(f) == Some(Failed)
      ensures Height(p) < Height(f)
    {
      assert OrderedAt(s, p) && OrderedAt(s, f);
    }
  }

  // The bound is tight: a test that starts at the story and fails everything slowly is still going after 22 answers.

  function Repeated(correct: bool, n: nat): (r: seq<(string, bool)>)
    ensures |r| == n
  {
    if n == 0 then [] else [("", correct)] + Repeated(correct, n - 1)
  }

  lemma {:induction false} RunAppend(s: State, a: seq<(string, bool)>, b: seq<(string, bool)>)
    ensures Run(s, a + b) == Run(Run(s, a), b)
    decreases |a|
  {
    if a == [] {
      assert a + b == b;
    } else if s.status != Done {
      assert (a + b)[0] == a[0] && (a + b)[1..] == a[1..] + b;
      RunAppend(Ask(s, a[0].0, a[0].1), a[1..], b);
    }
  }

  /** What the next steps need to know of a state. */
  ghost predicate Looks(s: State, stage: Stage, outcomes: PerStage<Option<Outcome>>, counts: PerStage<Tally>) {
    s.status == InProgress && s.startStage == Story && s.stage == stage && s.outcomes == outcomes && s.counts == counts
  }

  function Bumped(c: Tally, correct: bool, n: nat): Tally {
    if correct then Tally(c.correct + n, c.incorrect) else Tally(c.correct, c.incorrect + n)
  }

  predicate Undecided(c: Tally) { c.correct < PASS_CORRECT && c.incorrect < FAIL_INCORRECT }

  lemma {:induction false} UndecidedStays(s: State, stage: Stage, outcomes: PerStage<Option<Outcome>>,
                                          counts: PerStage<Tally>,
                                          correct: bool, n: nat)
    requires Looks(s, stage, outcomes, counts) && (stage == Letter || stage == Word)
    requires Undecided(counts.Get(stage)) && Undecided(Bumped(counts.Get(stage), correct, n))
    ensures Looks(Run(s, Repeated(correct, n)), stage, outcomes,
            counts.Set(stage, Bumped(counts.Get(stage), correct, n)))
    decreases n
  {
    hide Looks, Run, Repeated, Ask, Undecided, Bumped, PerStage<Tally>.Get, PerStage<Tally>.Set;
    BumpTwice(counts, stage, correct, n);
    if n > 0 {
      var counts' := counts.Set(stage, Bumped(counts.Get(stage), correct, 1));
      OneMoreUndecided(s, stage, outcomes, counts, correct);
      UndecidedStays(Ask(s, "", correct), stage, outcomes, counts', correct, n - 1);
      LooksOn(s, stage, outcomes, counts);
      OneMoreOfMany(s, correct, n);
    } else {
      NoAnswers(s, correct);
    }
  }

  lemma NoAnswers(s: State, correct: bool)
    ensures Run(s, Repeated(correct, 0)) == s
  {
  }

  lemma BumpTwice(counts: PerStage<Tally>, stage: Stage, correct: bool, n: nat)
    ensures n == 0 ==> counts.Set(stage, Bumped(counts.Get(stage), correct, n)) == counts
    ensures n > 0 ==>
              var counts' := counts.Set(stage, Bumped(counts.Get(stage), correct, 1));
              && counts'.Get(stage) == Bumped(counts.Get(stage), correct, 1)
              && Bumped(counts'.Get(stage), correct, n - 1) == Bumped(counts.Get(stage), correct, n)
              && counts'.Set(stage, Bumped(counts'.Get(stage), correct, n - 1))
                 == counts.Set(stage, Bumped(counts.Get(stage), correct, n))
              && (Undecided(counts.Get(stage)) && Undecided(Bumped(counts.Get(stage), correct, n)) ==>
                    Undecided(counts'.Get(stage)))
  {
    match stage { case Letter => case Word => case Paragraph => case Story => }
  }

  lemma OneMoreOfMany(s: State, correct: bool, n: nat)
    requires n > 0 && s.status == InProgress
    ensures Run(s, Repeated(correct, n)) == Run(Ask(s, "", correct), Repeated(correct, n - 1))
  {
    hide Ask;
    assert Repeated(correct, n)[1..] == Repeated(correct, n - 1);
  }

  lemma OneMoreUndecided(s: State, stage: Stage, outcomes: PerStage<Option<Outcome>>, counts: PerStage<Tally>,
                         correct: bool)
    requires Looks(s, stage, outcomes, counts) && (stage == Letter || stage == Word)
    requires Undecided(Bumped(counts.Get(stage), correct, 1))
    ensures Looks(Ask(s, "", correct), stage, outcomes, counts.Set(stage, Bumped(counts.Get(stage), correct, 1)))
  {
    hide Decide;
  }

  lemma TwentyTwoAnswersMayNotEndIt(run: nat, milestone: nat, bank: Bank) returns (answers: seq<(string, bool)>)
    ensures |answers| == MAX_ANSWERS - 1 && Run(NewState(run, milestone, bank, Story), answers).status == InProgress
  {
    var s0 := NewState(run, milestone, bank, Story);
    StartLooks(run, milestone, bank);
    hide Run, Looks, Repeated, NewState, Ask;
    var none: Option<Outcome> := None;
    var down := Repeated(false, 1) + Repeated(false, 2);
    var s1 := Run(s0, down);
    SlideToWords(s0, down);
    var words := PerStage(none, none, Some(Failed), Some(Failed));
    var s2 := Run(s1, Repeated(false, 6));
    Stretch(s1, Word, words, PerStage(Tally(0, 0), Tally(0, 0), Tally(0, 2), Tally(0, 1)), false, 6);
    var s3 := Run(s2, Repeated(true, 3));
    Stretch(s2, Word, words, PerStage(Tally(0, 0), Tally(0, 6), Tally(0, 2), Tally(0, 1)), true, 3);
    var s4 := Run(s3, Repeated(false, 1));
    LastWordFails(s3);
    var letters := PerStage(none, Some(Failed), Some(Failed), Some(Failed));
    var s5 := Run(s4, Repeated(false, 6));
    Stretch(s4, Letter, letters, PerStage(Tally(0, 0), Tally(3, 7), Tally(0, 2), Tally(0, 1)), false, 6);
    Stretch(s5, Letter, letters, PerStage(Tally(0, 6), Tally(3, 7), Tally(0, 2), Tally(0, 1)), true, 3);
    LooksOn(Run(s5, Repeated(true, 3)), Letter, letters, PerStage(Tally(3, 6), Tally(3, 7), Tally(0, 2), Tally(0, 1)));
    answers := down + Repeated(false, 6) + Repeated(true, 3) + Repeated(false, 1) + Repeated(false, 6)
      + Repeated(true, 3);
    RunAppend(s0, down, Repeated(false, 6));
    RunAppend(s0, down + Repeated(false, 6), Repeated(true, 3));
    RunAppend(s0, down + Repeated(false, 6) + Repeated(true, 3), Repeated(false, 1));
    RunAppend(s0, down + Repeated(false, 6) + Repeated(true, 3) + Repeated(false, 1), Repeated(false, 6));
    RunAppend(s0, down + Repeated(false, 6) + Repeated(true, 3) + Repeated(false, 1) + Repeated(false, 6),
      Repeated(true, 3));
  }

  lemma StartLooks(run: nat, milestone: nat, bank: Bank)
    ensures Looks(NewState(run, milestone, bank, Story), Story, PerStage(None, None, None, None),
                  PerStage(Tally(0, 0), Tally(0, 0), Tally(0, 0), Tally(0, 0)))
  {
  }

  lemma LooksOn(s: State, stage: Stage, outcomes: PerStage<Option<Outcome>>, counts: PerStage<Tally>)
    requires Looks(s, stage, outcomes, counts)
    ensures s.status == InProgress
  {
  }

  /** A stretch of equal answers that decides nothing. */
  lemma Stretch(s: State, stage: Stage, outcomes: PerStage<Option<Outcome>>, counts: PerStage<Tally>, correct: bool,
                n: nat)
    requires Looks(s, stage, outcomes, counts) && (stage == Letter || stage == Word) && n <= 6
    requires var c := if stage == Word then counts.word else counts.letter;
             if correct then c.correct == 0 && n == 3 && c.incorrect == 6 else c == Tally(0, 0)
    ensures var c := if stage == Word then counts.word else counts.letter;
            var c' := if correct then Tally(n, c.incorrect) else Tally(c.correct, n);
            Looks(Run(s, Repeated(correct, n)), stage, outcomes, if stage == Word then counts.(word := c')
                                                                 else counts.(letter := c'))
  {
    UndecidedStays(s, stage, outcomes, counts, correct, n);
  }

  lemma SlideToWords(s: State, down: seq<(string, bool)>)
    requires Looks(s, Story, PerStage(None, None, None, None),
             PerStage(Tally(0, 0), Tally(0, 0), Tally(0, 0), Tally(0, 0)))
    requires down == Repeated(false, 1) + Repeated(false, 2)
    ensures Looks(Run(s, down), Word, PerStage(None, None, Some(Failed), Some(Failed)),
                  PerStage(Tally(0, 0), Tally(0, 0), Tally(0, 2), Tally(0, 1)))
  {
    var a := Ask(s, "", false);
    assert Looks(a, Paragraph, PerStage(None, None, None, Some(Failed)),
        PerStage(Tally(0, 0), Tally(0, 0), Tally(0, 0), Tally(0, 1)));
    var b := Ask(a, "", false);
    assert Looks(b, Paragraph, PerStage(None, None, None, Some(Failed)),
        PerStage(Tally(0, 0), Tally(0, 0), Tally(0, 1), Tally(0, 1)));
    var c := Ask(b, "", false);
    assert Looks(c, Word, PerStage(None, None, Some(Failed), Some(Failed)),
        PerStage(Tally(0, 0), Tally(0, 0), Tally(0, 2), Tally(0, 1)));
    hide Ask;
    assert down == [("", false), ("", false), ("", false)] by {
      assert Repeated(false, 1) == [("", false)] && Repeated(false, 2) == [("", false)] + Repeated(false, 1);
    }
    assert Run(s, down) == Run(a, down[1..]) == Run(b, down[1..][1..]) == Run(c, down[1..][1..][1..]) == c;
  }

  lemma LastWordFails(s: State)
    requires Looks(s, Word, PerStage(None, None, Some(Failed), Some(Failed)),
             PerStage(Tally(0, 0), Tally(3, 6), Tally(0, 2), Tally(0, 1)))
    ensures Looks(Run(s, Repeated(false, 1)), Letter, PerStage(None, Some(Failed), Some(Failed), Some(Failed)),
                  PerStage(Tally(0, 0), Tally(3, 7), Tally(0, 2), Tally(0, 1)))
  {
    var a := Ask(s, "", false);
    assert Looks(a, Letter, PerStage(None, Some(Failed), Some(Failed), Some(Failed)),
        PerStage(Tally(0, 0), Tally(3, 7), Tally(0, 2), Tally(0, 1)));
    hide Ask;
    assert Repeated(false, 1) == [("", false)];
    assert Run(s, [("", false)]) == Run(a, [("", false)][1..]) == a;
  }
}
