/**
 How the items of a test are drawn, delivered, redelivered and counted over whole runs
 (src/literacy/aser/aser.service.ts and applyAserTurn in src/literacy/aser/aser.ts).

 Queries and random draws are parameters. The lesson machine is the environment: it counts a
 letter's first answer at most once per turn (`EnvironmentTurn`).
 */
module AserDelivery {
  import opened Options
  import opened AserBanks
  import opened AserTest

  function Without(items: seq<string>, used: seq<string>): (r: seq<string>)
    ensures forall x :: x in r <==> x in items && x !in used
  {
    if items == [] then []
    else (if items[0] in used then [] else [items[0]]) + Without(items[1..], used)
  }

  function RemainingBankItems(s: State): seq<string> {
    match s.stage
    case Letter => Without(Letters(s.bank), s.used.letter)
    case Word => Without(Words(s.bank), s.used.word)
    case _ => []
  }

  // ---------------------------------------------------------------------------
  // Planning a lesson
  // ---------------------------------------------------------------------------

  /** What the letter loop of the lesson machine is handed. */
  datatype LetterTest = LetterTest(letters: seq<string>, counts: Tally, wordIfPassed: string, wordIfFailed: string)

  datatype LessonInput = LetterInput(test: LetterTest) | WordInput(word: string) | PassageInput(id: string)

  datatype Reason = LetterBankExhausted | WordBankExhausted | NoPassage

  datatype Plan =
    | Deliver(aser: State, input: LessonInput)
    | EndEarly(finished: State, reason: Reason)
    | Normal(forcedLevel: Option<nat>)

  /** The outcome of the random draws and of the passage query. */
  datatype Draw = Draw(letters: seq<string>, words: seq<string>, pick: nat, passage: Option<string>,
                       passageStillThere: bool)

  /** The shuffles are shuffles. */
  ghost predicate FairDraw(s: State, d: Draw) {
    multiset(d.letters) == multiset(RemainingBankItems(s.(stage := Letter))) &&
    multiset(d.words) == multiset(RemainingBankItems(s.(stage := Word)))
  }

  function DrawNext(s: State, d: Draw): Plan {
    match s.stage
    case Letter =>
      if |d.letters| == 0 then EndEarly(Finish(s), LetterBankExhausted)
      else
        var spare := if |d.words| > 0 then d.words else Words(s.bank);
        Deliver(s.(item := None),
                LetterInput(LetterTest(d.letters, s.counts.letter, spare[0], spare[if |spare| > 1 then 1 else 0])))
    case Word =>
      var remaining := RemainingBankItems(s);
      if |remaining| == 0 then EndEarly(Finish(s), WordBankExhausted)
      else
        var value := remaining[d.pick % |remaining|];
        Deliver(WithItem(s, Item(Word, value, false)), WordInput(value))
    case _ =>
      if d.passage.None? then EndEarly(Finish(s), NoPassage)
      else Deliver(WithItem(s, Item(s.stage, d.passage.value, false)), PassageInput(d.passage.value))
  }

  /** The next lesson, given the state on the latest lesson row. */
  function PlanFreshLesson(prev: State, d: Draw): Plan {
    if prev.status == Done then Normal(prev.placementLevel)
    else if prev.item.None? || prev.item.value.answered then DrawNext(prev, d)
    else
      var item := prev.item.value;
      match item.stage
      case Letter => DrawNext(prev.(item := None), d)
      case Word => Deliver(prev, WordInput(item.value))
      case _ => if d.passageStillThere then Deliver(prev, PassageInput(item.value))
                else DrawNext(prev.(item := None), d)
  }

  /** In-place Fisher-Yates, as the source shuffles: the result is a permutation whatever the draws. */
  method Shuffle(items: seq<string>, picks: seq<nat>) returns (out: array<string>)
    requires |picks| >= |items|
    ensures fresh(out) && multiset(out[..]) == multiset(items)
  {
    out := new string[|items|];
    for k := 0 to |items|
      invariant out[..k] == items[..k]
    {
      out[k] := items[k];
    }
    assert out[..] == items;
    var i := out.Length - 1;
    while i > 0
      invariant -1 <= i < out.Length
      invariant multiset(out[..]) == multiset(items)
    {
      var j := picks[i] % (i + 1);
      out[i], out[j] := out[j], out[i];
      i := i - 1;
    }
  }

  // ---------------------------------------------------------------------------
  // Turns
  // ---------------------------------------------------------------------------

  datatype LetterCounts = LetterCounts(tally: Tally, done: bool)

  datatype Turn = Turn(
    answerCorrect: bool, drillWordChosen: bool, word: string, inWordState: bool,
    askedLetter: Option<string>, lettersBefore: Option<LetterCounts>, lettersAfter: Option<LetterCounts>)

  function Total(t: Tally): nat { t.correct + t.incorrect }

  predicate CountsALetter(turn: Turn) {
    turn.lettersBefore.Some? && turn.lettersAfter.Some? && turn.askedLetter.Some? &&
    Total(turn.lettersAfter.value.tally) > Total(turn.lettersBefore.value.tally)
  }

  function CountAnswer(s: State, turn: Turn): State {
    if CountsALetter(turn) then
      RecordAnswer(WithItem(s, Item(Letter, turn.askedLetter.value, false)),
                   turn.lettersAfter.value.tally.correct > turn.lettersBefore.value.tally.correct)
    else if s.item.Some? && !s.item.value.answered then RecordAnswer(s, turn.answerCorrect)
    else s
  }

  /** The word the letter loop returns to becomes the next item. */
  function AdoptWord(s: State, turn: Turn): State {
    if turn.lettersAfter.Some? && turn.lettersAfter.value.done && turn.inWordState && s.status == InProgress &&
       s.stage == Word && s.item.Some? && s.item.value.stage == Letter
    then WithItem(s, Item(Word, turn.word, false))
    else s
  }

  function NoteDrill(s: State, turn: Turn): State {
    if s.item.Some? && s.item.value.stage == Paragraph && turn.drillWordChosen then RecordParagraphDrill(s, turn.word)
    else s
  }

  function ApplyAserTurn(state: State, turn: Turn): State {
    NoteDrill(AdoptWord(CountAnswer(state, turn), turn), turn)
  }

  // ---------------------------------------------------------------------------
  // Sessions: the test state with the lesson it is riding in
  // ---------------------------------------------------------------------------

  /** The letter loop of the lesson machine, as far as its own counts go. */
  datatype LetterLoop = LetterLoop(pending: set<string>, counts: LetterCounts, wordIfPassed: string,
                                   wordIfFailed: string)

  datatype Session = Session(aser: State, loop: Option<LetterLoop>)

  /** How the lesson machine counts a letter's first answer: nothing once decided. */
  function CountLetter(c: LetterCounts, correct: bool): LetterCounts {
    if c.done then c
    else
      var t := if correct then Tally(c.tally.correct + 1, c.tally.incorrect)
               else Tally(c.tally.correct, c.tally.incorrect + 1);
      LetterCounts(t, CountVerdict(t).Some?)
  }

  function CountLetters(c: LetterCounts, answers: seq<bool>): LetterCounts {
    if answers == [] then c else CountLetter(CountLetters(c, answers[..|answers| - 1]), answers[|answers| - 1])
  }

  /** A letter test is decided by ten letters at the latest, is done exactly when its counts decide, and counts every
      answer until then and none after. */
  lemma {:induction false} TenLettersDecide(answers: seq<bool>)
    ensures var c := CountLetters(LetterCounts(Tally(0, 0), false), answers);
            && (c.done <==> CountVerdict(c.tally).Some?) && (|answers| >= BANK_SIZE ==> c.done)
            && Total(c.tally) <= BANK_SIZE && (!c.done ==> Total(c.tally) == |answers|)
            && c.tally.correct <= PASS_CORRECT && c.tally.incorrect <= FAIL_INCORRECT
            && !(c.tally.correct == PASS_CORRECT && c.tally.incorrect == FAIL_INCORRECT)
    decreases |answers|
  {
    if answers != [] { TenLettersDecide(answers[..|answers| - 1]); }
  }

  /** What is taken of the lesson machine: it counts only letters that are pending, and when it leaves the loop
      passed it is on the word it was handed for that. Outside the letter test there are no counts. */
  ghost predicate EnvironmentTurn(loop: Option<LetterLoop>, turn: Turn) {
    match loop
    case None => turn.lettersBefore == None && turn.lettersAfter == None
    case Some(l) =>
      && turn.lettersBefore == Some(l.counts) && turn.lettersAfter.Some?
      && (turn.lettersAfter.value == l.counts ||
          (turn.askedLetter.Some? && turn.askedLetter.value in l.pending
           && exists correct :: turn.lettersAfter.value == CountLetter(l.counts, correct)))
      && (turn.lettersAfter.value.done && turn.inWordState
            && CountVerdict(turn.lettersAfter.value.tally) == Some(Passed)
          ==> turn.word == l.wordIfPassed)
  }

  function LoopAfter(loop: Option<LetterLoop>, turn: Turn): Option<LetterLoop> {
    if loop.None? || turn.lettersAfter.None? then loop
    else Some(loop.value.(counts := turn.lettersAfter.value,
                          pending := if CountsALetter(turn) then loop.value.pending - {turn.askedLetter.value}
                                     else loop.value.pending))
  }

  datatype Event = Fresh(draw: Draw) | Spoke(turn: Turn)

  function StartLoop(input: LessonInput): Option<LetterLoop> {
    match input
    case LetterInput(t) =>
      Some(LetterLoop((set l | l in t.letters), LetterCounts(t.counts, false), t.wordIfPassed, t.wordIfFailed))
    case _ => None
  }

  /** Fresh starts a lesson, abandoning the one under way; Spoke is a voice turn of the current lesson, which touches
      the test only while it is in progress. */
  function Next(se: Session, e: Event): Session {
    match e
    case Spoke(turn) =>
      Session(if se.aser.status == InProgress then ApplyAserTurn(se.aser, turn) else se.aser, LoopAfter(se.loop, turn))
    case Fresh(d) =>
      match PlanFreshLesson(se.aser, d)
      case Deliver(s, input) => Session(s, StartLoop(input))
      case EndEarly(s, _) => Session(s, None)
      case Normal(_) => Session(se.aser, None)
  }

  ghost predicate Possible(se: Session, e: Event) {
    match e
    case Spoke(turn) => EnvironmentTurn(se.loop, turn)
    case Fresh(d) => FairDraw(se.aser, d)
  }

  // ---------------------------------------------------------------------------
  // The invariant
  // ---------------------------------------------------------------------------

  predicate Unanswered(s: State) { s.item.Some? && !s.item.value.answered }

  /** Every delivered letter and word is a distinct bank item; there are as many as answers counted, plus the word
      now waiting for its answer, which is one of them. */
  ghost predicate Accounted(s: State) {
    && NoDuplicates(s.used.letter) && (forall l :: l in s.used.letter ==> l in Letters(s.bank))
    && NoDuplicates(s.used.word) && (forall w :: w in s.used.word ==> w in Words(s.bank))
    && |s.used.letter| == Total(s.counts.letter)
    && |s.used.word| == Total(s.counts.word) + (if Unanswered(s) && s.item.value.stage == Word then 1 else 0)
    && (Unanswered(s) && s.item.value.stage == Word ==> s.item.value.value in s.used.word)
  }

  /** An unanswered item belongs to the current stage, and is never a letter. */
  ghost predicate ItemInPlace(s: State) { Unanswered(s) ==> s.item.value.stage == s.stage && s.stage != Letter }

  /** The letter loop and the test agree. */
  ghost predicate LoopInStep(s: State, l: LetterLoop) {
    && l.counts.tally == s.counts.letter
    && (if l.counts.done then CountVerdict(l.counts.tally) == Some(Passed) else s.stage == Letter && !Unanswered(s))
    && (forall p :: p in l.pending ==> p in Letters(s.bank) && p !in s.used.letter)
    && (s.outcomes.word == None && (!l.counts.done || (s.item.Some? && s.item.value.stage == Letter)) ==>
          l.wordIfPassed in Words(s.bank) && l.wordIfPassed !in s.used.word)
  }

  /** A test that is over, by a last answer or early: what it reports is consistent. */
  ghost predicate Ended(s: State) {
    AllScored(s) && PassedBelowFailed(s) && s.result == Some(AserLevel(s.outcomes))
  }

  ghost predicate Sound(se: Session) {
    && Accounted(se.aser)
    && (se.aser.status == Done ==> Ended(se.aser))
    && (se.aser.status == InProgress ==>
          Running(se.aser) && ItemInPlace(se.aser) && (se.loop.Some? ==> LoopInStep(se.aser, se.loop.value)))
  }

  // Drawing.

  lemma {:induction false} DistinctWithin(s: seq<string>, bank: seq<string>)
    requires NoDuplicates(s) && (forall x :: x in s ==> x in bank) && |s| < |bank| && NoDuplicates(bank)
    ensures exists x :: x in bank && x !in s
  {
    var a, b := (set x | x in s), (set x | x in bank);
    SetOf(s);
    SetOf(bank);
    if b <= a { SubsetSize(b, a); }
    var x :| x in b && x !in a;
  }

  lemma {:induction false} SetOf(s: seq<string>)
    requires NoDuplicates(s)
    ensures |set x | x in s| == |s|
    decreases |s|
  {
    if s != [] {
      SetOf(s[1..]);
      assert (set x | x in s) == (set x | x in s[1..]) + {s[0]};
    }
  }

  /** While letters are undecided some bank letter is left, and the same for words. */
  lemma BankNotExhausted(s: State)
    requires Running(s) && Accounted(s)
    ensures s.stage == Letter ==> RemainingBankItems(s) != []
    ensures s.outcomes.word == None && !Unanswered(s) ==> RemainingBankItems(s.(stage := Word)) != []
  {
    LettersAreTen(s.bank);
    WordsAreTen(s.bank);
    hide Letters, Words;
    if s.stage == Letter {
      assert s.outcomes.letter == None;
      DistinctWithin(s.used.letter, Letters(s.bank));
      var x :| x in Letters(s.bank) && x !in s.used.letter;
      assert x in RemainingBankItems(s);
    }
    if s.outcomes.word == None && !Unanswered(s) {
      DistinctWithin(s.used.word, Words(s.bank));
      var x :| x in Words(s.bank) && x !in s.used.word;
      assert x in RemainingBankItems(s.(stage := Word));
    }
  }

  /** A fresh lesson can always be drawn, so every run can go on. */
  lemma SomeDrawIsFair(s: State) returns (d: Draw)
    ensures FairDraw(s, d)
  {
    d := Draw(RemainingBankItems(s.(stage := Letter)), RemainingBankItems(s.(stage := Word)), 0, None, false);
  }

  // Turns.

  lemma ItemAnswered(s: State, correct: bool)
    requires Running(s) && Accounted(s) && ItemInPlace(s) && Unanswered(s)
    ensures var r := RecordAnswer(s, correct);
            && (Running(r) || Concluded(r)) && Accounted(r) && !Unanswered(r)
            && r.counts.letter == s.counts.letter && r.used == s.used && r.bank == s.bank
            && r.item == Some(s.item.value.(answered := true))
  {
    AnswerKeepsOrder(s, correct);
    AnswerTouchesOnlyItsItem(s, correct);
    hide RecordAnswer, Running, Concluded, Words, Letters;
  }

  lemma LetterAnswered(s: State, letter: string, correct: bool)
    requires Running(s) && Accounted(s) && !Unanswered(s) && s.stage == Letter
    requires letter in Letters(s.bank) && letter !in s.used.letter
    ensures var r := RecordAnswer(WithItem(s, Item(Letter, letter, false)), correct);
            && (Running(r) || Concluded(r)) && Accounted(r) && !Unanswered(r)
            && r.counts.letter == (if correct then Tally(s.counts.letter.correct + 1, s.counts.letter.incorrect)
                                   else Tally(s.counts.letter.correct, s.counts.letter.incorrect + 1))
            && r.used == s.used.(letter := s.used.letter + [letter]) && r.bank == s.bank
            && r.item == Some(Item(Letter, letter, true))
  {
    var t := WithItem(s, Item(Letter, letter, false));
    AnswerKeepsOrder(t, correct);
    AnswerTouchesOnlyItsItem(t, correct);
    hide RecordAnswer, Running, Concluded, Words, Letters;
  }

  /** The letter verdict is the letter outcome: in progress after a decision means passed, with words undecided. */
  lemma LetterVerdictIsOutcome(s: State)
    requires Running(s)
    ensures CountVerdict(s.counts.letter) == s.outcomes.letter
    ensures s.stage != Letter && s.outcomes.letter.Some? ==> s.outcomes.letter == Some(Passed)
    ensures s.stage == Letter ==> s.outcomes.letter == None
  {
  }

  lemma LetterRuleOfWord(s: State, letter: string, correct: bool)
    requires Running(s) && s.stage == Letter && !Unanswered(s)
    ensures var r := RecordAnswer(WithItem(s, Item(Letter, letter, false)), correct);
            r.status == InProgress ==>
              r.outcomes.word == s.outcomes.word && (r.stage == Letter <==> CountVerdict(r.counts.letter) == None)
  {
    hide Running;
  }

  /** A voice turn of the letter test. */
  lemma LoopTurnCounts(s: State, l: LetterLoop, turn: Turn)
    requires Running(s) && Accounted(s) && ItemInPlace(s) && LoopInStep(s, l) && EnvironmentTurn(Some(l), turn)
    ensures var r := CountAnswer(s, turn);
            && Accounted(r)
               && (Concluded(r) || (Running(r) && ItemInPlace(r) && LoopInStep(r, LoopAfter(Some(l), turn).value)))
  {
    if CountsALetter(turn) { LetterTurnCounts(s, l, turn); } else { SilentLoopTurnCounts(s, l, turn); }
  }

  lemma LetterTurnCounts(s: State, l: LetterLoop, turn: Turn)
    requires Running(s) && Accounted(s) && ItemInPlace(s) && LoopInStep(s, l) && EnvironmentTurn(Some(l), turn)
             && CountsALetter(turn)
    ensures var r := CountAnswer(s, turn);
            && Accounted(r)
               && (Concluded(r) || (Running(r) && ItemInPlace(r) && LoopInStep(r, LoopAfter(Some(l), turn).value)))
  {
    var r := CountAnswer(s, turn);
    var letter, correct := turn.askedLetter.value,
        turn.lettersAfter.value.tally.correct > turn.lettersBefore.value.tally.correct;
    LetterAnswered(s, letter, correct);
    LetterRuleOfWord(s, letter, correct);
    if Running(r) { LetterVerdictIsOutcome(r); }
    hide RecordAnswer, Running, Concluded, Words, Letters, Accounted, CountVerdict;
  }

  lemma SilentLoopTurnCounts(s: State, l: LetterLoop, turn: Turn)
    requires Running(s) && Accounted(s) && ItemInPlace(s) && LoopInStep(s, l) && EnvironmentTurn(Some(l), turn)
             && !CountsALetter(turn)
    ensures var r := CountAnswer(s, turn);
            && Accounted(r)
               && (Concluded(r) || (Running(r) && ItemInPlace(r) && LoopInStep(r, LoopAfter(Some(l), turn).value)))
  {
    if Unanswered(s) { ItemAnswered(s, turn.answerCorrect); }
    hide RecordAnswer, Running, Concluded, Words, Letters, Accounted, CountVerdict;
  }

  lemma PlainTurnCounts(s: State, turn: Turn)
    requires Running(s) && Accounted(s) && ItemInPlace(s) && EnvironmentTurn(None, turn)
    ensures var r := CountAnswer(s, turn); Accounted(r) && (Concluded(r) || (Running(r) && ItemInPlace(r)))
  {
    if Unanswered(s) { ItemAnswered(s, turn.answerCorrect); }
    hide RecordAnswer, Running, Concluded, Words, Letters, Accounted;
  }

  /** The loop's return word becomes an item nobody has been given before. */
  lemma AdoptKeeps(s: State, l: LetterLoop, turn: Turn)
    requires Accounted(s) && Running(s) && ItemInPlace(s) && LoopInStep(s, l)
    requires turn.lettersAfter == Some(l.counts)
    requires l.counts.done && turn.inWordState && CountVerdict(l.counts.tally) == Some(Passed) ==>
             turn.word == l.wordIfPassed
    requires s.item.Some? && s.item.value.stage == Letter ==> s.item.value.answered
    ensures var r := AdoptWord(s, turn); Accounted(r) && Running(r) && ItemInPlace(r) && LoopInStep(r, l)
  {
    assert s.stage == Word ==> s.outcomes.word == None;
    hide Words, Letters;
    if l.counts.done && turn.inWordState && s.stage == Word && s.item.Some? && s.item.value.stage == Letter {
      var r := AdoptWord(s, turn);
      assert r.used.word == s.used.word + [l.wordIfPassed];
      assert Running(r);
    }
  }

  /** Noting a paragraph drill word touches nothing the invariant reads. */
  lemma NoteKeeps(s: State, turn: Turn, loop: Option<LetterLoop>)
    requires Sound(Session(s, loop))
    ensures Sound(Session(NoteDrill(s, turn), loop))
  {
    var r := NoteDrill(s, turn);
    assert (Running(s) ==> Running(r)) && (Ended(s) ==> Ended(r));
    hide Running, Ended, Words, Letters;
  }

  lemma LoopTurnKeepsSound(s: State, l: LetterLoop, turn: Turn)
    requires s.status == InProgress && Sound(Session(s, Some(l))) && EnvironmentTurn(Some(l), turn)
    ensures Sound(Session(AdoptWord(CountAnswer(s, turn), turn), LoopAfter(Some(l), turn)))
  {
    var r := CountAnswer(s, turn);
    var l' := LoopAfter(Some(l), turn).value;
    LoopTurnCounts(s, l, turn);
    hide CountAnswer, Accounted, Running, Concluded;
    if Running(r) {
      assert r.item.Some? && r.item.value.stage == Letter ==> r.item.value.answered by { RunningHasNoLetterDue(r); }
      AdoptKeeps(r, l', turn);
      hide *;
      RunningIsInProgress(AdoptWord(r, turn));
      SoundWithLoop(AdoptWord(r, turn), l');
    } else {
      assert r.status == Done by { ConcludedIsDone(r); }
    }
  }

  lemma RunningHasNoLetterDue(s: State)
    requires ItemInPlace(s)
    ensures s.item.Some? && s.item.value.stage == Letter ==> s.item.value.answered
  {
  }

  lemma RunningIsInProgress(s: State)
    requires Running(s)
    ensures s.status == InProgress
  {
  }

  lemma ConcludedIsDone(s: State)
    requires Concluded(s)
    ensures s.status == Done && Ended(s)
  {
  }

  lemma EarlyEndIsConsistent(s: State)
    requires Running(s)
    ensures Ended(Finish(s)) && Finish(s).status == Done
  {
    OrderSeparates(s);
  }

  lemma SoundWithLoop(s: State, l: LetterLoop)
    requires Accounted(s) && Running(s) && ItemInPlace(s) && LoopInStep(s, l)
    ensures Sound(Session(s, Some(l)))
  {
  }

  lemma PlainTurnKeepsSound(s: State, turn: Turn)
    requires s.status == InProgress && Sound(Session(s, None)) && EnvironmentTurn(None, turn)
    ensures Sound(Session(AdoptWord(CountAnswer(s, turn), turn), LoopAfter(None, turn)))
  {
    PlainTurnCounts(s, turn);
    var r := CountAnswer(s, turn);
    hide CountAnswer, Accounted, Running, Words, Letters;
    assert AdoptWord(r, turn) == r;
    if !Running(r) { ConcludedIsDone(r); }
  }

  lemma TurnKeepsSound(se: Session, turn: Turn)
    requires Sound(se) && EnvironmentTurn(se.loop, turn)
    ensures Sound(Next(se, Spoke(turn)))
  {
    var s := se.aser;
    if s.status == InProgress {
      if se.loop.Some? { LoopTurnKeepsSound(s, se.loop.value, turn); } else { PlainTurnKeepsSound(s, turn); }
      hide Sound, EnvironmentTurn, CountAnswer, AdoptWord, NoteDrill, LoopAfter;
      NoteKeeps(AdoptWord(CountAnswer(s, turn), turn), turn, LoopAfter(se.loop, turn));
    }
  }

  /** What a voice turn counts: a letter's first answer when the letter counts grow, right when the right ones grow;
      else the first answer to the item, as it was judged; else nothing. */
  lemma TurnCountsOneAnswer(s: State, turn: Turn)
    requires s.status == InProgress
    ensures var r := ApplyAserTurn(s, turn);
            match (turn.lettersBefore, turn.lettersAfter, turn.askedLetter)
            case (Some(before), Some(after), Some(letter)) =>
              if Total(after.tally) > Total(before.tally) then
                && r.counts.letter == Bumped(s.counts.letter, after.tally.correct > before.tally.correct, 1)
                && r.counts == s.counts.(letter := r.counts.letter)
                && r.used.letter == s.used.letter + [letter]
              else OneAnswerOf(s, r, turn.answerCorrect)
            case _ => OneAnswerOf(s, r, turn.answerCorrect)
  {
    CountedTurn(s, turn);
    hide CountAnswer, RecordAnswer;
  }

  /** The first answer to the waiting item is counted at its level, or nothing is. */
  ghost predicate OneAnswerOf(s: State, r: State, correct: bool) {
    && r.used.letter == s.used.letter
    && r.counts == match s.item
                   case Some(Item(Letter, _, false)) => s.counts.(letter := Bumped(s.counts.letter, correct, 1))
                   case Some(Item(Word, _, false)) => s.counts.(word := Bumped(s.counts.word, correct, 1))
                   case Some(Item(Paragraph, _, false)) =>
                     s.counts.(paragraph := Bumped(s.counts.paragraph, correct, 1))
                   case Some(Item(Story, _, false)) => s.counts.(story := Bumped(s.counts.story, correct, 1))
                   case _ => s.counts
  }

  lemma CountedTurn(s: State, turn: Turn)
    requires s.status == InProgress
    ensures var r := CountAnswer(s, turn);
            if CountsALetter(turn) then
              && r.counts == s.counts.(letter := Bumped(s.counts.letter, turn.lettersAfter.value.tally.correct
                                                                         > turn.lettersBefore.value.tally.correct, 1))
              && r.used.letter == s.used.letter + [turn.askedLetter.value]
            else OneAnswerOf(s, r, turn.answerCorrect)
  {
    if CountsALetter(turn) {
      var t := WithItem(s, Item(Letter, turn.askedLetter.value, false));
      AnswerTouchesOnlyItsItem(t, turn.lettersAfter.value.tally.correct > turn.lettersBefore.value.tally.correct);
    } else if Unanswered(s) {
      AnswerTouchesOnlyItsItem(s, turn.answerCorrect);
    }
    hide RecordAnswer;
  }

  /** When the letters are passed and the lesson goes on to a word, that word, which was not given before, is the
      next item, unless a word of this lesson already was. */
  lemma PassedLettersGoOnToAWord(se: Session, turn: Turn)
    requires se.loop.Some? && se.aser.status == InProgress && Sound(se) && EnvironmentTurn(se.loop, turn)
    requires turn.lettersAfter.value.done && turn.inWordState
    ensures var s, r := se.aser, Next(se, Spoke(turn)).aser;
            r.status == InProgress && r.stage == Word
              && (CountsALetter(turn) || (s.item.Some? && s.item.value.stage == Letter)) ==>
              && r.item == Some(Item(Word, se.loop.value.wordIfPassed, false))
              && r.used.word == s.used.word + [se.loop.value.wordIfPassed]
  {
    LoopTurnCounts(se.aser, se.loop.value, turn);
    CountedItem(se.aser, turn);
    var r := CountAnswer(se.aser, turn);
    if Running(r) { LetterVerdictIsOutcome(r); }
    hide CountAnswer, RecordAnswer, Accounted, Words, Letters, Running, Concluded;
  }

  lemma CountedItem(s: State, turn: Turn)
    requires s.status == InProgress
    ensures var r := CountAnswer(s, turn);
            && r.used.word == s.used.word
            && (CountsALetter(turn) ==> r.item == Some(Item(Letter, turn.askedLetter.value, true)))
            && (!CountsALetter(turn) && s.item.Some? ==> r.item == Some(s.item.value.(answered := true)))
  {
    if CountsALetter(turn) {
      var t := WithItem(s, Item(Letter, turn.askedLetter.value, false));
      AnswerTouchesOnlyItsItem(t, turn.lettersAfter.value.tally.correct > turn.lettersBefore.value.tally.correct);
    } else if Unanswered(s) {
      AnswerTouchesOnlyItsItem(s, turn.answerCorrect);
    }
    hide RecordAnswer;
  }

  /** A turn keeps exactly two records of drilled words: those answered wrong at the word level, and those chosen for a
      drill while a paragraph is read, each of the latter once. */
  lemma TurnNotesDrills(s: State, turn: Turn)
    requires s.status == InProgress
    ensures var r := ApplyAserTurn(s, turn);
            && r.paragraphDrills ==
               (if r.item.Some? && r.item.value.stage == Paragraph && turn.drillWordChosen
                   && turn.word !in s.paragraphDrills then s.paragraphDrills + [turn.word] else s.paragraphDrills)
            && r.wordDrills ==
               s.wordDrills + (if !CountsALetter(turn) && Unanswered(s) && s.item.value.stage == Word
                                  && !turn.answerCorrect then [s.item.value.value] else [])
  {
    if CountsALetter(turn) {
      var t := WithItem(s, Item(Letter, turn.askedLetter.value, false));
      AnswerTouchesOnlyItsItem(t, turn.lettersAfter.value.tally.correct > turn.lettersBefore.value.tally.correct);
    } else if Unanswered(s) {
      AnswerTouchesOnlyItsItem(s, turn.answerCorrect);
    }
    hide RecordAnswer;
  }

  // Fresh lessons.

  lemma ShuffledItems(d: seq<string>, items: seq<string>)
    requires multiset(d) == multiset(items)
    ensures |d| == |items| && forall x :: x in d <==> x in items
  {
    assert |d| == |multiset(d)| == |multiset(items)| == |items|;
    forall x ensures x in d <==> x in items { assert x in d <==> x in multiset(d); }
  }

  lemma LetterDraw(s: State, d: Draw)
    requires Running(s) && Accounted(s) && !Unanswered(s) && FairDraw(s, d) && s.stage == Letter
    ensures var plan := DrawNext(s, d); plan.Deliver? && Sound(Session(plan.aser, StartLoop(plan.input)))
  {
    ShuffledItems(d.letters, RemainingBankItems(s.(stage := Letter)));
    ShuffledItems(d.words, RemainingBankItems(s.(stage := Word)));
    BankNotExhausted(s);
    WordsAreTen(s.bank);
    assert s.(stage := Letter) == s;
    hide Words, Letters;
    var plan := DrawNext(s, d);
    var l := StartLoop(plan.input).value;
    if s.outcomes.word == None {
      assert d.words[0] in RemainingBankItems(s.(stage := Word));
    }
    assert forall p :: p in l.pending ==> p in RemainingBankItems(s);
    assert LoopInStep(plan.aser, l);
    hide LoopInStep;
    assert Running(plan.aser);
  }

  lemma WordDraw(s: State, d: Draw)
    requires Running(s) && Accounted(s) && !Unanswered(s) && s.stage == Word
    ensures var plan := DrawNext(s, d);
            plan.Deliver? && Sound(Session(plan.aser, None)) && StartLoop(plan.input) == None
  {
    BankNotExhausted(s);
    assert s.(stage := Word) == s && s.outcomes.word == None;
    hide Words, Letters;
    var remaining := RemainingBankItems(s);
    var value := remaining[d.pick % |remaining|];
    assert value in remaining;
    var r := WithItem(s, Item(Word, value, false));
    assert r.used.word == s.used.word + [value];
    assert Running(r);
  }

  /** Drawing never finds a bank exhausted, and hands over only what was not delivered before. */
  lemma DrawKeepsSound(s: State, d: Draw)
    requires Running(s) && Accounted(s) && !Unanswered(s) && FairDraw(s, d)
    ensures var plan := DrawNext(s, d);
            match plan
            case Deliver(r, input) => Sound(Session(r, StartLoop(input)))
            case EndEarly(r, reason) => Sound(Session(r, None)) && reason == NoPassage
            case Normal(_) => false
  {
    match s.stage
    case Letter => LetterDraw(s, d); hide *;
    case Word => WordDraw(s, d); hide DrawNext, Sound;
    case _ => PassageDraw(s, d); hide DrawNext, Sound;
  }

  lemma PassageDraw(s: State, d: Draw)
    requires Running(s) && Accounted(s) && !Unanswered(s) && (s.stage == Paragraph || s.stage == Story)
    ensures var plan := DrawNext(s, d);
            if d.passage.Some? then plan.Deliver? && StartLoop(plan.input) == None && Sound(Session(plan.aser, None))
            else plan == EndEarly(Finish(s), NoPassage) && Sound(Session(Finish(s), None))
  {
    hide Words, Letters;
    if d.passage.Some? {
      assert Running(WithItem(s, Item(s.stage, d.passage.value, false)));
    } else {
      EarlyEndIsConsistent(s);
    }
    hide Ended, Running;
  }

  /** Resuming redelivers the unanswered item, or draws afresh. */
  lemma PlanKeepsSound(se: Session, d: Draw)
    requires Sound(se) && FairDraw(se.aser, d)
    ensures Sound(Next(se, Fresh(d)))
    ensures var plan := PlanFreshLesson(se.aser, d); plan.EndEarly? ==> plan.reason == NoPassage
  {
    var s := se.aser;
    if s.status == InProgress {
      if !Unanswered(s) {
        DrawKeepsSound(s, d);
        hide DrawNext, Sound;
      } else if s.item.value.stage != Word && !d.passageStillThere {
        var t := s.(item := None);
        assert Running(t) && Accounted(t) && FairDraw(t, d) by { hide Words, Letters; SameItems(s, t); }
        DrawKeepsSound(t, d);
        hide DrawNext, Sound;
      } else {
        hide DrawNext, Words, Letters;
      }
    }
  }

  lemma SameItems(s: State, t: State)
    requires t == s.(item := None)
    ensures RemainingBankItems(s.(stage := Letter)) == RemainingBankItems(t.(stage := Letter))
    ensures RemainingBankItems(s.(stage := Word)) == RemainingBankItems(t.(stage := Word))
  {
  }

  // ---------------------------------------------------------------------------
  // What a lesson hands over
  // ---------------------------------------------------------------------------

  lemma {:induction false} WithoutKeepsDistinct(items: seq<string>, used: seq<string>)
    requires NoDuplicates(items)
    ensures NoDuplicates(Without(items, used))
    decreases |items|
  {
    if items != [] { WithoutKeepsDistinct(items[1..], used); }
  }

  lemma ShuffledKeepsDistinct(d: seq<string>, items: seq<string>)
    requires multiset(d) == multiset(items) && NoDuplicates(items)
    ensures NoDuplicates(d)
  {
    forall k, l | 0 <= k < l < |d| ensures d[k] != d[l] {
      TwoOccurTwice(d, k, l);
      DistinctOccurOnce(items, d[k]);
    }
  }

  lemma TwoOccurTwice(d: seq<string>, k: nat, l: nat)
    requires k < l < |d|
    ensures d[k] == d[l] ==> multiset(d)[d[k]] >= 2
  {
    assert d == d[..k] + [d[k]] + d[k + 1..l] + [d[l]] + d[l + 1..];
  }

  lemma {:induction false} DistinctOccurOnce(items: seq<string>, x: string)
    requires NoDuplicates(items)
    ensures multiset(items)[x] <= 1
    decreases |items|
  {
    if items != [] {
      DistinctOccurOnce(items[1..], x);
      assert items == [items[0]] + items[1..];
      if items[0] == x { assert x !in items[1..]; assert x !in multiset(items[1..]); }
    }
  }

  /** The lesson is about the item on record. A word lesson hands over the unanswered item, which was either waiting or
      is an undelivered word of the bank; a passage lesson hands over the unanswered item of its stage; a letter lesson
      hands over exactly the undelivered letters, each once, with the counts so far, and an undelivered word to go on
      with while words are undecided. */
  ghost predicate HandsOver(s: State, d: Draw, plan: Plan) {
    && (s.status == InProgress && Unanswered(s) && (s.stage == Word || d.passageStillThere) ==>
          plan.Deliver? && plan.aser == s)
    && match plan
       case Deliver(r, WordInput(w)) =>
         && r.item == Some(Item(Word, w, false)) && r.stage == Word && w in Words(r.bank) && w in r.used.word
         && (r == s || (w !in s.used.word && r.used.word == s.used.word + [w]))
       case Deliver(r, PassageInput(p)) =>
         && r.item == Some(Item(r.stage, p, false)) && (r.stage == Paragraph || r.stage == Story)
         && (r == s || (d.passage == Some(p) && r.used.Get(r.stage) == s.used.Get(r.stage) + [p]))
       case Deliver(r, LetterInput(test)) =>
         && r.item == None && r.stage == Letter && NoDuplicates(test.letters) && test.counts == r.counts.letter
         && (forall l :: l in test.letters <==> l in Letters(r.bank) && l !in r.used.letter)
         && test.wordIfPassed in Words(r.bank) && test.wordIfFailed in Words(r.bank)
         && (r.outcomes.word == None ==> test.wordIfPassed !in r.used.word)
       case EndEarly(r, _) =>
         (s.stage == Paragraph || s.stage == Story) && d.passage == None && r.outcomes == s.outcomes
       case Normal(level) => s.status == Done && level == s.placementLevel
  }

  lemma PlanHandsOver(se: Session, d: Draw)
    requires Sound(se) && FairDraw(se.aser, d)
    ensures HandsOver(se.aser, d, PlanFreshLesson(se.aser, d))
  {
    var s := se.aser;
    if s.status == InProgress {
      if !Unanswered(s) {
        DrawHandsOver(s, d);
        hide DrawNext, Words, Letters, HandsOver;
      } else if s.item.value.stage != Word && !d.passageStillThere {
        var t := s.(item := None);
        assert Running(t) && Accounted(t) && FairDraw(t, d) by { hide Words, Letters; SameItems(s, t); }
        DrawHandsOver(t, d);
        hide DrawNext, Words, Letters, Running, Accounted, FairDraw;
      } else {
        RedeliveryHandsOver(s, d);
        hide DrawNext, Words, Letters, HandsOver;
      }
    }
  }

  /** Resuming hands over the item that was waiting. */
  lemma RedeliveryHandsOver(s: State, d: Draw)
    requires Running(s) && Accounted(s) && ItemInPlace(s) && Unanswered(s)
    requires s.item.value.stage == Word || d.passageStillThere
    ensures HandsOver(s, d, PlanFreshLesson(s, d))
  {
    hide DrawNext, Words, Letters, Running;
    if s.item.value.stage == Word { assert s.item.value.value in s.used.word; }
  }

  lemma DrawHandsOver(s: State, d: Draw)
    requires Running(s) && Accounted(s) && !Unanswered(s) && FairDraw(s, d)
    ensures HandsOver(s, d, DrawNext(s, d))
  {
    match s.stage
    case Letter => LetterDrawHandsOver(s, d);
    case Word => WordDrawHandsOver(s, d);
    case _ => PassageDrawHandsOver(s, d);
    hide *;
  }

  lemma PassageDrawHandsOver(s: State, d: Draw)
    requires !Unanswered(s) && (s.stage == Paragraph || s.stage == Story)
    ensures HandsOver(s, d, DrawNext(s, d))
  {
    hide Words, Letters;
  }

  lemma LetterDrawHandsOver(s: State, d: Draw)
    requires Running(s) && Accounted(s) && !Unanswered(s) && FairDraw(s, d) && s.stage == Letter
    ensures HandsOver(s, d, DrawNext(s, d))
  {
    ShuffledItems(d.letters, RemainingBankItems(s.(stage := Letter)));
    BankNotExhausted(s);
    LettersAreTen(s.bank);
    WithoutKeepsDistinct(Letters(s.bank), s.used.letter);
    assert s.(stage := Letter) == s;
    ShuffledKeepsDistinct(d.letters, RemainingBankItems(s));
    SpareWords(s, d);
    hide Words, Letters, Running, Accounted, FairDraw, NoDuplicates;
  }

  /** The words a letter lesson is handed to go on with. */
  lemma SpareWords(s: State, d: Draw)
    requires Running(s) && Accounted(s) && !Unanswered(s) && FairDraw(s, d)
    ensures var spare := if |d.words| > 0 then d.words else Words(s.bank);
            && spare != [] && spare[0] in Words(s.bank) && spare[if |spare| > 1 then 1 else 0] in Words(s.bank)
            && (s.outcomes.word == None ==> spare[0] !in s.used.word)
  {
    ShuffledItems(d.words, RemainingBankItems(s.(stage := Word)));
    BankNotExhausted(s);
    WordsAreTen(s.bank);
    hide Words, Letters, Running, Accounted;
    if |d.words| > 0 {
      assert d.words[0] in d.words && d.words[if |d.words| > 1 then 1 else 0] in d.words;
      hide RemainingBankItems;
      SpareIsUnused(s, d.words[0]);
      SpareIsUnused(s, d.words[if |d.words| > 1 then 1 else 0]);
    }
  }

  lemma SpareIsUnused(s: State, w: string)
    ensures w in RemainingBankItems(s.(stage := Word)) <==> w in Words(s.bank) && w !in s.used.word
  {
    hide Words;
  }

  lemma WordDrawHandsOver(s: State, d: Draw)
    requires Running(s) && Accounted(s) && !Unanswered(s) && s.stage == Word
    ensures HandsOver(s, d, DrawNext(s, d))
  {
    BankNotExhausted(s);
    assert s.(stage := Word) == s && s.outcomes.word == None;
    hide Words, Letters;
    var remaining := RemainingBankItems(s);
    assert remaining[d.pick % |remaining|] in remaining;
  }

  // ---------------------------------------------------------------------------
  // Whole histories of a run
  // ---------------------------------------------------------------------------

  function After(se: Session, events: seq<Event>): Session
    decreases |events|
  {
    if events == [] then se else After(Next(se, events[0]), events[1..])
  }

  ghost predicate PossibleRun(se: Session, events: seq<Event>)
    decreases |events|
  {
    events == [] || (Possible(se, events[0]) && PossibleRun(Next(se, events[0]), events[1..]))
  }

  lemma {:induction false} StaysSound(se: Session, events: seq<Event>)
    requires Sound(se) && PossibleRun(se, events)
    ensures Sound(After(se, events))
    decreases |events|
  {
    if events != [] {
      hide Sound, Next, Possible;
      StepKeepsSound(se, events[0]);
      StaysSound(Next(se, events[0]), events[1..]);
    }
  }

  lemma NewSessionIsSound(run: nat, milestone: nat, bank: Bank, startStage: Stage)
    ensures Sound(Session(NewState(run, milestone, bank, startStage), None))
  {
    hide Words, Letters;
  }

  /** Over any lessons, turns, abandons and resumes of a run: the delivered letters and words are distinct bank items,
      as many as answers counted plus the one unanswered word if there is one, and the next lesson never finds its bank
      exhausted and hands over the item on record. */
  lemma DeliveryIsSound(run: nat, milestone: nat, bank: Bank, startStage: Stage, events: seq<Event>, d: Draw)
    requires var se := Session(NewState(run, milestone, bank, startStage), None);
             PossibleRun(se, events) && FairDraw(After(se, events).aser, d)
    ensures var s := After(Session(NewState(run, milestone, bank, startStage), None), events).aser;
            && Accounted(s) && Answers(s) <= MAX_ANSWERS
            && (if s.status == InProgress then Running(s) && ItemInPlace(s) else Ended(s))
            && HandsOver(s, d, PlanFreshLesson(s, d))
            && (var plan := PlanFreshLesson(s, d); plan.EndEarly? ==> plan.reason == NoPassage)
  {
    var se := Session(NewState(run, milestone, bank, startStage), None);
    NewSessionIsSound(run, milestone, bank, startStage);
    StaysSound(se, events);
    var end := After(se, events);
    PlanKeepsSound(end, d);
    PlanHandsOver(end, d);
    AnswersAreBounded(end.aser);
    hide Answers, Ended, After, PossibleRun, NewState, PlanFreshLesson, Accounted, Running, HandsOver;
  }

  // What two lessons of a history hand over.

  lemma {:induction false} RunSplits(se: Session, before: seq<Event>, after: seq<Event>)
    ensures After(se, before + after) == After(After(se, before), after)
    ensures PossibleRun(se, before + after) ==> PossibleRun(se, before) && PossibleRun(After(se, before), after)
    decreases |before|
  {
    hide Next, Possible;
    if before == [] {
      assert before + after == after;
    } else {
      assert (before + after)[0] == before[0] && (before + after)[1..] == before[1..] + after;
      RunSplits(Next(se, before[0]), before[1..], after);
    }
  }

  /** A word becomes the waiting item only by being delivered, which puts it on record. */
  lemma WaitingWordsAreRecorded(se: Session, e: Event, w: string)
    ensures var s, r := se.aser, Next(se, e).aser;
            && s.used.word <= r.used.word
            && (r.item == Some(Item(Word, w, false)) ==> r.item == s.item || r.used.word == s.used.word + [w])
  {
    hide Words, Letters, AfterCount, Decide, Finish;
    match e {
      case Spoke(turn) => TurnRecordsWords(se.aser, turn, w);
      case Fresh(d) => LessonRecordsWords(se.aser, d, w);
    }
  }

  lemma TurnRecordsWords(s: State, turn: Turn, w: string)
    ensures var r := ApplyAserTurn(s, turn);
            && s.used.word <= r.used.word
            && (r.item == Some(Item(Word, w, false)) ==> r.item == s.item || r.used.word == s.used.word + [w])
  {
    CountingRecordsNoWord(s, turn);
    hide CountAnswer;
  }

  /** Counting an answer delivers no word: the item stays, is answered or is a letter. */
  lemma CountingRecordsNoWord(s: State, turn: Turn)
    ensures var r := CountAnswer(s, turn);
            r.used.word == s.used.word && (r.item == s.item || !Unanswered(r) || r.item.value.stage == Letter)
  {
    var t := if CountsALetter(turn) then WithItem(s, Item(Letter, turn.askedLetter.value, false)) else s;
    if t.status == InProgress && t.item.Some? && !t.item.value.answered {
      AnswerTouchesOnlyItsItem(t, true);
      AnswerTouchesOnlyItsItem(t, false);
    } else {
      NothingToRecord(t);
    }
    hide RecordAnswer;
  }

  lemma NothingToRecord(s: State)
    requires s.status == Done || !Unanswered(s)
    ensures forall correct :: RecordAnswer(s, correct) == s
  {
  }

  lemma LessonRecordsWords(s: State, d: Draw, w: string)
    ensures match PlanFreshLesson(s, d)
            case Deliver(r, _) =>
              && s.used.word <= r.used.word
              && (r.item == Some(Item(Word, w, false)) ==> r.item == s.item || r.used.word == s.used.word + [w])
            case EndEarly(r, _) => r.used == s.used && (r.item == s.item || r.item == None)
            case Normal(_) => true
  {
    hide Words, Letters, RemainingBankItems;
  }

  /** A delivered word that is not waiting for its answer never waits for one again. */
  lemma {:induction false} AnsweredWordsStayAnswered(se: Session, events: seq<Event>, w: string)
    requires Sound(se) && PossibleRun(se, events)
    requires w in se.aser.used.word && se.aser.item != Some(Item(Word, w, false))
    ensures var s := After(se, events).aser; w in s.used.word && s.item != Some(Item(Word, w, false))
    decreases |events|
  {
    if events != [] {
      AnsweredWordStaysAnswered(se, events[0], w);
      hide Sound, Next, Possible;
      AnsweredWordsStayAnswered(Next(se, events[0]), events[1..], w);
    }
  }

  lemma AnsweredWordStaysAnswered(se: Session, e: Event, w: string)
    requires Sound(se) && Possible(se, e)
    requires w in se.aser.used.word && se.aser.item != Some(Item(Word, w, false))
    ensures var next := Next(se, e);
            Sound(next) && w in next.aser.used.word && next.aser.item != Some(Item(Word, w, false))
  {
    StepKeepsSound(se, e);
    WaitingWordsAreRecorded(se, e, w);
    SoundIsDistinct(Next(se, e));
    var s, r := se.aser, Next(se, e).aser;
    hide *;
    if r.used.word == s.used.word + [w] { RepeatIsNotDistinct(s.used.word, w); }
  }

  lemma RepeatIsNotDistinct(s: seq<string>, w: string)
    requires w in s
    ensures !NoDuplicates(s + [w])
  {
    var k :| 0 <= k < |s| && s[k] == w;
    assert (s + [w])[k] == (s + [w])[|s|];
  }

  lemma StepKeepsSound(se: Session, e: Event)
    requires Sound(se) && Possible(se, e)
    ensures Sound(Next(se, e))
  {
    hide Sound, Next;
    match e
    case Fresh(d) => PlanKeepsSound(se, d);
    case Spoke(turn) => TurnKeepsSound(se, turn);
  }

  lemma SoundIsDistinct(se: Session)
    requires Sound(se)
    ensures NoDuplicates(se.aser.used.word)
  {
  }

  /** What the lesson that starts at event k is given. */
  ghost function PlanAt(se: Session, events: seq<Event>, k: nat): Plan
    requires k < |events| && events[k].Fresh?
  {
    PlanFreshLesson(After(se, events[..k]).aser, events[k].draw)
  }

  /** Over any history, two lessons hand over different words, unless the second hands over again the word of the first,
      which was waiting for its answer all the time between them. */
  lemma HandedWordsDiffer(run: nat, milestone: nat, bank: Bank, startStage: Stage, events: seq<Event>, a: nat, b: nat)
    requires a < b < |events| && events[a].Fresh? && events[b].Fresh?
    requires PossibleRun(Session(NewState(run, milestone, bank, startStage), None), events)
    ensures var se := Session(NewState(run, milestone, bank, startStage), None);
            var first, second := PlanAt(se, events, a), PlanAt(se, events, b);
            first.Deliver? && first.input.WordInput? && second.Deliver? && second.input == first.input ==>
              forall c :: a < c <= b ==> After(se, events[..c]).aser.item == Some(Item(Word, first.input.word, false))
  {
    var se := Session(NewState(run, milestone, bank, startStage), None);
    NewSessionIsSound(run, milestone, bank, startStage);
    var first, second := PlanAt(se, events, a), PlanAt(se, events, b);
    hide *;
    if first.Deliver? && first.input.WordInput? && second.Deliver? && second.input == first.input {
      forall c | a < c <= b ensures After(se, events[..c]).aser.item == Some(Item(Word, first.input.word, false)) {
        HandedAgainMeansWaiting(se, events, a, b, c, first.input.word);
      }
    }
  }

  lemma HandedAgainMeansWaiting(se: Session, events: seq<Event>, a: nat, b: nat, c: nat, w: string)
    requires Sound(se) && PossibleRun(se, events)
    requires a < c <= b < |events| && events[a].Fresh? && events[b].Fresh?
    requires PlanAt(se, events, a).Deliver? && PlanAt(se, events, a).input == WordInput(w)
    requires PlanAt(se, events, b).Deliver? && PlanAt(se, events, b).input == WordInput(w)
    ensures After(se, events[..c]).aser.item == Some(Item(Word, w, false))
  {
    hide *;
    HandedIsRecorded(se, events, a, w);
    HandedIsRecorded(se, events, b, w);
    OnRecordSince(se, events, a, c, w);
    SplitAt(se, events, c, b);
    var now := After(se, events[..c]);
    if now.aser.item != Some(Item(Word, w, false)) { AnsweredWordsStayAnswered(now, events[c..b], w); }
  }

  /** A prefix of a possible history, and what happens between it and a longer one. */
  lemma SplitAt(se: Session, events: seq<Event>, c: nat, b: nat)
    requires Sound(se) && PossibleRun(se, events) && c <= b <= |events|
    ensures Sound(After(se, events[..c])) && PossibleRun(After(se, events[..c]), events[c..b])
    ensures After(After(se, events[..c]), events[c..b]) == After(se, events[..b])
  {
    hide *;
    PrefixIsSound(se, events, c);
    assert events[..c] + events[c..b] == events[..b];
    PossiblePrefix(se, events, b);
    RunSplits(se, events[..c], events[c..b]);
  }

  /** A word handed over is on record after its lesson starts, and was waiting or unrecorded before. */
  lemma HandedIsRecorded(se: Session, events: seq<Event>, k: nat, w: string)
    requires Sound(se) && PossibleRun(se, events) && k < |events| && events[k].Fresh?
    requires PlanAt(se, events, k).Deliver? && PlanAt(se, events, k).input == WordInput(w)
    ensures w in PlanAt(se, events, k).aser.used.word
    ensures var s := After(se, events[..k]).aser; s.item == Some(Item(Word, w, false)) || w !in s.used.word
  {
    PrefixIsSound(se, events, k);
    hide Sound, After, PossibleRun, PlanFreshLesson, FairDraw;
    PlanHandsOver(After(se, events[..k]), events[k].draw);
  }

  lemma PossiblePrefix(se: Session, events: seq<Event>, k: nat)
    requires PossibleRun(se, events) && k <= |events|
    ensures PossibleRun(se, events[..k]) && PossibleRun(After(se, events[..k]), events[k..])
  {
    assert events[..k] + events[k..] == events;
    RunSplits(se, events[..k], events[k..]);
  }

  lemma PrefixIsSound(se: Session, events: seq<Event>, k: nat)
    requires Sound(se) && PossibleRun(se, events) && k <= |events|
    ensures Sound(After(se, events[..k]))
    ensures k < |events| ==> Possible(After(se, events[..k]), events[k])
  {
    PossiblePrefix(se, events, k);
    hide Sound, After;
    StaysSound(se, events[..k]);
  }

  /** What was handed over stays on record. */
  lemma {:induction false} OnRecordSince(se: Session, events: seq<Event>, a: nat, c: nat, w: string)
    requires a < c <= |events| && events[a].Fresh?
    requires PlanAt(se, events, a).Deliver? && w in PlanAt(se, events, a).aser.used.word
    ensures w in After(se, events[..c]).aser.used.word
    decreases c
  {
    assert events[..c] == events[..c - 1] + [events[c - 1]];
    RunSplits(se, events[..c - 1], [events[c - 1]]);
    var before := After(se, events[..c - 1]);
    assert After(before, [events[c - 1]]) == Next(before, events[c - 1]) by { assert [events[c - 1]][1..] == []; }
    if a < c - 1 {
      OnRecordSince(se, events, a, c - 1, w);
      WaitingWordsAreRecorded(before, events[c - 1], w);
    }
  }
}
