/** The onboarding state machine (src/onboarding/onboarding.machine.ts). */
module OnboardingMachine {
  import opened Numerals
  import opened Options

  const MIN_AGE: nat := 0
  const MAX_AGE: nat := 1000
  const NAME_MAX_LENGTH: nat := 60

  datatype Stid =
    | AskGuardianStid | AskGuardianRetry | AskConsentStid | ConsentInfo | ConsentRefusedStid | DeclinedStid
    | AskNameStid | AskAgeStid | AskMonthStid | Complete | UnintelligibleStid

  datatype StateName = AskGuardian | AskConsent | ConsentRefused | Declined | AskName | AskAge | AskMonth | Done

  const YES: string := "YES"
  const NO: string := "NO"
  const INFORMATION: string := "INFORMATION"
  const UNINTELLIGIBLE: string := "UNINTELLIGIBLE"
  const NONE: string := "NONE"
  const ANY: string := "ANY"

  datatype Context = Context(stids: seq<Stid>, birthYear: Option<int>, birthMonth: Option<nat>,
                             studentName: Option<string>)

  datatype Snapshot = Snapshot(value: StateName, context: Context)

  const INITIAL: Snapshot := Snapshot(AskGuardian, Context([AskGuardianStid], None, None, None))

  function AgeOf(value: string): Option<nat> {
    if !(IsDigits(value) && |value| <= 4) then None
    else if MIN_AGE <= ParseInt(value) <= MAX_AGE then Some(ParseInt(value)) else None
  }

  function MonthOf(value: string): Option<nat> {
    if !(IsDigits(value) && |value| <= 2) then None
    else if 1 <= ParseInt(value) <= 12 then Some(ParseInt(value)) else None
  }

  function Go(s: Snapshot, to: StateName, stids: seq<Stid>): Snapshot { Snapshot(to, s.context.(stids := stids)) }

  /** The machine's answer to a REPLY; the final state has no transitions. */
  function Reply(s: Snapshot, value: string, istYear: int): Snapshot {
    match s.value
    case AskGuardian =>
      if value == YES then Go(s, AskConsent, [AskConsentStid])
      else if value == NO then Go(s, AskGuardian, [AskGuardianRetry])
      else Go(s, AskGuardian, [UnintelligibleStid, AskGuardianStid])
    case AskConsent =>
      if value == YES then Go(s, AskName, [AskNameStid])
      else if value == INFORMATION then Go(s, AskConsent, [ConsentInfo])
      else if value == NO then Go(s, ConsentRefused, [ConsentRefusedStid])
      else Go(s, AskConsent, [UnintelligibleStid, AskConsentStid])
    case ConsentRefused =>
      if value == YES then Go(s, AskConsent, [ConsentInfo])
      else if value == NO then Go(s, Declined, [DeclinedStid])
      else Go(s, ConsentRefused, [UnintelligibleStid, ConsentRefusedStid])
    case Declined => Go(s, AskConsent, [AskConsentStid])
    case AskName =>
      Snapshot(AskAge, s.context.(studentName := if value == NONE then None else Some(value), stids := [AskAgeStid]))
    case AskAge =>
      if AgeOf(value).Some? then
        Snapshot(AskMonth, s.context.(birthYear := Some(istYear - AgeOf(value).value), stids := [AskMonthStid]))
      else Go(s, AskAge, [UnintelligibleStid, AskAgeStid])
    case AskMonth => Snapshot(Done, s.context.(birthMonth := MonthOf(value), stids := [Complete]))
    case Done => s
  }

  /** What normalizeClassification can hand the machine in each state. */
  ghost predicate Normalized(state: StateName, value: string) {
    match state
    case AskConsent => value == YES || value == NO || value == INFORMATION || value == UNINTELLIGIBLE
    case Declined => value == ANY
    case AskName => value == NONE || (0 < |value| <= NAME_MAX_LENGTH && value != UNINTELLIGIBLE)
    case AskAge => value == UNINTELLIGIBLE || exists n: nat :: n <= MAX_AGE && value == Show(n)
    case AskMonth => value == NONE || exists n: nat :: 1 <= n <= 12 && value == Show(n)
    case Done => false
    case _ => value == YES || value == NO || value == UNINTELLIGIBLE
  }

  lemma PrintedAgeIsRead(n: nat)
    requires n <= MAX_AGE
    ensures AgeOf(Show(n)) == Some(n)
  {
    ShowParses(n);
    ShortNumerals(n);
  }

  lemma PrintedMonthIsRead(n: nat)
    requires 1 <= n <= 12
    ensures MonthOf(Show(n)) == Some(n)
  {
    ShowParses(n);
    ShortNumerals(n);
  }

  function Zeros(n: nat): (r: string)
    ensures |r| == n
  {
    seq(n, _ => '0')
  }

  /** A numeral is the printed number behind some zeros. */
  lemma {:induction false} NumeralIsPadded(s: string)
    requires IsDigits(s)
    ensures |Show(ParseInt(s))| <= |s| && s == Zeros(|s| - |Show(ParseInt(s))|) + Show(ParseInt(s))
    decreases |s|
  {
    var n := |s| - 1;
    var front := ParseInt(s[..n]);
    ParseIntStep(s);
    LastDigit(front, s[n]);
    if n > 0 {
      NumeralIsPadded(s[..n]);
      PaddedStep(s, Show(front), front);
    } else {
      assert s[..0] == "" && s == Zeros(0) + [s[0]];
    }
  }

  lemma ParseIntStep(s: string)
    requires IsDigits(s)
    ensures ParseInt(s) == 10 * ParseInt(s[..|s| - 1]) + ((s[|s| - 1] - '0') as nat)
    ensures s[..|s| - 1] == "" ==> ParseInt(s[..|s| - 1]) == 0
  {
  }

  lemma PaddedStep(s: string, shown: string, front: nat)
    requires s != "" && |shown| < |s| && s[..|s| - 1] == Zeros(|s| - 1 - |shown|) + shown && shown == Show(front)
    ensures var last := [s[|s| - 1]];
            s == if front == 0 then Zeros(|s| - 1) + last else Zeros(|s| - 1 - |shown|) + (shown + last)
  {
    var n := |s| - 1;
    PrintedZero();
    hide Show;
    assert s == s[..n] + [s[n]];
    if front == 0 { assert s[..n] == Zeros(n); }
  }

  lemma PrintedZero()
    ensures Show(0) == "0"
  {
  }

  lemma LastDigit(front: nat, c: char)
    requires '0' <= c <= '9'
    ensures Show(10 * front + ((c - '0') as nat)) == (if front == 0 then [c] else Show(front) + [c])
  {
  }

  lemma {:induction false} ZerosDoNotCount(z: nat, s: string)
    requires IsDigits(s)
    ensures IsDigits(Zeros(z) + s) && ParseInt(Zeros(z) + s) == ParseInt(s)
    decreases |s|
  {
    var all, n := Zeros(z) + s, |s| - 1;
    assert all[..|all| - 1] == Zeros(z) + s[..n];
    if n > 0 {
      ZerosDoNotCount(z, s[..n]);
    } else {
      assert Zeros(z) + s[..0] == Zeros(z);
      ZerosAreZero(z);
    }
  }

  lemma {:induction false} ZerosAreZero(z: nat)
    ensures ParseInt(Zeros(z)) == 0
    decreases z
  {
    if z > 0 {
      ZerosAreZero(z - 1);
      assert Zeros(z)[..z - 1] == Zeros(z - 1);
    }
  }

  /** What is accepted as an age: the printed age, 0 to 1000, behind zeros that make it four digits at most. */
  lemma AcceptedAges(value: string, n: nat)
    ensures AgeOf(value) == Some(n) <==>
            n <= 1000 && |value| <= 4 && exists z: nat :: value == Zeros(z) + Show(n)
  {
    NumeralsOf(value, n);
    hide Show, ParseInt, IsDigits, Zeros;
  }

  /** .. and as a month: the printed month, 1 to 12, behind zeros that make it two digits at most. */
  lemma AcceptedMonths(value: string, n: nat)
    ensures MonthOf(value) == Some(n) <==>
            1 <= n <= 12 && |value| <= 2 && exists z: nat :: value == Zeros(z) + Show(n)
  {
    NumeralsOf(value, n);
    hide Show, ParseInt, IsDigits, Zeros;
  }

  lemma NumeralsOf(value: string, n: nat)
    ensures IsDigits(value) && ParseInt(value) == n <==> exists z: nat :: value == Zeros(z) + Show(n)
  {
    if z: nat :| value == Zeros(z) + Show(n) {
      ShowParses(n);
      ZerosDoNotCount(z, Show(n));
    }
    if IsDigits(value) && ParseInt(value) == n {
      NumeralIsPadded(value);
      var z := |value| - |Show(n)|;
      assert z >= 0 && value == Zeros(z) + Show(n);
    }
  }

  lemma WordsAreNotNumerals()
    ensures !IsDigits(UNINTELLIGIBLE) && !IsDigits(NONE)
  {
    assert UNINTELLIGIBLE[0] == 'U' && NONE[0] == 'N';
  }

  // ---------------------------------------------------------------------------
  // Runs
  // ---------------------------------------------------------------------------

  datatype Answer = Answer(value: string, istYear: int)

  function Run(s: Snapshot, answers: seq<Answer>): Snapshot {
    if answers == [] then s
    else var a := answers[|answers| - 1]; Reply(Run(s, answers[..|answers| - 1]), a.value, a.istYear)
  }

  /** Some answer of the run was a YES to the consent question. */
  ghost predicate Consented(answers: seq<Answer>) {
    exists k :: 0 <= k < |answers| && Run(INITIAL, answers[..k]).value == AskConsent && answers[k].value == YES
  }

  predicate PastConsent(v: StateName) { v == AskName || v == AskAge || v == AskMonth || v == Done }

  /** What is filled in when: nothing before the name is asked, the year once the month is asked. */
  ghost predicate Shaped(s: Snapshot) {
    && (!PastConsent(s.value) || s.value == AskName ==> s.context.studentName == None)
    && (!PastConsent(s.value) || s.value == AskName || s.value == AskAge ==> s.context.birthYear == None)
    && (s.value == AskMonth || s.value == Done ==> s.context.birthYear.Some?)
    && (s.value != Done ==> s.context.birthMonth == None)
  }

  lemma {:induction false} RunsAreShaped(answers: seq<Answer>)
    ensures Shaped(Run(INITIAL, answers))
    decreases |answers|
  {
    if answers != [] { RunsAreShaped(answers[..|answers| - 1]); }
  }

  /** Nobody gets past the consent question, let alone to the end, without a YES to it. */
  lemma {:induction false} NoDoneWithoutConsent(answers: seq<Answer>)
    ensures PastConsent(Run(INITIAL, answers).value) ==> Consented(answers)
    decreases |answers|
  {
    if answers != [] && PastConsent(Run(INITIAL, answers).value) {
      var n := |answers| - 1;
      NoDoneWithoutConsent(answers[..n]);
      if PastConsent(Run(INITIAL, answers[..n]).value) {
        var k :| 0 <= k < n && Run(INITIAL, answers[..n][..k]).value == AskConsent && answers[..n][k].value == YES;
        assert answers[..n][..k] == answers[..k];
      } else {
        assert Run(INITIAL, answers[..n]).value == AskConsent && answers[n].value == YES;
      }
    }
  }

  /** The prompts that ask the question of a state. */
  function Prompts(state: StateName): set<Stid> {
    match state
    case AskGuardian => {AskGuardianStid, AskGuardianRetry}
    case AskConsent => {AskConsentStid, ConsentInfo}
    case ConsentRefused => {ConsentRefusedStid}
    case Declined => {DeclinedStid}
    case AskName => {AskNameStid}
    case AskAge => {AskAgeStid}
    case AskMonth => {AskMonthStid}
    case Done => {Complete}
  }

  /** Whatever is answered, what is said next ends with a prompt of the state the run is in, alone or after the note
      that the reply was not understood. */
  lemma {:induction false} RunsSayTheirState(answers: seq<Answer>)
    ensures var s := Run(INITIAL, answers);
            var stids := s.context.stids;
            && (|stids| == 1 || (|stids| == 2 && stids[0] == UnintelligibleStid))
            && stids[|stids| - 1] in Prompts(s.value)
    decreases |answers|
  {
    if answers != [] {
      hide AgeOf, MonthOf;
      RunsSayTheirState(answers[..|answers| - 1]);
    }
  }

  /** A reply that is not understood repeats the question of the state and changes nothing else: anything but a word the
      question offers, or an age out of range. Names and months are never asked again. */
  lemma NotUnderstoodAsksAgain(s: Snapshot, value: string, istYear: int)
    requires s.value != Done
    ensures var r := Reply(s, value, istYear);
            var understood := match s.value
                              case AskConsent => value == "YES" || value == "NO" || value == "INFORMATION"
                              case AskAge => AgeOf(value).Some?
                              case Declined => true
                              case AskName => true
                              case AskMonth => true
                              case _ => value == "YES" || value == "NO";
            if understood then UnintelligibleStid !in r.context.stids
            else
              && r == Go(s, s.value, r.context.stids) && |r.context.stids| == 2
              && r.context.stids[0] == UnintelligibleStid
              && r.context.stids[1] != AskGuardianRetry && r.context.stids[1] != ConsentInfo
  {
    hide AgeOf, MonthOf;
  }

  /** Where YES, NO and INFORMATION lead, and what they are answered with; after declining any reply asks again. */
  lemma WordsMoveTheRun(s: Snapshot, value: string, istYear: int)
    requires s.value == AskGuardian || s.value == AskConsent || s.value == ConsentRefused || s.value == Declined
    requires value == "YES" || value == "NO" || (s.value == AskConsent && value == "INFORMATION") || s.value == Declined
    ensures Reply(s, value, istYear) ==
            match (s.value, value)
            case (AskGuardian, "YES") => Go(s, AskConsent, [AskConsentStid])
            case (AskGuardian, _) => Go(s, AskGuardian, [AskGuardianRetry])
            case (AskConsent, "YES") => Go(s, AskName, [AskNameStid])
            case (AskConsent, "NO") => Go(s, ConsentRefused, [ConsentRefusedStid])
            case (AskConsent, _) => Go(s, AskConsent, [ConsentInfo])
            case (Declined, _) => Go(s, AskConsent, [AskConsentStid])
            case (_, "YES") => Go(s, AskConsent, [ConsentInfo])
            case (_, _) => Go(s, Declined, [DeclinedStid])
  {
  }

  /** The answers that are neither YES nor NO. */
  ghost predicate Undecided(answers: seq<Answer>, from: nat) {
    forall k :: from <= k < |answers| ==> answers[k].value != "YES" && answers[k].value != "NO"
  }

  /** Answer k is a NO to the consent question, and no YES or NO follows it. */
  ghost predicate RefusesAt(answers: seq<Answer>, k: nat)
    requires k < |answers|
  {
    Run(INITIAL, answers[..k]).value == AskConsent && answers[k].value == "NO" && Undecided(answers, k + 1)
  }

  /** A run stands at the refusal exactly after a NO to the consent question that no YES or NO followed, .. */
  lemma {:induction false} RefusedAfterANo(answers: seq<Answer>)
    ensures Run(INITIAL, answers).value == ConsentRefused <==> exists k :: 0 <= k < |answers| && RefusesAt(answers, k)
    decreases |answers|
  {
    if answers != [] {
      var n := |answers| - 1;
      var before := answers[..n];
      RefusedAfterANo(before);
      ReplyAndTheRefusal(Run(INITIAL, before), answers[n].value, answers[n].istYear);
      RunUnfolds(answers);
      hide Run, Reply;
      forall k | 0 <= k < n ensures RefusesAt(answers, k) <==>
                                    RefusesAt(before, k) && answers[n].value != "YES" && answers[n].value != "NO"
      {
        assert before[..k] == answers[..k];
      }
      assert RefusesAt(answers, n) <==> Run(INITIAL, before).value == AskConsent && answers[n].value == "NO";
    }
  }

  lemma ReplyAndTheRefusal(s: Snapshot, value: string, istYear: int)
    ensures Reply(s, value, istYear).value == ConsentRefused <==>
            (s.value == AskConsent && value == "NO")
              || (s.value == ConsentRefused && value != "YES" && value != "NO")
    ensures s.value == AskConsent && value == "NO" ==> Reply(s, value, istYear).value == ConsentRefused
  {
    hide AgeOf, MonthOf;
  }

  /** .. and is declined exactly when the last answer was a NO there. */
  lemma DeclinedAfterTwoNos(answers: seq<Answer>)
    ensures Run(INITIAL, answers).value == Declined <==>
            answers != [] && answers[|answers| - 1].value == "NO"
              && Run(INITIAL, answers[..|answers| - 1]).value == ConsentRefused
  {
    if answers != [] {
      var last := answers[|answers| - 1];
      RunUnfolds(answers);
      ReplyAndDeclining(Run(INITIAL, answers[..|answers| - 1]), last.value, last.istYear);
      hide Run, Reply;
    }
  }

  lemma ReplyAndDeclining(s: Snapshot, value: string, istYear: int)
    ensures Reply(s, value, istYear).value == Declined <==> s.value == ConsentRefused && value == "NO"
  {
    hide AgeOf, MonthOf;
  }

  /** One accepted age sets the birth year to the year of the reply less the age. */
  lemma AgeBecomesBirthYear(s: Snapshot, n: nat, istYear: int)
    requires s.value == AskAge && n <= MAX_AGE
    ensures var r := Reply(s, Show(n), istYear); r.value == AskMonth && r.context.birthYear == Some(istYear - n)
  {
    PrintedAgeIsRead(n);
  }

  /** Answer k is a reply to the age question that states an age in range. */
  ghost predicate StatesAge(answers: seq<Answer>, k: nat)
    requires k < |answers|
  {
    Run(INITIAL, answers[..k]).value == AskAge && AgeOf(answers[k].value).Some?
  }

  /** A run holds a birth year exactly when one of its answers, and only one, stated an age; the year is the year of
      that answer less that age. So it is in every completed run. */
  lemma {:induction false} BirthYearIsTheStatedAge(answers: seq<Answer>)
    ensures var year := Run(INITIAL, answers).context.birthYear;
            && (Run(INITIAL, answers).value == Done ==> year.Some?)
            && (year.Some? <==> exists k :: 0 <= k < |answers| && StatesAge(answers, k))
            && (forall k :: 0 <= k < |answers| && StatesAge(answers, k) ==>
                  AgeOf(answers[k].value).Some? && year == Some(answers[k].istYear - AgeOf(answers[k].value).value))
            && (forall k, l :: 0 <= k < l < |answers| ==> !(StatesAge(answers, k) && StatesAge(answers, l)))
    decreases |answers|
  {
    RunsAreShaped(answers);
    hide Reply, AgeOf, StatesAge;
    if answers != [] {
      var n := |answers| - 1;
      var before := answers[..n];
      BirthYearIsTheStatedAge(before);
      OneAnswerStates(answers);
      EarlierAnswersState(answers);
      hide Run, Shaped;
      assert forall k :: 0 <= k < n && StatesAge(answers, k) ==> StatesAge(before, k);
      if Run(INITIAL, before).context.birthYear.Some? {
        var k :| 0 <= k < n && StatesAge(before, k);
        assert StatesAge(answers, k);
      }
    }
  }

  /** What the last answer does to the birth year. */
  lemma OneAnswerStates(answers: seq<Answer>)
    requires answers != []
    ensures var n := |answers| - 1;
            var before, after := Run(INITIAL, answers[..n]).context.birthYear, Run(INITIAL, answers).context.birthYear;
            if StatesAge(answers, n) then AgeOf(answers[n].value).Some? && before == None
              && after == Some(answers[n].istYear - AgeOf(answers[n].value).value)
            else after == before
  {
    hide Run, Reply, AgeOf, Shaped;
    var n := |answers| - 1;
    RunsAreShaped(answers[..n]);
    RunUnfolds(answers);
    ReplyAndTheYear(Run(INITIAL, answers[..n]), answers[n].value, answers[n].istYear);
  }

  lemma RunUnfolds(answers: seq<Answer>)
    requires answers != []
    ensures var n := |answers| - 1;
            Run(INITIAL, answers) == Reply(Run(INITIAL, answers[..n]), answers[n].value, answers[n].istYear)
  {
    hide Reply;
  }

  lemma ReplyAndTheYear(s: Snapshot, value: string, istYear: int)
    requires Shaped(s)
    ensures var year := Reply(s, value, istYear).context.birthYear;
            if s.value == AskAge && AgeOf(value).Some? then
              s.context.birthYear == None && year == Some(istYear - AgeOf(value).value)
            else year == s.context.birthYear
  {
    hide AgeOf, MonthOf;
  }

  lemma EarlierAnswersState(answers: seq<Answer>)
    requires answers != []
    ensures forall k :: 0 <= k < |answers| - 1 ==> (StatesAge(answers[..|answers| - 1], k) <==> StatesAge(answers, k))
  {
    hide Run, AgeOf;
    var before := answers[..|answers| - 1];
    forall k | 0 <= k < |before| ensures StatesAge(before, k) <==> StatesAge(answers, k) {
      assert before[..k] == answers[..k];
    }
  }
}
