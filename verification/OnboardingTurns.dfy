/** Reading a parent's replies back from the stored snapshots alone (src/onboarding/onboarding-turns.ts). */
module OnboardingTurns {
  import opened Numerals
  import opened Options
  import opened OnboardingMachine

  /** A stored row; istYear is the year of its creation time in Asia/Kolkata. */
  datatype Row = Row(messageId: string, snapshot: Snapshot, istYear: int)

  datatype Field = NameField | BirthYearField | BirthMonthField

  datatype Turn = Turn(
    question: Option<StateName>, next: StateName, understood: Option<string>, saved: seq<(Field, string)>,
      completed: bool)

  predicate IsStartRow(s: Snapshot) { s.value == AskGuardian && s.context.stids == [AskGuardianStid] }

  function Describe(prev: Option<Snapshot>, cur: Snapshot, createdYear: int): Turn {
    var turn := Turn(None, cur.value, None, [], cur.value == Done);
    if prev.None? || IsStartRow(cur) then turn
    else
      var asked := turn.(question := Some(prev.value.value));
      if cur.context.stids != []
        && cur.context.stids[0] == UnintelligibleStid then asked.(understood := Some(UNINTELLIGIBLE))
      else
        match prev.value.value
        case AskGuardian => asked.(understood := Some(if cur.value == AskConsent then YES else NO))
        case AskConsent =>
          asked.(understood := Some(if cur.value == AskName then YES else if cur.value == ConsentRefused then NO
                                                                          else INFORMATION))
        case ConsentRefused => asked.(understood := Some(if cur.value == AskConsent then YES else NO))
        case AskName =>
          var name := cur.context.studentName;
          asked.(understood := Some(if name.Some? then name.value else NONE),
                 saved := if name.Some? then [(NameField, name.value)] else [])
        case AskAge =>
          var year := cur.context.birthYear;
          if year.Some? then asked.(understood := Some(ShowInt(createdYear - year.value)),
            saved := [(BirthYearField, ShowInt(year.value))])
          else asked
        case AskMonth =>
          var month := cur.context.birthMonth;
          asked.(understood := Some(if month.Some? then Show(month.value) else NONE),
                 saved := if month.Some? then [(BirthMonthField, Show(month.value))] else [])
        case _ => asked
  }

  function DescribeAt(rows: seq<Row>, k: nat): Turn
    requires k < |rows|
  {
    Describe(if k == 0 then None else Some(rows[k - 1].snapshot), rows[k].snapshot, rows[k].istYear)
  }

  /** Each message's turn; a message id that occurs twice keeps its last row's. */
  function Described(rows: seq<Row>): map<string, Turn> {
    if rows == [] then map[]
    else Described(rows[..|rows| - 1])[rows[|rows| - 1].messageId := DescribeAt(rows, |rows| - 1)]
  }

  lemma {:induction false} DescribedLooksUp(rows: seq<Row>, k: nat)
    requires k < |rows| && forall l :: k < l < |rows| ==> rows[l].messageId != rows[k].messageId
    ensures rows[k].messageId in Described(rows) && Described(rows)[rows[k].messageId] == DescribeAt(rows, k)
    decreases |rows|
  {
    hide Describe;
    if k < |rows| - 1 {
      var before := rows[..|rows| - 1];
      DescribedLooksUp(before, k);
      assert DescribeAt(before, k) == DescribeAt(rows, k);
    }
  }

  method DescribeOnboardingTurns(rows: seq<Row>) returns (out: map<string, Turn>)
    ensures out == Described(rows)
  {
    hide Describe;
    out := map[];
    var prev: Option<Snapshot> := None;
    for n := 0 to |rows|
      invariant prev == if n == 0 then None else Some(rows[n - 1].snapshot)
      invariant out == Described(rows[..n])
    {
      var row := rows[n];
      assert rows[..n + 1][..n] == rows[..n];
      out := out[row.messageId := Describe(prev, row.snapshot, row.istYear)];
      prev := Some(row.snapshot);
    }
    assert rows[..|rows|] == rows;
  }

  // ---------------------------------------------------------------------------
  // What the reader recovers
  // ---------------------------------------------------------------------------

  /** No reply ever leaves a row that looks like a start. */
  lemma ReplyIsNeverAStart(s: Snapshot, value: string, istYear: int)
    requires s.value != Done
    ensures !IsStartRow(Reply(s, value, istYear))
  {
  }

  /** One interpreted reply, read back from the row before it and the row it left: the question it answered and the
      reading itself come back exactly, when the row was stored in the year the reply was read in. */
  lemma ReplyIsRecovered(prev: Snapshot, value: string, istYear: int)
    requires Normalized(prev.value, value) && Shaped(prev)
    ensures var t := Describe(Some(prev), Reply(prev, value, istYear), istYear);
            && t.question == Some(prev.value)
            && t.understood == (if prev.value == Declined then None else Some(value))
            && t.next == Reply(prev, value, istYear).value && (t.completed <==> prev.value == AskMonth)
  {
    ReplyIsNeverAStart(prev, value, istYear);
    WordsAreNotNumerals();
    match prev.value {
      case AskAge =>
        if n: nat :| n <= MAX_AGE && value == Show(n) { AgeRecovery(prev, n, istYear, istYear); }
      case AskMonth =>
        if n: nat :| 1 <= n <= 12 && value == Show(n) { PrintedMonthIsRead(n); }
      case _ =>
    }
  }

  /** An age comes back exactly when the row's year is the year of the reply; otherwise it is off by the difference. */
  lemma AgeRecovery(prev: Snapshot, n: nat, istYear: int, createdYear: int)
    requires prev.value == AskAge && n <= MAX_AGE
    ensures var t := Describe(Some(prev), Reply(prev, Show(n), istYear), createdYear);
            && t.understood == Some(ShowInt(n + (createdYear - istYear)))
            && t.saved == [(BirthYearField, ShowInt(istYear - n))]
            && (t.understood == Some(Show(n)) <==> createdYear == istYear)
  {
    PrintedAgeIsRead(n);
    var m := n + (createdYear - istYear);
    if m >= 0 {
      ShowIsInjective(m, n);
    } else {
      ShowParses(n);
      assert ShowInt(m)[0] == '-' && '0' <= Show(n)[0];
    }
  }

  /** How a row came to be: a start or restart, or a reply to the row before it. */
  datatype Cause = Started | Replied(value: string)

  ghost predicate CausedAt(rows: seq<Row>, k: nat, cause: Cause)
    requires k < |rows|
  {
    match cause
    case Started => rows[k].snapshot == INITIAL
    case Replied(v) =>
      k > 0 && Normalized(rows[k - 1].snapshot.value, v)
        && rows[k].snapshot == Reply(rows[k - 1].snapshot, v, rows[k].istYear)
  }

  ghost predicate Caused(rows: seq<Row>, causes: seq<Cause>) {
    |rows| == |causes| && forall k :: 0 <= k < |rows| ==> CausedAt(rows, k, causes[k])
  }

  lemma {:induction false} CausedRowsAreShaped(rows: seq<Row>, causes: seq<Cause>, k: nat)
    requires Caused(rows, causes) && k < |rows|
    ensures Shaped(rows[k].snapshot)
  {
    assert CausedAt(rows, k, causes[k]);
    if causes[k].Replied? { CausedRowsAreShaped(rows, causes, k - 1); }
  }

  /** Over any history, restarts included, every interpreted reply is recovered and every start is told from a reply. */
  lemma HistoryIsRecovered(rows: seq<Row>, causes: seq<Cause>, k: nat)
    requires Caused(rows, causes) && k < |rows|
    ensures var t := DescribeAt(rows, k);
            match causes[k]
            case Started => t.question == None && t.understood == None && t.saved == []
            case Replied(v) =>
              && k > 0
              && t.question == Some(rows[k - 1].snapshot.value)
              && t.understood == (if rows[k - 1].snapshot.value == Declined then None else Some(v))
  {
    assert CausedAt(rows, k, causes[k]);
    if causes[k].Replied? {
      CausedRowsAreShaped(rows, causes, k - 1);
      ReplyIsRecovered(rows[k - 1].snapshot, causes[k].value, rows[k].istYear);
    }
  }

  /** The fields a context holds, in the order they are asked for. */
  function Fields(c: Context): seq<(Field, string)> {
    (if c.studentName.Some? then [(NameField, c.studentName.value)] else []) +
    (if c.birthYear.Some? then [(BirthYearField, ShowInt(c.birthYear.value))] else []) +
    (if c.birthMonth.Some? then [(BirthMonthField, Show(c.birthMonth.value))] else [])
  }

  /** The `saved` fields of every turn of a run, in order. */
  function SavedAlong(answers: seq<Answer>, years: seq<int>): seq<(Field, string)>
    requires |years| == |answers|
  {
    if answers == [] then []
    else
      var n := |answers| - 1;
      SavedAlong(answers[..n], years[..n]) +
      Describe(Some(Run(INITIAL, answers[..n])), Run(INITIAL, answers), years[n]).saved
  }

  /** What the turns are said to have saved is exactly what the record holds; nothing is dropped or saved twice. So on
      the completing turn it is exactly what is written to the user. */
  lemma {:induction false} SavedIsTheRecord(answers: seq<Answer>, years: seq<int>)
    requires |years| == |answers|
    ensures SavedAlong(answers, years) == Fields(Run(INITIAL, answers).context)
    decreases |answers|
  {
    if answers != [] {
      var n := |answers| - 1;
      SavedIsTheRecord(answers[..n], years[..n]);
      RunsAreShaped(answers[..n]);
      OneTurnSaves(Run(INITIAL, answers[..n]), answers[n], years[n]);
    }
  }

  lemma OneTurnSaves(prev: Snapshot, a: Answer, year: int)
    requires Shaped(prev)
    ensures var cur := Reply(prev, a.value, a.istYear);
            Fields(cur.context) == Fields(prev.context) + Describe(Some(prev), cur, year).saved
  {
    if prev.value != Done { ReplyIsNeverAStart(prev, a.value, a.istYear); }
    hide AgeOf, MonthOf, Show, ShowInt;
  }
}
