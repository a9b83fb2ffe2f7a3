/** The onboarding turn protocol over stored rows and user columns (src/onboarding/onboarding.service.ts). */
module OnboardingService {
  import opened Numerals
  import opened Options
  import opened OnboardingMachine
  import AnswerMatch
  import OnboardingTurns

  datatype StateRow = StateRow(messageId: string, snapshot: Snapshot)

  datatype User = User(birthYear: Option<int>, birthMonth: Option<nat>, permissionAt: Option<nat>, name: Option<string>)

  /** One user's onboarding rows, oldest first, and columns. */
  datatype Store = Store(rows: seq<StateRow>, user: User)

  /** One inbound voice note: the normalized reading of it, the year and time it is handled, and whether the newest
      stored snapshot still restores. */
  datatype Turn = Turn(messageId: string, value: string, istYear: int, now: nat, restores: bool)

  predicate HasRow(st: Store, id: string) { exists k :: 0 <= k < |st.rows| && st.rows[k].messageId == id }

  /** What the completing turn writes; a name that was not heard leaves the old one. */
  function Completed(u: User, c: Context, now: nat): User {
    User(c.birthYear, c.birthMonth, Some(now), if c.studentName.Some? then c.studentName else u.name)
  }

  function Inserted(st: Store, id: string, s: Snapshot): Store { st.(rows := st.rows + [StateRow(id, s)]) }

  /** user_message_id is unique, so a turn whose message already has a row fails and its transaction leaves no trace. */
  function HandleTurn(st: Store, t: Turn): Store {
    if st.rows == [] || !t.restores then
      if HasRow(st, t.messageId) then st else Inserted(st, t.messageId, INITIAL)
    else
      var current := st.rows[|st.rows| - 1].snapshot;
      if current.value == Done then st
      else
        var value := if current.value == Declined then ANY else t.value;
        var next := Reply(current, value, t.istYear);
        if HasRow(st, t.messageId) then st
        else
          var r := Inserted(st, t.messageId, next);
          if next.value == Done then r.(user := Completed(st.user, next.context, t.now)) else r
  }

  function RemoveRow(rows: seq<StateRow>, id: string): seq<StateRow> {
    if rows == [] then []
    else if rows[0].messageId == id then rows[1..]
    else [rows[0]] + RemoveRow(rows[1..], id)
  }

  function RowOf(rows: seq<StateRow>, id: string): Option<StateRow> {
    if rows == [] then None else if rows[0].messageId == id then Some(rows[0]) else RowOf(rows[1..], id)
  }

  function Rollback(st: Store, id: string): Store {
    var row := RowOf(st.rows, id);
    if row.None? then st
    else
      var left := st.(rows := RemoveRow(st.rows, id));
      if row.value.snapshot.value == Done then
        left.(user := st.user.(birthYear := None, birthMonth := None, permissionAt := None))
      else left
  }

  /** The service's tables for one user, updated in place. */
  class OnboardingStore {
    var rows: seq<StateRow>
    var user: User

    function State(): Store reads this { Store(rows, user) }

    constructor (user: User)
      ensures State() == Store([], user)
    {
      this.user := user;
      rows := [];
    }

    method Insert(id: string, s: Snapshot) returns (ok: bool)
      modifies this
      ensures ok <==> !HasRow(old(State()), id)
      ensures State() == if ok then Inserted(old(State()), id, s) else old(State())
    {
      ok := forall k :: 0 <= k < |rows| ==> rows[k].messageId != id;
      if ok { rows := rows + [StateRow(id, s)]; }
    }

    method Handle(t: Turn) returns (stids: seq<Stid>)
      modifies this
      ensures State() == HandleTurn(old(State()), t)
      ensures rows != old(rows) ==> rows != [] && stids == rows[|rows| - 1].snapshot.context.stids
      ensures rows == old(rows) ==> stids == if MeetsDone(old(State()), t) then [Complete] else []
    {
      stids := [];
      if |rows| == 0 || !t.restores {
        var ok := Insert(t.messageId, INITIAL);
        if ok { stids := INITIAL.context.stids; }
        return;
      }
      var current := rows[|rows| - 1].snapshot;
      if current.value == Done { return [Complete]; }
      var value := if current.value == Declined then ANY else t.value;
      var next := Reply(current, value, t.istYear);
      hide Reply;
      var ok := Insert(t.messageId, next);
      if ok {
        if next.value == Done {
          user := user.(birthYear := next.context.birthYear, birthMonth := next.context.birthMonth,
            permissionAt := Some(t.now));
          if next.context.studentName.Some? { user := user.(name := next.context.studentName); }
        }
        stids := next.context.stids;
      }
    }

    method RollBack(id: string)
      modifies this
      ensures State() == Rollback(old(State()), id)
    {
      var row := RowOf(rows, id);
      if row.None? { return; }
      rows := RemoveRow(rows, id);
      if row.value.snapshot.value == Done {
        user := user.(birthYear := None, birthMonth := None, permissionAt := None);
      }
    }
  }

  // ---------------------------------------------------------------------------
  // The invariant
  // ---------------------------------------------------------------------------

  /** The snapshot is one the machine can have reached from the start. */
  ghost predicate Reachable(s: Snapshot) { exists answers :: Run(INITIAL, answers) == s }

  /** One row per message, every snapshot reachable, and only the newest may be done. */
  ghost predicate RowsSound(rows: seq<StateRow>) {
    && (forall k, l :: 0 <= k < l < |rows| ==> rows[k].messageId != rows[l].messageId)
    && (forall k :: 0 <= k < |rows| ==> Reachable(rows[k].snapshot))
    && (forall k :: 0 <= k < |rows| - 1 ==> rows[k].snapshot.value != Done)
  }

  /** The user's columns are set exactly with a done newest row, to what its snapshot holds. */
  ghost predicate ColumnsSound(rows: seq<StateRow>, user: User) {
    if rows != [] && rows[|rows| - 1].snapshot.value == Done then
      var c := rows[|rows| - 1].snapshot.context;
      user.permissionAt.Some? && user.birthYear.Some? && user.birthYear == c.birthYear
        && user.birthMonth == c.birthMonth
    else user.permissionAt.None? && user.birthYear.None? && user.birthMonth.None?
  }

  ghost predicate Sound(st: Store) { RowsSound(st.rows) && ColumnsSound(st.rows, st.user) }

  lemma ReplyReaches(s: Snapshot, value: string, istYear: int)
    requires Reachable(s)
    ensures Reachable(Reply(s, value, istYear))
    ensures Reply(s, value, istYear).value == Done ==> Reply(s, value, istYear).context.birthYear.Some?
  {
    var answers :| Run(INITIAL, answers) == s;
    var more := answers + [Answer(value, istYear)];
    assert more[..|answers|] == answers;
    assert Run(INITIAL, more) == Reply(s, value, istYear);
    RunsAreShaped(more);
  }

  lemma InsertKeeps(st: Store, id: string, s: Snapshot, user: User)
    requires Sound(st) && !HasRow(st, id) && Reachable(s)
             && (st.rows != [] ==> st.rows[|st.rows| - 1].snapshot.value != Done)
    requires if s.value == Done then
               user.permissionAt.Some? && user.birthYear == s.context.birthYear && user.birthYear.Some?
               && user.birthMonth == s.context.birthMonth
             else user == st.user
    ensures Sound(Store(st.rows + [StateRow(id, s)], user))
  {
    hide Reachable;
  }

  /** The turn starts over because the newest snapshot, a finished one, no longer restores. */
  predicate RestartsDone(st: Store, t: Turn) {
    st.rows != [] && !t.restores && st.rows[|st.rows| - 1].snapshot.value == Done && !HasRow(st, t.messageId)
  }

  /** A turn keeps the invariant exactly when it does not restart a finished onboarding. */
  lemma TurnKeepsSound(st: Store, t: Turn)
    requires Sound(st)
    ensures Sound(HandleTurn(st, t)) <==> !RestartsDone(st, t)
  {
    if RestartsDone(st, t) {
      RestartKeepsColumns(st, t);
    } else if st.rows == [] || !t.restores {
      assert Run(INITIAL, []) == INITIAL;
      if !HasRow(st, t.messageId) { InsertKeeps(st, t.messageId, INITIAL, st.user); }
    } else {
      ReplyKeepsSound(st, t);
    }
    hide Reachable, Reply;
  }

  lemma ReplyKeepsSound(st: Store, t: Turn)
    requires Sound(st) && st.rows != [] && t.restores
    ensures Sound(HandleTurn(st, t))
  {
    var current := st.rows[|st.rows| - 1].snapshot;
    if current.value != Done && !HasRow(st, t.messageId) {
      var value := if current.value == Declined then ANY else t.value;
      var next := Reply(current, value, t.istYear);
      ReplyReaches(current, value, t.istYear);
      hide Reply, Reachable, Sound;
      InsertKeeps(st, t.messageId, next, if next.value == Done then Completed(st.user, next.context, t.now)
                                         else st.user);
    }
  }

  /** A restart over a finished row leaves the user's columns set, with a newest row that is not done. */
  lemma RestartKeepsColumns(st: Store, t: Turn)
    requires Sound(st) && RestartsDone(st, t)
    ensures var r := HandleTurn(st, t);
            r.user == st.user && r.user.permissionAt.Some? && r.rows == st.rows + [StateRow(t.messageId, INITIAL)]
              && !Sound(r)
  {
    hide Reachable;
  }

  /** Such a store exists: one finished run, then a voice note whose stored snapshot does not restore. */
  lemma RestartThatBreaksTheColumns() returns (st: Store, t: Turn)
    ensures Sound(st) && RestartsDone(st, t) && !Sound(HandleTurn(st, t))
  {
    var answers := [Answer(YES, 2026), Answer(YES, 2026), Answer(NONE, 2026), Answer(Show(8), 2026),
        Answer(NONE, 2026)];
    var done := DoneRun(answers);
    st := Store([StateRow("first", done)], User(done.context.birthYear, done.context.birthMonth, Some(0), None));
    t := Turn("second", YES, 2026, 1, false);
    assert Run(INITIAL, answers) == done;
    hide Run;
    RestartKeepsColumns(st, t);
  }

  lemma DoneRun(answers: seq<Answer>) returns (done: Snapshot)
    requires answers
             == [Answer(YES, 2026), Answer(YES, 2026), Answer(NONE, 2026), Answer(Show(8), 2026), Answer(NONE, 2026)]
    ensures done == Run(INITIAL, answers) && done.value == Done && done.context.birthYear.Some?
  {
    assert Run(INITIAL, answers[..0]) == INITIAL;
    hide Show, Run, Reply;
    for n := 0 to 5
      invariant Run(INITIAL, answers[..n]).value == [AskGuardian, AskConsent, AskName, AskAge, AskMonth, Done][n]
    {
      RunStep(answers, n);
      NextQuestion(Run(INITIAL, answers[..n]), 2026);
    }
    assert answers[..5] == answers;
    done := Run(INITIAL, answers);
    RunsAreShaped(answers);
  }

  /** The shortest way through the questions. */
  lemma NextQuestion(s: Snapshot, istYear: int)
    ensures s.value == AskGuardian ==> Reply(s, YES, istYear).value == AskConsent
    ensures s.value == AskConsent ==> Reply(s, YES, istYear).value == AskName
    ensures s.value == AskName ==> Reply(s, NONE, istYear).value == AskAge
    ensures s.value == AskAge ==> Reply(s, Show(8), istYear).value == AskMonth
    ensures s.value == AskMonth ==> Reply(s, NONE, istYear).value == Done
  {
    PrintedAgeIsRead(8);
    hide AgeOf, MonthOf, Show;
  }

  lemma RunStep(answers: seq<Answer>, n: nat)
    requires n < |answers|
    ensures Run(INITIAL, answers[..n + 1]) == Reply(Run(INITIAL, answers[..n]), answers[n].value, answers[n].istYear)
  {
    hide Reply;
    assert answers[..n + 1][..n] == answers[..n];
  }

  lemma {:induction false} RemoveIsSplice(rows: seq<StateRow>, id: string) returns (k: nat)
    ensures k <= |rows|
    ensures k == |rows| ==> RowOf(rows, id) == None
    ensures k < |rows| ==> RowOf(rows, id) == Some(rows[k]) && RemoveRow(rows, id) == rows[..k] + rows[k + 1..]
    decreases |rows|
  {
    if rows == [] || rows[0].messageId == id {
      k := 0;
    } else {
      var j := RemoveIsSplice(rows[1..], id);
      k := j + 1;
      if j < |rows| - 1 { assert [rows[0]] + (rows[1..][..j] + rows[1..][j + 1..]) == rows[..k] + rows[k + 1..]; }
    }
  }

  lemma SpliceKeepsRows(rows: seq<StateRow>, k: nat)
    requires k < |rows| && RowsSound(rows)
    ensures var left := rows[..k] + rows[k + 1..];
            && RowsSound(left)
            && (left != [] && left[|left| - 1].snapshot.value == Done ==>
                  k < |rows| - 1 && left[|left| - 1] == rows[|rows| - 1])
            && (rows[|rows| - 1].snapshot.value == Done && k < |rows| - 1 ==>
                  left != [] && left[|left| - 1] == rows[|rows| - 1])
  {
    hide Reachable;
    var left := rows[..k] + rows[k + 1..];
    forall i | 0 <= i < |left| ensures left[i] == rows[if i < k then i else i + 1] { }
  }

  lemma OnlyTheNewestIsDone(rows: seq<StateRow>, k: nat)
    requires RowsSound(rows) && k < |rows| - 1
    ensures rows[k].snapshot.value != Done
  {
    hide Reachable;
  }

  /** Rolling back any message, newest or not, keeps the invariant. */
  lemma RollbackKeepsSound(st: Store, id: string)
    requires Sound(st)
    ensures Sound(Rollback(st, id))
  {
    hide RowOf, RemoveRow, RowsSound;
    var k := RemoveIsSplice(st.rows, id);
    if k < |st.rows| {
      SpliceKeepsRows(st.rows, k);
      if k < |st.rows| - 1 { OnlyTheNewestIsDone(st.rows, k); }
    }
  }

  datatype Operation = Handles(turn: Turn) | RollsBack(id: string)

  function Do(st: Store, op: Operation): Store {
    match op case Handles(t) => HandleTurn(st, t) case RollsBack(id) => Rollback(st, id)
  }

  function DoAll(st: Store, ops: seq<Operation>): Store
    decreases |ops|
  {
    if ops == [] then st else DoAll(Do(st, ops[0]), ops[1..])
  }

  /** No operation of the list restarts a finished onboarding. */
  ghost predicate NeverRestartsDone(st: Store, ops: seq<Operation>)
    decreases |ops|
  {
    ops == [] || ((ops[0].Handles? ==> !RestartsDone(st, ops[0].turn)) && NeverRestartsDone(Do(st, ops[0]), ops[1..]))
  }

  /** A list of turns and rollbacks keeps the invariant all along exactly when none of them restarts a finished
      onboarding. */
  lemma {:induction false} OperationsKeepSound(st: Store, ops: seq<Operation>)
    requires Sound(st)
    ensures NeverRestartsDone(st, ops) ==> Sound(DoAll(st, ops))
    ensures NeverRestartsDone(st, ops) <==> forall n :: 0 <= n <= |ops| ==> Sound(DoAll(st, ops[..n]))
    decreases |ops|
  {
    hide Sound, HandleTurn, Rollback, RestartsDone;
    assert ops[..|ops|] == ops;
    if ops != [] {
      FirstKeepsSound(st, ops[0]);
      forall n | 0 < n <= |ops| ensures DoAll(st, ops[..n]) == DoAll(Do(st, ops[0]), ops[1..][..n - 1]) {
        assert ops[..n][1..] == ops[1..][..n - 1];
      }
      assert DoAll(st, ops[..1]) == Do(st, ops[0]);
      if Sound(Do(st, ops[0])) {
        OperationsKeepSound(Do(st, ops[0]), ops[1..]);
        PrefixesShift(st, ops);
      }
    }
  }

  lemma FirstKeepsSound(st: Store, op: Operation)
    requires Sound(st)
    ensures Sound(Do(st, op)) <==> !(op.Handles? && RestartsDone(st, op.turn))
  {
    hide Sound, HandleTurn, Rollback, RestartsDone;
    match op {
      case Handles(t) => TurnKeepsSound(st, t);
      case RollsBack(id) => RollbackKeepsSound(st, id);
    }
  }

  lemma PrefixesShift(st: Store, ops: seq<Operation>)
    requires ops != [] && Sound(st)
    requires forall n :: 0 < n <= |ops| ==> DoAll(st, ops[..n]) == DoAll(Do(st, ops[0]), ops[1..][..n - 1])
    ensures (forall n :: 0 <= n <= |ops| ==> Sound(DoAll(st, ops[..n])))
            <==> forall n :: 0 <= n <= |ops[1..]| ==> Sound(DoAll(Do(st, ops[0]), ops[1..][..n]))
  {
    hide Sound, Do;
    if forall n :: 0 <= n <= |ops| ==> Sound(DoAll(st, ops[..n])) {
      forall n | 0 <= n <= |ops[1..]| ensures Sound(DoAll(Do(st, ops[0]), ops[1..][..n])) {
        assert Sound(DoAll(st, ops[..n + 1]));
      }
    }
    if forall n :: 0 <= n <= |ops[1..]| ==> Sound(DoAll(Do(st, ops[0]), ops[1..][..n])) {
      forall n | 0 <= n <= |ops| ensures Sound(DoAll(st, ops[..n])) {
        if n > 0 { assert Sound(DoAll(Do(st, ops[0]), ops[1..][..n - 1])); } else { assert DoAll(st, ops[..0]) == st; }
      }
    }
  }

  // ---------------------------------------------------------------------------
  // Consent
  // ---------------------------------------------------------------------------

  /** Operation j is a turn read as YES while the newest row asked for consent. */
  ghost predicate SaysYes(user: User, ops: seq<Operation>, j: nat)
    requires j < |ops|
  {
    var st := DoAll(Store([], user), ops[..j]);
    && ops[j].Handles? && ops[j].turn.restores && ops[j].turn.value == YES
    && st.rows != [] && st.rows[|st.rows| - 1].snapshot.value == AskConsent
  }

  lemma {:induction false} DoAllAppends(st: Store, ops: seq<Operation>, op: Operation)
    ensures DoAll(st, ops + [op]) == Do(DoAll(st, ops), op)
    decreases |ops|
  {
    hide Do;
    if ops == [] {
      assert DoAll(st, [op]) == DoAll(Do(st, op), [op][1..]);
    } else {
      assert (ops + [op])[1..] == ops[1..] + [op] && (ops + [op])[0] == ops[0];
      DoAllAppends(Do(st, ops[0]), ops[1..], op);
    }
  }

  /** In any history at all, a stored row past the consent question comes after a turn that said YES to it. */
  lemma {:induction false} StoredConsentWasSaid(user: User, ops: seq<Operation>, k: nat)
    requires var rows := DoAll(Store([], user), ops).rows; k < |rows| && PastConsent(rows[k].snapshot.value)
    ensures exists j :: 0 <= j < |ops| && SaysYes(user, ops, j)
    decreases |ops|
  {
    if ops != [] {
      var n := |ops| - 1;
      var before := ops[..n];
      var st := DoAll(Store([], user), before);
      assert before + [ops[n]] == ops;
      DoAllAppends(Store([], user), before, ops[n]);
      hide DoAll, HandleTurn, Rollback;
      var l := RowCameFrom(st, ops[n], k);
      if l < |st.rows| {
        StoredConsentWasSaid(user, before, l);
        var j :| 0 <= j < |before| && SaysYes(user, before, j);
        assert before[..j] == ops[..j] && SaysYes(user, ops, j);
      } else {
        assert before == ops[..n] && SaysYes(user, ops, n);
      }
    }
  }

  /** A row past consent was there before the operation, follows one that was, or was stored by a YES to the
      question. */
  lemma RowCameFrom(st: Store, op: Operation, k: nat) returns (l: nat)
    requires k < |Do(st, op).rows| && PastConsent(Do(st, op).rows[k].snapshot.value)
    ensures l < |st.rows| ==> PastConsent(st.rows[l].snapshot.value)
    ensures l >= |st.rows| ==>
              op.Handles? && op.turn.restores && op.turn.value == YES && st.rows != []
                && st.rows[|st.rows| - 1].snapshot.value == AskConsent
  {
    match op
    case Handles(t) =>
      l := k;
      if k == |st.rows| && st.rows != [] && PastConsent(st.rows[|st.rows| - 1].snapshot.value) { l := |st.rows| - 1; }
    case RollsBack(id) =>
      var cut := RemoveIsSplice(st.rows, id);
      hide RowOf, RemoveRow;
      l := if k < cut then k else k + 1;
      if cut == |st.rows| { l := k; }
  }

  ghost predicate NotOnboarded(u: User) { u.permissionAt.None? && u.birthYear.None? && u.birthMonth.None? }

  /** Over all turns and rollbacks of a user who starts un-onboarded, restarts of unfinished runs included: recording
      permission and birth year are set exactly when the newest row is done, and then some turn of the history said YES
      to the consent question. */
  lemma PermissionMeansConsent(user: User, ops: seq<Operation>)
    requires NotOnboarded(user) && NeverRestartsDone(Store([], user), ops)
    ensures var st := DoAll(Store([], user), ops);
            var done := st.rows != [] && st.rows[|st.rows| - 1].snapshot.value == Done;
            && (st.user.permissionAt.Some? <==> done) && (st.user.birthYear.Some? <==> done)
            && (done ==> exists j :: 0 <= j < |ops| && SaysYes(user, ops, j))
  {
    OperationsKeepSound(Store([], user), ops);
    var st := DoAll(Store([], user), ops);
    hide DoAll, NeverRestartsDone, Reachable, SaysYes;
    if st.rows != [] && st.rows[|st.rows| - 1].snapshot.value == Done {
      StoredConsentWasSaid(user, ops, |st.rows| - 1);
    }
  }

  // ---------------------------------------------------------------------------
  // What the completing turn writes
  // ---------------------------------------------------------------------------

  /** The user columns a completing turn writes are exactly the fields the reader says the replies of the run saved, in
      order; a name never heard leaves the old name. */
  lemma CompletionWritesWhatWasSaved(st: Store, t: Turn, answers: seq<Answer>, years: seq<int>)
    requires Completes(st, t) && !HasRow(st, t.messageId) && |years| == |answers| + 1
    requires st.rows[|st.rows| - 1].snapshot == Run(INITIAL, answers)
    ensures var u, saved := HandleTurn(st, t).user,
            OnboardingTurns.SavedAlong(answers + [Answer(t.value, t.istYear)], years);
            var heard := Run(INITIAL, answers).context.studentName.Some?;
            && u.birthYear.Some? && (heard ==> u.name.Some?) && (!heard ==> u.name == st.user.name)
            && saved == (if heard then [(OnboardingTurns.NameField, u.name.value)] else [])
                        + [(OnboardingTurns.BirthYearField, ShowInt(u.birthYear.value))]
                        + (if u.birthMonth.Some? then [(OnboardingTurns.BirthMonthField, Show(u.birthMonth.value))]
                           else [])
  {
    hide Run, Reply, HandleTurn, Completed, OnboardingTurns.SavedAlong, OnboardingTurns.Fields, Show, ShowInt;
    var all, last := answers + [Answer(t.value, t.istYear)], st.rows[|st.rows| - 1].snapshot;
    var next := Reply(last, t.value, t.istYear);
    OnboardingTurns.SavedIsTheRecord(all, years);
    RunAppends(answers, Answer(t.value, t.istYear));
    LastReplyIsStored(st, t);
    MonthReplyKeeps(answers, t.value, t.istYear);
    FieldsAreColumns(st.user, next.context, t.now);
  }

  lemma RunAppends(answers: seq<Answer>, a: Answer)
    ensures Run(INITIAL, answers + [a]) == Reply(Run(INITIAL, answers), a.value, a.istYear)
  {
    hide Reply;
    assert (answers + [a])[..|answers|] == answers;
  }

  /** The completing turn stores the reply to the month question and writes the columns from it. */
  lemma LastReplyIsStored(st: Store, t: Turn)
    requires Completes(st, t) && !HasRow(st, t.messageId)
    ensures var next := Reply(st.rows[|st.rows| - 1].snapshot, t.value, t.istYear);
            HandleTurn(st, t).user == Completed(st.user, next.context, t.now)
  {
    hide MonthOf, AgeOf;
  }

  lemma MonthReplyKeeps(answers: seq<Answer>, value: string, istYear: int)
    requires Run(INITIAL, answers).value == AskMonth
    ensures var before, after := Run(INITIAL, answers).context, Reply(Run(INITIAL, answers), value, istYear).context;
            after.studentName == before.studentName && after.birthYear == before.birthYear && after.birthYear.Some?
  {
    RunsAreShaped(answers);
    hide Run, MonthOf, AgeOf;
  }

  lemma FieldsAreColumns(user: User, c: Context, now: nat)
    requires c.birthYear.Some?
    ensures var u, heard := Completed(user, c, now), c.studentName.Some?;
            && u.birthYear.Some? && (heard ==> u.name.Some?) && (!heard ==> u.name == user.name)
            && OnboardingTurns.Fields(c)
               == (if heard then [(OnboardingTurns.NameField, u.name.value)] else [])
                  + [(OnboardingTurns.BirthYearField, ShowInt(u.birthYear.value))]
                  + (if u.birthMonth.Some? then [(OnboardingTurns.BirthMonthField, Show(u.birthMonth.value))] else [])
  {
    hide Show, ShowInt;
  }

  /** What an age reading is turned into before it reaches the machine. */
  function NormalizeAge(age: Option<nat>): string {
    if age.Some? && MIN_AGE <= age.value <= MAX_AGE then Show(age.value) else UNINTELLIGIBLE
  }

  /** From the spoken words to the record: an age spelled among neutral words sets the birth year it means. */
  lemma SpelledAgeSetsTheBirthYear(s: Snapshot, istYear: int, lx: AnswerMatch.Lexicon, before: seq<string>,
                                   sp: AnswerMatch.Spelling,
                                   after: seq<string>, base: nat, h: nat, r: nat)
    requires s.value == AskAge
    requires AnswerMatch.Sane(lx) && AnswerMatch.SpellsNumber(lx, sp, base, h, r) && base + h * 100 + r <= MAX_AGE
    requires forall t :: t in before || t in after ==> AnswerMatch.Neutral(lx, t)
    ensures var toks := before + AnswerMatch.Tokens(sp) + after;
            var value := NormalizeAge(AnswerMatch.AgeOf(AnswerMatch.Values(AnswerMatch.Spans(lx, toks, 0))));
            && Normalized(AskAge, value)
            && Reply(s, value, istYear).value == AskMonth
            && Reply(s, value, istYear).context.birthYear == Some(istYear - (base + h * 100 + r))
  {
    hide AnswerMatch.Spans, AnswerMatch.Values, AnswerMatch.AgeOf, AnswerMatch.Tokens, AnswerMatch.Sane,
        AnswerMatch.SpellsNumber,
      AnswerMatch.Neutral, Show, Reply;
    var n := base + h * 100 + r;
    AnswerMatch.SpelledAgeIsRead(lx, before, sp, after, base, h, r);
    AgeBecomesBirthYear(s, n, istYear);
  }

  // ---------------------------------------------------------------------------
  // Retries
  // ---------------------------------------------------------------------------

  lemma {:induction false} RemoveLast(rows: seq<StateRow>, row: StateRow)
    requires forall k :: 0 <= k < |rows| ==> rows[k].messageId != row.messageId
    ensures RemoveRow(rows + [row], row.messageId) == rows && RowOf(rows + [row], row.messageId) == Some(row)
    decreases |rows|
  {
    if rows != [] {
      assert (rows + [row])[1..] == rows[1..] + [row];
      RemoveLast(rows[1..], row);
    }
  }

  /** The turn meets an onboarding that is already complete: nothing is stored. */
  predicate MeetsDone(st: Store, t: Turn) {
    st.rows != [] && t.restores && st.rows[|st.rows| - 1].snapshot.value == Done
  }

  /** A stored turn, undone: the rows and the columns that rollback clears are as before. */
  lemma RollbackUndoes(st: Store, t: Turn)
    requires Sound(st) && !HasRow(st, t.messageId) && !MeetsDone(st, t)
    ensures var back := Rollback(HandleTurn(st, t), t.messageId);
            back.rows == st.rows && back.user.(name := st.user.name) == st.user
  {
    var s := if st.rows == [] || !t.restores then INITIAL
             else
               Reply(st.rows[|st.rows| - 1].snapshot, if st.rows[|st.rows| - 1].snapshot.value == Declined then ANY
                                                      else t.value, t.istYear);
    RemoveLast(st.rows, StateRow(t.messageId, s));
    hide Reply, RowOf, RemoveRow, Reachable;
  }

  lemma NothingToRollBack(st: Store, id: string)
    requires !HasRow(st, id)
    ensures Rollback(st, id) == st
  {
    var k := RemoveIsSplice(st.rows, id);
    if k < |st.rows| { RowHasItsId(st.rows, id); }
  }

  lemma {:induction false} RowHasItsId(rows: seq<StateRow>, id: string)
    ensures RowOf(rows, id).Some? ==> exists k :: 0 <= k < |rows| && rows[k].messageId == id
    decreases |rows|
  {
    if rows != [] && rows[0].messageId != id {
      RowHasItsId(rows[1..], id);
      if RowOf(rows, id).Some? {
        var k :| 0 <= k < |rows[1..]| && rows[1..][k].messageId == id;
        assert rows[k + 1].messageId == id;
      }
    }
  }

  /** The turn that stores a done row. */
  predicate Completes(st: Store, t: Turn) {
    st.rows != [] && t.restores && st.rows[|st.rows| - 1].snapshot.value == AskMonth
  }

  /** Rolling a turn back and retrying it with the same reading leaves the rows and columns of a single attempt; a
      completing turn carries the time of the retry. */
  lemma RetryIsOneAttempt(st: Store, t: Turn, later: nat)
    requires Sound(st) && !HasRow(st, t.messageId)
    ensures var once := HandleTurn(st, t);
            var retried := HandleTurn(Rollback(once, t.messageId), t.(now := later));
            && retried.rows == once.rows
            && retried.user == (if Completes(st, t) then once.user.(permissionAt := Some(later)) else once.user)
  {
    if MeetsDone(st, t) {
      NothingToRollBack(st, t.messageId);
    } else {
      RollbackUndoes(st, t);
      var back := Rollback(HandleTurn(st, t), t.messageId);
      hide Rollback, Reachable, MonthOf, AgeOf;
      assert back.rows == st.rows;
    }
  }
}
