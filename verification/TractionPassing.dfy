/** Students whose latest nightly result is a pass (src/users/traction.ts). */
module TractionPassing {
  import opened Options
  import opened StableSort
  import opened Calendar
  import opened TractionStock

  datatype Result = Result(student: string, computedFor: Date, passed: Option<bool>)

  const BY_COMPUTED: Result -> int := (r: Result) => Key(r.computedFor)

  function Later(prev: Option<Result>, r: Result, student: string, until: Date): Option<Result> {
    if r.student == student && Key(r.computedFor) <= Key(until) &&
       (prev.None? || Key(r.computedFor) >= Key(prev.value.computedFor)) then Some(r) else prev
  }

  /** A student's result of the latest date up to `until`; among rows of that date, the one listed last. */
  function Latest(rows: seq<Result>, student: string, until: Date): Option<Result> {
    if rows == [] then None
    else Later(Latest(rows[..|rows| - 1], student, until), rows[|rows| - 1], student, until)
  }

  predicate PassesBy(rows: seq<Result>, student: string, until: Date) {
    var l := Latest(rows, student, until); l.Some? && l.value.passed == Some(true)
  }

  ghost function PassingBy(rows: seq<Result>, until: Date): set<string> {
    set r | r in rows && PassesBy(rows, r.student, until) :: r.student
  }

  lemma {:induction false} LatestIsARow(rows: seq<Result>, student: string, until: Date)
    ensures var l := Latest(rows, student, until); l.Some? ==>
            l.value in rows && l.value.student == student && Key(l.value.computedFor) <= Key(until)
    decreases |rows|
  {
    if rows != [] {
      LatestIsARow(rows[..|rows| - 1], student, until);
      assert rows == rows[..|rows| - 1] + [rows[|rows| - 1]];
    }
  }

  lemma {:induction false} InsertLatest(s: seq<Result>, x: Result, student: string, until: Date)
    requires Sorted(s, BY_COMPUTED)
    ensures Latest(Insert(s, x, BY_COMPUTED), student, until) == Later(Latest(s, student, until), x, student, until)
    decreases |s|
  {
    hide Latest, Later, Sorted;
    if s == [] || BY_COMPUTED(s[|s| - 1]) <= BY_COMPUTED(x) {
      LatestOfMore(s, x, student, until);
    } else {
      var before, last := s[..|s| - 1], s[|s| - 1];
      SortedInit(s);
      InsertLatest(before, x, student, until);
      LatestBound(s, student, until);
      LaterSwaps(Latest(before, student, until), x, last, student, until);
      LatestOfMore(Insert(before, x, BY_COMPUTED), last, student, until);
      LatestOfMore(before, last, student, until);
      assert before + [last] == s;
    }
  }

  lemma LatestOfMore(rows: seq<Result>, r: Result, student: string, until: Date)
    ensures Latest(rows + [r], student, until) == Later(Latest(rows, student, until), r, student, until)
  {
    assert (rows + [r])[..|rows|] == rows;
  }

  lemma LaterSwaps(p: Option<Result>, x: Result, last: Result, student: string, until: Date)
    requires Key(x.computedFor) < Key(last.computedFor)
             && (p.Some? ==> Key(p.value.computedFor) <= Key(last.computedFor))
    ensures Later(Later(p, x, student, until), last, student, until)
            == Later(Later(p, last, student, until), x, student, until)
  {
  }

  lemma LatestBound(s: seq<Result>, student: string, until: Date)
    requires Sorted(s, BY_COMPUTED) && s != []
    ensures var p := Latest(s[..|s| - 1], student, until); p.Some? ==>
            Key(p.value.computedFor) <= Key(s[|s| - 1].computedFor)
  {
    var before := s[..|s| - 1];
    LatestIsARow(before, student, until);
    var p := Latest(before, student, until);
    if p.Some? {
      var i :| 0 <= i < |before| && before[i] == p.value;
      assert BY_COMPUTED(s[i]) <= BY_COMPUTED(s[|s| - 1]);
    }
  }

  /** Sorting by date, being stable, changes no student's latest result. */
  lemma {:induction false} SortLatest(rows: seq<Result>, student: string, until: Date)
    ensures Latest(Sort(rows, BY_COMPUTED), student, until) == Latest(rows, student, until)
    decreases |rows|
  {
    if rows != [] {
      SortLatest(rows[..|rows| - 1], student, until);
      SortIsSorted(rows[..|rows| - 1], BY_COMPUTED);
      InsertLatest(Sort(rows[..|rows| - 1], BY_COMPUTED), rows[|rows| - 1], student, until);
    }
  }

  /** The student's last row in list order. */
  function LastRow(rows: seq<Result>, student: string): Option<Result> {
    if rows == [] then None
    else if rows[|rows| - 1].student == student then Some(rows[|rows| - 1])
    else LastRow(rows[..|rows| - 1], student)
  }

  /** In date order, with exactly the first j rows dated up to `until`, the latest result is the last of those rows. */
  lemma {:induction false} SweptLatest(s: seq<Result>, j: nat, student: string, until: Date)
    requires Sorted(s, BY_COMPUTED) && j <= |s|
    requires forall k :: 0 <= k < j ==> Key(s[k].computedFor) <= Key(until)
    requires forall k :: j <= k < |s| ==> Key(s[k].computedFor) > Key(until)
    ensures Latest(s, student, until) == LastRow(s[..j], student)
    decreases |s|
  {
    hide Latest, LastRow, Sorted;
    if s == [] {
      NoRows(student, until);
      assert s[..j] == [];
    } else {
      var before := s[..|s| - 1];
      SortedInit(s);
      if j < |s| {
        LaterRowIsSkipped(s, student, until);
        SweptLatest(before, j, student, until);
        assert before[..j] == s[..j];
      } else {
        LastRowCounts(s, student, until);
        SweptLatest(before, j - 1, student, until);
        assert before[..j - 1] == before && s[..j] == s;
      }
    }
  }

  lemma NoRows(student: string, until: Date)
    ensures Latest([], student, until) == None && LastRow([], student) == None
  {
  }

  lemma SortedInit(s: seq<Result>)
    requires Sorted(s, BY_COMPUTED) && s != []
    ensures Sorted(s[..|s| - 1], BY_COMPUTED)
  {
  }

  lemma LaterRowIsSkipped(s: seq<Result>, student: string, until: Date)
    requires s != [] && Key(s[|s| - 1].computedFor) > Key(until)
    ensures Latest(s, student, until) == Latest(s[..|s| - 1], student, until)
  {
  }

  /** The last row in date order, when it counts, is the student's latest if it is the student's. */
  lemma LastRowCounts(s: seq<Result>, student: string, until: Date)
    requires s != [] && Sorted(s, BY_COMPUTED) && Key(s[|s| - 1].computedFor) <= Key(until)
    ensures var before, last := s[..|s| - 1], s[|s| - 1];
            && Latest(s, student, until)
               == (if last.student == student then Some(last) else Latest(before, student, until))
            && LastRow(s, student) == (if last.student == student then Some(last) else LastRow(before, student))
  {
    LatestBound(s, student, until);
  }

  function Passing(latest: map<string, bool>): set<string> { set s | s in latest && latest[s] }

  /** What the sweep keeps after applying some rows: each student's last verdict, and how many are passes. */
  ghost predicate Applied(latest: map<string, bool>, passing: int, rows: seq<Result>) {
    && (forall r :: r in rows ==> r.student in latest)
    && (forall s :: s in latest ==>
          LastRow(rows, s).Some? && latest[s] == (LastRow(rows, s).value.passed == Some(true)))
    && passing == |Passing(latest)|
  }

  lemma PassingAfter(latest: map<string, bool>, student: string, now: bool)
    ensures |Passing(latest[student := now])|
         == |Passing(latest)| + (if now then 1 else 0) - (if student in latest && latest[student] then 1 else 0)
  {
    var rest := Passing(latest) - {student};
    assert Passing(latest) == (if student in latest && latest[student] then rest + {student} else rest);
    assert Passing(latest[student := now]) == (if now then rest + {student} else rest);
  }

  lemma AppliedRow(latest: map<string, bool>, rows: seq<Result>, r: Result, s: string)
    requires s in latest[r.student := r.passed == Some(true)]
    requires s in latest ==> LastRow(rows, s).Some? && latest[s] == (LastRow(rows, s).value.passed == Some(true))
    ensures var l := LastRow(rows + [r], s);
            l.Some? && latest[r.student := r.passed == Some(true)][s] == (l.value.passed == Some(true))
  {
    assert (rows + [r])[..|rows|] == rows;
  }

  method ApplyRow(latest: map<string, bool>, passing: int, r: Result, ghost rows: seq<Result>)
    returns (latest': map<string, bool>, passing': int)
    requires Applied(latest, passing, rows)
    ensures Applied(latest', passing', rows + [r])
  {
    var was := r.student in latest && latest[r.student];
    var now := r.passed == Some(true);
    latest' := latest[r.student := now];
    passing' := passing + (if now then 1 else 0) - (if was then 1 else 0);
    PassingAfter(latest, r.student, now);
    hide LastRow, Passing;
    assert forall x :: x in rows + [r] ==> x in rows || x == r;
    forall s | s in latest'
      ensures LastRow(rows + [r], s).Some? && latest'[s] == (LastRow(rows + [r], s).value.passed == Some(true))
    {
      AppliedRow(latest, rows, r, s);
    }
  }

  /** The first j rows are those dated up to `until`, as far as they go. */
  ghost predicate Within(sorted: seq<Result>, j: nat, until: Date) {
    j <= |sorted| && forall k :: 0 <= k < j ==> Key(sorted[k].computedFor) <= Key(until)
  }

  ghost predicate NoneAfter(sorted: seq<Result>, j: nat, until: Date) {
    forall k :: j <= k < |sorted| ==> Key(sorted[k].computedFor) > Key(until)
  }

  method SweepTo(sorted: seq<Result>, from: nat, latest: map<string, bool>, passing: int, until: Date)
    returns (j: nat, latest': map<string, bool>, passing': int)
    requires from <= |sorted| && Sorted(sorted, BY_COMPUTED) && Applied(latest, passing, sorted[..from])
    requires Within(sorted, from, until)
    ensures from <= j <= |sorted| && Applied(latest', passing', sorted[..j])
    ensures Within(sorted, j, until) && NoneAfter(sorted, j, until)
  {
    hide Applied;
    j, latest', passing' := from, latest, passing;
    while j < |sorted| && Key(sorted[j].computedFor) <= Key(until)
      invariant from <= j <= |sorted| && Applied(latest', passing', sorted[..j])
      invariant forall k :: 0 <= k < j ==> Key(sorted[k].computedFor) <= Key(until)
    {
      latest', passing' := ApplyRow(latest', passing', sorted[j], sorted[..j]);
      assert sorted[..j] + [sorted[j]] == sorted[..j + 1];
      j := j + 1;
    }
    forall k | j <= k < |sorted| ensures Key(sorted[k].computedFor) > Key(until) {
      if j < k { assert BY_COMPUTED(sorted[j]) <= BY_COMPUTED(sorted[k]); }
    }
  }

  /** The swept count is the number of students whose latest result by `until` is a pass. */
  lemma SweepIsPassingBy(rows: seq<Result>, j: nat, latest: map<string, bool>, passing: int, until: Date)
    requires var sorted := Sort(rows, BY_COMPUTED);
             && j <= |sorted| && Sorted(sorted, BY_COMPUTED) && Applied(latest, passing, sorted[..j])
             && Within(sorted, j, until) && NoneAfter(sorted, j, until)
    ensures passing == |PassingBy(rows, until)|
  {
    var sorted := Sort(rows, BY_COMPUTED);
    forall s ensures Latest(rows, s, until) == LastRow(sorted[..j], s) {
      SweptLatest(sorted, j, s, until);
      SortLatest(rows, s, until);
    }
    hide Sort, Sorted;
    forall s ensures s in Passing(latest) <==> s in PassingBy(rows, until) {
      LatestIsARow(rows, s, until);
      LastRowIsARow(sorted[..j], s);
    }
    assert Passing(latest) == PassingBy(rows, until);
  }

  lemma {:induction false} LastRowIsARow(rows: seq<Result>, student: string)
    ensures var l := LastRow(rows, student); l.Some? ==> l.value in rows && l.value.student == student
    decreases |rows|
  {
    if rows != [] {
      LastRowIsARow(rows[..|rows| - 1], student);
      assert rows == rows[..|rows| - 1] + [rows[|rows| - 1]];
    }
  }

  /** Day X reads every nightly row dated up to the day after it. */
  method MplbSweep(rows: seq<Result>, days: seq<Date>) returns (out: seq<int>)
    requires Chronological(days) && forall t :: t in days ==> IsDate(t)
    ensures |out| == |days| && forall k :: 0 <= k < |days| ==> out[k] == |PassingBy(rows, NextDay(days[k]))|
  {
    hide Sort, Sorted, Applied, PassingBy, NextDay, IsDate, Within, NoneAfter;
    var sorted := Sort(rows, BY_COMPUTED);
    SortIsSorted(rows, BY_COMPUTED);
    NothingApplied(sorted);
    var latest: map<string, bool> := map[];
    var passing, j := 0, 0;
    out := [];
    for k := 0 to |days|
      invariant |out| == k && forall l :: 0 <= l < k ==> out[l] == |PassingBy(rows, NextDay(days[l]))|
      invariant j <= |sorted| && Applied(latest, passing, sorted[..j]) && (k == 0 ==> j == 0)
      invariant k > 0 ==> Within(sorted, j, NextDay(days[k - 1]))
    {
      if k > 0 { NextDayKeeps(sorted, j, days[k - 1], days[k]); } else { NothingSwept(sorted, NextDay(days[k])); }
      j, latest, passing := SweepTo(sorted, j, latest, passing, NextDay(days[k]));
      SweepIsPassingBy(rows, j, latest, passing, NextDay(days[k]));
      out := out + [passing];
    }
  }

  lemma NothingApplied(sorted: seq<Result>)
    ensures Applied(map[], 0, sorted[..0])
  {
  }

  lemma NothingSwept(sorted: seq<Result>, until: Date)
    ensures Within(sorted, 0, until)
  {
  }

  lemma NextDayKeeps(sorted: seq<Result>, j: nat, a: Date, b: Date)
    requires Within(sorted, j, NextDay(a)) && IsDate(a) && IsDate(b) && Key(a) <= Key(b)
    ensures Within(sorted, j, NextDay(b))
  {
    hide NextDay, IsDate, Key;
    NextDayMonotone(a, b);
  }

  lemma NextDayMonotone(a: Date, b: Date)
    requires IsDate(a) && IsDate(b) && Key(a) <= Key(b)
    ensures Key(NextDay(a)) <= Key(NextDay(b))
  {
    NextDayIsNext(a, b);
    NextDayIsNext(b, b);
    KeyIsTheDateOrder(a, b);
    KeyIsTheDateOrder(b, NextDay(b));
    KeyIsTheDateOrder(NextDay(a), b);
  }
}
