/** The monthly half of the public traction series: who was active in each month, and the projection of a month that
    is not over (buildMonthly in src/users/traction.ts). */
module TractionMonths {
  import opened Options
  import opened Calendar
  import TractionUnits

  /** A calendar month; the source compares YYYY-MM strings. */
  datatype Month = Month(y: int, m: int)

  function MonthKey(mo: Month): int { mo.y * 13 + mo.m }

  predicate IsMonth(mo: Month) { 1 <= mo.m <= 12 }

  function MonthOf(t: Date): Month { Month(t.y, t.m) }

  /** A user who was active enough on some day of the month. */
  datatype ActiveMonth = ActiveMonth(user: string, month: Month)

  /** The month each student joined; of several rows with one id, the last. */
  function JoinedOf(students: seq<TractionUnits.Student>): map<string, Month> {
    if students == [] then map[]
    else
      var s := students[|students| - 1];
      JoinedOf(students[..|students| - 1])[s.id := MonthOf(s.onboardedOn)]
  }

  /** A student joined in the month of their last row; .. */
  lemma {:induction false} JoinedInTheMonthOfTheLastRow(students: seq<TractionUnits.Student>, k: nat)
    requires k < |students| && forall l :: k < l < |students| ==> students[l].id != students[k].id
    ensures var s := students[k];
            s.id in JoinedOf(students) && JoinedOf(students)[s.id] == Month(s.onboardedOn.y, s.onboardedOn.m)
    decreases |students|
  {
    if k < |students| - 1 { JoinedInTheMonthOfTheLastRow(students[..|students| - 1], k); }
  }

  /** .. nobody else joined. */
  lemma {:induction false} OnlyStudentsJoined(students: seq<TractionUnits.Student>, id: string)
    ensures id in JoinedOf(students) <==> exists s :: s in students && s.id == id
    decreases |students|
  {
    if students != [] {
      var before, last := students[..|students| - 1], students[|students| - 1];
      OnlyStudentsJoined(before, id);
      assert students == before + [last];
    }
  }

  predicate Falls(a: ActiveMonth, joined: map<string, Month>, mo: Month, early: bool) {
    a.month == mo && a.user in joined && (MonthKey(joined[a.user]) < MonthKey(mo) <==> early)
  }

  /** Active rows of the month whose user joined before it (early), or in it or later. */
  function Tally(active: seq<ActiveMonth>, joined: map<string, Month>, mo: Month, early: bool): nat {
    if active == [] then 0
    else
      Tally(active[..|active| - 1], joined, mo, early)
        + (if Falls(active[|active| - 1], joined, mo, early) then 1 else 0)
  }

  ghost function Users(active: seq<ActiveMonth>, joined: map<string, Month>, mo: Month, early: bool): set<string> {
    set a | a in active && Falls(a, joined, mo, early) :: a.user
  }

  /** When each user is listed at most once a month, the tally is a number of users. */
  lemma {:induction false} TallyCountsUsers(active: seq<ActiveMonth>, joined: map<string, Month>, mo: Month,
                                            early: bool)
    requires forall i, j :: 0 <= i < j < |active| ==> active[i] != active[j]
    ensures Tally(active, joined, mo, early) == |Users(active, joined, mo, early)|
    decreases |active|
  {
    if active == [] {
      assert Users(active, joined, mo, early) == {};
    } else {
      var before, last := active[..|active| - 1], active[|active| - 1];
      TallyCountsUsers(before, joined, mo, early);
      assert active == before + [last];
      forall a | a in before ensures a != last { }
      hide Falls, Users;
      OneMoreUser(before, last, joined, mo, early);
    }
  }

  lemma OneMoreUser(before: seq<ActiveMonth>, last: ActiveMonth, joined: map<string, Month>, mo: Month, early: bool)
    requires last !in before
    ensures var users := Users(before, joined, mo, early);
            |Users(before + [last], joined, mo, early)| == |users| + (if Falls(last, joined, mo, early) then 1 else 0)
  {
    var users := Users(before, joined, mo, early);
    if Falls(last, joined, mo, early) {
      forall a | a in before && Falls(a, joined, mo, early) ensures a.user != last.user { assert a != last; }
      hide Falls;
      assert Users(before + [last], joined, mo, early) == users + {last.user};
    } else {
      hide Falls;
      assert Users(before + [last], joined, mo, early) == users;
    }
  }

  // ---------------------------------------------------------------------------
  // Every counted row is counted once
  // ---------------------------------------------------------------------------

  predicate Listed(a: ActiveMonth, joined: map<string, Month>, months: seq<Month>) {
    a.user in joined && a.month in months
  }

  function ListedRows(active: seq<ActiveMonth>, joined: map<string, Month>, months: seq<Month>): nat {
    if active == [] then 0
    else
      ListedRows(active[..|active| - 1], joined, months)
        + (if Listed(active[|active| - 1], joined, months) then 1 else 0)
  }

  function Total(active: seq<ActiveMonth>, joined: map<string, Month>, months: seq<Month>): nat {
    if months == [] then 0
    else
      var mo := months[|months| - 1];
      Total(active, joined, months[..|months| - 1]) + Tally(active, joined, mo, true) + Tally(active, joined, mo, false)
  }

  lemma {:induction false} TotalOfMore(active: seq<ActiveMonth>, joined: map<string, Month>, months: seq<Month>)
    requires active != [] && forall i, j :: 0 <= i < j < |months| ==> months[i] != months[j]
    ensures var last := active[|active| - 1];
            Total(active, joined, months)
              == Total(active[..|active| - 1], joined, months) + (if Listed(last, joined, months) then 1 else 0)
    decreases |months|
  {
    if months != [] {
      TotalOfMore(active, joined, months[..|months| - 1]);
      assert months == months[..|months| - 1] + [months[|months| - 1]];
    }
  }

  /** The two counts of all the months add up to the rows of listed months with a known user. */
  lemma {:induction false} CountsAddUp(active: seq<ActiveMonth>, joined: map<string, Month>, months: seq<Month>)
    requires forall i, j :: 0 <= i < j < |months| ==> months[i] != months[j]
    ensures Total(active, joined, months) == ListedRows(active, joined, months)
    decreases |active|
  {
    if active == [] {
      NothingToCount(joined, months);
    } else {
      hide Listed;
      CountsAddUp(active[..|active| - 1], joined, months);
      TotalOfMore(active, joined, months);
    }
  }

  lemma {:induction false} NothingToCount(joined: map<string, Month>, months: seq<Month>)
    ensures Total([], joined, months) == 0
    decreases |months|
  {
    if months != [] { NothingToCount(joined, months[..|months| - 1]); }
  }

  // ---------------------------------------------------------------------------
  // The months of the series
  // ---------------------------------------------------------------------------

  lemma MonthHasADay(from: Date, to: Date, mo: Month) returns (t: Date)
    requires IsDate(from) && IsDate(to) && Key(from) <= Key(to)
    requires IsMonth(mo) && MonthKey(MonthOf(from)) <= MonthKey(mo) <= MonthKey(MonthOf(to))
    ensures IsDate(t) && Key(from) <= Key(t) <= Key(to) && MonthOf(t) == mo
  {
    t := if mo == MonthOf(from) then from else Date(mo.y, mo.m, 1);
  }

  lemma DayIsInAMonth(from: Date, to: Date, t: Date)
    requires IsDate(from) && IsDate(to) && IsDate(t) && Key(from) <= Key(t) <= Key(to)
    ensures IsMonth(MonthOf(t)) && MonthKey(MonthOf(from)) <= MonthKey(MonthOf(t)) <= MonthKey(MonthOf(to))
  {
  }

  lemma MonthsFollowDays(a: Date, b: Date)
    requires IsDate(a) && IsDate(b) && Key(a) < Key(b)
    ensures MonthKey(MonthOf(a)) <= MonthKey(MonthOf(b))
    ensures MonthKey(MonthOf(a)) == MonthKey(MonthOf(b)) ==> MonthOf(a) == MonthOf(b)
  {
  }

  /** Every month from the first date's to the last date's, once each, in order. */
  method MonthsBetween(from: Date, to: Date) returns (months: seq<Month>)
    requires IsDate(from) && IsDate(to) && Key(from) <= Key(to)
    ensures forall mo :: mo in months <==>
            IsMonth(mo) && MonthKey(MonthOf(from)) <= MonthKey(mo) <= MonthKey(MonthOf(to))
    ensures forall i, j :: 0 <= i < j < |months| ==> MonthKey(months[i]) < MonthKey(months[j])
  {
    var days := DateRange(from, to);
    months := [];
    for k := 0 to |days|
      invariant forall mo :: mo in months <==> exists l :: 0 <= l < k && MonthOf(days[l]) == mo
      invariant forall i, j :: 0 <= i < j < |months| ==> MonthKey(months[i]) < MonthKey(months[j])
    {
      assert days[k] in days;
      if MonthOf(days[k]) !in months {
        forall i | 0 <= i < |months| ensures MonthKey(months[i]) < MonthKey(MonthOf(days[k])) {
          assert months[i] in months;
          var l :| 0 <= l < k && MonthOf(days[l]) == months[i];
          assert days[l] in days;
          MonthsFollowDays(days[l], days[k]);
        }
        months := months + [MonthOf(days[k])];
      }
    }
    forall mo ensures mo in months <==>
      IsMonth(mo) && MonthKey(MonthOf(from)) <= MonthKey(mo) <= MonthKey(MonthOf(to)) {
      if mo in months {
        var l :| 0 <= l < |days| && MonthOf(days[l]) == mo;
        assert days[l] in days;
        DayIsInAMonth(from, to, days[l]);
      }
      if IsMonth(mo) && MonthKey(MonthOf(from)) <= MonthKey(mo) <= MonthKey(MonthOf(to)) {
        var t := MonthHasADay(from, to, mo);
        assert t in days;
      }
    }
  }

  // ---------------------------------------------------------------------------
  // The rows
  // ---------------------------------------------------------------------------

  datatype Counts = Counts(earlier: nat, now: nat)

  method CountActive(active: seq<ActiveMonth>, joined: map<string, Month>, months: seq<Month>)
    returns (counts: map<Month, Counts>)
    ensures counts.Keys == set mo | mo in months
    ensures forall mo :: mo in counts ==>
            counts[mo] == Counts(Tally(active, joined, mo, true), Tally(active, joined, mo, false))
  {
    counts := map mo | mo in months :: Counts(0, 0);
    for k := 0 to |active|
      invariant counts.Keys == set mo | mo in months
      invariant forall mo :: mo in counts ==>
                counts[mo] == Counts(Tally(active[..k], joined, mo, true), Tally(active[..k], joined, mo, false))
    {
      var a := active[k];
      assert active[..k + 1][..k] == active[..k];
      if a.month in counts && a.user in joined {
        var c := counts[a.month];
        counts := counts[a.month := if MonthKey(joined[a.user]) < MonthKey(a.month) then c.(earlier := c.earlier + 1)
                                    else c.(now := c.now + 1)];
      }
    }
    assert active[..|active|] == active;
  }

  /** n scaled from the elapsed days to the whole month, rounded to the nearest, halves up. */
  function Project(n: nat, total: nat, elapsed: nat): nat
    requires elapsed > 0
  {
    (2 * (n * total) + elapsed) / (2 * elapsed)
  }

  /** A projection is within half a user of the exact scaling, and never below what was counted. */
  lemma ProjectionIsNearest(n: nat, total: nat, elapsed: nat)
    requires 0 < elapsed < total
    ensures var p := Project(n, total, elapsed);
            Nearest(p, n, total, elapsed) && p >= n
  {
    var d, a, p := 2 * elapsed, n * total, Project(n, total, elapsed);
    Quotient(2 * a + elapsed, d);
    Scaled(n, elapsed, total);
    assert d * n == 2 * (n * elapsed) && d * (p + 1) == p * d + d;
    if p < n { Scaled(d, p + 1, n); }
  }

  lemma Quotient(x: nat, d: nat)
    requires d > 0
    ensures (x / d) * d <= x < (x / d) * d + d
  {
    assert x == (x / d) * d + x % d;
  }

  lemma Scaled(n: nat, a: nat, b: nat)
    requires a <= b
    ensures n * a <= n * b
  {
    assert n * b == n * a + n * (b - a);
  }

  datatype TractionMonth = TractionMonth(month: Month, joinedEarlier: nat, joinedThisMonth: nat,
                                         projected: Option<Counts>)

  /** The row of one month: only the last month, while days of it are left, is projected. */
  function MonthRow(active: seq<ActiveMonth>, joined: map<string, Month>, to: Date, mo: Month): TractionMonth
    requires IsDate(to)
  {
    var total := DaysInMonth(to.y, to.m);
    var earlier, now := Tally(active, joined, mo, true), Tally(active, joined, mo, false);
    TractionMonth(mo, earlier, now,
                  if mo == MonthOf(to) && to.d < total then
                    Some(Counts(Project(earlier, total, to.d), Project(now, total, to.d)))
                  else None)
  }

  predicate Earlier(a: Month, b: Month) { a.y < b.y || (a.y == b.y && a.m < b.m) }

  /** The active rows of a month whose user joined in an earlier month, or in that month or later. */
  ghost function RowsOf(active: seq<ActiveMonth>, joined: map<string, Month>, mo: Month, early: bool): set<nat> {
    set k | 0 <= k < |active| && active[k].month == mo && active[k].user in joined
            && (Earlier(joined[active[k].user], mo) <==> early)
  }

  lemma {:induction false} TallyCountsRows(active: seq<ActiveMonth>, joined: map<string, Month>, mo: Month, early: bool)
    requires IsMonth(mo) && forall u :: u in joined ==> IsMonth(joined[u])
    ensures Tally(active, joined, mo, early) == |RowsOf(active, joined, mo, early)|
    decreases |active|
  {
    if active != [] {
      TallyCountsRows(active[..|active| - 1], joined, mo, early);
      OneMoreRow(active, joined, mo, early);
      hide RowsOf, Falls, IsMonth;
    }
  }

  lemma OneMoreRow(active: seq<ActiveMonth>, joined: map<string, Month>, mo: Month, early: bool)
    requires IsMonth(mo) && (forall u :: u in joined ==> IsMonth(joined[u])) && active != []
    ensures var n := |active| - 1;
            var before := RowsOf(active[..n], joined, mo, early);
            n !in before && RowsOf(active, joined, mo, early)
                            == if Falls(active[n], joined, mo, early) then before + {n} else before
  {
    assert forall k :: 0 <= k < |active| - 1 ==> active[..|active| - 1][k] == active[k];
  }

  /** The row of a month counts its active rows by whether their user joined in an earlier month, and is projected
      exactly when the series ends in that month and the next day is still in it. */
  lemma MonthRowSaysItsMonth(active: seq<ActiveMonth>, joined: map<string, Month>, to: Date, mo: Month)
    requires IsDate(to) && IsMonth(mo) && forall u :: u in joined ==> IsMonth(joined[u])
    ensures var row := MonthRow(active, joined, to, mo);
            && row.month == mo
            && row.joinedEarlier == |RowsOf(active, joined, mo, true)|
            && row.joinedThisMonth == |RowsOf(active, joined, mo, false)|
            && (row.projected.Some? <==> MonthOf(to) == mo && MonthOf(NextDay(to)) == mo)
            && (row.projected.Some? ==>
                  && row.projected.value.earlier >= row.joinedEarlier && row.projected.value.now >= row.joinedThisMonth
                  && Nearest(row.projected.value.earlier, row.joinedEarlier, DaysInMonth(to.y, to.m), to.d)
                  && Nearest(row.projected.value.now, row.joinedThisMonth, DaysInMonth(to.y, to.m), to.d))
  {
    hide Tally, RowsOf, Project;
    TallyCountsRows(active, joined, mo, true);
    TallyCountsRows(active, joined, mo, false);
    var row := MonthRow(active, joined, to, mo);
    if row.projected.Some? {
      ProjectionIsNearest(row.joinedEarlier, DaysInMonth(to.y, to.m), to.d);
      ProjectionIsNearest(row.joinedThisMonth, DaysInMonth(to.y, to.m), to.d);
    }
  }

  /** p is n scaled from the elapsed days to all of them, to within half. */
  predicate Nearest(p: nat, n: nat, total: nat, elapsed: nat) {
    p * (2 * elapsed) - elapsed <= 2 * (n * total) <= p * (2 * elapsed) + elapsed
  }

  method BuildMonthly(active: seq<ActiveMonth>, students: seq<TractionUnits.Student>, from: Date, to: Date)
    returns (out: seq<TractionMonth>)
    requires IsDate(from) && IsDate(to)
    ensures Key(to) < Key(from) ==> out == []
    ensures Key(from) <= Key(to) ==>
              forall mo :: (exists k :: 0 <= k < |out| && out[k].month == mo)
                           <==> IsMonth(mo) && MonthKey(MonthOf(from)) <= MonthKey(mo) <= MonthKey(MonthOf(to))
    ensures forall i, j :: 0 <= i < j < |out| ==> MonthKey(out[i].month) < MonthKey(out[j].month)
    ensures forall k :: 0 <= k < |out| ==> out[k] == MonthRow(active, JoinedOf(students), to, out[k].month)
  {
    out := [];
    if Key(to) < Key(from) { return; }
    hide IsMonth, MonthOf, MonthKey, Tally, JoinedOf, Project, IsDate;
    var months := MonthsBetween(from, to);
    var joined := JoinedOf(students);
    var counts := CountActive(active, joined, months);
    out := MonthRows(active, joined, months, counts, to);
    hide MonthRow;
    forall mo ensures (exists k :: 0 <= k < |out| && out[k].month == mo) <==> mo in months {
      if mo in months { var k :| 0 <= k < |months| && months[k] == mo; assert out[k].month == mo; }
    }
  }

  method MonthRows(active: seq<ActiveMonth>, joined: map<string, Month>, months: seq<Month>, counts: map<Month, Counts>,
                   to: Date)
    returns (out: seq<TractionMonth>)
    requires IsDate(to) && forall mo :: mo in months ==> mo in counts
    requires forall mo :: mo in counts ==>
             counts[mo] == Counts(Tally(active, joined, mo, true), Tally(active, joined, mo, false))
    ensures |out| == |months| && forall k :: 0 <= k < |out| ==>
            out[k].month == months[k] && out[k] == MonthRow(active, joined, to, months[k])
  {
    hide Tally, Project;
    out := [];
    var total := DaysInMonth(to.y, to.m);
    for k := 0 to |months|
      invariant |out| == k && forall l :: 0 <= l < k ==>
                out[l].month == months[l] && out[l] == MonthRow(active, joined, to, months[l])
    {
      var month := months[k];
      var c := counts[month];
      var partial := month == MonthOf(to) && to.d < total;
      out := out + [TractionMonth(month, c.earlier, c.now,
                                  if partial then Some(Counts(Project(c.earlier, total, to.d),
                                    Project(c.now, total, to.d))) else None)];
    }
  }
}
