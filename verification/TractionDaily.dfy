/** The daily series and its totals (src/users/traction.ts): every stock of a day by its own definition. */
module TractionDaily {
  import opened Calendar
  import opened TractionStock
  import opened TractionUnits
  import opened TractionPassing

  // ---------------------------------------------------------------------------
  // The series
  // ---------------------------------------------------------------------------

  /** How many users were active over five minutes on a day, and for how many milliseconds in all. */
  datatype Activity = Activity(usersOver5Min: nat, activeMs: nat)

  /** A day's activity; a day without a row has none, and of several rows the last counts. */
  function ActivityOn(activity: seq<(Date, Activity)>, day: Date): Activity {
    if activity == [] then Activity(0, 0)
    else if activity[|activity| - 1].0 == day then activity[|activity| - 1].1
    else ActivityOn(activity[..|activity| - 1], day)
  }

  /** Milliseconds in minutes, to one decimal. */
  function Minutes(ms: nat): real { ((ms as real / 60000.0 * 10.0 + 0.5).Floor as real) / 10.0 }

  /** The printed minutes are the exact ones to within three seconds. */
  lemma MinutesAreNearest(ms: nat)
    ensures -0.05 <= Minutes(ms) - ms as real / 60000.0 <= 0.05
  {
    var tenths := ms as real / 60000.0 * 10.0 + 0.5;
    assert tenths.Floor as real <= tenths < tenths.Floor as real + 1.0;
  }

  function ActivityMap(activity: seq<(Date, Activity)>): map<Date, Activity> {
    if activity == [] then map[]
    else ActivityMap(activity[..|activity| - 1])[activity[|activity| - 1].0 := activity[|activity| - 1].1]
  }

  lemma {:induction false} ActivityIsMapped(activity: seq<(Date, Activity)>, day: Date)
    ensures var m := ActivityMap(activity); (if day in m then m[day] else Activity(0, 0)) == ActivityOn(activity, day)
    decreases |activity|
  {
    if activity != [] { ActivityIsMapped(activity[..|activity| - 1], day); }
  }

  datatype TractionDay = TractionDay(
    date: Date, usersOver5Min: nat, minutes: real, studentsOnboarded: nat, mplbPassed: int, teachersOnboarded: nat,
      schools: nat, blocks: nat, districts: nat, states: nat)

  function OnboardingDates(students: seq<Student>): (r: seq<Date>)
    ensures |r| == |students|
  {
    seq(|students|, k requires 0 <= k < |students| => students[k].onboardedOn)
  }

  /** The stocks of one day, each by its own definition. */
  ghost function DayOf(activity: seq<(Date, Activity)>, students: seq<Student>, teacherDays: seq<Date>,
                       mplb: seq<Result>, day: Date): TractionDay {
    var a := ActivityOn(activity, day);
    TractionDay(day, a.usersOver5Min, Minutes(a.activeMs), CountUpTo(OnboardingDates(students), day),
      |PassingBy(mplb, NextDay(day))|, CountUpTo(teacherDays, day),
                |Reached(students, "school", day)|, |Reached(students, "block", day)|,
                |Reached(students, "district", day)|, |Reached(students, "state", day)|)
  }

  /** What stands in the columns of a day: the students and teachers onboarded by then, the units they reach, each kind
      in its own column, and the minutes and users of the day's own activity. */
  lemma DayHasItsStocks(activity: seq<(Date, Activity)>, students: seq<Student>, teacherDays: seq<Date>,
                        mplb: seq<Result>, day: Date)
    ensures var t := DayOf(activity, students, teacherDays, mplb, day);
            && t.date == day
            && t.studentsOnboarded == |set k | 0 <= k < |students| && Key(students[k].onboardedOn) <= Key(day)|
            && t.teachersOnboarded == |set k | 0 <= k < |teacherDays| && Key(teacherDays[k]) <= Key(day)|
            && t.schools == |Reached(students, "school", day)| && t.blocks == |Reached(students, "block", day)|
            && t.districts == |Reached(students, "district", day)| && t.states == |Reached(students, "state", day)|
            && t.mplbPassed == |set r | r in mplb && PassesBy(mplb, r.student, NextDay(day)) :: r.student|
            && t.usersOver5Min == ActivityOn(activity, day).usersOver5Min
            && t.minutes == Minutes(ActivityOn(activity, day).activeMs)
  {
    var dates := OnboardingDates(students);
    CountUpToCountsPositions(dates, day);
    CountUpToCountsPositions(teacherDays, day);
    assert UpToDay(dates, day) == set k | 0 <= k < |students| && Key(students[k].onboardedOn) <= Key(day);
    hide CountUpTo, Reached, PassesBy, ActivityOn, Minutes, NextDay;
  }

  method BuildDaily(activity: seq<(Date, Activity)>, students: seq<Student>, teacherDays: seq<Date>, mplb: seq<Result>,
                    from: Date, to: Date) returns (daily: seq<TractionDay>)
    requires IsDate(from) && IsDate(to)
    ensures forall t :: t in daily ==> t == DayOf(activity, students, teacherDays, mplb, t.date)
    ensures forall t :: t in daily ==> IsDate(t.date) && Key(from) <= Key(t.date) <= Key(to)
    ensures forall i, j :: 0 <= i < j < |daily| ==> Key(daily[i].date) < Key(daily[j].date)
    ensures forall d :: IsDate(d) && Key(from) <= Key(d) <= Key(to) ==>
            exists k :: 0 <= k < |daily| && daily[k].date == d
  {
    hide DayOf, IsDate, Key;
    var days := DateRange(from, to);
    daily := DailyRows(activity, students, teacherDays, mplb, days);
    hide Chronological;
    forall t | t in daily ensures IsDate(t.date) && Key(from) <= Key(t.date) <= Key(to) {
      var k :| 0 <= k < |daily| && daily[k] == t;
      assert days[k] in days;
    }
    forall d | IsDate(d) && Key(from) <= Key(d) <= Key(to) ensures exists k :: 0 <= k < |daily| && daily[k].date == d {
      assert d in days;
      var k :| 0 <= k < |days| && days[k] == d;
      assert daily[k].date == d;
    }
  }

  method DailyRows(activity: seq<(Date, Activity)>, students: seq<Student>, teacherDays: seq<Date>, mplb: seq<Result>,
                   days: seq<Date>) returns (daily: seq<TractionDay>)
    requires Chronological(days) && forall t :: t in days ==> IsDate(t)
    ensures |daily| == |days| && forall k :: 0 <= k < |days| ==>
            daily[k].date == days[k] && daily[k] == DayOf(activity, students, teacherDays, mplb, days[k])
  {
    hide CountUpTo, Reached, PassingBy, IsFirst, IsDate, NextDay, Visits, ActivityOn, ActivityMap, Minutes;
    var active := ActivityMap(activity);
    var onboarded := Stock(OnboardingDates(students), days);
    var teachers := Stock(teacherDays, days);
    var byType := FirstByType(students);
    var schools := UnitStock(students, byType, "school", days);
    var blocks := UnitStock(students, byType, "block", days);
    var districts := UnitStock(students, byType, "district", days);
    var states := UnitStock(students, byType, "state", days);
    var passed := MplbSweep(mplb, days);
    hide AllFirst, Chronological;
    daily := [];
    for k := 0 to |days|
      invariant |daily| == k
      invariant forall l :: 0 <= l < k ==>
                daily[l].date == days[l] && daily[l] == DayOf(activity, students, teacherDays, mplb, days[l])
    {
      ActivityIsMapped(activity, days[k]);
      var a := if days[k] in active then active[days[k]] else Activity(0, 0);
      daily := daily
        + [TractionDay(days[k], a.usersOver5Min, Minutes(a.activeMs), onboarded[k], passed[k], teachers[k], schools[k],
          blocks[k], districts[k], states[k])];
    }
  }

  // ---------------------------------------------------------------------------
  // The totals
  // ---------------------------------------------------------------------------

  function StudentsBy(students: seq<Student>, to: Date): nat {
    if students == [] then 0
    else
      StudentsBy(students[..|students| - 1], to)
        + (if Key(students[|students| - 1].onboardedOn) <= Key(to) then 1 else 0)
  }

  /** The total of students is the last day's stock, and no day's stock exceeds it. */
  lemma {:induction false} TotalIsTheLastStock(students: seq<Student>, day: Date, to: Date)
    requires Key(day) <= Key(to)
    ensures StudentsBy(students, to) == CountUpTo(OnboardingDates(students), to)
    ensures CountUpTo(OnboardingDates(students), day) <= StudentsBy(students, to)
    decreases |students|
  {
    if students != [] {
      var before := students[..|students| - 1];
      TotalIsTheLastStock(before, day, to);
      assert OnboardingDates(students)[..|before|] == OnboardingDates(before);
    }
  }
}
