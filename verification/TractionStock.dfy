/** Running counts over days by a sorted sweep, against per-day definitions (src/users/traction.ts). */
module TractionStock {
  import opened StableSort
  import opened Calendar

  /** How many of the dates lie at or before the day. */
  function CountUpTo(dates: seq<Date>, day: Date): nat {
    if dates == [] then 0
    else CountUpTo(dates[..|dates| - 1], day) + (if Key(dates[|dates| - 1]) <= Key(day) then 1 else 0)
  }

  /** .. as a number of list positions. */
  lemma {:induction false} CountUpToCountsPositions(dates: seq<Date>, day: Date)
    ensures CountUpTo(dates, day) == |UpToDay(dates, day)|
    decreases |dates|
  {
    if dates != [] {
      var n := |dates| - 1;
      CountUpToCountsPositions(dates[..n], day);
      assert forall k :: 0 <= k < n ==> dates[..n][k] == dates[k];
      var before := UpToDay(dates[..n], day);
      assert UpToDay(dates, day) == if Key(dates[n]) <= Key(day) then before + {n} else before;
    }
  }

  ghost function UpToDay(dates: seq<Date>, day: Date): set<nat> {
    set k | 0 <= k < |dates| && Key(dates[k]) <= Key(day)
  }

  const BY_DATE: Date -> int := (t: Date) => Key(t)

  lemma {:induction false} InsertCounts(s: seq<Date>, x: Date, day: Date)
    ensures CountUpTo(Insert(s, x, BY_DATE), day) == CountUpTo(s, day) + (if Key(x) <= Key(day) then 1 else 0)
    decreases |s|
  {
    if s == [] || BY_DATE(s[|s| - 1]) <= BY_DATE(x) {
      assert (s + [x])[..|s|] == s;
    } else {
      var before, last := s[..|s| - 1], s[|s| - 1];
      InsertCounts(before, x, day);
      var r := Insert(before, x, BY_DATE);
      assert (r + [last])[..|r|] == r;
    }
  }

  lemma {:induction false} SortCounts(s: seq<Date>, day: Date)
    ensures CountUpTo(Sort(s, BY_DATE), day) == CountUpTo(s, day)
    decreases |s|
  {
    if s != [] {
      SortCounts(s[..|s| - 1], day);
      InsertCounts(Sort(s[..|s| - 1], BY_DATE), s[|s| - 1], day);
    }
  }

  /** In a sorted list the dates up to a day are a prefix. */
  lemma {:induction false} PrefixCounts(s: seq<Date>, i: nat, day: Date)
    requires i <= |s|
    requires forall k :: 0 <= k < i ==> Key(s[k]) <= Key(day)
    requires forall k :: i <= k < |s| ==> Key(s[k]) > Key(day)
    ensures CountUpTo(s, day) == i
    decreases |s|
  {
    if s != [] { PrefixCounts(s[..|s| - 1], if i < |s| then i else i - 1, day); }
  }

  ghost predicate Chronological(days: seq<Date>) { forall i, j :: 0 <= i < j < |days| ==> Key(days[i]) <= Key(days[j]) }

  /** The inner loop: skip the dates up to the day. */
  method Advance(sorted: seq<Date>, from: nat, day: Date) returns (i: nat)
    requires from <= |sorted| && Sorted(sorted, BY_DATE)
    requires forall a :: 0 <= a < from ==> Key(sorted[a]) <= Key(day)
    ensures from <= i <= |sorted|
    ensures forall a :: 0 <= a < i ==> Key(sorted[a]) <= Key(day)
    ensures forall a :: i <= a < |sorted| ==> Key(sorted[a]) > Key(day)
  {
    i := from;
    while i < |sorted| && Key(sorted[i]) <= Key(day)
      invariant from <= i <= |sorted|
      invariant forall a :: 0 <= a < i ==> Key(sorted[a]) <= Key(day)
    {
      i := i + 1;
    }
    forall a | i <= a < |sorted| ensures Key(sorted[a]) > Key(day) {
      if i < a { assert BY_DATE(sorted[i]) <= BY_DATE(sorted[a]); }
    }
  }

  /** The running count at the end of each day, for dates in any order. */
  method Stock(dates: seq<Date>, days: seq<Date>) returns (out: seq<nat>)
    requires Chronological(days)
    ensures |out| == |days| && forall k :: 0 <= k < |days| ==> out[k] == CountUpTo(dates, days[k])
  {
    var sorted := Sort(dates, BY_DATE);
    SortIsSorted(dates, BY_DATE);
    hide Sort, Sorted, CountUpTo;
    out := [];
    var i := 0;
    for k := 0 to |days|
      invariant |out| == k && forall l :: 0 <= l < k ==> out[l] == CountUpTo(dates, days[l])
      invariant i <= |sorted| && (k == 0 ==> i == 0)
      invariant k > 0 ==> forall a :: 0 <= a < i ==> Key(sorted[a]) <= Key(days[k - 1])
    {
      i := Advance(sorted, i, days[k]);
      PrefixCounts(sorted, i, days[k]);
      SortCounts(dates, days[k]);
      out := out + [i];
    }
  }
}
