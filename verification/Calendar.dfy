/** Calendar dates as the traction series compares and walks them (src/users/traction.ts). */
module Calendar {
  import opened Numerals

  /** A calendar date. The source compares zero-padded YYYY-MM-DD strings; Key orders dates the same way. */
  datatype Date = Date(y: int, m: int, d: int)

  predicate Leap(y: int) { y % 4 == 0 && (y % 100 != 0 || y % 400 == 0) }

  function DaysInMonth(y: int, m: int): int {
    if m == 2 then (if Leap(y) then 29 else 28) else if m == 4 || m == 6 || m == 9 || m == 11 then 30 else 31
  }

  predicate IsDate(t: Date) { 1 <= t.m <= 12 && 1 <= t.d <= DaysInMonth(t.y, t.m) }

  function Key(t: Date): int { (t.y * 13 + t.m) * 32 + t.d }

  /** Year first, then month, then day. */
  predicate Before(a: Date, b: Date) { a.y < b.y || (a.y == b.y && (a.m < b.m || (a.m == b.m && a.d < b.d))) }

  lemma KeyIsTheDateOrder(a: Date, b: Date)
    requires IsDate(a) && IsDate(b)
    ensures Before(a, b) <==> Key(a) < Key(b)
    ensures a == b <==> Key(a) == Key(b)
  {
  }

  // The strings the source compares.

  /** YYYY-MM-DD. */
  function Text(t: Date): string
    requires IsDate(t) && 0 <= t.y
  {
    Padded(t.y, 4) + ("-" + (Padded(t.m, 2) + ("-" + Padded(t.d, 2))))
  }

  /** The order of strings: the first difference decides, and a beginning comes before what it begins. */
  predicate StringLess(a: string, b: string) {
    b != "" && (a == "" || a[0] < b[0] || (a[0] == b[0] && StringLess(a[1..], b[1..])))
  }

  function Ten(width: nat): nat { if width == 0 then 1 else 10 * Ten(width - 1) }

  lemma FirstCharacter(c: char, d: char, x: string, y: string)
    ensures StringLess([c] + x, [d] + y) <==> c < d || (c == d && StringLess(x, y))
  {
    assert ([c] + x)[1..] == x && ([d] + y)[1..] == y;
  }

  /** Numbers of the same width, padded, compare as numbers. */
  lemma {:induction false} PaddedOrder(m: nat, n: nat, width: nat, x: string, y: string)
    requires m < Ten(width) && n < Ten(width)
    ensures StringLess(Padded(m, width) + x, Padded(n, width) + y) <==> m < n || (m == n && StringLess(x, y))
    decreases width
  {
    if width == 0 {
      assert "" + x == x && "" + y == y;
    } else {
      var c, d := Digit(m), Digit(n);
      assert Padded(m, width) + x == Padded(m / 10, width - 1) + ([c] + x);
      assert Padded(n, width) + y == Padded(n / 10, width - 1) + ([d] + y);
      PaddedOrder(m / 10, n / 10, width - 1, [c] + x, [d] + y);
      FirstCharacter(c, d, x, y);
      hide StringLess, Padded;
    }
  }

  /** For years of four digits, comparing the strings is comparing the keys. */
  lemma KeyIsTheStringOrder(a: Date, b: Date)
    requires IsDate(a) && IsDate(b) && 0 <= a.y <= 9999 && 0 <= b.y <= 9999
    ensures StringLess(Text(a), Text(b)) <==> Key(a) < Key(b)
    ensures Text(a) == Text(b) <==> Key(a) == Key(b)
  {
    KeyIsTheDateOrder(a, b);
    assert Ten(4) == 10000 && Ten(2) == 100;
    TextOrder(a, b);
    TextOrder(b, a);
    if Text(a) == Text(b) { NeverLess(Text(a)); }
  }

  lemma TextOrder(a: Date, b: Date)
    requires IsDate(a) && IsDate(b) && 0 <= a.y <= 9999 && 0 <= b.y <= 9999
    ensures StringLess(Text(a), Text(b)) <==> Before(a, b)
  {
    assert Ten(4) == 10000 && Ten(2) == 100;
    hide Padded, StringLess, DaysInMonth;
    var dayA, dayB := Padded(a.d, 2), Padded(b.d, 2);
    var monthA, monthB := Padded(a.m, 2) + ("-" + dayA), Padded(b.m, 2) + ("-" + dayB);
    assert a.d <= 31 && b.d <= 31 by { DaysAreFew(a); DaysAreFew(b); }
    PaddedOrder(a.y, b.y, 4, "-" + monthA, "-" + monthB);
    FirstCharacter('-', '-', monthA, monthB);
    PaddedOrder(a.m, b.m, 2, "-" + dayA, "-" + dayB);
    FirstCharacter('-', '-', dayA, dayB);
    PaddedOrder(a.d, b.d, 2, "", "");
    assert dayA + "" == dayA && dayB + "" == dayB;
    NeverLess("");
  }

  lemma DaysAreFew(t: Date)
    requires IsDate(t)
    ensures t.d <= 31
  {
  }

  lemma {:induction false} NeverLess(s: string)
    ensures !StringLess(s, s)
    decreases |s|
  {
    if s != "" { NeverLess(s[1..]); }
  }

  function NextDay(t: Date): Date {
    if t.d < DaysInMonth(t.y, t.m) then t.(d := t.d + 1)
    else if t.m < 12 then Date(t.y, t.m + 1, 1)
    else Date(t.y + 1, 1, 1)
  }

  /** The number of a day in the Gregorian calendar, in closed form: years are counted from March, so that the leap day
      comes last. */
  function DayNumber(t: Date): int {
    var y, m := if t.m <= 2 then t.y - 1 else t.y, if t.m <= 2 then t.m + 9 else t.m - 3;
    365 * y + y / 4 - y / 100 + y / 400 + (153 * m + 2) / 5 + t.d
  }

  /** The days are those of the Gregorian calendar: the next day has the next number. */
  lemma NextDayHasTheNextNumber(t: Date)
    requires IsDate(t)
    ensures DayNumber(NextDay(t)) == DayNumber(t) + 1
  {
    if t.d < DaysInMonth(t.y, t.m) {
      hide DaysInMonth;
    } else if t.m == 2 {
      LeapYearsAreCounted(t.y);
    } else {
      LongMonthEnds(t);
    }
  }

  lemma LongMonthEnds(t: Date)
    requires IsDate(t) && t.m != 2 && t.d == DaysInMonth(t.y, t.m)
    ensures DayNumber(NextDay(t)) == DayNumber(t) + 1
  {
    hide Leap;
  }

  lemma LeapYearsAreCounted(y: int)
    ensures y / 4 - y / 100 + y / 400
            == (y - 1) / 4 - (y - 1) / 100 + (y - 1) / 400
               + (if y % 4 == 0 && (y % 100 != 0 || y % 400 == 0) then 1 else 0)
  {
    Fours(y);
    Hundreds(y);
    FourHundreds(y);
    if y % 100 == 0 { assert y == 4 * (25 * (y / 100)); }
    if y % 400 == 0 { assert y == 100 * (4 * (y / 400)); }
  }

  lemma Fours(y: int)
    ensures y / 4 == (y - 1) / 4 + (if y % 4 == 0 then 1 else 0)
  {
  }

  lemma Hundreds(y: int)
    ensures y / 100 == (y - 1) / 100 + (if y % 100 == 0 then 1 else 0)
  {
  }

  lemma FourHundreds(y: int)
    ensures y / 400 == (y - 1) / 400 + (if y % 400 == 0 then 1 else 0)
  {
  }

  /** The next day is a date, and no date lies between. */
  lemma NextDayIsNext(t: Date, u: Date)
    requires IsDate(t)
    ensures IsDate(NextDay(t)) && Before(t, NextDay(t))
    ensures IsDate(u) && Before(t, u) ==> u == NextDay(t) || Before(NextDay(t), u)
  {
  }

  /** Every date from the first to the last, once each, in order. */
  method DateRange(from: Date, to: Date) returns (out: seq<Date>)
    requires IsDate(from) && IsDate(to)
    ensures forall t :: t in out <==> IsDate(t) && Key(from) <= Key(t) <= Key(to)
    ensures forall i, j :: 0 <= i < j < |out| ==> Key(out[i]) < Key(out[j])
  {
    out := [];
    var d := from;
    while Key(d) <= Key(to)
      invariant IsDate(d) && Key(from) <= Key(d)
      invariant forall t :: t in out <==> IsDate(t) && Key(from) <= Key(t) < Key(d) && Key(t) <= Key(to)
      invariant forall i, j :: 0 <= i < j < |out| ==> Key(out[i]) < Key(out[j])
      decreases Key(to) - Key(d)
    {
      ghost var before := out;
      out := out + [d];
      forall t ensures t in out <==> IsDate(t) && Key(from) <= Key(t) < Key(NextDay(d)) && Key(t) <= Key(to) {
        NextDayIsNext(d, t);
        KeyIsTheDateOrder(d, NextDay(d));
        if IsDate(t) { KeyIsTheDateOrder(d, t); KeyIsTheDateOrder(t, NextDay(d)); }
      }
      forall i | 0 <= i < |before| ensures Key(before[i]) < Key(d) { assert before[i] in before; }
      NextDayIsNext(d, d);
      KeyIsTheDateOrder(d, NextDay(d));
      d := NextDay(d);
    }
  }
}
