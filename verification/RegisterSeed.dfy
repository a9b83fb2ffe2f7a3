/**
 Seeding the school register in two passes (src/scripts/seed-geo-entities.ts): the first validates
 and collects the levels, the second builds the rows and relies on what the first has covered.

 CSV parsing, the reading of coordinates as numbers and the display columns are library behaviour or
 plain copies: a row arrives with its coordinate key, and only codes, parents and statuses are kept.
 A stored entity is identified by its level and code.
 */
module RegisterSeed {
  import opened Numerals
  import opened Options

  datatype Status = Operational | Closed | PermanentlyClosed | Merged | SanctionedNotOperational | DcfNotReceived

  datatype SourceRow = SourceRow(
    udiseCode: string, stateCode: string, districtCode: string, blockCode: string, schoolName: string,
    schoolStatusName: string, coordinateKey: Option<string>)

  // ---------------------------------------------------------------------------
  // Per-row rules
  // ---------------------------------------------------------------------------

  /** What String.trim removes. */
  predicate IsSpace(c: char) {
    c == ' ' || '\t' <= c <= '\r' || c == '\U{A0}' || c == '\U{1680}' || '\U{2000}' <= c <= '\U{200A}'
      || c == '\U{2028}' ||
    c == '\U{2029}' || c == '\U{202F}' || c == '\U{205F}' || c == '\U{3000}' || c == '\U{FEFF}'
  }

  function TrimStart(s: string): string { if s != "" && IsSpace(s[0]) then TrimStart(s[1..]) else s }

  function TrimEnd(s: string): string { if s != "" && IsSpace(s[|s| - 1]) then TrimEnd(s[..|s| - 1]) else s }

  function Trim(s: string): string { TrimEnd(TrimStart(s)) }

  predicate DigitCode(s: string, n: nat) { |s| == n && forall k :: 0 <= k < n ==> '0' <= s[k] <= '9' }

  predicate FormatOk(r: SourceRow) {
    DigitCode(Trim(r.udiseCode), 11) && DigitCode(r.stateCode, 2) && DigitCode(r.districtCode, 4) &&
    DigitCode(r.blockCode, 6) && Trim(r.schoolName) != ""
  }

  /** The white space and line ends of ECMAScript, by code point. */
  lemma SpacesByCode(c: char)
    ensures IsSpace(c) <==>
            || 0x09 <= c as int <= 0x0D || 0x2000 <= c as int <= 0x200A
            || c as int in [0x20, 0xA0, 0x1680, 0x2028, 0x2029, 0x202F, 0x205F, 0x3000, 0xFEFF]
  {
  }

  ghost predicate AllSpace(s: string) { forall c :: c in s ==> IsSpace(c) }

  /** Trimming takes the spaces at both ends and nothing else. */
  lemma TrimTakesTheSpaces(s: string) returns (before: string, after: string)
    ensures s == before + Trim(s) + after && AllSpace(before) && AllSpace(after)
    ensures Trim(s) != "" ==> !IsSpace(Trim(s)[0]) && !IsSpace(Trim(s)[|Trim(s)| - 1])
  {
    hide IsSpace;
    before := TrimStartTakes(s);
    after := TrimEndTakes(TrimStart(s));
    assert before + (Trim(s) + after) == before + Trim(s) + after;
  }

  lemma {:induction false} TrimStartTakes(s: string) returns (before: string)
    ensures s == before + TrimStart(s) && AllSpace(before)
    ensures TrimStart(s) != "" ==> !IsSpace(TrimStart(s)[0])
    decreases |s|
  {
    hide IsSpace;
    before := "";
    if s != "" && IsSpace(s[0]) {
      before := TrimStartTakes(s[1..]);
      before := [s[0]] + before;
      assert s == [s[0]] + s[1..];
    }
  }

  lemma {:induction false} TrimEndTakes(s: string) returns (after: string)
    ensures s == TrimEnd(s) + after && AllSpace(after)
    ensures TrimEnd(s) != "" ==> !IsSpace(TrimEnd(s)[|TrimEnd(s)| - 1]) && TrimEnd(s)[0] == s[0]
    decreases |s|
  {
    hide IsSpace;
    after := "";
    if s != "" && IsSpace(s[|s| - 1]) {
      after := TrimEndTakes(s[..|s| - 1]);
      after := after + [s[|s| - 1]];
      assert s == s[..|s| - 1] + [s[|s| - 1]];
    }
  }

  lemma DigitCodesArePadded(s: string, n: nat)
    ensures DigitCode(s, n) <==> exists v: nat :: s == Padded(v, n)
  {
    if DigitCode(s, n) { DigitsArePadded(s); }
    if v: nat :| s == Padded(v, n) { PaddedAreDigits(v, n); }
  }

  /** A row is well formed when its codes are numbers of eleven, two, four and six digits and it has a name. */
  lemma WellFormedRows(r: SourceRow)
    ensures FormatOk(r) <==>
            && (exists school: nat :: Trim(r.udiseCode) == Padded(school, 11))
            && (exists state: nat :: r.stateCode == Padded(state, 2))
            && (exists district: nat :: r.districtCode == Padded(district, 4))
            && (exists block: nat :: r.blockCode == Padded(block, 6))
            && exists c :: c in r.schoolName && !IsSpace(c)
  {
    DigitCodesArePadded(Trim(r.udiseCode), 11);
    DigitCodesArePadded(r.stateCode, 2);
    DigitCodesArePadded(r.districtCode, 4);
    DigitCodesArePadded(r.blockCode, 6);
    NamedRows(r);
    hide Trim, DigitCode, Padded, IsSpace;
  }

  lemma NamedRows(r: SourceRow)
    ensures Trim(r.schoolName) != "" <==> exists c :: c in r.schoolName && !IsSpace(c)
  {
    var before, after := TrimTakesTheSpaces(r.schoolName);
    hide IsSpace, Trim;
    if Trim(r.schoolName) != "" { assert Trim(r.schoolName)[0] in r.schoolName; }
  }

  function Code(r: SourceRow): string { Trim(r.udiseCode) }

  type StatusMap = map<string, Status>

  function MapSchoolStatus(r: SourceRow, m: StatusMap): Option<Status> {
    var key := Trim(r.schoolStatusName);
    if key in m then Some(m[key]) else None
  }

  // ---------------------------------------------------------------------------
  // What a row stream registers
  // ---------------------------------------------------------------------------

  datatype Kind = BadFormat | PseudoState | Duplicate | School

  function KindOf(r: SourceRow, registered: set<string>, stateCodes: set<string>): Kind {
    if !FormatOk(r) then BadFormat
    else if r.stateCode !in stateCodes then PseudoState
    else if Code(r) in registered then Duplicate
    else School
  }

  /** The rows that become schools: well-formed, of a real state, the first of their code. */
  function Registered(rows: seq<SourceRow>, stateCodes: set<string>): seq<SourceRow> {
    if rows == [] then []
    else
      var before, r := Registered(rows[..|rows| - 1], stateCodes), rows[|rows| - 1];
      if KindOf(r, Codes(before), stateCodes) == School then before + [r] else before
  }

  function Codes(rs: seq<SourceRow>): set<string> { set r | r in rs :: Code(r) }

  function Tally(rows: seq<SourceRow>, stateCodes: set<string>, kind: Kind): nat {
    if rows == [] then 0
    else
      var before := rows[..|rows| - 1];
      Tally(before, stateCodes, kind)
      + (if KindOf(rows[|rows| - 1], Codes(Registered(before, stateCodes)), stateCodes) == kind then 1 else 0)
  }

  /** Every row is exactly one of: badly formatted, of a pseudo-state, a duplicate, a school. */
  lemma {:induction false} RowsAreAccounted(rows: seq<SourceRow>, stateCodes: set<string>)
    ensures |rows| == Tally(rows, stateCodes, BadFormat) + Tally(rows, stateCodes, PseudoState)
                      + Tally(rows, stateCodes, Duplicate) + Tally(rows, stateCodes, School)
    ensures Tally(rows, stateCodes, School) == |Registered(rows, stateCodes)|
    decreases |rows|
  {
    if rows != [] { RowsAreAccounted(rows[..|rows| - 1], stateCodes); }
  }

  /** Registered codes are distinct, and every registered row passes the checks. */
  lemma {:induction false} RegisteredAreSound(rows: seq<SourceRow>, stateCodes: set<string>)
    ensures var rs := Registered(rows, stateCodes);
            && (forall i, j :: 0 <= i < j < |rs| ==> Code(rs[i]) != Code(rs[j]))
            && (forall r :: r in rs ==> r in rows && FormatOk(r) && r.stateCode in stateCodes)
    decreases |rows|
  {
    if rows != [] {
      RegisteredAreSound(rows[..|rows| - 1], stateCodes);
      var before := Registered(rows[..|rows| - 1], stateCodes);
      hide FormatOk, Code;
      forall i | 0 <= i < |before| ensures Code(before[i]) in Codes(before) { assert before[i] in before; }
      assert rows == rows[..|rows| - 1] + [rows[|rows| - 1]];
    }
  }

  /** A row that may become a school, apart from duplicates. */
  predicate Eligible(r: SourceRow, stateCodes: set<string>) { FormatOk(r) && r.stateCode in stateCodes }

  /** Row k is the first eligible row with its school code. */
  ghost predicate FirstOfItsCode(rows: seq<SourceRow>, stateCodes: set<string>, k: nat)
    requires k < |rows|
  {
    Eligible(rows[k], stateCodes)
      && forall j :: 0 <= j < k && Eligible(rows[j], stateCodes) ==> Code(rows[j]) != Code(rows[k])
  }

  ghost predicate HasCode(rows: seq<SourceRow>, stateCodes: set<string>, code: string) {
    exists k :: 0 <= k < |rows| && Eligible(rows[k], stateCodes) && Code(rows[k]) == code
  }

  ghost predicate IsFirst(rows: seq<SourceRow>, stateCodes: set<string>, r: SourceRow) {
    exists k :: 0 <= k < |rows| && rows[k] == r && FirstOfItsCode(rows, stateCodes, k)
  }

  /** The schools are the first eligible rows of their codes: every code of an eligible row is registered, by the first
      such row. */
  lemma {:induction false} RegisteredAreFirsts(rows: seq<SourceRow>, stateCodes: set<string>)
    ensures forall c :: c in Codes(Registered(rows, stateCodes)) <==> HasCode(rows, stateCodes, c)
    ensures forall r :: r in Registered(rows, stateCodes) <==> IsFirst(rows, stateCodes, r)
    decreases |rows|
  {
    hide FormatOk, Code, HasCode, IsFirst;
    if rows == [] {
      NoFirsts(stateCodes);
    } else {
      var before, r := rows[..|rows| - 1], rows[|rows| - 1];
      assert rows == before + [r];
      RegisteredAreFirsts(before, stateCodes);
      OneMoreFirst(before, r, stateCodes);
      OneMoreCode(Registered(before, stateCodes), r);
    }
  }

  lemma NoFirsts(stateCodes: set<string>)
    ensures forall c :: !HasCode([], stateCodes, c)
    ensures forall r :: !IsFirst([], stateCodes, r)
  {
  }

  lemma OneMoreFirst(before: seq<SourceRow>, r: SourceRow, stateCodes: set<string>)
    ensures var rows := before + [r];
            && (forall c :: HasCode(rows, stateCodes, c) <==>
                            HasCode(before, stateCodes, c) || (Eligible(r, stateCodes) && Code(r) == c))
            && (forall x :: IsFirst(rows, stateCodes, x) <==>
                            IsFirst(before, stateCodes, x)
                              || (x == r && Eligible(r, stateCodes) && !HasCode(before, stateCodes, Code(r))))
  {
    hide Eligible, Code;
    var rows, n := before + [r], |before|;
    assert rows[n] == r;
    assert forall k :: 0 <= k < n ==> rows[k] == before[k];
    if HasCode(before, stateCodes, Code(r)) {
      var k :| 0 <= k < n && Eligible(before[k], stateCodes) && Code(before[k]) == Code(r);
      assert Eligible(rows[k], stateCodes) && Code(rows[k]) == Code(rows[n]);
    }
    assert FirstOfItsCode(rows, stateCodes, n) <==> Eligible(r, stateCodes) && !HasCode(before, stateCodes, Code(r));
    assert forall k :: 0 <= k < n ==> (FirstOfItsCode(rows, stateCodes, k) <==> FirstOfItsCode(before, stateCodes, k));
  }

  /** How many rows satisfy a condition. */
  function CountRows(rows: seq<SourceRow>, p: SourceRow -> bool): nat {
    if rows == [] then 0 else CountRows(rows[..|rows| - 1], p) + (if p(rows[|rows| - 1]) then 1 else 0)
  }

  /** What is skipped for which reason: the badly formatted rows, the well-formed ones of no real state, and the
      eligible ones that are not the first of their code. */
  lemma {:induction false} SkipsAreCounted(rows: seq<SourceRow>, stateCodes: set<string>)
    ensures Tally(rows, stateCodes, BadFormat) == CountRows(rows, (r: SourceRow) => !FormatOk(r))
    ensures Tally(rows, stateCodes, PseudoState)
         == CountRows(rows, (r: SourceRow) => FormatOk(r) && r.stateCode !in stateCodes)
    ensures Tally(rows, stateCodes, Duplicate) + |Registered(rows, stateCodes)|
         == CountRows(rows, (r: SourceRow) => Eligible(r, stateCodes))
    decreases |rows|
  {
    hide FormatOk;
    if rows != [] { SkipsAreCounted(rows[..|rows| - 1], stateCodes); }
  }

  // ---------------------------------------------------------------------------
  // Pass 1
  // ---------------------------------------------------------------------------

  /** An insertion-ordered counter. */
  datatype Counter = Counter(order: seq<string>, count: map<string, nat>) {
    function Bump(key: string): Counter {
      Counter(if key in order then order else order + [key], count[key := (if key in count then count[key] else 0) + 1])
    }
  }

  const EMPTY: Counter := Counter([], map[])

  function TopFrom(order: seq<string>, count: map<string, nat>, best: Option<string>, bestCount: int): Option<string> {
    if order == [] then best
    else
      var c := if order[0] in count then count[order[0]] as int else 0;
      if c > bestCount then TopFrom(order[1..], count, Some(order[0]), c)
      else TopFrom(order[1..], count, best, bestCount)
  }

  /** The most counted key, the earliest of equals. */
  function Top(c: Counter): Option<string> { TopFrom(c.order, c.count, None, -1) }

  lemma {:induction false} TopIsCounted(order: seq<string>, count: map<string, nat>, best: Option<string>,
                                        bestCount: int)
    ensures var t := TopFrom(order, count, best, bestCount); t == best || (t.Some? && t.value in order)
    ensures bestCount < 0 && order != [] ==>
            TopFrom(order, count, best, bestCount).Some? && TopFrom(order, count, best, bestCount).value in order
    decreases |order|
  {
    if order != [] {
      var c := if order[0] in count then count[order[0]] as int else 0;
      if c > bestCount {
        TopIsCounted(order[1..], count, Some(order[0]), c);
      } else { TopIsCounted(order[1..], count, best, bestCount); }
    }
  }

  function Get(count: map<string, nat>, key: string): nat { if key in count then count[key] else 0 }

  /** The top key is the first of those counted most. */
  lemma {:induction false} TopIsCountedMost(order: seq<string>, count: map<string, nat>, best: Option<string>,
                                            bestCount: int)
    ensures var t := TopFrom(order, count, best, bestCount);
            || (t == best && forall k :: 0 <= k < |order| ==> Get(count, order[k]) <= bestCount)
            || (exists i :: 0 <= i < |order| && t == Some(order[i]) && Get(count, order[i]) > bestCount
                            && (forall k :: 0 <= k < |order| ==> Get(count, order[k]) <= Get(count, order[i]))
                            && (forall k :: 0 <= k < i ==> Get(count, order[k]) < Get(count, order[i])))
    decreases |order|
  {
    if order != [] {
      var c, rest := Get(count, order[0]), order[1..];
      var t := TopFrom(order, count, best, bestCount);
      var best', bestCount' := if c > bestCount then Some(order[0]) else best, if c > bestCount then c else bestCount;
      TopIsCountedMost(rest, count, best', bestCount');
      assert t == TopFrom(rest, count, best', bestCount');
      hide TopFrom;
      assert forall k :: 0 <= k < |rest| ==> rest[k] == order[k + 1];
      if i :| 0 <= i < |rest| && t == Some(rest[i]) && Get(count, rest[i]) > bestCount'
              && (forall k :: 0 <= k < |rest| ==> Get(count, rest[k]) <= Get(count, rest[i]))
              && (forall k :: 0 <= k < i ==> Get(count, rest[k]) < Get(count, rest[i]))
      {
        var j := i + 1;
        forall k | 0 <= k < |order| ensures Get(count, order[k]) <= Get(count, order[j]) {
          if k > 0 { assert order[k] == rest[k - 1]; }
        }
        forall k | 0 <= k < j ensures Get(count, order[k]) < Get(count, order[j]) {
          if k > 0 { assert order[k] == rest[k - 1]; }
        }
        assert t == Some(order[j]);
      } else {
        forall k | 0 <= k < |order| ensures Get(count, order[k]) <= bestCount' {
          if k > 0 { assert order[k] == rest[k - 1]; }
        }
        if c > bestCount { assert t == Some(order[0]); }
      }
    }
  }

  type Level = map<string, Counter>

  function Touch(level: Level, code: string, parent: string): Level {
    level[code := (if code in level then level[code] else EMPTY).Bump(parent)]
  }

  /** A code and the parent code one registered row gives it. */
  type Link = (string, string)

  ghost predicate Distinct(s: seq<string>) { forall i, j :: 0 <= i < j < |s| ==> s[i] != s[j] }

  /** The level holds exactly the codes of the links, each with exactly the parents the links give it, once each. */
  ghost predicate Covers(level: Level, links: seq<Link>) {
    && (forall l :: l in links ==> l.0 in level && l.1 in level[l.0].order)
    && (forall c, p :: c in level && p in level[c].order ==> (c, p) in links)
    && (forall c :: c in level ==> level[c].order != [] && Distinct(level[c].order))
  }

  lemma TouchCovers(level: Level, links: seq<Link>, code: string, parent: string)
    requires Covers(level, links)
    ensures Covers(Touch(level, code, parent), links + [(code, parent)])
  {
  }

  /** How many rows make a link. */
  function Occurs(links: seq<Link>, l: Link): nat {
    if links == [] then 0 else Occurs(links[..|links| - 1], l) + (if links[|links| - 1] == l then 1 else 0)
  }

  /** Every parent of a code is counted once for each row that gives it. */
  ghost predicate Counted(level: Level, links: seq<Link>) {
    forall c, p :: (if c in level then Get(level[c].count, p) else 0) == Occurs(links, (c, p))
  }

  /** The parents of a code stand in the order in which rows first give them. */
  ghost predicate FirstComeFirst(level: Level, links: seq<Link>) {
    forall c, i, j :: c in level && 0 <= i < j < |level[c].order| ==>
      GivenBefore(links, (c, level[c].order[i]), (c, level[c].order[j]))
  }

  /** Some row makes the first link before any row makes the second. */
  ghost predicate GivenBefore(links: seq<Link>, first: Link, second: Link) {
    exists a :: 0 <= a < |links| && links[a] == first && forall b :: 0 <= b <= a ==> links[b] != second
  }

  lemma TouchKeepsOrder(level: Level, links: seq<Link>, code: string, parent: string)
    requires Covers(level, links) && FirstComeFirst(level, links)
    ensures FirstComeFirst(Touch(level, code, parent), links + [(code, parent)])
  {
    var after, all := Touch(level, code, parent), links + [(code, parent)];
    forall c, i, j | c in after && 0 <= i < j < |after[c].order|
      ensures GivenBefore(all, (c, after[c].order[i]), (c, after[c].order[j]))
    {
      var first, second := (c, after[c].order[i]), (c, after[c].order[j]);
      if c in level && j < |level[c].order| {
        GivenBeforeStays(links, (code, parent), first, second);
      } else {
        NewComesLast(level, links, code, parent, c, i, j);
      }
    }
  }

  lemma GivenBeforeStays(links: seq<Link>, more: Link, first: Link, second: Link)
    requires GivenBefore(links, first, second)
    ensures GivenBefore(links + [more], first, second)
  {
    var a :| 0 <= a < |links| && links[a] == first && forall b :: 0 <= b <= a ==> links[b] != second;
    assert (links + [more])[a] == first;
  }

  lemma NewComesLast(level: Level, links: seq<Link>, code: string, parent: string, c: string, i: nat, j: nat)
    requires Covers(level, links)
    requires c in Touch(level, code, parent) && i < j < |Touch(level, code, parent)[c].order|
    requires c in level ==> j >= |level[c].order|
    ensures var order := Touch(level, code, parent)[c].order;
            GivenBefore(links + [(code, parent)], (c, order[i]), (c, order[j]))
  {
    var order := Touch(level, code, parent)[c].order;
    assert c in level && i < |level[c].order| && (c, order[i]) in links && (c, order[j]) !in links;
    var a :| 0 <= a < |links| && links[a] == (c, order[i]);
    assert (links + [(code, parent)])[a] == (c, order[i]);
  }

  lemma TouchCounts(level: Level, links: seq<Link>, code: string, parent: string)
    requires Counted(level, links)
    ensures Counted(Touch(level, code, parent), links + [(code, parent)])
  {
    var after, all := Touch(level, code, parent), links + [(code, parent)];
    forall c, p ensures (if c in after then Get(after[c].count, p) else 0) == Occurs(all, (c, p)) {
      assert (if c in level then Get(level[c].count, p) else 0) == Occurs(links, (c, p));
      TouchAddsOne(level, code, parent, c, p);
      OneMoreOccurs(links, (code, parent), (c, p));
      hide Occurs, Touch, Get;
    }
  }

  lemma TouchAddsOne(level: Level, code: string, parent: string, c: string, p: string)
    ensures var after := Touch(level, code, parent);
            (if c in after then Get(after[c].count, p) else 0)
            == (if c in level then Get(level[c].count, p) else 0) + (if c == code && p == parent then 1 else 0)
  {
  }

  lemma OneMoreOccurs(links: seq<Link>, more: Link, l: Link)
    ensures Occurs(links + [more], l) == Occurs(links, l) + (if more == l then 1 else 0)
  {
    assert (links + [more])[..|links|] == links;
  }

  lemma TopIsAt(c: Counter) returns (i: nat)
    requires c.order != []
    ensures i < |c.order| && Top(c) == Some(c.order[i])
    ensures forall k :: 0 <= k < |c.order| ==> Get(c.count, c.order[k]) <= Get(c.count, c.order[i])
    ensures forall k :: 0 <= k < i ==> Get(c.count, c.order[k]) < Get(c.count, c.order[i])
  {
    TopIsCountedMost(c.order, c.count, None, -1);
    TopIsCounted(c.order, c.count, None, -1);
    hide TopFrom, Get;
    i :| 0 <= i < |c.order| && Top(c) == Some(c.order[i])
         && (forall k :: 0 <= k < |c.order| ==> Get(c.count, c.order[k]) <= Get(c.count, c.order[i]))
         && (forall k :: 0 <= k < i ==> Get(c.count, c.order[k]) < Get(c.count, c.order[i]));
  }

  /** The parent resolved for a code is the one most rows give it, of several the one given first. */
  lemma TopIsTheMajority(level: Level, links: seq<Link>, code: string)
    requires Covers(level, links) && Counted(level, links) && FirstComeFirst(level, links) && code in level
    ensures Top(level[code]).Some?
    ensures forall p :: Occurs(links, (code, p)) <= Occurs(links, (code, Top(level[code]).value))
    ensures forall p :: (code, p) in links && p != Top(level[code]).value
                        && Occurs(links, (code, p)) == Occurs(links, (code, Top(level[code]).value)) ==>
              GivenBefore(links, (code, Top(level[code]).value), (code, p))
  {
    var c := level[code];
    var i := TopIsAt(c);
    hide Top, Get, Occurs, GivenBefore, Counted;
    var top := c.order[i];
    forall p ensures Occurs(links, (code, p)) <= Occurs(links, (code, top)) {
      OccursAsCounted(level, links, code, p);
      OccursAsCounted(level, links, code, top);
      if p in c.order { var k :| 0 <= k < |c.order| && c.order[k] == p; } else { OnlyLinksOccur(links, (code, p)); }
    }
    forall p | (code, p) in links && p != top && Occurs(links, (code, p)) == Occurs(links, (code, top))
      ensures GivenBefore(links, (code, top), (code, p))
    {
      OccursAsCounted(level, links, code, p);
      OccursAsCounted(level, links, code, top);
      var k :| 0 <= k < |c.order| && c.order[k] == p;
      assert i < k;
    }
  }

  lemma OccursAsCounted(level: Level, links: seq<Link>, code: string, p: string)
    requires Counted(level, links) && code in level
    ensures Get(level[code].count, p) == Occurs(links, (code, p))
  {
    assert (if code in level then Get(level[code].count, p) else 0) == Occurs(links, (code, p));
  }

  lemma {:induction false} OnlyLinksOccur(links: seq<Link>, l: Link)
    ensures l in links <==> Occurs(links, l) > 0
    decreases |links|
  {
    if links != [] {
      OnlyLinksOccur(links[..|links| - 1], l);
      assert links == links[..|links| - 1] + [links[|links| - 1]];
    }
  }

  function DistrictLinks(rs: seq<SourceRow>): (l: seq<Link>)
    ensures |l| == |rs| && forall k :: 0 <= k < |rs| ==> l[k] == (rs[k].districtCode, rs[k].stateCode)
  {
    seq(|rs|, k requires 0 <= k < |rs| => (rs[k].districtCode, rs[k].stateCode))
  }

  function BlockLinks(rs: seq<SourceRow>): (l: seq<Link>)
    ensures |l| == |rs| && forall k :: 0 <= k < |rs| ==> l[k] == (rs[k].blockCode, rs[k].districtCode)
  {
    seq(|rs|, k requires 0 <= k < |rs| => (rs[k].blockCode, rs[k].districtCode))
  }

  lemma OneMoreLink(rs: seq<SourceRow>, r: SourceRow)
    ensures DistrictLinks(rs + [r]) == DistrictLinks(rs) + [(r.districtCode, r.stateCode)]
    ensures BlockLinks(rs + [r]) == BlockLinks(rs) + [(r.blockCode, r.districtCode)]
  {
  }

  /** How many registered operational schools share a coordinate. */
  function Sharing(rs: seq<SourceRow>, m: StatusMap, key: string): nat {
    if rs == [] then 0
    else
      var r := rs[|rs| - 1];
      Sharing(rs[..|rs| - 1], m, key)
        + (if MapSchoolStatus(r, m) == Some(Operational) && r.coordinateKey == Some(key) then 1 else 0)
  }

  /** The rows of operational schools at a coordinate. */
  ghost function Claimants(rs: seq<SourceRow>, m: StatusMap, key: string): set<nat> {
    set k | 0 <= k < |rs| && Trim(rs[k].schoolStatusName) in m && m[Trim(rs[k].schoolStatusName)] == Operational
            && rs[k].coordinateKey == Some(key)
  }

  lemma {:induction false} SharingCountsClaimants(rs: seq<SourceRow>, m: StatusMap, key: string)
    ensures Sharing(rs, m, key) == |Claimants(rs, m, key)|
    decreases |rs|
  {
    if rs != [] {
      SharingCountsClaimants(rs[..|rs| - 1], m, key);
      OneMoreClaimant(rs, m, key);
      hide Claimants, MapSchoolStatus;
    }
  }

  lemma OneMoreClaimant(rs: seq<SourceRow>, m: StatusMap, key: string)
    requires rs != []
    ensures var n := |rs| - 1;
            var before := Claimants(rs[..n], m, key);
            n !in before && Claimants(rs, m, key) ==
            if MapSchoolStatus(rs[n], m) == Some(Operational) && rs[n].coordinateKey == Some(key) then before + {n}
            else before
  {
    hide Trim;
    assert forall k :: 0 <= k < |rs| - 1 ==> rs[..|rs| - 1][k] == rs[k];
  }

  ghost predicate CountsCoordinates(counts: map<string, nat>, rs: seq<SourceRow>, m: StatusMap) {
    forall key :: (if key in counts then counts[key] else 0) == Sharing(rs, m, key)
  }

  function StatesOf(rs: seq<SourceRow>): set<string> { set r | r in rs :: r.stateCode }

  predicate Unmapped(r: SourceRow, m: StatusMap) { MapSchoolStatus(r, m).None? }

  function UnmappedOf(rs: seq<SourceRow>, m: StatusMap): set<string> {
    set r | r in rs && Unmapped(r, m) :: r.schoolStatusName
  }

  /** What the accumulated collections say about the registered rows. */
  ghost predicate Collected(states: set<string>, districts: Level, blocks: Level, unmapped: set<string>,
                            coordCounts: map<string, nat>, rs: seq<SourceRow>, m: StatusMap) {
    && states == StatesOf(rs) && unmapped == UnmappedOf(rs, m) && CountsCoordinates(coordCounts, rs, m)
    && Covers(districts, DistrictLinks(rs)) && Covers(blocks, BlockLinks(rs))
    && Counted(districts, DistrictLinks(rs)) && Counted(blocks, BlockLinks(rs))
    && FirstComeFirst(districts, DistrictLinks(rs)) && FirstComeFirst(blocks, BlockLinks(rs))
  }

  lemma OneMoreState(rs: seq<SourceRow>, r: SourceRow, m: StatusMap)
    ensures StatesOf(rs + [r]) == StatesOf(rs) + {r.stateCode}
    ensures UnmappedOf(rs + [r], m) == if Unmapped(r, m) then UnmappedOf(rs, m) + {r.schoolStatusName}
                                       else UnmappedOf(rs, m)
  {
    hide Unmapped;
    assert r in rs + [r];
  }

  lemma OneMoreCode(rs: seq<SourceRow>, r: SourceRow)
    ensures Codes(rs + [r]) == Codes(rs) + {Code(r)}
  {
    hide Code;
    assert r in rs + [r];
  }

  function CountCoordinate(counts: map<string, nat>, r: SourceRow, m: StatusMap): map<string, nat> {
    if MapSchoolStatus(r, m) == Some(Operational) && r.coordinateKey.Some? then
      var key := r.coordinateKey.value;
      counts[key := (if key in counts then counts[key] else 0) + 1]
    else counts
  }

  lemma OneMoreCoordinate(counts: map<string, nat>, rs: seq<SourceRow>, r: SourceRow, m: StatusMap)
    requires CountsCoordinates(counts, rs, m)
    ensures CountsCoordinates(CountCoordinate(counts, r, m), rs + [r], m)
  {
    hide MapSchoolStatus;
    var counts' := CountCoordinate(counts, r, m);
    assert (rs + [r])[..|rs|] == rs;
    forall key ensures (if key in counts' then counts'[key] else 0) == Sharing(rs + [r], m, key) { }
  }

  datatype Problem =
    | UnderManyStates(district: string) | NoState(district: string)
    | UnderManyDistricts(block: string) | NoDistrict(block: string)
    | UnmappedStatuses | MissingStates | NoSchools
    | FormatFailure(row: nat)

  const FORMAT_PREFIX: string := "format: "
  const MAX_FORMAT_FAILURES: nat := 20

  function Failures(rows: seq<nat>): (r: seq<Problem>)
    ensures forall p :: p in r <==> p.FormatFailure? && p.row in rows
  {
    if rows == [] then [] else [FormatFailure(rows[0])] + Failures(rows[1..])
  }

  /** How the message of an error begins. */
  function Opening(p: Problem): string {
    match p
    case UnderManyStates(_) => "district "
    case NoState(_) => "district "
    case UnderManyDistricts(_) => "block "
    case NoDistrict(_) => "block "
    case UnmappedStatuses => "unmapped schoolStatusName values: "
    case MissingStates => "register is missing state codes: "
    case NoSchools => "no valid school rows"
    case FormatFailure(_) => FORMAT_PREFIX
  }

  /** The filter on the report goes by the message, and takes out the format failures and nothing else. */
  lemma FilterTakesFormatFailures(p: Problem)
    ensures FORMAT_PREFIX <= Opening(p) <==> p.FormatFailure?
  {
    assert FORMAT_PREFIX[0] == 'f';
    match p
    case FormatFailure(_) =>
    case _ => assert Opening(p)[0] != 'f';
  }

  /** The numbers of the badly formatted rows. */
  function BadRows(rows: seq<SourceRow>): seq<nat> {
    if rows == [] then [] else BadRows(rows[..|rows| - 1]) + (if FormatOk(rows[|rows| - 1]) then [] else [|rows|])
  }

  /** What one more row of the stream changes. */
  lemma OneMoreStreamRow(stream: seq<SourceRow>, row: SourceRow, stateCodes: set<string>)
    ensures var rs, kind := Registered(stream, stateCodes),
            KindOf(row, Codes(Registered(stream, stateCodes)), stateCodes);
            && (forall k ::
                  Tally(stream + [row], stateCodes, k) == Tally(stream, stateCodes, k) + (if k == kind then 1 else 0))
            && Registered(stream + [row], stateCodes) == (if kind == School then rs + [row] else rs)
            && BadRows(stream + [row]) == BadRows(stream) + (if kind == BadFormat then [|stream| + 1] else [])
  {
    hide FormatOk, Code, Codes;
    assert (stream + [row])[..|stream|] == stream;
  }

  function AtMost(s: seq<nat>, n: nat): seq<nat> { if |s| <= n then s else s[..n] }

  /** The report's errors, by kind. */
  ghost predicate Reports(states: set<string>, districts: Level, blocks: Level, unmapped: set<string>, schools: nat,
                          stateCodes: set<string>, p: Problem) {
    match p
    case UnderManyStates(d) => d in districts && |districts[d].order| > 1
    case NoState(d) => d in districts && !(Top(districts[d]).Some? && Top(districts[d]).value in states)
    case UnderManyDistricts(b) => b in blocks && |blocks[b].order| > 1
    case NoDistrict(b) => b in blocks && !(Top(blocks[b]).Some? && Top(blocks[b]).value in districts)
    case UnmappedStatuses => unmapped != {}
    case MissingStates => !(stateCodes <= states)
    case NoSchools => schools == 0
    case FormatFailure(_) => false
  }

  // ---------------------------------------------------------------------------
  // Which registers are accepted
  // ---------------------------------------------------------------------------

  ghost predicate OneParent(links: seq<Link>) {
    forall a, b :: a in links && b in links && a.0 == b.0 ==> a.1 == b.1
  }

  /** A register is accepted when it covers every state, nests its levels, and has a mapped status for every school. */
  ghost predicate Acceptable(rs: seq<SourceRow>, m: StatusMap, stateCodes: set<string>) {
    && rs != [] && stateCodes <= StatesOf(rs)
    && OneParent(DistrictLinks(rs)) && OneParent(BlockLinks(rs))
    && forall r :: r in rs ==> !Unmapped(r, m)
  }

  lemma TopIsLinked(level: Level, links: seq<Link>, code: string)
    requires Covers(level, links) && code in level
    ensures Top(level[code]).Some? && (code, Top(level[code]).value) in links
  {
    hide TopFrom;
    TopIsCounted(level[code].order, level[code].count, None, -1);
  }

  lemma SingleParents(level: Level, links: seq<Link>)
    requires Covers(level, links)
    ensures OneParent(links) <==> forall c :: c in level ==> |level[c].order| <= 1
  {
    if c :| c in level && |level[c].order| > 1 {
      var o := level[c].order;
      assert o[0] in o && o[1] in o;
      assert (c, o[0]) in links && (c, o[1]) in links;
    } else {
      forall a, b | a in links && b in links && a.0 == b.0 ensures a.1 == b.1 { }
    }
  }

  /** Levels taken from whole rows never dangle: only genuine disagreements between rows are reported. */
  lemma ParentsAreTouched(rs: seq<SourceRow>, states: set<string>, districts: Level, blocks: Level)
    requires states == StatesOf(rs) && Covers(districts, DistrictLinks(rs)) && Covers(blocks, BlockLinks(rs))
    ensures forall d :: d in districts ==> Top(districts[d]).Some? && Top(districts[d]).value in states
    ensures forall b :: b in blocks ==> Top(blocks[b]).Some? && Top(blocks[b]).value in districts
  {
    hide Top;
    forall d | d in districts ensures Top(districts[d]).Some? && Top(districts[d]).value in states {
      TopIsLinked(districts, DistrictLinks(rs), d);
      var k :| 0 <= k < |rs| && DistrictLinks(rs)[k] == (d, Top(districts[d]).value);
      assert rs[k] in rs;
    }
    forall b | b in blocks ensures Top(blocks[b]).Some? && Top(blocks[b]).value in districts {
      TopIsLinked(blocks, BlockLinks(rs), b);
      var k :| 0 <= k < |rs| && BlockLinks(rs)[k] == (b, Top(blocks[b]).value);
      assert DistrictLinks(rs)[k] in DistrictLinks(rs);
    }
  }

  lemma NothingUnmapped(rs: seq<SourceRow>, m: StatusMap)
    ensures UnmappedOf(rs, m) == {} <==> forall r :: r in rs ==> !Unmapped(r, m)
  {
    hide Unmapped;
    if r :| r in rs && Unmapped(r, m) { assert r.schoolStatusName in UnmappedOf(rs, m); }
  }

  /** No error is reported exactly for acceptable registers. */
  lemma CleanMeansAcceptable(rs: seq<SourceRow>, states: set<string>, districts: Level, blocks: Level,
                             unmapped: set<string>,
                             coordCounts: map<string, nat>, m: StatusMap, stateCodes: set<string>)
    requires Collected(states, districts, blocks, unmapped, coordCounts, rs, m)
    ensures (forall p :: !Reports(states, districts, blocks, unmapped, |rs|, stateCodes, p)) <==>
            Acceptable(rs, m, stateCodes)
  {
    hide Top, Unmapped, Covers, Counted, FirstComeFirst, OneParent, UnmappedOf, StatesOf, CountsCoordinates,
      DistrictLinks, BlockLinks;
    ParentsAreTouched(rs, states, districts, blocks);
    SingleParents(districts, DistrictLinks(rs));
    SingleParents(blocks, BlockLinks(rs));
    NothingUnmapped(rs, m);
    if forall p :: !Reports(states, districts, blocks, unmapped, |rs|, stateCodes, p) {
      assert !Reports(states, districts, blocks, unmapped, |rs|, stateCodes, UnmappedStatuses);
      assert !Reports(states, districts, blocks, unmapped, |rs|, stateCodes, MissingStates);
      assert !Reports(states, districts, blocks, unmapped, |rs|, stateCodes, NoSchools);
      forall d | d in districts ensures |districts[d].order| <= 1 {
        assert !Reports(states, districts, blocks, unmapped, |rs|, stateCodes, UnderManyStates(d));
      }
      forall b | b in blocks ensures |blocks[b].order| <= 1 {
        assert !Reports(states, districts, blocks, unmapped, |rs|, stateCodes, UnderManyDistricts(b));
      }
    }
  }

  class Pass1Accumulator {
    const statusMap: StatusMap
    const stateCodes: set<string>
    var states: set<string>
    var districts: Level
    var blocks: Level
    var schoolCodes: set<string>
    var coordCounts: map<string, nat>
    var unmappedStatuses: set<string>
    var rows: nat
    var skippedFormat: nat
    var skippedPseudoState: nat
    var duplicateSchoolCodes: nat
    var schools: nat
    var formatFailures: seq<nat>
    ghost var stream: seq<SourceRow>

    /** The fields say what the stream read so far registers. */
    ghost predicate Valid() reads this {
      var rs := Registered(stream, stateCodes);
      && rows == |stream| && schools == |rs| && schoolCodes == Codes(rs)
      && skippedFormat == Tally(stream, stateCodes, BadFormat)
      && formatFailures == AtMost(BadRows(stream), 20)
      && skippedPseudoState == Tally(stream, stateCodes, PseudoState)
      && duplicateSchoolCodes == Tally(stream, stateCodes, Duplicate)
      && Collected(states, districts, blocks, unmappedStatuses, coordCounts, rs, statusMap)
    }

    constructor (statusMap: StatusMap, stateCodes: set<string>)
      ensures Valid() && stream == [] && this.statusMap == statusMap && this.stateCodes == stateCodes
    {
      this.statusMap, this.stateCodes := statusMap, stateCodes;
      states, districts, blocks := {}, map[], map[];
      schoolCodes, coordCounts, unmappedStatuses := {}, map[], {};
      rows, skippedFormat, skippedPseudoState, duplicateSchoolCodes, schools := 0, 0, 0, 0, 0;
      formatFailures, stream := [], [];
    }

    method Add(row: SourceRow)
      requires Valid()
      modifies this
      ensures Valid() && stream == old(stream) + [row]
    {
      hide FormatOk, Code, Collected, Codes, Registered, Tally, BadRows;
      ghost var rs := Registered(stream, stateCodes);
      OneMoreStreamRow(stream, row, stateCodes);
      stream := stream + [row];
      rows := rows + 1;
      if !FormatOk(row) {
        skippedFormat := skippedFormat + 1;
        if |formatFailures| < MAX_FORMAT_FAILURES { formatFailures := formatFailures + [rows]; }
      } else if row.stateCode !in stateCodes {
        skippedPseudoState := skippedPseudoState + 1;
      } else if Code(row) in schoolCodes {
        duplicateSchoolCodes := duplicateSchoolCodes + 1;
      } else {
        schoolCodes := schoolCodes + {Code(row)};
        schools := schools + 1;
        AddSchool(row, rs);
        OneMoreCode(rs, row);
      }
    }

    method AddSchool(row: SourceRow, ghost rs: seq<SourceRow>)
      requires Collected(states, districts, blocks, unmappedStatuses, coordCounts, rs, statusMap)
      modifies this`unmappedStatuses, this`coordCounts, this`states, this`districts, this`blocks
      ensures Collected(states, districts, blocks, unmappedStatuses, coordCounts, rs + [row], statusMap)
    {
      hide Covers, Counted, FirstComeFirst, CountsCoordinates, StatesOf, UnmappedOf, Touch, CountCoordinate, Unmapped,
        DistrictLinks, BlockLinks;
      if Unmapped(row, statusMap) { unmappedStatuses := unmappedStatuses + {row.schoolStatusName}; }
      OneMoreState(rs, row, statusMap);
      OneMoreCoordinate(coordCounts, rs, row, statusMap);
      OneMoreLink(rs, row);
      TouchCovers(districts, DistrictLinks(rs), row.districtCode, row.stateCode);
      TouchCovers(blocks, BlockLinks(rs), row.blockCode, row.districtCode);
      TouchKeepsOrder(districts, DistrictLinks(rs), row.districtCode, row.stateCode);
      TouchKeepsOrder(blocks, BlockLinks(rs), row.blockCode, row.districtCode);
      TouchCounts(districts, DistrictLinks(rs), row.districtCode, row.stateCode);
      TouchCounts(blocks, BlockLinks(rs), row.blockCode, row.districtCode);
      coordCounts := CountCoordinate(coordCounts, row, statusMap);
      states := states + {row.stateCode};
      districts := Touch(districts, row.districtCode, row.stateCode);
      blocks := Touch(blocks, row.blockCode, row.districtCode);
    }

    ghost predicate Reported(p: Problem) reads this {
      Reports(states, districts, blocks, unmappedStatuses, schools, stateCodes, p)
    }

    method CheckDistricts() returns (errors: seq<Problem>)
      ensures forall p :: p in errors <==> Reported(p) && (p.UnderManyStates? || p.NoState?)
    {
      hide Top;
      errors := [];
      var left := districts.Keys;
      while left != {}
        invariant left <= districts.Keys
        invariant forall p :: p in errors <==> Reported(p) && (p.UnderManyStates? || p.NoState?) && p.district !in left
        decreases left
      {
        var d :| d in left;
        if |districts[d].order| > 1 { errors := errors + [UnderManyStates(d)]; }
        var parent := Top(districts[d]);
        if parent.None? || parent.value !in states { errors := errors + [NoState(d)]; }
        left := left - {d};
      }
    }

    method CheckBlocks() returns (errors: seq<Problem>)
      ensures forall p :: p in errors <==> Reported(p) && (p.UnderManyDistricts? || p.NoDistrict?)
    {
      hide Top;
      errors := [];
      var left := blocks.Keys;
      while left != {}
        invariant left <= blocks.Keys
        invariant forall p :: p in errors <==>
                  Reported(p) && (p.UnderManyDistricts? || p.NoDistrict?) && p.block !in left
        decreases left
      {
        var b :| b in left;
        if |blocks[b].order| > 1 { errors := errors + [UnderManyDistricts(b)]; }
        var parent := Top(blocks[b]);
        if parent.None? || parent.value !in districts { errors := errors + [NoDistrict(b)]; }
        left := left - {b};
      }
    }

    /** All errors found, the first badly formatted rows among them. */
    method ListErrors() returns (listed: seq<Problem>)
      ensures forall p :: p in listed <==> Reported(p) || (p.FormatFailure? && p.row in formatFailures)
    {
      hide Top;
      var ds := CheckDistricts();
      var bs := CheckBlocks();
      listed := ds + bs;
      if unmappedStatuses != {} { listed := listed + [UnmappedStatuses]; }
      if !(stateCodes <= states) { listed := listed + [MissingStates]; }
      if schools == 0 { listed := listed + [NoSchools]; }
      listed := listed + Failures(formatFailures);
    }

    /** The report keeps the errors whose message is not a format failure's: bad formats never reject a register. */
    method Finish() returns (errors: seq<Problem>)
      requires Valid()
      ensures forall p :: p in errors <==> Reported(p)
      ensures errors == [] <==> Acceptable(Registered(stream, stateCodes), statusMap, stateCodes)
    {
      hide Top, Valid, Acceptable, Registered, Opening, Reports;
      var listed := ListErrors();
      errors := [];
      for k := 0 to |listed|
        invariant forall p :: p in errors <==> p in listed[..k] && !p.FormatFailure?
      {
        FilterTakesFormatFailures(listed[k]);
        assert listed[..k + 1] == listed[..k] + [listed[k]];
        if !(FORMAT_PREFIX <= Opening(listed[k])) { errors := errors + [listed[k]]; }
      }
      assert listed[..|listed|] == listed;
      FailuresAreNotReported();
      NoneListed(errors);
    }

    lemma FailuresAreNotReported()
      ensures forall p: Problem :: p.FormatFailure? ==> !Reported(p)
    {
    }

    lemma NoneListed(errors: seq<Problem>)
      requires Valid() && forall p :: p in errors <==> Reported(p)
      ensures errors == [] <==> Acceptable(Registered(stream, stateCodes), statusMap, stateCodes)
    {
      hide Acceptable, Reports, Collected, Tally, Registered;
      CleanMeansAcceptable(Registered(stream, stateCodes), states, districts, blocks, unmappedStatuses, coordCounts,
        statusMap, stateCodes);
      if errors != [] {
        assert errors[0] in errors && Reported(errors[0]);
      } else {
        forall p ensures !Reports(states, districts, blocks, unmappedStatuses, schools, stateCodes, p) {
          assert p !in errors && !Reported(p);
        }
      }
    }
  }
}
