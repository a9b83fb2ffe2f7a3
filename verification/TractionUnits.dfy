/** Units with at least one onboarded student (src/users/traction.ts). */
module TractionUnits {
  import opened Calendar
  import opened TractionStock

  datatype UnitRef = UnitRef(id: string, kind: string)

  datatype Student = Student(id: string, onboardedOn: Date, units: seq<UnitRef>)

  const UNIT_TYPES: set<string> := {"school", "block", "district", "state"}

  /** The units of one kind that a student onboarded by the day belongs to. */
  ghost function Reached(students: seq<Student>, kind: string, day: Date): set<string> {
    set s, u | s in students && u in s.units && u.kind == kind && Key(s.onboardedOn) <= Key(day) :: u.id
  }

  /** Every (unit, onboarding date) pair, student by student. */
  function Visits(students: seq<Student>): seq<(UnitRef, Date)> {
    if students == [] then []
    else
      var s := students[|students| - 1];
      Visits(students[..|students| - 1]) + OwnVisits(s)
  }

  lemma {:induction false} VisitsAreMemberships(students: seq<Student>, u: UnitRef, t: Date)
    ensures (u, t) in Visits(students) <==> exists s :: s in students && u in s.units && s.onboardedOn == t
    decreases |students|
  {
    if students != [] {
      var before, s := students[..|students| - 1], students[|students| - 1];
      VisitsAreMemberships(before, u, t);
      assert students == before + [s];
      var own := OwnVisits(s);
      assert Visits(students) == Visits(before) + own;
      if u in s.units && s.onboardedOn == t {
        var k :| 0 <= k < |s.units| && s.units[k] == u;
        assert own[k] == (u, t);
      }
    }
  }

  /** first maps each unit of the kind to its earliest date. */
  ghost predicate IsFirst(first: map<string, Date>, visits: seq<(UnitRef, Date)>, kind: string) {
    && (forall v :: v in visits && v.0.kind == kind ==> v.0.id in first && Key(first[v.0.id]) <= Key(v.1))
    && (forall id :: id in first ==> (UnitRef(id, kind), first[id]) in visits)
  }

  lemma FirstDecidesReached(first: map<string, Date>, students: seq<Student>, kind: string, day: Date)
    requires IsFirst(first, Visits(students), kind)
    ensures Reached(students, kind, day) == UpTo(first, day)
  {
    forall id | id in UpTo(first, day) ensures id in Reached(students, kind, day) {
      VisitsAreMemberships(students, UnitRef(id, kind), first[id]);
    }
    forall id | id in Reached(students, kind, day) ensures id in UpTo(first, day) {
      var s, u :| s in students && u in s.units && u.kind == kind && Key(s.onboardedOn) <= Key(day) && u.id == id;
      VisitsAreMemberships(students, u, s.onboardedOn);
      assert (u, s.onboardedOn) in Visits(students);
    }
  }

  function UpTo(first: map<string, Date>, day: Date): set<string> { set id | id in first && Key(first[id]) <= Key(day) }

  method NoteVisit(byType: map<string, map<string, Date>>, u: UnitRef, t: Date, ghost visits: seq<(UnitRef, Date)>)
    returns (r: map<string, map<string, Date>>)
    requires AllFirst(byType, visits)
    ensures AllFirst(r, visits + [(u, t)])
  {
    r := byType;
    if u.kind in byType {
      var byId := byType[u.kind];
      if u.id !in byId || Key(t) < Key(byId[u.id]) { r := byType[u.kind := byId[u.id := t]]; }
    }
    forall k | k in UNIT_TYPES ensures IsFirst(r[k], visits + [(u, t)], k) {
      assert IsFirst(byType[k], visits, k);
      if k == u.kind { assert u == UnitRef(u.id, k); }
    }
  }

  ghost predicate AllFirst(byType: map<string, map<string, Date>>, visits: seq<(UnitRef, Date)>) {
    byType.Keys == UNIT_TYPES && forall k :: k in UNIT_TYPES ==> IsFirst(byType[k], visits, k)
  }

  function OwnVisits(s: Student): seq<(UnitRef, Date)> {
    seq(|s.units|, k requires 0 <= k < |s.units| => (s.units[k], s.onboardedOn))
  }

  method NoteStudent(byType: map<string, map<string, Date>>, s: Student, ghost before: seq<(UnitRef, Date)>)
    returns (r: map<string, map<string, Date>>)
    requires AllFirst(byType, before)
    ensures AllFirst(r, before + OwnVisits(s))
  {
    hide AllFirst, IsFirst;
    r := byType;
    ghost var own := OwnVisits(s);
    assert before + own[..0] == before;
    for m := 0 to |s.units|
      invariant AllFirst(r, before + own[..m])
    {
      r := NoteVisit(r, s.units[m], s.onboardedOn, before + own[..m]);
      assert before + own[..m] + [own[m]] == before + own[..m + 1];
    }
    assert own[..|own|] == own;
  }

  method FirstByType(students: seq<Student>) returns (byType: map<string, map<string, Date>>)
    ensures AllFirst(byType, Visits(students))
  {
    byType := map t | t in UNIT_TYPES :: map[];
    for n := 0 to |students|
      invariant AllFirst(byType, Visits(students[..n]))
    {
      hide AllFirst;
      byType := NoteStudent(byType, students[n], Visits(students[..n]));
      assert students[..n + 1][..n] == students[..n];
    }
    assert students[..|students|] == students;
  }

  /** The values of a map, one per key, in some order. */
  method ValuesOf(first: map<string, Date>) returns (values: seq<Date>)
    ensures forall day :: CountUpTo(values, day) == |UpTo(first, day)|
  {
    values := [];
    var left := first.Keys;
    ghost var done: map<string, Date> := map[];
    while left != {}
      invariant left <= first.Keys && done == map id | id in first && id !in left :: first[id]
      invariant forall day :: CountUpTo(values, day) == |UpTo(done, day)|
      decreases left
    {
      var id :| id in left;
      ghost var done' := done[id := first[id]];
      forall day ensures CountUpTo(values + [first[id]], day) == |UpTo(done', day)| {
        assert (values + [first[id]])[..|values|] == values;
        assert UpTo(done', day) == UpTo(done, day) + (if Key(first[id]) <= Key(day) then {id} else {});
        assert id !in UpTo(done, day);
      }
      values := values + [first[id]];
      left := left - {id};
      done := done';
    }
    assert done == first;
  }

  /** The stock of one kind of unit. */
  method UnitStock(students: seq<Student>, byType: map<string, map<string, Date>>, kind: string, days: seq<Date>)
    returns (out: seq<nat>)
    requires kind in UNIT_TYPES && AllFirst(byType, Visits(students)) && Chronological(days)
    ensures |out| == |days| && forall k :: 0 <= k < |days| ==> out[k] == |Reached(students, kind, days[k])|
  {
    var values := ValuesOf(byType[kind]);
    out := Stock(values, days);
    forall k | 0 <= k < |days| ensures out[k] == |Reached(students, kind, days[k])| {
      FirstDecidesReached(byType[kind], students, kind, days[k]);
    }
  }
}
