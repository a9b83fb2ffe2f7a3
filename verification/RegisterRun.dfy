/** The second pass of the register seed and the whole run (src/scripts/seed-geo-entities.ts). */
module RegisterRun {
  import opened Options
  import opened RegisterSeed
  import MergeCycles

  datatype Tier = CountryTier | StateTier | DistrictTier | BlockTier | SchoolTier

  const COUNTRY_CODE: string := "IN"
  const SUSPECT_GROUP_SIZE: nat := 4

  /** A row to store: its code, the code of its parent one tier up, and for schools the status and whether the
      coordinate is withheld because too many operational schools share it. */
  datatype UpsertRow = UpsertRow(code: string, parent: Option<string>, status: Status, withheld: bool)

  type Entities = map<(Tier, string), UpsertRow>

  function Upsert(e: Entities, tier: Tier, rows: seq<UpsertRow>): Entities {
    if rows == [] then e
    else var r := rows[|rows| - 1]; Upsert(e, tier, rows[..|rows| - 1])[(tier, r.code) := r]
  }

  function CodesOf(e: Entities, tier: Tier): set<string> { set k | k in e && k.0 == tier :: k.1 }

  lemma CodesOfATier(e: Entities, tier: Tier, code: string)
    ensures code in CodesOf(e, tier) <==> (tier, code) in e
  {
    if code in CodesOf(e, tier) { var k :| k in e && k.0 == tier && k.1 == code; }
    if (tier, code) in e { assert (tier, code).1 == code; }
  }

  lemma {:induction false} UpsertAppends(e: Entities, tier: Tier, a: seq<UpsertRow>, b: seq<UpsertRow>)
    ensures Upsert(Upsert(e, tier, a), tier, b) == Upsert(e, tier, a + b)
    decreases |b|
  {
    if b == [] {
      assert a + b == a;
    } else {
      UpsertAppends(e, tier, a, b[..|b| - 1]);
      assert (a + b)[..|a + b| - 1] == a + b[..|b| - 1];
    }
  }

  ghost predicate Writes(tier: Tier, rows: seq<UpsertRow>, t: Tier, c: string) {
    t == tier && exists k :: 0 <= k < |rows| && rows[k].code == c
  }

  /** Upserting touches exactly the codes it is given, on its own tier. */
  lemma {:induction false} UpsertKeeps(e: Entities, tier: Tier, rows: seq<UpsertRow>, t: Tier, c: string)
    requires !Writes(tier, rows, t, c)
    ensures var r := Upsert(e, tier, rows); ((t, c) in r <==> (t, c) in e) && ((t, c) in e ==> r[(t, c)] == e[(t, c)])
    decreases |rows|
  {
    if rows != [] {
      assert !Writes(tier, rows[..|rows| - 1], t, c);
      UpsertKeeps(e, tier, rows[..|rows| - 1], t, c);
    }
  }

  lemma {:induction false} UpsertStores(e: Entities, tier: Tier, rows: seq<UpsertRow>, k: nat)
    requires k < |rows| && forall i, j :: 0 <= i < j < |rows| ==> rows[i].code != rows[j].code
    ensures (tier, rows[k].code) in Upsert(e, tier, rows) && Upsert(e, tier, rows)[(tier, rows[k].code)] == rows[k]
    decreases |rows|
  {
    if k < |rows| - 1 { UpsertStores(e, tier, rows[..|rows| - 1], k); }
  }

  /** The database table. */
  class GeoTable {
    var entities: Entities

    constructor ()
      ensures entities == map[]
    {
      entities := map[];
    }

    method UpsertBatch(tier: Tier, rows: seq<UpsertRow>)
      modifies this
      ensures entities == Upsert(old(entities), tier, rows)
    {
      for k := 0 to |rows|
        invariant entities == Upsert(old(entities), tier, rows[..k])
      {
        assert rows[..k + 1][..k] == rows[..k];
        entities := entities[(tier, rows[k].code) := rows[k]];
      }
      assert rows[..|rows|] == rows;
    }

    method UpsertInBatches(tier: Tier, rows: seq<UpsertRow>, batchSize: nat)
      requires batchSize > 0
      modifies this
      ensures entities == Upsert(old(entities), tier, rows)
    {
      var i := 0;
      while i < |rows|
        invariant 0 <= i && entities == Upsert(old(entities), tier, rows[..if i < |rows| then i else |rows|])
      {
        var end := if i + batchSize < |rows| then i + batchSize else |rows|;
        UpsertAppends(old(entities), tier, rows[..i], rows[i..end]);
        assert rows[..i] + rows[i..end] == rows[..end];
        UpsertBatch(tier, rows[i..end]);
        i := i + batchSize;
      }
      assert rows[..|rows|] == rows;
    }
  }

  // ---------------------------------------------------------------------------
  // The levels
  // ---------------------------------------------------------------------------

  type Resolved = map<string, Option<string>>

  /** Majority parent of every code of a level. */
  function Resolve(level: Level): Resolved {
    map c | c in level :: if |level[c].order| > 0 then Top(level[c]) else None
  }

  function LevelRow(code: string, parent: Option<string>): UpsertRow { UpsertRow(code, parent, Operational, false) }

  /** The codes of a level whose parent is among the stored ones. */
  function Found(resolved: Resolved, parents: set<string>): Resolved {
    map c | c in resolved && resolved[c].Some? && resolved[c].value in parents :: resolved[c]
  }

  /** One tier written over what was there: exactly the given codes, everything else as before. */
  ghost predicate LevelStored(before: Entities, after: Entities, tier: Tier, resolved: Resolved) {
    forall t: Tier, c: string ::
      if t == tier && c in resolved then (t, c) in after && after[(t, c)] == LevelRow(c, resolved[c])
      else ((t, c) in after <==> (t, c) in before) && ((t, c) in before ==> after[(t, c)] == before[(t, c)])
  }

  method BuildLevelRows(resolved: Resolved, parents: set<string>) returns (rows: seq<UpsertRow>, missing: seq<string>)
    ensures forall i, j :: 0 <= i < j < |rows| ==> rows[i].code != rows[j].code
    ensures forall r :: r in rows ==>
            r.code in resolved && r == LevelRow(r.code, resolved[r.code]) && r.parent.Some? && r.parent.value in parents
    ensures forall c :: c in resolved ==>
            if resolved[c].Some? && resolved[c].value in parents then LevelRow(c, resolved[c]) in rows else c in missing
    ensures forall c :: c in missing ==> c in resolved && !(resolved[c].Some? && resolved[c].value in parents)
  {
    rows, missing := [], [];
    var left := resolved.Keys;
    while left != {}
      invariant left <= resolved.Keys
      invariant forall i, j :: 0 <= i < j < |rows| ==> rows[i].code != rows[j].code
      invariant forall r :: r in rows ==>
                  && r.code in resolved && r.code !in left && r == LevelRow(r.code, resolved[r.code])
                  && r.parent.Some? && r.parent.value in parents
      invariant forall c :: c in resolved && c !in left ==>
                  if resolved[c].Some? && resolved[c].value in parents then LevelRow(c, resolved[c]) in rows
                  else c in missing
      invariant forall c :: c in missing ==> c in resolved && !(resolved[c].Some? && resolved[c].value in parents)
      decreases left
    {
      var code :| code in left;
      var parent := resolved[code];
      if parent.Some? && parent.value in parents {
        forall i | 0 <= i < |rows| ensures rows[i].code != code { assert rows[i] in rows; }
        rows := rows + [LevelRow(code, parent)];
      } else {
        missing := missing + [code];
      }
      left := left - {code};
    }
  }

  lemma LevelIsStored(before: Entities, tier: Tier, rows: seq<UpsertRow>, found: Resolved)
    requires forall i, j :: 0 <= i < j < |rows| ==> rows[i].code != rows[j].code
    requires forall r :: r in rows ==> r.code in found && r == LevelRow(r.code, found[r.code])
    requires forall c :: c in found ==> LevelRow(c, found[c]) in rows
    ensures LevelStored(before, Upsert(before, tier, rows), tier, found)
  {
    hide Upsert;
    var after := Upsert(before, tier, rows);
    forall t: Tier, c: string
      ensures if t == tier && c in found then (t, c) in after && after[(t, c)] == LevelRow(c, found[c])
              else ((t, c) in after <==> (t, c) in before) && ((t, c) in before ==> after[(t, c)] == before[(t, c)])
    {
      if t == tier && c in found {
        var k :| 0 <= k < |rows| && rows[k] == LevelRow(c, found[c]);
        UpsertStores(before, tier, rows, k);
      } else {
        assert forall k :: 0 <= k < |rows| ==> rows[k] in rows;
        UpsertKeeps(before, tier, rows, t, c);
      }
    }
  }

  const BATCH_SIZE: nat := 5000

  method SeedLevel(table: GeoTable, tier: Tier, resolved: Resolved, parents: set<string>) returns (missing: seq<string>)
    modifies table
    ensures LevelStored(old(table.entities), table.entities, tier, Found(resolved, parents))
    ensures forall c :: c in missing <==> c in resolved && c !in Found(resolved, parents)
    ensures missing == [] <==> Found(resolved, parents) == resolved
  {
    hide LevelStored;
    var rows;
    rows, missing := BuildLevelRows(resolved, parents);
    LevelIsStored(table.entities, tier, rows, Found(resolved, parents));
    table.UpsertInBatches(tier, rows, BATCH_SIZE);
    if missing != [] { assert missing[0] in missing; }
  }

  // ---------------------------------------------------------------------------
  // The schools
  // ---------------------------------------------------------------------------

  datatype Built = NoBlock | UnmappedStatus | Row(row: UpsertRow)

  function BuildSchoolRow(r: SourceRow, blocks: set<string>, coordCounts: map<string, nat>, m: StatusMap): Built {
    if r.blockCode !in blocks then NoBlock
    else
      var status := MapSchoolStatus(r, m);
      if status.None? then UnmappedStatus
      else
        Row(UpsertRow(Code(r), Some(r.blockCode), status.value,
              r.coordinateKey.Some? && r.coordinateKey.value in coordCounts
                && coordCounts[r.coordinateKey.value] >= SUSPECT_GROUP_SIZE))
  }

  function SchoolRows(rs: seq<SourceRow>, blocks: set<string>, coordCounts: map<string, nat>,
                      m: StatusMap): seq<UpsertRow> {
    if rs == [] then []
    else
      var built := BuildSchoolRow(rs[|rs| - 1], blocks, coordCounts, m);
      SchoolRows(rs[..|rs| - 1], blocks, coordCounts, m) + (if built.Row? then [built.row] else [])
  }

  ghost predicate Crashes(rs: seq<SourceRow>, blocks: set<string>, m: StatusMap) {
    exists r :: r in rs && r.blockCode in blocks && Unmapped(r, m)
  }

  lemma NextRow(stream: seq<SourceRow>, n: nat, stateCodes: set<string>)
    requires n < |stream|
    ensures var rs, row := Registered(stream[..n], stateCodes), stream[n];
            Registered(stream[..n + 1], stateCodes)
            == if FormatOk(row) && row.stateCode in stateCodes && Code(row) !in Codes(rs) then rs + [row] else rs
  {
    hide FormatOk, Code, Codes;
    assert stream[..n + 1][..n] == stream[..n];
  }

  /** A registered row stays registered when the stream goes on. */
  lemma {:induction false} RegisteredGrows(stream: seq<SourceRow>, n: nat, stateCodes: set<string>)
    requires n <= |stream|
    ensures Registered(stream[..n], stateCodes) <= Registered(stream, stateCodes)
    decreases |stream| - n
  {
    hide FormatOk, Code, Codes, Registered;
    if n < |stream| {
      NextRow(stream, n, stateCodes);
      RegisteredGrows(stream, n + 1, stateCodes);
    } else {
      assert stream[..n] == stream;
    }
  }

  lemma OneMoreSchool(rs: seq<SourceRow>, r: SourceRow, blocks: set<string>, coordCounts: map<string, nat>,
                      m: StatusMap)
    ensures var built := BuildSchoolRow(r, blocks, coordCounts, m);
            && SchoolRows(rs + [r], blocks, coordCounts, m)
               == SchoolRows(rs, blocks, coordCounts, m) + (if built.Row? then [built.row] else [])
            && (Crashes(rs + [r], blocks, m) <==> Crashes(rs, blocks, m) || built == UnmappedStatus)
  {
    hide MapSchoolStatus, Code;
    assert (rs + [r])[..|rs|] == rs && r in rs + [r];
    forall x | x in rs ensures x in rs + [r] { }
  }

  lemma CrashIsFinal(a: seq<SourceRow>, b: seq<SourceRow>, blocks: set<string>, m: StatusMap)
    requires a <= b && Crashes(a, blocks, m)
    ensures Crashes(b, blocks, m)
  {
    hide Unmapped;
    var r :| r in a && r.blockCode in blocks && Unmapped(r, m);
    assert r in b;
  }

  datatype SchoolCounts = SchoolCounts(upserted: int, skippedNoBlock: int, skipped: int)

  /** The second stream, batched, in one transaction: an unmapped status aborts it and nothing is stored. */
  method SeedSchools(table: GeoTable, stream: seq<SourceRow>, stateCodes: set<string>, blocks: set<string>,
                     coordCounts: map<string, nat>, m: StatusMap, batchSize: nat)
    returns (crashed: bool, counts: SchoolCounts)
    requires batchSize > 0
    modifies table
    ensures crashed <==> Crashes(Registered(stream, stateCodes), blocks, m)
    ensures crashed ==> table.entities == old(table.entities)
    ensures !crashed ==>
              var rs := Registered(stream, stateCodes);
              && table.entities == Upsert(old(table.entities), SchoolTier, SchoolRows(rs, blocks, coordCounts, m))
              && counts.upserted == |SchoolRows(rs, blocks, coordCounts, m)|
              && counts.skippedNoBlock == |rs| - counts.upserted && counts.skipped == |stream| - |rs|
  {
    hide FormatOk, Code, Codes, Crashes, Registered, SchoolRows, BuildSchoolRow, Upsert;
    var before := table.entities;
    crashed, counts := false, SchoolCounts(0, 0, 0);
    var batch: seq<UpsertRow> := [];
    var seenCodes: set<string> := {};
    ghost var rs: seq<SourceRow> := [];
    ghost var stored: seq<UpsertRow> := [];
    NothingYet(stream, stateCodes, blocks, coordCounts, m, before);
    for n := 0 to |stream|
      invariant rs == Registered(stream[..n], stateCodes) && seenCodes == Codes(rs) && !Crashes(rs, blocks, m)
      invariant |batch| < batchSize && stored + batch == SchoolRows(rs, blocks, coordCounts, m)
      invariant table.entities == Upsert(before, SchoolTier, stored) && counts.upserted == |stored|
      invariant counts.skippedNoBlock == |rs| - |stored + batch| && counts.skipped == n - |rs|
    {
      var row := stream[n];
      NextRow(stream, n, stateCodes);
      if !FormatOk(row) || row.stateCode !in stateCodes || Code(row) in seenCodes {
        counts := counts.(skipped := counts.skipped + 1);
      } else {
        seenCodes := seenCodes + {Code(row)};
        OneMoreSchool(rs, row, blocks, coordCounts, m);
        OneMoreCode(rs, row);
        rs := rs + [row];
        var built := BuildSchoolRow(row, blocks, coordCounts, m);
        match built
        case NoBlock => counts := counts.(skippedNoBlock := counts.skippedNoBlock + 1);
        case UnmappedStatus =>
          RegisteredGrows(stream, n + 1, stateCodes);
          CrashIsFinal(rs, Registered(stream, stateCodes), blocks, m);
          table.entities := before;
          return true, counts;
        case Row(r) =>
          batch := batch + [r];
          if |batch| >= batchSize {
            UpsertAppends(before, SchoolTier, stored, batch);
            table.UpsertBatch(SchoolTier, batch);
            counts := counts.(upserted := counts.upserted + |batch|);
            stored := stored + batch;
            batch := [];
          }
      }
    }
    assert stream[..|stream|] == stream;
    if |batch| > 0 {
      UpsertAppends(before, SchoolTier, stored, batch);
      table.UpsertBatch(SchoolTier, batch);
      counts := counts.(upserted := counts.upserted + |batch|);
    } else {
      assert stored + batch == stored;
    }
  }

  lemma NothingYet(stream: seq<SourceRow>, stateCodes: set<string>, blocks: set<string>, coordCounts: map<string, nat>,
                   m: StatusMap, e: Entities)
    ensures Registered(stream[..0], stateCodes) == [] && Codes([]) == {} && !Crashes([], blocks, m)
    ensures SchoolRows([], blocks, coordCounts, m) == [] && Upsert(e, SchoolTier, []) == e
  {
  }

  // ---------------------------------------------------------------------------
  // The whole run
  // ---------------------------------------------------------------------------

  ghost predicate Stored(e: Entities, t: Tier, row: UpsertRow) { (t, row.code) in e && e[(t, row.code)] == row }

  /** Block, district and state of a row are stored, each under the next, up to the country. */
  ghost predicate NestStored(e: Entities, r: SourceRow) {
    && Stored(e, BlockTier, UpsertRow(r.blockCode, Some(r.districtCode), Operational, false))
    && Stored(e, DistrictTier, UpsertRow(r.districtCode, Some(r.stateCode), Operational, false))
    && Stored(e, StateTier, UpsertRow(r.stateCode, Some("IN"), Operational, false))
    && Stored(e, CountryTier, UpsertRow("IN", None, Operational, false))
  }

  /** The stored form of a school: its coordinate is withheld when enough operational schools claim the same one. */
  function SchoolRow(r: SourceRow, rs: seq<SourceRow>, m: StatusMap): UpsertRow
    requires !Unmapped(r, m)
  {
    UpsertRow(Code(r), Some(r.blockCode), MapSchoolStatus(r, m).value,
              r.coordinateKey.Some? && Sharing(rs, m, r.coordinateKey.value) >= SUSPECT_GROUP_SIZE)
  }

  /** The entities the registered rows speak of. */
  ghost predicate Mentioned(rs: seq<SourceRow>, t: Tier, c: string) {
    match t
    case CountryTier => c == COUNTRY_CODE
    case StateTier => c in StatesOf(rs)
    case DistrictTier => exists r :: r in rs && r.districtCode == c
    case BlockTier => exists r :: r in rs && r.blockCode == c
    case SchoolTier => c in Codes(rs)
  }

  ghost predicate SameOutside(before: Entities, after: Entities, rs: seq<SourceRow>) {
    forall t: Tier, c: string :: !Mentioned(rs, t, c) ==>
      ((t, c) in after <==> (t, c) in before) && ((t, c) in before ==> after[(t, c)] == before[(t, c)])
  }

  lemma AllFound(resolved: Resolved, parents: set<string>)
    requires forall c :: c in resolved ==> resolved[c].Some? && resolved[c].value in parents
    ensures Found(resolved, parents) == resolved
  {
  }

  /** A stored level's codes are among the codes of its tier. */
  lemma StoredAreListed(before: Entities, after: Entities, tier: Tier, resolved: Resolved)
    requires LevelStored(before, after, tier, resolved)
    ensures resolved.Keys <= CodesOf(after, tier)
  {
    forall c | c in resolved ensures c in CodesOf(after, tier) { assert (tier, c) in after; }
  }

  function CountryLevel(): Resolved { map[COUNTRY_CODE := None] }

  function StateLevel(states: set<string>): Resolved { map c | c in states :: Some(COUNTRY_CODE) }

  method SeedCountry(table: GeoTable)
    modifies table
    ensures LevelStored(old(table.entities), table.entities, CountryTier, CountryLevel())
    ensures COUNTRY_CODE in CodesOf(table.entities, CountryTier)
  {
    var rows := [LevelRow(COUNTRY_CODE, None)];
    LevelIsStored(table.entities, CountryTier, rows, CountryLevel());
    table.UpsertBatch(CountryTier, rows);
    StoredAreListed(old(table.entities), table.entities, CountryTier, CountryLevel());
  }

  /** Country, states, districts and blocks, in that order; every parent is already stored, so none is skipped. */
  method SeedLevels(table: GeoTable, states: set<string>, districts: Level, blocks: Level, ghost rs: seq<SourceRow>)
    returns (missing: seq<string>, ghost e1: Entities, ghost e2: Entities, ghost e3: Entities)
    requires states == StatesOf(rs) && Covers(districts, DistrictLinks(rs)) && Covers(blocks, BlockLinks(rs))
    modifies table
    ensures missing == []
    ensures LevelsStored(old(table.entities), e1, e2, e3, table.entities, states, districts, blocks)
  {
    hide LevelStored, Covers, StatesOf, DistrictLinks, BlockLinks, CodesOf, Found, Top, CountryLevel;
    ParentsAreTouched(rs, states, districts, blocks);
    OrdersAreFilled(districts, DistrictLinks(rs));
    OrdersAreFilled(blocks, BlockLinks(rs));
    SeedCountry(table);
    e1 := table.entities;
    AllFound(StateLevel(states), CodesOf(e1, CountryTier));
    missing := SeedLevel(table, StateTier, StateLevel(states), CodesOf(table.entities, CountryTier));
    e2 := table.entities;
    StoredAreListed(e1, e2, StateTier, StateLevel(states));
    AllFound(Resolve(districts), CodesOf(e2, StateTier));
    var more := SeedLevel(table, DistrictTier, Resolve(districts), CodesOf(table.entities, StateTier));
    missing := missing + more;
    e3 := table.entities;
    StoredAreListed(e2, e3, DistrictTier, Resolve(districts));
    AllFound(Resolve(blocks), CodesOf(e3, DistrictTier));
    more := SeedLevel(table, BlockTier, Resolve(blocks), CodesOf(table.entities, DistrictTier));
    missing := missing + more;
  }

  lemma OrdersAreFilled(level: Level, links: seq<Link>)
    requires Covers(level, links)
    ensures forall c :: c in level ==> |level[c].order| > 0
  {
  }

  lemma TopIsTheParent(level: Level, links: seq<Link>, code: string, parent: string)
    requires Covers(level, links) && OneParent(links) && (code, parent) in links
    ensures code in Resolve(level) && Resolve(level)[code] == Some(parent)
  {
    hide Top;
    TopIsLinked(level, links, code);
  }

  /** What the four levels hold for one registered row. */
  lemma RowIsNested(e0: Entities, e1: Entities, e2: Entities, e3: Entities, e4: Entities, states: set<string>,
                    districts: Level,
                    blocks: Level, rs: seq<SourceRow>, r: SourceRow)
    requires LevelsStored(e0, e1, e2, e3, e4, states, districts, blocks)
    requires states == StatesOf(rs) && Covers(districts, DistrictLinks(rs)) && Covers(blocks, BlockLinks(rs))
    requires OneParent(DistrictLinks(rs)) && OneParent(BlockLinks(rs)) && r in rs
    ensures NestStored(e4, r)
  {
    hide Resolve, Covers, OneParent;
    var k :| 0 <= k < |rs| && rs[k] == r;
    assert DistrictLinks(rs)[k] in DistrictLinks(rs) && BlockLinks(rs)[k] in BlockLinks(rs);
    TopIsTheParent(districts, DistrictLinks(rs), r.districtCode, r.stateCode);
    TopIsTheParent(blocks, BlockLinks(rs), r.blockCode, r.districtCode);
  }

  /** The four levels, written one after the other. */
  ghost predicate LevelsStored(e0: Entities, e1: Entities, e2: Entities, e3: Entities, e4: Entities,
                               states: set<string>,
                               districts: Level, blocks: Level) {
    && LevelStored(e0, e1, CountryTier, CountryLevel()) && LevelStored(e1, e2, StateTier, StateLevel(states))
    && LevelStored(e2, e3, DistrictTier, Resolve(districts)) && LevelStored(e3, e4, BlockTier, Resolve(blocks))
  }

  lemma DistrictsAreMentioned(districts: Level, rs: seq<SourceRow>, c: string)
    requires Covers(districts, DistrictLinks(rs)) && c in districts
    ensures Mentioned(rs, DistrictTier, c)
  {
    hide Top;
    TopIsLinked(districts, DistrictLinks(rs), c);
    var k :| 0 <= k < |rs| && DistrictLinks(rs)[k].0 == c;
    assert rs[k] in rs;
  }

  lemma BlocksAreMentioned(blocks: Level, rs: seq<SourceRow>, c: string)
    requires Covers(blocks, BlockLinks(rs)) && c in blocks
    ensures Mentioned(rs, BlockTier, c)
  {
    hide Top;
    TopIsLinked(blocks, BlockLinks(rs), c);
    var k :| 0 <= k < |rs| && BlockLinks(rs)[k].0 == c;
    assert rs[k] in rs;
  }

  lemma LevelsKeepTheRest(e0: Entities, e1: Entities, e2: Entities, e3: Entities, e4: Entities, states: set<string>,
                          districts: Level, blocks: Level, rs: seq<SourceRow>)
    requires LevelsStored(e0, e1, e2, e3, e4, states, districts, blocks)
    requires states == StatesOf(rs) && Covers(districts, DistrictLinks(rs)) && Covers(blocks, BlockLinks(rs))
    ensures SameOutside(e0, e4, rs)
  {
    hide Covers;
    forall t: Tier, c: string | !Mentioned(rs, t, c)
      ensures ((t, c) in e4 <==> (t, c) in e0) && ((t, c) in e0 ==> e4[(t, c)] == e0[(t, c)])
    {
      if t == DistrictTier && c in districts { DistrictsAreMentioned(districts, rs, c); }
      if t == BlockTier && c in blocks { BlocksAreMentioned(blocks, rs, c); }
    }
  }

  /** With every block stored and every status mapped, no school is skipped. */
  lemma {:induction false} AllBuilt(part: seq<SourceRow>, rs: seq<SourceRow>, blocks: set<string>,
                                    counts: map<string, nat>, m: StatusMap)
    requires forall r :: r in part ==> r.blockCode in blocks && !Unmapped(r, m)
    requires CountsCoordinates(counts, rs, m)
    ensures var rows := SchoolRows(part, blocks, counts, m);
            |rows| == |part| && forall k :: 0 <= k < |part| ==> rows[k] == SchoolRow(part[k], rs, m)
    decreases |part|
  {
    hide Unmapped, BuildSchoolRow, SchoolRow, CountsCoordinates, SchoolRows;
    if part != [] {
      AllBuilt(part[..|part| - 1], rs, blocks, counts, m);
      BuiltAsDescribed(part[|part| - 1], rs, blocks, counts, m);
      OneMoreRow(part, blocks, counts, m);
    } else {
      NothingYet([], {}, blocks, counts, m, map[]);
    }
  }

  lemma OneMoreRow(part: seq<SourceRow>, blocks: set<string>, counts: map<string, nat>, m: StatusMap)
    requires part != [] && BuildSchoolRow(part[|part| - 1], blocks, counts, m).Row?
    ensures SchoolRows(part, blocks, counts, m)
         == SchoolRows(part[..|part| - 1], blocks, counts, m)
           + [BuildSchoolRow(part[|part| - 1], blocks, counts, m).row]
  {
    hide BuildSchoolRow;
  }

  lemma BuiltAsDescribed(r: SourceRow, rs: seq<SourceRow>, blocks: set<string>, counts: map<string, nat>, m: StatusMap)
    requires r.blockCode in blocks && !Unmapped(r, m) && CountsCoordinates(counts, rs, m)
    ensures BuildSchoolRow(r, blocks, counts, m) == Row(SchoolRow(r, rs, m))
  {
    hide MapSchoolStatus, Code, Sharing;
    if r.coordinateKey.Some? {
      var key := r.coordinateKey.value;
      assert (if key in counts then counts[key] else 0) == Sharing(rs, m, key);
    }
  }

  /** A school is stored under its code and block, with the status its label stands for, and its coordinate is withheld
      exactly when four operational schools or more claim it. */
  lemma SchoolRowsSayTheirRow(r: SourceRow, rs: seq<SourceRow>, m: StatusMap)
    requires !Unmapped(r, m)
    ensures var row := SchoolRow(r, rs, m);
            && row.code == Trim(r.udiseCode) && row.parent == Some(r.blockCode)
            && Trim(r.schoolStatusName) in m && row.status == m[Trim(r.schoolStatusName)]
            && (row.withheld <==> r.coordinateKey.Some? && |Claimants(rs, m, r.coordinateKey.value)| >= 4)
  {
    hide Trim, Sharing, Claimants;
    if r.coordinateKey.Some? { SharingCountsClaimants(rs, m, r.coordinateKey.value); }
  }

  ghost predicate SchoolStored(e: Entities, r: SourceRow, rs: seq<SourceRow>, m: StatusMap) {
    !Unmapped(r, m) && Stored(e, SchoolTier, SchoolRow(r, rs, m))
  }

  lemma SchoolsAreStored(e: Entities, rows: seq<UpsertRow>, rs: seq<SourceRow>, m: StatusMap, r: SourceRow)
    requires |rows| == |rs| && forall x :: x in rs ==> !Unmapped(x, m)
    requires forall k :: 0 <= k < |rs| ==> rows[k] == SchoolRow(rs[k], rs, m)
    requires forall i, j :: 0 <= i < j < |rs| ==> Code(rs[i]) != Code(rs[j])
    requires r in rs && NestStored(e, r)
    ensures SchoolStored(Upsert(e, SchoolTier, rows), r, rs, m) && NestStored(Upsert(e, SchoolTier, rows), r)
  {
    hide Upsert, Sharing, MapSchoolStatus, Code;
    var k :| 0 <= k < |rs| && rs[k] == r;
    UpsertStores(e, SchoolTier, rows, k);
    UpsertKeeps(e, SchoolTier, rows, BlockTier, r.blockCode);
    UpsertKeeps(e, SchoolTier, rows, DistrictTier, r.districtCode);
    UpsertKeeps(e, SchoolTier, rows, StateTier, r.stateCode);
    UpsertKeeps(e, SchoolTier, rows, CountryTier, COUNTRY_CODE);
  }

  lemma SchoolsKeepTheRest(e0: Entities, e: Entities, rows: seq<UpsertRow>, rs: seq<SourceRow>)
    requires |rows| == |rs| && forall k :: 0 <= k < |rs| ==> rows[k].code == Code(rs[k])
    requires SameOutside(e0, e, rs)
    ensures SameOutside(e0, Upsert(e, SchoolTier, rows), rs)
  {
    hide Upsert, Code;
    var after := Upsert(e, SchoolTier, rows);
    forall t: Tier, c: string | !Mentioned(rs, t, c)
      ensures ((t, c) in after <==> (t, c) in e0) && ((t, c) in e0 ==> after[(t, c)] == e0[(t, c)])
    {
      if t == SchoolTier {
        forall k | 0 <= k < |rows| ensures rows[k].code != c { assert rs[k] in rs; }
      }
      UpsertKeeps(e, SchoolTier, rows, t, c);
    }
  }

  // ---------------------------------------------------------------------------
  // The closing check
  // ---------------------------------------------------------------------------

  function Up(t: Tier): Tier {
    match t
    case SchoolTier => BlockTier
    case BlockTier => DistrictTier
    case DistrictTier => StateTier
    case _ => CountryTier
  }

  /** A chain fails the check when a parent is missing on the way or five steps do not reach the country. */
  predicate ChainFails(e: Entities, t: Tier, c: string, depth: nat)
    requires depth <= 5
    decreases 5 - depth
  {
    (t, c) in e &&
    (depth == 5 || e[(t, c)].parent.None?
      || (Up(t) != CountryTier && ChainFails(e, Up(t), e[(t, c)].parent.value, depth + 1)))
  }

  predicate HierarchyOk(e: Entities) { forall k :: k in e && k.0 == SchoolTier ==> !ChainFails(e, k.0, k.1, 1) }

  /** Every stored entity has its parent stored, one tier up. */
  ghost predicate Rooted(e: Entities) {
    forall t: Tier, c: string :: (t, c) in e && t != CountryTier ==>
      e[(t, c)].parent.Some? && (Up(t), e[(t, c)].parent.value) in e
  }

  lemma RootedReachesTheCountry(e: Entities)
    requires Rooted(e)
    ensures HierarchyOk(e)
  {
    forall c | (SchoolTier, c) in e ensures !ChainFails(e, SchoolTier, c, 1) {
      var b := e[(SchoolTier, c)].parent.value;
      var d := e[(BlockTier, b)].parent.value;
      var s := e[(DistrictTier, d)].parent.value;
      assert !ChainFails(e, StateTier, s, 4);
      assert !ChainFails(e, DistrictTier, d, 3);
      assert !ChainFails(e, BlockTier, b, 2);
    }
  }

  /** The school has a parent, and so has every next stored entity up its chain below the country. */
  ghost predicate ChainHolds(e: Entities, school: string)
    requires (SchoolTier, school) in e
  {
    match e[(SchoolTier, school)].parent
    case None => false
    case Some(block) =>
      (BlockTier, block) in e ==>
        match e[(BlockTier, block)].parent
        case None => false
        case Some(district) =>
          (DistrictTier, district) in e ==>
            match e[(DistrictTier, district)].parent
            case None => false
            case Some(state) => (StateTier, state) in e ==> e[(StateTier, state)].parent.Some?
  }

  /** The closing check passes exactly when the chain of every stored school holds: four steps always suffice. */
  lemma ClosingCheckIsExact(e: Entities)
    ensures HierarchyOk(e) <==> forall school :: (SchoolTier, school) in e ==> ChainHolds(e, school)
  {
    forall school | (SchoolTier, school) in e ensures ChainHolds(e, school) <==> !ChainFails(e, SchoolTier, school, 1) {
      ChainOfSchool(e, school);
    }
    hide ChainHolds, ChainFails;
    if HierarchyOk(e) {
      forall school | (SchoolTier, school) in e ensures ChainHolds(e, school) {
        assert (SchoolTier, school) in e;
      }
    } else {
      var k :| k in e && k.0 == SchoolTier && ChainFails(e, k.0, k.1, 1);
      assert k == (SchoolTier, k.1);
    }
  }

  lemma ChainOfSchool(e: Entities, school: string)
    requires (SchoolTier, school) in e
    ensures ChainHolds(e, school) <==> !ChainFails(e, SchoolTier, school, 1)
  {
    if e[(SchoolTier, school)].parent.Some? {
      var b := e[(SchoolTier, school)].parent.value;
      if (BlockTier, b) in e && e[(BlockTier, b)].parent.Some? {
        var d := e[(BlockTier, b)].parent.value;
        if (DistrictTier, d) in e && e[(DistrictTier, d)].parent.Some? {
          var s := e[(DistrictTier, d)].parent.value;
          assert ChainFails(e, StateTier, s, 4) <==> (StateTier, s) in e && e[(StateTier, s)].parent.None?;
        }
        assert ChainFails(e, DistrictTier, d, 3) <==>
               (DistrictTier, d) in e && (e[(DistrictTier, d)].parent.None?
                                          || ChainFails(e, StateTier, e[(DistrictTier, d)].parent.value, 4));
      }
      assert ChainFails(e, BlockTier, b, 2) <==>
             (BlockTier, b) in e && (e[(BlockTier, b)].parent.None?
                                     || ChainFails(e, DistrictTier, e[(BlockTier, b)].parent.value, 3));
    }
  }

  lemma MentionedIsStored(after: Entities, rs: seq<SourceRow>, m: StatusMap, t: Tier, c: string)
    requires rs != [] && forall r :: r in rs ==> NestStored(after, r) && SchoolStored(after, r, rs, m)
    requires Mentioned(rs, t, c)
    ensures (t, c) in after
    ensures t != CountryTier ==> after[(t, c)].parent.Some? && (Up(t), after[(t, c)].parent.value) in after
  {
    hide Code, MapSchoolStatus, Sharing;
    match t
    case CountryTier => assert NestStored(after, rs[0]);
    case StateTier => var r :| r in rs && r.stateCode == c; assert NestStored(after, r);
    case DistrictTier => var r :| r in rs && r.districtCode == c; assert NestStored(after, r);
    case BlockTier => var r :| r in rs && r.blockCode == c; assert NestStored(after, r);
    case SchoolTier => var r :| r in rs && Code(r) == c; assert NestStored(after, r) && SchoolStored(after, r, rs, m);
  }

  /** Seeding over a rooted table leaves a rooted table. */
  lemma SeedingKeepsRoots(before: Entities, after: Entities, rs: seq<SourceRow>, m: StatusMap)
    requires Rooted(before) && SameOutside(before, after, rs)
    requires rs != [] && forall r :: r in rs ==> NestStored(after, r) && SchoolStored(after, r, rs, m)
    ensures Rooted(after)
  {
    hide Mentioned, NestStored, SchoolStored;
    forall t: Tier, c: string | (t, c) in after && t != CountryTier
      ensures after[(t, c)].parent.Some? && (Up(t), after[(t, c)].parent.value) in after
    {
      if Mentioned(rs, t, c) {
        MentionedIsStored(after, rs, m, t, c);
      } else {
        var p := before[(t, c)].parent.value;
        if Mentioned(rs, Up(t), p) { MentionedIsStored(after, rs, m, Up(t), p); }
      }
    }
  }

  // ---------------------------------------------------------------------------
  // The run
  // ---------------------------------------------------------------------------

  method RunPass1(stream: seq<SourceRow>, m: StatusMap, stateCodes: set<string>)
    returns (acc: Pass1Accumulator, errors: seq<Problem>)
    ensures acc.Valid() && acc.stream == stream && acc.statusMap == m && acc.stateCodes == stateCodes && fresh(acc)
    ensures errors == [] <==> Acceptable(Registered(stream, stateCodes), m, stateCodes)
  {
    hide Acceptable, Registered;
    acc := new Pass1Accumulator(m, stateCodes);
    for n := 0 to |stream|
      invariant acc.Valid() && acc.stream == stream[..n] && fresh(acc)
    {
      hide *;
      acc.Add(stream[n]);
      assert stream[..n + 1] == stream[..n] + [stream[n]];
    }
    assert stream[..|stream|] == stream;
    errors := acc.Finish();
  }

  datatype Outcome = Rejected(errors: seq<Problem>) | DryRun | Aborted | 
    Seeded(missing: seq<string>, counts: SchoolCounts, cleared: seq<MergeCycles.Id>, hierarchyOk: bool)

  /** What a completed run has done: every registered school and its whole chain is stored, and nothing else has
      changed. */
  ghost predicate Completed(before: Entities, after: Entities, rs: seq<SourceRow>, m: StatusMap) {
    && (forall r :: r in rs ==> SchoolStored(after, r, rs, m) && NestStored(after, r))
    && SameOutside(before, after, rs)
  }

  /** After the levels, every registered row finds its block. */
  lemma LevelsAreReady(e0: Entities, e1: Entities, e2: Entities, e3: Entities, e4: Entities, states: set<string>,
                       districts: Level,
                       blocks: Level, unmapped: set<string>, counts: map<string, nat>, rs: seq<SourceRow>, m: StatusMap,
                         stateCodes: set<string>)
    requires LevelsStored(e0, e1, e2, e3, e4, states, districts, blocks)
    requires Collected(states, districts, blocks, unmapped, counts, rs, m) && Acceptable(rs, m, stateCodes)
    ensures forall r :: r in rs ==> NestStored(e4, r)
    ensures SameOutside(e0, e4, rs)
  {
    hide LevelsStored, Covers, OneParent, StatesOf, DistrictLinks, BlockLinks, NestStored, SameOutside, Unmapped;
    LevelsKeepTheRest(e0, e1, e2, e3, e4, states, districts, blocks, rs);
    forall r | r in rs ensures NestStored(e4, r) { RowIsNested(e0, e1, e2, e3, e4, states, districts, blocks, rs, r); }
  }

  lemma SchoolsComplete(e0: Entities, e: Entities, counts: map<string, nat>, rs: seq<SourceRow>, m: StatusMap)
    requires forall i, j :: 0 <= i < j < |rs| ==> Code(rs[i]) != Code(rs[j])
    requires forall r :: r in rs ==> NestStored(e, r) && !Unmapped(r, m)
    requires SameOutside(e0, e, rs) && CountsCoordinates(counts, rs, m)
    ensures var blocks := CodesOf(e, BlockTier);
            && !Crashes(rs, blocks, m) && |SchoolRows(rs, blocks, counts, m)| == |rs|
            && Completed(e0, Upsert(e, SchoolTier, SchoolRows(rs, blocks, counts, m)), rs, m)
  {
    hide Code, Unmapped, SameOutside, NestStored, SchoolStored, CountsCoordinates, SchoolRows, Upsert;
    var blocks := CodesOf(e, BlockTier);
    forall r | r in rs ensures r.blockCode in blocks { BlockIsListed(e, r); }
    AllBuilt(rs, rs, blocks, counts, m);
    var rows := SchoolRows(rs, blocks, counts, m);
    SchoolsKeepTheRest(e0, e, rows, rs);
    forall r | r in rs
      ensures SchoolStored(Upsert(e, SchoolTier, rows), r, rs, m) && NestStored(Upsert(e, SchoolTier, rows), r)
    {
      SchoolsAreStored(e, rows, rs, m, r);
    }
  }

  lemma BlockIsListed(e: Entities, r: SourceRow)
    requires NestStored(e, r)
    ensures r.blockCode in CodesOf(e, BlockTier)
  {
    assert (BlockTier, r.blockCode) in e;
  }

  /** The second pass on a register the first has accepted: no parent is missing, no status unmapped, no school lost. */
  method SeedAccepted(table: GeoTable, stream: seq<SourceRow>, acc: Pass1Accumulator)
    returns (missing: seq<string>, crashed: bool, counts: SchoolCounts)
    requires acc.Valid() && acc.stream == stream
    requires Acceptable(Registered(stream, acc.stateCodes), acc.statusMap, acc.stateCodes)
    modifies table
    ensures var rs := Registered(stream, acc.stateCodes);
            && !crashed && missing == [] && counts == SchoolCounts(|rs|, 0, |stream| - |rs|)
            && Completed(old(table.entities), table.entities, rs, acc.statusMap)
  {
    hide Registered, Tally, Codes, LevelsStored, Covers, StatesOf, DistrictLinks, BlockLinks, UnmappedOf,
        CountsCoordinates, NestStored,
      SameOutside, Completed, Crashes, SchoolRows, Upsert, CodesOf, Unmapped, Code, OneParent;
    ghost var rs, m := Registered(stream, acc.stateCodes), acc.statusMap;
    ghost var e0 := table.entities;
    ghost var e1, e2, e3;
    missing, e1, e2, e3 := SeedLevels(table, acc.states, acc.districts, acc.blocks, rs);
    LevelsAreReady(e0, e1, e2, e3, table.entities, acc.states, acc.districts, acc.blocks, acc.unmappedStatuses,
      acc.coordCounts,
                   rs, m, acc.stateCodes);
    RegisteredAreSound(stream, acc.stateCodes);
    SchoolsComplete(e0, table.entities, acc.coordCounts, rs, m);
    crashed, counts := SeedSchools(table, stream, acc.stateCodes, CodesOf(table.entities, BlockTier), acc.coordCounts,
      acc.statusMap, BATCH_SIZE);
  }

  /** Clearing the ids leaves no cycle among the merge pointers. */
  ghost predicate CyclesBroken(edges: seq<MergeCycles.Edge>, cleared: seq<MergeCycles.Id>) {
    var next := MergeCycles.NextOf(edges);
    && (forall x :: x in cleared <==> MergeCycles.MustBreak(next, MergeCycles.OperationalOf(edges), x))
    && MergeCycles.CycleFree(MergeCycles.Cleared(next, MergeCycles.Ids(cleared)))
  }

  method BreakCycles(edges: seq<MergeCycles.Edge>) returns (cleared: seq<MergeCycles.Id>)
    ensures CyclesBroken(edges, cleared)
  {
    hide MergeCycles.MustBreak, MergeCycles.CycleFree, MergeCycles.Cleared;
    cleared := MergeCycles.FindMergeCycleBreaks(edges);
    MergeCycles.ClearingFreesOfCycles(MergeCycles.NextOf(edges), MergeCycles.OperationalOf(edges), cleared);
  }

  /** The whole seed; `edges` are the merge pointers read back once they are linked. A register is rejected exactly when
      it is unacceptable, before anything is written; an accepted one is seeded in full, its merge cycles are broken,
      and over a rooted table the closing check passes. */
  method RunSeed(table: GeoTable, stream: seq<SourceRow>, m: StatusMap, stateCodes: set<string>,
                 edges: seq<MergeCycles.Edge>, dryRun: bool) returns (outcome: Outcome)
    modifies table
    ensures var rs := Registered(stream, stateCodes);
            && (outcome.Rejected? <==> !Acceptable(rs, m, stateCodes))
            && (outcome.DryRun? <==> Acceptable(rs, m, stateCodes) && dryRun)
            && !outcome.Aborted?
            && (!outcome.Seeded? ==> table.entities == old(table.entities))
            && (outcome.Seeded? ==>
                  && outcome.missing == [] && outcome.counts == SchoolCounts(|rs|, 0, |stream| - |rs|)
                  && Completed(old(table.entities), table.entities, rs, m) && CyclesBroken(edges, outcome.cleared)
                  && (Rooted(old(table.entities)) ==> outcome.hierarchyOk && Rooted(table.entities)))
  {
    hide Registered, Completed, Rooted, HierarchyOk, CyclesBroken, OneParent, StatesOf, Unmapped;
    var acc, errors := RunPass1(stream, m, stateCodes);
    if errors != [] { return Rejected(errors); }
    if dryRun { return DryRun; }
    var missing, crashed, counts := SeedAccepted(table, stream, acc);
    if crashed { return Aborted; }
    if Rooted(old(table.entities)) {
      SeedingIsRooted(old(table.entities), table.entities, Registered(stream, stateCodes), m);
    }
    var cleared := BreakCycles(edges);
    outcome := Seeded(missing, counts, cleared, HierarchyOk(table.entities));
  }

  lemma SeedingIsRooted(before: Entities, after: Entities, rs: seq<SourceRow>, m: StatusMap)
    requires Rooted(before) && Completed(before, after, rs, m) && rs != []
    ensures Rooted(after) && HierarchyOk(after)
  {
    hide Rooted, HierarchyOk, SameOutside, NestStored, SchoolStored;
    SeedingKeepsRoots(before, after, rs, m);
    RootedReachesTheCountry(after);
  }
}
