/** What is read of an export that is cut off anywhere, even inside a cell (src/users/interactions-csv.ts). */
module CsvTruncation {
  import opened Numerals
  import opened Options
  import opened InteractionsCsv

  /** What a printed cell can read as when the text ends inside it: part of a plain cell; of a quoted one all of it,
      or the part before an inner quote, whose first printed half looks like the closing quote. */
  predicate CutReads(cell: string, q: string) {
    var hardened := Harden(cell);
    q <= hardened && (!NeedsQuotes(hardened) || q == "" || q == hardened || hardened[|q|] == '\"')
  }

  // ---------------------------------------------------------------------------
  // Cutting one cell
  // ---------------------------------------------------------------------------

  ghost predicate QuotedCut(text: string, q: string) { q <= text && (q == text || text[|q|] == '\"') }

  lemma {:induction false} CutQuoted(text: string, n: nat, field: string, record: seq<string>,
                                     records: seq<seq<string>>)
    requires n <= |DoubleQuotes(text)| + 1
    ensures var r := Read((DoubleQuotes(text) + "\"")[..n], Quoted, field, record, records);
            r == None || exists q :: QuotedCut(text, q) && |q| < n && r == Some(records + [record + [field + q]])
    decreases |text|
  {
    hide Read, DoubleQuotes;
    OpenQuote(field, record, records);
    if n == 0 {
    } else if text == "" || (text[0] == '\"' && n == 1) {
      LoneQuote(text, field, record, records);
      assert QuotedCut(text, "") && field + "" == field;
    } else {
      var m := if text[0] == '\"' then n - 2 else n - 1;
      QuotedStep(text, n, field, record, records);
      CutQuoted(text[1..], m, field + [text[0]], record, records);
      Prepend(text, m, n, field, record, records,
              Read((DoubleQuotes(text[1..]) + "\"")[..m], Quoted, field + [text[0]], record, records));
    }
  }

  lemma OpenQuote(field: string, record: seq<string>, records: seq<seq<string>>)
    ensures Read("", Quoted, field, record, records) == None && DoubleQuotes("") == ""
  {
  }

  /** One printed quote, and the text ends: it closes the field. */
  lemma LoneQuote(text: string, field: string, record: seq<string>, records: seq<seq<string>>)
    requires text == "" || text[0] == '\"'
    ensures Read((DoubleQuotes(text) + "\"")[..1], Quoted, field, record, records) == Some(records + [record + [field]])
  {
    assert (DoubleQuotes(text) + "\"")[..1] == "\"" && "\""[1..] == "";
  }

  /** One character of a quoted text, printed as itself or, a quote, as two. */
  lemma QuotedStep(text: string, n: nat, field: string, record: seq<string>, records: seq<seq<string>>)
    requires text != "" && n <= |DoubleQuotes(text)| + 1 && (if text[0] == '\"' then n >= 2 else n >= 1)
    ensures var m := if text[0] == '\"' then n - 2 else n - 1;
            && m <= |DoubleQuotes(text[1..])| + 1
            && Read((DoubleQuotes(text) + "\"")[..n], Quoted, field, record, records)
               == Read((DoubleQuotes(text[1..]) + "\"")[..m], Quoted, field + [text[0]], record, records)
  {
    var more := DoubleQuotes(text[1..]) + "\"";
    if text[0] == '\"' {
      assert DoubleQuotes(text) + "\"" == "\"\"" + more;
      assert ("\"\"" + more)[..n] == "\"\"" + more[..n - 2];
      hide DoubleQuotes;
      TwoQuotes(more[..n - 2], field, record, records);
    } else {
      assert DoubleQuotes(text) + "\"" == [text[0]] + more;
      assert ([text[0]] + more)[..n] == [text[0]] + more[..n - 1];
      hide DoubleQuotes;
      OneCharacter(text[0], more[..n - 1], field, record, records);
    }
  }

  lemma TwoQuotes(rest: string, field: string, record: seq<string>, records: seq<seq<string>>)
    ensures Read("\"\"" + rest, Quoted, field, record, records) == Read(rest, Quoted, field + ['\"'], record, records)
  {
    assert ("\"\"" + rest)[1..] == "\"" + rest && ("\"" + rest)[1..] == rest;
  }

  lemma OneCharacter(c: char, rest: string, field: string, record: seq<string>, records: seq<seq<string>>)
    requires c != '\"'
    ensures Read([c] + rest, Quoted, field, record, records) == Read(rest, Quoted, field + [c], record, records)
  {
    assert ([c] + rest)[1..] == rest;
  }

  lemma Prepend(text: string, m: nat, n: nat, field: string, record: seq<string>, records: seq<seq<string>>,
                r: Option<seq<seq<string>>>)
    requires text != "" && m < n
    requires r == None
             || exists q ::
               QuotedCut(text[1..], q) && |q| < m && r == Some(records + [record + [field + [text[0]] + q]])
    ensures r == None || exists q :: QuotedCut(text, q) && |q| < n && r == Some(records + [record + [field + q]])
  {
    if r != None {
      var q :| QuotedCut(text[1..], q) && |q| < m && r == Some(records + [record + [field + [text[0]] + q]]);
      assert field + [text[0]] + q == field + ([text[0]] + q);
      assert text == [text[0]] + text[1..];
      assert QuotedCut(text, [text[0]] + q);
    }
  }

  /** A text that ends inside a printed cell reads as an error or as one of the cell's cuts, no longer than the text. */
  lemma CutCell(cell: string, n: nat, record: seq<string>, records: seq<seq<string>>)
    requires 0 < n <= |CsvEscape(cell)|
    ensures var r := Read(CsvEscape(cell)[..n], FieldStart, "", record, records);
            r == None || exists q :: CutReads(cell, q) && |q| <= n && r == Some(records + [record + [q]])
  {
    hide Harden, CsvEscape, DoubleQuotes, NeedsQuotes, Read, CutReads;
    var hardened, text := Harden(cell), CsvEscape(cell)[..n];
    EscapeForms(cell);
    if NeedsQuotes(hardened) {
      var inner := DoubleQuotes(hardened) + "\"";
      assert text == "\"" + inner[..n - 1];
      OpeningQuote(inner[..n - 1], record, records);
      CutQuoted(hardened, n - 1, "", record, records);
      QuotedCutReads(cell, n, record, records, Read(inner[..n - 1], Quoted, "", record, records));
    } else {
      PlainCut(cell, n, record, records);
    }
  }

  lemma EscapeForms(cell: string)
    ensures CsvEscape(cell) == if NeedsQuotes(Harden(cell)) then "\"" + (DoubleQuotes(Harden(cell)) + "\"")
                               else Harden(cell)
  {
    hide Harden, DoubleQuotes, NeedsQuotes;
  }

  lemma OpeningQuote(rest: string, record: seq<string>, records: seq<seq<string>>)
    ensures Read("\"" + rest, FieldStart, "", record, records) == Read(rest, Quoted, "", record, records)
  {
    assert ("\"" + rest)[1..] == rest;
  }

  lemma QuotedCutReads(cell: string, n: nat, record: seq<string>, records: seq<seq<string>>,
                       r: Option<seq<seq<string>>>)
    requires n > 0 && NeedsQuotes(Harden(cell))
    requires r == None
             || exists q :: QuotedCut(Harden(cell), q) && |q| < n - 1 && r == Some(records + [record + ["" + q]])
    ensures r == None || exists q :: CutReads(cell, q) && |q| <= n && r == Some(records + [record + [q]])
  {
    hide Harden, NeedsQuotes;
    if r != None {
      var q :| QuotedCut(Harden(cell), q) && |q| < n - 1 && r == Some(records + [record + ["" + q]]);
      assert "" + q == q && CutReads(cell, q);
    }
  }

  /** A plain cell cut short reads as what is left of it. */
  lemma PlainCut(cell: string, n: nat, record: seq<string>, records: seq<seq<string>>)
    requires !NeedsQuotes(Harden(cell)) && 0 < n <= |Harden(cell)|
    ensures CsvEscape(cell) == Harden(cell) && CutReads(cell, Harden(cell)[..n])
    ensures Read(CsvEscape(cell)[..n], FieldStart, "", record, records)
            == Some(records + [record + [Harden(cell)[..n]]])
  {
    var text := Harden(cell)[..n];
    PlainPrefix(Harden(cell), n);
    hide Harden, NeedsQuotes, Read;
    ReadPlain(text, "", FieldStart, "", record, records);
    assert text + "" == text && "" + text == text;
    EndOfPlain(text, record, records);
  }

  lemma EndOfPlain(text: string, record: seq<string>, records: seq<seq<string>>)
    ensures Read("", Plain, text, record, records) == Some(records + [record + [text]])
  {
  }

  lemma PlainPrefix(text: string, n: nat)
    requires !NeedsQuotes(text) && n <= |text|
    ensures !NeedsQuotes(text[..n])
  {
  }

  // ---------------------------------------------------------------------------
  // Cutting one line
  // ---------------------------------------------------------------------------

  /** Where cell j starts in its printed line. */
  function Offset(cells: Record, j: nat): nat
    requires j < |cells|
  {
    if j == 0 then 0 else |CsvEscape(cells[0])| + 1 + Offset(cells[1..], j - 1)
  }

  /** r is the record a cut line leaves: the cells before the cut, and what is read of the cell it falls in. */
  ghost predicate CutRecord(cells: Record, n: nat, r: seq<string>) {
    exists j, q :: 0 <= j < |cells| && CutAt(cells, n, j, q) && r == HardenAll(cells[..j]) + [q]
  }

  ghost predicate CutAt(cells: Record, n: nat, j: nat, q: string)
    requires j < |cells|
  {
    CutReads(cells[j], q) && Offset(cells, j) + |q| <= n
  }

  lemma {:induction false} CutLine(cells: Record, n: nat, record: seq<string>, records: seq<seq<string>>)
    requires n < |Line(cells)| && (n == 0 ==> record != [])
    ensures var r := Read(Line(cells)[..n], FieldStart, "", record, records);
            r == None || exists part :: CutRecord(cells, n, part) && r == Some(records + [record + part])
    decreases |cells|
  {
    var first := CsvEscape(cells[0]);
    LineSplits(cells, "");
    assert Line(cells) + "" == Line(cells) && CSV_EOL + "" == CSV_EOL;
    hide Line, CsvEscape, Read, HardenAll, CutReads;
    if n == 0 {
      NothingOfACell(cells, record, records);
    } else if n <= |first| {
      assert Line(cells)[..n] == first[..n];
      CutCell(cells[0], n, record, records);
      FirstCellCut(cells, n, record, records, Read(first[..n], FieldStart, "", record, records));
    } else if |cells| == 1 {
      assert Line(cells)[..n] == first + "\r";
      HalfLineEnd(cells[0], record, records);
    } else {
      var rest := Line(cells[1..]);
      assert rest + "" == rest;
      var m := n - |first| - 1;
      assert Line(cells)[..n] == first + ("," + rest[..m]);
      ReadCell(cells[0], "," + rest[..m], record, records);
      assert ("," + rest[..m])[1..] == rest[..m];
      CutLine(cells[1..], m, record + [Harden(cells[0])], records);
      LaterCellCut(cells, m, n, record, records, Read(rest[..m], FieldStart, "", record + [Harden(cells[0])], records));
    }
  }

  lemma NothingOfACell(cells: Record, record: seq<string>, records: seq<seq<string>>)
    requires record != []
    ensures exists part ::
            CutRecord(cells, 0, part)
              && Read(Line(cells)[..0], FieldStart, "", record, records) == Some(records + [record + part])
  {
    assert CutAt(cells, 0, 0, "");
    assert HardenAll(cells[..0]) + [""] == [""];
    assert CutRecord(cells, 0, [""]);
  }

  lemma FirstCellCut(cells: Record, n: nat, record: seq<string>, records: seq<seq<string>>, r: Option<seq<seq<string>>>)
    requires r == None || exists q :: CutReads(cells[0], q) && |q| <= n && r == Some(records + [record + [q]])
    ensures r == None || exists part :: CutRecord(cells, n, part) && r == Some(records + [record + part])
  {
    hide CutReads, Harden;
    if r != None {
      var q :| CutReads(cells[0], q) && |q| <= n && r == Some(records + [record + [q]]);
      assert CutAt(cells, n, 0, q) && HardenAll(cells[..0]) + [q] == [q];
      assert CutRecord(cells, n, [q]);
    }
  }

  lemma LaterCellCut(cells: Record, m: nat, n: nat, record: seq<string>, records: seq<seq<string>>,
                     r: Option<seq<seq<string>>>)
    requires |cells| > 1 && n == |CsvEscape(cells[0])| + 1 + m
    requires r == None
             || exists part ::
               CutRecord(cells[1..], m, part) && r == Some(records + [record + [Harden(cells[0])] + part])
    ensures r == None || exists part :: CutRecord(cells, n, part) && r == Some(records + [record + part])
  {
    if r != None {
      hide CutRecord, Harden, CsvEscape;
      var part :| CutRecord(cells[1..], m, part) && r == Some(records + [record + [Harden(cells[0])] + part]);
      CellBefore(cells, m, n, part);
      assert record + [Harden(cells[0])] + part == record + ([Harden(cells[0])] + part);
    }
  }

  lemma CellBefore(cells: Record, m: nat, n: nat, part: seq<string>)
    requires |cells| > 1 && n == |CsvEscape(cells[0])| + 1 + m && CutRecord(cells[1..], m, part)
    ensures CutRecord(cells, n, [Harden(cells[0])] + part)
  {
    hide CutReads, Harden, CsvEscape;
    var j, q :| 0 <= j < |cells[1..]| && CutAt(cells[1..], m, j, q) && part == HardenAll(cells[1..][..j]) + [q];
    assert CutAt(cells, n, j + 1, q);
    HardenedBefore(cells, j);
    hide HardenAll;
    assert [Harden(cells[0])] + part == HardenAll(cells[..j + 1]) + [q];
  }

  lemma HardenedBefore(cells: Record, j: nat)
    requires j < |cells| - 1
    ensures HardenAll(cells[..j + 1]) == [Harden(cells[0])] + HardenAll(cells[1..][..j])
  {
    hide Harden;
  }

  /** Half a line end is an error. */
  lemma HalfLineEnd(cell: string, record: seq<string>, records: seq<seq<string>>)
    ensures Read(CsvEscape(cell) + "\r", FieldStart, "", record, records) == None
  {
    var hardened := Harden(cell);
    assert "" + hardened == hardened;
    if NeedsQuotes(hardened) {
      var all := CsvEscape(cell) + "\r";
      assert all == "\"" + (DoubleQuotes(hardened) + "\"" + "\r");
      assert all[1..] == DoubleQuotes(hardened) + "\"" + "\r";
      hide DoubleQuotes, NeedsQuotes, Harden;
      ReadQuoted(hardened, "\r", "", record, records);
    } else {
      hide NeedsQuotes, Harden;
      ReadPlain(hardened, "\r", FieldStart, "", record, records);
    }
  }

  // ---------------------------------------------------------------------------
  // Cutting a table
  // ---------------------------------------------------------------------------

  /** r is what a cut of the table after n characters can read as: whole rows, and perhaps a cut one. */
  ghost predicate CutRead(rows: seq<Record>, n: nat, r: seq<seq<string>>) {
    exists k :: 0 <= k < |rows| && CutAfter(rows, n, k, r)
  }

  ghost predicate CutAfter(rows: seq<Record>, n: nat, k: nat, r: seq<seq<string>>)
    requires k < |rows|
  {
    var whole := HardenRows(rows[..k]);
    && |Lines(rows[..k])| <= n < |Lines(rows[..k])| + |Line(rows[k])|
    && (r == whole || exists part :: CutRecord(rows[k], n - |Lines(rows[..k])|, part) && r == whole + [part])
  }

  lemma {:induction false} CutTable(rows: seq<Record>, n: nat, k: nat)
    requires k < |rows| && |Lines(rows[..k])| <= n < |Lines(rows[..k])| + |Line(rows[k])|
    ensures n <= |Lines(rows)| && Lines(rows)[..n] == Lines(rows[..k]) + Line(rows[k])[..n - |Lines(rows[..k])|]
    ensures var r := ReadCsv(Lines(rows)[..n]); r == None || CutAfter(rows, n, k, r.value)
  {
    hide Line, Lines, Read, CutRecord, HardenRows, HardenAll;
    var m, line, records := n - |Lines(rows[..k])|, Line(rows[k]), HardenRows(rows[..k]);
    PrefixOfLines(rows, k, m);
    ReadLines(rows[..k], line[..m], []);
    assert [] + records == records;
    if m == 0 {
      assert line[..0] == "";
      NothingLeft(records);
    } else {
      CutLine(rows[k], m, [], records);
      CutRow(rows[k], m, records, Read(line[..m], FieldStart, "", [], records));
    }
  }

  lemma CutRow(cells: Record, m: nat, records: seq<seq<string>>, r: Option<seq<seq<string>>>)
    requires r == None || exists part :: CutRecord(cells, m, part) && r == Some(records + [[] + part])
    ensures r == None || exists part :: CutRecord(cells, m, part) && r == Some(records + [part])
  {
    hide CutRecord;
    if r != None {
      var part :| CutRecord(cells, m, part) && r == Some(records + [[] + part]);
      assert [] + part == part;
    }
  }

  lemma PrefixOfLines(rows: seq<Record>, k: nat, m: nat)
    requires k < |rows| && m < |Line(rows[k])|
    ensures |Lines(rows[..k])| + m <= |Lines(rows)|
    ensures Lines(rows)[..|Lines(rows[..k])| + m] == Lines(rows[..k]) + Line(rows[k])[..m]
  {
    LinesAppend(rows[..k], rows[k..]);
    assert rows[..k] + rows[k..] == rows && rows[k..][0] == rows[k];
    assert Lines(rows[k..]) == Line(rows[k]) + Lines(rows[k..][1..]);
    hide Line, Lines;
  }

  /** Every cut falls in some row. */
  lemma {:induction false} RowOfCut(rows: seq<Record>, n: nat) returns (k: nat)
    requires n < |Lines(rows)|
    ensures k < |rows| && |Lines(rows[..k])| <= n < |Lines(rows[..k])| + |Line(rows[k])|
    decreases |rows|
  {
    hide Line;
    if n < |Line(rows[0])| {
      k := 0;
      assert rows[..0] == [];
    } else {
      var l := RowOfCut(rows[1..], n - |Line(rows[0])|);
      k := l + 1;
      assert rows[..k][0] == rows[0] && rows[..k][1..] == rows[1..][..l];
    }
  }

  // ---------------------------------------------------------------------------
  // The footer of a cut export
  // ---------------------------------------------------------------------------

  /** A row whose first two cells can be cut to look like the footer. */
  ghost predicate Forgeable(r: InteractionRow) {
    r.timestampIst == FOOTER_START && exists m: nat :: CutReads(r.studentId, FooterEnd(m))
  }

  /** A two-cell record left by a cut comes from a cut in the second cell. */
  lemma TwoCellsCut(cells: Record, n: nat, a: string, b: string)
    requires CutRecord(cells, n, [a, b])
    ensures |cells| > 1 && a == Harden(cells[0]) && CutReads(cells[1], b) && |CsvEscape(cells[0])| + 1 + |b| <= n
  {
    hide CutReads, Harden, CsvEscape;
    var j, q :| 0 <= j < |cells| && CutAt(cells, n, j, q) && [a, b] == HardenAll(cells[..j]) + [q];
    assert |[a, b]| == j + 1;
    assert (HardenAll(cells[..1]) + [q])[0] == Harden(cells[0]) && (HardenAll(cells[..1]) + [q])[1] == q;
    assert Offset(cells, 1) == |CsvEscape(cells[0])| + 1 + Offset(cells[1..], 0);
  }

  lemma OnlyAHashIsTheFooterStart(cell: string)
    ensures Harden(cell) == FOOTER_START <==> cell == FOOTER_START
  {
    assert FOOTER_START[0] == '#';
  }

  lemma {:induction false} DigitsOnly(n: nat)
    ensures forall k :: 0 <= k < |Show(n)| ==> '0' <= Show(n)[k] <= '9'
  {
    ShowParses(n);
  }

  /** The one `s` of a footer text is its last character. */
  lemma OneS(n: nat, k: nat)
    requires k + 1 < |FooterEnd(n)|
    ensures FooterEnd(n)[k] != 's'
  {
    DigitsOnly(n);
    hide Show;
    var d := |Show(n)|;
    assert FooterEnd(n) == " " + Show(n) + " rows";
    if 1 <= k <= d {
      assert FooterEnd(n)[k] == Show(n)[k - 1];
    } else if k > d {
      assert FooterEnd(n)[k] == " rows"[k - d - 1];
    }
  }

  /** No footer text is a proper beginning of another. */
  lemma FooterEndsAreApart(m: nat, n: nat)
    requires FooterEnd(m) <= FooterEnd(n)
    ensures |FooterEnd(m)| == |FooterEnd(n)|
  {
    var last := |FooterEnd(m)| - 1;
    hide Show;
    assert FooterEnd(m)[last] == 's' && FooterEnd(n)[last] == 's';
    if last + 1 < |FooterEnd(n)| { OneS(n, last); }
  }

  /** Inside the footer line, no cut before its last visible character reads as a footer. */
  lemma FooterIsNotCut(total: nat, n: nat, m: nat)
    requires n + 2 < |FooterLine(total)|
    ensures !CutRecord(FooterRecord(total), n, FooterRecord(m))
  {
    FooterIsOrdinary(total);
    FooterLength(total);
    hide Show, Line, HardenAll, FooterLine;
    if CutRecord(FooterRecord(total), n, FooterRecord(m)) {
      TwoCellsCut(FooterRecord(total), n, FOOTER_START, FooterEnd(m));
      FooterEndsAreApart(m, total);
    }
  }

  lemma FooterLength(total: nat)
    ensures |FooterLine(total)| == |CsvEscape(FOOTER_START)| + 1 + |FooterEnd(total)| + 2
    ensures Harden(FooterEnd(total)) == FooterEnd(total)
  {
    FooterIsOrdinary(total);
  }

  /** A cut inside any other row than the footer reads as a footer only if the row can be forged. */
  lemma OnlyForgeableRowsCut(r: InteractionRow, n: nat, m: nat)
    requires CutRecord(Cells(r), n, FooterRecord(m))
    ensures Forgeable(r)
  {
    hide Show, CutReads, HardenAll, CsvEscape;
    TwoCellsCut(Cells(r), n, FOOTER_START, FooterEnd(m));
    OnlyAHashIsTheFooterStart(r.timestampIst);
    hide Harden, CutRecord;
    assert Cells(r)[0] == r.timestampIst && Cells(r)[1] == r.studentId;
  }

  lemma HeaderIsNotCut(n: nat, m: nat)
    ensures !CutRecord(HeaderRecord(), n, FooterRecord(m))
  {
    hide Show, CutReads, HardenAll, CsvEscape, CutRecord;
    OnlyAHashIsTheFooterStart(HeaderRecord()[0]);
    assert HeaderRecord()[0] == "timestamp_ist" && "timestamp_ist"[0] != FOOTER_START[0];
    if CutRecord(HeaderRecord(), n, FooterRecord(m)) { TwoCellsCut(HeaderRecord(), n, FOOTER_START, FooterEnd(m)); }
  }

  /** The export after its byte order mark. */
  function Body(rows: seq<InteractionRow>): string { Lines(Table(rows, true)) }

  /** A cut before the last visible character of the export that reads with a footer. */
  ghost predicate LooksFinished(rows: seq<InteractionRow>, n: nat) {
    n + 2 < |Body(rows)| && ReadCsv(Body(rows)[..n]).Some? &&
    exists m: nat :: FooterRecord(m) in ReadCsv(Body(rows)[..n]).value
  }

  lemma TableShape(rows: seq<InteractionRow>, k: nat)
    requires k < |rows| + 2
    ensures |Table(rows, true)| == |rows| + 2
    ensures k == 0 ==> Table(rows, true)[k] == HeaderRecord()
    ensures 1 <= k <= |rows| ==> Table(rows, true)[k] == Cells(rows[k - 1])
    ensures k == |rows| + 1 ==> Table(rows, true)[k] == FooterRecord(|rows|)
  {
    hide Cells, HeaderRecord, FooterRecord;
  }

  lemma WholeRowsAreWide(rows: seq<InteractionRow>, k: nat, m: nat)
    requires k < |rows| + 2
    ensures FooterRecord(m) !in HardenRows(Table(rows, true)[..k])
  {
    hide Cells, HeaderRecord, Show, Table;
    TableShape(rows, 0);
    var part := Table(rows, true)[..k];
    forall l | 0 <= l < k ensures |HardenRows(part)[l]| == COLUMNS {
      TableShape(rows, l);
      HeaderIsOrdinary();
      assert part[l] == Table(rows, true)[l];
    }
  }

  /** A cut of the export that looks finished was made in a row that can be forged. */
  lemma CutsOfHonestRows(rows: seq<InteractionRow>, n: nat)
    requires LooksFinished(rows, n)
    ensures exists k :: 0 <= k < |rows| && Forgeable(rows[k])
  {
    hide Lines, Line, Table, Read, ReadCsv, HardenRows, CutRecord, Forgeable, FooterRecord, Cells, HeaderRecord,
        FooterLine;
    var table := Table(rows, true);
    var r := ReadCsv(Body(rows)[..n]).value;
    var m: nat :| FooterRecord(m) in r;
    var k := RowOfCut(table, n);
    CutTable(table, n, k);
    TableShape(rows, 0);
    TableShape(rows, k);
    WholeRowsAreWide(rows, k, m);
    var at := n - |Lines(table[..k])|;
    assert r != HardenRows(table[..k]);
    var part :| CutRecord(table[k], at, part) && r == HardenRows(table[..k]) + [part];
    assert part == FooterRecord(m);
    if k == 0 {
      HeaderIsNotCut(at, m);
    } else if k <= |rows| {
      OnlyForgeableRowsCut(rows[k - 1], at, m);
    } else {
      LastRowLength(rows);
      FooterIsNotCut(|rows|, at, m);
    }
  }

  lemma LastRowLength(rows: seq<InteractionRow>)
    ensures |Body(rows)| == |Lines(Table(rows, true)[..|rows| + 1])| + |FooterLine(|rows|)|
  {
    hide Lines, Line, Cells, HeaderRecord, FooterRecord, FooterLine;
    var table := Table(rows, true);
    TableShape(rows, |rows| + 1);
    FooterIsOrdinary(|rows|);
    LinesAppend(table[..|rows| + 1], table[|rows| + 1..]);
    assert table[..|rows| + 1] + table[|rows| + 1..] == table;
    assert table[|rows| + 1..] == [table[|rows| + 1]];
    OneLine(table[|rows| + 1]);
  }

  // ---------------------------------------------------------------------------
  // Every forgeable row can be cut to look like a footer
  // ---------------------------------------------------------------------------

  lemma {:induction false} ReachQuoted(text: string, q: string, field: string, record: seq<string>,
                                       records: seq<seq<string>>)
    returns (n: nat)
    requires QuotedCut(text, q)
    ensures 1 <= n <= |DoubleQuotes(text)| + 1
    ensures Read((DoubleQuotes(text) + "\"")[..n], Quoted, field, record, records)
            == Some(records + [record + [field + q]])
    decreases |text|
  {
    hide Read, DoubleQuotes;
    if q == "" {
      n := 1;
      LoneQuote(text, field, record, records);
      assert field + "" == field;
    } else {
      var m := ReachQuoted(text[1..], q[1..], field + [text[0]], record, records);
      n := if text[0] == '\"' then m + 2 else m + 1;
      DoublesGrow(text);
      QuotedStep(text, n, field, record, records);
      RestOfField(field, q);
      assert q[0] == text[0];
    }
  }

  lemma RestOfField(field: string, q: string)
    requires q != ""
    ensures field + [q[0]] + q[1..] == field + q
  {
  }

  lemma DoublesGrow(text: string)
    requires text != ""
    ensures |DoubleQuotes(text)| == |DoubleQuotes(text[1..])| + (if text[0] == '\"' then 2 else 1)
  {
  }

  lemma QuotedCuts(text: string, q: string)
    requires q <= text && (q == text || text[|q|] == '\"')
    ensures QuotedCut(text, q)
  {
  }

  lemma FirstQuote(inner: string, m: nat)
    requires m <= |inner|
    ensures ("\"" + inner)[..m + 1] == "\"" + inner[..m]
  {
  }

  lemma ReachCut(cell: string, q: string, record: seq<string>, records: seq<seq<string>>) returns (n: nat)
    requires CutReads(cell, q) && q != ""
    ensures 0 < n <= |CsvEscape(cell)|
    ensures Read(CsvEscape(cell)[..n], FieldStart, "", record, records) == Some(records + [record + [q]])
  {
    hide Harden, CsvEscape, DoubleQuotes, NeedsQuotes, Read, QuotedCut;
    var hardened := Harden(cell);
    EscapeForms(cell);
    if NeedsQuotes(hardened) {
      var inner := DoubleQuotes(hardened) + "\"";
      QuotedCuts(hardened, q);
      var m := ReachQuoted(hardened, q, "", record, records);
      n := m + 1;
      OpeningQuote(inner[..m], record, records);
      FirstQuote(inner, m);
      assert "" + q == q;
    } else {
      n := |q|;
      PlainCut(cell, n, record, records);
      assert hardened[..n] == q;
    }
  }

  /** A cut in the second cell leaves a two-cell record. */
  lemma ReachSecondCell(cells: Record, q: string, records: seq<seq<string>>) returns (n: nat)
    requires |cells| > 2 && CutReads(cells[1], q) && q != ""
    ensures 0 < n < |Line(cells)|
    ensures Read(Line(cells)[..n], FieldStart, "", [], records) == Some(records + [[Harden(cells[0]), q]])
  {
    var first, second, rest := CsvEscape(cells[0]), CsvEscape(cells[1]), Line(cells[1..]);
    LineSplits(cells, "");
    LineSplits(cells[1..], "");
    assert rest + "" == rest && Line(cells) + "" == Line(cells);
    assert Line(cells[2..]) + "" == Line(cells[2..]) && cells[1..][1..] == cells[2..];
    hide Line, CsvEscape, Read, CutReads, Harden;
    var m := ReachCut(cells[1], q, [Harden(cells[0])], records);
    n := |first| + 1 + m;
    assert Line(cells)[..n] == first + ("," + rest[..m]) && rest[..m] == second[..m];
    ReadCell(cells[0], "," + second[..m], [], records);
    assert ("," + second[..m])[1..] == second[..m] && [] + [Harden(cells[0])] == [Harden(cells[0])];
    assert [Harden(cells[0])] + [q] == [Harden(cells[0]), q];
  }

  lemma ForgedRowReads(rows: seq<Record>, k: nat, m: nat) returns (at: nat)
    requires k < |rows| && |rows[k]| > 2 && rows[k][0] == FOOTER_START && CutReads(rows[k][1], FooterEnd(m))
    ensures at < |Line(rows[k])| && |Lines(rows[..k])| + at <= |Lines(rows)|
    ensures ReadCsv(Lines(rows)[..|Lines(rows[..k])| + at]) == Some(HardenRows(rows[..k]) + [FooterRecord(m)])
  {
    var whole := HardenRows(rows[..k]);
    OnlyAHashIsTheFooterStart(FOOTER_START);
    assert FooterEnd(m) != "";
    hide Lines, Line, Read, HardenRows, CutReads, FooterEnd, Harden;
    at := ReachSecondCell(rows[k], FooterEnd(m), whole);
    PrefixOfLines(rows, k, at);
    ReadLines(rows[..k], Line(rows[k])[..at], []);
    assert [] + whole == whole;
  }

  lemma ForgedCells(r: InteractionRow) returns (m: nat)
    requires Forgeable(r)
    ensures |Cells(r)| > 2 && Cells(r)[0] == FOOTER_START && CutReads(Cells(r)[1], FooterEnd(m))
  {
    hide CutReads, FooterEnd;
    m :| CutReads(r.studentId, FooterEnd(m));
  }

  lemma LooksFinishedAt(rows: seq<InteractionRow>, n: nat, whole: seq<seq<string>>, m: nat)
    requires n + 2 < |Body(rows)| && ReadCsv(Body(rows)[..n]) == Some(whole + [FooterRecord(m)])
    ensures LooksFinished(rows, n)
  {
    hide Lines, Table, ReadCsv, FooterRecord;
    assert (whole + [FooterRecord(m)])[|whole|] == FooterRecord(m);
  }

  lemma BodyIsTheTable(rows: seq<InteractionRow>)
    ensures Body(rows) == Lines(Table(rows, true))
  {
  }

  lemma ForgedRowLooksFinished(rows: seq<InteractionRow>, k: nat) returns (n: nat)
    requires k < |rows| && Forgeable(rows[k])
    ensures LooksFinished(rows, n)
  {
    hide *;
    var table := Table(rows, true);
    TableShape(rows, k + 1);
    var m := ForgedCells(rows[k]);
    BodyIsTheTable(rows);
    var at := ForgedRowReads(table, k + 1, m);
    n := |Lines(table[..k + 1])| + at;
    CutsEndEarly(rows, k, at);
    LooksFinishedAt(rows, n, HardenRows(table[..k + 1]), m);
  }

  lemma LinesGrow(rows: seq<Record>, i: nat, j: nat)
    requires i < j <= |rows|
    ensures |Lines(rows[..i])| + |Line(rows[i])| <= |Lines(rows[..j])|
  {
    hide Lines, Line;
    assert rows[..j] == rows[..i] + [rows[i]] + rows[i + 1..j];
    LinesAppend(rows[..i] + [rows[i]], rows[i + 1..j]);
    LinesAppend(rows[..i], [rows[i]]);
    OneLine(rows[i]);
  }

  lemma CutsEndEarly(rows: seq<InteractionRow>, k: nat, at: nat)
    requires k < |rows| && at < |Line(Cells(rows[k]))|
    ensures |Lines(Table(rows, true)[..k + 1])| + at + 2 < |Body(rows)|
  {
    TableShape(rows, k + 1);
    LastRowLength(rows);
    FooterLength(|rows|);
    hide *;
    LinesGrow(Table(rows, true), k + 1, |rows| + 1);
  }

  /** Some cut of an export looks finished exactly when some row can be forged: its timestamp cell is the footer's first
      cell. The timestamps the export prints start with a digit, so there a footer always means completion. */
  lemma CutExportsLookUnfinished(rows: seq<InteractionRow>)
    ensures Export(rows, true) == CSV_BOM + Body(rows)
    ensures (exists n :: LooksFinished(rows, n)) <==> exists k :: 0 <= k < |rows| && Forgeable(rows[k])
  {
    ExportIsATable(rows, true);
    BodyIsTheTable(rows);
    hide LooksFinished, Forgeable, Export, Body, Lines, Table;
    if n: nat :| LooksFinished(rows, n) { CutsOfHonestRows(rows, n); }
    if k :| 0 <= k < |rows| && Forgeable(rows[k]) { var n := ForgedRowLooksFinished(rows, k); }
  }

  /** Timestamps are printed with a digit first, so of real exports no cut looks finished. */
  lemma DatedExportsAreSafe(rows: seq<InteractionRow>, n: nat)
    requires forall k :: 0 <= k < |rows| ==> rows[k].timestampIst != "" && '0' <= rows[k].timestampIst[0] <= '9'
    ensures !LooksFinished(rows, n)
  {
    assert FOOTER_START[0] == '#';
    if LooksFinished(rows, n) {
      hide LooksFinished;
      CutExportsLookUnfinished(rows);
    }
  }
}
