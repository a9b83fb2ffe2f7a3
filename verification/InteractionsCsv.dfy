/** The CSV printer of the exports (src/users/interactions-csv.ts), against a reader for section 2 of RFC 4180. */
module InteractionsCsv {
  import opened Numerals
  import opened Options

  const CSV_EOL: string := "\r\n"
  const CSV_BOM: string := "\U{FEFF}"

  // ---------------------------------------------------------------------------
  // Printing
  // ---------------------------------------------------------------------------

  predicate StartsFormula(cell: string) { cell != "" && cell[0] in "=+-@" }

  function Harden(cell: string): string { if StartsFormula(cell) then "'" + cell else cell }

  predicate NeedsQuotes(s: string) { '\"' in s || ',' in s || '\r' in s || '\n' in s }

  function DoubleQuotes(s: string): string {
    if s == "" then "" else (if s[0] == '\"' then "\"\"" else [s[0]]) + DoubleQuotes(s[1..])
  }

  function CsvEscape(cell: string): string {
    var hardened := Harden(cell);
    if NeedsQuotes(hardened) then "\"" + DoubleQuotes(hardened) + "\"" else hardened
  }

  type Record = cells: seq<string> | cells != [] witness [""]

  /** The escaped cells joined by commas, and a line end. */
  function Line(cells: Record): string {
    CsvEscape(cells[0]) + (if |cells| == 1 then CSV_EOL else "," + Line(cells[1..]))
  }

  function Lines(rows: seq<Record>): string {
    if rows == [] then "" else Line(rows[0]) + Lines(rows[1..])
  }

  function HardenAll(cells: seq<string>): (r: seq<string>)
    ensures |r| == |cells| && forall k :: 0 <= k < |cells| ==> r[k] == Harden(cells[k])
  {
    seq(|cells|, k requires 0 <= k < |cells| => Harden(cells[k]))
  }

  function HardenRows(rows: seq<Record>): (r: seq<seq<string>>)
    ensures |r| == |rows| && forall k :: 0 <= k < |rows| ==> r[k] == HardenAll(rows[k])
  {
    seq(|rows|, k requires 0 <= k < |rows| => HardenAll(rows[k]))
  }

  // ---------------------------------------------------------------------------
  // Reading
  // ---------------------------------------------------------------------------

  datatype Mode = FieldStart | Plain | Quoted | QuoteInQuoted

  /** Fields end at a comma, records at CRLF; a field is bare text, or quoted with inner quotes doubled. A bare quote,
      CR or LF outside quotes is an error. */
  function Read(s: string, mode: Mode, field: string, record: seq<string>,
                records: seq<seq<string>>): Option<seq<seq<string>>>
    decreases |s|
  {
    if s == "" then
      if mode == Quoted then None
      else if mode == FieldStart && record == [] then Some(records)
      else Some(records + [record + [field]])
    else if mode == Quoted then
      if s[0] == '\"' then Read(s[1..], QuoteInQuoted, field, record, records)
      else Read(s[1..], Quoted, field + [s[0]], record, records)
    else if s[0] == ',' then Read(s[1..], FieldStart, "", record + [field], records)
    else if |s| > 1 && s[0] == '\r' && s[1] == '\n' then Read(s[2..], FieldStart, "", [], records + [record + [field]])
    else if s[0] == '\"' then
      if mode == FieldStart then Read(s[1..], Quoted, "", record, records)
      else if mode == QuoteInQuoted then Read(s[1..], Quoted, field + "\"", record, records)
      else None
    else if s[0] == '\r' || s[0] == '\n' || mode == QuoteInQuoted then None
    else Read(s[1..], Plain, field + [s[0]], record, records)
  }

  function ReadCsv(s: string): Option<seq<seq<string>>> { Read(s, FieldStart, "", [], []) }

  // ---------------------------------------------------------------------------
  // Round trip
  // ---------------------------------------------------------------------------

  lemma {:induction false} ReadPlain(text: string, rest: string, mode: Mode, field: string, record: seq<string>,
                                     records: seq<seq<string>>)
    requires !NeedsQuotes(text) && (mode == FieldStart || mode == Plain)
    ensures Read(text + rest, mode, field, record, records)
         == Read(rest, if text == "" then mode else Plain, field + text, record, records)
    decreases |text|
  {
    if text == "" {
      assert text + rest == rest && field + text == field;
    } else {
      assert text[0] in text;
      assert (text + rest)[1..] == text[1..] + rest;
      ReadPlain(text[1..], rest, Plain, field + [text[0]], record, records);
      assert field + [text[0]] + text[1..] == field + text;
    }
  }

  lemma {:induction false} ReadQuoted(text: string, rest: string, field: string, record: seq<string>,
                                      records: seq<seq<string>>)
    ensures Read(DoubleQuotes(text) + "\"" + rest, Quoted, field, record, records)
         == Read(rest, QuoteInQuoted, field + text, record, records)
    decreases |text|
  {
    if text == "" {
      assert DoubleQuotes(text) + "\"" + rest == "\"" + rest && field + text == field;
      assert ("\"" + rest)[1..] == rest;
    } else {
      var more := DoubleQuotes(text[1..]) + "\"" + rest;
      ReadQuoted(text[1..], rest, field + [text[0]], record, records);
      assert field + [text[0]] + text[1..] == field + text;
      if text[0] == '\"' {
        var all := "\"\"" + more;
        assert DoubleQuotes(text) + "\"" + rest == all;
        assert all[1..] == "\"" + more && all[1..][1..] == more;
      } else {
        assert DoubleQuotes(text) + "\"" + rest == [text[0]] + more;
        assert ([text[0]] + more)[1..] == more;
      }
    }
  }

  /** A printed cell is read back as its hardened text, up to the delimiter. */
  lemma ReadCell(cell: string, rest: string, record: seq<string>, records: seq<seq<string>>)
    requires rest != "" && (rest[0] == ',' || (|rest| > 1 && rest[0] == '\r' && rest[1] == '\n'))
    ensures Read(CsvEscape(cell) + rest, FieldStart, "", record, records)
         == if rest[0] == ',' then Read(rest[1..], FieldStart, "", record + [Harden(cell)], records)
            else Read(rest[2..], FieldStart, "", [], records + [record + [Harden(cell)]])
  {
    var hardened := Harden(cell);
    assert "" + hardened == hardened;
    if NeedsQuotes(hardened) {
      var more := DoubleQuotes(hardened) + "\"" + rest;
      assert CsvEscape(cell) + rest == "\"" + more;
      ReadOpening(more, record, records);
      ReadQuoted(hardened, rest, "", record, records);
      ReadDelimiter(rest, QuoteInQuoted, hardened, record, records);
    } else {
      ReadPlain(hardened, rest, FieldStart, "", record, records);
      ReadDelimiter(rest, if hardened == "" then FieldStart else Plain, hardened, record, records);
    }
    hide Read, Harden, NeedsQuotes, DoubleQuotes;
  }

  lemma ReadOpening(more: string, record: seq<string>, records: seq<seq<string>>)
    ensures Read("\"" + more, FieldStart, "", record, records) == Read(more, Quoted, "", record, records)
  {
    assert ("\"" + more)[1..] == more;
  }

  lemma ReadDelimiter(rest: string, mode: Mode, field: string, record: seq<string>, records: seq<seq<string>>)
    requires mode != Quoted
    requires rest != "" && (rest[0] == ',' || (|rest| > 1 && rest[0] == '\r' && rest[1] == '\n'))
    ensures Read(rest, mode, field, record, records)
         == if rest[0] == ',' then Read(rest[1..], FieldStart, "", record + [field], records)
            else Read(rest[2..], FieldStart, "", [], records + [record + [field]])
  {
  }

  lemma LineSplits(cells: Record, rest: string)
    ensures Line(cells) + rest
         == CsvEscape(cells[0]) + (if |cells| == 1 then CSV_EOL + rest else "," + (Line(cells[1..]) + rest))
  {
    hide CsvEscape;
  }

  lemma HardenAllSplits(record: seq<string>, cells: Record)
    ensures |cells| == 1 ==> HardenAll(cells) == [Harden(cells[0])]
    ensures |cells| > 1 ==> record + [Harden(cells[0])] + HardenAll(cells[1..]) == record + HardenAll(cells)
  {
    hide Harden;
  }

  lemma {:induction false} ReadLine(cells: Record, rest: string, record: seq<string>, records: seq<seq<string>>)
    ensures Read(Line(cells) + rest, FieldStart, "", record, records)
         == Read(rest, FieldStart, "", [], records + [record + HardenAll(cells)])
    decreases |cells|
  {
    hide Read, CsvEscape, Line, HardenAll, Harden;
    LineSplits(cells, rest);
    HardenAllSplits(record, cells);
    if |cells| == 1 {
      ReadCell(cells[0], CSV_EOL + rest, record, records);
      assert (CSV_EOL + rest)[2..] == rest;
    } else {
      var tail := Line(cells[1..]) + rest;
      ReadCell(cells[0], "," + tail, record, records);
      assert ("," + tail)[1..] == tail;
      ReadLine(cells[1..], rest, record + [Harden(cells[0])], records);
    }
  }

  lemma {:induction false} ReadLines(rows: seq<Record>, rest: string, records: seq<seq<string>>)
    ensures Read(Lines(rows) + rest, FieldStart, "", [], records)
            == Read(rest, FieldStart, "", [], records + HardenRows(rows))
    decreases |rows|
  {
    hide Read, Line;
    if rows == [] {
      assert Lines(rows) + rest == rest && records + HardenRows(rows) == records;
    } else {
      assert Lines(rows) + rest == Line(rows[0]) + (Lines(rows[1..]) + rest);
      ReadLine(rows[0], Lines(rows[1..]) + rest, [], records);
      assert [] + HardenAll(rows[0]) == HardenAll(rows[0]);
      ReadLines(rows[1..], rest, records + [HardenAll(rows[0])]);
      assert records + [HardenAll(rows[0])] + HardenRows(rows[1..]) == records + HardenRows(rows);
    }
  }

  lemma NothingLeft(records: seq<seq<string>>)
    ensures Read("", FieldStart, "", [], records) == Some(records)
  {
  }

  /** Reading any printed table back gives exactly its hardened cells, row by row. */
  lemma PrintedTableReadsBack(rows: seq<Record>)
    ensures ReadCsv(Lines(rows)) == Some(HardenRows(rows))
  {
    hide Read, Lines;
    ReadLines(rows, "", []);
    NothingLeft(HardenRows(rows));
    assert Lines(rows) + "" == Lines(rows) && [] + HardenRows(rows) == HardenRows(rows);
  }

  /** No cell that is read back starts a formula. */
  lemma NoCellStartsAFormula(rows: seq<Record>, records: seq<seq<string>>, i: nat, j: nat)
    requires ReadCsv(Lines(rows)) == Some(records) && i < |records| && j < |records[i]|
    ensures !StartsFormula(records[i][j])
  {
    PrintedTableReadsBack(rows);
    hide ReadCsv, Lines;
    assert records[i][j] == Harden(rows[i][j]);
  }

  /** What the printer loses: two cells print alike exactly when they are equal or one is the other behind an
      apostrophe. */
  lemma HardeningCollides(a: string, b: string)
    ensures CsvEscape(a) == CsvEscape(b) <==>
            a == b || (StartsFormula(a) && b == "'" + a) || (StartsFormula(b) && a == "'" + b)
  {
    PrintedCellDecides(a, b);
    hide CsvEscape;
    if StartsFormula(a) && StartsFormula(b) && Harden(a) == Harden(b) {
      assert a == Harden(a)[1..] && b == Harden(b)[1..];
    }
  }

  /** Quoting loses nothing: equal printed cells come from equal hardened cells. */
  lemma PrintedCellDecides(a: string, b: string)
    ensures CsvEscape(a) == CsvEscape(b) <==> Harden(a) == Harden(b)
  {
    hide Read, NeedsQuotes, DoubleQuotes, Harden;
    OneCellReadsBack(a);
    OneCellReadsBack(b);
    assert [[Harden(a)]][0][0] == Harden(a) && [[Harden(b)]][0][0] == Harden(b);
  }

  lemma OneCellReadsBack(cell: string)
    ensures ReadCsv(CsvEscape(cell) + CSV_EOL) == Some([[Harden(cell)]])
  {
    hide Read, CsvEscape, Harden;
    ReadCell(cell, CSV_EOL, [], []);
    var record := [Harden(cell)];
    assert CSV_EOL[2..] == "" && [] + record == record && [] + [record] == [record];
    NothingLeft([[Harden(cell)]]);
  }

  lemma FormulaAndItsQuotedForm()
    ensures "=x" != "'=x" && CsvEscape("=x") == CsvEscape("'=x")
  {
    assert "'" + "=x" == "'=x";
    HardeningCollides("=x", "'=x");
  }

  // ---------------------------------------------------------------------------
  // The interactions export
  // ---------------------------------------------------------------------------

  function PeopleColumns(): seq<string> {
    ["timestamp_ist", "student_id", "referred_by_id", "geo_entity_type", "geo_entity_name", "level", "lesson_type"]
  }

  function AnswerColumns(): seq<string> {
    ["content", "correct_answer", "sarvam_transcript", "azure_transcript", "reverie_transcript", "bodhan_transcript",
     "audio_duration_ms", "answer_status"]
  }

  function LessonColumns(): seq<string> {
    ["score_change", "letters_touched", "starting_state", "final_state", "state_transition_id", "passage_id",
     "user_message_id", "lesson_state_id"]
  }

  function Header(): seq<string> { PeopleColumns() + AnswerColumns() + LessonColumns() }

  const COLUMNS: nat := 23

  /** One row; `scoreChange` is already rounded and printed, numbers are exact integers. */
  datatype InteractionRow = InteractionRow(
    timestampIst: string, studentId: string, referredById: Option<string>, geoEntityType: Option<string>,
    geoEntityName: Option<string>, level: Option<int>, lessonType: string, content: Option<string>,
    correctAnswer: Option<string>, sarvam: Option<string>, azure: Option<string>, reverie: Option<string>,
    bodhan: Option<string>, audioDurationMs: Option<int>, answerCorrect: Option<bool>, scoreChange: Option<string>,
    lettersTouched: Option<string>, startingState: Option<string>, finalState: Option<string>,
    stateTransitionId: Option<string>, passageId: Option<string>, userMessageId: string, lessonStateId: string)

  function Text(o: Option<string>): string { if o.Some? then o.value else "" }

  function Number(o: Option<int>): string { if o.Some? then ShowInt(o.value) else "" }

  function AnswerStatus(o: Option<bool>): string {
    if o.None? then "" else if o.value then "correct" else "incorrect"
  }

  function Cells(r: InteractionRow): (c: Record)
    ensures |c| == COLUMNS
  {
    [r.timestampIst, r.studentId, Text(r.referredById), Text(r.geoEntityType), Text(r.geoEntityName), Number(r.level),
     r.lessonType, Text(r.content), Text(r.correctAnswer), Text(r.sarvam), Text(r.azure), Text(r.reverie),
       Text(r.bodhan),
     Number(r.audioDurationMs), AnswerStatus(r.answerCorrect), Text(r.scoreChange), Text(r.lettersTouched),
     Text(r.startingState), Text(r.finalState), Text(r.stateTransitionId), Text(r.passageId), r.userMessageId,
       r.lessonStateId]
  }

  /** The row's cell in the column of this name is the given one. */
  ghost predicate Under(r: InteractionRow, column: string, cell: string) {
    exists k :: 0 <= k < |Header()| && Header()[k] == column && Cells(r)[k] == cell
  }

  /** An optional field's cell: empty when there is none. */
  ghost predicate UnderIf(r: InteractionRow, column: string, field: Option<string>) {
    match field case None => Under(r, column, "") case Some(cell) => Under(r, column, cell)
  }

  lemma CellsStandUnderNames(r: InteractionRow)
    ensures |Header()| == 23 && forall k :: 0 <= k < 23 ==> Under(r, Header()[k], Cells(r)[k])
  {
    ColumnNames();
    hide Header, Cells;
  }

  lemma ColumnNames()
    ensures |Header()| == 23
    ensures Header()[0] == "timestamp_ist" && Header()[1] == "student_id" && Header()[2] == "referred_by_id"
    ensures Header()[3] == "geo_entity_type" && Header()[4] == "geo_entity_name" && Header()[5] == "level"
    ensures Header()[6] == "lesson_type"
    ensures Header()[7] == "content" && Header()[8] == "correct_answer" && Header()[9] == "sarvam_transcript"
    ensures Header()[10] == "azure_transcript" && Header()[11] == "reverie_transcript"
    ensures Header()[12] == "bodhan_transcript" && Header()[13] == "audio_duration_ms"
    ensures Header()[14] == "answer_status"
    ensures Header()[15] == "score_change" && Header()[16] == "letters_touched" && Header()[17] == "starting_state"
    ensures Header()[18] == "final_state" && Header()[19] == "state_transition_id" && Header()[20] == "passage_id"
    ensures Header()[21] == "user_message_id" && Header()[22] == "lesson_state_id"
  {
  }

  /** Each field of a row stands in the column named after it: who, where and which lesson; .. */
  lemma PeopleUnderTheirColumns(r: InteractionRow)
    ensures Under(r, "timestamp_ist", r.timestampIst) && Under(r, "student_id", r.studentId)
    ensures UnderIf(r, "referred_by_id", r.referredById)
    ensures UnderIf(r, "geo_entity_type", r.geoEntityType) && UnderIf(r, "geo_entity_name", r.geoEntityName)
    ensures r.level.Some? ==> Under(r, "level", ShowInt(r.level.value))
    ensures r.level.None? ==> Under(r, "level", "")
    ensures Under(r, "lesson_type", r.lessonType)
  {
    hide Header, ShowInt, Under;
    ColumnNames();
    CellsStandUnderNames(r);
  }

  /** .. the answer and what was heard of it; .. */
  lemma AnswersUnderTheirColumns(r: InteractionRow)
    ensures UnderIf(r, "content", r.content) && UnderIf(r, "correct_answer", r.correctAnswer)
    ensures UnderIf(r, "sarvam_transcript", r.sarvam) && UnderIf(r, "azure_transcript", r.azure)
    ensures UnderIf(r, "reverie_transcript", r.reverie) && UnderIf(r, "bodhan_transcript", r.bodhan)
    ensures r.audioDurationMs.Some? ==> Under(r, "audio_duration_ms", ShowInt(r.audioDurationMs.value))
    ensures r.audioDurationMs.None? ==> Under(r, "audio_duration_ms", "")
    ensures Under(r, "answer_status", match r.answerCorrect case None => "" case Some(true) => "correct"
                                                            case Some(false) => "incorrect")
  {
    hide Header, ShowInt, Under;
    ColumnNames();
    CellsStandUnderNames(r);
  }

  /** .. and what the lesson did. */
  lemma LessonsUnderTheirColumns(r: InteractionRow)
    ensures UnderIf(r, "score_change", r.scoreChange) && UnderIf(r, "letters_touched", r.lettersTouched)
    ensures UnderIf(r, "starting_state", r.startingState) && UnderIf(r, "final_state", r.finalState)
    ensures UnderIf(r, "state_transition_id", r.stateTransitionId) && UnderIf(r, "passage_id", r.passageId)
    ensures Under(r, "user_message_id", r.userMessageId) && Under(r, "lesson_state_id", r.lessonStateId)
  {
    hide Header, Under;
    ColumnNames();
    CellsStandUnderNames(r);
  }

  /** No two columns share a name, so a column's cell is the field's. */
  lemma ColumnsAreDistinct(k: nat, l: nat)
    requires k < l < |Header()|
    ensures Header()[k] != Header()[l]
  {
  }

  function CellRows(rows: seq<InteractionRow>): (c: seq<Record>)
    ensures |c| == |rows| && forall k :: 0 <= k < |rows| ==> |c[k]| == COLUMNS && c[k] == Cells(rows[k])
  {
    seq(|rows|, k requires 0 <= k < |rows| => Cells(rows[k]))
  }

  /** The header line is joined without escaping. */
  function Joined(cells: Record): string {
    cells[0] + (if |cells| == 1 then "" else "," + Joined(cells[1..]))
  }

  function HeaderLine(): string { CSV_BOM + Joined(Header()) + CSV_EOL }

  const FOOTER_START: string := "# export complete"

  function FooterEnd(totalRows: nat): string { " " + Show(totalRows) + " rows" }

  function FooterLine(totalRows: nat): string { FOOTER_START + "," + FooterEnd(totalRows) + CSV_EOL }

  /** A full export is the header, the rows and the footer; a truncated one stops before the footer. */
  function Export(rows: seq<InteractionRow>, finished: bool): string {
    HeaderLine() + Lines(CellRows(rows)) + (if finished then FooterLine(|rows|) else "")
  }

  function FooterRecord(totalRows: nat): seq<string> { [FOOTER_START, FooterEnd(totalRows)] }

  predicate Ordinary(cell: string) { !NeedsQuotes(cell) && !StartsFormula(cell) }

  lemma {:induction false} DigitsArePlain(n: nat)
    ensures !NeedsQuotes(Show(n))
  {
    if n >= 10 { DigitsArePlain(n / 10); }
  }

  /** Ordinary cells are printed as they are. */
  lemma {:induction false} OrdinaryLine(cells: Record)
    requires forall k :: 0 <= k < |cells| ==> Ordinary(cells[k])
    ensures Line(cells) == Joined(cells) + CSV_EOL && HardenAll(cells) == cells
    decreases |cells|
  {
    assert CsvEscape(cells[0]) == cells[0];
    if |cells| > 1 {
      OrdinaryLine(cells[1..]);
      hide CsvEscape;
      assert HardenAll(cells) == [Harden(cells[0])] + HardenAll(cells[1..]);
    }
  }

  /** A column name: lower-case letters and underscores. */
  ghost predicate Name(s: string) { forall k :: 0 <= k < |s| ==> s[k] == '_' || 'a' <= s[k] <= 'z' }

  lemma PeopleNames()
    ensures |PeopleColumns()| == 7 && forall k :: 0 <= k < 7 ==> Name(PeopleColumns()[k])
  {
  }

  lemma AnswerNames()
    ensures |AnswerColumns()| == 8 && forall k :: 0 <= k < 8 ==> Name(AnswerColumns()[k])
  {
  }

  lemma LessonNames()
    ensures |LessonColumns()| == 8 && forall k :: 0 <= k < 8 ==> Name(LessonColumns()[k])
  {
  }

  lemma NamesAreOrdinary(s: string)
    requires Name(s)
    ensures Ordinary(s)
  {
  }

  lemma HeaderIsOrdinary()
    ensures |Header()| == COLUMNS && forall k :: 0 <= k < COLUMNS ==> Ordinary(Header()[k])
  {
    PeopleNames();
    AnswerNames();
    LessonNames();
    hide PeopleColumns, AnswerColumns, LessonColumns, Name, Ordinary;
    forall k | 0 <= k < COLUMNS ensures Ordinary(Header()[k]) { NamesAreOrdinary(Header()[k]); }
  }

  lemma FooterIsOrdinary(n: nat)
    ensures Ordinary(FOOTER_START) && Ordinary(FooterEnd(n))
    ensures Line(FooterRecord(n)) == FooterLine(n) && HardenAll(FooterRecord(n)) == FooterRecord(n)
  {
    FooterCells(n);
    hide Show, Ordinary, Line, FooterEnd, Joined, HardenAll;
    var record: Record := FooterRecord(n);
    OrdinaryLine(record);
    JoinTwo(FOOTER_START, FooterEnd(n));
    assert Joined(record) + CSV_EOL == FOOTER_START + ("," + FooterEnd(n)) + CSV_EOL;
  }

  lemma FooterCells(n: nat)
    ensures Ordinary(FOOTER_START) && Ordinary(FooterEnd(n))
  {
    DigitsArePlain(n);
    hide Show;
  }

  lemma JoinTwo(a: string, b: string)
    ensures Joined([a, b]) == a + ("," + b)
  {
    assert [a, b][1..] == [b];
    assert b + "" == b;
  }

  /** The records of an export. */
  function Records(rows: seq<InteractionRow>, finished: bool): seq<seq<string>> {
    [Header()] + HardenRows(CellRows(rows)) + (if finished then [FooterRecord(|rows|)] else [])
  }

  /** The same records, as cells to print. */
  function HeaderRecord(): (r: Record)
    ensures r == Header()
  {
    HeaderIsOrdinary();
    Header()
  }

  function Footer(rows: seq<InteractionRow>, finished: bool): (r: seq<Record>)
    ensures r == if finished then [FooterRecord(|rows|)] else []
  {
    var record: Record := FooterRecord(|rows|);
    if finished then [record] else []
  }

  function Table(rows: seq<InteractionRow>, finished: bool): seq<Record> {
    [HeaderRecord()] + CellRows(rows) + Footer(rows, finished)
  }

  lemma OneLine(r: Record)
    ensures Lines([r]) == Line(r)
  {
    assert Lines([r]) == Line(r) + Lines([]);
  }

  lemma HeaderPrints()
    ensures CSV_BOM + Lines([HeaderRecord()]) == HeaderLine()
  {
    HeaderIsOrdinary();
    OrdinaryLine(HeaderRecord());
    OneLine(HeaderRecord());
    hide Header, Line, Lines, Joined, Ordinary;
  }

  lemma FooterPrints(rows: seq<InteractionRow>, finished: bool)
    ensures Lines(Footer(rows, finished)) == if finished then FooterLine(|rows|) else ""
  {
    FooterIsOrdinary(|rows|);
    hide Line, Lines, FooterRecord, FooterLine, Ordinary;
    if finished {
      OneLine(Footer(rows, finished)[0]);
      assert Footer(rows, finished) == [Footer(rows, finished)[0]];
    } else { LinesOfNone(); }
  }

  lemma ExportIsATable(rows: seq<InteractionRow>, finished: bool)
    ensures Export(rows, finished) == CSV_BOM + Lines(Table(rows, finished))
  {
    var head, middle, foot := [HeaderRecord()], CellRows(rows), Footer(rows, finished);
    hide Header, Lines, FooterLine, CellRows, Footer, HeaderRecord, HeaderLine;
    LinesAppend(head + middle, foot);
    LinesAppend(head, middle);
    HeaderPrints();
    FooterPrints(rows, finished);
    Reassociate(CSV_BOM, Lines(head), Lines(middle), Lines(foot));
  }

  lemma Reassociate(a: string, b: string, c: string, d: string)
    ensures a + (b + c + d) == a + b + c + d
  {
  }

  lemma LinesOfNone()
    ensures Lines([]) == ""
  {
  }

  lemma TableRecords(rows: seq<InteractionRow>, finished: bool)
    ensures HardenRows(Table(rows, finished)) == Records(rows, finished)
  {
    HeaderHardens();
    FooterHardens(rows, finished);
    hide Header, HeaderRecord, FooterRecord, Footer, CellRows;
    HardenRowsAppends([HeaderRecord()] + CellRows(rows), Footer(rows, finished));
    HardenRowsAppends([HeaderRecord()], CellRows(rows));
  }

  lemma HardenRowsAppends(a: seq<Record>, b: seq<Record>)
    ensures HardenRows(a + b) == HardenRows(a) + HardenRows(b)
  {
    hide HardenAll;
  }

  lemma HeaderHardens()
    ensures HardenRows([HeaderRecord()]) == [Header()]
  {
    HeaderIsOrdinary();
    OrdinaryLine(HeaderRecord());
    hide Header, Line, Joined, Ordinary, HardenAll;
  }

  lemma FooterHardens(rows: seq<InteractionRow>, finished: bool)
    ensures HardenRows(Footer(rows, finished)) == if finished then [FooterRecord(|rows|)] else []
  {
    FooterIsOrdinary(|rows|);
    hide Line, FooterRecord, FooterLine, Ordinary, HardenAll;
  }

  lemma {:induction false} LinesAppend(a: seq<Record>, b: seq<Record>)
    ensures Lines(a + b) == Lines(a) + Lines(b)
    decreases |a|
  {
    hide Line;
    if a == [] {
      assert a + b == b;
    } else {
      assert (a + b)[0] == a[0] && (a + b)[1..] == a[1..] + b;
      LinesAppend(a[1..], b);
    }
  }

  /** Behind the byte order mark, the export reads back as the header, one hardened record per row and, exactly when it
      finished, the footer record. */
  lemma ExportReadsBack(rows: seq<InteractionRow>, finished: bool)
    ensures |CSV_BOM| <= |Export(rows, finished)| && Export(rows, finished)[..|CSV_BOM|] == CSV_BOM
    ensures ReadCsv(Export(rows, finished)[|CSV_BOM|..]) == Some(Records(rows, finished))
  {
    ExportIsATable(rows, finished);
    TableRecords(rows, finished);
    PrintedTableReadsBack(Table(rows, finished));
    hide *;
    assert (CSV_BOM + Lines(Table(rows, finished)))[|CSV_BOM|..] == Lines(Table(rows, finished));
  }

  /** A reader can tell a finished export from a truncated one: no other record can equal a footer, so one is there,
      last, exactly when the export finished. */
  lemma FooterMarksCompletion(rows: seq<InteractionRow>, finished: bool, n: nat)
    ensures FooterRecord(n) in Records(rows, finished) ==> finished
    ensures finished ==>
            Records(rows, finished)[|rows| + 1] == FooterRecord(|rows|) && |Records(rows, finished)| == |rows| + 2
  {
    HeaderIsOrdinary();
    var body := [Header()] + HardenRows(CellRows(rows));
    hide Header;
    forall k | 0 <= k < |body| ensures |body[k]| == COLUMNS {
      if k > 0 { assert body[k] == HardenAll(CellRows(rows)[k - 1]); }
    }
  }
}
