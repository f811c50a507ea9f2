/** CSV export (src/lib/csv.ts) and the reader that section 2 of RFC 4180 describes. */
module Csv {
  import opened Wrappers

  /** A number cell carries its JavaScript text. */
  datatype Cell = Text(text: string) | Number(text: string) | Missing

  // ----- printing -----

  /** The characters `trimStart` removes. */
  predicate IsSpace(c: char) {
    || c in {'\t', '\n', '\r', ' ', '\U{000B}', '\U{000C}', '\U{00A0}', '\U{1680}', '\U{2028}', '\U{2029}',
             '\U{202F}', '\U{205F}', '\U{3000}', '\U{FEFF}'}
    || '\U{2000}' <= c <= '\U{200A}'
  }

  function TrimStart(s: string): string {
    if s != [] && IsSpace(s[0]) then TrimStart(s[1..]) else s
  }

  /** An ASCII or full-width formula marker. */
  predicate IsMarker(c: char) {
    c in {'=', '+', '-', '@', '\U{FF1D}', '\U{FF0B}', '\U{FF0D}', '\U{FF20}'}
  }

  predicate IsControl(c: char) {
    c <= '\U{001F}' || c == '\U{007F}'
  }

  predicate UnsafeText(s: string) {
    var prefix := TrimStart(s);
    || (prefix != [] && (IsMarker(prefix[0]) || IsControl(prefix[0])))
    || (s != [] && IsControl(s[0]))
  }

  predicate Unsafe(cell: Cell) {
    cell.Text? && UnsafeText(cell.text)
  }

  function Raw(cell: Cell): string {
    if cell.Missing? then "" else cell.text
  }

  /** The text of a cell as a reader should recover it: an unsafe string gets one apostrophe. */
  function CellText(cell: Cell): string {
    if Unsafe(cell) then "'" + Raw(cell) else Raw(cell)
  }

  predicate NeedsQuotes(s: string) {
    exists i :: 0 <= i < |s| && s[i] in {'"', ',', '\n', '\r'}
  }

  /** `replaceAll('"', '""')`. */
  function DoubleQuotes(s: string): string {
    if s == [] then [] else (if s[0] == '"' then "\"\"" else [s[0]]) + DoubleQuotes(s[1..])
  }

  function Field(cell: Cell): string {
    var text := CellText(cell);
    if Unsafe(cell) || NeedsQuotes(text) then ['"'] + DoubleQuotes(text) + ['"'] else text
  }

  function Row(cells: seq<Cell>): string {
    var n := |cells| - 1;
    if n < 0 then "" else if n == 0 then Field(cells[0]) else Row(cells[..n]) + "," + Field(cells[n])
  }

  function ToCsv(rows: seq<seq<Cell>>): string {
    var n := |rows| - 1;
    if n < 0 then "" else if n == 0 then Row(rows[0]) else ToCsv(rows[..n]) + "\r\n" + Row(rows[n])
  }

  predicate NonEmptyRows(rows: seq<seq<Cell>>) {
    rows != [] && forall i :: 0 <= i < |rows| ==> rows[i] != []
  }

  // ----- reading -----

  /** Where the reader is within a field. */
  datatype Mode = AtStart | Plain | Quoted | QuoteSeen | CarriageReturn

  datatype Reader = Reader(mode: Mode, rows: seq<seq<string>>, row: seq<string>, field: string)

  const FRESH := Reader(AtStart, [], [], "")

  function EndField(r: Reader): Reader {
    r.(mode := AtStart, row := r.row + [r.field], field := "")
  }

  function EndRow(r: Reader): Reader {
    Reader(AtStart, r.rows + [r.row + [r.field]], [], "")
  }

  /** One character, by the RFC's grammar. */
  function Read(r: Reader, c: char): Option<Reader> {
    match r.mode
    case Quoted => if c == '"' then Some(r.(mode := QuoteSeen)) else Some(r.(field := r.field + [c]))
    case CarriageReturn => if c == '\n' then Some(EndRow(r)) else None
    case _ =>
      if c == ',' then Some(EndField(r))
      else if c == '\r' then Some(r.(mode := CarriageReturn))
      else if r.mode == QuoteSeen then if c == '"' then Some(r.(mode := Quoted, field := r.field + [c])) else None
      else if r.mode == AtStart && c == '"' then Some(r.(mode := Quoted))
      else if c == '"' || c == '\n' then None
      else Some(r.(mode := Plain, field := r.field + [c]))
  }

  function ReadAll(r: Reader, text: string): Option<Reader> {
    if text == [] then Some(r)
    else
      match ReadAll(r, text[..|text| - 1])
      case None => None
      case Some(s) => Read(s, text[|text| - 1])
  }

  predicate FieldDone(mode: Mode) {
    mode == AtStart || mode == Plain || mode == QuoteSeen
  }

  /** The records of a text whose last record has no line break after it. */
  function ParseUnterminated(text: string): Option<seq<seq<string>>> {
    match ReadAll(FRESH, text)
    case None => None
    case Some(r) => if FieldDone(r.mode) then Some(EndRow(r).rows) else None
  }

  predicate EndsWithLineBreak(text: string) {
    |text| >= 2 && text[|text| - 2] == '\r' && text[|text| - 1] == '\n'
  }

  /** The records of a file: the last one may or may not have an ending line break. */
  function Parse(text: string): Option<seq<seq<string>>> {
    ParseUnterminated(if EndsWithLineBreak(text) then text[..|text| - 2] else text)
  }

  // ----- round trip -----

  function TextsOf(cells: seq<Cell>): (r: seq<string>)
    ensures |r| == |cells|
    ensures forall i :: 0 <= i < |cells| ==> r[i] == CellText(cells[i])
  {
    if cells == [] then [] else TextsOf(cells[..|cells| - 1]) + [CellText(cells[|cells| - 1])]
  }

  function Texts(rows: seq<seq<Cell>>): (r: seq<seq<string>>)
    ensures |r| == |rows|
    ensures forall i :: 0 <= i < |rows| ==> r[i] == TextsOf(rows[i])
  {
    if rows == [] then [] else Texts(rows[..|rows| - 1]) + [TextsOf(rows[|rows| - 1])]
  }

  lemma {:induction false} ReadAppend(r: Reader, a: string, b: string)
    ensures ReadAll(r, a + b) == match ReadAll(r, a) case None => None case Some(s) => ReadAll(s, b)
  {
    if b == [] {
      assert a + b == a;
    } else {
      assert (a + b)[..|a + b| - 1] == a + b[..|b| - 1];
      ReadAppend(r, a, b[..|b| - 1]);
    }
  }

  lemma ReadOne(r: Reader, c: char)
    ensures ReadAll(r, [c]) == Read(r, c)
  {
    assert [c][..0] == [];
  }

  lemma {:induction false} ReadDoubled(r: Reader, text: string)
    requires r.mode == Quoted
    ensures ReadAll(r, DoubleQuotes(text)) == Some(r.(field := r.field + text))
    decreases text
  {
    if text == [] {
      assert r.field + text == r.field;
    } else {
      var next := r.(field := r.field + [text[0]]);
      ReadDoubled(next, text[1..]);
      assert r.field + text == next.field + text[1..];
      if text[0] == '"' {
        ReadOne(r, '"');
        ReadOne(r.(mode := QuoteSeen), '"');
        ReadAppend(r, ['"'], ['"']);
        assert "\"\"" == ['"'] + ['"'];
        ReadAppend(r, "\"\"", DoubleQuotes(text[1..]));
      } else {
        ReadOne(r, text[0]);
        ReadAppend(r, [text[0]], DoubleQuotes(text[1..]));
      }
    }
  }

  lemma UnquotedFront(text: string, n: nat)
    requires !NeedsQuotes(text) && n + 1 == |text|
    ensures !NeedsQuotes(text[..n]) && text[n] !in {'"', ',', '\n', '\r'} && text == text[..n] + [text[n]]
  {
    assert forall i :: 0 <= i < n ==> text[..n][i] == text[i];
  }

  lemma {:induction false} ReadUnquoted(r: Reader, text: string)
    requires r.mode == AtStart && r.field == "" && !NeedsQuotes(text)
    ensures ReadAll(r, text) == Some(r.(mode := if text == [] then AtStart else Plain, field := text))
  {
    if text != [] {
      var n := |text| - 1;
      UnquotedFront(text, n);
      ReadUnquoted(r, text[..n]);
    }
  }

  /** A printed cell reads back as its text. */
  lemma ReadField(r: Reader, cell: Cell)
    requires r.mode == AtStart && r.field == ""
    ensures ReadAll(r, Field(cell)).Some?
    ensures FieldDone(ReadAll(r, Field(cell)).value.mode)
    ensures ReadAll(r, Field(cell)).value.(mode := AtStart) == r.(field := CellText(cell))
  {
    var text := CellText(cell);
    if Unsafe(cell) || NeedsQuotes(text) { ReadQuoted(r, text); } else { ReadUnquoted(r, text); }
  }

  lemma ReadQuoted(r: Reader, text: string)
    requires r.mode == AtStart && r.field == ""
    ensures ReadAll(r, ['"'] + DoubleQuotes(text) + ['"']) == Some(r.(mode := QuoteSeen, field := text))
  {
    var inside := r.(mode := Quoted);
    assert inside.field + text == text;
    ReadOne(r, '"');
    ReadAppend(r, ['"'], DoubleQuotes(text));
    ReadDoubled(inside, text);
    ReadOne(inside.(field := text), '"');
    ReadAppend(r, ['"'] + DoubleQuotes(text), ['"']);
  }

  lemma {:induction false} ReadRow(r: Reader, cells: seq<Cell>)
    requires cells != [] && r.mode == AtStart && r.field == "" && r.row == []
    ensures ReadAll(r, Row(cells)).Some?
    ensures FieldDone(ReadAll(r, Row(cells)).value.mode)
    ensures ReadAll(r, Row(cells)).value.(mode := AtStart)
            == r.(row := TextsOf(cells[..|cells| - 1]), field := CellText(cells[|cells| - 1]))
  {
    var n := |cells| - 1;
    if n == 0 {
      ReadField(r, cells[0]);
      assert cells[..0] == [];
    } else {
      var front := cells[..n];
      ReadRow(r, front);
      var s := ReadAll(r, Row(front)).value;
      ReadOne(s, ',');
      ReadAppend(r, Row(front), ",");
      var t := EndField(s);
      ReadField(t, cells[n]);
      ReadAppend(r, Row(front) + ",", Field(cells[n]));
      assert TextsOf(front) == TextsOf(front[..n - 1]) + [CellText(front[n - 1])];
    }
  }

  lemma {:induction false} ReadTable(rows: seq<seq<Cell>>)
    requires NonEmptyRows(rows)
    ensures ReadAll(FRESH, ToCsv(rows)).Some?
    ensures FieldDone(ReadAll(FRESH, ToCsv(rows)).value.mode)
    ensures EndRow(ReadAll(FRESH, ToCsv(rows)).value).rows == Texts(rows)
  {
    var n := |rows| - 1;
    if n == 0 {
      ReadRow(FRESH, rows[0]);
      assert rows[..0] == [];
    } else {
      ReadTable(rows[..n]);
      var s := ReadAll(FRESH, ToCsv(rows[..n])).value;
      ReadLineBreak(s);
      ReadAppend(FRESH, ToCsv(rows[..n]), "\r\n");
      var t := EndRow(s);
      ReadRow(t, rows[n]);
      ReadAppend(FRESH, ToCsv(rows[..n]) + "\r\n", Row(rows[n]));
    }
  }

  lemma ReadLineBreak(r: Reader)
    requires FieldDone(r.mode)
    ensures ReadAll(r, "\r\n") == Some(EndRow(r))
  {
    ReadOne(r, '\r');
    assert "\r\n"[..1] == ['\r'];
  }

  /** Without a final line break the table reads back exactly, cell by cell. */
  lemma UnterminatedRoundTrip(rows: seq<seq<Cell>>)
    requires NonEmptyRows(rows)
    ensures ParseUnterminated(ToCsv(rows)) == Some(Texts(rows))
  {
    ReadTable(rows);
  }

  /** A row that prints as nothing. */
  predicate BlankRow(cells: seq<Cell>) {
    |cells| == 1 && CellText(cells[0]) == ""
  }

  lemma FieldEnd(cell: Cell)
    ensures Field(cell) == "" <==> CellText(cell) == ""
    ensures Field(cell) != "" ==> Field(cell)[|Field(cell)| - 1] != '\n'
  {
    var text := CellText(cell);
    if !(Unsafe(cell) || NeedsQuotes(text)) && text != "" {
      assert text[|text| - 1] !in {'"', ',', '\n', '\r'};
    }
  }

  lemma RowEnd(cells: seq<Cell>)
    requires cells != []
    ensures Row(cells) == "" <==> BlankRow(cells)
    ensures Row(cells) != "" ==> Row(cells)[|Row(cells)| - 1] != '\n'
  {
    FieldEnd(cells[|cells| - 1]);
  }

  lemma TextsSplit(rows: seq<seq<Cell>>)
    requires |rows| > 1
    ensures |Texts(rows[..|rows| - 1])| < |Texts(rows)|
  {
  }

  lemma BlankLastRow(rows: seq<seq<Cell>>)
    requires NonEmptyRows(rows) && |rows| > 1 && BlankRow(rows[|rows| - 1])
    ensures Parse(ToCsv(rows)) == Some(Texts(rows[..|rows| - 1]))
  {
    var n := |rows| - 1;
    var text, front := ToCsv(rows), ToCsv(rows[..n]);
    RowEnd(rows[n]);
    assert text == front + "\r\n" + "";
    assert text == front + "\r\n";
    assert text[..|text| - 2] == front;
    UnterminatedRoundTrip(rows[..n]);
  }

  lemma PrintedLastRow(rows: seq<seq<Cell>>)
    requires NonEmptyRows(rows) && (|rows| == 1 || !BlankRow(rows[|rows| - 1]))
    ensures !EndsWithLineBreak(ToCsv(rows))
  {
    var n := |rows| - 1;
    var text, last := ToCsv(rows), Row(rows[n]);
    RowEnd(rows[n]);
    if last != "" {
      assert text[|text| - 1] == last[|last| - 1];
    }
  }

  /** A reader that accepts the optional final line break recovers the table unless its last row
      is a single blank cell below another row, which then reads as that line break. */
  lemma RoundTrip(rows: seq<seq<Cell>>)
    requires NonEmptyRows(rows)
    ensures Parse(ToCsv(rows)) == Some(Texts(rows)) <==> !(|rows| > 1 && BlankRow(rows[|rows| - 1]))
  {
    if |rows| > 1 && BlankRow(rows[|rows| - 1]) {
      BlankLastRow(rows);
      TextsSplit(rows);
    } else {
      PrintedLastRow(rows);
      UnterminatedRoundTrip(rows);
    }
  }

  /** No exported string cell is one the export would still call unsafe. */
  lemma ExportedTextIsSafe(cell: Cell)
    requires cell.Text?
    ensures !UnsafeText(CellText(cell))
    ensures CellText(cell) == cell.text || CellText(cell) == "'" + cell.text
    ensures CellText(cell) != cell.text <==> UnsafeText(cell.text)
  {
    if Unsafe(cell) {
      assert CellText(cell)[0] == '\'';
      assert |CellText(cell)| == |cell.text| + 1;
    }
  }

  // ----- which strings are unsafe -----

  /** The white space and line terminators of ECMAScript. */
  const BLANKS := "\t\n\r \U{000B}\U{000C}\U{00A0}\U{1680}\U{2000}\U{2001}\U{2002}\U{2003}\U{2004}\U{2005}\U{2006}"
                  + "\U{2007}\U{2008}\U{2009}\U{200A}\U{2028}\U{2029}\U{202F}\U{205F}\U{3000}\U{FEFF}"

  /** The formula markers, ASCII and full-width. */
  const MARKERS := "=+-@\U{FF1D}\U{FF0B}\U{FF0D}\U{FF20}"

  predicate Control(c: char) {
    c as int <= 0x1f || c as int == 0x7f
  }

  /** After `n` blanks stands a formula marker or a control character. */
  predicate FormulaAfter(s: string, n: int) {
    && 0 <= n < |s| && (forall i :: 0 <= i < n ==> s[i] in BLANKS)
    && s[n] !in BLANKS && (s[n] in MARKERS || Control(s[n]))
  }

  lemma SpaceIsBlank(c: char)
    ensures IsSpace(c) <==> c in BLANKS
  {
    if '\U{2000}' <= c <= '\U{200A}' {
      assert BLANKS[8 + (c as int - 0x2000)] == c;
    }
    if IsSpace(c) && !('\U{2000}' <= c <= '\U{200A}') { ListedSpace(c); }
  }

  lemma ListedSpace(c: char)
    requires c in {'\t', '\n', '\r', ' ', '\U{000B}', '\U{000C}', '\U{00A0}', '\U{1680}', '\U{2028}', '\U{2029}',
                   '\U{202F}', '\U{205F}', '\U{3000}', '\U{FEFF}'}
    ensures c in BLANKS
  {
    assert BLANKS[0] == '\t' && BLANKS[1] == '\n' && BLANKS[2] == '\r' && BLANKS[3] == ' ';
    assert BLANKS[4] == '\U{000B}' && BLANKS[5] == '\U{000C}' && BLANKS[6] == '\U{00A0}' && BLANKS[7] == '\U{1680}';
    assert BLANKS[19] == '\U{2028}' && BLANKS[20] == '\U{2029}' && BLANKS[21] == '\U{202F}' && BLANKS[22] == '\U{205F}';
    assert BLANKS[23] == '\U{3000}' && BLANKS[24] == '\U{FEFF}';
  }

  /** Trimming removes exactly the blanks at the start. */
  lemma {:induction false} Trimmed(s: string) returns (n: nat)
    ensures n <= |s| && TrimStart(s) == s[n..] && (forall i :: 0 <= i < n ==> s[i] in BLANKS)
    ensures n < |s| ==> s[n] !in BLANKS
  {
    if s == [] {
      n := 0;
    } else {
      SpaceIsBlank(s[0]);
      if IsSpace(s[0]) {
        var k := Trimmed(s[1..]);
        n := k + 1;
        assert s[1..][k..] == s[n..];
        assert forall i :: 1 <= i < n ==> s[i] == s[1..][i - 1];
      } else {
        n := 0;
      }
    }
  }

  /** A string is unsafe exactly when it starts with a control character, or when a formula marker
      or a control character is the first thing in it that is not blank. */
  lemma UnsafeIff(s: string)
    ensures UnsafeText(s) <==> (s != [] && Control(s[0])) || exists n :: FormulaAfter(s, n)
  {
    var n := Trimmed(s);
    assert n < |s| ==> (FormulaAfter(s, n) <==> IsMarker(s[n]) || IsControl(s[n])) by {
      if n < |s| { MarkerListed(s[n]); }
    }
    forall k | FormulaAfter(s, k) ensures k == n { }
  }

  lemma MarkerListed(c: char)
    ensures IsMarker(c) <==> c in MARKERS
  {
    assert MARKERS[0] == '=' && MARKERS[1] == '+' && MARKERS[2] == '-' && MARKERS[3] == '@';
    assert MARKERS[4] == '\U{FF1D}' && MARKERS[5] == '\U{FF0B}' && MARKERS[6] == '\U{FF0D}' && MARKERS[7] == '\U{FF20}';
  }

  /** Exactly the unsafe cells and those with a quote, a comma or a line break are quoted; a
      number is never changed into text. */
  lemma QuotedIff(cell: Cell)
    ensures cell.Text? && UnsafeText(cell.text) ==> Field(cell) == "\"'" + DoubleQuotes(cell.text) + "\""
    ensures !(cell.Text? && UnsafeText(cell.text)) ==>
              var text := if cell.Missing? then "" else cell.text;
              Field(cell) == if exists i :: 0 <= i < |text| && text[i] in "\",\n\r" then "\"" + DoubleQuotes(text) + "\"" else text
  {
    var text := if cell.Missing? then "" else cell.text;
    assert forall c: char :: c in {'"', ',', '\n', '\r'} <==> c in "\",\n\r";
    if Unsafe(cell) {
      assert ("'" + cell.text)[1..] == cell.text;
      assert ['"'] + ("'" + DoubleQuotes(cell.text)) + ['"'] == "\"'" + DoubleQuotes(cell.text) + "\"";
    }
  }

  // ----- how the pieces are joined -----

  lemma Regrouped(a: string, b: string, c: string, separator: string)
    ensures (a + separator + b) + separator + c == a + separator + (b + separator + c)
  {
  }

  lemma LastSplit<T>(left: seq<T>, right: seq<T>)
    requires right != []
    ensures var n := |right| - 1; right == right[..n] + [right[n]] && left + right == (left + right[..n]) + [right[n]]
  {
  }

  lemma CellAdded(cells: seq<Cell>, cell: Cell)
    ensures Row(cells + [cell]) == if cells == [] then Field(cell) else Row(cells) + "," + Field(cell)
  {
    assert (cells + [cell])[..|cells|] == cells;
  }

  /** Cells are separated by one comma. */
  lemma {:induction false} CellsJoin(left: seq<Cell>, right: seq<Cell>)
    requires left != [] && right != []
    ensures Row(left + right) == Row(left) + "," + Row(right)
  {
    var front, cell := right[..|right| - 1], right[|right| - 1];
    LastSplit(left, right);
    CellAdded(left + front, cell);
    CellAdded(front, cell);
    if front == [] {
      assert left + front == left;
    } else {
      CellsJoin(left, front);
      Regrouped(Row(left), Row(front), Field(cell), ",");
    }
  }

  lemma RecordAdded(rows: seq<seq<Cell>>, row: seq<Cell>)
    ensures ToCsv(rows + [row]) == if rows == [] then Row(row) else ToCsv(rows) + "\r\n" + Row(row)
  {
    assert (rows + [row])[..|rows|] == rows;
  }

  /** Records are separated by one carriage return and line feed. */
  lemma {:induction false} RecordsJoin(above: seq<seq<Cell>>, below: seq<seq<Cell>>)
    requires above != [] && below != []
    ensures ToCsv(above + below) == ToCsv(above) + "\r\n" + ToCsv(below)
  {
    var front, row := below[..|below| - 1], below[|below| - 1];
    LastSplit(above, below);
    RecordAdded(above + front, row);
    RecordAdded(front, row);
    if front == [] {
      assert above + front == above;
    } else {
      RecordsJoin(above, front);
      Regrouped(ToCsv(above), ToCsv(front), Row(row), "\r\n");
    }
  }
}
