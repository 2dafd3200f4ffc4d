/** The CSV writer of packages/shared/src/csv-escape.ts and a reader for
    section 2 of RFC 4180 that undoes it. */
module Csv {
  import opened JsText
  import opened Wrappers

  /** A cell: null or undefined, or the text `String(value)` gives. */
  datatype Cell = Missing | Text(text: Str)

  const QUOTE: CodeUnit := 34
  const COMMA: CodeUnit := 44
  const CR: CodeUnit := 13
  const LF: CodeUnit := 10
  const APOSTROPHE: CodeUnit := 39

  /** One of `=`, `+`, `-`, `@`. */
  predicate IsFormulaLead(c: CodeUnit) {
    c == 61 || c == 43 || c == 45 || c == 64
  }

  predicate StartsFormula(t: Str) {
    t != [] && IsFormulaLead(t[0])
  }

  // ----------------------------------------------------------------- writer

  function DoubleQuotes(t: Str): Str {
    if t == [] then []
    else (if t[0] == QUOTE then [QUOTE, QUOTE] else [t[0]]) + DoubleQuotes(t[1..])
  }

  function EscapeCell(c: Cell): Str {
    match c
    case Missing => [QUOTE, QUOTE]
    case Text(text) =>
      var guarded := if StartsFormula(text) then [APOSTROPHE] + text else text;
      [QUOTE] + DoubleQuotes(guarded) + [QUOTE]
  }

  function Join(texts: seq<Str>, sep: Str): Str {
    if texts == [] then []
    else if |texts| == 1 then texts[0]
    else texts[0] + sep + Join(texts[1..], sep)
  }

  function Escaped(cells: seq<Cell>): seq<Str> {
    seq(|cells|, i requires 0 <= i < |cells| => EscapeCell(cells[i]))
  }

  function ToRow(cells: seq<Cell>): Str {
    Join(Escaped(cells), [COMMA])
  }

  function ToRows(rows: seq<seq<Cell>>): seq<Str> {
    seq(|rows|, i requires 0 <= i < |rows| => ToRow(rows[i]))
  }

  function Grid(headers: seq<Str>, rows: seq<seq<Cell>>): seq<seq<Cell>> {
    [seq(|headers|, i requires 0 <= i < |headers| => Text(headers[i]))] + rows
  }

  function ToDocument(headers: seq<Str>, rows: seq<seq<Cell>>): Str {
    Join(ToRows(Grid(headers, rows)), [CR, LF])
  }

  // ----------------------------------------------------------------- reader

  predicate AtBreak(t: Str) {
    |t| >= 2 && t[0] == CR && t[1] == LF
  }

  /** Body of an escaped field, up to its closing quote: the field and what
      follows.  None when the quote never closes. */
  function ReadEscaped(t: Str): (r: Option<(Str, Str)>)
    ensures r.Some? ==> |r.value.1| < |t|
    decreases |t|
  {
    if t == [] then None
    else if t[0] != QUOTE then Prepend(t[0], ReadEscaped(t[1..]))
    else if |t| >= 2 && t[1] == QUOTE then Prepend(QUOTE, ReadEscaped(t[2..]))
    else Some(([], t[1..]))
  }

  function Prepend(c: CodeUnit, r: Option<(Str, Str)>): (p: Option<(Str, Str)>)
    ensures p.Some? <==> r.Some?
    ensures p.Some? ==> p.value == ([c] + r.value.0, r.value.1)
  {
    if r.None? then None else Some(([c] + r.value.0, r.value.1))
  }

  /** A non-escaped field: TEXTDATA up to a comma, a quote, CR, LF or the end. */
  function ReadBare(t: Str): (r: (Str, Str))
    ensures |r.1| <= |t|
    decreases |t|
  {
    if t == [] || t[0] in {COMMA, QUOTE, CR, LF} then ([], t)
    else var (f, rest) := ReadBare(t[1..]); ([t[0]] + f, rest)
  }

  function ReadField(t: Str): (r: Option<(Str, Str)>)
    ensures r.Some? ==> |r.value.1| <= |t|
  {
    if t != [] && t[0] == QUOTE then ReadEscaped(t[1..]) else Some(ReadBare(t))
  }

  /** One record: fields separated by commas, up to a line break or the end. */
  function ReadRecord(t: Str): (r: Option<(seq<Str>, Str)>)
    ensures r.Some? ==> r.value.0 != [] && |r.value.1| <= |t|
    decreases |t|
  {
    match ReadField(t)
    case None => None
    case Some(field) =>
      var rest := field.1;
      if rest == [] || AtBreak(rest) then Some(([field.0], rest))
      else if rest[0] == COMMA then
        match ReadRecord(rest[1..])
        case None => None
        case Some(more) => Some(([field.0] + more.0, more.1))
      else None
  }

  /** A file: records separated by CRLF; the last may end with one. */
  function ReadFile(t: Str): (r: Option<seq<seq<Str>>>)
    decreases |t|
  {
    match ReadRecord(t)
    case None => None
    case Some(first) =>
      if |first.1| <= 2 then Some([first.0])
      else
        match ReadFile(first.1[2..])
        case None => None
        case Some(more) => Some([first.0] + more)
  }

  // ------------------------------------------------------------- round trip

  /** The text a reader should recover from a cell. */
  function Guarded(c: Cell): Str {
    match c
    case Missing => []
    case Text(text) => if StartsFormula(text) then [APOSTROPHE] + text else text
  }

  function GuardedRow(cells: seq<Cell>): seq<Str> {
    seq(|cells|, i requires 0 <= i < |cells| => Guarded(cells[i]))
  }

  function GuardedGrid(rows: seq<seq<Cell>>): seq<seq<Str>> {
    seq(|rows|, i requires 0 <= i < |rows| => GuardedRow(rows[i]))
  }

  /** Recovered cells never start a formula; only cells that would are changed. */
  lemma GuardDisarms(c: Cell)
    ensures !StartsFormula(Guarded(c))
    ensures c.Text? ==> (Guarded(c) == c.text <==> !StartsFormula(c.text))
  {
    if c.Text? && StartsFormula(c.text) {
      assert |Guarded(c)| == |c.text| + 1;
    }
  }

  lemma {:induction false} EscapedReadsBack(t: Str, rest: Str)
    requires rest == [] || rest[0] != QUOTE
    ensures ReadEscaped(DoubleQuotes(t) + ([QUOTE] + rest)) == Some((t, rest))
  {
    var close := [QUOTE] + rest;
    if t == [] {
      assert DoubleQuotes(t) + close == close;
      assert close[1..] == rest;
    } else {
      EscapedReadsBack(t[1..], rest);
      var unit := if t[0] == QUOTE then [QUOTE, QUOTE] else [t[0]];
      var tail := DoubleQuotes(t[1..]) + close;
      AppendAssoc(unit, DoubleQuotes(t[1..]), close);
      assert (unit + tail)[|unit|..] == tail;
      assert t == [t[0]] + t[1..];
    }
  }

  lemma CellReadsBack(c: Cell, rest: Str)
    requires rest == [] || rest[0] != QUOTE
    ensures ReadField(EscapeCell(c) + rest) == Some((Guarded(c), rest))
  {
    var body := DoubleQuotes(Guarded(c));
    var u := body + ([QUOTE] + rest);
    assert EscapeCell(c) + rest == [QUOTE] + u by {
      assert EscapeCell(c) == [QUOTE] + body + [QUOTE];
      AppendAssoc([QUOTE] + body, [QUOTE], rest);
      AppendAssoc([QUOTE], body, [QUOTE] + rest);
    }
    assert ([QUOTE] + u)[1..] == u;
    EscapedReadsBack(Guarded(c), rest);
  }

  lemma {:induction false} RowReadsBack(cells: seq<Cell>, rest: Str)
    requires cells != [] && (rest == [] || AtBreak(rest))
    ensures ReadRecord(ToRow(cells) + rest) == Some((GuardedRow(cells), rest))
  {
    var texts := Escaped(cells);
    if |cells| == 1 {
      CellReadsBack(cells[0], rest);
      assert GuardedRow(cells) == [Guarded(cells[0])];
    } else {
      var more := cells[1..];
      assert texts[1..] == Escaped(more);
      var tail := [COMMA] + (ToRow(more) + rest);
      assert ToRow(cells) + rest == EscapeCell(cells[0]) + tail by {
        AppendAssoc(texts[0], [COMMA], ToRow(more));
        AppendAssoc(texts[0], [COMMA] + ToRow(more), rest);
        AppendAssoc([COMMA], ToRow(more), rest);
      }
      CellReadsBack(cells[0], tail);
      assert tail[1..] == ToRow(more) + rest;
      RowReadsBack(more, rest);
      assert GuardedRow(cells) == [Guarded(cells[0])] + GuardedRow(more);
    }
  }

  lemma RowStartsQuoted(cells: seq<Cell>)
    requires cells != []
    ensures ToRow(cells) != [] && |ToRow(cells)| >= 2
  {
    assert Escaped(cells)[0] == EscapeCell(cells[0]);
  }

  lemma FirstRowRead(cells: seq<Cell>, doc: Str)
    requires cells != [] && doc != []
    ensures var t := ToRow(cells) + ([CR, LF] + doc);
            ReadFile(t) == (match ReadFile(doc) case None => None case Some(more) => Some([GuardedRow(cells)] + more))
  {
    RowReadsBack(cells, [CR, LF] + doc);
    assert ([CR, LF] + doc)[2..] == doc;
    hide ToRow, GuardedRow, ReadRecord;
  }

  /** The text of several rows is the first row, a line break, and the rest. */
  lemma FileUnfolds(rows: seq<seq<Cell>>)
    requires |rows| > 1 && rows[1] != []
    ensures var doc := Join(ToRows(rows[1..]), [CR, LF]);
            doc != [] && Join(ToRows(rows), [CR, LF]) == ToRow(rows[0]) + ([CR, LF] + doc)
    ensures GuardedGrid(rows) == [GuardedRow(rows[0])] + GuardedGrid(rows[1..])
  {
    hide ToRow, GuardedRow;
    var texts, more := ToRows(rows), rows[1..];
    assert texts[1..] == ToRows(more);
    AppendAssoc(texts[0], [CR, LF], Join(ToRows(more), [CR, LF]));
    RowStartsQuoted(more[0]);
    assert ToRows(more)[0] == ToRow(more[0]);
  }

  lemma {:induction false} FileReadsBack(rows: seq<seq<Cell>>)
    requires rows != [] && forall i :: 0 <= i < |rows| ==> rows[i] != []
    ensures ReadFile(Join(ToRows(rows), [CR, LF])) == Some(GuardedGrid(rows))
  {
    if |rows| == 1 {
      RowReadsBack(rows[0], []);
      assert ToRow(rows[0]) + [] == ToRow(rows[0]);
      assert GuardedGrid(rows) == [GuardedRow(rows[0])];
    } else {
      FileUnfolds(rows);
      FirstRowRead(rows[0], Join(ToRows(rows[1..]), [CR, LF]));
      FileReadsBack(rows[1..]);
      hide ReadFile, Join, GuardedGrid;
    }
  }

  lemma {:induction false} ReadRowsNonEmpty(t: Str)
    ensures ReadFile(t).Some? ==> forall i :: 0 <= i < |ReadFile(t).value| ==> ReadFile(t).value[i] != []
    decreases |t|
  {
    var first := ReadRecord(t);
    if first.Some? && |first.value.1| > 2 {
      ReadRowsNonEmpty(first.value.1[2..]);
    }
  }

  /** A reader of section 2 of RFC 4180 recovers the grid of guarded cell
      texts exactly when every row, the header row included, has a cell. */
  lemma DocumentReadsBack(headers: seq<Str>, rows: seq<seq<Cell>>)
    ensures ReadFile(ToDocument(headers, rows)) == Some(GuardedGrid(Grid(headers, rows)))
       <==> headers != [] && forall i :: 0 <= i < |rows| ==> rows[i] != []
  {
    var grid := Grid(headers, rows);
    assert grid[1..] == rows;
    if headers != [] && forall i :: 0 <= i < |rows| ==> rows[i] != [] {
      assert forall i :: 0 <= i < |grid| ==> grid[i] != [] by {
        forall i | 0 < i < |grid| ensures grid[i] != [] { assert grid[i] == rows[i - 1]; }
      }
      FileReadsBack(grid);
    } else {
      ReadRowsNonEmpty(ToDocument(headers, rows));
      var k := if headers == [] then 0 else
        var i :| 0 <= i < |rows| && rows[i] == []; i + 1;
      assert GuardedGrid(grid)[k] == [];
    }
  }

  /** A header and one row without cells: the row cannot be told from a row
      with one empty unquoted cell. */
  lemma EmptyRowIsLost()
    ensures ReadFile(ToDocument([[65]], [[]])) != Some(GuardedGrid(Grid([[65]], [[]])))
  {
    var rows: seq<seq<Cell>> := [[]];
    assert rows[0] == [];
    DocumentReadsBack([[65]], rows);
  }

  lemma EscapeDependsOnGuarded(c: Cell)
    ensures EscapeCell(c) == [QUOTE] + DoubleQuotes(Guarded(c)) + [QUOTE]
  {
  }

  lemma RowDependsOnGuarded(a: seq<Cell>, b: seq<Cell>)
    requires GuardedRow(a) == GuardedRow(b)
    ensures ToRow(a) == ToRow(b)
  {
    assert |a| == |GuardedRow(a)| == |b|;
    assert Escaped(a) == Escaped(b) by {
      forall i | 0 <= i < |a| ensures EscapeCell(a[i]) == EscapeCell(b[i]) {
        assert GuardedRow(a)[i] == GuardedRow(b)[i];
        EscapeDependsOnGuarded(a[i]);
        EscapeDependsOnGuarded(b[i]);
      }
    }
  }

  /** Two documents with a cell in every row are the same text exactly when
      their guarded grids agree: the guard is all that the format loses. */
  lemma DocumentsEqualExactlyOnGuardedGrids(h1: seq<Str>, r1: seq<seq<Cell>>, h2: seq<Str>, r2: seq<seq<Cell>>)
    requires h1 != [] && h2 != []
    requires forall i :: 0 <= i < |r1| ==> r1[i] != []
    requires forall i :: 0 <= i < |r2| ==> r2[i] != []
    ensures ToDocument(h1, r1) == ToDocument(h2, r2)
       <==> GuardedGrid(Grid(h1, r1)) == GuardedGrid(Grid(h2, r2))
  {
    var g1, g2 := Grid(h1, r1), Grid(h2, r2);
    DocumentReadsBack(h1, r1);
    DocumentReadsBack(h2, r2);
    if GuardedGrid(g1) == GuardedGrid(g2) {
      assert |g1| == |GuardedGrid(g1)| == |g2|;
      assert ToRows(g1) == ToRows(g2) by {
        forall i | 0 <= i < |g1| ensures ToRow(g1[i]) == ToRow(g2[i]) {
          assert GuardedGrid(g1)[i] == GuardedGrid(g2)[i];
          RowDependsOnGuarded(g1[i], g2[i]);
        }
      }
    }
  }

  /** A cell that is read back: nothing for a missing value, else its text, with
      an apostrophe in front exactly when it starts with one of `=+-@`. */
  lemma ReadsBackExactly(c: Cell, rest: Str)
    requires rest == [] || rest[0] != Ascii("\"")[0]
    ensures ReadField(EscapeCell(c) + rest) ==
      Some((match c
            case Missing => []
            case Text(t) => if t != [] && t[0] in Ascii("=+-@") then Ascii("'") + t else t,
            rest))
  {
    LeadsSpelled();
    CellReadsBack(c, rest);
  }

  lemma LeadsSpelled()
    ensures forall c :: IsFormulaLead(c) <==> c in Ascii("=+-@")
    ensures Ascii("'") == [APOSTROPHE] && Ascii("\"")[0] == QUOTE
  {
    var leads := Ascii("=+-@");
    assert leads == [61, 43, 45, 64];
  }

  const HEADINGS: seq<Str> := [Ascii("a"), Ascii("b")]
  const CELLS: seq<Cell> := [Text(Ascii("=1")), Text(Ascii("x\"y"))]

  lemma GridSpelled()
    ensures ToRows(Grid(HEADINGS, [CELLS])) == [ToRow([Text([97]), Text([98])]), ToRow(CELLS)]
  {
    hide ToRow;
    assert Ascii("a") == [97] && Ascii("b") == [98];
    var grid := Grid(HEADINGS, [CELLS]);
    assert grid[0] == [Text([97]), Text([98])] && grid[1..] == [CELLS];
    assert grid == [[Text([97]), Text([98])], CELLS];
  }

  lemma TwoLines(a: Str, b: Str)
    ensures Join([a, b], [CR, LF]) == a + [13, 10] + b
  {
  }

  /** Two cells under two headings, to the letter. */
  lemma DocumentSpelled()
    ensures ToDocument(HEADINGS, [CELLS]) == Ascii("\"a\",\"b\"\r\n\"'=1\",\"x\"\"y\"")
  {
    HeadingsSpelled();
    CellsSpelled();
    GridSpelled();
    TwoLines(ToRow([Text([97]), Text([98])]), ToRow(CELLS));
    hide ToRow, ToRows, Grid, Join;
  }

  lemma HeadingsSpelled()
    ensures ToRow([Text([97]), Text([98])]) == [34, 97, 34, 44, 34, 98, 34]
  {
    PlainCell(97);
    PlainCell(98);
    RowOfTwo(Text([97]), Text([98]));
    hide EscapeCell, ToRow;
  }

  lemma FormulaCell()
    ensures EscapeCell(Text([61, 49])) == [34, 39, 61, 49, 34]
  {
    assert DoubleQuotes([49]) == [49] && DoubleQuotes([61, 49]) == [61, 49] && DoubleQuotes([39, 61, 49]) == [39, 61, 49];
  }

  lemma QuotedCell()
    ensures EscapeCell(Text([120, 34, 121])) == [34, 120, 34, 34, 121, 34]
  {
    assert DoubleQuotes([121]) == [121] && DoubleQuotes([34, 121]) == [34, 34, 121];
  }

  lemma CellsSpelled()
    ensures ToRow(CELLS) == [34, 39, 61, 49, 34, 44, 34, 120, 34, 34, 121, 34]
  {
    assert Ascii("=1") == [61, 49] && Ascii("x\"y") == [120, 34, 121];
    FormulaCell();
    QuotedCell();
    RowOfTwo(CELLS[0], CELLS[1]);
    hide EscapeCell, ToRow;
  }

  lemma PlainCell(c: CodeUnit)
    requires !IsFormulaLead(c) && c != QUOTE
    ensures EscapeCell(Text([c])) == [34, c, 34]
  {
    assert DoubleQuotes([c]) == [c];
  }

  lemma RowOfTwo(a: Cell, b: Cell)
    ensures ToRow([a, b]) == EscapeCell(a) + [44] + EscapeCell(b)
  {
    hide EscapeCell;
    assert Escaped([a, b]) == [EscapeCell(a), EscapeCell(b)];
    assert Join([EscapeCell(b)], [COMMA]) == EscapeCell(b);
  }
}
