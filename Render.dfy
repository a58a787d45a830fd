/** `get_html`: the line-classifying renderer. The output is the fixed `<div>` opener, the
    fragments emitted line by line, `</table>` when a table was opened, and `</div>`.
    `Fold` is the state machine as a left fold over the lines, producing the flags and
    the fragments (`Piece`s) emitted so far; `GetHtml` is the loop that builds the string. */
module Render {
  import opened Text
  import opened Escape
  import opened Links
  import opened Rows

  const DivOpen: string := "<div style=\"max-width: 1000px; padding: 15px; margin: 0 auto; height: 100%; display: flex; flex-direction: column; justify-content: center; overflow-x: auto;\">"
  const DivClose: string := "</div>"
  const TableOpenTag: string := "<table style='border-collapse: collapse; width: 100%;'>"
  const TableCloseTag: string := "</table>"
  const ThOpen: string := "<th style='border: 1px solid black; padding: 5px; text-align: left;'>"
  const ThClose: string := "</th>"
  const TdOpen: string := "<td style='border: 1px solid black; padding: 5px;'>"
  const TdClose: string := "</td>"
  const POpen: string := "<p style=\"margin-bottom: 10px;\">"
  const PClose: string := "</p>"

  /** One fragment appended to `html_output`. Each holds the text of the line it is built
      from, before escaping; `PieceHtml` gives its markup. */
  datatype Piece =
    | TableOpen
    | TableClose
    | HeaderRow(line: string)
    | DataRow(line: string)
    | Heading(level: nat, text: string)
    | Strong(text: string)
    | ListOpen
    | ListClose
    | Item(text: string)
    | Para(text: string)

  /** The opening and closing tags of a heading, `<h2>` ... `<h6>`. */
  function HeadingOpen(level: nat): string {
    match level
    case 2 => "<h2>"
    case 3 => "<h3>"
    case 4 => "<h4>"
    case 5 => "<h5>"
    case _ => "<h6>"
  }

  function HeadingClose(level: nat): string {
    match level
    case 2 => "</h2>"
    case 3 => "</h3>"
    case 4 => "</h4>"
    case 5 => "</h5>"
    case _ => "</h6>"
  }

  /** `open + cell + close` for each cell, in order. */
  function CellsHtml(open: string, close: string, cells: seq<string>): string {
    if cells == [] then []
    else CellsHtml(open, close, cells[..|cells| - 1]) + (open + cells[|cells| - 1] + close)
  }

  function PieceHtml(p: Piece): string {
    match p
    case TableOpen => TableOpenTag
    case TableClose => TableCloseTag
    case HeaderRow(line) => "<tr>" + CellsHtml(ThOpen, ThClose, HeaderCells(line)) + "</tr>"
    case DataRow(line) => "<tr>" + CellsHtml(TdOpen, TdClose, DataCells(line)) + "</tr>"
    case Heading(level, text) => HeadingOpen(level) + EscapeHtml(text) + HeadingClose(level)
    case Strong(text) => "<strong>" + EscapeHtml(text) + "</strong>"
    case ListOpen => "<ul>"
    case ListClose => "</ul>"
    case Item(text) => "<li>" + EscapeHtml(text) + "</li>"
    case Para(text) => POpen + HandleLinks(EscapeHtml(text)) + PClose
  }

  /** The markup of a sequence of fragments: their concatenation. */
  function Html(ps: seq<Piece>): string {
    if ps == [] then [] else Html(ps[..|ps| - 1]) + PieceHtml(ps[|ps| - 1])
  }

  /** `escape_html` of every cell. */
  function EscapeAll(cells: seq<string>): (r: seq<string>)
    ensures |r| == |cells| && forall k | 0 <= k < |r| :: r[k] == EscapeHtml(cells[k])
  {
    seq(|cells|, k requires 0 <= k < |cells| => EscapeHtml(cells[k]))
  }

  /** The cells of a header row: every segment, stripped and escaped. */
  function HeaderCells(line: string): seq<string> {
    EscapeAll(Segments(line))
  }

  /** The cells of a data row: the segments not empty once stripped, escaped. */
  function DataCells(line: string): seq<string> {
    EscapeAll(RowCells(line))
  }

  /** What the `if`/`elif` chain makes of one stripped line, first match winning. */
  datatype LineKind =
    | Blank
    | TableLine(line: string)
    | HeadingLine(level: nat, rest: string)
    | BoldLine(inner: string)
    | ListLine(rest: string)
    | ParaLine(line: string)

  function Classify(raw: string): LineKind {
    var line := Strip(raw);
    if line == [] then Blank
    else if '|' in line then TableLine(line)
    else if StartsWith(line, "# ") then HeadingLine(2, line[2..])
    else if StartsWith(line, "## ") then HeadingLine(3, line[3..])
    else if StartsWith(line, "### ") then HeadingLine(4, line[4..])
    else if StartsWith(line, "#### ") then HeadingLine(5, line[5..])
    else if StartsWith(line, "##### ") then HeadingLine(6, line[6..])
    else if StartsWith(line, "**") && EndsWith(line, "**") then BoldLine(TrimTwo(line))
    else if StartsWith(line, "* ") then ListLine(line[2..])
    else ParaLine(line)
  }

  /** The rendering state: the two flags `list_open` and `table_open`. */
  datatype Flags = Flags(listOpen: bool, tableOpen: bool)

  const Start: Flags := Flags(false, false)

  /** The row a table line emits: one `<th>` per segment, empty ones included, when the line
      holds a `-`; otherwise one `<td>` per non-empty segment. */
  function TableRow(line: string): Piece {
    if '-' in line then HeaderRow(line) else DataRow(line)
  }

  /** One iteration of the loop: the new flags and the fragments appended. */
  function Step(f: Flags, raw: string): (Flags, seq<Piece>) {
    Emit(f, Classify(raw))
  }

  /** What one classified line does to the flags and which fragments it emits. */
  function Emit(f: Flags, kind: LineKind): (Flags, seq<Piece>) {
    match kind
    case Blank => (f, [])
    case TableLine(line) =>
      (f.(tableOpen := true), if f.tableOpen then [TableRow(line)] else [TableOpen, TableRow(line)])
    case HeadingLine(level, rest) => (f, [Heading(level, rest)])
    case BoldLine(inner) => (f, [Strong(inner)])
    case ListLine(rest) =>
      (f.(listOpen := true), if f.listOpen then [Item(rest)] else [ListOpen, Item(rest)])
    case ParaLine(line) =>
      (f.(listOpen := false), if f.listOpen then [ListClose, Para(line)] else [Para(line)])
  }

  /** The loop over the lines, from `Start`: the final flags and every fragment emitted. */
  function Fold(lines: seq<string>): (Flags, seq<Piece>) {
    if lines == [] then (Start, [])
    else
      var (f, ps) := Fold(lines[..|lines| - 1]);
      var (g, qs) := Step(f, lines[|lines| - 1]);
      (g, ps + qs)
  }

  /** All fragments of a document: the loop's, then `</table>` if a table was opened. */
  function Pieces(lines: seq<string>): seq<Piece> {
    var (f, ps) := Fold(lines);
    ps + (if f.tableOpen then [TableClose] else [])
  }

  /** `get_html(text)`, always framed by the `<div>` opener and `</div>`. */
  function Rendered(text: string): (r: string)
    ensures StartsWith(r, DivOpen) && EndsWith(r, DivClose)
  {
    DivOpen + Html(Pieces(Split(text, '\n'))) + DivClose
  }

  // ---------------------------------------------------------------------------
  // The imperative renderer.

  lemma {:induction false} HtmlAppend(a: seq<Piece>, b: seq<Piece>)
    ensures Html(a + b) == Html(a) + Html(b)
    decreases |b|
  {
    if b == [] {
      assert a + b == a;
    } else {
      var front := b[..|b| - 1];
      var last := b[|b| - 1];
      assert (a + b)[..|a + b| - 1] == a + front;
      assert Html(a + b) == Html(a + front) + PieceHtml(last);
      HtmlAppend(a, front);
      ConcatAssoc(Html(a), Html(front), PieceHtml(last));
    }
  }

  lemma FoldSnoc(lines: seq<string>, i: nat)
    requires i < |lines|
    ensures Fold(lines[..i + 1]).0 == Step(Fold(lines[..i]).0, lines[i]).0
    ensures Fold(lines[..i + 1]).1 == Fold(lines[..i]).1 + Step(Fold(lines[..i]).0, lines[i]).1
  {
    assert lines[..i + 1][..i] == lines[..i];
  }

  lemma CellsSnoc(open: string, close: string, cells: seq<string>, k: nat)
    requires k < |cells|
    ensures CellsHtml(open, close, cells[..k + 1]) == CellsHtml(open, close, cells[..k]) + (open + cells[k] + close)
  {
    assert cells[..k + 1][..k] == cells[..k];
  }

  /** Filtering one more segment adds its cell exactly when it is not empty. */
  lemma NonEmptySnoc(open: string, close: string, segs: seq<string>, k: nat)
    requires k < |segs|
    ensures CellsHtml(open, close, EscapeAll(NonEmpty(segs[..k + 1])))
         == CellsHtml(open, close, EscapeAll(NonEmpty(segs[..k])))
            + (if segs[k] != [] then open + EscapeHtml(segs[k]) + close else [])
  {
    assert segs[..k + 1][..k] == segs[..k];
    var before := NonEmpty(segs[..k]);
    if segs[k] != [] {
      var after := before + [segs[k]];
      assert EscapeAll(after)[..|after| - 1] == EscapeAll(before);
    } else {
      assert NonEmpty(segs[..k + 1]) == before;
    }
  }

  /** The text of one cell: `escape_html(segment.strip())`. */
  function CellText(segment: string): string {
    EscapeHtml(Strip(segment))
  }

  /** The header row: `<tr>`, a `<th>` for every segment, `</tr>` (app.py:74-78). */
  method HeaderRowHtml(line: string) returns (row: string)
    ensures row == PieceHtml(HeaderRow(line))
  {
    var headers := Split(line, '|');
    ghost var cells := HeaderCells(line);
    row := "<tr>";
    var k := 0;
    while k < |headers|
      invariant 0 <= k <= |headers| == |cells|
      invariant row == "<tr>" + CellsHtml(ThOpen, ThClose, cells[..k])
    {
      CellsSnoc(ThOpen, ThClose, cells, k);
      assert CellText(headers[k]) == cells[k];
      ConcatAssoc("<tr>", CellsHtml(ThOpen, ThClose, cells[..k]), ThOpen + cells[k] + ThClose);
      row := row + (ThOpen + CellText(headers[k]) + ThClose);
      k := k + 1;
    }
    assert cells[..k] == cells;
    row := row + "</tr>";
  }

  /** A data row: `<tr>`, a `<td>` for every segment that is not empty once stripped,
      `</tr>` (app.py:80-86). */
  method DataRowHtml(line: string) returns (row: string)
    ensures row == PieceHtml(DataRow(line))
  {
    var cells := Split(line, '|');
    var tds := DataCellsHtml(cells, Segments(line));
    DataRowPiece(line, tds);
    row := "<tr>" + tds + "</tr>";
  }

  lemma DataRowPiece(line: string, tds: string)
    requires tds == CellsHtml(TdOpen, TdClose, EscapeAll(NonEmpty(Segments(line))))
    ensures "<tr>" + tds + "</tr>" == PieceHtml(DataRow(line))
  {
  }

  /** The `<td>` loop over the split cells, given their stripped forms. */
  method DataCellsHtml(cells: seq<string>, ghost segs: seq<string>) returns (tds: string)
    requires |segs| == |cells| && forall k | 0 <= k < |cells| :: segs[k] == Strip(cells[k])
    ensures tds == CellsHtml(TdOpen, TdClose, EscapeAll(NonEmpty(segs)))
  {
    tds := [];
    var k := 0;
    while k < |cells|
      invariant 0 <= k <= |cells|
      invariant tds == CellsHtml(TdOpen, TdClose, EscapeAll(NonEmpty(segs[..k])))
    {
      NonEmptySnoc(TdOpen, TdClose, segs, k);
      var cellContent := Strip(cells[k]);
      if cellContent != [] {
        tds := tds + (TdOpen + EscapeHtml(cellContent) + TdClose);
      }
      k := k + 1;
    }
    assert segs[..k] == segs;
  }

  lemma HtmlOne(p: Piece)
    ensures Html([p]) == PieceHtml(p)
  {
    assert [p][..0] == [];
  }

  lemma HtmlTwo(p: Piece, q: Piece)
    ensures Html([p, q]) == PieceHtml(p) + PieceHtml(q)
  {
    assert [p, q][..1] == [p];
    HtmlOne(p);
  }

  /** A table line (app.py:67-86): `<table ...>` first when no table is open yet, then the
      row; the table is open afterwards. */
  method RenderTableLine(html0: string, tableOpen0: bool, line: string)
    returns (html: string, tableOpen: bool)
    ensures html == html0 + Html(if tableOpen0 then [TableRow(line)] else [TableOpen, TableRow(line)])
    ensures tableOpen
  {
    html, tableOpen := html0, tableOpen0;
    if !tableOpen {
      html := html + TableOpenTag;
      tableOpen := true;
    }
    var row;
    if '-' in line {
      row := HeaderRowHtml(line);
    } else {
      row := DataRowHtml(line);
    }
    if tableOpen0 {
      HtmlOne(TableRow(line));
    } else {
      HtmlTwo(TableOpen, TableRow(line));
      ConcatAssoc(html0, TableOpenTag, row);
    }
    html := html + row;
  }

  /** A list item (app.py:105-109): `<ul>` first when no list is open, then the item; the list
      is open afterwards. */
  method RenderListItem(html0: string, listOpen0: bool, rest: string)
    returns (html: string, listOpen: bool)
    ensures html == html0 + Html(if listOpen0 then [Item(rest)] else [ListOpen, Item(rest)])
    ensures listOpen
  {
    html, listOpen := html0, listOpen0;
    var item := "<li>" + EscapeHtml(rest) + "</li>";
    if !listOpen {
      html := html + "<ul>";
      listOpen := true;
      HtmlTwo(ListOpen, Item(rest));
      ConcatAssoc(html0, "<ul>", item);
    } else {
      HtmlOne(Item(rest));
    }
    html := html + item;
  }

  /** A paragraph (app.py:112-118): `</ul>` first when a list is open, then the paragraph with
      its links turned into anchors; the list is closed afterwards. */
  method RenderParagraph(html0: string, listOpen0: bool, line: string)
    returns (html: string, listOpen: bool)
    ensures html == html0 + Html(if listOpen0 then [ListClose, Para(line)] else [Para(line)])
    ensures !listOpen
  {
    html, listOpen := html0, listOpen0;
    if listOpen {
      html := html + "</ul>";
      listOpen := false;
    }
    var linked := HandleLinks(EscapeHtml(line));
    var para := POpen + linked + PClose;
    if listOpen0 {
      HtmlTwo(ListClose, Para(line));
      ConcatAssoc(html0, "</ul>", para);
    } else {
      HtmlOne(Para(line));
    }
    html := html + para;
  }

  /** One pass of the loop body of `get_html`: what it appends for the line `raw` and how it
      sets the two flags, which is `Step`. The `if`/`elif` chain on the stripped line is
      `Classify`. */
  method RenderLine(html0: string, listOpen0: bool, tableOpen0: bool, raw: string)
    returns (html: string, listOpen: bool, tableOpen: bool)
    ensures html == html0 + Html(Step(Flags(listOpen0, tableOpen0), raw).1)
    ensures Flags(listOpen, tableOpen) == Step(Flags(listOpen0, tableOpen0), raw).0
  {
    html, listOpen, tableOpen := RenderKind(html0, listOpen0, tableOpen0, Classify(raw));
  }

  /** The branch of the loop body taken for a line of the given kind. */
  method RenderKind(html0: string, listOpen0: bool, tableOpen0: bool, kind: LineKind)
    returns (html: string, listOpen: bool, tableOpen: bool)
    ensures html == html0 + Html(Emit(Flags(listOpen0, tableOpen0), kind).1)
    ensures Flags(listOpen, tableOpen) == Emit(Flags(listOpen0, tableOpen0), kind).0
  {
    html, listOpen, tableOpen := html0, listOpen0, tableOpen0;
    match kind
    case Blank =>
      ConcatEmpty(html0);
    case TableLine(line) =>
      html, tableOpen := RenderTableLine(html0, tableOpen0, line);
    case HeadingLine(level, rest) =>
      HtmlOne(Heading(level, rest));
      html := html + (HeadingOpen(level) + EscapeHtml(rest) + HeadingClose(level));
    case BoldLine(inner) =>
      HtmlOne(Strong(inner));
      html := html + ("<strong>" + EscapeHtml(inner) + "</strong>");
    case ListLine(rest) =>
      html, listOpen := RenderListItem(html0, listOpen0, rest);
    case ParaLine(line) =>
      html, listOpen := RenderParagraph(html0, listOpen0, line);
  }

  /** `get_html(text)` */
  method GetHtml(text: string) returns (html: string)
    ensures html == Rendered(text)
  {
    var lines := Split(text, '\n');
    html := DivOpen;
    var listOpen, tableOpen := false, false;
    var i := 0;
    assert lines[..0] == [];
    ConcatEmpty(DivOpen);
    while i < |lines|
      invariant 0 <= i <= |lines|
      invariant Fold(lines[..i]).0 == Flags(listOpen, tableOpen)
      invariant html == DivOpen + Html(Fold(lines[..i]).1)
    {
      FoldSnoc(lines, i);
      ghost var before := Fold(lines[..i]).1;
      ghost var emitted := Step(Flags(listOpen, tableOpen), lines[i]).1;
      HtmlAppend(before, emitted);
      ConcatAssoc(DivOpen, Html(before), Html(emitted));
      html, listOpen, tableOpen := RenderLine(html, listOpen, tableOpen, lines[i]);
      i := i + 1;
    }
    assert lines[..i] == lines;
    ghost var all := Fold(lines).1;
    if tableOpen {
      html := html + TableCloseTag;
      HtmlAppend(all, [TableClose]);
      HtmlOne(TableClose);
      ConcatAssoc(DivOpen, Html(all), TableCloseTag);
    } else {
      assert Pieces(lines) == all;
    }
    html := html + DivClose;
  }
}
