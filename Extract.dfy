/** `extract_table_from_response` and the reply `chat` builds from it: a standalone table when
    at least two lines look like table rows, otherwise the `get_html` rendering. */
module Extract {
  import opened Options
  import opened Text
  import opened Escape
  import opened Rows
  import opened Render

  // ---------------------------------------------------------------------------
  // Finding the rows.

  /** A line is taken as a table row when it holds a `|` and has at least two non-empty cells. */
  predicate Qualifies(line: string) {
    '|' in line && |RowCells(line)| > 1
  }

  /** The cells of every qualifying line, in order. */
  function QualifyingRows(lines: seq<string>): seq<seq<string>> {
    if lines == [] then []
    else
      var last := lines[|lines| - 1];
      QualifyingRows(lines[..|lines| - 1]) + (if Qualifies(last) then [RowCells(last)] else [])
  }

  /** The first row found is the headers, the others the data; no row, no headers. */
  function HeadAndRest(rows: seq<seq<string>>): (r: (Option<seq<string>>, seq<seq<string>>))
    ensures r.0.None? <==> rows == []
    ensures r.0.None? ==> r.1 == []
    ensures r.0.Some? ==> [r.0.value] + r.1 == rows
  {
    if rows == [] then (None, []) else (Some(rows[0]), rows[1..])
  }

  /** What `extract_table_from_response(text)` gives back: the headers and the data rows. */
  function Extracted(text: string): (Option<seq<string>>, seq<seq<string>>) {
    HeadAndRest(QualifyingRows(Split(text, '\n')))
  }

  lemma QualifyingSnoc(lines: seq<string>, k: nat)
    requires k < |lines|
    ensures QualifyingRows(lines[..k + 1]) ==
      if Qualifies(lines[k]) then QualifyingRows(lines[..k]) + [RowCells(lines[k])] else QualifyingRows(lines[..k])
  {
    assert lines[..k + 1][..k] == lines[..k];
    if !Qualifies(lines[k]) {
      assert QualifyingRows(lines[..k]) + [] == QualifyingRows(lines[..k]);
    }
  }

  lemma HeadAndRestSnoc(rows: seq<seq<string>>, row: seq<string>)
    ensures HeadAndRest(rows + [row]) ==
      if rows == [] then (Some(row), []) else (HeadAndRest(rows).0, HeadAndRest(rows).1 + [row])
  {
    if rows != [] {
      assert (rows + [row])[1..] == rows[1..] + [row];
    }
  }

  /** The loop of app.py:141-157. */
  method ExtractTable(text: string) returns (headers: Option<seq<string>>, tableData: seq<seq<string>>)
    ensures (headers, tableData) == Extracted(text)
  {
    var lines := Split(text, '\n');
    headers := None;
    tableData := [];
    var k := 0;
    while k < |lines|
      invariant 0 <= k <= |lines|
      invariant (headers, tableData) == HeadAndRest(QualifyingRows(lines[..k]))
    {
      var line := lines[k];
      QualifyingSnoc(lines, k);
      if '|' in line {
        var row := RowCells(line);
        if |row| > 1 {
          HeadAndRestSnoc(QualifyingRows(lines[..k]), row);
          if headers.None? {
            headers := Some(row);
          } else {
            tableData := tableData + [row];
          }
        }
      }
      k := k + 1;
    }
    assert lines[..k] == lines;
  }

  // ---------------------------------------------------------------------------
  // What the rows are.

  lemma {:induction false} QualifyingAppend(a: seq<string>, b: seq<string>)
    ensures QualifyingRows(a + b) == QualifyingRows(a) + QualifyingRows(b)
    decreases |b|
  {
    if b == [] {
      assert a + b == a;
    } else {
      assert (a + b)[..|a + b| - 1] == a + b[..|b| - 1];
      QualifyingAppend(a, b[..|b| - 1]);
    }
  }

  predicate NoneQualifies(lines: seq<string>) {
    forall j | 0 <= j < |lines| :: !Qualifies(lines[j])
  }

  /** There are no more rows than lines; every row is the cells of some qualifying line and
      the cells of every qualifying line are a row; no row is found exactly when no line
      qualifies. */
  lemma QualifyingMembers(lines: seq<string>)
    ensures |QualifyingRows(lines)| <= |lines|
    ensures forall r | r in QualifyingRows(lines) ::
      exists j | 0 <= j < |lines| :: Qualifies(lines[j]) && RowCells(lines[j]) == r
    ensures forall j | 0 <= j < |lines| && Qualifies(lines[j]) :: RowCells(lines[j]) in QualifyingRows(lines)
    ensures QualifyingRows(lines) == [] <==> NoneQualifies(lines)
  {
    RowsFromLines(lines);
    LinesGiveRows(lines);
    if QualifyingRows(lines) != [] {
      assert QualifyingRows(lines)[0] in QualifyingRows(lines);
    }
  }

  lemma {:induction false} RowsFromLines(lines: seq<string>)
    ensures |QualifyingRows(lines)| <= |lines|
    ensures forall r | r in QualifyingRows(lines) ::
      exists j | 0 <= j < |lines| :: Qualifies(lines[j]) && RowCells(lines[j]) == r
  {
    if lines != [] {
      var n := |lines| - 1;
      var front := lines[..n];
      RowsFromLines(front);
      QualifyingSnoc(lines, n);
      assert lines[..n + 1] == lines;
      forall r | r in QualifyingRows(lines)
        ensures exists j | 0 <= j < |lines| :: Qualifies(lines[j]) && RowCells(lines[j]) == r
      {
        if r in QualifyingRows(front) {
          var j :| 0 <= j < |front| && Qualifies(front[j]) && RowCells(front[j]) == r;
          assert lines[j] == front[j];
        } else {
          assert Qualifies(lines[n]) && RowCells(lines[n]) == r;
        }
      }
    }
  }

  lemma LinesGiveRows(lines: seq<string>)
    ensures forall j | 0 <= j < |lines| && Qualifies(lines[j]) :: RowCells(lines[j]) in QualifyingRows(lines)
  {
    forall j | 0 <= j < |lines| && Qualifies(lines[j]) ensures RowCells(lines[j]) in QualifyingRows(lines) {
      LineGivesRow(lines, j);
    }
  }

  lemma LineGivesRow(lines: seq<string>, j: nat)
    requires j < |lines| && Qualifies(lines[j])
    ensures RowCells(lines[j]) in QualifyingRows(lines)
  {
    assert lines == lines[..j + 1] + lines[j + 1..];
    QualifyingAppend(lines[..j + 1], lines[j + 1..]);
    QualifyingSnoc(lines, j);
  }

  /** At least two cells, each non-empty, already stripped and free of `|`. */
  predicate GoodRow(r: seq<string>) {
    |r| >= 2 && forall c | c in r :: c != [] && Strip(c) == c && '|' !in c
  }

  /** Every row found has the shape of a table row. */
  lemma {:induction false} QualifyingShape(lines: seq<string>)
    ensures forall r | r in QualifyingRows(lines) :: GoodRow(r)
  {
    if lines != [] {
      QualifyingShape(lines[..|lines| - 1]);
      RowCellsShape(lines[|lines| - 1]);
    }
  }

  /** The headers are missing exactly when no line qualifies, and then there is no data; when
      they are present they and every data row have the shape of a table row, and the data has
      one row less than there are qualifying lines. */
  lemma ExtractedShape(text: string)
    ensures Extracted(text).0.None? <==> NoneQualifies(Split(text, '\n'))
    ensures Extracted(text).0.None? ==> Extracted(text).1 == []
    ensures Extracted(text).0.Some? ==> GoodRow(Extracted(text).0.value)
    ensures Extracted(text).0.Some? ==> |Extracted(text).1| + 1 == |QualifyingRows(Split(text, '\n'))|
    ensures forall r | r in Extracted(text).1 :: GoodRow(r)
  {
    var lines := Split(text, '\n');
    assert Extracted(text) == HeadAndRest(QualifyingRows(lines));
    QualifyingMembers(lines);
    QualifyingShape(lines);
    HeadAndRestShape(QualifyingRows(lines));
  }

  lemma HeadAndRestShape(rows: seq<seq<string>>)
    requires forall r | r in rows :: GoodRow(r)
    ensures HeadAndRest(rows).0.None? <==> rows == []
    ensures HeadAndRest(rows).0.Some? ==> GoodRow(HeadAndRest(rows).0.value) && |HeadAndRest(rows).1| + 1 == |rows|
    ensures forall r | r in HeadAndRest(rows).1 :: GoodRow(r)
  {
    if rows != [] {
      assert rows[0] in rows;
      assert forall r | r in rows[1..] :: r in rows;
    }
  }

  /** A line `a|b` whose two sides hold no `|` and are not blank has the two stripped sides as
      its cells, so it qualifies; a markdown separator line such as `---|---` is one of these
      and becomes a row of dashes. */
  lemma TwoCells(a: string, b: string)
    requires '|' !in a && '|' !in b && Strip(a) != [] && Strip(b) != []
    ensures RowCells(a + "|" + b) == [Strip(a), Strip(b)]
    ensures Qualifies(a + "|" + b)
  {
    var line := a + "|" + b;
    SplitAppend(a, '|', b);
    SplitWithout(b, '|');
    assert Split(line, '|') == [a, b];
    var segs := Segments(line);
    assert segs == [Strip(a), Strip(b)];
    NonEmptyPair(Strip(a), Strip(b));
    assert line[|a|] == '|';
  }

  lemma NonEmptyPair(x: string, y: string)
    requires x != [] && y != []
    ensures NonEmpty([x, y]) == [x, y]
  {
    assert [x, y][..1] == [x];
    assert [x][..0] == [];
    assert NonEmpty([x]) == [] + [x] == [x];
  }

  /** Lines made of non-blank dashes on both sides of one `|` qualify and keep their dashes. */
  lemma SeparatorQualifies(n: nat, m: nat)
    requires n >= 1 && m >= 1
    ensures var dashes := seq(n, _ => '-') + "|" + seq(m, _ => '-');
      Qualifies(dashes) && RowCells(dashes) == [seq(n, _ => '-'), seq(m, _ => '-')]
  {
    var a: string := seq(n, _ => '-');
    var b: string := seq(m, _ => '-');
    StripFixed(a);
    StripFixed(b);
    TwoCells(a, b);
  }

  /** When every line qualifies, the rows are the cells of the lines in order. */
  lemma {:induction false} AllQualify(lines: seq<string>)
    requires forall j | 0 <= j < |lines| :: Qualifies(lines[j])
    ensures |QualifyingRows(lines)| == |lines|
    ensures forall j | 0 <= j < |lines| :: QualifyingRows(lines)[j] == RowCells(lines[j])
  {
    if lines != [] {
      var front, last := lines[..|lines| - 1], lines[|lines| - 1];
      assert lines == front + [last];
      QualifyFront(front, last);
      AllQualify(front);
      AllQualifyStep(front, last);
    }
  }

  lemma QualifyFront(front: seq<string>, last: string)
    requires forall j | 0 <= j < |front + [last]| :: Qualifies((front + [last])[j])
    ensures Qualifies(last) && forall j | 0 <= j < |front| :: Qualifies(front[j])
  {
    var lines := front + [last];
    assert lines[|front|] == last;
    forall j | 0 <= j < |front| ensures Qualifies(front[j]) {
      assert lines[j] == front[j];
    }
  }

  lemma AllQualifyStep(front: seq<string>, last: string)
    requires Qualifies(last)
    requires |QualifyingRows(front)| == |front|
    requires forall j | 0 <= j < |front| :: QualifyingRows(front)[j] == RowCells(front[j])
    ensures |QualifyingRows(front + [last])| == |front| + 1
    ensures forall j | 0 <= j < |front| + 1 ::
      QualifyingRows(front + [last])[j] == RowCells((front + [last])[j])
  {
    var lines := front + [last];
    assert lines[..|front|] == front;
    var qf := QualifyingRows(front);
    assert QualifyingRows(lines) == qf + [RowCells(last)];
    forall j | 0 <= j < |front| + 1 ensures QualifyingRows(lines)[j] == RowCells(lines[j]) {
      if j < |front| {
        assert lines[j] == front[j];
      }
    }
  }

  /** A reply made only of table lines, such as `A | B`, `1 | 2`, `3 | 4`: the first line's
      cells are the headers and the others, in order, the data rows. */
  lemma TableReply(lines: seq<string>)
    requires lines != []
    requires forall j | 0 <= j < |lines| :: '\n' !in lines[j] && Qualifies(lines[j])
    ensures var (headers, tableData) := Extracted(Join(lines, '\n'));
      && headers == Some(RowCells(lines[0]))
      && |tableData| == |lines| - 1
      && forall j | 0 <= j < |tableData| :: tableData[j] == RowCells(lines[j + 1])
  {
    JoinSplit(lines, '\n');
    AllQualify(lines);
  }

  // ---------------------------------------------------------------------------
  // The standalone table (app.py:212-223).

  /** `<tr>`, one cell per entry, escaped, `</tr>`. */
  function RowTr(open: string, close: string, cells: seq<string>): string {
    "<tr>" + CellsHtml(open, close, EscapeAll(cells)) + "</tr>"
  }

  /** One `<td>` row per data row, in order. */
  function BodyRows(rows: seq<seq<string>>): string {
    if rows == [] then []
    else BodyRows(rows[..|rows| - 1]) + RowTr(TdOpen, TdClose, rows[|rows| - 1])
  }

  /** The table `chat` sends: the header row, the data rows, all inside one `<table>`. */
  function TableHtml(headers: seq<string>, rows: seq<seq<string>>): string {
    TableOpenTag + RowTr(ThOpen, ThClose, headers) + BodyRows(rows) + TableCloseTag
  }

  /** The inner loops: the escaped cells appended one by one. */
  method AppendCells(html0: string, open: string, close: string, cells: seq<string>) returns (html: string)
    ensures html == html0 + CellsHtml(open, close, EscapeAll(cells))
  {
    ghost var escaped := EscapeAll(cells);
    html := html0;
    var k := 0;
    assert escaped[..0] == [];
    ConcatEmpty(html0);
    while k < |cells|
      invariant 0 <= k <= |cells| == |escaped|
      invariant html == html0 + CellsHtml(open, close, escaped[..k])
    {
      CellsSnoc(open, close, escaped, k);
      ConcatAssoc(html0, CellsHtml(open, close, escaped[..k]), open + escaped[k] + close);
      html := html + (open + EscapeHtml(cells[k]) + close);
      k := k + 1;
    }
    assert escaped[..k] == escaped;
  }

  /** `<tr>`, the cells, `</tr>` appended. */
  method AppendRow(html0: string, open: string, close: string, cells: seq<string>) returns (html: string)
    ensures html == html0 + RowTr(open, close, cells)
  {
    html := html0 + "<tr>";
    html := AppendCells(html, open, close, cells);
    html := html + "</tr>";
    ghost var c := CellsHtml(open, close, EscapeAll(cells));
    ConcatAssoc(html0, "<tr>", c);
    ConcatAssoc(html0, "<tr>" + c, "</tr>");
  }

  method BuildTable(headers: seq<string>, rows: seq<seq<string>>) returns (html: string)
    ensures html == TableHtml(headers, rows)
  {
    html := TableOpenTag;
    html := AppendRow(html, ThOpen, ThClose, headers);
    ghost var head := html;
    var i := 0;
    assert rows[..0] == [];
    ConcatEmpty(head);
    while i < |rows|
      invariant 0 <= i <= |rows|
      invariant html == head + BodyRows(rows[..i])
    {
      assert rows[..i + 1][..i] == rows[..i];
      ConcatAssoc(head, BodyRows(rows[..i]), RowTr(TdOpen, TdClose, rows[i]));
      html := AppendRow(html, TdOpen, TdClose, rows[i]);
      i := i + 1;
    }
    assert rows[..i] == rows;
    html := html + TableCloseTag;
  }

  lemma {:induction false} BodyRowsAppend(a: seq<seq<string>>, b: seq<seq<string>>)
    ensures BodyRows(a + b) == BodyRows(a) + BodyRows(b)
    decreases |b|
  {
    if b == [] {
      assert a + b == a;
    } else {
      var front, last := b[..|b| - 1], b[|b| - 1];
      assert b == front + [last];
      assert a + b == (a + front) + [last];
      BodyRowsAppend(a, front);
      BodyRowsSnoc(a + front, last);
      BodyRowsSnoc(front, last);
      ConcatAssoc(BodyRows(a), BodyRows(front), RowTr(TdOpen, TdClose, last));
    }
  }

  /** The data rows of the standalone table are the `<tr>` rows `get_html` emits for the same
      lines when it reads them as data rows: the same cells, filtered, stripped and escaped
      the same way, in the same `<td>` markup. */
  lemma {:induction false} BodyRowsAsRendered(lines: seq<string>)
    requires forall j | 0 <= j < |lines| :: Qualifies(lines[j])
    ensures BodyRows(QualifyingRows(lines)) == Html(DataRows(lines))
  {
    if lines != [] {
      var front := lines[..|lines| - 1];
      var last := lines[|lines| - 1];
      BodyRowsAsRendered(front);
      QualifyingSnoc(lines, |lines| - 1);
      assert lines[..|lines|] == lines;
      BodyRowsSnoc(QualifyingRows(front), RowCells(last));
      RowTrDataRow(last);
      DataRowsSnoc(lines);
    }
  }

  lemma BodyRowsSnoc(rows: seq<seq<string>>, row: seq<string>)
    ensures BodyRows(rows + [row]) == BodyRows(rows) + RowTr(TdOpen, TdClose, row)
  {
    assert (rows + [row])[..|rows|] == rows;
  }

  lemma DataRowsSnoc(lines: seq<string>)
    requires lines != []
    ensures Html(DataRows(lines)) == Html(DataRows(lines[..|lines| - 1])) + PieceHtml(DataRow(lines[|lines| - 1]))
  {
    assert DataRows(lines)[..|lines| - 1] == DataRows(lines[..|lines| - 1]);
  }

  lemma RowTrDataRow(line: string)
    ensures RowTr(TdOpen, TdClose, RowCells(line)) == PieceHtml(DataRow(line))
  {
    assert DataCells(line) == EscapeAll(RowCells(line));
  }

  /** A data-row fragment for every line. */
  function DataRows(lines: seq<string>): (r: seq<Piece>)
    ensures |r| == |lines| && forall j | 0 <= j < |r| :: r[j] == DataRow(lines[j])
  {
    seq(|lines|, j requires 0 <= j < |lines| => DataRow(lines[j]))
  }

  // ---------------------------------------------------------------------------
  // The reply (app.py:208-229).

  /** The standalone table when there is data, otherwise `get_html` of the whole reply. */
  function Respond(text: string): string {
    var (headers, tableData) := Extracted(text);
    if tableData != [] then TableHtml(headers.value, tableData) else Rendered(text)
  }

  method ChatResponse(text: string) returns (html: string)
    ensures html == Respond(text)
  {
    var headers, tableData := ExtractTable(text);
    if tableData != [] {
      html := BuildTable(headers.value, tableData);
    } else {
      html := GetHtml(text);
    }
  }

  /** The reply is the standalone table, built from the first qualifying line as headers and
      the others as data, exactly when at least two lines qualify; with fewer (one table-like
      line alone included) it is the `get_html` rendering, which closes with the `</div>`
      instead of the `</table>`. */
  lemma RespondChoice(text: string)
    ensures var rows := QualifyingRows(Split(text, '\n'));
      && (|rows| >= 2 ==> Respond(text) == TableHtml(rows[0], rows[1..]))
      && (|rows| < 2 ==> Respond(text) == Rendered(text))
      && (EndsWith(Respond(text), TableCloseTag) <==> |rows| >= 2)
      && (EndsWith(Respond(text), DivClose) <==> |rows| < 2)
  {
    var rows := QualifyingRows(Split(text, '\n'));
    var r := Respond(text);
    EndTags();
    if |rows| >= 2 {
      assert r[|r| - 2] == TableCloseTag[6];
    } else {
      assert r[|r| - 2] == DivClose[4];
    }
  }

  /** `</table>` and `</div>` differ in their last character but one. */
  lemma EndTags()
    ensures |TableCloseTag| == 8 && TableCloseTag[6] == 'e' && |DivClose| == 6 && DivClose[4] == 'v'
  {
  }
}
