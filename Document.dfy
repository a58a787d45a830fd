/** What `get_html` does to a whole document, stated on the fragments it emits: `<table>`
    opens at most once and is closed only at the end, `<ul>`/`</ul>` alternate, blank lines
    leave no trace, and the cells and paragraphs hold what the lines hold. */
module Document {
  import opened Text
  import opened Escape
  import opened Links
  import opened Rows
  import opened Render
  import opened Lines

  /** Some line of the document holds a `|`. */
  predicate HasBar(lines: seq<string>) {
    exists j | 0 <= j < |lines| :: '|' in lines[j]
  }

  predicate IsRow(p: Piece) {
    p.HeaderRow? || p.DataRow?
  }

  function Count(ps: seq<Piece>, p: Piece): nat {
    multiset(ps)[p]
  }

  // ---------------------------------------------------------------------------
  // Blank lines.

  /** A line that is empty once stripped emits nothing and changes no flag (app.py:62-64). */
  lemma BlankStep(f: Flags, raw: string)
    requires AllSpace(raw)
    ensures Step(f, raw) == (f, [])
  {
    ClassifyBlank(raw);
  }

  /** Blank lines at the end of a document change nothing. */
  lemma {:induction false} BlankTail(lines: seq<string>, blanks: seq<string>)
    requires forall j | 0 <= j < |blanks| :: AllSpace(blanks[j])
    ensures Fold(lines + blanks) == Fold(lines)
    decreases |blanks|
  {
    if blanks == [] {
      assert lines + blanks == lines;
    } else {
      var front := blanks[..|blanks| - 1];
      var last := blanks[|blanks| - 1];
      assert lines + blanks == (lines + front) + [last];
      BlankSnoc(lines + front, last);
      BlankTail(lines, front);
    }
  }

  /** One blank line at the end changes nothing. */
  lemma BlankSnoc(front: seq<string>, raw: string)
    requires AllSpace(raw)
    ensures Fold(front + [raw]) == Fold(front)
  {
    assert (front + [raw])[..|front|] == front;
    BlankStep(Fold(front).0, raw);
    assert Fold(front).1 + [] == Fold(front).1;
  }

  // ---------------------------------------------------------------------------
  // Tables.

  /** After any prefix of the document: the table flag is set exactly when some line held a
      `|`, `<table>` was emitted once then and never otherwise, `</table>` not yet, and every row
      comes after the `<table>` (app.py:67-70). */
  lemma {:induction false} FoldTables(lines: seq<string>)
    ensures Fold(lines).0.tableOpen <==> HasBar(lines)
    ensures Count(Fold(lines).1, TableOpen) == if HasBar(lines) then 1 else 0
    ensures Count(Fold(lines).1, TableClose) == 0
    ensures RowsInTable(Fold(lines).1)
    decreases |lines|
  {
    if lines != [] {
      var prefix := lines[..|lines| - 1];
      var raw := lines[|lines| - 1];
      FoldTables(prefix);
      ClassifyTable(raw);
      var (f, ps) := Fold(prefix);
      var qs := Step(f, raw).1;
      assert Fold(lines).1 == ps + qs;
      assert HasBar(lines) <==> HasBar(prefix) || '|' in raw by {
        if HasBar(lines) && !('|' in raw) {
          var j :| 0 <= j < |lines| && '|' in lines[j];
          assert prefix[j] == lines[j];
        }
        if HasBar(prefix) {
          var j :| 0 <= j < |prefix| && '|' in prefix[j];
          assert lines[j] == prefix[j];
        }
      }
      TableStep(f, raw, ps);
    }
  }

  /** One step of the table bookkeeping. */
  lemma TableStep(f: Flags, raw: string, ps: seq<Piece>)
    requires f.tableOpen <==> TableOpen in ps
    requires RowsInTable(ps)
    ensures var (g, qs) := Step(f, raw);
      && (g.tableOpen <==> f.tableOpen || '|' in raw)
      && Count(qs, TableOpen) == (if !f.tableOpen && '|' in raw then 1 else 0)
      && Count(qs, TableClose) == 0
      && RowsInTable(ps + qs)
  {
    ClassifyTable(raw);
    TableCounts(f, Classify(raw));
    TableRows(f, Classify(raw), ps);
  }

  lemma TableCounts(f: Flags, kind: LineKind)
    ensures var (g, qs) := Emit(f, kind);
      && (g.tableOpen <==> f.tableOpen || kind.TableLine?)
      && Count(qs, TableOpen) == (if !f.tableOpen && kind.TableLine? then 1 else 0)
      && Count(qs, TableClose) == 0
  {
    match kind
    case TableLine(line) =>
      TableLineCounts(f.tableOpen, TableRow(line));
    case ListLine(rest) =>
      NoTableCounts(if f.listOpen then [Item(rest)] else [ListOpen, Item(rest)]);
    case ParaLine(line) =>
      NoTableCounts(if f.listOpen then [ListClose, Para(line)] else [Para(line)]);
    case HeadingLine(level, rest) =>
      NoTableCounts([Heading(level, rest)]);
    case BoldLine(inner) =>
      NoTableCounts([Strong(inner)]);
    case Blank =>
      NoTableCounts([]);
  }

  lemma TableLineCounts(open: bool, row: Piece)
    requires row.HeaderRow? || row.DataRow?
    ensures var qs := if open then [row] else [TableOpen, row];
      Count(qs, TableOpen) == (if open then 0 else 1) && Count(qs, TableClose) == 0
  {
    if !open {
      assert multiset([TableOpen, row]) == multiset{TableOpen} + multiset{row};
    }
  }

  lemma NoTableCounts(qs: seq<Piece>)
    requires TableOpen !in qs && TableClose !in qs
    ensures Count(qs, TableOpen) == 0 && Count(qs, TableClose) == 0
  {
    assert TableOpen !in multiset(qs) && TableClose !in multiset(qs);
  }

  lemma TableRows(f: Flags, kind: LineKind, ps: seq<Piece>)
    requires f.tableOpen <==> TableOpen in ps
    requires RowsInTable(ps)
    ensures RowsInTable(ps + Emit(f, kind).1)
  {
    match kind
    case TableLine(line) =>
      RowStep(ps, f.tableOpen, line);
    case HeadingLine(level, rest) =>
      NoRowStep(ps, [Heading(level, rest)]);
    case BoldLine(inner) =>
      NoRowStep(ps, [Strong(inner)]);
    case ListLine(rest) =>
      NoRowStep(ps, if f.listOpen then [Item(rest)] else [ListOpen, Item(rest)]);
    case ParaLine(line) =>
      NoRowStep(ps, if f.listOpen then [ListClose, Para(line)] else [Para(line)]);
    case Blank =>
      NoRowStep(ps, []);
  }

  /** Every row comes after a `<table>`. */
  predicate RowsInTable(ps: seq<Piece>) {
    forall k | 0 <= k < |ps| && IsRow(ps[k]) :: TableOpen in ps[..k]
  }

  /** A table line: `<table>` first when none is open, then the row. */
  lemma RowStep(ps: seq<Piece>, open: bool, line: string)
    requires open <==> TableOpen in ps
    requires RowsInTable(ps)
    ensures RowsInTable(ps + (if open then [TableRow(line)] else [TableOpen, TableRow(line)]))
  {
    var qs := if open then [TableRow(line)] else [TableOpen, TableRow(line)];
    var all := ps + qs;
    forall k | 0 <= k < |all| && IsRow(all[k]) ensures TableOpen in all[..k] {
      if k < |ps| {
        assert all[..k] == ps[..k];
      } else if open {
        assert all[..k] == ps;
      } else {
        assert all[..k] == ps + [TableOpen];
      }
    }
  }

  /** Fragments with no row keep every row after a `<table>`. */
  lemma NoRowStep(ps: seq<Piece>, qs: seq<Piece>)
    requires RowsInTable(ps)
    requires forall k | 0 <= k < |qs| :: !IsRow(qs[k])
    ensures RowsInTable(ps + qs)
  {
    var all := ps + qs;
    forall k | 0 <= k < |all| && IsRow(all[k]) ensures TableOpen in all[..k] {
      assert all[..k] == ps[..k];
    }
  }

  /** The whole document: `<table>` at most once; `</table>` exactly as often, which is once
      when some line held a `|` and never otherwise, and then as the very last fragment
      (app.py:120-122). */
  lemma TablesInDocument(lines: seq<string>)
    ensures Count(Pieces(lines), TableOpen) <= 1
    ensures Count(Pieces(lines), TableClose) == Count(Pieces(lines), TableOpen) == if HasBar(lines) then 1 else 0
    ensures HasBar(lines) ==> Pieces(lines)[|Pieces(lines)| - 1] == TableClose
  {
    FoldTables(lines);
  }

  // ---------------------------------------------------------------------------
  // Table cells.

  /** A header row has one cell per `|`-separated segment, empty ones included, so one more
      than there are `|`; unescaping a cell gives the stripped segment back (app.py:74-77). */
  lemma HeaderCellsShape(line: string)
    ensures |HeaderCells(line)| == Occurrences(line, '|') + 1
    ensures forall k | 0 <= k < |HeaderCells(line)| ::
      Unescape(HeaderCells(line)[k]) == Strip(Split(line, '|')[k])
  {
    SegmentsCount(line);
    var h := HeaderCells(line);
    forall k | 0 <= k < |h| ensures Unescape(h[k]) == Strip(Split(line, '|')[k]) {
      UnescapeEscape(Segments(line)[k]);
    }
  }

  /** A data row has one cell per segment that is not empty once stripped, so at most one
      more than there are `|`; no cell is empty, and unescaping a cell gives the stripped
      segment back (app.py:80-85). */
  lemma DataCellsShape(line: string)
    ensures |DataCells(line)| == |RowCells(line)| <= Occurrences(line, '|') + 1
    ensures forall k | 0 <= k < |DataCells(line)| ::
      DataCells(line)[k] != [] && Unescape(DataCells(line)[k]) == RowCells(line)[k]
  {
    RowCellsShape(line);
    var c := DataCells(line);
    var rows := RowCells(line);
    forall k | 0 <= k < |c| ensures c[k] != [] && Unescape(c[k]) == rows[k] {
      assert rows[k] in rows;
      EscapeLonger(rows[k]);
      UnescapeEscape(rows[k]);
    }
  }

  // ---------------------------------------------------------------------------
  // Lists.

  /** The list markers among the fragments, in order: `true` for `<ul>`, `false` for `</ul>`. */
  function Markers(ps: seq<Piece>): seq<bool> {
    if ps == [] then []
    else
      var last := ps[|ps| - 1];
      Markers(ps[..|ps| - 1]) + (if last == ListOpen then [true] else if last == ListClose then [false] else [])
  }

  /** `<ul>`, `</ul>`, `<ul>`, ...: strictly alternating, starting with `<ul>`. */
  predicate Alternating(m: seq<bool>) {
    forall i | 0 <= i < |m| :: m[i] == (i % 2 == 0)
  }

  lemma {:induction false} MarkersAppend(a: seq<Piece>, b: seq<Piece>)
    ensures Markers(a + b) == Markers(a) + Markers(b)
    decreases |b|
  {
    if b == [] {
      assert a + b == a;
    } else {
      assert (a + b)[..|a + b| - 1] == a + b[..|b| - 1];
      MarkersAppend(a, b[..|b| - 1]);
    }
  }

  lemma MarkersOf(p: Piece, q: Piece)
    ensures Markers([p]) == if p == ListOpen then [true] else if p == ListClose then [false] else []
    ensures Markers([p, q]) == Markers([p]) + Markers([q])
  {
    assert [p][..0] == [];
    assert [p, q] == [p] + [q];
    MarkersAppend([p], [q]);
  }

  /** The markers alternate, and the list is open exactly after an odd number of them. */
  predicate Balanced(ps: seq<Piece>, open: bool) {
    Alternating(Markers(ps)) && (open <==> |Markers(ps)| % 2 == 1)
  }

  /** Every `</ul>` is followed at once by a paragraph. */
  predicate ClosesBeforePara(ps: seq<Piece>) {
    forall k | 0 <= k < |ps| && ps[k] == ListClose :: k + 1 < |ps| && ps[k + 1].Para?
  }

  /** Every item comes after an odd number of list markers: inside an open list. */
  predicate ItemsInList(ps: seq<Piece>) {
    ps == [] ||
    (ItemsInList(ps[..|ps| - 1]) && (ps[|ps| - 1].Item? ==> |Markers(ps[..|ps| - 1])| % 2 == 1))
  }

  lemma ItemsSnoc(ps: seq<Piece>, x: Piece)
    ensures ItemsInList(ps + [x]) <==> ItemsInList(ps) && (x.Item? ==> |Markers(ps)| % 2 == 1)
  {
    assert (ps + [x])[..|ps|] == ps;
  }

  /** The list rules hold for a sequence of fragments with the list flag `open`. */
  predicate ListsWellFormed(ps: seq<Piece>, open: bool) {
    Balanced(ps, open) && ClosesBeforePara(ps) && ItemsInList(ps)
  }

  /** After any prefix of the document: `<ul>` and `</ul>` alternate starting with `<ul>`, the
      list flag is set exactly when one more `<ul>` than `</ul>` was emitted, every `</ul>` is
      followed at once by a paragraph, and every item sits inside an open list
      (app.py:105-115). */
  lemma {:induction false} FoldLists(lines: seq<string>)
    ensures ListsWellFormed(Fold(lines).1, Fold(lines).0.listOpen)
    decreases |lines|
  {
    if lines != [] {
      var prefix := lines[..|lines| - 1];
      FoldLists(prefix);
      var (f, ps) := Fold(prefix);
      ListStep(f, Classify(lines[|lines| - 1]), ps);
    }
  }

  /** One step of the list bookkeeping. */
  lemma ListStep(f: Flags, kind: LineKind, ps: seq<Piece>)
    requires ListsWellFormed(ps, f.listOpen)
    ensures ListsWellFormed(ps + Emit(f, kind).1, Emit(f, kind).0.listOpen)
  {
    match kind
    case ListLine(rest) =>
      ItemStep(ps, f.listOpen, rest);
    case ParaLine(line) =>
      ParaStep(ps, f.listOpen, line);
    case TableLine(line) =>
      OtherStep(ps, f.listOpen, if f.tableOpen then [TableRow(line)] else [TableOpen, TableRow(line)]);
    case HeadingLine(level, rest) =>
      OtherStep(ps, f.listOpen, [Heading(level, rest)]);
    case BoldLine(inner) =>
      OtherStep(ps, f.listOpen, [Strong(inner)]);
    case Blank =>
      assert ps + [] == ps;
  }

  /** Appending one marker of the kind due next keeps the markers alternating. */
  lemma AlternatingSnoc(m: seq<bool>, b: bool)
    requires Alternating(m) && (b <==> |m| % 2 == 0)
    ensures Alternating(m + [b])
  {
  }

  /** A list item: `<ul>` first when the list was closed. */
  lemma ItemStep(ps: seq<Piece>, open: bool, rest: string)
    requires ListsWellFormed(ps, open)
    ensures ListsWellFormed(ps + (if open then [Item(rest)] else [ListOpen, Item(rest)]), true)
  {
    if open {
      ItemInOpenList(ps, rest);
    } else {
      ItemOpensList(ps, rest);
    }
  }

  lemma ItemInOpenList(ps: seq<Piece>, rest: string)
    requires ListsWellFormed(ps, true)
    ensures ListsWellFormed(ps + [Item(rest)], true)
  {
    MarkersAppend(ps, [Item(rest)]);
    MarkersOf(Item(rest), Item(rest));
    assert Markers(ps + [Item(rest)]) == Markers(ps);
    ClosedBefore(ps, [Item(rest)]);
    ItemAppended(ps, rest);
  }

  lemma ItemOpensList(ps: seq<Piece>, rest: string)
    requires ListsWellFormed(ps, false)
    ensures ListsWellFormed(ps + [ListOpen, Item(rest)], true)
  {
    var qs := [ListOpen, Item(rest)];
    MarkersAppend(ps, qs);
    MarkersOf(ListOpen, Item(rest));
    MarkersOf(Item(rest), Item(rest));
    assert Markers(ps + qs) == Markers(ps) + [true];
    AlternatingSnoc(Markers(ps), true);
    ClosedBefore(ps, qs);
    ItemOpening(ps, rest);
  }

  /** A list opened and its first item appended. */
  lemma ItemOpening(ps: seq<Piece>, rest: string)
    requires ItemsInList(ps) && |Markers(ps)| % 2 == 0
    ensures ItemsInList(ps + [ListOpen, Item(rest)])
  {
    MarkersAppend(ps, [ListOpen]);
    MarkersOf(ListOpen, ListOpen);
    ItemsSnoc(ps, ListOpen);
    ItemsSnoc(ps + [ListOpen], Item(rest));
    assert ps + [ListOpen] + [Item(rest)] == ps + [ListOpen, Item(rest)];
  }

  /** An item appended inside an open list. */
  lemma ItemAppended(ps: seq<Piece>, rest: string)
    requires ItemsInList(ps) && |Markers(ps)| % 2 == 1
    ensures ItemsInList(ps + [Item(rest)])
  {
    ItemsSnoc(ps, Item(rest));
  }

  /** A paragraph: `</ul>` first when the list was open, right before the paragraph. */
  lemma ParaStep(ps: seq<Piece>, open: bool, line: string)
    requires ListsWellFormed(ps, open)
    ensures ListsWellFormed(ps + (if open then [ListClose, Para(line)] else [Para(line)]), false)
  {
    var qs := if open then [ListClose, Para(line)] else [Para(line)];
    MarkersAppend(ps, qs);
    MarkersOf(ListClose, Para(line));
    MarkersOf(Para(line), Para(line));
    if open {
      AlternatingSnoc(Markers(ps), false);
    }
    ClosesAfter(ps, open, line);
    ItemsBefore(ps, qs);
  }

  lemma ClosesAfter(ps: seq<Piece>, open: bool, line: string)
    requires ClosesBeforePara(ps)
    ensures ClosesBeforePara(ps + (if open then [ListClose, Para(line)] else [Para(line)]))
  {
    var qs := if open then [ListClose, Para(line)] else [Para(line)];
    var all := ps + qs;
    forall k | 0 <= k < |all| && all[k] == ListClose ensures k + 1 < |all| && all[k + 1].Para? {
      if k < |ps| {
        assert all[k] == ps[k];
      }
    }
  }

  /** Any other fragments, of at most two, with no list marker and no item. */
  lemma OtherStep(ps: seq<Piece>, open: bool, qs: seq<Piece>)
    requires ListsWellFormed(ps, open)
    requires |qs| <= 2
    requires forall k | 0 <= k < |qs| :: qs[k] != ListOpen && qs[k] != ListClose && !qs[k].Item?
    ensures ListsWellFormed(ps + qs, open)
  {
    MarkersAppend(ps, qs);
    assert Markers(qs) == [] by {
      if |qs| == 1 {
        MarkersOf(qs[0], qs[0]);
      } else if |qs| == 2 {
        assert qs == [qs[0], qs[1]];
        MarkersOf(qs[0], qs[1]);
        MarkersOf(qs[1], qs[1]);
      }
    }
    assert Markers(ps + qs) == Markers(ps);
    ClosedBefore(ps, qs);
    ItemsBefore(ps, qs);
  }

  /** Appending fragments with no `</ul>` keeps every earlier `</ul>` followed by a paragraph. */
  lemma ClosedBefore(ps: seq<Piece>, qs: seq<Piece>)
    requires ClosesBeforePara(ps)
    requires ListClose !in qs
    ensures ClosesBeforePara(ps + qs)
  {
    var all := ps + qs;
    forall k | 0 <= k < |all| && all[k] == ListClose ensures k + 1 < |all| && all[k + 1].Para? {
      assert all[k] == ps[k];
    }
  }

  /** Appending fragments with no item keeps every earlier item inside an open list. */
  lemma {:induction false} ItemsBefore(ps: seq<Piece>, qs: seq<Piece>)
    requires ItemsInList(ps)
    requires forall k | 0 <= k < |qs| :: !qs[k].Item?
    ensures ItemsInList(ps + qs)
    decreases |qs|
  {
    if qs == [] {
      assert ps + qs == ps;
    } else {
      var front := qs[..|qs| - 1];
      ItemsBefore(ps, front);
      ItemsSnoc(ps + front, qs[|qs| - 1]);
      assert ps + front + [qs[|qs| - 1]] == ps + qs;
    }
  }

  /** The whole document keeps the list rules: the closing `</table>` is no list marker. */
  lemma ListsInDocument(lines: seq<string>)
    ensures ListsWellFormed(Pieces(lines), Fold(lines).0.listOpen)
  {
    FoldLists(lines);
    var (f, ps) := Fold(lines);
    var tail := if f.tableOpen then [TableClose] else [];
    OtherStep(ps, f.listOpen, tail);
    assert Pieces(lines) == ps + tail;
  }

  /** A document whose last non-blank line is a list item ends with its list still open: one
      more `<ul>` than `</ul>`, as nothing but a paragraph closes a list (app.py:112-115,
      app.py:120-124). */
  lemma ListLeftOpen(before: seq<string>, item: string, blanks: seq<string>)
    requires Classify(item).ListLine?
    requires forall j | 0 <= j < |blanks| :: AllSpace(blanks[j])
    ensures var lines := before + [item] + blanks;
      Fold(lines).0.listOpen && |Markers(Pieces(lines))| % 2 == 1
  {
    var lines := before + [item] + blanks;
    BlankTail(before + [item], blanks);
    assert (before + [item])[..|before|] == before;
    ListsInDocument(lines);
  }

  /** A table line right after a list item leaves both flags set: the list is not closed by
      the table. */
  lemma ListThenTable(before: seq<string>, item: string, row: string)
    requires Classify(item).ListLine? && '|' in row
    ensures Fold(before + [item, row]).0 == Flags(true, true)
  {
    ClassifyTable(row);
    var lines := before + [item, row];
    assert lines[..|lines| - 1] == before + [item];
    assert (before + [item])[..|before|] == before;
  }

  // ---------------------------------------------------------------------------
  // Paragraphs.

  /** A paragraph line emits the paragraph of its stripped text, after `</ul>` when a list was
      open (app.py:112-118). */
  lemma ParagraphStep(f: Flags, raw: string)
    requires Classify(raw).ParaLine?
    ensures Step(f, raw) == (f.(listOpen := false), if f.listOpen then [ListClose, Para(Strip(raw))] else [Para(Strip(raw))])
  {
    ClassifyParagraph(raw);
  }

  /** The markup of a paragraph is `handle_links(escape_html(line))` in `<p>`; when the line has
      no `[`, no `@` and its escaped text no `http://` or `https://`, that is the escaped line
      itself. */
  lemma PlainParagraph(line: string)
    requires '[' !in line && '@' !in line && !HasUrlStart(EscapeHtml(line))
    ensures PieceHtml(Para(line)) == POpen + EscapeHtml(line) + PClose
  {
    EscapeKeeps(line, '[');
    EscapeKeeps(line, '@');
    HandleLinksPlain(EscapeHtml(line));
  }

  /** A one-line document that is plain paragraph text renders as that one escaped
      paragraph inside the `<div>`. */
  lemma SingleParagraph(text: string)
    requires '\n' !in text && Classify(text).ParaLine?
    requires '[' !in text && '@' !in text && !HasUrlStart(EscapeHtml(Strip(text)))
    ensures Rendered(text) == DivOpen + (POpen + EscapeHtml(Strip(text)) + PClose) + DivClose
  {
    SplitWithout(text, '\n');
    ParagraphStep(Start, text);
    StripKeeps(text, '[');
    StripKeeps(text, '@');
    PlainParagraph(Strip(text));
    var p := Para(Strip(text));
    assert [text][..0] == [];
    assert Step(Start, text) == (Start, [p]);
    assert Fold([text]) == (Start, [] + [p]);
    assert [] + [p] == [p];
    assert Pieces([text]) == [p];
    HtmlOne(p);
  }
}
