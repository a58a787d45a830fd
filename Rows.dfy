/** Cells of a pipe-delimited table line, shared by the renderer and the table extractor. */
module Rows {
  import opened Text

  /** `[seg.strip() for seg in line.split("|")]`: every segment, empty ones included. */
  function Segments(line: string): (r: seq<string>)
    ensures |r| == |Split(line, '|')|
    ensures forall k | 0 <= k < |r| :: r[k] == Strip(Split(line, '|')[k])
  {
    var parts := Split(line, '|');
    seq(|parts|, k requires 0 <= k < |parts| => Strip(parts[k]))
  }

  /** The cells that are not empty, in order. */
  function NonEmpty(cells: seq<string>): seq<string> {
    if cells == [] then []
    else NonEmpty(cells[..|cells| - 1]) + (if cells[|cells| - 1] != [] then [cells[|cells| - 1]] else [])
  }

  /** `[cell.strip() for cell in line.split("|") if cell.strip()]` */
  function RowCells(line: string): seq<string> {
    NonEmpty(Segments(line))
  }

  /** There is one segment more than there are `|` characters, each the stripped text
      between two of them, none holding a `|`. */
  lemma SegmentsCount(line: string)
    ensures |Segments(line)| == Occurrences(line, '|') + 1
    ensures forall k | 0 <= k < |Segments(line)| :: '|' !in Segments(line)[k]
  {
    SplitPieces(line, '|');
    forall k | 0 <= k < |Segments(line)| ensures '|' !in Segments(line)[k] {
      StripKeeps(Split(line, '|')[k], '|');
    }
  }

  /** Filtering keeps exactly the non-empty cells, in their order. */
  lemma {:induction false} NonEmptyAppend(a: seq<string>, b: seq<string>)
    ensures NonEmpty(a + b) == NonEmpty(a) + NonEmpty(b)
    decreases |b|
  {
    if b == [] {
      assert a + b == a;
    } else {
      assert (a + b)[..|a + b| - 1] == a + b[..|b| - 1];
      NonEmptyAppend(a, b[..|b| - 1]);
    }
  }

  lemma {:induction false} NonEmptyMembers(cells: seq<string>)
    ensures forall c :: c in NonEmpty(cells) <==> c in cells && c != []
    ensures |NonEmpty(cells)| <= |cells|
  {
    if cells != [] {
      NonEmptyMembers(cells[..|cells| - 1]);
      assert cells == cells[..|cells| - 1] + [cells[|cells| - 1]];
    }
  }

  /** Every cell of a row is non-empty, already stripped and free of `|`; the cells are the
      non-empty segments, so a line without `|` has at most one. */
  lemma RowCellsShape(line: string)
    ensures forall c | c in RowCells(line) :: c != [] && Strip(c) == c && '|' !in c
    ensures |RowCells(line)| <= Occurrences(line, '|') + 1
  {
    NonEmptyMembers(Segments(line));
    SegmentsCount(line);
    forall c | c in RowCells(line) ensures Strip(c) == c && '|' !in c {
      var k :| 0 <= k < |Segments(line)| && Segments(line)[k] == c;
      StripIdempotent(Split(line, '|')[k]);
    }
  }
}
