/** What `get_html` makes of a single line: the order of its `if`/`elif` chain, and how each
    kind of line gives back the stripped line it came from. */
module Lines {
  import opened Text
  import opened Escape
  import opened Links
  import opened Render

  /** `n` hash signs. */
  function Hashes(n: nat): (r: string)
    ensures |r| == n && forall i | 0 <= i < n :: r[i] == '#'
  {
    seq(n, _ => '#')
  }

  /** The stripped line a kind of line is read from; the inverse of `Classify`. */
  function Unclassify(kind: LineKind): string {
    match kind
    case Blank => []
    case TableLine(line) => line
    case HeadingLine(level, rest) => (if level > 0 then Hashes(level - 1) else []) + " " + rest
    case BoldLine(inner) => "**" + inner + "**"
    case ListLine(rest) => "* " + rest
    case ParaLine(line) => line
  }

  /** A line is skipped exactly when it is all whitespace. */
  lemma ClassifyBlank(raw: string)
    ensures Classify(raw) == Blank <==> AllSpace(raw)
  {
    StripEmpty(raw);
  }

  /** The `|` test comes first and looks at the whole line: a line holding a `|` anywhere is a
      table line, and a table line is the stripped line. */
  lemma ClassifyTable(raw: string)
    ensures Classify(raw).TableLine? <==> '|' in raw
    ensures Classify(raw).TableLine? ==> Classify(raw).line == Strip(raw)
  {
    StripKeeps(raw, '|');
  }

  /** A line differing from `p` at a position inside both does not start with `p`. */
  lemma NotPrefix(line: string, p: string, i: nat)
    requires i < |p| && i < |line| && line[i] != p[i]
    ensures !StartsWith(line, p)
  {
  }

  /** The prefix `"#" * n + " "` with `n` from 1 to 5, and no `|` in the line, gives the heading
      `h(n + 1)` holding what follows the prefix. */
  lemma ClassifyHeading(raw: string, n: nat, rest: string)
    requires 1 <= n <= 5 && '|' !in raw
    requires Strip(raw) == Hashes(n) + " " + rest
    ensures Classify(raw) == HeadingLine(n + 1, rest)
  {
    StripKeeps(raw, '|');
    HeadingOf(Strip(raw), n, rest);
  }

  /** A line opening with `n` hash signs and a space starts with that heading prefix of the
      `if`/`elif` chain and with no other. */
  lemma HeadingOf(line: string, n: nat, rest: string)
    requires 1 <= n <= 5 && line == Hashes(n) + " " + rest
    ensures line != [] && line[n + 1..] == rest
    ensures StartsWith(line, "# ") <==> n == 1
    ensures StartsWith(line, "## ") <==> n == 2
    ensures StartsWith(line, "### ") <==> n == 3
    ensures StartsWith(line, "#### ") <==> n == 4
    ensures StartsWith(line, "##### ") <==> n == 5
  {
    HeadingPrefixes();
    assert line[n] == ' ';
    assert forall i | 0 <= i < n :: line[i] == '#';
    forall m | 1 <= m <= 5 ensures StartsWith(line, Hashes(m) + " ") <==> m == n {
      var p := Hashes(m) + " ";
      if m == n {
        assert line[..n + 1] == p;
      } else if m < n {
        NotPrefix(line, p, m);
      } else {
        NotPrefix(line, p, n);
      }
    }
    assert line[n + 1..] == rest;
  }

  lemma HeadingPrefixes()
    ensures Hashes(1) + " " == "# " && Hashes(2) + " " == "## " && Hashes(3) + " " == "### "
    ensures Hashes(4) + " " == "#### " && Hashes(5) + " " == "##### "
  {
  }

  /** A line starting with `*` is not a heading. */
  lemma StarNotHeading(line: string)
    requires |line| >= 2 && line[0] == '*'
    ensures !StartsWith(line, "# ") && !StartsWith(line, "## ") && !StartsWith(line, "### ")
    ensures !StartsWith(line, "#### ") && !StartsWith(line, "##### ")
  {
    NotPrefix(line, "# ", 0);
    NotPrefix(line, "## ", 0);
    NotPrefix(line, "### ", 0);
    NotPrefix(line, "#### ", 0);
    NotPrefix(line, "##### ", 0);
  }

  /** A line framed by `**`, with no `|`, is bold with the text between the frames. */
  lemma ClassifyBold(raw: string, inner: string)
    requires '|' !in raw
    requires Strip(raw) == "**" + inner + "**"
    ensures Classify(raw) == BoldLine(inner)
  {
    StripKeeps(raw, '|');
    var line := Strip(raw);
    assert line[0] == '*';
    StarNotHeading(line);
    assert line[..2] == "**" && line[|line| - 2..] == "**";
    assert line[2..|line| - 2] == inner;
  }

  /** A `* ` prefix, with no `|`, is a list item holding what follows it: no heading or bold
      test claims it first. */
  lemma ClassifyItem(raw: string, rest: string)
    requires '|' !in raw
    requires Strip(raw) == "* " + rest
    ensures Classify(raw) == ListLine(rest)
  {
    StripKeeps(raw, '|');
    var line := Strip(raw);
    assert line[0] == '*' && line[1] == ' ';
    StarNotHeading(line);
    NotPrefix(line, "**", 1);
    assert line[..2] == "* " && line[2..] == rest;
  }

  /** Every kind records the stripped line it was read from, except a bold line of two or three
      characters (`**`, `***`), whose `line[2:-2]` is empty. Heading levels run from 2 to 6. */
  lemma ClassifyInverse(raw: string)
    ensures Classify(raw).HeadingLine? ==> 2 <= Classify(raw).level <= 6
    ensures !(Classify(raw).BoldLine? && |Strip(raw)| < 4) ==> Unclassify(Classify(raw)) == Strip(raw)
    ensures Classify(raw).BoldLine? && |Strip(raw)| < 4 ==> Classify(raw).inner == []
  {
    var line := Strip(raw);
    if line == [] || '|' in line {
    } else if StartsWith(line, "# ") {
      HeadingInverse(line, 2, line[2..]);
    } else if StartsWith(line, "## ") {
      HeadingInverse(line, 3, line[3..]);
    } else if StartsWith(line, "### ") {
      HeadingInverse(line, 4, line[4..]);
    } else if StartsWith(line, "#### ") {
      HeadingInverse(line, 5, line[5..]);
    } else if StartsWith(line, "##### ") {
      HeadingInverse(line, 6, line[6..]);
    } else if StartsWith(line, "**") && EndsWith(line, "**") {
      BoldInverse(line);
    } else if StartsWith(line, "* ") {
      PrefixInverse(line, "* ");
    }
  }

  lemma PrefixInverse(line: string, p: string)
    requires StartsWith(line, p)
    ensures line == p + line[|p|..]
  {
    assert line == line[..|p|] + line[|p|..];
  }

  lemma HeadingInverse(line: string, level: nat, rest: string)
    requires
      || (level == 2 && StartsWith(line, "# ") && rest == line[2..])
      || (level == 3 && StartsWith(line, "## ") && rest == line[3..])
      || (level == 4 && StartsWith(line, "### ") && rest == line[4..])
      || (level == 5 && StartsWith(line, "#### ") && rest == line[5..])
      || (level == 6 && StartsWith(line, "##### ") && rest == line[6..])
    ensures 2 <= level <= 6 && Hashes(level - 1) + " " + rest == line
  {
    var p := Hashes(level - 1) + " ";
    assert line[..level] == p;
    PrefixInverse(line, p);
  }

  lemma BoldInverse(line: string)
    requires StartsWith(line, "**") && EndsWith(line, "**")
    ensures |line| >= 4 ==> "**" + TrimTwo(line) + "**" == line
  {
  }

  /** A paragraph line is a non-blank line with no `|` that none of the earlier tests takes. */
  lemma ClassifyParagraph(raw: string)
    requires Classify(raw).ParaLine?
    ensures Classify(raw).line == Strip(raw) != [] && '|' !in raw
    ensures forall n | 1 <= n <= 5 :: !StartsWith(Strip(raw), Hashes(n) + " ")
    ensures !StartsWith(Strip(raw), "* ")
    ensures !(StartsWith(Strip(raw), "**") && EndsWith(Strip(raw), "**"))
  {
    ClassifyTable(raw);
    var line := Strip(raw);
    forall n | 1 <= n <= 5 ensures !StartsWith(line, Hashes(n) + " ") {
      if StartsWith(line, Hashes(n) + " ") {
        var rest := line[n + 1..];
        assert line == Hashes(n) + " " + rest by {
          assert line == line[..n + 1] + line[n + 1..];
        }
        ClassifyHeading(raw, n, rest);
      }
    }
  }
}
