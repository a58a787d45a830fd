# Reply rendering of the document chatbot, in Dafny

The chatbot in `app.py` turns the text of a model's reply into HTML before sending it to
the browser. This project models that path and proves properties of it:

- `escape_html` — the chain of five `str.replace` calls;
- `handle_links` — three `re.sub` passes: markdown links, bare URLs, e-mail addresses;
- `get_html` — the line loop with its `list_open` / `table_open` flags;
- `extract_table_from_response` — the scan for pipe-delimited rows;
- the part of `chat` that chooses between a standalone table and `get_html`, and builds
  the table.

Modules:

- `Options` — `Option`.
- `Text` — the Python string built-ins used: `strip`, `split` on one character, `join`,
  `startswith`/`endswith`, `s[2:-2]`.
- `Escape` — `escape_html` as written. The module also has a per-character reference
  escape and an inverse (`Unescape`).
- `Links` — each regular expression as an exact scanner: the non-greedy `.*?`, the greedy
  `[s]?`, the greedy `{2,}`, and `\b` with backtracking. Each `re.sub` is a left-to-right
  pass that resumes after each match.
- `Rows` — the stripped segments of a table line, and the non-empty ones.
- `Render` — `get_html`, in two forms:
  - as a function: `Classify` is the `if`/`elif` chain. `Step` is one iteration, a fold over
    the lines that emits fragments (`Piece`) whose markup `Html` concatenates.
  - as imperative methods that append to a string, with loops over the cells. Each method
    is proved equal to the function: `GetHtml`, `RenderLine`, `HeaderRowHtml`,
    `DataRowHtml`.
- `Lines` — how each kind of line is recognised.
- `Document` — properties of whole documents: tables, lists, blank lines, paragraphs.
- `Extract` — two methods, each proved against a function that states what it computes:
  - `ExtractTable`, proved against `Extracted`;
  - the reply `ChatResponse`, proved against `Respond`.

Behaviour of the code that the model keeps, and that a reader might not expect:

- `# ` gives `<h2>` and `##### ` gives `<h6>`; there is no `<h1>`.
- A header row (a table line holding `-`) has a `<th>` for every segment, empty ones
  included. A data row drops empty segments.
- A list is closed only by a paragraph line. A document that ends inside a list leaves
  `<ul>` unclosed (`ListLeftOpen`).
- A table line does not close an open list, so both flags can be set at once
  (`ListThenTable`).
- `[Docs](http://example.com)` is wrapped twice, and so is a link to an `https://` URL. The URL pass matches the URL inside the
  anchor the link pass made (`LinkToUrlIsWrappedTwice`).
- In the standalone table, a markdown separator line such as `---|---` is a data row of
  dashes (`SeparatorQualifies`).
- A reply with one qualifying line has headers but no data, so it falls back to `get_html`
  (`RespondChoice`).

The lemmas named above state what the code does.

## Model

| member | source | states |
|---|---|---|
| Text.Strip | app.py:62 | the stripped line is the slice of the line that starts at its first non-whitespace character and leaves only whitespace after it, and it has no whitespace at either end |
| Text.StripKeeps | app.py:62 | a non-whitespace character occurs in the stripped line exactly when it occurs in the line |
| Text.StripEmpty | app.py:62-64 | a line strips to the empty string exactly when it is all whitespace |
| Text.StripIdempotent | app.py:150 | stripping an already stripped cell changes nothing |
| Text.StripFixed | app.py:150 | a string with no whitespace at either end is its own strip |
| Text.Split | app.py:56 | splitting gives at least one piece, even for the empty text |
| Text.SplitJoin | app.py:56 | joining the pieces with the separator gives back the text |
| Text.SplitPieces | app.py:74 | no piece holds the separator, and there is one more piece than separators |
| Text.SplitWithout | app.py:145 | text without the separator splits to itself alone |
| Text.SplitAppend | app.py:150 | a piece without the separator, then the separator, comes off the front of the split |
| Text.JoinSplit | app.py:145 | splitting the newline-join of a non-empty list of newline-free lines gives those lines back |
| Text.TrimTwo | app.py:102 | `line[2:-2]` is the middle of the line without two characters at each end, and empty for lines shorter than four |
| Escape.EscapeChar | app.py:46-52 | a character is one of the five special ones exactly when its entity is longer than one character |
| Escape.EscapeIsPerChar | app.py:46-52 | the replacement chain, `&` first, equals escaping each character on its own: no entity is escaped twice |
| Escape.EscapeAppend | app.py:46-52 | escaping a concatenation is the concatenation of the escapes |
| Escape.EscapedHasNoMarkup | app.py:46-52 | no `<`, `>`, `"` or `'` survives escaping |
| Escape.EscapeLonger | app.py:46-52 | escaping never shortens text |
| Escape.EscapePlain | app.py:46-52 | text with none of the five special characters is unchanged |
| Escape.EscapeKeeps | app.py:46-52 | a character that is not one of the five special ones and is found in no entity occurs in the escaped text exactly when it occurs in the text |
| Escape.UnescapeEscape | app.py:46-52 | decoding the five entities after escaping gives back the original text |
| Links.CloseParen | app.py:34 | the `(.*?)\)` part finds the first `)` with no newline before it, and finds nothing when every `)` has a newline before it |
| Links.LinkFrom | app.py:34 | a link match has `](` after the caption and `)` after the url, with no newline in either; the url ends at the first `)`; the caption is the shortest one (non-greedy `.*?`), as no earlier `](` is followed by a closing `)`; no match means no `](` with a closing `)` before the first newline |
| Links.UrlAt | app.py:37 | a URL match starts with `http://` or `https://` followed by a non-space character, holds no whitespace and ends at the first whitespace or at the end; no match means no such prefix with a non-space after it |
| Links.EmailAt | app.py:40 | an e-mail match starts and ends on a word boundary and holds an `@` |
| Links.TldFrom | app.py:40 | the top-level domain has at least two characters and ends on a word boundary |
| Links.DomainFrom | app.py:40 | the domain, `.` and top-level domain end on a word boundary at least three characters on |
| Links.LinkPassPlain | app.py:34-35 | text without `[` passes the link pass unchanged |
| Links.UrlPassPlain | app.py:37-38 | text with no `http://` or `https://` passes the URL pass unchanged |
| Links.EmailPassPlain | app.py:40-41 | text without `@` passes the e-mail pass unchanged |
| Links.HandleLinksPlain | app.py:33-43 | `handle_links` leaves text with no `[`, no URL start and no `@` unchanged |
| Links.LinkPassLink | app.py:34-35 | for a caption with no `]` and a url with no `)`, neither holding a newline, `[caption](url)` becomes one anchor with the url as `href` and the caption as text, and scanning resumes after the `)` |
| Links.UrlPassCopies | app.py:37-38 | a stretch where no URL starts is copied through |
| Links.UrlPassUrl | app.py:37-38 | a bare URL (`http://` or `https://`, at least one more character, no whitespace) followed by whitespace or the end becomes one anchor with the URL as both `href` and text |
| Links.LinkToUrlIsWrappedTwice | app.py:33-43 | for a caption with no whitespace, `]` or `@`, a markdown link to a bare `http://` or `https://` URL with at least one more character and no whitespace, `)` or `@` comes out wrapped twice; the outer anchor's `href` and text run from the URL to the end of the inner anchor |
| Links.EmailFromCopies | app.py:40-41 | a stretch where no address starts is copied through |
| Links.EmailAtEnd | app.py:40-41 | an address `local@domain.tld` (a local part of `[A-Za-z0-9._%+-]` starting with a word character, a non-empty domain of `[A-Za-z0-9.-]`, a top-level domain of at least two letters) after a space at the end of a line with no earlier `@` becomes one `mailto:` anchor, and the text before it is unchanged |
| Rows.SegmentsCount | app.py:150 | there is one more segment than `\|` characters, and no segment holds a `\|` |
| Rows.NonEmptyMembers | app.py:150 | filtering keeps exactly the non-empty cells and never adds any |
| Rows.RowCellsShape | app.py:150 | every cell of a row is non-empty, stripped and free of `\|`, and there are at most one more cells than `\|` characters |
| Render.Rendered | app.py:55-125 | the output of `get_html` always opens with the `<div>` opener and ends with `</div>` |
| Render.HeaderRowHtml | app.py:74-78 | the header-row loop appends `<tr>`, a `<th>` for every stripped, escaped segment, then `</tr>` |
| Render.DataRowHtml | app.py:80-86 | the data-row loop appends `<tr>`, a `<td>` for every segment that is non-empty once stripped, then `</tr>` |
| Render.DataCellsHtml | app.py:82-85 | the cell loop appends exactly the escaped non-empty stripped cells, in order |
| Render.RenderTableLine | app.py:67-86 | a table line appends `<table>` first when none is open, then its row; the table is then open |
| Render.RenderListItem | app.py:105-109 | a list item appends `<ul>` first when no list is open, then `<li>`; the list is then open |
| Render.RenderParagraph | app.py:112-118 | a paragraph appends `</ul>` first when a list is open, then the linkified escaped line in `<p>`; the list is then closed |
| Render.RenderKind | app.py:66-118 | the branch taken for each kind of line appends that kind's fragments and updates the flags as one fold step does |
| Render.RenderLine | app.py:61-118 | one loop iteration appends the markup of the fragments of `Step` and leaves the flags as `Step` sets them |
| Render.GetHtml | app.py:55-125 | the imperative `get_html` produces exactly `Rendered(text)`: the fold over the split lines, then `</table>` when a table is open, inside the `<div>` |
| Lines.ClassifyBlank | app.py:62-64 | a line is skipped exactly when it is all whitespace |
| Lines.ClassifyTable | app.py:67 | a line is a table line exactly when it holds `\|` anywhere, before any other test, and the table line is the stripped line |
| Lines.HeadingOf | app.py:89-98 | a line opening with n hash signs and a space (n from 1 to 5) matches that heading prefix and no other |
| Lines.ClassifyHeading | app.py:89-98 | for a line with no `\|`, n hash signs and a space (n from 1 to 5) give heading level n + 1 holding the rest of the line |
| Lines.ClassifyBold | app.py:101-102 | for a line with no `\|`, a line framed by `**` is bold with the text between the frames |
| Lines.ClassifyItem | app.py:105 | for a line with no `\|`, a `* ` prefix gives a list item holding the rest; neither the heading test nor the bold test takes it first |
| Lines.ClassifyInverse | app.py:62-117 | every kind gives back the stripped line it was read from, except a bold line of two or three characters, whose text is empty; heading levels run from 2 to 6 |
| Lines.ClassifyParagraph | app.py:112 | a paragraph line is non-blank, holds no `\|`, and matches no heading, bold or list test |
| Document.BlankStep | app.py:62-64 | a blank line emits nothing and changes no flag |
| Document.BlankTail | app.py:61-64 | blank lines at the end of a document change neither the flags nor the output |
| Document.TableStep | app.py:67-70 | one line sets the table flag exactly when it holds `\|` or the flag was set; it emits `<table>` only when it opens the table, and no row before a `<table>` |
| Document.FoldTables | app.py:67-70 | after any prefix of a document, the table flag is set exactly when some line held `\|`; `<table>` was emitted once then and never otherwise; `</table>` not yet; every row follows the `<table>` |
| Document.TablesInDocument | app.py:120-122 | a document has at most one `<table>` and as many `</table>`, exactly one when some line holds `\|`, and that is the last fragment |
| Document.HeaderCellsShape | app.py:74-77 | a header row has one cell per segment, empty ones included, and each cell decodes to its stripped segment |
| Document.DataCellsShape | app.py:80-85 | a data row has one non-empty cell per non-empty segment, and each cell decodes to its stripped segment |
| Document.ListStep | app.py:105-115 | one line keeps the list rules: markers alternate, the flag tracks them, `</ul>` is followed by a paragraph, items sit inside a list |
| Document.ItemStep | app.py:105-109 | a list item keeps the list rules and leaves the list open |
| Document.ParaStep | app.py:112-118 | a paragraph keeps the list rules and leaves the list closed |
| Document.FoldLists | app.py:105-115 | after any prefix of a document, `<ul>` and `</ul>` alternate, starting with `<ul>`; the list flag is set exactly when one more `<ul>` than `</ul>` was emitted; every `</ul>` is followed at once by a paragraph; every item is inside an open list |
| Document.ListsInDocument | app.py:105-122 | the list rules hold for the whole document, the final `</table>` included |
| Document.ListLeftOpen | app.py:112-124 | a document whose last non-blank line is a list item ends with the list open: one more `<ul>` than `</ul>` |
| Document.ListThenTable | app.py:67-109 | a table line right after a list item leaves both flags set |
| Document.ParagraphStep | app.py:112-118 | a paragraph line emits the paragraph of its stripped text, after `</ul>` when a list was open, and closes the list |
| Document.PlainParagraph | app.py:117-118 | a paragraph with no `[`, no `@` and no URL start in its escaped text is the escaped line in `<p>` |
| Document.SingleParagraph | app.py:55-125 | a one-line plain document renders as its one escaped paragraph inside the `<div>` |
| Extract.HeadAndRest | app.py:152-155 | there are no headers exactly when there is no row, and then no data; otherwise the first row is the headers and the others, in order, the data |
| Extract.ExtractTable | app.py:141-157 | the loop returns the headers and data of `Extracted(text)`: the first qualifying row, then the rest in order |
| Extract.QualifyingAppend | app.py:147-155 | the rows of two runs of lines are the rows of each, in order |
| Extract.QualifyingMembers | app.py:147-155 | there are no more rows than lines; every row is the cells of a qualifying line; every qualifying line's cells are a row; no row exactly when no line qualifies |
| Extract.QualifyingShape | app.py:150-151 | every row found has at least two cells, each non-empty, stripped and free of `\|` |
| Extract.ExtractedShape | app.py:141-157 | headers are absent exactly when no line qualifies, and then there is no data; otherwise the headers and every data row are well-formed rows, and the data has one row fewer than there are qualifying lines |
| Extract.TwoCells | app.py:149-151 | a line `a\|b` with non-blank sides and no other `\|` has the two stripped sides as cells and qualifies |
| Extract.SeparatorQualifies | app.py:149-151 | a separator line of dashes on both sides of `\|` qualifies as a row of dashes |
| Extract.AllQualify | app.py:147-155 | when every line qualifies, the rows are the cells of the lines, one per line, in order |
| Extract.TableReply | app.py:141-157 | for a non-empty reply made only of qualifying lines (each with at least two non-empty cells), the first line's cells are the headers and the other lines' cells, in order, the data |
| Extract.AppendCells | app.py:214-221 | the inner loop appends each escaped cell between its opening and closing tag, in order |
| Extract.AppendRow | app.py:213-222 | a row is appended as `<tr>`, its cells, `</tr>` |
| Extract.BuildTable | app.py:211-223 | the table-building loops produce `<table>`, the header row of `<th>`, one `<td>` row per data row, `</table>` |
| Extract.BodyRowsAppend | app.py:218-222 | the data rows of two runs of rows are the rows of each, in order |
| Extract.BodyRowsAsRendered | app.py:218-222 | when every line qualifies, the standalone table's data rows are exactly the `<tr>` rows `get_html` emits for the same lines read as data rows |
| Extract.ChatResponse | app.py:208-229 | the reply is `Respond(text)`: the standalone table when there is data, the `get_html` rendering otherwise |
| Extract.RespondChoice | app.py:208-229 | the reply is the table of the first qualifying row and the rest exactly when at least two lines qualify, and otherwise `get_html` of the text; it ends with `</table>` exactly in the first case and with `</div>` exactly in the second |

## Left out

- The Flask route, the JSON request and response envelopes, and the 400/404/500 error
  replies are plumbing around the core. So are the call to the completion API, reading the
  `.docx` file (`extract_text_from_word`), `generate_system_prompt` and the configuration.
  The reply text is a parameter of `ChatResponse`.
- Whitespace is ASCII whitespace (`IsSpace`) for `str.strip` and for `\s`, and `\b` uses
  ASCII word characters. Python applies Unicode rules to both.
- `get_html`'s `is_table` parameter is never read by the code, so the model has no such
  parameter.
- `extract_table_from_response` tests `if not headers` (app.py:152). The model tests `headers.None?`, which is the same thing:
  a row always has at least two cells, so it is never an empty list.
- `TableReply` states the reply `A | B` / `1 | 2` / `3 | 4` for all replies of that shape,
  and `EmailAtEnd` does the same for `contact us at a@b.com`; neither sample is a lemma of
  its own.
- EmailAtEnd: covers only an address at the end of a line, after a space. A match
  elsewhere in the line is modelled by the scanner `EmailFrom`, but no lemma states it.
