/** `escape_html`: five chained `str.replace` calls, `&` first. */
module Escape {
  import opened Text

  /** `s.replace(c, repl)` for a one-character pattern: every occurrence of `c` is replaced. */
  function ReplaceChar(s: string, c: char, repl: string): string {
    if s == [] then []
    else (if s[0] == c then repl else [s[0]]) + ReplaceChar(s[1..], c, repl)
  }

  /** `escape_html(text)`, as the chain of replacements it is written as. */
  function EscapeHtml(s: string): string {
    var amp := ReplaceChar(s, '&', "&amp;");
    var lt := ReplaceChar(amp, '<', "&lt;");
    var gt := ReplaceChar(lt, '>', "&gt;");
    var quot := ReplaceChar(gt, '"', "&quot;");
    ReplaceChar(quot, '\'', "&#039;")
  }

  predicate IsSpecial(c: char) {
    c == '&' || c == '<' || c == '>' || c == '"' || c == '\''
  }

  /** The entity each character turns into; any other character stands for itself. */
  function EscapeChar(c: char): (r: string)
    ensures IsSpecial(c) <==> |r| > 1
  {
    match c
    case '&' => "&amp;"
    case '<' => "&lt;"
    case '>' => "&gt;"
    case '"' => "&quot;"
    case '\'' => "&#039;"
    case _ => [c]
  }

  /** The reference definition: escaping character by character. */
  function EscapeEach(s: string): string {
    if s == [] then [] else EscapeChar(s[0]) + EscapeEach(s[1..])
  }

  /** Replacing is done piecewise over a concatenation. */
  lemma {:induction false} ReplaceAppend(a: string, b: string, c: char, repl: string)
    ensures ReplaceChar(a + b, c, repl) == ReplaceChar(a, c, repl) + ReplaceChar(b, c, repl)
  {
    if a == [] {
      assert a + b == b;
    } else {
      assert (a + b)[1..] == a[1..] + b;
      assert (a + b)[0] == a[0];
      ReplaceAppend(a[1..], b, c, repl);
    }
  }

  /** Replacing a character that does not occur changes nothing. */
  lemma {:induction false} ReplaceAbsent(s: string, c: char, repl: string)
    requires c !in s
    ensures ReplaceChar(s, c, repl) == s
  {
    if s != [] {
      assert s == [s[0]] + s[1..];
      ReplaceAbsent(s[1..], c, repl);
    }
  }

  lemma ReplaceSingle(x: char, c: char, repl: string)
    ensures ReplaceChar([x], c, repl) == if x == c then repl else [x]
  {
    assert [x][1..] == [];
  }

  /** A one-character string escapes to its entity. */
  lemma EscapeOne(x: char)
    ensures EscapeHtml([x]) == EscapeChar(x)
  {
    ReplaceSingle(x, '&', "&amp;");
    if x == '&' {
      EscapeAmp();
    } else {
      ReplaceSingle(x, '<', "&lt;");
      ReplaceSingle(x, '>', "&gt;");
      ReplaceSingle(x, '"', "&quot;");
      ReplaceSingle(x, '\'', "&#039;");
      if x == '<' {
        EscapeTail("&lt;", 1);
      } else if x == '>' {
        EscapeTail("&gt;", 2);
      } else if x == '"' {
        EscapeTail("&quot;", 3);
      }
    }
  }

  lemma EscapeAmp()
    ensures EscapeHtml("&") == "&amp;"
  {
    ReplaceSingle('&', '&', "&amp;");
    EscapeTail("&amp;", 0);
  }

  /** The replacements after stage `k` of the chain leave an entity alone. */
  lemma EscapeTail(e: string, k: nat)
    requires k < 4
    requires '<' !in e && '>' !in e && '"' !in e && '\'' !in e
    ensures k == 0 ==> ReplaceChar(ReplaceChar(ReplaceChar(ReplaceChar(e, '<', "&lt;"), '>', "&gt;"), '"', "&quot;"), '\'', "&#039;") == e
    ensures k == 1 ==> ReplaceChar(ReplaceChar(ReplaceChar(e, '>', "&gt;"), '"', "&quot;"), '\'', "&#039;") == e
    ensures k == 2 ==> ReplaceChar(ReplaceChar(e, '"', "&quot;"), '\'', "&#039;") == e
    ensures k == 3 ==> ReplaceChar(e, '\'', "&#039;") == e
  {
    ReplaceAbsent(e, '<', "&lt;");
    ReplaceAbsent(e, '>', "&gt;");
    ReplaceAbsent(e, '"', "&quot;");
    ReplaceAbsent(e, '\'', "&#039;");
  }

  lemma EscapeAppend(a: string, b: string)
    ensures EscapeHtml(a + b) == EscapeHtml(a) + EscapeHtml(b)
  {
    ReplaceAppend(a, b, '&', "&amp;");
    var a1, b1 := ReplaceChar(a, '&', "&amp;"), ReplaceChar(b, '&', "&amp;");
    ReplaceAppend(a1, b1, '<', "&lt;");
    var a2, b2 := ReplaceChar(a1, '<', "&lt;"), ReplaceChar(b1, '<', "&lt;");
    ReplaceAppend(a2, b2, '>', "&gt;");
    var a3, b3 := ReplaceChar(a2, '>', "&gt;"), ReplaceChar(b2, '>', "&gt;");
    ReplaceAppend(a3, b3, '"', "&quot;");
    var a4, b4 := ReplaceChar(a3, '"', "&quot;"), ReplaceChar(b3, '"', "&quot;");
    ReplaceAppend(a4, b4, '\'', "&#039;");
  }

  /** The chained replacements, `&` first, are exactly the per-character escape: no entity
      produced by a later replacement is escaped again. */
  lemma {:induction false} EscapeIsPerChar(s: string)
    ensures EscapeHtml(s) == EscapeEach(s)
  {
    if s == [] {
      assert EscapeHtml(s) == [];
    } else {
      assert s == [s[0]] + s[1..];
      EscapeAppend([s[0]], s[1..]);
      EscapeOne(s[0]);
      EscapeIsPerChar(s[1..]);
    }
  }

  /** No raw `<`, `>`, `"` or `'` survives escaping. */
  lemma {:induction false} EscapedHasNoMarkup(s: string)
    ensures forall i | 0 <= i < |EscapeHtml(s)| ::
      EscapeHtml(s)[i] !in {'<', '>', '"', '\''}
  {
    EscapeIsPerChar(s);
    EscapeEachNoMarkup(s);
  }

  lemma {:induction false} EscapeEachNoMarkup(s: string)
    ensures forall i | 0 <= i < |EscapeEach(s)| :: EscapeEach(s)[i] !in {'<', '>', '"', '\''}
  {
    if s != [] {
      EscapeEachNoMarkup(s[1..]);
      var e, rest := EscapeChar(s[0]), EscapeEach(s[1..]);
      assert forall i | 0 <= i < |e| :: e[i] !in {'<', '>', '"', '\''};
      forall i | 0 <= i < |e + rest| ensures (e + rest)[i] !in {'<', '>', '"', '\''} {
        if i >= |e| { assert (e + rest)[i] == rest[i - |e|]; }
      }
    }
  }

  /** Escaping never shortens text, so a non-empty cell stays non-empty. */
  lemma EscapeLonger(s: string)
    ensures |EscapeHtml(s)| >= |s|
  {
    EscapeIsPerChar(s);
    EscapeEachLonger(s);
  }

  lemma {:induction false} EscapeEachLonger(s: string)
    ensures |EscapeEach(s)| >= |s|
  {
    if s != [] {
      EscapeEachLonger(s[1..]);
    }
  }

  /** Text containing none of the five special characters is returned unchanged. */
  lemma {:induction false} EscapePlain(s: string)
    requires forall i | 0 <= i < |s| :: !IsSpecial(s[i])
    ensures EscapeHtml(s) == s
  {
    ReplaceAbsent(s, '&', "&amp;");
    ReplaceAbsent(s, '<', "&lt;");
    ReplaceAbsent(s, '>', "&gt;");
    ReplaceAbsent(s, '"', "&quot;");
    ReplaceAbsent(s, '\'', "&#039;");
  }

  /** Characters that no entity contains pass through escaping: one of them occurs in the
      escaped text exactly when it occurs in the original. */
  lemma {:induction false} EscapeKeeps(s: string, c: char)
    requires !IsSpecial(c) && c !in "amplgtquo#0139;"
    ensures c in EscapeHtml(s) <==> c in s
  {
    EscapeIsPerChar(s);
    EscapeEachKeeps(s, c);
  }

  lemma {:induction false} EscapeEachKeeps(s: string, c: char)
    requires !IsSpecial(c) && c !in "amplgtquo#0139;"
    ensures c in EscapeEach(s) <==> c in s
  {
    if s != [] {
      EscapeEachKeeps(s[1..], c);
      assert s == [s[0]] + s[1..];
      assert c in EscapeChar(s[0]) <==> c == s[0];
    }
  }

  /** Decoding the five entities; the inverse of escaping. */
  function Unescape(s: string): string
    decreases |s|
  {
    if s == [] then []
    else
      var (c, n) := DecodeFirst(s);
      [c] + Unescape(s[n..])
  }

  /** The character that `s` starts with once decoded, and how many characters it takes. */
  function DecodeFirst(s: string): (r: (char, nat))
    requires s != []
    ensures 1 <= r.1 <= |s|
  {
    if StartsWith(s, "&amp;") then ('&', 5)
    else if StartsWith(s, "&lt;") then ('<', 4)
    else if StartsWith(s, "&gt;") then ('>', 4)
    else if StartsWith(s, "&quot;") then ('"', 6)
    else if StartsWith(s, "&#039;") then ('\'', 6)
    else (s[0], 1)
  }

  /** Escaping loses nothing: unescaping the result gives back the original text. */
  lemma {:induction false} UnescapeEscape(s: string)
    ensures Unescape(EscapeHtml(s)) == s
  {
    EscapeIsPerChar(s);
    UnescapeEscapeEach(s);
  }

  lemma {:induction false} UnescapeEscapeEach(s: string)
    ensures Unescape(EscapeEach(s)) == s
  {
    if s != [] {
      UnescapeEscapeEach(s[1..]);
      UnescapeCons(s[0], EscapeEach(s[1..]));
      assert s == [s[0]] + s[1..];
    }
  }

  /** Decoding reads back the entity of one character and then carries on with the rest. */
  lemma UnescapeCons(c: char, rest: string)
    ensures Unescape(EscapeChar(c) + rest) == [c] + Unescape(rest)
  {
    var e := EscapeChar(c);
    var t := e + rest;
    DecodeEscaped(c, rest);
    assert t[|e|..] == rest;
  }

  /** The first entity of an escaped character decodes to that character. */
  lemma DecodeEscaped(c: char, rest: string)
    ensures DecodeFirst(EscapeChar(c) + rest) == (c, |EscapeChar(c)|)
  {
    var t := EscapeChar(c) + rest;
    if c == '&' {
      assert t[..5] == "&amp;";
    } else if c == '<' {
      assert t[1] == 'l' && t[..4] == "&lt;";
    } else if c == '>' {
      assert t[1] == 'g' && t[..4] == "&gt;";
    } else if c == '"' {
      assert t[1] == 'q' && t[..6] == "&quot;";
    } else if c == '\'' {
      assert t[1] == '#' && t[..6] == "&#039;";
    } else {
      assert t[0] == c;
    }
  }
}
