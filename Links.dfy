/** `handle_links`: three successive `re.sub` passes over one (already escaped) line --
    markdown links `\[(.*?)\]\((.*?)\)`, bare URLs `(http[s]?://[^\s]+)` and e-mail
    addresses `(\b[A-Za-z0-9._%+-]+@[A-Za-z0-9.-]+\.[A-Z|a-z]{2,}\b)`.
    Each pass is a left-to-right scanner: at each position it tries the pattern, with
    Python's backtracking order; on a match it emits the replacement and resumes after
    the match, otherwise it copies one character and moves on. */
module Links {
  import opened Text
  import opened Options

  /** The replacement `<a href="\2">\1</a>` (and `<a href="\1">\1</a>`). */
  function Anchor(href: string, text: string): string {
    "<a href=\"" + href + "\">" + text + "</a>"
  }

  /** The replacement `<a href="mailto:\1">\1</a>`. */
  function MailAnchor(address: string): string {
    "<a href=\"mailto:" + address + "\">" + address + "</a>"
  }

  // ---------------------------------------------------------------------------
  // Pass 1: markdown links `\[(.*?)\]\((.*?)\)`; `.` is any character but `\n`.

  /** `(.*?)\)` from index `j`: the first `)`, provided no newline comes before it. */
  function CloseParen(t: string, j: nat): (r: Option<nat>)
    requires j <= |t|
    ensures r.Some? ==> j <= r.value < |t| && t[r.value] == ')'
    ensures r.Some? ==> forall k | j <= k < r.value :: t[k] != ')' && t[k] != '\n'
    ensures r.None? ==> forall k | j <= k < |t| && t[k] == ')' :: '\n' in t[j..k]
    decreases |t| - j
  {
    if j == |t| then None
    else if t[j] == ')' then Some(j)
    else if t[j] == '\n' then None
    else
      var r := CloseParen(t, j + 1);
      assert r.None? ==> forall k | j + 1 <= k < |t| && t[k] == ')' :: t[k] in t[j..k] || '\n' in t[j..k] by {
        forall k | j + 1 <= k < |t| && t[k] == ')' && r.None? ensures '\n' in t[j..k] {
          assert '\n' in t[j + 1..k];
          var m :| j + 1 <= m < k && t[m] == '\n';
          assert t[j..k][m - j] == '\n';
        }
      }
      r
  }

  /** `\]\((.*?)\)` matches at index `k`: `](` there and a `)` after it with no newline
      between. */
  predicate ClosesAt(t: string, k: nat) {
    k + 1 < |t| && t[k] == ']' && t[k + 1] == '(' && CloseParen(t, k + 2).Some?
  }

  /** The pattern tried at the start of `t` (which holds `[`), with the caption `t[1..i]`
      or a longer one: `.*?` is non-greedy, so the shortest caption for which `](`, a url
      and `)` follow wins. The result is the index of that `]` and of the closing `)`. */
  function LinkFrom(t: string, i: nat): (r: Option<(nat, nat)>)
    requires 1 <= i <= |t|
    ensures r.Some? ==> i <= r.value.0 && r.value.0 + 2 <= r.value.1 < |t|
    ensures r.Some? ==> t[r.value.0] == ']' && t[r.value.0 + 1] == '(' && t[r.value.1] == ')'
    ensures r.Some? ==> '\n' !in t[i..r.value.0] && '\n' !in t[r.value.0 + 2..r.value.1]
    ensures r.Some? ==> CloseParen(t, r.value.0 + 2) == Some(r.value.1)
    ensures r.Some? ==> forall k | i <= k < r.value.0 :: !ClosesAt(t, k)
    ensures r.None? ==> forall k | i <= k < |t| && '\n' !in t[i..k] :: !ClosesAt(t, k)
    decreases |t| - i
  {
    if ClosesAt(t, i) then
      var j := CloseParen(t, i + 2).value;
      Some((i, j))
    else if i < |t| && t[i] != '\n' then
      var r := LinkFrom(t, i + 1);
      assert r.Some? ==> t[i..r.value.0] == [t[i]] + t[i + 1..r.value.0];
      assert r.None? ==> forall k | i + 1 <= k < |t| && '\n' !in t[i..k] :: '\n' !in t[i + 1..k] by {
        forall k | i + 1 <= k < |t| && '\n' !in t[i..k] ensures '\n' !in t[i + 1..k] {
          assert t[i..k] == [t[i]] + t[i + 1..k];
        }
      }
      r
    else
      assert forall k | i < k < |t| :: t[i..k][0] == t[i];
      None
  }

  /** `re.sub(r'\[(.*?)\]\((.*?)\)', r'<a href="\2">\1</a>', s)` */
  function LinkPass(s: string): string
    decreases |s|
  {
    if s == [] then []
    else
      var (out, n) := LinkAt(s);
      out + LinkPass(s[n..])
  }

  /** What the link pass emits at the start of `s` and how many characters it consumes: the
      anchor of a link found there, or the first character. */
  function LinkAt(s: string): (r: (string, nat))
    requires s != []
    ensures 1 <= r.1 <= |s|
  {
    if s[0] == '[' && LinkFrom(s, 1).Some? then
      var (i, j) := LinkFrom(s, 1).value;
      (Anchor(s[i + 2..j], s[1..i]), j + 1)
    else ([s[0]], 1)
  }

  // ---------------------------------------------------------------------------
  // Pass 2: bare URLs `(http[s]?://[^\s]+)`.

  /** End of the run of non-whitespace characters that starts at `k`. */
  function NonSpaceEnd(t: string, k: nat): (e: nat)
    requires k <= |t|
    ensures k <= e <= |t| && (e == |t| || IsSpace(t[e]))
    ensures forall m | k <= m < e :: !IsSpace(t[m])
    decreases |t| - k
  {
    if k == |t| || IsSpace(t[k]) then k else NonSpaceEnd(t, k + 1)
  }

  /** The URL pattern tried at the start of `t`: `https://` is tried before `http://`
      (`[s]?` is greedy), and `[^\s]+` takes the whole non-whitespace run. */
  function UrlAt(t: string): (r: Option<nat>)
    ensures r.Some? ==> 8 <= r.value <= |t| && (r.value == |t| || IsSpace(t[r.value]))
    ensures r.Some? ==> StartsWith(t, "http://") || StartsWith(t, "https://")
    ensures r.Some? ==> NoSpace(t[..r.value])
    ensures r.Some? ==>
      || (StartsWith(t, "https://") && 8 < |t| && !IsSpace(t[8]))
      || (StartsWith(t, "http://") && 7 < |t| && !IsSpace(t[7]))
    ensures r.None? ==> !StartsWith(t, "https://") || |t| == 8 || IsSpace(t[8])
    ensures r.None? ==> !StartsWith(t, "http://") || |t| == 7 || IsSpace(t[7])
  {
    if StartsWith(t, "https://") && 8 < |t| && !IsSpace(t[8]) then
      UrlRunNoSpace(t, "https://");
      Some(NonSpaceEnd(t, 8))
    else if StartsWith(t, "http://") && 7 < |t| && !IsSpace(t[7]) then
      UrlRunNoSpace(t, "http://");
      Some(NonSpaceEnd(t, 7))
    else None
  }

  /** A scheme with no whitespace, then the whitespace-free run after it. */
  lemma UrlRunNoSpace(t: string, scheme: string)
    requires StartsWith(t, scheme) && NoSpace(scheme)
    ensures NoSpace(t[..NonSpaceEnd(t, |scheme|)])
  {
    var e := NonSpaceEnd(t, |scheme|);
    forall k | 0 <= k < e ensures !IsSpace(t[..e][k]) {
      if k < |scheme| { assert t[k] == scheme[k]; }
    }
  }

  /** `re.sub(r'(http[s]?://[^\s]+)', r'<a href="\1">\1</a>', s)` */
  function UrlPass(s: string): string
    decreases |s|
  {
    if s == [] then []
    else
      var (out, n) := UrlStep(s);
      out + UrlPass(s[n..])
  }

  /** What the URL pass emits at the start of `s` and how many characters it consumes. */
  function UrlStep(s: string): (r: (string, nat))
    requires s != []
    ensures 1 <= r.1 <= |s|
  {
    match UrlAt(s)
    case Some(e) => (Anchor(s[..e], s[..e]), e)
    case None => ([s[0]], 1)
  }

  // ---------------------------------------------------------------------------
  // Pass 3: e-mail addresses. `\b` and the character classes are taken over ASCII.

  predicate IsLetter(c: char) { 'A' <= c <= 'Z' || 'a' <= c <= 'z' }
  predicate IsDigit(c: char) { '0' <= c <= '9' }
  /** `\w` */
  predicate IsWordChar(c: char) { IsLetter(c) || IsDigit(c) || c == '_' }
  /** `[A-Za-z0-9._%+-]` */
  predicate IsLocalChar(c: char) { IsLetter(c) || IsDigit(c) || c in "._%+-" }
  /** `[A-Za-z0-9.-]` */
  predicate IsDomainChar(c: char) { IsLetter(c) || IsDigit(c) || c == '.' || c == '-' }
  /** `[A-Z|a-z]`: the letters and, as written, the character `|`. */
  predicate IsTldChar(c: char) { IsLetter(c) || c == '|' }

  /** `\b` at position `p`: a word character on exactly one side. */
  predicate WordBoundary(s: string, p: nat)
    requires p <= |s|
  {
    (p > 0 && IsWordChar(s[p - 1])) != (p < |s| && IsWordChar(s[p]))
  }

  /** End of the longest run of characters of a class that starts at `k`. */
  function RunEnd(s: string, k: nat, inClass: char -> bool): (e: nat)
    requires k <= |s|
    ensures k <= e <= |s| && (e == |s| || !inClass(s[e]))
    ensures forall m | k <= m < e :: inClass(s[m])
    decreases |s| - k
  {
    if k == |s| || !inClass(s[k]) then k else RunEnd(s, k + 1, inClass)
  }

  /** `[A-Z|a-z]{2,}\b` over `s[a..t]`, shortened one character at a time (greedy). */
  function TldFrom(s: string, a: nat, t: nat): (r: Option<nat>)
    requires a <= t <= |s|
    ensures r.Some? ==> a + 2 <= r.value <= t && WordBoundary(s, r.value)
    decreases t
  {
    if t < a + 2 then None
    else if WordBoundary(s, t) then Some(t)
    else TldFrom(s, a, t - 1)
  }

  /** `[A-Za-z0-9.-]+\.[A-Z|a-z]{2,}\b` with the domain `s[q..d]`, shortened one character
      at a time (greedy) until a `.` and a top-level domain follow it. */
  function DomainFrom(s: string, q: nat, d: nat): (r: Option<nat>)
    requires q < d <= |s|
    ensures r.Some? ==> q + 3 <= r.value <= |s| && WordBoundary(s, r.value)
    decreases d
  {
    var tld := if d < |s| && s[d] == '.' then TldFrom(s, d + 1, RunEnd(s, d + 1, IsTldChar)) else None;
    if tld.Some? then tld
    else if d - 1 > q then DomainFrom(s, q, d - 1)
    else None
  }

  /** The e-mail pattern tried at position `p` of `s`; the result is the end of the match. */
  function EmailAt(s: string, p: nat): (r: Option<nat>)
    requires p <= |s|
    ensures r.Some? ==> p < r.value <= |s| && '@' in s[p..r.value]
    ensures r.Some? ==> WordBoundary(s, p) && WordBoundary(s, r.value)
  {
    if !WordBoundary(s, p) then None
    else
      var l := RunEnd(s, p, IsLocalChar);
      if l == p || l == |s| || s[l] != '@' then None
      else
        var q := l + 1;
        var e := RunEnd(s, q, IsDomainChar);
        if e == q then None
        else
          var r := DomainFrom(s, q, e);
          assert r.Some? ==> s[p..r.value][l - p] == '@';
          r
  }

  /** The e-mail `re.sub`, scanning from position `p`. */
  function EmailFrom(s: string, p: nat): string
    requires p <= |s|
    decreases |s| - p
  {
    if p == |s| then []
    else
      var (out, e) := EmailStep(s, p);
      out + EmailFrom(s, e)
  }

  /** What the e-mail pass emits at position `p` and where it carries on. */
  function EmailStep(s: string, p: nat): (r: (string, nat))
    requires p < |s|
    ensures p < r.1 <= |s|
  {
    match EmailAt(s, p)
    case Some(e) => (MailAnchor(s[p..e]), e)
    case None => ([s[p]], p + 1)
  }

  /** `re.sub(r'(\b[A-Za-z0-9._%+-]+@[A-Za-z0-9.-]+\.[A-Z|a-z]{2,}\b)', ..., s)` */
  function EmailPass(s: string): string {
    EmailFrom(s, 0)
  }

  /** `handle_links(line)`: the three passes in order. */
  function HandleLinks(s: string): string {
    EmailPass(UrlPass(LinkPass(s)))
  }

  // ---------------------------------------------------------------------------
  // Properties.

  /** Text without `[` passes the link pass unchanged. */
  lemma {:induction false} LinkPassPlain(s: string)
    requires '[' !in s
    ensures LinkPass(s) == s
  {
    if s != [] {
      assert s == [s[0]] + s[1..];
      LinkPassPlain(s[1..]);
    }
  }

  /** Some URL pattern starts at some position of `s`. */
  predicate HasUrlStart(s: string) {
    exists i | 0 <= i < |s| :: StartsWith(s[i..], "http://") || StartsWith(s[i..], "https://")
  }

  /** Text in which neither `http://` nor `https://` occurs passes the URL pass unchanged. */
  lemma {:induction false} UrlPassPlain(s: string)
    requires !HasUrlStart(s)
    ensures UrlPass(s) == s
  {
    if s != [] {
      assert s[0..] == s;
      assert UrlAt(s) == None;
      assert !HasUrlStart(s[1..]) by {
        forall i | 0 <= i < |s[1..]| ensures s[1..][i..] == s[i + 1..] { }
      }
      UrlPassPlain(s[1..]);
      assert s == [s[0]] + s[1..];
    }
  }

  /** Text without `@` passes the e-mail pass unchanged. */
  lemma EmailPassPlain(s: string)
    requires '@' !in s
    ensures EmailPass(s) == s
  {
    EmailFromPlain(s, 0);
  }

  lemma {:induction false} EmailFromPlain(s: string, p: nat)
    requires p <= |s|
    requires '@' !in s
    ensures EmailFrom(s, p) == s[p..]
    decreases |s| - p
  {
    if p < |s| {
      assert EmailAt(s, p).None?;
      EmailFromPlain(s, p + 1);
      assert s[p..] == [s[p]] + s[p + 1..];
    }
  }

  /** `handle_links` returns its input unchanged when it holds no `[`, no `http://` or
      `https://` and no `@`. */
  lemma HandleLinksPlain(s: string)
    requires '[' !in s && !HasUrlStart(s) && '@' !in s
    ensures HandleLinks(s) == s
  {
    LinkPassPlain(s);
    UrlPassPlain(s);
    EmailPassPlain(s);
  }

  lemma {:induction false} CloseParenAt(t: string, j: nat, m: nat)
    requires j <= m < |t| && t[m] == ')'
    requires forall k | j <= k < m :: t[k] != ')' && t[k] != '\n'
    ensures CloseParen(t, j) == Some(m)
    decreases m - j
  {
    if j < m { CloseParenAt(t, j + 1, m); }
  }

  lemma {:induction false} LinkFromAt(t: string, i: nat, n: nat, j: nat)
    requires 1 <= i <= n && n + 1 < |t| && t[n] == ']' && t[n + 1] == '('
    requires CloseParen(t, n + 2) == Some(j)
    requires forall k | i <= k < n :: t[k] != ']' && t[k] != '\n'
    ensures LinkFrom(t, i) == Some((n, j))
    decreases n - i
  {
    if i < n { LinkFromAt(t, i + 1, n, j); }
  }

  /** A markdown link whose caption holds no `]` and whose url holds no `)` (neither holding
      a newline) becomes one anchor, `href` the url and text the caption; scanning resumes
      right after the closing parenthesis. */
  lemma LinkPassLink(caption: string, url: string, post: string)
    requires ']' !in caption && '\n' !in caption && ')' !in url && '\n' !in url
    ensures LinkPass("[" + caption + "](" + url + ")" + post) == Anchor(url, caption) + LinkPass(post)
  {
    var t := "[" + caption + "](" + url + ")" + post;
    var n, j := |caption| + 1, |caption| + |url| + 3;
    LinkLayout(caption, url, post, t, n, j);
    LinkPassAt(t, n, j);
    LinkPassParts(t, n, j, caption, url, post);
  }

  lemma LinkPassParts(t: string, n: nat, j: nat, caption: string, url: string, post: string)
    requires 1 <= n && n + 2 <= j < |t| && t[1..n] == caption && t[n + 2..j] == url && t[j + 1..] == post
    requires LinkPass(t) == Anchor(t[n + 2..j], t[1..n]) + LinkPass(t[j + 1..])
    ensures LinkPass(t) == Anchor(url, caption) + LinkPass(post)
  {
  }

  /** Where the brackets of a markdown link sit, and what lies between them. */
  lemma LinkLayout(caption: string, url: string, post: string, t: string, n: nat, j: nat)
    requires ']' !in caption && '\n' !in caption && ')' !in url && '\n' !in url
    requires t == "[" + caption + "](" + url + ")" + post
    requires n == |caption| + 1 && j == |caption| + |url| + 3
    ensures 1 <= n && n + 2 <= j < |t|
    ensures t[0] == '[' && t[n] == ']' && t[n + 1] == '(' && t[j] == ')'
    ensures forall k | 1 <= k < n :: t[k] != ']' && t[k] != '\n'
    ensures forall k | n + 2 <= k < j :: t[k] != ')' && t[k] != '\n'
    ensures t[1..n] == caption && t[n + 2..j] == url && t[j + 1..] == post
  {
    forall k | 1 <= k < n ensures t[k] == caption[k - 1] { }
    forall k | n + 2 <= k < j ensures t[k] == url[k - n - 2] { }
    assert t[0] == '[' && t[n] == ']' && t[n + 1] == '(' && t[j] == ')';
    assert t[1..n] == caption && t[n + 2..j] == url && t[j + 1..] == post;
  }

  /** A text opening with a markdown link with the `](` at `n` and the `)` at `j`. */
  lemma LinkPassAt(t: string, n: nat, j: nat)
    requires 1 <= n && n + 2 <= j < |t|
    requires t[0] == '[' && t[n] == ']' && t[n + 1] == '(' && t[j] == ')'
    requires forall k | 1 <= k < n :: t[k] != ']' && t[k] != '\n'
    requires forall k | n + 2 <= k < j :: t[k] != ')' && t[k] != '\n'
    ensures LinkPass(t) == Anchor(t[n + 2..j], t[1..n]) + LinkPass(t[j + 1..])
  {
    CloseParenAt(t, n + 2, j);
    LinkFromAt(t, 1, n, j);
    LinkAtLink(t, n, j);
    LinkPassStep(t, Anchor(t[n + 2..j], t[1..n]), j + 1);
  }

  lemma LinkAtLink(t: string, n: nat, j: nat)
    requires t != [] && t[0] == '[' && LinkFrom(t, 1) == Some((n, j))
    ensures n + 2 <= j < |t| && LinkAt(t) == (Anchor(t[n + 2..j], t[1..n]), j + 1)
  {
  }

  /** The link pass, one step: what `LinkAt` emits, then the pass over the rest. */
  lemma LinkPassStep(t: string, out: string, m: nat)
    requires t != [] && LinkAt(t) == (out, m)
    ensures LinkPass(t) == out + LinkPass(t[m..])
  {
  }


  /** Positions at which no URL starts are copied through by the URL pass. */
  lemma {:induction false} UrlPassCopies(w: string, rest: string)
    requires forall i | 0 <= i < |w| :: UrlAt((w + rest)[i..]).None?
    ensures UrlPass(w + rest) == w + UrlPass(rest)
  {
    if w != [] {
      var t := w + rest;
      assert t[0..] == t;
      UrlCopyOne(t);
      assert t[1..] == w[1..] + rest;
      UrlNoneTail(w, rest);
      UrlPassCopies(w[1..], rest);
      HeadRegroup(w, UrlPass(rest), UrlPass(t), UrlPass(w[1..] + rest));
    } else {
      assert w + rest == rest;
    }
  }

  /** Where no URL starts, the pass copies one character. */
  lemma UrlCopyOne(t: string)
    requires t != [] && UrlAt(t).None?
    ensures UrlPass(t) == [t[0]] + UrlPass(t[1..])
  {
  }

  lemma UrlNoneTail(w: string, rest: string)
    requires w != [] && forall i | 0 <= i < |w| :: UrlAt((w + rest)[i..]).None?
    ensures forall i | 0 <= i < |w[1..]| :: UrlAt((w[1..] + rest)[i..]).None?
  {
    forall i | 0 <= i < |w[1..]| ensures UrlAt((w[1..] + rest)[i..]).None? {
      assert (w[1..] + rest)[i..] == (w + rest)[i + 1..];
    }
  }

  lemma HeadRegroup(w: string, x: string, whole: string, mid: string)
    requires w != [] && whole == [w[0]] + mid && mid == w[1..] + x
    ensures whole == w + x
  {
    assert w == [w[0]] + w[1..];
    ConcatAssoc([w[0]], w[1..], x);
  }

  /** A bare URL -- `http://` or `https://`, at least one more character, no whitespace --
      followed by whitespace or the end becomes one anchor whose `href` and text are both
      the whole URL. */
  lemma UrlPassUrl(u: string, post: string)
    requires (StartsWith(u, "http://") && |u| > 7) || (StartsWith(u, "https://") && |u| > 8)
    requires NoSpace(u)
    requires post == [] || IsSpace(post[0])
    ensures UrlPass(u + post) == Anchor(u, u) + UrlPass(post)
  {
    var t := u + post;
    assert t[..|u|] == u && t[|u|..] == post;
    assert t[..7] == u[..7] && t[..8] == u[..8];
    if StartsWith(u, "http://") {
      assert u[4] == ':';
    }
    assert UrlAt(t) == Some(|u|);
  }

  /** The URL pass re-matches the `href` of an anchor the link pass produced: a markdown
      link to a bare URL, such as `[Docs](http://example.com)` or one to an `https://` URL,
      ends up wrapped twice, the
      outer anchor taking everything from the URL to the end of the first anchor. */
  lemma LinkToUrlIsWrappedTwice(caption: string, url: string)
    requires ']' !in caption && '@' !in caption && NoSpace(caption)
    requires (StartsWith(url, "http://") && |url| > 7) || (StartsWith(url, "https://") && |url| > 8)
    requires ')' !in url && '@' !in url && NoSpace(url)
    ensures var inner := url + "\">" + caption + "</a>";
      HandleLinks("[" + caption + "](" + url + ")") == "<a href=\"" + Anchor(inner, inner)
  {
    var inner := url + "\">" + caption + "</a>";
    LinkOfUrl(caption, url);
    UrlInAnchor(caption, url);
    assert '@' !in inner;
    AnchorNoAt(inner);
    EmailPassPlain("<a href=\"" + Anchor(inner, inner));
  }

  lemma AnchorNoAt(inner: string)
    requires '@' !in inner
    ensures '@' !in "<a href=\"" + Anchor(inner, inner)
  {
  }

  predicate NoSpace(s: string) {
    forall k | 0 <= k < |s| :: !IsSpace(s[k])
  }

  lemma NoSpaceAppend(a: string, b: string)
    requires NoSpace(a) && NoSpace(b)
    ensures NoSpace(a + b)
  {
    forall k | 0 <= k < |a + b| ensures !IsSpace((a + b)[k]) {
      if k >= |a| { assert (a + b)[k] == b[k - |a|]; }
    }
  }

  lemma LinkOfUrl(caption: string, url: string)
    requires ']' !in caption && '\n' !in caption && ')' !in url && '\n' !in url
    ensures LinkPass("[" + caption + "](" + url + ")") == "<a href=\"" + (url + "\">" + caption + "</a>")
  {
    LinkAlone(caption, url);
    AnchorParts(url, caption);
  }

  lemma LinkAlone(caption: string, url: string)
    requires ']' !in caption && '\n' !in caption && ')' !in url && '\n' !in url
    ensures LinkPass("[" + caption + "](" + url + ")") == Anchor(url, caption)
  {
    LinkPassLink(caption, url, []);
    var t := "[" + caption + "](" + url + ")";
    assert t + [] == t;
  }

  lemma AnchorParts(href: string, text: string)
    ensures Anchor(href, text) == "<a href=\"" + (href + "\">" + text + "</a>")
  {
  }

  lemma UrlInAnchor(caption: string, url: string)
    requires (StartsWith(url, "http://") && |url| > 7) || (StartsWith(url, "https://") && |url| > 8)
    requires NoSpace(caption) && NoSpace(url)
    ensures var inner := url + "\">" + caption + "</a>";
      UrlPass("<a href=\"" + inner) == "<a href=\"" + Anchor(inner, inner)
  {
    var inner := url + "\">" + caption + "</a>";
    AnchorOpenCopied(inner);
    InnerIsUrl(caption, url);
    UrlAlone(inner);
  }

  /** What follows `<a href="` in the anchor of a link to a URL is itself a URL. */
  lemma InnerIsUrl(caption: string, url: string)
    requires (StartsWith(url, "http://") && |url| > 7) || (StartsWith(url, "https://") && |url| > 8)
    requires NoSpace(caption) && NoSpace(url)
    ensures var inner := url + "\">" + caption + "</a>";
      ((StartsWith(inner, "http://") && |inner| > 7) || (StartsWith(inner, "https://") && |inner| > 8))
      && NoSpace(inner)
  {
    var inner := url + "\">" + caption + "</a>";
    assert inner[..7] == url[..7] && inner[..8] == url[..8];
    assert NoSpace("\">") && NoSpace("</a>");
    NoSpaceAppend(url, "\">");
    NoSpaceAppend(url + "\">", caption);
    NoSpaceAppend(url + "\">" + caption, "</a>");
  }

  lemma UrlAlone(u: string)
    requires (StartsWith(u, "http://") && |u| > 7) || (StartsWith(u, "https://") && |u| > 8)
    requires NoSpace(u)
    ensures UrlPass(u) == Anchor(u, u)
  {
    UrlPassUrl(u, "");
    assert u + "" == u;
  }

  lemma AnchorOpenCopied(rest: string)
    ensures UrlPass("<a href=\"" + rest) == "<a href=\"" + UrlPass(rest)
  {
    var w := "<a href=\"";
    forall i | 0 <= i < |w| ensures UrlAt((w + rest)[i..]).None? {
      var t := (w + rest)[i..];
      assert t[0] == w[i];
      if i == 3 { assert t[1] == 'r'; }
      UrlAtHead(t);
    }
    UrlPassCopies(w, rest);
  }

  /** A URL starts with `ht`. */
  lemma UrlAtHead(t: string)
    ensures UrlAt(t).Some? ==> |t| >= 2 && t[0] == 'h' && t[1] == 't'
  {
    if StartsWith(t, "https://") {
      assert t[..8][0] == t[0] && t[..8][1] == t[1];
    } else if StartsWith(t, "http://") {
      assert t[..7][0] == t[0] && t[..7][1] == t[1];
    }
  }

  lemma {:induction false} EmailFromCopies(s: string, p: nat, k: nat)
    requires p <= k <= |s|
    requires forall m | p <= m < k :: EmailAt(s, m).None?
    ensures EmailFrom(s, p) == s[p..k] + EmailFrom(s, k)
    decreases k - p
  {
    if p < k {
      EmailFromCopies(s, p + 1, k);
      EmailCopyStep(s, p, k);
    }
  }

  lemma EmailCopyStep(s: string, p: nat, k: nat)
    requires p < k <= |s| && EmailAt(s, p).None?
    requires EmailFrom(s, p + 1) == s[p + 1..k] + EmailFrom(s, k)
    ensures EmailFrom(s, p) == s[p..k] + EmailFrom(s, k)
  {
    EmailCopyOne(s, p);
    SliceRegroup(s, p, k, EmailFrom(s, p), EmailFrom(s, p + 1), EmailFrom(s, k));
  }

  /** Where no match starts, the pass copies one character. */
  lemma EmailCopyOne(s: string, p: nat)
    requires p < |s| && EmailAt(s, p).None?
    ensures EmailFrom(s, p) == [s[p]] + EmailFrom(s, p + 1)
  {
    EmailStepNone(s, p);
    EmailFromStep(s, p, [s[p]], p + 1);
  }

  lemma SliceRegroup(s: string, p: nat, k: nat, whole: string, rest: string, tail: string)
    requires p < k <= |s|
    requires whole == [s[p]] + rest && rest == s[p + 1..k] + tail
    ensures whole == s[p..k] + tail
  {
    assert s[p..k] == [s[p]] + s[p + 1..k];
    ConcatAssoc([s[p]], s[p + 1..k], tail);
  }

  lemma EmailStepNone(s: string, p: nat)
    requires p < |s| && EmailAt(s, p).None?
    ensures EmailStep(s, p) == ([s[p]], p + 1)
  {
  }

  /** The e-mail pass, one step: what `EmailStep` emits, then the pass from where it stops. */
  lemma EmailFromStep(s: string, p: nat, out: string, e: nat)
    requires p < |s| && EmailStep(s, p) == (out, e)
    ensures EmailFrom(s, p) == out + EmailFrom(s, e)
  {
  }

  lemma {:induction false} DomainFromSkips(s: string, q: nat, d: nat, d0: nat)
    requires q < d0 <= d <= |s|
    requires forall k | d0 < k < |s| && k <= d :: s[k] != '.'
    ensures DomainFrom(s, q, d) == DomainFrom(s, q, d0)
    decreases d - d0
  {
    if d > d0 {
      DomainFromSkips(s, q, d - 1, d0);
    }
  }

  /** No match can start before a space when no `@` comes before that space. */
  lemma NoEmailBefore(s: string, n: nat)
    requires n < |s| && !IsLocalChar(s[n]) && s[n] != '@'
    requires forall k | 0 <= k < n :: s[k] != '@'
    ensures forall m | 0 <= m <= n :: EmailAt(s, m).None?
  {
    forall m | 0 <= m <= n ensures EmailAt(s, m).None? {
      var l := RunEnd(s, m, IsLocalChar);
      assert l <= n;
    }
  }

  /** A match of the whole address `s[p..]`, given by the positions of its `@` and of the
      `.` before the top-level domain. */
  lemma EmailAtAddress(s: string, p: nat, at: nat, dot: nat)
    requires 0 < p < at && at + 1 < dot && dot + 2 < |s|
    requires !IsWordChar(s[p - 1]) && IsWordChar(s[p])
    requires forall k | p <= k < at :: IsLocalChar(s[k])
    requires s[at] == '@' && s[dot] == '.'
    requires forall k | at < k < |s| :: IsDomainChar(s[k])
    requires forall k | dot < k < |s| :: IsLetter(s[k])
    ensures EmailAt(s, p) == Some(|s|)
  {
    assert RunEnd(s, p, IsLocalChar) == at;
    assert RunEnd(s, at + 1, IsDomainChar) == |s|;
    assert RunEnd(s, dot + 1, IsTldChar) == |s|;
    assert IsWordChar(s[|s| - 1]);
    assert TldFrom(s, dot + 1, |s|) == Some(|s|);
    DomainFromSkips(s, at + 1, |s|, dot);
  }

  /** An address that ends the text and follows a space is wrapped in one `mailto:` anchor,
      and the text before it is left as it was (so `contact us at a@b.com` becomes
      `contact us at <a href="mailto:a@b.com">a@b.com</a>`). */
  lemma EmailAtEnd(pre: string, local: string, domain: string, tld: string)
    requires '@' !in pre
    requires local != [] && IsWordChar(local[0]) && forall k | 0 <= k < |local| :: IsLocalChar(local[k])
    requires domain != [] && forall k | 0 <= k < |domain| :: IsDomainChar(domain[k])
    requires |tld| >= 2 && forall k | 0 <= k < |tld| :: IsLetter(tld[k])
    ensures var address := local + "@" + domain + "." + tld;
      EmailPass(pre + " " + address) == pre + " " + MailAnchor(address)
  {
    var address := local + "@" + domain + "." + tld;
    AddressChars(local, domain, tld);
    var s := (pre + " ") + address;
    var p := |pre| + 1;
    assert s[..p] == pre + " " && s[p..] == address;
    forall k | 0 <= k < p - 1 ensures s[k] != '@' { assert s[k] == pre[k]; }
    forall k | p <= k < |s| ensures s[k] == address[k - p] { }
    EmailEnds(s, p, p + |local|, p + |local| + 1 + |domain|);
  }

  /** Where the parts of an address sit and which characters they hold. */
  lemma AddressChars(local: string, domain: string, tld: string)
    requires local != [] && IsWordChar(local[0]) && forall k | 0 <= k < |local| :: IsLocalChar(local[k])
    requires domain != [] && forall k | 0 <= k < |domain| :: IsDomainChar(domain[k])
    requires |tld| >= 2 && forall k | 0 <= k < |tld| :: IsLetter(tld[k])
    ensures var a := local + "@" + domain + "." + tld;
      var at := |local|;
      var dot := at + 1 + |domain|;
      && |a| == dot + 1 + |tld|
      && IsWordChar(a[0]) && a[at] == '@' && a[dot] == '.'
      && (forall k | 0 <= k < at :: IsLocalChar(a[k]))
      && (forall k | at < k < |a| :: IsDomainChar(a[k]))
      && (forall k | dot < k < |a| :: IsLetter(a[k]))
  {
    var a := local + "@" + domain + "." + tld;
    var at := |local|;
    var dot := at + 1 + |domain|;
    forall k | 0 <= k < at ensures a[k] == local[k] { }
    forall k | at < k < dot ensures a[k] == domain[k - at - 1] { }
    forall k | dot < k < |a| ensures a[k] == tld[k - dot - 1] { }
  }

  /** A text whose part from `p` on is one address, after a space with no `@` before it. */
  lemma EmailEnds(s: string, p: nat, at: nat, dot: nat)
    requires 0 < p < at && at + 1 < dot && dot + 2 < |s|
    requires s[p - 1] == ' ' && forall k | 0 <= k < p - 1 :: s[k] != '@'
    requires IsWordChar(s[p])
    requires forall k | p <= k < at :: IsLocalChar(s[k])
    requires s[at] == '@' && s[dot] == '.'
    requires forall k | at < k < |s| :: IsDomainChar(s[k])
    requires forall k | dot < k < |s| :: IsLetter(s[k])
    ensures EmailPass(s) == s[..p] + MailAnchor(s[p..])
  {
    NoEmailBefore(s, p - 1);
    EmailAtAddress(s, p, at, dot);
    EmailLastMatch(s, p);
  }

  /** The pass over a text whose only match starts at `p` and runs to its end. */
  lemma EmailLastMatch(s: string, p: nat)
    requires p < |s| && forall m | 0 <= m < p :: EmailAt(s, m).None?
    requires EmailAt(s, p) == Some(|s|)
    ensures EmailPass(s) == s[..p] + MailAnchor(s[p..])
  {
    EmailFromCopies(s, 0, p);
    EmailMatchToEnd(s, p);
    assert s[0..p] == s[..p];
  }

  lemma EmailMatchToEnd(s: string, p: nat)
    requires p < |s| && EmailAt(s, p) == Some(|s|)
    ensures EmailFrom(s, p) == MailAnchor(s[p..])
  {
    assert s[p..|s|] == s[p..];
    EmailFromStep(s, p, MailAnchor(s[p..]), |s|);
  }
}
