/** Python string built-ins used by the renderer: `str.strip()`, `str.split(sep)`,
    `str.startswith` / `str.endswith` and `s[2:-2]`-style slicing, on `seq<char>`. */
module Text {

  /** Python's `str.isspace()` (and the regex class `\s`) restricted to ASCII:
      space, \t, \n, \r, \v, \f and the separators \x1c-\x1f. */
  predicate IsSpace(c: char) {
    c == ' ' || c == '\t' || c == '\n' || c == '\r' || c == '\U{B}' || c == '\U{C}'
    || c == '\U{1C}' || c == '\U{1D}' || c == '\U{1E}' || c == '\U{1F}'
  }

  predicate AllSpace(s: string) {
    forall i | 0 <= i < |s| :: IsSpace(s[i])
  }

  /** Index of the first non-whitespace character of `s` (`|s|` when there is none). */
  function StripStart(s: string): (i: nat)
    ensures i <= |s| && AllSpace(s[..i])
    ensures i == |s| || !IsSpace(s[i])
  {
    if s != [] && IsSpace(s[0]) then
      var i := 1 + StripStart(s[1..]);
      assert forall k | 1 <= k < i :: s[..i][k] == s[1..][..i - 1][k - 1];
      i
    else 0
  }

  /** Scanning back from `j` to `lo`, the end of the last non-whitespace character. */
  function StripEndFrom(s: string, lo: nat, j: nat): (e: nat)
    requires lo <= j <= |s|
    ensures lo <= e <= j && AllSpace(s[e..j])
    ensures e == lo || !IsSpace(s[e - 1])
    decreases j
  {
    if j > lo && IsSpace(s[j - 1]) then
      var e := StripEndFrom(s, lo, j - 1);
      assert forall k | 0 <= k < j - e :: s[e..j][k] == if k < j - 1 - e then s[e..j - 1][k] else s[j - 1];
      e
    else j
  }

  /** `s.strip()`: drops the leading and trailing whitespace. The result is the slice of `s`
      that starts at its first non-whitespace character and leaves only whitespace after it. */
  function Strip(s: string): (r: string)
    ensures |r| <= |s|
    ensures r == [] || (!IsSpace(r[0]) && !IsSpace(r[|r| - 1]))
    ensures StripStart(s) + |r| <= |s| && r == s[StripStart(s)..StripStart(s) + |r|]
    ensures AllSpace(s[StripStart(s) + |r|..])
  {
    var i := StripStart(s);
    s[i..StripEndFrom(s, i, |s|)]
  }

  /** A character that is not whitespace occurs in `Strip(s)` exactly when it occurs in `s`. */
  lemma StripKeeps(s: string, c: char)
    requires !IsSpace(c)
    ensures c in Strip(s) <==> c in s
  {
    var i := StripStart(s);
    var e := StripEndFrom(s, i, |s|);
    assert s == s[..i] + Strip(s) + s[e..|s|];
    NoneInSpace(s[..i], c);
    NoneInSpace(s[e..|s|], c);
  }

  lemma NoneInSpace(t: string, c: char)
    requires AllSpace(t) && !IsSpace(c)
    ensures c !in t
  {
  }

  /** `Strip` is empty exactly on all-whitespace strings (Python's `if not line.strip()`). */
  lemma StripEmpty(s: string)
    ensures Strip(s) == [] <==> AllSpace(s)
  {
    if !AllSpace(s) {
      var k :| 0 <= k < |s| && !IsSpace(s[k]);
      StripKeeps(s, s[k]);
    } else {
      assert s == s[..StripStart(s)];
    }
  }

  /** A string with no whitespace at either end is its own strip. */
  lemma StripFixed(s: string)
    requires s != [] && !IsSpace(s[0]) && !IsSpace(s[|s| - 1])
    ensures Strip(s) == s
  {
    assert StripStart(s) == 0;
    assert StripEndFrom(s, 0, |s|) == |s|;
  }

  /** Stripping twice is stripping once. */
  lemma StripIdempotent(s: string)
    ensures Strip(Strip(s)) == Strip(s)
  {
    var r := Strip(s);
    if r != [] {
      assert StripStart(r) == 0;
      assert StripEndFrom(r, 0, |r|) == |r|;
    }
  }

  /** Concatenation regrouped, so a loop can append to a string with a fixed prefix. */
  lemma ConcatAssoc(a: string, b: string, c: string)
    ensures a + b + c == a + (b + c)
  {
  }

  lemma ConcatEmpty(a: string)
    ensures a + [] == a
  {
  }

  /** `s.startswith(p)` */
  predicate StartsWith(s: string, p: string) {
    |p| <= |s| && s[..|p|] == p
  }

  /** `s.endswith(p)` */
  predicate EndsWith(s: string, p: string) {
    |p| <= |s| && s[|s| - |p|..] == p
  }

  /** `s.split(sep)` for a one-character separator: the pieces between separators, in order,
      always at least one (an empty string splits to `[""]`). */
  function Split(s: string, sep: char): (r: seq<string>)
    ensures |r| >= 1
  {
    if s == [] then [[]]
    else
      var rest := Split(s[1..], sep);
      if s[0] == sep then [[]] + rest else [[s[0]] + rest[0]] + rest[1..]
  }

  /** `sep.join(parts)`: the inverse of `Split`. */
  function Join(parts: seq<string>, sep: char): string {
    if parts == [] then []
    else if |parts| == 1 then parts[0]
    else parts[0] + [sep] + Join(parts[1..], sep)
  }

  /** Number of occurrences of `c` in `s`. */
  function Occurrences(s: string, c: char): nat {
    multiset(s)[c]
  }

  /** Joining the pieces of a split gives back the string. */
  lemma {:induction false} SplitJoin(s: string, sep: char)
    ensures Join(Split(s, sep), sep) == s
  {
    if s != [] {
      SplitJoin(s[1..], sep);
      var rest := Split(s[1..], sep);
      if s[0] != sep && |rest| > 1 {
        assert Split(s, sep)[1..] == rest[1..];
      }
      assert s == [s[0]] + s[1..];
    }
  }

  /** No piece of a split contains the separator, and there is one more piece than separators. */
  lemma {:induction false} SplitPieces(s: string, sep: char)
    ensures forall k | 0 <= k < |Split(s, sep)| :: sep !in Split(s, sep)[k]
    ensures |Split(s, sep)| == Occurrences(s, sep) + 1
  {
    if s != [] {
      SplitPieces(s[1..], sep);
      assert s == [s[0]] + s[1..];
      var rest := Split(s[1..], sep);
      var r := Split(s, sep);
      if s[0] != sep {
        forall k | 0 <= k < |r| ensures sep !in r[k] {
          if k > 0 { assert r[k] == rest[k]; }
        }
      } else {
        forall k | 0 <= k < |r| ensures sep !in r[k] {
          if k > 0 { assert r[k] == rest[k - 1]; }
        }
      }
    }
  }

  /** A string without the separator splits to itself alone. */
  lemma {:induction false} SplitWithout(s: string, sep: char)
    requires sep !in s
    ensures Split(s, sep) == [s]
  {
    if s != [] {
      assert sep !in s[1..] by {
        forall k | 0 <= k < |s[1..]| ensures s[1..][k] != sep { assert s[1..][k] == s[k + 1]; }
      }
      SplitWithout(s[1..], sep);
      assert s == [s[0]] + s[1..];
    }
  }

  /** A piece without the separator, then the separator: the piece comes off the front. */
  lemma {:induction false} SplitAppend(a: string, sep: char, b: string)
    requires sep !in a
    ensures Split(a + [sep] + b, sep) == [a] + Split(b, sep)
  {
    var s := a + [sep] + b;
    if a == [] {
      assert s[1..] == b;
    } else {
      assert s[1..] == a[1..] + [sep] + b;
      assert sep !in a[1..] by {
        forall k | 0 <= k < |a[1..]| ensures a[1..][k] != sep { assert a[1..][k] == a[k + 1]; }
      }
      SplitAppend(a[1..], sep, b);
      assert a == [a[0]] + a[1..];
    }
  }

  /** Splitting a join of pieces without the separator gives the pieces back. */
  lemma {:induction false} JoinSplit(parts: seq<string>, sep: char)
    requires parts != []
    requires forall k | 0 <= k < |parts| :: sep !in parts[k]
    ensures Split(Join(parts, sep), sep) == parts
  {
    if |parts| == 1 {
      SplitWithout(parts[0], sep);
    } else {
      JoinSplit(parts[1..], sep);
      SplitAppend(parts[0], sep, Join(parts[1..], sep));
      assert parts == [parts[0]] + parts[1..];
    }
  }

  /** Python's `line[2:-2]`: the middle of `s` without two characters at each end, empty
      when `s` is shorter than four characters (slices clamp instead of failing). */
  function TrimTwo(s: string): (r: string)
    ensures |s| >= 4 ==> s == s[..2] + r + s[|s| - 2..]
    ensures |s| < 4 ==> r == []
  {
    if |s| >= 4 then s[2..|s| - 2] else []
  }
}
