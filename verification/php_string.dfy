/**
 * The few PHP string built-ins the services rely on, over byte strings
 * (a `string` here holds one byte per character, as PHP strings do):
 * `trim` with a character list, `empty`, `explode` and its inverse `implode`,
 * and the way an out-of-range `$row[$i]` reads.
 */
module PhpString {
  import opened Wrappers

  /** The list in `trim($s, ' "')`. */
  const SpaceQuote: set<char> := {' ', '"'}
  /** The list in `trim($s, '"')`. */
  const Quote: set<char> := {'"'}
  /** The default list of `trim($s)`: space, tab, newline, return, NUL, vertical tab. */
  const Blank: set<char> := {' ', '\t', '\n', '\r', '\0', '\U{0B}'}

  /** Leading characters of `s` that are in `cs` removed (PHP `ltrim`). */
  function TrimLeft(s: string, cs: set<char>): (r: string)
    ensures |r| <= |s| && r == s[|s| - |r|..]
    ensures forall i :: 0 <= i < |s| - |r| ==> s[i] in cs
    ensures r == [] || r[0] !in cs
  {
    if |s| > 0 && s[0] in cs then
      var r := TrimLeft(s[1..], cs);
      assert s[1..][|s| - 1 - |r|..] == s[|s| - |r|..];
      assert forall i :: 1 <= i < |s| - |r| ==> s[i] == s[1..][i - 1];
      r
    else s
  }

  /** Trailing characters of `s` that are in `cs` removed (PHP `rtrim`). */
  function TrimRight(s: string, cs: set<char>): (r: string)
    ensures |r| <= |s| && r == s[..|r|]
    ensures forall i :: |r| <= i < |s| ==> s[i] in cs
    ensures r == [] || r[|r| - 1] !in cs
  {
    if |s| > 0 && s[|s| - 1] in cs then
      var r := TrimRight(s[..|s| - 1], cs);
      assert s[..|s| - 1][..|r|] == s[..|r|];
      r
    else s
  }

  /** PHP `trim($s, $cs)`: both ends stripped of the characters in `cs`. */
  function Trim(s: string, cs: set<char>): (r: string)
    ensures |r| <= |s|
    ensures Trimmed(r, cs)
    ensures r == [] <==> forall i :: 0 <= i < |s| ==> s[i] in cs
  {
    TrimEmptyIffAllStripped(s, cs);
    TrimBothEnds(s, cs);
    TrimRight(TrimLeft(s, cs), cs)
  }

  /** What `trim` keeps is one slice of its argument. */
  lemma TrimSlice(s: string, cs: set<char>)
    ensures |TrimRight(TrimLeft(s, cs), cs)| <= |TrimLeft(s, cs)| <= |s|
    ensures TrimRight(TrimLeft(s, cs), cs)
      == s[|s| - |TrimLeft(s, cs)|..|s| - |TrimLeft(s, cs)| + |TrimRight(TrimLeft(s, cs), cs)|]
  {
    var l := TrimLeft(s, cs);
    var r := TrimRight(l, cs);
    PrefixOfSuffix(s, l, r);
  }

  /** A prefix of a suffix is a slice. */
  lemma PrefixOfSuffix<T>(s: seq<T>, l: seq<T>, r: seq<T>)
    requires |r| <= |l| <= |s| && l == s[|s| - |l|..] && r == l[..|r|]
    ensures r == s[|s| - |l|..|s| - |l| + |r|]
  {
  }

  /** Neither end of what `trim` keeps is in the list. */
  lemma TrimBothEnds(s: string, cs: set<char>)
    ensures Trimmed(TrimRight(TrimLeft(s, cs), cs), cs)
  {
    var l := TrimLeft(s, cs);
    var r := TrimRight(l, cs);
    if r != [] {
      assert r[0] == l[0];
    }
  }

  /** Trimming leaves nothing exactly when every character is in the list. */
  lemma TrimEmptyIffAllStripped(s: string, cs: set<char>)
    ensures TrimRight(TrimLeft(s, cs), cs) == [] <==> forall i :: 0 <= i < |s| ==> s[i] in cs
  {
    var l := TrimLeft(s, cs);
    var d := |s| - |l|;
    if l != [] {
      assert l[0] == s[d];
    }
  }

  /** A string that neither starts nor ends with a character of `cs`. */
  predicate Trimmed(s: string, cs: set<char>) {
    s == [] || (s[0] !in cs && s[|s| - 1] !in cs)
  }

  /** `trim` leaves an already trimmed string alone. */
  lemma {:induction false} TrimOfTrimmed(s: string, cs: set<char>)
    requires Trimmed(s, cs)
    ensures Trim(s, cs) == s
  {
    assert TrimLeft(s, cs) == s;
    assert TrimRight(s, cs) == s;
  }

  /** `trim` is idempotent. */
  lemma TrimIdempotent(s: string, cs: set<char>)
    ensures Trim(Trim(s, cs), cs) == Trim(s, cs)
  {
    TrimOfTrimmed(Trim(s, cs), cs);
  }

  /** `ltrim` removes a prefix made of listed characters up to a kept character. */
  lemma {:induction false} TrimLeftPrefix(pre: string, x: string, cs: set<char>)
    requires forall i :: 0 <= i < |pre| ==> pre[i] in cs
    requires x != [] && x[0] !in cs
    ensures TrimLeft(pre + x, cs) == x
  {
    if |pre| > 0 {
      assert (pre + x)[1..] == pre[1..] + x;
      TrimLeftPrefix(pre[1..], x, cs);
    } else {
      assert pre + x == x;
    }
  }

  /** `rtrim` removes a suffix made of listed characters back to a kept character. */
  lemma {:induction false} TrimRightSuffix(x: string, post: string, cs: set<char>)
    requires forall i :: 0 <= i < |post| ==> post[i] in cs
    requires x != [] && x[|x| - 1] !in cs
    ensures TrimRight(x + post, cs) == x
  {
    if |post| > 0 {
      assert (x + post)[..|x + post| - 1] == x + post[..|post| - 1];
      TrimRightSuffix(x, post[..|post| - 1], cs);
    } else {
      assert x + post == x;
    }
  }

  /** `trim` strips exactly the listed characters wrapped around a trimmed core. */
  lemma TrimWrapped(pre: string, x: string, post: string, cs: set<char>)
    requires forall i :: 0 <= i < |pre| ==> pre[i] in cs
    requires forall i :: 0 <= i < |post| ==> post[i] in cs
    requires x != [] && Trimmed(x, cs)
    ensures Trim(pre + x + post, cs) == x
  {
    assert pre + x + post == pre + (x + post);
    TrimLeftPrefix(pre, x + post, cs);
    TrimRightSuffix(x, post, cs);
  }

  /** PHP `empty()` on a string: the empty string and "0" are empty. */
  predicate PhpEmpty(s: string) {
    s == "" || s == "0"
  }

  /** `$row[$i]`: the cell, or PHP null beyond the row's width. */
  function Cell(row: seq<string>, i: nat): (r: Option<string>)
    ensures r.Some? <==> i < |row|
    ensures r.Some? ==> r.value == row[i]
  {
    if i < |row| then Some(row[i]) else None
  }

  /** What `trim` receives from `$row[$i]`: a null reads as "". */
  function CellText(row: seq<string>, i: nat): (r: string)
    ensures i < |row| ==> r == row[i]
    ensures i >= |row| ==> r == ""
  {
    match Cell(row, i)
    case Some(v) => v
    case None => ""
  }

  /** Number of occurrences of `c` in `s`. */
  function Occurrences(s: string, c: char): nat {
    if |s| == 0 then 0 else (if s[0] == c then 1 else 0) + Occurrences(s[1..], c)
  }

  /** PHP `implode($sep, $parts)` for a one-character separator. */
  function Implode(parts: seq<string>, sep: char): string
    requires |parts| > 0
  {
    if |parts| == 1 then parts[0] else parts[0] + [sep] + Implode(parts[1..], sep)
  }

  /** PHP `explode($sep, $s)` for a one-character separator: one part more than separators. */
  function Explode(s: string, sep: char): (parts: seq<string>)
    ensures |parts| == Occurrences(s, sep) + 1
    ensures forall i :: 0 <= i < |parts| ==> sep !in parts[i]
    ensures Implode(parts, sep) == s
  {
    if |s| == 0 then [""]
    else
      var rest := Explode(s[1..], sep);
      if s[0] == sep then
        [""] + rest
      else
        ImplodeConsFirst(s[0], rest, sep);
        [[s[0]] + rest[0]] + rest[1..]
  }

  /** Prefixing the first part prefixes the imploded string. */
  lemma {:induction false} ImplodeConsFirst(c: char, parts: seq<string>, sep: char)
    requires |parts| > 0
    ensures Implode([[c] + parts[0]] + parts[1..], sep) == [c] + Implode(parts, sep)
  {
    var p := [[c] + parts[0]] + parts[1..];
    if |parts| > 1 {
      assert p[1..] == parts[1..];
    }
  }

  /** Occurrences distribute over concatenation. */
  lemma {:induction false} OccurrencesAppend(a: string, b: string, c: char)
    ensures Occurrences(a + b, c) == Occurrences(a, c) + Occurrences(b, c)
  {
    if |a| > 0 {
      assert (a + b)[1..] == a[1..] + b;
      OccurrencesAppend(a[1..], b, c);
    } else {
      assert a + b == b;
    }
  }

  /** A string has no occurrence of `c` exactly when `c` is not in it. */
  lemma {:induction false} OccurrencesZero(s: string, c: char)
    ensures Occurrences(s, c) == 0 <==> c !in s
  {
    if |s| > 0 {
      OccurrencesZero(s[1..], c);
      assert s == [s[0]] + s[1..];
    }
  }

  /**
   * Splitting a string with exactly one separator, at position `k`, gives the
   * text before it and the text after it.
   */
  lemma ExplodeOneSeparator(s: string, sep: char, k: nat)
    requires k < |s| && s[k] == sep && Occurrences(s, sep) == 1
    ensures Explode(s, sep) == [s[..k], s[k + 1..]]
  {
    var parts := Explode(s, sep);
    assert |parts| == 2;
    assert parts[1..] == [parts[1]];
    assert Implode(parts[1..], sep) == parts[1];
    assert s == parts[0] + [sep] + parts[1];
    assert |parts[0]| == k;
    assert s[..k] == parts[0];
    assert s[k + 1..] == parts[1];
  }
}
