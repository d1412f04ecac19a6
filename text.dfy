/** The string built-ins and regular expressions the registry relies on:
    `split`, `join`, `trim`, `indexOf`, the blank-segment test `/^\s*$/` and
    the namespace-name pattern. Strings are sequences of code points. */
module Text {

  /** A code point `.` does not match in a JavaScript regular expression. */
  predicate IsLineTerminator(c: char) {
    c == '\n' || c == '\r' || c as int == 0x2028 || c as int == 0x2029
  }

  /** A code point of `\s`, which is also the set `trim` strips: the
      ECMAScript WhiteSpace and LineTerminator code points. */
  predicate IsSpace(c: char) {
    var n := c as int;
    n == 0x09 || n == 0x0B || n == 0x0C || n == 0x20 || n == 0xA0 || n == 0xFEFF
    || n == 0x1680 || (0x2000 <= n <= 0x200A) || n == 0x202F || n == 0x205F
    || n == 0x3000 || IsLineTerminator(c)
  }

  /** `/^\s*$/.test(s)`: empty or made of spaces only. */
  predicate IsBlank(s: string) {
    forall i :: 0 <= i < |s| ==> IsSpace(s[i])
  }

  /** First character of a namespace name: `[A-Za-z$]`. */
  predicate IsNameStart(c: char) {
    'A' <= c <= 'Z' || 'a' <= c <= 'z' || c == '$'
  }

  /** Later characters of a namespace name: `[A-Za-z0-9_\-$]`. */
  predicate IsNameChar(c: char) {
    IsNameStart(c) || '0' <= c <= '9' || c == '_' || c == '-'
  }

  /** `/^[A-Za-z\$][A-Za-z0-9_\-\$]*$/.test(name)`. */
  predicate IsValidName(name: string) {
    |name| >= 1 && IsNameStart(name[0]) && forall i :: 1 <= i < |name| ==> IsNameChar(name[i])
  }

  /** A valid name is never blank and never holds a path separator. */
  lemma ValidNameIsSegment(name: string)
    requires IsValidName(name)
    ensures !IsBlank(name) && '.' !in name
  {
    assert !IsSpace(name[0]);
  }

  /** `parts.join(sep)`. */
  function Join(parts: seq<string>, sep: char): string {
    if |parts| == 0 then ""
    else if |parts| == 1 then parts[0]
    else parts[0] + [sep] + Join(parts[1..], sep)
  }

  /** `s.split(sep)` for a one-character separator: the maximal runs of
      non-separator characters, an empty string standing for each empty run. */
  function Split(s: string, sep: char): (parts: seq<string>)
    ensures |parts| >= 1
    ensures forall i :: 0 <= i < |parts| ==> sep !in parts[i]
  {
    if s == [] then [""]
    else
      var rest := Split(s[1..], sep);
      if s[0] == sep then [""] + rest
      else [[s[0]] + rest[0]] + rest[1..]
  }

  /** A string without the separator is not split at all. */
  lemma {:induction false} SplitNoSeparator(s: string, sep: char)
    requires sep !in s
    ensures Split(s, sep) == [s]
  {
    if s != [] {
      assert s[0] != sep && sep !in s[1..] by { assert s == [s[0]] + s[1..]; }
      SplitNoSeparator(s[1..], sep);
    }
  }

  /** Splitting distributes over a separator: the parts of `a + sep + b`
      are those of `a` followed by those of `b`. */
  lemma {:induction false} SplitConcat(a: string, b: string, sep: char)
    ensures Split(a + [sep] + b, sep) == Split(a, sep) + Split(b, sep)
  {
    var s := a + [sep] + b;
    if a == [] {
      assert s[1..] == b;
    } else {
      assert s[1..] == a[1..] + [sep] + b;
      SplitConcat(a[1..], b, sep);
    }
  }

  /** `s.split(sep).join(sep) == s`. */
  lemma {:induction false} JoinSplit(s: string, sep: char)
    ensures Join(Split(s, sep), sep) == s
  {
    if s != [] {
      JoinSplit(s[1..], sep);
      var rest := Split(s[1..], sep);
      if s[0] == sep {
        assert Split(s, sep) == [""] + rest;
      } else if |rest| == 1 {
        assert Split(s, sep) == [[s[0]] + rest[0]];
      } else {
        assert Split(s, sep) == [[s[0]] + rest[0]] + rest[1..];
        assert Join(rest, sep) == rest[0] + [sep] + Join(rest[1..], sep);
        assert ([[s[0]] + rest[0]] + rest[1..])[1..] == rest[1..];
      }
    }
  }

  /** Splitting a join of separator-free parts gives the parts back. */
  lemma {:induction false} SplitJoin(parts: seq<string>, sep: char)
    requires |parts| >= 1
    requires forall i :: 0 <= i < |parts| ==> sep !in parts[i]
    ensures Split(Join(parts, sep), sep) == parts
  {
    SplitNoSeparator(parts[0], sep);
    if |parts| > 1 {
      SplitJoin(parts[1..], sep);
      SplitConcat(parts[0], Join(parts[1..], sep), sep);
    }
  }

  /** `s.indexOf(c)`, with `|s|` standing for -1 (not present). */
  function FirstIndex(s: string, c: char): (k: nat)
    ensures k <= |s|
    ensures c !in s[..k]
    ensures k < |s| ==> s[k] == c
  {
    if s == [] || s[0] == c then 0
    else
      var k := 1 + FirstIndex(s[1..], c);
      assert s[..k] == [s[0]] + s[1..][..k - 1];
      k
  }

  /** The first occurrence is the only index with the properties of FirstIndex. */
  lemma {:induction false} FirstIndexAt(s: string, c: char, j: nat)
    requires j <= |s| && c !in s[..j] && (j < |s| ==> s[j] == c)
    ensures FirstIndex(s, c) == j
  {
    if j > 0 {
      assert s[0] == s[..j][0];
      assert s[1..][..j - 1] == s[..j][1..];
      FirstIndexAt(s[1..], c, j - 1);
    }
  }

  /** The number of spaces `s` starts with. */
  function LeadingSpaces(s: string): (n: nat)
    ensures n <= |s|
    ensures IsBlank(s[..n])
    ensures n < |s| ==> !IsSpace(s[n])
  {
    if s == [] || !IsSpace(s[0]) then 0
    else
      var n := 1 + LeadingSpaces(s[1..]);
      assert s[..n] == [s[0]] + s[1..][..n - 1];
      n
  }

  /** The number of spaces `s` ends with. */
  function TrailingSpaces(s: string): (n: nat)
    ensures n <= |s|
    ensures IsBlank(s[|s| - n..])
    ensures n < |s| ==> !IsSpace(s[|s| - 1 - n])
  {
    if s == [] || !IsSpace(s[|s| - 1]) then 0
    else
      var init := s[..|s| - 1];
      var n := 1 + TrailingSpaces(init);
      assert s[|s| - n..] == init[|init| - (n - 1)..] + [s[|s| - 1]];
      n
  }

  /** `s.trim()`: the slice of `s` left after removing the spaces at both
      ends; it is empty exactly when `s` is blank. */
  function Trim(s: string): (t: string)
    ensures exists lo, hi :: 0 <= lo <= hi <= |s| && t == s[lo..hi] && IsBlank(s[..lo]) && IsBlank(s[hi..])
    ensures t != [] ==> !IsSpace(t[0]) && !IsSpace(t[|t| - 1])
    ensures t == [] <==> IsBlank(s)
  {
    var lo := LeadingSpaces(s);
    var u := s[lo..];
    var hi := lo + |u| - TrailingSpaces(u);
    assert s[lo..hi] == u[..|u| - TrailingSpaces(u)];
    assert s[hi..] == u[|u| - TrailingSpaces(u)..];
    assert IsBlank(s) ==> lo == |s|;
    assert lo == hi ==> s == s[..lo] + s[hi..];
    s[lo..hi]
  }

  /** A string with no space at either end is its own trim. */
  lemma TrimUnspaced(s: string)
    requires s != [] && !IsSpace(s[0]) && !IsSpace(s[|s| - 1])
    ensures Trim(s) == s
  {
    assert s[0..] == s;
  }
}
