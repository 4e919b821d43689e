/**
 * The Python 2 string and file operations the two scripts depend on, with
 * Python's rules for `str.find`, slicing with a negative bound, the `in`
 * substring test, `str.split` on one character, `str.strip`, and iterating
 * over the lines of a text file. Strings are sequences of characters, where
 * Python 2's `str` is a sequence of bytes: positions count characters, not bytes.
 */
module PyStr {

  /** `i` is the first position of `c` in `s`. */
  predicate FirstAt(s: string, c: char, i: int)
  {
    0 <= i < |s| && s[i] == c && c !in s[..i]
  }

  /** `s.find(c)` for a one-character needle: the first position of `c`, or -1 when absent. */
  function Find(s: string, c: char): (r: int)
    ensures -1 <= r < |s|
    ensures r == -1 <==> c !in s
    ensures r != -1 ==> FirstAt(s, c, r)
  {
    if |s| == 0 then -1
    else if s[0] == c then 0
    else
      var k := Find(s[1..], c);
      if k < 0 then -1
      else
        assert s[..k + 1] == [s[0]] + s[1..][..k];
        k + 1
  }

  /** The first position is unique: whatever position is first, `Find` returns it. */
  lemma FindAt(s: string, c: char, i: int)
    requires FirstAt(s, c, i)
    ensures Find(s, c) == i
  {
  }

  /** How Python turns a slice bound `i` into a position of a string of length `n`. */
  function SliceBound(i: int, n: nat): (b: nat)
    ensures b <= n
    ensures 0 <= i ==> b == if i < n then i else n
    ensures i < 0 ==> b == if -i <= n then n + i else 0
  {
    if i < 0 then (if i + n < 0 then 0 else i + n)
    else if i > n then n
    else i
  }

  /** `s[i:]` */
  function SliceFrom(s: string, i: int): (r: string)
    ensures |r| == |s| - SliceBound(i, |s|) && r == s[|s| - |r|..]
  {
    s[SliceBound(i, |s|)..]
  }

  /** `s[0:j]` */
  function SliceTo(s: string, j: int): (r: string)
    ensures |r| == SliceBound(j, |s|) && r <= s
  {
    s[..SliceBound(j, |s|)]
  }

  /** `s[-1:]`, the slice `clean_city_text` takes when a string has no comma, is the last character. */
  lemma SliceFromMinusOne(s: string)
    ensures SliceFrom(s, -1) == if s == [] then [] else [s[|s| - 1]]
  {
  }

  /** `sub` occurs in `s` starting at position `i`. */
  predicate OccursAt(s: string, sub: string, i: int)
  {
    0 <= i && i + |sub| <= |s| && s[i..i + |sub|] == sub
  }

  lemma OccursAtShift(s: string, sub: string)
    requires |s| > 0
    ensures forall i :: OccursAt(s[1..], sub, i) ==> OccursAt(s, sub, i + 1)
    ensures forall i :: 1 <= i && OccursAt(s, sub, i) ==> OccursAt(s[1..], sub, i - 1)
  {
    forall i | OccursAt(s[1..], sub, i) ensures OccursAt(s, sub, i + 1) {
      assert s[1..][i..i + |sub|] == s[i + 1..i + 1 + |sub|];
    }
    forall i | 1 <= i && OccursAt(s, sub, i) ensures OccursAt(s[1..], sub, i - 1) {
      assert s[1..][i - 1..i - 1 + |sub|] == s[i..i + |sub|];
    }
  }

  /** Python's `sub in s`: `sub` occurs somewhere in `s`. */
  function Contains(s: string, sub: string): (b: bool)
    ensures b <==> exists i :: OccursAt(s, sub, i)
    decreases |s|
  {
    if |sub| > |s| then false
    else if s[..|sub|] == sub then
      assert OccursAt(s, sub, 0);
      true
    else
      OccursAtShift(s, sub);
      Contains(s[1..], sub)
  }

  /** The inverse of `Split`: the pieces glued back together with the separator. */
  function Join(parts: seq<string>, sep: char): string
  {
    if |parts| == 0 then ""
    else if |parts| == 1 then parts[0]
    else parts[0] + [sep] + Join(parts[1..], sep)
  }

  /** `s.split(sep)` for a one-character separator: the maximal separator-free pieces, in order. */
  function Split(s: string, sep: char): (parts: seq<string>)
    ensures |parts| >= 1
    ensures forall k :: 0 <= k < |parts| ==> sep !in parts[k]
    ensures Join(parts, sep) == s
    decreases |s|
  {
    var j := Find(s, sep);
    if j < 0 then [s]
    else
      var rest := Split(s[j + 1..], sep);
      assert ([s[..j]] + rest)[1..] == rest;
      assert s == s[..j] + [sep] + s[j + 1..];
      [s[..j]] + rest
  }

  /** A separator-free string is one piece. */
  lemma SplitNone(s: string, sep: char)
    requires sep !in s
    ensures Split(s, sep) == [s]
  {
  }

  /** Splitting peels off the text before the first separator. */
  lemma SplitAround(a: string, b: string, sep: char)
    requires sep !in a
    ensures Split(a + [sep] + b, sep) == [a] + Split(b, sep)
  {
    var s := a + [sep] + b;
    assert s[..|a|] == a;
    FindAt(s, sep, |a|);
    assert s[|a| + 1..] == b;
  }

  /** The first piece of a split is the text before the first separator, or all of `s`. */
  lemma SplitFirst(s: string, sep: char)
    ensures var p := Split(s, sep)[0];
      p <= s && sep !in p && (p == s || (|p| < |s| && s[|p|] == sep))
  {
  }

  /** Split and Join are inverse: separator-free pieces survive a Join then a Split. */
  lemma {:induction false} SplitJoin(parts: seq<string>, sep: char)
    requires |parts| >= 1
    requires forall k :: 0 <= k < |parts| ==> sep !in parts[k]
    ensures Split(Join(parts, sep), sep) == parts
    decreases |parts|
  {
    if |parts| == 1 {
      SplitNone(parts[0], sep);
    } else {
      SplitJoin(parts[1..], sep);
      SplitAround(parts[0], Join(parts[1..], sep), sep);
    }
  }

  /** `s.lstrip(chars)`: drop the leading characters that belong to `cs`. */
  function StripLeft(s: string, cs: set<char>): (r: string)
    ensures |r| <= |s| && r == s[|s| - |r|..]
    ensures forall k :: 0 <= k < |s| - |r| ==> s[k] in cs
    ensures r == [] || r[0] !in cs
  {
    if |s| > 0 && s[0] in cs then StripLeft(s[1..], cs) else s
  }

  /** `s.rstrip(chars)`: drop the trailing characters that belong to `cs`. */
  function StripRight(s: string, cs: set<char>): (r: string)
    ensures |r| <= |s| && r == s[..|r|]
    ensures forall k :: |r| <= k < |s| ==> s[k] in cs
    ensures r == [] || r[|r| - 1] !in cs
  {
    if |s| > 0 && s[|s| - 1] in cs then StripRight(s[..|s| - 1], cs) else s
  }

  /** `s.strip(chars)` */
  function Strip(s: string, cs: set<char>): (r: string)
    ensures exists i :: StrippedFrom(s, cs, i, r)
    ensures r == [] || (r[0] !in cs && r[|r| - 1] !in cs)
  {
    StripSpan(s, cs);
    StripRight(StripLeft(s, cs), cs)
  }

  /** Where the stripped text sits in `s`: after the characters left stripping removed. */
  lemma StripSpan(s: string, cs: set<char>)
    ensures StrippedFrom(s, cs, |s| - |StripLeft(s, cs)|, StripRight(StripLeft(s, cs), cs))
  {
    var l := StripLeft(s, cs);
    StrippedFromParts(s, cs, |s| - |l|, l, StripRight(l, cs));
  }

  /** A stripped prefix and a stripped tail around `r` place it in `s`. */
  lemma StrippedFromParts(s: string, cs: set<char>, i: int, l: string, r: string)
    requires 0 <= i <= |s| && l == s[i..]
    requires forall k :: 0 <= k < i ==> s[k] in cs
    requires |r| <= |l| && r == l[..|r|]
    requires forall k :: |r| <= k < |l| ==> l[k] in cs
    ensures StrippedFrom(s, cs, i, r)
  {
    assert r == s[i..i + |r|];
    forall k | i + |r| <= k < |s|
      ensures s[k] in cs
    {
      assert s[k] == l[k - i];
    }
  }

  /** `r` is the part of `s` at position `i`, with only characters of `cs` before and after it. */
  predicate StrippedFrom(s: string, cs: set<char>, i: int, r: string)
  {
    && 0 <= i <= |s| - |r| && r == s[i..i + |r|]
    && (forall k :: 0 <= k < i ==> s[k] in cs)
    && (forall k :: i + |r| <= k < |s| ==> s[k] in cs)
  }

  /** The characters Python 2's argument-less `str.strip()` removes. */
  const WHITESPACE: set<char> := {' ', '\t', '\n', '\r', '\U{B}', '\U{C}'}

  /** The one character `strip('\n')` removes. */
  const NEWLINE: set<char> := {'\n'}

  /** Left stripping stops at the first kept character, so a kept tail is untouched. */
  lemma {:induction false} StripLeftAppend(a: string, b: string, cs: set<char>)
    requires |b| > 0 && b[0] !in cs
    ensures StripLeft(a + b, cs) == StripLeft(a, cs) + b
    decreases |a|
  {
    if |a| > 0 && a[0] in cs {
      assert (a + b)[1..] == a[1..] + b;
      StripLeftAppend(a[1..], b, cs);
    }
  }

  /** Right stripping removes a tail made only of stripped characters and stops at a kept one. */
  lemma {:induction false} StripRightAppend(a: string, b: string, cs: set<char>)
    requires |a| > 0 && a[|a| - 1] !in cs
    requires forall k :: 0 <= k < |b| ==> b[k] in cs
    ensures StripRight(a + b, cs) == a
    decreases |b|
  {
    if |b| > 0 {
      assert (a + b)[..|a + b| - 1] == a + b[..|b| - 1];
      StripRightAppend(a, b[..|b| - 1], cs);
    }
  }

  /** A line as Python's file iteration yields it before the last one: text, then one newline. */
  predicate IsLine(l: string)
  {
    |l| > 0 && l[|l| - 1] == '\n' && '\n' !in l[..|l| - 1]
  }

  /** The text of a file made of `lines` written one after another. */
  function Concat(lines: seq<string>): string
  {
    if |lines| == 0 then "" else lines[0] + Concat(lines[1..])
  }

  /** `for line in f`: the file cut after every newline, a last unterminated line kept as it is. */
  function FileLines(content: string): (lines: seq<string>)
    ensures Concat(lines) == content
    ensures forall k :: 0 <= k < |lines| - 1 ==> IsLine(lines[k])
    ensures |lines| > 0 ==> lines[|lines| - 1] != [] && (IsLine(lines[|lines| - 1]) || '\n' !in lines[|lines| - 1])
    decreases |content|
  {
    if content == [] then []
    else
      var j := Find(content, '\n');
      if j < 0 then [content]
      else
        var line := content[..j + 1];
        var rest := FileLines(content[j + 1..]);
        FirstLine(content, j);
        ConsLine(line, rest);
        assert content == line + content[j + 1..];
        [line] + rest
  }

  /** The text up to and including the first newline is one whole line. */
  lemma FirstLine(content: string, j: int)
    requires FirstAt(content, '\n', j)
    ensures IsLine(content[..j + 1])
  {
    assert content[..j + 1][..j] == content[..j];
  }

  /** A whole line in front of lines that are whole but for the last leaves them so. */
  lemma ConsLine(line: string, rest: seq<string>)
    requires IsLine(line)
    requires forall k :: 0 <= k < |rest| - 1 ==> IsLine(rest[k])
    ensures Concat([line] + rest) == line + Concat(rest)
    ensures forall k :: 0 <= k < |rest| ==> IsLine(([line] + rest)[k])
    ensures ([line] + rest)[|rest|] == if |rest| == 0 then line else rest[|rest| - 1]
  {
    assert ([line] + rest)[1..] == rest;
    assert forall k :: 1 <= k < |rest| + 1 ==> ([line] + rest)[k] == rest[k - 1];
  }

  /** Writing whole lines and reading the file back yields the same lines. */
  lemma {:induction false} FileLinesConcat(lines: seq<string>)
    requires forall k :: 0 <= k < |lines| ==> IsLine(lines[k])
    ensures FileLines(Concat(lines)) == lines
    decreases |lines|
  {
    if |lines| > 0 {
      var l := lines[0];
      var content := Concat(lines);
      assert content == l + Concat(lines[1..]);
      assert l == l[..|l| - 1] + ['\n'];
      assert content[..|l|] == l;
      FindAt(content, '\n', |l| - 1);
      assert content[|l|..] == Concat(lines[1..]);
      FileLinesConcat(lines[1..]);
    }
  }
}
