/** Character-level helpers shared by every version of the application:
    Python's whitespace test, ASCII case folding, `str.strip` with a set of
    characters, `str.startswith`, `str.split` on a separator and
    `file.readlines()`. Characters are restricted to ASCII. */
module Text {

  /** The ASCII characters for which Python's `str.isspace()` holds; Python's
      `str.strip()` and the regular-expression class `\s` use the same set. */
  const Whitespace: set<char> :=
    {' ', '\t', '\n', '\r', 11 as char, 12 as char, 28 as char, 29 as char, 30 as char, 31 as char}

  predicate IsSpace(c: char) { c in Whitespace }

  predicate IsDigit(c: char) { '0' <= c <= '9' }

  /** ASCII lower-casing, as Python's `str.lower` does on ASCII text. */
  function LowerChar(c: char): (r: char)
    ensures 'A' <= c <= 'Z' ==> 'a' <= r <= 'z'
    ensures !('A' <= c <= 'Z') ==> r == c
  {
    if 'A' <= c <= 'Z' then (c as int + 32) as char else c
  }

  function Lower(s: string): (r: string)
    ensures |r| == |s|
    ensures forall i :: 0 <= i < |s| ==> r[i] == LowerChar(s[i])
  {
    if s == [] then [] else [LowerChar(s[0])] + Lower(s[1..])
  }

  predicate StartsWith(s: string, prefix: string) {
    |prefix| <= |s| && s[..|prefix|] == prefix
  }

  predicate EndsWith(s: string, suffix: string) {
    |suffix| <= |s| && s[|s| - |suffix|..] == suffix
  }

  /** Python's `sub in s` for strings. */
  predicate Contains(s: string, sub: string) {
    exists i :: 0 <= i <= |s| - |sub| && OccursAt(s, i, sub)
  }

  predicate OccursAt(s: string, i: int, sub: string) {
    0 <= i <= |s| - |sub| && s[i..i + |sub|] == sub
  }

  /** Index of the first `c` in `s`, or `|s|` when there is none. */
  function IndexOf(s: string, c: char): (k: nat)
    ensures k <= |s|
    ensures k < |s| ==> s[k] == c
    ensures forall i :: 0 <= i < k ==> s[i] != c
  {
    if s == [] then 0 else if s[0] == c then 0 else 1 + IndexOf(s[1..], c)
  }

  /** Index of the last `c` in `s`, or `|s|` when there is none. */
  function LastIndexOf(s: string, c: char): (k: nat)
    ensures k <= |s|
    ensures k < |s| ==> s[k] == c && forall i :: k < i < |s| ==> s[i] != c
    ensures k == |s| ==> forall i :: 0 <= i < |s| ==> s[i] != c
  {
    if s == [] then 0
    else if s[|s| - 1] == c then |s| - 1
    else
      var k := LastIndexOf(s[..|s| - 1], c);
      if k == |s| - 1 then |s| else k
  }

  /** Removes the longest prefix made of characters in `cs`. */
  function DropFront(s: string, cs: set<char>): (r: string)
    ensures |r| <= |s|
    ensures r == [] || r[0] !in cs
  {
    if s != [] && s[0] in cs then DropFront(s[1..], cs) else s
  }

  /** What `DropFront` leaves is a suffix, and all it removed is in `cs`. */
  lemma {:induction false} DropFrontSuffix(s: string, cs: set<char>)
    ensures var r := DropFront(s, cs);
      r == s[|s| - |r|..] && forall i :: 0 <= i < |s| - |r| ==> s[i] in cs
    decreases |s|
  {
    if s != [] && s[0] in cs {
      DropFrontSuffix(s[1..], cs);
    }
  }

  /** Removes the longest suffix made of characters in `cs`. */
  function DropBack(s: string, cs: set<char>): (r: string)
    ensures |r| <= |s|
    ensures r == [] || r[|r| - 1] !in cs
  {
    if s != [] && s[|s| - 1] in cs then DropBack(s[..|s| - 1], cs) else s
  }

  /** What `DropBack` leaves is a prefix, and all it removed is in `cs`. */
  lemma {:induction false} DropBackPrefix(s: string, cs: set<char>)
    ensures var r := DropBack(s, cs);
      r == s[..|r|] && forall i :: |r| <= i < |s| ==> s[i] in cs
    decreases |s|
  {
    if s != [] && s[|s| - 1] in cs {
      DropBackPrefix(s[..|s| - 1], cs);
    }
  }

  /** Python's `s.strip(chars)`: the argument is a SET of characters, removed
      from both ends; `s.strip()` is `Strip(s, Whitespace)`. */
  function Strip(s: string, cs: set<char>): (r: string)
    ensures |r| <= |s|
    ensures r == [] || (r[0] !in cs && r[|r| - 1] !in cs)
  {
    DropBackPrefix(DropFront(s, cs), cs);
    DropBack(DropFront(s, cs), cs)
  }

  /** `s.strip()`. */
  function Trim(s: string): (r: string)
    ensures r == [] || (!IsSpace(r[0]) && !IsSpace(r[|r| - 1]))
  {
    Strip(s, Whitespace)
  }

  /** Stripping only removes characters: the result is a slice of the input. */
  lemma StripIsSlice(s: string, cs: set<char>)
    ensures exists a, b :: 0 <= a <= b <= |s| && Strip(s, cs) == s[a..b]
  {
    var f := DropFront(s, cs);
    var r := DropBack(f, cs);
    var a := |s| - |f|;
    DropFrontSuffix(s, cs);
    DropBackPrefix(f, cs);
    assert r == f[..|r|] && f == s[a..];
    assert r == s[a..a + |r|];
  }

  /** A character absent from the input is absent from what stripping leaves. */
  lemma StripAbsent(s: string, cs: set<char>, c: char)
    requires c !in s
    ensures c !in Strip(s, cs)
  {
    StripIsSlice(s, cs);
  }

  lemma StripKeeps(s: string, cs: set<char>)
    requires s == [] || (s[0] !in cs && s[|s| - 1] !in cs)
    ensures Strip(s, cs) == s
  {
  }

  /** Stripping is unaffected by characters of `cs` added at the end. */
  lemma {:induction false} StripAppendDropped(s: string, tail: string, cs: set<char>)
    requires forall i :: 0 <= i < |tail| ==> tail[i] in cs
    requires s != [] && s[0] !in cs
    ensures Strip(s + tail, cs) == Strip(s, cs)
  {
    assert DropFront(s + tail, cs) == s + tail;
    assert DropFront(s, cs) == s;
    DropBackAppend(s, tail, cs);
  }

  lemma {:induction false} DropBackAppend(s: string, tail: string, cs: set<char>)
    requires forall i :: 0 <= i < |tail| ==> tail[i] in cs
    ensures DropBack(s + tail, cs) == DropBack(s, cs)
    decreases |tail|
  {
    if tail == [] {
      assert s + tail == s;
    } else {
      var t' := tail[..|tail| - 1];
      assert (s + tail)[..|s + tail| - 1] == s + t';
      DropBackAppend(s, t', cs);
    }
  }

  /** Stripping is unaffected by characters of `cs` added at the front. */
  lemma {:induction false} DropFrontPrepend(head: string, s: string, cs: set<char>)
    requires forall i :: 0 <= i < |head| ==> head[i] in cs
    ensures DropFront(head + s, cs) == DropFront(s, cs)
    decreases |head|
  {
    if head != [] {
      assert (head + s)[1..] == head[1..] + s;
      DropFrontPrepend(head[1..], s, cs);
    } else {
      assert head + s == s;
    }
  }

  lemma StripSurrounded(head: string, s: string, tail: string, cs: set<char>)
    requires forall i :: 0 <= i < |head| ==> head[i] in cs
    requires forall i :: 0 <= i < |tail| ==> tail[i] in cs
    requires s != [] && s[0] !in cs && s[|s| - 1] !in cs
    ensures Strip(head + s + tail, cs) == s
  {
    assert head + s + tail == head + (s + tail);
    DropFrontPrepend(head, s + tail, cs);
    assert DropFront(s + tail, cs) == s + tail;
    DropBackAppend(s, tail, cs);
  }

  /** `s.split(sep, 1)[1]`: everything after the first `sep`. */
  function AfterFirst(s: string, sep: char): (r: string)
    requires sep in s
    ensures |r| < |s|
  {
    s[IndexOf(s, sep) + 1..]
  }

  /** `s.split(sep)[1]`: the text between the first and the second `sep`. */
  function SecondField(s: string, sep: char): (r: string)
    requires sep in s
    ensures sep !in r
    ensures StartsWith(AfterFirst(s, sep), r)
    ensures |r| == |AfterFirst(s, sep)| || AfterFirst(s, sep)[|r|] == sep
  {
    var rest := AfterFirst(s, sep);
    rest[..IndexOf(rest, sep)]
  }

  /** The text after the first separator is what follows a separator-free prefix. */
  lemma AfterFirstPrefix(p: string, sep: char, rest: string)
    requires sep !in p
    ensures sep in p + [sep] + rest
    ensures AfterFirst(p + [sep] + rest, sep) == rest
  {
    var s := p + [sep] + rest;
    assert s[|p|] == sep;
    assert forall i :: 0 <= i < |p| ==> s[i] == p[i];
    assert IndexOf(s, sep) == |p|;
  }

  /** The second field is the separator-free text after the first separator. */
  lemma SecondFieldPrefix(p: string, sep: char, mid: string)
    requires sep !in p && sep !in mid
    ensures sep in p + [sep] + mid
    ensures SecondField(p + [sep] + mid, sep) == mid
  {
    AfterFirstPrefix(p, sep, mid);
    assert IndexOf(mid, sep) == |mid|;
  }

  /** Reading a file in text mode (`open(path, 'r')`, universal newlines):
      a `\r\n` pair and a lone `\r` both become `\n`. */
  function Universal(s: string): string
    decreases |s|
  {
    if s == [] then []
    else if s[0] == '\r' then "\n" + Universal(if |s| > 1 && s[1] == '\n' then s[2..] else s[1..])
    else [s[0]] + Universal(s[1..])
  }

  /** No `\r` survives the translation, and text without one is read as it is. */
  lemma {:induction false} UniversalClean(s: string)
    ensures '\r' !in Universal(s)
    ensures '\r' !in s ==> Universal(s) == s
    decreases |s|
  {
    if s != [] {
      if s[0] == '\r' {
        var t := if |s| > 1 && s[1] == '\n' then s[2..] else s[1..];
        UniversalClean(t);
        assert Universal(s) == "\n" + Universal(t);
      } else {
        UniversalClean(s[1..]);
        assert Universal(s) == [s[0]] + Universal(s[1..]);
        assert s == [s[0]] + s[1..];
      }
    }
  }

  /** A line ended by `\n`, `\r\n` or a lone `\r` reads as the line ended by
      `\n`, and the rest is read on its own. */
  lemma UniversalLine(line: string, ending: string, rest: string)
    requires '\r' !in line
    requires ending == "\n" || ending == "\r\n" || (ending == "\r" && (rest == [] || rest[0] != '\n'))
    ensures Universal(line + ending + rest) == line + "\n" + Universal(rest)
  {
    assert line + ending + rest == line + (ending + rest);
    UniversalPrefix(line, ending + rest);
    UniversalEnding(ending, rest);
  }

  /** Text without `\r` in front is kept as it is. */
  lemma {:induction false} UniversalPrefix(p: string, s: string)
    requires '\r' !in p
    ensures Universal(p + s) == p + Universal(s)
    decreases |p|
  {
    if p == [] {
      assert p + s == s;
    } else {
      var c, q := p[0], p[1..];
      assert p == [c] + q;
      assert p + s == [c] + (q + s);
      UniversalKeeps(c, q + s);
      UniversalPrefix(q, s);
    }
  }

  lemma UniversalEnding(ending: string, rest: string)
    requires ending == "\n" || ending == "\r\n" || (ending == "\r" && (rest == [] || rest[0] != '\n'))
    ensures Universal(ending + rest) == "\n" + Universal(rest)
  {
    var s := ending + rest;
    if ending == "\n" {
      assert s[0] == '\n' && s[1..] == rest;
    } else if ending == "\r\n" {
      assert s[0] == '\r' && s[1] == '\n' && s[2..] == rest;
    } else {
      assert s[0] == '\r' && s[1..] == rest;
    }
  }

  lemma UniversalKeeps(c: char, s: string)
    requires c != '\r'
    ensures Universal([c] + s) == [c] + Universal(s)
  {
    assert ([c] + s)[0] == c && ([c] + s)[1..] == s;
  }

  /** `open(path, 'r').readlines()`. */
  function ReadTextLines(s: string): seq<string> {
    ReadLines(Universal(s))
  }

  /** `file.readlines()` on a text file: every line keeps its `\n`, the last
      one only if the contents end with it. */
  function ReadLines(s: string): (lines: seq<string>)
    decreases |s|
  {
    if s == [] then []
    else
      var k := IndexOf(s, '\n');
      if k < |s| then [s[..k + 1]] + ReadLines(s[k + 1..]) else [s]
  }

  function Concat(lines: seq<string>): string {
    if lines == [] then [] else lines[0] + Concat(lines[1..])
  }

  /** `readlines` loses nothing and splits only after a newline: the lines put
      back together give the contents, no line is empty, and every `\n` ends a line. */
  lemma ReadLinesPartition(s: string)
    ensures Concat(ReadLines(s)) == s
    ensures forall i :: 0 <= i < |ReadLines(s)| ==> ReadLines(s)[i] != []
    ensures forall i, j :: 0 <= i < |ReadLines(s)| && 0 <= j < |ReadLines(s)[i]| - 1 ==> ReadLines(s)[i][j] != '\n'
    ensures forall i :: 0 <= i < |ReadLines(s)| - 1 ==> EndsWith(ReadLines(s)[i], "\n")
  {
    ReadLinesConcat(s);
    ReadLinesEnds(s);
    ReadLinesInner(s);
  }

  /** The first line and the lines of what follows it. */
  lemma {:induction false} ReadLinesFirst(s: string, k: nat)
    requires k == IndexOf(s, '\n') && k < |s|
    ensures ReadLines(s) == [s[..k + 1]] + ReadLines(s[k + 1..])
    ensures ReadLines(s)[1..] == ReadLines(s[k + 1..])
  {
    var rest := ReadLines(s[k + 1..]);
    assert ([s[..k + 1]] + rest)[1..] == rest;
  }

  lemma {:induction false} ReadLinesConcat(s: string)
    ensures Concat(ReadLines(s)) == s
    decreases |s|
  {
    if s != [] {
      var k := IndexOf(s, '\n');
      if k < |s| {
        ReadLinesConcat(s[k + 1..]);
        ReadLinesFirst(s, k);
        assert s[..k + 1] + s[k + 1..] == s;
      } else {
        assert ReadLines(s) == [s];
        assert Concat([s][1..]) == [];
        assert s + [] == s;
      }
    }
  }

  lemma {:induction false} ReadLinesEnds(s: string)
    ensures forall i :: 0 <= i < |ReadLines(s)| ==> ReadLines(s)[i] != []
    ensures forall i :: 0 <= i < |ReadLines(s)| - 1 ==> EndsWith(ReadLines(s)[i], "\n")
    decreases |s|
  {
    if s != [] {
      var k := IndexOf(s, '\n');
      if k < |s| {
        ReadLinesEnds(s[k + 1..]);
        ReadLinesFirst(s, k);
        var first := s[..k + 1];
        assert first[|first| - 1..] == "\n";
        var rest := ReadLines(s[k + 1..]);
        assert forall i :: 1 <= i < |ReadLines(s)| ==> ReadLines(s)[i] == rest[i - 1];
      }
    }
  }

  lemma {:induction false} ReadLinesInner(s: string)
    ensures forall i, j :: 0 <= i < |ReadLines(s)| && 0 <= j < |ReadLines(s)[i]| - 1 ==> ReadLines(s)[i][j] != '\n'
    decreases |s|
  {
    if s != [] {
      var k := IndexOf(s, '\n');
      if k < |s| {
        ReadLinesInner(s[k + 1..]);
        ReadLinesFirst(s, k);
      }
    }
  }

  /** A newline-terminated line in front of the contents becomes the first line. */
  lemma ReadLinesCons(line: string, rest: string)
    requires '\n' !in line
    ensures ReadLines(line + "\n" + rest) == [line + "\n"] + ReadLines(rest)
  {
    var s := line + "\n" + rest;
    assert s[|line|] == '\n';
    assert forall i :: 0 <= i < |line| ==> s[i] == line[i];
    assert IndexOf(s, '\n') == |line|;
    assert s[..|line| + 1] == line + "\n";
    assert s[|line| + 1..] == rest;
  }
}
