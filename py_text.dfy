/** The Python string and list built-ins that the dispatcher and the recipient preparation
    rely on, over strings as sequences of code points: `str.isspace`, `strip`, `split()`,
    `split(sep)`, `splitlines`, `join`, slicing `[:n]`, repetition `c * n`, the substring test
    `in`, string comparison, `list.index` and `dict.fromkeys` de-duplication. */
module PyText {

  /** `c.isspace()`. The same characters are removed by `strip()`, split on by `split()`
      and matched by the regular-expression class `\s`. */
  predicate IsSpace(c: char)
  {
    ('\t' <= c <= '\r') || ('\U{1C}' <= c <= ' ') || c == '\U{85}' || c == '\U{A0}' ||
    c == '\U{1680}' || ('\U{2000}' <= c <= '\U{200A}') || c == '\U{2028}' || c == '\U{2029}' ||
    c == '\U{202F}' || c == '\U{205F}' || c == '\U{3000}'
  }

  /** The characters that end a line for `splitlines()` ("\r\n" together also ends one line). */
  predicate IsLineBoundary(c: char)
  {
    ('\n' <= c <= '\r') || ('\U{1C}' <= c <= '\U{1E}') || c == '\U{85}' ||
    c == '\U{2028}' || c == '\U{2029}'
  }

  predicate AllSpace(s: string)
  {
    forall k :: 0 <= k < |s| ==> IsSpace(s[k])
  }

  /** No leading and no trailing whitespace. */
  predicate IsStripped(s: string)
  {
    s == [] || (!IsSpace(s[0]) && !IsSpace(s[|s| - 1]))
  }

  // ---------------------------------------------------------------- strip

  /** `s.strip()`: leading and trailing whitespace removed. The result has no whitespace at
      either end, and it is empty exactly when `s` is blank. */
  function Strip(s: string): (r: string)
    ensures IsStripped(r)
    ensures r == [] <==> AllSpace(s)
    decreases |s|
  {
    if s == [] then s
    else if IsSpace(s[0]) then
      var r := Strip(s[1..]);
      assert AllSpace(s[1..]) ==> AllSpace(s) by {
        if AllSpace(s[1..]) {
          forall k | 1 <= k < |s| ensures IsSpace(s[k]) {
            assert s[k] == s[1..][k - 1];
          }
        }
      }
      r
    else if IsSpace(s[|s| - 1]) then
      var r := Strip(s[..|s| - 1]);
      assert AllSpace(s[..|s| - 1]) ==> AllSpace(s) by {
        if AllSpace(s[..|s| - 1]) {
          forall k | 0 <= k < |s| - 1 ensures IsSpace(s[k]) {
            assert s[k] == s[..|s| - 1][k];
          }
        }
      }
      r
    else s
  }

  /** `r` is the stretch `s[i..j]`, with only whitespace around it. */
  predicate Framed(s: string, r: string, i: int, j: int)
  {
    0 <= i <= j <= |s| && r == s[i..j] && AllSpace(s[..i]) && AllSpace(s[j..])
  }

  /** What `strip()` keeps: one stretch of `s`, with only whitespace before and after it. As
      the result has no whitespace at either end, that stretch runs from the first to the last
      non-whitespace character. */
  lemma {:induction false} StripMeaning(s: string)
    ensures exists i, j :: Framed(s, Strip(s), i, j)
    decreases |s|
  {
    if s == [] {
      assert Framed(s, Strip(s), 0, 0);
    } else if IsSpace(s[0]) {
      StripMeaning(s[1..]);
      var i, j :| Framed(s[1..], Strip(s[1..]), i, j);
      FramedAfterSpace(s, Strip(s), i, j);
    } else if IsSpace(s[|s| - 1]) {
      StripMeaning(s[..|s| - 1]);
      var i, j :| Framed(s[..|s| - 1], Strip(s[..|s| - 1]), i, j);
      FramedBeforeSpace(s, Strip(s), i, j);
    } else {
      assert Framed(s, Strip(s), 0, |s|);
    }
  }

  lemma FramedAfterSpace(s: string, r: string, i: int, j: int)
    requires s != [] && IsSpace(s[0]) && Framed(s[1..], r, i, j)
    ensures Framed(s, r, i + 1, j + 1)
  {
    var t := s[1..];
    assert t[i..j] == s[i + 1..j + 1];
    assert t[j..] == s[j + 1..];
    var u := s[..i + 1];
    forall k | 0 <= k < |u| ensures IsSpace(u[k]) {
      if k > 0 {
        assert u[k] == t[..i][k - 1];
      }
    }
  }

  lemma FramedBeforeSpace(s: string, r: string, i: int, j: int)
    requires s != [] && IsSpace(s[|s| - 1]) && Framed(s[..|s| - 1], r, i, j)
    ensures Framed(s, r, i, j)
  {
    var t := s[..|s| - 1];
    assert t[i..j] == s[i..j];
    assert t[..i] == s[..i];
    var u := s[j..];
    forall k | 0 <= k < |u| ensures IsSpace(u[k]) {
      if k < |t| - j {
        assert u[k] == t[j..][k];
      }
    }
  }

  /** Stripping an already stripped string changes nothing. */
  lemma StripStripped(s: string)
    requires IsStripped(s)
    ensures Strip(s) == s
  {
  }

  /** So `strip()` is idempotent. */
  lemma StripIdempotent(s: string)
    ensures Strip(Strip(s)) == Strip(s)
  {
    StripStripped(Strip(s));
  }

  // ---------------------------------------------------------------- pieces

  /** `"".join(parts)` */
  function Concat(parts: seq<string>): string
  {
    if parts == [] then [] else parts[0] + Concat(parts[1..])
  }

  /** The characters of `s` that are not separators, in order. */
  function Keep(s: string, isSep: char -> bool): (r: string)
    ensures |r| <= |s|
    ensures forall k :: 0 <= k < |r| ==> !isSep(r[k])
  {
    if s == [] then [] else (if isSep(s[0]) then [] else [s[0]]) + Keep(s[1..], isSep)
  }

  predicate SepFree(s: string, isSep: char -> bool)
  {
    forall k :: 0 <= k < |s| ==> !isSep(s[k])
  }

  lemma {:induction false} KeepAppend(a: string, b: string, isSep: char -> bool)
    ensures Keep(a + b, isSep) == Keep(a, isSep) + Keep(b, isSep)
  {
    if a != [] {
      var head := if isSep(a[0]) then [] else [a[0]];
      assert (a + b)[0] == a[0];
      assert (a + b)[1..] == a[1..] + b;
      KeepAppend(a[1..], b, isSep);
      calc {
        Keep(a + b, isSep);
        head + Keep(a[1..] + b, isSep);
        head + (Keep(a[1..], isSep) + Keep(b, isSep));
        (head + Keep(a[1..], isSep)) + Keep(b, isSep);
        Keep(a, isSep) + Keep(b, isSep);
      }
    } else {
      assert a + b == b;
    }
  }

  lemma {:induction false} KeepSepFree(w: string, isSep: char -> bool)
    requires SepFree(w, isSep)
    ensures Keep(w, isSep) == w
  {
    if w != [] {
      KeepSepFree(w[1..], isSep);
    }
  }

  /** The longest separator-free prefix of `s`. */
  function RunPrefix(s: string, isSep: char -> bool): (w: string)
    ensures |w| <= |s| && w == s[..|w|]
    ensures SepFree(w, isSep)
    ensures |w| < |s| ==> isSep(s[|w|])
  {
    if s == [] || isSep(s[0]) then [] else [s[0]] + RunPrefix(s[1..], isSep)
  }

  /** The non-empty pieces of `s` between runs of separators. With `IsSpace` this is
      `s.split()`; with a character class it is `re.split("[...]+", s)` with the empty
      pieces dropped. */
  function SplitRuns(s: string, isSep: char -> bool): (r: seq<string>)
    ensures forall k :: 0 <= k < |r| ==> r[k] != [] && SepFree(r[k], isSep)
    ensures Concat(r) == Keep(s, isSep)
    decreases |s|
  {
    if s == [] then []
    else if isSep(s[0]) then SplitRuns(s[1..], isSep)
    else
      var w := RunPrefix(s, isSep);
      var rest := SplitRuns(s[|w|..], isSep);
      assert s == w + s[|w|..];
      KeepAppend(w, s[|w|..], isSep);
      KeepSepFree(w, isSep);
      [w] + rest
  }

  /** The longest separator-free prefix of a separator-free piece followed by a separator,
      or by nothing, is that piece. */
  lemma {:induction false} RunPrefixOf(w: string, t: string, isSep: char -> bool)
    requires SepFree(w, isSep)
    requires t == [] || isSep(t[0])
    ensures RunPrefix(w + t, isSep) == w
  {
    if w != [] {
      assert (w + t)[0] == w[0] && !isSep(w[0]);
      assert (w + t)[1..] == w[1..] + t;
      RunPrefixOf(w[1..], t, isSep);
      assert w == [w[0]] + w[1..];
    } else {
      assert w + t == t;
    }
  }

  /** Separators in front of the text add no piece. */
  lemma {:induction false} SplitRunsSkip(seps: string, t: string, isSep: char -> bool)
    requires forall k :: 0 <= k < |seps| ==> isSep(seps[k])
    ensures SplitRuns(seps + t, isSep) == SplitRuns(t, isSep)
  {
    if seps != [] {
      assert (seps + t)[0] == seps[0];
      assert (seps + t)[1..] == seps[1..] + t;
      SplitRunsSkip(seps[1..], t, isSep);
    } else {
      assert seps + t == t;
    }
  }

  /** A separator-free piece followed by a run of separators is the first piece, whatever
      comes after the run: the pieces break at every separator run and nowhere else. */
  lemma SplitRunsBreak(w: string, seps: string, t: string, isSep: char -> bool)
    requires w != [] && SepFree(w, isSep)
    requires seps != [] && forall k :: 0 <= k < |seps| ==> isSep(seps[k])
    ensures SplitRuns(w + seps + t, isSep) == [w] + SplitRuns(t, isSep)
  {
    var s := w + seps + t;
    assert s == w + (seps + t);
    RunPrefixOf(w, seps + t, isSep);
    assert s[0] == w[0];
    assert s[|w|..] == seps + t;
    SplitRunsSkip(seps, t, isSep);
  }

  /** A non-empty separator-free text is one piece. */
  lemma SplitRunsWhole(w: string, isSep: char -> bool)
    requires w != [] && SepFree(w, isSep)
    ensures SplitRuns(w, isSep) == [w]
  {
    RunPrefixOf(w, [], isSep);
    assert w + [] == w;
    assert w[|w|..] == [];
  }

  /** `sep.join(parts)` */
  function JoinWith(sep: string, parts: seq<string>): string
  {
    if |parts| == 0 then []
    else if |parts| == 1 then parts[0]
    else parts[0] + sep + JoinWith(sep, parts[1..])
  }

  /** `s.split(sep)` for a one-character separator: never empty, no piece holds the
      separator, and joining the pieces with the separator gives `s` back. */
  function SplitOn(s: string, sep: char): (r: seq<string>)
    ensures |r| >= 1
    ensures forall k :: 0 <= k < |r| ==> sep !in r[k]
    ensures JoinWith([sep], r) == s
  {
    if s == [] then [[]]
    else
      var rest := SplitOn(s[1..], sep);
      assert s == [s[0]] + s[1..];
      if s[0] == sep then [[]] + rest
      else [[s[0]] + rest[0]] + rest[1..]
  }

  /** A separator-free prefix stays glued to the first piece of what follows it. */
  lemma {:induction false} SplitOnGlue(a: string, rest: string, sep: char)
    requires sep !in a
    ensures SplitOn(a + rest, sep) == [a + SplitOn(rest, sep)[0]] + SplitOn(rest, sep)[1..]
  {
    var r := SplitOn(rest, sep);
    if a == [] {
      assert a + rest == rest;
      assert a + r[0] == r[0];
      assert [a + r[0]] + r[1..] == r;
    } else {
      assert (a + rest)[0] == a[0] != sep;
      assert (a + rest)[1..] == a[1..] + rest;
      SplitOnGlue(a[1..], rest, sep);
      calc {
        SplitOn(a + rest, sep);
        [[a[0]] + SplitOn(a[1..] + rest, sep)[0]] + SplitOn(a[1..] + rest, sep)[1..];
        [[a[0]] + (a[1..] + r[0])] + r[1..];
        { assert [a[0]] + (a[1..] + r[0]) == a + r[0]; }
        [a + r[0]] + r[1..];
      }
    }
  }

  /** The first piece of `s` ends at its first separator. */
  lemma {:induction false} SplitOnAt(s: string, n: nat, sep: char)
    requires n < |s| && s[n] == sep && sep !in s[..n]
    ensures SplitOn(s, sep) == [s[..n]] + SplitOn(s[n + 1..], sep)
  {
    if n > 0 {
      var t := s[1..];
      assert t[n - 1] == sep;
      assert sep !in t[..n - 1] by {
        assert t[..n - 1] == s[..n][1..];
      }
      SplitOnAt(t, n - 1, sep);
      assert t[n..] == s[n + 1..];
      assert [s[0]] + t[..n - 1] == s[..n];
    }
  }

  /** Splitting undoes joining, when no part holds the separator. */
  lemma {:induction false} SplitOnJoin(parts: seq<string>, sep: char)
    requires |parts| >= 1
    requires forall k :: 0 <= k < |parts| ==> sep !in parts[k]
    ensures SplitOn(JoinWith([sep], parts), sep) == parts
  {
    if |parts| == 1 {
      SplitOnGlue(parts[0], [], sep);
      assert parts[0] + [] == parts[0];
    } else {
      var tail := JoinWith([sep], parts[1..]);
      SplitOnJoin(parts[1..], sep);
      assert JoinWith([sep], parts) == parts[0] + ([sep] + tail);
      SplitOnGlue(parts[0], [sep] + tail, sep);
      assert ([sep] + tail)[1..] == tail;
      assert SplitOn([sep] + tail, sep) == [[]] + parts[1..];
      assert parts[0] + [] == parts[0];
      assert parts == [parts[0]] + parts[1..];
    }
  }

  // ---------------------------------------------------------------- lines

  predicate NoLineBoundary(s: string)
  {
    forall k :: 0 <= k < |s| ==> !IsLineBoundary(s[k])
  }

  /** The length of the first line of `s`: the index of its first line boundary, or `|s|`. */
  function LineLength(s: string): (n: nat)
    ensures n <= |s|
    ensures n < |s| ==> IsLineBoundary(s[n])
  {
    if s == [] || IsLineBoundary(s[0]) then 0 else 1 + LineLength(s[1..])
  }

  /** The first line holds no boundary. */
  lemma {:induction false} LineLengthClean(s: string)
    ensures NoLineBoundary(s[..LineLength(s)])
  {
    if s != [] && !IsLineBoundary(s[0]) {
      LineLengthClean(s[1..]);
      assert s[..LineLength(s)] == [s[0]] + s[1..][..LineLength(s[1..])];
    }
  }

  /** `s.splitlines()`: empty exactly for the empty string; no line holds a boundary. */
  function SplitLines(s: string): (r: seq<string>)
    ensures (r == []) == (s == [])
    ensures forall k :: 0 <= k < |r| ==> NoLineBoundary(r[k])
    decreases |s|
  {
    if s == [] then []
    else
      var n := LineLength(s);
      LineLengthClean(s);
      if n == |s| then
        assert s[..n] == s;
        [s]
      else
        var width := if s[n] == '\r' && n + 1 < |s| && s[n + 1] == '\n' then 2 else 1;
        [s[..n]] + SplitLines(s[n + width..])
  }

  /** A string whose only line boundaries are "\n" and which does not end with one. */
  predicate PlainLines(s: string)
  {
    (forall k :: 0 <= k < |s| ==> s[k] != '\n' ==> !IsLineBoundary(s[k])) &&
    (s == [] || s[|s| - 1] != '\n')
  }

  lemma PlainLinesSuffix(s: string, m: nat)
    requires PlainLines(s) && m <= |s|
    ensures PlainLines(s[m..])
  {
    var t := s[m..];
    forall k | 0 <= k < |t| ensures t[k] != '\n' ==> !IsLineBoundary(t[k]) {
      assert t[k] == s[m + k];
    }
    assert t != [] ==> t[|t| - 1] == s[|s| - 1];
  }

  /** On such a string `splitlines()` and `split("\n")` agree (the empty string aside,
      for which `splitlines()` gives no line at all). */
  lemma {:induction false} SplitLinesAgree(s: string)
    requires s != [] && PlainLines(s)
    ensures SplitLines(s) == SplitOn(s, '\n')
    decreases |s|
  {
    var n := LineLength(s);
    LineLengthClean(s);
    if n == |s| {
      assert s[..n] == s;
      assert '\n' !in s;
      SplitOnGlue(s, [], '\n');
      assert s + [] == s;
    } else {
      assert s[n] == '\n';
      assert n != |s| - 1;
      var line, rest := s[..n], s[n + 1..];
      SplitLinesFirst(s, n, 1);
      PlainLinesSuffix(s, n + 1);
      SplitLinesAgree(rest);
      assert '\n' !in line by {
        forall k | 0 <= k < |line| ensures line[k] != '\n' {
          assert !IsLineBoundary(line[k]);
        }
      }
      SplitOnAt(s, n, '\n');
    }
  }

  /** What ends one line for `splitlines()`: one boundary character, or "\r\n" together. */
  predicate IsLineEnd(e: string)
  {
    (|e| == 1 && IsLineBoundary(e[0])) || e == "\r\n"
  }

  /** Each line followed by its ending, all run together. */
  function Glue(lines: seq<string>, ends: seq<string>): string
    requires |lines| == |ends|
  {
    if lines == [] then [] else lines[0] + ends[0] + Glue(lines[1..], ends[1..])
  }

  /** `lines` with `ends` is a way of writing a text line by line as `splitlines()` reads it:
      no line holds a boundary, every line is ended except possibly a non-empty last one,
      and a lone "\r" is never followed by an empty line ended by "\n" (that would be one
      "\r\n" ending). */
  predicate LineLayout(lines: seq<string>, ends: seq<string>)
  {
    |lines| == |ends| &&
    (forall k :: 0 <= k < |lines| ==> NoLineBoundary(lines[k])) &&
    (forall k :: 0 <= k < |ends| ==>
       IsLineEnd(ends[k]) || (ends[k] == [] && k == |ends| - 1 && lines[k] != [])) &&
    (forall k :: 0 <= k < |ends| - 1 && ends[k] == "\r" ==> lines[k + 1] != [] || ends[k + 1] != "\n")
  }

  lemma LineLayoutTail(lines: seq<string>, ends: seq<string>)
    requires lines != [] && LineLayout(lines, ends)
    ensures LineLayout(lines[1..], ends[1..])
  {
    forall k | 0 <= k < |ends| - 1
      ensures IsLineEnd(ends[1..][k]) || (ends[1..][k] == [] && k == |ends| - 2 && lines[1..][k] != [])
    {
      assert ends[1..][k] == ends[k + 1] && lines[1..][k] == lines[k + 1];
    }
    forall k | 0 <= k < |ends| - 2 && ends[1..][k] == "\r"
      ensures lines[1..][k + 1] != [] || ends[1..][k + 1] != "\n"
    {
      assert ends[1..][k] == ends[k + 1] && lines[1..][k + 1] == lines[k + 2];
    }
  }

  /** The first line of `a + b` is `a` when `a` holds no boundary and `b` starts with one. */
  lemma {:induction false} LineLengthAt(a: string, b: string)
    requires NoLineBoundary(a) && (b == [] || IsLineBoundary(b[0]))
    ensures LineLength(a + b) == |a|
  {
    if a == [] {
      assert a + b == b;
    } else {
      assert (a + b)[0] == a[0];
      assert (a + b)[1..] == a[1..] + b;
      LineLengthAt(a[1..], b);
    }
  }

  /** One ended line in front of `rest` is read as that line, then the lines of `rest`. */
  lemma SplitLinesStep(line: string, end: string, rest: string)
    requires NoLineBoundary(line) && IsLineEnd(end)
    requires end == "\r" && rest != [] ==> rest[0] != '\n'
    ensures SplitLines(line + end + rest) == [line] + SplitLines(rest)
  {
    var s := line + end + rest;
    var n := |line|;
    assert s == line + (end + rest);
    LineLengthAt(line, end + rest);
    assert s[..n] == line && s[n] == end[0];
    if end == "\r\n" {
      assert s[n + 1] == '\n';
      assert s[n + 2..] == rest;
    } else {
      assert s[n + 1..] == rest;
    }
  }

  /** A written text never starts with "\n" unless its first line is empty and ended by it. */
  lemma GlueHead(lines: seq<string>, ends: seq<string>)
    requires lines != [] && LineLayout(lines, ends)
    requires lines[0] != [] || ends[0] != "\n"
    ensures Glue(lines, ends)[0] != '\n'
  {
    var s := Glue(lines, ends);
    assert s == lines[0] + (ends[0] + Glue(lines[1..], ends[1..]));
    if lines[0] != [] {
      assert s[0] == lines[0][0];
    } else {
      assert s[0] == ends[0][0];
    }
  }

  /** `splitlines()` reads back the lines of any text written line by line: with
      `SplitLinesCover`, this pins down each line as the text up to its next boundary, with
      "\r\n" taken as one boundary. */
  lemma {:induction false} SplitLinesGlue(lines: seq<string>, ends: seq<string>)
    requires LineLayout(lines, ends)
    ensures SplitLines(Glue(lines, ends)) == lines
    decreases |lines|
  {
    if lines != [] {
      LineLayoutTail(lines, ends);
      SplitLinesGlue(lines[1..], ends[1..]);
      if ends[0] == [] {
        GlueLastLine(lines, ends);
      } else {
        GlueEndedLine(lines, ends);
      }
    }
  }

  lemma GlueLastLine(lines: seq<string>, ends: seq<string>)
    requires LineLayout(lines, ends) && lines != [] && ends[0] == []
    ensures SplitLines(Glue(lines, ends)) == lines
  {
    assert |lines| == 1;
    assert Glue(lines, ends) == lines[0] + [] + [];
    assert lines[0] + [] + [] == lines[0];
    LineLengthAt(lines[0], []);
    assert lines[0] + [] == lines[0];
  }

  lemma GlueEndedLine(lines: seq<string>, ends: seq<string>)
    requires LineLayout(lines, ends) && lines != [] && ends[0] != []
    requires SplitLines(Glue(lines[1..], ends[1..])) == lines[1..]
    ensures SplitLines(Glue(lines, ends)) == lines
  {
    var rest := Glue(lines[1..], ends[1..]);
    if ends[0] == "\r" && rest != [] {
      LineLayoutTail(lines, ends);
      GlueHead(lines[1..], ends[1..]);
    }
    SplitLinesStep(lines[0], ends[0], rest);
    assert lines == [lines[0]] + lines[1..];
  }

  /** An ended line put in front of a layout is a layout. */
  lemma LineLayoutCons(line: string, end: string, r: seq<string>, es: seq<string>)
    requires NoLineBoundary(line) && IsLineEnd(end) && LineLayout(r, es)
    requires end == "\r" && Glue(r, es) != [] ==> Glue(r, es)[0] != '\n'
    ensures LineLayout([line] + r, [end] + es)
    ensures Glue([line] + r, [end] + es) == line + end + Glue(r, es)
  {
    if end == "\r" && r != [] && r[0] == [] && es[0] == "\n" {
      GlueNewlineHead(r, es);
    }
    var lines, ends := [line] + r, [end] + es;
    assert lines[1..] == r && ends[1..] == es;
    forall k | 1 <= k < |ends|
      ensures IsLineEnd(ends[k]) || (ends[k] == [] && k == |ends| - 1 && lines[k] != [])
    {
      assert ends[k] == es[k - 1] && lines[k] == r[k - 1];
    }
    forall k | 1 <= k < |ends| - 1 && ends[k] == "\r"
      ensures lines[k + 1] != [] || ends[k + 1] != "\n"
    {
      assert ends[k] == es[k - 1] && lines[k + 1] == r[k] && ends[k + 1] == es[k];
    }
  }

  /** A text whose first line is empty and ended by "\n" starts with "\n". */
  lemma GlueNewlineHead(r: seq<string>, es: seq<string>)
    requires r != [] && |r| == |es| && r[0] == [] && es[0] == "\n"
    ensures Glue(r, es) != [] && Glue(r, es)[0] == '\n'
  {
    assert Glue(r, es) == r[0] + es[0] + Glue(r[1..], es[1..]);
    assert r[0] + es[0] == "\n";
  }

  /** The ending `splitlines()` finds after each of its lines: "\r\n" taken together, else
      the one boundary character, and nothing after an unended last line. */
  ghost function LineEnds(s: string): seq<string>
    decreases |s|
  {
    if s == [] then []
    else
      var n := LineLength(s);
      if n == |s| then [[]]
      else
        var width := if s[n] == '\r' && n + 1 < |s| && s[n + 1] == '\n' then 2 else 1;
        [s[n..n + width]] + LineEnds(s[n + width..])
  }

  /** The first line of `s`, its ending and the text after it, when `s` has a boundary. */
  lemma SplitLinesFirst(s: string, n: nat, width: nat)
    requires n == LineLength(s) < |s|
    requires width == if s[n] == '\r' && n + 1 < |s| && s[n + 1] == '\n' then 2 else 1
    ensures n + width <= |s|
    ensures SplitLines(s) == [s[..n]] + SplitLines(s[n + width..])
  {
  }

  lemma LineEndsFirst(s: string, n: nat, width: nat)
    requires n == LineLength(s) < |s|
    requires width == if s[n] == '\r' && n + 1 < |s| && s[n + 1] == '\n' then 2 else 1
    ensures n + width <= |s|
    ensures LineEnds(s) == [s[n..n + width]] + LineEnds(s[n + width..])
  {
  }

  /** The ending found after a line is a line ending, and a lone "\r" is not followed by
      "\n". */
  lemma FirstLineEnd(s: string, n: nat, width: nat)
    requires n < |s| && IsLineBoundary(s[n])
    requires width == if s[n] == '\r' && n + 1 < |s| && s[n + 1] == '\n' then 2 else 1
    ensures n + width <= |s|
    ensures IsLineEnd(s[n..n + width])
    ensures s[n..n + width] == "\r" && n + 1 < |s| ==> s[n + 1..][0] != '\n'
  {
    if width == 2 {
      assert s[n..n + width] == [s[n], s[n + 1]];
    } else {
      assert s[n..n + width] == [s[n]];
      assert n + 1 < |s| ==> s[n + 1..][0] == s[n + 1];
    }
  }

  lemma ThreeParts(s: string, a: nat, b: nat)
    requires a <= b <= |s|
    ensures s == s[..a] + s[a..b] + s[b..]
  {
    assert s[..a] + s[a..b] == s[..b];
  }

  /** Every text is written by its `splitlines()` lines and the endings found after them. */
  lemma {:induction false} SplitLinesCover(s: string)
    ensures LineLayout(SplitLines(s), LineEnds(s)) && Glue(SplitLines(s), LineEnds(s)) == s
    decreases |s|
  {
    if s != [] {
      var n := LineLength(s);
      if n == |s| {
        assert s[..n] == s;
        assert s + [] + [] == s;
      } else {
        var width := if s[n] == '\r' && n + 1 < |s| && s[n + 1] == '\n' then 2 else 1;
        SplitLinesFirst(s, n, width);
        LineEndsFirst(s, n, width);
        FirstLineEnd(s, n, width);
        ThreeParts(s, n, n + width);
        var tail := s[n + width..];
        SplitLinesCover(tail);
        LineLayoutCons(s[..n], s[n..n + width], SplitLines(tail), LineEnds(tail));
      }
    }
  }

  // ---------------------------------------------------------------- small builtins

  /** `s[:n]` */
  function Take(s: string, n: nat): (r: string)
    ensures |r| == (if |s| <= n then |s| else n) && r == s[..|r|]
  {
    if |s| <= n then s else s[..n]
  }

  /** `c * n`: empty when `n <= 0`. */
  function Repeat(c: char, n: int): (r: string)
    ensures |r| == if n > 0 then n else 0
    ensures forall k :: 0 <= k < |r| ==> r[k] == c
    decreases if n > 0 then n else 0
  {
    if n <= 0 then [] else [c] + Repeat(c, n - 1)
  }

  /** `needle` occurs in `hay` starting at index `i`. */
  predicate OccursAt(needle: string, hay: string, i: nat)
  {
    i + |needle| <= |hay| && hay[i..i + |needle|] == needle
  }

  ghost predicate IsSubstring(needle: string, hay: string)
  {
    exists i: nat :: OccursAt(needle, hay, i)
  }

  /** A string occurs in any string built around it. */
  lemma OccursInside(before: string, needle: string, after: string)
    ensures OccursAt(needle, before + needle + after, |before|)
    ensures IsSubstring(needle, before + needle + after)
  {
    var hay := before + needle + after;
    assert hay[|before|..|before| + |needle|] == needle;
    assert OccursAt(needle, hay, |before|);
  }

  /** `needle in hay`, computed by trying each start position in turn. */
  function Occurs(needle: string, hay: string): bool
    decreases |hay|
  {
    if |needle| <= |hay| && hay[..|needle|] == needle then true
    else if hay == [] then false
    else Occurs(needle, hay[1..])
  }

  /** `Occurs` finds exactly the substrings. */
  lemma OccursMeaning(needle: string, hay: string)
    ensures Occurs(needle, hay) <==> IsSubstring(needle, hay)
  {
    if Occurs(needle, hay) {
      OccursSound(needle, hay);
    }
    if IsSubstring(needle, hay) {
      var i: nat :| OccursAt(needle, hay, i);
      OccursComplete(needle, hay, i);
    }
  }

  /** What `Occurs` finds is there. */
  lemma {:induction false} OccursSound(needle: string, hay: string)
    requires Occurs(needle, hay)
    ensures IsSubstring(needle, hay)
    decreases |hay|
  {
    if |needle| <= |hay| && hay[..|needle|] == needle {
      assert OccursAt(needle, hay, 0);
    } else {
      OccursSound(needle, hay[1..]);
      var i: nat :| OccursAt(needle, hay[1..], i);
      assert hay[i + 1..i + 1 + |needle|] == hay[1..][i..i + |needle|];
      assert OccursAt(needle, hay, i + 1);
    }
  }

  /** What is there at index `i`, `Occurs` finds. */
  lemma {:induction false} OccursComplete(needle: string, hay: string, i: nat)
    requires OccursAt(needle, hay, i)
    ensures Occurs(needle, hay)
    decreases i
  {
    if i > 0 && !(|needle| <= |hay| && hay[..|needle|] == needle) {
      assert hay[1..][i - 1..i - 1 + |needle|] == hay[i..i + |needle|];
      OccursComplete(needle, hay[1..], i - 1);
    }
  }

  // ---------------------------------------------------------------- ordering

  /** Python's `a <= b` on strings: lexicographic by code point. */
  predicate LexLe(a: string, b: string)
  {
    a == [] || (b != [] && (a[0] < b[0] || (a[0] == b[0] && LexLe(a[1..], b[1..]))))
  }

  lemma {:induction false} LexLeTotal(a: string, b: string)
    ensures LexLe(a, b) || LexLe(b, a)
  {
    if a != [] && b != [] && a[0] == b[0] {
      LexLeTotal(a[1..], b[1..]);
    }
  }

  lemma {:induction false} LexLeTrans(a: string, b: string, c: string)
    requires LexLe(a, b) && LexLe(b, c)
    ensures LexLe(a, c)
  {
    if a != [] && b != [] && c != [] && a[0] == b[0] == c[0] {
      LexLeTrans(a[1..], b[1..], c[1..]);
    }
  }

  lemma {:induction false} LexLeAntisym(a: string, b: string)
    requires LexLe(a, b) && LexLe(b, a)
    ensures a == b
  {
    if a != [] && b != [] {
      LexLeAntisym(a[1..], b[1..]);
      assert a == [a[0]] + a[1..] && b == [b[0]] + b[1..];
    }
  }

  // ---------------------------------------------------------------- lists

  predicate Distinct<T(==)>(xs: seq<T>)
  {
    forall i, j :: 0 <= i < j < |xs| ==> xs[i] != xs[j]
  }

  /** `xs.index(x)` */
  function FirstIndex<T(==)>(xs: seq<T>, x: T): (i: nat)
    requires x in xs
    ensures i < |xs| && xs[i] == x && x !in xs[..i]
  {
    if xs[0] == x then 0 else 1 + FirstIndex(xs[1..], x)
  }

  lemma {:induction false} FirstIndexPrefix<T>(xs: seq<T>, ys: seq<T>, x: T)
    requires x in xs
    ensures FirstIndex(xs + ys, x) == FirstIndex(xs, x)
  {
    if xs[0] != x {
      assert (xs + ys)[1..] == xs[1..] + ys;
      FirstIndexPrefix(xs[1..], ys, x);
    }
  }

  lemma FirstIndexNew<T>(xs: seq<T>, x: T)
    requires x !in xs
    ensures FirstIndex(xs + [x], x) == |xs|
  {
    assert forall k :: 0 <= k < |xs| ==> (xs + [x])[k] == xs[k];
  }

  /** `list(dict.fromkeys(xs))`: the elements of `xs` without repetitions, kept in the
      order of their first occurrence. */
  function Dedup<T(==)>(xs: seq<T>): (r: seq<T>)
    ensures Distinct(r)
    ensures forall i :: 0 <= i < |r| ==> r[i] in xs
    ensures forall i :: 0 <= i < |xs| ==> xs[i] in r
    ensures forall i, j :: 0 <= i < j < |r| ==> FirstIndex(xs, r[i]) < FirstIndex(xs, r[j])
  {
    if xs == [] then []
    else
      var init := xs[..|xs| - 1];
      var last := xs[|xs| - 1];
      var d := Dedup(init);
      assert xs == init + [last];
      forall y | y in init ensures FirstIndex(xs, y) == FirstIndex(init, y) {
        FirstIndexPrefix(init, [last], y);
      }
      if last in d then d
      else
        FirstIndexNew(init, last);
        d + [last]
  }

  /** Appending an element: a new one goes to the end, a repeated one is dropped. */
  lemma DedupSnoc<T>(xs: seq<T>, x: T)
    ensures Dedup(xs + [x]) == if x in xs then Dedup(xs) else Dedup(xs) + [x]
  {
    assert (xs + [x])[..|xs|] == xs;
    if x in xs {
      var i :| 0 <= i < |xs| && xs[i] == x;
    }
  }
}
