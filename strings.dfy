/** The Python `str` behaviour the core relies on: `strip`, `split`, `join`, `splitlines`
    and the decimal rendering of an `int` inside an f-string. */
module Strings {
  import opened Sequences

  /** Python's `str.isspace()` for one character: the ASCII controls `\t` to `\r` and
      `\x1c` to `\x1f`, the space, and the Unicode spaces and separators. */
  predicate IsSpace(c: char)
  {
    || ('\t' <= c <= '\r') || ('\U{1C}' <= c <= ' ') || c == '\U{85}' || c == '\U{A0}'
    || c == '\U{1680}' || ('\U{2000}' <= c <= '\U{200A}') || c == '\U{2028}' || c == '\U{2029}'
    || c == '\U{202F}' || c == '\U{205F}' || c == '\U{3000}'
  }

  /** The characters `str.strip()` with no argument removes from both ends. */
  const Whitespace: set<char> := set c: char | '\t' <= c <= '\U{3000}' && IsSpace(c)

  /** `s.lstrip(cs)`: drops the longest prefix made of characters of `cs`. */
  function LStrip(s: string, cs: set<char>): (r: string)
    ensures |r| <= |s| && r == s[|s| - |r|..]
    decreases |s|
  {
    if s != [] && s[0] in cs then LStrip(s[1..], cs) else s
  }

  /** What `lstrip` drops is made of `cs`, and what it keeps does not start with `cs`. */
  lemma {:induction false} LStripDrops(s: string, cs: set<char>)
    ensures var r := LStrip(s, cs);
      && (forall i :: 0 <= i < |s| - |r| ==> s[i] in cs)
      && (r != [] ==> r[0] !in cs)
    decreases |s|
  {
    if s != [] && s[0] in cs {
      LStripDrops(s[1..], cs);
    }
  }

  /** `s.rstrip(cs)`: drops the longest suffix made of characters of `cs`. */
  function RStrip(s: string, cs: set<char>): (r: string)
    ensures |r| <= |s| && r == s[..|r|]
    decreases |s|
  {
    if s != [] && s[|s| - 1] in cs then RStrip(s[..|s| - 1], cs) else s
  }

  /** What `rstrip` drops is made of `cs`, and what it keeps does not end with `cs`. */
  lemma {:induction false} RStripDrops(s: string, cs: set<char>)
    ensures var r := RStrip(s, cs);
      && (forall i :: |r| <= i < |s| ==> s[i] in cs)
      && (r != [] ==> r[|r| - 1] !in cs)
    decreases |s|
  {
    if s != [] && s[|s| - 1] in cs {
      RStripDrops(s[..|s| - 1], cs);
    }
  }

  /** `s.strip(cs)`: the middle of `s` left once characters of `cs` are dropped from both ends. */
  function StripChars(s: string, cs: set<char>): (r: string)
    ensures |r| <= |s|
  {
    RStrip(LStrip(s, cs), cs)
  }

  /** What `strip` promises: the result is made of characters of `s` and neither starts nor
      ends with a character of `cs`; it is empty exactly when `s` is made of `cs`; and `s` is
      returned unchanged when its ends are not in `cs`. */
  lemma StripCharsSpec(s: string, cs: set<char>)
    ensures var r := StripChars(s, cs);
      && (r != [] ==> r[0] !in cs && r[|r| - 1] !in cs)
      && (r == [] <==> forall i :: 0 <= i < |s| ==> s[i] in cs)
      && (s == [] || (s[0] !in cs && s[|s| - 1] !in cs) ==> r == s)
      && (forall x :: x in r ==> x in s)
  {
    StripEnds(s, cs);
    StripEmpty(s, cs);
    StripWithin(s, cs);
  }

  lemma StripEnds(s: string, cs: set<char>)
    ensures var r := StripChars(s, cs);
      && (r != [] ==> r[0] !in cs && r[|r| - 1] !in cs)
      && (s == [] || (s[0] !in cs && s[|s| - 1] !in cs) ==> r == s)
  {
    var l := LStrip(s, cs);
    LStripDrops(s, cs);
    RStripDrops(l, cs);
  }

  lemma StripEmpty(s: string, cs: set<char>)
    ensures StripChars(s, cs) == [] <==> forall i :: 0 <= i < |s| ==> s[i] in cs
  {
    var l := LStrip(s, cs);
    var r := RStrip(l, cs);
    LStripDrops(s, cs);
    RStripDrops(l, cs);
    if r != [] {
      assert r[0] == l[0] == s[|s| - |l|];
    }
  }

  lemma StripWithin(s: string, cs: set<char>)
    ensures forall x :: x in StripChars(s, cs) ==> x in s
  {
    var l := LStrip(s, cs);
    var r := RStrip(l, cs);
    var off := |s| - |l|;
    forall x | x in r ensures x in s {
      var i :| 0 <= i < |r| && r[i] == x;
      assert r[i] == l[i] == s[off + i];
    }
  }

  /** `lstrip` returns a string that does not start with `cs` unchanged. */
  lemma LStripKeeps(s: string, cs: set<char>)
    requires s == [] || s[0] !in cs
    ensures LStrip(s, cs) == s
  {
  }

  /** `strip` returns a string whose ends are not in `cs` unchanged. */
  lemma StripKeeps(s: string, cs: set<char>)
    requires s == [] || (s[0] !in cs && s[|s| - 1] !in cs)
    ensures StripChars(s, cs) == s
  {
    StripEnds(s, cs);
  }

  /** `s.strip()`. */
  function Strip(s: string): string
  {
    StripChars(s, Whitespace)
  }

  /** A prefix made of `cs` before a string that does not start with `cs` is exactly what
      `lstrip` removes. */
  lemma {:induction false} LStripPadded(pre: string, rest: string, cs: set<char>)
    requires rest != [] && rest[0] !in cs
    requires forall i :: 0 <= i < |pre| ==> pre[i] in cs
    ensures LStrip(pre + rest, cs) == rest
    decreases |pre|
  {
    if pre != [] {
      assert (pre + rest)[1..] == pre[1..] + rest;
      LStripPadded(pre[1..], rest, cs);
    }
  }

  /** A suffix made of `cs` after a string that does not end with `cs` is exactly what
      `rstrip` removes. */
  lemma {:induction false} RStripPadded(rest: string, post: string, cs: set<char>)
    requires rest != [] && rest[|rest| - 1] !in cs
    requires forall i :: 0 <= i < |post| ==> post[i] in cs
    ensures RStrip(rest + post, cs) == rest
    decreases |post|
  {
    if post != [] {
      var init := post[..|post| - 1];
      assert (rest + post)[..|rest + post| - 1] == rest + init;
      RStripPadded(rest, init, cs);
    }
  }

  /** Padding made of `cs` around a core whose ends are not in `cs` is exactly what `strip`
      removes. */
  lemma StripPadded(pre: string, core: string, post: string, cs: set<char>)
    requires core != [] && core[0] !in cs && core[|core| - 1] !in cs
    requires forall i :: 0 <= i < |pre| ==> pre[i] in cs
    requires forall i :: 0 <= i < |post| ==> post[i] in cs
    ensures StripChars(pre + core + post, cs) == core
  {
    assert pre + core + post == pre + (core + post);
    LStripPadded(pre, core + post, cs);
    RStripPadded(core, post, cs);
  }

  /** A leading character that `strip` removes does not change the result. */
  lemma StripAbsorbsLeading(c: char, s: string, cs: set<char>)
    requires c in cs
    ensures StripChars([c] + s, cs) == StripChars(s, cs)
  {
    assert ([c] + s)[1..] == s;
  }

  /** A trailing character that `rstrip` removes does not change the result. */
  lemma RStripAbsorbsTrailing(s: string, c: char, cs: set<char>)
    requires c in cs
    ensures RStrip(s + [c], cs) == RStrip(s, cs)
  {
    assert (s + [c])[..|s|] == s;
  }

  /** The predicate "is the character `c`", as a value. */
  function Is(c: char): char -> bool
  {
    x => x == c
  }

  /** `s.split(c)` for a one-character separator: always `1 + (number of c)` pieces. */
  function SplitOn(s: string, c: char): seq<string>
  {
    Split(s, Is(c))
  }

  /** A string without the separator splits into itself alone. */
  lemma SplitOnWithout(s: string, c: char)
    requires c !in s
    ensures SplitOn(s, c) == [s]
  {
    assert forall i :: 0 <= i < |s| ==> !Is(c)(s[i]);
    SplitNoSeparator(s, Is(c));
  }

  /** `sep.join(parts)`. */
  function JoinWith(parts: seq<string>, sep: string): string
    decreases |parts|
  {
    if parts == [] then ""
    else if |parts| == 1 then parts[0]
    else parts[0] + sep + JoinWith(parts[1..], sep)
  }

  lemma {:induction false} JoinWithSnoc(parts: seq<string>, q: string, sep: string)
    requires parts != []
    ensures JoinWith(parts + [q], sep) == JoinWith(parts, sep) + sep + q
    decreases |parts|
  {
    if |parts| == 1 {
      assert (parts + [q])[1..] == [q];
    } else {
      assert (parts + [q])[1..] == parts[1..] + [q];
      JoinWithSnoc(parts[1..], q, sep);
    }
  }

  /** Joining the pieces of a split with the separator gives back the string. */
  lemma {:induction false} JoinSplitOn(s: string, c: char)
    ensures JoinWith(SplitOn(s, c), [c]) == s
    decreases |s|
  {
    if s != [] {
      JoinSplitOn(s[1..], c);
      var rest := SplitOn(s[1..], c);
      if s[0] == c {
        assert SplitOn(s, c) == [[]] + rest;
        assert JoinWith(SplitOn(s, c), [c]) == [] + [c] + JoinWith(rest, [c]);
      } else {
        assert SplitOn(s, c) == [[s[0]] + rest[0]] + rest[1..];
        if |rest| == 1 {
          assert JoinWith(rest, [c]) == rest[0];
        } else {
          assert JoinWith(rest, [c]) == rest[0] + [c] + JoinWith(rest[1..], [c]);
        }
      }
    }
  }

  /** Splitting a join of separator-free pieces gives back the pieces. */
  lemma {:induction false} SplitOnJoin(parts: seq<string>, c: char)
    requires parts != []
    requires forall k, i :: 0 <= k < |parts| && 0 <= i < |parts[k]| ==> parts[k][i] != c
    ensures SplitOn(JoinWith(parts, [c]), c) == parts
    decreases |parts|
  {
    assert forall i :: 0 <= i < |parts[0]| ==> !Is(c)(parts[0][i]);
    SplitNoSeparator(parts[0], Is(c));
    if |parts| > 1 {
      SplitOnJoin(parts[1..], c);
      SplitAtSeparator(parts[0], c, JoinWith(parts[1..], [c]), Is(c));
      assert parts[0] + [c] + JoinWith(parts[1..], [c]) == JoinWith(parts, [c]);
    }
  }

  /** `s.splitlines()`, with `'\n'` as the only line boundary: the empty string has no
      lines, and a final newline does not start an extra empty line. */
  function SplitLines(s: string): (lines: seq<string>)
    ensures lines == [] <==> s == ""
    ensures forall k :: 0 <= k < |lines| ==> '\n' !in lines[k]
  {
    if s == "" then []
    else
      var pieces := SplitOn(s, '\n');
      JoinSplitOn(s, '\n');
      PiecesHaveNoNewline(s);
      if pieces[|pieces| - 1] == "" then pieces[..|pieces| - 1] else pieces
  }

  /** No piece of a split at `'\n'` holds a line break. */
  lemma PiecesHaveNoNewline(s: string)
    ensures forall k :: 0 <= k < |SplitOn(s, '\n')| ==> '\n' !in SplitOn(s, '\n')[k]
  {
    var pieces := SplitOn(s, '\n');
    SplitPiecesHaveNoSeparator(s, Is('\n'));
    forall k | 0 <= k < |pieces| ensures '\n' !in pieces[k] {
      assert forall i :: 0 <= i < |Split(s, Is('\n'))[k]| ==> !Is('\n')(Split(s, Is('\n'))[k][i]);
    }
  }

  /** The lines joined with `'\n'` give back the text, up to one final newline. */
  lemma SplitLinesRoundTrip(s: string)
    ensures JoinWith(SplitLines(s), "\n") + (if s != "" && s[|s| - 1] == '\n' then "\n" else "") == s
  {
    if s != "" {
      var pieces := SplitOn(s, '\n');
      JoinSplitOn(s, '\n');
      SplitPiecesHaveNoSeparator(s, Is('\n'));
      var last := pieces[|pieces| - 1];
      if |pieces| == 1 {
        assert s == pieces[0];
        assert !Is('\n')(Split(s, Is('\n'))[0][|s| - 1]);
      } else {
        var init := pieces[..|pieces| - 1];
        assert pieces == init + [last];
        JoinWithSnoc(init, last, "\n");
        assert s == JoinWith(init, "\n") + "\n" + last;
        if last != "" {
          assert s[|s| - 1] == last[|last| - 1];
          assert !Is('\n')(Split(s, Is('\n'))[|pieces| - 1][|last| - 1]);
        }
      }
    }
  }

  /** Each character of each line is a character of the text. */
  lemma LineCharsFromText(s: string, p: char -> bool, k: nat, i: nat)
    requires forall j :: 0 <= j < |s| ==> p(s[j])
    requires k < |SplitLines(s)| && i < |SplitLines(s)[k]|
    ensures p(SplitLines(s)[k][i])
  {
    var pieces := SplitOn(s, '\n');
    assert SplitLines(s)[k] == pieces[k];
    SplitPieceElement(s, Is('\n'), p, k, i);
  }

  /** The last line of `body + "\n" + line` is `line`, whatever `body` holds. */
  lemma LastLineAfterNewline(body: string, line: string)
    requires line != "" && '\n' !in line
    ensures var lines := SplitLines(body + "\n" + line);
      lines != [] && lines[|lines| - 1] == line
  {
    SplitAtSeparator(body, '\n', line, Is('\n'));
    assert body + "\n" + line == body + ['\n'] + line;
    assert forall i :: 0 <= i < |line| ==> !Is('\n')(line[i]);
    SplitNoSeparator(line, Is('\n'));
    assert SplitOn(body + "\n" + line, '\n') == SplitOn(body, '\n') + [line];
  }

  /** A final newline ends the last line and starts none: the last line of
      `body + "\n" + line + "\n"` is `line`, empty or not. */
  lemma LastLineBeforeFinalNewline(body: string, line: string)
    requires '\n' !in line
    ensures var lines := SplitLines(body + "\n" + line + "\n");
      lines != [] && lines[|lines| - 1] == line
  {
    var s := body + "\n" + line + "\n";
    assert s == body + ['\n'] + (line + "\n");
    SplitAtSeparator(body, '\n', line + "\n", Is('\n'));
    assert line + "\n" == line + ['\n'] + "";
    SplitAtSeparator(line, '\n', "", Is('\n'));
    SplitOnWithout(line, '\n');
    SplitOnWithout("", '\n');
    assert SplitOn(s, '\n') == SplitOn(body, '\n') + [line] + [""];
  }

  /** Text without a line break is one line, or none when it is empty, with or without a
      final newline. */
  lemma SingleLine(line: string)
    requires '\n' !in line
    ensures SplitLines(line) == if line == "" then [] else [line]
    ensures SplitLines(line + "\n") == [line]
  {
    SplitOnWithout(line, '\n');
    assert line + "\n" == line + ['\n'] + "";
    SplitAtSeparator(line, '\n', "", Is('\n'));
    SplitOnWithout("", '\n');
  }

  predicate IsDigit(c: char)
  {
    '0' <= c <= '9'
  }

  function DigitChar(d: nat): (c: char)
    requires d < 10
    ensures IsDigit(c)
  {
    ('0' as int + d) as char
  }

  /** `str(n)` for a non-negative `int`: its decimal digits, most significant first. */
  function DecimalString(n: nat): (s: string)
    ensures s != [] && forall i :: 0 <= i < |s| ==> IsDigit(s[i])
    decreases n
  {
    if n < 10 then [DigitChar(n)] else DecimalString(n / 10) + [DigitChar(n % 10)]
  }

  /** `int(s)` for a string of decimal digits. */
  function DecimalValue(s: string): nat
    requires forall i :: 0 <= i < |s| ==> IsDigit(s[i])
    decreases |s|
  {
    if s == [] then 0
    else
      assert IsDigit(s[|s| - 1]);
      10 * DecimalValue(s[..|s| - 1]) + (s[|s| - 1] as int - '0' as int)
  }

  /** Reading back the decimal rendering of `n` gives `n`. */
  lemma {:induction false} DecimalRoundTrip(n: nat)
    ensures DecimalValue(DecimalString(n)) == n
    decreases n
  {
    if n >= 10 {
      DecimalRoundTrip(n / 10);
      var s := DecimalString(n);
      assert s[..|s| - 1] == DecimalString(n / 10);
    }
  }

  /** Distinct numbers have distinct decimal renderings. */
  lemma DecimalStringInjective(m: nat, n: nat)
    requires DecimalString(m) == DecimalString(n)
    ensures m == n
  {
    DecimalRoundTrip(m);
    DecimalRoundTrip(n);
  }
}
