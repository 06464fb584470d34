/** `app/services.py` without its calls to the generative backend: the filename sanitiser,
    the segmentation of the plan text into meal sections, the recovery of the titles from
    the last line, and the names under which images and audio are stored. */
module Services {
  import opened Wrappers
  import opened Sequences
  import opened Strings
  import opened Paths

  // ---------------------------------------------------------------- storage layout

  /** `BASE_DIR / "static"`, where `appDir` is the resolved directory of the package. */
  function StaticDir(appDir: Path): Path
  {
    appDir + ["static"]
  }

  function ImagesDir(appDir: Path): Path
  {
    StaticDir(appDir) + ["images"]
  }

  function AudioDir(appDir: Path): Path
  {
    StaticDir(appDir) + ["audio"]
  }

  // ---------------------------------------------------------------- safe_filename

  /** The characters the regular expression `[^A-Za-z0-9_\-]` does not remove. */
  predicate IsFilenameChar(c: char)
  {
    ('A' <= c <= 'Z') || ('a' <= c <= 'z') || ('0' <= c <= '9') || c == '_' || c == '-'
  }

  /** `s.replace(from, to)` for single characters. */
  function ReplaceChar(s: string, from: char, to: char): (r: string)
    ensures |r| == |s|
    ensures forall i :: 0 <= i < |s| ==> r[i] == if s[i] == from then to else s[i]
  {
    seq(|s|, i requires 0 <= i < |s| => if s[i] == from then to else s[i])
  }

  /** `safe_filename(name)`: strip, turn spaces into underscores, then delete every
      character outside `[A-Za-z0-9_-]`. */
  function SafeFilename(name: string): (token: string)
    ensures forall i :: 0 <= i < |token| ==> IsFilenameChar(token[i])
  {
    FilterKeeps(ReplaceChar(Strip(name), ' ', '_'), IsFilenameChar);
    Filter(ReplaceChar(Strip(name), ' ', '_'), IsFilenameChar)
  }

  /** What one character of the stripped title becomes in the filename. */
  function SanitizedChar(c: char): string
  {
    if c == ' ' then "_" else if IsFilenameChar(c) then [c] else ""
  }

  /** The title sanitised one character at a time, left to right. */
  function SanitizedEach(s: string): string
    decreases |s|
  {
    if s == "" then "" else SanitizedChar(s[0]) + SanitizedEach(s[1..])
  }

  lemma {:induction false} SanitizedEachAppend(a: string, b: string)
    ensures SanitizedEach(a + b) == SanitizedEach(a) + SanitizedEach(b)
    decreases |a|
  {
    if a != "" {
      assert (a + b)[1..] == a[1..] + b;
      SanitizedEachAppend(a[1..], b);
    } else {
      assert a + b == b;
    }
  }

  lemma {:induction false} ReplaceThenFilter(s: string)
    ensures Filter(ReplaceChar(s, ' ', '_'), IsFilenameChar) == SanitizedEach(s)
    decreases |s|
  {
    if s != "" {
      var t := ReplaceChar(s, ' ', '_');
      assert t[1..] == ReplaceChar(s[1..], ' ', '_');
      ReplaceThenFilter(s[1..]);
    } else {
      assert ReplaceChar(s, ' ', '_') == [];
    }
  }

  /** The filename keeps the characters of the stripped title in order, with each space
      turned into `_` and every other disallowed character dropped. */
  lemma SafeFilenameByChar(name: string)
    ensures SafeFilename(name) == SanitizedEach(Strip(name))
  {
    ReplaceThenFilter(Strip(name));
  }

  /** A title of the shape `"Grilled *Chicken*, v2!"`: the asterisks, the comma and the
      bang go, and each space becomes an underscore, giving `Grilled_Chicken_v2`. */
  lemma SafeFilenamePunctuatedTitle(w1: string, w2: string, w3: string)
    requires w1 != "" && w3 != ""
    requires forall i :: 0 <= i < |w1| ==> IsFilenameChar(w1[i])
    requires forall i :: 0 <= i < |w2| ==> IsFilenameChar(w2[i])
    requires forall i :: 0 <= i < |w3| ==> IsFilenameChar(w3[i])
    ensures SafeFilename(w1 + " *" + w2 + "*, " + w3 + "!") == w1 + "_" + w2 + "_" + w3
  {
    var name := w1 + " *" + w2 + "*, " + w3 + "!";
    SanitizedPunctuatedWords(w1, w2, w3);
    PunctuatedTitleIsStripped(w1, w2, w3);
    SafeFilenameByChar(name);
  }

  lemma SanitizedPunctuatedWords(w1: string, w2: string, w3: string)
    requires forall i :: 0 <= i < |w1| ==> IsFilenameChar(w1[i])
    requires forall i :: 0 <= i < |w2| ==> IsFilenameChar(w2[i])
    requires forall i :: 0 <= i < |w3| ==> IsFilenameChar(w3[i])
    ensures SanitizedEach(w1 + " *" + w2 + "*, " + w3 + "!") == w1 + "_" + w2 + "_" + w3
  {
    SanitizedWord(w1);
    SanitizedWord(w2);
    SanitizedWord(w3);
    SanitizedPunctuated(w1, w2, w3);
  }

  lemma PunctuatedTitleIsStripped(w1: string, w2: string, w3: string)
    requires w1 != "" && IsFilenameChar(w1[0])
    ensures Strip(w1 + " *" + w2 + "*, " + w3 + "!") == w1 + " *" + w2 + "*, " + w3 + "!"
  {
    var name := w1 + " *" + w2 + "*, " + w3 + "!";
    assert name[0] == w1[0];
    FilenameCharIsNotSpace(w1[0]);
    assert name[|name| - 1] == '!';
    StripKeeps(name, Whitespace);
  }

  lemma SanitizedPunctuated(w1: string, w2: string, w3: string)
    requires SanitizedEach(w1) == w1 && SanitizedEach(w2) == w2 && SanitizedEach(w3) == w3
    ensures SanitizedEach(w1 + " *" + w2 + "*, " + w3 + "!") == w1 + "_" + w2 + "_" + w3
  {
    Punctuation();
    SanitizedEachAppend(w1 + " *" + w2 + "*, " + w3, "!");
    SanitizedEachAppend(w1 + " *" + w2 + "*, ", w3);
    SanitizedEachAppend(w1 + " *" + w2, "*, ");
    SanitizedEachAppend(w1 + " *", w2);
    SanitizedEachAppend(w1, " *");
  }

  /** The punctuation between the words of such a title. */
  lemma Punctuation()
    ensures SanitizedEach(" *") == "_" && SanitizedEach("*, ") == "_" && SanitizedEach("!") == ""
  {
  }

  /** A run of filename characters passes through unchanged. */
  lemma {:induction false} SanitizedWord(w: string)
    requires forall i :: 0 <= i < |w| ==> IsFilenameChar(w[i])
    ensures SanitizedEach(w) == w
    decreases |w|
  {
    if w != "" {
      SanitizedWord(w[1..]);
    }
  }

  /** A string of filename characters is left alone by `strip` ... */
  lemma FilenameCharsAreStripped(t: string)
    requires forall i :: 0 <= i < |t| ==> IsFilenameChar(t[i])
    ensures Strip(t) == t
  {
    if t != [] {
      FilenameCharIsNotSpace(t[0]);
      FilenameCharIsNotSpace(t[|t| - 1]);
    }
    StripKeeps(t, Whitespace);
  }

  /** ... and by the space rewrite. */
  lemma FilenameCharsHaveNoSpace(t: string)
    requires forall i :: 0 <= i < |t| ==> IsFilenameChar(t[i])
    ensures ReplaceChar(t, ' ', '_') == t
  {
    forall i | 0 <= i < |t| ensures ReplaceChar(t, ' ', '_')[i] == t[i] {
      FilenameCharIsNotSpace(t[i]);
    }
  }

  lemma FilenameCharIsNotSpace(c: char)
    requires IsFilenameChar(c)
    ensures c !in Whitespace && c != ' '
  {
  }

  /** Sanitising a filename again changes nothing. */
  lemma SafeFilenameIdempotent(name: string)
    ensures SafeFilename(SafeFilename(name)) == SafeFilename(name)
  {
    var t := SafeFilename(name);
    FilenameCharsAreStripped(t);
    FilenameCharsHaveNoSpace(t);
    FilterAll(t, IsFilenameChar);
  }

  // ---------------------------------------------------------------- split_meals

  /** `l.strip()` is truthy. */
  predicate IsNonBlank(line: string)
  {
    Strip(line) != ""
  }

  /** A separator line: once stripped it is non-empty, all dashes, and at least ten long. */
  predicate IsSeparator(line: string)
  {
    var stripped := Strip(line);
    stripped != "" && (forall i :: 0 <= i < |stripped| ==> stripped[i] == '-') && |stripped| >= 10
  }

  /** A run of fewer than ten dashes is not a separator: it is an ordinary content line. */
  lemma ShortDashLineIsContent(d: string)
    requires d != "" && |d| < 10 && forall i :: 0 <= i < |d| ==> d[i] == '-'
    ensures !IsSeparator(d) && IsNonBlank(d)
  {
    assert d[0] == '-' && d[|d| - 1] == '-';
    StripKeeps(d, Whitespace);
  }

  /** A run of ten or more dashes is a separator, whatever whitespace surrounds it. */
  lemma PaddedDashLineIsSeparator(pre: string, d: string, post: string)
    requires |d| >= 10 && forall i :: 0 <= i < |d| ==> d[i] == '-'
    requires forall i :: 0 <= i < |pre| ==> pre[i] in Whitespace
    requires forall i :: 0 <= i < |post| ==> post[i] in Whitespace
    ensures IsSeparator(pre + d + post)
  {
    assert d[0] == '-' && d[|d| - 1] == '-' && '-' !in Whitespace;
    StripPadded(pre, d, post, Whitespace);
  }

  /** A line that ends up in some section: neither a separator nor blank. */
  predicate IsContentLine(line: string)
  {
    !IsSeparator(line) && IsNonBlank(line)
  }

  /** `any(l.strip() for l in b)`. */
  predicate HasContent(block: seq<string>)
  {
    exists i :: 0 <= i < |block| && IsNonBlank(block[i])
  }

  predicate IsNonEmpty(block: seq<string>)
  {
    block != []
  }

  /** The runs of lines between separator lines, empty runs included. */
  function Groups(lines: seq<string>): seq<seq<string>>
  {
    Split(lines, IsSeparator)
  }

  /** The runs that hold at least one non-blank line, in order. */
  function ContentBlocks(lines: seq<string>): seq<seq<string>>
  {
    Filter(Groups(lines), HasContent)
  }

  /** `"\n".join(b).strip()`. */
  function RenderBlock(block: seq<string>): string
  {
    Strip(JoinWith(block, "\n"))
  }

  /** The sections `split_meals` returns for a plan text. */
  function Segment(planText: string): seq<string>
  {
    Map(ContentBlocks(SplitLines(planText)), RenderBlock)
  }

  /** What the loop of `split_meals` has built after reading `prefix`: `current` is the
      last run of `prefix`, and `blocks` the non-empty runs before it. */
  ghost predicate Collected(prefix: seq<string>, blocks: seq<seq<string>>, current: seq<string>)
  {
    var g := Groups(prefix);
    g[|g| - 1] == current && Filter(g[..|g| - 1], IsNonEmpty) == blocks
  }

  /** A separator closes the current run, keeping it only when it is not empty. */
  lemma CollectSeparator(prefix: seq<string>, line: string, blocks: seq<seq<string>>, current: seq<string>)
    requires Collected(prefix, blocks, current) && IsSeparator(line)
    ensures Collected(prefix + [line], if current != [] then blocks + [current] else blocks, [])
  {
    var g := Groups(prefix);
    var last := |g| - 1;
    SplitSnoc(prefix, line, IsSeparator);
    var g' := Groups(prefix + [line]);
    assert g' == g + [[]];
    assert g'[|g'| - 1] == [] && g'[..|g'| - 1] == g;
    InitLast(g);
    FilterAppend(g[..last], [current], IsNonEmpty);
    FilterSingle(current, IsNonEmpty);
  }

  /** Any other line extends the current run. */
  lemma CollectLine(prefix: seq<string>, line: string, blocks: seq<seq<string>>, current: seq<string>)
    requires Collected(prefix, blocks, current) && !IsSeparator(line)
    ensures Collected(prefix + [line], blocks, current + [line])
  {
    var g := Groups(prefix);
    var last := |g| - 1;
    SplitSnoc(prefix, line, IsSeparator);
    assert Groups(prefix + [line]) == g[..last] + [current + [line]];
    assert (g[..last] + [current + [line]])[..last] == g[..last];
  }

  /** After the last line, flushing the current run gives every non-empty run. */
  lemma CollectFinish(lines: seq<string>, blocks: seq<seq<string>>, current: seq<string>)
    requires Collected(lines, blocks, current)
    ensures (if current != [] then blocks + [current] else blocks) == Filter(Groups(lines), IsNonEmpty)
  {
    var g := Groups(lines);
    InitLast(g);
    FilterAppend(g[..|g| - 1], [current], IsNonEmpty);
    FilterSingle(current, IsNonEmpty);
  }

  /** Reading line `n` moves the loop from the prefix before it to the prefix after it. */
  lemma CollectNext(lines: seq<string>, n: nat, blocks: seq<seq<string>>, current: seq<string>)
    requires n < |lines| && Collected(lines[..n], blocks, current)
    ensures IsSeparator(lines[n]) ==>
      Collected(lines[..n + 1], if current != [] then blocks + [current] else blocks, [])
    ensures !IsSeparator(lines[n]) ==> Collected(lines[..n + 1], blocks, current + [lines[n]])
  {
    assert lines[..n + 1] == lines[..n] + [lines[n]];
    if IsSeparator(lines[n]) {
      CollectSeparator(lines[..n], lines[n], blocks, current);
    } else {
      CollectLine(lines[..n], lines[n], blocks, current);
    }
  }

  /** Once every line is read, flushing `current` and rendering the blocks with content
      gives the sections. */
  lemma CollectedSections(planText: string, n: nat, blocks: seq<seq<string>>, current: seq<string>)
    requires n == |SplitLines(planText)| && Collected(SplitLines(planText)[..n], blocks, current)
    ensures Map(Filter(if current != [] then blocks + [current] else blocks, HasContent), RenderBlock)
      == Segment(planText)
  {
    var lines := SplitLines(planText);
    assert lines[..n] == lines;
    CollectFinish(lines, blocks, current);
    FilterFilter(Groups(lines), IsNonEmpty, HasContent, HasContent);
  }

  /** `split_meals(plan_text)`: one pass over the lines that collects the non-separator
      lines into `current` and moves `current` to `blocks` at each separator; then the
      blocks with a non-blank line are joined and stripped. */
  method SplitMeals(planText: string) returns (sections: seq<string>)
    ensures sections == Segment(planText)
  {
    var lines := SplitLines(planText);
    var blocks: seq<seq<string>> := [];
    var current: seq<string> := [];
    for n := 0 to |lines|
      invariant Collected(lines[..n], blocks, current)
    {
      CollectNext(lines, n, blocks, current);
      var line := lines[n];
      if IsSeparator(line) {
        if current != [] {
          blocks := blocks + [current];
          current := [];
        }
      } else {
        current := current + [line];
      }
    }
    CollectedSections(planText, |lines|, blocks, current);
    if current != [] {
      blocks := blocks + [current];
    }
    sections := Map(Filter(blocks, HasContent), RenderBlock);
  }

  /** Every block behind a section holds a non-blank line and no separator line. */
  lemma BlocksHaveContentAndNoSeparator(planText: string)
    ensures var blocks := ContentBlocks(SplitLines(planText));
      forall k :: 0 <= k < |blocks| ==>
        HasContent(blocks[k]) && forall j :: 0 <= j < |blocks[k]| ==> !IsSeparator(blocks[k][j])
  {
    var lines := SplitLines(planText);
    SplitPiecesHaveNoSeparator(lines, IsSeparator);
    FilterKeeps(Groups(lines), HasContent);
    var blocks := ContentBlocks(lines);
    forall k | 0 <= k < |blocks|
      ensures forall j :: 0 <= j < |blocks[k]| ==> !IsSeparator(blocks[k][j])
    {
      assert blocks[k] in Groups(lines);
      var m :| 0 <= m < |Groups(lines)| && Groups(lines)[m] == blocks[k];
      assert forall j :: 0 <= j < |Split(lines, IsSeparator)[m]| ==> !IsSeparator(Split(lines, IsSeparator)[m][j]);
    }
  }

  /** A character of one part of a join appears in the joined string. */
  lemma {:induction false} JoinWithKeepsChar(parts: seq<string>, sep: string, k: nat, i: nat)
    requires k < |parts| && i < |parts[k]|
    ensures exists p :: 0 <= p < |JoinWith(parts, sep)| && JoinWith(parts, sep)[p] == parts[k][i]
    decreases |parts|
  {
    if |parts| == 1 {
      assert JoinWith(parts, sep)[i] == parts[k][i];
    } else if k == 0 {
      assert JoinWith(parts, sep) == parts[0] + sep + JoinWith(parts[1..], sep);
      assert JoinWith(parts, sep)[i] == parts[k][i];
    } else {
      JoinWithKeepsChar(parts[1..], sep, k - 1, i);
      var rest := JoinWith(parts[1..], sep);
      var p :| 0 <= p < |rest| && rest[p] == parts[1..][k - 1][i];
      var offset := |parts[0] + sep|;
      assert JoinWith(parts, sep) == parts[0] + sep + rest;
      assert JoinWith(parts, sep)[offset + p] == rest[p];
    }
  }

  /** A block with a non-blank line renders to a non-empty section. */
  lemma RenderedContentIsNonBlank(block: seq<string>)
    requires HasContent(block)
    ensures RenderBlock(block) != ""
  {
    var j :| 0 <= j < |block| && IsNonBlank(block[j]);
    StripEmpty(block[j], Whitespace);
    var i :| 0 <= i < |block[j]| && block[j][i] !in Whitespace;
    JoinWithKeepsChar(block, "\n", j, i);
    StripEmpty(JoinWith(block, "\n"), Whitespace);
  }

  /** Non-empty, and neither starting nor ending with whitespace. */
  predicate IsTrimmedText(s: string)
  {
    s != "" && s[0] !in Whitespace && s[|s| - 1] !in Whitespace
  }

  lemma RenderedBlockIsTrimmed(block: seq<string>)
    requires HasContent(block)
    ensures IsTrimmedText(RenderBlock(block))
  {
    RenderedContentIsNonBlank(block);
    StripEnds(JoinWith(block, "\n"), Whitespace);
  }

  /** Every section is non-empty and trimmed: neither its first nor its last character is
      whitespace. */
  lemma SectionsAreTrimmedAndNonBlank(planText: string)
    ensures forall k :: 0 <= k < |Segment(planText)| ==> IsTrimmedText(Segment(planText)[k])
  {
    var blocks := ContentBlocks(SplitLines(planText));
    BlocksHaveContentAndNoSeparator(planText);
    forall k | 0 <= k < |blocks| ensures IsTrimmedText(RenderBlock(blocks[k])) {
      RenderedBlockIsTrimmed(blocks[k]);
    }
  }

  lemma {:induction false} ContentOfKeptGroups(groups: seq<seq<string>>)
    ensures Filter(Concat(Filter(groups, HasContent)), IsNonBlank) == Filter(Concat(groups), IsNonBlank)
    decreases |groups|
  {
    if groups != [] {
      var g, rest := groups[0], groups[1..];
      ContentOfKeptGroups(rest);
      var kept := if HasContent(g) then [g] else [];
      var keptRest := Filter(rest, HasContent);
      assert Filter(groups, HasContent) == kept + keptRest;
      assert Concat(groups) == g + Concat(rest);
      ConcatAppend(kept, keptRest);
      FilterAppend(Concat(kept), Concat(keptRest), IsNonBlank);
      FilterAppend(g, Concat(rest), IsNonBlank);
      if HasContent(g) {
        assert Concat(kept) == g by {
          assert Concat(kept) == g + Concat(kept[1..]);
          assert kept[1..] == [];
        }
      } else {
        FilterNone(g, IsNonBlank);
        assert Concat(kept) == [];
      }
    }
  }

  /** Order and completeness: the non-blank lines of the section blocks, read in order, are
      exactly the input's lines that are neither separators nor blank. Only separator lines
      and blank lines are lost. */
  lemma SectionsKeepContentLinesInOrder(planText: string)
    ensures var lines := SplitLines(planText);
      Filter(Concat(ContentBlocks(lines)), IsNonBlank) == Filter(lines, IsContentLine)
  {
    var lines := SplitLines(planText);
    ContentOfKeptGroups(Groups(lines));
    ConcatSplit(lines, IsSeparator);
    FilterFilter(lines, Not(IsSeparator), IsNonBlank, IsContentLine);
  }

  /** When every run between separators holds a non-blank line, the section blocks, read in
      order, are exactly the input's non-separator lines: blank lines inside a section are
      kept, and only the separators are lost. */
  lemma SectionBlocksKeepEveryLine(planText: string)
    requires var lines := SplitLines(planText);
      forall m :: 0 <= m < |Groups(lines)| ==> HasContent(Groups(lines)[m])
    ensures var lines := SplitLines(planText);
      Concat(ContentBlocks(lines)) == Filter(lines, Not(IsSeparator))
  {
    var lines := SplitLines(planText);
    FilterAll(Groups(lines), HasContent);
    ConcatSplit(lines, IsSeparator);
  }

  /** At most one more section than there are separator lines; exactly one more when no run
      between separators is blank. */
  lemma SectionCount(planText: string)
    ensures var lines := SplitLines(planText);
      && |Segment(planText)| <= Count(lines, IsSeparator) + 1
      && ((forall m :: 0 <= m < |Groups(lines)| ==> HasContent(Groups(lines)[m])) ==>
            |Segment(planText)| == Count(lines, IsSeparator) + 1)
  {
    var lines := SplitLines(planText);
    SplitCount(lines, IsSeparator);
    FilterKeeps(Groups(lines), HasContent);
    if forall m :: 0 <= m < |Groups(lines)| ==> HasContent(Groups(lines)[m]) {
      FilterAll(Groups(lines), HasContent);
    }
  }

  // ---------------------------------------------------------------- extract_titles

  /** The characters `t.strip(" '")` removes. */
  const TitleTrim: set<char> := {' ', '\''}

  function StripQuotes(fragment: string): string
  {
    StripChars(fragment, TitleTrim)
  }

  /** `[t.strip(" '") for t in fragments if t.strip()]`. */
  function KeepTitles(fragments: seq<string>): (titles: seq<string>)
    ensures |titles| <= |fragments|
    decreases |fragments|
  {
    if fragments == [] then []
    else (if IsNonBlank(fragments[0]) then [StripQuotes(fragments[0])] else []) + KeepTitles(fragments[1..])
  }

  /** A title with neither a space nor a quote at either end. */
  predicate IsTrimmedTitle(t: string)
  {
    t == "" || (t[0] !in TitleTrim && t[|t| - 1] !in TitleTrim)
  }

  lemma StripQuotesTrimmed(fragment: string)
    ensures IsTrimmedTitle(StripQuotes(fragment))
  {
    StripEnds(fragment, TitleTrim);
  }

  /** The kept title at position `k` starts and ends with neither a space nor a quote. */
  lemma {:induction false} KeepTitlesTrimmedAt(fragments: seq<string>, k: nat)
    requires k < |KeepTitles(fragments)|
    ensures IsTrimmedTitle(KeepTitles(fragments)[k])
    decreases |fragments|
  {
    var head := if IsNonBlank(fragments[0]) then [StripQuotes(fragments[0])] else [];
    var rest := KeepTitles(fragments[1..]);
    assert KeepTitles(fragments) == head + rest;
    if k < |head| {
      StripQuotesTrimmed(fragments[0]);
    } else {
      KeepTitlesTrimmedAt(fragments[1..], k - |head|);
    }
  }

  /** No kept title starts or ends with a space or a quote. */
  lemma KeepTitlesTrimmed(fragments: seq<string>)
    ensures forall k :: 0 <= k < |KeepTitles(fragments)| ==> IsTrimmedTitle(KeepTitles(fragments)[k])
  {
    forall k | 0 <= k < |KeepTitles(fragments)| ensures IsTrimmedTitle(KeepTitles(fragments)[k]) {
      KeepTitlesTrimmedAt(fragments, k);
    }
  }

  /** A character that no fragment holds is held by no kept title. */
  lemma {:induction false} KeepTitlesAvoid(fragments: seq<string>, c: char)
    requires forall j :: 0 <= j < |fragments| ==> c !in fragments[j]
    ensures forall k :: 0 <= k < |KeepTitles(fragments)| ==> c !in KeepTitles(fragments)[k]
    decreases |fragments|
  {
    if fragments != [] {
      KeepTitlesAvoid(fragments[1..], c);
      StripWithin(fragments[0], TitleTrim);
      var head := if IsNonBlank(fragments[0]) then [StripQuotes(fragments[0])] else [];
      var rest := KeepTitles(fragments[1..]);
      forall k | 0 <= k < |head + rest| ensures c !in (head + rest)[k] {
        if k >= |head| {
          assert (head + rest)[k] == KeepTitles(fragments[1..])[k - |head|];
        }
      }
    }
  }

  /** The titles on one (stripped) title line. */
  function TitlesOfLine(titlesLine: string): (titles: seq<string>)
    ensures |titles| <= Count(titlesLine, Is(',')) + 1
  {
    SplitCount(titlesLine, Is(','));
    KeepTitles(SplitOn(titlesLine, ','))
  }

  /** At most one more title than the line has commas; no title holds a comma, and none
      starts or ends with a space or a quote. */
  lemma TitlesOfLineShape(titlesLine: string)
    ensures |TitlesOfLine(titlesLine)| <= Count(titlesLine, Is(',')) + 1
    ensures forall k :: 0 <= k < |TitlesOfLine(titlesLine)| ==>
      ',' !in TitlesOfLine(titlesLine)[k] && IsTrimmedTitle(TitlesOfLine(titlesLine)[k])
  {
    var fragments := SplitOn(titlesLine, ',');
    SplitCount(titlesLine, Is(','));
    SplitPiecesHaveNoSeparator(titlesLine, Is(','));
    forall j | 0 <= j < |fragments| ensures ',' !in fragments[j] {
      assert forall i :: 0 <= i < |Split(titlesLine, Is(','))[j]| ==>
        !Is(',')(Split(titlesLine, Is(','))[j][i]);
    }
    KeepTitlesAvoid(fragments, ',');
    KeepTitlesTrimmed(fragments);
  }

  /** `extract_titles(plan_text)`: the titles on the last line, which is the literal last
      line and may be blank; no lines give no titles. */
  function ExtractTitles(planText: string): (titles: seq<string>)
    ensures planText == "" ==> titles == []
  {
    var lines := SplitLines(planText);
    if lines == [] then [] else TitlesOfLine(Strip(lines[|lines| - 1]))
  }

  /** The titles depend on the last line only: whatever precedes it is ignored. */
  lemma TitlesComeFromLastLine(body: string, line: string)
    requires line != "" && '\n' !in line
    ensures ExtractTitles(body + "\n" + line) == TitlesOfLine(Strip(line))
  {
    LastLineAfterNewline(body, line);
  }

  /** A final newline changes nothing: the titles still come from the line before it. */
  lemma TitlesBeforeFinalNewline(body: string, line: string)
    requires '\n' !in line
    ensures ExtractTitles(body + "\n" + line + "\n") == TitlesOfLine(Strip(line))
  {
    LastLineBeforeFinalNewline(body, line);
  }

  /** A one-line text, with or without a final newline, is its own title line. */
  lemma TitlesOfSingleLine(line: string)
    requires '\n' !in line
    ensures ExtractTitles(line) == TitlesOfLine(Strip(line))
    ensures ExtractTitles(line + "\n") == TitlesOfLine(Strip(line))
  {
    SingleLine(line);
    if line == "" {
      StripKeeps("", Whitespace);
      TitlesOfEmptyLine();
    }
  }

  /** A title the generator can write back verbatim: non-empty, no comma or newline, and
      neither whitespace nor a quote at either end. */
  predicate IsPlainTitle(t: string)
  {
    && t != ""
    && (forall i :: 0 <= i < |t| ==> t[i] != ',' && t[i] != '\n')
    && t[0] !in Whitespace && t[0] !in TitleTrim
    && t[|t| - 1] !in Whitespace && t[|t| - 1] !in TitleTrim
  }

  lemma PlainTitleIsKept(t: string)
    requires IsPlainTitle(t)
    ensures IsNonBlank(t) && StripQuotes(t) == t
  {
    StripEnds(t, Whitespace);
    StripEnds(t, TitleTrim);
  }

  /** The title line written from plain titles is a trimmed line with no newline. */
  lemma {:induction false} TitleLineShape(titles: seq<string>)
    requires |titles| >= 1
    requires forall k :: 0 <= k < |titles| ==> IsPlainTitle(titles[k])
    ensures IsTrimmedText(JoinWith(titles, ", "))
    ensures '\n' !in JoinWith(titles, ", ")
    decreases |titles|
  {
    var t := titles[0];
    assert IsPlainTitle(t);
    if |titles| == 1 {
      assert JoinWith(titles, ", ") == t;
    } else {
      TitleLineShape(titles[1..]);
      var rest := JoinWith(titles[1..], ", ");
      var line := t + ", " + rest;
      assert JoinWith(titles, ", ") == line;
      assert line[0] == t[0] && line[|line| - 1] == rest[|rest| - 1];
      assert '\n' !in t;
    }
  }

  lemma KeepTitlesCons(fragment: string, rest: seq<string>)
    ensures KeepTitles([fragment] + rest) ==
      (if IsNonBlank(fragment) then [StripQuotes(fragment)] else []) + KeepTitles(rest)
  {
    assert ([fragment] + rest)[0] == fragment;
    assert ([fragment] + rest)[1..] == rest;
  }

  /** The space after a comma does not reach the title. */
  lemma KeepTitlesLeadingSpace(fragment: string, rest: seq<string>)
    ensures KeepTitles([" " + fragment] + rest) == KeepTitles([fragment] + rest)
  {
    assert " " + fragment == [' '] + fragment;
    StripAbsorbsLeading(' ', fragment, Whitespace);
    StripAbsorbsLeading(' ', fragment, TitleTrim);
    KeepTitlesCons(" " + fragment, rest);
    KeepTitlesCons(fragment, rest);
  }

  /** Splitting `t + ", " + rest` at commas, for a title `t` without commas. */
  lemma SplitOnAfterTitle(t: string, restLine: string)
    requires ',' !in t
    ensures SplitOn(t + ", " + restLine, ',') ==
      [t] + ([" " + SplitOn(restLine, ',')[0]] + SplitOn(restLine, ',')[1..])
  {
    SplitOnWithout(t, ',');
    assert t + ", " + restLine == t + [','] + ([' '] + restLine);
    SplitAtSeparator(t, ',', [' '] + restLine, Is(','));
    SplitCons(' ', restLine, Is(','));
  }

  /** A plain title followed by `", "` and a line whose titles are `rest`. */
  lemma TitlesAfterPlainTitle(t: string, restLine: string, rest: seq<string>)
    requires IsPlainTitle(t)
    requires KeepTitles(SplitOn(restLine, ',')) == rest
    ensures KeepTitles(SplitOn(t + ", " + restLine, ',')) == [t] + rest
  {
    PlainTitleIsKept(t);
    assert ',' !in t;
    SplitOnAfterTitle(t, restLine);
    var s := SplitOn(restLine, ',');
    KeepTitlesCons(t, [" " + s[0]] + s[1..]);
    KeepTitlesLeadingSpace(s[0], s[1..]);
    HeadTail(s);
  }

  /** A plain title alone on the line. */
  lemma TitlesOfPlainTitle(t: string)
    requires IsPlainTitle(t)
    ensures KeepTitles(SplitOn(t, ',')) == [t]
  {
    PlainTitleIsKept(t);
    assert ',' !in t;
    SplitOnWithout(t, ',');
    KeepTitlesCons(t, []);
  }

  /** Splitting the joined titles from position `i` on and keeping the titles gives back
      those titles. */
  lemma {:induction false} TitlesOfJoinedSuffix(titles: seq<string>, i: nat)
    requires i < |titles|
    requires forall k :: 0 <= k < |titles| ==> IsPlainTitle(titles[k])
    ensures KeepTitles(SplitOn(JoinWith(titles[i..], ", "), ',')) == titles[i..]
    decreases |titles| - i
  {
    var t := titles[i];
    assert IsPlainTitle(t);
    SuffixCons(titles, i);
    if i == |titles| - 1 {
      assert titles[i..] == [t];
      TitlesOfPlainTitle(t);
    } else {
      var restLine := JoinWith(titles[i + 1..], ", ");
      TitlesOfJoinedSuffix(titles, i + 1);
      assert JoinWith(titles[i..], ", ") == t + ", " + restLine;
      TitlesAfterPlainTitle(t, restLine, titles[i + 1..]);
    }
  }

  lemma TitlesOfJoinedLine(titles: seq<string>)
    requires |titles| >= 1
    requires forall k :: 0 <= k < |titles| ==> IsPlainTitle(titles[k])
    ensures KeepTitles(SplitOn(JoinWith(titles, ", "), ',')) == titles
  {
    TitlesOfJoinedSuffix(titles, 0);
    assert titles[0..] == titles;
  }

  /** Round trip: writing plain titles as the last line, separated by `", "` as the prompt
      asks, and extracting them gives the same titles back, in order. */
  lemma ExtractFormattedTitles(body: string, titles: seq<string>)
    requires |titles| >= 1
    requires forall k :: 0 <= k < |titles| ==> IsPlainTitle(titles[k])
    ensures ExtractTitles(body + "\n" + JoinWith(titles, ", ")) == titles
  {
    var line := JoinWith(titles, ", ");
    TitleLineShape(titles);
    StripKeeps(line, Whitespace);
    TitlesComeFromLastLine(body, line);
    TitlesOfJoinedLine(titles);
  }

  /** A plain title enclosed in quotes or in spaces passes the filter ... */
  lemma EnclosedTitleIsKept(t: string, q: char)
    requires IsPlainTitle(t)
    ensures IsNonBlank([q] + t + [q])
  {
    var e := [q] + t + [q];
    assert e[1] == t[0];
    StripEmpty(e, Whitespace);
  }

  /** ... and comes out bare. */
  lemma EnclosedTitleIsBare(t: string, q: char)
    requires IsPlainTitle(t) && q in TitleTrim
    ensures StripQuotes([q] + t + [q]) == t
  {
    var inner := t + [q];
    assert [q] + t + [q] == [q] + inner;
    StripAbsorbsLeading(q, inner, TitleTrim);
    assert inner[0] == t[0];
    LStripKeeps(inner, TitleTrim);
    RStripAbsorbsTrailing(t, q, TitleTrim);
    StripKeeps(t, TitleTrim);
    LStripKeeps(t, TitleTrim);
  }

  /** The title line `'a', b ,c` as its three comma-separated fragments. */
  function MixedLine(a: string, b: string, c: string): string
  {
    ['\''] + a + ['\''] + [','] + ([' '] + b + [' '] + [','] + c)
  }

  lemma MixedLineFragments(a: string, b: string, c: string)
    requires ',' !in a && ',' !in b && ',' !in c
    ensures SplitOn(MixedLine(a, b, c), ',') == [['\''] + a + ['\''], [' '] + b + [' '], c]
  {
    var f1, f2 := ['\''] + a + ['\''], [' '] + b + [' '];
    assert ',' !in f1 && ',' !in f2;
    SplitOnWithout(f1, ',');
    SplitOnWithout(f2, ',');
    SplitOnWithout(c, ',');
    SplitAtSeparator(f2, ',', c, Is(','));
    SplitAtSeparator(f1, ',', f2 + [','] + c, Is(','));
  }

  /** When every fragment from `i` on is kept, the titles from `i` on are the fragments
      with quotes and spaces stripped, one for one. */
  lemma {:induction false} KeepTitlesAllKept(fragments: seq<string>, titles: seq<string>, i: nat)
    requires i <= |fragments| == |titles|
    requires forall k :: 0 <= k < |fragments| ==>
      IsNonBlank(fragments[k]) && StripQuotes(fragments[k]) == titles[k]
    ensures KeepTitles(fragments[i..]) == titles[i..]
    decreases |fragments| - i
  {
    if i < |fragments| {
      KeepTitlesAllKept(fragments, titles, i + 1);
      SuffixCons(fragments, i);
      SuffixCons(titles, i);
      KeepTitlesCons(fragments[i], fragments[i + 1..]);
    } else {
      assert fragments[i..] == [] && titles[i..] == [];
    }
  }

  lemma KeepThreeTitles(f1: string, f2: string, f3: string, t1: string, t2: string, t3: string)
    requires IsNonBlank(f1) && StripQuotes(f1) == t1
    requires IsNonBlank(f2) && StripQuotes(f2) == t2
    requires IsNonBlank(f3) && StripQuotes(f3) == t3
    ensures KeepTitles([f1, f2, f3]) == [t1, t2, t3]
  {
    var fragments, titles := [f1, f2, f3], [t1, t2, t3];
    forall k | 0 <= k < |fragments|
      ensures IsNonBlank(fragments[k]) && StripQuotes(fragments[k]) == titles[k]
    {
      if k == 0 {
        assert fragments[k] == f1 && titles[k] == t1;
      } else if k == 1 {
        assert fragments[k] == f2 && titles[k] == t2;
      } else {
        assert fragments[k] == f3 && titles[k] == t3;
      }
    }
    KeepTitlesAllKept(fragments, titles, 0);
    assert fragments[0..] == fragments && titles[0..] == titles;
  }

  /** The three kinds of fragment of a title line such as `'A', B ,C`: a quoted title, a
      title padded by spaces, and a bare one, each yield the bare title. */
  lemma TitlesOfMixedLine(a: string, b: string, c: string)
    requires IsPlainTitle(a) && IsPlainTitle(b) && IsPlainTitle(c)
    ensures TitlesOfLine(MixedLine(a, b, c)) == [a, b, c]
  {
    assert ',' !in a && ',' !in b && ',' !in c;
    MixedLineFragments(a, b, c);
    EnclosedTitleIsKept(a, '\'');
    EnclosedTitleIsBare(a, '\'');
    EnclosedTitleIsKept(b, ' ');
    EnclosedTitleIsBare(b, ' ');
    PlainTitleIsKept(c);
    KeepThreeTitles(['\''] + a + ['\''], [' '] + b + [' '], c, a, b, c);
  }

  /** Such a line, written last, gives exactly its three titles. */
  lemma ExtractMixedTitles(body: string, a: string, b: string, c: string)
    requires IsPlainTitle(a) && IsPlainTitle(b) && IsPlainTitle(c)
    ensures ExtractTitles(body + "\n" + MixedLine(a, b, c)) == [a, b, c]
  {
    var line := MixedLine(a, b, c);
    assert line[0] == '\'' && line[|line| - 1] == c[|c| - 1];
    assert '\n' !in a && '\n' !in b && '\n' !in c;
    assert '\n' !in line;
    StripKeeps(line, Whitespace);
    TitlesComeFromLastLine(body, line);
    TitlesOfMixedLine(a, b, c);
  }

  /** As written, a last line made only of quotes passes the `t.strip()` filter and becomes
      one empty title. */
  lemma QuoteOnlyLineGivesEmptyTitle(body: string, quotes: string)
    requires quotes != "" && forall i :: 0 <= i < |quotes| ==> quotes[i] == '\''
    ensures ExtractTitles(body + "\n" + quotes) == [""]
  {
    assert '\n' !in quotes;
    TitlesComeFromLastLine(body, quotes);
    TitlesOfQuoteLine(quotes);
  }

  lemma TitlesOfQuoteLine(quotes: string)
    requires quotes != "" && forall i :: 0 <= i < |quotes| ==> quotes[i] == '\''
    ensures TitlesOfLine(Strip(quotes)) == [""]
  {
    calc {
      TitlesOfLine(Strip(quotes));
    == { QuoteLineIsStripped(quotes); }
      TitlesOfLine(quotes);
    ==
      KeepTitles(SplitOn(quotes, ','));
    == { QuoteLineSplit(quotes); }
      KeepTitles([quotes]);
    == { QuoteFragmentTitle(quotes); }
      [""];
    }
  }

  lemma QuoteLineSplit(quotes: string)
    requires forall i :: 0 <= i < |quotes| ==> quotes[i] == '\''
    ensures SplitOn(quotes, ',') == [quotes]
  {
    assert forall i :: 0 <= i < |quotes| ==> !Is(',')(quotes[i]);
    SplitNoSeparator(quotes, Is(','));
  }

  lemma QuoteLineIsStripped(quotes: string)
    requires quotes != "" && forall i :: 0 <= i < |quotes| ==> quotes[i] == '\''
    ensures Strip(quotes) == quotes
  {
    assert quotes[0] == '\'' && quotes[|quotes| - 1] == '\'' && '\'' !in Whitespace;
    StripKeeps(quotes, Whitespace);
  }

  lemma QuoteFragmentTitle(quotes: string)
    requires quotes != "" && forall i :: 0 <= i < |quotes| ==> quotes[i] == '\''
    ensures KeepTitles([quotes]) == [""]
  {
    QuoteLineIsStripped(quotes);
    assert IsNonBlank(quotes);
    QuotesAreTrimmed(quotes);
    KeepTitlesCons(quotes, []);
    assert KeepTitles([]) == [];
    assert [quotes] + [] == [quotes];
  }

  /** `strip(" '")` removes a run of quotes entirely. */
  lemma QuotesAreTrimmed(quotes: string)
    requires forall i :: 0 <= i < |quotes| ==> quotes[i] == '\''
    ensures StripQuotes(quotes) == ""
  {
    assert forall i :: 0 <= i < |quotes| ==> quotes[i] in TitleTrim;
    StripEmpty(quotes, TitleTrim);
  }

  /** A blank title line holds no titles. */
  lemma TitlesOfBlankLine(line: string)
    requires forall i :: 0 <= i < |line| ==> line[i] in Whitespace
    ensures TitlesOfLine(Strip(line)) == []
  {
    StripEmpty(line, Whitespace);
    TitlesOfEmptyLine();
  }

  lemma TitlesOfEmptyLine()
    ensures TitlesOfLine("") == []
  {
    SplitOnWithout("", ',');
    StripKeeps("", Whitespace);
    DropBlankFragment("");
  }

  /** A lone blank fragment is filtered out. */
  lemma DropBlankFragment(f: string)
    requires !IsNonBlank(f)
    ensures KeepTitles([f]) == []
  {
    assert [f][1..] == [];
  }

  /** As written, a blank line after the title line hides the titles: the literal last
      line is used, not the last non-blank one. This includes the empty last line of a text
      ending in `"\n\n"`. */
  lemma TrailingBlankLineHidesTitles(body: string, blank: string)
    requires '\n' !in blank
    requires forall i :: 0 <= i < |blank| ==> blank[i] in Whitespace
    ensures blank != "" ==> ExtractTitles(body + "\n" + blank) == []
    ensures ExtractTitles(body + "\n" + blank + "\n") == []
  {
    TitlesOfBlankLine(blank);
    if blank != "" {
      TitlesComeFromLastLine(body, blank);
    }
    TitlesBeforeFinalNewline(body, blank);
  }

  /** A text made only of whitespace, line breaks included, gives no titles. */
  lemma BlankTextHasNoTitles(planText: string)
    requires forall i :: 0 <= i < |planText| ==> planText[i] in Whitespace
    ensures ExtractTitles(planText) == []
  {
    var lines := SplitLines(planText);
    if lines != [] {
      var last := lines[|lines| - 1];
      BlankTextHasBlankLines(planText, |lines| - 1);
      TitlesOfBlankLine(last);
      assert ExtractTitles(planText) == TitlesOfLine(Strip(last));
    }
  }

  lemma BlankTextHasBlankLines(planText: string, k: nat)
    requires forall i :: 0 <= i < |planText| ==> planText[i] in Whitespace
    requires k < |SplitLines(planText)|
    ensures forall i :: 0 <= i < |SplitLines(planText)[k]| ==> SplitLines(planText)[k][i] in Whitespace
  {
    forall i | 0 <= i < |SplitLines(planText)[k]| ensures SplitLines(planText)[k][i] in Whitespace {
      LineCharsFromText(planText, c => c in Whitespace, k, i);
    }
  }

  // ---------------------------------------------------------------- asset names

  /** A file name the service writes: a run of `[A-Za-z0-9_-]` characters followed by `ext`. */
  predicate IsTokenFile(name: string, ext: string)
  {
    && |ext| <= |name| && name[|name| - |ext|..] == ext
    && forall i :: 0 <= i < |name| - |ext| ==> IsFilenameChar(name[i])
  }

  /** `IMAGES_DIR / f"{safe_filename(title)}.png"`: a single file directly in the images
      directory, whose name is a token followed by `.png`. */
  function ImagePath(appDir: Path, title: string): (p: Path)
    ensures ImagesDir(appDir) <= p && |p| == |ImagesDir(appDir)| + 1
    ensures IsName(p[|p| - 1]) && IsTokenFile(p[|p| - 1], ".png")
  {
    TokenFileName(SafeFilename(title));
    ImagesDir(appDir) + [SafeFilename(title) + ".png"]
  }

  /** A token with `.png` appended names a single file. */
  lemma TokenFileName(token: string)
    requires forall i :: 0 <= i < |token| ==> IsFilenameChar(token[i])
    ensures IsName(token + ".png") && IsTokenFile(token + ".png", ".png")
  {
    var name := token + ".png";
    assert name[|token|..] == ".png";
    forall i | 0 <= i < |name| ensures name[i] != '/' {
      if i < |token| {
        assert name[i] == token[i];
      } else {
        assert name[i] == ".png"[i - |token|];
      }
    }
  }

  /** `create_and_save_image(title)` once the image has been generated: the file is written
      only when the download answers HTTP 200, otherwise `RuntimeError` is raised (`None`);
      the file it writes lies under the static root, where `path_to_url` can publish it. */
  function CreateAndSaveImage(appDir: Path, title: string, downloadStatus: int): (saved: Option<Path>)
    ensures saved.Some? <==> downloadStatus == 200
    ensures saved.Some? ==> saved.value == ImagePath(appDir, title)
    ensures saved.Some? ==> StaticDir(appDir) <= saved.value
  {
    if downloadStatus == 200 then Some(ImagePath(appDir, title)) else None
  }

  /** `AUDIO_DIR / f"{filename_prefix}.mp3"`: a single file directly in the audio directory,
      named by the prefix followed by `.mp3`. The name is one component whatever the prefix;
      pathlib would split a prefix that holds `/`, which the handler never passes. */
  function AudioPath(appDir: Path, filenamePrefix: string): (p: Path)
    ensures AudioDir(appDir) <= p && |p| == |AudioDir(appDir)| + 1
    ensures '/' !in filenamePrefix ==> IsName(p[|p| - 1])
    ensures p[|p| - 1] == filenamePrefix + ".mp3"
  {
    var name := filenamePrefix + ".mp3";
    assert '/' !in filenamePrefix ==> forall i :: 0 <= i < |name| ==> name[i] != '/' by {
      assert forall i :: 0 <= i < |filenamePrefix| ==> name[i] == filenamePrefix[i];
    }
    AudioDir(appDir) + [name]
  }

  /** `speak(recipe, filename_prefix)`: the rewrite and speech calls either return, and the
      MP3 is written, or raise (`None`); the file it writes lies under the static root. */
  function Speak(appDir: Path, filenamePrefix: string, synthesized: bool): (saved: Option<Path>)
    ensures saved.Some? <==> synthesized
    ensures saved.Some? ==> saved.value == AudioPath(appDir, filenamePrefix)
    ensures saved.Some? ==> StaticDir(appDir) <= saved.value
  {
    if synthesized then Some(AudioPath(appDir, filenamePrefix)) else None
  }

  lemma SuffixCancels(a: string, b: string, suffix: string)
    requires a + suffix == b + suffix
    ensures a == b
  {
    assert a == (a + suffix)[..|a|];
    assert b == (b + suffix)[..|b|];
  }

  /** The image is named by the sanitised title alone: two titles share an image path
      exactly when they sanitise to the same token. */
  lemma ImagePathDependsOnlyOnToken(appDir: Path, t1: string, t2: string)
    ensures ImagePath(appDir, t1) == ImagePath(appDir, t2) <==> SafeFilename(t1) == SafeFilename(t2)
  {
    if ImagePath(appDir, t1) == ImagePath(appDir, t2) {
      var n := |ImagesDir(appDir)|;
      assert ImagePath(appDir, t1)[n] == SafeFilename(t1) + ".png";
      assert ImagePath(appDir, t2)[n] == SafeFilename(t2) + ".png";
      SuffixCancels(SafeFilename(t1), SafeFilename(t2), ".png");
    }
  }

  /** Distinct titles can collide: a title and the same title with a trailing `!` are
      stored under one image path, so nothing keeps two meals from sharing an image. */
  lemma ImagePathCollision(appDir: Path, title: string)
    requires title != "" && title[0] !in Whitespace && title[|title| - 1] !in Whitespace
    ensures title + "!" != title
    ensures ImagePath(appDir, title + "!") == ImagePath(appDir, title)
  {
    SafeFilenameDropsBang(title);
  }

  lemma SafeFilenameDropsBang(title: string)
    requires title != "" && title[0] !in Whitespace && title[|title| - 1] !in Whitespace
    ensures SafeFilename(title + "!") == SafeFilename(title)
  {
    var t := title + "!";
    assert t[0] == title[0] && t[|t| - 1] == '!' && '!' !in Whitespace;
    StripKeeps(title, Whitespace);
    StripKeeps(t, Whitespace);
    SafeFilenameByChar(title);
    SafeFilenameByChar(t);
    SanitizedEachDropsBang(title);
  }

  lemma SanitizedEachDropsBang(s: string)
    ensures SanitizedEach(s + "!") == SanitizedEach(s)
  {
    SanitizedEachAppend(s, "!");
    assert SanitizedEach("!") == SanitizedChar('!') + SanitizedEach([]) by {
      assert "!"[0] == '!' && "!"[1..] == [];
    }
    assert SanitizedEach(s) + [] == SanitizedEach(s);
  }

  /** Audio files are named by their prefix alone, and distinct prefixes give distinct files. */
  lemma AudioPathInjective(appDir: Path, p1: string, p2: string)
    ensures AudioPath(appDir, p1) == AudioPath(appDir, p2) <==> p1 == p2
  {
    if AudioPath(appDir, p1) == AudioPath(appDir, p2) {
      var n := |AudioDir(appDir)|;
      assert AudioPath(appDir, p1)[n] == p1 + ".mp3";
      assert AudioPath(appDir, p2)[n] == p2 + ".mp3";
      SuffixCancels(p1, p2, ".mp3");
    }
  }
}
