/** A toolkit topic item: the code snippet it shows with its import lines
    stripped out, the height of that snippet in lines, the code it inserts
    into the editor, and when the "More" button and the further text appear.
    The stripping is the multi-line regular expression
    `^\s*(from[ ]|import[ ]).*$` replaced globally by nothing, followed by
    `trim`. */
module TopicItem {
  import opened Wrappers
  import opened JsStrings

  /** Length of the first line of `s`, up to its first line terminator. */
  function LineLength(s: string): (n: nat)
    ensures n <= |s|
    ensures forall i :: 0 <= i < n ==> !IsLineTerminator(s[i])
    ensures n < |s| ==> IsLineTerminator(s[n])
    decreases |s|
  {
    if s == [] || IsLineTerminator(s[0]) then 0 else 1 + LineLength(s[1..])
  }

  predicate StartsWithImportKeyword(s: string) {
    StartsWith(s, "from ") || StartsWith(s, "import ")
  }

  /** An import statement's line: after optional whitespace it starts with
      `from ` or `import `. */
  predicate IsImportLine(line: string) {
    StartsWithImportKeyword(line[LeadingWhitespace(line)..])
  }

  /** Where a match of the import pattern tried at the start of `s` ends:
      `\s*` takes the whole whitespace run (it may cross line ends), the
      keyword must follow it, and `.*$` runs to the end of that line. */
  function ImportMatchEnd(s: string): (r: Option<nat>)
    ensures r.Some? ==> 0 < r.value <= |s|
    ensures r.Some? ==> r.value == |s| || IsLineTerminator(s[r.value])
    ensures r.Some? ==> !IsLineTerminator(s[r.value - 1])
  {
    var w := LeadingWhitespace(s);
    var rest := s[w..];
    if StartsWithImportKeyword(rest) then
      assert !IsLineTerminator(rest[0]) && !IsLineTerminator(rest[1]) && !IsLineTerminator(rest[2])
        && !IsLineTerminator(rest[3]) && !IsLineTerminator(rest[4]);
      Some(w + LineLength(rest))
    else None
  }

  /** The global replacement, from some position of the text on: a match is
      only tried where `^` holds (at the start of the text or just after a
      line terminator); a match is dropped and the scan resumes at its end,
      otherwise one character is kept. */
  function StripFrom(s: string, atLineStart: bool): string
    decreases |s|
  {
    if s == [] then []
    else if atLineStart && ImportMatchEnd(s).Some? then
      StripFrom(s[ImportMatchEnd(s).value..], false)
    else
      [s[0]] + StripFrom(s[1..], IsLineTerminator(s[0]))
  }

  lemma SuffixShrinks(s: string, e: nat, r: string)
    requires e <= |s| && multiset(r) <= multiset(s[e..])
    ensures multiset(r) <= multiset(s)
  {
    assert s == s[..e] + s[e..];
  }

  lemma ConsShrinks(s: string, r: string)
    requires s != [] && multiset(r) <= multiset(s[1..])
    ensures multiset([s[0]] + r) <= multiset(s)
  {
    assert s == [s[0]] + s[1..];
  }

  /** Stripping only drops characters. */
  lemma {:induction false} StripFromShrinks(s: string, atLineStart: bool)
    ensures multiset(StripFrom(s, atLineStart)) <= multiset(s)
    decreases |s|
  {
    if s == [] {
    } else if atLineStart && ImportMatchEnd(s).Some? {
      var e := ImportMatchEnd(s).value;
      StripFromShrinks(s[e..], false);
      SuffixShrinks(s, e, StripFrom(s[e..], false));
    } else {
      StripFromShrinks(s[1..], IsLineTerminator(s[0]));
      ConsShrinks(s, StripFrom(s[1..], IsLineTerminator(s[0])));
    }
  }

  /** `code.replace(/^\s*(from[ ]|import[ ]).*$/gm, "")` */
  function StripImports(code: string): string {
    StripFrom(code, true)
  }

  function BlankImport(line: string): string {
    if IsImportLine(line) then "" else line
  }

  /** The lines with every import line emptied. */
  function Blanked(lines: seq<string>): (r: seq<string>)
    ensures |r| == |lines|
    ensures forall i :: 0 <= i < |lines| ==> r[i] == BlankImport(lines[i])
  {
    if lines == [] then [] else [BlankImport(lines[0])] + Blanked(lines[1..])
  }

  /** A line with some visible character and no line terminator. */
  predicate PlainLine(line: string) {
    !AllWhitespace(line) && forall i :: 0 <= i < |line| ==> !IsLineTerminator(line[i])
  }

  lemma {:induction false} LeadingWhitespaceAppend(x: string, t: string)
    requires LeadingWhitespace(x) < |x|
    ensures LeadingWhitespace(x + t) == LeadingWhitespace(x)
    decreases |x|
  {
    if IsWhitespace(x[0]) {
      assert (x + t)[1..] == x[1..] + t;
      LeadingWhitespaceAppend(x[1..], t);
    }
  }

  lemma {:induction false} LineLengthAppend(x: string, t: string)
    requires forall i :: 0 <= i < |x| ==> !IsLineTerminator(x[i])
    requires t == [] || IsLineTerminator(t[0])
    ensures LineLength(x + t) == |x|
    decreases |x|
  {
    if x == [] {
      assert x + t == t;
    } else {
      assert (x + t)[1..] == x[1..] + t;
      LineLengthAppend(x[1..], t);
    }
  }

  /** A line end right after `x` cannot complete a keyword that `x` lacks. */
  lemma KeywordBeforeLineEnd(x: string, t: string)
    requires t == [] || t[0] == '\n'
    ensures StartsWithImportKeyword(x + t) <==> StartsWithImportKeyword(x)
  {
    if |x| >= 5 {
      assert (x + t)[..5] == x[..5];
    }
    if |x| >= 7 {
      assert (x + t)[..7] == x[..7];
    }
    if |x| < 7 && t != [] {
      assert (x + t)[|x|] == '\n';
      assert forall i :: 0 <= i < 5 ==> "from "[i] != '\n';
      assert forall i :: 0 <= i < 7 ==> "import "[i] != '\n';
    }
  }

  /** Inside a line nothing is matched: its characters are kept. */
  lemma {:induction false} StripCopiesRun(x: string, t: string)
    requires forall i :: 0 <= i < |x| ==> !IsLineTerminator(x[i])
    ensures StripFrom(x + t, false) == x + StripFrom(t, false)
    decreases |x|
  {
    if x == [] {
      assert x + t == t;
    } else {
      assert (x + t)[1..] == x[1..] + t;
      StripCopiesRun(x[1..], t);
    }
  }

  /** The pattern tried at the start of a plain line matches that line
      exactly when it is an import line, and then ends with it. */
  lemma ImportMatchOfLine(line: string, t: string)
    requires PlainLine(line)
    requires t == [] || t[0] == '\n'
    ensures ImportMatchEnd(line + t) == if IsImportLine(line) then Some(|line|) else None
  {
    var s := line + t;
    var w := LeadingWhitespace(line);
    assert w < |line|;
    LeadingWhitespaceAppend(line, t);
    assert s[w..] == line[w..] + t;
    KeywordBeforeLineEnd(line[w..], t);
    if IsImportLine(line) {
      LineLengthAppend(line[w..], t);
    }
  }

  /** An import line at the start of the scan is dropped. */
  lemma StripImportLine(line: string, t: string)
    requires line != [] && ImportMatchEnd(line + t) == Some(|line|)
    ensures StripFrom(line + t, true) == StripFrom(t, false)
  {
    assert (line + t)[|line|..] == t;
  }

  lemma HeadOfConcat(x: string, t: string)
    requires x != []
    ensures (x + t)[0] == x[0] && (x + t)[1..] == x[1..] + t
  {
  }

  /** Where the pattern does not match, the first character is kept. */
  lemma StripKeepsFirst(s: string)
    requires s != [] && ImportMatchEnd(s) == None
    ensures StripFrom(s, true) == [s[0]] + StripFrom(s[1..], IsLineTerminator(s[0]))
  {
  }

  /** Any other line at the start of the scan is kept whole. */
  lemma StripKeptLine(line: string, t: string)
    requires line != [] && ImportMatchEnd(line + t) == None
    requires forall i :: 0 <= i < |line| ==> !IsLineTerminator(line[i])
    ensures StripFrom(line + t, true) == line + StripFrom(t, false)
  {
    StripKeepsFirst(line + t);
    HeadOfConcat(line, t);
    StripCopiesRun(line[1..], t);
    HeadOfConcat(line, StripFrom(t, false));
  }

  /** One plain line at the start of the scan is dropped exactly when it is
      an import line; the text after it is scanned as before. */
  lemma StripOneLine(line: string, t: string)
    requires PlainLine(line)
    requires t == [] || t[0] == '\n'
    ensures StripFrom(line + t, true) == BlankImport(line) + StripFrom(t, false)
  {
    ImportMatchOfLine(line, t);
    if IsImportLine(line) {
      StripImportLine(line, t);
    } else {
      StripKeptLine(line, t);
    }
  }

  /** A kept line end puts the scan at the start of a line. */
  lemma NewlineStep(rest: string)
    ensures StripFrom("\n" + rest, false) == "\n" + StripFrom(rest, true)
  {
    assert ("\n" + rest)[1..] == rest;
  }

  /** For text made of plain lines separated by `\n`, stripping empties
      exactly the import lines and keeps every other line, in order. */
  lemma {:induction false} StripJoinedLines(lines: seq<string>)
    requires forall i :: 0 <= i < |lines| ==> PlainLine(lines[i])
    ensures StripImports(Join(lines, "\n")) == Join(Blanked(lines), "\n")
    decreases |lines|
  {
    if |lines| == 1 {
      StripOneLine(lines[0], []);
      assert lines[0] + [] == lines[0];
      assert BlankImport(lines[0]) + [] == BlankImport(lines[0]);
    } else if |lines| > 1 {
      var rest := Join(lines[1..], "\n");
      var tail := "\n" + rest;
      JoinCons(lines, "\n");
      StripOneLine(lines[0], tail);
      NewlineStep(rest);
      assert forall i :: 0 <= i < |lines[1..]| ==> PlainLine(lines[1..][i]);
      StripJoinedLines(lines[1..]);
      var blanked := Blanked(lines);
      assert blanked[1..] == Blanked(lines[1..]);
      calc {
        StripImports(Join(lines, "\n"));
        StripFrom(lines[0] + tail, true);
        BlankImport(lines[0]) + StripFrom(tail, false);
        BlankImport(lines[0]) + ("\n" + StripFrom(rest, true));
        blanked[0] + ("\n" + Join(blanked[1..], "\n"));
        { JoinCons(blanked, "\n"); }
        Join(blanked, "\n");
      }
    }
  }

  /** Stripping of a text that starts with an import line drops that line. */
  lemma LeadingImportLineDropped(line: string, rest: string)
    requires PlainLine(line) && IsImportLine(line)
    requires rest == [] || rest[0] == '\n'
    ensures StripImports(line + rest) == StripFrom(rest, false)
  {
    StripOneLine(line, rest);
  }

  /** The snippet as displayed: imports stripped, then trimmed. It neither
      starts nor ends with whitespace and only holds characters of the
      original code. */
  function DisplayedCode(code: string): (r: string)
    ensures r == [] || (!IsWhitespace(r[0]) && !IsWhitespace(r[|r| - 1]))
    ensures multiset(r) <= multiset(code)
    ensures Trim(r) == r
  {
    var stripped := StripImports(code);
    var r := Trim(stripped);
    assert multiset(r) <= multiset(code) by {
      StripFromShrinks(code, true);
      TrimMultiset(stripped);
    }
    assert Trim(r) == r by {
      TrimIdempotent(stripped);
    }
    r
  }

  /** For code made of plain lines, the snippet shown is those lines with
      every import line emptied, trimmed. */
  lemma DisplayedJoinedLines(lines: seq<string>)
    requires forall i :: 0 <= i < |lines| ==> PlainLine(lines[i])
    ensures DisplayedCode(Join(lines, "\n")) == Trim(Join(Blanked(lines), "\n"))
  {
    StripJoinedLines(lines);
  }

  /** The number of lines the snippet is sized for: the pieces of the
      displayed code between `\n`s, one more than its line breaks. */
  function LineCount(code: string): (n: nat)
    ensures n >= 1
    ensures n == CountChar(DisplayedCode(code), '\n') + 1
  {
    var displayed := DisplayedCode(code);
    SplitCountChar(displayed, '\n');
    assert "\n" == ['\n'];
    |Split(Trim(displayed), "\n")|
  }

  datatype ToolkitTopicItem = ToolkitTopicItem(name: string, text: string, code: string, furtherText: Option<string>)

  /** What the item shows in the listing (`detail` false) or the detail view. */
  datatype TopicItemView = TopicItemView(
    shownCode: string, codeLines: nat, insertedCode: string, moreButton: bool, furtherTextShown: bool)

  function Render(item: ToolkitTopicItem, detail: bool): (v: TopicItemView)
    ensures v.shownCode == DisplayedCode(item.code) && v.codeLines == LineCount(item.code)
    ensures v.insertedCode == item.code
    ensures v.moreButton <==> !detail && IsTruthy(item.furtherText)
    ensures v.furtherTextShown <==> detail
  {
    TopicItemView(DisplayedCode(item.code), LineCount(item.code), item.code,
                  !detail && IsTruthy(item.furtherText), detail)
  }

  /** The "More" button leads to the further text, so the two are never on
      screen together, and the button only appears when there is more to
      read. */
  lemma MoreButtonLeadsToFurtherText(item: ToolkitTopicItem, detail: bool)
    ensures !(Render(item, detail).moreButton && Render(item, detail).furtherTextShown)
    ensures Render(item, detail).moreButton ==> Render(item, true).furtherTextShown && IsTruthy(item.furtherText)
  {
  }
}
