/** The editor extension that previews the call on the cursor's line: it
    finds the statement line in the stack of syntax nodes under the cursor,
    reads the call's module, name and argument texts off it, builds the
    program the mini simulator runs, and produces the edit that rewrites the
    argument list. Syntax nodes are records of a type name, a document range,
    their text and their children, in document order. */
module ReactWidget {
  import opened Wrappers
  import opened JsStrings

  datatype SyntaxNode = SyntaxNode(typeName: string, from: int, to: int, text: string, children: seq<SyntaxNode>)

  datatype CallInfo = CallInfo(moduleName: Option<string>, name: string, arguments: seq<string>, indent: int)

  /** A call statement's information, with the range of its argument list
      that argument edits replace. */
  datatype LineInfo = LineInfo(callInfo: CallInfo, argListFrom: int, argListTo: int)

  /** A document edit: the range `[from, to)` replaced by `insert`. */
  datatype Change = Change(from: int, to: int, insert: string)

  datatype Decoration = Highlight(from: int, to: int) | PreviewWidget(at: int, lineInfo: LineInfo)

  /** The modules whose calls get a simulator preview. */
  const PreviewModuleNames: seq<string> := ["display", "music", "speech", "audio"]

  /** The preview renders only for a call into one of the preview modules. */
  function ShowsPreview(moduleName: Option<string>): (shown: bool)
    ensures shown <==> IsTruthy(moduleName) && moduleName.value in {"display", "music", "speech", "audio"}
  {
    IsTruthy(moduleName) && moduleName.value in PreviewModuleNames
  }

  /** The call statement itself, `[module.]name(arg,arg,...)`. */
  function CallLine(moduleName: Option<string>, name: string, args: seq<string>): string {
    CallPrefix(moduleName) + name + "(" + Join(args, ",") + ")"
  }

  /** `module.` before the call's name, when there is a module. */
  function CallPrefix(moduleName: Option<string>): string {
    if IsTruthy(moduleName) then moduleName.value + "." else ""
  }

  /** The first line of every preview program. */
  const MicrobitImport := "from microbit import *\n"

  /** The block that imports the call's module, when there is one, without
      failing when the module is missing. */
  function ImportBlock(moduleName: Option<string>): string {
    if IsTruthy(moduleName) then ImportTry + ImportLine(moduleName.value) + ImportExcept else ""
  }

  const ImportTry := "\ntry:\n  "
  const ImportExcept := "except:pass\n"

  function ImportLine(m: string): string {
    "import " + m + "\n"
  }

  /** The program the preview simulator runs, accumulated piece by piece:
      the `microbit` import, the module's import block when there is a
      module, then the call. */
  method PreviewProgram(moduleName: Option<string>, name: string, args: seq<string>) returns (code: string)
    ensures code == MicrobitImport + ImportBlock(moduleName) + CallLine(moduleName, name, args)
  {
    var line := "";
    if IsTruthy(moduleName) {
      line := line + moduleName.value + ".";
      assert line == CallPrefix(moduleName);
    }
    line := line + name + "(" + Join(args, ",") + ")";
    code := MicrobitImport;
    if IsTruthy(moduleName) {
      code := code + (ImportTry + ImportLine(moduleName.value) + ImportExcept);
    }
    code := code + line;
  }

  /** The program always starts with the `microbit` import and ends with the
      call, and it imports the call's module exactly when there is one. */
  lemma PreviewProgramShape(moduleName: Option<string>, name: string, args: seq<string>)
    ensures var code := MicrobitImport + ImportBlock(moduleName) + CallLine(moduleName, name, args);
      && StartsWith(code, MicrobitImport)
      && code[|code| - |CallLine(moduleName, name, args)|..] == CallLine(moduleName, name, args)
      && (IsTruthy(moduleName) ==> Contains(code, "import " + moduleName.value + "\n"))
      && (!IsTruthy(moduleName) ==> code == MicrobitImport + CallLine(moduleName, name, args))
  {
    var call := CallLine(moduleName, name, args);
    var block := ImportBlock(moduleName);
    AppendAssoc(MicrobitImport, block, call);
    AppendParts(MicrobitImport, block + call);
    AppendParts(MicrobitImport + block, call);
    if IsTruthy(moduleName) {
      var m := moduleName.value;
      Regroup(MicrobitImport, ImportTry, ImportLine(m), ImportExcept, call);
      ContainsInside(MicrobitImport + ImportTry, ImportLine(m), ImportExcept + call);
    } else {
      assert MicrobitImport + block == MicrobitImport;
    }
  }

  lemma AppendAssoc(a: string, b: string, c: string)
    ensures a + b + c == a + (b + c)
  {
  }

  lemma AppendParts(a: string, b: string)
    ensures (a + b)[..|a|] == a && (a + b)[|a|..] == b
  {
  }

  lemma Regroup(a: string, b: string, c: string, d: string, e: string)
    ensures a + (b + c + d) + e == (a + b) + c + (d + e)
  {
  }

  /** The punctuation tokens of an argument list. */
  predicate IsPunctuation(node: SyntaxNode) {
    node.typeName == "(" || node.typeName == ")" || node.typeName == ","
  }

  /** The texts of the argument nodes among `siblings`, in order. */
  function ArgumentTexts(siblings: seq<SyntaxNode>): (args: seq<string>)
    ensures |args| <= |siblings|
    decreases |siblings|
  {
    if siblings == [] then []
    else
      var last := siblings[|siblings| - 1];
      ArgumentTexts(siblings[..|siblings| - 1]) + (if IsPunctuation(last) then [] else [last.text])
  }

  /** Argument texts keep their order across runs of siblings. */
  lemma {:induction false} ArgumentTextsAppend(a: seq<SyntaxNode>, b: seq<SyntaxNode>)
    ensures ArgumentTexts(a + b) == ArgumentTexts(a) + ArgumentTexts(b)
    decreases |b|
  {
    if b == [] {
      assert a + b == a;
    } else {
      assert (a + b)[..|a + b| - 1] == a + b[..|b| - 1];
      ArgumentTextsAppend(a, b[..|b| - 1]);
    }
  }

  /** Every argument text is the text of a sibling that is not punctuation,
      and there is one per such sibling. */
  lemma {:induction false} ArgumentTextsAreArguments(siblings: seq<SyntaxNode>)
    ensures forall t :: t in ArgumentTexts(siblings) ==>
      exists k :: 0 <= k < |siblings| && !IsPunctuation(siblings[k]) && siblings[k].text == t
    ensures |ArgumentTexts(siblings)| == |set k | 0 <= k < |siblings| && !IsPunctuation(siblings[k])|
    decreases |siblings|
  {
    if siblings != [] {
      var init := siblings[..|siblings| - 1];
      var n := |siblings| - 1;
      ArgumentTextsAreArguments(init);
      forall t | t in ArgumentTexts(siblings)
        ensures exists k :: 0 <= k < |siblings| && !IsPunctuation(siblings[k]) && siblings[k].text == t
      {
        if t in ArgumentTexts(init) {
          var k :| 0 <= k < |init| && !IsPunctuation(init[k]) && init[k].text == t;
          assert siblings[k] == init[k];
        } else {
          assert !IsPunctuation(siblings[n]) && siblings[n].text == t;
        }
      }
      var before := set k | 0 <= k < |init| && !IsPunctuation(init[k]);
      var all := set k | 0 <= k < |siblings| && !IsPunctuation(siblings[k]);
      if IsPunctuation(siblings[n]) {
        assert all == before;
      } else {
        assert all == before + {n};
      }
    }
  }

  /** The argument loop: from the sibling after the opening parenthesis on,
      every node that is not punctuation contributes its text. */
  method CollectArguments(argList: SyntaxNode) returns (args: seq<string>)
    ensures argList.children == [] ==> args == []
    ensures argList.children != [] ==> args == ArgumentTexts(argList.children[1..])
  {
    args := [];
    if argList.children == [] {
      return;
    }
    var siblings := argList.children[1..];
    var k := 0;
    while k < |siblings|
      invariant 0 <= k <= |siblings|
      invariant args == ArgumentTexts(siblings[..k])
    {
      assert siblings[..k + 1][..k] == siblings[..k];
      if !IsPunctuation(siblings[k]) {
        args := args + [siblings[k].text];
      }
      k := k + 1;
    }
    assert siblings[..k] == siblings;
  }

  /** The offset at which the line holding `pos` starts (lines end at `\n`). */
  function LineStart(doc: string, pos: int): (start: int)
    requires 0 <= pos <= |doc|
    ensures 0 <= start <= pos
    ensures start == 0 || doc[start - 1] == '\n'
    ensures forall j :: start <= j < pos ==> doc[j] != '\n'
    decreases pos
  {
    if pos == 0 || doc[pos - 1] == '\n' then pos else LineStart(doc, pos - 1)
  }

  /** The offset at which the line holding `pos` ends. */
  function LineEnd(doc: string, pos: int): (end: int)
    requires 0 <= pos <= |doc|
    ensures pos <= end <= |doc|
    ensures end == |doc| || doc[end] == '\n'
    ensures forall j :: pos <= j < end ==> doc[j] != '\n'
    decreases |doc| - pos
  {
    if pos == |doc| || doc[pos] == '\n' then pos else LineEnd(doc, pos + 1)
  }

  predicate IsCallStatement(line: SyntaxNode) {
    line.typeName == "ExpressionStatement" && line.children != [] && line.children[0].typeName == "CallExpression"
  }

  /** What the grammar guarantees of a call statement: the call has a callee,
      a member-expression callee has an object and a property, and the
      statement starts inside the document. */
  predicate WellShaped(line: SyntaxNode, doc: string) {
    IsCallStatement(line) ==>
      var call := line.children[0];
      && call.children != []
      && (call.children[0].typeName == "MemberExpression" ==> call.children[0].children != [])
      && 0 <= line.from <= |doc|
  }

  /** The information of a statement line: none unless it is an expression
      statement whose first child is a call; the module and name come from a
      member-expression callee's first and last children, or the name alone
      from any other callee; the arguments are the call's last child's
      non-punctuation children after the first; the indent is the
      statement's offset within its document line. */
  function LineInfoOf(line: SyntaxNode, doc: string): (info: Option<LineInfo>)
    requires WellShaped(line, doc)
    ensures info.Some? <==> IsCallStatement(line)
    ensures info.Some? ==>
      var call := line.children[0];
      var argList := call.children[|call.children| - 1];
      && info.value.argListFrom == argList.from && info.value.argListTo == argList.to
      && info.value.callInfo.arguments == (if argList.children == [] then [] else ArgumentTexts(argList.children[1..]))
      && 0 <= info.value.callInfo.indent <= line.from
      && (forall j :: line.from - info.value.callInfo.indent <= j < line.from ==> doc[j] != '\n')
      && info.value.callInfo.indent == line.from - LineStart(doc, line.from)
      && (info.value.callInfo.moduleName.Some? <==> call.children[0].typeName == "MemberExpression")
    ensures info.Some? && line.children[0].children[0].typeName == "MemberExpression" ==>
      var member := line.children[0].children[0];
      && info.value.callInfo.moduleName == Some(member.children[0].text)
      && info.value.callInfo.name == member.children[|member.children| - 1].text
    ensures info.Some? && line.children[0].children[0].typeName != "MemberExpression" ==>
      info.value.callInfo.name == line.children[0].children[0].text
  {
    if !IsCallStatement(line) then None
    else
      var call := line.children[0];
      var callee := call.children[0];
      var argList := call.children[|call.children| - 1];
      var moduleName := if callee.typeName == "MemberExpression" then Some(callee.children[0].text) else None;
      var name := if callee.typeName == "MemberExpression" then callee.children[|callee.children| - 1].text else callee.text;
      var args := if argList.children == [] then [] else ArgumentTexts(argList.children[1..]);
      Some(LineInfo(CallInfo(moduleName, name, args, line.from - LineStart(doc, line.from)), argList.from, argList.to))
  }

  /** `line2LineInfo`, with its argument loop. */
  method LineToLineInfo(line: SyntaxNode, doc: string) returns (info: Option<LineInfo>)
    requires WellShaped(line, doc)
    ensures info == LineInfoOf(line, doc)
  {
    if line.typeName != "ExpressionStatement" {
      return None;
    }
    if line.children == [] || line.children[0].typeName != "CallExpression" {
      return None;
    }
    var call := line.children[0];
    var moduleName: Option<string>;
    var name: string;
    if call.children[0].typeName == "MemberExpression" {
      var member := call.children[0];
      moduleName := Some(member.children[0].text);
      name := member.children[|member.children| - 1].text;
    } else {
      moduleName := None;
      name := call.children[0].text;
    }
    var argList := call.children[|call.children| - 1];
    var args := CollectArguments(argList);
    var indent := line.from - LineStart(doc, line.from);
    info := Some(LineInfo(CallInfo(moduleName, name, args, indent), argList.from, argList.to));
  }

  /** The edit that rewrites the argument list: its whole range, brackets
      included, becomes the new arguments joined by `", "` in brackets. */
  function ArgumentUpdate(info: LineInfo, args: seq<string>): (c: Change)
    ensures c.from == info.argListFrom && c.to == info.argListTo
    ensures StartsWith(c.insert, "(") && c.insert[|c.insert| - 1] == ')'
    ensures c.insert[1..|c.insert| - 1] == Join(args, ", ")
  {
    var insert := "(" + Join(args, ", ") + ")";
    assert insert[1..|insert| - 1] == Join(args, ", ");
    Change(info.argListFrom, info.argListTo, insert)
  }

  /** The document after an edit. */
  function ApplyChange(doc: string, c: Change): (r: string)
    requires 0 <= c.from <= c.to <= |doc|
    ensures |r| == |doc| - (c.to - c.from) + |c.insert|
  {
    doc[..c.from] + c.insert + doc[c.to..]
  }

  /** An argument edit leaves the text before and after the argument list
      alone and puts the bracketed new arguments in its place. */
  lemma ArgumentUpdateOnlyTouchesArgList(doc: string, info: LineInfo, args: seq<string>)
    requires 0 <= info.argListFrom <= info.argListTo <= |doc|
    ensures var r := ApplyChange(doc, ArgumentUpdate(info, args));
      var n := |ArgumentUpdate(info, args).insert|;
      && r[..info.argListFrom] == doc[..info.argListFrom]
      && r[info.argListFrom + n..] == doc[info.argListTo..]
      && r[info.argListFrom..info.argListFrom + n] == "(" + Join(args, ", ") + ")"
  {
    var c := ArgumentUpdate(info, args);
    var r := ApplyChange(doc, c);
    assert r == doc[..c.from] + c.insert + doc[c.to..];
  }

  /** A node strictly encloses the line `[lineFrom, lineTo]`. */
  predicate Encloses(node: SyntaxNode, lineFrom: int, lineTo: int) {
    node.from < lineFrom && node.to > lineTo
  }

  /** The scan from index `i` down to 1 with `current` chosen so far. */
  function ScanDown(stack: seq<SyntaxNode>, lineFrom: int, lineTo: int, i: int, current: nat): (k: nat)
    requires 0 <= i < |stack| && current < |stack|
    ensures k < |stack|
    decreases i
  {
    if i <= 0 || Encloses(stack[i], lineFrom, lineTo) then current else ScanDown(stack, lineFrom, lineTo, i - 1, i)
  }

  /** The index of the statement line in the stack of nodes under the
      cursor, outermost first: scanning from the innermost node down to
      index 1, the last node visited before the first one that strictly
      encloses the cursor's line. The outermost node (the script) is chosen
      only when it is the only one. */
  function CurrentLineIndex(stack: seq<SyntaxNode>, lineFrom: int, lineTo: int): (k: nat)
    requires |stack| >= 1
    ensures k < |stack|
    ensures k == 0 <==> |stack| == 1
    ensures forall j :: k < j < |stack| ==> !Encloses(stack[j], lineFrom, lineTo)
    ensures Encloses(stack[k], lineFrom, lineTo) ==> k == |stack| - 1
    ensures 1 < k && !Encloses(stack[k], lineFrom, lineTo) ==> Encloses(stack[k - 1], lineFrom, lineTo)
  {
    ScanDownCharacterised(stack, lineFrom, lineTo, |stack| - 1);
    ScanDown(stack, lineFrom, lineTo, |stack| - 1, |stack| - 1)
  }

  lemma {:induction false} ScanDownCharacterised(stack: seq<SyntaxNode>, lineFrom: int, lineTo: int, i: int)
    requires 0 <= i < |stack|
    requires forall j :: i < j < |stack| ==> !Encloses(stack[j], lineFrom, lineTo)
    ensures var current := if i == |stack| - 1 then i else i + 1;
      var k := ScanDown(stack, lineFrom, lineTo, i, current);
      && (i == 0 ==> k == current)
      && (i >= 1 ==> 1 <= k <= current)
      && (forall j :: k < j < |stack| ==> !Encloses(stack[j], lineFrom, lineTo))
      && (Encloses(stack[k], lineFrom, lineTo) ==> k == |stack| - 1)
      && (1 < k && !Encloses(stack[k], lineFrom, lineTo) ==> Encloses(stack[k - 1], lineFrom, lineTo))
    decreases i
  {
    var current := if i == |stack| - 1 then i else i + 1;
    if i > 0 && !Encloses(stack[i], lineFrom, lineTo) {
      ScanDownCharacterised(stack, lineFrom, lineTo, i - 1);
      var next := if i - 1 == |stack| - 1 then i - 1 else i;
      assert next == i;
    }
  }

  /** `getSyntaxAtCursor`'s loop over the node stack. */
  method CurrentLine(nodeStack: seq<SyntaxNode>, lineFrom: int, lineTo: int) returns (currentLine: SyntaxNode)
    requires |nodeStack| >= 1
    ensures currentLine == nodeStack[CurrentLineIndex(nodeStack, lineFrom, lineTo)]
  {
    var chosen := |nodeStack| - 1;
    currentLine := nodeStack[chosen];
    var i := |nodeStack| - 1;
    while i > 0
      invariant 0 <= i < |nodeStack| && chosen < |nodeStack|
      invariant currentLine == nodeStack[chosen]
      invariant ScanDown(nodeStack, lineFrom, lineTo, i, chosen)
             == ScanDown(nodeStack, lineFrom, lineTo, |nodeStack| - 1, |nodeStack| - 1)
    {
      if nodeStack[i].from < lineFrom && nodeStack[i].to > lineTo {
        break;
      }
      currentLine := nodeStack[i];
      chosen := i;
      i := i - 1;
    }
  }

  /** The decorations for the editor state: nothing while text is selected;
      otherwise a highlight of the innermost node under the cursor, followed
      by the preview widget at the end of the current line when that line is
      a call statement. */
  function Decorations(doc: string, selectionFrom: int, selectionTo: int, nodeStack: seq<SyntaxNode>): (ds: seq<Decoration>)
    requires 0 <= selectionTo <= |doc| && |nodeStack| >= 1
    requires forall k :: 0 <= k < |nodeStack| ==> WellShaped(nodeStack[k], doc)
    ensures selectionFrom != selectionTo ==> ds == []
    ensures selectionFrom == selectionTo ==>
      var innermost := nodeStack[|nodeStack| - 1];
      var line := nodeStack[CurrentLineIndex(nodeStack, LineStart(doc, selectionTo), LineEnd(doc, selectionTo))];
      && 1 <= |ds| <= 2
      && ds[0] == Highlight(innermost.from, innermost.to)
      && (|ds| == 2 <==> IsCallStatement(line))
      && (|ds| == 2 ==> ds[1] == PreviewWidget(line.to, LineInfoOf(line, doc).value))
  {
    if selectionFrom != selectionTo then []
    else
      var innermost := nodeStack[|nodeStack| - 1];
      var lineFrom := LineStart(doc, selectionTo);
      var lineTo := LineEnd(doc, selectionTo);
      var line := nodeStack[CurrentLineIndex(nodeStack, lineFrom, lineTo)];
      [Highlight(innermost.from, innermost.to)] +
        match LineInfoOf(line, doc)
        case None => []
        case Some(info) => [PreviewWidget(line.to, info)]
  }
}
