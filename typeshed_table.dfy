/** The table of function signatures read out of the MicroPython type stubs:
    every `.pyi` file is cut at each `def `, and each definition with a
    return-type arrow and no `Tuple` or `Union` parameter gives an entry,
    keyed `module.function`, holding its name, its `label:type[=default]`
    parameters and its return type. */
module TypeshedTable {
  import opened Wrappers
  import opened JsStrings

  datatype TypedParameter = TypedParameter(parameterName: string, paramType: string, defaultValue: Option<string>)

  datatype Signature = Signature(name: string, parameters: seq<TypedParameter>, returnType: string)

  /** A definition whose parameter piece has no `(`: reading the piece after
      it fails, and the whole table with it. */
  datatype TypeshedError = MissingParenthesis(chunk: string)

  type TypeshedInfo = map<string, Signature>

  /** The dotted module name of a stub file: the first `/typeshed/` dropped,
      every `.pyi` dropped, and every `/` turned into `.`. */
  function ModuleName(file: string): (m: string)
    ensures '/' !in m
  {
    var m := ReplaceAll(ReplaceAll(ReplaceFirst(file, "/typeshed/", ""), ".pyi", ""), "/", ".");
    ReplaceAllCharRemoves(ReplaceAll(ReplaceFirst(file, "/typeshed/", ""), ".pyi", ""), '/', '.');
    m
  }

  /** The stub of a module `a.b.c`, stored at `/typeshed/a/b/c.pyi`, gives
      back that module name. */
  lemma ModuleNameOfStubPath(segments: seq<string>)
    requires |segments| >= 1
    requires forall k :: 0 <= k < |segments| ==> '/' !in segments[k] && '.' !in segments[k]
    ensures ModuleName("/typeshed/" + Join(segments, "/") + ".pyi") == Join(segments, ".")
  {
    var path := Join(segments, "/");
    StubPrefixDropped(path);
    assert '.' !in path by {
      JoinAvoids(segments, "/", '.');
    }
    DotFreeBeforeSuffix(path, ".pyi");
    SlashesToDots(segments);
  }

  lemma StubPrefixDropped(path: string)
    ensures ReplaceFirst("/typeshed/" + path + ".pyi", "/typeshed/", "") == path + ".pyi"
  {
    var file := "/typeshed/" + path + ".pyi";
    assert OccursAt(file, "/typeshed/", 0);
    assert file[10..] == path + ".pyi";
  }

  lemma SlashesToDots(segments: seq<string>)
    requires |segments| >= 1
    requires forall k :: 0 <= k < |segments| ==> '/' !in segments[k]
    ensures ReplaceAll(Join(segments, "/"), "/", ".") == Join(segments, ".")
  {
    assert "/" == ['/'];
    ReplaceAllIsSplitJoin(Join(segments, "/"), "/", ".");
    SplitJoinChar(segments, '/');
  }

  /** A text without `.` followed by `suffix`, itself starting with `.`,
      loses exactly the suffix when every `suffix` is removed. */
  lemma DotFreeBeforeSuffix(s: string, suffix: string)
    requires '.' !in s && |suffix| > 0 && suffix[0] == '.'
    ensures ReplaceAll(s + suffix, suffix, "") == s
  {
    forall j | 0 <= j ensures !OccursAt(s, suffix, j) {
      if j + |suffix| <= |s| {
        assert s[j..j + |suffix|][0] == s[j];
      }
    }
    assert !Contains(s, suffix);
    forall j | 0 <= j < |s| ensures !OccursAt(s + suffix + "", suffix, j) {
      assert (s + suffix + "")[j] == s[j];
    }
    SplitAtFirst(s, suffix, "");
    SplitWithout("", suffix);
    ReplaceAllIsSplitJoin(s + suffix, suffix, "");
    assert s + suffix + "" == s + suffix;
  }

  /** A character in neither the pieces nor the separator is not in
      their join. */
  lemma {:induction false} JoinAvoids(parts: seq<string>, sep: string, c: char)
    requires c !in sep
    requires forall k :: 0 <= k < |parts| ==> c !in parts[k]
    ensures c !in Join(parts, sep)
    decreases |parts|
  {
    if |parts| >= 2 {
      JoinAvoids(parts[1..], sep, c);
    }
  }

  /** The function name of a definition: the trimmed text before its `(`. */
  function FunctionName(chunk: string): (name: string)
    ensures !Contains(name, "(")
    ensures name == Trim(BeforeFirst(chunk, "("))
  {
    var before := Split(chunk, "(")[0];
    SplitPiecesFree(chunk, "(");
    SplitFirstTwo(chunk, "(");
    var name := Trim(before);
    assert !Contains(before, "(");
    var k := LeadingWhitespace(before);
    assert name == before[k..k + |name|];
    SliceFree(before, k, k + |name|, "(");
    name
  }

  /** The parameter text of a definition's arrow-less head: what lies
      between its first `(` and the next `)`, with line breaks and spaces
      removed. */
  function ParameterText(head: string): (r: Result<string, TypeshedError>)
    ensures r.Failure? <==> !Contains(head, "(")
    ensures r.Success? ==> ' ' !in r.value && '\n' !in r.value
    ensures r.Success? ==>
      var afterParen := head[IndexOf(head, "(").value + 1..];
      r.value == RemoveChar(RemoveChar(BeforeFirst(BeforeFirst(afterParen, "("), ")"), '\n'), ' ')
  {
    var parts := Split(head, "(");
    if |parts| < 2 then Failure(MissingParenthesis(head))
    else
      var inside := Split(parts[1], ")")[0];
      var joined := ReplaceAll(inside, "\n", "");
      var text := ReplaceAll(joined, " ", "");
      SplitFirstTwo(head, "(");
      SplitFirstTwo(parts[1], ")");
      ReplaceAllIsRemoveChar(inside, '\n');
      ReplaceAllIsRemoveChar(joined, ' ');
      ReplaceAllSplitJoinRemoves(inside, '\n');
      ReplaceAllSplitJoinRemoves(joined, ' ');
      ReplaceAllKeepsAbsent(joined, " ", '\n');
      Success(text)
  }

  /** Replacing every `c` by nothing is taking every `c` out. */
  lemma ReplaceAllIsRemoveChar(s: string, c: char)
    ensures ReplaceAll(s, [c], "") == RemoveChar(s, c)
  {
    ReplaceAllIsSplitJoin(s, [c], "");
    JoinEmptyIsConcat(Split(s, [c]));
    ConcatSplit(s, c);
  }

  /** Replacing every `c` by nothing leaves no `c`. */
  lemma ReplaceAllSplitJoinRemoves(s: string, c: char)
    ensures c !in ReplaceAll(s, [c], "")
  {
    ReplaceAllIsSplitJoin(s, [c], "");
    ConcatSplit(s, c);
    JoinEmptyIsConcat(Split(s, [c]));
    RemoveCharRemoves(s, c);
  }

  lemma {:induction false} JoinEmptyIsConcat(parts: seq<string>)
    ensures Join(parts, "") == Concat(parts)
    decreases |parts|
  {
    if |parts| == 1 {
      assert Concat(parts) == parts[0] + Concat(parts[1..]);
      assert parts[0] + [] == parts[0];
    } else if |parts| > 1 {
      JoinEmptyIsConcat(parts[1..]);
      assert parts[0] + "" + Join(parts[1..], "") == parts[0] + Join(parts[1..], "");
    }
  }

  lemma {:induction false} RemoveCharRemoves(s: string, c: char)
    ensures c !in RemoveChar(s, c)
    decreases |s|
  {
    if s != [] {
      RemoveCharRemoves(s[1..], c);
    }
  }

  /** Removing a pattern does not bring in a character that was absent. */
  lemma ReplaceAllKeepsAbsent(s: string, pat: string, c: char)
    requires |pat| > 0 && c !in s
    ensures c !in ReplaceAll(s, pat, "")
  {
    ReplaceAllIsSplitJoin(s, pat, "");
    JoinEmptyIsConcat(Split(s, pat));
    SplitPiecesAvoid(s, pat, c);
    ConcatAvoids(Split(s, pat), c);
  }

  lemma {:induction false} SplitPiecesAvoid(s: string, pat: string, c: char)
    requires |pat| > 0 && c !in s
    ensures forall k :: 0 <= k < |Split(s, pat)| ==> c !in Split(s, pat)[k]
    decreases |s|
  {
    match IndexOf(s, pat)
    case None =>
    case Some(i) =>
      SplitPiecesAvoid(s[i + |pat|..], pat, c);
      assert c !in s[..i];
      assert Split(s, pat) == [s[..i]] + Split(s[i + |pat|..], pat);
  }

  lemma {:induction false} ConcatAvoids(parts: seq<string>, c: char)
    requires forall k :: 0 <= k < |parts| ==> c !in parts[k]
    ensures c !in Concat(parts)
    decreases |parts|
  {
    if parts != [] {
      ConcatAvoids(parts[1..], c);
    }
  }

  /** One `label:type[=default]` piece of the parameter text: the label is
      the text before the first `:`, the type the text after it up to the
      next `:` or `=`, and the default the text after that `=`; a piece
      without `:` (such as `self`) is not a parameter. */
  function ParameterOf(pair: string): (p: Option<TypedParameter>)
    ensures p.Some? <==> Contains(pair, ":")
    ensures p.Some? ==> p.value.parameterName == Split(pair, ":")[0]
    ensures p.Some? ==> !Contains(p.value.parameterName, ":") && !Contains(p.value.paramType, "=")
    ensures p.Some? ==> (p.value.defaultValue.Some? <==> Contains(Split(pair, ":")[1], "="))
  {
    if !Contains(pair, ":") then None
    else
      var pieces := Split(pair, ":");
      SplitPiecesFree(pair, ":");
      var paramLabel := pieces[0];
      var typeText := pieces[1];
      if Contains(typeText, "=") then
        var typeAndDefault := Split(typeText, "=");
        SplitPiecesFree(typeText, "=");
        Some(TypedParameter(paramLabel, typeAndDefault[0], Some(typeAndDefault[1])))
      else
        assert Split(typeText, "=") == [typeText];
        Some(TypedParameter(paramLabel, typeText, None))
  }

  /** Reading back a written parameter: `label:type=default` and `label:type`
      give the parameter they were written from, provided the parts hold no
      separator of their own. */
  lemma ParameterRoundTrip(paramLabel: string, paramType: string, defaultValue: Option<string>)
    requires ':' !in paramLabel && ':' !in paramType && '=' !in paramType
    requires defaultValue.Some? ==> ':' !in defaultValue.value && '=' !in defaultValue.value
    ensures ParameterOf(paramLabel + ":" + paramType + (if defaultValue.Some? then "=" + defaultValue.value else ""))
      == Some(TypedParameter(paramLabel, paramType, defaultValue))
  {
    match defaultValue
    case None =>
      assert paramLabel + ":" + paramType + "" == paramLabel + ":" + paramType;
      RoundTripWithoutDefault(paramLabel, paramType);
    case Some(d) =>
      RoundTripWithDefault(paramLabel, paramType, d);
  }

  lemma RoundTripWithoutDefault(paramLabel: string, paramType: string)
    requires ':' !in paramLabel && ':' !in paramType && '=' !in paramType
    ensures ParameterOf(paramLabel + ":" + paramType) == Some(TypedParameter(paramLabel, paramType, None))
  {
    assert paramLabel + ":" + paramType == paramLabel + [':'] + paramType;
    SplitsAtSingleChar(paramLabel, ':', paramType);
    ContainsChar(paramType, '=');
    ParameterOfParts(paramLabel + [':'] + paramType, paramLabel, paramType);
  }

  lemma RoundTripWithDefault(paramLabel: string, paramType: string, d: string)
    requires ':' !in paramLabel && ':' !in paramType && '=' !in paramType
    requires ':' !in d && '=' !in d
    ensures ParameterOf(paramLabel + ":" + paramType + ("=" + d)) == Some(TypedParameter(paramLabel, paramType, Some(d)))
  {
    var typeText := paramType + ['='] + d;
    assert paramLabel + ":" + paramType + ("=" + d) == paramLabel + [':'] + typeText;
    assert ':' !in typeText;
    SplitsAtSingleChar(paramLabel, ':', typeText);
    SplitsAtSingleChar(paramType, '=', d);
    ParameterOfParts(paramLabel + [':'] + typeText, paramLabel, typeText);
  }

  /** `ParameterOf` of a piece that splits at `:` into a label and a type
      text. */
  lemma ParameterOfParts(pair: string, paramLabel: string, typeText: string)
    requires Contains(pair, [':']) && Split(pair, [':']) == [paramLabel, typeText]
    ensures Contains(typeText, ['=']) ==>
      ParameterOf(pair) == Some(TypedParameter(paramLabel, Split(typeText, ['='])[0], Some(Split(typeText, ['='])[1])))
    ensures !Contains(typeText, ['=']) ==> ParameterOf(pair) == Some(TypedParameter(paramLabel, typeText, None))
  {
    assert ":" == [':'] && "=" == ['='];
  }

  /** `a + c + b`, with `c` in neither part, contains `c` and splits at it
      into `a` and `b`. */
  lemma SplitsAtSingleChar(a: string, c: char, b: string)
    requires c !in a && c !in b
    ensures Contains(a + [c] + b, [c])
    ensures Split(a + [c] + b, [c]) == [a, b]
  {
    ContainsInside(a, [c], b);
    SplitAtChar(a, c, b);
    ContainsChar(b, c);
    SplitWithout(b, [c]);
  }

  /** The parameters of a list of comma pieces, in order, skipping the pieces
      that are not parameters. */
  function Parameters(pieces: seq<string>): (ps: seq<TypedParameter>)
    ensures |ps| <= |pieces|
    decreases |pieces|
  {
    if pieces == [] then []
    else
      var last := pieces[|pieces| - 1];
      Parameters(pieces[..|pieces| - 1]) + (match ParameterOf(last) case Some(p) => [p] case None => [])
  }

  /** Parameters keep the order of their pieces: the parameters of two runs
      of pieces are those of the first followed by those of the second. */
  lemma {:induction false} ParametersAppend(a: seq<string>, b: seq<string>)
    ensures Parameters(a + b) == Parameters(a) + Parameters(b)
    decreases |b|
  {
    if b != [] {
      var b' := b[..|b| - 1];
      assert (a + b)[..|a + b| - 1] == a + b';
      ParametersAppend(a, b');
    } else {
      assert a + b == a;
    }
  }

  /** Pieces without a `:` contribute no parameter. */
  lemma {:induction false} ParametersOfLabelsOnly(pieces: seq<string>)
    requires forall k :: 0 <= k < |pieces| ==> !Contains(pieces[k], ":")
    ensures Parameters(pieces) == []
    decreases |pieces|
  {
    if pieces != [] {
      ParametersOfLabelsOnly(pieces[..|pieces| - 1]);
    }
  }

  /** A single piece gives its parameter when it has a `:`, and none
      otherwise. */
  lemma ParametersSingle(piece: string)
    ensures Parameters([piece]) == if Contains(piece, ":") then [ParameterOf(piece).value] else []
  {
    assert [piece][..0] == [];
  }

  /** When every piece has a `:`, each piece gives one parameter, in
      place. */
  lemma {:induction false} ParametersOfParameterPieces(pieces: seq<string>)
    requires forall k :: 0 <= k < |pieces| ==> Contains(pieces[k], ":")
    ensures |Parameters(pieces)| == |pieces|
    ensures forall k :: 0 <= k < |pieces| ==> Some(Parameters(pieces)[k]) == ParameterOf(pieces[k])
    decreases |pieces|
  {
    if pieces != [] {
      var init := pieces[..|pieces| - 1];
      ParametersOfParameterPieces(init);
      assert Parameters(pieces) == Parameters(init) + [ParameterOf(pieces[|pieces| - 1]).value];
    }
  }

  /** The loop that pushes one parameter per `paramLabel:type` piece. */
  method ParseParameters(params: string) returns (paramsList: seq<TypedParameter>)
    ensures paramsList == Parameters(Split(params, ","))
  {
    var commaSplit := Split(params, ",");
    paramsList := [];
    var i := 0;
    while i < |commaSplit|
      invariant 0 <= i <= |commaSplit|
      invariant paramsList == Parameters(commaSplit[..i])
    {
      var paramTypePair := commaSplit[i];
      assert commaSplit[..i + 1][..i] == commaSplit[..i];
      var param := ParsePair(paramTypePair);
      if param.Some? {
        paramsList := paramsList + [param.value];
      }
      i := i + 1;
    }
    assert commaSplit[..i] == commaSplit;
  }

  /** The loop body for one comma piece: no parameter without a `:`. */
  method ParsePair(paramTypePair: string) returns (param: Option<TypedParameter>)
    ensures param == ParameterOf(paramTypePair)
  {
    if !Contains(paramTypePair, ":") {
      return None;
    }
    var pieces := Split(paramTypePair, ":");
    var paramLabel := pieces[0];
    var typeText := pieces[1];
    if Contains(typeText, "=") {
      var typeAndDefault := Split(typeText, "=");
      param := Some(TypedParameter(paramLabel, typeAndDefault[0], Some(typeAndDefault[1])));
    } else {
      param := Some(TypedParameter(paramLabel, typeText, None));
    }
  }

  /** The signature one `def ` chunk contributes: none without a `->`, none
      when the parameter text mentions `Tuple` or `Union`, and an error when
      the text before the arrow has no `(`. */
  function DefEntry(chunk: string): (r: Result<Option<Signature>, TypeshedError>)
    ensures !Contains(chunk, "->") ==> r == Success(None)
    ensures r.Success? && r.value.Some? ==>
      var head := Split(chunk, "->")[0];
      && Contains(chunk, "->")
      && ParameterText(head).Success?
      && !Contains(ParameterText(head).value, "Tuple")
      && !Contains(ParameterText(head).value, "Union")
      && r.value.value.name == FunctionName(chunk)
      && r.value.value.returnType == Trim(Split(Split(chunk, "->")[1], ":")[0])
      && r.value.value.parameters == Parameters(Split(ParameterText(head).value, ","))
    ensures r.Failure? ==> Contains(chunk, "->") && !Contains(Split(chunk, "->")[0], "(")
    ensures Contains(chunk, "->") && Contains(Split(chunk, "->")[0], "(") ==> r.Success?
    ensures r.Success? && Contains(chunk, "->") ==>
      var params := ParameterText(Split(chunk, "->")[0]);
      && params.Success?
      && (r.value.Some? <==> !Contains(params.value, "Tuple") && !Contains(params.value, "Union"))
  {
    var arrowParts := Split(chunk, "->");
    if |arrowParts| < 2 then Success(None)
    else
      var returnType := Trim(Split(arrowParts[1], ":")[0]);
      match ParameterText(arrowParts[0])
      case Failure(e) => Failure(e)
      case Success(params) =>
        if Contains(params, "Tuple") || Contains(params, "Union") then Success(None)
        else Success(Some(Signature(FunctionName(chunk), Parameters(Split(params, ",")), returnType)))
  }

  /** A definition whose parameters mention `Tuple` or `Union` gives no
      entry. */
  lemma ComplexTypesSkipped(chunk: string)
    requires Contains(chunk, "->")
    requires ParameterText(Split(chunk, "->")[0]).Success?
    requires Contains(ParameterText(Split(chunk, "->")[0]).value, "Tuple")
          || Contains(ParameterText(Split(chunk, "->")[0]).value, "Union")
    ensures DefEntry(chunk) == Success(None)
  {
  }

  /** A character that none of the parser's cuts react to: no bracket,
      comma, colon, equals sign, dash or whitespace. */
  predicate PlainChar(c: char) {
    c != '(' && c != ')' && c != ',' && c != ':' && c != '=' && c != '-' && !IsWhitespace(c)
  }

  predicate Plain(t: string) {
    forall i :: 0 <= i < |t| ==> PlainChar(t[i])
  }

  /** A character of one written parameter. */
  predicate SourceChar(c: char) {
    PlainChar(c) || c == ':' || c == '='
  }

  predicate SourceText(t: string) {
    forall i :: 0 <= i < |t| ==> SourceChar(t[i])
  }

  /** A character of a written parameter list. */
  predicate ListChar(c: char) {
    SourceChar(c) || c == ','
  }

  predicate ListText(t: string) {
    forall i :: 0 <= i < |t| ==> ListChar(t[i])
  }

  /** A parameter whose parts a stub can write down without blanks. */
  predicate Writable(p: TypedParameter) {
    Plain(p.parameterName) && Plain(p.paramType) && (p.defaultValue.Some? ==> Plain(p.defaultValue.value))
  }

  /** A parameter as a stub writes it, without blanks: `label:type` or
      `label:type=default`. */
  function ParameterSource(p: TypedParameter): string {
    p.parameterName + ":" + p.paramType + (if p.defaultValue.Some? then "=" + p.defaultValue.value else "")
  }

  function ParameterSources(ps: seq<TypedParameter>): (texts: seq<string>)
    ensures |texts| == |ps|
    ensures forall k :: 0 <= k < |ps| ==> texts[k] == ParameterSource(ps[k])
    decreases |ps|
  {
    if ps == [] then [] else ParameterSources(ps[..|ps| - 1]) + [ParameterSource(ps[|ps| - 1])]
  }

  /** The head of a written definition: its name and bracketed parameters. */
  function DefHead(funcName: string, ps: seq<TypedParameter>): string {
    funcName + "(" + Join(ParameterSources(ps), ",") + ")"
  }

  /** A definition as a stub writes it: name, bracketed parameters, arrow,
      return type, colon and body. */
  function DefSource(funcName: string, ps: seq<TypedParameter>, returnType: string, body: string): string {
    DefHead(funcName, ps) + "->" + returnType + ":" + body
  }

  /** Reading back a written definition: it gives the entry it was written
      from, when its parts hold none of the parser's separators and its
      parameters mention neither `Tuple` nor `Union`. */
  lemma DefEntryRoundTrip(funcName: string, ps: seq<TypedParameter>, returnType: string, body: string)
    requires Plain(funcName) && Plain(returnType)
    requires forall k :: 0 <= k < |ps| ==> Writable(ps[k])
    requires !Contains(Join(ParameterSources(ps), ","), "Tuple") && !Contains(Join(ParameterSources(ps), ","), "Union")
    ensures DefEntry(DefSource(funcName, ps, returnType, body)) == Success(Some(Signature(funcName, ps, returnType)))
  {
    var params := Join(ParameterSources(ps), ",");
    var head := funcName + "(" + params + ")";
    var tail := returnType + ":" + body;
    var chunk := DefSource(funcName, ps, returnType, body);
    assert chunk == head + "->" + tail by {
      assert DefHead(funcName, ps) == head;
      RegroupTail(head, "->", returnType, ":", body);
    }
    assert Contains(chunk, "->") && Split(chunk, "->")[0] == head
        && Trim(Split(Split(chunk, "->")[1], ":")[0]) == returnType by {
      ListTextOfSources(ps);
      HeadWithoutDash(funcName, params);
      ArrowSplit(head, tail);
      ReturnTypeOfTail(returnType, body);
    }
    assert ParameterText(head) == Success(params) by {
      ListTextOfSources(ps);
      ParameterTextOfHead(funcName, params);
    }
    assert FunctionName(chunk) == funcName by {
      RegroupHead(funcName, "(", params, ")", "->", tail);
      FunctionNameOfDef(funcName, params + ")" + "->" + tail);
    }
    assert Parameters(Split(params, ",")) == ps by {
      ParametersOfList(ps);
    }
    DefEntryOfParts(chunk, head, params, returnType);
  }

  lemma RegroupTail(a: string, b: string, c: string, d: string, e: string)
    ensures a + b + c + d + e == a + b + (c + d + e)
  {
  }

  lemma RegroupHead(a: string, b: string, c: string, d: string, e: string, f: string)
    ensures a + b + c + d + e + f == a + b + (c + d + e + f)
  {
  }

  /** `DefEntry` of a chunk whose arrow, parameter text and return type are
      known. */
  lemma DefEntryOfParts(chunk: string, head: string, params: string, returnType: string)
    requires Contains(chunk, "->") && Split(chunk, "->")[0] == head
    requires Trim(Split(Split(chunk, "->")[1], ":")[0]) == returnType
    requires ParameterText(head) == Success(params)
    requires !Contains(params, "Tuple") && !Contains(params, "Union")
    ensures DefEntry(chunk) == Success(Some(Signature(FunctionName(chunk), Parameters(Split(params, ",")), returnType)))
  {
  }

  lemma SourceTextAppend(a: string, b: string)
    requires SourceText(a) && SourceText(b)
    ensures SourceText(a + b)
  {
    forall i | 0 <= i < |a + b| ensures SourceChar((a + b)[i]) {
      if i >= |a| {
        assert (a + b)[i] == b[i - |a|];
      }
    }
  }

  lemma ListTextAppend(a: string, b: string)
    requires ListText(a) && ListText(b)
    ensures ListText(a + b)
  {
    forall i | 0 <= i < |a + b| ensures ListChar((a + b)[i]) {
      if i >= |a| {
        assert (a + b)[i] == b[i - |a|];
      }
    }
  }

  /** A written parameter holds only its parts, a `:` and maybe a `=`. */
  lemma SourceOfWritable(p: TypedParameter)
    requires Writable(p)
    ensures SourceText(ParameterSource(p))
  {
    var d := if p.defaultValue.Some? then "=" + p.defaultValue.value else "";
    SourceTextAppend(p.parameterName, ":");
    SourceTextAppend(p.parameterName + ":", p.paramType);
    if p.defaultValue.Some? {
      SourceTextAppend("=", p.defaultValue.value);
    }
    SourceTextAppend(p.parameterName + ":" + p.paramType, d);
  }

  lemma {:induction false} JoinListText(parts: seq<string>)
    requires forall k :: 0 <= k < |parts| ==> SourceText(parts[k])
    ensures ListText(Join(parts, ","))
    decreases |parts|
  {
    if |parts| >= 2 {
      JoinListText(parts[1..]);
      ListTextAppend(parts[0], ",");
      ListTextAppend(parts[0] + ",", Join(parts[1..], ","));
    }
  }

  lemma ListTextOfSources(ps: seq<TypedParameter>)
    requires forall k :: 0 <= k < |ps| ==> Writable(ps[k])
    ensures ListText(Join(ParameterSources(ps), ","))
  {
    var texts := ParameterSources(ps);
    forall k | 0 <= k < |texts| ensures SourceText(texts[k]) {
      SourceOfWritable(ps[k]);
    }
    JoinListText(texts);
  }

  /** The head of a written definition holds no `-`. */
  lemma HeadWithoutDash(funcName: string, params: string)
    requires Plain(funcName) && ListText(params)
    ensures forall j :: 0 <= j < |funcName + "(" + params + ")"| ==> (funcName + "(" + params + ")")[j] != '-'
  {
    var head := funcName + "(" + params + ")";
    forall j | 0 <= j < |head| ensures head[j] != '-' {
      if j < |funcName| {
        assert head[j] == funcName[j];
      } else if |funcName| < j < |funcName| + 1 + |params| {
        assert head[j] == params[j - |funcName| - 1];
      }
    }
  }

  /** The first `->` of a written definition follows its head. */
  lemma ArrowSplit(head: string, tail: string)
    requires forall j :: 0 <= j < |head| ==> head[j] != '-'
    ensures Contains(head + "->" + tail, "->")
    ensures Split(head + "->" + tail, "->")[0] == head
    ensures Split(head + "->" + tail, "->")[1] == BeforeFirst(tail, "->")
  {
    var s := head + "->" + tail;
    forall j | 0 <= j < |head| ensures !OccursAt(s, "->", j) {
      if j + 2 <= |s| {
        assert s[j..j + 2][0] == head[j];
      }
    }
    forall j | 0 <= j ensures !OccursAt(head, "->", j) {
      if j + 2 <= |head| {
        assert head[j..j + 2][0] == head[j];
      }
    }
    SplitAtFirst(head, "->", tail);
    ContainsInside(head, "->", tail);
    SplitFirstTwo(tail, "->");
  }

  /** The return type is read back from the text after the arrow. */
  lemma ReturnTypeOfTail(returnType: string, body: string)
    requires Plain(returnType)
    ensures Trim(Split(BeforeFirst(returnType + ":" + body, "->"), ":")[0]) == returnType
  {
    var s := returnType + ":" + body;
    var n := |returnType|;
    forall j | 0 <= j <= n ensures !OccursAt(s, "->", j) {
      if j + 2 <= |s| {
        assert s[j..j + 2][0] == s[j];
      }
    }
    var b := BeforeFirst(s, "->");
    assert |b| > n && b[..n] == returnType && b[n] == ':';
    assert b == returnType + [':'] + b[n + 1..];
    SplitAtChar(returnType, ':', b[n + 1..]);
    assert ":" == [':'];
    TrimNoWhitespace(returnType);
  }

  /** The parameter text of a written head is its parameter list. */
  lemma ParameterTextOfHead(funcName: string, params: string)
    requires Plain(funcName) && ListText(params)
    ensures ParameterText(funcName + "(" + params + ")") == Success(params)
  {
    var head := funcName + "(" + params + ")";
    HeadSplitsAtParen(funcName, params);
    ClosingParenSplit(params);
    assert ReplaceAll(ReplaceAll(params, "\n", ""), " ", "") == params by {
      BlankFreeUnchanged(params);
    }
  }

  lemma HeadSplitsAtParen(funcName: string, params: string)
    requires Plain(funcName) && ListText(params)
    ensures |Split(funcName + "(" + params + ")", "(")| >= 2
    ensures Split(funcName + "(" + params + ")", "(")[1] == params + ")"
  {
    assert "(" == ['('];
    assert funcName + "(" + params + ")" == funcName + ['('] + (params + ")");
    assert '(' !in funcName;
    SplitAtChar(funcName, '(', params + ")");
    assert '(' !in params + ")";
    ContainsChar(params + ")", '(');
    SplitWithout(params + ")", "(");
  }

  lemma ClosingParenSplit(params: string)
    requires ListText(params)
    ensures Split(params + ")", ")")[0] == params
  {
    assert ")" == [')'];
    assert params + ")" == params + [')'] + "";
    assert ')' !in params;
    SplitAtChar(params, ')', "");
  }

  lemma BlankFreeUnchanged(params: string)
    requires ListText(params)
    ensures ReplaceAll(ReplaceAll(params, "\n", ""), " ", "") == params
  {
    assert "\n" == ['\n'] && " " == [' '];
    assert '\n' !in params && ' ' !in params;
    ReplaceAllIsRemoveChar(params, '\n');
    RemoveCharAbsent(params, '\n');
    ReplaceAllIsRemoveChar(params, ' ');
    RemoveCharAbsent(params, ' ');
  }

  /** The function name of a written definition is the name it was
      written with. */
  lemma FunctionNameOfDef(funcName: string, rest: string)
    requires Plain(funcName)
    ensures FunctionName(funcName + "(" + rest) == funcName
  {
    var s := funcName + "(" + rest;
    assert s[|funcName|..|funcName| + 1] == "(";
    forall j | 0 <= j < |funcName| ensures !OccursAt(s, "(", j) {
      assert s[j..j + 1][0] == funcName[j];
    }
    FirstOccurrenceAt(s, "(", |funcName|);
    assert s[..|funcName|] == funcName;
    TrimNoWhitespace(funcName);
  }

  /** The parameters read out of a written parameter list are the ones it
      was written from. */
  lemma ParametersOfList(ps: seq<TypedParameter>)
    requires forall k :: 0 <= k < |ps| ==> Writable(ps[k])
    ensures Parameters(Split(Join(ParameterSources(ps), ","), ",")) == ps
  {
    if ps == [] {
      ParametersOfEmptyList();
    } else {
      var texts := ParameterSources(ps);
      SourcesWithoutComma(ps);
      assert "," == [','];
      SplitJoinChar(texts, ',');
      ParametersOfSources(ps);
    }
  }

  lemma ParametersOfEmptyList()
    ensures Parameters(Split(Join(ParameterSources([]), ","), ",")) == []
  {
    assert Join(ParameterSources([]), ",") == "";
    assert Split("", ",") == [""];
    ParametersSingle("");
  }

  lemma SourcesWithoutComma(ps: seq<TypedParameter>)
    requires forall k :: 0 <= k < |ps| ==> Writable(ps[k])
    ensures forall k :: 0 <= k < |ParameterSources(ps)| ==> ',' !in ParameterSources(ps)[k]
  {
    var texts := ParameterSources(ps);
    forall k | 0 <= k < |texts| ensures ',' !in texts[k] {
      SourceOfWritable(ps[k]);
    }
  }

  /** A written parameter reads back as itself. */
  lemma SourceReadsBack(p: TypedParameter)
    requires Writable(p)
    ensures ParameterOf(ParameterSource(p)) == Some(p)
  {
    ParameterRoundTrip(p.parameterName, p.paramType, p.defaultValue);
  }

  /** A piece that reads as a parameter adds it at the end. */
  lemma ParametersSnoc(pieces: seq<string>, piece: string, p: TypedParameter)
    requires ParameterOf(piece) == Some(p)
    ensures Parameters(pieces + [piece]) == Parameters(pieces) + [p]
  {
    assert (pieces + [piece])[..|pieces|] == pieces;
  }

  /** Every written parameter reads back as itself, in order. */
  predicate AllWritable(ps: seq<TypedParameter>) {
    forall k :: 0 <= k < |ps| ==> Writable(ps[k])
  }

  lemma {:induction false} ParametersOfSources(ps: seq<TypedParameter>)
    requires AllWritable(ps)
    ensures Parameters(ParameterSources(ps)) == ps
    decreases |ps|
  {
    if ps != [] {
      var init := ps[..|ps| - 1];
      var p := ps[|ps| - 1];
      assert ps == init + [p];
      assert AllWritable(init) && Writable(p);
      ParametersOfSources(init);
      ParametersOfSourcesStep(init, p);
    }
  }

  lemma ParametersOfSourcesStep(init: seq<TypedParameter>, p: TypedParameter)
    requires Parameters(ParameterSources(init)) == init && Writable(p)
    ensures Parameters(ParameterSources(init + [p])) == init + [p]
  {
    var t := ParameterSource(p);
    assert (init + [p])[..|init|] == init;
    assert ParameterSources(init + [p]) == ParameterSources(init) + [t];
    SourceReadsBack(p);
    ParametersSnoc(ParameterSources(init), t, p);
  }

  /** The key a signature is stored under. */
  function Key(moduleName: string, funcName: string): string {
    moduleName + "." + funcName
  }

  /** The table after the definitions of one module, taken in order, have
      been added to `info`; a later definition with an earlier one's key
      takes its place. */
  function AddChunks(info: TypeshedInfo, moduleName: string, chunks: seq<string>): Result<TypeshedInfo, TypeshedError>
    decreases |chunks|
  {
    if chunks == [] then Success(info)
    else match AddChunks(info, moduleName, chunks[..|chunks| - 1])
      case Failure(e) => Failure(e)
      case Success(acc) =>
        match DefEntry(chunks[|chunks| - 1])
        case Failure(e) => Failure(e)
        case Success(None) => Success(acc)
        case Success(Some(sig)) => Success(acc[Key(moduleName, sig.name) := sig])
  }

  /** The definitions of a stub text: its pieces after the first `def `. */
  function Definitions(text: string): seq<string> {
    Split(text, "def ")[1..]
  }

  /** The whole table: every file's definitions added in file order. */
  function TypeshedInfoOf(files: seq<(string, string)>): Result<TypeshedInfo, TypeshedError>
    decreases |files|
  {
    if files == [] then Success(map[])
    else match TypeshedInfoOf(files[..|files| - 1])
      case Failure(e) => Failure(e)
      case Success(acc) =>
        var (file, text) := files[|files| - 1];
        AddChunks(acc, ModuleName(file), Definitions(text))
  }

  /** An error part-way through a module stops everything after it. */
  lemma {:induction false} AddChunksFailureStays(info: TypeshedInfo, moduleName: string, chunks: seq<string>, k: nat)
    requires k <= |chunks|
    requires AddChunks(info, moduleName, chunks[..k]).Failure?
    ensures AddChunks(info, moduleName, chunks) == AddChunks(info, moduleName, chunks[..k])
    decreases |chunks| - k
  {
    if k < |chunks| {
      var c := chunks[..k + 1];
      assert c[..k] == chunks[..k];
      AddChunksFailureStays(info, moduleName, chunks, k + 1);
    } else {
      assert chunks[..k] == chunks;
    }
  }

  lemma {:induction false} TypeshedInfoFailureStays(files: seq<(string, string)>, k: nat)
    requires k <= |files|
    requires TypeshedInfoOf(files[..k]).Failure?
    ensures TypeshedInfoOf(files) == TypeshedInfoOf(files[..k])
    decreases |files| - k
  {
    if k < |files| {
      var c := files[..k + 1];
      assert c[..k] == files[..k];
      TypeshedInfoFailureStays(files, k + 1);
    } else {
      assert files[..k] == files;
    }
  }

  /** A stub text without any `def ` adds nothing. */
  lemma TextWithoutDefsAddsNothing(info: TypeshedInfo, moduleName: string, text: string)
    requires !Contains(text, "def ")
    ensures AddChunks(info, moduleName, Definitions(text)) == Success(info)
  {
    SplitWithout(text, "def ");
  }

  /** The text before the first `def ` (the imports) is never parsed: the
      definitions of `preamble + "def " + body` are exactly the pieces of
      `body`. */
  lemma PreambleIgnored(preamble: string, body: string)
    requires IndexOf(preamble + "def " + body, "def ") == Some(|preamble|)
    ensures Definitions(preamble + "def " + body) == Split(body, "def ")
  {
    var s := preamble + "def " + body;
    assert s[|preamble| + 4..] == body;
  }

  /** A chunk that parses and does not store an entry under `key`. */
  predicate KeepsKey(moduleName: string, chunk: string, key: string) {
    DefEntry(chunk).Success? &&
    (DefEntry(chunk).value.Some? ==> Key(moduleName, DefEntry(chunk).value.value.name) != key)
  }

  /** The entry under a definition's key is that definition's signature,
      unless a later definition of the module takes the key. */
  lemma {:induction false} LastDefinitionWins(info: TypeshedInfo, moduleName: string, chunks: seq<string>,
                                               i: nat, sig: Signature)
    requires i < |chunks| && DefEntry(chunks[i]) == Success(Some(sig))
    requires forall j :: i < j < |chunks| ==> KeepsKey(moduleName, chunks[j], Key(moduleName, sig.name))
    requires AddChunks(info, moduleName, chunks).Success?
    ensures Key(moduleName, sig.name) in AddChunks(info, moduleName, chunks).value
    ensures AddChunks(info, moduleName, chunks).value[Key(moduleName, sig.name)] == sig
    decreases |chunks|
  {
    var prefix := chunks[..|chunks| - 1];
    var last := chunks[|chunks| - 1];
    AddChunksStep(info, moduleName, chunks);
    if i < |chunks| - 1 {
      assert forall j :: i < j < |prefix| ==> prefix[j] == chunks[j];
      LastDefinitionWins(info, moduleName, prefix, i, sig);
      assert KeepsKey(moduleName, last, Key(moduleName, sig.name));
      KeptKeyStays(AddChunks(info, moduleName, prefix).value, moduleName, last, Key(moduleName, sig.name), sig);
    } else {
      assert last == chunks[i];
    }
  }

  /** A chunk that keeps `key` leaves the entry under it in place. */
  lemma KeptKeyStays(acc: TypeshedInfo, moduleName: string, chunk: string, key: string, sig: Signature)
    requires KeepsKey(moduleName, chunk, key) && key in acc && acc[key] == sig
    ensures var entry := DefEntry(chunk).value;
      var next := if entry.Some? then acc[Key(moduleName, entry.value.name) := entry.value] else acc;
      key in next && next[key] == sig
  {
  }

  /** One step of `AddChunks` on a table that it builds without error:
      the table of all but the last chunk, with the last chunk's entry
      added if it has one. */
  lemma AddChunksStep(info: TypeshedInfo, moduleName: string, chunks: seq<string>)
    requires chunks != [] && AddChunks(info, moduleName, chunks).Success?
    ensures AddChunks(info, moduleName, chunks[..|chunks| - 1]).Success?
    ensures DefEntry(chunks[|chunks| - 1]).Success?
    ensures var acc := AddChunks(info, moduleName, chunks[..|chunks| - 1]).value;
      var entry := DefEntry(chunks[|chunks| - 1]).value;
      AddChunks(info, moduleName, chunks).value ==
        if entry.Some? then acc[Key(moduleName, entry.value.name) := entry.value] else acc
  {
  }

  /** The table is built by a loop over the files and, inside it, a loop
      over each file's definitions; the first error aborts it. */
  method TypeshedJsonToMap(files: seq<(string, string)>) returns (r: Result<TypeshedInfo, TypeshedError>)
    ensures r == TypeshedInfoOf(files)
  {
    var ret: TypeshedInfo := map[];
    var f := 0;
    while f < |files|
      invariant 0 <= f <= |files|
      invariant TypeshedInfoOf(files[..f]) == Success(ret)
    {
      var (file, typeInfo) := files[f];
      assert files[..f + 1][..f] == files[..f];
      var added := AddDefinitions(ret, ModuleName(file), Split(typeInfo, "def "));
      if added.Failure? {
        TypeshedInfoFailureStays(files, f + 1);
        return Failure(added.error);
      }
      ret := added.value;
      f := f + 1;
    }
    assert files[..f] == files;
    r := Success(ret);
  }

  /** The inner loop: the definitions of one file, the piece before the
      first `def ` skipped, added to the table in order. */
  method AddDefinitions(ret: TypeshedInfo, moduleName: string, functions: seq<string>)
    returns (r: Result<TypeshedInfo, TypeshedError>)
    requires |functions| >= 1
    ensures r == AddChunks(ret, moduleName, functions[1..])
  {
    var defs := functions[1..];
    var acc := ret;
    var k := 0;
    assert defs[..0] == [];
    while k < |defs|
      invariant 0 <= k <= |defs|
      invariant AddChunks(ret, moduleName, defs[..k]) == Success(acc)
    {
      var currentDef := defs[k];
      var entry := ParseDefinition(currentDef);
      AddChunksNext(ret, moduleName, defs, k, acc);
      match entry {
        case Failure(e) =>
          AddChunksFailureStays(ret, moduleName, defs, k + 1);
          return Failure(e);
        case Success(None) =>
        case Success(Some(sign)) =>
          acc := acc[moduleName + "." + sign.name := sign];
      }
      k := k + 1;
    }
    assert defs[..k] == defs;
    r := Success(acc);
  }

  /** The table after one more definition of `chunks`. */
  lemma AddChunksNext(info: TypeshedInfo, moduleName: string, chunks: seq<string>, k: nat, acc: TypeshedInfo)
    requires k < |chunks| && AddChunks(info, moduleName, chunks[..k]) == Success(acc)
    ensures AddChunks(info, moduleName, chunks[..k + 1]) ==
      match DefEntry(chunks[k])
      case Failure(e) => Failure(e)
      case Success(None) => Success(acc)
      case Success(Some(sig)) => Success(acc[Key(moduleName, sig.name) := sig])
  {
    var next := chunks[..k + 1];
    assert next[..|next| - 1] == chunks[..k];
    assert next[|next| - 1] == chunks[k];
  }

  /** One definition's signature, computed as the loop body does. */
  method ParseDefinition(currentDef: string) returns (r: Result<Option<Signature>, TypeshedError>)
    ensures r == DefEntry(currentDef)
  {
    var funcName := Trim(Split(currentDef, "(")[0]);
    var arrowParts := Split(currentDef, "->");
    if |arrowParts| < 2 {
      return Success(None);
    }
    var returnType := Trim(Split(arrowParts[1], ":")[0]);
    var params := ParameterText(arrowParts[0]);
    if params.Failure? {
      return Failure(params.error);
    }
    if Contains(params.value, "Tuple") || Contains(params.value, "Union") {
      return Success(None);
    }
    var paramsList := ParseParameters(params.value);
    r := Success(Some(Signature(funcName, paramsList, returnType)));
  }
}
