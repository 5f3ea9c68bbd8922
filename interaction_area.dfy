/** The interaction panel for the call on the cursor's line: the name the
    call is known by, the signature its arguments are edited against, and
    the edit that writes a changed argument back into the document. */
module InteractionArea {
  import opened Wrappers
  import opened JsStrings
  import opened JsNumbers
  import opened TypeshedTable
  import opened ReactWidget

  /** `module.name` when the call names a (non-empty) module, else `name`. */
  function QualifiedName(call: CallInfo): (q: string)
    ensures IsTruthy(call.moduleName) ==> StartsWith(q, call.moduleName.value + ".")
    ensures |q| >= |call.name| && q[|q| - |call.name|..] == call.name
    ensures !IsTruthy(call.moduleName) ==> q == call.name
  {
    if IsTruthy(call.moduleName) then
      var q := call.moduleName.value + "." + call.name;
      assert q[..|call.moduleName.value + "."|] == call.moduleName.value + ".";
      assert q[|q| - |call.name|..] == call.name;
      q
    else call.name
  }

  /** Splitting the qualified name at its dots gives back the module and
      the function name, when neither holds a dot itself. */
  lemma QualifiedNameSplits(call: CallInfo)
    requires '.' !in call.name
    requires call.moduleName.Some? ==> '.' !in call.moduleName.value
    ensures IsTruthy(call.moduleName) ==> Split(QualifiedName(call), ".") == [call.moduleName.value, call.name]
    ensures !IsTruthy(call.moduleName) ==> Split(QualifiedName(call), ".") == [call.name]
  {
    assert "." == ['.'];
    if IsTruthy(call.moduleName) {
      var parts := [call.moduleName.value, call.name];
      assert Join(parts, ".") == call.moduleName.value + "." + call.name by {
        JoinCons(parts, ".");
        assert parts[1..] == [call.name];
      }
      SplitJoinChar(parts, '.');
    } else {
      SplitJoinChar([call.name], '.');
    }
  }

  const BuiltinsModule := "stdlib.builtins"
  const MicrobitModule := "stdlib.microbit"

  /** The signature a call is edited against: the builtins entry for the
      qualified name, else the micro:bit entry, else one inferred from the
      call's own arguments (`inferred`) with return type `any`. */
  function LookupSignature(table: TypeshedInfo, q: string, inferred: seq<TypedParameter>): (sig: Signature)
    ensures Key(BuiltinsModule, q) in table ==> sig == table[Key(BuiltinsModule, q)]
    ensures Key(BuiltinsModule, q) !in table && Key(MicrobitModule, q) in table ==>
      sig == table[Key(MicrobitModule, q)]
    ensures sig in table.Values || sig == Signature(q, inferred, "any")
  {
    if Key(BuiltinsModule, q) in table then table[Key(BuiltinsModule, q)]
    else if Key(MicrobitModule, q) in table then table[Key(MicrobitModule, q)]
    else Signature(q, inferred, "any")
  }

  /** The signature is inferred exactly when neither standard module has
      an entry for the name, and then it carries the name and the inferred
      parameters; the inferred parameters play no part otherwise. */
  lemma InferredOnlyWhenMissing(table: TypeshedInfo, q: string, inferred: seq<TypedParameter>,
                                other: seq<TypedParameter>)
    ensures Key(BuiltinsModule, q) !in table && Key(MicrobitModule, q) !in table ==>
      LookupSignature(table, q, inferred) == Signature(q, inferred, "any")
    ensures Key(BuiltinsModule, q) in table || Key(MicrobitModule, q) in table ==>
      LookupSignature(table, q, inferred) == LookupSignature(table, q, other)
  {
  }

  /** A definition parsed from the builtins stubs, and not overridden by a
      later definition of the same name there, is the signature every call
      of that name is edited against. */
  lemma ParsedBuiltinIsFound(info: TypeshedInfo, chunks: seq<string>, i: nat, sig: Signature,
                             inferred: seq<TypedParameter>)
    requires i < |chunks| && DefEntry(chunks[i]) == Success(Some(sig))
    requires forall j :: i < j < |chunks| ==> KeepsKey(BuiltinsModule, chunks[j], Key(BuiltinsModule, sig.name))
    requires AddChunks(info, BuiltinsModule, chunks).Success?
    ensures LookupSignature(AddChunks(info, BuiltinsModule, chunks).value, sig.name, inferred) == sig
  {
    LastDefinitionWins(info, BuiltinsModule, chunks, i, sig);
  }

  /** What an editor hands to the change handler: text from the image,
      sound and text editors, a number from a slider. */
  datatype ArgumentValue = Text(text: string) | Number(n: JsNumber)

  /** `val.toString()` */
  function ValueText(val: ArgumentValue): string {
    match val
    case Text(s) => s
    case Number(n) => NumberToString(n)
  }

  /** The copy of the argument list with position `i` replaced. */
  function ChangedArguments(args: seq<string>, i: nat, text: string): (r: seq<string>)
    requires i < |args|
    ensures |r| == |args| && r[i] == text
    ensures forall j :: 0 <= j < |args| && j != i ==> r[j] == args[j]
  {
    args[i := text]
  }

  /** Two argument lists of the same length that differ at most at `i`
      are related by a change of `i`: the change is determined by its
      position and new text. */
  lemma ChangedArgumentsUnique(args: seq<string>, i: nat, text: string, r: seq<string>)
    requires i < |args|
    requires |r| == |args| && r[i] == text
    requires forall j :: 0 <= j < |args| && j != i ==> r[j] == args[j]
    ensures r == ChangedArguments(args, i, text)
  {
  }

  /** Writing the old text back undoes a change, and a second change of
      the same position replaces the first. */
  lemma {:induction false} ChangeUndone(args: seq<string>, i: nat, text: string, text2: string)
    requires i < |args|
    ensures ChangedArguments(ChangedArguments(args, i, text), i, args[i]) == args
    ensures ChangedArguments(ChangedArguments(args, i, text), i, text2) == ChangedArguments(args, i, text2)
  {
    ChangedArgumentsUnique(args, i, args[i], ChangedArguments(ChangedArguments(args, i, text), i, args[i]));
    ChangedArgumentsUnique(args, i, text2, ChangedArguments(ChangedArguments(args, i, text), i, text2));
  }

  /** `onChangeHandler(i)(val)`: the edit that rewrites the call's
      argument list with argument `i` set to the value's text. */
  function OnChange(info: LineInfo, i: nat, val: ArgumentValue): (c: Change)
    requires i < |info.callInfo.arguments|
    ensures c.from == info.argListFrom && c.to == info.argListTo
    ensures c.insert == "(" + Join(ChangedArguments(info.callInfo.arguments, i, ValueText(val)), ", ") + ")"
  {
    ArgumentUpdate(info, ChangedArguments(info.callInfo.arguments, i, ValueText(val)))
  }

  /** After the edit the document keeps everything outside the argument
      list, which now holds the old arguments with only position `i`
      changed, and a number chosen on a slider reads back as that number. */
  lemma OnChangeRewritesOneArgument(doc: string, info: LineInfo, i: nat, val: ArgumentValue)
    requires i < |info.callInfo.arguments|
    requires 0 <= info.argListFrom <= info.argListTo <= |doc|
    ensures var args := ChangedArguments(info.callInfo.arguments, i, ValueText(val));
      var r := ApplyChange(doc, OnChange(info, i, val));
      var n := |OnChange(info, i, val).insert|;
      && r[..info.argListFrom] == doc[..info.argListFrom]
      && r[info.argListFrom + n..] == doc[info.argListTo..]
      && r[info.argListFrom..info.argListFrom + n] == "(" + Join(args, ", ") + ")"
    ensures val.Number? ==>
      ParseNumber(ChangedArguments(info.callInfo.arguments, i, ValueText(val))[i]) == val.n
  {
    ArgumentUpdateOnlyTouchesArgList(doc, info, ChangedArguments(info.callInfo.arguments, i, ValueText(val)));
    if val.Number? {
      NumberRoundTrip(val.n);
    }
  }
}
