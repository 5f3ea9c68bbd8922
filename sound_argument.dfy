/** The sound-effect argument of a call: the panel reads the named
    arguments of a `SoundEffect(...)` call into a sound record, lets the user
    change its fields, and writes the record back as a call of
    `audio.SoundEffect` with named arguments. */
module SoundArgument {
  import opened Wrappers
  import opened JsStrings
  import opened JsNumbers

  /** A field value: an enumeration member's name (for `fx`, `waveform` and
      `shape`) or a number. */
  datatype SoundValue = Name(name: string) | Num(n: JsNumber)

  /** A sound record: its fields in the order they were first assigned,
      which is the order `Object.entries` lists them in. */
  type Sound = seq<(string, SoundValue)>

  /** The fields whose values the parser reads as enumeration members. */
  const EnumFields: seq<string> := ["fx", "waveform", "shape"]

  /** The fields whose values the serialiser qualifies with
      `audio.SoundEffect.`. */
  const QualifiedFields: seq<string> := ["fx", "shape", "waveform"]

  /** Both lists name the same three fields. */
  lemma EnumFieldsAreQualified(key: string)
    ensures key in EnumFields <==> key in QualifiedFields
  {
  }

  /** The position of field `key`, if the record has it. */
  function FindField(sound: Sound, key: string): (r: Option<nat>)
    ensures r.Some? ==> r.value < |sound| && sound[r.value].0 == key
    ensures r.Some? ==> forall j :: 0 <= j < r.value ==> sound[j].0 != key
    ensures r.None? ==> forall j :: 0 <= j < |sound| ==> sound[j].0 != key
  {
    if sound == [] then None
    else if sound[0].0 == key then Some(0)
    else match FindField(sound[1..], key)
      case None => None
      case Some(i) => Some(i + 1)
  }

  function Keys(sound: Sound): set<string> {
    set j | 0 <= j < |sound| :: sound[j].0
  }

  predicate DistinctKeys(sound: Sound) {
    forall i, j :: 0 <= i < j < |sound| ==> sound[i].0 != sound[j].0
  }

  /** `sound[key]` */
  function Lookup(sound: Sound, key: string): (v: Option<SoundValue>)
    ensures v.Some? <==> key in Keys(sound)
    ensures v.Some? ==> (key, v.value) in sound
  {
    match FindField(sound, key)
    case None => None
    case Some(i) => Some(sound[i].1)
  }

  /** With distinct keys, the value looked up is the one of the field
      holding the key. */
  lemma LookupOfDistinct(sound: Sound, i: nat)
    requires DistinctKeys(sound) && i < |sound|
    ensures Lookup(sound, sound[i].0) == Some(sound[i].1)
  {
    var j := FindField(sound, sound[i].0).value;
    assert j == i;
  }

  /** `sound[key] = value`: a field the record has is overwritten where it
      stands; a new field goes last. */
  function SetField(sound: Sound, key: string, value: SoundValue): (r: Sound)
    ensures Keys(r) == Keys(sound) + {key}
    ensures Lookup(r, key) == Some(value)
    ensures forall k :: k != key ==> Lookup(r, k) == Lookup(sound, k)
    ensures DistinctKeys(sound) ==> DistinctKeys(r)
    ensures key !in Keys(sound) ==> r == sound + [(key, value)]
    ensures forall j :: 0 <= j < |r| ==> r[j] == (key, value) || r[j] in sound
  {
    match FindField(sound, key)
    case None =>
      var r := sound + [(key, value)];
      assert Keys(r) == Keys(sound) + {key} by {
        forall x | x in Keys(r) ensures x in Keys(sound) + {key} {
          var j :| 0 <= j < |r| && r[j].0 == x;
          if j < |sound| {
            assert sound[j].0 == x;
          }
        }
        forall x | x in Keys(sound) ensures x in Keys(r) {
          var j :| 0 <= j < |sound| && sound[j].0 == x;
          assert r[j].0 == x;
        }
        assert r[|sound|].0 == key;
      }
      forall k | k != key ensures FindField(r, k) == FindField(sound, k) {
        SameKeysFindField(sound, r, k);
      }
      r
    case Some(i) =>
      var r := sound[i := (key, value)];
      assert Keys(r) == Keys(sound) by {
        forall x | x in Keys(r) ensures x in Keys(sound) {
          var j :| 0 <= j < |r| && r[j].0 == x;
          assert sound[j].0 == x;
        }
        forall x | x in Keys(sound) ensures x in Keys(r) {
          var j :| 0 <= j < |sound| && sound[j].0 == x;
          assert r[j].0 == x;
        }
      }
      forall k ensures FindField(r, k) == FindField(sound, k) {
        SameKeysFindField(sound, r, k);
      }
      r
  }

  /** Records whose first fields are named alike find a field named `k` at
      the same place, when either has it among those fields. */
  lemma SameKeysFindField(a: Sound, b: Sound, k: string)
    requires |a| <= |b|
    requires forall j :: 0 <= j < |a| ==> a[j].0 == b[j].0
    requires |a| < |b| ==> forall j :: |a| <= j < |b| ==> b[j].0 != k
    ensures FindField(a, k) == FindField(b, k)
  {
  }

  /** `raw.split(".").slice(-1)[0]`: the text after the last dot. */
  function Extract(raw: string): (r: string)
    ensures !Contains(r, ".")
    ensures exists k :: 0 <= k <= |raw| && r == raw[k..] && (k == 0 || raw[k - 1] == '.')
  {
    var parts := Split(raw, ".");
    SplitPiecesFree(raw, ".");
    assert "." == ['.'];
    SplitLastSuffix(raw, '.');
    parts[|parts| - 1]
  }

  /** The field a trimmed argument assigns: only a named argument `key=val`
      assigns one; the enumeration fields keep the text after the last dot
      of `val`, the others its number. */
  function ArgEntry(arg: string): (e: Option<(string, SoundValue)>)
    ensures e.Some? <==> Contains(arg, "=")
    ensures e.Some? ==> (e.value.0 in EnumFields <==> e.value.1.Name?)
    ensures e.Some? && e.value.1.Name? ==> !Contains(e.value.1.name, ".")
    ensures e.Some? ==> !Contains(e.value.0, "=")
    ensures e.Some? ==> e.value.0 == arg[..IndexOf(arg, "=").value]
    ensures e.Some? ==>
      var val := BeforeFirst(arg[IndexOf(arg, "=").value + 1..], "=");
      && (e.value.0 in EnumFields ==> e.value.1 == Name(Extract(val)))
      && (e.value.0 !in EnumFields ==> e.value.1 == Num(ParseNumber(val)))
  {
    if Contains(arg, "=") then
      var parts := Split(arg, "=");
      SplitPiecesFree(arg, "=");
      SplitFirstTwo(arg, "=");
      var key := parts[0];
      var val := parts[1];
      Some((key, if key in EnumFields then Name(Extract(val)) else Num(ParseNumber(val))))
    else None
  }

  /** `pieces.map(e => e.trim())` */
  function TrimAll(pieces: seq<string>): (r: seq<string>)
    ensures |r| == |pieces|
    ensures forall k :: 0 <= k < |pieces| ==> r[k] == Trim(pieces[k])
  {
    if pieces == [] then [] else [Trim(pieces[0])] + TrimAll(pieces[1..])
  }

  /** The arguments of the call whose `SoundEffect(` starts at
      `firstParen`: the text after it up to the last character, split on
      commas, each piece trimmed. */
  function SoundArgs(soundStr: string, firstParen: nat): seq<string> {
    TrimAll(Split(Slice(soundStr, firstParen + |"SoundEffect("|, -1), ","))
  }

  /** One argument applied to the record. */
  function Assign(sound: Sound, arg: string): Sound {
    match ArgEntry(arg)
    case None => sound
    case Some(e) => SetField(sound, e.0, e.1)
  }

  /** The arguments applied in order. */
  function Assigned(sound: Sound, args: seq<string>): Sound
    decreases |args|
  {
    if args == [] then sound else Assign(Assigned(sound, args[..|args| - 1]), args[|args| - 1])
  }

  /** A field as the parser produces it: an enumeration field holds a name
      without dots, any other field a number. */
  predicate EntryWellTyped(e: (string, SoundValue)) {
    (e.0 in EnumFields <==> e.1.Name?) && (e.1.Name? ==> !Contains(e.1.name, "."))
  }

  predicate WellTyped(sound: Sound) {
    DistinctKeys(sound) && forall j :: 0 <= j < |sound| ==> EntryWellTyped(sound[j])
  }

  lemma {:induction false} AssignedWellTyped(sound: Sound, args: seq<string>)
    requires WellTyped(sound)
    ensures WellTyped(Assigned(sound, args))
    decreases |args|
  {
    if args != [] {
      AssignedWellTyped(sound, args[..|args| - 1]);
    }
  }

  /** The record `parseSound` builds: empty when the text has no
      `SoundEffect(`, otherwise the fields its named arguments assign. */
  function SoundOf(soundStr: string): (r: Sound)
    ensures IndexOf(soundStr, "SoundEffect(").None? ==> r == []
    ensures WellTyped(r)
  {
    match IndexOf(soundStr, "SoundEffect(")
    case None => []
    case Some(firstParen) =>
      AssignedWellTyped([], SoundArgs(soundStr, firstParen));
      Assigned([], SoundArgs(soundStr, firstParen))
  }

  /** `parseSound`: no record fields without `SoundEffect(`, otherwise the
      fields its arguments assign. */
  method ParseSound(soundStr: string) returns (soundObj: Sound)
    ensures soundObj == SoundOf(soundStr)
  {
    var firstParen := IndexOf(soundStr, "SoundEffect(");
    if firstParen.None? {
      return [];
    }
    soundObj := AssignArguments(SoundArgs(soundStr, firstParen.value));
  }

  /** The loop of `parseSound`: each `key=value` argument, in order, sets
      its field of the record. */
  method AssignArguments(soundArgs: seq<string>) returns (soundObj: Sound)
    ensures soundObj == Assigned([], soundArgs)
  {
    soundObj := [];
    for k := 0 to |soundArgs|
      invariant soundObj == Assigned([], soundArgs[..k])
    {
      var arg := soundArgs[k];
      assert Assigned([], soundArgs[..k + 1]) == Assign(soundObj, arg) by {
        assert soundArgs[..k + 1][..k] == soundArgs[..k];
      }
      if Contains(arg, "=") {
        var parts := Split(arg, "=");
        var key := parts[0];
        var val := parts[1];
        soundObj := SetField(soundObj, key, if key in EnumFields then Name(Extract(val)) else Num(ParseNumber(val)));
      }
    }
    assert soundArgs[..|soundArgs|] == soundArgs;
  }

  /** The fields the named arguments among `args` assign. */
  function ArgKeys(args: seq<string>): (keys: set<string>)
    decreases |args|
  {
    if args == [] then {}
    else
      var last := args[|args| - 1];
      ArgKeys(args[..|args| - 1]) + (if ArgEntry(last).Some? then {ArgEntry(last).value.0} else {})
  }

  /** The record's fields are exactly those it started with and those its
      named arguments assign. */
  lemma {:induction false} AssignedKeys(sound: Sound, args: seq<string>)
    ensures Keys(Assigned(sound, args)) == Keys(sound) + ArgKeys(args)
    decreases |args|
  {
    if args != [] {
      AssignedKeys(sound, args[..|args| - 1]);
    }
  }

  /** A later argument naming the same field overrides an earlier one. */
  lemma LastArgumentWins(sound: Sound, args: seq<string>, arg: string)
    requires ArgEntry(arg).Some?
    ensures Lookup(Assigned(sound, args + [arg]), ArgEntry(arg).value.0) == Some(ArgEntry(arg).value.1)
  {
    assert (args + [arg])[..|args|] == args;
  }

  /** A field's text inside the call. */
  function ValueText(v: SoundValue): string {
    match v
    case Name(s) => s
    case Num(n) => NumberToString(n)
  }

  /** One named argument of the written call; the enumeration fields are
      qualified so that they resolve without an import. */
  function EntryText(e: (string, SoundValue)): string {
    e.0 + "=" + (if e.0 in QualifiedFields then "audio.SoundEffect." + ValueText(e.1) else ValueText(e.1))
  }

  function EntryTexts(sound: Sound): (texts: seq<string>)
    ensures |texts| == |sound|
    ensures forall j :: 0 <= j < |sound| ==> texts[j] == EntryText(sound[j])
  {
    seq(|sound|, j requires 0 <= j < |sound| => EntryText(sound[j]))
  }

  /** The argument text written back for a record: its fields as named
      arguments, in order, separated by `", "`, in a call of
      `audio.SoundEffect`. */
  function SoundText(sound: Sound): string {
    "audio.SoundEffect(" + Join(EntryTexts(sound), ", ") + ")"
  }

  /** Text that keeps its place in the written argument list: no comma and
      no whitespace. */
  predicate Bare(s: string) {
    forall i :: 0 <= i < |s| ==> s[i] != ',' && !IsWhitespace(s[i])
  }

  /** A key or value that also reads back from its named argument: bare and
      without `=`. */
  predicate Plain(s: string) {
    Bare(s) && forall i :: 0 <= i < |s| ==> s[i] != '='
  }

  lemma BareAppend(a: string, b: string)
    requires Bare(a) && Bare(b)
    ensures Bare(a + b)
  {
    forall i | 0 <= i < |a + b| ensures (a + b)[i] != ',' && !IsWhitespace((a + b)[i]) {
      if i >= |a| {
        assert (a + b)[i] == b[i - |a|];
      }
    }
  }

  /** A record the serialiser and parser agree on: parser-shaped fields with
      plain names and values. */
  predicate Serialisable(sound: Sound) {
    && WellTyped(sound)
    && (forall j :: 0 <= j < |sound| ==> Plain(sound[j].0))
    && (forall j :: 0 <= j < |sound| ==> sound[j].1.Name? ==> Plain(sound[j].1.name))
  }

  /** A number's text is digits, `-` or `NaN`. */
  lemma NumberTextPlain(n: JsNumber)
    ensures Plain(NumberToString(n))
    ensures !Contains(NumberToString(n), "=")
  {
    var s := NumberToString(n);
    match n
    case Int(i) =>
      if i < 0 {
        assert s == "-" + NatToString(-i);
        assert forall k :: 1 <= k < |s| ==> IsDigit(s[k]) by {
          assert forall k :: 1 <= k < |s| ==> s[k] == NatToString(-i)[k - 1];
        }
      }
    case NaN =>
    ContainsChar(s, '=');
    assert "=" == ['='];
  }

  lemma EntryTextBare(e: (string, SoundValue))
    requires Plain(e.0) && (e.1.Name? ==> Plain(e.1.name))
    ensures Bare(EntryText(e))
  {
    if e.1.Num? {
      NumberTextPlain(e.1.n);
    }
    var q := "audio.SoundEffect.";
    assert Bare(q) by {
      assert forall i :: 0 <= i < |q| ==> q[i] == '.' || 'A' <= q[i] <= 'z';
    }
    assert Bare("=");
    BareAppend(q, ValueText(e.1));
    BareAppend(e.0, "=");
    BareAppend(e.0 + "=", if e.0 in QualifiedFields then q + ValueText(e.1) else ValueText(e.1));
  }

  /** Text without whitespace is what `trim` leaves of it, with or without a
      space in front. */
  lemma TrimSpaced(t: string)
    requires forall i :: 0 <= i < |t| ==> !IsWhitespace(t[i])
    ensures Trim(t) == t
    ensures Trim(" " + t) == t
  {
    TrimNoWhitespace(t);
    var s := " " + t;
    assert s[1..] == t;
    assert LeadingWhitespace(t) == 0;
    assert LeadingWhitespace(s) == 1;
    assert TrailingWhitespace(t) == 0;
  }

  /** The first piece of the written list, and the rest after its comma. */
  lemma SplitFirstPiece(pad: string, first: string, rest: string)
    requires ',' !in pad + first
    ensures Split(pad + first + (", " + rest), ",") == [pad + first] + Split(" " + rest, ",")
  {
    assert "," == [','];
    assert pad + first + (", " + rest) == (pad + first) + [','] + (" " + rest);
    SplitAtChar(pad + first, ',', " " + rest);
  }

  lemma TrimPadded(pad: string, t: string)
    requires pad == "" || pad == " "
    requires Bare(t)
    ensures Trim(pad + t) == t
    ensures ',' !in pad + t
  {
    assert ',' !in t by {
      assert forall i :: 0 <= i < |t| ==> t[i] != ',';
    }
    assert Bare(t) ==> forall i :: 0 <= i < |t| ==> !IsWhitespace(t[i]);
    TrimSpaced(t);
    if pad == "" {
      assert pad + t == t;
    } else {
      assert pad + t == [' '] + t;
    }
  }

  /** The first piece of the written list trims back to its text. */
  lemma TrimmedFirst(pad: string, t: string, rest: string)
    requires pad == "" || pad == " "
    requires Bare(t)
    ensures TrimAll(Split(pad + t + (", " + rest), ",")) == [t] + TrimAll(Split(" " + rest, ","))
  {
    TrimPadded(pad, t);
    SplitFirstPiece(pad, t, rest);
  }

  lemma TrimmedLast(pad: string, t: string)
    requires pad == "" || pad == " "
    requires Bare(t)
    ensures TrimAll(Split(pad + t, ",")) == [t]
  {
    TrimPadded(pad, t);
    assert "," == [','];
    ContainsChar(pad + t, ',');
    SplitWithout(pad + t, ",");
  }

  /** One step of the list: the first piece is split off and the rest is
      read as before. */
  lemma TrimmedCons(first: string, more: seq<string>, pad: string)
    requires |more| >= 1 && (pad == "" || pad == " ")
    requires Bare(first)
    requires TrimAll(Split(" " + Join(more, ", "), ",")) == more
    ensures TrimAll(Split(pad + Join([first] + more, ", "), ",")) == [first] + more
  {
    var rest := Join(more, ", ");
    JoinPrepend(first, more, ", ");
    assert pad + (first + (", " + rest)) == pad + first + (", " + rest);
    TrimmedFirst(pad, first, rest);
  }

  /** The list written with `", "` splits on `,` and trims back into its
      pieces. */
  lemma {:induction false} TrimmedPieces(texts: seq<string>, pad: string)
    requires |texts| >= 1 && (pad == "" || pad == " ")
    requires forall k :: 0 <= k < |texts| ==> Bare(texts[k])
    ensures TrimAll(Split(pad + Join(texts, ", "), ",")) == texts
    decreases |texts|
  {
    if |texts| == 1 {
      TrimmedLast(pad, texts[0]);
    } else {
      TrimmedPieces(texts[1..], " ");
      TrimmedCons(texts[0], texts[1..], pad);
      assert [texts[0]] + texts[1..] == texts;
    }
  }

  /** A named argument with plain key and value splits at its `=`. */
  lemma SplitKeyValue(key: string, rest: string)
    requires '=' !in key && '=' !in rest
    ensures Contains(key + "=" + rest, "=")
    ensures Split(key + "=" + rest, "=") == [key, rest]
  {
    assert "=" == ['='];
    ContainsInside(key, "=", rest);
    SplitAtChar(key, '=', rest);
    ContainsChar(rest, '=');
    SplitWithout(rest, "=");
  }

  /** The qualified name of an enumeration member reads back as the member. */
  lemma ExtractQualified(v: string)
    requires !Contains(v, ".")
    ensures Extract("audio.SoundEffect." + v) == v
  {
    assert "." == ['.'];
    ContainsChar(v, '.');
    assert "audio.SoundEffect." + v == "audio.SoundEffect" + ['.'] + v;
    SplitSnoc("audio.SoundEffect", '.', v);
  }

  /** A written named argument reads back as the field it was written from. */
  lemma EntryRoundTrip(e: (string, SoundValue))
    requires EntryWellTyped(e) && Plain(e.0) && (e.1.Name? ==> Plain(e.1.name))
    ensures ArgEntry(EntryText(e)) == Some(e)
  {
    var key := e.0;
    assert '=' !in key;
    if key in QualifiedFields {
      var v := e.1.name;
      assert '=' !in v;
      assert '=' !in "audio.SoundEffect." + v;
      SplitKeyValue(key, "audio.SoundEffect." + v);
      ExtractQualified(v);
    } else {
      var n := e.1.n;
      NumberTextPlain(n);
      assert '=' !in NumberToString(n);
      SplitKeyValue(key, NumberToString(n));
      NumberRoundTrip(n);
    }
  }

  /** The named arguments written for a record rebuild it field by field. */
  lemma SerialisablePrefix(sound: Sound, n: nat)
    requires Serialisable(sound) && n <= |sound|
    ensures Serialisable(sound[..n])
  {
    assert forall j :: 0 <= j < n ==> sound[..n][j] == sound[j];
  }

  lemma LastKeyFresh(sound: Sound)
    requires DistinctKeys(sound) && sound != []
    ensures sound[|sound| - 1].0 !in Keys(sound[..|sound| - 1])
  {
  }

  lemma {:induction false} AssignedEntries(sound: Sound)
    requires Serialisable(sound)
    ensures Assigned([], EntryTexts(sound)) == sound
    decreases |sound|
  {
    if sound != [] {
      var n := |sound| - 1;
      LastEntryReadsBack(sound);
      AssignedEntries(sound[..n]);
      EntryTextsSnoc(sound);
      AssignedSnoc(EntryTexts(sound[..n]), EntryText(sound[n]), sound[..n], sound[n]);
      PrefixAndLast(sound);
    }
  }

  lemma EntryTextsSnoc(sound: Sound)
    requires sound != []
    ensures var n := |sound| - 1; EntryTexts(sound) == EntryTexts(sound[..n]) + [EntryText(sound[n])]
  {
  }

  lemma PrefixAndLast<T>(s: seq<T>)
    requires s != []
    ensures s[..|s| - 1] + [s[|s| - 1]] == s
  {
  }

  /** One more argument, assigning a key the record read so far lacks,
      appends its field to that record. */
  lemma AssignedSnoc(texts: seq<string>, text: string, init: Sound, e: (string, SoundValue))
    requires Assigned([], texts) == init && ArgEntry(text) == Some(e) && e.0 !in Keys(init)
    ensures Assigned([], texts + [text]) == init + [e]
  {
    assert (texts + [text])[..|texts|] == texts;
    AssignedFreshArgument(Assigned([], texts), init, text, e);
  }

  /** An argument assigning a new key, applied to a record, appends its
      field. */
  lemma AssignedFreshArgument(before: Sound, init: Sound, text: string, e: (string, SoundValue))
    requires before == init && ArgEntry(text) == Some(e) && e.0 !in Keys(init)
    ensures Assign(before, text) == init + [e]
  {
  }

  /** The last field of a writable record reads back from its text, its key
      is new to the fields before it, and those fields are writable. */
  lemma LastEntryReadsBack(sound: Sound)
    requires Serialisable(sound) && sound != []
    ensures var n := |sound| - 1;
      && ArgEntry(EntryText(sound[n])) == Some(sound[n])
      && sound[n].0 !in Keys(sound[..n])
      && Serialisable(sound[..n])
  {
    var n := |sound| - 1;
    SerialisablePrefix(sound, n);
    EntryRoundTrip(sound[n]);
    LastKeyFresh(sound);
  }

  /** `parseSound` finds the call written by the serialiser. */
  lemma SoundEffectFound(body: string)
    ensures IndexOf("audio.SoundEffect(" + body + ")", "SoundEffect(") == Some(6)
    ensures Slice("audio.SoundEffect(" + body + ")", 6 + |"SoundEffect("|, -1) == body
  {
    var s := "audio.SoundEffect(" + body + ")";
    assert OccursAt(s, "SoundEffect(", 6) by {
      assert s[6..18] == "SoundEffect(";
    }
    forall j | 0 <= j < 6 ensures !OccursAt(s, "SoundEffect(", j) {
      assert s[j] != 'S';
    }
  }

  /** Reading back the call written for a record gives the record back,
      field for field and in the same order. */
  lemma SoundRoundTrip(sound: Sound)
    requires Serialisable(sound)
    ensures SoundOf(SoundText(sound)) == sound
  {
    var body := Join(EntryTexts(sound), ", ");
    SoundEffectFound(body);
    var args := SoundArgs(SoundText(sound), 6);
    if sound == [] {
      assert body == "";
      assert "," == [','];
      SplitWithout("", ",");
      assert args == [""];
      assert Assigned([], args) == Assign([], "");
    } else {
      forall k | 0 <= k < |sound| ensures Bare(EntryTexts(sound)[k]) {
        EntryTextBare(sound[k]);
      }
      TrimmedPieces(EntryTexts(sound), "");
      assert "" + body == body;
      AssignedEntries(sound);
    }
  }

  /** The panel's sound editor over the record parsed from the argument. */
  class SoundEditor {
    var sound: Sound

    constructor(sound: Sound)
      ensures this.sound == sound
    {
      this.sound := sound;
    }

    /** A slider or selector sets one field of the record in place, and the
        record's call is handed on as the new argument text. */
    method OnChange(param: string, value: SoundValue) returns (argText: string)
      modifies this
      ensures sound == SetField(old(sound), param, value)
      ensures argText == SoundText(sound)
    {
      sound := SetField(sound, param, value);
      argText := SoundText(sound);
    }
  }

  /** Setting a plain, parser-shaped field keeps a record serialisable, so
      the edited call reads back as the edited record. */
  lemma EditedSoundRoundTrip(sound: Sound, param: string, value: SoundValue)
    requires Serialisable(sound)
    requires EntryWellTyped((param, value)) && Plain(param) && (value.Name? ==> Plain(value.name))
    ensures Serialisable(SetField(sound, param, value))
    ensures SoundOf(SoundText(SetField(sound, param, value))) == SetField(sound, param, value)
  {
    var r := SetField(sound, param, value);
    forall j | 0 <= j < |r|
      ensures EntryWellTyped(r[j]) && Plain(r[j].0) && (r[j].1.Name? ==> Plain(r[j].1.name))
    {
      if r[j] != (param, value) {
        var i :| 0 <= i < |sound| && sound[i] == r[j];
      }
    }
    SoundRoundTrip(r);
  }
}
