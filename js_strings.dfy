/** The JavaScript string built-ins that the editor's code is written with
    (`trim`, `indexOf`, `includes`, `startsWith`, `split`, `join`, `replace`,
    `replaceAll`, `slice`), over Dafny strings. Each is stated as ECMAScript
    defines it for a string (not a regular-expression) argument. */
module JsStrings {
  import opened Wrappers

  /** A JavaScript truthy optional string: present and non-empty. */
  predicate IsTruthy(s: Option<string>) {
    s.Some? && s.value != ""
  }

  /** The WhiteSpace and LineTerminator code points of ECMAScript: what the
      regular-expression class `\s` matches and what `trim` removes. */
  predicate IsWhitespace(c: char) {
    || c == '\t' || c == '\n' || c == '\U{000B}' || c == '\U{000C}' || c == '\r' || c == ' '
    || c == '\U{00A0}' || c == '\U{1680}' || ('\U{2000}' <= c <= '\U{200A}')
    || c == '\U{2028}' || c == '\U{2029}' || c == '\U{202F}' || c == '\U{205F}'
    || c == '\U{3000}' || c == '\U{FEFF}'
  }

  /** The characters that end a line for `.`, `^` and `$` in a multi-line
      regular expression. */
  predicate IsLineTerminator(c: char) {
    c == '\n' || c == '\r' || c == '\U{2028}' || c == '\U{2029}'
  }

  predicate AllWhitespace(s: string) {
    forall i :: 0 <= i < |s| ==> IsWhitespace(s[i])
  }

  /** Length of the run of whitespace that starts `s`. */
  function LeadingWhitespace(s: string): (n: nat)
    ensures n <= |s| && AllWhitespace(s[..n])
    ensures n < |s| ==> !IsWhitespace(s[n])
    decreases |s|
  {
    if s != [] && IsWhitespace(s[0]) then
      var n := 1 + LeadingWhitespace(s[1..]);
      assert s[..n] == [s[0]] + s[1..][..n - 1];
      n
    else 0
  }

  lemma AllWhitespaceSnoc(t: string, c: char)
    requires AllWhitespace(t) && IsWhitespace(c)
    ensures AllWhitespace(t + [c])
  {
    assert forall i :: 0 <= i < |t| ==> (t + [c])[i] == t[i];
  }

  function TrailingRun(s: string): nat
    decreases |s|
  {
    if s != [] && IsWhitespace(s[|s| - 1]) then 1 + TrailingRun(s[..|s| - 1]) else 0
  }

  lemma {:induction false} TrailingRunIsWhitespace(s: string)
    ensures TrailingRun(s) <= |s| && AllWhitespace(s[|s| - TrailingRun(s)..])
    ensures TrailingRun(s) < |s| ==> !IsWhitespace(s[|s| - TrailingRun(s) - 1])
    decreases |s|
  {
    if s != [] && IsWhitespace(s[|s| - 1]) {
      var t := s[..|s| - 1];
      var m := TrailingRun(t);
      TrailingRunIsWhitespace(t);
      assert AllWhitespace(s[|s| - 1 - m..]) by {
        assert s[|s| - 1 - m..] == t[|t| - m..] + [s[|s| - 1]];
        AllWhitespaceSnoc(t[|t| - m..], s[|s| - 1]);
      }
      assert m < |t| ==> s[|s| - 1 - m - 1] == t[|t| - m - 1];
    }
  }

  /** Length of the run of whitespace that ends `s`. */
  function TrailingWhitespace(s: string): (n: nat)
    ensures n <= |s| && AllWhitespace(s[|s| - n..])
    ensures n < |s| ==> !IsWhitespace(s[|s| - n - 1])
  {
    TrailingRunIsWhitespace(s);
    TrailingRun(s)
  }

  /** `s.trim()`: the result is a slice of `s` whose cut-off ends are all
      whitespace, and which itself neither starts nor ends with whitespace. */
  function Trim(s: string): (r: string)
    ensures LeadingWhitespace(s) + |r| <= |s|
    ensures r == s[LeadingWhitespace(s)..][..|r|]
    ensures AllWhitespace(s[..LeadingWhitespace(s)])
    ensures AllWhitespace(s[LeadingWhitespace(s) + |r|..])
    ensures r == [] || (!IsWhitespace(r[0]) && !IsWhitespace(r[|r| - 1]))
  {
    var t := s[LeadingWhitespace(s)..];
    var r := t[..|t| - TrailingWhitespace(t)];
    assert s[LeadingWhitespace(s) + |r|..] == t[|t| - TrailingWhitespace(t)..];
    r
  }

  /** Trimming only removes characters. */
  lemma TrimMultiset(s: string)
    ensures multiset(Trim(s)) <= multiset(s)
  {
    var r := Trim(s);
    var k := LeadingWhitespace(s);
    assert s == s[..k] + r + s[k + |r|..];
  }

  /** Trimming a trimmed string changes nothing, so `s.trim().trim() == s.trim()`. */
  lemma TrimIdempotent(s: string)
    ensures Trim(Trim(s)) == Trim(s)
  {
    var r := Trim(s);
    assert LeadingWhitespace(r) == 0;
    assert TrailingWhitespace(r) == 0;
  }

  /** A string with no whitespace at all is left alone by `trim`. */
  lemma TrimNoWhitespace(s: string)
    requires forall i :: 0 <= i < |s| ==> !IsWhitespace(s[i])
    ensures Trim(s) == s
  {
    assert LeadingWhitespace(s) == 0;
    assert TrailingWhitespace(s) == 0;
  }

  /** `s.startsWith(p)` */
  predicate StartsWith(s: string, p: string) {
    |p| <= |s| && s[..|p|] == p
  }

  /** `pat` occurs in `s` at index `i`. */
  predicate OccursAt(s: string, pat: string, i: int) {
    0 <= i && i + |pat| <= |s| && s[i..i + |pat|] == pat
  }

  /** `s.indexOf(pat, k)`, with `None` for -1. */
  function IndexOfFrom(s: string, pat: string, k: nat): (r: Option<nat>)
    requires k <= |s| + 1
    ensures r.Some? ==> k <= r.value && OccursAt(s, pat, r.value)
    ensures r.Some? ==> forall j :: k <= j < r.value ==> !OccursAt(s, pat, j)
    ensures r.None? ==> forall j :: k <= j ==> !OccursAt(s, pat, j)
    decreases |s| + 1 - k
  {
    if k + |pat| > |s| then None
    else if s[k..k + |pat|] == pat then Some(k)
    else IndexOfFrom(s, pat, k + 1)
  }

  /** `s.indexOf(pat)`: the first occurrence, or `None` when there is none. */
  function IndexOf(s: string, pat: string): (r: Option<nat>)
    ensures r.Some? ==> OccursAt(s, pat, r.value)
    ensures r.Some? ==> forall j :: 0 <= j < r.value ==> !OccursAt(s, pat, j)
    ensures r.None? ==> forall j :: !OccursAt(s, pat, j)
  {
    IndexOfFrom(s, pat, 0)
  }

  /** `s.includes(pat)` */
  predicate Contains(s: string, pat: string) {
    IndexOf(s, pat).Some?
  }

  /** A string built around `pat` contains `pat`. */
  lemma ContainsInside(a: string, pat: string, b: string)
    ensures Contains(a + pat + b, pat)
  {
    var s := a + pat + b;
    assert s[|a|..|a| + |pat|] == pat;
    assert OccursAt(s, pat, |a|);
  }

  /** An occurrence with none before it is the one `indexOf` finds. */
  lemma FirstOccurrenceAt(s: string, pat: string, i: nat)
    requires OccursAt(s, pat, i)
    requires forall j :: 0 <= j < i ==> !OccursAt(s, pat, j)
    ensures IndexOf(s, pat) == Some(i)
  {
  }

  /** The text before the first occurrence of `pat` does not contain `pat`. */
  lemma PrefixBeforeFirstFree(s: string, pat: string)
    requires |pat| > 0 && IndexOf(s, pat).Some?
    ensures !Contains(s[..IndexOf(s, pat).value], pat)
  {
    var i := IndexOf(s, pat).value;
    forall j | 0 <= j ensures !OccursAt(s[..i], pat, j) {
      if j + |pat| <= i {
        assert s[..i][j..j + |pat|] == s[j..j + |pat|];
        assert !OccursAt(s, pat, j);
      }
    }
  }

  /** A slice of a text without `pat` is without `pat`. */
  lemma SliceFree(s: string, a: nat, b: nat, pat: string)
    requires a <= b <= |s| && !Contains(s, pat)
    ensures !Contains(s[a..b], pat)
  {
    forall j | 0 <= j ensures !OccursAt(s[a..b], pat, j) {
      if j + |pat| <= b - a {
        var t := s[a..b][j..j + |pat|];
        assert forall k :: 0 <= k < |pat| ==> t[k] == s[a + j + k];
        assert t == s[a + j..a + j + |pat|];
        assert !OccursAt(s, pat, a + j);
      }
    }
  }

  /** `s.split(sep)` for a non-empty separator: the pieces between the
      occurrences of `sep`, found from left to right without overlap. */
  function Split(s: string, sep: string): (parts: seq<string>)
    requires |sep| > 0
    ensures |parts| >= 1
    ensures |parts| >= 2 <==> Contains(s, sep)
    decreases |s|
  {
    match IndexOf(s, sep)
    case None => [s]
    case Some(i) => [s[..i]] + Split(s[i + |sep|..], sep)
  }

  /** No piece of a split holds the separator. */
  lemma {:induction false} SplitPiecesFree(s: string, sep: string)
    requires |sep| > 0
    ensures forall k :: 0 <= k < |Split(s, sep)| ==> !Contains(Split(s, sep)[k], sep)
    decreases |s|
  {
    match IndexOf(s, sep)
    case None =>
    case Some(i) =>
      PrefixBeforeFirstFree(s, sep);
      SplitPiecesFree(s[i + |sep|..], sep);
  }

  /** The text of `s` before the first `pat`, or all of `s` without one. */
  function BeforeFirst(s: string, pat: string): string {
    match IndexOf(s, pat)
    case None => s
    case Some(i) => s[..i]
  }

  /** The first piece of a split runs up to the first separator, and the
      second, when there is one, from there up to the next separator. */
  lemma SplitFirstTwo(s: string, sep: string)
    requires |sep| > 0
    ensures Split(s, sep)[0] == BeforeFirst(s, sep)
    ensures Contains(s, sep) ==> Split(s, sep)[1] == BeforeFirst(s[IndexOf(s, sep).value + |sep|..], sep)
  {
  }

  /** The last piece of a split of `s` on `c` is `s[k..]`, and `k` starts
      `s` or follows a `c`. */
  predicate LastPieceAt(s: string, c: char, k: int) {
    0 <= k <= |s| && Last(Split(s, [c])) == s[k..] && (k == 0 || s[k - 1] == c)
  }

  function Last(parts: seq<string>): string
    requires |parts| >= 1
  {
    parts[|parts| - 1]
  }

  /** The last piece of a split on a character is the text after its last
      occurrence: a suffix that starts the text or follows that character. */
  lemma {:induction false} SplitLastSuffix(s: string, c: char)
    ensures exists k :: LastPieceAt(s, c, k)
    decreases |s|
  {
    match IndexOf(s, [c])
    case None =>
      assert s[0..] == s;
      assert LastPieceAt(s, c, 0);
    case Some(i) =>
      var rest := s[i + 1..];
      SplitLastSuffix(rest, c);
      var k' :| LastPieceAt(rest, c, k');
      LastPieceStep(s, c, i, k');
  }

  lemma LastPieceStep(s: string, c: char, i: nat, k': nat)
    requires IndexOf(s, [c]) == Some(i) && LastPieceAt(s[i + 1..], c, k')
    ensures LastPieceAt(s, c, i + 1 + k')
  {
    var rest := s[i + 1..];
    assert Last(Split(s, [c])) == Last(Split(rest, [c])) by {
      assert Split(s, [c]) == [s[..i]] + Split(rest, [c]);
    }
    var k := i + 1 + k';
    assert rest[k'..] == s[k..];
    assert k == 0 || s[k - 1] == c by {
      if k' == 0 {
        assert s[i..i + 1] == [c];
      } else {
        assert rest[k' - 1] == s[k - 1];
      }
    }
  }

  /** `parts.join(sep)` */
  function Join(parts: seq<string>, sep: string): string {
    if |parts| == 0 then ""
    else if |parts| == 1 then parts[0]
    else parts[0] + sep + Join(parts[1..], sep)
  }

  lemma JoinCons(parts: seq<string>, sep: string)
    requires |parts| >= 2
    ensures Join(parts, sep) == parts[0] + (sep + Join(parts[1..], sep))
  {
    assert parts[0] + sep + Join(parts[1..], sep) == parts[0] + (sep + Join(parts[1..], sep));
  }

  /** The first piece of a split is the text before the first separator. */
  lemma SplitFirst(s: string, sep: string)
    requires |sep| > 0
    ensures IndexOf(s, sep).None? ==> Split(s, sep)[0] == s
    ensures IndexOf(s, sep).Some? ==> Split(s, sep)[0] == s[..IndexOf(s, sep).value]
  {
  }

  /** Joining the pieces of a split with the same separator gives back the string. */
  lemma {:induction false} JoinSplit(s: string, sep: string)
    requires |sep| > 0
    ensures Join(Split(s, sep), sep) == s
    decreases |s|
  {
    match IndexOf(s, sep)
    case None =>
    case Some(i) =>
      var rest := s[i + |sep|..];
      assert Split(s, sep) == [s[..i]] + Split(rest, sep);
      JoinPrepend(s[..i], Split(rest, sep), sep);
      JoinSplit(rest, sep);
      assert s == s[..i] + (sep + rest) by {
        assert s[i..i + |sep|] == sep;
      }
  }

  /** Splitting a text that does not contain `sep` gives the text alone. */
  lemma SplitWithout(s: string, sep: string)
    requires |sep| > 0 && !Contains(s, sep)
    ensures Split(s, sep) == [s]
  {
  }

  /** Splitting at an occurrence that is known to be the first one. */
  lemma SplitAtFirst(a: string, sep: string, b: string)
    requires |sep| > 0 && !Contains(a, sep)
    requires forall j :: 0 <= j < |a| ==> !OccursAt(a + sep + b, sep, j)
    ensures Split(a + sep + b, sep) == [a] + Split(b, sep)
  {
    var s := a + sep + b;
    assert OccursAt(s, sep, |a|) by {
      assert s[|a|..|a| + |sep|] == sep;
    }
    var i := IndexOf(s, sep).value;
    assert i == |a|;
    assert s[..i] == a;
    assert s[i + |sep|..] == b;
  }

  /** A one-character pattern occurs exactly when the character does. */
  lemma ContainsChar(s: string, c: char)
    ensures Contains(s, [c]) <==> c in s
  {
    if c in s {
      var j :| 0 <= j < |s| && s[j] == c;
      assert s[j..j + 1] == [c];
      assert OccursAt(s, [c], j);
    }
    if Contains(s, [c]) {
      var j := IndexOf(s, [c]).value;
      assert s[j..j + 1] == [c];
      assert s[j] == c;
    }
  }

  /** Splitting on a character at its first occurrence. */
  lemma SplitAtChar(a: string, c: char, b: string)
    requires c !in a
    ensures Split(a + [c] + b, [c]) == [a] + Split(b, [c])
  {
    ContainsChar(a, c);
    var s := a + [c] + b;
    forall j | 0 <= j < |a| ensures !OccursAt(s, [c], j) {
      assert s[j] == a[j];
    }
    SplitAtFirst(a, [c], b);
  }

  /** Pieces free of a character are recovered by splitting their join on it. */
  lemma {:induction false} SplitJoinChar(parts: seq<string>, c: char)
    requires |parts| >= 1
    requires forall k :: 0 <= k < |parts| ==> c !in parts[k]
    ensures Split(Join(parts, [c]), [c]) == parts
    decreases |parts|
  {
    if |parts| == 1 {
      ContainsChar(parts[0], c);
    } else {
      SplitJoinChar(parts[1..], c);
      assert Join(parts, [c]) == parts[0] + [c] + Join(parts[1..], [c]);
      SplitAtChar(parts[0], c, Join(parts[1..], [c]));
    }
  }

  lemma {:induction false} JoinSnoc(parts: seq<string>, x: string, sep: string)
    requires |parts| >= 1
    ensures Join(parts + [x], sep) == Join(parts, sep) + sep + x
    decreases |parts|
  {
    if |parts| == 1 {
      assert (parts + [x])[1..] == [x];
    } else {
      assert (parts + [x])[1..] == parts[1..] + [x];
      JoinSnoc(parts[1..], x, sep);
    }
  }

  /** Text after a last separator becomes the last piece of the split. */
  lemma SplitSnoc(a: string, c: char, b: string)
    requires c !in b
    ensures Split(a + [c] + b, [c]) == Split(a, [c]) + [b]
  {
    var parts := Split(a, [c]);
    JoinSplit(a, [c]);
    JoinSnoc(parts, b, [c]);
    SplitPiecesFree(a, [c]);
    forall k | 0 <= k < |parts + [b]| ensures c !in (parts + [b])[k] {
      if k < |parts| {
        ContainsChar(parts[k], c);
      }
    }
    SplitJoinChar(parts + [b], c);
  }

  /** Number of occurrences of a character. */
  function CountChar(s: string, c: char): nat {
    multiset(s)[c]
  }

  /** Splitting on a one-character separator gives one more piece than there
      are occurrences of that character. */
  lemma {:induction false} SplitCountChar(s: string, c: char)
    ensures |Split(s, [c])| == CountChar(s, c) + 1
    decreases |s|
  {
    ContainsChar(s, c);
    match IndexOf(s, [c])
    case None =>
      assert c !in multiset(s);
    case Some(i) =>
      var rest := s[i + 1..];
      assert c !in s[..i] && s == s[..i] + ([c] + rest) by {
        FirstCharOccurrence(s, c);
      }
      assert |Split(s, [c])| == 1 + |Split(rest, [c])| by {
        assert Split(s, [c]) == [s[..i]] + Split(rest, [c]);
      }
      SplitCountChar(rest, c);
      assert multiset(s) == multiset(s[..i]) + (multiset([c]) + multiset(rest));
  }

  /** `s` with every `c` taken out. */
  function RemoveChar(s: string, c: char): (r: string)
    ensures |r| <= |s|
  {
    if s == [] then [] else (if s[0] == c then [] else [s[0]]) + RemoveChar(s[1..], c)
  }

  lemma {:induction false} RemoveCharAppend(a: string, b: string, c: char)
    ensures RemoveChar(a + b, c) == RemoveChar(a, c) + RemoveChar(b, c)
    decreases |a|
  {
    if a != [] {
      var head := if a[0] == c then [] else [a[0]];
      assert (a + b)[0] == a[0];
      assert (a + b)[1..] == a[1..] + b;
      RemoveCharAppend(a[1..], b, c);
      assert RemoveChar(a + b, c) == head + RemoveChar(a[1..] + b, c);
      assert RemoveChar(a, c) == head + RemoveChar(a[1..], c);
    } else {
      assert a + b == b;
    }
  }

  lemma {:induction false} RemoveCharAbsent(s: string, c: char)
    requires forall j :: 0 <= j < |s| ==> s[j] != c
    ensures RemoveChar(s, c) == s
    decreases |s|
  {
    if s != [] {
      RemoveCharAbsent(s[1..], c);
    }
  }

  /** The concatenation of a list of strings (`flatMap` of the identity). */
  function Concat(parts: seq<string>): string {
    if parts == [] then [] else parts[0] + Concat(parts[1..])
  }

  /** Splitting on a character and concatenating the pieces drops exactly the
      separators. */
  lemma {:induction false} ConcatSplit(s: string, c: char)
    ensures Concat(Split(s, [c])) == RemoveChar(s, c)
    decreases |s|
  {
    ContainsChar(s, c);
    match IndexOf(s, [c])
    case None =>
      RemoveCharAbsent(s, c);
    case Some(i) =>
      var rest := s[i + 1..];
      assert c !in s[..i] && s == s[..i] + ([c] + rest) by {
        FirstCharOccurrence(s, c);
      }
      assert Concat(Split(s, [c])) == s[..i] + Concat(Split(rest, [c])) by {
        assert Split(s, [c]) == [s[..i]] + Split(rest, [c]);
      }
      ConcatSplit(rest, c);
      RemoveCharAbsent(s[..i], c);
      RemoveCharAppend(s[..i], [c] + rest, c);
      assert RemoveChar([c] + rest, c) == RemoveChar(rest, c) by {
        assert ([c] + rest)[1..] == rest;
      }
  }

  /** The first occurrence of a character splits the text around it. */
  lemma FirstCharOccurrence(s: string, c: char)
    requires IndexOf(s, [c]).Some?
    ensures var i := IndexOf(s, [c]).value;
      c !in s[..i] && s == s[..i] + ([c] + s[i + 1..])
  {
    var i := IndexOf(s, [c]).value;
    PrefixBeforeFirstFree(s, [c]);
    ContainsChar(s[..i], c);
    assert s[i..i + 1] == [c];
    assert s == s[..i] + s[i..i + 1] + s[i + 1..];
  }

  /** `s.replaceAll(pat, rep)` for a non-empty string pattern, scanning from the
      left and replacing each occurrence that does not overlap an earlier one. */
  function ReplaceAll(s: string, pat: string, rep: string): string
    requires |pat| > 0
    decreases |s|
  {
    if |s| < |pat| then s
    else if s[..|pat|] == pat then rep + ReplaceAll(s[|pat|..], pat, rep)
    else [s[0]] + ReplaceAll(s[1..], pat, rep)
  }

  lemma SliceOfTail(s: string, a: nat, b: nat)
    requires a <= b < |s|
    ensures s[1..][a..b] == s[a + 1..b + 1]
  {
    assert forall k :: 0 <= k < b - a ==> s[1..][a..b][k] == s[a + 1 + k];
  }

  /** Text before the first occurrence passes through `replaceAll` unchanged. */
  lemma {:induction false} ReplaceAllSkips(s: string, pat: string, rep: string, k: nat)
    requires |pat| > 0 && k <= |s|
    requires forall j :: 0 <= j < k ==> !OccursAt(s, pat, j)
    ensures ReplaceAll(s, pat, rep) == s[..k] + ReplaceAll(s[k..], pat, rep)
    decreases k
  {
    if k > 0 && |s| >= |pat| {
      assert ReplaceAll(s, pat, rep) == [s[0]] + ReplaceAll(s[1..], pat, rep) by {
        assert !OccursAt(s, pat, 0);
      }
      forall j | 0 <= j < k - 1 ensures !OccursAt(s[1..], pat, j) {
        assert !OccursAt(s, pat, j + 1);
        if j + |pat| < |s| {
          SliceOfTail(s, j, j + |pat|);
        }
      }
      ReplaceAllSkips(s[1..], pat, rep, k - 1);
      assert s[1..][k - 1..] == s[k..];
      assert s[..k] == [s[0]] + s[1..][..k - 1];
    } else if k > 0 {
      assert ReplaceAll(s[k..], pat, rep) == s[k..];
      assert s[..k] + s[k..] == s;
    }
  }

  /** `replaceAll` copies the text up to the first occurrence, writes the
      replacement and goes on after the occurrence. */
  lemma ReplaceAllAtFirst(s: string, pat: string, rep: string)
    requires |pat| > 0 && IndexOf(s, pat).Some?
    ensures var i := IndexOf(s, pat).value;
      ReplaceAll(s, pat, rep) == s[..i] + (rep + ReplaceAll(s[i + |pat|..], pat, rep))
  {
    var i := IndexOf(s, pat).value;
    ReplaceAllSkips(s, pat, rep, i);
    assert s[i..][..|pat|] == pat;
    assert s[i..][|pat|..] == s[i + |pat|..];
  }

  lemma JoinPrepend(a: string, parts: seq<string>, sep: string)
    requires |parts| >= 1
    ensures Join([a] + parts, sep) == a + (sep + Join(parts, sep))
  {
    JoinCons([a] + parts, sep);
    assert ([a] + parts)[1..] == parts;
  }

  /** `s.replaceAll(pat, rep)` is `s.split(pat).join(rep)`. */
  lemma {:induction false} ReplaceAllIsSplitJoin(s: string, pat: string, rep: string)
    requires |pat| > 0
    ensures ReplaceAll(s, pat, rep) == Join(Split(s, pat), rep)
    decreases |s|
  {
    match IndexOf(s, pat)
    case None =>
      ReplaceAllSkips(s, pat, rep, |s|);
      assert s[|s|..] == [];
    case Some(i) =>
      var rest := s[i + |pat|..];
      ReplaceAllAtFirst(s, pat, rep);
      assert Split(s, pat) == [s[..i]] + Split(rest, pat);
      JoinPrepend(s[..i], Split(rest, pat), rep);
      ReplaceAllIsSplitJoin(rest, pat, rep);
  }

  /** Replacing one character by another, position by position. */
  lemma {:induction false} ReplaceAllChar(s: string, a: char, b: char)
    ensures |ReplaceAll(s, [a], [b])| == |s|
    ensures forall i :: 0 <= i < |s| ==> ReplaceAll(s, [a], [b])[i] == if s[i] == a then b else s[i]
    decreases |s|
  {
    if s != [] {
      ReplaceAllChar(s[1..], a, b);
      assert s[..1] == [s[0]];
    }
  }

  /** After replacing every `a` by a different `b`, no `a` is left. */
  lemma ReplaceAllCharRemoves(s: string, a: char, b: char)
    requires a != b
    ensures a !in ReplaceAll(s, [a], [b])
  {
    ReplaceAllChar(s, a, b);
  }

  /** `s.replace(pat, rep)` for a string pattern: only the first occurrence. */
  function ReplaceFirst(s: string, pat: string, rep: string): (r: string)
    ensures IndexOf(s, pat).None? ==> r == s
    ensures IndexOf(s, pat).Some? ==> var i := IndexOf(s, pat).value;
      r == s[..i] + rep + s[i + |pat|..]
  {
    match IndexOf(s, pat)
    case None => s
    case Some(i) => s[..i] + rep + s[i + |pat|..]
  }

  /** How `slice` turns a possibly negative index into a position in `[0, len]`. */
  function RelativeIndex(k: int, len: nat): (r: nat)
    ensures r <= len
    ensures 0 <= k <= len ==> r == k
    ensures k < 0 <= len + k ==> r == len + k
    ensures k > len ==> r == len
    ensures len + k < 0 ==> r == 0
  {
    if k < 0 then (if len + k < 0 then 0 else len + k)
    else if k > len then len else k
  }

  /** `s.slice(start, end)` for strings and arrays. */
  function Slice<T>(s: seq<T>, start: int, end: int): (r: seq<T>)
    ensures |r| <= |s|
  {
    var a := RelativeIndex(start, |s|);
    var b := RelativeIndex(end, |s|);
    if a < b then s[a..b] else []
  }

  /** ASCII upper case to lower case (the part of `toLowerCase` that matters
      for identifiers). */
  function LowerAscii(s: string): (r: string)
    ensures |r| == |s|
    ensures forall i :: 0 <= i < |s| ==> !('A' <= r[i] <= 'Z')
    ensures forall i :: 0 <= i < |s| && !('A' <= s[i] <= 'Z') ==> r[i] == s[i]
    ensures forall i :: 0 <= i < |s| && 'A' <= s[i] <= 'Z' ==> r[i] as int == s[i] as int + 32
  {
    if s == [] then []
    else [if 'A' <= s[0] <= 'Z' then (s[0] as int + 32) as char else s[0]] + LowerAscii(s[1..])
  }
}
