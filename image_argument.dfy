/** The image argument of a call: the 5x5 LED picture that the interaction
    panel edits. A picture is held as the array of pixel brightnesses the
    panel works on; it is written back into the program as an
    `Image("ddddd:ddddd:ddddd:ddddd:ddddd")` literal and read from one (or
    from a named built-in image `Image.NAME`). */
module ImageArgument {
  import opened JsStrings
  import opened JsNumbers

  /** One element of the panel's pixel array. Writing past the end of a
      JavaScript array leaves holes, which `join` prints as nothing. */
  datatype Pixel = Level(n: JsNumber) | Hole

  /** A pixel of a well-formed picture: a brightness 0..9. */
  predicate IsDigitPixel(p: Pixel) {
    p.Level? && p.n.Int? && 0 <= p.n.value <= 9
  }

  /** A well-formed picture: 25 brightnesses 0..9, row by row. */
  predicate IsDigitImage(values: seq<Pixel>) {
    |values| == 25 && forall k :: 0 <= k < |values| ==> IsDigitPixel(values[k])
  }

  /** The picture the panel resets to: every pixel off. */
  function Zeros(): (values: seq<Pixel>)
    ensures IsDigitImage(values)
    ensures forall k :: 0 <= k < |values| ==> values[k] == Level(Int(0))
  {
    seq(25, _ => Level(Int(0)))
  }

  /** A pixel inside an array `join`. */
  function PixelText(p: Pixel): string {
    match p
    case Level(n) => NumberToString(n)
    case Hole => ""
  }

  /** `values.join("")` */
  function RowText(values: seq<Pixel>): string {
    if values == [] then "" else PixelText(values[0]) + RowText(values[1..])
  }

  /** The text of the rows `slice(0,5)`, `slice(5,10)`, .. `slice(20,25)` of a
      pixel array, each joined without separator. */
  function Rows(values: seq<Pixel>): (rows: seq<string>)
    ensures |rows| == 5
    ensures forall r :: 0 <= r < 5 ==> rows[r] == RowAt(values, r)
  {
    seq(5, r => RowAt(values, r))
  }

  /** Row `r` of a pixel array, `slice(5 * r, 5 * r + 5).join("")`. */
  function RowAt(values: seq<Pixel>, r: int): string {
    RowText(Slice(values, 5 * r, 5 * r + 5))
  }

  /** The image literal written back for a pixel array: its rows separated
      by `:` inside `Image("` and `")`. */
  function ImageString(values: seq<Pixel>): string {
    "Image(\"" + Join(Rows(values), ":") + "\")"
  }

  /** The brightness of a digit pixel. */
  function Digit(p: Pixel): (d: nat)
    requires IsDigitPixel(p)
    ensures d < 10
  {
    p.n.value
  }

  /** The digits of a row of digit pixels. */
  function DigitText(values: seq<Pixel>): (s: string)
    requires forall k :: 0 <= k < |values| ==> IsDigitPixel(values[k])
    ensures |s| == |values|
    ensures forall k :: 0 <= k < |values| ==> s[k] == DigitChar(Digit(values[k]))
  {
    seq(|values|, k requires 0 <= k < |values| && IsDigitPixel(values[k]) => DigitChar(Digit(values[k])))
  }

  lemma {:induction false} RowTextOfDigits(values: seq<Pixel>)
    requires forall k :: 0 <= k < |values| ==> IsDigitPixel(values[k])
    ensures RowText(values) == DigitText(values)
    decreases |values|
  {
    if values != [] {
      RowTextOfDigits(values[1..]);
      assert PixelText(values[0]) == [DigitChar(Digit(values[0]))];
      assert DigitText(values) == [DigitChar(Digit(values[0]))] + DigitText(values[1..]);
    }
  }

  /** Row `r` of a well-formed picture as a digit string. */
  function Row(values: seq<Pixel>, r: nat): (s: string)
    requires IsDigitImage(values) && r < 5
    ensures |s| == 5
    ensures ':' !in s
  {
    DigitText(values[5 * r..5 * r + 5])
  }

  /** A well-formed picture serialises as five groups of five digits, each
      digit the brightness of its pixel: these are the groups that the
      literal separates by colons inside `Image("` and `")`. */
  lemma RowsOfDigits(values: seq<Pixel>)
    requires IsDigitImage(values)
    ensures forall r :: 0 <= r < 5 ==> Rows(values)[r] == Row(values, r)
  {
    forall r | 0 <= r < 5
      ensures Rows(values)[r] == Row(values, r)
    {
      assert Slice(values, 5 * r, 5 * r + 5) == values[5 * r..5 * r + 5];
      RowTextOfDigits(values[5 * r..5 * r + 5]);
    }
  }

  /** `Number(c)` of every character of a piece, in order. */
  function CharNumbers(s: string): (r: seq<Pixel>)
    ensures |r| == |s|
    ensures forall k :: 0 <= k < |s| ==> r[k] == Level(ParseNumber([s[k]]))
  {
    seq(|s|, k requires 0 <= k < |s| => Level(ParseNumber([s[k]])))
  }

  /** `pieces.flatMap(p => p.split('').map(Number))` */
  function FlatCharNumbers(pieces: seq<string>): seq<Pixel> {
    if pieces == [] then [] else CharNumbers(pieces[0]) + FlatCharNumbers(pieces[1..])
  }

  /** `image2array`: a named image `Image.X` is a copy of the built-in
      picture `x` (lower-cased), or all zeros when there is none; any other
      argument loses its first 7 and last 2 characters and every other
      character but `:` becomes a number. */
  function Image2Array(arg: string, imageMap: map<string, seq<Pixel>>): (values: seq<Pixel>)
    ensures StartsWith(arg, "Image.") && LowerAscii(arg[6..]) in imageMap ==> values == imageMap[LowerAscii(arg[6..])]
    ensures StartsWith(arg, "Image.") && LowerAscii(arg[6..]) !in imageMap ==> values == Zeros()
    ensures !StartsWith(arg, "Image.") ==> |values| == |RemoveChar(Slice(arg, 7, -2), ':')|
  {
    if StartsWith(arg, "Image.") then
      var key := LowerAscii(arg[6..]);
      if key in imageMap then imageMap[key] else Zeros()
    else
      var body := Slice(arg, 7, -2);
      FlatCharNumbersLength(body);
      FlatCharNumbers(Split(body, ":"))
  }

  lemma {:induction false} FlatCharNumbersAppend(a: seq<string>, b: seq<string>)
    ensures FlatCharNumbers(a + b) == FlatCharNumbers(a) + FlatCharNumbers(b)
    decreases |a|
  {
    if a == [] {
      assert a + b == b;
    } else {
      assert (a + b)[1..] == a[1..] + b;
      FlatCharNumbersAppend(a[1..], b);
    }
  }

  lemma {:induction false} FlatCharNumbersConcat(pieces: seq<string>)
    ensures |FlatCharNumbers(pieces)| == |Concat(pieces)|
    decreases |pieces|
  {
    if pieces != [] {
      FlatCharNumbersConcat(pieces[1..]);
    }
  }

  /** One number per character that is not a colon. */
  lemma FlatCharNumbersLength(body: string)
    ensures |FlatCharNumbers(Split(body, ":"))| == |RemoveChar(body, ':')|
  {
    assert ":" == [':'];
    FlatCharNumbersConcat(Split(body, ":"));
    ConcatSplit(body, ':');
  }

  /** A digit character reads back as its digit. */
  lemma DigitCharNumber(d: nat)
    requires d < 10
    ensures ParseNumber([DigitChar(d)]) == Int(d)
  {
    var s := [DigitChar(d)];
    assert !IsWhitespace(s[0]);
    TrimNoWhitespace(s);
    assert AllDigits(s);
    assert s[..0] == [];
    assert DigitsValue(s) == d;
  }

  lemma DigitTextNumbers(values: seq<Pixel>)
    requires forall k :: 0 <= k < |values| ==> IsDigitPixel(values[k])
    ensures CharNumbers(DigitText(values)) == values
  {
    var s := DigitText(values);
    forall k | 0 <= k < |values| ensures CharNumbers(s)[k] == values[k] {
      DigitCharNumber(Digit(values[k]));
    }
  }

  /** Rows that each read back as the next five pixels read back as all of
      them. */
  lemma {:induction false} FlatChunks(values: seq<Pixel>, rows: seq<string>)
    requires |values| == 5 * |rows|
    requires forall r :: 0 <= r < |rows| ==> CharNumbers(rows[r]) == values[5 * r..5 * r + 5]
    ensures FlatCharNumbers(rows) == values
    decreases |rows|
  {
    if rows != [] {
      var rest := values[5..];
      forall r | 0 <= r < |rows[1..]|
        ensures CharNumbers(rows[1..][r]) == rest[5 * r..5 * r + 5]
      {
        assert rows[1..][r] == rows[r + 1];
        assert rest[5 * r..5 * r + 5] == values[5 * (r + 1)..5 * (r + 1) + 5];
      }
      FlatChunks(rest, rows[1..]);
      assert values == values[0..5] + rest;
    }
  }

  /** The rows of a well-formed picture read back as its pixels. */
  lemma FlatRows(values: seq<Pixel>)
    requires IsDigitImage(values)
    ensures FlatCharNumbers(Rows(values)) == values
  {
    RowsOfDigits(values);
    forall r | 0 <= r < 5
      ensures CharNumbers(Rows(values)[r]) == values[5 * r..5 * r + 5]
    {
      DigitTextNumbers(values[5 * r..5 * r + 5]);
    }
    FlatChunks(values, Rows(values));
  }

  /** A literal `Image("...")` is not a named image, and dropping its first
      7 and last 2 characters leaves what is between the quotes. */
  lemma LiteralBody(body: string)
    ensures !StartsWith("Image(\"" + body + "\")", "Image.")
    ensures Slice("Image(\"" + body + "\")", 7, -2) == body
  {
    var s := "Image(\"" + body + "\")";
    assert s[5] == '(';
  }

  /** Reading back the literal written for a well-formed picture gives the
      picture back, whatever the built-in images are. */
  lemma ImageRoundTrip(values: seq<Pixel>, imageMap: map<string, seq<Pixel>>)
    requires IsDigitImage(values)
    ensures Image2Array(ImageString(values), imageMap) == values
  {
    var rows := Rows(values);
    RowsOfDigits(values);
    LiteralBody(Join(rows, ":"));
    assert ":" == [':'];
    SplitJoinChar(rows, ':');
    FlatRows(values);
  }

  /** `handleMenuClick`'s assignment `values[index] = value`: past the end of
      the array it grows, leaving holes in between. */
  function SetPixel(values: seq<Pixel>, index: nat, value: nat): (r: seq<Pixel>)
    ensures |r| == if index < |values| then |values| else index + 1
    ensures r[index] == Level(Int(value))
    ensures forall k :: 0 <= k < |values| && k != index ==> r[k] == values[k]
    ensures forall k :: |values| <= k < index ==> r[k] == Hole
  {
    if index < |values| then values[index := Level(Int(value))]
    else values + seq(index - |values|, _ => Hole) + [Level(Int(value))]
  }

  /** A pixel edit of a well-formed picture keeps it well formed, and the
      literal written for it reads back as the picture with that one pixel
      changed. */
  lemma EditedImageRoundTrip(values: seq<Pixel>, index: nat, value: nat, imageMap: map<string, seq<Pixel>>)
    requires IsDigitImage(values) && index < 25 && value < 10
    ensures IsDigitImage(SetPixel(values, index, value))
    ensures Image2Array(ImageString(SetPixel(values, index, value)), imageMap) == values[index := Level(Int(value))]
  {
    ImageRoundTrip(SetPixel(values, index, value), imageMap);
    assert SetPixel(values, index, value) == values[index := Level(Int(value))];
  }

  lemma ZeroRow(r: nat)
    requires r < 5
    ensures Row(Zeros(), r) == "00000"
  {
    assert DigitChar(0) == '0';
    var row := Row(Zeros(), r);
    forall k | 0 <= k < 5 ensures row[k] == '0' {
      assert Zeros()[5 * r + k] == Level(Int(0));
    }
  }

  /** The reset picture's rows are all `00000`. */
  lemma ZeroRows()
    ensures Rows(Zeros()) == ["00000", "00000", "00000", "00000", "00000"]
  {
    RowsOfDigits(Zeros());
    forall r | 0 <= r < 5 ensures Rows(Zeros())[r] == "00000" {
      ZeroRow(r);
    }
  }

  /** The picture editor over the pixel array it was given. */
  class ImageEditor {
    var values: seq<Pixel>

    constructor(values: seq<Pixel>)
      ensures this.values == values
    {
      this.values := values;
    }

    /** Choosing brightness `value` for pixel `index` from its menu: the
        array is changed in place and its literal is handed on as the new
        argument text. */
    method HandleMenuClick(index: nat, value: nat) returns (argText: string)
      modifies this
      ensures values == SetPixel(old(values), index, value)
      ensures argText == ImageString(values)
    {
      values := SetPixel(values, index, value);
      argText := ImageString(values);
    }

    /** The reset button hands on the literal of an all-off picture, which
        reads back as 25 zeros, and leaves the array alone. */
    method HandleReset() returns (argText: string)
      ensures argText == ImageString(Zeros())
      ensures forall imageMap :: Image2Array(argText, imageMap) == Zeros()
    {
      argText := ImageString(Zeros());
      forall imageMap ensures Image2Array(argText, imageMap) == Zeros() {
        ImageRoundTrip(Zeros(), imageMap);
      }
    }
  }
}
