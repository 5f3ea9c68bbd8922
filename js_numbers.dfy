/** JavaScript numbers as far as the editor's code uses them: `Number(text)`
    applied to argument text, and the decimal text a number becomes in a
    template string or `toString()`. */
module JsNumbers {
  import opened JsStrings

  /** A JavaScript number: an integer value, or NaN. */
  datatype JsNumber = Int(value: int) | NaN

  predicate IsDigit(c: char) {
    '0' <= c <= '9'
  }

  predicate AllDigits(s: string) {
    forall i :: 0 <= i < |s| ==> IsDigit(s[i])
  }

  function DigitChar(d: nat): (c: char)
    requires d < 10
    ensures IsDigit(c) && c as int - '0' as int == d
  {
    ('0' as int + d) as char
  }

  /** The value of a string of decimal digits. */
  function DigitsValue(s: string): nat
    requires AllDigits(s)
    decreases |s|
  {
    if s == [] then 0 else DigitsValue(s[..|s| - 1]) * 10 + (s[|s| - 1] as int - '0' as int)
  }

  /** The decimal text of a natural number, as `String(n)` writes it: digits
      only, at least one, and no leading zero. */
  function NatToString(n: nat): (r: string)
    ensures |r| >= 1 && AllDigits(r)
    ensures r[0] != '0' || n == 0
    decreases n
  {
    if n < 10 then [DigitChar(n)] else NatToString(n / 10) + [DigitChar(n % 10)]
  }

  /** The decimal text of an integer, with a leading `-` when it is negative. */
  function IntToString(i: int): (r: string)
    ensures |r| >= 1
    ensures i >= 0 <==> AllDigits(r)
  {
    if i < 0 then
      var r := "-" + NatToString(-i);
      assert !IsDigit(r[0]);
      r
    else NatToString(i)
  }

  /** What a number turns into inside a template string. */
  function NumberToString(n: JsNumber): string {
    match n
    case Int(i) => IntToString(i)
    case NaN => "NaN"
  }

  /** `Number(text)`: surrounding whitespace is ignored, the empty text is 0,
      an optionally signed run of decimal digits is its value, and anything
      else is NaN. */
  function ParseNumber(s: string): JsNumber {
    var t := Trim(s);
    if t == [] then Int(0)
    else if AllDigits(t) then Int(DigitsValue(t))
    else if |t| > 1 && (t[0] == '-' || t[0] == '+') && AllDigits(t[1..]) then
      Int(if t[0] == '-' then -(DigitsValue(t[1..]) as int) else DigitsValue(t[1..]))
    else NaN
  }

  /** Reading back the decimal text of `n` gives `n`. */
  lemma {:induction false} DigitsValueOfNatToString(n: nat)
    ensures DigitsValue(NatToString(n)) == n
    decreases n
  {
    if n >= 10 {
      DigitsValueOfNatToString(n / 10);
      var s := NatToString(n);
      assert s[..|s| - 1] == NatToString(n / 10);
    }
  }

  /** Different natural numbers have different decimal texts. */
  lemma NatToStringInjective(a: nat, b: nat)
    requires NatToString(a) == NatToString(b)
    ensures a == b
  {
    DigitsValueOfNatToString(a);
    DigitsValueOfNatToString(b);
  }

  /** `Number(String(n)) == n` for every integer and for NaN. */
  lemma NumberRoundTrip(n: JsNumber)
    ensures ParseNumber(NumberToString(n)) == n
  {
    var s := NumberToString(n);
    match n
    case Int(i) =>
      if i < 0 {
        var d := NatToString(-i);
        assert s == "-" + d;
        DigitsTextUntrimmed(d);
        assert !IsWhitespace('-');
        TrimNoWhitespace(s);
        DigitsValueOfNatToString(-i);
        assert s[1..] == d;
      } else {
        DigitsTextUntrimmed(s);
        TrimNoWhitespace(s);
        DigitsValueOfNatToString(i);
      }
    case NaN =>
      assert s == "NaN";
      assert !IsWhitespace('N') && !IsWhitespace('a');
      TrimNoWhitespace(s);
      assert !IsDigit(s[0]);
  }

  lemma DigitsTextUntrimmed(s: string)
    requires AllDigits(s)
    ensures forall i :: 0 <= i < |s| ==> !IsWhitespace(s[i])
  {
  }
}
