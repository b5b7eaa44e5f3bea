/** The JavaScript values the handlers receive from a JSON request body, with
    the language's truthiness, string conversion and `parseInt`. */
module Js {
  import opened Text

  /** A value read from a JSON request body, plus NaN, which `parseInt`
      returns for text that does not start with digits. Numbers are integers. */
  datatype JsValue = Undefined | Null | Num(n: int) | NaN | Str(s: string)

  /** JavaScript truthiness: undefined, null, 0, NaN and "" are falsy. */
  predicate Truthy(v: JsValue)
  {
    match v
    case Undefined => false
    case Null => false
    case NaN => false
    case Num(n) => n != 0
    case Str(s) => s != ""
  }

  /** `String(v)`, which is also what a template literal `${v}` inserts. */
  function ToText(v: JsValue): string
  {
    match v
    case Undefined => "undefined"
    case Null => "null"
    case NaN => "NaN"
    case Num(n) => IntToText(n)
    case Str(s) => s
  }

  /** White space and line terminators, which `parseInt` skips at the start. */
  predicate IsWhiteSpace(c: char)
  {
    || c == '\t' || c == '\U{000B}' || c == '\U{000C}' || c == ' ' || c == '\U{00A0}' || c == '\U{FEFF}'
    || c == '\n' || c == '\r' || c == '\U{2028}' || c == '\U{2029}'
    || c == '\U{1680}' || ('\U{2000}' <= c <= '\U{200A}') || c == '\U{202F}' || c == '\U{205F}' || c == '\U{3000}'
  }

  /** `s` without its leading white space. */
  function TrimStart(s: string): (t: string)
    ensures |t| <= |s| && t == s[|s| - |t|..]
    ensures |t| > 0 ==> !IsWhiteSpace(t[0])
    ensures forall i | 0 <= i < |s| - |t| :: IsWhiteSpace(s[i])
  {
    if |s| > 0 && IsWhiteSpace(s[0]) then TrimStart(s[1..]) else s
  }

  /** `parseInt(text, 10)`: skip white space, read an optional sign, then the
      longest run of decimal digits; NaN when that run is empty. */
  function ParseInt(text: string): (r: JsValue)
    ensures r.Num? || r.NaN?
  {
    ParseSigned(TrimStart(text))
  }

  /** The sign and digits part of `parseInt`, after the white space. */
  function ParseSigned(t: string): (r: JsValue)
    ensures r.Num? || r.NaN?
  {
    var digits := LeadingDigits(Unsigned(t));
    var magnitude: int := DigitsValue(digits);
    if digits == "" then NaN
    else if Negative(t) then Num(-magnitude)
    else Num(magnitude)
  }

  /** `parseInt` reads back the decimal text of any integer, whatever
      non-digit text follows it. */
  lemma ParseIntOfIntText(n: int, rest: string)
    requires |rest| == 0 || !IsDigit(rest[0])
    ensures ParseInt(IntToText(n) + rest) == Num(n)
  {
    var text := IntToText(n) + rest;
    IntToTextStart(n);
    assert text[0] == IntToText(n)[0];
    SignOrDigitIsNotWhiteSpace(text[0]);
    assert TrimStart(text) == text;
    ParseSignedOfIntText(n, rest);
  }

  lemma IntToTextStart(n: int)
    ensures |IntToText(n)| > 0 && (IsDigit(IntToText(n)[0]) || IntToText(n)[0] == '-')
  {
  }

  lemma SignOrDigitIsNotWhiteSpace(c: char)
    requires IsDigit(c) || c == '-'
    ensures !IsWhiteSpace(c)
  {
  }

  lemma ParseSignedOfIntText(n: int, rest: string)
    requires |rest| == 0 || !IsDigit(rest[0])
    ensures ParseSigned(IntToText(n) + rest) == Num(n)
  {
    UnsignedOfIntText(n, rest);
    DigitsOfNatText(if n < 0 then -n else n, rest);
  }

  /** Leading white space does not change what `parseInt` reads. */
  lemma {:induction false} ParseIntSkipsWhiteSpace(w: string, s: string)
    requires forall i | 0 <= i < |w| :: IsWhiteSpace(w[i])
    ensures ParseInt(w + s) == ParseInt(s)
  {
    TrimStartSkipsWhiteSpace(w, s);
  }

  lemma {:induction false} TrimStartSkipsWhiteSpace(w: string, s: string)
    requires forall i | 0 <= i < |w| :: IsWhiteSpace(w[i])
    ensures TrimStart(w + s) == TrimStart(s)
  {
    if |w| > 0 {
      assert (w + s)[0] == w[0];
      assert (w + s)[1..] == w[1..] + s;
      TrimStartSkipsWhiteSpace(w[1..], s);
    } else {
      assert w + s == s;
    }
  }

  /** Text without a single digit parses to NaN. */
  lemma ParseIntWithoutDigits(text: string)
    requires forall i | 0 <= i < |text| :: !IsDigit(text[i])
    ensures ParseInt(text) == NaN
  {
    var t := TrimStart(text);
    var unsigned := Unsigned(t);
    assert unsigned == text[|text| - |unsigned|..];
    if |unsigned| > 0 {
      assert unsigned[0] == text[|text| - |unsigned|];
    }
  }
}
