/** The string operations the source relies on: `String.prototype.includes`,
    `split` on one character, `join`, and decimal digits. */
module Text {

  // ---------------------------------------------------------------------------
  // includes

  /** `s.includes(sub)`. */
  predicate Contains(s: string, sub: string)
    decreases |s|
  {
    if |sub| > |s| then false
    else s[..|sub|] == sub || (|s| > 0 && Contains(s[1..], sub))
  }

  /** `sub` starts at index `i` of `s`: the reference definition of Contains. */
  predicate OccursAt(s: string, sub: string, i: int)
  {
    0 <= i && i + |sub| <= |s| && s[i..i + |sub|] == sub
  }

  /** Contains agrees with the positional definition, in both directions. */
  lemma {:induction false} ContainsIffOccurs(s: string, sub: string)
    ensures Contains(s, sub) <==> exists i :: OccursAt(s, sub, i)
  {
    if |sub| <= |s| && s[..|sub|] == sub {
      assert OccursAt(s, sub, 0);
    } else if |sub| <= |s| && |s| > 0 {
      ContainsIffOccurs(s[1..], sub);
      if exists i :: OccursAt(s, sub, i) {
        var i :| OccursAt(s, sub, i);
        assert i != 0;
        assert s[1..][i - 1..i - 1 + |sub|] == s[i..i + |sub|];
        assert OccursAt(s[1..], sub, i - 1);
      }
      if Contains(s[1..], sub) {
        var j :| OccursAt(s[1..], sub, j);
        assert s[j + 1..j + 1 + |sub|] == s[1..][j..j + |sub|];
        assert OccursAt(s, sub, j + 1);
      }
    }
  }

  /** A text that lacks one of the characters of `sub` cannot contain `sub`. */
  lemma {:induction false} MissingCharNotContained(s: string, sub: string, c: char)
    requires c in sub && c !in s
    ensures !Contains(s, sub)
  {
    if |sub| <= |s| {
      assert c !in s[..|sub|];
      if |s| > 0 {
        MissingCharNotContained(s[1..], sub, c);
      }
    }
  }

  /** Prepending a text that does not hold the first character of `sub`
      neither creates nor hides an occurrence of `sub`. */
  lemma {:induction false} ContainsAfterPrefix(p: string, m: string, sub: string)
    requires |sub| > 0 && sub[0] !in p
    ensures Contains(p + m, sub) <==> Contains(m, sub)
  {
    if |p| > 0 {
      assert (p + m)[1..] == p[1..] + m;
      assert (p + m)[0] == p[0];
      ContainsAfterPrefix(p[1..], m, sub);
    } else {
      assert p + m == m;
    }
  }

  /** A text contains each of its prefixes. */
  lemma PrefixContained(s: string, sub: string)
    requires sub <= s
    ensures Contains(s, sub)
  {
  }

  /** A text contains whatever stands in its middle. */
  lemma InfixContained(a: string, b: string, c: string)
    ensures Contains(a + b + c, b)
  {
    ContainsIffOccurs(a + b + c, b);
    assert (a + b + c)[|a|..|a| + |b|] == b;
    assert OccursAt(a + b + c, b, |a|);
  }

  // ---------------------------------------------------------------------------
  // split and join

  /** `s.split(sep)` for a one-character separator: the pieces between the
      separators, in order; there is always at least one piece. */
  function Split(s: string, sep: char): (parts: seq<string>)
    ensures |parts| >= 1
    ensures forall i | 0 <= i < |parts| :: sep !in parts[i]
    decreases |s|
  {
    if |s| == 0 then [""]
    else
      var rest := Split(s[1..], sep);
      if s[0] == sep then [""] + rest
      else [[s[0]] + rest[0]] + rest[1..]
  }

  /** `parts.join(sep)`. */
  function Join(parts: seq<string>, sep: string): string
  {
    if |parts| == 0 then ""
    else if |parts| == 1 then parts[0]
    else parts[0] + sep + Join(parts[1..], sep)
  }

  /** Joining the pieces of a split with the separator gives back the text. */
  lemma {:induction false} JoinSplit(s: string, sep: char)
    ensures Join(Split(s, sep), [sep]) == s
  {
    if |s| > 0 {
      var rest := Split(s[1..], sep);
      JoinSplit(s[1..], sep);
      if s[0] == sep {
        assert ([""] + rest)[1..] == rest;
      } else {
        var parts := [[s[0]] + rest[0]] + rest[1..];
        assert parts[1..] == rest[1..];
        if |rest| > 1 {
          assert Join(rest, [sep]) == rest[0] + [sep] + Join(rest[1..], [sep]);
        }
        assert s == [s[0]] + s[1..];
      }
    }
  }

  /** A text holding the separator splits into at least two pieces. */
  lemma {:induction false} SplitAtSeparator(s: string, sep: char)
    requires sep in s
    ensures |Split(s, sep)| >= 2
  {
    JoinSplit(s, sep);
  }

  /** Splitting a text whose first `|p|` characters hold no separator: the
      first piece starts with `p`. */
  lemma {:induction false} SplitPrefix(p: string, r: string, sep: char)
    requires sep !in p
    ensures Split(p + r, sep) == [p + Split(r, sep)[0]] + Split(r, sep)[1..]
  {
    if |p| > 0 {
      SplitPrefix(p[1..], r, sep);
      assert (p + r)[1..] == p[1..] + r;
      assert (p + r)[0] == p[0];
      assert [p[0]] + (p[1..] + Split(r, sep)[0]) == p + Split(r, sep)[0];
    } else {
      assert p + r == r;
      assert p + Split(r, sep)[0] == Split(r, sep)[0];
    }
  }

  /** Splitting pieces joined with the separator gives back the pieces. */
  lemma {:induction false} SplitJoin(parts: seq<string>, sep: char)
    requires |parts| >= 1
    requires forall i | 0 <= i < |parts| :: sep !in parts[i]
    ensures Split(Join(parts, [sep]), sep) == parts
  {
    if |parts| == 1 {
      SplitPrefix(parts[0], "", sep);
      assert Split("", sep) == [""];
      assert parts[0] + "" == parts[0];
    } else {
      var tail := parts[1..];
      SplitJoin(tail, sep);
      var j := Join(tail, [sep]);
      assert Join(parts, [sep]) == parts[0] + ([sep] + j);
      SplitPrefix(parts[0], [sep] + j, sep);
      assert ([sep] + j)[1..] == j;
      assert ([sep] + j)[0] == sep;
      assert Split([sep] + j, sep) == [""] + tail;
      assert parts[0] + "" == parts[0];
      assert parts == [parts[0]] + tail;
    }
  }

  // ---------------------------------------------------------------------------
  // decimal digits

  predicate IsDigit(c: char)
  {
    '0' <= c <= '9'
  }

  predicate AllDigits(s: string)
  {
    forall i | 0 <= i < |s| :: IsDigit(s[i])
  }

  function DigitValue(c: char): nat
    requires IsDigit(c)
  {
    c as int - '0' as int
  }

  function DigitChar(d: nat): (c: char)
    requires d < 10
    ensures IsDigit(c) && DigitValue(c) == d
  {
    (d + '0' as int) as char
  }

  /** The value of a run of decimal digits, most significant first. */
  function DigitsValue(s: string): nat
    requires AllDigits(s)
  {
    if |s| == 0 then 0 else DigitsValue(s[..|s| - 1]) * 10 + DigitValue(s[|s| - 1])
  }

  /** The decimal digits of `n`, most significant first, without leading zeros. */
  function NatToText(n: nat): (s: string)
    ensures |s| >= 1 && AllDigits(s)
    ensures |s| > 1 ==> s[0] != '0'
  {
    if n < 10 then [DigitChar(n)] else NatToText(n / 10) + [DigitChar(n % 10)]
  }

  /** `String(n)` for an integer `n`: a minus sign for negatives, then digits. */
  function IntToText(n: int): (s: string)
  {
    if n < 0 then "-" + NatToText(-n) else NatToText(n)
  }

  /** Reading back the digits of `n` gives `n`. */
  lemma {:induction false} DigitsValueOfNatToText(n: nat)
    ensures DigitsValue(NatToText(n)) == n
  {
    if n >= 10 {
      DigitsValueOfNatToText(n / 10);
      var s := NatToText(n);
      assert s[..|s| - 1] == NatToText(n / 10);
    }
  }

  /** The longest prefix of `s` made of decimal digits. */
  function LeadingDigits(s: string): (d: string)
    ensures AllDigits(d) && d <= s
    ensures |d| < |s| ==> !IsDigit(s[|d|])
  {
    if |s| == 0 || !IsDigit(s[0]) then "" else [s[0]] + LeadingDigits(s[1..])
  }

  /** A character that is not a digit does not occur in a run of digits. */
  lemma NonDigitAbsent(s: string, c: char)
    requires AllDigits(s) && !IsDigit(c)
    ensures c !in s
  {
  }

  /** The text of an integer holds only digits and the minus sign. */
  lemma IntTextLacks(n: int, c: char)
    requires !IsDigit(c) && c != '-'
    ensures c !in IntToText(n)
  {
    NonDigitAbsent(NatToText(if n < 0 then -n else n), c);
  }

  /** A run of digits followed by a non-digit (or nothing) is exactly the
      leading-digit prefix. */
  lemma LeadingDigitsOf(d: string, r: string)
    requires AllDigits(d)
    requires |r| == 0 || !IsDigit(r[0])
    ensures LeadingDigits(d + r) == d
  {
    var l := LeadingDigits(d + r);
    assert l == (d + r)[..|l|];
    assert d == (d + r)[..|d|];
  }

  // ---------------------------------------------------------------------------
  // signed decimal text

  /** The text starts with a minus sign. */
  predicate Negative(t: string)
  {
    |t| > 0 && t[0] == '-'
  }

  /** The text without its leading sign, if it has one. */
  function Unsigned(t: string): (u: string)
    ensures u == t || (|t| > 0 && u == t[1..])
  {
    if |t| > 0 && (t[0] == '-' || t[0] == '+') then t[1..] else t
  }

  /** The text of an integer followed by anything: it is negative exactly
      when the integer is, and past the sign come the digits of its magnitude. */
  lemma {:induction false} UnsignedOfIntText(n: int, rest: string)
    ensures Negative(IntToText(n) + rest) <==> n < 0
    ensures Unsigned(IntToText(n) + rest) == NatToText(if n < 0 then -n else n) + rest
  {
    var ds := NatToText(if n < 0 then -n else n);
    var t := IntToText(n) + rest;
    if n < 0 {
      assert t == "-" + (ds + rest);
      assert t[0] == '-' && t[1..] == ds + rest;
    } else {
      assert t == ds + rest;
      assert t[0] == ds[0];
    }
  }

  /** The digits of `m` followed by a non-digit (or nothing) are read back
      as `m`, with `rest` left over. */
  lemma DigitsOfNatText(m: nat, rest: string)
    requires |rest| == 0 || !IsDigit(rest[0])
    ensures LeadingDigits(NatToText(m) + rest) == NatToText(m)
    ensures DigitsValue(NatToText(m)) == m
    ensures (NatToText(m) + rest)[|NatToText(m)|..] == rest
  {
    DigitsValueOfNatToText(m);
    LeadingDigitsOf(NatToText(m), rest);
  }
}
