/** String helpers the components rely on: ASCII case mapping
    (`toLowerCase`/`toUpperCase` restricted to ASCII), `endsWith`,
    decimal rendering of integers (template literals) and `parseInt`. */
module Text {

  import opened Values

  // ---------------------------------------------------------------------
  // ASCII case

  function LowerChar(c: char): char {
    if 'A' <= c <= 'Z' then (c as int + 32) as char else c
  }

  function UpperChar(c: char): char {
    if 'a' <= c <= 'z' then (c as int - 32) as char else c
  }

  function ToLower(s: string): (r: string)
    ensures |r| == |s|
    ensures forall i :: 0 <= i < |s| ==> r[i] == LowerChar(s[i])
  {
    seq(|s|, i requires 0 <= i < |s| => LowerChar(s[i]))
  }

  function ToUpper(s: string): (r: string)
    ensures |r| == |s|
    ensures forall i :: 0 <= i < |s| ==> r[i] == UpperChar(s[i])
  {
    seq(|s|, i requires 0 <= i < |s| => UpperChar(s[i]))
  }

  /** Lower-casing after upper-casing one character gives the same as lower-casing it. */
  lemma LowerOfUpper(c: char)
    ensures LowerChar(UpperChar(c)) == LowerChar(c)
  {
  }

  // ---------------------------------------------------------------------
  // Suffixes

  /** `s.endsWith(suffix)`. */
  predicate EndsWith(s: string, suffix: string) {
    |suffix| <= |s| && s[|s| - |suffix|..] == suffix
  }

  // ---------------------------------------------------------------------
  // Decimal numerals

  predicate IsDigit(c: char) {
    '0' <= c <= '9'
  }

  predicate AllDigits(s: string) {
    forall i :: 0 <= i < |s| ==> IsDigit(s[i])
  }

  function DigitChar(d: nat): (c: char)
    requires d < 10
    ensures IsDigit(c) && c as int - '0' as int == d
  {
    ('0' as int + d) as char
  }

  function DigitValue(c: char): nat
    requires IsDigit(c)
  {
    c as int - '0' as int
  }

  /** Decimal rendering of a natural number, without leading zeros. */
  function NatToString(n: nat): (s: string)
    ensures |s| > 0 && AllDigits(s)
    ensures |s| > 1 ==> s[0] != '0'
  {
    if n < 10 then [DigitChar(n)] else NatToString(n / 10) + [DigitChar(n % 10)]
  }

  /** `${i}` for an integer. */
  function IntToString(i: int): (s: string)
    ensures |s| > 0
    ensures i < 0 <==> s[0] == '-'
  {
    if i < 0 then "-" + NatToString(-i) else NatToString(i)
  }

  /** The value of a string made only of digits. */
  function DigitsValue(s: string): nat
    requires AllDigits(s)
  {
    if |s| == 0 then 0 else DigitsValue(s[..|s| - 1]) * 10 + DigitValue(s[|s| - 1])
  }

  /** Reading back a rendered natural gives the number. */
  lemma {:induction false} DigitsValueOfNatToString(n: nat)
    ensures DigitsValue(NatToString(n)) == n
  {
    if n >= 10 {
      var s := NatToString(n);
      assert s[..|s| - 1] == NatToString(n / 10);
      DigitsValueOfNatToString(n / 10);
    }
  }

  /** Rendering is injective. */
  lemma NatToStringInjective(m: nat, n: nat)
    requires NatToString(m) == NatToString(n)
    ensures m == n
  {
    DigitsValueOfNatToString(m);
    DigitsValueOfNatToString(n);
  }

  /** The number of leading digit characters of `s`. */
  function LeadingDigits(s: string): (k: nat)
    ensures k <= |s| && AllDigits(s[..k])
    ensures k < |s| ==> !IsDigit(s[k])
  {
    if |s| == 0 || !IsDigit(s[0]) then 0
    else
      var k := 1 + LeadingDigits(s[1..]);
      assert s[..k] == [s[0]] + s[1..][..k - 1];
      k
  }

  /** A rendered natural followed by text that does not start with a digit
      has exactly the rendering as its leading digit run. */
  lemma {:induction false} LeadingDigitsOfRendered(digits: string, rest: string)
    requires AllDigits(digits)
    requires |rest| == 0 || !IsDigit(rest[0])
    ensures LeadingDigits(digits + rest) == |digits|
  {
    if |digits| > 0 {
      assert (digits + rest)[1..] == digits[1..] + rest;
      LeadingDigitsOfRendered(digits[1..], rest);
    }
  }

  // ---------------------------------------------------------------------
  // parseInt without a radix (section 19.2.5 of ECMA-262)

  /** The characters `parseInt` trims: StrWhiteSpaceChar, that is the
      WhiteSpace and LineTerminator characters of the standard. */
  predicate IsJsWhiteSpace(c: char) {
    || c == '\t' || c == '\n' || c == '\U{000B}' || c == '\U{000C}' || c == '\r' || c == ' '
    || c == '\U{00A0}' || c == '\U{1680}' || ('\U{2000}' <= c <= '\U{200A}')
    || c == '\U{2028}' || c == '\U{2029}' || c == '\U{202F}' || c == '\U{205F}'
    || c == '\U{3000}' || c == '\U{FEFF}'
  }

  /** The number of leading white-space characters of `s`. */
  function LeadingWhiteSpace(s: string): (k: nat)
    ensures k <= |s|
    ensures forall i :: 0 <= i < k ==> IsJsWhiteSpace(s[i])
    ensures k < |s| ==> !IsJsWhiteSpace(s[k])
  {
    if |s| == 0 || !IsJsWhiteSpace(s[0]) then 0
    else
      var k := 1 + LeadingWhiteSpace(s[1..]);
      assert forall i :: 1 <= i < k ==> s[i] == s[1..][i - 1];
      k
  }

  /** White space in front of a string adds exactly its length to the trimmed prefix. */
  lemma {:induction false} LeadingWhiteSpacePrefix(ws: string, s: string)
    requires forall i :: 0 <= i < |ws| ==> IsJsWhiteSpace(ws[i])
    ensures LeadingWhiteSpace(ws + s) == |ws| + LeadingWhiteSpace(s)
  {
    if |ws| > 0 {
      assert (ws + s)[0] == ws[0] && IsJsWhiteSpace(ws[0]);
      assert (ws + s)[1..] == ws[1..] + s;
      LeadingWhiteSpacePrefix(ws[1..], s);
      assert forall i :: 0 <= i < |ws[1..]| ==> ws[1..][i] == ws[i + 1];
    } else {
      assert ws + s == s;
    }
  }

  predicate IsHexDigit(c: char) {
    IsDigit(c) || 'a' <= c <= 'f' || 'A' <= c <= 'F'
  }

  function HexValue(c: char): (v: nat)
    requires IsHexDigit(c)
    ensures v < 16
  {
    if IsDigit(c) then DigitValue(c)
    else if 'a' <= c <= 'f' then c as int - 'a' as int + 10
    else c as int - 'A' as int + 10
  }

  /** The number of leading hexadecimal digits of `s`. */
  function LeadingHexDigits(s: string): (k: nat)
    ensures k <= |s|
    ensures forall i :: 0 <= i < k ==> IsHexDigit(s[i])
    ensures k < |s| ==> !IsHexDigit(s[k])
  {
    if |s| == 0 || !IsHexDigit(s[0]) then 0
    else
      var k := 1 + LeadingHexDigits(s[1..]);
      assert forall i :: 1 <= i < k ==> s[i] == s[1..][i - 1];
      k
  }

  /** The value of a string made only of hexadecimal digits. */
  function HexDigitsValue(s: string): nat
    requires forall i :: 0 <= i < |s| ==> IsHexDigit(s[i])
  {
    if |s| == 0 then 0 else HexDigitsValue(s[..|s| - 1]) * 16 + HexValue(s[|s| - 1])
  }

  /** A run of hexadecimal digits followed by a non-hex character is exactly the leading run. */
  lemma {:induction false} LeadingHexDigitsOf(h: string, rest: string)
    requires forall i :: 0 <= i < |h| ==> IsHexDigit(h[i])
    requires |rest| == 0 || !IsHexDigit(rest[0])
    ensures LeadingHexDigits(h + rest) == |h|
  {
    if |h| > 0 {
      assert (h + rest)[0] == h[0];
      assert (h + rest)[1..] == h[1..] + rest;
      LeadingHexDigitsOf(h[1..], rest);
    }
  }

  /** `0x` or `0X` at the start of `s`. */
  predicate HexPrefix(s: string) {
    |s| >= 2 && s[0] == '0' && (s[1] == 'x' || s[1] == 'X')
  }

  /** The unsigned part: after a hex prefix the longest run of hexadecimal
      digits, otherwise the longest run of decimal digits; `None` when the run
      is empty. */
  function ParseMagnitude(body: string): (m: Option<nat>)
    ensures HexPrefix(body) ==> (m.None? <==> LeadingHexDigits(body[2..]) == 0)
    ensures !HexPrefix(body) ==> (m.None? <==> LeadingDigits(body) == 0)
  {
    if HexPrefix(body) then
      var hex := body[2..];
      var k := LeadingHexDigits(hex);
      if k == 0 then None else Some(HexDigitsValue(hex[..k]))
    else
      var k := LeadingDigits(body);
      if k == 0 then None else Some(DigitsValue(body[..k]))
  }

  /** An optional sign, then the unsigned part. */
  function ParseSigned(s: string): Option<int> {
    var negative := |s| > 0 && s[0] == '-';
    var body := if |s| > 0 && (s[0] == '-' || s[0] == '+') then s[1..] else s;
    match ParseMagnitude(body)
    case None => None
    case Some(magnitude) =>
      var v: int := magnitude;
      Some(if negative then -v else v)
  }

  /** `parseInt(s)` without a radix: leading white space trimmed, an
      optional sign, then hexadecimal digits after `0x`/`0X` or decimal
      digits otherwise; `None` stands for NaN (no digit). */
  function ParseInt(s: string): Option<int> {
    ParseSigned(s[LeadingWhiteSpace(s)..])
  }

  /** Leading white space of any kind does not change what `parseInt` reads. */
  lemma ParseIntSkipsWhiteSpace(ws: string, s: string)
    requires forall i :: 0 <= i < |ws| ==> IsJsWhiteSpace(ws[i])
    ensures ParseInt(ws + s) == ParseInt(s)
  {
    LeadingWhiteSpacePrefix(ws, s);
    DropPrefixThen(ws, s, LeadingWhiteSpace(s));
    SameTrimmed(ws + s, s);
  }

  /** Texts equal once trimmed read the same. */
  lemma SameTrimmed(a: string, b: string)
    requires a[LeadingWhiteSpace(a)..] == b[LeadingWhiteSpace(b)..]
    ensures ParseInt(a) == ParseInt(b)
  {
  }

  lemma DropPrefixThen(p: string, t: string, k: nat)
    requires k <= |t|
    ensures (p + t)[|p| + k..] == t[k..]
  {
  }

  /** `parseInt` reads `0x` followed by hexadecimal digits in base 16,
      whatever non-hex text follows them. */
  lemma ParseIntHex(h: string, rest: string)
    requires |h| > 0 && forall i :: 0 <= i < |h| ==> IsHexDigit(h[i])
    requires |rest| == 0 || !IsHexDigit(rest[0])
    ensures ParseInt("0x" + h + rest) == Some(HexDigitsValue(h))
  {
    HexSplit(h, rest);
    HexText("0x" + h + rest, h, rest);
  }

  lemma HexSplit(h: string, rest: string)
    ensures HexPrefix("0x" + h + rest) && ("0x" + h + rest)[2..] == h + rest
  {
    var t := h + rest;
    assert "0x" + h + rest == "0x" + t;
    DropPrefix("0x", t);
  }

  /** Text that is a hex prefix, hex digits and non-hex text reads as the digits' value. */
  lemma HexText(s: string, h: string, rest: string)
    requires |h| > 0 && forall i :: 0 <= i < |h| ==> IsHexDigit(h[i])
    requires |rest| == 0 || !IsHexDigit(rest[0])
    requires HexPrefix(s) && s[2..] == h + rest
    ensures ParseInt(s) == Some(HexDigitsValue(h))
  {
    UnsignedStart(s);
    MagnitudeHex(s, h, rest);
  }

  lemma DropPrefix(p: string, t: string)
    ensures (p + t)[|p|..] == t
  {
  }

  /** Text starting with a digit is read without trimming or sign. */
  lemma UnsignedStart(s: string)
    requires |s| > 0 && IsDigit(s[0])
    ensures ParseInt(s) == ParseMagnitude(s)
  {
    assert LeadingWhiteSpace(s) == 0;
    assert s[0..] == s;
  }

  lemma MagnitudeHex(s: string, h: string, rest: string)
    requires |h| > 0 && forall i :: 0 <= i < |h| ==> IsHexDigit(h[i])
    requires |rest| == 0 || !IsHexDigit(rest[0])
    requires HexPrefix(s) && s[2..] == h + rest
    ensures ParseMagnitude(s) == Some(HexDigitsValue(h))
  {
    LeadingHexDigitsOf(h, rest);
    assert (h + rest)[..|h|] == h;
  }

  /** Two readings that differ from a decimal, space-only `parseInt`:
      a hex prefix and a leading tab. */
  lemma ParseIntRadixAndTab()
    ensures ParseInt("0x1f") == Some(31)
    ensures ParseInt("\t5") == Some(5)
  {
    ParseIntHex("1f", "");
    assert "0x" + "1f" + "" == "0x1f";
    assert HexDigitsValue("1f") == 31 by {
      assert "1f"[..1] == "1";
    }
    ParseIntSkipsWhiteSpace("\t", "5");
    ParseIntOfNatToString(5, "");
    assert NatToString(5) + "" == "5";
    assert "\t" + "5" == "\t5";
  }

  /** A rendered natural does not start with a hex prefix, unless it is `0`
      and the text after it starts with `x` or `X`. */
  lemma NoHexPrefix(n: nat, rest: string)
    requires n == 0 ==> |rest| == 0 || (rest[0] != 'x' && rest[0] != 'X')
    ensures !HexPrefix(NatToString(n) + rest)
  {
    var s := NatToString(n);
    if |s| == 1 && s[0] == '0' {
      DigitsValueOfNatToString(n);
      assert (s + rest)[1..] == rest;
    }
  }

  /** `parseInt` reads back a rendered natural, whatever text follows it that
      does not extend the numeral: no digit, and no `x`/`X` after a lone `0`
      (which would make it a hex prefix). */
  lemma ParseIntOfNatToString(n: nat, rest: string)
    requires |rest| == 0 || !IsDigit(rest[0])
    requires n == 0 ==> |rest| == 0 || (rest[0] != 'x' && rest[0] != 'X')
    ensures ParseInt(NatToString(n) + rest) == Some(n)
  {
    var s := NatToString(n);
    assert (s + rest)[0] == s[0];
    UnsignedStart(s + rest);
    MagnitudeOfRendered(n, rest);
  }

  /** The unsigned part of a rendered natural followed by text that does not
      extend the numeral is that natural. */
  lemma MagnitudeOfRendered(n: nat, rest: string)
    requires |rest| == 0 || !IsDigit(rest[0])
    requires n == 0 ==> |rest| == 0 || (rest[0] != 'x' && rest[0] != 'X')
    ensures ParseMagnitude(NatToString(n) + rest) == Some(n)
  {
    var s := NatToString(n);
    NoHexPrefix(n, rest);
    LeadingDigitsOfRendered(s, rest);
    assert (s + rest)[..|s|] == s;
    DigitsValueOfNatToString(n);
  }

  /** Text starting with a minus sign reads as the negated unsigned part. */
  lemma NegativeStart(w: string)
    requires |w| > 0 && w[0] == '-'
    ensures ParseMagnitude(w[1..]).Some? ==> ParseInt(w) == Some(-(ParseMagnitude(w[1..]).value as int))
  {
    assert LeadingWhiteSpace(w) == 0;
    assert w[0..] == w;
  }

  /** `parseInt` reads a minus sign followed by a rendered natural as its negation. */
  lemma ParseIntOfNegated(n: nat, rest: string)
    requires |rest| == 0 || !IsDigit(rest[0])
    requires n == 0 ==> |rest| == 0 || (rest[0] != 'x' && rest[0] != 'X')
    ensures ParseInt("-" + NatToString(n) + rest) == Some(-(n as int))
  {
    var s := NatToString(n);
    var whole := "-" + s + rest;
    assert whole == "-" + (s + rest);
    DropPrefix("-", s + rest);
    NegativeStart(whole);
    MagnitudeOfRendered(n, rest);
  }

  /** `parseInt` reads back any rendered integer followed by text that does
      not extend the numeral. */
  lemma ParseIntOfIntToString(i: int, rest: string)
    requires |rest| == 0 || !IsDigit(rest[0])
    requires i == 0 ==> |rest| == 0 || (rest[0] != 'x' && rest[0] != 'X')
    ensures ParseInt(IntToString(i) + rest) == Some(i)
  {
    if i < 0 {
      ParseIntOfNegated(-i, rest);
    } else {
      ParseIntOfNatToString(i, rest);
    }
  }
}
