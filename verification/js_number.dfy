/**
 The JavaScript number behaviour the page script relies on: `parseInt` with
 no radix argument, the truthiness test behind `x || d`, and the decimal
 rendering a template literal gives a number.

 A number here is either NaN or an integer. `parseInt` never yields a
 fraction, and its `-0` is folded into 0: the two uses made of it here
 (rendering and truthiness) treat `-0` exactly like 0.
 */
module JsNumber {

  datatype Num = NaN | Int(value: int)

  /** ToBoolean on a number: NaN and zero are falsy */
  predicate Truthy(n: Num) {
    n.Int? && n.value != 0
  }

  /** `n || fallback` for a number `n` and a number `fallback` */
  function Or(n: Num, fallback: int): (r: int)
    ensures n.NaN? ==> r == fallback
    ensures n == Int(0) ==> r == fallback
    ensures n.Int? && n.value != 0 ==> r == n.value
  {
    if Truthy(n) then n.value else fallback
  }

  /** `n ?? fallback` with NaN in the part of null: only NaN is replaced */
  function NumberOr(n: Num, fallback: int): int {
    match n
    case Int(v) => v
    case NaN => fallback
  }

  /** `||` and a NaN-only fallback disagree on exactly one kind of input: the
      number 0 with a non-zero fallback. */
  lemma OrVersusNumberOr(n: Num, fallback: int)
    ensures Or(n, fallback) != NumberOr(n, fallback) <==> n == Int(0) && fallback != 0
  {
  }

  /** Binary minus with 1 on the right: NaN stays NaN */
  function Decrement(n: Num): Num {
    match n
    case NaN => NaN
    case Int(v) => Int(v - 1)
  }

  /** The white space and line terminators `parseInt` skips before a number:
      TAB, LF, VT, FF, CR, ZWNBSP, LS, PS and every space separator. */
  predicate IsWhitespace(c: char) {
    || c == '\t' || c == '\n' || c == '\U{000B}' || c == '\U{000C}' || c == '\r'
    || c == ' ' || c == '\U{00A0}' || c == '\U{1680}'
    || ('\U{2000}' <= c <= '\U{200A}')
    || c == '\U{2028}' || c == '\U{2029}' || c == '\U{202F}' || c == '\U{205F}'
    || c == '\U{3000}' || c == '\U{FEFF}'
  }

  /** The string with its leading white space removed */
  function TrimStart(s: string): (t: string)
    ensures |t| <= |s|
    ensures |t| > 0 ==> !IsWhitespace(t[0])
  {
    if |s| > 0 && IsWhitespace(s[0]) then TrimStart(s[1..]) else s
  }

  /** The value of `c` as a digit in radices up to 36 (`0`-`9`, then `a`-`z`
      or `A`-`Z`), or 36 when `c` is no digit at all */
  function DigitValue(c: char): (d: nat)
    ensures d <= 36
  {
    if '0' <= c <= '9' then c as int - '0' as int
    else if 'a' <= c <= 'z' then c as int - 'a' as int + 10
    else if 'A' <= c <= 'Z' then c as int - 'A' as int + 10
    else 36
  }

  predicate IsDigit(c: char, radix: nat) {
    DigitValue(c) < radix
  }

  predicate AllDigits(z: string, radix: nat) {
    forall i | 0 <= i < |z| :: IsDigit(z[i], radix)
  }

  /** The longest prefix of `s` made of radix-`radix` digits */
  function LeadingDigits(s: string, radix: nat): (z: string)
    ensures |z| <= |s|
    ensures AllDigits(z, radix)
  {
    if |s| > 0 && IsDigit(s[0], radix) then [s[0]] + LeadingDigits(s[1..], radix) else []
  }

  /** The number a digit string denotes, most significant digit first */
  function DigitsValue(z: string, radix: nat): nat
    requires AllDigits(z, radix)
  {
    if |z| == 0 then 0
    else DigitsValue(z[..|z| - 1], radix) * radix + DigitValue(z[|z| - 1])
  }

  /** A run of radix-`radix` digits at the start of `u`, read as a number;
      NaN when `u` does not start with such a digit */
  function DigitRun(u: string, radix: nat): Num {
    var z := LeadingDigits(u, radix);
    if |z| == 0 then NaN else Int(DigitsValue(z, radix))
  }

  predicate HasHexPrefix(u: string) {
    |u| >= 2 && u[0] == '0' && (u[1] == 'x' || u[1] == 'X')
  }

  /** The unsigned part: a `0x`/`0X` prefix selects radix 16, otherwise radix 10 */
  function ParseMagnitude(u: string): Num {
    if HasHexPrefix(u) then DigitRun(u[2..], 16) else DigitRun(u, 10)
  }

  function Negate(n: Num): Num {
    match n
    case NaN => NaN
    case Int(v) => Int(-v)
  }

  /** One optional sign, then the magnitude */
  function ParseSigned(t: string): Num {
    if |t| > 0 && t[0] == '-' then Negate(ParseMagnitude(t[1..]))
    else if |t| > 0 && t[0] == '+' then ParseMagnitude(t[1..])
    else ParseMagnitude(t)
  }

  /** `parseInt(s)` with the radix left out (section 19.2.5 of ECMAScript):
      skip leading white space, take one optional sign, read a `0x`/`0X`
      prefix as radix 16 and otherwise use radix 10, then read the longest
      run of digits; no digits at all gives NaN. Anything after the digits
      is ignored. */
  function ParseInt(s: string): Num {
    ParseSigned(TrimStart(s))
  }

  function DigitChar(d: nat): char
    requires d < 10
  {
    ('0' as int + d) as char
  }

  /** The decimal numeral of a natural number, without leading zeros */
  function NatToString(n: nat): (s: string)
    ensures |s| >= 1 && AllDigits(s, 10)
  {
    if n < 10 then [DigitChar(n)] else NatToString(n / 10) + [DigitChar(n % 10)]
  }

  function IntToString(n: int): string {
    if n < 0 then "-" + NatToString(-n) else NatToString(n)
  }

  /** Number::toString in radix 10, as a template literal renders a number */
  function NumberToString(n: Num): string {
    match n
    case NaN => "NaN"
    case Int(v) => IntToString(v)
  }

  /** A decimal numeral as `NatToString` writes it: digits only, and no
      leading zero unless the numeral is "0" itself */
  predicate CanonicalDecimal(s: string) {
    |s| >= 1 && AllDigits(s, 10) && (s[0] != '0' || |s| == 1)
  }

  lemma {:induction false} DigitsValueOfNatToString(n: nat)
    ensures DigitsValue(NatToString(n), 10) == n
  {
    if n >= 10 {
      var s := NatToString(n);
      DigitsValueOfNatToString(n / 10);
      assert s[..|s| - 1] == NatToString(n / 10);
    }
  }

  lemma {:induction false} LeadingDigitsOfAllDigits(s: string, radix: nat)
    requires AllDigits(s, radix)
    ensures LeadingDigits(s, radix) == s
    decreases |s|
  {
    if |s| > 0 {
      LeadingDigitsOfAllDigits(s[1..], radix);
    }
  }

  lemma DecimalDigitIsPlain(c: char)
    requires IsDigit(c, 10)
    ensures '0' <= c <= '9'
    ensures !IsWhitespace(c) && c != '-' && c != '+' && c != 'x' && c != 'X'
  {
  }

  /** `parseInt` reads a string of decimal digits as the number it denotes,
      whatever leading zeros it has ("02" reads as 2). */
  lemma ParseIntOfDigits(s: string)
    requires |s| >= 1 && AllDigits(s, 10)
    ensures ParseInt(s) == Int(DigitsValue(s, 10))
  {
    DecimalDigitIsPlain(s[0]);
    assert TrimStart(s) == s;
    if |s| >= 2 {
      DecimalDigitIsPlain(s[1]);
    }
    assert !HasHexPrefix(s);
    assert ParseSigned(s) == ParseMagnitude(s);
    LeadingDigitsOfAllDigits(s, 10);
  }

  /** Reading back a rendered integer gives the integer. */
  lemma ParseIntOfIntToString(n: int)
    ensures ParseInt(IntToString(n)) == Int(n)
  {
    var m: nat := if n < 0 then -n else n;
    var d := NatToString(m);
    DigitsValueOfNatToString(m);
    ParseIntOfDigits(d);
    if n < 0 {
      var s := "-" + d;
      assert s[0] == '-' && s[1..] == d;
      assert TrimStart(s) == s;
      DecimalDigitIsPlain(d[0]);
      assert TrimStart(d) == d;
      assert ParseSigned(d) == ParseMagnitude(d);
      assert ParseSigned(s) == Negate(ParseMagnitude(d));
    }
  }

  /** Distinct integers render as distinct numerals. */
  lemma IntToStringInjective(a: int, b: int)
    requires IntToString(a) == IntToString(b)
    ensures a == b
  {
    ParseIntOfIntToString(a);
    ParseIntOfIntToString(b);
  }

  /** Every character of a rendered integer is a decimal digit or `-`. */
  lemma IntToStringChars(n: int)
    ensures forall i | 0 <= i < |IntToString(n)| :: '0' <= IntToString(n)[i] <= '9' || IntToString(n)[i] == '-'
    ensures n >= 0 ==> '-' !in IntToString(n)
  {
    var d := NatToString(if n < 0 then -n else n);
    forall i | 0 <= i < |d| ensures '0' <= d[i] <= '9' {
      DecimalDigitIsPlain(d[i]);
    }
  }

  /** No integer renders as "NaN". */
  lemma IntToStringNotNaN(v: int)
    ensures IntToString(v) != "NaN"
  {
    IntToStringChars(v);
    assert IntToString(v)[0] != 'N';
  }

  /** Distinct numbers render as distinct texts, NaN included. */
  lemma NumberToStringInjective(a: Num, b: Num)
    ensures NumberToString(a) == NumberToString(b) ==> a == b
  {
    if a.Int? && b.Int? {
      if NumberToString(a) == NumberToString(b) {
        IntToStringInjective(a.value, b.value);
      }
    } else if a.Int? {
      IntToStringNotNaN(a.value);
    } else if b.Int? {
      IntToStringNotNaN(b.value);
    }
  }

  lemma {:induction false} DigitsValuePositive(z: string)
    requires |z| >= 1 && AllDigits(z, 10) && z[0] != '0'
    ensures DigitsValue(z, 10) >= 1
    decreases |z|
  {
    if |z| > 1 {
      DigitsValuePositive(z[..|z| - 1]);
    }
  }

  lemma {:induction false} NatToStringOfDigitsValue(s: string)
    requires CanonicalDecimal(s)
    ensures NatToString(DigitsValue(s, 10)) == s
    decreases |s|
  {
    var p := s[..|s| - 1];
    var n := DigitsValue(s, 10);
    if |s| > 1 {
      assert CanonicalDecimal(p);
      NatToStringOfDigitsValue(p);
      DigitsValuePositive(p);
      assert n / 10 == DigitsValue(p, 10) && n % 10 == DigitValue(s[|s| - 1]);
      assert s == p + [s[|s| - 1]];
    } else {
      assert s == [s[0]];
    }
  }

  /** Rendering the result of `parseInt` on a canonical decimal numeral gives
      the numeral back: the one case where parse-then-render is the identity. */
  lemma NumberToStringOfParseInt(s: string)
    requires CanonicalDecimal(s)
    ensures NumberToString(ParseInt(s)) == s
  {
    ParseIntOfDigits(s);
    NatToStringOfDigitsValue(s);
  }

  /** `parseInt` gives NaN for a string whose first character can start
      neither white space, a sign nor a digit. */
  lemma ParseIntNaN(s: string)
    requires |s| >= 1
    requires !IsWhitespace(s[0]) && s[0] != '-' && s[0] != '+' && !IsDigit(s[0], 10)
    ensures ParseInt(s) == NaN
  {
  }

  lemma {:induction false} DigitsValueLeadingZero(d: string)
    requires AllDigits(d, 10)
    ensures AllDigits("0" + d, 10) && DigitsValue("0" + d, 10) == DigitsValue(d, 10)
    decreases |d|
  {
    assert AllDigits("0" + d, 10) by {
      assert forall i | 1 <= i < |"0" + d| :: ("0" + d)[i] == d[i - 1];
    }
    if |d| > 0 {
      var init := d[..|d| - 1];
      DigitsValueLeadingZero(init);
      assert ("0" + d)[..|d|] == "0" + init;
    }
  }

  /** A leading zero is dropped: "0" followed by decimal digits reads as the
      digits alone ("02" reads as 2). */
  lemma ParseIntLeadingZero(d: string)
    requires |d| >= 1 && AllDigits(d, 10)
    ensures ParseInt("0" + d) == ParseInt(d)
  {
    DigitsValueLeadingZero(d);
    ParseIntOfDigits(d);
    ParseIntOfDigits("0" + d);
  }

  /** Leading white space is skipped. */
  lemma {:induction false} ParseIntSkipsWhitespace(w: string, s: string)
    requires forall i | 0 <= i < |w| :: IsWhitespace(w[i])
    ensures ParseInt(w + s) == ParseInt(s)
    decreases |w|
  {
    if |w| > 0 {
      assert (w + s)[1..] == w[1..] + s;
      ParseIntSkipsWhitespace(w[1..], s);
    } else {
      assert w + s == s;
    }
  }

  /** A minus sign before decimal digits negates their value. */
  lemma ParseIntNegative(d: string)
    requires |d| >= 1 && AllDigits(d, 10)
    ensures ParseInt("-" + d) == Int(-(DigitsValue(d, 10) as int))
  {
    ParseIntAfterMinus(d);
    DecimalDigitIsPlain(d[0]);
    ParseIntUnsigned(d);
    ParseIntOfDigits(d);
  }

  /** A leading minus sign is taken as the sign. */
  lemma ParseIntAfterMinus(u: string)
    ensures ParseInt("-" + u) == Negate(ParseMagnitude(u))
  {
    var s := "-" + u;
    assert s[0] == '-' && s[1..] == u;
    assert TrimStart(s) == s;
  }

  /** Text that starts with neither white space nor a sign is read as a
      magnitude straight away. */
  lemma ParseIntUnsigned(u: string)
    requires |u| >= 1 && !IsWhitespace(u[0]) && u[0] != '-' && u[0] != '+'
    ensures ParseInt(u) == ParseMagnitude(u)
  {
    assert TrimStart(u) == u;
  }

  /** Whatever follows the digits is ignored, as long as it cannot extend
      them ("3px" reads as 3). */
  lemma {:induction false} LeadingDigitsStop(d: string, rest: string, radix: nat)
    requires AllDigits(d, radix)
    requires |rest| == 0 || !IsDigit(rest[0], radix)
    ensures LeadingDigits(d + rest, radix) == d
    decreases |d|
  {
    if |d| > 0 {
      assert (d + rest)[1..] == d[1..] + rest;
      LeadingDigitsStop(d[1..], rest, radix);
    } else {
      assert d + rest == rest;
    }
  }

  lemma ParseIntTrailingText(d: string, rest: string)
    requires |d| >= 1 && AllDigits(d, 10)
    requires |rest| == 0 || !IsDigit(rest[0], 10)
    requires d != "0" || |rest| == 0 || (rest[0] != 'x' && rest[0] != 'X')
    ensures ParseInt(d + rest) == Int(DigitsValue(d, 10))
  {
    var s := d + rest;
    DecimalDigitIsPlain(d[0]);
    assert s[0] == d[0];
    assert TrimStart(s) == s;
    if |d| >= 2 {
      DecimalDigitIsPlain(d[1]);
      assert s[1] == d[1];
    } else if |rest| > 0 && d[0] == '0' {
      assert d == "0";
      assert s[1] == rest[0];
    }
    assert !HasHexPrefix(s);
    LeadingDigitsStop(d, rest, 10);
  }

  /** A `0x` or `0X` prefix switches to radix 16 ("0x1A" reads as 26). */
  lemma ParseIntHex(h: string, x: char)
    requires x == 'x' || x == 'X'
    requires |h| >= 1 && AllDigits(h, 16)
    ensures ParseInt("0" + [x] + h) == Int(DigitsValue(h, 16))
  {
    var s := "0" + [x] + h;
    assert s[0] == '0' && s[1] == x && s[2..] == h;
    assert TrimStart(s) == s;
    assert ParseSigned(s) == ParseMagnitude(s);
    assert HasHexPrefix(s);
    LeadingDigitsOfAllDigits(h, 16);
    assert DigitRun(h, 16) == Int(DigitsValue(h, 16));
  }

  /** A missing stored value reaches `parseInt` as the text "null": NaN. */
  lemma ParseIntNull()
    ensures ParseInt("null") == NaN
  {
    ParseIntNaN("null");
  }
}
