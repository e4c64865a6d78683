/**
  The global function parseInt(string) of ECMAScript (ECMA-262, section 19.2.5,
  "parseInt ( string, radix )"), called with the radix left undefined, as the
  delete handler does in `isNaN(parseInt(id))`.

  The algorithm trims leading white space, reads an optional sign, strips an
  optional "0x"/"0X" prefix (which selects radix 16, otherwise radix 10) and
  takes the longest run of digits of that radix.  When that run is empty the
  result is NaN, modelled here as None.  The Number conversion of the digit
  value (rounding above 2^53, the sign of -0) is not modelled: the result is
  the exact integer.
*/
module JsParseInt {
  import opened Wrappers

  /** StrWhiteSpaceChar: a WhiteSpace or LineTerminator code point (ECMA-262, sections 12.2 and 12.3). */
  predicate IsStrWhiteSpace(c: char) {
    var u := c as int;
    // TAB, LF, VT, FF, CR
    (0x09 <= u <= 0x0D)
    // SP, NBSP, ZWNBSP
    || u == 0x20 || u == 0xA0 || u == 0xFEFF
    // the other code points of general category Zs
    || u == 0x1680 || (0x2000 <= u <= 0x200A) || u == 0x202F || u == 0x205F || u == 0x3000
    // LS, PS
    || u == 0x2028 || u == 0x2029
  }

  predicate AllWhiteSpace(s: string) {
    forall i :: 0 <= i < |s| ==> IsStrWhiteSpace(s[i])
  }

  predicate IsDecimalDigit(c: char) {
    '0' <= c <= '9'
  }

  /** A digit of radix 10 or 16 (in radix 16 the letters a-f in either case). */
  predicate IsRadixDigit(c: char, radix: int) {
    IsDecimalDigit(c) || (radix == 16 && ('a' <= c <= 'f' || 'A' <= c <= 'F'))
  }

  function DigitValue(c: char): (d: nat)
    requires IsRadixDigit(c, 16)
    ensures d < 16
    ensures IsDecimalDigit(c) ==> d < 10
  {
    if IsDecimalDigit(c) then c as int - '0' as int
    else if 'a' <= c <= 'f' then c as int - 'a' as int + 10
    else c as int - 'A' as int + 10
  }

  predicate AllRadixDigits(s: string, radix: int) {
    forall i :: 0 <= i < |s| ==> IsRadixDigit(s[i], radix)
  }

  /** The value of a run of digits, most significant first. */
  function DigitsValue(ds: string, radix: nat): nat
    requires radix == 10 || radix == 16
    requires AllRadixDigits(ds, radix)
  {
    if ds == [] then 0
    else DigitsValue(ds[..|ds| - 1], radix) * radix + DigitValue(ds[|ds| - 1])
  }

  /** Step 2 of the algorithm: the string with its leading white space removed. */
  function TrimStart(s: string): (t: string)
    ensures |t| <= |s| && t == s[|s| - |t|..]
    ensures AllWhiteSpace(s[..|s| - |t|])
    ensures t == [] || !IsStrWhiteSpace(t[0])
  {
    if s != [] && IsStrWhiteSpace(s[0]) then TrimStart(s[1..]) else s
  }

  /** Step 11: the length of the longest prefix of s made of digits of the radix. */
  function DigitSpan(s: string, radix: int): (n: nat)
    ensures n <= |s|
    ensures AllRadixDigits(s[..n], radix)
    ensures n == |s| || !IsRadixDigit(s[n], radix)
  {
    if s != [] && IsRadixDigit(s[0], radix) then 1 + DigitSpan(s[1..], radix) else 0
  }

  /** Steps 4 and 5: the sign is -1 exactly when the trimmed string starts with "-". */
  function SignOf(t: string): int {
    if t != [] && t[0] == '-' then -1 else 1
  }

  function StripSign(t: string): string {
    if t != [] && (t[0] == '+' || t[0] == '-') then t[1..] else t
  }

  /** Step 10: a "0x" or "0X" prefix selects radix 16. */
  predicate HasHexPrefix(u: string) {
    |u| >= 2 && u[0] == '0' && (u[1] == 'x' || u[1] == 'X')
  }

  function RadixOf(u: string): nat {
    if HasHexPrefix(u) then 16 else 10
  }

  function StripPrefix(u: string): string {
    if HasHexPrefix(u) then u[2..] else u
  }

  /** What the algorithm reads from its input before converting digits to a number. */
  datatype Scan = Scan(sign: int, radix: nat, digits: string, rest: string)

  function ScanNumber(s: string): (p: Scan)
    ensures p.sign == -1 || p.sign == 1
    ensures p.radix == 10 || p.radix == 16
    ensures AllRadixDigits(p.digits, p.radix)
    ensures p.rest == [] || !IsRadixDigit(p.rest[0], p.radix)
  {
    var t := TrimStart(s);
    var u := StripSign(t);
    var radix := RadixOf(u);
    var v := StripPrefix(u);
    var n := DigitSpan(v, radix);
    Scan(SignOf(t), radix, v[..n], v[n..])
  }

  /** The sign character steps 4 and 5 remove, if any. */
  function SignText(t: string): string {
    if t != [] && (t[0] == '+' || t[0] == '-') then t[..1] else ""
  }

  /** The "0x"/"0X" prefix step 10 removes, if any. */
  function PrefixText(u: string): string {
    if HasHexPrefix(u) then u[..2] else ""
  }

  lemma SignSplit(t: string)
    ensures var sg := SignText(t);
      && (sg == "" || sg == "+" || sg == "-")
      && t == sg + StripSign(t)
      && (SignOf(t) == -1 <==> sg == "-")
      && (sg == "" ==> t == [] || (t[0] != '+' && t[0] != '-'))
  {
    if t != [] {
      assert t == t[..1] + t[1..];
    }
    assert t == "" + t;
  }

  lemma PrefixSplit(u: string)
    ensures var px := PrefixText(u);
      && (px == "" || px == "0x" || px == "0X")
      && u == px + StripPrefix(u)
      && (RadixOf(u) == 16 <==> px != "")
      && (px == "" ==> !HasHexPrefix(u))
  {
    assert |u| >= 2 ==> u == u[..2] + u[2..];
    assert u == "" + u;
  }

  lemma ConcatFour(t: string, sg: string, u: string, px: string, v: string, ds: string, rest: string)
    requires t == sg + u && u == px + v && v == ds + rest
    ensures t == sg + px + ds + rest
  {
    assert sg + px + ds + rest == sg + (px + (ds + rest));
  }

  lemma SplitAt(v: string, n: nat)
    requires n <= |v|
    ensures v == v[..n] + v[n..]
  {
  }

  lemma PartsOf(t: string, ds: string, rest: string)
    requires StripPrefix(StripSign(t)) == ds + rest
    ensures t == SignText(t) + PrefixText(StripSign(t)) + ds + rest
  {
    var u := StripSign(t);
    SignSplit(t);
    PrefixSplit(u);
    ConcatFour(t, SignText(t), u, PrefixText(u), StripPrefix(u), ds, rest);
  }

  /** The parts of the scan: trimmed text, sign, prefix, digits and rest. */
  lemma ScanParts(s: string)
    ensures var t := TrimStart(s); var u := StripSign(t); var p := ScanNumber(s);
      && t == SignText(t) + PrefixText(u) + p.digits + p.rest
      && (p.sign == -1 <==> SignText(t) == "-")
      && (p.radix == 16 <==> PrefixText(u) != "")
  {
    var t := TrimStart(s);
    var u := StripSign(t);
    var v := StripPrefix(u);
    var n := DigitSpan(v, RadixOf(u));
    SplitAt(v, n);
    assert ScanNumber(s) == Scan(SignOf(t), RadixOf(u), v[..n], v[n..]);
    PartsOf(t, v[..n], v[n..]);
    SignSplit(t);
    PrefixSplit(u);
  }

  /**
    The scan reads the input as white space, one optional sign, one optional
    hex prefix, the digits and the rest, each part as long as it can be.
  */
  lemma ScanDecomposes(s: string) returns (k: nat, sg: string, px: string)
    ensures k <= |s| && AllWhiteSpace(s[..k])
    ensures k == |s| || !IsStrWhiteSpace(s[k])
    ensures sg == "" || sg == "+" || sg == "-"
    ensures ScanNumber(s).sign == -1 <==> sg == "-"
    ensures sg == "" ==> k == |s| || (s[k] != '+' && s[k] != '-')
    ensures px == "" || px == "0x" || px == "0X"
    ensures ScanNumber(s).radix == 16 <==> px != ""
    ensures k + |sg| <= |s| && (px == "" ==> !HasHexPrefix(s[k + |sg|..]))
    ensures s[k..] == sg + px + ScanNumber(s).digits + ScanNumber(s).rest
  {
    var t := TrimStart(s);
    k := |s| - |t|;
    assert s[k..] == t;
    var u := StripSign(t);
    sg, px := SignText(t), PrefixText(u);
    SignSplit(t);
    PrefixSplit(u);
    ScanParts(s);
    assert s[k + |sg|..] == u;
  }

  /** parseInt(s) with an undefined radix; None stands for NaN. */
  function ParseInt(s: string): Option<int> {
    var p := ScanNumber(s);
    if p.digits == [] then None else Some(p.sign * DigitsValue(p.digits, p.radix))
  }

  // ---------------------------------------------------------------------------
  // An independent, grammar-style description of the strings parseInt accepts

  /** A numeral starts here: "0x"/"0X" followed by a hex digit, or (without that prefix) a decimal digit. */
  predicate StartsWithNumeral(v: string) {
    if |v| >= 2 && v[0] == '0' && (v[1] == 'x' || v[1] == 'X') then |v| >= 3 && IsRadixDigit(v[2], 16)
    else v != [] && IsDecimalDigit(v[0])
  }

  predicate StartsWithSignedNumeral(u: string) {
    StartsWithNumeral(u) || (u != [] && (u[0] == '+' || u[0] == '-') && StartsWithNumeral(u[1..]))
  }

  /** Some white space, then an optionally signed numeral, then anything. */
  predicate HasIntegerPrefix(s: string) {
    exists k :: 0 <= k <= |s| && AllWhiteSpace(s[..k]) && StartsWithSignedNumeral(s[k..])
  }

  lemma NumeralIff(u: string)
    ensures StartsWithNumeral(u) <==> (var v := StripPrefix(u); v != [] && IsRadixDigit(v[0], RadixOf(u)))
  {
    if HasHexPrefix(u) {
      assert |u| >= 3 ==> StripPrefix(u)[0] == u[2];
    }
  }

  lemma SignedNumeralIff(t: string)
    ensures StartsWithSignedNumeral(t) <==> StartsWithNumeral(StripSign(t))
  {
  }

  /** After trimming, digits are found exactly when an optionally signed numeral starts the string. */
  lemma ParseIntSomeIff(s: string)
    ensures ParseInt(s).Some? <==> StartsWithSignedNumeral(TrimStart(s))
  {
    var t := TrimStart(s);
    var u := StripSign(t);
    var v := StripPrefix(u);
    var n := DigitSpan(v, RadixOf(u));
    assert n > 0 <==> v != [] && IsRadixDigit(v[0], RadixOf(u));
    assert |v[..n]| == n;
    NumeralIff(u);
    SignedNumeralIff(t);
  }

  lemma SignedNumeralNotWhiteSpace(u: string)
    requires StartsWithSignedNumeral(u)
    ensures u != [] && !IsStrWhiteSpace(u[0])
  {
  }

  /** Leading white space is removed maximally, so any white-space prefix followed by a non-blank is it. */
  lemma {:induction false} TrimStartUnique(s: string, k: nat)
    requires k <= |s| && AllWhiteSpace(s[..k])
    requires k == |s| || !IsStrWhiteSpace(s[k])
    ensures TrimStart(s) == s[k..]
  {
    if k > 0 {
      assert s[..k][0] == s[0];
      assert s[1..][..k - 1] == s[1..k];
      assert forall i :: 0 <= i < k - 1 ==> s[1..k][i] == s[..k][i + 1];
      TrimStartUnique(s[1..], k - 1);
      assert s[1..][k - 1..] == s[k..];
    }
  }

  /** isNaN(parseInt(s)) is false exactly when s begins (after white space) with an optionally signed numeral. */
  lemma ParseIntDefinedIff(s: string)
    ensures ParseInt(s).Some? <==> HasIntegerPrefix(s)
  {
    var t := TrimStart(s);
    var k0 := |s| - |t|;
    assert s[k0..] == t;
    ParseIntSomeIff(s);
    if HasIntegerPrefix(s) {
      var k :| 0 <= k <= |s| && AllWhiteSpace(s[..k]) && StartsWithSignedNumeral(s[k..]);
      SignedNumeralNotWhiteSpace(s[k..]);
      TrimStartUnique(s, k);
    }
  }

  // ---------------------------------------------------------------------------
  // Round trip with the decimal formatting of an integer, String(n)

  function DigitChar(d: nat): (c: char)
    requires d < 10
    ensures IsDecimalDigit(c) && DigitValue(c) == d
  {
    ('0' as int + d) as char
  }

  /** The decimal numeral of n, without leading zeros. */
  function Decimal(n: nat): (s: string)
    ensures s != [] && AllRadixDigits(s, 10)
  {
    if n < 10 then [DigitChar(n)] else Decimal(n / 10) + [DigitChar(n % 10)]
  }

  /** String(n) for an integer n with |n| < 10^21; beyond that JavaScript writes an exponent. */
  function IntToString(n: int): string {
    if n < 0 then "-" + Decimal(-n) else Decimal(n)
  }

  lemma {:induction false} DecimalValue(n: nat)
    ensures DigitsValue(Decimal(n), 10) == n
  {
    if n >= 10 {
      var s := Decimal(n);
      assert s[..|s| - 1] == Decimal(n / 10);
      DecimalValue(n / 10);
    }
  }

  lemma {:induction false} DecimalLeadingZero(n: nat)
    ensures Decimal(n)[0] == '0' ==> n == 0
  {
    if n >= 10 {
      DecimalLeadingZero(n / 10);
      assert Decimal(n)[0] == Decimal(n / 10)[0];
    }
  }

  lemma {:induction false} TrimStartAfterWhiteSpace(w: string, x: string)
    requires AllWhiteSpace(w)
    requires x == [] || !IsStrWhiteSpace(x[0])
    ensures TrimStart(w + x) == x
  {
    if w == [] {
      assert w + x == x;
    } else {
      assert (w + x)[1..] == w[1..] + x;
      TrimStartAfterWhiteSpace(w[1..], x);
    }
  }

  lemma {:induction false} DigitSpanOfDigits(ds: string, tail: string, radix: int)
    requires AllRadixDigits(ds, radix)
    requires tail == [] || !IsRadixDigit(tail[0], radix)
    ensures DigitSpan(ds + tail, radix) == |ds|
  {
    if ds == [] {
      assert ds + tail == tail;
    } else {
      assert (ds + tail)[1..] == ds[1..] + tail;
      DigitSpanOfDigits(ds[1..], tail, radix);
    }
  }

  /** An unsigned decimal numeral followed by a non-digit is read whole, in radix 10. */
  lemma ScanDecimal(m: nat, tail: string)
    requires tail == [] || (!IsDecimalDigit(tail[0]) && (m == 0 ==> tail[0] != 'x' && tail[0] != 'X'))
    ensures var u := Decimal(m) + tail;
      && RadixOf(u) == 10 && StripPrefix(u) == u
      && DigitSpan(u, 10) == |Decimal(m)| && u[..|Decimal(m)|] == Decimal(m) && u[|Decimal(m)|..] == tail
  {
    var u := Decimal(m) + tail;
    DecimalLeadingZero(m);
    assert u[0] == Decimal(m)[0];
    if |u| >= 2 && u[0] == '0' {
      assert m == 0 && Decimal(m) == "0";
      assert u[1] == tail[0];
    }
    DigitSpanOfDigits(Decimal(m), tail, 10);
  }

  lemma SignOfIntToString(n: int, tail: string)
    ensures var m: nat := if n < 0 then -n else n;
      && SignOf(IntToString(n) + tail) == (if n < 0 then -1 else 1)
      && StripSign(IntToString(n) + tail) == Decimal(m) + tail
  {
    var m: nat := if n < 0 then -n else n;
    var x := IntToString(n) + tail;
    if n < 0 {
      assert x == "-" + (Decimal(m) + tail);
      assert x[1..] == Decimal(m) + tail;
    } else {
      assert x[0] == Decimal(m)[0];
    }
  }

  lemma IntToStringStartsNonBlank(n: int, tail: string)
    ensures var x := IntToString(n) + tail; x != [] && !IsStrWhiteSpace(x[0])
  {
    var x := IntToString(n) + tail;
    assert x[0] == IntToString(n)[0];
    if n >= 0 {
      assert IsDecimalDigit(Decimal(n)[0]);
    }
  }

  /**
    parseInt reads back the integer that String(n) wrote (for |n| < 10^21,
    where String(n) is plain decimal digits), whatever white space
    precedes it and whatever follows it, provided what follows does not extend
    the numeral (another digit, or an "x" that would turn "0" into a hex prefix).
  */
  lemma ParseIntOfIntToString(w: string, n: int, tail: string)
    requires AllWhiteSpace(w)
    requires tail == [] || (!IsDecimalDigit(tail[0]) && (n == 0 ==> tail[0] != 'x' && tail[0] != 'X'))
    ensures ParseInt(w + IntToString(n) + tail) == Some(n)
    ensures ScanNumber(w + IntToString(n) + tail) == Scan(if n < 0 then -1 else 1, 10, Decimal(if n < 0 then -n else n), tail)
  {
    var m: nat := if n < 0 then -n else n;
    ScanOfIntToString(w, n, tail);
    DecimalValue(m);
  }

  lemma ScanOfIntToString(w: string, n: int, tail: string)
    requires AllWhiteSpace(w)
    requires tail == [] || (!IsDecimalDigit(tail[0]) && (n == 0 ==> tail[0] != 'x' && tail[0] != 'X'))
    ensures ScanNumber(w + IntToString(n) + tail) == Scan(if n < 0 then -1 else 1, 10, Decimal(if n < 0 then -n else n), tail)
  {
    var m: nat := if n < 0 then -n else n;
    var x := IntToString(n) + tail;
    assert w + IntToString(n) + tail == w + x;
    IntToStringStartsNonBlank(n, tail);
    TrimStartAfterWhiteSpace(w, x);
    SignOfIntToString(n, tail);
    ScanDecimal(m, tail);
    ScanSteps(w + x, x, Decimal(m) + tail, Decimal(m), tail);
  }

  /** ScanNumber from the results of its steps. */
  lemma ScanSteps(s: string, t: string, u: string, ds: string, tail: string)
    requires TrimStart(s) == t && StripSign(t) == u
    requires RadixOf(u) == 10 && StripPrefix(u) == u
    requires DigitSpan(u, 10) == |ds| && u[..|ds|] == ds && u[|ds|..] == tail
    ensures ScanNumber(s) == Scan(SignOf(t), 10, ds, tail)
  {
  }

  // ---------------------------------------------------------------------------
  // Edge cases of the delete handler's id check

  lemma LettersAreNaN()
    ensures ParseInt("abc").None?
  {
    TrimStartUnique("abc", 0);
    ParseIntSomeIff("abc");
  }

  /** "0x" selects radix 16 and then finds no hex digit. */
  lemma HexPrefixAloneIsNaN()
    ensures ParseInt("0x").None?
  {
    TrimStartUnique("0x", 0);
    ParseIntSomeIff("0x");
  }

  /** Only one sign is read. */
  lemma TwoSignsAreNaN()
    ensures ParseInt("+-1").None?
  {
    TrimStartUnique("+-1", 0);
    ParseIntSomeIff("+-1");
  }

  /** Parsing stops at the first character that is not a digit. */
  lemma TrailingTextIgnored()
    ensures ParseInt("12abc") == Some(12)
  {
    assert "" + IntToString(12) + "abc" == "12abc";
    ParseIntOfIntToString("", 12, "abc");
  }

  lemma SignedHex()
    ensures ParseInt(" -0x1F") == Some(-31)
  {
    TrimStartUnique(" -0x1F", 1);
    assert " -0x1F"[1..] == "-0x1F";
    assert SignOf("-0x1F") == -1 && StripSign("-0x1F") == "0x1F";
    assert RadixOf("0x1F") == 16 && StripPrefix("0x1F") == "1F";
    DigitSpanOfDigits("1F", "", 16);
    assert "1F" + "" == "1F";
    assert "1F"[..2] == "1F" && "1F"[2..] == "";
    assert ScanNumber(" -0x1F") == Scan(-1, 16, "1F", "");
    assert "1F"[..1] == "1";
    assert DigitsValue("1F", 16) == 31;
  }
}
