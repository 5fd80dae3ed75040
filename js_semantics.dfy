/**
 * The pieces of JavaScript's built-in semantics that the map components lean on:
 * turning a possibly-undefined string into a string (which is also how an object
 * property key is formed from a value), and the global `parseInt` called without
 * a radix argument (ECMA-262, section 19.2.5).
 */
module JsSemantics {
  import opened Wrappers

  /**
   * `String(v)` for a value that is a string or `undefined`. JavaScript uses the same
   * conversion when a value is written as a property key, so `acc[undefined]` and
   * `acc["undefined"]` are one entry.
   */
  function JsString(v: Option<string>): string
  {
    match v
    case Some(s) => s
    case None => "undefined"
  }

  /**
   * The one property key of a plain object that an inherited accessor owns: writing a
   * number to it changes nothing, and reading it yields `Object.prototype`, not a number.
   */
  const ProtoKey := "__proto__"

  /**
   * StrWhiteSpaceChar (ECMA-262, section 7.1.4.1): the WhiteSpace code points (TAB, VT,
   * FF, ZWNBSP and every code point of Unicode category Zs) and the LineTerminator
   * code points (LF, CR, LS, PS).
   */
  predicate IsStrWhiteSpace(c: char)
  {
    || c == '\t' || c == '\U{000B}' || c == '\U{000C}' || c == '\U{FEFF}'
    || c == ' ' || c == '\U{00A0}' || c == '\U{1680}' || '\U{2000}' <= c <= '\U{200A}'
    || c == '\U{202F}' || c == '\U{205F}' || c == '\U{3000}'
    || c == '\n' || c == '\r' || c == '\U{2028}' || c == '\U{2029}'
  }

  predicate AllWhiteSpace(s: string)
  {
    forall i :: 0 <= i < |s| ==> IsStrWhiteSpace(s[i])
  }

  /** The string with its leading white space removed (the first step of `parseInt`). */
  function TrimStart(s: string): string
  {
    if s != [] && IsStrWhiteSpace(s[0]) then TrimStart(s[1..]) else s
  }

  /**
   * `TrimStart` removes exactly the leading white space: what it returns is a suffix of
   * its input, everything it removed is white space, and what is left does not start with any.
   */
  lemma {:induction false} TrimStartRemovesWhiteSpace(s: string)
    ensures var t := TrimStart(s);
      |t| <= |s| && t == s[|s| - |t|..] && AllWhiteSpace(s[..|s| - |t|]) && (t == [] || !IsStrWhiteSpace(t[0]))
  {
    if s != [] && IsStrWhiteSpace(s[0]) {
      TrimStartRemovesWhiteSpace(s[1..]);
    }
  }

  /** The value of `c` as a digit in radix 36 ('0'-'9', then 'a'-'z' or 'A'-'Z'); 36 for any other character. */
  function DigitValue(c: char): nat
  {
    if '0' <= c <= '9' then (c - '0') as nat
    else if 'a' <= c <= 'z' then (c - 'a') as nat + 10
    else if 'A' <= c <= 'Z' then (c - 'A') as nat + 10
    else 36
  }

  predicate IsRadixDigit(c: char, radix: nat)
  {
    DigitValue(c) < radix
  }

  predicate IsDecimalDigit(c: char)
  {
    '0' <= c <= '9'
  }

  /** The length of the longest prefix of `s` made of radix-`radix` digits. */
  function DigitPrefixLength(s: string, radix: nat): (n: nat)
    ensures n <= |s|
    ensures forall i :: 0 <= i < n ==> IsRadixDigit(s[i], radix)
    ensures n < |s| ==> !IsRadixDigit(s[n], radix)
  {
    if s != [] && IsRadixDigit(s[0], radix) then 1 + DigitPrefixLength(s[1..], radix) else 0
  }

  /** The number a string of digits denotes in the given radix, most significant digit first. */
  function DigitsValue(d: string, radix: nat): nat
  {
    if d == [] then 0 else DigitsValue(d[..|d| - 1], radix) * radix + DigitValue(d[|d| - 1])
  }

  /**
   * `parseInt(s)` with no radix: skip leading white space, take an optional sign, switch
   * to radix 16 after a "0x" or "0X" prefix, then read the longest digit prefix. `None`
   * is NaN, the result when that prefix is empty. JavaScript returns -0 for "-0"; as an
   * integer that is 0.
   */
  function ParseInt(s: string): Option<int>
  {
    ParseSigned(TrimStart(s))
  }

  /** `parseInt` after the white space: an optional '-' or '+', then the magnitude. */
  function ParseSigned(t: string): Option<int>
  {
    if t != [] && t[0] == '-' then Negate(ParseMagnitude(t[1..]))
    else if t != [] && t[0] == '+' then ParseMagnitude(t[1..])
    else ParseMagnitude(t)
  }

  function Negate(r: Option<int>): Option<int>
  {
    match r
    case None => None
    case Some(m) => Some(-m)
  }

  /** "0x" or "0X" at the start: what follows is read in radix 16. */
  predicate HasHexPrefix(u: string)
  {
    |u| >= 2 && u[0] == '0' && (u[1] == 'x' || u[1] == 'X')
  }

  /** The unsigned part: hexadecimal after "0x" or "0X", decimal otherwise; `None` when no digit follows. */
  function ParseMagnitude(u: string): Option<int>
  {
    var hex := HasHexPrefix(u);
    var radix := if hex then 16 else 10;
    var v := if hex then u[2..] else u;
    var n := DigitPrefixLength(v, radix);
    if n == 0 then None else Some(DigitsValue(v[..n], radix))
  }

  function DecimalDigit(d: nat): char
    requires d < 10
  {
    '0' + d as char
  }

  /** `String(m)` for a non-negative integer below 10^21: its decimal digits without leading zeros. */
  function NatToDecimal(m: nat): (s: string)
    ensures s != [] && forall i :: 0 <= i < |s| ==> IsDecimalDigit(s[i])
    ensures m > 0 ==> s[0] != '0'
  {
    if m < 10 then [DecimalDigit(m)] else NatToDecimal(m / 10) + [DecimalDigit(m % 10)]
  }

  /** `String(n)` for an integer of magnitude below 10^21. */
  function IntToDecimal(n: int): string
  {
    if n < 0 then "-" + NatToDecimal(-n) else NatToDecimal(n)
  }

  lemma {:induction false} DigitsValueOfDecimal(m: nat)
    ensures DigitsValue(NatToDecimal(m), 10) == m
  {
    if m >= 10 {
      var d := NatToDecimal(m / 10);
      var s := NatToDecimal(m);
      assert s == d + [DecimalDigit(m % 10)];
      assert s[..|s| - 1] == d;
      DigitsValueOfDecimal(m / 10);
    }
  }

  lemma {:induction false} DigitPrefixOfDigits(d: string, rest: string, radix: nat)
    requires forall i :: 0 <= i < |d| ==> IsRadixDigit(d[i], radix)
    requires rest == [] || !IsRadixDigit(rest[0], radix)
    ensures DigitPrefixLength(d + rest, radix) == |d|
  {
    if d != [] {
      assert (d + rest)[1..] == d[1..] + rest;
      DigitPrefixOfDigits(d[1..], rest, radix);
    } else {
      assert d + rest == rest;
    }
  }

  /** White space in front of a string never changes what `parseInt` reads. */
  lemma {:induction false} TrimStartSkipsWhiteSpace(ws: string, s: string)
    requires AllWhiteSpace(ws)
    ensures TrimStart(ws + s) == TrimStart(s)
  {
    if ws != [] {
      assert (ws + s)[1..] == ws[1..] + s;
      TrimStartSkipsWhiteSpace(ws[1..], s);
    } else {
      assert ws + s == s;
    }
  }

  lemma ParseIntSkipsLeadingWhiteSpace(ws: string, s: string)
    requires AllWhiteSpace(ws)
    ensures ParseInt(ws + s) == ParseInt(s)
  {
    TrimStartSkipsWhiteSpace(ws, s);
  }

  /** The sign `parseInt` accepts in front of the digits. */
  datatype Sign = Unsigned | Plus | Minus

  function SignText(sg: Sign): string
  {
    match sg
    case Unsigned => ""
    case Plus => "+"
    case Minus => "-"
  }

  /** The result of the unsigned parse, negated after '-'. */
  function ApplySign(sg: Sign, r: Option<int>): Option<int>
  {
    if sg == Minus then Negate(r) else r
  }

  /**
   * `u` is what follows the white space and the sign: with no sign it starts with neither
   * white space nor a sign character, so the white space and the sign were read whole.
   */
  predicate FollowsSign(sg: Sign, u: string)
  {
    sg == Unsigned && u != [] ==> u[0] != '+' && u[0] != '-' && !IsStrWhiteSpace(u[0])
  }

  predicate AllDecimalDigits(d: string)
  {
    forall i :: 0 <= i < |d| ==> IsDecimalDigit(d[i])
  }

  /** Every string splits into leading white space, an optional sign and the rest, as `parseInt` reads it. */
  lemma SplitSignedInput(s: string) returns (ws: string, sg: Sign, u: string)
    ensures s == ws + SignText(sg) + u
    ensures AllWhiteSpace(ws) && FollowsSign(sg, u)
  {
    var t := TrimStart(s);
    TrimStartRemovesWhiteSpace(s);
    ws := s[..|s| - |t|];
    assert s == ws + t;
    if t != [] && (t[0] == '+' || t[0] == '-') {
      sg := if t[0] == '+' then Plus else Minus;
      u := t[1..];
      assert t == SignText(sg) + u;
    } else {
      sg := Unsigned;
      u := t;
      assert t == SignText(sg) + u;
    }
  }

  /** Past the white space and the sign, `parseInt` is the unsigned parse, negated after '-'. */
  lemma ParseIntPeel(ws: string, sg: Sign, u: string)
    requires AllWhiteSpace(ws) && FollowsSign(sg, u)
    ensures ParseInt(ws + SignText(sg) + u) == ApplySign(sg, ParseMagnitude(u))
  {
    var t := SignText(sg) + u;
    calc {
      ParseInt(ws + SignText(sg) + u);
      { assert ws + SignText(sg) + u == ws + t; }
      ParseSigned(TrimStart(ws + t));
      { TrimStartSkipsWhiteSpace(ws, t); SignStartsTrimmed(sg, u); }
      ParseSigned(t);
      { SignedPeel(sg, u); }
      ApplySign(sg, ParseMagnitude(u));
    }
  }

  lemma SignStartsTrimmed(sg: Sign, u: string)
    requires FollowsSign(sg, u)
    ensures TrimStart(SignText(sg) + u) == SignText(sg) + u
  {
    var t := SignText(sg) + u;
    if sg == Unsigned {
      assert t == u;
    } else {
      assert t[0] == SignText(sg)[0];
    }
  }

  lemma SignedPeel(sg: Sign, u: string)
    requires FollowsSign(sg, u)
    ensures ParseSigned(SignText(sg) + u) == ApplySign(sg, ParseMagnitude(u))
  {
    var t := SignText(sg) + u;
    match sg
    case Unsigned =>
      assert t == u;
    case Plus =>
      assert t[0] == '+' && t[1..] == u;
    case Minus =>
      assert t[0] == '-' && t[1..] == u;
  }

  /**
   * The prefix law: after white space and an optional sign, `parseInt` reads the longest
   * run of decimal digits `d` (leading zeros included) and ignores whatever follows,
   * unless the digits and what follows start with "0x" or "0X". The value `v` it reads
   * is the one the digits denote.
   */
  lemma ParseIntOfDigits(ws: string, sg: Sign, d: string, rest: string) returns (v: nat)
    requires AllWhiteSpace(ws)
    requires d != [] && AllDecimalDigits(d)
    requires rest == [] || !IsDecimalDigit(rest[0])
    requires !HasHexPrefix(d + rest)
    ensures v == DigitsValue(d, 10)
    ensures ParseInt(ws + SignText(sg) + (d + rest)) == Some(if sg == Minus then -(v as int) else v as int)
  {
    v := DigitsValue(d, 10);
    DigitsFollowSign(sg, d, rest);
    MagnitudeOfDigits(d, rest);
    ParseIntOfMagnitude(ws, sg, d + rest, v);
  }

  lemma DigitsFollowSign(sg: Sign, d: string, rest: string)
    requires d != [] && AllDecimalDigits(d)
    ensures FollowsSign(sg, d + rest)
  {
    assert (d + rest)[0] == d[0] && IsDecimalDigit(d[0]);
  }

  lemma ParseIntOfMagnitude(ws: string, sg: Sign, u: string, v: nat)
    requires AllWhiteSpace(ws) && FollowsSign(sg, u) && ParseMagnitude(u) == Some(v)
    ensures ParseInt(ws + SignText(sg) + u) == Some(if sg == Minus then -(v as int) else v as int)
  {
    ParseIntPeel(ws, sg, u);
  }

  lemma MagnitudeOfDigits(d: string, rest: string)
    requires d != [] && AllDecimalDigits(d)
    requires rest == [] || !IsDecimalDigit(rest[0])
    requires !HasHexPrefix(d + rest)
    ensures ParseMagnitude(d + rest) == Some(DigitsValue(d, 10))
  {
    var u := d + rest;
    DigitPrefixOfDigits(d, rest, 10);
    assert u[..|d|] == d;
  }

  /**
   * `parseInt` gives NaN exactly when no digit follows the white space and the sign:
   * no decimal digit, or, after "0x" or "0X", no hexadecimal one.
   */
  lemma ParseIntIsNaN(ws: string, sg: Sign, u: string)
    requires AllWhiteSpace(ws) && FollowsSign(sg, u)
    ensures ParseInt(ws + SignText(sg) + u).None? <==>
              if HasHexPrefix(u) then |u| == 2 || !IsRadixDigit(u[2], 16)
              else u == [] || !IsDecimalDigit(u[0])
  {
    ParseIntPeel(ws, sg, u);
    MagnitudeIsNaN(u);
  }

  lemma MagnitudeIsNaN(u: string)
    ensures ParseMagnitude(u).None? <==>
              if HasHexPrefix(u) then |u| == 2 || !IsRadixDigit(u[2], 16)
              else u == [] || !IsDecimalDigit(u[0])
  {
  }

  /**
   * Round trip: `parseInt` reads back any integer written in decimal, whatever white
   * space precedes it and whatever follows it, as long as what follows does not continue
   * the number (a digit) or turn a lone "0" into a hexadecimal prefix ("0x").
   */
  lemma ParseIntOfDecimal(ws: string, n: int, rest: string)
    requires AllWhiteSpace(ws)
    requires rest == [] || !IsDecimalDigit(rest[0])
    requires n == 0 && rest != [] ==> rest[0] != 'x' && rest[0] != 'X'
    ensures ParseInt(ws + IntToDecimal(n) + rest) == Some(n)
  {
    var sg, d := DecimalAsDigits(n);
    assert ws + IntToDecimal(n) + rest == ws + SignText(sg) + (d + rest);
    assert !HasHexPrefix(d + rest) by {
      assert (d + rest)[0] == d[0];
      assert |d| >= 2 ==> (d + rest)[1] == d[1];
    }
    var v := ParseIntOfDigits(ws, sg, d, rest);
    assert v == DigitsValue(d, 10);
    assert (if sg == Minus then -(v as int) else v as int) == n;
  }

  /** The decimal form of `n` is its sign followed by its digits, without a leading zero. */
  lemma DecimalAsDigits(n: int) returns (sg: Sign, d: string)
    ensures IntToDecimal(n) == SignText(sg) + d
    ensures sg != Plus && (sg == Minus <==> n < 0)
    ensures d != [] && AllDecimalDigits(d) && (d[0] == '0' ==> |d| == 1)
    ensures DigitsValue(d, 10) == if n < 0 then -n else n
  {
    var m: nat := if n < 0 then -n else n;
    sg := if n < 0 then Minus else Unsigned;
    d := NatToDecimal(m);
    DigitsValueOfDecimal(m);
  }

  predicate NoDecimalDigit(s: string)
  {
    forall i :: 0 <= i < |s| ==> !IsDecimalDigit(s[i])
  }

  /** A string without a single decimal digit (such as "undefined" or "") parses to NaN. */
  lemma ParseIntWithoutDigits(s: string)
    requires NoDecimalDigit(s)
    ensures ParseInt(s) == None
  {
    var ws, sg, u := SplitSignedInput(s);
    if u != [] {
      assert u[0] == s[|ws| + |SignText(sg)|];
    }
    ParseIntIsNaN(ws, sg, u);
  }
}
