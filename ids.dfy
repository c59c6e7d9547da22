/** `validateId` (cmds.js) and the JavaScript `parseInt` it relies on
    (ECMA-262, section 19.2.5 "parseInt (string, radix)", called without a radix). */
module Ids {
  import opened Wrappers
  import opened Answers

  /** The three outcomes of `validateId`: the promise is rejected because the
      argument is missing or is not a number, or it resolves to the parsed id. */
  datatype IdResult = MissingArgument | NotANumber | Ok(id: int)

  /** A digit of the given radix; `parseInt` without a radix uses 10, or 16
      after a "0x" / "0X" prefix. */
  predicate IsDigit(c: char, radix: nat) {
    ('0' <= c <= '9') || (radix == 16 && (('a' <= c <= 'f') || ('A' <= c <= 'F')))
  }

  function DigitValue(c: char): (v: nat)
    ensures IsDigit(c, 10) ==> v < 10
    ensures IsDigit(c, 16) ==> v < 16
  {
    if '0' <= c <= '9' then c as int - '0' as int
    else if 'a' <= c <= 'f' then c as int - 'a' as int + 10
    else if 'A' <= c <= 'F' then c as int - 'A' as int + 10
    else 0
  }

  /** The longest prefix of `s` made of digits of the radix. */
  function DigitPrefix(s: string, radix: nat): (z: string)
    ensures |z| <= |s|
    ensures forall k :: 0 <= k < |z| ==> z[k] == s[k] && IsDigit(z[k], radix)
    ensures |z| == |s| || !IsDigit(s[|z|], radix)
  {
    if s != [] && IsDigit(s[0], radix) then [s[0]] + DigitPrefix(s[1..], radix) else []
  }

  /** The number that the digit string `z` denotes in the radix, most significant digit first. */
  function ValueOf(z: string, radix: nat): nat {
    if z == [] then 0 else ValueOf(z[..|z| - 1], radix) * radix + DigitValue(z[|z| - 1])
  }

  /** `parseInt(s)`, with `None` for NaN: skip leading white space, take an
      optional sign, and read the magnitude. */
  function ParseInt(s: string): (r: Option<int>)
    ensures r.Some? ==> var t := TrimStart(s);
      t != [] && (IsDigit(t[0], 10) || t[0] == '-' || t[0] == '+')
    ensures r.Some? && r.value < 0 ==> TrimStart(s)[0] == '-'
  {
    ParseSigned(TrimStart(s))
  }

  /** `parseInt` once the leading white space is gone: a "-" negates the
      magnitude that follows, a "+" is dropped. */
  function ParseSigned(t: string): (r: Option<int>)
    ensures r.Some? ==> t != [] && (IsDigit(t[0], 10) || t[0] == '-' || t[0] == '+')
    ensures r.Some? && r.value < 0 ==> t[0] == '-'
    ensures t != [] && t[0] == '-' && r.Some? ==> r.value <= 0
  {
    var sign := if t != [] && (t[0] == '-' || t[0] == '+') then t[..1] else [];
    match ParseMagnitude(t[|sign|..])
    case None => None
    case Some(v) => Some(Signed(sign, v))
  }

  /** `parseInt` after the sign: radix 16 after "0x" or "0X", otherwise 10. */
  function ParseMagnitude(u: string): (r: Option<nat>)
    ensures r.None? <==>
      if |u| >= 2 && IsHexPrefix(u[..2]) then |u| == 2 || !IsDigit(u[2], 16)
      else u == [] || !IsDigit(u[0], 10)
  {
    if |u| >= 2 && u[0] == '0' && (u[1] == 'x' || u[1] == 'X') then Magnitude(u[2..], 16)
    else Magnitude(u, 10)
  }

  /** The value of the longest run of digits of the radix at the start of `v`;
      no digit at all gives NaN. */
  function Magnitude(v: string, radix: nat): (r: Option<nat>)
    ensures r.None? <==> v == [] || !IsDigit(v[0], radix)
  {
    var z := DigitPrefix(v, radix);
    if z == [] then None else Some(ValueOf(z, radix))
  }

  /** The integer with the given sign and magnitude. */
  function Signed(sign: string, v: nat): int {
    if sign != [] && sign[0] == '-' then -(v as int) else v
  }

  /** `validateId(id)`: an absent argument (`undefined`) is rejected as missing,
      one that `parseInt` reads as NaN as not a number, and anything else
      resolves to `parseInt(id)`. */
  function ValidateId(arg: Option<string>): (r: IdResult)
    ensures r == MissingArgument <==> arg == None
    ensures r == NotANumber <==> arg.Some? && ParseInt(arg.value) == None
    ensures r.Ok? <==> arg.Some? && ParseInt(arg.value).Some?
    ensures r.Ok? ==> ParseInt(arg.value) == Some(r.id)
  {
    match arg
    case None => MissingArgument
    case Some(s) =>
      match ParseInt(s)
      case None => NotANumber
      case Some(n) => Ok(n)
  }

  // ---------------------------------------------------------------------------
  // Decimal numerals, the inverse of parseInt on integers

  function DigitChar(d: nat): char
    requires d < 10
  {
    ('0' as int + d) as char
  }

  function NatToDecimal(n: nat): string
    decreases n
  {
    if n < 10 then [DigitChar(n)] else NatToDecimal(n / 10) + [DigitChar(n % 10)]
  }

  /** The decimal numeral of an integer, as `String(n)` writes it. */
  function IntToDecimal(n: int): string {
    if n < 0 then "-" + NatToDecimal(-n) else NatToDecimal(n)
  }

  /** A numeral is a non-empty run of decimal digits with no leading zero, and denotes `n`. */
  lemma {:induction false} NatToDecimalCorrect(n: nat)
    ensures var z := NatToDecimal(n);
      z != [] && (forall k :: 0 <= k < |z| ==> IsDigit(z[k], 10))
      && ValueOf(z, 10) == n
      && (z[0] == '0' ==> |z| == 1)
  {
    var z := NatToDecimal(n);
    if n >= 10 {
      NatToDecimalCorrect(n / 10);
      var y := NatToDecimal(n / 10);
      assert z == y + [DigitChar(n % 10)];
      assert z[..|z| - 1] == y;
      assert z[0] == y[0];
    }
  }

  /** The longest digit prefix of `z + rest` is `z` when `z` is all digits and `rest` does not go on with one. */
  lemma {:induction false} DigitPrefixOf(z: string, rest: string, radix: nat)
    requires forall k :: 0 <= k < |z| ==> IsDigit(z[k], radix)
    requires rest == [] || !IsDigit(rest[0], radix)
    ensures DigitPrefix(z + rest, radix) == z
  {
    if z != [] {
      assert (z + rest)[1..] == z[1..] + rest;
      DigitPrefixOf(z[1..], rest, radix);
    }
  }

  predicate IsSign(sign: string) {
    sign == [] || (|sign| == 1 && (sign[0] == '+' || sign[0] == '-'))
  }

  /** Regrouping the parts of a string split at white space, sign and digits.
      Proved apart from its callers, whose contexts make the same step costly. */
  lemma Regroup(a: string, b: string, c: string, d: string)
    ensures a + b + c + d == a + (b + (c + d))
  {
  }

  lemma Regroup5(a: string, b: string, c: string, d: string, e: string)
    ensures a + b + c + d + e == a + (b + (c + d + e))
  {
  }

  /** "0x" or "0X". */
  predicate IsHexPrefix(x: string) {
    |x| == 2 && x[0] == '0' && (x[1] == 'x' || x[1] == 'X')
  }

  lemma DigitIsNotWhiteSpace(c: char, radix: nat)
    requires IsDigit(c, radix)
    ensures !IsWhiteSpace(c)
  {
  }

  /** A sign or a digit is where the white space skipped by `parseInt` ends. */
  lemma SignedStart(sign: string, u: string, radix: nat)
    requires IsSign(sign) && u != [] && IsDigit(u[0], radix)
    ensures !IsWhiteSpace((sign + u)[0])
  {
    if sign == [] {
      assert (sign + u)[0] == u[0];
      DigitIsNotWhiteSpace(u[0], radix);
    } else {
      assert (sign + u)[0] == sign[0];
    }
  }

  /** Leading white space never changes what `parseInt` reads. */
  lemma ParseIntSkipsWhiteSpace(ws: string, t: string)
    requires AllWhiteSpace(ws) && (t == [] || !IsWhiteSpace(t[0]))
    ensures ParseInt(ws + t) == ParseSigned(t)
  {
    TrimStartSkips(ws, t);
  }

  /** An explicit sign applies to the magnitude that follows it. */
  lemma ParseSignedOf(sign: string, u: string)
    requires IsSign(sign)
    requires sign == [] && u != [] ==> u[0] != '-' && u[0] != '+'
    ensures ParseSigned(sign + u) ==
      if ParseMagnitude(u).None? then None else Some(Signed(sign, ParseMagnitude(u).value))
  {
    if sign != [] {
      assert (sign + u)[1..] == u;
    }
  }

  lemma MagnitudeOf(z: string, rest: string, radix: nat)
    requires forall k :: 0 <= k < |z| ==> IsDigit(z[k], radix)
    requires rest == [] || !IsDigit(rest[0], radix)
    ensures Magnitude(z + rest, radix) == if z == [] then None else Some(ValueOf(z, radix))
  {
    DigitPrefixOf(z, rest, radix);
  }

  lemma MagnitudeDecimal(z: string, rest: string)
    requires z != [] && forall k :: 0 <= k < |z| ==> IsDigit(z[k], 10)
    requires rest == [] || !IsDigit(rest[0], 10)
    requires z[0] == '0' && |z| == 1 && rest != [] ==> rest[0] != 'x' && rest[0] != 'X'
    ensures ParseMagnitude(z + rest) == Some(ValueOf(z, 10))
  {
    var u := z + rest;
    assert !(|u| >= 2 && u[0] == '0' && (u[1] == 'x' || u[1] == 'X')) by {
      if |z| >= 2 { assert u[1] == z[1]; }
      else if |u| >= 2 { assert u[1] == rest[0]; }
    }
    MagnitudeOf(z, rest, 10);
  }

  lemma MagnitudeHex(x: string, z: string, rest: string)
    requires IsHexPrefix(x)
    requires forall k :: 0 <= k < |z| ==> IsDigit(z[k], 16)
    requires rest == [] || !IsDigit(rest[0], 16)
    ensures ParseMagnitude(x + z + rest) == if z == [] then None else Some(ValueOf(z, 16))
  {
    var w := z + rest;
    var u := x + w;
    assert x + z + rest == u;
    assert u[2..] == w;
    MagnitudeOf(z, rest, 16);
  }

  /** The decimal case of `parseInt`: white space, a sign, digits, then anything
      that is not a digit (and does not turn a lone "0" into a "0x" prefix). */
  lemma ParseIntDecimal(ws: string, sign: string, z: string, rest: string)
    requires AllWhiteSpace(ws) && IsSign(sign)
    requires z != [] && forall k :: 0 <= k < |z| ==> IsDigit(z[k], 10)
    requires rest == [] || !IsDigit(rest[0], 10)
    requires z[0] == '0' && |z| == 1 && rest != [] ==> rest[0] != 'x' && rest[0] != 'X'
    ensures ParseInt(ws + sign + z + rest) == Some(Signed(sign, ValueOf(z, 10)))
  {
    var u := z + rest;
    var t := sign + u;
    Regroup(ws, sign, z, rest);
    MagnitudeDecimal(z, rest);
    assert u[0] == z[0];
    ParseSignedOf(sign, u);
    SignedStart(sign, u, 10);
    ParseIntSkipsWhiteSpace(ws, t);
  }

  /** The hexadecimal case of `parseInt`: white space, a sign, "0x" or "0X",
      hexadecimal digits, then anything that is not one; with no such digit the
      result is NaN. */
  lemma ParseIntHex(ws: string, sign: string, x: string, z: string, rest: string)
    requires AllWhiteSpace(ws) && IsSign(sign) && IsHexPrefix(x)
    requires forall k :: 0 <= k < |z| ==> IsDigit(z[k], 16)
    requires rest == [] || !IsDigit(rest[0], 16)
    ensures ParseInt(ws + sign + x + z + rest) ==
      if z == [] then None else Some(Signed(sign, ValueOf(z, 16)))
  {
    var u := x + z + rest;
    var t := sign + u;
    Regroup5(ws, sign, x, z, rest);
    assert u[0] == x[0];
    SignedStart(sign, u, 10);
    assert ParseInt(ws + sign + x + z + rest) == ParseSigned(t) by {
      ParseIntSkipsWhiteSpace(ws, t);
    }
    assert ParseSigned(t) == if ParseMagnitude(u).None? then None else Some(Signed(sign, ParseMagnitude(u).value)) by {
      assert u[0] == x[0];
      ParseSignedOf(sign, u);
    }
    MagnitudeHex(x, z, rest);
  }

  /** `parseInt` is NaN when no decimal digit follows the white space and the sign. */
  lemma ParseIntNoDigits(ws: string, sign: string, rest: string)
    requires AllWhiteSpace(ws) && IsSign(sign)
    requires rest == [] || !IsDigit(rest[0], 10)
    requires sign == [] && rest != [] ==> !IsWhiteSpace(rest[0]) && rest[0] != '+' && rest[0] != '-'
    ensures ParseInt(ws + sign + rest) == None
  {
    var t := sign + rest;
    assert ws + sign + rest == ws + t;
    assert t == [] || !IsWhiteSpace(t[0]) by {
      if sign == [] && rest != [] { assert t[0] == rest[0]; }
    }
    ParseIntSkipsWhiteSpace(ws, t);
    ParseSignedOf(sign, rest);
    assert DigitPrefix(rest, 10) == [];
  }

  /** `parseInt` reads back every integer's decimal numeral. */
  lemma ParseIntRoundTrip(n: int)
    ensures ParseInt(IntToDecimal(n)) == Some(n)
  {
    var m: nat := if n < 0 then -n else n;
    var sign := if n < 0 then "-" else "";
    NatToDecimalCorrect(m);
    ParseIntNumeral(IntToDecimal(n), sign, NatToDecimal(m));
  }

  /** A sign followed by nothing but decimal digits. */
  lemma ParseIntNumeral(s: string, sign: string, z: string)
    requires IsSign(sign)
    requires z != [] && forall k :: 0 <= k < |z| ==> IsDigit(z[k], 10)
    requires s == sign + z
    ensures ParseInt(s) == Some(Signed(sign, ValueOf(z, 10)))
  {
    var w: string := [];
    assert w + sign + z + w == s by {
      assert w + sign == sign;
    }
    ParseIntDecimal(w, sign, z, w);
  }

  /** `validateId` accepts the numeral of any integer and yields that integer. */
  lemma ValidateIdNumeral(n: int)
    ensures ValidateId(Some(IntToDecimal(n))) == Ok(n)
  {
    ParseIntRoundTrip(n);
  }

  /** `validateId("abc")` rejects the argument as not a number. */
  lemma ValidateIdLettersExample()
    ensures ValidateId(Some("abc")) == NotANumber
  {
    var abc := "abc";
    assert TrimStart(abc) == abc;
    assert ParseSigned(abc) == None;
  }

  /** `validateId("7")` resolves to 7. */
  lemma ValidateIdSevenExample()
    ensures ValidateId(Some("7")) == Ok(7)
  {
    var seven := "7";
    assert TrimStart(seven) == seven;
    assert ParseSigned(seven) == Some(7);
  }

  /** Leading white space is skipped and text after the digits is ignored. */
  lemma ParseIntTrailingExample()
    ensures ParseInt(" -12px") == Some(-12)
  {
    var s, u := " -12px", "12px";
    assert TrimStart(s) == s[1..];
    assert s[1..][1..] == u;
    assert DigitPrefix(u, 10) == "12";
    assert ValueOf("12", 10) == 12 by { assert "12"[..1] == "1"; }
  }

  /** A "0x" prefix switches to hexadecimal. */
  lemma ParseIntHexExample()
    ensures ParseInt("0x1A") == Some(26)
  {
    var h, z := "0x1A", "1A";
    assert TrimStart(h) == h;
    assert h[2..] == z;
    assert DigitPrefix(z, 16) == z;
    assert ValueOf(z, 16) == 26 by { assert z[..1] == "1"; }
  }

  /** A "0x" prefix with no hexadecimal digit after it is NaN, not 0. */
  lemma ParseIntBarePrefixExample()
    ensures ParseInt("0x") == None
  {
    var x := "0x";
    assert TrimStart(x) == x;
    assert x[2..] == [];
  }
}
