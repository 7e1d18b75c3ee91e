/**
  The global `parseInt(string, 10)` of ECMA-262 (section 19.2.5, "parseInt ( string, radix )"),
  over mathematical integers: leading StrWhiteSpaceChar is skipped, one optional sign is taken,
  then the longest run of decimal digits; no digits gives NaN (here `None`).

  Beside it, `NumberToString` gives the exact decimal digits of a count, which is how the
  screen shows it. It agrees with Number::toString (section 6.1.6.1.20 of ECMA-262) for counts
  up to 2^53. The two are tied by round-trip lemmas.
*/
module EcmaNumber {
  import opened Wrappers

  /** StrWhiteSpaceChar (sections 7.1.4.1, 12.2 and 12.3 of ECMA-262): WhiteSpace or LineTerminator. */
  predicate IsStrWhiteSpace(c: char) {
    c == '\t' || c == '\U{000B}' || c == '\U{000C}' || c == ' ' || c == '\U{00A0}' || c == '\U{FEFF}'
    // the remaining characters of Unicode category Zs
    || c == '\U{1680}' || ('\U{2000}' <= c <= '\U{200A}') || c == '\U{202F}' || c == '\U{205F}' || c == '\U{3000}'
    // LineTerminator
    || c == '\n' || c == '\r' || c == '\U{2028}' || c == '\U{2029}'
  }

  /** A radix-10 digit in the sense of parseInt with radix 10. */
  predicate IsDecimalDigit(c: char) {
    '0' <= c <= '9'
  }

  predicate AllWhiteSpace(s: string) {
    forall i :: 0 <= i < |s| ==> IsStrWhiteSpace(s[i])
  }

  predicate AllDigits(s: string) {
    forall i :: 0 <= i < |s| ==> IsDecimalDigit(s[i])
  }

  function DigitValue(c: char): (d: nat)
    requires IsDecimalDigit(c)
    ensures d < 10
  {
    (c as int) - ('0' as int)
  }

  function DigitChar(d: nat): (c: char)
    requires d < 10
    ensures IsDecimalDigit(c) && DigitValue(c) == d
  {
    (('0' as int) + d) as char
  }


  /** The mathematical value of a run of decimal digits, most significant first. */
  function DigitsValue(digits: string): nat
    requires AllDigits(digits)
  {
    if digits == [] then 0
    else 10 * DigitsValue(digits[..|digits| - 1]) + DigitValue(digits[|digits| - 1])
  }

  /** TrimString(s, start): `s` without its leading white space. */
  function TrimStart(s: string): (r: string)
    ensures |r| <= |s|
    ensures r == [] || !IsStrWhiteSpace(r[0])
  {
    if s != [] && IsStrWhiteSpace(s[0]) then TrimStart(s[1..]) else s
  }

  /** The longest prefix of `s` made of decimal digits. */
  function DigitPrefix(s: string): (r: string)
    ensures |r| <= |s| && AllDigits(r)
  {
    if s != [] && IsDecimalDigit(s[0]) then [s[0]] + DigitPrefix(s[1..]) else []
  }

  /** The optional sign in front of the digits. */
  datatype Sign = Unsigned | Plus | Minus {
    function Text(): (t: string)
      ensures |t| <= 1
    {
      match this
      case Unsigned => ""
      case Plus => "+"
      case Minus => "-"
    }
  }

  /** The sign parseInt takes from the trimmed text: its first character when that is '+' or '-'. */
  function SignOf(t: string): Sign {
    if t == [] then Unsigned
    else if t[0] == '+' then Plus
    else if t[0] == '-' then Minus
    else Unsigned
  }

  /** The trimmed text without that sign. */
  function StripSign(t: string): string {
    if t != [] && (t[0] == '+' || t[0] == '-') then t[1..] else t
  }

  /** The value denoted by a sign and a digit run. */
  function SignedValue(sign: Sign, digits: string): int
    requires AllDigits(digits)
  {
    if sign == Minus then -(DigitsValue(digits) as int) else DigitsValue(digits)
  }

  /** parseInt(s, 10); `None` is NaN. A "-0" result is modelled as 0. */
  function ParseInt(s: string): Option<int> {
    var t := TrimStart(s);
    var digits := DigitPrefix(StripSign(t));
    if digits == [] then None else Some(SignedValue(SignOf(t), digits))
  }

  /**
    `s` splits into the parts parseInt reads: leading white space, at most one sign,
    a non-empty digit run that is as long as possible, and text that is ignored.
  */
  ghost predicate Reads(s: string, ws: string, sign: Sign, digits: string, rest: string) {
    s == ws + sign.Text() + digits + rest
    && AllWhiteSpace(ws)
    && digits != [] && AllDigits(digits)
    && (rest == [] || !IsDecimalDigit(rest[0]))
  }

  lemma ConcatAssociates(a: string, b: string, c: string, d: string)
    ensures a + b + c + d == a + (b + (c + d))
  {
  }

  lemma {:induction false} TrimStartOf(ws: string, t: string)
    requires AllWhiteSpace(ws)
    requires t == [] || !IsStrWhiteSpace(t[0])
    ensures TrimStart(ws + t) == t
  {
    if ws != [] {
      assert (ws + t)[1..] == ws[1..] + t;
      TrimStartOf(ws[1..], t);
    }
  }

  lemma {:induction false} DigitPrefixOf(digits: string, rest: string)
    requires AllDigits(digits)
    requires rest == [] || !IsDecimalDigit(rest[0])
    ensures DigitPrefix(digits + rest) == digits
  {
    if digits != [] {
      assert (digits + rest)[1..] == digits[1..] + rest;
      DigitPrefixOf(digits[1..], rest);
    }
  }

  /** After a sign, a digit: the sign is the one parseInt takes, and the text does not start with white space. */
  lemma SignOfParts(sign: Sign, u: string)
    requires u != [] && IsDecimalDigit(u[0])
    ensures !IsStrWhiteSpace((sign.Text() + u)[0])
    ensures SignOf(sign.Text() + u) == sign && StripSign(sign.Text() + u) == u
  {
  }

  /** Every decomposition in the sense of `Reads` is the one parseInt takes. */
  lemma ParseIntOfParts(s: string, ws: string, sign: Sign, digits: string, rest: string)
    requires Reads(s, ws, sign, digits, rest)
    ensures ParseInt(s) == Some(SignedValue(sign, digits))
  {
    var u := digits + rest;
    ConcatAssociates(ws, sign.Text(), digits, rest);
    assert u[0] == digits[0];
    SignOfParts(sign, u);
    TrimStartOf(ws, sign.Text() + u);
    DigitPrefixOf(digits, rest);
  }

  /** What TrimStart drops is white space. */
  lemma {:induction false} TrimStartSplit(s: string) returns (ws: string)
    ensures s == ws + TrimStart(s) && AllWhiteSpace(ws)
  {
    if s != [] && IsStrWhiteSpace(s[0]) {
      var ws' := TrimStartSplit(s[1..]);
      ws := [s[0]] + ws';
      assert TrimStart(s) == TrimStart(s[1..]);
      calc {
        s;
        [s[0]] + s[1..];
        [s[0]] + (ws' + TrimStart(s));
        ws + TrimStart(s);
      }
      assert forall i :: 1 <= i < |ws| ==> ws[i] == ws'[i - 1];
    } else {
      ws := [];
    }
  }

  /** What follows the digit prefix does not start with a digit. */
  lemma {:induction false} DigitPrefixSplit(u: string) returns (rest: string)
    ensures u == DigitPrefix(u) + rest && (rest == [] || !IsDecimalDigit(rest[0]))
  {
    if u != [] && IsDecimalDigit(u[0]) {
      rest := DigitPrefixSplit(u[1..]);
      calc {
        u;
        [u[0]] + u[1..];
        [u[0]] + (DigitPrefix(u[1..]) + rest);
        ([u[0]] + DigitPrefix(u[1..])) + rest;
      }
    } else {
      rest := u;
    }
  }

  lemma SignSplit(t: string)
    ensures t == SignOf(t).Text() + StripSign(t)
  {
  }

  /** A number comes out only from text that decomposes as `Reads` says; these are its parts. */
  lemma PartsOfParse(s: string) returns (ws: string, sign: Sign, digits: string, rest: string)
    requires ParseInt(s).Some?
    ensures Reads(s, ws, sign, digits, rest) && ParseInt(s).value == SignedValue(sign, digits)
  {
    var t := TrimStart(s);
    ws := TrimStartSplit(s);
    sign := SignOf(t);
    SignSplit(t);
    digits := DigitPrefix(StripSign(t));
    rest := DigitPrefixSplit(StripSign(t));
    ConcatAssociates(ws, sign.Text(), digits, rest);
  }

  /** parseInt yields `v` exactly when the text decomposes into white space, sign and digits denoting `v`. */
  lemma ParseIntCharacterized(s: string, v: int)
    ensures ParseInt(s) == Some(v) <==>
            exists ws, sign, digits, rest :: Reads(s, ws, sign, digits, rest) && v == SignedValue(sign, digits)
  {
    if ParseInt(s) == Some(v) {
      var ws, sign, digits, rest := PartsOfParse(s);
    }
    if exists ws, sign, digits, rest :: Reads(s, ws, sign, digits, rest) && v == SignedValue(sign, digits) {
      var ws, sign, digits, rest :| Reads(s, ws, sign, digits, rest) && v == SignedValue(sign, digits);
      ParseIntOfParts(s, ws, sign, digits, rest);
    }
  }

  /** parseInt gives NaN exactly when no decomposition exists: after the white space and sign there is no digit. */
  lemma ParseIntNaN(s: string)
    ensures ParseInt(s) == None <==> forall ws, sign, digits, rest :: !Reads(s, ws, sign, digits, rest)
  {
    if ParseInt(s).Some? {
      var ws, sign, digits, rest := PartsOfParse(s);
    }
    forall ws, sign, digits, rest | Reads(s, ws, sign, digits, rest)
      ensures ParseInt(s).Some?
    {
      ParseIntOfParts(s, ws, sign, digits, rest);
    }
  }

  /** Text built from white space, a sign, a digit run and a non-digit tail is read as the signed digit run. */
  lemma ParseIntOfConcat(ws: string, sign: Sign, digits: string, rest: string)
    requires AllWhiteSpace(ws)
    requires digits != [] && AllDigits(digits)
    requires rest == [] || !IsDecimalDigit(rest[0])
    ensures ParseInt(ws + sign.Text() + digits + rest) == Some(SignedValue(sign, digits))
  {
    ParseIntOfParts(ws + sign.Text() + digits + rest, ws, sign, digits, rest);
  }

  /** The exact decimal digits of a count, with no leading zero; Number::toString for counts up to 2^53. */
  function NumberToString(n: nat): (s: string)
    ensures s != [] && AllDigits(s)
    ensures |s| > 1 ==> s[0] != '0'
  {
    if n < 10 then [DigitChar(n)] else NumberToString(n / 10) + [DigitChar(n % 10)]
  }

  lemma {:induction false} DigitsValueOfNumberToString(n: nat)
    ensures DigitsValue(NumberToString(n)) == n
  {
    var s := NumberToString(n);
    if n >= 10 {
      DigitsValueOfNumberToString(n / 10);
      assert s[..|s| - 1] == NumberToString(n / 10);
    }
  }

  /** Rendering a count and parsing it back, with any leading white space and any non-digit tail, gives the count. */
  lemma ParseIntOfNumberToString(n: nat, ws: string, rest: string)
    requires AllWhiteSpace(ws)
    requires rest == [] || !IsDecimalDigit(rest[0])
    ensures ParseInt(ws + NumberToString(n) + rest) == Some(n)
  {
    DigitsValueOfNumberToString(n);
    ParseIntOfConcat(ws, Unsigned, NumberToString(n), rest);
    assert ws + Unsigned.Text() == ws;
  }
}
