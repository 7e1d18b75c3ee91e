/**
  The screen's page-size validator `first()`: the text field is read with `parseInt(…, 10)`
  and the result is kept only when it is a non-negative integer; otherwise the count is `null`.
*/
module PageSize {
  import opened Wrappers
  import opened EcmaNumber

  /** `x < 0` on a parsed Number: every comparison with NaN is false. */
  predicate IsNegative(x: Option<int>) {
    x.Some? && x.value < 0
  }

  /** `Number.isInteger` (section 21.1.2.3 of ECMA-262): NaN is not an integer; every other parsed value is. */
  predicate NumberIsInteger(x: Option<int>) {
    x.Some?
  }

  /** `first()`: the page size typed into the text field, or `None` for `null`. */
  function First(firstStr: string): Option<nat> {
    var first := ParseInt(firstStr);
    if IsNegative(first) || !NumberIsInteger(first) then None else Some(first.value)
  }

  /** The count is `n` exactly when the text is white space, an optional sign and digits denoting `n`, then anything else. */
  lemma FirstCharacterized(firstStr: string, n: nat)
    ensures First(firstStr) == Some(n) <==>
            exists ws, sign, digits, rest :: Reads(firstStr, ws, sign, digits, rest) && n == SignedValue(sign, digits)
  {
    ParseIntCharacterized(firstStr, n);
  }

  /** The count is `null` exactly when the prefix parse has no digits (NaN) or is negative. */
  lemma FirstNull(firstStr: string)
    ensures First(firstStr) == None <==> ParseInt(firstStr) == None || ParseInt(firstStr).value < 0
    ensures First(firstStr) == None <==>
            forall ws, sign, digits, rest :: Reads(firstStr, ws, sign, digits, rest) ==> SignedValue(sign, digits) < 0
  {
    ParseIntNaN(firstStr);
    if ParseInt(firstStr).Some? {
      var ws, sign, digits, rest := PartsOfParse(firstStr);
      forall ws', sign', digits', rest' | Reads(firstStr, ws', sign', digits', rest')
        ensures SignedValue(sign', digits') == ParseInt(firstStr).value
      {
        ParseIntOfParts(firstStr, ws', sign', digits', rest');
      }
    }
  }

  /** A count shown by the screen, typed back with surrounding white space or a non-digit tail such as ".5", is read as that count. */
  lemma FirstOfNumberToString(n: nat, ws: string, rest: string)
    requires AllWhiteSpace(ws)
    requires rest == [] || !IsDecimalDigit(rest[0])
    ensures First(ws + NumberToString(n) + rest) == Some(n)
  {
    ParseIntOfNumberToString(n, ws, rest);
  }

  /** The text field's initial content gives the count 1000. */
  lemma FirstOfDefault()
    ensures First("1000") == Some(1000)
  {
    assert "1000" == "" + NumberToString(1000) + "";
    FirstOfNumberToString(1000, "", "");
  }

  /** Trailing garbage is ignored: "12abc" gives 12. */
  lemma FirstIgnoresTrailingText()
    ensures First("12abc") == Some(12)
  {
    assert "12abc" == "" + NumberToString(12) + "abc";
    FirstOfNumberToString(12, "", "abc");
  }

  /** A fractional part is ignored: "12.5" gives 12. */
  lemma FirstIgnoresFraction()
    ensures First("12.5") == Some(12)
  {
    assert "12.5" == "" + NumberToString(12) + ".5";
    FirstOfNumberToString(12, "", ".5");
  }

  /** Leading white space is skipped: " 7" gives 7. */
  lemma FirstSkipsSpace()
    ensures First(" 7") == Some(7)
  {
  }

  /** A plus sign is accepted: "+5" gives 5. */
  lemma FirstAcceptsPlus()
    ensures First("+5") == Some(5)
  {
  }

  /** A negative count is refused: "-5" gives `null`. */
  lemma FirstRefusesNegative()
    ensures First("-5") == None
  {
  }

  /** "-0" parses to zero and is accepted as 0. */
  lemma FirstOfMinusZero()
    ensures First("-0") == Some(0)
  {
  }

  /** Text with no digit after the white space and sign gives `null`. */
  lemma FirstOfNoDigits()
    ensures First("") == None
    ensures First("abc") == None
    ensures First("- 5") == None
  {
  }
}
