/**
 * The two helpers of the analytics page: whole-dollar token amounts and the colour of a
 * return-on-investment multiple.
 */
module Analytics {
  import opened JsText
  import opened JsNumbers
  import opened JsParse
  import Dashboard

  // ---- formatTokensReceived (analytics page)

  /** The texts that print as nothing: empty, "0" and "$0". */
  predicate IsNothing(value: string)
  {
    value == [] || value == "0" || value == "$0"
  }

  /**
   * `formatTokensReceived(value)` of the analytics page: percentages and multiples are kept,
   * a dollar amount is rounded to whole dollars and regrouped, anything else is kept.
   */
  function FormatTokensReceived(value: string): string
  {
    if IsNothing(value) then []
    else if '%' in value || 'x' in value then value
    else if '$' in value then
      match Dashboard.Amount(value)
      case None => value
      case Some(x) => "$" + Grouped(Round(x))
    else value
  }

  /** The result is empty exactly for the three texts that print as nothing. */
  lemma TokensReceivedEmpty(value: string)
    ensures FormatTokensReceived(value) == [] <==> IsNothing(value)
  {
  }

  /** A dollar amount is shown as its nearest whole dollar, which reads back as that amount. */
  lemma TokensReceivedRounded(value: string, x: real)
    requires !IsNothing(value) && '%' !in value && 'x' !in value && '$' in value
    requires Dashboard.Amount(value) == Some(x)
    ensures FormatTokensReceived(value) == "$" + Grouped(Round(x))
    ensures Dashboard.Amount(FormatTokensReceived(value)) == Some(Round(x) as real)
    ensures x - 0.5 < Round(x) as real <= x + 0.5
  {
    Dashboard.AmountOfDollarText(Round(x));
  }

  /** Text that is neither a percentage, a multiple nor a dollar amount is shown as it is. */
  lemma TokensReceivedKept(value: string)
    requires !IsNothing(value)
    requires '%' in value || 'x' in value || '$' !in value
    ensures FormatTokensReceived(value) == value
  {
  }

  /** The amount text `"$" + n.toLocaleString()` holds a dollar sign and neither '%' nor 'x'. */
  lemma DollarGroupedMarks(n: int)
    ensures var t := "$" + Grouped(n);
      '$' in t && '%' !in t && 'x' !in t
  {
    var g := Grouped(n);
    var t := "$" + g;
    GroupedChars(n);
    assert t[0] == '$';
    forall k | 0 <= k < |t| ensures t[k] != '%' && t[k] != 'x' {
      if k > 0 { assert t[k] == g[k - 1]; }
    }
  }

  /**
   * Formatting twice is formatting once, except for an amount that rounds to zero dollars:
   * it prints as "$0", which a second pass clears.
   */
  lemma TokensReceivedIdempotent(value: string)
    requires FormatTokensReceived(value) != "$0"
    ensures FormatTokensReceived(FormatTokensReceived(value)) == FormatTokensReceived(value)
  {
    if !IsNothing(value) && '%' !in value && 'x' !in value && '$' in value && Dashboard.Amount(value).Some? {
      var n := Round(Dashboard.Amount(value).value);
      var r := "$" + Grouped(n);
      assert FormatTokensReceived(value) == r;
      DollarGroupedMarks(n);
      Dashboard.AmountOfDollarText(n);
      assert Round(n as real) == n;
    }
  }

  /** An amount below half a dollar is shown as "$0" and then cleared by a second pass. */
  lemma TokensReceivedZero(value: string, x: real)
    requires !IsNothing(value) && '%' !in value && 'x' !in value && '$' in value
    requires Dashboard.Amount(value) == Some(x) && -0.5 <= x < 0.5
    ensures FormatTokensReceived(value) == "$0"
    ensures FormatTokensReceived(FormatTokensReceived(value)) == []
  {
    assert Round(x) == 0;
    assert Grouped(0) == "0";
  }

  // ---- getROIColor

  const Gray := "#6c7281"
  const Green := "#059669"
  const Red := "#dc2626"

  /** `getROIColor(roi)`: green above a 1x multiple, red below it, gray at it and for anything unreadable. */
  function GetROIColor(roi: string): string
  {
    if roi == [] || roi == "0x" then Gray
    else match ParseFloat(ReplaceFirst(roi, 'x'))
      case None => Gray
      case Some(v) => if v > 1.0 then Green else if v < 1.0 then Red else Gray
  }

  /** The multiple the colour is decided by, if the text has one. */
  function MultipleOf(roi: string): Option<real>
  {
    ParseFloat(ReplaceFirst(roi, 'x'))
  }

  /** "0x" reads as the multiple 0. */
  lemma ZeroMultiple(roi: string)
    requires |roi| == 2 && roi[0] == '0' && roi[1] == 'x'
    ensures MultipleOf(roi) == Some(0.0)
  {
    assert roi == ['0'] + ['x'];
    ReplaceFirstLast(['0'], 'x');
    assert NatToString(0) == ['0'];
    assert IntToString(0) + [] == ['0'];
    ParseFloatIntToString(0, []);
  }

  /** Green exactly for a multiple above 1, red exactly for one below 1 other than the literal "0x". */
  lemma ROIColorCases(roi: string)
    ensures GetROIColor(roi) == Green <==> MultipleOf(roi).Some? && MultipleOf(roi).value > 1.0
    ensures GetROIColor(roi) == Red <==> roi != "0x" && MultipleOf(roi).Some? && MultipleOf(roi).value < 1.0
    ensures GetROIColor(roi) == Gray <==> roi == "0x" || MultipleOf(roi).None? || MultipleOf(roi).value == 1.0
  {
    if roi == [] {
      assert DigitEnd(roi, 0) == 0;
    } else if roi == "0x" {
      ZeroMultiple(roi);
    }
  }

  /** The colour of a multiple the dashboard printed agrees with the printed two-decimal value. */
  lemma ROIColorOfMultiple(x: real)
    ensures var c := GetROIColor(ToFixed(x, 2) + "x");
      (c == Green <==> FixedValue(x, 2) > 1.0) && (c == Red <==> FixedValue(x, 2) < 1.0)
  {
    var t := ToFixed(x, 2);
    assert |t| >= 4 by {
      var (ip, fp) := FixedParts(ScaledRound(Abs(x), 2), 2);
      assert t == DecimalText(x < 0.0, ip, fp);
    }
    ToFixedChars(x, 2);
    assert 'x' !in t;
    assert t + "x" == t + ['x'];
    ReplaceFirstLast(t, 'x');
    assert t + [] == t;
    ParseFloatToFixed(x, 2, []);
    ROIColorCases(t + "x");
  }
}
