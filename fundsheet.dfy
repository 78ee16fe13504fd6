/**
 * The fund handler `doGet` of the complete Apps Script: which reply a request gets, how far
 * down the Overview sheet the investment table reaches, the investment objects read from it,
 * and the two formatters of the overview totals.
 */
module FundSheet {
  import opened JsText
  import opened JsNumbers
  import opened JsParse
  import opened Table
  import opened Sheet
  import Dashboard
  import Analytics

  // ---- doGet: authorisation, the refresh request and the sheets it needs

  /** The shared secret a request must carry as `token`. */
  const AccessToken := "blueeyeswillrule"

  /** The query parameters the handler reads; a parameter that is absent is None. */
  datatype Parameters = Parameters(token: Option<string>, refresh: Option<string>, includeBlockchainCategories: Option<string>)

  /** The replies of `doGet`, without their JSON text and timestamps. */
  datatype Reply =
    | Unauthorized
    | Refreshed
    | RefreshFailed(error: string)
    | OverviewSheetNotFound
    | VestingSheetNotFound
    | FundData(withBlockchainCategories: bool)

  /**
   * `doGet(e)`: `e.parameter` is None when the event or its parameters are missing;
   * `refreshError` is what `refreshAllData()` throws (None when it returns), and the two
   * flags say whether the "Overview" and "Listing Vesting Chart" sheets exist.
   */
  function DoGet(parameter: Option<Parameters>, refreshError: Option<string>, hasOverview: bool, hasVestingSheet: bool): Reply
  {
    var token := if parameter.Some? then parameter.value.token else None;
    if token != Some(AccessToken) then Unauthorized
    else if parameter.value.refresh == Some("true") then
      match refreshError
      case None => Refreshed
      case Some(error) => RefreshFailed("Refresh failed: " + error)
    else if !hasOverview then OverviewSheetNotFound
    else if !hasVestingSheet then VestingSheetNotFound
    else FundData(parameter.value.includeBlockchainCategories == Some("true"))
  }

  /** A request is turned away exactly when it does not carry the secret token. */
  lemma DoGetAuthorises(parameter: Option<Parameters>, refreshError: Option<string>, hasOverview: bool, hasVestingSheet: bool)
    ensures DoGet(parameter, refreshError, hasOverview, hasVestingSheet) == Unauthorized
      <==> parameter.None? || parameter.value.token != Some(AccessToken)
  {
  }

  /**
   * An authorised refresh request is answered by the outcome of the refresh alone, whatever
   * the sheets, and only a refresh request ever runs the importers.
   */
  lemma DoGetRefresh(p: Parameters, refreshError: Option<string>, hasOverview: bool, hasVestingSheet: bool)
    requires p.token == Some(AccessToken)
    ensures p.refresh == Some("true") ==>
      DoGet(Some(p), refreshError, hasOverview, hasVestingSheet) == DoGet(Some(p), refreshError, true, true)
      && (DoGet(Some(p), refreshError, hasOverview, hasVestingSheet) == Refreshed <==> refreshError.None?)
    ensures p.refresh != Some("true") ==>
      DoGet(Some(p), refreshError, hasOverview, hasVestingSheet) == DoGet(Some(p), None, hasOverview, hasVestingSheet)
  {
  }

  /**
   * An authorised request that is not a refresh gets the fund data exactly when both sheets
   * exist, with the blockchain categories exactly when it asks for them with "true".
   */
  lemma DoGetFundData(p: Parameters, refreshError: Option<string>, hasOverview: bool, hasVestingSheet: bool)
    requires p.token == Some(AccessToken) && p.refresh != Some("true")
    ensures DoGet(Some(p), refreshError, hasOverview, hasVestingSheet).FundData? <==> hasOverview && hasVestingSheet
    ensures DoGet(Some(p), refreshError, hasOverview, hasVestingSheet).FundData? ==>
      (DoGet(Some(p), refreshError, hasOverview, hasVestingSheet).withBlockchainCategories <==>
       p.includeBlockchainCategories == Some("true"))
  {
  }

  // ---- The end of the investment table in column B

  /** The row the investment table starts at (its header row), and the last row scanned. */
  const StartRow := 15
  const LastScannedRow := 100

  const FundamentalGlobal := "Fundamental Global Inc"
  const NewOS := "NewOS"

  /** `/^\$[\d,]+$/`: a dollar amount with no cents, how the sheet writes its totals. */
  predicate IsDollarTotal(s: string)
  {
    |s| >= 2 && s[0] == '$' && forall k :: 1 <= k < |s| ==> IsDigit(s[k]) || s[k] == ','
  }

  /**
   * The test of a cell of column B: it holds an investment name when it is not blank
   * (`trim() !== ''`, see `TrimBlank`) and neither a sentinel company nor a dollar total.
   */
  predicate IsInvestmentName(t: string)
  {
    !Blank(t) && !Contains(t, FundamentalGlobal) && !Contains(t, NewOS) && !IsDollarTotal(t)
  }

  /** The cell k rows below the start row passes the test. */
  predicate Named(isName: string -> bool, column: seq<string>, k: nat)
  {
    isName(CellAt(column, k))
  }

  /** A cell without a name more than five rows below the start row ends the scan. */
  predicate Gap(isName: string -> bool, column: seq<string>, k: nat)
  {
    k > 5 && !Named(isName, column, k)
  }

  /**
   * No gap comes before the row, and every name after it, up to row 100, lies beyond a gap:
   * the scan could not have recorded a later row.
   */
  predicate LastOfScan(isName: string -> bool, column: seq<string>, lastRow: nat)
    requires StartRow <= lastRow
  {
    (forall k :: 0 <= k < lastRow - StartRow ==> !Gap(isName, column, k))
    && (forall k :: lastRow - StartRow < k <= LastScannedRow - StartRow && Named(isName, column, k) ==>
          exists g :: lastRow - StartRow < g < k && Gap(isName, column, g))
  }

  /**
   * The loop of the scan for `lastRow` with a given test of a cell; `column[k]` is the text of
   * cell B(15 + k). It records each row with a name and stops at the first gap, or after row 100.
   */
  method ScanLastRow(column: seq<string>, isName: string -> bool) returns (lastRow: nat)
    ensures StartRow <= lastRow <= LastScannedRow
    ensures lastRow == StartRow || Named(isName, column, lastRow - StartRow)
    ensures LastOfScan(isName, column, lastRow)
  {
    lastRow := StartRow;
    var row := StartRow;
    while row <= LastScannedRow
      invariant StartRow <= row <= LastScannedRow + 1
      invariant StartRow <= lastRow <= LastScannedRow && (lastRow < row || lastRow == StartRow)
      invariant lastRow == StartRow || Named(isName, column, lastRow - StartRow)
      invariant forall k :: 0 <= k < row - StartRow ==> !Gap(isName, column, k)
      invariant forall k :: lastRow - StartRow < k < row - StartRow ==> !Named(isName, column, k)
    {
      if isName(CellAt(column, row - StartRow)) {
        lastRow := row;
      } else if row > StartRow + 5 {
        ScanStops(isName, column, lastRow, row);
        return;
      }
      row := row + 1;
    }
    ScanStops(isName, column, lastRow, row);
  }

  /** Where the scan stops, at a gap or after row 100, the row it recorded is the last of the scan. */
  lemma ScanStops(isName: string -> bool, column: seq<string>, lastRow: nat, row: nat)
    requires StartRow <= lastRow < row <= LastScannedRow + 1 || lastRow == StartRow == row
    requires row == LastScannedRow + 1 || Gap(isName, column, row - StartRow)
    requires forall k :: 0 <= k < row - StartRow ==> !Gap(isName, column, k)
    requires forall k :: lastRow - StartRow < k < row - StartRow ==> !Named(isName, column, k)
    ensures LastOfScan(isName, column, lastRow)
  {
    forall k | lastRow - StartRow < k <= LastScannedRow - StartRow && Named(isName, column, k)
      ensures exists g :: lastRow - StartRow < g < k && Gap(isName, column, g)
    {
      assert lastRow - StartRow < row - StartRow < k && Gap(isName, column, row - StartRow);
    }
  }

  /**
   * `lastRow` of column B: the last row at or below row 15 that holds an investment name before
   * the scan stops, or row 15 when there is none.
   */
  method FindLastRow(column: seq<string>) returns (lastRow: nat)
    ensures StartRow <= lastRow <= LastScannedRow
    ensures lastRow == StartRow || IsInvestmentName(CellAt(column, lastRow - StartRow))
    ensures LastOfScan(IsInvestmentName, column, lastRow)
  {
    lastRow := ScanLastRow(column, IsInvestmentName);
  }

  /** Two rows that are each the last of the scan and hold a name (or are the start row) are the same row. */
  lemma LastRowUnique(isName: string -> bool, column: seq<string>, a: nat, b: nat)
    requires StartRow <= a <= b <= LastScannedRow
    requires b == StartRow || Named(isName, column, b - StartRow)
    requires LastOfScan(isName, column, a) && LastOfScan(isName, column, b)
    ensures a == b
  {
    if a < b {
      assert false;
    }
  }

  // ---- The investment objects

  /** A row of `B15:R[lastRow]` that ends the table: no name, a sentinel company, or a total. */
  predicate EndsInvestments(row: SheetRow)
  {
    var name := TrimmedAt(row, 0);
    name == [] || name == FundamentalGlobal || name == NewOS || IsDollarTotal(name) || CellAt(row, 0) == []
  }

  /** The object `investments.push` builds from a row: the trimmed name and the texts of C to R. */
  function Investment(row: SheetRow): Row
  {
    map[Name := TrimmedAt(row, 0), TotalInvested := CellAt(row, 1), TotalValue := CellAt(row, 2),
        RealisedValue := CellAt(row, 3), RealisedPnL := CellAt(row, 4), Roi := CellAt(row, 5),
        RealisedRoi := CellAt(row, 6), PercentReceived := CellAt(row, 7), PercentSold := CellAt(row, 8),
        LiquidValue := CellAt(row, 9), NextUnlock := CellAt(row, 10), NextUnlock2 := CellAt(row, 11),
        FullUnlock := CellAt(row, 12), BuyPrice := CellAt(row, 13), CurrentPrice := CellAt(row, 14),
        AvgSellPrice := CellAt(row, 15), Vesting := CellAt(row, 16)]
  }

  /** The name of an investment is the trimmed cell, and it is a real name: not blank, no sentinel, no total. */
  lemma InvestmentName(row: SheetRow)
    requires !EndsInvestments(row)
    ensures Name in Investment(row) && Investment(row)[Name] == TrimmedAt(row, 0)
    ensures var name := Investment(row)[Name];
      name != [] && Trim(name) == name && name != FundamentalGlobal && name != NewOS && !IsDollarTotal(name)
  {
    TrimUnchanged(TrimmedAt(row, 0));
  }

  /**
   * The loop over `values` from index 1 (index 0 is the header row): one investment per row
   * until the first row that ends the table (`RowsUntilRows` says what that is row by row).
   */
  method ExtractInvestments(values: seq<SheetRow>) returns (investments: seq<Row>)
    ensures investments == RowsUntil(values, 1, EndsInvestments, Investment)
  {
    investments := [];
    var i := 1;
    while i < |values|
      invariant 1 <= i
      invariant investments + RowsUntil(values, i, EndsInvestments, Investment) == RowsUntil(values, 1, EndsInvestments, Investment)
      decreases |values| - i
    {
      var row := values[i];
      if EndsInvestments(row) {
        assert investments + [] == investments;
        return;
      }
      investments := investments + [Investment(row)];
      i := i + 1;
    }
    assert investments + [] == investments;
  }

  /** The texts of column B, one per row, as the scan for `lastRow` reads them. */
  function ColumnB(rows: seq<SheetRow>): (column: seq<string>)
    ensures |column| == |rows| && forall k :: 0 <= k < |rows| ==> column[k] == CellAt(rows[k], 0)
  {
    seq(|rows|, k requires 0 <= k < |rows| => CellAt(rows[k], 0))
  }

  /** The rows of the range `B15:R[lastRow]`: up to row `lastRow`, or to the end of the sheet. */
  function RangeRows(rows: seq<SheetRow>, lastRow: nat): seq<SheetRow>
    requires StartRow <= lastRow
  {
    rows[..if |rows| < lastRow - StartRow + 1 then |rows| else lastRow - StartRow + 1]
  }

  /**
   * The main investments of `doGet`: `rows[k]` holds the cells B to R of row 15 + k of the sheet.
   * `lastRow` is the last row of column B the scan finds a name in, the table is read from the
   * range `B15:R[lastRow]`, and the extraction runs over that range from its second row.
   */
  method MainInvestments(rows: seq<SheetRow>) returns (lastRow: nat, investments: seq<Row>)
    ensures StartRow <= lastRow <= LastScannedRow
    ensures lastRow == StartRow || IsInvestmentName(CellAt(ColumnB(rows), lastRow - StartRow))
    ensures LastOfScan(IsInvestmentName, ColumnB(rows), lastRow)
    ensures investments == RowsUntil(RangeRows(rows, lastRow), 1, EndsInvestments, Investment)
    ensures |investments| <= lastRow - StartRow
    ensures investments <= RowsUntil(rows, 1, EndsInvestments, Investment)
  {
    lastRow := FindLastRow(ColumnB(rows));
    var n := if |rows| < lastRow - StartRow + 1 then |rows| else lastRow - StartRow + 1;
    investments := ExtractInvestments(rows[..n]);
    if n >= 1 {
      RowsUntilTake(rows, n, 1, EndsInvestments, Investment);
    }
  }

  // ---- The overview totals

  /** A value `getValue()` returns: a number, or text (an empty cell is the empty text). */
  datatype SheetValue = Text(s: string) | Number(x: real)

  /** `typeof value === 'number' ? value : parseFloat(value.toString().replace(/[$,]/g, ''))`; None is NaN. */
  function SheetNumber(v: SheetValue): Option<real>
  {
    match v
    case Number(x) => Some(x)
    case Text(s) => ParseFloat(Remove(s, Dashboard.DollarComma))
  }

  /** `formatSheetCurrency(value)`: whole dollars with thousands separators, or "" when there is no amount. */
  function FormatSheetCurrency(v: SheetValue): string
  {
    if v == Text([]) then []
    else match SheetNumber(v)
      case None => []
      case Some(x) => "$" + Grouped(Round(x))
  }

  /** The formatter gives "" exactly for an empty cell or one that holds no number, and otherwise the rounded amount. */
  lemma SheetCurrencyCases(v: SheetValue)
    ensures FormatSheetCurrency(v) == [] <==> v == Text([]) || SheetNumber(v).None?
    ensures FormatSheetCurrency(v) != [] ==> FormatSheetCurrency(v) == "$" + Grouped(Round(SheetNumber(v).value))
  {
  }

  /** The text it writes reads back as the amount rounded to a whole dollar, at most half a dollar away. */
  lemma SheetCurrencyReadsBack(v: SheetValue, x: real)
    requires v != Text([]) && SheetNumber(v) == Some(x)
    ensures SheetNumber(Text(FormatSheetCurrency(v))) == Some(Round(x) as real)
    ensures x - 0.5 < Round(x) as real <= x + 0.5
  {
    Dashboard.UnlockAmountOfDollarText(Round(x));
  }

  /** Formatting its own output again changes nothing. */
  lemma SheetCurrencyIdempotent(v: SheetValue)
    ensures FormatSheetCurrency(Text(FormatSheetCurrency(v))) == FormatSheetCurrency(v)
  {
    if FormatSheetCurrency(v) != [] {
      var n := Round(SheetNumber(v).value);
      Dashboard.UnlockAmountOfDollarText(n);
      assert Round(n as real) == n;
    }
  }

  /** `calculateROI(totalValue, totalInvested)`: the multiple to two decimals and "x", or "" without one. */
  function CalculateROI(totalValue: SheetValue, totalInvested: SheetValue): string
  {
    var value := SheetNumber(totalValue);
    var invested := SheetNumber(totalInvested);
    if value.None? || invested.None? || invested.value == 0.0 then []
    else ToFixed(value.value / invested.value, 2) + "x"
  }

  /**
   * The multiple is given exactly when both totals are numbers and the invested one is not 0;
   * it reads back as the quotient to two decimals, and the analytics page colours it by that value.
   */
  lemma CalculateROIMultiple(totalValue: SheetValue, totalInvested: SheetValue)
    ensures CalculateROI(totalValue, totalInvested) == [] <==>
      SheetNumber(totalValue).None? || SheetNumber(totalInvested).None? || SheetNumber(totalInvested).value == 0.0
    ensures CalculateROI(totalValue, totalInvested) != [] ==>
      var q := SheetNumber(totalValue).value / SheetNumber(totalInvested).value;
      Analytics.MultipleOf(CalculateROI(totalValue, totalInvested)) == Some(FixedValue(q, 2))
      && (Analytics.GetROIColor(CalculateROI(totalValue, totalInvested)) == Analytics.Green <==> FixedValue(q, 2) > 1.0)
      && (Analytics.GetROIColor(CalculateROI(totalValue, totalInvested)) == Analytics.Red <==> FixedValue(q, 2) < 1.0)
  {
    if CalculateROI(totalValue, totalInvested) != [] {
      var q := SheetNumber(totalValue).value / SheetNumber(totalInvested).value;
      RoiText(q);
      Analytics.ROIColorOfMultiple(q);
    }
  }

  /** `ToFixed(q, 2) + "x"` is not empty and its multiple is the two-decimal value. */
  lemma RoiText(q: real)
    ensures ToFixed(q, 2) + "x" != []
    ensures Analytics.MultipleOf(ToFixed(q, 2) + "x") == Some(FixedValue(q, 2))
  {
    var t := ToFixed(q, 2);
    ToFixedChars(q, 2);
    assert 'x' !in t;
    assert t + "x" == t + ['x'];
    ReplaceFirstLast(t, 'x');
    assert t + [] == t;
    ParseFloatToFixed(q, 2, []);
  }
}
