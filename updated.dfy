/**
 * The fund data of the updated Apps Script: the main investments read from `A14:N70`, the
 * overview totals summed over them, and the investments and summary of each individual
 * portfolio.
 */
module UpdatedSheet {
  import opened JsText
  import opened JsNumbers
  import opened JsParse
  import opened Table
  import opened Sheet
  import TopN
  import Analytics
  import FundSheet

  // ---- Main investments

  /** The sentinel names and the total that end the main table. */
  const FundamentalGlobal := "Fundamental Global Inc"
  const NewOS := "NewOS"
  const TotalMarker := "$3,619,094"

  /** A row that ends the table: its name (column B, trimmed) is empty, a sentinel or the total. */
  predicate EndsInvestments(row: SheetRow)
  {
    var name := TrimmedAt(row, 1);
    name == [] || name == FundamentalGlobal || name == NewOS || Contains(name, TotalMarker) || CellAt(row, 1) == []
  }

  /** The object `investments.push` builds from a row: the trimmed name, then columns C to N as text. */
  function Investment(row: SheetRow): Row
  {
    map[Name := TrimmedAt(row, 1), TotalInvested := CellAt(row, 2), TotalValue := CellAt(row, 3),
        RealisedValue := CellAt(row, 4), RealisedPnL := CellAt(row, 5), Roi := CellAt(row, 6),
        RealisedRoi := CellAt(row, 7), PercentReceived := CellAt(row, 8), PercentSold := CellAt(row, 9),
        LiquidValue := CellAt(row, 10), NextUnlock := CellAt(row, 11), NextUnlock2 := CellAt(row, 12),
        FullUnlock := CellAt(row, 13)]
  }

  /** An investment's name is its trimmed cell, and it is neither empty, a sentinel nor the total. */
  lemma InvestmentName(row: SheetRow)
    requires !EndsInvestments(row)
    ensures Name in Investment(row) && Investment(row)[Name] == TrimmedAt(row, 1)
    ensures var name := Investment(row)[Name];
      name != [] && Trim(name) == name && name != FundamentalGlobal && name != NewOS && !Contains(name, TotalMarker)
  {
    TrimUnchanged(TrimmedAt(row, 1));
  }

  /**
   * The loop over `values` from index 2 (row 14 is empty and row 15 holds the headers): one
   * investment per row until the first row that ends the table.
   */
  method ExtractInvestments(values: seq<SheetRow>) returns (investments: seq<Row>)
    ensures investments == RowsUntil(values, 2, EndsInvestments, Investment)
  {
    investments := [];
    var i := 2;
    while i < |values|
      invariant 2 <= i
      invariant investments + RowsUntil(values, i, EndsInvestments, Investment) == RowsUntil(values, 2, EndsInvestments, Investment)
      decreases |values| - i
    {
      var row := values[i];
      if EndsInvestments(row) {
        assert investments + [] == investments;
        return;
      }
      investments := investments + [Investment(row)];
      i := i + 1;
    }
    assert investments + [] == investments;
  }

  // ---- Overview totals

  /** `parseFloat(text.replace(/[$,]/g, '') || 0)`; None is NaN, which the totals skip. */
  function Amount(text: string): Option<real>
  {
    TopN.CellAmount(text, TopN.DollarComma)
  }

  /** The amount of one field of an investment. */
  function AmountOf(key: ColKey): Row -> Option<real>
  {
    inv => Amount(Cell(inv, key))
  }

  /** A running total plus an amount that is a number. */
  function Plus(total: real, amount: Option<real>): real
  {
    match amount case None => total case Some(x) => total + x
  }

  /** The sum over the investments of the amounts of one field that are numbers. */
  function SumOf(investments: seq<Row>, amount: Row -> Option<real>): real
  {
    if investments == [] then 0.0
    else Plus(SumOf(investments[..|investments| - 1], amount), amount(investments[|investments| - 1]))
  }

  /** The sum over two runs of investments is the sum of their sums. */
  lemma {:induction false} SumOfAppend(a: seq<Row>, b: seq<Row>, amount: Row -> Option<real>)
    ensures SumOf(a + b, amount) == SumOf(a, amount) + SumOf(b, amount)
    decreases |b|
  {
    if b == [] {
      assert a + b == a;
    } else {
      var init := b[..|b| - 1];
      SumOfAppend(a, init, amount);
      assert (a + b)[..|a + b| - 1] == a + init;
      assert (a + b)[|a + b| - 1] == b[|b| - 1];
    }
  }

  /** An investment whose field is not a number adds nothing to its total; one that is adds its amount. */
  lemma SumOfSnoc(investments: seq<Row>, inv: Row, amount: Row -> Option<real>)
    ensures amount(inv).None? ==> SumOf(investments + [inv], amount) == SumOf(investments, amount)
    ensures amount(inv).Some? ==> SumOf(investments + [inv], amount) == SumOf(investments, amount) + amount(inv).value
  {
    assert (investments + [inv])[..|investments|] == investments;
  }

  /** The five running totals of the `investments.forEach`. */
  datatype Totals = Totals(invested: real, value: real, realised: real, pnl: real, liquid: real)

  /** The totals of the fields of the main investments. */
  function TotalsOf(investments: seq<Row>): Totals
  {
    Totals(SumOf(investments, AmountOf(TotalInvested)), SumOf(investments, AmountOf(TotalValue)),
           SumOf(investments, AmountOf(RealisedValue)), SumOf(investments, AmountOf(RealisedPnL)),
           SumOf(investments, AmountOf(LiquidValue)))
  }

  /** The `investments.forEach` that adds each field that is a number to its total. */
  method OverviewTotals(investments: seq<Row>) returns (t: Totals)
    ensures t == TotalsOf(investments)
  {
    var totalInvested, totalValue, realisedValue, realisedPnL, liquidValue := 0.0, 0.0, 0.0, 0.0, 0.0;
    var i := 0;
    while i < |investments|
      invariant 0 <= i <= |investments|
      invariant totalInvested == SumOf(investments[..i], AmountOf(TotalInvested))
      invariant totalValue == SumOf(investments[..i], AmountOf(TotalValue))
      invariant realisedValue == SumOf(investments[..i], AmountOf(RealisedValue))
      invariant realisedPnL == SumOf(investments[..i], AmountOf(RealisedPnL))
      invariant liquidValue == SumOf(investments[..i], AmountOf(LiquidValue))
    {
      var inv := investments[i];
      totalInvested := Plus(totalInvested, AmountOf(TotalInvested)(inv));
      totalValue := Plus(totalValue, AmountOf(TotalValue)(inv));
      realisedValue := Plus(realisedValue, AmountOf(RealisedValue)(inv));
      realisedPnL := Plus(realisedPnL, AmountOf(RealisedPnL)(inv));
      liquidValue := Plus(liquidValue, AmountOf(LiquidValue)(inv));
      assert investments[..i + 1][..i] == investments[..i];
      i := i + 1;
    }
    assert investments[..i] == investments;
    t := Totals(totalInvested, totalValue, realisedValue, realisedPnL, liquidValue);
  }

  /** The `overview` object; `listedCount` and `nonListedCount` are always null and left out. */
  datatype Overview = Overview(totalInvested: string, totalValue: string, realisedValue: string,
                               realisedPnL: string, unrealisedValue: string, liquidValue: string,
                               roi: string, realisedRoi: string, percentReceived: string, percentSold: string,
                               investmentsCount: nat)

  /** `'$' + x.toLocaleString()`: at most three fraction digits, thousands separators. */
  function Dollars(x: real): string
  {
    "$" + FormatLocale(x, 3)
  }

  /** `invested > 0 ? (x / invested).toFixed(2) + 'x' : '0x'` */
  function RoiOf(x: real, invested: real): string
  {
    if invested > 0.0 then ToFixed(x / invested, 2) + "x" else "0x"
  }

  function OverviewOf(t: Totals, count: nat): Overview
  {
    Overview(Dollars(t.invested), Dollars(t.value), Dollars(t.realised), Dollars(t.pnl),
             Dollars(t.value - t.realised), Dollars(t.liquid), RoiOf(t.value, t.invested),
             RoiOf(t.realised, t.invested), "", "", count)
  }

  /** The overview of the main investments. */
  method CalculateOverview(investments: seq<Row>) returns (overview: Overview)
    ensures overview == OverviewOf(TotalsOf(investments), |investments|)
  {
    var t := OverviewTotals(investments);
    overview := OverviewOf(t, |investments|);
  }

  /** A dollar amount the overview writes reads back, with `/[$,]/g` removed, as the amount to three decimals. */
  lemma DollarsReadBack(x: real)
    ensures Amount(Dollars(x)) == Some(FixedValue(x, 3))
  {
    var t := FormatLocale(x, 3);
    RemoveDropped('$', t, TopN.DollarComma);
    assert Dollars(x) == ['$'] + t;
    DollarCommaSeparators();
    ParseFloatLocale(x, 3, TopN.DollarComma);
    CleanedAmount(Dollars(x), FixedValue(x, 3));
  }

  /** `/[$,]/g` removes the grouping commas and keeps the digits, the sign and the point. */
  lemma DollarCommaSeparators()
    ensures Separators(TopN.DollarComma)
  {
    assert TopN.DollarComma.chars == {'$', ','};
  }

  /** A text that is a number once '$' and ',' are removed reads as that number. */
  lemma CleanedAmount(text: string, v: real)
    requires ParseFloat(Remove(text, TopN.DollarComma)) == Some(v)
    ensures Amount(text) == Some(v)
  {
  }

  /**
   * The multiple is "0x" exactly when nothing was invested; otherwise it reads back as the
   * quotient to two decimals and the analytics page colours it by that value.
   */
  lemma RoiOfMultiple(x: real, invested: real)
    ensures RoiOf(x, invested) == "0x" <==> invested <= 0.0
    ensures invested > 0.0 ==>
      Analytics.MultipleOf(RoiOf(x, invested)) == Some(FixedValue(x / invested, 2))
      && (Analytics.GetROIColor(RoiOf(x, invested)) == Analytics.Green <==> FixedValue(x / invested, 2) > 1.0)
      && (Analytics.GetROIColor(RoiOf(x, invested)) == Analytics.Red <==> FixedValue(x / invested, 2) < 1.0)
  {
    if invested > 0.0 {
      var q := x / invested;
      var t := ToFixed(q, 2);
      assert |t| >= 4 by {
        var (ip, fp) := FixedParts(ScaledRound(Abs(q), 2), 2);
        assert t == DecimalText(q < 0.0, ip, fp);
      }
      assert |t + "x"| >= 4;
      FundSheet.RoiText(q);
      Analytics.ROIColorOfMultiple(q);
    }
  }

  /**
   * What the overview states about the totals: the unrealised value is the total value less
   * the realised value, each amount reads back as the total to three decimals, and the two
   * multiples are "0x" exactly when nothing was invested.
   */
  lemma OverviewStates(t: Totals, count: nat)
    ensures var o := OverviewOf(t, count);
      Amount(o.totalInvested) == Some(FixedValue(t.invested, 3))
      && Amount(o.totalValue) == Some(FixedValue(t.value, 3))
      && Amount(o.realisedValue) == Some(FixedValue(t.realised, 3))
      && Amount(o.realisedPnL) == Some(FixedValue(t.pnl, 3))
      && Amount(o.unrealisedValue) == Some(FixedValue(t.value - t.realised, 3))
      && Amount(o.liquidValue) == Some(FixedValue(t.liquid, 3))
      && (o.roi == "0x" <==> t.invested <= 0.0) && (o.realisedRoi == "0x" <==> t.invested <= 0.0)
      && o.investmentsCount == count
  {
    DollarsReadBack(t.invested);
    DollarsReadBack(t.value);
    DollarsReadBack(t.realised);
    DollarsReadBack(t.pnl);
    DollarsReadBack(t.value - t.realised);
    DollarsReadBack(t.liquid);
    RoiOfMultiple(t.value, t.invested);
    RoiOfMultiple(t.realised, t.invested);
  }

  // ---- Individual portfolios

  /** The object pushed for a row of a portfolio range (columns B to N): the trimmed name, then C to N. */
  function PortfolioInvestment(row: SheetRow): Row
  {
    map[Name := TrimmedAt(row, 0), TotalInvested := CellAt(row, 1), Share := CellAt(row, 2),
        TotalValue := CellAt(row, 3), RealisedValue := CellAt(row, 4), UnrealisedValue := CellAt(row, 5),
        RealisedPnL := CellAt(row, 6), Roi := CellAt(row, 7), RealisedRoi := CellAt(row, 8),
        WithdrawUSD := CellAt(row, 9), WithdrawETH := CellAt(row, 10), WithdrawSOL := CellAt(row, 11),
        LiquidValue := CellAt(row, 12)]
  }

  /** The objects `make` builds from the rows 1 to n - 1 that `named` holds for, in order. */
  function NamedRows(data: seq<SheetRow>, n: nat, named: SheetRow -> bool, make: SheetRow -> Row): seq<Row>
    requires n <= |data|
  {
    if n <= 1 then []
    else NamedRows(data, n - 1, named, make) + (if named(data[n - 1]) then [make(data[n - 1])] else [])
  }

  /** `!investmentName` fails: the trimmed first cell is not empty. */
  predicate HasName(row: SheetRow)
  {
    TrimmedAt(row, 0) != []
  }

  /**
   * The `for (let i = 1; i < data.length; i++)` loop of `getIndividualPortfolio`, which skips
   * the header row and every row without a name; `named` is the test of the name.
   */
  method PortfolioInvestments(data: seq<SheetRow>, named: SheetRow -> bool) returns (investments: seq<Row>)
    ensures investments == NamedRows(data, |data|, named, PortfolioInvestment)
  {
    investments := [];
    var i := 1;
    while i < |data|
      invariant 1 <= i
      invariant |data| == 0 ==> investments == []
      invariant |data| > 0 ==> i <= |data| && investments == NamedRows(data, i, named, PortfolioInvestment)
    {
      var row := data[i];
      if !named(row) {
        i := i + 1;
        continue;
      }
      investments := investments + [PortfolioInvestment(row)];
      i := i + 1;
    }
  }

  /**
   * At most one investment per row after the header, and an investment is listed exactly
   * when some row after the header with a name gives it.
   */
  lemma {:induction false} NamedRowsRows(data: seq<SheetRow>, n: nat, named: SheetRow -> bool, make: SheetRow -> Row, inv: Row)
    requires n <= |data|
    ensures |NamedRows(data, n, named, make)| <= if n == 0 then 0 else n - 1
    ensures inv in NamedRows(data, n, named, make) <==> exists i :: 1 <= i < n && named(data[i]) && inv == make(data[i])
  {
    if n > 1 {
      NamedRowsRows(data, n - 1, named, make, inv);
      if inv == make(data[n - 1]) && named(data[n - 1]) {
        assert 1 <= n - 1 < n;
      }
    }
  }

  /** With the script's name test, every investment listed has a name that is not empty and is trimmed. */
  lemma PortfolioNames(data: seq<SheetRow>, inv: Row)
    requires inv in NamedRows(data, |data|, HasName, PortfolioInvestment)
    ensures Name in inv && inv[Name] != [] && Trim(inv[Name]) == inv[Name]
  {
    NamedRowsRows(data, |data|, HasName, PortfolioInvestment, inv);
    var i :| 1 <= i < |data| && HasName(data[i]) && inv == PortfolioInvestment(data[i]);
    PortfolioInvestmentName(data[i]);
  }

  lemma PortfolioInvestmentName(row: SheetRow)
    requires HasName(row)
    ensures Name in PortfolioInvestment(row) && PortfolioInvestment(row)[Name] == TrimmedAt(row, 0)
    ensures PortfolioInvestment(row)[Name] != [] && Trim(PortfolioInvestment(row)[Name]) == PortfolioInvestment(row)[Name]
  {
    TrimUnchanged(TrimmedAt(row, 0));
  }

  /**
   * The portfolio's `summary`, from its summary row (cells from column A): `totalInvested`,
   * `totalValue` and `liquidValue` are read with `getRange(summaryRow, 3)`, `(…, 5)` and
   * `(…, 14)`, the other fields from `getRange(summaryRow, 2, 1, 13)`, which starts at column B.
   */
  function PortfolioSummary(summaryRow: SheetRow): Row
  {
    var summaryData := if |summaryRow| > 0 then summaryRow[1..] else [];
    map[TotalInvested := CellAt(summaryRow, 2), Share := CellAt(summaryData, 2),
        TotalValue := CellAt(summaryRow, 4), RealisedValue := CellAt(summaryData, 4),
        UnrealisedValue := CellAt(summaryData, 5), RealisedPnL := CellAt(summaryData, 6),
        Roi := CellAt(summaryData, 7), RealisedRoi := CellAt(summaryData, 8),
        WithdrawUSD := CellAt(summaryData, 9), WithdrawETH := CellAt(summaryData, 10),
        WithdrawSOL := CellAt(summaryData, 11), LiquidValue := CellAt(summaryRow, 13)]
  }

  /**
   * The summary reads each field from the same column the portfolio's investments read it
   * from: read as a row of the range (which starts at column B), the summary row gives the
   * same text for every field but the name.
   */
  lemma SummaryAligned(summaryRow: SheetRow)
    requires |summaryRow| > 0
    ensures var s := PortfolioSummary(summaryRow);
      var inv := PortfolioInvestment(summaryRow[1..]);
      s.Keys == inv.Keys - {Name} && forall k :: k in s ==> s[k] == inv[k]
  {
  }

  /** The portfolios `portfolioRanges` lists, by key. */
  const PortfolioKeys: seq<string> := ["zohair", "matthias", "iaad", "babak", "bahman", "victor", "karl"]

  /** `key.charAt(0).toUpperCase() + key.slice(1)`, for keys of ASCII letters. */
  function DisplayName(key: string): (name: string)
    ensures |name| == |key|
    ensures key != [] ==> name[1..] == key[1..] && name[0] == (if 'a' <= key[0] <= 'z' then (key[0] as int - 32) as char else key[0])
  {
    if key == [] then [] else [if 'a' <= key[0] <= 'z' then (key[0] as int - 32) as char else key[0]] + key[1..]
  }

  /** A key of lower-case letters gets an upper-case first letter, and lower-casing the name gives the key back. */
  lemma DisplayNameRoundTrip(key: string)
    requires key != [] && forall k :: 0 <= k < |key| ==> 'a' <= key[k] <= 'z'
    ensures 'A' <= DisplayName(key)[0] <= 'Z'
    ensures Lower(DisplayName(key)) == key
  {
  }

  /** The names `getIndividualPortfolio` is given for the seven portfolios of `portfolioRanges`. */
  lemma PortfolioDisplayNames()
    ensures seq(|PortfolioKeys|, i requires 0 <= i < |PortfolioKeys| => DisplayName(PortfolioKeys[i]))
      == ["Zohair", "Matthias", "Iaad", "Babak", "Bahman", "Victor", "Karl"]
  {
    var names := ["Zohair", "Matthias", "Iaad", "Babak", "Bahman", "Victor", "Karl"];
    forall i | 0 <= i < |PortfolioKeys|
      ensures DisplayName(PortfolioKeys[i]) == names[i]
    {
      var key := PortfolioKeys[i];
      assert key[1..] == names[i][1..];
      assert DisplayName(key) == [names[i][0]] + key[1..];
    }
  }
}
