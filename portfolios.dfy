/**
 * `detectIndividualPortfolios` of the complete Apps Script: a scan over the rows of
 * `B230:R729` that classifies each row by its first two cells, starts a portfolio at a name
 * row, collects the investment rows under it, remembers its summary row and files each
 * portfolio under a key when the next one starts and after the last row.
 */
module Portfolios {
  import opened JsText
  import opened JsNumbers
  import opened Table
  import opened Sheet
  import FundVesting

  // ---- Keys

  /** The class `/\s+/g` removes. */
  const WhiteSpace := CharClass({}, true)

  /** `cellB.toLowerCase().replace(/\s+/g, '')`, with Mikado's portfolio filed under Iaad. */
  function PortfolioKey(cellB: string): string
  {
    var key := Remove(Lower(cellB), WhiteSpace);
    if key == "mikado" then "iaad" else key
  }

  /** Removing characters keeps only characters of the text. */
  lemma {:induction false} RemoveFrom(s: string, cls: CharClass)
    ensures forall c :: c in Remove(s, cls) ==> c in s
  {
    if s != [] {
      RemoveFrom(s[..|s| - 1], cls);
    }
  }

  /**
   * A key has no whitespace and no upper-case letter, it is never "mikado", and it is
   * "iaad" exactly for the names that read "iaad" or "mikado".
   */
  lemma PortfolioKeyChars(cellB: string)
    ensures forall k :: 0 <= k < |PortfolioKey(cellB)| ==> !IsSpace(PortfolioKey(cellB)[k]) && !('A' <= PortfolioKey(cellB)[k] <= 'Z')
    ensures PortfolioKey(cellB) != "mikado"
    ensures PortfolioKey(cellB) == "iaad" <==>
      Remove(Lower(cellB), WhiteSpace) == "iaad" || Remove(Lower(cellB), WhiteSpace) == "mikado"
  {
    var key := Remove(Lower(cellB), WhiteSpace);
    RemoveFrom(Lower(cellB), WhiteSpace);
    forall k | 0 <= k < |key| ensures !('A' <= key[k] <= 'Z') {
      assert key[k] in Lower(cellB);
    }
  }

  /** Lower-casing an ASCII letter gives no whitespace. */
  lemma LowerNoSpace(s: string)
    requires forall k :: 0 <= k < |s| ==> !IsSpace(s[k])
    ensures forall k :: 0 <= k < |Lower(s)| ==> !InClass(Lower(s)[k], WhiteSpace)
  {
  }

  /**
   * For a name without whitespace the portfolio key is the key its vesting block is filed
   * under, so a manager's portfolio and vesting share one key.
   */
  lemma KeysAgree(name: string)
    requires forall k :: 0 <= k < |name| ==> !IsSpace(name[k])
    ensures PortfolioKey(name) == FundVesting.ManagerKey(name)
  {
    LowerNoSpace(name);
    RemoveNone(Lower(name), WhiteSpace);
  }

  // ---- Rows

  /** The summary of a row (cells from column B): columns C to R as text. */
  function ScanSummary(row: SheetRow): Row
  {
    map[TotalInvested := CellAt(row, 1), Share := CellAt(row, 2),
        TotalValue := CellAt(row, 3), RealisedValue := CellAt(row, 4), UnrealisedValue := CellAt(row, 5),
        RealisedPnL := CellAt(row, 6), UnrealisedRoi := CellAt(row, 7), RealisedRoi := CellAt(row, 8),
        OutstandingUSDC := CellAt(row, 9), OutstandingETH := CellAt(row, 10), OutstandingSOL := CellAt(row, 11),
        LiquidValue := CellAt(row, 12), Dpi := CellAt(row, 13), WithdrawUSD := CellAt(row, 14),
        WithdrawETH := CellAt(row, 15), WithdrawSOL := CellAt(row, 16)]
  }

  /** The investment of a row: the trimmed name in column B, then the columns of a summary. */
  function ScanInvestment(row: SheetRow): Row
  {
    ScanSummary(row)[Name := TrimmedAt(row, 0)]
  }

  /** A summary reads every field but the name from the column an investment reads it from. */
  lemma SummaryColumns(row: SheetRow)
    ensures ScanSummary(row) == ScanInvestment(row) - {Name}
    ensures ScanInvestment(row)[Name] == TrimmedAt(row, 0)
  {
    assert Name !in ScanSummary(row);
    DropAdded(ScanSummary(row), Name, TrimmedAt(row, 0));
  }

  /** Adding a new key and dropping it again gives the map back. */
  lemma DropAdded<K, V>(m: map<K, V>, k: K, v: V)
    requires k !in m
    ensures m[k := v] - {k} == m
  {
  }

  /** What a row is to the scan, by its trimmed cells B and C. */
  datatype PortfolioLine =
    | Heading(name: string)   // B holds a name and C is empty
    | Holding(investment: Row) // B and C both hold text
    | Totals(summary: Row)    // B is empty and C holds text
    | Gap                     // both are empty

  function ReadPortfolioLine(row: SheetRow): PortfolioLine
  {
    var cellB := TrimmedAt(row, 0);
    var cellC := TrimmedAt(row, 1);
    if cellB != [] && cellC == [] then Heading(cellB)
    else if cellB != [] && cellC != [] then Holding(ScanInvestment(row))
    else if cellB == [] && cellC != [] then Totals(ScanSummary(row))
    else Gap
  }

  /** The four kinds of row, by cells B and C; a name row's name is the trimmed cell B. */
  lemma PortfolioLineKinds(row: SheetRow)
    ensures ReadPortfolioLine(row).Heading? <==> TrimmedAt(row, 0) != [] && TrimmedAt(row, 1) == []
    ensures ReadPortfolioLine(row).Holding? <==> TrimmedAt(row, 0) != [] && TrimmedAt(row, 1) != []
    ensures ReadPortfolioLine(row).Totals? <==> TrimmedAt(row, 0) == [] && TrimmedAt(row, 1) != []
    ensures ReadPortfolioLine(row).Heading? ==> ReadPortfolioLine(row).name == TrimmedAt(row, 0)
    ensures ReadPortfolioLine(row).Holding? ==> ReadPortfolioLine(row).investment == ScanInvestment(row)
    ensures ReadPortfolioLine(row).Totals? ==> ReadPortfolioLine(row).summary == ScanSummary(row)
  {
  }

  // ---- The scan

  /** A portfolio of `portfolios`: its name, its investments in row order, and its summary if one was found. */
  datatype Portfolio = Portfolio(name: string, investments: seq<Row>, summary: Option<Row>)

  /** `currentPortfolio`: the key, the name and the summary so far (`startRow` is only logged). */
  datatype Current = Current(key: string, name: string, summary: Option<Row>)

  /** The variables of the scan: `portfolios`, `currentPortfolio` and `currentInvestments`. */
  datatype ScanState = ScanState(portfolios: map<string, Portfolio>, current: Option<Current>, investments: seq<Row>)

  /** `portfolios[currentPortfolio.key] = { name, investments: [...currentInvestments], summary }` */
  function Flush(s: ScanState): map<string, Portfolio>
  {
    if s.current.Some? then
      s.portfolios[s.current.value.key := Portfolio(s.current.value.name, s.investments, s.current.value.summary)]
    else s.portfolios
  }

  /** One iteration of the loop. */
  function Step(s: ScanState, line: PortfolioLine): ScanState
  {
    match line
    case Heading(name) => ScanState(Flush(s), Some(Current(PortfolioKey(name), name, None)), [])
    case Holding(inv) => if s.current.Some? then s.(investments := s.investments + [inv]) else s
    case Totals(summary) =>
      if s.current.Some? && |s.investments| > 0 then s.(current := Some(s.current.value.(summary := Some(summary)))) else s
    case Gap => s
  }

  /** The state after the first n rows. */
  function Scan(lines: seq<PortfolioLine>, n: nat): ScanState
    requires n <= |lines|
  {
    if n == 0 then ScanState(map[], None, []) else Step(Scan(lines, n - 1), lines[n - 1])
  }

  /** The `for (let i = 0; i < scanData.length; i++)` loop and the flush of the last portfolio. */
  method DetectIndividualPortfolios(lines: seq<PortfolioLine>) returns (portfolios: map<string, Portfolio>)
    ensures portfolios == Flush(Scan(lines, |lines|))
  {
    portfolios := map[];
    var currentPortfolio: Option<Current> := None;
    var currentInvestments: seq<Row> := [];
    var i := 0;
    while i < |lines|
      invariant 0 <= i <= |lines|
      invariant ScanState(portfolios, currentPortfolio, currentInvestments) == Scan(lines, i)
    {
      assert Scan(lines, i + 1) == Step(Scan(lines, i), lines[i]);
      match lines[i] {
        case Heading(name) =>
          if currentPortfolio.Some? {
            portfolios := portfolios[currentPortfolio.value.key :=
              Portfolio(currentPortfolio.value.name, currentInvestments, currentPortfolio.value.summary)];
          }
          currentPortfolio := Some(Current(PortfolioKey(name), name, None));
          currentInvestments := [];
        case Holding(inv) =>
          if currentPortfolio.Some? {
            currentInvestments := currentInvestments + [inv];
          }
        case Totals(summary) =>
          if currentPortfolio.Some? && |currentInvestments| > 0 {
            currentPortfolio := Some(currentPortfolio.value.(summary := Some(summary)));
          }
        case Gap =>
      }
      i := i + 1;
    }
    if currentPortfolio.Some? {
      portfolios := portfolios[currentPortfolio.value.key :=
        Portfolio(currentPortfolio.value.name, currentInvestments, currentPortfolio.value.summary)];
    }
  }

  // ---- What the scan files: one portfolio per name row

  /** The investments of the rows of a section, in order. */
  function Holdings(section: seq<PortfolioLine>): seq<Row>
  {
    if section == [] then []
    else Holdings(section[..|section| - 1]) + (if section[|section| - 1].Holding? then [section[|section| - 1].investment] else [])
  }

  /** The summary of a section: its last summary row that comes after an investment row. */
  function Summary(section: seq<PortfolioLine>): Option<Row>
  {
    if section == [] then None
    else
      var init := section[..|section| - 1];
      var last := section[|section| - 1];
      if last.Totals? && Holdings(init) != [] then Some(last.summary) else Summary(init)
  }

  /** The first name row at i or after, or the end of the rows: where the section after a name row ends. */
  function SectionEnd(lines: seq<PortfolioLine>, i: nat): (e: nat)
    requires i <= |lines|
    ensures i <= e <= |lines|
    ensures forall j :: i <= j < e ==> !lines[j].Heading?
    ensures e == |lines| || lines[e].Heading?
    decreases |lines| - i
  {
    if i == |lines| || lines[i].Heading? then i else SectionEnd(lines, i + 1)
  }

  /** The portfolio of the name row h: its name and the investments and summary of its section. */
  function PortfolioAt(lines: seq<PortfolioLine>, h: nat): Portfolio
    requires h < |lines| && lines[h].Heading?
  {
    var section := lines[h + 1..SectionEnd(lines, h + 1)];
    Portfolio(lines[h].name, Holdings(section), Summary(section))
  }

  /** The portfolios of the name rows among the first n rows, each under its key; a later one replaces an earlier. */
  function Filed(lines: seq<PortfolioLine>, n: nat): map<string, Portfolio>
    requires n <= |lines|
  {
    if n == 0 then map[]
    else if lines[n - 1].Heading? then Filed(lines, n - 1)[PortfolioKey(lines[n - 1].name) := PortfolioAt(lines, n - 1)]
    else Filed(lines, n - 1)
  }

  /** The last name row among the first n rows, -1 when there is none. */
  function LastHeading(lines: seq<PortfolioLine>, n: nat): (h: int)
    requires n <= |lines|
    ensures -1 <= h < n
    ensures h >= 0 ==> lines[h].Heading?
    ensures forall j :: h < j < n ==> !lines[j].Heading?
  {
    if n == 0 then -1 else if lines[n - 1].Heading? then n - 1 else LastHeading(lines, n - 1)
  }

  /**
   * The state after the first n rows: before any name row nothing is filed or current;
   * otherwise the portfolios of the earlier name rows are filed, and the last name row's
   * portfolio is current with the investments and summary of the rows after it.
   */
  ghost predicate Scanned(lines: seq<PortfolioLine>, n: nat, s: ScanState)
    requires n <= |lines|
  {
    var h := LastHeading(lines, n);
    if h < 0 then s == ScanState(map[], None, [])
    else
      s.portfolios == Filed(lines, h)
      && s.current == Some(Current(PortfolioKey(lines[h].name), lines[h].name, Summary(lines[h + 1..n])))
      && s.investments == Holdings(lines[h + 1..n])
  }

  /** Rows that are not name rows file nothing. */
  lemma {:induction false} FiledSkips(lines: seq<PortfolioLine>, i: nat, n: nat)
    requires i <= n <= |lines|
    requires forall j :: i <= j < n ==> !lines[j].Heading?
    ensures Filed(lines, n) == Filed(lines, i)
    decreases n - i
  {
    if i < n {
      FiledSkips(lines, i, n - 1);
    }
  }

  /** A section grows by one row. */
  lemma SectionSnoc(lines: seq<PortfolioLine>, a: nat, n: nat)
    requires a <= n < |lines|
    ensures lines[a..n + 1] == lines[a..n] + [lines[n]]
    ensures Holdings(lines[a..n + 1]) == Holdings(lines[a..n]) + (if lines[n].Holding? then [lines[n].investment] else [])
    ensures Summary(lines[a..n + 1]) ==
      if lines[n].Totals? && Holdings(lines[a..n]) != [] then Some(lines[n].summary) else Summary(lines[a..n])
  {
    assert lines[a..n + 1][..n - a] == lines[a..n];
  }

  /** The section of the name row h is complete once the next name row, or the end, is reached at n. */
  lemma SectionComplete(lines: seq<PortfolioLine>, h: nat, n: nat)
    requires h < n <= |lines| && lines[h].Heading?
    requires forall j :: h < j < n ==> !lines[j].Heading?
    requires n == |lines| || lines[n].Heading?
    ensures PortfolioAt(lines, h) == Portfolio(lines[h].name, Holdings(lines[h + 1..n]), Summary(lines[h + 1..n]))
    ensures Filed(lines, n) == Filed(lines, h)[PortfolioKey(lines[h].name) := PortfolioAt(lines, h)]
  {
    assert SectionEnd(lines, h + 1) == n by {
      SectionEndAt(lines, h + 1, n);
    }
    FiledSkips(lines, h + 1, n);
  }

  /** The section end from i is the first name row at i or after. */
  lemma {:induction false} SectionEndAt(lines: seq<PortfolioLine>, i: nat, n: nat)
    requires i <= n <= |lines|
    requires forall j :: i <= j < n ==> !lines[j].Heading?
    requires n == |lines| || lines[n].Heading?
    ensures SectionEnd(lines, i) == n
    decreases n - i
  {
    if i < n {
      SectionEndAt(lines, i + 1, n);
    }
  }

  /** A name row keeps `Scanned`: it files the section before it and starts its own. */
  lemma StepHeading(lines: seq<PortfolioLine>, n: nat)
    requires n < |lines| && lines[n].Heading? && Scanned(lines, n, Scan(lines, n))
    ensures Scanned(lines, n + 1, Scan(lines, n + 1))
  {
    var h := LastHeading(lines, n);
    if h >= 0 {
      SectionComplete(lines, h, n);
    } else {
      FiledSkips(lines, 0, n);
    }
    assert lines[n + 1..n + 1] == [];
  }

  /** Any other row keeps `Scanned`: it grows the current section, if there is one. */
  lemma StepOther(lines: seq<PortfolioLine>, n: nat)
    requires n < |lines| && !lines[n].Heading? && Scanned(lines, n, Scan(lines, n))
    ensures Scanned(lines, n + 1, Scan(lines, n + 1))
  {
    var h := LastHeading(lines, n);
    if h >= 0 {
      SectionSnoc(lines, h + 1, n);
    }
  }

  /** `Scanned` holds after every row. */
  lemma {:induction false} ScanScanned(lines: seq<PortfolioLine>, n: nat)
    requires n <= |lines|
    ensures Scanned(lines, n, Scan(lines, n))
  {
    if n > 0 {
      ScanScanned(lines, n - 1);
      if lines[n - 1].Heading? {
        StepHeading(lines, n - 1);
      } else {
        StepOther(lines, n - 1);
      }
    }
  }

  /**
   * The scan with its final flush files exactly one portfolio per name row, under its key:
   * the name row's name, the investments of the rows up to the next name row, and the last
   * summary row after one of them; a later name row with the same key replaces an earlier.
   */
  lemma DetectFiles(lines: seq<PortfolioLine>)
    ensures Flush(Scan(lines, |lines|)) == Filed(lines, |lines|)
  {
    ScanScanned(lines, |lines|);
    var h := LastHeading(lines, |lines|);
    if h >= 0 {
      SectionComplete(lines, h, |lines|);
    } else {
      FiledSkips(lines, 0, |lines|);
    }
  }

  /** Row j is a name row whose name gives the key. */
  predicate GivesKey(lines: seq<PortfolioLine>, j: nat, key: string)
    requires j < |lines|
  {
    lines[j].Heading? && PortfolioKey(lines[j].name) == key
  }

  /** A key is filed exactly when some name row gives it. */
  lemma {:induction false} FiledKeys(lines: seq<PortfolioLine>, n: nat, key: string)
    requires n <= |lines|
    ensures key in Filed(lines, n) <==> exists j :: 0 <= j < n && GivesKey(lines, j, key)
  {
    if n > 0 {
      FiledKeys(lines, n - 1, key);
      if GivesKey(lines, n - 1, key) {
        assert 0 <= n - 1 < n;
      }
    }
  }

  /** A filed key holds the portfolio of the last name row that gives it. */
  lemma {:induction false} FiledLast(lines: seq<PortfolioLine>, n: nat, key: string)
    requires n <= |lines| && key in Filed(lines, n)
    ensures exists j ::
              0 <= j < n && GivesKey(lines, j, key) && Filed(lines, n)[key] == PortfolioAt(lines, j)
              && (forall q :: j < q < n ==> !GivesKey(lines, q, key))
  {
    if GivesKey(lines, n - 1, key) {
      assert 0 <= n - 1 < n;
    } else {
      FiledLast(lines, n - 1, key);
      var j :| 0 <= j < n - 1 && GivesKey(lines, j, key) && Filed(lines, n - 1)[key] == PortfolioAt(lines, j)
        && (forall q :: j < q < n - 1 ==> !GivesKey(lines, q, key));
      assert forall q :: j < q < n ==> !GivesKey(lines, q, key);
    }
  }

  /**
   * A section's investments are its investment rows, in order, and its summary, when there
   * is one, is a summary row of the section with an investment row before it.
   */
  lemma {:induction false} SectionContents(section: seq<PortfolioLine>)
    ensures |Holdings(section)| <= |section|
    ensures forall inv :: inv in Holdings(section) <==> Holding(inv) in section
    ensures Summary(section).Some? ==>
      exists t :: 0 <= t < |section| && section[t] == Totals(Summary(section).value)
        && exists i :: 0 <= i < t && section[i].Holding?
  {
    if section != [] {
      var init := section[..|section| - 1];
      var last := section[|section| - 1];
      assert section == init + [last];
      SectionContents(init);
      if last.Totals? && Holdings(init) != [] {
        var inv := Holdings(init)[0];
        assert inv in Holdings(init);
        var i :| 0 <= i < |init| && init[i] == Holding(inv);
        assert section[i].Holding?;
      } else if Summary(init).Some? {
        var t :| 0 <= t < |init| && init[t] == Totals(Summary(init).value) && exists i :: 0 <= i < t && init[i].Holding?;
        var i :| 0 <= i < t && init[i].Holding?;
        assert section[t] == init[t] && section[i] == init[i];
      }
    }
  }
}
