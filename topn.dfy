/**
 * The top-N selections of the dashboard (app/page.tsx): read one amount column of every
 * investment, keep the positive amounts, sort them largest first and take the first N;
 * then either add each position's share of a total or print the liquid positions as one line.
 */
module TopN {
  import opened JsText
  import opened JsNumbers
  import opened JsParse
  import Dashboard
  import opened Table

  /** `{ name, <amount>, ...details }`: a row reduced to its name, one amount and the detail fields carried along. */
  datatype Position = Position(name: string, value: real, details: seq<string>)

  /** `/[$,\s  â¯]/g`, the characters stripped from total and realised values. */
  const ValueJunk := CharClass({'$', ',', 'â', '¯'}, true)

  /** `parseFloat(text?.replace(junk, '') || '0')`; a missing field reads as the empty text. */
  function CellAmount(text: string, junk: CharClass): Option<real>
  {
    var cleaned := Remove(text, junk);
    ParseFloat(if cleaned == [] then "0" else cleaned)
  }

  /** `inv.buyPrice || ''` and the like, for each detail column. */
  function Details(r: Row, cols: seq<ColKey>): (d: seq<string>)
    ensures |d| == |cols| && forall i :: 0 <= i < |cols| ==> d[i] == Cell(r, cols[i])
  {
    seq(|cols|, i requires 0 <= i < |cols| => Cell(r, cols[i]))
  }

  /** `{ name, <amount>, ... }`: the mapped object, with a NaN amount as None. */
  datatype Candidate = Candidate(name: string, amount: Option<real>, details: seq<string>)

  /** `investments.map(inv => ({ name: inv.name, <amount>: parseFloat(...), ... }))` */
  function Candidates(rows: seq<Row>, col: ColKey, junk: CharClass, detailCols: seq<ColKey>): (cs: seq<Candidate>)
    ensures |cs| == |rows|
    ensures forall i :: 0 <= i < |rows| ==>
      cs[i] == Candidate(Cell(rows[i], Name), CellAmount(Cell(rows[i], col), junk), Details(rows[i], detailCols))
  {
    seq(|rows|, i requires 0 <= i < |rows| =>
      Candidate(Cell(rows[i], Name), CellAmount(Cell(rows[i], col), junk), Details(rows[i], detailCols)))
  }

  /** A candidate the filter keeps: its amount is a number above 0 (NaN fails the test). */
  predicate Kept(c: Candidate)
  {
    c.amount.Some? && c.amount.value > 0.0
  }

  function PositionOf(c: Candidate): Position
    requires c.amount.Some?
  {
    Position(c.name, c.amount.value, c.details)
  }

  /** `.filter(pos => pos.<amount> > 0)` */
  function Filter(cs: seq<Candidate>): (ps: seq<Position>)
    ensures |ps| <= |cs|
    ensures forall i :: 0 <= i < |ps| ==> ps[i].value > 0.0
  {
    if cs == [] then []
    else if Kept(cs[0]) then [PositionOf(cs[0])] + Filter(cs[1..])
    else Filter(cs[1..])
  }

  /** A position passes the filter exactly when a kept candidate carries it. */
  lemma {:induction false} FilterKeeps(cs: seq<Candidate>, p: Position)
    ensures p in Filter(cs) <==> exists i :: 0 <= i < |cs| && Kept(cs[i]) && PositionOf(cs[i]) == p
  {
    if cs != [] {
      FilterKeeps(cs[1..], p);
      if exists i :: 0 <= i < |cs| && Kept(cs[i]) && PositionOf(cs[i]) == p {
        var i :| 0 <= i < |cs| && Kept(cs[i]) && PositionOf(cs[i]) == p;
        if i > 0 { assert cs[1..][i - 1] == cs[i]; }
      }
      if exists i :: 0 <= i < |cs| - 1 && Kept(cs[1..][i]) && PositionOf(cs[1..][i]) == p {
        var i :| 0 <= i < |cs| - 1 && Kept(cs[1..][i]) && PositionOf(cs[1..][i]) == p;
        assert cs[i + 1] == cs[1..][i];
      }
    }
  }

  /** The positive positions of the rows, in row order. */
  function Positives(rows: seq<Row>, col: ColKey, junk: CharClass, detailCols: seq<ColKey>): seq<Position>
  {
    Filter(Candidates(rows, col, junk, detailCols))
  }

  /** A position is selected from the rows exactly when some row has that name, that positive amount and those details. */
  lemma PositivesFromRows(rows: seq<Row>, col: ColKey, junk: CharClass, detailCols: seq<ColKey>, p: Position)
    ensures p in Positives(rows, col, junk, detailCols)
        <==> exists i :: 0 <= i < |rows| && p.value > 0.0 && CellAmount(Cell(rows[i], col), junk) == Some(p.value)
                         && p.name == Cell(rows[i], Name) && p.details == Details(rows[i], detailCols)
  {
    FilterKeeps(Candidates(rows, col, junk, detailCols), p);
  }

  // ---- Largest first

  /** Every position is at least as large as the ones after it. */
  predicate Descending(s: seq<Position>)
  {
    forall k, l :: 0 <= k < l < |s| ==> s[l].value <= s[k].value
  }

  /** Puts p before the first position that is not larger than it. */
  function Insert(p: Position, s: seq<Position>): (r: seq<Position>)
    requires Descending(s)
    ensures multiset(r) == multiset{p} + multiset(s)
    ensures Descending(r)
    ensures r[0] == p || (s != [] && r[0] == s[0])
  {
    if s == [] || s[0].value <= p.value then [p] + s
    else
      var t := Insert(p, s[1..]);
      InsertBehind(p, s, t);
      [s[0]] + t
  }

  /** A position larger than p stays in front of the rest with p inserted. */
  lemma InsertBehind(p: Position, s: seq<Position>, t: seq<Position>)
    requires Descending(s) && s != [] && p.value < s[0].value
    requires multiset(t) == multiset{p} + multiset(s[1..]) && Descending(t)
    requires t != [] && (t[0] == p || (s[1..] != [] && t[0] == s[1..][0]))
    ensures Descending([s[0]] + t)
    ensures multiset([s[0]] + t) == multiset{p} + multiset(s)
  {
    assert s == [s[0]] + s[1..];
    assert t[0].value <= s[0].value;
  }

  /** `.sort((a, b) => b.<amount> - a.<amount>)`: a stable sort, largest first. */
  function SortDescending(s: seq<Position>): (r: seq<Position>)
    ensures multiset(r) == multiset(s)
    ensures Descending(r)
  {
    if s == [] then []
    else
      assert s == [s[0]] + s[1..];
      Insert(s[0], SortDescending(s[1..]))
  }

  /** `.filter(...).sort(...).slice(0, n)` */
  function Top(rows: seq<Row>, col: ColKey, junk: CharClass, detailCols: seq<ColKey>, n: nat): seq<Position>
  {
    var sorted := SortDescending(Positives(rows, col, junk, detailCols));
    sorted[..if n < |sorted| then n else |sorted|]
  }

  /** A prefix of a descending list is descending, and none of the positions after it is larger than one in it. */
  lemma PrefixOfDescending(s: seq<Position>, m: nat)
    requires Descending(s) && m <= |s|
    ensures Descending(s[..m])
    ensures multiset(s[..m]) <= multiset(s)
    ensures forall p, i :: p in multiset(s) - multiset(s[..m]) && 0 <= i < m ==> p.value <= s[i].value
  {
    assert s == s[..m] + s[m..];
    assert multiset(s) == multiset(s[..m]) + multiset(s[m..]);
    forall p, i | p in multiset(s) - multiset(s[..m]) && 0 <= i < m
      ensures p.value <= s[i].value
    {
      assert p in multiset(s[m..]);
      var j :| 0 <= j < |s[m..]| && s[m..][j] == p;
      assert s[m + j] == p;
    }
  }

  /** The first n of the sorted positions: as many as there are up to n, descending, and drawn from the positions. */
  lemma FirstOfSorted(all: seq<Position>, n: nat)
    ensures var sorted := SortDescending(all);
      var top := sorted[..if n < |sorted| then n else |sorted|];
      && |top| == (if n < |all| then n else |all|)
      && (forall i :: 0 <= i < |top| ==> top[i] in all)
      && Descending(top)
  {
    var sorted := SortDescending(all);
    var m := if n < |sorted| then n else |sorted|;
    PrefixOfDescending(sorted, m);
    var top := sorted[..m];
    forall i | 0 <= i < |top| ensures top[i] in all {
      assert top[i] in multiset(top);
    }
  }

  /** No position left out of the first n of the sorted positions is larger than one taken. */
  lemma FirstOfSortedMaximal(all: seq<Position>, n: nat)
    ensures var sorted := SortDescending(all);
      var top := sorted[..if n < |sorted| then n else |sorted|];
      && multiset(top) <= multiset(all)
      && (forall p, i :: p in multiset(all) - multiset(top) && 0 <= i < |top| ==> p.value <= top[i].value)
  {
    var sorted := SortDescending(all);
    var m := if n < |sorted| then n else |sorted|;
    PrefixOfDescending(sorted, m);
  }

  /** At most n positions, each positive and taken from the rows, largest first. */
  lemma TopSelects(rows: seq<Row>, col: ColKey, junk: CharClass, detailCols: seq<ColKey>, n: nat)
    ensures var top, all := Top(rows, col, junk, detailCols, n), Positives(rows, col, junk, detailCols);
      && |top| == (if n < |all| then n else |all|)
      && (forall i :: 0 <= i < |top| ==> top[i].value > 0.0 && top[i] in all)
      && Descending(top)
  {
    var all := Positives(rows, col, junk, detailCols);
    FirstOfSorted(all, n);
    var top := Top(rows, col, junk, detailCols, n);
    forall i | 0 <= i < |top| ensures top[i].value > 0.0 {
      var j :| 0 <= j < |all| && all[j] == top[i];
    }
  }

  /** No positive position left out of the selection is larger than one that was taken. */
  lemma TopMaximal(rows: seq<Row>, col: ColKey, junk: CharClass, detailCols: seq<ColKey>, n: nat)
    ensures var top, all := Top(rows, col, junk, detailCols, n), Positives(rows, col, junk, detailCols);
      && multiset(top) <= multiset(all)
      && (forall p, i :: p in multiset(all) - multiset(top) && 0 <= i < |top| ==> p.value <= top[i].value)
  {
    var all := Positives(rows, col, junk, detailCols);
    FirstOfSortedMaximal(all, n);
  }

  // ---- Shares of a total

  /** `total > 0 ? (value / total) * 100 : 0` */
  function Share(value: real, total: real): real
  {
    if total > 0.0 then (value / total) * 100.0 else 0.0
  }

  /** A position with its share of the total. */
  datatype Ranked = Ranked(pos: Position, share: real)

  function WithShares(ps: seq<Position>, total: real): (r: seq<Ranked>)
    ensures |r| == |ps| && forall i :: 0 <= i < |ps| ==> r[i].pos == ps[i] && r[i].share == Share(ps[i].value, total)
  {
    seq(|ps|, i requires 0 <= i < |ps| => Ranked(ps[i], Share(ps[i].value, total)))
  }

  /** A positive value no larger than a positive total is a share in (0, 100]; with no positive total every share is 0. */
  lemma ShareBounds(value: real, total: real)
    requires value > 0.0
    ensures total > 0.0 && value <= total ==> 0.0 < Share(value, total) <= 100.0
    ensures total <= 0.0 ==> Share(value, total) == 0.0
  {
    if total > 0.0 && value <= total {
      assert value / total <= 1.0;
    }
  }

  /** The total of the position values. */
  function Sum(ps: seq<Position>): real
  {
    if ps == [] then 0.0 else ps[0].value + Sum(ps[1..])
  }

  function ShareSum(rs: seq<Ranked>): real
  {
    if rs == [] then 0.0 else rs[0].share + ShareSum(rs[1..])
  }

  /** The shares add up to the positions' part of the total, in percent. */
  lemma {:induction false} SharesAddUp(ps: seq<Position>, total: real)
    requires total > 0.0
    ensures ShareSum(WithShares(ps, total)) == Sum(ps) / total * 100.0
  {
    if ps != [] {
      var r := WithShares(ps, total);
      assert r[1..] == WithShares(ps[1..], total);
      SharesAddUp(ps[1..], total);
    }
  }

  /** The detail fields each selection carries along. */
  const BiggestDetails := [BuyPrice, CurrentPrice, AvgSellPrice]
  const RealisedDetails := [RealisedRoi, PercentReceived, PercentSold]

  /** `getTop5BiggestPositions(investments, totalPortfolioValue)` */
  function Top5Biggest(rows: seq<Row>, totalPortfolioValue: real): seq<Ranked>
  {
    WithShares(Top(rows, TotalValue, ValueJunk, BiggestDetails, 5), totalPortfolioValue)
  }

  /** `getTop5RealisedPositions(investments, totalRealisedValue)` */
  function Top5Realised(rows: seq<Row>, totalRealisedValue: real): seq<Ranked>
  {
    WithShares(Top(rows, RealisedValue, ValueJunk, RealisedDetails, 5), totalRealisedValue)
  }

  /** The selected positions with their shares: at most n, positive, from the rows, largest first. */
  lemma RankedTop(rows: seq<Row>, col: ColKey, junk: CharClass, detailCols: seq<ColKey>, n: nat, total: real)
    ensures |WithShares(Top(rows, col, junk, detailCols, n), total)| <= n
    ensures forall i :: 0 <= i < |WithShares(Top(rows, col, junk, detailCols, n), total)| ==>
      var e := WithShares(Top(rows, col, junk, detailCols, n), total)[i];
      e.pos.value > 0.0 && e.pos in Positives(rows, col, junk, detailCols) && e.share == Share(e.pos.value, total)
    ensures forall k, l :: 0 <= k < l < |WithShares(Top(rows, col, junk, detailCols, n), total)| ==>
      WithShares(Top(rows, col, junk, detailCols, n), total)[l].pos.value
        <= WithShares(Top(rows, col, junk, detailCols, n), total)[k].pos.value
  {
    var top := Top(rows, col, junk, detailCols, n);
    TopSelects(rows, col, junk, detailCols, n);
    var r := WithShares(top, total);
    assert forall i :: 0 <= i < |r| ==> r[i].pos == top[i];
  }

  /** At most five of the largest total values, largest first, each with its share of the portfolio value. */
  lemma Top5BiggestSelects(rows: seq<Row>, total: real)
    ensures |Top5Biggest(rows, total)| <= 5
    ensures forall i :: 0 <= i < |Top5Biggest(rows, total)| ==>
      var e := Top5Biggest(rows, total)[i];
      e.pos.value > 0.0 && e.pos in Positives(rows, TotalValue, ValueJunk, BiggestDetails) && e.share == Share(e.pos.value, total)
    ensures forall k, l :: 0 <= k < l < |Top5Biggest(rows, total)| ==>
      Top5Biggest(rows, total)[l].pos.value <= Top5Biggest(rows, total)[k].pos.value
  {
    RankedTop(rows, TotalValue, ValueJunk, BiggestDetails, 5, total);
  }

  /** At most five of the largest realised values, largest first, each with its share of the realised total. */
  lemma Top5RealisedSelects(rows: seq<Row>, total: real)
    ensures |Top5Realised(rows, total)| <= 5
    ensures forall i :: 0 <= i < |Top5Realised(rows, total)| ==>
      var e := Top5Realised(rows, total)[i];
      e.pos.value > 0.0 && e.pos in Positives(rows, RealisedValue, ValueJunk, RealisedDetails) && e.share == Share(e.pos.value, total)
    ensures forall k, l :: 0 <= k < l < |Top5Realised(rows, total)| ==>
      Top5Realised(rows, total)[l].pos.value <= Top5Realised(rows, total)[k].pos.value
  {
    RankedTop(rows, RealisedValue, ValueJunk, RealisedDetails, 5, total);
  }

  // ---- The liquid positions line

  /** `/[$,]/g` */
  const DollarComma := CharClass({'$', ','}, false)

  /** `` `${pos.name}: ${formatTokensReceived('$' + pos.liquidValue.toLocaleString())}` `` */
  function LiquidEntry(p: Position): string
  {
    p.name + ": " + Dashboard.FormatTokensReceived("$" + FormatLocale(p.value, 3))
  }

  /** `parts.join(sep)` */
  function Join(parts: seq<string>, sep: string): string
  {
    if parts == [] then [] else if |parts| == 1 then parts[0] else parts[0] + sep + Join(parts[1..], sep)
  }

  /**
   * `getTopLiquidPositions(investments)` with n = 5 and `getTopIndividualLiquidPositions`
   * with n = 3.
   */
  function LiquidLine(rows: seq<Row>, n: nat): string
  {
    var top := Top(rows, LiquidValue, DollarComma, [], n);
    if top == [] then "No liquid positions"
    else Join(seq(|top|, i requires 0 <= i < |top| => LiquidEntry(top[i])), " • ")
  }

  /**
   * An entry shows the whole dollars of the amount after `toLocaleString` rounded it to three
   * decimals (so 2.9996 shows as $3).
   */
  lemma LiquidEntryShown(p: Position)
    ensures LiquidEntry(p) == p.name + ": $" + Grouped(Dashboard.Floor(FixedValue(p.value, 3)))
  {
    var t := "$" + FormatLocale(p.value, 3);
    DollarLocaleAmount(p.value);
    Dashboard.TokensReceivedOfAmount(t, FixedValue(p.value, 3));
    EntryText(p.name, Dashboard.FormatTokensReceived(t), Grouped(Dashboard.Floor(FixedValue(p.value, 3))));
  }

  lemma EntryText(name: string, shown: string, g: string)
    requires shown == "$" + g
    ensures name + ": " + shown == name + ": $" + g
  {
  }

  /** The amount the page's `formatTokensReceived` reads from `'$' + x.toLocaleString()` is x rounded to three decimals. */
  lemma DollarLocaleAmount(x: real)
    ensures Dashboard.Amount("$" + FormatLocale(x, 3)) == Some(FixedValue(x, 3))
  {
    var t := "$" + FormatLocale(x, 3);
    assert Dashboard.DropDollar(t) == FormatLocale(x, 3);
    ParseFloatLocale(x, 3, Dashboard.CommaSpace);
  }

  /** The line falls back to its placeholder exactly when no liquid value is positive. */
  lemma LiquidLineEmpty(rows: seq<Row>, n: nat)
    requires n >= 1
    ensures Positives(rows, LiquidValue, DollarComma, []) == [] ==> LiquidLine(rows, n) == "No liquid positions"
    ensures Positives(rows, LiquidValue, DollarComma, []) != [] ==>
      var top := Top(rows, LiquidValue, DollarComma, [], n);
      1 <= |top| <= n && LiquidLine(rows, n) == Join(seq(|top|, i requires 0 <= i < |top| => LiquidEntry(top[i])), " • ")
  {
    TopSelects(rows, LiquidValue, DollarComma, [], n);
  }
}
