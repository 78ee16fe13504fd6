# xv-fund: a verified model of the dashboard's formatters and the sheet scripts

xv-fund is a fund dashboard. Its web pages show numbers that come from a Google Sheet.
Two Apps Scripts read the sheet and serve its data as JSON. This project models in Dafny
the sequential logic inside these parts, and proves properties of that model:

- **Formatters and sort keys** of the table page and the analytics page, as functions over strings:
  - `parseNumberLike`, `formatCell`;
  - `formatCurrencyClean`, `formatPercentage`, `formatROI`, `formatTokensROI`, `formatTokensReceived`, `formatPrice`, `formatUnlockColumn`;
  - the analytics page's own `formatTokensReceived` and `getROIColor`.
- **The table's sort control**: the `onHeaderClick` state machine (a class with the two state fields), and the column comparator with the in-place sort of a copied array.
- **The top-N selections**: parse, keep the values above 0, sort largest first, take the first 5 or 3. Also the shares of the total and the "liquid positions" line.
- **The complete Apps Script** (`doGet`):
  - the token and refresh dispatch;
  - the scan for the last row of column B, and the extraction of the main investments;
  - the investment list of a blockchain category;
  - `m/d/yy` date parsing and `YYYY-MM` month keys;
  - the fund's monthly vesting deltas and the chart of at most 42 months;
  - the per-manager vesting scan and deltas;
  - `formatSheetCurrency` and `calculateROI`;
  - `detectIndividualPortfolios`.
- **The updated Apps Script**: investment extraction, overview totals, `getIndividualPortfolio`, and the two-pass vesting computation (per-month cumulative maximum, then deltas against the last positive value).

Numbers are exact decimals (`real`), not IEEE doubles. `NaN` is `None`.

The JavaScript built-ins the code relies on are modelled once, in four modules of helpers:
- `JsText`: `trim`, `toLowerCase`, `replace` with a character class, `includes`, `split`;
- `JsNumbers`: `toFixed`, `toLocaleString` (en-US), `String(n)`;
- `JsParse`: `parseFloat`, `Number`, `parseInt`;
- `Dates`: `new Date(y, m, d)`.

A sheet range is a sequence of rows, and each row is a sequence of cell texts (`Sheet`).

Modules and files:

| module | file | what it models |
|---|---|---|
| `Dashboard` | dashboard.dfy | the formatters and `parseNumberLike` of app/page.tsx |
| `Table` | table.dfy | `COLUMNS`, the comparator, the sort, `onHeaderClick` |
| `TopN` | topn.dfy | the top-N helpers of app/page.tsx |
| `Analytics` | analytics.dfy | `formatTokensReceived`, `getROIColor` of app/analytics/page.tsx |
| `FundSheet` | fundsheet.dfy | `doGet` dispatch, last-row scan, extraction, `formatSheetCurrency`, `calculateROI` |
| `Categories` | categories.dfy | a blockchain category's investment list |
| `Dates` | dates.dfy | date parsing and month keys |
| `VestingChart` | vestingchart.dfy | amount totals, `allDates.sort()`, the 42-month chart |
| `FundVesting` | fundvesting.dfy | the complete script's fund and per-manager vesting deltas |
| `Portfolios` | portfolios.dfy | `detectIndividualPortfolios` |
| `UpdatedSheet` | updated.dfy | the updated script's extraction, overview, individual portfolios |
| `UpdatedVesting` | updatedvesting.dfy | the updated script's two vesting passes and chart |
| `Sheet`, `JsText`, `JsNumbers`, `JsParse` | sheet.dfy, jstext.dfy, jsnumbers.dfy, jsparse.dfy | cells and built-ins |

## Model

| member | source | states |
|---|---|---|
| Dashboard.ParseNumberLike | app/page.tsx:1651-1661 | definition of `parseNumberLike`; its contract is stated by the ParseNumberLike* and KeyOf* rows below |
| Dashboard.ParseNumberLikeWords | app/page.tsx:1651-1654 | text made only of letters, '/', '-' and spaces, with at least one non-space character, has the key -Infinity |
| Dashboard.ParseNumberLikeBlank | app/page.tsx:1651-1661 | text of spaces only escapes both -Infinity tests and reads as `Number('') == 0` |
| Dashboard.KeyOfPlain | app/page.tsx:1659-1661 | a plain decimal reads as its value |
| Dashboard.ParseNumberLikePlain | app/page.tsx:1651-1661 | a plain decimal cell sorts by its value |
| Dashboard.KeyOfSuffix | app/page.tsx:1656-1657 | a decimal with one trailing 'x', 'X' or '%' reads as the decimal's value |
| Dashboard.ParseNumberLikeSuffix | app/page.tsx:1651-1657 | "1.42x", "1.42X" and "61%" sort by 1.42 and 61 |
| Dashboard.KeyOfParens | app/page.tsx:1658 | a parenthesised decimal reads as its negation |
| Dashboard.ParseNumberLikeParens | app/page.tsx:1651-1658 | "(500)" sorts by -500 |
| Dashboard.ParseNumberLikeParenWord | app/page.tsx:1651-1658 | a parenthesised word gives NaN (`-Number('abc')`), not -Infinity |
| Dashboard.KeyOfParenWord | app/page.tsx:1658 | the cleaned form "(word)" reads as NaN |
| Dashboard.ParseNumberLikeNaN | app/page.tsx:1655-1661 | NaN only ever comes from parenthesised text: every other failure gives -Infinity |
| Dashboard.KeyOfNaN | app/page.tsx:1656-1661 | a cleaned text whose key is NaN is parenthesised |
| Dashboard.ParseNumberLikeCurrency | app/page.tsx:1651-1661 | the dollar text `"$" + n.toLocaleString()` that the formatters print sorts by n |
| Dashboard.ParseNumberLikeFixed | app/page.tsx:1651-1661 | `x.toFixed(f)` followed by nothing, 'x', 'X' or '%' sorts by the printed value |
| Dashboard.FormatCurrencyClean | app/page.tsx:163-188 | definition of `formatCurrencyClean` as written; stated by TruncatedNaN, CurrencyCleanAgrees and CurrencyCleanNaN |
| Dashboard.SentinelsNotNumbers | app/page.tsx:164-170 | `''`, `'-'` and `'/'` are not numbers under any of the cleanings the formatters apply |
| Dashboard.AmountNotSentinel | app/page.tsx:164-170 | a text the currency formatters read as an amount is neither empty nor '-' |
| Dashboard.AmountOfIntToString | app/page.tsx:167-170 | the currency formatters read `String(n)` as n |
| Dashboard.AmountOfDollarText | app/page.tsx:167-170 | the currency formatters read their own output `"$" + n.toLocaleString()` as n |
| Dashboard.TruncatedNaN | app/page.tsx:175-185 | cutting three characters off `String(n)` gives NaN exactly when -999 <= n <= -100; otherwise it gives n without its last three digits |
| Dashboard.CurrencyCleanAgrees | app/page.tsx:163-188 | the formatter as written and the corrected one agree on every input whose floor is outside [-999, -100] |
| Dashboard.CurrencyCleanNaN | app/page.tsx:175-187 | for floors in [-999, -100] the formatter as written prints "$NaN" and the corrected one prints the amount |
| Dashboard.CurrencyCleanNaNExample | app/page.tsx:175-187 | formatCurrencyClean("-500") and every `String(-m)` with 100 <= m <= 999 print "$NaN" |
| Dashboard.CurrencyCleanFixedShown | app/page.tsx:163-188 | the corrected formatter prints the amount in thousands, which sorts by that figure |
| Dashboard.TokensReceivedShown | app/page.tsx:228-244 | an amount is shown as its whole dollars, and the column sorts by exactly that figure |
| Dashboard.TokensReceivedIdempotent | app/page.tsx:228-244 | formatting twice is formatting once, for every input |
| Dashboard.PercentageShown | app/page.tsx:191-197 | a fraction x is shown as 100x to one decimal with '%', within 0.05 of 100x; it reads back as that figure and sorts by it |
| Dashboard.MultipleShown | app/page.tsx:200-225 | a multiple printed with two decimals and 'x' is within 0.005 of the value, reads back as the rounded value and sorts by it |
| Dashboard.ROIShown | app/page.tsx:200-211 | formatROI of a readable value x prints x to two decimals and 'x'; formatROI's own cleaning reads that back as the rounded value, within 0.005 of x, and the column sorts by it |
| Dashboard.TokensROIShown | app/page.tsx:214-225 | formatTokensROI of a readable value x prints x to two decimals and 'x'; formatTokensROI's own cleaning reads that back as the rounded value, within 0.005 of x, and the column sorts by it |
| Dashboard.MultipleCleaned | app/page.tsx:200-225 | both ROI formatters strip the 'x' of their own output and read back the rounded value |
| Dashboard.ROIIdempotent | app/page.tsx:200-211 | formatROI twice is formatROI once, unless the value rounds to a negative zero |
| Dashboard.TokensROIIdempotent | app/page.tsx:214-225 | formatTokensROI twice is formatTokensROI once, unless the value rounds to a negative zero |
| Dashboard.ROINegativeZero | app/page.tsx:210 | a value in (-0.005, 0) prints as "-0.00", and formatting that again prints "0.00" |
| Dashboard.PriceShown | app/page.tsx:246-261 | a price is shown with three decimals, within 0.0005 of the amount; it reads back as the rounded value and sorts by it |
| Dashboard.PriceCleaned | app/page.tsx:249-261 | the price formatter reads `"$" + x.toFixed(3)` as the rounded value |
| Dashboard.ParseNumberLikePrice | app/page.tsx:1651-1661 | a printed price sorts by the rounded value |
| Dashboard.PriceIdempotent | app/page.tsx:246-261 | formatPrice twice is formatPrice once, unless the amount rounds to a negative zero |
| Dashboard.FormatUnlockColumn | app/page.tsx:266-291 | definition of `formatUnlockColumn`; stated by UnlockStatusKept, UnlockDaysShown and UnlockCurrencyShown |
| Dashboard.UnlockStatusKept | app/page.tsx:266-274 | text whose lower case contains "finished", "exit" or "tge" is kept as it is, in every kind of column |
| Dashboard.NotStatus | app/page.tsx:269-273 | text without 'f', 'e', 't' and without upper-case letters is not a status |
| Dashboard.UnlockDaysShown | app/page.tsx:283-287 | a day count is shown as `Math.round(x) + ' days'`; it reads back as the rounded count, and formatting again keeps it |
| Dashboard.DaysTextKept | app/page.tsx:283-287 | the day formatters keep their own "n days" text |
| Dashboard.DaysTextNotStatus | app/page.tsx:267-273 | an "n days" text is neither a status nor a placeholder |
| Dashboard.UnlockCurrencyShown | app/page.tsx:276-282 | a currency unlock under $1 is '-'; otherwise it is its whole dollars, which sorts by that figure and is kept by formatting again |
| Dashboard.DollarTextUnlock | app/page.tsx:276-282 | `"$" + n.toLocaleString()` with n >= 1 is kept by the currency unlock formatter |
| Dashboard.DollarGroupedNotStatus | app/page.tsx:269-273 | no dollar amount text reads as a status |
| Dashboard.UnlockAmountOfDollarText | app/page.tsx:277-278 | the currency unlock formatter reads `"$" + n.toLocaleString()` back as n |
| Dashboard.FormatCell | app/page.tsx:1663-1671 | definition of `formatCell`; stated by FormatCellKeeps and FormatCellPlain |
| Dashboard.FormatCellKeeps | app/page.tsx:1663-1671 | only plain decimals are reformatted; percentages, dollars, multiples and all other text are kept |
| Dashboard.FormatCellPlain | app/page.tsx:1666-1669 | a plain decimal is shown with at most two decimals and digit groups, within 0.005 of the value, and reads back as the rounded value |
| Dashboard.FormatCellPlainText | app/page.tsx:1666-1669 | a plain decimal is shown as `toLocaleString` with at most two fraction digits |
| Analytics.TokensReceivedEmpty | app/analytics/page.tsx:64-65 | the result is empty exactly for `''`, `'0'` and `'$0'` |
| Analytics.TokensReceivedKept | app/analytics/page.tsx:67-75 | any text other than those three that holds '%' or 'x', or holds no '$', is returned unchanged |
| Analytics.TokensReceivedRounded | app/analytics/page.tsx:78-86 | a dollar text that reads as x becomes '$' + round(x) with digit groups, which reads back as round(x), within half a dollar of x |
| Analytics.TokensReceivedIdempotent | app/analytics/page.tsx:64-90 | formatting twice is formatting once, except for an amount that prints as "$0" |
| Analytics.TokensReceivedZero | app/analytics/page.tsx:64-86 | an amount in [-0.5, 0.5) prints as "$0", which a second pass clears to ''; the sign of a negative zero is left out, see below |
| Analytics.GetROIColor | app/analytics/page.tsx:92-101 | definition of `getROIColor`; stated by ROIColorCases and ROIColorOfMultiple |
| Analytics.ZeroMultiple | app/analytics/page.tsx:92-95 | "0x" reads as the multiple 0, so only the explicit check makes it gray rather than red |
| Analytics.ROIColorCases | app/analytics/page.tsx:92-101 | green exactly above a 1x multiple; red exactly below it, except for "0x"; gray for 1, for "0x" and for unreadable text |
| Analytics.ROIColorOfMultiple | app/analytics/page.tsx:92-101 | the colour of a multiple printed with two decimals agrees with the printed value |
| Table.FindColumn | app/page.tsx:3529 | `cols.find` gives an entry of the list with that key, and none exactly when no entry has the key |
| Table.NumericColumns | app/page.tsx:1631-1649 | a column sorts numerically exactly when `COLUMNS` has an entry for it that is flagged numeric |
| Table.ColumnFlags | app/page.tsx:1631-1649 | each entry of `COLUMNS` is flagged numeric exactly when its key is a numeric column |
| Table.NumericIndex | app/page.tsx:1631-1649 | every numeric column has an entry in `COLUMNS` |
| Table.ComparatorInconsistent | app/page.tsx:3527-3534 | with a "(word)" cell the comparator as written ties a with b and b with c while a sorts after c, so it is not a consistent order |
| Table.SortKey | app/page.tsx:3531-3533 | the corrected key is never NaN and equals `parseNumberLike` wherever that is not NaN |
| Table.CompareNumeric | app/page.tsx:3530-3534 | on a numeric column, descending puts the larger key first and ascending the smaller |
| Table.CompareText | app/page.tsx:3536-3538 | on a text column, ascending is code-point order and descending its reverse |
| Table.CompareAntisymmetric | app/page.tsx:3527-3539 | swapping the two rows negates the comparison |
| Table.CompareTransitive | app/page.tsx:3527-3539 | "sorts no later than" is transitive |
| Table.SortRows | app/page.tsx:3527-3539 | the in-place sort leaves the array sorted by the comparator and a permutation of what it held |
| Table.NextSort | app/page.tsx:3542-3545 | a click sets the key; a new key sorts descending, and the current key flips the direction |
| Table.NextSortTwice | app/page.tsx:3542-3545 | two clicks on the current header restore the sort; two on another header sort it ascending |
| Table.SortState.OnHeaderClick | app/page.tsx:3542-3545 | the new key and direction are `NextSort` of the old ones |
| Table.SortState.SortedRows | app/page.tsx:3525-3540 | the memo returns the rows sorted by the current key and direction, as a permutation of the items |
| Table.SortedDescending | app/page.tsx:3533 | sorted descending by a numeric column, the keys never increase down the table |
| Table.SortedAscending | app/page.tsx:3533 | sorted ascending by a numeric column, the keys never decrease and the rows without a number come first |
| TopN.Filter | app/page.tsx:300 | no more positions than candidates, each with value above 0 |
| TopN.FilterKeeps | app/page.tsx:300 | a position passes the filter exactly when a candidate with a positive amount carries it |
| TopN.PositivesFromRows | app/page.tsx:295-300 | a position is selected exactly when some row has that name, that positive amount and those details |
| TopN.Insert | app/page.tsx:301 | inserting keeps a descending list descending and adds exactly one position |
| TopN.SortDescending | app/page.tsx:301 | the sort is a permutation and puts the largest value first |
| TopN.FirstOfSorted | app/page.tsx:301-302 | the first n of the sorted positions are min(n, all) many, descending, and drawn from the positions |
| TopN.FirstOfSortedMaximal | app/page.tsx:301-302 | no position left out of the first n is larger than one that was taken |
| TopN.TopSelects | app/page.tsx:294-302 | a selection has min(n, positives) entries, each positive and from the rows, largest first |
| TopN.TopMaximal | app/page.tsx:294-302 | the selection is a sub-multiset of the positive positions, and nothing left out is larger than anything taken |
| TopN.WithShares | app/page.tsx:322-325 | each selected position gets `total > 0 ? value / total * 100 : 0` |
| TopN.ShareBounds | app/page.tsx:324 | a positive value no larger than a positive total has a share in (0, 100]; with no positive total every share is 0 |
| TopN.SharesAddUp | app/page.tsx:322-325 | the shares add up to the selected positions' part of the total, in percent |
| TopN.RankedTop | app/page.tsx:311-346 | at most n entries, each positive, from the rows and with its share, largest first |
| TopN.Top5BiggestSelects | app/page.tsx:311-327 | at most five of the largest total values, largest first, each with its share of the portfolio value |
| TopN.Top5RealisedSelects | app/page.tsx:330-346 | at most five of the largest realised values, largest first, each with its share of the realised total |
| TopN.LiquidEntryShown | app/page.tsx:305-307 | an entry shows the name and the whole dollars of the value rounded to three decimals (2.9996 shows as $3) |
| TopN.DollarLocaleAmount | app/page.tsx:306 | `formatTokensReceived` reads `'$' + x.toLocaleString()` as x rounded to three decimals |
| TopN.LiquidLineEmpty | app/page.tsx:294-307 | with no positive liquid value the line is "No liquid positions"; otherwise it joins the 1 to n entries of the selection with " • " |
| Sheet.RowsUntilRows | complete_appscript.js:115-122 | the objects come from consecutive rows, none of which ends the table, and the row after them ends it or is past the range |
| Sheet.RowsUntilTake | complete_appscript.js:109-115 | reading fewer rows gives a prefix of the same objects, at most one per row read |
| Sheet.ProjectColumn | complete_appscript.js:363-375 | the column of each of the eleven projects lies between B and S |
| Sheet.CellValueGrouped | complete_appscript.js:441-450 | a cell holding a number written with thousands separators reads as that number |
| FundSheet.DoGet | complete_appscript.js:40-85 | definition of the `doGet` dispatch; stated by DoGetAuthorises, DoGetRefresh and DoGetFundData |
| FundSheet.DoGetAuthorises | complete_appscript.js:42-46 | a request is turned away exactly when it does not carry the secret token |
| FundSheet.DoGetRefresh | complete_appscript.js:48-67 | an authorised refresh request is answered by the refresh outcome alone, whatever the sheets; it succeeds exactly when the refresh throws nothing, and a request that is not a refresh does not depend on the refresh outcome |
| FundSheet.DoGetFundData | complete_appscript.js:69-84 | an authorised request that is not a refresh gets the fund data exactly when both sheets exist, with categories exactly when asked with "true" |
| FundSheet.ScanLastRow | complete_appscript.js:95-106 | the recorded row is between 15 and 100, holds a name (or is row 15), and is the last name before the scan stops |
| FundSheet.ScanStops | complete_appscript.js:95-106 | where the scan stops, at a gap or after row 100, the row it recorded is the last of the scan |
| FundSheet.FindLastRow | complete_appscript.js:94-106 | `lastRow` is row 15 or a row whose cell is a name that is not blank, no sentinel company and no dollar total, and the last such row of the scan |
| FundSheet.LastRowUnique | complete_appscript.js:95-106 | there is only one row that is the last of the scan |
| FundSheet.InvestmentName | complete_appscript.js:117-122 | an extracted name is the trimmed cell, and is not empty, not a sentinel and not a dollar total |
| FundSheet.ExtractInvestments | complete_appscript.js:115-148 | one investment per row from index 1 until the first row that ends the table |
| FundSheet.MainInvestments | complete_appscript.js:94-148 | `lastRow` is the last row of the column-B scan (row 15 or a row with a name, between 15 and 100); the investments are those the extraction gives over the range `B15:R[lastRow]`, at most `lastRow - 15` of them, and a prefix of what the rows from 16 on would give |
| FundSheet.FormatSheetCurrency | complete_appscript.js:679-684 | definition of `formatSheetCurrency`; stated by SheetCurrencyReadsBack and SheetCurrencyIdempotent |
| FundSheet.SheetCurrencyReadsBack | complete_appscript.js:679-684 | the text written reads back as the amount rounded to whole dollars, at most half a dollar away |
| FundSheet.SheetCurrencyIdempotent | complete_appscript.js:679-684 | formatting the formatter's own output again changes nothing |
| FundSheet.CalculateROI | complete_appscript.js:687-692 | definition of `calculateROI`; stated by CalculateROIMultiple |
| FundSheet.CalculateROIMultiple | complete_appscript.js:687-692 | a multiple is given exactly when both totals are numbers and the invested one is not 0; it reads back as the quotient to two decimals, and the analytics page colours it by that value |
| Categories.FirstIndex | complete_appscript.js:318 | the place where a name first occurs: the name is there and nowhere before it |
| Categories.NonBlank | complete_appscript.js:318 | the names kept are exactly the names that are not blank, and a first name that is not blank stays first; the order is stated by NonBlankAppend |
| Categories.NonBlankAppend | complete_appscript.js:318 | `filter` keeps the order: filtering a + b gives the kept names of a, then those of b |
| Categories.Dedupe | complete_appscript.js:318 | `[...new Set(...)]` keeps exactly the same names and has no duplicates, and the first name stays first; the order is stated by DedupeOrder |
| Categories.DedupeOrder | complete_appscript.js:318 | `new Set` keeps insertion order: the names come out in the order they first occur |
| Categories.DedupeUnique | complete_appscript.js:318 | a list without duplicates is left as it is |
| Categories.BlockNamesRows | complete_appscript.js:225-244 | a name is pushed by the block scan exactly when a row before the next category lists it under no category and it is not the main investment |
| Categories.PatternsOnlyListed | complete_appscript.js:258-310 | a category without a case in the `switch` picks up no investments by pattern |
| Categories.AddMatches | complete_appscript.js:249-316 | the pass adds exactly the fund investments the test accepts, and keeps the list it started with in front; what it appends, and in which order, is stated by AddMatchesAppended and AddMatchesOrder |
| Categories.AddMatchesAppended | complete_appscript.js:249-316 | every name the pass appends is a fund investment the test accepts that was not already listed |
| Categories.AddMatchesOrder | complete_appscript.js:249-316 | the appended names keep the `forEach` order: each once, in the order they first occur among the investments |
| Categories.AddMatching | complete_appscript.js:249-316 | the `forEach` loop computes `AddMatches` |
| Categories.CategoryInvestments | complete_appscript.js:217-318 | the category's list is the de-duplicated, non-blank main investment, block names and pattern matches, in that order |
| Categories.CategoryList | complete_appscript.js:217-318 | the list has no duplicates and no blank name, starts with the main investment when there is one, and holds a name exactly when it is the main investment, a block name or an accepted fund investment |
| Categories.CategoryOrder | complete_appscript.js:217-318 | the category's list orders its names by where each first occurs in the non-blank list of main investment, block names and pattern matches |
| Dates.MakeDateExisting | complete_appscript.js:412 | `new Date(y, m - 1, d)` of a date that exists is that date, for years outside 0 to 99 (which `Date` reads as 1900 to 1999) |
| Dates.CarryNextMonth | complete_appscript.js:412 | a day past the end of a month carries into the next month |
| Dates.CarryDayZero | complete_appscript.js:412 | day 0 is the last day of the month before |
| Dates.ParseSlashDate | complete_appscript.js:401-413 | definition of the `m/d/yy` reading; stated by ParseNumerals, ParseWrittenDate and ParseWrittenFullDate |
| Dates.ParseNumerals | complete_appscript.js:401-413 | the text `m/d/y` of three numerals reads back as that date, with 2000 added to a year below 100 |
| Dates.ParseWrittenDate | complete_appscript.js:401-413 | a date of 2000-2099 written `m/d/yy` reads back as itself |
| Dates.ParseWrittenFullDate | complete_appscript.js:401-413 | a date written with a year of three or more digits reads back as itself |
| Dates.MonthDigits | complete_appscript.js:421 | a month from 1 to 12 is padded to exactly two digits of its value |
| Dates.MonthKeyShape | complete_appscript.js:421 | the month key of a four-digit year is the year, '-', and two digits reading as the month |
| Dates.MonthKeyOrder | complete_appscript.js:466 | for four-digit years, month keys sort as text in calendar order |
| Dates.MonthKeySame | complete_appscript.js:421 | for four-digit years, two dates share a month key exactly when they share year and month |
| VestingChart.Max0 | complete_appscript.js:483 | `Math.max(0, x)` is at least 0 and at least x, and is x or 0 |
| VestingChart.TotalUpToPositive | complete_appscript.js:504-508 | amounts that are never negative add up to more than 0 exactly when one of them is above 0 |
| VestingChart.TotalPositive | complete_appscript.js:504-508 | a month's total over all projects is positive exactly when some project's amount is |
| VestingChart.WithVesting | complete_appscript.js:504-509 | the filter keeps no more months than it is given, each with a positive total |
| VestingChart.WithVestingKeeps | complete_appscript.js:504-509 | a month is kept exactly when it is one of the months and its total is above 0 |
| VestingChart.WithVestingInOrder | complete_appscript.js:504-509 | the filter keeps the months in their order |
| VestingChart.ChartSelects | complete_appscript.js:497-509 | the chart has at most 42 months: exactly the months among the first 42 keys whose amounts add up to more than 0, each with its amounts, in key order |
| VestingChart.ChartNonNegative | complete_appscript.js:497-509 | amounts that are never negative stay so in the chart |
| VestingChart.SortKeys | complete_appscript.js:495 | `allDates.sort()` in place leaves the keys sorted by character, as a permutation |
| VestingChart.SortedDates | complete_appscript.js:495 | the sorted keys are sorted and a permutation of the keys |
| FundVesting.CollectMonths | complete_appscript.js:388-456 | the loop collects what the row reader gives for rows 1 on, in order |
| FundVesting.CollectedRows | complete_appscript.js:388-456 | a record is collected exactly when some row after the header gives it |
| FundVesting.FutureMonths | complete_appscript.js:463 | the future records are exactly the records marked future |
| FundVesting.FindMonth | complete_appscript.js:478 | `findIndex` gives the first record of the month, or -1 when the month has no record |
| FundVesting.Previous | complete_appscript.js:478-479 | the previous record is the one before the month's first record, and there is none when that is the first record or the month has no record |
| FundVesting.Deltas | complete_appscript.js:474-484 | eleven amounts, each at least 0 and at least current - previous, and equal to one of the two |
| FundVesting.FiledMonths | complete_appscript.js:469-472 | the months filed are exactly the months of the records, each holding the value of its last record |
| FundVesting.FiledNonNegative | complete_appscript.js:469-484 | values with no amount below 0 file no amount below 0 |
| FundVesting.MonthlyVestingNonNegative | complete_appscript.js:483 | no monthly amount of the fund is negative |
| FundVesting.MonthlyAmounts | complete_appscript.js:469-491 | the loop fills `monthlyVesting` with each future record's deltas and `allDates` with its months |
| FundVesting.FundVestingData | complete_appscript.js:469-510 | the month keys come out sorted and a permutation of the future months, and the chart is drawn from them |
| FundVesting.FundChart | complete_appscript.js:463-510 | at most 42 months in key order, each the month of a record dated today or later, with a positive total, no amount below 0, and the deltas of that month's last future record |
| FundVesting.ManagerKeyValues | complete_appscript.js:524-532 | the keys the five manager names are filed under: Mikado's under "iaad" |
| FundVesting.ManagerKeyOf | complete_appscript.js:524-532 | each manager name is filed under one of the four keys, and under "iaad" exactly for Iaad and Mikado |
| FundVesting.ReadManagerLine | complete_appscript.js:520-544 | a manager row always names one of the five managers |
| FundVesting.ScanManagers | complete_appscript.js:520-587 | the loop over the rows computes the row-by-row scan |
| FundVesting.ScanRowsKeys | complete_appscript.js:520-587 | only the four manager keys are ever filed, and the current manager always has a list |
| FundVesting.StepFiled | complete_appscript.js:544-586 | one row of the scan files only months of dates today or later |
| FundVesting.ScanRowsMonths | complete_appscript.js:544-586 | every month filed for a manager is the month key of a date row dated today or later, with eleven amounts |
| FundVesting.ManagerDeltasRows | complete_appscript.js:590-613 | a manager's months are the row-by-row deltas with a positive total and no amount below 0; the first delta is the first cumulative amounts themselves, at least 0 |
| FundVesting.IndividualVesting | complete_appscript.js:520-613 | the managers sent are those the scan filed, and only the four manager keys; each month sent is the month key of a date row dated today or later, the delta of one of the manager's rows against the row before it, with a positive total and no amount below 0 |
| Portfolios.PortfolioKeyChars | complete_appscript.js:743-748 | a key has no whitespace and no upper-case letter, is never "mikado", and is "iaad" exactly for names that lower-case to "iaad" or "mikado" |
| Portfolios.KeysAgree | complete_appscript.js:743-748 | for a name without whitespace, the portfolio key is the key the manager's vesting is filed under |
| Portfolios.SummaryColumns | complete_appscript.js:760-800 | a summary reads every field but the name from the column an investment reads it from; the name is the trimmed cell B |
| Portfolios.PortfolioLineKinds | complete_appscript.js:727-778 | a row is a name row, an investment row or a summary candidate exactly by which of cells B and C are empty |
| Portfolios.Scan | complete_appscript.js:726-805 | definition of the state after each row of the loop; stated by Portfolios.ScanScanned and DetectFiles |
| Portfolios.ScanScanned | complete_appscript.js:726-805 | after any number of rows: before the first name row nothing is filed or current; otherwise the earlier name rows' portfolios are filed and the last name row's portfolio is current, holding the investments and the last summary of the rows after it |
| Portfolios.DetectIndividualPortfolios | complete_appscript.js:721-814 | the loop and the final flush compute the fold of the row-by-row step |
| Portfolios.SectionEnd | complete_appscript.js:731-733 | a section ends at the next name row, or at the end of the rows |
| Portfolios.LastHeading | complete_appscript.js:731-757 | the current portfolio is the one started by the last name row so far |
| Portfolios.DetectFiles | complete_appscript.js:721-814 | the scan files one portfolio per name row under its key: the name, the investments of the rows up to the next name row, and the last summary row after one of them; a later name with the same key replaces an earlier one |
| Portfolios.FiledKeys | complete_appscript.js:731-814 | a key is filed exactly when some name row gives it |
| Portfolios.FiledLast | complete_appscript.js:731-814 | a filed key holds the portfolio of the last name row that gives it |
| Portfolios.SectionContents | complete_appscript.js:759-801 | a portfolio's investments are its section's investment rows, in order, and its summary is a summary-candidate row with an investment row before it |
| UpdatedSheet.InvestmentName | updated_appscript.js:33-38 | an extracted name is the trimmed cell B, and is not empty, not a sentinel and does not contain the total marker |
| UpdatedSheet.ExtractInvestments | updated_appscript.js:32-56 | one investment per row from index 2 until the first row that ends the table |
| UpdatedSheet.SumOfAppend | updated_appscript.js:342-354 | the total over two runs of investments is the sum of their totals |
| UpdatedSheet.OverviewTotals | updated_appscript.js:335-354 | the loop computes the five totals of the fields that are numbers |
| UpdatedSheet.OverviewOf | updated_appscript.js:356-370 | definition of the `overview` object; stated by OverviewStates |
| UpdatedSheet.CalculateOverview | updated_appscript.js:335-370 | the overview is built from the five totals and the number of investments |
| UpdatedSheet.DollarsReadBack | updated_appscript.js:357-362 | a dollar amount the overview writes reads back as the amount to three decimals |
| UpdatedSheet.RoiOfMultiple | updated_appscript.js:363-364 | the multiple is "0x" exactly when nothing was invested; otherwise it reads back as the quotient to two decimals, and the analytics page colours it by that value |
| UpdatedSheet.OverviewStates | updated_appscript.js:356-370 | each amount reads back as its total to three decimals; the unrealised value is total value less realised value; both multiples are "0x" exactly when nothing was invested; the count is the number of investments |
| UpdatedSheet.PortfolioInvestments | updated_appscript.js:390-413 | the loop lists the investments of the named rows from index 1, in order |
| UpdatedSheet.NamedRowsRows | updated_appscript.js:390-396 | at most `data.length - 1` investments, and an investment is listed exactly when a row after the header with a name gives it |
| UpdatedSheet.PortfolioNames | updated_appscript.js:392-398 | every listed investment has a name that is not empty and is trimmed |
| UpdatedSheet.PortfolioSummary | updated_appscript.js:415-435 | definition of a portfolio's `summary`; stated by SummaryAligned |
| UpdatedSheet.SummaryAligned | updated_appscript.js:415-435 | the summary reads each field from the column the portfolio's investments read it from |
| UpdatedSheet.DisplayName | updated_appscript.js:447-453 | the display name is the key with its first letter in upper case |
| UpdatedSheet.DisplayNameRoundTrip | updated_appscript.js:447-453 | a key of lower-case letters gets an upper-case first letter, and lower-casing the display name gives the key back |
| UpdatedSheet.PortfolioDisplayNames | updated_appscript.js:375-383 | the seven portfolios of `portfolioRanges` are shown as Zohair, Matthias, Iaad, Babak, Bahman, Victor and Karl |
| UpdatedVesting.RowReadingOf | updated_appscript.js:178-213 | a row gives a reading exactly when it has a date today or later; the reading is filed under that date's month with eleven amounts |
| UpdatedVesting.Cumulative | updated_appscript.js:215-240 | definition of `cumulativeData` after the readings; stated by CumulativeKeys and CumulativeMax |
| UpdatedVesting.FirstSeen | updated_appscript.js:213-218 | definition of `allDates` after the readings; stated by CumulativeKeys |
| UpdatedVesting.FirstPass | updated_appscript.js:178-240 | the loop computes `cumulativeData` and `allDates` of the readings of rows 1 on |
| UpdatedVesting.CumulativeKeys | updated_appscript.js:215-240 | the months of `cumulativeData` are exactly the months of the readings and those `allDates` lists, each once, and each holds eleven amounts |
| UpdatedVesting.CumulativeMax | updated_appscript.js:234-237 | with amounts that are never negative, each month stores each project's largest amount among the month's readings |
| UpdatedVesting.SecondPass | updated_appscript.js:249-273 | the month loop computes the deltas against `previousValues` |
| UpdatedVesting.PrevAfterLast | updated_appscript.js:268-271 | `previousValues[project]` is the last positive cumulative amount of the project so far, 0 when there is none |
| UpdatedVesting.LastPositiveOf | updated_appscript.js:268-271 | a positive baseline is the amount of one of the months walked |
| UpdatedVesting.MonthlyAt | updated_appscript.js:257-273 | with distinct months, each month's amount is its cumulative amount less the last positive cumulative amount of an earlier month, at least 0: a zero month does not reset the baseline |
| UpdatedVesting.DeltasOfMonth | updated_appscript.js:257-265 | the delta of month k for each project is its cumulative amount less the last positive cumulative amount of an earlier month, at least 0 |
| UpdatedVesting.MonthlyKeys | updated_appscript.js:257-258 | the months with amounts are the months walked |
| UpdatedVesting.MonthlyNonNegative | updated_appscript.js:264-265 | no monthly amount is negative |
| UpdatedVesting.VestedTelescopes | updated_appscript.js:257-273 | a project's monthly amounts add up to at least its last positive cumulative amount, and to exactly that when its cumulative amounts never fall |
| UpdatedVesting.UpdatedVestingData | updated_appscript.js:178-288 | the month keys come out sorted and a permutation of the months seen, and the chart is drawn from the deltas |
| UpdatedVesting.UpdatedChart | updated_appscript.js:246-288 | at most 42 months in key order, each with a positive total and no amount below 0, the month of a row dated today or later, and each amount the delta against the last positive baseline |

## Left out

- JSX rendering, hover state, SWR polling, CSS, the SVG donut geometry and all `console.log` calls: presentation and logging.
- The network proxies (app/api/portfolio/route.ts, app/api/refresh/route.ts) and refresh_handler_for_appscript.js: fetch calls to a fixed URL and a stub whose body is elided.
- `SpreadsheetApp`, `ContentService` and `refreshAllData`. Sheet ranges are sequences of rows passed in. The refresh's outcome and the existence of the two sheets are parameters of `FundSheet.DoGet`. "Today" is a parameter of every vesting computation.
- IEEE doubles. Numbers are exact decimals, so rounding error, `Infinity`, `-0` beyond `toFixed`'s sign, and hexadecimal or `Infinity` literals in `Number`/`parseFloat` are not modelled.
- Analytics.TokensReceivedZero: an amount in [-0.5, 0) rounds to `-0` in the script, which prints "$-0" rather than "$0"; the model has no negative zero and states "$0".
- `toLocaleString` is modelled as en-US: "," every three digits, "." as the decimal point, half-expand rounding. `localeCompare` is modelled as code-point order. Dafny's `char` is a code point, so strings are compared by code point, whereas `sort` compares UTF-16 code units; the two orders differ only for characters above U+FFFF, and the month keys `sort` orders are ASCII. `toLowerCase` and `toUpperCase` are modelled for ASCII letters only.
- Cells are modelled as text (`v ? v.toString() : ''`). A number typed into a cell is read as its text, and a cell holding the number 0 reads as ''. The typed/text split is modelled only where the code tests the type: `formatSheetCurrency`, `calculateROI`, and the vesting date column.
- `Array.prototype.sort` for an inconsistent comparator: its order is unspecified. The model sorts with the corrected comparator, and `Table.ComparatorInconsistent` shows the written one is inconsistent. The stability of `sort` is modelled for the top-N pipelines only: ties keep row order.
- The sorts of `allMonthsData` by date and of `futureMonthsData` by month key (complete_appscript.js:460, 466). `FundVesting.FundVestingData` and `FundVesting.FundChart` take the records as those sorts leave them.
- Invalid dates (NaN parts). A text with three parts that are not all numbers gives no date in the model; in the script it gives an invalid `Date` whose month key is "NaN-NaN". Dates beyond JavaScript's `Date` range are not bounded.
- The blockchain category outer loop (complete_appscript.js:186-216 and 319-350): the percentage, ROI lookup and object building per category. Only the investment list of one category (`Categories.CategoryInvestments`) is modelled. The updated script's blockchain categories (updated_appscript.js:60-170) are not part of this model.
- The updated script's `doGet` token check and sheet lookups (updated_appscript.js:1-30): it has the same shape as the complete script's, which is modelled.
- `listedProjects`, the overview read from fixed cells, and `parseInt` of the counts (complete_appscript.js:622-676): cell-to-field copies with no logic.
- `currentDateRowIndex` and `startRow` in the scans: they are only logged.
- The `try`/`catch` blocks that set `vestingData = []`: nothing in the model throws.
- The `getRange` of each portfolio range in the updated script (updated_appscript.js:373-457): `UpdatedSheet.PortfolioInvestments` and `UpdatedSheet.PortfolioSummary` take the rows read.
- UpdatedVesting.CumulativeMax: stated for amounts that are never negative. A stored 0 is falsy, so the script replaces it with a smaller negative amount, and the stored value is then not the maximum.
- The per-project `forEach` loops that fill one month's object are modelled as sequence comprehensions over the eleven projects (`Sheet.ProjectValues`, `UpdatedVesting.Merge`, `FundVesting.Deltas`), not as loops.
- Methods that take a row reader or a name test as a parameter (`FundVesting.CollectMonths`, `UpdatedVesting.FirstPass`, `UpdatedSheet.PortfolioInvestments`, `FundSheet.ScanLastRow`): the script's own reader is a named function beside each (`FundVesting.ReadRows`, `UpdatedVesting.ReadToday`, `UpdatedSheet.HasName`, `FundSheet.IsInvestmentName`).
- `formatOutstandingDistribution` and the other formatters of app/page.tsx that feed only rendering are not part of this model.

## Findings

| source | as written | input that shows it | evidently intended | confidence | as-written member | corrected member |
|---|---|---|---|---|---|---|
| app/page.tsx:175-185 | `parseInt(String(Math.floor(v)).slice(0, -3))` cuts three characters from a text that may start with '-' | "-500": `"-500".slice(0, -3)` is "-", whose `parseInt` is NaN, so the cell shows "$NaN" | drop the last three digits of the magnitude and keep the sign | high (not executed) | Dashboard.CurrencyCleanNaNExample | Dashboard.CurrencyCleanFixedShown |
| app/page.tsx:3527-3534 | `parseNumberLike` returns NaN for "(word)", and the comparator returns `bv - av` = NaN, which `sort` reads as a tie | cells "2", "(TBD)" and "1" in a numeric column: "2" ties "(TBD)", "(TBD)" ties "1", but "2" and "1" do not tie | treat text that is not a number as -Infinity, like every other non-number | high (not executed) | Table.ComparatorInconsistent | Table.CompareTransitive |
