/**
 * The vesting chart of the complete Apps Script: the vesting rows are read into month
 * records (past and future), each future month's amount of a project is its cumulative
 * value less that of the record just before the month's first record, never below 0, and
 * the sorted months feed the chart. Then the same for each portfolio manager's block of the
 * individual vesting sheet, where the deltas are taken row by row.
 */
module FundVesting {
  import opened JsText
  import opened JsNumbers
  import opened Sheet
  import opened VestingChart
  import Dates

  // ---- Month records

  /** A row of the vesting sheet: its date cell (column A) and all its cells as text. */
  datatype VestingRow = VestingRow(date: Dates.DateCell, cells: SheetRow)

  /** An entry of `allMonthsData`: the month key, the row's date, its cumulative amounts and `isFuture`. */
  datatype MonthRecord = MonthRecord(month: string, date: Dates.Date, amounts: seq<real>, isFuture: bool)

  /** The record of a row filed under date d. */
  function RecordOf(row: VestingRow, d: Dates.CalendarDate, today: Dates.Date): MonthRecord
  {
    MonthRecord(Dates.MonthKey(d), d, ProjectValues(row.cells), Dates.OnOrAfter(d, today))
  }

  /** What one row adds to `allMonthsData`: a record when its date cell gives a date, else nothing. */
  function RowRecords(row: VestingRow, today: Dates.Date): seq<MonthRecord>
  {
    match Dates.ReadDate(row.date)
    case None => []
    case Some(d) => [RecordOf(row, d, today)]
  }

  /** `RowRecords` for the day the script runs. */
  function ReadRows(today: Dates.Date): VestingRow -> seq<MonthRecord>
  {
    row => RowRecords(row, today)
  }

  /** What `read` gives for the rows 1 to n - 1 (row 0 is the header), in order. */
  function Collected(values: seq<VestingRow>, n: nat, read: VestingRow -> seq<MonthRecord>): seq<MonthRecord>
    requires n <= |values|
  {
    if n <= 1 then [] else Collected(values, n - 1, read) + read(values[n - 1])
  }

  /**
   * The `for (let i = 1; i < vestingValues.length; i++)` loop that fills `allMonthsData`,
   * pushing what `read` gives for each row; the script reads rows with `ReadRows(today)`.
   */
  method CollectMonths(values: seq<VestingRow>, read: VestingRow -> seq<MonthRecord>) returns (allMonths: seq<MonthRecord>)
    ensures allMonths == Collected(values, |values|, read)
  {
    allMonths := [];
    var i := 1;
    while i < |values|
      invariant 1 <= i
      invariant |values| == 0 ==> allMonths == []
      invariant |values| > 0 ==> i <= |values| && allMonths == Collected(values, i, read)
    {
      allMonths := allMonths + read(values[i]);
      i := i + 1;
    }
  }

  /** A row gives a record exactly when its date cell gives a date, which the record is filed under. */
  lemma RowRecordsOf(row: VestingRow, today: Dates.Date, r: MonthRecord)
    ensures r in ReadRows(today)(row) <==>
      Dates.ReadDate(row.date).Some? && r == RecordOf(row, Dates.ReadDate(row.date).value, today)
  {
  }

  /** A record is collected exactly when some row after the header gives it. */
  lemma {:induction false} CollectedRows(values: seq<VestingRow>, n: nat, read: VestingRow -> seq<MonthRecord>, r: MonthRecord)
    requires n <= |values|
    ensures r in Collected(values, n, read) <==> exists i :: 1 <= i < n && r in read(values[i])
  {
    if n > 1 {
      CollectedRows(values, n - 1, read, r);
      var init := Collected(values, n - 1, read);
      var last := read(values[n - 1]);
      assert Collected(values, n, read) == init + last;
      if r in last {
        assert 1 <= n - 1 < n && r in read(values[n - 1]);
      }
    }
  }

  /** `allMonthsData.filter(m => m.isFuture)` */
  function FutureMonths(all: seq<MonthRecord>): (r: seq<MonthRecord>)
    ensures forall m :: m in r <==> m in all && m.isFuture
  {
    if all == [] then []
    else FutureMonths(all[..|all| - 1]) + (if all[|all| - 1].isFuture then [all[|all| - 1]] else [])
  }

  // ---- The fund's monthly deltas

  /**
   * `allMonthsData.findIndex(m => m.month === monthKey)`: the index of the first record of
   * the month, or -1 when there is none.
   */
  function FindMonth(all: seq<MonthRecord>, month: string): (i: int)
    ensures -1 <= i < |all|
    ensures i >= 0 ==> all[i].month == month && forall j :: 0 <= j < i ==> all[j].month != month
    ensures i == -1 ==> forall j :: 0 <= j < |all| ==> all[j].month != month
  {
    if all == [] then -1
    else if all[0].month == month then 0
    else
      var i := FindMonth(all[1..], month);
      if i == -1 then -1 else i + 1
  }

  /**
   * `previousMonthData`: the record just before the month's first record, none when that is
   * the first record or the month has no record.
   */
  function Previous(all: seq<MonthRecord>, month: string): (prev: Option<MonthRecord>)
    ensures prev.None? <==> (forall j :: 0 <= j < |all| ==> all[j].month != month) || (all != [] && all[0].month == month)
    ensures prev.Some? ==> 0 < FindMonth(all, month) && prev.value == all[FindMonth(all, month) - 1]
  {
    var i := FindMonth(all, month);
    if i > 0 then Some(all[i - 1]) else None
  }

  /** The amounts of no record: every project reads 0 (`previousValue = 0`). */
  function AmountsOf(prev: Option<MonthRecord>): seq<real>
  {
    if prev.Some? then prev.value.amounts else []
  }

  /** The monthly amounts: each project's cumulative value less the previous one, at least 0. */
  function Deltas(current: seq<real>, previous: seq<real>): (r: seq<real>)
    ensures |r| == ProjectCount
    ensures forall p :: 0 <= p < ProjectCount ==>
      r[p] >= 0.0 && r[p] >= AmountAt(current, p) - AmountAt(previous, p)
      && (r[p] == 0.0 || r[p] == AmountAt(current, p) - AmountAt(previous, p))
  {
    seq(ProjectCount, p requires 0 <= p < ProjectCount => Max0(AmountAt(current, p) - AmountAt(previous, p)))
  }

  /** `monthlyVesting[monthKey]` as the record m of the month sets it. */
  function MonthDeltas(all: seq<MonthRecord>, m: MonthRecord): seq<real>
  {
    Deltas(m.amounts, AmountsOf(Previous(all, m.month)))
  }

  /** `MonthDeltas` against the records of `allMonthsData`. */
  function DeltasIn(all: seq<MonthRecord>): MonthRecord -> seq<real>
  {
    m => MonthDeltas(all, m)
  }

  /** The object the records fill in order, each under its month: a later record of a month overwrites an earlier one. */
  function Filed(future: seq<MonthRecord>, value: MonthRecord -> seq<real>): map<string, seq<real>>
  {
    if future == [] then map[]
    else
      var m := future[|future| - 1];
      Filed(future[..|future| - 1], value)[m.month := value(m)]
  }

  /** `monthlyVesting` after the `futureMonthsData.forEach`. */
  function MonthlyVesting(all: seq<MonthRecord>, future: seq<MonthRecord>): map<string, seq<real>>
  {
    Filed(future, DeltasIn(all))
  }

  /** The month keys `allDates.push` collects, one per future record. */
  function MonthsOf(future: seq<MonthRecord>): (ks: seq<string>)
    ensures |ks| == |future|
    ensures forall i :: 0 <= i < |future| ==> ks[i] == future[i].month
  {
    seq(|future|, i requires 0 <= i < |future| => future[i].month)
  }

  /**
   * The months filed are exactly those of the records, and each holds the value of the last
   * record of that month.
   */
  lemma {:induction false} FiledMonths(future: seq<MonthRecord>, value: MonthRecord -> seq<real>, k: string)
    ensures k in Filed(future, value) <==> exists i :: 0 <= i < |future| && future[i].month == k
    ensures k in Filed(future, value) ==>
      exists i :: 0 <= i < |future| && future[i].month == k && Filed(future, value)[k] == value(future[i])
        && forall j :: i < j < |future| ==> future[j].month != k
  {
    if future != [] {
      var init := future[..|future| - 1];
      FiledMonths(init, value, k);
      if k in Filed(init, value) && future[|future| - 1].month != k {
        var i :| 0 <= i < |init| && init[i].month == k && Filed(init, value)[k] == value(init[i])
          && forall j :: i < j < |init| ==> init[j].month != k;
        assert future[i] == init[i];
      }
      if exists i :: 0 <= i < |future| && future[i].month == k {
        var i :| 0 <= i < |future| && future[i].month == k;
        if i < |init| {
          assert init[i].month == k;
        }
      }
    }
  }

  /** Values with no amount below 0 file no amount below 0. */
  lemma {:induction false} FiledNonNegative(future: seq<MonthRecord>, value: MonthRecord -> seq<real>)
    requires forall m, p :: 0 <= p < |value(m)| ==> value(m)[p] >= 0.0
    ensures forall k, p :: k in Filed(future, value) && 0 <= p < |Filed(future, value)[k]| ==>
      Filed(future, value)[k][p] >= 0.0
  {
    if future != [] {
      FiledNonNegative(future[..|future| - 1], value);
    }
  }

  /** No monthly amount of the fund is negative. */
  lemma MonthlyVestingNonNegative(all: seq<MonthRecord>, future: seq<MonthRecord>)
    ensures forall k, p :: k in MonthlyVesting(all, future) && 0 <= p < |MonthlyVesting(all, future)[k]| ==>
      MonthlyVesting(all, future)[k][p] >= 0.0
  {
    forall m, p | 0 <= p < |DeltasIn(all)(m)| ensures DeltasIn(all)(m)[p] >= 0.0 {
      assert DeltasIn(all)(m) == MonthDeltas(all, m);
    }
    FiledNonNegative(future, DeltasIn(all));
  }

  /** The `futureMonthsData.forEach` loop, which fills `monthlyVesting` and `allDates`. */
  method MonthlyAmounts(all: seq<MonthRecord>, future: seq<MonthRecord>)
    returns (monthlyVesting: map<string, seq<real>>, allDates: seq<string>)
    ensures monthlyVesting == MonthlyVesting(all, future)
    ensures allDates == MonthsOf(future)
  {
    monthlyVesting := map[];
    allDates := [];
    var index := 0;
    while index < |future|
      invariant 0 <= index <= |future|
      invariant monthlyVesting == MonthlyVesting(all, future[..index])
      invariant allDates == MonthsOf(future[..index])
    {
      var monthData := future[index];
      var monthKey := monthData.month;
      var currentIndex := FindMonth(all, monthKey);
      var previous := if currentIndex > 0 then Some(all[currentIndex - 1]) else None;
      monthlyVesting := monthlyVesting[monthKey := Deltas(monthData.amounts, AmountsOf(previous))];
      allDates := allDates + [monthKey];
      assert future[..index + 1][..index] == future[..index];
      index := index + 1;
    }
    assert future[..index] == future;
  }

  /**
   * `vestingData` from the records as the two sorts leave them (`allMonthsData` by date,
   * `futureMonthsData` by month key): the month keys are sorted, then charted.
   */
  method FundVestingData(all: seq<MonthRecord>, future: seq<MonthRecord>)
    returns (allDates: seq<string>, vestingData: seq<VestingMonth>)
    ensures SortedKeys(allDates) && multiset(allDates) == multiset(MonthsOf(future))
    ensures vestingData == Chart(allDates, MonthlyVesting(all, future))
  {
    var monthlyVesting;
    monthlyVesting, allDates := MonthlyAmounts(all, future);
    allDates := SortedDates(allDates);
    vestingData := Chart(allDates, monthlyVesting);
  }

  /**
   * What the chart shows, for future records that come from `allMonthsData`: at most 42
   * months in key order, each the month of a record dated today or later, with a total
   * above 0, no amount below 0, and the deltas of the last future record of that month.
   */
  lemma FundChart(all: seq<MonthRecord>, future: seq<MonthRecord>, allDates: seq<string>)
    requires forall r :: r in future ==> r in all && r.isFuture
    requires SortedKeys(allDates) && multiset(allDates) == multiset(MonthsOf(future))
    ensures var chart := Chart(allDates, MonthlyVesting(all, future));
      |chart| <= ChartMonths && MonthsInOrder(chart)
      && forall m :: m in chart ==>
        Total(m.amounts) > 0.0 && (forall p :: 0 <= p < |m.amounts| ==> m.amounts[p] >= 0.0)
        && exists i :: 0 <= i < |future| && future[i].month == m.month && future[i] in all && future[i].isFuture
             && m.amounts == MonthDeltas(all, future[i])
  {
    var monthly := MonthlyVesting(all, future);
    var chart := Chart(allDates, monthly);
    ChartSelects(allDates, monthly);
    MonthlyVestingNonNegative(all, future);
    ChartNonNegative(allDates, monthly);
    forall m | m in chart
      ensures exists i :: (0 <= i < |future| && future[i].month == m.month && future[i] in all && future[i].isFuture
        && m.amounts == MonthDeltas(all, future[i]))
    {
      var d :| 0 <= d < |allDates| && d < ChartMonths && m == VestingMonth(allDates[d], Lookup(monthly, allDates[d]))
        && Total(m.amounts) > 0.0;
      assert allDates[d] in multiset(MonthsOf(future));
      var i :| 0 <= i < |future| && MonthsOf(future)[i] == allDates[d];
      FiledMonths(future, DeltasIn(all), allDates[d]);
      assert allDates[d] in monthly;
      var j :| 0 <= j < |future| && future[j].month == allDates[d] && monthly[allDates[d]] == MonthDeltas(all, future[j])
        && forall q :: j < q < |future| ==> future[q].month != allDates[d];
      assert future[j] in future;
    }
  }

  // ---- The portfolio managers' vesting blocks

  /** The names a manager row of `individualVestingData`'s sheet holds in column A. */
  const ManagerNames: seq<string> := ["Zohair", "Matthias", "Iaad", "Babak", "Mikado"]

  /** The keys of `individualVestingData`. */
  const ManagerKeys: set<string> := {"zohair", "matthias", "iaad", "babak"}

  /** `cellA.toLowerCase()`, with Mikado's vesting filed under Iaad. */
  function ManagerKey(cellA: string): string
  {
    var key := Lower(cellA);
    if key == "mikado" then "iaad" else key
  }

  /** The key each manager name is filed under. */
  lemma ManagerKeyValues()
    ensures ManagerKey("Zohair") == "zohair" && ManagerKey("Matthias") == "matthias" && ManagerKey("Iaad") == "iaad"
      && ManagerKey("Babak") == "babak" && ManagerKey("Mikado") == "iaad"
  {
    assert Lower("Zohair") == "zohair";
    assert Lower("Matthias") == "matthias";
    assert Lower("Iaad") == "iaad";
    assert Lower("Babak") == "babak";
    assert Lower("Mikado") == "mikado";
  }

  /** Each manager name is filed under one of the four keys, Mikado's under Iaad's. */
  lemma ManagerKeyOf(cellA: string)
    requires cellA in ManagerNames
    ensures ManagerKey(cellA) in ManagerKeys
    ensures ManagerKey(cellA) == "iaad" <==> cellA == "Iaad" || cellA == "Mikado"
  {
    ManagerKeyValues();
  }

  /** A row that starts a manager's block: column A holds one of the manager names. */
  predicate IsManagerRow(cellA: string)
  {
    cellA != [] && '/' !in cellA && !Contains(cellA, "Date") && !Contains(cellA, "Share") && cellA in ManagerNames
  }

  /**
   * A row of the individual vesting sheet as the scan tells rows apart by column A (trimmed):
   * a manager's name, a date row (its `m/d/yy` date when the text reads as one, and all its
   * cells), or any other row.
   */
  datatype ManagerLine = NameLine(name: string) | DateLine(date: Option<Dates.CalendarDate>, cells: SheetRow) | OtherLine

  function ReadManagerLine(row: SheetRow): (line: ManagerLine)
    ensures line.NameLine? ==> line.name in ManagerNames
  {
    var cellA := TrimmedAt(row, 0);
    if IsManagerRow(cellA) then NameLine(cellA)
    else if cellA != [] && '/' in cellA then DateLine(Dates.ParseSlashDate(cellA), row)
    else OtherLine
  }

  /** The scan's state: `currentPortfolioManager` and `individualVestingData`. */
  datatype ManagerScan = ManagerScan(current: Option<string>, data: map<string, seq<VestingMonth>>)

  function MonthsOfManager(data: map<string, seq<VestingMonth>>, key: string): seq<VestingMonth>
  {
    if key in data then data[key] else []
  }

  /**
   * One row of the scan: a manager row resets that manager's list and makes it current; a
   * date row, once some manager is current, appends its month and cumulative amounts to that
   * manager's list when it is dated today or later; any other row changes nothing.
   */
  function ScanStep(s: ManagerScan, line: ManagerLine, today: Dates.Date): ManagerScan
  {
    match line
    case NameLine(name) =>
      var key := ManagerKey(name);
      ManagerScan(Some(key), s.data[key := []])
    case DateLine(date, cells) =>
      if s.current.Some? && date.Some? && Dates.OnOrAfter(date.value, today) then
        var key := s.current.value;
        var month := VestingMonth(Dates.MonthKey(date.value), ProjectValues(cells));
        ManagerScan(s.current, s.data[key := MonthsOfManager(s.data, key) + [month]])
      else s
    case OtherLine => s
  }

  /** The state after the first n rows. */
  function ScanRows(lines: seq<ManagerLine>, n: nat, today: Dates.Date): ManagerScan
    requires n <= |lines|
  {
    if n == 0 then ManagerScan(None, map[]) else ScanStep(ScanRows(lines, n - 1, today), lines[n - 1], today)
  }

  /** The `for` loop over `individualVestingValues`, row by row. */
  method ScanManagers(lines: seq<ManagerLine>, today: Dates.Date) returns (data: map<string, seq<VestingMonth>>)
    ensures data == ScanRows(lines, |lines|, today).data
  {
    var current: Option<string> := None;
    data := map[];
    var i := 0;
    while i < |lines|
      invariant 0 <= i <= |lines|
      invariant ManagerScan(current, data) == ScanRows(lines, i, today)
    {
      match lines[i] {
        case NameLine(name) =>
          var key := ManagerKey(name);
          current := Some(key);
          data := data[key := []];
        case DateLine(rowDate, cells) =>
          if current.Some? && rowDate.Some? && Dates.OnOrAfter(rowDate.value, today) {
            var month := VestingMonth(Dates.MonthKey(rowDate.value), ProjectValues(cells));
            data := data[current.value := MonthsOfManager(data, current.value) + [month]];
          }
        case OtherLine =>
      }
      i := i + 1;
    }
  }

  /** Only the four manager keys are filed, and the current manager always has a list. */
  lemma {:induction false} ScanRowsKeys(lines: seq<ManagerLine>, n: nat, today: Dates.Date)
    requires n <= |lines|
    requires forall i :: 0 <= i < |lines| && lines[i].NameLine? ==> lines[i].name in ManagerNames
    ensures var s := ScanRows(lines, n, today);
      (forall k :: k in s.data ==> k in ManagerKeys) && (s.current.Some? ==> s.current.value in s.data)
  {
    if n > 0 {
      ScanRowsKeys(lines, n - 1, today);
      if lines[n - 1].NameLine? {
        ManagerKeyOf(lines[n - 1].name);
      }
    }
  }

  /** A month filed by the scan: the month key of a date today or later, with eleven amounts. */
  ghost predicate FiledMonth(m: VestingMonth, today: Dates.Date)
  {
    |m.amounts| == ProjectCount && exists d: Dates.CalendarDate :: Dates.OnOrAfter(d, today) && m.month == Dates.MonthKey(d)
  }

  ghost predicate AllFiled(data: map<string, seq<VestingMonth>>, today: Dates.Date)
  {
    forall k, j :: k in data && 0 <= j < |data[k]| ==> FiledMonth(data[k][j], today)
  }

  /** A manager row files no month. */
  lemma NameLineFiled(s: ManagerScan, name: string, today: Dates.Date)
    requires AllFiled(s.data, today)
    ensures AllFiled(s.data[ManagerKey(name) := []], today)
  {
    var t := s.data[ManagerKey(name) := []];
    forall k, j | k in t && 0 <= j < |t[k]| ensures FiledMonth(t[k][j], today) {
      assert t[k] == s.data[k];
    }
  }

  /** A date row files the month of its date, which is today or later. */
  lemma DateLineFiled(data: map<string, seq<VestingMonth>>, key: string, d: Dates.CalendarDate, cells: SheetRow, today: Dates.Date)
    requires AllFiled(data, today) && Dates.OnOrAfter(d, today)
    ensures AllFiled(data[key := MonthsOfManager(data, key) + [VestingMonth(Dates.MonthKey(d), ProjectValues(cells))]], today)
  {
    var month := VestingMonth(Dates.MonthKey(d), ProjectValues(cells));
    assert FiledMonth(month, today);
    var before := MonthsOfManager(data, key);
    var t := data[key := before + [month]];
    forall k, j | k in t && 0 <= j < |t[k]| ensures FiledMonth(t[k][j], today) {
      if k != key {
        assert t[k] == data[k];
      } else if j < |before| {
        assert t[k][j] == data[k][j];
      } else {
        assert t[key] == before + [month] && j == |before|;
      }
    }
  }

  /** One row of the scan files only months of dates today or later. */
  lemma StepFiled(s: ManagerScan, line: ManagerLine, today: Dates.Date)
    requires AllFiled(s.data, today)
    ensures AllFiled(ScanStep(s, line, today).data, today)
  {
    match line
    case NameLine(name) => NameLineFiled(s, name, today);
    case DateLine(date, cells) =>
      if s.current.Some? && date.Some? && Dates.OnOrAfter(date.value, today) {
        DateLineFiled(s.data, s.current.value, date.value, cells, today);
      }
    case OtherLine =>
  }

  /** Every month filed for a manager comes from a date row dated today or later. */
  lemma {:induction false} ScanRowsMonths(lines: seq<ManagerLine>, n: nat, today: Dates.Date)
    requires n <= |lines|
    ensures AllFiled(ScanRows(lines, n, today).data, today)
  {
    if n > 0 {
      ScanRowsMonths(lines, n - 1, today);
      StepFiled(ScanRows(lines, n - 1, today), lines[n - 1], today);
    }
  }

  /** The amounts of entry i of a manager's list less those of the entry before it (0 for the first). */
  function RowDelta(data: seq<VestingMonth>, i: nat): VestingMonth
    requires i < |data|
  {
    VestingMonth(data[i].month, Deltas(data[i].amounts, if i > 0 then data[i - 1].amounts else []))
  }

  /** `data.map((monthData, index) => deltaData).filter(total > 0)` for one manager. */
  function ManagerDeltas(data: seq<VestingMonth>): seq<VestingMonth>
  {
    WithVesting(seq(|data|, i requires 0 <= i < |data| => RowDelta(data, i)))
  }

  /**
   * A manager's months are the row-by-row deltas that add up to more than 0, with no amount
   * below 0; the first entry's delta is its cumulative amounts themselves (clamped at 0).
   */
  lemma ManagerDeltasRows(data: seq<VestingMonth>, m: VestingMonth)
    ensures |ManagerDeltas(data)| <= |data|
    ensures m in ManagerDeltas(data) <==> (exists i :: 0 <= i < |data| && m == RowDelta(data, i)) && Total(m.amounts) > 0.0
    ensures m in ManagerDeltas(data) ==> forall p :: 0 <= p < |m.amounts| ==> m.amounts[p] >= 0.0
    ensures data != [] ==> forall p :: 0 <= p < ProjectCount ==>
      RowDelta(data, 0).amounts[p] == Max0(AmountAt(data[0].amounts, p))
  {
    var ds := seq(|data|, i requires 0 <= i < |data| => RowDelta(data, i));
    WithVestingKeeps(ds, m);
    if m in ds {
      var i :| 0 <= i < |ds| && ds[i] == m;
      assert m == RowDelta(data, i);
    }
    if (exists i :: 0 <= i < |data| && m == RowDelta(data, i)) {
      var i :| 0 <= i < |data| && m == RowDelta(data, i);
      assert ds[i] == m;
    }
  }

  /** `Object.keys(individualVestingData).forEach(manager => ...)`: every manager's list turned into deltas. */
  function AllManagerDeltas(data: map<string, seq<VestingMonth>>): (r: map<string, seq<VestingMonth>>)
    ensures r.Keys == data.Keys
    ensures forall k :: k in r ==> r[k] == ManagerDeltas(data[k])
  {
    map k | k in data :: ManagerDeltas(data[k])
  }

  /**
   * `individualVestingData` as sent: the managers are exactly those the scan filed, only the four
   * manager keys; each month sent is the month key of a date row dated today or later, is the delta
   * of one of the manager's rows against the row before it, adds up to more than 0 and has no
   * amount below 0.
   */
  lemma IndividualVesting(lines: seq<ManagerLine>, today: Dates.Date, k: string, m: VestingMonth)
    requires forall i :: 0 <= i < |lines| && lines[i].NameLine? ==> lines[i].name in ManagerNames
    ensures var data := ScanRows(lines, |lines|, today).data;
      var sent := AllManagerDeltas(data);
      (k in sent <==> k in data) && (k in sent ==> k in ManagerKeys)
      && (k in sent && m in sent[k] ==>
            FiledMonth(m, today) && Total(m.amounts) > 0.0
            && (forall p :: 0 <= p < |m.amounts| ==> m.amounts[p] >= 0.0)
            && exists i :: 0 <= i < |data[k]| && m == RowDelta(data[k], i))
  {
    var data := ScanRows(lines, |lines|, today).data;
    ScanRowsKeys(lines, |lines|, today);
    ScanRowsMonths(lines, |lines|, today);
    if k in data {
      ManagerDeltasRows(data[k], m);
      if m in AllManagerDeltas(data)[k] {
        var i :| 0 <= i < |data[k]| && m == RowDelta(data[k], i);
        assert FiledMonth(data[k][i], today);
      }
    }
  }
}
