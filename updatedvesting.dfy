/**
 * The vesting chart of the updated Apps Script. A first pass keeps, for each month of a row
 * dated today or later, the largest cumulative amount of each project; a second pass walks
 * the sorted months and takes each month's amount as its cumulative value less the last
 * positive cumulative value before it, never below 0; the first 42 months with any vesting
 * make the chart.
 */
module UpdatedVesting {
  import opened JsNumbers
  import opened Sheet
  import opened VestingChart
  import Categories
  import FundVesting
  import Dates

  // ---- First pass: the cumulative amounts by month

  /** What a row dated today or later contributes: its month key and its amounts, one per project. */
  datatype Reading = Reading(month: string, values: seq<real>)

  /** The reading of a row: none without a date (`continue`) or for a date before today. */
  function RowReading(row: FundVesting.VestingRow, today: Dates.Date): Option<Reading>
  {
    var d := Dates.ReadDate(row.date);
    if d.Some? && Dates.OnOrAfter(d.value, today) then Some(Reading(Dates.MonthKey(d.value), ProjectValues(row.cells)))
    else None
  }

  /** `RowReading` for the day the script runs. */
  function ReadToday(today: Dates.Date): FundVesting.VestingRow -> Option<Reading>
  {
    row => RowReading(row, today)
  }

  /** A row gives a reading exactly when it has a date on or after today, and the reading is filed under that date's month. */
  lemma RowReadingOf(row: FundVesting.VestingRow, today: Dates.Date)
    ensures ReadToday(today)(row).Some? <==>
      Dates.ReadDate(row.date).Some? && Dates.OnOrAfter(Dates.ReadDate(row.date).value, today)
    ensures ReadToday(today)(row).Some? ==>
      ReadToday(today)(row).value.month == Dates.MonthKey(Dates.ReadDate(row.date).value)
      && |ReadToday(today)(row).value.values| == ProjectCount
  {
  }

  /** The readings `read` gives for the rows 1 to n - 1 (row 0 is the header), in order. */
  function Readings(values: seq<FundVesting.VestingRow>, n: nat, read: FundVesting.VestingRow -> Option<Reading>): seq<Reading>
    requires n <= |values|
  {
    if n <= 1 then []
    else Readings(values, n - 1, read) + (if read(values[n - 1]).Some? then [read(values[n - 1]).value] else [])
  }

  /**
   * `if (!stored || numValue > stored) stored = numValue`: an amount not yet stored and a
   * stored 0 are both falsy, so both are replaced; otherwise the larger amount is kept.
   */
  function Update(stored: real, v: real): real
  {
    if stored == 0.0 || v > stored then v else stored
  }

  /** The `Object.keys(topPerformers).forEach` that updates a month's amounts with a row's. */
  function Merge(stored: seq<real>, values: seq<real>): (r: seq<real>)
    ensures |r| == ProjectCount
    ensures forall p :: 0 <= p < ProjectCount ==> r[p] == Update(AmountAt(stored, p), AmountAt(values, p))
  {
    seq(ProjectCount, p requires 0 <= p < ProjectCount => Update(AmountAt(stored, p), AmountAt(values, p)))
  }

  /** `cumulativeData` after the readings rs; a month's object starts empty (`{}`). */
  function Cumulative(rs: seq<Reading>): map<string, seq<real>>
  {
    if rs == [] then map[]
    else
      var c := Cumulative(rs[..|rs| - 1]);
      var r := rs[|rs| - 1];
      c[r.month := Merge(Lookup(c, r.month), r.values)]
  }

  /** `allDates` after the readings rs: a month is pushed when it has no object yet. */
  function FirstSeen(rs: seq<Reading>): seq<string>
  {
    if rs == [] then []
    else
      var init := rs[..|rs| - 1];
      var r := rs[|rs| - 1];
      FirstSeen(init) + (if r.month in Cumulative(init) then [] else [r.month])
  }

  /** One more reading, in terms of the readings before it. */
  lemma Snoc(rs: seq<Reading>, r: Reading)
    ensures Cumulative(rs + [r]) == Cumulative(rs)[r.month := Merge(Lookup(Cumulative(rs), r.month), r.values)]
    ensures FirstSeen(rs + [r]) == FirstSeen(rs) + (if r.month in Cumulative(rs) then [] else [r.month])
  {
    assert (rs + [r])[..|rs|] == rs;
  }

  /** The first pass, `for (let i = 1; i < vestingValues.length; i++)`, over the readings `read` gives. */
  method FirstPass(values: seq<FundVesting.VestingRow>, read: FundVesting.VestingRow -> Option<Reading>)
    returns (cumulativeData: map<string, seq<real>>, allDates: seq<string>)
    ensures cumulativeData == Cumulative(Readings(values, |values|, read))
    ensures allDates == FirstSeen(Readings(values, |values|, read))
  {
    cumulativeData := map[];
    allDates := [];
    ghost var rs: seq<Reading> := [];
    var i := 1;
    while i < |values|
      invariant 1 <= i
      invariant |values| == 0 ==> rs == []
      invariant |values| > 0 ==> i <= |values| && rs == Readings(values, i, read)
      invariant cumulativeData == Cumulative(rs) && allDates == FirstSeen(rs)
    {
      var reading := read(values[i]);
      ReadingsStep(values, i, read);
      if reading.Some? {
        var r := reading.value;
        Snoc(rs, r);
        ghost var stored := Lookup(cumulativeData, r.month);
        if r.month !in cumulativeData {
          cumulativeData := cumulativeData[r.month := []];
          allDates := allDates + [r.month];
        }
        assert cumulativeData[r.month] == stored;
        cumulativeData := cumulativeData[r.month := Merge(cumulativeData[r.month], r.values)];
        rs := rs + [r];
      }
      i := i + 1;
    }
  }

  /** The readings of one more row. */
  lemma ReadingsStep(values: seq<FundVesting.VestingRow>, i: nat, read: FundVesting.VestingRow -> Option<Reading>)
    requires 1 <= i < |values|
    ensures read(values[i]).Some? ==> Readings(values, i + 1, read) == Readings(values, i, read) + [read(values[i]).value]
    ensures read(values[i]).None? ==> Readings(values, i + 1, read) == Readings(values, i, read)
  {
    assert Readings(values, i, read) + [] == Readings(values, i, read);
  }

  /**
   * The months of `cumulativeData` are the months `allDates` lists, each once, and they are
   * exactly the months of the readings; every month holds one amount per project.
   */
  lemma {:induction false} CumulativeKeys(rs: seq<Reading>)
    ensures forall m :: m in Cumulative(rs) <==> m in FirstSeen(rs)
    ensures forall m :: m in Cumulative(rs) <==> exists k :: 0 <= k < |rs| && rs[k].month == m
    ensures forall m :: m in Cumulative(rs) ==> |Cumulative(rs)[m]| == ProjectCount
    ensures Categories.NoDuplicates(FirstSeen(rs))
  {
    if rs != [] {
      var init := rs[..|rs| - 1];
      var r := rs[|rs| - 1];
      CumulativeKeys(init);
      assert rs == init + [r];
      Snoc(init, r);
      forall m ensures m in Cumulative(rs) <==> exists k :: 0 <= k < |rs| && rs[k].month == m {
        if m in Cumulative(init) {
          var k :| 0 <= k < |init| && init[k].month == m;
          assert rs[k] == init[k];
        }
        if exists k :: 0 <= k < |rs| && rs[k].month == m {
          var k :| 0 <= k < |rs| && rs[k].month == m;
          if k < |init| {
            assert init[k] == rs[k];
          }
        }
      }
    }
  }

  /**
   * With amounts that are never negative, each month stores, for each project, the largest
   * amount of the month's readings: no reading of the month is larger, and one of them is it.
   */
  lemma {:induction false} CumulativeMax(rs: seq<Reading>, m: string, p: nat)
    requires p < ProjectCount
    requires forall k :: 0 <= k < |rs| ==> AmountAt(rs[k].values, p) >= 0.0
    requires m in Cumulative(rs)
    ensures forall k :: 0 <= k < |rs| && rs[k].month == m ==> AmountAt(rs[k].values, p) <= AmountAt(Cumulative(rs)[m], p)
    ensures exists k :: 0 <= k < |rs| && rs[k].month == m && AmountAt(rs[k].values, p) == AmountAt(Cumulative(rs)[m], p)
  {
    var init := rs[..|rs| - 1];
    var r := rs[|rs| - 1];
    assert rs == init + [r];
    CumulativeKeys(init);
    var stored := AmountAt(Cumulative(rs)[m], p);
    CumulativeStep(init, r, m, p);
    if m in Cumulative(init) {
      CumulativeMax(init, m, p);
      var k :| 0 <= k < |init| && init[k].month == m && AmountAt(init[k].values, p) == AmountAt(Cumulative(init)[m], p);
      assert rs[k] == init[k];
      if stored != AmountAt(Cumulative(init)[m], p) {
        assert rs[|init|] == r;
      }
    } else {
      assert rs[|init|] == r;
    }
    forall k | 0 <= k < |rs| && rs[k].month == m ensures AmountAt(rs[k].values, p) <= stored {
      if k < |init| {
        assert rs[k] == init[k];
      }
    }
  }

  /** What one more reading does to the amount a month stores for a project. */
  lemma CumulativeStep(rs: seq<Reading>, r: Reading, m: string, p: nat)
    requires p < ProjectCount
    requires m in Cumulative(rs + [r])
    ensures r.month != m ==> m in Cumulative(rs) && AmountAt(Cumulative(rs + [r])[m], p) == AmountAt(Cumulative(rs)[m], p)
    ensures r.month == m ==>
      AmountAt(Cumulative(rs + [r])[m], p) == Update(AmountAt(Lookup(Cumulative(rs), m), p), AmountAt(r.values, p))
  {
    Snoc(rs, r);
  }

  // ---- Second pass: the monthly amounts

  /** `previousValues`, each project set to 0. */
  const Zeros: seq<real> := [0.0, 0.0, 0.0, 0.0, 0.0, 0.0, 0.0, 0.0, 0.0, 0.0, 0.0]

  /** `if (currentCumulative > 0) previousValues[project] = currentCumulative`, for each project. */
  function Advance(previous: seq<real>, current: seq<real>): (r: seq<real>)
    ensures |r| == ProjectCount
  {
    seq(ProjectCount, p requires 0 <= p < ProjectCount =>
      if AmountAt(current, p) > 0.0 then AmountAt(current, p) else AmountAt(previous, p))
  }

  /** `previousValues` once the first n months have been walked. */
  function PrevAfter(cum: map<string, seq<real>>, dates: seq<string>, n: nat): seq<real>
    requires n <= |dates|
  {
    if n == 0 then Zeros else Advance(PrevAfter(cum, dates, n - 1), Lookup(cum, dates[n - 1]))
  }

  /** `monthlyVesting` once the first n months have been walked. */
  function MonthlyUpTo(cum: map<string, seq<real>>, dates: seq<string>, n: nat): map<string, seq<real>>
    requires n <= |dates|
  {
    if n == 0 then map[]
    else MonthlyUpTo(cum, dates, n - 1)[dates[n - 1] := FundVesting.Deltas(Lookup(cum, dates[n - 1]), PrevAfter(cum, dates, n - 1))]
  }

  /** The `allDates.forEach` of the second pass. */
  method SecondPass(cumulativeData: map<string, seq<real>>, allDates: seq<string>) returns (monthlyVesting: map<string, seq<real>>)
    ensures monthlyVesting == MonthlyUpTo(cumulativeData, allDates, |allDates|)
  {
    monthlyVesting := map[];
    var previousValues := Zeros;
    var i := 0;
    while i < |allDates|
      invariant 0 <= i <= |allDates|
      invariant monthlyVesting == MonthlyUpTo(cumulativeData, allDates, i)
      invariant previousValues == PrevAfter(cumulativeData, allDates, i)
    {
      var current := Lookup(cumulativeData, allDates[i]);
      monthlyVesting := monthlyVesting[allDates[i] := FundVesting.Deltas(current, previousValues)];
      previousValues := Advance(previousValues, current);
      i := i + 1;
    }
  }

  /** The cumulative amount of project p in month k, 0 when it has none (`|| 0`). */
  function CumAt(cum: map<string, seq<real>>, dates: seq<string>, k: nat, p: nat): real
    requires k < |dates|
  {
    AmountAt(Lookup(cum, dates[k]), p)
  }

  /** The last positive cumulative amount of project p among the first n months, 0 when there is none. */
  function LastPositive(cum: map<string, seq<real>>, dates: seq<string>, n: nat, p: nat): (r: real)
    requires n <= |dates|
    ensures r >= 0.0
  {
    if n == 0 then 0.0
    else if CumAt(cum, dates, n - 1, p) > 0.0 then CumAt(cum, dates, n - 1, p)
    else LastPositive(cum, dates, n - 1, p)
  }

  /** `previousValues[project]` is the last positive cumulative amount of the project so far. */
  lemma {:induction false} PrevAfterLast(cum: map<string, seq<real>>, dates: seq<string>, n: nat, p: nat)
    requires n <= |dates| && p < ProjectCount
    ensures AmountAt(PrevAfter(cum, dates, n), p) == LastPositive(cum, dates, n, p)
  {
    if n > 0 {
      PrevAfterLast(cum, dates, n - 1, p);
    }
  }

  /** A positive last value is the amount of one of the months walked. */
  lemma {:induction false} LastPositiveOf(cum: map<string, seq<real>>, dates: seq<string>, n: nat, p: nat)
    requires n <= |dates|
    ensures LastPositive(cum, dates, n, p) > 0.0 ==>
      exists j :: 0 <= j < n && CumAt(cum, dates, j, p) == LastPositive(cum, dates, n, p)
  {
    if n > 0 && CumAt(cum, dates, n - 1, p) <= 0.0 {
      LastPositiveOf(cum, dates, n - 1, p);
    }
  }

  /**
   * With distinct months, the amount of each month walked is its cumulative amount less the
   * last positive cumulative amount of a month before it, never below 0; and the months
   * with amounts are exactly the months walked.
   */
  lemma {:induction false} MonthlyAt(cum: map<string, seq<real>>, dates: seq<string>, n: nat, k: nat)
    requires Categories.NoDuplicates(dates)
    requires k < n <= |dates|
    ensures dates[k] in MonthlyUpTo(cum, dates, n)
    ensures forall p :: 0 <= p < ProjectCount ==>
      AmountAt(MonthlyUpTo(cum, dates, n)[dates[k]], p) == Max0(CumAt(cum, dates, k, p) - LastPositive(cum, dates, k, p))
  {
    if k < n - 1 {
      MonthlyAt(cum, dates, n - 1, k);
      assert dates[k] != dates[n - 1];
    } else {
      DeltasOfMonth(cum, dates, k);
    }
  }

  /** The deltas of month k against `previousValues`, project by project. */
  lemma DeltasOfMonth(cum: map<string, seq<real>>, dates: seq<string>, k: nat)
    requires k < |dates|
    ensures forall p :: 0 <= p < ProjectCount ==>
      AmountAt(FundVesting.Deltas(Lookup(cum, dates[k]), PrevAfter(cum, dates, k)), p)
        == Max0(CumAt(cum, dates, k, p) - LastPositive(cum, dates, k, p))
  {
    var current := Lookup(cum, dates[k]);
    var previous := PrevAfter(cum, dates, k);
    forall p | 0 <= p < ProjectCount
      ensures AmountAt(FundVesting.Deltas(current, previous), p) == Max0(CumAt(cum, dates, k, p) - LastPositive(cum, dates, k, p))
    {
      PrevAfterLast(cum, dates, k, p);
      DeltaAt(current, previous, p);
    }
  }

  /** A project's delta is its cumulative amount less the previous one, never below 0. */
  lemma DeltaAt(current: seq<real>, previous: seq<real>, p: nat)
    requires p < ProjectCount
    ensures AmountAt(FundVesting.Deltas(current, previous), p) == Max0(AmountAt(current, p) - AmountAt(previous, p))
  {
  }

  /** The months with amounts are the months walked. */
  lemma {:induction false} MonthlyKeys(cum: map<string, seq<real>>, dates: seq<string>, n: nat)
    requires n <= |dates|
    ensures MonthlyUpTo(cum, dates, n).Keys == set k | 0 <= k < n :: dates[k]
  {
    if n > 0 {
      MonthlyKeys(cum, dates, n - 1);
    }
  }

  /** No monthly amount is negative. */
  lemma {:induction false} MonthlyNonNegative(cum: map<string, seq<real>>, dates: seq<string>, n: nat)
    requires n <= |dates|
    ensures forall k, p :: k in MonthlyUpTo(cum, dates, n) && 0 <= p < |MonthlyUpTo(cum, dates, n)[k]| ==>
      MonthlyUpTo(cum, dates, n)[k][p] >= 0.0
  {
    if n > 0 {
      MonthlyNonNegative(cum, dates, n - 1);
    }
  }

  /** What the first n months vest of project p, each as `MonthlyAt` states it. */
  function Vested(cum: map<string, seq<real>>, dates: seq<string>, n: nat, p: nat): real
    requires n <= |dates|
  {
    if n == 0 then 0.0
    else Vested(cum, dates, n - 1, p) + Max0(CumAt(cum, dates, n - 1, p) - LastPositive(cum, dates, n - 1, p))
  }

  /** Between months, the project's positive cumulative amounts never decrease. */
  predicate Rising(cum: map<string, seq<real>>, dates: seq<string>, n: nat, p: nat)
    requires n <= |dates|
  {
    forall i, j :: 0 <= i < j < n && CumAt(cum, dates, i, p) > 0.0 && CumAt(cum, dates, j, p) > 0.0 ==>
      CumAt(cum, dates, i, p) <= CumAt(cum, dates, j, p)
  }

  /**
   * The monthly amounts of a project add up to at least its last positive cumulative amount,
   * and to exactly that when its positive cumulative amounts never decrease: the deltas
   * telescope.
   */
  lemma {:induction false} VestedTelescopes(cum: map<string, seq<real>>, dates: seq<string>, n: nat, p: nat)
    requires n <= |dates|
    ensures Vested(cum, dates, n, p) >= LastPositive(cum, dates, n, p)
    ensures Rising(cum, dates, n, p) ==> Vested(cum, dates, n, p) == LastPositive(cum, dates, n, p)
  {
    if n > 0 {
      VestedTelescopes(cum, dates, n - 1, p);
      var c := CumAt(cum, dates, n - 1, p);
      var last := LastPositive(cum, dates, n - 1, p);
      if Rising(cum, dates, n, p) {
        assert Rising(cum, dates, n - 1, p);
        if c > 0.0 && last > 0.0 {
          LastPositiveOf(cum, dates, n - 1, p);
          var j :| 0 <= j < n - 1 && CumAt(cum, dates, j, p) == last;
          assert last <= c;
        }
      }
    }
  }

  // ---- The chart

  /** A list whose elements occur once each occurs at most once in its multiset. */
  lemma {:induction false} DistinctCounts(s: seq<string>)
    requires Categories.NoDuplicates(s)
    ensures forall x :: multiset(s)[x] <= 1
  {
    if s != [] {
      var init := s[..|s| - 1];
      assert s == init + [s[|s| - 1]];
      assert Categories.NoDuplicates(init);
      DistinctCounts(init);
      assert s[|s| - 1] !in init;
    }
  }

  /** A list in which no element is counted twice has no duplicates. */
  lemma CountsDistinct(s: seq<string>)
    requires forall x :: multiset(s)[x] <= 1
    ensures Categories.NoDuplicates(s)
  {
    forall p, q | 0 <= p < q < |s| ensures s[p] != s[q] {
      PairCounted(s, p, q);
    }
  }

  /** Two equal elements count twice. */
  lemma PairCounted(s: seq<string>, p: nat, q: nat)
    requires p < q < |s|
    ensures s[p] == s[q] ==> multiset(s)[s[q]] >= 2
  {
    assert s == s[..q] + s[q..];
    assert s[p] in s[..q] && s[q] in s[q..];
    assert multiset(s)[s[q]] == multiset(s[..q])[s[q]] + multiset(s[q..])[s[q]];
  }

  /** A reordering of a list without duplicates has none. */
  lemma SameDistinct(s: seq<string>, t: seq<string>)
    requires Categories.NoDuplicates(s) && multiset(t) == multiset(s)
    ensures Categories.NoDuplicates(t)
  {
    DistinctCounts(s);
    CountsDistinct(t);
  }

  /** The vesting section of `doGet`: both passes, the sort and the chart. */
  method UpdatedVestingData(values: seq<FundVesting.VestingRow>, read: FundVesting.VestingRow -> Option<Reading>)
    returns (allDates: seq<string>, vestingData: seq<VestingMonth>)
    ensures SortedKeys(allDates) && multiset(allDates) == multiset(FirstSeen(Readings(values, |values|, read)))
    ensures vestingData == Chart(allDates, MonthlyUpTo(Cumulative(Readings(values, |values|, read)), allDates, |allDates|))
  {
    var cumulativeData;
    cumulativeData, allDates := FirstPass(values, read);
    allDates := SortedDates(allDates);
    var monthlyVesting := SecondPass(cumulativeData, allDates);
    vestingData := Chart(allDates, monthlyVesting);
  }

  /**
   * A month as the chart may show it: a total above 0, no amount below 0, the month of some
   * reading (a row dated today or later), and each project's amount its cumulative amount
   * less the last positive one of an earlier month.
   */
  ghost predicate Shown(rs: seq<Reading>, allDates: seq<string>, m: VestingMonth)
  {
    Total(m.amounts) > 0.0 && (forall p :: 0 <= p < |m.amounts| ==> m.amounts[p] >= 0.0)
    && (exists k :: 0 <= k < |rs| && rs[k].month == m.month)
    && exists i :: (0 <= i < |allDates| && allDates[i] == m.month
         && forall p :: 0 <= p < ProjectCount ==>
              AmountAt(m.amounts, p) == Max0(CumAt(Cumulative(rs), allDates, i, p) - LastPositive(Cumulative(rs), allDates, i, p)))
  }

  /** What the chart shows: at most 42 months in key order, each of them `Shown`. */
  lemma UpdatedChart(rs: seq<Reading>, allDates: seq<string>)
    requires SortedKeys(allDates) && multiset(allDates) == multiset(FirstSeen(rs))
    ensures var chart := Chart(allDates, MonthlyUpTo(Cumulative(rs), allDates, |allDates|));
      |chart| <= ChartMonths && MonthsInOrder(chart) && forall m :: m in chart ==> Shown(rs, allDates, m)
  {
    var monthly := MonthlyUpTo(Cumulative(rs), allDates, |allDates|);
    var chart := Chart(allDates, monthly);
    CumulativeKeys(rs);
    SameDistinct(FirstSeen(rs), allDates);
    ChartSelects(allDates, monthly);
    forall m | m in chart
      ensures Shown(rs, allDates, m)
    {
      var d :| 0 <= d < |allDates| && d < ChartMonths && m == VestingMonth(allDates[d], Lookup(monthly, allDates[d]))
        && Total(m.amounts) > 0.0;
      MonthShown(rs, allDates, d);
    }
  }

  /** The month at index d of the sorted months, with the amounts the second pass gives it, is `Shown` when its total is above 0. */
  lemma MonthShown(rs: seq<Reading>, allDates: seq<string>, d: nat)
    requires Categories.NoDuplicates(allDates) && multiset(allDates) == multiset(FirstSeen(rs)) && d < |allDates|
    ensures var m := VestingMonth(allDates[d], Lookup(MonthlyUpTo(Cumulative(rs), allDates, |allDates|), allDates[d]));
      Total(m.amounts) > 0.0 ==> Shown(rs, allDates, m)
  {
    var cum := Cumulative(rs);
    var monthly := MonthlyUpTo(cum, allDates, |allDates|);
    var m := VestingMonth(allDates[d], Lookup(monthly, allDates[d]));
    CumulativeKeys(rs);
    assert allDates[d] in multiset(FirstSeen(rs));
    assert allDates[d] in Cumulative(rs);
    MonthlyNonNegative(cum, allDates, |allDates|);
    MonthlyAt(cum, allDates, |allDates|, d);
    assert m.amounts == monthly[allDates[d]];
  }
}
