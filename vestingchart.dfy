/**
 * What the two vesting passes share: the monthly amounts of the eleven projects, the sort
 * of the month keys (`allDates.sort()`), and the chart built from the first 42 months that
 * have some vesting.
 */
module VestingChart {
  import opened JsText
  import opened Sheet

  /** `Math.max(0, x)` */
  function Max0(x: real): (r: real)
    ensures r >= 0.0 && r >= x
    ensures r == x || r == 0.0
  {
    if x > 0.0 then x else 0.0
  }

  /** `monthData[project] || 0`: a project without an amount counts as 0. */
  function AmountAt(vs: seq<real>, p: nat): real
  {
    if p < |vs| then vs[p] else 0.0
  }

  /** The sum of the amounts of the first n projects. */
  function TotalUpTo(vs: seq<real>, n: nat): real
  {
    if n == 0 then 0.0 else TotalUpTo(vs, n - 1) + AmountAt(vs, n - 1)
  }

  /** `Object.keys(topPerformers).reduce((sum, project) => sum + (monthData[project] || 0), 0)` */
  function Total(vs: seq<real>): real
  {
    TotalUpTo(vs, ProjectCount)
  }

  /** Amounts that are never negative add up to more than 0 exactly when one of them is above 0. */
  lemma {:induction false} TotalUpToPositive(vs: seq<real>, n: nat)
    requires forall p :: 0 <= p < n ==> AmountAt(vs, p) >= 0.0
    ensures TotalUpTo(vs, n) >= 0.0
    ensures TotalUpTo(vs, n) > 0.0 <==> exists p :: 0 <= p < n && AmountAt(vs, p) > 0.0
  {
    if n > 0 {
      TotalUpToPositive(vs, n - 1);
    }
  }

  lemma TotalPositive(vs: seq<real>)
    requires forall p :: 0 <= p < ProjectCount ==> AmountAt(vs, p) >= 0.0
    ensures Total(vs) > 0.0 <==> exists p :: 0 <= p < ProjectCount && AmountAt(vs, p) > 0.0
  {
    TotalUpToPositive(vs, ProjectCount);
  }

  /** One month of a vesting chart: its `YYYY-MM` key and the amount of each project. */
  datatype VestingMonth = VestingMonth(month: string, amounts: seq<real>)

  /** `.filter(monthData => total > 0)`: the months with some vesting. */
  function WithVesting(ms: seq<VestingMonth>): (r: seq<VestingMonth>)
    ensures |r| <= |ms|
    ensures forall i :: 0 <= i < |r| ==> Total(r[i].amounts) > 0.0
  {
    if ms == [] then []
    else
      var init := WithVesting(ms[..|ms| - 1]);
      if Total(ms[|ms| - 1].amounts) > 0.0 then init + [ms[|ms| - 1]] else init
  }

  /** A month is kept exactly when it is one of the months and has some vesting. */
  lemma {:induction false} WithVestingKeeps(ms: seq<VestingMonth>, m: VestingMonth)
    ensures m in WithVesting(ms) <==> m in ms && Total(m.amounts) > 0.0
  {
    if ms != [] {
      var init := ms[..|ms| - 1];
      WithVestingKeeps(init, m);
      assert ms == init + [ms[|ms| - 1]];
    }
  }

  /** Keys in the order `allDates.sort()` leaves them: ascending by character (code point). */
  predicate SortedKeys(s: seq<string>)
  {
    forall i, j :: 0 <= i < j < |s| ==> StrLe(s[i], s[j])
  }

  predicate MonthsInOrder(ms: seq<VestingMonth>)
  {
    forall i, j :: 0 <= i < j < |ms| ==> StrLe(ms[i].month, ms[j].month)
  }

  /** The filter keeps the months in their order. */
  lemma {:induction false} WithVestingInOrder(ms: seq<VestingMonth>)
    requires MonthsInOrder(ms)
    ensures MonthsInOrder(WithVesting(ms))
  {
    if ms != [] {
      var init := ms[..|ms| - 1];
      WithVestingInOrder(init);
      var r := WithVesting(init);
      var last := ms[|ms| - 1];
      if Total(last.amounts) > 0.0 {
        forall i | 0 <= i < |r| ensures StrLe(r[i].month, last.month) {
          WithVestingKeeps(init, r[i]);
          var k :| 0 <= k < |init| && init[k] == r[i];
          assert ms[k] == init[k];
        }
      }
    }
  }

  /** `monthlyVesting[month]`, where a month without amounts spreads nothing into its object. */
  function Lookup(monthly: map<string, seq<real>>, k: string): seq<real>
  {
    if k in monthly then monthly[k] else []
  }

  /** `.slice(0, 42)`: "Next 42 months". */
  const ChartMonths := 42

  /** `allDates.slice(0, 42).map(month => ({ month, ...monthlyVesting[month] })).filter(...)` */
  function Chart(dates: seq<string>, monthly: map<string, seq<real>>): seq<VestingMonth>
  {
    var first := dates[..if |dates| < ChartMonths then |dates| else ChartMonths];
    WithVesting(seq(|first|, i requires 0 <= i < |first| => VestingMonth(first[i], Lookup(monthly, first[i]))))
  }

  /**
   * The chart has at most 42 months; they are exactly the months among the first 42 keys
   * whose amounts add up to more than 0, each with the amounts computed for it, in the
   * order of the keys.
   */
  lemma ChartSelects(dates: seq<string>, monthly: map<string, seq<real>>)
    ensures |Chart(dates, monthly)| <= ChartMonths
    ensures forall m :: m in Chart(dates, monthly) <==>
      exists i :: 0 <= i < |dates| && i < ChartMonths && m == VestingMonth(dates[i], Lookup(monthly, dates[i]))
                  && Total(m.amounts) > 0.0
    ensures SortedKeys(dates) ==> MonthsInOrder(Chart(dates, monthly))
  {
    var first := dates[..if |dates| < ChartMonths then |dates| else ChartMonths];
    var ms := seq(|first|, i requires 0 <= i < |first| => VestingMonth(first[i], Lookup(monthly, first[i])));
    forall m ensures m in WithVesting(ms) <==> m in ms && Total(m.amounts) > 0.0 {
      WithVestingKeeps(ms, m);
    }
    forall m | m in ms ensures exists i :: 0 <= i < |dates| && i < ChartMonths && m == VestingMonth(dates[i], Lookup(monthly, dates[i])) {
      var i :| 0 <= i < |ms| && ms[i] == m;
      assert first[i] == dates[i];
    }
    forall i | 0 <= i < |dates| && i < ChartMonths ensures VestingMonth(dates[i], Lookup(monthly, dates[i])) in ms {
      assert ms[i] == VestingMonth(dates[i], Lookup(monthly, dates[i]));
    }
    if SortedKeys(dates) {
      assert MonthsInOrder(ms) by {
        forall i, j | 0 <= i < j < |ms| ensures StrLe(ms[i].month, ms[j].month) {
          assert ms[i].month == dates[i] && ms[j].month == dates[j];
        }
      }
      WithVestingInOrder(ms);
    }
  }

  /** Amounts that are never negative stay so in the chart. */
  lemma ChartNonNegative(dates: seq<string>, monthly: map<string, seq<real>>)
    requires forall k, p :: k in monthly && 0 <= p < |monthly[k]| ==> monthly[k][p] >= 0.0
    ensures forall m, p :: m in Chart(dates, monthly) && 0 <= p < |m.amounts| ==> m.amounts[p] >= 0.0
  {
    ChartSelects(dates, monthly);
  }

  // ---- allDates.sort()

  predicate SortedPrefix(s: seq<string>, n: nat)
    requires n <= |s|
  {
    forall k, l :: 0 <= k < l < n ==> StrLe(s[k], s[l])
  }

  /** The keys up to i are sorted apart from the one at j, which sorts no later than the keys after it. */
  predicate Inserting(s: seq<string>, i: nat, j: nat)
    requires j <= i < |s|
  {
    (forall k, l :: 0 <= k < l <= i && l != j ==> StrLe(s[k], s[l]))
    && (forall l :: j < l <= i ==> StrLe(s[j], s[l]))
  }

  lemma InsertingSwap(s: seq<string>, i: nat, j: nat)
    requires 0 < j <= i < |s| && Inserting(s, i, j)
    requires !StrLe(s[j - 1], s[j])
    ensures Inserting(Swap(s, j - 1, j), i, j - 1)
  {
    StrLeTotal(s[j - 1], s[j]);
  }

  lemma InsertingDone(s: seq<string>, i: nat, j: nat)
    requires j <= i < |s| && Inserting(s, i, j)
    requires j == 0 || StrLe(s[j - 1], s[j])
    ensures SortedPrefix(s, i + 1)
  {
    forall k | 0 <= k < j
      ensures StrLe(s[k], s[j])
    {
      if k < j - 1 { StrLeTrans(s[k], s[j - 1], s[j]); }
    }
  }

  /** `allDates.sort()` as an insertion sort in place. */
  method SortKeys(a: array<string>)
    modifies a
    ensures SortedKeys(a[..])
    ensures multiset(a[..]) == multiset(old(a[..]))
  {
    var i := 0;
    while i < a.Length
      invariant 0 <= i <= a.Length
      invariant SortedPrefix(a[..], i)
      invariant multiset(a[..]) == multiset(old(a[..]))
    {
      var j := i;
      while j > 0 && !StrLe(a[j - 1], a[j])
        invariant 0 <= j <= i
        invariant Inserting(a[..], i, j)
        invariant multiset(a[..]) == multiset(old(a[..]))
      {
        ghost var s := a[..];
        InsertingSwap(s, i, j);
        a[j - 1], a[j] := a[j], a[j - 1];
        assert a[..] == Swap(s, j - 1, j);
        j := j - 1;
      }
      InsertingDone(a[..], i, j);
      i := i + 1;
    }
    assert a[..] == a[..a.Length];
  }

  /** The keys sorted, on a fresh array. */
  method SortedDates(dates: seq<string>) returns (r: seq<string>)
    ensures SortedKeys(r)
    ensures multiset(r) == multiset(dates)
  {
    var a := new string[|dates|](i requires 0 <= i < |dates| => dates[i]);
    assert a[..] == dates;
    SortKeys(a);
    r := a[..];
  }
}
