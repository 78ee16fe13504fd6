/**
 * The sortable investment table of the dashboard (app/page.tsx): its columns, the
 * comparator of the in-place `arr.sort`, the header-click state machine, and the
 * sort of a copied list of rows.
 */
module Table {
  import opened JsText
  import opened JsNumbers
  import opened JsParse
  import opened Dashboard

  // ---- Columns and rows

  /** The fields of an investment row: the `ColKey` union the table sorts by, then the withdrawal fields the scripts also fill. */
  datatype ColKey =
    | Name | TotalInvested | TotalValue | RealisedValue | RealisedPnL | Roi
    | RealisedRoi | PercentReceived | PercentSold | LiquidValue
    | NextUnlock | NextUnlock2 | FullUnlock | BuyPrice | CurrentPrice | AvgSellPrice | Vesting
    | Share | UnrealisedValue | UnrealisedRoi | OutstandingUSDC | OutstandingETH | OutstandingSOL | Dpi
    | WithdrawUSD | WithdrawETH | WithdrawSOL

  /** An entry of `COLUMNS` without its display label; an absent `numeric` flag is false. */
  datatype Column = Column(key: ColKey, isNumeric: bool)

  /** `COLUMNS`: the seventeen columns the table shows, in order. */
  const Columns: seq<Column> := [
    Column(Name, false),
    Column(TotalInvested, true),
    Column(TotalValue, true),
    Column(RealisedValue, true),
    Column(RealisedPnL, true),
    Column(Roi, true),
    Column(RealisedRoi, true),
    Column(PercentReceived, true),
    Column(PercentSold, true),
    Column(LiquidValue, true),
    Column(NextUnlock, false),
    Column(NextUnlock2, false),
    Column(FullUnlock, false),
    Column(BuyPrice, true),
    Column(CurrentPrice, true),
    Column(AvgSellPrice, true),
    Column(Vesting, false)
  ]

  /** `cols.find(c => c.key === k)` */
  function FindColumn(cols: seq<Column>, k: ColKey): (r: Option<Column>)
    ensures r.Some? ==> r.value in cols && r.value.key == k
    ensures r.None? <==> forall i :: 0 <= i < |cols| ==> cols[i].key != k
  {
    if cols == [] then None
    else if cols[0].key == k then Some(cols[0])
    else FindColumn(cols[1..], k)
  }

  /** The columns `COLUMNS` marks numeric. */
  predicate IsNumeric(k: ColKey)
  {
    k in {TotalInvested, TotalValue, RealisedValue, RealisedPnL, Roi, RealisedRoi,
          PercentReceived, PercentSold, LiquidValue, BuyPrice, CurrentPrice, AvgSellPrice}
  }

  /**
   * `COLUMNS.find(c => c.key === col)?.numeric` holds exactly for the numeric columns;
   * the keys missing from `COLUMNS` sort as text.
   */
  lemma NumericColumns(k: ColKey)
    ensures IsNumeric(k) <==> FindColumn(Columns, k).Some? && FindColumn(Columns, k).value.isNumeric
  {
    ColumnFlags();
    if IsNumeric(k) {
      var i := NumericIndex(k);
      assert Columns[i].key == k;
    }
  }

  /** Each entry of `COLUMNS` is flagged numeric exactly when its key is a numeric column. */
  lemma ColumnFlags()
    ensures forall i :: 0 <= i < |Columns| ==> (Columns[i].isNumeric <==> IsNumeric(Columns[i].key))
  {
  }

  /** Where a numeric column sits in `COLUMNS`. */
  function NumericIndex(k: ColKey): (i: nat)
    requires IsNumeric(k)
    ensures i < |Columns| && Columns[i].key == k
  {
    match k
    case TotalInvested => 1
    case TotalValue => 2
    case RealisedValue => 3
    case RealisedPnL => 4
    case Roi => 5
    case RealisedRoi => 6
    case PercentReceived => 7
    case PercentSold => 8
    case LiquidValue => 9
    case BuyPrice => 13
    case CurrentPrice => 14
    case AvgSellPrice => 15
  }

  /** An investment row: the text of each field it has. */
  type Row = map<ColKey, string>

  /** `row[col]`, where a missing field reads as the empty text (`?? ''`, and `parseNumberLike(undefined)`). */
  function Cell(r: Row, k: ColKey): string
  {
    if k in r then r[k] else ""
  }

  datatype Dir = Desc | Asc

  // ---- The comparator

  /**
   * The sign of `x - y` as `Array.prototype.sort` reads a comparator's result: a NaN
   * difference (a NaN key, or -Infinity minus -Infinity) counts as 0.
   */
  function DifferenceSign(x: SortValue, y: SortValue): int
  {
    match (x, y)
    case (NaN, _) => 0
    case (_, NaN) => 0
    case (NegInf, NegInf) => 0
    case (NegInf, Finite(_)) => -1
    case (Finite(_), NegInf) => 1
    case (Finite(a), Finite(b)) => if a < b then -1 else if a > b then 1 else 0
  }

  /** `sortDir === 'desc' ? bv - av : av - bv` */
  function NumberCompare(av: SortValue, bv: SortValue, dir: Dir): int
  {
    if dir == Desc then DifferenceSign(bv, av) else DifferenceSign(av, bv)
  }

  /** The sign of `x.localeCompare(y)`, with the locale's collation taken as code-point order. */
  function TextOrder(x: string, y: string): int
  {
    if x == y then 0 else if StrLe(x, y) then -1 else 1
  }

  /** `sortDir === 'desc' ? bvs.localeCompare(avs) : avs.localeCompare(bvs)` */
  function TextCompare(avs: string, bvs: string, dir: Dir): int
  {
    if dir == Desc then TextOrder(bvs, avs) else TextOrder(avs, bvs)
  }

  /** The comparator as written: numeric columns by `parseNumberLike`, the others by text. */
  function CompareAsWritten(a: Row, b: Row, col: ColKey, dir: Dir): int
  {
    if IsNumeric(col) then NumberCompare(ParseNumberLike(Cell(a, col)), ParseNumberLike(Cell(b, col)), dir)
    else TextCompare(Cell(a, col), Cell(b, col), dir)
  }

  /**
   * A parenthesised cell that is not a number, such as "(TBD)", has key NaN, which ties with
   * every row; two rows that differ then both tie with it, so the comparator is not consistent
   * and the order `arr.sort` produces is unspecified.
   */
  lemma ComparatorInconsistent(col: ColKey, w: string, s: string, t: string)
    requires IsNumeric(col)
    requires |w| >= 1 && forall k :: 0 <= k < |w| ==> IsAsciiLetter(w[k])
    requires IsPlainDecimal(s) && IsPlainDecimal(t) && PlainDecimalValue(t) < PlainDecimalValue(s)
    ensures var a, b, c := map[col := s], map[col := ['('] + w + [')']], map[col := t];
      CompareAsWritten(a, b, col, Asc) == 0 && CompareAsWritten(b, c, col, Asc) == 0
      && CompareAsWritten(a, c, col, Asc) > 0
  {
    ParseNumberLikePlain(s);
    ParseNumberLikePlain(t);
    ParseNumberLikeParenWord(w);
  }

  /** The key the corrected comparator sorts by: a NaN from `parseNumberLike` sorts as -Infinity, like every other non-number. */
  function SortKey(v: string): (k: SortValue)
    ensures k != NaN
    ensures ParseNumberLike(v) != NaN ==> k == ParseNumberLike(v)
  {
    match ParseNumberLike(v)
    case NaN => NegInf
    case other => other
  }

  /** The comparator with the corrected key; the table sort below uses it. */
  function Compare(a: Row, b: Row, col: ColKey, dir: Dir): int
  {
    if IsNumeric(col) then NumberCompare(SortKey(Cell(a, col)), SortKey(Cell(b, col)), dir)
    else TextCompare(Cell(a, col), Cell(b, col), dir)
  }

  /** The order of keys: -Infinity first, then the numbers by value. */
  predicate KeyLe(x: SortValue, y: SortValue)
  {
    x == NegInf || (x.Finite? && y.Finite? && x.v <= y.v)
  }

  /** On a numeric column, descending puts the larger key first and ascending the smaller. */
  lemma CompareNumeric(a: Row, b: Row, col: ColKey)
    requires IsNumeric(col)
    ensures Compare(a, b, col, Desc) <= 0 <==> KeyLe(SortKey(Cell(b, col)), SortKey(Cell(a, col)))
    ensures Compare(a, b, col, Asc) <= 0 <==> KeyLe(SortKey(Cell(a, col)), SortKey(Cell(b, col)))
  {
  }

  lemma StrLeRefl(x: string)
    ensures StrLe(x, x)
  {
  }

  /** On a text column, ascending is code-point order and descending its reverse. */
  lemma CompareText(a: Row, b: Row, col: ColKey)
    requires !IsNumeric(col)
    ensures Compare(a, b, col, Asc) <= 0 <==> StrLe(Cell(a, col), Cell(b, col))
    ensures Compare(a, b, col, Desc) <= 0 <==> StrLe(Cell(b, col), Cell(a, col))
  {
    StrLeRefl(Cell(a, col));
  }

  /** Swapping the rows negates the comparison. */
  lemma CompareAntisymmetric(a: Row, b: Row, col: ColKey, dir: Dir)
    ensures Compare(a, b, col, dir) == -Compare(b, a, col, dir)
  {
    if !IsNumeric(col) {
      var x, y := Cell(a, col), Cell(b, col);
      if x != y && StrLe(x, y) && StrLe(y, x) { StrLeAntisym(x, y); }
      if !StrLe(x, y) && !StrLe(y, x) { StrLeTotal(x, y); }
    }
  }

  lemma TextOrderTransitive(x: string, y: string, z: string)
    requires TextOrder(x, y) <= 0 && TextOrder(y, z) <= 0
    ensures TextOrder(x, z) <= 0
  {
    if x != y && y != z { StrLeTrans(x, y, z); }
  }

  /** "Sorts no later than" is transitive for the corrected comparator. */
  lemma CompareTransitive(a: Row, b: Row, c: Row, col: ColKey, dir: Dir)
    requires Compare(a, b, col, dir) <= 0 && Compare(b, c, col, dir) <= 0
    ensures Compare(a, c, col, dir) <= 0
  {
    if !IsNumeric(col) {
      var x, y, z := Cell(a, col), Cell(b, col), Cell(c, col);
      if dir == Asc { TextOrderTransitive(x, y, z); } else { TextOrderTransitive(z, y, x); }
    }
  }

  // ---- The sort

  /** Every row sorts no later than every row after it. */
  predicate Sorted(s: seq<Row>, col: ColKey, dir: Dir)
  {
    forall k, l :: 0 <= k < l < |s| ==> Compare(s[k], s[l], col, dir) <= 0
  }

  /** The first n rows are sorted. */
  predicate SortedPrefix(s: seq<Row>, n: nat, col: ColKey, dir: Dir)
    requires n <= |s|
  {
    forall k, l :: 0 <= k < l < n ==> Compare(s[k], s[l], col, dir) <= 0
  }

  /**
   * Inserting the row at j into the sorted rows before i + 1: the rows up to i are sorted
   * apart from the one at j, which sorts no later than the rows after it.
   */
  predicate Inserting(s: seq<Row>, i: nat, j: nat, col: ColKey, dir: Dir)
    requires j <= i < |s|
  {
    (forall k, l :: 0 <= k < l <= i && l != j ==> Compare(s[k], s[l], col, dir) <= 0)
    && (forall l :: j < l <= i ==> Compare(s[j], s[l], col, dir) <= 0)
  }

  lemma InsertingStart(s: seq<Row>, i: nat, col: ColKey, dir: Dir)
    requires i < |s| && SortedPrefix(s, i, col, dir)
    ensures Inserting(s, i, i, col, dir)
  {
  }

  /** Moving the row at j left past a row that sorts after it keeps inserting. */
  lemma InsertingSwap(s: seq<Row>, i: nat, j: nat, col: ColKey, dir: Dir)
    requires 0 < j <= i < |s| && Inserting(s, i, j, col, dir)
    requires Compare(s[j - 1], s[j], col, dir) > 0
    ensures Inserting(Swap(s, j - 1, j), i, j - 1, col, dir)
  {
    CompareAntisymmetric(s[j - 1], s[j], col, dir);
  }

  /** Once the row before the inserted one sorts no later than it, the rows up to i are sorted. */
  lemma InsertingDone(s: seq<Row>, i: nat, j: nat, col: ColKey, dir: Dir)
    requires j <= i < |s| && Inserting(s, i, j, col, dir)
    requires j == 0 || Compare(s[j - 1], s[j], col, dir) <= 0
    ensures SortedPrefix(s, i + 1, col, dir)
  {
    forall k | 0 <= k < j
      ensures Compare(s[k], s[j], col, dir) <= 0
    {
      if k < j - 1 { CompareTransitive(s[k], s[j - 1], s[j], col, dir); }
    }
  }

  /** `arr.sort(comparator)`, as an insertion sort that moves each row left past the rows that sort after it. */
  method SortRows(a: array<Row>, col: ColKey, dir: Dir)
    modifies a
    ensures Sorted(a[..], col, dir)
    ensures multiset(a[..]) == multiset(old(a[..]))
  {
    var i := 0;
    while i < a.Length
      invariant 0 <= i <= a.Length
      invariant SortedPrefix(a[..], i, col, dir)
      invariant multiset(a[..]) == multiset(old(a[..]))
    {
      InsertingStart(a[..], i, col, dir);
      var j := i;
      while j > 0 && Compare(a[j - 1], a[j], col, dir) > 0
        invariant 0 <= j <= i
        invariant Inserting(a[..], i, j, col, dir)
        invariant multiset(a[..]) == multiset(old(a[..]))
      {
        ghost var s := a[..];
        InsertingSwap(s, i, j, col, dir);
        a[j - 1], a[j] := a[j], a[j - 1];
        assert a[..] == Swap(s, j - 1, j);
        j := j - 1;
      }
      InsertingDone(a[..], i, j, col, dir);
      i := i + 1;
    }
    assert a[..] == a[..a.Length];
  }

  // ---- The header-click state machine

  /** The sort the table is in: `sortKey` and `sortDir`. */
  datatype SortSpec = SortSpec(key: ColKey, dir: Dir)

  function Flip(d: Dir): Dir
  {
    if d == Desc then Asc else Desc
  }

  /** The sort after a click on header k. */
  function NextSort(s: SortSpec, k: ColKey): (t: SortSpec)
    ensures t.key == k
    ensures k != s.key ==> t.dir == Desc
    ensures k == s.key ==> t.dir != s.dir
  {
    if k != s.key then SortSpec(k, Desc) else SortSpec(k, Flip(s.dir))
  }

  /** Two clicks on the header already sorted by restore the sort; two on another header sort it ascending. */
  lemma NextSortTwice(s: SortSpec, k: ColKey)
    ensures k == s.key ==> NextSort(NextSort(s, k), k) == s
    ensures k != s.key ==> NextSort(NextSort(s, k), k) == SortSpec(k, Asc)
  {
  }

  /** The sort state of the dashboard page and the rows it shows. */
  class SortState {
    var key: ColKey
    var dir: Dir

    /** `useState<ColKey>('totalValue')` and `useState('desc')` */
    constructor ()
      ensures key == TotalValue && dir == Desc
    {
      key := TotalValue;
      dir := Desc;
    }

    /** `onHeaderClick(k)` */
    method OnHeaderClick(k: ColKey)
      modifies this
      ensures SortSpec(key, dir) == NextSort(SortSpec(old(key), old(dir)), k)
    {
      if k != key {
        key := k;
        dir := Desc;
      } else {
        dir := if dir == Desc then Asc else Desc;
      }
    }

    /** The `sorted` memo: a copy of the rows, sorted in place by the current column and direction. */
    method SortedRows(items: seq<Row>) returns (r: seq<Row>)
      ensures Sorted(r, key, dir)
      ensures multiset(r) == multiset(items)
    {
      var arr := new Row[|items|](i requires 0 <= i < |items| => items[i]);
      assert arr[..] == items;
      SortRows(arr, key, dir);
      r := arr[..];
    }
  }

  /** Sorted descending by a numeric column, the keys never increase down the table. */
  lemma SortedDescending(s: seq<Row>, col: ColKey)
    requires IsNumeric(col) && Sorted(s, col, Desc)
    ensures forall k, l :: 0 <= k < l < |s| ==> KeyLe(SortKey(Cell(s[l], col)), SortKey(Cell(s[k], col)))
  {
    forall k, l | 0 <= k < l < |s|
      ensures KeyLe(SortKey(Cell(s[l], col)), SortKey(Cell(s[k], col)))
    {
      CompareNumeric(s[k], s[l], col);
    }
  }

  /** Sorted ascending by a numeric column, the keys never decrease and the rows without a number come first. */
  lemma SortedAscending(s: seq<Row>, col: ColKey)
    requires IsNumeric(col) && Sorted(s, col, Asc)
    ensures forall k, l :: 0 <= k < l < |s| ==> KeyLe(SortKey(Cell(s[k], col)), SortKey(Cell(s[l], col)))
  {
    forall k, l | 0 <= k < l < |s|
      ensures KeyLe(SortKey(Cell(s[k], col)), SortKey(Cell(s[l], col)))
    {
      CompareNumeric(s[k], s[l], col);
    }
  }
}
