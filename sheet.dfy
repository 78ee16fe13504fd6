/**
 * The spreadsheet as the two Apps Script handlers read it: a range is a list of rows of cell
 * texts, an object built from a row copies consecutive cells into named fields, and the
 * vesting columns of the eleven tracked projects are read as numbers.
 */
module Sheet {
  import opened JsText
  import opened JsNumbers
  import opened JsParse
  import opened Table

  /** A row of `range.getValues()`, each cell as the text `cell ? cell.toString() : ''` gives. */
  type SheetRow = seq<string>

  /** The text of cell k; a range is as wide as the scripts read it, so a missing cell is empty. */
  function CellAt(row: SheetRow, k: nat): string
  {
    if k < |row| then row[k] else ""
  }

  /** `row[k] ? row[k].toString().trim() : ''` */
  function TrimmedAt(row: SheetRow, k: nat): string
  {
    Trim(CellAt(row, k))
  }

  /**
   * The objects `make` builds from the rows from i on, up to the first row `stop` holds for:
   * a loop that pushes one object per row and breaks at a row that ends the table.
   */
  function RowsUntil(values: seq<SheetRow>, i: nat, stop: SheetRow -> bool, make: SheetRow -> Row): seq<Row>
    decreases |values| - i
  {
    if i >= |values| || stop(values[i]) then [] else [make(values[i])] + RowsUntil(values, i + 1, stop, make)
  }

  /**
   * Row by row: the objects come from consecutive rows from i on, none of which ends the table,
   * and the first row after them ends it or is past the range.
   */
  lemma {:induction false} RowsUntilRows(values: seq<SheetRow>, i: nat, stop: SheetRow -> bool, make: SheetRow -> Row)
    ensures i + |RowsUntil(values, i, stop, make)| <= |values| || RowsUntil(values, i, stop, make) == []
    ensures forall k :: i <= k < i + |RowsUntil(values, i, stop, make)| ==>
      !stop(values[k]) && RowsUntil(values, i, stop, make)[k - i] == make(values[k])
    ensures i + |RowsUntil(values, i, stop, make)| >= |values| || stop(values[i + |RowsUntil(values, i, stop, make)|])
    decreases |values| - i
  {
    if !(i >= |values| || stop(values[i])) {
      RowsUntilRows(values, i + 1, stop, make);
      assert RowsUntil(values, i, stop, make) == [make(values[i])] + RowsUntil(values, i + 1, stop, make);
    }
  }

  /** Reading fewer rows gives the start of the same objects, at most one per row read. */
  lemma {:induction false} RowsUntilTake(values: seq<SheetRow>, n: nat, i: nat, stop: SheetRow -> bool, make: SheetRow -> Row)
    requires i <= n <= |values|
    ensures RowsUntil(values[..n], i, stop, make) <= RowsUntil(values, i, stop, make)
    ensures |RowsUntil(values[..n], i, stop, make)| <= n - i
    decreases n - i
  {
    if i < n && !stop(values[i]) {
      assert values[..n][i] == values[i];
      RowsUntilTake(values, n, i + 1, stop, make);
    } else {
      assert RowsUntil(values[..n], i, stop, make) == [];
    }
  }

  // ---- The vesting columns

  /** The number of tracked projects: Hatom, Tap, Peaq, Tars, Tada, CTA, Heurist, Humanity, Giza Seed, Giza Legion, Creatorbid. */
  const ProjectCount := 11

  /** `topPerformers[project]`: the sheet columns B, C, D, E, G, L, O, P, Q, R and S. */
  function ProjectColumn(p: nat): (c: nat)
    requires p < ProjectCount
    ensures 1 <= c <= 18
  {
    if p < 4 then p + 1 else if p == 4 then 6 else if p == 5 then 11 else p + 8
  }

  /** The characters `/[$,\s]/g` removes. */
  const DollarCommaSpace := CharClass({'$', ','}, true)

  /**
   * `numValue` of a vesting cell: an empty cell is 0; other text is read by `parseFloat` once
   * '$', ',' and whitespace are removed, and a text that is not a number gives 0 (`|| 0`).
   */
  function CellValue(text: string): real
  {
    if text == [] then 0.0
    else match ParseFloat(Remove(text, DollarCommaSpace))
      case None => 0.0
      case Some(x) => x
  }

  /** The cumulative amounts of a vesting row, one per project. */
  function ProjectValues(row: SheetRow): (vs: seq<real>)
    ensures |vs| == ProjectCount
    ensures forall p :: 0 <= p < ProjectCount ==> vs[p] == CellValue(CellAt(row, ProjectColumn(p)))
  {
    seq(ProjectCount, p requires 0 <= p < ProjectCount => CellValue(CellAt(row, ProjectColumn(p))))
  }

  /** A cell of a number written with thousands separators reads as that number. */
  lemma CellValueGrouped(n: int)
    ensures CellValue(Grouped(n)) == n as real
  {
    GroupedUngroups(n, DollarCommaSpace);
    ParseFloatIntToString(n, []);
    assert IntToString(n) + [] == IntToString(n);
    assert Grouped(n) != [] by { GroupedChars(n); }
  }
}
