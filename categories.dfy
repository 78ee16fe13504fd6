/**
 * The investment list of one blockchain category in the complete Apps Script: the category's
 * main investment, the names listed under it in the category block, the fund's investments
 * whose names match the category's patterns, then blank names dropped and duplicates removed.
 */
module Categories {
  import opened JsText
  import opened Sheet

  /** No name occurs twice. */
  predicate NoDuplicates(s: seq<string>)
  {
    forall p, q :: 0 <= p < q < |s| ==> s[p] != s[q]
  }

  /** The place where x first occurs in s. */
  function FirstIndex(s: seq<string>, x: string): (k: nat)
    requires x in s
    ensures k < |s| && s[k] == x && x !in s[..k]
  {
    if s[0] == x then 0
    else
      var k := FirstIndex(s[1..], x);
      assert s[..k + 1] == [s[0]] + s[1..][..k];
      k + 1
  }

  /** A name that occurs in the first m names first occurs at the same place in the whole list. */
  lemma FirstIndexPrefix(s: seq<string>, m: nat, x: string)
    requires m <= |s| && x in s[..m]
    ensures FirstIndex(s, x) == FirstIndex(s[..m], x)
  {
    var a, b := FirstIndex(s, x), FirstIndex(s[..m], x);
    assert s[..m][..b] == s[..b];
  }

  /** `.filter(inv => inv && inv.trim() !== '')`: the names that are not blank, in order. */
  function NonBlank(s: seq<string>): (r: seq<string>)
    ensures forall x :: x in r <==> x in s && !Blank(x)
    ensures s != [] && !Blank(s[0]) ==> r != [] && r[0] == s[0]
  {
    if s == [] then [] else (if !Blank(s[0]) then [s[0]] else []) + NonBlank(s[1..])
  }

  /** Filtering a name followed by more names. */
  lemma NonBlankCons(x: string, t: seq<string>)
    ensures NonBlank([x] + t) == (if Blank(x) then [] else [x]) + NonBlank(t)
  {
    assert ([x] + t)[0] == x && ([x] + t)[1..] == t;
  }

  /** Filtering keeps the order: the names of a + b that are kept are those of a, then those of b. */
  lemma {:induction false} NonBlankAppend(a: seq<string>, b: seq<string>)
    ensures NonBlank(a + b) == NonBlank(a) + NonBlank(b)
  {
    if a == [] {
      assert a + b == b;
    } else {
      var x, t := a[0], a[1..];
      var head := if Blank(x) then [] else [x];
      calc {
        NonBlank(a + b);
        { assert a + b == [x] + (t + b); NonBlankCons(x, t + b); }
        head + NonBlank(t + b);
        { NonBlankAppend(t, b); }
        head + (NonBlank(t) + NonBlank(b));
        (head + NonBlank(t)) + NonBlank(b);
        { assert a == [x] + t; NonBlankCons(x, t); }
        NonBlank(a) + NonBlank(b);
      }
    }
  }

  /** `[...new Set(s)]`: each name once, at the place it first occurs. */
  function Dedupe(s: seq<string>): (r: seq<string>)
    ensures forall x :: x in r <==> x in s
    ensures NoDuplicates(r)
    ensures s != [] ==> r != [] && r[0] == s[0]
  {
    if s == [] then []
    else
      var d := Dedupe(s[..|s| - 1]);
      if s[|s| - 1] in d then d else d + [s[|s| - 1]]
  }

  /** `Set` iterates in insertion order: the names come out in the order they first occur. */
  lemma {:induction false} DedupeOrder(s: seq<string>)
    ensures forall p, q :: 0 <= p < q < |Dedupe(s)| ==> FirstIndex(s, Dedupe(s)[p]) < FirstIndex(s, Dedupe(s)[q])
  {
    if s != [] {
      var n := |s| - 1;
      var init := s[..n];
      var d := Dedupe(init);
      DedupeOrder(init);
      var r := Dedupe(s);
      forall p | 0 <= p < |d|
        ensures FirstIndex(s, d[p]) == FirstIndex(init, d[p]) < n
      {
        FirstIndexPrefix(s, n, d[p]);
      }
      forall p, q | 0 <= p < q < |r|
        ensures FirstIndex(s, r[p]) < FirstIndex(s, r[q])
      {
        if s[n] in d {
          assert r == d;
          assert FirstIndex(init, d[p]) < FirstIndex(init, d[q]);
        } else {
          assert r == d + [s[n]] && r[p] == d[p];
          if q < |d| {
            assert r[q] == d[q];
            assert FirstIndex(init, d[p]) < FirstIndex(init, d[q]);
          } else {
            assert r[q] == s[n];
            assert FirstIndex(s, d[p]) < n == FirstIndex(s, s[n]);
          }
        }
      }
    }
  }

  /** A list that has no duplicates already is left as it is. */
  lemma {:induction false} DedupeUnique(s: seq<string>)
    requires NoDuplicates(s)
    ensures Dedupe(s) == s
  {
    if s != [] {
      var init := s[..|s| - 1];
      assert NoDuplicates(init);
      DedupeUnique(init);
      assert s[|s| - 1] !in init;
      assert s == init + [s[|s| - 1]];
    }
  }

  // ---- The names listed under the category in its block

  /** The two cells of a row of `B157:M212` the list is built from, each `toString().trim()`-ed: the category (column B) and the investment (column D). */
  datatype BlockRow = BlockRow(category: string, investment: string)

  function ReadBlockRow(row: SheetRow): BlockRow
  {
    BlockRow(TrimmedAt(row, 0), TrimmedAt(row, 2))
  }

  /** A trimmed cell that is not empty is not blank. */
  lemma TrimmedNotBlank(s: string)
    requires Trim(s) != []
    ensures !Blank(Trim(s))
  {
    assert !IsSpace(Trim(s)[0]);
  }

  /** A row names another category, which ends the block. */
  predicate EndsBlock(row: BlockRow, category: string)
  {
    row.category != [] && row.category != category
  }

  /** A row of the block lists an investment of the category other than the main one. */
  predicate ListsInvestment(row: BlockRow, main: string)
  {
    row.category == [] && row.investment != [] && row.investment != main
  }

  /** The names the `while (currentRow < categoryValues.length)` loop pushes, from row r on. */
  function BlockNames(rows: seq<BlockRow>, r: nat, category: string, main: string): seq<string>
    decreases |rows| - r
  {
    if r >= |rows| || EndsBlock(rows[r], category) then []
    else
      var pushed := if ListsInvestment(rows[r], main) then [rows[r].investment] else [];
      pushed + BlockNames(rows, r + 1, category, main)
  }

  /**
   * A name is pushed by the block scan exactly when some row from r on, before the first row
   * of another category, lists it under no category.
   */
  lemma {:induction false} BlockNamesRows(rows: seq<BlockRow>, r: nat, category: string, main: string, x: string)
    ensures x in BlockNames(rows, r, category, main) <==>
      exists q :: r <= q < |rows| && ListsInvestment(rows[q], main) && rows[q].investment == x
        && forall p :: r <= p <= q ==> !EndsBlock(rows[p], category)
    decreases |rows| - r
  {
    if r < |rows| && !EndsBlock(rows[r], category) {
      BlockNamesRows(rows, r + 1, category, main, x);
      if x in BlockNames(rows, r + 1, category, main) {
        var q :| r + 1 <= q < |rows| && ListsInvestment(rows[q], main) && rows[q].investment == x
          && forall p :: r + 1 <= p <= q ==> !EndsBlock(rows[p], category);
        assert forall p :: r <= p <= q ==> !EndsBlock(rows[p], category);
      }
    }
  }

  // ---- The fallback: the fund's investments that match the category's patterns

  const AiNames: seq<string> := ["Ta-Da", "Tars AI", "Heurist", "Navy AI", "Rainfall", "Oh Dot Xyz",
    "Hybrid", "AI Market Compass", "Inferium", "Dojo", "Aloha", "Datai", "Assisterr", "Creator Bid",
    "Giza Seed", "Giza Legion", "Inference Labs", "Newcoin", "GTV"]
  const DefiNames: seq<string> := ["Hatom", "Seneca", "Risk", "Gasp", "Kebapp", "Chedar", "Soul Protocol"]
  const GamingNames: seq<string> := ["Elixir Gaming", "PixelVerse", "CTA"]
  const BotNames: seq<string> := ["Omnibot", "Magibot", "Tornado Blast"]
  const DepinNames: seq<string> := ["Chirp", "Aethir (Nodes)", "Peaq", "Teneo"]
  const OrdinalNames: seq<string> := ["TAP", "Ordiswap", "Orange", "Ordi Launch", "OrdiBank", "TunaChain",
    "Orange Layer", "Glyph Exchange", "BitLiquidity", "Unitap"]

  /** The lower-cased categories the `switch` has a case for. */
  const PatternCategories: set<string> :=
    {"ai", "defi", "gaming", "bots", "depin", "ordinals", "rwa", "deso", "deid", "security", "meme", "dats"}

  /** `shouldInclude` of the `switch (categoryLower)`; a category without a case includes nothing. */
  predicate ShouldInclude(categoryLower: string, name: string)
  {
    var lower := Lower(name);
    if categoryLower == "ai" then
      Contains(lower, "ai") || Contains(lower, "gpt") || Contains(lower, "neural") || name in AiNames
    else if categoryLower == "defi" then name in DefiNames
    else if categoryLower == "gaming" then Contains(lower, "game") || Contains(lower, "gaming") || name in GamingNames
    else if categoryLower == "bots" then Contains(lower, "bot") || name in BotNames
    else if categoryLower == "depin" then name in DepinNames
    else if categoryLower == "ordinals" then
      Contains(lower, "ord") || Contains(lower, "tap") || Contains(lower, "orange") || name in OrdinalNames
    else if categoryLower == "rwa" then name == "Nayms"
    else if categoryLower == "deso" then name == "Beoble" || name == "Open Social"
    else if categoryLower == "deid" then name == "Humanity"
    else if categoryLower == "security" then name == "Innerworks" || name == "Holonym"
    else if categoryLower == "meme" then name == "Borpa" || name == "MemeFi"
    else if categoryLower == "dats" then name == "Ethereum Global Inc"
    else false
  }

  /** Only the categories of the `switch` pick up investments by pattern. */
  lemma PatternsOnlyListed(categoryLower: string, name: string)
    requires categoryLower !in PatternCategories
    ensures !ShouldInclude(categoryLower, name)
  {
  }

  /**
   * The `investments.forEach` pass: each name not yet in the list that `accepts` holds for is
   * appended, in the order of the investments.
   */
  function AddMatches(list: seq<string>, names: seq<string>, accepts: string -> bool): (r: seq<string>)
    ensures forall x :: x in r <==> x in list || (x in names && accepts(x))
    ensures |list| <= |r| && r[..|list|] == list
    decreases |names|
  {
    if names == [] then list
    else AddMatches(if names[0] !in list && accepts(names[0]) then list + [names[0]] else list, names[1..], accepts)
  }

  /** The names the pass appends are fund investments the test accepts that were not in the list. */
  lemma {:induction false} AddMatchesAppended(list: seq<string>, names: seq<string>, accepts: string -> bool)
    ensures forall p :: |list| <= p < |AddMatches(list, names, accepts)| ==>
      var x := AddMatches(list, names, accepts)[p]; x in names && accepts(x) && x !in list
    decreases |names|
  {
    if names != [] {
      var n0 := names[0];
      var next := if n0 !in list && accepts(n0) then list + [n0] else list;
      AddMatchesAppended(next, names[1..], accepts);
      var r := AddMatches(next, names[1..], accepts);
      assert r == AddMatches(list, names, accepts);
      assert r[..|next|] == next;
      forall p | |list| <= p < |r|
        ensures r[p] in names && accepts(r[p]) && r[p] !in list
      {
        if p >= |next| {
          assert r[p] in names[1..];
        } else {
          assert r[p] == next[p] == n0;
        }
      }
    }
  }

  /** A name after the first that differs from the first occurs one place later than in the tail. */
  lemma FirstIndexTail(s: seq<string>, x: string)
    requires s != [] && x in s[1..] && x != s[0]
    ensures x in s && FirstIndex(s, x) == 1 + FirstIndex(s[1..], x)
  {
    assert s == [s[0]] + s[1..];
  }

  /**
   * Names from place k on that come in order of first occurrence in the tail of `names`, and are
   * not its first name, stay in order in the whole of `names`; so does that first name put just before.
   */
  lemma ShiftOrder(names: seq<string>, r: seq<string>, lo: nat, k: nat)
    requires names != [] && lo <= k <= |r| && k <= lo + 1
    requires k == lo + 1 ==> r[lo] == names[0]
    requires forall p :: k <= p < |r| ==> r[p] in names[1..] && r[p] != names[0]
    requires forall p, q :: k <= p < q < |r| ==> FirstIndex(names[1..], r[p]) < FirstIndex(names[1..], r[q])
    ensures forall p, q :: lo <= p < q < |r| ==>
      r[p] in names && r[q] in names && FirstIndex(names, r[p]) < FirstIndex(names, r[q])
  {
    forall p, q | lo <= p < q < |r|
      ensures r[p] in names && r[q] in names && FirstIndex(names, r[p]) < FirstIndex(names, r[q])
    {
      FirstIndexTail(names, r[q]);
      if p >= k {
        FirstIndexTail(names, r[p]);
      }
    }
  }

  /** The names the pass appends come each once, in the order they first occur among the investments. */
  lemma {:induction false} AddMatchesOrder(list: seq<string>, names: seq<string>, accepts: string -> bool)
    ensures forall p, q :: |list| <= p < q < |AddMatches(list, names, accepts)| ==>
      AddMatches(list, names, accepts)[p] in names && AddMatches(list, names, accepts)[q] in names &&
      FirstIndex(names, AddMatches(list, names, accepts)[p]) < FirstIndex(names, AddMatches(list, names, accepts)[q])
    decreases |names|
  {
    if names != [] {
      var n0 := names[0];
      var next := if n0 !in list && accepts(n0) then list + [n0] else list;
      AddMatchesOrder(next, names[1..], accepts);
      AddMatchesAppended(next, names[1..], accepts);
      var r := AddMatches(next, names[1..], accepts);
      assert r == AddMatches(list, names, accepts);
      assert r[..|next|] == next;
      forall p | |next| <= p < |r|
        ensures r[p] in names[1..] && r[p] != n0
      {
        assert accepts(r[p]) && r[p] !in next;
      }
      ShiftOrder(names, r, |list|, |next|);
    } else {
      assert AddMatches(list, names, accepts) == list;
    }
  }

  /** The `forEach` loop of that pass. */
  method AddMatching(list: seq<string>, names: seq<string>, accepts: string -> bool) returns (r: seq<string>)
    ensures r == AddMatches(list, names, accepts)
  {
    r := list;
    var k := 0;
    while k < |names|
      invariant 0 <= k <= |names|
      invariant AddMatches(r, names[k..], accepts) == AddMatches(list, names, accepts)
    {
      var name := names[k];
      if name !in r && accepts(name) {
        r := r + [name];
      }
      assert names[k..][1..] == names[k + 1..];
      k := k + 1;
    }
    assert names[k..] == [];
  }

  // ---- The whole list

  /** The list before blank names and duplicates are dropped: the main investment, then the block's names. */
  function Listed(rows: seq<BlockRow>, i: nat): seq<string>
    requires i < |rows|
  {
    var main := rows[i].investment;
    (if main != [] then [main] else []) + BlockNames(rows, i + 1, rows[i].category, main)
  }

  /**
   * `uniqueInvestments` of the category row i of the block, given the names of the fund's
   * investments.
   */
  method CategoryInvestments(rows: seq<BlockRow>, i: nat, names: seq<string>) returns (unique: seq<string>)
    requires i < |rows|
    ensures unique == Dedupe(NonBlank(AddMatches(Listed(rows, i), names, n => ShouldInclude(Lower(rows[i].category), n))))
  {
    var category := rows[i].category;
    var main := rows[i].investment;
    var list: seq<string> := [];
    if main != [] {
      list := list + [main];
    }
    ghost var start := list;
    var currentRow := i + 1;
    while currentRow < |rows|
      invariant i + 1 <= currentRow
      invariant list + BlockNames(rows, currentRow, category, main) == start + BlockNames(rows, i + 1, category, main)
      decreases |rows| - currentRow
    {
      var nextRow := rows[currentRow];
      if EndsBlock(nextRow, category) {
        assert BlockNames(rows, currentRow, category, main) == [];
        break;
      }
      if ListsInvestment(nextRow, main) {
        list := list + [nextRow.investment];
      }
      currentRow := currentRow + 1;
    }
    assert BlockNames(rows, currentRow, category, main) == [] && list + [] == list;
    assert list == Listed(rows, i);
    var categoryLower := Lower(category);
    list := AddMatching(list, names, n => ShouldInclude(categoryLower, n));
    unique := Dedupe(NonBlank(list));
  }

  /**
   * The list of a category, whatever test picks the fund's investments: the main investment
   * comes first when it is not blank (a trimmed cell never is); no name is blank or listed
   * twice; and a name is listed exactly when it is not blank and is the main investment, one
   * of the block's names or a fund investment the test accepts.
   */
  lemma CategoryList(rows: seq<BlockRow>, i: nat, names: seq<string>, accepts: string -> bool, x: string)
    requires i < |rows|
    ensures var main := rows[i].investment;
      var unique := Dedupe(NonBlank(AddMatches(Listed(rows, i), names, accepts)));
      NoDuplicates(unique) && (forall y :: y in unique ==> !Blank(y))
      && (!Blank(main) ==> unique != [] && unique[0] == main)
      && (x in unique <==> !Blank(x) && (x == main || x in BlockNames(rows, i + 1, rows[i].category, main)
                                          || (x in names && accepts(x))))
  {
    var main := rows[i].investment;
    var start := Listed(rows, i);
    var all := AddMatches(start, names, accepts);
    if !Blank(main) {
      assert main != [];
      assert all[..|start|] == start;
      assert all[0] == main;
    }
  }

  /**
   * The list of a category keeps the order of the list it is built from: each name at the place
   * where it first occurs among the main investment, the block's names and the pattern matches.
   */
  lemma CategoryOrder(rows: seq<BlockRow>, i: nat, names: seq<string>, accepts: string -> bool)
    requires i < |rows|
    ensures var built := NonBlank(AddMatches(Listed(rows, i), names, accepts));
      var unique := Dedupe(built);
      forall p, q :: 0 <= p < q < |unique| ==> FirstIndex(built, unique[p]) < FirstIndex(built, unique[q])
  {
    DedupeOrder(NonBlank(AddMatches(Listed(rows, i), names, accepts)));
  }
}
