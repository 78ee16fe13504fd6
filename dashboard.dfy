/**
 * The investment table of the dashboard (app/page.tsx): the sort key
 * `parseNumberLike`, the cell formatter `formatCell` and the column formatters
 * for currency, percentages, ROI multiples, prices and unlock columns.
 * Every formatter takes the sheet's text of a cell; `undefined` and `null` are
 * modelled as the empty text, which each of them treats like them.
 */
module Dashboard {
  import opened JsText
  import opened JsNumbers
  import opened JsParse

  // ---- Character classes and cleaning steps shared by the formatters

  /** `/\s/g` */
  const Spaces := CharClass({}, true)
  /** `/[$,]/g` */
  const DollarComma := CharClass({'$', ','}, false)
  /** `/[,\s]/g` */
  const CommaSpace := CharClass({','}, true)
  /** `/[()]/g` */
  const Parens := CharClass({'(', ')'}, false)

  /** `value.replace(/^\$/, '')` */
  function DropDollar(s: string): string
  {
    if |s| > 0 && s[0] == '$' then s[1..] else s
  }

  /** The amount the currency formatters read: `parseFloat(value.replace(/^\$/, '').replace(/[,\s]/g, ''))`. */
  function Amount(value: string): Option<real>
  {
    ParseFloat(Remove(DropDollar(value), CommaSpace))
  }

  /** `Math.floor` */
  function Floor(x: real): int { x.Floor }

  // ---- parseNumberLike: the key the numeric columns sort by

  /** `Number.NEGATIVE_INFINITY`, `NaN` or a finite number. */
  datatype SortValue = NegInf | NaN | Finite(v: real)

  predicate IsWordChar(c: char) { IsAsciiLetter(c) || c == '/' || c == ' ' || c == '-' }

  /** `/^[a-zA-Z/ -]+$/.test(s)` */
  predicate IsWordLike(s: string)
  {
    |s| >= 1 && forall k :: 0 <= k < |s| ==> IsWordChar(s[k])
  }

  /** `/^-?\d+(\.\d+)?x$/i.test(s)` */
  predicate IsMultiple(s: string)
  {
    |s| >= 1 && (s[|s| - 1] == 'x' || s[|s| - 1] == 'X') && IsPlainDecimal(s[..|s| - 1])
  }

  /** `/^-?\d+(\.\d+)?%$/.test(s)` */
  predicate IsPercent(s: string)
  {
    |s| >= 1 && s[|s| - 1] == '%' && IsPlainDecimal(s[..|s| - 1])
  }

  /** `/^\(.*\)$/.test(s)` on text without line terminators (all of them were removed as whitespace). */
  predicate IsParenthesized(s: string)
  {
    |s| >= 2 && s[0] == '(' && s[|s| - 1] == ')'
  }

  /** `s0.replace(/\s/g, '').replace(/[$,]/g, '')` */
  function Cleaned(s0: string): string
  {
    Remove(Remove(s0, Spaces), DollarComma)
  }

  /** The key of a cleaned text: a multiple, a percentage, a parenthesised negative or a plain number. */
  function KeyOf(s: string): SortValue
  {
    if IsMultiple(s) || IsPercent(s) then
      match NumberOf(s[..|s| - 1])
      case None => NaN
      case Some(n) => Finite(n)
    else if IsParenthesized(s) then
      match NumberOf(Remove(s, Parens))
      case None => NaN
      case Some(n) => Finite(-n)
    else
      match NumberOf(s)
      case None => NegInf
      case Some(n) => Finite(n)
  }

  /** `parseNumberLike(v)` */
  function ParseNumberLike(v: string): SortValue
  {
    if v == [] then NegInf
    else if IsWordLike(Trim(v)) then NegInf
    else KeyOf(Cleaned(Trim(v)))
  }

  /** Text made of letters, '/', '-' and spaces, with at least one character that is not a space, sorts last. */
  lemma ParseNumberLikeWords(v: string, i: nat)
    requires i < |v| && !IsSpace(v[i])
    requires forall k :: 0 <= k < |v| ==> IsWordChar(v[k])
    ensures ParseNumberLike(v) == NegInf
  {
    TrimBlank(v);
    var d := TrimOffset(v);
    var t := Trim(v);
    assert |t| >= 1;
    forall k | 0 <= k < |t| ensures IsWordChar(t[k]) {
      assert t[k] == v[d + k];
    }
  }

  /** Blank text is `Number('') == 0`, not -Infinity: the word pattern needs at least one character. */
  lemma ParseNumberLikeBlank(v: string)
    requires |v| >= 1 && forall k :: 0 <= k < |v| ==> IsSpace(v[k])
    ensures ParseNumberLike(v) == Finite(0.0)
  {
    TrimBlank(v);
    assert Cleaned(Trim(v)) == [];
  }

  /** Text whose ends are not whitespace and that has a character outside the word pattern gets the key of its cleaned form. */
  lemma ParseNumberLikeText(v: string, i: nat)
    requires i < |v| && !IsWordChar(v[i])
    requires !IsSpace(v[0]) && !IsSpace(v[|v| - 1])
    ensures ParseNumberLike(v) == KeyOf(Cleaned(v))
  {
    TrimUnchanged(v);
  }

  /** Text free of whitespace, '$' and ',' is its own cleaned form. */
  lemma CleanedKeeps(v: string)
    requires forall k :: 0 <= k < |v| ==> !IsSpace(v[k]) && v[k] != '$' && v[k] != ','
    ensures Cleaned(v) == v
  {
    RemoveNone(v, Spaces);
    RemoveNone(v, DollarComma);
  }

  /** Every character of a plain decimal survives the cleaning. */
  lemma PlainKept(s: string)
    requires IsPlainDecimal(s)
    ensures forall k :: 0 <= k < |s| ==> !IsSpace(s[k]) && s[k] != '$' && s[k] != ','
    ensures forall k :: 0 <= k < |s| ==> !InClass(s[k], Parens) && !InClass(s[k], Commas) && !InClass(s[k], CommaSpace)
  {
    PlainDecimalShape(s);
  }

  /** A plain decimal is read as its value. */
  lemma KeyOfPlain(s: string)
    requires IsPlainDecimal(s)
    ensures KeyOf(s) == Finite(PlainDecimalValue(s))
  {
    PlainDecimalShape(s);
    NumberOfPlain(s);
  }

  /** A plain decimal followed by 'x', 'X' or '%' is read as the decimal's value. */
  lemma KeyOfSuffix(s: string, c: char)
    requires IsPlainDecimal(s) && (c == 'x' || c == 'X' || c == '%')
    ensures KeyOf(s + [c]) == Finite(PlainDecimalValue(s))
  {
    var t := s + [c];
    assert t[..|t| - 1] == s;
    NumberOfPlain(s);
  }

  /** `replace(/[()]/g, '')` takes off the surrounding parentheses. */
  lemma RemoveParens(s: string)
    requires forall k :: 0 <= k < |s| ==> !InClass(s[k], Parens)
    ensures Remove(['('] + s + [')'], Parens) == s
  {
    RemoveNone(s, Parens);
    RemoveSnoc(['('] + s, ')', Parens);
    RemoveDropped('(', s, Parens);
  }

  /** A parenthesised plain decimal is read as the negated value. */
  lemma KeyOfParens(s: string)
    requires IsPlainDecimal(s)
    ensures KeyOf(['('] + s + [')']) == Finite(-PlainDecimalValue(s))
  {
    var t := ['('] + s + [')'];
    PlainKept(s);
    RemoveParens(s);
    assert t[|t| - 1] == ')';
    NumberOfPlain(s);
  }

  /** A plain decimal as a cell sorts by its value. */
  lemma ParseNumberLikePlain(s: string)
    requires IsPlainDecimal(s)
    ensures ParseNumberLike(s) == Finite(PlainDecimalValue(s))
  {
    PlainDecimalShape(s);
    PlainDecimalEnds(s);
    var p := if s[0] == '-' then 1 else 0;
    ParseNumberLikeText(s, p);
    PlainKept(s);
    CleanedKeeps(s);
    KeyOfPlain(s);
  }

  /** "1.42x", "1.42X" and "61.4%" sort by 1.42 and 61.4. */
  lemma ParseNumberLikeSuffix(s: string, c: char)
    requires IsPlainDecimal(s) && (c == 'x' || c == 'X' || c == '%')
    ensures ParseNumberLike(s + [c]) == Finite(PlainDecimalValue(s))
  {
    var t := s + [c];
    PlainDecimalShape(s);
    PlainDecimalEnds(s);
    var p := if s[0] == '-' then 1 else 0;
    assert t[p] == s[p] && t[0] == s[0];
    ParseNumberLikeText(t, p);
    PlainKept(s);
    assert forall k :: 0 <= k < |t| ==> t[k] == if k < |s| then s[k] else c;
    CleanedKeeps(t);
    KeyOfSuffix(s, c);
  }

  /** "(12.5)" sorts by -12.5. */
  lemma ParseNumberLikeParens(s: string)
    requires IsPlainDecimal(s)
    ensures ParseNumberLike(['('] + s + [')']) == Finite(-PlainDecimalValue(s))
  {
    var t := ['('] + s + [')'];
    PlainKept(s);
    ParenthesesKept(s);
    ParseNumberLikeText(t, 0);
    CleanedKeeps(t);
    KeyOfParens(s);
  }

  /** Parentheses around text that survives the cleaning survive it too. */
  lemma ParenthesesKept(s: string)
    requires forall k :: 0 <= k < |s| ==> !IsSpace(s[k]) && s[k] != '$' && s[k] != ','
    ensures var t := ['('] + s + [')'];
      t[0] == '(' && t[|t| - 1] == ')' && forall k :: 0 <= k < |t| ==> !IsSpace(t[k]) && t[k] != '$' && t[k] != ','
  {
    var t := ['('] + s + [')'];
    forall k | 0 <= k < |t| ensures !IsSpace(t[k]) && t[k] != '$' && t[k] != ',' {
      if 0 < k <= |s| { assert t[k] == s[k - 1]; }
    }
  }

  /** A parenthesised word is NaN: `-Number('abc')`. */
  lemma ParseNumberLikeParenWord(w: string)
    requires |w| >= 1 && forall k :: 0 <= k < |w| ==> IsAsciiLetter(w[k])
    ensures ParseNumberLike(['('] + w + [')']) == NaN
  {
    var t := ['('] + w + [')'];
    assert forall k :: 0 <= k < |w| ==> !IsSpace(w[k]) && w[k] != '$' && w[k] != ',' by {
      forall k | 0 <= k < |w| ensures !IsSpace(w[k]) && w[k] != '$' && w[k] != ',' { assert IsAsciiLetter(w[k]); }
    }
    ParenthesesKept(w);
    ParseNumberLikeText(t, 0);
    CleanedKeeps(t);
    KeyOfParenWord(w);
  }

  lemma KeyOfParenWord(w: string)
    requires |w| >= 1 && forall k :: 0 <= k < |w| ==> IsAsciiLetter(w[k])
    ensures KeyOf(['('] + w + [')']) == NaN
  {
    var t := ['('] + w + [')'];
    forall k | 0 <= k < |w| ensures !InClass(w[k], Parens) { assert IsAsciiLetter(w[k]); }
    RemoveParens(w);
    assert t[|t| - 1] == ')';
    NumberOfWord(w);
  }

  /** `Number` of a word is NaN. */
  lemma NumberOfWord(w: string)
    requires |w| >= 1 && forall k :: 0 <= k < |w| ==> IsAsciiLetter(w[k])
    ensures NumberOf(w) == None
  {
    assert IsAsciiLetter(w[0]) && IsAsciiLetter(w[|w| - 1]);
    assert SpaceEnd(w, 0) == 0;
    assert SpaceBack(w, 0, |w|) == |w|;
    assert DigitEnd(w, 0) == 0;
  }

  /** NaN only comes from parenthesised text. */
  lemma ParseNumberLikeNaN(v: string)
    requires ParseNumberLike(v) == NaN
    ensures IsParenthesized(Cleaned(Trim(v)))
  {
    KeyOfNaN(Cleaned(Trim(v)));
  }

  lemma KeyOfNaN(s: string)
    requires KeyOf(s) == NaN
    ensures IsParenthesized(s)
  {
    if IsMultiple(s) || IsPercent(s) {
      NumberOfPlain(s[..|s| - 1]);
    }
  }

  /** The dollar text the currency formatters print sorts by its integer: `"$" + n.toLocaleString()`. */
  lemma ParseNumberLikeCurrency(n: int)
    ensures ParseNumberLike("$" + Grouped(n)) == Finite(n as real)
  {
    var t := "$" + Grouped(n);
    DollarGroupedShape(n);
    ParseNumberLikeText(t, 0);
    DollarGroupedCleaned(n);
    IntToStringText(n);
    var m := if n < 0 then -n else n;
    TextIsPlainDecimal(n < 0, NatToString(m), "");
    KeyOfPlain(IntToString(n));
  }

  /** `"$" + n.toLocaleString()` starts with '$', ends in a digit and holds no whitespace. */
  lemma DollarGroupedShape(n: int)
    ensures var t := "$" + Grouped(n);
      t[0] == '$' && IsDigit(t[|t| - 1]) && forall k :: 0 <= k < |t| ==> !InClass(t[k], Spaces)
  {
    var g := Grouped(n);
    var t := "$" + g;
    GroupedChars(n);
    forall k | 0 <= k < |t| ensures !InClass(t[k], Spaces) {
      if k > 0 { NumeralNotSpace(g[k - 1]); }
    }
    assert t[|t| - 1] == g[|g| - 1];
  }

  lemma NumeralNotSpace(c: char)
    requires IsDigit(c) || c == ',' || c == '-' || c == '.'
    ensures !IsSpace(c) && !InClass(c, Spaces)
  {
  }

  /** Cleaning `"$" + n.toLocaleString()` gives `String(n)`. */
  lemma DollarGroupedCleaned(n: int)
    ensures Cleaned("$" + Grouped(n)) == IntToString(n)
  {
    var g := Grouped(n);
    var t := "$" + g;
    DollarGroupedShape(n);
    RemoveNone(t, Spaces);
    assert t == ['$'] + g;
    RemoveDropped('$', g, DollarComma);
    GroupedUngroups(n, DollarComma);
  }

  /** The text of `x.toFixed(f)` followed by nothing, 'x', 'X' or '%' sorts by the printed value. */
  lemma ParseNumberLikeFixed(x: real, f: nat, suffix: string)
    requires suffix == [] || suffix == "x" || suffix == "X" || suffix == "%"
    ensures ParseNumberLike(ToFixed(x, f) + suffix) == Finite(FixedValue(x, f))
  {
    var q := ScaledRound(Abs(x), f);
    var parts := FixedParts(q, f);
    ToFixedValue(x, f);
    TextIsPlainDecimal(x < 0.0, parts.0, parts.1);
    var s := ToFixed(x, f);
    if suffix == [] {
      assert s + suffix == s;
      ParseNumberLikePlain(s);
    } else {
      assert suffix == [suffix[0]];
      ParseNumberLikeSuffix(s, suffix[0]);
    }
  }

  // ---- The texts the formatters treat as "no value"

  /** `''`, `'-'` and `'/'` are not numbers, however they are cleaned first. */
  lemma SentinelsNotNumbers(v: string)
    requires v == [] || v == "-" || v == "/"
    ensures ParseFloat(v) == None && Amount(v) == None
    ensures ParseFloat(Remove(v, DollarComma)) == None
    ensures ParseFloat(ReplaceFirst(ReplaceFirst(v, 'x'), 'X')) == None
    ensures ParseFloat(StripX(v)) == None
  {
    if v == [] {
      assert DigitEnd(v, 0) == 0;
    } else {
      SignNotNumber(v);
    }
  }

  lemma SignNotNumber(v: string)
    requires |v| == 1 && (v[0] == '-' || v[0] == '/')
    ensures ParseFloat(v) == None && Amount(v) == None
    ensures ParseFloat(Remove(v, DollarComma)) == None
    ensures ParseFloat(ReplaceFirst(ReplaceFirst(v, 'x'), 'X')) == None
    ensures ParseFloat(StripX(v)) == None
  {
    assert DropDollar(v) == v && StripX(v) == v;
    RemoveNone(v, CommaSpace);
    RemoveNone(v, DollarComma);
    ParseFloatOneChar(v);
  }

  // ---- formatCurrencyClean: dollar amounts in thousands

  /** `'$' + n.toLocaleString()`, where NaN prints as "NaN". */
  function DollarText(n: Option<int>): string
  {
    match n
    case None => "$NaN"
    case Some(i) => "$" + Grouped(i)
  }

  /** What formatCurrencyClean prints for `n = Math.floor(number)`: `parseInt` of `String(n)` without its last three characters. */
  function Truncated(n: int): Option<int>
  {
    var numberStr := IntToString(n);
    if |numberStr| > 3 then ParseInt(numberStr[..|numberStr| - 3]) else Some(n)
  }

  /** `formatCurrencyClean(value)` as written. */
  function FormatCurrencyClean(value: string): string
  {
    if value == [] || value == "-" then "-"
    else match Amount(value)
      case None => value
      case Some(x) => DollarText(Truncated(Floor(x)))
  }

  /** The figure without its last three digits, with the sign kept apart from the digits. */
  function Thousands(n: int): int
  {
    if n >= 1000 then n / 1000 else if n <= -1000 then -((-n) / 1000) else n
  }

  /** `formatCurrencyClean(value)` with the last three digits cut from the magnitude only. */
  function FormatCurrencyCleanFixed(value: string): string
  {
    if value == [] || value == "-" then "-"
    else match Amount(value)
      case None => value
      case Some(x) => "$" + Grouped(Thousands(Floor(x)))
  }

  /** Cutting three characters off `String(n)` leaves no digit exactly when -999 <= n <= -100; otherwise it is `Thousands(n)`. */
  lemma TruncatedNaN(n: int)
    ensures Truncated(n).None? <==> -1000 < n < -99
    ensures Truncated(n).Some? ==> Truncated(n) == Some(Thousands(n))
  {
    var m := if n < 0 then -n else n;
    var ds := NatToString(m);
    NatToStringShort(m);
    NatToStringTwo(m);
    if n >= 1000 {
      NatToStringThousands(m);
      ParseIntNat(m / 1000);
    } else if n <= -1000 {
      NatToStringThousands(m);
      var str := "-" + ds;
      assert str[..|str| - 3] == "-" + ds[..|ds| - 3];
      ParseIntNeg(m / 1000);
    } else if n < -99 {
      var str := "-" + ds;
      assert str[..|str| - 3] == ['-'];
      ParseIntSignOnly('-');
    }
  }

  /** `Thousands(n)` is `String(n)` without its last three digits, for |n| >= 1000. */
  lemma ThousandsDigits(n: int)
    requires n >= 1000 || n <= -1000
    ensures |IntToString(n)| > 3 && IntToString(Thousands(n)) == IntToString(n)[..|IntToString(n)| - 3]
  {
    var m := if n < 0 then -n else n;
    NatToStringThousands(m);
    if n < 0 {
      var str := "-" + NatToString(m);
      assert str[..|str| - 3] == "-" + NatToString(m)[..|NatToString(m)| - 3];
    }
  }

  /** The written and the corrected formatter differ only for amounts whose floor is in [-999, -100]. */
  lemma CurrencyCleanAgrees(value: string)
    requires Amount(value).Some? ==> !(-1000 < Floor(Amount(value).value) < -99)
    ensures FormatCurrencyClean(value) == FormatCurrencyCleanFixed(value)
  {
    if Amount(value).Some? {
      TruncatedNaN(Floor(Amount(value).value));
    }
  }

  /** For those amounts the written formatter prints "$NaN" and the corrected one the amount itself. */
  lemma CurrencyCleanNaN(value: string)
    requires Amount(value).Some? && -1000 < Floor(Amount(value).value) < -99
    ensures FormatCurrencyClean(value) == "$NaN"
    ensures FormatCurrencyCleanFixed(value) == "$" + Grouped(Floor(Amount(value).value))
  {
    AmountNotSentinel(value);
    TruncatedNaN(Floor(Amount(value).value));
  }

  /** "-500" is such a value: formatCurrencyClean("-500") is "$NaN". */
  lemma CurrencyCleanNaNExample(m: nat)
    requires 100 <= m <= 999
    ensures FormatCurrencyClean(IntToString(-(m as int))) == "$NaN"
  {
    AmountOfIntToString(-(m as int));
    CurrencyCleanNaN(IntToString(-(m as int)));
  }

  /** The corrected formatter prints the amount in thousands, which reads back as that figure. */
  lemma CurrencyCleanFixedShown(value: string)
    requires Amount(value).Some?
    ensures FormatCurrencyCleanFixed(value) == "$" + Grouped(Thousands(Floor(Amount(value).value)))
    ensures ParseNumberLike(FormatCurrencyCleanFixed(value)) == Finite(Thousands(Floor(Amount(value).value)) as real)
  {
    AmountNotSentinel(value);
    ParseNumberLikeCurrency(Thousands(Floor(Amount(value).value)));
  }

  lemma AmountNotSentinel(value: string)
    ensures Amount(value).Some? ==> value != [] && value != "-"
  {
    if value == [] || value == "-" {
      SentinelsNotNumbers(value);
    }
  }

  /** The currency formatters read `String(n)` as n. */
  lemma AmountOfIntToString(n: int)
    ensures Amount(IntToString(n)) == Some(n as real)
  {
    var t := IntToString(n);
    IntToStringText(n);
    var m := if n < 0 then -n else n;
    TextChars(n < 0, NatToString(m), "");
    assert DropDollar(t) == t;
    forall k | 0 <= k < |t| ensures !InClass(t[k], CommaSpace) { NumeralNotSpace(t[k]); }
    RemoveNone(t, CommaSpace);
    assert t + [] == t;
    ParseFloatIntToString(n, []);
  }

  /** The currency formatters read their own output `"$" + n.toLocaleString()` as n. */
  lemma AmountOfDollarText(n: int)
    ensures Amount("$" + Grouped(n)) == Some(n as real)
  {
    var g := Grouped(n);
    assert DropDollar("$" + g) == g;
    GroupedUngroups(n, CommaSpace);
    assert IntToString(n) + [] == IntToString(n);
    ParseFloatIntToString(n, []);
  }

  // ---- formatTokensReceived: whole dollars

  /** `formatTokensReceived(value)` of the table page */
  function FormatTokensReceived(value: string): string
  {
    if value == [] || value == "-" then "-"
    else match Amount(value)
      case None => value
      case Some(x) => "$" + Grouped(Floor(x))
  }

  /** A text that reads as the amount x is shown as the whole dollars of x. */
  lemma TokensReceivedOfAmount(value: string, x: real)
    requires Amount(value) == Some(x)
    ensures FormatTokensReceived(value) == "$" + Grouped(Floor(x))
  {
    AmountNotSentinel(value);
  }

  /** An amount is shown as its whole dollars, which is also the key the column sorts by. */
  lemma TokensReceivedShown(value: string)
    requires Amount(value).Some?
    ensures FormatTokensReceived(value) == "$" + Grouped(Floor(Amount(value).value))
    ensures ParseNumberLike(FormatTokensReceived(value)) == Finite(Floor(Amount(value).value) as real)
  {
    AmountNotSentinel(value);
    ParseNumberLikeCurrency(Floor(Amount(value).value));
  }

  /** Formatting twice is formatting once. */
  lemma TokensReceivedIdempotent(value: string)
    ensures FormatTokensReceived(FormatTokensReceived(value)) == FormatTokensReceived(value)
  {
    if value != [] && value != "-" && Amount(value).Some? {
      AmountOfDollarText(Floor(Amount(value).value));
    }
  }

  // ---- formatPercentage, formatROI, formatTokensROI, formatPrice

  /** `formatPercentage(value)`: a fraction shown as a percentage with one decimal. */
  function FormatPercentage(value: string): string
  {
    if value == [] || value == "-" then "-"
    else match ParseFloat(value)
      case None => value
      case Some(x) => ToFixed(x * 100.0, 1) + "%"
  }

  /** The percentage shown is within 0.05 of 100 x, reads back as that figure and sorts by it. */
  lemma PercentageShown(value: string, x: real)
    requires ParseFloat(value) == Some(x)
    ensures FormatPercentage(value) == ToFixed(x * 100.0, 1) + "%"
    ensures ParseFloat(FormatPercentage(value)) == Some(FixedValue(x * 100.0, 1))
    ensures Abs(FixedValue(x * 100.0, 1) - x * 100.0) * 10.0 <= 0.5
    ensures ParseNumberLike(FormatPercentage(value)) == Finite(FixedValue(x * 100.0, 1))
  {
    ParseFloatNotSentinel(value);
    PercentText(x * 100.0);
  }

  lemma PercentText(y: real)
    ensures ParseFloat(ToFixed(y, 1) + "%") == Some(FixedValue(y, 1))
    ensures Abs(FixedValue(y, 1) - y) * 10.0 <= 0.5
    ensures ParseNumberLike(ToFixed(y, 1) + "%") == Finite(FixedValue(y, 1))
  {
    ParseFloatToFixed(y, 1, "%");
    CloseTenths(y);
    ParseNumberLikeFixed(y, 1, "%");
  }

  lemma ParseFloatNotSentinel(v: string)
    ensures ParseFloat(v).Some? ==> v != [] && v != "-" && v != "/"
  {
    if v == [] || v == "-" || v == "/" {
      SentinelsNotNumbers(v);
    }
  }

  /** `value.replace('x', '').replace('X', '')` */
  function ROIClean(value: string): string
  {
    ReplaceFirst(ReplaceFirst(value, 'x'), 'X')
  }

  /** `formatROI(value)`: a multiple with two decimals. */
  function FormatROI(value: string): string
  {
    if value == [] || value == "-" then "-"
    else match ParseFloat(ROIClean(value))
      case None => value
      case Some(x) => ToFixed(x, 2) + "x"
  }

  /** `value.replace(/x$/i, '')` */
  function StripX(value: string): string
  {
    if |value| > 0 && (value[|value| - 1] == 'x' || value[|value| - 1] == 'X') then value[..|value| - 1] else value
  }

  /** `formatTokensROI(value)`: a multiple with two decimals, after a trailing x is dropped. */
  function FormatTokensROI(value: string): string
  {
    if value == [] || value == "-" then "-"
    else match ParseFloat(StripX(value))
      case None => value
      case Some(x) => ToFixed(x, 2) + "x"
  }

  /** The rounded value is not a negative zero, which `toFixed` prints as "-0.00" and reads back as 0. */
  predicate NotNegativeZero(n: Option<real>, f: nat)
  {
    n.None? || n.value >= 0.0 || FixedValue(n.value, f) != 0.0
  }

  /** `x.toFixed(1)`, `x.toFixed(2)` and `x.toFixed(3)` are within half a unit of their last digit. */
  lemma CloseTenths(x: real)
    ensures Abs(FixedValue(x, 1) - x) * 10.0 <= 0.5
  {
    FixedValueClose(x, 1);
    Pow10Small();
  }

  lemma CloseHundredths(x: real)
    ensures Abs(FixedValue(x, 2) - x) * 100.0 <= 0.5
  {
    FixedValueClose(x, 2);
    Pow10Small();
  }

  lemma CloseThousandths(x: real)
    ensures Abs(FixedValue(x, 3) - x) * 1000.0 <= 0.5
  {
    FixedValueClose(x, 3);
    Pow10Small();
  }

  /** The multiples of both ROI formatters: within 0.005 of the value, read back and sorted by. */
  lemma MultipleShown(x: real)
    ensures ParseFloat(ToFixed(x, 2) + "x") == Some(FixedValue(x, 2))
    ensures Abs(FixedValue(x, 2) - x) * 100.0 <= 0.5
    ensures ParseNumberLike(ToFixed(x, 2) + "x") == Finite(FixedValue(x, 2))
  {
    ParseFloatToFixed(x, 2, "x");
    CloseHundredths(x);
    ParseNumberLikeFixed(x, 2, "x");
  }

  /**
   * formatROI of a readable value x prints x to two decimals and 'x': within 0.005 of x, read
   * back by formatROI's own cleaning as the rounded value, and sorted by that value.
   */
  lemma ROIShown(value: string)
    requires ParseFloat(ROIClean(value)).Some?
    ensures var x := ParseFloat(ROIClean(value)).value;
      FormatROI(value) == ToFixed(x, 2) + "x"
      && ParseFloat(ROIClean(FormatROI(value))) == Some(FixedValue(x, 2))
      && Abs(FixedValue(x, 2) - x) * 100.0 <= 0.5
      && ParseNumberLike(FormatROI(value)) == Finite(FixedValue(x, 2))
  {
    if value == [] || value == "-" { SentinelsNotNumbers(value); }
    var x := ParseFloat(ROIClean(value)).value;
    MultipleShown(x);
    MultipleCleaned(x);
  }

  /**
   * formatTokensROI of a readable value x prints x to two decimals and 'x': within 0.005 of x,
   * read back by formatTokensROI's own cleaning as the rounded value, and sorted by that value.
   */
  lemma TokensROIShown(value: string)
    requires ParseFloat(StripX(value)).Some?
    ensures var x := ParseFloat(StripX(value)).value;
      FormatTokensROI(value) == ToFixed(x, 2) + "x"
      && ParseFloat(StripX(FormatTokensROI(value))) == Some(FixedValue(x, 2))
      && Abs(FixedValue(x, 2) - x) * 100.0 <= 0.5
      && ParseNumberLike(FormatTokensROI(value)) == Finite(FixedValue(x, 2))
  {
    if value == [] || value == "-" { SentinelsNotNumbers(value); }
    var x := ParseFloat(StripX(value)).value;
    MultipleShown(x);
    MultipleCleaned(x);
  }

  /** The text of a multiple, without its 'x', is the `toFixed` text, which reads back as the rounded value. */
  lemma MultipleCleaned(x: real)
    ensures ROIClean(ToFixed(x, 2) + "x") == ToFixed(x, 2)
    ensures StripX(ToFixed(x, 2) + "x") == ToFixed(x, 2)
    ensures ParseFloat(ToFixed(x, 2)) == Some(FixedValue(x, 2))
  {
    var t := ToFixed(x, 2);
    ToFixedChars(x, 2);
    assert 'x' !in t && 'X' !in t;
    assert t + "x" == t + ['x'];
    ReplaceFirstLast(t, 'x');
    assert t + [] == t;
    ParseFloatToFixed(x, 2, []);
  }

  /** Formatting a multiple twice is formatting it once, unless it rounds to a negative zero. */
  lemma ROIIdempotent(value: string)
    requires NotNegativeZero(ParseFloat(ROIClean(value)), 2)
    ensures FormatROI(FormatROI(value)) == FormatROI(value)
  {
    if value != [] && value != "-" && ParseFloat(ROIClean(value)).Some? {
      var x := ParseFloat(ROIClean(value)).value;
      MultipleCleaned(x);
      ToFixedStable(x, 2);
    }
  }

  lemma TokensROIIdempotent(value: string)
    requires NotNegativeZero(ParseFloat(StripX(value)), 2)
    ensures FormatTokensROI(FormatTokensROI(value)) == FormatTokensROI(value)
  {
    if value != [] && value != "-" && ParseFloat(StripX(value)).Some? {
      var x := ParseFloat(StripX(value)).value;
      MultipleCleaned(x);
      ToFixedStable(x, 2);
    }
  }

  /** A value of (-0.005, 0) is shown as "-0.00x", and formatting that again gives "0.00x". */
  lemma ROINegativeZero(x: real)
    requires -0.005 < x < 0.0
    ensures FixedValue(x, 2) == 0.0
    ensures ToFixed(x, 2)[0] == '-' && ToFixed(FixedValue(x, 2), 2)[0] != '-'
  {
    assert ScaledRound(Abs(x), 2) == 0;
    assert ScaledRound(Abs(0.0), 2) == 0;
    FixedPartsDigits(0, 2);
    assert IsDigit(FixedParts(0, 2).0[0]);
  }

  /** `formatPrice(value)`: dollars with three decimals. */
  function FormatPrice(value: string): string
  {
    if value == [] || value == "-" then "-"
    else match Amount(value)
      case None => value
      case Some(x) => "$" + ToFixed(x, 3)
  }

  /** The price shown is within 0.0005 of the amount and is the key the column sorts by. */
  lemma PriceShown(value: string)
    requires Amount(value).Some?
    ensures var x := Amount(value).value;
      FormatPrice(value) == "$" + ToFixed(x, 3)
      && Amount(FormatPrice(value)) == Some(FixedValue(x, 3))
      && Abs(FixedValue(x, 3) - x) * 1000.0 <= 0.5
      && ParseNumberLike(FormatPrice(value)) == Finite(FixedValue(x, 3))
  {
    var x := Amount(value).value;
    AmountNotSentinel(value);
    var r := "$" + ToFixed(x, 3);
    assert FormatPrice(value) == r;
    PriceCleaned(x);
    CloseThousandths(x);
    ParseNumberLikePrice(x);
  }

  /** The currency formatters read `"$" + x.toFixed(f)` as the rounded value. */
  lemma PriceCleaned(x: real)
    ensures Amount("$" + ToFixed(x, 3)) == Some(FixedValue(x, 3))
  {
    var t := ToFixed(x, 3);
    ToFixedChars(x, 3);
    assert DropDollar("$" + t) == t;
    forall k | 0 <= k < |t| ensures !InClass(t[k], CommaSpace) { NumeralNotSpace(t[k]); }
    RemoveNone(t, CommaSpace);
    assert t + [] == t;
    ParseFloatToFixed(x, 3, []);
  }

  lemma ParseNumberLikePrice(x: real)
    ensures ParseNumberLike("$" + ToFixed(x, 3)) == Finite(FixedValue(x, 3))
  {
    var t := ToFixed(x, 3);
    var q := ScaledRound(Abs(x), 3);
    ToFixedValue(x, 3);
    TextIsPlainDecimal(x < 0.0, FixedParts(q, 3).0, FixedParts(q, 3).1);
    PlainDecimalShape(t);
    PlainKept(t);
    var v := "$" + t;
    assert v == ['$'] + t;
    assert v[|v| - 1] == t[|t| - 1];
    ParseNumberLikeText(v, 0);
    forall k | 0 <= k < |v| ensures !InClass(v[k], Spaces) {
      if k > 0 { assert v[k] == t[k - 1]; }
    }
    RemoveNone(v, Spaces);
    RemoveDropped('$', t, DollarComma);
    RemoveNone(t, DollarComma);
    KeyOfPlain(t);
  }

  /** Formatting a price twice is formatting it once, unless it rounds to a negative zero. */
  lemma PriceIdempotent(value: string)
    requires NotNegativeZero(Amount(value), 3)
    ensures FormatPrice(FormatPrice(value)) == FormatPrice(value)
  {
    if value != [] && value != "-" && Amount(value).Some? {
      var x := Amount(value).value;
      PriceCleaned(x);
      ToFixedStable(x, 3);
    }
  }

  // ---- formatUnlockColumn

  datatype UnlockKind = Days | Currency | DaysFull

  /** A vesting status rather than an amount: its lower case contains "finished", "exit" or "tge". */
  predicate IsStatus(value: string)
  {
    var l := Lower(value);
    Contains(l, "finished") || Contains(l, "exit") || Contains(l, "tge")
  }

  /** `formatUnlockColumn(value, type)`; the final `return value` is unreachable for the three kinds. */
  function FormatUnlockColumn(value: string, kind: UnlockKind): string
  {
    if value == [] || value == "-" || value == "/" then "-"
    else if IsStatus(value) then value
    else if kind == Currency then
      match ParseFloat(Remove(value, DollarComma))
      case None => value
      case Some(x) => if x < 1.0 then "-" else "$" + Grouped(Floor(x))
    else
      match ParseFloat(value)
      case None => value
      case Some(x) => IntToString(Round(x)) + " days"
  }

  lemma ContainsLength(s: string, t: string)
    requires Contains(s, t)
    ensures |t| <= |s|
  {
  }

  /** A status is shown as it is, in every kind of column. */
  lemma UnlockStatusKept(value: string, kind: UnlockKind)
    requires IsStatus(value)
    ensures FormatUnlockColumn(value, kind) == value
  {
    var l := Lower(value);
    if Contains(l, "finished") { ContainsLength(l, "finished"); }
    else if Contains(l, "exit") { ContainsLength(l, "exit"); }
    else { ContainsLength(l, "tge"); }
  }

  /** Text without 'f', 'e', 't' and upper-case letters is not a status. */
  lemma NotStatus(value: string)
    requires forall k :: 0 <= k < |value| ==> !('A' <= value[k] <= 'Z') && value[k] != 'f' && value[k] != 'e' && value[k] != 't'
    ensures !IsStatus(value)
  {
    LowerKeeps(value);
    ContainsNoFirst(value, "finished");
    ContainsNoFirst(value, "exit");
    ContainsNoFirst(value, "tge");
  }

  /** The day count shown and read back: `Math.round(number) + ' days'`. */
  lemma UnlockDaysShown(value: string, kind: UnlockKind, x: real)
    requires kind != Currency && !IsStatus(value) && ParseFloat(value) == Some(x)
    ensures FormatUnlockColumn(value, kind) == IntToString(Round(x)) + " days"
    ensures ParseFloat(FormatUnlockColumn(value, kind)) == Some(Round(x) as real)
    ensures FormatUnlockColumn(FormatUnlockColumn(value, kind), kind) == FormatUnlockColumn(value, kind)
  {
    ParseFloatNotSentinel(value);
    var n := Round(x);
    var r := IntToString(n) + " days";
    assert FormatUnlockColumn(value, kind) == r;
    ParseFloatIntToString(n, " days");
    DaysTextKept(n, kind);
  }

  /** The day text is kept by the day formatters. */
  lemma DaysTextKept(n: int, kind: UnlockKind)
    requires kind != Currency
    ensures FormatUnlockColumn(IntToString(n) + " days", kind) == IntToString(n) + " days"
  {
    var r := IntToString(n) + " days";
    DaysTextNotStatus(n);
    ParseFloatIntToString(n, " days");
    assert Round(n as real) == n;
  }

  lemma DaysTextNotStatus(n: int)
    ensures !IsStatus(IntToString(n) + " days")
    ensures IntToString(n) + " days" != "-" && IntToString(n) + " days" != "/"
  {
    var t := IntToString(n);
    var r := t + " days";
    IntToStringText(n);
    var m := if n < 0 then -n else n;
    TextChars(n < 0, NatToString(m), "");
    forall k | 0 <= k < |r| ensures !('A' <= r[k] <= 'Z') && r[k] != 'f' && r[k] != 'e' && r[k] != 't' {
      if k < |t| { assert r[k] == t[k]; } else { assert r[k] == " days"[k - |t|]; }
    }
    NotStatus(r);
  }

  /** A currency unlock under $1 is "-"; otherwise its whole dollars, read back, sorted by and kept by formatting again. */
  lemma UnlockCurrencyShown(value: string, x: real)
    requires !IsStatus(value) && ParseFloat(Remove(value, DollarComma)) == Some(x)
    ensures x < 1.0 ==> FormatUnlockColumn(value, Currency) == "-"
    ensures x >= 1.0 ==> FormatUnlockColumn(value, Currency) == "$" + Grouped(Floor(x)) && Floor(x) >= 1
    ensures x >= 1.0 ==> ParseNumberLike(FormatUnlockColumn(value, Currency)) == Finite(Floor(x) as real)
    ensures FormatUnlockColumn(FormatUnlockColumn(value, Currency), Currency) == FormatUnlockColumn(value, Currency)
  {
    if value == [] || value == "-" || value == "/" {
      SentinelsNotNumbers(value);
    }
    if x >= 1.0 {
      var n := Floor(x);
      ParseNumberLikeCurrency(n);
      DollarTextUnlock(n);
    }
  }

  /** `"$" + n.toLocaleString()` for n >= 1 is kept by the currency unlock formatter. */
  lemma DollarTextUnlock(n: int)
    requires n >= 1
    ensures FormatUnlockColumn("$" + Grouped(n), Currency) == "$" + Grouped(n)
  {
    DollarGroupedNotStatus(n);
    UnlockAmountOfDollarText(n);
  }

  /** No amount text `"$" + n.toLocaleString()` reads as a status. */
  lemma DollarGroupedNotStatus(n: int)
    ensures !IsStatus("$" + Grouped(n))
  {
    var g := Grouped(n);
    var r := "$" + g;
    GroupedChars(n);
    forall k | 0 <= k < |r| ensures !('A' <= r[k] <= 'Z') && r[k] != 'f' && r[k] != 'e' && r[k] != 't' {
      if k > 0 { assert r[k] == g[k - 1]; }
    }
    NotStatus(r);
  }

  /** The currency unlock formatter reads `"$" + n.toLocaleString()` back as n. */
  lemma UnlockAmountOfDollarText(n: int)
    ensures ParseFloat(Remove("$" + Grouped(n), DollarComma)) == Some(n as real)
  {
    var g := Grouped(n);
    assert "$" + g == ['$'] + g;
    RemoveDropped('$', g, DollarComma);
    GroupedUngroups(n, DollarComma);
    assert IntToString(n) + [] == IntToString(n);
    ParseFloatIntToString(n, []);
  }

  // ---- formatCell: the generic cell formatter

  /** `/[%$]|\dx$/i.test(v)` */
  predicate KeptAsIs(v: string)
  {
    '%' in v || '$' in v || (|v| >= 2 && IsDigit(v[|v| - 2]) && (v[|v| - 1] == 'x' || v[|v| - 1] == 'X'))
  }

  /** `formatCell(v)` */
  function FormatCell(v: string): string
  {
    if v == [] then []
    else if KeptAsIs(v) then v
    else match NumberOf(Remove(v, Commas))
      case Some(n) => if IsPlainDecimal(v) then FormatLocale(n, 2) else v
      case None => v
  }

  /** Only plain decimals are reformatted: everything else, percentages, dollars and multiples included, is kept. */
  lemma FormatCellKeeps(v: string)
    requires !IsPlainDecimal(v)
    ensures FormatCell(v) == v
  {
  }

  /** A plain decimal is shown with at most two decimals and digit groups, and reads back as the rounded value. */
  lemma FormatCellPlain(v: string, x: real)
    requires IsPlainDecimal(v) && x == PlainDecimalValue(v)
    ensures FormatCell(v) == FormatLocale(x, 2)
    ensures NumberOf(Remove(FormatCell(v), Commas)) == Some(FixedValue(x, 2))
    ensures Abs(FixedValue(x, 2) - x) * 100.0 <= 0.5
  {
    FormatCellPlainText(v);
    NumberOfLocale(x, 2, Commas);
    CloseHundredths(x);
  }

  lemma FormatCellPlainText(v: string)
    requires IsPlainDecimal(v)
    ensures FormatCell(v) == FormatLocale(PlainDecimalValue(v), 2)
  {
    PlainDecimalShape(v);
    PlainKept(v);
    assert !KeptAsIs(v);
    RemoveNone(v, Commas);
    NumberOfPlain(v);
  }
}
