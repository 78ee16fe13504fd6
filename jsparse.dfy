/**
 * The JavaScript text-to-number conversions, over exact decimals (`real`):
 *   - `parseFloat(s)`: the longest decimal-literal prefix after leading whitespace;
 *   - `Number(s)`: the whole trimmed string must be a decimal literal ("" gives 0);
 *   - `parseInt(s)`: an optionally signed run of decimal digits after leading whitespace.
 * `None` stands for NaN. The scanners work on positions of the input string.
 */
module JsParse {
  import opened JsText
  import opened JsNumbers

  /** The end of the run of digits that starts at i. */
  function DigitEnd(s: string, i: nat): (j: nat)
    requires i <= |s|
    ensures i <= j <= |s|
    ensures forall k :: i <= k < j ==> IsDigit(s[k])
    ensures j == |s| || !IsDigit(s[j])
    decreases |s| - i
  {
    if i < |s| && IsDigit(s[i]) then DigitEnd(s, i + 1) else i
  }

  /** The end of the run of whitespace that starts at i. */
  function SpaceEnd(s: string, i: nat): (j: nat)
    requires i <= |s|
    ensures i <= j <= |s|
    ensures forall k :: i <= k < j ==> IsSpace(s[k])
    ensures j == |s| || !IsSpace(s[j])
    decreases |s| - i
  {
    if i < |s| && IsSpace(s[i]) then SpaceEnd(s, i + 1) else i
  }

  /** The start of the run of whitespace that ends at j, looking no further left than i. */
  function SpaceBack(s: string, i: nat, j: nat): (k: nat)
    requires i <= j <= |s|
    ensures i <= k <= j
    ensures forall m :: k <= m < j ==> IsSpace(s[m])
    ensures k == i || !IsSpace(s[k - 1])
    decreases j
  {
    if j > i && IsSpace(s[j - 1]) then SpaceBack(s, i, j - 1) else j
  }

  /** The value of the digits s[i..j]. */
  function DigitsIn(s: string, i: nat, j: nat): nat
    requires i <= j <= |s|
    decreases j
  {
    if j == i then 0 else DigitsIn(s, i, j - 1) * 10 + DigitVal(s[j - 1])
  }

  /** A literal found in a string: its value and the position just past it. */
  datatype Literal = Literal(value: real, end: nat)

  /** `digits ('.' digits?)? | '.' digits` starting at i, the longest such. */
  function MantissaAt(s: string, i: nat): (r: Option<Literal>)
    requires i <= |s|
    ensures r.Some? ==> i < r.value.end <= |s|
  {
    var a := DigitEnd(s, i);
    if a < |s| && s[a] == '.' then
      var b := DigitEnd(s, a + 1);
      if a == i && b == a + 1 then None
      else Some(Literal(DigitsIn(s, i, a) as real + DigitsIn(s, a + 1, b) as real / Pow10(b - (a + 1)) as real, b))
    else if a == i then None
    else Some(Literal(DigitsIn(s, i, a) as real, a))
  }

  /** An exponent part `[eE][+-]?digits` at i: its value and where it ends (i when there is none). */
  function ExponentAt(s: string, i: nat): (r: (int, nat))
    requires i <= |s|
    ensures i <= r.1 <= |s|
    ensures (i == |s| || (s[i] != 'e' && s[i] != 'E')) ==> r == (0, i)
  {
    if i + 1 < |s| && (s[i] == 'e' || s[i] == 'E') then
      var d0 := if s[i + 1] == '+' || s[i + 1] == '-' then i + 2 else i + 1;
      var d := DigitEnd(s, d0);
      if d == d0 then (0, i)
      else (if s[i + 1] == '-' then -(DigitsIn(s, d0, d) as int) else DigitsIn(s, d0, d) as int, d)
    else (0, i)
  }

  function Scale(v: real, e: int): real
  {
    if e == 0 then v else if e > 0 then v * Pow10(e) as real else v / Pow10(-e) as real
  }

  /** The longest unsigned decimal literal at i: a mantissa and an optional exponent. */
  function UnsignedAt(s: string, i: nat): (r: Option<Literal>)
    requires i <= |s|
    ensures r.Some? ==> i < r.value.end <= |s|
  {
    match MantissaAt(s, i)
    case None => None
    case Some(m) =>
      var ex := ExponentAt(s, m.end);
      Some(Literal(Scale(m.value, ex.0), ex.1))
  }

  /** The longest signed decimal literal at i (StrDecimalLiteral without `Infinity`). */
  function DecimalAt(s: string, i: nat): (r: Option<Literal>)
    requires i <= |s|
    ensures r.Some? ==> i < r.value.end <= |s|
  {
    if i < |s| && (s[i] == '+' || s[i] == '-') then
      match UnsignedAt(s, i + 1)
      case None => None
      case Some(u) => Some(Literal(if s[i] == '-' then -u.value else u.value, u.end))
    else UnsignedAt(s, i)
  }

  /** `parseFloat(s)` */
  function ParseFloat(s: string): (r: Option<real>)
  {
    match DecimalAt(s, SpaceEnd(s, 0))
    case None => None
    case Some(l) => Some(l.value)
  }

  /** `Number(s)`: the text between leading and trailing whitespace must be one literal; blank text is 0. */
  function NumberOf(s: string): (r: Option<real>)
    ensures (forall k :: 0 <= k < |s| ==> IsSpace(s[k])) ==> r == Some(0.0)
  {
    var i := SpaceEnd(s, 0);
    var j := SpaceBack(s, i, |s|);
    if i == j then Some(0.0)
    else match DecimalAt(s, i)
      case Some(l) => if l.end == j then Some(l.value) else None
      case None => None
  }

  /** The digits at p as an integer, if there is at least one. */
  function IntAt(s: string, p: nat): (r: Option<int>)
    requires p <= |s|
    ensures r.None? <==> (p == |s| || !IsDigit(s[p]))
    ensures r.Some? ==> r.value >= 0
  {
    var j := DigitEnd(s, p);
    if j == p then None else Some(DigitsIn(s, p, j) as int)
  }

  function Negated(r: Option<int>): Option<int>
  {
    match r
    case None => None
    case Some(m) => Some(-m)
  }

  /** `parseInt(s)` with radix 10. */
  function ParseInt(s: string): (r: Option<int>)
  {
    var i := SpaceEnd(s, 0);
    if i < |s| && s[i] == '-' then Negated(IntAt(s, i + 1))
    else if i < |s| && s[i] == '+' then IntAt(s, i + 1)
    else IntAt(s, i)
  }

  // ---- The scanners on concatenations

  lemma {:induction false} DigitEndShift(a: string, b: string, i: nat)
    requires i <= |b|
    ensures DigitEnd(a + b, |a| + i) == |a| + DigitEnd(b, i)
    decreases |b| - i
  {
    var s := a + b;
    if i < |b| {
      assert s[|a| + i] == b[i];
      if IsDigit(b[i]) {
        DigitEndShift(a, b, i + 1);
      }
    }
  }

  lemma {:induction false} DigitEndPrefix(a: string, b: string, i: nat)
    requires i <= |a|
    requires DigitEnd(a, i) < |a| || b == [] || !IsDigit(b[0])
    ensures DigitEnd(a + b, i) == DigitEnd(a, i)
    decreases |a| - i
  {
    var s := a + b;
    if i < |a| {
      assert s[i] == a[i];
      if IsDigit(a[i]) {
        DigitEndPrefix(a, b, i + 1);
      }
    } else if b != [] {
      assert s[i] == b[0];
    }
  }

  lemma DigitEndAll(s: string, i: nat)
    requires i <= |s| && AllDigits(s)
    ensures DigitEnd(s, i) == |s|
  {
  }

  lemma {:induction false} DigitsInShift(a: string, b: string, i: nat, j: nat)
    requires i <= j <= |b|
    ensures DigitsIn(a + b, |a| + i, |a| + j) == DigitsIn(b, i, j)
    decreases j
  {
    if j > i {
      assert (a + b)[|a| + j - 1] == b[j - 1];
      DigitsInShift(a, b, i, j - 1);
    }
  }

  lemma {:induction false} DigitsInPrefix(a: string, b: string, i: nat, j: nat)
    requires i <= j <= |a|
    ensures DigitsIn(a + b, i, j) == DigitsIn(a, i, j)
    decreases j
  {
    if j > i {
      assert (a + b)[j - 1] == a[j - 1];
      DigitsInPrefix(a, b, i, j - 1);
    }
  }

  /** DigitsIn from the start is the value of the prefix. */
  lemma {:induction false} DigitsInValue(s: string, j: nat)
    requires j <= |s|
    ensures DigitsIn(s, 0, j) == DigitsValue(s[..j])
  {
    if j > 0 {
      DigitsInValue(s, j - 1);
      assert s[..j][..j - 1] == s[..j - 1];
      assert s[..j][j - 1] == s[j - 1];
    }
  }

  lemma DigitsInWhole(s: string)
    ensures DigitsIn(s, 0, |s|) == DigitsValue(s)
  {
    DigitsInValue(s, |s|);
    assert s[..|s|] == s;
  }

  // ---- `/^-?\d+(\.\d+)?$/` and what `Number` and `parseFloat` read from it

  /** `/^-?\d+(\.\d+)?$/.test(s)` */
  predicate IsPlainDecimal(s: string)
  {
    var p := if |s| > 0 && s[0] == '-' then 1 else 0;
    var a := DigitEnd(s, p);
    a > p && (a == |s| || (s[a] == '.' && a + 1 < |s| && DigitEnd(s, a + 1) == |s|))
  }

  /** The value a string of the shape `-?\d+(\.\d+)?` denotes. */
  function PlainDecimalValue(s: string): real
    requires IsPlainDecimal(s)
  {
    var p := if s[0] == '-' then 1 else 0;
    var a := DigitEnd(s, p);
    var v := if a == |s| then DigitsIn(s, p, a) as real
             else DigitsIn(s, p, a) as real + DigitsIn(s, a + 1, |s|) as real / Pow10(|s| - (a + 1)) as real;
    if p == 1 then -v else v
  }

  /** A plain decimal is made of digits, '.' and a leading '-'; it has a digit after its sign and ends in one. */
  lemma PlainDecimalShape(s: string)
    requires IsPlainDecimal(s)
    ensures IsDigit(s[if s[0] == '-' then 1 else 0]) && IsDigit(s[|s| - 1])
    ensures forall k :: 0 <= k < |s| ==> IsDigit(s[k]) || s[k] == '.' || (k == 0 && s[k] == '-')
  {
    var p := if s[0] == '-' then 1 else 0;
    var a := DigitEnd(s, p);
    forall k | 0 <= k < |s| ensures IsDigit(s[k]) || s[k] == '.' || (k == 0 && s[k] == '-') {
      if k > a {
        assert a + 1 <= k < DigitEnd(s, a + 1);
      }
    }
    if a == |s| {
      assert IsDigit(s[a - 1]);
    } else {
      assert IsDigit(s[|s| - 1]);
    }
  }

  /** A plain decimal contains no whitespace at either end. */
  lemma PlainDecimalEnds(s: string)
    requires IsPlainDecimal(s)
    ensures !IsSpace(s[0]) && !IsSpace(s[|s| - 1])
    ensures SpaceEnd(s, 0) == 0 && SpaceBack(s, 0, |s|) == |s|
  {
    var p := if s[0] == '-' then 1 else 0;
    var a := DigitEnd(s, p);
    assert s[0] == '-' || IsDigit(s[0]);
    if a == |s| {
      assert IsDigit(s[a - 1]);
    } else {
      assert IsDigit(s[|s| - 1]);
    }
  }

  /** After its sign, a plain decimal is one mantissa that spans the rest of it. */
  lemma PlainMantissa(s: string)
    requires IsPlainDecimal(s)
    ensures var p := if s[0] == '-' then 1 else 0;
      MantissaAt(s, p) == Some(Literal(if p == 1 then -PlainDecimalValue(s) else PlainDecimalValue(s), |s|))
  {
  }

  /** A mantissa that ends its string still ends where it did when a non-continuing text follows. */
  lemma MantissaAppend(s: string, rest: string, p: nat, v: real)
    requires p <= |s| && MantissaAt(s, p) == Some(Literal(v, |s|))
    requires rest == [] || !(IsDigit(rest[0]) || rest[0] == '.')
    ensures MantissaAt(s + rest, p) == Some(Literal(v, |s|))
  {
    var t := s + rest;
    var a := DigitEnd(s, p);
    DigitEndPrefix(s, rest, p);
    DigitsInPrefix(s, rest, p, a);
    if a < |s| {
      assert t[a] == s[a] == '.';
      DigitEndPrefix(s, rest, a + 1);
      DigitsInPrefix(s, rest, a + 1, |s|);
    } else if rest != [] {
      assert t[a] == rest[0];
    }
  }

  /** `Number` reads a plain decimal as its value. */
  lemma NumberOfPlain(s: string)
    requires IsPlainDecimal(s)
    ensures NumberOf(s) == Some(PlainDecimalValue(s))
  {
    PlainDecimalEnds(s);
    PlainMantissa(s);
    assert ExponentAt(s, |s|) == (0, |s|);
  }

  /** `parseFloat` reads a plain decimal followed by a character that cannot continue it as its value. */
  lemma ParseFloatPlain(s: string, rest: string)
    requires IsPlainDecimal(s)
    requires rest == [] || !(IsDigit(rest[0]) || rest[0] == '.' || rest[0] == 'e' || rest[0] == 'E')
    ensures ParseFloat(s + rest) == Some(PlainDecimalValue(s))
  {
    PlainDecimalEnds(s);
    var t := s + rest;
    assert t[0] == s[0];
    var p := if s[0] == '-' then 1 else 0;
    PlainMantissa(s);
    MantissaAppend(s, rest, p, if p == 1 then -PlainDecimalValue(s) else PlainDecimalValue(s));
    assert |s| < |t| ==> t[|s|] == rest[0];
    assert ExponentAt(t, |s|) == (0, |s|);
  }

  // ---- The text of a decimal literal is a plain decimal

  /** The integer digits of `DecimalText(neg, ip, fp)` are where they are expected. */
  lemma TextIntegerPart(neg: bool, ip: string, fp: string)
    requires |ip| >= 1 && AllDigits(ip) && AllDigits(fp)
    ensures DecimalText(neg, ip, fp)[0] == '-' <==> neg
    ensures DigitEnd(DecimalText(neg, ip, fp), if neg then 1 else 0) == (if neg then 1 else 0) + |ip|
    ensures DigitsIn(DecimalText(neg, ip, fp), if neg then 1 else 0, (if neg then 1 else 0) + |ip|) == DigitsValue(ip)
  {
    var sign := if neg then "-" else "";
    var head := sign + ip;
    var tail := if fp == [] then "" else "." + fp;
    assert DecimalText(neg, ip, fp) == head + tail;
    assert head[0] == if neg then '-' else ip[0];
    DigitEndAll(ip, 0);
    DigitEndShift(sign, ip, 0);
    assert tail == [] || tail[0] == '.';
    DigitEndPrefix(head, tail, |sign|);
    DigitsInWhole(ip);
    DigitsInShift(sign, ip, 0, |ip|);
    DigitsInPrefix(head, tail, |sign|, |sign| + |ip|);
  }

  /** The fraction digits of `DecimalText(neg, ip, fp)` follow the '.' and end the text. */
  lemma TextFractionPart(neg: bool, ip: string, fp: string)
    requires |ip| >= 1 && AllDigits(ip) && |fp| >= 1 && AllDigits(fp)
    ensures var a := (if neg then 1 else 0) + |ip|;
      |DecimalText(neg, ip, fp)| == a + 1 + |fp| && DecimalText(neg, ip, fp)[a] == '.'
      && DigitEnd(DecimalText(neg, ip, fp), a + 1) == a + 1 + |fp|
      && DigitsIn(DecimalText(neg, ip, fp), a + 1, a + 1 + |fp|) == DigitsValue(fp)
  {
    var head := (if neg then "-" else "") + ip;
    var dot := "." + fp;
    assert DecimalText(neg, ip, fp) == head + dot;
    assert (head + dot)[|head|] == '.';
    DigitEndAll(fp, 0);
    DigitEndShift(".", fp, 0);
    DigitEndShift(head, dot, 1);
    DigitsInWhole(fp);
    DigitsInShift(".", fp, 0, |fp|);
    DigitsInShift(head, dot, 1, 1 + |fp|);
  }

  /** The text of a decimal literal has the shape `-?\d+(\.\d+)?` and denotes its value. */
  lemma TextIsPlainDecimal(neg: bool, ip: string, fp: string)
    requires |ip| >= 1 && AllDigits(ip) && AllDigits(fp)
    ensures IsPlainDecimal(DecimalText(neg, ip, fp))
    ensures PlainDecimalValue(DecimalText(neg, ip, fp)) == DecimalTextValue(neg, ip, fp)
  {
    var s := DecimalText(neg, ip, fp);
    TextIntegerPart(neg, ip, fp);
    if fp == [] {
      assert s == (if neg then "-" else "") + ip;
      assert DecimalValue(ip, fp) == DigitsValue(ip) as real;
    } else {
      TextFractionPart(neg, ip, fp);
    }
  }

  /** `Number` reads back the text of a decimal literal. */
  lemma NumberOfText(neg: bool, ip: string, fp: string)
    requires |ip| >= 1 && AllDigits(ip) && AllDigits(fp)
    ensures NumberOf(DecimalText(neg, ip, fp)) == Some(DecimalTextValue(neg, ip, fp))
  {
    TextIsPlainDecimal(neg, ip, fp);
    NumberOfPlain(DecimalText(neg, ip, fp));
  }

  /** `parseFloat` reads back the text of a decimal literal followed by a non-continuing character. */
  lemma ParseFloatText(neg: bool, ip: string, fp: string, rest: string)
    requires |ip| >= 1 && AllDigits(ip) && AllDigits(fp)
    requires rest == [] || !(IsDigit(rest[0]) || rest[0] == '.' || rest[0] == 'e' || rest[0] == 'E')
    ensures ParseFloat(DecimalText(neg, ip, fp) + rest) == Some(DecimalTextValue(neg, ip, fp))
  {
    TextIsPlainDecimal(neg, ip, fp);
    ParseFloatPlain(DecimalText(neg, ip, fp), rest);
  }

  /** `String(i)` parses back to `i`. */
  lemma NumberOfIntToString(i: int)
    ensures NumberOf(IntToString(i)) == Some(i as real)
  {
    IntToStringText(i);
    NumberOfText(i < 0, NatToString(if i < 0 then -i else i), "");
  }

  lemma ParseFloatIntToString(i: int, rest: string)
    requires rest == [] || !(IsDigit(rest[0]) || rest[0] == '.' || rest[0] == 'e' || rest[0] == 'E')
    ensures ParseFloat(IntToString(i) + rest) == Some(i as real)
  {
    IntToStringText(i);
    ParseFloatText(i < 0, NatToString(if i < 0 then -i else i), "", rest);
  }

  /** `Number(x.toFixed(f))` is the rounded value of x, at most half a unit of the last digit away. */
  lemma NumberOfToFixed(x: real, f: nat)
    ensures NumberOf(ToFixed(x, f)) == Some(FixedValue(x, f))
    ensures Abs(FixedValue(x, f) - x) * Pow10(f) as real <= 0.5
  {
    var (ip, fp) := FixedParts(ScaledRound(Abs(x), f), f);
    ToFixedValue(x, f);
    NumberOfText(x < 0.0, ip, fp);
    FixedValueClose(x, f);
  }

  lemma ParseFloatToFixed(x: real, f: nat, rest: string)
    requires rest == [] || !(IsDigit(rest[0]) || rest[0] == '.' || rest[0] == 'e' || rest[0] == 'E')
    ensures ParseFloat(ToFixed(x, f) + rest) == Some(FixedValue(x, f))
  {
    var (ip, fp) := FixedParts(ScaledRound(Abs(x), f), f);
    ToFixedValue(x, f);
    ParseFloatText(x < 0.0, ip, fp, rest);
  }

  /** Removing the separators from locale text gives the plain literal with the same fraction digits. */
  lemma RemoveGrouping(neg: bool, ip: string, fp: string, cls: CharClass)
    requires Separators(cls) && AllDigits(ip) && AllDigits(fp)
    ensures Remove(DecimalText(neg, GroupDigits(ip), fp), cls) == DecimalText(neg, ip, fp)
  {
    var sign := if neg then "-" else "";
    var tail := if fp == [] then "" else "." + fp;
    var g := GroupDigits(ip);
    assert DecimalText(neg, g, fp) == (sign + g) + tail;
    assert DecimalText(neg, ip, fp) == (sign + ip) + tail;
    RemoveAppend(sign + g, tail, cls);
    RemoveAppend(sign, g, cls);
    SignKept(neg, cls);
    GroupDigitsUngroups(ip, cls);
    FractionKept(fp, cls);
  }

  lemma SignKept(neg: bool, cls: CharClass)
    requires Separators(cls)
    ensures Remove(if neg then "-" else "", cls) == if neg then "-" else ""
  {
    var sign := if neg then "-" else "";
    assert forall k :: 0 <= k < |sign| ==> sign[k] == '-';
    RemoveNone(sign, cls);
  }

  lemma FractionKept(fp: string, cls: CharClass)
    requires Separators(cls) && AllDigits(fp)
    ensures Remove(if fp == [] then "" else "." + fp, cls) == if fp == [] then "" else "." + fp
  {
    var tail := if fp == [] then "" else "." + fp;
    forall k | 0 <= k < |tail| ensures !InClass(tail[k], cls) {
      if k > 0 { assert tail[k] == fp[k - 1] && IsDigit(fp[k - 1]); }
    }
    RemoveNone(tail, cls);
  }

  /** `Number` reads locale text, once its separators are removed, as the rounded value. */
  lemma NumberOfLocale(x: real, f: nat, cls: CharClass)
    requires Separators(cls)
    ensures NumberOf(Remove(FormatLocale(x, f), cls)) == Some(FixedValue(x, f))
  {
    var q := ScaledRound(Abs(x), f);
    var parts := FixedParts(q, f);
    var ip, fp := parts.0, parts.1;
    var sfp := StripTrailingZeros(fp);
    assert FormatLocale(x, f) == DecimalText(x < 0.0, GroupDigits(ip), sfp);
    FixedPartsValue(q, f);
    StripValue(fp);
    assert DecimalValue(ip, sfp) == q as real / Pow10(f) as real;
    RemoveGrouping(x < 0.0, ip, sfp, cls);
    var t := DecimalText(x < 0.0, ip, sfp);
    assert Remove(FormatLocale(x, f), cls) == t;
    NumberOfText(x < 0.0, ip, sfp);
    assert DecimalTextValue(x < 0.0, ip, sfp) == FixedValue(x, f);
  }

  /** `parseFloat` reads locale text, once its separators are removed, as the rounded value. */
  lemma ParseFloatLocale(x: real, f: nat, cls: CharClass)
    requires Separators(cls)
    ensures ParseFloat(Remove(FormatLocale(x, f), cls)) == Some(FixedValue(x, f))
  {
    var q := ScaledRound(Abs(x), f);
    var parts := FixedParts(q, f);
    var ip, fp := parts.0, parts.1;
    var sfp := StripTrailingZeros(fp);
    assert FormatLocale(x, f) == DecimalText(x < 0.0, GroupDigits(ip), sfp);
    FixedPartsValue(q, f);
    StripValue(fp);
    assert DecimalValue(ip, sfp) == q as real / Pow10(f) as real;
    RemoveGrouping(x < 0.0, ip, sfp, cls);
    var t := DecimalText(x < 0.0, ip, sfp);
    assert Remove(FormatLocale(x, f), cls) == t;
    assert t + [] == t;
    ParseFloatText(x < 0.0, ip, sfp, []);
    assert DecimalTextValue(x < 0.0, ip, sfp) == FixedValue(x, f);
  }

  /** A single character other than a digit is not a number for `parseFloat` ("-", "/", "."). */
  lemma ParseFloatOneChar(v: string)
    requires |v| == 1 && !IsDigit(v[0])
    ensures ParseFloat(v) == None
  {
    var i := SpaceEnd(v, 0);
    assert DigitEnd(v, i) == i;
    if i == 0 {
      assert v[0] == '.' ==> DigitEnd(v, 1) == 1;
      assert (v[0] == '+' || v[0] == '-') ==> DigitEnd(v, 1) == 1;
    }
  }

  // ---- parseInt

  /** `parseInt` reads a run of digits as its value. */
  lemma ParseIntDigits(s: string)
    requires |s| >= 1 && AllDigits(s)
    ensures ParseInt(s) == Some(DigitsValue(s) as int)
  {
    assert IsDigit(s[0]);
    assert SpaceEnd(s, 0) == 0;
    DigitEndAll(s, 0);
    DigitsInWhole(s);
  }

  /** `parseInt` reads a '-' and a run of digits as the negated value. */
  lemma ParseIntNegDigits(s: string)
    requires |s| >= 1 && AllDigits(s)
    ensures ParseInt("-" + s) == Some(-(DigitsValue(s) as int))
  {
    var t := "-" + s;
    assert t[0] == '-';
    assert SpaceEnd(t, 0) == 0;
    DigitEndAll(s, 0);
    DigitEndShift("-", s, 0);
    DigitsInWhole(s);
    DigitsInShift("-", s, 0, |s|);
  }

  /** `parseInt` reads back the digits of a natural number. */
  lemma ParseIntNat(n: nat)
    ensures ParseInt(NatToString(n)) == Some(n as int)
  {
    ParseIntDigits(NatToString(n));
  }

  /** `parseInt` reads back a '-' and the digits of a natural number. */
  lemma ParseIntNeg(n: nat)
    ensures ParseInt("-" + NatToString(n)) == Some(-(n as int))
  {
    var ds := NatToString(n);
    ParseIntNegDigits(ds);
    assert DigitsValue(ds) as int == n as int;
  }

  /** A sign with no digits after it is not a number. */
  lemma ParseIntSignOnly(c: char)
    requires c == '-' || c == '+'
    ensures ParseInt([c]) == None
  {
    var t := [c];
    assert !IsSpace(t[0]);
    assert SpaceEnd(t, 0) == 0;
  }
}
