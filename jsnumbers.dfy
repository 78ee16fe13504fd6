/**
 * The JavaScript number-to-text conversions the dashboard and the sheet scripts
 * use, over exact decimals (`real`) instead of IEEE doubles: `Math.round`,
 * `Math.floor`, `x.toFixed(f)`, `String(n)` for integers and the en-US
 * `toLocaleString` (digit groups of three, at most f fraction digits).
 */
module JsNumbers {
  import opened JsText

  datatype Option<T> = None | Some(value: T)

  function DigitVal(c: char): (d: nat)
    ensures d < 10
  {
    if IsDigit(c) then c as int - '0' as int else 0
  }

  function DigitChar(d: nat): (c: char)
    requires d < 10
    ensures IsDigit(c) && DigitVal(c) == d
  {
    ('0' as int + d) as char
  }

  function Pow10(n: nat): (p: nat)
    ensures p >= 1
  {
    if n == 0 then 1 else 10 * Pow10(n - 1)
  }

  lemma Pow10Small()
    ensures Pow10(1) == 10 && Pow10(2) == 100 && Pow10(3) == 1000
  {
    assert Pow10(0) == 1;
  }

  /** Value of a string of decimal digits, most significant digit first. */
  function DigitsValue(s: string): nat
  {
    if s == [] then 0 else DigitsValue(s[..|s| - 1]) * 10 + DigitVal(s[|s| - 1])
  }

  lemma {:induction false} DigitsValueAppend(a: string, b: string)
    ensures DigitsValue(a + b) == DigitsValue(a) * Pow10(|b|) + DigitsValue(b)
  {
    if b == [] {
      assert a + b == a;
    } else {
      var b' := b[..|b| - 1];
      var ab := a + b;
      assert ab[..|ab| - 1] == a + b';
      assert ab[|ab| - 1] == b[|b| - 1];
      DigitsValueAppend(a, b');
      assert Pow10(|b|) == Pow10(|b'|) * 10;
      ShiftDigit(DigitsValue(a), Pow10(|b'|), DigitsValue(b'), DigitVal(b[|b| - 1]));
    }
  }

  /** Appending one digit d to both the whole and its low part. */
  lemma ShiftDigit(da: nat, p: nat, db: nat, d: nat)
    ensures (da * p + db) * 10 + d == da * (p * 10) + (db * 10 + d)
  {
  }

  lemma {:induction false} DigitsValueBound(s: string)
    ensures DigitsValue(s) < Pow10(|s|)
  {
    if s != [] { DigitsValueBound(s[..|s| - 1]); }
  }

  lemma {:induction false} LeadingZeros(n: nat, s: string)
    ensures DigitsValue(seq(n, _ => '0') + s) == DigitsValue(s)
  {
    var z := seq(n, _ => '0');
    DigitsValueAppend(z, s);
    ZerosValue(n);
  }

  lemma {:induction false} ZerosValue(n: nat)
    ensures DigitsValue(seq(n, _ => '0')) == 0
  {
    if n > 0 {
      assert seq(n, _ => '0')[..n - 1] == seq(n - 1, _ => '0');
      ZerosValue(n - 1);
    }
  }

  /** The value of the literal `ip.fp`. */
  function DecimalValue(ip: string, fp: string): real
  {
    DigitsValue(ip) as real + DigitsValue(fp) as real / Pow10(|fp|) as real
  }

  /** `Math.round(x)`: the nearest integer, halves upwards. */
  function Round(x: real): (n: int)
    ensures x - 0.5 < n as real <= x + 0.5
  {
    (x + 0.5).Floor
  }

  function Abs(x: real): real { if x < 0.0 then -x else x }

  /** The decimal digits of `n` (no leading zero): `String(n)` for a non-negative integer. */
  function NatToString(n: nat): (s: string)
    ensures |s| >= 1 && AllDigits(s)
    ensures DigitsValue(s) == n
    ensures n >= 10 ==> s[0] != '0'
  {
    if n < 10 then [DigitChar(n)]
    else
      var init := NatToString(n / 10);
      assert (init + [DigitChar(n % 10)])[..|init|] == init;
      init + [DigitChar(n % 10)]
  }

  /** `String(i)` for an integer. */
  function IntToString(i: int): string
  {
    if i < 0 then "-" + NatToString(-i) else NatToString(i)
  }

  /** Inserts a ',' before every group of three digits counted from the right. */
  function GroupDigits(ds: string): (r: string)
    decreases |ds|
  {
    if |ds| <= 3 then ds
    else GroupDigits(ds[..|ds| - 3]) + [','] + [ds[|ds| - 3]] + [ds[|ds| - 2]] + [ds[|ds| - 1]]
  }

  /** The class `/,/`. */
  const Commas := CharClass({','}, false)

  /** A class that removes the grouping commas and keeps digits and the minus sign. */
  predicate Separators(cls: CharClass)
  {
    ',' in cls.chars && '-' !in cls.chars && '.' !in cls.chars && forall c :: c in cls.chars ==> !IsDigit(c)
  }

  /** Digits survive a separator class. */
  lemma DigitsKept(ds: string, cls: CharClass)
    requires Separators(cls) && AllDigits(ds)
    ensures forall k :: 0 <= k < |ds| ==> !InClass(ds[k], cls)
  {
    forall k | 0 <= k < |ds| ensures !InClass(ds[k], cls) {
      assert IsDigit(ds[k]);
    }
  }

  lemma {:induction false} GroupDigitsUngroups(ds: string, cls: CharClass)
    requires Separators(cls) && AllDigits(ds)
    ensures Remove(GroupDigits(ds), cls) == ds
    decreases |ds|
  {
    if |ds| > 3 {
      var hi := ds[..|ds| - 3];
      assert AllDigits(hi) by {
        forall k | 0 <= k < |hi| ensures IsDigit(hi[k]) { assert hi[k] == ds[k]; }
      }
      GroupDigitsUngroups(hi, cls);
      var a, b, c := ds[|ds| - 3], ds[|ds| - 2], ds[|ds| - 1];
      DigitsKept(ds, cls);
      assert !InClass(a, cls) && !InClass(b, cls) && !InClass(c, cls);
      UngroupStep(GroupDigits(hi), hi, a, b, c, cls);
      LastThree(ds);
    } else {
      DigitsKept(ds, cls);
      RemoveNone(ds, cls);
    }
  }

  /** Removing the comma of one more group ",abc". */
  lemma UngroupStep(g: string, hi: string, a: char, b: char, c: char, cls: CharClass)
    requires Separators(cls) && Remove(g, cls) == hi
    requires !InClass(a, cls) && !InClass(b, cls) && !InClass(c, cls)
    ensures Remove(g + [','] + [a] + [b] + [c], cls) == hi + [a] + [b] + [c]
  {
    RemoveSnoc(g, ',', cls);
    RemoveSnoc(g + [','], a, cls);
    RemoveSnoc(g + [','] + [a], b, cls);
    RemoveSnoc(g + [','] + [a] + [b], c, cls);
  }

  lemma LastThree(s: string)
    requires |s| >= 3
    ensures s == s[..|s| - 3] + [s[|s| - 3]] + [s[|s| - 2]] + [s[|s| - 1]]
  {
    var s1 := s[..|s| - 1];
    var s2 := s1[..|s1| - 1];
    InitLast(s);
    InitLast(s1);
    InitLast(s2);
    assert s2[..|s2| - 1] == s[..|s| - 3];
  }

  /** Every character of grouped digits is a digit or a ','; the last one is the last digit. */
  lemma {:induction false} GroupDigitsChars(ds: string)
    requires AllDigits(ds)
    ensures forall k :: 0 <= k < |GroupDigits(ds)| ==> IsDigit(GroupDigits(ds)[k]) || GroupDigits(ds)[k] == ','
    ensures |ds| >= 1 ==> |GroupDigits(ds)| >= 1 && GroupDigits(ds)[|GroupDigits(ds)| - 1] == ds[|ds| - 1]
    ensures |ds| >= 1 ==> GroupDigits(ds)[0] == ds[0]
    decreases |ds|
  {
    if |ds| > 3 {
      var hi := ds[..|ds| - 3];
      assert AllDigits(hi) by {
        forall k | 0 <= k < |hi| ensures IsDigit(hi[k]) { assert hi[k] == ds[k]; }
      }
      GroupDigitsChars(hi);
      var g := GroupDigits(hi);
      var r := g + [','] + [ds[|ds| - 3]] + [ds[|ds| - 2]] + [ds[|ds| - 1]];
      assert GroupDigits(ds) == r;
      forall k | 0 <= k < |r| ensures IsDigit(r[k]) || r[k] == ',' {
        if k < |g| { assert r[k] == g[k]; }
      }
      assert r[0] == g[0];
    }
  }

  /** `n.toLocaleString()` for an integer `n`, in the en-US format ("-1,234,567"). */
  function Grouped(i: int): string
  {
    if i < 0 then "-" + GroupDigits(NatToString(-i)) else GroupDigits(NatToString(i))
  }

  /** Removing the separators from `n.toLocaleString()` gives back `String(n)`. */
  lemma GroupedUngroups(i: int, cls: CharClass)
    requires Separators(cls)
    ensures Remove(Grouped(i), cls) == IntToString(i)
  {
    if i < 0 {
      var ds := NatToString(-i);
      GroupDigitsUngroups(ds, cls);
      RemoveMinus(GroupDigits(ds), ds, cls);
    } else {
      GroupDigitsUngroups(NatToString(i), cls);
    }
  }

  lemma RemoveMinus(g: string, ds: string, cls: CharClass)
    requires Separators(cls) && Remove(g, cls) == ds
    ensures Remove("-" + g, cls) == "-" + ds
  {
    RemoveAppend("-", g, cls);
    RemoveSnoc([], '-', cls);
    assert [] + ['-'] == "-";
  }

  /** `n.toLocaleString()` is made of digits, ',' and a leading '-', and ends in a digit. */
  lemma GroupedChars(i: int)
    ensures |Grouped(i)| >= 1 && IsDigit(Grouped(i)[|Grouped(i)| - 1])
    ensures IsDigit(Grouped(i)[0]) || (Grouped(i)[0] == '-' && i < 0)
    ensures forall k :: 0 <= k < |Grouped(i)| ==>
      IsDigit(Grouped(i)[k]) || Grouped(i)[k] == ',' || (k == 0 && Grouped(i)[k] == '-')
  {
    var ds := NatToString(if i < 0 then -i else i);
    GroupDigitsChars(ds);
    var g := GroupDigits(ds);
    if i < 0 {
      var r := "-" + g;
      forall k | 0 <= k < |r| ensures IsDigit(r[k]) || r[k] == ',' || (k == 0 && r[k] == '-') {
        if k > 0 { assert r[k] == g[k - 1]; }
      }
    }
  }

  /** The integer `x * 10^f` rounded half up, for x >= 0. */
  function ScaledRound(x: real, f: nat): nat
    requires x >= 0.0
  {
    (x * Pow10(f) as real + 0.5).Floor
  }

  /**
   * The integer and fraction digits of q / 10^f with exactly f fraction digits
   * (the integer part has at least one digit).
   */
  function FixedParts(q: nat, f: nat): (r: (string, string))
    ensures |r.0| >= 1 && |r.1| == f
  {
    var m := PadZeros(NatToString(q), f + 1);
    (m[..|m| - f], m[|m| - f..])
  }

  /** Left-padding with zeros keeps the digits and their value. */
  lemma PadZerosDigits(ds: string, n: nat)
    requires AllDigits(ds)
    ensures AllDigits(PadZeros(ds, n)) && DigitsValue(PadZeros(ds, n)) == DigitsValue(ds)
  {
    if |ds| < n {
      var z := seq(n - |ds|, _ => '0');
      assert PadZeros(ds, n) == z + ds;
      LeadingZeros(n - |ds|, ds);
      var m := z + ds;
      forall k | 0 <= k < |m| ensures IsDigit(m[k]) {
        if k < |z| { assert m[k] == z[k]; } else { assert m[k] == ds[k - |z|]; }
      }
    }
  }

  /** Cutting a digit string f places from the right splits its value as high * 10^f + low. */
  lemma SplitDigits(m: string, f: nat)
    requires AllDigits(m) && f < |m|
    ensures AllDigits(m[..|m| - f]) && AllDigits(m[|m| - f..])
    ensures DigitsValue(m[..|m| - f]) * Pow10(f) + DigitsValue(m[|m| - f..]) == DigitsValue(m)
  {
    var ip, fp := m[..|m| - f], m[|m| - f..];
    assert m == ip + fp;
    forall k | 0 <= k < |ip| ensures IsDigit(ip[k]) { assert ip[k] == m[k]; }
    forall k | 0 <= k < |fp| ensures IsDigit(fp[k]) { assert fp[k] == m[|m| - f + k]; }
    DigitsValueAppend(ip, fp);
  }

  lemma FixedPartsDigits(q: nat, f: nat)
    ensures AllDigits(FixedParts(q, f).0) && AllDigits(FixedParts(q, f).1)
    ensures DigitsValue(FixedParts(q, f).0) * Pow10(f) + DigitsValue(FixedParts(q, f).1) == q
  {
    var ds := NatToString(q);
    var m := PadZeros(ds, f + 1);
    assert FixedParts(q, f) == (m[..|m| - f], m[|m| - f..]);
    PadZerosDigits(ds, f + 1);
    assert DigitsValue(m) == q;
    SplitDigits(m, f);
  }

  /** `x.toFixed(f)` for |x| < 10^21: rounds half up on the magnitude; the sign is kept for x < 0. */
  function ToFixed(x: real, f: nat): string
  {
    var (ip, fp) := FixedParts(ScaledRound(Abs(x), f), f);
    DecimalText(x < 0.0, ip, fp)
  }

  /** The value `toFixed(f)` denotes. */
  function FixedValue(x: real, f: nat): real
  {
    var v := ScaledRound(Abs(x), f) as real / Pow10(f) as real;
    if x < 0.0 then -v else v
  }

  lemma MulDivCancel(a: real, p: real)
    requires p > 0.0
    ensures (a / p) * p == a
  {
  }

  /** The rounded value is within half a unit of the last fraction digit of x. */
  lemma FixedValueClose(x: real, f: nat)
    ensures Abs(FixedValue(x, f) - x) * Pow10(f) as real <= 0.5
  {
    var p := Pow10(f) as real;
    var a := Abs(x);
    var q := ScaledRound(a, f) as real;
    assert a * p - 0.5 < q <= a * p + 0.5;
    RoundClose(a, p, q);
    var v := q / p;
    assert FixedValue(x, f) == if x < 0.0 then -v else v;
    AbsOfSigned(x, v);
  }

  lemma AbsOfSigned(x: real, v: real)
    ensures Abs((if x < 0.0 then -v else v) - x) == Abs(v - Abs(x))
  {
  }

  /** If q is a * p rounded to the nearest integer, q / p is within 0.5 / p of a. */
  lemma RoundClose(a: real, p: real, q: real)
    requires p > 0.0 && a * p - 0.5 < q <= a * p + 0.5
    ensures Abs(q / p - a) * p <= 0.5
  {
    MulDivCancel(q, p);
    var e := q / p - a;
    assert e * p == q - a * p;
    if e >= 0.0 {
      assert Abs(e) * p == e * p;
    } else {
      assert Abs(e) * p == -(e * p);
    }
  }

  function StripTrailingZeros(s: string): (r: string)
    ensures |r| <= |s| && r == s[..|r|]
    ensures r == [] || r[|r| - 1] != '0'
    ensures forall k :: |r| <= k < |s| ==> s[k] == '0'
  {
    if |s| > 0 && s[|s| - 1] == '0' then StripTrailingZeros(s[..|s| - 1]) else s
  }

  /** Trailing zeros of a fraction do not change its value. */
  lemma {:induction false} StripValue(fp: string)
    requires AllDigits(fp)
    ensures AllDigits(StripTrailingZeros(fp))
    ensures DigitsValue(StripTrailingZeros(fp)) as real / Pow10(|StripTrailingZeros(fp)|) as real
      == DigitsValue(fp) as real / Pow10(|fp|) as real
    decreases |fp|
  {
    var r := StripTrailingZeros(fp);
    forall k | 0 <= k < |r| ensures IsDigit(r[k]) { assert r[k] == fp[k]; }
    if |fp| > 0 && fp[|fp| - 1] == '0' {
      var init := fp[..|fp| - 1];
      forall k | 0 <= k < |init| ensures IsDigit(init[k]) { assert init[k] == fp[k]; }
      StripValue(init);
      assert DigitsValue(fp) == DigitsValue(init) * 10;
      assert Pow10(|fp|) == Pow10(|init|) * 10;
      DivTen(DigitsValue(init), Pow10(|init|));
    }
  }

  lemma DivTen(a: nat, p: nat)
    requires p >= 1
    ensures (a * 10) as real / (p * 10) as real == a as real / p as real
  {
    assert (a * 10) as real == a as real * 10.0;
    assert (p * 10) as real == p as real * 10.0;
  }

  /** Rounding an already rounded value again changes nothing, except that -0 loses its sign. */
  lemma ToFixedStable(x: real, f: nat)
    requires x >= 0.0 || FixedValue(x, f) != 0.0
    ensures FixedValue(FixedValue(x, f), f) == FixedValue(x, f)
    ensures ToFixed(FixedValue(x, f), f) == ToFixed(x, f)
  {
    var q := ScaledRound(Abs(x), f);
    var p := Pow10(f) as real;
    var v := q as real / p;
    MulDivCancel(q as real, p);
    assert v * p + 0.5 == q as real + 0.5;
    assert ScaledRound(v, f) == q;
    var y := FixedValue(x, f);
    assert y == if x < 0.0 then -v else v;
    assert Abs(y) == v;
    assert y < 0.0 <==> x < 0.0;
  }

  /**
   * `x.toLocaleString('en-US', { maximumFractionDigits: f })`: half-expand rounding
   * to f fraction digits, grouped integer part, no trailing fraction zeros.
   */
  function FormatLocale(x: real, f: nat): string
  {
    var (ip, fp) := FixedParts(ScaledRound(Abs(x), f), f);
    DecimalText(x < 0.0, GroupDigits(ip), StripTrailingZeros(fp))
  }

  /** The text of a decimal literal with an optional '-', integer digits and optional fraction digits. */
  function DecimalText(neg: bool, ip: string, fp: string): string
  {
    (if neg then "-" else "") + ip + (if fp == [] then "" else "." + fp)
  }

  function DecimalTextValue(neg: bool, ip: string, fp: string): real
  {
    if neg then -DecimalValue(ip, fp) else DecimalValue(ip, fp)
  }

  /** `String(i)` is the literal of |i| with a '-' for negative i. */
  lemma IntToStringText(i: int)
    ensures IntToString(i) == DecimalText(i < 0, NatToString(if i < 0 then -i else i), "")
    ensures DecimalTextValue(i < 0, NatToString(if i < 0 then -i else i), "") == i as real
  {
    assert DecimalValue(NatToString(if i < 0 then -i else i), "") == DigitsValue(NatToString(if i < 0 then -i else i)) as real;
  }

  /** The digits FixedParts produces denote q / 10^f. */
  lemma FixedPartsValue(q: nat, f: nat)
    ensures AllDigits(FixedParts(q, f).0) && AllDigits(FixedParts(q, f).1)
    ensures DecimalValue(FixedParts(q, f).0, FixedParts(q, f).1) == q as real / Pow10(f) as real
  {
    FixedPartsDigits(q, f);
    SplitValue(FixedParts(q, f).0, FixedParts(q, f).1, q);
  }

  lemma SplitValue(ip: string, fp: string, q: nat)
    requires DigitsValue(ip) * Pow10(|fp|) + DigitsValue(fp) == q
    ensures DecimalValue(ip, fp) == q as real / Pow10(|fp|) as real
  {
    RealOfSplit(DigitsValue(ip), Pow10(|fp|), DigitsValue(fp), q);
  }

  /** Dividing `di * pw + df` by pw, over the reals. */
  lemma RealOfSplit(di: nat, pw: nat, df: nat, q: nat)
    requires pw >= 1 && di * pw + df == q
    ensures q as real / pw as real == di as real + df as real / pw as real
  {
    assert (di * pw) as real == di as real * pw as real;
    assert q as real == di as real * pw as real + df as real;
  }

  /** The literal `toFixed(f)` prints denotes the rounded value. */
  lemma ToFixedValue(x: real, f: nat)
    ensures AllDigits(FixedParts(ScaledRound(Abs(x), f), f).0) && AllDigits(FixedParts(ScaledRound(Abs(x), f), f).1)
    ensures DecimalTextValue(x < 0.0, FixedParts(ScaledRound(Abs(x), f), f).0, FixedParts(ScaledRound(Abs(x), f), f).1) == FixedValue(x, f)
  {
    FixedPartsValue(ScaledRound(Abs(x), f), f);
  }

  /** Every character of a decimal literal's text is a digit, '-' or '.'. */
  lemma TextChars(neg: bool, ip: string, fp: string)
    requires AllDigits(ip) && AllDigits(fp)
    ensures forall k :: 0 <= k < |DecimalText(neg, ip, fp)| ==>
      IsDigit(DecimalText(neg, ip, fp)[k]) || DecimalText(neg, ip, fp)[k] == '-' || DecimalText(neg, ip, fp)[k] == '.'
  {
    var s := DecimalText(neg, ip, fp);
    var sign := if neg then "-" else "";
    forall k | 0 <= k < |s| ensures IsDigit(s[k]) || s[k] == '-' || s[k] == '.' {
      if k < |sign| {
        assert s[k] == '-';
      } else if k < |sign| + |ip| {
        assert s[k] == ip[k - |sign|];
      } else if k > |sign| + |ip| {
        assert s[k] == fp[k - |sign| - |ip| - 1];
      }
    }
  }

  /** `x.toFixed(f)` is made of digits, '.' and '-'. */
  lemma ToFixedChars(x: real, f: nat)
    ensures forall k :: 0 <= k < |ToFixed(x, f)| ==>
      IsDigit(ToFixed(x, f)[k]) || ToFixed(x, f)[k] == '-' || ToFixed(x, f)[k] == '.'
  {
    var q := ScaledRound(Abs(x), f);
    FixedPartsDigits(q, f);
    TextChars(x < 0.0, FixedParts(q, f).0, FixedParts(q, f).1);
  }

  /** `String(n)` for n >= 10 is `String(n / 10)` followed by the last digit. */
  lemma NatToStringStep(n: nat)
    requires n >= 10
    ensures |NatToString(n)| == |NatToString(n / 10)| + 1
    ensures NatToString(n)[..|NatToString(n)| - 1] == NatToString(n / 10)
  {
  }

  /** `String(n)` has at most three digits exactly when n < 1000. */
  lemma NatToStringShort(n: nat)
    ensures |NatToString(n)| <= 3 <==> n < 1000
  {
    if n >= 1000 {
      NatToStringStep(n);
      NatToStringStep(n / 10);
      NatToStringStep(n / 10 / 10);
    } else if n >= 100 {
      NatToStringStep(n);
      NatToStringStep(n / 10);
    } else if n >= 10 {
      NatToStringStep(n);
    }
  }

  /** `String(n)` has at most two digits exactly when n < 100. */
  lemma NatToStringTwo(n: nat)
    ensures |NatToString(n)| <= 2 <==> n < 100
  {
    if n >= 100 {
      NatToStringStep(n);
      NatToStringStep(n / 10);
    } else if n >= 10 {
      NatToStringStep(n);
    }
  }

  lemma Div1000(n: nat)
    ensures n / 10 / 10 / 10 == n / 1000
  {
    var q, r := n / 1000, n % 1000;
    assert n == 1000 * q + r;
    assert n / 10 == 100 * q + r / 10;
    assert n / 10 / 10 == 10 * q + r / 100;
  }

  /** Dropping the last three digits of `String(n)` gives `String(n / 1000)`. */
  lemma NatToStringThousands(n: nat)
    requires n >= 1000
    ensures |NatToString(n)| > 3
    ensures NatToString(n)[..|NatToString(n)| - 3] == NatToString(n / 1000)
  {
    NatToStringShort(n);
    Div1000(n);
    NatToStringStep(n);
    NatToStringStep(n / 10);
    NatToStringStep(n / 10 / 10);
    InitThrice(NatToString(n), NatToString(n / 10), NatToString(n / 10 / 10), NatToString(n / 1000));
  }

  lemma InitThrice(s: string, a: string, b: string, c: string)
    requires |s| == |a| + 1 && |a| == |b| + 1 && |b| == |c| + 1
    requires s[..|s| - 1] == a && a[..|a| - 1] == b && b[..|b| - 1] == c
    ensures s[..|s| - 3] == c
  {
    assert s[..|s| - 3] == a[..|a| - 2];
    assert a[..|a| - 2] == b[..|b| - 1];
  }
}
