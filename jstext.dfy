/**
 * The JavaScript string operations the dashboard and the sheet scripts rely on:
 * the whitespace class shared by `\s`, `trim()` and `parseFloat`, character
 * removal (`replace(/[...]/g, '')`), `replace` of a first occurrence,
 * `includes`, ASCII case mapping and `split`.
 */
module JsText {

  /** The characters of `\s` (WhiteSpace and LineTerminator of ECMA-262). */
  predicate IsSpace(c: char)
  {
    c == ' ' || c == '\t' || c == '\n' || c == '\r' || c == '\U{000B}' || c == '\U{000C}'
    || c == '\U{00A0}' || c == '\U{1680}' || ('\U{2000}' <= c <= '\U{200A}')
    || c == '\U{2028}' || c == '\U{2029}' || c == '\U{202F}' || c == '\U{205F}'
    || c == '\U{3000}' || c == '\U{FEFF}'
  }

  predicate IsDigit(c: char) { '0' <= c <= '9' }

  predicate IsAsciiLetter(c: char) { ('a' <= c <= 'z') || ('A' <= c <= 'Z') }

  predicate AllDigits(s: string) { forall k :: 0 <= k < |s| ==> IsDigit(s[k]) }

  /** `s.replace(/^\s+/, '')` */
  function TrimStart(s: string): (r: string)
    ensures |r| <= |s|
    ensures r == [] || !IsSpace(r[0])
  {
    if |s| > 0 && IsSpace(s[0]) then TrimStart(s[1..]) else s
  }

  /** `s.replace(/\s+$/, '')` */
  function TrimEnd(s: string): (r: string)
    ensures |r| <= |s| && r == s[..|r|]
    ensures r == [] || !IsSpace(r[|r| - 1])
  {
    if |s| > 0 && IsSpace(s[|s| - 1]) then TrimEnd(s[..|s| - 1]) else s
  }

  /** `s.trim()` */
  function Trim(s: string): (r: string)
    ensures |r| <= |s|
    ensures r == [] || (!IsSpace(r[0]) && !IsSpace(r[|r| - 1]))
  {
    TrimEnd(TrimStart(s))
  }

  lemma TrimUnchanged(s: string)
    requires s == [] || (!IsSpace(s[0]) && !IsSpace(s[|s| - 1]))
    ensures TrimStart(s) == s && Trim(s) == s
  {
    assert TrimStart(s) == s;
    assert TrimEnd(s) == s;
  }

  /** The characters `trimStart` keeps are the last ones of s. */
  lemma {:induction false} TrimStartOffset(s: string)
    ensures forall k :: 0 <= k < |TrimStart(s)| ==> TrimStart(s)[k] == s[k + (|s| - |TrimStart(s)|)]
  {
    if |s| > 0 && IsSpace(s[0]) {
      TrimStartOffset(s[1..]);
      assert forall k :: 0 <= k < |s| - 1 ==> s[1..][k] == s[k + 1];
    }
  }

  /** `trim()` keeps a contiguous run of the characters of s. */
  lemma TrimOffset(s: string) returns (d: nat)
    ensures d + |Trim(s)| <= |s|
    ensures forall k :: 0 <= k < |Trim(s)| ==> Trim(s)[k] == s[d + k]
  {
    var t := TrimStart(s);
    TrimStartOffset(s);
    d := |s| - |t|;
    assert Trim(s) == TrimEnd(t) == t[..|TrimEnd(t)|];
  }

  lemma {:induction false} TrimStartBlank(s: string)
    ensures TrimStart(s) == [] <==> forall k :: 0 <= k < |s| ==> IsSpace(s[k])
  {
    if |s| > 0 && IsSpace(s[0]) {
      TrimStartBlank(s[1..]);
      assert forall k :: 0 <= k < |s| - 1 ==> s[1..][k] == s[k + 1];
      assert forall k :: 1 <= k < |s| ==> s[k] == s[1..][k - 1];
    }
  }

  lemma {:induction false} TrimEndKeepsFirst(t: string)
    requires t != [] && !IsSpace(t[0])
    ensures TrimEnd(t) != []
    decreases |t|
  {
    if |t| > 1 && IsSpace(t[|t| - 1]) {
      TrimEndKeepsFirst(t[..|t| - 1]);
    }
  }

  /** Text made of whitespace only (or empty). */
  predicate Blank(s: string)
  {
    forall k :: 0 <= k < |s| ==> IsSpace(s[k])
  }

  /** `trim()` gives "" exactly for blank text. */
  lemma TrimBlank(s: string)
    ensures Trim(s) == [] <==> Blank(s)
  {
    TrimStartBlank(s);
    var t := TrimStart(s);
    if t != [] {
      TrimEndKeepsFirst(t);
    }
  }

  /** A regular-expression character class: listed characters, and `\s` when `spaces` is set. */
  datatype CharClass = CharClass(chars: set<char>, spaces: bool)

  predicate InClass(c: char, cls: CharClass)
  {
    c in cls.chars || (cls.spaces && IsSpace(c))
  }

  /** Removes every character of the class: `s.replace(/[...]/g, '')`. */
  function Remove(s: string, cls: CharClass): (r: string)
    ensures |r| <= |s|
    ensures forall k :: 0 <= k < |r| ==> !InClass(r[k], cls)
  {
    if s == [] then []
    else Remove(s[..|s| - 1], cls) + (if InClass(s[|s| - 1], cls) then [] else [s[|s| - 1]])
  }

  lemma {:induction false} RemoveAppend(a: string, b: string, cls: CharClass)
    ensures Remove(a + b, cls) == Remove(a, cls) + Remove(b, cls)
    decreases |b|
  {
    if b == [] {
      assert a + b == a;
    } else {
      var b' := b[..|b| - 1];
      assert (a + b)[..|a + b| - 1] == a + b';
      assert (a + b)[|a + b| - 1] == b[|b| - 1];
      RemoveAppend(a, b', cls);
    }
  }

  /** A string with no character of the class is kept whole. */
  lemma {:induction false} RemoveNone(s: string, cls: CharClass)
    requires forall k :: 0 <= k < |s| ==> !InClass(s[k], cls)
    ensures Remove(s, cls) == s
  {
    if s != [] {
      var s' := s[..|s| - 1];
      assert forall k :: 0 <= k < |s'| ==> s'[k] == s[k];
      RemoveNone(s', cls);
    }
  }

  /** Removing from a string with one more character at the end. */
  lemma RemoveSnoc(s: string, c: char, cls: CharClass)
    ensures Remove(s + [c], cls) == Remove(s, cls) + (if InClass(c, cls) then [] else [c])
  {
    assert (s + [c])[..|s|] == s;
  }

  /** A non-empty string is its initial part followed by its last character. */
  lemma InitLast(s: string)
    requires |s| >= 1
    ensures s == s[..|s| - 1] + [s[|s| - 1]]
  {
  }

  /** A character of the class in front is removed. */
  lemma RemoveDropped(c: char, s: string, cls: CharClass)
    requires InClass(c, cls)
    ensures Remove([c] + s, cls) == Remove(s, cls)
  {
    RemoveAppend([c], s, cls);
    assert [c][..0] == [];
  }

  /** `s.replace(c, '')` with a one-character pattern: drops the first occurrence only. */
  function ReplaceFirst(s: string, c: char): (r: string)
    ensures c in s ==> |r| == |s| - 1
    ensures c !in s ==> r == s
  {
    if s == [] then []
    else if s[0] == c then s[1..]
    else [s[0]] + ReplaceFirst(s[1..], c)
  }

  /** Dropping the first `c` of a text that only has one, at its end. */
  lemma {:induction false} ReplaceFirstLast(a: string, c: char)
    requires c !in a
    ensures ReplaceFirst(a + [c], c) == a
  {
    if a != [] {
      assert (a + [c])[1..] == a[1..] + [c];
      ReplaceFirstLast(a[1..], c);
    }
  }

  /** `s.toLowerCase()` on the ASCII letters; other characters are kept. */
  function Lower(s: string): (r: string)
    ensures |r| == |s|
    ensures forall k :: 0 <= k < |s| ==> r[k] == if 'A' <= s[k] <= 'Z' then (s[k] as int + 32) as char else s[k]
  {
    seq(|s|, k requires 0 <= k < |s| => if 'A' <= s[k] <= 'Z' then (s[k] as int + 32) as char else s[k])
  }

  /** `s.includes(t)` */
  predicate Contains(s: string, t: string)
  {
    if |t| > |s| then false else s[..|t|] == t || Contains(s[1..], t)
  }

  lemma {:induction false} ContainsAt(s: string, t: string, i: nat)
    requires i + |t| <= |s| && s[i..i + |t|] == t
    ensures Contains(s, t)
  {
    if i > 0 {
      assert s[1..][i - 1..i - 1 + |t|] == s[i..i + |t|];
      ContainsAt(s[1..], t, i - 1);
    }
  }

  lemma {:induction false} ContainsChar(s: string, c: char)
    ensures Contains(s, [c]) <==> c in s
  {
    if s != [] {
      ContainsChar(s[1..], c);
      assert s == [s[0]] + s[1..];
    }
  }

  /** A text lacking the first character of t does not contain t. */
  lemma {:induction false} ContainsNoFirst(s: string, t: string)
    requires |t| >= 1 && t[0] !in s
    ensures !Contains(s, t)
  {
    if |t| <= |s| {
      assert s[..|t|][0] == s[0];
      ContainsNoFirst(s[1..], t);
    }
  }

  /** Text with no upper-case ASCII letter is its own lower case. */
  lemma LowerKeeps(s: string)
    requires forall k :: 0 <= k < |s| ==> !('A' <= s[k] <= 'Z')
    ensures Lower(s) == s
  {
  }

  /** Splits at every occurrence of `sep`: `s.split(sep)` with a one-character separator. */
  function Split(s: string, sep: char): (parts: seq<string>)
    ensures |parts| >= 1
    ensures forall k :: 0 <= k < |parts| ==> sep !in parts[k]
  {
    if sep !in s then [s]
    else
      var i := IndexOf(s, sep);
      [s[..i]] + Split(s[i + 1..], sep)
  }

  /** Position of the first `c` in `s`. */
  function IndexOf(s: string, c: char): (i: nat)
    requires c in s
    ensures i < |s| && s[i] == c && c !in s[..i]
  {
    if s[0] == c then 0 else 1 + IndexOf(s[1..], c)
  }

  /** Number of occurrences of `c`. */
  function Count(s: string, c: char): nat
  {
    if s == [] then 0 else (if s[0] == c then 1 else 0) + Count(s[1..], c)
  }

  lemma {:induction false} SplitCount(s: string, sep: char)
    ensures |Split(s, sep)| == Count(s, sep) + 1
  {
    if sep !in s {
      CountAbsent(s, sep);
    } else {
      var i := IndexOf(s, sep);
      SplitCount(s[i + 1..], sep);
      CountSplitAt(s, sep, i);
    }
  }

  lemma {:induction false} CountAbsent(s: string, c: char)
    requires c !in s
    ensures Count(s, c) == 0
  {
    if s != [] { CountAbsent(s[1..], c); }
  }

  lemma {:induction false} CountSplitAt(s: string, c: char, i: nat)
    requires i < |s| && s[i] == c && c !in s[..i]
    ensures Count(s, c) == 1 + Count(s[i + 1..], c)
  {
    if i > 0 {
      assert s[1..][..i - 1] == s[1..i];
      assert s[1..][i - 1 + 1..] == s[i + 1..];
      CountSplitAt(s[1..], c, i - 1);
    }
  }

  /** `s.padStart(n, '0')` */
  function PadZeros(s: string, n: nat): (r: string)
    ensures |r| == if |s| >= n then |s| else n
    ensures forall k :: |r| - |s| <= k < |r| ==> r[k] == s[k - (|r| - |s|)]
    ensures forall k :: 0 <= k < |r| - |s| ==> r[k] == '0'
  {
    if |s| >= n then s else seq(n - |s|, _ => '0') + s
  }

  /** Lexicographic order on characters (code points), which is the default `Array.prototype.sort` order of strings for text below U+10000. */
  predicate StrLe(a: string, b: string)
  {
    if a == [] then true
    else if b == [] then false
    else if a[0] != b[0] then a[0] < b[0]
    else StrLe(a[1..], b[1..])
  }

  lemma {:induction false} StrLeTotal(a: string, b: string)
    ensures StrLe(a, b) || StrLe(b, a)
  {
    if a != [] && b != [] && a[0] == b[0] { StrLeTotal(a[1..], b[1..]); }
  }

  lemma {:induction false} StrLeTrans(a: string, b: string, c: string)
    requires StrLe(a, b) && StrLe(b, c)
    ensures StrLe(a, c)
  {
    if a != [] && b != [] && c != [] && a[0] == b[0] && b[0] == c[0] {
      StrLeTrans(a[1..], b[1..], c[1..]);
    }
  }

  lemma {:induction false} StrLeAntisym(a: string, b: string)
    requires StrLe(a, b) && StrLe(b, a)
    ensures a == b
  {
    if a != [] && b != [] {
      StrLeAntisym(a[1..], b[1..]);
    }
  }

  /** The step of an in-place sort: the elements at p and q exchanged. */
  function Swap<T>(s: seq<T>, p: nat, q: nat): (t: seq<T>)
    requires p < |s| && q < |s|
    ensures |t| == |s| && multiset(t) == multiset(s)
  {
    s[p := s[q]][q := s[p]]
  }
}
