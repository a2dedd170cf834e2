/** JavaScript value and string semantics that every part of the model shares.
    A JavaScript string is modelled as a sequence of characters; `null` and
    `undefined` are both `None`. */
module Js {

  /** A value that may be `null`/`undefined`. */
  datatype Option<+T> = None | Some(value: T)

  /** The characters that String.prototype.trim removes and that the regular
      expression class \s matches: the WhiteSpace and LineTerminator
      productions of ECMA-262 (sections 12.2 and 12.3). */
  predicate IsWhitespace(c: char) {
    || c == '\t' || c == '\n' || c == '\U{000B}' || c == '\U{000C}' || c == '\r'
    || c == ' ' || c == '\U{00A0}' || c == '\U{1680}'
    || ('\U{2000}' <= c <= '\U{200A}')
    || c == '\U{2028}' || c == '\U{2029}' || c == '\U{202F}' || c == '\U{205F}'
    || c == '\U{3000}' || c == '\U{FEFF}'
  }

  predicate IsDigit(c: char) { '0' <= c <= '9' }

  predicate IsAsciiLetter(c: char) { 'a' <= c <= 'z' || 'A' <= c <= 'Z' }

  predicate IsHexDigit(c: char) { IsDigit(c) || 'a' <= c <= 'f' || 'A' <= c <= 'F' }

  // ---------------------------------------------------------------------------
  // Decimal numerals

  function DigitValue(c: char): nat
    requires IsDigit(c)
  {
    c as int - '0' as int
  }

  /** The value of a string of decimal digits, read most significant first. */
  function DecimalValue(t: string): nat
    requires forall i :: 0 <= i < |t| ==> IsDigit(t[i])
  {
    if t == [] then 0 else DecimalValue(t[..|t| - 1]) * 10 + DigitValue(t[|t| - 1])
  }

  /** `n` in decimal without leading zeros. */
  function NatToDecimal(n: nat): (t: string)
    ensures 1 <= |t|
    ensures forall i :: 0 <= i < |t| ==> IsDigit(t[i])
    ensures DecimalValue(t) == n
    ensures n < 10 ==> |t| == 1
    ensures n < 100 ==> |t| <= 2
    ensures n < 1000 ==> |t| <= 3
  {
    var d := [('0' as int + n % 10) as char];
    if n < 10 then d
    else
      var t := NatToDecimal(n / 10) + d;
      assert t[..|t| - 1] == NatToDecimal(n / 10);
      t
  }

  /** `String(n)` for an integer `n`: its decimal numeral, with a minus sign
      when negative. */
  function IntToDecimal(n: int): (t: string)
    ensures |t| >= 1
    ensures t[0] == '-' <==> n < 0
    ensures n >= 0 ==> t == NatToDecimal(n)
  {
    if n >= 0 then NatToDecimal(n) else "-" + NatToDecimal(-n)
  }

  // ---------------------------------------------------------------------------
  // String.prototype.trim

  /** Drops leading whitespace. */
  function TrimStart(s: string): (r: string)
    ensures |r| <= |s| && r == s[|s| - |r|..]
    ensures forall i :: 0 <= i < |s| - |r| ==> IsWhitespace(s[i])
    ensures r == [] || !IsWhitespace(r[0])
  {
    if |s| > 0 && IsWhitespace(s[0]) then TrimStart(s[1..]) else s
  }

  /** Drops trailing whitespace. */
  function TrimEnd(s: string): (r: string)
    ensures |r| <= |s| && r == s[..|r|]
    ensures forall i :: |r| <= i < |s| ==> IsWhitespace(s[i])
    ensures r == [] || !IsWhitespace(r[|r| - 1])
  {
    if |s| > 0 && IsWhitespace(s[|s| - 1]) then TrimEnd(s[..|s| - 1]) else s
  }

  /** `s.trim()`: the longest infix of `s` that neither starts nor ends with
      whitespace; everything cut away is whitespace. */
  function Trim(s: string): (r: string)
    ensures |r| <= |s|
    ensures r == [] || (!IsWhitespace(r[0]) && !IsWhitespace(r[|r| - 1]))
    ensures IsSubsequence(r, s)
    ensures forall c :: c in r ==> c in s
  {
    var t := TrimStart(s);
    var r := TrimEnd(t);
    PrefixIsSubsequence(r, t);
    SuffixIsSubsequence(t, s);
    SubsequenceTransitive(r, t, s);
    SubsequenceElements(r, s);
    r
  }

  /** Whitespace-only strings are exactly those that trim to the empty string. */
  lemma TrimEmptyIffBlank(s: string)
    ensures Trim(s) == [] <==> forall i :: 0 <= i < |s| ==> IsWhitespace(s[i])
  {
    var t := TrimStart(s);
    if Trim(s) == [] {
      assert TrimEnd(t) == [];
      forall i | 0 <= i < |s| ensures IsWhitespace(s[i]) {
        if i >= |s| - |t| {
          SuffixIndex(s, |s| - |t|, i);
        }
      }
    }
  }

  lemma SuffixIndex(s: string, k: nat, i: nat)
    requires k <= i < |s|
    ensures s[k..][i - k] == s[i]
  {
  }

  /** Trimming twice is trimming once. */
  lemma TrimIdempotent(s: string)
    ensures Trim(Trim(s)) == Trim(s)
  {
    var r := Trim(s);
    assert TrimStart(r) == r;
    assert TrimEnd(r) == r;
  }

  /** Whitespace added around a string is removed again by trim. */
  lemma {:induction false} TrimPadding(a: string, s: string, b: string)
    requires forall i :: 0 <= i < |a| ==> IsWhitespace(a[i])
    requires forall i :: 0 <= i < |b| ==> IsWhitespace(b[i])
    ensures Trim(a + s + b) == Trim(s)
  {
    assert a + s + b == a + (s + b);
    TrimStartPadding(a, s + b);
    TrimStartAppend(s, b);
    calc {
      Trim(a + s + b);
      TrimEnd(TrimStart(a + (s + b)));
      TrimEnd(TrimStart(s + b));
      TrimEnd(TrimStart(s));
      Trim(s);
    }
  }

  lemma {:induction false} TrimStartPadding(a: string, s: string)
    requires forall i :: 0 <= i < |a| ==> IsWhitespace(a[i])
    ensures TrimStart(a + s) == TrimStart(s)
    decreases |a|
  {
    if |a| > 0 {
      assert (a + s)[1..] == a[1..] + s;
      TrimStartPadding(a[1..], s);
    } else {
      assert a + s == s;
    }
  }

  lemma {:induction false} TrimEndPadding(s: string, b: string)
    requires forall i :: 0 <= i < |b| ==> IsWhitespace(b[i])
    ensures TrimEnd(s + b) == TrimEnd(s)
    decreases |b|
  {
    if |b| > 0 {
      assert (s + b)[..|s + b| - 1] == s + b[..|b| - 1];
      TrimEndPadding(s, b[..|b| - 1]);
    } else {
      assert s + b == s;
    }
  }

  /** Trailing whitespace does not change where the leading whitespace ends,
      unless the string is blank. */
  lemma {:induction false} TrimStartAppend(s: string, b: string)
    requires forall i :: 0 <= i < |b| ==> IsWhitespace(b[i])
    ensures TrimStart(s + b) == TrimStart(s) + b || (TrimStart(s) == [] && TrimStart(s + b) == [])
    ensures TrimEnd(TrimStart(s + b)) == TrimEnd(TrimStart(s))
    decreases |s|
  {
    if |s| > 0 && IsWhitespace(s[0]) {
      assert (s + b)[1..] == s[1..] + b;
      TrimStartAppend(s[1..], b);
    } else if |s| > 0 {
      assert (s + b)[0] == s[0];
      TrimEndPadding(s, b);
    } else {
      assert s + b == b;
      AllBlankTrimsAway(b);
    }
  }

  lemma AllBlankTrimsAway(b: string)
    requires forall i :: 0 <= i < |b| ==> IsWhitespace(b[i])
    ensures TrimStart(b) == []
  {
  }

  // ---------------------------------------------------------------------------
  // Subsequences

  /** `a` can be obtained from `b` by deleting characters. */
  predicate IsSubsequence<T(==)>(a: seq<T>, b: seq<T>)
    decreases |b|
  {
    if a == [] then true
    else if b == [] then false
    else if a[0] == b[0] then IsSubsequence(a[1..], b[1..])
    else IsSubsequence(a, b[1..])
  }

  lemma {:induction false} SubsequenceReflexive<T>(a: seq<T>)
    ensures IsSubsequence(a, a)
    decreases |a|
  {
    if a != [] {
      SubsequenceReflexive(a[1..]);
    }
  }

  lemma {:induction false} SubsequenceLength<T>(a: seq<T>, b: seq<T>)
    requires IsSubsequence(a, b)
    ensures |a| <= |b|
    decreases |b|
  {
    if a != [] {
      if a[0] == b[0] {
        SubsequenceLength(a[1..], b[1..]);
      } else {
        SubsequenceLength(a, b[1..]);
      }
    }
  }

  lemma {:induction false} SubsequenceElements<T>(a: seq<T>, b: seq<T>)
    requires IsSubsequence(a, b)
    ensures forall x :: x in a ==> x in b
    decreases |b|
  {
    if a != [] {
      if a[0] == b[0] {
        SubsequenceElements(a[1..], b[1..]);
        assert forall x :: x in a ==> x == a[0] || x in a[1..];
      } else {
        SubsequenceElements(a, b[1..]);
      }
    }
  }

  /** Deleting one more element of `b`'s front keeps a subsequence of `b`. */
  lemma {:induction false} SubsequenceExtend<T>(a: seq<T>, b: seq<T>)
    requires b != [] && IsSubsequence(a, b[1..])
    ensures IsSubsequence(a, b)
    decreases |b|, 0
  {
    if a != [] && a[0] == b[0] {
      SubsequenceDropHead(a, b[1..]);
    }
  }

  lemma {:induction false} SubsequenceDropHead<T>(a: seq<T>, b: seq<T>)
    requires a != [] && IsSubsequence(a, b)
    ensures IsSubsequence(a[1..], b)
    decreases |b|, 1
  {
    if a[0] == b[0] {
      SubsequenceExtend(a[1..], b);
    } else {
      SubsequenceDropHead(a, b[1..]);
      SubsequenceExtend(a[1..], b);
    }
  }

  lemma {:induction false} SubsequenceTransitive<T>(a: seq<T>, b: seq<T>, c: seq<T>)
    requires IsSubsequence(a, b) && IsSubsequence(b, c)
    ensures IsSubsequence(a, c)
    decreases |c|
  {
    if a == [] {
    } else if b[0] == c[0] {
      if a[0] == b[0] {
        SubsequenceTransitive(a[1..], b[1..], c[1..]);
      } else {
        SubsequenceTransitive(a, b[1..], c[1..]);
        SubsequenceExtend(a, c);
      }
    } else {
      SubsequenceTransitive(a, b, c[1..]);
      SubsequenceExtend(a, c);
    }
  }

  lemma {:induction false} SuffixIsSubsequence<T>(a: seq<T>, b: seq<T>)
    requires |a| <= |b| && a == b[|b| - |a|..]
    ensures IsSubsequence(a, b)
    decreases |b|
  {
    if |a| == |b| {
      SubsequenceReflexive(a);
    } else {
      SuffixIsSubsequence(a, b[1..]);
      SubsequenceExtend(a, b);
    }
  }

  lemma {:induction false} PrefixIsSubsequence<T>(a: seq<T>, b: seq<T>)
    requires |a| <= |b| && a == b[..|a|]
    ensures IsSubsequence(a, b)
    decreases |b|
  {
    if a == [] {
    } else {
      PrefixIsSubsequence(a[1..], b[1..]);
    }
  }

  // ---------------------------------------------------------------------------
  // Filtering characters (String.prototype.replace with a global character class)

  /** The characters of `s` that satisfy `keep`, in their original order. */
  function Filter(s: string, keep: char -> bool): (r: string)
    ensures |r| <= |s|
    ensures forall i :: 0 <= i < |r| ==> keep(r[i])
    ensures forall c :: c in s && keep(c) ==> c in r
    ensures forall c :: c in r ==> c in s
  {
    if s == [] then []
    else if keep(s[0]) then [s[0]] + Filter(s[1..], keep)
    else Filter(s[1..], keep)
  }

  lemma {:induction false} FilterIsSubsequence(s: string, keep: char -> bool)
    ensures IsSubsequence(Filter(s, keep), s)
    decreases |s|
  {
    if s != [] {
      FilterIsSubsequence(s[1..], keep);
      if !keep(s[0]) {
        SubsequenceExtend(Filter(s, keep), s);
      }
    }
  }

  lemma {:induction false} FilterAppend(a: string, b: string, keep: char -> bool)
    ensures Filter(a + b, keep) == Filter(a, keep) + Filter(b, keep)
    decreases |a|
  {
    if a == [] {
      assert a + b == b;
    } else {
      assert (a + b)[1..] == a[1..] + b;
      FilterAppend(a[1..], b, keep);
    }
  }

  /** Every kept character keeps all of its copies, and every dropped one
      loses them all. */
  lemma {:induction false} FilterCounts(s: string, keep: char -> bool)
    ensures forall c :: multiset(Filter(s, keep))[c] == if keep(c) then multiset(s)[c] else 0
    decreases |s|
  {
    if s != [] {
      FilterCounts(s[1..], keep);
      assert s == [s[0]] + s[1..];
      assert multiset(s) == multiset([s[0]]) + multiset(s[1..]);
    }
  }

  /** A string whose characters all pass is left as it is. */
  lemma {:induction false} FilterKeepsAll(s: string, keep: char -> bool)
    requires forall i :: 0 <= i < |s| ==> keep(s[i])
    ensures Filter(s, keep) == s
    decreases |s|
  {
    if s != [] {
      FilterKeepsAll(s[1..], keep);
    }
  }

  lemma FilterIdempotent(s: string, keep: char -> bool)
    ensures Filter(Filter(s, keep), keep) == Filter(s, keep)
  {
    FilterKeepsAll(Filter(s, keep), keep);
  }

  // ---------------------------------------------------------------------------
  // toLowerCase, includes, join, split

  /** ASCII case folding of one character. */
  function LowerChar(c: char): (d: char)
    ensures 'A' <= c <= 'Z' ==> 'a' <= d <= 'z'
    ensures !('A' <= c <= 'Z') ==> d == c
  {
    if 'A' <= c <= 'Z' then (c as int + 32) as char else c
  }

  /** `s.toLowerCase()` restricted to ASCII letters. */
  function ToLower(s: string): (r: string)
    ensures |r| == |s|
    ensures forall i :: 0 <= i < |s| ==> r[i] == LowerChar(s[i])
  {
    seq(|s|, i requires 0 <= i < |s| => LowerChar(s[i]))
  }

  /** `s.includes(sub)`. */
  predicate Includes(s: string, sub: string) {
    exists i | 0 <= i <= |s| - |sub| :: OccursAt(s, sub, i)
  }

  /** `sub` occurs in `s` starting at index `i`. */
  predicate OccursAt(s: string, sub: string, i: int) {
    0 <= i && i + |sub| <= |s| && s[i..i + |sub|] == sub
  }

  lemma IncludesEmpty(s: string)
    ensures Includes(s, [])
  {
    assert OccursAt(s, [], 0);
  }

  /** `xs.join(sep)`. */
  function Join(xs: seq<string>, sep: string): (r: string)
    ensures xs == [] ==> r == []
    ensures |xs| == 1 ==> r == xs[0]
    ensures |xs| > 1 ==> r == xs[0] + sep + Join(xs[1..], sep)
  {
    if xs == [] then []
    else if |xs| == 1 then xs[0]
    else xs[0] + sep + Join(xs[1..], sep)
  }

  /** `s.split(sep)` for a one-character separator: the fields between
      separators, none of which contains the separator, and which joined with
      the separator give `s` back. */
  function Split(s: string, sep: char): (r: seq<string>)
    ensures |r| >= 1
    ensures forall i :: 0 <= i < |r| ==> sep !in r[i]
    ensures Join(r, [sep]) == s
    decreases |s|
  {
    if s == [] then [[]]
    else
      var rest := Split(s[1..], sep);
      assert s == [s[0]] + s[1..];
      if s[0] == sep then
        assert ([[]] + rest)[1..] == rest;
        [[]] + rest
      else
        var r := [[s[0]] + rest[0]] + rest[1..];
        JoinExtendHead(s[0], rest, [sep]);
        assert forall i :: 1 <= i < |r| ==> r[i] == rest[i];
        r
  }

  /** Prefixing the first field prefixes the joined string. */
  lemma JoinExtendHead(c: char, xs: seq<string>, sep: string)
    requires |xs| >= 1
    ensures Join([[c] + xs[0]] + xs[1..], sep) == [c] + Join(xs, sep)
  {
    var r := [[c] + xs[0]] + xs[1..];
    assert r[1..] == xs[1..];
  }

  /** Splitting undoes joining when no field contains the separator. */
  lemma {:induction false} SplitJoin(xs: seq<string>, sep: char)
    requires |xs| >= 1
    requires forall i :: 0 <= i < |xs| ==> sep !in xs[i]
    ensures Split(Join(xs, [sep]), sep) == xs
    decreases |xs|
  {
    if |xs| == 1 {
      SplitNoSeparator(xs[0], sep);
    } else {
      SplitCons(xs[0], Join(xs[1..], [sep]), sep);
      assert xs[0] + [sep] + Join(xs[1..], [sep]) == Join(xs, [sep]);
      SplitJoin(xs[1..], sep);
      assert xs == [xs[0]] + xs[1..];
    }
  }

  /** A field followed by the separator splits off as the first field. */
  lemma {:induction false} SplitCons(x: string, rest: string, sep: char)
    requires sep !in x
    ensures Split(x + [sep] + rest, sep) == [x] + Split(rest, sep)
    decreases |x|
  {
    var s := x + [sep] + rest;
    if x == [] {
      assert s[1..] == rest;
    } else {
      assert s[1..] == x[1..] + [sep] + rest;
      SplitCons(x[1..], rest, sep);
      var tail := Split(s[1..], sep);
      assert tail == [x[1..]] + Split(rest, sep);
      assert s[0] == x[0] && s[0] != sep;
      assert Split(s, sep) == [[x[0]] + tail[0]] + tail[1..];
      assert [x[0]] + x[1..] == x;
    }
  }

  /** A string without the separator is a single field. */
  lemma {:induction false} SplitNoSeparator(s: string, sep: char)
    requires sep !in s
    ensures Split(s, sep) == [s]
    decreases |s|
  {
    if s != [] {
      SplitNoSeparator(s[1..], sep);
      assert [s[0]] + s[1..] == s;
    }
  }

  /** `s.slice(0, n)` for non-negative `n`, on strings and arrays alike. */
  function Take<T>(s: seq<T>, n: nat): (r: seq<T>)
    ensures |r| <= n && |r| <= |s|
    ensures r == s[..|r|]
    ensures |s| <= n ==> r == s
  {
    if |s| <= n then s else s[..n]
  }

  // ---------------------------------------------------------------------------
  // Code-point order, which is the order Array.prototype.sort gives strings
  // within the Basic Multilingual Plane

  /** Strict lexicographic order on strings, comparing characters by code. */
  predicate StrLess(a: string, b: string)
    decreases |a|
  {
    if a == [] then b != []
    else if b == [] then false
    else if a[0] != b[0] then a[0] < b[0]
    else StrLess(a[1..], b[1..])
  }

  lemma {:induction false} StrLessIrreflexive(a: string)
    ensures !StrLess(a, a)
    decreases |a|
  {
    if a != [] {
      StrLessIrreflexive(a[1..]);
    }
  }

  lemma {:induction false} StrLessTransitive(a: string, b: string, c: string)
    requires StrLess(a, b) && StrLess(b, c)
    ensures StrLess(a, c)
    decreases |a|
  {
    if a != [] && a[0] == b[0] && b[0] == c[0] {
      StrLessTransitive(a[1..], b[1..], c[1..]);
    }
  }

  lemma {:induction false} StrLessTotal(a: string, b: string)
    ensures a == b || StrLess(a, b) || StrLess(b, a)
    decreases |a|
  {
    if a != [] && b != [] && a[0] == b[0] {
      StrLessTotal(a[1..], b[1..]);
      if a[1..] == b[1..] {
        assert a == [a[0]] + a[1..];
        assert b == [b[0]] + b[1..];
      }
    }
  }

  lemma {:induction false} StrLessAsymmetric(a: string, b: string)
    requires StrLess(a, b)
    ensures !StrLess(b, a)
  {
    if StrLess(b, a) {
      StrLessTransitive(a, b, a);
      StrLessIrreflexive(a);
    }
  }
}
