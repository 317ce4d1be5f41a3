/**
 * The pieces of Python's string handling that the key naming scheme relies on:
 * `str.split` with a one-character separator, `str.join`, `int(s)` and `str(n)`.
 */
module Strings {
  import opened Wrappers

  /** Index of the first `c` in `s`, or `|s|` when `s` has none. */
  function Find(s: string, c: char): (i: nat)
    ensures i <= |s|
    ensures i < |s| ==> s[i] == c
    ensures forall k :: 0 <= k < i ==> s[k] != c
  {
    if s == [] then 0 else if s[0] == c then 0 else 1 + Find(s[1..], c)
  }

  /** Index of the last `c` in `s`, or -1 when `s` has none. */
  function RFind(s: string, c: char): (i: int)
    ensures -1 <= i < |s|
    ensures 0 <= i ==> s[i] == c
    ensures forall k :: i < k < |s| ==> s[k] != c
  {
    if s == [] then -1 else if s[|s| - 1] == c then |s| - 1 else RFind(s[..|s| - 1], c)
  }

  /** `s.split(c)`: the pieces between the occurrences of `c`, never an empty list. */
  function Split(s: string, c: char): (parts: seq<string>)
    ensures |parts| >= 1
    decreases |s|
  {
    var i := Find(s, c);
    if i == |s| then [s] else [s[..i]] + Split(s[i + 1..], c)
  }

  /** `sep.join(parts)`. */
  function Join(parts: seq<string>, sep: string): string
  {
    if |parts| == 0 then ""
    else if |parts| == 1 then parts[0]
    else parts[0] + sep + Join(parts[1..], sep)
  }

  predicate EndsWith(s: string, suffix: string)
  {
    |suffix| <= |s| && s[|s| - |suffix|..] == suffix
  }

  lemma FindIs(s: string, c: char, j: nat)
    requires j <= |s|
    requires j < |s| ==> s[j] == c
    requires forall k :: 0 <= k < j ==> s[k] != c
    ensures Find(s, c) == j
  {
  }

  lemma RFindIs(s: string, c: char, j: int)
    requires -1 <= j < |s|
    requires 0 <= j ==> s[j] == c
    requires forall k :: j < k < |s| ==> s[k] != c
    ensures RFind(s, c) == j
  {
  }

  /** A string is the text before an index, the character at it, and the text after it. */
  lemma Around(s: string, i: nat)
    requires i < |s|
    ensures s == s[..i] + [s[i]] + s[i + 1..]
  {
  }

  /** `s.count(c)`: the number of occurrences of `c` in `s`; zero exactly when there is none. */
  function Count(s: string, c: char): (n: nat)
    ensures n == 0 <==> c !in s
  {
    if s == [] then 0 else (if s[0] == c then 1 else 0) + Count(s[1..], c)
  }

  /** Counting is additive over concatenation. */
  lemma {:induction false} CountAppend(a: string, b: string, c: char)
    ensures Count(a + b, c) == Count(a, c) + Count(b, c)
  {
    if a == [] {
      assert a + b == b;
    } else {
      assert (a + b)[1..] == a[1..] + b;
      CountAppend(a[1..], b, c);
    }
  }

  /** `s.split(c)` has one more piece than `s` has occurrences of `c`. */
  lemma {:induction false} SplitCount(s: string, c: char)
    ensures |Split(s, c)| == Count(s, c) + 1
    decreases |s|
  {
    var i := Find(s, c);
    if i < |s| {
      var t := s[i + 1..];
      assert s == s[..i] + ([c] + t);
      CountAppend(s[..i], [c] + t, c);
      CountAppend([c], t, c);
      SplitAt(s, c, i);
      SplitCount(t, c);
    }
  }

  /** Cutting off the first piece: the text before the first `c`, then the pieces of the rest. */
  lemma SplitAt(s: string, c: char, i: nat)
    requires i == Find(s, c) < |s|
    ensures Split(s, c) == [s[..i]] + Split(s[i + 1..], c)
  {
  }

  /** No piece of `s.split(c)` contains `c`. */
  lemma {:induction false} SplitPieces(s: string, c: char)
    ensures forall k :: 0 <= k < |Split(s, c)| ==> c !in Split(s, c)[k]
    decreases |s|
  {
    var i := Find(s, c);
    if i < |s| {
      SplitAt(s, c, i);
      SplitPieces(s[i + 1..], c);
    }
  }

  /** No piece of `s.split(c)` contains `c`, and joining the pieces with `c` gives `s` back. */
  lemma {:induction false} SplitJoin(s: string, c: char)
    ensures forall k :: 0 <= k < |Split(s, c)| ==> c !in Split(s, c)[k]
    ensures Join(Split(s, c), [c]) == s
    decreases |s|
  {
    SplitPieces(s, c);
    var i := Find(s, c);
    if i < |s| {
      var t := s[i + 1..];
      SplitJoin(t, c);
      SplitAt(s, c, i);
      JoinCons(s[..i], Split(t, c), [c]);
      assert s == s[..i] + [c] + t;
    }
  }

  /** A string with exactly one `c` splits into the text before it and the text after it. */
  lemma SplitTwo(a: string, b: string, c: char)
    requires c !in a && c !in b
    ensures Split(a + [c] + b, c) == [a, b]
  {
    var s := a + [c] + b;
    FindIs(s, c, |a|);
    assert s[..|a|] == a && s[|a| + 1..] == b;
    FindIs(b, c, |b|);
  }

  /** A string without `c` is a single piece. */
  lemma SplitNone(s: string, c: char)
    requires c !in s
    ensures Split(s, c) == [s]
  {
    FindIs(s, c, |s|);
  }

  /** Appending a `c` and a piece without `c` appends that piece to the split. */
  lemma {:induction false} SplitSnoc(a: string, b: string, c: char)
    requires c !in b
    ensures Split(a + [c] + b, c) == Split(a, c) + [b]
    decreases |a|
  {
    var s := a + [c] + b;
    var i := Find(a, c);
    if i == |a| {
      assert c !in a;
      SplitTwo(a, b, c);
      SplitNone(a, c);
    } else {
      var a' := a[i + 1..];
      assert s[..i] == a[..i] && s[i + 1..] == a' + [c] + b;
      FindIs(s, c, i);
      calc {
        Split(s, c);
      == { SplitAt(s, c, i); }
        [a[..i]] + Split(a' + [c] + b, c);
      == { SplitSnoc(a', b, c); }
        [a[..i]] + (Split(a', c) + [b]);
      ==
        ([a[..i]] + Split(a', c)) + [b];
      == { SplitAt(a, c, i); }
        Split(a, c) + [b];
      }
    }
  }

  /**
   * The last piece of `s.split(c)` is the text after the last `c`, and the other
   * pieces joined with `c` are the text before it (nothing when `s` has no `c`).
   */
  lemma SplitLast(s: string, c: char)
    ensures var parts, j := Split(s, c), RFind(s, c);
      && parts[|parts| - 1] == s[j + 1..]
      && Join(parts[..|parts| - 1], [c]) == (if j < 0 then "" else s[..j])
  {
    var j := RFind(s, c);
    if j < 0 {
      SplitNone(s, c);
    } else {
      var a, b := s[..j], s[j + 1..];
      assert s == a + [c] + b;
      SplitSnoc(a, b, c);
      SplitJoin(a, c);
      var parts := Split(s, c);
      assert parts[..|parts| - 1] == Split(a, c);
    }
  }

  /** When `s` does not end in `c`, the last piece of `s.split(c)` ends in the same character as `s`. */
  lemma LastPieceEnds(s: string, c: char)
    requires |s| > 0 && s[|s| - 1] != c
    ensures var parts := Split(s, c); var last := parts[|parts| - 1];
      |last| > 0 && last[|last| - 1] == s[|s| - 1]
  {
    SplitLast(s, c);
    assert RFind(s, c) < |s| - 1;
  }

  lemma JoinCons(x: string, rest: seq<string>, sep: string)
    requires |rest| >= 1
    ensures Join([x] + rest, sep) == x + sep + Join(rest, sep)
  {
    assert ([x] + rest)[1..] == rest;
  }

  predicate IsDigit(ch: char)
  {
    '0' <= ch <= '9'
  }

  predicate AllDigits(s: string)
  {
    forall k :: 0 <= k < |s| ==> IsDigit(s[k])
  }

  /** The value of a string of decimal digits; leading zeros are allowed, as in `int("007")`. */
  function DigitsValue(s: string): nat
    requires AllDigits(s)
  {
    if s == [] then 0 else 10 * DigitsValue(s[..|s| - 1]) + (s[|s| - 1] as int - '0' as int)
  }

  /**
   * Python's `int(s)` on a string: an optional sign followed by one or more ASCII
   * digits; anything else is the `ValueError` case, here `None`.
   */
  function ParseInt(s: string): (r: Option<int>)
    ensures r.Some? ==> |s| > 0 && IsDigit(s[|s| - 1])
  {
    if |s| > 0 && (s[0] == '+' || s[0] == '-') then
      if |s| > 1 && AllDigits(s[1..]) then
        var v: int := DigitsValue(s[1..]);
        Some(if s[0] == '-' then -v else v)
      else None
    else if |s| > 0 && AllDigits(s) then Some(DigitsValue(s))
    else None
  }

  function DigitChar(d: nat): (ch: char)
    requires d < 10
    ensures IsDigit(ch) && ch as int - '0' as int == d
  {
    ('0' as int + d) as char
  }

  /** `str(n)` for `n >= 0`: decimal digits without leading zeros. */
  function NatToString(n: nat): (s: string)
    ensures |s| >= 1 && AllDigits(s)
    ensures |s| > 1 ==> s[0] != '0'
  {
    if n < 10 then [DigitChar(n)] else NatToString(n / 10) + [DigitChar(n % 10)]
  }

  /** `str(n)`: a `-` for negative numbers, then the digits of the magnitude. */
  function IntToString(n: int): (s: string)
    ensures |s| >= 1
    ensures forall k :: 0 <= k < |s| ==> IsDigit(s[k]) || (k == 0 && s[k] == '-')
  {
    if n < 0 then "-" + NatToString(-n) else NatToString(n)
  }

  lemma {:induction false} NatToStringValue(n: nat)
    ensures DigitsValue(NatToString(n)) == n
  {
    if n >= 10 {
      NatToStringValue(n / 10);
      var s := NatToString(n);
      assert s[..|s| - 1] == NatToString(n / 10);
    }
  }

  /** `int(str(n)) == n`. */
  lemma ParseIntToString(n: int)
    ensures ParseInt(IntToString(n)) == Some(n)
  {
    var s := IntToString(n);
    if n < 0 {
      NatToStringValue(-n);
      assert s[1..] == NatToString(-n);
    } else {
      NatToStringValue(n);
    }
  }

  /** The text of a number never holds a path separator, an underscore or a dot. */
  lemma IntToStringChars(n: int)
    ensures '/' !in IntToString(n) && '_' !in IntToString(n) && '.' !in IntToString(n)
  {
    var s := IntToString(n);
    forall k | 0 <= k < |s| ensures s[k] != '/' && s[k] != '_' && s[k] != '.' {
    }
  }
}
