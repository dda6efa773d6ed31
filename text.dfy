/** The few Python string operations the service relies on: `str.strip()`,
    `str.lower()`, `str.split(sep)` and `str(n)` for a natural number. */
module Text {

  /** The characters Python's `str.isspace()` accepts, which are the ones
      `str.strip()` with no argument removes. */
  predicate IsSpace(c: char) {
    '\t' <= c <= '\r' || '\U{1C}' <= c <= '\U{1F}' || c == ' ' ||
    c == '\U{85}' || c == '\U{A0}' || c == '\U{1680}' ||
    '\U{2000}' <= c <= '\U{200A}' || c == '\U{2028}' || c == '\U{2029}' ||
    c == '\U{202F}' || c == '\U{205F}' || c == '\U{3000}'
  }

  /** Every character of `s` is whitespace (also true of ""). */
  predicate AllSpace(s: string) {
    forall i :: 0 <= i < |s| ==> IsSpace(s[i])
  }

  /** The forward scan of `str.strip()`: the index of the first character at
      or after `from` that is not whitespace, or `|s|` when there is none. */
  function SkipSpace(s: string, from: nat): (a: nat)
    requires from <= |s|
    ensures from <= a <= |s|
    ensures forall i :: from <= i < a ==> IsSpace(s[i])
    ensures a < |s| ==> !IsSpace(s[a])
    decreases |s| - from
  {
    if from < |s| && IsSpace(s[from]) then SkipSpace(s, from + 1) else from
  }

  /** The backward scan of `str.strip()`: the end of `s[lo..hi]` once its
      trailing whitespace is dropped. */
  function SkipSpaceBack(s: string, lo: nat, hi: nat): (b: nat)
    requires lo <= hi <= |s|
    ensures lo <= b <= hi
    ensures forall i :: b <= i < hi ==> IsSpace(s[i])
    ensures b > lo ==> !IsSpace(s[b - 1])
    decreases hi
  {
    if hi > lo && IsSpace(s[hi - 1]) then SkipSpaceBack(s, lo, hi - 1) else hi
  }

  /** `s.strip()`: the part of `s` between its leading and its trailing whitespace. */
  function Strip(s: string): string {
    var a := SkipSpace(s, 0);
    s[a..SkipSpaceBack(s, a, |s|)]
  }

  /** What `s.strip()` keeps neither starts nor ends with whitespace. */
  lemma StripEnds(s: string)
    ensures Strip(s) == [] || (!IsSpace(Strip(s)[0]) && !IsSpace(Strip(s)[|Strip(s)| - 1]))
  {
    var a := SkipSpace(s, 0);
    var b := SkipSpaceBack(s, a, |s|);
    if a < b {
      assert Strip(s)[0] == s[a];
      assert Strip(s)[b - a - 1] == s[b - 1];
    }
  }

  /** `s.strip()` is empty exactly when `s` is made of whitespace only. */
  lemma StripEmptyIff(s: string)
    ensures Strip(s) == [] <==> AllSpace(s)
  {
    var a := SkipSpace(s, 0);
    var b := SkipSpaceBack(s, a, |s|);
    if Strip(s) == [] {
      assert |s[a..b]| == 0 && a == b;
      forall i | 0 <= i < |s| ensures IsSpace(s[i]) {
        assert i < a || b <= i;
      }
    } else {
      assert a < b;
      assert !IsSpace(s[a]);
    }
  }

  /** Stripping twice is stripping once. */
  lemma StripIdempotent(s: string)
    ensures Strip(Strip(s)) == Strip(s)
  {
    var r := Strip(s);
    StripEnds(s);
    if r != [] {
      assert SkipSpace(r, 0) == 0;
      assert SkipSpaceBack(r, 0, |r|) == |r|;
      assert r[0..|r|] == r;
    }
  }

  /** `s.strip()` keeps the text between the leading and the trailing
      whitespace unchanged: it is one slice of `s`, and only whitespace lies
      outside that slice. */
  lemma StripSurround(s: string)
    ensures exists a, b :: 0 <= a <= b <= |s| && Strip(s) == s[a..b] &&
                           AllSpace(s[..a]) && AllSpace(s[b..])
  {
    var a := SkipSpace(s, 0);
    var b := SkipSpaceBack(s, a, |s|);
    assert AllSpace(s[..a]);
    assert AllSpace(s[b..]);
  }

  /** A string holding one character that is not whitespace survives `strip()`. */
  lemma StripKeepsNonSpace(s: string, i: nat)
    requires i < |s| && !IsSpace(s[i])
    ensures Strip(s) != []
  {
    StripEmptyIff(s);
  }

  /** Python's `str.lower()` on one character, for the ASCII letters. */
  function LowerChar(c: char): char {
    if 'A' <= c <= 'Z' then (c as int - 'A' as int + 'a' as int) as char else c
  }

  /** `s.lower()`, mapping `A`-`Z` to `a`-`z` and keeping every other character. */
  function Lower(s: string): (r: string)
    ensures |r| == |s|
    ensures forall i :: 0 <= i < |s| ==> r[i] == LowerChar(s[i])
  {
    seq(|s|, i requires 0 <= i < |s| => LowerChar(s[i]))
  }

  /** Lowering twice is lowering once. */
  lemma LowerIdempotent(s: string)
    ensures Lower(Lower(s)) == Lower(s)
  {
  }

  /** A text without `A`-`Z` is its own lower-case form. */
  lemma LowerKeepsNonUpper(s: string)
    requires forall i :: 0 <= i < |s| ==> !('A' <= s[i] <= 'Z')
    ensures Lower(s) == s
  {
  }

  /** The index of the first `c` at or after `from`, or -1 when there is none. */
  function IndexOfFrom(s: string, c: char, from: nat): (k: int)
    requires from <= |s|
    ensures k == -1 || from <= k < |s|
    ensures k >= 0 ==> s[k] == c
    ensures forall i :: from <= i < |s| && (k < 0 || i < k) ==> s[i] != c
    decreases |s| - from
  {
    if from == |s| then -1 else if s[from] == c then from else IndexOfFrom(s, c, from + 1)
  }

  /** The pieces of `s[start..]` between the occurrences of `sep`, scanning forward. */
  function SplitFrom(s: string, sep: char, start: nat): (parts: seq<string>)
    requires start <= |s|
    ensures |parts| >= 1
    decreases |s| - start
  {
    var k := IndexOfFrom(s, sep, start);
    if k < 0 then [s[start..]] else [s[start..k]] + SplitFrom(s, sep, k + 1)
  }

  /** `s.split(sep)`: the pieces between the occurrences of `sep`, always at least one. */
  function Split(s: string, sep: char): seq<string> {
    SplitFrom(s, sep, 0)
  }

  /** `sep.join(parts)`, the inverse of `Split`. */
  function Join(parts: seq<string>, sep: char): string
    requires |parts| >= 1
    decreases |parts|
  {
    if |parts| == 1 then parts[0] else parts[0] + [sep] + Join(parts[1..], sep)
  }

  /** Joining the pieces of `s[start..]` gives it back. */
  lemma {:induction false} SplitFromJoin(s: string, sep: char, start: nat)
    requires start <= |s|
    ensures Join(SplitFrom(s, sep, start), sep) == s[start..]
    decreases |s| - start
  {
    var k := IndexOfFrom(s, sep, start);
    if k >= 0 {
      var parts := SplitFrom(s, sep, start);
      SplitFromJoin(s, sep, k + 1);
      assert parts[1..] == SplitFrom(s, sep, k + 1);
      assert s[start..] == s[start..k] + [sep] + s[k + 1..];
    }
  }

  /** Splitting and joining again gives back the string. */
  lemma SplitJoin(s: string, sep: char)
    ensures Join(Split(s, sep), sep) == s
  {
    SplitFromJoin(s, sep, 0);
  }

  /** No piece of `s[start..]` contains `sep`, and there is more than one piece
      exactly when `sep` occurs at or after `start`. */
  lemma {:induction false} SplitFromPieces(s: string, sep: char, start: nat)
    requires start <= |s|
    ensures forall p :: 0 <= p < |SplitFrom(s, sep, start)| ==> sep !in SplitFrom(s, sep, start)[p]
    ensures |SplitFrom(s, sep, start)| > 1 <==> IndexOfFrom(s, sep, start) >= 0
    decreases |s| - start
  {
    var k := IndexOfFrom(s, sep, start);
    var parts := SplitFrom(s, sep, start);
    if k < 0 {
      assert sep !in s[start..] by {
        forall i | 0 <= i < |s| - start ensures s[start..][i] != sep {
          assert s[start..][i] == s[start + i];
        }
      }
    } else {
      SplitFromPieces(s, sep, k + 1);
      assert sep !in parts[0] by {
        forall i | 0 <= i < k - start ensures parts[0][i] != sep {
          assert parts[0][i] == s[start + i];
        }
      }
      forall p | 1 <= p < |parts| ensures sep !in parts[p] {
        assert parts[p] == SplitFrom(s, sep, k + 1)[p - 1];
      }
    }
  }

  /** No piece of `s.split(sep)` contains `sep`, and there is more than one
      piece exactly when `sep` occurs in `s`. */
  lemma SplitPieces(s: string, sep: char)
    ensures forall p :: 0 <= p < |Split(s, sep)| ==> sep !in Split(s, sep)[p]
    ensures |Split(s, sep)| > 1 <==> sep in s
  {
    SplitFromPieces(s, sep, 0);
    var k := IndexOfFrom(s, sep, 0);
    if sep in s {
      var i :| 0 <= i < |s| && s[i] == sep;
      assert k >= 0;
    }
  }

  /** The backward scan: the last index below `hi` holding `c`, or -1. */
  function LastIndexBefore(s: string, c: char, hi: nat): (k: int)
    requires hi <= |s|
    ensures -1 <= k < hi
    ensures k >= 0 ==> s[k] == c
    ensures forall i :: k < i < hi ==> s[i] != c
    decreases hi
  {
    if hi == 0 then -1 else if s[hi - 1] == c then hi - 1 else LastIndexBefore(s, c, hi - 1)
  }

  /** The index of the last occurrence of `c` in `s`, or -1 when there is none. */
  function LastIndexOf(s: string, c: char): (k: int)
    ensures -1 <= k < |s|
    ensures k >= 0 ==> s[k] == c && forall i :: k < i < |s| ==> s[i] != c
  {
    LastIndexBefore(s, c, |s|)
  }

  /** There is no last occurrence exactly when there is no occurrence at all. */
  lemma LastIndexOfAbsent(s: string, c: char)
    ensures LastIndexOf(s, c) == -1 <==> c !in s
  {
    var k := LastIndexOf(s, c);
    if k == -1 {
      forall i | 0 <= i < |s| ensures s[i] != c {
        assert k < i;
      }
    }
  }

  /** An occurrence at `j` puts the last occurrence at or after `j`. */
  lemma LastIndexAtLeast(s: string, c: char, j: nat)
    requires j < |s| && s[j] == c
    ensures LastIndexOf(s, c) >= j
  {
  }

  /** No occurrence from `start` on puts the last occurrence before `start`. */
  lemma LastIndexBelow(s: string, c: char, start: nat)
    requires start <= |s| && IndexOfFrom(s, c, start) < 0
    ensures LastIndexOf(s, c) < start
  {
    var k := LastIndexOf(s, c);
    assert k >= 0 ==> s[k] == c;
  }

  /** The last piece of `s[start..]` is the text after the last `sep` when
      that lies at or after `start`, and all of `s[start..]` otherwise. */
  lemma {:induction false} SplitFromLast(s: string, sep: char, start: nat)
    requires start <= |s|
    ensures var parts := SplitFrom(s, sep, start);
            var k := LastIndexOf(s, sep);
            parts[|parts| - 1] == if k >= start then s[k + 1..] else s[start..]
    decreases |s| - start
  {
    var j := IndexOfFrom(s, sep, start);
    if j >= 0 {
      var rest := SplitFrom(s, sep, j + 1);
      SplitFromLast(s, sep, j + 1);
      LastIndexAtLeast(s, sep, j);
      assert SplitFrom(s, sep, start) == [s[start..j]] + rest;
    } else {
      LastIndexBelow(s, sep, start);
      assert SplitFrom(s, sep, start) == [s[start..]];
    }
  }

  /** The last piece of `s.split(sep)` is the text after the last `sep`, or
      the whole of `s` when `sep` does not occur. */
  lemma SplitLast(s: string, sep: char)
    ensures Split(s, sep)[|Split(s, sep)| - 1] == s[LastIndexOf(s, sep) + 1..]
  {
    SplitFromLast(s, sep, 0);
  }

  /** The decimal digit for `d`. */
  function DigitChar(d: nat): char
    requires d < 10
  {
    ('0' as int + d) as char
  }

  predicate IsDigit(c: char) {
    '0' <= c <= '9'
  }

  /** The value of a decimal digit. */
  function DigitValue(c: char): nat
    requires IsDigit(c)
  {
    c as int - '0' as int
  }

  /** `str(n)`: the decimal numeral of `n`, without leading zeros. */
  function NatToString(n: nat): (r: string)
    ensures |r| >= 1
    ensures forall i :: 0 <= i < |r| ==> IsDigit(r[i])
    ensures r[0] == '0' ==> n == 0
  {
    if n < 10 then [DigitChar(n)] else NatToString(n / 10) + [DigitChar(n % 10)]
  }

  /** The number a string of decimal digits denotes. */
  function DecimalValue(s: string): nat
    requires forall i :: 0 <= i < |s| ==> IsDigit(s[i])
  {
    if |s| == 0 then 0
    else 10 * DecimalValue(s[..|s| - 1]) + DigitValue(s[|s| - 1])
  }

  /** Reading back the numeral written by `NatToString` gives the number. */
  lemma {:induction false} NatToStringRoundTrip(n: nat)
    ensures DecimalValue(NatToString(n)) == n
  {
    if n >= 10 {
      NatToStringRoundTrip(n / 10);
      var r := NatToString(n);
      assert r[..|r| - 1] == NatToString(n / 10);
    }
  }
}
