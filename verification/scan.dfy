/** Character classes and small forward scanners shared by the highlighter
    patterns. Text is a sequence of runes (the Go regexp package decodes the
    rendered bytes as UTF-8 and every class below matches one rune). */
module Scan {

  /** The RE2 class `\s`: tab, newline, form feed, carriage return and space (no vertical tab). */
  predicate IsSpace(c: char) {
    c == '\t' || c == '\n' || c == '\U{0C}' || c == '\r' || c == ' '
  }

  /** The RE2 class `[0-9]`. */
  predicate IsDigit(c: char) {
    '0' <= c <= '9'
  }

  /** Every rune of `t` is whitespace. */
  predicate AllSpace(t: string) {
    forall k :: 0 <= k < |t| ==> IsSpace(t[k])
  }

  /** Every rune of `t` is a decimal digit. */
  predicate AllDigits(t: string) {
    forall k :: 0 <= k < |t| ==> IsDigit(t[k])
  }

  /** Index just past the longest run of whitespace starting at `i`: what a
      greedy `\s*` consumes. */
  function SkipSpace(s: string, i: nat): (r: nat)
    requires i <= |s|
    ensures i <= r <= |s|
    ensures AllSpace(s[i..r])
    ensures r == |s| || !IsSpace(s[r])
    decreases |s| - i
  {
    if i == |s| || !IsSpace(s[i]) then i else SkipSpace(s, i + 1)
  }

  /** Index of the first double quote at or after `i`, or `|s|` when there is
      none: how far a greedy `[^"]*` reaches. */
  function FindQuote(s: string, i: nat): (r: nat)
    requires i <= |s|
    ensures i <= r <= |s|
    ensures '"' !in s[i..r]
    ensures r == |s| || s[r] == '"'
    decreases |s| - i
  {
    if i == |s| || s[i] == '"' then i else FindQuote(s, i + 1)
  }

  /** Index just past the longest run of digits starting at `i`: what a greedy
      `[0-9]*` consumes. */
  function DigitsEnd(s: string, i: nat): (r: nat)
    requires i <= |s|
    ensures i <= r <= |s|
    ensures AllDigits(s[i..r])
    ensures r == |s| || !IsDigit(s[r])
    decreases |s| - i
  {
    if i == |s| || !IsDigit(s[i]) then i else DigitsEnd(s, i + 1)
  }

  /** A run of digits starting at `a` never reaches past `DigitsEnd(s, a)`. */
  lemma {:induction false} DigitsWithin(s: string, a: nat, b: nat)
    requires a <= b <= |s|
    requires AllDigits(s[a..b])
    ensures b <= DigitsEnd(s, a)
    decreases b - a
  {
    if a < b {
      assert IsDigit(s[a..b][0]);
      assert s[a + 1..b] == s[a..b][1..];
      DigitsWithin(s, a + 1, b);
    }
  }

  /** `w` occurs in `s` starting at index `i`. */
  predicate HasAt(s: string, i: nat, w: string) {
    i + |w| <= |s| && s[i..i + |w|] == w
  }

  /** `t` with every whitespace rune deleted. */
  function RemoveSpace(t: string): (r: string)
    ensures |r| <= |t|
    ensures forall k :: 0 <= k < |r| ==> !IsSpace(r[k])
    ensures AllSpace(t) ==> r == []
    decreases |t|
  {
    if |t| == 0 then []
    else (if IsSpace(t[0]) then [] else [t[0]]) + RemoveSpace(t[1..])
  }

  /** Deleting whitespace commutes with concatenation. */
  lemma {:induction false} RemoveSpaceAppend(a: string, b: string)
    ensures RemoveSpace(a + b) == RemoveSpace(a) + RemoveSpace(b)
    decreases |a|
  {
    if |a| == 0 {
      assert a + b == b;
    } else {
      assert (a + b)[0] == a[0];
      assert (a + b)[1..] == a[1..] + b;
      RemoveSpaceAppend(a[1..], b);
    }
  }

  /** The first non-space index found by `SkipSpace` is the only one: any `j`
      with only whitespace before it and a non-space rune at it is that index. */
  lemma {:induction false} SkipSpaceUnique(s: string, i: nat, j: nat)
    requires i <= j <= |s|
    requires AllSpace(s[i..j])
    requires j == |s| || !IsSpace(s[j])
    ensures SkipSpace(s, i) == j
    decreases j - i
  {
    if i < j {
      assert IsSpace(s[i..j][0]);
      assert s[i + 1..j] == s[i..j][1..];
      SkipSpaceUnique(s, i + 1, j);
    }
  }

  /** Likewise the first quote found by `FindQuote` is the only quote with no
      quote before it. */
  lemma {:induction false} FindQuoteUnique(s: string, i: nat, j: nat)
    requires i <= j <= |s|
    requires '"' !in s[i..j]
    requires j == |s| || s[j] == '"'
    ensures FindQuote(s, i) == j
    decreases j - i
  {
    if i < j {
      assert s[i..j][0] == s[i];
      assert s[i + 1..j] == s[i..j][1..];
      FindQuoteUnique(s, i + 1, j);
    }
  }

  /** And the end of a digit run is unique. */
  lemma {:induction false} DigitsEndUnique(s: string, i: nat, j: nat)
    requires i <= j <= |s|
    requires AllDigits(s[i..j])
    requires j == |s| || !IsDigit(s[j])
    ensures DigitsEnd(s, i) == j
    decreases j - i
  {
    if i < j {
      assert IsDigit(s[i..j][0]);
      assert s[i + 1..j] == s[i..j][1..];
      DigitsEndUnique(s, i + 1, j);
    }
  }
}
