/** `syntaxHighlight` (main.go:197-231): five regular-expression substitutions
    run in a fixed order over the rendered text.

    Each pattern is simple enough that the RE2 leftmost-first, greedy match at a
    given start index is unique (no shorter choice of a quantifier can let the
    rest of the pattern succeed), so `MatchAt` computes it directly. `ReplaceAll`
    is `Regexp.ReplaceAllString`: it tries start indices from left to right,
    rewrites the first match, and resumes just after it; no pattern here can
    match the empty string. */
module Highlight {
  import opened Scan
  import opened Ansi

  /** The five substitution passes of main.go:208-228. */
  datatype Pattern =
    | KeyPat     // `"([^"]+)"\s*:`
    | StringPat  // `:(\s*)"([^"]*)"`
    | NumberPat  // `:(\s*)([0-9]+(?:\.[0-9]+)?(?:[eE][+-]?[0-9]+)?)`
    | BoolPat    // `:(\s*)(true|false)`
    | NullPat    // `:(\s*)(null)`

  /** One match: the whitespace the `\s*` of the pattern consumed, the token that
      gets coloured (a key or value with its quotes), and the index just past
      the match. */
  datatype Hit = Hit(ws: string, token: string, end: nat)

  /** A match or a token that may be absent. */
  datatype Option<T> = None | Some(value: T)

  /** The colour each pass wraps its token in (main.go:200-204). */
  function ColorOf(p: Pattern): string {
    match p
    case KeyPat => Blue + Bold
    case StringPat => Green
    case NumberPat => Yellow
    case BoolPat => Purple
    case NullPat => Red
  }

  /** What the coloured token of each pattern looks like: a key is a quoted
      non-empty run without quotes, a string value a quoted (possibly empty)
      run without quotes, a number a word of the number pattern, and the
      literals are spelled out. */
  predicate TokenShape(p: Pattern, t: string) {
    match p
    case KeyPat => |t| >= 3 && t[0] == '"' && t[|t| - 1] == '"' && '"' !in t[1..|t| - 1]
    case StringPat => |t| >= 2 && t[0] == '"' && t[|t| - 1] == '"' && '"' !in t[1..|t| - 1]
    case NumberPat => NumberToken(t)
    case BoolPat => t == "true" || t == "false"
    case NullPat => t == "null"
  }

  /** `(?:\.[0-9]+)?` as a language: nothing, or a dot and at least one digit. */
  predicate FractionPart(u: string) {
    u == [] || (|u| >= 2 && u[0] == '.' && AllDigits(u[1..]))
  }

  /** `(?:[eE][+-]?[0-9]+)?` as a language: nothing, or an exponent letter, an
      optional sign and at least one digit. */
  predicate ExponentPart(u: string) {
    || u == []
    || (&& |u| >= 2 && u[0] in "eE"
        && (if u[1] in "+-" then |u| >= 3 && AllDigits(u[2..]) else AllDigits(u[1..])))
  }

  /** `t` falls apart after its first `i` and its first `f` runes into the
      integer digits, the fraction and the exponent of a number. */
  predicate NumberSplit(t: string, i: nat, f: nat) {
    && 0 < i <= f <= |t|
    && AllDigits(t[..i])
    && FractionPart(t[i..f])
    && ExponentPart(t[f..])
  }

  /** `t` is a word of `[0-9]+(?:\.[0-9]+)?(?:[eE][+-]?[0-9]+)?`. */
  predicate NumberToken(t: string) {
    exists i: nat, f: nat :: i <= |t| && f <= |t| && NumberSplit(t, i, f)
  }

  /** `s[j..e]` is a token of pattern `p`. */
  predicate TokenAt(p: Pattern, s: string, j: nat, e: nat) {
    j <= e <= |s| && TokenShape(p, s[j..e])
  }

  /** `s[j..e]` is the longest token of value pattern `p` that starts at `j`:
      the token a greedy match takes. */
  predicate LongestToken(p: Pattern, s: string, j: nat, e: nat) {
    && j < e
    && TokenAt(p, s, j, e)
    && forall m: nat :: e < m <= |s| ==> !TokenAt(p, s, j, m)
  }

  /** No token of pattern `p` starts at `j`. */
  predicate NoToken(p: Pattern, s: string, j: nat) {
    forall e: nat :: j < e <= |s| ==> !TokenAt(p, s, j, e)
  }

  /** End of the token a value pattern accepts at `j` (just after the colon
      and whitespace), if any: the greedy match, so the longest token there. */
  function TokenEnd(p: Pattern, s: string, j: nat): (r: Option<nat>)
    requires p != KeyPat
    requires j <= |s|
    ensures r.Some? ==> LongestToken(p, s, j, r.value)
    ensures r.None? ==> NoToken(p, s, j)
  {
    match p
    case StringPat =>
      StringTokens(s, j);
      if j < |s| && s[j] == '"' && FindQuote(s, j + 1) < |s| then Some(FindQuote(s, j + 1) + 1)
      else None
    case NumberPat => NumberEnd(s, j)
    case BoolPat =>
      BoolTokens(s, j);
      if HasAt(s, j, "true") then Some(j + 4)
      else if HasAt(s, j, "false") then Some(j + 5)
      else None
    case NullPat =>
      NullTokens(s, j);
      if HasAt(s, j, "null") then Some(j + 4) else None
  }

  /** The token of the string pattern at `j` runs to the next quote, if there is
      one; no longer quoted run without inner quotes starts there. */
  lemma StringTokens(s: string, j: nat)
    requires j <= |s|
    ensures j < |s| && s[j] == '"' && FindQuote(s, j + 1) < |s| ==>
      LongestToken(StringPat, s, j, FindQuote(s, j + 1) + 1)
    ensures !(j < |s| && s[j] == '"' && FindQuote(s, j + 1) < |s|) ==> NoToken(StringPat, s, j)
  {
    StringTokenAtQuote(s, j);
    if j < |s| && s[j] == '"' && FindQuote(s, j + 1) < |s| {
      var q := FindQuote(s, j + 1);
      QuotedRunIsString(s, j, q);
      assert TokenAt(StringPat, s, j, q + 1);
      forall m: nat | q + 1 < m <= |s|
        ensures !TokenAt(StringPat, s, j, m)
      {
      }
    } else {
      forall e: nat | j < e <= |s|
        ensures !TokenAt(StringPat, s, j, e)
      {
      }
    }
  }

  /** Every string token at `j` closes at the first quote after `j`. */
  lemma StringTokenAtQuote(s: string, j: nat)
    requires j <= |s|
    ensures forall e: nat :: j < e && TokenAt(StringPat, s, j, e) ==>
      j < |s| && s[j] == '"' && FindQuote(s, j + 1) == e - 1
  {
    forall e: nat | j < e && TokenAt(StringPat, s, j, e)
      ensures j < |s| && s[j] == '"' && FindQuote(s, j + 1) == e - 1
    {
      StringTokenEndsAtQuote(s, j, e);
    }
  }

  /** A quote, a run without quotes and a quote form a string token. */
  lemma QuotedRunIsString(s: string, j: nat, q: nat)
    requires j < q < |s|
    requires s[j] == '"' && s[q] == '"' && '"' !in s[j + 1..q]
    ensures TokenShape(StringPat, s[j..q + 1])
  {
    var inner := s[j..q + 1][1..q - j];
    assert forall k :: 0 <= k < |inner| ==> inner[k] == s[j + 1 + k];
    assert inner == s[j + 1..q];
  }

  /** A string token at `j` closes at the first quote after its opening one. */
  lemma StringTokenEndsAtQuote(s: string, j: nat, e: nat)
    requires j < e <= |s|
    requires TokenShape(StringPat, s[j..e])
    ensures s[j] == '"' && FindQuote(s, j + 1) == e - 1
  {
    var t := s[j..e];
    assert s[j] == t[0];
    assert s[e - 1] == t[|t| - 1];
    var inner := t[1..|t| - 1];
    assert forall k :: 0 <= k < |inner| ==> inner[k] == s[j + 1 + k];
    assert inner == s[j + 1..e - 1];
    FindQuoteUnique(s, j + 1, e - 1);
  }

  /** `true` and `false` are the only boolean tokens, and neither extends the
      other. */
  lemma BoolTokens(s: string, j: nat)
    requires j <= |s|
    ensures HasAt(s, j, "true") ==> LongestToken(BoolPat, s, j, j + 4)
    ensures !HasAt(s, j, "true") && HasAt(s, j, "false") ==> LongestToken(BoolPat, s, j, j + 5)
    ensures !HasAt(s, j, "true") && !HasAt(s, j, "false") ==> NoToken(BoolPat, s, j)
  {
    if HasAt(s, j, "true") {
      forall e | j + 4 < e <= |s|
        ensures s[j..e] != "false"
      {
        assert s[j..e][0] == s[j] == 't';
      }
    }
  }

  /** `null` is the only null token. */
  lemma NullTokens(s: string, j: nat)
    requires j <= |s|
    ensures HasAt(s, j, "null") ==> LongestToken(NullPat, s, j, j + 4)
    ensures !HasAt(s, j, "null") ==> NoToken(NullPat, s, j)
  {
  }

  /** `[0-9]+(?:\.[0-9]+)?(?:[eE][+-]?[0-9]+)?` at `j`: the whole digit run,
      then a fraction when a digit follows the dot, then an exponent when a
      digit follows the `e` and its optional sign. The result is the longest
      number starting at `j`, which is the greedy, leftmost-first match. */
  function NumberEnd(s: string, j: nat): (r: Option<nat>)
    requires j <= |s|
    ensures r.Some? <==> j < |s| && IsDigit(s[j])
    ensures r.Some? ==> LongestToken(NumberPat, s, j, r.value)
    ensures r.None? ==> NoToken(NumberPat, s, j)
  {
    NumberStartsWithDigit(s, j);
    if j < |s| && IsDigit(s[j]) then
      NumberLongest(s, j);
      Some(ExponentEnd(s, FractionEnd(s, DigitsEnd(s, j))))
    else None
  }

  /** `s[d..g]` is a fraction. */
  predicate FractionAt(s: string, d: nat, g: nat) {
    d <= g <= |s| && FractionPart(s[d..g])
  }

  /** `s[f..g]` is an exponent. */
  predicate ExponentAt(s: string, f: nat, g: nat) {
    f <= g <= |s| && ExponentPart(s[f..g])
  }

  /** `(?:\.[0-9]+)?` at `d`: the fraction is taken whenever a digit follows
      the dot, with its whole digit run. */
  function FractionEnd(s: string, d: nat): (r: nat)
    requires d <= |s|
    ensures d <= r <= |s|
    ensures FractionAt(s, d, r)
    ensures forall g: nat :: FractionAt(s, d, g) ==> g <= r
  {
    FractionBounds(s, d);
    if d < |s| && s[d] == '.' && DigitsEnd(s, d + 1) > d + 1 then
      var g := DigitsEnd(s, d + 1);
      assert s[d..g][1..] == s[d + 1..g];
      g
    else d
  }

  /** `(?:[eE][+-]?[0-9]+)?` at `f`: the exponent is taken whenever a digit
      follows the exponent letter and its optional sign, with its whole digit
      run. */
  function ExponentEnd(s: string, f: nat): (r: nat)
    requires f <= |s|
    ensures f <= r <= |s|
    ensures ExponentAt(s, f, r)
    ensures forall g: nat :: ExponentAt(s, f, g) ==> g <= r
  {
    ExponentBounds(s, f);
    if f < |s| && s[f] in "eE" && ExponentDigits(s, f) < DigitsEnd(s, ExponentDigits(s, f)) then
      ExponentDigitsRead(s, f);
      DigitsEnd(s, ExponentDigits(s, f))
    else f
  }

  /** The digit run of a taken exponent, read back in the exponent. */
  lemma ExponentDigitsRead(s: string, f: nat)
    requires f < |s|
    requires ExponentDigits(s, f) < DigitsEnd(s, ExponentDigits(s, f))
    ensures s[f..DigitsEnd(s, ExponentDigits(s, f))][ExponentDigits(s, f) - f..]
      == s[ExponentDigits(s, f)..DigitsEnd(s, ExponentDigits(s, f))]
  {
  }

  /** Where the digits of the exponent start: after the letter and, when there is
      one, the sign. */
  function ExponentDigits(s: string, f: nat): (r: nat)
    requires f < |s|
    ensures f < r <= |s|
  {
    if f + 1 < |s| && s[f + 1] in "+-" then f + 2 else f + 1
  }

  /** Every fraction at `d` is empty or a dot with digits up to at most the
      end of the digit run after the dot. */
  lemma FractionBounds(s: string, d: nat)
    requires d <= |s|
    ensures forall g: nat :: FractionAt(s, d, g) ==>
      g == d || (s[d] == '.' && d + 1 < DigitsEnd(s, d + 1) && g <= DigitsEnd(s, d + 1))
  {
    forall g: nat | FractionAt(s, d, g) && g != d
      ensures s[d] == '.' && d + 1 < DigitsEnd(s, d + 1) && g <= DigitsEnd(s, d + 1)
    {
      assert s[d] == s[d..g][0];
      assert s[d..g][1..] == s[d + 1..g];
      DigitsWithin(s, d + 1, g);
    }
  }

  /** A letter stands at `f`, and the digit run after it and its optional
      sign is non-empty and reaches at least to `g`. */
  predicate ExponentTaken(s: string, f: nat, g: nat) {
    && f < |s| && s[f] in "eE"
    && ExponentDigits(s, f) < DigitsEnd(s, ExponentDigits(s, f))
    && g <= DigitsEnd(s, ExponentDigits(s, f))
  }

  /** Every exponent at `f` is empty or a letter, a sign if present, and digits
      up to at most the end of that digit run. */
  lemma ExponentBounds(s: string, f: nat)
    requires f <= |s|
    ensures forall g: nat :: ExponentAt(s, f, g) && g != f ==> ExponentTaken(s, f, g)
  {
    forall g: nat | ExponentAt(s, f, g) && g != f
      ensures ExponentTaken(s, f, g)
    {
      var u := s[f..g];
      assert s[f] == u[0];
      assert s[f + 1] == u[1];
      var k := ExponentDigits(s, f);
      assert u[k - f..] == s[k..g];
      DigitsWithin(s, k, g);
    }
  }

  /** Every number starts with a digit. */
  lemma NumberStartsWithDigit(s: string, j: nat)
    requires j <= |s|
    ensures !(j < |s| && IsDigit(s[j])) ==> NoToken(NumberPat, s, j)
  {
    forall e: nat | j < e && TokenAt(NumberPat, s, j, e)
      ensures IsDigit(s[j])
    {
      var t := s[j..e];
      var i: nat, f: nat :| NumberSplit(t, i, f);
      assert NumberSplit(t, i, f);
      assert s[j] == t[..i][0];
    }
  }

  /** The greedy number at `j` is a number, and no longer one starts there. */
  lemma NumberLongest(s: string, j: nat)
    requires j < |s| && IsDigit(s[j])
    ensures LongestToken(NumberPat, s, j, ExponentEnd(s, FractionEnd(s, DigitsEnd(s, j))))
  {
    var e := ExponentEnd(s, FractionEnd(s, DigitsEnd(s, j)));
    GreedyNumberIsNumber(s, j);
    forall m: nat | e < m
      ensures !TokenAt(NumberPat, s, j, m)
    {
      if TokenAt(NumberPat, s, j, m) {
        var a: nat, b: nat :| NumberSplit(s[j..m], a, b);
        assert NumberSplit(s[j..m], a, b);
        NumberSplitBound(s, j, m, a, b);
      }
    }
  }

  /** The digit run, fraction and exponent read greedily at `j` form a number. */
  lemma GreedyNumberIsNumber(s: string, j: nat)
    requires j < |s| && IsDigit(s[j])
    ensures j < ExponentEnd(s, FractionEnd(s, DigitsEnd(s, j)))
    ensures NumberToken(s[j..ExponentEnd(s, FractionEnd(s, DigitsEnd(s, j)))])
  {
    var d := DigitsEnd(s, j);
    var f := FractionEnd(s, d);
    var e := ExponentEnd(s, f);
    assert d > j;
    PartsMakeNumber(s, j, d, f, e);
  }

  /** Digits, a fraction and an exponent laid end to end split a number. */
  lemma PartsMakeNumber(s: string, j: nat, d: nat, f: nat, e: nat)
    requires j < d <= f <= e <= |s|
    requires AllDigits(s[j..d]) && FractionPart(s[d..f]) && ExponentPart(s[f..e])
    ensures NumberSplit(s[j..e], d - j, f - j)
  {
    NumberSlices(s, j, d, f, e);
  }

  /** The three parts of `s[j..e]` cut at `d` and `f`, read back in `s`. */
  lemma NumberSlices(s: string, j: nat, d: nat, f: nat, e: nat)
    requires j <= d <= f <= e <= |s|
    ensures s[j..e][..d - j] == s[j..d]
    ensures s[j..e][d - j..f - j] == s[d..f]
    ensures s[j..e][f - j..] == s[f..e]
  {
    var u := s[j..e][d - j..f - j];
    assert forall k :: 0 <= k < |u| ==> u[k] == s[d + k];
  }

  /** The parts of a number split, read back in `s`. */
  lemma NumberParts(s: string, j: nat, m: nat, a: nat, b: nat)
    requires j <= m <= |s|
    requires NumberSplit(s[j..m], a, b)
    ensures j < j + a <= j + b <= m
    ensures AllDigits(s[j..j + a])
    ensures FractionAt(s, j + a, j + b)
    ensures ExponentAt(s, j + b, m)
  {
    var t := s[j..m];
    var A, B := j + a, j + b;
    assert t[..a] == s[j..A];
    assert forall k :: 0 <= k < b - a ==> t[a..b][k] == s[A + k];
    assert t[a..b] == s[A..B];
    assert t[b..] == s[B..m];
  }

  /** A number starting at `j` ends no later than the greedy one. */
  lemma NumberSplitBound(s: string, j: nat, m: nat, a: nat, b: nat)
    requires j <= m <= |s|
    requires NumberSplit(s[j..m], a, b)
    ensures m <= ExponentEnd(s, FractionEnd(s, DigitsEnd(s, j)))
  {
    NumberParts(s, j, m, a, b);
    var A, B := j + a, j + b;
    DigitsWithin(s, j, A);
    if A < m {
      IntegerEndsAt(s, j, A, B, m);
      if B < m {
        assert s[B] == s[B..m][0];
        FractionEndsAt(s, A, B);
      }
    }
  }

  /** When a fraction or an exponent follows the integer digits `s[j..A]`,
      the digit run from `j` ends at `A`. */
  lemma IntegerEndsAt(s: string, j: nat, A: nat, B: nat, m: nat)
    requires j < A < m <= |s| && A <= B <= m
    requires AllDigits(s[j..A]) && FractionAt(s, A, B) && ExponentAt(s, B, m)
    ensures DigitsEnd(s, j) == A
  {
    assert !IsDigit(s[A]) by {
      if B > A {
        assert s[A] == s[A..B][0];
      } else {
        assert s[A] == s[A..m][0];
      }
    }
    DigitsEndUnique(s, j, A);
  }

  /** A fraction followed by an exponent letter is the whole fraction. */
  lemma FractionEndsAt(s: string, A: nat, B: nat)
    requires FractionAt(s, A, B)
    requires B < |s| && s[B] in "eE"
    ensures FractionEnd(s, A) == B
  {
    if B > A {
      assert s[A] == s[A..B][0];
      assert s[A..B][1..] == s[A + 1..B];
      DigitsEndUnique(s, A + 1, B);
    }
  }

  /** `"([^"]+)"\s*:` at `i`: the quoted run up to the next quote must be
      non-empty, and only whitespace may separate it from the colon. */
  function KeyMatch(s: string, i: nat): (r: Option<Hit>)
    requires i <= |s|
    ensures r.Some? ==> i < r.value.end <= |s| && AllSpace(r.value.ws)
    ensures r.Some? ==> s[i..r.value.end] == r.value.token + r.value.ws + ":"
    ensures r.Some? ==> TokenShape(KeyPat, r.value.token)
  {
    if i < |s| && s[i] == '"' then
      var q := FindQuote(s, i + 1);
      if i + 1 < q < |s| then
        var j := SkipSpace(s, q + 1);
        if j < |s| && s[j] == ':' then
          KeySlices(s, i, q, j);
          Some(Hit(s[q + 1..j], s[i..q + 1], j + 1))
        else None
      else None
    else None
  }

  /** The quoted key, the whitespace and the colon of a key match, read back
      in the text. */
  lemma KeySlices(s: string, i: nat, q: nat, j: nat)
    requires i < q < j < |s| && s[j] == ':'
    ensures s[i..j + 1] == s[i..q + 1] + s[q + 1..j] + ":"
    ensures s[i..q + 1][1..q - i] == s[i + 1..q]
  {
    var inner := s[i..q + 1][1..q - i];
    forall k | 0 <= k < |inner| ensures inner[k] == s[i + 1 + k] {
    }
    assert inner == s[i + 1..q];
    var whole := s[i..q + 1] + s[q + 1..j] + ":";
    forall k | 0 <= k < |whole| ensures whole[k] == s[i + k] {
      if k <= q - i {
        assert whole[k] == s[i..q + 1][k];
      } else if k < j - i {
        assert whole[k] == s[q + 1..j][k - (q + 1 - i)];
      }
    }
    assert whole == s[i..j + 1];
  }

  /** `:(\s*)TOKEN` at `i` for a value pattern: a colon, the longest run of
      whitespace, then the token of the pattern. */
  function ValueMatch(p: Pattern, s: string, i: nat): (r: Option<Hit>)
    requires p != KeyPat
    requires i <= |s|
    ensures r.Some? ==> i < r.value.end <= |s| && AllSpace(r.value.ws)
    ensures r.Some? ==> s[i..r.value.end] == ":" + r.value.ws + r.value.token
    ensures r.Some? ==> TokenShape(p, r.value.token)
    ensures r.Some? ==> LongestToken(p, s, i + 1 + |r.value.ws|, r.value.end)
    ensures r.None? && i < |s| && s[i] == ':' ==> NoToken(p, s, SkipSpace(s, i + 1))
  {
    if i < |s| && s[i] == ':' then
      var j := SkipSpace(s, i + 1);
      match TokenEnd(p, s, j)
      case Some(e) =>
        ValueHit(p, s, i, j, e);
        Some(Hit(s[i + 1..j], s[j..e], e))
      case None => None
    else None
  }

  /** A colon at `i`, the whitespace after it up to `j` and the longest
      token at `j` make up a value match ending at `e`. */
  lemma ValueHit(p: Pattern, s: string, i: nat, j: nat, e: nat)
    requires i < |s| && s[i] == ':'
    requires j == SkipSpace(s, i + 1)
    requires LongestToken(p, s, j, e)
    ensures i < e <= |s| && AllSpace(s[i + 1..j])
    ensures s[i..e] == ":" + s[i + 1..j] + s[j..e]
    ensures TokenShape(p, s[j..e])
    ensures i + 1 + |s[i + 1..j]| == j
  {
    SliceThree(s, i, j, e);
  }

  /** `s[i..e]` is its first rune, then the runes up to `j`, then the rest. */
  lemma SliceThree(s: string, i: nat, j: nat, e: nat)
    requires i < j <= e <= |s|
    ensures s[i..e] == [s[i]] + s[i + 1..j] + s[j..e]
  {
  }

  /** The leftmost-first match of pattern `p` starting exactly at index `i`. */
  function MatchAt(p: Pattern, s: string, i: nat): (r: Option<Hit>)
    requires i <= |s|
    ensures r.Some? ==> i < r.value.end <= |s|
    ensures r.Some? ==> AllSpace(r.value.ws)
    ensures r.Some? && p == KeyPat ==> s[i..r.value.end] == r.value.token + r.value.ws + ":"
    ensures r.Some? && p != KeyPat ==> s[i..r.value.end] == ":" + r.value.ws + r.value.token
    ensures r.Some? ==> TokenShape(p, r.value.token)
  {
    if p == KeyPat then KeyMatch(s, i) else ValueMatch(p, s, i)
  }

  /** What a match is replaced by (the templates of main.go:209, 216, 220,
      224 and 228): the key pass rewrites the whole match and drops the
      whitespace before the colon; the value passes keep the colon and the
      whitespace and wrap only the token. */
  function Rewrite(p: Pattern, h: Hit): string {
    if p == KeyPat then ColorOf(p) + h.token + Reset + ":"
    else ":" + h.ws + ColorOf(p) + h.token + Reset
  }

  /** `ReplaceAllString` over `s[i..]`. */
  function ReplaceAll(p: Pattern, s: string, i: nat): (r: string)
    requires i <= |s|
    decreases |s| - i
  {
    if i == |s| then []
    else
      match MatchAt(p, s, i)
      case Some(h) => Rewrite(p, h) + ReplaceAll(p, s, h.end)
      case None => [s[i]] + ReplaceAll(p, s, i + 1)
  }

  /** One substitution pass over a whole text. */
  function Pass(p: Pattern, s: string): string {
    ReplaceAll(p, s, 0)
  }

  /** `syntaxHighlight`: keys, then string values, then numbers, then
      booleans, then null, each pass over the output of the previous pass. */
  function SyntaxHighlight(s: string): string {
    Pass(NullPat, Pass(BoolPat, Pass(NumberPat, Pass(StringPat, Pass(KeyPat, s)))))
  }
}
