/** Properties of `syntaxHighlight` (main.go:197-231): which text each pattern
    matches, what each pass inserts and drops, and what the five passes in
    their fixed order do to a rendered JSON value. */
module HighlightProofs {
  import opened Scan
  import opened Ansi
  import opened Highlight

  // ---------------------------------------------------------------------------
  // Completeness of the matchers: every text the regular expression accepts at
  // an index is matched there, with the captures it would report.
  // ---------------------------------------------------------------------------

  /** `"k"\s*:` with a non-empty, quote-free `k` is a key match whose token is
      the quoted key and whose dropped whitespace is what lies before the colon.
      `ReplaceAllIsScan` then says what the key pass writes in its place. */
  lemma KeyMatchComplete(s: string, i: nat, q: nat, j: nat)
    requires i + 1 < q < j < |s|
    requires s[i] == '"' && s[q] == '"' && '"' !in s[i + 1..q]
    requires AllSpace(s[q + 1..j]) && s[j] == ':'
    ensures MatchAt(KeyPat, s, i) == Some(Hit(s[q + 1..j], s[i..q + 1], j + 1))
  {
    FindQuoteUnique(s, i + 1, q);
    SkipSpaceUnique(s, q + 1, j);
    KeyMatchAt(s, i, q, j);
    MatchAtKey(s, i);
  }

  /** The key match at `i`, given where its closing quote and colon are. */
  lemma KeyMatchAt(s: string, i: nat, q: nat, j: nat)
    requires i + 1 < q < j < |s|
    requires s[i] == '"' && FindQuote(s, i + 1) == q
    requires SkipSpace(s, q + 1) == j && s[j] == ':'
    ensures KeyMatch(s, i) == Some(Hit(s[q + 1..j], s[i..q + 1], j + 1))
  {
  }

  /** For the key pattern, a match is a key match. */
  lemma MatchAtKey(s: string, i: nat)
    requires i <= |s|
    ensures MatchAt(KeyPat, s, i) == KeyMatch(s, i)
  {
  }

  /** `:\s*"v"` with a quote-free `v` is a string-value match. */
  lemma StringMatchComplete(s: string, i: nat, j: nat, q: nat)
    requires i < j < q < |s|
    requires s[i] == ':' && AllSpace(s[i + 1..j])
    requires s[j] == '"' && s[q] == '"' && '"' !in s[j + 1..q]
    ensures MatchAt(StringPat, s, i) == Some(Hit(s[i + 1..j], s[j..q + 1], q + 1))
  {
    SkipSpaceUnique(s, i + 1, j);
    FindQuoteUnique(s, j + 1, q);
    assert TokenEnd(StringPat, s, j) == Some(q + 1);
    assert MatchAt(StringPat, s, i) == ValueMatch(StringPat, s, i);
  }

  /** A value match takes the longest token of its pattern after the colon
      and whitespace, and a value pattern fails at a colon only when no token
      of it starts after the whitespace. */
  lemma ValueMatchLongest(p: Pattern, s: string, i: nat)
    requires p != KeyPat
    requires i <= |s|
    ensures MatchAt(p, s, i).Some? ==>
      LongestToken(p, s, i + 1 + |MatchAt(p, s, i).value.ws|, MatchAt(p, s, i).value.end)
    ensures MatchAt(p, s, i).None? && i < |s| && s[i] == ':' ==> NoToken(p, s, SkipSpace(s, i + 1))
  {
    MatchAtValue(p, s, i);
  }

  /** For a value pattern, a match is a value match. */
  lemma MatchAtValue(p: Pattern, s: string, i: nat)
    requires p != KeyPat
    requires i <= |s|
    ensures MatchAt(p, s, i) == ValueMatch(p, s, i)
  {
  }

  /** `:\s*` followed by the longest token of a value pattern is that
      pattern match, with that whitespace and that token: a number match,
      for instance, takes its fraction and exponent whenever they are there. */
  lemma ValueMatchComplete(p: Pattern, s: string, i: nat, j: nat, e: nat)
    requires p != KeyPat
    requires i < j
    requires LongestToken(p, s, j, e)
    requires s[i] == ':' && AllSpace(s[i + 1..j])
    ensures MatchAt(p, s, i) == Some(Hit(s[i + 1..j], s[j..e], e))
  {
    TokenStartsSolid(p, s[j..e]);
    assert s[j] == s[j..e][0];
    SkipSpaceUnique(s, i + 1, j);
    var t := TokenEnd(p, s, j);
    assert TokenAt(p, s, j, e);
    assert t.Some?;
    LongestTokenUnique(p, s, j, e, t.value);
    ValueMatchAt(p, s, i, j, e);
    MatchAtValue(p, s, i);
  }

  /** The longest token of a value pattern at `j` is unique. */
  lemma LongestTokenUnique(p: Pattern, s: string, j: nat, e1: nat, e2: nat)
    requires LongestToken(p, s, j, e1) && LongestToken(p, s, j, e2)
    ensures e1 == e2
  {
    assert TokenAt(p, s, j, e1) && TokenAt(p, s, j, e2);
  }

  /** Every value token starts with a rune that is not whitespace. */
  lemma TokenStartsSolid(p: Pattern, t: string)
    requires p != KeyPat
    requires TokenShape(p, t)
    ensures |t| > 0 && !IsSpace(t[0])
  {
    if p == NumberPat {
      var i: nat, f: nat :| NumberSplit(t, i, f);
      assert NumberSplit(t, i, f);
      assert t[0] == t[..i][0];
    }
  }

  /** `:\s*` followed by `true`, `false` or `null` is a match of the boolean
      or the null pattern. */
  lemma LiteralMatchComplete(p: Pattern, s: string, i: nat, j: nat, w: string)
    requires p == BoolPat || p == NullPat
    requires (p == BoolPat && (w == "true" || w == "false")) || (p == NullPat && w == "null")
    requires i < j <= |s|
    requires s[i] == ':' && AllSpace(s[i + 1..j]) && HasAt(s, j, w)
    ensures MatchAt(p, s, i) == Some(Hit(s[i + 1..j], w, j + |w|))
  {
    HasAtHead(s, j, w);
    assert !IsSpace(s[j]);
    SkipSpaceUnique(s, i + 1, j);
    LiteralTokenEnd(p, s, j, w);
    ValueMatchAt(p, s, i, j, j + |w|);
    assert s[j..j + |w|] == w;
    MatchAtValue(p, s, i);
  }

  /** A value match is the whitespace up to the first non-space rune and
      the token the pattern takes there. */
  lemma ValueMatchAt(p: Pattern, s: string, i: nat, j: nat, e: nat)
    requires p != KeyPat
    requires i < |s| && s[i] == ':'
    requires SkipSpace(s, i + 1) == j
    requires TokenEnd(p, s, j) == Some(e)
    ensures ValueMatch(p, s, i) == Some(Hit(s[i + 1..j], s[j..e], e))
  {
  }

  /** The boolean or null pattern at `j` takes exactly the literal written
      there. */
  lemma LiteralTokenEnd(p: Pattern, s: string, j: nat, w: string)
    requires (p == BoolPat && (w == "true" || w == "false")) || (p == NullPat && w == "null")
    requires j <= |s| && HasAt(s, j, w)
    ensures TokenEnd(p, s, j) == Some(j + |w|)
  {
    if w == "false" {
      HasAtHead(s, j, "true");
      HasAtHead(s, j, "false");
    }
  }

  /** A word found at `i` starts with the rune at `i`. */
  lemma HasAtHead(s: string, i: nat, w: string)
    requires |w| > 0
    ensures HasAt(s, i, w) ==> s[i] == w[0]
  {
    if HasAt(s, i, w) {
      assert s[i] == s[i..i + |w|][0];
    }
  }

  /** A value written with a leading minus sign is never a number match: the
      pattern has no sign, so negative numbers stay uncoloured. */
  lemma NegativeNumberNotMatched(s: string, i: nat, j: nat)
    requires i < j < |s|
    requires s[i] == ':' && AllSpace(s[i + 1..j]) && s[j] == '-'
    ensures MatchAt(NumberPat, s, i) == None
  {
    SkipSpaceUnique(s, i + 1, j);
  }

  /** Value patterns match only at a colon. */
  lemma ValueMatchStartsAtColon(p: Pattern, s: string, i: nat)
    requires p != KeyPat
    requires i <= |s|
    requires MatchAt(p, s, i).Some?
    ensures i < |s| && s[i] == ':'
  {
    var h := MatchAt(p, s, i).value;
    assert s[i..h.end][0] == ':';
  }

  // ---------------------------------------------------------------------------
  // Scanning
  // ---------------------------------------------------------------------------

  /** A stretch where no match starts is copied through unchanged. */
  lemma {:induction false} CopyWithoutMatch(p: Pattern, s: string, i: nat, j: nat)
    requires i <= j <= |s|
    requires forall k :: i <= k < j ==> MatchAt(p, s, k).None?
    ensures ReplaceAll(p, s, i) == s[i..j] + ReplaceAll(p, s, j)
    decreases j - i
  {
    if i < j {
      var a, b, rest := [s[i]], s[i + 1..j], ReplaceAll(p, s, j);
      assert MatchAt(p, s, i).None?;
      assert ReplaceAll(p, s, i) == a + ReplaceAll(p, s, i + 1);
      CopyWithoutMatch(p, s, i + 1, j);
      ConsSlice(s, i, j, rest);
    }
  }

  /** Peeling the first rune off a slice, in front of any continuation. */
  lemma ConsSlice(s: string, i: nat, j: nat, rest: string)
    requires i < j <= |s|
    ensures [s[i]] + (s[i + 1..j] + rest) == s[i..j] + rest
  {
    assert s[i..j] == [s[i]] + s[i + 1..j];
  }

  /** A pass over text in which its pattern matches nowhere is the identity. */
  lemma NoMatchUnchanged(p: Pattern, s: string)
    requires forall k :: 0 <= k < |s| ==> MatchAt(p, s, k).None?
    ensures Pass(p, s) == s
  {
    CopyWithoutMatch(p, s, 0, |s|);
  }

  /** A match found by a scan: where it starts and what it matched. */
  datatype Found = Found(start: nat, hit: Hit)

  /** `L` is the list of leftmost non-overlapping matches of `p` in `s[i..]`,
      as RE2 finds them: no match starts before the first one, and the rest
      are the matches found from the end of the first one on. */
  predicate LeftmostScan(p: Pattern, s: string, i: nat, L: seq<Found>)
    decreases |L|
  {
    && i <= |s|
    && if L == [] then forall k :: i <= k < |s| ==> MatchAt(p, s, k).None?
       else
         && i <= L[0].start < |s|
         && MatchAt(p, s, L[0].start) == Some(L[0].hit)
         && (forall k :: i <= k < L[0].start ==> MatchAt(p, s, k).None?)
         && LeftmostScan(p, s, L[0].hit.end, L[1..])
  }

  /** The text `ReplaceAllString` is documented to return: the stretches
      between the matches of `L` copied, and each match replaced by its
      rewrite. */
  function Assemble(p: Pattern, s: string, i: nat, L: seq<Found>): string
    requires LeftmostScan(p, s, i, L)
    decreases |L|
  {
    if L == [] then s[i..]
    else s[i..L[0].start] + Rewrite(p, L[0].hit) + Assemble(p, s, L[0].hit.end, L[1..])
  }

  /** Every text has a list of leftmost non-overlapping matches. */
  lemma {:induction false} ScanExists(p: Pattern, s: string, i: nat) returns (L: seq<Found>)
    requires i <= |s|
    ensures LeftmostScan(p, s, i, L)
    decreases |s| - i
  {
    if i == |s| {
      L := [];
    } else if MatchAt(p, s, i).Some? {
      var h := MatchAt(p, s, i).value;
      var rest := ScanExists(p, s, h.end);
      L := [Found(i, h)] + rest;
      ScanAtMatch(p, s, i, h, rest);
    } else {
      L := ScanExists(p, s, i + 1);
      ScanPastMiss(p, s, i, L);
    }
  }

  /** A match at `i` heads the scan from `i`. */
  lemma ScanAtMatch(p: Pattern, s: string, i: nat, h: Hit, rest: seq<Found>)
    requires i < |s| && MatchAt(p, s, i) == Some(h)
    requires LeftmostScan(p, s, h.end, rest)
    ensures LeftmostScan(p, s, i, [Found(i, h)] + rest)
  {
    var L := [Found(i, h)] + rest;
    assert L[0] == Found(i, h) && L[1..] == rest;
  }

  /** Where no match starts, the scan from `i` is the scan from `i + 1`. */
  lemma ScanPastMiss(p: Pattern, s: string, i: nat, L: seq<Found>)
    requires i < |s| && MatchAt(p, s, i).None?
    requires LeftmostScan(p, s, i + 1, L)
    ensures LeftmostScan(p, s, i, L)
  {
    var stop := if L == [] then |s| else L[0].start;
    forall k | i <= k < stop
      ensures MatchAt(p, s, k).None?
    {
      assert k == i || i + 1 <= k;
    }
  }

  /** The list of leftmost non-overlapping matches is unique. */
  lemma {:induction false} ScanUnique(p: Pattern, s: string, i: nat, L1: seq<Found>, L2: seq<Found>)
    requires LeftmostScan(p, s, i, L1) && LeftmostScan(p, s, i, L2)
    ensures L1 == L2
    decreases |L1|
  {
    if L1 != [] && L2 != [] {
      ScanHeadUnique(p, s, i, L1, L2);
      ScanUnique(p, s, L1[0].hit.end, L1[1..], L2[1..]);
      assert L1 == [L1[0]] + L1[1..];
      assert L2 == [L2[0]] + L2[1..];
    }
  }

  /** Two scans from the same index find the same first match. */
  lemma ScanHeadUnique(p: Pattern, s: string, i: nat, L1: seq<Found>, L2: seq<Found>)
    requires LeftmostScan(p, s, i, L1) && LeftmostScan(p, s, i, L2)
    requires L1 != [] && L2 != []
    ensures L1[0] == L2[0]
  {
    var a, b := L1[0].start, L2[0].start;
    assert MatchAt(p, s, a).Some? && MatchAt(p, s, b).Some?;
    assert a == b;
  }

  /** A pass is `Assemble` over the leftmost non-overlapping matches: it
      copies the text between them and puts the rewrite of each match in its
      place. */
  lemma {:induction false} ReplaceAllIsScan(p: Pattern, s: string, i: nat, L: seq<Found>)
    requires LeftmostScan(p, s, i, L)
    ensures ReplaceAll(p, s, i) == Assemble(p, s, i, L)
    decreases |L|
  {
    if L == [] {
      CopyWithoutMatch(p, s, i, |s|);
      assert s[i..|s|] + [] == s[i..];
    } else {
      var m := L[0];
      CopyWithoutMatch(p, s, i, m.start);
      ReplaceAtHit(p, s, m.start, m.hit);
      ReplaceAllIsScan(p, s, m.hit.end, L[1..]);
      Assoc(s[i..m.start], Rewrite(p, m.hit), ReplaceAll(p, s, m.hit.end));
    }
  }

  /** Text without a colon passes every value pass unchanged. */
  lemma ColonFreeUnchanged(p: Pattern, s: string)
    requires p != KeyPat
    requires ':' !in s
    ensures Pass(p, s) == s
  {
    NoValueMatchWithoutColon(p, s, 0, |s|);
    NoMatchUnchanged(p, s);
  }

  /** The string pass never starts a match at the opening quote of a key the
      key pass has wrapped: that quote is preceded by the key colour code,
      whereas the quote of a string match is preceded by the colon or whitespace. */
  lemma StringPassSkipsWrappedKey(t: string, i: nat)
    requires i <= |t|
    requires MatchAt(StringPat, t, i).Some?
    ensures !WrappedKeyAt(t, i + 1 + |MatchAt(StringPat, t, i).value.ws|)
  {
    var h := MatchAt(StringPat, t, i).value;
    var q := i + 1 + |h.ws|;
    assert t[i..h.end] == ":" + h.ws + h.token;
    assert (Blue + Bold)[|Blue + Bold| - 1] == 'm';
    assert t[q - 1] == ':' || IsSpace(t[q - 1]) by {
      if |h.ws| == 0 {
        assert t[q - 1] == t[i..h.end][0];
      } else {
        assert t[q - 1] == t[i..h.end][|h.ws|] == h.ws[|h.ws| - 1];
      }
    }
  }

  /** `q` is the opening quote of a key wrapped by the key pass. */
  predicate WrappedKeyAt(t: string, q: nat) {
    |Blue + Bold| <= q < |t| && t[q - |Blue + Bold|..q] == Blue + Bold && t[q] == '"'
  }

  // ---------------------------------------------------------------------------
  // What the passes insert and drop
  // ---------------------------------------------------------------------------

  /** Every rune of a slice of escape-free text is escape-free. */
  lemma EscFreeSlice(s: string, a: nat, b: nat)
    requires a <= b <= |s|
    requires EscFree(s)
    ensures EscFree(s[a..b])
  {
    forall k | 0 <= k < b - a
      ensures s[a..b][k] != Esc
    {
      assert s[a..b][k] == s[a + k];
      assert s[a + k] in s;
    }
  }

  /** Concatenation is associative; stated as a lemma so that callers with
      large contexts regroup without unfolding sequence equality there. */
  lemma Assoc<T>(a: seq<T>, b: seq<T>, c: seq<T>)
    ensures (a + b) + c == a + (b + c)
  {
  }

  /** Concatenation regrouped to the right (see `Assoc`). */
  lemma Regroup<T>(a: seq<T>, b: seq<T>, c: seq<T>, d: seq<T>, e: seq<T>)
    ensures a + b + c + d + e == a + (b + (c + (d + e)))
  {
  }

  /** Wrapping a coded token in two codes, after an escape-free lead, strips
      back to the lead and the token. */
  lemma WrapStrips(lead: string, c: string, tok: string, z: string, rest: string, orig: string)
    requires EscFree(lead)
    requires Coded(c) && Strip(c) == [] && Coded(z) && Strip(z) == []
    requires Coded(tok) && Coded(rest) && Coded(orig)
    requires Strip(rest) == Strip(orig)
    ensures Coded(lead + c + tok + z + rest)
    ensures Strip(lead + c + tok + z + rest) == Strip(lead + tok + orig)
  {
    var t3 := z + rest;
    CodedAppend(z, rest);
    var t2 := tok + t3;
    CodedAppend(tok, t3);
    var t1 := c + t2;
    CodedAppend(c, t2);
    StripAfterPlain(lead, t1);
    var o := tok + orig;
    CodedAppend(tok, orig);
    StripAfterPlain(lead, o);
    assert Strip(t3) == Strip(rest);
    assert Strip(t1) == Strip(tok) + Strip(rest);
    assert Strip(o) == Strip(tok) + Strip(orig);
    assert Strip(lead + t1) == Strip(lead + o);
    Regroup(lead, c, tok, z, rest);
    Assoc(lead, tok, orig);
  }

  /** Every colour a pass writes, and the reset, strip to nothing. */
  lemma ColorsStrip(p: Pattern)
    ensures Coded(ColorOf(p)) && Strip(ColorOf(p)) == []
    ensures Coded(Reset) && Strip(Reset) == []
  {
    PaletteStrips();
  }

  /** Each template of main.go:209-228 is the match with colour codes added:
      stripped, the key rewrite is the key and the colon (the whitespace
      before the colon is gone), and a value rewrite is the colon, the
      whitespace and the token. */
  lemma RewriteStrips(p: Pattern, h: Hit)
    requires EscFree(h.token) && AllSpace(h.ws)
    ensures Coded(Rewrite(p, h))
    ensures Strip(Rewrite(p, h)) == (if p == KeyPat then h.token + ":" else ":" + h.ws + h.token)
  {
    ColorsStrip(p);
    EscFreeCoded([]);
    if p == KeyPat {
      KeyWrapStrips(ColorOf(p), h.token, Reset, []);
      assert Rewrite(p, h) + [] == Rewrite(p, h);
      assert h.token + ":" + Strip([]) == h.token + ":";
    } else {
      var lead := ":" + h.ws;
      assert EscFree(lead) by {
        forall k | 0 <= k < |lead| ensures lead[k] != Esc {
          if k > 0 { assert IsSpace(h.ws[k - 1]); }
        }
      }
      EscFreeCoded(h.token);
      WrapStrips(lead, ColorOf(p), h.token, Reset, [], []);
      assert Rewrite(p, h) + [] == Rewrite(p, h);
      assert lead + h.token + [] == lead + h.token;
      assert EscFree(lead + h.token) by {
        assert forall k :: 0 <= k < |lead + h.token| ==> (lead + h.token)[k] in lead || (lead + h.token)[k] in h.token;
      }
    }
  }

  /** Number, boolean and null tokens contain no escape. */
  lemma LiteralTokenEscFree(p: Pattern, t: string)
    requires p == NumberPat || p == BoolPat || p == NullPat
    requires TokenShape(p, t)
    ensures EscFree(t)
  {
    if p == NumberPat {
      NumberTokenEscFree(t);
    }
  }

  /** A number holds only digits, a dot, an exponent letter and a sign. */
  lemma NumberTokenEscFree(t: string)
    requires NumberToken(t)
    ensures EscFree(t)
  {
    var i: nat, f: nat :| NumberSplit(t, i, f);
    assert NumberSplit(t, i, f);
    DigitsEscFree(t[..i]);
    FractionEscFree(t[i..f]);
    ExponentEscFree(t[f..]);
    EscFreeParts(t, i, f);
  }

  /** Text cut in three escape-free parts is escape-free. */
  lemma EscFreeParts(t: string, i: nat, f: nat)
    requires i <= f <= |t|
    requires EscFree(t[..i]) && EscFree(t[i..f]) && EscFree(t[f..])
    ensures EscFree(t)
  {
    forall k | 0 <= k < |t| ensures t[k] != Esc {
      if k < i {
        assert t[k] == t[..i][k];
      } else if k < f {
        assert t[k] == t[i..f][k - i];
      } else {
        assert t[k] == t[f..][k - f];
      }
    }
  }

  /** Digits are not escapes. */
  lemma DigitsEscFree(u: string)
    requires AllDigits(u)
    ensures EscFree(u)
  {
    forall k | 0 <= k < |u| ensures u[k] != Esc {
      assert IsDigit(u[k]);
    }
  }

  /** The fraction of a number holds no escape. */
  lemma FractionEscFree(u: string)
    requires FractionPart(u)
    ensures EscFree(u)
  {
    if u != [] {
      assert u == [u[0]] + u[1..];
      DigitsEscFree(u[1..]);
    }
  }

  /** The exponent of a number holds no escape. */
  lemma ExponentEscFree(u: string)
    requires ExponentPart(u)
    ensures EscFree(u)
  {
    if u != [] {
      if u[1] in "+-" {
        assert u == [u[0], u[1]] + u[2..];
        DigitsEscFree(u[2..]);
      } else {
        assert u == [u[0]] + u[1..];
        DigitsEscFree(u[1..]);
      }
    }
  }

  /** A value match in coded text splits it into an escape-free lead (the
      colon and the whitespace), a coded token and a coded remainder. */
  lemma ValueMatchSplits(p: Pattern, s: string, i: nat, h: Hit)
    requires p != KeyPat
    requires i <= |s|
    requires MatchAt(p, s, i) == Some(h)
    requires Coded(s[i..])
    ensures h.end <= |s|
    ensures EscFree(":" + h.ws)
    ensures s[i..] == (":" + h.ws) + (h.token + s[h.end..])
    ensures Coded(h.token) && Coded(s[h.end..])
  {
    SplitAfterValue(p, s, i, h);
  }

  /** The splitting argument of `ValueMatchSplits`, from the shape of the
      match alone. */
  lemma SplitAfterValue(p: Pattern, s: string, i: nat, h: Hit)
    requires p != KeyPat
    requires i < h.end <= |s|
    requires AllSpace(h.ws) && TokenShape(p, h.token)
    requires s[i..h.end] == ":" + h.ws + h.token
    requires Coded(s[i..])
    ensures EscFree(":" + h.ws)
    ensures s[i..] == (":" + h.ws) + (h.token + s[h.end..])
    ensures Coded(h.token) && Coded(s[h.end..])
  {
    var lead := ":" + h.ws;
    assert EscFree(lead) by {
      forall k | 0 <= k < |h.ws|
        ensures h.ws[k] != Esc
      {
        assert IsSpace(h.ws[k]);
      }
    }
    var t := h.token + s[h.end..];
    assert s[i..] == s[i..h.end] + s[h.end..];
    Assoc(lead, h.token, s[h.end..]);
    assert s[i..] == lead + t;
    StripAfterPlain(lead, t);
    TokenSplits(p, h.token, s[h.end..]);
  }

  /** A coded text that starts with a value token splits after the token. */
  lemma TokenSplits(p: Pattern, tok: string, rest: string)
    requires p != KeyPat
    requires TokenShape(p, tok)
    requires Coded(tok + rest)
    ensures Coded(tok) && Coded(rest)
  {
    var t := tok + rest;
    assert t[..|tok|] == tok;
    assert t[|tok|..] == rest;
    if p == StringPat {
      CodedSplitAtQuote(t, |tok|);
    } else {
      LiteralTokenEscFree(p, tok);
      EscFreeCoded(tok);
      StripAfterPlain(tok, rest);
    }
  }

  /** A colour code already in the text holds no colon, so a value pass copies
      it through whole. */
  lemma ValuePassCopiesCode(p: Pattern, s: string, i: nat) returns (n: nat)
    requires p != KeyPat
    requires i < |s| && s[i] == Esc
    requires Coded(s[i..])
    ensures 0 < n && i + n <= |s|
    ensures Coded(s[i..i + n]) && Strip(s[i..i + n]) == []
    ensures Coded(s[i + n..])
    ensures s[i..] == s[i..i + n] + s[i + n..]
    ensures ReplaceAll(p, s, i) == s[i..i + n] + ReplaceAll(p, s, i + n)
  {
    n := SgrLen(s[i..]);
    var code := s[i..i + n];
    assert s[i..][..n] == code;
    CodeHasNoColon(s, i, n);
    NoValueMatchWithoutColon(p, s, i, i + n);
    CopyWithoutMatch(p, s, i, i + n);
    assert SgrLen(code) == n;
    SgrStrips(code);
    assert s[i..][n..] == s[i + n..];
  }

  /** A colour code holds no colon. */
  lemma CodeHasNoColon(s: string, i: nat, n: nat)
    requires i <= |s|
    requires n == SgrLen(s[i..])
    ensures forall k :: i <= k < i + n ==> s[k] != ':'
  {
    forall k | i <= k < i + n
      ensures s[k] != ':'
    {
      assert s[k] == s[i..][k - i];
    }
  }

  /** No value match starts in a stretch without colons. */
  lemma NoValueMatchWithoutColon(p: Pattern, s: string, i: nat, j: nat)
    requires p != KeyPat
    requires i <= j <= |s|
    requires forall k :: i <= k < j ==> s[k] != ':'
    ensures forall k :: i <= k < j ==> MatchAt(p, s, k).None?
  {
    forall k | i <= k < j
      ensures MatchAt(p, s, k).None?
    {
      if MatchAt(p, s, k).Some? {
        ValueMatchStartsAtColon(p, s, k);
      }
    }
  }

  /** One value pass over coded text only inserts colour codes: the result
      is coded and strips back to the input. */
  lemma {:induction false} ValuePassStrips(p: Pattern, s: string, i: nat)
    requires p != KeyPat
    requires i <= |s|
    requires Coded(s[i..])
    ensures Coded(ReplaceAll(p, s, i))
    ensures Strip(ReplaceAll(p, s, i)) == Strip(s[i..])
    decreases |s| - i, 2
  {
    if i < |s| {
      var m := MatchAt(p, s, i);
      if m.Some? {
        ValuePassStripsAtMatch(p, s, i, m.value);
      } else {
        ValuePassStripsAtCopy(p, s, i);
      }
    }
  }

  /** `ValuePassStrips` where a match starts. */
  lemma {:induction false} ValuePassStripsAtMatch(p: Pattern, s: string, i: nat, h: Hit)
    requires p != KeyPat
    requires i < |s|
    requires Coded(s[i..])
    requires MatchAt(p, s, i) == Some(h)
    ensures Coded(ReplaceAll(p, s, i))
    ensures Strip(ReplaceAll(p, s, i)) == Strip(s[i..])
    decreases |s| - i, 1
  {
    ValueMatchSplits(p, s, i, h);
    ValuePassStrips(p, s, h.end);
    MatchStepStrips(p, s, i, h, ReplaceAll(p, s, h.end));
  }

  /** `ValuePassStrips` where no match starts and one rune or one colour code
      is copied. */
  lemma {:induction false} ValuePassStripsAtCopy(p: Pattern, s: string, i: nat)
    requires p != KeyPat
    requires i < |s|
    requires Coded(s[i..])
    requires MatchAt(p, s, i).None?
    ensures Coded(ReplaceAll(p, s, i))
    ensures Strip(ReplaceAll(p, s, i)) == Strip(s[i..])
    decreases |s| - i, 1
  {
    if s[i] != Esc {
      ValuePassStrips(p, s, i + 1);
      PlainStepStrips(s, i, ReplaceAll(p, s, i + 1));
    } else {
      ValuePassStripsAtCode(p, s, i);
    }
  }

  /** `ValuePassStrips` at a colour code already in the text. */
  lemma {:induction false} ValuePassStripsAtCode(p: Pattern, s: string, i: nat)
    requires p != KeyPat
    requires i < |s| && s[i] == Esc
    requires Coded(s[i..])
    ensures Coded(ReplaceAll(p, s, i))
    ensures Strip(ReplaceAll(p, s, i)) == Strip(s[i..])
    decreases |s| - i, 0
  {
    var n := ValuePassCopiesCode(p, s, i);
    ValuePassStrips(p, s, i + n);
    var rest := ReplaceAll(p, s, i + n);
    CodeStepStrips(s, i, n, rest);
    assert ReplaceAll(p, s, i) == s[i..i + n] + rest;
  }

  /** The matched step of `ValuePassStrips`. */
  lemma MatchStepStrips(p: Pattern, s: string, i: nat, h: Hit, rest: string)
    requires p != KeyPat
    requires i <= h.end <= |s|
    requires EscFree(":" + h.ws)
    requires s[i..] == (":" + h.ws) + (h.token + s[h.end..])
    requires Coded(h.token) && Coded(s[h.end..])
    requires Coded(rest) && Strip(rest) == Strip(s[h.end..])
    ensures Coded(Rewrite(p, h) + rest)
    ensures Strip(Rewrite(p, h) + rest) == Strip(s[i..])
  {
    ColorsStrip(p);
    WrapStrips(":" + h.ws, ColorOf(p), h.token, Reset, rest, s[h.end..]);
    Assoc(":" + h.ws, h.token, s[h.end..]);
  }

  /** The step of `ValuePassStrips` that copies one plain rune. */
  lemma PlainStepStrips(s: string, i: nat, rest: string)
    requires i < |s| && s[i] != Esc
    requires Coded(s[i + 1..]) ==> Coded(rest) && Strip(rest) == Strip(s[i + 1..])
    requires Coded(s[i..])
    ensures Coded([s[i]] + rest)
    ensures Strip([s[i]] + rest) == Strip(s[i..])
  {
    assert s[i..] == [s[i]] + s[i + 1..];
    StripAfterPlain([s[i]], s[i + 1..]);
    StripAfterPlain([s[i]], rest);
  }

  /** The step of `ValuePassStrips` that copies a whole colour code. */
  lemma CodeStepStrips(s: string, i: nat, n: nat, rest: string)
    requires i + n <= |s|
    requires Coded(s[i..i + n]) && Strip(s[i..i + n]) == []
    requires s[i..] == s[i..i + n] + s[i + n..]
    requires Coded(s[i + n..]) && Coded(rest) && Strip(rest) == Strip(s[i + n..])
    ensures Coded(s[i..i + n] + rest)
    ensures Strip(s[i..i + n] + rest) == Strip(s[i..])
  {
    CodedAppend(s[i..i + n], rest);
    CodedAppend(s[i..i + n], s[i + n..]);
  }

  // ---------------------------------------------------------------------------
  // The key pass
  // ---------------------------------------------------------------------------

  /** No whitespace rune stands directly before a colon. Outside string
      contents, `json.Indent` and `json.Compact` write `"key": value` and
      `"key":value`; string contents are copied as they are and may break
      this. */
  predicate NoSpaceBeforeColon(s: string) {
    forall k :: 0 < k < |s| && s[k] == ':' ==> !IsSpace(s[k - 1])
  }

  /** The pieces of a key match in escape-free text; under
      `NoSpaceBeforeColon` the dropped whitespace is empty. */
  lemma KeyMatchParts(s: string, i: nat, h: Hit)
    requires EscFree(s)
    requires i < h.end <= |s|
    requires AllSpace(h.ws)
    requires s[i..h.end] == h.token + h.ws + ":"
    ensures EscFree(h.token)
    ensures s[i..] == h.token + h.ws + ":" + s[h.end..]
    ensures NoSpaceBeforeColon(s) ==> h.ws == []
  {
    var whole := s[i..h.end];
    assert s[i..] == whole + s[h.end..];
    assert whole[..|h.token|] == h.token;
    forall k | 0 <= k < |h.token|
      ensures s[i..i + |h.token|][k] == whole[..|h.token|][k]
    {
    }
    assert s[i..i + |h.token|] == whole[..|h.token|];
    EscFreeSlice(s, i, i + |h.token|);
    if |h.ws| > 0 {
      assert s[h.end - 1] == whole[|whole| - 1] == ':';
      assert s[h.end - 2] == whole[|whole| - 2] == h.ws[|h.ws| - 1];
      assert IsSpace(h.ws[|h.ws| - 1]);
    }
  }

  /** The key rewrite `c "k" z :` strips back to `"k" :` when `c` and `z`
      are colour codes and the key holds no escape. */
  lemma KeyWrapStrips(c: string, tok: string, z: string, rest: string)
    requires Coded(c) && Strip(c) == [] && Coded(z) && Strip(z) == []
    requires EscFree(tok)
    requires Coded(rest)
    ensures Coded(c + tok + z + ":" + rest)
    ensures Strip(c + tok + z + ":" + rest) == tok + ":" + Strip(rest)
  {
    var sr := Strip(rest);
    var t3 := ":" + rest;
    StripAfterPlain(":", rest);
    assert Strip(t3) == ":" + sr;
    var t2 := z + t3;
    CodedAppend(z, t3);
    assert Strip(t2) == ":" + sr;
    var t1 := tok + t2;
    StripAfterPlain(tok, t2);
    assert Strip(t1) == tok + (":" + sr);
    CodedAppend(c, t1);
    assert Strip(c + t1) == tok + (":" + sr);
    Regroup(c, tok, z, ":", rest);
    Assoc(tok, ":", sr);
  }

  /** Deleting whitespace forgets the whitespace the key pass drops. */
  lemma SpaceDropped(tok: string, ws: string, x: string, y: string)
    requires AllSpace(ws)
    requires RemoveSpace(x) == RemoveSpace(y)
    ensures RemoveSpace(tok + ":" + x) == RemoveSpace(tok + ws + ":" + y)
  {
    var rt, rc, rx := RemoveSpace(tok), RemoveSpace(":"), RemoveSpace(x);
    assert RemoveSpace(ws) == [];
    RemoveSpaceAppend(tok, ":");
    RemoveSpaceAppend(tok + ":", x);
    assert RemoveSpace(tok + ":" + x) == rt + rc + rx;
    RemoveSpaceAppend(tok, ws);
    assert RemoveSpace(tok + ws) == rt + [];
    assert rt + [] == rt;
    RemoveSpaceAppend(tok + ws, ":");
    RemoveSpaceAppend(tok + ws + ":", y);
    assert RemoveSpace(tok + ws + ":" + y) == rt + rc + rx;
  }

  /** The key pass over escape-free text yields coded text that, once
      stripped, differs from the input only by whitespace, and equals it when
      no whitespace stands before a colon. */
  lemma {:induction false} KeyPassStrips(s: string, i: nat)
    requires EscFree(s)
    requires i <= |s|
    ensures Coded(ReplaceAll(KeyPat, s, i))
    ensures RemoveSpace(Strip(ReplaceAll(KeyPat, s, i))) == RemoveSpace(s[i..])
    ensures NoSpaceBeforeColon(s) ==> Strip(ReplaceAll(KeyPat, s, i)) == s[i..]
    decreases |s| - i, 1
  {
    if i < |s| {
      var m := MatchAt(KeyPat, s, i);
      if m.Some? {
        KeyPassStripsAtMatch(s, i, m.value);
      } else {
        KeyPassStripsAtCopy(s, i);
      }
    }
  }

  /** Where a match starts, a pass writes its rewrite and resumes after it. */
  lemma ReplaceAtHit(p: Pattern, s: string, i: nat, h: Hit)
    requires i < |s|
    requires MatchAt(p, s, i) == Some(h)
    ensures h.end <= |s|
    ensures ReplaceAll(p, s, i) == Rewrite(p, h) + ReplaceAll(p, s, h.end)
  {
  }

  /** `KeyPassStrips` where a key match starts. */
  lemma {:induction false} KeyPassStripsAtMatch(s: string, i: nat, h: Hit)
    requires EscFree(s)
    requires i < |s|
    requires MatchAt(KeyPat, s, i) == Some(h)
    ensures Coded(ReplaceAll(KeyPat, s, i))
    ensures RemoveSpace(Strip(ReplaceAll(KeyPat, s, i))) == RemoveSpace(s[i..])
    ensures NoSpaceBeforeColon(s) ==> Strip(ReplaceAll(KeyPat, s, i)) == s[i..]
    decreases |s| - i, 0
  {
    KeyMatchParts(s, i, h);
    KeyPassStrips(s, h.end);
    var rest := ReplaceAll(KeyPat, s, h.end);
    ReplaceAtHit(KeyPat, s, i, h);
    ColorsStrip(KeyPat);
    KeyWrapStrips(ColorOf(KeyPat), h.token, Reset, rest);
    SpaceDropped(h.token, h.ws, Strip(rest), s[h.end..]);
  }

  /** `KeyPassStrips` where no key match starts. */
  lemma {:induction false} KeyPassStripsAtCopy(s: string, i: nat)
    requires EscFree(s)
    requires i < |s|
    requires MatchAt(KeyPat, s, i).None?
    ensures Coded(ReplaceAll(KeyPat, s, i))
    ensures RemoveSpace(Strip(ReplaceAll(KeyPat, s, i))) == RemoveSpace(s[i..])
    ensures NoSpaceBeforeColon(s) ==> Strip(ReplaceAll(KeyPat, s, i)) == s[i..]
    decreases |s| - i, 0
  {
    KeyPassStrips(s, i + 1);
    var rest := ReplaceAll(KeyPat, s, i + 1);
    assert ReplaceAll(KeyPat, s, i) == [s[i]] + rest;
    assert s[i] in s;
    assert s[i..] == [s[i]] + s[i + 1..];
    KeyPlainStep(s[i], s[i + 1..], rest, NoSpaceBeforeColon(s));
  }

  /** A copied rune keeps the invariant of the key pass: coded output that strips
      to the input up to whitespace, and exactly to it when `exact` holds. */
  lemma KeyPlainStep(c: char, t: string, rest: string, exact: bool)
    requires c != Esc
    requires Coded(rest) && RemoveSpace(Strip(rest)) == RemoveSpace(t)
    requires exact ==> Strip(rest) == t
    ensures Coded([c] + rest)
    ensures RemoveSpace(Strip([c] + rest)) == RemoveSpace([c] + t)
    ensures exact ==> Strip([c] + rest) == [c] + t
  {
    StripAfterPlain([c], rest);
    RemoveSpaceAppend([c], Strip(rest));
    RemoveSpaceAppend([c], t);
  }

  /** The input with the whitespace between the closing quote of each key match
      and its colon deleted, and nothing else changed. */
  function WithoutKeySpace(s: string, i: nat, L: seq<Found>): string
    requires LeftmostScan(KeyPat, s, i, L)
    decreases |L|
  {
    if L == [] then s[i..]
    else s[i..L[0].start] + L[0].hit.token + ":" + WithoutKeySpace(s, L[0].hit.end, L[1..])
  }

  /** Stripped, the key pass over escape-free text is its input with the
      whitespace before the colon of each matched key deleted: that whitespace,
      and nothing else, is lost. */
  lemma {:induction false} KeyPassStripsToScan(s: string, i: nat, L: seq<Found>)
    requires EscFree(s)
    requires LeftmostScan(KeyPat, s, i, L)
    ensures Strip(ReplaceAll(KeyPat, s, i)) == WithoutKeySpace(s, i, L)
    decreases |L|
  {
    if L == [] {
      ReplaceAllIsScan(KeyPat, s, i, L);
      EscFreeSlice(s, i, |s|);
      assert s[i..|s|] == s[i..];
    } else {
      var m := L[0];
      var gap := s[i..m.start];
      CopyWithoutMatch(KeyPat, s, i, m.start);
      var rest := ReplaceAll(KeyPat, s, m.hit.end);
      ReplaceAtHit(KeyPat, s, m.start, m.hit);
      KeyMatchParts(s, m.start, m.hit);
      KeyPassStrips(s, m.hit.end);
      KeyPassStripsToScan(s, m.hit.end, L[1..]);
      EscFreeSlice(s, i, m.start);
      KeyStepStrips(gap, m.hit, rest);
    }
  }

  /** One key match after an escape-free stretch, followed by coded text:
      stripped, the stretch, the key and the colon, then the rest stripped. */
  lemma KeyStepStrips(gap: string, h: Hit, rest: string)
    requires EscFree(gap) && EscFree(h.token) && Coded(rest)
    ensures Strip(gap + (Rewrite(KeyPat, h) + rest)) == gap + h.token + ":" + Strip(rest)
  {
    ColorsStrip(KeyPat);
    KeyWrapStrips(ColorOf(KeyPat), h.token, Reset, rest);
    StripAfterPlain(gap, Rewrite(KeyPat, h) + rest);
    Assoc(gap, h.token + ":", Strip(rest));
  }

  // ---------------------------------------------------------------------------
  // The whole highlighter
  // ---------------------------------------------------------------------------

  /** A value pass over coded text only inserts colour codes. */
  lemma ValuePassOnlyInserts(p: Pattern, t: string)
    requires p != KeyPat
    requires Coded(t)
    ensures Coded(Pass(p, t))
    ensures Strip(Pass(p, t)) == Strip(t)
  {
    assert t[0..] == t;
    ValuePassStrips(p, t, 0);
  }

  /** The key pass over escape-free text drops nothing but whitespace, and
      nothing at all when no whitespace stands before a colon. */
  lemma KeyPassOnlyDropsSpace(s: string)
    requires EscFree(s)
    ensures Coded(Pass(KeyPat, s))
    ensures RemoveSpace(Strip(Pass(KeyPat, s))) == RemoveSpace(s)
    ensures NoSpaceBeforeColon(s) ==> Strip(Pass(KeyPat, s)) == s
  {
    assert s[0..] == s;
    KeyPassStrips(s, 0);
  }

  /** The key pass over escape-free text loses exactly the whitespace before
      the colon of each key it matches. */
  lemma KeyPassDropsOnlyKeySpace(s: string, L: seq<Found>)
    requires EscFree(s)
    requires LeftmostScan(KeyPat, s, 0, L)
    ensures Strip(Pass(KeyPat, s)) == WithoutKeySpace(s, 0, L)
  {
    KeyPassStripsToScan(s, 0, L);
  }

  /** Stripping the colours from highlighted escape-free text gives back the
      stripped key pass output: the four value passes after it only insert
      codes. Hence the text differs from the input by whitespace alone, and is
      the input when no whitespace stands before a colon. */
  lemma HighlightStripsBack(s: string)
    requires EscFree(s)
    ensures Coded(SyntaxHighlight(s))
    ensures Strip(SyntaxHighlight(s)) == Strip(Pass(KeyPat, s))
    ensures RemoveSpace(Strip(SyntaxHighlight(s))) == RemoveSpace(s)
    ensures NoSpaceBeforeColon(s) ==> Strip(SyntaxHighlight(s)) == s
  {
    var k := Pass(KeyPat, s);
    KeyPassOnlyDropsSpace(s);
    var a := Pass(StringPat, k);
    ValuePassOnlyInserts(StringPat, k);
    var b := Pass(NumberPat, a);
    ValuePassOnlyInserts(NumberPat, a);
    var c := Pass(BoolPat, b);
    ValuePassOnlyInserts(BoolPat, b);
    ValuePassOnlyInserts(NullPat, c);
  }
}
