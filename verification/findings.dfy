/** Two places where `syntaxHighlight` (main.go:197-231) does not do what its
    design evidently intends, each shown on a concrete rendering, next to a
    corrected definition with the intended property proved about it.

    1. The key pattern `"([^"]+)"\s*:` knows nothing of string boundaries: it
       can run from the closing quote of one string to a colon inside the next
       string, and its replacement drops the whitespace it skipped, so the
       highlighter deletes text inside a string value.
    2. The comment at main.go:212-214 says the string pass cannot match keys
       once they are wrapped in colour codes. A colon inside a key still lets
       `:(\s*)"([^"]*)"` start a match there, and `[^"]*` then runs over the
       reset code and the colour code of the next key up to its opening
       quote. */
module Findings {
  import opened Scan
  import opened Ansi
  import opened Highlight
  import opened HighlightProofs

  // ---------------------------------------------------------------------------
  // 1. The key pass deletes whitespace inside a string value
  // ---------------------------------------------------------------------------

  /** `s` is the text `w`, rune by rune: the same fact as `s == w`, given to
      the solver one index at a time. The example lemmas below state their
      input this way because the solver reads a whole string literal equality
      far more slowly, and with it they exceed the resource limit. */
  predicate Spells(s: string, w: string) {
    |s| == |w| && forall k :: 0 <= k < |w| ==> s[k] == w[k]
  }

  /** `["a"," :"]`, which `json.Compact` writes as it is. */
  const SpacedArray: string := "[\"a\",\" :\"]"

  /** The key pattern matches `","`, the space and the colon in `SpacedArray`,
      and the key pass drops that space: the stripped output is `["a",":"]`,
      which is not the rendering. */
  lemma KeyPassDropsSpaceInString(s: string)
    requires Spells(s, SpacedArray)
    ensures Strip(Pass(KeyPat, s)) == "[\"a\",\":\"]"
    ensures Strip(Pass(KeyPat, s)) != s
  {
    var h := Hit(" ", "\",\"", 8);
    var L := [Found(3, h)];
    SpacedArrayScan(s);
    KeyPassDropsOnlyKeySpace(s, L);
    assert WithoutKeySpace(s, 8, L[1..]) == s[8..];
    var r := Strip(Pass(KeyPat, s));
    assert r == s[0..3] + h.token + ":" + s[8..];
    assert s[0..3] == "[\"a" && s[8..] == "\"]";
    JoinedArray(r);
  }

  /** The pieces of the stripped key pass output on `SpacedArray`, joined. */
  lemma JoinedArray(r: string)
    requires r == "[\"a" + "\",\"" + ":" + "\"]"
    ensures r == "[\"a\",\":\"]" && |r| == |SpacedArray| - 1
  {
  }

  /** The one key match in `SpacedArray` starts at the closing quote of its
      first string. */
  lemma SpacedArrayScan(s: string)
    requires Spells(s, SpacedArray)
    ensures LeftmostScan(KeyPat, s, 0, [Found(3, Hit(" ", "\",\"", 8))])
  {
    SpacedArrayRunes(s);
    SpacedArrayKey(s);
    assert MatchAt(KeyPat, s, 1).None? by {
      FindQuoteUnique(s, 2, 3);
      SkipSpaceUnique(s, 4, 4);
    }
    assert MatchAt(KeyPat, s, 8).None? by {
      FindQuoteUnique(s, 9, 10);
    }
    var L := [Found(3, Hit(" ", "\",\"", 8))];
    assert LeftmostScan(KeyPat, s, 8, L[1..]);
  }

  /** The key match in `SpacedArray`: `","`, a space and the colon. */
  lemma SpacedArrayKey(s: string)
    requires Spells(s, SpacedArray)
    ensures MatchAt(KeyPat, s, 3) == Some(Hit(" ", "\",\"", 8))
  {
    SpacedArrayRunes(s);
    assert s[4..5][0] == ',';
    assert s[6..7][0] == ' ';
    KeyMatchComplete(s, 3, 5, 7);
    assert s[6..7] == " " && s[3..6] == "\",\"";
  }

  /** The runes of `SpacedArray`. */
  lemma SpacedArrayRunes(s: string)
    requires Spells(s, SpacedArray)
    ensures |s| == 10
    ensures s[0] == '[' && s[1] == '"' && s[2] == 'a' && s[3] == '"' && s[4] == ','
    ensures s[5] == '"' && s[6] == ' ' && s[7] == ':' && s[8] == '"' && s[9] == ']'
  {
    assert s[0] == SpacedArray[0] && s[1] == SpacedArray[1] && s[2] == SpacedArray[2];
    assert s[3] == SpacedArray[3] && s[4] == SpacedArray[4] && s[5] == SpacedArray[5];
    assert s[6] == SpacedArray[6] && s[7] == SpacedArray[7] && s[8] == SpacedArray[8];
    assert s[9] == SpacedArray[9];
  }

  /** The key rewrite as intended: colour the key and keep the whitespace
      between it and its colon. */
  function KeepSpaceRewrite(h: Hit): string {
    ColorOf(KeyPat) + h.token + Reset + (h.ws + ":")
  }

  /** The key pass with `KeepSpaceRewrite` as its replacement. */
  function KeepSpaceKeyPass(s: string, i: nat): string
    requires i <= |s|
    decreases |s| - i
  {
    if i == |s| then []
    else
      match MatchAt(KeyPat, s, i)
      case Some(h) => KeepSpaceRewrite(h) + KeepSpaceKeyPass(s, h.end)
      case None => [s[i]] + KeepSpaceKeyPass(s, i + 1)
  }

  /** The corrected key pass only inserts colour codes: stripped, its output
      is its input, whatever whitespace stands before a colon. */
  lemma {:induction false} KeepSpaceKeyPassStrips(s: string, i: nat)
    requires EscFree(s)
    requires i <= |s|
    ensures Coded(KeepSpaceKeyPass(s, i))
    ensures Strip(KeepSpaceKeyPass(s, i)) == s[i..]
    decreases |s| - i, 1
  {
    if i < |s| {
      var m := MatchAt(KeyPat, s, i);
      if m.Some? {
        KeepSpaceStripsAtMatch(s, i, m.value);
      } else {
        KeepSpaceKeyPassStrips(s, i + 1);
        var rest := KeepSpaceKeyPass(s, i + 1);
        assert KeepSpaceKeyPass(s, i) == [s[i]] + rest;
        assert s[i] in s;
        assert s[i..] == [s[i]] + s[i + 1..];
        StripAfterPlain([s[i]], rest);
      }
    }
  }

  /** `KeepSpaceKeyPassStrips` where a key match starts. */
  lemma {:induction false} KeepSpaceStripsAtMatch(s: string, i: nat, h: Hit)
    requires EscFree(s)
    requires i < |s|
    requires MatchAt(KeyPat, s, i) == Some(h)
    ensures Coded(KeepSpaceKeyPass(s, i))
    ensures Strip(KeepSpaceKeyPass(s, i)) == s[i..]
    decreases |s| - i, 0
  {
    KeyMatchParts(s, i, h);
    KeepSpaceKeyPassStrips(s, h.end);
    var rest := KeepSpaceKeyPass(s, h.end);
    assert KeepSpaceKeyPass(s, i) == KeepSpaceRewrite(h) + rest;
    ColorsStrip(KeyPat);
    KeepSpaceWrapStrips(ColorOf(KeyPat), h.token, Reset, h.ws, rest);
    Assoc(h.token + h.ws, ":", s[h.end..]);
    Assoc(h.token, h.ws, ":");
  }

  /** `c "k" z ws :` strips back to `"k" ws :` when `c` and `z` are colour
      codes and the key and the whitespace hold no escape. */
  lemma KeepSpaceWrapStrips(c: string, tok: string, z: string, ws: string, rest: string)
    requires Coded(c) && Strip(c) == [] && Coded(z) && Strip(z) == []
    requires EscFree(tok) && AllSpace(ws)
    requires Coded(rest)
    ensures Coded(c + tok + z + (ws + ":") + rest)
    ensures Strip(c + tok + z + (ws + ":") + rest) == tok + (ws + ":") + Strip(rest)
  {
    var w := ws + ":";
    assert EscFree(w) by {
      forall k | 0 <= k < |w| ensures w[k] != Esc {
        if k < |ws| { assert IsSpace(ws[k]); }
      }
    }
    var sr := Strip(rest);
    var t3 := w + rest;
    StripAfterPlain(w, rest);
    assert Strip(t3) == w + sr;
    var t2 := z + t3;
    CodedAppend(z, t3);
    assert Strip(t2) == w + sr;
    var t1 := tok + t2;
    StripAfterPlain(tok, t2);
    assert Strip(t1) == tok + (w + sr);
    CodedAppend(c, t1);
    assert Strip(c + t1) == tok + (w + sr);
    Regroup(c, tok, z, w, rest);
    Assoc(tok, w, sr);
  }

  // ---------------------------------------------------------------------------
  // 2. The string pass can swallow a wrapped key
  // ---------------------------------------------------------------------------

  /** `{"a:":1,"b":2}`: an object whose first key holds a colon. */
  const ColonKeyObject: string := "{\"a:\":1,\"b\":2}"

  /** The key pass output on `ColonKeyObject`, both keys wrapped. */
  const ColonKeyWrapped: string :=
    "{" + Blue + Bold + "\"a:\"" + Reset + ":1," + Blue + Bold + "\"b\"" + Reset + ":2}"

  /** The key pass matches `"a:":` and `"b":` in `ColonKeyObject`. */
  lemma ColonKeyScan(s: string)
    requires Spells(s, ColonKeyObject)
    ensures LeftmostScan(KeyPat, s, 0,
      [Found(1, Hit("", "\"a:\"", 6)), Found(8, Hit("", "\"b\"", 12))])
  {
    ColonKeyRunes(s);
    ColonKeyKeys(s);
    ColonKeyScanTail(s);
    var L := [Found(1, Hit("", "\"a:\"", 6)), Found(8, Hit("", "\"b\"", 12))];
    assert L[1..] == [Found(8, Hit("", "\"b\"", 12))];
  }

  /** After the first key, the key pass matches only `"b":`. */
  lemma ColonKeyScanTail(s: string)
    requires Spells(s, ColonKeyObject)
    ensures LeftmostScan(KeyPat, s, 6, [Found(8, Hit("", "\"b\"", 12))])
  {
    ColonKeyRunes(s);
    ColonKeyKeys(s);
    var L := [Found(8, Hit("", "\"b\"", 12))];
    assert LeftmostScan(KeyPat, s, 12, []);
    assert L[1..] == [];
  }

  /** The two key matches in `ColonKeyObject`. */
  lemma ColonKeyKeys(s: string)
    requires Spells(s, ColonKeyObject)
    ensures MatchAt(KeyPat, s, 1) == Some(Hit("", "\"a:\"", 6))
    ensures MatchAt(KeyPat, s, 8) == Some(Hit("", "\"b\"", 12))
  {
    ColonKeyRunes(s);
    assert s[2..4][0] == 'a' && s[2..4][1] == ':';
    assert s[9..10][0] == 'b';
    KeyMatchComplete(s, 1, 4, 5);
    assert s[5..5] == "" && s[1..5] == "\"a:\"";
    KeyMatchComplete(s, 8, 10, 11);
    assert s[11..11] == "" && s[8..11] == "\"b\"";
  }

  /** The runes of `ColonKeyObject`. */
  lemma ColonKeyRunes(s: string)
    requires Spells(s, ColonKeyObject)
    ensures |s| == 14
    ensures s[0] == '{' && s[1] == '"' && s[2] == 'a' && s[3] == ':' && s[4] == '"'
    ensures s[5] == ':' && s[6] == '1' && s[7] == ',' && s[8] == '"' && s[9] == 'b'
    ensures s[10] == '"' && s[11] == ':' && s[12] == '2' && s[13] == '}'
  {
    var w := ColonKeyObject;
    assert s[0] == w[0] && s[1] == w[1] && s[2] == w[2] && s[3] == w[3] && s[4] == w[4];
    assert s[5] == w[5] && s[6] == w[6] && s[7] == w[7] && s[8] == w[8] && s[9] == w[9];
    assert s[10] == w[10] && s[11] == w[11] && s[12] == w[12] && s[13] == w[13];
  }

  /** The key pass turns `ColonKeyObject` into `ColonKeyWrapped`. */
  lemma ColonKeyKeyPass(s: string)
    requires Spells(s, ColonKeyObject)
    ensures Pass(KeyPat, s) == ColonKeyWrapped
  {
    var L := [Found(1, Hit("", "\"a:\"", 6)), Found(8, Hit("", "\"b\"", 12))];
    ColonKeyScan(s);
    ReplaceAllIsScan(KeyPat, s, 0, L);
    assert L[1..][1..] == [];
    assert s[0..1] == "{" && s[6..8] == "1," && s[12..] == "2}";
    assert Assemble(KeyPat, s, 12, []) == "2}";
    assert Assemble(KeyPat, s, 6, L[1..]) == "1," + Rewrite(KeyPat, L[1].hit) + "2}";
    JoinedWrapped(Pass(KeyPat, s));
  }

  /** The pieces of the key pass output on `ColonKeyObject`, joined. */
  lemma JoinedWrapped(t: string)
    requires t == "{" + (Blue + Bold + "\"a:\"" + Reset + ":")
      + ("1," + (Blue + Bold + "\"b\"" + Reset + ":") + "2}")
    ensures t == ColonKeyWrapped
  {
  }

  /** On `ColonKeyWrapped`, the key pass output from `ColonKeyObject`, the
      string pass matches at the colon inside the first key. Its token runs
      from the closing quote of that key over the reset code, `:1,` and the
      colour code of the second key to its opening quote. The reset the pass
      appends after the token ends the colour of the second key right after
      that quote, so the rest of the key is shown uncoloured. */
  lemma StringPassSwallowsKey(t: string)
    requires Spells(t, ColonKeyWrapped)
    ensures |t| == 40
    ensures MatchAt(StringPat, t, 12) == Some(Hit("", t[13..31], 31))
    ensures t[13..31] == "\"" + Reset + ":1," + Blue + Bold + "\""
    ensures WrappedKeyAt(t, 30)
  {
    WrappedRunes(t);
    StringMatchComplete(t, 12, 13, 30);
    WrappedToken(t);
  }

  /** The runes of `ColonKeyWrapped` the string match reads: the inner colon
      and closing quote of the first key, the colour code and opening quote of
      the second key, and no quote in between. */
  lemma WrappedRunes(t: string)
    requires Spells(t, ColonKeyWrapped)
    ensures |t| == 40
    ensures t[12] == ':' && t[13] == '"' && t[30] == '"'
    ensures t[21..30] == Blue + Bold
    ensures '"' !in t[14..30]
  {
    assert t[12] == ColonKeyWrapped[12] && t[13] == ColonKeyWrapped[13];
    assert t[30] == ColonKeyWrapped[30];
    var kc := Blue + Bold;
    forall k | 0 <= k < 9 ensures t[21..30][k] == kc[k] {
      assert t[21 + k] == ColonKeyWrapped[21 + k];
    }
    var u := t[14..30];
    forall k | 0 <= k < 16 ensures u[k] != '"' {
      assert u[k] == t[14 + k] == ColonKeyWrapped[14 + k];
    }
  }

  /** The token of the string match on `ColonKeyWrapped`. */
  lemma WrappedToken(t: string)
    requires Spells(t, ColonKeyWrapped)
    ensures t[13..31] == "\"" + Reset + ":1," + Blue + Bold + "\""
  {
    var w := "\"" + Reset + ":1," + Blue + Bold + "\"";
    forall k | 0 <= k < 18 ensures t[13..31][k] == w[k] {
      assert t[13 + k] == ColonKeyWrapped[13 + k];
    }
  }

  /** The string pattern as intended, `:(\s*)"([^"\x1b]*)"`: its contents may
      not run into a colour code. */
  function CodeFreeStringMatch(s: string, i: nat): (r: Option<Hit>)
    requires i <= |s|
    ensures r.Some? ==> MatchAt(StringPat, s, i) == r
    ensures r.Some? ==> EscFree(r.value.token)
    ensures r.Some? ==> forall q :: i <= q < r.value.end ==> !WrappedKeyAt(s, q)
    ensures r.None? && MatchAt(StringPat, s, i).Some? ==> !EscFree(MatchAt(StringPat, s, i).value.token)
  {
    match MatchAt(StringPat, s, i)
    case Some(h) =>
      if EscFree(h.token) then
        CodeFreeMatchAvoidsKeys(s, i, h);
        Some(h)
      else None
    case None => None
  }

  /** A string match without escapes in its token covers the opening quote of
      no wrapped key: the key colour code in front of that quote would have to
      lie inside the match or overlap its colon. */
  lemma CodeFreeMatchAvoidsKeys(s: string, i: nat, h: Hit)
    requires i <= |s|
    requires MatchAt(StringPat, s, i) == Some(h)
    requires EscFree(h.token)
    ensures forall q :: i <= q < h.end ==> !WrappedKeyAt(s, q)
  {
    var m := s[i..h.end];
    assert m == ":" + h.ws + h.token;
    assert Esc !in m by {
      forall k | 0 <= k < |m| ensures m[k] != Esc {
        if 0 < k <= |h.ws| {
          assert m[k] == h.ws[k - 1];
          assert IsSpace(h.ws[k - 1]);
        } else if k > |h.ws| {
          assert m[k] == h.token[k - 1 - |h.ws|];
        }
      }
    }
    var kc := Blue + Bold;
    assert kc[5] == Esc && kc[6] == '[' && kc[7] == '1' && kc[8] == 'm';
    forall q | i <= q < h.end
      ensures !WrappedKeyAt(s, q)
    {
      if |kc| <= q {
        if q - 4 >= i {
          assert s[q - |kc|..q][5] == s[q - 4] == m[q - 4 - i];
        } else if i < q {
          assert s[q - |kc|..q][i - (q - |kc|)] == s[i] == m[0];
        } else {
          assert s[q] == m[0];
        }
      }
    }
  }

  /** On `ColonKeyWrapped` the intended string pattern does not match at the
      colon of the first key, where the pattern as written does. */
  lemma CodeFreeStringSkipsKey(t: string)
    requires Spells(t, ColonKeyWrapped)
    ensures MatchAt(StringPat, t, 12).Some?
    ensures CodeFreeStringMatch(t, 12).None?
  {
    StringPassSwallowsKey(t);
    assert t[13..31][1] == Esc;
  }
}
