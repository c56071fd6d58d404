/** ANSI colour codes as the program writes them (main.go:13-25), and the
    inverse view used to state what highlighting inserts: `Strip` deletes
    every SGR sequence `ESC [ d m` or `ESC [ d d m`, which covers every code
    the highlighter emits. */
module Ansi {
  import opened Scan

  const Esc: char := '\U{1B}'

  const Reset: string := [Esc] + "[0m"
  const Bold: string := [Esc] + "[1m"
  const Red: string := [Esc] + "[31m"
  const Green: string := [Esc] + "[32m"
  const Yellow: string := [Esc] + "[33m"
  const Blue: string := [Esc] + "[34m"
  const Purple: string := [Esc] + "[35m"

  /** No escape character anywhere in `t`. */
  predicate EscFree(t: string) {
    Esc !in t
  }

  /** Length of the SGR sequence at the start of `t` (one- or two-digit
      parameter), or 0 when `t` does not start with one. */
  function SgrLen(t: string): (n: nat)
    ensures n == 0 || n == 4 || n == 5
    ensures n > 0 ==> n <= |t| && t[0] == Esc && t[1] == '[' && t[n - 1] == 'm'
    ensures n > 0 ==> IsDigit(t[2]) && (n == 4 || IsDigit(t[3]))
  {
    if |t| >= 4 && t[0] == Esc && t[1] == '[' && IsDigit(t[2]) && t[3] == 'm' then 4
    else if |t| >= 5 && t[0] == Esc && t[1] == '[' && IsDigit(t[2]) && IsDigit(t[3]) && t[4] == 'm' then 5
    else 0
  }

  /** `t` splits into plain runes and whole SGR sequences: every escape in it
      starts a complete colour code. */
  predicate Coded(t: string)
    decreases |t|
  {
    if |t| == 0 then true
    else if t[0] != Esc then Coded(t[1..])
    else SgrLen(t) > 0 && Coded(t[SgrLen(t)..])
  }

  /** `t` with every SGR sequence removed; any other rune, a stray escape
      included, is kept. */
  function Strip(t: string): (r: string)
    ensures |r| <= |t|
    ensures EscFree(t) ==> r == t
    decreases |t|
  {
    if |t| == 0 then []
    else if t[0] == Esc && SgrLen(t) > 0 then Strip(t[SgrLen(t)..])
    else [t[0]] + Strip(t[1..])
  }

  /** Text without escapes is trivially a sequence of plain runes. */
  lemma {:induction false} EscFreeCoded(t: string)
    requires EscFree(t)
    ensures Coded(t)
    decreases |t|
  {
    if |t| > 0 {
      assert t[0] in t;
      assert forall c :: c in t[1..] ==> c in t;
      EscFreeCoded(t[1..]);
    }
  }

  /** A coded prefix ends on a code boundary, so `Strip` distributes over the
      concatenation and the suffix alone decides whether the whole is coded. */
  lemma {:induction false} CodedAppend(a: string, b: string)
    requires Coded(a)
    ensures Coded(a + b) <==> Coded(b)
    ensures Strip(a + b) == Strip(a) + Strip(b)
    decreases |a|
  {
    if |a| > 0 {
      var n := if a[0] != Esc then 1 else SgrLen(a);
      assert (a + b)[..n] == a[..n];
      assert SgrLen(a + b) == SgrLen(a);
      assert (a + b)[n..] == a[n..] + b;
      CodedAppend(a[n..], b);
    } else {
      assert a + b == b;
    }
  }

  /** A single colour code is coded and strips to nothing. */
  lemma SgrStrips(c: string)
    requires SgrLen(c) == |c|
    requires |c| > 0
    ensures Coded(c)
    ensures Strip(c) == []
  {
    assert c[|c|..] == [];
  }

  /** Each code the highlighter writes is a complete SGR sequence that `Strip`
      deletes. */
  lemma {:induction false} PaletteStrips()
    ensures forall c :: c in {Reset, Red, Green, Yellow, Purple, Blue + Bold} ==> Coded(c) && Strip(c) == []
  {
    SgrStrips(Reset);
    SgrStrips(Red);
    SgrStrips(Green);
    SgrStrips(Yellow);
    SgrStrips(Purple);
    SgrStrips(Blue);
    SgrStrips(Bold);
    CodedAppend(Blue, Bold);
  }

  /** A plain (escape-free) prefix survives stripping unchanged. */
  lemma StripAfterPlain(a: string, t: string)
    requires EscFree(a)
    ensures Coded(a + t) <==> Coded(t)
    ensures Strip(a + t) == a + Strip(t)
  {
    EscFreeCoded(a);
    CodedAppend(a, t);
  }

  /** The first rune or colour code of coded text is coded on its own. */
  lemma CodedHead(t: string, k: nat)
    requires Coded(t) && |t| > 0
    requires k == if t[0] != Esc then 1 else SgrLen(t)
    ensures 0 < k <= |t| && Coded(t[..k])
  {
    if t[0] != Esc {
      assert t[..k][1..] == [];
    } else {
      assert SgrLen(t[..k]) == k;
      SgrStrips(t[..k]);
    }
  }

  /** A quote never sits inside a colour code, so coded text split just after
      a quote splits into two coded halves. */
  lemma {:induction false} CodedSplitAtQuote(t: string, n: nat)
    requires Coded(t)
    requires 0 < n <= |t|
    requires t[n - 1] == '"'
    ensures Coded(t[..n]) && Coded(t[n..])
    decreases |t|
  {
    var k := if t[0] != Esc then 1 else SgrLen(t);
    if n > k {
      CodedSplitAtQuote(t[k..], n - k);
      SplitSlices(t, k, n);
      CodedHead(t, k);
      CodedAppend(t[..k], t[k..n]);
    } else {
      QuoteOpensCoded(t, n);
    }
  }

  /** Slices of `t` around two cut points `k <= n`, read in the suffix from `k`. */
  lemma SplitSlices(t: string, k: nat, n: nat)
    requires k <= n <= |t|
    ensures t[k..][..n - k] == t[k..n]
    ensures t[k..][n - k..] == t[n..]
    ensures t[..n] == t[..k] + t[k..n]
  {
  }

  /** A quote within the first rune or colour code of coded text is that
      first rune, so the split after it is a plain rune and coded text. */
  lemma QuoteOpensCoded(t: string, n: nat)
    requires Coded(t)
    requires 0 < n <= |t| && t[n - 1] == '"'
    requires n <= (if t[0] != Esc then 1 else SgrLen(t))
    ensures Coded(t[..n]) && Coded(t[n..])
  {
    assert t[0] != Esc;
    assert n == 1;
    assert t[..n][1..] == [];
    assert t[n..] == t[1..];
  }
}
