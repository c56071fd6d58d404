/** The decode/render/write loop of `main` (main.go:113-193) and the colour
    gating in front of it (main.go:83-100, 179).

    The decoder is abstracted as the finite sequence of results its successive
    `Decode` calls return; running off the end of the sequence is the same as
    `io.EOF`. The renderer (`json.Compact`, `json.Indent`, `json.Marshal` or
    `json.MarshalIndent`, chosen by the compact and sort-keys flags) is an
    uninterpreted function from a decoded value to its bytes or an error. */
module Stream {
  import opened Scan
  import opened Ansi
  import opened Highlight
  import opened HighlightProofs

  /** The flags and the facts about the environment the loop depends on. An
      empty `outputFile` means standard output. */
  datatype Config = Config(
    compact: bool,
    sortKeys: bool,
    colorize: bool,
    validate: bool,
    outputFile: string,
    stdoutIsCharDevice: bool)

  /** One `Decode` call: a value, the end of the input, or a syntax error. */
  datatype Decoded<V> = Value(v: V) | EndOfInput | DecodeError(msg: string)

  /** One call of the renderer. */
  datatype Rendered = Rendered(bytes: string) | RenderFailed(msg: string)

  /** How the run ended: normally at end of input, or with the message the
      program prints before exiting with status 1. */
  datatype Status = Completed | Failed(message: string)

  /** Everything written to the output, the value count, and the status. */
  datatype Outcome = Outcome(written: string, count: nat, status: Status)

  /** The colour flag after output setup (main.go:83-100): an output file or
      a standard output that is not a character device turns it off. */
  function ColorAfterSetup(cfg: Config): (c: bool)
    ensures c <==> cfg.colorize && cfg.outputFile == "" && cfg.stdoutIsCharDevice
  {
    if cfg.outputFile != "" then false
    else if !cfg.stdoutIsCharDevice then false
    else cfg.colorize
  }

  /** Whether a rendered value is highlighted (main.go:179). */
  function HighlightApplies(cfg: Config): (b: bool)
    ensures b <==> cfg.colorize && cfg.outputFile == "" && cfg.stdoutIsCharDevice
  {
    ColorAfterSetup(cfg) && cfg.outputFile == ""
  }

  /** The message for a failed decode (main.go:125, 134). */
  function DecodeErrorMessage(msg: string): string {
    "Invalid JSON: " + msg
  }

  /** The message for a failed render: `json.Compact` failures on the
      order-preserving compact path are reported as compact errors
      (main.go:158-160), those of every other renderer as encoding errors
      (main.go:173-175). */
  function RenderErrorMessage(cfg: Config, msg: string): string {
    if !cfg.sortKeys && cfg.compact then "Compact error: " + msg
    else "Encoding error: " + msg
  }

  /** What one rendered value puts on the output (main.go:179-185). */
  function Chunk(cfg: Config, bytes: string): string {
    (if HighlightApplies(cfg) then SyntaxHighlight(bytes) else bytes) + "\n"
  }

  /** What colour does to a chunk: once the colour codes are removed, it is
      the rendering and one newline, except that when highlighting applies
      the whitespace between the closing quote of each key-pattern match and its
      colon is gone. Whitespace aside it is always the rendering, and it is
      the rendering itself when no whitespace stands before a colon. The
      key pattern can match across string contents (`["a"," :"]` loses the
      space inside its second string), so this loss is real. */
  lemma ChunkStripsToRendering(cfg: Config, bytes: string, L: seq<Found>)
    requires EscFree(bytes)
    requires LeftmostScan(KeyPat, bytes, 0, L)
    ensures Coded(Chunk(cfg, bytes))
    ensures Strip(Chunk(cfg, bytes)) == (if HighlightApplies(cfg) then WithoutKeySpace(bytes, 0, L) else bytes) + "\n"
    ensures RemoveSpace(Strip(Chunk(cfg, bytes))) == RemoveSpace(bytes + "\n")
    ensures NoSpaceBeforeColon(bytes) ==> Strip(Chunk(cfg, bytes)) == bytes + "\n"
  {
    var body := if HighlightApplies(cfg) then SyntaxHighlight(bytes) else bytes;
    if HighlightApplies(cfg) {
      HighlightStripsBack(bytes);
      KeyPassDropsOnlyKeySpace(bytes, L);
    } else {
      EscFreeCoded(bytes);
    }
    CodedAppend(body, "\n");
    EscFreeCoded("\n");
    RemoveSpaceAppend(Strip(body), "\n");
    RemoveSpaceAppend(bytes, "\n");
  }

  /** The loop from some iteration on, with what has been written and counted
      so far. */
  function RunFrom<V>(cfg: Config, render: V -> Rendered, items: seq<Decoded<V>>, written: string, count: nat): Outcome
    decreases |items|
  {
    if |items| == 0 then Outcome(written, count, Completed)
    else
      match items[0]
      case EndOfInput => Outcome(written, count, Completed)
      case DecodeError(m) => Outcome(written, count, Failed(DecodeErrorMessage(m)))
      case Value(v) =>
        if cfg.validate then RunFrom(cfg, render, items[1..], written, count + 1)
        else
          match render(v)
          case RenderFailed(m) => Outcome(written, count, Failed(RenderErrorMessage(cfg, m)))
          case Rendered(b) => RunFrom(cfg, render, items[1..], written + Chunk(cfg, b), count + 1)
  }

  /** The whole run over the results of the decoder. */
  function Run<V>(cfg: Config, render: V -> Rendered, items: seq<Decoded<V>>): Outcome {
    RunFrom(cfg, render, items, "", 0)
  }

  /** The loop as the program runs it, one decode per iteration. */
  method Process<V>(cfg: Config, render: V -> Rendered, items: seq<Decoded<V>>) returns (out: Outcome)
    ensures out == Run(cfg, render, items)
  {
    var written := "";
    var count := 0;
    var i := 0;
    while i < |items|
      invariant i <= |items|
      invariant RunFrom(cfg, render, items[i..], written, count) == Run(cfg, render, items)
      decreases |items| - i
    {
      assert items[i..][0] == items[i];
      assert items[i..][1..] == items[i + 1..];
      match items[i]
      case EndOfInput =>
        return Outcome(written, count, Completed);
      case DecodeError(m) =>
        return Outcome(written, count, Failed(DecodeErrorMessage(m)));
      case Value(v) =>
        if cfg.validate {
          count := count + 1;
        } else {
          var r := render(v);
          if r.RenderFailed? {
            return Outcome(written, count, Failed(RenderErrorMessage(cfg, r.msg)));
          }
          written := written + Chunk(cfg, r.bytes);
          count := count + 1;
        }
      i := i + 1;
    }
    return Outcome(written, count, Completed);
  }

  // ---------------------------------------------------------------------------
  // Reference descriptions of the run
  // ---------------------------------------------------------------------------

  /** How many results the decoder yields before the end of input or the
      first error. */
  function LeadingValues<V>(items: seq<Decoded<V>>): (n: nat)
    ensures n <= |items|
    ensures forall k :: 0 <= k < n ==> items[k].Value?
    ensures n == |items| || !items[n].Value?
    decreases |items|
  {
    if |items| == 0 || !items[0].Value? then 0 else 1 + LeadingValues(items[1..])
  }

  /** How decoding stops after `n` values. */
  function StopStatus<V>(items: seq<Decoded<V>>, n: nat): Status {
    if n < |items| && items[n].DecodeError? then Failed(DecodeErrorMessage(items[n].msg)) else Completed
  }

  /** The chunks of every value in `items` that renders, concatenated in
      order; other entries contribute nothing. */
  function Chunks<V>(cfg: Config, render: V -> Rendered, items: seq<Decoded<V>>): string
    decreases |items|
  {
    if |items| == 0 then ""
    else
      (if items[0].Value? && render(items[0].v).Rendered? then Chunk(cfg, render(items[0].v).bytes) else "")
      + Chunks(cfg, render, items[1..])
  }

  // ---------------------------------------------------------------------------
  // Properties of the run
  // ---------------------------------------------------------------------------

  /** The chunks of a non-empty prefix start with the chunk of the first value. */
  lemma ChunksOfPrefix<V>(cfg: Config, render: V -> Rendered, items: seq<Decoded<V>>, k: nat, written: string)
    requires 0 < k <= |items|
    requires items[0].Value? && render(items[0].v).Rendered?
    ensures written + Chunk(cfg, render(items[0].v).bytes) + Chunks(cfg, render, items[1..][..k - 1])
         == written + Chunks(cfg, render, items[..k])
  {
    assert items[..k][0] == items[0];
    assert items[..k][1..] == items[1..][..k - 1];
  }

  /** Validate-only mode writes nothing and counts every value decoded before
      the end of input or the first error (main.go:139-142, 189-190). */
  lemma {:induction false} ValidateCountsValues<V>(cfg: Config, render: V -> Rendered, items: seq<Decoded<V>>, written: string, count: nat)
    requires cfg.validate
    ensures RunFrom(cfg, render, items, written, count)
         == Outcome(written, count + LeadingValues(items), StopStatus(items, LeadingValues(items)))
    decreases |items|
  {
    if |items| > 0 && items[0].Value? {
      ValidateCountsValues(cfg, render, items[1..], written, count + 1);
    }
  }

  /** When every value renders, each value decoded before the end of input or
      the first error contributes exactly one chunk, its rendering followed by
      one newline, in input order, and one to the count (main.go:184-186). */
  lemma {:induction false} OneChunkPerValue<V>(cfg: Config, render: V -> Rendered, items: seq<Decoded<V>>, written: string, count: nat)
    requires !cfg.validate
    requires forall k :: 0 <= k < LeadingValues(items) ==> render(items[k].v).Rendered?
    ensures RunFrom(cfg, render, items, written, count)
         == Outcome(written + Chunks(cfg, render, items[..LeadingValues(items)]),
                    count + LeadingValues(items),
                    StopStatus(items, LeadingValues(items)))
    decreases |items|
  {
    var n := LeadingValues(items);
    if |items| > 0 && items[0].Value? {
      var b := render(items[0].v).bytes;
      assert LeadingValues(items[1..]) == n - 1;
      forall k | 0 <= k < n - 1
        ensures render(items[1..][k].v).Rendered?
      {
        assert items[1..][k] == items[k + 1];
      }
      OneChunkPerValue(cfg, render, items[1..], written + Chunk(cfg, b), count + 1);
      ChunksOfPrefix(cfg, render, items, n, written);
    } else {
      assert items[..n] == [];
    }
  }

  /** The first value that fails to render halts the run: the chunks of the
      values before it stay written, nothing after it is written, and the
      failure is reported (main.go:158-161, 173-176). */
  lemma {:induction false} RenderFailureHalts<V>(cfg: Config, render: V -> Rendered, items: seq<Decoded<V>>, k: nat, written: string, count: nat)
    requires !cfg.validate
    requires k < LeadingValues(items)
    requires render(items[k].v).RenderFailed?
    requires forall j :: 0 <= j < k ==> render(items[j].v).Rendered?
    ensures RunFrom(cfg, render, items, written, count)
         == Outcome(written + Chunks(cfg, render, items[..k]), count + k,
                    Failed(RenderErrorMessage(cfg, render(items[k].v).msg)))
    decreases k
  {
    if k == 0 {
      assert items[..0] == [];
    } else {
      var b := render(items[0].v).bytes;
      assert LeadingValues(items[1..]) == LeadingValues(items) - 1;
      forall j | 0 <= j < k - 1
        ensures render(items[1..][j].v).Rendered?
      {
        assert items[1..][j] == items[j + 1];
      }
      assert items[1..][k - 1] == items[k];
      RenderFailureHalts(cfg, render, items[1..], k - 1, written + Chunk(cfg, b), count + 1);
      ChunksOfPrefix(cfg, render, items, k, written);
    }
  }

  /** The run never looks past the end of input or the first decode error:
      whatever follows them has no effect (main.go:121-136). */
  lemma {:induction false} StopsAtFirstNonValue<V>(cfg: Config, render: V -> Rendered, items: seq<Decoded<V>>, rest: seq<Decoded<V>>, written: string, count: nat)
    requires LeadingValues(items) < |items|
    ensures RunFrom(cfg, render, items + rest, written, count) == RunFrom(cfg, render, items, written, count)
    decreases |items|
  {
    assert (items + rest)[0] == items[0];
    if items[0].Value? {
      assert (items + rest)[1..] == items[1..] + rest;
      match render(items[0].v)
      case Rendered(b) =>
        StopsAtFirstNonValue(cfg, render, items[1..], rest, written + Chunk(cfg, b), count + 1);
        StopsAtFirstNonValue(cfg, render, items[1..], rest, written, count + 1);
      case RenderFailed(_) =>
        if cfg.validate {
          StopsAtFirstNonValue(cfg, render, items[1..], rest, written, count + 1);
        }
    }
  }

  /** Output is only ever appended to: the run extends whatever was written
      before it. */
  lemma {:induction false} WrittenExtends<V>(cfg: Config, render: V -> Rendered, items: seq<Decoded<V>>, written: string, count: nat)
    ensures written <= RunFrom(cfg, render, items, written, count).written
    decreases |items|
  {
    if |items| > 0 && items[0].Value? {
      if cfg.validate || render(items[0].v).RenderFailed? {
        WrittenExtends(cfg, render, items[1..], written, count + 1);
      } else {
        var w := written + Chunk(cfg, render(items[0].v).bytes);
        WrittenExtends(cfg, render, items[1..], w, count + 1);
        var r := RunFrom(cfg, render, items[1..], w, count + 1).written;
        assert r[..|written|] == w[..|written|] == written;
      }
    }
  }

  /** Whatever the run has written after the first `k` decoder results stays
      written: it is a prefix of the final output. */
  lemma {:induction false} WrittenStaysWritten<V>(cfg: Config, render: V -> Rendered, items: seq<Decoded<V>>, k: nat, written: string, count: nat)
    requires k <= |items|
    ensures RunFrom(cfg, render, items[..k], written, count).written <= RunFrom(cfg, render, items, written, count).written
    decreases k
  {
    if k == 0 {
      assert items[..0] == [];
      WrittenExtends(cfg, render, items, written, count);
    } else {
      assert items[..k][0] == items[0];
      assert items[..k][1..] == items[1..][..k - 1];
      if items[0].Value? {
        match render(items[0].v)
        case Rendered(b) =>
          WrittenStaysWritten(cfg, render, items[1..], k - 1, written + Chunk(cfg, b), count + 1);
          WrittenStaysWritten(cfg, render, items[1..], k - 1, written, count + 1);
        case RenderFailed(_) =>
          WrittenStaysWritten(cfg, render, items[1..], k - 1, written, count + 1);
      }
    }
  }
}
