# JSON-Beautify in Dafny

A model of the two pieces of JSON-Beautify that make decisions, with proofs
about them.

- **The syntax highlighter** (`syntaxHighlight`). It takes already-rendered
  JSON text and runs five regular-expression substitutions over it, in a
  fixed order: keys, string values, numbers, booleans, null. Each pass wraps
  a token in an ANSI colour code and the reset code. Each pattern is written
  out as a scanner over runes, with RE2 `ReplaceAllString` semantics:
  - leftmost-first, greedy matching;
  - non-overlapping matches;
  - `\s` is tab, newline, form feed, carriage return or space;
  - `[^"]` also matches newlines.
- **The stream loop of `main`**. It decodes one value after another, renders
  each one, highlights it when colour is on, and writes it followed by a
  newline. It stops at end of input or at the first error, and in
  validate-only mode it only counts.
  - The decoder is the finite sequence of results its `Decode` calls return.
  - The renderer is an uninterpreted function.
  - The colour gate is computed from the colour flag, the output file name and
    whether standard output is a character device.

Files:
- `scan.dfy`: character classes and the greedy scanners behind `\s*`,
  `[^"]*` and `[0-9]*`.
- `ansi.dfy`: the colour codes. `Strip` deletes SGR sequences, which gives
  the inverse view that the highlighter's properties are stated in; `Coded`
  says that every escape starts a whole code.
- `highlight.dfy`: the five patterns, their matchers, `ReplaceAll` and
  `SyntaxHighlight`.
- `highlight_proofs.dfy`: what each pattern matches, the scan of leftmost
  non-overlapping matches, and what each pass inserts and drops.
- `stream.dfy`: the loop as a fold (`Run`), the loop as a method (`Process`),
  and the properties of a run.
- `findings.dfy`: two places where the highlighter changes or miscolours
  JSON text, each on a concrete input, next to a corrected definition.

The main results:
- The value passes only insert colour codes.
- The key pass only drops the whitespace between each key match's closing
  quote and its colon. Stripped, its output is the input with exactly that
  whitespace deleted.
- So the whole highlighter, once stripped, gives back its escape-free input
  up to whitespace. It gives back the input itself when no whitespace
  precedes a colon.
- No string match opens at the quote of a key the key pass has wrapped.
- Text without a colon is unchanged by the value passes. Negative numbers are
  never matched.
- A number match takes the longest number the pattern allows, with its
  fraction and exponent whenever they are there.
- Each value yields one chunk and one newline, in order. The first error
  halts the run, and what was written stays written.

The patterns do not know JSON structure, and the model keeps that behaviour.
For example, inside the array `["a",":"]` the text `",":` matches the key
pattern and is coloured as a key. It runs from the first element's closing
quote to the colon inside the second element. With a space before that
colon the key pass deletes the space, which is the first finding below.

The colour gate, as main.go:92-100 and 179 have it:
- It reads only the colour flag, the output file and whether standard output
  is a character device.
- Validate-only mode never renders (main.go:139-142), so nothing is
  highlighted there.
- The compact flag is not among its inputs: compact output to a terminal is
  highlighted like indented output.

## Model

| member | source | states |
|---|---|---|
| Highlight.MatchAt | main.go:208-228 | A match of a pattern at an index spans exactly the text the pattern describes. For a key, that is the quoted key, whitespace, then a colon. For a value, it is a colon, whitespace, then the token. The token has the pattern's shape, and the whitespace part is all whitespace. |
| Highlight.KeyMatch | main.go:208 | A key match is a quoted non-empty run without quotes, then only whitespace, then a colon. |
| Highlight.ValueMatch | main.go:215-228 | A value match is a colon, whitespace, then the longest token of the pattern that starts after that whitespace. When a colon is not matched, no token of the pattern starts after the whitespace that follows it. |
| Highlight.TokenEnd | main.go:215-228 | After the colon and whitespace, a value pattern takes the longest token of its language that starts there, and fails only when no token starts there. Strings are quoted runs without inner quotes, numbers are words of `[0-9]+(\.[0-9]+)?([eE][+-]?[0-9]+)?`, and the literals are `true`, `false` and `null`. |
| Highlight.NumberEnd | main.go:219 | The number pattern matches exactly when a digit comes first. What it takes is a number, and no longer number starts at the same place. |
| Highlight.FractionEnd | main.go:219 | The optional fraction is taken whenever a dot and a digit follow the integer part. No longer fraction is possible there. |
| Highlight.ExponentEnd | main.go:219 | The optional exponent is taken whenever an `e` or `E`, an optional sign and a digit follow. No longer exponent is possible there. |
| HighlightProofs.KeyMatchComplete | main.go:208 | Every occurrence of `"k"`, whitespace and a colon, with a non-empty quote-free `k`, is matched. The captured key and the whitespace before the colon are exactly what the text holds. |
| HighlightProofs.StringMatchComplete | main.go:215 | Every colon, whitespace and quoted quote-free string is matched, with that whitespace and that string as captures. |
| HighlightProofs.ValueMatchLongest | main.go:215-228 | A value match's token is the longest token of its pattern after the whitespace. A colon where the pattern fails has no token of it after the whitespace. |
| HighlightProofs.ValueMatchComplete | main.go:215-228 | A colon, whitespace, then the longest token of a value pattern is that pattern's match, with that whitespace and that token. A number match therefore keeps its fraction and exponent. |
| HighlightProofs.LiteralMatchComplete | main.go:223-228 | A colon, whitespace, then `true`, `false` or `null` is matched by the boolean or null pattern with exactly that literal. |
| HighlightProofs.NegativeNumberNotMatched | main.go:219 | A value that starts with `-` is never matched by the number pattern, so negative numbers stay uncoloured. |
| HighlightProofs.ValueMatchStartsAtColon | main.go:215-228 | Value patterns only ever match starting at a colon. |
| HighlightProofs.CopyWithoutMatch | main.go:209-228 | Where no match starts, `ReplaceAllString` copies the text through unchanged. |
| HighlightProofs.NoMatchUnchanged | main.go:209-228 | A pass whose pattern matches nowhere returns its input. |
| HighlightProofs.ScanExists | main.go:209-228 | Every text has a list of leftmost non-overlapping matches: none starts before the first, and the rest are found from the end of the first on. |
| HighlightProofs.ScanUnique | main.go:209-228 | That list of matches is unique. |
| HighlightProofs.ReplaceAllIsScan | main.go:209-228 | A pass (`ReplaceAll`, `Pass`) is the text between the leftmost non-overlapping matches copied, with each match replaced by its template. |
| HighlightProofs.RewriteStrips | main.go:209-228 | Stripped, the key template (`Rewrite`) is the key and the colon, without the whitespace the match skipped. A value template is the colon, the same whitespace and the token. |
| HighlightProofs.ColonFreeUnchanged | main.go:215-228 | Text without a colon passes every value pass unchanged. |
| HighlightProofs.NoValueMatchWithoutColon | main.go:215-228 | No value match starts anywhere in a stretch of text that holds no colon. |
| HighlightProofs.StringPassSkipsWrappedKey | main.go:211-216 | No string match opens at the quote of a key the key pass has wrapped. That quote follows the key colour code, not a colon or whitespace. |
| HighlightProofs.ValuePassStrips | main.go:215-228 | From any position, a value pass over coded text gives coded text that strips back to the input. |
| HighlightProofs.ValuePassOnlyInserts | main.go:215-228 | The string, number, boolean and null passes only insert colour codes: stripping the codes from a pass's output returns its input. |
| HighlightProofs.KeyPassStrips | main.go:208-209 | From any position, the key pass over escape-free text gives coded text. Once stripped, it differs from the input only in whitespace, and equals it when no whitespace precedes a colon. |
| HighlightProofs.KeyPassStripsToScan | main.go:208-209 | Stripped, the key pass over escape-free text is its input with the whitespace before each matched key's colon deleted, and nothing else changed. |
| HighlightProofs.KeyPassDropsOnlyKeySpace | main.go:208-209 | The same for a whole text: the key pass loses exactly the whitespace between each key match's closing quote and its colon. |
| HighlightProofs.KeyPassOnlyDropsSpace | main.go:207-209 | The key pass over escape-free text gives coded text whose stripped form equals the input once all whitespace is deleted from both. It equals the input when no whitespace precedes a colon. |
| HighlightProofs.HighlightStripsBack | main.go:197-231 | The five passes in order (`SyntaxHighlight`) turn escape-free text into coded text. Stripped, it is what the key pass left, and it equals the input once all whitespace is deleted from both. It equals the input when no whitespace precedes a colon. |
| Ansi.PaletteStrips | main.go:15-24 | Every colour code the highlighter writes is a complete SGR sequence, and stripping deletes it. |
| Stream.ColorAfterSetup | main.go:83-100 | After output setup the colour flag is on exactly when it was given, there is no output file and standard output is a character device. |
| Stream.HighlightApplies | main.go:179 | A rendered value is highlighted exactly when the colour flag is set, there is no output file and standard output is a character device. |
| Stream.ChunkStripsToRendering | main.go:178-185 | A chunk (`Chunk`) with its colour codes removed is the rendering and one newline, except that when highlighting applies the whitespace before each key match's colon is gone. Whitespace aside, it is always the rendering and a newline, and it is exactly that when no whitespace precedes a colon. |
| Stream.Process | main.go:113-187 | The loop, run one decode at a time, produces exactly the outcome of the fold `Run` (`RunFrom` from an empty output). |
| Stream.LeadingValues | main.go:114-137 | Counts how many values the decoder yields before end of input or the first error. All of them are values, and the next result, if any, is not. |
| Stream.ValidateCountsValues | main.go:139-142 | In validate-only mode nothing is written. The count is the number of values decoded before end of input or the first decode error, and a decode error is the reported failure. |
| Stream.OneChunkPerValue | main.go:179-186 | When every value renders, each value decoded before the stop adds exactly one chunk (`Chunk`), in input order: its (possibly highlighted) rendering and one newline. Each value adds one to the count. |
| Stream.RenderFailureHalts | main.go:148-176 | The first value that fails to render stops the run. The chunks of the values before it stay written, nothing after it is written, and the message of `RenderErrorMessage` is reported: a compact error on the order-preserving compact path (main.go:158-160), an encoding error otherwise (main.go:173-175). |
| Stream.StopsAtFirstNonValue | main.go:119-136 | End of input or a decode error ends the run. Whatever follows it in the input has no effect. |
| Stream.WrittenExtends | main.go:184-185 | Output is only ever appended to. |
| Stream.WrittenStaysWritten | main.go:113-187 | What the run has written after any number of decoder results is a prefix of its final output. Written chunks are never taken back. |
| Findings.KeyPassDropsSpaceInString | main.go:208-209 | On `["a"," :"]`, which has no key, the key pass matches `","`, a space and the colon inside the second string, and its stripped output `["a",":"]` is not its input. |
| Findings.KeepSpaceKeyPassStrips | main.go:208-209 | A key pass whose template keeps the skipped whitespace only inserts colour codes: stripped, its output is its escape-free input. |
| Findings.ColonKeyKeyPass | main.go:208-209 | The key pass wraps both keys of `{"a:":1,"b":2}` in the key colour and reset. |
| Findings.StringPassSwallowsKey | main.go:211-216 | On that output, the string pattern matches at the colon inside the first key. Its token runs over the reset code, `:1,` and the second key's colour code to the second key's opening quote. |
| Findings.CodeFreeStringMatch | main.go:211-216 | The string pattern as the comment intends: it agrees with the pattern as written where its token holds no escape, refuses otherwise, and none of its matches covers a wrapped key's opening quote. |
| Findings.CodeFreeStringSkipsKey | main.go:211-216 | On the same output, the intended string pattern does not match at the first key's colon, where the pattern as written does. |

## Findings

| source | as written | input that shows it | evidently intended | confidence | as-written member | corrected member |
|---|---|---|---|---|---|---|
| main.go:208-209 | `"([^"]+)"\s*:` can start at one string's closing quote and end at a colon inside the next string; the replacement drops the whitespace it skipped | `["a"," :"]` (which `json.Compact` writes unchanged) is printed as `["a",":"]` plus colour codes | colour keys without changing the text: keep the whitespace before the colon | not executed | Findings.KeyPassDropsSpaceInString | Findings.KeepSpaceKeyPassStrips |
| main.go:212-216 | the comment says the string pass cannot match keys once they hold colour codes, but `[^"]*` also matches the escape character | `{"a:":1,"b":2}`: after the key pass, the string pattern matches from the colon inside `"a:"` over the reset, `:1,` and the next key's colour code to the opening quote of `"b"`, and its appended reset ends the second key's colour right after that quote, so `b"` is shown uncoloured | string matches never run into a colour code, so a wrapped key is never touched | not executed | Findings.StringPassSwallowsKey | Findings.CodeFreeStringSkipsKey |

The model of `syntaxHighlight` itself keeps the passes as written. The
corrected definitions (`KeepSpaceKeyPass`, `CodeFreeStringMatch`) live next
to the examples and carry the intended property.

## Left out

- `encoding/json` (`Decoder.Decode`, `Compact`, `Indent`, `Marshal`, `MarshalIndent`): library code that is not part of this model. The decoder is a sequence of results, and the renderer is a function parameter that returns bytes or an error message.
- The sort-keys path's numeric behaviour (numbers decoded as `float64`): it lives inside `encoding/json`.
- Flag parsing, opening the input, creating the output file, stat-ing standard output, and the standard-input check of main.go:73-77: these are I/O. The model takes the flags, the output file and the character-device test of standard output as booleans and strings in `Config`. The standard-input check (with no `-i` and a terminal on standard input the program exits with "No input provided") and failures to open or create a file are not modelled.
- `os.Exit` and the text printed to standard error: a run ends with a `Status` that carries the message. The validate-only message (main.go:190) reports the count, and the model returns it; the "Saved to" message (main.go:191-192) only names the output file and is not modelled.
- Help, version and message-printing helpers (main.go:235-282): terminal output only.
- The `encoder` configured at main.go:104-110: nothing ever encodes through it, so it has no effect.
- Errors from `writer.Write` (main.go:184-185): the program ignores them, and the model appends unconditionally.
- Bytes versus runes: the highlighter is modelled over runes. Go's `regexp` reads rendered JSON as UTF-8, and every character class used matches one rune, so this is the same on valid UTF-8.
- The cyan, white and gray colour constants: `syntaxHighlight` never writes them, and cyan appears only in the help and version text (main.go:243, 265, 269), which is not modelled.
- Highlight.MatchAt: its own contract states the shape of a match only. That the match is the greedy one and that every occurrence is matched is stated by `ValueMatchLongest`, `ValueMatchComplete` and `KeyMatchComplete`.
- HighlightProofs.HighlightStripsBack: states the round trip only for input without escape characters. `Decoder.Decode` (main.go:121, 130) rejects a raw control character inside a string as a syntax error, and `json.Marshal`/`json.MarshalIndent` (main.go:150, 152) escape them; `json.Compact` and `json.Indent` copy string contents as they are. Only the `-prefix` and `-indent` strings can bring an escape into the rendering (main.go:152, 168), so a rendering that holds one through them is not covered.
- Stream.ChunkStripsToRendering: likewise only for a rendering without escape characters, for the same reason.
