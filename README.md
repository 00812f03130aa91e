# grammar-llama: a Dafny model of the hotkey grammar corrector

grammar-llama waits for a global hotkey. When it fires, the tool:

1. copies the selected text with a copy key chord and reads it back from the clipboard;
2. asks a local Ollama model for a correction;
3. prints a coloured diff of the original and corrected sentences, plus a summary;
4. puts the corrected text on the clipboard and pastes it over the selection with a paste key chord.

This project models the sequential logic inside that pipeline and proves its properties:

- the sentence chunker that feeds the diff;
- the classification of diff lines into added, removed and plain;
- the shape of the service's reply;
- the configuration defaults;
- the guarded apply step that overwrites the clipboard.

Modules, one concern each:

- `Wrappers` (`wrappers.dfy`): `Option`, for unset environment variables and missing replies.
- `Strings` (`strings.dfy`): `StartsWith`, which is Python's `str.startswith`.
- `Chunker` (`chunker.dfy`): `chunk_text`. The lookbehind split is written out. A *boundary* is a position whose previous character is `.`, `!` or `?` and whose own character is whitespace. The maximal whitespace run that starts there is cut out. Each piece is then stripped, and blank pieces are dropped. `IsSplitOf` states the contract of `re.split` with this pattern. `Split` and `Seps` are proved to meet it, and to be the only pieces and separators that do. Whitespace is Python's `str.isspace` set, which is also what `\s` matches in a `str` pattern. It is listed character by character.
- `DiffLines` (`diff_lines.dfy`): the colouring branch of `print_diff`, as `Added | Removed | Plain`.
- `Config` (`config.dfy`): `get_model`, `get_prompt`, `get_hotkey_combo` and the copy/paste modifier key. Each environment variable is an `Option<string>`. An empty value counts as unset, as Python's truthiness test does. The platform string is a parameter.
- `Correction` (`correction.dfy`): the `Response` record and its grammar strength. The strength is one of the five literal strings "1" to "5".
- `Activation` (`activation.dfy`): `on_activate`, as a `Desktop` class.
  - The class holds the clipboard and a log of the key chords the tool sends.
  - The copy chord's effect is a parameter: what the focused application copied, or `None` if it copied nothing.
  - The correction service is a function parameter from the captured text to an optional `Response`.
  - `Valid()` is an invariant that `OnActivate` keeps: the tool never issues a paste of empty text.

The grammar strength is one of the five string literals "1" to "5".

A reply whose corrected text is whitespace only, such as `" "`, is non-empty. It is therefore copied and pasted: `Activation.TextToApply` applies every non-empty text.

## Model

| member | source | states |
|---|---|---|
| `Chunker.IsSpace` | grammar_llama/main.py:85 | the whitespace set shared by `\s` in a `str` pattern and by `str.strip()`: Python's `str.isspace` code points |
| `Chunker.BoundaryAt` | grammar_llama/main.py:85 | where the pattern starts matching: the previous character is `.`, `!` or `?` and this one is whitespace |
| `Chunker.TrimStart` | grammar_llama/main.py:85 | left strip: the result is a suffix of the input, does not start with whitespace, and everything cut off before it is whitespace |
| `Chunker.TrimEnd` | grammar_llama/main.py:85 | right strip: the result is a prefix of the input, does not end with whitespace, and everything cut off after it is whitespace |
| `Chunker.Strip` | grammar_llama/main.py:85 | `strip()` gives either the empty string or a string that neither starts nor ends with whitespace |
| `Chunker.StripVisible` | grammar_llama/main.py:85 | stripping removes whitespace only: the non-whitespace characters are unchanged |
| `Chunker.StripBlank` | grammar_llama/main.py:85 | the filter `if s.strip()` drops exactly the pieces that are empty or all whitespace |
| `Chunker.FirstBoundary` | grammar_llama/main.py:85 | the first place at or after a start index where the pattern matches, so no earlier place matches |
| `Chunker.RunEnd` | grammar_llama/main.py:85 | the greedy `\s+`: everything up to the returned index is whitespace, and the next character is not |
| `Chunker.Split` | grammar_llama/main.py:85 | `re.split` returns at least one piece, one more than the number of separators `Seps` cuts out |
| `Chunker.Seps` | grammar_llama/main.py:85 | the whitespace runs the split removes, one between each two consecutive pieces |
| `Chunker.IsSplitOf` | grammar_llama/main.py:85 | the contract of `re.split` with this pattern: the pieces rejoined with the separators give the text; each separator is a non-empty, maximal whitespace run right after a sentence end; no piece holds another match |
| `Chunker.SplitRoundTrip` | grammar_llama/main.py:85 | rejoining the pieces with the removed runs gives back the text exactly |
| `Chunker.SplitCuts` | grammar_llama/main.py:85 | each removed run follows a piece ending in `.`, `!` or `?`, is non-empty whitespace, and the next piece does not start with whitespace |
| `Chunker.SplitIsSplit` | grammar_llama/main.py:85 | `Split` and `Seps` meet the contract of `re.split` |
| `Chunker.SplitUnique` | grammar_llama/main.py:85 | any pieces and separators meeting the contract of `re.split` are `Split` and `Seps`: the contract fixes the result |
| `Chunker.RunEndAt` | grammar_llama/main.py:85 | a whitespace run followed by a non-space or the end of the text is where the greedy `\s+` stops |
| `Chunker.SplitExample` | grammar_llama/main.py:85 | `a. c` splits into `a.` and `c`, with the single space removed |
| `Chunker.SplitPiecesEnd` | grammar_llama/main.py:85 | every piece but the last is non-empty and ends with `.`, `!` or `?` |
| `Chunker.SplitPiecesNoBoundary` | grammar_llama/main.py:85 | no piece contains a sentence end followed by whitespace |
| `Chunker.SplitVisible` | grammar_llama/main.py:85 | the pieces together keep every non-whitespace character of the text, in order |
| `Chunker.SplitWhole` | grammar_llama/main.py:85 | a text without a match splits into itself alone |
| `Chunker.KeepEnds` | grammar_llama/main.py:85 | if every piece but the last ends a sentence, so does every kept chunk but the last |
| `Chunker.Keep` | grammar_llama/main.py:85 | the list comprehension: strip every piece and keep the non-blank results, in order |
| `Chunker.KeepFromPieces` | grammar_llama/main.py:85 | every kept chunk is the strip of some piece |
| `Chunker.KeepKeepsPieces` | grammar_llama/main.py:85 | every piece whose strip is non-empty gives that strip as a chunk |
| `Chunker.ChunkText` | grammar_llama/main.py:84-85 | `chunk_text`: the strip-and-filter of the split of the text |
| `Chunker.ChunksOfSplit` | grammar_llama/main.py:84-85 | for the pieces meeting the contract of `re.split`, the chunks are exactly their non-blank strips in order: each chunk is the strip of a piece, and each non-blank piece gives a chunk |
| `Chunker.ChunkExample` | grammar_llama/main.py:84-85 | `a. c` gives the two chunks `a.` and `c` |
| `Chunker.ChunksAreStripped` | grammar_llama/main.py:85 | every chunk is non-empty and has no leading or trailing whitespace |
| `Chunker.ChunksEndSentences` | grammar_llama/main.py:85 | every chunk except possibly the last ends with `.`, `!` or `?` |
| `Chunker.ChunksHaveNoBoundary` | grammar_llama/main.py:85 | no chunk contains a sentence end followed by whitespace |
| `Chunker.ChunksKeepText` | grammar_llama/main.py:85 | chunking loses only whitespace: the other characters survive, in order |
| `Chunker.ChunkBlank` | grammar_llama/main.py:85 | the result is empty if and only if the text is empty or all whitespace |
| `Chunker.ChunkUnbroken` | grammar_llama/main.py:85 | with no sentence end followed by whitespace, the result is the stripped text alone, or nothing if that is blank |
| `Chunker.RechunkChunk` | grammar_llama/main.py:85 | chunking any chunk again gives back exactly that chunk |
| `Chunker.SingleSentence` | grammar_llama/main.py:85 | a stripped text with no sentence end before its last character is one chunk |
| `DiffLines.Classify` | grammar_llama/main.py:93-99 | green if and only if the line starts with `+` but not `+++`; red if and only if it starts with `-` but not `---`; plain otherwise |
| `DiffLines.HeadersArePlain` | grammar_llama/main.py:91-99 | the `--- original` and `+++ corrected` headers are printed without colour |
| `DiffLines.ContextAndHunkArePlain` | grammar_llama/main.py:93-99 | context lines (a leading space) and `@@` hunk headers are printed without colour |
| `DiffLines.BodyLineClassified` | grammar_llama/main.py:91-99 | an added chunk is green if and only if it does not start with `++`; a removed chunk is red if and only if it does not start with `--` |
| `DiffLines.AddedLineMisread` | grammar_llama/main.py:94-95 | the addition of the chunk `++i adds one.` is printed without colour |
| `DiffLines.ClassifyAt` | grammar_llama/main.py:93-99 | corrected classification: the first two lines are headers and plain; every later line is green if and only if it starts with `+`, and red if and only if it starts with `-` |
| `DiffLines.BodyLineClassifiedAt` | grammar_llama/main.py:93-99 | under the corrected classification every added chunk is green, every removed chunk red and every context line plain |
| `DiffLines.ClassifyAtAgrees` | grammar_llama/main.py:93-99 | the corrected classification agrees with the written one on every body line that does not start with `+++` or `---` |
| `DiffLines.HeadersAgree` | grammar_llama/main.py:91-99 | both classifications leave the two headers plain |
| `Config.OrDefault` | grammar_llama/main.py:32 | a set, non-empty value wins; otherwise the default |
| `Config.IsMac` | grammar_llama/main.py:39-40 | `is_mac`: the platform string starts with `darwin` |
| `Config.GetModel` | grammar_llama/main.py:30-32 | `CHECKER_MODEL` when it is set and non-empty, else `gemma3`; never empty |
| `Config.GetPrompt` | grammar_llama/main.py:35-37 | `CHECKER_PROMPT` when it is set and non-empty, else the built-in prompt; never empty |
| `Config.GetHotkeyCombo` | grammar_llama/main.py:57-65 | `CHECKER_HOTKEY` when set and non-empty, else `<ctrl>+<cmd>+a` on darwin platforms and `<ctrl>+<alt>+a` on all others; never empty |
| `Config.ChordModifier` | grammar_llama/main.py:103 | the copy and paste chords use Cmd exactly on darwin platforms, Ctrl elsewhere |
| `Config.EmptyOverrideIsUnset` | grammar_llama/main.py:30-37 | an empty environment value selects the same defaults as an unset one |
| `Config.MacDefaults` | grammar_llama/main.py:62-63 | every platform string starting with `darwin` gets the Mac hotkey and the Cmd modifier |
| `Config.OtherDefaults` | grammar_llama/main.py:64-65 | `linux` and `win32` get the `<alt>` hotkey and the Ctrl modifier |
| `Correction.StrengthLiteral` | grammar_llama/main.py:51 | the literal for a rank from 1 to 5 is valid and is that rank's single decimal digit |
| `Correction.StrengthRank` | grammar_llama/main.py:51 | a strength string has a rank if and only if it is one of "1" to "5", and the rank's literal is that string |
| `Correction.StrengthRoundTrip` | grammar_llama/main.py:51 | reading the literal of a rank gives that rank back: there are exactly five levels |
| `Correction.Validate` | grammar_llama/main.py:50-54 | a `Response` is built, with the given fields, if and only if the strength is one of the five literals; what is built is valid |
| `Correction.ValidResponse` | grammar_llama/main.py:50-54 | a `Response` is valid when its strength is one of the literals "1" to "5"; the other three fields are any strings |
| `Activation.TextToApply` | grammar_llama/main.py:166 | there is text to apply if and only if a reply exists and its corrected text is non-empty; that text is the corrected text |
| `Activation.ClipboardAfter` | grammar_llama/main.py:166-172 | the clipboard holds the corrected text after a usable reply, and is unchanged otherwise |
| `Activation.ApplyIdempotent` | grammar_llama/main.py:169 | applying the same reply twice leaves the same clipboard as applying it once |
| `Activation.ApplyForgetsClipboard` | grammar_llama/main.py:169 | after a usable reply the clipboard does not depend on what it held before, and it is non-empty |
| `Activation.BlankCorrectionIsApplied` | grammar_llama/main.py:166 | every non-empty corrected text made only of whitespace passes the guard and is the text applied |
| `Activation.HomophoneScenario` | grammar_llama/main.py:166-170 | a reply with strength "2" and text "They're going to the store." is valid and leaves that text on the clipboard |
| `Activation.FailedServiceScenario` | grammar_llama/main.py:171-172 | no reply, or a reply with empty corrected text, leaves the clipboard unchanged |
| `Activation.Desktop.constructor` | grammar_llama/main.py:47 | a fresh desktop with the given platform and clipboard has sent no chords |
| `Activation.Desktop.Valid` | grammar_llama/main.py:166-170 | the invariant that every paste chord sent carries non-empty text, as the guard on line 166 ensures |
| `Activation.Desktop.CopyTextAtCursor` | grammar_llama/main.py:102-107 | sends one copy chord with the platform's modifier; the clipboard then holds what was copied, or is unchanged if nothing was |
| `Activation.Desktop.Paste` | grammar_llama/main.py:160 | returns the clipboard |
| `Activation.Desktop.Copy` | grammar_llama/main.py:169 | overwrites the clipboard and sends no chord |
| `Activation.Desktop.PasteTextAtCursor` | grammar_llama/main.py:144-149 | sends one paste chord carrying the current clipboard; the clipboard is unchanged |
| `Activation.Desktop.ApplyCorrection` | grammar_llama/main.py:166-172 | with a usable reply, the clipboard becomes the corrected text and one paste of it is sent; otherwise the clipboard and the chords are unchanged; no empty paste is ever issued |
| `Activation.Desktop.OnActivate` | grammar_llama/main.py:158-172 | one copy chord is sent, and the service is asked about the captured text; the clipboard ends holding the corrected text when the reply is usable, else the captured text; a paste is sent only in the first case; no empty paste is ever issued |

## Findings

| source | as written | input that shows it | evidently intended | confidence | as-written member | corrected member |
|---|---|---|---|---|---|---|
| grammar_llama/main.py:94-97 | A diff line is coloured only if it starts with `+` but not `+++`, or with `-` but not `---`. This test is meant to skip the two file headers, but it also skips body lines. | Correcting into the chunk `++i adds one.` gives the diff line `+++i adds one.`, which is printed without colour. A removed chunk starting with `--` is likewise not red. | Colour every added and removed line. Leave only the two header lines at the top of the diff plain. | medium; not executed | `DiffLines.AddedLineMisread` | `DiffLines.ClassifyAt` |

## Left out

- This version of the tool handles each activation synchronously, start to finish. It has no single-flight orchestrator, run states, cancellation or locking, so none are modelled.
- Key chord injection through pynput, and the 0.1 s sleeps after it, are I/O. Each chord is one entry in `Desktop.chords`. A paste's effect on the focused document is not modelled.
- The clipboard library (`pyperclip`) is a `clipboard` field holding a string.
- The body of `correct_grammar` (lines 110-141) is not modelled. That covers the Ollama `chat` call, the JSON schema sent with it, the JSON parsing, and the exceptions caught into `None`. The service is a function parameter, and `Correction.Validate` models only the strength-literal field check.
- `Desktop.OnActivate`: the correction service is modelled as a fixed function of the captured text. The real service may answer the same text differently on each call.
- `run_startup_tasks` (lines 68-81) is network I/O followed by `sys.exit`.
- `difflib.unified_diff` (line 91) is a library algorithm whose source is not part of this model. Only its two header lines and the per-line classification are modelled.
- Console output is not modelled: the printed messages, `summarize_grammar` and the ANSI colour codes.
- The `GlobalHotKeys` listener loop and the exception handling in `main` (lines 175-184) are OS event delivery and process control.
- `MODEL`, `PROMPT` and `IS_MAC` are read once at import time in the source. In the model, their environment values and the platform are parameters.
- Python strings may contain lone surrogate code points; Dafny's `char` cannot, so such text is outside the model.
