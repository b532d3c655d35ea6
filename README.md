# vscode-js-transform, modelled in Dafny

The extension adds a notebook type, "JS Transform". It has an input cell and a JavaScript cell. Running the notebook feeds the input cell's text to the script as `input`, and shows the script's value under the MIME type of the input cell's language. Four pieces of `src/extension.ts` are modelled here and proved about.

- **The return heuristic** (`addReturnToLastLine`, module `ReturnHeuristic`, with the string library it relies on in `Text`).
  - Before a script runs, a bare expression on its last meaningful line is rewritten to `return (<expression>);`.
  - The method `AddReturnToLastLine` follows the source step by step. It splits the script into an array, scans it backwards, tests the guards and assigns the rewritten line back into the array.
  - It is proved equal to the function `AddReturn`, and the lemmas are stated about that function.
  - The regular expressions are written as predicates: `/^\s*return\b/`, the keyword pattern, both arrow patterns and `/\S.*$/`.
  - `\s` is ECMAScript's WhiteSpace and LineTerminator set, which is also what `String.prototype.trim` strips.
- **Cell pairing** in the execution handler (module `CellPairing`).
  - The method `SelectCells` is the handler's `for` loop with its `continue` and `break`. It is proved to give the first code cell as input and the first later JavaScript code cell as script.
  - `ExecuteHandler` is the handler up to the point where it would start an execution.
- **The language-to-MIME table** with its `text/plain` default (module `Mime`).
- **The notebook serializer's cell mapping** (module `Serializer`).
  - `TextEncoder`, `TextDecoder`, `JSON.parse` and `JSON.stringify` are parameters, given as a `Runtime` value.
  - A cell is written as `{kind, value, languageId}`. Outputs and metadata are not written, as in the source.

Notes on following the code:
- **Matches after a line terminator.** `/\S.*$/` cannot match across a line terminator, because `.` does not match one and `$` needs the end of the text. So a line holding an inner `\r` or U+2028 is wrapped only after its last terminator: `a\rb` becomes `a\rreturn (b);` (`WrapAfterInnerTerminator`). A line ending in a terminator, such as the `\r` of a CRLF script, has no match and is left alone (`CrlfUnchanged`).
- **The input cell.** A comment in the handler speaks of looking for a `plaintext` cell. The loop actually takes the first code cell of any language, and the model follows the loop.
- **The first arrow guard adds nothing.** `/=\s*\(.*\)\s*=>/` matches only where `/=\s*[^=]+=>/` matches too (`ArrowParenImpliesArrowAny`). Both are still modelled.

## Model

| member | source | states |
|---|---|---|
| `Text.LeadingSpaces` | src/extension.ts:197 | the count of leading `\s` characters: all of them are spaces, and the next character, if any, is not |
| `Text.IsLineTerminator` | src/extension.ts:234 | ECMAScript's LineTerminator set (`\n`, `\r`, U+2028, U+2029): the characters `.` does not match and `$` cannot pass |
| `Text.IsWhiteSpace` | src/extension.ts:197 | ECMAScript's WhiteSpace set: tab, vertical tab, form feed, space, no-break space, U+FEFF and the Unicode space separators |
| `Text.IsSpace` | src/extension.ts:197 | `\s`, which is also what `trim` strips: WhiteSpace or LineTerminator |
| `Text.TrailingSpaces` | src/extension.ts:197 | the count of trailing `\s` characters: all of them are spaces, and the character before them, if any, is not |
| `Text.WordBoundary` | src/extension.ts:218-219 | `\b` at a position: exactly one of the characters on either side is a `\w` character |
| `Text.StartsWith` | src/extension.ts:199 | `startsWith`: the text begins with the prefix (also used at line 222) |
| `Text.EndsWith` | src/extension.ts:220-221 | `endsWith`: the text ends with the suffix |
| `Text.Trim` | src/extension.ts:197 | `trim()` is empty exactly when every character is `\s`; otherwise it is the text from the first to the last non-space character, both non-space |
| `Text.Split` | src/extension.ts:192 | `split('\n')` gives at least one piece and no piece holds a newline |
| `Text.JoinSplit` | src/extension.ts:192 | joining the pieces of `split('\n')` with newlines gives back the script exactly |
| `Text.Join` | src/extension.ts:238 | `lines.join('\n')`: the lines in order with one newline between neighbours; `JoinSplit` and `SplitJoin` make it the inverse of `Split` |
| `Text.SplitJoin` | src/extension.ts:238 | splitting the join of newline-free lines gives back the same lines |
| `ReturnHeuristic.IsSkippable` | src/extension.ts:197-199 | the skip test, stated on the first non-`\s` character: none is left, or `//` or `/*` starts there |
| `ReturnHeuristic.SkippableIff` | src/extension.ts:197-200 | a line is skipped exactly when its trimmed text is empty or starts with `//` or `/*` |
| `ReturnHeuristic.LastMeaningfulBelow` | src/extension.ts:195-204 | the index found is the last line that is not skipped, every later line is skipped, and -1 means every line is skipped |
| `ReturnHeuristic.LastMeaningful` | src/extension.ts:195-204 | `lastExprIndex` after the loop: the last meaningful line of the whole script, or -1 |
| `ReturnHeuristic.StartsWithReturn` | src/extension.ts:218 | `/^\s*return\b/`: after the leading `\s` run come the letters `return` and a word boundary |
| `ReturnHeuristic.KeywordAt` | src/extension.ts:219 | one alternative of the keyword pattern: the text starts with that keyword followed by a word boundary |
| `ReturnHeuristic.StartsWithAsyncFunction` | src/extension.ts:219 | the alternative `async\s+function\b`: `async`, at least one `\s`, `function` and a word boundary |
| `ReturnHeuristic.StartsWithDeclaration` | src/extension.ts:219 | the whole anchored pattern: one of the thirteen keywords, or `async\s+function`, followed by `\b` |
| `ReturnHeuristic.ArrowParenAt` | src/extension.ts:228 | `/=\s*\(.*\)\s*=>/` with its `=>` at a given position: `=`, `\s` run, `(`, a run without line terminators, `)`, `\s` run |
| `ReturnHeuristic.ArrowAnyAt` | src/extension.ts:228 | `/=\s*[^=]+=>/` with its `=>` at a given position: an `=` and then at least one character other than `=` before it (`\s*` is absorbed by `[^=]+`) |
| `ReturnHeuristic.ArrowParen` | src/extension.ts:228 | `/=\s*\(.*\)\s*=>/.test(lastLine)`: the pattern matches with its `=>` somewhere in the line |
| `ReturnHeuristic.ArrowAny` | src/extension.ts:228 | `/=\s*[^=]+=>/.test(lastLine)`: the pattern matches with its `=>` somewhere in the line |
| `ReturnHeuristic.LooksLikeStatement` | src/extension.ts:217-223 | the first guard: `return`, a declaration or control keyword, a trailing `;` or `}`, or a leading `{` |
| `ReturnHeuristic.LooksLikeArrowFunction` | src/extension.ts:228 | the second guard: either arrow pattern matches |
| `ReturnHeuristic.IsStatementLike` | src/extension.ts:217-230 | the script is left alone when either guard fires |
| `ReturnHeuristic.MatchesAt` | src/extension.ts:234 | `/\S.*$/` can match at a position: a non-`\s` character there and no line terminator from there to the end |
| `ReturnHeuristic.MatchFrom` | src/extension.ts:232-235 | the position where `/\S.*$/` matches is the leftmost at which a non-space character has no line terminator after it; -1 when there is none |
| `ReturnHeuristic.MatchStart` | src/extension.ts:233-235 | where `replace` finds its match: the leftmost position from the start of the line, or -1 |
| `ReturnHeuristic.WrapReturn` | src/extension.ts:233-235 | the `replace`: without a match the line is kept; otherwise the text before the leftmost match, then `return (`, the match, `);` |
| `ReturnHeuristic.AddReturn` | src/extension.ts:191-239 | what the rewriter returns; it differs from the script only when there is a meaningful line and no guard fires on its trimmed text |
| `ReturnHeuristic.AddReturnToLastLine` | src/extension.ts:191-239 | the backward loop, the guards and the in-place assignment together return exactly `AddReturn(code)` |
| `ReturnHeuristic.GuardedUnchanged` | src/extension.ts:217-230 | when any guard fires on the trimmed last meaningful line, the script is returned unchanged. The guards are `return`, a declaration or control keyword, a trailing `;` or `}`, a leading `{`, or either arrow pattern |
| `ReturnHeuristic.SkippedOnlyUnchanged` | src/extension.ts:195-208 | a script whose lines are all blank or comment openers is returned unchanged |
| `ReturnHeuristic.UnchangedIff` | src/extension.ts:191-239 | the script comes back unchanged exactly when there is no meaningful line, a guard fires, or `/\S.*$/` finds no match |
| `ReturnHeuristic.OutputLines` | src/extension.ts:191-239 | the result has as many lines as the script, and every line but the last meaningful one is identical. When the rewrite fires, that line becomes the text before the match, `return (`, the rest of the line, and `);` |
| `ReturnHeuristic.WrapNoNewline` | src/extension.ts:232-235 | wrapping a line adds no newline, so the line count is kept |
| `ReturnHeuristic.WrapPlainLine` | src/extension.ts:232-235 | on a non-blank line without terminators, the match starts at the first non-space character: the indentation stays and the rest, trailing spaces included, goes inside `return (...);` |
| `ReturnHeuristic.WrapTerminatedLine` | src/extension.ts:232-235 | a line ending in a line terminator has no match and is not changed |
| `ReturnHeuristic.CrlfUnchanged` | src/extension.ts:191-239 | a script whose last meaningful line ends with `\r` is returned unchanged |
| `ReturnHeuristic.WrapAfterInnerTerminator` | src/extension.ts:232-235 | `a\rb` is rewritten to `a\rreturn (b);`: the match starts after the inner terminator |
| `ReturnHeuristic.WrappedLineEndsStatement` | src/extension.ts:197-236 | a wrapped meaningful line is still meaningful, and its trimmed text ends with `;` |
| `ReturnHeuristic.LastMeaningfulUnique` | src/extension.ts:195-204 | the last meaningful line is the one meaningful line with only skipped lines after it |
| `ReturnHeuristic.LastMeaningfulUpdate` | src/extension.ts:195-204 | putting a meaningful line in place of the last meaningful line keeps that index the last meaningful one |
| `ReturnHeuristic.Idempotent` | src/extension.ts:191-239 | rewriting a script twice gives the same result as rewriting it once |
| `ReturnHeuristic.ArrowParenImpliesArrowAny` | src/extension.ts:228 | wherever `/=\s*\(.*\)\s*=>/` matches, `/=\s*[^=]+=>/` matches as well |
| `ReturnHeuristic.SingleExpressionReturns` | src/extension.ts:191-239 | a one-line script that is a bare expression, such as a new notebook's `input.toUpperCase()`, becomes `return (<script>);` |
| `ReturnHeuristic.OneLineGuarded` | src/extension.ts:191-225 | a one-line script that trims to itself and on which a guard fires is returned unchanged |
| `ReturnHeuristic.DefaultScriptReturns` | src/extension.ts:191-239 | a new notebook's script `input.toUpperCase()` is run as `return (input.toUpperCase());` |
| `ReturnHeuristic.DeclarationUnchanged` | src/extension.ts:219-224 | `const x = 1;` is returned unchanged |
| `ReturnHeuristic.BlockUnchanged` | src/extension.ts:221-224 | the three-line block `if (x) {`, `  y();`, `}` is returned unchanged: its last meaningful line ends with `}` |
| `Mime.MimeType` | src/extension.ts:30-32 | a listed language gives its table entry, and any other language gives `text/plain`; the answer is never empty |
| `Mime.KnownLanguages` | src/extension.ts:15-28 | the twelve entries of the table `LanguageToMime`, `plaintext` and `text` both giving `text/plain` |
| `Mime.MimeTypeRange` | src/extension.ts:15-32 | every answer is one of the table's MIME types, and only a listed language gives anything but `text/plain` |
| `CellPairing.FirstFrom` | src/extension.ts:44-60 | the index found is the first at or after the start whose cell is a (JavaScript) code cell; `None` when no cell qualifies |
| `CellPairing.Qualifies` | src/extension.ts:46-55 | the loop's tests on a cell: a code cell for the input, a code cell in `javascript` for the script |
| `CellPairing.InputIndex` | src/extension.ts:44-51 | the input cell is the first code cell, of any language; no code cell comes before it, and with `None` there is no code cell at all |
| `CellPairing.ScriptIndex` | src/extension.ts:44-60 | the script cell is a JavaScript code cell after the input cell, with no JavaScript code cell between them; with `None` none follows the input |
| `CellPairing.SelectCells` | src/extension.ts:38-60 | the loop finds the script cell `ScriptIndex`, and gives the first code cell's text and language, or `""` and `plaintext` when there is no code cell |
| `CellPairing.ExecuteHandler` | src/extension.ts:36-76 | the handler stops early exactly when there is no script cell. Otherwise it runs the script cell's text on the input cell's text, with the output MIME type of the input cell's language. The cells it is asked to run play no part |
| `CellPairing.ScriptAfterInput` | src/extension.ts:44-60 | the input is the lowest-index code cell, even a JavaScript one; the script is a JavaScript code cell at a greater index, with none between them |
| `CellPairing.ScriptFoundIff` | src/extension.ts:44-63 | there is a script cell exactly when some code cell comes before some JavaScript code cell |
| `CellPairing.JavascriptInput` | src/extension.ts:44-60 | with two JavaScript code cells, the first is the input and the second the script |
| `CellPairing.LoneScriptIsInput` | src/extension.ts:44-63 | a notebook whose only code cell is in JavaScript has no script cell, so nothing runs |
| `CellPairing.DefaultNotebookPairs` | src/extension.ts:106-127 | the notebook the open command creates pairs its second cell as input with its fourth as script |
| `Serializer.KindCode` | src/extension.ts:175 | a cell kind is written as 1 (markup) or 2 (code) |
| `Serializer.KindFromCode` | src/extension.ts:154 | exactly the numbers 1 and 2 read as a cell kind |
| `Serializer.KindCodeInverse` | src/extension.ts:154-175 | kind numbers and kinds correspond one to one |
| `Serializer.Field` | src/extension.ts:151-156 | a field read succeeds exactly on an object that has the field, and gives that field's value |
| `Serializer.CellFromJson` | src/extension.ts:152-157 | an entry that reads as a cell holds that cell's kind number, value and language in its `kind`, `value` and `languageId` fields |
| `Serializer.CellToJson` | src/extension.ts:174-178 | the entry written for a cell reads back as that cell |
| `Serializer.CellFromJsonIff` | src/extension.ts:153-157 | an entry reads as a cell exactly when it holds that cell's kind number, value and language; other fields are ignored |
| `Serializer.DecodeCells` | src/extension.ts:151-158 | the mapping succeeds exactly when every entry reads as a cell, and then gives one cell per entry, in order |
| `Serializer.CellsOf` | src/extension.ts:151-158 | `json.cells.map(...)` succeeds only on an object whose `cells` field is an array, and then gives the decoding of that array |
| `Serializer.Deserialize` | src/extension.ts:140-170 | no bytes give no cells; a non-empty file whose text parses to a value with a `cells` array of valid entries reads as exactly those cells; any failure in between gives the placeholder `Placeholder`, a markup cell `# Invalid or empty notebook` in `markdown`, and nothing else is ever returned |
| `Serializer.NotebookToJson` | src/extension.ts:173-179 | the value written has a `cells` array with one entry per cell, in order, each reading back as its cell |
| `Serializer.Serialize` | src/extension.ts:172-181 | the file written is the encoding of the JSON text of `{cells: [...]}`; `RoundTrip` reads it back |
| `Serializer.NotebookToJsonCells` | src/extension.ts:150-179 | reading the `cells` array of the written value gives back the cells |
| `Serializer.Faithful` | src/extension.ts:147-180 | what the round trip assumes of `TextEncoder`, `TextDecoder`, `JSON.parse` and `JSON.stringify`, and nothing the default `TextDecoder` breaks: a leading U+FEFF is excluded from the decode-encode inversion |
| `Serializer.RoundTrip` | src/extension.ts:140-181 | saving a notebook and reading it back gives the same cells, when the host meets `Faithful`: decoding inverts encoding on texts not starting with U+FEFF, an object is written starting with `{`, parsing gives back the value written for a list of cells, and non-empty texts encode to some bytes |
| `Serializer.DeserializeEmptyIff` | src/extension.ts:144-159 | reading gives no cells exactly for an empty file or a file whose `cells` array is empty |
| `Serializer.OneBadEntry` | src/extension.ts:151-168 | one entry that is not a valid cell turns the whole file into the placeholder |
| `Serializer.UnreadableFile` | src/extension.ts:148-168 | text that does not parse, or parses to something without a `cells` array, reads as the placeholder |

## Left out

- `runUserScript` (src/extension.ts:241-271) is not part of this model: compiling and running the script in Node's `vm` sandbox, the 2000 ms timeout, awaiting its value and stringifying it are host-runtime behaviour.
- The execution lifecycle (src/extension.ts:65-91): creating, starting and ending the cell execution, replacing outputs and formatting error messages are editor side effects. `ExecuteHandler` stops where the execution would start.
- The open command and `activate` (src/extension.ts:4-13, 94-137, 185-189) are editor wiring. Only the layout of the notebook the command creates is used, in `DefaultNotebookPairs`.
- `TextEncoder`, `TextDecoder`, `JSON.parse` and `JSON.stringify` are parameters: UTF-8 and the JSON grammar are not modelled. `RoundTrip` assumes only what it needs of them (`Serializer.Faithful`): decoding gives back an encoded text that does not start with a byte order mark (the default `TextDecoder` strips one), a stringified object starts with `{`, `JSON.parse` gives back the value written for a list of cells, and a non-empty text encodes to at least one byte.
- JSON numbers are integers only.
- The editor's cell constructor is not part of this model, and its validation is not visible in the source. The model assumes that it throws when the kind is not 1 or 2, or the value or language is not a string. This is an assumption of the model, not observed behaviour of the host: if the host accepts other kind numbers, `Serializer.OneBadEntry` for such entries describes the model and not the program.
- Strings are sequences of Unicode scalar values, not UTF-16 code units. No character outside the Basic Multilingual Plane is a space, `/` or `=`, so the heuristic treats them alike either way.
- Inherited object keys such as `toString` in the MIME table are not modelled; the table is a finite map with a default.
- Console output from the sandbox is not modelled.
