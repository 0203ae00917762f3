# Stonecutter comment processing and Stitcher lexing, in Dafny

Stonecutter keeps one source tree for several versions of a program. Version
guards are written as directive comments that open with `/*?` and end with
`*/`. The directive classifier (`ExpressionType.of`, which is not part of this
model) turns the text of each one into an expression and one of four kinds:
a single-line IF, a block IF that opens a chain, an extension (ELSE, or ELIF
with a condition) that continues it, and a closer. The processor then checks
the expression's leading word (`if`, `else`, `elif`). A single-line directive
guards only the line that follows it. A block directive guards the text up
to the next `/*?`. The comment processor reads a file once. It echoes every character, and it comments out
(`/*body*/`) or uncomments each guarded body to match the verdict on its
guard. The Stitcher lexer is the second-stage scanner of the newer parser. It
splits the text of a `?` (condition) or `$` (swap) comment into tokens, using
an ordered list of recognizers.

The project has four modules:

- `Text` (`text.dfy`) models the Kotlin string operations the core relies on.
  These include `isWhitespace`, `isBlank`, `trim`, `trimStart`, `startsWith`
  and `equals` with `ignoreCase`, `removePrefix`, `removeSuffix`,
  `lastIndexOf` and counting characters.
- `Chain` (`chain.dfy`) models the deque of `Entry(type, result)` values as a
  pure function. `Step` gives the effect of one directive: whether the body
  that follows is enabled, and the deque afterwards, or `None` when the
  processor rejects the directive. `Replay` runs a sequence of directives.
  The lemmas prove what a whole `IF / ELIF* / ELSE?` chain does.
- `CommentProcessing` (`comment_processor.dfy`) is the processor itself: a
  class whose fields are the input with a read cursor, the output builder and
  the deque. Its methods update those fields as the Kotlin methods do. Each
  directive handler's `ensures` ties the new state to the old one through a
  ghost predicate (`SingleOutcome`, `OpenerOutcome`, `BlockOutcome`, ...).
  Those predicates use `Chain.Step`. The whole run is also described without
  state. `Directives` lists the directives the processor accepts from a point
  of the input. `Render` folds over the same directives and gives the output:
  each body is toggled by the verdict `Chain.Step` gives its directive.
  `Run` and `Process` are proved to produce `Render`'s output and to fail
  exactly when a `*/` follows the point where `Render` stops. They also
  return, as ghost values, the accepted directives and their enabled flags.
  These replay through `Chain.Replay`, which records the same verdicts that
  `Render` toggles by. So the chain lemmas (`RunChainIsExclusive`) apply to an
  actual run.
- `Lexer` (`lexer.dfy`) covers `tokenize`/`process`, which are pure functions,
  and `scanContents`, which is a loop over the comment text. The loop is
  proved equal to the recursive function `Scan`. Lemmas about `Scan` prove
  the following:
  - every token is a sub-range of the comment;
  - tokens come in order and do not overlap;
  - each token is either the first recognizer's match or a trimmed run that
    no recognizer claimed;
  - no non-whitespace character is dropped.

A `Token` carries the position of its text in the original input. This lets
"sub-range of the comment" be stated outright.

Outside parameters:

- The condition evaluator (`ConditionProcessor.test`) is the function
  parameter `checker`.
- The directive classifier (`ExpressionType.of`) is the function parameter
  `classify`.
- The recognizer lists (`DefaultRecognizers.conditionState` and `swapState`)
  are the `seq<Checker>` parameters of `Lexer.Process`. Every recognizer is
  assumed `Sound`: a match consumes at least one character and stays inside
  the text.

## Model

| member | source | states |
|---|---|---|
| `Text.Trim` | src/main/kotlin/dev/kikugie/stonecutter/processor/CommentProcessor.kt:95 | The trimmed text is empty exactly when the text is blank. Otherwise it starts and ends on non-whitespace and is the text between the two whitespace margins. |
| `Text.TrimStart` | src/main/kotlin/dev/kikugie/stonecutter/processor/CommentProcessor.kt:86 | The result does not start with whitespace. The text is a blank prefix followed by the result. |
| `Text.RemovePrefix` | src/main/kotlin/dev/kikugie/stonecutter/processor/CommentProcessor.kt:147 | When the text starts with the prefix, the text is the prefix followed by the result. Otherwise the text is returned unchanged. |
| `Text.RemoveSuffix` | src/main/kotlin/dev/kikugie/stonecutter/processor/CommentProcessor.kt:147 | When the text ends with the suffix, the text is the result followed by the suffix. Otherwise the text is returned unchanged. |
| `Text.LastIndexOf` | src/main/kotlin/dev/kikugie/stonecutter/processor/CommentProcessor.kt:152 | A returned position is an occurrence of the piece, and no later position is one. `None` (Kotlin's -1) means there is no occurrence at all. |
| `Text.LeadingSpaces` | stitcher/src/main/kotlin/dev/kikugie/stitcher/lexer/Lexer.kt:43 | Every character before the count is whitespace, and the character at the count is not. |
| `Text.TrailingSpaces` | stitcher/src/main/kotlin/dev/kikugie/stitcher/lexer/Lexer.kt:43 | Every character in the last `n` is whitespace, and the character just before them is not. |
| `Text.SpacesLeaveMiddle` | stitcher/src/main/kotlin/dev/kikugie/stitcher/lexer/Lexer.kt:42-43 | In a buffer that is not blank, the two whitespace margins leave a non-empty range, so the flushed subtoken is never empty. |
| `Text.CountAppend` | src/main/kotlin/dev/kikugie/stonecutter/processor/CommentProcessor.kt:14 | Counting a character over a concatenation adds the counts of the parts. The line number relies on this. |
| `Chain.Step` | src/main/kotlin/dev/kikugie/stonecutter/processor/CommentProcessor.kt:34-86 | The deque accepts an IF exactly outside an open chain, and an ELIF, ELSE or closer exactly inside one. It only grows at its end, by at most one entry. An ELIF or ELSE body can be enabled only when the last recorded result is false. An IF body is enabled exactly when its guard holds. |
| `Chain.ReplayAppend` | src/main/kotlin/dev/kikugie/stonecutter/processor/CommentProcessor.kt:17-21 | Processing two runs of directives one after the other is the same as processing their concatenation. |
| `Chain.ReplaySnoc` | src/main/kotlin/dev/kikugie/stonecutter/processor/CommentProcessor.kt:17-21 | One more accepted directive extends a replay by its own effect: its enabled flag is appended and the deque becomes the one it leaves. |
| `Chain.ElifRun` | src/main/kotlin/dev/kikugie/stonecutter/processor/CommentProcessor.kt:78-83 | Inside an open chain, a run of ELIFs enables exactly the first ELIF whose guard holds, and only when no earlier branch was taken. The chain stays open, and it records `true` once any branch was taken. |
| `Chain.IfElifRun` | src/main/kotlin/dev/kikugie/stonecutter/processor/CommentProcessor.kt:43-83 | In `IF / ELIF*` started outside a chain, branch `i` is enabled exactly when its guard holds and no earlier guard did. |
| `Chain.ChainTakesFirstTrueBranch` | src/main/kotlin/dev/kikugie/stonecutter/processor/CommentProcessor.kt:43-83 | For `IF / ELIF* / ELSE?`, the deque accepts the whole chain. Each branch is enabled exactly when its own guard holds and no earlier guard did. The ELSE is enabled exactly when no guard held. |
| `Chain.ChainIsExclusive` | src/main/kotlin/dev/kikugie/stonecutter/processor/CommentProcessor.kt:43-83 | In such a chain no two bodies are enabled, and with an ELSE exactly one is. |
| `Chain.RunChainIsExclusive` | src/main/kotlin/dev/kikugie/stonecutter/processor/CommentProcessor.kt:17-83 | Wherever such a chain appears in an accepted run of directives, at a point where no chain is open, no two of its bodies are enabled, and with an ELSE exactly one is, whatever comes before or after it. |
| `Chain.ClosedChainReopens` | src/main/kotlin/dev/kikugie/stonecutter/processor/CommentProcessor.kt:62-66 | After a chain and its closer the deque is outside any chain, so the deque accepts the next IF. Whether the processor reaches that IF is a separate matter (`CloserThenDirectiveRejected`). |
| `Chain.SecondElseReenables` | src/main/kotlin/dev/kikugie/stonecutter/processor/CommentProcessor.kt:68-76 | The deque accepts `IF true / ELSE / ELSE`, and its bodies are enabled as `[true, false, true]`. |
| `CommentProcessing.MatchEnd` | src/main/kotlin/dev/kikugie/stonecutter/processor/CommentProcessor.kt:127-138 | `read(m)` stops just after the first point where the text read ends with `m`. `None` means no such point exists before the input ends. |
| `CommentProcessing.MatchEndNoneIffAbsent` | src/main/kotlin/dev/kikugie/stonecutter/processor/CommentProcessor.kt:127-138 | `read(m)` returns null exactly when `m` does not occur in the rest of the input. |
| `CommentProcessing.LineEnd` | src/main/kotlin/dev/kikugie/stonecutter/processor/CommentProcessor.kt:101-125 | Where `readRegex(CODE_LINE, true)` stops. It never goes past the input, and it consumes at least one character while input remains. |
| `CommentProcessing.LineEndShape` | src/main/kotlin/dev/kikugie/stonecutter/processor/CommentProcessor.kt:101-125 | What `readRegex(CODE_LINE, true)` consumes is a match of `\S\s*(\r\n\|\r\|\n)` with its whole run of breaks. First come `\s` characters, then the first non-`\s` character, then text up to the first line break after it. Then comes the run of breaks starting there, up to a character that is not a break or the end of the input. When no line break follows a non-`\s` character, reading goes to the end of the input. |
| `CommentProcessing.RemoveBreaks` | src/main/kotlin/dev/kikugie/stonecutter/processor/CommentProcessor.kt:98 | `replace(NEW_LINE, "")` leaves no `\r` or `\n`, and leaves text without them unchanged. |
| `CommentProcessing.RemoveBreaksAppend` | src/main/kotlin/dev/kikugie/stonecutter/processor/CommentProcessor.kt:98 | Breaks are removed character by character. A break goes, any other character stays, and the parts of a concatenation are cleaned independently. |
| `CommentProcessing.LineTextHasNoBreak` | src/main/kotlin/dev/kikugie/stonecutter/processor/CommentProcessor.kt:98 | The code handed on by `readNextLine` never contains a line break. |
| `CommentProcessing.ReplaceLast` | src/main/kotlin/dev/kikugie/stonecutter/processor/CommentProcessor.kt:152-154 | When the body occurs in the output, only its last occurrence is replaced and everything around it is kept. When it does not occur, the output is unchanged. |
| `CommentProcessing.ToggleKeepsLineCount` | src/main/kotlin/dev/kikugie/stonecutter/processor/CommentProcessor.kt:144-155 | `processCode` never changes the number of line breaks in the output. `Toggle` is the output after `processCode`, and `IsCommented` is `isCommented`: the trimmed body starts with `/*` and ends with `*/`. |
| `CommentProcessing.WrapIsCommented` | src/main/kotlin/dev/kikugie/stonecutter/processor/CommentProcessor.kt:140-149 | A wrapped body `/*code*/` always counts as commented. |
| `CommentProcessing.DisableIsIdempotent` | src/main/kotlin/dev/kikugie/stonecutter/processor/CommentProcessor.kt:144-150 | Disabling a body that is already wrapped leaves the output unchanged. |
| `CommentProcessing.UnwrapWrap` | src/main/kotlin/dev/kikugie/stonecutter/processor/CommentProcessor.kt:147-149 | Stripping the delimiters from a wrapped body gives back the body. |
| `CommentProcessing.ToggleEditsLastOccurrence` | src/main/kotlin/dev/kikugie/stonecutter/processor/CommentProcessor.kt:144-155 | A body already in the requested state leaves the output untouched. Otherwise only the last occurrence of the body is edited, wrapped or stripped, and the rest of the output is kept. |
| `CommentProcessing.CommentProcessor.Line` | src/main/kotlin/dev/kikugie/stonecutter/processor/CommentProcessor.kt:13-14 | The line number is at least 1. |
| `CommentProcessing.CommentProcessor.constructor` | src/main/kotlin/dev/kikugie/stonecutter/processor/CommentProcessor.kt:7-12 | A new processor starts at the beginning of its input with an empty deque and the caller's output. |
| `CommentProcessing.CommentProcessor.Read` | src/main/kotlin/dev/kikugie/stonecutter/processor/CommentProcessor.kt:127-138 | It echoes the input up to the end of the first match of `m`, or to the end of the input. It returns the text read, with or without the match, or null when there was no match. The line invariant is kept. |
| `CommentProcessing.CommentProcessor.ReadExpression` | src/main/kotlin/dev/kikugie/stonecutter/processor/CommentProcessor.kt:88-96 | It reads up to `*/`. It returns null at the end of the input. It fails with "wasn't correctly closed" when the text holds `/*?` and with "can't be empty" when the text is blank, at the current line. Otherwise it returns the trimmed text. |
| `CommentProcessing.CommentProcessor.ReadNextLine` | src/main/kotlin/dev/kikugie/stonecutter/processor/CommentProcessor.kt:98-125 | It echoes exactly up to `LineEnd` and returns that text without line breaks, trimmed. At the end of the input it fails with "No end of line found". |
| `CommentProcessing.CommentProcessor.ProcessCode` | src/main/kotlin/dev/kikugie/stonecutter/processor/CommentProcessor.kt:144-155 | The new output is `Toggle(old output, code, enabled)`: uncommented when enabled and commented, commented when disabled and not commented, otherwise untouched. The line count is kept. |
| `CommentProcessing.CommentProcessor.TestExpression` | src/main/kotlin/dev/kikugie/stonecutter/processor/CommentProcessor.kt:85-86 | It returns the evaluator's verdict on `expression.drop(n).trimStart()` and appends `Entry(type, verdict)` to the deque. |
| `CommentProcessing.CommentProcessor.Single` | src/main/kotlin/dev/kikugie/stonecutter/processor/CommentProcessor.kt:34-41 | It rejects a non-IF directive, a nested one, and a missing next line, each with nothing changed. Otherwise it records the guard, toggles the next line and reads on to the next `/*?`. |
| `CommentProcessing.CommentProcessor.Opener` | src/main/kotlin/dev/kikugie/stonecutter/processor/CommentProcessor.kt:43-50 | It rejects a non-IF directive and a nested one with nothing changed. Otherwise the body up to the next `/*?` is toggled as `Step` says, or it fails with "not closed". |
| `CommentProcessing.CommentProcessor.Extension` | src/main/kotlin/dev/kikugie/stonecutter/processor/CommentProcessor.kt:52-60 | Outside a chain it fails with "must follow a condition". It hands ELSE and ELIF on and rejects any other text. |
| `CommentProcessing.CommentProcessor.Closer` | src/main/kotlin/dev/kikugie/stonecutter/processor/CommentProcessor.kt:62-66 | Outside a chain it fails "without context". Otherwise it appends `Entry(CLOSER, false)` and reads nothing. |
| `CommentProcessing.CommentProcessor.ElseExtension` | src/main/kotlin/dev/kikugie/stonecutter/processor/CommentProcessor.kt:68-76 | It rejects an ELSE with a condition. Otherwise it enables the body exactly when the last result is false, and records that. |
| `CommentProcessing.CommentProcessor.ElifGuard` | src/main/kotlin/dev/kikugie/stonecutter/processor/CommentProcessor.kt:82 | The guard is evaluated and recorded only when no earlier branch was taken. The outcome is `Step` of an ELIF. |
| `CommentProcessing.CommentProcessor.ElifExtension` | src/main/kotlin/dev/kikugie/stonecutter/processor/CommentProcessor.kt:78-83 | It rejects an ELIF without a condition. Otherwise the body is toggled as `Step` of the ELIF says, or it fails with "not closed". |
| `CommentProcessing.CommentProcessor.DispatchedAccepts` | src/main/kotlin/dev/kikugie/stonecutter/processor/CommentProcessor.kt:25-83 | A dispatched directive is accepted exactly when `Accepts` holds. `Accepts` collects each handler's word checks, the deque's nesting rules, the line a single-line directive needs and the `/*?` a block needs. Then the deque moves as `Step` of `DirectiveOf` says: an IF for single-line and block directives, ELSE or ELIF by the leading word, or the closer. The cursor stops at `AfterPos`: past the next `/*?`, except right after the `*/` of a closer. A rejected directive leaves the deque alone. |
| `CommentProcessing.CommentProcessor.Dispatch` | src/main/kotlin/dev/kikugie/stonecutter/processor/CommentProcessor.kt:25-30 | Each kind goes to its handler, with that handler's outcome. An error carries the current line. |
| `CommentProcessing.CommentProcessor.Next` | src/main/kotlin/dev/kikugie/stonecutter/processor/CommentProcessor.kt:23-32 | It returns false only at the end of the input, and true only after consuming input. Its errors carry the current line. The new state is the read and check of the directive, then its dispatch. The ghost `d` is the deque directive of the text it read. |
| `CommentProcessing.CommentProcessor.NextReadsFirst` | src/main/kotlin/dev/kikugie/stonecutter/processor/CommentProcessor.kt:23-32 | A `next()` that returns true processed the directive `FirstDirective` finds, and left the cursor and the deque where that says. Otherwise there was no such directive and the deque is unchanged. |
| `CommentProcessing.FirstDirective` | src/main/kotlin/dev/kikugie/stonecutter/processor/CommentProcessor.kt:23-83 | A directive found from a point is one the deque steps, and reading resumes after it, within the input. |
| `CommentProcessing.DirectivesReplay` | src/main/kotlin/dev/kikugie/stonecutter/processor/CommentProcessor.kt:17-83 | The deque never rejects a directive the processor accepts. `Directives` lists the directives found one after the other with `FirstDirective`, up to the first rejected one. Those found from any point replay from the deque there. |
| `CommentProcessing.BodyOutputKeepsLineCount` | src/main/kotlin/dev/kikugie/stonecutter/processor/CommentProcessor.kt:34-83 | Handling the body of an accepted directive adds to the output exactly the line breaks of the input it consumes. `BodyOutput` is that handling: the line toggled and the code up to the next `/*?` echoed for a single-line IF, the block up to the next `/*?` toggled, or nothing for a closer. |
| `CommentProcessing.OutputAfterKeepsLineCount` | src/main/kotlin/dev/kikugie/stonecutter/processor/CommentProcessor.kt:23-83 | The output after one accepted directive (`OutputAfter`: its text echoed, then its body handled) gains exactly the line breaks of the input from the directive's start to where reading resumes. |
| `CommentProcessing.RenderKeepsLineCount` | src/main/kotlin/dev/kikugie/stonecutter/processor/CommentProcessor.kt:13-21 | `Render` folds `OutputAfter` over the directives `FirstDirective` finds, each body toggled by the verdict `Step` gives it. Its output gains exactly the line breaks of the input it covers. |
| `CommentProcessing.CloserThenDirectiveRejected` | src/main/kotlin/dev/kikugie/stonecutter/processor/CommentProcessor.kt:62-66 | After a closer, reading resumes right after its `*/`. If a `/*?` comes before the next `*/`, the text read as the next directive holds it and is rejected, so no directive is found there. |
| `CommentProcessing.CommentProcessor.Run` | src/main/kotlin/dev/kikugie/stonecutter/processor/CommentProcessor.kt:17-21 | The directives it accepts are exactly `Directives` from just after the first `/*?`, in order. Replaying them from the starting deque gives the returned enabled flags and the final deque. The output is `Render`'s output from just after the first `/*?`, followed by the input echoed from where `Render` stops. It fails exactly when a `*/` follows that point; without an error the whole input is consumed. An input with no `/*?` is echoed unchanged with the deque untouched. |
| `CommentProcessing.Process` | src/main/kotlin/dev/kikugie/stonecutter/processor/CommentProcessor.kt:174-179 | It succeeds exactly when no `*/` follows the point where `Render` stops, from just after the first `/*?` with an empty deque. Its output is then `Render`'s output, starting from the text up to that `/*?`, followed by the rest of the input from where `Render` stops. The output has as many line breaks as the input, and an error's line lies within the input. An input without directives comes back unchanged. The directives processed are `Directives` from the same point. They replay from the empty deque with the returned flags, so `RunChainIsExclusive` applies to every chain among them. |
| `Lexer.Subtoken` | stitcher/src/main/kotlin/dev/kikugie/stitcher/lexer/Lexer.kt:55 | `subtoken(lo..<hi)` is the piece of the token over that range, at the matching position in the input. |
| `Lexer.FirstMatch` | stitcher/src/main/kotlin/dev/kikugie/stitcher/lexer/Lexer.kt:50-51 | It returns the first recognizer in list order that matches. Every recognizer before it fails, and `None` means all fail. |
| `Lexer.FindMatch` | stitcher/src/main/kotlin/dev/kikugie/stitcher/lexer/Lexer.kt:50-59 | The `for` loop over the recognizers finds exactly `FirstMatch`. |
| `Lexer.ExpressionToken` | stitcher/src/main/kotlin/dev/kikugie/stitcher/lexer/Lexer.kt:41-46 | A blank buffer emits nothing. Otherwise one EXPRESSION piece inside the buffered range is emitted. |
| `Lexer.FlushTrimmed` | stitcher/src/main/kotlin/dev/kikugie/stitcher/lexer/Lexer.kt:41-46 | The flushed token starts and ends on non-whitespace, and every buffered character outside it is whitespace. |
| `Lexer.ScanContents` | stitcher/src/main/kotlin/dev/kikugie/stitcher/lexer/Lexer.kt:36-64 | The loop's tokens are exactly `Scan` from position 1 with an empty buffer, and an empty comment gives none. |
| `Lexer.ScanWithin` | stitcher/src/main/kotlin/dev/kikugie/stitcher/lexer/Lexer.kt:36-64 | Every scanned token is a non-empty piece of the comment at or after the buffer start, and the tokens are in order without overlap. |
| `Lexer.ScanKinds` | stitcher/src/main/kotlin/dev/kikugie/stitcher/lexer/Lexer.kt:48-61 | Every token is either the first recognizer's match at its start, of that recognizer's kind and length, or an EXPRESSION over characters no recognizer claimed, with non-whitespace ends. |
| `Lexer.ScanCovers` | stitcher/src/main/kotlin/dev/kikugie/stitcher/lexer/Lexer.kt:36-64 | Every non-whitespace character from the buffer start on lies inside some token. |
| `Lexer.Process` | stitcher/src/main/kotlin/dev/kikugie/stitcher/lexer/Lexer.kt:15-34 | A token passes through unchanged exactly when it is not a `?`/`$` comment. A directive yields its one-character CONDITION or SWAP marker first, then pieces of itself, in order. |
| `Lexer.MarkedScan` | stitcher/src/main/kotlin/dev/kikugie/stitcher/lexer/Lexer.kt:21-30 | The marker followed by the scan of the rest consists of ordered pieces of the comment, and is never the comment itself. |
| `Lexer.Tokenize` | stitcher/src/main/kotlin/dev/kikugie/stitcher/lexer/Lexer.kt:11-13 | Input without directives comes through unchanged. |
| `Lexer.TokenizeWithinInput` | stitcher/src/main/kotlin/dev/kikugie/stitcher/lexer/Lexer.kt:11-13 | Every emitted token is a piece of some input token. |
| `Lexer.TokenizeKeepsOrder` | stitcher/src/main/kotlin/dev/kikugie/stitcher/lexer/Lexer.kt:11-13 | Ordered input gives ordered output. |

## Left out

- `ConditionProcessor.test`, `ExpressionType.of`, the recognizers in `DefaultRecognizers`, `TokenRecognizer` and `Token.subtoken` are not part of this model. The first three are function parameters. A recognizer is assumed `Sound`, since a recognizer that matches nothing or runs backwards would make the Kotlin loop spin or throw. `subtoken` is modelled as taking the slice.
- `leadingSpaces`/`trailingSpaces` from Stitcher's util package are not part of this model. They are taken to count `Char.isWhitespace()` characters at either end.
- The `Reader` is a string with a cursor. `mark(1)`/`reset()` in `readRegex` become "do not consume the character that ended the match". The `StringBuilder` buffers in `read`, `readRegex` and `scanContents` are kept as a start position, because they always hold the text from that position up to the cursor.
- `readRegex` is modelled only for the one pattern the processor passes it, `CODE_LINE` with `includeMatch = true`, as the character-level rule in `LineEnd`. General regular expressions are not modelled.
- `splitOne` (CommentProcessor.kt:157-162) is never called and is not modelled.
- Exceptions are results: the processor's methods return the `SyntaxError` (line and message) instead of throwing it. The message text itself is a `Message` constructor.
- Kotlin's `Char` and `Reader.read()` work in UTF-16 code units, while a Dafny `char` is a Unicode scalar value. Positions therefore differ for text with characters outside the Basic Multilingual Plane: token starts, `drop(n)` and the cursor. Lone surrogates cannot be represented at all.
- Case-insensitive comparison (`startsWith`/`equals` with `ignoreCase = true`) folds ASCII letters only. Unicode case folding is not modelled.
- `Sequence`/`SequenceScope` laziness in `tokenize` is not modelled: `Tokenize` builds the whole list.
- Gradle wiring (StonecutterController, StonecutterSettings) and Stitcher's evaluator extensions are not part of this model.
- CommentProcessing.CommentProcessor.Line: states only that the line number is at least 1. Its relation to the line breaks read is kept by `Valid`, which every method preserves.
- Behaviours the code has and the model keeps as written:
  - `closer()` does not read on to the next `/*?`, so the text after a closer is scanned for `*/` as if it were a directive. When that text runs into the next directive, its `/*?` falls inside the text read, and the run fails with "wasn't correctly closed" (`CloserThenDirectiveRejected`). The chain lemmas say what the deque accepts. `Directives` and `Run` say which directives the processor actually reaches.
  - An ELSE after an ELSE is accepted and re-enables its body (`SecondElseReenables`). Exclusivity holds only up to the first ELSE.
  - The "Conditional block is not closed" error reports the line after the rest of the input has been echoed.
  - A body with whitespace outside its `/*` or `*/` still counts as commented, because the test trims first. `removePrefix` and `removeSuffix` strip only delimiters at the very ends, though, so enabling such a body leaves those delimiters in place.
