# CommanderCLI command-line tokenizer, modelled in Dafny

`CommanderCLI` reads characters from a `TextReader` and turns each line into
positional arguments and `--name` flags. `ReadArg` is a character state machine
with two flags, `escapeEnabled` and `stringReading`:

- a backslash makes the next character literal;
- a double quote toggles quoting and marks the token as quote-used;
- inside quotes every other character is kept (a backslash still escapes and a quote still closes);
- outside quotes, tabs and carriage returns are dropped;
- an unescaped, unquoted space ends the token and the line goes on (a soft boundary);
- an unescaped, unquoted newline ends the token and the line (a hard boundary);
- every other character is kept.

Every character read, the terminator included, is echoed to each registered
writer and appended to `LastCommandAsRaw`.

`ReadLine` calls its local function `saveArg` until a token ends at a newline.
`saveArg` sorts each token by three rules, tried in this order:

1. With `ParseUnescapedNullsAsNull` on, an unquoted `null` (any case) becomes a null argument.
2. With `ReadFlags` on, an unquoted token longer than two characters that starts with `--` becomes a flag, stored without its dashes.
3. Any other token is a positional argument, kept verbatim (empty tokens included).

`ReadLine` returns false exactly when the first argument is a non-null `exit`, in any case.

The project has five modules:

- `Ascii` (ascii.dfy): the case folding used for the `null` and `exit` comparisons.
- `ArgReader` (arg_reader.dfy): one `ReadArg` call as a pure function of the remaining input.
  - `StateAt(s, k)` gives the two flags just before `s[k]` is read.
  - `TokenOf(s, k)` and `Used(s, k)` give the token text and the quote-used bit after `s[..k]`.
  - `FirstEnd(s)` is the index of the terminator.
  - `ReadArgOf(s)` is the token `ReadArg` returns.
  - `After(s)` is the input that follows the terminator.
- `LineReader` (line_reader.dfy): one `ReadLine` call as a pure function.
  - `LineTokens(s)` lists the tokens of the line; `LineLength(s)` is the number of characters consumed.
  - `Classify` applies `saveArg`'s rules to one token.
  - `ArgsOf` and `FlagsOf` build the two lists; `Continues` is the exit check.
  - `ReadLineOf` is the whole result.
- `Commander` (commander_cli.dfy): the class `CommanderCli`.
  - Fields: `readFlags`, `parseUnescapedNullsAsNull`, the reader's input and position, `lastCommandAsRaw`, and a ghost transcript `echoed` of what the writers receive.
  - Methods: `Read`, `ReadArg`, `SaveArg` and `ReadLine`, written as the loops of the original.
  - Each method is proved against the functions above.
- `Scenarios` (scenarios.dfy): concrete lines and what `ReadLine` returns for them.

End of input is not a terminator. `Reader.Read()` returns -1 and the cast
`(char) -1` gives U+FFFF. That value is neither a space nor a newline, so
`ReadArg` would loop forever at the end of the stream. Because of this,
`ReadArg` requires a terminator in the remaining input, and `ReadLine` requires
an unescaped, unquoted newline in it. `ArgReader.EofNeverEnds` and
`LineReader.EofNoHardEnd` prove that these preconditions are exactly the
terminating cases: padding the input with any number of U+FFFF characters never
creates a token end, nor a newline that ends the line.

## Model

| member | source | states |
|---|---|---|
| Ascii.LowerChar | Commander/CommanderCLI.cs:110 | An ASCII capital maps to its lower-case letter (code + 32); any other character is unchanged; the result is never a capital |
| Ascii.Lower | Commander/CommanderCLI.cs:135 | The folded string has the same length and is folded character by character |
| Ascii.SameLowerIff | Commander/CommanderCLI.cs:135 | For a lower-case word `w`, `Lower(s) == w` exactly when `s` has the length of `w` and each character folds to the matching one (the case-insensitive comparison with `exit`/`null`) |
| ArgReader.Next | Commander/CommanderCLI.cs:156-176 | The escape flag is set exactly by a backslash read outside an escape (and cleared by any other read); quote mode flips exactly on a quote read outside an escape |
| ArgReader.Appends | Commander/CommanderCLI.cs:156-198 | An escaped character is always appended; an unescaped backslash or quote never is; outside quotes an unescaped space or newline never is |
| ArgReader.Toggles | Commander/CommanderCLI.cs:167-172 | A toggling quote flips quote mode and is not appended |
| ArgReader.Ends | Commander/CommanderCLI.cs:189-195 | The method's only exit happens in the start state (no escape, no quotes), where the terminator changes no flag, is not appended and toggles nothing |
| ArgReader.EscapeFollowsBackslash | Commander/CommanderCLI.cs:156-165 | `escapeEnabled` is set only right after an unescaped backslash |
| ArgReader.UsedIff | Commander/CommanderCLI.cs:139-172 | `stringReadingUsed` starts false and is set exactly when some character read so far was a quote that toggled quote mode |
| ArgReader.ReadArgOf | Commander/CommanderCLI.cs:138-200 | The returned boolean is true exactly when the terminator is a space; the token is no longer than the characters before the terminator |
| ArgReader.FirstEndFrom | Commander/CommanderCLI.cs:189-195 | The first search from `from` lands on an index at or after `from` that ends the token |
| ArgReader.FirstEnd | Commander/CommanderCLI.cs:189-195 | ReadArg's only exit is at an index of the input holding an unescaped, unquoted space or newline |
| ArgReader.FirstEndFromIsFirst | Commander/CommanderCLI.cs:146-195 | No index between `from` and the result ends the token |
| ArgReader.FirstEndIsFirst | Commander/CommanderCLI.cs:146-195 | ReadArg stops at the first terminator: no earlier index ends the token |
| ArgReader.ReadArgBoundary | Commander/CommanderCLI.cs:138-200 | ReadArg stops at the first unescaped, unquoted space or newline; returns true iff it is a space and false iff it is a newline; the terminator adds nothing to the token or the quote bit; the token is no longer than the characters read before it |
| ArgReader.TokenOf | Commander/CommanderCLI.cs:156-198 | Each character read appends at most one character to the token, so the token after `k` characters has at most `k` |
| ArgReader.TokenCharSource | Commander/CommanderCLI.cs:156-198 | Every token character is an input character, read earlier, in a state where the rules append it |
| ArgReader.EscapeTakesNextLiterally | Commander/CommanderCLI.cs:156-165 | An unescaped backslash is dropped; the next character, whatever it is, is appended; neither ends the token; quote mode and the quote bit are unchanged |
| ArgReader.QuoteToggles | Commander/CommanderCLI.cs:167-172 | An unescaped quote flips quote mode, sets the quote bit, is not appended and does not end the token |
| ArgReader.QuotedRun | Commander/CommanderCLI.cs:167-176 | Inside quotes, a run without backslashes or quotes is appended verbatim (spaces, newlines, tabs, carriage returns included) and nothing in it ends the token |
| ArgReader.UnquotedRun | Commander/CommanderCLI.cs:178-198 | Outside quotes, a run without backslashes, quotes, spaces or newlines is appended with its tabs and carriage returns removed |
| ArgReader.UnquotedRunContinues | Commander/CommanderCLI.cs:178-198 | No character of such a run ends the token |
| ArgReader.PlainWord | Commander/CommanderCLI.cs:178-198 | A word without backslashes, quotes, spaces or newlines, followed by a space or newline, is one token: the word less its tabs and carriage returns, no quote used, true exactly when the terminator is a space |
| ArgReader.PlainWordKept | Commander/CommanderCLI.cs:178-198 | Such a word without tabs or carriage returns is returned verbatim |
| ArgReader.NoTabsKept | Commander/CommanderCLI.cs:178-187 | Dropping tabs and carriage returns leaves a text without them unchanged |
| ArgReader.QuotedTrace | Commander/CommanderCLI.cs:167-176 | Reading a quoted word without backslashes or quotes inside returns to the start state with the inner word as the token, the quote bit set, and no token end on the way |
| ArgReader.QuotedWord | Commander/CommanderCLI.cs:167-195 | A quoted word without backslashes or quotes inside, followed by a space or newline, is one token: the inner word, quote used, true exactly when the terminator is a space |
| ArgReader.QuotedToken | Commander/CommanderCLI.cs:167-195 | For any word without backslashes or quotes, `"word"` followed by a space or newline and any rest is read as the token `word` with the quote bit set, ending softly exactly at a space, and ReadArg leaves the rest unread |
| ArgReader.TracePrefix | Commander/CommanderCLI.cs:146-148 | ReadArg's state after `k` characters depends only on those `k` characters, not on what follows |
| ArgReader.EofNeverEnds | Commander/CommanderCLI.cs:146-154 | Appending end-of-stream reads (`(char) -1`, U+FFFF) never creates a terminator: ReadArg returns iff the real input holds one |
| LineReader.EofNoHardEnd | Commander/CommanderCLI.cs:146-154 | Appending end-of-stream reads (U+FFFF) never creates a newline that ends the line: ReadLine returns iff the real input holds one |
| LineReader.ShiftAfterEnd | Commander/CommanderCLI.cs:139-143 | Each ReadArg call restarts from clear flags, so after a token end the trace of the rest is the trace of the whole input shifted by the consumed characters |
| LineReader.RestHasHardEnd | Commander/CommanderCLI.cs:128 | After a token that ends at a space, the rest of the input still holds the line's newline |
| LineReader.HardEndFromRest | Commander/CommanderCLI.cs:128 | Conversely, a line-ending newline in the rest is one of the whole input |
| LineReader.SoftTokens | Commander/CommanderCLI.cs:107-128 | A line whose first token ends at a space is that token followed by the tokens of the rest; its length adds up the same way |
| LineReader.ListsCons | Commander/CommanderCLI.cs:107-125 | The argument and flag lists of a token sequence are what saveArg adds for the first token, followed by the lists of the rest |
| LineReader.ProgressStart | Commander/CommanderCLI.cs:99-103 | Before the loop, both lists are empty and nothing of the line has been consumed |
| LineReader.ArgsAfterSoft | Commander/CommanderCLI.cs:107-128 | After saving a space-terminated token, the saved arguments followed by those still to come are the line's arguments |
| LineReader.FlagsAfterSoft | Commander/CommanderCLI.cs:107-128 | The same for flags |
| LineReader.ProgressSoft | Commander/CommanderCLI.cs:107-128 | One loop turn that reads a space-terminated token keeps the loop invariant, with the rest starting just after that space |
| LineReader.ProgressHard | Commander/CommanderCLI.cs:107-128 | One loop turn that reads a newline-terminated token completes the line's lists and length |
| LineReader.FinishedLine | Commander/CommanderCLI.cs:128-135 | Once the loop ends, the lists, the exit check and the characters consumed are those of ReadLineOf |
| LineReader.ShiftHardEnd | Commander/CommanderCLI.cs:189-195 | After a token end, a newline terminator of the rest is a newline terminator of the whole input, and conversely |
| LineReader.LineEndsAtNewline | Commander/CommanderCLI.cs:128 | ReadLine consumes at least one character, no more than the input, and the last one is an unescaped, unquoted newline |
| LineReader.LineStopsAtFirstNewline | Commander/CommanderCLI.cs:128 | No unescaped, unquoted newline comes before the last character ReadLine consumes |
| LineReader.SoftCountNone | Commander/CommanderCLI.cs:192-194 | A stretch with no token end holds no soft boundary |
| LineReader.SoftCountShift | Commander/CommanderCLI.cs:192-194 | Soft boundaries after a token end are counted the same in the rest of the input |
| LineReader.SoftCountFirstToken | Commander/CommanderCLI.cs:192-194 | No soft boundary comes before the end of the first token |
| LineReader.SoftCountAfterSpace | Commander/CommanderCLI.cs:192-194 | Past a first token ending at a space, the soft boundaries are that space plus those of the rest |
| LineReader.TokenCountSoft | Commander/CommanderCLI.cs:128 | The token count for a line whose first token ends at a space, from the count of the rest |
| LineReader.TokenCountHard | Commander/CommanderCLI.cs:128 | The token count for a line whose first token ends at its newline |
| LineReader.TokenCount | Commander/CommanderCLI.cs:128 | A line has one token per unescaped, unquoted space before its newline, plus one |
| LineReader.TokenBoundaries | Commander/CommanderCLI.cs:128 | There is at least one token; every token but the last ended at a space, and the last at a newline |
| LineReader.Classify | Commander/CommanderCLI.cs:110-122 | A token in which a quote was used is always a positional argument with its text; with both switches off every token is |
| LineReader.SavedOnce | Commander/CommanderCLI.cs:110-122 | saveArg adds each token to exactly one list: a null argument as null, a positional argument verbatim, a flag by its name |
| LineReader.Continues | Commander/CommanderCLI.cs:134-135 | ReadLine returns false only when there is a first argument, it is not null, and it has four characters |
| LineReader.ContinuesIff | Commander/CommanderCLI.cs:134-135 | Both directions of the exit check: ReadLine returns false exactly when the first argument is present, not null, four characters long, and each character folds to the matching letter of `exit` |
| LineReader.LineLength | Commander/CommanderCLI.cs:128 | ReadLine consumes more characters than its first token does, and no more than the input holds |
| LineReader.ReadLineOf | Commander/CommanderCLI.cs:98-136 | The arguments and flags together have one entry per token of the line; a false result implies at least one argument |
| LineReader.ClassifyRules | Commander/CommanderCLI.cs:110-122 | Null iff nulls are parsed, no quote was used and the text folds to `null` (checked first, whatever `ReadFlags` says); flag iff flags are read, no quote was used, the text is longer than 2 and starts with `--`; the flag name is the text without `--` and is non-empty; a positional argument keeps the text verbatim |
| LineReader.ArgsFlagsCount | Commander/CommanderCLI.cs:107-125 | Each token lands in exactly one of the two lists |
| LineReader.ArgsFlagsAppend | Commander/CommanderCLI.cs:107-128 | Both lists keep the order of appearance (the lists of a concatenation are the concatenated lists) |
| LineReader.FlagsNonEmpty | Commander/CommanderCLI.cs:116-118 | No flag name is empty |
| LineReader.PlainConfigKeepsTokens | Commander/CommanderCLI.cs:110-122 | With both switches off, each token becomes a positional argument with its text, at its own position, and there are no flags |
| LineReader.StopsAtExit | Commander/CommanderCLI.cs:134-135 | A positional `exit` (any case) preceded only by flags makes ReadLine return false |
| LineReader.ExitOfStop | Commander/CommanderCLI.cs:134-135 | If ReadLine returns false, some token is a positional `exit` preceded only by flags |
| LineReader.StopsIff | Commander/CommanderCLI.cs:134-135 | ReadLine returns false iff the first token that is not a flag is a positional `exit`, quoted or not; a null first argument, an `exit` among the flags or an empty list does not stop it |
| Commander.TranscriptStep | Commander/CommanderCLI.cs:150-154 | After one more token, both the raw buffer and the writers' transcript have grown by exactly the characters that token consumed |
| Commander.ListsStep | Commander/CommanderCLI.cs:127-128 | One call of saveArg moves the loop state from one token to the next, or to the finished line |
| Commander.SoftStep | Commander/CommanderCLI.cs:127-128 | A saveArg call whose token ended at a space keeps the loop running, with the invariant holding at the new position |
| Commander.HardStep | Commander/CommanderCLI.cs:127-128 | A saveArg call whose token ended at a newline ends the loop with the line's lists complete |
| Commander.LoopStep | Commander/CommanderCLI.cs:127-128 | One loop turn keeps both the list invariant and the raw/echo invariant |
| Commander.CommanderCli.constructor | Commander/CommanderCLI.cs:87-89 | Reads from the given input from its start; `ReadFlags` is on, `ParseUnescapedNullsAsNull` is off, nothing has been read or echoed |
| Commander.CommanderCli.Read | Commander/CommanderCLI.cs:147 | The next character, advancing the position, or -1 at the end without advancing |
| Commander.CommanderCli.ReadArg | Commander/CommanderCLI.cs:138-200 | Returns ReadArgOf of the remaining input; consumes exactly through its terminator; the raw buffer and the echo both grow by exactly the consumed characters |
| Commander.CommanderCli.SaveArg | Commander/CommanderCLI.cs:107-125 | Reads one token and appends to the lists what Classify says (null, flag or positional argument); returns whether the token ended at a space |
| Commander.CommanderCli.ReadLine | Commander/CommanderCLI.cs:98-136 | Returns ReadLineOf of the remaining input under the switches it was called with (which it leaves unchanged); consumes exactly LineLength characters; `LastCommandAsRaw` is exactly those characters and the writers received them in order |
| Scenarios.EmptyLine | Commander/CommanderCLI.cs:98-136 | A line holding only a newline gives one empty argument, no flags, and continues |
| Scenarios.ThreeWords | Commander/CommanderCLI.cs:98-136 | `a b c` gives the arguments `a`, `b`, `c` in order |
| Scenarios.DoubleSpace | Commander/CommanderCLI.cs:189-195 | `a  b` gives `a`, an empty argument and `b` |
| Scenarios.FlagThenArgument | Commander/CommanderCLI.cs:116-118 | `--v x` gives the flag `v` and the argument `x` |
| Scenarios.FlagsOff | Commander/CommanderCLI.cs:116-122 | With `ReadFlags` off, `--v x` gives the arguments `--v` and `x` |
| Scenarios.QuotedFlag | Commander/CommanderCLI.cs:116-122 | `"--v"` is the argument `--v`, not a flag |
| Scenarios.ExitAnyCase | Commander/CommanderCLI.cs:134-135 | `EXIT` stops the session (under the ASCII fold; see `Ascii.Lower` below) |
| Scenarios.QuotedExit | Commander/CommanderCLI.cs:134-135 | `"exit"` stops the session too |
| Scenarios.ExitAsFlag | Commander/CommanderCLI.cs:134-135 | `--exit` is a flag and does not stop the session |
| Scenarios.NullLiteral | Commander/CommanderCLI.cs:110-113 | With nulls parsed, `NULL` is a null argument and the session continues |
| Scenarios.EscapedNull | Commander/CommanderCLI.cs:110-113 | With nulls parsed, `\null` is still a null argument (an escape does not count as quoting) |
| Scenarios.QuotedNull | Commander/CommanderCLI.cs:110-113 | With nulls parsed, `"null"` stays the text `null` |
| Scenarios.EscapedSpace | Commander/CommanderCLI.cs:156-165 | `a\ b` is the single argument `a b` |
| Scenarios.TabDropped | Commander/CommanderCLI.cs:173-182 | `a<tab>b "c<tab>d"` gives `ab` and `c<tab>d`: a tab is dropped outside quotes and kept inside |

## Left out

- The default constructor `CommanderCLI()` reads from `Console.In`. Console I/O is not modelled; the other constructor's reader is a finite input sequence.
- `TextReader` is replaced by that input sequence and a position. A reader that blocks or raises I/O errors is not modelled.
- `Writers` are not `TextWriter` objects. Each writer receives the same characters, so the model keeps a single ghost transcript `echoed`. Registering, removing or clearing writers is a list operation with no effect on tokenizing, and is not modelled.
- The obsolete `Writer` property is not modelled. Its getter returns `Writers[0]`, or null when the list is empty; its setter replaces the whole list with the one writer, or empties it when given null.
- Ascii.Lower: `String.ToLower` is culture-sensitive. The model folds ASCII capitals only. Non-ASCII letters that fold to `null` or `exit` under some culture are not covered. The fold matches the invariant culture's. Under the Turkish and Azeri cultures the capital `I` folds to a dotless `ı`, so there `EXIT` does not stop the session, whereas `Scenarios.ExitAnyCase` proves that it does under this fold.
- LineReader.ClassifyRules: `StartsWith("--")` is culture-sensitive in .NET. The model compares the first two characters ordinally.
- Tab completion is a placeholder in the source; the model drops the tab, as the code does.
- Commander.CommanderCli.ReadArg: requires a terminator in the remaining input. Without one the original never returns: at end of stream it reads U+FFFF forever. The infinite loop is captured by `EofNeverEnds`, not by a diverging method.
- Commander.CommanderCli.ReadLine: requires an unescaped, unquoted newline in the remaining input, for the same reason.
- Dafny characters are Unicode scalar values. Lone UTF-16 surrogates, which a .NET `char` can hold, are not representable.
- `LastCommandAsRaw` is `null` until the first `ReadLine`. The model starts it as the empty string. It is a `StringBuilder` in the source and a string here.
- `ReadLine` returns `string[]` arrays. The model returns sequences, with a null argument as `None`.
