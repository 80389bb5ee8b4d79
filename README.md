# git-log-searcher: the repository scan and its message formatter

This project models the core of git-log-searcher, a tool that looks
through the commit log of one or more git repositories for commit
messages matching a regular expression. The core is `Searcher` in
`searcher.go`:

- **`formatMessage`** cuts a commit message down to a one-line summary of
  a given width.
  - It finds the first newline with `strings.Index`, which returns a byte
    offset.
  - It then slices the message's runes (`[]rune(msg)`) with that offset.
  - When the byte offset `i` is below the width, the first `i` runes are
    returned. That is the whole first line only when the line is ASCII.
  - Otherwise the summary is `width - 3` runes plus `"..."`.
- **`Run`** scans one repository.
  - It walks the log in the order the log iterator yields from HEAD.
  - For every commit whose message matches the pattern, it appends
    `"<hash>: <summary>\n"` to a result string. The summary width is the
    terminal width minus `len(c.Hash)`.
  - If anything fails, it writes one error text to the error stream.
  - Only a walk that ends without error writes `"searched `dir`\n" +
    result + "\n"` to the output stream.

The modules:

- `Seqs`: the helpers `IndexOf` (Go's `strings.Index` with a one-element
  separator), `Count` and `Concat`, with their lemmas.
- `Utf8`: a message is a sequence of runes (Dafny `char`s, Unicode scalar
  values), and `Encode` gives its UTF-8 bytes. The byte offset that
  `strings.Index` returns is therefore `IndexOf(Encode(msg), 0x0A)`.
  `NewlineOffsetIsByteLength` proves that this offset is the byte length
  of the first line.
- `Formatter`: `FormatMessage` is `formatMessage` as written. Its
  precondition `Defined` is the set of inputs on which the slices stay
  within the rune count (see Left out for capacity). The lemmas state
  what it returns for ASCII first lines and where it goes wrong for
  others. `FormatFirstLine` is the evidently intended formatter; see
  Findings.
- `Search`: commits, the report built by the `ForEach` callback
  (`Report`, specified over the log), the `Writer` streams, and the
  `Searcher` class.
  - `Searcher.Scan` is the callback's loop, proved equal to `Report`.
  - `Searcher.Run` is the whole scan with its three outcomes.
  - The two streams may be the same writer.

Behaviour of the code that the model keeps as written:

- **The newline offset is in bytes, but the slice counts runes.** The two
  agree only while the first line is ASCII.
- **The formatter panics on some inputs.** A message with no newline gives
  `r[0:-1]`. A long first line with a width below 3 gives a negative
  `width - 3`. A width more than 3 past the message's rune count is also
  excluded. All of these inputs fall outside `Defined`.
- **20 is subtracted where 40 digits are printed.** The summary width is
  the terminal width minus `len(c.Hash)`, the 20 bytes of a
  `plumbing.Hash`, while `%v` prints the hash as 40 hexadecimal digits.
- **A failed walk drops the partial result.** An error from `ForEach`
  discards the result built so far and writes only the error text.

## Model

| member | source | states |
|---|---|---|
| Seqs.IndexOf | searcher.go:78 | `strings.Index` with a one-element separator yields -1 or a valid position |
| Seqs.IndexOfFinds | searcher.go:78 | the position is -1 exactly when the separator is absent, and otherwise is its first occurrence |
| Utf8.EncodeRune | searcher.go:79 | a rune takes one to four bytes, exactly one when it is ASCII |
| Utf8.EncodeRuneNewline | searcher.go:78-79 | the byte 0x0A occurs in a rune's encoding only when the rune is the newline |
| Utf8.Encode | searcher.go:79 | a message of n runes is between n and 4n bytes long |
| Utf8.AsciiEncodeLength | searcher.go:78-79 | ASCII text has as many bytes as runes |
| Utf8.EncodeAppend | searcher.go:79 | encoding distributes over concatenation |
| Utf8.NewlineOffsetIsByteLength | searcher.go:78-79 | the byte offset of the first newline is the UTF-8 length of the runes before it, and -1 when there is no newline |
| Formatter.FirstLine | searcher.go:78-82 | the first line is no longer than the message |
| Formatter.FirstLineSpec | searcher.go:78-82 | the first line is a newline-free prefix that stops at the first newline, and is the whole message when there is none |
| Formatter.NewlineOffset | searcher.go:78 | `strings.Index(msg, "\n")` is -1 exactly when the message has no newline, and otherwise at least the rune length of the first line |
| Formatter.Defined | searcher.go:78-84 | a call that returns needs a newline, and either a first line shorter than the width or a width of at least 3 |
| Formatter.FormatMessage | searcher.go:77-85 | formatMessage as written, on the inputs where its slices stay within the rune count; the summary is never longer than the width |
| Formatter.FormatMessageShape | searcher.go:81-84 | the summary is a prefix of the message, or a prefix followed by "..." |
| Formatter.FormatMessageByBytes | searcher.go:78-84 | a returning call needs a newline; the branch compares the first line's byte length, which is at least its rune length, with the width |
| Formatter.AsciiOffsetIsLineLength | searcher.go:78 | with an ASCII first line the offset equals the line's rune length |
| Formatter.NoNewlinePanics | searcher.go:78-82 | a message without a newline makes formatMessage panic at every width |
| Formatter.NarrowWidthPanics | searcher.go:84 | any first line of at least `width` runes with `width < 3` makes the slice panic, whatever its runes |
| Formatter.DefinedIff | searcher.go:78-84 | for an ASCII first line: formatMessage returns iff there is a newline and either the line is shorter than the width or 3 <= width <= runes + 3 |
| Formatter.ShortLineKept | searcher.go:81-82 | an ASCII first line shorter than the width is returned whole |
| Formatter.LongLineTruncated | searcher.go:84 | an ASCII first line of at least `width` runes becomes its first `width - 3` runes plus "...", exactly `width` runes long |
| Formatter.BoundaryIsStrict | searcher.go:81-84 | a first line of exactly `width` runes, ASCII or not, is truncated to its first `width - 3` runes plus "..."; it comes back unchanged only if it already ends in "..." |
| Formatter.AsciiSummaryIsOneLine | searcher.go:78-84 | with an ASCII first line the summary holds no newline |
| Formatter.NonAsciiLeaksNewline | searcher.go:78-82 | "é\nab" at width 80 gives "é\n": the newline leaks into the summary |
| Formatter.NonAsciiShortLineTruncated | searcher.go:78-84 | "éééé\n" at width 6 gives "ééé...", although its four runes fit |
| Formatter.WideLineOffset | searcher.go:78 | the first line of "éééé\n" is four runes and its newline is at byte 8 |
| Formatter.FormatFirstLine | searcher.go:77-85 | the corrected formatter never returns a newline, and its result is at most `max(width, 3)` runes |
| Formatter.FormatFirstLineTruncates | searcher.go:81-84 | for width >= 3, the corrected formatter keeps a short first line and cuts a long one to exactly `width` runes ending in "..." |
| Formatter.CorrectedKeepsWideLine | searcher.go:81-82 | the corrected formatter keeps "éééé" at width 6 |
| Formatter.CorrectedWithoutNewline | searcher.go:78-82 | the corrected formatter returns a short message without a newline whole instead of panicking |
| Formatter.CorrectedNarrowWidth | searcher.go:84 | below width 3 the corrected formatter gives a long first line as "..." instead of panicking |
| Formatter.AsciiAgreesWithCorrected | searcher.go:77-85 | on ASCII first lines the code as written and the corrected formatter agree wherever the code returns |
| Search.Hex | searcher.go:64 | `%v` of a hash has two characters per byte |
| Search.HexDigits | searcher.go:64 | a printed hash is made of lower-case hexadecimal digits only |
| Search.SummaryWidth | searcher.go:64 | the summary width is the terminal width less 20, the byte size of a hash |
| Search.Renderable | searcher.go:64 | a commit whose message can be formatted has a newline |
| Search.Scannable | searcher.go:62-64 | in a log the callback can scan, every matching message has a newline |
| Search.Report | searcher.go:61-67 | the `result` string is empty exactly when no commit matches |
| Search.RenderLine | searcher.go:64 | a match line starts with the hash and ": ", ends in a newline and is at most width + 23 long |
| Search.Selected | searcher.go:62-63 | the matching commits are no more than the log |
| Search.SelectedMembers | searcher.go:62-63 | a commit is selected iff it is in the log and its message matches |
| Search.SelectedRenderable | searcher.go:63-64 | every selected commit of a scannable log can be formatted |
| Search.ScannablePrefix | searcher.go:62 | every prefix of a scannable log is scannable |
| Search.Rendered | searcher.go:64 | one line per selected commit |
| Search.SelectedAppend | searcher.go:62-63 | selection distributes over concatenated logs |
| Search.RenderedAppend | searcher.go:64 | rendering distributes over concatenated selections |
| Search.RenderedAt | searcher.go:64 | the k-th line is the line of the k-th selected commit |
| Search.ReportStep | searcher.go:62-66 | one more commit appends its line when it matches and nothing otherwise |
| Search.ScanStep | searcher.go:62-66 | each iteration of the callback loop can format a matching commit and extends the report by exactly that commit's line |
| Search.NonMatchingIgnored | searcher.go:63 | inserting a non-matching commit anywhere leaves the report unchanged |
| Search.SelectedKeepsOrder | searcher.go:62-65 | two matching commits are reported in the order the log iterator yields them |
| Search.RenderLineIsOneLine | searcher.go:64 | a commit with an ASCII first line renders as exactly one line |
| Search.CorrectedLineIsOneLine | searcher.go:64 | with the corrected formatter every commit renders as exactly one line |
| Search.ReportLineCount | searcher.go:61-67 | with ASCII first lines the report has exactly one line per matching commit |
| Search.TruncatedLineOverflowsWidth | searcher.go:64 | whenever the summary is truncated (the newline's byte offset is not below the summary width), ASCII or not, the line is width + 22 runes before its newline, since 20 is subtracted for 40 printed digits |
| Formatter.OneAsciiLine | searcher.go:78-82 | a one-line ASCII message shorter than the width is kept whole |
| Search.FirstAndLast | searcher.go:61-67 | of three commits of which the first and the last yielded match, the report is their two lines in that order |
| Search.ThreeCommitSelection | searcher.go:62-63 | of three commits of which the first and the last yielded match, those two are selected in log order |
| Search.ErrorText | searcher.go:70 | the error text (also written at lines 36, 44, 51 and 57) is 21 characters longer than the directory and reason, and both can be read back from it: the directory after "error occured in `", the reason at the end with no newline after it |
| Search.SuccessText | searcher.go:74 | the success text carries the directory after "searched `" and the result between "`\n" and a final newline |
| Search.Writer.constructor | searcher.go:21-22 | a new writer has nothing written |
| Search.Writer.Write | searcher.go:70 | writing appends the text to what was written |
| Search.Searcher.constructor | searcher.go:25-27 | NewSearcher stores the directory, pattern, width and both streams |
| Search.Searcher.Scan | searcher.go:61-67 | the callback loop's result is the report of the whole log |
| Search.Searcher.Run | searcher.go:29-75 | success writes "searched `dir`\n" + report + "\n" to the output stream and nothing to a separate error stream; any failure writes only "error occured in `dir`: reason" (no newline) to the error stream |

## Left out

- The `sync.WaitGroup` and the goroutines that `main.go` starts are not modelled. `main.go` is not part of this model: it reads the configuration, detects the terminal width and starts one scan per directory.
- Opening the repository is not modelled: go-billy, the `.git` chroot, filesystem storage, `git.Open`, `Head` and `Log`. Their four failure paths (searcher.go:32-59) are merged into `LogSource.Unavailable` with the error's text. `storage.Close` has no observable effect in the model.
- Go's `regexp` semantics are abstracted. The pattern is a predicate on the message text; the code matches its UTF-8 bytes.
- Error values are abstracted: an error is its `%s` text.
- The log walk is a finite sequence of commits plus an optional terminating error. Laziness and the go-git object store are not modelled.
- Messages are valid UTF-8. Go decodes invalid bytes to U+FFFD, one per byte, and this is not modelled.
- Formatter.FormatMessage, Formatter.Defined: bound the rune slices by the rune count, where Go checks them against the capacity of `[]rune(msg)`. That capacity can exceed the length, so some panics that Defined predicts may not occur in Go: "éé\n" at width 80 slices `r[0:4]` of a three-rune slice, which Go may return padded with NUL runes.
- Search.Run: the ensures speak of the streams' contents only. A stream's write error (ignored by `Fprintf`'s callers) is not modelled.

## Findings

| source | as written | input that shows it | evidently intended | confidence | as-written member | corrected member |
|---|---|---|---|---|---|---|
| searcher.go:78-82 | the byte offset of the newline slices the rune sequence | message "é\nab", width 80: the summary is "é\n", newline included | the summary is the first line "é", without its newline | high; not executed | Formatter.NonAsciiLeaksNewline | Formatter.FormatFirstLine (with Search.CorrectedLineIsOneLine) |
| searcher.go:81 | a line's byte length is compared with the width | message "éééé\n", width 6: the summary is "ééé..." | four runes fit in six columns and are kept: "éééé" | high; not executed | Formatter.NonAsciiShortLineTruncated | Formatter.CorrectedKeepsWideLine |
| searcher.go:78-82 | `strings.Index` returns -1 and `r[0:-1]` is taken | a commit message "fix" with no trailing newline, any width: panic | the whole message is its first line | medium; not executed | Formatter.NoNewlinePanics | Formatter.CorrectedWithoutNewline |
| searcher.go:84 | `r[0:width-3]` with `width < 3` | message "abc\n" at width 2 (a terminal of 22 columns): panic | the summary is just "..." | medium; not executed | Formatter.NarrowWidthPanics | Formatter.CorrectedNarrowWidth |
