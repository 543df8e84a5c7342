# redirects-generator, modelled in Dafny

The generator reads a CSV file of redirects. Each row has a source URL, a
destination URL and an HTTP redirect code. The generator writes Apache
directives that send requests for each source to its destination.

A run goes in three steps:

1. **Validation.** Every row that is not skipped must carry 301, 302 or 307.
   Otherwise the run stops and reports the first offending row.
2. **Composition.** Each row that is not skipped becomes one directive:
   - a `RedirectMatch` line when the source URL has no query string;
   - a `<IfModule mod_rewrite.c>` block with a `RewriteCond` for the path and
     one for the query string when it has one.

   The source path becomes a regular expression in four steps:
   - every `%` becomes `\x`;
   - every `.` becomes `\.`;
   - a trailing `/` becomes `/?`;
   - for a source with a query string, every `/` directly before a `?` is
     deleted.
3. **Output.** The directives are written one after another to the output
   file.

The model is in three modules:

- `PathEscape` (`path_escape.dfy`) holds the four rewriting steps as
  functions. `SourcePattern` is their composition. Lemmas cover each step's
  inverse or invariant and what the pipeline does to trailing slashes and
  query strings.
- `RuleText` (`rule_text.dfy`) holds the text of the two directives. Lemmas
  show their line structure: read back line by line, each directive is
  exactly its lines.
- `RedirectGen` (`redirect_gen.dfy`) holds the rows, the skip rule, the two
  loops of the generator as methods (`CheckRedirectCode`, `ComposeRewrite`)
  and the whole run (`GenerateRedirects`). Each method is proved against a
  specification function: `AllCodesValid`, `FirstFailure` and `Composed`.

The URL parser is the parameter `parse`. It returns `None` when it rejects a
URL. Otherwise it returns the URL's path and query string, each possibly
absent, and its normalised text.

Composition fails in two ways:

- the parser rejects the source or the destination URL;
- the source URL has no path. The first escaping step is then handed an
  absent path.

Either way the run ends without writing a file. `ComposeRewrite` reports the
failure of the first row, in input order, that is not skipped and cannot be
composed.

The skip condition (`scripts/redirectgen.py:30` and `:49`) skips a row when
ANY of its three fields is empty. The comments beside it (lines 29 and 48)
speak of rows where all three are blank. The model follows the condition,
as `Populated` states.

The third step uses Python's `re.sub('\/$', ...)`. In Python, `$` matches at
the very end of the string and also just before a final newline. The model
keeps both cases (`OptionalTrailingSlash`, `SourcePatternSlashNewline`).

The fourth step uses a look-ahead, which reads the string before deletion.
So `//?` keeps one slash (`DoubleSlashKeepsOne`). A path ending in `/` with
a query string gives a pattern ending in a lone `?`
(`SourcePatternQueryTrailingSlash`). The regular expression engine reads
that `?` as "the previous character is optional".

## Model

| member | source | states |
|---|---|---|
| RedirectGen.FixedCodesAccepted | scripts/redirectgen.py:20 | with the generator's code list, validation passes exactly when every row that is not skipped carries "301", "302" or "307" |
| RedirectGen.CheckRedirectCode | scripts/redirectgen.py:22-42 | returns true exactly when no row that is not skipped has a code outside the list; on false, `at` is the first such row, and every row before it is valid |
| RedirectGen.ValidationIgnoresSkippedRows | scripts/redirectgen.py:28-31 | validation of the rows agrees with validation of the rows that are not skipped alone, in both directions |
| RedirectGen.AllCodesValidAppend | scripts/redirectgen.py:28-42 | two runs of rows pass validation together exactly when each passes |
| RedirectGen.KeptMembers | scripts/redirectgen.py:49 | the rows that are composed all have three non-empty fields, come from the input, and are no more than the input rows |
| RedirectGen.KeptAppend | scripts/redirectgen.py:47-49 | skipping distributes over concatenation of runs of rows, order preserved |
| RedirectGen.KeptSingle | scripts/redirectgen.py:49 | a single row is kept exactly when none of its fields is empty |
| RedirectGen.KeptIdempotent | scripts/redirectgen.py:47-49 | skipping twice is skipping once |
| RedirectGen.ComposeRewrite | scripts/redirectgen.py:44-78 | if some row that is not skipped cannot be composed, the result is the failure of the first such row; otherwise it is exactly one rule per row that is not skipped, in input order |
| RedirectGen.ComposableAppend | scripts/redirectgen.py:47-57 | two runs of rows can be composed together exactly when each can |
| RedirectGen.FirstFailureNone | scripts/redirectgen.py:47-77 | no failure is reported exactly when every row that is not skipped can be composed |
| RedirectGen.FirstFailureAppend | scripts/redirectgen.py:47-77 | the first failure of two runs is the first run's, if any, else the second run's |
| RedirectGen.FirstFailureAt | scripts/redirectgen.py:53-77 | a row that is not skipped and cannot be composed, after rows that all can, decides the failure of the whole run |
| RedirectGen.SkippedRowNeverFails | scripts/redirectgen.py:49 | a row with an empty field is never parsed: inserting it anywhere leaves the reported failure unchanged |
| RedirectGen.ComposedAppend | scripts/redirectgen.py:46-78 | the rules of two runs of rows are the first run's rules followed by the second's |
| RedirectGen.ComposedSnoc | scripts/redirectgen.py:47-77 | one more row adds exactly its own rule when it is not skipped, and nothing when it is |
| RedirectGen.ComposedAt | scripts/redirectgen.py:47-77 | each row that is not skipped has its rule at the position given by the number of non-skipped rows before it |
| RedirectGen.SkippedRowAddsNothing | scripts/redirectgen.py:49 | a row with an empty field adds no rule, wherever it stands |
| RedirectGen.ComposedOfKept | scripts/redirectgen.py:47-49 | removing skipped rows beforehand yields the same rules |
| RedirectGen.ComposedSingle | scripts/redirectgen.py:47-77 | one composable row that is not skipped yields exactly its own rule |
| RedirectGen.RowWithoutQuery | scripts/redirectgen.py:75-77 | a source without a query string gives one `RedirectMatch` directive with the source's pattern and the parsed destination |
| RedirectGen.RowWithQuery | scripts/redirectgen.py:71-74 | a source with a query string gives one `mod_rewrite` block with the source's pattern, its query string and the parsed destination |
| RedirectGen.RuleForIsLines | scripts/redirectgen.py:72-77 | every rule is its lines each ended by a newline, so every rule ends in a newline |
| RedirectGen.ComposedIsLines | scripts/redirectgen.py:81-84 | writing the rules one after another writes all their lines in row order |
| RedirectGen.OutputLinesSingle | scripts/redirectgen.py:72-77 | when the fields reaching the output hold no newline, no output line does |
| RedirectGen.OutputFileLines | scripts/redirectgen.py:81-84 | the file text, split at newlines, is exactly the lines of every rule in row order |
| RedirectGen.RuleLinesSingle | scripts/redirectgen.py:72-77 | the lines of one rule hold no newline when its fields hold none |
| RedirectGen.GenerateRedirects | scripts/redirectgen.py:99-120 | an invalid code stops the run at the first offending row; otherwise the first composition failure stops it; otherwise the file text is the composed rules concatenated |
| RedirectGen.ExampleTrailingSlash | scripts/redirectgen.py:62-64 | `/peterlavelle/` without a query string gives the directive `RedirectMatch 301 ^/peterlavelle/?$ …` |
| RedirectGen.ExampleQueryString | scripts/redirectgen.py:71-74 | `/page?foo=bar` gives the `mod_rewrite` block with `^/page$` and `^foo=bar$` |
| RedirectGen.ExampleMissingPath | scripts/redirectgen.py:49-57 | a source URL without a path fails the run, unless its row is skipped |
| RedirectGen.ExampleEscapes | scripts/redirectgen.py:55-60 | `/a%20b` becomes `/a\x20b` and `/file.html` becomes `/file\.html` |
| RedirectGen.PlainAroundOne | scripts/redirectgen.py:57-64 | a path of plain characters around one other character keeps all of it but that character, which is escaped |
| RedirectGen.EscapePathPlain | scripts/redirectgen.py:57-60 | a path without `%` and `.` is unchanged by the two escaping steps |
| RedirectGen.PlainTrailingSlashPattern | scripts/redirectgen.py:62-64 | a plain path plus `/` gets the pattern path plus `/?` |
| RedirectGen.PlainQueryPattern | scripts/redirectgen.py:66-69 | a plain path not ending in `/`, with a query string, is its own pattern |
| PathEscape.EscapePercent | scripts/redirectgen.py:57 | no `%` is left, and the result is longer by one character per `%` |
| PathEscape.UnescapePercentRoundTrip | scripts/redirectgen.py:57 | a path without backslashes is recovered from its percent-escaped form |
| PathEscape.EscapePercentAppend | scripts/redirectgen.py:57 | the replacement works piecewise: escaping a concatenation concatenates the escapes |
| PathEscape.EscapePercentKeeps | scripts/redirectgen.py:57 | characters other than `%`, `\` and `x` occur after the step exactly when they occurred before |
| PathEscape.EscapeDots | scripts/redirectgen.py:60 | the result is longer by one character per `.` |
| PathEscape.EscapeDotsEscaped | scripts/redirectgen.py:60 | every `.` in the result has a backslash right before it |
| PathEscape.UnescapeDotsRoundTrip | scripts/redirectgen.py:60 | every path is recovered from its dot-escaped form |
| PathEscape.EscapeDotsAppend | scripts/redirectgen.py:60 | dot escaping works piecewise over concatenation |
| PathEscape.EscapeDotsKeeps | scripts/redirectgen.py:60 | characters other than `.` and `\` occur after the step exactly when they occurred before |
| PathEscape.EscapePathIsPerCharacter | scripts/redirectgen.py:57-60 | the two whole-string replacements in sequence equal escaping each character on its own |
| PathEscape.EscapePathAppend | scripts/redirectgen.py:57-60 | the two escaping steps together work piecewise over concatenation |
| PathEscape.EscapePathEscapes | scripts/redirectgen.py:57-60 | after both steps no `%` is left, every `.` is escaped, and the number of dots is unchanged |
| PathEscape.UnescapePathRoundTrip | scripts/redirectgen.py:57-60 | undoing the dots and then the percents recovers any backslash-free path |
| PathEscape.EscapePathKeeps | scripts/redirectgen.py:57-60 | `?`, `/` and newlines occur in the escaped path exactly when they occur in the path |
| PathEscape.EscapePathLast | scripts/redirectgen.py:57-60 | the escaped path ends in `/`, or in a newline, exactly when the path does |
| PathEscape.EscapePathSlashNewline | scripts/redirectgen.py:57-60 | the escaped path ends in `/` and a newline exactly when the path does |
| PathEscape.OptionalTrailingSlashUnchanged | scripts/redirectgen.py:64 | a string ending neither in `/` nor in `/` and a newline is left unchanged |
| PathEscape.OptionalBeforeNewline | scripts/redirectgen.py:64 | before a final newline, the trailing `/` still becomes `/?` |
| PathEscape.DropOnlyDeletesSlashes | scripts/redirectgen.py:69 | the fourth step deletes slashes and nothing else |
| PathEscape.DropWithoutQuestion | scripts/redirectgen.py:69 | a string without `?` is left unchanged |
| PathEscape.DropAppendSlash | scripts/redirectgen.py:69 | a slash before a string that starts with `?` is deleted, and the rest is rewritten piecewise |
| PathEscape.DropAppendSlashQuestion | scripts/redirectgen.py:69 | appending `/?` appends just the rewritten `?…` |
| PathEscape.DropLeavesNoSlashQuestion | scripts/redirectgen.py:67-69 | no `/` directly before a `?` is left, provided the string held no `//?` |
| PathEscape.DropFirst | scripts/redirectgen.py:69 | the result of a non-empty string starts with `?` only if the string started with `?` or `/?` |
| PathEscape.DoubleSlashKeepsOne | scripts/redirectgen.py:69 | `//?` becomes `/?`, since the look-ahead reads the string before deletion |
| PathEscape.SourcePatternNoPercent | scripts/redirectgen.py:57-69 | no pattern holds a `%` |
| PathEscape.SourcePatternNoNewline | scripts/redirectgen.py:57-69 | a path without newlines gives a pattern without newlines |
| PathEscape.SourcePatternTrailingSlash | scripts/redirectgen.py:62-64 | without a query string, a path ending in `/` gets a pattern ending in `/?`, matching it with and without the slash |
| PathEscape.SourcePatternNoTrailingSlash | scripts/redirectgen.py:57-64 | without a query string, a path not ending in `/` (nor in `/` and a newline) gets just its escaped form |
| PathEscape.SourcePatternSlashNewline | scripts/redirectgen.py:64 | a path ending in `/` and a newline gets its `?` before the newline |
| PathEscape.SourcePatternQueryNoTrailingSlash | scripts/redirectgen.py:64-69 | with a query string, a `?`-free path not ending in `/` gets just its escaped form |
| PathEscape.SourcePatternQueryTrailingSlash | scripts/redirectgen.py:64-69 | with a query string, a `?`-free path ending in `/` loses the slash, and its pattern ends in a lone `?` |
| PathEscape.SourcePatternQueryNoSlashQuestion | scripts/redirectgen.py:66-69 | with a query string, the pattern has no `/` directly before a `?` when the path holds no `?`, no newline, and does not end in `//` |
| PathEscape.NoTripleWithoutQuestion | scripts/redirectgen.py:69 | a string without `?` holds no `//?` |
| PathEscape.NoTripleAppendQuestion | scripts/redirectgen.py:64-69 | appending `/?` to a `?`-free string that does not end in `/` creates no `//?` |
| RuleText.RedirectMatchRuleIsLines | scripts/redirectgen.py:77 | the `RedirectMatch` directive is one line ended by a newline |
| RuleText.RewriteBlockRuleIsLines | scripts/redirectgen.py:74 | the `mod_rewrite` block is its six lines, each ended by a newline |
| RuleText.RedirectMatchRuleSplits | scripts/redirectgen.py:77 | read back line by line, the directive is the single line `RedirectMatch code ^pattern$ destination` |
| RuleText.RewriteBlockRuleSplits | scripts/redirectgen.py:74 | read back line by line, the block is exactly its six lines |
| RuleText.RedirectMatchLinesSingle | scripts/redirectgen.py:77 | the directive line holds no newline when its fields hold none |
| RuleText.RewriteBlockLinesSingle | scripts/redirectgen.py:74 | no line of the block holds a newline when its fields hold none |
| RuleText.SplitJoinLines | scripts/redirectgen.py:84 | splitting text written line by line gives back its lines, when none of them holds a newline |
| RuleText.JoinLinesAppend | scripts/redirectgen.py:84 | writing two runs of lines writes one run after the other |
| RuleText.ConcatJoinLines | scripts/redirectgen.py:84 | writing groups of lines one after another is writing all their lines |
| RuleText.JoinLines | scripts/redirectgen.py:84 | text written from a non-empty list of lines ends in a newline |

## Left out

- Command-line parsing (`scripts/redirectgen.py:86-96`) is not modelled. The run takes the rows as input.
- Opening and reading the CSV file twice (lines 99-106) is not modelled. The same rows are given to validation and to composition.
- CSV parsing is not modelled. A row is three strings, so rows with missing fields (which the reader fills with `None`) and rows with extra fields are outside the model.
- Writing the file is modelled only as its text: `Concat` of the rules.
- File-system errors are not modelled: a missing input file (`FileNotFoundError`, lines 112-115) and denied access (`PermissionError`, lines 122-125).
- The printed messages (lines 34-38, 114-124) and the exit status are left out.
- CheckRedirectCode: reports the position `at` of the offending row, not the reader's `line_num`. `line_num` counts physical lines read, including the header line.
- The URL parser is the parameter `parse`. Which URLs it rejects and how it normalises them are not modelled. The source calls it several times per row; the model calls it once per URL, because it returns the same result each time.
- A rejected URL is `MalformedUrl`. In the source it is a `LocationParseError` caught at lines 117-120.
- A missing source path is `MissingPath`. In the source it is an uncaught `TypeError` from `re.sub`. The model stands for both with `Failed`; neither writes a file.
- The model does not cover which request URLs the generated patterns match in Apache's regular expression engine.
- UnescapePercentRoundTrip: requires a path without backslashes, because a path that already holds `\x` cannot be told apart from an escaped `%`.
- SourcePatternQueryNoSlashQuestion: requires no `?`, no newline and no `//` ending, because the look-ahead in step 4 leaves one `/` of `//?` in place. `DoubleSlashKeepsOne` shows that case.
