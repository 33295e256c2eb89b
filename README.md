# Agent memory server core in Dafny

This project models the core of the MCP agent memory server
(`src/mcp_agent_memory/app.py`). The server lets many agents share one
append-only Markdown file ("memory"). The model covers its two parts:

- **Rate limiter** (`RateLimit.dfy`). A map from client identity to the
  times of that client's admitted calls. A check drops every time whose age
  is not strictly below the window. It refuses the call when at least
  `limit` entries remain. Otherwise it records the current time and admits the call.
  `RateLimit.RateLimiter` holds the map and the configured limit and window.
  `CheckRateLimit` updates the map as `check_rate_limit` does. The pure
  functions `Prune` and `Admit` specify one check, and `Replay` specifies a
  run of checks. The lemmas state the window boundary, the cap on the
  number of stored entries, and the burst-then-refill behaviour.
- **Memory file** (`MemoryLog.dfy`). The file is an `Option<string>`: absent,
  or present with some text. `MemoryLog.MemoryFile` holds it and has the four
  operations `init_memory_file`, `read_memory_file`, `append_to_memory_file`
  and `get_file_stats`. Each is specified by a pure function: `InitFile`,
  `ReadFile`, `AppendFile` with `AppendMessage`, and `StatsOf`. Ghost fields
  record the starting text and the entries appended since. The class
  invariant says the file is always that text followed by those entries.
- **Python text behaviour** (`Text.dfy`). The string operations the file
  code relies on:
  - `str.strip()` with Python's whitespace set;
  - the universal-newline translation applied when a file is opened with
    `open(path, "r")`;
  - the lines that `for _ in f` yields;
  - the UTF-8 size of the text, which is what `os.stat(...).st_size` reports;
  - `str(int)` for the size-limit message.

Clock readings, the configuration values and operating-system failures are
parameters. The rate limiter takes `now` as a `real` (seconds). Each file
operation takes its timestamp as the ISO-8601 string the clock produced. An
I/O failure is an `Option<string>` holding the exception's text.

Facts about the code that its own wording does not make plain:
- The size limit compares `len(rule)`, a count of characters, with
  `MAX_RULE_SIZE`. The log line and the error message call that count
  "bytes" (app.py:124 and app.py:126), and the limit is described as "10KB"
  (app.py:36 and app.py:271). A rule of 10000 non-ASCII characters, which
  takes more than 10000 bytes in UTF-8, is accepted.
- A read opens the file in text mode, so Python's universal-newline
  translation applies: "\r\n" and a lone "\r" become "\n". A read is
  verbatim only for text without carriage returns (`ReadVerbatim`), and the
  line count counts the translated lines.
- Appending to an absent file creates it holding just the entry. Append
  mode does not write the header.
- When stats fail for a reason other than a missing file, the result is
  `{"exists": False, "error": ...}`, with no size and no line count.

## Model

| member | source | states |
|---|---|---|
| `RateLimit.Prune` | src/mcp_agent_memory/app.py:74-77 | The pruned list holds only times `t` with `now - t < window`, so an entry exactly one window old is dropped. Every value of the input younger than one window appears in it, every value in it comes from the input, and the list never grows. How many copies are kept is stated by `PruneMultiset`. |
| `RateLimit.PruneMultiset` | src/mcp_agent_memory/app.py:74-77 | Every copy of a time younger than one window is kept, and no copy of any other time. So the count that app.py:79 compares with the limit counts several calls at one instant separately. |
| `RateLimit.PruneConcat` | src/mcp_agent_memory/app.py:74-77 | Pruning is an order-preserving filter: pruning a concatenation is concatenating the pruned parts. |
| `RateLimit.PruneKeepsFresh` | src/mcp_agent_memory/app.py:74-77 | A list whose entries are all younger than one window is kept whole. |
| `RateLimit.PruneDropsExpired` | src/mcp_agent_memory/app.py:74-77 | A list whose entries are all at least one window old is emptied. |
| `RateLimit.Admit` | src/mcp_agent_memory/app.py:79-83 | The call is admitted exactly when the pruned list has fewer than `limit` entries. A refusal leaves the pruned list and records nothing. An admission appends `now` as the last entry and leaves at most `limit` entries. A list within the cap stays within it. |
| `RateLimit.AdmitSameInstant` | src/mcp_agent_memory/app.py:74-83 | With a positive window, a client whose `k <= limit` recorded calls are all at `now` is admitted at `now` exactly when `k < limit`, and then holds `k + 1` entries. |
| `RateLimit.Burst` | src/mcp_agent_memory/app.py:70-83 | For `n` calls at one instant, with a positive window, by a client holding `k <= limit` calls from that instant, the first `limit - k` are admitted and every later one is refused. |
| `RateLimit.BurstLeaves` | src/mcp_agent_memory/app.py:70-83 | After such a burst, the client holds one entry per admitted call. |
| `RateLimit.ThreeAndRefill` | src/mcp_agent_memory/app.py:70-83 | With limit 3 and window 60, calls at `t, t, t, t, t+60` answer `true, true, true, false, true`. |
| `RateLimit.ReplayConcat` | src/mcp_agent_memory/app.py:70-83 | The answers to two runs of checks in sequence are the answers of the first run followed by those of the second, which starts from the list the first left. |
| `RateLimit.RateLimiter.constructor` | src/mcp_agent_memory/app.py:67 | The store starts empty, with the configured limit and window. |
| `RateLimit.RateLimiter.CheckRateLimit` | src/mcp_agent_memory/app.py:70-83 | The answer is `Admit` on the client's list, or on the empty list if the client is new. Only the client's entry is replaced, by the list `Admit` leaves. Every other identity's entry is unchanged. No list ever exceeds the limit (invariant `Valid`). |
| `Text.TrimStart` | src/mcp_agent_memory/app.py:119 | Leading whitespace is removed: the result is a suffix of the input that does not start with whitespace, and everything dropped is whitespace. |
| `Text.TrimEnd` | src/mcp_agent_memory/app.py:119 | Trailing whitespace is removed: the result is a prefix of the input that does not end with whitespace, and everything dropped is whitespace. |
| `Text.Strip` | src/mcp_agent_memory/app.py:119 | `rule.strip()` is empty exactly when every character is whitespace. Otherwise it neither starts nor ends with whitespace. |
| `Text.IsSpace` | src/mcp_agent_memory/app.py:119 | The whitespace set that `str.strip()` removes, the characters CPython's `Py_UNICODE_ISSPACE` accepts. A predicate with no contract; `TrimStart`, `TrimEnd` and `Strip` state what removing it means. |
| `Text.Translate` | src/mcp_agent_memory/app.py:102-105 | Text read in text mode holds no carriage return and is no longer than the text on disk. |
| `Text.TranslateVerbatim` | src/mcp_agent_memory/app.py:102-105 | Text without carriage returns reads back unchanged. |
| `Text.TranslateConcat` | src/mcp_agent_memory/app.py:102-105 | Reading `a + b` is reading `a` then `b`, unless `a` ends with "\r". |
| `Text.TranslateCrLf` | src/mcp_agent_memory/app.py:102-105 | A "\r\n" pair reads as one line break whatever precedes it: reading `a + "\r\n" + x` is reading `a + "\r"` then `x`. |
| `Text.TranslateLoneCr` | src/mcp_agent_memory/app.py:102-105 | A "\r" not followed by "\n" ends a line whatever precedes it: reading `a + "\r" + x` is reading `a + "\r"` then `x`. |
| `Text.TranslateEndsCr` | src/mcp_agent_memory/app.py:102-105 | Any text ending with "\r" reads as a non-empty text ending with "\n". |
| `Text.TranslateLast` | src/mcp_agent_memory/app.py:102-105 | A non-empty text not ending with "\r" reads as a non-empty text that ends with "\n" exactly when the original does. |
| `Text.TranslatePrefix` | src/mcp_agent_memory/app.py:102-105 | For any text and anything added after it, the read of the text is a prefix of the read of the whole. |
| `Text.TranslateAppendPlain` | src/mcp_agent_memory/app.py:102-105 | Text without carriage returns, added after text not ending with "\r", reads verbatim after the earlier read. |
| `Text.TranslateAppendAfterCr` | src/mcp_agent_memory/app.py:102-105 | Text starting with "\n" and without carriage returns, added after text ending with "\r", reads as the earlier read followed by the added text without its first "\n". |
| `Text.SplitLines` | src/mcp_agent_memory/app.py:158-159 | The lines `for _ in f` yields from the translated text. No contract of its own; `SplitLinesJoin`, `SplitLinesNonEmpty` and `SplitLinesCount` state that they join back to the text, are never empty and number the line breaks plus one for an unterminated last line. |
| `Text.LineCount` | src/mcp_agent_memory/app.py:158-159 | The `line_count` of the stats: the number of lines iteration yields from the text-mode read. No contract of its own; `SplitLinesCount`, `LineCountAppendLine` and `LineCountAfterCr` state its value and how an entry changes it. |
| `Text.SplitLinesJoin` | src/mcp_agent_memory/app.py:159 | The lines `for _ in f` yields join back to the text, so nothing is lost or counted twice. |
| `Text.SplitLinesNonEmpty` | src/mcp_agent_memory/app.py:159 | No line that `for _ in f` yields is empty. |
| `Text.SplitLinesCount` | src/mcp_agent_memory/app.py:159 | The line count is the number of "\n" characters, plus one for a last line without "\n". |
| `Text.SplitLinesAppend` | src/mcp_agent_memory/app.py:159 | Adding a text that starts with its only line break and does not end with one adds one line, or two when the earlier text was empty or ended with "\n". |
| `Text.SplitLinesAppendPlain` | src/mcp_agent_memory/app.py:159 | Adding a non-empty text without line breaks after text ending with "\n" adds one line. |
| `Text.LineCountAppendLine` | src/mcp_agent_memory/app.py:157-159 | For any earlier text on disk, adding a text that starts with its only line break, holds no carriage return and does not end with "\n" adds two lines when the earlier text is empty or ends with "\n", and one otherwise (a final "\r" included). |
| `Text.LineCountAfterCr` | src/mcp_agent_memory/app.py:157-159 | After text ending with "\r", such an addition adds exactly one line: its "\n" merges with the "\r". |
| `Text.Utf8Length` | src/mcp_agent_memory/app.py:162 | The size in bytes is between one and four times the number of characters. |
| `Text.Utf8LengthConcat` | src/mcp_agent_memory/app.py:162 | The size of a concatenation is the sum of the sizes. |
| `Text.Utf8LengthAscii` | src/mcp_agent_memory/app.py:162 | ASCII text has one byte per character. |
| `Text.NatToString` | src/mcp_agent_memory/app.py:126 | A number's decimal form is a non-empty run of digits with no leading zero. |
| `Text.NatToStringRoundTrip` | src/mcp_agent_memory/app.py:126 | Reading the digits back gives the number formatted. |
| `Text.IntToString` | src/mcp_agent_memory/app.py:126 | `str(int)` of the configured limit, with a leading "-" for a negative value: never empty. `NatToString` and `NatToStringRoundTrip` state the digits. |
| `MemoryLog.InitialContent` | src/mcp_agent_memory/app.py:93-95 | The header a new file gets: the title line, an empty line and the initialisation line with the timestamp. No contract of its own; `HeadingLines`, `HeadingSize` and `InitialStats` state its three lines, its bytes and its stats. |
| `MemoryLog.InitFile` | src/mcp_agent_memory/app.py:90-95 | After initialisation the file exists. An existing file is left exactly as it was. |
| `MemoryLog.InitIdempotent` | src/mcp_agent_memory/app.py:90-95 | Initialising twice, at any two times, is initialising once: the second call is a no-op. |
| `MemoryLog.HeadingLines` | src/mcp_agent_memory/app.py:93-95 | The text a new file receives holds exactly three line breaks, ends with one, and holds no carriage return, when the timestamp holds no line break. |
| `MemoryLog.HeadingSize` | src/mcp_agent_memory/app.py:93-95 | Its size is the ASCII title and prefix, three line breaks, and the timestamp's bytes. |
| `MemoryLog.HeadingStats` | src/mcp_agent_memory/app.py:93-95 | The stats of such a heading report existence, that size and three lines. |
| `MemoryLog.InitialStats` | src/mcp_agent_memory/app.py:93-95 | A freshly initialised file has three lines and 41 bytes plus the timestamp's. |
| `MemoryLog.CheckRule` | src/mcp_agent_memory/app.py:119-126 | Validation runs in order. An all-whitespace rule (the empty rule included) gets the empty-rule error whatever its length. Otherwise a rule longer than `MAX_RULE_SIZE` gets the size error. A rule of exactly `MAX_RULE_SIZE` characters is accepted, and its body is the stripped rule. |
| `MemoryLog.RenderEntry` | src/mcp_agent_memory/app.py:130 | An entry starts a new line and ends with the body. |
| `MemoryLog.AppendOutcome` | src/mcp_agent_memory/app.py:116-151 | An append succeeds exactly when the rule is not all whitespace, is within the size limit, and the write does not fail. It reports empty, size and write failures under those same conditions. Every failure leaves the file unchanged. A success makes the file the old text (empty if absent) followed by `"\n- [" + ts + "] " + strip(rule)`, so the old text is always a prefix. |
| `MemoryLog.AppendFile` | src/mcp_agent_memory/app.py:116-151 | `append_to_memory_file` on the file state: the outcome and the new file. No contract of its own; its outcomes are stated by `AppendOutcome`, its effect on reads by `ReadEndsWithRule` and `ReadKeepsPrefix`, on stats by `SizeAfterAppend`, and over runs by `AppendAllConcat`. |
| `MemoryLog.AppendMessage` | src/mcp_agent_memory/app.py:116-151 | The string `append_to_memory_file` returns for each outcome (app.py:120, 126, 146 and 151). No contract of its own; `MessagesDistinct` states that the string determines the outcome. |
| `MemoryLog.MessagesDistinct` | src/mcp_agent_memory/app.py:116-151 | The returned strings tell the outcomes apart: success, empty rule, size limit, and each write failure. |
| `MemoryLog.ReadFile` | src/mcp_agent_memory/app.py:99-113 | `read_memory_file`: a successful read holds no carriage return and is no longer than the text on disk. `ReadVerbatim`, `ReadEndsWithRule`, `ReadAfterAppend` and `ReadKeepsPrefix` state what it returns. |
| `MemoryLog.ReadVerbatim` | src/mcp_agent_memory/app.py:99-108 | A file without carriage returns is read back exactly. |
| `MemoryLog.StatsOf` | src/mcp_agent_memory/app.py:154-169 | An absent file gives `exists=false, size_bytes=0, line_count=0`. A present file, with no failure, gives `exists=true` and a size of at least its length. |
| `MemoryLog.EntryNoCarriageReturn` | src/mcp_agent_memory/app.py:130 | An entry built from a timestamp and body without carriage returns has none. |
| `MemoryLog.ReadEndsWithEntry` | src/mcp_agent_memory/app.py:102-108 | For a timestamp and body without carriage returns and any earlier text: text ending with an entry reads as the earlier read followed by the entry, or by the entry without its first "\n" when the earlier text ends with "\r". Either way the read ends with the body. |
| `MemoryLog.ReadAfterAppend` | src/mcp_agent_memory/app.py:129-137 | For a timestamp and stripped rule without carriage returns and any earlier file: after a successful append, the next read is the earlier read followed by the entry (without its first "\n" when the file ended with "\r"), and it ends with the stripped rule. |
| `MemoryLog.ReadEndsWithRule` | src/mcp_agent_memory/app.py:102-137 | For any rule, timestamp and earlier file: after a successful append, the next read ends with the stripped rule as text mode reads it. |
| `MemoryLog.ReadKeepsPrefix` | src/mcp_agent_memory/app.py:116-151 | For any rule, timestamp and outcome, an existing file still exists after an append, and what a read returned before is a prefix of what it returns after. |
| `MemoryLog.EntryNewlines` | src/mcp_agent_memory/app.py:130 | An entry whose timestamp and body hold no line break has exactly one line break, its first character. |
| `MemoryLog.LineCountWithEntry` | src/mcp_agent_memory/app.py:157-159 | For any earlier text on disk, adding such an entry adds two lines when that text is empty or ends with "\n", and one otherwise. |
| `MemoryLog.StatsWithEntry` | src/mcp_agent_memory/app.py:157-163 | For any earlier text on disk, the stats after such an entry report existence, the earlier size plus the entry's bytes, and that line count. |
| `MemoryLog.SizeAfterAppend` | src/mcp_agent_memory/app.py:157-163 | For any rule and any earlier file, after a successful append the stats report existence and the earlier size plus the entry's bytes. |
| `MemoryLog.StatsAfterAppend` | src/mcp_agent_memory/app.py:157-163 | For a timestamp and stripped rule without line breaks and any earlier file: after a successful append, the stats grow by the entry's bytes and by two lines when the file was absent, empty or ended with "\n", and by one line otherwise. |
| `MemoryLog.AppendAllConcat` | src/mcp_agent_memory/app.py:116-151 | After any run of appends, each of which may be refused or fail to write, the file is its earlier text followed by the entries of the successful appends, in their order. A refused or failed append adds nothing, and no earlier byte is rewritten. |
| `MemoryLog.MemoryFile.constructor` | src/mcp_agent_memory/app.py:34 | The file starts as found at `FILE_PATH`, with no entries appended. |
| `MemoryLog.MemoryFile.InitMemoryFile` | src/mcp_agent_memory/app.py:90-96 | The file becomes `InitFile` of the old file, and the entry list is unchanged. |
| `MemoryLog.MemoryFile.ReadMemoryFile` | src/mcp_agent_memory/app.py:99-113 | Returns the text-mode read of the file, the not-found message for an absent file, or the read-error message. |
| `MemoryLog.MemoryFile.AppendToMemoryFile` | src/mcp_agent_memory/app.py:116-151 | The file becomes `AppendFile`'s result and the returned string is its message. The rendered entry is added to the ghost entry list exactly on success. The invariant "file = initial text + entries" is kept. |
| `MemoryLog.MemoryFile.GetFileStats` | src/mcp_agent_memory/app.py:154-169 | Returns `StatsOf` of the current file, and the zeroed record when the file is absent. |

## Left out

- Locking with `fcntl.flock` (app.py:103-107, 133-138) and all concurrency. Each operation is one atomic step on the file state, and several processes sharing the file are not modelled.
- The clock: `time.time()` and `datetime.now().isoformat()` are parameters. ISO-8601 formatting is not modelled, and a timestamp is any string. Lemmas that need it ask for one without line breaks, which an ISO-8601 string satisfies.
- Floating-point arithmetic on timestamps: `now - t` is exact `real` arithmetic, without rounding.
- Audit and application logging (app.py:47-61, 123-125, 141-145, 149-150), and so the `client_ip` argument of `append_to_memory_file`, which only feeds the audit log.
- Operating-system failures are opaque error texts. A failed append is taken to write nothing; a partly written entry is not modelled. An I/O failure in `init_memory_file` propagates to the caller and is not modelled.
- The `modified` field (file mtime) of the stats, and the gap between `os.stat` and `open` in `get_file_stats`.
- Text encoding: the file is taken to hold UTF-8 text of Unicode scalar values. Decoding errors and lone surrogates are not modelled.
- Configuration loading from the environment (app.py:31-41). `MAX_RULE_SIZE`, the rate limit and the window are constructor arguments taken as given, with no range check, as in the code.
- The growth of the identity map: as in the code, an identity's entry is never removed.
- The FastAPI/Starlette/MCP layer (app.py:176-402), all of `backup.py`, `__init__.py` and `test_server.py`: HTTP routing, authentication and cloud or e-mail clients, with no logic of the core.
- MemoryLog.StatsAfterAppend: both halves are stated only for timestamps and stripped rules without line breaks, because a rule with inner line breaks adds more lines and no lemma counts them. The size half alone holds for every successful append (`SizeAfterAppend`).
- MemoryLog.ReadAfterAppend: states the next read as an exact equation only for timestamps and stripped rules without carriage returns, because a "\r" inside the entry is itself translated. That the read ends with the translated stripped rule holds for every successful append (`ReadEndsWithRule`). That the earlier read stays a prefix holds for every append (`ReadKeepsPrefix`).
