# Log analyzer: a Dafny model

This project models the analysis engine of a Telegram log-monitoring bot (`main.py`). The bot reads a log file. It keeps the trailing window of lines and files each line under the first enabled regular-expression filter that matches it. It renders the buckets as a text report and cuts that text into messages of at most 4000 characters.

Modules, in dependency order:

- `Wrappers` (wrappers.dfy): `Option`. `None` stands for Python's `None`.
- `PyText` (text.dfy): the Python built-ins the engine uses. These are `str.strip()` with Python's whitespace set, `sep.join`, `str(n)`, the slice `s[-k:]` and repeated `list.extend`. `Split` is the inverse of `Join` and `ParseNat` the inverse of `NatToString`; `Strip` has a uniqueness lemma.
- `Filters` (filters.dfy): filter rules, the configuration record, the built-in default configuration, and the selection of the enabled rules.
- `Scan` (scan.dfy): the specification of `analyze_logs` as the function `Analyze`, with the lemmas about it.
- `Report` (report.dfy): the specification of `format_results` as the function `Format`, with the lemmas about it.
- `Delivery` (delivery.dfy): the 4000-character chunking in `send_logs`.
- `Analyzer` (analyzer.dfy): the class `LogAnalyzer`, with the fields `filters`, `logFile` and `maxLines`. `AnalyzeLogs` is the nested scan loop with its `break`. `FormatResults` is the message-building loop. `SendLogs` is the `/logs` command without the messaging. Each method is proved equal to its specification function.

How the outside world enters the model:

- The regex engine is the parameter `RegexEngine(compiles, search)`. `search(p, line)` stands for `re.search(p, line, re.IGNORECASE)` finding a match. `compiles(p)` says whether `re` accepts the pattern.
- The file system is a `map` from a path to the file's lines as `readlines()` returns them. A path that is absent stands for a file that cannot be opened or decoded.
- The bot's exception handler is the `None` result.

The model follows the code in these details:

- `line.strip()` removes whitespace at both ends of a recorded line, not only at the end. It uses Python's Unicode whitespace set. Matching is done on the unstripped line.
- A pattern that does not compile raises only when some line reaches it during the scan. That is, no earlier filter matched the line. The whole analysis then returns `None`. Nothing checks patterns at load time.
- With no enabled filter, the result dictionary is empty. `if not results` then yields the failure text "Не удалось проанализировать логи", not "Записи не найдены".
- `max_lines` is not required to be positive. `lines[-max_lines:]` keeps all lines when `max_lines == 0`, because `-0` is `0`. It drops the first `-max_lines` lines when `max_lines` is negative.
- Rule names are not required to be unique. The result dictionary has one key per distinct name, in order of first occurrence (`Scan.KeysFirstOccurrence`). Rules that share a name share one bucket.
- There is no toggle operation and no persistence of filter changes. The active set is computed once, in the constructor.

## Model

| member | source | states |
|---|---|---|
| Filters.ActiveFilters | main.py:61 | a rule is selected exactly when it is in the configuration and enabled; there are never more selected rules than configured ones |
| Filters.ActiveFiltersAppend | main.py:61 | selection keeps configuration order: the selection of `a + b` is the selection of `a` followed by that of `b` |
| Filters.DefaultActiveFilters | main.py:27-47 | with the default configuration, the errors and warnings rules are active and the authorisation rule is not |
| PyText.SuffixSlice | main.py:71 | `s[-k:]` keeps the last `min(k, n)` items in order for `k > 0`, all items for `k == 0`, and drops the first `-k` items for `k < 0` |
| PyText.Strip | main.py:76 | the result is an infix of the line with only whitespace around it, and it neither starts nor ends with whitespace |
| PyText.StripUnique | main.py:76 | any infix with those two properties is the stripped line, so the contract fixes the result |
| PyText.JoinPrefix | main.py:96 | the joined text starts with the first part |
| PyText.SplitJoin | main.py:96 | splitting `"\n".join(parts)` at newlines gives back `parts` when no part holds a newline |
| PyText.ParseNatToString | main.py:92 | the decimal rendering of a count reads back as that count |
| Scan.FirstMatch | main.py:74-77 | the probe names the first filter that compiles and matches, after every earlier filter compiled and did not match; or no filter matches; or names the first filter reached whose pattern does not compile |
| Scan.FirstMatchAt | main.py:74-77 | if filter `p` matches and all earlier filters reject the line, then `p` wins, and the stripped line goes into bucket `filters[p].name` and no other |
| Scan.NoMatchDiscarded | main.py:73-77 | a line that every filter rejects is recorded under no name |
| Scan.PatternErrorAt | main.py:75-82 | a non-compiling pattern reached by an unmatched line makes that line's probe an error |
| Scan.EarlierFilterWins | main.py:73-77 | with distinct names, a line matched by filters `i < j` is never recorded under the later filter's name, provided filter `i`'s pattern compiles |
| Scan.Keys | main.py:67 | the dictionary keys are pairwise distinct, and a name is a key exactly when some active filter carries it |
| Scan.KeysFirstOccurrence | main.py:67 | keys come in order of first occurrence: each key occurs in the filters before the next key first does |
| Scan.KeysOfDistinctNames | main.py:67 | with distinct names, the keys are exactly the active filter names, one each, in filter order |
| Scan.DefaultResultKeys | main.py:27-67 | under the default configuration, the result keys are the errors and warnings names only |
| Scan.CollectAppend | main.py:73-76 | buckets keep window order: scanning `a + b` yields `a`'s recorded lines followed by `b`'s |
| Scan.CollectMembers | main.py:73-77 | a string is in bucket `name` exactly when it is the stripped form of a window line recorded under `name` |
| Scan.CollectBound | main.py:73-77 | no bucket holds more lines than the window |
| Scan.AnalyzeFails | main.py:69-82 | the result is `None` exactly when the file cannot be read or some window line reaches a non-compiling pattern |
| Scan.AnalyzeShape | main.py:65-79 | a result has one entry per key in key order; all buckets together hold exactly one line per matched window line, so at most the window length |
| Scan.EmptyWindow | main.py:67 | with an empty window, every key is present with an empty list |
| Report.BlockShape | main.py:91-94 | a non-empty bucket renders as its header, its last `min(20, n)` lines oldest first, and an empty line; an empty bucket renders as nothing |
| Report.HeaderCount | main.py:92 | the header is the pin mark, the name and the decimal count, and that count reads back as the full number of recorded lines |
| Report.MessageAppend | main.py:90-94 | blocks appear in dictionary order: rendering `a + b` is rendering `a` followed by rendering `b` |
| Report.MessageEmpty | main.py:90-96 | the message list is empty exactly when every bucket is empty |
| Report.FormatFailed | main.py:86-87 | `None` and the empty dictionary both render as the failure text |
| Report.FormatNothingFound | main.py:96 | a non-empty dictionary whose buckets are all empty renders as the nothing-found text |
| Report.FormatReport | main.py:96 | otherwise the text is the rendered lines joined with newlines; it starts with the pin mark and equals neither sentinel |
| Report.SentinelsDiffer | main.py:87-96 | the failure text and the nothing-found text differ |
| Report.FormatSplits | main.py:96 | when names and lines hold no newline, splitting the report at newlines gives back the rendered lines |
| Delivery.Chunks | main.py:124 | there are `ceil(L / 4000)` pieces; each holds between 1 and 4000 characters; all but the last hold exactly 4000 |
| Delivery.ChunksConcat | main.py:124 | concatenating the pieces in order gives back the text |
| Delivery.DeliverSpec | main.py:123-127 | every message fits 4000 characters and the messages concatenate to the text; a text of at most 4000 characters is sent once, unchanged; a longer one is sent as `ceil(L / 4000)` messages, all but the last full |
| Analyzer.LogAnalyzer.constructor | main.py:60-63 | the analyzer keeps the enabled rules in configuration order, plus the configured log path and window size |
| Analyzer.LogAnalyzer.AnalyzeLogs | main.py:65-82 | the nested scan with its early `break` returns exactly `Analyze` of the configured file |
| Analyzer.LogAnalyzer.FormatResults | main.py:84-96 | the message-building loop returns exactly `Format` of its argument |
| Analyzer.LogAnalyzer.SendLogs | main.py:119-127 | the messages sent are the chunked report; they concatenate to it and each fits 4000 characters |

## Left out

- The aiogram bot: `send_welcome`, `handle_document`, the dispatcher registrations and `main` (main.py:98-161). This is network and user-interface plumbing. In `send_logs`, only the analysis, rendering and chunking are modelled. The replies, the `await`s and the outer exception handler are not.
- The upload handler's `analyzer.log_file = file_path` (main.py:145) and the download before it. This is I/O. `logFile` is a plain field that is set by the constructor.
- `load_config`, YAML reading and writing, `os.makedirs` and the `.env` token (main.py:19-23, 49-57). This is file I/O and process start-up. Only the default configuration's value is modelled.
- A malformed configuration. The model's typed records exclude it. A rule without `enabled` raises `KeyError` out of the constructor (main.py:61), and a rule without `name` raises `KeyError` out of `analyze_logs` before its `try` (main.py:67). A rule without `pattern` (main.py:75) or a non-integer `max_lines` (main.py:71) raises inside the `try`, so `analyze_logs` returns `None` through the handler at main.py:80-82. The model's `None` result covers that outcome only for the causes it does model: an unreadable file and a pattern that does not compile.
- Logging calls and the exception's message text. These are side effects only.
- `asyncio.to_thread` (main.py:120). This is concurrency; the model runs the analysis sequentially.
- The regular-expression engine itself. It is a foreign library and is kept abstract as `RegexEngine`.
- File decoding and newline translation. A file that cannot be decoded is an absent path. The lines are taken as `readlines()` would return them.
