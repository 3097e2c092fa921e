# Log File Analysis and Reporting System — a verified model of its core

The system reads web-server access logs in the Apache "combined" format, turns
each line into a record, stores the records in a MySQL database (a `log_entries`
fact table and a `user_agents` dimension table with one classified row per
distinct user-agent string), and answers aggregate report queries over the
stored rows.

This Dafny project models that core:

- **Line parsing** (`LogParser`, log_parser.py). `ParseLine` is the total function
  `string -> Option<LogRecord>` that `parse_line` computes. `MatchLine` is
  `LOG_PATTERN.match`: a backtracking matcher with leftmost-shortest lazy groups.
  The greedy digit runs, the anchoring at the start only, and `.` not matching a
  newline are all modelled. The timestamp is parsed by the strict form of
  `strptime('%d/%b/%Y:%H:%M:%S %z')`; `str.split()` uses Python's whitespace
  set. A formatter of the model's own writes records as lines, and the round trip
  through the parser is proved. A soundness lemma says what any match captures.
- **User-agent classification** (`UserAgentClassifier`, the three if/elif chains
  in mysql_handler.py). It uses case-insensitive substring tests, first match wins.
- **The handler** (`MySqlHandler`, mysql_handler.py).
  - Timestamp normalisation to naive UTC.
  - The `user_agents` lookup-or-create and the `INSERT IGNORE` batch insert, as
    functions on a snapshot of both tables (`Tables`). The class `LogStore` holds
    the tables as fields; its methods update them in place and are proved against
    those functions.
  - The three report queries, as functions over the `log_entries` rows.
  - The unique key of `log_entries` is a parameter `keyOf`.
- **Stand-alone reports** (`GenerateReports`, generate_reports.py). These are the
  five queries over the `logs` table, as functions over its rows.
- **The `process_logs` command** (`Ingest`, main.py). It parses every line, keeps
  the records that parse in file order, inserts the batch and reports the count.

Shared pieces:

- `Grouping` states once what `GROUP BY … COUNT(*) ORDER BY … LIMIT n` promises.
  `IsGrouping` means one row per distinct key with its exact count. `IsTopN` adds
  non-increasing counts, at most `n` rows, and no omitted key counted more than
  the last row.
- `Calendar` holds the proleptic Gregorian calendar that `datetime` uses.
- `Text` holds digits, decimal numerals and `str.split()`.

Rows are sequences. SQL leaves the order among equal counts open, so the
contracts do not fix one; the functions produce one admissible order.

## Model

| member | source | states |
|---|---|---|
| LogParser.ParseLine | log_parser.py:12-31 | No match gives `None`. A match gives a record exactly when the request splits into 3 words and the timestamp parses. The record's fields are then: the IP group; the first and second words; the 3-digit status as a number in 0..999; the byte digits as a number ≥ 0; referrer and user agent with exactly `"-"` turned into `None` |
| LogParser.MatchLine | log_parser.py:8-10 | A successful match has a 3-digit status group and a non-empty all-digit byte group |
| LogParser.MatchLineSound | log_parser.py:8-10 | The groups, with the pattern's literal text between them, are a prefix of the line (anchored at the start only; trailing text allowed). The IP is four dot-separated digit runs. Status is 3 digits, bytes ≥ 1 digit. No lazy group holds a newline |
| LogParser.LazyGroupMeaning | log_parser.py:9 | A lazy `(.*?)` group's capture is a newline-free prefix followed by the closing character, after which the rest of the pattern matches. No shorter body followed by the closing character lets the rest match |
| LogParser.LazyGroupFirst | log_parser.py:9 | When the body holds neither the closing character nor a newline and the rest matches after it, the lazy group captures exactly that body |
| LogParser.DottedDigitsThen | log_parser.py:9 | `\d+\.\d+\.\d+\.\d+` matched greedily still ends where a dotted address ends when the text after it starts with neither a digit nor a dot |
| LogParser.ParseTimestamp | log_parser.py:18 | A parsed timestamp is always offset-aware |
| LogParser.ParseTimestampSound | log_parser.py:18 | A parsed timestamp has the `dd/Mon/YYYY:HH:MM:SS ±HHMM` layout. Its month is the one the abbreviation names. Day, year, hour, minute and second are the numbers at their digit positions. The offset is ±(HH·60+MM) minutes, with MM below 60 |
| LogParser.ParseTimestampRejects | log_parser.py:18 | `None` for any other layout and for an unknown month name. For a well-laid-out string with a known month: `None` exactly when year 0, day 0 or past the month's end, hour ≥ 24, minute or second ≥ 60, offset minutes ≥ 60, or an offset of a whole day or more |
| LogParser.TimestampRoundTrip | log_parser.py:18 | Every offset-aware datetime, written as `dd/Mon/YYYY:HH:MM:SS ±HHMM`, parses back to itself |
| LogParser.MonthNumberOfName | log_parser.py:18 | `%b` reads each English month abbreviation as its month number |
| LogParser.DashToNone | log_parser.py:26-27 | `None` exactly for `"-"`; every other string, the empty one included, is kept verbatim |
| LogParser.RoundTrip | log_parser.py:12-31 | A record whose fields hold no delimiters, formatted as a combined-format line followed by any trailing text, parses back to the same record |
| LogParser.StatusRoundTrip | log_parser.py:9 | After the request's closing quote, the pattern's tail `(\d{3}) (\d+) "(.*?)" "(.*?)"` captures exactly a 3-digit status, a digit run, and two quote-free, newline-free strings that were written in that shape, whatever trailing text follows |
| Text.Split | log_parser.py:17 | `str.split()`: every word returned is non-empty and free of Python's whitespace |
| Text.SplitSkipsSpace | log_parser.py:17 | `str.split()` skips any leading run of whitespace (tabs, repeated blanks, other Unicode spaces): the split is the split of what follows |
| Text.SplitWordThen | log_parser.py:17 | A word followed by whitespace or the end of the string is the first word returned, and the rest of the split is the split of what follows it |
| Text.SplitJoined | log_parser.py:17 | Splitting words joined by single spaces gives back exactly those words, so a request `METHOD PATH PROTOCOL` unpacks into its three parts |
| UserAgentClassifier.OsOf | mysql_handler.py:52-66 | One iff per OS class. Windows, then macOS ("mac os"/"macintosh"), then Linux, then Android, then iOS ("iphone"/"ios"), else Unknown OS. Each class holds exactly when its test succeeds and every earlier one fails |
| UserAgentClassifier.BrowserOf | mysql_handler.py:53-75 | One iff per browser class. Chrome needs chrome and safari; then Firefox; then Safari without chrome; then Edge; else Unknown Browser |
| UserAgentClassifier.DeviceOf | mysql_handler.py:54-80 | One iff per device class. Mobile, then Tablet ("tablet"/"ipad"), else Desktop |
| UserAgentClassifier.LinuxBeforeAndroid | mysql_handler.py:61-64 | A string naming both linux and android (and no earlier OS) is Linux |
| UserAgentClassifier.MacBeforeIphone | mysql_handler.py:59-66 | A string naming mac os and iphone (and not windows) is macOS |
| UserAgentClassifier.ChromeWithSafari | mysql_handler.py:68-69 | chrome together with safari is Chrome whatever else the string names |
| UserAgentClassifier.ClassificationIgnoresCase | mysql_handler.py:56 | Upper-casing ASCII letters changes no class |
| UserAgentClassifier.ClassificationOfLower | mysql_handler.py:56 | Classifying the lower-cased string gives the same classes |
| UserAgentClassifier.LowerIdempotent | mysql_handler.py:56 | Lower-casing twice is lower-casing once |
| UserAgentClassifier.LowerIgnoresCase | mysql_handler.py:56 | Two strings equal up to ASCII case have the same lower-cased form |
| UserAgentClassifier.ContainsIff | mysql_handler.py:57 | The substring test `in` holds exactly when the needle occurs at some position |
| UserAgentClassifier.LabelsInjective | mysql_handler.py:52-80 | Distinct classes are stored under distinct labels |
| MySqlHandler.NormalizeTs | mysql_handler.py:30-37 | A naive value is returned unchanged. A result is naive and denotes the same instant (its local seconds are the input's UTC seconds) |
| MySqlHandler.NormalizeTsFails | mysql_handler.py:36 | Conversion fails (Python's `OverflowError`) exactly when the UTC instant lies before year 1 or after year 9999 |
| MySqlHandler.NormalizeTsIdempotent | mysql_handler.py:35-37 | Normalising a normalised value changes nothing |
| MySqlHandler.NormalizeTsSameInstant | mysql_handler.py:35-37 | Two values denoting the same instant normalise to the same naive value |
| MySqlHandler.NaiveInstantUnique | mysql_handler.py:36 | A naive value is determined by the instant it denotes |
| MySqlHandler.Resolve | mysql_handler.py:39-90 | No id exactly for a missing or empty string, with the tables untouched. A known string gives its stored id with the tables untouched. An unseen string adds one classified row under the next id and returns that id |
| MySqlHandler.ResolveMeaning | mysql_handler.py:39-90 | After resolving, the string has exactly one row whose id is the one returned. Every other row is unchanged and at most one row is added. `log_entries` is untouched and the table invariants (one row per string, distinct ids below the counter) are kept |
| MySqlHandler.ResolveIdempotent | mysql_handler.py:43-49 | Resolving the same string again returns the same id and adds no row |
| MySqlHandler.LogStore.ResolveUserAgent | mysql_handler.py:39-90 | The handler's tables change as `Resolve` says and the returned id is `Resolve`'s; the invariant is kept |
| MySqlHandler.InsertIgnore | mysql_handler.py:102-124 | `INSERT IGNORE`: a row whose key is free of NULL is dropped when a row with that key is present and appended otherwise. A row whose key holds a NULL never collides and is always appended |
| MySqlHandler.InsertIgnoreUnique | mysql_handler.py:102-124 | NULL-free keys stay unique, and a NULL-free new key is present afterwards |
| MySqlHandler.InsertOneMeaning | mysql_handler.py:110-124 | One loop pass keeps the tables valid and only adds rows. It succeeds exactly when the timestamp normalises, and adds at most one entry |
| MySqlHandler.InsertAllMeaning | mysql_handler.py:94-126 | A batch keeps the tables valid and overwrites nothing. It succeeds exactly when every timestamp normalises |
| MySqlHandler.ExtendsAll | mysql_handler.py:94-126 | A batch only adds: every user-agent row is kept and the old entries are a prefix of the new |
| MySqlHandler.DuplicateInBatch | mysql_handler.py:102-124 | A record whose key holds no NULL, repeated in the same batch, is dropped: `[r, r]` has the effect of `[r]` |
| MySqlHandler.DuplicateNullKey | mysql_handler.py:102-124 | A record whose key holds a NULL is stored once per copy: `[r, r]` succeeds and appends its row twice |
| MySqlHandler.InsertCovered | mysql_handler.py:102-124 | Inserting a record whose user agent and key are already stored changes nothing |
| MySqlHandler.ReIngest | mysql_handler.py:94-126 | When every key column is NOT NULL, loading the same batch again changes nothing and reports the same outcome |
| MySqlHandler.LogStore.InsertBatch | mysql_handler.py:94-126 | The handler's tables change as `InsertAll` says (an empty list changes nothing); the invariant is kept |
| MySqlHandler.TopNIps | mysql_handler.py:130-141 | At most `n` rows, one per distinct IP, each with its exact count, counts non-increasing. No omitted IP has a count above the last row's; all IPs appear when fewer than `n` rows come back |
| MySqlHandler.StatusCodeDistribution | mysql_handler.py:143-155 | One row per status with its exact count, counts non-increasing, percentage = count·100/total |
| MySqlHandler.PercentagesSumTo100 | mysql_handler.py:149 | Over a non-empty table the percentages sum to exactly 100 |
| MySqlHandler.SumShares | mysql_handler.py:149 | The percentages of any rows sum to their total count ·100/total |
| MySqlHandler.HourLabel | mysql_handler.py:161 | A 5-character label: the hour zero-padded to two digits, then `:00` |
| MySqlHandler.HourLabelOrder | mysql_handler.py:161-165 | Zero-padded labels sort as strings in the order of their hours |
| MySqlHandler.HourLabelInjective | mysql_handler.py:161-164 | Distinct hours have distinct labels |
| MySqlHandler.LabelCount | mysql_handler.py:161-164 | The number of rows with a label is the number of rows in that hour |
| MySqlHandler.HourlyTraffic | mysql_handler.py:157-168 | One `HH:00` row per hour present with its exact count (no zero-count hours), labels strictly ascending |
| MySqlHandler.LabelledGrouping | mysql_handler.py:161-165 | Labelling an ascending per-hour grouping gives the grouping by label, still ascending |
| GenerateReports.TopIps | generate_reports.py:12-21 | At most `limit` rows (default 10), one per distinct IP with its exact count, counts non-increasing, no omitted IP above the last row. Rows whose address is NULL form one `None` group, ranked by its count like any other |
| GenerateReports.TopPaths | generate_reports.py:23-32 | The same shape over `path`, default limit 10, with one `None` group for the NULL paths |
| GenerateReports.StatusCodeSummary | generate_reports.py:34-42 | Every status present, once, with its exact count, no limit. The NULL statuses form one `None` group. Keys ascend with `None` before every status, as MySQL sorts NULL first |
| GenerateReports.NullStatusFirst | generate_reports.py:37-40 | When some row has a NULL status, the first row of the summary is the `None` group, counting exactly those rows |
| GenerateReports.StatusCodeSummaryTotal | generate_reports.py:34-42 | The counts sum to the number of rows |
| GenerateReports.TrafficByHour | generate_reports.py:44-52 | `HOUR(timestamp)` groups: integer hours 0..23 with traffic, once each with exact counts, ascending. Rows with a NULL timestamp form one `None` hour, sorted before every hour |
| GenerateReports.NullHourFirst | generate_reports.py:47-50 | When some row has a NULL timestamp, the first row of the report is the `None` hour, counting exactly those rows |
| GenerateReports.TrafficByHourTotal | generate_reports.py:44-52 | The hourly counts sum to the number of rows |
| GenerateReports.UserAgentSummary | generate_reports.py:54-64 | At most `limit` rows (default 5) over the non-NULL user agents, one per string with its exact count, counts non-increasing |
| GenerateReports.UserAgentSummaryCounts | generate_reports.py:57-60 | Each returned count is the positive number of rows carrying exactly that string |
| GenerateReports.KnownAgentsCount | generate_reports.py:59 | Filtering out NULLs keeps each string once per row that has it |
| Grouping.TopNIsTopN | mysql_handler.py:133-137 | The grouping-then-sort-then-limit function meets `IsTopN` |
| Grouping.GroupedByKeyIsGrouping | mysql_handler.py:161-165 | Grouping ordered by key is a grouping with strictly ascending keys |
| Grouping.GroupedByNullableKeyIsGrouping | generate_reports.py:37-40 | Grouping a nullable integer column ordered by key is a grouping: one `None` group for all NULLs, placed first, then the values strictly ascending |
| Grouping.NullGroupFirst | generate_reports.py:37-40 | In any grouping ordered with NULL first, the NULL group, when present, is row 0 with the number of NULLs |
| Grouping.SortByCountPermutes | mysql_handler.py:133-137 | Ordering rows by count keeps every row exactly as often as it occurs |
| Ingest.ParseLines | main.py:36-41 | The reading loop collects exactly `KeepParsed(lines)`: the records of the lines that parse, in order |
| Ingest.KeepParsedSound | main.py:38-41 | Every collected record is the parse of some line |
| Ingest.KeepParsedAll | main.py:38-41 | When every line parses, the batch has one record per line, in line order |
| Ingest.ParseFormattedFile | main.py:36-41 | Reading back a file of formatted lines (each ending in a newline) yields exactly the records written |
| Ingest.ProcessLogs | main.py:36-43 | The handler's tables change as the batch insert of the collected records says, and `ok` is that insert's outcome. `count` is the number collected, which main.py prints only when `ok` holds: a failed insert raises before the print |

## Left out

- Database plumbing is left out as driver I/O: connection setup, the port coercion, cursors, `close`, and `create_tables`, which reads a DDL file not part of this model.
- The unique key of `log_entries` is declared in that DDL file, so it is the parameter `keyOf`. `keyOf` yields `None` when a key column holds NULL, and such a key never collides, as in a MySQL unique index.
- MySqlHandler.ReIngest: proved only for keys whose columns are all NOT NULL. With a NULL in the key, every load stores those rows again (`DuplicateNullKey` shows this for one record).
- MySqlHandler.Resolve: the collation of `user_agent_string` is declared in the DDL file, so the lookup compares exact strings. Under MySQL's default case- and accent-insensitive collation, strings differing only in case would share one row.
- MySqlHandler.InsertAll: its state after a failure is an upper bound on what persists. The commit at mysql_handler.py:89 runs only when a new user agent is inserted; it then commits every `log_entries` row inserted so far. When a later timestamp fails to normalise, main.py:42 does not catch the exception. The process ends, and rows inserted after the last such commit are rolled back. The model keeps them all; commit timing is not modelled.
- `INSERT IGNORE` also suppresses errors other than duplicate keys (truncation, bad values); only the duplicate-key case is modelled.
- LogParser.ParseTimestamp: only the strict form of `strptime` is modelled. Python also accepts forms the model rejects:
  - single-digit fields;
  - `%z` with a colon, with seconds, or as `Z`;
  - month names in any case (`oct`, `OCT`), since the format is matched case-insensitively;
  - any run of whitespace other than one space where the format has its space (a tab, or several characters);
  - a space-padded day (` 5`);
  - locale month names.
- LogParser.MatchLine: `\d` is the ASCII digits only; Python's Unicode digits are left out.
- UserAgentClassifier.LowerChar: `str.lower()` is modelled only where it can produce an ASCII letter (ASCII capitals, the dotted capital I, the Kelvin sign); every other character is kept as it is, since its lower-case form never takes part in a test for an ASCII substring.
- The formatter used by the round-trip lemmas is part of the model; the system has none.
- Microseconds and time-zone names are not modelled: the log format has neither.
- `logging` calls (log_parser.py:30) and the exception message are left out; the result is `None` either way.
- MySqlHandler.TopNIps: a negative `LIMIT` (a SQL error) is excluded by taking `n` as a `nat`.
- GenerateReports.TopIps: groups addresses by exact string, and a negative `limit` (a SQL error) is excluded by taking it as a `nat`. Nothing in the ingestion path writes the `logs` table, so its values are arbitrary. MySQL's `GROUP BY` compares under the column's collation: by default it ignores case (IPv6 hex digits) and trailing blanks (PAD SPACE). Such values would share one group in MySQL; the model has several.
- GenerateReports.TopPaths: groups paths by exact string, and a negative `limit` is excluded by taking it as a `nat`. MySQL's `GROUP BY` on a `VARCHAR` compares under the column's collation, which by default ignores case and accents. There, `/Index.html` and `/index.html` are one group; the model has two.
- GenerateReports.UserAgentSummary: groups user agents by exact string, and a negative `limit` is excluded by taking it as a `nat`. Under the column's collation, strings that differ only in case or accents would share one group in MySQL.
- MySqlHandler.StatusCodeDistribution: percentages are exact `real`s. MySQL computes `COUNT(*) * 100.0 / …` as a DECIMAL rounded to 5 decimal places, so three equal statuses give 33.33333 each, summing to 99.99999. That rounding is left out, and `PercentagesSumTo100` holds of the exact values only.
- The MySQL `DATETIME` range check on insert is not modelled beyond what the UTC conversion rejects (years 1 to 9999).
- Order among equal counts is not fixed by any contract.
- main.py's argument parsing, config loading, file reading, `print` and `tabulate` are CLI I/O.
- main.py:52, 54 and 57 call `get_top_n_pages`, `get_traffic_by_os` and `get_error_logs_by_date`, which the handler does not define; they have no behaviour to model.
- generate_reports.py's `connect_db` is connection I/O. Its `logs` table is modelled as its own row type `LogsRow`, separate from `log_entries`. No DDL constrains `logs`, so every column `LogsRow` reads may hold NULL.
