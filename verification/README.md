# Blue/green log watcher — a verified Dafny model

`watcher/watcher.py` is a small service that watches an nginx access log during a
blue/green deployment. It parses each line into `key:value` fields. It notices when
the serving pool changes ("failover") and posts an alert to a Slack webhook.

This project models its core in Dafny and proves properties of that model:

- `parse_log_line`, in `LogParser`. The regular expression `(\w+):([^|]+)` and
  `re.findall` become a recursive scanner over the characters of the line. `dict(...)`
  becomes a left-to-right map update. Then come the four projected fields with their
  defaults. The parser returns `None` when `int` rejects a status that passes `isdigit`
  but has more digits than the interpreter's integer conversion limit.
- `detect_failover`, as the class `Watcher.LogWatcher` with the field `lastPool`. The
  rule it applies to one pool, and what that rule does over a sequence of pools, are
  specification functions in `Failover`.
- The per-line loop of `process_logs`, as `LogWatcher.ProcessLines`. It takes one read
  of the log as a sequence of lines. It strips and parses every line, feeds the pool of
  every line that passes the guard, and collects the alerts.
- `send_slack_alert` up to the network call, as `LogWatcher.SlackRequest` and
  `LogWatcher.SendSlackAlert`. The HTTP POST is a function parameter that maps a
  request to a status code or a failure.
- `Text` holds the ASCII character classes (`\w`, `isdigit`, `isspace`), `str.strip`,
  `int` on digit strings and `in` on strings.

The headline results:

- **The scanner is exactly the regex.** `MatchAt` finds the pattern at a position
  exactly when the declarative `IsTokenAt` holds (`MatchAtSound`, `MatchAtComplete`).
- **`FindAll` matches what `findall` returns.** Its tokens are real matches
  (`FindAllSound`). They come in order and do not overlap (`FindAllOrdered`). They
  leave no possible match uncovered (`FindAllComplete`).
- **Keys are whole word runs** (`KeysAreMaximalWordRuns`).
- **The last occurrence of a key wins** (`LastOccurrenceWins`).
- **Parsing round-trips.** Every record the parser can return is read back from its
  `key:value|...` rendering (`ParseFormatRoundTrip`).
- **Only an over-long status is refused.** The parser returns `None` exactly when the
  status is a run of more than 4300 digits (`ParseLogLine`, `LongStatusRejected`); the
  loop skips exactly those lines (`LinePool`).
- **Failover alerts are exactly the changes between consecutive known pools.** The
  stored pool counts as the first of them (`AlertsAreTransitions`).
- **Each poll re-alerts.** `process_logs` re-reads the whole file on every poll, so a
  second pass over the same lines reports every change again (`RepeatedPassRealerts`,
  `SecondPassRealerts`).

What `watcher.py` does, and so what the model does:

- **No further features.** There is no error-rate window, no cooldown, no maintenance
  mode, no delivery retry, no tailing from a read position and no comma-separated
  multi-attempt field.
- **Missing keys.** No key is required: a missing key takes its default, and the line
  is still used.
- **Delivery success.** Delivery counts as successful only for status 200, not for any
  other 2xx code.

## Model

| member | source | states |
|---|---|---|
| `Text.Strip` | watcher/watcher.py:93 | `line.strip()` is a slice of the line with only whitespace cut off either end and no whitespace left at its ends |
| `Text.ContainsIff` | watcher/watcher.py:44 | `'placeholder' in webhook` holds exactly when the substring occurs at some offset |
| `Text.DecimalRoundTrip` | watcher/watcher.py:35 | `int` on the decimal rendering of a number gives the number back |
| `Text.LeadingZeroIgnored` | watcher/watcher.py:35 | `int` ignores leading zeros of a digit string |
| `Text.DecimalOfDigitsIsNoLonger` | watcher/watcher.py:35 | `str(int(s))` has no more characters than the digit string `s`, so a status `int` accepts renders within the digit limit |
| `LogParser.WordEndSpec` | watcher/watcher.py:26 | `\w+` is greedy: the key run from a position holds only word characters and stops at the end of the line or at a non-word character |
| `LogParser.BarEndSpec` | watcher/watcher.py:26 | `[^\|]+` is greedy: the value run holds no `\|` and stops at the end of the line or at a `\|` |
| `LogParser.MatchAtSound` | watcher/watcher.py:26-27 | one attempt of `(\w+):([^|]+)` at a position yields only a real match there: a non-empty word key ending at `:` and a non-empty `|`-free value running to the next `|` or the end |
| `LogParser.MatchAtComplete` | watcher/watcher.py:26-27 | every match the pattern can make at a position is the one the scanner returns |
| `LogParser.FindAllSound` | watcher/watcher.py:27 | every tuple `findall` returns comes from a real match of the pattern, at or after the position the scan starts from |
| `LogParser.FindAllOrdered` | watcher/watcher.py:27 | the matches `findall` returns come left to right and do not overlap |
| `LogParser.FindAllComplete` | watcher/watcher.py:27 | every position where the pattern could match lies inside one of the matches `findall` returns |
| `LogParser.KeysAreMaximalWordRuns` | watcher/watcher.py:26-27 | a key found is never preceded by a word character: it is a whole run of word characters |
| `LogParser.PairsIndex` | watcher/watcher.py:27 | with two groups, each tuple `findall` returns is the key group and the value group of the match at the same index |
| `LogParser.ToDictSpec` | watcher/watcher.py:28 | `dict(matches)` has exactly the keys found, each mapped to a value paired with it |
| `LogParser.LastOccurrenceWins` | watcher/watcher.py:28 | a key occurring several times maps to the value of its last occurrence |
| `LogParser.Field` | watcher/watcher.py:28-37 | a `get` with default returns the default or a non-empty value free of `\|` |
| `LogParser.FieldDefault` | watcher/watcher.py:30-37 | a key the scanner never finds takes its default |
| `LogParser.FieldLastWins` | watcher/watcher.py:28-37 | a key the scanner finds takes the value of its last occurrence in the line |
| `LogParser.FindAllRender` | watcher/watcher.py:26-28 | `findall` reads back every well-formed field of a `\|`-separated line, in order |
| `LogParser.RecordFieldsDict` | watcher/watcher.py:28-37 | the dictionary built from a record's `key:value` fields holds `pool` and `status`, and `upstream_status` and `time` exactly when they are non-empty |
| `LogParser.ParseLogLine` | watcher/watcher.py:22-40 | the parser returns `None` exactly when the status passes `isdigit` but has more digits than `int` converts; otherwise its record has a non-empty pool, no field containing `\|`, and a status that renders within the digit limit |
| `LogParser.ParseFormatRoundTrip` | watcher/watcher.py:22-40 | every record the parser can return (its status within the digit limit) is parsed back from its rendering: no field is lost, values may hold spaces and colons, and absent optional fields become `''` |
| `LogParser.NoFieldsDefaults` | watcher/watcher.py:30-37 | any line in which the pattern matches nowhere gives pool `unknown`, status 0, and empty upstream status and time |
| `LogParser.EmptyLineDefaults` | watcher/watcher.py:30-37 | the empty line gives every default |
| `LogParser.LongStatusRejected` | watcher/watcher.py:31-40 | a status of more than 4300 digits passes `isdigit`, makes `int` raise, and the parser returns `None`, whatever the pool |
| `LogParser.StatusWithTrailingSpaceIsZero` | watcher/watcher.py:31-35 | a status value with a trailing space is not all digits, so the status is 0 |
| `LogParser.LaterPoolWins` | watcher/watcher.py:28-30 | with two `pool` fields the later one is the pool |
| `LogParser.ValueRunsToNextBar` | watcher/watcher.py:26-37 | a value runs to the next `\|`, so a `time:` field with no `\|` before it stays inside the pool value and time defaults to `''` |
| `Failover.AlertsAreTransitions` | watcher/watcher.py:71-79 | over non-empty pools, the alerts are the changes between consecutive known pools, with the stored pool as the first, and the stored pool ends as the last known one |
| `Failover.FlapRaisesTwoAlerts` | watcher/watcher.py:71-79 | pools `[a, a, b, b, a]` raise exactly a→b and b→a, and leave a stored |
| `Failover.SteadyPoolIsQuiet` | watcher/watcher.py:71-79 | the same known pool fed any number of times raises nothing and stays stored |
| `Failover.UnknownIsTransparent` | watcher/watcher.py:73-79 | `unknown` pools change neither the alerts nor the stored pool |
| `Failover.SwitchRaisesOneAlert` | watcher/watcher.py:71-79 | the first known pool is stored silently, and a different one then raises one alert |
| `Failover.RepeatedPassRealerts` | watcher/watcher.py:90-96 | a second pass over the same lines raises the changes again, plus one from the last pool back to the first |
| `Failover.SecondPassRealerts` | watcher/watcher.py:90-96 | reading `[a, b]` again with b stored raises b→a and a→b |
| `Watcher.LinePool` | watcher/watcher.py:93-94 | a line passes the `log_data and log_data['pool']` guard exactly when parsing it succeeds, because a parsed pool is never empty; the pool it passes on is non-empty |
| `Watcher.PoolsOf` | watcher/watcher.py:92-94 | the pools of the lines that pass the guard, in order, at most one per line, none of them empty |
| `Watcher.LogWatcher.constructor` | watcher/watcher.py:17-19 | a new watcher holds the given webhook and no stored pool |
| `Watcher.LogWatcher.SlackRequest` | watcher/watcher.py:44-52 | nothing is posted when the webhook is empty or contains `placeholder`; otherwise the webhook gets a payload whose text is the alert prefix followed by the message |
| `Watcher.LogWatcher.SendSlackAlert` | watcher/watcher.py:44-69 | true only when a request is made and answered with status 200; false when skipped, on any other code and on a failed request |
| `Watcher.LogWatcher.DetectFailover` | watcher/watcher.py:71-79 | alerts exactly when a truthy pool is stored, the new pool differs and is not `unknown`, with message `Failover detected! From <old> to <new>`; every pool but `unknown` becomes the stored pool |
| `Watcher.LogWatcher.ProcessLines` | watcher/watcher.py:92-96 | the loop's alerts and final stored pool are those of feeding, in order, the pool of every line that passes the guard; from an unset or non-empty stored pool, the alerts are the changes between consecutive known pools |

## Left out

- File I/O in `process_logs` (watcher/watcher.py:83-91). This covers the existence check, `open`, `readlines` and the fixed path. `ProcessLines` takes the lines of one read as input.
- The `except` around the loop (watcher/watcher.py:97-98). Nothing in the modelled loop raises: the parser catches its own exception, and the `Processed:` message formats a status whose rendering is within the digit limit.
- The polling loop in `run` with `time.sleep(5)` (watcher/watcher.py:100-106). It is unbounded, time-driven scheduling. Its consequence, that each poll re-reads the whole file, is stated by `RepeatedPassRealerts`.
- The HTTP POST, with its headers, the 5-second timeout and the JSON encoding (watcher/watcher.py:54-60). It is a foreign network call. It is the `post` parameter, and an exception is the `RequestFailed` outcome.
- Reading `SLACK_WEBHOOK_URL` from the environment (watcher/watcher.py:18). The webhook is a constructor argument.
- Every log message (watcher/watcher.py:13-14, 20, 45, 62, 65, 68, 75, 87, 95, 98, 102). Logging changes no modelled state. The `Processed:` line (watcher/watcher.py:95) is the only place that reads `status`. `upstream_status` and `timestamp` are parsed and never read.
- `ParseLogLine`: only ASCII is modelled. A non-ASCII character is neither a word character, a digit nor whitespace. Python's Unicode `\w`, `isdigit` and `isspace` accept more. A non-ASCII digit such as `²` passes `isdigit` and then makes `int` raise, That path into the `except` branch (watcher/watcher.py:39-40) is not modelled; the digit limit is the only path into it that is.
- `ParseLogLine`: the `int` digit limit is fixed at CPython's default of 4300 (`IntMaxStrDigits`). It can be changed with `PYTHONINTMAXSTRDIGITS` or `sys.set_int_max_str_digits`, or switched off with 0. Interpreters before 3.11, and before the 3.10.7, 3.9.14, 3.8.14 and 3.7.14 security releases, have no limit, so on them a long status never raises.
- `DetectFailover`: returns the alert message instead of calling `send_slack_alert`. The source ignores that call's result, so the stored pool does not depend on delivery. `SendSlackAlert` models the call on its own.
- `SlackRequest`: the `username` and `icon_emoji` payload entries are carried but not stated in the contract.
