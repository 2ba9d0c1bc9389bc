# FlexPort progress dashboard: a Dafny model of its probes and routing

This project models the decision logic of `ssh_dashboard.py`, a small HTTP
service that reports on two project directories (iOS and Android), the local
process table and a directory of terminal logs. The filesystem, `git`, `ps` and
the clock are abstracted into plain input values. What remains is modelled and
proved:

- **Log tail** (`LogTail`): `get_terminal_logs` keeps every `.log` entry of the
  log directory and stores the last 50 lines of each one. A file that cannot be
  read gets a single `Error reading log: ...` line. A missing directory gives an
  empty mapping. `GetTerminalLogs` is the loop that fills the dictionary. It is
  proved equal to the fold `LogsOf`, and lemmas give that fold's keys, its
  values (the last listing entry with a name wins) and the 50-line bound.
- **Filesystem probes** (`FileProbe`): the shallow suffix counts over
  `os.listdir`, and `get_last_modified` over the `os.walk` order.
  `GetLastModified` runs the source's loop with `latest_time`/`latest_file`.
  It is proved equal to the fold `ScanWalk`. Lemmas prove what the loop
  computes:
  - the newest matching file wins (strict `>` from 0, so the first file in walk
    order wins a tie and mtimes <= 0 never win);
  - any failing `getmtime` on a matching file yields `None`;
  - the reported `file` is the path with every occurrence of the directory
    string removed, scanning left to right (`RemoveAllFirst`).
- **Git summary** (`Git`): the branch and last commit fall back to `unknown` and
  `No commits`. The change count is `len(out.strip().split('\n'))` for non-blank
  output and 0 otherwise. A missing `.git` or a `git` run that raises gives
  `{"status": "No git repository"}`.
- **Snapshot** (`Stats`): four sections, each built by its own dictionary
  updates, as in the source. `claude_processes` counts the `ps aux` lines that
  contain `claude` in any letter case.
- **Routing** (`Server`): the request path is compared exactly with `/`,
  `/api/stats`, `/api/logs` and `/api/terminal`. Any other path gets 404.
  `/api/logs` always answers `{"logs": "Log functionality coming soon"}`.

Behaviours of the code worth noting:

- `get_terminal_logs` runs outside every `try` (ssh_dashboard.py:45). If the
  log directory exists but cannot be listed, the whole `/api/stats` request
  fails and no response is sent. Failures are not isolated there (`SnapshotOf`,
  `HandleGet`).
- The change count counts newline-separated segments of the stripped output,
  not non-empty lines. For real porcelain output the two agree
  (`ChangeCountOfPorcelain`).
- A `git` run that raises turns the whole git summary into the "No git
  repository" sentinel. Only a non-zero exit of the branch or log command
  degrades a single field. The exit code of `git status` is never read.
- When `os.getloadavg()` raises, the `system` section keeps the
  `claude_processes` count stored before it, next to the `error` key.
- A 404 reply carries `send_error`'s HTML error page, not an empty body.
- `last_modified.file` is `path.replace(directory, "")`. It equals the path
  relative to the directory only when the directory string does not occur again
  inside the rest of the path (`RemoveAllLeading`, `RemoveAllUnchanged`).

Files: `wrappers.dfy` (Option, Result), `text.dfy` (the Python string
operations used), `log_tail.dfy`, `file_probe.dfy`, `git.dfy`, `stats.dfy` and
`server.dfy`.

## Model

| member | source | states |
|---|---|---|
| Text.Strip | ssh_dashboard.py:110 | `strip()` gives the empty string exactly when the input is all whitespace; otherwise the result starts and ends with a non-space character |
| Text.StripSlice | ssh_dashboard.py:110 | `strip()` keeps one slice of the input: everything before and after it is whitespace, and a non-empty slice starts and ends with a non-space character |
| Text.Split | ssh_dashboard.py:115 | `split('\n')` gives one more segment than there are newlines |
| Text.SplitSegmentsFree | ssh_dashboard.py:115 | no segment of `split('\n')` contains a newline |
| Text.JoinSplit | ssh_dashboard.py:115 | joining the segments of `split` with the separator gives back the original string |
| Text.SplitJoin | ssh_dashboard.py:115 | splitting a join of newline-free segments gives back those segments |
| Text.SplitAppend | ssh_dashboard.py:71 | splitting `a + '\n' + b` gives the segments of `a` followed by those of `b` |
| Text.Lower | ssh_dashboard.py:71 | `lower()` keeps the length and lowers each character where it stands |
| Text.RemoveAllUnchanged | ssh_dashboard.py:96 | `replace(directory, "")` leaves a path unchanged exactly when the directory string does not occur in it |
| Text.RemoveAllShrinks | ssh_dashboard.py:96 | when the directory string occurs, at least one whole copy of it is removed |
| Text.RemoveAllLeading | ssh_dashboard.py:96 | `(directory + rest).replace(directory, "")` is `rest` when the directory string does not occur again in `rest` |
| Text.RemoveAllFirst | ssh_dashboard.py:96 | after deleting the first occurrence of the directory string, `replace` keeps what came before it and goes on scanning the rest, so every later occurrence is handled too |
| Text.RemoveAll | ssh_dashboard.py:96 | `replace(directory, "")` never lengthens the path, and leaves it unchanged when the directory string is empty or does not occur in it |
| LogTail.Tail | ssh_dashboard.py:32 | the kept lines are a suffix of the file's lines of length min(50, line count) |
| LogTail.Excerpt | ssh_dashboard.py:28-34 | a readable file gives at most 50 lines, a suffix of its lines and the whole file in order when it has 50 lines or fewer; an unreadable file gives exactly the one line `Error reading log: <message>` |
| LogTail.LogsOf | ssh_dashboard.py:25-34 | after the loop, every key ends in `.log` and no stored value has more than 50 lines |
| LogTail.LogsOfKeys | ssh_dashboard.py:25-26 | the keys are exactly the listed names that end in `.log` |
| LogTail.LogsOfLastWins | ssh_dashboard.py:25-34 | each `.log` name maps to the excerpt of the last listing entry with that name |
| LogTail.LogEntryShape | ssh_dashboard.py:28-34 | every `.log` name has a key, even when its file could not be read, and the value has the shape `Excerpt` states |
| LogTail.MissingDirectoryIsEmpty | ssh_dashboard.py:22-24 | a missing log directory gives an empty mapping |
| LogTail.TerminalLogsOf | ssh_dashboard.py:20-36 | `get_terminal_logs()` raises exactly when the log directory exists but cannot be listed; otherwise every key of its mapping ends in `.log` and holds at most 50 lines |
| LogTail.GetTerminalLogs | ssh_dashboard.py:20-36 | the loop's dictionary equals `LogsOf` of the listing; an unlistable directory's exception escapes |
| FileProbe.MatchingEntries | ssh_dashboard.py:50 | the comprehension keeps exactly the listed names that end with the suffix |
| FileProbe.MatchingCount | ssh_dashboard.py:59-60 | each count equals the number of immediate directory entries whose name ends with the suffix, from one listing with no recursion |
| FileProbe.PathJoin | ssh_dashboard.py:88 | `os.path.join(root, file)` ends with the file name, and starts with `root` unless the name is absolute |
| FileProbe.ScanWalk | ssh_dashboard.py:82-92 | after the `os.walk` loop, `latest_time` is never negative, and `latest_file` is unset exactly when `latest_time` is still 0 |
| FileProbe.ScanFailsIffStatFails | ssh_dashboard.py:85-92 | the loop raises exactly when `getmtime` fails on some matching file |
| FileProbe.ScanFindsNewest | ssh_dashboard.py:82-92 | after the loop, `latest_file` is the path of the newest matching file, with its mtime in `latest_time`; it is unset and the time is 0 when no matching file has a positive mtime |
| FileProbe.LastModifiedIsNewest | ssh_dashboard.py:79-101 | a reported file is the newest matching file (strictly greatest mtime, first in walk order on a tie), with `file` the path with the directory string removed; a failing `getmtime` on a matching file gives `None` |
| FileProbe.LastModifiedPresent | ssh_dashboard.py:90-98 | when every matching file can be stat'ed, a file is reported exactly when some matching file has a positive mtime |
| FileProbe.LastModifiedOf | ssh_dashboard.py:79-101 | a reported last modification always has a positive mtime |
| FileProbe.GetLastModified | ssh_dashboard.py:79-101 | the loop with `latest_time`/`latest_file` returns exactly the value of the `ScanWalk` specification |
| Git.ChangeCount | ssh_dashboard.py:113-115 | the change count is 0 exactly when the status output is blank, and otherwise the number of newlines in the stripped output plus one |
| Git.ChangeCountOfPorcelain | ssh_dashboard.py:113-115 | for porcelain output, meaning non-blank lines each ended by a newline, the change count is the number of lines |
| Git.GitInfo | ssh_dashboard.py:103-129 | the sentinel comes exactly when `.git` is missing or a `git` run raises; otherwise the branch and last commit are the stripped output on exit code 0 and else `unknown` / `No commits`, and the change count ignores the status exit code |
| Stats.ClaudeLines | ssh_dashboard.py:71 | keeps exactly the lines whose lowered text contains `claude` |
| Stats.ClaudeLinesCount | ssh_dashboard.py:71-72 | the comprehension keeps one entry per matching line: its length is the number of positions whose line mentions claude |
| Stats.ClaudeProcessCount | ssh_dashboard.py:70-72 | the count is at most the number of lines of the `ps` output |
| Stats.ClaudeCountAppend | ssh_dashboard.py:71 | the count is additive over blocks of output joined by a newline |
| Stats.ClaudeCountOfLines | ssh_dashboard.py:71-72 | for output made of given newline-free lines, the count is the number of positions whose line mentions claude in any case, so a repeated line counts each time |
| Stats.ClaudeCountOfOutput | ssh_dashboard.py:70-72 | for any `ps` output, `claude_processes` is the number of `split('\n')` segments that contain `claude` in any letter case |
| Stats.GitJson | ssh_dashboard.py:122-129 | the git status is always an object and never carries an `error` key |
| Stats.IosSection | ssh_dashboard.py:48-55 | an unlistable directory gives exactly `{"error": message}`; otherwise the section has exactly `swift_files`, the number of listing positions whose name ends in `.swift`, `last_modified`, the newest `.swift` file from `get_last_modified`, and `git_status`, the `get_git_info` summary |
| Stats.AndroidSection | ssh_dashboard.py:57-66 | an unlistable directory gives exactly `{"error": message}`; otherwise the section has exactly `kotlin_files` and `java_files`, the numbers of listing positions ending in `.kt` and `.java`, `last_modified` over both suffixes, and `git_status` |
| Stats.SystemSection | ssh_dashboard.py:68-75 | the only keys are `error`, `claude_processes` and `load_avg`; `error` appears exactly when `ps` raises or `getloadavg` raises and holds that exception's message; the claude count is kept whenever `ps` ran, even beside an `error`; `load_avg` is the `getloadavg()` triple when both calls succeed |
| Stats.SectionsIsolated | ssh_dashboard.py:40-77 | changing what one section observes changes that section and leaves the rest of the snapshot as it was |
| Stats.MissingProjectIsErrorNote | ssh_dashboard.py:49-55 | an unlistable project directory turns that section into `{"error": message}` while the other sections and the logs are still filled |
| Stats.SnapshotOf | ssh_dashboard.py:38-77 | the snapshot fails exactly when the log directory exists but cannot be listed; otherwise it carries the request's timestamp, and its `terminal_logs` is exactly the mapping `get_terminal_logs()` returns, so every key ends in `.log` and holds at most 50 lines |
| Stats.ProbeIos | ssh_dashboard.py:49-55 | the updates to the `ios` dictionary produce `IosSection` |
| Stats.ProbeAndroid | ssh_dashboard.py:58-66 | the updates to the `android` dictionary produce `AndroidSection` |
| Stats.ProbeSystem | ssh_dashboard.py:69-75 | the updates to the `system` dictionary produce `SystemSection` |
| Stats.GetProjectStats | ssh_dashboard.py:38-77 | the snapshot built section by section equals `SnapshotOf`; only the log directory's exception aborts it |
| Server.PathOf | ssh_dashboard.py:133-139 | every served path starts with `/` and contains no `?` |
| Server.Dispatch | ssh_dashboard.py:132-142 | a path is served exactly when it is one of the four route paths `/`, `/api/stats`, `/api/logs` and `/api/terminal`, and then the route it selects is the one whose own path it is; every other path gets 404 |
| Server.DispatchPathOf | ssh_dashboard.py:132-140 | each route's own path dispatches to that route |
| Server.QueryNotServed | ssh_dashboard.py:132-142 | a path with a query string gets 404 |
| Server.HandleGet | ssh_dashboard.py:132-142 | 404 exactly for unrouted paths; `/` serves the page; `/api/logs` serves the fixed placeholder; `/api/stats` and `/api/terminal` serve a fresh snapshot or log map, or no response when its exception escapes |

## Left out

- The HTTP transport (ssh_dashboard.py:286-317): sockets, headers, `wfile.write`, `serve_forever` and the startup messages. A reply is a value; an exception escaping `do_GET` is the `Dropped` reply.
- The embedded dashboard page and its script (ssh_dashboard.py:145-285), including the 20-line client-side slice, `escapeHtml` and the 30-second refresh. This code runs in the browser, not in Python.
- `subprocess.run` for `ps` and `git`, `os.listdir`, `os.walk`, `os.path.getmtime`, `os.path.exists`, `open`/`readlines`, `os.getloadavg` and `datetime.now`. These are inputs: a command result or its exception, a listing or its exception, the walk order, an mtime or a stat failure, the file's lines or a read error, the load triple and the timestamp string.
- Modification times are whole seconds (`int`) instead of floats. The `time` field carries the raw mtime: `datetime.fromtimestamp(...).isoformat()` is not modelled, nor is the `None` that a timestamp out of its range would cause.
- `json.dumps` and dictionary key order: sections are maps.
- The Android counts use one listing for both `os.listdir` calls (ssh_dashboard.py:59-60). A directory that changes between the two calls is not modelled.
- Text mode line splitting and decoding inside `readlines` and `subprocess`: file contents and outputs are given as strings and lines.
- Text.Lower: lowers ASCII letters only, not Python's full Unicode case mapping. This cannot change the `claude` test, because in Unicode's case mappings only the ASCII capitals lower to the letters of `claude`.
- The hard-coded directory constants (ssh_dashboard.py:15-18) are the `directory` field of each project's probe. The unused `threading` import is dropped.
- Concurrency: each request is handled on its own, and no state is shared between requests.
