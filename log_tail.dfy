/**
 * `get_terminal_logs`: the last 50 lines of every `.log` file in the log
 * directory, keyed by file name.  The directory listing and the file reads
 * are inputs; a failed read is an explicit value.
 */
module LogTail {
  import opened Wrappers
  import opened Text

  /** Lines kept from the end of each log file. */
  const MAX_LOG_LINES := 50
  const LOG_SUFFIX := ".log"
  const READ_ERROR_PREFIX := "Error reading log: "

  /** What `open(path).readlines()` gave: the lines, or the message of the exception. */
  datatype FileRead = Lines(lines: seq<string>) | ReadError(message: string)

  /** One entry of `os.listdir` together with what reading it would give. */
  datatype LogFile = LogFile(name: string, content: FileRead)

  /**
   * The log directory: absent (`os.path.exists` is false), present but not
   * listable (`os.listdir` raises), or listed in `os.listdir` order.
   */
  datatype LogDir = Missing | Unlistable(message: string) | Listed(entries: seq<LogFile>)

  /** `lines[-50:] if len(lines) > 50 else lines`. */
  function Tail(lines: seq<string>): (r: seq<string>)
    ensures |r| == if |lines| > MAX_LOG_LINES then MAX_LOG_LINES else |lines|
    ensures r == lines[|lines| - |r|..]
  {
    if |lines| > MAX_LOG_LINES then lines[|lines| - MAX_LOG_LINES..] else lines
  }

  /** The value stored for one log file: its tail, or one synthetic error line. */
  function Excerpt(content: FileRead): (r: seq<string>)
    ensures |r| <= MAX_LOG_LINES
    ensures content.Lines? ==> |r| <= |content.lines| && r == content.lines[|content.lines| - |r|..]
    ensures content.Lines? && |content.lines| <= MAX_LOG_LINES ==> r == content.lines
    ensures content.ReadError? ==> r == [READ_ERROR_PREFIX + content.message]
  {
    match content
    case Lines(lines) => Tail(lines)
    case ReadError(message) => [READ_ERROR_PREFIX + message]
  }

  predicate IsLogName(name: string)
  {
    EndsWith(name, LOG_SUFFIX)
  }

  /**
   * The `logs` dictionary after the loop has visited `entries` in order: each
   * `.log` name is (re)assigned its excerpt, other names are skipped.
   */
  function LogsOf(entries: seq<LogFile>): (logs: map<string, seq<string>>)
    ensures forall name :: name in logs ==> IsLogName(name) && |logs[name]| <= MAX_LOG_LINES
    decreases |entries|
  {
    if entries == [] then map[]
    else
      var last := entries[|entries| - 1];
      var logs := LogsOf(entries[..|entries| - 1]);
      if IsLogName(last.name) then logs[last.name := Excerpt(last.content)] else logs
  }

  /** `get_terminal_logs()`; `Failure` is the exception that escapes it. */
  function TerminalLogsOf(dir: LogDir): (r: Result<map<string, seq<string>>, string>)
    ensures r.Failure? <==> dir.Unlistable?
    ensures r.Success? ==> forall name :: name in r.value ==> IsLogName(name) && |r.value[name]| <= MAX_LOG_LINES
  {
    match dir
    case Missing => Success(map[])
    case Unlistable(message) => Failure(message)
    case Listed(entries) => Success(LogsOf(entries))
  }

  /** The set of `.log` names among the entries. */
  ghost function LogNames(entries: seq<LogFile>): set<string>
  {
    set k | 0 <= k < |entries| && IsLogName(entries[k].name) :: entries[k].name
  }

  /** Entry `k` is the last one in the listing that carries its name. */
  ghost predicate LastWithName(entries: seq<LogFile>, k: int)
  {
    0 <= k < |entries| && forall j :: k < j < |entries| ==> entries[j].name != entries[k].name
  }

  /** Exactly the `.log` names become keys; no other name does. */
  lemma {:induction false} LogsOfKeys(entries: seq<LogFile>)
    ensures LogsOf(entries).Keys == LogNames(entries)
    decreases |entries|
  {
    if entries != [] {
      var n := |entries| - 1;
      var init := entries[..n];
      LogsOfKeys(init);
      assert forall k :: 0 <= k < n ==> init[k] == entries[k];
      if IsLogName(entries[n].name) {
        assert LogNames(entries) == LogNames(init) + {entries[n].name};
      } else {
        assert LogNames(entries) == LogNames(init);
      }
    }
  }

  /**
   * The value under a `.log` name is the excerpt of the last listing entry with
   * that name (a later assignment to the same key replaces an earlier one).
   */
  lemma {:induction false} LogsOfLastWins(entries: seq<LogFile>, k: int)
    requires LastWithName(entries, k) && IsLogName(entries[k].name)
    ensures entries[k].name in LogsOf(entries)
    ensures LogsOf(entries)[entries[k].name] == Excerpt(entries[k].content)
    decreases |entries|
  {
    var n := |entries| - 1;
    if k < n {
      var init := entries[..n];
      assert init[k] == entries[k];
      assert LastWithName(init, k);
      LogsOfLastWins(init, k);
    }
  }

  /**
   * What the dashboard promises of each log entry: a file that could be read
   * gives a suffix of its lines of length min(50, line count), the whole file in
   * order when it is short; an unreadable file still has its key, with exactly
   * one error line.
   */
  lemma LogEntryShape(entries: seq<LogFile>, k: int)
    requires LastWithName(entries, k) && IsLogName(entries[k].name)
    ensures entries[k].name in LogsOf(entries)
    ensures var v := LogsOf(entries)[entries[k].name];
      match entries[k].content
      case Lines(lines) =>
        |v| == (if |lines| > MAX_LOG_LINES then MAX_LOG_LINES else |lines|)
        && v == lines[|lines| - |v|..]
        && (|lines| <= MAX_LOG_LINES ==> v == lines)
      case ReadError(message) => v == [READ_ERROR_PREFIX + message]
  {
    LogsOfLastWins(entries, k);
  }

  /** A missing log directory yields an empty mapping. */
  lemma MissingDirectoryIsEmpty()
    ensures TerminalLogsOf(Missing) == Success(map[])
  {
  }

  /** The loop of `get_terminal_logs`, filling `logs` entry by entry. */
  method GetTerminalLogs(dir: LogDir) returns (r: Result<map<string, seq<string>>, string>)
    ensures r == TerminalLogsOf(dir)
  {
    var logs: map<string, seq<string>> := map[];
    match dir {
      case Missing =>
      case Unlistable(message) =>
        return Failure(message);
      case Listed(entries) =>
        var i := 0;
        while i < |entries|
          invariant 0 <= i <= |entries|
          invariant logs == LogsOf(entries[..i])
        {
          var entry := entries[i];
          assert entries[..i + 1][..i] == entries[..i];
          if IsLogName(entry.name) {
            logs := logs[entry.name := Excerpt(entry.content)];
          }
          i := i + 1;
        }
        assert entries[..|entries|] == entries;
    }
    r := Success(logs);
  }
}
