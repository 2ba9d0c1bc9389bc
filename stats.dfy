/**
 * `get_project_stats`: one snapshot with four independently filled sections
 * (`ios`, `android`, `system`, `terminal_logs`).  Every probe result is an
 * input; each section's dictionary is built by updates, as in the source.
 */
module Stats {
  import opened Wrappers
  import opened Text
  import opened LogTail
  import opened FileProbe
  import opened Git

  const SWIFT := ".swift"
  const KOTLIN := ".kt"
  const JAVA := ".java"
  const CLAUDE := "claude"

  /** The JSON values the snapshot dictionaries hold. */
  datatype Json =
    | JNull
    | JInt(i: int)
    | JReal(x: real)
    | JStr(s: string)
    | JArr(items: seq<Json>)
    | JObj(fields: map<string, Json>)

  /** `os.getloadavg()`: the 1, 5 and 15 minute load averages. */
  datatype LoadAvg = LoadAvg(one: real, five: real, fifteen: real)

  /**
   * What one project section observes: the directory string, its
   * `os.listdir` (or the exception), its `os.walk` and its git outputs.
   */
  datatype ProjectProbe = ProjectProbe(
    directory: string,
    listing: Result<seq<string>, string>,
    walk: seq<WalkEntry>,
    git: GitOutputs)

  /** Everything one call of `get_project_stats` observes. */
  datatype Host = Host(
    now: string,
    logDir: LogDir,
    ios: ProjectProbe,
    android: ProjectProbe,
    ps: CommandResult,
    loadAvg: Result<LoadAvg, string>)

  datatype Snapshot = Snapshot(
    timestamp: string,
    ios: map<string, Json>,
    android: map<string, Json>,
    system: map<string, Json>,
    terminalLogs: map<string, seq<string>>)

  /** `'claude' in line.lower()`. */
  predicate MentionsClaude(line: string)
  {
    Contains(Lower(line), CLAUDE)
  }

  /** `[line for line in lines if 'claude' in line.lower()]`. */
  function ClaudeLines(lines: seq<string>): (r: seq<string>)
    ensures |r| <= |lines|
    ensures forall line :: line in r <==> line in lines && MentionsClaude(line)
    decreases |lines|
  {
    if lines == [] then []
    else (if MentionsClaude(lines[0]) then [lines[0]] else []) + ClaudeLines(lines[1..])
  }

  /** `claude_processes`: the lines of the `ps aux` output that mention claude in any case. */
  function ClaudeProcessCount(psOutput: string): (n: nat)
    ensures n <= CountChar(psOutput, '\n') + 1
  {
    |ClaudeLines(Split(psOutput, '\n'))|
  }

  lemma {:induction false} ClaudeLinesAppend(a: seq<string>, b: seq<string>)
    ensures ClaudeLines(a + b) == ClaudeLines(a) + ClaudeLines(b)
    decreases |a|
  {
    if a == [] {
      assert a + b == b;
    } else {
      var ab := a + b;
      assert ab[0] == a[0] && ab[1..] == a[1..] + b;
      var head := if MentionsClaude(a[0]) then [a[0]] else [];
      assert ClaudeLines(ab) == head + ClaudeLines(a[1..] + b);
      ClaudeLinesAppend(a[1..], b);
      assert ClaudeLines(a) == head + ClaudeLines(a[1..]);
      assert head + (ClaudeLines(a[1..]) + ClaudeLines(b)) == (head + ClaudeLines(a[1..])) + ClaudeLines(b);
    }
  }

  /** The count is taken line by line: two blocks of `ps` output joined by a newline add up. */
  lemma ClaudeCountAppend(a: string, b: string)
    ensures ClaudeProcessCount(a + "\n" + b) == ClaudeProcessCount(a) + ClaudeProcessCount(b)
  {
    SplitAppend(a, b, '\n');
    assert a + "\n" + b == a + ['\n'] + b;
    ClaudeLinesAppend(Split(a, '\n'), Split(b, '\n'));
  }

  /** Positions of the lines that mention claude. */
  ghost function ClaudePositions(lines: seq<string>): set<int>
  {
    set k | 0 <= k < |lines| && MentionsClaude(lines[k])
  }

  /** Adding one line adds its position when it mentions claude. */
  lemma ClaudePositionsStep(lines: seq<string>)
    requires lines != []
    ensures |ClaudePositions(lines)|
      == |ClaudePositions(lines[..|lines| - 1])| + (if MentionsClaude(lines[|lines| - 1]) then 1 else 0)
  {
    var n := |lines| - 1;
    var init := lines[..n];
    var before := ClaudePositions(init);
    var after := ClaudePositions(lines);
    var last := MentionsClaude(lines[n]);
    forall k
      ensures k in after <==> k in before || (k == n && last)
    {
      if 0 <= k < n {
        assert init[k] == lines[k];
      }
    }
    assert n !in before;
    if last {
      assert after == before + {n};
    } else {
      assert after == before;
    }
  }

  /** The filter keeps one copy per matching line: its length is the number of matching positions. */
  lemma {:induction false} ClaudeLinesCount(lines: seq<string>)
    ensures |ClaudeLines(lines)| == |ClaudePositions(lines)|
    decreases |lines|
  {
    if lines != [] {
      var n := |lines| - 1;
      var init := lines[..n];
      assert lines == init + [lines[n]];
      ClaudeLinesAppend(init, [lines[n]]);
      assert [lines[n]][1..] == [];
      ClaudeLinesCount(init);
      ClaudePositionsStep(lines);
    }
  }

  /** The count is the number of lines of the output that mention claude, in any letter case. */
  lemma ClaudeCountOfLines(lines: seq<string>)
    requires lines != []
    requires forall k :: 0 <= k < |lines| ==> '\n' !in lines[k]
    ensures ClaudeProcessCount(Join(lines, '\n')) == |ClaudePositions(lines)|
  {
    SplitJoin(lines, '\n');
    ClaudeLinesCount(lines);
  }

  /** The count of any `ps` output is the number of its `split('\n')` segments that mention claude. */
  lemma ClaudeCountOfOutput(psOutput: string)
    ensures ClaudeProcessCount(psOutput) == |ClaudePositions(Split(psOutput, '\n'))|
  {
    ClaudeLinesCount(Split(psOutput, '\n'));
  }

  /** `{"file": ..., "time": ...}` or `null`; the time is the raw mtime. */
  function ModifiedJson(m: Option<Modified>): Json
  {
    match m
    case None => JNull
    case Some(Modified(file, time)) => JObj(map["file" := JStr(file), "time" := JInt(time)])
  }

  function GitJson(g: GitStatus): (r: Json)
    ensures r.JObj? && "error" !in r.fields
  {
    match g
    case NoRepository => JObj(map["status" := JStr(NO_REPOSITORY)])
    case Repository(branch, changes, lastCommit) =>
      JObj(map["branch" := JStr(branch), "uncommitted_changes" := JInt(changes), "last_commit" := JStr(lastCommit)])
  }

  function LoadJson(l: LoadAvg): Json
  {
    JArr([JReal(l.one), JReal(l.five), JReal(l.fifteen)])
  }

  /**
   * The `ios` section: an unlistable directory leaves only `error`; otherwise
   * the shallow `.swift` count, the newest `.swift` file and the git summary.
   */
  function IosSection(p: ProjectProbe): (r: map<string, Json>)
    ensures "error" in r <==> p.listing.Failure?
    ensures p.listing.Failure? ==> r.Keys == {"error"}
    ensures p.listing.Success? ==> r.Keys == {"swift_files", "last_modified", "git_status"}
    ensures p.listing.Failure? ==> r == map["error" := JStr(p.listing.error)]
    ensures p.listing.Success? ==>
      && r["swift_files"] == JInt(|MatchingPositions(p.listing.value, SWIFT)|)
      && r["last_modified"] == ModifiedJson(LastModifiedOf(p.directory, [SWIFT], p.walk))
      && r["git_status"] == GitJson(GitInfo(p.git))
  {
    match p.listing
    case Failure(e) => map["error" := JStr(e)]
    case Success(names) =>
      MatchingCount(names, SWIFT);
      map[
        "swift_files" := JInt(|MatchingEntries(names, SWIFT)|),
        "last_modified" := ModifiedJson(LastModifiedOf(p.directory, [SWIFT], p.walk)),
        "git_status" := GitJson(GitInfo(p.git))]
  }

  /** The `android` section: as `ios`, with `.kt` and `.java` counted separately. */
  function AndroidSection(p: ProjectProbe): (r: map<string, Json>)
    ensures "error" in r <==> p.listing.Failure?
    ensures p.listing.Failure? ==> r.Keys == {"error"}
    ensures p.listing.Success? ==> r.Keys == {"kotlin_files", "java_files", "last_modified", "git_status"}
    ensures p.listing.Failure? ==> r == map["error" := JStr(p.listing.error)]
    ensures p.listing.Success? ==>
      && r["kotlin_files"] == JInt(|MatchingPositions(p.listing.value, KOTLIN)|)
      && r["java_files"] == JInt(|MatchingPositions(p.listing.value, JAVA)|)
      && r["last_modified"] == ModifiedJson(LastModifiedOf(p.directory, [KOTLIN, JAVA], p.walk))
      && r["git_status"] == GitJson(GitInfo(p.git))
  {
    match p.listing
    case Failure(e) => map["error" := JStr(e)]
    case Success(names) =>
      MatchingCount(names, KOTLIN);
      MatchingCount(names, JAVA);
      map[
        "kotlin_files" := JInt(|MatchingEntries(names, KOTLIN)|),
        "java_files" := JInt(|MatchingEntries(names, JAVA)|),
        "last_modified" := ModifiedJson(LastModifiedOf(p.directory, [KOTLIN, JAVA], p.walk)),
        "git_status" := GitJson(GitInfo(p.git))]
  }

  /**
   * The `system` section.  A failing `ps` leaves only `error`; a failing
   * `getloadavg` comes after the count is stored, so the count stays beside
   * the `error`.
   */
  function SystemSection(ps: CommandResult, load: Result<LoadAvg, string>): (r: map<string, Json>)
    ensures "error" in r <==> ps.Raised? || load.Failure?
    ensures "claude_processes" in r <==> ps.Completed?
    ensures "load_avg" in r <==> ps.Completed? && load.Success?
    ensures ps.Completed? ==> r["claude_processes"] == JInt(ClaudeProcessCount(ps.stdout))
    ensures r.Keys <= {"error", "claude_processes", "load_avg"}
    ensures ps.Raised? ==> r["error"] == JStr(ps.message)
    ensures ps.Completed? && load.Failure? ==> r["error"] == JStr(load.error)
    ensures ps.Completed? && load.Success? ==> r["load_avg"] == LoadJson(load.value)
  {
    match ps
    case Raised(e) => map["error" := JStr(e)]
    case Completed(_, out) =>
      var counted := map["claude_processes" := JInt(ClaudeProcessCount(out))];
      match load
      case Failure(e) => counted["error" := JStr(e)]
      case Success(l) => counted["load_avg" := LoadJson(l)]
  }

  /**
   * `get_project_stats()`.  `get_terminal_logs()` runs while the dictionary is
   * built and outside every `try`, so its exception ends the whole call;
   * otherwise each section depends on its own inputs only.
   */
  function SnapshotOf(h: Host): (r: Result<Snapshot, string>)
    ensures r.Failure? <==> h.logDir.Unlistable?
    ensures r.Success? ==> r.value.timestamp == h.now
    ensures r.Success? ==> TerminalLogsOf(h.logDir) == Success(r.value.terminalLogs)
    ensures r.Success? ==> forall name :: name in r.value.terminalLogs ==> IsLogName(name) && |r.value.terminalLogs[name]| <= MAX_LOG_LINES
  {
    match TerminalLogsOf(h.logDir)
    case Failure(e) => Failure(e)
    case Success(logs) =>
      Success(Snapshot(h.now, IosSection(h.ios), AndroidSection(h.android), SystemSection(h.ps, h.loadAvg), logs))
  }

  /**
   * Failure isolation: changing what one project section observes changes that
   * section and nothing else of the snapshot.
   */
  lemma SectionsIsolated(h: Host, ios: ProjectProbe, android: ProjectProbe, ps: CommandResult, load: Result<LoadAvg, string>)
    requires SnapshotOf(h).Success?
    ensures var s := SnapshotOf(h).value;
      && SnapshotOf(h.(ios := ios)) == Success(s.(ios := IosSection(ios)))
      && SnapshotOf(h.(android := android)) == Success(s.(android := AndroidSection(android)))
      && SnapshotOf(h.(ps := ps, loadAvg := load)) == Success(s.(system := SystemSection(ps, load)))
  {
  }

  /**
   * The project of an unlistable directory is only an error note, while the
   * other sections and the logs are filled as usual.
   */
  lemma MissingProjectIsErrorNote(h: Host, message: string)
    requires SnapshotOf(h).Success?
    ensures var s := SnapshotOf(h.(ios := h.ios.(listing := Failure(message)))).value;
      && s.ios == map["error" := JStr(message)]
      && s.android == SnapshotOf(h).value.android
      && s.system == SnapshotOf(h).value.system
      && s.terminalLogs == SnapshotOf(h).value.terminalLogs
  {
  }

  /** The `ios` section, filled by updates as at lines 49-55. */
  method ProbeIos(p: ProjectProbe) returns (section: map<string, Json>)
    ensures section == IosSection(p)
  {
    section := map[];
    match p.listing {
      case Failure(e) =>
        section := section["error" := JStr(e)];
      case Success(names) =>
        var swiftCount := |MatchingEntries(names, SWIFT)|;
        section := section["swift_files" := JInt(swiftCount)];
        var lastModified := GetLastModified(p.directory, [SWIFT], p.walk);
        section := section["last_modified" := ModifiedJson(lastModified)];
        section := section["git_status" := GitJson(GitInfo(p.git))];
    }
  }

  /** The `android` section, filled by updates as at lines 58-66. */
  method ProbeAndroid(p: ProjectProbe) returns (section: map<string, Json>)
    ensures section == AndroidSection(p)
  {
    section := map[];
    match p.listing {
      case Failure(e) =>
        section := section["error" := JStr(e)];
      case Success(names) =>
        var kotlinCount := |MatchingEntries(names, KOTLIN)|;
        var javaCount := |MatchingEntries(names, JAVA)|;
        section := section["kotlin_files" := JInt(kotlinCount)];
        section := section["java_files" := JInt(javaCount)];
        var lastModified := GetLastModified(p.directory, [KOTLIN, JAVA], p.walk);
        section := section["last_modified" := ModifiedJson(lastModified)];
        section := section["git_status" := GitJson(GitInfo(p.git))];
    }
  }

  /** The `system` section, filled by updates as at lines 69-75. */
  method ProbeSystem(ps: CommandResult, load: Result<LoadAvg, string>) returns (section: map<string, Json>)
    ensures section == SystemSection(ps, load)
  {
    section := map[];
    match ps {
      case Raised(e) =>
        section := section["error" := JStr(e)];
      case Completed(_, out) =>
        section := section["claude_processes" := JInt(ClaudeProcessCount(out))];
        match load {
          case Failure(e) =>
            section := section["error" := JStr(e)];
          case Success(l) =>
            section := section["load_avg" := LoadJson(l)];
        }
    }
  }

  /** `get_project_stats()`, section by section. */
  method GetProjectStats(h: Host) returns (r: Result<Snapshot, string>)
    ensures r == SnapshotOf(h)
  {
    var logs := GetTerminalLogs(h.logDir);
    if logs.Failure? {
      return Failure(logs.error);
    }
    var ios := ProbeIos(h.ios);
    var android := ProbeAndroid(h.android);
    var system := ProbeSystem(h.ps, h.loadAvg);
    r := Success(Snapshot(h.now, ios, android, system, logs.value));
  }
}
