/**
 * `get_git_info`: branch, uncommitted-change count and last commit of a
 * working directory.  The `.git` existence check and the three `git` runs are
 * inputs.
 */
module Git {
  import opened Text

  const UNKNOWN_BRANCH := "unknown"
  const NO_COMMITS := "No commits"
  const NO_REPOSITORY := "No git repository"

  /** What `subprocess.run(...)` gave: the finished process, or the exception it raised. */
  datatype CommandResult = Completed(returnCode: int, stdout: string) | Raised(message: string)

  /**
   * Everything `get_git_info` observes: whether `<dir>/.git` exists and the
   * results of `git branch --show-current`, `git status --porcelain` and
   * `git log -1 --oneline`.
   */
  datatype GitOutputs = GitOutputs(hasGitDir: bool, branch: CommandResult, status: CommandResult, log: CommandResult)

  /** The returned dictionary: the three fields, or `{"status": "No git repository"}`. */
  datatype GitStatus = Repository(branch: string, uncommittedChanges: nat, lastCommit: string) | NoRepository

  /**
   * `len(out.strip().split('\n')) if out.strip() else 0`: zero for blank output,
   * otherwise one more than the number of newlines left after stripping.
   */
  function ChangeCount(statusStdout: string): (n: nat)
    ensures n == 0 <==> forall k :: 0 <= k < |statusStdout| ==> IsSpace(statusStdout[k])
    ensures n > 0 ==> n == CountChar(Strip(statusStdout), '\n') + 1
  {
    var stripped := Strip(statusStdout);
    if stripped == [] then 0 else |Split(stripped, '\n')|
  }

  /**
   * `get_git_info(directory)`.  A missing `.git` or a `git` run that raises
   * gives the sentinel; a non-zero exit of the branch or log command gives a
   * placeholder for that field alone; the status exit code is never looked at.
   */
  function GitInfo(g: GitOutputs): (r: GitStatus)
    ensures r.NoRepository? <==> !g.hasGitDir || g.branch.Raised? || g.status.Raised? || g.log.Raised?
    ensures r.Repository? ==> r.branch == (if g.branch.returnCode == 0 then Strip(g.branch.stdout) else UNKNOWN_BRANCH)
    ensures r.Repository? ==> r.lastCommit == (if g.log.returnCode == 0 then Strip(g.log.stdout) else NO_COMMITS)
    ensures r.Repository? ==> r.uncommittedChanges == ChangeCount(g.status.stdout)
  {
    if !g.hasGitDir then NoRepository
    else match (g.branch, g.status, g.log)
      case (Completed(branchCode, branchOut), Completed(_, statusOut), Completed(logCode, logOut)) =>
        Repository(
          if branchCode == 0 then Strip(branchOut) else UNKNOWN_BRANCH,
          ChangeCount(statusOut),
          if logCode == 0 then Strip(logOut) else NO_COMMITS)
      case _ => NoRepository
  }

  /** Occurrences of a character add up over a concatenation. */
  lemma {:induction false} CountCharAppend(a: string, b: string, c: char)
    ensures CountChar(a + b, c) == CountChar(a, c) + CountChar(b, c)
    decreases |a|
  {
    if a == [] {
      assert a + b == b;
    } else {
      CountCharAppend(a[1..], b, c);
      assert (a + b)[1..] == a[1..] + b;
    }
  }

  lemma {:induction false} CountCharAbsent(s: string, c: char)
    requires c !in s
    ensures CountChar(s, c) == 0
    decreases |s|
  {
    if s != [] {
      CountCharAbsent(s[1..], c);
    }
  }

  predicate HasNonBlank(line: string)
  {
    exists p :: 0 <= p < |line| && !IsSpace(line[p])
  }

  /**
   * `git status --porcelain` prints one line per changed path, each ended by a
   * newline.  When every line has a non-blank character, the change count is
   * the number of lines.
   */
  lemma ChangeCountOfPorcelain(entries: seq<string>)
    requires entries != []
    requires forall k :: 0 <= k < |entries| ==> '\n' !in entries[k]
    requires forall k :: 0 <= k < |entries| ==> HasNonBlank(entries[k])
    ensures ChangeCount(Join(entries, '\n') + "\n") == |entries|
  {
    var s := Join(entries, '\n') + "\n";
    var p := StrippedNewlines(entries, s);
    assert !IsSpace(s[p]);
  }

  /** The newlines that survive `strip()` are the ones between the lines. */
  lemma StrippedNewlines(entries: seq<string>, s: string) returns (p: int)
    requires entries != []
    requires forall k :: 0 <= k < |entries| ==> '\n' !in entries[k]
    requires forall k :: 0 <= k < |entries| ==> HasNonBlank(entries[k])
    requires s == Join(entries, '\n') + "\n"
    ensures 0 <= p < |s| && !IsSpace(s[p])
    ensures CountChar(Strip(s), '\n') + 1 == |entries|
  {
    JoinNewlines(entries);
    JoinEnds(entries, '\n');
    p := NonBlankAt(entries[0]);
    var q := NonBlankAt(entries[|entries| - 1]);
    p := KeptNewlines(Join(entries, '\n'), entries[0], entries[|entries| - 1], p, q);
  }

  /** A join of newline-free lines has one newline fewer than it has lines. */
  lemma JoinNewlines(entries: seq<string>)
    requires entries != []
    requires forall k :: 0 <= k < |entries| ==> '\n' !in entries[k]
    ensures CountChar(Join(entries, '\n'), '\n') + 1 == |entries|
  {
    SplitJoin(entries, '\n');
  }

  lemma NonBlankAt(line: string) returns (p: int)
    requires HasNonBlank(line)
    ensures 0 <= p < |line| && !IsSpace(line[p])
  {
    p :| 0 <= p < |line| && !IsSpace(line[p]);
  }

  /**
   * Stripping `body + "\n"`, where `body` starts with the newline-free line
   * `first` and ends with the newline-free line `last`, each holding a
   * non-blank character, removes exactly one newline: the final one.  The
   * non-blank position of `first` is returned as a position of `body + "\n"`.
   */
  lemma KeptNewlines(body: string, first: string, last: string, p: int, q: int) returns (ps: int)
    requires StartsWith(body, first) && '\n' !in first && 0 <= p < |first| && !IsSpace(first[p])
    requires EndsWith(body, last) && '\n' !in last && 0 <= q < |last| && !IsSpace(last[q])
    ensures ps == p && 0 <= ps < |body + "\n"| && !IsSpace((body + "\n")[ps])
    ensures CountChar(Strip(body + "\n"), '\n') == CountChar(body, '\n')
  {
    var s := body + "\n";
    var qs := |body| - |last| + q;
    assert s[p] == first[p] && s[qs] == last[q];
    ps := p;
    var i, j := StripBounds(s, p, qs);
    FrontHasNoNewline(body, first, i);
    BackHasOneNewline(body, last, j);
    CountCharSlices(s, i, j);
    CountCharAppend(body, "\n", '\n');
  }

  lemma FrontHasNoNewline(body: string, first: string, i: int)
    requires StartsWith(body, first) && 0 <= i <= |first| && '\n' !in first
    ensures CountChar((body + "\n")[..i], '\n') == 0
  {
    assert (body + "\n")[..i] == first[..i];
    CountCharAbsent(first[..i], '\n');
  }

  lemma BackHasOneNewline(body: string, last: string, j: int)
    requires EndsWith(body, last) && |body| - |last| <= j <= |body| && '\n' !in last
    ensures CountChar((body + "\n")[j..], '\n') == 1
  {
    var rest := last[j - (|body| - |last|)..];
    assert (body + "\n")[j..] == rest + "\n";
    CountCharAbsent(rest, '\n');
    CountCharAppend(rest, "\n", '\n');
  }

  lemma CountCharSlices(s: string, i: int, j: int)
    requires 0 <= i <= j <= |s|
    ensures CountChar(s, '\n') == CountChar(s[..i], '\n') + CountChar(s[i..j], '\n') + CountChar(s[j..], '\n')
  {
    CountCharAppend(s[..i], s[i..j], '\n');
    CountCharAppend(s[..i] + s[i..j], s[j..], '\n');
    assert s[..i] + s[i..j] + s[j..] == s;
  }

  /**
   * `strip()` keeps an infix `s[i..j]` that starts at or before the first
   * non-blank position `p` and ends after the non-blank position `qs`; when
   * `s` ends in a newline, that newline is always removed.
   */
  lemma StripBounds(s: string, p: int, qs: int) returns (i: int, j: int)
    requires 0 <= p < |s| && !IsSpace(s[p])
    requires 0 <= qs < |s| && !IsSpace(s[qs])
    requires s[|s| - 1] == '\n'
    ensures 0 <= i <= p && i <= qs < j <= |s| - 1
    ensures Strip(s) == s[i..j]
  {
    i, j := StripSlice(s);
    assert IsSpace(s[|s| - 1]);
  }

  /** A join starts with the first segment and ends with the last one. */
  lemma {:induction false} JoinEnds(parts: seq<string>, sep: char)
    requires parts != []
    ensures StartsWith(Join(parts, sep), parts[0])
    ensures EndsWith(Join(parts, sep), parts[|parts| - 1])
    decreases |parts|
  {
    if |parts| > 1 {
      JoinEnds(parts[1..], sep);
      var rest := Join(parts[1..], sep);
      assert Join(parts, sep) == parts[0] + [sep] + rest;
      assert parts[1..][|parts[1..]| - 1] == parts[|parts| - 1];
    }
  }
}
