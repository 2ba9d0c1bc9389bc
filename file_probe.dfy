/**
 * The filesystem probes of one project directory: the shallow suffix counts
 * over `os.listdir` and `get_last_modified` over an `os.walk`.
 */
module FileProbe {
  import opened Wrappers
  import opened Text

  /** `[f for f in os.listdir(d) if f.endswith(suffix)]`, in listing order. */
  function MatchingEntries(names: seq<string>, suffix: string): (r: seq<string>)
    ensures |r| <= |names|
    ensures forall x :: x in r <==> x in names && EndsWith(x, suffix)
    decreases |names|
  {
    if names == [] then []
    else
      var n := |names| - 1;
      assert names == names[..n] + [names[n]];
      var init := MatchingEntries(names[..n], suffix);
      if EndsWith(names[n], suffix) then init + [names[n]] else init
  }

  /** Positions of the listing whose name ends with the suffix. */
  ghost function MatchingPositions(names: seq<string>, suffix: string): set<int>
  {
    set k | 0 <= k < |names| && EndsWith(names[k], suffix)
  }

  /** Adding one entry to the listing adds its position when it matches. */
  lemma MatchingPositionsStep(names: seq<string>, suffix: string)
    requires names != []
    ensures |MatchingPositions(names, suffix)|
      == |MatchingPositions(names[..|names| - 1], suffix)| + (if EndsWith(names[|names| - 1], suffix) then 1 else 0)
  {
    var n := |names| - 1;
    var init := names[..n];
    var before := MatchingPositions(init, suffix);
    var after := MatchingPositions(names, suffix);
    var last := EndsWith(names[n], suffix);
    forall k
      ensures k in after <==> k in before || (k == n && last)
    {
      if 0 <= k < n {
        assert init[k] == names[k];
      }
    }
    assert n !in before;
    if last {
      assert after == before + {n};
    } else {
      assert after == before;
    }
  }

  /**
   * The count is the number of immediate directory entries whose name ends with
   * the suffix, one per entry (no recursion into subdirectories happens: only
   * the one listing is consulted).
   */
  lemma {:induction false} MatchingCount(names: seq<string>, suffix: string)
    ensures |MatchingEntries(names, suffix)| == |MatchingPositions(names, suffix)|
    decreases |names|
  {
    if names != [] {
      MatchingCount(names[..|names| - 1], suffix);
      MatchingPositionsStep(names, suffix);
    }
  }

  /** `os.path.join(root, name)` for two arguments (POSIX rules). */
  function PathJoin(root: string, name: string): (path: string)
    ensures EndsWith(path, name)
    ensures StartsWith(name, "/") ==> path == name
    ensures !StartsWith(name, "/") ==> StartsWith(path, root)
  {
    if StartsWith(name, "/") then name
    else if root == [] || EndsWith(root, "/") then root + name
    else root + "/" + name
  }

  /**
   * One file reported by `os.walk`: the directory it was found in, its name,
   * and what `os.path.getmtime` gives for it (`None` when that call raises),
   * in whole seconds.
   */
  datatype WalkEntry = WalkEntry(root: string, name: string, mtime: Option<int>)

  function PathOf(e: WalkEntry): string
  {
    PathJoin(e.root, e.name)
  }

  /** `any(file.endswith(ext) for ext in extensions)`. */
  predicate HasExtension(name: string, extensions: seq<string>)
  {
    exists ext :: ext in extensions && EndsWith(name, ext)
  }

  /** The value `get_last_modified` returns: the path with the directory removed, and the mtime. */
  datatype Modified = Modified(file: string, time: int)

  /** The loop variables `latest_time` and `latest_file`. */
  datatype Scan = Scan(latestTime: int, latestFile: Option<string>)

  /**
   * The loop of `get_last_modified` run over `walk`: starting from
   * `latest_time = 0`, a matching file replaces the current one only when its
   * mtime is strictly greater.  `None` means `getmtime` raised on a matching
   * file, which abandons the loop.
   */
  function ScanWalk(walk: seq<WalkEntry>, extensions: seq<string>): (r: Option<Scan>)
    ensures r.Some? ==> r.value.latestTime >= 0
    ensures r.Some? ==> (r.value.latestFile.None? <==> r.value.latestTime == 0)
    decreases |walk|
  {
    if walk == [] then Some(Scan(0, None))
    else
      var e := walk[|walk| - 1];
      match ScanWalk(walk[..|walk| - 1], extensions)
      case None => None
      case Some(acc) =>
        if !HasExtension(e.name, extensions) then Some(acc)
        else
          match e.mtime
          case None => None
          case Some(t) => if t > acc.latestTime then Some(Scan(t, Some(PathOf(e)))) else Some(acc)
  }

  /**
   * `get_last_modified(directory, extensions)`: nothing when the loop raised or
   * found no file (`if latest_file:` also rejects an empty path), otherwise the
   * path with every occurrence of `directory` removed.
   */
  function LastModifiedOf(directory: string, extensions: seq<string>, walk: seq<WalkEntry>): (r: Option<Modified>)
    ensures r.Some? ==> r.value.time > 0
  {
    match ScanWalk(walk, extensions)
    case Some(Scan(t, Some(file))) => if file != [] then Some(Modified(RemoveAll(file, directory), t)) else None
    case _ => None
  }

  /** Entry `k` is a matching file whose mtime could be read. */
  ghost predicate Stamped(walk: seq<WalkEntry>, extensions: seq<string>, k: int)
  {
    0 <= k < |walk| && HasExtension(walk[k].name, extensions) && walk[k].mtime.Some?
  }

  /** Some matching file's `getmtime` raised. */
  ghost predicate StatFails(walk: seq<WalkEntry>, extensions: seq<string>)
  {
    exists k :: 0 <= k < |walk| && HasExtension(walk[k].name, extensions) && walk[k].mtime.None?
  }

  /**
   * Entry `k` is the file the dashboard reports: positive mtime, no matching file
   * newer, and every earlier matching file strictly older (first in walk order
   * wins a tie).
   */
  ghost predicate IsNewest(walk: seq<WalkEntry>, extensions: seq<string>, k: int)
  {
    && Stamped(walk, extensions, k)
    && walk[k].mtime.value > 0
    && (forall j :: Stamped(walk, extensions, j) ==> walk[j].mtime.value <= walk[k].mtime.value)
    && (forall j :: Stamped(walk, extensions, j) && j < k ==> walk[j].mtime.value < walk[k].mtime.value)
  }

  /** The loop raises exactly when some matching file cannot be stat'ed. */
  lemma {:induction false} ScanFailsIffStatFails(walk: seq<WalkEntry>, extensions: seq<string>)
    ensures ScanWalk(walk, extensions).None? <==> StatFails(walk, extensions)
    decreases |walk|
  {
    if walk != [] {
      var n := |walk| - 1;
      var init := walk[..n];
      ScanFailsIffStatFails(init, extensions);
      assert forall k :: 0 <= k < n ==> init[k] == walk[k];
      if StatFails(walk, extensions) {
        var k :| 0 <= k < |walk| && HasExtension(walk[k].name, extensions) && walk[k].mtime.None?;
        if k < n {
          assert init[k] == walk[k];
        }
      }
    }
  }

  /** Entries before `n` are stamped in the prefix exactly when they are stamped in the whole walk. */
  lemma StampedPrefix(walk: seq<WalkEntry>, extensions: seq<string>, n: int)
    requires 0 <= n <= |walk|
    ensures forall j :: 0 <= j < n ==> walk[..n][j] == walk[j]
    ensures forall j :: 0 <= j < n ==> (Stamped(walk[..n], extensions, j) <==> Stamped(walk, extensions, j))
  {
  }

  /** A newest file of the prefix stays newest when the next entry is not newer. */
  lemma NewestKept(walk: seq<WalkEntry>, extensions: seq<string>, k: int)
    requires walk != [] && IsNewest(walk[..|walk| - 1], extensions, k)
    requires Stamped(walk, extensions, |walk| - 1) ==> walk[|walk| - 1].mtime.value <= walk[k].mtime.value
    ensures IsNewest(walk, extensions, k)
  {
    StampedPrefix(walk, extensions, |walk| - 1);
  }

  /** The next entry becomes the newest when it beats every earlier matching file. */
  lemma NewestReplaced(walk: seq<WalkEntry>, init: seq<WalkEntry>, extensions: seq<string>, bound: int)
    requires walk != [] && init == walk[..|walk| - 1] && Stamped(walk, extensions, |walk| - 1)
    requires 0 <= bound < walk[|walk| - 1].mtime.value
    requires forall j :: Stamped(init, extensions, j) ==> init[j].mtime.value <= bound
    ensures IsNewest(walk, extensions, |walk| - 1)
  {
    StampedPrefix(walk, extensions, |walk| - 1);
  }

  /** The loop variables after the walk hold the newest matching file, or nothing. */
  lemma {:induction false} ScanFindsNewest(walk: seq<WalkEntry>, extensions: seq<string>)
    requires ScanWalk(walk, extensions).Some?
    ensures var s := ScanWalk(walk, extensions).value;
      s.latestFile.None? ==>
        s.latestTime == 0 && forall j :: Stamped(walk, extensions, j) ==> walk[j].mtime.value <= 0
    ensures var s := ScanWalk(walk, extensions).value;
      s.latestFile.Some? ==>
        exists k :: IsNewest(walk, extensions, k) && s.latestFile.value == PathOf(walk[k]) && s.latestTime == walk[k].mtime.value
    decreases |walk|
  {
    if walk != [] {
      var n := |walk| - 1;
      var init := walk[..n];
      var e := walk[n];
      assert ScanWalk(init, extensions).Some?;
      ScanFindsNewest(init, extensions);
      var acc := ScanWalk(init, extensions).value;
      StampedPrefix(walk, extensions, n);
      var wins := HasExtension(e.name, extensions) && e.mtime.Some? && e.mtime.value > acc.latestTime;
      if acc.latestFile.Some? {
        var k :| IsNewest(init, extensions, k) && acc.latestFile.value == PathOf(init[k]) && acc.latestTime == init[k].mtime.value;
        if wins {
          NewestReplaced(walk, init, extensions, acc.latestTime);
          assert IsNewest(walk, extensions, n) && ScanWalk(walk, extensions).value == Scan(e.mtime.value, Some(PathOf(walk[n])));
        } else {
          NewestKept(walk, extensions, k);
          assert ScanWalk(walk, extensions).value == acc && PathOf(init[k]) == PathOf(walk[k]);
        }
      } else if wins {
        NewestReplaced(walk, init, extensions, 0);
        assert IsNewest(walk, extensions, n) && ScanWalk(walk, extensions).value == Scan(e.mtime.value, Some(PathOf(walk[n])));
      } else {
        assert ScanWalk(walk, extensions).value == acc;
      }
    }
  }

  /**
   * What `get_last_modified` promises: a reported file is the newest matching
   * file (strictly greatest mtime, first in walk order on a tie), with the
   * directory string removed from its path; any failing `getmtime` on a
   * matching file yields nothing.
   */
  lemma LastModifiedIsNewest(directory: string, extensions: seq<string>, walk: seq<WalkEntry>)
    ensures StatFails(walk, extensions) ==> LastModifiedOf(directory, extensions, walk) == None
    ensures LastModifiedOf(directory, extensions, walk).Some? ==>
      exists k :: IsNewest(walk, extensions, k)
        && LastModifiedOf(directory, extensions, walk).value == Modified(RemoveAll(PathOf(walk[k]), directory), walk[k].mtime.value)
  {
    ScanFailsIffStatFails(walk, extensions);
    if ScanWalk(walk, extensions).Some? {
      ScanFindsNewest(walk, extensions);
    }
  }

  /**
   * When every matching file can be stat'ed (and file names are non-empty, as
   * `os.walk` guarantees), a file is reported exactly when some matching file
   * has a positive mtime.
   */
  lemma LastModifiedPresent(directory: string, extensions: seq<string>, walk: seq<WalkEntry>)
    requires !StatFails(walk, extensions)
    requires forall j :: 0 <= j < |walk| ==> walk[j].name != []
    ensures LastModifiedOf(directory, extensions, walk).Some? <==>
      exists k :: Stamped(walk, extensions, k) && walk[k].mtime.value > 0
  {
    ScanFailsIffStatFails(walk, extensions);
    ScanFindsNewest(walk, extensions);
    var s := ScanWalk(walk, extensions).value;
    if s.latestFile.Some? {
      var k :| IsNewest(walk, extensions, k) && s.latestFile.value == PathOf(walk[k]) && s.latestTime == walk[k].mtime.value;
      assert |PathOf(walk[k])| >= |walk[k].name| > 0;
    }
  }

  /** The loop of `get_last_modified`, updating `latest_time` and `latest_file` step by step. */
  method GetLastModified(directory: string, extensions: seq<string>, walk: seq<WalkEntry>) returns (r: Option<Modified>)
    ensures r == LastModifiedOf(directory, extensions, walk)
  {
    var latestTime := 0;
    var latestFile: Option<string> := None;
    var i := 0;
    while i < |walk|
      invariant 0 <= i <= |walk|
      invariant ScanWalk(walk[..i], extensions) == Some(Scan(latestTime, latestFile))
    {
      var e := walk[i];
      assert walk[..i + 1][..i] == walk[..i];
      if HasExtension(e.name, extensions) {
        var filepath := PathJoin(e.root, e.name);
        match e.mtime {
          case None =>
            // getmtime raised: the exception is swallowed and None returned
            ScanFailsIffStatFails(walk[..i + 1], extensions);
            assert walk[..i + 1][i] == walk[i];
            ScanFailsIffStatFails(walk, extensions);
            return None;
          case Some(mtime) =>
            if mtime > latestTime {
              latestTime := mtime;
              latestFile := Some(filepath);
            }
        }
      }
      i := i + 1;
    }
    assert walk[..|walk|] == walk;
    if latestFile.Some? && latestFile.value != [] {
      r := Some(Modified(RemoveAll(latestFile.value, directory), latestTime));
    } else {
      r := None;
    }
  }
}
