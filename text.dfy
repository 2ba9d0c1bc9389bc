/**
 * The parts of Python's `str` that the dashboard relies on: `strip()`,
 * `split('\n')`, `endswith`, `in`, `lower()` and `replace(old, "")`.
 */
module Text {

  /** Python's `str.isspace()` for one character: what `strip()` removes. */
  predicate IsSpace(c: char)
  {
    c == ' ' || '\t' <= c <= '\r' || '\U{1c}' <= c <= '\U{1f}'
    || c == '\U{85}' || c == '\U{a0}' || c == '\U{1680}'
    || '\U{2000}' <= c <= '\U{200a}' || c == '\U{2028}' || c == '\U{2029}'
    || c == '\U{202f}' || c == '\U{205f}' || c == '\U{3000}'
  }

  predicate StartsWith(s: string, prefix: string)
  {
    |prefix| <= |s| && s[..|prefix|] == prefix
  }

  /** Python's `s.endswith(suffix)`. */
  predicate EndsWith(s: string, suffix: string)
  {
    |suffix| <= |s| && s[|s| - |suffix|..] == suffix
  }

  /** Python's `sub in s`: some position of `s` starts with `sub`. */
  predicate Contains(s: string, sub: string)
    decreases |s|
  {
    StartsWith(s, sub) || (s != [] && Contains(s[1..], sub))
  }

  /** Number of occurrences of the character `c` in `s`. */
  function CountChar(s: string, c: char): nat
    decreases |s|
  {
    if s == [] then 0 else (if s[0] == c then 1 else 0) + CountChar(s[1..], c)
  }

  /** Where `strip()` starts: the first non-space position at or after `i`. */
  function SkipSpaces(s: string, i: nat): (n: nat)
    requires i <= |s|
    ensures i <= n <= |s|
    ensures forall k :: i <= k < n ==> IsSpace(s[k])
    ensures n == |s| || !IsSpace(s[n])
    decreases |s| - i
  {
    if i < |s| && IsSpace(s[i]) then SkipSpaces(s, i + 1) else i
  }

  /** Where `strip()` ends: `j` moved left past whitespace, but not below `i`. */
  function BackSpaces(s: string, i: nat, j: nat): (n: nat)
    requires i <= j <= |s|
    ensures i <= n <= j
    ensures forall k :: n <= k < j ==> IsSpace(s[k])
    ensures n == i || !IsSpace(s[n - 1])
    decreases j
  {
    if j > i && IsSpace(s[j - 1]) then BackSpaces(s, i, j - 1) else j
  }

  /**
   * `s.strip()`, as CPython computes it: skip whitespace from the left, then
   * from the right down to where the left scan stopped.  The result is empty
   * exactly when `s` is all whitespace.
   */
  function Strip(s: string): (r: string)
    ensures |r| <= |s|
    ensures r == [] <==> forall k :: 0 <= k < |s| ==> IsSpace(s[k])
    ensures r == [] || (!IsSpace(r[0]) && !IsSpace(r[|r| - 1]))
  {
    var i := SkipSpaces(s, 0);
    var j := BackSpaces(s, i, |s|);
    assert i < j ==> s[i..j][0] == s[i] && s[i..j][j - i - 1] == s[j - 1];
    s[i..j]
  }

  /**
   * Where `strip()` cuts: it keeps the slice `s[i..j]`, everything outside the
   * slice is whitespace, and a non-empty slice starts and ends with a
   * non-space character.
   */
  lemma StripSlice(s: string) returns (i: int, j: int)
    ensures 0 <= i <= j <= |s| && Strip(s) == s[i..j]
    ensures forall k :: 0 <= k < i ==> IsSpace(s[k])
    ensures forall k :: j <= k < |s| ==> IsSpace(s[k])
    ensures i < j ==> !IsSpace(s[i]) && !IsSpace(s[j - 1])
  {
    i := SkipSpaces(s, 0);
    j := BackSpaces(s, i, |s|);
  }

  /**
   * `s.split(sep)` with an explicit one-character separator: one segment more
   * than there are separators.
   */
  function Split(s: string, sep: char): (parts: seq<string>)
    ensures |parts| == CountChar(s, sep) + 1
    decreases |s|
  {
    if s == [] then [[]]
    else
      var rest := Split(s[1..], sep);
      if s[0] == sep then [[]] + rest
      else [[s[0]] + rest[0]] + rest[1..]
  }

  /** No segment of `Split` contains the separator. */
  lemma {:induction false} SplitSegmentsFree(s: string, sep: char)
    ensures forall k :: 0 <= k < |Split(s, sep)| ==> sep !in Split(s, sep)[k]
    decreases |s|
  {
    if s != [] {
      SplitSegmentsFree(s[1..], sep);
      var rest := Split(s[1..], sep);
      if s[0] != sep {
        forall k | 0 <= k < |Split(s, sep)|
          ensures sep !in Split(s, sep)[k]
        {
          if k == 0 {
            assert sep !in rest[0];
            assert Split(s, sep)[0] == [s[0]] + rest[0];
          } else {
            assert Split(s, sep)[k] == rest[k];
          }
        }
      } else {
        assert forall k :: 1 <= k < |Split(s, sep)| ==> Split(s, sep)[k] == rest[k - 1];
      }
    }
  }

  /** `sep.join(parts)` for a one-character separator. */
  function Join(parts: seq<string>, sep: char): string
    decreases |parts|
  {
    if parts == [] then []
    else if |parts| == 1 then parts[0]
    else parts[0] + [sep] + Join(parts[1..], sep)
  }

  /** Joining the segments again gives back the split string. */
  lemma {:induction false} JoinSplit(s: string, sep: char)
    ensures Join(Split(s, sep), sep) == s
    decreases |s|
  {
    if s != [] {
      JoinSplit(s[1..], sep);
      var rest := Split(s[1..], sep);
      var parts := Split(s, sep);
      if s[0] == sep {
        assert parts[1..] == rest;
      } else if |rest| > 1 {
        assert parts[1..] == rest[1..];
        assert Join(rest, sep) == rest[0] + [sep] + Join(rest[1..], sep);
      }
    }
  }

  /** Splitting at a separator that joins two strings splits each side on its own. */
  lemma {:induction false} SplitAppend(a: string, b: string, sep: char)
    ensures Split(a + [sep] + b, sep) == Split(a, sep) + Split(b, sep)
    decreases |a|
  {
    if a == [] {
      assert a + [sep] + b == [sep] + b;
      assert ([sep] + b)[1..] == b;
    } else {
      SplitAppend(a[1..], b, sep);
      SplitAppendStep(a, b, sep);
    }
  }

  /** One step of `SplitAppend`: the claim for `a` follows from the claim for `a[1..]`. */
  lemma SplitAppendStep(a: string, b: string, sep: char)
    requires a != []
    requires Split(a[1..] + [sep] + b, sep) == Split(a[1..], sep) + Split(b, sep)
    ensures Split(a + [sep] + b, sep) == Split(a, sep) + Split(b, sep)
  {
    var c, y := a[0], a[1..] + [sep] + b;
    assert a == [c] + a[1..];
    assert a + [sep] + b == [c] + y;
    SplitPrepend(c, a[1..], sep);
    SplitPrepend(c, y, sep);
    PrependSegments(c, sep, Split(a[1..], sep), Split(b, sep), Split(a, sep), Split([c] + y, sep));
  }

  /**
   * The list reasoning behind `SplitAppendStep`: `whole` is what `Split` makes
   * of `c` in front of the segments `front + back`, and `left` what it makes
   * of `c` in front of `front` alone.
   */
  lemma PrependSegments(c: char, sep: char, front: seq<string>, back: seq<string>,
                        left: seq<string>, whole: seq<string>)
    requires front != []
    requires c == sep ==> left == [[]] + front && whole == [[]] + (front + back)
    requires c != sep ==> left == [[c] + front[0]] + front[1..]
                          && whole == [[c] + (front + back)[0]] + (front + back)[1..]
    ensures whole == left + back
  {
    if c != sep {
      assert (front + back)[0] == front[0];
      assert (front + back)[1..] == front[1..] + back;
    } else {
      assert [[]] + (front + back) == ([[]] + front) + back;
    }
  }

  /** How `Split` treats one character put in front. */
  lemma SplitPrepend(c: char, t: string, sep: char)
    ensures c == sep ==> Split([c] + t, sep) == [[]] + Split(t, sep)
    ensures c != sep ==> Split([c] + t, sep) == [[c] + Split(t, sep)[0]] + Split(t, sep)[1..]
  {
    assert ([c] + t)[0] == c && ([c] + t)[1..] == t;
  }

  lemma {:induction false} SplitWithoutSeparator(s: string, sep: char)
    requires sep !in s
    ensures Split(s, sep) == [s]
    decreases |s|
  {
    if s != [] {
      assert s[0] != sep && sep !in s[1..];
      SplitWithoutSeparator(s[1..], sep);
      assert Split(s, sep) == [[s[0]] + s[1..]];
      assert [s[0]] + s[1..] == s;
    }
  }

  /** Splitting a join of separator-free segments gives back the segments. */
  lemma {:induction false} SplitJoin(parts: seq<string>, sep: char)
    requires parts != []
    requires forall k :: 0 <= k < |parts| ==> sep !in parts[k]
    ensures Split(Join(parts, sep), sep) == parts
    decreases |parts|
  {
    if |parts| == 1 {
      SplitWithoutSeparator(parts[0], sep);
    } else {
      SplitJoin(parts[1..], sep);
      SplitWithoutSeparator(parts[0], sep);
      SplitAppend(parts[0], Join(parts[1..], sep), sep);
      assert [parts[0]] + parts[1..] == parts;
    }
  }

  /** Python's `str.lower()` on one character, for the ASCII letters. */
  function LowerChar(c: char): char
  {
    if 'A' <= c <= 'Z' then (c as int - 'A' as int + 'a' as int) as char else c
  }

  /** `s.lower()`: lowers each character in place. */
  function Lower(s: string): (r: string)
    ensures |r| == |s|
    ensures forall k :: 0 <= k < |s| ==> r[k] == LowerChar(s[k])
    decreases |s|
  {
    if s == [] then [] else [LowerChar(s[0])] + Lower(s[1..])
  }

  /**
   * `s.replace(pattern, "")`: scans left to right and deletes every
   * non-overlapping occurrence of `pattern`; an empty pattern changes nothing.
   */
  function RemoveAll(s: string, pattern: string): (r: string)
    ensures |r| <= |s|
    ensures pattern == [] ==> r == s
    ensures !Contains(s, pattern) ==> r == s
    decreases |s|
  {
    if pattern == [] || s == [] then s
    else if StartsWith(s, pattern) then RemoveAll(s[|pattern|..], pattern)
    else [s[0]] + RemoveAll(s[1..], pattern)
  }

  /**
   * The scan goes on after a deletion: when the first occurrence of the
   * pattern starts right after `a`, that copy goes, `a` stays, and the rest is
   * scanned in turn.
   */
  lemma RemoveAllFirst(a: string, pattern: string, b: string)
    requires pattern != []
    requires forall j :: 0 <= j < |a| ==> !StartsWith((a + pattern + b)[j..], pattern)
    ensures RemoveAll(a + pattern + b, pattern) == a + RemoveAll(b, pattern)
  {
    var c := pattern + b;
    assert a + pattern + b == a + c;
    assert StartsWith(c, pattern) && c[|pattern|..] == b;
    RemoveAllBefore(a, pattern, c);
  }

  /** `RemoveAllFirst` with the part from the first occurrence on named `c`. */
  lemma {:induction false} RemoveAllBefore(a: string, pattern: string, c: string)
    requires pattern != [] && StartsWith(c, pattern)
    requires forall j :: 0 <= j < |a| ==> !StartsWith((a + c)[j..], pattern)
    ensures RemoveAll(a + c, pattern) == a + RemoveAll(c[|pattern|..], pattern)
    decreases |a|
  {
    if a == [] {
      assert a + c == c;
    } else {
      var x := a + c;
      ConcatFront(a, c);
      NoMatchShift(a, pattern, c);
      RemoveAllBefore(a[1..], pattern, c);
      assert x[0..] == x;
      RemoveAllSkip(x, pattern);
      ConsAppend(a, RemoveAll(c[|pattern|..], pattern));
    }
  }

  lemma ConsAppend(a: string, r: string)
    requires a != []
    ensures [a[0]] + (a[1..] + r) == a + r
  {
    assert [a[0]] + a[1..] == a;
  }

  lemma ConcatFront(a: string, c: string)
    requires a != []
    ensures (a + c)[0] == a[0] && (a + c)[1..] == a[1..] + c
  {
  }

  /** A front character that starts no copy of the pattern is kept. */
  lemma RemoveAllSkip(x: string, pattern: string)
    requires pattern != [] && x != [] && !StartsWith(x, pattern)
    ensures RemoveAll(x, pattern) == [x[0]] + RemoveAll(x[1..], pattern)
  {
  }

  /** No copy starts inside `a[1..]` when none starts inside `a`. */
  lemma NoMatchShift(a: string, pattern: string, c: string)
    requires a != []
    requires forall j :: 0 <= j < |a| ==> !StartsWith((a + c)[j..], pattern)
    ensures forall j :: 0 <= j < |a[1..]| ==> !StartsWith((a[1..] + c)[j..], pattern)
  {
    forall j | 0 <= j < |a[1..]|
      ensures !StartsWith((a[1..] + c)[j..], pattern)
    {
      assert (a[1..] + c)[j..] == (a + c)[j + 1..];
    }
  }

  /** A string that contains the pattern loses at least one whole copy of it. */
  lemma {:induction false} RemoveAllShrinks(s: string, pattern: string)
    requires pattern != [] && Contains(s, pattern)
    ensures |RemoveAll(s, pattern)| + |pattern| <= |s|
    decreases |s|
  {
    if !StartsWith(s, pattern) {
      RemoveAllShrinks(s[1..], pattern);
    }
  }

  /** `replace` leaves `s` unchanged exactly when the pattern does not occur in it. */
  lemma RemoveAllUnchanged(s: string, pattern: string)
    requires pattern != []
    ensures RemoveAll(s, pattern) == s <==> !Contains(s, pattern)
  {
    if Contains(s, pattern) {
      RemoveAllShrinks(s, pattern);
    }
  }

  /**
   * Removing a directory string from `directory + rest` gives `rest` when the
   * directory string does not occur again inside `rest`.
   */
  lemma RemoveAllLeading(directory: string, rest: string)
    requires directory != [] && !Contains(rest, directory)
    ensures RemoveAll(directory + rest, directory) == rest
  {
    assert StartsWith(directory + rest, directory);
    assert (directory + rest)[|directory|..] == rest;
  }
}
