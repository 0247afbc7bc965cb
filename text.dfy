/** Python 2 byte-string operations the pipeline relies on: `str.find`, slicing,
    `str.split` with an explicit separator, `rstrip()`, and cutting a versioned
    gene id at its first '.'. */
module Text {

  const Tab: char := '\t'

  /** ASCII whitespace as Python 2's `str.rstrip()` and `int()` see it. */
  predicate IsSpace(c: char) {
    c == ' ' || c == '\t' || c == '\n' || c == '\r' || c == 11 as char || c == 12 as char
  }

  /** Index of the first `c` in `s`, or -1 (`s.find(c)`). */
  function IndexOf(s: string, c: char): (r: int)
    ensures -1 <= r < |s|
    ensures 0 <= r ==> s[r] == c
  {
    if |s| == 0 then -1
    else if s[0] == c then 0
    else
      var k := IndexOf(s[1..], c);
      if k < 0 then -1 else k + 1
  }

  /** The index found is the first occurrence. */
  lemma {:induction false} IndexOfIsFirst(s: string, c: char)
    ensures forall k :: 0 <= k < IndexOf(s, c) ==> s[k] != c
  {
    if |s| > 0 && s[0] != c {
      IndexOfIsFirst(s[1..], c);
    }
  }

  /** Not found means absent. */
  lemma {:induction false} IndexOfAbsent(s: string, c: char)
    ensures IndexOf(s, c) == -1 <==> c !in s
  {
    if |s| > 0 && s[0] != c {
      IndexOfAbsent(s[1..], c);
      assert s == [s[0]] + s[1..];
    }
  }

  /** `s.find(c, start)` for a non-negative start. */
  function Find(s: string, c: char, start: nat): (r: int)
    ensures r == -1 || start <= r < |s|
    ensures 0 <= r ==> s[r] == c && forall k :: start <= k < r ==> s[k] != c
    ensures r == -1 <==> forall k :: start <= k < |s| ==> s[k] != c
  {
    if start >= |s| then -1
    else
      var k := IndexOf(s[start..], c);
      IndexOfIsFirst(s[start..], c);
      IndexOfAbsent(s[start..], c);
      assert forall j :: start <= j < |s| ==> s[j] == s[start..][j - start];
      if k < 0 then -1 else start + k
  }

  /** `s[lo:hi]` with Python's clamping; `hi` may be negative (counted from the end). */
  function Slice(s: string, lo: nat, hi: int): (r: string)
    ensures forall k :: 0 <= k < |r| ==> lo + k < |s| && r[k] == s[lo + k]
    ensures 0 <= hi <= |s| ==> |r| == if lo < hi then hi - lo else 0
    ensures |s| < hi ==> |r| == if lo < |s| then |s| - lo else 0
    ensures hi < 0 ==> |r| == if lo < |s| + hi then |s| + hi - lo else 0
  {
    var h := if hi < 0 then (if hi + |s| < 0 then 0 else hi + |s|) else (if hi > |s| then |s| else hi);
    if lo < h then s[lo..h] else []
  }

  /** `s.split(sep)`: the pieces between successive separators, empty ones included. */
  function Split(s: string, sep: char): (r: seq<string>)
    ensures |r| >= 1
    ensures forall k :: 0 <= k < |r| ==> sep !in r[k]
    decreases |s|
  {
    var i := IndexOf(s, sep);
    IndexOfIsFirst(s, sep);
    IndexOfAbsent(s, sep);
    if i < 0 then [s]
    else
      assert sep !in s[..i];
      [s[..i]] + Split(s[i + 1..], sep)
  }

  /** `sep.join(parts)`. */
  function Join(parts: seq<string>, sep: char): string
  {
    if |parts| == 0 then []
    else if |parts| == 1 then parts[0]
    else parts[0] + [sep] + Join(parts[1..], sep)
  }

  /** Splitting and re-joining gives the line back. */
  lemma {:induction false} JoinSplit(s: string, sep: char)
    ensures Join(Split(s, sep), sep) == s
    decreases |s|
  {
    var i := IndexOf(s, sep);
    if i >= 0 {
      var head, tail := s[..i], s[i + 1..];
      SplitAt(s, sep, i);
      JoinSplit(tail, sep);
      JoinCons(head, Split(tail, sep), sep);
      CutAt(s, i);
    } else {
      assert Split(s, sep) == [s];
    }
  }

  /** A string is its prefix, the character at `i` and its suffix. */
  lemma CutAt(s: string, i: nat)
    requires i < |s|
    ensures s == s[..i] + [s[i]] + s[i + 1..]
  {
  }

  /** `s.split(sep)` cut at the first separator `i`. */
  lemma SplitAt(s: string, sep: char, i: nat)
    requires i < |s| && IndexOf(s, sep) == i
    ensures Split(s, sep) == [s[..i]] + Split(s[i + 1..], sep)
  {
  }

  /** Joining a piece in front of at least one more. */
  lemma {:induction false} JoinCons(first: string, rest: seq<string>, sep: char)
    requires |rest| >= 1
    ensures Join([first] + rest, sep) == first + [sep] + Join(rest, sep)
  {
    assert ([first] + rest)[1..] == rest;
  }

  /** A join ends with the end of its last piece. */
  lemma {:induction false} JoinLast(parts: seq<string>, sep: char)
    requires |parts| >= 1 && |parts[|parts| - 1]| >= 1
    ensures var j := Join(parts, sep); var last := parts[|parts| - 1];
            |j| >= 1 && j[|j| - 1] == last[|last| - 1]
  {
    if |parts| > 1 {
      JoinLast(parts[1..], sep);
    }
  }

  /** Splitting a join of separator-free pieces gives the pieces back. */
  lemma {:induction false} SplitJoin(parts: seq<string>, sep: char)
    requires |parts| >= 1
    requires forall k :: 0 <= k < |parts| ==> sep !in parts[k]
    ensures Split(Join(parts, sep), sep) == parts
  {
    if |parts| > 1 {
      var s := Join(parts, sep);
      assert s == parts[0] + [sep] + Join(parts[1..], sep);
      IndexOfAfterFree(parts[0], sep, Join(parts[1..], sep));
      assert s[|parts[0]| + 1..] == Join(parts[1..], sep);
      assert s[..|parts[0]|] == parts[0];
      SplitJoin(parts[1..], sep);
    } else {
      IndexOfAbsent(parts[0], sep);
    }
  }

  lemma {:induction false} IndexOfAfterFree(a: string, sep: char, b: string)
    requires sep !in a
    ensures IndexOf(a + [sep] + b, sep) == |a|
  {
    var s := a + [sep] + b;
    if a != [] {
      assert s[1..] == a[1..] + [sep] + b;
      IndexOfAfterFree(a[1..], sep, b);
    }
  }

  /** The first two fields of `s.split(sep)` when `s` has at least two separators. */
  lemma {:induction false} SplitHead(s: string, sep: char)
    requires |Split(s, sep)| >= 2
    ensures var i := IndexOf(s, sep);
            0 <= i && Split(s, sep)[0] == s[..i] && Split(s, sep)[1..] == Split(s[i + 1..], sep)
  {
  }

  /** The number of data lines after skipping `skip` header lines. */
  function DataCount<T>(lines: seq<T>, skip: nat): nat
  {
    if |lines| < skip then 0 else |lines| - skip
  }

  /** The lines after a one-line header. */
  function DataLines(lines: seq<string>): (r: seq<string>)
    ensures |r| == DataCount(lines, 1) && forall k :: 0 <= k < |r| ==> r[k] == lines[k + 1]
  {
    if lines == [] then [] else lines[1..]
  }

  /** `s.rstrip()`: the longest prefix of `s` that does not end in whitespace. */
  function RStrip(s: string): (r: string)
    ensures |r| <= |s| && r == s[..|r|]
    ensures |r| == 0 || !IsSpace(r[|r| - 1])
    ensures forall k :: |r| <= k < |s| ==> IsSpace(s[k])
  {
    if |s| == 0 || !IsSpace(s[|s| - 1]) then s
    else
      var t := RStrip(s[..|s| - 1]);
      assert t == s[..|t|];
      t
  }

  /** The fields of a line after `line.rstrip().split('\t')`. */
  function Fields(line: string): (r: seq<string>)
    ensures |r| >= 1 && forall k :: 0 <= k < |r| ==> Tab !in r[k]
    ensures Join(r, Tab) == RStrip(line)
  {
    JoinSplit(RStrip(line), Tab);
    Split(RStrip(line), Tab)
  }

  /** `vals[4:]` of a split line: the expression columns (none when the line is short). */
  function FeatureFields(line: string): (r: seq<string>)
    ensures var vals := Fields(line);
            (|vals| <= 4 ==> r == []) && (|vals| > 4 ==> r == vals[4..])
  {
    var vals := Fields(line);
    if |vals| <= 4 then [] else vals[4..]
  }

  /** A gene id without its version: cut at the first '.', unchanged if there is none. */
  function StripVersion(id: string): (r: string)
    ensures '.' !in r
    ensures |r| <= |id| && r == id[..|r|]
    ensures '.' !in id ==> r == id
    ensures '.' in id ==> |r| < |id| && id[|r|] == '.'
  {
    IndexOfAbsent(id, '.');
    if '.' in id then IndexOfIsFirst(id, '.'); id[..IndexOf(id, '.')] else id
  }

  /** Stripping twice is stripping once. */
  lemma StripVersionIdempotent(id: string)
    ensures StripVersion(StripVersion(id)) == StripVersion(id)
  {
  }

  /** Two ids that differ only in their version suffix strip to the same gene id. */
  lemma StripVersionIgnoresSuffix(base: string, suffix: string)
    requires '.' !in base
    ensures StripVersion(base + ['.'] + suffix) == base
  {
    var id := base + ['.'] + suffix;
    assert id[|base|] == '.';
    assert id[..|base|] == base;
  }
}
