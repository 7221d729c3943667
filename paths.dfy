/**
 * The part of Node's POSIX `path` module that writeFile relies on:
 * `path.extname`, used to decide whether the source file has an extension.
 *
 * Node's rule: trailing `/` are ignored, the last segment is examined, and
 * the extension runs from the last `.` of that segment to its end, except
 * that no extension is given when that last dot leads the segment
 * (`.gitignore`, while `.a.b` has `.b`) or the segment is `..`.
 */
module Paths {

  /** `c` does not occur in `s` from index `k` on. */
  predicate AbsentFrom(s: string, c: char, k: nat) {
    forall j :: k <= j < |s| ==> s[j] != c
  }

  /** Index of the last occurrence of `c` in `s`, or -1 when there is none. */
  function LastIndexOf(s: string, c: char): (r: int)
    ensures -1 <= r < |s|
    ensures 0 <= r ==> s[r] == c
    ensures AbsentFrom(s, c, r + 1)
    decreases |s|
  {
    if s == [] then -1
    else if s[|s| - 1] == c then |s| - 1
    else LastIndexOf(s[..|s| - 1], c)
  }

  /** The last occurrence is unique: it is the one index holding `c` with none after it. */
  lemma {:induction false} LastIndexOfIs(s: string, c: char, k: int)
    requires -1 <= k < |s|
    requires 0 <= k ==> s[k] == c
    requires AbsentFrom(s, c, k + 1)
    ensures LastIndexOf(s, c) == k
  {
  }

  /** `s` without its trailing `/` characters. */
  function TrimTrailingSlashes(s: string): (r: string)
    ensures |r| <= |s| && r == s[..|r|]
    ensures r == [] || r[|r| - 1] != '/'
    ensures forall i :: |r| <= i < |s| ==> s[i] == '/'
    decreases |s|
  {
    if s != [] && s[|s| - 1] == '/' then TrimTrailingSlashes(s[..|s| - 1]) else s
  }

  /** The last path segment, as `path.basename` without a suffix argument. */
  function LastSegment(p: string): (r: string)
    ensures AbsentFrom(r, '/', 0)
    ensures |r| <= |TrimTrailingSlashes(p)|
    ensures r == TrimTrailingSlashes(p)[|TrimTrailingSlashes(p)| - |r|..]
    ensures |r| == |TrimTrailingSlashes(p)| || TrimTrailingSlashes(p)[|TrimTrailingSlashes(p)| - |r| - 1] == '/'
  {
    var t := TrimTrailingSlashes(p);
    t[LastIndexOf(t, '/') + 1..]
  }

  /** The segment `..`, the parent directory. */
  predicate IsDotDot(seg: string) {
    |seg| == 2 && seg[0] == '.' && seg[1] == '.'
  }

  /** `path.extname(p)` on POSIX. */
  function ExtName(p: string): (r: string)
  {
    var seg := LastSegment(p);
    var d := LastIndexOf(seg, '.');
    if d <= 0 || IsDotDot(seg) then [] else seg[d..]
  }

  /** `path.extname(p)` is not the empty string. */
  predicate HasExtension(p: string) {
    ExtName(p) != []
  }

  /**
   * An extension is a dot followed by no further dot and no `/`, and it ends
   * the last segment of the path.
   */
  lemma {:induction false} ExtNameShape(p: string)
    ensures var r := ExtName(p); r == [] || (r[0] == '.' && AbsentFrom(r, '.', 1) && AbsentFrom(r, '/', 0))
    ensures var r := ExtName(p); var seg := LastSegment(p); |r| <= |seg| && r == seg[|seg| - |r|..]
  {
    var seg := LastSegment(p);
    var d := LastIndexOf(seg, '.');
    if 0 < d && !IsDotDot(seg) {
      assert ExtName(p) == seg[d..];
      SuffixFromLastDot(seg, d);
    } else {
      assert ExtName(p) == [];
      assert seg[|seg|..] == [];
    }
  }

  /** The slice of a segment from its last dot is a dot, then neither dot nor `/`. */
  lemma {:induction false} SuffixFromLastDot(seg: string, d: int)
    requires 0 < d < |seg| && seg[d] == '.'
    requires AbsentFrom(seg, '.', d + 1) && AbsentFrom(seg, '/', 0)
    ensures var r := seg[d..]; r[0] == '.' && AbsentFrom(r, '.', 1) && AbsentFrom(r, '/', 0)
    ensures |seg[d..]| <= |seg| && seg[d..] == seg[|seg| - |seg[d..]|..]
  {
  }

  /**
   * A path has an extension exactly when its last segment holds a dot that
   * does not lead it, and that segment is not `..`.
   */
  lemma {:induction false} HasExtensionIff(p: string)
    ensures HasExtension(p) <==>
      !IsDotDot(LastSegment(p)) && exists i :: 0 < i < |LastSegment(p)| && LastSegment(p)[i] == '.'
  {
    var seg := LastSegment(p);
    var d := LastIndexOf(seg, '.');
    if d > 0 {
      assert seg[d] == '.';
      assert seg[d..] != [];
    }
  }

  /** A segment whose only dot leads it (a dotfile) has no extension. */
  lemma {:induction false} DotfileHasNoExtension(p: string)
    requires 0 < |LastSegment(p)| && LastSegment(p)[0] == '.' && AbsentFrom(LastSegment(p), '.', 1)
    ensures !HasExtension(p)
  {
    HasExtensionIff(p);
  }

  /** A path whose last character is not `/` is its own trimmed form. */
  lemma {:induction false} NoTrailingSlash(p: string)
    requires p != [] && p[|p| - 1] != '/'
    ensures TrimTrailingSlashes(p) == p
  {
  }

  /** A path without `/` is its own last segment. */
  lemma {:induction false} SingleSegment(p: string)
    requires p != [] && AbsentFrom(p, '/', 0)
    ensures LastSegment(p) == p
  {
    NoTrailingSlash(p);
    LastIndexOfIs(p, '/', -1);
  }

  /** For a single segment, the extension runs from its last dot when that dot does not lead. */
  lemma {:induction false} ExtNameOfSegment(p: string, d: nat)
    requires p != [] && AbsentFrom(p, '/', 0)
    requires 0 < d < |p| && p[d] == '.' && AbsentFrom(p, '.', d + 1)
    requires !IsDotDot(p)
    ensures ExtName(p) == p[d..]
  {
    SingleSegment(p);
    LastIndexOfIs(p, '.', d);
  }

  /** The dots in the directory part do not count: `dir.d/README` has none. */
  lemma {:induction false} DirectoryDotsIgnored(p: string)
    requires p == "dir.d/README"
    ensures LastSegment(p) == "README"
    ensures !HasExtension(p)
  {
    NoTrailingSlash(p);
    LastIndexOfIs(p, '/', 5);
    assert LastSegment(p) == p[6..];
    var seg := p[6..];
    assert AbsentFrom(seg, '.', 0);
    LastIndexOfIs(seg, '.', -1);
  }

  /** `file.txt` has the extension `.txt`. */
  lemma {:induction false} ExtNameOfFile(p: string)
    requires p == "file.txt"
    ensures ExtName(p) == ".txt"
  {
    ExtNameOfSegment(p, 4);
    assert p[4..] == ".txt";
  }

  /** Only the last dot counts: `archive.tar.gz` has the extension `.gz`. */
  lemma {:induction false} ExtNameOfDoubleExtension(p: string)
    requires p == "archive.tar.gz"
    ensures ExtName(p) == ".gz"
  {
    ExtNameOfSegment(p, 11);
    assert p[11..] == ".gz";
  }

  /** `LICENSE` has no extension. */
  lemma {:induction false} ExtNameOfBareName(p: string)
    requires p == "LICENSE"
    ensures !HasExtension(p)
  {
    SingleSegment(p);
    LastIndexOfIs(p, '.', -1);
  }

  /** `.gitignore` has no extension. */
  lemma {:induction false} ExtNameOfDotfile(p: string)
    requires p == ".gitignore"
    ensures !HasExtension(p)
  {
    SingleSegment(p);
    DotfileHasNoExtension(p);
  }
}
