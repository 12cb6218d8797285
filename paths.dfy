/** The two path helpers the downloader uses on POSIX paths: `os.path.basename`
    and `os.path.splitext`, and the `.mp3` rewrite built from the latter. */
module Paths {

  /** `p.rfind(c)`: the index of the last `c` in `p`, or -1 when there is none. */
  function RFind(p: string, c: char): (k: int)
    ensures -1 <= k < |p|
    ensures k >= 0 ==> p[k] == c
    ensures forall j :: k < j < |p| ==> p[j] != c
    decreases |p|
  {
    if p == [] then -1
    else if p[|p| - 1] == c then |p| - 1
    else RFind(p[..|p| - 1], c)
  }

  /** `os.path.basename(p)`: the longest suffix of `p` without a `/`. */
  function Basename(p: string): (b: string)
    ensures |b| <= |p| && p[|p| - |b|..] == b
    ensures forall i :: 0 <= i < |b| ==> b[i] != '/'
    ensures |b| < |p| ==> p[|p| - |b| - 1] == '/'
  {
    p[RFind(p, '/') + 1..]
  }

  /** The final component of `p` holds a character other than `.`: the condition
      under which `splitext` is willing to split off an extension. */
  predicate HasStem(p: string) {
    exists i :: RFind(p, '/') < i < |p| && p[i] != '.'
  }

  /** An extension as `splitext` returns it: empty, or a dot followed by
      characters that are neither `.` nor `/`. */
  predicate IsExtension(e: string) {
    e == "" || (e[0] == '.' && forall i :: 0 < i < |e| ==> e[i] != '.' && e[i] != '/')
  }

  /** `os.path.splitext(p)`: the last `.` starts the extension when it lies in the
      final component and some non-dot character of that component precedes it. */
  function SplitExt(p: string): (r: (string, string))
    ensures r.0 + r.1 == p
    ensures IsExtension(r.1)
    ensures r.1 != "" ==> HasStem(r.0)
  {
    var sep := RFind(p, '/');
    var dot := RFind(p, '.');
    if sep < dot && exists i :: sep < i < dot && p[i] != '.' then
      var root := p[..dot];
      assert RFind(root, '/') == sep by { RFindPrefix(p, dot, '/'); }
      (root, p[dot..])
    else
      (p, "")
  }

  /** The audio rename: the root that `splitext` leaves, followed by `.mp3`. */
  function WithMp3Extension(p: string): (r: string)
    ensures |r| >= 4 && r[|r| - 4..] == ".mp3"
    ensures |r| - 4 <= |p| && r[..|r| - 4] == p[..|r| - 4]
    ensures IsExtension(p[|r| - 4..])
    ensures SplitExt(p).1 == "" ==> r == p + ".mp3"
  {
    var parts := SplitExt(p);
    assert p[..|parts.0|] == parts.0 && p[|parts.0|..] == parts.1;
    parts.0 + ".mp3"
  }

  /** Searching a prefix that still holds the last `c` of the whole gives the same index. */
  lemma RFindPrefix(p: string, n: nat, c: char)
    requires n <= |p|
    requires RFind(p, c) < n
    ensures RFind(p[..n], c) == RFind(p, c)
  {
    RFindUnique(p[..n], c, RFind(p, c));
  }

  /** The three properties in RFind's contract determine its result. */
  lemma RFindUnique(p: string, c: char, k: int)
    requires -1 <= k < |p|
    requires k >= 0 ==> p[k] == c
    requires forall j :: k < j < |p| ==> p[j] != c
    ensures RFind(p, c) == k
  {
  }

  lemma RFindAppend(a: string, b: string, c: char)
    ensures RFind(a + b, c) == if RFind(b, c) >= 0 then |a| + RFind(b, c) else RFind(a, c)
  {
    var p := a + b;
    var k := if RFind(b, c) >= 0 then |a| + RFind(b, c) else RFind(a, c);
    forall j | k < j < |p| ensures p[j] != c {
      if j >= |a| { assert p[j] == b[j - |a|]; }
    }
    RFindUnique(p, c, k);
  }

  /** Splitting a stem joined to a non-empty extension gives the two parts back. */
  lemma SplitExtOfJoin(stem: string, ext: string)
    requires HasStem(stem)
    requires IsExtension(ext) && ext != ""
    ensures SplitExt(stem + ext) == (stem, ext)
  {
    var p := stem + ext;
    RFindUnique(ext, '.', 0);
    RFindUnique(ext, '/', -1);
    RFindAppend(stem, ext, '.');
    RFindAppend(stem, ext, '/');
    var i :| RFind(stem, '/') < i < |stem| && stem[i] != '.';
    assert p[i] != '.';
    assert p[..|stem|] == stem && p[|stem|..] == ext;
  }

  /** A final component with no `.` has no extension. */
  lemma SplitExtWithoutDot(p: string)
    requires RFind(p, '.') < RFind(p, '/') || RFind(p, '.') == -1
    ensures SplitExt(p) == (p, "")
  {
  }

  /** A final component whose only dot leads it has no extension, so the
      whole name is kept and `.mp3` is appended. */
  lemma Mp3AfterLeadingDotName(dir: string, name: string)
    requires forall i :: 0 <= i < |name| ==> name[i] != '.' && name[i] != '/'
    ensures WithMp3Extension(dir + "/." + name) == dir + "/." + name + ".mp3"
  {
    var p := dir + "/." + name;
    RFindUnique(p, '.', |dir| + 1);
    RFindUnique(p, '/', |dir|);
  }

  /** The prepared file name loses its extension, whatever it was, and gains `.mp3`. */
  lemma Mp3ReplacesExtension(stem: string, ext: string)
    requires HasStem(stem)
    requires IsExtension(ext) && ext != ""
    ensures WithMp3Extension(stem + ext) == stem + ".mp3"
  {
    SplitExtOfJoin(stem, ext);
  }

  /** Once the final component has a stem, renaming to `.mp3` a second time changes nothing. */
  lemma Mp3Idempotent(p: string)
    requires HasStem(p)
    ensures WithMp3Extension(WithMp3Extension(p)) == WithMp3Extension(p)
  {
    var root := SplitExt(p).0;
    assert HasStem(root);
    SplitExtOfJoin(root, ".mp3");
  }

  /** The `.mp3` suffix is still there after `basename`. */
  lemma BasenameKeepsSuffix(p: string, suffix: string)
    requires forall i :: 0 <= i < |suffix| ==> suffix[i] != '/'
    ensures Basename(p + suffix) == Basename(p) + suffix
  {
    RFindUnique(suffix, '/', -1);
    RFindAppend(p, suffix, '/');
    assert (p + suffix)[RFind(p, '/') + 1..] == p[RFind(p, '/') + 1..] + suffix;
  }
}
