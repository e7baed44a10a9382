/** The three `os.path` functions the importer builds paths with, in their
    POSIX form: `join`, `split` and `splitext`. */
module Paths {
  import opened Common

  /** Index of the last `c` in `p`, or -1 (Python's `str.rfind`). */
  function LastIndex(p: string, c: char): (r: int)
    ensures -1 <= r < |p|
    ensures r >= 0 ==> p[r] == c
    ensures forall j :: r < j < |p| ==> p[j] != c
    decreases |p|
  {
    if |p| == 0 then -1
    else if p[|p| - 1] == c then |p| - 1
    else LastIndex(p[..|p| - 1], c)
  }

  /** `LastIndex` is the only index with its two defining properties. */
  lemma LastIndexIs(p: string, c: char, k: int)
    requires -1 <= k < |p|
    requires k >= 0 ==> p[k] == c
    requires forall j :: k < j < |p| ==> p[j] != c
    ensures LastIndex(p, c) == k
  {
  }

  /** `os.path.join(a, b)`: an absolute `b` discards `a`; otherwise a single
      `/` is inserted unless `a` is empty or already ends with one. */
  function Join(a: string, b: string): string
  {
    if |b| > 0 && b[0] == '/' then b
    else if |a| == 0 || a[|a| - 1] == '/' then a + b
    else a + "/" + b
  }

  /** `os.path.join(*parts)` for a non-empty argument list. */
  function JoinAll(parts: seq<string>): string
    requires |parts| >= 1
    decreases |parts|
  {
    if |parts| == 1 then parts[0]
    else Join(JoinAll(parts[..|parts| - 1]), parts[|parts| - 1])
  }

  predicate AllSlashes(s: string) {
    forall i :: 0 <= i < |s| ==> s[i] == '/'
  }

  function RStripSlashes(s: string): (r: string)
    ensures |r| <= |s| && r == s[..|r|]
    ensures |r| == 0 || r[|r| - 1] != '/'
    ensures (forall i :: |r| <= i < |s| ==> s[i] == '/')
    decreases |s|
  {
    if |s| > 0 && s[|s| - 1] == '/' then RStripSlashes(s[..|s| - 1]) else s
  }

  /** A directory part as `Split` returns it: empty, only slashes, or not
      ending with a slash. */
  predicate NormalHead(h: string) {
    AllSlashes(h) || h[|h| - 1] != '/'
  }

  /** `os.path.split(p)`: everything after the last `/` is the tail; the head
      loses its trailing slashes unless it consists of slashes only. */
  function Split(p: string): (r: (string, string))
    ensures !Contains(r.1, '/')
    ensures NormalHead(r.0)
    ensures |r.1| <= |p| && r.1 == p[|p| - |r.1|..]
  {
    var i := LastIndex(p, '/') + 1;
    var head := p[..i];
    var tail := p[i..];
    if |head| > 0 && !AllSlashes(head) then (RStripSlashes(head), tail) else (head, tail)
  }

  /** Joining a tail to the head it was split from and splitting again
      gives back the same head and tail. */
  lemma SplitJoin(h: string, t: string)
    requires NormalHead(h)
    requires !Contains(t, '/')
    ensures Split(Join(h, t)) == (h, t)
  {
    var p := Join(h, t);
    if |h| == 0 {
      assert p == t;
      LastIndexIs(p, '/', -1);
    } else if h[|h| - 1] == '/' {
      assert p == h + t;
      LastIndexIs(p, '/', |h| - 1);
      assert p[..|h|] == h;
    } else {
      assert p == h + "/" + t;
      LastIndexIs(p, '/', |h|);
      assert p[..|h| + 1] == h + "/";
      assert !AllSlashes(h + "/") by {
        assert (h + "/")[|h| - 1] != '/';
      }
    }
  }

  /** Whatever the directory, the last component of `join(a, t)` is `t`
      when `t` holds no slash. */
  lemma TailOfJoin(a: string, t: string)
    requires |t| > 0 && !Contains(t, '/')
    ensures Split(Join(a, t)).1 == t
  {
    var p := Join(a, t);
    if |a| == 0 {
      LastIndexIs(p, '/', -1);
    } else if a[|a| - 1] == '/' {
      assert p == a + t;
      LastIndexIs(p, '/', |a| - 1);
    } else {
      assert p == a + "/" + t;
      LastIndexIs(p, '/', |a|);
    }
  }

  predicate HasNonDot(p: string, lo: int, hi: int)
    requires 0 <= lo && hi <= |p|
  {
    exists i :: lo <= i < hi && p[i] != '.'
  }

  /** `os.path.splitext(p)`: the extension starts at the last dot of the
      last path component, provided something other than dots precedes that
      dot within the component (so `.bashrc` has no extension). */
  function SplitExt(p: string): (r: (string, string))
    ensures r.0 + r.1 == p
    ensures r.1 == "" || (r.1[0] == '.' && |r.0| > 0)
    ensures forall j :: 1 <= j < |r.1| ==> r.1[j] != '.' && r.1[j] != '/'
  {
    var sep := LastIndex(p, '/');
    var dot := LastIndex(p, '.');
    if dot > sep && HasNonDot(p, sep + 1, dot) then (p[..dot], p[dot..]) else (p, "")
  }
}
