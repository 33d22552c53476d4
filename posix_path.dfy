/**
 * The three POSIX path helpers the downloader relies on, with the meaning
 * Python's `posixpath` gives them: `basename`, two-argument `join` and
 * `splitext`. Paths are plain strings; `/` separates components and `.`
 * introduces an extension.
 */
module PosixPath {

  const Sep: char := '/'
  const ExtSep: char := '.'

  /** Index of the last occurrence of c in s, or -1 when there is none
      (`str.rfind`). */
  function RFind(s: string, c: char): (r: int)
    ensures -1 <= r < |s|
    ensures r >= 0 ==> s[r] == c
    ensures forall j :: r < j < |s| ==> s[j] != c
  {
    if s == [] then -1
    else if s[|s| - 1] == c then |s| - 1
    else RFind(s[..|s| - 1], c)
  }

  /** `os.path.basename`: the text after the last separator. It is the
      longest suffix of p without a separator. */
  function Basename(p: string): (name: string)
    ensures Sep !in name
    ensures |name| <= |p| && p[|p| - |name|..] == name
    ensures |name| == |p| || p[|p| - |name| - 1] == Sep
  {
    p[RFind(p, Sep) + 1..]
  }

  /** `os.path.join(a, b)`: an absolute b replaces a; otherwise b is appended
      to a, with a separator in between unless a is empty or already ends
      with one. */
  function Join(a: string, b: string): (r: string)
    ensures |b| <= |r| && r[|r| - |b|..] == b
    ensures (b == [] || b[0] != Sep) ==> a <= r
    ensures b != [] && b[0] == Sep ==> r == b
    ensures (b == [] || b[0] != Sep) && (a == [] || a[|a| - 1] == Sep) ==> |r| == |a| + |b|
    ensures (b == [] || b[0] != Sep) && a != [] && a[|a| - 1] != Sep ==>
            |r| == |a| + 1 + |b| && r[|a|] == Sep
  {
    if b != [] && b[0] == Sep then b
    else if a == [] || a[|a| - 1] == Sep then a + b
    else a + [Sep] + b
  }

  /** Joining a directory and a plain file name (non-empty, no separator)
      gives a path whose last component is that file name. */
  lemma JoinBasename(dir: string, name: string)
    requires name != [] && Sep !in name
    ensures Basename(Join(dir, name)) == name
  {
    var r := Join(dir, name);
    assert |r| == |name| || r[|r| - |name| - 1] == Sep;
  }

  /** Every character of p[lo..hi] is a dot. */
  predicate AllDots(p: string, lo: int, hi: int)
    requires 0 <= lo <= hi <= |p|
  {
    forall k :: lo <= k < hi ==> p[k] == ExtSep
  }

  /** A file name has an extension when some dot follows a character that is
      not a dot: leading dots (as in `.bashrc`) do not start one. */
  predicate HasExtension(name: string) {
    exists i, j :: 0 <= i < j < |name| && name[i] != ExtSep && name[j] == ExtSep
  }

  datatype Parts = Parts(base: string, ext: string)

  /** `os.path.splitext`: split p at the last dot of its final component,
      unless that component has only leading dots before it. */
  function SplitExt(p: string): (parts: Parts)
    ensures parts.base + parts.ext == p
    ensures parts.ext == [] || (parts.ext[0] == ExtSep && Sep !in parts.ext)
    ensures forall i :: 0 < i < |parts.ext| ==> parts.ext[i] != ExtSep
  {
    var s := RFind(p, Sep);
    var d := RFind(p, ExtSep);
    if d > s && !AllDots(p, s + 1, d) then Parts(p[..d], p[d..]) else Parts(p, [])
  }

  /** splitext finds an extension exactly when the final component has one. */
  lemma SplitExtFindsExtension(p: string)
    ensures SplitExt(p).ext != [] <==> HasExtension(Basename(p))
  {
    var s := RFind(p, Sep);
    var d := RFind(p, ExtSep);
    var name := Basename(p);
    assert name == p[s + 1..];
    if d > s && !AllDots(p, s + 1, d) {
      var k :| s + 1 <= k < d && p[k] != ExtSep;
      assert name[k - s - 1] != ExtSep && name[d - s - 1] == ExtSep;
    }
    if HasExtension(name) {
      var i, j :| 0 <= i < j < |name| && name[i] != ExtSep && name[j] == ExtSep;
      assert p[s + 1 + j] == ExtSep;
      assert p[s + 1 + i] != ExtSep;
      assert d > s && !AllDots(p, s + 1, d);
    }
  }
}
