/** The two `os.path` routines (POSIX flavour) the file browser calls:
    `splitext` and two-argument `join`. */
module PosixPath {
  import opened Strings

  /** `os.path.splitext(p)`: the extension starts at the last `.` of the last
      path component, unless only dots precede that `.` in the component (so
      `.bashrc` and `..` have none). Otherwise the extension is empty. */
  function SplitExt(p: string): (r: (string, string))
    ensures r.0 + r.1 == p
    ensures r.1 != [] ==> r.1[0] == '.' && forall i :: 1 <= i < |r.1| ==> r.1[i] != '.' && r.1[i] != '/'
  {
    var sepIndex := RFind(p, '/');
    var dotIndex := RFind(p, '.');
    if dotIndex > sepIndex && exists i :: sepIndex < i < dotIndex && p[i] != '.' then
      (p[..dotIndex], p[dotIndex..])
    else
      (p, "")
  }

  /** There is an extension exactly when the last component has a dot with a
      non-dot character somewhere before it. */
  lemma SplitExtHasExtension(p: string)
    ensures SplitExt(p).1 != [] <==> exists i, j :: RFind(p, '/') < i < j < |p| && p[i] != '.' && p[j] == '.'
  {
  }

  /** For a single component whose last dot is at `d`: the extension starts at
      `d` exactly when some character before it is not a dot. */
  lemma SplitExtOfComponent(p: string, d: nat)
    requires '/' !in p
    requires d < |p| && p[d] == '.'
    requires forall i :: d < i < |p| ==> p[i] != '.'
    ensures SplitExt(p) == if exists i :: 0 <= i < d && p[i] != '.' then (p[..d], p[d..]) else (p, "")
  {
    assert RFind(p, '/') == -1;
    assert RFind(p, '.') == d;
  }

  /** The extension keeps its case. */
  lemma SplitExtKeepsCase()
    ensures SplitExt("x.PY") == ("x", ".PY")
    ensures SplitExt("x.S") == ("x", ".S")
  {
    var p := "x.PY";
    SplitExtOfComponent(p, 1);
    assert p[0] != '.' && p[..1] == "x" && p[1..] == ".PY";
    p := "x.S";
    SplitExtOfComponent(p, 1);
    assert p[0] != '.' && p[..1] == "x" && p[1..] == ".S";
  }

  /** Only the text from the last dot is the extension. */
  lemma SplitExtLastDot()
    ensures SplitExt("archive.tar.gz") == ("archive.tar", ".gz")
    ensures SplitExt("unknownfile.xyz") == ("unknownfile", ".xyz")
  {
    var p := "archive.tar.gz";
    SplitExtOfComponent(p, 11);
    assert p[0] != '.' && p[..11] == "archive.tar" && p[11..] == ".gz";
    p := "unknownfile.xyz";
    SplitExtOfComponent(p, 11);
    assert p[0] != '.' && p[..11] == "unknownfile" && p[11..] == ".xyz";
  }

  /** A dot that only dots precede does not start an extension. */
  lemma SplitExtLeadingDot()
    ensures SplitExt(".bashrc") == (".bashrc", "")
  {
    SplitExtOfComponent(".bashrc", 0);
  }

  /** Whether `p` is absolute, i.e. starts with `/`. */
  predicate IsAbs(p: string)
  {
    p != [] && p[0] == '/'
  }

  /** `os.path.join(a, b)`: an absolute `b` replaces `a`; otherwise `b` is
      appended, after a `/` unless `a` is empty or already ends in one. */
  function Join(a: string, b: string): (r: string)
    ensures IsAbs(b) ==> r == b
    ensures !IsAbs(b) ==> |r| == |a| + |b| + (if a == [] || a[|a| - 1] == '/' then 0 else 1)
    ensures !IsAbs(b) ==> r[..|a|] == a && r[|r| - |b|..] == b
    ensures !IsAbs(b) && |r| == |a| + |b| + 1 ==> r[|a|] == '/'
    ensures !IsAbs(b) && a != [] ==> r[..|r| - |b|] == a || r[..|r| - |b|] == a + "/"
    ensures !IsAbs(b) && a != [] ==> r[|r| - |b| - 1] == '/'
  {
    if IsAbs(b) then b
    else if a == [] || a[|a| - 1] == '/' then a + b
    else a + "/" + b
  }
}
