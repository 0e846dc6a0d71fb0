/** Collision-free naming for uploads. The destination directory, which
    exists, is the finite set of names it already holds; a probe of a
    slash-free name is `os.path.exists` on the directory joined with it. That
    also holds for the empty name, `.` and `..`, which name the directory
    itself and its parent. */
module UniqueName {
  import opened Strings
  import opened PosixPath

  /** Whether `os.path.exists(os.path.join(directory, name))` holds for a
      slash-free name in an existing directory. */
  predicate Occupied(existing: set<string>, name: string)
  {
    name == "" || name == "." || name == ".." || name in existing
  }

  /** The k-th alternative to `filename`: `base (k)ext`, always from the
      original base and extension. */
  function Candidate(filename: string, k: nat): (c: string)
    ensures |c| >= |filename| + 4
  {
    var (base, ext) := SplitExt(filename);
    base + " (" + NatToStr(k) + ")" + ext
  }

  /** A candidate for a slash-free name is slash-free: it names an entry of
      the directory itself. */
  lemma CandidateNoSlash(filename: string, k: nat)
    requires '/' !in filename
    ensures '/' !in Candidate(filename, k)
  {
    var (base, ext) := SplitExt(filename);
    var digits := NatToStr(k);
    assert filename == base + ext;
    assert forall i :: 0 <= i < |digits| ==> digits[i] != '/';
    assert Candidate(filename, k) == base + " (" + digits + ")" + ext;
  }

  /** Different counters give different candidates. */
  lemma CandidateInjective(filename: string, j: nat, k: nat)
    requires Candidate(filename, j) == Candidate(filename, k)
    ensures j == k
  {
    var (base, ext) := SplitExt(filename);
    var pre, post := base + " (", ")" + ext;
    var a, b := NatToStr(j), NatToStr(k);
    assert Candidate(filename, j) == pre + a + post;
    assert Candidate(filename, k) == pre + b + post;
    MiddleEqual(pre, a, b, post);
    NatToStrInjective(j, k);
  }

  /** Equal strings with the same prefix and suffix have the same middle. */
  lemma MiddleEqual(pre: string, a: string, b: string, post: string)
    requires pre + a + post == pre + b + post
    ensures a == b
  {
    assert |a| == |b|;
    assert a == (pre + a + post)[|pre|..|pre| + |a|];
  }

  /** A subset is no larger than its superset. */
  lemma {:induction false} SubsetSize<T>(a: set<T>, b: set<T>)
    requires a <= b
    ensures |a| <= |b|
  {
    if a != {} {
      var x :| x in a;
      SubsetSize(a - {x}, b - {x});
    }
  }

  /** The first `n` candidates. */
  function Candidates(filename: string, n: nat): set<string>
  {
    set k | 1 <= k <= n :: Candidate(filename, k)
  }

  /** The first `n` candidates are `n` different names. */
  lemma {:induction false} CandidatesCount(filename: string, n: nat)
    ensures |Candidates(filename, n)| == n
  {
    if n > 0 {
      CandidatesCount(filename, n - 1);
      assert Candidates(filename, n) == Candidates(filename, n - 1) + {Candidate(filename, n)};
      if Candidate(filename, n) in Candidates(filename, n - 1) {
        var k :| 1 <= k <= n - 1 && Candidate(filename, k) == Candidate(filename, n);
        CandidateInjective(filename, k, n);
      }
    }
  }

  /** When the first `n` candidates are all taken, there are at least `n`
      existing names: the counter never exceeds the directory's size plus one. */
  lemma CounterBound(existing: set<string>, filename: string, n: nat)
    requires forall k :: 1 <= k <= n ==> Occupied(existing, Candidate(filename, k))
    ensures n <= |existing|
  {
    CandidatesCount(filename, n);
    forall name | name in Candidates(filename, n)
      ensures name in existing
    {
      var k :| 1 <= k <= n && name == Candidate(filename, k);
    }
    SubsetSize(Candidates(filename, n), existing);
  }

  /** The first free candidate from the `k`-th on, given that all before it are taken. */
  function Probe(existing: set<string>, filename: string, k: nat): (name: string)
    requires 1 <= k
    requires forall j :: 1 <= j < k ==> Occupied(existing, Candidate(filename, j))
    ensures !Occupied(existing, name)
    ensures exists m :: k <= m <= |existing| + 1 && name == Candidate(filename, m) &&
              forall j :: 1 <= j < m ==> Occupied(existing, Candidate(filename, j))
    decreases |existing| + 1 - k
  {
    if !Occupied(existing, Candidate(filename, k)) then
      CounterBound(existing, filename, k - 1);
      Candidate(filename, k)
    else
      CounterBound(existing, filename, k);
      Probe(existing, filename, k + 1)
  }

  /** The name `get_unique_filename` settles on: `filename` itself when it is
      free, else the candidate with the least counter that is free. */
  function UniqueFilename(existing: set<string>, filename: string): (name: string)
    requires '/' !in filename
    ensures '/' !in name
    ensures !Occupied(existing, name)
    ensures !Occupied(existing, filename) ==> name == filename
    ensures Occupied(existing, filename) ==>
              exists k :: 1 <= k <= |existing| + 1 && name == Candidate(filename, k) &&
                forall j :: 1 <= j < k ==> Occupied(existing, Candidate(filename, j))
  {
    if !Occupied(existing, filename) then filename
    else
      assert forall m: nat :: '/' !in Candidate(filename, m) by {
        forall m: nat
          ensures '/' !in Candidate(filename, m)
        {
          CandidateNoSlash(filename, m);
        }
      }
      Probe(existing, filename, 1)
  }

  /** With `filename` itself among the existing names, `k` taken candidates
      leave room for at most `|existing| - 1` of them: `k < |existing|`. */
  lemma CounterBoundWithOriginal(existing: set<string>, filename: string, n: nat)
    requires filename in existing
    requires forall k :: 1 <= k <= n ==> Occupied(existing, Candidate(filename, k))
    ensures n < |existing|
  {
    CandidatesCount(filename, n);
    forall name | name in Candidates(filename, n)
      ensures name in existing && name != filename
    {
      var k :| 1 <= k <= n && name == Candidate(filename, k);
    }
    assert filename !in Candidates(filename, n);
    SubsetSize(Candidates(filename, n) + {filename}, existing);
  }

  /** When a non-empty `filename` is taken, the result is `base (k)ext` with
      every earlier candidate taken and `k` at most the number of existing names. */
  lemma UniqueFilenameCounter(existing: set<string>, filename: string, k: nat)
    requires filename != "" && filename in existing && '/' !in filename
    requires UniqueFilename(existing, filename) == Candidate(filename, k)
    ensures 1 <= k <= |existing|
    ensures forall j :: 1 <= j < k ==> Candidate(filename, j) in existing
  {
    var m :| 1 <= m <= |existing| + 1 && UniqueFilename(existing, filename) == Candidate(filename, m) &&
               forall j :: 1 <= j < m ==> Occupied(existing, Candidate(filename, j));
    CandidateInjective(filename, k, m);
    CounterBoundWithOriginal(existing, filename, m - 1);
    forall j | 1 <= j < k
      ensures Candidate(filename, j) in existing
    {
      assert |Candidate(filename, j)| >= 4;
    }
  }

  /** Probing from `k` finds the candidate `m` when all before `m` are taken and `m` is free. */
  lemma {:induction false} ProbeFinds(existing: set<string>, filename: string, k: nat, m: nat)
    requires 1 <= k <= m
    requires forall j :: 1 <= j < m ==> Occupied(existing, Candidate(filename, j))
    requires !Occupied(existing, Candidate(filename, m))
    ensures Probe(existing, filename, k) == Candidate(filename, m)
    decreases m - k
  {
    if k < m {
      ProbeFinds(existing, filename, k + 1, m);
    }
  }

  /** `get_unique_filename`: try `filename`, then `base (1)ext`, `base (2)ext`,
      ... until a name is free. */
  method GetUniqueFilename(existing: set<string>, filename: string) returns (newFilename: string)
    requires '/' !in filename
    ensures newFilename == UniqueFilename(existing, filename)
  {
    var (base, ext) := SplitExt(filename);
    var counter := 1;
    newFilename := filename;
    while Occupied(existing, newFilename)
      invariant 1 <= counter
      invariant counter == 1 ==> newFilename == filename
      invariant counter > 1 ==> Occupied(existing, filename) && newFilename == Candidate(filename, counter - 1)
      invariant forall j :: 1 <= j < counter - 1 ==> Occupied(existing, Candidate(filename, j))
      decreases |existing| + 2 - counter
    {
      CounterBound(existing, filename, counter - 1);
      newFilename := base + " (" + NatToStr(counter) + ")" + ext;
      counter := counter + 1;
    }
    if counter > 1 {
      ProbeFinds(existing, filename, 1, counter - 1);
    }
  }

  /** Uploading `report.txt` next to `report.txt` and `report (1).txt` stores `report (2).txt`. */
  lemma ReportExample()
    ensures UniqueFilename({"report.txt", "report (1).txt"}, "report.txt") == "report (2).txt"
  {
    var f := "report.txt";
    var existing := {"report.txt", "report (1).txt"};
    SplitExtOfComponent(f, 6);
    assert f[0] != '.' && f[..6] == "report" && f[6..] == ".txt";
    assert Candidate(f, 1) == "report (1).txt";
    assert Candidate(f, 2) == "report (2).txt";
    ProbeFinds(existing, f, 1, 2);
  }
}
