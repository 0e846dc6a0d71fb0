/** The directory listing: the children of a folder are sorted folders first,
    dot-names first within each group, then by lower-cased name, keeping the
    enumeration order among equal keys; each becomes an entry with its icon and
    link, and below the root a `..` entry to the parent is put in front. */
module Listing {
  import opened Strings
  import opened Classifier

  /** One name from the directory enumeration, with whether it is a folder. */
  datatype Child = Child(name: string, isDir: bool)

  /** One row of the listing (size and modification time are not modelled). */
  datatype Entry = Entry(name: string, isFolder: bool, path: string, icon: string, colour: string)

  const FolderIconColour: IconColour := ("ti ti-folder-filled", "#5988da")
  const ParentIconColour: IconColour := ("ti ti-corner-up-left-double", "#0d6efd")

  /** Whether a name starts with a dot. */
  predicate Hidden(name: string)
  {
    name != [] && name[0] == '.'
  }

  /** The sort key `(not isdir, name[0] != '.', name.lower())`. */
  datatype SortKey = SortKey(notDir: bool, notHidden: bool, lowered: string)

  function Key(c: Child): SortKey
  {
    SortKey(!c.isDir, !Hidden(c.name), Lower(c.name))
  }

  /** Python's `<` on booleans: `False < True`. */
  predicate BoolLess(a: bool, b: bool)
  {
    !a && b
  }

  /** Python's `<` on the key tuples: lexicographic, component by component. */
  predicate KeyLess(a: SortKey, b: SortKey)
  {
    BoolLess(a.notDir, b.notDir) ||
    (a.notDir == b.notDir && (BoolLess(a.notHidden, b.notHidden) ||
                              (a.notHidden == b.notHidden && StrLess(a.lowered, b.lowered))))
  }

  lemma KeyLessIrreflexive(a: SortKey)
    ensures !KeyLess(a, a)
  {
    StrLessIrreflexive(a.lowered);
  }

  lemma KeyLessTransitive(a: SortKey, b: SortKey, c: SortKey)
    requires KeyLess(a, b) && KeyLess(b, c)
    ensures KeyLess(a, c)
  {
    if a.notDir == b.notDir == c.notDir && a.notHidden == b.notHidden == c.notHidden {
      StrLessTransitive(a.lowered, b.lowered, c.lowered);
    }
  }

  /** Two different keys are ordered one way or the other. */
  lemma KeyLessTotal(a: SortKey, b: SortKey)
    requires a != b
    ensures KeyLess(a, b) || KeyLess(b, a)
  {
    if a.notDir == b.notDir && a.notHidden == b.notHidden {
      StrLessTotal(a.lowered, b.lowered);
    }
  }

  /** No child is followed by one with a smaller key. */
  predicate Sorted(s: seq<Child>)
  {
    forall i, j :: 0 <= i < j < |s| ==> !KeyLess(Key(s[j]), Key(s[i]))
  }

  /** The children whose key is `k`, in their order in `s`. */
  function Filter(s: seq<Child>, k: SortKey): seq<Child>
  {
    if s == [] then [] else (if Key(s[0]) == k then [s[0]] else []) + Filter(s[1..], k)
  }

  lemma {:induction false} FilterAppend(a: seq<Child>, b: seq<Child>, k: SortKey)
    ensures Filter(a + b, k) == Filter(a, k) + Filter(b, k)
  {
    if a == [] {
      assert a + b == b;
    } else {
      assert (a + b)[0] == a[0] && (a + b)[1..] == a[1..] + b;
      FilterAppend(a[1..], b, k);
    }
  }

  /** Insert `x` into sorted `t` after every child whose key is not larger. */
  function Insert(x: Child, t: seq<Child>): seq<Child>
  {
    if t == [] then [x]
    else if KeyLess(Key(x), Key(t[0])) then [x] + t
    else [t[0]] + Insert(x, t[1..])
  }

  lemma {:induction false} InsertPermutes(x: Child, t: seq<Child>)
    ensures multiset(Insert(x, t)) == multiset(t) + multiset{x}
  {
    if t != [] && !KeyLess(Key(x), Key(t[0])) {
      InsertPermutes(x, t[1..]);
      assert t == [t[0]] + t[1..];
    }
  }

  lemma {:induction false} InsertSorted(x: Child, t: seq<Child>)
    requires Sorted(t)
    ensures Sorted(Insert(x, t))
  {
    if t == [] {
    } else if KeyLess(Key(x), Key(t[0])) {
      var r := [x] + t;
      forall i, j | 0 <= i < j < |r|
        ensures !KeyLess(Key(r[j]), Key(r[i]))
      {
        if i == 0 {
          if KeyLess(Key(r[j]), Key(x)) {
            if j == 1 {
              KeyLessTransitive(Key(t[0]), Key(x), Key(t[0]));
              KeyLessIrreflexive(Key(t[0]));
            } else {
              KeyLessTransitive(Key(r[j]), Key(x), Key(t[0]));
            }
          }
        }
      }
    } else {
      InsertSorted(x, t[1..]);
      InsertBehind(x, t);
    }
  }

  /** What is inserted behind the head of a sorted sequence has no key below the head's. */
  lemma InsertBehind(x: Child, t: seq<Child>)
    requires Sorted(t) && t != [] && !KeyLess(Key(x), Key(t[0]))
    ensures forall j :: 0 <= j < |Insert(x, t[1..])| ==> !KeyLess(Key(Insert(x, t[1..])[j]), Key(t[0]))
  {
    var rest := Insert(x, t[1..]);
    InsertPermutes(x, t[1..]);
    forall j | 0 <= j < |rest|
      ensures !KeyLess(Key(rest[j]), Key(t[0]))
    {
      var y := rest[j];
      assert y in multiset(rest);
      if y == x {
        if Key(x) != Key(t[0]) {
          KeyLessTotal(Key(x), Key(t[0]));
        }
        KeyLessIrreflexive(Key(t[0]));
      } else {
        assert y in multiset(t[1..]);
        var m :| 0 <= m < |t[1..]| && t[1..][m] == y;
        assert t[m + 1] == y;
      }
    }
  }

  /** Inserting into a sorted sequence puts `x` behind every child with its key. */
  lemma {:induction false} InsertFilter(x: Child, t: seq<Child>, k: SortKey)
    requires Sorted(t)
    ensures Filter(Insert(x, t), k) == Filter(t, k) + (if Key(x) == k then [x] else [])
  {
    if t == [] {
    } else if KeyLess(Key(x), Key(t[0])) {
      if Key(x) == k {
        assert Filter(t, k) == [] by {
          forall i | 0 <= i < |t|
            ensures Key(t[i]) != k
          {
            KeyLessIrreflexive(k);
            if i > 0 {
              assert !KeyLess(Key(t[i]), Key(t[0]));
            }
          }
          FilterNone(t, k);
        }
      }
      assert ([x] + t)[1..] == t;
    } else {
      InsertFilter(x, t[1..], k);
    }
  }

  /** A sequence with no child of key `k` has an empty filter for `k`. */
  lemma {:induction false} FilterNone(s: seq<Child>, k: SortKey)
    requires forall i :: 0 <= i < |s| ==> Key(s[i]) != k
    ensures Filter(s, k) == []
  {
    if s != [] {
      FilterNone(s[1..], k);
    }
  }

  /** `list.sort(key=...)`: a stable sort by `Key`. The result is sorted, a
      permutation of the input, and for every key it lists the children with
      that key in their enumeration order. */
  function SortByKey(s: seq<Child>): (r: seq<Child>)
    ensures |r| == |s|
    ensures Sorted(r)
    ensures multiset(r) == multiset(s)
    ensures forall k :: Filter(r, k) == Filter(s, k)
    decreases |s|, 1
  {
    if s == [] then []
    else
      SortStep(s);
      Insert(s[|s| - 1], SortByKey(s[..|s| - 1]))
  }

  /** Inserting the last child into the sorted rest keeps the sort's promises. */
  lemma SortStep(s: seq<Child>)
    requires s != []
    ensures var r := Insert(s[|s| - 1], SortByKey(s[..|s| - 1]));
            |r| == |s| && Sorted(r) && multiset(r) == multiset(s) && forall k :: Filter(r, k) == Filter(s, k)
    decreases |s|, 0
  {
    var init, x := s[..|s| - 1], s[|s| - 1];
    var t := SortByKey(init);
    assert s == init + [x];
    InsertLast(init, x, t);
  }

  /** Inserting `x` into a sorted arrangement `t` of `init` gives a sorted
      arrangement of `init + [x]`. */
  lemma InsertLast(init: seq<Child>, x: Child, t: seq<Child>)
    requires Sorted(t) && |t| == |init| && multiset(t) == multiset(init)
    requires forall k :: Filter(t, k) == Filter(init, k)
    ensures var r := Insert(x, t);
            |r| == |init| + 1 && Sorted(r) && multiset(r) == multiset(init + [x]) &&
            forall k :: Filter(r, k) == Filter(init + [x], k)
  {
    InsertSorted(x, t);
    InsertPermutes(x, t);
    assert |multiset(Insert(x, t))| == |multiset(init + [x])|;
    forall k ensures Filter(Insert(x, t), k) == Filter(init + [x], k) {
      InsertFilter(x, t, k);
      FilterAppend(init, [x], k);
    }
  }

  /** Two sorted sequences that list the same children for every key are equal:
      a stable sort by `Key` has exactly one possible result. */
  lemma {:induction false} SortedFiltersDetermine(r: seq<Child>, q: seq<Child>)
    requires Sorted(r) && Sorted(q)
    requires forall k :: Filter(r, k) == Filter(q, k)
    ensures r == q
  {
    if r == [] || q == [] {
      FilterOwnKey(r);
      FilterOwnKey(q);
      if r != [] {
        assert false;
      } else if q != [] {
        assert false;
      }
    } else {
      var a, b := r[0], q[0];
      assert Key(a) == Key(b) by {
        FirstKeyBelow(q, Filter(r, Key(a)), Key(a));
        FirstKeyBelow(r, Filter(q, Key(b)), Key(b));
        if Key(a) != Key(b) {
          KeyLessTotal(Key(a), Key(b));
        }
      }
      assert a == b by {
        assert Filter(r, Key(a))[0] == a;
        assert Filter(q, Key(a))[0] == b;
      }
      forall k ensures Filter(r[1..], k) == Filter(q[1..], k) {
        var pre := if Key(a) == k then [a] else [];
        assert Filter(r, k) == pre + Filter(r[1..], k);
        assert Filter(q, k) == pre + Filter(q[1..], k);
        assert Filter(r[1..], k) == (pre + Filter(r[1..], k))[|pre|..];
        assert Filter(q[1..], k) == (pre + Filter(q[1..], k))[|pre|..];
      }
      SortedFiltersDetermine(r[1..], q[1..]);
      assert r == [a] + r[1..] && q == [b] + q[1..];
    }
  }

  /** A non-empty sequence lists its first child under that child's key. */
  lemma FilterOwnKey(s: seq<Child>)
    ensures s != [] ==> Filter(s, Key(s[0])) != []
  {
  }

  /** When a sorted sequence has a child of key `k`, its first key is not above `k`. */
  lemma FirstKeyBelow(s: seq<Child>, f: seq<Child>, k: SortKey)
    requires Sorted(s) && s != []
    requires f == Filter(s, k) && f != []
    ensures !KeyLess(k, Key(s[0]))
  {
    if forall i :: 0 <= i < |s| ==> Key(s[i]) != k {
      FilterNone(s, k);
    }
    var i :| 0 <= i < |s| && Key(s[i]) == k;
    if i == 0 {
      KeyLessIrreflexive(k);
    }
  }

  /** Any sorted sequence that keeps the enumeration order among equal keys
      is the one `SortByKey` gives, whichever stable algorithm produced it. */
  lemma StableSortUnique(s: seq<Child>, r: seq<Child>)
    requires Sorted(r)
    requires forall k :: Filter(r, k) == Filter(s, k)
    ensures r == SortByKey(s)
  {
    SortedFiltersDetermine(r, SortByKey(s));
  }

  /** What sortedness by `Key` means for the listing: folders before files;
      within each, dot-names first; then by lower-cased name. */
  lemma SortedOrder(s: seq<Child>, i: int, j: int)
    requires Sorted(s) && 0 <= i < j < |s|
    ensures s[i].isDir || !s[j].isDir
    ensures s[i].isDir == s[j].isDir ==> Hidden(s[i].name) || !Hidden(s[j].name)
    ensures s[i].isDir == s[j].isDir && Hidden(s[i].name) == Hidden(s[j].name) ==>
              !StrLess(Lower(s[j].name), Lower(s[i].name))
  {
  }

  /** The `..` link's target, `'/'.join(path.split('/')[:-1])`. */
  function ParentPath(path: string): string
  {
    var parts := SplitOn(path, '/');
    JoinWith(parts[..|parts| - 1], '/')
  }

  /** The parent link is everything before the last `/`, or empty when there is none. */
  lemma ParentPathIsPrefix(path: string)
    ensures var i := RFind(path, '/');
            ParentPath(path) == if i < 0 then "" else path[..i]
  {
    var i := RFind(path, '/');
    if i >= 0 {
      var init := SplitOn(path[..i], '/');
      assert SplitOn(path, '/') == init + [path[i + 1..]];
      assert (init + [path[i + 1..]])[..|init|] == init;
      JoinSplit(path[..i], '/');
    }
  }

  /** The entry a child is shown as. */
  function ChildEntry(path: string, c: Child, iconOf: string -> IconColour): Entry
  {
    Entry(c.name, c.isDir, path + "/" + c.name, ChildIcon(c, iconOf).0, ChildIcon(c, iconOf).1)
  }

  /** A folder's icon and colour are fixed; a file's come from its name. */
  function ChildIcon(c: Child, iconOf: string -> IconColour): IconColour
  {
    if c.isDir then FolderIconColour else iconOf(c.name)
  }

  /** The entry that links to the parent folder. */
  function ParentEntry(path: string): Entry
  {
    Entry("..", true, ParentPath(path), ParentIconColour.0, ParentIconColour.1)
  }

  /** At the root the parent link would be empty, so no entry is added for it. */
  lemma ParentOfRoot()
    ensures ParentPath("/") == ""
  {
    ParentPathIsPrefix("/");
    assert RFind("/", '/') == 0;
  }

  /** The entries of `files`, one per child, in the same order. */
  function Entries(path: string, files: seq<Child>, iconOf: string -> IconColour): seq<Entry>
  {
    seq(|files|, j requires 0 <= j < |files| => ChildEntry(path, files[j], iconOf))
  }

  /** The listing of the folder at `path` once its names are sorted into
      `files`: their entries, behind a parent link unless the path is `/`.
      `iconOf` is the classifier, so these facts hold whatever it answers. */
  function DirContents(path: string, files: seq<Child>, iconOf: string -> IconColour): seq<Entry>
  {
    (if path != "/" then [ParentEntry(path)] else []) + Entries(path, files, iconOf)
  }

  /** One entry per name in order, behind the parent link when the path is not `/`. */
  lemma DirContentsShape(path: string, files: seq<Child>, iconOf: string -> IconColour)
    ensures var r, off := DirContents(path, files, iconOf), if path != "/" then 1 else 0;
            |r| == |files| + off &&
            (forall j :: 0 <= j < |files| ==> r[j + off] == ChildEntry(path, files[j], iconOf)) &&
            (path != "/" ==> r[0] == ParentEntry(path))
  {
  }

  /** The listing starts with the parent link exactly when the path is not `/`:
      at the root the first entry is a child, whose link is never empty. */
  lemma DirContentsParentFirst(path: string, files: seq<Child>, iconOf: string -> IconColour)
    ensures var r := DirContents(path, files, iconOf);
            path != "/" <==> r != [] && r[0] == ParentEntry(path)
  {
    var r := DirContents(path, files, iconOf);
    if path == "/" && r != [] {
      ParentOfRoot();
      assert r[0] == ChildEntry(path, files[0], iconOf);
    }
  }

  /** For sorted names, every folder, the parent link included, is listed
      before every file. */
  lemma DirContentsFoldersFirst(path: string, files: seq<Child>, iconOf: string -> IconColour)
    requires Sorted(files)
    ensures var r := DirContents(path, files, iconOf);
            forall j, k :: 0 <= j < k < |r| ==> r[j].isFolder || !r[k].isFolder
  {
    var r := DirContents(path, files, iconOf);
    var off := if path != "/" then 1 else 0;
    DirContentsShape(path, files, iconOf);
    forall j, k | 0 <= j < k < |r|
      ensures r[j].isFolder || !r[k].isFolder
    {
      if j >= off {
        SortedOrder(files, j - off, k - off);
      }
    }
  }

  /** For sorted names, among the children's entries a dot-name comes before
      any other name of the same kind, and names of the same kind and
      visibility are in lower-cased order. */
  lemma DirContentsNameOrder(path: string, files: seq<Child>, iconOf: string -> IconColour, j: int, k: int)
    requires Sorted(files)
    requires var off := if path != "/" then 1 else 0; off <= j < k < |DirContents(path, files, iconOf)|
    ensures var r := DirContents(path, files, iconOf);
            r[j].isFolder == r[k].isFolder ==> Hidden(r[j].name) || !Hidden(r[k].name)
    ensures var r := DirContents(path, files, iconOf);
            r[j].isFolder == r[k].isFolder && Hidden(r[j].name) == Hidden(r[k].name) ==>
              !StrLess(Lower(r[k].name), Lower(r[j].name))
  {
    var off := if path != "/" then 1 else 0;
    DirContentsShape(path, files, iconOf);
    SortedOrder(files, j - off, k - off);
  }

  /** The loop over the sorted names: one entry per child, in order, a folder
      shown with the folder icon and a file with its classified icon. */
  method ChildEntries(path: string, files: seq<Child>) returns (dirContents: seq<Entry>)
    ensures dirContents == Entries(path, files, GetFileIconAndColour)
  {
    dirContents := [];
    var i := 0;
    while i < |files|
      invariant 0 <= i <= |files|
      invariant dirContents == Entries(path, files[..i], GetFileIconAndColour)
    {
      var file := files[i];
      var icon, colour;
      if file.isDir {
        icon, colour := FolderIconColour.0, FolderIconColour.1;
      } else {
        icon, colour := GetFileIconAndColour(file.name).0, GetFileIconAndColour(file.name).1;
      }
      assert files[..i + 1] == files[..i] + [file];
      dirContents := dirContents + [Entry(file.name, file.isDir, path + "/" + file.name, icon, colour)];
      i := i + 1;
    }
    assert files[..i] == files;
  }

  /** The folder branch of the route: sort the names, build their entries,
      and put the parent link in front unless the path is `/`. The names come
      from a directory enumeration, so none is empty. */
  method BuildListing(path: string, children: seq<Child>) returns (entries: seq<Entry>)
    requires forall i :: 0 <= i < |children| ==> children[i].name != []
    ensures entries == DirContents(path, SortByKey(children), GetFileIconAndColour)
  {
    var files := SortByKey(children);
    var dirContents := ChildEntries(path, files);
    if path != "/" {
      dirContents := [ParentEntry(path)] + dirContents;
    }
    entries := dirContents;
  }
}
