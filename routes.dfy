/** The request handlers' path arithmetic and the upload decision. A URL path
    or form field is made relative by stripping its leading slashes and is
    then joined onto the base folder; nothing is normalised or checked for
    containment, so `..` components pass through unchanged. */
module Routes {
  import opened Strings
  import opened PosixPath
  import opened UniqueName

  datatype Option<T> = None | Some(value: T)

  /** A form field with a default, as `request.form.get(name, default)`. */
  function GetOr(field: Option<string>, default: string): (v: string)
    ensures field.Some? ==> v == field.value
    ensures field.None? ==> v == default
  {
    if field.Some? then field.value else default
  }

  /** `os.path.join(base, path.lstrip('/'))`: the folder a request path names.
      The base is always kept as a prefix, followed by the path without its
      leading slashes. */
  function Location(base: string, path: string): (loc: string)
    ensures |base| <= |loc| && loc[..|base|] == base
    ensures var rest := LStrip(path, '/');
            |base| + |rest| <= |loc| <= |base| + |rest| + 1 && loc[|loc| - |rest|..] == rest
    ensures base != [] ==> loc[|loc| - |LStrip(path, '/')| - 1] == '/'
  {
    var rest := LStrip(path, '/');
    assert !IsAbs(rest);
    var loc := Join(base, rest);
    assert loc == if base == [] || base[|base| - 1] == '/' then base + rest else base + "/" + rest;
    loc
  }

  /** Stripping removes any run of slashes put in front. */
  lemma {:induction false} LStripSlashes(slashes: string, path: string)
    requires forall i :: 0 <= i < |slashes| ==> slashes[i] == '/'
    ensures LStrip(slashes + path, '/') == LStrip(path, '/')
  {
    if slashes == [] {
      assert slashes + path == path;
    } else {
      var s := slashes + path;
      assert s[0] == '/';
      assert LStrip(s, '/') == LStrip(s[1..], '/');
      assert s[1..] == slashes[1..] + path;
      LStripSlashes(slashes[1..], path);
    }
  }

  /** The slashes in front of a path make no difference to where it leads. */
  lemma LocationIgnoresLeadingSlashes(base: string, slashes: string, path: string)
    requires forall i :: 0 <= i < |slashes| ==> slashes[i] == '/'
    ensures Location(base, slashes + path) == Location(base, path)
  {
    LStripSlashes(slashes, path);
  }

  /** A path that, once its slashes are stripped, is absolute cannot replace the base,
      as a raw `os.path.join` would let it. */
  lemma LocationVersusRawJoin()
    ensures Join("/srv", "/etc") == "/etc"
    ensures Location("/srv", "/etc") == "/srv/etc"
  {
    var p := "/etc";
    assert LStrip(p[1..], '/') == p[1..];
    assert LStrip(p, '/') == "etc";
  }

  /** `..` is not resolved: the location climbs out of the base folder textually. */
  lemma LocationKeepsParentSteps()
    ensures Location("/srv", "../etc") == "/srv/../etc"
  {
    var p := "../etc";
    assert LStrip(p, '/') == p;
  }

  /** A path as `pathlib` parses it: whether it is rooted, and its components
      with empty and `.` pieces dropped. */
  datatype PurePath = PurePath(rooted: bool, parts: seq<string>)

  /** The pieces that name components: not empty and not `.`. */
  function Components(pieces: seq<string>): (r: seq<string>)
    ensures forall i :: 0 <= i < |r| ==> r[i] != "" && r[i] != "." && r[i] in pieces
    ensures forall i :: 0 <= i < |pieces| && pieces[i] != "" && pieces[i] != "." ==> pieces[i] in r
    ensures |r| <= |pieces|
  {
    if pieces == [] then []
    else if pieces[0] == "" || pieces[0] == "." then Components(pieces[1..])
    else [pieces[0]] + Components(pieces[1..])
  }

  /** `PurePosixPath(s)`: rooted when `s` starts with `/`; the components are
      the non-empty, non-`.` pieces between slashes, `..` included. */
  function ParsePath(s: string): (p: PurePath)
    ensures p.rooted <==> IsAbs(s)
    ensures forall i :: 0 <= i < |p.parts| ==> p.parts[i] != "" && p.parts[i] != "." && '/' !in p.parts[i]
  {
    var pieces := SplitOn(s, '/');
    var parts := Components(pieces);
    assert forall i :: 0 <= i < |parts| ==> '/' !in parts[i] by {
      forall i | 0 <= i < |parts|
        ensures '/' !in parts[i]
      {
        var k :| 0 <= k < |pieces| && pieces[k] == parts[i];
      }
    }
    PurePath(IsAbs(s), parts)
  }

  /** `p / s`: a rooted `s` replaces `p`; otherwise its components are appended. */
  function Div(p: PurePath, s: string): (r: PurePath)
    ensures IsAbs(s) ==> r == ParsePath(s)
    ensures !IsAbs(s) ==> r.rooted == p.rooted && r.parts == p.parts + ParsePath(s).parts
  {
    var q := ParsePath(s);
    if q.rooted then q else PurePath(p.rooted, p.parts + q.parts)
  }

  /** The component filter distributes over concatenation. */
  lemma {:induction false} ComponentsAppend(x: seq<string>, y: seq<string>)
    ensures Components(x + y) == Components(x) + Components(y)
  {
    if x == [] {
      assert x + y == y;
    } else {
      assert (x + y)[0] == x[0] && (x + y)[1..] == x[1..] + y;
      ComponentsAppend(x[1..], y);
    }
  }

  /** A single piece is kept exactly when it is neither empty nor `.`. */
  lemma ComponentsOne(piece: string)
    ensures Components([piece]) == if piece == "" || piece == "." then [] else [piece]
  {
  }

  /** The components of `x/y` are those of `x` followed by those of `y`. */
  lemma ParsePathConcat(x: string, y: string)
    ensures ParsePath(x + "/" + y).parts == ParsePath(x).parts + ParsePath(y).parts
  {
    assert x + "/" + y == x + ['/'] + y;
    SplitOnConcat(x, y, '/');
    ComponentsAppend(SplitOn(x, '/'), SplitOn(y, '/'));
  }

  /** A slash-free text is one component, unless it is empty or `.`. */
  lemma ParsePathComponent(s: string)
    requires '/' !in s
    ensures ParsePath(s).parts == if s == "" || s == "." then [] else [s]
  {
    assert RFind(s, '/') == -1;
    ComponentsOne(s);
  }

  /** A trailing slash adds no component. */
  lemma ParsePathTrailingSlash(a: string)
    ensures ParsePath(a + "/").parts == ParsePath(a).parts
  {
    assert a + "/" == a + "/" + "";
    ParsePathConcat(a, "");
    ParsePathComponent("");
  }

  /** Joining onto a path that ends in a slash appends the components. */
  lemma JoinAfterSlash(a: string, b: string)
    requires a != [] && a[|a| - 1] == '/'
    ensures ParsePath(a + b).parts == ParsePath(a).parts + ParsePath(b).parts
  {
    var a' := a[..|a| - 1];
    assert a == a' + "/";
    ParsePathTrailingSlash(a');
    assert a + b == a' + "/" + b;
    ParsePathConcat(a', b);
  }

  /** `PurePosixPath(a) / b` is the parse of `os.path.join(a, b)`: `pathlib`
      and `os.path` agree on where a path leads. */
  lemma DivIsParseOfJoin(a: string, b: string)
    ensures Div(ParsePath(a), b) == ParsePath(Join(a, b))
  {
    if !IsAbs(b) {
      var j := Join(a, b);
      if a == [] {
        assert j == b;
        ParsePathComponent(a);
      } else if a[|a| - 1] == '/' {
        assert j == a + b && j[0] == a[0];
        JoinAfterSlash(a, b);
      } else {
        assert j == a + "/" + b && j[0] == a[0];
        ParsePathConcat(a, b);
      }
    }
  }

  /** The outcome of the new-folder handler before `mkdir` runs: the folder to
      create, or `None` when `folder_name` is missing and the handler fails. */
  function NewFolderPath(base: string, currentPath: Option<string>, folderName: Option<string>): (r: Option<PurePath>)
    ensures r.None? <==> folderName.None?
    ensures folderName.Some? && !IsAbs(folderName.value) ==>
              r.value.rooted == IsAbs(base) &&
              |ParsePath(base).parts| <= |r.value.parts| &&
              r.value.parts[..|ParsePath(base).parts|] == ParsePath(base).parts
    ensures folderName.Some? && IsAbs(folderName.value) ==> r.value == ParsePath(folderName.value)
  {
    if folderName.None? then None
    else
      var current := LStrip(GetOr(currentPath, "/"), '/');
      assert !IsAbs(current);
      var r := Div(Div(ParsePath(base), current), folderName.value);
      assert !IsAbs(folderName.value) ==> r.parts == ParsePath(base).parts + ParsePath(current).parts + ParsePath(folderName.value).parts;
      Some(r)
  }

  /** A relative folder name is created under the current folder, whose
      components follow the base's. */
  lemma NewFolderUnderCurrent(base: string, currentPath: Option<string>, name: string)
    requires !IsAbs(name)
    ensures var current := LStrip(GetOr(currentPath, "/"), '/');
            NewFolderPath(base, currentPath, Some(name)) ==
              Some(PurePath(IsAbs(base), ParsePath(base).parts + ParsePath(current).parts + ParsePath(name).parts))
  {
    var current := LStrip(GetOr(currentPath, "/"), '/');
    assert !IsAbs(current);
  }

  /** The folder the new-folder handler creates is the one `os.path.join`
      would name: the location of `current_path` joined with the folder name. */
  lemma NewFolderIsLocationJoin(base: string, currentPath: Option<string>, name: string)
    ensures NewFolderPath(base, currentPath, Some(name)) ==
              Some(ParsePath(Join(Location(base, GetOr(currentPath, "/")), name)))
  {
    var current := LStrip(GetOr(currentPath, "/"), '/');
    DivIsParseOfJoin(base, current);
    DivIsParseOfJoin(Join(base, current), name);
  }

  /** What `secure_filename` guarantees of its result: no separator, and
      neither `.` nor `..`. */
  predicate SecureName(name: string)
  {
    '/' !in name && name != "." && name != ".."
  }

  /** What a POST to the folder route answers. */
  datatype UploadOutcome =
    | NoFilePart
    | NoSelectedFile
    | Saved(target: string, redirectTo: string)

  /** The upload decision: no `file` part, an empty file name, or the file
      stored under a free name in the current folder and a redirect back to it.
      `secure` stands for `secure_filename`, and `existing` for the names the
      upload folder holds. */
  function Upload(base: string, fileName: Option<string>, currentPath: Option<string>,
                  existing: set<string>, secure: string -> string): (o: UploadOutcome)
    requires fileName.Some? && fileName.value != "" ==> SecureName(secure(fileName.value))
    ensures o == NoFilePart <==> fileName.None?
    ensures o == NoSelectedFile <==> fileName == Some("")
    ensures o.Saved? ==> o.redirectTo == GetOr(currentPath, "/")
  {
    if fileName.None? then NoFilePart
    else if fileName.value == "" then NoSelectedFile
    else
      var current := GetOr(currentPath, "/");
      var uploadDir := Location(base, current);
      Saved(Join(uploadDir, UniqueFilename(existing, secure(fileName.value))), current)
  }

  /** An accepted upload never overwrites: the stored name is free (not an
      existing name, not empty, `.` or `..`), it is the secured name itself
      whenever that is free, and it is a single component directly inside
      the upload folder. */
  lemma UploadStoresFreshName(base: string, fileName: string, currentPath: Option<string>,
                              existing: set<string>, secure: string -> string)
    requires fileName != ""
    requires SecureName(secure(fileName))
    ensures var dir := Location(base, GetOr(currentPath, "/"));
            var name := UniqueFilename(existing, secure(fileName));
            !Occupied(existing, name) && '/' !in name &&
            (!Occupied(existing, secure(fileName)) ==> name == secure(fileName)) &&
            Upload(base, Some(fileName), currentPath, existing, secure).target == Join(dir, name) &&
            Join(dir, name)[..|dir|] == dir && Join(dir, name)[|Join(dir, name)| - |name|..] == name
  {
    var dir := Location(base, GetOr(currentPath, "/"));
    var name := UniqueFilename(existing, secure(fileName));
    assert !IsAbs(name) by {
      assert name != [] && name[0] in name;
    }
    var target := Join(dir, name);
    assert target[..|dir|] == dir && target[|target| - |name|..] == name;
    assert Upload(base, Some(fileName), currentPath, existing, secure).target == target;
  }

  /** Even when `secure_filename` leaves nothing, the upload is stored, as ` (1)`
      in an empty folder, since the empty name counts as the folder itself. */
  lemma UploadOfEmptySecureName(base: string, fileName: string, secure: string -> string)
    requires fileName != "" && secure(fileName) == ""
    ensures Upload(base, Some(fileName), None, {}, secure) == Saved(Join(Location(base, "/"), " (1)"), "/")
  {
    assert SplitExt("") == ("", "");
    assert Candidate("", 1) == " (1)";
    ProbeFinds({}, "", 1, 1);
  }

  /** The POST branch of the folder route. The decision is the one `Upload`
      defines; what this adds is that the free name comes from running the
      probing loop of `GetUniqueFilename`. */
  method HandleUpload(base: string, fileName: Option<string>, currentPath: Option<string>,
                      existing: set<string>, secure: string -> string) returns (o: UploadOutcome)
    requires fileName.Some? && fileName.value != "" ==> SecureName(secure(fileName.value))
    ensures o == Upload(base, fileName, currentPath, existing, secure)
  {
    if fileName.None? {
      return NoFilePart;
    }
    if fileName.value == "" {
      return NoSelectedFile;
    }
    var current := GetOr(currentPath, "/");
    var uploadDir := Join(base, LStrip(current, '/'));
    var filename := secure(fileName.value);
    var uniqueFilename := GetUniqueFilename(existing, filename);
    o := Saved(Join(uploadDir, uniqueFilename), current);
  }
}
