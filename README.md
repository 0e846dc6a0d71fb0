# A verified model of the Flask file browser's core

The file browser (`app.py`) serves a folder tree below a base location. This
project models the parts of it that hold logic rather than plumbing:

- **Classification**: a file name is mapped to a category. The lower-cased
  full name is looked up first, then the extension exactly as
  `os.path.splitext` gives it, then `default`. The category is then mapped to
  an icon and colour, with a fallback pair (`Classifier`).
- **Collision-free upload names**: `get_unique_filename` tries the name
  itself, then `base (1)ext`, `base (2)ext`, … until one is free
  (`UniqueName`).
- **The folder listing**. The names are sorted by the key
  `(not isdir, name[0] != '.', name.lower())` with Python's stable sort. Each
  name becomes an entry with its icon and a link `path + "/" + name`. Below the
  root, a `..` entry links to `'/'.join(path.split('/')[:-1])` and is put in
  front (`Listing`).
- **Path composition**: the requested path and the `current_path` form field
  lose their leading slashes and are joined onto the base with
  `os.path.join`. The new-folder handler does the same with `pathlib`
  (`Routes`).
- **The upload decision**, in the code's order: a missing `file` part, an
  empty file name, else the file is stored under a free name in the current
  folder and the browser is redirected back (`Routes`).

The Python library behaviour these rely on is written out:
- `str.lower`, string `<`, `rfind`, `lstrip`, `split`/`join` on one character
  and `str(int)` are in `Strings`;
- POSIX `os.path.splitext` and `os.path.join` are in `PosixPath`.

Nothing in the code confines a path to the base location. The model therefore
proves the opposite of containment where the code allows it:
- `..` segments pass through textually (`Routes.LocationKeepsParentSteps`);
- an absolute folder name replaces the whole new-folder path
  (`Routes.NewFolderPath`).

The code has no resolver that rejects escapes. It also has no feature gates,
no delete operation, no `sort_by` parameter and no collapsing of duplicate
slashes in links, so the model has none of these either. At the root, an
entry's link is therefore `//name`.

The listing lemmas take the icon function as a parameter, so they hold
whatever the classifier answers. `Listing.BuildListing`
instantiates them with `Classifier.GetFileIconAndColour`.

## Model

| member | source | states |
|---|---|---|
| Strings.Lower | app.py:248 | lower-casing keeps the length, turns each upper-case ASCII letter into its lower-case letter (32 code points up) and keeps every other character |
| Strings.LowerOfLower | app.py:248 | a name without upper-case letters is its own lower-case form |
| Strings.StrLessIrreflexive | app.py:308 | string `<` is irreflexive |
| Strings.StrLessTransitive | app.py:308 | string `<` is transitive |
| Strings.StrLessTotal | app.py:308 | any two different strings are ordered one way or the other |
| Strings.RFind | app.py:251-252 | `rfind` gives the last index holding the character, or -1 when there is none |
| Strings.LStrip | app.py:288 | `lstrip('/')` removes exactly the leading run of slashes and keeps the rest as a suffix |
| Strings.SplitOn | app.py:329 | `split('/')` gives at least one piece and no piece holds the separator |
| Strings.SplitOnConcat | app.py:275 | splitting `x + '/' + y` gives the pieces of `x` followed by those of `y` |
| Strings.JoinSplit | app.py:329 | joining the pieces of a split gives back the string |
| Strings.SplitJoin | app.py:329 | splitting a join of separator-free pieces gives back the pieces |
| Strings.NatToStr | app.py:265 | `str(counter)` is a non-empty run of digits with no leading zero |
| Strings.ParseNatToStr | app.py:265 | reading the printed counter gives back the counter |
| Strings.NatToStrInjective | app.py:265 | different counters print differently |
| PosixPath.SplitExt | app.py:252 | the base and the extension concatenate to the name; a non-empty extension is one dot followed by no dot or slash |
| PosixPath.SplitExtHasExtension | app.py:252 | there is an extension exactly when the last component has a dot with a non-dot character before it |
| PosixPath.SplitExtOfComponent | app.py:252 | for a single component, the extension starts at its last dot exactly when something other than a dot precedes it |
| PosixPath.SplitExtKeepsCase | app.py:252 | `x.PY` and `x.S` keep the case of their extensions |
| PosixPath.SplitExtLastDot | app.py:252 | only the text from the last dot of `archive.tar.gz` is its extension, and `unknownfile.xyz` has the extension `.xyz` |
| PosixPath.SplitExtLeadingDot | app.py:252 | `.bashrc` has no extension |
| PosixPath.Join | app.py:288 | an absolute second part replaces the first; otherwise the result is the first part, then one slash unless the first is empty or ends in one, then the second part, with its length exactly the sum of those |
| Classifier.Category | app.py:247-253 | a full-name hit decides the category; otherwise the extension's entry decides; with neither in the table the category is `default` |
| Classifier.GetFileIconAndColour | app.py:247-257 | the fallback pair is returned exactly when the category is `default` |
| Classifier.TablesClosed | app.py:28-244 | every category the name table produces has an icon entry |
| Classifier.DefaultPairUnused | app.py:190-244 | `default` has no icon entry and no category shares the fallback pair |
| Classifier.FallbackIffUnmatched | app.py:247-256 | the fallback icon is shown exactly when neither the lower-cased name nor the extension is in the table |
| Classifier.ExampleLowerCase | app.py:248 | the lower-cased forms of the example names |
| Classifier.ExampleHits | app.py:28-187 | the table entries the examples meet |
| Classifier.ExampleNameMisses | app.py:28-187 | the example names the table lacks |
| Classifier.ExampleExtensionMisses | app.py:28-187 | the example extensions the table lacks |
| Classifier.ExampleIcons | app.py:190-244 | the icons of the categories the examples reach |
| Classifier.CategoryExamples | app.py:247-253 | `Dockerfile`, `.gitignore` and `.ENV` match by full name; `x.PY` is unknown and `x.S` is assembly; `archive.tar.gz` is an archive; `.bashrc` and `unknownfile.xyz` are default |
| Classifier.IconExamples | app.py:247-256 | the icon and colour each example is shown with |
| UniqueName.Occupied | app.py:264 | a name is taken when `os.path.exists` holds for it in the existing folder: an existing entry, or the empty name, `.` or `..`, which name the folder itself or its parent |
| UniqueName.Candidate | app.py:265 | the k-th candidate is at least four characters longer than the name, so it never equals it |
| UniqueName.CandidateNoSlash | app.py:265 | a candidate of a slash-free name is slash-free |
| UniqueName.CandidateInjective | app.py:265 | different counters give different candidate names |
| UniqueName.CandidatesCount | app.py:264-266 | the first n candidates are n different names |
| UniqueName.CounterBound | app.py:264-266 | if the first n candidates are taken, the directory holds at least n names, so the loop ends |
| UniqueName.Probe | app.py:264-266 | probing from k returns a free candidate, no later than the directory's size plus one, with every earlier one taken |
| UniqueName.UniqueFilename | app.py:260-267 | the result is free and slash-free; it is the name itself when that is free, else the least free candidate |
| UniqueName.CounterBoundWithOriginal | app.py:264-266 | with the name itself taken, fewer candidates than existing names are taken |
| UniqueName.UniqueFilenameCounter | app.py:260-267 | when a non-empty name is taken, the counter used is between 1 and the number of existing names and all earlier candidates exist |
| UniqueName.ProbeFinds | app.py:264-266 | probing stops at the first free candidate |
| UniqueName.GetUniqueFilename | app.py:260-267 | the loop returns the name `UniqueFilename` defines: free, and the least free candidate when the name is taken |
| UniqueName.ReportExample | app.py:260-267 | next to `report.txt` and `report (1).txt`, the upload is stored as `report (2).txt` |
| Listing.Key | app.py:308 | the sort key; its order is stated by `SortedOrder` |
| Listing.KeyLessIrreflexive | app.py:308 | the tuple order on sort keys is irreflexive |
| Listing.KeyLessTransitive | app.py:308 | the tuple order on sort keys is transitive |
| Listing.KeyLessTotal | app.py:308 | different sort keys are ordered one way or the other |
| Listing.SortByKey | app.py:308 | the sorted names are ordered by key, a permutation of the input, and list the names of each key in enumeration order (stability) |
| Listing.SortedFiltersDetermine | app.py:308 | two sorted sequences with the same names per key in the same order are equal |
| Listing.StableSortUnique | app.py:308 | every stable sort by the key gives the same result as `SortByKey` |
| Listing.SortedOrder | app.py:308 | sorted means folders first; then dot-names first; then by lower-cased name |
| Listing.ParentPath | app.py:329 | the parent link; its meaning is stated by `ParentPathIsPrefix` and `ParentOfRoot` |
| Listing.ParentPathIsPrefix | app.py:329 | the parent link is the path up to its last slash, or empty without one |
| Listing.ParentOfRoot | app.py:325-329 | the root's parent link would be empty |
| Listing.DirContents | app.py:304-334 | the listing; its shape and order are stated by the four `DirContents…` lemmas |
| Listing.DirContentsShape | app.py:309-334 | one entry per sorted name in order, behind the parent entry when the path is not `/` |
| Listing.DirContentsParentFirst | app.py:325-334 | the first entry is the parent link exactly when the path is not `/` |
| Listing.DirContentsFoldersFirst | app.py:308-334 | every folder, the `..` entry included, is listed before every file |
| Listing.DirContentsNameOrder | app.py:308-319 | within folders or files, dot-names come first, and names of the same visibility are in lower-cased order |
| Listing.ChildEntries | app.py:309-324 | the loop builds one entry per name, with the folder icon or the classifier's pair |
| Listing.BuildListing | app.py:304-334 | the listing is the sorted names' entries behind the parent entry, as `DirContents` defines |
| Routes.Location | app.py:288 | the location keeps the base as a prefix, followed by a slash and the path without its leading slashes |
| Routes.LStripSlashes | app.py:288 | stripping ignores any run of slashes put in front |
| Routes.LocationIgnoresLeadingSlashes | app.py:288 | extra leading slashes in the request path lead to the same location |
| Routes.LocationVersusRawJoin | app.py:288 | `/etc` cannot replace the base, as a raw `os.path.join` would let it |
| Routes.LocationKeepsParentSteps | app.py:288 | `../etc` below `/srv` stays `/srv/../etc`: nothing is resolved or rejected |
| Routes.Components | app.py:275 | `pathlib` keeps only non-empty, non-`.` pieces, and keeps every such piece |
| Routes.ComponentsAppend | app.py:275 | the component filter distributes over concatenation |
| Routes.ComponentsOne | app.py:275 | one piece is kept exactly when it is neither empty nor `.`; with `ComponentsAppend` this fixes the filter's result, order included |
| Routes.ParsePath | app.py:275 | a parsed path is rooted exactly when the text starts with a slash, and has no empty, `.` or slash-holding component |
| Routes.ParsePathConcat | app.py:275 | the components of `x/y` are those of `x` followed by those of `y` |
| Routes.ParsePathComponent | app.py:275 | a slash-free text is a single component, or none when it is empty or `.` |
| Routes.ParsePathTrailingSlash | app.py:275 | a trailing slash adds no component |
| Routes.JoinAfterSlash | app.py:275 | the components of `a + b`, with `a` ending in a slash, are those of `a` followed by those of `b` |
| Routes.Div | app.py:275 | `/` with an absolute part replaces the path; otherwise it appends the part's components |
| Routes.DivIsParseOfJoin | app.py:275 | `PurePosixPath(a) / b` is the parse of `os.path.join(a, b)`, for every `a` and `b` |
| Routes.NewFolderPath | app.py:272-275 | a missing folder name fails; a relative one lands under the base's components; an absolute one replaces everything |
| Routes.NewFolderUnderCurrent | app.py:275 | a relative folder name is created under the current folder below the base |
| Routes.NewFolderIsLocationJoin | app.py:272-275 | the new folder is the parse of `os.path.join` of the current folder's location and the folder name, the same location the upload handler computes |
| Routes.Upload | app.py:290-302 | a missing file part and an empty file name are refused in that order; otherwise the redirect goes back to `current_path` |
| Routes.UploadStoresFreshName | app.py:297-301 | an accepted upload is stored directly in the upload folder under a slash-free name that is not taken (not an existing entry, not empty, `.` or `..`), which is the secured name whenever that is free |
| Routes.UploadOfEmptySecureName | app.py:299-301 | when the secured name is empty, the upload is still stored, as ` (1)` in an empty folder |
| Routes.HandleUpload | app.py:290-302 | the handler's answer, with the free name found by the probing loop of `GetUniqueFilename`, is the one `Upload` defines |

## Left out

- Classifier.ExtensionToCategory and Classifier.CategoryToIconAndColour hold a representative subset of the two tables (app.py:28-187, 190-244) with their exact strings. The full tables would make every lookup far more expensive to verify.
- Strings.Lower folds ASCII letters only; Python's `str.lower` also folds non-ASCII letters.
- UniqueName.Occupied takes the upload folder as a fixed set of names and assumes the folder exists. When it does not, `os.path.exists` is false for every probe and the code returns the name unchanged; `save` then fails, which is outside the model. Symbolic links, dangling links and concurrent uploads changing the folder during probing are not modelled.
- UniqueName.UniqueFilename and UniqueName.GetUniqueFilename require a name without `/`. A name with a slash would be probed as a nested path, which the set of names in one folder cannot express. The upload handler only passes `secure_filename` results, which never hold a slash.
- `secure_filename` is a parameter of `Routes.Upload`, because it is library code. Routes.Upload and Routes.HandleUpload require of it what it guarantees: its result holds no `/` and is neither `.` nor `..` (`Routes.SecureName`). It may be empty, and that case is modelled (`Routes.UploadOfEmptySecureName`).
- Routes.Upload does not model the `if file:` test. A file part with a non-empty name is always truthy, so that test never fails.
- Listing.BuildListing reads each name's folder flag once. The code asks the filesystem twice, once for the sort key and once for the entry; the two answers agree unless the folder changes meanwhile.
- Listing.BuildListing requires non-empty names, since the sort key indexes `name[0]`. A directory enumeration never yields an empty name.
- Routes.ParsePath does not model `pathlib`'s special case of exactly two leading slashes.
- Creating the folder (`mkdir`), saving the upload, and the error answer of a failing `mkdir` are filesystem effects and are not modelled.
- The sizes and modification times of entries are not modelled (`humanize`, `datetime`, `os.path.getsize`, `os.path.getmtime`).
- Whether a location is a folder, and `send_from_directory` for files, are filesystem questions handled by Flask.
- Flask routing, templates, `url_for`, argument parsing, the certificate installer and the variant applications are outside the core.
