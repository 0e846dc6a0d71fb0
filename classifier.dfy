/** The display classifier: a file name is mapped to a category through the
    name/extension table, and the category to an (icon, colour) pair through
    the second table. Both tables are a representative part of the program's. */
module Classifier {
  import opened Strings
  import opened PosixPath

  type IconColour = (string, string)

  /** Lower-cased full names and case-sensitive extensions, each with its category. */
  const ExtensionToCategory: map<string, string> := map[
    "dockerfile" := "docker",
    ".dockerignore" := "docker",
    ".gitignore" := "git",
    ".git" := "git",
    ".yml" := "config",
    ".json" := "json",
    ".py" := "python",
    ".txt" := "text",
    ".md" := "markdown",
    ".js" := "javascript",
    ".asm" := "assembly",
    ".s" := "assembly",
    ".S" := "assembly",
    ".c" := "c_cpp",
    ".h" := "c_cpp",
    ".sh" := "shell",
    ".pdf" := "pdf",
    ".png" := "image",
    ".zip" := "archive",
    ".tar" := "archive",
    ".gz" := "archive",
    ".key" := "key",
    "id_rsa" := "private",
    "id_rsa.pub" := "key",
    ".env" := "config"
  ]

  /** Categories with their icon and colour; "c" is listed but no name maps to it. */
  const CategoryToIconAndColour: map<string, IconColour> := map[
    "docker" := ("ti ti-brand-docker", "#0db7ed"),
    "git" := ("ti ti-brand-git", "#f34f29"),
    "config" := ("ti ti-file-settings", "#ff6600"),
    "json" := ("ti ti-json", "#f27e55"),
    "python" := ("ti ti-brand-python", "#0d6efd"),
    "text" := ("ti ti-file-type-txt", "#6c757d"),
    "markdown" := ("ti ti-markdown", "#212529"),
    "javascript" := ("ti ti-brand-javascript", "#ffc107"),
    "assembly" := ("ti ti-letter-s", "#00599C"),
    "c" := ("ti ti-letter-c", "#00599C"),
    "c_cpp" := ("ti ti-brand-cpp", "#00599C"),
    "shell" := ("ti ti-terminal-2", "#00976e"),
    "pdf" := ("ti ti-file-type-pdf", "#dc3545"),
    "image" := ("ti ti-photo-filled", "#0dcaf0"),
    "archive" := ("ti ti-file-zip", "#6c757d"),
    "key" := ("ti ti-key", "#ffcc00"),
    "private" := ("ti ti-lock-filled", "#ffcc00")
  ]

  /** The pair used when the category has no entry, as "default" never does. */
  const DefaultIconColour: IconColour := ("ti ti-file", "#212529")

  /** The category of a file name: its lower-cased full name first, then its
      extension exactly as `splitext` gives it, then "default". */
  function Category(fileName: string): (category: string)
    ensures Lower(fileName) in ExtensionToCategory ==> category == ExtensionToCategory[Lower(fileName)]
    ensures Lower(fileName) !in ExtensionToCategory && SplitExt(fileName).1 in ExtensionToCategory ==>
              category == ExtensionToCategory[SplitExt(fileName).1]
    ensures Lower(fileName) !in ExtensionToCategory && SplitExt(fileName).1 !in ExtensionToCategory ==>
              category == "default"
  {
    var lowered := Lower(fileName);
    if lowered in ExtensionToCategory then ExtensionToCategory[lowered]
    else
      var ext := SplitExt(fileName).1;
      if ext in ExtensionToCategory then ExtensionToCategory[ext] else "default"
  }

  /** `get_file_icon_and_color`: the category's pair, or the default pair. */
  function GetFileIconAndColour(fileName: string): (r: IconColour)
    ensures r == DefaultIconColour <==> Category(fileName) == "default"
  {
    TablesClosed();
    DefaultPairUnused();
    var category := Category(fileName);
    if category in CategoryToIconAndColour then CategoryToIconAndColour[category] else DefaultIconColour
  }

  /** Every category the first table produces has an entry in the second. */
  lemma TablesClosed()
    ensures forall key :: key in ExtensionToCategory ==> ExtensionToCategory[key] in CategoryToIconAndColour
    ensures forall key :: key in ExtensionToCategory ==> ExtensionToCategory[key] != "default"
  {
  }

  /** No category is shown with the default pair, and "default" itself has no entry. */
  lemma DefaultPairUnused()
    ensures "default" !in CategoryToIconAndColour
    ensures forall category :: category in CategoryToIconAndColour ==> CategoryToIconAndColour[category] != DefaultIconColour
  {
  }

  /** The default icon and colour appear exactly when neither the full name
      nor the extension is in the table. */
  lemma FallbackIffUnmatched(fileName: string)
    ensures GetFileIconAndColour(fileName) == DefaultIconColour <==>
              Lower(fileName) !in ExtensionToCategory && SplitExt(fileName).1 !in ExtensionToCategory
  {
    TablesClosed();
    DefaultPairUnused();
    var lowered := Lower(fileName);
    var ext := SplitExt(fileName).1;
    if lowered in ExtensionToCategory {
      assert ExtensionToCategory[lowered] in CategoryToIconAndColour;
    } else if ext in ExtensionToCategory {
      assert ExtensionToCategory[ext] in CategoryToIconAndColour;
    }
  }

  /** The lower-cased forms of the example names. */
  lemma ExampleLowerCase()
    ensures Lower("Dockerfile") == "dockerfile" && Lower(".ENV") == ".env"
    ensures Lower("x.PY") == "x.py" && Lower("x.S") == "x.s"
    ensures Lower(".gitignore") == ".gitignore" && Lower(".bashrc") == ".bashrc"
    ensures Lower("archive.tar.gz") == "archive.tar.gz" && Lower("unknownfile.xyz") == "unknownfile.xyz"
  {
    LowerOfLower(".gitignore");
    LowerOfLower(".bashrc");
    LowerOfLower("archive.tar.gz");
    LowerOfLower("unknownfile.xyz");
  }

  /** The table entries the examples below meet. */
  lemma ExampleHits()
    ensures ExtensionToCategory["dockerfile"] == "docker" && ExtensionToCategory[".gitignore"] == "git"
    ensures ExtensionToCategory[".env"] == "config" && ExtensionToCategory[".S"] == "assembly"
    ensures ExtensionToCategory[".gz"] == "archive"
  {
  }

  /** The lower-cased names of the examples below that the table lacks. */
  lemma ExampleNameMisses()
    ensures "x.py" !in ExtensionToCategory && "x.s" !in ExtensionToCategory && ".bashrc" !in ExtensionToCategory
    ensures "archive.tar.gz" !in ExtensionToCategory && "unknownfile.xyz" !in ExtensionToCategory
  {
  }

  /** The extensions of the examples below that the table lacks. */
  lemma ExampleExtensionMisses()
    ensures ".PY" !in ExtensionToCategory && ".xyz" !in ExtensionToCategory && "" !in ExtensionToCategory
  {
  }

  /** The icons of the categories the examples below reach. */
  lemma ExampleIcons()
    ensures CategoryToIconAndColour["docker"] == ("ti ti-brand-docker", "#0db7ed")
    ensures CategoryToIconAndColour["git"] == ("ti ti-brand-git", "#f34f29")
    ensures CategoryToIconAndColour["config"] == ("ti ti-file-settings", "#ff6600")
    ensures CategoryToIconAndColour["assembly"] == ("ti ti-letter-s", "#00599C")
    ensures CategoryToIconAndColour["archive"] == ("ti ti-file-zip", "#6c757d")
  {
  }

  /** A lower-cased full-name match decides before any extension is looked at
      (`Dockerfile`, `.gitignore`, `.ENV`); extensions are looked up without
      lower-casing (`.PY` is unknown, `.S` has its own entry); only the last
      extension counts (`archive.tar.gz`); a leading dot does not start an
      extension (`.bashrc`). */
  lemma CategoryExamples()
    ensures Category("Dockerfile") == "docker"
    ensures Category(".gitignore") == "git"
    ensures Category(".ENV") == "config"
    ensures Category("x.PY") == "default"
    ensures Category("x.S") == "assembly"
    ensures Category("archive.tar.gz") == "archive"
    ensures Category("unknownfile.xyz") == "default"
    ensures Category(".bashrc") == "default"
  {
    ExampleLowerCase();
    ExampleHits();
    ExampleNameMisses();
    ExampleExtensionMisses();
    SplitExtKeepsCase();
    SplitExtLastDot();
    SplitExtLeadingDot();
  }

  /** The icons the examples above are shown with. */
  lemma IconExamples()
    ensures GetFileIconAndColour("Dockerfile") == ("ti ti-brand-docker", "#0db7ed")
    ensures GetFileIconAndColour(".gitignore") == ("ti ti-brand-git", "#f34f29")
    ensures GetFileIconAndColour(".ENV") == ("ti ti-file-settings", "#ff6600")
    ensures GetFileIconAndColour("x.PY") == DefaultIconColour
    ensures GetFileIconAndColour("x.S") == ("ti ti-letter-s", "#00599C")
    ensures GetFileIconAndColour("archive.tar.gz") == ("ti ti-file-zip", "#6c757d")
    ensures GetFileIconAndColour("unknownfile.xyz") == DefaultIconColour
    ensures GetFileIconAndColour(".bashrc") == DefaultIconColour
  {
    CategoryExamples();
    ExampleIcons();
    DefaultPairUnused();
  }
}
