/** The command-line build (`build-index.js`): read the configuration,
    empty `dist`, copy the two static files and the filled-in template,
    copy the configuration, then copy the `.json` records of a FIXED list
    of shelf folders and write `dist/books/index.json`.

    It differs from the desktop build: a missing configuration ends the
    script with its own message, `copyFile` makes the destination folder
    first, a missing static, template or shelf folder is warned about and
    skipped, the shelf folders do not come from the configuration, and no
    covers are copied. The warnings the script prints are part of the
    value of a finished run. */
module CliBuild {
  import opened Wrappers
  import opened Text
  import opened Types
  import opened Seqs
  import opened Files
  import opened LibraryStore
  import opened SiteBuild
  import Template
  import EngineHandlers

  const CliStatics: seq<string> := ["styles-minimalist.css", "app.js"]
  const TemplateFiles: seq<string> := ["index.html"]
  const ShelfFolders: seq<string> := ["top-5-reads", "good-reads", "current-and-future-reads"]
  const ConfigMissing := "Error: config.json not found"

  function StaticMissing(file: string): string { "Warning: Static file not found: " + file }
  function TemplateMissing(file: string): string { "Warning: Template file not found: " + file }
  function FolderMissing(folder: string): string { "Warning: Folder not found: " + folder }

  /** `path.dirname`. */
  function Dirname(p: Path): Path {
    if p == [] then [] else p[..|p| - 1]
  }

  /** `copyFile`: make the destination's folder when missing, then copy. */
  function CopyInto(fs: FileSystem, src: Path, dst: Path): (r: Run<()>)
    ensures r.Done? ==> src in fs.files && r.fs.files == fs.files[dst := fs.files[src]]
  {
    match Files.EnsureDir(fs, Dirname(dst))
    case Failure(m) => Aborted(fs, m)
    case Success(fs1) => Lift(fs1, CopyFile(fs1, src, dst))
  }

  /** `loadConfig`: a missing file stops the script before anything is
      touched; a file that does not parse throws. */
  function LoadConfig(fs: FileSystem, root: Path): Result<Config, string> {
    if !Exists(fs, ConfigPath(root)) then Failure(ConfigMissing) else ReadConfig(fs, ConfigPath(root))
  }

  /** `cleanDist`. */
  function CleanDist(fs: FileSystem, dist: Path): Run<()> {
    var fs1 := if Exists(fs, dist) then RemoveTree(fs, dist) else fs;
    Lift(fs1, Files.EnsureDir(fs1, dist))
  }

  /** The loop over the static files; the value is the warnings printed. */
  function CopyStaticList(fs: FileSystem, root: Path, names: seq<string>): Run<seq<string>>
  {
    if names == [] then Done(fs, [])
    else match CopyStaticList(fs, root, names[..|names| - 1])
      case Aborted(fs1, m) => Aborted(fs1, m)
      case Done(fs1, warnings) =>
        var file := names[|names| - 1];
        if !Exists(fs1, root + [file]) then Done(fs1, warnings + [StaticMissing(file)])
        else match CopyInto(fs1, root + [file], DistDir(root) + [file])
          case Aborted(fs2, m) => Aborted(fs2, m)
          case Done(fs2, _) => Done(fs2, warnings)
  }

  /** The loop over the template files: each is filled in and written to
      `dist`; a template that is not text is written back as it is. */
  function TemplateList(fs: FileSystem, root: Path, names: seq<string>, config: Config): Run<seq<string>>
  {
    if names == [] then Done(fs, [])
    else match TemplateList(fs, root, names[..|names| - 1], config)
      case Aborted(fs1, m) => Aborted(fs1, m)
      case Done(fs1, warnings) =>
        var file := names[|names| - 1];
        if !Exists(fs1, root + [file]) then Done(fs1, warnings + [TemplateMissing(file)])
        else match ReadFile(fs1, root + [file])
          case Failure(m) => Aborted(fs1, m)
          case Success(c) =>
            var page := if c.PlainText? then PlainText(Template.ProcessTemplateAsWritten(c.text, config)) else c;
            match WriteFile(fs1, DistDir(root) + [file], page)
            case Failure(m) => Aborted(fs1, m)
            case Success(fs2) => Done(fs2, warnings)
  }

  /** `copyStaticFiles`: the statics, the templates, then the configuration. */
  function CopyStaticFiles(fs: FileSystem, root: Path, config: Config): Run<seq<string>> {
    match CopyStaticList(fs, root, CliStatics)
    case Aborted(fs1, m) => Aborted(fs1, m)
    case Done(fs1, w1) =>
      match TemplateList(fs1, root, TemplateFiles, config)
      case Aborted(fs2, m) => Aborted(fs2, m)
      case Done(fs2, w2) =>
        match CopyInto(fs2, ConfigPath(root), DistDir(root) + ["config.json"])
        case Aborted(fs3, m) => Aborted(fs3, m)
        case Done(fs3, _) => Done(fs3, w1 + w2)
  }

  /** The copy loop of one folder, over its `"<folder>/<file>"` entries. */
  function CopyEntries(fs: FileSystem, source: Path, distBooks: Path, files: seq<string>): Run<()>
    requires PlainPath(source) && PlainPath(distBooks)
  {
    if files == [] then Done(fs, ())
    else match CopyEntries(fs, source, distBooks, files[..|files| - 1])
      case Aborted(fs1, m) => Aborted(fs1, m)
      case Done(fs1, _) =>
        var file := files[|files| - 1];
        CopyInto(fs1, Join(source, file), Join(distBooks, file))
  }

  /** The index built so far and the warnings printed so far. */
  datatype Books = Books(index: seq<string>, warnings: seq<string>)

  /** One pass of the loop of `buildBooks`: a missing folder is warned about
      and skipped; otherwise its `.json` records are copied and indexed. */
  function AddFolder(fs: FileSystem, source: Path, distBooks: Path, folder: string,
                     order: set<string> -> seq<string>, books: Books): Run<Books>
    requires PlainPath(source) && PlainPath(distBooks)
  {
    var folderPath := Join(source, folder);
    if !Exists(fs, folderPath) then Done(fs, Books(books.index, books.warnings + [FolderMissing(folder)]))
    else match ListDir(fs, folderPath, order)
      case Failure(m) => Aborted(fs, m)
      case Success(names) =>
        var files := Prefixed(folder, JsonNames(names));
        match CopyEntries(fs, source, distBooks, files)
        case Aborted(fs1, m) => Aborted(fs1, m)
        case Done(fs1, _) => Done(fs1, Books(books.index + files, books.warnings))
  }

  /** The loop of `buildBooks` over the shelf folders. */
  function BuildFolders(fs: FileSystem, source: Path, distBooks: Path, folders: seq<string>,
                        order: set<string> -> seq<string>): Run<Books>
    requires PlainPath(source) && PlainPath(distBooks)
  {
    if folders == [] then Done(fs, Books([], []))
    else match BuildFolders(fs, source, distBooks, folders[..|folders| - 1], order)
      case Aborted(fs1, m) => Aborted(fs1, m)
      case Done(fs1, books) => AddFolder(fs1, source, distBooks, folders[|folders| - 1], order, books)
  }

  /** `buildBooks`: `dist/books`, the folders, then `index.json`. */
  function BuildBooks(fs: FileSystem, source: Path, distBooks: Path, order: set<string> -> seq<string>): Run<Books>
    requires PlainPath(source) && PlainPath(distBooks)
  {
    match Files.EnsureDir(fs, distBooks)
    case Failure(m) => Aborted(fs, m)
    case Success(fs1) =>
      match BuildFolders(fs1, source, distBooks, ShelfFolders, order)
      case Aborted(fs2, m) => Aborted(fs2, m)
      case Done(fs2, books) =>
        match WriteFile(fs2, distBooks + ["index.json"], IndexDoc(books.index))
        case Failure(m) => Aborted(fs2, m)
        case Success(fs3) => Done(fs3, books)
  }

  /** Everything before the books: the configuration, the clean-up and the
      copies; the value is the configuration and the warnings. */
  function CliPrepare(fs: FileSystem, root: Path): Run<(Config, seq<string>)> {
    match LoadConfig(fs, root)
    case Failure(m) => Aborted(fs, m)
    case Success(config) =>
      match CleanDist(fs, DistDir(root))
      case Aborted(fs1, m) => Aborted(fs1, m)
      case Done(fs1, _) =>
        match CopyStaticFiles(fs1, root, config)
        case Aborted(fs2, m) => Aborted(fs2, m)
        case Done(fs2, warnings) => Done(fs2, (config, warnings))
  }

  /** `build`: the value is the index and every warning, in the order printed. */
  function CliBuildRun(fs: FileSystem, root: Path, useSample: bool, order: set<string> -> seq<string>): Run<Books>
    requires PlainPath(root)
  {
    match CliPrepare(fs, root)
    case Aborted(fs1, m) => Aborted(fs1, m)
    case Done(fs1, prepared) =>
      match BuildBooks(fs1, SourceDir(root, useSample), DistBooks(root), order)
      case Aborted(fs2, m) => Aborted(fs2, m)
      case Done(fs2, books) => Done(fs2, Books(books.index, prepared.1 + books.warnings))
  }

  // ---------------------------------------------------------------------
  // Reference definitions.

  /** One warning per name whose file is missing from `dir`, in order. */
  function Missing(fs: FileSystem, dir: Path, names: seq<string>, warn: string -> string): seq<string> {
    if names == [] then []
    else
      var n := names[|names| - 1];
      Missing(fs, dir, names[..|names| - 1], warn) + (if !Exists(fs, dir + [n]) then [warn(n)] else [])
  }

  /** The index entries of one folder: `"<folder>/<name>"` for its `.json`
      names in listing order, none when it is not a folder. */
  function FolderEntries(fs: FileSystem, source: Path, folder: string, order: set<string> -> seq<string>)
    : seq<string>
  {
    var dir := source + [folder];
    if dir in fs.dirs then Prefixed(folder, JsonNames(order(Entries(fs, dir)))) else []
  }

  /** What the index should be: the entries of each folder in turn. */
  function FolderIndex(fs: FileSystem, source: Path, folders: seq<string>, order: set<string> -> seq<string>)
    : seq<string>
  {
    if folders == [] then []
    else FolderIndex(fs, source, folders[..|folders| - 1], order) + FolderEntries(fs, source, folders[|folders| - 1], order)
  }

  /** A record `<folder>/<name>` of the source has its copy, with the same
      content, at the same relative path under `distBooks`. */
  ghost predicate Mirrored(fs0: FileSystem, fs: FileSystem, source: Path, distBooks: Path, folder: string, name: string) {
    && source + [folder, name] in fs0.files
    && distBooks + [folder, name] in fs.files
    && fs.files[distBooks + [folder, name]] == fs0.files[source + [folder, name]]
  }

  // ---------------------------------------------------------------------
  // Paths.

  lemma CliNamesPlain()
    ensures forall n :: n in CliStatics ==> PlainName(n) && n != "dist"
    ensures forall n :: n in TemplateFiles ==> PlainName(n) && n != "dist"
    ensures forall n :: n in ShelfFolders ==> PlainName(n)
  {
    assert PlainName("styles-minimalist.css");
    assert PlainName("app.js");
    assert PlainName("index.html");
    assert PlainName("top-5-reads");
    assert PlainName("good-reads");
    assert PlainName("current-and-future-reads");
  }

  /** `path.join(base, folder + '/' + name)` adds exactly those two segments. */
  lemma JoinPair(base: Path, a: string, b: string)
    requires PlainPath(base) && PlainName(a) && PlainName(b)
    ensures Join(base, a + "/" + b) == base + [a, b]
  {
    SplitAtFirst(a, b, '/');
    SplitWithoutSeparator(b, '/');
    assert a + "/" + b == a + ['/'] + b;
    assert base + Split(a + "/" + b, '/') == base + [a, b];
    assert PlainPath(base + [a, b]);
    NormalizePlain(base + [a, b]);
  }

  /** A copy whose destination folder lies inside `region` changes nothing
      outside it. */
  lemma CopyIntoOutside(fs0: FileSystem, fs: FileSystem, src: Path, dst: Path, region: Path)
    requires SameOutside(fs0, fs, region) && AncestorsIn(fs0, region)
    requires dst != [] && Under(Dirname(dst), region)
    requires CopyInto(fs, src, dst).Done?
    ensures SameOutside(fs0, CopyInto(fs, src, dst).fs, region)
  {
    var d := Dirname(dst);
    var fs1 := Files.EnsureDir(fs, d).value;
    if !Exists(fs, d) {
      MkdirsOutside(fs0, fs, d, region);
    }
    assert SameOutside(fs0, fs1, region);
    assert d + [dst[|dst| - 1]] == dst;
    CopyFileOutside(fs0, fs1, src, dst, region);
  }

  // ---------------------------------------------------------------------
  // The configuration comes first.

  /** A configuration that is missing or does not parse ends the script
      with nothing changed: `dist` is not touched. */
  lemma CliConfigFirst(fs: FileSystem, root: Path, useSample: bool, order: set<string> -> seq<string>)
    requires PlainPath(root) && LoadConfig(fs, root).Failure?
    ensures CliBuildRun(fs, root, useSample, order) == Aborted(fs, LoadConfig(fs, root).error)
    ensures !Exists(fs, ConfigPath(root)) ==> CliBuildRun(fs, root, useSample, order) == Aborted(fs, ConfigMissing)
  {
  }

  // ---------------------------------------------------------------------
  // `cleanDist`.

  /** Whatever was there before, `dist` afterwards exists and is empty, and
      nothing outside it changed. */
  lemma CleanDistEmpty(fs: FileSystem, root: Path)
    requires Valid(fs) && root in fs.dirs
    ensures CleanDist(fs, DistDir(root)).Done?
    ensures DistDir(root) in CleanDist(fs, DistDir(root)).fs.dirs
    ensures Entries(CleanDist(fs, DistDir(root)).fs, DistDir(root)) == {}
    ensures SameOutside(fs, CleanDist(fs, DistDir(root)).fs, DistDir(root))
    ensures Valid(CleanDist(fs, DistDir(root)).fs)
  {
    var dist := DistDir(root);
    var fs1 := if Exists(fs, dist) then RemoveTree(fs, dist) else fs;
    DistCleared(fs, root);
    MkdirsValid(fs1, dist);
    DistMade(fs1, dist);
    MkdirsOutside(fs, fs1, dist, dist);
  }

  /** Removing `dist` keeps the tree well formed, leaves no file on the way
      to it and changes nothing outside it. */
  lemma DistCleared(fs: FileSystem, root: Path)
    requires Valid(fs) && root in fs.dirs
    ensures var dist := DistDir(root);
      var fs1 := if Exists(fs, dist) then RemoveTree(fs, dist) else fs;
      && PlainPath(dist) && Valid(fs1) && !Exists(fs1, dist)
      && (forall i :: 0 <= i <= |dist| ==> dist[..i] !in fs1.files)
      && AncestorsIn(fs, dist) && SameOutside(fs, fs1, dist)
  {
    var dist := DistDir(root);
    assert PlainPath(dist) by {
      assert PlainPath(root);
    }
    var fs1 := if Exists(fs, dist) then RemoveTree(fs, dist) else fs;
    RemoveTreeValid(fs, dist);
    assert Valid(fs1);
    assert !Exists(fs1, dist) by {
      if Exists(fs, dist) {
        assert Under(dist, dist);
      }
    }
    forall i | 0 <= i <= |dist| ensures dist[..i] !in fs1.files {
      if i < |dist| {
        assert dist[..i] == root[..i];
        assert root[..i] in fs.dirs;
        assert root[..i] in fs1.dirs;
      } else {
        assert dist[..i] == dist;
      }
    }
    forall i | 0 <= i < |dist| ensures dist[..i] in fs.dirs {
      assert dist[..i] == root[..i];
    }
  }

  /** A folder just made holds nothing. */
  lemma DistMade(fs1: FileSystem, dist: Path)
    requires Valid(fs1) && !Exists(fs1, dist)
    requires forall i :: 0 <= i <= |dist| ==> dist[..i] !in fs1.files
    ensures var fs2 := Mkdirs(fs1, dist).value;
      dist in fs2.dirs && Entries(fs2, dist) == {}
  {
    var fs2 := Mkdirs(fs1, dist).value;
    assert dist == dist[..|dist|];
    forall n ensures n !in Entries(fs2, dist) {
      EntriesMember(fs2, dist, n);
      assert Under(dist + [n], dist);
      assert forall k :: 0 <= k <= |dist| ==> |dist[..k]| < |dist + [n]|;
    }
  }

  // ---------------------------------------------------------------------
  // The copies stay inside `dist` and warn about exactly what is missing.

  lemma {:induction false} StaticListOutputs(fs0: FileSystem, fs: FileSystem, root: Path, names: seq<string>)
    requires SameOutside(fs0, fs, DistDir(root)) && AncestorsIn(fs0, DistDir(root))
    requires forall n :: n in names ==> n != "dist"
    requires CopyStaticList(fs, root, names).Done?
    ensures CopyStaticList(fs, root, names).value == Missing(fs0, root, names, StaticMissing)
    ensures SameOutside(fs0, CopyStaticList(fs, root, names).fs, DistDir(root))
  {
    if names != [] {
      var init := names[..|names| - 1];
      var file := names[|names| - 1];
      assert forall m :: m in init ==> m in names;
      StaticListOutputs(fs0, fs, root, init);
      var fs1 := CopyStaticList(fs, root, init).fs;
      assert !Under(root + [file], DistDir(root)) by {
        assert file in names;
        assert (root + [file])[|root|] != DistDir(root)[|root|];
      }
      if Exists(fs1, root + [file]) {
        assert DistDir(root) + [file] != [] && Dirname(DistDir(root) + [file]) == DistDir(root);
        CopyIntoOutside(fs0, fs1, root + [file], DistDir(root) + [file], DistDir(root));
      }
    }
  }

  lemma {:induction false} TemplateListOutputs(fs0: FileSystem, fs: FileSystem, root: Path, names: seq<string>,
                                               config: Config)
    requires SameOutside(fs0, fs, DistDir(root))
    requires forall n :: n in names ==> n != "dist"
    requires TemplateList(fs, root, names, config).Done?
    ensures TemplateList(fs, root, names, config).value == Missing(fs0, root, names, TemplateMissing)
    ensures SameOutside(fs0, TemplateList(fs, root, names, config).fs, DistDir(root))
  {
    if names != [] {
      var init := names[..|names| - 1];
      var file := names[|names| - 1];
      assert forall m :: m in init ==> m in names;
      TemplateListOutputs(fs0, fs, root, init, config);
      var fs1 := TemplateList(fs, root, init, config).fs;
      assert !Under(root + [file], DistDir(root)) by {
        assert file in names;
        assert (root + [file])[|root|] != DistDir(root)[|root|];
      }
      if Exists(fs1, root + [file]) {
        var c := ReadFile(fs1, root + [file]).value;
        var page := if c.PlainText? then PlainText(Template.ProcessTemplateAsWritten(c.text, config)) else c;
        WriteFileOutside(fs0, fs1, DistDir(root) + [file], page, DistDir(root));
      }
    }
  }

  lemma CopyStaticFilesOutputs(fs0: FileSystem, fs: FileSystem, root: Path, config: Config)
    requires SameOutside(fs0, fs, DistDir(root)) && AncestorsIn(fs0, DistDir(root))
    requires CopyStaticFiles(fs, root, config).Done?
    ensures CopyStaticFiles(fs, root, config).value
      == Missing(fs0, root, CliStatics, StaticMissing) + Missing(fs0, root, TemplateFiles, TemplateMissing)
    ensures SameOutside(fs0, CopyStaticFiles(fs, root, config).fs, DistDir(root))
  {
    CliNamesPlain();
    StaticListOutputs(fs0, fs, root, CliStatics);
    var fs1 := CopyStaticList(fs, root, CliStatics).fs;
    TemplateListOutputs(fs0, fs1, root, TemplateFiles, config);
    var fs2 := TemplateList(fs1, root, TemplateFiles, config).fs;
    var dst := DistDir(root) + ["config.json"];
    assert dst != [] && Dirname(dst) == DistDir(root);
    CopyIntoOutside(fs0, fs2, ConfigPath(root), dst, DistDir(root));
  }

  // ---------------------------------------------------------------------
  // The books.

  /** Relating a record's mirror before and after a later step. */
  ghost predicate KeepsMirrors(fs0: FileSystem, fs1: FileSystem, fs2: FileSystem, source: Path, distBooks: Path) {
    forall f, n :: Mirrored(fs0, fs1, source, distBooks, f, n) ==> Mirrored(fs0, fs2, source, distBooks, f, n)
  }

  /** One copy of a record mirrors it and keeps every other mirror. */
  lemma CopyEntryStep(fs0: FileSystem, fs1: FileSystem, source: Path, distBooks: Path, region: Path,
                      folder: string, name: string)
    requires Under(distBooks, region) && Apart(source, region)
    requires SameOutside(fs0, fs1, region) && AncestorsIn(fs0, region)
    requires CopyInto(fs1, source + [folder, name], distBooks + [folder, name]).Done?
    ensures var fs2 := CopyInto(fs1, source + [folder, name], distBooks + [folder, name]).fs;
      && SameOutside(fs0, fs2, region)
      && Mirrored(fs0, fs2, source, distBooks, folder, name)
      && KeepsMirrors(fs0, fs1, fs2, source, distBooks)
  {
    var src := source + [folder, name];
    var dst := distBooks + [folder, name];
    assert dst != [] && Dirname(dst) == distBooks + [folder];
    CopyIntoOutside(fs0, fs1, src, dst, region);
    var fs2 := CopyInto(fs1, src, dst).fs;
    assert !Under(src, region) by {
      assert src[..|source|] == source;
    }
    forall f, n | Mirrored(fs0, fs1, source, distBooks, f, n)
      ensures Mirrored(fs0, fs2, source, distBooks, f, n)
    {
      if distBooks + [f, n] == dst {
        assert f == (distBooks + [f, n])[|distBooks|];
        assert n == (distBooks + [f, n])[|distBooks| + 1];
      }
    }
  }

  /** The step of the copy loop, given what the earlier copies did. */
  lemma CopyEntriesSnoc(fs0: FileSystem, fs: FileSystem, fs1: FileSystem, source: Path, distBooks: Path,
                        region: Path, folder: string, init: seq<string>, name: string)
    requires Under(distBooks, region) && Apart(source, region)
    requires SameOutside(fs0, fs1, region) && AncestorsIn(fs0, region)
    requires forall n :: n in init ==> Mirrored(fs0, fs1, source, distBooks, folder, n)
    requires KeepsMirrors(fs0, fs, fs1, source, distBooks)
    requires CopyInto(fs1, source + [folder, name], distBooks + [folder, name]).Done?
    ensures var fs2 := CopyInto(fs1, source + [folder, name], distBooks + [folder, name]).fs;
      && SameOutside(fs0, fs2, region)
      && (forall n :: n in init + [name] ==> Mirrored(fs0, fs2, source, distBooks, folder, n))
      && KeepsMirrors(fs0, fs, fs2, source, distBooks)
  {
    CopyEntryStep(fs0, fs1, source, distBooks, region, folder, name);
    var fs2 := CopyInto(fs1, source + [folder, name], distBooks + [folder, name]).fs;
    forall n | n in init + [name] ensures Mirrored(fs0, fs2, source, distBooks, folder, n) {
      if n != name {
        assert n in init;
        assert Mirrored(fs0, fs1, source, distBooks, folder, n);
      }
    }
    forall f, n | Mirrored(fs0, fs, source, distBooks, f, n) ensures Mirrored(fs0, fs2, source, distBooks, f, n) {
      assert Mirrored(fs0, fs1, source, distBooks, f, n);
    }
  }

  /** A copy of a folder's entries that completes completed its earlier ones. */
  lemma CopyEntriesAbortsOn(fs: FileSystem, source: Path, distBooks: Path, folder: string, names: seq<string>)
    requires PlainPath(source) && PlainPath(distBooks)
    requires names != [] && CopyEntries(fs, source, distBooks, Prefixed(folder, names)).Done?
    ensures CopyEntries(fs, source, distBooks, Prefixed(folder, names[..|names| - 1])).Done?
  {
    var files := Prefixed(folder, names);
    assert files[..|files| - 1] == Prefixed(folder, names[..|names| - 1]);
  }

  /** The copy of a folder's entries ends with the copy of its last entry. */
  lemma CopyEntriesPrefixedLast(fs: FileSystem, fs1: FileSystem, source: Path, distBooks: Path, folder: string, names: seq<string>)
    requires PlainPath(source) && PlainPath(distBooks) && PlainName(folder)
    requires names != [] && PlainName(names[|names| - 1])
    requires CopyEntries(fs, source, distBooks, Prefixed(folder, names[..|names| - 1])) == Done(fs1, ())
    ensures CopyEntries(fs, source, distBooks, Prefixed(folder, names))
      == CopyInto(fs1, source + [folder, names[|names| - 1]], distBooks + [folder, names[|names| - 1]])
  {
    var init := names[..|names| - 1];
    var name := names[|names| - 1];
    var files := Prefixed(folder, names);
    assert files[..|files| - 1] == Prefixed(folder, init) && files[|files| - 1] == folder + "/" + name;
    JoinPair(source, folder, name);
    JoinPair(distBooks, folder, name);
  }

  /** Copying one folder's entries mirrors each of its records and keeps
      every record mirrored before. */
  lemma {:induction false} CopyEntriesOutputs(fs0: FileSystem, fs: FileSystem, source: Path, distBooks: Path,
                                              region: Path, folder: string, names: seq<string>)
    requires PlainPath(source) && PlainPath(distBooks) && PlainName(folder)
    requires forall n :: n in names ==> PlainName(n)
    requires Under(distBooks, region) && Apart(source, region)
    requires SameOutside(fs0, fs, region) && AncestorsIn(fs0, region)
    requires CopyEntries(fs, source, distBooks, Prefixed(folder, names)).Done?
    ensures var r := CopyEntries(fs, source, distBooks, Prefixed(folder, names)).fs;
      && SameOutside(fs0, r, region)
      && (forall n :: n in names ==> Mirrored(fs0, r, source, distBooks, folder, n))
      && KeepsMirrors(fs0, fs, r, source, distBooks)
  {
    if names != [] {
      var init := names[..|names| - 1];
      assert forall m :: m in init ==> m in names;
      CopyEntriesAbortsOn(fs, source, distBooks, folder, names);
      var fs1 := CopyEntries(fs, source, distBooks, Prefixed(folder, init)).fs;
      CopyEntriesOutputs(fs0, fs, source, distBooks, region, folder, init);
      CopyEntriesOutputsStep(fs0, fs, fs1, source, distBooks, region, folder, names);
    } else {
      assert Prefixed(folder, names) == [];
      assert CopyEntries(fs, source, distBooks, Prefixed(folder, names)).fs == fs;
      assert KeepsMirrors(fs0, fs, fs, source, distBooks);
    }
  }

  lemma CopyEntriesOutputsStep(fs0: FileSystem, fs: FileSystem, fs1: FileSystem, source: Path, distBooks: Path,
                               region: Path, folder: string, names: seq<string>)
    requires PlainPath(source) && PlainPath(distBooks) && PlainName(folder)
    requires names != [] && PlainName(names[|names| - 1])
    requires Under(distBooks, region) && Apart(source, region) && AncestorsIn(fs0, region)
    requires CopyEntries(fs, source, distBooks, Prefixed(folder, names[..|names| - 1])) == Done(fs1, ())
    requires CopyEntries(fs, source, distBooks, Prefixed(folder, names)).Done?
    requires SameOutside(fs0, fs1, region)
    requires forall n :: n in names[..|names| - 1] ==> Mirrored(fs0, fs1, source, distBooks, folder, n)
    requires KeepsMirrors(fs0, fs, fs1, source, distBooks)
    ensures var r := CopyEntries(fs, source, distBooks, Prefixed(folder, names)).fs;
      && SameOutside(fs0, r, region)
      && (forall n :: n in names ==> Mirrored(fs0, r, source, distBooks, folder, n))
      && KeepsMirrors(fs0, fs, r, source, distBooks)
  {
    var init := names[..|names| - 1];
    var name := names[|names| - 1];
    TakeSnoc(names, |names|);
    assert names[..|names|] == names;
    CopyEntriesPrefixedLast(fs, fs1, source, distBooks, folder, names);
    CopyEntriesSnoc(fs0, fs, fs1, source, distBooks, region, folder, init, name);
  }


  /** Every `.json` record of each existing folder of `folders` is mirrored. */
  ghost predicate MirrorsFolders(fs0: FileSystem, fs: FileSystem, source: Path, distBooks: Path, folders: seq<string>) {
    forall f, n :: f in folders && source + [f] in fs0.dirs && n in Entries(fs0, source + [f]) && IsJsonName(n)
      ==> Mirrored(fs0, fs, source, distBooks, f, n)
  }

  /** One folder: its entries are indexed and mirrored, and it is warned
      about exactly when it is missing from the original tree. */
  lemma AddFolderOutputs(fs0: FileSystem, fs1: FileSystem, source: Path, distBooks: Path, region: Path,
                         folder: string, order: set<string> -> seq<string>, books: Books)
    requires Valid(fs0) && Lister(order)
    requires PlainPath(source) && PlainPath(distBooks) && PlainName(folder)
    requires Under(distBooks, region) && Apart(source, region)
    requires SameOutside(fs0, fs1, region) && AncestorsIn(fs0, region)
    requires AddFolder(fs1, source, distBooks, folder, order, books).Done?
    ensures var r := AddFolder(fs1, source, distBooks, folder, order, books);
      && r.value.index == books.index + FolderEntries(fs0, source, folder, order)
      && r.value.warnings == books.warnings + (if Exists(fs0, source + [folder]) then [] else [FolderMissing(folder)])
      && SameOutside(fs0, r.fs, region)
      && KeepsMirrors(fs0, fs1, r.fs, source, distBooks)
      && MirrorsFolders(fs0, r.fs, source, distBooks, [folder])
  {
    var dir := source + [folder];
    JoinName(source, folder);
    ApartExtend(source, region, folder);
    EntriesSame(fs0, fs1, region, dir);
    var r := AddFolder(fs1, source, distBooks, folder, order, books);
    if Exists(fs1, dir) {
      var names := JsonNames(order(Entries(fs1, dir)));
      ListedPlain(fs0, dir, order, IsJsonName);
      CopyEntriesOutputs(fs0, fs1, source, distBooks, region, folder, names);
      assert r.fs == CopyEntries(fs1, source, distBooks, Prefixed(folder, names)).fs;
      forall f, n | f in [folder] && dir in fs0.dirs && n in Entries(fs0, source + [f]) && IsJsonName(n)
        ensures Mirrored(fs0, r.fs, source, distBooks, f, n)
      {
        FilterMembers(order(Entries(fs0, dir)), IsJsonName, n);
      }
    } else {
      assert r.fs == fs1;
      assert KeepsMirrors(fs0, fs1, fs1, source, distBooks);
    }
  }

  /** The step of the folder loop, given what the earlier folders did. */
  lemma BuildFoldersSnoc(fs0: FileSystem, fs: FileSystem, fs1: FileSystem, fs2: FileSystem, source: Path,
                         distBooks: Path, init: seq<string>, folder: string)
    requires KeepsMirrors(fs0, fs, fs1, source, distBooks) && KeepsMirrors(fs0, fs1, fs2, source, distBooks)
    requires MirrorsFolders(fs0, fs1, source, distBooks, init)
    requires MirrorsFolders(fs0, fs2, source, distBooks, [folder])
    ensures KeepsMirrors(fs0, fs, fs2, source, distBooks)
    ensures MirrorsFolders(fs0, fs2, source, distBooks, init + [folder])
  {
    forall f, n | Mirrored(fs0, fs, source, distBooks, f, n) ensures Mirrored(fs0, fs2, source, distBooks, f, n) {
      assert Mirrored(fs0, fs1, source, distBooks, f, n);
    }
    forall f, n | f in init + [folder] && source + [f] in fs0.dirs && n in Entries(fs0, source + [f]) && IsJsonName(n)
      ensures Mirrored(fs0, fs2, source, distBooks, f, n)
    {
      if f != folder {
        assert f in init;
        assert Mirrored(fs0, fs1, source, distBooks, f, n);
      } else {
        assert f in [folder];
      }
    }
  }

  /** The folder loop: its index is the reference index of the original
      tree, its warnings name exactly the missing folders, and every record
      it indexes is mirrored. */
  lemma {:induction false} BuildFoldersOutputs(fs0: FileSystem, fs: FileSystem, source: Path, distBooks: Path,
                                               region: Path, folders: seq<string>, order: set<string> -> seq<string>)
    requires Valid(fs0) && Lister(order)
    requires PlainPath(source) && PlainPath(distBooks)
    requires forall f :: f in folders ==> PlainName(f)
    requires Under(distBooks, region) && Apart(source, region)
    requires SameOutside(fs0, fs, region) && AncestorsIn(fs0, region)
    requires BuildFolders(fs, source, distBooks, folders, order).Done?
    ensures var r := BuildFolders(fs, source, distBooks, folders, order);
      && r.value.index == FolderIndex(fs0, source, folders, order)
      && r.value.warnings == Missing(fs0, source, folders, FolderMissing)
      && SameOutside(fs0, r.fs, region)
      && KeepsMirrors(fs0, fs, r.fs, source, distBooks)
      && MirrorsFolders(fs0, r.fs, source, distBooks, folders)
  {
    var r := BuildFolders(fs, source, distBooks, folders, order);
    if folders != [] {
      var init := folders[..|folders| - 1];
      var folder := folders[|folders| - 1];
      TakeSnoc(folders, |folders|);
      assert folders[..|folders|] == folders;
      assert forall m :: m in init ==> m in folders;
      BuildFoldersOutputs(fs0, fs, source, distBooks, region, init, order);
      var run1 := BuildFolders(fs, source, distBooks, init, order);
      assert r == AddFolder(run1.fs, source, distBooks, folder, order, run1.value);
      AddFolderOutputs(fs0, run1.fs, source, distBooks, region, folder, order, run1.value);
      BuildFoldersSnoc(fs0, fs, run1.fs, r.fs, source, distBooks, init, folder);
    } else {
      assert r.fs == fs;
      assert KeepsMirrors(fs0, fs, fs, source, distBooks);
      assert SameOutside(fs0, fs, region);
    }
  }

  /** Writing `index.json` replaces no record copy. */
  lemma IndexKeepsMirrors(fs0: FileSystem, fs: FileSystem, source: Path, distBooks: Path, index: seq<string>)
    requires WriteFile(fs, distBooks + ["index.json"], IndexDoc(index)).Success?
    ensures KeepsMirrors(fs0, fs, WriteFile(fs, distBooks + ["index.json"], IndexDoc(index)).value, source, distBooks)
  {
    var idx := distBooks + ["index.json"];
    forall f, n | Mirrored(fs0, fs, source, distBooks, f, n)
      ensures Mirrored(fs0, WriteFile(fs, idx, IndexDoc(index)).value, source, distBooks, f, n)
    {
      assert |distBooks + [f, n]| != |idx|;
    }
  }

  lemma BuildBooksOutputs(fs0: FileSystem, fs: FileSystem, source: Path, distBooks: Path, region: Path,
                          order: set<string> -> seq<string>)
    requires Valid(fs0) && Lister(order)
    requires PlainPath(source) && PlainPath(distBooks)
    requires Under(distBooks, region) && Apart(source, region)
    requires SameOutside(fs0, fs, region) && AncestorsIn(fs0, region)
    requires BuildBooks(fs, source, distBooks, order).Done?
    ensures var r := BuildBooks(fs, source, distBooks, order);
      && r.value.index == FolderIndex(fs0, source, ShelfFolders, order)
      && r.value.warnings == Missing(fs0, source, ShelfFolders, FolderMissing)
      && distBooks + ["index.json"] in r.fs.files
      && r.fs.files[distBooks + ["index.json"]] == IndexDoc(r.value.index)
      && MirrorsFolders(fs0, r.fs, source, distBooks, ShelfFolders)
  {
    CliNamesPlain();
    var fs1 := Files.EnsureDir(fs, distBooks).value;
    if !Exists(fs, distBooks) {
      MkdirsOutside(fs0, fs, distBooks, region);
    }
    assert SameOutside(fs0, fs1, region);
    BuildFoldersOutputs(fs0, fs1, source, distBooks, region, ShelfFolders, order);
    var run := BuildFolders(fs1, source, distBooks, ShelfFolders, order);
    IndexKeepsMirrors(fs0, run.fs, source, distBooks, run.value.index);
    var fs3 := WriteFile(run.fs, distBooks + ["index.json"], IndexDoc(run.value.index)).value;
    assert BuildBooks(fs, source, distBooks, order) == Done(fs3, run.value);
    forall f, n | f in ShelfFolders && source + [f] in fs0.dirs && n in Entries(fs0, source + [f]) && IsJsonName(n)
      ensures Mirrored(fs0, fs3, source, distBooks, f, n)
    {
      assert Mirrored(fs0, run.fs, source, distBooks, f, n);
    }
  }

  // ---------------------------------------------------------------------
  // The whole script.

  lemma CliPrepareOutputs(fs: FileSystem, root: Path)
    requires Valid(fs) && CliPrepare(fs, root).Done?
    ensures ConfigPath(root) in fs.files && root in fs.dirs
    ensures CliPrepare(fs, root).value.1
      == Missing(fs, root, CliStatics, StaticMissing) + Missing(fs, root, TemplateFiles, TemplateMissing)
    ensures SameOutside(fs, CliPrepare(fs, root).fs, DistDir(root))
    ensures AncestorsIn(fs, DistDir(root))
  {
    var cp := ConfigPath(root);
    assert cp[..|cp| - 1] == root;
    var dist := DistDir(root);
    forall i | 0 <= i < |dist| ensures dist[..i] in fs.dirs {
      assert dist[..i] == root[..i];
    }
    CleanDistEmpty(fs, root);
    var fs1 := CleanDist(fs, dist).fs;
    var config := LoadConfig(fs, root).value;
    CopyStaticFilesOutputs(fs, fs1, root, config);
  }

  /** The script's index: for each of the fixed shelf folders in order that
      exists, its `.json` names as `"<folder>/<name>"`; it is what
      `dist/books/index.json` holds. */
  lemma CliBuildIndex(fs: FileSystem, root: Path, useSample: bool, order: set<string> -> seq<string>)
    requires Valid(fs) && Lister(order) && PlainPath(root)
    requires CliBuildRun(fs, root, useSample, order).Done?
    ensures var r := CliBuildRun(fs, root, useSample, order);
      && r.value.index == FolderIndex(fs, SourceDir(root, useSample), ShelfFolders, order)
      && DistBooks(root) + ["index.json"] in r.fs.files
      && r.fs.files[DistBooks(root) + ["index.json"]] == IndexDoc(r.value.index)
  {
    CliPrepareOutputs(fs, root);
    SitePaths(root, useSample);
    BuildBooksOutputs(fs, CliPrepare(fs, root).fs, SourceDir(root, useSample), DistBooks(root), DistDir(root), order);
  }

  /** The warnings: each missing static file, then each missing template,
      then each missing shelf folder; none of them stops the build. */
  lemma CliBuildWarnings(fs: FileSystem, root: Path, useSample: bool, order: set<string> -> seq<string>)
    requires Valid(fs) && Lister(order) && PlainPath(root)
    requires CliBuildRun(fs, root, useSample, order).Done?
    ensures CliBuildRun(fs, root, useSample, order).value.warnings
      == Missing(fs, root, CliStatics, StaticMissing) + Missing(fs, root, TemplateFiles, TemplateMissing)
         + Missing(fs, SourceDir(root, useSample), ShelfFolders, FolderMissing)
  {
    CliPrepareOutputs(fs, root);
    SitePaths(root, useSample);
    BuildBooksOutputs(fs, CliPrepare(fs, root).fs, SourceDir(root, useSample), DistBooks(root), DistDir(root), order);
  }

  /** Every indexed record is copied to `dist/books/<folder>/<name>` with
      the content it has in the source folder. */
  lemma CliBuildCopies(fs: FileSystem, root: Path, useSample: bool, order: set<string> -> seq<string>,
                       folder: string, name: string)
    requires Valid(fs) && Lister(order) && PlainPath(root)
    requires CliBuildRun(fs, root, useSample, order).Done?
    requires folder in ShelfFolders
    requires SourceDir(root, useSample) + [folder] in fs.dirs
    requires name in Entries(fs, SourceDir(root, useSample) + [folder]) && IsJsonName(name)
    ensures folder + "/" + name in CliBuildRun(fs, root, useSample, order).value.index
    ensures Mirrored(fs, CliBuildRun(fs, root, useSample, order).fs, SourceDir(root, useSample), DistBooks(root), folder, name)
  {
    CliPrepareOutputs(fs, root);
    SitePaths(root, useSample);
    var source := SourceDir(root, useSample);
    BuildBooksOutputs(fs, CliPrepare(fs, root).fs, source, DistBooks(root), DistDir(root), order);
    CliNamesPlain();
    FolderIndexHas(fs, source, ShelfFolders, order, folder, name);
    assert MirrorsFolders(fs, CliBuildRun(fs, root, useSample, order).fs, source, DistBooks(root), ShelfFolders);
  }

  /** A `.json` entry of an existing listed folder appears in the index. */
  lemma {:induction false} FolderIndexHas(fs: FileSystem, source: Path, folders: seq<string>,
                                          order: set<string> -> seq<string>, folder: string, name: string)
    requires Lister(order)
    requires folder in folders && source + [folder] in fs.dirs
    requires name in Entries(fs, source + [folder]) && IsJsonName(name)
    ensures folder + "/" + name in FolderIndex(fs, source, folders, order)
  {
    var init := folders[..|folders| - 1];
    var last := folders[|folders| - 1];
    assert folders == init + [last];
    if last == folder {
      var names := JsonNames(order(Entries(fs, source + [folder])));
      FilterMembers(order(Entries(fs, source + [folder])), IsJsonName, name);
      var k :| 0 <= k < |names| && names[k] == name;
      assert FolderEntries(fs, source, folder, order)[k] == folder + "/" + name;
    } else {
      assert folder in init;
      FolderIndexHas(fs, source, init, order, folder, name);
    }
  }

  // ---------------------------------------------------------------------
  // The script's loops, on a file system that they update in place.

  lemma {:induction false} CopyStaticListAborts(fs: FileSystem, root: Path, names: seq<string>, k: nat)
    requires k <= |names| && CopyStaticList(fs, root, names[..k]).Aborted?
    ensures CopyStaticList(fs, root, names) == CopyStaticList(fs, root, names[..k])
    decreases |names|
  {
    if k < |names| {
      var init := names[..|names| - 1];
      assert init[..k] == names[..k];
      CopyStaticListAborts(fs, root, init, k);
    } else {
      assert names[..k] == names;
    }
  }

  lemma {:induction false} TemplateListAborts(fs: FileSystem, root: Path, names: seq<string>, config: Config, k: nat)
    requires k <= |names| && TemplateList(fs, root, names[..k], config).Aborted?
    ensures TemplateList(fs, root, names, config) == TemplateList(fs, root, names[..k], config)
    decreases |names|
  {
    if k < |names| {
      var init := names[..|names| - 1];
      assert init[..k] == names[..k];
      TemplateListAborts(fs, root, init, config, k);
    } else {
      assert names[..k] == names;
    }
  }

  lemma {:induction false} CopyEntriesAborts(fs: FileSystem, source: Path, distBooks: Path, files: seq<string>, k: nat)
    requires PlainPath(source) && PlainPath(distBooks)
    requires k <= |files| && CopyEntries(fs, source, distBooks, files[..k]).Aborted?
    ensures CopyEntries(fs, source, distBooks, files) == CopyEntries(fs, source, distBooks, files[..k])
    decreases |files|
  {
    if k < |files| {
      var init := files[..|files| - 1];
      assert init[..k] == files[..k];
      CopyEntriesAborts(fs, source, distBooks, init, k);
    } else {
      assert files[..k] == files;
    }
  }

  /** One more folder after a finished run over the first `k`; when it
      aborts, the whole loop ends there. */
  lemma BuildFoldersStep(fs: FileSystem, source: Path, distBooks: Path, folders: seq<string>,
                         order: set<string> -> seq<string>, k: nat, fsk: FileSystem, books: Books)
    requires PlainPath(source) && PlainPath(distBooks) && k < |folders|
    requires BuildFolders(fs, source, distBooks, folders[..k], order) == Done(fsk, books)
    ensures BuildFolders(fs, source, distBooks, folders[..k + 1], order)
      == AddFolder(fsk, source, distBooks, folders[k], order, books)
    ensures AddFolder(fsk, source, distBooks, folders[k], order, books).Aborted? ==>
      BuildFolders(fs, source, distBooks, folders, order) == AddFolder(fsk, source, distBooks, folders[k], order, books)
  {
    assert folders[..k + 1][..k] == folders[..k];
    if AddFolder(fsk, source, distBooks, folders[k], order, books).Aborted? {
      BuildFoldersAborts(fs, source, distBooks, folders, order, k + 1);
    }
  }

  lemma {:induction false} BuildFoldersAborts(fs: FileSystem, source: Path, distBooks: Path, folders: seq<string>,
                                              order: set<string> -> seq<string>, k: nat)
    requires PlainPath(source) && PlainPath(distBooks)
    requires k <= |folders| && BuildFolders(fs, source, distBooks, folders[..k], order).Aborted?
    ensures BuildFolders(fs, source, distBooks, folders, order) == BuildFolders(fs, source, distBooks, folders[..k], order)
    decreases |folders|
  {
    if k < |folders| {
      var init := folders[..|folders| - 1];
      assert init[..k] == folders[..k];
      BuildFoldersAborts(fs, source, distBooks, init, order, k);
    } else {
      assert folders[..k] == folders;
    }
  }

  lemma CopyEntriesStep(fs: FileSystem, fs1: FileSystem, source: Path, distBooks: Path, files: seq<string>, i: nat)
    requires PlainPath(source) && PlainPath(distBooks)
    requires i < |files| && CopyEntries(fs, source, distBooks, files[..i]) == Done(fs1, ())
    ensures CopyEntries(fs, source, distBooks, files[..i + 1])
      == CopyInto(fs1, Join(source, files[i]), Join(distBooks, files[i]))
  {
    assert files[..i + 1][..i] == files[..i];
  }

  /** The script run against one site folder. */
  class CliBuilder {
    var fs: FileSystem
    const root: Path
    const useSample: bool
    const order: set<string> -> seq<string>

    constructor(fs0: FileSystem, root: Path, useSample: bool, order: set<string> -> seq<string>)
      ensures fs == fs0 && this.root == root && this.useSample == useSample && this.order == order
    {
      this.fs := fs0;
      this.root := root;
      this.useSample := useSample;
      this.order := order;
    }

    /** `copyFile`. */
    method CopyOne(src: Path, dst: Path) returns (r: Run<()>)
      modifies this
      ensures r == CopyInto(old(fs), src, dst) && fs == r.fs
    {
      var dir := Dirname(dst);
      if !Exists(fs, dir) {
        var made := Mkdirs(fs, dir);
        if made.Failure? {
          return Aborted(fs, made.error);
        }
        fs := made.value;
      }
      var copied := CopyFile(fs, src, dst);
      if copied.Failure? {
        return Aborted(fs, copied.error);
      }
      fs := copied.value;
      r := Done(fs, ());
    }

    /** `cleanDist`. */
    method Clean() returns (r: Run<()>)
      modifies this
      ensures r == CleanDist(old(fs), DistDir(root)) && fs == r.fs
    {
      var dist := DistDir(root);
      if Exists(fs, dist) {
        fs := RemoveTree(fs, dist);
      }
      if !Exists(fs, dist) {
        var made := Mkdirs(fs, dist);
        if made.Failure? {
          return Aborted(fs, made.error);
        }
        fs := made.value;
      }
      r := Done(fs, ());
    }

    /** The loop of `copyStaticFiles` over the static files. */
    method CopyStaticLoop(names: seq<string>) returns (r: Run<seq<string>>)
      modifies this
      ensures r == CopyStaticList(old(fs), root, names) && fs == r.fs
    {
      ghost var fs0 := fs;
      var warnings := [];
      var i := 0;
      while i < |names|
        invariant 0 <= i <= |names|
        invariant CopyStaticList(fs0, root, names[..i]) == Done(fs, warnings)
      {
        var file := names[i];
        assert names[..i + 1][..i] == names[..i];
        if !Exists(fs, root + [file]) {
          warnings := warnings + [StaticMissing(file)];
        } else {
          var copied := CopyOne(root + [file], DistDir(root) + [file]);
          if copied.Aborted? {
            CopyStaticListAborts(fs0, root, names, i + 1);
            return Aborted(fs, copied.msg);
          }
        }
        i := i + 1;
      }
      assert names[..i] == names;
      r := Done(fs, warnings);
    }

    /** The loop of `copyStaticFiles` over the templates. */
    method TemplateLoop(names: seq<string>, config: Config) returns (r: Run<seq<string>>)
      modifies this
      ensures r == TemplateList(old(fs), root, names, config) && fs == r.fs
    {
      ghost var fs0 := fs;
      var warnings := [];
      var i := 0;
      while i < |names|
        invariant 0 <= i <= |names|
        invariant TemplateList(fs0, root, names[..i], config) == Done(fs, warnings)
      {
        var file := names[i];
        assert names[..i + 1][..i] == names[..i];
        if !Exists(fs, root + [file]) {
          warnings := warnings + [TemplateMissing(file)];
        } else {
          var content := ReadFile(fs, root + [file]);
          if content.Failure? {
            TemplateListAborts(fs0, root, names, config, i + 1);
            return Aborted(fs, content.error);
          }
          var c := content.value;
          var page := if c.PlainText? then PlainText(Template.ProcessTemplateAsWritten(c.text, config)) else c;
          var written := WriteFile(fs, DistDir(root) + [file], page);
          if written.Failure? {
            TemplateListAborts(fs0, root, names, config, i + 1);
            return Aborted(fs, written.error);
          }
          fs := written.value;
        }
        i := i + 1;
      }
      assert names[..i] == names;
      r := Done(fs, warnings);
    }

    /** `copyStaticFiles`. */
    method CopySiteFiles(config: Config) returns (r: Run<seq<string>>)
      modifies this
      ensures r == CopyStaticFiles(old(fs), root, config) && fs == r.fs
    {
      var statics := CopyStaticLoop(CliStatics);
      if statics.Aborted? {
        return statics;
      }
      var templates := TemplateLoop(TemplateFiles, config);
      if templates.Aborted? {
        return templates;
      }
      var copied := CopyOne(ConfigPath(root), DistDir(root) + ["config.json"]);
      if copied.Aborted? {
        return Aborted(fs, copied.msg);
      }
      r := Done(fs, statics.value + templates.value);
    }

    /** The copy loop over one folder's entries. */
    method CopyEntriesLoop(source: Path, distBooks: Path, files: seq<string>) returns (r: Run<()>)
      requires PlainPath(source) && PlainPath(distBooks)
      modifies this
      ensures r == CopyEntries(old(fs), source, distBooks, files) && fs == r.fs
    {
      ghost var fs0 := fs;
      var i := 0;
      while i < |files|
        invariant 0 <= i <= |files|
        invariant CopyEntries(fs0, source, distBooks, files[..i]) == Done(fs, ())
      {
        var file := files[i];
        CopyEntriesStep(fs0, fs, source, distBooks, files, i);
        var copied := CopyOne(Join(source, file), Join(distBooks, file));
        if copied.Aborted? {
          CopyEntriesAborts(fs0, source, distBooks, files, i + 1);
          return Aborted(fs, copied.msg);
        }
        i := i + 1;
      }
      assert files[..i] == files;
      r := Done(fs, ());
    }

    /** The folder loop of `buildBooks`: `bookFiles` grows by each folder's
        entries. */
    method FolderLoop(source: Path, distBooks: Path, folders: seq<string>) returns (r: Run<Books>)
      requires PlainPath(source) && PlainPath(distBooks)
      modifies this
      ensures r == BuildFolders(old(fs), source, distBooks, folders, order) && fs == r.fs
    {
      ghost var fs0 := fs;
      var bookFiles := [];
      var warnings := [];
      var i := 0;
      while i < |folders|
        invariant 0 <= i <= |folders|
        invariant BuildFolders(fs0, source, distBooks, folders[..i], order) == Done(fs, Books(bookFiles, warnings))
      {
        var folder := folders[i];
        BuildFoldersStep(fs0, source, distBooks, folders, order, i, fs, Books(bookFiles, warnings));
        ghost var before := fs;
        var folderPath := Join(source, folder);
        if !Exists(fs, folderPath) {
          warnings := warnings + [FolderMissing(folder)];
        } else {
          var listed := ListDir(fs, folderPath, order);
          if listed.Failure? {
            return Aborted(fs, listed.error);
          }
          var files := Prefixed(folder, JsonNames(listed.value));
          var copied := CopyEntriesLoop(source, distBooks, files);
          if copied.Aborted? {
            assert AddFolder(before, source, distBooks, folder, order, Books(bookFiles, warnings)) == Aborted(fs, copied.msg);
            return Aborted(fs, copied.msg);
          }
          bookFiles := bookFiles + files;
        }
        i := i + 1;
      }
      assert folders[..i] == folders;
      r := Done(fs, Books(bookFiles, warnings));
    }

    /** `buildBooks`. */
    method BuildBookIndex(source: Path, distBooks: Path) returns (r: Run<Books>)
      requires PlainPath(source) && PlainPath(distBooks)
      modifies this
      ensures r == BuildBooks(old(fs), source, distBooks, order) && fs == r.fs
    {
      if !Exists(fs, distBooks) {
        var made := Mkdirs(fs, distBooks);
        if made.Failure? {
          return Aborted(fs, made.error);
        }
        fs := made.value;
      }
      var books := FolderLoop(source, distBooks, ShelfFolders);
      if books.Aborted? {
        return books;
      }
      var written := WriteFile(fs, distBooks + ["index.json"], IndexDoc(books.value.index));
      if written.Failure? {
        return Aborted(fs, written.error);
      }
      fs := written.value;
      r := Done(fs, books.value);
    }

    /** `build`: the index and every warning printed, or the message the
        script stops with. */
    method Build() returns (r: Run<Books>)
      requires PlainPath(root)
      modifies this
      ensures r == CliBuildRun(old(fs), root, useSample, order) && fs == r.fs
    {
      if !Exists(fs, ConfigPath(root)) {
        return Aborted(fs, ConfigMissing);
      }
      var loaded := ReadConfig(fs, ConfigPath(root));
      if loaded.Failure? {
        return Aborted(fs, loaded.error);
      }
      var config := loaded.value;
      var cleaned := Clean();
      if cleaned.Aborted? {
        return Aborted(fs, cleaned.msg);
      }
      var copied := CopySiteFiles(config);
      if copied.Aborted? {
        return Aborted(fs, copied.msg);
      }
      SitePaths(root, useSample);
      var books := BuildBookIndex(SourceDir(root, useSample), DistBooks(root));
      if books.Aborted? {
        return Aborted(fs, books.msg);
      }
      r := Done(fs, Books(books.value.index, copied.value + books.value.warnings));
    }
  }
}
