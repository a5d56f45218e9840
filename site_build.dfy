/** The desktop `build-site` handler: wipe `dist`, copy the static files,
    fill in the page template, copy the configuration, copy every shelf's
    `.json` records and write `books/index.json`, then copy the covers.

    Each step is a transition of the file system; the first step that fails
    ends the build with that failure, keeping whatever the earlier steps did. */
module SiteBuild {
  import opened Wrappers
  import opened Text
  import opened Types
  import opened Seqs
  import opened Files
  import opened LibraryStore
  import Template

  /** A run of steps: it finished with a value, or a step threw. Either way
      the file system is left as the steps made it. */
  datatype Run<T> = Done(fs: FileSystem, value: T) | Aborted(fs: FileSystem, msg: string)

  /** One file-system operation as a step: on failure nothing changed. */
  function Lift(fs: FileSystem, r: Result<FileSystem, string>): Run<()> {
    match r
    case Success(fs1) => Done(fs1, ())
    case Failure(m) => Aborted(fs, m)
  }

  const StaticFiles: seq<string> := ["styles-minimalist.css", "app.js", "favicon.svg"]

  /** `books-sample` when building from the sample data, else `books`. */
  function SourceDir(site: Path, useSample: bool): Path {
    if useSample then SampleDir(site) else BooksDir(site)
  }

  /** Where the build puts the records, the index and the covers. */
  function DistBooks(site: Path): Path { DistDir(site) + ["books"] }

  /** Copy those of `names` that exist in the site folder into `dist`. */
  function CopyStatics(fs: FileSystem, site: Path, names: seq<string>): Run<()>
  {
    if names == [] then Done(fs, ())
    else match CopyStatics(fs, site, names[..|names| - 1])
      case Aborted(fs1, m) => Aborted(fs1, m)
      case Done(fs1, _) =>
        var f := names[|names| - 1];
        if !Exists(fs1, site + [f]) then Done(fs1, ())
        else Lift(fs1, CopyFile(fs1, site + [f], DistDir(site) + [f]))
  }

  /** `index.html` with its placeholders filled in, when the template exists.
      A template that is not text (a JSON document or a binary) is written
      back as it is. */
  function RenderPage(fs: FileSystem, site: Path, config: Config): Run<()>
  {
    var src := site + ["index.html"];
    if !Exists(fs, src) then Done(fs, ())
    else match ReadFile(fs, src)
      case Failure(m) => Aborted(fs, m)
      case Success(c) =>
        var page := if c.PlainText? then PlainText(Template.ProcessTemplateAsWritten(c.text, config)) else c;
        Lift(fs, WriteFile(fs, DistDir(site) + ["index.html"], page))
  }

  /** Remove `dist` when it exists and create it afresh. */
  function Clean(fs: FileSystem, dist: Path): Run<()> {
    var fs1 := if Exists(fs, dist) then RemoveTree(fs, dist) else fs;
    Lift(fs1, Mkdirs(fs1, dist))
  }

  /** Copy the configuration into `dist` and create `dist/books`. */
  function Finish(fs: FileSystem, site: Path): Run<()> {
    var dist := DistDir(site);
    match CopyFile(fs, ConfigPath(site), dist + ["config.json"])
    case Failure(m) => Aborted(fs, m)
    case Success(fs1) => Lift(fs1, Mkdirs(fs1, DistBooks(site)))
  }

  /** The static files, the page, then `Finish`. */
  function Publish(fs: FileSystem, site: Path, config: Config): Run<()> {
    match CopyStatics(fs, site, StaticFiles)
    case Aborted(fs1, m) => Aborted(fs1, m)
    case Done(fs1, _) =>
      match RenderPage(fs1, site, config)
      case Aborted(fs2, m) => Aborted(fs2, m)
      case Done(fs2, _) => Finish(fs2, site)
  }

  /** Everything before the shelves: read the configuration (before anything
      is touched), clean `dist`, copy the static files, the page and the
      configuration, and create `dist/books`. */
  function Prepare(fs: FileSystem, site: Path): Run<Config>
  {
    match ReadConfig(fs, ConfigPath(site))
    case Failure(m) => Aborted(fs, m)
    case Success(config) =>
      match Clean(fs, DistDir(site))
      case Aborted(fs1, m) => Aborted(fs1, m)
      case Done(fs1, _) =>
        match Publish(fs1, site, config)
        case Aborted(fs2, m) => Aborted(fs2, m)
        case Done(fs2, _) => Done(fs2, config)
  }

  /** `"<folder>/<name>"` for each name, in order. */
  function Prefixed(folder: string, names: seq<string>): (r: seq<string>)
    ensures |r| == |names|
    ensures forall i :: 0 <= i < |names| ==> r[i] == folder + "/" + names[i]
  {
    if names == [] then [] else Prefixed(folder, names[..|names| - 1]) + [folder + "/" + names[|names| - 1]]
  }

  /** Copy one shelf's `.json` files, collecting their index entries. */
  function CopyBookFiles(fs: FileSystem, src: Path, dst: Path, folder: string, names: seq<string>): Run<seq<string>>
    requires PlainPath(src) && PlainPath(dst)
  {
    if names == [] then Done(fs, [])
    else match CopyBookFiles(fs, src, dst, folder, names[..|names| - 1])
      case Aborted(fs1, m) => Aborted(fs1, m)
      case Done(fs1, entries) =>
        var n := names[|names| - 1];
        match CopyFile(fs1, Join(src, n), Join(dst, n))
        case Failure(m) => Aborted(fs1, m)
        case Success(fs2) => Done(fs2, entries + [folder + "/" + n])
  }

  /** One shelf: skipped when its source folder is missing. */
  function CopyShelf(fs: FileSystem, source: Path, distBooks: Path, shelf: Shelf, order: set<string> -> seq<string>)
    : Run<seq<string>>
    requires PlainPath(source) && PlainPath(distBooks)
  {
    var src := Join(source, shelf.folder);
    var dst := Join(distBooks, shelf.folder);
    if !Exists(fs, src) then Done(fs, [])
    else match Mkdirs(fs, dst)
      case Failure(m) => Aborted(fs, m)
      case Success(fs1) =>
        match ListDir(fs1, src, order)
        case Failure(m) => Aborted(fs1, m)
        case Success(names) => CopyBookFiles(fs1, src, dst, shelf.folder, JsonNames(names))
  }

  /** Every shelf in configuration order; the index is the concatenation. */
  function CopyShelves(fs: FileSystem, source: Path, distBooks: Path, shelves: seq<Shelf>, order: set<string> -> seq<string>)
    : Run<seq<string>>
    requires PlainPath(source) && PlainPath(distBooks)
  {
    if shelves == [] then Done(fs, [])
    else match CopyShelves(fs, source, distBooks, shelves[..|shelves| - 1], order)
      case Aborted(fs1, m) => Aborted(fs1, m)
      case Done(fs1, prev) =>
        match CopyShelf(fs1, source, distBooks, shelves[|shelves| - 1], order)
        case Aborted(fs2, m) => Aborted(fs2, m)
        case Done(fs2, here) => Done(fs2, prev + here)
  }

  /** Cover files whose name does not start with a dot. */
  predicate Visible(n: string) {
    !StartsWith(n, ".")
  }

  function CopyCoverFiles(fs: FileSystem, src: Path, dst: Path, names: seq<string>): Run<()>
    requires PlainPath(src) && PlainPath(dst)
  {
    if names == [] then Done(fs, ())
    else match CopyCoverFiles(fs, src, dst, names[..|names| - 1])
      case Aborted(fs1, m) => Aborted(fs1, m)
      case Done(fs1, _) =>
        var n := names[|names| - 1];
        Lift(fs1, CopyFile(fs1, Join(src, n), Join(dst, n)))
  }

  /** One more name copies that cover after the earlier ones. */
  lemma CopyCoverFilesNext(fs: FileSystem, src: Path, dst: Path, names: seq<string>, k: nat, fs1: FileSystem)
    requires PlainPath(src) && PlainPath(dst) && k < |names|
    requires CopyCoverFiles(fs, src, dst, names[..k]) == Done(fs1, ())
    ensures CopyCoverFiles(fs, src, dst, names[..k + 1]) == Lift(fs1, CopyFile(fs1, Join(src, names[k]), Join(dst, names[k])))
  {
    assert names[..k + 1][..k] == names[..k];
  }

  /** The covers folder, when it exists, without its hidden files. */
  function CopyCovers(fs: FileSystem, source: Path, distBooks: Path, order: set<string> -> seq<string>): Run<()>
    requires PlainPath(source) && PlainPath(distBooks)
  {
    var src := source + ["covers"];
    var dst := distBooks + ["covers"];
    if !Exists(fs, src) then Done(fs, ())
    else match Mkdirs(fs, dst)
      case Failure(m) => Aborted(fs, m)
      case Success(fs1) =>
        match ListDir(fs1, src, order)
        case Failure(m) => Aborted(fs1, m)
        case Success(names) => CopyCoverFiles(fs1, src, dst, Filter(names, Visible))
  }

  /** After the shelves: write `books/index.json`, then copy the covers. */
  function Conclude(fs: FileSystem, source: Path, distBooks: Path, index: seq<string>, order: set<string> -> seq<string>)
    : Run<()>
    requires PlainPath(source) && PlainPath(distBooks)
  {
    match WriteFile(fs, distBooks + ["index.json"], IndexDoc(index))
    case Failure(m) => Aborted(fs, m)
    case Success(fs1) => CopyCovers(fs1, source, distBooks, order)
  }

  /** The shelves, the index and the covers; the value is the index. */
  function Assemble(fs: FileSystem, source: Path, distBooks: Path, shelves: seq<Shelf>, order: set<string> -> seq<string>)
    : Run<seq<string>>
    requires PlainPath(source) && PlainPath(distBooks)
  {
    match CopyShelves(fs, source, distBooks, shelves, order)
    case Aborted(fs1, m) => Aborted(fs1, m)
    case Done(fs1, index) =>
      match Conclude(fs1, source, distBooks, index, order)
      case Aborted(fs2, m) => Aborted(fs2, m)
      case Done(fs2, _) => Done(fs2, index)
  }

  /** The assembly stage of the build of `site` from the prepared tree `fs`. */
  function Assembled(fs: FileSystem, site: Path, useSample: bool, config: Config, order: set<string> -> seq<string>)
    : Run<seq<string>>
    requires PlainPath(site)
  {
    Assemble(fs, SourceDir(site, useSample), DistBooks(site), config.shelves, order)
  }

  /** What follows the preparation, given its outcome. */
  function AfterPrepare(prepared: Run<Config>, site: Path, useSample: bool, order: set<string> -> seq<string>)
    : Run<seq<string>>
    requires PlainPath(site)
  {
    match prepared
    case Aborted(fs1, m) => Aborted(fs1, m)
    case Done(fs1, config) => Assembled(fs1, site, useSample, config, order)
  }

  /** The whole build; its value is the index written to `books/index.json`. */
  function Build(fs: FileSystem, site: Path, useSample: bool, order: set<string> -> seq<string>): Run<seq<string>>
    requires PlainPath(site)
  {
    AfterPrepare(Prepare(fs, site), site, useSample, order)
  }

  /** What the index should be: for each shelf in order whose source folder
      exists, `"<folder>/<name>"` for its `.json` names in listing order. */
  function IndexOf(fs: FileSystem, source: Path, shelves: seq<Shelf>, order: set<string> -> seq<string>): seq<string>
    requires PlainPath(source)
  {
    if shelves == [] then []
    else
      var shelf := shelves[|shelves| - 1];
      var dir := Join(source, shelf.folder);
      IndexOf(fs, source, shelves[..|shelves| - 1], order)
        + (if dir in fs.dirs then Prefixed(shelf.folder, JsonNames(order(Entries(fs, dir)))) else [])
  }

  // ---------------------------------------------------------------------
  // Framing: what a run leaves alone.

  /** `fs` agrees with `fs0` on every path outside `root`. */
  ghost predicate SameOutside(fs0: FileSystem, fs: FileSystem, root: Path) {
    && (forall p :: !Under(p, root) ==> ((p in fs.files <==> p in fs0.files) && (p in fs.dirs <==> p in fs0.dirs)))
    && (forall p :: p in fs.files && !Under(p, root) ==> fs.files[p] == fs0.files[p])
  }

  /** Neither path lies inside the other. */
  predicate Apart(a: Path, b: Path) {
    !Under(a, b) && !Under(b, a)
  }

  /** Every proper ancestor of `p` is a directory. */
  ghost predicate AncestorsIn(fs: FileSystem, p: Path) {
    forall i :: 0 <= i < |p| ==> p[..i] in fs.dirs
  }

  lemma ApartExtend(a: Path, b: Path, n: string)
    requires Apart(a, b)
    ensures Apart(a + [n], b)
  {
  }

  /** Directories apart from `root` have the same entries on both sides. */
  lemma EntriesSame(fs0: FileSystem, fs: FileSystem, root: Path, d: Path)
    requires SameOutside(fs0, fs, root) && Apart(d, root)
    ensures Entries(fs, d) == Entries(fs0, d)
    ensures d in fs.dirs <==> d in fs0.dirs
    ensures Exists(fs, d) <==> Exists(fs0, d)
  {
    forall n ensures n in Entries(fs, d) <==> n in Entries(fs0, d) {
      EntriesMember(fs, d, n);
      EntriesMember(fs0, d, n);
      ApartExtend(d, root, n);
    }
  }

  lemma CopyFileOutside(fs0: FileSystem, fs: FileSystem, src: Path, dst: Path, root: Path)
    requires SameOutside(fs0, fs, root) && Under(dst, root) && CopyFile(fs, src, dst).Success?
    ensures SameOutside(fs0, CopyFile(fs, src, dst).value, root)
  {
  }

  lemma WriteFileOutside(fs0: FileSystem, fs: FileSystem, p: Path, c: Content, root: Path)
    requires SameOutside(fs0, fs, root) && Under(p, root) && WriteFile(fs, p, c).Success?
    ensures SameOutside(fs0, WriteFile(fs, p, c).value, root)
  {
  }

  lemma MkdirsOutside(fs0: FileSystem, fs: FileSystem, d: Path, root: Path)
    requires SameOutside(fs0, fs, root) && AncestorsIn(fs0, root) && Under(d, root)
    requires Mkdirs(fs, d).Success?
    ensures SameOutside(fs0, Mkdirs(fs, d).value, root)
  {
    var r := Mkdirs(fs, d).value;
    forall p | !Under(p, root) && p in Prefixes(d) ensures p in fs0.dirs {
      var i :| 0 <= i <= |d| && p == d[..i];
      assert i < |root| && p == root[..i];
    }
  }

  // ---------------------------------------------------------------------
  // Every run keeps the tree well formed, whether it finishes or aborts;
  // after the clean-up no step removes a directory.

  lemma StaticNamesPlain()
    ensures forall n :: n in StaticFiles ==> PlainName(n)
  {
    assert PlainName("styles-minimalist.css");
    assert PlainName("app.js");
    assert PlainName("favicon.svg");
  }

  lemma {:induction false} CopyStaticsValid(fs: FileSystem, site: Path, names: seq<string>)
    requires Valid(fs) && PlainPath(site) && forall n :: n in names ==> PlainName(n)
    ensures Valid(CopyStatics(fs, site, names).fs)
  {
    if names != [] {
      var init := names[..|names| - 1];
      var f := names[|names| - 1];
      assert forall m :: m in init ==> m in names;
      CopyStaticsValid(fs, site, init);
      var fs1 := CopyStatics(fs, site, init).fs;
      assert PlainPath(DistDir(site) + [f]);
      if CopyFile(fs1, site + [f], DistDir(site) + [f]).Success? {
        CopyFileValid(fs1, site + [f], DistDir(site) + [f]);
      }
    }
  }

  lemma CleanValid(fs: FileSystem, dist: Path)
    requires Valid(fs) && PlainPath(dist) && dist != []
    ensures Valid(Clean(fs, dist).fs)
  {
    RemoveTreeValid(fs, dist);
    var fs1 := if Exists(fs, dist) then RemoveTree(fs, dist) else fs;
    if Mkdirs(fs1, dist).Success? {
      MkdirsValid(fs1, dist);
    }
  }

  lemma RenderPageValid(fs: FileSystem, site: Path, config: Config)
    requires Valid(fs) && PlainPath(site)
    ensures Valid(RenderPage(fs, site, config).fs)
  {
    var dst := DistDir(site) + ["index.html"];
    assert PlainPath(dst);
    if Exists(fs, site + ["index.html"]) && ReadFile(fs, site + ["index.html"]).Success? {
      var c := ReadFile(fs, site + ["index.html"]).value;
      var page := if c.PlainText? then PlainText(Template.ProcessTemplateAsWritten(c.text, config)) else c;
      if WriteFile(fs, dst, page).Success? {
        WriteFileValid(fs, dst, page);
      }
    }
  }

  lemma FinishValid(fs: FileSystem, site: Path)
    requires Valid(fs) && PlainPath(site)
    ensures Valid(Finish(fs, site).fs)
  {
    var dist := DistDir(site);
    assert PlainPath(dist + ["config.json"]) && PlainPath(DistBooks(site));
    if CopyFile(fs, ConfigPath(site), dist + ["config.json"]).Success? {
      CopyFileValid(fs, ConfigPath(site), dist + ["config.json"]);
      var fs1 := CopyFile(fs, ConfigPath(site), dist + ["config.json"]).value;
      if Mkdirs(fs1, DistBooks(site)).Success? {
        MkdirsValid(fs1, DistBooks(site));
      }
    }
  }

  lemma PublishValid(fs: FileSystem, site: Path, config: Config)
    requires Valid(fs) && PlainPath(site)
    ensures Valid(Publish(fs, site, config).fs)
  {
    StaticNamesPlain();
    CopyStaticsValid(fs, site, StaticFiles);
    var fs1 := CopyStatics(fs, site, StaticFiles).fs;
    RenderPageValid(fs1, site, config);
    FinishValid(RenderPage(fs1, site, config).fs, site);
  }

  lemma PrepareValid(fs: FileSystem, site: Path)
    requires Valid(fs) && PlainPath(site)
    ensures Valid(Prepare(fs, site).fs)
  {
    if ReadConfig(fs, ConfigPath(site)).Success? {
      var config := ReadConfig(fs, ConfigPath(site)).value;
      assert PlainPath(DistDir(site));
      CleanValid(fs, DistDir(site));
      PublishValid(Clean(fs, DistDir(site)).fs, site, config);
    }
  }

  lemma {:induction false} CopyBookFilesValid(fs: FileSystem, src: Path, dst: Path, folder: string, names: seq<string>)
    requires Valid(fs) && PlainPath(src) && PlainPath(dst)
    ensures Valid(CopyBookFiles(fs, src, dst, folder, names).fs)
    ensures fs.dirs <= CopyBookFiles(fs, src, dst, folder, names).fs.dirs
  {
    if names != [] {
      CopyBookFilesValid(fs, src, dst, folder, names[..|names| - 1]);
      var fs1 := CopyBookFiles(fs, src, dst, folder, names[..|names| - 1]).fs;
      var n := names[|names| - 1];
      if CopyFile(fs1, Join(src, n), Join(dst, n)).Success? {
        CopyFileValid(fs1, Join(src, n), Join(dst, n));
      }
    }
  }

  lemma CopyShelfValid(fs: FileSystem, source: Path, distBooks: Path, shelf: Shelf, order: set<string> -> seq<string>)
    requires Valid(fs) && PlainPath(source) && PlainPath(distBooks)
    ensures Valid(CopyShelf(fs, source, distBooks, shelf, order).fs)
    ensures fs.dirs <= CopyShelf(fs, source, distBooks, shelf, order).fs.dirs
  {
    var src := Join(source, shelf.folder);
    var dst := Join(distBooks, shelf.folder);
    if Exists(fs, src) && Mkdirs(fs, dst).Success? {
      MkdirsValid(fs, dst);
      var fs1 := Mkdirs(fs, dst).value;
      if ListDir(fs1, src, order).Success? {
        CopyBookFilesValid(fs1, src, dst, shelf.folder, JsonNames(ListDir(fs1, src, order).value));
      }
    }
  }

  lemma {:induction false} CopyShelvesValid(fs: FileSystem, source: Path, distBooks: Path, shelves: seq<Shelf>,
                                            order: set<string> -> seq<string>)
    requires Valid(fs) && PlainPath(source) && PlainPath(distBooks)
    ensures Valid(CopyShelves(fs, source, distBooks, shelves, order).fs)
    ensures fs.dirs <= CopyShelves(fs, source, distBooks, shelves, order).fs.dirs
  {
    if shelves != [] {
      CopyShelvesValid(fs, source, distBooks, shelves[..|shelves| - 1], order);
      var fs1 := CopyShelves(fs, source, distBooks, shelves[..|shelves| - 1], order).fs;
      CopyShelfValid(fs1, source, distBooks, shelves[|shelves| - 1], order);
    }
  }

  lemma {:induction false} CopyCoverFilesValid(fs: FileSystem, src: Path, dst: Path, names: seq<string>)
    requires Valid(fs) && PlainPath(src) && PlainPath(dst)
    ensures Valid(CopyCoverFiles(fs, src, dst, names).fs)
  {
    if names != [] {
      CopyCoverFilesValid(fs, src, dst, names[..|names| - 1]);
      var fs1 := CopyCoverFiles(fs, src, dst, names[..|names| - 1]).fs;
      var n := names[|names| - 1];
      if CopyFile(fs1, Join(src, n), Join(dst, n)).Success? {
        CopyFileValid(fs1, Join(src, n), Join(dst, n));
      }
    }
  }

  lemma CopyCoversValid(fs: FileSystem, source: Path, distBooks: Path, order: set<string> -> seq<string>)
    requires Valid(fs) && PlainPath(source) && PlainPath(distBooks)
    ensures Valid(CopyCovers(fs, source, distBooks, order).fs)
  {
    var src := source + ["covers"];
    var dst := distBooks + ["covers"];
    assert PlainPath(src) && PlainPath(dst);
    if Exists(fs, src) && Mkdirs(fs, dst).Success? {
      MkdirsValid(fs, dst);
      var fs1 := Mkdirs(fs, dst).value;
      if ListDir(fs1, src, order).Success? {
        CopyCoverFilesValid(fs1, src, dst, Filter(ListDir(fs1, src, order).value, Visible));
      }
    }
  }

  lemma ConcludeValid(fs: FileSystem, source: Path, distBooks: Path, index: seq<string>,
                      order: set<string> -> seq<string>)
    requires Valid(fs) && PlainPath(source) && PlainPath(distBooks)
    ensures Valid(Conclude(fs, source, distBooks, index, order).fs)
  {
    assert PlainPath(distBooks + ["index.json"]);
    if WriteFile(fs, distBooks + ["index.json"], IndexDoc(index)).Success? {
      WriteFileValid(fs, distBooks + ["index.json"], IndexDoc(index));
      CopyCoversValid(WriteFile(fs, distBooks + ["index.json"], IndexDoc(index)).value, source, distBooks, order);
    }
  }

  lemma AssembleValid(fs: FileSystem, source: Path, distBooks: Path, shelves: seq<Shelf>,
                       order: set<string> -> seq<string>)
    requires Valid(fs) && PlainPath(source) && PlainPath(distBooks)
    ensures Valid(Assemble(fs, source, distBooks, shelves, order).fs)
  {
    CopyShelvesValid(fs, source, distBooks, shelves, order);
    match CopyShelves(fs, source, distBooks, shelves, order)
    case Aborted(_, _) =>
    case Done(fs1, index) =>
      ConcludeValid(fs1, source, distBooks, index, order);
  }

  lemma AfterPrepareValid(prepared: Run<Config>, site: Path, useSample: bool, order: set<string> -> seq<string>)
    requires Valid(prepared.fs) && PlainPath(site)
    ensures Valid(AfterPrepare(prepared, site, useSample, order).fs)
  {
    assert PlainPath(SourceDir(site, useSample)) && PlainPath(DistBooks(site));
    if prepared.Done? {
      AssembleValid(prepared.fs, SourceDir(site, useSample), DistBooks(site), prepared.value.shelves, order);
    }
  }

  /** The build leaves a well-formed tree, whether it finishes or not. */
  lemma BuildValid(fs: FileSystem, site: Path, useSample: bool, order: set<string> -> seq<string>)
    requires Valid(fs) && PlainPath(site)
    ensures Valid(Build(fs, site, useSample, order).fs)
  {
    PrepareValid(fs, site);
    AfterPrepareValid(Prepare(fs, site), site, useSample, order);
  }

  // ---------------------------------------------------------------------
  // What the build writes.

  /** In a valid tree every entry is a plain name. */
  lemma EntriesPlain(fs: FileSystem, d: Path, n: string)
    requires Valid(fs) && n in Entries(fs, d)
    ensures PlainName(n)
  {
    EntriesMember(fs, d, n);
    var p := d + [n];
    assert p[|p| - 1] == n;
  }

  /** The names a listing of a valid tree gives are plain. */
  lemma ListedPlain(fs: FileSystem, d: Path, order: set<string> -> seq<string>, keep: string -> bool)
    requires Valid(fs) && Lister(order)
    ensures forall n :: n in Filter(order(Entries(fs, d)), keep) ==> PlainName(n)
  {
    forall n | n in Filter(order(Entries(fs, d)), keep) ensures PlainName(n) {
      FilterMembers(order(Entries(fs, d)), keep, n);
      EntriesPlain(fs, d, n);
    }
  }

  lemma {:induction false} CopyBookFilesFrame(fs0: FileSystem, fs: FileSystem, src: Path, dst: Path, folder: string,
                                              names: seq<string>, root: Path)
    requires PlainPath(src) && PlainPath(dst) && Under(dst, root)
    requires SameOutside(fs0, fs, root)
    requires forall n :: n in names ==> PlainName(n)
    requires CopyBookFiles(fs, src, dst, folder, names).Done?
    ensures CopyBookFiles(fs, src, dst, folder, names).value == Prefixed(folder, names)
    ensures SameOutside(fs0, CopyBookFiles(fs, src, dst, folder, names).fs, root)
  {
    if names != [] {
      var init := names[..|names| - 1];
      var n := names[|names| - 1];
      assert forall m :: m in init ==> m in names;
      CopyBookFilesFrame(fs0, fs, src, dst, folder, init, root);
      var fs1 := CopyBookFiles(fs, src, dst, folder, init).fs;
      JoinName(dst, n);
      CopyFileOutside(fs0, fs1, Join(src, n), Join(dst, n), root);
    }
  }

  /** Copying one shelf contributes that shelf's entries as the original
      tree lists them, and touches nothing outside `root`. */
  lemma CopyShelfFrame(fs0: FileSystem, fs: FileSystem, source: Path, distBooks: Path, shelf: Shelf,
                       order: set<string> -> seq<string>, root: Path)
    requires Valid(fs) && Lister(order) && PlainPath(source) && PlainPath(distBooks)
    requires PlainName(shelf.folder) && Under(distBooks, root) && Apart(source, root)
    requires SameOutside(fs0, fs, root) && AncestorsIn(fs0, root)
    requires CopyShelf(fs, source, distBooks, shelf, order).Done?
    ensures CopyShelf(fs, source, distBooks, shelf, order).value
      == (if Join(source, shelf.folder) in fs0.dirs
          then Prefixed(shelf.folder, JsonNames(order(Entries(fs0, Join(source, shelf.folder)))))
          else [])
    ensures SameOutside(fs0, CopyShelf(fs, source, distBooks, shelf, order).fs, root)
  {
    var src := Join(source, shelf.folder);
    var dst := Join(distBooks, shelf.folder);
    JoinName(source, shelf.folder);
    JoinName(distBooks, shelf.folder);
    ApartExtend(source, root, shelf.folder);
    EntriesSame(fs0, fs, root, src);
    if Exists(fs, src) {
      MkdirsOutside(fs0, fs, dst, root);
      MkdirsValid(fs, dst);
      var fs1 := Mkdirs(fs, dst).value;
      EntriesSame(fs0, fs1, root, src);
      ListedPlain(fs1, src, order, IsJsonName);
      CopyBookFilesFrame(fs0, fs1, src, dst, shelf.folder, JsonNames(order(Entries(fs1, src))), root);
    }
  }

  lemma {:induction false} CopyShelvesFrame(fs0: FileSystem, fs: FileSystem, source: Path, distBooks: Path,
                                            shelves: seq<Shelf>, order: set<string> -> seq<string>, root: Path)
    requires Valid(fs) && Lister(order) && PlainPath(source) && PlainPath(distBooks)
    requires forall s :: s in shelves ==> PlainName(s.folder)
    requires Under(distBooks, root) && Apart(source, root)
    requires SameOutside(fs0, fs, root) && AncestorsIn(fs0, root)
    requires CopyShelves(fs, source, distBooks, shelves, order).Done?
    ensures CopyShelves(fs, source, distBooks, shelves, order).value == IndexOf(fs0, source, shelves, order)
    ensures SameOutside(fs0, CopyShelves(fs, source, distBooks, shelves, order).fs, root)
  {
    if shelves != [] {
      var init := shelves[..|shelves| - 1];
      var last := shelves[|shelves| - 1];
      assert forall s :: s in init ==> s in shelves;
      CopyShelvesFrame(fs0, fs, source, distBooks, init, order, root);
      CopyShelvesValid(fs, source, distBooks, init, order);
      var fs1 := CopyShelves(fs, source, distBooks, init, order).fs;
      CopyShelfFrame(fs0, fs1, source, distBooks, last, order, root);
    }
  }

  lemma {:induction false} CopyCoverFilesFrame(fs0: FileSystem, fs: FileSystem, src: Path, dst: Path,
                                               names: seq<string>, root: Path)
    requires PlainPath(src) && PlainPath(dst) && Under(dst, root)
    requires SameOutside(fs0, fs, root)
    requires forall n :: n in names ==> PlainName(n)
    requires CopyCoverFiles(fs, src, dst, names).Done?
    ensures SameOutside(fs0, CopyCoverFiles(fs, src, dst, names).fs, root)
  {
    if names != [] {
      var init := names[..|names| - 1];
      var n := names[|names| - 1];
      assert forall m :: m in init ==> m in names;
      CopyCoverFilesFrame(fs0, fs, src, dst, init, root);
      var fs1 := CopyCoverFiles(fs, src, dst, init).fs;
      JoinName(dst, n);
      CopyFileOutside(fs0, fs1, Join(src, n), Join(dst, n), root);
    }
  }

  lemma CopyCoversFrame(fs0: FileSystem, fs: FileSystem, source: Path, distBooks: Path,
                        order: set<string> -> seq<string>, root: Path)
    requires Valid(fs) && Lister(order) && PlainPath(source) && PlainPath(distBooks)
    requires Under(distBooks + ["covers"], root)
    requires SameOutside(fs0, fs, root) && AncestorsIn(fs0, root)
    requires CopyCovers(fs, source, distBooks, order).Done?
    ensures SameOutside(fs0, CopyCovers(fs, source, distBooks, order).fs, root)
  {
    var src := source + ["covers"];
    var dst := distBooks + ["covers"];
    assert PlainPath(src) && PlainPath(dst);
    if Exists(fs, src) {
      MkdirsOutside(fs0, fs, dst, root);
      MkdirsValid(fs, dst);
      var fs1 := Mkdirs(fs, dst).value;
      ListedPlain(fs1, src, order, Visible);
      CopyCoverFilesFrame(fs0, fs1, src, dst, Filter(order(Entries(fs1, src)), Visible), root);
    }
  }

  /** The build source and the output are two separate folders of the site. */
  lemma SourceApart(site: Path, useSample: bool)
    ensures Apart(SourceDir(site, useSample), DistDir(site))
    ensures Apart(SourceDir(site, useSample), DistBooks(site))
  {
    var source := SourceDir(site, useSample);
    assert source[|site|] != DistDir(site)[|site|];
    assert source[|site|] != (DistBooks(site))[|site|];
  }

  lemma {:induction false} CopyStaticsFrame(fs0: FileSystem, fs: FileSystem, site: Path, names: seq<string>)
    requires SameOutside(fs0, fs, DistDir(site))
    requires forall n :: n in names ==> PlainName(n)
    ensures SameOutside(fs0, CopyStatics(fs, site, names).fs, DistDir(site))
  {
    if names != [] {
      var init := names[..|names| - 1];
      assert forall m :: m in init ==> m in names;
      CopyStaticsFrame(fs0, fs, site, init);
      var fs1 := CopyStatics(fs, site, init).fs;
      var f := names[|names| - 1];
      if Exists(fs1, site + [f]) && CopyFile(fs1, site + [f], DistDir(site) + [f]).Success? {
        CopyFileOutside(fs0, fs1, site + [f], DistDir(site) + [f], DistDir(site));
      }
    }
  }

  lemma CleanOutputs(fs: FileSystem, dist: Path)
    requires PlainPath(dist) && AncestorsIn(fs, dist) && Clean(fs, dist).Done?
    ensures SameOutside(fs, Clean(fs, dist).fs, dist)
  {
    var fs1 := if Exists(fs, dist) then RemoveTree(fs, dist) else fs;
    assert SameOutside(fs, fs1, dist);
    MkdirsOutside(fs, fs1, dist, dist);
  }

  lemma RenderPageOutputs(fs0: FileSystem, fs: FileSystem, site: Path, config: Config)
    requires SameOutside(fs0, fs, DistDir(site)) && RenderPage(fs, site, config).Done?
    ensures SameOutside(fs0, RenderPage(fs, site, config).fs, DistDir(site))
    ensures site + ["index.html"] in fs.files && fs.files[site + ["index.html"]].PlainText? ==>
      && DistDir(site) + ["index.html"] in RenderPage(fs, site, config).fs.files
      && RenderPage(fs, site, config).fs.files[DistDir(site) + ["index.html"]]
         == PlainText(Template.ProcessTemplateAsWritten(fs.files[site + ["index.html"]].text, config))
  {
    var src := site + ["index.html"];
    if Exists(fs, src) {
      var c := ReadFile(fs, src).value;
      var page := if c.PlainText? then PlainText(Template.ProcessTemplateAsWritten(c.text, config)) else c;
      WriteFileOutside(fs0, fs, DistDir(site) + ["index.html"], page, DistDir(site));
    }
  }

  lemma FinishOutputs(fs0: FileSystem, fs: FileSystem, site: Path)
    requires SameOutside(fs0, fs, DistDir(site)) && AncestorsIn(fs0, DistDir(site))
    requires Finish(fs, site).Done?
    ensures SameOutside(fs0, Finish(fs, site).fs, DistDir(site))
    ensures ConfigPath(site) in fs.files
    ensures DistDir(site) + ["config.json"] in Finish(fs, site).fs.files
    ensures Finish(fs, site).fs.files[DistDir(site) + ["config.json"]] == fs.files[ConfigPath(site)]
    ensures forall p :: p in fs.files && p != DistDir(site) + ["config.json"] ==>
      p in Finish(fs, site).fs.files && Finish(fs, site).fs.files[p] == fs.files[p]
    ensures Prefixes(DistBooks(site)) <= Finish(fs, site).fs.dirs
  {
    var dist := DistDir(site);
    CopyFileOutside(fs0, fs, ConfigPath(site), dist + ["config.json"], dist);
    var fs1 := CopyFile(fs, ConfigPath(site), dist + ["config.json"]).value;
    MkdirsOutside(fs0, fs1, DistBooks(site), dist);
  }

  /** `ConfigPath(site)` and `site/index.html` lie outside `dist`. */
  lemma SiteFilesOutsideDist(site: Path)
    ensures !Under(ConfigPath(site), DistDir(site))
    ensures !Under(site + ["index.html"], DistDir(site))
    ensures DistDir(site) + ["index.html"] != DistDir(site) + ["config.json"]
  {
    assert ConfigPath(site)[|site|] != DistDir(site)[|site|];
    assert (site + ["index.html"])[|site|] != DistDir(site)[|site|];
    assert (DistDir(site) + ["index.html"])[|site| + 1] != (DistDir(site) + ["config.json"])[|site| + 1];
  }

  lemma PublishOutputs(fs0: FileSystem, fs: FileSystem, site: Path, config: Config)
    requires SameOutside(fs0, fs, DistDir(site)) && AncestorsIn(fs0, DistDir(site))
    requires Publish(fs, site, config).Done?
    ensures SameOutside(fs0, Publish(fs, site, config).fs, DistDir(site))
    ensures ConfigPath(site) in fs0.files
    ensures DistDir(site) + ["config.json"] in Publish(fs, site, config).fs.files
    ensures Publish(fs, site, config).fs.files[DistDir(site) + ["config.json"]] == fs0.files[ConfigPath(site)]
    ensures site + ["index.html"] in fs0.files && fs0.files[site + ["index.html"]].PlainText? ==>
      && DistDir(site) + ["index.html"] in Publish(fs, site, config).fs.files
      && Publish(fs, site, config).fs.files[DistDir(site) + ["index.html"]]
         == PlainText(Template.ProcessTemplateAsWritten(fs0.files[site + ["index.html"]].text, config))
    ensures Prefixes(DistBooks(site)) <= Publish(fs, site, config).fs.dirs
  {
    StaticNamesPlain();
    SiteFilesOutsideDist(site);
    CopyStaticsFrame(fs0, fs, site, StaticFiles);
    var fs1 := CopyStatics(fs, site, StaticFiles).fs;
    RenderPageOutputs(fs0, fs1, site, config);
    var fs2 := RenderPage(fs1, site, config).fs;
    FinishOutputs(fs0, fs2, site);
  }

  /** A finished preparation is a clean-up followed by the copies. */
  lemma PrepareShape(fs: FileSystem, site: Path)
    requires Prepare(fs, site).Done?
    ensures ReadConfig(fs, ConfigPath(site)) == Success(Prepare(fs, site).value)
    ensures Clean(fs, DistDir(site)).Done?
    ensures Publish(Clean(fs, DistDir(site)).fs, site, Prepare(fs, site).value).Done?
    ensures Prepare(fs, site).fs == Publish(Clean(fs, DistDir(site)).fs, site, Prepare(fs, site).value).fs
  {
  }

  /** The proper ancestors of `dist` are the site folder and its ancestors,
      which exist once the configuration file does. */
  lemma DistAncestors(fs: FileSystem, site: Path)
    requires Valid(fs) && ConfigPath(site) in fs.files
    ensures AncestorsIn(fs, DistDir(site))
  {
    var dist := DistDir(site);
    var cp := ConfigPath(site);
    assert cp[..|cp| - 1] == site;
    forall i | 0 <= i < |dist| ensures dist[..i] in fs.dirs {
      assert site[..i] in fs.dirs;
      assert dist[..i] == site[..i];
    }
  }

  /** Once `dist/books` and its ancestors exist, `dist/books/covers` can be
      created without touching anything above it. */
  lemma CoversAncestors(fs: FileSystem, site: Path)
    requires Prefixes(DistBooks(site)) <= fs.dirs
    ensures AncestorsIn(fs, DistBooks(site) + ["covers"])
  {
    var target := DistBooks(site) + ["covers"];
    forall i | 0 <= i < |target| ensures target[..i] in fs.dirs {
      assert target[..i] == DistBooks(site)[..i];
    }
  }

  /** What the preparation leaves: nothing outside `dist` changed, the
      configuration was read from the untouched tree, `dist/books` exists,
      and `dist` holds the configuration and the filled-in page. */
  lemma PrepareOutputs(fs: FileSystem, site: Path)
    requires Valid(fs) && PlainPath(site) && Prepare(fs, site).Done?
    ensures ReadConfig(fs, ConfigPath(site)) == Success(Prepare(fs, site).value)
    ensures SameOutside(fs, Prepare(fs, site).fs, DistDir(site))
    ensures AncestorsIn(fs, DistDir(site))
    ensures AncestorsIn(Prepare(fs, site).fs, DistBooks(site) + ["covers"])
    ensures DistDir(site) + ["config.json"] in Prepare(fs, site).fs.files
    ensures Prepare(fs, site).fs.files[DistDir(site) + ["config.json"]] == ConfigDoc(Prepare(fs, site).value)
    ensures site + ["index.html"] in fs.files && fs.files[site + ["index.html"]].PlainText? ==>
      && DistDir(site) + ["index.html"] in Prepare(fs, site).fs.files
      && Prepare(fs, site).fs.files[DistDir(site) + ["index.html"]]
         == PlainText(Template.ProcessTemplateAsWritten(fs.files[site + ["index.html"]].text, Prepare(fs, site).value))
  {
    PrepareShape(fs, site);
    var dist := DistDir(site);
    var config := Prepare(fs, site).value;
    DistAncestors(fs, site);
    CleanOutputs(fs, dist);
    var fs1 := Clean(fs, dist).fs;
    PublishOutputs(fs, fs1, site, config);
    CoversAncestors(Publish(fs1, site, config).fs, site);
  }

  /** The reference index only looks at folders apart from `root`, so a
      run confined to `root` does not change it. */
  lemma {:induction false} IndexOfSame(fs0: FileSystem, fs: FileSystem, source: Path, shelves: seq<Shelf>,
                                       order: set<string> -> seq<string>, root: Path)
    requires PlainPath(source) && SameOutside(fs0, fs, root) && Apart(source, root)
    requires forall s :: s in shelves ==> PlainName(s.folder)
    ensures IndexOf(fs, source, shelves, order) == IndexOf(fs0, source, shelves, order)
  {
    if shelves != [] {
      var init := shelves[..|shelves| - 1];
      var last := shelves[|shelves| - 1];
      assert forall s :: s in init ==> s in shelves;
      IndexOfSame(fs0, fs, source, init, order, root);
      JoinName(source, last.folder);
      ApartExtend(source, root, last.folder);
      EntriesSame(fs0, fs, root, source + [last.folder]);
    }
  }

  lemma ConcludeOutputs(fs0: FileSystem, fs: FileSystem, source: Path, distBooks: Path, index: seq<string>,
                        order: set<string> -> seq<string>)
    requires Valid(fs) && Lister(order) && PlainPath(source) && PlainPath(distBooks)
    requires SameOutside(fs0, fs, distBooks) && AncestorsIn(fs0, distBooks)
    requires AncestorsIn(fs, distBooks + ["covers"])
    requires Conclude(fs, source, distBooks, index, order).Done?
    ensures SameOutside(fs0, Conclude(fs, source, distBooks, index, order).fs, distBooks)
    ensures distBooks + ["index.json"] in Conclude(fs, source, distBooks, index, order).fs.files
    ensures Conclude(fs, source, distBooks, index, order).fs.files[distBooks + ["index.json"]] == IndexDoc(index)
  {
    var idx := distBooks + ["index.json"];
    var covers := distBooks + ["covers"];
    assert PlainPath(idx);
    WriteFileOutside(fs0, fs, idx, IndexDoc(index), distBooks);
    WriteFileValid(fs, idx, IndexDoc(index));
    var fs1 := WriteFile(fs, idx, IndexDoc(index)).value;
    CopyCoversFrame(fs0, fs1, source, distBooks, order, distBooks);
    CopyCoversFrame(fs1, fs1, source, distBooks, order, covers);
    assert !Under(idx, covers) by {
      assert idx[|distBooks|] != covers[|distBooks|];
    }
  }

  /** The shelves, index and covers stay inside `distBooks`; the index is
      the reference index of the tree they started from, and it is what
      `index.json` holds. */
  lemma AssembleOutputs(fs: FileSystem, source: Path, distBooks: Path, shelves: seq<Shelf>,
                        order: set<string> -> seq<string>)
    requires Valid(fs) && Lister(order) && PlainPath(source) && PlainPath(distBooks)
    requires forall s :: s in shelves ==> PlainName(s.folder)
    requires Apart(source, distBooks) && AncestorsIn(fs, distBooks + ["covers"])
    requires Assemble(fs, source, distBooks, shelves, order).Done?
    ensures Assemble(fs, source, distBooks, shelves, order).value == IndexOf(fs, source, shelves, order)
    ensures SameOutside(fs, Assemble(fs, source, distBooks, shelves, order).fs, distBooks)
    ensures distBooks + ["index.json"] in Assemble(fs, source, distBooks, shelves, order).fs.files
    ensures Assemble(fs, source, distBooks, shelves, order).fs.files[distBooks + ["index.json"]]
      == IndexDoc(Assemble(fs, source, distBooks, shelves, order).value)
  {
    forall i | 0 <= i < |distBooks| ensures distBooks[..i] in fs.dirs {
      assert (distBooks + ["covers"])[..i] == distBooks[..i];
    }
    CopyShelvesFrame(fs, fs, source, distBooks, shelves, order, distBooks);
    CopyShelvesValid(fs, source, distBooks, shelves, order);
    var r := CopyShelves(fs, source, distBooks, shelves, order);
    ConcludeOutputs(fs, r.fs, source, distBooks, r.value, order);
  }

  /** A finished build is a finished preparation followed by `Assemble`. */
  lemma BuildShape(fs: FileSystem, site: Path, useSample: bool, order: set<string> -> seq<string>)
    requires PlainPath(site) && Build(fs, site, useSample, order).Done?
    ensures Prepare(fs, site).Done?
    ensures Build(fs, site, useSample, order) == Assembled(Prepare(fs, site).fs, site, useSample, Prepare(fs, site).value, order)
  {
  }

  /** The assembly stage, run on a tree `fs1` that differs from `fs` only
      inside `dist`: its index is the reference index of `fs`, and nothing
      outside `distBooks` changes. */
  lemma AssembleAfterPrepare(fs: FileSystem, fs1: FileSystem, source: Path, dist: Path, distBooks: Path,
                             shelves: seq<Shelf>, order: set<string> -> seq<string>)
    requires Valid(fs1) && Lister(order) && PlainPath(source) && PlainPath(distBooks)
    requires forall s :: s in shelves ==> PlainName(s.folder)
    requires Apart(source, distBooks) && Apart(source, dist)
    requires SameOutside(fs, fs1, dist) && AncestorsIn(fs1, distBooks + ["covers"])
    requires Assemble(fs1, source, distBooks, shelves, order).Done?
    ensures var r := Assemble(fs1, source, distBooks, shelves, order);
      && r.value == IndexOf(fs, source, shelves, order)
      && distBooks + ["index.json"] in r.fs.files
      && r.fs.files[distBooks + ["index.json"]] == IndexDoc(r.value)
      && SameOutside(fs1, r.fs, distBooks)
  {
    AssembleOutputs(fs1, source, distBooks, shelves, order);
    IndexOfSame(fs, fs1, source, shelves, order, dist);
  }

  /** The folders of a build are plain paths; the source is apart from the
      output, and the files the preparation writes lie outside `dist/books`. */
  lemma SitePaths(site: Path, useSample: bool)
    requires PlainPath(site)
    ensures PlainPath(SourceDir(site, useSample)) && PlainPath(DistDir(site)) && PlainPath(DistBooks(site))
    ensures Apart(SourceDir(site, useSample), DistDir(site)) && Apart(SourceDir(site, useSample), DistBooks(site))
    ensures !Under(DistDir(site) + ["config.json"], DistBooks(site))
    ensures !Under(DistDir(site) + ["index.html"], DistBooks(site))
  {
    SourceApart(site, useSample);
    var dist := DistDir(site);
    assert (dist + ["config.json"])[|dist|] != DistBooks(site)[|dist|];
    assert (dist + ["index.html"])[|dist|] != DistBooks(site)[|dist|];
  }

  /** The index the build writes, given the tree `fs1` the preparation
      left: the reference index of the original tree `fs`. */
  lemma AssembledIndex(fs: FileSystem, fs1: FileSystem, site: Path, useSample: bool,
                       order: set<string> -> seq<string>, config: Config)
    requires Valid(fs1) && Lister(order) && PlainPath(site)
    requires forall s :: s in config.shelves ==> PlainName(s.folder)
    requires SameOutside(fs, fs1, DistDir(site)) && AncestorsIn(fs1, DistBooks(site) + ["covers"])
    requires Assembled(fs1, site, useSample, config, order).Done?
    ensures Assembled(fs1, site, useSample, config, order).value == IndexOf(fs, SourceDir(site, useSample), config.shelves, order)
  {
    SitePaths(site, useSample);
    AssembleAfterPrepare(fs, fs1, SourceDir(site, useSample), DistDir(site), DistBooks(site), config.shelves, order);
  }

  /** ... and that index is what `dist/books/index.json` holds. */
  lemma AssembledWritesIndex(fs: FileSystem, fs1: FileSystem, site: Path, useSample: bool,
                             order: set<string> -> seq<string>, config: Config)
    requires Valid(fs1) && Lister(order) && PlainPath(site)
    requires forall s :: s in config.shelves ==> PlainName(s.folder)
    requires SameOutside(fs, fs1, DistDir(site)) && AncestorsIn(fs1, DistBooks(site) + ["covers"])
    requires Assembled(fs1, site, useSample, config, order).Done?
    ensures DistBooks(site) + ["index.json"] in Assembled(fs1, site, useSample, config, order).fs.files
    ensures Assembled(fs1, site, useSample, config, order).fs.files[DistBooks(site) + ["index.json"]]
      == IndexDoc(Assembled(fs1, site, useSample, config, order).value)
  {
    SitePaths(site, useSample);
    AssembleAfterPrepare(fs, fs1, SourceDir(site, useSample), DistDir(site), DistBooks(site), config.shelves, order);
  }

  /** The assembly leaves the files the preparation wrote into `dist` alone. */
  lemma AssembledKeeps(fs: FileSystem, fs1: FileSystem, site: Path, useSample: bool,
                       order: set<string> -> seq<string>, config: Config, p: Path)
    requires Valid(fs1) && Lister(order) && PlainPath(site)
    requires forall s :: s in config.shelves ==> PlainName(s.folder)
    requires SameOutside(fs, fs1, DistDir(site)) && AncestorsIn(fs1, DistBooks(site) + ["covers"])
    requires Assembled(fs1, site, useSample, config, order).Done?
    requires p == DistDir(site) + ["config.json"] || p == DistDir(site) + ["index.html"]
    requires p in fs1.files
    ensures p in Assembled(fs1, site, useSample, config, order).fs.files
    ensures Assembled(fs1, site, useSample, config, order).fs.files[p] == fs1.files[p]
  {
    SitePaths(site, useSample);
    AssembleAfterPrepare(fs, fs1, SourceDir(site, useSample), DistDir(site), DistBooks(site), config.shelves, order);
  }

  /** The index of a successful build holds, for each configured shelf in
      order whose source folder exists, its `.json` names as
      `"<folder>/<name>"`, in listing order. */
  lemma BuildIndex(fs: FileSystem, site: Path, useSample: bool, order: set<string> -> seq<string>, config: Config)
    requires Valid(fs) && Lister(order) && PlainPath(site)
    requires ReadConfig(fs, ConfigPath(site)) == Success(config)
    requires forall s :: s in config.shelves ==> PlainName(s.folder)
    requires Build(fs, site, useSample, order).Done?
    ensures Build(fs, site, useSample, order).value == IndexOf(fs, SourceDir(site, useSample), config.shelves, order)
  {
    BuildShape(fs, site, useSample, order);
    PrepareOutputs(fs, site);
    PrepareValid(fs, site);
    assert Prepare(fs, site).value == config;
    AssembledIndex(fs, Prepare(fs, site).fs, site, useSample, order, config);
  }

  /** ... and that index is what `dist/books/index.json` holds. */
  lemma BuildWritesIndex(fs: FileSystem, site: Path, useSample: bool, order: set<string> -> seq<string>, config: Config)
    requires Valid(fs) && Lister(order) && PlainPath(site)
    requires ReadConfig(fs, ConfigPath(site)) == Success(config)
    requires forall s :: s in config.shelves ==> PlainName(s.folder)
    requires Build(fs, site, useSample, order).Done?
    ensures DistBooks(site) + ["index.json"] in Build(fs, site, useSample, order).fs.files
    ensures Build(fs, site, useSample, order).fs.files[DistBooks(site) + ["index.json"]]
      == IndexDoc(Build(fs, site, useSample, order).value)
  {
    BuildShape(fs, site, useSample, order);
    PrepareOutputs(fs, site);
    PrepareValid(fs, site);
    assert Prepare(fs, site).value == config;
    AssembledWritesIndex(fs, Prepare(fs, site).fs, site, useSample, order, config);
  }

  /** A successful build leaves a copy of the configuration in `dist`. */
  lemma BuildCopiesConfig(fs: FileSystem, site: Path, useSample: bool, order: set<string> -> seq<string>, config: Config)
    requires Valid(fs) && Lister(order) && PlainPath(site)
    requires ReadConfig(fs, ConfigPath(site)) == Success(config)
    requires forall s :: s in config.shelves ==> PlainName(s.folder)
    requires Build(fs, site, useSample, order).Done?
    ensures DistDir(site) + ["config.json"] in Build(fs, site, useSample, order).fs.files
    ensures Build(fs, site, useSample, order).fs.files[DistDir(site) + ["config.json"]] == ConfigDoc(config)
  {
    BuildShape(fs, site, useSample, order);
    PrepareOutputs(fs, site);
    PrepareValid(fs, site);
    assert Prepare(fs, site).value == config;
    AssembledKeeps(fs, Prepare(fs, site).fs, site, useSample, order, config, DistDir(site) + ["config.json"]);
  }

  /** A successful build leaves the page with its placeholders filled in
      from the configuration. */
  lemma BuildRendersPage(fs: FileSystem, site: Path, useSample: bool, order: set<string> -> seq<string>, config: Config)
    requires Valid(fs) && Lister(order) && PlainPath(site)
    requires ReadConfig(fs, ConfigPath(site)) == Success(config)
    requires forall s :: s in config.shelves ==> PlainName(s.folder)
    requires Build(fs, site, useSample, order).Done?
    requires site + ["index.html"] in fs.files && fs.files[site + ["index.html"]].PlainText?
    ensures DistDir(site) + ["index.html"] in Build(fs, site, useSample, order).fs.files
    ensures Build(fs, site, useSample, order).fs.files[DistDir(site) + ["index.html"]]
      == PlainText(Template.ProcessTemplateAsWritten(fs.files[site + ["index.html"]].text, config))
  {
    BuildShape(fs, site, useSample, order);
    PrepareOutputs(fs, site);
    PrepareValid(fs, site);
    assert Prepare(fs, site).value == config;
    AssembledKeeps(fs, Prepare(fs, site).fs, site, useSample, order, config, DistDir(site) + ["index.html"]);
  }

  /** Configuration first: when it cannot be read, nothing is touched. */
  lemma BuildConfigFirst(fs: FileSystem, site: Path, useSample: bool, order: set<string> -> seq<string>)
    requires PlainPath(site) && ReadConfig(fs, ConfigPath(site)).Failure?
    ensures Build(fs, site, useSample, order) == Aborted(fs, ReadConfig(fs, ConfigPath(site)).error)
  {
  }

  lemma {:induction false} CoverFilesSkip(fs: FileSystem, src: Path, dst: Path, names: seq<string>, n: string)
    requires PlainPath(src) && PlainPath(dst) && n !in names
    requires forall m :: m in names ==> PlainName(m)
    ensures var r := CopyCoverFiles(fs, src, dst, names).fs;
      (dst + [n] in r.files <==> dst + [n] in fs.files) &&
      (dst + [n] in r.files ==> r.files[dst + [n]] == fs.files[dst + [n]])
  {
    if names != [] {
      var init := names[..|names| - 1];
      var m := names[|names| - 1];
      assert forall k :: k in init ==> k in names;
      CoverFilesSkip(fs, src, dst, init, n);
      JoinName(dst, m);
      assert dst + [m] != dst + [n] by {
        assert (dst + [m])[|dst|] == m;
      }
    }
  }

  /** A cover whose name starts with a dot is never copied. */
  lemma CoversSkipHidden(fs: FileSystem, source: Path, distBooks: Path, order: set<string> -> seq<string>, n: string)
    requires Valid(fs) && Lister(order) && PlainPath(source) && PlainPath(distBooks)
    requires StartsWith(n, ".")
    ensures var r := CopyCovers(fs, source, distBooks, order).fs;
      (distBooks + ["covers", n] in r.files <==> distBooks + ["covers", n] in fs.files) &&
      (distBooks + ["covers", n] in r.files ==> r.files[distBooks + ["covers", n]] == fs.files[distBooks + ["covers", n]])
  {
    var src := source + ["covers"];
    var dst := distBooks + ["covers"];
    assert dst + [n] == distBooks + ["covers", n];
    assert PlainPath(src) && PlainPath(dst);
    if Exists(fs, src) && Mkdirs(fs, dst).Success? {
      MkdirsValid(fs, dst);
      var fs1 := Mkdirs(fs, dst).value;
      var names := order(Entries(fs1, src));
      ListedPlain(fs1, src, order, Visible);
      FilterMembers(names, Visible, n);
      CoverFilesSkip(fs1, src, dst, Filter(names, Visible), n);
    }
  }
}
