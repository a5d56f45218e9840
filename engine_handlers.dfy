/** What each handler of the desktop engine does to the site folder, as a
    run over the file-system model: the book and shelf handlers, the build
    report, the preview start, the count of existing books and the sample
    data loader. Paths that arrive as strings are read the way `path.join`
    reads them. */
module EngineHandlers {
  import opened Wrappers
  import opened Text
  import opened Types
  import opened Seqs
  import opened Files
  import opened LibraryStore
  import opened SiteBuild
  import opened Preview

  function ShelfNotFound(id: string): string {
    "Shelf with id \"" + id + "\" not found"
  }

  function TargetNotFound(id: string): string {
    "Target shelf with id \"" + id + "\" not found"
  }

  function ShelfNotEmpty(name: string, count: nat): string {
    "Cannot delete shelf \"" + name + "\" - it contains " + NatToString(count) + " book(s)"
  }

  const DistMissing := "dist/ directory not found. Build the site first."
  const SampleMissing := "Sample data folder (books-sample/) not found"

  /** What the renderer sees of a run: its value, or the message thrown. */
  function Outcome<T>(run: Run<T>): Result<T, string> {
    match run
    case Done(_, v) => Success(v)
    case Aborted(_, m) => Failure(m)
  }

  /** A path string sent by the renderer, resolved from the root. */
  function Resolve(s: string): Path {
    Join([], s)
  }

  // ---------------------------------------------------------------------
  // Configuration.

  const ConfigNotFound := "config.json not found"

  /** `get-config`: a missing file is reported by name; a directory in its
      place or a document that is not a configuration is refused by the
      read or the parse. */
  function GetConfigRun(fs: FileSystem, site: Path): (r: Result<Config, string>)
    ensures !Exists(fs, ConfigPath(site)) ==> r == Failure(ConfigNotFound)
    ensures r.Success? <==> ConfigPath(site) in fs.files && fs.files[ConfigPath(site)].ConfigDoc?
    ensures r.Success? ==> r.value == fs.files[ConfigPath(site)].config
  {
    if !Exists(fs, ConfigPath(site)) then Failure(ConfigNotFound) else ReadConfig(fs, ConfigPath(site))
  }

  /** `save-config`: the configuration file is written over. */
  function SaveConfigRun(fs: FileSystem, site: Path, config: Config): Run<()> {
    Lift(fs, WriteFile(fs, ConfigPath(site), ConfigDoc(config)))
  }

  /** A save succeeds exactly when the site folder exists and the name is
      not a folder; it changes only the configuration file, and reading the
      configuration afterwards gives back what was saved. */
  lemma SaveConfigOutcome(fs: FileSystem, site: Path, config: Config)
    ensures var r := SaveConfigRun(fs, site, config);
      && (r.Done? <==> site in fs.dirs && ConfigPath(site) !in fs.dirs)
      && (r.Done? ==> r.fs == FileSystem(fs.files[ConfigPath(site) := ConfigDoc(config)], fs.dirs))
      && (r.Done? ==> GetConfigRun(r.fs, site) == Success(config))
      && (r.Aborted? ==> r.fs == fs)
  {
    assert ConfigPath(site)[..|site|] == site;
  }

  lemma SaveConfigValid(fs: FileSystem, site: Path, config: Config)
    requires Valid(fs) && PlainPath(site)
    ensures Valid(SaveConfigRun(fs, site, config).fs)
  {
    assert PlainName("config.json");
    if WriteFile(fs, ConfigPath(site), ConfigDoc(config)).Success? {
      WriteFileValid(fs, ConfigPath(site), ConfigDoc(config));
    }
  }

  /** `get-book`: the record in the file at that path. */
  function GetBookRun(fs: FileSystem, filePath: string): (r: Result<Book, string>)
    ensures r.Success? <==> Resolve(filePath) in fs.files && fs.files[Resolve(filePath)].BookDoc?
    ensures r.Success? ==> r.value == fs.files[Resolve(filePath)].book
  {
    ReadBook(fs, Resolve(filePath))
  }

  // ---------------------------------------------------------------------
  // Books.

  /** `save-book`: look the shelf up, make its folder if needed and write
      the record under `fileName`; the value is the file's path. */
  function SaveBookRun(fs: FileSystem, site: Path, shelfId: string, fileName: string, book: Book): Run<string>
    requires PlainPath(site)
  {
    match ReadConfig(fs, ConfigPath(site))
    case Failure(m) => Aborted(fs, m)
    case Success(config) =>
      match FindShelf(config.shelves, shelfId)
      case None => Aborted(fs, ShelfNotFound(shelfId))
      case Some(shelf) => SaveIntoRun(fs, Join(BooksDir(site), shelf.folder), fileName, book)
  }

  /** The writing part of `save-book`: make the folder `dir` if it is
      missing, then write the record into it. */
  function SaveIntoRun(fs: FileSystem, dir: Path, fileName: string, book: Book): Run<string>
    requires PlainPath(dir)
  {
    match EnsureDir(fs, dir)
    case Failure(m) => Aborted(fs, m)
    case Success(fs1) =>
      var p := Join(dir, fileName);
      match WriteFile(fs1, p, BookDoc(book))
      case Failure(m) => Aborted(fs1, m)
      case Success(fs2) => Done(fs2, Render(p))
  }

  /** An unknown shelf is refused before anything changes; a save writes
      exactly the record's file (creating or overwriting it) in the shelf's
      folder, adds at most that folder, and returns the file's path. */
  lemma SaveBookOutcome(fs: FileSystem, site: Path, shelfId: string, fileName: string, book: Book)
    requires PlainPath(site)
    ensures var r := SaveBookRun(fs, site, shelfId, fileName, book);
      && (ReadConfig(fs, ConfigPath(site)).Failure? ==> r.Aborted? && r.fs == fs)
      && (ReadConfig(fs, ConfigPath(site)).Success? && !HasShelf(ReadConfig(fs, ConfigPath(site)).value.shelves, shelfId)
          ==> r == Aborted(fs, ShelfNotFound(shelfId)))
      && (r.Done? ==>
            var shelf := FindShelf(ReadConfig(fs, ConfigPath(site)).value.shelves, shelfId).value;
            var p := Join(Join(BooksDir(site), shelf.folder), fileName);
            && r.value == Render(p)
            && r.fs.files == fs.files[p := BookDoc(book)]
            && fs.dirs <= r.fs.dirs
            && ReadBook(r.fs, p) == Success(book))
  {
  }

  /** The path `save-book` answers with reads back, through `get-book`,
      the record that was saved. */
  lemma SaveThenGetBook(fs: FileSystem, site: Path, shelfId: string, fileName: string, book: Book)
    requires PlainPath(site) && SaveBookRun(fs, site, shelfId, fileName, book).Done?
    ensures var r := SaveBookRun(fs, site, shelfId, fileName, book);
      GetBookRun(r.fs, r.value) == Success(book)
  {
    var config := ReadConfig(fs, ConfigPath(site)).value;
    var shelf := FindShelf(config.shelves, shelfId).value;
    var p := Join(Join(BooksDir(site), shelf.folder), fileName);
    SaveBookOutcome(fs, site, shelfId, fileName, book);
    ParseRender(p);
  }

  lemma SaveBookValid(fs: FileSystem, site: Path, shelfId: string, fileName: string, book: Book)
    requires Valid(fs) && PlainPath(site)
    ensures Valid(SaveBookRun(fs, site, shelfId, fileName, book).fs)
  {
    var config := ReadConfig(fs, ConfigPath(site));
    if config.Success? && FindShelf(config.value.shelves, shelfId).Some? {
      var dir := Join(BooksDir(site), FindShelf(config.value.shelves, shelfId).value.folder);
      if !Exists(fs, dir) && Mkdirs(fs, dir).Success? {
        MkdirsValid(fs, dir);
      }
      if EnsureDir(fs, dir).Success? {
        var fs1 := EnsureDir(fs, dir).value;
        var p := Join(dir, fileName);
        if WriteFile(fs1, p, BookDoc(book)).Success? {
          WriteFileValid(fs1, p, BookDoc(book));
        }
      }
    }
  }

  /** A record saved under a `.json` name is enumerated by `get-books`
      afterwards, tagged with the shelf it was saved to. */
  lemma SavedBookListed(fs: FileSystem, site: Path, shelfId: string, fileName: string, book: Book,
                        order: set<string> -> seq<string>)
    requires Valid(fs) && Lister(order) && PlainPath(site)
    requires PlainName(fileName) && IsJsonName(fileName)
    requires ReadConfig(fs, ConfigPath(site)).Success?
    requires forall s :: s in ReadConfig(fs, ConfigPath(site)).value.shelves ==> PlainName(s.folder)
    requires SaveBookRun(fs, site, shelfId, fileName, book).Done?
    requires GetBooks(SaveBookRun(fs, site, shelfId, fileName, book).fs, site, order).Success?
    ensures exists bm :: (bm in GetBooks(SaveBookRun(fs, site, shelfId, fileName, book).fs, site, order).value
      && bm.book == book && bm.fileName == fileName && bm.shelfId == shelfId)
  {
    var config := ReadConfig(fs, ConfigPath(site)).value;
    var i := ShelfIndex(config.shelves, shelfId);
    var shelf := config.shelves[i];
    var books := BooksDir(site);
    var dir := Join(books, shelf.folder);
    JoinName(books, shelf.folder);
    JoinName(dir, fileName);
    var p := dir + [fileName];
    var fs2 := SaveBookRun(fs, site, shelfId, fileName, book).fs;
    SaveBookOutcome(fs, site, shelfId, fileName, book);
    SaveBookValid(fs, site, shelfId, fileName, book);
    assert p != ConfigPath(site) by {
      assert p[|site|] == "books" && ConfigPath(site)[|site|] == "config.json";
    }
    assert ReadConfig(fs2, ConfigPath(site)) == Success(config);
    assert ReadBook(fs2, p) == Success(book);
    AllBooksComplete(fs2, books, config.shelves, order, i, fileName);
    var bm := WithMeta(book, p, fileName, shelf);
    assert bm in GetBooks(fs2, site, order).value;
  }

  /** `delete-book` and `delete-cover`: unlink the file when it exists. */
  function DeleteIfExists(fs: FileSystem, p: Path): Run<()> {
    if !Exists(fs, p) then Done(fs, ()) else Lift(fs, Unlink(fs, p))
  }

  function DeleteBookRun(fs: FileSystem, filePath: string): Run<()> {
    DeleteIfExists(fs, Resolve(filePath))
  }

  /** A cover path is relative to the site folder. */
  function DeleteCoverRun(fs: FileSystem, site: Path, coverPath: string): Run<()>
    requires PlainPath(site)
  {
    DeleteIfExists(fs, Join(site, coverPath))
  }

  /** A missing file is not an error and changes nothing; a file goes and
      nothing else changes; a directory is refused; and deleting again
      after a delete changes nothing. */
  lemma DeleteIdempotent(fs: FileSystem, p: Path)
    requires Valid(fs)
    ensures var r := DeleteIfExists(fs, p);
      && (!Exists(fs, p) ==> r == Done(fs, ()))
      && (p in fs.files ==> r == Done(FileSystem(fs.files - {p}, fs.dirs), ()))
      && (p in fs.dirs ==> r.Aborted? && r.fs == fs)
      && (r.Done? ==> !Exists(r.fs, p) && DeleteIfExists(r.fs, p) == r)
  {
  }

  /** The path `get-books` reports for a record names that record's file,
      so `delete-book` on it removes exactly that file. */
  lemma DeleteListedBook(fs: FileSystem, books: Path, shelf: Shelf, bm: BookWithMeta)
    requires PlainPath(books) && StoredIn(fs, books, shelf, bm)
    ensures var p := Join(Join(books, shelf.folder), bm.fileName);
      DeleteBookRun(fs, bm.filePath) == Done(FileSystem(fs.files - {p}, fs.dirs), ())
  {
    var p := Join(Join(books, shelf.folder), bm.fileName);
    ParseRender(p);
  }

  /** `move-book`: look the target shelf up, make its folder if needed and
      rename the file into it under its own base name. */
  function MoveBookRun(fs: FileSystem, site: Path, filePath: string, targetShelfId: string): Run<string>
    requires PlainPath(site)
  {
    match ReadConfig(fs, ConfigPath(site))
    case Failure(m) => Aborted(fs, m)
    case Success(config) =>
      match FindShelf(config.shelves, targetShelfId)
      case None => Aborted(fs, TargetNotFound(targetShelfId))
      case Some(shelf) => MoveIntoRun(fs, Resolve(filePath), Join(BooksDir(site), shelf.folder))
  }

  /** The moving part of `move-book`: make the folder `dir` if it is
      missing, then rename the file into it under its own base name. */
  function MoveIntoRun(fs: FileSystem, src: Path, dir: Path): Run<string>
    requires PlainPath(dir)
  {
    var dst := Join(dir, Basename(src));
    match EnsureDir(fs, dir)
    case Failure(m) => Aborted(fs, m)
    case Success(fs1) =>
      match Rename(fs1, src, dst)
      case Failure(m) => Aborted(fs1, m)
      case Success(fs2) => Done(fs2, Render(dst))
  }

  /** An unknown target shelf is refused before anything changes. */
  lemma MoveBookUnknownShelf(fs: FileSystem, site: Path, filePath: string, targetShelfId: string)
    requires PlainPath(site)
    requires ReadConfig(fs, ConfigPath(site)).Success?
    requires !HasShelf(ReadConfig(fs, ConfigPath(site)).value.shelves, targetShelfId)
    ensures MoveBookRun(fs, site, filePath, targetShelfId) == Aborted(fs, TargetNotFound(targetShelfId))
  {
  }

  /** A move keeps the base name and changes only the folder, carries the
      content over, and leaves nothing at the old path. */
  lemma MoveBookOutcome(fs: FileSystem, site: Path, filePath: string, targetShelfId: string)
    requires Valid(fs) && PlainPath(site)
    requires MoveBookRun(fs, site, filePath, targetShelfId).Done?
    ensures var shelf := FindShelf(ReadConfig(fs, ConfigPath(site)).value.shelves, targetShelfId).value;
      var src := Resolve(filePath);
      var dst := Join(BooksDir(site), shelf.folder) + [Basename(src)];
      var r := MoveBookRun(fs, site, filePath, targetShelfId);
      && src in fs.files
      && r.value == Render(dst)
      && Basename(dst) == Basename(src)
      && r.fs.files == (fs.files - {src})[dst := fs.files[src]]
      && (src != dst ==> src !in r.fs.files)
  {
    var config := ReadConfig(fs, ConfigPath(site)).value;
    var shelf := FindShelf(config.shelves, targetShelfId).value;
    var src := Resolve(filePath);
    var dir := Join(BooksDir(site), shelf.folder);
    var fs1 := EnsureDir(fs, dir).value;
    var dst := Join(dir, Basename(src));
    assert Rename(fs1, src, dst).Success?;
    assert src in fs.files;
    assert PlainName(src[|src| - 1]);
    JoinName(dir, Basename(src));
  }

  lemma MoveBookValid(fs: FileSystem, site: Path, filePath: string, targetShelfId: string)
    requires Valid(fs) && PlainPath(site)
    ensures Valid(MoveBookRun(fs, site, filePath, targetShelfId).fs)
  {
    var config := ReadConfig(fs, ConfigPath(site));
    if config.Success? && FindShelf(config.value.shelves, targetShelfId).Some? {
      var dir := Join(BooksDir(site), FindShelf(config.value.shelves, targetShelfId).value.folder);
      if !Exists(fs, dir) && Mkdirs(fs, dir).Success? {
        MkdirsValid(fs, dir);
      }
      if EnsureDir(fs, dir).Success? {
        var fs1 := EnsureDir(fs, dir).value;
        var src := Resolve(filePath);
        var dst := Join(dir, Basename(src));
        if Rename(fs1, src, dst).Success? {
          RenameValid(fs1, src, dst);
        }
      }
    }
  }

  // ---------------------------------------------------------------------
  // Shelves.

  /** `create-shelf`: make the shelf's folder unless something is there. */
  function CreateShelfRun(fs: FileSystem, site: Path, shelf: Shelf): Run<()>
    requires PlainPath(site)
  {
    Lift(fs, EnsureDir(fs, Join(BooksDir(site), shelf.folder)))
  }

  /** After a creation the folder exists, no file changed, and creating it
      again changes nothing. */
  lemma CreateShelfOutcome(fs: FileSystem, site: Path, shelf: Shelf)
    requires PlainPath(site)
    ensures var r := CreateShelfRun(fs, site, shelf);
      && r.fs.files == fs.files
      && (r.Done? ==> Exists(r.fs, Join(BooksDir(site), shelf.folder)) && CreateShelfRun(r.fs, site, shelf) == Done(r.fs, ()))
      && (Exists(fs, Join(BooksDir(site), shelf.folder)) ==> r == Done(fs, ()))
  {
  }

  /** `delete-shelf`: refuse a shelf that still holds `.json` files, remove
      an empty folder, do nothing when the folder is missing. The
      configuration is not edited here. */
  function DeleteShelfRun(fs: FileSystem, site: Path, shelfId: string, order: set<string> -> seq<string>): Run<()>
    requires PlainPath(site)
  {
    match ReadConfig(fs, ConfigPath(site))
    case Failure(m) => Aborted(fs, m)
    case Success(config) =>
      match FindShelf(config.shelves, shelfId)
      case None => Aborted(fs, ShelfNotFound(shelfId))
      case Some(shelf) => RemoveShelfDir(fs, Join(BooksDir(site), shelf.folder), shelf.name, order)
  }

  /** The removing part of `delete-shelf`: a missing folder is left alone,
      one holding `.json` entries is refused, an otherwise empty one goes. */
  function RemoveShelfDir(fs: FileSystem, dir: Path, name: string, order: set<string> -> seq<string>): Run<()> {
    if !Exists(fs, dir) then Done(fs, ())
    else match ListDir(fs, dir, order)
      case Failure(m) => Aborted(fs, m)
      case Success(names) =>
        var held := JsonNames(names);
        if |held| > 0 then Aborted(fs, ShelfNotEmpty(name, |held|))
        else Lift(fs, Rmdir(fs, dir))
  }

  /** Removing a shelf's folder changes no file, and a removal that
      completes leaves the folder gone and every other folder in place. */
  lemma RemoveShelfDirOutcome(fs: FileSystem, dir: Path, name: string, order: set<string> -> seq<string>)
    requires Valid(fs)
    ensures var r := RemoveShelfDir(fs, dir, name, order);
      && r.fs.files == fs.files
      && (r.Done? ==> r.fs.dirs == fs.dirs - {dir} && !Exists(r.fs, dir))
  {
  }

  /** No file is ever changed (the configuration included); an unknown id
      is refused; a successful delete removes only the shelf's folder, or
      nothing when it was missing. */
  lemma DeleteShelfOutcome(fs: FileSystem, site: Path, shelfId: string, order: set<string> -> seq<string>)
    requires Valid(fs) && PlainPath(site)
    ensures var r := DeleteShelfRun(fs, site, shelfId, order);
      && r.fs.files == fs.files
      && (ReadConfig(fs, ConfigPath(site)).Success? && !HasShelf(ReadConfig(fs, ConfigPath(site)).value.shelves, shelfId)
          ==> r == Aborted(fs, ShelfNotFound(shelfId)))
      && (r.Done? ==>
            var dir := Join(BooksDir(site), FindShelf(ReadConfig(fs, ConfigPath(site)).value.shelves, shelfId).value.folder);
            r.fs.dirs == fs.dirs - {dir} && !Exists(r.fs, dir))
  {
    var config := ReadConfig(fs, ConfigPath(site));
    if config.Success? && FindShelf(config.value.shelves, shelfId).Some? {
      var shelf := FindShelf(config.value.shelves, shelfId).value;
      RemoveShelfDirOutcome(fs, Join(BooksDir(site), shelf.folder), shelf.name, order);
    }
  }

  /** A shelf whose folder holds a `.json` entry is never deleted: the
      handler refuses, naming how many such entries there are, and leaves
      the tree as it was. */
  lemma DeleteShelfKeepsBooks(fs: FileSystem, site: Path, shelfId: string, order: set<string> -> seq<string>, n: string)
    requires PlainPath(site) && Lister(order)
    requires ReadConfig(fs, ConfigPath(site)).Success?
    requires HasShelf(ReadConfig(fs, ConfigPath(site)).value.shelves, shelfId)
    requires var shelf := FindShelf(ReadConfig(fs, ConfigPath(site)).value.shelves, shelfId).value;
      var dir := Join(BooksDir(site), shelf.folder);
      dir in fs.dirs && IsJsonName(n) && Exists(fs, dir + [n])
    ensures var shelf := FindShelf(ReadConfig(fs, ConfigPath(site)).value.shelves, shelfId).value;
      var dir := Join(BooksDir(site), shelf.folder);
      DeleteShelfRun(fs, site, shelfId, order)
        == Aborted(fs, ShelfNotEmpty(shelf.name, |set m | m in Entries(fs, dir) && IsJsonName(m)|))
  {
    var shelf := FindShelf(ReadConfig(fs, ConfigPath(site)).value.shelves, shelfId).value;
    var dir := Join(BooksDir(site), shelf.folder);
    var names := order(Entries(fs, dir));
    EntriesMember(fs, dir, n);
    FilterMembers(names, IsJsonName, n);
    JsonCount(Entries(fs, dir), order);
    assert |JsonNames(names)| > 0;
  }

  // ---------------------------------------------------------------------
  // Build and preview.

  /** The `{ success, message }` the build handler answers with. */
  function BuildReport(run: Run<seq<string>>): (bool, string) {
    match run
    case Done(_, index) => (true, "Built " + NatToString(|index|) + " books to dist/")
    case Aborted(_, m) => (false, m)
  }

  /** A configuration that cannot be read is reported and nothing changes. */
  lemma BuildReportConfigFailure(fs: FileSystem, site: Path, useSample: bool, order: set<string> -> seq<string>)
    requires PlainPath(site) && ReadConfig(fs, ConfigPath(site)).Failure?
    ensures Build(fs, site, useSample, order).fs == fs
    ensures BuildReport(Build(fs, site, useSample, order)) == (false, ReadConfig(fs, ConfigPath(site)).error)
  {
    BuildConfigFirst(fs, site, useSample, order);
  }

  /** A successful build reports how many records the index lists: the
      `.json` names of the existing shelf folders. */
  lemma BuildReportCount(fs: FileSystem, site: Path, useSample: bool, order: set<string> -> seq<string>, config: Config)
    requires Valid(fs) && Lister(order) && PlainPath(site)
    requires ReadConfig(fs, ConfigPath(site)) == Success(config)
    requires forall s :: s in config.shelves ==> PlainName(s.folder)
    requires Build(fs, site, useSample, order).Done?
    ensures BuildReport(Build(fs, site, useSample, order))
      == (true, "Built " + NatToString(|IndexOf(fs, SourceDir(site, useSample), config.shelves, order)|) + " books to dist/")
  {
    BuildIndex(fs, site, useSample, order, config);
  }

  /** `start-preview-server` after the old server is closed: `dist` must
      exist, then the port search decides. */
  function StartResult(fs: FileSystem, site: Path, bind: int -> Bind): Result<(int, string), string> {
    if !Exists(fs, DistDir(site)) then Failure(DistMissing)
    else match PortSearch(bind, FirstPort)
      case Success(port) => Success((port, PreviewUrl(port)))
      case Failure(e) => Failure(e)
  }

  /** A started preview listens on the first port from 8080 that binds,
      every port before it being in use, and reports its address. */
  lemma StartFindsFirstFreePort(fs: FileSystem, site: Path, bind: int -> Bind)
    ensures !Exists(fs, DistDir(site)) ==> StartResult(fs, site, bind) == Failure(DistMissing)
    ensures StartResult(fs, site, bind).Success? ==>
      var port := StartResult(fs, site, bind).value.0;
      && FirstPort <= port <= LastPort
      && bind(port) == Bound
      && (forall k :: FirstPort <= k < port ==> bind(k) == InUse)
      && StartResult(fs, site, bind).value.1 == PreviewUrl(port)
  {
    if Exists(fs, DistDir(site)) {
      PortSearchFinds(bind, FirstPort);
    }
  }

  // ---------------------------------------------------------------------
  // Existing books and sample data.

  /** The number of `.json` names in those of `names` that are folders in
      `d`, skipping the names `keep` rejects. */
  function SubfolderJsonCount(fs: FileSystem, d: Path, names: seq<string>, keep: string -> bool,
                              order: set<string> -> seq<string>): nat
  {
    if names == [] then 0
    else
      var n := names[|names| - 1];
      SubfolderJsonCount(fs, d, names[..|names| - 1], keep, order)
        + (if d + [n] in fs.dirs && keep(n) then |JsonNames(order(Entries(fs, d + [n])))| else 0)
  }

  predicate NotCovers(n: string) { n != "covers" }

  /** `check-existing-books`: no `books` folder counts as none; a `books`
      that is a file cannot be listed. */
  function ExistingBooks(fs: FileSystem, site: Path, order: set<string> -> seq<string>): Result<nat, string> {
    var books := BooksDir(site);
    if !Exists(fs, books) then Success(0)
    else match ListDir(fs, books, order)
      case Failure(m) => Failure(m)
      case Success(names) => Success(SubfolderJsonCount(fs, books, names, NotCovers, order))
  }

  /** The count is zero exactly when no folder among `names` other than
      `covers` holds a `.json` entry. */
  lemma {:induction false} SubfolderJsonCountZero(fs: FileSystem, d: Path, names: seq<string>, keep: string -> bool,
                                                  order: set<string> -> seq<string>)
    requires Lister(order)
    ensures SubfolderJsonCount(fs, d, names, keep, order) == 0 <==>
      forall n, m :: n in names && d + [n] in fs.dirs && keep(n) && m in Entries(fs, d + [n]) ==> !IsJsonName(m)
  {
    if names != [] {
      var init := names[..|names| - 1];
      var n := names[|names| - 1];
      SubfolderJsonCountZero(fs, d, init, keep, order);
      var here := JsonNames(order(Entries(fs, d + [n])));
      forall m ensures m in here <==> m in Entries(fs, d + [n]) && IsJsonName(m) {
        FilterMembers(order(Entries(fs, d + [n])), IsJsonName, m);
      }
      assert forall k :: k in names <==> k in init || k == n by {
        assert names == init + [n];
      }
      if d + [n] in fs.dirs && keep(n) && |here| > 0 {
        assert here[0] in here;
      }
    }
  }

  lemma ExistingBooksZero(fs: FileSystem, site: Path, order: set<string> -> seq<string>)
    requires Valid(fs) && Lister(order) && ExistingBooks(fs, site, order).Success?
    ensures ExistingBooks(fs, site, order).value == 0 <==>
      forall n, m :: BooksDir(site) + [n] in fs.dirs && n != "covers" && m in Entries(fs, BooksDir(site) + [n]) ==> !IsJsonName(m)
  {
    var books := BooksDir(site);
    if Exists(fs, books) {
      var names := order(Entries(fs, books));
      SubfolderJsonCountZero(fs, books, names, NotCovers, order);
      forall n | books + [n] in fs.dirs ensures n in names {
        EntriesMember(fs, books, n);
      }
    } else {
      forall n ensures books + [n] in fs.dirs ==> books in fs.dirs {
        assert (books + [n])[..|books|] == books;
      }
    }
  }

  const SampleShelves: seq<Shelf> := [
    Shelf("top5", "Top 5 Reads", "top-5-reads"),
    Shelf("good", "Good Reads", "good-reads"),
    Shelf("current", "Current Reads", "current-reads"),
    Shelf("future", "Future Reads", "future-reads")]

  /** The folders among `names` in `d`, in order: what `isDirectory()`
      keeps of a typed listing. */
  function SubDirs(fs: FileSystem, d: Path, names: seq<string>): (r: seq<string>)
    requires PlainPath(d)
    ensures forall n :: n in r <==> n in names && Join(d, n) in fs.dirs
  {
    if names == [] then []
    else
      var n := names[|names| - 1];
      var prev := SubDirs(fs, d, names[..|names| - 1]);
      assert forall k :: k in names <==> k in names[..|names| - 1] || k == n by {
        assert names == names[..|names| - 1] + [n];
      }
      prev + (if Join(d, n) in fs.dirs then [n] else [])
  }

  /** One sample shelf: make the target folder if needed, then copy its
      `.json` files; the value is how many were copied. */
  function LoadShelf(fs: FileSystem, src: Path, dst: Path, order: set<string> -> seq<string>): Run<nat>
    requires PlainPath(src) && PlainPath(dst)
  {
    match EnsureDir(fs, dst)
    case Failure(m) => Aborted(fs, m)
    case Success(fs1) =>
      match ListDir(fs1, src, order)
      case Failure(m) => Aborted(fs1, m)
      case Success(names) =>
        match CopyBookFiles(fs1, src, dst, "", JsonNames(names))
        case Aborted(fs2, m) => Aborted(fs2, m)
        case Done(fs2, copied) => Done(fs2, |copied|)
  }

  /** Every sample shelf in listing order; the value is the total copied. */
  function LoadShelves(fs: FileSystem, sample: Path, books: Path, dirs: seq<string>, order: set<string> -> seq<string>): Run<nat>
    requires PlainPath(sample) && PlainPath(books)
  {
    if dirs == [] then Done(fs, 0)
    else LoadNext(LoadShelves(fs, sample, books, dirs[..|dirs| - 1], order), sample, books, dirs[|dirs| - 1], order)
  }

  /** After the shelves so far, the sample folder `n`, adding its count. */
  function LoadNext(prev: Run<nat>, sample: Path, books: Path, n: string, order: set<string> -> seq<string>): Run<nat>
    requires PlainPath(sample) && PlainPath(books)
  {
    match prev
    case Aborted(fs1, m) => Aborted(fs1, m)
    case Done(fs1, k) => AddCount(k, LoadShelf(fs1, Join(sample, n), Join(books, n), order))
  }

  /** A count so far plus the count of a run that finished. */
  function AddCount(k: nat, r: Run<nat>): Run<nat> {
    match r
    case Aborted(fs, m) => Aborted(fs, m)
    case Done(fs, j) => Done(fs, k + j)
  }

  /** The copying part of `load-sample-data`. */
  function CopySample(fs: FileSystem, site: Path, order: set<string> -> seq<string>): Run<nat>
    requires PlainPath(site)
  {
    var sample := SampleDir(site);
    var books := BooksDir(site);
    if !Exists(fs, sample) then Aborted(fs, SampleMissing)
    else match EnsureDir(fs, books)
      case Failure(m) => Aborted(fs, m)
      case Success(fs1) =>
        match ListDir(fs1, sample, order)
        case Failure(m) => Aborted(fs1, m)
        case Success(names) => LoadShelves(fs1, sample, books, SubDirs(fs1, sample, names), order)
  }

  /** After the copies: the configuration, read now, is written back with
      the sample shelves. */
  function UseSampleShelves(fs: FileSystem, site: Path, loaded: nat): Run<nat> {
    match ReadConfig(fs, ConfigPath(site))
    case Failure(m) => Aborted(fs, m)
    case Success(config) =>
      match WriteFile(fs, ConfigPath(site), ConfigDoc(config.(shelves := SampleShelves)))
      case Failure(m) => Aborted(fs, m)
      case Success(fs1) => Done(fs1, loaded)
  }

  function LoadSample(fs: FileSystem, site: Path, order: set<string> -> seq<string>): Run<nat>
    requires PlainPath(site)
  {
    match CopySample(fs, site, order)
    case Aborted(fs1, m) => Aborted(fs1, m)
    case Done(fs1, k) => UseSampleShelves(fs1, site, k)
  }

  /** The `{ success, message, booksLoaded }` the loader answers with. */
  function SampleReport(run: Run<nat>): (bool, string, nat) {
    match run
    case Done(_, k) => (true, "Loaded " + NatToString(k) + " sample books", k)
    case Aborted(_, m) => (false, m, 0)
  }

  // Framing: the copies stay inside `books`.

  lemma {:induction false} LoadShelvesFrame(fs0: FileSystem, fs: FileSystem, sample: Path, books: Path,
                                            dirs: seq<string>, order: set<string> -> seq<string>)
    requires Valid(fs) && Lister(order) && PlainPath(sample) && PlainPath(books)
    requires forall n :: n in dirs ==> PlainName(n)
    requires SameOutside(fs0, fs, books) && AncestorsIn(fs0, books)
    ensures SameOutside(fs0, LoadShelves(fs, sample, books, dirs, order).fs, books)
    ensures Valid(LoadShelves(fs, sample, books, dirs, order).fs)
  {
    if dirs != [] {
      var init := dirs[..|dirs| - 1];
      var n := dirs[|dirs| - 1];
      assert forall k :: k in init ==> k in dirs;
      LoadShelvesFrame(fs0, fs, sample, books, init, order);
      var r1 := LoadShelves(fs, sample, books, init, order);
      if r1.Done? {
        LoadShelfFrame(fs0, r1.fs, Join(sample, n), books, n, order);
      }
    }
  }

  lemma LoadShelfFrame(fs0: FileSystem, fs: FileSystem, src: Path, books: Path, n: string,
                       order: set<string> -> seq<string>)
    requires Valid(fs) && Lister(order) && PlainPath(src) && PlainPath(books) && PlainName(n)
    requires SameOutside(fs0, fs, books) && AncestorsIn(fs0, books)
    ensures SameOutside(fs0, LoadShelf(fs, src, Join(books, n), order).fs, books)
    ensures Valid(LoadShelf(fs, src, Join(books, n), order).fs)
  {
    var dst := Join(books, n);
    JoinName(books, n);
    if !Exists(fs, dst) && Mkdirs(fs, dst).Success? {
      MkdirsOutside(fs0, fs, dst, books);
      MkdirsValid(fs, dst);
    }
    if EnsureDir(fs, dst).Success? {
      var fs1 := EnsureDir(fs, dst).value;
      if ListDir(fs1, src, order).Success? {
        var names := JsonNames(ListDir(fs1, src, order).value);
        ListedPlain(fs1, src, order, IsJsonName);
        CopyBookFilesValid(fs1, src, dst, "", names);
        if CopyBookFiles(fs1, src, dst, "", names).Done? {
          CopyBookFilesFrame(fs0, fs1, src, dst, "", names, books);
        } else {
          CopyBookFilesAbortFrame(fs0, fs1, src, dst, names, books);
        }
      }
    }
  }

  /** An aborted copy also stays inside `root`. */
  lemma {:induction false} CopyBookFilesAbortFrame(fs0: FileSystem, fs: FileSystem, src: Path, dst: Path,
                                                   names: seq<string>, root: Path)
    requires PlainPath(src) && PlainPath(dst) && Under(dst, root)
    requires SameOutside(fs0, fs, root)
    requires forall n :: n in names ==> PlainName(n)
    ensures SameOutside(fs0, CopyBookFiles(fs, src, dst, "", names).fs, root)
  {
    if names != [] {
      var init := names[..|names| - 1];
      var n := names[|names| - 1];
      assert forall m :: m in init ==> m in names;
      CopyBookFilesAbortFrame(fs0, fs, src, dst, init, root);
      var fs1 := CopyBookFiles(fs, src, dst, "", init).fs;
      JoinName(dst, n);
      if CopyFile(fs1, Join(src, n), Join(dst, n)).Success? {
        CopyFileOutside(fs0, fs1, Join(src, n), Join(dst, n), root);
      }
    }
  }

  /** A successful load leaves the configuration it found, with its shelves
      replaced by the four sample shelves and everything else kept. */
  lemma LoadSampleShelves(fs: FileSystem, site: Path, order: set<string> -> seq<string>)
    requires Valid(fs) && Lister(order) && PlainPath(site)
    requires LoadSample(fs, site, order).Done?
    ensures ReadConfig(fs, ConfigPath(site)).Success?
    ensures ReadConfig(LoadSample(fs, site, order).fs, ConfigPath(site))
      == Success(ReadConfig(fs, ConfigPath(site)).value.(shelves := SampleShelves))
  {
    var sample := SampleDir(site);
    var books := BooksDir(site);
    var fs1 := EnsureDir(fs, books).value;
    var run := CopySample(fs, site, order);
    assert run.Done?;
    CopySampleFrame(fs, site, order);
    assert !Under(ConfigPath(site), books) by {
      assert ConfigPath(site)[|site|] != books[|site|];
    }
  }

  /** The copying stays inside `books` and keeps the tree well formed. */
  lemma CopySampleFrame(fs: FileSystem, site: Path, order: set<string> -> seq<string>)
    requires Valid(fs) && Lister(order) && PlainPath(site)
    ensures SameOutside(fs, CopySample(fs, site, order).fs, BooksDir(site))
    ensures Valid(CopySample(fs, site, order).fs)
  {
    var sample := SampleDir(site);
    var books := BooksDir(site);
    if Exists(fs, sample) {
      BooksAncestors(fs, site);
      if !Exists(fs, books) && Mkdirs(fs, books).Success? {
        MkdirsOutside(fs, fs, books, books);
        MkdirsValid(fs, books);
      }
      if EnsureDir(fs, books).Success? {
        var fs1 := EnsureDir(fs, books).value;
        if ListDir(fs1, sample, order).Success? {
          var names := ListDir(fs1, sample, order).value;
          var dirs := SubDirs(fs1, sample, names);
          forall n | n in dirs ensures PlainName(n) {
            EntriesPlain(fs1, sample, n);
          }
          LoadShelvesFrame(fs, fs1, sample, books, dirs, order);
        }
      }
    }
  }

  /** Once `books-sample` exists in a valid tree, the ancestors of `books`
      are directories. */
  lemma BooksAncestors(fs: FileSystem, site: Path)
    requires Valid(fs) && Exists(fs, SampleDir(site))
    ensures AncestorsIn(fs, BooksDir(site))
  {
    var sample := SampleDir(site);
    assert sample[..|sample| - 1] == site;
    assert site in fs.dirs;
    forall i | 0 <= i < |BooksDir(site)| ensures BooksDir(site)[..i] in fs.dirs {
      assert BooksDir(site)[..i] == site[..i];
    }
  }

  lemma LoadSampleValid(fs: FileSystem, site: Path, order: set<string> -> seq<string>)
    requires Valid(fs) && Lister(order) && PlainPath(site)
    ensures Valid(LoadSample(fs, site, order).fs)
  {
    CopySampleFrame(fs, site, order);
    var run := CopySample(fs, site, order);
    if run.Done? {
      var c := ReadConfig(run.fs, ConfigPath(site));
      if c.Success? && WriteFile(run.fs, ConfigPath(site), ConfigDoc(c.value.(shelves := SampleShelves))).Success? {
        WriteFileValid(run.fs, ConfigPath(site), ConfigDoc(c.value.(shelves := SampleShelves)));
      }
    }
  }
}
