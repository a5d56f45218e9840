/** The desktop engine as the object the IPC handlers share: the site
    folder's file system, which every handler reads and changes in place,
    and the preview server slot, which start and stop reassign. Each
    handler is a method whose effect is the run of the same name in
    `EngineHandlers`, `SiteBuild` or `LibraryStore`; the loops of the
    handlers are loops here, each proved to compute its left fold. */
module DesktopEngine {
  import opened Wrappers
  import opened Types
  import opened Files
  import opened LibraryStore
  import opened SiteBuild
  import opened Preview
  import opened EngineHandlers

  // ---------------------------------------------------------------------
  // Once a fold has failed, the items after it do not change the outcome.

  lemma {:induction false} AllBooksFails(fs: FileSystem, books: Path, shelves: seq<Shelf>,
                                         order: set<string> -> seq<string>, k: nat)
    requires PlainPath(books) && k <= |shelves| && AllBooks(fs, books, shelves[..k], order).Failure?
    ensures AllBooks(fs, books, shelves, order) == AllBooks(fs, books, shelves[..k], order)
    decreases |shelves|
  {
    if k < |shelves| {
      var init := shelves[..|shelves| - 1];
      assert init[..k] == shelves[..k];
      AllBooksFails(fs, books, init, order, k);
    } else {
      assert shelves[..k] == shelves;
    }
  }

  /** One more shelf: its records follow those of the shelves before it. */
  lemma AllBooksStep(fs: FileSystem, books: Path, shelves: seq<Shelf>, order: set<string> -> seq<string>, i: nat)
    requires PlainPath(books) && i < |shelves| && AllBooks(fs, books, shelves[..i], order).Success?
    ensures AllBooks(fs, books, shelves[..i + 1], order) ==
      match ShelfBooks(fs, books, shelves[i], order)
      case Success(here) => Success(AllBooks(fs, books, shelves[..i], order).value + here)
      case Failure(m) => Failure(m)
  {
    assert shelves[..i + 1][..i] == shelves[..i];
  }

  lemma {:induction false} CopyStaticsAborts(fs: FileSystem, site: Path, names: seq<string>, k: nat)
    requires k <= |names| && CopyStatics(fs, site, names[..k]).Aborted?
    ensures CopyStatics(fs, site, names) == CopyStatics(fs, site, names[..k])
    decreases |names|
  {
    if k < |names| {
      var init := names[..|names| - 1];
      assert init[..k] == names[..k];
      CopyStaticsAborts(fs, site, init, k);
    } else {
      assert names[..k] == names;
    }
  }

  lemma {:induction false} CopyBookFilesAborts(fs: FileSystem, src: Path, dst: Path, folder: string,
                                               names: seq<string>, k: nat)
    requires PlainPath(src) && PlainPath(dst)
    requires k <= |names| && CopyBookFiles(fs, src, dst, folder, names[..k]).Aborted?
    ensures CopyBookFiles(fs, src, dst, folder, names) == CopyBookFiles(fs, src, dst, folder, names[..k])
    decreases |names|
  {
    if k < |names| {
      var init := names[..|names| - 1];
      assert init[..k] == names[..k];
      CopyBookFilesAborts(fs, src, dst, folder, init, k);
    } else {
      assert names[..k] == names;
    }
  }

  /** One more file copied after a finished run over the first `k`. */
  lemma CopyBookFilesStep(fs: FileSystem, src: Path, dst: Path, folder: string, names: seq<string>, k: nat,
                          fsk: FileSystem, entries: seq<string>)
    requires PlainPath(src) && PlainPath(dst) && k < |names|
    requires CopyBookFiles(fs, src, dst, folder, names[..k]) == Done(fsk, entries)
    ensures CopyBookFiles(fs, src, dst, folder, names[..k + 1]) ==
      match CopyFile(fsk, Join(src, names[k]), Join(dst, names[k]))
      case Failure(m) => Aborted(fsk, m)
      case Success(fs2) => Done(fs2, entries + [folder + "/" + names[k]])
  {
    assert names[..k + 1][..k] == names[..k];
  }

  lemma {:induction false} CopyShelvesAborts(fs: FileSystem, source: Path, distBooks: Path, shelves: seq<Shelf>,
                                             order: set<string> -> seq<string>, k: nat)
    requires PlainPath(source) && PlainPath(distBooks)
    requires k <= |shelves| && CopyShelves(fs, source, distBooks, shelves[..k], order).Aborted?
    ensures CopyShelves(fs, source, distBooks, shelves, order) == CopyShelves(fs, source, distBooks, shelves[..k], order)
    decreases |shelves|
  {
    if k < |shelves| {
      var init := shelves[..|shelves| - 1];
      assert init[..k] == shelves[..k];
      CopyShelvesAborts(fs, source, distBooks, init, order, k);
    } else {
      assert shelves[..k] == shelves;
    }
  }

  lemma {:induction false} CopyCoverFilesAborts(fs: FileSystem, src: Path, dst: Path, names: seq<string>, k: nat)
    requires PlainPath(src) && PlainPath(dst)
    requires k <= |names| && CopyCoverFiles(fs, src, dst, names[..k]).Aborted?
    ensures CopyCoverFiles(fs, src, dst, names) == CopyCoverFiles(fs, src, dst, names[..k])
    decreases |names|
  {
    if k < |names| {
      var init := names[..|names| - 1];
      assert init[..k] == names[..k];
      CopyCoverFilesAborts(fs, src, dst, init, k);
    } else {
      assert names[..k] == names;
    }
  }

  lemma {:induction false} LoadShelvesAborts(fs: FileSystem, sample: Path, books: Path, dirs: seq<string>,
                                             order: set<string> -> seq<string>, k: nat)
    requires PlainPath(sample) && PlainPath(books)
    requires k <= |dirs| && LoadShelves(fs, sample, books, dirs[..k], order).Aborted?
    ensures LoadShelves(fs, sample, books, dirs, order) == LoadShelves(fs, sample, books, dirs[..k], order)
    decreases |dirs|
  {
    if k < |dirs| {
      var init := dirs[..|dirs| - 1];
      assert init[..k] == dirs[..k];
      LoadShelvesAborts(fs, sample, books, init, order, k);
    } else {
      assert dirs[..k] == dirs;
    }
  }

  /** One more sample folder for `LoadShelves`, as its definition reads. */
  lemma LoadShelvesNext(fs: FileSystem, sample: Path, books: Path, dirs: seq<string>,
                        order: set<string> -> seq<string>, i: nat, fs1: FileSystem, k: nat, loaded: Run<nat>)
    requires PlainPath(sample) && PlainPath(books) && i < |dirs|
    requires LoadShelves(fs, sample, books, dirs[..i], order) == Done(fs1, k)
    requires loaded == LoadShelf(fs1, Join(sample, dirs[i]), Join(books, dirs[i]), order)
    ensures LoadShelves(fs, sample, books, dirs[..i + 1], order) == AddCount(k, loaded)
  {
    assert dirs[..i + 1][..i] == dirs[..i];
  }

  /** The build is the preparation followed, when it finishes, by the
      assembly from the shelves it read. */
  lemma BuildStages(fs: FileSystem, site: Path, useSample: bool, order: set<string> -> seq<string>)
    requires PlainPath(site)
    ensures Build(fs, site, useSample, order) ==
      match Prepare(fs, site)
      case Aborted(fs1, m) => Aborted(fs1, m)
      case Done(fs1, config) => Assemble(fs1, SourceDir(site, useSample), DistBooks(site), config.shelves, order)
  {
  }

  // ---------------------------------------------------------------------

  class Engine {
    /** The site folder and everything under it. */
    var fs: FileSystem
    /** The running preview server's port, if any. */
    var server: Option<int>
    /** Where the site folder is. */
    const site: Path
    /** The order in which the operating system lists a directory. */
    const order: set<string> -> seq<string>

    ghost predicate Valid()
      reads this
    {
      && Files.Valid(fs)
      && PlainPath(site)
      && Lister(order)
      && (server.Some? ==> FirstPort <= server.value <= LastPort)
    }

    constructor (fs0: FileSystem, site0: Path, order0: set<string> -> seq<string>)
      requires Files.Valid(fs0) && PlainPath(site0) && Lister(order0)
      ensures Valid()
      ensures fs == fs0 && site == site0 && order == order0 && server == None
    {
      fs := fs0;
      server := None;
      site := site0;
      order := order0;
    }

    // -------------------------------------------------------------------
    // Configuration.

    /** `get-config`. */
    method GetConfig() returns (r: Result<Config, string>)
      requires Valid()
      ensures r == GetConfigRun(fs, site)
    {
      var configPath := ConfigPath(site);
      if !Exists(fs, configPath) {
        return Failure(ConfigNotFound);
      }
      r := ReadConfig(fs, configPath);
    }

    /** `save-config`. */
    method SaveConfig(config: Config) returns (r: Result<(), string>)
      requires Valid()
      modifies this
      ensures Valid() && server == old(server)
      ensures fs == SaveConfigRun(old(fs), site, config).fs
      ensures r == Outcome(SaveConfigRun(old(fs), site, config))
    {
      SaveConfigValid(fs, site, config);
      var written := WriteFile(fs, ConfigPath(site), ConfigDoc(config));
      if written.Failure? {
        return Failure(written.error);
      }
      fs := written.value;
      r := Success(());
    }

    /** `get-book`. */
    method GetBook(filePath: string) returns (r: Result<Book, string>)
      requires Valid()
      ensures r == GetBookRun(fs, filePath)
    {
      r := ReadBook(fs, Resolve(filePath));
    }

    // -------------------------------------------------------------------
    // Books.

    /** `get-books`: for each configured shelf whose folder exists, the
        parseable `.json` records in listing order. */
    method GetBooks() returns (r: Result<seq<BookWithMeta>, string>)
      requires Valid()
      ensures r == LibraryStore.GetBooks(fs, site, order)
    {
      var rc := ReadConfig(fs, ConfigPath(site));
      if rc.Failure? {
        return Failure(rc.error);
      }
      r := ReadShelves(BooksDir(site), rc.value.shelves);
    }

    /** The loop of `get-books` over the configured shelves, pushing each
        parseable record as it goes. */
    method ReadShelves(booksPath: Path, shelves: seq<Shelf>) returns (r: Result<seq<BookWithMeta>, string>)
      requires PlainPath(booksPath)
      ensures r == AllBooks(fs, booksPath, shelves, order)
    {
      var books: seq<BookWithMeta> := [];
      var i := 0;
      while i < |shelves|
        invariant 0 <= i <= |shelves|
        invariant AllBooks(fs, booksPath, shelves[..i], order) == Success(books)
      {
        var shelf := shelves[i];
        AllBooksStep(fs, booksPath, shelves, order, i);
        ghost var prev := books;
        var shelfPath := Join(booksPath, shelf.folder);
        if Exists(fs, shelfPath) {
          var listed := ListDir(fs, shelfPath, order);
          if listed.Failure? {
            AllBooksFails(fs, booksPath, shelves, order, i + 1);
            return Failure(listed.error);
          }
          var records := ReadShelfFiles(shelfPath, shelf, JsonNames(listed.value));
          assert ShelfBooks(fs, booksPath, shelf, order) == Success(records);
          books := books + records;
        } else {
          assert ShelfBooks(fs, booksPath, shelf, order) == Success([]);
          assert prev + [] == prev;
        }
        assert AllBooks(fs, booksPath, shelves[..i + 1], order) == Success(books);
        i := i + 1;
      }
      assert shelves[..i] == shelves;
      r := Success(books);
    }

    /** The inner loop of `get-books`: a record that does not parse is
        skipped. */
    method ReadShelfFiles(shelfPath: Path, shelf: Shelf, files: seq<string>) returns (records: seq<BookWithMeta>)
      requires PlainPath(shelfPath)
      ensures records == ShelfRecords(fs, shelfPath, shelf, files)
    {
      records := [];
      var j := 0;
      while j < |files|
        invariant 0 <= j <= |files|
        invariant records == ShelfRecords(fs, shelfPath, shelf, files[..j])
      {
        var fileName := files[j];
        assert files[..j + 1][..j] == files[..j];
        var filePath := Join(shelfPath, fileName);
        var read := ReadBook(fs, filePath);
        if read.Success? {
          records := records + [WithMeta(read.value, filePath, fileName, shelf)];
        }
        j := j + 1;
      }
      assert files[..j] == files;
    }

    /** `save-book`. */
    method SaveBook(shelfId: string, fileName: string, book: Book) returns (r: Result<string, string>)
      requires Valid()
      modifies this
      ensures Valid() && server == old(server)
      ensures fs == SaveBookRun(old(fs), site, shelfId, fileName, book).fs
      ensures r == Outcome(SaveBookRun(old(fs), site, shelfId, fileName, book))
    {
      SaveBookValid(fs, site, shelfId, fileName, book);
      var rc := ReadConfig(fs, ConfigPath(site));
      if rc.Failure? {
        return Failure(rc.error);
      }
      var shelf := FindShelf(rc.value.shelves, shelfId);
      if shelf.None? {
        return Failure(ShelfNotFound(shelfId));
      }
      var saved := SaveInto(Join(BooksDir(site), shelf.value.folder), fileName, book);
      r := Outcome(saved);
    }

    /** The writing part of `save-book`: the run `SaveIntoRun`. */
    method SaveInto(shelfPath: Path, fileName: string, book: Book) returns (r: Run<string>)
      requires PlainPath(shelfPath)
      modifies this
      ensures server == old(server)
      ensures r == SaveIntoRun(old(fs), shelfPath, fileName, book) && fs == r.fs
    {
      ghost var start := fs;
      if !Exists(fs, shelfPath) {
        var made := Mkdirs(fs, shelfPath);
        if made.Failure? {
          return Aborted(fs, made.error);
        }
        fs := made.value;
      }
      assert EnsureDir(start, shelfPath) == Success(fs);
      var filePath := Join(shelfPath, fileName);
      var written := WriteFile(fs, filePath, BookDoc(book));
      if written.Failure? {
        return Aborted(fs, written.error);
      }
      fs := written.value;
      r := Done(fs, Render(filePath));
    }

    /** `delete-book`: the path arrives as a string. */
    method DeleteBook(filePath: string) returns (r: Result<(), string>)
      requires Valid()
      modifies this
      ensures Valid() && server == old(server)
      ensures fs == DeleteBookRun(old(fs), filePath).fs
      ensures r == Outcome(DeleteBookRun(old(fs), filePath))
    {
      r := DeleteFile(Resolve(filePath));
    }

    /** `delete-cover`: the path is relative to the site folder. */
    method DeleteCover(coverPath: string) returns (r: Result<(), string>)
      requires Valid()
      modifies this
      ensures Valid() && server == old(server)
      ensures fs == DeleteCoverRun(old(fs), site, coverPath).fs
      ensures r == Outcome(DeleteCoverRun(old(fs), site, coverPath))
    {
      r := DeleteFile(Join(site, coverPath));
    }

    method DeleteFile(p: Path) returns (r: Result<(), string>)
      requires Valid()
      modifies this
      ensures Valid() && server == old(server)
      ensures fs == DeleteIfExists(old(fs), p).fs
      ensures r == Outcome(DeleteIfExists(old(fs), p))
    {
      if Exists(fs, p) {
        var gone := Unlink(fs, p);
        if gone.Failure? {
          return Failure(gone.error);
        }
        UnlinkValid(fs, p);
        fs := gone.value;
      }
      r := Success(());
    }

    /** `move-book`. */
    method MoveBook(filePath: string, targetShelfId: string) returns (r: Result<string, string>)
      requires Valid()
      modifies this
      ensures Valid() && server == old(server)
      ensures fs == MoveBookRun(old(fs), site, filePath, targetShelfId).fs
      ensures r == Outcome(MoveBookRun(old(fs), site, filePath, targetShelfId))
    {
      MoveBookValid(fs, site, filePath, targetShelfId);
      var rc := ReadConfig(fs, ConfigPath(site));
      if rc.Failure? {
        return Failure(rc.error);
      }
      var targetShelf := FindShelf(rc.value.shelves, targetShelfId);
      if targetShelf.None? {
        return Failure(TargetNotFound(targetShelfId));
      }
      var moved := MoveInto(Resolve(filePath), Join(BooksDir(site), targetShelf.value.folder));
      r := Outcome(moved);
    }

    /** The moving part of `move-book`: the run `MoveIntoRun`. */
    method MoveInto(src: Path, targetDir: Path) returns (r: Run<string>)
      requires PlainPath(targetDir)
      modifies this
      ensures server == old(server)
      ensures r == MoveIntoRun(old(fs), src, targetDir) && fs == r.fs
    {
      var targetPath := Join(targetDir, Basename(src));
      ghost var start := fs;
      if !Exists(fs, targetDir) {
        var made := Mkdirs(fs, targetDir);
        if made.Failure? {
          return Aborted(fs, made.error);
        }
        fs := made.value;
      }
      assert EnsureDir(start, targetDir) == Success(fs);
      var moved := Rename(fs, src, targetPath);
      if moved.Failure? {
        return Aborted(fs, moved.error);
      }
      fs := moved.value;
      r := Done(fs, Render(targetPath));
    }

    // -------------------------------------------------------------------
    // Shelves.

    /** `create-shelf`. */
    method CreateShelf(shelf: Shelf) returns (r: Result<(), string>)
      requires Valid()
      modifies this
      ensures Valid() && server == old(server)
      ensures fs == CreateShelfRun(old(fs), site, shelf).fs
      ensures r == Outcome(CreateShelfRun(old(fs), site, shelf))
    {
      var shelfPath := Join(BooksDir(site), shelf.folder);
      if !Exists(fs, shelfPath) {
        var made := Mkdirs(fs, shelfPath);
        if made.Failure? {
          return Failure(made.error);
        }
        MkdirsValid(fs, shelfPath);
        fs := made.value;
      }
      r := Success(());
    }

    /** `delete-shelf`. */
    method DeleteShelf(shelfId: string) returns (r: Result<(), string>)
      requires Valid()
      modifies this
      ensures Valid() && server == old(server)
      ensures fs == DeleteShelfRun(old(fs), site, shelfId, order).fs
      ensures r == Outcome(DeleteShelfRun(old(fs), site, shelfId, order))
    {
      var rc := ReadConfig(fs, ConfigPath(site));
      if rc.Failure? {
        return Failure(rc.error);
      }
      var shelf := FindShelf(rc.value.shelves, shelfId);
      if shelf.None? {
        return Failure(ShelfNotFound(shelfId));
      }
      var removed := RemoveShelfFolder(Join(BooksDir(site), shelf.value.folder), shelf.value.name);
      r := Outcome(removed);
    }

    /** The removing part of `delete-shelf`: the run `RemoveShelfDir`. */
    method RemoveShelfFolder(shelfPath: Path, name: string) returns (r: Run<()>)
      requires Valid()
      modifies this
      ensures Valid() && server == old(server)
      ensures r == RemoveShelfDir(old(fs), shelfPath, name, order) && fs == r.fs
    {
      if Exists(fs, shelfPath) {
        var listed := ListDir(fs, shelfPath, order);
        if listed.Failure? {
          return Aborted(fs, listed.error);
        }
        var files := JsonNames(listed.value);
        if |files| > 0 {
          return Aborted(fs, ShelfNotEmpty(name, |files|));
        }
        var removed := Rmdir(fs, shelfPath);
        if removed.Failure? {
          return Aborted(fs, removed.error);
        }
        RmdirValid(fs, shelfPath);
        fs := removed.value;
      }
      r := Done(fs, ());
    }

    /** `reorder-shelves`: the order lives in the configuration, which the
        renderer saves itself; the handler changes nothing. */
    method ReorderShelves(shelfIds: seq<string>)
      requires Valid()
      ensures Valid()
    {
    }

    // -------------------------------------------------------------------
    // Build.

    /** `dist` wiped and recreated, statics, page, configuration and
        `dist/books`: the run `Prepare`. */
    method PrepareBuild() returns (r: Run<Config>)
      requires PlainPath(site)
      modifies this
      ensures server == old(server)
      ensures r == Prepare(old(fs), site) && fs == r.fs
    {
      var configPath := ConfigPath(site);
      var distDir := DistDir(site);
      var rc := ReadConfig(fs, configPath);
      if rc.Failure? {
        return Aborted(fs, rc.error);
      }
      var config := rc.value;
      ghost var fs0 := fs;
      if Exists(fs, distDir) {
        fs := RemoveTree(fs, distDir);
      }
      var made := Mkdirs(fs, distDir);
      if made.Failure? {
        return Aborted(fs, made.error);
      }
      fs := made.value;
      assert Clean(fs0, distDir) == Done(fs, ());
      ghost var fs1 := fs;
      var statics := CopyStaticFiles(StaticFiles);
      if statics.Aborted? {
        return Aborted(fs, statics.msg);
      }
      ghost var fs2 := fs;
      var indexSrc := site + ["index.html"];
      if Exists(fs, indexSrc) {
        var read := ReadFile(fs, indexSrc);
        if read.Failure? {
          return Aborted(fs, read.error);
        }
        var content := read.value;
        var page := if content.PlainText? then PlainText(Template.ProcessTemplateAsWritten(content.text, config)) else content;
        var written := WriteFile(fs, distDir + ["index.html"], page);
        if written.Failure? {
          return Aborted(fs, written.error);
        }
        fs := written.value;
      }
      assert RenderPage(fs2, site, config) == Done(fs, ());
      ghost var fs3 := fs;
      var copied := CopyFile(fs, configPath, distDir + ["config.json"]);
      if copied.Failure? {
        return Aborted(fs, copied.error);
      }
      fs := copied.value;
      var distBooks := Mkdirs(fs, DistBooks(site));
      if distBooks.Failure? {
        return Aborted(fs, distBooks.error);
      }
      fs := distBooks.value;
      assert Finish(fs3, site) == Done(fs, ());
      assert Publish(fs1, site, config) == Done(fs, ());
      r := Done(fs, config);
    }

    /** The loop over the static files. */
    method CopyStaticFiles(names: seq<string>) returns (r: Run<()>)
      modifies this
      ensures server == old(server)
      ensures r == CopyStatics(old(fs), site, names) && fs == r.fs
    {
      ghost var fs0 := fs;
      var i := 0;
      while i < |names|
        invariant 0 <= i <= |names|
        invariant CopyStatics(fs0, site, names[..i]) == Done(fs, ())
        invariant server == old(server)
      {
        var file := names[i];
        assert names[..i + 1][..i] == names[..i];
        if Exists(fs, site + [file]) {
          var copied := CopyFile(fs, site + [file], DistDir(site) + [file]);
          if copied.Failure? {
            CopyStaticsAborts(fs0, site, names, i + 1);
            return Aborted(fs, copied.error);
          }
          fs := copied.value;
        }
        i := i + 1;
      }
      assert names[..i] == names;
      r := Done(fs, ());
    }

    /** The inner loop over one shelf's `.json` files. */
    method CopyShelfFiles(src: Path, dst: Path, folder: string, files: seq<string>) returns (r: Run<seq<string>>)
      requires PlainPath(src) && PlainPath(dst)
      modifies this
      ensures server == old(server)
      ensures r == CopyBookFiles(old(fs), src, dst, folder, files) && fs == r.fs
    {
      ghost var fs0 := fs;
      var bookFiles: seq<string> := [];
      var i := 0;
      while i < |files|
        invariant 0 <= i <= |files|
        invariant CopyBookFiles(fs0, src, dst, folder, files[..i]) == Done(fs, bookFiles)
        invariant server == old(server)
      {
        var file := files[i];
        CopyBookFilesStep(fs0, src, dst, folder, files, i, fs, bookFiles);
        var copied := CopyFile(fs, Join(src, file), Join(dst, file));
        if copied.Failure? {
          CopyBookFilesAborts(fs0, src, dst, folder, files, i + 1);
          return Aborted(fs, copied.error);
        }
        fs := copied.value;
        bookFiles := bookFiles + [folder + "/" + file];
        i := i + 1;
      }
      assert files[..i] == files;
      r := Done(fs, bookFiles);
    }

    /** The loop over the configured shelves; the value is the index. */
    method CopyAllShelves(sourceDir: Path, distBooksDir: Path, shelves: seq<Shelf>) returns (r: Run<seq<string>>)
      requires PlainPath(sourceDir) && PlainPath(distBooksDir)
      modifies this
      ensures server == old(server)
      ensures r == CopyShelves(old(fs), sourceDir, distBooksDir, shelves, order) && fs == r.fs
    {
      ghost var fs0 := fs;
      var bookFiles: seq<string> := [];
      var i := 0;
      while i < |shelves|
        invariant 0 <= i <= |shelves|
        invariant CopyShelves(fs0, sourceDir, distBooksDir, shelves[..i], order) == Done(fs, bookFiles)
        invariant server == old(server)
      {
        var shelf := shelves[i];
        assert shelves[..i + 1][..i] == shelves[..i];
        var here := CopyOneShelf(sourceDir, distBooksDir, shelf);
        if here.Aborted? {
          CopyShelvesAborts(fs0, sourceDir, distBooksDir, shelves, order, i + 1);
          return Aborted(fs, here.msg);
        }
        bookFiles := bookFiles + here.value;
        i := i + 1;
      }
      assert shelves[..i] == shelves;
      r := Done(fs, bookFiles);
    }

    /** One pass of the shelf loop. */
    method CopyOneShelf(sourceDir: Path, distBooksDir: Path, shelf: Shelf) returns (r: Run<seq<string>>)
      requires PlainPath(sourceDir) && PlainPath(distBooksDir)
      modifies this
      ensures server == old(server)
      ensures r == CopyShelf(old(fs), sourceDir, distBooksDir, shelf, order) && fs == r.fs
    {
      var shelfSourcePath := Join(sourceDir, shelf.folder);
      var shelfDistPath := Join(distBooksDir, shelf.folder);
      if !Exists(fs, shelfSourcePath) {
        return Done(fs, []);
      }
      var made := Mkdirs(fs, shelfDistPath);
      if made.Failure? {
        return Aborted(fs, made.error);
      }
      fs := made.value;
      var listed := ListDir(fs, shelfSourcePath, order);
      if listed.Failure? {
        return Aborted(fs, listed.error);
      }
      r := CopyShelfFiles(shelfSourcePath, shelfDistPath, shelf.folder, JsonNames(listed.value));
    }

    /** `books/index.json`, then the covers that are not hidden. */
    method WriteIndexAndCovers(sourceDir: Path, distBooksDir: Path, bookFiles: seq<string>) returns (r: Run<()>)
      requires PlainPath(sourceDir) && PlainPath(distBooksDir)
      modifies this
      ensures server == old(server)
      ensures r == Conclude(old(fs), sourceDir, distBooksDir, bookFiles, order) && fs == r.fs
    {
      var written := WriteFile(fs, distBooksDir + ["index.json"], IndexDoc(bookFiles));
      if written.Failure? {
        return Aborted(fs, written.error);
      }
      fs := written.value;
      var coversDir := sourceDir + ["covers"];
      if !Exists(fs, coversDir) {
        return Done(fs, ());
      }
      var destCoversDir := distBooksDir + ["covers"];
      var made := Mkdirs(fs, destCoversDir);
      if made.Failure? {
        return Aborted(fs, made.error);
      }
      fs := made.value;
      var listed := ListDir(fs, coversDir, order);
      if listed.Failure? {
        return Aborted(fs, listed.error);
      }
      r := CopyCoverList(coversDir, destCoversDir, Seqs.Filter(listed.value, Visible));
    }

    /** The loop over the cover files. */
    method CopyCoverList(src: Path, dst: Path, coverFiles: seq<string>) returns (r: Run<()>)
      requires PlainPath(src) && PlainPath(dst)
      modifies this
      ensures server == old(server)
      ensures r == CopyCoverFiles(old(fs), src, dst, coverFiles) && fs == r.fs
    {
      ghost var fs0 := fs;
      var i := 0;
      while i < |coverFiles|
        invariant 0 <= i <= |coverFiles|
        invariant CopyCoverFiles(fs0, src, dst, coverFiles[..i]) == Done(fs, ())
        invariant server == old(server)
      {
        var file := coverFiles[i];
        CopyCoverFilesNext(fs0, src, dst, coverFiles, i, fs);
        var copied := CopyFile(fs, Join(src, file), Join(dst, file));
        if copied.Failure? {
          CopyCoverFilesAborts(fs0, src, dst, coverFiles, i + 1);
          return Aborted(fs, copied.error);
        }
        fs := copied.value;
        i := i + 1;
      }
      assert coverFiles[..i] == coverFiles;
      r := Done(fs, ());
    }

    /** `build-site`: the whole build, answered as `{ success, message }`;
        whatever the earlier steps did stays done when a later one throws. */
    method BuildSite(useSampleData: bool) returns (success: bool, message: string)
      requires Valid()
      modifies this
      ensures Valid() && server == old(server)
      ensures fs == Build(old(fs), site, useSampleData, order).fs
      ensures (success, message) == BuildReport(Build(old(fs), site, useSampleData, order))
    {
      BuildValid(fs, site, useSampleData, order);
      var built := RunBuild(useSampleData);
      success, message := BuildReport(built).0, BuildReport(built).1;
    }

    /** The body of the handler's `try`: the run `Build`. */
    method RunBuild(useSampleData: bool) returns (r: Run<seq<string>>)
      requires PlainPath(site)
      modifies this
      ensures server == old(server)
      ensures r == Build(old(fs), site, useSampleData, order) && fs == r.fs
    {
      BuildStages(fs, site, useSampleData, order);
      var prepared := PrepareBuild();
      if prepared.Aborted? {
        return Aborted(fs, prepared.msg);
      }
      r := AssembleSite(SourceDir(site, useSampleData), DistBooks(site), prepared.value.shelves);
    }

    /** The shelves, `books/index.json` and the covers: the run `Assemble`. */
    method AssembleSite(sourceDir: Path, distBooksDir: Path, shelves: seq<Shelf>) returns (r: Run<seq<string>>)
      requires PlainPath(sourceDir) && PlainPath(distBooksDir)
      modifies this
      ensures server == old(server)
      ensures r == Assemble(old(fs), sourceDir, distBooksDir, shelves, order) && fs == r.fs
    {
      var index := CopyAllShelves(sourceDir, distBooksDir, shelves);
      if index.Aborted? {
        return index;
      }
      var rest := WriteIndexAndCovers(sourceDir, distBooksDir, index.value);
      if rest.Aborted? {
        return Aborted(fs, rest.msg);
      }
      r := Done(fs, index.value);
    }

    // -------------------------------------------------------------------
    // Preview server.

    /** `start-preview-server`: the old server is closed first, then `dist`
        is checked and the port search runs. */
    method StartPreview(bind: int -> Bind) returns (r: Result<(int, string), string>)
      requires Valid()
      modifies this
      ensures Valid() && fs == old(fs)
      ensures r == StartResult(fs, site, bind)
      ensures server == (if r.Success? then Some(r.value.0) else None)
    {
      server := None;
      if !Exists(fs, DistDir(site)) {
        return Failure(DistMissing);
      }
      var found := PortSearch(bind, FirstPort);
      if found.Failure? {
        return Failure(found.error);
      }
      server := Some(found.value);
      r := Success((found.value, PreviewUrl(found.value)));
    }

    /** `stop-preview-server`. */
    method StopPreview()
      requires Valid()
      modifies this
      ensures Valid() && fs == old(fs) && server == None
    {
      server := None;
    }

    // -------------------------------------------------------------------
    // Sample data.

    /** `check-existing-books`: the `.json` files in every sub-folder of
        `books` other than `covers`. */
    method CheckExistingBooks() returns (r: Result<nat, string>)
      requires Valid()
      ensures r == ExistingBooks(fs, site, order)
    {
      var booksPath := BooksDir(site);
      if !Exists(fs, booksPath) {
        return Success(0);
      }
      var listed := ListDir(fs, booksPath, order);
      if listed.Failure? {
        return Failure(listed.error);
      }
      var count := CountShelfFiles(booksPath, listed.value);
      r := Success(count);
    }

    /** The loop of `check-existing-books` over the typed listing of `books`. */
    method CountShelfFiles(booksPath: Path, entries: seq<string>) returns (count: nat)
      ensures count == SubfolderJsonCount(fs, booksPath, entries, NotCovers, order)
    {
      count := 0;
      var i := 0;
      while i < |entries|
        invariant 0 <= i <= |entries|
        invariant count == SubfolderJsonCount(fs, booksPath, entries[..i], NotCovers, order)
      {
        var name := entries[i];
        assert entries[..i + 1][..i] == entries[..i];
        if booksPath + [name] in fs.dirs && name != "covers" {
          var files := JsonNames(order(Entries(fs, booksPath + [name])));
          count := count + |files|;
        }
        i := i + 1;
      }
      assert entries[..i] == entries;
    }

    /** `load-sample-data`, answered as `{ success, message, booksLoaded }`. */
    method LoadSampleData() returns (success: bool, message: string, booksLoaded: nat)
      requires Valid()
      modifies this
      ensures Valid() && server == old(server)
      ensures fs == LoadSample(old(fs), site, order).fs
      ensures (success, message, booksLoaded) == SampleReport(LoadSample(old(fs), site, order))
    {
      LoadSampleValid(fs, site, order);
      booksLoaded := 0;
      var copied := CopySampleShelves();
      if copied.Aborted? {
        return false, copied.msg, booksLoaded;
      }
      var used := UseSample(copied.value);
      var report := SampleReport(used);
      success, message, booksLoaded := report.0, report.1, report.2;
    }

    /** The configuration part of the loader: the run `UseSampleShelves`. */
    method UseSample(loaded: nat) returns (r: Run<nat>)
      modifies this
      ensures server == old(server)
      ensures r == UseSampleShelves(old(fs), site, loaded) && fs == r.fs
    {
      var configPath := ConfigPath(site);
      var rc := ReadConfig(fs, configPath);
      if rc.Failure? {
        return Aborted(fs, rc.error);
      }
      match WriteFile(fs, configPath, ConfigDoc(rc.value.(shelves := SampleShelves))) {
        case Failure(e) =>
          r := Aborted(fs, e);
        case Success(written) =>
          fs := written;
          r := Done(fs, loaded);
      }
    }

    /** The copying part of the loader: the run `CopySample`. */
    method CopySampleShelves() returns (r: Run<nat>)
      requires PlainPath(site)
      modifies this
      ensures server == old(server)
      ensures r == CopySample(old(fs), site, order) && fs == r.fs
    {
      var booksPath := BooksDir(site);
      var samplePath := SampleDir(site);
      if !Exists(fs, samplePath) {
        return Aborted(fs, SampleMissing);
      }
      ghost var start := fs;
      if !Exists(fs, booksPath) {
        var made := Mkdirs(fs, booksPath);
        if made.Failure? {
          return Aborted(fs, made.error);
        }
        fs := made.value;
      }
      assert EnsureDir(start, booksPath) == Success(fs);
      var listed := ListDir(fs, samplePath, order);
      if listed.Failure? {
        return Aborted(fs, listed.error);
      }
      var shelfDirs := SubDirs(fs, samplePath, listed.value);
      assert CopySample(start, site, order) == LoadShelves(fs, samplePath, booksPath, shelfDirs, order);
      r := LoadAllShelves(samplePath, booksPath, shelfDirs);
    }

    /** The loop over the sample folders, counting the copied files. */
    method LoadAllShelves(samplePath: Path, booksPath: Path, shelfDirs: seq<string>) returns (r: Run<nat>)
      requires PlainPath(samplePath) && PlainPath(booksPath)
      modifies this
      ensures server == old(server)
      ensures r == LoadShelves(old(fs), samplePath, booksPath, shelfDirs, order) && fs == r.fs
    {
      ghost var fs0 := fs;
      var booksLoaded: nat := 0;
      var i := 0;
      while i < |shelfDirs|
        invariant 0 <= i <= |shelfDirs|
        invariant LoadShelves(fs0, samplePath, booksPath, shelfDirs[..i], order) == Done(fs, booksLoaded)
        invariant server == old(server)
      {
        var name := shelfDirs[i];
        ghost var before := fs;
        var loaded := LoadOneShelf(Join(samplePath, name), Join(booksPath, name));
        LoadShelvesNext(fs0, samplePath, booksPath, shelfDirs, order, i, before, booksLoaded, loaded);
        if loaded.Aborted? {
          LoadShelvesAborts(fs0, samplePath, booksPath, shelfDirs, order, i + 1);
          return Aborted(fs, loaded.msg);
        }
        booksLoaded := booksLoaded + loaded.value;
        i := i + 1;
      }
      assert shelfDirs[..i] == shelfDirs;
      r := Done(fs, booksLoaded);
    }

    /** One sample shelf: the target folder, then its `.json` files. */
    method LoadOneShelf(src: Path, dst: Path) returns (r: Run<nat>)
      requires PlainPath(src) && PlainPath(dst)
      modifies this
      ensures server == old(server)
      ensures r == LoadShelf(old(fs), src, dst, order) && fs == r.fs
    {
      if !Exists(fs, dst) {
        var made := Mkdirs(fs, dst);
        if made.Failure? {
          return Aborted(fs, made.error);
        }
        fs := made.value;
      }
      var listed := ListDir(fs, src, order);
      if listed.Failure? {
        return Aborted(fs, listed.error);
      }
      var files := CopyShelfFiles(src, dst, "", JsonNames(listed.value));
      if files.Aborted? {
        return Aborted(fs, files.msg);
      }
      r := Done(fs, |files.value|);
    }
  }
}
