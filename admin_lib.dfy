/** The admin renderer's library of book and shelf operations. Each
    asynchronous operation reaches the desktop engine through its IPC
    bridge, so here it is a method on the engine object: it calls the
    engine's handlers in the order the source awaits them, and a handler
    that throws ends the operation with that message. What an operation does
    to the site folder is stated by a run over the file-system model, built
    from the handlers' own runs; the pure helpers are functions. */
module AdminLib {
  import opened Wrappers
  import opened Text
  import opened Types
  import opened Seqs
  import opened Files
  import opened LibraryStore
  import opened SiteBuild
  import opened EngineHandlers
  import opened DesktopEngine
  import ConfigLib

  // ---------------------------------------------------------------------
  // Books.

  const BookMissing := "Book not found"

  /** `existingFileName || `${toKebabCase(title)}.json``: a given name is
      kept, an absent or empty one is replaced by the title's slug file. */
  function FileNameFor(title: string, existingFileName: string): (r: string)
    ensures existingFileName != "" ==> r == existingFileName
    ensures existingFileName == "" ==> IsJsonName(r) && PlainName(r) && r[..|r| - 5] == ConfigLib.ToKebabCase(title)
  {
    if existingFileName != "" then existingFileName else ConfigLib.BookFileName(title)
  }

  /** `saveBook`. */
  method SaveBook(e: Engine, shelfId: string, title: string, book: Book, existingFileName: string)
    returns (r: Result<string, string>)
    requires e.Valid()
    modifies e
    ensures e.Valid() && e.server == old(e.server)
    ensures e.fs == SaveBookRun(old(e.fs), e.site, shelfId, FileNameFor(title, existingFileName), book).fs
    ensures r == Outcome(SaveBookRun(old(e.fs), e.site, shelfId, FileNameFor(title, existingFileName), book))
  {
    var fileName := if existingFileName != "" then existingFileName else ConfigLib.ToKebabCase(title) + ".json";
    r := e.SaveBook(shelfId, fileName, book);
  }

  /** `createBook`: the file is always named after the title. */
  method CreateBook(e: Engine, shelfId: string, book: Book) returns (r: Result<string, string>)
    requires e.Valid()
    modifies e
    ensures e.Valid() && e.server == old(e.server)
    ensures e.fs == SaveBookRun(old(e.fs), e.site, shelfId, ConfigLib.BookFileName(book.title), book).fs
    ensures r == Outcome(SaveBookRun(old(e.fs), e.site, shelfId, ConfigLib.BookFileName(book.title), book))
  {
    var fileName := ConfigLib.ToKebabCase(book.title) + ".json";
    r := e.SaveBook(shelfId, fileName, book);
  }

  /** `newPath.split('/').pop()`: the text after the last slash. */
  function LastSegment(s: string): string {
    var parts := Split(s, '/');
    parts[|parts| - 1]
  }

  /** The last segment of a rendered path is its base name. */
  lemma LastSegmentRender(p: Path)
    requires PlainPath(p) && p != []
    ensures LastSegment(Render(p)) == Basename(p)
  {
    SplitRender(p);
  }

  /** A save under a plain name answers with a path whose last segment is
      that name, and which reads the saved record back. */
  lemma SavedUnderName(fs: FileSystem, site: Path, shelfId: string, fileName: string, book: Book)
    requires PlainPath(site) && PlainName(fileName)
    requires SaveBookRun(fs, site, shelfId, fileName, book).Done?
    ensures var r := SaveBookRun(fs, site, shelfId, fileName, book);
      LastSegment(r.value) == fileName && GetBookRun(r.fs, r.value) == Success(book)
  {
    var config := ReadConfig(fs, ConfigPath(site)).value;
    var shelf := FindShelf(config.shelves, shelfId).value;
    var dir := Join(BooksDir(site), shelf.folder);
    SaveBookOutcome(fs, site, shelfId, fileName, book);
    JoinName(dir, fileName);
    LastSegmentRender(dir + [fileName]);
    SaveThenGetBook(fs, site, shelfId, fileName, book);
  }

  /** A created book is stored under its title's slug and reads back. */
  lemma CreatedBookNamed(fs: FileSystem, site: Path, shelfId: string, book: Book)
    requires PlainPath(site)
    requires SaveBookRun(fs, site, shelfId, ConfigLib.BookFileName(book.title), book).Done?
    ensures var r := SaveBookRun(fs, site, shelfId, ConfigLib.BookFileName(book.title), book);
      && LastSegment(r.value) == ConfigLib.BookFileName(book.title)
      && GetBookRun(r.fs, r.value) == Success(book)
  {
    SavedUnderName(fs, site, shelfId, ConfigLib.BookFileName(book.title), book);
  }

  /** `updateBook` once the current record is found: a move to another
      shelf first, then a save under the moved file's name; otherwise a save
      in place under the record's own shelf and file name. */
  function UpdateFound(fs: FileSystem, site: Path, current: BookWithMeta, filePath: string, book: Book,
                       targetShelfId: string): Run<string>
    requires PlainPath(site)
  {
    if targetShelfId != "" && targetShelfId != current.shelfId then MoveThenSave(fs, site, filePath, book, targetShelfId)
    else SaveBookRun(fs, site, current.shelfId, current.fileName, book)
  }

  /** The move branch of `updateBook`: the file goes to the target shelf,
      then the record is saved there under the name the moved path ends in. */
  function MoveThenSave(fs: FileSystem, site: Path, filePath: string, book: Book, targetShelfId: string): Run<string>
    requires PlainPath(site)
  {
    match MoveBookRun(fs, site, filePath, targetShelfId)
    case Aborted(fs1, m) => Aborted(fs1, m)
    case Done(fs1, newPath) => SaveBookRun(fs1, site, targetShelfId, FileNameFor(book.title, LastSegment(newPath)), book)
  }

  /** `updateBook`: the record is looked up among all listed books by its
      path; an unlisted path throws. */
  function UpdateBookRun(fs: FileSystem, site: Path, order: set<string> -> seq<string>, filePath: string,
                         book: Book, targetShelfId: string): Run<string>
    requires PlainPath(site)
  {
    match LibraryStore.GetBooks(fs, site, order)
    case Failure(m) => Aborted(fs, m)
    case Success(books) =>
      var i := PathIndex(books, filePath);
      if i < 0 then Aborted(fs, BookMissing)
      else UpdateFound(fs, site, books[i], filePath, book, targetShelfId)
  }

  method UpdateBook(e: Engine, filePath: string, book: Book, targetShelfId: string) returns (r: Result<string, string>)
    requires e.Valid()
    modifies e
    ensures e.Valid() && e.server == old(e.server)
    ensures e.fs == UpdateBookRun(old(e.fs), e.site, e.order, filePath, book, targetShelfId).fs
    ensures r == Outcome(UpdateBookRun(old(e.fs), e.site, e.order, filePath, book, targetShelfId))
  {
    var currentBooks := e.GetBooks();
    if currentBooks.Failure? {
      return Failure(currentBooks.error);
    }
    var i := PathIndex(currentBooks.value, filePath);
    if i < 0 {
      return Failure(BookMissing);
    }
    r := UpdateCurrent(e, currentBooks.value[i], filePath, book, targetShelfId);
  }

  method UpdateCurrent(e: Engine, currentBook: BookWithMeta, filePath: string, book: Book, targetShelfId: string)
    returns (r: Result<string, string>)
    requires e.Valid()
    modifies e
    ensures e.Valid() && e.server == old(e.server)
    ensures e.fs == UpdateFound(old(e.fs), e.site, currentBook, filePath, book, targetShelfId).fs
    ensures r == Outcome(UpdateFound(old(e.fs), e.site, currentBook, filePath, book, targetShelfId))
  {
    if targetShelfId != "" && targetShelfId != currentBook.shelfId {
      r := MoveAndSave(e, filePath, book, targetShelfId);
    } else {
      r := e.SaveBook(currentBook.shelfId, currentBook.fileName, book);
    }
  }

  method MoveAndSave(e: Engine, filePath: string, book: Book, targetShelfId: string) returns (r: Result<string, string>)
    requires e.Valid()
    modifies e
    ensures e.Valid() && e.server == old(e.server)
    ensures e.fs == MoveThenSave(old(e.fs), e.site, filePath, book, targetShelfId).fs
    ensures r == Outcome(MoveThenSave(old(e.fs), e.site, filePath, book, targetShelfId))
  {
    ghost var moved := MoveBookRun(e.fs, e.site, filePath, targetShelfId);
    var newPath := e.MoveBook(filePath, targetShelfId);
    if newPath.Failure? {
      return Failure(newPath.error);
    }
    assert moved == Done(e.fs, newPath.value);
    var fileName := FileNameFor(book.title, LastSegment(newPath.value));
    r := e.SaveBook(targetShelfId, fileName, book);
  }

  /** A path that `get-books` does not list is refused and nothing changes. */
  lemma UpdateBookUnlisted(fs: FileSystem, site: Path, order: set<string> -> seq<string>, filePath: string,
                           book: Book, targetShelfId: string)
    requires PlainPath(site) && LibraryStore.GetBooks(fs, site, order).Success?
    requires forall j :: 0 <= j < |LibraryStore.GetBooks(fs, site, order).value| ==>
               LibraryStore.GetBooks(fs, site, order).value[j].filePath != filePath
    ensures UpdateBookRun(fs, site, order, filePath, book, targetShelfId) == Aborted(fs, BookMissing)
  {
  }

  /** Without a target, or with the record's own shelf as the target, the
      record is saved where it is, under its own file name. */
  lemma UpdateBookInPlace(fs: FileSystem, site: Path, order: set<string> -> seq<string>, filePath: string,
                          book: Book, targetShelfId: string)
    requires PlainPath(site) && LibraryStore.GetBooks(fs, site, order).Success?
    requires PathIndex(LibraryStore.GetBooks(fs, site, order).value, filePath) >= 0
    requires var current := LibraryStore.GetBooks(fs, site, order).value[PathIndex(LibraryStore.GetBooks(fs, site, order).value, filePath)];
      targetShelfId == "" || targetShelfId == current.shelfId
    ensures var current := LibraryStore.GetBooks(fs, site, order).value[PathIndex(LibraryStore.GetBooks(fs, site, order).value, filePath)];
      UpdateBookRun(fs, site, order, filePath, book, targetShelfId)
        == SaveBookRun(fs, site, current.shelfId, current.fileName, book)
  {
  }

  /** The path a move answers with ends in the moved file's base name,
      which is never empty. */
  lemma MovedPathName(fs: FileSystem, site: Path, filePath: string, targetShelfId: string)
    requires Valid(fs) && PlainPath(site)
    requires MoveBookRun(fs, site, filePath, targetShelfId).Done?
    ensures LastSegment(MoveBookRun(fs, site, filePath, targetShelfId).value) == Basename(Resolve(filePath))
    ensures Basename(Resolve(filePath)) != ""
  {
    var config := ReadConfig(fs, ConfigPath(site)).value;
    var shelf := FindShelf(config.shelves, targetShelfId).value;
    var src := Resolve(filePath);
    MoveBookOutcome(fs, site, filePath, targetShelfId);
    RenderedName(fs, Join(BooksDir(site), shelf.folder), src);
  }

  /** A stored file moved into `dir` under its base name answers with a
      path whose last segment is that non-empty name. */
  lemma RenderedName(fs: FileSystem, dir: Path, src: Path)
    requires Valid(fs) && PlainPath(dir) && src in fs.files
    ensures LastSegment(Render(dir + [Basename(src)])) == Basename(src) != ""
  {
    var n := src[|src| - 1];
    assert PlainName(n);
    assert PlainPath(dir + [n]);
    LastSegmentRender(dir + [n]);
  }

  /** A move to another shelf keeps the file's name: after the move the
      record is saved, on the target shelf, under the base name it had. */
  lemma UpdateBookMoveKeepsName(fs: FileSystem, site: Path, current: BookWithMeta, filePath: string, book: Book,
                                targetShelfId: string)
    requires Valid(fs) && PlainPath(site)
    requires targetShelfId != "" && targetShelfId != current.shelfId
    requires MoveBookRun(fs, site, filePath, targetShelfId).Done?
    ensures UpdateFound(fs, site, current, filePath, book, targetShelfId)
      == SaveBookRun(MoveBookRun(fs, site, filePath, targetShelfId).fs, site, targetShelfId,
                     Basename(Resolve(filePath)), book)
  {
    MovedPathName(fs, site, filePath, targetShelfId);
  }

  /** `getBooksByShelf`: exactly the records on that shelf, in order. */
  function BooksOnShelf(books: seq<BookWithMeta>, shelfId: string): (r: seq<BookWithMeta>)
    ensures forall b :: b in r ==> b.shelfId == shelfId
    ensures forall b: BookWithMeta :: b.shelfId == shelfId ==> multiset(r)[b] == multiset(books)[b]
    ensures IsSubsequence(r, books)
  {
    Filter(books, (b: BookWithMeta) => b.shelfId == shelfId)
  }

  /** `searchBooks`' test: the lower-cased query occurs in the lower-cased
      title, author or category. */
  predicate Matches(b: BookWithMeta, lowerQuery: string) {
    || Contains(Lower(b.book.title), lowerQuery)
    || Contains(Lower(b.book.author), lowerQuery)
    || Contains(Lower(b.book.category), lowerQuery)
  }

  /** `searchBooks`. */
  function SearchBooks(books: seq<BookWithMeta>, query: string): (r: seq<BookWithMeta>)
    ensures forall b :: b in r ==> Matches(b, Lower(query))
    ensures forall b: BookWithMeta :: Matches(b, Lower(query)) ==> multiset(r)[b] == multiset(books)[b]
    ensures IsSubsequence(r, books)
  {
    var lowerQuery := Lower(query);
    Filter(books, (b: BookWithMeta) => Matches(b, lowerQuery))
  }

  /** The empty query finds every book. */
  lemma SearchEmptyQuery(books: seq<BookWithMeta>)
    ensures SearchBooks(books, "") == books
  {
    forall b | b in books ensures Matches(b, Lower("")) {
      assert OccursAt(Lower(b.book.title), "", 0);
    }
    FilterAll(books, (b: BookWithMeta) => Matches(b, Lower("")));
  }

  /** The search ignores the case of the query. */
  lemma SearchIgnoresCase(books: seq<BookWithMeta>, query: string)
    ensures SearchBooks(books, Lower(query)) == SearchBooks(books, query)
  {
    LowerNoUpper(query);
    LowerNoUpper(Lower(query));
  }

  /** The category choices the book form offers. */
  const Categories: seq<string> := ["Programming", "Self-Improvement", "Business", "Science", "Biography", "Fiction", "Other"]

  // ---------------------------------------------------------------------
  // Shelves.

  function ShelfTaken(id: string): string {
    "Shelf with id \"" + id + "\" already exists"
  }

  function SourceNotFound(id: string): string {
    "Source shelf with id \"" + id + "\" not found"
  }

  /** `getShelves`. */
  method GetShelves(e: Engine) returns (r: Result<seq<Shelf>, string>)
    requires e.Valid()
    ensures GetConfigRun(e.fs, e.site).Failure? ==> r == Failure(GetConfigRun(e.fs, e.site).error)
    ensures GetConfigRun(e.fs, e.site).Success? ==> r == Success(GetConfigRun(e.fs, e.site).value.shelves)
  {
    var config := e.GetConfig();
    if config.Failure? {
      return Failure(config.error);
    }
    r := Success(config.value.shelves);
  }

  /** The shelf `createShelf` adds: `folder || shelfIdToFolder(id)`. */
  function NewShelf(id: string, name: string, folder: string): (s: Shelf)
    ensures s.id == id && s.name == name
    ensures folder != "" ==> s.folder == folder
    ensures folder == "" ==> s.folder == ConfigLib.ShelfIdToFolder(id)
  {
    Shelf(id, name, if folder != "" then folder else ConfigLib.ShelfIdToFolder(id))
  }

  /** `createShelf`: refuse a taken id, save the configuration with the new
      shelf at the end, then have the engine make its folder. */
  function CreateShelfFlow(fs: FileSystem, site: Path, id: string, name: string, folder: string): Run<()>
    requires PlainPath(site)
  {
    match GetConfigRun(fs, site)
    case Failure(m) => Aborted(fs, m)
    case Success(config) =>
      if HasShelf(config.shelves, id) then Aborted(fs, ShelfTaken(id))
      else SaveThenCreate(fs, site, config, NewShelf(id, name, folder))
  }

  function SaveThenCreate(fs: FileSystem, site: Path, config: Config, shelf: Shelf): Run<()>
    requires PlainPath(site)
  {
    match SaveConfigRun(fs, site, config.(shelves := config.shelves + [shelf]))
    case Aborted(fs1, m) => Aborted(fs1, m)
    case Done(fs1, _) => CreateShelfRun(fs1, site, shelf)
  }

  method CreateShelf(e: Engine, id: string, name: string, folder: string) returns (r: Result<(), string>)
    requires e.Valid()
    modifies e
    ensures e.Valid() && e.server == old(e.server)
    ensures e.fs == CreateShelfFlow(old(e.fs), e.site, id, name, folder).fs
    ensures r == Outcome(CreateShelfFlow(old(e.fs), e.site, id, name, folder))
  {
    var config := e.GetConfig();
    if config.Failure? {
      return Failure(config.error);
    }
    if exists k :: 0 <= k < |config.value.shelves| && config.value.shelves[k].id == id {
      return Failure(ShelfTaken(id));
    }
    var newShelf := NewShelf(id, name, folder);
    r := SaveAndCreate(e, config.value, newShelf);
  }

  method SaveAndCreate(e: Engine, config: Config, shelf: Shelf) returns (r: Result<(), string>)
    requires e.Valid()
    modifies e
    ensures e.Valid() && e.server == old(e.server)
    ensures e.fs == SaveThenCreate(old(e.fs), e.site, config, shelf).fs
    ensures r == Outcome(SaveThenCreate(old(e.fs), e.site, config, shelf))
  {
    ghost var saved := SaveConfigRun(e.fs, e.site, config.(shelves := config.shelves + [shelf]));
    var s := e.SaveConfig(config.(shelves := config.shelves + [shelf]));
    if s.Failure? {
      return Failure(s.error);
    }
    assert saved == Done(e.fs, ());
    r := e.CreateShelf(shelf);
  }

  /** A taken id is refused before anything is written. */
  lemma CreateShelfTaken(fs: FileSystem, site: Path, id: string, name: string, folder: string)
    requires PlainPath(site) && GetConfigRun(fs, site).Success?
    requires HasShelf(GetConfigRun(fs, site).value.shelves, id)
    ensures CreateShelfFlow(fs, site, id, name, folder) == Aborted(fs, ShelfTaken(id))
  {
  }

  /** Once the id is free and the configuration is saved, the saved
      configuration lists the new shelf last, whether or not its folder
      could then be made; when the operation finishes the folder exists,
      the ids stay unique and no other file changed. */
  lemma CreateShelfAdds(fs: FileSystem, site: Path, id: string, name: string, folder: string)
    requires PlainPath(site) && GetConfigRun(fs, site).Success?
    requires !HasShelf(GetConfigRun(fs, site).value.shelves, id)
    requires site in fs.dirs && ConfigPath(site) !in fs.dirs
    ensures var config := GetConfigRun(fs, site).value;
      var after := config.(shelves := config.shelves + [NewShelf(id, name, folder)]);
      var r := CreateShelfFlow(fs, site, id, name, folder);
      && r.fs.files == fs.files[ConfigPath(site) := ConfigDoc(after)]
      && GetConfigRun(r.fs, site) == Success(after)
      && (r.Done? ==> Exists(r.fs, Join(BooksDir(site), NewShelf(id, name, folder).folder)))
      && (UniqueIds(config.shelves) ==> UniqueIds(after.shelves))
  {
    var config := GetConfigRun(fs, site).value;
    var shelf := NewShelf(id, name, folder);
    var after := config.(shelves := config.shelves + [shelf]);
    SaveConfigOutcome(fs, site, after);
    var fs1 := SaveConfigRun(fs, site, after).fs;
    CreateShelfOutcome(fs1, site, shelf);
    assert ConfigPath(site) in fs1.files;
    AppendFreshId(config.shelves, shelf);
  }

  /** Adding a shelf with a free id keeps the ids unique. */
  lemma AppendFreshId(shelves: seq<Shelf>, shelf: Shelf)
    requires !HasShelf(shelves, shelf.id)
    ensures UniqueIds(shelves) ==> UniqueIds(shelves + [shelf])
  {
    var r := shelves + [shelf];
    if UniqueIds(shelves) {
      forall i, j | 0 <= i < j < |r| ensures r[i].id != r[j].id {
        assert r[i] == shelves[i];
        if j < |shelves| {
          assert r[j] == shelves[j];
        }
      }
    }
  }

  /** The fields `updateShelf` may change; `None` leaves a field out. */
  datatype ShelfUpdates = ShelfUpdates(name: Option<string>, folder: Option<string>)

  /** `{ ...shelf, ...updates }`: the id is never among the updates. */
  function Merged(s: Shelf, u: ShelfUpdates): (r: Shelf)
    ensures r.id == s.id
    ensures u.name.None? ==> r.name == s.name
    ensures u.folder.None? ==> r.folder == s.folder
    ensures u.name.Some? ==> r.name == u.name.value
    ensures u.folder.Some? ==> r.folder == u.folder.value
  {
    Shelf(s.id, u.name.GetOr(s.name), u.folder.GetOr(s.folder))
  }

  /** `updateShelf`: the first shelf with the id is merged with the updates
      and the configuration saved; no folder is touched. */
  function UpdateShelfFlow(fs: FileSystem, site: Path, shelfId: string, u: ShelfUpdates): Run<()>
    requires PlainPath(site)
  {
    match GetConfigRun(fs, site)
    case Failure(m) => Aborted(fs, m)
    case Success(config) =>
      var i := ShelfIndex(config.shelves, shelfId);
      if i < 0 then Aborted(fs, ShelfNotFound(shelfId))
      else SaveConfigRun(fs, site, config.(shelves := config.shelves[i := Merged(config.shelves[i], u)]))
  }

  method UpdateShelf(e: Engine, shelfId: string, u: ShelfUpdates) returns (r: Result<(), string>)
    requires e.Valid()
    modifies e
    ensures e.Valid() && e.server == old(e.server)
    ensures e.fs == UpdateShelfFlow(old(e.fs), e.site, shelfId, u).fs
    ensures r == Outcome(UpdateShelfFlow(old(e.fs), e.site, shelfId, u))
  {
    var config := e.GetConfig();
    if config.Failure? {
      return Failure(config.error);
    }
    var shelfIndex := ShelfIndex(config.value.shelves, shelfId);
    if shelfIndex == -1 {
      return Failure(ShelfNotFound(shelfId));
    }
    var shelves := config.value.shelves[shelfIndex := Merged(config.value.shelves[shelfIndex], u)];
    r := e.SaveConfig(config.value.(shelves := shelves));
  }

  /** An unknown id is refused with nothing written; otherwise the saved
      configuration keeps every shelf's id and position, changes only the
      first shelf with that id, and no folder is created or removed. */
  lemma UpdateShelfOutcome(fs: FileSystem, site: Path, shelfId: string, u: ShelfUpdates)
    requires PlainPath(site) && GetConfigRun(fs, site).Success?
    ensures var shelves := GetConfigRun(fs, site).value.shelves;
      var r := UpdateShelfFlow(fs, site, shelfId, u);
      && (!HasShelf(shelves, shelfId) ==> r == Aborted(fs, ShelfNotFound(shelfId)))
      && r.fs.dirs == fs.dirs
      && (r.Done? ==>
            var after := GetConfigRun(r.fs, site).value.shelves;
            var i := ShelfIndex(shelves, shelfId);
            && GetConfigRun(r.fs, site).Success?
            && |after| == |shelves| && Ids(after) == Ids(shelves)
            && after[i] == Merged(shelves[i], u)
            && (forall j :: 0 <= j < |shelves| && j != i ==> after[j] == shelves[j]))
  {
    var config := GetConfigRun(fs, site).value;
    var i := ShelfIndex(config.shelves, shelfId);
    if i >= 0 {
      var after := config.(shelves := config.shelves[i := Merged(config.shelves[i], u)]);
      SaveConfigOutcome(fs, site, after);
      assert Ids(after.shelves) == Ids(config.shelves);
    }
  }

  /** `shelves.filter(s => s.id !== shelfId)`. */
  function Without(shelves: seq<Shelf>, shelfId: string): (r: seq<Shelf>)
    ensures !HasShelf(r, shelfId)
    ensures forall s: Shelf :: s.id != shelfId ==> multiset(r)[s] == multiset(shelves)[s]
    ensures IsSubsequence(r, shelves)
  {
    var r := Filter(shelves, (s: Shelf) => s.id != shelfId);
    assert forall k :: 0 <= k < |r| ==> r[k] in r;
    r
  }

  /** `deleteShelf`: an unknown id throws; otherwise the engine deletes the
      folder (refusing one that still holds records) and only then is the
      shelf taken out of the configuration read at the start. */
  function DeleteShelfFlow(fs: FileSystem, site: Path, order: set<string> -> seq<string>, shelfId: string): Run<()>
    requires PlainPath(site)
  {
    match GetConfigRun(fs, site)
    case Failure(m) => Aborted(fs, m)
    case Success(config) =>
      if !HasShelf(config.shelves, shelfId) then Aborted(fs, ShelfNotFound(shelfId))
      else DeleteThenSave(fs, site, order, config, shelfId)
  }

  function DeleteThenSave(fs: FileSystem, site: Path, order: set<string> -> seq<string>, config: Config, shelfId: string)
    : Run<()>
    requires PlainPath(site)
  {
    match DeleteShelfRun(fs, site, shelfId, order)
    case Aborted(fs1, m) => Aborted(fs1, m)
    case Done(fs1, _) => SaveConfigRun(fs1, site, config.(shelves := Without(config.shelves, shelfId)))
  }

  method DeleteShelf(e: Engine, shelfId: string) returns (r: Result<(), string>)
    requires e.Valid()
    modifies e
    ensures e.Valid() && e.server == old(e.server)
    ensures e.fs == DeleteShelfFlow(old(e.fs), e.site, e.order, shelfId).fs
    ensures r == Outcome(DeleteShelfFlow(old(e.fs), e.site, e.order, shelfId))
  {
    var config := e.GetConfig();
    if config.Failure? {
      return Failure(config.error);
    }
    if FindShelf(config.value.shelves, shelfId).None? {
      return Failure(ShelfNotFound(shelfId));
    }
    r := DeleteAndSave(e, config.value, shelfId);
  }

  method DeleteAndSave(e: Engine, config: Config, shelfId: string) returns (r: Result<(), string>)
    requires e.Valid()
    modifies e
    ensures e.Valid() && e.server == old(e.server)
    ensures e.fs == DeleteThenSave(old(e.fs), e.site, e.order, config, shelfId).fs
    ensures r == Outcome(DeleteThenSave(old(e.fs), e.site, e.order, config, shelfId))
  {
    ghost var deleted := DeleteShelfRun(e.fs, e.site, shelfId, e.order);
    var d := e.DeleteShelf(shelfId);
    if d.Failure? {
      return Failure(d.error);
    }
    assert deleted == Done(e.fs, ());
    r := e.SaveConfig(config.(shelves := Without(config.shelves, shelfId)));
  }

  /** When the engine refuses the delete, the configuration is not saved and
      nothing changes. */
  lemma DeleteShelfRefused(fs: FileSystem, site: Path, order: set<string> -> seq<string>, shelfId: string)
    requires PlainPath(site) && GetConfigRun(fs, site).Success?
    requires HasShelf(GetConfigRun(fs, site).value.shelves, shelfId)
    requires DeleteShelfRun(fs, site, shelfId, order).Aborted?
    ensures DeleteShelfFlow(fs, site, order, shelfId) == Aborted(fs, DeleteShelfRun(fs, site, shelfId, order).msg)
  {
  }

  /** A shelf whose folder still holds a `.json` entry stays, both on disk
      and in the configuration. */
  lemma DeleteShelfKeepsFullShelf(fs: FileSystem, site: Path, order: set<string> -> seq<string>, shelfId: string,
                                  n: string)
    requires PlainPath(site) && Lister(order) && GetConfigRun(fs, site).Success?
    requires HasShelf(GetConfigRun(fs, site).value.shelves, shelfId)
    requires var shelf := FindShelf(GetConfigRun(fs, site).value.shelves, shelfId).value;
      var dir := Join(BooksDir(site), shelf.folder);
      dir in fs.dirs && IsJsonName(n) && Exists(fs, dir + [n])
    ensures DeleteShelfFlow(fs, site, order, shelfId).Aborted?
    ensures DeleteShelfFlow(fs, site, order, shelfId).fs == fs
  {
    DeleteShelfKeepsBooks(fs, site, shelfId, order, n);
    DeleteShelfRefused(fs, site, order, shelfId);
  }

  /** A finished delete leaves the configuration without the shelf and the
      other shelves in their order, and changes no other file. */
  lemma DeleteShelfRemoves(fs: FileSystem, site: Path, order: set<string> -> seq<string>, shelfId: string)
    requires Valid(fs) && PlainPath(site) && GetConfigRun(fs, site).Success?
    requires DeleteShelfFlow(fs, site, order, shelfId).Done?
    ensures var config := GetConfigRun(fs, site).value;
      var after := config.(shelves := Without(config.shelves, shelfId));
      var r := DeleteShelfFlow(fs, site, order, shelfId);
      && GetConfigRun(r.fs, site) == Success(after)
      && !HasShelf(after.shelves, shelfId)
      && r.fs.files == fs.files[ConfigPath(site) := ConfigDoc(after)]
  {
    var config := GetConfigRun(fs, site).value;
    var after := config.(shelves := Without(config.shelves, shelfId));
    DeleteShelfOutcome(fs, site, shelfId, order);
    var fs1 := DeleteShelfRun(fs, site, shelfId, order).fs;
    SaveConfigOutcome(fs1, site, after);
  }

  /** The position of the first id with no shelf, or the length when every
      id names one. */
  function FirstMissing(shelves: seq<Shelf>, ids: seq<string>): (k: nat)
    ensures k <= |ids|
    ensures forall j :: 0 <= j < k ==> HasShelf(shelves, ids[j])
    ensures k < |ids| ==> !HasShelf(shelves, ids[k])
  {
    if ids == [] then 0
    else if !HasShelf(shelves, ids[0]) then 0
    else 1 + FirstMissing(shelves, ids[1..])
  }

  lemma FirstMissingAt(shelves: seq<Shelf>, ids: seq<string>, k: nat)
    requires k <= |ids| && forall j :: 0 <= j < k ==> HasShelf(shelves, ids[j])
    requires k < |ids| ==> !HasShelf(shelves, ids[k])
    ensures FirstMissing(shelves, ids) == k
  {
  }

  /** `new Map(shelves.map(s => [s.id, s])).get(id)`: a later shelf with the
      same id overwrites an earlier one in the map. */
  function LastWithId(shelves: seq<Shelf>, id: string): (r: Option<Shelf>)
    ensures r.Some? <==> HasShelf(shelves, id)
    ensures r.Some? ==> r.value in shelves && r.value.id == id
  {
    if shelves == [] then None
    else if shelves[|shelves| - 1].id == id then Some(shelves[|shelves| - 1])
    else
      var r := LastWithId(shelves[..|shelves| - 1], id);
      assert forall s :: s in shelves[..|shelves| - 1] ==> s in shelves;
      assert HasShelf(shelves, id) ==> HasShelf(shelves[..|shelves| - 1], id) by {
        if HasShelf(shelves, id) {
          var k :| 0 <= k < |shelves| && shelves[k].id == id;
          assert shelves[..|shelves| - 1][k].id == id;
        }
      }
      r
  }

  /** With unique ids the map finds the one shelf with the id. */
  lemma LastWithIdUnique(shelves: seq<Shelf>, id: string)
    requires UniqueIds(shelves) && HasShelf(shelves, id)
    ensures LastWithId(shelves, id) == FindShelf(shelves, id)
  {
    var s := LastWithId(shelves, id).value;
    var i := ShelfIndex(shelves, id);
    var k :| 0 <= k < |shelves| && shelves[k] == s;
    assert k == i;
  }

  /** `shelfIds.map(id => shelfMap.get(id)!)`, once every id is known. */
  function InOrder(shelves: seq<Shelf>, ids: seq<string>): (r: seq<Shelf>)
    requires forall k :: 0 <= k < |ids| ==> HasShelf(shelves, ids[k])
    ensures |r| == |ids| && Ids(r) == ids
    ensures forall x :: x in r ==> x in shelves
  {
    if ids == [] then []
    else
      var r := [LastWithId(shelves, ids[0]).value] + InOrder(shelves, ids[1..]);
      assert Ids(r) == [ids[0]] + Ids(InOrder(shelves, ids[1..]));
      r
  }

  /** `reorderShelves`: every id must name a shelf; the configuration is
      saved with the shelves in the order of the ids, and the engine's
      reorder handler, called last, changes nothing. */
  function ReorderFlow(fs: FileSystem, site: Path, ids: seq<string>): Run<()>
    requires PlainPath(site)
  {
    match GetConfigRun(fs, site)
    case Failure(m) => Aborted(fs, m)
    case Success(config) =>
      var k := FirstMissing(config.shelves, ids);
      if k < |ids| then Aborted(fs, ShelfNotFound(ids[k]))
      else SaveConfigRun(fs, site, config.(shelves := InOrder(config.shelves, ids)))
  }

  method ReorderShelves(e: Engine, shelfIds: seq<string>) returns (r: Result<(), string>)
    requires e.Valid()
    modifies e
    ensures e.Valid() && e.server == old(e.server)
    ensures e.fs == ReorderFlow(old(e.fs), e.site, shelfIds).fs
    ensures r == Outcome(ReorderFlow(old(e.fs), e.site, shelfIds))
  {
    var config := e.GetConfig();
    if config.Failure? {
      return Failure(config.error);
    }
    var shelves := config.value.shelves;
    var k := CheckIds(shelves, shelfIds);
    if k < |shelfIds| {
      return Failure(ShelfNotFound(shelfIds[k]));
    }
    r := e.SaveConfig(config.value.(shelves := InOrder(shelves, shelfIds)));
    e.ReorderShelves(shelfIds);
  }

  /** The validation loop of `reorderShelves`: where it stops. */
  method CheckIds(shelves: seq<Shelf>, shelfIds: seq<string>) returns (k: nat)
    ensures k == FirstMissing(shelves, shelfIds)
  {
    k := 0;
    while k < |shelfIds|
      invariant k <= |shelfIds|
      invariant forall j :: 0 <= j < k ==> HasShelf(shelves, shelfIds[j])
    {
      if FindShelf(shelves, shelfIds[k]).None? {
        break;
      }
      k := k + 1;
    }
    FirstMissingAt(shelves, shelfIds, k);
  }

  /** An id without a shelf is refused with nothing written. Otherwise the
      saved configuration holds, for each id in turn, a shelf of the old
      configuration with that id: a shelf whose id is not listed is dropped,
      and a listed id is kept as often as it is listed. Only the
      configuration file changes. */
  lemma ReorderOutcome(fs: FileSystem, site: Path, ids: seq<string>)
    requires PlainPath(site) && GetConfigRun(fs, site).Success?
    ensures var config := GetConfigRun(fs, site).value;
      var r := ReorderFlow(fs, site, ids);
      && ((exists k :: 0 <= k < |ids| && !HasShelf(config.shelves, ids[k])) ==> r.Aborted? && r.fs == fs)
      && (r.Done? ==>
            var after := GetConfigRun(r.fs, site).value.shelves;
            && GetConfigRun(r.fs, site).Success?
            && Ids(after) == ids
            && (forall x :: x in after ==> x in config.shelves)
            && r.fs.files == fs.files[ConfigPath(site) := ConfigDoc(config.(shelves := after))])
  {
    var config := GetConfigRun(fs, site).value;
    if FirstMissing(config.shelves, ids) == |ids| {
      SaveConfigOutcome(fs, site, config.(shelves := InOrder(config.shelves, ids)));
    }
  }

  /** Every id of a shelf list names a shelf of it. */
  lemma OwnIdsKnown(shelves: seq<Shelf>)
    ensures forall k :: 0 <= k < |Ids(shelves)| ==> HasShelf(shelves, Ids(shelves)[k])
  {
    forall k | 0 <= k < |Ids(shelves)| ensures HasShelf(shelves, Ids(shelves)[k]) {
      assert shelves[k].id == Ids(shelves)[k];
    }
  }

  /** Reordering by the current order of unique ids changes nothing in the
      shelf list. */
  lemma InOrderOwnIds(shelves: seq<Shelf>)
    requires UniqueIds(shelves)
    ensures forall k :: 0 <= k < |Ids(shelves)| ==> HasShelf(shelves, Ids(shelves)[k])
    ensures InOrder(shelves, Ids(shelves)) == shelves
  {
    OwnIdsKnown(shelves);
    var r := InOrder(shelves, Ids(shelves));
    forall k | 0 <= k < |r| ensures r[k] == shelves[k] {
      SameIdSameShelf(shelves, r[k], k);
    }
  }

  /** In a list of unique ids, a member with the id of position `k` is the
      shelf at `k`. */
  lemma SameIdSameShelf(shelves: seq<Shelf>, s: Shelf, k: nat)
    requires UniqueIds(shelves) && k < |shelves| && s in shelves && s.id == shelves[k].id
    ensures s == shelves[k]
  {
    var m :| 0 <= m < |shelves| && shelves[m] == s;
  }

  /** Moving the books at these paths one after the other, as `mergeShelf`
      and the book list's bulk move do; the first move that throws ends
      the run. */
  function MoveAll(fs: FileSystem, site: Path, paths: seq<string>, targetShelfId: string): Run<()>
    requires PlainPath(site)
  {
    if paths == [] then Done(fs, ())
    else
      match MoveAll(fs, site, paths[..|paths| - 1], targetShelfId)
      case Aborted(fs1, m) => Aborted(fs1, m)
      case Done(fs1, _) => Unit(MoveBookRun(fs1, site, paths[|paths| - 1], targetShelfId))
  }

  /** A run's outcome without its value: a failed step fails, a finished
      step finishes. */
  function Unit<T>(r: Run<T>): Run<()> {
    match r
    case Aborted(fs, m) => Aborted(fs, m)
    case Done(fs, _) => Done(fs, ())
  }

  /** One more path moves that book after the earlier ones. */
  lemma MoveAllNext(fs: FileSystem, site: Path, paths: seq<string>, targetShelfId: string, k: nat, fs1: FileSystem)
    requires PlainPath(site) && k < |paths|
    requires MoveAll(fs, site, paths[..k], targetShelfId) == Done(fs1, ())
    ensures MoveAll(fs, site, paths[..k + 1], targetShelfId) == Unit(MoveBookRun(fs1, site, paths[k], targetShelfId))
  {
    assert paths[..k + 1][..k] == paths[..k];
  }

  lemma {:induction false} MoveAllAborts(fs: FileSystem, site: Path, paths: seq<string>, targetShelfId: string,
                                         k: nat)
    requires PlainPath(site) && k <= |paths| && MoveAll(fs, site, paths[..k], targetShelfId).Aborted?
    ensures MoveAll(fs, site, paths, targetShelfId) == MoveAll(fs, site, paths[..k], targetShelfId)
    decreases |paths|
  {
    if k < |paths| {
      var init := paths[..|paths| - 1];
      assert init[..k] == paths[..k];
      MoveAllAborts(fs, site, init, targetShelfId, k);
    } else {
      assert paths[..k] == paths;
    }
  }

  /** The moves keep the tree well formed. */
  lemma {:induction false} MoveAllValid(fs: FileSystem, site: Path, paths: seq<string>, targetShelfId: string)
    requires Valid(fs) && PlainPath(site)
    ensures Valid(MoveAll(fs, site, paths, targetShelfId).fs)
  {
    if paths != [] {
      var init := paths[..|paths| - 1];
      MoveAllValid(fs, site, init, targetShelfId);
      var r := MoveAll(fs, site, init, targetShelfId);
      if r.Done? {
        MoveBookValid(r.fs, site, paths[|paths| - 1], targetShelfId);
      }
    }
  }

  /** `mergeShelf`: both shelves must exist; every book listed on the
      source shelf is moved to the target, then the source shelf is deleted
      as `deleteShelf` does. */
  function MergeFlow(fs: FileSystem, site: Path, order: set<string> -> seq<string>, sourceShelfId: string,
                     targetShelfId: string): Run<()>
    requires PlainPath(site)
  {
    match GetConfigRun(fs, site)
    case Failure(m) => Aborted(fs, m)
    case Success(config) =>
      if !HasShelf(config.shelves, sourceShelfId) then Aborted(fs, SourceNotFound(sourceShelfId))
      else if !HasShelf(config.shelves, targetShelfId) then Aborted(fs, TargetNotFound(targetShelfId))
      else
        match LibraryStore.GetBooks(fs, site, order)
        case Failure(m) => Aborted(fs, m)
        case Success(books) => MoveThenDelete(fs, site, order, FilePaths(BooksOnShelf(books, sourceShelfId)), sourceShelfId, targetShelfId)
  }

  function MoveThenDelete(fs: FileSystem, site: Path, order: set<string> -> seq<string>, sourcePaths: seq<string>,
                          sourceShelfId: string, targetShelfId: string): Run<()>
    requires PlainPath(site)
  {
    match MoveAll(fs, site, sourcePaths, targetShelfId)
    case Aborted(fs1, m) => Aborted(fs1, m)
    case Done(fs1, _) => DeleteShelfFlow(fs1, site, order, sourceShelfId)
  }

  method MergeShelf(e: Engine, sourceShelfId: string, targetShelfId: string) returns (r: Result<(), string>)
    requires e.Valid()
    modifies e
    ensures e.Valid() && e.server == old(e.server)
    ensures e.fs == MergeFlow(old(e.fs), e.site, e.order, sourceShelfId, targetShelfId).fs
    ensures r == Outcome(MergeFlow(old(e.fs), e.site, e.order, sourceShelfId, targetShelfId))
  {
    var config := e.GetConfig();
    if config.Failure? {
      return Failure(config.error);
    }
    if FindShelf(config.value.shelves, sourceShelfId).None? {
      return Failure(SourceNotFound(sourceShelfId));
    }
    if FindShelf(config.value.shelves, targetShelfId).None? {
      return Failure(TargetNotFound(targetShelfId));
    }
    var books := e.GetBooks();
    if books.Failure? {
      return Failure(books.error);
    }
    var sourcePaths := FilePaths(BooksOnShelf(books.value, sourceShelfId));
    r := MoveEachThenDelete(e, sourcePaths, sourceShelfId, targetShelfId);
  }

  method MoveEachThenDelete(e: Engine, sourcePaths: seq<string>, sourceShelfId: string, targetShelfId: string)
    returns (r: Result<(), string>)
    requires e.Valid()
    modifies e
    ensures e.Valid() && e.server == old(e.server)
    ensures e.fs == MoveThenDelete(old(e.fs), e.site, e.order, sourcePaths, sourceShelfId, targetShelfId).fs
    ensures r == Outcome(MoveThenDelete(old(e.fs), e.site, e.order, sourcePaths, sourceShelfId, targetShelfId))
  {
    var moved := MoveEach(e, sourcePaths, targetShelfId);
    if moved.Failure? {
      return Failure(moved.error);
    }
    r := DeleteShelf(e, sourceShelfId);
  }

  /** The move loop of `mergeShelf` and of the book list's bulk move,
      proved to compute `MoveAll`. */
  method MoveEach(e: Engine, sourcePaths: seq<string>, targetShelfId: string) returns (r: Result<(), string>)
    requires e.Valid()
    modifies e
    ensures e.Valid() && e.server == old(e.server)
    ensures e.fs == MoveAll(old(e.fs), e.site, sourcePaths, targetShelfId).fs
    ensures r == Outcome(MoveAll(old(e.fs), e.site, sourcePaths, targetShelfId))
  {
    ghost var fs0 := e.fs;
    for k := 0 to |sourcePaths|
      invariant e.Valid() && e.server == old(e.server)
      invariant MoveAll(fs0, e.site, sourcePaths[..k], targetShelfId) == Done(e.fs, ())
    {
      MoveAllNext(fs0, e.site, sourcePaths, targetShelfId, k, e.fs);
      var moved := e.MoveBook(sourcePaths[k], targetShelfId);
      if moved.Failure? {
        MoveAllAborts(fs0, e.site, sourcePaths, targetShelfId, k + 1);
        return Failure(moved.error);
      }
    }
    assert sourcePaths[..|sourcePaths|] == sourcePaths;
    r := Success(());
  }

  /** An unknown source or target is refused before anything changes. */
  lemma MergeUnknownShelf(fs: FileSystem, site: Path, order: set<string> -> seq<string>, sourceShelfId: string,
                          targetShelfId: string)
    requires PlainPath(site) && GetConfigRun(fs, site).Success?
    ensures var shelves := GetConfigRun(fs, site).value.shelves;
      && (!HasShelf(shelves, sourceShelfId) ==>
            MergeFlow(fs, site, order, sourceShelfId, targetShelfId) == Aborted(fs, SourceNotFound(sourceShelfId)))
      && (HasShelf(shelves, sourceShelfId) && !HasShelf(shelves, targetShelfId) ==>
            MergeFlow(fs, site, order, sourceShelfId, targetShelfId) == Aborted(fs, TargetNotFound(targetShelfId)))
  {
  }

  /** A finished merge leaves a configuration without the source shelf. */
  lemma MergeRemovesSource(fs: FileSystem, site: Path, order: set<string> -> seq<string>, sourceShelfId: string,
                           targetShelfId: string)
    requires Valid(fs) && PlainPath(site)
    requires MergeFlow(fs, site, order, sourceShelfId, targetShelfId).Done?
    ensures var r := MergeFlow(fs, site, order, sourceShelfId, targetShelfId);
      GetConfigRun(r.fs, site).Success? && !HasShelf(GetConfigRun(r.fs, site).value.shelves, sourceShelfId)
  {
    var books := LibraryStore.GetBooks(fs, site, order).value;
    var sourcePaths := FilePaths(BooksOnShelf(books, sourceShelfId));
    MoveAllValid(fs, site, sourcePaths, targetShelfId);
    var fs1 := MoveAll(fs, site, sourcePaths, targetShelfId).fs;
    DeleteShelfRemoves(fs1, site, order, sourceShelfId);
  }

  /** The paths the engine resolves these path strings to. */
  function ResolveAll(paths: seq<string>): (r: seq<Path>)
    ensures |r| == |paths|
    ensures forall i :: 0 <= i < |paths| ==> r[i] == Resolve(paths[i])
  {
    if paths == [] then [] else [Resolve(paths[0])] + ResolveAll(paths[1..])
  }

  /** No two of the paths have the same base name, so no move overwrites
      another's file in the target folder. */
  predicate DistinctBases(srcs: seq<Path>) {
    forall i, j :: 0 <= i < j < |srcs| ==> Basename(srcs[i]) != Basename(srcs[j])
  }

  /** What the first `k` moves into `dir` have done to the files `orig`:
      each moved file's content is in `dir` under its base name, and each
      file still to move is where it was. */
  ghost predicate Carried(orig: map<Path, Content>, files: map<Path, Content>, srcs: seq<Path>, dir: Path, k: nat)
    requires k <= |srcs|
  {
    && (forall j :: 0 <= j < k ==>
          srcs[j] in orig && dir + [Basename(srcs[j])] in files && files[dir + [Basename(srcs[j])]] == orig[srcs[j]])
    && (forall i :: k <= i < |srcs| ==> srcs[i] in orig && srcs[i] in files && files[srcs[i]] == orig[srcs[i]])
  }

  /** One rename of the next file into `dir` carries it and keeps what was
      carried before, and it leaves any other path `q` outside `dir`'s
      entries as it was. */
  lemma CarriedStep(orig: map<Path, Content>, files: map<Path, Content>, srcs: seq<Path>, dir: Path, k: nat, q: Path)
    requires k < |srcs| && DistinctBases(srcs)
    requires Carried(orig, files, srcs, dir, k)
    requires q in files && q != srcs[k] && |q| != |dir| + 1
    ensures var next := (files - {srcs[k]})[dir + [Basename(srcs[k])] := files[srcs[k]]];
      Carried(orig, next, srcs, dir, k + 1) && q in next && next[q] == files[q]
  {
    var src := srcs[k];
    var dst := dir + [Basename(src)];
    var next := (files - {src})[dst := files[src]];
    forall j | 0 <= j < k + 1
      ensures dir + [Basename(srcs[j])] in next && next[dir + [Basename(srcs[j])]] == orig[srcs[j]]
    {
      if j < k {
        var d := dir + [Basename(srcs[j])];
        assert Basename(d) == Basename(srcs[j]) != Basename(src);
      }
    }
    forall i | k + 1 <= i < |srcs|
      ensures srcs[i] in next && next[srcs[i]] == orig[srcs[i]]
    {
      assert Basename(srcs[i]) != Basename(src);
      assert Basename(dst) == Basename(src);
    }
  }

  /** The moves of `mergeShelf` carry every book's content into the target
      folder and leave the configuration file alone: by induction over the
      moves made. */
  lemma {:induction false} MoveAllCarries(fs: FileSystem, site: Path, paths: seq<string>, targetShelfId: string,
                                          shelf: Shelf, k: nat)
    requires Valid(fs) && PlainPath(site) && k <= |paths|
    requires ReadConfig(fs, ConfigPath(site)).Success?
    requires FindShelf(ReadConfig(fs, ConfigPath(site)).value.shelves, targetShelfId) == Some(shelf)
    requires PlainName(shelf.folder)
    requires forall i :: 0 <= i < |paths| ==> ResolveAll(paths)[i] in fs.files && fs.files[ResolveAll(paths)[i]].BookDoc?
    requires DistinctBases(ResolveAll(paths))
    requires MoveAll(fs, site, paths[..k], targetShelfId).Done?
    ensures var fsk := MoveAll(fs, site, paths[..k], targetShelfId).fs;
      && ConfigPath(site) in fsk.files && fsk.files[ConfigPath(site)] == fs.files[ConfigPath(site)]
      && Carried(fs.files, fsk.files, ResolveAll(paths), BooksDir(site) + [shelf.folder], k)
  {
    if k == 0 {
      assert paths[..0] == [];
    } else {
      var prev := MoveAllPrefix(fs, site, paths, targetShelfId, k);
      MoveAllCarries(fs, site, paths, targetShelfId, shelf, k - 1);
      MoveAllValid(fs, site, paths[..k - 1], targetShelfId);
      MoveStep(fs, prev, site, paths, targetShelfId, shelf, k - 1);
    }
  }

  /** A finished run of the first `k` moves is a finished run of the first
      `k - 1` and one more move. */
  lemma MoveAllPrefix(fs: FileSystem, site: Path, paths: seq<string>, targetShelfId: string, k: nat)
    returns (prev: FileSystem)
    requires PlainPath(site) && 0 < k <= |paths|
    requires MoveAll(fs, site, paths[..k], targetShelfId).Done?
    ensures MoveAll(fs, site, paths[..k - 1], targetShelfId) == Done(prev, ())
    ensures MoveBookRun(prev, site, paths[k - 1], targetShelfId).Done?
    ensures MoveAll(fs, site, paths[..k], targetShelfId).fs == MoveBookRun(prev, site, paths[k - 1], targetShelfId).fs
  {
    assert paths[..k][..k - 1] == paths[..k - 1];
    prev := MoveAll(fs, site, paths[..k - 1], targetShelfId).fs;
  }

  /** One move, seen on the files: the rename of `CarriedStep`. */
  lemma MoveStep(fs: FileSystem, fsk: FileSystem, site: Path, paths: seq<string>, targetShelfId: string, shelf: Shelf,
                 k: nat)
    requires PlainPath(site) && k < |paths| && Valid(fsk)
    requires ReadConfig(fs, ConfigPath(site)).Success?
    requires FindShelf(ReadConfig(fs, ConfigPath(site)).value.shelves, targetShelfId) == Some(shelf)
    requires PlainName(shelf.folder)
    requires ConfigPath(site) in fsk.files && fsk.files[ConfigPath(site)] == fs.files[ConfigPath(site)]
    requires MoveBookRun(fsk, site, paths[k], targetShelfId).Done?
    requires Carried(fs.files, fsk.files, ResolveAll(paths), BooksDir(site) + [shelf.folder], k)
    requires DistinctBases(ResolveAll(paths))
    requires fs.files[ResolveAll(paths)[k]].BookDoc?
    ensures var next := MoveBookRun(fsk, site, paths[k], targetShelfId).fs;
      && Valid(next)
      && ConfigPath(site) in next.files && next.files[ConfigPath(site)] == fs.files[ConfigPath(site)]
      && Carried(fs.files, next.files, ResolveAll(paths), BooksDir(site) + [shelf.folder], k + 1)
  {
    assert ReadConfig(fsk, ConfigPath(site)) == ReadConfig(fs, ConfigPath(site));
    MoveFiles(fsk, site, paths[k], targetShelfId, shelf);
    var srcs := ResolveAll(paths);
    assert srcs[k] == Resolve(paths[k]);
    assert ConfigPath(site) != srcs[k];
    CarriedStep(fs.files, fsk.files, srcs, BooksDir(site) + [shelf.folder], k, ConfigPath(site));
  }

  /** A finished move into a shelf with a plain folder name, seen on the
      files: one rename into that folder. */
  lemma MoveFiles(fs: FileSystem, site: Path, filePath: string, targetShelfId: string, shelf: Shelf)
    requires Valid(fs) && PlainPath(site)
    requires ReadConfig(fs, ConfigPath(site)).Success?
    requires FindShelf(ReadConfig(fs, ConfigPath(site)).value.shelves, targetShelfId) == Some(shelf)
    requires PlainName(shelf.folder)
    requires MoveBookRun(fs, site, filePath, targetShelfId).Done?
    ensures var src := Resolve(filePath);
      var next := MoveBookRun(fs, site, filePath, targetShelfId).fs;
      && Valid(next)
      && next.files == (fs.files - {src})[BooksDir(site) + [shelf.folder] + [Basename(src)] := fs.files[src]]
  {
    JoinName(BooksDir(site), shelf.folder);
    MoveBookOutcome(fs, site, filePath, targetShelfId);
    MoveBookValid(fs, site, filePath, targetShelfId);
  }

  /** A finished merge has carried every record listed on the source shelf
      into the target shelf's folder, under its own base name and with the
      same content, when no two of those records share a base name (one
      configured shelf per id gives that; with two, a later rename would
      overwrite an earlier one). */
  lemma MergeMovesEveryBook(fs: FileSystem, site: Path, order: set<string> -> seq<string>, sourceShelfId: string,
                            targetShelfId: string, config: Config, books: seq<BookWithMeta>)
    requires Valid(fs) && PlainPath(site)
    requires GetConfigRun(fs, site) == Success(config) && LibraryStore.GetBooks(fs, site, order) == Success(books)
    requires HasShelf(config.shelves, targetShelfId) && PlainName(FindShelf(config.shelves, targetShelfId).value.folder)
    requires DistinctBases(ResolveAll(FilePaths(BooksOnShelf(books, sourceShelfId))))
    requires MergeFlow(fs, site, order, sourceShelfId, targetShelfId).Done?
    ensures var r := MergeFlow(fs, site, order, sourceShelfId, targetShelfId);
      var dir := BooksDir(site) + [FindShelf(config.shelves, targetShelfId).value.folder];
      var sources := BooksOnShelf(books, sourceShelfId);
      forall i :: 0 <= i < |sources| ==>
        ReadBook(r.fs, dir + [Basename(ResolveAll(FilePaths(sources))[i])]) == Success(sources[i].book)
  {
    var shelf := FindShelf(config.shelves, targetShelfId).value;
    var dir := BooksDir(site) + [shelf.folder];
    var sources := BooksOnShelf(books, sourceShelfId);
    var paths, fs1 := MergeSplit(fs, site, order, sourceShelfId, targetShelfId, config, books);
    SourcesResolved(fs, site, order, config, books, sourceShelfId);
    MovesThenDelete(fs, fs1, site, order, sourceShelfId, targetShelfId, config, sources, shelf);
  }

  /** `MergeMovesEveryBook` once the records to move are known. */
  lemma {:induction false} MovesThenDelete(fs: FileSystem, fs1: FileSystem, site: Path, order: set<string> -> seq<string>,
                        sourceShelfId: string, targetShelfId: string, config: Config, sources: seq<BookWithMeta>,
                        shelf: Shelf)
    requires Valid(fs) && PlainPath(site) && GetConfigRun(fs, site) == Success(config)
    requires FindShelf(config.shelves, targetShelfId) == Some(shelf) && PlainName(shelf.folder)
    requires forall i :: 0 <= i < |sources| ==>
      ResolveAll(FilePaths(sources))[i] in fs.files && fs.files[ResolveAll(FilePaths(sources))[i]] == BookDoc(sources[i].book)
    requires DistinctBases(ResolveAll(FilePaths(sources)))
    requires MoveAll(fs, site, FilePaths(sources), targetShelfId) == Done(fs1, ())
    requires DeleteShelfFlow(fs1, site, order, sourceShelfId).Done?
    ensures var dir := BooksDir(site) + [shelf.folder];
      forall i :: 0 <= i < |sources| ==>
        ReadBook(DeleteShelfFlow(fs1, site, order, sourceShelfId).fs, dir + [Basename(ResolveAll(FilePaths(sources))[i])])
          == Success(sources[i].book)
  {
    var paths := FilePaths(sources);
    var dir := BooksDir(site) + [shelf.folder];
    MovesCarry(fs, fs1, site, config, sources, targetShelfId, shelf);
    MoveAllValid(fs, site, paths, targetShelfId);
    DeleteAfterMoves(fs, fs1, site, order, sourceShelfId, config);
    var after := config.(shelves := Without(config.shelves, sourceShelfId));
    var fs2 := DeleteShelfFlow(fs1, site, order, sourceShelfId).fs;
    assert |ConfigPath(site)| != |dir| + 1;
    CarriedReads(fs.files, fs1.files, fs2, sources, ResolveAll(paths), dir, ConfigPath(site), ConfigDoc(after));
  }

  /** The moves of a merge carry every source record into the target
      folder and leave the configuration file as it was. */
  lemma MovesCarry(fs: FileSystem, fs1: FileSystem, site: Path, config: Config, sources: seq<BookWithMeta>,
                   targetShelfId: string, shelf: Shelf)
    requires Valid(fs) && PlainPath(site) && GetConfigRun(fs, site) == Success(config)
    requires FindShelf(config.shelves, targetShelfId) == Some(shelf) && PlainName(shelf.folder)
    requires forall i :: 0 <= i < |sources| ==>
      ResolveAll(FilePaths(sources))[i] in fs.files && fs.files[ResolveAll(FilePaths(sources))[i]] == BookDoc(sources[i].book)
    requires DistinctBases(ResolveAll(FilePaths(sources)))
    requires MoveAll(fs, site, FilePaths(sources), targetShelfId) == Done(fs1, ())
    ensures ConfigPath(site) in fs1.files && fs1.files[ConfigPath(site)] == fs.files[ConfigPath(site)]
    ensures Carried(fs.files, fs1.files, ResolveAll(FilePaths(sources)), BooksDir(site) + [shelf.folder], |sources|)
  {
    var paths := FilePaths(sources);
    assert ReadConfig(fs, ConfigPath(site)) == Success(config);
    forall i | 0 <= i < |paths|
      ensures ResolveAll(paths)[i] in fs.files && fs.files[ResolveAll(paths)[i]].BookDoc?
    {
    }
    MoveAllCarriesAll(fs, site, paths, targetShelfId, shelf);
  }

  /** The deletion that ends a merge writes the configuration, without
      the source shelf, over the one the moves left untouched. */
  lemma DeleteAfterMoves(fs: FileSystem, fs1: FileSystem, site: Path, order: set<string> -> seq<string>,
                         sourceShelfId: string, config: Config)
    requires Valid(fs1) && PlainPath(site) && GetConfigRun(fs, site) == Success(config)
    requires ConfigPath(site) in fs1.files && fs1.files[ConfigPath(site)] == fs.files[ConfigPath(site)]
    requires DeleteShelfFlow(fs1, site, order, sourceShelfId).Done?
    ensures DeleteShelfFlow(fs1, site, order, sourceShelfId).fs.files
      == fs1.files[ConfigPath(site) := ConfigDoc(config.(shelves := Without(config.shelves, sourceShelfId)))]
  {
    DeleteShelfRemoves(fs1, site, order, sourceShelfId);
  }

  /** Records carried into `dir`, then a write to a path of another length:
      each record is read back from `dir` under its own base name. */
  lemma CarriedReads(orig: map<Path, Content>, files: map<Path, Content>, fs: FileSystem, sources: seq<BookWithMeta>,
                     srcs: seq<Path>, dir: Path, q: Path, doc: Content)
    requires |srcs| == |sources| && Carried(orig, files, srcs, dir, |srcs|)
    requires forall i :: 0 <= i < |sources| ==> srcs[i] in orig && orig[srcs[i]] == BookDoc(sources[i].book)
    requires fs.files == files[q := doc] && |q| != |dir| + 1
    ensures forall i :: 0 <= i < |sources| ==> ReadBook(fs, dir + [Basename(srcs[i])]) == Success(sources[i].book)
  {
    forall i | 0 <= i < |sources|
      ensures ReadBook(fs, dir + [Basename(srcs[i])]) == Success(sources[i].book)
    {
      CarriedThenSaved(orig, files, srcs, dir, q, doc, i);
    }
  }

  /** A finished merge is a finished run of the moves followed by a
      finished deletion of the source shelf. */
  lemma MergeSplit(fs: FileSystem, site: Path, order: set<string> -> seq<string>, sourceShelfId: string,
                   targetShelfId: string, config: Config, books: seq<BookWithMeta>)
    returns (paths: seq<string>, fs1: FileSystem)
    requires PlainPath(site)
    requires GetConfigRun(fs, site) == Success(config) && LibraryStore.GetBooks(fs, site, order) == Success(books)
    requires MergeFlow(fs, site, order, sourceShelfId, targetShelfId).Done?
    ensures paths == FilePaths(BooksOnShelf(books, sourceShelfId))
    ensures MoveAll(fs, site, paths, targetShelfId) == Done(fs1, ())
    ensures DeleteShelfFlow(fs1, site, order, sourceShelfId).Done?
    ensures MergeFlow(fs, site, order, sourceShelfId, targetShelfId).fs == DeleteShelfFlow(fs1, site, order, sourceShelfId).fs
  {
    paths := FilePaths(BooksOnShelf(books, sourceShelfId));
    fs1 := MoveAll(fs, site, paths, targetShelfId).fs;
    assert HasShelf(config.shelves, sourceShelfId) && HasShelf(config.shelves, targetShelfId);
    assert MergeFlow(fs, site, order, sourceShelfId, targetShelfId)
      == MoveThenDelete(fs, site, order, paths, sourceShelfId, targetShelfId);
  }

  /** The records listed on a shelf, at the paths their `filePath`s
      resolve to. */
  lemma SourcesResolved(fs: FileSystem, site: Path, order: set<string> -> seq<string>, config: Config,
                        books: seq<BookWithMeta>, shelfId: string)
    requires Valid(fs) && PlainPath(site)
    requires GetConfigRun(fs, site) == Success(config) && LibraryStore.GetBooks(fs, site, order) == Success(books)
    ensures var sources := BooksOnShelf(books, shelfId);
      var srcs := ResolveAll(FilePaths(sources));
      forall i :: 0 <= i < |sources| ==> srcs[i] in fs.files && fs.files[srcs[i]] == BookDoc(sources[i].book)
  {
    SourcesStored(fs, site, order, config, books, shelfId);
  }

  /** `MoveAllCarries` for the whole list. */
  lemma MoveAllCarriesAll(fs: FileSystem, site: Path, paths: seq<string>, targetShelfId: string, shelf: Shelf)
    requires Valid(fs) && PlainPath(site)
    requires ReadConfig(fs, ConfigPath(site)).Success?
    requires FindShelf(ReadConfig(fs, ConfigPath(site)).value.shelves, targetShelfId) == Some(shelf)
    requires PlainName(shelf.folder)
    requires forall i :: 0 <= i < |paths| ==> ResolveAll(paths)[i] in fs.files && fs.files[ResolveAll(paths)[i]].BookDoc?
    requires DistinctBases(ResolveAll(paths))
    requires MoveAll(fs, site, paths, targetShelfId).Done?
    ensures var fsk := MoveAll(fs, site, paths, targetShelfId).fs;
      && ConfigPath(site) in fsk.files && fsk.files[ConfigPath(site)] == fs.files[ConfigPath(site)]
      && Carried(fs.files, fsk.files, ResolveAll(paths), BooksDir(site) + [shelf.folder], |paths|)
  {
    assert paths[..|paths|] == paths;
    MoveAllCarries(fs, site, paths, targetShelfId, shelf, |paths|);
  }

  /** After every file is carried into `dir`, a write to a path of another
      length leaves each carried file where it was put. */
  lemma CarriedThenSaved(orig: map<Path, Content>, files: map<Path, Content>, srcs: seq<Path>, dir: Path, q: Path,
                         doc: Content, i: nat)
    requires i < |srcs| && Carried(orig, files, srcs, dir, |srcs|) && |q| != |dir| + 1
    ensures var after := files[q := doc];
      dir + [Basename(srcs[i])] in after && after[dir + [Basename(srcs[i])]] == orig[srcs[i]]
  {
    assert |dir + [Basename(srcs[i])]| == |dir| + 1;
  }

  /** Every record listed on a shelf is the book document at the path its
      `filePath` resolves to. */
  lemma SourcesStored(fs: FileSystem, site: Path, order: set<string> -> seq<string>, config: Config,
                      books: seq<BookWithMeta>, shelfId: string)
    requires Valid(fs) && PlainPath(site)
    requires GetConfigRun(fs, site) == Success(config) && LibraryStore.GetBooks(fs, site, order) == Success(books)
    ensures var sources := BooksOnShelf(books, shelfId);
      forall i :: 0 <= i < |sources| ==>
        Resolve(FilePaths(sources)[i]) in fs.files && fs.files[Resolve(FilePaths(sources)[i])] == BookDoc(sources[i].book)
  {
    var sources := BooksOnShelf(books, shelfId);
    LibraryStore.AllBooksSound(fs, BooksDir(site), config.shelves, order);
    forall i | 0 <= i < |sources|
      ensures Resolve(FilePaths(sources)[i]) in fs.files && fs.files[Resolve(FilePaths(sources)[i])] == BookDoc(sources[i].book)
    {
      var b := sources[i];
      assert b in sources;
      assert b in books;
      var j :| 0 <= j < |config.shelves| && StoredIn(fs, BooksDir(site), config.shelves[j], b);
      var p := Join(Join(BooksDir(site), config.shelves[j].folder), b.fileName);
      ParseRender(p);
    }
  }
}
