/** The in-memory repositories the admin app uses when it runs outside the
    desktop shell: a book store, a shelf list, a cover map, the settings and
    the build flag. Each is a class whose fields its methods update in
    place; what a method does to its field is stated by a function on the
    old value, and the promises of the repository are lemmas about those
    functions. A method that throws returns `Failure` with the message. */
module MockRepositories {
  import opened Wrappers
  import opened Types
  import opened Seqs

  // ---------------------------------------------------------------------
  // `MockBookRepository`.

  /** `/mock/books/${shelfId}/${fileName}`. */
  function MockPath(shelfId: string, fileName: string): string {
    "/mock/books/" + shelfId + "/" + fileName
  }

  function BookNotFound(filePath: string): string {
    "Book not found: " + filePath
  }

  /** The entry `save` stores: the record with its path, file name and shelf,
      the shelf id standing in for the label. */
  function Stored(shelfId: string, fileName: string, book: Book): BookWithMeta {
    BookWithMeta(book, MockPath(shelfId, fileName), fileName, shelfId, shelfId)
  }

  /** `save`: the entry with the same path is replaced where it stands,
      otherwise the entry is appended. The store grows by at most one,
      afterwards the path finds the new entry, and every entry with another
      path stays where it was. */
  function SaveInto(books: seq<BookWithMeta>, shelfId: string, fileName: string, book: Book)
    : (r: seq<BookWithMeta>)
    ensures |books| <= |r| <= |books| + 1
    ensures PathIndex(r, MockPath(shelfId, fileName)) >= 0
    ensures r[PathIndex(r, MockPath(shelfId, fileName))] == Stored(shelfId, fileName, book)
    ensures forall j :: 0 <= j < |books| && books[j].filePath != MockPath(shelfId, fileName) ==> r[j] == books[j]
  {
    var entry := Stored(shelfId, fileName, book);
    var i := PathIndex(books, entry.filePath);
    if i >= 0 then
      var r := books[i := entry];
      assert forall j :: 0 <= j < i ==> r[j] == books[j];
      PathIndexAt(r, entry.filePath, i);
      r
    else
      var r := books + [entry];
      assert forall j :: 0 <= j < |books| ==> r[j] == books[j];
      PathIndexAt(r, entry.filePath, |books|);
      r
  }

  /** `getById`: the record without its four meta fields, or the error for
      a path that is not stored. */
  function BookById(books: seq<BookWithMeta>, filePath: string): (r: Result<Book, string>)
    ensures r.Failure? <==> forall j :: 0 <= j < |books| ==> books[j].filePath != filePath
    ensures r.Failure? ==> r.error == BookNotFound(filePath)
    ensures r.Success? ==> exists j :: 0 <= j < |books| && books[j].filePath == filePath && books[j].book == r.value
  {
    var i := PathIndex(books, filePath);
    if i < 0 then Failure(BookNotFound(filePath)) else Success(books[i].book)
  }

  /** What `save` stores under the path it returns is what `getById` reads. */
  lemma SaveThenGet(books: seq<BookWithMeta>, shelfId: string, fileName: string, book: Book)
    ensures BookById(SaveInto(books, shelfId, fileName, book), MockPath(shelfId, fileName)) == Success(book)
  {
  }

  predicate OtherPath(filePath: string, b: BookWithMeta) {
    b.filePath != filePath
  }

  /** `delete`: keep every entry with another path, in order. */
  function DeleteFrom(books: seq<BookWithMeta>, filePath: string): (r: seq<BookWithMeta>)
    ensures forall j :: 0 <= j < |r| ==> r[j].filePath != filePath
    ensures IsSubsequence(r, books)
    ensures forall b: BookWithMeta :: b.filePath != filePath ==> multiset(r)[b] == multiset(books)[b]
  {
    var r := Filter(books, (b: BookWithMeta) => OtherPath(filePath, b));
    assert forall j :: 0 <= j < |r| ==> r[j] in r;
    r
  }

  /** Deleting a path that is not stored changes nothing, so deleting twice
      is deleting once. */
  lemma DeleteIdempotent(books: seq<BookWithMeta>, filePath: string)
    ensures DeleteFrom(DeleteFrom(books, filePath), filePath) == DeleteFrom(books, filePath)
    ensures (forall j :: 0 <= j < |books| ==> books[j].filePath != filePath) ==> DeleteFrom(books, filePath) == books
  {
    FilterAll(DeleteFrom(books, filePath), (b: BookWithMeta) => OtherPath(filePath, b));
    if forall j :: 0 <= j < |books| ==> books[j].filePath != filePath {
      FilterAll(books, (b: BookWithMeta) => OtherPath(filePath, b));
    }
  }

  /** `move`: the entry with that path gets the target shelf in its path,
      id and label and keeps its file name; nothing else changes. An
      unknown path throws. */
  function MoveIn(books: seq<BookWithMeta>, filePath: string, targetShelfId: string)
    : (r: Result<(seq<BookWithMeta>, string), string>)
    ensures r.Failure? <==> forall j :: 0 <= j < |books| ==> books[j].filePath != filePath
    ensures r.Failure? ==> r.error == BookNotFound(filePath)
    ensures r.Success? ==>
      var (after, newPath) := r.value;
      var i := PathIndex(books, filePath);
      && |after| == |books|
      && (forall j :: 0 <= j < |books| && j != i ==> after[j] == books[j])
      && after[i] == books[i].(filePath := newPath, shelfId := targetShelfId, shelfLabel := targetShelfId)
      && newPath == MockPath(targetShelfId, books[i].fileName)
  {
    var i := PathIndex(books, filePath);
    if i < 0 then Failure(BookNotFound(filePath))
    else
      var b := books[i];
      var newPath := MockPath(targetShelfId, b.fileName);
      Success((books[i := b.(filePath := newPath, shelfId := targetShelfId, shelfLabel := targetShelfId)], newPath))
  }

  /** After a move the new path reads the moved record, unless an entry
      earlier in the store already had that path. */
  lemma MoveKeepsRecord(books: seq<BookWithMeta>, filePath: string, targetShelfId: string)
    requires MoveIn(books, filePath, targetShelfId).Success?
    ensures var (after, newPath) := MoveIn(books, filePath, targetShelfId).value;
      var i := PathIndex(books, filePath);
      BookById(after, newPath) == Success(books[i].book) || 0 <= PathIndex(after, newPath) < i
  {
    var (after, newPath) := MoveIn(books, filePath, targetShelfId).value;
    var i := PathIndex(books, filePath);
    assert after[i].filePath == newPath;
  }

  class MockBookRepository {
    var books: seq<BookWithMeta>

    constructor()
      ensures books == []
    {
      books := [];
    }

    /** `setBooks`: the store becomes a copy of the given list. */
    method SetBooks(bs: seq<BookWithMeta>)
      modifies this
      ensures books == bs
    {
      books := bs;
    }

    /** `getAll`: a copy of the store. */
    method GetAll() returns (r: seq<BookWithMeta>)
      ensures r == books
    {
      r := books;
    }

    method GetById(filePath: string) returns (r: Result<Book, string>)
      ensures r == BookById(books, filePath)
    {
      var i := PathIndex(books, filePath);
      if i < 0 {
        return Failure(BookNotFound(filePath));
      }
      return Success(books[i].book);
    }

    method Save(shelfId: string, fileName: string, book: Book) returns (filePath: string)
      modifies this
      ensures filePath == MockPath(shelfId, fileName)
      ensures books == SaveInto(old(books), shelfId, fileName, book)
    {
      filePath := MockPath(shelfId, fileName);
      var existingIndex := PathIndex(books, filePath);
      var entry := BookWithMeta(book, filePath, fileName, shelfId, shelfId);
      if existingIndex >= 0 {
        books := books[existingIndex := entry];
      } else {
        books := books + [entry];
      }
    }

    method Delete(filePath: string)
      modifies this
      ensures books == DeleteFrom(old(books), filePath)
    {
      books := Filter(books, (b: BookWithMeta) => OtherPath(filePath, b));
    }

    method Move(filePath: string, targetShelfId: string) returns (r: Result<string, string>)
      modifies this
      ensures MoveIn(old(books), filePath, targetShelfId).Failure? ==>
        books == old(books) && r == Failure(BookNotFound(filePath))
      ensures MoveIn(old(books), filePath, targetShelfId).Success? ==>
        books == MoveIn(old(books), filePath, targetShelfId).value.0
        && r == Success(MoveIn(old(books), filePath, targetShelfId).value.1)
    {
      var bookIndex := PathIndex(books, filePath);
      if bookIndex < 0 {
        return Failure(BookNotFound(filePath));
      }
      var book := books[bookIndex];
      var newFilePath := MockPath(targetShelfId, book.fileName);
      books := books[bookIndex := book.(filePath := newFilePath, shelfId := targetShelfId, shelfLabel := targetShelfId)];
      return Success(newFilePath);
    }
  }

  // ---------------------------------------------------------------------
  // `MockShelfRepository`.

  function ShelfExists(id: string): string {
    "Shelf already exists: " + id
  }

  function ShelfMissing(id: string): string {
    "Shelf not found: " + id
  }

  /** `create`: a duplicate id throws and leaves the list alone; otherwise
      the shelf goes to the end. */
  function CreateIn(shelves: seq<Shelf>, shelf: Shelf): (r: Result<seq<Shelf>, string>)
    ensures r.Failure? <==> HasShelf(shelves, shelf.id)
    ensures r.Failure? ==> r.error == ShelfExists(shelf.id)
    ensures r.Success? ==> r.value == shelves + [shelf]
  {
    if FindShelf(shelves, shelf.id).Some? then Failure(ShelfExists(shelf.id)) else Success(shelves + [shelf])
  }

  /** Creating keeps the ids unique. */
  lemma CreateKeepsUnique(shelves: seq<Shelf>, shelf: Shelf)
    requires UniqueIds(shelves) && CreateIn(shelves, shelf).Success?
    ensures UniqueIds(CreateIn(shelves, shelf).value)
  {
    var r := shelves + [shelf];
    forall i, j | 0 <= i < j < |r| ensures r[i].id != r[j].id {
      if j == |shelves| {
        assert r[i] == shelves[i];
      } else {
        assert r[i] == shelves[i] && r[j] == shelves[j];
      }
    }
  }

  /** `delete`: `splice(index, 1)` at the first shelf with the id; an
      unknown id throws. */
  function DeleteIn(shelves: seq<Shelf>, id: string): (r: Result<seq<Shelf>, string>)
    ensures r.Failure? <==> !HasShelf(shelves, id)
    ensures r.Failure? ==> r.error == ShelfMissing(id)
    ensures r.Success? ==> |r.value| == |shelves| - 1 && ShelfIndex(shelves, id) >= 0
    ensures r.Success? ==>
      var i := ShelfIndex(shelves, id);
      r.value[..i] == shelves[..i] && r.value[i..] == shelves[i + 1..]
  {
    var i := ShelfIndex(shelves, id);
    if i < 0 then Failure(ShelfMissing(id))
    else
      var r := shelves[..i] + shelves[i + 1..];
      assert r[..i] == shelves[..i] && r[i..] == shelves[i + 1..];
      Success(r)
  }

  /** Deleting keeps the ids unique and removes the id. */
  lemma DeleteRemovesId(shelves: seq<Shelf>, id: string)
    requires UniqueIds(shelves) && DeleteIn(shelves, id).Success?
    ensures UniqueIds(DeleteIn(shelves, id).value)
    ensures !HasShelf(DeleteIn(shelves, id).value, id)
  {
    var i := ShelfIndex(shelves, id);
    var r := DeleteIn(shelves, id).value;
    assert r == shelves[..i] + shelves[i + 1..];
    forall a, b | 0 <= a < b < |r| ensures r[a].id != r[b].id {
      assert r[a] == shelves[if a < i then a else a + 1];
      assert r[b] == shelves[if b < i then b else b + 1];
    }
    forall k | 0 <= k < |r| ensures r[k].id != id {
      assert r[k] == shelves[if k < i then k else k + 1];
    }
  }

  /** `reorder`: the shelf found for each id, in the order of the ids; an
      id without a shelf is skipped. */
  function Reordered(shelves: seq<Shelf>, ids: seq<string>): (r: seq<Shelf>)
    ensures |r| <= |ids|
    ensures forall x :: x in r ==> x in shelves
  {
    if ids == [] then []
    else
      var prev := Reordered(shelves, ids[..|ids| - 1]);
      match FindShelf(shelves, ids[|ids| - 1])
      case None => prev
      case Some(s) => prev + [s]
  }

  /** When every id names a shelf, the new list carries exactly those ids,
      in that order. */
  lemma {:induction false} ReorderedIds(shelves: seq<Shelf>, ids: seq<string>)
    requires forall k :: 0 <= k < |ids| ==> HasShelf(shelves, ids[k])
    ensures Ids(Reordered(shelves, ids)) == ids
  {
    if ids != [] {
      var init := ids[..|ids| - 1];
      ReorderedIds(shelves, init);
      var s := FindShelf(shelves, ids[|ids| - 1]).value;
      var prev := Reordered(shelves, init);
      assert Reordered(shelves, ids) == prev + [s];
      var a := Ids(prev + [s]);
      assert |a| == |ids|;
      forall k | 0 <= k < |a| ensures a[k] == ids[k] {
        if k < |prev| {
          assert (prev + [s])[k] == prev[k];
          assert Ids(prev)[k] == init[k];
        }
      }
    }
  }

  /** Reordering a list of unique ids by its own ids gives it back. */
  lemma {:induction false} ReorderedSame(shelves: seq<Shelf>, n: nat)
    requires UniqueIds(shelves) && n <= |shelves|
    ensures Reordered(shelves, Ids(shelves)[..n]) == shelves[..n]
  {
    if n > 0 {
      ReorderedSame(shelves, n - 1);
      FindOwnShelf(shelves, n - 1);
      ReorderedSameStep(shelves, n);
    }
  }

  lemma ReorderedSameStep(shelves: seq<Shelf>, n: nat)
    requires 0 < n <= |shelves|
    requires Reordered(shelves, Ids(shelves)[..n - 1]) == shelves[..n - 1]
    requires FindShelf(shelves, shelves[n - 1].id) == Some(shelves[n - 1])
    ensures Reordered(shelves, Ids(shelves)[..n]) == shelves[..n]
  {
    var ids := Ids(shelves)[..n];
    IdsPrefix(shelves, n);
    IdsLast(shelves, n);
    ReorderedFound(shelves, ids, shelves[n - 1]);
    TakeSnoc(shelves, n);
  }

  lemma IdsPrefix(shelves: seq<Shelf>, n: nat)
    requires 0 < n <= |shelves|
    ensures Ids(shelves)[..n][..n - 1] == Ids(shelves)[..n - 1]
  {
  }

  lemma IdsLast(shelves: seq<Shelf>, n: nat)
    requires 0 < n <= |shelves|
    ensures Ids(shelves)[..n][n - 1] == shelves[n - 1].id
  {
  }

  /** With unique ids, looking up a shelf's own id finds that shelf. */
  lemma FindOwnShelf(shelves: seq<Shelf>, i: nat)
    requires UniqueIds(shelves) && i < |shelves|
    ensures FindShelf(shelves, shelves[i].id) == Some(shelves[i])
  {
    var id := shelves[i].id;
    assert HasShelf(shelves, id);
    var k := ShelfIndex(shelves, id);
    assert k == i;
  }

  /** An id that names a shelf appends that shelf. */
  lemma ReorderedFound(shelves: seq<Shelf>, ids: seq<string>, s: Shelf)
    requires ids != [] && FindShelf(shelves, ids[|ids| - 1]) == Some(s)
    ensures Reordered(shelves, ids) == Reordered(shelves, ids[..|ids| - 1]) + [s]
  {
  }


  class MockShelfRepository {
    var shelves: seq<Shelf>

    constructor()
      ensures shelves == []
    {
      shelves := [];
    }

    method SetShelves(s: seq<Shelf>)
      modifies this
      ensures shelves == s
    {
      shelves := s;
    }

    method GetShelves() returns (r: seq<Shelf>)
      ensures r == shelves
    {
      r := shelves;
    }

    method Create(shelf: Shelf) returns (r: Result<(), string>)
      modifies this
      ensures CreateIn(old(shelves), shelf).Failure? ==>
        shelves == old(shelves) && r == Failure(CreateIn(old(shelves), shelf).error)
      ensures CreateIn(old(shelves), shelf).Success? ==>
        shelves == CreateIn(old(shelves), shelf).value && r == Success(())
    {
      if FindShelf(shelves, shelf.id).Some? {
        return Failure(ShelfExists(shelf.id));
      }
      shelves := shelves + [shelf];
      return Success(());
    }

    method Delete(shelfId: string) returns (r: Result<(), string>)
      modifies this
      ensures DeleteIn(old(shelves), shelfId).Failure? ==>
        shelves == old(shelves) && r == Failure(DeleteIn(old(shelves), shelfId).error)
      ensures DeleteIn(old(shelves), shelfId).Success? ==>
        shelves == DeleteIn(old(shelves), shelfId).value && r == Success(())
    {
      var index := ShelfIndex(shelves, shelfId);
      if index < 0 {
        return Failure(ShelfMissing(shelfId));
      }
      shelves := shelves[..index] + shelves[index + 1..];
      return Success(());
    }

    /** `reorder`: the loop that pushes the shelf found for each id. */
    method Reorder(shelfIds: seq<string>)
      modifies this
      ensures shelves == Reordered(old(shelves), shelfIds)
    {
      var reordered: seq<Shelf> := [];
      for k := 0 to |shelfIds|
        invariant reordered == Reordered(shelves, shelfIds[..k])
      {
        assert shelfIds[..k + 1][..k] == shelfIds[..k];
        var shelf := FindShelf(shelves, shelfIds[k]);
        if shelf.Some? {
          reordered := reordered + [shelf.value];
        }
      }
      assert shelfIds[..|shelfIds|] == shelfIds;
      shelves := reordered;
    }
  }

  // ---------------------------------------------------------------------
  // `MockCoverRepository`.

  /** `books/covers/${fileName}`. */
  function CoverPath(fileName: string): string {
    "books/covers/" + fileName
  }

  /** The calls that change the cover map. */
  datatype CoverOp = Fetch(url: string, fileName: string) | Remove(coverPath: string)

  predicate Touches(op: CoverOp, p: string) {
    match op
    case Fetch(_, f) => CoverPath(f) == p
    case Remove(q) => q == p
  }

  /** The cover map after a run of calls on an empty one. */
  function Replay(ops: seq<CoverOp>): map<string, string> {
    if ops == [] then map[]
    else
      var m := Replay(ops[..|ops| - 1]);
      match ops[|ops| - 1]
      case Fetch(url, f) => m[CoverPath(f) := url]
      case Remove(p) => m - {p}
  }

  /** The last call that touched a path. */
  function LastTouch(ops: seq<CoverOp>, p: string): (r: Option<nat>)
    ensures r.Some? ==> r.value < |ops| && Touches(ops[r.value], p)
                        && forall j :: r.value < j < |ops| ==> !Touches(ops[j], p)
    ensures r.None? ==> forall j :: 0 <= j < |ops| ==> !Touches(ops[j], p)
  {
    if ops == [] then None
    else if Touches(ops[|ops| - 1], p) then Some(|ops| - 1)
    else LastTouch(ops[..|ops| - 1], p)
  }

  /** The map holds exactly the paths whose last call was a download, each
      with the URL of that download. */
  lemma {:induction false} ReplayLastTouch(ops: seq<CoverOp>, p: string)
    ensures p in Replay(ops) <==> LastTouch(ops, p).Some? && ops[LastTouch(ops, p).value].Fetch?
    ensures p in Replay(ops) ==> Replay(ops)[p] == ops[LastTouch(ops, p).value].url
  {
    if ops != [] {
      ReplayLastTouch(ops[..|ops| - 1], p);
    }
  }

  class MockCoverRepository {
    var covers: map<string, string>
    /** The calls made so far. */
    ghost var history: seq<CoverOp>

    ghost predicate Valid()
      reads this
    {
      covers == Replay(history)
    }

    constructor()
      ensures Valid() && covers == map[] && history == []
    {
      covers := map[];
      history := [];
    }

    /** `download`: the map sends the cover's path to the URL. */
    method Download(url: string, fileName: string) returns (coverPath: string)
      requires Valid()
      modifies this
      ensures Valid() && history == old(history) + [Fetch(url, fileName)]
      ensures coverPath == CoverPath(fileName) && covers == old(covers)[coverPath := url]
    {
      coverPath := CoverPath(fileName);
      covers := covers[coverPath := url];
      history := history + [Fetch(url, fileName)];
      assert history[..|history| - 1] == old(history);
    }

    /** `delete`: the key goes, whether or not it was there. */
    method Delete(coverPath: string)
      requires Valid()
      modifies this
      ensures Valid() && history == old(history) + [Remove(coverPath)]
      ensures covers == old(covers) - {coverPath}
    {
      covers := covers - {coverPath};
      history := history + [Remove(coverPath)];
      assert history[..|history| - 1] == old(history);
    }

    method GetCovers() returns (r: map<string, string>)
      ensures r == covers
    {
      r := covers;
    }
  }

  // ---------------------------------------------------------------------
  // `MockSettingsRepository`.

  /** The settings the app keeps: where the library lives, `None` before
      one is chosen. */
  datatype AppSettings = AppSettings(libraryPath: Option<string>)

  datatype LibraryValidation = LibraryValidation(isValid: bool, isEmpty: bool)

  const MockLibrary := "/mock/library"

  /** `validateLibraryPath`: valid exactly for a registered path, and a
      folder that is not valid counts as empty. */
  function Validate(validPaths: set<string>, path: string): (v: LibraryValidation)
    ensures v.isValid <==> path in validPaths
    ensures v.isEmpty <==> !v.isValid
  {
    LibraryValidation(path in validPaths, path !in validPaths)
  }

  class MockSettingsRepository {
    var settings: AppSettings
    var validPaths: set<string>
    /** What the folder picker answers; `None` is `null`. */
    var selectedPath: Option<string>

    /** Initially the library is `/mock/library`, the only valid path, and
        the picker answers `null`. */
    constructor()
      ensures settings == AppSettings(Some(MockLibrary)) && validPaths == {MockLibrary} && selectedPath.None?
      ensures Validate(validPaths, settings.libraryPath.value).isValid
    {
      settings := AppSettings(Some(MockLibrary));
      validPaths := {MockLibrary};
      selectedPath := None;
    }

    method SetSettings(s: AppSettings)
      modifies this
      ensures settings == s && validPaths == old(validPaths) && selectedPath == old(selectedPath)
    {
      settings := s;
    }

    /** `setValidPaths`: the valid set is replaced, not extended. */
    method SetValidPaths(paths: seq<string>)
      modifies this
      ensures validPaths == set p | p in paths
      ensures settings == old(settings) && selectedPath == old(selectedPath)
    {
      validPaths := set p | p in paths;
    }

    method SetSelectedPath(path: Option<string>)
      modifies this
      ensures selectedPath == path && settings == old(settings) && validPaths == old(validPaths)
    {
      selectedPath := path;
    }

    method Get() returns (s: AppSettings)
      ensures s == settings
    {
      s := settings;
    }

    method Save(s: AppSettings)
      modifies this
      ensures settings == s && validPaths == old(validPaths) && selectedPath == old(selectedPath)
    {
      settings := s;
    }

    method SelectLibraryPath() returns (r: Option<string>)
      ensures r == selectedPath
    {
      r := selectedPath;
    }

    method ValidateLibraryPath(path: string) returns (v: LibraryValidation)
      ensures v == Validate(validPaths, path)
    {
      var isValid := path in validPaths;
      v := LibraryValidation(isValid, !isValid);
    }

    /** `initializeLibrary` always reports success. */
    method InitializeLibrary(path: string) returns (success: bool)
      ensures success
    {
      success := true;
    }
  }

  // ---------------------------------------------------------------------
  // `MockBuildRepository`.

  datatype BuildResult = BuildResult(success: bool, message: string)

  datatype PreviewServer = PreviewServer(port: int, url: string)

  const MockPort := 8080
  const MockUrl := "http://localhost:8080"

  class MockBuildRepository {
    var buildResult: BuildResult
    var serverRunning: bool
    var sitePath: string
    var distPath: string

    constructor()
      ensures !serverRunning && buildResult == BuildResult(true, "Built successfully")
      ensures sitePath == "/mock/site" && distPath == "/mock/site/dist"
    {
      buildResult := BuildResult(true, "Built successfully");
      serverRunning := false;
      sitePath := "/mock/site";
      distPath := "/mock/site/dist";
    }

    method SetBuildResult(result: BuildResult)
      modifies this
      ensures buildResult == result
      ensures serverRunning == old(serverRunning) && sitePath == old(sitePath) && distPath == old(distPath)
    {
      buildResult := result;
    }

    method SetSitePath(path: string)
      modifies this
      ensures sitePath == path
      ensures buildResult == old(buildResult) && serverRunning == old(serverRunning) && distPath == old(distPath)
    {
      sitePath := path;
    }

    method SetDistPath(path: string)
      modifies this
      ensures distPath == path
      ensures buildResult == old(buildResult) && serverRunning == old(serverRunning) && sitePath == old(sitePath)
    {
      distPath := path;
    }

    /** `build` answers the configured result whatever it is asked. */
    method Build(useSampleData: Option<bool>) returns (r: BuildResult)
      ensures r == buildResult
    {
      r := buildResult;
    }

    method StartPreviewServer() returns (server: PreviewServer)
      modifies this
      ensures serverRunning && server == PreviewServer(MockPort, MockUrl)
      ensures buildResult == old(buildResult) && sitePath == old(sitePath) && distPath == old(distPath)
    {
      serverRunning := true;
      server := PreviewServer(8080, "http://localhost:8080");
    }

    /** Stopping also when nothing runs leaves the flag cleared. */
    method StopPreviewServer()
      modifies this
      ensures !serverRunning
      ensures buildResult == old(buildResult) && sitePath == old(sitePath) && distPath == old(distPath)
    {
      serverRunning := false;
    }

    method GetSitePath() returns (r: string)
      ensures r == sitePath
    {
      r := sitePath;
    }

    method GetDistPath() returns (r: string)
      ensures r == distPath
    {
      r := distPath;
    }

    method IsServerRunning() returns (r: bool)
      ensures r == serverRunning
    {
      r := serverRunning;
    }
  }
}
