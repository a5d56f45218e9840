/** How the desktop engine lays the library out on disk and reads it back:
    the site folder holds `config.json`, the `books` folder with one
    sub-folder per shelf, `books-sample` and the build output `dist`. */
module LibraryStore {
  import opened Wrappers
  import opened Text
  import opened Types
  import opened Seqs
  import opened Files

  function BooksDir(site: Path): (r: Path)
    ensures PlainPath(site) ==> PlainPath(r)
  {
    site + ["books"]
  }
  function SampleDir(site: Path): (r: Path)
    ensures PlainPath(site) ==> PlainPath(r)
  {
    site + ["books-sample"]
  }
  function DistDir(site: Path): (r: Path)
    ensures PlainPath(site) ==> PlainPath(r)
  {
    site + ["dist"]
  }
  function ConfigPath(site: Path): (r: Path)
    ensures PlainPath(site) ==> PlainPath(r)
  {
    site + ["config.json"]
  }

  /** A stored record tagged with where it came from. */
  function WithMeta(book: Book, path: Path, fileName: string, shelf: Shelf): BookWithMeta {
    BookWithMeta(book, Render(path), fileName, shelf.id, shelf.name)
  }

  /** The records among `names` in `dir` that parse, in listing order; a file
      that does not parse is skipped. */
  function ShelfRecords(fs: FileSystem, dir: Path, shelf: Shelf, names: seq<string>): seq<BookWithMeta>
    requires PlainPath(dir)
  {
    if names == [] then []
    else
      var prev := ShelfRecords(fs, dir, shelf, names[..|names| - 1]);
      var n := names[|names| - 1];
      var p := Join(dir, n);
      match ReadBook(fs, p)
      case Success(b) => prev + [WithMeta(b, p, n, shelf)]
      case Failure(_) => prev
  }

  /** One shelf's records: none when its folder is missing; listing a folder
      that is a file fails. */
  function ShelfBooks(fs: FileSystem, books: Path, shelf: Shelf, order: set<string> -> seq<string>)
    : Result<seq<BookWithMeta>, string>
    requires PlainPath(books)
  {
    var dir := Join(books, shelf.folder);
    if !Exists(fs, dir) then Success([])
    else
      var names :- ListDir(fs, dir, order);
      Success(ShelfRecords(fs, dir, shelf, JsonNames(names)))
  }

  /** The records of every shelf, shelf by shelf in configuration order. */
  function AllBooks(fs: FileSystem, books: Path, shelves: seq<Shelf>, order: set<string> -> seq<string>)
    : Result<seq<BookWithMeta>, string>
    requires PlainPath(books)
  {
    if shelves == [] then Success([])
    else
      var prev :- AllBooks(fs, books, shelves[..|shelves| - 1], order);
      var here :- ShelfBooks(fs, books, shelves[|shelves| - 1], order);
      Success(prev + here)
  }

  /** `book` is the record stored under `fileName` in `shelf`'s folder. */
  predicate StoredIn(fs: FileSystem, books: Path, shelf: Shelf, bm: BookWithMeta)
    requires PlainPath(books)
  {
    var p := Join(Join(books, shelf.folder), bm.fileName);
    && bm.shelfId == shelf.id
    && bm.shelfLabel == shelf.name
    && IsJsonName(bm.fileName)
    && ReadBook(fs, p) == Success(bm.book)
    && bm.filePath == Render(p)
  }

  lemma {:induction false} ShelfRecordsSound(fs: FileSystem, books: Path, shelf: Shelf, names: seq<string>)
    requires PlainPath(books)
    requires forall n :: n in names ==> IsJsonName(n)
    ensures forall bm :: bm in ShelfRecords(fs, Join(books, shelf.folder), shelf, names) ==> StoredIn(fs, books, shelf, bm)
  {
    if names != [] {
      ShelfRecordsSound(fs, books, shelf, names[..|names| - 1]);
    }
  }

  /** Every enumerated record is a parsed `.json` file of one of the shelves,
      tagged with that shelf's id and label. */
  lemma {:induction false} AllBooksSound(fs: FileSystem, books: Path, shelves: seq<Shelf>, order: set<string> -> seq<string>)
    requires PlainPath(books)
    requires AllBooks(fs, books, shelves, order).Success?
    ensures forall bm :: bm in AllBooks(fs, books, shelves, order).value ==>
      exists i :: 0 <= i < |shelves| && StoredIn(fs, books, shelves[i], bm)
  {
    if shelves != [] {
      var init := shelves[..|shelves| - 1];
      var last := shelves[|shelves| - 1];
      AllBooksSound(fs, books, init, order);
      var dir := Join(books, last.folder);
      if Exists(fs, dir) {
        var names := ListDir(fs, dir, order).value;
        forall n | n in JsonNames(names) ensures IsJsonName(n) {
          FilterMembers(names, IsJsonName, n);
        }
        ShelfRecordsSound(fs, books, last, JsonNames(names));
      }
      forall bm | bm in AllBooks(fs, books, shelves, order).value
        ensures exists i :: 0 <= i < |shelves| && StoredIn(fs, books, shelves[i], bm)
      {
        if bm in AllBooks(fs, books, init, order).value {
          var i :| 0 <= i < |init| && StoredIn(fs, books, init[i], bm);
          assert shelves[i] == init[i];
        } else {
          assert StoredIn(fs, books, shelves[|shelves| - 1], bm);
        }
      }
    }
  }

  lemma {:induction false} ShelfRecordsComplete(fs: FileSystem, dir: Path, shelf: Shelf, names: seq<string>, n: string)
    requires PlainPath(dir) && n in names
    requires ReadBook(fs, Join(dir, n)).Success?
    ensures WithMeta(ReadBook(fs, Join(dir, n)).value, Join(dir, n), n, shelf) in ShelfRecords(fs, dir, shelf, names)
  {
    if names[|names| - 1] != n {
      assert n in names[..|names| - 1] by {
        var k :| 0 <= k < |names| && names[k] == n;
        assert names[..|names| - 1][k] == n;
      }
      ShelfRecordsComplete(fs, dir, shelf, names[..|names| - 1], n);
    }
  }

  /** Every `.json` file that parses, in the folder of a listed shelf, is
      enumerated with that shelf's tags. */
  lemma {:induction false} AllBooksComplete(fs: FileSystem, books: Path, shelves: seq<Shelf>,
                                            order: set<string> -> seq<string>, i: int, n: string)
    requires Valid(fs) && Lister(order) && PlainPath(books)
    requires AllBooks(fs, books, shelves, order).Success?
    requires 0 <= i < |shelves| && PlainName(n) && IsJsonName(n)
    requires ReadBook(fs, Join(books, shelves[i].folder) + [n]).Success?
    ensures WithMeta(ReadBook(fs, Join(books, shelves[i].folder) + [n]).value,
                     Join(books, shelves[i].folder) + [n], n, shelves[i])
            in AllBooks(fs, books, shelves, order).value
  {
    var init := shelves[..|shelves| - 1];
    var last := shelves[|shelves| - 1];
    var prev := AllBooks(fs, books, init, order).value;
    var here := ShelfBooks(fs, books, last, order).value;
    assert AllBooks(fs, books, shelves, order).value == prev + here;
    var dir := Join(books, shelves[i].folder);
    var p := dir + [n];
    var bm := WithMeta(ReadBook(fs, p).value, p, n, shelves[i]);
    if i < |shelves| - 1 {
      assert init[i] == shelves[i];
      AllBooksComplete(fs, books, init, order, i, n);
      assert bm in prev;
    } else {
      JoinName(dir, n);
      EntriesMember(fs, dir, n);
      assert p[..|p| - 1] == dir;
      var names := order(Entries(fs, dir));
      assert n in names;
      FilterMembers(names, IsJsonName, n);
      ShelfRecordsComplete(fs, dir, shelves[i], JsonNames(names), n);
      assert here == ShelfRecords(fs, dir, last, JsonNames(names));
      assert bm in here;
    }
  }

  /** `get-books`: the configuration is read first; its failure is the
      handler's failure. */
  function GetBooks(fs: FileSystem, site: Path, order: set<string> -> seq<string>)
    : Result<seq<BookWithMeta>, string>
    requires PlainPath(site)
  {
    var config :- ReadConfig(fs, ConfigPath(site));
    AllBooks(fs, BooksDir(site), config.shelves, order)
  }

  /** The number of `.json` names a listing reports is the number of such
      entries in the directory. */
  lemma JsonCount(names: set<string>, order: set<string> -> seq<string>)
    requires Lister(order)
    ensures |JsonNames(order(names))| == |set n | n in names && IsJsonName(n)|
  {
    var s := order(names);
    var js := JsonNames(s);
    forall n ensures n in js <==> n in names && IsJsonName(n) {
      FilterMembers(s, IsJsonName, n);
    }
    FilterDistinct(s, IsJsonName);
    DistinctCard(js);
    assert (set n | n in js) == (set n | n in names && IsJsonName(n));
  }

  lemma {:induction false} FilterDistinct(s: seq<string>, keep: string -> bool)
    requires Distinct(s)
    ensures Distinct(Filter(s, keep))
  {
    if s != [] {
      FilterDistinct(s[1..], keep);
      var rest := Filter(s[1..], keep);
      if keep(s[0]) {
        FilterMembers(s[1..], keep, s[0]);
        HeadNotInTail(s);
        assert Filter(s, keep) == [s[0]] + rest;
        ConsDistinct(s[0], rest);
      }
    }
  }

  lemma HeadNotInTail(s: seq<string>)
    requires Distinct(s) && s != []
    ensures s[0] !in s[1..]
  {
  }

  lemma ConsDistinct(x: string, rest: seq<string>)
    requires Distinct(rest) && x !in rest
    ensures Distinct([x] + rest)
  {
    var r := [x] + rest;
    forall i, j | 0 <= i < j < |r| ensures r[i] != r[j] {
      if i == 0 {
        assert r[j] in rest;
      } else {
        assert r[i] == rest[i - 1] && r[j] == rest[j - 1];
      }
    }
  }

  /** A sequence without repeats has as many elements as its set. */
  lemma {:induction false} DistinctCard(s: seq<string>)
    requires Distinct(s)
    ensures |s| == |set x | x in s|
  {
    if s != [] {
      DistinctCard(s[1..]);
      assert s[0] !in s[1..];
      assert (set x | x in s) == (set x | x in s[1..]) + {s[0]};
    }
  }
}
