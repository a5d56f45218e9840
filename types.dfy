/** The records the library is made of: a book, a book together with where it
    is stored, a shelf and the site configuration. */
module Types {
  import opened Wrappers

  /** One book record, as stored in its own JSON document. Optional fields are
      `None` when absent; `clickBehavior` is kept as the stored string, which
      the admin writes as "overlay" or "redirect". */
  datatype Book = Book(
    title: string,
    author: string,
    category: string,
    publishDate: string,
    pages: Option<int>,
    cover: Option<string>,
    coverLocal: Option<string>,
    notes: Option<string>,
    link: Option<string>,
    clickBehavior: string)

  /** A book together with the file holding it and the shelf it sits on. */
  datatype BookWithMeta = BookWithMeta(
    book: Book,
    filePath: string,
    fileName: string,
    shelfId: string,
    shelfLabel: string)

  /** A shelf: its id, its display label (`label` in the source; `label` is a Dafny keyword) and its folder. */
  datatype Shelf = Shelf(id: string, name: string, folder: string)

  datatype Config = Config(
    siteTitle: string,
    siteSubtitle: string,
    footerText: string,
    shelves: seq<Shelf>)

  /** `shelves.some(s => s.id === id)`. */
  predicate HasShelf(shelves: seq<Shelf>, id: string) {
    exists i :: 0 <= i < |shelves| && shelves[i].id == id
  }

  /** `shelves.findIndex(s => s.id === id)`: the first shelf with that id, or -1. */
  function ShelfIndex(shelves: seq<Shelf>, id: string): (i: int)
    ensures -1 <= i < |shelves|
    ensures i >= 0 ==> shelves[i].id == id && forall j :: 0 <= j < i ==> shelves[j].id != id
    ensures i == -1 <==> !HasShelf(shelves, id)
  {
    if |shelves| == 0 then -1
    else if shelves[0].id == id then 0
    else
      var k := ShelfIndex(shelves[1..], id);
      assert HasShelf(shelves, id) ==> HasShelf(shelves[1..], id) by {
        if HasShelf(shelves, id) {
          var j :| 0 <= j < |shelves| && shelves[j].id == id;
          assert shelves[1..][j - 1].id == id;
        }
      }
      if k == -1 then -1 else k + 1
  }

  /** `shelves.find(s => s.id === id)`. */
  function FindShelf(shelves: seq<Shelf>, id: string): (r: Option<Shelf>)
    ensures r.None? <==> !HasShelf(shelves, id)
    ensures r.Some? ==> r.value == shelves[ShelfIndex(shelves, id)]
  {
    var i := ShelfIndex(shelves, id);
    if i < 0 then None else Some(shelves[i])
  }

  /** No two shelves share an id. */
  predicate UniqueIds(shelves: seq<Shelf>) {
    forall i, j :: 0 <= i < j < |shelves| ==> shelves[i].id != shelves[j].id
  }

  function Ids(shelves: seq<Shelf>): (r: seq<string>)
    ensures |r| == |shelves|
    ensures forall i :: 0 <= i < |shelves| ==> r[i] == shelves[i].id
  {
    if shelves == [] then [] else [shelves[0].id] + Ids(shelves[1..])
  }

  /** `books.map(b => b.filePath)`. */
  function FilePaths(books: seq<BookWithMeta>): (r: seq<string>)
    ensures |r| == |books|
    ensures forall i :: 0 <= i < |books| ==> r[i] == books[i].filePath
  {
    if books == [] then [] else [books[0].filePath] + FilePaths(books[1..])
  }

  /** `books.findIndex(b => b.filePath === filePath)`. */
  function PathIndex(books: seq<BookWithMeta>, filePath: string): (i: int)
    ensures -1 <= i < |books|
    ensures i >= 0 ==> books[i].filePath == filePath && forall j :: 0 <= j < i ==> books[j].filePath != filePath
    ensures i == -1 ==> forall j :: 0 <= j < |books| ==> books[j].filePath != filePath
  {
    if books == [] then -1
    else if books[0].filePath == filePath then 0
    else
      var k := PathIndex(books[1..], filePath);
      if k == -1 then -1 else k + 1
  }

  /** The first entry with a path is found. */
  lemma PathIndexAt(books: seq<BookWithMeta>, filePath: string, i: nat)
    requires i < |books| && books[i].filePath == filePath
    requires forall j :: 0 <= j < i ==> books[j].filePath != filePath
    ensures PathIndex(books, filePath) == i
  {
    assert books[i].filePath == filePath;
  }
}
