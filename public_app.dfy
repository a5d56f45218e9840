/** The public site's script: the shelf a fetched book is put on, the
    grouping of books into the three shelves, the "Show more" split of the
    good shelf, the cutting of a shelf into rows, and what activating a book
    shows. The network is a parameter: `fetch(path)` is the parsed book of a
    successful response, `None` for a failed one. */
module PublicApp {
  import opened Wrappers
  import opened Types
  import opened Text
  import opened Seqs
  import Files
  import CliBuild

  const BooksPerShelf := 6
  const InitialBooksToShow := 12
  /** The shelves the page shows, in the order it shows them. */
  const ShelfOrder: seq<string> := ["top5", "current", "good"]
  const DefaultShelf := "good"
  const IndexMissing := "Could not load books index. Make sure books/index.json exists."

  /** A book document as the page reads it: the stored record, plus the
      optional `shelf` and `readDate` fields the admin does not write. */
  datatype SiteBook = SiteBook(book: Book, shelf: Option<string>, readDate: Option<string>)

  /** A string field that is present and not empty, which is what a
      JavaScript truth test on it accepts. */
  predicate Truthy(s: Option<string>) {
    s.Some? && s.value != ""
  }

  // ---------------------------------------------------------------------
  // Loading.

  /** `SHELF_FOLDERS`: the shelf each of the three standard folders holds. */
  function FolderShelf(folder: string): (r: Option<string>)
    ensures r.Some? ==> r.value in ShelfOrder
  {
    if folder == "top-5-reads" then Some("top5")
    else if folder == "good-reads" then Some("good")
    else if folder == "current-and-future-reads" then Some("current")
    else None
  }

  /** The shelf of a book whose document has none: the one its first path
      segment maps to, `good` for any other folder. */
  function DerivedShelf(filePath: string): (r: string)
    ensures r in ShelfOrder
  {
    var folder := Split(filePath, '/')[0];
    match FolderShelf(folder)
    case Some(id) => id
    case None => DefaultShelf
  }

  /** One entry of the index: nothing when its fetch failed, else the book,
      given the derived shelf when its own is missing or empty. */
  function LoadBook(filePath: string, fetched: Option<SiteBook>): (r: Option<SiteBook>)
    ensures r.Some? <==> fetched.Some?
    ensures r.Some? ==> Truthy(r.value.shelf)
    ensures r.Some? ==> r.value.book == fetched.value.book && r.value.readDate == fetched.value.readDate
    ensures r.Some? && Truthy(fetched.value.shelf) ==> r == fetched
  {
    match fetched
    case None => None
    case Some(b) =>
      if Truthy(b.shelf) then Some(b)
      else Some(b.(shelf := Some(DerivedShelf(filePath))))
  }

  /** `loadBooks` once the index has been read: every entry fetched, the
      failures dropped, the rest in index order. */
  function LoadBooks(files: seq<string>, fetch: string -> Option<SiteBook>): (r: seq<SiteBook>)
    ensures |r| <= |files|
    ensures forall i :: 0 <= i < |r| ==> Truthy(r[i].shelf)
  {
    if files == [] then []
    else
      var f := files[|files| - 1];
      LoadBooks(files[..|files| - 1], fetch)
        + match LoadBook(f, fetch(f)) case None => [] case Some(b) => [b]
  }

  /** Loading two parts of the index one after the other gives the books of
      the first part, then those of the second: the index order is kept. */
  lemma {:induction false} LoadBooksAppend(a: seq<string>, b: seq<string>, fetch: string -> Option<SiteBook>)
    ensures LoadBooks(a + b, fetch) == LoadBooks(a, fetch) + LoadBooks(b, fetch)
    decreases |b|
  {
    if b != [] {
      var init := b[..|b| - 1];
      assert (a + b)[..|a + b| - 1] == a + init;
      LoadBooksAppend(a, init, fetch);
    } else {
      assert a + b == a;
    }
  }

  /** A failed fetch contributes nothing; a successful one contributes its
      book, once. */
  lemma LoadOne(f: string, fetch: string -> Option<SiteBook>)
    ensures fetch(f).None? ==> LoadBooks([f], fetch) == []
    ensures fetch(f).Some? ==> LoadBooks([f], fetch) == [LoadBook(f, fetch(f)).value]
  {
    assert [f][..0] == [];
  }

  /** When every fetch succeeds nothing is dropped: the i-th book is the
      i-th entry's. */
  lemma {:induction false} LoadBooksAllFetched(files: seq<string>, fetch: string -> Option<SiteBook>)
    requires forall i :: 0 <= i < |files| ==> fetch(files[i]).Some?
    ensures |LoadBooks(files, fetch)| == |files|
    ensures forall i :: 0 <= i < |files| ==>
      LoadBooks(files, fetch)[i] == LoadBook(files[i], fetch(files[i])).value
  {
    if files != [] {
      LoadBooksAllFetched(files[..|files| - 1], fetch);
    }
  }

  /** The entries the command-line build writes to the index, `folder/name`
      for its three folders, put each book on the shelf its folder stands
      for, and the three folders cover the three shelves one to one. */
  lemma IndexedFolderShelf(folder: string, name: string)
    requires folder in CliBuild.ShelfFolders && Files.PlainName(name)
    ensures FolderShelf(folder).Some?
    ensures DerivedShelf(folder + "/" + name) == FolderShelf(folder).value
    ensures forall other :: other in CliBuild.ShelfFolders && FolderShelf(other) == FolderShelf(folder) ==> other == folder
  {
    Files.SplitAtFirst(folder, name, '/');
    assert folder + "/" + name == folder + ['/'] + name;
  }

  /** Every shelf the page shows has a folder in the command-line build. */
  lemma EveryShelfHasFolder(id: string)
    requires id in ShelfOrder
    ensures exists f :: f in CliBuild.ShelfFolders && FolderShelf(f) == Some(id)
  {
    if id == "top5" {
      assert FolderShelf(CliBuild.ShelfFolders[0]) == Some(id);
    } else if id == "current" {
      assert FolderShelf(CliBuild.ShelfFolders[2]) == Some(id);
    } else {
      assert FolderShelf(CliBuild.ShelfFolders[1]) == Some(id);
    }
  }

  /** The sample library's `current-reads` folder is not one of the three
      the page knows, so a book from it without a `shelf` field is shown on
      the good shelf. */
  lemma SampleCurrentOnGood(name: string)
    requires Files.PlainName(name)
    ensures DerivedShelf("current-reads/" + name) == DefaultShelf
  {
    Files.SplitAtFirst("current-reads", name, '/');
    assert "current-reads/" + name == "current-reads" + ['/'] + name;
  }

  // ---------------------------------------------------------------------
  // Grouping.

  /** The shelf a book is grouped under: its own when it is one of the three,
      the good shelf otherwise. */
  function GroupOf(b: SiteBook): (r: string)
    ensures r in ShelfOrder
    ensures Truthy(b.shelf) && b.shelf.value in ShelfOrder ==> r == b.shelf.value
  {
    var id := if Truthy(b.shelf) then b.shelf.value else DefaultShelf;
    if id in ShelfOrder then id else DefaultShelf
  }

  /** The test that picks the books of one group. */
  function InGroup(id: string): SiteBook -> bool {
    b => GroupOf(b) == id
  }

  /** The books of one group, in their order on the page. */
  function OnShelf(books: seq<SiteBook>, id: string): seq<SiteBook> {
    Filter(books, InGroup(id))
  }

  /** One more book adds itself to its own group and to no other. */
  lemma OnShelfSnoc(books: seq<SiteBook>, b: SiteBook, id: string)
    ensures OnShelf(books + [b], id) == OnShelf(books, id) + (if GroupOf(b) == id then [b] else [])
  {
    FilterSnoc(books, b, InGroup(id));
  }

  /** `byShelf` holds one list per shelf of the page, each the group of
      `books` for that shelf. */
  ghost predicate GroupedAs(byShelf: map<string, seq<SiteBook>>, books: seq<SiteBook>) {
    (forall id :: id in byShelf <==> id in ShelfOrder)
    && forall id :: id in ShelfOrder ==> byShelf[id] == OnShelf(books, id)
  }

  /** Pushing a book onto the list its group names keeps the lists the
      groups of the longer sequence. */
  lemma GroupPush(byShelf: map<string, seq<SiteBook>>, books: seq<SiteBook>, b: SiteBook)
    requires GroupedAs(byShelf, books)
    ensures GroupedAs(byShelf[GroupOf(b) := byShelf[GroupOf(b)] + [b]], books + [b])
  {
    var pushed := byShelf[GroupOf(b) := byShelf[GroupOf(b)] + [b]];
    forall id | id in ShelfOrder
      ensures pushed[id] == OnShelf(books + [b], id)
    {
      GroupPushAt(byShelf, books, b, id);
    }
    assert forall id :: id in pushed <==> id in byShelf;
  }

  lemma GroupPushAt(byShelf: map<string, seq<SiteBook>>, books: seq<SiteBook>, b: SiteBook, id: string)
    requires GroupedAs(byShelf, books) && id in ShelfOrder
    ensures byShelf[GroupOf(b) := byShelf[GroupOf(b)] + [b]][id] == OnShelf(books + [b], id)
  {
    OnShelfSnoc(books, b, id);
  }

  /** The grouping loop of `renderBookshelf`: one list per shelf, each book
      pushed onto its own shelf's list or, for an unknown shelf, onto the
      good shelf's. */
  method GroupBooks(books: seq<SiteBook>) returns (byShelf: map<string, seq<SiteBook>>)
    ensures GroupedAs(byShelf, books)
  {
    byShelf := map[];
    for k := 0 to |ShelfOrder|
      invariant forall id :: id in byShelf <==> id in ShelfOrder[..k]
      invariant forall id :: id in byShelf ==> byShelf[id] == []
    {
      assert ShelfOrder[..k + 1] == ShelfOrder[..k] + [ShelfOrder[k]];
      byShelf := byShelf[ShelfOrder[k] := []];
    }
    assert ShelfOrder[..|ShelfOrder|] == ShelfOrder;
    for i := 0 to |books|
      invariant GroupedAs(byShelf, books[..i])
    {
      var b := books[i];
      assert books[..i + 1] == books[..i] + [b];
      GroupPush(byShelf, books[..i], b);
      ghost var pushed := byShelf[GroupOf(b) := byShelf[GroupOf(b)] + [b]];
      var shelfId := if Truthy(b.shelf) then b.shelf.value else DefaultShelf;
      if shelfId in byShelf {
        assert GroupOf(b) == shelfId;
        byShelf := byShelf[shelfId := byShelf[shelfId] + [b]];
      } else {
        assert GroupOf(b) == DefaultShelf;
        byShelf := byShelf[DefaultShelf := byShelf[DefaultShelf] + [b]];
      }
      assert byShelf == pushed;
    }
    assert books[..|books|] == books;
  }

  /** A book is in a group exactly when it is one of the books and that
      group is its own. */
  lemma InOwnGroup(books: seq<SiteBook>, id: string, b: SiteBook)
    ensures b in OnShelf(books, id) <==> b in books && GroupOf(b) == id
  {
    FilterMembers(books, InGroup(id), b);
  }

  /** The three groups together hold every book exactly as often as the
      books do: nothing is lost and nothing is shown twice. */
  lemma GroupsPartition(books: seq<SiteBook>)
    ensures multiset(OnShelf(books, "top5")) + multiset(OnShelf(books, "current"))
      + multiset(OnShelf(books, "good")) == multiset(books)
  {
    var t := OnShelf(books, "top5");
    var c := OnShelf(books, "current");
    var g := OnShelf(books, "good");
    forall b: SiteBook
      ensures (multiset(t) + multiset(c) + multiset(g))[b] == multiset(books)[b]
    {
      OnShelfCount(books, "top5", b);
      OnShelfCount(books, "current", b);
      OnShelfCount(books, "good", b);
    }
  }

  /** A group holds each book of its own as often as the books do, and no
      other book. */
  lemma OnShelfCount(books: seq<SiteBook>, id: string, b: SiteBook)
    ensures multiset(OnShelf(books, id))[b] == if GroupOf(b) == id then multiset(books)[b] else 0
  {
    if GroupOf(b) != id {
      assert b !in OnShelf(books, id);
    }
  }

  // ---------------------------------------------------------------------
  // Rows and sections.

  /** The rows a list of books is laid out in: full rows of six, then the
      rest. */
  function Rows(books: seq<SiteBook>): (r: seq<seq<SiteBook>>)
    ensures forall i :: 0 <= i < |r| ==> 1 <= |r[i]| <= BooksPerShelf
    ensures forall i :: 0 <= i < |r| - 1 ==> |r[i]| == BooksPerShelf
    decreases |books|
  {
    if books == [] then []
    else if |books| <= BooksPerShelf then [books]
    else [books[..BooksPerShelf]] + Rows(books[BooksPerShelf..])
  }

  function Flatten(rows: seq<seq<SiteBook>>): seq<SiteBook> {
    if rows == [] then [] else rows[0] + Flatten(rows[1..])
  }

  /** Reading the rows one after the other gives the books back. */
  lemma {:induction false} RowsFlatten(books: seq<SiteBook>)
    ensures Flatten(Rows(books)) == books
    decreases |books|
  {
    if |books| > BooksPerShelf {
      RowsFlatten(books[BooksPerShelf..]);
      assert books[..BooksPerShelf] + books[BooksPerShelf..] == books;
    }
  }

  /** A list of n books takes the ceiling of n / 6 rows. */
  lemma {:induction false} RowsCount(books: seq<SiteBook>)
    ensures |Rows(books)| == (|books| + BooksPerShelf - 1) / BooksPerShelf
    decreases |books|
  {
    if |books| > BooksPerShelf {
      RowsCount(books[BooksPerShelf..]);
    }
  }

  /** `renderBooksInRows`: slices of six taken at 0, 6, 12, ... */
  method RenderBooksInRows(books: seq<SiteBook>) returns (rows: seq<seq<SiteBook>>)
    ensures rows == Rows(books)
  {
    rows := [];
    var i := 0;
    while i < |books|
      invariant 0 <= i
      invariant i <= |books| ==> rows + Rows(books[i..]) == Rows(books)
      invariant i > |books| ==> rows == Rows(books)
      decreases |books| - i
    {
      var end := if i + BooksPerShelf <= |books| then i + BooksPerShelf else |books|;
      if |books[i..]| > BooksPerShelf {
        assert books[i..][..BooksPerShelf] == books[i..end];
        assert books[i..][BooksPerShelf..] == books[i + BooksPerShelf..];
      } else {
        assert books[i..] == books[i..end];
      }
      rows := rows + [books[i..end]];
      i := i + BooksPerShelf;
    }
    assert i == |books| ==> books[i..] == [];
  }

  /** "Show N More Books". */
  function ShowMoreLabel(hidden: nat): string {
    "Show " + NatToString(hidden) + " More Books"
  }

  /** One shelf on the page: the rows shown, the rows behind the "Show
      more" button, and the button's label when there is one. */
  datatype Section = Section(
    shelfId: string,
    rows: seq<seq<SiteBook>>,
    hiddenRows: seq<seq<SiteBook>>,
    showMore: Option<string>)

  /** The section of one non-empty group: only the good shelf is cut, and
      only when it holds more than twelve books. */
  function ShelfSection(id: string, shelfBooks: seq<SiteBook>): Section {
    var hasMore := id == DefaultShelf && |shelfBooks| > InitialBooksToShow;
    var visible := if hasMore then shelfBooks[..InitialBooksToShow] else shelfBooks;
    var hidden := if hasMore then shelfBooks[InitialBooksToShow..] else [];
    Section(id, Rows(visible), Rows(hidden), if hasMore then Some(ShowMoreLabel(|hidden|)) else None)
  }

  /** The books a section holds, shown ones first. */
  function SectionBooks(s: Section): seq<SiteBook> {
    Flatten(s.rows) + Flatten(s.hiddenRows)
  }

  /** A section holds its group's books in their order; the button appears
      exactly on a good shelf of more than twelve books, then twelve are
      shown and the label counts the others; every other shelf shows all. */
  lemma ShelfSectionSplit(id: string, shelfBooks: seq<SiteBook>)
    ensures SectionBooks(ShelfSection(id, shelfBooks)) == shelfBooks
    ensures ShelfSection(id, shelfBooks).showMore.Some? <==> id == DefaultShelf && |shelfBooks| > InitialBooksToShow
    ensures ShelfSection(id, shelfBooks).showMore.Some? ==>
      |Flatten(ShelfSection(id, shelfBooks).rows)| == InitialBooksToShow
      && ShelfSection(id, shelfBooks).showMore.value == ShowMoreLabel(|shelfBooks| - InitialBooksToShow)
    ensures ShelfSection(id, shelfBooks).showMore.None? ==>
      Flatten(ShelfSection(id, shelfBooks).rows) == shelfBooks && ShelfSection(id, shelfBooks).hiddenRows == []
  {
    var hasMore := id == DefaultShelf && |shelfBooks| > InitialBooksToShow;
    if hasMore {
      RowsFlatten(shelfBooks[..InitialBooksToShow]);
      RowsFlatten(shelfBooks[InitialBooksToShow..]);
      assert shelfBooks[..InitialBooksToShow] + shelfBooks[InitialBooksToShow..] == shelfBooks;
    } else {
      RowsFlatten(shelfBooks);
      assert Rows([]) == [];
    }
  }

  /** One shelf's rendering: its shown rows, and the hidden rows and button
      when it is cut. */
  method RenderShelf(id: string, shelfBooks: seq<SiteBook>) returns (s: Section)
    ensures s == ShelfSection(id, shelfBooks)
  {
    var hasMore := id == DefaultShelf && |shelfBooks| > InitialBooksToShow;
    var visible := if hasMore then shelfBooks[..InitialBooksToShow] else shelfBooks;
    var hidden := if hasMore then shelfBooks[InitialBooksToShow..] else [];
    var rows := RenderBooksInRows(visible);
    var hiddenRows := [];
    var showMore := None;
    if hasMore {
      hiddenRows := RenderBooksInRows(hidden);
      showMore := Some(ShowMoreLabel(|hidden|));
    } else {
      assert Rows(hidden) == [];
    }
    s := Section(id, rows, hiddenRows, showMore);
  }

  /** The sections for the shelves `ids`, in that order, empty groups
      skipped. */
  function SectionsFor(books: seq<SiteBook>, ids: seq<string>): seq<Section> {
    if ids == [] then []
    else
      var id := ids[|ids| - 1];
      var group := OnShelf(books, id);
      SectionsFor(books, ids[..|ids| - 1]) + (if group == [] then [] else [ShelfSection(id, group)])
  }

  /** The test that keeps the shelves with at least one book. */
  function HasBooks(books: seq<SiteBook>): string -> bool {
    id => OnShelf(books, id) != []
  }

  /** The page's shelves. */
  function Bookshelf(books: seq<SiteBook>): seq<Section> {
    SectionsFor(books, ShelfOrder)
  }

  /** `renderBookshelf`: group, then one section per non-empty shelf in
      the page's order. */
  method RenderBookshelf(books: seq<SiteBook>) returns (sections: seq<Section>)
    ensures sections == Bookshelf(books)
  {
    var byShelf := GroupBooks(books);
    sections := [];
    for k := 0 to |ShelfOrder|
      invariant sections == SectionsFor(books, ShelfOrder[..k])
    {
      var id := ShelfOrder[k];
      var shelfBooks := byShelf[id];
      SectionsForNext(books, ShelfOrder, k);
      if |shelfBooks| != 0 {
        var s := RenderShelf(id, shelfBooks);
        sections := sections + [s];
      }
    }
    assert ShelfOrder[..|ShelfOrder|] == ShelfOrder;
  }

  /** One more shelf id adds that shelf's section, if it has books. */
  lemma SectionsForNext(books: seq<SiteBook>, ids: seq<string>, k: nat)
    requires k < |ids|
    ensures SectionsFor(books, ids[..k + 1]) == SectionsFor(books, ids[..k])
      + (if OnShelf(books, ids[k]) == [] then [] else [ShelfSection(ids[k], OnShelf(books, ids[k]))])
  {
    assert ids[..k + 1][..k] == ids[..k];
  }

  function SectionIds(sections: seq<Section>): (r: seq<string>)
    ensures |r| == |sections|
    ensures forall i :: 0 <= i < |r| ==> r[i] == sections[i].shelfId
  {
    if sections == [] then [] else SectionIds(sections[..|sections| - 1]) + [sections[|sections| - 1].shelfId]
  }

  /** Every book of every section, section after section. */
  function AllBooks(sections: seq<Section>): seq<SiteBook> {
    if sections == [] then [] else AllBooks(sections[..|sections| - 1]) + SectionBooks(sections[|sections| - 1])
  }

  lemma SectionsSnoc(prev: seq<Section>, s: Section)
    ensures SectionIds(prev + [s]) == SectionIds(prev) + [s.shelfId]
    ensures AllBooks(prev + [s]) == AllBooks(prev) + SectionBooks(s)
  {
    assert (prev + [s])[..|prev|] == prev;
  }

  /** The sections come in the given shelf order and are exactly the
      shelves with books. */
  lemma {:induction false} SectionsForIds(books: seq<SiteBook>, ids: seq<string>)
    ensures SectionIds(SectionsFor(books, ids)) == Filter(ids, HasBooks(books))
  {
    if ids != [] {
      var init := ids[..|ids| - 1];
      var id := ids[|ids| - 1];
      assert ids == init + [id];
      SectionsForIds(books, init);
      FilterSnoc(init, id, HasBooks(books));
      var group := OnShelf(books, id);
      if group != [] {
        SectionsSnoc(SectionsFor(books, init), ShelfSection(id, group));
      }
    }
  }

  /** Each section holds its shelf's group, which is not empty. */
  lemma {:induction false} SectionsForGroups(books: seq<SiteBook>, ids: seq<string>)
    ensures forall s :: s in SectionsFor(books, ids) ==> SectionBooks(s) == OnShelf(books, s.shelfId) != []
  {
    if ids != [] {
      var id := ids[|ids| - 1];
      SectionsForGroups(books, ids[..|ids| - 1]);
      ShelfSectionSplit(id, OnShelf(books, id));
    }
  }

  /** The groups of `ids`, one after the other. */
  function Grouped(books: seq<SiteBook>, ids: seq<string>): seq<SiteBook> {
    if ids == [] then [] else Grouped(books, ids[..|ids| - 1]) + OnShelf(books, ids[|ids| - 1])
  }

  /** The sections for `ids` hold the groups of `ids`, in order. */
  lemma {:induction false} SectionsForBooks(books: seq<SiteBook>, ids: seq<string>)
    ensures AllBooks(SectionsFor(books, ids)) == Grouped(books, ids)
  {
    if ids != [] {
      var init := ids[..|ids| - 1];
      var id := ids[|ids| - 1];
      SectionsForBooks(books, init);
      var group := OnShelf(books, id);
      if group != [] {
        ShelfSectionSplit(id, group);
        SectionsSnoc(SectionsFor(books, init), ShelfSection(id, group));
      } else {
        assert SectionsFor(books, ids) == SectionsFor(books, init);
        assert Grouped(books, ids) == Grouped(books, init);
      }
    }
  }

  /** The three groups of the page, one after the other, are the books
      rearranged. */
  lemma GroupedAll(books: seq<SiteBook>)
    ensures multiset(Grouped(books, ShelfOrder)) == multiset(books)
  {
    var t := OnShelf(books, "top5");
    var c := OnShelf(books, "current");
    var g := OnShelf(books, "good");
    assert ShelfOrder[..2] == ["top5", "current"];
    assert ShelfOrder[..2][..1] == ["top5"];
    assert ShelfOrder[..2][..1][..0] == [];
    assert Grouped(books, ["top5"]) == t;
    assert Grouped(books, ShelfOrder) == t + c + g;
    GroupsPartition(books);
  }

  /** The page's shelves are the non-empty ones in `top5, current, good`
      order, each holds its group, and together they show every loaded book
      exactly once. */
  lemma BookshelfShowsEveryBook(books: seq<SiteBook>)
    ensures SectionIds(Bookshelf(books)) == Filter(ShelfOrder, HasBooks(books))
    ensures forall s :: s in Bookshelf(books) ==> SectionBooks(s) == OnShelf(books, s.shelfId) != []
    ensures multiset(AllBooks(Bookshelf(books))) == multiset(books)
  {
    SectionsForIds(books, ShelfOrder);
    SectionsForGroups(books, ShelfOrder);
    SectionsForBooks(books, ShelfOrder);
    GroupedAll(books);
  }

  // ---------------------------------------------------------------------
  // The page.

  datatype Page = EmptyState | ErrorState(message: string) | Shelves(sections: seq<Section>)

  /** `init` after the labels: the error page when the index cannot be
      read, the empty page when no book loads, else the shelves. */
  function InitPage(index: Option<seq<string>>, fetch: string -> Option<SiteBook>): Page {
    match index
    case None => ErrorState(IndexMissing)
    case Some(files) =>
      var books := LoadBooks(files, fetch);
      if books == [] then EmptyState else Shelves(Bookshelf(books))
  }

  method Init(index: Option<seq<string>>, fetch: string -> Option<SiteBook>) returns (page: Page)
    ensures page == InitPage(index, fetch)
  {
    if index.None? {
      return ErrorState(IndexMissing);
    }
    var books := LoadBooks(index.value, fetch);
    if |books| == 0 {
      return EmptyState;
    }
    var sections := RenderBookshelf(books);
    page := Shelves(sections);
  }

  /** The page shows shelves exactly when the index was read and some book
      loaded, and then every loaded book is on it once. */
  lemma InitPageShows(index: Option<seq<string>>, fetch: string -> Option<SiteBook>)
    ensures InitPage(index, fetch).ErrorState? <==> index.None?
    ensures InitPage(index, fetch).EmptyState? <==> index.Some? && LoadBooks(index.value, fetch) == []
    ensures InitPage(index, fetch).Shelves? ==>
      InitPage(index, fetch).sections != []
      && multiset(AllBooks(InitPage(index, fetch).sections)) == multiset(LoadBooks(index.value, fetch))
  {
    if index.Some? && LoadBooks(index.value, fetch) != [] {
      var books := LoadBooks(index.value, fetch);
      BookshelfShowsEveryBook(books);
      assert books[0] in multiset(AllBooks(Bookshelf(books)));
    }
  }

  // ---------------------------------------------------------------------
  // Activating a book.

  /** The picture of a book, on its card and in the modal alike: the local
      copy served under `books/` when there is one, else the remote cover. */
  function CoverSource(b: SiteBook): (r: Option<string>)
    ensures Truthy(b.book.coverLocal) ==>
      (r.Some? && StartsWith(r.value, "books/") && r.value[|"books/"|..] == b.book.coverLocal.value)
    ensures !Truthy(b.book.coverLocal) ==> r == b.book.cover
  {
    if Truthy(b.book.coverLocal) then Some("books/" + b.book.coverLocal.value) else b.book.cover
  }

  /** What the modal shows; `None` marks a row that is hidden. */
  datatype ModalView = ModalView(
    cover: Option<string>,
    title: string,
    byline: string,
    category: string,
    pages: Option<int>,
    readDate: Option<string>,
    notes: Option<string>,
    link: Option<string>)

  /** `openModal`: a page count under five is taken for a placeholder and
      hidden, blank notes are hidden, and a missing category reads "N/A". */
  function Modal(b: SiteBook): (r: ModalView)
    ensures r.pages.Some? <==> b.book.pages.Some? && b.book.pages.value >= 5
    ensures r.pages.Some? ==> r.pages == b.book.pages
    ensures r.notes.Some? <==> b.book.notes.Some? && !IsBlank(b.book.notes.value)
    ensures r.notes.Some? ==> r.notes == b.book.notes
    ensures r.link.Some? <==> Truthy(b.book.link)
    ensures r.readDate.Some? <==> Truthy(b.readDate)
    ensures r.category != ""
    ensures r.cover == CoverSource(b)
  {
    ModalView(
      CoverSource(b),
      b.book.title,
      "by " + b.book.author,
      if b.book.category == "" then "N/A" else b.book.category,
      if b.book.pages.Some? && b.book.pages.value >= 5 then b.book.pages else None,
      if Truthy(b.readDate) then b.readDate else None,
      if b.book.notes.Some? && Trim(b.book.notes.value) != "" then b.book.notes else None,
      if Truthy(b.book.link) then b.book.link else None)
  }

  datatype Activation = Redirect(url: string) | ShowModal(view: ModalView)

  /** `handleBookInteraction`: a book set to redirect opens its link when it
      has one; every other book opens the modal. */
  function Activate(b: SiteBook): (r: Activation)
    ensures r.Redirect? <==> b.book.clickBehavior == "redirect" && Truthy(b.book.link)
    ensures r.Redirect? ==> Modal(b).link == Some(r.url)
    ensures r.ShowModal? ==> r.view == Modal(b)
  {
    if b.book.clickBehavior == "redirect" && Truthy(b.book.link) then Redirect(b.book.link.value)
    else ShowModal(Modal(b))
  }
}
