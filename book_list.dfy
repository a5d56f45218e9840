/** The admin's book list: the shelf and text filter over the loaded
    books, the selection of books by file path, and the single and bulk
    delete and move actions, each followed by a reload. */
module BookList {
  import opened Wrappers
  import opened Text
  import opened Types
  import opened Seqs
  import opened Files
  import opened LibraryStore
  import opened SiteBuild
  import opened EngineHandlers
  import opened DesktopEngine
  import AdminLib

  /** The shelf filter's value that shows every shelf. */
  const AllShelves := "all"
  const DeleteFailed := "Failed to delete book"
  const MoveFailed := "Failed to move book"
  const BulkMoveFailed := "Failed to move some books"
  const BulkDeleteFailed := "Failed to delete some books"

  // ---------------------------------------------------------------------
  // Filtering.

  /** A book passes the shelf filter (unless it is "all") and, when the
      query is not blank, the text search with the lower-cased query as
      typed. */
  predicate Shown(b: BookWithMeta, selectedShelf: string, query: string) {
    && (selectedShelf == AllShelves || b.shelfId == selectedShelf)
    && (IsBlank(query) || AdminLib.Matches(b, Lower(query)))
  }

  /** `filteredBooks`: the loaded books that pass both filters, each as
      often as it was loaded. */
  function FilteredBooks(books: seq<BookWithMeta>, selectedShelf: string, query: string): (r: seq<BookWithMeta>)
    ensures forall b :: b in r ==> Shown(b, selectedShelf, query)
    ensures forall b :: Shown(b, selectedShelf, query) ==> multiset(r)[b] == multiset(books)[b]
    ensures IsSubsequence(r, books)
  {
    var onShelf := if selectedShelf != AllShelves then AdminLib.BooksOnShelf(books, selectedShelf) else books;
    assert forall b :: b in onShelf ==> selectedShelf == AllShelves || b.shelfId == selectedShelf;
    assert IsSubsequence(onShelf, books) by {
      if selectedShelf == AllShelves {
        SubsequenceSelf(books);
      }
    }
    if Trim(query) != "" then
      var r := AdminLib.SearchBooks(onShelf, query);
      SubsequenceTrans(r, onShelf, books);
      assert forall b :: b in r ==> b in onShelf by {
        forall b | b in r ensures b in onShelf {
          assert multiset(r)[b] > 0;
        }
      }
      r
    else onShelf
  }

  /** With no shelf chosen and a query that is not blank, the list shows
      exactly what the library's `searchBooks` finds. */
  lemma FilterIsSearch(books: seq<BookWithMeta>, query: string)
    requires !IsBlank(query)
    ensures FilteredBooks(books, AllShelves, query) == AdminLib.SearchBooks(books, query)
  {
  }

  // ---------------------------------------------------------------------
  // Selection: a set of file paths, kept in insertion order as a
  // JavaScript `Set` iterates it.

  /** `set.delete(p)`: the other paths keep their order. */
  function Remove(sel: seq<string>, p: string): (r: seq<string>)
    requires Distinct(sel)
    ensures Distinct(r) && p !in r
    ensures forall q :: q != p ==> (q in r <==> q in sel)
    ensures p !in sel ==> r == sel
  {
    if sel == [] then []
    else if sel[0] == p then
      assert sel == [p] + sel[1..];
      assert forall k :: 0 <= k < |sel| - 1 ==> sel[1..][k] != p;
      sel[1..]
    else
      var rest := Remove(sel[1..], p);
      assert sel[0] !in sel[1..];
      assert sel[0] !in rest;
      [sel[0]] + rest
  }

  /** `toggleBookSelection`: the path's membership flips, nothing else
      changes, and a newly selected path goes last. */
  function Toggle(sel: seq<string>, p: string): (r: seq<string>)
    requires Distinct(sel)
    ensures Distinct(r)
    ensures p in r <==> p !in sel
    ensures forall q :: q != p ==> (q in r <==> q in sel)
    ensures p !in sel ==> r == sel + [p]
  {
    if p in sel then Remove(sel, p) else sel + [p]
  }

  /** Toggling a path twice restores the selection; when the path was not
      selected the order is restored too. */
  lemma {:induction false} ToggleTwice(sel: seq<string>, p: string)
    requires Distinct(sel)
    ensures forall q :: q in Toggle(Toggle(sel, p), p) <==> q in sel
    ensures p !in sel ==> Toggle(Toggle(sel, p), p) == sel
  {
    if p !in sel {
      RemoveLast(sel, p);
    }
  }

  lemma {:induction false} RemoveLast(sel: seq<string>, p: string)
    requires Distinct(sel + [p]) && p !in sel
    ensures Remove(sel + [p], p) == sel
  {
    if sel != [] {
      assert (sel + [p])[1..] == sel[1..] + [p];
      RemoveLast(sel[1..], p);
      assert [sel[0]] + sel[1..] == sel;
    }
  }

  /** `new Set(paths)`: the first occurrence of each path, in order. */
  function Dedup(paths: seq<string>): (r: seq<string>)
    ensures Distinct(r)
    ensures forall q :: q in r <==> q in paths
  {
    if paths == [] then []
    else
      var d := Dedup(paths[..|paths| - 1]);
      var last := paths[|paths| - 1];
      assert paths == paths[..|paths| - 1] + [last];
      if last in d then d else d + [last]
  }

  /** Every listed book is selected. */
  predicate AllSelected(sel: seq<string>, listed: seq<BookWithMeta>) {
    forall b :: b in listed ==> b.filePath in sel
  }

  /** The paths of the listed books, each once: what "select all" selects. */
  function ListedPaths(listed: seq<BookWithMeta>): (r: seq<string>)
    ensures Distinct(r)
    ensures forall q :: q in r <==> exists b :: b in listed && b.filePath == q
  {
    var r := Dedup(FilePaths(listed));
    assert forall q :: q in FilePaths(listed) <==> exists b :: b in listed && b.filePath == q by {
      forall q | q in FilePaths(listed) ensures exists b :: b in listed && b.filePath == q {
        var i :| 0 <= i < |listed| && FilePaths(listed)[i] == q;
        assert listed[i] in listed;
      }
      forall q | exists b :: b in listed && b.filePath == q ensures q in FilePaths(listed) {
        var b :| b in listed && b.filePath == q;
        var i :| 0 <= i < |listed| && listed[i] == b;
        assert FilePaths(listed)[i] == q;
      }
    }
    r
  }

  /** `toggleSelectAll` as written: it compares the selection's size with
      the number of listed books, so a selection made under another filter
      that happens to have the same size is cleared instead of extended. */
  function ToggleAllAsWritten(sel: seq<string>, listed: seq<BookWithMeta>): (r: seq<string>)
    ensures Distinct(r)
    ensures |sel| == |listed| ==> r == []
    ensures |sel| != |listed| ==> forall q :: q in r <==> exists b :: b in listed && b.filePath == q
  {
    if |sel| == |listed| then [] else ListedPaths(listed)
  }

  /** A listed book that is not selected, in a selection of the same size,
      stays unselected after "select all". */
  lemma ToggleAllAsWrittenMisses(sel: seq<string>, listed: seq<BookWithMeta>, b: BookWithMeta)
    requires |sel| == |listed| && b in listed && b.filePath !in sel
    ensures b.filePath !in ToggleAllAsWritten(sel, listed)
    ensures !AllSelected(sel, listed)
  {
  }

  /** `toggleSelectAll` as intended: clear the selection when every listed
      book is already selected, otherwise select exactly the listed books. */
  function ToggleAll(sel: seq<string>, listed: seq<BookWithMeta>): (r: seq<string>)
    ensures Distinct(r)
    ensures AllSelected(sel, listed) ==> r == []
    ensures !AllSelected(sel, listed) ==> forall q :: q in r <==> exists b :: b in listed && b.filePath == q
  {
    if AllSelected(sel, listed) then [] else ListedPaths(listed)
  }

  /** The two agree while the selection holds only listed books and no two
      listed books share a path, which is how the list is used when the
      filter is not changed between selections. */
  lemma ToggleAllAgrees(sel: seq<string>, listed: seq<BookWithMeta>)
    requires Distinct(sel) && Distinct(FilePaths(listed))
    requires forall q :: q in sel ==> exists b :: b in listed && b.filePath == q
    ensures ToggleAllAsWritten(sel, listed) == ToggleAll(sel, listed)
  {
    var L := FilePaths(listed);
    var S := set q | q in sel;
    var T := set q | q in L;
    DistinctCard(sel);
    DistinctCard(L);
    assert S <= T by {
      forall q | q in S ensures q in T {
        var b :| b in listed && b.filePath == q;
        var i :| 0 <= i < |listed| && listed[i] == b;
        assert L[i] == q;
      }
    }
    assert AllSelected(sel, listed) <==> T <= S by {
      if AllSelected(sel, listed) {
        forall q | q in T ensures q in S {
          var i :| 0 <= i < |L| && L[i] == q;
          assert listed[i] in listed;
        }
      }
      if T <= S {
        forall b | b in listed ensures b.filePath in sel {
          var i :| 0 <= i < |listed| && listed[i] == b;
          assert L[i] in T;
        }
      }
    }
    SubsetCard(S, T);
  }

  /** A subset as large as the set is the whole set. */
  lemma SubsetCard<T>(a: set<T>, b: set<T>)
    requires a <= b
    ensures |a| == |b| <==> b <= a
  {
    if |a| == |b| && !(b <= a) {
      var x :| x in b && x !in a;
      SubsetCardLe(a, b - {x});
    }
    if b <= a {
      assert a == b;
    }
  }

  lemma {:induction false} SubsetCardLe<T>(a: set<T>, b: set<T>)
    requires a <= b
    ensures |a| <= |b|
    decreases |a|
  {
    if a != {} {
      var x :| x in a;
      SubsetCardLe(a - {x}, b - {x});
    }
  }

  /** After the intended "select all" on a list with an unselected book,
      every listed book is selected. */
  lemma ToggleAllSelects(sel: seq<string>, listed: seq<BookWithMeta>)
    requires !AllSelected(sel, listed)
    ensures AllSelected(ToggleAll(sel, listed), listed)
  {
    var r := ToggleAll(sel, listed);
    forall b | b in listed ensures b.filePath in r {
      assert exists c :: c in listed && c.filePath == b.filePath;
    }
  }

  // ---------------------------------------------------------------------
  // Bulk actions.

  /** The first `k` moves of the run finished and move `k` failed the run. */
  predicate StopsAt(fs: FileSystem, site: Path, paths: seq<string>, targetShelfId: string, k: nat)
    requires PlainPath(site) && k < |paths|
  {
    var before := AdminLib.MoveAll(fs, site, paths[..k], targetShelfId);
    && before.Done?
    && MoveBookRun(before.fs, site, paths[k], targetShelfId).Aborted?
    && AdminLib.MoveAll(fs, site, paths, targetShelfId) == AdminLib.Unit(MoveBookRun(before.fs, site, paths[k], targetShelfId))
  }

  /** The first move that throws ends a bulk move: the moves before it all
      finished and its failure is the run's. */
  lemma {:induction false} MoveAllStops(fs: FileSystem, site: Path, paths: seq<string>, targetShelfId: string)
    requires PlainPath(site) && AdminLib.MoveAll(fs, site, paths, targetShelfId).Aborted?
    ensures exists k :: 0 <= k < |paths| && StopsAt(fs, site, paths, targetShelfId, k)
  {
    var init := paths[..|paths| - 1];
    if AdminLib.MoveAll(fs, site, init, targetShelfId).Aborted? {
      MoveAllStops(fs, site, init, targetShelfId);
      var j :| 0 <= j < |init| && StopsAt(fs, site, init, targetShelfId, j);
      StopsAtEarlier(fs, site, paths, targetShelfId, j);
    } else {
      StopsAtLast(fs, site, paths, targetShelfId);
    }
  }

  /** A run whose moves before the last all finished stops at the last. */
  lemma StopsAtLast(fs: FileSystem, site: Path, paths: seq<string>, targetShelfId: string)
    requires PlainPath(site) && paths != []
    requires AdminLib.MoveAll(fs, site, paths[..|paths| - 1], targetShelfId).Done?
    requires AdminLib.MoveAll(fs, site, paths, targetShelfId).Aborted?
    ensures StopsAt(fs, site, paths, targetShelfId, |paths| - 1)
  {
  }

  /** A run that already failed before its last move stops where that
      shorter run stopped. */
  lemma StopsAtEarlier(fs: FileSystem, site: Path, paths: seq<string>, targetShelfId: string, j: nat)
    requires PlainPath(site) && paths != [] && j < |paths| - 1
    requires AdminLib.MoveAll(fs, site, paths[..|paths| - 1], targetShelfId).Aborted?
    requires StopsAt(fs, site, paths[..|paths| - 1], targetShelfId, j)
    ensures StopsAt(fs, site, paths, targetShelfId, j)
  {
    var init := paths[..|paths| - 1];
    assert init[..j] == paths[..j] && init[j] == paths[j];
  }

  /** The deletes of `handleBulkDelete`, one path after the other; the
      first that throws ends the run. */
  function DeleteAll(fs: FileSystem, paths: seq<string>): Run<()> {
    if paths == [] then Done(fs, ())
    else
      match DeleteAll(fs, paths[..|paths| - 1])
      case Aborted(fs1, m) => Aborted(fs1, m)
      case Done(fs1, _) => DeleteBookRun(fs1, paths[|paths| - 1])
  }

  /** The files the paths name. */
  function Resolved(paths: seq<string>): set<Path> {
    set p | p in paths :: Resolve(p)
  }

  /** A finished bulk delete removes exactly the named files and no folder. */
  lemma {:induction false} DeleteAllRemoves(fs: FileSystem, paths: seq<string>)
    requires DeleteAll(fs, paths).Done?
    ensures DeleteAll(fs, paths).fs == FileSystem(fs.files - Resolved(paths), fs.dirs)
  {
    if paths != [] {
      var init := paths[..|paths| - 1];
      var last := paths[|paths| - 1];
      var r0 := DeleteAll(fs, init);
      assert r0.Done?;
      DeleteAllRemoves(fs, init);
      DeleteOneRemoves(r0.fs, last);
      ResolvedSnoc(paths);
      MinusSnoc(fs.files, Resolved(init), Resolve(last));
    }
  }

  /** One finished delete removes the file its path names. */
  lemma DeleteOneRemoves(fs: FileSystem, filePath: string)
    requires DeleteBookRun(fs, filePath).Done?
    ensures DeleteBookRun(fs, filePath).fs == FileSystem(fs.files - {Resolve(filePath)}, fs.dirs)
  {
  }

  lemma ResolvedSnoc(paths: seq<string>)
    requires paths != []
    ensures Resolved(paths) == Resolved(paths[..|paths| - 1]) + {Resolve(paths[|paths| - 1])}
  {
    assert paths == paths[..|paths| - 1] + [paths[|paths| - 1]];
  }

  lemma MinusSnoc(files: map<Path, Content>, gone: set<Path>, p: Path)
    ensures files - gone - {p} == files - (gone + {p})
  {
  }

  /** A bulk delete fails only on a path that names a folder. */
  lemma {:induction false} DeleteAllFails(fs: FileSystem, paths: seq<string>)
    requires DeleteAll(fs, paths).Aborted?
    ensures exists p :: p in paths && Resolve(p) in fs.dirs
  {
    var init := paths[..|paths| - 1];
    var last := paths[|paths| - 1];
    if DeleteAll(fs, init).Aborted? {
      DeleteAllFails(fs, init);
      var p :| p in init && Resolve(p) in fs.dirs;
      assert p in paths;
    } else {
      DeleteAllRemoves(fs, init);
      assert Resolve(last) in fs.dirs;
    }
  }

  method DeleteEach(e: Engine, paths: seq<string>) returns (r: Result<(), string>)
    requires e.Valid()
    modifies e
    ensures e.Valid() && e.server == old(e.server)
    ensures e.fs == DeleteAll(old(e.fs), paths).fs
    ensures r == Outcome(DeleteAll(old(e.fs), paths))
  {
    ghost var fs0 := e.fs;
    for k := 0 to |paths|
      invariant e.Valid() && e.server == old(e.server)
      invariant DeleteAll(fs0, paths[..k]) == Done(e.fs, ())
    {
      assert paths[..k + 1][..k] == paths[..k];
      var deleted := e.DeleteBook(paths[k]);
      if deleted.Failure? {
        DeleteAllAborts(fs0, paths, k + 1);
        return Failure(deleted.error);
      }
    }
    assert paths[..|paths|] == paths;
    r := Success(());
  }

  lemma {:induction false} DeleteAllAborts(fs: FileSystem, paths: seq<string>, k: nat)
    requires k <= |paths| && DeleteAll(fs, paths[..k]).Aborted?
    ensures DeleteAll(fs, paths) == DeleteAll(fs, paths[..k])
    decreases |paths|
  {
    if k < |paths| {
      var init := paths[..|paths| - 1];
      assert init[..k] == paths[..k];
      DeleteAllAborts(fs, init, k);
    } else {
      assert paths[..k] == paths;
    }
  }

  // ---------------------------------------------------------------------
  // The screen.

  /** The list's state; `alerts` are the alert boxes shown so far. */
  datatype Screen = Screen(
    books: seq<BookWithMeta>,
    shelves: seq<Shelf>,
    loading: bool,
    searchQuery: string,
    selectedShelf: string,
    selected: seq<string>,
    alerts: seq<string>)

  /** `loadData`: both reads must succeed for either to be shown; a failure
      is only logged. */
  function Loaded(s: Screen, books: Result<seq<BookWithMeta>, string>, config: Result<Config, string>): (r: Screen)
    ensures !r.loading && r.selected == s.selected && r.alerts == s.alerts
    ensures books.Success? && config.Success? ==> r.books == books.value && r.shelves == config.value.shelves
    ensures books.Failure? || config.Failure? ==> r == s.(loading := false)
  {
    if books.Success? && config.Success? then s.(books := books.value, shelves := config.value.shelves, loading := false)
    else s.(loading := false)
  }

  function Reload(s: Screen, fs: FileSystem, site: Path, order: set<string> -> seq<string>): Screen
    requires PlainPath(site)
  {
    Loaded(s, LibraryStore.GetBooks(fs, site, order), GetConfigRun(fs, site))
  }

  /** The screen after a single action: a reload when it finished, an
      alert otherwise. */
  function AfterAction(s: Screen, done: bool, alert: string, fs: FileSystem, site: Path,
                       order: set<string> -> seq<string>): Screen
    requires PlainPath(site)
  {
    if done then Reload(s, fs, site, order) else s.(alerts := s.alerts + [alert])
  }

  /** The screen after a bulk action: the selection is cleared and the
      list reloaded when every call finished; otherwise an alert is shown
      and the selection is kept. */
  function AfterBulk(s: Screen, done: bool, alert: string, fs: FileSystem, site: Path,
                     order: set<string> -> seq<string>): (r: Screen)
    requires PlainPath(site)
    ensures done ==> r.selected == []
    ensures !done ==> r.selected == s.selected && r.alerts == s.alerts + [alert]
  {
    if done then Reload(s.(selected := []), fs, site, order) else s.(alerts := s.alerts + [alert])
  }

  /** The book list's state, updated in place by its handlers. */
  class View {
    var books: seq<BookWithMeta>
    var shelves: seq<Shelf>
    var loading: bool
    var searchQuery: string
    var selectedShelf: string
    var selected: seq<string>
    var alerts: seq<string>

    function State(): Screen
      reads this
    {
      Screen(books, shelves, loading, searchQuery, selectedShelf, selected, alerts)
    }

    /** A path is selected at most once. */
    predicate Valid()
      reads this
    {
      Distinct(selected)
    }

    constructor ()
      ensures Valid()
      ensures State() == Screen([], [], true, "", AllShelves, [], [])
    {
      books := [];
      shelves := [];
      loading := true;
      searchQuery := "";
      selectedShelf := AllShelves;
      selected := [];
      alerts := [];
    }

    /** The books the list shows. */
    function Listed(): seq<BookWithMeta>
      reads this
    {
      FilteredBooks(books, selectedShelf, searchQuery)
    }

    method LoadData(e: Engine)
      requires e.Valid()
      modifies this
      ensures State() == Reload(old(State()), e.fs, e.site, e.order)
    {
      var loaded := e.GetBooks();
      var config := e.GetConfig();
      if loaded.Success? && config.Success? {
        books := loaded.value;
        shelves := config.value.shelves;
      }
      loading := false;
    }

    /** What a single-book action does once its engine call has answered:
        reload when it finished, otherwise show the alert. */
    method Settle(e: Engine, done: bool, alert: string)
      requires e.Valid()
      modifies this
      ensures State() == AfterAction(old(State()), done, alert, e.fs, e.site, e.order)
    {
      if done {
        LoadData(e);
      } else {
        alerts := alerts + [alert];
      }
    }

    /** `handleDelete`; `confirmed` is the answer to the confirmation prompt. */
    method Delete(e: Engine, book: BookWithMeta, confirmed: bool)
      requires e.Valid()
      modifies this, e
      ensures e.Valid() && e.server == old(e.server)
      ensures !confirmed ==> e.fs == old(e.fs) && State() == old(State())
      ensures confirmed ==>
        var run := DeleteBookRun(old(e.fs), book.filePath);
        e.fs == run.fs && State() == AfterAction(old(State()), run.Done?, DeleteFailed, e.fs, e.site, e.order)
    {
      if confirmed {
        DeleteOne(e, book.filePath);
      }
    }

    method DeleteOne(e: Engine, filePath: string)
      requires e.Valid()
      modifies this, e
      ensures e.Valid() && e.server == old(e.server)
      ensures var run := DeleteBookRun(old(e.fs), filePath);
        e.fs == run.fs && State() == AfterAction(old(State()), run.Done?, DeleteFailed, e.fs, e.site, e.order)
    {
      var r := e.DeleteBook(filePath);
      Settle(e, r.Success?, DeleteFailed);
    }

    /** `handleMove`. */
    method Move(e: Engine, book: BookWithMeta, targetShelfId: string)
      requires e.Valid()
      modifies this, e
      ensures e.Valid() && e.server == old(e.server)
      ensures var run := MoveBookRun(old(e.fs), e.site, book.filePath, targetShelfId);
        e.fs == run.fs && State() == AfterAction(old(State()), run.Done?, MoveFailed, e.fs, e.site, e.order)
    {
      var r := e.MoveBook(book.filePath, targetShelfId);
      Settle(e, r.Success?, MoveFailed);
    }

    /** `handleBulkMove`: the selected books are moved in selection order. */
    method BulkMove(e: Engine, targetShelfId: string)
      requires e.Valid() && Valid()
      modifies this, e
      ensures e.Valid() && e.server == old(e.server) && Valid()
      ensures old(selected) == [] ==> e.fs == old(e.fs) && State() == old(State())
      ensures old(selected) != [] ==>
        var run := AdminLib.MoveAll(old(e.fs), e.site, old(selected), targetShelfId);
        e.fs == run.fs && State() == AfterBulk(old(State()), run.Done?, BulkMoveFailed, e.fs, e.site, e.order)
    {
      if selected != [] {
        MoveSelected(e, targetShelfId);
      }
    }

    method MoveSelected(e: Engine, targetShelfId: string)
      requires e.Valid() && Valid()
      modifies this, e
      ensures e.Valid() && e.server == old(e.server) && Valid()
      ensures var run := AdminLib.MoveAll(old(e.fs), e.site, old(selected), targetShelfId);
        e.fs == run.fs && State() == AfterBulk(old(State()), run.Done?, BulkMoveFailed, e.fs, e.site, e.order)
    {
      var r := AdminLib.MoveEach(e, selected, targetShelfId);
      SettleBulk(e, r.Success?, BulkMoveFailed);
    }

    /** What a bulk action does once its engine calls have answered: clear
        the selection and reload when all finished, otherwise show the
        alert. */
    method SettleBulk(e: Engine, done: bool, alert: string)
      requires e.Valid() && Valid()
      modifies this
      ensures Valid()
      ensures State() == AfterBulk(old(State()), done, alert, e.fs, e.site, e.order)
    {
      if done {
        selected := [];
        LoadData(e);
      } else {
        alerts := alerts + [alert];
      }
    }

    /** `handleBulkDelete`; `confirmed` is the answer to the confirmation prompt. */
    method BulkDelete(e: Engine, confirmed: bool)
      requires e.Valid() && Valid()
      modifies this, e
      ensures e.Valid() && e.server == old(e.server) && Valid()
      ensures old(selected) == [] || !confirmed ==> e.fs == old(e.fs) && State() == old(State())
      ensures old(selected) != [] && confirmed ==>
        var run := DeleteAll(old(e.fs), old(selected));
        e.fs == run.fs && State() == AfterBulk(old(State()), run.Done?, BulkDeleteFailed, e.fs, e.site, e.order)
    {
      if selected != [] && confirmed {
        DeleteSelected(e);
      }
    }

    method DeleteSelected(e: Engine)
      requires e.Valid() && Valid()
      modifies this, e
      ensures e.Valid() && e.server == old(e.server) && Valid()
      ensures var run := DeleteAll(old(e.fs), old(selected));
        e.fs == run.fs && State() == AfterBulk(old(State()), run.Done?, BulkDeleteFailed, e.fs, e.site, e.order)
    {
      var r := DeleteEach(e, selected);
      SettleBulk(e, r.Success?, BulkDeleteFailed);
    }

    /** `toggleBookSelection`. */
    method ToggleBook(filePath: string)
      requires Valid()
      modifies this
      ensures Valid()
      ensures State() == old(State()).(selected := Toggle(old(selected), filePath))
    {
      selected := Toggle(selected, filePath);
    }

    /** `toggleSelectAll`, with its size test. */
    method ToggleSelectAll()
      requires Valid()
      modifies this
      ensures Valid()
      ensures State() == old(State()).(selected := ToggleAllAsWritten(old(selected), old(Listed())))
    {
      ghost var before := State();
      var toggled := ToggleAllAsWritten(selected, Listed());
      selected := toggled;
      assert State() == before.(selected := toggled);
    }
  }
}
