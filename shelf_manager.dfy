/** The admin's shelf manager: the add/edit form's checks and the shelf it
    builds, the per-shelf book count, the drag-and-drop reordering, and the
    engine calls behind adding, editing, deleting and reordering shelves,
    each followed by the screen's reload. */
module ShelfManager {
  import opened Wrappers
  import opened Text
  import opened Types
  import opened Files
  import opened SiteBuild
  import opened EngineHandlers
  import opened DesktopEngine
  import opened LibraryStore
  import AdminLib
  import ConfigLib

  const IdRequired := "ID is required"
  const LabelRequired := "Label is required"
  const LoadFailed := "Failed to load data"
  const OrderNotSaved := "Failed to save shelf order"

  function NotEmptyMessage(name: string, count: nat): string {
    "Cannot delete \"" + name + "\" - it contains " + NatToString(count) + " book(s)"
  }

  // ---------------------------------------------------------------------
  // The shelf form.

  /** The fields of the add/edit shelf form, as typed. */
  datatype ShelfFormData = ShelfFormData(id: string, name: string, folder: string)

  /** The first check the form fails: a blank id, then a blank label. */
  function FormError(f: ShelfFormData): (r: Option<string>)
    ensures r.None? <==> !IsBlank(f.id) && !IsBlank(f.name)
    ensures IsBlank(f.id) ==> r == Some(IdRequired)
    ensures !IsBlank(f.id) && IsBlank(f.name) ==> r == Some(LabelRequired)
  {
    if Trim(f.id) == "" then Some(IdRequired)
    else if Trim(f.name) == "" then Some(LabelRequired)
    else None
  }

  /** The shelf the form hands over: id and label trimmed, the trimmed
      folder when one was typed, otherwise the folder derived from the id
      exactly as typed. */
  function FormShelf(f: ShelfFormData): (s: Shelf)
    requires FormError(f).None?
    ensures s.id == Trim(f.id) && s.name == Trim(f.name)
    ensures s.id != "" && s.name != ""
    ensures !IsBlank(f.folder) ==> s.folder == Trim(f.folder)
    ensures IsBlank(f.folder) ==> s.folder == ConfigLib.ShelfIdToFolder(f.id)
  {
    Shelf(Trim(f.id), Trim(f.name),
          if Trim(f.folder) != "" then Trim(f.folder) else ConfigLib.ShelfIdToFolder(f.id))
  }

  /** For an id typed without surrounding blanks, the form builds the same
      shelf as the library's own `createShelf` does from the trimmed label
      and folder. */
  lemma FormShelfAsCreated(f: ShelfFormData)
    requires FormError(f).None? && Trim(f.id) == f.id
    ensures FormShelf(f) == AdminLib.NewShelf(f.id, Trim(f.name), Trim(f.folder))
  {
  }

  /** The folder is derived from the id as typed, not from the trimmed id:
      an id typed in lower case with a leading blank and no folder keeps
      that blank in its folder name while the shelf's id loses it. */
  lemma FormFolderKeepsBlank(f: ShelfFormData)
    requires FormError(f).None? && IsBlank(f.folder)
    requires NoUpper(f.id) && |f.id| > 0 && IsSpace(f.id[0])
    ensures FormShelf(f).folder == f.id
    ensures FormShelf(f).folder != FormShelf(f).id
  {
    var s := FormShelf(f);
    assert f.id[0] != '-';
    assert s.id == Trim(f.id) && s.id != "";
    assert !IsSpace(s.id[0]);
  }

  // ---------------------------------------------------------------------
  // Counting and reordering.

  /** `getBookCount`: the records listed on the shelf. */
  function BookCount(books: seq<BookWithMeta>, shelfId: string): (n: nat)
    ensures n == 0 <==> forall b :: b in books ==> b.shelfId != shelfId
    ensures n == |multiset(AdminLib.BooksOnShelf(books, shelfId))|
    ensures forall b: BookWithMeta :: b.shelfId == shelfId ==> multiset(AdminLib.BooksOnShelf(books, shelfId))[b] == multiset(books)[b]
  {
    var on := AdminLib.BooksOnShelf(books, shelfId);
    assert (exists b :: b in books && b.shelfId == shelfId) ==> on != [] by {
      if b :| b in books && b.shelfId == shelfId {
        assert multiset(books)[b] > 0;
        assert multiset(on)[b] > 0;
      }
    }
    assert on != [] ==> on[0] in books by {
      if on != [] {
        assert on[0] in on;
        assert multiset(on)[on[0]] > 0;
      }
    }
    |on|
  }

  /** `arrayMove(shelves, from, to)`: the entry at `from` is taken out and
      put back in at `to`; the entries in between shift by one towards the
      gap and every other entry stays where it was. */
  function ArrayMove<T>(s: seq<T>, from: nat, to: nat): (r: seq<T>)
    requires from < |s| && to < |s|
    ensures |r| == |s| && r[to] == s[from]
    ensures forall k :: 0 <= k < |s| && k < from && k < to ==> r[k] == s[k]
    ensures forall k :: 0 <= k < |s| && k > from && k > to ==> r[k] == s[k]
    ensures forall k :: from <= k < to ==> r[k] == s[k + 1]
    ensures forall k :: to < k <= from ==> r[k] == s[k - 1]
  {
    var rest := s[..from] + s[from + 1..];
    rest[..to] + [s[from]] + rest[to..]
  }

  /** Moving is a permutation: nothing is lost or duplicated. */
  lemma ArrayMovePermutes<T>(s: seq<T>, from: nat, to: nat)
    requires from < |s| && to < |s|
    ensures multiset(ArrayMove(s, from, to)) == multiset(s)
  {
    var rest := s[..from] + s[from + 1..];
    assert s == s[..from] + [s[from]] + s[from + 1..];
    assert rest == rest[..to] + rest[to..];
    calc {
      multiset(ArrayMove(s, from, to));
      multiset(rest[..to]) + multiset{s[from]} + multiset(rest[to..]);
      multiset(rest) + multiset{s[from]};
      multiset(s[..from]) + multiset(s[from + 1..]) + multiset{s[from]};
      multiset(s);
    }
  }

  /** Dragging the entry back to where it came from undoes the move. */
  lemma ArrayMoveBack<T>(s: seq<T>, from: nat, to: nat)
    requires from < |s| && to < |s|
    ensures ArrayMove(ArrayMove(s, from, to), to, from) == s
  {
    var m := ArrayMove(s, from, to);
    var b := ArrayMove(m, to, from);
    forall k | 0 <= k < |s|
      ensures b[k] == s[k]
    {
      if k == from {
      } else if from < to && from < k <= to {
        assert b[k] == m[k - 1];
      } else if to < from && from < k && k < to {
      } else if to < from && to <= k < from {
        assert b[k] == m[k + 1];
      }
    }
  }

  /** The dragged shelf lands where the shelf it was dropped on was. */
  function Reordered(shelves: seq<Shelf>, activeId: string, overId: string): (r: seq<Shelf>)
    requires HasShelf(shelves, activeId) && HasShelf(shelves, overId)
    ensures |r| == |shelves|
    ensures r[ShelfIndex(shelves, overId)] == shelves[ShelfIndex(shelves, activeId)]
  {
    ArrayMove(shelves, ShelfIndex(shelves, activeId), ShelfIndex(shelves, overId))
  }

  // ---------------------------------------------------------------------
  // Editing the configuration's shelf list.

  /** The change a handler makes to the shelf list it read. */
  datatype ShelfEdit =
    | Append(shelf: Shelf)
    | Replace(shelf: Shelf)
    | Remove(shelfId: string)
    | SetAll(shelves: seq<Shelf>)

  /** The new shelf list, or `None` when the handler saves nothing (an edit
      of an id the configuration does not hold). */
  function EditShelves(shelves: seq<Shelf>, edit: ShelfEdit): (r: Option<seq<Shelf>>)
    ensures edit.Append? ==> r == Some(shelves + [edit.shelf])
    ensures edit.Replace? ==> (r.None? <==> !HasShelf(shelves, edit.shelf.id))
    ensures edit.Replace? && r.Some? ==>
      var i := ShelfIndex(shelves, edit.shelf.id);
      && Ids(r.value) == Ids(shelves) && r.value[i] == edit.shelf
      && forall k :: 0 <= k < |shelves| && k != i ==> r.value[k] == shelves[k]
    ensures edit.Remove? ==> r.Some? && !HasShelf(r.value, edit.shelfId)
    ensures edit.Remove? && r.Some? ==>
      forall s: Shelf :: s.id != edit.shelfId ==> multiset(r.value)[s] == multiset(shelves)[s]
    ensures edit.SetAll? ==> r == Some(edit.shelves)
  {
    match edit
    case Append(s) => Some(shelves + [s])
    case Replace(s) =>
      var i := ShelfIndex(shelves, s.id);
      if i == -1 then None
      else
        var r := shelves[i := s];
        assert Ids(r) == Ids(shelves);
        Some(r)
    case Remove(id) => Some(AdminLib.Without(shelves, id))
    case SetAll(ss) => Some(ss)
  }

  /** `getConfig`, the edit, `saveConfig`. */
  function EditConfigRun(fs: FileSystem, site: Path, edit: ShelfEdit): Run<()> {
    match GetConfigRun(fs, site)
    case Failure(m) => Aborted(fs, m)
    case Success(c) =>
      match EditShelves(c.shelves, edit)
      case None => Done(fs, ())
      case Some(ss) => SaveConfigRun(fs, site, c.(shelves := ss))
  }

  /** A finished edit leaves the configuration read back with the edited
      shelf list and every other setting as it was; a refused read writes
      nothing. */
  lemma EditConfigOutcome(fs: FileSystem, site: Path, edit: ShelfEdit)
    ensures var r := EditConfigRun(fs, site, edit);
      && (GetConfigRun(fs, site).Failure? ==> r == Aborted(fs, GetConfigRun(fs, site).error))
      && (r.Done? ==> GetConfigRun(fs, site).Success?)
      && (r.Done? ==>
            var c := GetConfigRun(fs, site).value;
            GetConfigRun(r.fs, site) == Success(c.(shelves := EditShelves(c.shelves, edit).GetOr(c.shelves))))
  {
    if GetConfigRun(fs, site).Success? {
      var c := GetConfigRun(fs, site).value;
      if EditShelves(c.shelves, edit).Some? {
        SaveConfigOutcome(fs, site, c.(shelves := EditShelves(c.shelves, edit).value));
      } else {
        assert c.(shelves := c.shelves) == c;
      }
    }
  }

  /** `handleAddShelf`: refuse an id already on screen, make the folder,
      then append the shelf to the configuration. */
  function AddShelfRun(fs: FileSystem, site: Path, shown: seq<Shelf>, shelf: Shelf): Run<()>
    requires PlainPath(site)
  {
    if HasShelf(shown, shelf.id) then Aborted(fs, AdminLib.ShelfTaken(shelf.id))
    else
      match CreateShelfRun(fs, site, shelf)
      case Aborted(fs1, m) => Aborted(fs1, m)
      case Done(fs1, _) => EditConfigRun(fs1, site, Append(shelf))
  }

  /** An id already on screen is refused with nothing written; a finished
      add leaves the shelf's folder in place and the shelf at the end of
      the configuration read before the add. */
  lemma AddShelfOutcome(fs: FileSystem, site: Path, shown: seq<Shelf>, shelf: Shelf)
    requires PlainPath(site)
    ensures HasShelf(shown, shelf.id) ==> AddShelfRun(fs, site, shown, shelf) == Aborted(fs, AdminLib.ShelfTaken(shelf.id))
    ensures var r := AddShelfRun(fs, site, shown, shelf);
      r.Done? ==>
        && GetConfigRun(fs, site).Success?
        && Exists(r.fs, Join(BooksDir(site), shelf.folder))
        && var c := GetConfigRun(fs, site).value;
           GetConfigRun(r.fs, site) == Success(c.(shelves := c.shelves + [shelf]))
  {
    var r := AddShelfRun(fs, site, shown, shelf);
    if r.Done? {
      CreateShelfOutcome(fs, site, shelf);
      var fs1 := CreateShelfRun(fs, site, shelf).fs;
      assert GetConfigRun(fs1, site) == GetConfigRun(fs, site);
      EditConfigOutcome(fs1, site, Append(shelf));
      var c := GetConfigRun(fs, site).value;
      SaveConfigOutcome(fs1, site, c.(shelves := c.shelves + [shelf]));
    }
  }

  /** `handleEditShelf`: the configuration's first shelf with that id is
      replaced; an unknown id saves nothing. */
  function EditShelfRun(fs: FileSystem, site: Path, shelf: Shelf): Run<()> {
    EditConfigRun(fs, site, Replace(shelf))
  }

  /** `handleDeleteShelf` once the count check and the confirmation have
      passed: the engine removes the folder, then the shelf leaves the
      configuration. */
  function DeleteShelfFlow(fs: FileSystem, site: Path, order: set<string> -> seq<string>, shelfId: string): Run<()>
    requires PlainPath(site)
  {
    match DeleteShelfRun(fs, site, shelfId, order)
    case Aborted(fs1, m) => Aborted(fs1, m)
    case Done(fs1, _) => EditConfigRun(fs1, site, Remove(shelfId))
  }

  /** A finished delete leaves a configuration without the id that keeps
      every other shelf, and no book file changed. */
  lemma DeleteShelfFlowOutcome(fs: FileSystem, site: Path, order: set<string> -> seq<string>, shelfId: string)
    requires Valid(fs) && PlainPath(site)
    ensures var r := DeleteShelfFlow(fs, site, order, shelfId);
      r.Done? ==> GetConfigRun(fs, site).Success? && GetConfigRun(r.fs, site).Success?
    ensures var r := DeleteShelfFlow(fs, site, order, shelfId);
      r.Done? ==>
        var before := GetConfigRun(fs, site).value.shelves;
        var after := GetConfigRun(r.fs, site).value.shelves;
        && !HasShelf(after, shelfId)
        && (forall s: Shelf :: s.id != shelfId ==> multiset(after)[s] == multiset(before)[s])
    ensures var r := DeleteShelfFlow(fs, site, order, shelfId);
      forall p :: p != ConfigPath(site) ==> (p in r.fs.files <==> p in fs.files)
  {
    DeleteShelfOutcome(fs, site, shelfId, order);
    var d := DeleteShelfRun(fs, site, shelfId, order);
    if d.Done? {
      assert GetConfigRun(d.fs, site) == GetConfigRun(fs, site);
      EditConfigOutcome(d.fs, site, Remove(shelfId));
      if GetConfigRun(fs, site).Success? {
        var c := GetConfigRun(fs, site).value;
        SaveConfigOutcome(d.fs, site, c.(shelves := AdminLib.Without(c.shelves, shelfId)));
      }
    }
  }

  // ---------------------------------------------------------------------
  // The engine calls of each handler.

  method EditConfig(e: Engine, edit: ShelfEdit) returns (r: Result<(), string>)
    requires e.Valid()
    modifies e
    ensures e.Valid() && e.server == old(e.server)
    ensures e.fs == EditConfigRun(old(e.fs), e.site, edit).fs
    ensures r == Outcome(EditConfigRun(old(e.fs), e.site, edit))
  {
    var config := e.GetConfig();
    if config.Failure? {
      return Failure(config.error);
    }
    var c := config.value;
    var edited := EditShelves(c.shelves, edit);
    if edited.None? {
      return Success(());
    }
    r := e.SaveConfig(c.(shelves := edited.value));
  }

  method AddShelfCalls(e: Engine, shown: seq<Shelf>, shelf: Shelf) returns (r: Result<(), string>)
    requires e.Valid()
    modifies e
    ensures e.Valid() && e.server == old(e.server)
    ensures e.fs == AddShelfRun(old(e.fs), e.site, shown, shelf).fs
    ensures r == Outcome(AddShelfRun(old(e.fs), e.site, shown, shelf))
  {
    if HasShelf(shown, shelf.id) {
      return Failure(AdminLib.ShelfTaken(shelf.id));
    }
    ghost var created := CreateShelfRun(e.fs, e.site, shelf);
    var made := e.CreateShelf(shelf);
    if made.Failure? {
      return Failure(made.error);
    }
    assert created == Done(e.fs, ());
    r := EditConfig(e, Append(shelf));
  }

  method DeleteShelfCalls(e: Engine, shelfId: string) returns (r: Result<(), string>)
    requires e.Valid()
    modifies e
    ensures e.Valid() && e.server == old(e.server)
    ensures e.fs == DeleteShelfFlow(old(e.fs), e.site, e.order, shelfId).fs
    ensures r == Outcome(DeleteShelfFlow(old(e.fs), e.site, e.order, shelfId))
  {
    ghost var deleted := DeleteShelfRun(e.fs, e.site, shelfId, e.order);
    var d := e.DeleteShelf(shelfId);
    if d.Failure? {
      return Failure(d.error);
    }
    assert deleted.Done? && deleted.fs == e.fs;
    r := EditConfig(e, Remove(shelfId));
  }

  // ---------------------------------------------------------------------
  // The screen.

  /** The screen's state: the shelves and books it shows, its error line,
      and whether it is still loading. */
  datatype Screen = Screen(shelves: seq<Shelf>, books: seq<BookWithMeta>, error: string, loading: bool)

  /** `loadData`: both reads must succeed for either to be shown; a failure
      sets the error line and keeps what was shown. The error line is
      never cleared here. */
  function Loaded(s: Screen, config: Result<Config, string>, books: Result<seq<BookWithMeta>, string>): (r: Screen)
    ensures !r.loading
    ensures r.shelves == (if config.Success? && books.Success? then config.value.shelves else s.shelves)
    ensures r.books == (if config.Success? && books.Success? then books.value else s.books)
    ensures r.error == (if config.Success? && books.Success? then s.error else LoadFailed)
  {
    if config.Success? && books.Success? then s.(shelves := config.value.shelves, books := books.value, loading := false)
    else s.(error := LoadFailed, loading := false)
  }

  /** What the screen shows after `loadData` on a site. */
  function Reload(s: Screen, fs: FileSystem, site: Path, order: set<string> -> seq<string>): Screen
    requires PlainPath(site)
  {
    Loaded(s, GetConfigRun(fs, site), LibraryStore.GetBooks(fs, site, order))
  }

  /** The check `handleDeleteShelf` makes before asking: a shelf with
      books on screen is refused with their count. */
  function DeleteRefusal(s: Screen, shelf: Shelf): (r: Option<string>)
    ensures r.None? <==> forall b :: b in s.books ==> b.shelfId != shelf.id
    ensures r.Some? ==> r.value == NotEmptyMessage(shelf.name, BookCount(s.books, shelf.id))
  {
    var n := BookCount(s.books, shelf.id);
    if n > 0 then Some(NotEmptyMessage(shelf.name, n)) else None
  }

  /** After a finished add and a reload whose reads succeed, the screen
      shows the configuration's shelves with the new one last. */
  lemma AddedShelfShown(s: Screen, fs: FileSystem, site: Path, order: set<string> -> seq<string>, shelf: Shelf)
    requires PlainPath(site) && AddShelfRun(fs, site, s.shelves, shelf).Done?
    requires LibraryStore.GetBooks(AddShelfRun(fs, site, s.shelves, shelf).fs, site, order).Success?
    ensures GetConfigRun(fs, site).Success?
    ensures Reload(s, AddShelfRun(fs, site, s.shelves, shelf).fs, site, order).shelves
      == GetConfigRun(fs, site).value.shelves + [shelf]
  {
    AddShelfOutcome(fs, site, s.shelves, shelf);
  }

  /** A drag whose save fails because the configuration cannot be read
      leaves the new order on screen: the reload fails too, and its error
      line replaces the save's. */
  lemma UnsavedOrderStaysShown(s: Screen, fs: FileSystem, site: Path, order: set<string> -> seq<string>,
                               activeId: string, overId: string)
    requires PlainPath(site) && HasShelf(s.shelves, activeId) && HasShelf(s.shelves, overId)
    requires GetConfigRun(fs, site).Failure?
    ensures var moved := Reordered(s.shelves, activeId, overId);
      var run := EditConfigRun(fs, site, SetAll(moved));
      && run == Aborted(fs, GetConfigRun(fs, site).error)
      && AfterDrop(s, moved, run, site, order) == s.(shelves := moved, error := LoadFailed, loading := false)
  {
  }

  /** The screen after a drop: the new order stays shown when it was
      saved; otherwise the error line is set and the screen reloads. */
  function AfterDrop(s: Screen, moved: seq<Shelf>, run: Run<()>, site: Path, order: set<string> -> seq<string>): Screen
    requires PlainPath(site)
  {
    if run.Done? then s.(shelves := moved)
    else Reload(s.(shelves := moved, error := OrderNotSaved), run.fs, site, order)
  }

  /** The shelf manager's state, updated in place by its handlers. */
  class View {
    var shelves: seq<Shelf>
    var books: seq<BookWithMeta>
    var error: string
    var loading: bool

    function State(): Screen
      reads this
    {
      Screen(shelves, books, error, loading)
    }

    constructor ()
      ensures State() == Screen([], [], "", true)
    {
      shelves := [];
      books := [];
      error := "";
      loading := true;
    }

    /** `loadData`. */
    method LoadData(e: Engine)
      requires e.Valid()
      modifies this
      ensures State() == Reload(old(State()), e.fs, e.site, e.order)
    {
      var config := e.GetConfig();
      var loaded := e.GetBooks();
      if config.Success? && loaded.Success? {
        shelves := config.value.shelves;
        books := loaded.value;
      } else {
        error := LoadFailed;
      }
      loading := false;
    }

    /** `handleDragEnd`: a drop on another shelf shows the new order at
        once and saves it; a failed save sets the error line and reloads. */
    method DragEnd(e: Engine, activeId: string, overId: Option<string>)
      requires e.Valid()
      requires overId.Some? ==> HasShelf(shelves, activeId) && HasShelf(shelves, overId.value)
      modifies this, e
      ensures e.Valid() && e.server == old(e.server)
      ensures overId.None? || overId.value == activeId ==> e.fs == old(e.fs) && State() == old(State())
      ensures overId.Some? && overId.value != activeId ==>
        var moved := Reordered(old(shelves), activeId, overId.value);
        var run := EditConfigRun(old(e.fs), e.site, SetAll(moved));
        && e.fs == run.fs
        && State() == AfterDrop(old(State()), moved, run, e.site, e.order)
    {
      if overId.None? || overId.value == activeId {
        return;
      }
      DropOn(e, activeId, overId.value);
    }

    method DropOn(e: Engine, activeId: string, overId: string)
      requires e.Valid() && HasShelf(shelves, activeId) && HasShelf(shelves, overId)
      modifies this, e
      ensures e.Valid() && e.server == old(e.server)
      ensures var moved := Reordered(old(shelves), activeId, overId);
        var run := EditConfigRun(old(e.fs), e.site, SetAll(moved));
        && e.fs == run.fs
        && State() == AfterDrop(old(State()), moved, run, e.site, e.order)
    {
      ghost var fs0 := e.fs;
      var moved := Reordered(shelves, activeId, overId);
      shelves := moved;
      ghost var s1 := State();
      var r := EditConfig(e, SetAll(moved));
      ghost var run := EditConfigRun(fs0, e.site, SetAll(moved));
      assert State() == s1;
      if r.Failure? {
        assert run.Aborted?;
        ReloadAfterError(e, OrderNotSaved);
      } else {
        assert run.Done?;
      }
    }

    /** A handler's failure path that reloads: the error line is set, then
        the data is read again. */
    method ReloadAfterError(e: Engine, message: string)
      requires e.Valid()
      modifies this
      ensures State() == Reload(old(State()).(error := message), e.fs, e.site, e.order)
    {
      error := message;
      LoadData(e);
    }

    /** `handleAddShelf`. */
    method AddShelf(e: Engine, shelf: Shelf)
      requires e.Valid()
      modifies this, e
      ensures e.Valid() && e.server == old(e.server)
      ensures var run := AddShelfRun(old(e.fs), e.site, old(shelves), shelf);
        && e.fs == run.fs
        && State() == if run.Done? then Reload(old(State()), e.fs, e.site, e.order)
                      else old(State()).(error := run.msg)
    {
      var r := AddShelfCalls(e, shelves, shelf);
      if r.Failure? {
        error := r.error;
        return;
      }
      LoadData(e);
    }

    /** `handleEditShelf`. */
    method EditShelf(e: Engine, shelf: Shelf)
      requires e.Valid()
      modifies this, e
      ensures e.Valid() && e.server == old(e.server)
      ensures var run := EditShelfRun(old(e.fs), e.site, shelf);
        && e.fs == run.fs
        && State() == if run.Done? then Reload(old(State()), e.fs, e.site, e.order)
                      else old(State()).(error := run.msg)
    {
      var r := EditConfig(e, Replace(shelf));
      if r.Failure? {
        error := r.error;
        return;
      }
      LoadData(e);
    }

    /** `handleDeleteShelf`; `confirmed` is the user's answer to the
        confirmation prompt. */
    method DeleteShelf(e: Engine, shelf: Shelf, confirmed: bool)
      requires e.Valid()
      modifies this, e
      ensures e.Valid() && e.server == old(e.server)
      ensures DeleteRefusal(old(State()), shelf).Some? ==>
        e.fs == old(e.fs) && State() == old(State()).(error := DeleteRefusal(old(State()), shelf).value)
      ensures DeleteRefusal(old(State()), shelf).None? && !confirmed ==>
        e.fs == old(e.fs) && State() == old(State())
      ensures DeleteRefusal(old(State()), shelf).None? && confirmed ==>
        var run := DeleteShelfFlow(old(e.fs), e.site, e.order, shelf.id);
        && e.fs == run.fs
        && State() == if run.Done? then Reload(old(State()), e.fs, e.site, e.order)
                      else old(State()).(error := run.msg)
    {
      var refusal := DeleteRefusal(State(), shelf);
      if refusal.Some? {
        error := refusal.value;
        return;
      }
      if !confirmed {
        return;
      }
      var r := DeleteShelfCalls(e, shelf.id);
      if r.Failure? {
        error := r.error;
        return;
      }
      LoadData(e);
    }
  }
}
