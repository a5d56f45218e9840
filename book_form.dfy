/** The admin's book form: the checks a submission must pass, the record
    built from the form's fields, the file it is saved under, and the
    engine calls a submission makes (a move to the chosen shelf first when
    an edited book changes shelf, then the save). */
module BookForm {
  import opened Wrappers
  import opened Text
  import opened Types
  import opened Files
  import opened SiteBuild
  import opened EngineHandlers
  import opened DesktopEngine
  import OpenLibrary
  import AdminLib
  import ConfigLib

  const TitleRequired := "Title is required"
  const AuthorRequired := "Author is required"
  const ShelfRequired := "Please select a shelf"
  const DefaultCategory := "Other"
  const DefaultClickBehavior := "overlay"

  /** The form's fields, each `None` while the form holds no value for it. */
  datatype FormData = FormData(
    title: Option<string>,
    author: Option<string>,
    category: Option<string>,
    publishDate: Option<string>,
    pages: Option<int>,
    cover: Option<string>,
    coverLocal: Option<string>,
    notes: Option<string>,
    link: Option<string>,
    clickBehavior: Option<string>)

  /** The fields of a freshly opened "Add Book" form. */
  const InitialForm := FormData(Some(""), Some(""), Some(""), Some(""), None,
                                Some(""), Some(""), Some(""), Some(""), Some(DefaultClickBehavior))

  /** The shelf the form starts on: the edited book's own, else the first
      shelf, else none. */
  function InitialShelf(book: Option<BookWithMeta>, shelves: seq<Shelf>): (r: string)
    ensures book.Some? && book.value.shelfId != "" ==> r == book.value.shelfId
    ensures (book.None? || book.value.shelfId == "") ==> (r == if shelves == [] then "" else shelves[0].id)
  {
    if book.Some? && book.value.shelfId != "" then book.value.shelfId
    else if shelves != [] then shelves[0].id
    else ""
  }

  /** The fields of a form opened on a stored record. */
  function FormOf(b: Book): FormData {
    FormData(Some(b.title), Some(b.author), Some(b.category), Some(b.publishDate), b.pages,
             b.cover, b.coverLocal, b.notes, b.link, Some(b.clickBehavior))
  }

  /** A field a truth test on its trimmed value rejects. */
  predicate Blank(o: Option<string>) {
    o.None? || Trim(o.value) == ""
  }

  /** The first check a submission fails, in the order title, author,
      shelf; `None` when it passes all three. */
  function Validate(form: FormData, selectedShelf: string): (r: Option<string>)
    ensures r.None? <==> !Blank(form.title) && !Blank(form.author) && selectedShelf != ""
    ensures r.Some? ==> r.value in {TitleRequired, AuthorRequired, ShelfRequired}
  {
    if Blank(form.title) then Some(TitleRequired)
    else if Blank(form.author) then Some(AuthorRequired)
    else if selectedShelf == "" then Some(ShelfRequired)
    else None
  }

  /** A non-empty value with no white space at either end. */
  predicate Tidy(s: string) {
    |s| > 0 && !IsSpace(s[0]) && !IsSpace(s[|s| - 1])
  }

  /** `value?.trim() || undefined`: the trimmed value, absent when the
      field is absent or blank. */
  function OrAbsent(o: Option<string>): (r: Option<string>)
    ensures r.None? <==> o.None? || IsBlank(o.value)
    ensures r.Some? ==> Tidy(r.value) && r.value == Trim(o.value)
  {
    match o
    case None => None
    case Some(s) => if |Trim(s)| == 0 then None else Some(Trim(s))
  }

  /** What a saved record looks like: title and author trimmed, a tidy
      category, tidy or absent optional texts, and a click behaviour. */
  predicate Normalized(b: Book) {
    && (|b.title| == 0 || Tidy(b.title))
    && (|b.author| == 0 || Tidy(b.author))
    && Tidy(b.category)
    && (b.cover.Some? ==> Tidy(b.cover.value))
    && (b.coverLocal.Some? ==> Tidy(b.coverLocal.value))
    && (b.notes.Some? ==> Tidy(b.notes.value))
    && (b.link.Some? ==> Tidy(b.link.value))
    && |b.clickBehavior| > 0
  }

  /** The record `handleSubmit` builds once the checks pass. */
  function BookData(form: FormData): (r: Book)
    requires form.title.Some? && form.author.Some?
    ensures Normalized(r)
    ensures r.title == Trim(form.title.value) && r.author == Trim(form.author.value)
    ensures r.cover == OrAbsent(form.cover) && r.coverLocal == OrAbsent(form.coverLocal)
    ensures r.notes == OrAbsent(form.notes) && r.link == OrAbsent(form.link)
    ensures r.pages == form.pages
  {
    Book(Trim(form.title.value), Trim(form.author.value), CategoryOf(form), form.publishDate.GetOr(""), form.pages,
      OrAbsent(form.cover), OrAbsent(form.coverLocal), OrAbsent(form.notes), OrAbsent(form.link),
      ClickBehaviorOf(form))
  }

  /** `category.trim() || 'Other'`. */
  function CategoryOf(form: FormData): (r: string)
    ensures Tidy(r)
    ensures OrAbsent(form.category).Some? ==> r == OrAbsent(form.category).value
    ensures OrAbsent(form.category).None? ==> r == DefaultCategory
  {
    assert Tidy(DefaultCategory);
    OrAbsent(form.category).GetOr(DefaultCategory)
  }

  /** `clickBehavior || 'overlay'`. */
  function ClickBehaviorOf(form: FormData): (r: string)
    ensures |r| > 0
    ensures form.clickBehavior.Some? && |form.clickBehavior.value| > 0 ==> r == form.clickBehavior.value
  {
    if form.clickBehavior.Some? && |form.clickBehavior.value| > 0 then form.clickBehavior.value
    else DefaultClickBehavior
  }

  /** A tidy value is its own trim. */
  lemma TidyTrim(s: string)
    requires Tidy(s)
    ensures Trim(s) == s && !IsBlank(s)
  {
    TrimNoop(s);
  }

  lemma OrAbsentTidy(o: Option<string>)
    requires o.Some? ==> Tidy(o.value)
    ensures OrAbsent(o) == o
  {
    if o.Some? {
      TidyTrim(o.value);
    }
  }

  lemma CategoryKept(b: Book)
    requires Tidy(b.category)
    ensures CategoryOf(FormOf(b)) == b.category
  {
    OrAbsentTidy(Some(b.category));
  }

  /** Opening a saved record in the form and submitting it unchanged saves
      the same record: the normalisation changes nothing it has already
      done. */
  lemma ResubmitUnchanged(b: Book)
    requires Normalized(b)
    ensures BookData(FormOf(b)) == b
  {
    var f := FormOf(b);
    TrimNoop(b.title);
    TrimNoop(b.author);
    CategoryKept(b);
    OrAbsentTidy(b.cover);
    OrAbsentTidy(b.coverLocal);
    OrAbsentTidy(b.notes);
    OrAbsentTidy(b.link);
    var r := BookData(f);
    assert r.title == b.title && r.author == b.author;
    assert r.category == b.category && r.publishDate == b.publishDate && r.pages == b.pages;
    assert r.cover == b.cover && r.coverLocal == b.coverLocal;
    assert r.notes == b.notes && r.link == b.link;
    assert r.clickBehavior == b.clickBehavior;
  }

  /** `book?.fileName || kebab(title).json`: an edited book keeps its file. */
  function FileName(book: Option<BookWithMeta>, title: string): string {
    AdminLib.FileNameFor(title, if book.Some? then book.value.fileName else "")
  }

  /** `handleSubmit`: the checks, then for an edited book that changes shelf
      a move to the chosen shelf, then the save. */
  function SubmitRun(fs: FileSystem, site: Path, book: Option<BookWithMeta>, form: FormData, selectedShelf: string)
    : Run<string>
    requires PlainPath(site)
  {
    if Validate(form, selectedShelf).Some? then Aborted(fs, Validate(form, selectedShelf).value)
    else SaveRecordRun(fs, site, book, BookData(form), selectedShelf)
  }

  /** The engine calls that store a record built from a valid form. */
  function SaveRecordRun(fs: FileSystem, site: Path, book: Option<BookWithMeta>, data: Book, shelfId: string)
    : Run<string>
    requires PlainPath(site)
  {
    var fileName := FileName(book, data.title);
    if book.Some? && book.value.shelfId != shelfId then
      MoveThenSaveAs(fs, site, book.value.filePath, shelfId, fileName, data)
    else SaveBookRun(fs, site, shelfId, fileName, data)
  }

  function MoveThenSaveAs(fs: FileSystem, site: Path, filePath: string, shelfId: string, fileName: string, data: Book)
    : Run<string>
    requires PlainPath(site)
  {
    match MoveBookRun(fs, site, filePath, shelfId)
    case Aborted(fs1, m) => Aborted(fs1, m)
    case Done(fs1, _) => SaveBookRun(fs1, site, shelfId, fileName, data)
  }

  /** The submission, through the engine. `saved` says the form was closed
      with `onSave`; otherwise `error` is the message the form shows. */
  method HandleSubmit(e: Engine, book: Option<BookWithMeta>, form: FormData, selectedShelf: string)
    returns (saved: bool, error: string)
    requires e.Valid()
    modifies e
    ensures e.Valid() && e.server == old(e.server)
    ensures e.fs == SubmitRun(old(e.fs), e.site, book, form, selectedShelf).fs
    ensures saved == SubmitRun(old(e.fs), e.site, book, form, selectedShelf).Done?
    ensures error == if saved then "" else SubmitRun(old(e.fs), e.site, book, form, selectedShelf).msg
  {
    var invalid := Validate(form, selectedShelf);
    if invalid.Some? {
      return false, invalid.value;
    }
    var data := BookData(form);
    var fileName := AdminLib.FileNameFor(data.title, if book.Some? then book.value.fileName else "");
    var r: Result<string, string>;
    if book.Some? && book.value.shelfId != selectedShelf {
      r := MoveAndSaveAs(e, book.value.filePath, selectedShelf, fileName, data);
    } else {
      r := e.SaveBook(selectedShelf, fileName, data);
    }
    saved := r.Success?;
    error := if r.Success? then "" else r.error;
  }

  method MoveAndSaveAs(e: Engine, filePath: string, shelfId: string, fileName: string, data: Book)
    returns (r: Result<string, string>)
    requires e.Valid()
    modifies e
    ensures e.Valid() && e.server == old(e.server)
    ensures e.fs == MoveThenSaveAs(old(e.fs), e.site, filePath, shelfId, fileName, data).fs
    ensures r == Outcome(MoveThenSaveAs(old(e.fs), e.site, filePath, shelfId, fileName, data))
  {
    ghost var moved := MoveBookRun(e.fs, e.site, filePath, shelfId);
    var m := e.MoveBook(filePath, shelfId);
    if m.Failure? {
      return Failure(m.error);
    }
    assert moved == Done(e.fs, m.value);
    r := e.SaveBook(shelfId, fileName, data);
  }

  /** A submission that fails a check writes nothing and shows the first
      failing check's message. */
  lemma SubmitRefused(fs: FileSystem, site: Path, book: Option<BookWithMeta>, form: FormData, selectedShelf: string)
    requires PlainPath(site) && Validate(form, selectedShelf).Some?
    ensures SubmitRun(fs, site, book, form, selectedShelf) == Aborted(fs, Validate(form, selectedShelf).value)
    ensures Blank(form.title) ==> SubmitRun(fs, site, book, form, selectedShelf).msg == TitleRequired
  {
  }

  /** The blank form of a new book is refused for its title. */
  lemma BlankFormRefused(fs: FileSystem, site: Path, selectedShelf: string)
    requires PlainPath(site)
    ensures SubmitRun(fs, site, None, InitialForm, selectedShelf) == Aborted(fs, TitleRequired)
  {
    assert Trim("") == "";
  }

  /** A finished submission stores the normalised record where it reads
      back, under the file name chosen before any move: the book's own when
      it is edited, its title's slug when it is new. */
  lemma SubmitSaves(fs: FileSystem, site: Path, book: Option<BookWithMeta>, form: FormData, selectedShelf: string)
    requires PlainPath(site) && SubmitRun(fs, site, book, form, selectedShelf).Done?
    ensures form.title.Some? && form.author.Some?
    ensures var r := SubmitRun(fs, site, book, form, selectedShelf);
      GetBookRun(r.fs, r.value) == Success(BookData(form))
    ensures book.None? ==>
      var r := SubmitRun(fs, site, book, form, selectedShelf);
      AdminLib.LastSegment(r.value) == ConfigLib.BookFileName(Trim(form.title.value))
    ensures book.Some? && PlainName(book.value.fileName) ==>
      var r := SubmitRun(fs, site, book, form, selectedShelf);
      AdminLib.LastSegment(r.value) == book.value.fileName
  {
    var data := BookData(form);
    var fileName := FileName(book, data.title);
    var fs1 := fs;
    if book.Some? && book.value.shelfId != selectedShelf {
      fs1 := MoveBookRun(fs, site, book.value.filePath, selectedShelf).fs;
    }
    assert SubmitRun(fs, site, book, form, selectedShelf) == SaveBookRun(fs1, site, selectedShelf, fileName, data);
    SaveThenGetBook(fs1, site, selectedShelf, fileName, data);
    if book.None? || PlainName(book.value.fileName) {
      AdminLib.SavedUnderName(fs1, site, selectedShelf, fileName, data);
    }
  }

  /** An edited book that changes shelf is moved before it is saved: a
      finished submission made the move, and a refused move ends the
      submission with the move's own outcome, before any save. */
  lemma SubmitMovesFirst(fs: FileSystem, site: Path, b: BookWithMeta, form: FormData, selectedShelf: string)
    requires PlainPath(site) && Validate(form, selectedShelf).None? && b.shelfId != selectedShelf
    ensures SubmitRun(fs, site, Some(b), form, selectedShelf).Done? ==>
      MoveBookRun(fs, site, b.filePath, selectedShelf).Done?
    ensures MoveBookRun(fs, site, b.filePath, selectedShelf).Aborted? ==>
      SubmitRun(fs, site, Some(b), form, selectedShelf) == MoveBookRun(fs, site, b.filePath, selectedShelf)
  {
    var data := BookData(form);
    assert SubmitRun(fs, site, Some(b), form, selectedShelf)
      == MoveThenSaveAs(fs, site, b.filePath, selectedShelf, FileName(Some(b), data.title), data);
  }

  /** `handleSelectResult`: a search hit fills in the title, author,
      publication date, page count, cover and link, and leaves every other
      field as it was. */
  function SelectResult(form: FormData, result: OpenLibrary.SearchResult): (r: FormData)
    ensures r.category == form.category && r.coverLocal == form.coverLocal
    ensures r.notes == form.notes && r.clickBehavior == form.clickBehavior
    ensures r.title == Some(result.title) && r.pages == result.pagesMedian
    ensures r.cover == OpenLibrary.CoverUrl(result.coverId)
    ensures r.publishDate == Some(OpenLibrary.FormatPublishDate(result.firstPublishYear))
    ensures r.author == Some(if result.authorName.Some? && |result.authorName.value| > 0
                             then result.authorName.value[0] else "")
    ensures r.link.Some? && (r.link.value == "" <==> result.key == "")
    ensures r.link.value != "" ==> r.link.value == OpenLibrary.OpenLibraryApi + result.key
  {
    var found := OpenLibrary.ResultToBook(result);
    form.(title := Some(found.title), author := Some(found.author), publishDate := Some(found.publishDate),
          pages := found.pages, cover := found.cover, link := Some(found.link))
  }
}
