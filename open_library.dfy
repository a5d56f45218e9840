/** Turning an Open Library search hit into the fields of a book form. */
module OpenLibrary {
  import opened Wrappers
  import opened Text

  const OpenLibraryApi := "https://openlibrary.org"
  const CoversApi := "https://covers.openlibrary.org"

  datatype CoverSize = S | M | L

  function SizeLetter(size: CoverSize): string {
    match size
    case S => "S"
    case M => "M"
    case L => "L"
  }

  /** One search hit; the optional fields are `None` when the service omits them. */
  datatype SearchResult = SearchResult(
    key: string,
    title: string,
    authorName: Option<seq<string>>,
    firstPublishYear: Option<int>,
    pagesMedian: Option<int>,
    coverId: Option<int>)

  /** The fields `openLibraryResultToBook` fills in. */
  datatype LookedUpBook = LookedUpBook(
    title: string,
    author: string,
    publishDate: string,
    pages: Option<int>,
    cover: Option<string>,
    link: string)

  /** `getCoverUrl`: no URL for a missing or zero cover id, otherwise the
      covers service's `/b/id/<id>-<size>.jpg` address. */
  function CoverUrl(coverId: Option<int>, size: CoverSize := L): (r: Option<string>)
    ensures r.None? <==> coverId.None? || coverId.value == 0
    ensures r.Some? ==> r.value == CoversApi + "/b/id/" + IntToString(coverId.value) + "-" + SizeLetter(size) + ".jpg"
    ensures r.Some? ==> StartsWith(r.value, CoversApi + "/b/id/") && EndsWith(r.value, ".jpg")
  {
    if coverId.None? || coverId.value == 0 then None
    else
      var u := CoversApi + "/b/id/" + IntToString(coverId.value) + "-" + SizeLetter(size) + ".jpg";
      assert u[..|CoversApi + "/b/id/"|] == CoversApi + "/b/id/";
      Some(u)
  }

  /** `formatPublishDate`: empty for a missing or zero year, otherwise January
      the first of that year. */
  function FormatPublishDate(year: Option<int>): (r: string)
    ensures r == "" <==> year.None? || year.value == 0
    ensures r != "" ==> r == IntToString(year.value) + "-01-01" && EndsWith(r, "-01-01")
  {
    if year.None? || year.value == 0 then "" else IntToString(year.value) + "-01-01"
  }

  /** `openLibraryResultToBook`: the title and page count are copied, the
      author is the first listed author or empty, the cover URL exists
      exactly when the hit has a non-zero cover id, and the link is the work's
      page on the service, or empty when the hit has no key. */
  function ResultToBook(result: SearchResult): (r: LookedUpBook)
    ensures r.title == result.title && r.pages == result.pagesMedian
    ensures r.author == (if result.authorName.Some? && |result.authorName.value| > 0
                         then result.authorName.value[0] else "")
    ensures r.publishDate == FormatPublishDate(result.firstPublishYear)
    ensures r.cover == CoverUrl(result.coverId)
    ensures r.link == "" <==> result.key == ""
    ensures r.link != "" ==> StartsWith(r.link, OpenLibraryApi) && r.link[|OpenLibraryApi|..] == result.key
  {
    var author := match result.authorName
      case Some(names) => if |names| > 0 then names[0] else ""
      case None => "";
    var link := if result.key != "" then OpenLibraryApi + result.key else "";
    LookedUpBook(result.title, author, FormatPublishDate(result.firstPublishYear),
                 result.pagesMedian, CoverUrl(result.coverId), link)
  }
}
