/** Cover helpers of the admin: the file name a downloaded cover is saved
    under, and the two mutually exclusive kinds of cover reference. */
module CoversLib {
  import opened Wrappers
  import opened Text
  import opened Seqs
  import ConfigLib

  /** `getCoverFileName`: the title is slugged by the same chain as
      `toKebabCase` (written out again in the source) and the extension is
      appended after a dot. */
  function CoverFileName(bookTitle: string, extension: string := "jpg"): string {
    ConfigLib.ToKebabCase(bookTitle) + "." + extension
  }

  /** A cover file name is a kebab-case slug, a dot and the extension. */
  lemma CoverFileNameShape(bookTitle: string, extension: string)
    ensures EndsWith(CoverFileName(bookTitle, extension), "." + extension)
    ensures ConfigLib.IsKebab(CoverFileName(bookTitle, extension)[..|CoverFileName(bookTitle, extension)| - |extension| - 1])
  {
    var slug := ConfigLib.ToKebabCase(bookTitle);
    var name := CoverFileName(bookTitle, extension);
    assert name == (slug + ".") + extension;
    AppendAssoc(slug, ".", extension);
    ConcatParts(slug, "." + extension);
    assert |name| - |extension| - 1 == |slug|;
    assert name[..|slug|] == slug;
  }

  /** `isLocalCover`: a path inside the library's cover folder. */
  function IsLocalCover(coverPath: Option<string>): (r: bool)
    ensures r <==> (coverPath.Some?
      && (StartsWith(coverPath.value, "books/covers/") || StartsWith(coverPath.value, "covers/")))
    ensures r ==> !IsExternalCover(coverPath)
  {
    match coverPath
    case None => false
    case Some(p) =>
      assert StartsWith(p, "http://") || StartsWith(p, "https://") ==> p[0] == 'h';
      assert StartsWith(p, "books/covers/") ==> p[0] == 'b';
      assert StartsWith(p, "covers/") ==> p[0] == 'c';
      p != "" && (StartsWith(p, "books/covers/") || StartsWith(p, "covers/"))
  }

  /** `isExternalCover`: an http or https URL. */
  function IsExternalCover(coverUrl: Option<string>): (r: bool)
    ensures r <==> (coverUrl.Some?
      && (StartsWith(coverUrl.value, "http://") || StartsWith(coverUrl.value, "https://")))
  {
    match coverUrl
    case None => false
    case Some(u) => u != "" && (StartsWith(u, "http://") || StartsWith(u, "https://"))
  }
}
