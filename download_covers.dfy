/** The cover-download script (`scripts/download-covers.js`): find the book
    records of the three fixed shelf folders whose cover is still an
    external URL, download each image into `books/covers` under a name no
    other cover has, and record the local name in the book's file.

    The network is an oracle: every request is answered by the next entry
    of a sequence of responses. */
module DownloadCovers {
  import opened Wrappers
  import opened Text
  import opened Types
  import opened Seqs
  import opened Files
  import ConfigLib

  const ShelfFolders: seq<string> := ["top-5-reads", "good-reads", "current-and-future-reads"]
  const MaxSlug := 50

  // ---------------------------------------------------------------------
  // The script's own `toKebabCase`.

  predicate Alnum(c: char) { IsLowerLetter(c) || IsDigit(c) }
  predicate SlugChar(c: char) { Alnum(c) || c == '-' }
  predicate AllSlugChars(s: string) { forall i :: 0 <= i < |s| ==> SlugChar(s[i]) }
  predicate NoDoubleDash(s: string) {
    forall i :: 0 <= i < |s| - 1 ==> !(s[i] == '-' && s[i + 1] == '-')
  }
  predicate NoAlnum(s: string) { forall i :: 0 <= i < |s| ==> !Alnum(s[i]) }

  /** The length of the run of characters outside `[a-z0-9]` that `s` starts with. */
  function RunLength(s: string): (k: nat)
    ensures k <= |s|
    ensures k == |s| || Alnum(s[k])
    ensures NoAlnum(s[..k])
  {
    if s == [] || Alnum(s[0]) then 0
    else
      var k := RunLength(s[1..]);
      assert forall i :: 1 <= i <= k ==> s[i] == s[1..][i - 1];
      k + 1
  }

  /** `replace(/[^a-z0-9]+/g, '-')`. */
  function DashRuns(s: string): string
    decreases |s|
  {
    if s == [] then []
    else if Alnum(s[0]) then [s[0]] + DashRuns(s[1..])
    else "-" + DashRuns(s[RunLength(s)..])
  }

  /** The number of dashes `s` starts with. */
  function LeadingDashes(s: string): (k: nat)
    ensures k <= |s| && (k == |s| || s[k] != '-')
    ensures forall i :: 0 <= i < k ==> s[i] == '-'
  {
    if s == [] || s[0] != '-' then 0
    else
      var k := LeadingDashes(s[1..]);
      assert forall i :: 1 <= i <= k ==> s[i] == s[1..][i - 1];
      k + 1
  }

  /** The number of dashes `s` ends with. */
  function TrailingDashes(s: string): (k: nat)
    ensures k <= |s| && (k == |s| || s[|s| - k - 1] != '-')
    ensures forall i :: |s| - k <= i < |s| ==> s[i] == '-'
  {
    if s == [] || s[|s| - 1] != '-' then 0
    else
      var k := TrailingDashes(s[..|s| - 1]);
      assert forall i :: |s| - 1 - k <= i < |s| - 1 ==> s[i] == s[..|s| - 1][i];
      k + 1
  }

  /** `replace(/^-+|-+$/g, '')`. */
  function TrimDashes(s: string): (r: string)
    ensures r == [] || (r[0] != '-' && r[|r| - 1] != '-')
  {
    var t := s[LeadingDashes(s)..];
    t[..|t| - TrailingDashes(t)]
  }

  /** `toKebabCase` of the script: lower-case, each run of characters other
      than `[a-z0-9]` becomes one dash, dashes at either end go, and the
      result is cut to 50 characters. */
  function ScriptKebab(s: string): string {
    var t := TrimDashes(DashRuns(Lower(s)));
    if |t| <= MaxSlug then t else t[..MaxSlug]
  }

  /** The letters and digits of a string, in order. */
  function Alnums(s: string): string {
    if s == [] then [] else (if Alnum(s[0]) then [s[0]] else []) + Alnums(s[1..])
  }

  lemma {:induction false} AlnumsAppend(a: string, b: string)
    ensures Alnums(a + b) == Alnums(a) + Alnums(b)
  {
    if a == [] {
      assert a + b == b;
    } else {
      var ab := a + b;
      var head := if Alnum(a[0]) then [a[0]] else [];
      assert ab[0] == a[0] && ab[1..] == a[1..] + b;
      AlnumsAppend(a[1..], b);
      assert Alnums(ab) == head + (Alnums(a[1..]) + Alnums(b));
      assert Alnums(a) == head + Alnums(a[1..]);
      AppendAssoc(head, Alnums(a[1..]), Alnums(b));
    }
  }

  lemma {:induction false} AlnumsNone(s: string)
    requires NoAlnum(s)
    ensures Alnums(s) == []
  {
    if s != [] {
      assert NoAlnum(s[1..]) by {
        assert forall i :: 0 <= i < |s| - 1 ==> s[1..][i] == s[i + 1];
      }
      AlnumsNone(s[1..]);
    }
  }

  lemma ConsShape(c: char, t: string)
    requires SlugChar(c) && AllSlugChars(t) && NoDoubleDash(t)
    requires c == '-' ==> t == [] || t[0] != '-'
    ensures AllSlugChars([c] + t) && NoDoubleDash([c] + t)
  {
    var s := [c] + t;
    assert forall i :: 1 <= i < |s| ==> s[i] == t[i - 1];
  }

  /** The dashing step puts out only slug characters, never two dashes in
      a row, and keeps every letter and digit in order. */
  lemma {:induction false} DashRunsShape(s: string)
    ensures AllSlugChars(DashRuns(s)) && NoDoubleDash(DashRuns(s))
    ensures Alnums(DashRuns(s)) == Alnums(s)
    ensures DashRuns(s) == [] || DashRuns(s)[0] != '-' || (s != [] && !Alnum(s[0]))
    decreases |s|
  {
    if s != [] {
      if Alnum(s[0]) {
        DashRunsShape(s[1..]);
        ConsShape(s[0], DashRuns(s[1..]));
      } else {
        var k := RunLength(s);
        var rest := s[k..];
        DashRunsShape(rest);
        assert rest == [] || Alnum(rest[0]);
        ConsShape('-', DashRuns(rest));
        assert s == s[..k] + rest;
        AlnumsNone(s[..k]);
        AlnumsAppend(s[..k], rest);
      }
    }
  }

  lemma SliceShape(s: string, i: nat, j: nat)
    requires i <= j <= |s| && AllSlugChars(s) && NoDoubleDash(s)
    ensures AllSlugChars(s[i..j]) && NoDoubleDash(s[i..j])
  {
    assert forall k :: 0 <= k < j - i ==> s[i..j][k] == s[i + k];
  }

  lemma {:induction false} DashesNoAlnums(s: string)
    requires forall k :: 0 <= k < |s| ==> s[k] == '-'
    ensures Alnums(s) == []
  {
    AlnumsNone(s);
  }

  /** Cutting dashes off both ends keeps every letter and digit. */
  lemma DropEnds(d: string, l: nat, m: nat)
    requires l <= m <= |d|
    requires forall k :: 0 <= k < l ==> d[k] == '-'
    requires forall k :: m <= k < |d| ==> d[k] == '-'
    ensures Alnums(d[l..m]) == Alnums(d)
  {
    var a, b, c := d[..l], d[l..m], d[m..];
    assert b + c == d[l..];
    assert d == a + d[l..];
    assert forall k :: 0 <= k < |a| ==> a[k] == '-';
    assert forall k :: 0 <= k < |c| ==> c[k] == d[m + k];
    DashesNoAlnums(a);
    DashesNoAlnums(c);
    AlnumsAppend(a, b + c);
    AlnumsAppend(b, c);
  }

  /** Trimming the dashes at both ends keeps the shape and every letter
      and digit. */
  lemma TrimDashesShape(d: string)
    requires AllSlugChars(d) && NoDoubleDash(d)
    ensures AllSlugChars(TrimDashes(d)) && NoDoubleDash(TrimDashes(d))
    ensures Alnums(TrimDashes(d)) == Alnums(d)
  {
    var l := LeadingDashes(d);
    var t0 := d[l..];
    var n := TrailingDashes(t0);
    var m := l + |t0| - n;
    assert TrimDashes(d) == d[l..m];
    assert forall k :: m <= k < |d| ==> d[k] == t0[k - l];
    DropEnds(d, l, m);
    SliceShape(d, l, m);
  }

  /** The script's slug: only `[a-z0-9-]`, never two dashes in a row, never
      a dash at the start, at most 50 characters. Its letters and digits
      are the first ones of the lower-cased title, and all of them when the
      slug was not cut, in which case it does not end with a dash either. */
  lemma ScriptKebabShape(s: string)
    ensures var r := ScriptKebab(s);
      && AllSlugChars(r) && NoDoubleDash(r) && |r| <= MaxSlug
      && (r == [] || r[0] != '-')
      && StartsWith(Alnums(Lower(s)), Alnums(r))
      && (|TrimDashes(DashRuns(Lower(s)))| <= MaxSlug ==>
            Alnums(r) == Alnums(Lower(s)) && (r == [] || r[|r| - 1] != '-'))
  {
    var d := DashRuns(Lower(s));
    DashRunsShape(Lower(s));
    TrimDashesShape(d);
    var t := TrimDashes(d);
    if |t| > MaxSlug {
      CutShape(t);
    } else {
      assert ScriptKebab(s) == t;
    }
  }

  lemma CutShape(t: string)
    requires |t| > MaxSlug && AllSlugChars(t) && NoDoubleDash(t) && t[0] != '-'
    ensures var r := t[..MaxSlug];
      AllSlugChars(r) && NoDoubleDash(r) && r[0] != '-' && StartsWith(Alnums(t), Alnums(r))
  {
    var r := t[..MaxSlug];
    assert t == r + t[MaxSlug..];
    AlnumsAppend(r, t[MaxSlug..]);
    SliceShape(t, 0, MaxSlug);
  }

  lemma {:induction false} SkipOver(run: string, rest: string)
    requires run != [] && NoAlnum(run)
    requires rest == [] || Alnum(rest[0])
    ensures RunLength(run + rest) == |run|
  {
    var s := run + rest;
    if |run| > 1 {
      assert s[1..] == run[1..] + rest;
      assert NoAlnum(run[1..]) by {
        assert forall i :: 0 <= i < |run| - 1 ==> run[1..][i] == run[i + 1];
      }
      SkipOver(run[1..], rest);
    } else {
      assert s[1..] == rest;
    }
  }

  /** Each run of other characters becomes exactly one dash: a word of
      letters and digits, a run of other characters, then the rest. */
  lemma {:induction false} DashRunsRun(word: string, run: string, rest: string)
    requires forall i :: 0 <= i < |word| ==> Alnum(word[i])
    requires run != [] && NoAlnum(run)
    requires rest == [] || Alnum(rest[0])
    ensures DashRuns(word + run + rest) == word + "-" + DashRuns(rest)
    decreases |word|
  {
    var s := word + run + rest;
    if word == [] {
      assert s == run + rest;
      SkipOver(run, rest);
      assert s[|run|..] == rest;
    } else {
      assert s[0] == word[0] && s[1..] == word[1..] + run + rest;
      DashRunsRun(word[1..], run, rest);
    }
  }

  lemma ScriptKebabApostrophe()
    ensures ScriptKebab("Don't") == "don-t"
  {
    assert Lower("Don't") == "don't";
    assert DashRuns("don't") == "don-t" by {
      DashRunsRun("don", "'", "t");
      assert "don" + "'" + "t" == "don't";
    }
    assert LeadingDashes("don-t") == 0;
    assert TrailingDashes("don-t") == 0;
  }

  lemma HelperStripApostrophe()
    ensures ConfigLib.StripDisallowed(Lower("Don't")) == "dont"
    ensures ConfigLib.StripDisallowed(Lower("dont")) == "dont"
  {
    assert Lower("Don't") == "don't";
    assert Lower("dont") == "dont";
  }

  lemma HelperKebabApostrophe()
    ensures ConfigLib.ToKebabCase("Don't") == "dont"
  {
    HelperStripApostrophe();
    assert ConfigLib.IsKebab("dont");
    ConfigLib.KebabFixpoint("dont");
  }

  /** The two slug functions of the code base disagree: the script turns an
      apostrophe into a dash, the shared helper drops it, so the same title
      gives different file names in the two places. */
  lemma KebabVariantsDiffer()
    ensures ScriptKebab("Don't") == "don-t" && ConfigLib.ToKebabCase("Don't") == "dont"
  {
    ScriptKebabApostrophe();
    HelperKebabApostrophe();
  }

  // ---------------------------------------------------------------------
  // `generateCoverFilename`.

  /** The `n`-th name tried for a slug: `base.jpg`, then `base-1.jpg`,
      `base-2.jpg`, ... */
  function Candidate(base: string, n: nat): string {
    if n == 0 then base + ".jpg" else base + "-" + NatToString(n) + ".jpg"
  }

  /** Different counters give different names. */
  lemma CandidateInjective(base: string, m: nat, n: nat)
    requires Candidate(base, m) == Candidate(base, n)
    ensures m == n
  {
    assert (m == 0) == (n == 0) by {
      assert |Candidate(base, m)| == |Candidate(base, n)|;
    }
    if m != 0 {
      var a := Candidate(base, m);
      assert a[|base| + 1..|a| - 4] == NatToString(m);
      assert a[|base| + 1..|a| - 4] == NatToString(n);
      NatToStringInjective(m, n);
    }
  }

  /** The first `k` names tried. */
  function Tried(base: string, k: nat): set<string> {
    set m | 0 <= m < k :: Candidate(base, m)
  }

  lemma {:induction false} TriedCount(base: string, k: nat)
    ensures |Tried(base, k)| == k
  {
    if k > 0 {
      TriedCount(base, k - 1);
      assert Tried(base, k) == Tried(base, k - 1) + {Candidate(base, k - 1)};
      assert Candidate(base, k - 1) !in Tried(base, k - 1) by {
        forall m | 0 <= m < k - 1 ensures Candidate(base, m) != Candidate(base, k - 1) {
          if Candidate(base, m) == Candidate(base, k - 1) {
            CandidateInjective(base, m, k - 1);
          }
        }
      }
    }
  }

  lemma SubsetSize<T>(a: set<T>, b: set<T>)
    requires a <= b
    ensures |a| <= |b|
  {
    assert b == a + (b - a);
    assert a * (b - a) == {};
  }

  /** A set holding the first `k` names has at least `k` elements. */
  lemma TakenBound(base: string, existing: set<string>, k: nat)
    requires forall m :: 0 <= m < k ==> Candidate(base, m) in existing
    ensures k <= |existing|
  {
    TriedCount(base, k);
    SubsetSize(Tried(base, k), existing);
  }

  /** The smallest counter from `from` on whose name is free. */
  function FirstFree(base: string, existing: set<string>, from: nat): (k: nat)
    requires forall m :: 0 <= m < from ==> Candidate(base, m) in existing
    ensures from <= k && Candidate(base, k) !in existing
    ensures forall m :: 0 <= m < k ==> Candidate(base, m) in existing
    decreases |existing| - from
  {
    TakenBound(base, existing, from);
    if Candidate(base, from) !in existing then from
    else
      TakenBound(base, existing, from + 1);
      FirstFree(base, existing, from + 1)
  }

  /** Being free with all earlier names taken pins the counter down. */
  lemma FirstFreeIs(base: string, existing: set<string>, k: nat)
    requires Candidate(base, k) !in existing
    requires forall m :: 0 <= m < k ==> Candidate(base, m) in existing
    ensures FirstFree(base, existing, 0) == k
  {
    var j := FirstFree(base, existing, 0);
    assert Candidate(base, j) !in existing;
    assert !(j < k) && !(k < j);
  }

  /** The name `generateCoverFilename` gives a title. */
  function CoverName(title: string, existing: set<string>): string {
    Candidate(ScriptKebab(title), FirstFree(ScriptKebab(title), existing, 0))
  }

  /** The name is free, and it is `base.jpg` when that is free and otherwise
      `base-N.jpg` for the smallest free `N`. */
  lemma CoverNameFirstFree(title: string, existing: set<string>)
    ensures CoverName(title, existing) !in existing
    ensures ScriptKebab(title) + ".jpg" !in existing ==> CoverName(title, existing) == ScriptKebab(title) + ".jpg"
    ensures ScriptKebab(title) + ".jpg" in existing ==>
      exists n: nat :: 1 <= n && CoverName(title, existing) == ScriptKebab(title) + "-" + NatToString(n) + ".jpg"
        && forall m :: 1 <= m < n ==> ScriptKebab(title) + "-" + NatToString(m) + ".jpg" in existing
  {
    var base := ScriptKebab(title);
    var k := FirstFree(base, existing, 0);
    if base + ".jpg" in existing {
      assert Candidate(base, 0) in existing;
      assert k >= 1;
      forall m | 1 <= m < k ensures base + "-" + NatToString(m) + ".jpg" in existing {
        assert Candidate(base, m) in existing;
      }
    }
  }

  // ---------------------------------------------------------------------
  // `scanBooksForExternalCovers`.

  /** A book that still needs its cover: no (non-empty) local cover, and an
      external cover whose URL starts with `http`. */
  predicate NeedsDownload(b: Book) {
    && !(b.coverLocal.Some? && b.coverLocal.value != "")
    && b.cover.Some? && StartsWith(b.cover.value, "http")
  }

  /** A book to fetch: its file, its record and the URL of its cover. */
  datatype Found = Found(filePath: Path, book: Book, coverUrl: string)

  /** The books found and the parse warnings printed. */
  datatype Scan = Scan(found: seq<Found>, warnings: seq<string>)

  function ParseWarning(file: string, message: string): string {
    "Warning: Could not parse " + file + ": " + message
  }

  /** The loop over one folder's `.json` names. */
  function ScanFiles(fs: FileSystem, dir: Path, names: seq<string>): Scan
    requires PlainPath(dir)
  {
    if names == [] then Scan([], [])
    else
      var prev := ScanFiles(fs, dir, names[..|names| - 1]);
      var file := names[|names| - 1];
      var p := Join(dir, file);
      match ReadBook(fs, p)
      case Failure(m) => Scan(prev.found, prev.warnings + [ParseWarning(file, m)])
      case Success(b) =>
        if NeedsDownload(b) then Scan(prev.found + [Found(p, b, b.cover.value)], prev.warnings) else prev
  }

  /** The loop over the fixed shelf folders; a missing folder is skipped and
      a folder that cannot be listed ends the script. */
  function ScanFolders(fs: FileSystem, books: Path, folders: seq<string>, order: set<string> -> seq<string>)
    : Result<Scan, string>
    requires PlainPath(books)
  {
    if folders == [] then Success(Scan([], []))
    else
      var prev :- ScanFolders(fs, books, folders[..|folders| - 1], order);
      var folderPath := Join(books, folders[|folders| - 1]);
      if !Exists(fs, folderPath) then Success(prev)
      else
        var names :- ListDir(fs, folderPath, order);
        var here := ScanFiles(fs, folderPath, JsonNames(names));
        Success(Scan(prev.found + here.found, prev.warnings + here.warnings))
  }

  /** Everything the scan keeps is a stored record that needs its cover, and
      every name gives at most one finding or one warning. */
  lemma {:induction false} ScanFilesSound(fs: FileSystem, dir: Path, names: seq<string>)
    requires PlainPath(dir)
    ensures var r := ScanFiles(fs, dir, names);
      && |r.found| + |r.warnings| <= |names|
      && forall x :: x in r.found ==>
           x.filePath in fs.files && fs.files[x.filePath] == BookDoc(x.book)
           && NeedsDownload(x.book) && x.coverUrl == x.book.cover.value
  {
    if names != [] {
      ScanFilesSound(fs, dir, names[..|names| - 1]);
    }
  }

  /** Every parseable record that needs its cover is kept, and every file
      that does not parse is warned about. */
  lemma {:induction false} ScanFilesComplete(fs: FileSystem, dir: Path, names: seq<string>, file: string)
    requires PlainPath(dir) && file in names
    ensures var r := ScanFiles(fs, dir, names);
      var p := Join(dir, file);
      && (ReadBook(fs, p).Success? && NeedsDownload(ReadBook(fs, p).value) ==>
            Found(p, ReadBook(fs, p).value, ReadBook(fs, p).value.cover.value) in r.found)
      && (ReadBook(fs, p).Failure? ==> ParseWarning(file, ReadBook(fs, p).error) in r.warnings)
  {
    var init := names[..|names| - 1];
    if file != names[|names| - 1] {
      assert names == init + [names[|names| - 1]];
      assert file in init;
      ScanFilesComplete(fs, dir, init, file);
    }
  }

  /** Everything the whole scan keeps is a stored record that needs its
      cover, in one of the folders scanned. */
  lemma {:induction false} ScanFoldersSound(fs: FileSystem, books: Path, folders: seq<string>,
                                            order: set<string> -> seq<string>)
    requires PlainPath(books) && ScanFolders(fs, books, folders, order).Success?
    ensures forall x :: x in ScanFolders(fs, books, folders, order).value.found ==>
      && x.filePath in fs.files && fs.files[x.filePath] == BookDoc(x.book)
      && NeedsDownload(x.book) && x.coverUrl == x.book.cover.value
  {
    if folders != [] {
      var init := folders[..|folders| - 1];
      ScanFoldersSound(fs, books, init, order);
      var folderPath := Join(books, folders[|folders| - 1]);
      if Exists(fs, folderPath) {
        ScanFilesSound(fs, folderPath, JsonNames(ListDir(fs, folderPath, order).value));
      }
    }
  }

  /** Each folder that is a directory contributes everything its own scan
      finds and warns about. */
  lemma {:induction false} ScanFoldersHas(fs: FileSystem, books: Path, folders: seq<string>,
                                          order: set<string> -> seq<string>, i: nat)
    requires PlainPath(books) && ScanFolders(fs, books, folders, order).Success?
    requires i < |folders| && Join(books, folders[i]) in fs.dirs
    ensures var here := ScanFiles(fs, Join(books, folders[i]), JsonNames(order(Entries(fs, Join(books, folders[i])))));
      var r := ScanFolders(fs, books, folders, order).value;
      && (forall x :: x in here.found ==> x in r.found)
      && (forall w :: w in here.warnings ==> w in r.warnings)
  {
    var init := folders[..|folders| - 1];
    if i < |folders| - 1 {
      assert folders[i] == init[i];
      ScanFoldersHas(fs, books, init, order, i);
    }
  }

  // ---------------------------------------------------------------------
  // `downloadImage`.

  /** What one request gets back: a status line (with the `location` header
      when there is one), a connection error, an error while writing the
      body to disk, or no answer within the timeout. */
  datatype Response =
    | Reply(code: int, location: Option<string>)
    | ConnectionError(message: string)
    | WriteError(message: string)
    | TimedOut

  /** How a download settles: saved, or rejected with a message; in both
      cases after `used` responses. `Unsettled` is a download still waiting
      when the responses run out. */
  datatype Attempt = Saved(used: nat) | Rejected(message: string, used: nat) | Unsettled

  function Later(a: Attempt): Attempt {
    match a
    case Saved(n) => Saved(n + 1)
    case Rejected(m, n) => Rejected(m, n + 1)
    case Unsettled => Unsettled
  }

  predicate IsRedirect(r: Response) {
    r.Reply? && 300 <= r.code < 400 && r.location.Some? && r.location.value != ""
  }

  /** `downloadImage(url, destPath, retries)` against the responses the
      network gives, in order. A redirect is followed with the same budget;
      a connection error is retried while the budget lasts; any other status
      than 200 rejects at once. */
  function DownloadImage(responses: seq<Response>, retries: nat): (r: Attempt)
    ensures r.Saved? ==> 1 <= r.used <= |responses|
    ensures r.Rejected? ==> 1 <= r.used <= |responses|
    decreases |responses|
  {
    if responses == [] then Unsettled
    else
      var rest := responses[1..];
      match responses[0]
      case Reply(code, location) =>
        if IsRedirect(responses[0]) then Later(DownloadImage(rest, retries))
        else if code != 200 then Rejected("HTTP " + IntToString(code), 1)
        else Saved(1)
      case ConnectionError(m) =>
        if retries > 0 then Later(DownloadImage(rest, retries - 1)) else Rejected(m, 1)
      case WriteError(m) => Rejected(m, 1)
      case TimedOut => Rejected("Request timeout", 1)
  }

  /** The connection errors among `rs`. */
  function ConnectionErrors(rs: seq<Response>): nat {
    if rs == [] then 0 else ConnectionErrors(rs[..|rs| - 1]) + (if rs[|rs| - 1].ConnectionError? then 1 else 0)
  }

  lemma {:induction false} ConnectionErrorsCons(r: Response, rs: seq<Response>)
    ensures ConnectionErrors([r] + rs) == (if r.ConnectionError? then 1 else 0) + ConnectionErrors(rs)
    decreases |rs|
  {
    if rs != [] {
      var init := rs[..|rs| - 1];
      assert ([r] + rs)[..|rs|] == [r] + init;
      ConnectionErrorsCons(r, init);
    } else {
      assert ([r] + rs)[..0] == [];
    }
  }

  /** The retry budget: a download that settles has met at most `retries`
      connection errors before its last response, so it made at most
      `retries + 1` attempts per address; one that is rejected by a
      connection error has used up the whole budget. */
  lemma {:induction false} DownloadBudget(responses: seq<Response>, retries: nat)
    requires !DownloadImage(responses, retries).Unsettled?
    ensures var a := DownloadImage(responses, retries);
      var n := a.used;
      && ConnectionErrors(responses[..n - 1]) <= retries
      && (a.Saved? ==> responses[n - 1].Reply? && responses[n - 1].code == 200)
      && (a.Rejected? && responses[n - 1].ConnectionError? ==> ConnectionErrors(responses[..n - 1]) == retries)
    decreases |responses|
  {
    var a := DownloadImage(responses, retries);
    var n := a.used;
    var rest := responses[1..];
    assert responses == [responses[0]] + rest;
    if n > 1 {
      var retries' := if responses[0].ConnectionError? then retries - 1 else retries;
      DownloadBudget(rest, retries');
      assert responses[..n - 1] == [responses[0]] + rest[..n - 2];
      ConnectionErrorsCons(responses[0], rest[..n - 2]);
    } else {
      assert responses[..0] == [];
    }
  }

  /** A status other than 200 that is not a redirect rejects at once,
      without a retry. */
  lemma StatusRejects(code: int, location: Option<string>, rest: seq<Response>, retries: nat)
    requires code != 200 && !IsRedirect(Reply(code, location))
    ensures DownloadImage([Reply(code, location)] + rest, retries) == Rejected("HTTP " + IntToString(code), 1)
  {
  }

  /** A redirect uses none of the budget. */
  lemma RedirectKeepsBudget(location: string, rest: seq<Response>, retries: nat)
    requires location != ""
    ensures DownloadImage([Reply(302, Some(location))] + rest, retries) == Later(DownloadImage(rest, retries))
  {
    assert ([Reply(302, Some(location))] + rest)[1..] == rest;
  }

  /** Redirects are followed to any depth. */
  lemma {:induction false} RedirectChain(n: nat, retries: nat)
    ensures DownloadImage(Redirects(n) + [Reply(200, None)], retries) == Saved(n + 1)
  {
    if n > 0 {
      var rs := Redirects(n) + [Reply(200, None)];
      assert rs[1..] == Redirects(n - 1) + [Reply(200, None)];
      RedirectChain(n - 1, retries);
    }
  }

  function Redirects(n: nat): (r: seq<Response>)
    ensures |r| == n && forall i :: 0 <= i < n ==> r[i] == Reply(302, Some("/next"))
  {
    if n == 0 then [] else [Reply(302, Some("/next"))] + Redirects(n - 1)
  }

  // ---------------------------------------------------------------------
  // `updateBookJson` and the download loop of `main`.

  /** `updateBookJson`: read the record, set `coverLocal`, write it back. */
  function UpdateBookJson(fs: FileSystem, filePath: Path, coverLocal: string): (r: Result<FileSystem, string>)
    ensures r.Success? ==> filePath in fs.files && fs.files[filePath].BookDoc?
    ensures r.Success? ==> r.value == FileSystem(
      fs.files[filePath := BookDoc(fs.files[filePath].book.(coverLocal := Some(coverLocal)))], fs.dirs)
  {
    var b :- ReadBook(fs, filePath);
    WriteFile(fs, filePath, BookDoc(b.(coverLocal := Some(coverLocal))))
  }

  /** Only `coverLocal` changes: every other field of the record is kept. */
  lemma UpdateKeepsFields(fs: FileSystem, filePath: Path, coverLocal: string)
    requires UpdateBookJson(fs, filePath, coverLocal).Success?
    ensures var b := fs.files[filePath].book;
      var c := UpdateBookJson(fs, filePath, coverLocal).value.files[filePath].book;
      && c.coverLocal == Some(coverLocal)
      && c.title == b.title && c.author == b.author && c.category == b.category
      && c.publishDate == b.publishDate && c.pages == b.pages && c.cover == b.cover
      && c.notes == b.notes && c.link == b.link && c.clickBehavior == b.clickBehavior
  {
  }

  /** The loop's state: the tree, the names taken, and the two counters. */
  datatype Progress = Progress(fs: FileSystem, existing: set<string>, successCount: nat, failCount: nat)

  /** `fs.existsSync(destPath) && fs.unlinkSync(destPath)` for the file a
      failed download may have left. */
  function RemovePartial(fs: FileSystem, dest: Path): FileSystem {
    if dest in fs.files then FileSystem(fs.files - {dest}, fs.dirs) else fs
  }

  /** The download settles: the script waits for every download to end. */
  predicate Settles(responses: seq<Response>) {
    !DownloadImage(responses, 3).Unsettled?
  }

  /** `await downloadImage(coverUrl, destPath)` with the default budget of
      three retries: the image is written to `dest` when the download is
      saved, and the rejection's message comes back otherwise. */
  function SaveCover(fs: FileSystem, dest: Path, url: string, responses: seq<Response>): (r: Result<FileSystem, string>)
    requires Settles(responses)
    ensures r.Success? <==> DownloadImage(responses, 3).Saved? && WriteFile(fs, dest, Binary(url)).Success?
    ensures r.Success? ==> r.value == FileSystem(fs.files[dest := Binary(url)], fs.dirs)
  {
    var attempt := DownloadImage(responses, 3);
    if attempt.Saved? then WriteFile(fs, dest, Binary(url)) else Failure(attempt.message)
  }

  /** One pass of the loop: name the cover, download it, then record it in
      the book; any failure counts as one and leaves no cover file. */
  function DownloadStep(st: Progress, coversDir: Path, item: Found, responses: seq<Response>): Progress
    requires Settles(responses)
  {
    var fileName := CoverName(item.book.title, st.existing);
    var dest := coversDir + [fileName];
    var existing := st.existing + {fileName};
    match SaveCover(st.fs, dest, item.coverUrl, responses)
    case Failure(_) => Progress(RemovePartial(st.fs, dest), existing, st.successCount, st.failCount + 1)
    case Success(fs1) =>
      match UpdateBookJson(fs1, item.filePath, "covers/" + fileName)
      case Success(fs2) => Progress(fs2, existing, st.successCount + 1, st.failCount)
      case Failure(_) => Progress(RemovePartial(fs1, dest), existing, st.successCount, st.failCount + 1)
  }

  /** The loop over the books chosen, each with the responses its download
      gets. */
  function DownloadAll(st: Progress, coversDir: Path, items: seq<Found>, responses: seq<seq<Response>>): Progress
    requires |responses| == |items| && forall j :: 0 <= j < |items| ==> Settles(responses[j])
  {
    if items == [] then st
    else
      var k := |items| - 1;
      DownloadStep(DownloadAll(st, coversDir, items[..k], responses[..k]), coversDir, items[k], responses[k])
  }

  /** Every book attempted is counted once, as a success or as a failure. */
  lemma {:induction false} DownloadCounts(st: Progress, coversDir: Path, items: seq<Found>, responses: seq<seq<Response>>)
    requires |responses| == |items| && forall j :: 0 <= j < |items| ==> Settles(responses[j])
    ensures var r := DownloadAll(st, coversDir, items, responses);
      r.successCount + r.failCount == st.successCount + st.failCount + |items|
  {
    if items != [] {
      var k := |items| - 1;
      DownloadCounts(st, coversDir, items[..k], responses[..k]);
    }
  }

  /** A pass touches nothing outside the covers folder except its own book
      file, and that file only when the download succeeded; it then holds
      the old record with `coverLocal` set to the new name. */
  lemma DownloadStepFrame(st: Progress, coversDir: Path, item: Found, responses: seq<Response>, p: Path)
    requires Settles(responses)
    requires !Under(p, coversDir)
    ensures var r := DownloadStep(st, coversDir, item, responses);
      var fileName := CoverName(item.book.title, st.existing);
      && (p in r.fs.files <==> p in st.fs.files)
      && (p in r.fs.files && r.fs.files[p] != st.fs.files[p] ==>
            && p == item.filePath
            && DownloadImage(responses, 3).Saved?
            && st.fs.files[p].BookDoc?
            && r.fs.files[p] == BookDoc(st.fs.files[p].book.(coverLocal := Some("covers/" + fileName)))
            && r.successCount == st.successCount + 1)
  {
    var fileName := CoverName(item.book.title, st.existing);
    var dest := coversDir + [fileName];
    assert dest != p by {
      assert Under(dest, coversDir);
    }
  }

  /** Each pass takes a name nobody had and adds it to the names taken. */
  lemma DownloadStepNames(st: Progress, coversDir: Path, item: Found, responses: seq<Response>)
    requires Settles(responses)
    ensures var r := DownloadStep(st, coversDir, item, responses);
      var fileName := CoverName(item.book.title, st.existing);
      fileName !in st.existing && r.existing == st.existing + {fileName}
  {
    CoverNameFirstFree(item.book.title, st.existing);
  }


  /** Every name in the covers folder is among the names taken. */
  ghost predicate Known(fs: FileSystem, dir: Path, existing: set<string>) {
    forall n :: Exists(fs, dir + [n]) ==> n in existing
  }

  lemma EntriesKnown(fs: FileSystem, dir: Path)
    ensures Known(fs, dir, Entries(fs, dir))
  {
    forall n | Exists(fs, dir + [n]) ensures n in Entries(fs, dir) {
      EntriesMember(fs, dir, n);
    }
  }

  /** The start of the download phase of `main`: create the covers folder
      when it is missing, then take its listing as the names in use. */
  function PrepareCovers(fs: FileSystem, coversDir: Path): (r: Result<(FileSystem, set<string>), string>)
    ensures r.Success? ==> Known(r.value.0, coversDir, r.value.1)
    ensures r.Success? ==> coversDir in r.value.0.files.Keys + r.value.0.dirs && r.value.0.files == fs.files
  {
    var fs1 :- if Exists(fs, coversDir) then Success(fs) else Mkdirs(fs, coversDir);
    if coversDir in fs1.dirs then
      EntriesKnown(fs1, coversDir);
      Success((fs1, Entries(fs1, coversDir)))
    else Failure("ENOTDIR")
  }

  /** A pass chooses a name that is not in the covers folder, and keeps
      every name there among the names taken. */
  lemma DownloadStepKnown(st: Progress, coversDir: Path, item: Found, responses: seq<Response>)
    requires Settles(responses)
    requires Known(st.fs, coversDir, st.existing)
    ensures !Exists(st.fs, coversDir + [CoverName(item.book.title, st.existing)])
    ensures var r := DownloadStep(st, coversDir, item, responses);
      Known(r.fs, coversDir, r.existing) && r.fs.dirs == st.fs.dirs
  {
    var fileName := CoverName(item.book.title, st.existing);
    var dest := coversDir + [fileName];
    CoverNameFirstFree(item.book.title, st.existing);
    var r := DownloadStep(st, coversDir, item, responses);
    forall n | Exists(r.fs, coversDir + [n]) ensures n in r.existing {
      if n != fileName {
        assert coversDir + [n] != dest;
        assert Exists(st.fs, coversDir + [n]);
      }
    }
  }

  /** What a pass does to the files: a success stores the image under the
      new name and records that name in the book, and changes nothing
      else; a failure changes no file at all. */
  lemma DownloadStepOutcome(st: Progress, coversDir: Path, item: Found, responses: seq<Response>)
    requires Settles(responses)
    requires Known(st.fs, coversDir, st.existing)
    ensures var r := DownloadStep(st, coversDir, item, responses);
      var fileName := CoverName(item.book.title, st.existing);
      var dest := coversDir + [fileName];
      && ((r.successCount == st.successCount + 1 && r.failCount == st.failCount)
          || (r.successCount == st.successCount && r.failCount == st.failCount + 1))
      && (r.failCount == st.failCount + 1 ==> r.fs == st.fs)
      && (r.successCount == st.successCount + 1 ==>
            && DownloadImage(responses, 3).Saved?
            && item.filePath in st.fs.files && st.fs.files[item.filePath].BookDoc?
            && r.fs == FileSystem(st.fs.files[dest := Binary(item.coverUrl)][item.filePath :=
                 BookDoc(st.fs.files[item.filePath].book.(coverLocal := Some("covers/" + fileName)))], st.fs.dirs))
  {
    var fileName := CoverName(item.book.title, st.existing);
    var dest := coversDir + [fileName];
    DownloadStepKnown(st, coversDir, item, responses);
    var r := DownloadStep(st, coversDir, item, responses);
    assert dest !in st.fs.files;
    assert st.fs.files[dest := Binary(item.coverUrl)] - {dest} == st.fs.files;
    if SaveCover(st.fs, dest, item.coverUrl, responses).Success? {
      var fs1 := SaveCover(st.fs, dest, item.coverUrl, responses).value;
      if UpdateBookJson(fs1, item.filePath, "covers/" + fileName).Success? {
        assert item.filePath != dest;
      }
    }
  }

  /** The loop keeps every name in the covers folder among the names taken. */
  lemma {:induction false} DownloadAllKnown(st: Progress, coversDir: Path, items: seq<Found>, responses: seq<seq<Response>>)
    requires |responses| == |items| && forall j :: 0 <= j < |items| ==> Settles(responses[j])
    requires Known(st.fs, coversDir, st.existing)
    ensures var r := DownloadAll(st, coversDir, items, responses);
      Known(r.fs, coversDir, r.existing) && r.fs.dirs == st.fs.dirs && st.existing <= r.existing
  {
    if items != [] {
      var k := |items| - 1;
      DownloadAllKnown(st, coversDir, items[..k], responses[..k]);
      DownloadStepKnown(DownloadAll(st, coversDir, items[..k], responses[..k]), coversDir, items[k], responses[k]);
    }
  }

  lemma {:induction false} DownloadAllPrefix(st: Progress, coversDir: Path, items: seq<Found>,
                                             responses: seq<seq<Response>>, i: nat)
    requires |responses| == |items| && forall j :: 0 <= j < |items| ==> Settles(responses[j])
    requires i < |items|
    ensures DownloadAll(st, coversDir, items[..i + 1], responses[..i + 1])
      == DownloadStep(DownloadAll(st, coversDir, items[..i], responses[..i]), coversDir, items[i], responses[i])
  {
    assert items[..i + 1][..i] == items[..i];
    assert responses[..i + 1][..i] == responses[..i];
  }

  /** The script's state while it downloads. */
  class CoverDownload {
    var fs: FileSystem
    var existingFiles: set<string>
    var successCount: nat
    var failCount: nat
    const coversDir: Path

    constructor(fs0: FileSystem, coversDir: Path)
      ensures fs == fs0 && this.coversDir == coversDir
      ensures existingFiles == {} && successCount == 0 && failCount == 0
    {
      this.fs := fs0;
      this.coversDir := coversDir;
      this.existingFiles := {};
      this.successCount := 0;
      this.failCount := 0;
    }

    function State(): Progress
      reads this
    {
      Progress(fs, existingFiles, successCount, failCount)
    }

    /** Create the covers folder if needed and read the names it holds. */
    method Prepare() returns (r: Result<(), string>)
      modifies this
      ensures r.Success? <==> PrepareCovers(old(fs), coversDir).Success?
      ensures r.Success? ==> (fs, existingFiles) == PrepareCovers(old(fs), coversDir).value
      ensures r.Failure? ==> fs == old(fs) && existingFiles == old(existingFiles)
      ensures successCount == old(successCount) && failCount == old(failCount)
    {
      var fs1 := fs;
      if !Exists(fs, coversDir) {
        var made := Mkdirs(fs, coversDir);
        if made.Failure? {
          return Failure(made.error);
        }
        fs1 := made.value;
      }
      if coversDir !in fs1.dirs {
        return Failure("ENOTDIR");
      }
      fs := fs1;
      existingFiles := Entries(fs1, coversDir);
      r := Success(());
    }

    /** `generateCoverFilename`: try `base.jpg`, `base-1.jpg`, ... until a
        name is free, take it and return it. */
    method GenerateCoverFilename(title: string) returns (fileName: string)
      modifies this
      ensures fileName == CoverName(title, old(existingFiles))
      ensures fileName !in old(existingFiles) && existingFiles == old(existingFiles) + {fileName}
      ensures fs == old(fs) && successCount == old(successCount) && failCount == old(failCount)
    {
      var baseName := ScriptKebab(title);
      var taken := existingFiles;
      fileName := baseName + ".jpg";
      var counter := 1;
      while fileName in taken
        invariant 1 <= counter
        invariant fileName == Candidate(baseName, counter - 1)
        invariant forall m :: 0 <= m < counter - 1 ==> Candidate(baseName, m) in taken
        invariant State() == old(State())
        decreases |taken| - counter + 1
      {
        TakenBound(baseName, taken, counter);
        fileName := baseName + "-" + NatToString(counter) + ".jpg";
        counter := counter + 1;
      }
      FirstFreeIs(baseName, taken, counter - 1);
      existingFiles := taken + {fileName};
    }

    /** `updateBookJson`. */
    method UpdateBook(filePath: Path, coverLocal: string) returns (r: Result<(), string>)
      modifies this
      ensures r.Success? <==> UpdateBookJson(old(fs), filePath, coverLocal).Success?
      ensures r.Success? ==> fs == UpdateBookJson(old(fs), filePath, coverLocal).value
      ensures r.Failure? ==> fs == old(fs)
      ensures existingFiles == old(existingFiles) && successCount == old(successCount) && failCount == old(failCount)
    {
      var book := ReadBook(fs, filePath);
      if book.Failure? {
        return Failure(book.error);
      }
      var written := WriteFile(fs, filePath, BookDoc(book.value.(coverLocal := Some(coverLocal))));
      if written.Failure? {
        return Failure(written.error);
      }
      fs := written.value;
      r := Success(());
    }

    /** One pass of the download loop of `main`. */
    method DownloadOne(item: Found, responses: seq<Response>)
      requires Settles(responses)
      modifies this
      ensures State() == DownloadStep(old(State()), coversDir, item, responses)
    {
      var fileName := GenerateCoverFilename(item.book.title);
      var destPath := coversDir + [fileName];
      var coverLocal := "covers/" + fileName;
      var saved := SaveCover(fs, destPath, item.coverUrl, responses);
      var ok := false;
      if saved.Success? {
        fs := saved.value;
        var updated := UpdateBook(item.filePath, coverLocal);
        ok := updated.Success?;
      }
      if ok {
        successCount := successCount + 1;
      } else {
        failCount := failCount + 1;
        if destPath in fs.files {
          fs := FileSystem(fs.files - {destPath}, fs.dirs);
        }
      }
    }

    /** The download loop of `main`. */
    method DownloadEach(items: seq<Found>, responses: seq<seq<Response>>)
      requires |responses| == |items| && forall j :: 0 <= j < |items| ==> Settles(responses[j])
      modifies this
      ensures State() == DownloadAll(old(State()), coversDir, items, responses)
    {
      ghost var st0 := State();
      var i := 0;
      while i < |items|
        invariant 0 <= i <= |items|
        invariant State() == DownloadAll(st0, coversDir, items[..i], responses[..i])
      {
        DownloadAllPrefix(st0, coversDir, items, responses, i);
        DownloadOne(items[i], responses[i]);
        i := i + 1;
      }
      assert items[..i] == items && responses[..i] == responses;
    }
  }
}
