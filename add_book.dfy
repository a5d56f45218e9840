/** The interactive add/move script (`scripts/add-book.js`): its field
    validators, ISBN detection and year extraction, the bounded retry loop
    around a network request, the map from shelf id to folder, the listing
    of every book, and the guards and file effects of the move and add
    flows. The prompts are left to the caller: every answer is a parameter,
    and every network attempt is an outcome given in advance. */
module AddBook {
  import opened Wrappers
  import opened Text
  import opened Types
  import opened Seqs
  import opened Files
  import ConfigLib
  import opened SiteBuild

  // ---------------------------------------------------------------------
  // Field validators.

  /** `validateRequired`: blank input is refused, anything else trimmed. */
  function ValidateRequired(value: string, fieldName: string): (r: Result<string, string>)
    ensures r.Failure? <==> IsBlank(value)
    ensures r.Failure? ==> r.error == fieldName + " is required"
    ensures r.Success? ==> r.value == Trim(value) && r.value != []
  {
    var t := Trim(value);
    if t == [] then Failure(fieldName + " is required") else Success(t)
  }

  /** A value the validator accepted passes it again unchanged. */
  lemma ValidateRequiredIdempotent(value: string, fieldName: string)
    requires ValidateRequired(value, fieldName).Success?
    ensures ValidateRequired(ValidateRequired(value, fieldName).value, fieldName)
      == ValidateRequired(value, fieldName)
  {
    var t := Trim(value);
    TrimNoop(t);
    assert !IsBlank(t) by {
      assert !IsSpace(t[0]);
    }
  }

  /** `/^\d{4}-\d{2}-\d{2}$/`: digits and dashes in that shape, nothing
      more (the regular expression has no multi-line flag, so `$` is the
      end of the input). */
  predicate DateShape(s: string) {
    && |s| == 10
    && AllDigits(s[0..4]) && s[4] == '-' && AllDigits(s[5..7]) && s[7] == '-' && AllDigits(s[8..10])
  }

  const DateFormatError := "Date must be in YYYY-MM-DD format"

  /** `validateDate`. */
  function ValidateDate(value: string): (r: Result<string, string>)
    ensures r.Success? <==> DateShape(value)
    ensures r.Success? ==> r.value == value
    ensures r.Failure? ==> r.error == DateFormatError
  {
    if DateShape(value) then Success(value) else Failure(DateFormatError)
  }

  /** Only the shape is checked: a month 13 and a day 45 pass, a one-digit
      month does not. */
  lemma ValidateDateShapeOnly()
    ensures ValidateDate("2024-13-45").Success?
    ensures ValidateDate("2024-1-05").Failure?
  {
    assert AllDigits("2024-13-45"[0..4]) by { assert "2024-13-45"[0..4] == "2024"; }
    assert AllDigits("2024-13-45"[5..7]) by { assert "2024-13-45"[5..7] == "13"; }
    assert AllDigits("2024-13-45"[8..10]) by { assert "2024-13-45"[8..10] == "45"; }
  }

  /** The longest run of digits `s` starts with. */
  function LeadingDigits(s: string): (r: string)
    ensures |r| <= |s| && r == s[..|r|] && AllDigits(r)
    ensures |r| == |s| || !IsDigit(s[|r|])
  {
    if s == [] || !IsDigit(s[0]) then []
    else
      var rest := LeadingDigits(s[1..]);
      assert s[..|rest| + 1] == [s[0]] + rest;
      [s[0]] + rest
  }

  /** `parseInt(value, 10)`: leading white space is skipped, then an
      optional sign, then the longest run of decimal digits; without a
      digit the result is `NaN` (`None`). */
  function ParseInt(value: string): (r: Option<int>)
    ensures r.Some? <==> var body := Unsigned(TrimStart(value)); |body| > 0 && IsDigit(body[0])
  {
    ParseSigned(TrimStart(value))
  }

  /** The text after an optional leading sign. */
  function Unsigned(t: string): (r: string)
    ensures |r| <= |t|
  {
    if |t| > 0 && (t[0] == '-' || t[0] == '+') then t[1..] else t
  }

  /** `parseInt` once the white space is skipped. */
  function ParseSigned(t: string): (r: Option<int>)
    ensures r.Some? <==> |Unsigned(t)| > 0 && IsDigit(Unsigned(t)[0])
  {
    var digits := LeadingDigits(Unsigned(t));
    if |digits| == 0 then None
    else if |t| > 0 && t[0] == '-' then Some(-(DigitsValue(digits) as int))
    else Some(DigitsValue(digits))
  }

  /** `validateNumber`: `NaN` and anything not above zero are refused. */
  function ValidateNumber(value: string, fieldName: string): (r: Result<int, string>)
    ensures r.Success? <==> ParseInt(value).Some? && ParseInt(value).value > 0
    ensures r.Success? ==> r.value == ParseInt(value).value && r.value > 0
    ensures r.Failure? ==> r.error == fieldName + " must be a positive number"
  {
    match ParseInt(value)
    case None => Failure(fieldName + " must be a positive number")
    case Some(n) => if n <= 0 then Failure(fieldName + " must be a positive number") else Success(n)
  }

  lemma LeadingDigitsAll(s: string)
    requires AllDigits(s)
    ensures LeadingDigits(s) == s
  {
  }

  /** `parseInt` reads the decimal rendering of a number back as that number. */
  lemma ParseIntRendering(n: nat)
    ensures ParseInt(NatToString(n)) == Some(n)
  {
    var s := NatToString(n);
    assert IsDigit(s[0]) && !IsSpace(s[0]);
    assert TrimStart(s) == s;
    ParseSignedDigits(s);
    NatToStringValue(n);
  }

  /** A run of digits is read as the number it denotes. */
  lemma ParseSignedDigits(s: string)
    requires |s| > 0 && AllDigits(s)
    ensures ParseSigned(s) == Some(DigitsValue(s) as int)
  {
    assert IsDigit(s[0]);
    assert Unsigned(s) == s;
    LeadingDigitsAll(s);
  }

  /** The decimal rendering of a positive number is accepted and read back
      as that number. */
  lemma ValidateNumberRoundTrip(n: nat, fieldName: string)
    requires n > 0
    ensures ValidateNumber(NatToString(n), fieldName) == Success(n)
  {
    ParseIntRendering(n);
  }

  /** Like `parseInt`, the validator skips leading white space, reads the
      leading number and ignores what follows it. */
  lemma ValidateNumberReadsPrefix()
    ensures ValidateNumber(" 12 pages", "Pages") == Success(12)
  {
    assert TrimStart(" 12 pages") == "12 pages" by {
      assert IsSpace(' ') && !IsSpace('1');
      assert " 12 pages"[1..] == "12 pages";
    }
    assert LeadingDigits("12 pages") == "12" by {
      assert "12 pages"[1..] == "2 pages";
      assert "2 pages"[1..] == " pages";
      assert !IsDigit(' ');
    }
    assert DigitsValue("12") == 12 by {
      assert "12"[..1] == "1";
      assert "1"[..0] == "";
    }
  }

  /** Zero is refused. */
  lemma ValidateNumberRefusesZero(fieldName: string)
    ensures ValidateNumber(NatToString(0), fieldName).Failure?
  {
    ParseIntRendering(0);
  }

  /** A negative number is refused. */
  lemma ValidateNumberRefusesNegative()
    ensures ValidateNumber("-5", "Pages").Failure?
  {
    assert TrimStart("-5") == "-5";
    assert "-5"[1..] == "5";
    assert LeadingDigits("5") == "5" by { assert "5"[1..] == ""; }
  }

  /** Text without a number is refused. */
  lemma ValidateNumberRefusesText()
    ensures ValidateNumber("pages", "Pages").Failure?
  {
    assert TrimStart("pages") == "pages";
    assert LeadingDigits("pages") == "";
  }

  // ---------------------------------------------------------------------
  // ISBN detection and year extraction.

  predicate Separator(c: char) { c == '-' || IsSpace(c) }

  /** `query.replace(/[-\s]/g, '')`. */
  function StripSeparators(s: string): (r: string)
    ensures forall i :: 0 <= i < |r| ==> !Separator(r[i])
  {
    if s == [] then []
    else (if Separator(s[0]) then [] else [s[0]]) + StripSeparators(s[1..])
  }

  lemma {:induction false} StripSeparatorsAppend(a: string, b: string)
    ensures StripSeparators(a + b) == StripSeparators(a) + StripSeparators(b)
  {
    if a == [] {
      assert a + b == b;
    } else {
      assert (a + b)[0] == a[0] && (a + b)[1..] == a[1..] + b;
      StripSeparatorsAppend(a[1..], b);
    }
  }

  /** `isIsbn`: after removing dashes and white space, exactly ten or
      exactly thirteen digits. */
  predicate IsIsbn(query: string) {
    var cleaned := StripSeparators(query);
    AllDigits(cleaned) && (|cleaned| == 10 || |cleaned| == 13)
  }

  /** Dashes and white space anywhere in the query do not matter. */
  lemma IsbnIgnoresSeparator(a: string, c: char, b: string)
    requires Separator(c)
    ensures IsIsbn(a + [c] + b) == IsIsbn(a + b)
  {
    StripSeparatorsAppend(a + [c], b);
    StripSeparatorsAppend(a, [c]);
    StripSeparatorsAppend(a, b);
    assert StripSeparators([c]) == [] by {
      assert [c][1..] == [];
    }
    assert StripSeparators(a + [c]) == StripSeparators(a);
    assert StripSeparators(a + [c] + b) == StripSeparators(a + b);
  }

  /** Any other character than a digit, a dash or white space rules a
      query out. */
  lemma IsbnOnlyDigits(a: string, c: char, b: string)
    requires !Separator(c) && !IsDigit(c)
    ensures !IsIsbn(a + [c] + b)
  {
    StripSeparatorsAppend(a + [c], b);
    StripSeparatorsAppend(a, [c]);
    assert StripSeparators([c]) == [c] by {
      assert [c][1..] == [];
    }
    var cleaned := StripSeparators(a + [c] + b);
    assert cleaned[|StripSeparators(a)|] == c;
  }

  /** Four digits start at `i`. */
  predicate YearAt(s: string, i: int) {
    0 <= i && i + 4 <= |s| && AllDigits(s[i..i + 4])
  }

  /** The first place from `from` on where `/\d{4}/` matches. */
  function FindYear(s: string, from: nat): (r: Option<nat>)
    ensures r.Some? ==> from <= r.value && YearAt(s, r.value)
    ensures r.Some? ==> forall j :: from <= j < r.value ==> !YearAt(s, j)
    ensures r.None? ==> forall j :: from <= j ==> !YearAt(s, j)
    decreases |s| - from
  {
    if from + 4 > |s| then None
    else if AllDigits(s[from..from + 4]) then Some(from)
    else FindYear(s, from + 1)
  }

  /** `extractYear`: the first four digits in a row, as the first of
      January of that year, or the empty string. */
  function ExtractYear(dateStr: string): string {
    match FindYear(dateStr, 0)
    case None => ""
    case Some(i) => dateStr[i..i + 4] + "-01-01"
  }

  /** The result is empty exactly when no four digits follow each other;
      otherwise it is the first such run followed by `-01-01`, a date the
      date validator accepts. */
  lemma ExtractYearShape(dateStr: string)
    ensures var r := ExtractYear(dateStr);
      && (r == "" <==> forall j :: !YearAt(dateStr, j))
      && (r != "" ==> exists i :: YearAt(dateStr, i) && (forall j :: 0 <= j < i ==> !YearAt(dateStr, j))
                                  && r == dateStr[i..i + 4] + "-01-01")
      && (r != "" ==> ValidateDate(r).Success?)
  {
    match FindYear(dateStr, 0)
    case None =>
    case Some(i) =>
      var r := dateStr[i..i + 4] + "-01-01";
      assert r[0..4] == dateStr[i..i + 4];
      assert r[5..7] == "01" && r[8..10] == "01";
      assert DateShape(r);
  }

  // ---------------------------------------------------------------------
  // `httpGetWithRetry`.

  /** What the attempts from `k` on settle to, given the error of the last
      failed attempt (`None` stands for `undefined`, thrown when no attempt
      is made at all). */
  function RetryFrom<V>(outcomes: seq<Result<V, string>>, k: nat, maxRetries: nat, lastError: Option<string>)
    : Result<V, Option<string>>
    requires maxRetries <= |outcomes|
    decreases maxRetries - k
  {
    if k >= maxRetries then Failure(lastError)
    else match outcomes[k]
      case Success(v) => Success(v)
      case Failure(e) => RetryFrom(outcomes, k + 1, maxRetries, Some(e))
  }

  /** `httpGetWithRetry(url, maxRetries)` where attempt `k` gets `outcomes[k]`. */
  function Retried<V>(outcomes: seq<Result<V, string>>, maxRetries: nat): Result<V, Option<string>>
    requires maxRetries <= |outcomes|
  {
    RetryFrom(outcomes, 0, maxRetries, None)
  }

  /** The first success among the attempts is returned. */
  lemma {:induction false} RetryFromFirstSuccess<V>(outcomes: seq<Result<V, string>>, k: nat, maxRetries: nat,
                                                    lastError: Option<string>, s: nat)
    requires maxRetries <= |outcomes| && k <= s < maxRetries
    requires outcomes[s].Success? && forall j :: k <= j < s ==> outcomes[j].Failure?
    ensures RetryFrom(outcomes, k, maxRetries, lastError) == Success(outcomes[s].value)
    decreases s - k
  {
    if k < s {
      RetryFromFirstSuccess(outcomes, k + 1, maxRetries, Some(outcomes[k].error), s);
    }
  }

  /** When every attempt fails, the last error is thrown. */
  lemma {:induction false} RetryFromAllFail<V>(outcomes: seq<Result<V, string>>, k: nat, maxRetries: nat,
                                               lastError: Option<string>)
    requires maxRetries <= |outcomes| && k < maxRetries
    requires forall j :: k <= j < maxRetries ==> outcomes[j].Failure?
    ensures RetryFrom(outcomes, k, maxRetries, lastError) == Failure(Some(outcomes[maxRetries - 1].error))
    decreases maxRetries - k
  {
    if k + 1 < maxRetries {
      RetryFromAllFail(outcomes, k + 1, maxRetries, Some(outcomes[k].error));
    }
  }

  /** Only the first `maxRetries` attempts matter. */
  lemma {:induction false} RetryFromBounded<V>(outcomes: seq<Result<V, string>>, more: seq<Result<V, string>>, k: nat,
                                               maxRetries: nat, lastError: Option<string>)
    requires maxRetries <= |outcomes|
    ensures RetryFrom(outcomes + more, k, maxRetries, lastError) == RetryFrom(outcomes, k, maxRetries, lastError)
    decreases maxRetries - k
  {
    if k < maxRetries {
      assert (outcomes + more)[k] == outcomes[k];
      if outcomes[k].Failure? {
        RetryFromBounded(outcomes, more, k + 1, maxRetries, Some(outcomes[k].error));
      }
    }
  }

  /** The counted loop: at most `maxRetries` attempts, the first success is
      returned, otherwise the last error is thrown. */
  method HttpGetWithRetry<V>(outcomes: seq<Result<V, string>>, maxRetries: nat) returns (r: Result<V, Option<string>>, attempts: nat)
    requires maxRetries <= |outcomes|
    ensures r == Retried(outcomes, maxRetries)
    ensures attempts <= maxRetries
    ensures r.Success? ==>
      (1 <= attempts && outcomes[attempts - 1] == Success(r.value)
       && forall j :: 0 <= j < attempts - 1 ==> outcomes[j].Failure?)
    ensures r.Failure? ==> attempts == maxRetries
  {
    var lastError: Option<string> := None;
    var attempt := 1;
    while attempt <= maxRetries
      invariant 1 <= attempt <= maxRetries + 1
      invariant RetryFrom(outcomes, attempt - 1, maxRetries, lastError) == Retried(outcomes, maxRetries)
      invariant forall j :: 0 <= j < attempt - 1 ==> outcomes[j].Failure?
    {
      var outcome := outcomes[attempt - 1];
      if outcome.Success? {
        return Success(outcome.value), attempt;
      }
      lastError := Some(outcome.error);
      attempt := attempt + 1;
    }
    return Failure(lastError), maxRetries;
  }

  /** The default budget of the script: three attempts in all, against the
      four (one plus three retries) the cover downloader allows. */
  lemma DefaultBudget<V>(outcomes: seq<Result<V, string>>)
    requires |outcomes| >= 3 && forall j :: 0 <= j < 3 ==> outcomes[j].Failure?
    ensures Retried(outcomes, 3) == Failure(Some(outcomes[2].error))
  {
    RetryFromAllFail(outcomes, 0, 3, None);
  }

  // ---------------------------------------------------------------------
  // `loadConfig` and `getShelfDirs`.

  const ConfigMissing := "Error: config.json not found"

  /** `loadConfig`: the file `config.json` of the site folder (joining a
      plain name appends that one segment, see `Files.JoinName`); a missing `config.json` ends the script, anything else
      is read and parsed. */
  function LoadConfig(fs: FileSystem, root: Path): (r: Result<Config, string>)
    requires PlainPath(root)
    ensures !Exists(fs, root + ["config.json"]) ==> r == Failure(ConfigMissing)
    ensures r.Success? ==> root + ["config.json"] in fs.files && fs.files[root + ["config.json"]] == ConfigDoc(r.value)
  {
    var p := root + ["config.json"];
    if !Exists(fs, p) then Failure(ConfigMissing) else ReadConfig(fs, p)
  }

  /** A plain JavaScript object used as a dictionary: its keys in insertion
      order, and the value under each. */
  datatype Dict = Dict(keys: seq<string>, values: map<string, string>)

  /** Each key listed once, and exactly the keys that hold a value. */
  predicate WellFormed(d: Dict) {
    && Distinct(d.keys)
    && (forall k :: k in d.keys ==> k in d.values)
    && (forall k :: k in d.values ==> k in d.keys)
  }

  /** `obj[k] = v`: a new key goes to the end of the key order, an existing
      key keeps its place and takes the new value. */
  function Put(d: Dict, k: string, v: string): (r: Dict)
    requires WellFormed(d)
    ensures WellFormed(r)
    ensures r.values == d.values[k := v]
    ensures k in d.values ==> r.keys == d.keys
    ensures k !in d.values ==> r.keys == d.keys + [k]
  {
    if k in d.values then Dict(d.keys, d.values[k := v])
    else Dict(d.keys + [k], d.values[k := v])
  }

  /** What `getShelfDirs` builds: one assignment per shelf, in order. */
  function ShelfDirs(shelves: seq<Shelf>): (r: Dict)
    ensures WellFormed(r)
  {
    if shelves == [] then Dict([], map[])
    else
      var last := shelves[|shelves| - 1];
      Put(ShelfDirs(shelves[..|shelves| - 1]), last.id, last.folder)
  }

  /** `getShelfDirs`: the `forEach` loop over the shelves. */
  method GetShelfDirs(shelves: seq<Shelf>) returns (d: Dict)
    ensures d == ShelfDirs(shelves)
  {
    d := Dict([], map[]);
    for i := 0 to |shelves|
      invariant d == ShelfDirs(shelves[..i])
    {
      assert shelves[..i + 1][..i] == shelves[..i];
      d := Put(d, shelves[i].id, shelves[i].folder);
    }
    assert shelves[..|shelves|] == shelves;
  }

  /** Exactly the ids of the shelves are keys. */
  lemma {:induction false} ShelfDirsKeys(shelves: seq<Shelf>, id: string)
    ensures id in ShelfDirs(shelves).values <==> HasShelf(shelves, id)
  {
    if shelves != [] {
      var init := shelves[..|shelves| - 1];
      ShelfDirsKeys(init, id);
      if HasShelf(shelves, id) && shelves[|shelves| - 1].id != id {
        var j :| 0 <= j < |shelves| && shelves[j].id == id;
        assert init[j].id == id;
      }
      if HasShelf(init, id) {
        var j :| 0 <= j < |init| && init[j].id == id;
        assert shelves[j].id == id;
      }
    }
  }

  /** When ids repeat, the last shelf with an id decides its folder. */
  lemma {:induction false} ShelfDirsLastWins(shelves: seq<Shelf>, i: nat)
    requires i < |shelves|
    requires forall j :: i < j < |shelves| ==> shelves[j].id != shelves[i].id
    ensures var d := ShelfDirs(shelves);
      shelves[i].id in d.values && d.values[shelves[i].id] == shelves[i].folder
  {
    if i < |shelves| - 1 {
      var init := shelves[..|shelves| - 1];
      assert init[i] == shelves[i];
      ShelfDirsLastWins(init, i);
    }
  }

  /** With distinct ids the key order is the order of the shelves. */
  lemma {:induction false} ShelfDirsOrder(shelves: seq<Shelf>)
    requires UniqueIds(shelves)
    ensures ShelfDirs(shelves).keys == Ids(shelves)
  {
    if shelves != [] {
      var init := shelves[..|shelves| - 1];
      var last := shelves[|shelves| - 1];
      UniqueIdsInit(shelves);
      ShelfDirsOrder(init);
      ShelfDirsKeys(init, last.id);
      IdsSnoc(init, last);
      assert init + [last] == shelves;
    }
  }

  /** Without the last shelf the ids stay distinct, and none of them is the
      last shelf's. */
  lemma UniqueIdsInit(shelves: seq<Shelf>)
    requires UniqueIds(shelves) && shelves != []
    ensures UniqueIds(shelves[..|shelves| - 1])
    ensures !HasShelf(shelves[..|shelves| - 1], shelves[|shelves| - 1].id)
  {
    var init := shelves[..|shelves| - 1];
    forall i, j | 0 <= i < j < |init| ensures init[i].id != init[j].id {
      assert init[i] == shelves[i] && init[j] == shelves[j];
    }
    forall j | 0 <= j < |init| ensures init[j].id != shelves[|shelves| - 1].id {
      assert init[j] == shelves[j];
    }
  }

  lemma IdsSnoc(shelves: seq<Shelf>, s: Shelf)
    ensures Ids(shelves + [s]) == Ids(shelves) + [s.id]
  {
    var a := Ids(shelves + [s]);
    var b := Ids(shelves) + [s.id];
    assert |a| == |b|;
    forall i | 0 <= i < |a| ensures a[i] == b[i] {
      if i < |shelves| {
        assert (shelves + [s])[i] == shelves[i];
      }
    }
  }

  // ---------------------------------------------------------------------
  // `listAllBooks`.

  /** One entry of the move menu. */
  datatype Listed = Listed(shelf: string, shelfDir: string, filename: string, filePath: Path,
                           title: string, author: string)

  /** The `title` and `author` that `JSON.parse` finds in a stored
      document: a book record has both, any other JSON document has
      neither, and a file that is not JSON does not parse. */
  function JsonFields(c: Content): (r: Option<(string, string)>)
    ensures r.Some? <==> !c.PlainText? && !c.Binary?
    ensures c.BookDoc? ==> r == Some((c.book.title, c.book.author))
  {
    match c
    case BookDoc(b) => Some((b.title, b.author))
    case ConfigDoc(_) => Some(("", ""))
    case IndexDoc(_) => Some(("", ""))
    case _ => None
  }

  /** The entry one file gives: `content.title || file` and
      `content.author || ''`; a file that cannot be read or parsed gives
      none. */
  function ListedFile(fs: FileSystem, shelf: string, shelfDir: string, shelfPath: Path, file: string)
    : (r: Option<Listed>)
    requires PlainPath(shelfPath)
    ensures r.Some? <==> Join(shelfPath, file) in fs.files && JsonFields(fs.files[Join(shelfPath, file)]).Some?
    ensures r.Some? ==> r.value.filePath == Join(shelfPath, file) && r.value.filename == file
                        && r.value.shelf == shelf && r.value.shelfDir == shelfDir
    ensures r.Some? && file != "" ==> r.value.title != ""
  {
    var p := Join(shelfPath, file);
    match ReadFile(fs, p)
    case Failure(_) => None
    case Success(c) =>
      match JsonFields(c)
      case None => None
      case Some((t, a)) => Some(Listed(shelf, shelfDir, file, p, if t == "" then file else t, a))
  }

  /** The inner loop, over one folder's `.json` names. */
  function ListFiles(fs: FileSystem, shelf: string, shelfDir: string, shelfPath: Path, names: seq<string>)
    : seq<Listed>
    requires PlainPath(shelfPath)
  {
    if names == [] then []
    else
      var prev := ListFiles(fs, shelf, shelfDir, shelfPath, names[..|names| - 1]);
      match ListedFile(fs, shelf, shelfDir, shelfPath, names[|names| - 1])
      case None => prev
      case Some(x) => prev + [x]
  }

  /** The outer loop, over the shelves in key order: a folder that does not
      exist is skipped, and one that cannot be listed throws. */
  function ListShelves(fs: FileSystem, booksDir: Path, dirs: Dict, keys: seq<string>,
                       order: set<string> -> seq<string>): Result<seq<Listed>, string>
    requires PlainPath(booksDir) && forall k :: k in keys ==> k in dirs.values
  {
    if keys == [] then Success([])
    else ListAppend(ListShelves(fs, booksDir, dirs, keys[..|keys| - 1], order),
                    ListShelf(fs, booksDir, dirs, keys[|keys| - 1], order))
  }

  /** One shelf of the outer loop: nothing when its folder does not exist,
      else the entries of its `.json` files. */
  function ListShelf(fs: FileSystem, booksDir: Path, dirs: Dict, shelf: string,
                     order: set<string> -> seq<string>): Result<seq<Listed>, string>
    requires PlainPath(booksDir) && shelf in dirs.values
  {
    var shelfPath := Join(booksDir, dirs.values[shelf]);
    if !Exists(fs, shelfPath) then Success([])
    else
      var names :- ListDir(fs, shelfPath, order);
      Success(ListFiles(fs, shelf, dirs.values[shelf], shelfPath, JsonNames(names)))
  }

  /** The listing so far followed by one more shelf's; the first error wins. */
  function ListAppend(prev: Result<seq<Listed>, string>, next: Result<seq<Listed>, string>)
    : Result<seq<Listed>, string>
  {
    match prev
    case Failure(e) => Failure(e)
    case Success(p) =>
      match next
      case Failure(e) => Failure(e)
      case Success(xs) => Success(p + xs)
  }

  /** One more shelf of the outer loop. */
  lemma ListShelvesStep(fs: FileSystem, booksDir: Path, dirs: Dict, keys: seq<string>,
                        order: set<string> -> seq<string>, i: nat)
    requires PlainPath(booksDir) && forall x :: x in keys ==> x in dirs.values
    requires i < |keys|
    ensures ListShelves(fs, booksDir, dirs, keys[..i + 1], order) ==
      ListAppend(ListShelves(fs, booksDir, dirs, keys[..i], order), ListShelf(fs, booksDir, dirs, keys[i], order))
  {
    assert keys[..i + 1][..i] == keys[..i];
  }

  /** One pass of the outer loop: a listing of one more shelf, or the
      error that ends the whole listing. */
  lemma ListShelvesNext(fs: FileSystem, booksDir: Path, dirs: Dict, keys: seq<string>,
                        order: set<string> -> seq<string>, i: nat, listed: seq<Listed>, next: Result<seq<Listed>, string>)
    requires PlainPath(booksDir) && forall x :: x in keys ==> x in dirs.values
    requires i < |keys| && ListShelves(fs, booksDir, dirs, keys[..i], order) == Success(listed)
    requires next == ListAppend(Success(listed), ListShelf(fs, booksDir, dirs, keys[i], order))
    ensures next.Success? ==> ListShelves(fs, booksDir, dirs, keys[..i + 1], order) == next
    ensures next.Failure? ==> ListShelves(fs, booksDir, dirs, keys, order) == next
  {
    ListShelvesStep(fs, booksDir, dirs, keys, order, i);
    if next.Failure? {
      ListShelvesFailure(fs, booksDir, dirs, keys, order, i + 1);
    }
  }

  /** A folder that cannot be listed ends the whole listing with its error. */
  lemma {:induction false} ListShelvesFailure(fs: FileSystem, booksDir: Path, dirs: Dict, keys: seq<string>,
                                              order: set<string> -> seq<string>, k: nat)
    requires PlainPath(booksDir) && forall x :: x in keys ==> x in dirs.values
    requires k <= |keys| && ListShelves(fs, booksDir, dirs, keys[..k], order).Failure?
    ensures ListShelves(fs, booksDir, dirs, keys, order) == ListShelves(fs, booksDir, dirs, keys[..k], order)
    decreases |keys|
  {
    if k < |keys| {
      var init := keys[..|keys| - 1];
      assert init[..k] == keys[..k];
      ListShelvesFailure(fs, booksDir, dirs, init, order, k);
    } else {
      assert keys[..k] == keys;
    }
  }

  /** The inner loop of `listAllBooks`: push the entry of each file that
      parses. */
  method PushFiles(fs: FileSystem, shelf: string, shelfDir: string, shelfPath: Path, files: seq<string>,
                   listed: seq<Listed>) returns (r: seq<Listed>)
    requires PlainPath(shelfPath)
    ensures r == listed + ListFiles(fs, shelf, shelfDir, shelfPath, files)
  {
    r := listed;
    for j := 0 to |files|
      invariant r == listed + ListFiles(fs, shelf, shelfDir, shelfPath, files[..j])
    {
      assert files[..j + 1][..j] == files[..j];
      var entry := ListedFile(fs, shelf, shelfDir, shelfPath, files[j]);
      if entry.Some? {
        r := r + [entry.value];
      }
    }
    assert files[..|files|] == files;
  }

  /** `listAllBooks(shelfDirs)`: the outer loop over the shelves. */
  method ListAllBooks(fs: FileSystem, booksDir: Path, dirs: Dict, order: set<string> -> seq<string>)
    returns (r: Result<seq<Listed>, string>)
    requires PlainPath(booksDir) && WellFormed(dirs)
    ensures r == ListShelves(fs, booksDir, dirs, dirs.keys, order)
  {
    var keys := dirs.keys;
    var listed: seq<Listed> := [];
    for i := 0 to |keys|
      invariant ListShelves(fs, booksDir, dirs, keys[..i], order) == Success(listed)
    {
      var next := ListOneShelf(fs, booksDir, dirs, keys[i], order, listed);
      ListShelvesNext(fs, booksDir, dirs, keys, order, i, listed, next);
      if next.Failure? {
        return next;
      }
      listed := next.value;
    }
    assert keys[..|keys|] == keys;
    return Success(listed);
  }

  /** Every entry is a readable JSON file with a `.json` name in the folder
      of its shelf, and its title is never empty. */
  lemma {:induction false} ListFilesSound(fs: FileSystem, shelf: string, shelfDir: string, shelfPath: Path,
                                          names: seq<string>)
    requires PlainPath(shelfPath) && forall n :: n in names ==> IsJsonName(n)
    ensures forall x :: x in ListFiles(fs, shelf, shelfDir, shelfPath, names) ==>
      && x.shelf == shelf && x.shelfDir == shelfDir && x.filename in names
      && x.filePath == Join(shelfPath, x.filename) && x.filePath in fs.files
      && JsonFields(fs.files[x.filePath]).Some? && x.title != ""
  {
    if names != [] {
      var last := names[|names| - 1];
      ListFilesSound(fs, shelf, shelfDir, shelfPath, names[..|names| - 1]);
      assert last in names;
    }
  }

  /** One pass of the outer loop: the shelf's entries pushed after `listed`. */
  method ListOneShelf(fs: FileSystem, booksDir: Path, dirs: Dict, shelf: string,
                      order: set<string> -> seq<string>, listed: seq<Listed>)
    returns (r: Result<seq<Listed>, string>)
    requires PlainPath(booksDir) && shelf in dirs.values
    ensures r == ListAppend(Success(listed), ListShelf(fs, booksDir, dirs, shelf, order))
  {
    var shelfPath := Join(booksDir, dirs.values[shelf]);
    if !Exists(fs, shelfPath) {
      assert listed + [] == listed;
      return Success(listed);
    }
    var entries := ListDir(fs, shelfPath, order);
    if entries.Failure? {
      return Failure(entries.error);
    }
    var pushed := PushFiles(fs, shelf, dirs.values[shelf], shelfPath, JsonNames(entries.value), listed);
    r := Success(pushed);
  }

  /** Every readable JSON file among the names is listed. */
  lemma {:induction false} ListFilesComplete(fs: FileSystem, shelf: string, shelfDir: string, shelfPath: Path,
                                             names: seq<string>, file: string)
    requires PlainPath(shelfPath) && file in names
    requires ListedFile(fs, shelf, shelfDir, shelfPath, file).Some?
    ensures ListedFile(fs, shelf, shelfDir, shelfPath, file).value in ListFiles(fs, shelf, shelfDir, shelfPath, names)
  {
    var init := names[..|names| - 1];
    if file != names[|names| - 1] {
      assert names == init + [names[|names| - 1]];
      assert file in init;
      ListFilesComplete(fs, shelf, shelfDir, shelfPath, init, file);
    }
  }

  /** Every entry of the whole listing sits in the folder its shelf maps to. */
  lemma {:induction false} ListShelvesSound(fs: FileSystem, booksDir: Path, dirs: Dict, keys: seq<string>,
                                            order: set<string> -> seq<string>)
    requires PlainPath(booksDir) && forall k :: k in keys ==> k in dirs.values
    requires ListShelves(fs, booksDir, dirs, keys, order).Success?
    ensures forall x :: x in ListShelves(fs, booksDir, dirs, keys, order).value ==>
      && x.shelf in keys && x.shelfDir == dirs.values[x.shelf] && IsJsonName(x.filename)
      && x.filePath == Join(Join(booksDir, x.shelfDir), x.filename) && x.filePath in fs.files
      && x.title != ""
  {
    if keys != [] {
      var init := keys[..|keys| - 1];
      var shelf := keys[|keys| - 1];
      ListShelvesSound(fs, booksDir, dirs, init, order);
      var shelfPath := Join(booksDir, dirs.values[shelf]);
      if Exists(fs, shelfPath) && ListDir(fs, shelfPath, order).Success? {
        var files := JsonNames(ListDir(fs, shelfPath, order).value);
        ListFilesSound(fs, shelf, dirs.values[shelf], shelfPath, files);
      }
    }
  }

  // ---------------------------------------------------------------------
  // `moveBook` and the guards of `moveBookFlow`.

  /** `moveBook`: the file keeps its name and goes to the folder of the
      target shelf, which is created when it does not exist. */
  function MoveBook(fs: FileSystem, booksDir: Path, fromPath: Path, toShelf: string, dirs: Dict): Run<Path>
    requires PlainPath(booksDir) && toShelf in dirs.values
  {
    var toDir := Join(booksDir, dirs.values[toShelf]);
    var toPath := Join(toDir, Basename(fromPath));
    match EnsureDir(fs, toDir)
    case Failure(m) => Aborted(fs, m)
    case Success(fs1) =>
      match Rename(fs1, fromPath, toPath)
      case Failure(m) => Aborted(fs1, m)
      case Success(fs2) => Done(fs2, toPath)
  }

  /** A move takes the record to the same file name in the target folder,
      replacing whatever was there, and removes it from where it was;
      every other file is untouched, also when the move fails. */
  lemma MoveBookMoves(fs: FileSystem, booksDir: Path, fromPath: Path, toShelf: string, dirs: Dict)
    requires PlainPath(booksDir) && toShelf in dirs.values
    requires PlainPath(fromPath) && fromPath != []
    ensures var r := MoveBook(fs, booksDir, fromPath, toShelf, dirs);
      var toDir := Join(booksDir, dirs.values[toShelf]);
      && (r.Done? ==>
            && r.value == toDir + [Basename(fromPath)] && Basename(r.value) == Basename(fromPath)
            && fromPath in fs.files && r.fs.files[r.value] == fs.files[fromPath]
            && (fromPath != r.value ==> fromPath !in r.fs.files)
            && toDir in r.fs.dirs)
      && (forall q :: q in fs.files && q != fromPath && q != toDir + [Basename(fromPath)] ==>
            q in r.fs.files && r.fs.files[q] == fs.files[q])
      && (r.Aborted? ==> r.fs.files == fs.files)
  {
    var toDir := Join(booksDir, dirs.values[toShelf]);
    assert PlainName(fromPath[|fromPath| - 1]);
    JoinName(toDir, Basename(fromPath));
  }

  /** How the move flow ends. The outcomes that carry no file system leave
      it as it was. */
  datatype MoveOutcome =
    | Crashed(message: string)
    | NoBooks
    | Cancelled
    | InvalidSelection
    | InvalidShelf
    | AlreadyOnShelf
    | Moved(fs: FileSystem, to: Path)
    | MoveFailed(fs: FileSystem, message: string)

  /** `!shelfDirs[s]` is false: the key is there and its folder is not empty. */
  predicate KnownShelf(dirs: Dict, s: string) {
    s in dirs.values && dirs.values[s] != ""
  }

  /** Where the guards of `moveBookFlow` leave it: an outcome that ends the
      flow, or the index of the book to move. */
  datatype Guarded = Refused(outcome: MoveOutcome) | Chosen(index: nat)

  /** The guards of `moveBookFlow` once the books are listed, given the
      answers to its two prompts: the book number and the target shelf
      (looked up untrimmed, as typed). A book is chosen exactly when the
      number picks a listed book and the target is a known shelf other than
      that book's own. */
  function MoveGuards(dirs: Dict, listed: seq<Listed>, selection: string, newShelf: string): (r: Guarded)
    ensures r.Chosen? <==>
      && !IsBlank(selection) && ParseInt(selection).Some?
      && 1 <= ParseInt(selection).value <= |listed|
      && !IsBlank(newShelf) && KnownShelf(dirs, newShelf)
      && newShelf != listed[ParseInt(selection).value - 1].shelf
    ensures r.Chosen? ==> r.index == ParseInt(selection).value - 1
    ensures r.Refused? ==> r.outcome in {NoBooks, Cancelled, InvalidSelection, InvalidShelf, AlreadyOnShelf}
    ensures listed == [] ==> r == Refused(NoBooks)
  {
    if listed == [] then Refused(NoBooks)
    else if IsBlank(selection) then Refused(Cancelled)
    else match ParseInt(selection)
      case None => Refused(InvalidSelection)
      case Some(n) =>
        if n - 1 < 0 || n - 1 >= |listed| then Refused(InvalidSelection)
        else if IsBlank(newShelf) then Refused(Cancelled)
        else if !KnownShelf(dirs, newShelf) then Refused(InvalidShelf)
        else if newShelf == listed[n - 1].shelf then Refused(AlreadyOnShelf)
        else Chosen(n - 1)
  }

  /** The guards, then the move. */
  function MoveListed(fs: FileSystem, booksDir: Path, dirs: Dict, listed: seq<Listed>,
                      selection: string, newShelf: string): MoveOutcome
    requires PlainPath(booksDir)
  {
    match MoveGuards(dirs, listed, selection, newShelf)
    case Refused(o) => o
    case Chosen(i) =>
      match MoveBook(fs, booksDir, listed[i].filePath, newShelf, dirs)
      case Aborted(fs1, m) => MoveFailed(fs1, m)
      case Done(fs2, to) => Moved(fs2, to)
  }

  /** `moveBookFlow`: read the configuration, list the books, then the guards. */
  function MoveFlow(fs: FileSystem, root: Path, order: set<string> -> seq<string>,
                    selection: string, newShelf: string): MoveOutcome
    requires PlainPath(root)
  {
    match LoadConfig(fs, root)
    case Failure(m) => Crashed(m)
    case Success(config) =>
      var dirs := ShelfDirs(config.shelves);
      match ListShelves(fs, root + ["books"], dirs, dirs.keys, order)
      case Failure(m) => Crashed(m)
      case Success(listed) => MoveListed(fs, root + ["books"], dirs, listed, selection, newShelf)
  }

  /** A book is moved only after every guard passed, and the record lands
      under its own file name in the target's folder. A failed move
      changes no file. */
  lemma MoveListedGuards(fs: FileSystem, booksDir: Path, dirs: Dict, listed: seq<Listed>,
                         selection: string, newShelf: string)
    requires Valid(fs) && PlainPath(booksDir)
    requires forall x :: x in listed ==> PlainPath(x.filePath)
    ensures var o := MoveListed(fs, booksDir, dirs, listed, selection, newShelf);
      var g := MoveGuards(dirs, listed, selection, newShelf);
      && (o.Moved? || o.MoveFailed? <==> g.Chosen?)
      && (o.Moved? ==>
            && o.to == Join(booksDir, dirs.values[newShelf]) + [Basename(listed[g.index].filePath)]
            && o.to in o.fs.files && listed[g.index].filePath in fs.files
            && o.fs.files[o.to] == fs.files[listed[g.index].filePath])
      && (o.MoveFailed? ==> o.fs.files == fs.files)
  {
    var g := MoveGuards(dirs, listed, selection, newShelf);
    if g.Chosen? {
      var x := listed[g.index];
      assert x in listed;
      MoveBookSafe(fs, booksDir, x.filePath, newShelf, dirs);
    }
  }

  /** `MoveBookMoves` for any path a valid tree can hold. */
  lemma MoveBookSafe(fs: FileSystem, booksDir: Path, fromPath: Path, toShelf: string, dirs: Dict)
    requires Valid(fs) && PlainPath(booksDir) && toShelf in dirs.values && PlainPath(fromPath)
    ensures var r := MoveBook(fs, booksDir, fromPath, toShelf, dirs);
      && (r.Done? ==>
            && r.value == Join(booksDir, dirs.values[toShelf]) + [Basename(fromPath)]
            && r.value in r.fs.files && fromPath in fs.files
            && r.fs.files[r.value] == fs.files[fromPath])
      && (r.Aborted? ==> r.fs.files == fs.files)
  {
    if fromPath != [] {
      MoveBookMoves(fs, booksDir, fromPath, toShelf, dirs);
    }
  }

  /** Every entry of a listing has a plain path, so the guards above apply
      to the whole flow. */
  lemma MoveFlowPaths(fs: FileSystem, root: Path, order: set<string> -> seq<string>)
    requires Valid(fs) && PlainPath(root) && LoadConfig(fs, root).Success?
    ensures var dirs := ShelfDirs(LoadConfig(fs, root).value.shelves);
      var listing := ListShelves(fs, root + ["books"], dirs, dirs.keys, order);
      listing.Success? ==> forall x :: x in listing.value ==> PlainPath(x.filePath)
  {
    var dirs := ShelfDirs(LoadConfig(fs, root).value.shelves);
    if ListShelves(fs, root + ["books"], dirs, dirs.keys, order).Success? {
      ListShelvesSound(fs, root + ["books"], dirs, dirs.keys, order);
    }
  }

  // ---------------------------------------------------------------------
  // The defaults and the write of `addBookFlow`.

  /** The click behaviour answer: blank means `overlay`, and anything but
      `overlay` or `redirect` falls back to `overlay`. */
  function ClickBehavior(answer: string): (r: string)
    ensures r == "overlay" || r == "redirect"
    ensures r == "redirect" <==> Trim(answer) == "redirect"
  {
    var t := Trim(answer);
    var v := if t == "" then "overlay" else t;
    if v == "overlay" || v == "redirect" then v else "overlay"
  }

  /** `shelfIds.includes('good') ? 'good' : shelfIds[0]`; with no shelf at
      all it is `undefined` (`None`). */
  function DefaultShelf(ids: seq<string>): (r: Option<string>)
    ensures r.None? <==> ids == []
    ensures r.Some? ==> r.value in ids
    ensures r.Some? && r.value != "good" ==> "good" !in ids && r.value == ids[0]
  {
    if "good" in ids then Some("good") else if ids == [] then None else Some(ids[0])
  }

  /** The shelf answer: blank means the default, and a shelf that is not
      known also falls back to the default. */
  function ChooseShelf(dirs: Dict, answer: string): (r: Option<string>)
    requires WellFormed(dirs)
    ensures r.Some? ==> r.value in dirs.values
    ensures Trim(answer) != "" && KnownShelf(dirs, Trim(answer)) ==> r == Some(Trim(answer))
    ensures !KnownShelf(dirs, Trim(answer)) ==> r == DefaultShelf(dirs.keys)
  {
    var t := Trim(answer);
    var s := if t == "" then DefaultShelf(dirs.keys) else Some(t);
    match s
    case None => None
    case Some(id) => if KnownShelf(dirs, id) then s else DefaultShelf(dirs.keys)
  }

  /** The answers of the add flow, each already accepted by its validator. */
  datatype Answers = Answers(title: string, author: string, category: string, publishDate: string,
                             pages: int, cover: string, link: string, clickBehavior: string, shelf: string)

  /** The record written: the answered fields, no notes and no local cover. */
  function NewBook(a: Answers): (b: Book)
    ensures b.notes.None? && b.coverLocal.None?
    ensures b.clickBehavior == "overlay" || b.clickBehavior == "redirect"
  {
    Book(a.title, a.author, a.category, a.publishDate, Some(a.pages), Some(a.cover), None, None,
         Some(a.link), ClickBehavior(a.clickBehavior))
  }

  /** What `path.join` throws when the shelf has no folder (no shelf is
      configured at all). */
  const UndefinedPath := "The \"path\" argument must be of type string. Received undefined"

  /** Make sure the folder exists, then write the record into it. */
  function StoreRecord(fs: FileSystem, dir: Path, name: string, book: Book): (r: Run<Path>)
    requires PlainPath(dir) && PlainName(name)
    ensures r.Done? ==> r.value == dir + [name] && r.fs.files == fs.files[dir + [name] := BookDoc(book)]
    ensures r.Done? ==> dir in r.fs.dirs && fs.dirs <= r.fs.dirs
    ensures r.Aborted? ==> r.fs.files == fs.files
  {
    JoinName(dir, name);
    match EnsureDir(fs, dir)
    case Failure(m) => Aborted(fs, m)
    case Success(fs1) =>
      match WriteFile(fs1, Join(dir, name), BookDoc(book))
      case Failure(m) => Aborted(fs1, m)
      case Success(fs2) => Done(fs2, Join(dir, name))
  }

  /** The end of `addBookFlow`: choose the shelf, then store the record
      under the slug of its title in the folder of that shelf. */
  function AddBookFlow(fs: FileSystem, root: Path, a: Answers): Run<Path>
    requires PlainPath(root)
  {
    match LoadConfig(fs, root)
    case Failure(m) => Aborted(fs, m)
    case Success(config) =>
      var dirs := ShelfDirs(config.shelves);
      match ChooseShelf(dirs, a.shelf)
      case None => Aborted(fs, UndefinedPath)
      case Some(shelf) => StoreRecord(fs, Join(root + ["books"], dirs.values[shelf]), ConfigLib.BookFileName(a.title), NewBook(a))
  }

  /** The record lands in the folder of the chosen shelf, under the slug of
      its title, replacing any record with the same slug; no other file
      changes, also when the write fails, and with no shelf configured
      nothing is written. */
  lemma AddBookStores(fs: FileSystem, root: Path, a: Answers)
    requires PlainPath(root) && LoadConfig(fs, root).Success?
    ensures var dirs := ShelfDirs(LoadConfig(fs, root).value.shelves);
      var r := AddBookFlow(fs, root, a);
      && (r.Done? ==>
            && ChooseShelf(dirs, a.shelf).Some?
            && r.value == Join(root + ["books"], dirs.values[ChooseShelf(dirs, a.shelf).value])
                          + [ConfigLib.BookFileName(a.title)]
            && r.fs.files == fs.files[r.value := BookDoc(NewBook(a))])
      && (r.Aborted? ==> r.fs.files == fs.files)
      && (LoadConfig(fs, root).value.shelves == [] ==> r.Aborted?)
  {
    var dirs := ShelfDirs(LoadConfig(fs, root).value.shelves);
    if LoadConfig(fs, root).value.shelves == [] {
      assert dirs.keys == [];
      assert dirs.values == map[];
    }
  }
}
