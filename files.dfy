/** The file system the desktop engine and the build scripts work on.

    A path is the sequence of its segments below the root. The state is the
    map from file paths to their contents plus the set of directory paths.
    A file holds either text, an opaque binary (identified by where it came
    from), or one of the JSON documents the library stores, already
    decoded: reading a JSON document back is a partial decode that fails on
    anything that is not the expected kind of document. */
module Files {
  import opened Wrappers
  import opened Text
  import opened Types
  import opened Seqs

  type Path = seq<string>

  datatype Content =
    | PlainText(text: string)
    | Binary(origin: string)
    | BookDoc(book: Book)
    | ConfigDoc(config: Config)
    | IndexDoc(entries: seq<string>)

  datatype FileSystem = FileSystem(files: map<Path, Content>, dirs: set<Path>)

  /** A segment a normalised path can hold. */
  predicate PlainName(n: string) {
    n != "" && n != "." && n != ".." && '/' !in n
  }

  predicate PlainPath(p: Path) {
    forall i :: 0 <= i < |p| ==> PlainName(p[i])
  }

  /** `p` is `dir` or lies somewhere below it. */
  predicate Under(p: Path, dir: Path) {
    dir <= p
  }

  /** A well-formed tree: the root is a directory, every file sits in a
      directory, every ancestor of a directory is a directory, all segments
      are plain, and nothing is both a file and a directory. */
  ghost predicate Valid(fs: FileSystem) {
    && [] in fs.dirs
    && (forall p | p in fs.files :: p != [] && PlainPath(p) && p[..|p| - 1] in fs.dirs && p !in fs.dirs)
    && (forall d | d in fs.dirs :: PlainPath(d))
    && (forall d, i | d in fs.dirs && 0 <= i <= |d| :: d[..i] in fs.dirs)
  }

  /** `fs.existsSync(p)`: true for a file and for a directory alike. */
  predicate Exists(fs: FileSystem, p: Path) {
    p in fs.files || p in fs.dirs
  }

  /** The names directly inside `d`. */
  function Entries(fs: FileSystem, d: Path): set<string> {
    (set p | p in fs.files && |p| == |d| + 1 && p[..|d|] == d :: p[|d|]) +
    (set p | p in fs.dirs && |p| == |d| + 1 && p[..|d|] == d :: p[|d|])
  }

  /** A name is listed in `d` exactly when `d + [name]` exists. */
  lemma EntriesMember(fs: FileSystem, d: Path, n: string)
    ensures n in Entries(fs, d) <==> Exists(fs, d + [n])
  {
    var p := d + [n];
    assert p[..|d|] == d && p[|d|] == n;
    if n in Entries(fs, d) {
      var q :| (q in fs.files || q in fs.dirs) && |q| == |d| + 1 && q[..|d|] == d && q[|d|] == n;
      assert q == p;
    }
  }

  /** The order `readdirSync` lists a directory in is the operating system's:
      a listing function gives every name of the set once, in some order. */
  ghost predicate Lister(order: set<string> -> seq<string>) {
    forall names: set<string> {:trigger order(names)} ::
      Distinct(order(names)) && forall n :: n in order(names) <==> n in names
  }

  /** `fs.readdirSync(d)`. */
  function ListDir(fs: FileSystem, d: Path, order: set<string> -> seq<string>): (r: Result<seq<string>, string>)
    ensures r.Success? <==> d in fs.dirs
  {
    if d in fs.dirs then Success(order(Entries(fs, d)))
    else if d in fs.files then Failure("ENOTDIR")
    else Failure("ENOENT")
  }

  /** `fs.readFileSync(p)`. */
  function ReadFile(fs: FileSystem, p: Path): (r: Result<Content, string>)
    ensures r.Success? <==> p in fs.files
    ensures r.Success? ==> r.value == fs.files[p]
  {
    if p in fs.files then Success(fs.files[p])
    else if p in fs.dirs then Failure("EISDIR")
    else Failure("ENOENT")
  }

  /** The message `JSON.parse` throws for text that is not the expected document. */
  const JsonError := "Unexpected token in JSON"

  /** `JSON.parse(fs.readFileSync(p))` for a configuration. */
  function ReadConfig(fs: FileSystem, p: Path): (r: Result<Config, string>)
    ensures r.Success? <==> p in fs.files && fs.files[p].ConfigDoc?
    ensures r.Success? ==> r.value == fs.files[p].config
  {
    var c :- ReadFile(fs, p);
    if c.ConfigDoc? then Success(c.config) else Failure(JsonError)
  }

  /** `JSON.parse(fs.readFileSync(p))` for a book record. */
  function ReadBook(fs: FileSystem, p: Path): (r: Result<Book, string>)
    ensures r.Success? <==> p in fs.files && fs.files[p].BookDoc?
    ensures r.Success? ==> r.value == fs.files[p].book
  {
    var c :- ReadFile(fs, p);
    if c.BookDoc? then Success(c.book) else Failure(JsonError)
  }

  /** `fs.writeFileSync(p, content)`: creates or overwrites a file whose
      directory exists. */
  function WriteFile(fs: FileSystem, p: Path, c: Content): (r: Result<FileSystem, string>)
    ensures r.Success? <==> p !in fs.dirs && p != [] && p[..|p| - 1] in fs.dirs
    ensures r.Success? ==> r.value == FileSystem(fs.files[p := c], fs.dirs)
  {
    if p in fs.dirs then Failure("EISDIR")
    else if p == [] || p[..|p| - 1] !in fs.dirs then Failure("ENOENT")
    else Success(FileSystem(fs.files[p := c], fs.dirs))
  }

  /** Every ancestor of `d`, and `d` itself. */
  function Prefixes(d: Path): set<Path> {
    set i | 0 <= i <= |d| :: d[..i]
  }

  /** `fs.mkdirSync(d, { recursive: true })`: creates `d` and any missing
      ancestor; fails only when one of them is a file. */
  function Mkdirs(fs: FileSystem, d: Path): (r: Result<FileSystem, string>)
    ensures r.Success? <==> forall i :: 0 <= i <= |d| ==> d[..i] !in fs.files
    ensures r.Success? ==> r.value == FileSystem(fs.files, fs.dirs + Prefixes(d))
  {
    if d in fs.files then assert d[..|d|] == d; Failure("EEXIST")
    else if exists i | 0 <= i <= |d| :: d[..i] in fs.files then Failure("ENOTDIR")
    else Success(FileSystem(fs.files, fs.dirs + Prefixes(d)))
  }

  /** `if (!existsSync(d)) mkdirSync(d, { recursive: true })`. */
  function EnsureDir(fs: FileSystem, d: Path): (r: Result<FileSystem, string>)
    ensures r.Success? ==> r.value.files == fs.files && fs.dirs <= r.value.dirs
    ensures r.Success? ==> Exists(r.value, d)
  {
    if Exists(fs, d) then Success(fs)
    else
      var r := Mkdirs(fs, d);
      if r.Success? then assert d == d[..|d|]; r else r
  }

  /** `fs.unlinkSync(p)`. */
  function Unlink(fs: FileSystem, p: Path): (r: Result<FileSystem, string>)
    ensures r.Success? <==> p in fs.files
    ensures r.Success? ==> r.value == FileSystem(fs.files - {p}, fs.dirs)
  {
    if p in fs.files then Success(FileSystem(fs.files - {p}, fs.dirs))
    else if p in fs.dirs then Failure("EISDIR")
    else Failure("ENOENT")
  }

  /** `fs.rmdirSync(d)`: only an empty directory other than the root goes. */
  function Rmdir(fs: FileSystem, d: Path): (r: Result<FileSystem, string>)
    ensures r.Success? <==> d in fs.dirs && d != [] && Entries(fs, d) == {}
    ensures r.Success? ==> r.value == FileSystem(fs.files, fs.dirs - {d})
  {
    if d !in fs.dirs then (if d in fs.files then Failure("ENOTDIR") else Failure("ENOENT"))
    else if d == [] then Failure("EBUSY")
    else if Entries(fs, d) != {} then Failure("ENOTEMPTY")
    else Success(FileSystem(fs.files, fs.dirs - {d}))
  }

  /** `fs.rmSync(p, { recursive: true })` on an existing entry: `p` and
      everything below it go, nothing else changes. */
  function RemoveTree(fs: FileSystem, p: Path): (r: FileSystem)
    ensures forall q :: q in r.files <==> q in fs.files && !Under(q, p)
    ensures forall q :: q in r.dirs <==> q in fs.dirs && !Under(q, p)
    ensures forall q :: q in r.files ==> r.files[q] == fs.files[q]
  {
    FileSystem(map q | q in fs.files && !Under(q, p) :: fs.files[q],
               set q | q in fs.dirs && !Under(q, p))
  }

  /** `fs.renameSync(src, dst)` for a file. Renaming a directory is not
      part of the model and is refused as `EISDIR`. */
  function Rename(fs: FileSystem, src: Path, dst: Path): (r: Result<FileSystem, string>)
    ensures r.Success? <==> src in fs.files && dst !in fs.dirs && dst != [] && dst[..|dst| - 1] in fs.dirs
    ensures r.Success? ==> r.value == FileSystem((fs.files - {src})[dst := fs.files[src]], fs.dirs)
  {
    if src !in fs.files then (if src in fs.dirs then Failure("EISDIR") else Failure("ENOENT"))
    else if dst in fs.dirs then Failure("EISDIR")
    else if dst == [] || dst[..|dst| - 1] !in fs.dirs then Failure("ENOENT")
    else Success(FileSystem((fs.files - {src})[dst := fs.files[src]], fs.dirs))
  }

  /** `fs.copyFileSync(src, dst)`: the destination is created or overwritten. */
  function CopyFile(fs: FileSystem, src: Path, dst: Path): (r: Result<FileSystem, string>)
    ensures r.Success? <==> src in fs.files && dst !in fs.dirs && dst != [] && dst[..|dst| - 1] in fs.dirs
    ensures r.Success? ==> r.value == FileSystem(fs.files[dst := fs.files[src]], fs.dirs)
  {
    if src !in fs.files then (if src in fs.dirs then Failure("EISDIR") else Failure("ENOENT"))
    else WriteFile(fs, dst, fs.files[src])
  }

  /** The names `readdirSync(d).filter(f => f.endsWith('.json'))` keeps. */
  predicate IsJsonName(n: string) {
    EndsWith(n, ".json")
  }

  function JsonNames(names: seq<string>): seq<string> {
    Filter(names, IsJsonName)
  }

  /** `path.normalize` on an absolute path given as segments: empty and `.`
      segments vanish and `..` drops the segment before it (never above the
      root). */
  function Normalize(p: seq<string>): (r: Path)
    requires forall i :: 0 <= i < |p| ==> '/' !in p[i]
    ensures PlainPath(r)
    ensures |r| <= |p|
  {
    if p == [] then []
    else
      var h := Normalize(p[..|p| - 1]);
      var s := p[|p| - 1];
      if s == "" || s == "." then h
      else if s == ".." then (if h == [] then [] else h[..|h| - 1])
      else h + [s]
  }

  /** A path that is already plain is its own normal form. */
  lemma {:induction false} NormalizePlain(p: Path)
    requires PlainPath(p)
    ensures Normalize(p) == p
  {
    if p != [] {
      NormalizePlain(p[..|p| - 1]);
    }
  }

  /** `path.join(base, rel)` for an absolute `base`. */
  function Join(base: Path, rel: string): (r: Path)
    requires PlainPath(base)
    ensures PlainPath(r)
  {
    var parts := base + Split(rel, '/');
    assert forall i :: 0 <= i < |parts| ==> '/' !in parts[i] by {
      forall i | 0 <= i < |parts| ensures '/' !in parts[i] {
        if i >= |base| {
          assert parts[i] == Split(rel, '/')[i - |base|];
        }
      }
    }
    Normalize(parts)
  }

  lemma {:induction false} SplitWithoutSeparator(s: string, c: char)
    requires c !in s
    ensures Split(s, c) == [s]
  {
    if s != [] {
      SplitWithoutSeparator(s[1..], c);
      assert [s[0]] + s[1..] == s;
    }
  }

  /** Splitting at the first separator takes off the piece before it. */
  lemma {:induction false} SplitAtFirst(a: string, b: string, c: char)
    requires c !in a
    ensures Split(a + [c] + b, c) == [a] + Split(b, c)
  {
    var s := a + [c] + b;
    if a == [] {
      assert s[1..] == b;
    } else {
      SplitAtFirst(a[1..], b, c);
      assert s[1..] == a[1..] + [c] + b;
      assert [a[0]] + a[1..] == a;
    }
  }

  /** Splitting what `join` made gives the parts back. */
  lemma {:induction false} SplitJoinWith(p: seq<string>, c: char)
    requires |p| >= 1 && forall i :: 0 <= i < |p| ==> c !in p[i]
    ensures Split(JoinWith(p, [c]), c) == p
  {
    if |p| == 1 {
      SplitWithoutSeparator(p[0], c);
    } else {
      SplitJoinWith(p[1..], c);
      SplitAtFirst(p[0], JoinWith(p[1..], [c]), c);
      assert [p[0]] + p[1..] == p;
    }
  }

  /** Plain segments after any prefix are kept as they are. */
  lemma {:induction false} NormalizeAppendPlain(pre: seq<string>, p: Path)
    requires forall i :: 0 <= i < |pre| ==> '/' !in pre[i]
    requires PlainPath(p)
    ensures Normalize(pre + p) == Normalize(pre) + p
  {
    if p != [] {
      NormalizeAppendPlain(pre, p[..|p| - 1]);
      assert (pre + p)[..|pre + p| - 1] == pre + p[..|p| - 1];
      assert (pre + p)[|pre + p| - 1] == p[|p| - 1];
      assert PlainName(p[|p| - 1]);
      assert p[..|p| - 1] + [p[|p| - 1]] == p;
    } else {
      assert pre + p == pre;
    }
  }

  /** A rendered path reads back as the same path: `path.join('/', s)` of
      the string that `Render` gives. */
  lemma ParseRender(p: Path)
    requires PlainPath(p)
    ensures Join([], Render(p)) == p
  {
    var body := JoinWith(p, "/");
    SplitAtFirst("", body, '/');
    assert "" + "/" + body == Render(p);
    if p == [] {
      assert Split(body, '/') == [""];
      var parts: seq<string> := [] + Split(Render(p), '/');
      assert parts == ["", ""];
      assert parts[..1] == [""] && [""][..0] == [];
      assert Normalize(parts[..1]) == [];
    } else {
      SplitJoinWith(p, '/');
      assert [] + Split(Render(p), '/') == [""] + p;
      NormalizeAppendPlain([""], p);
      assert Normalize([""]) == [];
    }
  }

  /** Splitting a rendered path at `/` gives an empty piece for the leading
      slash and then the segments. */
  lemma SplitRender(p: Path)
    requires PlainPath(p) && p != []
    ensures Split(Render(p), '/') == [""] + p
  {
    SplitAtFirst("", JoinWith(p, "/"), '/');
    assert "" + "/" + JoinWith(p, "/") == Render(p);
    SplitJoinWith(p, '/');
  }

  /** Joining a plain name adds exactly that one segment. */
  lemma JoinName(base: Path, n: string)
    requires PlainPath(base) && PlainName(n)
    ensures Join(base, n) == base + [n]
  {
    SplitWithoutSeparator(n, '/');
    assert PlainPath(base + [n]);
    NormalizePlain(base + [n]);
  }

  /** The string form of a path: `/` followed by the segments joined with `/`. */
  function Render(p: Path): string {
    "/" + JoinWith(p, "/")
  }

  /** `path.basename(p)`. */
  function Basename(p: Path): string {
    if p == [] then "" else p[|p| - 1]
  }

  // Each operation keeps the tree well formed.

  lemma MkdirsValid(fs: FileSystem, d: Path)
    requires Valid(fs) && PlainPath(d) && Mkdirs(fs, d).Success?
    ensures Valid(Mkdirs(fs, d).value)
  {
    var r := Mkdirs(fs, d).value;
    assert d[..0] == [];
    forall q, i | q in r.dirs && 0 <= i <= |q| ensures q[..i] in r.dirs {
      if q in Prefixes(d) {
        var k :| 0 <= k <= |d| && q == d[..k];
        assert q[..i] == d[..i];
      }
    }
  }

  lemma WriteFileValid(fs: FileSystem, p: Path, c: Content)
    requires Valid(fs) && PlainPath(p) && WriteFile(fs, p, c).Success?
    ensures Valid(WriteFile(fs, p, c).value)
  {
  }

  lemma UnlinkValid(fs: FileSystem, p: Path)
    requires Valid(fs) && Unlink(fs, p).Success?
    ensures Valid(Unlink(fs, p).value)
  {
  }

  lemma RmdirValid(fs: FileSystem, d: Path)
    requires Valid(fs) && Rmdir(fs, d).Success?
    ensures Valid(Rmdir(fs, d).value)
  {
    var r := Rmdir(fs, d).value;
    forall p | p in r.files ensures p[..|p| - 1] != d {
      EntriesMember(fs, p[..|p| - 1], p[|p| - 1]);
      TakeSnoc(p, |p|);
      assert p[..|p|] == p;
    }
    forall q, i | q in r.dirs && 0 <= i <= |q| ensures q[..i] != d {
      if i < |q| {
        assert q[..i + 1] in fs.dirs;
        EntriesMember(fs, q[..i], q[i]);
        TakeSnoc(q, i + 1);
      } else {
        assert q[..i] == q;
      }
    }
  }

  lemma RemoveTreeValid(fs: FileSystem, p: Path)
    requires Valid(fs) && p != []
    ensures Valid(RemoveTree(fs, p))
  {
  }

  lemma RenameValid(fs: FileSystem, src: Path, dst: Path)
    requires Valid(fs) && PlainPath(dst) && Rename(fs, src, dst).Success?
    ensures Valid(Rename(fs, src, dst).value)
  {
  }

  lemma CopyFileValid(fs: FileSystem, src: Path, dst: Path)
    requires Valid(fs) && PlainPath(dst) && CopyFile(fs, src, dst).Success?
    ensures Valid(CopyFile(fs, src, dst).value)
  {
  }
}
