/** The desktop preview server: how one request for a file under `dist` is
    answered, and how a free port is chosen. The network itself is not part
    of the model: whether a port can be bound is an oracle `bind`. */
module Preview {
  import opened Wrappers
  import opened Text
  import opened Files

  /** A response: its status, its `Content-Type` header when one is sent,
      and its body. */
  datatype Response = Response(status: int, contentType: Option<string>, body: Content)

  const Forbidden := Response(403, None, PlainText("Forbidden"))
  const NotFound := Response(404, None, PlainText("Not Found"))

  /** The file a request asks for: `path.join(dist, url)`, with `/` meaning
      `index.html`; a missing URL counts as the empty string. */
  function RequestPath(dist: Path, url: string): Path
    requires PlainPath(dist)
  {
    Join(dist, if url == "/" then "index.html" else url)
  }

  /** Index of the last `.` in `s`, or -1 when there is none. */
  function LastDot(s: string): (i: int)
    ensures -1 <= i < |s|
    ensures i >= 0 ==> s[i] == '.'
    ensures forall j :: i < j < |s| ==> s[j] != '.'
  {
    if s == [] then -1
    else if s[|s| - 1] == '.' then |s| - 1
    else LastDot(s[..|s| - 1])
  }

  /** `path.extname` of a plain file name: from the last dot to the end,
      unless that dot is the name's first character. */
  function ExtName(name: string): (r: string)
    ensures r == "" || (r[0] == '.' && EndsWith(name, r) && '.' !in r[1..])
  {
    var i := LastDot(name);
    if i <= 0 then ""
    else
      assert forall j :: 0 <= j < |name[i..]| - 1 ==> name[i..][1..][j] == name[i + 1 + j];
      name[i..]
  }

  /** A name made of a non-empty stem and a dotted suffix without another
      dot has that suffix as its extension. */
  lemma ExtNameOf(stem: string, ext: string)
    requires stem != [] && |ext| >= 1 && ext[0] == '.' && '.' !in ext[1..]
    ensures ExtName(stem + ext) == ext
  {
    var s := stem + ext;
    assert s[|stem|] == '.';
    forall j | |stem| < j < |s| ensures s[j] != '.' {
      assert s[j] == ext[1..][j - |stem| - 1];
    }
    var i := LastDot(s);
    assert i == |stem|;
    assert s[i..] == ext;
  }

  /** A name whose only dot, if any, is its first character has no
      extension. */
  lemma ExtNameNone(name: string)
    requires forall j :: 1 <= j < |name| ==> name[j] != '.'
    ensures ExtName(name) == ""
  {
  }

  /** The content types the server knows, by lower-case extension. */
  function ContentType(ext: string): string {
    if ext == ".html" then "text/html"
    else if ext == ".css" then "text/css"
    else if ext == ".js" then "application/javascript"
    else if ext == ".json" then "application/json"
    else if ext == ".svg" then "image/svg+xml"
    else if ext == ".png" then "image/png"
    else if ext == ".jpg" || ext == ".jpeg" then "image/jpeg"
    else "application/octet-stream"
  }

  /** The answer to a request: a path outside `dist` is refused, a path that
      is not a readable file is not found, and a file is sent with the type
      its lower-cased extension gives. The guard compares path segments. */
  function Respond(fs: FileSystem, dist: Path, url: string): Response
    requires PlainPath(dist)
  {
    var p := RequestPath(dist, url);
    if !Under(p, dist) then Forbidden
    else match ReadFile(fs, p)
      case Failure(_) => NotFound
      case Success(c) => Response(200, Some(ContentType(Lower(ExtName(Basename(p))))), c)
  }

  /** The same answer with the guard as the source writes it: the rendered
      path only has to start with the rendered `dist` string. */
  function RespondAsWritten(fs: FileSystem, dist: Path, url: string): Response
    requires PlainPath(dist)
  {
    var p := RequestPath(dist, url);
    if !StartsWith(Render(p), Render(dist)) then Forbidden
    else match ReadFile(fs, p)
      case Failure(_) => NotFound
      case Success(c) => Response(200, Some(ContentType(Lower(ExtName(Basename(p))))), c)
  }

  /** Every request is refused, not found or served, and only a file inside
      `dist` is ever served, with exactly its stored content. */
  lemma RespondConfined(fs: FileSystem, dist: Path, url: string)
    requires PlainPath(dist)
    ensures var r := Respond(fs, dist, url); var p := RequestPath(dist, url);
      && (r.status == 403 <==> !Under(p, dist))
      && (r.status == 404 <==> Under(p, dist) && p !in fs.files)
      && (r.status == 200 <==> Under(p, dist) && p in fs.files)
      && (r.status == 200 ==> r.body == fs.files[p])
  {
  }

  /** The root URL serves `dist/index.html` as HTML. */
  lemma RootServesIndex(fs: FileSystem, dist: Path)
    requires PlainPath(dist) && dist + ["index.html"] in fs.files
    ensures Respond(fs, dist, "/") == Response(200, Some("text/html"), fs.files[dist + ["index.html"]])
  {
    assert PlainName("index.html");
    JoinName(dist, "index.html");
    HtmlType();
  }

  lemma HtmlType()
    ensures ContentType(Lower(ExtName(Basename(["index.html"])))) == "text/html"
  {
    ExtNameOf("index", ".html");
    assert "index" + ".html" == "index.html";
    assert Lower(".html") == ".html";
  }

  /** `parts.join(sep)` of a longer list starts with that of its prefix. */
  lemma {:induction false} JoinWithPrefix(a: seq<string>, b: seq<string>, sep: string)
    ensures StartsWith(JoinWith(a + b, sep), JoinWith(a, sep))
  {
    if |a| >= 2 {
      JoinWithPrefix(a[1..], b, sep);
      assert (a + b)[1..] == a[1..] + b;
      var head := a[0] + sep;
      assert JoinWith(a + b, sep) == head + JoinWith(a[1..] + b, sep);
      assert JoinWith(a, sep) == head + JoinWith(a[1..], sep);
    } else if |a| == 1 && |b| > 0 {
      assert JoinWith(a + b, sep) == a[0] + sep + JoinWith((a + b)[1..], sep);
    }
  }

  /** A path inside `dist` renders to a string that starts with `dist`'s. */
  lemma RenderUnder(p: Path, dist: Path)
    requires Under(p, dist)
    ensures StartsWith(Render(p), Render(dist))
  {
    assert p == dist + p[|dist|..];
    JoinWithPrefix(dist, p[|dist|..], "/");
  }

  /** The segment guard refuses everything the string guard refuses, and
      whatever it lets through is answered as the source answers it. */
  lemma GuardOnlyTightens(fs: FileSystem, dist: Path, url: string)
    requires PlainPath(dist)
    ensures RespondAsWritten(fs, dist, url).status == 403 ==> Respond(fs, dist, url).status == 403
    ensures Respond(fs, dist, url).status != 403 ==> Respond(fs, dist, url) == RespondAsWritten(fs, dist, url)
  {
    var p := RequestPath(dist, url);
    if Under(p, dist) {
      RenderUnder(p, dist);
    }
  }

  /** With the string guard, a request that climbs out of `dist = base/d`
      into a sibling folder whose name starts with `d` (`/../dx/f` against
      `/s/d` names `/s/dx/f`, which starts with `/s/d`) is served from
      outside `dist`; the segment guard refuses it. */
  lemma {:induction false} GuardAsWrittenLeaks(fs: FileSystem, base: Path, d: string, x: string, f: string)
    requires PlainPath(base) && PlainName(d) && PlainName(x) && PlainName(f)
    requires StartsWith(x, d) && x != d
    requires base + [x, f] in fs.files
    ensures var url := "/../" + x + "/" + f;
      && RequestPath(base + [d], url) == base + [x, f]
      && !Under(base + [x, f], base + [d])
      && RespondAsWritten(fs, base + [d], url).status == 200
      && RespondAsWritten(fs, base + [d], url).body == fs.files[base + [x, f]]
      && Respond(fs, base + [d], url).status == 403
  {
    var dist := base + [d];
    var url := "/../" + x + "/" + f;
    LeakPath(base, d, x, f);
    var p := base + [x, f];
    assert p[..|dist|] == base + [x];
    assert (base + [x])[|base|] == x && dist[|base|] == d;
    RenderSibling(base, d, x, f);
  }

  /** The request `/../x/f` against `base/d` names `base/x/f`. */
  lemma LeakPath(base: Path, d: string, x: string, f: string)
    requires PlainPath(base) && PlainName(d) && PlainName(x) && PlainName(f)
    ensures PlainPath(base + [d])
    ensures RequestPath(base + [d], "/../" + x + "/" + f) == base + [x, f]
  {
    var dist := base + [d];
    assert PlainPath(dist);
    LeakSplit(x, f);
    LeakNormalize(base, d, x, f);
    assert dist + ["", "..", x, f] == base + [d, "", "..", x, f];
  }

  /** `parts.join(sep)` with one more part. */
  lemma {:induction false} JoinWithSnoc(a: seq<string>, y: string, sep: string)
    ensures JoinWith(a + [y], sep) == if a == [] then y else JoinWith(a, sep) + sep + y
  {
    if |a| >= 2 {
      JoinWithSnoc(a[1..], y, sep);
      assert (a + [y])[1..] == a[1..] + [y];
    } else if |a| == 1 {
      assert (a + [y])[1..] == [y];
    }
  }

  lemma StartsWithAfter(a: string, b: string, c: string)
    requires StartsWith(b, c)
    ensures StartsWith(a + b, a + c)
  {
    assert (a + b)[..|a + c|] == a + b[..|c|];
  }

  /** The rendered sibling file starts with the rendered `dist`. */
  lemma RenderSibling(base: Path, d: string, x: string, f: string)
    requires StartsWith(x, d)
    ensures StartsWith(Render(base + [x, f]), Render(base + [d]))
  {
    var pre := "/" + (if base == [] then "" else JoinWith(base, "/") + "/");
    RenderLast(base, d);
    RenderLast(base, x);
    StartsWithAfter(pre, x, d);
    assert base + [x, f] == (base + [x]) + [f];
    RenderSnoc(base + [x], f);
    StartsWithLonger(Render(base + [x]), "/" + f, Render(base + [d]));
  }

  /** A path of one more segment renders as its parent, a slash and the
      segment. */
  lemma RenderLast(base: Path, y: string)
    ensures Render(base + [y]) == ("/" + (if base == [] then "" else JoinWith(base, "/") + "/")) + y
  {
    var pre := if base == [] then "" else JoinWith(base, "/") + "/";
    JoinWithSnoc(base, y, "/");
    assert JoinWith(base + [y], "/") == pre + y;
  }

  /** Below a non-empty path the rendering only grows. */
  lemma RenderSnoc(p: Path, y: string)
    requires p != []
    ensures Render(p + [y]) == Render(p) + ("/" + y)
  {
    JoinWithSnoc(p, y, "/");
  }

  lemma StartsWithLonger(a: string, b: string, c: string)
    requires StartsWith(a, c)
    ensures StartsWith(a + b, c)
  {
    assert (a + b)[..|c|] == a[..|c|];
  }

  lemma LeakSplit(x: string, f: string)
    requires '/' !in x && '/' !in f
    ensures Split("/../" + x + "/" + f, '/') == ["", "..", x, f]
  {
    var r1 := x + "/" + f;
    var r2 := ".." + "/" + r1;
    SplitWithoutSeparator(f, '/');
    SplitAtFirst(x, f, '/');
    assert Split(r1, '/') == [x, f];
    SplitAtFirst("..", r1, '/');
    assert Split(r2, '/') == ["..", x, f];
    SplitAtFirst("", r2, '/');
    LeakText(x, f);
  }

  lemma LeakText(x: string, f: string)
    ensures "/../" + x + "/" + f == "" + "/" + (".." + "/" + (x + "/" + f))
  {
  }

  /** One more segment for `Normalize`, as its definition reads. */
  lemma NormalizeStep(p: seq<string>, s: string)
    requires forall i :: 0 <= i < |p| ==> '/' !in p[i]
    requires '/' !in s
    ensures var h := Normalize(p);
      Normalize(p + [s]) ==
        if s == "" || s == "." then h
        else if s == ".." then (if h == [] then [] else h[..|h| - 1])
        else h + [s]
  {
    assert (p + [s])[..|p|] == p;
  }

  lemma LeakNormalize(base: Path, d: string, x: string, f: string)
    requires PlainPath(base) && PlainName(d) && PlainName(x) && PlainName(f)
    ensures Normalize(base + [d, "", "..", x, f]) == base + [x, f]
  {
    var p3 := base + [d, "", ".."];
    LeakBack(base, d);
    var p4 := p3 + [x];
    NoSlashSnoc(p3, x);
    NormalizeStep(p3, x);
    assert Normalize(p4) == base + [x];
    NormalizeStep(p4, f);
    assert p4 + [f] == base + [d, "", "..", x, f];
  }

  /** `d/` followed by `..` comes back to where it started. */
  lemma LeakBack(base: Path, d: string)
    requires PlainPath(base) && PlainName(d)
    ensures forall i :: 0 <= i < |base + [d, "", ".."]| ==> '/' !in (base + [d, "", ".."])[i]
    ensures Normalize(base + [d, "", ".."]) == base
  {
    var p1 := base + [d];
    assert PlainPath(p1);
    NormalizePlain(p1);
    var p2 := p1 + [""];
    NoSlashSnoc(p1, "");
    NormalizeStep(p1, "");
    NoSlashSnoc(p2, "..");
    NormalizeStep(p2, "..");
    assert p1[..|p1| - 1] == base;
    assert p2 + [".."] == base + [d, "", ".."];
  }

  lemma NoSlashSnoc(p: seq<string>, s: string)
    requires forall i :: 0 <= i < |p| ==> '/' !in p[i]
    requires '/' !in s
    ensures forall i :: 0 <= i < |p + [s]| ==> '/' !in (p + [s])[i]
  {
  }

  // ---------------------------------------------------------------------
  // Choosing a port.

  /** What binding a port gives. */
  datatype Bind = Bound | InUse | Failed(code: string)

  const FirstPort := 8080
  const LastPort := 8100

  /** The corrected search: from `port`, the first port that binds; a port
      in use moves on to the next one while it is below `LastPort`, any other
      failure ends the search. */
  function PortSearch(bind: int -> Bind, port: int): (r: Result<int, string>)
    requires FirstPort <= port <= LastPort
    ensures r.Success? ==> port <= r.value <= LastPort
    decreases LastPort - port
  {
    match bind(port)
    case Bound => Success(port)
    case InUse => if port < LastPort then PortSearch(bind, port + 1) else Failure("EADDRINUSE")
    case Failed(code) => Failure(code)
  }

  /** The search succeeds exactly when some port up to `LastPort` binds with
      only ports in use before it, and then it gives that port. */
  lemma {:induction false} PortSearchFinds(bind: int -> Bind, port: int)
    requires FirstPort <= port <= LastPort
    ensures PortSearch(bind, port).Success? <==>
      exists q :: port <= q <= LastPort && bind(q) == Bound && forall k :: port <= k < q ==> bind(k) == InUse
    ensures PortSearch(bind, port).Success? ==>
      var q := PortSearch(bind, port).value;
      port <= q <= LastPort && bind(q) == Bound && forall k :: port <= k < q ==> bind(k) == InUse
    decreases LastPort - port
  {
    if bind(port) == InUse && port < LastPort {
      PortSearchFinds(bind, port + 1);
      if exists q :: port <= q <= LastPort && bind(q) == Bound && forall k :: port <= k < q ==> bind(k) == InUse {
        var q :| port <= q <= LastPort && bind(q) == Bound && forall k :: port <= k < q ==> bind(k) == InUse;
        assert q != port;
        assert port + 1 <= q && forall k :: port + 1 <= k < q ==> bind(k) == InUse;
      }
    } else if bind(port) == InUse {
      forall q | port <= q <= LastPort ensures bind(q) != Bound {
        assert q == port;
      }
    }
  }

  /** The outcome as the source has it: the listener that rejects on any
      error is registered first, so the first failure, `EADDRINUSE`
      included, ends the start with that error. */
  function StartAsWritten(bind: int -> Bind): Result<int, string> {
    match bind(FirstPort)
    case Bound => Success(FirstPort)
    case InUse => Failure("EADDRINUSE")
    case Failed(code) => Failure(code)
  }

  /** With 8080 taken and 8081 free, the source gives up while the search
      it evidently intends finds 8081. */
  lemma PortInUseAsWritten()
    ensures var bind := (p: int) => if p == FirstPort then InUse else Bound;
      StartAsWritten(bind) == Failure("EADDRINUSE") && PortSearch(bind, FirstPort) == Success(FirstPort + 1)
  {
  }

  /** The address the preview is reachable at. */
  function PreviewUrl(port: nat): (u: string)
    ensures StartsWith(u, "http://127.0.0.1:")
  {
    "http://127.0.0.1:" + NatToString(port)
  }

  /** Distinct ports give distinct addresses. */
  lemma PreviewUrlInjective(a: nat, b: nat)
    requires PreviewUrl(a) == PreviewUrl(b)
    ensures a == b
  {
    var pre := "http://127.0.0.1:";
    assert PreviewUrl(a)[|pre|..] == NatToString(a);
    assert PreviewUrl(b)[|pre|..] == NatToString(b);
    NatToStringInjective(a, b);
  }
}
