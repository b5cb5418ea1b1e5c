/** The Node backend (server.js): the same three JSON endpoints as the Go
    server, but errors carry their own HTTP status (400 and 404), a missing
    query parameter is read as "", the request dispatch, and the static file
    path and content type. */
module NodeServer {
  import opened Common
  import opened Dataset

  const StatusNoContent := 204
  const StatusBadRequest := 400
  const StatusNotFound := 404


  /** The JSON bodies the server sends. */
  datatype Body =
    | Picked(category: string, kind: string, text: string, source: string, fullAyah: string)
    | NoResults(text: string)
    | CategoryList(categories: seq<Brief>)
    | CategoryItems(category: string, items: seq<Item>)
    | Failure(error: string)
    | NoBody

  datatype Reply = Reply(status: int, body: Body)

  /** `url.searchParams.get(name) || ''`: an absent parameter reads as "". */
  function Param(query: Option<string>): string
  {
    query.GetOr("")
  }

  // ---------------------------------------------------------------------------
  // handleRandomDhikr
  // ---------------------------------------------------------------------------

  /** `handleRandomDhikr`: pushes `{...item, categoryLabel}` for every item of
      every selected category, then answers with the entry at the drawn index
      `k` (the value of `Math.floor(Math.random() * pool.length)`), or 404
      when the pool is empty. A missing `full_ayah` is sent as "". */
  method HandleRandomDhikr(cats: seq<Category>, category: Option<string>, k: nat) returns (reply: Reply)
    requires Pool(cats, Param(category)) != [] ==> k < |Pool(cats, Param(category))|
    ensures Pool(cats, Param(category)) == [] ==> reply == Reply(StatusNotFound, NoResults(NoResultsText))
    ensures Pool(cats, Param(category)) != [] ==>
      var e := Pool(cats, Param(category))[k];
      reply == Reply(StatusOK, Picked(e.categoryLabel, e.item.kind, e.item.text, e.item.source, e.item.fullAyah.GetOr("")))
  {
    var categoryId := Param(category);
    var pool: seq<Entry> := [];
    for i := 0 to |cats|
      invariant pool == Pool(cats[..i], categoryId)
    {
      var cat := cats[i];
      assert cats[..i + 1][..i] == cats[..i];
      if categoryId != "" && cat.id != categoryId {
        continue;
      }
      for j := 0 to |cat.items|
        invariant pool == Pool(cats[..i], categoryId) + Tagged(cat)[..j]
      {
        pool := pool + [Entry(cat.items[j], cat.name)];
      }
      assert Tagged(cat)[..|cat.items|] == Tagged(cat);
    }
    assert cats[..|cats|] == cats;
    if |pool| == 0 {
      return Reply(StatusNotFound, NoResults(NoResultsText));
    }
    var picked := pool[k];
    reply := Reply(StatusOK, Picked(picked.categoryLabel, picked.item.kind, picked.item.text,
                                    picked.item.source, picked.item.fullAyah.GetOr("")));
  }

  // ---------------------------------------------------------------------------
  // handleCategories and handleCategoryItems
  // ---------------------------------------------------------------------------

  /** `handleCategories`: one summary per category, in order, whose counts
      add up to the size of the unfiltered pool. */
  function HandleCategories(cats: seq<Category>): (reply: Reply)
    ensures reply.status == StatusOK && reply.body.CategoryList?
    ensures |reply.body.categories| == |cats|
    ensures forall i :: 0 <= i < |cats| ==>
      var b := reply.body.categories[i];
      b.id == cats[i].id && b.name == cats[i].name && b.icon == cats[i].icon && b.count == |cats[i].items|
    ensures TotalCount(reply.body.categories) == |Pool(cats, "")|
  {
    UnfilteredPoolSize(cats);
    Reply(StatusOK, CategoryList(Summaries(cats)))
  }

  /** `handleCategoryItems`: 400 without an id, 404 for an id no category
      has, otherwise the label and items of the first category with that id. */
  function HandleCategoryItems(cats: seq<Category>, id: Option<string>): (reply: Reply)
    ensures reply.status in {StatusOK, StatusBadRequest, StatusNotFound}
    ensures reply.status == StatusBadRequest <==> Param(id) == ""
    ensures reply.status == StatusBadRequest ==> reply.body == Failure(MissingIdText)
    ensures reply.status == StatusNotFound <==>
      Param(id) != "" && forall i :: 0 <= i < |cats| ==> cats[i].id != Param(id)
    ensures reply.status == StatusNotFound ==> reply.body == Failure(UnknownIdText)
    ensures reply.status == StatusOK ==>
      exists i :: 0 <= i < |cats| && cats[i].id == Param(id) &&
        (forall j :: 0 <= j < i ==> cats[j].id != Param(id)) &&
        reply.body == CategoryItems(cats[i].name, cats[i].items)
  {
    var categoryId := Param(id);
    if categoryId == "" then Reply(StatusBadRequest, Failure(MissingIdText))
    else
      match FindCategory(cats, categoryId)
      case None => Reply(StatusNotFound, Failure(UnknownIdText))
      case Some(i) => Reply(StatusOK, CategoryItems(cats[i].name, cats[i].items))
  }

  /** With distinct ids, the two endpoints agree: an id the category endpoint
      does not know draws from an empty pool, and a known id draws exactly
      from the items that endpoint lists, under the label it reports. */
  lemma ItemsAgreeWithPool(cats: seq<Category>, id: string)
    requires UniqueIds(cats) && id != ""
    ensures HandleCategoryItems(cats, Some(id)).status == StatusNotFound ==> Pool(cats, id) == []
    ensures HandleCategoryItems(cats, Some(id)).status == StatusOK ==>
      var body := HandleCategoryItems(cats, Some(id)).body;
      |Pool(cats, id)| == |body.items| &&
      forall j :: 0 <= j < |body.items| ==> Pool(cats, id)[j] == Entry(body.items[j], body.category)
  {
    match FindCategory(cats, id)
    case None => UnknownIdEmptyPool(cats, id);
    case Some(i) => PoolOfKnownId(cats, id);
  }

  // ---------------------------------------------------------------------------
  // Dispatch
  // ---------------------------------------------------------------------------

  /** Where a request goes; a preflight is answered on the spot. */
  datatype Route = ToPreflight(reply: Reply) | ToRandomDhikr | ToCategories | ToCategoryItems | ToStatic

  const ApiPaths: set<string> := {"/api/random-dhikr", "/api/categories", "/api/category"}

  /** The server callback: any OPTIONS request is answered 204 with an empty
      body before routing; otherwise the exact pathname picks an API handler,
      and every other path is served from the static directory. */
  function Dispatch(verb: string, pathname: string): (r: Route)
    ensures r.ToPreflight? <==> verb == "OPTIONS"
    ensures r.ToPreflight? ==> r.reply == Reply(StatusNoContent, NoBody)
    ensures r == ToStatic <==> verb != "OPTIONS" && pathname !in ApiPaths
    ensures r == ToRandomDhikr <==> verb != "OPTIONS" && pathname == "/api/random-dhikr"
    ensures r == ToCategories <==> verb != "OPTIONS" && pathname == "/api/categories"
    ensures r == ToCategoryItems <==> verb != "OPTIONS" && pathname == "/api/category"
  {
    if verb == "OPTIONS" then ToPreflight(Reply(StatusNoContent, NoBody))
    else if pathname == "/api/random-dhikr" then ToRandomDhikr
    else if pathname == "/api/categories" then ToCategories
    else if pathname == "/api/category" then ToCategoryItems
    else ToStatic
  }

  // ---------------------------------------------------------------------------
  // serveStatic
  // ---------------------------------------------------------------------------

  const DefaultContentType := "application/octet-stream"

  const MimeTypes: map<string, string> := map[
    ".html" := "text/html; charset=utf-8",
    ".css" := "text/css; charset=utf-8",
    ".js" := "application/javascript; charset=utf-8",
    ".json" := "application/json; charset=utf-8",
    ".png" := "image/png",
    ".jpg" := "image/jpeg",
    ".svg" := "image/svg+xml",
    ".ico" := "image/x-icon"
  ]

  /** The requested path under the static directory: "/" means "/index.html". */
  function StaticPath(url: string): string
  {
    if url == "/" then "/index.html" else url
  }

  /** The path without its trailing slashes: only '/' characters are removed,
      and the rest does not end in one. */
  function StripTrailingSlashes(p: string): (q: string)
    ensures |q| <= |p| && q == p[..|q|]
    ensures forall i :: |q| <= i < |p| ==> p[i] == '/'
    ensures q == [] || q[|q| - 1] != '/'
    decreases |p|
  {
    if p != [] && p[|p| - 1] == '/' then StripTrailingSlashes(p[..|p| - 1]) else p
  }

  /** The part of `p` after its last '/'. */
  function Basename(p: string): (b: string)
    ensures '/' !in b
    ensures |b| <= |p| && b == p[|p| - |b|..]
    decreases |p|
  {
    if p == [] || p[|p| - 1] == '/' then []
    else Basename(p[..|p| - 1]) + [p[|p| - 1]]
  }

  /** The index of the last '.' in `b`. */
  function LastDot(b: string): (d: Option<nat>)
    ensures d.None? ==> '.' !in b
    ensures d.Some? ==> d.value < |b| && b[d.value] == '.' && '.' !in b[d.value + 1..]
    decreases |b|
  {
    if b == [] then None
    else if b[|b| - 1] == '.' then Some(|b| - 1)
    else
      var d := LastDot(b[..|b| - 1]);
      assert d.Some? ==> b[d.value + 1..] == b[..|b| - 1][d.value + 1..] + [b[|b| - 1]];
      d
  }

  /** Node's `path.extname`: from the last '.' of the last path segment
      (trailing slashes ignored) to its end; "" when that segment has no '.',
      starts with its only '.', or is "..". */
  function Extname(p: string): (ext: string)
    ensures ext == [] || (ext[0] == '.' && '/' !in ext && '.' !in ext[1..])
  {
    var b := Basename(StripTrailingSlashes(p));
    match LastDot(b)
    case None => ""
    case Some(d) => if d == 0 || b == ".." then "" else b[d..]
  }

  /** `MIME_TYPES[ext] || 'application/octet-stream'`. */
  function ContentType(ext: string): (ct: string)
    ensures ct in MimeTypes.Values || ct == DefaultContentType
    ensures ext in MimeTypes ==> ct == MimeTypes[ext]
    ensures ext !in MimeTypes ==> ct == DefaultContentType
  {
    if ext in MimeTypes then MimeTypes[ext] else DefaultContentType
  }

  datatype StaticReply = FileReply(contentType: string) | NotFoundPage

  /** `serveStatic`; `readOk` says whether reading the file succeeded. The
      404 page is HTML. */
  function ServeStatic(url: string, readOk: bool): (reply: StaticReply)
    ensures reply.FileReply? <==> readOk
    ensures StatusOf(reply) == if readOk then StatusOK else StatusNotFound
    ensures reply.FileReply? ==> reply.contentType == ContentType(Extname(StaticPath(url)))
  {
    if readOk then FileReply(ContentType(Extname(StaticPath(url)))) else NotFoundPage
  }

  /** The status line `serveStatic` writes for a reply. */
  function StatusOf(reply: StaticReply): int
  {
    if reply.FileReply? then StatusOK else StatusNotFound
  }

  /** The basename of a path that ends in a slash-free name is that name. */
  lemma {:induction false} BasenameOfName(dir: string, name: string)
    requires '/' !in name
    ensures Basename(dir + "/" + name) == name
    decreases |name|
  {
    var p := dir + "/" + name;
    if name == [] {
      assert p[|p| - 1] == '/';
    } else {
      var init, last := name[..|name| - 1], name[|name| - 1];
      assert name == init + [last];
      assert last in name && '/' !in init;
      assert p == (dir + "/" + init) + [last];
      assert p[|p| - 1] == last && p[..|p| - 1] == dir + "/" + init;
      BasenameOfName(dir, init);
    }
  }

  /** The shape every key of `MimeTypes` has. */
  predicate ExtensionShape(ext: string)
  {
    ext != [] && ext[0] == '.' && '/' !in ext && '.' !in ext[1..]
  }

  lemma MimeKeysAreExtensions(ext: string)
    requires ext in MimeTypes
    ensures ExtensionShape(ext)
  {
  }

  /** The last dot of "<name><ext>" is the one that starts `ext`, whatever
      dots `name` holds. */
  lemma {:induction false} LastDotOfName(name: string, ext: string)
    requires ExtensionShape(ext)
    ensures LastDot(name + ext) == Some(|name|)
    decreases |ext|
  {
    var b := name + ext;
    if |ext| == 1 {
      assert b[|b| - 1] == '.';
    } else {
      var init := ext[..|ext| - 1];
      assert ext[|ext| - 1] == ext[1..][|ext| - 2];
      assert b[|b| - 1] != '.';
      assert init[1..] == ext[1..][..|ext| - 2];
      assert ExtensionShape(init);
      assert b[..|b| - 1] == name + init;
      LastDotOfName(name, init);
    }
  }

  /** The extension of "<dir>/<name><ext>", for a slash-free, non-empty name
      other than ".", is `ext`: "a.b.c" gives ".c" and ".x.y" gives ".y". */
  lemma ExtnameOfName(dir: string, name: string, ext: string)
    requires name != [] && name != "." && '/' !in name
    requires ExtensionShape(ext)
    ensures Extname(dir + "/" + name + ext) == ext
  {
    var b := name + ext;
    var p := dir + "/" + b;
    assert dir + "/" + name + ext == p;
    assert p[|p| - 1] == ext[|ext| - 1];
    BasenameOfName(dir, b);
    LastDotOfName(name, ext);
    ExtnameOfFile(p, b, |name|);
    assert b[|name|..] == ext;
  }

  /** `Extname` from its parts, for a path with no trailing slash whose last
      segment is not "..": the extension runs from the last dot, unless that
      dot starts the segment. */
  lemma ExtnameOfFile(p: string, b: string, d: nat)
    requires p != [] && p[|p| - 1] != '/'
    requires Basename(p) == b && LastDot(b) == Some(d) && b != ".."
    ensures Extname(p) == if d == 0 then "" else b[d..]
  {
    assert StripTrailingSlashes(p) == p;
  }

  /** A last segment with no dot has no extension. */
  lemma ExtnameNoDot(dir: string, name: string)
    requires name != [] && '/' !in name && '.' !in name
    ensures Extname(dir + "/" + name) == ""
  {
    var p := dir + "/" + name;
    assert p[|p| - 1] == name[|name| - 1] && name[|name| - 1] in name;
    assert StripTrailingSlashes(p) == p;
    BasenameOfName(dir, name);
  }

  /** A name made of a dot and a dot-free, slash-free stem: its only dot is
      its first character, and it does not end in '/'. */
  lemma DotName(stem: string)
    requires '/' !in stem && '.' !in stem
    ensures '/' !in "." + stem
    ensures ("." + stem)[|"." + stem| - 1] != '/'
    ensures LastDot("." + stem) == Some(0)
    ensures "." + stem != ".."
  {
    var name := "." + stem;
    assert name[1..] == stem;
    if stem != [] {
      assert name[|name| - 1] == stem[|stem| - 1] && stem[|stem| - 1] in stem;
    }
    LastDotOfName("", name);
    assert "" + name == name;
  }

  /** A last segment whose only dot is its first character (".env", or "."
      itself) has no extension. */
  lemma ExtnameDotFile(dir: string, stem: string)
    requires '/' !in stem && '.' !in stem
    ensures Extname(dir + "/." + stem) == ""
  {
    var name := "." + stem;
    var p := dir + "/" + name;
    assert dir + "/." + stem == p;
    DotName(stem);
    assert p[|p| - 1] == name[|name| - 1];
    BasenameOfName(dir, name);
    ExtnameOfFile(p, name, 0);
  }

  /** The parent-directory segment ".." has no extension. */
  lemma ExtnameDotDot(dir: string)
    ensures Extname(dir + "/..") == ""
  {
    var p := dir + "/..";
    assert StripTrailingSlashes(p) == p;
    BasenameOfName(dir, "..");
    assert dir + "/" + ".." == p;
  }

  /** Trailing slashes do not change the extension. */
  lemma ExtnameIgnoresTrailingSlash(p: string)
    ensures Extname(p + "/") == Extname(p)
  {
    var q := p + "/";
    assert q[..|q| - 1] == p;
  }

  /** A file "<name><ext>" with a known extension, for a slash-free,
      non-empty name other than ".", is served with that extension's type,
      whatever directory it is in. */
  lemma KnownExtensionType(dir: string, name: string, ext: string)
    requires name != [] && name != "." && '/' !in name
    requires ext in MimeTypes
    ensures ContentType(Extname(dir + "/" + name + ext)) == MimeTypes[ext]
  {
    MimeKeysAreExtensions(ext);
    ExtnameOfName(dir, name, ext);
  }

  lemma IndexPathParts()
    ensures "" + "/" + "index" + ".html" == "/index.html"
  {
  }

  /** The extension of the site's index page. */
  lemma IndexExtname()
    ensures Extname("/index.html") == ".html"
  {
    var name, ext := "index", ".html";
    assert ExtensionShape(ext);
    assert '/' !in name;
    ExtnameOfName("", name, ext);
    IndexPathParts();
  }

  /** HTML files get the HTML type. */
  lemma HtmlContentType()
    ensures ContentType(".html") == "text/html; charset=utf-8"
  {
    assert ".html" in MimeTypes;
  }

  /** The site root is served as HTML. */
  lemma RootIsHtml()
    ensures ServeStatic("/", true) == FileReply("text/html; charset=utf-8")
  {
    var path := StaticPath("/");
    assert path == "/index.html";
    IndexExtname();
    HtmlContentType();
  }
}
