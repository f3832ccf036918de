/** The request handler of the `serve` command (`lib/commands/serve.js`):
    the verb check, the mapping of a request URL to a static file or to a
    page slug and extension, the page lookup across the page content types,
    and the response each case produces. The file system, the content query,
    the content-type table and the compiled templates are parameters; the
    template watcher and the HTTP server itself are outside the model. */
module Server {
  import opened Wrappers
  import opened Json
  import opened Runtime

  /** What `stat` of the static file says. */
  datatype Stat = IsFile(size: nat) | IsDirectory | NotFound | StatFailed(stack: string)

  /** The body of a response. */
  datatype Body = NoBody | Text(text: string) | FileStream(path: string)

  /** The status code, the headers the handler sets, and the body. */
  datatype Response = Response(
    status: nat,
    contentType: string,
    contentLength: Option<nat>,
    allow: Option<string>,
    body: Body)

  /** The entries of one page content type whose slug field has the given
      value (at most one is asked for), or the failure of the query. */
  type PageQuery = (Id, string) -> Result<seq<Entry>, string>

  /** Everything the handler consults besides the request. */
  datatype Env = Env(
    staticDir: string,
    stat: string -> Stat,
    mimeType: string -> Option<string>,
    pageTypes: seq<Id>,
    query: PageQuery,
    bag: TemplatesBag)

  /** `http.STATUS_CODES` for the codes the handler uses. */
  function StatusText(status: nat): string {
    if status == 404 then "Not Found"
    else if status == 405 then "Method Not Allowed"
    else if status == 500 then "Internal Server Error"
    else "OK"
  }

  /** `errorResponse`: a plain-text body of the status text and the
      message. */
  function ErrorResponse(status: nat, message: string, allow: Option<string>): (r: Response)
    ensures r.status == status && r.contentType == "text/plain; charset=UTF-8"
    ensures r.body == Text(StatusText(status) + "\n\n" + message)
  {
    Response(status, "text/plain; charset=UTF-8", None, allow, Text(StatusText(status) + "\n\n" + message))
  }

  /** The URL served: the root stands for the index page. */
  function Target(url: string): string {
    if url == "/" then "/index.html" else url
  }

  /** The extension of a URL: the text after its last dot, when that dot is
      not the first character and comes after the last slash. */
  function Extension(url: string): (ext: Option<string>)
    ensures ext.Some? <==> exists i :: 0 < i < |url| && url[i] == '.' && NoSlashAfter(url, i)
    ensures ext.Some? ==> '.' !in ext.value && '/' !in ext.value
    ensures ext.Some? ==>
      && |ext.value| < |url| - 1
      && url[|url| - |ext.value|..] == ext.value
      && url[|url| - |ext.value| - 1] == '.'
  {
    var dot := LastIndexOf(url, '.');
    var slash := LastIndexOf(url, '/');
    if dot > 0 && dot > slash then
      assert NoSlashAfter(url, dot);
      Some(url[dot + 1..])
    else
      assert forall i :: 0 < i < |url| && url[i] == '.' ==> i <= dot;
      None
  }

  /** No slash follows position `i`. */
  predicate NoSlashAfter(url: string, i: nat) {
    forall j :: i < j < |url| ==> url[j] != '/'
  }

  /** The page slug: the URL between the leading character and the dot of
      the extension. */
  function Slug(url: string, ext: string): (slug: string)
    requires |ext| < |url| - 1
  {
    url[1..|url| - |ext| - 1]
  }

  /** A URL built from a slug and an extension with no dot and no slash
      yields that slug and extension again. */
  lemma SlugExtensionRoundTrip(slug: string, ext: string)
    requires '.' !in ext && '/' !in ext
    ensures Extension("/" + slug + "." + ext) == Some(ext)
    ensures Slug("/" + slug + "." + ext, ext) == slug
  {
    var url := "/" + slug + "." + ext;
    var d := |slug| + 1;
    assert url[d] == '.';
    assert forall j :: d < j < |url| ==> url[j] == ext[j - d - 1];
    assert NoSlashAfter(url, d);
    assert url[d + 1..] == ext;
    assert url[1..d] == slug;
  }

  /** A URL with an extension is its first character, the slug, a dot and
      the extension. */
  lemma UrlFromSlugAndExtension(url: string)
    requires Extension(url).Some?
    ensures url == [url[0]] + Slug(url, Extension(url).value) + "." + Extension(url).value
  {
    var ext := Extension(url).value;
    var d := |url| - |ext| - 1;
    assert url == [url[0]] + url[1..d] + [url[d]] + url[d + 1..];
  }

  /** The position of the first page type whose query fails or finds an
      entry, or the number of page types. */
  function FirstAnswered(types: seq<Id>, slug: string, query: PageQuery): (k: nat)
    ensures k <= |types|
    ensures forall i :: 0 <= i < k ==> query(types[i], slug) == Success([])
    ensures k < |types| ==> query(types[k], slug) != Success([])
  {
    if |types| == 0 || query(types[0], slug) != Success([]) then 0
    else
      var k := FirstAnswered(types[1..], slug, query);
      assert forall i :: 0 < i < |types| ==> types[i] == types[1..][i - 1];
      1 + k
  }

  /** The page lookup: the page types in order, each queried only while no
      earlier one found an entry; a failed query rejects. */
  function FindPage(types: seq<Id>, slug: string, query: PageQuery): (r: Result<Option<Entry>, string>)
    ensures FirstAnswered(types, slug, query) == |types| ==> r == Success(None)
    ensures FirstAnswered(types, slug, query) < |types| ==>
      var answer := query(types[FirstAnswered(types, slug, query)], slug);
      r == if answer.Failure? then Failure(answer.error) else Success(Some(answer.value[0]))
  {
    if |types| == 0 then Success(None)
    else
      match query(types[0], slug)
      case Failure(e) => Failure(e)
      case Success(items) =>
        if |items| > 0 then Success(Some(items[0]))
        else FindPage(types[1..], slug, query)
  }

  /** Page types after the first answered one are never queried. */
  lemma {:induction false} LaterTypesUnused(types: seq<Id>, slug: string, query: PageQuery, more: seq<Id>)
    requires FirstAnswered(types, slug, query) < |types|
    ensures FindPage(types + more, slug, query) == FindPage(types, slug, query)
  {
    assert (types + more)[0] == types[0];
    if query(types[0], slug) == Success([]) {
      assert (types + more)[1..] == types[1..] + more;
      LaterTypesUnused(types[1..], slug, query, more);
    }
  }

  /** The number of bytes of the UTF-8 encoding of `s`. */
  function Utf8Length(s: string): (n: nat)
    ensures |s| <= n <= 4 * |s|
  {
    if |s| == 0 then 0
    else
      var c := s[0] as int;
      (if c < 0x80 then 1 else if c < 0x800 then 2 else if c < 0x10000 then 3 else 4) + Utf8Length(s[1..])
  }

  /** A dynamic page: the extension must exist and have a content type; the
      page entry is looked up by slug, and a template for its type and the
      extension renders it. */
  function ServePage(env: Env, url: string, target: string, head: bool): (r: Response)
    ensures r.status in {200, 404, 500}
    ensures r.allow.None?
    ensures head && r.status == 200 ==> r.body == NoBody
    ensures r.status == 200 ==>
      && Extension(target).Some?
      && env.mimeType(Extension(target).value).Some?
      && r.contentType == env.mimeType(Extension(target).value).value
  {
    match Extension(target)
    case None => ErrorResponse(404, "Request URL \"" + url + "\" is invalid: missing extension.", None)
    case Some(ext) =>
      match env.mimeType(ext)
      case None => ErrorResponse(404, "Request URL \"" + url + "\" is invalid: invalid extension.", None)
      case Some(ctype) =>
        var slug := Slug(target, ext);
        match FindPage(env.pageTypes, slug, env.query)
        case Failure(stack) => ErrorResponse(500, stack, None)
        case Success(None) => ErrorResponse(404, "No page entry found for slug \"" + slug + "\".", None)
        case Success(Some(entry)) =>
          match TemplateFor(env.bag, ext, entry.contentType)
          case None => ErrorResponse(500, "No \"" + ext + "\" template for page type \"" + entry.contentType + "\".", None)
          case Some(template) =>
            match template(entry)
            case Failure(stack) => ErrorResponse(500, stack, None)
            case Success(page) =>
              if head then Response(200, ctype, Some(Utf8Length(page)), None, NoBody)
              else Response(200, ctype, None, None, Text(page))
  }

  /** Once the page entry is found and its type has a template for the
      extension, the answer is 200 with the rendered page exactly when the
      template renders, and a 500 carrying the thrown error otherwise. */
  lemma PageRendered(env: Env, url: string, target: string, head: bool, entry: Entry)
    requires Extension(target).Some? && env.mimeType(Extension(target).value).Some?
    requires FindPage(env.pageTypes, Slug(target, Extension(target).value), env.query) == Success(Some(entry))
    requires TemplateFor(env.bag, Extension(target).value, entry.contentType).Some?
    ensures var out := TemplateFor(env.bag, Extension(target).value, entry.contentType).value(entry);
      var r := ServePage(env, url, target, head);
      && (r.status == 200 <==> out.Success?)
      && (out.Success? && !head ==> r.body == Text(out.value))
      && (out.Failure? ==> r == ErrorResponse(500, out.error, None))
  {
  }

  /** The same at the handler: a GET or HEAD for a URL with no static file
      behind it answers 200 exactly when the page's template renders, and
      a 500 with the thrown error when it does not. */
  lemma HandleRendersPage(env: Env, verb: string, url: string, entry: Entry)
    requires verb == "GET" || verb == "HEAD"
    requires env.stat(env.staticDir + Target(url)) == NotFound
    requires Extension(Target(url)).Some? && env.mimeType(Extension(Target(url)).value).Some?
    requires FindPage(env.pageTypes, Slug(Target(url), Extension(Target(url)).value), env.query) == Success(Some(entry))
    requires TemplateFor(env.bag, Extension(Target(url)).value, entry.contentType).Some?
    ensures var out := TemplateFor(env.bag, Extension(Target(url)).value, entry.contentType).value(entry);
      var r := Handle(env, verb, url);
      && (r.status == 200 <==> out.Success?)
      && (out.Success? && verb == "GET" ==> r.body == Text(out.value))
      && (out.Failure? ==> r == ErrorResponse(500, out.error, None))
  {
    PageRendered(env, url, Target(url), verb == "HEAD", entry);
  }

  /** The request handler: only GET and HEAD are served; a static file is
      preferred, then a dynamic page; a failure of `stat` other than a
      missing file is a server error. */
  function Handle(env: Env, verb: string, url: string): (r: Response)
    ensures verb != "GET" && verb != "HEAD" ==>
      r == ErrorResponse(405, "HTTP method \"" + verb + "\" is not supported.", Some("GET, HEAD"))
    ensures r.status in {200, 404, 405, 500}
    ensures r.allow.Some? <==> r.status == 405
    ensures verb == "HEAD" ==> r.body == NoBody || r.status != 200
  {
    if verb != "GET" && verb != "HEAD" then
      ErrorResponse(405, "HTTP method \"" + verb + "\" is not supported.", Some("GET, HEAD"))
    else
      Serve(env, url, verb == "HEAD")
  }

  /** A GET (or, with `head`, a HEAD) request for `url`. */
  function Serve(env: Env, url: string, head: bool): (r: Response)
    ensures r.status in {200, 404, 500} && r.allow.None?
    ensures head ==> r.body == NoBody || r.status != 200
  {
    var target := Target(url);
    var ext := Extension(target);
    var ctype := if ext.Some? then env.mimeType(ext.value) else None;
    var path := env.staticDir + target;
    match env.stat(path)
    case IsDirectory => ErrorResponse(404, "Request URL \"" + url + "\" is invalid: static content directory.", None)
    case IsFile(size) =>
      Response(200, if ctype.Some? then ctype.value else "application/octet-stream", Some(size), None,
               if head then NoBody else FileStream(path))
    case StatFailed(stack) => ErrorResponse(500, stack, None)
    case NotFound => ServePage(env, url, target, head)
  }

  /** A HEAD request gets the status and content type of the GET request for
      the same URL, no body, and the length of the body GET would send. */
  lemma HeadMatchesGet(env: Env, url: string)
    ensures var h := Handle(env, "HEAD", url);
      var g := Handle(env, "GET", url);
      && h.status == g.status
      && h.contentType == g.contentType
      && (h.status == 200 ==> h.body == NoBody && g.body != NoBody)
      && (g.body.Text? && g.status == 200 ==> h.contentLength == Some(Utf8Length(g.body.text)))
      && (g.body.FileStream? ==> h.contentLength == g.contentLength)
  {
    assert Handle(env, "HEAD", url) == Serve(env, url, true);
    assert Handle(env, "GET", url) == Serve(env, url, false);
    ServeHeadMatchesGet(env, url);
  }

  lemma ServeHeadMatchesGet(env: Env, url: string)
    ensures var h := Serve(env, url, true);
      var g := Serve(env, url, false);
      && h.status == g.status
      && h.contentType == g.contentType
      && (h.status == 200 ==> h.body == NoBody && g.body != NoBody)
      && (g.body.Text? && g.status == 200 ==> h.contentLength == Some(Utf8Length(g.body.text)))
      && (g.body.FileStream? ==> h.contentLength == g.contentLength)
  {
    var target := Target(url);
    match env.stat(env.staticDir + target)
    case NotFound => PageHeadMatchesGet(env, url, target);
    case _ =>
  }

  lemma PageHeadMatchesGet(env: Env, url: string, target: string)
    ensures var h := ServePage(env, url, target, true);
      var g := ServePage(env, url, target, false);
      && h.status == g.status
      && h.contentType == g.contentType
      && (h.status == 200 ==> h.body == NoBody && g.body.Text? && h.contentLength == Some(Utf8Length(g.body.text)))
  {
  }

  /** The response to the root URL has the status and content type of the
      response to the index page; only the messages, which quote the URL as
      requested, differ. */
  lemma RootIsIndex(env: Env, verb: string)
    ensures Handle(env, verb, "/").status == Handle(env, verb, "/index.html").status
    ensures Handle(env, verb, "/").contentType == Handle(env, verb, "/index.html").contentType
  {
    var index := "/index.html";
    assert index != "/" by { assert |index| != |"/"|; }
    assert Target("/") == index && Target(index) == index;
    SameTargetSameStatus(env, verb, "/", index);
  }

  lemma SameTargetSameStatus(env: Env, verb: string, u1: string, u2: string)
    requires Target(u1) == Target(u2)
    ensures Handle(env, verb, u1).status == Handle(env, verb, u2).status
    ensures Handle(env, verb, u1).contentType == Handle(env, verb, u2).contentType
  {
    if verb == "GET" || verb == "HEAD" {
      var t := Target(u1);
      var st := env.stat(env.staticDir + t);
      if st.NotFound? {
        PageStatusIgnoresUrl(env, u1, u2, t, verb == "HEAD");
        assert Handle(env, verb, u1) == ServePage(env, u1, t, verb == "HEAD");
        assert Handle(env, verb, u2) == ServePage(env, u2, t, verb == "HEAD");
      } else if st.IsDirectory? {
        assert Handle(env, verb, u1).status == 404 == Handle(env, verb, u2).status;
      } else if st.StatFailed? {
        assert Handle(env, verb, u1).status == 500 == Handle(env, verb, u2).status;
      }
    }
  }

  /** The URL as requested only appears in messages. */
  lemma PageStatusIgnoresUrl(env: Env, u1: string, u2: string, target: string, head: bool)
    ensures ServePage(env, u1, target, head).status == ServePage(env, u2, target, head).status
    ensures ServePage(env, u1, target, head).contentType == ServePage(env, u2, target, head).contentType
  {
  }

  /** A static file is served whatever the content store holds. */
  lemma StaticFileWins(env: Env, verb: string, url: string, pageTypes: seq<Id>, query: PageQuery, bag: TemplatesBag)
    requires verb == "GET" || verb == "HEAD"
    requires env.stat(env.staticDir + Target(url)).IsFile?
    ensures Handle(env, verb, url) == Handle(env.(pageTypes := pageTypes, query := query, bag := bag), verb, url)
    ensures Handle(env, verb, url).status == 200
  {
  }
}
