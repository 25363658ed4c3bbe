/** The static-file server of the Posit AI chat pane (`ChatStaticFiles`):
    content types, the request-path decisions, the theme rewrite of the
    index page, and the cached Content-Security-Policy header. File-system
    access, URL decoding and path canonicalisation are parameters. */
module ChatStaticFiles {
  import opened Wrappers
  import opened Text
  import opened SortedMap

  // ---------------------------------------------------------------------
  // Content types

  /** The extension table of `getContentType`. */
  const ContentTypes: Entries := [
    (".html", "text/html; charset=utf-8"),
    (".js", "application/javascript; charset=utf-8"),
    (".mjs", "application/javascript; charset=utf-8"),
    (".css", "text/css; charset=utf-8"),
    (".json", "application/json; charset=utf-8"),
    (".svg", "image/svg+xml"),
    (".png", "image/png"),
    (".jpg", "image/jpeg"),
    (".jpeg", "image/jpeg"),
    (".gif", "image/gif"),
    (".ico", "image/x-icon"),
    (".woff", "font/woff"),
    (".woff2", "font/woff2"),
    (".ttf", "font/ttf"),
    (".eot", "application/vnd.ms-fontobject")
  ]

  const OctetStream := "application/octet-stream"

  /** `getContentType(extension)`: the listed type, or the generic binary type
      for an extension the table lacks. */
  function GetContentType(extension: string): (r: string)
    ensures HasKey(ContentTypes, extension) ==> exists i :: 0 <= i < |ContentTypes| && ContentTypes[i] == (extension, r)
    ensures !HasKey(ContentTypes, extension) ==> r == OctetStream
  {
    match Get(ContentTypes, extension)
    case Some(t) => t
    case None => OctetStream
  }

  /** No listed type is the generic one, so the generic type comes back
      exactly for the extensions the table lacks. */
  lemma ContentTypeGenericIff(extension: string)
    ensures GetContentType(extension) == OctetStream <==> !HasKey(ContentTypes, extension)
  {
    forall i | 0 <= i < |ContentTypes| ensures ContentTypes[i].1 != OctetStream {
      ListedTypeNotGeneric(i);
    }
  }

  /** Entry `i` of the table differs from the generic type: the entries that
      start with "application/" continue differently. */
  lemma ListedTypeNotGeneric(i: nat)
    requires i < |ContentTypes|
    ensures ContentTypes[i].1 != OctetStream
  {
    var t := ContentTypes[i].1;
    if i == 1 || i == 2 || i == 4 || i == 14 {
      assert t[12] != OctetStream[12];
    } else {
      assert t[0] != OctetStream[0];
    }
  }

  /** ".html" is served as HTML, but ".htm", which the handler treats as HTML
      for the security header, is served as generic binary data. */
  lemma ContentTypeHtml()
    ensures GetContentType(".html") == "text/html; charset=utf-8"
    ensures GetContentType(".htm") == OctetStream
  {
    assert ContentTypes[0] == (".html", "text/html; charset=utf-8");
    forall i | 0 <= i < |ContentTypes| ensures ContentTypes[i].0 != ".htm" {
      assert |ContentTypes[i].0| != 4 || ContentTypes[i].0[1] != 'h';
    }
    ContentTypeGenericIff(".htm");
  }

  // ---------------------------------------------------------------------
  // Request paths

  const AiChatUriPrefix := "/ai-chat/"

  /** The request path of `handleAIChatRequest`: what follows the first
      "/ai-chat/" in the URI, with "" and "/" standing for the index file;
      `None` (answered with 400) when the URI lacks the prefix. */
  function RequestPath(uri: string, indexFileName: string): (r: Option<string>)
    ensures r.None? <==> !Contains(uri, AiChatUriPrefix)
  {
    match Find(uri, AiChatUriPrefix)
    case None => None
    case Some(pos) =>
      var path := uri[pos + |AiChatUriPrefix|..];
      if path == "" || path == "/" then Some(indexFileName) else Some(path)
  }

  /** `validateAndResolvePath`, first step: the path without its query string
      and then without its fragment. */
  function CleanPath(requestPath: string): string {
    var noQuery := match FindChar(requestPath, '?') case Some(q) => requestPath[..q] case None => requestPath;
    match FindChar(noQuery, '#') case Some(f) => noQuery[..f] case None => noQuery
  }

  /** The cleaned path is the longest prefix of the request path that holds
      neither '?' nor '#'. */
  lemma CleanPathSpec(requestPath: string)
    ensures var c := CleanPath(requestPath);
      && c <= requestPath
      && '?' !in c && '#' !in c
      && (|c| < |requestPath| ==> requestPath[|c|] == '?' || requestPath[|c|] == '#')
  {
    var noQuery := match FindChar(requestPath, '?') case Some(q) => requestPath[..q] case None => requestPath;
    assert noQuery <= requestPath;
    forall k | 0 <= k < |noQuery| ensures noQuery[k] != '?' {
      assert noQuery[k] == requestPath[k];
    }
    var c := CleanPath(requestPath);
    assert c <= noQuery;
    forall k | 0 <= k < |c| ensures c[k] != '?' && c[k] != '#' {
      assert c[k] == noQuery[k];
    }
  }

  /** `validateAndResolvePath`. `decode` is `urlDecode`; `resolve` is the
      joining of the decoded path to the client root followed by the
      canonicalisation of the result (or of its parent); `canonicalRoot` is
      the canonical client root. `None` is an error. */
  function ValidateAndResolvePath(canonicalRoot: Option<string>, requestPath: string,
                                  decode: string -> string, resolve: string -> Option<string>): (r: Option<string>)
    ensures r.Some? ==> canonicalRoot.Some? && StartsWith(r.value, canonicalRoot.value)
  {
    match resolve(decode(CleanPath(requestPath)))
    case None => None
    case Some(resolved) =>
      match canonicalRoot
      case None => None
      case Some(root) => if StartsWith(resolved, root) then Some(resolved) else None
  }

  // ---------------------------------------------------------------------
  // Caching headers

  type Headers = seq<(string, string)>

  const NoCacheHeaders: Headers := [
    ("Cache-Control", "no-cache, no-store, must-revalidate, max-age=0"),
    ("Pragma", "no-cache"),
    ("Expires", "0")
  ]

  const LongCacheHeaders: Headers := [("Cache-Control", "public, max-age=31536000")]

  /** The caching headers of `handleAIChatRequest` for a request path. */
  function CachingHeaders(requestPath: string, indexFileName: string): Headers {
    if EndsWith(requestPath, indexFileName) || EndsWith(requestPath, ".js") || EndsWith(requestPath, ".css") then
      NoCacheHeaders
    else if Contains(requestPath, ".") then LongCacheHeaders
    else []
  }

  /** Pages, scripts and style sheets are never cached; other files with an
      extension are cached for a year; the rest get no caching header. */
  lemma CachingHeadersSpec(requestPath: string, indexFileName: string)
    ensures var h := CachingHeaders(requestPath, indexFileName);
      && (h == NoCacheHeaders <==>
            EndsWith(requestPath, indexFileName) || EndsWith(requestPath, ".js") || EndsWith(requestPath, ".css"))
      && (h == LongCacheHeaders <==>
            !EndsWith(requestPath, indexFileName) && !EndsWith(requestPath, ".js") && !EndsWith(requestPath, ".css")
            && '.' in requestPath)
      && (h == [] <==>
            !EndsWith(requestPath, indexFileName) && !EndsWith(requestPath, ".js") && !EndsWith(requestPath, ".css")
            && '.' !in requestPath)
  {
    assert NoCacheHeaders != LongCacheHeaders;
    if '.' in requestPath {
      var k :| 0 <= k < |requestPath| && requestPath[k] == '.';
      assert OccursAt(requestPath, ".", k);
    }
    if Contains(requestPath, ".") {
      var k := Find(requestPath, ".").value;
      assert requestPath[k] == ".."[0];
    }
  }

  /** A request for the pane's root is answered with the index file, which is
      never cached. */
  lemma IndexIsNotCached(uri: string, indexFileName: string)
    requires Contains(uri, AiChatUriPrefix)
    requires var pos := Find(uri, AiChatUriPrefix).value;
      uri[pos + |AiChatUriPrefix|..] == "" || uri[pos + |AiChatUriPrefix|..] == "/"
    ensures RequestPath(uri, indexFileName) == Some(indexFileName)
    ensures CachingHeaders(indexFileName, indexFileName) == NoCacheHeaders
  {
    assert indexFileName[|indexFileName| - |indexFileName|..] == indexFileName;
  }

  /** The caching decision looks at the request path before the query string
      is cut off, so a script requested with a query string ("app.js?v=2")
      is cached for a year although the script itself never is. */
  lemma QueryStringCaching(indexFileName: string)
    requires !EndsWith("app.js?v=2", indexFileName)
    ensures CachingHeaders("app.js", indexFileName) == NoCacheHeaders
    ensures CachingHeaders("app.js?v=2", indexFileName) == LongCacheHeaders
    ensures CleanPath("app.js?v=2") == "app.js"
  {
    var p := "app.js?v=2";
    assert p[|p| - 3..] != ".js" && p[|p| - 4..] != ".css";
    assert OccursAt(p, ".", 3);
    assert "app.js"[3..] == ".js";
    assert p[6] == '?' && FindChar(p, '?') == Some(6);
    assert p[..6] == "app.js";
  }

  // ---------------------------------------------------------------------
  // Theme injection into the index page

  const ClassAttr := "class=\""
  const HeadCloseTag := "</head>"

  /** The IDE's theme as the page sees it; the colours are already
      HTML-escaped. */
  datatype Theme = Theme(isDark: bool, background: string, foreground: string)

  /** The theme `<meta>` tag the frontend reads its colours from. */
  function ThemeMeta(theme: Theme): string {
    "<meta name=\"rstudio-theme\" data-background=\"" + theme.background
      + "\" data-foreground=\"" + theme.foreground + "\">"
  }

  /** The dark-class rewrite of `injectThemeInfo`: inside the first `<html`
      tag (up to the next '>'), "dark " goes right after an existing
      `class="`, or else ` class="dark"` goes just before the '>'. Without
      such a tag the content is unchanged. */
  function WithDarkClass(content: string): string {
    match Find(content, "<html")
    case None => content
    case Some(h) =>
      match FindFrom(content, ">", h)
      case None => content
      case Some(g) =>
        match Find(content[h..g], ClassAttr)
        case Some(c) => Insert(content, h + c + |ClassAttr|, "dark ")
        case None => Insert(content, g, " class=\"dark\"")
  }

  /** The meta rewrite of `injectThemeInfo`: the tag and a newline go right
      before the first `</head>`; without one the content is unchanged. */
  function WithThemeMeta(content: string, meta: string): string {
    match Find(content, HeadCloseTag)
    case None => content
    case Some(p) => Insert(content, p, meta + "\n")
  }

  /** The dark-class step of `injectThemeInfo`. */
  method AddDarkClass(content: string) returns (result: string)
    ensures result == WithDarkClass(content)
  {
    result := content;
    var htmlPos := Find(content, "<html");
    if htmlPos.None? {
      return;
    }
    var gtPos := FindFrom(content, ">", htmlPos.value);
    if gtPos.None? {
      return;
    }
    var htmlTag := content[htmlPos.value..gtPos.value];
    var classPos := Find(htmlTag, ClassAttr);
    if classPos.Some? {
      var insertAt := htmlPos.value + classPos.value + |ClassAttr|;
      result := Insert(content, insertAt, "dark ");
    } else {
      result := Insert(content, gtPos.value, " class=\"dark\"");
    }
  }

  /** `injectThemeInfo(pContent)`, rewriting the content in place. */
  method InjectThemeInfo(content: string, theme: Theme) returns (result: string)
    ensures result == WithThemeMeta(if theme.isDark then WithDarkClass(content) else content, ThemeMeta(theme))
  {
    result := content;
    if theme.isDark {
      result := AddDarkClass(result);
    }
    var meta := ThemeMeta(theme);
    var headPos := Find(result, HeadCloseTag);
    if headPos.Some? {
      result := Insert(result, headPos.value, meta + "\n");
    }
  }

  /** Where the dark class lands when the first `<html` tag, ending at `g`,
      has a `class="` at offset `c`: right after it. */
  lemma DarkClassInAttr(content: string, h: nat, g: nat, c: nat)
    requires Find(content, "<html") == Some(h) && FindFrom(content, ">", h) == Some(g)
    requires h <= g && Find(content[h..g], ClassAttr) == Some(c)
    ensures OccursAt(content, ClassAttr, h + c) && h + c + |ClassAttr| <= g
    ensures WithDarkClass(content) == content[..h + c + |ClassAttr|] + "dark " + content[h + c + |ClassAttr|..]
  {
    OccursInSlice(content, h, g, ClassAttr, c);
  }

  /** Where the dark class lands when the first `<html` tag, ending at `g`,
      has no `class="`: a new attribute just before the '>'. */
  lemma DarkClassNewAttr(content: string, h: nat, g: nat)
    requires Find(content, "<html") == Some(h) && FindFrom(content, ">", h) == Some(g)
    requires h <= g && Find(content[h..g], ClassAttr).None?
    ensures WithDarkClass(content) == content[..g] + " class=\"dark\"" + content[g..]
  {
  }

  /** Where the dark class lands: right after the first `class="` of the
      first `<html` tag when the tag has one, else just before the tag's
      '>'. The rest of the content is kept on both sides of the insertion.
      Without `<html`, or without a '>' after it, nothing changes. */
  lemma DarkClassPlacement(content: string)
    ensures !Contains(content, "<html") ==> WithDarkClass(content) == content
    ensures Contains(content, "<html") && FindFrom(content, ">", Find(content, "<html").value).None? ==>
      WithDarkClass(content) == content
    ensures Contains(content, "<html") && FindFrom(content, ">", Find(content, "<html").value).Some? ==>
      var h := Find(content, "<html").value;
      var g := FindFrom(content, ">", h).value;
      var tag := content[h..g];
      var r := WithDarkClass(content);
      && h < g
      && (Contains(tag, ClassAttr) ==>
            var at := h + Find(tag, ClassAttr).value + |ClassAttr|;
            && at <= g && OccursAt(content, ClassAttr, at - |ClassAttr|)
            && r == content[..at] + "dark " + content[at..])
      && (!Contains(tag, ClassAttr) ==> r == content[..g] + " class=\"dark\"" + content[g..])
  {
    if Contains(content, "<html") && FindFrom(content, ">", Find(content, "<html").value).Some? {
      var h := Find(content, "<html").value;
      var g := FindFrom(content, ">", h).value;
      OccursAtFirst(content, "<html", h);
      OccursAtFirst(content, ">", g);
      var tag := content[h..g];
      if Contains(tag, ClassAttr) {
        DarkClassInAttr(content, h, g, Find(tag, ClassAttr).value);
      } else {
        DarkClassNewAttr(content, h, g);
      }
    }
  }

  /** The meta tag and a newline sit right before the first `</head>`, with
      the content kept on both sides; without `</head>` nothing changes. */
  lemma ThemeMetaPlacement(content: string, meta: string)
    ensures var r := WithThemeMeta(content, meta);
      && (!Contains(content, HeadCloseTag) ==> r == content)
      && (Contains(content, HeadCloseTag) ==>
            var p := Find(content, HeadCloseTag).value;
            && r == content[..p] + meta + "\n" + content[p..]
            && OccursAt(r, meta + "\n" + HeadCloseTag, p))
  {
    if Contains(content, HeadCloseTag) {
      var p := Find(content, HeadCloseTag).value;
      var r := WithThemeMeta(content, meta);
      assert r == content[..p] + (meta + "\n") + content[p..];
      assert content[p..][..|HeadCloseTag|] == HeadCloseTag;
      assert r[p..p + |meta + "\n" + HeadCloseTag|] == meta + "\n" + content[p..][..|HeadCloseTag|];
    }
  }

  // ---------------------------------------------------------------------
  // The Content-Security-Policy header

  const DefaultSrc := "default-src"
  const FrameAncestors := "frame-ancestors"
  const ConnectSrc := "connect-src"
  const Self := "'self'"

  /** The directives of `rebuildCspHeaderCache` before the WebSocket origin:
      `default-src 'self'` when the loaded set is empty, and
      `frame-ancestors 'self'` when it lacks that directive. */
  function WithDefaults(loaded: Entries): Entries {
    var d := if |loaded| == 0 then Put(loaded, DefaultSrc, Self) else loaded;
    if !HasKey(d, FrameAncestors) then Put(d, FrameAncestors, Self) else d
  }

  /** The WebSocket origin of the chat backend, allowed outside server mode
      once a port is known: appended to `connect-src`, which starts from
      `'self'` when missing or empty. */
  function WithConnectSrc(d: Entries, serverMode: bool, port: int): Entries {
    if !serverMode && port >= 0 then
      var current := match Get(d, ConnectSrc) case Some(v) => v case None => "";
      var base := if current == "" then Self else current;
      Put(d, ConnectSrc, base + " ws://127.0.0.1:" + IntToString(port))
    else d
  }

  function Directives(loaded: Entries, serverMode: bool, port: int): Entries {
    WithConnectSrc(WithDefaults(loaded), serverMode, port)
  }

  /** Each directive as "name value". */
  function DirectiveTexts(d: Entries): (r: seq<string>)
    ensures |r| == |d| && forall i :: 0 <= i < |d| ==> r[i] == d[i].0 + " " + d[i].1
  {
    if |d| == 0 then [] else [d[0].0 + " " + d[0].1] + DirectiveTexts(d[1..])
  }

  /** The header: the directives in key order, separated by "; ". */
  function CspHeader(loaded: Entries, serverMode: bool, port: int): string {
    Join(DirectiveTexts(Directives(loaded, serverMode, port)), "; ")
  }

  /** The serialisation loop of `rebuildCspHeaderCache`. */
  method SerializeDirectives(d: Entries) returns (header: string)
    ensures header == Join(DirectiveTexts(d), "; ")
  {
    header := "";
    var i := 0;
    while i < |d|
      invariant 0 <= i <= |d|
      invariant header == Join(DirectiveTexts(d[..i]), "; ")
      invariant i == 0 <==> header == ""
    {
      assert d[..i + 1] == d[..i] + [d[i]];
      assert DirectiveTexts(d[..i + 1]) == DirectiveTexts(d[..i]) + [d[i].0 + " " + d[i].1];
      if header != "" {
        header := header + "; ";
        JoinSnoc(DirectiveTexts(d[..i]), d[i].0 + " " + d[i].1, "; ");
      }
      header := header + d[i].0 + " " + d[i].1;
      i := i + 1;
    }
    assert d[..i] == d;
  }

  /** The defaults keep the loaded directives in key order, and never
      overwrite a loaded `frame-ancestors`. */
  lemma WithDefaultsSpec(loaded: Entries, x: string)
    requires Sorted(loaded)
    ensures Sorted(WithDefaults(loaded))
    ensures Get(WithDefaults(loaded), x) ==
      if x == FrameAncestors && !HasKey(loaded, FrameAncestors) then Some(Self)
      else if x == DefaultSrc && |loaded| == 0 then Some(Self)
      else Get(loaded, x)
  {
    var d := if |loaded| == 0 then Put(loaded, DefaultSrc, Self) else loaded;
    if |loaded| == 0 {
      PutSorted(loaded, DefaultSrc, Self);
      GetPutSame(loaded, DefaultSrc, Self);
      if x != DefaultSrc {
        GetPutOther(loaded, DefaultSrc, Self, x);
      }
      PutKeys(loaded, DefaultSrc, Self, FrameAncestors);
    }
    assert Get(d, x) == if x == DefaultSrc && |loaded| == 0 then Some(Self) else Get(loaded, x);
    assert HasKey(d, FrameAncestors) == HasKey(loaded, FrameAncestors);
    if !HasKey(d, FrameAncestors) {
      PutSorted(d, FrameAncestors, Self);
      GetPutSame(d, FrameAncestors, Self);
      if x != FrameAncestors {
        GetPutOther(d, FrameAncestors, Self, x);
      }
    }
  }

  /** The WebSocket step changes `connect-src` alone, and only outside server
      mode with a known port. */
  lemma WithConnectSrcSpec(d: Entries, serverMode: bool, port: int, x: string)
    requires Sorted(d)
    ensures Sorted(WithConnectSrc(d, serverMode, port))
    ensures x != ConnectSrc || serverMode || port < 0 ==> Get(WithConnectSrc(d, serverMode, port), x) == Get(d, x)
    ensures !serverMode && port >= 0 ==>
      var current := Get(d, ConnectSrc);
      Get(WithConnectSrc(d, serverMode, port), ConnectSrc) ==
        Some((if current.None? || current.value == "" then Self else current.value) + " ws://127.0.0.1:" + IntToString(port))
  {
    if !serverMode && port >= 0 {
      var current := match Get(d, ConnectSrc) case Some(v) => v case None => "";
      var base := if current == "" then Self else current;
      var v := base + " ws://127.0.0.1:" + IntToString(port);
      PutSorted(d, ConnectSrc, v);
      GetPutSame(d, ConnectSrc, v);
      if x != ConnectSrc {
        GetPutOther(d, ConnectSrc, v, x);
      }
    }
  }

  /** The header always names a framing policy: `frame-ancestors` is present
      whatever was loaded, so the header is never empty. */
  lemma CspHeaderHasFrameAncestors(loaded: Entries, serverMode: bool, port: int)
    requires Sorted(loaded)
    ensures HasKey(Directives(loaded, serverMode, port), FrameAncestors)
    ensures CspHeader(loaded, serverMode, port) != ""
  {
    WithDefaultsSpec(loaded, FrameAncestors);
    var d0 := WithDefaults(loaded);
    WithConnectSrcSpec(d0, serverMode, port, FrameAncestors);
    var d := Directives(loaded, serverMode, port);
    assert Get(d, FrameAncestors).Some?;
    var texts := DirectiveTexts(d);
    assert |texts| > 0 && texts[0] != "";
    JoinNonEmpty(texts, "; ");
  }

  /** A join of parts whose first is non-empty is non-empty. */
  lemma JoinNonEmpty(parts: seq<string>, sep: string)
    requires |parts| > 0 && parts[0] != ""
    ensures Join(parts, sep) != ""
  {
    if |parts| > 1 {
      assert |Join(parts, sep)| >= |parts[0]|;
    }
  }

  /** The header cache of the chat module: the backend port, the cached
      header, and whether it was built. `loaded` is what `loadCspDirectives`
      read from `csp.json` (read once per session, so fixed here);
      `serverMode` is whether the session runs in server mode. */
  class CspHeaderCache {
    const loaded: Entries
    const serverMode: bool
    var port: int
    var cachedHeader: string
    var built: bool

    /** The loaded directives are a `std::map`, so sorted by name, and a
        built header is the one the current port calls for. */
    ghost predicate Valid()
      reads this
    {
      && Sorted(loaded)
      && (built ==> cachedHeader == CspHeader(loaded, serverMode, port))
    }

    /** The state at session start: no header yet; `initialPort` is the "no
        backend" port. */
    constructor (loaded: Entries, serverMode: bool, initialPort: int)
      requires Sorted(loaded)
      ensures Valid()
      ensures this.loaded == loaded && this.serverMode == serverMode && port == initialPort
      ensures !built && cachedHeader == ""
    {
      this.loaded := loaded;
      this.serverMode := serverMode;
      port := initialPort;
      cachedHeader := "";
      built := false;
    }

    /** `rebuildCspHeaderCache`. */
    method Rebuild()
      requires Sorted(loaded)
      modifies this
      ensures Valid() && built && cachedHeader == CspHeader(loaded, serverMode, port)
      ensures port == old(port)
    {
      var directives := loaded;
      if |directives| == 0 {
        directives := Put(directives, DefaultSrc, Self);
      }
      if !HasKey(directives, FrameAncestors) {
        directives := Put(directives, FrameAncestors, Self);
      }
      assert directives == WithDefaults(loaded);
      if !serverMode && port >= 0 {
        var connectSrc := match Get(directives, ConnectSrc) case Some(v) => v case None => "";
        if connectSrc == "" {
          connectSrc := Self;
        }
        connectSrc := connectSrc + " ws://127.0.0.1:" + IntToString(port);
        directives := Put(directives, ConnectSrc, connectSrc);
      }
      var header := SerializeDirectives(directives);
      cachedHeader := header;
      built := true;
    }

    /** `buildCspHeader`: the cached header once built, else a fresh build. */
    method BuildCspHeader() returns (header: string)
      requires Valid()
      modifies this
      ensures Valid() && built && port == old(port)
      ensures header == CspHeader(loaded, serverMode, port)
      ensures header != ""
      ensures old(built) ==> cachedHeader == old(cachedHeader)
    {
      CspHeaderHasFrameAncestors(loaded, serverMode, port);
      if built {
        return cachedHeader;
      }
      Rebuild();
      return cachedHeader;
    }

    /** `setChatBackendPort(p)`: records the port and always rebuilds. */
    method SetChatBackendPort(p: int)
      requires Valid()
      modifies this
      ensures Valid() && built && port == p
      ensures cachedHeader == CspHeader(loaded, serverMode, p)
    {
      port := p;
      Rebuild();
    }

    /** `handleAIChatRequest(request, pResponse)`: the response to a request
        for `uri`. The header cache is consulted only for HTML files. */
    method HandleAIChatRequest(uri: string, files: Files, theme: Theme, indexFileName: string)
      returns (response: Response)
      requires Valid()
      modifies this
      ensures Valid() && port == old(port)
      ensures response == ChatResponse(uri, files, theme, indexFileName, CspHeader(loaded, serverMode, port))
    {
      if !files.installed {
        return Response(NotFound, [], "Posit AI not installed.", false);
      }
      var pos := Find(uri, AiChatUriPrefix);
      if pos.None? {
        return Response(BadRequest, [], "", false);
      }
      var requestPath := uri[pos.value + |AiChatUriPrefix|..];
      if requestPath == "" || requestPath == "/" {
        requestPath := indexFileName;
      }
      assert Some(requestPath) == RequestPath(uri, indexFileName);
      var resolvedPath := ValidateAndResolvePath(files.canonicalRoot, requestPath, files.decode, files.resolve);
      if resolvedPath.None? {
        return Response(Forbidden, [], "", false);
      }
      if !files.fileExists(resolvedPath.value) {
        return Response(NotFound, [], "", false);
      }
      var read := files.read(resolvedPath.value);
      if read.None? {
        return Response(InternalServerError, [], "", true);
      }
      response := ServeFile(requestPath, files.extension(resolvedPath.value), files.filename(resolvedPath.value),
                            read.value, theme, indexFileName);
    }

    /** The part of `handleAIChatRequest` after the file was read. */
    method ServeFile(requestPath: string, extension: string, filename: string, fileContent: string,
                     theme: Theme, indexFileName: string) returns (response: Response)
      requires Valid()
      modifies this
      ensures Valid() && port == old(port)
      ensures response == ServedFile(requestPath, extension, filename, fileContent, theme, indexFileName,
                                     CspHeader(loaded, serverMode, port))
    {
      var content := fileContent;
      var headers: Headers := [];
      if extension == ".html" || extension == ".htm" {
        if filename == indexFileName {
          content := InjectThemeInfo(content, theme);
        }
        var csp := BuildCspHeader();
        headers := headers + [("Content-Security-Policy", csp)];
      }
      ghost var policy := headers;
      headers := headers + [("Content-Type", GetContentType(extension))];
      ghost var typed := headers;
      if EndsWith(requestPath, indexFileName) || EndsWith(requestPath, ".js") || EndsWith(requestPath, ".css") {
        headers := headers + NoCacheHeaders;
      } else if Contains(requestPath, ".") {
        headers := headers + LongCacheHeaders;
      }
      assert headers == typed + CachingHeaders(requestPath, indexFileName);
      ServedFileIs(requestPath, extension, filename, fileContent, theme, indexFileName,
                   CspHeader(loaded, serverMode, port), policy, content);
      return Response(Ok, headers, content, false);
    }
  }

  // ---------------------------------------------------------------------
  // Serving a request

  const Ok := 200
  const BadRequest := 400
  const Forbidden := 403
  const NotFound := 404
  const InternalServerError := 500

  /** What the handler learns from the file system and the rest of the
      session: whether Posit AI is installed, the canonical client root,
      `urlDecode`, path resolution and canonicalisation, existence, reading,
      and a path's extension and file name. */
  datatype Files = Files(
    installed: bool,
    canonicalRoot: Option<string>,
    decode: string -> string,
    resolve: string -> Option<string>,
    fileExists: string -> bool,
    read: string -> Option<string>,
    extension: string -> string,
    filename: string -> string)

  /** The status code, headers in the order set, body, and whether the
      handler returns an error. */
  datatype Response = Response(status: int, headers: Headers, body: string, error: bool)

  /** The response `handleAIChatRequest` builds, given the header the cache
      hands out. */
  function ChatResponse(uri: string, files: Files, theme: Theme, indexFileName: string, csp: string): Response {
    if !files.installed then Response(NotFound, [], "Posit AI not installed.", false)
    else match RequestPath(uri, indexFileName)
      case None => Response(BadRequest, [], "", false)
      case Some(requestPath) =>
        match ValidateAndResolvePath(files.canonicalRoot, requestPath, files.decode, files.resolve)
        case None => Response(Forbidden, [], "", false)
        case Some(path) =>
          if !files.fileExists(path) then Response(NotFound, [], "", false)
          else match files.read(path)
            case None => Response(InternalServerError, [], "", true)
            case Some(content) =>
              ServedFile(requestPath, files.extension(path), files.filename(path), content, theme, indexFileName, csp)
  }

  /** The response for a file that was found and read: the policy header for
      HTML, the content type, and the caching headers; the theme goes into the
      HTML index page. */
  function ServedFile(requestPath: string, extension: string, filename: string, content: string,
                      theme: Theme, indexFileName: string, csp: string): Response {
    var html := extension == ".html" || extension == ".htm";
    var body := if html && filename == indexFileName
                then WithThemeMeta(if theme.isDark then WithDarkClass(content) else content, ThemeMeta(theme))
                else content;
    var cspHeaders: Headers := if html then [("Content-Security-Policy", csp)] else [];
    Response(Ok, cspHeaders + [("Content-Type", GetContentType(extension))]
                 + CachingHeaders(requestPath, indexFileName), body, false)
  }

  /** The response `ServedFile` describes, assembled from its parts. */
  lemma ServedFileIs(requestPath: string, extension: string, filename: string, content: string,
                     theme: Theme, indexFileName: string, csp: string, policy: Headers, body: string)
    requires policy == if extension == ".html" || extension == ".htm" then [("Content-Security-Policy", csp)] else []
    requires body == if (extension == ".html" || extension == ".htm") && filename == indexFileName
                     then WithThemeMeta(if theme.isDark then WithDarkClass(content) else content, ThemeMeta(theme))
                     else content
    ensures ServedFile(requestPath, extension, filename, content, theme, indexFileName, csp) ==
      Response(Ok, policy + [("Content-Type", GetContentType(extension))] + CachingHeaders(requestPath, indexFileName),
               body, false)
  {
  }

  /** A file is served only from inside the canonical client root, and only
      when it exists and can be read; its body is the file, rewritten only
      when it is the HTML index page: a non-HTML file, and any file not named
      as the index, is sent as read. */
  lemma ServedFromRoot(uri: string, files: Files, theme: Theme, indexFileName: string, csp: string)
    requires files.installed
    ensures var r := ChatResponse(uri, files, theme, indexFileName, csp);
      r.status == Ok ==>
        && RequestPath(uri, indexFileName).Some?
        && var path := ValidateAndResolvePath(files.canonicalRoot, RequestPath(uri, indexFileName).value,
                                              files.decode, files.resolve);
        && path.Some? && files.canonicalRoot.Some? && StartsWith(path.value, files.canonicalRoot.value)
        && files.fileExists(path.value) && files.read(path.value).Some?
        && (files.extension(path.value) != ".html" && files.extension(path.value) != ".htm" ==>
              r.body == files.read(path.value).value)
        && (files.filename(path.value) != indexFileName ==> r.body == files.read(path.value).value)
  {
  }

  /** The status codes: 400 exactly for a URI without "/ai-chat/", and an
      error is returned only when an existing file cannot be read. */
  lemma ChatResponseStatus(uri: string, files: Files, theme: Theme, indexFileName: string, csp: string)
    requires files.installed
    ensures var r := ChatResponse(uri, files, theme, indexFileName, csp);
      && (r.status == BadRequest <==> !Contains(uri, AiChatUriPrefix))
      && (r.error <==> r.status == InternalServerError)
      && (r.status == Ok || r.status == BadRequest || r.status == Forbidden
          || r.status == NotFound || r.status == InternalServerError)
  {
  }

  /** Of the headers of a served file, the security policy comes first and
      only for HTML (".html" or ".htm"); the content type follows; then the
      caching headers of the request path. */
  lemma ServedHeaders(uri: string, files: Files, theme: Theme, indexFileName: string, csp: string)
    requires files.installed
    ensures var r := ChatResponse(uri, files, theme, indexFileName, csp);
      r.status == Ok ==>
        var requestPath := RequestPath(uri, indexFileName).value;
        var path := ValidateAndResolvePath(files.canonicalRoot, requestPath, files.decode, files.resolve).value;
        var extension := files.extension(path);
        var html := extension == ".html" || extension == ".htm";
        var k := if html then 1 else 0;
        && |r.headers| == k + 1 + |CachingHeaders(requestPath, indexFileName)|
        && (html <==> r.headers[0] == ("Content-Security-Policy", csp))
        && r.headers[k] == ("Content-Type", GetContentType(extension))
        && r.headers[k + 1..] == CachingHeaders(requestPath, indexFileName)
  {
  }
}
