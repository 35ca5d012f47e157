/** The request handler of the static file server: from a request's method and
    URL, the server's root directory and what the file system says about a
    path, to the one response the server sends. */
module Serve {
  import opened PosixPath
  import Mime

  /** What a response carries after its status line. */
  datatype Body = Text(text: string) | FileContents(path: string)

  datatype Response =
    | MethodNotAllowed
    | Forbidden
    | NotFound
    | Ok(contentType: string, file: string)
  {
    function Status(): int {
      match this
      case MethodNotAllowed => 405
      case Forbidden => 403
      case NotFound => 404
      case Ok(_, _) => 200
    }

    /** The `Content-Type` header. */
    function ContentTypeHeader(): string {
      if Ok? then contentType else "text/plain"
    }

    /** What follows the header: a fixed text, or the file's contents. */
    function Payload(): Body {
      match this
      case MethodNotAllowed => Text("Method Not Allowed")
      case Forbidden => Text("Forbidden")
      case NotFound => Text("Not Found")
      case Ok(_, file) => FileContents(file)
    }
  }

  /** `s.startsWith(prefix)`. */
  predicate StartsWith(s: string, prefix: string) {
    prefix <= s
  }

  // ---------------------------------------------------------------------
  // The steps of the pipeline

  /** `url.split('?')[0]`: the URL up to its first '?'. */
  function BeforeQuery(url: string): (r: string)
    ensures r <= url && '?' !in r
    ensures |r| < |url| ==> url[|r|] == '?'
    decreases |url|
  {
    if url == "" || url[0] == '?' then "" else [url[0]] + BeforeQuery(url[1..])
  }

  /** The requested path: the part before the query, with "/" standing for
      "/index.html". */
  function RequestPath(url: string): string {
    var urlPath := BeforeQuery(url);
    if urlPath == "/" then "/index.html" else urlPath
  }

  /** One match of the group `\.\.[\/\\]`: ".." and either separator. */
  predicate StartsWithParentStep(s: string) {
    |s| >= 3 && s[0] == '.' && s[1] == '.' && (s[2] == '/' || s[2] == '\\')
  }

  /** A text made of nothing but such matches. */
  predicate IsParentSteps(t: string)
    decreases |t|
  {
    t == "" || (StartsWithParentStep(t) && IsParentSteps(t[3..]))
  }

  /** `s.replace(/^(\.\.[\/\\])+/, '')`: the longest run of matches at the
      start is removed, so what is left does not start with another one. */
  function StripParentSteps(s: string): (r: string)
    ensures |r| <= |s| && s[|s| - |r|..] == r
    ensures IsParentSteps(s[..|s| - |r|])
    ensures !StartsWithParentStep(r)
    decreases |s|
  {
    if StartsWithParentStep(s) then
      var r := StripParentSteps(s[3..]);
      assert s[..|s| - |r|][3..] == s[3..][..|s[3..]| - |r|];
      r
    else s
  }

  /** The sanitized path: normalized, then stripped of its leading parent steps. */
  function SafePath(urlPath: string): string {
    StripParentSteps(Normalize(urlPath))
  }

  /** The file the request names, joined onto the root. */
  function FilePath(root: string, url: string): string {
    Join(root, SafePath(RequestPath(url)))
  }

  /** The content type chosen from the file path's extension. */
  function ContentTypeOf(filePath: string): string {
    Mime.ContentType(ExtName(filePath))
  }

  /** The decision for one request. `isRegularFile` says whether `fs.stat` of a
      path succeeds and reports a regular file. */
  function Handle(httpMethod: string, url: string, root: string, isRegularFile: string -> bool): Response {
    if httpMethod != "GET" then MethodNotAllowed
    else Respond(FilePath(root, url), root, isRegularFile)
  }

  /** The decision once the file path is known: the prefix check, then the
      content type, then the file system. */
  function Respond(filePath: string, root: string, isRegularFile: string -> bool): Response {
    if !StartsWith(filePath, root) then Forbidden
    else
      var contentType := ContentTypeOf(filePath);
      if !isRegularFile(filePath) then NotFound
      else Ok(contentType, filePath)
  }

  // ---------------------------------------------------------------------
  // Properties of one request

  /** Only "GET" gets past the method check, and a refused request's URL, root
      and file system play no part. */
  lemma MethodCheck(httpMethod: string, url: string, root: string, isRegularFile: string -> bool,
                    url': string, root': string, isRegularFile': string -> bool)
    ensures Handle(httpMethod, url, root, isRegularFile) == MethodNotAllowed <==> httpMethod != "GET"
    ensures httpMethod != "GET" ==>
      Handle(httpMethod, url, root, isRegularFile) == Handle(httpMethod, url', root', isRegularFile')
  {
  }

  /** Whatever follows the first '?' is ignored: appending a query changes
      nothing. */
  lemma {:induction false} BeforeQueryOfQuery(url: string, query: string)
    ensures BeforeQuery(url + "?" + query) == BeforeQuery(url)
    decreases |url|
  {
    var s := url + "?" + query;
    if url == "" {
      assert s[0] == '?';
    } else {
      assert s[0] == url[0];
      assert s[1..] == url[1..] + "?" + query;
      BeforeQueryOfQuery(url[1..], query);
    }
  }

  /** The URL matters only through the requested path. */
  lemma RequestPathDecides(httpMethod: string, url: string, url': string, root: string, isRegularFile: string -> bool)
    requires RequestPath(url) == RequestPath(url')
    ensures Handle(httpMethod, url, root, isRegularFile) == Handle(httpMethod, url', root, isRegularFile)
  {
    assert FilePath(root, url) == FilePath(root, url');
  }

  /** Two URLs that agree up to their first '?' are decided alike. */
  lemma QueryIgnored(httpMethod: string, url: string, url': string, root: string, isRegularFile: string -> bool)
    requires BeforeQuery(url) == BeforeQuery(url')
    ensures Handle(httpMethod, url, root, isRegularFile) == Handle(httpMethod, url', root, isRegularFile)
  {
    RequestPathDecides(httpMethod, url, url', root, isRegularFile);
  }

  lemma QueryAppendIgnored(httpMethod: string, url: string, query: string, root: string, isRegularFile: string -> bool)
    ensures Handle(httpMethod, url + "?" + query, root, isRegularFile) == Handle(httpMethod, url, root, isRegularFile)
  {
    BeforeQueryOfQuery(url, query);
    RequestPathDecides(httpMethod, url + "?" + query, url, root, isRegularFile);
  }

  /** A URL without '?' is its own path. */
  lemma BeforeQueryWithoutQuery(url: string)
    requires '?' !in url
    ensures BeforeQuery(url) == url
  {
  }

  /** "/" (with or without a query) is decided exactly as "/index.html". */
  lemma IndexSubstitution(httpMethod: string, url: string, root: string, isRegularFile: string -> bool)
    requires BeforeQuery(url) == "/"
    ensures Handle(httpMethod, url, root, isRegularFile) == Handle(httpMethod, "/index.html", root, isRegularFile)
  {
    var index := "/index.html";
    assert RequestPath(index) == index by {
      assert '?' !in index;
      BeforeQueryWithoutQuery(index);
    }
    RequestPathDecides(httpMethod, url, index, root, isRegularFile);
  }

  /** A prefix without '?' passes through the query cut unchanged. */
  lemma {:induction false} BeforeQueryPrefix(pre: string, url: string)
    requires '?' !in pre
    ensures BeforeQuery(pre + url) == pre + BeforeQuery(url)
    decreases |pre|
  {
    if pre != "" {
      var s, rest := pre + url, pre[1..] + url;
      assert pre[0] != '?' && '?' !in pre[1..];
      assert s[0] == pre[0] && s[1..] == rest;
      assert BeforeQuery(s) == [pre[0]] + BeforeQuery(rest);
      BeforeQueryPrefix(pre[1..], url);
      CharPrefixAssociates(pre, BeforeQuery(url));
    } else {
      assert pre + url == url;
    }
  }

  lemma CharPrefixAssociates(pre: string, t: string)
    requires pre != ""
    ensures [pre[0]] + (pre[1..] + t) == pre + t
  {
    assert pre == [pre[0]] + pre[1..];
  }

  /** Climbing above the root is a no-op: "/.." in front of an absolute URL
      changes nothing, since normalization drops a ".." directly under "/"
      (the URL "/" is excepted: it stands for "/index.html", and "/../" does
      not). */
  lemma ClimbAboveRootIgnored(httpMethod: string, url: string, root: string, isRegularFile: string -> bool)
    requires IsAbsolute(url) && BeforeQuery(url) != "/"
    ensures Handle(httpMethod, "/.." + url, root, isRegularFile) == Handle(httpMethod, url, root, isRegularFile)
  {
    ClimbRequestPath(url);
    NormalizeDropsParentOfRoot(BeforeQuery(url)[1..]);
    SafePathDecides(httpMethod, "/.." + url, url, root, isRegularFile);
  }

  lemma ClimbRequestPath(url: string)
    requires IsAbsolute(url) && BeforeQuery(url) != "/"
    ensures var q := BeforeQuery(url)[1..];
      RequestPath("/.." + url) == "/../" + q && RequestPath(url) == "/" + q
  {
    var b := BeforeQuery(url);
    assert b != "" && b[0] == '/';
    var q := b[1..];
    assert b == "/" + q;
    assert '?' !in "/..";
    BeforeQueryPrefix("/..", url);
    assert "/.." + b == "/../" + q;
  }

  /** The URL matters only through the sanitized path. */
  lemma SafePathDecides(httpMethod: string, url: string, url': string, root: string, isRegularFile: string -> bool)
    requires SafePath(RequestPath(url)) == SafePath(RequestPath(url'))
    ensures Handle(httpMethod, url, root, isRegularFile) == Handle(httpMethod, url', root, isRegularFile)
  {
    if httpMethod == "GET" {
      var safe := SafePath(RequestPath(url));
      assert Handle(httpMethod, url, root, isRegularFile) == Respond(Join(root, safe), root, isRegularFile);
      assert Handle(httpMethod, url', root, isRegularFile) == Respond(Join(root, safe), root, isRegularFile);
    }
  }

  /** Past the method check, the request is refused with 403 exactly when the
      joined path does not start with the root, and anything else has passed
      that check. */
  lemma ContainmentCheck(url: string, root: string, isRegularFile: string -> bool)
    ensures Handle("GET", url, root, isRegularFile) == Forbidden <==> !StartsWith(FilePath(root, url), root)
    ensures Handle("GET", url, root, isRegularFile).NotFound? || Handle("GET", url, root, isRegularFile).Ok?
      ==> StartsWith(FilePath(root, url), root)
  {
  }

  /** A contained, requested path gives 404 exactly when it is not a regular
      file, and otherwise 200 with that file and the type of its extension. */
  lemma StatDecides(url: string, root: string, isRegularFile: string -> bool)
    requires StartsWith(FilePath(root, url), root)
    ensures Handle("GET", url, root, isRegularFile) == NotFound <==> !isRegularFile(FilePath(root, url))
    ensures isRegularFile(FilePath(root, url)) ==>
      Handle("GET", url, root, isRegularFile) == Ok(ContentTypeOf(FilePath(root, url)), FilePath(root, url))
  {
  }

  /** A served file's content type is looked up from its own extension, case
      folded; it is a type from the table, or the default exactly when the
      table has no entry for that extension. */
  lemma ServedContentType(httpMethod: string, url: string, root: string, isRegularFile: string -> bool)
    ensures var r := Handle(httpMethod, url, root, isRegularFile);
      r.Ok? ==> r.contentType == Mime.ContentType(ExtName(r.file))
    ensures var r := Handle(httpMethod, url, root, isRegularFile);
      r.Ok? ==> (r.contentType == Mime.DefaultType <==> Mime.Lower(ExtName(r.file)) !in Mime.Types)
    ensures var r := Handle(httpMethod, url, root, isRegularFile);
      r.Ok? && r.contentType != Mime.DefaultType ==> r.contentType in Mime.Types.Values
  {
    var r := Handle(httpMethod, url, root, isRegularFile);
    if r.Ok? {
      Mime.ContentTypeDefault(ExtName(r.file));
    }
  }

  /** The file system decides only between 404 and 200: the content type and
      every other outcome are fixed before it is asked. */
  lemma OracleOnlyDecidesExistence(httpMethod: string, url: string, root: string,
                                   isRegularFile: string -> bool, isRegularFile': string -> bool)
    ensures var r, r' := Handle(httpMethod, url, root, isRegularFile), Handle(httpMethod, url, root, isRegularFile');
      (r.Ok? || r.NotFound?) == (r'.Ok? || r'.NotFound?)
      && (r.Ok? && r'.Ok? ==> r == r')
      && (!(r.Ok? || r.NotFound?) ==> r == r')
  {
    if httpMethod == "GET" {
      var p := FilePath(root, url);
      assert Handle(httpMethod, url, root, isRegularFile) == Respond(p, root, isRegularFile);
      assert Handle(httpMethod, url, root, isRegularFile') == Respond(p, root, isRegularFile');
    }
  }

  /** The status line and header of each outcome. */
  lemma ResponseShapes(ct: string, file: string)
    ensures MethodNotAllowed.Status() == 405 && MethodNotAllowed.ContentTypeHeader() == "text/plain"
    ensures Forbidden.Status() == 403 && Forbidden.ContentTypeHeader() == "text/plain"
    ensures NotFound.Status() == 404 && NotFound.ContentTypeHeader() == "text/plain"
    ensures Ok(ct, file).Status() == 200 && Ok(ct, file).ContentTypeHeader() == ct
    ensures Ok(ct, file).Payload() == FileContents(file)
  {
  }

  /** The sanitized path never starts with a parent step, and what was cut
      off consisted of parent steps only. */
  lemma SafePathStripped(urlPath: string)
    ensures !StartsWithParentStep(SafePath(urlPath))
    ensures var n := Normalize(urlPath); var r := SafePath(urlPath);
      |r| <= |n| && n == n[..|n| - |r|] + r && IsParentSteps(n[..|n| - |r|])
  {
    var n := Normalize(urlPath);
    var r := SafePath(urlPath);
    assert n == n[..|n| - |r|] + n[|n| - |r|..];
  }
}
