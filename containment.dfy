/** What the sanitizing steps and the string-prefix check achieve together
    when the root is a directory path as Node gives it for `__dirname`. */
module Containment {
  import opened PosixPath
  import opened Serve
  import Mime

  /** An absolute, normalized directory path other than "/": after the leading
      '/', names separated by single '/' characters, none of them "." or "..",
      and no separator at the end. */
  predicate ValidRoot(root: string) {
    IsAbsolute(root) && root[|root| - 1] != '/'
    && HasNames(Split(root[1..])) && NoParents(Split(root[1..]))
  }

  // ---------------------------------------------------------------------
  // Segments

  /** The first segment is the text before the first '/'. */
  lemma {:induction false} FirstSegment(s: string)
    ensures Split(s)[0] <= s
    ensures |Split(s)[0]| < |s| ==> s[|Split(s)[0]|] == '/'
    decreases |s|
  {
    if s != "" && s[0] != '/' {
      FirstSegment(s[1..]);
    }
  }

  /** A prefix without separators joins the first segment. */
  lemma {:induction false} SplitNamePrefix(pre: string, y: string)
    requires '/' !in pre
    ensures Split(pre + y) == [pre + Split(y)[0]] + Split(y)[1..]
    decreases |pre|
  {
    if pre != "" {
      var s := pre + y;
      assert s[0] == pre[0] && s[1..] == pre[1..] + y;
      assert '/' !in pre[1..];
      SplitNamePrefix(pre[1..], y);
      assert [pre[0]] + (pre[1..] + Split(y)[0]) == pre + Split(y)[0];
    } else {
      assert pre + y == y;
      assert Split(y) == [Split(y)[0]] + Split(y)[1..];
      assert pre + Split(y)[0] == Split(y)[0];
    }
  }

  lemma ParentsLeadingTail(segs: seq<string>)
    requires |segs| >= 1 && ParentsLeading(segs)
    ensures ParentsLeading(segs[1..])
  {
    forall i, j | 0 <= i < j < |segs[1..]| && segs[1..][i] != ".." ensures segs[1..][j] != ".." {
      assert segs[1..][i] == segs[i + 1] && segs[1..][j] == segs[j + 1];
    }
  }

  // ---------------------------------------------------------------------
  // The sanitized path

  /** Stripping the parent steps from a path whose ".." segments all lead
      leaves either a bare ".." or a path with no ".." segment at all. */
  lemma {:induction false} StripKeepsShape(x: string)
    requires ParentsLeading(Split(x))
    ensures StripParentSteps(x) == ".." || NoParents(Split(StripParentSteps(x)))
    decreases |x|
  {
    if StartsWithParentStep(x) && x[2] == '/' {
      var y := x[3..];
      assert x == ".." + "/" + y;
      SplitConcat("..", y);
      SplitNoSeparator("..");
      assert Split(x) == [".."] + Split(y);
      assert Split(x)[1..] == Split(y);
      ParentsLeadingTail(Split(x));
      StripKeepsShape(y);
    } else if StartsWithParentStep(x) {
      var y := x[3..];
      assert x == "..\\" + y;
      SplitNamePrefix("..\\", y);
      var first := Split(x)[0];
      assert |first| >= 3;
      assert Split(x)[1..] == Split(y)[1..];
      assert ParentsLeading(Split(y)) by {
        forall i, j | 0 <= i < j < |Split(y)| && Split(y)[i] != ".." ensures Split(y)[j] != ".." {
          assert Split(y)[j] == Split(x)[j];
          assert Split(x)[0] != "..";
        }
      }
      StripKeepsShape(y);
    } else {
      FirstSegment(x);
      var first := Split(x)[0];
      if first == ".." {
        assert x[0] == '.' && x[1] == '.';
        assert |x| == 2;
        assert x == "..";
      } else {
        assert NoParents(Split(x));
      }
    }
  }

  /** After normalizing and stripping, a request path is either the bare ".."
      (which the regular expression cannot strip, lacking a separator after
      it) or free of ".." segments. */
  lemma SafePathShape(urlPath: string)
    ensures SafePath(urlPath) == ".." || NoParents(Split(SafePath(urlPath)))
  {
    NormalizeShape(urlPath);
    StripKeepsShape(Normalize(urlPath));
  }

  // ---------------------------------------------------------------------
  // Joining onto the root

  /** The names of a valid root, and what resolving them gives. */
  lemma RootSegments(root: string)
    requires ValidRoot(root)
    ensures Split(root) == [""] + Split(root[1..])
    ensures JoinSegments(Split(root[1..])) == root[1..]
    ensures |root| >= 2
    ensures Names(Split(root)) == Split(root[1..])
  {
    SplitAbsolute(root);
    JoinSplit(root[1..]);
    NamesAfterSeparator(Split(root[1..]));
  }

  lemma SplitAbsolute(p: string)
    requires IsAbsolute(p)
    ensures Split(p) == [""] + Split(p[1..])
  {
    assert p == "/" + p[1..];
    SplitLeadingSeparator(p[1..]);
  }

  lemma NamesAfterSeparator(names: seq<string>)
    requires HasNames(names)
    ensures Names([""] + names) == names
  {
    assert ([""] + names)[1..] == names;
    NamesOfNames(names);
  }

  lemma RootWithoutParents(root: string)
    requires ValidRoot(root)
    ensures NoParents(Split(root))
    ensures Resolve([], Split(root), false) == Split(root[1..])
  {
    var names := Split(root[1..]);
    RootSegments(root);
    assert forall i :: 1 <= i < |Split(root)| ==> Split(root)[i] == names[i - 1];
    ResolveWithoutParents([], Split(root), false);
  }

  /** A valid root is already normalized. */
  lemma ValidRootNormalized(root: string)
    requires ValidRoot(root)
    ensures Normalize(root) == root
  {
    RootSegments(root);
    RootWithoutParents(root);
    NormalizeAbsolute(root, Resolve([], Split(root), false));
    assert root == "/" + root[1..];
  }

  /** Joining a path without ".." onto a valid root resolves to the root's
      names followed by the path's names. */
  lemma ResolveUnderRoot(root: string, safe: string)
    requires ValidRoot(root)
    requires NoParents(Split(safe))
    ensures Resolve([], Split(root + "/" + safe), false) == Split(root[1..]) + Names(Split(safe))
  {
    var names := Split(root[1..]);
    RootSegments(root);
    RootWithoutParents(root);
    SplitConcat(root, safe);
    ResolveAppend([], Split(root), Split(safe), false);
    ResolveWithoutParents(names, Split(safe), false);
  }

  /** The resolved names under the root, written out. */
  lemma JoinedUnderRoot(root: string, names: seq<string>, rest: seq<string>, stack: seq<string>)
    requires ValidRoot(root) && names == Split(root[1..]) && stack == names + rest
    ensures stack != []
    ensures JoinSegments(stack) == root[1..] + (if rest == [] then "" else "/" + JoinSegments(rest))
  {
    JoinSplit(root[1..]);
    JoinThenNames(names, rest);
  }

  lemma JoinThenNames(names: seq<string>, rest: seq<string>)
    requires |names| >= 1
    ensures JoinSegments(names + rest)
      == JoinSegments(names) + (if rest == [] then "" else "/" + JoinSegments(rest))
  {
    if rest == [] {
      assert names + rest == names;
    } else {
      JoinSegmentsAppend(names, rest);
    }
  }

  /** A non-empty path without ".." joined onto a valid root: the root, then
      the path's names, then the path's trailing separator if it has one. */
  lemma JoinUnderRoot(root: string, safe: string)
    requires ValidRoot(root)
    requires NoParents(Split(safe)) && safe != ""
    ensures var rest := Names(Split(safe));
      Join(root, safe)
      == root + ((if rest == [] then "" else "/" + JoinSegments(rest)) + (if safe[|safe| - 1] == '/' then "/" else ""))
  {
    var names := Split(root[1..]);
    var p := root + "/" + safe;
    var rest := Names(Split(safe));
    var stack := Resolve([], Split(p), false);
    var tail := if rest == [] then "" else "/" + JoinSegments(rest);
    ResolveUnderRoot(root, safe);
    JoinedUnderRoot(root, names, rest, stack);
    JoinAssemble(root, safe, stack, tail);
  }

  /** The join of a path whose resolved names are the root's names and then
      `tail`. */
  lemma JoinAssemble(root: string, safe: string, stack: seq<string>, tail: string)
    requires IsAbsolute(root) && safe != ""
    requires stack == Resolve([], Split(root + "/" + safe), false)
    requires stack != [] && JoinSegments(stack) == root[1..] + tail
    ensures Join(root, safe) == root + (tail + if safe[|safe| - 1] == '/' then "/" else "")
  {
    var p := root + "/" + safe;
    assert p[|p| - 1] == safe[|safe| - 1];
    NormalizeAbsolute(p, stack);
    AssembleUnderRoot(root, stack, tail, safe[|safe| - 1] == '/', Normalize(p));
  }

  /** The normalized form of a path below the root, rewritten as the root
      followed by the rest. */
  lemma AssembleUnderRoot(root: string, stack: seq<string>, tail: string, trailing: bool, n: string)
    requires IsAbsolute(root)
    requires JoinSegments(stack) == root[1..] + tail
    requires trailing ==> n == "/" + (JoinSegments(stack) + "/")
    requires !trailing ==> n == "/" + JoinSegments(stack)
    ensures n == root + (tail + if trailing then "/" else "")
  {
    assert root == "/" + root[1..];
  }

  /** A path with no ".." segment joined onto a valid root stays inside it:
      the result is the root itself or starts with the root and a '/'. */
  lemma JoinStaysInside(root: string, safe: string)
    requires ValidRoot(root)
    requires NoParents(Split(safe))
    ensures Join(root, safe) == root || StartsWith(Join(root, safe), root + "/")
  {
    if safe == "" {
      ValidRootNormalized(root);
    } else {
      var rest := Names(Split(safe));
      var tail := if rest == [] then "" else "/" + JoinSegments(rest);
      var trail := if safe[|safe| - 1] == '/' then "/" else "";
      JoinUnderRoot(root, safe);
      SeparatedSuffix(root, tail, trail);
    }
  }

  lemma SeparatedSuffix(root: string, tail: string, trail: string)
    requires tail == "" || tail[0] == '/'
    requires trail == "" || trail == "/"
    ensures root + (tail + trail) == root || StartsWith(root + (tail + trail), root + "/")
  {
    var suffix := tail + trail;
    if suffix != "" {
      assert suffix[0] == '/';
      assert (root + suffix)[..|root| + 1] == root + "/";
    }
  }

  /** Resolving ".." under a valid root drops the root's last name. */
  lemma ResolveParentOfRoot(root: string)
    requires ValidRoot(root)
    ensures var names := Split(root[1..]);
      Resolve([], Split(root + "/" + ".."), false) == names[..|names| - 1]
  {
    var names := Split(root[1..]);
    RootWithoutParents(root);
    SplitConcat(root, "..");
    SplitNoSeparator("..");
    ResolveAppend([], Split(root), [".."], false);
    assert Resolve(names, [".."], false) == Step(names, "..", false);
  }

  /** The bare ".." joined onto a valid root leaves it: the result is the
      root's parent, a shorter string. */
  lemma JoinParentLeaves(root: string)
    requires ValidRoot(root)
    ensures !StartsWith(Join(root, ".."), root)
    ensures |Join(root, "..")| < |root|
  {
    var names := Split(root[1..]);
    var n := |names|;
    var p := root + "/" + "..";
    var stack := names[..n - 1];
    assert Resolve([], Split(p), false) == stack by {
      ResolveParentOfRoot(root);
    }
    assert p[|p| - 1] == '.';
    NormalizeAbsolute(p, stack);
    RootSegments(root);
    if n > 1 {
      assert |JoinSegments(stack)| < |root[1..]| by {
        assert names == stack + [names[n - 1]];
        JoinSegmentsAppend(stack, [names[n - 1]]);
      }
    }
  }

  // ---------------------------------------------------------------------
  // The whole request

  lemma LongerPrefix(s: string, root: string)
    requires StartsWith(s, root + "/")
    ensures StartsWith(s, root)
  {
    assert s[..|root|] == (root + "/")[..|root|];
  }

  /** A sanitized path joined onto a valid root passes the prefix check unless
      it is the bare "..", and then lands strictly inside the root. */
  lemma JoinPassesCheckUnlessParent(root: string, safe: string)
    requires ValidRoot(root)
    requires safe == ".." || NoParents(Split(safe))
    ensures StartsWith(Join(root, safe), root) <==> safe != ".."
    ensures safe != ".." ==> Join(root, safe) == root || StartsWith(Join(root, safe), root + "/")
  {
    if safe == ".." {
      JoinParentLeaves(root);
    } else {
      JoinStaysInside(root, safe);
      if Join(root, safe) != root {
        LongerPrefix(Join(root, safe), root);
      }
    }
  }

  /** With a valid root, a GET request is refused with 403 exactly when its
      sanitized path is the bare "..": every other path passes the check. */
  lemma ForbiddenExactlyBareParent(url: string, root: string, isRegularFile: string -> bool)
    requires ValidRoot(root)
    ensures Handle("GET", url, root, isRegularFile) == Forbidden <==> SafePath(RequestPath(url)) == ".."
  {
    SafePathShape(RequestPath(url));
    var safe := SafePath(RequestPath(url));
    ContainmentCheck(url, root, isRegularFile);
    assert FilePath(root, url) == Join(root, safe);
    JoinPassesCheckUnlessParent(root, safe);
  }

  /** With a valid root, every path that gets past the check, and so every
      file served, is the root itself or lies under root + "/": the prefix
      check never admits a sibling such as "/srv/wwwevil" for "/srv/www". */
  lemma ServedInsideRoot(httpMethod: string, url: string, root: string, isRegularFile: string -> bool)
    requires ValidRoot(root)
    ensures var r := Handle(httpMethod, url, root, isRegularFile);
      (r.NotFound? || r.Ok?) ==> FilePath(root, url) == root || StartsWith(FilePath(root, url), root + "/")
    ensures var r := Handle(httpMethod, url, root, isRegularFile);
      r.Ok? ==> r.file == root || StartsWith(r.file, root + "/")
  {
    var safe := SafePath(RequestPath(url));
    SafePathShape(RequestPath(url));
    assert FilePath(root, url) == Join(root, safe);
    JoinPassesCheckUnlessParent(root, safe);
    if httpMethod == "GET" {
      ContainmentCheck(url, root, isRegularFile);
    }
  }

  /** The check as written is a plain string prefix: on its own it accepts a
      sibling directory that shares the root's spelling. */
  lemma PrefixCheckAcceptsSibling()
    ensures StartsWith("/srv/wwwevil/secret", "/srv/www")
    ensures !StartsWith("/srv/wwwevil/secret", "/srv/www/")
  {
    assert "/srv/wwwevil/secret"[8] == 'e';
    assert "/srv/www/"[8] == '/';
  }

  lemma ThreeParentSegments()
    ensures Split("../../..") == ["..", "..", ".."]
  {
    SplitNoSeparator("..");
    SplitConcat("..", "..");
    assert ".." + "/" + ".." == "../.." by {}
    SplitConcat("..", "../..");
    assert ".." + "/" + "../.." == "../../.." by {}
  }

  lemma SplitAfterName(name: string, rest: string)
    requires '/' !in name
    ensures Split(name + "/" + rest) == [name] + Split(rest)
  {
    SplitNoSeparator(name);
    SplitConcat(name, rest);
  }

  /** The segments of an absolute-form request target that climbs three
      levels: `scheme//host/../../..`. */
  lemma AbsoluteFormSegments(scheme: string, host: string)
    requires '/' !in scheme && '/' !in host
    ensures Split(scheme + "//" + host + "/../../..") == [scheme, "", host, "..", "..", ".."]
  {
    var tail := host + "/" + "../../..";
    assert scheme + "//" + host + "/../../.." == scheme + "/" + ("/" + tail) by {}
    ThreeParentSegments();
    SplitAfterName(host, "../../..");
    SplitLeadingSeparator(tail);
    SplitAfterName(scheme, "/" + tail);
  }

  /** Two names, then three "..": one ".." is left. */
  lemma AbsoluteFormResolves(scheme: string, host: string)
    requires IsName(scheme) && scheme != ".."
    requires IsName(host) && host != ".."
    ensures Resolve([], [scheme, "", host, "..", "..", ".."], true) == [".."]
  {
    var segs := [scheme, "", host, "..", "..", ".."];
    assert Step([], scheme, true) == [scheme];
    assert Step([scheme], host, true) == [scheme, host];
    assert Resolve([], segs, true) == Resolve([scheme], segs[1..], true);
    assert Resolve([scheme], segs[1..], true) == Resolve([scheme], segs[2..], true);
    assert Resolve([scheme], segs[2..], true) == Resolve([scheme, host], segs[3..], true);
    assert Resolve([scheme, host], segs[3..], true) == Resolve([scheme], segs[4..], true);
    assert Resolve([scheme], segs[4..], true) == Resolve([], segs[5..], true);
  }

  /** An absolute-form target `scheme//host/../../..` normalizes to the bare
      "..": the scheme and the host are two names that the first two ".."
      drop, and the third climbs above the start. */
  lemma AbsoluteFormClimbsOut(scheme: string, host: string, root: string, isRegularFile: string -> bool)
    requires ValidRoot(root)
    requires IsName(scheme) && scheme != ".." && '?' !in scheme
    requires IsName(host) && host != ".." && '?' !in host
    ensures Handle("GET", scheme + "//" + host + "/../../..", root, isRegularFile) == Forbidden
  {
    var url := scheme + "//" + host + "/../../..";
    assert '?' !in url;
    BeforeQueryWithoutQuery(url);
    assert RequestPath(url) == url;
    assert Resolve([], Split(url), true) == [".."] by {
      AbsoluteFormSegments(scheme, host);
      AbsoluteFormResolves(scheme, host);
    }
    assert JoinSegments([".."]) == "..";
    assert url[0] == scheme[0] && url[|url| - 1] == '.';
    assert Normalize(url) == "..";
    assert SafePath(url) == "..";
    ForbiddenExactlyBareParent(url, root, isRegularFile);
  }

  /** The target `http://x/../../..`, which an HTTP parser hands on as it
      stands, climbs out of every root and is refused. */
  lemma BareParentRefused(root: string, isRegularFile: string -> bool)
    requires ValidRoot(root)
    ensures Handle("GET", "http://x/../../..", root, isRegularFile) == Forbidden
  {
    assert "http:" + "//" + "x" + "/../../.." == "http://x/../../.." by {}
    assert IsName("http:") && "http:" != ".." && '?' !in "http:" by {}
    assert IsName("x") && "x" != ".." && '?' !in "x" by {}
    AbsoluteFormClimbsOut("http:", "x", root, isRegularFile);
  }

  // GET "/"

  lemma IndexSegments()
    ensures Split("/index.html") == ["", "index.html"]
    ensures Names(Split("/index.html")) == ["index.html"]
  {
    assert '/' !in "index.html";
    SplitNoSeparator("index.html");
    SplitLeadingSeparator("index.html");
    assert ["", "index.html"][1..] == ["index.html"];
  }

  lemma IndexSafePath()
    ensures SafePath("/index.html") == "/index.html"
  {
    var p := "/index.html";
    var stack := Resolve([], Split(p), false);
    assert stack == ["index.html"] by {
      IndexSegments();
    }
    assert Normalize(p) == p by {
      assert JoinSegments(stack) == "index.html" && p[|p| - 1] != '/' by {}
      NormalizeAbsolute(p, stack);
    }
    assert !StartsWithParentStep(p);
  }

  lemma IndexUnderRoot(root: string)
    requires ValidRoot(root)
    ensures Join(root, "/index.html") == root + "/index.html"
  {
    IndexSegments();
    assert JoinSegments(["index.html"]) == "index.html" by {}
    assert "/index.html"[|"/index.html"| - 1] != '/' by {}
    assert ("/" + "index.html") + "" == "/index.html" by {}
    assert NoParents(["", "index.html"]) by {}
    JoinUnderRoot(root, "/index.html");
  }

  lemma IndexExtension(dir: string)
    ensures ExtName(dir + "/index.html") == ".html"
  {
    assert "/index.html" == "/" + "index" + "." + "html" by {}
    assert "." + "html" == ".html" by {}
    assert dir + "/index.html" == dir + "/" + "index" + "." + "html";
    ExtNameOfFile(dir, "index", "html");
  }

  lemma IndexIsHtml(dir: string)
    ensures ContentTypeOf(dir + "/index.html") == "text/html"
  {
    IndexExtension(dir);
    Mime.HtmlType();
  }

  /** With a valid root, GET "/" (with any query) serves "index.html" under
      the root as "text/html" when it is a regular file, and is 404 otherwise. */
  lemma IndexServed(url: string, root: string, isRegularFile: string -> bool)
    requires ValidRoot(root) && BeforeQuery(url) == "/"
    ensures var index := root + "/index.html";
      Handle("GET", url, root, isRegularFile)
      == if isRegularFile(index) then Ok("text/html", index) else NotFound
  {
    assert RequestPath(url) == "/index.html";
    IndexSafePath();
    IndexUnderRoot(root);
    IndexIsHtml(root);
    assert FilePath(root, url) == root + "/index.html";
    ServedInsideRoot("GET", url, root, isRegularFile);
    StatDecides(url, root, isRegularFile);
  }
}
