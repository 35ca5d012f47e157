/** The POSIX flavour of Node's `path` module, as far as the request handler
    uses it: `normalize`, `join` and `extname`. Paths are strings; '/' is the
    only separator ('\' is an ordinary character here). */
module PosixPath {

  predicate IsAbsolute(p: string) {
    |p| > 0 && p[0] == '/'
  }

  // ---------------------------------------------------------------------
  // Segments

  /** The texts between '/' characters, as `s.split('/')`: never an empty list,
      and no segment holds a separator. */
  function Split(s: string): (segs: seq<string>)
    ensures |segs| >= 1
    ensures forall i :: 0 <= i < |segs| ==> '/' !in segs[i]
    decreases |s|
  {
    if s == "" then [""]
    else if s[0] == '/' then [""] + Split(s[1..])
    else
      var rest := Split(s[1..]);
      [[s[0]] + rest[0]] + rest[1..]
  }

  /** The segments written out with one '/' between neighbours. */
  function JoinSegments(segs: seq<string>): string
  {
    if |segs| == 0 then ""
    else if |segs| == 1 then segs[0]
    else segs[0] + "/" + JoinSegments(segs[1..])
  }

  lemma ConsAssociates(c: char, x: string, y: string)
    ensures ([c] + x) + "/" + y == [c] + (x + "/" + y)
  {
  }

  lemma JoinMergedHead(c: char, segs: seq<string>)
    requires |segs| > 1
    ensures JoinSegments([[c] + segs[0]] + segs[1..]) == ([c] + segs[0]) + "/" + JoinSegments(segs[1..])
  {
    var t := [[c] + segs[0]] + segs[1..];
    assert t[1..] == segs[1..];
  }

  /** Merging a character into the first segment puts it in front of the
      joined text. */
  lemma JoinConsChar(c: char, segs: seq<string>)
    requires |segs| >= 1
    ensures JoinSegments([[c] + segs[0]] + segs[1..]) == [c] + JoinSegments(segs)
  {
    if |segs| > 1 {
      JoinMergedHead(c, segs);
      ConsAssociates(c, segs[0], JoinSegments(segs[1..]));
    }
  }

  /** Splitting and joining again gives the path back. */
  lemma {:induction false} JoinSplit(s: string)
    ensures JoinSegments(Split(s)) == s
    decreases |s|
  {
    if s == "" {
    } else if s[0] == '/' {
      JoinSplit(s[1..]);
      var rest := Split(s[1..]);
      assert ([""] + rest)[1..] == rest;
      assert s == "/" + s[1..];
    } else {
      JoinSplit(s[1..]);
      JoinConsChar(s[0], Split(s[1..]));
      assert s == [s[0]] + s[1..];
    }
  }

  /** Merging a character into the first segment commutes with appending
      further segments. */
  lemma MergeFirstAppend(x: string, ra: seq<string>, rb: seq<string>)
    requires |ra| >= 1
    ensures [x + (ra + rb)[0]] + (ra + rb)[1..] == ([x + ra[0]] + ra[1..]) + rb
  {
    assert (ra + rb)[1..] == ra[1..] + rb;
  }

  /** A separator between two texts separates their segment lists. */
  lemma {:induction false} SplitConcat(a: string, b: string)
    ensures Split(a + "/" + b) == Split(a) + Split(b)
    decreases |a|
  {
    var s := a + "/" + b;
    if a == "" {
      assert s == "/" + b;
      assert s[1..] == b;
    } else {
      assert s[0] == a[0];
      assert s[1..] == a[1..] + "/" + b;
      SplitConcat(a[1..], b);
      if a[0] == '/' {
        assert Split(s) == [""] + (Split(a[1..]) + Split(b));
      } else {
        assert Split(s) == [[a[0]] + Split(s[1..])[0]] + Split(s[1..])[1..];
        MergeFirstAppend([a[0]], Split(a[1..]), Split(b));
      }
    }
  }

  lemma {:induction false} SplitNoSeparator(s: string)
    requires '/' !in s
    ensures Split(s) == [s]
    decreases |s|
  {
    if s != "" {
      assert '/' !in s[1..];
      SplitNoSeparator(s[1..]);
      assert s == [s[0]] + s[1..];
    }
  }

  /** Segments without separators are recovered from their joined text. */
  lemma {:induction false} SplitJoin(segs: seq<string>)
    requires |segs| >= 1
    requires forall i :: 0 <= i < |segs| ==> '/' !in segs[i]
    ensures Split(JoinSegments(segs)) == segs
    decreases |segs|
  {
    if |segs| == 1 {
      SplitNoSeparator(segs[0]);
    } else {
      SplitJoin(segs[1..]);
      SplitNoSeparator(segs[0]);
      SplitConcat(segs[0], JoinSegments(segs[1..]));
    }
  }

  lemma {:induction false} JoinSegmentsAppend(a: seq<string>, b: seq<string>)
    requires |a| >= 1 && |b| >= 1
    ensures JoinSegments(a + b) == JoinSegments(a) + "/" + JoinSegments(b)
    decreases |a|
  {
    if |a| == 1 {
      assert (a + b)[1..] == b;
    } else {
      assert (a + b)[1..] == a[1..] + b;
      JoinSegmentsAppend(a[1..], b);
    }
  }

  /** A segment that names a directory entry. */
  predicate IsName(seg: string) {
    seg != "" && seg != "." && '/' !in seg
  }

  predicate HasNames(segs: seq<string>) {
    forall i :: 0 <= i < |segs| ==> IsName(segs[i])
  }

  /** No segment is the parent reference "..". */
  predicate NoParents(segs: seq<string>) {
    forall i :: 0 <= i < |segs| ==> segs[i] != ".."
  }

  /** Every ".." comes before every other segment. */
  predicate ParentsLeading(segs: seq<string>) {
    forall i, j :: 0 <= i < j < |segs| && segs[i] != ".." ==> segs[j] != ".."
  }

  lemma {:induction false} JoinSegmentsEmpty(segs: seq<string>)
    requires HasNames(segs)
    ensures JoinSegments(segs) == "" <==> segs == []
    ensures segs != [] ==> JoinSegments(segs)[0] == segs[0][0]
  {
    if |segs| > 1 {
      assert JoinSegments(segs) == segs[0] + ("/" + JoinSegments(segs[1..]));
    }
  }

  // ---------------------------------------------------------------------
  // normalize

  /** One segment applied to the resolved segments so far, as the loop of
      Node's normalizeString does: empty and "." segments vanish, ".." drops the
      last name, or is kept when nothing is left to drop and the path may
      climb above its start (relative paths). */
  function Step(stack: seq<string>, seg: string, allowAboveRoot: bool): seq<string>
  {
    if seg == "" || seg == "." then stack
    else if seg == ".." then
      if |stack| > 0 && stack[|stack| - 1] != ".." then stack[..|stack| - 1]
      else if allowAboveRoot then stack + [".."]
      else stack
    else stack + [seg]
  }

  function Resolve(stack: seq<string>, segs: seq<string>, allowAboveRoot: bool): seq<string>
    decreases |segs|
  {
    if segs == [] then stack
    else Resolve(Step(stack, segs[0], allowAboveRoot), segs[1..], allowAboveRoot)
  }

  /** What the resolved segments always look like: names, leading ".." only,
      and no ".." at all for an absolute path. */
  predicate ValidStack(stack: seq<string>, allowAboveRoot: bool) {
    HasNames(stack) && ParentsLeading(stack) && (!allowAboveRoot ==> NoParents(stack))
  }

  lemma StepValid(stack: seq<string>, seg: string, allowAboveRoot: bool)
    requires ValidStack(stack, allowAboveRoot)
    requires '/' !in seg
    ensures ValidStack(Step(stack, seg, allowAboveRoot), allowAboveRoot)
  {
  }

  lemma {:induction false} ResolveValid(stack: seq<string>, segs: seq<string>, allowAboveRoot: bool)
    requires ValidStack(stack, allowAboveRoot)
    requires forall i :: 0 <= i < |segs| ==> '/' !in segs[i]
    ensures ValidStack(Resolve(stack, segs, allowAboveRoot), allowAboveRoot)
    decreases |segs|
  {
    if segs != [] {
      StepValid(stack, segs[0], allowAboveRoot);
      ResolveValid(Step(stack, segs[0], allowAboveRoot), segs[1..], allowAboveRoot);
    }
  }

  lemma {:induction false} ResolveAppend(stack: seq<string>, a: seq<string>, b: seq<string>, allowAboveRoot: bool)
    ensures Resolve(stack, a + b, allowAboveRoot) == Resolve(Resolve(stack, a, allowAboveRoot), b, allowAboveRoot)
    decreases |a|
  {
    if a == [] {
      assert a + b == b;
    } else {
      assert (a + b)[0] == a[0];
      assert (a + b)[1..] == a[1..] + b;
      ResolveAppend(Step(stack, a[0], allowAboveRoot), a[1..], b, allowAboveRoot);
    }
  }

  /** The segments that survive when there is no "..": the names. */
  function Names(segs: seq<string>): seq<string>
    decreases |segs|
  {
    if segs == [] then []
    else (if segs[0] == "" || segs[0] == "." then [] else [segs[0]]) + Names(segs[1..])
  }

  lemma {:induction false} ResolveWithoutParents(stack: seq<string>, segs: seq<string>, allowAboveRoot: bool)
    requires NoParents(segs)
    ensures Resolve(stack, segs, allowAboveRoot) == stack + Names(segs)
    decreases |segs|
  {
    if segs != [] {
      var head, tail := segs[0], segs[1..];
      assert NoParents(tail) by {
        forall i | 0 <= i < |tail| ensures tail[i] != ".." {
          assert tail[i] == segs[i + 1];
        }
      }
      var kept := if head == "" || head == "." then [] else [head];
      assert Step(stack, head, allowAboveRoot) == stack + kept;
      ResolveWithoutParents(stack + kept, tail, allowAboveRoot);
      assert Names(segs) == kept + Names(tail);
      assert stack + kept + Names(tail) == stack + (kept + Names(tail));
    }
  }

  lemma {:induction false} NamesOfNames(segs: seq<string>)
    requires HasNames(segs)
    ensures Names(segs) == segs
    decreases |segs|
  {
    if segs != [] {
      assert HasNames(segs[1..]) by {
        forall i | 0 <= i < |segs[1..]| ensures IsName(segs[1..][i]) {
          assert segs[1..][i] == segs[i + 1];
        }
      }
      NamesOfNames(segs[1..]);
      assert segs == [segs[0]] + segs[1..];
    }
  }

  lemma {:induction false} NamesAppend(a: seq<string>, b: seq<string>)
    ensures Names(a + b) == Names(a) + Names(b)
    decreases |a|
  {
    if a == [] {
      assert a + b == b;
    } else {
      assert (a + b)[0] == a[0];
      assert (a + b)[1..] == a[1..] + b;
      NamesAppend(a[1..], b);
    }
  }

  /** `path.posix.normalize(p)`. */
  function Normalize(p: string): (r: string)
    ensures r != ""
  {
    if p == "" then "."
    else
      var isAbsolute := p[0] == '/';
      var trailingSeparator := p[|p| - 1] == '/';
      var body := JoinSegments(Resolve([], Split(p), !isAbsolute));
      if body == "" then
        if isAbsolute then "/" else if trailingSeparator then "./" else "."
      else
        var withTrail := if trailingSeparator then body + "/" else body;
        if isAbsolute then "/" + withTrail else withTrail
  }

  lemma SplitLeadingSeparator(x: string)
    ensures Split("/" + x) == [""] + Split(x)
  {
    SplitConcat("", x);
    assert "/" + x == "" + "/" + x;
  }

  lemma SplitTrailingSeparator(x: string)
    ensures Split(x + "/") == Split(x) + [""]
  {
    SplitConcat(x, "");
    assert x + "/" == x + "/" + "";
  }

  /** The segments of a normalized path whose resolved names are `stack`. */
  lemma SplitNormalized(stack: seq<string>, allowAboveRoot: bool, trailingSeparator: bool)
    requires ValidStack(stack, allowAboveRoot) && stack != []
    ensures var withTrail := if trailingSeparator then JoinSegments(stack) + "/" else JoinSegments(stack);
      && Split(withTrail) == (if trailingSeparator then stack + [""] else stack)
      && ParentsLeading(Split(withTrail))
  {
    SplitJoin(stack);
    if trailingSeparator {
      SplitTrailingSeparator(JoinSegments(stack));
    }
  }

  /** The four forms of a normalized non-empty path, by whether it is absolute
      and whether it ends with a separator, once its names resolve to `stack`. */
  lemma NormalizeCases(p: string, stack: seq<string>)
    requires p != ""
    requires stack == Resolve([], Split(p), !IsAbsolute(p))
    ensures ValidStack(stack, !IsAbsolute(p))
    ensures stack == [] ==> Normalize(p) == if IsAbsolute(p) then "/" else if p[|p| - 1] == '/' then "./" else "."
    ensures stack != [] && IsAbsolute(p) && p[|p| - 1] == '/' ==> Normalize(p) == "/" + (JoinSegments(stack) + "/")
    ensures stack != [] && IsAbsolute(p) && p[|p| - 1] != '/' ==> Normalize(p) == "/" + JoinSegments(stack)
    ensures stack != [] && !IsAbsolute(p) && p[|p| - 1] == '/' ==> Normalize(p) == JoinSegments(stack) + "/"
    ensures stack != [] && !IsAbsolute(p) && p[|p| - 1] != '/' ==> Normalize(p) == JoinSegments(stack)
  {
    ResolveValid([], Split(p), !IsAbsolute(p));
    JoinSegmentsEmpty(stack);
  }

  /** An absolute path whose names resolve to `stack` normalizes to "/" and
      those names, keeping a trailing separator. */
  lemma NormalizeAbsolute(p: string, stack: seq<string>)
    requires IsAbsolute(p)
    requires stack == Resolve([], Split(p), false)
    ensures stack == [] ==> Normalize(p) == "/"
    ensures stack != [] && p[|p| - 1] == '/' ==> Normalize(p) == "/" + (JoinSegments(stack) + "/")
    ensures stack != [] && p[|p| - 1] != '/' ==> Normalize(p) == "/" + JoinSegments(stack)
  {
    NormalizeCases(p, stack);
  }

  lemma ShapeOfNames(stack: seq<string>, isAbsolute: bool, trailingSeparator: bool, withTrail: string, r: string)
    requires ValidStack(stack, !isAbsolute) && stack != []
    requires withTrail == if trailingSeparator then JoinSegments(stack) + "/" else JoinSegments(stack)
    requires r == if isAbsolute then "/" + withTrail else withTrail
    ensures IsAbsolute(r) <==> isAbsolute
    ensures ParentsLeading(Split(r))
    ensures isAbsolute ==> NoParents(Split(r))
  {
    JoinSegmentsEmpty(stack);
    SplitNormalized(stack, !isAbsolute, trailingSeparator);
    if isAbsolute {
      SplitLeadingSeparator(withTrail);
    }
  }

  /** What a normalized path looks like: it is absolute exactly when the input
      was; its ".." segments all come first; an absolute one has none. */
  lemma NormalizeShape(p: string)
    ensures IsAbsolute(Normalize(p)) <==> IsAbsolute(p)
    ensures ParentsLeading(Split(Normalize(p)))
    ensures IsAbsolute(p) ==> NoParents(Split(Normalize(p)))
  {
    SplitNoSeparator(".");
    if p != "" {
      var stack := Resolve([], Split(p), !IsAbsolute(p));
      var trailingSeparator := p[|p| - 1] == '/';
      ResolveValid([], Split(p), !IsAbsolute(p));
      JoinSegmentsEmpty(stack);
      if stack == [] {
        SplitTrailingSeparator(".");
        SplitLeadingSeparator("");
      } else {
        var body := JoinSegments(stack);
        var withTrail := if trailingSeparator then body + "/" else body;
        ShapeOfNames(stack, IsAbsolute(p), trailingSeparator, withTrail, Normalize(p));
      }
    }
  }

  /** A ".." directly under "/" has nothing to climb to and is dropped. */
  lemma NormalizeDropsParentOfRoot(q: string)
    ensures Normalize("/../" + q) == Normalize("/" + q)
  {
    var s, t := "/../" + q, "/" + q;
    var tail := Split(q);
    assert Split(s) == ["", ".."] + tail by {
      assert s == "/" + (".." + "/" + q);
      SplitLeadingSeparator(".." + "/" + q);
      SplitConcat("..", q);
      SplitNoSeparator("..");
      assert [""] + ([".."] + tail) == ["", ".."] + tail;
    }
    assert Split(t) == [""] + tail by {
      SplitLeadingSeparator(q);
    }
    var stack := Resolve([], tail, false);
    assert Resolve([], Split(s), false) == stack by {
      ResolveAppend([], ["", ".."], tail, false);
      assert Resolve([], ["", ".."], false) == [];
    }
    assert Resolve([], Split(t), false) == stack by {
      ResolveAppend([], [""], tail, false);
      assert Resolve([], [""], false) == [];
    }
    assert s[|s| - 1] == t[|t| - 1];
    NormalizeAbsolute(s, stack);
    NormalizeAbsolute(t, stack);
  }

  /** Resolving segments that already form a valid stack changes nothing. */
  lemma {:induction false} ResolveKeepsValid(acc: seq<string>, segs: seq<string>, allowAboveRoot: bool)
    requires ValidStack(acc + segs, allowAboveRoot)
    ensures Resolve(acc, segs, allowAboveRoot) == acc + segs
    decreases |segs|
  {
    if segs != [] {
      var all := acc + segs;
      var seg := segs[0];
      assert seg == all[|acc|] && IsName(seg);
      if seg == ".." {
        assert allowAboveRoot by {
          assert all[|acc|] == "..";
        }
        if |acc| > 0 {
          assert acc[|acc| - 1] == ".." by {
            assert acc[|acc| - 1] == all[|acc| - 1];
          }
        }
      }
      assert Step(acc, seg, allowAboveRoot) == acc + [seg];
      assert all == (acc + [seg]) + segs[1..];
      ResolveKeepsValid(acc + [seg], segs[1..], allowAboveRoot);
    }
  }

  /** A joined list of names ends with the last name's last character. */
  lemma {:induction false} JoinSegmentsLast(segs: seq<string>)
    requires |segs| >= 1 && HasNames(segs)
    ensures var j := JoinSegments(segs); j != "" && j[|j| - 1] != '/'
    decreases |segs|
  {
    if |segs| > 1 {
      var tail := segs[1..];
      assert HasNames(tail) by {
        forall i | 0 <= i < |tail| ensures IsName(tail[i]) {
          assert tail[i] == segs[i + 1];
        }
      }
      JoinSegmentsLast(tail);
    } else {
      assert IsName(segs[0]);
    }
  }

  /** The segments of a normalized path resolve to the names it was built from. */
  lemma ResolveNormalizedSegments(stack: seq<string>, isAbsolute: bool, trailingSeparator: bool, segs: seq<string>)
    requires ValidStack(stack, !isAbsolute)
    requires segs == (if isAbsolute then [""] else []) + (if trailingSeparator then stack + [""] else stack)
    ensures Resolve([], segs, !isAbsolute) == stack
  {
    var body := if trailingSeparator then stack + [""] else stack;
    assert Resolve([], body, !isAbsolute) == stack by {
      ResolveKeepsValid([], stack, !isAbsolute);
      assert [] + stack == stack;
      if trailingSeparator {
        ResolveAppend([], stack, [""], !isAbsolute);
      }
    }
    if isAbsolute {
      assert segs[0] == "" && segs[1..] == body;
    } else {
      assert segs == body;
    }
  }

  /** A path built from a valid stack, with or without a leading and a
      trailing separator, has those separators and resolves to that stack. */
  lemma NormalizedNamesForm(stack: seq<string>, isAbsolute: bool, trailingSeparator: bool, withTrail: string, r: string)
    requires ValidStack(stack, !isAbsolute) && stack != []
    requires withTrail == if trailingSeparator then JoinSegments(stack) + "/" else JoinSegments(stack)
    requires r == if isAbsolute then "/" + withTrail else withTrail
    ensures r != "" && (IsAbsolute(r) <==> isAbsolute) && (r[|r| - 1] == '/' <==> trailingSeparator)
    ensures Resolve([], Split(r), !isAbsolute) == stack
  {
    ShapeOfNames(stack, isAbsolute, trailingSeparator, withTrail, r);
    SplitNormalized(stack, !isAbsolute, trailingSeparator);
    JoinSegmentsLast(stack);
    if isAbsolute {
      SplitLeadingSeparator(withTrail);
    }
    ResolveNormalizedSegments(stack, isAbsolute, trailingSeparator, Split(r));
  }

  lemma NormalizeNamesIdempotent(p: string, stack: seq<string>)
    requires p != "" && stack == Resolve([], Split(p), !IsAbsolute(p)) && stack != []
    ensures Normalize(Normalize(p)) == Normalize(p)
  {
    var isAbsolute := IsAbsolute(p);
    var trailingSeparator := p[|p| - 1] == '/';
    NormalizeCases(p, stack);
    var body := JoinSegments(stack);
    var withTrail := if trailingSeparator then body + "/" else body;
    var r := if isAbsolute then "/" + withTrail else withTrail;
    assert Normalize(p) == r;
    NormalizedNamesForm(stack, isAbsolute, trailingSeparator, withTrail, r);
    NormalizeCases(r, stack);
  }

  /** The three paths without names are their own normal forms. */
  lemma NormalizeWithoutNames()
    ensures Normalize("/") == "/"
    ensures Normalize("./") == "./"
    ensures Normalize(".") == "."
  {
    SplitNoSeparator(".");
    assert Split("/") == ["", ""] by {
      SplitLeadingSeparator("");
      assert "/" == "/" + "";
    }
    assert Split("./") == [".", ""] by {
      SplitTrailingSeparator(".");
    }
    assert Resolve([], ["", ""], false) == [];
    assert Resolve([], [".", ""], true) == [];
    assert Resolve([], ["."], true) == [];
  }

  /** Normalizing twice is normalizing once. */
  lemma NormalizeIdempotent(p: string)
    ensures Normalize(Normalize(p)) == Normalize(p)
  {
    NormalizeWithoutNames();
    if p != "" {
      var stack := Resolve([], Split(p), !IsAbsolute(p));
      NormalizeCases(p, stack);
      if stack != [] {
        NormalizeNamesIdempotent(p, stack);
      }
    }
  }

  // ---------------------------------------------------------------------
  // join

  /** `path.posix.join(a, b)`: the non-empty arguments joined with '/', then
      normalized; "." when both are empty. */
  function Join(a: string, b: string): (r: string)
    ensures r != ""
  {
    if a == "" && b == "" then "."
    else if a == "" then Normalize(b)
    else if b == "" then Normalize(a)
    else Normalize(a + "/" + b)
  }

  // ---------------------------------------------------------------------
  // extname

  /** `p` without the '/' characters at its end. */
  function TrimTrailingSeparators(p: string): (r: string)
    ensures r <= p
    ensures r == "" || r[|r| - 1] != '/'
    ensures forall i :: |r| <= i < |p| ==> p[i] == '/'
    decreases |p|
  {
    if p != "" && p[|p| - 1] == '/' then TrimTrailingSeparators(p[..|p| - 1]) else p
  }

  /** The text after the last '/' of `p` (all of `p` when it has none). */
  function LastSegment(p: string): (r: string)
    ensures '/' !in r
    ensures |r| <= |p| && p[|p| - |r|..] == r
    ensures |r| < |p| ==> p[|p| - |r| - 1] == '/'
    decreases |p|
  {
    if p == "" || p[|p| - 1] == '/' then ""
    else LastSegment(p[..|p| - 1]) + [p[|p| - 1]]
  }

  /** The index of the last '.' of `s`, or -1. */
  function LastDot(s: string): (k: int)
    ensures -1 <= k < |s|
    ensures k >= 0 ==> s[k] == '.'
    ensures forall i :: k < i < |s| ==> s[i] != '.'
    decreases |s|
  {
    if s == "" then -1
    else if s[|s| - 1] == '.' then |s| - 1
    else LastDot(s[..|s| - 1])
  }

  /** The extension of one path segment: from its last '.' on, unless that dot
      is the segment's first character or the segment is "..". */
  function SegmentExtension(name: string): (r: string)
    ensures r == "" || (r[0] == '.' && '.' !in r[1..] && |r| < |name| && name[|name| - |r|..] == r)
  {
    var k := LastDot(name);
    if k <= 0 || name == ".." then "" else name[k..]
  }

  /** `path.posix.extname(p)`: the extension of the last segment, trailing
      separators ignored. */
  function ExtName(p: string): (r: string)
    ensures r == "" || (r[0] == '.' && '.' !in r[1..] && '/' !in r)
    ensures r == "" || (|r| < |TrimTrailingSeparators(p)| && EndsWith(TrimTrailingSeparators(p), r))
  {
    var t := TrimTrailingSeparators(p);
    var name := LastSegment(t);
    var r := SegmentExtension(name);
    assert EndsWith(t, name) && EndsWith(name, r);
    SuffixOfSuffix(t, name, r);
    r
  }

  /** `s.endsWith(suffix)`. */
  predicate EndsWith(s: string, suffix: string) {
    |suffix| <= |s| && s[|s| - |suffix|..] == suffix
  }

  /** A suffix of a suffix of `t` is a suffix of `t`. */
  lemma SuffixOfSuffix(t: string, name: string, r: string)
    requires EndsWith(t, name) && EndsWith(name, r)
    ensures EndsWith(t, r)
  {
  }

  /** A last segment without a '.' has no extension. */
  lemma ExtNameOfDotlessName(p: string)
    requires '.' !in LastSegment(TrimTrailingSeparators(p))
    ensures ExtName(p) == ""
  {
    var name := LastSegment(TrimTrailingSeparators(p));
    assert LastDot(name) == -1;
  }

  lemma {:induction false} LastSegmentAfterSeparator(a: string, b: string)
    requires '/' !in b
    ensures LastSegment(a + "/" + b) == b
    decreases |b|
  {
    var s := a + "/" + b;
    if b == "" {
      assert s[|s| - 1] == '/';
    } else {
      assert s[..|s| - 1] == a + "/" + b[..|b| - 1];
      assert '/' !in b[..|b| - 1];
      LastSegmentAfterSeparator(a, b[..|b| - 1]);
      assert b == b[..|b| - 1] + [b[|b| - 1]];
    }
  }

  lemma TrimWithoutTrailingSeparator(p: string)
    requires p != "" && p[|p| - 1] != '/'
    ensures TrimTrailingSeparators(p) == p
  {
  }

  lemma {:induction false} LastDotBeforeDotless(a: string, e: string)
    requires '.' !in e
    ensures LastDot(a + "." + e) == |a|
    decreases |e|
  {
    var s := a + "." + e;
    if e == "" {
      assert s[|s| - 1] == '.';
      assert s[..|s| - 1] == a;
    } else {
      assert s[|s| - 1] == e[|e| - 1];
      assert s[..|s| - 1] == a + "." + e[..|e| - 1];
      LastDotBeforeDotless(a, e[..|e| - 1]);
    }
  }

  lemma SegmentExtensionOfName(stem: string, e: string)
    requires stem != "" && '.' !in e
    requires !(stem == "." && e == "")
    ensures SegmentExtension(stem + "." + e) == "." + e
  {
    var name := stem + "." + e;
    LastDotBeforeDotless(stem, e);
    assert name != ".." by {
      if |name| == 2 {
        assert stem == [name[0]];
      }
    }
    assert name[|stem|..] == "." + e;
  }

  /** A file name `stem.e` under any directory has extension `.e`, unless the
      name is "..". */
  lemma ExtNameOfFile(dir: string, stem: string, e: string)
    requires stem != "" && '/' !in stem
    requires '/' !in e && '.' !in e
    requires !(stem == "." && e == "")
    ensures ExtName(dir + "/" + stem + "." + e) == "." + e
  {
    var name := stem + "." + e;
    assert '/' !in name;
    assert dir + "/" + stem + "." + e == dir + "/" + name;
    TrimWithoutTrailingSeparator(dir + "/" + name);
    LastSegmentAfterSeparator(dir, name);
    SegmentExtensionOfName(stem, e);
  }

  /** A name that starts with its only dot (a hidden file) has no extension. */
  lemma ExtNameOfHiddenFile(dir: string, e: string)
    requires '/' !in e && '.' !in e
    ensures ExtName(dir + "/." + e) == ""
  {
    var name := "." + e;
    var p := dir + "/" + name;
    assert p == dir + "/." + e;
    assert name[|name| - 1] != '/';
    TrimWithoutTrailingSeparator(p);
    LastSegmentAfterSeparator(dir, name);
    LastDotBeforeDotless("", e);
    assert "" + "." + e == name;
  }

  /** Separators at the end of a path do not change its extension. */
  lemma ExtNameIgnoresTrailingSeparator(p: string)
    ensures ExtName(p + "/") == ExtName(p)
  {
    var q := p + "/";
    assert q[..|q| - 1] == p;
    assert TrimTrailingSeparators(q) == TrimTrailingSeparators(p);
  }
}
