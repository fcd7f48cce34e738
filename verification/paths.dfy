/** POSIX paths in the shape Node's `path` module computes them.

    An already-resolved path is a `Path`: an absolute flag and its normalised
    segments (no empty segment, no ".", and ".." only as a leading run of a
    relative path). The string-valued operations `JoinStr`, `DirnameStr`,
    `RelativeStr` and `ResolveStr` follow Node's posix algorithms: the
    normalisation is the same stack fold as Node's `normalizeString`. */
module Paths {
  import opened Strings
  import opened Seqs

  datatype Path = Path(absolute: bool, segs: seq<string>)

  /** A segment that survives normalisation unchanged. */
  predicate IsName(s: string) {
    s != "" && s != "." && s != ".." && '/' !in s
  }

  ghost predicate AllNames(segs: seq<string>) {
    forall i :: 0 <= i < |segs| ==> IsName(segs[i])
  }

  ghost predicate NoSlash(segs: seq<string>) {
    forall i :: 0 <= i < |segs| ==> '/' !in segs[i]
  }

  /** A resolved absolute path: what `path.resolve` returns. */
  ghost predicate NormalAbsolute(p: Path) {
    p.absolute && AllNames(p.segs)
  }

  /** One step of Node's `normalizeString`: skip "" and ".", let ".." pop a
      name (or, above the root of a relative path, stay as ".."). */
  function Step(stack: seq<string>, seg: string, allowAboveRoot: bool): seq<string> {
    if seg == "" || seg == "." then stack
    else if seg == ".." then
      if |stack| > 0 && stack[|stack| - 1] != ".." then stack[..|stack| - 1]
      else if allowAboveRoot then stack + [".."]
      else stack
    else stack + [seg]
  }

  /** Left fold of `Step` over `segs`, starting from `stack`. */
  function NormFrom(stack: seq<string>, segs: seq<string>, allowAboveRoot: bool): (r: seq<string>)
    ensures !allowAboveRoot && AllNames(stack) && NoSlash(segs) ==> AllNames(r)
    decreases |segs|
  {
    if segs == [] then stack
    else NormFrom(Step(stack, segs[0], allowAboveRoot), segs[1..], allowAboveRoot)
  }

  function Norm(segs: seq<string>, allowAboveRoot: bool): seq<string> {
    NormFrom([], segs, allowAboveRoot)
  }

  /** `segs.join("/")`, with the empty path rendered as "". */
  function JoinSegs(segs: seq<string>): string {
    if segs == [] then "" else Join(segs, '/')
  }

  /** The path `s` appended below the directory `dir` and normalised
      (what both `path.resolve(dir, s)` for a relative `s` and
      `path.join(dir, s)` compute, up to a trailing separator). */
  function Append(dir: Path, s: string): (r: Path)
    requires NormalAbsolute(dir)
    ensures NormalAbsolute(r)
  {
    Path(true, Norm(dir.segs + Split(s, '/'), false))
  }

  /** `path.resolve(base, s)` where `base` is already resolved. */
  function ResolveStr(base: Path, s: string): (r: Path)
    requires NormalAbsolute(base)
    ensures NormalAbsolute(r)
  {
    if StartsWith(s, "/") then Path(true, Norm(Split(s, '/'), false))
    else Append(base, s)
  }

  /** Node's posix `path.normalize` of a non-empty string. */
  function NormalizeStr(s: string): string
    requires s != ""
  {
    var isAbsolute := s[0] == '/';
    var trailingSeparator := s[|s| - 1] == '/';
    var body := JoinSegs(Norm(Split(s, '/'), !isAbsolute));
    var body1 := if body == "" && !isAbsolute then "." else body;
    var body2 := if body1 != "" && trailingSeparator then body1 + "/" else body1;
    if isAbsolute then "/" + body2 else body2
  }

  /** Node's posix `path.join(a, b)`: empty arguments are ignored, the rest
      are joined with "/" and normalised; nothing left gives ".". */
  function JoinStr(a: string, b: string): string {
    var parts := (if a == "" then [] else [a]) + (if b == "" then [] else [b]);
    if parts == [] then "." else NormalizeStr(Join(parts, '/'))
  }

  /** Length of the longest common prefix of two segment lists. */
  function CommonPrefixLen(a: seq<string>, b: seq<string>): (k: nat)
    ensures k <= |a| && k <= |b|
    ensures a[..k] == b[..k]
    ensures k < |a| && k < |b| ==> a[k] != b[k]
  {
    if a == [] || b == [] || a[0] != b[0] then 0
    else
      var k := CommonPrefixLen(a[1..], b[1..]);
      assert a[..k + 1] == [a[0]] + a[1..][..k];
      assert b[..k + 1] == [b[0]] + b[1..][..k];
      k + 1
  }

  function Ups(n: nat): (r: seq<string>)
    ensures |r| == n
    ensures forall i :: 0 <= i < n ==> r[i] == ".."
  {
    if n == 0 then [] else [".."] + Ups(n - 1)
  }

  /** The segments of `path.relative(from, to)` for resolved paths: one ".."
      per segment of `from` below the common prefix, then the rest of `to`. */
  function RelSegs(from: seq<string>, to: seq<string>): seq<string> {
    var k := CommonPrefixLen(from, to);
    Ups(|from| - k) + to[k..]
  }

  /** `path.relative(context, p)` for a resolved `context` and `p`. */
  function RelStr(context: Path, p: Path): string {
    JoinSegs(RelSegs(context.segs, p.segs))
  }

  /** `path.relative(from, to)` for two strings, both resolved against the
      working directory `cwd` first. */
  function RelativeStr(cwd: Path, from: string, to: string): string
    requires NormalAbsolute(cwd)
  {
    RelStr(ResolveStr(cwd, from), ResolveStr(cwd, to))
  }

  /** The string form of a resolved absolute path. */
  function AbsStr(p: Path): string {
    "/" + JoinSegs(p.segs)
  }

  /** `path.dirname` of a resolved path: its parent ("/" stays "/"). */
  function Dirname(p: Path): (r: Path)
    ensures NormalAbsolute(p) ==> NormalAbsolute(r)
  {
    if p.segs == [] then p else Path(p.absolute, p.segs[..|p.segs| - 1])
  }

  /** Scan of Node's posix `dirname`: from index `i` down to 1, skip trailing
      separators, then stop at the first separator after a non-separator. */
  function DirEnd(s: string, i: int, matchedSlash: bool): (end: int)
    requires i < |s|
    ensures end == -1 || 1 <= end <= i
    decreases i
  {
    if i < 1 then -1
    else if s[i] == '/' then
      if !matchedSlash then i else DirEnd(s, i - 1, matchedSlash)
    else DirEnd(s, i - 1, false)
  }

  /** Node's posix `path.dirname` on a string. */
  function DirnameStr(s: string): string {
    if s == [] then "."
    else
      var hasRoot := s[0] == '/';
      var end := DirEnd(s, |s| - 1, true);
      if end == -1 then (if hasRoot then "/" else ".")
      else if hasRoot && end == 1 then "//"
      else s[..end]
  }

  /** Index of the last "." in a file name, or -1. */
  function LastDot(name: string): (k: int)
    ensures -1 <= k < |name|
    ensures k >= 0 ==> name[k] == '.'
    ensures forall j :: k < j < |name| ==> name[j] != '.'
  {
    if name == [] then -1
    else if name[|name| - 1] == '.' then |name| - 1
    else LastDot(name[..|name| - 1])
  }

  /** The file name without the extension `path.extname` reports: a dot at
      position 0 (a dot-file) starts no extension, and ".." has none. */
  function StripExt(name: string): string {
    var k := LastDot(name);
    if k <= 0 || name == ".." then name else name[..k]
  }

  /** `path.extname` of a file name: what `StripExt` removes. */
  function Extname(name: string): (ext: string)
    ensures StripExt(name) + ext == name
    ensures '/' in ext ==> '/' in name
    ensures ext != "" ==> ext[0] == '.' && '.' !in ext[1..] && |ext| < |name| && name != ".."
    ensures ext == "" ==> name == ".." || forall j :: 0 < j < |name| ==> name[j] != '.'
  {
    var k := LastDot(name);
    if k <= 0 || name == ".." then "" else name[k..]
  }

  /** `replaceExt(p, ext)` on a resolved absolute path. */
  function ReplaceExt(p: Path, ext: string): Path {
    if p.segs == [] then Path(p.absolute, [ext])
    else Path(p.absolute, p.segs[..|p.segs| - 1] + [StripExt(p.segs[|p.segs| - 1]) + ext])
  }

  /** The path of the string `${p}.json` for a resolved absolute path `p`. */
  function ManifestPathOf(p: Path): (r: Path)
    ensures r.absolute == p.absolute && |r.segs| >= 1
  {
    if p.segs == [] then Path(p.absolute, [".json"])
    else Path(p.absolute, p.segs[..|p.segs| - 1] + [p.segs[|p.segs| - 1] + ".json"])
  }

  /** The component whose manifest sits at `m`: inverse of `ManifestPathOf`. */
  function ComponentOf(m: Path): Path {
    if m.segs == [] then m
    else
      var last := m.segs[|m.segs| - 1];
      if |last| >= 5 && last[|last| - 5..] == ".json" then
        var stem := last[..|last| - 5];
        if stem == "" then Path(m.absolute, m.segs[..|m.segs| - 1])
        else Path(m.absolute, m.segs[..|m.segs| - 1] + [stem])
      else m
  }

  lemma ComponentOfManifestPath(p: Path)
    requires NormalAbsolute(p)
    ensures ComponentOf(ManifestPathOf(p)) == p
  {
    if p.segs != [] {
      var last := p.segs[|p.segs| - 1];
      assert (last + ".json")[..|last|] == last;
      assert (last + ".json")[|last|..] == ".json";
      assert p.segs[..|p.segs| - 1] + [last] == p.segs;
    }
  }

  // ---------------------------------------------------------------------
  // Normalisation lemmas

  lemma {:induction false} NormFromAppend(stack: seq<string>, a: seq<string>, b: seq<string>, allow: bool)
    ensures NormFrom(stack, a + b, allow) == NormFrom(NormFrom(stack, a, allow), b, allow)
    decreases |a|
  {
    if a == [] {
      assert a + b == b;
    } else {
      assert (a + b)[0] == a[0];
      assert (a + b)[1..] == a[1..] + b;
      NormFromAppend(Step(stack, a[0], allow), a[1..], b, allow);
    }
  }

  /** Plain names are pushed unchanged. */
  lemma {:induction false} NormFromNames(stack: seq<string>, names: seq<string>, allow: bool)
    requires AllNames(names)
    ensures NormFrom(stack, names, allow) == stack + names
    decreases |names|
  {
    if names != [] {
      NormFromNames(stack + [names[0]], names[1..], allow);
      assert stack + [names[0]] + names[1..] == stack + names;
    }
  }

  /** A run of ".." pops that many names. */
  lemma {:induction false} NormFromUps(stack: seq<string>, n: nat, allow: bool)
    requires AllNames(stack) && n <= |stack|
    ensures NormFrom(stack, Ups(n), allow) == stack[..|stack| - n]
    decreases n
  {
    if n > 0 {
      var popped := stack[..|stack| - 1];
      assert Step(stack, "..", allow) == popped;
      assert Ups(n)[1..] == Ups(n - 1);
      NormFromUps(popped, n - 1, allow);
      assert popped[..|popped| - (n - 1)] == stack[..|stack| - n];
    }
  }

  /** Without ".." segments normalisation only ever pushes: the starting
      stack survives as a prefix. */
  lemma {:induction false} NormFromNoUp(stack: seq<string>, segs: seq<string>, allow: bool)
    requires forall i :: 0 <= i < |segs| ==> segs[i] != ".."
    ensures IsPrefix(stack, NormFrom(stack, segs, allow))
    decreases |segs|
  {
    if segs != [] {
      var next := Step(stack, segs[0], allow);
      assert IsPrefix(stack, next) by { assert next[..|stack|] == stack; }
      NormFromNoUp(next, segs[1..], allow);
      PrefixTransitive(stack, next, NormFrom(next, segs[1..], allow));
    }
  }

  lemma NormNames(names: seq<string>, allow: bool)
    requires AllNames(names)
    ensures Norm(names, allow) == names
  {
    NormFromNames([], names, allow);
  }

  /** A relative path string never starts with the separator. */
  lemma JoinSegsNotRooted(segs: seq<string>)
    requires forall i :: 0 <= i < |segs| ==> segs[i] != "" && '/' !in segs[i]
    ensures !StartsWith(JoinSegs(segs), "/")
  {
    if segs != [] {
      var s := JoinSegs(segs);
      if |segs| == 1 {
        assert s == segs[0];
      } else {
        assert s == segs[0] + ['/'] + Join(segs[1..], '/');
      }
      assert s[0] == segs[0][0];
      assert segs[0][0] != '/';
    }
  }

  /** Every segment of a relative path is non-empty and slash-free. */
  lemma RelSegsSegments(from: seq<string>, to: seq<string>)
    requires AllNames(to)
    ensures forall i :: 0 <= i < |RelSegs(from, to)| ==>
      RelSegs(from, to)[i] != "" && '/' !in RelSegs(from, to)[i]
  {
    var k := CommonPrefixLen(from, to);
    var up := |from| - k;
    var rel := RelSegs(from, to);
    forall i | 0 <= i < |rel|
      ensures rel[i] != "" && '/' !in rel[i]
    {
      if i >= up {
        assert rel[i] == to[k..][i - up];
      }
    }
  }

  /** A normal stack followed by `rest` normalises as `rest` applied to it. */
  lemma NormAfterNames(names: seq<string>, rest: seq<string>)
    requires AllNames(names)
    ensures Norm(names + rest, false) == NormFrom(names, rest, false)
  {
    NormFromAppend([], names, rest, false);
    NormFromNames([], names, false);
    assert [] + names == names;
  }

  /** Climbing `up` levels from `from` and descending into `tail`. */
  lemma UpsThenNames(from: seq<string>, up: nat, tail: seq<string>)
    requires AllNames(from) && AllNames(tail) && up <= |from|
    ensures NormFrom(from, Ups(up) + tail, false) == from[..|from| - up] + tail
  {
    NormFromAppend(from, Ups(up), tail, false);
    NormFromUps(from, up, false);
    var kept := from[..|from| - up];
    assert AllNames(kept);
    NormFromNames(kept, tail, false);
  }

  /** Normalising the context followed by the relative segments lands on `to`. */
  lemma NormContextThenRel(from: seq<string>, to: seq<string>)
    requires AllNames(from) && AllNames(to)
    ensures Norm(from + RelSegs(from, to), false) == to
  {
    var k := CommonPrefixLen(from, to);
    var up := |from| - k;
    var tail := to[k..];
    assert AllNames(tail);
    assert RelSegs(from, to) == Ups(up) + tail;
    NormAfterNames(from, Ups(up) + tail);
    UpsThenNames(from, up, tail);
    assert from[..|from| - up] == from[..k] == to[..k];
    assert to[..k] + tail == to;
  }

  /** Resolving the context-relative form of a path against the context gives
      the path back: `path.resolve(ctx, path.relative(ctx, p)) == p`. */
  lemma {:induction false} ResolveRelStr(context: Path, p: Path)
    requires NormalAbsolute(context) && NormalAbsolute(p)
    ensures ResolveStr(context, RelStr(context, p)) == p
  {
    var rel := RelSegs(context.segs, p.segs);
    RelSegsSegments(context.segs, p.segs);
    JoinSegsNotRooted(rel);
    NormContextThenRel(context.segs, p.segs);
    var s := RelStr(context, p);
    if rel == [] {
      assert s == "";
      assert Split(s, '/') == [""];
      NormFromAppend([], context.segs, [""], false);
      assert context.segs + rel == context.segs;
    } else {
      SplitJoinRoundTrip(rel, '/');
    }
  }

  /** Different resolved paths have different context-relative strings. */
  lemma RelStrInjective(context: Path, p: Path, q: Path)
    requires NormalAbsolute(context) && NormalAbsolute(p) && NormalAbsolute(q)
    requires RelStr(context, p) == RelStr(context, q)
    ensures p == q
  {
    ResolveRelStr(context, p);
    ResolveRelStr(context, q);
  }

  // ---------------------------------------------------------------------
  // dirname on strings agrees with the segment view

  /** Scanning down through non-separators stops at the separator below them. */
  lemma {:induction false} DirEndFindsSlash(s: string, i: int, k: int)
    requires 1 <= k <= i < |s| && s[k] == '/'
    requires forall j :: k < j <= i ==> s[j] != '/'
    ensures DirEnd(s, i, false) == k
    decreases i
  {
    if i > k {
      DirEndFindsSlash(s, i - 1, k);
    }
  }

  /** Without a separator after index 0 the scan finds nothing. */
  lemma {:induction false} DirEndNoSlash(s: string, i: int)
    requires i < |s|
    requires forall j :: 1 <= j <= i ==> s[j] != '/'
    ensures DirEnd(s, i, false) == -1
    decreases i
  {
    if i >= 1 {
      DirEndNoSlash(s, i - 1);
    }
  }

  /** The last segment of a joined path is followed by no separator. */
  lemma LastSegmentSlashFree(init: string, last: string, off: int)
    requires '/' !in last && last != ""
    requires off == |init|
    ensures forall j :: off < j < |init + "/" + last| ==> (init + "/" + last)[j] != '/'
    ensures (init + "/" + last)[off] == '/'
    ensures (init + "/" + last)[..off] == init
  {
    var s := init + "/" + last;
    forall j | off < j < |s| ensures s[j] != '/' {
      assert s[j] == last[j - off - 1];
    }
  }

  lemma JoinLength(segs: seq<string>)
    requires |segs| >= 1
    ensures |Join(segs, '/')| >= |segs[0]|
  {
    if |segs| > 1 {
      assert Join(segs, '/') == segs[0] + ['/'] + Join(segs[1..], '/');
    }
  }

  /** `path.dirname` of a relative path of names drops its last name;
      a single name has dirname ".". */
  lemma DirnameStrRelative(segs: seq<string>)
    requires AllNames(segs) && |segs| >= 1
    ensures DirnameStr(JoinSegs(segs)) == if |segs| == 1 then "." else JoinSegs(segs[..|segs| - 1])
  {
    var s := JoinSegs(segs);
    var n := |segs|;
    if n == 1 {
      assert s == segs[0];
      assert s[|s| - 1] != '/';
      DirEndNoSlash(s, |s| - 2);
      assert s[0] != '/';
    } else {
      var init := segs[..n - 1];
      assert segs == init + [segs[n - 1]];
      JoinSnoc(init, segs[n - 1], '/');
      var js := Join(init, '/');
      assert s == js + "/" + segs[n - 1];
      JoinSegsNotRooted(init);
      assert js != "" by { JoinLength(init); }
      LastSegmentSlashFree(js, segs[n - 1], |js|);
      assert s[|s| - 1] != '/';
      DirEndFindsSlash(s, |s| - 2, |js|);
      assert DirEnd(s, |s| - 1, true) == |js|;
      assert s[0] != '/';
      assert JoinSegs(init) == js;
    }
  }

  /** `path.dirname` of a resolved absolute path is the string of its parent. */
  lemma DirnameStrAbsolute(p: Path)
    requires NormalAbsolute(p)
    ensures DirnameStr(AbsStr(p)) == AbsStr(Dirname(p))
  {
    var s := AbsStr(p);
    var n := |p.segs|;
    if n == 1 {
      assert s == "/" + p.segs[0];
      assert s[|s| - 1] != '/';
      forall j | 1 <= j <= |s| - 2 ensures s[j] != '/' {
        assert s[j] == p.segs[0][j - 1];
      }
      DirEndNoSlash(s, |s| - 2);
    } else if n > 1 {
      var init := p.segs[..n - 1];
      assert p.segs == init + [p.segs[n - 1]];
      JoinSnoc(init, p.segs[n - 1], '/');
      var js := "/" + Join(init, '/');
      assert s == js + "/" + p.segs[n - 1];
      LastSegmentSlashFree(js, p.segs[n - 1], |js|);
      assert s[|s| - 1] != '/';
      DirEndFindsSlash(s, |s| - 2, |js|);
      assert DirEnd(s, |s| - 1, true) == |js|;
      assert |js| >= 2 by { JoinLength(init); }
      assert Dirname(p) == Path(true, init);
    }
  }
}
