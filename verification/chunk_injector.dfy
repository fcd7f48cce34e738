/** The chunk side of the mature mini-program plugin
    (`webpackLibs/plugins/MinaWebpackPlugin.js`): every entry chunk gets a
    `require` statement for each other chunk of its chunk groups prepended to
    its source, so that the mini-program runtime loads the shared chunks
    first; and the synthetic chunk that only carries companion assets is
    dropped before assets are emitted.

    Chunks are records; object identity (`chunk === curChunk`) is the `id`
    field. Paths are POSIX; the platform separator of `ensurePosix` is a
    parameter. */
module ChunkInjector {
  import opened Wrappers
  import opened Seqs
  import opened Strings
  import opened Paths

  // ---------------------------------------------------------------------
  // ensurePosix and requiredPath

  /** `ensurePosix(s)`: on a platform whose separator `sep` is not "/",
      `s.split(sep).join("/")`; on a POSIX platform `s` itself. The result
      is `s` with every `sep` turned into "/". */
  function EnsurePosix(s: string, sep: char): (r: string)
    ensures |r| == |s|
    ensures forall i :: 0 <= i < |s| ==> r[i] == if s[i] == sep then '/' else s[i]
  {
    if sep != '/' then
      JoinSplitIsReplace(s, sep, '/');
      Join(Split(s, sep), '/')
    else s
  }

  /** On a POSIX platform `ensurePosix` changes nothing; elsewhere no
      platform separator is left. */
  lemma EnsurePosixNormalises(s: string, sep: char)
    ensures sep == '/' ==> EnsurePosix(s, sep) == s
    ensures sep != '/' ==> sep !in EnsurePosix(s, sep)
  {
    var r := EnsurePosix(s, sep);
    if sep != '/' {
      forall i | 0 <= i < |r| ensures r[i] != sep {
      }
    }
  }

  /** `path.isAbsolute` on POSIX. */
  predicate IsAbsolute(p: string) {
    StartsWith(p, "/")
  }

  /** `requiredPath(p)`: a request `require` resolves relative to the module:
      absolute paths are kept, any other path gets "./" in front (so
      "../x" becomes "./../x"). */
  function RequiredPath(p: string): (r: string)
    ensures IsAbsolute(p) <==> r == p
    ensures !IsAbsolute(p) ==> r == "./" + p && StartsWith(r, "./")
  {
    if IsAbsolute(p) then p else "./" + p
  }

  /** Distinct paths give distinct requests. */
  lemma RequiredPathInjective(a: string, b: string)
    requires RequiredPath(a) == RequiredPath(b)
    ensures a == b
  {
    RelativeRequestNotAbsolute(a);
    RelativeRequestNotAbsolute(b);
    if !IsAbsolute(a) && !IsAbsolute(b) {
      assert a == RequiredPath(a)[2..];
    }
  }

  lemma RelativeRequestNotAbsolute(p: string)
    ensures !IsAbsolute("./" + p)
  {
    assert ("./" + p)[0] == '.';
  }

  // ---------------------------------------------------------------------
  // Chunks

  /** What the render hook asks of a chunk. */
  datatype Chunk = Chunk(id: nat, name: string, onlyInitial: bool, hasRuntime: bool, hasEntryModule: bool)

  /** The chunk the runtime was extracted into. */
  predicate IsRuntimeChunk(c: Chunk) {
    c.onlyInitial && c.hasRuntime && !c.hasEntryModule
  }

  /** `isRuntimeExtracted(compilation)`: `chunks.some(...)`. */
  function IsRuntimeExtracted(chunks: seq<Chunk>): (r: bool)
    ensures r <==> exists i :: 0 <= i < |chunks| && IsRuntimeChunk(chunks[i])
  {
    if chunks == [] then false
    else if IsRuntimeChunk(chunks[0]) then true
    else
      var r := IsRuntimeExtracted(chunks[1..]);
      assert forall i :: 1 <= i < |chunks| ==> chunks[i] == chunks[1..][i - 1];
      r
  }

  // ---------------------------------------------------------------------
  // The dependency list of an entry chunk

  /** The filename recorded for member `c` of a group of `cur`:
      `ensurePosix(path.relative(path.dirname(cur.name), c.name))`, with
      `path.relative` resolving both against the working directory `cwd`. */
  function DepName(cwd: Path, sep: char, cur: Chunk, c: Chunk): string
    requires NormalAbsolute(cwd)
  {
    EnsurePosix(RelativeStr(cwd, DirnameStr(cur.name), c.name), sep)
  }

  /** What the loop body sees of a group member: whether it is the current
      chunk, and its filename. */
  datatype Member = Member(isCur: bool, filename: string)

  /** Every member of every group, labelled. */
  function LabelGroups(cwd: Path, sep: char, cur: Chunk, groups: seq<seq<Chunk>>): (lg: seq<seq<Member>>)
    requires NormalAbsolute(cwd)
    ensures |lg| == |groups|
    ensures forall k :: 0 <= k < |groups| ==> |lg[k]| == |groups[k]|
    ensures forall k, m :: 0 <= k < |groups| && 0 <= m < |groups[k]| ==>
      lg[k][m] == Member(groups[k][m].id == cur.id, DepName(cwd, sep, cur, groups[k][m]))
  {
    seq(|groups|, k requires 0 <= k < |groups| =>
      seq(|groups[k]|, m requires 0 <= m < |groups[k]| =>
        Member(groups[k][m].id == cur.id, DepName(cwd, sep, cur, groups[k][m]))))
  }

  /** The filenames of one group's members other than the current chunk, in
      member order. */
  function GroupCandidates(members: seq<Member>): (fs: seq<string>)
    ensures forall f :: f in fs <==>
      exists m :: 0 <= m < |members| && !members[m].isCur && members[m].filename == f
    decreases |members|
  {
    if members == [] then []
    else
      var init := members[..|members| - 1];
      var c := members[|members| - 1];
      var prior := GroupCandidates(init);
      assert forall m :: 0 <= m < |init| ==> init[m] == members[m];
      prior + (if c.isCur then [] else [c.filename])
  }

  /** The filenames the loop looks at, group by group, member by member,
      skipping the current chunk. */
  function Candidates(groups: seq<seq<Member>>): (fs: seq<string>)
    ensures forall f :: f in fs <==>
      exists k, m :: 0 <= k < |groups| && 0 <= m < |groups[k]| && !groups[k][m].isCur &&
        groups[k][m].filename == f
    decreases |groups|
  {
    if groups == [] then []
    else
      var init := groups[..|groups| - 1];
      var g := groups[|groups| - 1];
      var prior := Candidates(init);
      assert forall k :: 0 <= k < |init| ==> init[k] == groups[k];
      prior + GroupCandidates(g)
  }

  /** `f` is the filename of some member, other than `cur`, of some group. */
  ghost predicate IsMemberName(cwd: Path, sep: char, cur: Chunk, groups: seq<seq<Chunk>>, f: string)
    requires NormalAbsolute(cwd)
  {
    exists k, m :: 0 <= k < |groups| && 0 <= m < |groups[k]| && groups[k][m].id != cur.id &&
      f == DepName(cwd, sep, cur, groups[k][m])
  }

  /** The `dependencies` array of an entry chunk: every filename of another
      member of its groups, once, in order of first appearance. */
  function Dependencies(cwd: Path, sep: char, cur: Chunk, groups: seq<seq<Chunk>>): (deps: seq<string>)
    requires NormalAbsolute(cwd)
    ensures NoDups(deps)
    ensures forall f :: f in deps <==> IsMemberName(cwd, sep, cur, groups, f)
  {
    var lg := LabelGroups(cwd, sep, cur, groups);
    var deps := Dedup(Candidates(lg));
    assert forall f :: f in deps <==> IsMemberName(cwd, sep, cur, groups, f) by {
      forall f ensures f in deps <==> IsMemberName(cwd, sep, cur, groups, f) {
        if f in deps {
          var k, m :| 0 <= k < |lg| && 0 <= m < |lg[k]| && !lg[k][m].isCur && lg[k][m].filename == f;
          assert groups[k][m].id != cur.id && f == DepName(cwd, sep, cur, groups[k][m]);
        }
        if IsMemberName(cwd, sep, cur, groups, f) {
          var k, m :| 0 <= k < |groups| && 0 <= m < |groups[k]| && groups[k][m].id != cur.id &&
            f == DepName(cwd, sep, cur, groups[k][m]);
          assert !lg[k][m].isCur && lg[k][m].filename == f;
        }
      }
    }
    deps
  }

  /** The dependencies keep the order in which the loop first meets them. */
  lemma DependenciesInFirstSeenOrder(cwd: Path, sep: char, cur: Chunk, groups: seq<seq<Chunk>>)
    requires NormalAbsolute(cwd)
    ensures var cs := Candidates(LabelGroups(cwd, sep, cur, groups));
            var deps := Dependencies(cwd, sep, cur, groups);
            forall i, j :: 0 <= i < j < |deps| ==> IndexOf(cs, deps[i]) < IndexOf(cs, deps[j])
  {
    DedupKeepsFirstOccurrenceOrder(Candidates(LabelGroups(cwd, sep, cur, groups)));
  }

  /** One more member extends the candidates by its filename unless it is
      the current chunk. */
  lemma GroupCandidatesSnoc(done: seq<string>, members: seq<Member>, mi: nat)
    requires mi < |members|
    ensures done + GroupCandidates(members[..mi + 1]) ==
      done + GroupCandidates(members[..mi]) + (if members[mi].isCur then [] else [members[mi].filename])
  {
    assert members[..mi + 1][..mi] == members[..mi];
  }

  /** One more group extends the candidates by that group's candidates. */
  lemma CandidatesSnoc(groups: seq<seq<Member>>, gi: nat)
    requires gi < |groups|
    ensures Candidates(groups[..gi + 1]) == Candidates(groups[..gi]) + GroupCandidates(groups[gi])
  {
    assert groups[..gi + 1][..gi] == groups[..gi];
  }

  /** The loop step: the duplicate test on `deps` is the de-duplication of
      the candidates seen so far. */
  lemma PlanStep(seen: seq<string>, more: seq<string>, deps: seq<string>, f: string, skip: bool)
    requires deps == Dedup(seen)
    requires more == seen + (if skip then [] else [f])
    ensures Dedup(more) == if skip || f in deps then deps else deps + [f]
  {
    if skip {
      assert more == seen;
    } else {
      DedupSnoc(seen, f);
    }
  }

  /** The nested `forEach` loops of the render hook, computing the
      `dependencies` array with `indexOf` as the duplicate test. */
  method PlanDependencies(cwd: Path, sep: char, cur: Chunk, groups: seq<seq<Chunk>>) returns (deps: seq<string>)
    requires NormalAbsolute(cwd)
    ensures deps == Dependencies(cwd, sep, cur, groups)
  {
    ghost var lg := LabelGroups(cwd, sep, cur, groups);
    deps := [];
    var gi := 0;
    while gi < |groups|
      invariant 0 <= gi <= |groups|
      invariant deps == Dedup(Candidates(lg[..gi]))
    {
      var members := groups[gi];
      ghost var done := Candidates(lg[..gi]);
      ghost var lm := lg[gi];
      var mi := 0;
      assert lm[..0] == [];
      assert done + GroupCandidates(lm[..0]) == done;
      while mi < |members|
        invariant 0 <= mi <= |members|
        invariant deps == Dedup(done + GroupCandidates(lm[..mi]))
      {
        var chunk := members[mi];
        var filename := DepName(cwd, sep, cur, chunk);
        assert lm[mi] == Member(chunk.id == cur.id, filename);
        GroupCandidatesSnoc(done, lm, mi);
        ghost var seen := done + GroupCandidates(lm[..mi]);
        PlanStep(seen, done + GroupCandidates(lm[..mi + 1]), deps, filename, chunk.id == cur.id);
        if chunk.id != cur.id && filename !in deps {
          deps := deps + [filename];
        }
        mi := mi + 1;
      }
      assert lm[..mi] == lm;
      CandidatesSnoc(lg, gi);
      gi := gi + 1;
    }
    assert lg[..gi] == lg;
  }

  // ---------------------------------------------------------------------
  // The render hook

  /** The error `renderWithEntry` throws when no runtime chunk exists. */
  const RuntimeChunkMessage: string :=
    "Please reuse the runtime chunk to avoid duplicate loading of javascript files.\n" +
    "Simple solution: set `optimization.runtimeChunk` to `{ name: 'runtime.js' }` .\n" +
    "Detail of `optimization.runtimeChunk`: https://webpack.js.org/configuration/optimization/#optimization-runtimechunk ."

  const RequireOpen: string := "require('"
  const RequireClose: string := "');"

  /** `require('${requiredPath(file)}');` */
  function RequireStatement(file: string): string {
    RequireOpen + RequiredPath(file) + RequireClose
  }

  /** The statements for `files`, concatenated in order. */
  function RequireAll(files: seq<string>): string {
    if files == [] then "" else RequireStatement(files[0]) + RequireAll(files[1..])
  }

  /** The `renderWithEntry` tap: fails unless the runtime was extracted,
      passes a non-entry chunk's source through, and otherwise prefixes ";"
      and one `require` per dependency (the ";" even when there are none). */
  function RenderWithEntry(chunks: seq<Chunk>, cur: Chunk, groups: seq<seq<Chunk>>, source: string,
                           cwd: Path, sep: char): (r: Result<string, string>)
    requires NormalAbsolute(cwd)
    ensures r.Err? <==> forall i :: 0 <= i < |chunks| ==> !IsRuntimeChunk(chunks[i])
    ensures r.Err? ==> r.error == RuntimeChunkMessage
    ensures r.Ok? && !cur.hasEntryModule ==> r.value == source
    ensures r.Ok? && cur.hasEntryModule ==>
      |r.value| > |source| && r.value[0] == ';' && r.value[|r.value| - |source|..] == source
  {
    if !IsRuntimeExtracted(chunks) then Err(RuntimeChunkMessage)
    else if !cur.hasEntryModule then Ok(source)
    else
      var prefix := ";" + RequireAll(Dependencies(cwd, sep, cur, groups));
      assert (prefix + source)[|prefix|..] == source;
      Ok(prefix + source)
  }

  // ---------------------------------------------------------------------
  // Reading the injected prefix back

  /** Index of the first `ch` in `s`, or -1. */
  function FirstIndexOf(s: string, ch: char): (k: int)
    ensures -1 <= k < |s|
    ensures k == -1 <==> ch !in s
    ensures k >= 0 ==> s[k] == ch && ch !in s[..k]
  {
    if s == [] then -1
    else if s[0] == ch then 0
    else
      var k := FirstIndexOf(s[1..], ch);
      if k == -1 then -1
      else
        assert s[..k + 1] == [s[0]] + s[1..][..k];
        k + 1
  }

  /** The first `ch` of `x + y` is the first of `y` when `x` holds none. */
  lemma FirstIndexAfter(x: string, y: string, ch: char)
    requires ch !in x && |y| > 0 && y[0] == ch
    ensures FirstIndexOf(x + y, ch) == |x|
  {
    var s := x + y;
    var k := FirstIndexOf(s, ch);
    assert s[|x|] == ch;
    assert s[..|x|] == x;
  }

  /** Reads a run of `require('…');` statements back into the requested
      paths; `None` when `s` is not such a run. */
  function ParseRequires(s: string): (r: Option<seq<string>>)
    decreases |s|
  {
    if s == [] then Some([])
    else if !(RequireOpen <= s) then None
    else
      var rest := s[|RequireOpen|..];
      var q := FirstIndexOf(rest, '\'');
      if q == -1 || !(RequireClose <= rest[q..]) then None
      else
        match ParseRequires(rest[q + |RequireClose|..])
        case None => None
        case Some(tail) => Some([rest[..q]] + tail)
  }

  /** `files.map(requiredPath)`. */
  function RequiredAll(files: seq<string>): (rs: seq<string>)
    ensures |rs| == |files|
    ensures forall i :: 0 <= i < |files| ==> rs[i] == RequiredPath(files[i])
  {
    if files == [] then [] else [RequiredPath(files[0])] + RequiredAll(files[1..])
  }

  /** One statement followed by more text reads back as its path followed by
      what the text reads back as. */
  lemma ParseRequiresCons(x: string, t: string)
    requires '\'' !in x
    ensures ParseRequires(RequireOpen + x + RequireClose + t) ==
      match ParseRequires(t)
      case None => None
      case Some(tail) => Some([x] + tail)
  {
    var s := RequireOpen + x + RequireClose + t;
    var y := RequireClose + t;
    var rest := x + y;
    assert s == RequireOpen + rest;
    assert s[|RequireOpen|..] == rest;
    FirstIndexAfter(x, y, '\'');
    assert rest[|x|..] == y;
    assert rest[..|x|] == x;
    assert RequireClose <= y;
    assert y[|RequireClose|..] == t;
    assert rest[|x| + |RequireClose|..] == t;
  }

  /** The injected statements name exactly the required forms of the
      dependencies, in order, as long as no filename contains a quote. */
  lemma {:induction false} RequireAllRoundTrip(files: seq<string>)
    requires forall i :: 0 <= i < |files| ==> '\'' !in files[i]
    ensures ParseRequires(RequireAll(files)) == Some(RequiredAll(files))
  {
    if files != [] {
      var x := RequiredPath(files[0]);
      assert '\'' !in x by {
        if !IsAbsolute(files[0]) {
          assert x == "./" + files[0];
        }
      }
      RequireAllRoundTrip(files[1..]);
      ParseRequiresCons(x, RequireAll(files[1..]));
      assert RequireAll(files) == RequireOpen + x + RequireClose + RequireAll(files[1..]);
      assert RequiredAll(files) == [x] + RequiredAll(files[1..]);
    }
  }

  /** What an entry chunk's output holds: ";", then statements that read back
      as the required forms of its dependencies, then the original source. */
  lemma RenderedEntryRequires(chunks: seq<Chunk>, cur: Chunk, groups: seq<seq<Chunk>>, source: string,
                              cwd: Path, sep: char)
    requires NormalAbsolute(cwd)
    requires RenderWithEntry(chunks, cur, groups, source, cwd, sep).Ok? && cur.hasEntryModule
    requires forall f :: f in Dependencies(cwd, sep, cur, groups) ==> '\'' !in f
    ensures var out := RenderWithEntry(chunks, cur, groups, source, cwd, sep).value;
            ParseRequires(out[1..|out| - |source|]) == Some(RequiredAll(Dependencies(cwd, sep, cur, groups)))
  {
    var deps := Dependencies(cwd, sep, cur, groups);
    var out := RenderWithEntry(chunks, cur, groups, source, cwd, sep).value;
    assert out == ";" + RequireAll(deps) + source;
    assert out[1..|out| - |source|] == RequireAll(deps);
    RequireAllRoundTrip(deps);
  }

  // ---------------------------------------------------------------------
  // beforeChunkAssets: drop the assets chunk

  /** `chunks.findIndex(({ name }) => name === assetsChunkName)`. */
  function FindNamed(chunks: seq<Chunk>, name: string): (i: int)
    ensures -1 <= i < |chunks|
    ensures i == -1 <==> forall j :: 0 <= j < |chunks| ==> chunks[j].name != name
    ensures i >= 0 ==> chunks[i].name == name && forall j :: 0 <= j < i ==> chunks[j].name != name
  {
    if chunks == [] then -1
    else if chunks[0].name == name then 0
    else
      var i := FindNamed(chunks[1..], name);
      assert forall j :: 1 <= j < |chunks| ==> chunks[j] == chunks[1..][j - 1];
      if i == -1 then -1 else i + 1
  }

  /** The `beforeChunkAssets` tap: the first chunk named `assetsChunkName`
      is spliced out; without one the list is unchanged. */
  function RemoveAssetsChunk(chunks: seq<Chunk>, assetsChunkName: string): (r: seq<Chunk>)
    ensures (forall j :: 0 <= j < |chunks| ==> chunks[j].name != assetsChunkName) ==> r == chunks
    ensures FindNamed(chunks, assetsChunkName) >= 0 ==>
      var i := FindNamed(chunks, assetsChunkName);
      && chunks[i].name == assetsChunkName
      && |r| == |chunks| - 1
      && multiset(r) + multiset{chunks[i]} == multiset(chunks)
      && forall j :: 0 <= j < |r| ==> r[j] == chunks[if j < i then j else j + 1]
  {
    var i := FindNamed(chunks, assetsChunkName);
    if i > -1 then
      var r := chunks[..i] + chunks[i + 1..];
      SpliceOut(chunks, i, r);
      r
    else chunks
  }

  /** `splice(i, 1)`: one element fewer, the others kept in order. */
  lemma SpliceOut<T>(s: seq<T>, i: nat, r: seq<T>)
    requires i < |s| && r == s[..i] + s[i + 1..]
    ensures |r| == |s| - 1
    ensures multiset(r) + multiset{s[i]} == multiset(s)
    ensures forall j :: 0 <= j < |r| ==> r[j] == s[if j < i then j else j + 1]
  {
    assert s == s[..i] + [s[i]] + s[i + 1..];
  }

  /** Only the removed chunk goes: every chunk with another name keeps its
      multiplicity, and one chunk of the assets name disappears. */
  lemma RemoveAssetsChunkKeepsOthers(chunks: seq<Chunk>, assetsChunkName: string, c: Chunk)
    ensures c.name != assetsChunkName ==>
      multiset(RemoveAssetsChunk(chunks, assetsChunkName))[c] == multiset(chunks)[c]
    ensures c.name == assetsChunkName && c in chunks && FindNamed(chunks, assetsChunkName) >= 0 &&
            chunks[FindNamed(chunks, assetsChunkName)] == c ==>
      multiset(RemoveAssetsChunk(chunks, assetsChunkName))[c] == multiset(chunks)[c] - 1
  {
    var i := FindNamed(chunks, assetsChunkName);
    if i >= 0 {
      assert chunks[i].name == assetsChunkName;
    }
  }
}
