/** The mature entry resolver of the mini-program plugin
    (`webpackLibs/plugins/MinaWebpackPlugin.js`): from the root `app.json` it
    collects the page entries, the sub-package pages, the custom tab-bar page
    and, depth first, every component reachable through `usingComponents`.

    The file system is a map from resolved manifest path to its parsed
    content, so a read of a missing file and a `JSON.parse` failure are both
    errors. The walk keeps the JavaScript `Set` of context-relative component
    paths as a duplicate-free list in insertion order. */
module EntryResolver {
  import opened Wrappers
  import opened Seqs
  import opened Strings
  import opened Paths
  import opened Manifests
  import opened EntryPlugins

  datatype ResolveError =
    | ManifestNotFound(path: Path)   // `fs.readFileSync` of a missing file
    | ManifestParseError(path: Path) // `JSON.parse` of malformed content
    | PagesNotIterable               // `for (const page of config.pages)` without `pages`

  /** A `usingComponents` value naming a plugin component. */
  predicate IsPluginRef(v: string) {
    StartsWith(v, "plugin://")
  }

  /** Where a component reference points: a value starting with "/" is joined
      below the context, any other is resolved against the directory of the
      referencing component. */
  function RefTarget(context: Path, base: Path, v: string): (r: Path)
    requires NormalAbsolute(context) && NormalAbsolute(base)
    ensures NormalAbsolute(r)
  {
    if StartsWith(v, "/") then Append(context, v) else ResolveStr(base, v)
  }

  /** A value starting with "/" and free of ".." names a component below the
      context, whichever component refers to it. */
  lemma RootedRefBelowContext(context: Path, base: Path, v: string)
    requires NormalAbsolute(context) && NormalAbsolute(base)
    requires StartsWith(v, "/") && ".." !in Split(v, '/')
    ensures IsPrefix(context.segs, RefTarget(context, base, v).segs)
  {
    var parts := Split(v, '/');
    NormFromAppend([], context.segs, parts, false);
    NormNames(context.segs, false);
    NormFromNoUp(context.segs, parts, false);
  }

  /** `JSON.parse(fs.readFileSync(`${p}.json`))`. */
  function ReadManifest(fs: FileMap, p: Path): (r: Result<Manifest, ResolveError>)
    ensures r.Ok? <==> ManifestPathOf(p) in fs && fs[ManifestPathOf(p)].Parsed?
    ensures r.Ok? ==> r.value == fs[ManifestPathOf(p)].manifest
    ensures ManifestPathOf(p) !in fs ==> r == Err(ManifestNotFound(ManifestPathOf(p)))
  {
    var m := ManifestPathOf(p);
    if m !in fs then Err(ManifestNotFound(m))
    else
      match fs[m]
      case Malformed => Err(ManifestParseError(m))
      case Parsed(manifest) => Ok(manifest)
  }

  /** Termination measure of the walk: manifests in the file map whose
      component is not yet recorded. */
  ghost function Unvisited(context: Path, fs: FileMap, comps: seq<string>): nat {
    |set m | m in fs.Keys && RelStr(context, ComponentOf(m)) !in comps|
  }

  lemma UnvisitedShrinks(context: Path, fs: FileMap, comps: seq<string>, cpn: Path)
    requires NormalAbsolute(cpn)
    requires ManifestPathOf(cpn) in fs
    requires RelStr(context, cpn) !in comps
    ensures Unvisited(context, fs, comps + [RelStr(context, cpn)]) < Unvisited(context, fs, comps)
  {
    var rel := RelStr(context, cpn);
    var more := comps + [rel];
    var before := set m | m in fs.Keys && RelStr(context, ComponentOf(m)) !in comps;
    var after := set m | m in fs.Keys && RelStr(context, ComponentOf(m)) !in more;
    forall m | m in after
      ensures m in before
    {
      assert forall x :: x in comps ==> x in more;
    }
    ComponentOfManifestPath(cpn);
    assert rel in more;
    assert ManifestPathOf(cpn) in before;
    assert ManifestPathOf(cpn) !in after;
    SubsetCardinality(after, before);
  }

  lemma UnvisitedMonotone(context: Path, fs: FileMap, comps: seq<string>, more: seq<string>)
    requires IsPrefix(comps, more)
    ensures Unvisited(context, fs, more) <= Unvisited(context, fs, comps)
  {
    var before := set m | m in fs.Keys && RelStr(context, ComponentOf(m)) !in comps;
    var after := set m | m in fs.Keys && RelStr(context, ComponentOf(m)) !in more;
    assert forall x :: x in comps ==> x in more by {
      assert more[..|comps|] == comps;
    }
    assert after <= before;
    SubsetCardinality(after, before);
  }

  /** `getComponentEntries(context, curSet, cur)`: read the manifest of `cur`
      and expand its `usingComponents` values in order. */
  function Visit(context: Path, fs: FileMap, comps: seq<string>, cur: Path): (r: Result<seq<string>, ResolveError>)
    requires NormalAbsolute(context) && NormalAbsolute(cur)
    ensures r.Ok? ==> IsPrefix(comps, r.value)
    ensures r.Ok? && NoDups(comps) ==> NoDups(r.value)
    decreases Unvisited(context, fs, comps), 1, 0
  {
    var manifest :- ReadManifest(fs, cur);
    ExpandRefs(context, fs, comps, Dirname(cur), Values(manifest.usingComponents))
  }

  /** The loop over `Object.values(usingComponents)`: plugin references are
      skipped; a component not yet in the set is added and then expanded
      before the next value is looked at. */
  function ExpandRefs(context: Path, fs: FileMap, comps: seq<string>, base: Path, vals: seq<string>)
    : (r: Result<seq<string>, ResolveError>)
    requires NormalAbsolute(context) && NormalAbsolute(base)
    ensures r.Ok? ==> IsPrefix(comps, r.value)
    ensures r.Ok? && NoDups(comps) ==> NoDups(r.value)
    decreases Unvisited(context, fs, comps), 0, |vals|
  {
    if vals == [] then Ok(comps)
    else if IsPluginRef(vals[0]) then ExpandRefs(context, fs, comps, base, vals[1..])
    else
      var cpn := RefTarget(context, base, vals[0]);
      var rel := RelStr(context, cpn);
      if rel in comps then ExpandRefs(context, fs, comps, base, vals[1..])
      else if ManifestPathOf(cpn) !in fs then
        // the read Visit would do next fails the same way
        Err(ManifestNotFound(ManifestPathOf(cpn)))
      else
        UnvisitedShrinks(context, fs, comps, cpn);
        var grown :- Visit(context, fs, comps + [rel], cpn);
        PrefixTransitive(comps, comps + [rel], grown);
        UnvisitedMonotone(context, fs, comps, grown);
        var r := ExpandRefs(context, fs, grown, base, vals[1..]);
        if r.Ok? then PrefixTransitive(comps, grown, r.value); r else r
  }

  /** `getComponentEntries` for each of `pages` in turn, sharing one set. */
  function VisitAll(context: Path, fs: FileMap, comps: seq<string>, pages: seq<Path>)
    : (r: Result<seq<string>, ResolveError>)
    requires NormalAbsolute(context)
    requires forall i :: 0 <= i < |pages| ==> NormalAbsolute(pages[i])
    ensures r.Ok? ==> IsPrefix(comps, r.value)
    ensures r.Ok? && NoDups(comps) ==> NoDups(r.value)
    decreases |pages|
  {
    if pages == [] then Ok(comps)
    else
      var grown :- Visit(context, fs, comps, pages[0]);
      var r := VisitAll(context, fs, grown, pages[1..]);
      if r.Ok? then PrefixTransitive(comps, grown, r.value); r else r
  }

  /** The values that are not plugin references, in order. */
  function NonPlugin(vals: seq<string>): (r: seq<string>)
    ensures |r| <= |vals|
    ensures forall v :: v in r <==> v in vals && !IsPluginRef(v)
  {
    if vals == [] then []
    else if IsPluginRef(vals[0]) then NonPlugin(vals[1..])
    else [vals[0]] + NonPlugin(vals[1..])
  }

  /** Plugin references are never added or followed: the walk over `vals`
      is the walk over its non-plugin values. */
  lemma {:induction false} PluginRefsIgnored(context: Path, fs: FileMap, comps: seq<string>, base: Path,
                                             vals: seq<string>)
    requires NormalAbsolute(context) && NormalAbsolute(base)
    ensures ExpandRefs(context, fs, comps, base, vals) == ExpandRefs(context, fs, comps, base, NonPlugin(vals))
    decreases |vals|
  {
    if vals != [] {
      var rest := vals[1..];
      if IsPluginRef(vals[0]) {
        PluginRefsIgnored(context, fs, comps, base, rest);
      } else {
        var np := [vals[0]] + NonPlugin(rest);
        assert np[0] == vals[0] && np[1..] == NonPlugin(rest);
        var cpn := RefTarget(context, base, vals[0]);
        var rel := RelStr(context, cpn);
        if rel in comps {
          PluginRefsIgnored(context, fs, comps, base, rest);
        } else if ManifestPathOf(cpn) in fs {
          var v := Visit(context, fs, comps + [rel], cpn);
          if v.Ok? {
            PluginRefsIgnored(context, fs, v.value, base, rest);
          }
        }
      }
    }
  }

  // ---------------------------------------------------------------------
  // Completeness of the walk: every non-plugin reference of every page and of
  // every recorded component ends up in the set.

  /** Each non-plugin value in `vals`, resolved from `base`, is recorded. */
  ghost predicate ValsListed(context: Path, base: Path, vals: seq<string>, comps: seq<string>)
    requires NormalAbsolute(context) && NormalAbsolute(base)
  {
    forall i :: 0 <= i < |vals| && !IsPluginRef(vals[i]) ==>
      RelStr(context, RefTarget(context, base, vals[i])) in comps
  }

  /** `p` has a readable manifest and all its component references are recorded. */
  ghost predicate RefsListed(context: Path, fs: FileMap, comps: seq<string>, p: Path)
    requires NormalAbsolute(context) && NormalAbsolute(p)
  {
    && ReadManifest(fs, p).Ok?
    && ValsListed(context, Dirname(p), Values(ReadManifest(fs, p).value.usingComponents), comps)
  }

  /** The recorded components at positions `lo..hi` are all expanded. */
  ghost predicate ClosedRange(context: Path, fs: FileMap, comps: seq<string>, lo: nat, hi: nat)
    requires NormalAbsolute(context)
  {
    hi <= |comps| &&
    forall i :: lo <= i < hi ==> RefsListed(context, fs, comps, ResolveStr(context, comps[i]))
  }

  lemma RefsListedGrow(context: Path, fs: FileMap, a: seq<string>, b: seq<string>, p: Path)
    requires NormalAbsolute(context) && NormalAbsolute(p)
    requires RefsListed(context, fs, a, p) && IsPrefix(a, b)
    ensures RefsListed(context, fs, b, p)
  {
    assert b[..|a|] == a;
  }

  lemma ClosedRangeGrow(context: Path, fs: FileMap, a: seq<string>, b: seq<string>, lo: nat, hi: nat)
    requires NormalAbsolute(context)
    requires ClosedRange(context, fs, a, lo, hi) && IsPrefix(a, b)
    ensures ClosedRange(context, fs, b, lo, hi)
  {
    forall i | lo <= i < hi
      ensures RefsListed(context, fs, b, ResolveStr(context, b[i]))
    {
      assert b[i] == a[i];
      RefsListedGrow(context, fs, a, b, ResolveStr(context, a[i]));
    }
  }

  /** Listing the first value and the rest lists them all. */
  lemma ValsListedCons(context: Path, base: Path, vals: seq<string>, comps: seq<string>)
    requires NormalAbsolute(context) && NormalAbsolute(base)
    requires vals != []
    requires !IsPluginRef(vals[0]) ==> RelStr(context, RefTarget(context, base, vals[0])) in comps
    requires ValsListed(context, base, vals[1..], comps)
    ensures ValsListed(context, base, vals, comps)
  {
    assert forall i :: 1 <= i < |vals| ==> vals[i] == vals[1..][i - 1];
  }

  lemma {:induction false} VisitComplete(context: Path, fs: FileMap, comps: seq<string>, cur: Path)
    requires NormalAbsolute(context) && NormalAbsolute(cur)
    requires Visit(context, fs, comps, cur).Ok?
    ensures RefsListed(context, fs, Visit(context, fs, comps, cur).value, cur)
    ensures ClosedRange(context, fs, Visit(context, fs, comps, cur).value, |comps|,
                        |Visit(context, fs, comps, cur).value|)
    decreases Unvisited(context, fs, comps), 1, 0, 0
  {
    var m := ReadManifest(fs, cur).value;
    ExpandRefsComplete(context, fs, comps, Dirname(cur), Values(m.usingComponents));
  }

  lemma {:induction false} ExpandRefsComplete(context: Path, fs: FileMap, comps: seq<string>, base: Path, vals: seq<string>)
    requires NormalAbsolute(context) && NormalAbsolute(base)
    requires ExpandRefs(context, fs, comps, base, vals).Ok?
    ensures ValsListed(context, base, vals, ExpandRefs(context, fs, comps, base, vals).value)
    ensures ClosedRange(context, fs, ExpandRefs(context, fs, comps, base, vals).value, |comps|,
                        |ExpandRefs(context, fs, comps, base, vals).value|)
    decreases Unvisited(context, fs, comps), 0, |vals|, 1
  {
    var r := ExpandRefs(context, fs, comps, base, vals).value;
    if vals != [] {
      var rest := vals[1..];
      if IsPluginRef(vals[0]) {
        ExpandRefsComplete(context, fs, comps, base, rest);
        ValsListedCons(context, base, vals, r);
      } else {
        var cpn := RefTarget(context, base, vals[0]);
        var rel := RelStr(context, cpn);
        if rel in comps {
          ExpandRefsComplete(context, fs, comps, base, rest);
          assert r[..|comps|] == comps;
          ValsListedCons(context, base, vals, r);
        } else {
          ExpandRefsFreshComplete(context, fs, comps, base, vals);
        }
      }
    }
  }

  lemma ClosedRangeJoin(context: Path, fs: FileMap, comps: seq<string>, lo: nat, mid: nat, hi: nat)
    requires NormalAbsolute(context)
    requires ClosedRange(context, fs, comps, lo, mid) && ClosedRange(context, fs, comps, mid, hi)
    ensures ClosedRange(context, fs, comps, lo, hi)
  {
  }

  /** Unfolding `ExpandRefs` when the first value names a new component. */
  lemma ExpandRefsFreshStep(context: Path, fs: FileMap, comps: seq<string>, base: Path, vals: seq<string>)
    requires NormalAbsolute(context) && NormalAbsolute(base)
    requires vals != [] && !IsPluginRef(vals[0])
    requires RelStr(context, RefTarget(context, base, vals[0])) !in comps
    requires ExpandRefs(context, fs, comps, base, vals).Ok?
    ensures ManifestPathOf(RefTarget(context, base, vals[0])) in fs
    ensures var cpn := RefTarget(context, base, vals[0]);
            var v := Visit(context, fs, comps + [RelStr(context, cpn)], cpn);
            && v.Ok?
            && ExpandRefs(context, fs, comps, base, vals) == ExpandRefs(context, fs, v.value, base, vals[1..])
  {
  }

  /** The bookkeeping of the fresh case, free of the walk's definitions:
      `grown` is the set after expanding the new component `cpn`, and `r`
      the set after the remaining values. */
  lemma FreshCaseCloses(context: Path, fs: FileMap, comps: seq<string>, base: Path, vals: seq<string>,
                        cpn: Path, grown: seq<string>, r: seq<string>)
    requires NormalAbsolute(context) && NormalAbsolute(base) && NormalAbsolute(cpn)
    requires vals != [] && cpn == RefTarget(context, base, vals[0])
    requires IsPrefix(comps + [RelStr(context, cpn)], grown) && IsPrefix(grown, r)
    requires RefsListed(context, fs, grown, cpn)
    requires ClosedRange(context, fs, grown, |comps| + 1, |grown|)
    requires ValsListed(context, base, vals[1..], r)
    requires ClosedRange(context, fs, r, |grown|, |r|)
    ensures ValsListed(context, base, vals, r)
    ensures ClosedRange(context, fs, r, |comps|, |r|)
  {
    FreshRangeCloses(context, fs, comps, cpn, grown, r);
    RecordedKept(comps, RelStr(context, cpn), grown, r);
    ValsListedCons(context, base, vals, r);
  }

  /** A component recorded before a subtree is still in the set after it. */
  lemma RecordedKept(comps: seq<string>, x: string, grown: seq<string>, r: seq<string>)
    requires IsPrefix(comps + [x], grown) && IsPrefix(grown, r)
    ensures x in r
  {
    assert r[|comps|] == grown[|comps|] == x;
  }

  /** The range part of `FreshCaseCloses`: the new component, its subtree
      and what follows are all expanded. */
  lemma FreshRangeCloses(context: Path, fs: FileMap, comps: seq<string>, cpn: Path, grown: seq<string>,
                         r: seq<string>)
    requires NormalAbsolute(context) && NormalAbsolute(cpn)
    requires IsPrefix(comps + [RelStr(context, cpn)], grown) && IsPrefix(grown, r)
    requires RefsListed(context, fs, grown, cpn)
    requires ClosedRange(context, fs, grown, |comps| + 1, |grown|)
    requires ClosedRange(context, fs, r, |grown|, |r|)
    ensures ClosedRange(context, fs, r, |comps|, |r|)
  {
    var rel := RelStr(context, cpn);
    assert grown[..|comps| + 1] == comps + [rel];
    assert r[..|grown|] == grown;
    assert r[|comps|] == rel;
    ResolveRelStr(context, cpn);
    RefsListedGrow(context, fs, grown, r, cpn);
    ClosedRangeOne(context, fs, r, |comps|, cpn);
    ClosedRangeGrow(context, fs, grown, r, |comps| + 1, |grown|);
    ClosedRangeJoin(context, fs, r, |comps|, |comps| + 1, |grown|);
    ClosedRangeJoin(context, fs, r, |comps|, |grown|, |r|);
  }

  /** A single recorded component whose references are recorded. */
  lemma ClosedRangeOne(context: Path, fs: FileMap, comps: seq<string>, i: nat, p: Path)
    requires NormalAbsolute(context) && NormalAbsolute(p)
    requires i < |comps| && ResolveStr(context, comps[i]) == p
    requires RefsListed(context, fs, comps, p)
    ensures ClosedRange(context, fs, comps, i, i + 1)
  {
  }

  /** The case where the first value names a component not recorded yet. */
  lemma {:induction false} ExpandRefsFreshComplete(context: Path, fs: FileMap, comps: seq<string>, base: Path, vals: seq<string>)
    requires NormalAbsolute(context) && NormalAbsolute(base)
    requires vals != [] && !IsPluginRef(vals[0])
    requires RelStr(context, RefTarget(context, base, vals[0])) !in comps
    requires ExpandRefs(context, fs, comps, base, vals).Ok?
    ensures ValsListed(context, base, vals, ExpandRefs(context, fs, comps, base, vals).value)
    ensures ClosedRange(context, fs, ExpandRefs(context, fs, comps, base, vals).value, |comps|,
                        |ExpandRefs(context, fs, comps, base, vals).value|)
    decreases Unvisited(context, fs, comps), 0, |vals|, 0
  {
    var cpn := RefTarget(context, base, vals[0]);
    var rel := RelStr(context, cpn);
    ExpandRefsFreshStep(context, fs, comps, base, vals);
    UnvisitedShrinks(context, fs, comps, cpn);
    var grown := Visit(context, fs, comps + [rel], cpn).value;
    VisitComplete(context, fs, comps + [rel], cpn);
    UnvisitedMonotone(context, fs, comps + [rel], grown);
    var r := ExpandRefs(context, fs, grown, base, vals[1..]).value;
    ExpandRefsComplete(context, fs, grown, base, vals[1..]);
    FreshCaseCloses(context, fs, comps, base, vals, cpn, grown, r);
  }

  lemma {:induction false} VisitAllComplete(context: Path, fs: FileMap, comps: seq<string>, pages: seq<Path>)
    requires NormalAbsolute(context)
    requires forall i :: 0 <= i < |pages| ==> NormalAbsolute(pages[i])
    requires VisitAll(context, fs, comps, pages).Ok?
    ensures forall i :: 0 <= i < |pages| ==>
      RefsListed(context, fs, VisitAll(context, fs, comps, pages).value, pages[i])
    ensures ClosedRange(context, fs, VisitAll(context, fs, comps, pages).value, |comps|,
                        |VisitAll(context, fs, comps, pages).value|)
    decreases |pages|
  {
    if pages != [] {
      var grown := Visit(context, fs, comps, pages[0]).value;
      var r := VisitAll(context, fs, comps, pages).value;
      VisitComplete(context, fs, comps, pages[0]);
      VisitAllComplete(context, fs, grown, pages[1..]);
      RefsListedGrow(context, fs, grown, r, pages[0]);
      ClosedRangeGrow(context, fs, grown, r, |comps|, |grown|);
      assert forall i :: 1 <= i < |pages| ==> pages[i] == pages[1..][i - 1];
    }
  }

  // ---------------------------------------------------------------------
  // Soundness and order of the walk: every recorded component is referenced
  // by a page or by a component recorded before it, and the set lists them
  // in the order of the walk: depth first, each manifest's values in order.

  /** Whose manifest the walk is reading: the page at an index of the page
      list, or the component at an index of the set. */
  datatype Source = Page(page: nat) | Component(index: nat)

  /** What led the walk to a component: the source whose manifest references
      it, and the position of that reference among the manifest's
      `usingComponents` values. */
  datatype Finder = Finder(src: Source, val: nat)

  /** The `usingComponents` values of the manifest of `p`, in order; none
      when the manifest cannot be read. */
  ghost function RefValues(fs: FileMap, p: Path): seq<string> {
    if ReadManifest(fs, p).Ok? then Values(ReadManifest(fs, p).value.usingComponents) else []
  }

  /** `x` is the context-relative path of the non-plugin value at position
      `val` in the manifest of `p`. */
  ghost predicate RefAt(context: Path, fs: FileMap, p: Path, val: nat, x: string)
    requires NormalAbsolute(context) && NormalAbsolute(p)
  {
    && ReadManifest(fs, p).Ok?
    && val < |RefValues(fs, p)|
    && !IsPluginRef(RefValues(fs, p)[val])
    && x == RelStr(context, RefTarget(context, Dirname(p), RefValues(fs, p)[val]))
  }

  /** `x` is the context-relative path of a non-plugin `usingComponents`
      value in the manifest of `p`. */
  ghost predicate ReferencedBy(context: Path, fs: FileMap, p: Path, x: string)
    requires NormalAbsolute(context) && NormalAbsolute(p)
  {
    && ReadManifest(fs, p).Ok?
    && exists v :: v in Values(ReadManifest(fs, p).value.usingComponents) && !IsPluginRef(v) &&
         x == RelStr(context, RefTarget(context, Dirname(p), v))
  }

  ghost predicate RootsNormal(roots: seq<Path>) {
    forall k :: 0 <= k < |roots| ==> NormalAbsolute(roots[k])
  }

  ghost predicate ValidSource(roots: seq<Path>, comps: seq<string>, s: Source) {
    match s
    case Page(k) => k < |roots|
    case Component(j) => j < |comps|
  }

  /** The path whose manifest the source `s` reads. */
  ghost function SourcePath(context: Path, roots: seq<Path>, comps: seq<string>, s: Source): (p: Path)
    requires NormalAbsolute(context) && RootsNormal(roots) && ValidSource(roots, comps, s)
    ensures NormalAbsolute(p)
  {
    match s
    case Page(k) => roots[k]
    case Component(j) => ResolveStr(context, comps[j])
  }

  /** Component `i` of `comps` is the reference at position `via[i].val` of
      its source, and the walk reached it in order:
      - every non-plugin value before that position is recorded before `i`,
        and earlier finds of the same source come from earlier positions;
      - a page is not returned to once a later page has started;
      - every component between a component source and `i` lies below that
        source. */
  ghost predicate FoundAt(context: Path, fs: FileMap, roots: seq<Path>, comps: seq<string>,
                          via: seq<Finder>, i: nat)
    requires NormalAbsolute(context) && RootsNormal(roots) && |via| == |comps| && i < |comps|
  {
    var f := via[i];
    && (match f.src case Page(k) => k < |roots| case Component(j) => j < i)
    && (var p := SourcePath(context, roots, comps, f.src);
        && RefAt(context, fs, p, f.val, comps[i])
        && ValsListed(context, Dirname(p), RefValues(fs, p)[..f.val], comps[..i]))
    && (forall m :: 0 <= m < i && via[m].src == f.src ==> via[m].val < f.val)
    && (match f.src
        case Page(k) => forall m :: 0 <= m < i && via[m].src.Page? ==> via[m].src.page <= k
        case Component(j) => forall m :: j < m < i ==> via[m].src.Component? && via[m].src.index >= j)
  }

  /** `via` assigns every component of `comps` a finder as `FoundAt` says. */
  ghost predicate FoundDepthFirst(context: Path, fs: FileMap, roots: seq<Path>, comps: seq<string>,
                                  via: seq<Finder>)
    requires NormalAbsolute(context) && RootsNormal(roots)
  {
    |via| == |comps| && forall i :: 0 <= i < |comps| ==> FoundAt(context, fs, roots, comps, via, i)
  }

  /** The source `s` may still record components after `via`: no later page
      has started, and everything after component `s` lies below it. */
  ghost predicate StillOpen(via: seq<Finder>, s: Source) {
    match s
    case Page(k) => forall m :: 0 <= m < |via| && via[m].src.Page? ==> via[m].src.page <= k
    case Component(j) =>
      j < |via| && forall m :: j < m < |via| ==> via[m].src.Component? && via[m].src.index >= j
  }

  /** Every find of `s` so far comes from a position before `off`. */
  ghost predicate FindsBelow(via: seq<Finder>, s: Source, off: nat) {
    forall m :: 0 <= m < |via| && via[m].src == s ==> via[m].val < off
  }

  /** Every page find so far comes from a page before `off`. */
  ghost predicate PagesBefore(via: seq<Finder>, off: nat) {
    forall m :: 0 <= m < |via| && via[m].src.Page? ==> via[m].src.page < off
  }

  lemma FoundGrow(context: Path, fs: FileMap, roots: seq<Path>, a: seq<string>, ba: seq<Finder>,
                  b: seq<string>, bb: seq<Finder>)
    requires NormalAbsolute(context) && RootsNormal(roots)
    requires FoundDepthFirst(context, fs, roots, a, ba)
    requires IsPrefix(a, b) && IsPrefix(ba, bb) && |bb| == |b|
    ensures forall i :: 0 <= i < |a| ==> FoundAt(context, fs, roots, b, bb, i)
  {
    forall i | 0 <= i < |a|
      ensures FoundAt(context, fs, roots, b, bb, i)
    {
      assert FoundAt(context, fs, roots, a, ba, i);
      assert b[i] == a[i] && bb[i] == ba[i] && b[..i] == a[..i];
      assert forall m :: 0 <= m < i ==> bb[m] == ba[m];
      if ba[i].src.Component? {
        assert b[ba[i].src.index] == a[ba[i].src.index];
      }
      assert SourcePath(context, roots, b, ba[i].src) == SourcePath(context, roots, a, ba[i].src);
    }
  }

  /** Listing one more value of a manifest, whose target is recorded unless
      it is a plugin reference. */
  lemma ValsListedSnoc(context: Path, base: Path, all: seq<string>, off: nat, comps: seq<string>)
    requires NormalAbsolute(context) && NormalAbsolute(base) && off < |all|
    requires ValsListed(context, base, all[..off], comps)
    requires !IsPluginRef(all[off]) ==> RelStr(context, RefTarget(context, base, all[off])) in comps
    ensures ValsListed(context, base, all[..off + 1], comps)
  {
    var pre, ext := all[..off], all[..off + 1];
    forall i | 0 <= i < |ext| && !IsPluginRef(ext[i])
      ensures RelStr(context, RefTarget(context, base, ext[i])) in comps
    {
      if i < off {
        assert ext[i] == pre[i];
      } else {
        assert ext[i] == all[off];
      }
    }
  }

  lemma ValsListedGrow(context: Path, base: Path, vals: seq<string>, a: seq<string>, b: seq<string>)
    requires NormalAbsolute(context) && NormalAbsolute(base)
    requires ValsListed(context, base, vals, a) && IsPrefix(a, b)
    ensures ValsListed(context, base, vals, b)
  {
    assert forall x :: x in a ==> x in b by {
      forall x | x in a ensures x in b {
        assert x in b[..|a|];
      }
    }
  }

  /** Recording `x`, the reference at position `off` of the open source
      `s`, keeps the order; the new component starts with no finds. */
  lemma RecordFound(context: Path, fs: FileMap, roots: seq<Path>, comps: seq<string>, via: seq<Finder>,
                    s: Source, p: Path, off: nat, x: string)
    requires NormalAbsolute(context) && RootsNormal(roots)
    requires FoundDepthFirst(context, fs, roots, comps, via)
    requires ValidSource(roots, comps, s) && StillOpen(via, s) && FindsBelow(via, s, off)
    requires p == SourcePath(context, roots, comps, s)
    requires RefAt(context, fs, p, off, x)
    requires ValsListed(context, Dirname(p), RefValues(fs, p)[..off], comps)
    ensures FoundDepthFirst(context, fs, roots, comps + [x], via + [Finder(s, off)])
    ensures FindsBelow(via + [Finder(s, off)], s, off + 1)
    ensures FindsBelow(via + [Finder(s, off)], Component(|comps|), 0)
  {
    var c1, v1 := comps + [x], via + [Finder(s, off)];
    FoundGrow(context, fs, roots, comps, via, c1, v1);
    var i := |comps|;
    assert c1[i] == x && v1[i] == Finder(s, off) && c1[..i] == comps;
    assert forall m :: 0 <= m < i ==> v1[m] == via[m];
    if s.Component? {
      assert c1[s.index] == comps[s.index];
    }
    assert SourcePath(context, roots, c1, s) == p;
    assert FoundAt(context, fs, roots, c1, v1, i);
    forall m | 0 <= m < i && v1[m].src.Component?
      ensures v1[m].src.index < i
    {
      assert FoundAt(context, fs, roots, comps, via, m);
    }
  }

  /** Once the subtree of the component at `ci`, found by `f` from `s`, is
      done, `s` is open again and has no further finds. */
  lemma Reopen(via: seq<Finder>, r: seq<Finder>, s: Source, f: Finder, ci: nat, off: nat)
    requires StillOpen(via, s) && ci == |via| && f.src == s && (s.Component? ==> s.index < ci)
    requires IsPrefix(via + [f], r) && StillOpen(r, Component(ci)) && FindsBelow(via + [f], s, off)
    ensures StillOpen(r, s) && FindsBelow(r, s, off)
  {
    assert forall m :: 0 <= m < ci ==> r[m] == via[m];
    assert r[ci] == f;
  }

  /** The walk from `cur`, the manifest path of source `s`, keeps the order
      and leaves `s` open. */
  lemma {:induction false} VisitFound(context: Path, fs: FileMap, roots: seq<Path>, comps: seq<string>,
                                      via: seq<Finder>, s: Source, cur: Path) returns (via': seq<Finder>)
    requires NormalAbsolute(context) && RootsNormal(roots) && NormalAbsolute(cur)
    requires Visit(context, fs, comps, cur).Ok?
    requires FoundDepthFirst(context, fs, roots, comps, via)
    requires ValidSource(roots, comps, s) && StillOpen(via, s) && FindsBelow(via, s, 0)
    requires SourcePath(context, roots, comps, s) == cur
    ensures FoundDepthFirst(context, fs, roots, Visit(context, fs, comps, cur).value, via')
    ensures IsPrefix(via, via') && StillOpen(via', s)
    decreases Unvisited(context, fs, comps), 1, 0, 0
  {
    var all := RefValues(fs, cur);
    assert all[0..] == all && all[..0] == [];
    via' := ExpandRefsFound(context, fs, roots, comps, via, s, cur, Dirname(cur), all, 0);
  }

  /** The loop over the values of the manifest of `p`, the path of source
      `s`, from position `off` on. */
  lemma {:induction false} ExpandRefsFound(context: Path, fs: FileMap, roots: seq<Path>, comps: seq<string>,
                                           via: seq<Finder>, s: Source, p: Path, base: Path,
                                           vals: seq<string>, off: nat)
    returns (via': seq<Finder>)
    requires NormalAbsolute(context) && RootsNormal(roots) && NormalAbsolute(p) && NormalAbsolute(base)
    requires ExpandRefs(context, fs, comps, base, vals).Ok?
    requires FoundDepthFirst(context, fs, roots, comps, via)
    requires ValidSource(roots, comps, s) && StillOpen(via, s) && FindsBelow(via, s, off)
    requires p == SourcePath(context, roots, comps, s) && base == Dirname(p) && ReadManifest(fs, p).Ok?
    requires off + |vals| == |RefValues(fs, p)| && vals == RefValues(fs, p)[off..]
    requires ValsListed(context, base, RefValues(fs, p)[..off], comps)
    ensures FoundDepthFirst(context, fs, roots, ExpandRefs(context, fs, comps, base, vals).value, via')
    ensures IsPrefix(via, via') && StillOpen(via', s)
    decreases Unvisited(context, fs, comps), 0, |vals|, 1
  {
    via' := via;
    if vals != [] {
      var all := RefValues(fs, p);
      assert vals[0] == all[off] && vals[1..] == all[off + 1..];
      if IsPluginRef(vals[0]) || RelStr(context, RefTarget(context, base, vals[0])) in comps {
        ValsListedSnoc(context, base, all, off, comps);
        via' := ExpandRefsFound(context, fs, roots, comps, via, s, p, base, vals[1..], off + 1);
      } else {
        via' := ExpandRefsFreshFound(context, fs, roots, comps, via, s, p, base, vals, off);
      }
    }
  }

  /** The case where the value at `off` names a component not recorded yet:
      it is recorded as found there, walked with itself as source, and the
      remaining values follow. */
  lemma {:induction false} ExpandRefsFreshFound(context: Path, fs: FileMap, roots: seq<Path>, comps: seq<string>,
                                                via: seq<Finder>, s: Source, p: Path, base: Path,
                                                vals: seq<string>, off: nat)
    returns (via': seq<Finder>)
    requires NormalAbsolute(context) && RootsNormal(roots) && NormalAbsolute(p) && NormalAbsolute(base)
    requires vals != [] && !IsPluginRef(vals[0])
    requires RelStr(context, RefTarget(context, base, vals[0])) !in comps
    requires ExpandRefs(context, fs, comps, base, vals).Ok?
    requires FoundDepthFirst(context, fs, roots, comps, via)
    requires ValidSource(roots, comps, s) && StillOpen(via, s) && FindsBelow(via, s, off)
    requires p == SourcePath(context, roots, comps, s) && base == Dirname(p) && ReadManifest(fs, p).Ok?
    requires off + |vals| == |RefValues(fs, p)| && vals == RefValues(fs, p)[off..]
    requires ValsListed(context, base, RefValues(fs, p)[..off], comps)
    ensures FoundDepthFirst(context, fs, roots, ExpandRefs(context, fs, comps, base, vals).value, via')
    ensures IsPrefix(via, via') && StillOpen(via', s)
    decreases Unvisited(context, fs, comps), 0, |vals|, 0
  {
    var all := RefValues(fs, p);
    var cpn := RefTarget(context, base, vals[0]);
    var rel := RelStr(context, cpn);
    assert vals[0] == all[off] && vals[1..] == all[off + 1..];
    ExpandRefsFreshStep(context, fs, comps, base, vals);
    UnvisitedShrinks(context, fs, comps, cpn);
    var f := Finder(s, off);
    RecordFound(context, fs, roots, comps, via, s, p, off, rel);
    var comps1, via1 := comps + [rel], via + [f];
    ResolveRelStr(context, cpn);
    assert comps1[|comps|] == rel;
    var grown := Visit(context, fs, comps1, cpn).value;
    var via2 := VisitFound(context, fs, roots, comps1, via1, Component(|comps|), cpn);
    UnvisitedMonotone(context, fs, comps1, grown);
    FreshAfter(context, roots, comps, via, s, p, base, all, off, rel, grown, via2);
    via' := ExpandRefsFound(context, fs, roots, grown, via2, s, p, base, vals[1..], off + 1);
    PrefixTransitive(via, via2, via');
  }

  /** The bookkeeping after the subtree of a fresh value: the source is open
      again, its path is unchanged, and the values up to `off` are listed. */
  lemma FreshAfter(context: Path, roots: seq<Path>, comps: seq<string>, via: seq<Finder>, s: Source,
                   p: Path, base: Path, all: seq<string>, off: nat, rel: string, grown: seq<string>,
                   via2: seq<Finder>)
    requires NormalAbsolute(context) && RootsNormal(roots) && NormalAbsolute(base) && off < |all|
    requires |via| == |comps| && ValidSource(roots, comps, s) && StillOpen(via, s)
    requires FindsBelow(via + [Finder(s, off)], s, off + 1)
    requires IsPrefix(via + [Finder(s, off)], via2) && StillOpen(via2, Component(|comps|))
    requires IsPrefix(comps + [rel], grown)
    requires p == SourcePath(context, roots, comps, s)
    requires ValsListed(context, base, all[..off], comps)
    requires rel == RelStr(context, RefTarget(context, base, all[off]))
    ensures StillOpen(via2, s) && FindsBelow(via2, s, off + 1)
    ensures IsPrefix(comps, grown) && IsPrefix(via, via2)
    ensures ValidSource(roots, grown, s) && SourcePath(context, roots, grown, s) == p
    ensures ValsListed(context, base, all[..off + 1], grown)
  {
    Reopen(via, via2, s, Finder(s, off), |comps|, off + 1);
    PrefixTransitive(comps, comps + [rel], grown);
    PrefixTransitive(via, via + [Finder(s, off)], via2);
    FreshFoundListed(context, base, all, off, comps, rel, grown);
    if s.Component? {
      assert grown[s.index] == comps[s.index];
    }
  }

  /** After the subtree of the value at `off`, the values up to and
      including it are listed. */
  lemma FreshFoundListed(context: Path, base: Path, all: seq<string>, off: nat, comps: seq<string>,
                         rel: string, grown: seq<string>)
    requires NormalAbsolute(context) && NormalAbsolute(base) && off < |all|
    requires ValsListed(context, base, all[..off], comps)
    requires rel == RelStr(context, RefTarget(context, base, all[off]))
    requires IsPrefix(comps + [rel], grown)
    ensures ValsListed(context, base, all[..off + 1], grown)
  {
    assert grown[|comps|] == rel;
    PrefixTransitive(comps, comps + [rel], grown);
    ValsListedGrow(context, base, all[..off], comps, grown);
    ValsListedSnoc(context, base, all, off, grown);
  }

  /** `pages` sit in `roots` from index `off` on. */
  ghost predicate RootsAt(roots: seq<Path>, off: nat, pages: seq<Path>) {
    off + |pages| <= |roots| && forall i :: 0 <= i < |pages| ==> roots[off + i] == pages[i]
  }

  lemma RootsAtTail(roots: seq<Path>, off: nat, pages: seq<Path>)
    requires RootsAt(roots, off, pages) && pages != []
    ensures roots[off] == pages[0] && RootsAt(roots, off + 1, pages[1..])
  {
    assert roots[off + 0] == pages[0];
    forall i | 0 <= i < |pages[1..]| ensures roots[off + 1 + i] == pages[1..][i] {
      assert roots[off + (i + 1)] == pages[i + 1];
    }
  }

  /** The pages `pages`, at index `off` of `roots` onwards, walked in turn. */
  lemma {:induction false} VisitAllFound(context: Path, fs: FileMap, roots: seq<Path>, comps: seq<string>,
                                         via: seq<Finder>, off: nat, pages: seq<Path>) returns (via': seq<Finder>)
    requires NormalAbsolute(context) && RootsNormal(roots)
    requires forall i :: 0 <= i < |pages| ==> NormalAbsolute(pages[i])
    requires VisitAll(context, fs, comps, pages).Ok?
    requires RootsAt(roots, off, pages)
    requires FoundDepthFirst(context, fs, roots, comps, via) && PagesBefore(via, off)
    ensures FoundDepthFirst(context, fs, roots, VisitAll(context, fs, comps, pages).value, via')
    ensures IsPrefix(via, via') && PagesBefore(via', off + |pages|)
    decreases |pages|
  {
    via' := via;
    if pages != [] {
      RootsAtTail(roots, off, pages);
      var grown := Visit(context, fs, comps, pages[0]).value;
      var via1 := VisitFound(context, fs, roots, comps, via, Page(off), pages[0]);
      via' := VisitAllFound(context, fs, roots, grown, via1, off + 1, pages[1..]);
      PrefixTransitive(via, via1, via');
    }
  }

  /** The pages the component walks start from, in walk order. */
  ghost function WalkRoots(context: Path, pages: seq<string>, subPkgs: seq<string>, custom: seq<string>)
    : (roots: seq<Path>)
    requires NormalAbsolute(context)
    ensures RootsNormal(roots)
  {
    ResolveEach(context, pages + subPkgs + custom)
  }

  /** A successful walk finds its components in order from the pages, the
      sub-package pages and the custom pages, in that order. */
  lemma CollectComponentsFound(context: Path, fs: FileMap, pages: seq<string>, subPkgs: seq<string>,
                               custom: seq<string>)
    requires NormalAbsolute(context)
    requires CollectComponents(context, fs, pages, subPkgs, custom).Ok?
    ensures exists via :: FoundDepthFirst(context, fs, WalkRoots(context, pages, subPkgs, custom),
                                          CollectComponents(context, fs, pages, subPkgs, custom).value, via)
  {
    var roots := WalkRoots(context, pages, subPkgs, custom);
    var p1, p2, p3 := ResolveEach(context, pages), ResolveEach(context, subPkgs), ResolveEach(context, custom);
    WalkRootsParts(context, pages, subPkgs, custom);
    var c1 := VisitAll(context, fs, [], p1).value;
    var c2 := VisitAll(context, fs, c1, p2).value;
    assert CollectComponents(context, fs, pages, subPkgs, custom).value == VisitAll(context, fs, c2, p3).value;
    var via1 := VisitAllFound(context, fs, roots, [], [], 0, p1);
    var via2 := VisitAllFound(context, fs, roots, c1, via1, |pages|, p2);
    var via3 := VisitAllFound(context, fs, roots, c2, via2, |pages| + |subPkgs|, p3);
  }

  /** Where each group of pages sits among the walk's roots. */
  lemma WalkRootsParts(context: Path, pages: seq<string>, subPkgs: seq<string>, custom: seq<string>)
    requires NormalAbsolute(context)
    ensures var roots := WalkRoots(context, pages, subPkgs, custom);
      && RootsAt(roots, 0, ResolveEach(context, pages))
      && RootsAt(roots, |pages|, ResolveEach(context, subPkgs))
      && RootsAt(roots, |pages| + |subPkgs|, ResolveEach(context, custom))
  {
    var all := pages + subPkgs + custom;
    assert forall i :: 0 <= i < |pages| ==> all[i] == pages[i];
    assert forall i :: 0 <= i < |subPkgs| ==> all[|pages| + i] == subPkgs[i];
    assert forall i :: 0 <= i < |custom| ==> all[|pages| + |subPkgs| + i] == custom[i];
  }

  /** Component `i` is referenced by one of the walk's pages or by a
      component listed before it. */
  ghost predicate Discovered(context: Path, fs: FileMap, roots: seq<Path>, comps: seq<string>, i: nat)
    requires NormalAbsolute(context) && RootsNormal(roots) && i < |comps|
  {
    || (exists k :: 0 <= k < |roots| && ReferencedBy(context, fs, roots[k], comps[i]))
    || (exists j :: 0 <= j < i && ReferencedBy(context, fs, ResolveStr(context, comps[j]), comps[i]))
  }

  /** Read back: a finder assignment in walk order makes every component
      discovered. */
  lemma FoundSound(context: Path, fs: FileMap, roots: seq<Path>, comps: seq<string>, via: seq<Finder>)
    requires NormalAbsolute(context) && RootsNormal(roots)
    requires FoundDepthFirst(context, fs, roots, comps, via)
    ensures forall i :: 0 <= i < |comps| ==> Discovered(context, fs, roots, comps, i)
  {
    forall i | 0 <= i < |comps|
      ensures Discovered(context, fs, roots, comps, i)
    {
      assert FoundAt(context, fs, roots, comps, via, i);
      var f := via[i];
      var p := SourcePath(context, roots, comps, f.src);
      assert RefValues(fs, p)[f.val] in Values(ReadManifest(fs, p).value.usingComponents);
      assert ReferencedBy(context, fs, p, comps[i]);
      match f.src
      case Page(k) =>
        assert 0 <= k < |roots| && ReferencedBy(context, fs, roots[k], comps[i]);
      case Component(j) =>
        assert 0 <= j < i && ReferencedBy(context, fs, ResolveStr(context, comps[j]), comps[i]);
    }
  }

  /** Read back: the walk meets each manifest's values in order. Earlier
      finds from the source of component `i` come from earlier values, and
      every non-plugin value before its own is listed before it. */
  lemma FoundInValueOrder(context: Path, fs: FileMap, roots: seq<Path>, comps: seq<string>, via: seq<Finder>,
                          i: nat)
    requires NormalAbsolute(context) && RootsNormal(roots)
    requires FoundDepthFirst(context, fs, roots, comps, via) && i < |comps|
    ensures ValidSource(roots, comps, via[i].src)
    ensures forall m :: 0 <= m < i && via[m].src == via[i].src ==> via[m].val < via[i].val
    ensures var p := SourcePath(context, roots, comps, via[i].src);
            && via[i].val < |RefValues(fs, p)|
            && forall q :: 0 <= q < via[i].val && !IsPluginRef(RefValues(fs, p)[q]) ==>
                 RelStr(context, RefTarget(context, Dirname(p), RefValues(fs, p)[q])) in comps[..i]
  {
    assert FoundAt(context, fs, roots, comps, via, i);
    var p := SourcePath(context, roots, comps, via[i].src);
    var vals := RefValues(fs, p);
    forall q | 0 <= q < via[i].val && !IsPluginRef(vals[q])
      ensures RelStr(context, RefTarget(context, Dirname(p), vals[q])) in comps[..i]
    {
      assert vals[..via[i].val][q] == vals[q];
    }
  }

  // ---------------------------------------------------------------------
  // analyzeAppJson

  /** The result of one resolution pass. */
  datatype AppEntries = AppEntries(entries: seq<string>, tabBarIcons: set<string>)

  /** The fixed page added for a custom tab bar. */
  const CustomTabBarPage: string := "custom-tab-bar/index"

  /** `x` is a truthy icon path of some item of `list`. */
  ghost predicate IconOf(list: seq<TabBarItem>, x: string) {
    x != "" && exists i :: 0 <= i < |list| && (list[i].iconPath == x || list[i].selectedIconPath == x)
  }

  /** Icon paths of a tab-bar list: every truthy `iconPath` and `selectedIconPath`. */
  function ListIcons(list: seq<TabBarItem>): (icons: set<string>)
    ensures forall x :: x in icons <==> IconOf(list, x)
    decreases |list|
  {
    if list == [] then {}
    else
      var last := list[|list| - 1];
      var init := list[..|list| - 1];
      var prior := ListIcons(init);
      assert forall i :: 0 <= i < |init| ==> init[i] == list[i];
      prior
        + (if last.iconPath != "" then {last.iconPath} else {})
        + (if last.selectedIconPath != "" then {last.selectedIconPath} else {})
  }

  /** `tabBarIcons`: empty unless `tabBar` is an object. */
  function TabBarIcons(tabBar: Option<TabBar>): (icons: set<string>)
    ensures tabBar.None? ==> icons == {}
    ensures tabBar.Some? ==> forall x :: x in icons <==> IconOf(tabBar.value.list, x)
  {
    if tabBar.None? then {} else ListIcons(tabBar.value.list)
  }

  /** `customPages`: the custom tab-bar page iff `tabBar` is an object with a
      truthy `custom`. */
  function CustomPages(tabBar: Option<TabBar>): (pages: seq<string>)
    ensures |pages| <= 1
    ensures pages == [CustomTabBarPage] <==> tabBar.Some? && tabBar.value.custom
    ensures pages == [] <==> !(tabBar.Some? && tabBar.value.custom)
  {
    if tabBar.Some? && tabBar.value.custom then [CustomTabBarPage] else []
  }

  /** `subPkgs`: each sub-package page as `path.join(root, page)`, package by
      package, page by page. */
  function SubPackagePages(subs: seq<SubPackage>): (pages: seq<string>)
    ensures |pages| == SubPackagePageCount(subs)
    decreases |subs|
  {
    if subs == [] then []
    else
      var last := subs[|subs| - 1];
      SubPackagePages(subs[..|subs| - 1]) + JoinEach(last.root, last.pages)
  }

  ghost function SubPackagePageCount(subs: seq<SubPackage>): nat
    decreases |subs|
  {
    if subs == [] then 0 else SubPackagePageCount(subs[..|subs| - 1]) + |subs[|subs| - 1].pages|
  }

  /** Sub-packages contribute their pages in package order. */
  lemma {:induction false} SubPackagePagesAppend(a: seq<SubPackage>, b: seq<SubPackage>)
    ensures SubPackagePages(a + b) == SubPackagePages(a) + SubPackagePages(b)
    decreases |b|
  {
    if b == [] {
      assert a + b == a;
    } else {
      var init := b[..|b| - 1];
      var last := b[|b| - 1];
      assert (a + b)[..|a + b| - 1] == a + init;
      assert (a + b)[|a + b| - 1] == last;
      SubPackagePagesAppend(a, init);
      SubPackagePagesSnoc(a + b, a + init, last);
      SubPackagePagesSnoc(b, init, last);
      SeqAssoc(SubPackagePages(a), SubPackagePages(init), JoinEach(last.root, last.pages));
    }
  }

  /** The definition of `SubPackagePages` for a non-empty list, unfolded once. */
  lemma SubPackagePagesSnoc(subs: seq<SubPackage>, init: seq<SubPackage>, last: SubPackage)
    requires subs != [] && init == subs[..|subs| - 1] && last == subs[|subs| - 1]
    ensures SubPackagePages(subs) == SubPackagePages(init) + JoinEach(last.root, last.pages)
  {
  }

  lemma SeqAssoc<T>(x: seq<T>, y: seq<T>, z: seq<T>)
    ensures (x + y) + z == x + (y + z)
  {
  }

  /** `x` is `path.join(root, page)` for some page of some sub-package. */
  ghost predicate SubPackagePage(subs: seq<SubPackage>, x: string) {
    exists i, j :: 0 <= i < |subs| && 0 <= j < |subs[i].pages| && x == JoinStr(subs[i].root, subs[i].pages[j])
  }

  /** The sub-package pages are exactly `path.join(root, page)` for every page
      of every sub-package. */
  lemma {:induction false} SubPackagePagesMembers(subs: seq<SubPackage>)
    ensures forall x :: x in SubPackagePages(subs) <==> SubPackagePage(subs, x)
    decreases |subs|
  {
    if subs != [] {
      var init := subs[..|subs| - 1];
      SubPackagePagesMembers(init);
      forall x
        ensures x in SubPackagePages(subs) <==> SubPackagePage(subs, x)
      {
        SubPackagePageLast(subs, x);
      }
    }
  }

  /** One step of `SubPackagePagesMembers`: a page of the whole list is a page
      of all but the last package or of the last one. */
  lemma SubPackagePageLast(subs: seq<SubPackage>, x: string)
    requires subs != []
    ensures SubPackagePage(subs, x) <==>
            SubPackagePage(subs[..|subs| - 1], x) || x in JoinEach(subs[|subs| - 1].root, subs[|subs| - 1].pages)
  {
    var init := subs[..|subs| - 1];
    var last := subs[|subs| - 1];
    if x in JoinEach(last.root, last.pages) {
      LastPackagePage(subs, last, x);
    }
    if SubPackagePage(init, x) {
      InitPackagePage(subs, init, x);
    }
    if SubPackagePage(subs, x) {
      var i, j :| 0 <= i < |subs| && 0 <= j < |subs[i].pages| && x == JoinStr(subs[i].root, subs[i].pages[j]);
      if i < |subs| - 1 {
        assert subs[i] == init[i];
        assert SubPackagePage(init, x);
      } else {
        assert JoinEach(last.root, last.pages)[j] == x;
      }
    }
  }

  lemma LastPackagePage(subs: seq<SubPackage>, last: SubPackage, x: string)
    requires subs != [] && last == subs[|subs| - 1] && x in JoinEach(last.root, last.pages)
    ensures SubPackagePage(subs, x)
  {
    var j :| 0 <= j < |last.pages| && JoinEach(last.root, last.pages)[j] == x;
    assert 0 <= |subs| - 1 < |subs| && 0 <= j < |subs[|subs| - 1].pages|;
  }

  lemma InitPackagePage(subs: seq<SubPackage>, init: seq<SubPackage>, x: string)
    requires subs != [] && init == subs[..|subs| - 1] && SubPackagePage(init, x)
    ensures SubPackagePage(subs, x)
  {
    var i, j :| 0 <= i < |init| && 0 <= j < |init[i].pages| && x == JoinStr(init[i].root, init[i].pages[j]);
    assert subs[i] == init[i];
  }

  /** `pages.map((w) => path.join(root, w))`. */
  function JoinEach(root: string, pages: seq<string>): (joined: seq<string>)
    ensures |joined| == |pages|
    ensures forall i :: 0 <= i < |pages| ==> joined[i] == JoinStr(root, pages[i])
  {
    if pages == [] then [] else [JoinStr(root, pages[0])] + JoinEach(root, pages[1..])
  }

  /** `path.resolve(context, page)` for each page. */
  function ResolveEach(context: Path, pages: seq<string>): (paths: seq<Path>)
    requires NormalAbsolute(context)
    ensures |paths| == |pages|
    ensures forall i :: 0 <= i < |pages| ==> paths[i] == ResolveStr(context, pages[i])
    ensures forall i :: 0 <= i < |paths| ==> NormalAbsolute(paths[i])
  {
    if pages == [] then [] else [ResolveStr(context, pages[0])] + ResolveEach(context, pages[1..])
  }

  /** The root manifest of `entry`: `replaceExt(path.resolve(context, entry), ".json")`. */
  function AppConfigPath(context: Path, entry: string): Path
    requires NormalAbsolute(context)
  {
    ReplaceExt(ResolveStr(context, entry), ".json")
  }

  /** `analyzeAppJson(context, entry)`. */
  function AnalyzeAppJson(context: Path, entry: string, fs: FileMap): (r: Result<AppEntries, ResolveError>)
    requires NormalAbsolute(context)
    ensures AppConfigPath(context, entry) !in fs ==> r == Err(ManifestNotFound(AppConfigPath(context, entry)))
    ensures AppConfigPath(context, entry) in fs && fs[AppConfigPath(context, entry)].Malformed? ==>
      r == Err(ManifestParseError(AppConfigPath(context, entry)))
    ensures r.Ok? ==> AppConfigPath(context, entry) in fs && fs[AppConfigPath(context, entry)].Parsed?
  {
    var configPath := AppConfigPath(context, entry);
    if configPath !in fs then Err(ManifestNotFound(configPath))
    else if fs[configPath].Malformed? then Err(ManifestParseError(configPath))
    else AnalyzeConfig(context, fs, fs[configPath].manifest)
  }

  /** The part of `analyzeAppJson` after the root manifest has been parsed. */
  function AnalyzeConfig(context: Path, fs: FileMap, config: Manifest): (r: Result<AppEntries, ResolveError>)
    requires NormalAbsolute(context)
    ensures config.pages.None? ==> r == Err(PagesNotIterable)
    ensures r.Ok? ==> r.value.tabBarIcons == TabBarIcons(config.tabBar)
  {
    if config.pages.None? then Err(PagesNotIterable)
    else
      var pages := config.pages.value;
      var subPkgs := SubPackagePages(SubPackagesOf(config));
      var customPages := CustomPages(config.tabBar);
      var components :- CollectComponents(context, fs, pages, subPkgs, customPages);
      Ok(AppEntries(["app"] + pages + subPkgs + customPages + components, TabBarIcons(config.tabBar)))
  }

  /** The three component walks of `analyzeAppJson`, sharing one `components`
      set: from the pages, then the sub-package pages, then the custom pages. */
  function CollectComponents(context: Path, fs: FileMap, pages: seq<string>, subPkgs: seq<string>,
                             customPages: seq<string>): (r: Result<seq<string>, ResolveError>)
    requires NormalAbsolute(context)
    ensures r.Ok? ==> NoDups(r.value)
  {
    var fromPages :- VisitAll(context, fs, [], ResolveEach(context, pages));
    var fromSubPackages :- VisitAll(context, fs, fromPages, ResolveEach(context, subPkgs));
    VisitAll(context, fs, fromSubPackages, ResolveEach(context, customPages))
  }

  /** Every page in `pages` has its references recorded in `comps`. */
  ghost predicate PagesListed(context: Path, fs: FileMap, comps: seq<string>, pages: seq<string>)
    requires NormalAbsolute(context)
  {
    forall i :: 0 <= i < |pages| ==> RefsListed(context, fs, comps, ResolveStr(context, pages[i]))
  }

  lemma VisitAllListsPages(context: Path, fs: FileMap, comps: seq<string>, pages: seq<string>, more: seq<string>)
    requires NormalAbsolute(context)
    requires VisitAll(context, fs, comps, ResolveEach(context, pages)).Ok?
    requires IsPrefix(VisitAll(context, fs, comps, ResolveEach(context, pages)).value, more)
    ensures PagesListed(context, fs, more, pages)
    ensures ClosedRange(context, fs, more, |comps|, |VisitAll(context, fs, comps, ResolveEach(context, pages)).value|)
  {
    var paths := ResolveEach(context, pages);
    var r := VisitAll(context, fs, comps, paths).value;
    VisitAllComplete(context, fs, comps, paths);
    forall i | 0 <= i < |pages|
      ensures RefsListed(context, fs, more, ResolveStr(context, pages[i]))
    {
      RefsListedGrow(context, fs, r, more, paths[i]);
    }
    ClosedRangeGrow(context, fs, r, more, |comps|, |r|);
  }

  /** Where each part of `["app", ...pages, ...subPkgs, ...customPages, ...components]` sits. */
  lemma EntriesLayout(pages: seq<string>, subPkgs: seq<string>, custom: seq<string>, comps: seq<string>)
    ensures var es := ["app"] + pages + subPkgs + custom + comps;
            var n := 1 + |pages| + |subPkgs| + |custom|;
            && |es| == n + |comps|
            && es[0] == "app"
            && es[1..1 + |pages|] == pages
            && es[1 + |pages|..1 + |pages| + |subPkgs|] == subPkgs
            && es[1 + |pages| + |subPkgs|..n] == custom
            && es[n..] == comps
  {
    var es := ["app"] + pages + subPkgs + custom + comps;
    var n := 1 + |pages| + |subPkgs| + |custom|;
    assert es[1..1 + |pages|] == pages;
    assert es[1 + |pages|..1 + |pages| + |subPkgs|] == subPkgs;
    assert es[1 + |pages| + |subPkgs|..n] == custom;
    assert es[n..] == comps;
  }

  /** Every page of every group is expanded into `comps`, and so is every
      member of `comps`. */
  ghost predicate ComponentsComplete(context: Path, fs: FileMap, comps: seq<string>, pages: seq<string>,
                                     subPkgs: seq<string>, custom: seq<string>)
    requires NormalAbsolute(context)
  {
    && PagesListed(context, fs, comps, pages)
    && PagesListed(context, fs, comps, subPkgs)
    && PagesListed(context, fs, comps, custom)
    && ClosedRange(context, fs, comps, 0, |comps|)
  }

  /** Every component is discovered from the pages, and the set lists them
      in the depth-first order of the walk. */
  ghost predicate ComponentsSound(context: Path, fs: FileMap, comps: seq<string>, pages: seq<string>,
                                  subPkgs: seq<string>, custom: seq<string>)
    requires NormalAbsolute(context)
  {
    var roots := WalkRoots(context, pages, subPkgs, custom);
    && (exists via :: FoundDepthFirst(context, fs, roots, comps, via))
    && forall i :: 0 <= i < |comps| ==> Discovered(context, fs, roots, comps, i)
  }

  /** The components of a successful walk have readable manifests, are
      listed once, and include every non-plugin reference of every page and
      of every component. */
  lemma CollectComponentsComplete(context: Path, fs: FileMap, pages: seq<string>, subPkgs: seq<string>,
                                  custom: seq<string>)
    requires NormalAbsolute(context)
    requires CollectComponents(context, fs, pages, subPkgs, custom).Ok?
    ensures ComponentsComplete(context, fs, CollectComponents(context, fs, pages, subPkgs, custom).value,
                               pages, subPkgs, custom)
  {
    var c1 := VisitAll(context, fs, [], ResolveEach(context, pages)).value;
    var c2 := VisitAll(context, fs, c1, ResolveEach(context, subPkgs)).value;
    var c3 := VisitAll(context, fs, c2, ResolveEach(context, custom)).value;
    assert CollectComponents(context, fs, pages, subPkgs, custom).value == c3;
    PrefixTransitive(c1, c2, c3);
    VisitAllListsPages(context, fs, [], pages, c3);
    VisitAllListsPages(context, fs, c1, subPkgs, c3);
    VisitAllListsPages(context, fs, c2, custom, c3);
    ClosedRangeJoin(context, fs, c3, 0, |c1|, |c2|);
    ClosedRangeJoin(context, fs, c3, 0, |c2|, |c3|);
  }

  /** The entry list of `analyzeAppJson`: "app", the pages as written, the
      joined sub-package pages, the custom tab-bar page, then components that
      are listed once and complete for all of those pages. */
  ghost predicate EntriesShape(context: Path, fs: FileMap, es: seq<string>, pages: seq<string>,
                               subPkgs: seq<string>, custom: seq<string>)
    requires NormalAbsolute(context)
  {
    var n := 1 + |pages| + |subPkgs| + |custom|;
    && |es| >= n
    && es[0] == "app"
    && es[1..1 + |pages|] == pages
    && es[1 + |pages|..1 + |pages| + |subPkgs|] == subPkgs
    && es[1 + |pages| + |subPkgs|..n] == custom
    && NoDups(es[n..])
    && ComponentsComplete(context, fs, es[n..], pages, subPkgs, custom)
    && ComponentsSound(context, fs, es[n..], pages, subPkgs, custom)
  }

  /** What a successful `analyzeAppJson` returns: "app", the pages as
      written, the joined sub-package pages, the custom tab-bar page, then the
      discovered components. Only the components are de-duplicated; every
      component has a readable manifest, every non-plugin reference of
      every page and every component is among the components, and every
      component is such a reference of a page or of an earlier component,
      listed in depth-first pre-order. */
  lemma AnalyzeConfigEntries(context: Path, fs: FileMap, config: Manifest)
    requires NormalAbsolute(context)
    requires AnalyzeConfig(context, fs, config).Ok?
    ensures config.pages.Some?
    ensures EntriesShape(context, fs, AnalyzeConfig(context, fs, config).value.entries, config.pages.value,
                         SubPackagePages(SubPackagesOf(config)), CustomPages(config.tabBar))
  {
    var pages := config.pages.value;
    var subPkgs := SubPackagePages(SubPackagesOf(config));
    var custom := CustomPages(config.tabBar);
    var comps := CollectComponents(context, fs, pages, subPkgs, custom).value;
    var es := AnalyzeConfig(context, fs, config).value.entries;
    assert es == ["app"] + pages + subPkgs + custom + comps;
    CollectComponentsComplete(context, fs, pages, subPkgs, custom);
    CollectComponentsFound(context, fs, pages, subPkgs, custom);
    var roots := WalkRoots(context, pages, subPkgs, custom);
    var via :| FoundDepthFirst(context, fs, roots, comps, via);
    FoundSound(context, fs, roots, comps, via);
    EntriesOfComponents(context, fs, pages, subPkgs, custom, comps, es);
  }

  /** The entry list built from complete components has the promised shape. */
  lemma EntriesOfComponents(context: Path, fs: FileMap, pages: seq<string>, subPkgs: seq<string>,
                            custom: seq<string>, comps: seq<string>, es: seq<string>)
    requires NormalAbsolute(context)
    requires es == ["app"] + pages + subPkgs + custom + comps
    requires NoDups(comps) && ComponentsComplete(context, fs, comps, pages, subPkgs, custom)
    requires ComponentsSound(context, fs, comps, pages, subPkgs, custom)
    ensures EntriesShape(context, fs, es, pages, subPkgs, custom)
  {
    EntriesLayout(pages, subPkgs, custom, comps);
  }

  // ---------------------------------------------------------------------
  // handleEntries: script registration

  /** No extension before index `i` names an existing file. */
  ghost predicate FirstMatch(base: string, exts: seq<string>, existing: set<string>, i: int)
    requires 0 <= i <= |exts|
  {
    forall j :: 0 <= j < i ==> base + exts[j] !in existing
  }

  /** `getFullScriptPath(base)`: `base` with the first extension, in
      configured order, that names an existing file; "" when none does. The
      file system is the set `existing` of file names. */
  function FullScriptPath(base: string, exts: seq<string>, existing: set<string>): (r: string)
    ensures (forall i :: 0 <= i < |exts| ==> base + exts[i] !in existing) ==> r == ""
    ensures forall i :: 0 <= i < |exts| && base + exts[i] in existing && FirstMatch(base, exts, existing, i) ==>
      r == base + exts[i]
  {
    if exts == [] then ""
    else if base + exts[0] in existing then base + exts[0]
    else
      var r := FullScriptPath(base, exts[1..], existing);
      assert forall i :: 1 <= i < |exts| ==> exts[i] == exts[1..][i - 1];
      r
  }

  /** The script file of entry `item`: `getFullScriptPath(path.resolve(ctx, item))`. */
  function ScriptOf(ctx: Path, item: string, exts: seq<string>, existing: set<string>): string
    requires NormalAbsolute(ctx)
  {
    FullScriptPath(AbsStr(ResolveStr(ctx, item)), exts, existing)
  }

  /** `getFullScriptPath(path.resolve(ctx, item))` for every entry. */
  function ScriptPaths(ctx: Path, entries: seq<string>, exts: seq<string>, existing: set<string>)
    : (scripts: seq<string>)
    requires NormalAbsolute(ctx)
    ensures |scripts| == |entries|
    ensures forall i :: 0 <= i < |entries| ==> scripts[i] == ScriptOf(ctx, entries[i], exts, existing)
  {
    if entries == [] then []
    else [ScriptOf(ctx, entries[0], exts, existing)] + ScriptPaths(ctx, entries[1..], exts, existing)
  }

  /** Entry `name` has script file `request`. */
  ghost predicate Paired(entries: seq<string>, scripts: seq<string>, name: string, request: string)
    requires |scripts| == |entries|
  {
    exists i :: 0 <= i < |entries| && entries[i] == name && scripts[i] == request
  }

  /** The positions of the entries that have a script file, in increasing
      order. */
  function ScriptIndices(scripts: seq<string>): (idx: seq<nat>)
    ensures forall k :: 0 <= k < |idx| ==> idx[k] < |scripts| && scripts[idx[k]] != ""
    ensures forall k, l :: 0 <= k < l < |idx| ==> idx[k] < idx[l]
    ensures forall i :: 0 <= i < |scripts| && scripts[i] != "" ==> i in idx
    decreases |scripts|
  {
    if scripts == [] then []
    else
      var n := |scripts| - 1;
      var prior := ScriptIndices(scripts[..n]);
      assert forall k :: 0 <= k < |prior| ==> scripts[..n][prior[k]] == scripts[prior[k]];
      prior + (if scripts[n] != "" then [n] else [])
  }

  /** What the registration loop promises: one single-entry registration in
      the context per entry with a script file, in entry order, named by the
      entry and requesting its script; no other registration. */
  ghost predicate Registered(ctx: string, entries: seq<string>, scripts: seq<string>, ps: seq<EntryPlugin>)
    requires |scripts| == |entries|
  {
    var idx := ScriptIndices(scripts);
    && |ps| == |idx|
    && forall k :: 0 <= k < |ps| ==> ps[k] == SingleEntryPlugin(ctx, scripts[idx[k]], entries[idx[k]])
  }

  /** The loop of `handleEntries` over `this.entries`, given each entry's
      script file: every entry with a script file, in order, becomes a
      single-entry registration named by the entry, and no other does. */
  function ScriptRegistrations(ctx: string, entries: seq<string>, scripts: seq<string>): (ps: seq<EntryPlugin>)
    requires |scripts| == |entries|
    ensures Registered(ctx, entries, scripts, ps)
    decreases |entries|
  {
    if entries == [] then []
    else
      var n := |entries| - 1;
      var prior := ScriptRegistrations(ctx, entries[..n], scripts[..n]);
      var ps := if scripts[n] != "" then prior + [ItemToPlugin(ctx, SingleItem(scripts[n]), entries[n])] else prior;
      RegisteredStep(ctx, entries, scripts, prior, ps);
      ps
  }

  /** One iteration of the registration loop keeps `Registered`. */
  lemma RegisteredStep(ctx: string, entries: seq<string>, scripts: seq<string>, prior: seq<EntryPlugin>, ps: seq<EntryPlugin>)
    requires |scripts| == |entries| && entries != []
    requires Registered(ctx, entries[..|entries| - 1], scripts[..|entries| - 1], prior)
    requires ps == if scripts[|entries| - 1] != "" then
                     prior + [ItemToPlugin(ctx, SingleItem(scripts[|entries| - 1]), entries[|entries| - 1])]
                   else prior
    ensures Registered(ctx, entries, scripts, ps)
  {
    var n := |entries| - 1;
    var before := ScriptIndices(scripts[..n]);
    var idx := ScriptIndices(scripts);
    assert idx == before + (if scripts[n] != "" then [n] else []);
    forall k | 0 <= k < |prior|
      ensures ps[k] == SingleEntryPlugin(ctx, scripts[idx[k]], entries[idx[k]])
    {
      assert idx[k] == before[k] < n;
      assert scripts[..n][before[k]] == scripts[idx[k]] && entries[..n][before[k]] == entries[idx[k]];
    }
  }

  /** Read back: each registration pairs an entry with its non-empty
      script, and every entry with a script is registered. */
  lemma RegisteredPairs(ctx: string, entries: seq<string>, scripts: seq<string>, ps: seq<EntryPlugin>)
    requires |scripts| == |entries| && Registered(ctx, entries, scripts, ps)
    ensures forall k :: 0 <= k < |ps| ==>
      && ps[k].SingleEntryPlugin?
      && ps[k].context == ctx
      && ps[k].request != ""
      && Paired(entries, scripts, ps[k].name, ps[k].request)
    ensures forall i :: 0 <= i < |entries| && scripts[i] != "" ==> Named(ps, entries[i])
  {
    var idx := ScriptIndices(scripts);
    forall k | 0 <= k < |ps|
      ensures Paired(entries, scripts, ps[k].name, ps[k].request)
    {
      assert entries[idx[k]] == ps[k].name && scripts[idx[k]] == ps[k].request;
    }
    forall i | 0 <= i < |entries| && scripts[i] != ""
      ensures Named(ps, entries[i])
    {
      var k :| 0 <= k < |idx| && idx[k] == i;
      assert ps[k].name == entries[i];
    }
  }

  /** Some registration in `ps` carries the entry name `x`. */
  ghost predicate Named(ps: seq<EntryPlugin>, x: string) {
    exists k :: 0 <= k < |ps| && ps[k].name == x
  }

  /** Every registration of `handleEntries`: the script entries in entry
      order, then one multi-entry registration named `assetsChunkName` for the
      companion files, each resolved against the context. The companion
      files are those the glob scan found; the scan itself is a parameter. */
  function HandleEntries(ctx: Path, entry: string, fs: FileMap, exts: seq<string>, existing: set<string>,
                         assets: seq<string>, assetsChunkName: string): (r: Result<seq<EntryPlugin>, ResolveError>)
    requires NormalAbsolute(ctx)
    ensures r.Ok? <==> AnalyzeAppJson(ctx, entry, fs).Ok?
    ensures r.Ok? ==> |r.value| >= 1
    ensures r.Ok? ==>
      r.value[|r.value| - 1] == MultiEntryPlugin(AbsStr(ctx), ResolveAll(ctx, assets), assetsChunkName)
    ensures r.Ok? ==>
      var entries := AnalyzeAppJson(ctx, entry, fs).value.entries;
      Registered(AbsStr(ctx), entries, ScriptPaths(ctx, entries, exts, existing), r.value[..|r.value| - 1])
  {
    var app :- AnalyzeAppJson(ctx, entry, fs);
    var scripts := ScriptRegistrations(AbsStr(ctx), app.entries, ScriptPaths(ctx, app.entries, exts, existing));
    var ap := ItemToPlugin(AbsStr(ctx), ArrayItem(ResolveAll(ctx, assets)), assetsChunkName);
    assert (scripts + [ap])[..|scripts|] == scripts;
    Ok(scripts + [ap])
  }

  /** `assetsEntries.map((item) => path.resolve(ctx, item))`. */
  function ResolveAll(ctx: Path, items: seq<string>): (rs: seq<string>)
    requires NormalAbsolute(ctx)
    ensures |rs| == |items|
    ensures forall i :: 0 <= i < |items| ==> rs[i] == AbsStr(ResolveStr(ctx, items[i]))
  {
    if items == [] then [] else [AbsStr(ResolveStr(ctx, items[0]))] + ResolveAll(ctx, items[1..])
  }
}
