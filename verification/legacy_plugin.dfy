/** The first draft of the mini-program plugin (`plugins/MinaWebpackPlugin.js`):
    `inflateEntries` walks from the app script through the `pages` and
    `usingComponents` of each script's sibling `.json` file and records, once
    each and in depth-first pre-order, every script reached before a missing
    child aborts the loop it is in; `apply` then registers each recorded
    script as an entry named by its context-relative path without
    extension.

    The file system maps resolved paths to their content; a path in the map
    exists. Errors inside the expansion of a configuration are caught where
    the draft catches them, so only the outermost call can fail. */
module LegacyPlugin {
  import opened Wrappers
  import opened Seqs
  import opened Strings
  import opened Paths
  import opened EntryPlugins

  /** `configData[key]` as `typeof item === 'object'` and `Object.values`
      see it: absent, some non-object value, `null` (an object whose
      `Object.values` throws), or an object or array with its values. */
  datatype Field = Absent | NotObject | Null | Values(vals: seq<string>)

  /** A file's content as `JSON.parse` sees it. */
  datatype FileContent = Unparseable | Config(pages: Field, usingComponents: Field)

  type Files = map<Path, FileContent>

  /** The `entries` array after a call, and whether the call threw. */
  datatype Inflated = Inflated(entries: seq<Path>, thrown: bool)

  /** `replaceExt(script, '.json')`: the configuration beside a script. */
  function ConfigOf(script: Path): Path {
    ReplaceExt(script, ".json")
  }

  /** The directory children of a configuration resolve against. */
  function ChildBase(script: Path): (r: Path)
    requires NormalAbsolute(script)
    ensures NormalAbsolute(r)
  {
    Dirname(ConfigOf(script))
  }

  /** Where `${v}.js` from the configuration of `script` resolves. */
  function ChildPath(script: Path, v: string): (r: Path)
    requires NormalAbsolute(script)
    ensures NormalAbsolute(r)
  {
    ResolveStr(ChildBase(script), v + ".js")
  }

  /** The values the configuration of `script` lists under `pages` and
      `usingComponents`. */
  ghost predicate ListedChild(fs: Files, script: Path, v: string) {
    && ConfigOf(script) in fs
    && fs[ConfigOf(script)].Config?
    && ((fs[ConfigOf(script)].pages.Values? && v in fs[ConfigOf(script)].pages.vals) ||
        (fs[ConfigOf(script)].usingComponents.Values? && v in fs[ConfigOf(script)].usingComponents.vals))
  }

  /** `c` is listed as a child of `parent`. */
  ghost predicate ChildOf(fs: Files, parent: Path, c: Path)
    requires NormalAbsolute(parent)
  {
    exists v :: ListedChild(fs, parent, v) && c == ChildPath(parent, v)
  }

  ghost predicate AllNormal(es: seq<Path>) {
    forall i :: 0 <= i < |es| ==> NormalAbsolute(es[i])
  }

  /** Entry `i` of `es` is a child of an earlier entry. */
  ghost predicate HasParentBefore(fs: Files, es: seq<Path>, i: int)
    requires 0 <= i < |es| && AllNormal(es)
  {
    exists j :: 0 <= j < i && ChildOf(fs, es[j], es[i])
  }

  /** Every entry from index `lo` on has a parent before it. */
  ghost predicate ParentsBefore(fs: Files, es: seq<Path>, lo: int)
    requires AllNormal(es)
  {
    forall i :: 0 <= lo <= i < |es| ==> HasParentBefore(fs, es, i)
  }

  // ---------------------------------------------------------------------
  // Termination

  /** Existing files not yet recorded. */
  ghost function Unrecorded(fs: Files, es: seq<Path>): nat {
    |set p | p in fs.Keys && p !in es|
  }

  lemma UnrecordedShrinks(fs: Files, es: seq<Path>, p: Path)
    requires p in fs && p !in es
    ensures Unrecorded(fs, es + [p]) < Unrecorded(fs, es)
  {
    var before := set q | q in fs.Keys && q !in es;
    var after := set q | q in fs.Keys && q !in es + [p];
    assert p in before && p !in after;
    SubsetCardinality(after, before);
  }

  lemma UnrecordedMonotone(fs: Files, es: seq<Path>, more: seq<Path>)
    requires IsPrefix(es, more)
    ensures Unrecorded(fs, more) <= Unrecorded(fs, es)
  {
    var before := set q | q in fs.Keys && q !in es;
    var after := set q | q in fs.Keys && q !in more;
    assert forall x :: x in es ==> x in more by {
      assert more[..|es|] == es;
    }
    SubsetCardinality(after, before);
  }

  // ---------------------------------------------------------------------
  // inflateEntries

  /** `inflateEntries(entries, dir, entry)`. It throws iff `entry` is empty or
      names no existing file; otherwise a new script is recorded and its
      configuration, if present and parseable, expanded. */
  function Inflate(fs: Files, es: seq<Path>, dir: Path, entry: string): (r: Inflated)
    requires NormalAbsolute(dir)
    ensures IsPrefix(es, r.entries)
    ensures r.thrown <==> entry == "" || ResolveStr(dir, entry) !in fs
    ensures r.thrown ==> r.entries == es
    decreases Unrecorded(fs, es), 0, 0
  {
    var cur := ResolveStr(dir, entry);
    if entry == "" || cur !in fs then Inflated(es, true)
    else if cur in es then Inflated(es, false)
    else
      UnrecordedShrinks(fs, es, cur);
      Inflated(ExpandConfig(fs, es + [cur], cur), false)
  }

  /** The `try` block: a missing or unparseable configuration adds nothing;
      otherwise "pages" then "usingComponents" are expanded, and an error in
      the first skips the second. */
  function ExpandConfig(fs: Files, es: seq<Path>, script: Path): (r: seq<Path>)
    requires NormalAbsolute(script)
    ensures IsPrefix(es, r)
    decreases Unrecorded(fs, es), 3, 0
  {
    var cfg := ConfigOf(script);
    if cfg !in fs || fs[cfg].Unparseable? then es
    else
      var (afterPages, aborted) := ExpandField(fs, es, script, fs[cfg].pages);
      if aborted then afterPages
      else
        UnrecordedMonotone(fs, es, afterPages);
        var (afterComponents, _) := ExpandField(fs, afterPages, script, fs[cfg].usingComponents);
        PrefixTransitive(es, afterPages, afterComponents);
        afterComponents
  }

  /** One key of the `preserveList`: non-objects are skipped, `null` throws
      (reported as `aborted`), and the values of an object are expanded. */
  function ExpandField(fs: Files, es: seq<Path>, script: Path, field: Field): (r: (seq<Path>, bool))
    requires NormalAbsolute(script)
    ensures IsPrefix(es, r.0)
    decreases Unrecorded(fs, es), 2, 0
  {
    match field
    case Absent => (es, false)
    case NotObject => (es, false)
    case Null => (es, true)
    case Values(vals) => InflateChildren(fs, es, script, vals)
  }

  /** `Object.values(item).forEach(...)`: each value `v` is inflated as
      `${v}.js` next to the configuration; the first child that throws ends
      the loop (reported as `aborted`). */
  function InflateChildren(fs: Files, es: seq<Path>, script: Path, vals: seq<string>): (r: (seq<Path>, bool))
    requires NormalAbsolute(script)
    ensures IsPrefix(es, r.0)
    decreases Unrecorded(fs, es), 1, |vals|
  {
    if vals == [] then (es, false)
    else
      var child := Inflate(fs, es, ChildBase(script), vals[0] + ".js");
      if child.thrown then (child.entries, true)
      else
        UnrecordedMonotone(fs, es, child.entries);
        var r := InflateChildren(fs, child.entries, script, vals[1..]);
        PrefixTransitive(es, child.entries, r.0);
        r
  }

  // ---------------------------------------------------------------------
  // What the walk records

  /** Everything recorded exists, is resolved, and is recorded once. */
  ghost predicate WellFormed(fs: Files, es: seq<Path>) {
    && NoDups(es)
    && AllNormal(es)
    && (forall i :: 0 <= i < |es| ==> es[i] in fs)
  }

  lemma {:induction false} InflateWellFormed(fs: Files, es: seq<Path>, dir: Path, entry: string)
    requires NormalAbsolute(dir) && WellFormed(fs, es)
    ensures WellFormed(fs, Inflate(fs, es, dir, entry).entries)
    decreases Unrecorded(fs, es), 0, 0
  {
    var cur := ResolveStr(dir, entry);
    if entry != "" && cur in fs && cur !in es {
      UnrecordedShrinks(fs, es, cur);
      ExpandConfigWellFormed(fs, es + [cur], cur);
    }
  }

  lemma {:induction false} ExpandConfigWellFormed(fs: Files, es: seq<Path>, script: Path)
    requires NormalAbsolute(script) && WellFormed(fs, es)
    ensures WellFormed(fs, ExpandConfig(fs, es, script))
    decreases Unrecorded(fs, es), 3, 0
  {
    var cfg := ConfigOf(script);
    if cfg in fs && fs[cfg].Config? {
      ExpandFieldWellFormed(fs, es, script, fs[cfg].pages);
      var (afterPages, aborted) := ExpandField(fs, es, script, fs[cfg].pages);
      if !aborted {
        UnrecordedMonotone(fs, es, afterPages);
        ExpandFieldWellFormed(fs, afterPages, script, fs[cfg].usingComponents);
      }
    }
  }

  lemma {:induction false} ExpandFieldWellFormed(fs: Files, es: seq<Path>, script: Path, field: Field)
    requires NormalAbsolute(script) && WellFormed(fs, es)
    ensures WellFormed(fs, ExpandField(fs, es, script, field).0)
    decreases Unrecorded(fs, es), 2, 0
  {
    if field.Values? {
      InflateChildrenWellFormed(fs, es, script, field.vals);
    }
  }

  lemma {:induction false} InflateChildrenWellFormed(fs: Files, es: seq<Path>, script: Path, vals: seq<string>)
    requires NormalAbsolute(script) && WellFormed(fs, es)
    ensures WellFormed(fs, InflateChildren(fs, es, script, vals).0)
    decreases Unrecorded(fs, es), 1, |vals|
  {
    if vals != [] {
      var child := Inflate(fs, es, ChildBase(script), vals[0] + ".js");
      InflateWellFormed(fs, es, ChildBase(script), vals[0] + ".js");
      if !child.thrown {
        UnrecordedMonotone(fs, es, child.entries);
        InflateChildrenWellFormed(fs, child.entries, script, vals[1..]);
      }
    }
  }

  // ---------------------------------------------------------------------
  // Pre-order: every recorded script after the first is a child of one
  // recorded before it

  lemma ParentsBeforeGrow(fs: Files, a: seq<Path>, b: seq<Path>, lo: int)
    requires AllNormal(a) && AllNormal(b) && IsPrefix(a, b)
    requires ParentsBefore(fs, a, lo)
    ensures forall i :: 0 <= lo <= i < |a| ==> HasParentBefore(fs, b, i)
  {
    forall i | 0 <= lo <= i < |a|
      ensures HasParentBefore(fs, b, i)
    {
      assert HasParentBefore(fs, a, i);
      var j :| 0 <= j < i && ChildOf(fs, a[j], a[i]);
      assert a[j] == b[j] && a[i] == b[i];
    }
  }

  /** The script a call records first is the one it was asked for. */
  lemma {:induction false} InflatePreOrder(fs: Files, es: seq<Path>, dir: Path, entry: string)
    requires NormalAbsolute(dir) && WellFormed(fs, es)
    ensures var r := Inflate(fs, es, dir, entry).entries;
            && AllNormal(r)
            && (|r| > |es| ==> r[|es|] == ResolveStr(dir, entry))
            && ParentsBefore(fs, r, |es| + 1)
    decreases Unrecorded(fs, es), 0, 0, 0
  {
    InflateWellFormed(fs, es, dir, entry);
    var cur := ResolveStr(dir, entry);
    if entry != "" && cur in fs && cur !in es {
      UnrecordedShrinks(fs, es, cur);
      var es1 := es + [cur];
      assert WellFormed(fs, es1) by {
        assert forall i :: 0 <= i < |es| ==> es1[i] == es[i];
      }
      ExpandConfigPreOrder(fs, es1, cur);
      var r := ExpandConfig(fs, es1, cur);
      assert r[|es|] == es1[|es|];
    }
  }

  lemma {:induction false} ExpandConfigPreOrder(fs: Files, es: seq<Path>, script: Path)
    requires NormalAbsolute(script) && WellFormed(fs, es) && script in es
    ensures AllNormal(ExpandConfig(fs, es, script))
    ensures ParentsBefore(fs, ExpandConfig(fs, es, script), |es|)
    decreases Unrecorded(fs, es), 3, 0, 0
  {
    ExpandConfigWellFormed(fs, es, script);
    var cfg := ConfigOf(script);
    if cfg in fs && fs[cfg].Config? {
      var (afterPages, aborted) := ExpandField(fs, es, script, fs[cfg].pages);
      ExpandFieldWellFormed(fs, es, script, fs[cfg].pages);
      ExpandFieldPreOrder(fs, es, script, fs[cfg].pages);
      if !aborted {
        UnrecordedMonotone(fs, es, afterPages);
        assert script in afterPages by { assert afterPages[..|es|] == es; }
        var (afterComponents, _) := ExpandField(fs, afterPages, script, fs[cfg].usingComponents);
        ExpandFieldWellFormed(fs, afterPages, script, fs[cfg].usingComponents);
        ExpandFieldPreOrder(fs, afterPages, script, fs[cfg].usingComponents);
        ParentsBeforeGrow(fs, afterPages, afterComponents, |es|);
      }
    }
  }

  /** The values of `field` are listed children of `script`. */
  ghost predicate FieldListed(fs: Files, script: Path, field: Field) {
    field.Values? ==> forall v :: v in field.vals ==> ListedChild(fs, script, v)
  }

  lemma {:induction false} ExpandFieldPreOrder(fs: Files, es: seq<Path>, script: Path, field: Field)
    requires NormalAbsolute(script) && WellFormed(fs, es) && script in es
    requires ConfigOf(script) in fs && fs[ConfigOf(script)].Config?
    requires field == fs[ConfigOf(script)].pages || field == fs[ConfigOf(script)].usingComponents
    ensures AllNormal(ExpandField(fs, es, script, field).0)
    ensures ParentsBefore(fs, ExpandField(fs, es, script, field).0, |es|)
    decreases Unrecorded(fs, es), 2, 0, 0
  {
    ExpandFieldWellFormed(fs, es, script, field);
    if field.Values? {
      InflateChildrenPreOrder(fs, es, script, field.vals);
    }
  }

  /** The first script a child walk records is a child of `script`. */
  lemma FirstChildParented(fs: Files, es: seq<Path>, script: Path, v: string, ce: seq<Path>)
    requires AllNormal(es) && AllNormal(ce) && script in es && IsPrefix(es, ce)
    requires ListedChild(fs, script, v) && NormalAbsolute(script)
    requires |ce| > |es| ==> ce[|es|] == ChildPath(script, v)
    requires ParentsBefore(fs, ce, |es| + 1)
    ensures ParentsBefore(fs, ce, |es|)
  {
    if |ce| > |es| {
      var j :| 0 <= j < |es| && es[j] == script;
      assert ce[j] == script;
      assert ChildOf(fs, ce[j], ce[|es|]);
      assert HasParentBefore(fs, ce, |es|);
    }
  }

  lemma {:induction false} InflateChildrenPreOrder(fs: Files, es: seq<Path>, script: Path, vals: seq<string>)
    requires NormalAbsolute(script) && WellFormed(fs, es) && script in es
    requires forall v :: v in vals ==> ListedChild(fs, script, v)
    ensures AllNormal(InflateChildren(fs, es, script, vals).0)
    ensures ParentsBefore(fs, InflateChildren(fs, es, script, vals).0, |es|)
    decreases Unrecorded(fs, es), 1, |vals|, 1
  {
    InflateChildrenWellFormed(fs, es, script, vals);
    if vals != [] {
      var child := Inflate(fs, es, ChildBase(script), vals[0] + ".js");
      InflateWellFormed(fs, es, ChildBase(script), vals[0] + ".js");
      InflatePreOrder(fs, es, ChildBase(script), vals[0] + ".js");
      var ce := child.entries;
      FirstChildParented(fs, es, script, vals[0], ce);
      if !child.thrown {
        UnrecordedMonotone(fs, es, ce);
        ChildrenTail(fs, es, script, vals, ce);
      }
    }
  }

  /** The remaining children, walked after the first one's entries `ce`. */
  lemma {:induction false} ChildrenTail(fs: Files, es: seq<Path>, script: Path, vals: seq<string>, ce: seq<Path>)
    requires NormalAbsolute(script) && WellFormed(fs, es) && script in es && vals != []
    requires forall v :: v in vals ==> ListedChild(fs, script, v)
    requires WellFormed(fs, ce) && IsPrefix(es, ce) && ParentsBefore(fs, ce, |es|)
    requires Unrecorded(fs, ce) <= Unrecorded(fs, es)
    ensures AllNormal(InflateChildren(fs, ce, script, vals[1..]).0)
    ensures ParentsBefore(fs, InflateChildren(fs, ce, script, vals[1..]).0, |es|)
    decreases Unrecorded(fs, es), 1, |vals|, 0
  {
    assert script in ce by { assert ce[..|es|] == es; }
    InflateChildrenPreOrder(fs, ce, script, vals[1..]);
    var r := InflateChildren(fs, ce, script, vals[1..]).0;
    ParentsBeforeGrow(fs, ce, r, |es|);
  }

  // ---------------------------------------------------------------------
  // The `try`/`catch` around a configuration

  /** The child loop of one key stops with an error exactly when one of the
      listed children names no existing script; the error is caught by the
      caller, not thrown on. */
  lemma {:induction false} InflateChildrenAborts(fs: Files, es: seq<Path>, script: Path, vals: seq<string>)
    requires NormalAbsolute(script)
    ensures InflateChildren(fs, es, script, vals).1 <==>
            exists i :: 0 <= i < |vals| && ChildPath(script, vals[i]) !in fs
    decreases |vals|
  {
    if vals != [] {
      var child := Inflate(fs, es, ChildBase(script), vals[0] + ".js");
      assert (vals[0] + ".js")[|vals[0]|] == '.';
      if child.thrown {
        assert ChildPath(script, vals[0]) !in fs;
      } else {
        InflateChildrenAborts(fs, child.entries, script, vals[1..]);
        assert forall i :: 1 <= i < |vals| ==> vals[i] == vals[1..][i - 1];
        if exists i :: 0 <= i < |vals| && ChildPath(script, vals[i]) !in fs {
          var i :| 0 <= i < |vals| && ChildPath(script, vals[i]) !in fs;
          assert i != 0;
          assert ChildPath(script, vals[1..][i - 1]) !in fs;
        }
      }
    }
  }

  /** A new script without a readable configuration is recorded and nothing
      else is. */
  lemma NoConfigNoChildren(fs: Files, es: seq<Path>, dir: Path, entry: string)
    requires NormalAbsolute(dir) && entry != ""
    requires ResolveStr(dir, entry) in fs && ResolveStr(dir, entry) !in es
    requires ConfigOf(ResolveStr(dir, entry)) !in fs || fs[ConfigOf(ResolveStr(dir, entry))].Unparseable?
    ensures Inflate(fs, es, dir, entry) == Inflated(es + [ResolveStr(dir, entry)], false)
  {
  }

  // ---------------------------------------------------------------------
  // Completeness: every listed child before the first missing one is
  // recorded

  /** The children of `script` listed in `vals` up to index `i` all exist. */
  ghost predicate AllExist(fs: Files, script: Path, vals: seq<string>, i: int)
    requires NormalAbsolute(script) && i < |vals|
  {
    forall j :: 0 <= j <= i ==> ChildPath(script, vals[j]) in fs
  }

  /** Every value of `vals` before the first missing child has its script
      recorded in `r`. */
  ghost predicate ChildrenRecorded(fs: Files, script: Path, vals: seq<string>, r: seq<Path>)
    requires NormalAbsolute(script)
  {
    forall i :: 0 <= i < |vals| && AllExist(fs, script, vals, i) ==> ChildPath(script, vals[i]) in r
  }

  /** The key's loop throws: `null`, or an object with a missing child. */
  ghost predicate FieldAborts(fs: Files, script: Path, field: Field)
    requires NormalAbsolute(script)
  {
    field.Null? ||
    (field.Values? && exists i :: 0 <= i < |field.vals| && ChildPath(script, field.vals[i]) !in fs)
  }

  ghost predicate FieldRecorded(fs: Files, script: Path, field: Field, r: seq<Path>)
    requires NormalAbsolute(script)
  {
    field.Values? ==> ChildrenRecorded(fs, script, field.vals, r)
  }

  /** `script` has been expanded into `r`: with a parseable configuration,
      its `pages` are recorded up to the first missing one, and its
      `usingComponents` too unless the `pages` loop threw. */
  ghost predicate Expanded(fs: Files, script: Path, r: seq<Path>)
    requires NormalAbsolute(script)
  {
    ConfigOf(script) in fs && fs[ConfigOf(script)].Config? ==>
      && FieldRecorded(fs, script, fs[ConfigOf(script)].pages, r)
      && (!FieldAborts(fs, script, fs[ConfigOf(script)].pages) ==>
            FieldRecorded(fs, script, fs[ConfigOf(script)].usingComponents, r))
  }

  /** The recorded scripts at positions `lo..hi` are all expanded. */
  ghost predicate ExpandedRange(fs: Files, r: seq<Path>, lo: int, hi: int)
  {
    && 0 <= lo && hi <= |r| && AllNormal(r)
    && forall i :: lo <= i < hi ==> Expanded(fs, r[i], r)
  }

  lemma ExpandedGrow(fs: Files, script: Path, a: seq<Path>, b: seq<Path>)
    requires NormalAbsolute(script) && Expanded(fs, script, a) && IsPrefix(a, b)
    ensures Expanded(fs, script, b)
  {
    assert forall x :: x in a ==> x in b by {
      assert b[..|a|] == a;
    }
  }

  lemma ExpandedRangeGrow(fs: Files, a: seq<Path>, b: seq<Path>, lo: int, hi: int)
    requires ExpandedRange(fs, a, lo, hi) && IsPrefix(a, b) && AllNormal(b)
    ensures ExpandedRange(fs, b, lo, hi)
  {
    forall i | lo <= i < hi
      ensures Expanded(fs, b[i], b)
    {
      assert b[i] == a[i];
      ExpandedGrow(fs, a[i], a, b);
    }
  }

  lemma ExpandedRangeJoin(fs: Files, r: seq<Path>, lo: int, mid: int, hi: int)
    requires ExpandedRange(fs, r, lo, mid) && ExpandedRange(fs, r, mid, hi)
    ensures ExpandedRange(fs, r, lo, hi)
  {
  }

  lemma {:induction false} InflateComplete(fs: Files, es: seq<Path>, dir: Path, entry: string)
    requires NormalAbsolute(dir) && WellFormed(fs, es)
    ensures var r := Inflate(fs, es, dir, entry);
            && (!r.thrown ==> ResolveStr(dir, entry) in r.entries)
            && ExpandedRange(fs, r.entries, |es|, |r.entries|)
    decreases Unrecorded(fs, es), 0, 0
  {
    InflateWellFormed(fs, es, dir, entry);
    var cur := ResolveStr(dir, entry);
    if entry != "" && cur in fs && cur !in es {
      UnrecordedShrinks(fs, es, cur);
      var es1 := es + [cur];
      assert WellFormed(fs, es1) by {
        assert forall i :: 0 <= i < |es| ==> es1[i] == es[i];
      }
      ExpandConfigComplete(fs, es1, cur);
      var r := ExpandConfig(fs, es1, cur);
      assert r[|es|] == cur by { assert r[..|es1|] == es1; }
      assert Expanded(fs, r[|es|], r);
    }
  }

  lemma {:induction false} ExpandConfigComplete(fs: Files, es: seq<Path>, script: Path)
    requires NormalAbsolute(script) && WellFormed(fs, es)
    ensures Expanded(fs, script, ExpandConfig(fs, es, script))
    ensures ExpandedRange(fs, ExpandConfig(fs, es, script), |es|, |ExpandConfig(fs, es, script)|)
    decreases Unrecorded(fs, es), 3, 0
  {
    ExpandConfigWellFormed(fs, es, script);
    var cfg := ConfigOf(script);
    if cfg in fs && fs[cfg].Config? {
      var pages := fs[cfg].pages;
      ExpandFieldComplete(fs, es, script, pages);
      ExpandFieldWellFormed(fs, es, script, pages);
      var (afterPages, aborted) := ExpandField(fs, es, script, pages);
      if !aborted {
        UnrecordedMonotone(fs, es, afterPages);
        var comps := fs[cfg].usingComponents;
        ExpandFieldComplete(fs, afterPages, script, comps);
        ExpandFieldWellFormed(fs, afterPages, script, comps);
        var r := ExpandField(fs, afterPages, script, comps).0;
        ConfigTail(fs, es, script, afterPages, r);
      }
    }
  }

  /** Joining the two keys' results once `usingComponents` has run. */
  lemma ConfigTail(fs: Files, es: seq<Path>, script: Path, afterPages: seq<Path>, r: seq<Path>)
    requires NormalAbsolute(script) && ConfigOf(script) in fs && fs[ConfigOf(script)].Config?
    requires IsPrefix(es, afterPages) && IsPrefix(afterPages, r) && AllNormal(r)
    requires FieldRecorded(fs, script, fs[ConfigOf(script)].pages, afterPages)
    requires FieldRecorded(fs, script, fs[ConfigOf(script)].usingComponents, r)
    requires ExpandedRange(fs, afterPages, |es|, |afterPages|)
    requires ExpandedRange(fs, r, |afterPages|, |r|)
    ensures Expanded(fs, script, r)
    ensures ExpandedRange(fs, r, |es|, |r|)
  {
    assert forall x :: x in afterPages ==> x in r by {
      assert r[..|afterPages|] == afterPages;
    }
    ExpandedRangeGrow(fs, afterPages, r, |es|, |afterPages|);
    ExpandedRangeJoin(fs, r, |es|, |afterPages|, |r|);
  }

  lemma {:induction false} ExpandFieldComplete(fs: Files, es: seq<Path>, script: Path, field: Field)
    requires NormalAbsolute(script) && WellFormed(fs, es)
    ensures var r := ExpandField(fs, es, script, field);
            && FieldRecorded(fs, script, field, r.0)
            && (r.1 <==> FieldAborts(fs, script, field))
            && ExpandedRange(fs, r.0, |es|, |r.0|)
    decreases Unrecorded(fs, es), 2, 0
  {
    ExpandFieldWellFormed(fs, es, script, field);
    if field.Values? {
      InflateChildrenComplete(fs, es, script, field.vals);
      InflateChildrenAborts(fs, es, script, field.vals);
    }
  }

  lemma {:induction false} InflateChildrenComplete(fs: Files, es: seq<Path>, script: Path, vals: seq<string>)
    requires NormalAbsolute(script) && WellFormed(fs, es)
    ensures ChildrenRecorded(fs, script, vals, InflateChildren(fs, es, script, vals).0)
    ensures ExpandedRange(fs, InflateChildren(fs, es, script, vals).0, |es|, |InflateChildren(fs, es, script, vals).0|)
    decreases Unrecorded(fs, es), 1, |vals|
  {
    InflateChildrenWellFormed(fs, es, script, vals);
    if vals != [] {
      var child := Inflate(fs, es, ChildBase(script), vals[0] + ".js");
      InflateComplete(fs, es, ChildBase(script), vals[0] + ".js");
      InflateWellFormed(fs, es, ChildBase(script), vals[0] + ".js");
      if child.thrown {
        assert ChildPath(script, vals[0]) !in fs;
        assert forall i :: 0 <= i < |vals| ==> !AllExist(fs, script, vals, i);
      } else {
        UnrecordedMonotone(fs, es, child.entries);
        InflateChildrenComplete(fs, child.entries, script, vals[1..]);
        InflateChildrenWellFormed(fs, child.entries, script, vals[1..]);
        ChildrenRecordedCons(fs, es, script, vals, child.entries, InflateChildren(fs, child.entries, script, vals[1..]).0);
      }
    }
  }

  /** The first child's walk `ce` followed by the rest of the loop `r`. */
  lemma ChildrenRecordedCons(fs: Files, es: seq<Path>, script: Path, vals: seq<string>, ce: seq<Path>, r: seq<Path>)
    requires NormalAbsolute(script) && vals != [] && IsPrefix(es, ce) && IsPrefix(ce, r) && AllNormal(r)
    requires ChildPath(script, vals[0]) in ce
    requires ExpandedRange(fs, ce, |es|, |ce|)
    requires ChildrenRecorded(fs, script, vals[1..], r)
    requires ExpandedRange(fs, r, |ce|, |r|)
    ensures ChildrenRecorded(fs, script, vals, r)
    ensures ExpandedRange(fs, r, |es|, |r|)
  {
    assert ChildPath(script, vals[0]) in r by { assert r[..|ce|] == ce; }
    forall i | 1 <= i < |vals| && AllExist(fs, script, vals, i)
      ensures ChildPath(script, vals[i]) in r
    {
      assert vals[1..][i - 1] == vals[i];
      assert AllExist(fs, script, vals[1..], i - 1) by {
        forall j | 0 <= j <= i - 1 ensures ChildPath(script, vals[1..][j]) in fs {
          assert vals[1..][j] == vals[j + 1];
        }
      }
    }
    ExpandedRangeGrow(fs, ce, r, |es|, |ce|);
    ExpandedRangeJoin(fs, r, |es|, |ce|, |r|);
  }

  // ---------------------------------------------------------------------
  // Depth-first order: a parent index and a value position for every
  // recorded script after the first, such that the scripts between a parent
  // and its child all descend from that parent, and the children of one
  // parent come in the order its configuration lists them

  /** The values of a field that `Object.values` yields. */
  function FieldVals(field: Field): (vs: seq<string>)
    ensures field.Values? ==> vs == field.vals
    ensures !field.Values? ==> vs == []
  {
    if field.Values? then field.vals else []
  }

  /** The values the configuration of `script` lists, in the order the walk
      visits them: `pages` first, then `usingComponents`. */
  ghost function ChildVals(fs: Files, script: Path): seq<string> {
    var cfg := ConfigOf(script);
    if cfg in fs && fs[cfg].Config? then FieldVals(fs[cfg].pages) + FieldVals(fs[cfg].usingComponents)
    else []
  }

  /** Entry `i` was recorded while expanding entry `par[i]`, as the script of
      value `pos[i]` of its configuration; everything recorded in between
      has a parent at or after `par[i]`; earlier children of `par[i]` come
      from earlier values; and the script of every earlier value is recorded
      before entry `i`. */
  ghost predicate DfsAt(fs: Files, es: seq<Path>, par: seq<int>, pos: seq<int>, i: int)
    requires AllNormal(es) && |par| == |es| == |pos| && 0 <= i < |es|
  {
    && 0 <= par[i] < i
    && 0 <= pos[i] < |ChildVals(fs, es[par[i]])|
    && es[i] == ChildPath(es[par[i]], ChildVals(fs, es[par[i]])[pos[i]])
    && (forall k :: par[i] < k < i ==> par[k] >= par[i])
    && (forall k :: 0 <= k < i && par[k] == par[i] ==> pos[k] < pos[i])
    && (forall q :: 0 <= q < pos[i] ==> ChildPath(es[par[i]], ChildVals(fs, es[par[i]])[q]) in es[..i])
  }

  /** `par` and `pos` are a depth-first assignment for the entries from `lo`. */
  ghost predicate DepthFirst(fs: Files, es: seq<Path>, par: seq<int>, pos: seq<int>, lo: int)
  {
    && AllNormal(es) && |par| == |es| == |pos|
    && (forall k :: 0 <= k < |par| ==> par[k] < k)
    && forall i :: 0 <= lo <= i < |es| ==> DfsAt(fs, es, par, pos, i)
  }

  /** Entry `p` is still being expanded: everything after it descends from it. */
  ghost predicate Open(par: seq<int>, p: int)
  {
    0 <= p < |par| && forall k :: p < k < |par| ==> par[k] >= p
  }

  /** Every child of `p` recorded so far comes from a value before `off`. */
  ghost predicate SiblingsBelow(par: seq<int>, pos: seq<int>, p: int, off: int)
    requires |par| == |pos|
  {
    forall k :: 0 <= k < |par| && par[k] == p ==> pos[k] < off
  }

  /** The scripts of the first `off` values of entry `p` are recorded. */
  ghost predicate Listed(fs: Files, es: seq<Path>, p: int, off: int)
    requires 0 <= p < |es| && NormalAbsolute(es[p])
  {
    && off <= |ChildVals(fs, es[p])|
    && forall q :: 0 <= q < off ==> ChildPath(es[p], ChildVals(fs, es[p])[q]) in es
  }

  lemma ListedGrow(fs: Files, a: seq<Path>, b: seq<Path>, p: int, off: int)
    requires 0 <= p < |a| && NormalAbsolute(a[p]) && Listed(fs, a, p, off) && IsPrefix(a, b)
    ensures a[p] == b[p] && Listed(fs, b, p, off)
  {
    assert b[..|a|] == a;
    forall q | 0 <= q < off
      ensures ChildPath(b[p], ChildVals(fs, b[p])[q]) in b
    {
      var c := ChildPath(a[p], ChildVals(fs, a[p])[q]);
      var j :| 0 <= j < |a| && a[j] == c;
      assert b[j] == c;
    }
  }

  lemma DepthFirstGrow(fs: Files, a: seq<Path>, pa: seq<int>, sa: seq<int>,
                       b: seq<Path>, pb: seq<int>, sb: seq<int>, lo: int)
    requires DepthFirst(fs, a, pa, sa, lo) && AllNormal(b) && |pb| == |b| == |sb|
    requires IsPrefix(a, b) && IsPrefix(pa, pb) && IsPrefix(sa, sb)
    ensures forall i :: 0 <= lo <= i < |a| ==> DfsAt(fs, b, pb, sb, i)
  {
    forall i | 0 <= lo <= i < |a|
      ensures DfsAt(fs, b, pb, sb, i)
    {
      assert DfsAt(fs, a, pa, sa, i);
      assert a[i] == b[i] && a[pa[i]] == b[pb[i]];
      assert b[..i] == a[..i];
      assert forall k :: 0 <= k < i ==> pb[k] == pa[k] && sb[k] == sa[k];
    }
  }

  /** Recording the script `c` of value `off` of the open entry `p`. */
  lemma RecordChild(fs: Files, es: seq<Path>, par: seq<int>, pos: seq<int>, p: int, off: int, c: Path)
    requires DepthFirst(fs, es, par, pos, 1) && Open(par, p) && SiblingsBelow(par, pos, p, off)
    requires NormalAbsolute(es[p]) && 0 <= off < |ChildVals(fs, es[p])| && Listed(fs, es, p, off)
    requires c == ChildPath(es[p], ChildVals(fs, es[p])[off])
    ensures DepthFirst(fs, es + [c], par + [p], pos + [off], 1)
    ensures Open(par + [p], |es|)
    ensures SiblingsBelow(par + [p], pos + [off], p, off + 1)
    ensures SiblingsBelow(par + [p], pos + [off], |es|, 0)
  {
    var es1, par1, pos1 := es + [c], par + [p], pos + [off];
    DepthFirstGrow(fs, es, par, pos, es1, par1, pos1, 1);
    assert es1[p] == es[p] && es1[|es|] == c && es1[..|es|] == es;
    assert forall k :: 0 <= k < |es| ==> par1[k] == par[k] && pos1[k] == pos[k];
    assert DfsAt(fs, es1, par1, pos1, |es|);
  }

  /** After the child at index `ci`, recorded from value `off`, is fully
      expanded, its parent `p` is open again and its children so far come
      from values up to `off`. */
  lemma ReopenParent(par: seq<int>, pos: seq<int>, r: seq<int>, rpos: seq<int>, p: int, off: int, ci: int)
    requires Open(par, p) && ci == |par| == |pos| && |r| == |rpos|
    requires IsPrefix(par + [p], r) && IsPrefix(pos + [off], rpos) && Open(r, ci)
    requires SiblingsBelow(par + [p], pos + [off], p, off + 1)
    ensures Open(r, p) && SiblingsBelow(r, rpos, p, off + 1)
  {
    forall k | p < k < |r|
      ensures r[k] >= p
    {
      if k < |par| {
        assert r[k] == par[k];
      } else if k == |par| {
        assert r[k] == (par + [p])[k];
      }
    }
    forall k | 0 <= k < |r| && r[k] == p
      ensures rpos[k] < off + 1
    {
      if k <= ci {
        assert r[k] == (par + [p])[k] && rpos[k] == (pos + [off])[k];
      }
    }
  }

  lemma {:induction false} InflateDepthFirst(fs: Files, es: seq<Path>, par: seq<int>, pos: seq<int>, p: int,
                                             off: int)
    returns (par': seq<int>, pos': seq<int>)
    requires WellFormed(fs, es) && DepthFirst(fs, es, par, pos, 1) && Open(par, p)
    requires SiblingsBelow(par, pos, p, off) && 0 <= off < |ChildVals(fs, es[p])| && Listed(fs, es, p, off)
    ensures var r := Inflate(fs, es, ChildBase(es[p]), ChildVals(fs, es[p])[off] + ".js");
            && DepthFirst(fs, r.entries, par', pos', 1) && IsPrefix(par, par') && IsPrefix(pos, pos')
            && Open(par', p) && SiblingsBelow(par', pos', p, off + 1)
            && (!r.thrown ==> Listed(fs, r.entries, p, off + 1))
    decreases Unrecorded(fs, es), 0, 0, 0
  {
    var v := ChildVals(fs, es[p])[off];
    var cur := ResolveStr(ChildBase(es[p]), v + ".js");
    InflateWellFormed(fs, es, ChildBase(es[p]), v + ".js");
    par', pos' := par, pos;
    if v + ".js" != "" && cur in fs && cur !in es {
      UnrecordedShrinks(fs, es, cur);
      var es1 := es + [cur];
      assert WellFormed(fs, es1) by {
        assert forall i :: 0 <= i < |es| ==> es1[i] == es[i];
      }
      RecordChild(fs, es, par, pos, p, off, cur);
      var par1, pos1 := par + [p], pos + [off];
      assert es1[|es|] == cur;
      par', pos' := ExpandConfigDepthFirst(fs, es1, par1, pos1, |es|);
      ReopenParent(par, pos, par', pos', p, off, |es|);
      PrefixTransitive(par, par1, par');
      PrefixTransitive(pos, pos1, pos');
      var r := ExpandConfig(fs, es1, cur);
      ListedGrow(fs, es, r, p, off);
      assert r[|es|] == cur by { assert r[..|es1|] == es1; }
    }
  }

  lemma {:induction false} ExpandConfigDepthFirst(fs: Files, es: seq<Path>, par: seq<int>, pos: seq<int>, p: int)
    returns (par': seq<int>, pos': seq<int>)
    requires WellFormed(fs, es) && DepthFirst(fs, es, par, pos, 1) && Open(par, p) && SiblingsBelow(par, pos, p, 0)
    ensures var r := ExpandConfig(fs, es, es[p]);
            DepthFirst(fs, r, par', pos', 1) && IsPrefix(par, par') && IsPrefix(pos, pos') && Open(par', p)
    decreases Unrecorded(fs, es), 3, 0, 0
  {
    var script := es[p];
    var cfg := ConfigOf(script);
    par', pos' := par, pos;
    if cfg in fs && fs[cfg].Config? {
      var pages := fs[cfg].pages;
      var (afterPages, aborted) := ExpandField(fs, es, script, pages);
      ExpandFieldWellFormed(fs, es, script, pages);
      var par1, pos1 := ExpandFieldDepthFirst(fs, es, par, pos, p, pages, 0);
      par', pos' := par1, pos1;
      if !aborted {
        UnrecordedMonotone(fs, es, afterPages);
        assert afterPages[p] == script by { assert afterPages[..|es|] == es; }
        var comps := fs[cfg].usingComponents;
        par', pos' := ExpandFieldDepthFirst(fs, afterPages, par1, pos1, p, comps, |FieldVals(pages)|);
        PrefixTransitive(par, par1, par');
        PrefixTransitive(pos, pos1, pos');
      }
    }
  }

  /** Each field's values sit at their offset in `ChildVals`. */
  lemma FieldSlice(fs: Files, script: Path, field: Field, off: int)
    requires ConfigOf(script) in fs && fs[ConfigOf(script)].Config?
    requires || (field == fs[ConfigOf(script)].pages && off == 0)
             || (field == fs[ConfigOf(script)].usingComponents && off == |FieldVals(fs[ConfigOf(script)].pages)|)
    ensures 0 <= off && off + |FieldVals(field)| <= |ChildVals(fs, script)|
    ensures FieldVals(field) == ChildVals(fs, script)[off..off + |FieldVals(field)|]
  {
    var cfg := fs[ConfigOf(script)];
    var pv, cv := FieldVals(cfg.pages), FieldVals(cfg.usingComponents);
    assert ChildVals(fs, script) == pv + cv;
    if off == 0 && field == cfg.pages {
      assert (pv + cv)[..|pv|] == pv;
    } else {
      assert (pv + cv)[|pv|..] == cv;
    }
  }

  lemma {:induction false} ExpandFieldDepthFirst(fs: Files, es: seq<Path>, par: seq<int>, pos: seq<int>, p: int,
                                                 field: Field, off: int)
    returns (par': seq<int>, pos': seq<int>)
    requires WellFormed(fs, es) && DepthFirst(fs, es, par, pos, 1) && Open(par, p)
    requires ConfigOf(es[p]) in fs && fs[ConfigOf(es[p])].Config?
    requires || (field == fs[ConfigOf(es[p])].pages && off == 0)
             || (field == fs[ConfigOf(es[p])].usingComponents && off == |FieldVals(fs[ConfigOf(es[p])].pages)|)
    requires SiblingsBelow(par, pos, p, off) && Listed(fs, es, p, off)
    ensures var r := ExpandField(fs, es, es[p], field);
            && DepthFirst(fs, r.0, par', pos', 1) && IsPrefix(par, par') && IsPrefix(pos, pos')
            && Open(par', p) && SiblingsBelow(par', pos', p, off + |FieldVals(field)|)
            && (!r.1 ==> Listed(fs, r.0, p, off + |FieldVals(field)|))
    decreases Unrecorded(fs, es), 2, 0, 0
  {
    par', pos' := par, pos;
    if field.Values? {
      FieldSlice(fs, es[p], field, off);
      par', pos' := InflateChildrenDepthFirst(fs, es, par, pos, p, field.vals, off);
    }
  }

  lemma SliceSplit(all: seq<string>, off: int, vals: seq<string>)
    requires 0 <= off && off + |vals| <= |all| && vals == all[off..off + |vals|] && vals != []
    ensures vals[0] == all[off] && vals[1..] == all[off + 1..off + 1 + |vals[1..]|]
  {
  }

  lemma {:induction false} InflateChildrenDepthFirst(fs: Files, es: seq<Path>, par: seq<int>, pos: seq<int>, p: int,
                                                     vals: seq<string>, off: int)
    returns (par': seq<int>, pos': seq<int>)
    requires WellFormed(fs, es) && DepthFirst(fs, es, par, pos, 1) && Open(par, p)
    requires 0 <= off && off + |vals| <= |ChildVals(fs, es[p])| && vals == ChildVals(fs, es[p])[off..off + |vals|]
    requires SiblingsBelow(par, pos, p, off) && Listed(fs, es, p, off)
    ensures var r := InflateChildren(fs, es, es[p], vals);
            && DepthFirst(fs, r.0, par', pos', 1) && IsPrefix(par, par') && IsPrefix(pos, pos')
            && Open(par', p) && SiblingsBelow(par', pos', p, off + |vals|)
            && (!r.1 ==> Listed(fs, r.0, p, off + |vals|))
    decreases Unrecorded(fs, es), 1, |vals|, 1
  {
    par', pos' := par, pos;
    if vals != [] {
      var script := es[p];
      SliceSplit(ChildVals(fs, script), off, vals);
      var child := Inflate(fs, es, ChildBase(script), vals[0] + ".js");
      InflateWellFormed(fs, es, ChildBase(script), vals[0] + ".js");
      var par1, pos1 := InflateDepthFirst(fs, es, par, pos, p, off);
      if child.thrown {
        par', pos' := par1, pos1;
      } else {
        par', pos' := InflateRestDepthFirst(fs, es, par, pos, p, vals, off, par1, pos1);
      }
    }
  }

  /** The values after the first, once its script is recorded. */
  lemma {:induction false} InflateRestDepthFirst(fs: Files, es: seq<Path>, par: seq<int>, pos: seq<int>, p: int,
                                                 vals: seq<string>, off: int, par1: seq<int>, pos1: seq<int>)
    returns (par': seq<int>, pos': seq<int>)
    requires WellFormed(fs, es) && 0 <= p < |es| && vals != []
    requires 0 <= off && off + |vals| <= |ChildVals(fs, es[p])| && vals[1..] == ChildVals(fs, es[p])[off + 1..off + |vals|]
    requires var child := Inflate(fs, es, ChildBase(es[p]), vals[0] + ".js");
             && !child.thrown && WellFormed(fs, child.entries)
             && DepthFirst(fs, child.entries, par1, pos1, 1) && IsPrefix(par, par1) && IsPrefix(pos, pos1)
             && Open(par1, p) && SiblingsBelow(par1, pos1, p, off + 1) && Listed(fs, child.entries, p, off + 1)
    ensures var r := InflateChildren(fs, es, es[p], vals);
            && DepthFirst(fs, r.0, par', pos', 1) && IsPrefix(par, par') && IsPrefix(pos, pos')
            && Open(par', p) && SiblingsBelow(par', pos', p, off + |vals|)
            && (!r.1 ==> Listed(fs, r.0, p, off + |vals|))
    decreases Unrecorded(fs, es), 1, |vals|, 0
  {
    var script := es[p];
    var ce := Inflate(fs, es, ChildBase(script), vals[0] + ".js").entries;
    UnrecordedMonotone(fs, es, ce);
    assert ce[p] == script by { assert ce[..|es|] == es; }
    par', pos' := InflateChildrenDepthFirst(fs, ce, par1, pos1, p, vals[1..], off + 1);
    PrefixTransitive(par, par1, par');
    PrefixTransitive(pos, pos1, pos');
  }

  /** Read back: the parent of a script in a depth-first assignment lists it. */
  lemma DepthFirstListed(fs: Files, es: seq<Path>, par: seq<int>, pos: seq<int>, i: int)
    requires DepthFirst(fs, es, par, pos, 1) && 1 <= i < |es|
    ensures 0 <= par[i] < i && ChildOf(fs, es[par[i]], es[i])
  {
    assert DfsAt(fs, es, par, pos, i);
    var script := es[par[i]];
    var cfg := ConfigOf(script);
    var v := ChildVals(fs, script)[pos[i]];
    var pv, cv := FieldVals(fs[cfg].pages), FieldVals(fs[cfg].usingComponents);
    if pos[i] < |pv| {
      assert v == pv[pos[i]];
    } else {
      assert v == cv[pos[i] - |pv|];
    }
    assert ListedChild(fs, script, v);
  }

  /** `inflateEntries([], context, entry)` from `apply`. */
  function InflateEntries(fs: Files, context: Path, entry: string): (r: Inflated)
    requires NormalAbsolute(context)
    ensures r.thrown <==> entry == "" || ResolveStr(context, entry) !in fs
    ensures r.thrown ==> r.entries == []
  {
    Inflate(fs, [], context, entry)
  }

  /** A successful walk records the app script first and every other script
      after a script that lists it; each once, and each an existing file. */
  lemma InflateEntriesPreOrder(fs: Files, context: Path, entry: string)
    requires NormalAbsolute(context)
    requires !InflateEntries(fs, context, entry).thrown
    ensures var es := InflateEntries(fs, context, entry).entries;
            && |es| >= 1
            && es[0] == ResolveStr(context, entry)
            && WellFormed(fs, es)
            && ParentsBefore(fs, es, 1)
  {
    InflateWellFormed(fs, [], context, entry);
    InflatePreOrder(fs, [], context, entry);
  }

  /** A successful walk is complete: for every recorded script with a
      parseable configuration, each `pages` value up to the first missing
      child has its script recorded, and so has each `usingComponents` value
      when the `pages` loop did not throw. */
  lemma InflateEntriesComplete(fs: Files, context: Path, entry: string)
    requires NormalAbsolute(context)
    requires !InflateEntries(fs, context, entry).thrown
    ensures var es := InflateEntries(fs, context, entry).entries;
            AllNormal(es) && forall i :: 0 <= i < |es| ==> Expanded(fs, es[i], es)
  {
    InflateComplete(fs, [], context, entry);
  }

  /** A successful walk records in depth-first pre-order: every script
      after the app script has a parent that lists it, recorded before it,
      and everything recorded between the two descends from that parent. */
  lemma InflateEntriesDepthFirst(fs: Files, context: Path, entry: string)
    requires NormalAbsolute(context)
    requires !InflateEntries(fs, context, entry).thrown
    ensures exists par, pos :: DepthFirst(fs, InflateEntries(fs, context, entry).entries, par, pos, 1)
  {
    var root := ResolveStr(context, entry);
    var es := [root];
    assert WellFormed(fs, es);
    assert DepthFirst(fs, es, [-1], [0], 1);
    var par, pos := ExpandConfigDepthFirst(fs, es, [-1], [0], 0);
    assert [] + [root] == es;
    assert InflateEntries(fs, context, entry) == Inflated(ExpandConfig(fs, es, root), false);
  }

  // ---------------------------------------------------------------------
  // Registration in `apply`

  /** `replaceExt(path.relative(context, item), '')`: the relative path with
      its last name's extension removed, rebuilt with `path.join` from its
      `path.dirname`; the empty path stays empty. */
  function EntryName(context: Path, item: Path): string {
    var rel := RelStr(context, item);
    var segs := RelSegs(context.segs, item.segs);
    if rel == "" || segs == [] then ""
    else JoinStr(DirnameStr(rel), StripExt(segs[|segs| - 1]))
  }

  /** The registration `apply` makes for one recorded script. */
  function Registration(context: Path, item: Path): (p: EntryPlugin)
    ensures p.SingleEntryPlugin?
  {
    ItemToPlugin(AbsStr(context), SingleItem("./" + RelStr(context, item)), EntryName(context, item))
  }

  function Registrations(context: Path, items: seq<Path>): (ps: seq<EntryPlugin>)
    ensures |ps| == |items|
    ensures forall i :: 0 <= i < |items| ==> ps[i] == Registration(context, items[i])
  {
    if items == [] then [] else [Registration(context, items[0])] + Registrations(context, items[1..])
  }

  /** `apply`: walk from the configured entry, then register every recorded
      script in order. A throwing walk registers nothing. */
  function Apply(fs: Files, context: Path, entry: string): (r: Option<seq<EntryPlugin>>)
    requires NormalAbsolute(context)
    ensures r.None? <==> entry == "" || ResolveStr(context, entry) !in fs
    ensures r.Some? ==> |r.value| == |InflateEntries(fs, context, entry).entries| >= 1
    ensures r.Some? ==> forall i :: 0 <= i < |r.value| ==>
              r.value[i] == Registration(context, InflateEntries(fs, context, entry).entries[i])
  {
    var walk := InflateEntries(fs, context, entry);
    if walk.thrown then None
    else
      InflateEntriesPreOrder(fs, context, entry);
      Some(Registrations(context, walk.entries))
  }

  /** The registered request, `"./" + path.relative(context, item)`, resolves
      back to the recorded script. */
  lemma RequestResolvesToItem(context: Path, item: Path)
    requires NormalAbsolute(context) && NormalAbsolute(item)
    ensures ResolveStr(context, Registration(context, item).request) == item
  {
    var rel := RelStr(context, item);
    assert Registration(context, item).request == "./" + rel;
    RelSegsSegments(context.segs, item.segs);
    JoinSegsNotRooted(RelSegs(context.segs, item.segs));
    DotSlashSplit(rel);
    NormSkipsDot(context.segs, Split(rel, '/'));
    ResolveRelStr(context, item);
  }

  /** `"./" + rel` is relative and splits into "." and the names of `rel`. */
  lemma DotSlashSplit(rel: string)
    ensures !StartsWith("./" + rel, "/")
    ensures Split("./" + rel, '/') == ["."] + Split(rel, '/')
  {
    var s := "./" + rel;
    assert s[0] == '.';
    assert s == "." + ['/'] + rel;
    SplitAtSeparator(".", '/', rel);
  }

  /** A "." segment changes nothing in normalisation. */
  lemma NormSkipsDot(segs: seq<string>, tail: seq<string>)
    ensures Norm(segs + (["."] + tail), false) == Norm(segs + tail, false)
  {
    NormFromAppend([], segs, ["."] + tail, false);
    NormFromAppend(Norm(segs, false), ["."], tail, false);
    assert NormFrom(Norm(segs, false), ["."], false) == Norm(segs, false);
    NormFromAppend([], segs, tail, false);
  }

  /** A relative path of plain names is already normal. */
  lemma NormalizeNames(names: seq<string>)
    requires AllNames(names) && |names| >= 1
    ensures NormalizeStr(Join(names, '/')) == Join(names, '/')
  {
    var joined := Join(names, '/');
    JoinLength(names);
    SplitJoinRoundTrip(names, '/');
    NormNames(names, true);
    JoinSegsNotRooted(names);
    assert joined[0] != '/';
    LastCharOfJoin(names);
  }

  lemma LastCharOfJoin(names: seq<string>)
    requires AllNames(names) && |names| >= 1
    ensures |Join(names, '/')| >= 1 && Join(names, '/')[|Join(names, '/')| - 1] != '/'
  {
    var n := |names|;
    if n == 1 {
    } else {
      var init := names[..n - 1];
      assert names == init + [names[n - 1]];
      JoinSnoc(init, names[n - 1], '/');
      var last := names[n - 1];
      assert last[|last| - 1] != '/';
    }
  }

  /** The stem of a lone name joined to its dirname "." is the stem. */
  lemma JoinDotStem(stem: string)
    requires IsName(stem)
    ensures JoinStr(".", stem) == stem
  {
    var joined := "." + ['/'] + stem;
    assert Join([".", stem], '/') == joined;
    SplitAtSeparator(".", '/', stem);
    SplitWithoutSeparator(stem, '/');
    assert Split(joined, '/') == [".", stem];
    assert [".", stem][1..] == [stem];
    NormFromNames([], [stem], true);
    assert Norm([".", stem], true) == [stem];
    assert joined[0] == '.';
    assert joined[|joined| - 1] == stem[|stem| - 1];
  }

  /** The stem joined below the path of the other names. */
  lemma JoinInitStem(init: seq<string>, stem: string)
    requires AllNames(init) && |init| >= 1 && IsName(stem)
    ensures JoinStr(JoinSegs(init), stem) == Join(init, '/') + ['/'] + stem
  {
    var names := init + [stem];
    assert AllNames(names);
    JoinSnoc(init, stem, '/');
    JoinLength(init);
    assert Join([JoinSegs(init), stem], '/') == Join(names, '/');
    NormalizeNames(names);
  }

  /** The name for a lone file name is its stem. */
  lemma NameOfSingle(last: string)
    requires IsName(last) && IsName(StripExt(last))
    ensures JoinStr(DirnameStr(JoinSegs([last])), StripExt(last)) + Extname(last) == JoinSegs([last])
  {
    DirnameStrRelative([last]);
    assert JoinSegs([last]) == last;
    JoinDotStem(StripExt(last));
  }

  /** The name for a file below directories is the directories joined to its
      stem. */
  lemma NameOfNested(init: seq<string>, last: string)
    requires AllNames(init) && |init| >= 1 && IsName(last) && IsName(StripExt(last))
    ensures JoinStr(DirnameStr(JoinSegs(init + [last])), StripExt(last)) + Extname(last) ==
            JoinSegs(init + [last])
  {
    var segs := init + [last];
    var stem := StripExt(last);
    var ext := Extname(last);
    assert AllNames(segs);
    assert segs[..|segs| - 1] == init;
    DirnameStrRelative(segs);
    assert DirnameStr(JoinSegs(segs)) == JoinSegs(init);
    JoinSnoc(init, last, '/');
    JoinInitStem(init, stem);
    assert JoinSegs(segs) == Join(init, '/') + ['/'] + last;
    assert last == stem + ext;
  }

  /** The name `replaceExt(rel, '')` computes for a path of plain names is the
      path minus the extension of its last name. */
  lemma NameOfSegs(segs: seq<string>)
    requires AllNames(segs) && |segs| >= 1
    requires IsName(StripExt(segs[|segs| - 1]))
    ensures JoinStr(DirnameStr(JoinSegs(segs)), StripExt(segs[|segs| - 1])) + Extname(segs[|segs| - 1]) ==
            JoinSegs(segs)
  {
    var n := |segs|;
    if n == 1 {
      assert segs == [segs[0]];
      NameOfSingle(segs[0]);
    } else {
      assert segs == segs[..n - 1] + [segs[n - 1]];
      NameOfNested(segs[..n - 1], segs[n - 1]);
    }
  }

  /** For a script inside the context, the registered name is its relative
      path minus the extension of its file name. */
  lemma EntryNameDropsExtension(context: Path, item: Path)
    requires AllNames(RelSegs(context.segs, item.segs)) && |RelSegs(context.segs, item.segs)| >= 1
    requires IsName(StripExt(RelSegs(context.segs, item.segs)[|RelSegs(context.segs, item.segs)| - 1]))
    ensures var segs := RelSegs(context.segs, item.segs);
            RelStr(context, item) == EntryName(context, item) + Extname(segs[|segs| - 1])
  {
    var segs := RelSegs(context.segs, item.segs);
    var rel := RelStr(context, item);
    assert rel == JoinSegs(segs);
    assert rel != "" by { JoinLength(segs); }
    assert EntryName(context, item) == JoinStr(DirnameStr(rel), StripExt(segs[|segs| - 1]));
    NameOfSegs(segs);
  }
}
