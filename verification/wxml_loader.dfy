/** The pure part of the wxml loader: the table of tags and attributes whose
    values name local resources, the filter that keeps only local static
    paths, the per-tag collection of those paths, and the merge of a
    user-supplied table into the default one. */
module WxmlLoader {
  import opened Wrappers
  import opened Seqs
  import opened Strings
  import opened Objects

  /** Attribute name -> whether its value is collected. */
  type Flags = Object<bool>

  /** Tag name -> the attributes collected on it. */
  type TagTable = Object<Flags>

  /** Every tag's attribute table is itself a real object. */
  ghost predicate AllWellFormed(t: TagTable) {
    forall i :: 0 <= i < |t| ==> WellFormed(t[i].1)
  }

  /** `getCollectedTags`: the nine media and include tags, every listed
      attribute switched on. */
  function CollectedTags(): (t: TagTable)
    ensures |t| == 9 && AllWellFormed(t)
    ensures forall i, j :: 0 <= i < |t| && 0 <= j < |t[i].1| ==> t[i].1[j].1
    ensures forall i :: 0 <= i < |t| ==> 1 <= |t[i].1| <= 2
  {
    var t := [
      ("audio", [("src", true), ("poster", true)]),
      ("live-player", [("src", true)]),
      ("live-pusher", [("waiting-image", true)]),
      ("video", [("src", true), ("poster", true)]),
      ("cover-image", [("src", true)]),
      ("image", [("src", true)]),
      ("wxs", [("src", true)]),
      ("import", [("src", true)]),
      ("include", [("src", true)])
    ];
    assert Keys(t[0].1) == ["src", "poster"];
    assert Keys(t[3].1) == ["src", "poster"];
    t
  }

  /** The prefixes of remote URLs: protocol-relative, `http:` and `https:`. */
  const RemotePrefixes: seq<string> := ["//", "http://", "https://"]

  ghost predicate IsRemote(p: string) {
    exists i :: 0 <= i < |RemotePrefixes| && StartsWith(p, RemotePrefixes[i])
  }

  /** `/^(https?:)?\/\//.test(p)`, read as the pattern is written: an optional
      `http:` or `https:` scheme, then two slashes. */
  function MatchesUrlPattern(p: string): bool {
    var afterScheme :=
      if StartsWith(p, "https:") then p[6..]
      else if StartsWith(p, "http:") then p[5..]
      else p;
    StartsWith(afterScheme, "//") || StartsWith(p, "//")
  }

  /** The pattern matches exactly the paths with a remote prefix. */
  lemma UrlPatternIsRemote(p: string)
    ensures MatchesUrlPattern(p) <==> IsRemote(p)
  {
    if IsRemote(p) {
      var i :| 0 <= i < |RemotePrefixes| && StartsWith(p, RemotePrefixes[i]);
      if i == 1 {
        assert p[..5] == "http:" && p[5..7] == "//";
        assert p[5] == '/';
      } else if i == 2 {
        assert p[..6] == "https:" && p[6..8] == "//";
      }
    }
    if MatchesUrlPattern(p) {
      if StartsWith(p, "https:") && StartsWith(p[6..], "//") {
        assert p[..8] == "https://";
        assert StartsWith(p, RemotePrefixes[2]);
      } else if StartsWith(p, "http:") && StartsWith(p[5..], "//") {
        assert p[..7] == "http://";
        assert StartsWith(p, RemotePrefixes[1]);
      } else {
        assert StartsWith(p, RemotePrefixes[0]);
      }
    }
  }

  /** `getValidLocalPath`: `null` for an empty path, a path with a `{{`
      template, or a remote URL; the path itself otherwise. */
  function ValidLocalPath(p: string): (r: Option<string>)
    ensures r.Some? ==> r.value == p
    ensures r.None? <==> p == "" || (exists i :: OccursAt(p, "{{", i)) || IsRemote(p)
  {
    UrlPatternIsRemote(p);
    if p == "" || Contains(p, "{{") || MatchesUrlPattern(p) then None else Some(p)
  }

  /** A parsed opening tag: its lower-cased name and its attributes. */
  datatype Node = Node(name: string, attributes: map<string, string>)

  /** The attribute `entry` names is present and non-empty on the node, is
      switched on, and holds a local path. */
  predicate Contributes(entry: (string, bool), attrs: map<string, string>) {
    entry.1 && entry.0 in attrs && attrs[entry.0] != "" && ValidLocalPath(attrs[entry.0]).Some?
  }

  /** The paths the attributes of `flags` contribute, in the table's order. */
  function Collect(flags: Flags, attrs: map<string, string>): (r: seq<string>)
    ensures |r| <= |flags|
    ensures forall i :: 0 <= i < |r| ==> r[i] != "" && ValidLocalPath(r[i]) == Some(r[i])
    ensures forall x :: x in r <==>
              exists j :: 0 <= j < |flags| && Contributes(flags[j], attrs) && attrs[flags[j].0] == x
  {
    if flags == [] then []
    else
      var head := if Contributes(flags[0], attrs) then [attrs[flags[0].0]] else [];
      var tail := Collect(flags[1..], attrs);
      assert forall j :: 0 < j < |flags| ==> flags[j] == flags[1..][j - 1];
      head + tail
  }

  /** Collection follows the table's key order: the paths of earlier
      attributes come first. */
  lemma {:induction false} CollectAppend(f1: Flags, f2: Flags, attrs: map<string, string>)
    ensures Collect(f1 + f2, attrs) == Collect(f1, attrs) + Collect(f2, attrs)
  {
    if f1 != [] {
      var head := if Contributes(f1[0], attrs) then [attrs[f1[0].0]] else [];
      assert (f1 + f2)[0] == f1[0];
      assert (f1 + f2)[1..] == f1[1..] + f2;
      assert Collect(f1 + f2, attrs) == head + Collect(f1[1..] + f2, attrs);
      assert Collect(f1, attrs) == head + Collect(f1[1..], attrs);
      CollectAppend(f1[1..], f2, attrs);
    } else {
      assert f1 + f2 == f2;
    }
  }

  /** `getResourceRelativePaths`: the local paths on a tag the table lists,
      nothing for any other tag. */
  method ResourceRelativePaths(tags: TagTable, node: Node) returns (result: seq<string>)
    ensures Get(tags, node.name).None? ==> result == []
    ensures Get(tags, node.name).Some? ==> result == Collect(Get(tags, node.name).value, node.attributes)
    ensures forall i :: 0 <= i < |result| ==> ValidLocalPath(result[i]) == Some(result[i])
  {
    result := [];
    var dict := Get(tags, node.name);
    if dict.Some? {
      var flags := dict.value;
      var i := 0;
      while i < |flags|
        invariant 0 <= i <= |flags|
        invariant result == Collect(flags[..i], node.attributes)
      {
        var attr := flags[i].0;
        CollectAppend(flags[..i], [flags[i]], node.attributes);
        assert flags[..i + 1] == flags[..i] + [flags[i]];
        if flags[i].1 && attr in node.attributes && node.attributes[attr] != "" {
          var val := ValidLocalPath(node.attributes[attr]);
          if val.Some? {
            result := result + [val.value];
          }
        }
        i := i + 1;
      }
      assert flags[..|flags|] == flags;
    }
  }

  /** The attribute table a tag ends up with: the default's attributes with
      the custom flags spread over them, or the custom table for a new tag. */
  function MergedTag(prior: Option<Flags>, custom: Flags): Flags {
    if prior.Some? then Spread(prior.value, custom) else custom
  }

  lemma GetWellFormed(t: TagTable, k: string)
    requires AllWellFormed(t) && Get(t, k).Some?
    ensures WellFormed(Get(t, k).value)
  {
    var i :| 0 <= i < |t| && t[i] == (k, Get(t, k).value);
    assert WellFormed(t[i].1);
  }

  /** The custom tag-table option as the loader receives it. */
  datatype CustomTags = Falsy | NotObject | TagObject(tags: TagTable)

  /** Merge the custom tags one by one, in their key order. */
  function MergeTags(d: TagTable, c: TagTable): (r: TagTable)
    requires WellFormed(c)
    ensures forall t :: AssignedAt(r, d, c, MergedTag, t)
    ensures IsPrefix(Keys(d), Keys(r))
    ensures WellFormed(d) ==> WellFormed(r)
  {
    var r := AssignEach(d, c, MergedTag);
    forall t
      ensures AssignedAt(r, d, c, MergedTag, t)
    {
      AssignEachGet(d, c, MergedTag, t);
    }
    r
  }

  /** `mergeCollectedTags`: a falsy, non-object or empty option leaves the
      defaults alone; otherwise every custom tag is merged in its key order,
      and tags it does not name are unchanged. */
  function MergeCollectedTags(defaults: TagTable, custom: CustomTags): (r: TagTable)
    requires custom.TagObject? ==> WellFormed(custom.tags)
    ensures !custom.TagObject? || custom.tags == [] ==> r == defaults
    ensures custom.TagObject? ==> forall t :: AssignedAt(r, defaults, custom.tags, MergedTag, t)
    ensures IsPrefix(Keys(defaults), Keys(r))
    ensures WellFormed(defaults) ==> WellFormed(r)
  {
    if custom.TagObject? && |Keys(custom.tags)| > 0 then MergeTags(defaults, custom.tags) else defaults
  }

  /** Merging the same custom tags a second time leaves tag `t` as it was. */
  lemma MergeTwiceAt(d: TagTable, c: TagTable, t: string)
    requires WellFormed(c) && AllWellFormed(c)
    ensures Get(MergeTags(MergeTags(d, c), c), t) == Get(MergeTags(d, c), t)
  {
    var once := MergeTags(d, c);
    var twice := MergeTags(once, c);
    assert AssignedAt(once, d, c, MergedTag, t);
    assert AssignedAt(twice, once, c, MergedTag, t);
    if t in Keys(c) {
      GetWellFormed(c, t);
      var cv := Get(c, t).value;
      var prior := Get(d, t);
      if prior.Some? {
        SpreadTwice(prior.value, cv);
      } else {
        SpreadAgreeing(cv, cv);
      }
    }
  }

  /** Merging the same custom option a second time changes no tag. */
  lemma {:induction false} MergeIdempotent(defaults: TagTable, custom: CustomTags)
    requires custom.TagObject? ==> WellFormed(custom.tags) && AllWellFormed(custom.tags)
    ensures var once := MergeCollectedTags(defaults, custom);
            forall t :: Get(MergeCollectedTags(once, custom), t) == Get(once, t)
  {
    if custom.TagObject? && |Keys(custom.tags)| > 0 {
      forall t
        ensures Get(MergeTags(MergeTags(defaults, custom.tags), custom.tags), t) ==
                Get(MergeTags(defaults, custom.tags), t)
      {
        MergeTwiceAt(defaults, custom.tags, t);
      }
    }
  }
}
