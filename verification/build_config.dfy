/** The computed parts of the webpack configuration: one vendor cache group
    per sub-package root, and the `file-loader` rule builder. */
module BuildConfig {
  import opened Wrappers
  import opened Seqs
  import opened Strings
  import opened Objects
  import opened Manifests

  /** A split-chunks cache group. Its `test` closure is represented by the
      root it searches module paths for (see `Test`). */
  datatype CacheGroup = CacheGroup(name: string, root: string, priority: int)

  /** `test(module)`: the module has a non-empty `resource` path that contains
      the group's root anywhere. `None` is an undefined `resource`. */
  function Test(g: CacheGroup, resource: Option<string>): (r: bool)
    ensures r ==> resource.Some? && |resource.value| >= |g.root| && resource.value != ""
    ensures r <==> resource.Some? && resource.value != "" && exists i :: OccursAt(resource.value, g.root, i)
  {
    resource.Some? && resource.value != "" && Contains(resource.value, g.root)
  }

  /** The root matches wherever it sits in the path, not only at the start. */
  lemma TestMatchesAnywhere(g: CacheGroup, before: string, after: string)
    requires before + g.root + after != ""
    ensures Test(g, Some(before + g.root + after))
  {
    var s := before + g.root + after;
    assert s[|before|..|before| + |g.root|] == g.root;
    assert OccursAt(s, g.root, |before|);
  }

  /** The object key of the group built for the sub-package at `index`. */
  function GroupKey(index: nat): string {
    "subVendor" + NatToString(index)
  }

  /** Different indices give different keys. */
  lemma GroupKeyInjective(a: nat, b: nat)
    requires GroupKey(a) == GroupKey(b)
    ensures a == b
  {
    var p := "subVendor";
    assert GroupKey(a)[|p|..] == NatToString(a);
    assert GroupKey(b)[|p|..] == NatToString(b);
    NatToStringInjective(a, b);
  }

  /** The group built for a sub-package root. */
  function GroupFor(root: string): CacheGroup {
    CacheGroup(root + "/vendor", root, 0)
  }

  /** The `reduce` over the first `n` roots, each assigning its group under
      its index key. */
  function ReduceGroups(roots: seq<string>, n: nat): Object<CacheGroup>
    requires n <= |roots|
  {
    if n == 0 then [] else
      Set(ReduceGroups(roots, n - 1), GroupKey(n - 1), GroupFor(roots[n - 1]))
  }

  /** The first `n` groups, in index order, each under its own key. */
  ghost predicate GroupsUpTo(r: Object<CacheGroup>, roots: seq<string>, n: nat)
    requires n <= |roots|
  {
    |r| == n && forall i :: 0 <= i < n ==> r[i] == (GroupKey(i), GroupFor(roots[i]))
  }

  /** The next index's key is not among the keys already assigned. */
  lemma NextKeyIsNew(r: Object<CacheGroup>, roots: seq<string>, n: nat)
    requires n < |roots| && GroupsUpTo(r, roots, n)
    ensures GroupKey(n) !in Keys(r)
  {
    forall i | 0 <= i < |r|
      ensures Keys(r)[i] != GroupKey(n)
    {
      if Keys(r)[i] == GroupKey(n) {
        GroupKeyInjective(i, n);
      }
    }
  }

  /** After `n` steps the object holds exactly the first `n` groups. */
  lemma {:induction false} ReduceGroupsShape(roots: seq<string>, n: nat)
    requires n <= |roots|
    ensures GroupsUpTo(ReduceGroups(roots, n), roots, n)
  {
    if n > 0 {
      ReduceGroupsShape(roots, n - 1);
      var prev := ReduceGroups(roots, n - 1);
      var k := GroupKey(n - 1);
      var g := GroupFor(roots[n - 1]);
      NextKeyIsNew(prev, roots, n - 1);
      SetNewKeyAppends(prev, k, g);
      var r := ReduceGroups(roots, n);
      assert r == prev + [(k, g)];
      forall i | 0 <= i < n
        ensures r[i] == (GroupKey(i), GroupFor(roots[i]))
      {
        if i < n - 1 {
          assert r[i] == prev[i];
        }
      }
    }
  }

  /** The roots of `config.subpackages || config.subPackages || []`. */
  function SubPackageRoots(config: Manifest): (roots: seq<string>)
    ensures |roots| == |SubPackagesOf(config)|
    ensures forall i :: 0 <= i < |roots| ==> roots[i] == SubPackagesOf(config)[i].root
  {
    seq(|SubPackagesOf(config)|, i requires 0 <= i < |SubPackagesOf(config)| => SubPackagesOf(config)[i].root)
  }

  /** `getSplitChunksCacheGroups` on the parsed app manifest: one group per
      sub-package root, keyed `subVendor<i>` by its index, named
      `<root>/vendor`, priority 0; none without sub-packages. */
  function SplitChunksCacheGroups(config: Manifest): (r: Object<CacheGroup>)
    ensures |r| == |SubPackagesOf(config)|
    ensures forall i :: 0 <= i < |r| ==>
              r[i].0 == GroupKey(i) && r[i].1.name == SubPackagesOf(config)[i].root + "/vendor" &&
              r[i].1.root == SubPackagesOf(config)[i].root && r[i].1.priority == 0
    ensures WellFormed(r)
  {
    var roots := SubPackageRoots(config);
    ReduceGroupsShape(roots, |roots|);
    var r := ReduceGroups(roots, |roots|);
    forall i, j | 0 <= i < j < |r|
      ensures Keys(r)[i] != Keys(r)[j]
    {
      if Keys(r)[i] == Keys(r)[j] {
        GroupKeyInjective(i, j);
      }
    }
    r
  }

  /** Each group is found under its index key. */
  lemma CacheGroupLookup(config: Manifest, i: nat)
    requires i < |SubPackagesOf(config)|
    ensures Get(SplitChunksCacheGroups(config), GroupKey(i)) ==
            Some(GroupFor(SubPackagesOf(config)[i].root))
  {
    var r := SplitChunksCacheGroups(config);
    GetListed(r, i);
  }

  /** A module rule using `file-loader`. */
  datatype LoaderRule = LoaderRule(loader: string, name: string)

  const NamePrefix: string := "[path][name]."

  /** The extension a `file-loader` name template ends in, if it has the
      `[path][name].` form. */
  function NameExtension(name: string): Option<string> {
    if StartsWith(name, NamePrefix) then Some(name[|NamePrefix|..]) else None
  }

  /** `useFileLoader(ext)`: the output keeps the source path and name; the
      extension is `ext`, or `[ext]` (the source's own) when omitted. */
  function UseFileLoader(ext: Option<string>): (r: LoaderRule)
    ensures r.loader == "file-loader"
    ensures NameExtension(r.name) == Some(ext.GetOr("[ext]"))
  {
    var e := ext.GetOr("[ext]");
    var name := NamePrefix + e;
    assert name[|NamePrefix|..] == e;
    LoaderRule("file-loader", name)
  }
}
