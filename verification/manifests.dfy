/** The parsed JSON manifests the resolver reads (`app.json`, page and
    component `.json` files) and the file system holding them. */
module Manifests {
  import opened Wrappers
  import opened Paths

  /** An element of `subpackages`; `pages` defaults to `[]` when absent. */
  datatype SubPackage = SubPackage(root: string, pages: seq<string>)

  /** An element of `tabBar.list`. An absent or otherwise falsy icon path is "". */
  datatype TabBarItem = TabBarItem(iconPath: string, selectedIconPath: string)

  /** An object-valued `tabBar`; an absent `list` is the empty list and
      `custom` is its truthiness. */
  datatype TabBar = TabBar(list: seq<TabBarItem>, custom: bool)

  /** A parsed manifest. `None` stands for an absent key (for `tabBar`: absent,
      falsy or not an object). `usingComponents` keeps the object's key order. */
  datatype Manifest = Manifest(
    pages: Option<seq<string>>,
    subpackages: Option<seq<SubPackage>>,
    subPackages: Option<seq<SubPackage>>,
    tabBar: Option<TabBar>,
    usingComponents: seq<(string, string)>)

  /** The outcome of `JSON.parse(fs.readFileSync(p))` on an existing file. */
  datatype Document = Parsed(manifest: Manifest) | Malformed

  /** Files by resolved absolute path. */
  type FileMap = map<Path, Document>

  /** `config.subpackages || config.subPackages || []`: any present array,
      even an empty one, is truthy and wins. */
  function SubPackagesOf(config: Manifest): seq<SubPackage> {
    if config.subpackages.Some? then config.subpackages.value
    else if config.subPackages.Some? then config.subPackages.value
    else []
  }

  /** `Object.values(usingComponents)`, in key order. */
  function Values(pairs: seq<(string, string)>): (vs: seq<string>)
    ensures |vs| == |pairs|
    ensures forall i :: 0 <= i < |pairs| ==> vs[i] == pairs[i].1
  {
    if pairs == [] then [] else [pairs[0].1] + Values(pairs[1..])
  }
}
