# Mini-program webpack plugin: a Dafny model

This project models the build logic of a webpack setup for WeChat mini-programs.

A mini-program has no single bundle entry. Its `app.json` lists pages. Every page and component has a sibling `.json` file whose `usingComponents` names further components. The plugin turns this graph into webpack entries, and then makes every entry chunk `require` the shared chunks it depends on.

The model covers the following pieces, each as pure functions over immutable data:

- **Entry resolution (mature plugin)**, `webpackLibs/plugins/MinaWebpackPlugin.js`:
  - `analyzeAppJson` and the depth-first `getComponentEntries` walk with its visited set;
  - `getFullScriptPath` and the registration loop of `handleEntries`;
  - `itemToPlugin`.
- **Chunk dependency injection (mature plugin)**:
  - `isRuntimeExtracted`, `ensurePosix`, `requiredPath`;
  - the `renderWithEntry` tap, which computes the de-duplicated dependency list and the `;require('…');` prefix;
  - the removal of the synthetic assets chunk in `beforeChunkAssets`.
- **The first draft of the plugin**, `plugins/MinaWebpackPlugin.js`:
  - the recursive `inflateEntries`, with its `try`/`catch`;
  - the entry registration in `apply`.
- **The wxml loader's pure part**, `webpackLibs/loaders/wxml-loader.js`:
  - the tag table;
  - the local-path filter;
  - per-tag path collection;
  - the merge of a custom tag table.
- **The computed parts of `webpack.config.js`**: the per-sub-package vendor cache groups and the `file-loader` rule builder.
- **The compat layer of `Tapable.js`**: the camelCase and hook-lookup taps of `_pluginCompat`, `plugin`, and `apply`.

Data is modelled as follows:

- Node's POSIX `path` functions are a `Path` datatype: an absolute flag plus normalised segments. The string operations (`resolve`, `join`, `relative`, `dirname`, the extension split of `replace-ext`) follow Node's `normalizeString` stack fold.
- A JavaScript object with string keys is a list of properties in insertion order (module `Objects`). A JavaScript `Set` is a duplicate-free list in insertion order.
- Parsed JSON files are records (module `Manifests`).
- The file system is a map from resolved path to file content.
- Exceptions are `Result`/`Option` values or an explicit `thrown` flag.

Modules and files:

| file | module | models |
|---|---|---|
| wrappers.dfy | Wrappers | `Option`, `Result` |
| seqs.dfy | Seqs | duplicate-free lists, `Set.prototype.add`, de-duplication |
| strings.dfy | Strings | `startsWith`, `indexOf`, `split`/`join`, decimal rendering |
| paths.dfy | Paths | Node POSIX path functions |
| objects.dfy | Objects | plain objects: lookup, assignment, spread |
| manifests.dfy | Manifests | `app.json` and component manifests |
| entry_plugins.dfy | EntryPlugins | `itemToPlugin` |
| entry_resolver.dfy | EntryResolver | `analyzeAppJson`, `getComponentEntries`, `getFullScriptPath`, `handleEntries` |
| chunk_injector.dfy | ChunkInjector | `ensurePosix`, `requiredPath`, `isRuntimeExtracted`, `renderWithEntry`, assets-chunk removal |
| legacy_plugin.dfy | LegacyPlugin | `inflateEntries` and `apply` of the first draft |
| wxml_loader.dfy | WxmlLoader | `getCollectedTags`, `getValidLocalPath`, `getResourceRelativePaths`, `mergeCollectedTags` |
| build_config.dfy | BuildConfig | `getSplitChunksCacheGroups`, `useFileLoader` |
| tapable.dfy | TapableCompat | the `_pluginCompat` taps, `plugin`, `apply` |

Where the code and its documentation disagree, the model follows the code:

- The final entry list is a plain concatenation. A page listed twice stays twice; only the components are de-duplicated.
- The injected prefix starts with `;` even when there are no dependencies.
- A missing nested component manifest is fatal in the mature plugin. The read throws, and nothing catches it.
- `requiredPath("../x")` is `./../x`.
- A dependency of entry `app` on chunk `runtime` is recorded as `runtime`, not `../runtime.js`. `path.dirname("app")` is `.`, and chunk names carry no extension.

## Model

| member | source | states |
|---|---|---|
| `Paths.ResolveRelStr` | webpackLibs/plugins/MinaWebpackPlugin.js:224 | resolving the context-relative path of a resolved path against the context gives that path back |
| `Paths.RelStrInjective` | webpackLibs/plugins/MinaWebpackPlugin.js:224-227 | two resolved paths with the same context-relative string are the same path, so the set check on relative strings is a check on components |
| `Paths.DirnameStrAbsolute` | webpackLibs/plugins/MinaWebpackPlugin.js:214 | `path.dirname` of a resolved path, as a string, is the string of its parent directory |
| `Paths.DirnameStrRelative` | plugins/MinaWebpackPlugin.js:160 | `path.dirname` of a relative name path drops its last name, and gives "." for a single name |
| `Paths.ComponentOfManifestPath` | webpackLibs/plugins/MinaWebpackPlugin.js:210-211 | the manifest path `${p}.json` maps back to the component `p`, so manifests and components correspond one to one |
| `Paths.Extname` | plugins/MinaWebpackPlugin.js:160 | the extension removed by `replaceExt(…, '')` follows the stem, so stem plus extension is the name; it starts at the last "." that is not the first character and holds no other dot; it is empty iff no such dot exists, and ".." has none |
| `EntryPlugins.ItemToPlugin` | webpackLibs/plugins/MinaWebpackPlugin.js:240-246 | a multi-entry plugin iff the item is an array, otherwise a single-entry plugin; context, name and request(s) passed through unchanged |
| `EntryResolver.RootedRefBelowContext` | webpackLibs/plugins/MinaWebpackPlugin.js:221-223 | a reference starting with "/" and free of ".." lands below the context whichever component refers to it |
| `EntryResolver.ReadManifest` | webpackLibs/plugins/MinaWebpackPlugin.js:210-212 | succeeds iff the manifest exists and parses, returning its content; a missing manifest is the not-found error, with no recovery |
| `EntryResolver.UnvisitedShrinks` | webpackLibs/plugins/MinaWebpackPlugin.js:226-228 | recording a new component that has a manifest strictly lowers the number of unvisited manifests, so the walk terminates even on cyclic references |
| `EntryResolver.Visit` | webpackLibs/plugins/MinaWebpackPlugin.js:209-231 | the component set only grows (the old set is a prefix of the new one) and stays free of duplicates |
| `EntryResolver.ExpandRefs` | webpackLibs/plugins/MinaWebpackPlugin.js:216-230 | over the `usingComponents` values, the set only grows and never holds a component twice |
| `EntryResolver.VisitAll` | webpackLibs/plugins/MinaWebpackPlugin.js:145-151 | walking several pages with one shared set only grows it and keeps it duplicate-free |
| `EntryResolver.NonPlugin` | webpackLibs/plugins/MinaWebpackPlugin.js:217-219 | keeps exactly the values that do not start with `plugin://` |
| `EntryResolver.PluginRefsIgnored` | webpackLibs/plugins/MinaWebpackPlugin.js:216-220 | `plugin://` values are never added or followed: the walk over all values equals the walk over the non-plugin ones |
| `EntryResolver.VisitComplete` | webpackLibs/plugins/MinaWebpackPlugin.js:209-231 | after a successful walk from a component, its manifest is readable, every non-plugin reference in it is recorded, and every component added during the walk was itself expanded |
| `EntryResolver.ExpandRefsComplete` | webpackLibs/plugins/MinaWebpackPlugin.js:216-230 | after the loop over the values, each non-plugin value's target is recorded, and every newly recorded component has all its references recorded |
| `EntryResolver.VisitAllComplete` | webpackLibs/plugins/MinaWebpackPlugin.js:145-151 | after the page loop, every page's references are recorded and the newly recorded components are closed under reference |
| `EntryResolver.VisitFound` | webpackLibs/plugins/MinaWebpackPlugin.js:209-231 | every component the walk from a page or component adds gets a finder: a source and the position of the referencing value in that source's `usingComponents`. The order of the walk is kept, and the source stays open for later finds |
| `EntryResolver.ExpandRefsFound` | webpackLibs/plugins/MinaWebpackPlugin.js:216-230 | the values of one manifest are met in order. A new component is recorded at its value's position, after every earlier non-plugin value of the same manifest is listed, and is walked at once before the next value |
| `EntryResolver.VisitAllFound` | webpackLibs/plugins/MinaWebpackPlugin.js:145-151 | the pages are walked in order: the components found from a page come after those of earlier pages, and no page after the last walked one is a source |
| `EntryResolver.ListIcons` | webpackLibs/plugins/MinaWebpackPlugin.js:169-177 | the icon set holds exactly the non-empty `iconPath` and `selectedIconPath` values of the tab-bar list |
| `EntryResolver.TabBarIcons` | webpackLibs/plugins/MinaWebpackPlugin.js:167-178 | no icons without an object tab bar; otherwise exactly the truthy icon paths of its list |
| `EntryResolver.CustomPages` | webpackLibs/plugins/MinaWebpackPlugin.js:179-182 | `["custom-tab-bar/index"]` iff the tab bar is an object with truthy `custom`, otherwise empty |
| `EntryResolver.JoinEach` | webpackLibs/plugins/MinaWebpackPlugin.js:156 | each page of a sub-package becomes `path.join(root, page)`, in order |
| `EntryResolver.SubPackagePagesAppend` | webpackLibs/plugins/MinaWebpackPlugin.js:153-157 | sub-package pages are concatenated package by package, in package order |
| `EntryResolver.SubPackagePagesMembers` | webpackLibs/plugins/MinaWebpackPlugin.js:153-157 | the sub-package pages are exactly `path.join(root, page)` over every page of every sub-package |
| `EntryResolver.ResolveEach` | webpackLibs/plugins/MinaWebpackPlugin.js:149 | each page is resolved against the context, in order |
| `EntryResolver.AnalyzeAppJson` | webpackLibs/plugins/MinaWebpackPlugin.js:132-137 | a missing `app.json` is the not-found error and a malformed one the parse error; success implies a parsed manifest |
| `EntryResolver.AnalyzeConfig` | webpackLibs/plugins/MinaWebpackPlugin.js:140-200 | a manifest without `pages` fails; on success the tab-bar icons are those of the manifest |
| `EntryResolver.CollectComponents` | webpackLibs/plugins/MinaWebpackPlugin.js:143-191 | the three walks over pages, sub-package pages and custom pages share one set, which ends duplicate-free |
| `EntryResolver.VisitAllListsPages` | webpackLibs/plugins/MinaWebpackPlugin.js:145-151 | the references of every page a walk covered stay recorded in any later, larger set |
| `EntryResolver.CollectComponentsComplete` | webpackLibs/plugins/MinaWebpackPlugin.js:143-191 | every non-plugin reference of every page, sub-package page, custom page and recorded component is among the components |
| `EntryResolver.CollectComponentsFound` | webpackLibs/plugins/MinaWebpackPlugin.js:143-191 | the components of a successful walk can each be given a finder. The source is a page (pages, then sub-package pages, then custom pages) or an earlier component, plus the value's position in that source's manifest. The order is depth first: a page is not returned to once a later one starts, and everything between a component source and its find lies below that source. Finds of one source follow its value order, and every earlier non-plugin value of that source is listed first |
| `EntryResolver.FoundSound` | webpackLibs/plugins/MinaWebpackPlugin.js:216-229 | with such finders, every component is a non-plugin reference of one of the walk's pages or of a component listed before it |
| `EntryResolver.EntriesLayout` | webpackLibs/plugins/MinaWebpackPlugin.js:194-200 | the five spread groups sit in order at their positions in the concatenation |
| `EntryResolver.FoundInValueOrder` | webpackLibs/plugins/MinaWebpackPlugin.js:216-230 | read back from the finders: earlier finds of a component's source come from earlier values, and every non-plugin value before its own is listed before it |
| `EntryResolver.AnalyzeConfigEntries` | webpackLibs/plugins/MinaWebpackPlugin.js:143-200 | a successful analysis yields "app", the pages as written, the joined sub-package pages, the custom page, then the components. The components are duplicate-free and closed under reference. Each is a non-plugin reference of a page or of an earlier component, and they are listed in the depth-first pre-order of the walk, with the children of each source in the order of its `usingComponents` values |
| `EntryResolver.FullScriptPath` | webpackLibs/plugins/MinaWebpackPlugin.js:248-261 | base plus the first extension, in configured order, whose file exists; "" when none does |
| `EntryResolver.ScriptPaths` | webpackLibs/plugins/MinaWebpackPlugin.js:99-100 | each entry's script is `getFullScriptPath(path.resolve(ctx, item))` |
| `EntryResolver.ScriptIndices` | webpackLibs/plugins/MinaWebpackPlugin.js:99-105 | the positions of the entries with a non-empty script, strictly increasing, and every such position |
| `EntryResolver.ScriptRegistrations` | webpackLibs/plugins/MinaWebpackPlugin.js:99-105 | exactly one single-entry registration per entry with a non-empty script, in entry order, in the context, named by that entry and requesting its script; entries without a script are skipped |
| `EntryResolver.RegisteredPairs` | webpackLibs/plugins/MinaWebpackPlugin.js:99-105 | read back: every registration pairs an entry with its non-empty script, and every entry with a script has a registration |
| `EntryResolver.ResolveAll` | webpackLibs/plugins/MinaWebpackPlugin.js:119 | each companion asset is resolved against the context, in order |
| `EntryResolver.HandleEntries` | webpackLibs/plugins/MinaWebpackPlugin.js:89-126 | succeeds iff the app manifest analysis does; all registrations but the last are the script registrations of the analysed entries, one per entry with a script, in entry order; the last is the multi-entry assets plugin with the resolved asset paths under the assets chunk name |
| `ChunkInjector.EnsurePosix` | webpackLibs/plugins/MinaWebpackPlugin.js:12-17 | same length; every platform separator becomes "/", every other character is kept |
| `ChunkInjector.EnsurePosixNormalises` | webpackLibs/plugins/MinaWebpackPlugin.js:12-17 | the identity on a "/" platform; otherwise no platform separator is left |
| `ChunkInjector.RequiredPath` | webpackLibs/plugins/MinaWebpackPlugin.js:20-26 | unchanged iff absolute; every other path gets the "./" prefix, so "../x" becomes "./../x" |
| `ChunkInjector.RequiredPathInjective` | webpackLibs/plugins/MinaWebpackPlugin.js:20-26 | different files give different require paths |
| `ChunkInjector.IsRuntimeExtracted` | webpackLibs/plugins/MinaWebpackPlugin.js:263-268 | true iff some chunk is only-initial, has the runtime and has no entry module |
| `ChunkInjector.Candidates` | webpackLibs/plugins/MinaWebpackPlugin.js:293-302 | holds exactly the filenames of group members other than the current chunk |
| `ChunkInjector.Dependencies` | webpackLibs/plugins/MinaWebpackPlugin.js:290-308 | duplicate-free; a filename is listed iff some group member other than the current chunk has it |
| `ChunkInjector.DependenciesInFirstSeenOrder` | webpackLibs/plugins/MinaWebpackPlugin.js:293-307 | filenames appear in the order of their first occurrence in group-then-member order |
| `ChunkInjector.PlanStep` | webpackLibs/plugins/MinaWebpackPlugin.js:302-306 | one loop step: a skipped member or a filename already listed leaves the list alone, a new one is appended |
| `ChunkInjector.PlanDependencies` | webpackLibs/plugins/MinaWebpackPlugin.js:290-308 | the nested `forEach` loop computes exactly the dependency list |
| `ChunkInjector.RenderWithEntry` | webpackLibs/plugins/MinaWebpackPlugin.js:272-321 | fails with the runtime-chunk message iff no runtime chunk exists; a non-entry chunk's source is unchanged; an entry chunk's output starts with ";" and ends with the original source |
| `ChunkInjector.RequireAllRoundTrip` | webpackLibs/plugins/MinaWebpackPlugin.js:311-317 | reading the concatenated `require('…');` statements back gives `requiredPath` of each file, in order |
| `ChunkInjector.RenderedEntryRequires` | webpackLibs/plugins/MinaWebpackPlugin.js:290-317 | between the ";" and the original source, an entry chunk's output holds exactly one `require` per dependency, in dependency order |
| `ChunkInjector.FindNamed` | webpackLibs/plugins/MinaWebpackPlugin.js:57-59 | the first index of a chunk with the name, and -1 iff there is none |
| `ChunkInjector.RemoveAssetsChunk` | webpackLibs/plugins/MinaWebpackPlugin.js:56-64 | unchanged without an assets chunk; otherwise exactly the first assets chunk is removed, and the other chunks keep their order |
| `ChunkInjector.RemoveAssetsChunkKeepsOthers` | webpackLibs/plugins/MinaWebpackPlugin.js:56-64 | every other chunk keeps its number of occurrences, and the removed chunk loses one |
| `LegacyPlugin.Inflate` | plugins/MinaWebpackPlugin.js:103-137 | throws iff the entry is empty or names no existing file; recorded entries only grow, and a throw leaves them unchanged |
| `LegacyPlugin.InflateWellFormed` | plugins/MinaWebpackPlugin.js:111-113 | recorded scripts stay duplicate-free, resolved and existing |
| `LegacyPlugin.InflatePreOrder` | plugins/MinaWebpackPlugin.js:111-130 | the first script a call records is the one it was asked for, and every later one is a listed child of a script recorded before it |
| `LegacyPlugin.InflateChildrenAborts` | plugins/MinaWebpackPlugin.js:118-135 | the loop over one key's values stops with an error exactly when a listed child names no existing script; the caller catches it |
| `LegacyPlugin.NoConfigNoChildren` | plugins/MinaWebpackPlugin.js:116-119 | a new script without a readable configuration is recorded alone |
| `LegacyPlugin.InflateEntries` | plugins/MinaWebpackPlugin.js:103-109 | the outermost call throws iff the entry is empty or missing, and then records nothing |
| `LegacyPlugin.InflateEntriesPreOrder` | plugins/MinaWebpackPlugin.js:103-137 | a successful walk records the app script first; every later script is a listed child of one recorded before it; each is recorded once and is an existing file |
| `LegacyPlugin.InflateComplete` | plugins/MinaWebpackPlugin.js:111-131 | a call that does not throw records the script it was asked for, and every script it records is expanded |
| `LegacyPlugin.ExpandFieldComplete` | plugins/MinaWebpackPlugin.js:118-135 | the loop over one key throws iff the value is `null` or a listed child is missing; the children before the first missing one are recorded |
| `LegacyPlugin.InflateChildrenComplete` | plugins/MinaWebpackPlugin.js:121-131 | every child listed before the first missing one is recorded, and every script the loop records is expanded |
| `LegacyPlugin.InflateEntriesComplete` | plugins/MinaWebpackPlugin.js:103-131 | after a successful walk every recorded script is expanded. With a parseable configuration its `pages` children are recorded up to the first missing one. Its `usingComponents` children are recorded too, unless the `pages` loop threw |
| `LegacyPlugin.InflateDepthFirst` | plugins/MinaWebpackPlugin.js:111-131 | recording a listed child and its subtree keeps a parent and value-position assignment. In it, every script between a parent and its child lies below that parent, the parent's children follow its `pages` values then its `usingComponents` values in order, and the script of every earlier value is recorded first |
| `LegacyPlugin.DepthFirstListed` | plugins/MinaWebpackPlugin.js:118-131 | in a depth-first assignment, every script's parent lists it under `pages` or `usingComponents` |
| `LegacyPlugin.InflateEntriesDepthFirst` | plugins/MinaWebpackPlugin.js:103-137 | the scripts of a successful walk are in depth-first pre-order. Each has a parent before it, recorded from a position in the parent's `pages` then `usingComponents` values. Every script between the two lies below that parent, siblings come in value order, and the scripts of earlier values are recorded first |
| `LegacyPlugin.Registration` | plugins/MinaWebpackPlugin.js:157-161 | each recorded script is registered through a single-entry plugin |
| `LegacyPlugin.Registrations` | plugins/MinaWebpackPlugin.js:155-162 | one registration per recorded script, in recording order |
| `LegacyPlugin.RequestResolvesToItem` | plugins/MinaWebpackPlugin.js:159 | the registered request `./` + relative path resolves back to the recorded script |
| `LegacyPlugin.EntryNameDropsExtension` | plugins/MinaWebpackPlugin.js:160 | the entry name followed by the script's extension is the script's context-relative path |
| `LegacyPlugin.Apply` | plugins/MinaWebpackPlugin.js:147-165 | registers nothing iff the walk throws; otherwise the i-th registration is the one for the i-th recorded script, and there is at least one |
| `Objects.Get` | webpackLibs/loaders/wxml-loader.js:73 | `undefined` iff the key is absent; otherwise a value stored under the key |
| `Objects.GetListed` | webpackLibs/loaders/wxml-loader.js:73 | in a real object each listed property is what a lookup finds |
| `Objects.Set` | webpack.config.js:46 | an existing key keeps its place and a new key goes last; the key then holds the value, no other key changes, and keys stay distinct |
| `Objects.Spread` | webpackLibs/loaders/wxml-loader.js:98-101 | the keys of the first object keep their order at the front, and keys stay distinct |
| `Objects.SpreadGet` | webpackLibs/loaders/wxml-loader.js:98-101 | in `{...a, ...b}` a key of `b` has `b`'s value and every other key has `a`'s |
| `Objects.SpreadTwice` | webpackLibs/loaders/wxml-loader.js:98-101 | spreading the same object twice equals spreading it once |
| `Objects.AssignEachGet` | webpackLibs/loaders/wxml-loader.js:96-105 | assigning each custom key in turn gives each key the value computed from the original's value, and leaves other keys alone |
| `Objects.SetNewKeyAppends` | webpack.config.js:46 | assigning a key the object lacks appends the property |
| `WxmlLoader.CollectedTags` | webpackLibs/loaders/wxml-loader.js:18-50 | nine tags, each with one or two attributes, every attribute switched on |
| `WxmlLoader.UrlPatternIsRemote` | webpackLibs/loaders/wxml-loader.js:59 | the pattern `^(https?:)?\/\/` matches exactly the paths starting with "//", "http://" or "https://" |
| `WxmlLoader.ValidLocalPath` | webpackLibs/loaders/wxml-loader.js:57-64 | null iff the path is empty, contains "{{" or is remote; otherwise the path itself |
| `WxmlLoader.Collect` | webpackLibs/loaders/wxml-loader.js:77-84 | at most one path per attribute, each non-empty and local; a path is collected iff a switched-on attribute present on the node holds it |
| `WxmlLoader.CollectAppend` | webpackLibs/loaders/wxml-loader.js:77-84 | paths follow the table's attribute order |
| `WxmlLoader.ResourceRelativePaths` | webpackLibs/loaders/wxml-loader.js:71-88 | nothing for a tag missing from the table; otherwise the paths its attributes contribute, each a valid local path |
| `WxmlLoader.MergeTags` | webpackLibs/loaders/wxml-loader.js:96-105 | a custom tag already present gets its attributes spread with the custom flags over them, a new tag is taken as given, other tags are unchanged; default keys keep their order |
| `WxmlLoader.MergeCollectedTags` | webpackLibs/loaders/wxml-loader.js:90-107 | a falsy, non-object or empty option leaves the table unchanged; otherwise every custom tag is merged as above |
| `WxmlLoader.MergeIdempotent` | webpackLibs/loaders/wxml-loader.js:90-107 | merging the same option a second time changes no tag |
| `BuildConfig.Test` | webpack.config.js:48-50 | true iff the module has a non-empty resource path that contains the root somewhere |
| `BuildConfig.TestMatchesAnywhere` | webpack.config.js:48-50 | the root matches wherever it occurs in the resource path, not only at the start |
| `BuildConfig.GroupKeyInjective` | webpack.config.js:46 | different indices give different `subVendor<i>` keys |
| `BuildConfig.ReduceGroupsShape` | webpack.config.js:45-54 | after the first n steps of the reduce, the object holds exactly the first n groups in index order |
| `BuildConfig.SubPackageRoots` | webpack.config.js:40-43 | one root per sub-package, in order, with `subpackages` preferred over `subPackages` |
| `BuildConfig.SplitChunksCacheGroups` | webpack.config.js:33-59 | one group per sub-package, keyed `subVendor<i>` by index, named `<root>/vendor`, testing its root, priority 0; none without sub-packages |
| `BuildConfig.CacheGroupLookup` | webpack.config.js:45-54 | the group of sub-package i is found under its key |
| `BuildConfig.UseFileLoader` | webpack.config.js:61-66 | loader `file-loader` with name `[path][name].<ext>`, where ext defaults to `[ext]` |
| `TapableCompat.CamelCase` | Tapable.js:20-22 | the camelCase form is never longer than the name |
| `TapableCompat.CamelCaseHead` | Tapable.js:20-22 | the first character keeps its case |
| `TapableCompat.CamelCaseUnmatched` | Tapable.js:20-22 | a name without a "-" or " " before a lower-case letter is unchanged |
| `TapableCompat.CamelCaseMatchedShrinks` | Tapable.js:20-22 | a name with such a pair gets shorter |
| `TapableCompat.CamelCaseNoMatch` | Tapable.js:20-22 | no "-" or " " before a lower-case letter is left after the global replace |
| `TapableCompat.CamelCaseFixedPoint` | Tapable.js:20-22 | a name is its own camelCase form iff it has no such pair |
| `TapableCompat.CamelCaseIdempotent` | Tapable.js:20-22 | applying the camelCase replace twice is applying it once |
| `TapableCompat.CamelCaseFirstMatch` | Tapable.js:20-22 | at the first "-" or " " before a lower-case letter, the pair becomes that letter upper-cased; the part before is kept, and the part after is converted on its own |
| `TapableCompat.MatchSplits` | Tapable.js:20-22 | a name with such a pair splits at its first one into an unmatched head, the pair and the rest |
| `TapableCompat.FirstHook` | Tapable.js:30-37 | none iff no candidate name has a hook; otherwise a hooked name with no hooked name before it |
| `TapableCompat.Register` | Tapable.js:16-28 | tapping adds exactly the new tap and keeps the taps in ascending stage order |
| `TapableCompat.CompatTaps` | Tapable.js:16-28 | the camelCase tap (stage 100) runs before the lookup tap (stage 200) |
| `TapableCompat.FirstHookRegistrable` | Tapable.js:30-38 | a hook is found iff some candidate name has one |
| `TapableCompat.CompatCallSteps` | Tapable.js:16-47 | the bail call adds the camelCase form, then taps the first hooked candidate and returns true, or returns undefined |
| `TapableCompat.PluginCompat` | Tapable.js:26-47 | true iff some candidate (the name, then its camelCase form) has a hook, with one registration on the first such hook named `fn.name` or "unnamed compat plugin", stage `options.stage` or 0, async iff requested; undefined and no registration otherwise |
| `TapableCompat.SingleNameCall` | Tapable.js:64-68 | for one name the compat call finds the name's own hook, else its camelCase form's |
| `TapableCompat.PluginOne` | Tapable.js:64-75 | throws the "could not be registered" message iff neither the name nor its camelCase form has a hook; otherwise exactly one registration on that hook |
| `TapableCompat.PluginEach` | Tapable.js:58-63 | registers the names in order and stops at the first unhooked name, throwing its message; earlier registrations stay |
| `TapableCompat.ApplyAllConcat` | Tapable.js:78-82 | applying two lists of plugins is applying the first, then the second, in argument order |

## Left out

- File-system and glob I/O are parameters. `fs.readFileSync` and `JSON.parse` become a map from path to parsed content (or a malformed marker). `fs.existsSync` is map or set membership. The `globby.sync` companion-asset scan is an input list.
- The asynchronous tab-bar icon emit (`fse.stat`/`readFile` under `Promise.all`) is left out. It is asynchronous I/O; the model keeps only the icon set it reads from.
- Webpack's own machinery is not modelled: hook registration in `apply`, `watchRun`, and the internals of `SingleEntryPlugin`, `MultiEntryPlugin` and `ConcatSource`. The plugins are a tagged record, and `ConcatSource` is string concatenation.
- Node's `path` on Windows is left out. Paths are POSIX, and the separator is a parameter only for `ensurePosix`.
- `path.join(context, val)` keeps a trailing "/" that the component path drops. Components are compared as normalised paths. For a value ending in "/", the source then reads the manifest `${cpn}.json`, i.e. `<ctx>/comp/.json`. The model reads `<ctx>/comp.json`, a different manifest.
- Chunk identity (`chunk === curChunk`) is an `id` field.
- The sax parser, `urlToRequest`, `addDependency`/`loadModule` and the loader's async callback flow are external or asynchronous. Nodes arrive already parsed.
- Custom tag-table values are modelled as objects of boolean flags. A non-object value for a tag is not modelled.
- JavaScript orders integer-like object keys before the others. Keys are kept in insertion order, which agrees for the non-numeric tag, attribute and `subVendor<i>` keys used here.
- SyncBailHook.js's code generation is not modelled. The Hook.js file that orders taps is not part of this model: taps are taken to run in ascending stage order, stable for equal stages, and only the bail rule is kept.
- `util.deprecate`, `Tapable.addCompatLayer` and the nested arrays accepted by `plugin` are left out. `util` is never imported, so the file as written fails at load; the inner bodies are modelled.
- A sub-package without a `root` (the key `undefined/vendor`) is not modelled. Roots are strings.
- `useFileLoader(null)` is not modelled. The parameter is an `Option`, and only `undefined` falls back to the default.
- All `console.log` diagnostics are left out.
- `testTapableHook/`, `dist/`, `src/` and the static option objects of `webpack.config.js` are left out. They are demos, generated output, sample app code and constants.
- WxmlLoader.CollectedTags: the contract does not state that the nine tag names are distinct, nor the exact attribute names. Both are literals in the body, and the distinctness proof was too costly.
- LegacyPlugin.EntryNameDropsExtension: stated only for scripts below the context whose stem is a plain name. A script outside the context has ".." segments.
- TapableCompat.CamelCase: its own contract only bounds the length. What it computes is stated by CamelCaseFirstMatch, MatchSplits and CamelCaseUnmatched. The first match is upper-cased and the rest converted in turn. CamelCaseNoMatch, CamelCaseFixedPoint and CamelCaseHead add consequences.
- EntryResolver.Visit, EntryResolver.ExpandRefs and EntryResolver.VisitAll: their own contracts state only growth and duplicate-freedom. Completeness is stated by VisitComplete, ExpandRefsComplete and VisitAllComplete. Soundness and depth-first order are stated by VisitFound, ExpandRefsFound and VisitAllFound.
- A chunk whose `name` is null is not modelled. Chunk names are strings. In the source, `path.dirname(null)` in the render hook and `path.relative` throw a `TypeError`.
- A manifest whose `usingComponents` is `null` is not modelled in the mature plugin. There `Object.values(null)` throws a `TypeError`. Its manifests hold a list of string values, and a missing key is the empty object. The first draft models `null` (its `Field`).
- A `usingComponents` value that is not a string is not modelled. `val.indexOf` would throw on it.
- EntryResolver.AnalyzeConfig: its own contract states only the failure without `pages` and the icon set. The entry list is stated by AnalyzeConfigEntries.
- Objects.Spread: its own contract states only key order and distinctness. The values are stated by SpreadGet.
