# Sorted explorer: a Dafny model

This project models the core of a VS Code extension that shows the
workspace as a tree. In that tree, every directory's children are ordered
by a user-written `sorting-config.json`. The model covers the following:

- **Rank lookup** (`getOrderIndex`). A name's rank is its first position
  in an order list. An entry matches when it is that string, or an object
  that has the name as a key.
- **Comparator and stable sort** (`sortItems`). Ranked names come first,
  by ascending rank. Unranked names follow, in name order.
- **Nested-config resolver** (`getSubConfig`). It walks the path segments
  of a directory, relative to the workspace root, down through object
  entries. A miss gives no configuration.
- **Directory listing** (`getFilesAndFolders`, `getChildren`). The listing
  is split into folders and files, and anything that is neither is
  dropped. Folders are sorted by the directory's configuration. Files are
  sorted by its `default` member, or by an empty list. Folders come first.
- **Action-layer decisions.**
  - Expanding context options into a context-key table
    (`prepareContextActionGetters`).
  - Choosing the target item of a single-item command (`getActionsBase`).
  - The open-file command's gate and its double-click state machine.

Files:

| file | module | models |
|---|---|---|
| `wrappers.dfy` | `Wrappers` | `Option`, standing for `undefined`/`null` |
| `strings.dfy` | `Strings` | name order in place of `localeCompare`; backslash normalisation, `split('/')` and `join` |
| `order_config.dfy` | `OrderConfig` | config datatypes, `getOrderIndex`, `getSubConfig` |
| `sorting.dfy` | `Sorting` | the comparator and the stable sort of `sortItems` |
| `listing.dfy` | `Listing` | `getFilesAndFolders`, `getChildren` |
| `actions.dfy` | `Actions` | `prepareContextActionGetters`, `getActionsBase` |
| `open_file.dfy` | `OpenFile` | `OpenFileCommand` |

## Data model

- The configuration value is `Config`. It is one of three things: absent
  (`NoConfig`), an order list (`OrderList`, the usual JSON array), or a
  JSON object whose members are order lists (`Members`).
- An order list holds `OrderEntry` values. Each is a bare `Name(string)`,
  or a `Keyed` object mapping directory names to their own order lists. An
  object may carry several keys.
- A directory read is a sequence of `DirEntry(name, kind)`. The kind is
  `Directory`, `File` or `Other`. A listing is a sequence of
  `TreeNode(name, state)`. The state is `Collapsed` for a folder and
  `Leaf` for a file.
- Sorting works on base names. That is all the comparator reads, and
  `path.basename(path.join(dir, name))` is `name`.
- `localeCompare` is replaced by lexicographic order on character codes
  (`Strings.Compare`).
- `Array.prototype.sort` is replaced by a stable insertion sort. The sort
  is proved unique (`Sorting.SortedUnique`): any stable sort with this
  comparator returns the same sequence.

Facts about the program that shape the model:
- The configuration is the `sort` member of one file,
  `sorting-config.json`. Each directory is ranked by its own order list
  only.
- Folders and files are sorted separately, and folders always come first.
- Files are ranked only by `config['default']`, which an array never has.
  So with an array-shaped configuration, files are plain name order.
- The root listing uses the whole configuration directly.
  `getSubConfig` never sees zero segments, because
  `"".split('/')` is `[""]`.
- A configuration that is not an array makes `getSubConfig` throw
  instead of being treated as empty (see Findings).

## Model

| member | source | states |
|---|---|---|
| `OrderConfig.Rank` | src/CustomExplorer.ts:86-96 | The rank is the smallest index whose entry is the name or an object with the name as own key. It is -1 exactly when no entry matches, and -1 for an absent or object-shaped configuration. |
| `OrderConfig.FirstMatch` | src/CustomExplorer.ts:88-95 | The scan over an order list returns the first position whose entry passes the test, or -1 exactly when none does. The same scan serves the inner loop at lines 106-112. |
| `OrderConfig.InheritedMemberIsRanked` | src/CustomExplorer.ts:91 | As written, `toString` is ranked 0 by a list whose only entry is `{"src": []}`. The own-key rank of that name is -1. |
| `OrderConfig.RankAgreesOffPrototype` | src/CustomExplorer.ts:89-93 | For every name that is not an `Object.prototype` member, the as-written lookup and the own-key lookup give the same rank. |
| `OrderConfig.Descend` | src/CustomExplorer.ts:106-112 | A segment descends into the value of the first object entry that has it as a key. Bare string entries never match. There is no value exactly when no object entry has the key. |
| `OrderConfig.Step` | src/CustomExplorer.ts:104-116 | One segment yields an order list exactly when the current configuration is a list with an object entry keyed by the segment. That list is the value under the segment in the first such entry. Otherwise the segment yields no configuration. |
| `OrderConfig.SubConfigAsWrittenThrowsWithoutList` | src/CustomExplorer.ts:101-106 | As written, with no configuration file (or an object-shaped one), `getSubConfig` throws for every directory. |
| `OrderConfig.Segments` | src/CustomExplorer.ts:99-100 | There is at least one segment, and no segment contains `/` or `\`. Joining the segments with `/` gives the path with every backslash turned into `/`. |
| `OrderConfig.Resolve` | src/CustomExplorer.ts:103-117 | No segments leave the configuration unchanged. After at least one segment the result is an order list or nothing, and it is nothing whenever the starting configuration is not an order list. |
| `OrderConfig.ResolveSubConfig` | src/CustomExplorer.ts:98-120 | The resolved configuration is an order list or nothing. It is nothing whenever the root is not an order list. |
| `OrderConfig.ResolveAgreesWithAsWritten` | src/CustomExplorer.ts:103-117 | Wherever the source's loop does not throw and no segment names an `Object.prototype` member, the corrected walk returns the same configuration. |
| `OrderConfig.NoConfigStaysNone` | src/CustomExplorer.ts:114-116 | After a miss, no later segment can recover a configuration. There is no partial match. |
| `OrderConfig.ResolveSnoc` | src/CustomExplorer.ts:103-117 | Resolving `p + [s]` is one more step from the resolution of `p`. |
| `OrderConfig.ResolveAsWrittenSnoc` | src/CustomExplorer.ts:101-117 | The same composition law holds for the source's loop when the root configuration is an order list and no segment names an `Object.prototype` member. |
| `OrderConfig.InheritedSegmentMisleads` | src/CustomExplorer.ts:107 | As written, a directory named `constructor` is answered by the first object entry through its prototype. Under `[{"src": []}]` the walk below it throws, while the own-key walk finds no configuration. Under `[{"src": []}, {"constructor": ["b", "a"]}]` the walk stops at an inherited function that ranks nothing, while the own-key walk finds `["b", "a"]`. |
| `OrderConfig.ResolveSubConfigEitherSeparator` | src/CustomExplorer.ts:99-100 | A relative path joined with `\` resolves like the same segments joined with `/`. Either resolves like the segment sequence itself. |
| `Strings.NormalizeSeparators` | src/CustomExplorer.ts:99 | Every backslash becomes `/` and every other character is kept. The result has no backslash. |
| `Strings.Split` | src/CustomExplorer.ts:100 | Splitting gives at least one segment, and no segment contains the separator. |
| `Strings.JoinSplit` | src/CustomExplorer.ts:100 | Joining the segments of a split gives back the original path. |
| `Strings.SplitJoin` | src/CustomExplorer.ts:100 | Splitting a join of separator-free segments gives back the segments. |
| `Strings.LexLeTotalOrder` | src/CustomExplorer.ts:81 | The name order standing in for `localeCompare` is total, antisymmetric and transitive. |
| `Sorting.Comparator` | src/CustomExplorer.ts:68-83 | The comparator is negative exactly when the first name's class comes first: ranked before unranked, lower rank first, unranked names by name. It is zero exactly on names of one class. |
| `Sorting.ComparatorConsistent` | src/CustomExplorer.ts:68-83 | The comparator is consistent. Swapping its arguments negates it, and it is zero exactly on names of one rank class. "May precede" is a total preorder. |
| `Sorting.Sort` | src/CustomExplorer.ts:68 | The sort returns a permutation of its input in which every name may precede every later name. |
| `Sorting.SortItems` | src/CustomExplorer.ts:67-84 | The output is a permutation of the input. Every ranked name comes before every unranked one, and ranked names are in non-decreasing rank. Unranked names are in ascending name order. With no order list, or an empty one, the whole output is in name order. |
| `Sorting.SortStable` | src/CustomExplorer.ts:68 | Names that compare equal keep their input order. |
| `Sorting.SortedUnique` | src/CustomExplorer.ts:68-83 | Two sequences that are sorted by the comparator and agree class by class are equal. |
| `Sorting.SortItemsCharacterised` | src/CustomExplorer.ts:67-84 | Any sequence that is sorted by the comparator and keeps every class in input order is exactly the output of `sortItems`. |
| `Listing.NamesOfKind` | src/CustomExplorer.ts:55-56 | The filter keeps no more names than the listing has entries, and every name it keeps is listed with the given kind. |
| `Listing.NamesOfKindCount` | src/CustomExplorer.ts:55-56 | Filtering keeps each name of the given kind as often as the listing has it, and nothing else. |
| `Listing.NamesOfKindConcat` | src/CustomExplorer.ts:55-56 | Filtering a concatenation is the concatenation of the filtered parts, so the filter keeps listing order. |
| `Listing.NamesOfKindSingle` | src/CustomExplorer.ts:55-56 | A single entry is kept exactly when it has the given kind. |
| `Listing.Nodes` | src/CustomExplorer.ts:59-64 | Each name becomes one node with the given collapsible state, in the same order. |
| `Listing.FileOrder` | src/CustomExplorer.ts:58 | Files are ranked by the configuration's `default` member when it is an object that has one. Otherwise they are ranked by an empty list. |
| `Listing.FilesAndFolders` | src/CustomExplorer.ts:53-65 | Every folder comes before every file. Each directory of the listing appears as a collapsed node, and each file as a leaf node, as often as it is listed. Other entries are dropped. |
| `Listing.FilesAndFoldersParts` | src/CustomExplorer.ts:57-59 | The folder part is the stable sorted rearrangement of the listing's directories under the directory's configuration. The file part is the same for the listing's files under `FileOrder`. |
| `Listing.UnconfiguredListingIsAlphabetical` | src/CustomExplorer.ts:57-58 | With no order list and no `default` member, folders and files each come out in name order. |
| `Listing.UnconfiguredFilesAreAlphabetical` | src/CustomExplorer.ts:58 | Without a `default` member, which covers every array-shaped configuration, files come out in name order. |
| `Listing.GetChildren` | src/CustomExplorer.ts:38-51 | Without a workspace the result is empty. The root is listed under the whole configuration. Below the root, a root that is not an order list, or a path that resolves to nothing, gives the unconfigured listing. |
| `Listing.SubdirectoryChildren` | src/CustomExplorer.ts:49 | A directory below the root, whose relative path is written with either separator, is listed under the configuration its segments resolve to. |
| `Listing.RootChildChildren` | src/CustomExplorer.ts:49 | A child directory of the root is listed under the list found under its name in the first object entry that has it. It is listed unconfigured when no entry has it. |
| `Actions.LastRegistering` | src/actions/ActionsCommand.ts:25 | The position found is the last option that registers the key, or -1 when none does. |
| `Actions.PrepareContextActionGetters` | src/actions/ActionsCommand.ts:23-33 | The key set is the union of the keys of all options. Each key maps to the getter of the last option registering it. An empty option list gives an empty table. |
| `Actions.AllowedContextsCover` | src/actions/ActionsCommand.ts:27-29 | Every key of an option starts with its context. A two-element option gives `context`, `context-standard` and `context-cps`, in that order, and never `context-fs`. A three-element option gives only `context-type`. |
| `Actions.AnyTypeOptionKeys` | src/actions/ActionsCommand.ts:27-29 | A two-element option yields exactly `context`, `context-standard` and `context-cps`, all mapped to its getter. |
| `Actions.OfTypeOptionKeys` | src/actions/ActionsCommand.ts:27-29 | A three-element option yields exactly the one key `context-type`. |
| `Actions.TargetItem` | src/actions/SingleItemActionsCommand.ts:11 | A clicked item is always chosen. Without one, the selection's element is chosen exactly when the selection has length 1. Otherwise nothing is chosen. |
| `Actions.ActionsBase` | src/actions/SingleItemActionsCommand.ts:10-13 | For each shape of context, the result is the getter's actions for the chosen item when the gate accepts it, and empty otherwise. |
| `Actions.SingleSelectionActsAsClick` | src/actions/SingleItemActionsCommand.ts:11 | With nothing clicked, a one-item selection gives the same actions as a click on that item. A selection of any other size gives the same actions as no selection. With a click, the selection does not change the actions. |
| `OpenFile.CheckDoubleClick` | src/commands/OpenFileCommand.ts:29-40 | A double click is reported exactly when a file was opened before, with the same path, less than 500 ms earlier. The state always becomes the item's path and the current time. |
| `OpenFile.FirstOpenIsSingle` | src/commands/OpenFileCommand.ts:30-31 | With no prior state, no double click is reported. |
| `OpenFile.SecondOpenWithinWindow` | src/commands/OpenFileCommand.ts:30-38 | Opening one file twice within 500 ms reports a double click the second time. Opening it twice 500 ms or more apart does not. Opening a different file never does. |
| `OpenFile.ShouldRun` | src/commands/OpenFileCommand.ts:15-17 | The gate accepts exactly an item with a defined, non-empty path. |
| `OpenFile.GetActions` | src/commands/OpenFileCommand.ts:19-27 | A missing item or path, or a missing file, gives no action and leaves the state unchanged. Otherwise the result is one open action for the path, in preview unless it is a double click. |
| `OpenFile.GateMatchesGetter` | src/commands/OpenFileCommand.ts:15-26 | When the file exists, `getActions` opens something exactly for the items the gate accepts. |
| `OpenFile.RefusedOpenKeepsDoubleClick` | src/commands/OpenFileCommand.ts:19-38 | A refused request between two opens of one file within the window does not break the double click: the second open still pins the file. |
| `OpenFile.OpenTwicePins` | src/commands/OpenFileCommand.ts:25-38 | Opening an existing file twice within the window, from no prior state, first previews it and then pins it. |
| `OpenFile.Run` | src/actions/SingleItemActionsCommand.ts:10-13 | For the chosen item, a refused gate or a missing file gives no action and keeps the state. Otherwise the result is one open action, in preview unless it is a double click, and the state records the path and the time. |
| `OpenFile.RunIsActionsBase` | src/actions/SingleItemActionsCommand.ts:10-13 | The command's run gives exactly the actions of the generic single-item rule, with `shouldRun` and `getActions` as gate and getter. |

## Left out

- `loadConfig` (src/CustomExplorer.ts:22-32) reads and parses
  `sorting-config.json`. This is file I/O and `JSON.parse`, so the parsed
  `sort` value is an input `Config`.
- `readdirSync`, `lstatSync`, and building `vscode.Uri`/`FileNode` values
  are host calls. `getFilesAndFolders` takes a sequence of names with
  kinds instead, and the file system is assumed not to change between
  its `lstatSync` calls.
- `getChildren`'s "No workspace folder open" message and its `Promise`
  wrapping are UI calls. Only the empty result is modelled.
- `path.relative(workspaceRoot, dirPath)` is a host path operation. The
  relative path is an input string.
- `refresh` and the tree-change event carry no ordering logic.
- `ExplorerCommands.ts`, `FileNode.ts` and `extension.ts` are UI glue and
  registration. `FileNode` as shown declares no `path` member, so the
  open-file command takes the item's path as an optional input.
- JSON values other than strings and objects of lists are not modelled.
  That covers numbers, `null`, nested arrays, and object members that are
  not arrays. Object members below the root are included: the source
  ranks files below the root by a nested `default` list, for example with
  `[{"src": {"default": ["index.ts"]}}]` (src/CustomExplorer.ts:58, with the
  configuration from line 108). The model descends only into order lists,
  so below the root `Listing.FileOrder` is always empty and files come out
  in name order. An object-shaped configuration with a `length` member is
  also not modelled: it would make `getOrderIndex` loop over it.
- A context named `__proto__` is not modelled: `Object.assign` would
  change the result's prototype rather than add a key.
- `Strings.Compare`: does not model locale collation (accents, case
  folding, numeric collation), because `localeCompare` depends on the
  host's locale tables. It is one fixed order instead: lexicographic on
  Dafny characters, which are Unicode scalar values, not JavaScript's
  UTF-16 code units.
- `OpenFile.CheckDoubleClick`: does not model the two separate
  `new Date()` readings (src/commands/OpenFileCommand.ts:33 and 38). One
  integer time stands for both.
- `fs.existsSync` is a boolean input.
- The `async`/`await` wrapping of `getActions` and `getActionsBase` is
  left out. They are modelled as plain functions.

## Findings

| source | as written | input that shows it | evidently intended | confidence | as-written member | corrected member |
|---|---|---|---|---|---|---|
| src/CustomExplorer.ts:101-106 | `for (const item of config)` iterates the stored configuration. That value is `null` when there is no `sorting-config.json` (line 29), so the loop throws a `TypeError`. | No configuration file; expand any folder below the root. | A folder with no configuration is listed unconfigured: folders then files, each in name order. | high; not executed | `OrderConfig.SubConfigAsWrittenThrowsWithoutList` (about `OrderConfig.SubConfigAsWritten`) | `OrderConfig.ResolveSubConfig` |
| src/CustomExplorer.ts:91 | `order[i][name] !== undefined` also holds for members inherited from `Object.prototype`. | A file named `toString` in a directory whose order list is `[{"src": []}]` is ranked 0. | Only an object's own keys rank a name, so the file is unranked (-1). | high; not executed | `OrderConfig.InheritedMemberIsRanked` (about `OrderConfig.RankAsWritten`) | `OrderConfig.Rank` |
| src/CustomExplorer.ts:107 | `item[part] !== undefined` also holds when the directory name is a member inherited from `Object.prototype`, so the first object entry answers it. | Configuration `[{"src": []}, {"constructor": ["b", "a"]}]`; expand the folder `constructor`, which holds folders `a` and `b`. The walk stops at the inherited `Object` function, which ranks nothing, so the folders are listed `a`, `b`. Under `[{"src": []}]`, expanding `constructor/x` throws. | Only an object's own keys open a segment: `constructor` lists `b`, `a`, and `constructor/x` is listed unconfigured. | high; not executed | `OrderConfig.InheritedSegmentMisleads` (about `OrderConfig.ResolveAsWritten`) | `OrderConfig.ResolveSubConfig` |

The rest of the model uses the corrected members. `OrderConfig.ResolveAgreesWithAsWritten`
and `OrderConfig.RankAgreesOffPrototype` prove that the corrections change
nothing else: the walks agree whenever the configuration is an order list
and no segment names an `Object.prototype` member, and the ranks agree for
every name that is not such a member.

