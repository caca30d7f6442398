/** `getFilesAndFolders` and `getChildren`: one directory listing split into
    folders and files, each part sorted, folders first. The directory read
    (`readdirSync` and `lstatSync`) is an input sequence of names with their
    kind. */
module Listing {
  import opened Wrappers
  import opened OrderConfig
  import Sorting
  import Strings

  /** What `lstatSync` reports for a name: a directory, a regular file, or
      neither (a symbolic link, a socket, ...). */
  datatype Kind = Directory | File | Other

  datatype DirEntry = DirEntry(name: string, kind: Kind)

  /** The collapsible state a tree node is built with: directories start
      collapsed, files have no children. */
  datatype Collapsible = Collapsed | Leaf

  datatype TreeNode = TreeNode(name: string, state: Collapsible)

  /** `items.filter(...)`: the names of one kind, in listing order. */
  function NamesOfKind(listing: seq<DirEntry>, kind: Kind): (names: seq<string>)
    ensures |names| <= |listing|
    ensures forall n :: n in names ==> DirEntry(n, kind) in listing
    decreases |listing|
  {
    if |listing| == 0 then []
    else (if listing[0].kind == kind then [listing[0].name] else []) + NamesOfKind(listing[1..], kind)
  }

  /** Filtering keeps every entry of the kind, as often as the listing has
      it, and nothing else. */
  lemma {:induction false} NamesOfKindCount(listing: seq<DirEntry>, kind: Kind)
    ensures forall n :: multiset(NamesOfKind(listing, kind))[n] == multiset(listing)[DirEntry(n, kind)]
    decreases |listing|
  {
    if |listing| > 0 {
      NamesOfKindCount(listing[1..], kind);
      NamesOfKindUnfold(listing, kind);
      assert listing == [listing[0]] + listing[1..];
      forall n
        ensures multiset(NamesOfKind(listing, kind))[n] == multiset(listing)[DirEntry(n, kind)]
      {
        CountStep(listing[0], listing[1..], NamesOfKind(listing[1..], kind), kind, n);
      }
    }
  }

  /** One entry in front adds one to the count of its name exactly when it
      is of the kind. */
  lemma CountStep(e: DirEntry, rest: seq<DirEntry>, restNames: seq<string>, kind: Kind, n: string)
    requires multiset(restNames)[n] == multiset(rest)[DirEntry(n, kind)]
    ensures multiset((if e.kind == kind then [e.name] else []) + restNames)[n]
      == multiset([e] + rest)[DirEntry(n, kind)]
  {
    assert multiset([e] + rest) == multiset{e} + multiset(rest);
  }

  /** Filtering distributes over concatenation: each part keeps its own
      names in listing order, the first part's before the second's. */
  lemma {:induction false} NamesOfKindConcat(a: seq<DirEntry>, b: seq<DirEntry>, kind: Kind)
    ensures NamesOfKind(a + b, kind) == NamesOfKind(a, kind) + NamesOfKind(b, kind)
    decreases |a|
  {
    if |a| == 0 {
      assert a + b == b;
    } else {
      var head := if a[0].kind == kind then [a[0].name] else [];
      calc {
        NamesOfKind(a + b, kind);
        { NamesOfKindUnfold(a + b, kind); ConcatTail(a, b); }
        head + NamesOfKind(a[1..] + b, kind);
        { NamesOfKindConcat(a[1..], b, kind); }
        head + (NamesOfKind(a[1..], kind) + NamesOfKind(b, kind));
        (head + NamesOfKind(a[1..], kind)) + NamesOfKind(b, kind);
        { NamesOfKindUnfold(a, kind); }
        NamesOfKind(a, kind) + NamesOfKind(b, kind);
      }
    }
  }

  lemma ConcatTail(a: seq<DirEntry>, b: seq<DirEntry>)
    requires |a| > 0
    ensures (a + b)[0] == a[0] && (a + b)[1..] == a[1..] + b
  {
  }

  lemma NamesOfKindUnfold(listing: seq<DirEntry>, kind: Kind)
    requires |listing| > 0
    ensures NamesOfKind(listing, kind)
      == (if listing[0].kind == kind then [listing[0].name] else []) + NamesOfKind(listing[1..], kind)
  {
  }

  /** A single entry is kept exactly when it is of the kind. Together with
      `NamesOfKindConcat` this fixes the result as the listing's names of
      that kind in listing order. */
  lemma NamesOfKindSingle(e: DirEntry, kind: Kind)
    ensures NamesOfKind([e], kind) == if e.kind == kind then [e.name] else []
  {
    assert [e][1..] == [];
  }

  /** Tree nodes for names of one state, in order. */
  function Nodes(names: seq<string>, state: Collapsible): (r: seq<TreeNode>)
    ensures |r| == |names|
    ensures forall i :: 0 <= i < |r| ==> r[i] == TreeNode(names[i], state)
  {
    if |names| == 0 then [] else [TreeNode(names[0], state)] + Nodes(names[1..], state)
  }

  /** The names of the nodes in one state, in order. */
  function NamesIn(nodes: seq<TreeNode>, state: Collapsible): seq<string>
  {
    if |nodes| == 0 then []
    else (if nodes[0].state == state then [nodes[0].name] else []) + NamesIn(nodes[1..], state)
  }

  /** The order list files are ranked by: `config['default'] || []` when
      there is a configuration, `[]` otherwise. An array has no `default`
      member, so only an object-shaped configuration can rank files. */
  function FileOrder(config: Config): (r: Config)
    ensures r.OrderList?
    ensures r.entries != [] ==>
      config.Members? && "default" in config.fields && r.entries == config.fields["default"]
    ensures config.Members? && "default" in config.fields ==> r.entries == config.fields["default"]
  {
    match config
    case Members(fields) => OrderList(if "default" in fields then fields["default"] else [])
    case _ => OrderList([])
  }

  /** `getFilesAndFolders(dirPath, config)`. */
  function FilesAndFolders(listing: seq<DirEntry>, config: Config): (r: seq<TreeNode>)
    ensures forall i, j :: 0 <= i < j < |r| && r[i].state == Leaf ==> r[j].state == Leaf
    ensures forall n :: multiset(r)[TreeNode(n, Collapsed)] == multiset(listing)[DirEntry(n, Directory)]
    ensures forall n :: multiset(r)[TreeNode(n, Leaf)] == multiset(listing)[DirEntry(n, File)]
  {
    var folders := NamesOfKind(listing, Directory);
    var files := NamesOfKind(listing, File);
    NamesOfKindCount(listing, Directory);
    NamesOfKindCount(listing, File);
    var sortedFolders := Sorting.SortItems(folders, config);
    var sortedFiles := Sorting.SortItems(files, FileOrder(config));
    FoldersThenFiles(sortedFolders, sortedFiles);
    Nodes(sortedFolders, Collapsed) + Nodes(sortedFiles, Leaf)
  }

  lemma FoldersThenFiles(folders: seq<string>, files: seq<string>)
    ensures var r := Nodes(folders, Collapsed) + Nodes(files, Leaf);
      && (forall i, j :: 0 <= i < j < |r| && r[i].state == Leaf ==> r[j].state == Leaf)
      && (forall n :: multiset(r)[TreeNode(n, Collapsed)] == multiset(folders)[n])
      && (forall n :: multiset(r)[TreeNode(n, Leaf)] == multiset(files)[n])
  {
    NodesCount(folders, Collapsed);
    NodesCount(files, Leaf);
  }

  lemma {:induction false} NodesCount(names: seq<string>, state: Collapsible)
    ensures forall n :: multiset(Nodes(names, state))[TreeNode(n, state)] == multiset(names)[n]
    ensures forall t: TreeNode :: t.state != state ==> multiset(Nodes(names, state))[t] == 0
    decreases |names|
  {
    if |names| > 0 {
      NodesCount(names[1..], state);
      assert names == [names[0]] + names[1..];
      assert Nodes(names, state) == [TreeNode(names[0], state)] + Nodes(names[1..], state);
    }
  }

  lemma {:induction false} NamesInNodes(names: seq<string>, state: Collapsible, other: Collapsible)
    ensures NamesIn(Nodes(names, state), state) == names
    ensures other != state ==> NamesIn(Nodes(names, state), other) == []
    decreases |names|
  {
    if |names| > 0 {
      NamesInNodes(names[1..], state, other);
      assert Nodes(names, state)[1..] == Nodes(names[1..], state);
    }
  }

  lemma {:induction false} NamesInConcat(a: seq<TreeNode>, b: seq<TreeNode>, state: Collapsible)
    ensures NamesIn(a + b, state) == NamesIn(a, state) + NamesIn(b, state)
    decreases |a|
  {
    if |a| > 0 {
      NamesInConcat(a[1..], b, state);
      assert (a + b)[1..] == a[1..] + b;
    } else {
      assert a + b == b;
    }
  }

  /** The folders of a listing appear in the order `sortItems` gives them
      under the directory's configuration, the files in the order it gives
      them under `FileOrder`: each part is sorted by the comparator and
      keeps the listing order within a class, which fixes it uniquely. */
  lemma FilesAndFoldersParts(listing: seq<DirEntry>, config: Config)
    ensures Sorting.Sorted(NamesIn(FilesAndFolders(listing, config), Collapsed), config)
    ensures Sorting.Sorted(NamesIn(FilesAndFolders(listing, config), Leaf), FileOrder(config))
    ensures forall k ::
      Sorting.ClassOf(NamesIn(FilesAndFolders(listing, config), Collapsed), k, config)
      == Sorting.ClassOf(NamesOfKind(listing, Directory), k, config)
    ensures forall k ::
      Sorting.ClassOf(NamesIn(FilesAndFolders(listing, config), Leaf), k, FileOrder(config))
      == Sorting.ClassOf(NamesOfKind(listing, File), k, FileOrder(config))
  {
    var folders := NamesOfKind(listing, Directory);
    var files := NamesOfKind(listing, File);
    var sortedFolders := Sorting.SortItems(folders, config);
    var sortedFiles := Sorting.SortItems(files, FileOrder(config));
    NamesInConcat(Nodes(sortedFolders, Collapsed), Nodes(sortedFiles, Leaf), Collapsed);
    NamesInConcat(Nodes(sortedFolders, Collapsed), Nodes(sortedFiles, Leaf), Leaf);
    NamesInNodes(sortedFolders, Collapsed, Leaf);
    NamesInNodes(sortedFiles, Leaf, Collapsed);
    assert NamesIn(FilesAndFolders(listing, config), Collapsed) == sortedFolders;
    assert NamesIn(FilesAndFolders(listing, config), Leaf) == sortedFiles;
    forall k
      ensures Sorting.ClassOf(sortedFolders, k, config) == Sorting.ClassOf(folders, k, config)
      ensures Sorting.ClassOf(sortedFiles, k, FileOrder(config)) == Sorting.ClassOf(files, k, FileOrder(config))
    {
      Sorting.SortStable(folders, k, config);
      Sorting.SortStable(files, k, FileOrder(config));
    }
  }

  /** With no order list for the directory and no `default` member, both
      parts come out in plain name order: the listing of a directory that no
      nested entry names. */
  lemma UnconfiguredListingIsAlphabetical(listing: seq<DirEntry>, config: Config)
    requires !config.OrderList?
    requires !(config.Members? && "default" in config.fields)
    ensures forall i, j :: 0 <= i < j < |NamesIn(FilesAndFolders(listing, config), Collapsed)| ==>
      Strings.LexLe(NamesIn(FilesAndFolders(listing, config), Collapsed)[i],
                    NamesIn(FilesAndFolders(listing, config), Collapsed)[j])
    ensures forall i, j :: 0 <= i < j < |NamesIn(FilesAndFolders(listing, config), Leaf)| ==>
      Strings.LexLe(NamesIn(FilesAndFolders(listing, config), Leaf)[i],
                    NamesIn(FilesAndFolders(listing, config), Leaf)[j])
  {
    var folders := NamesOfKind(listing, Directory);
    var files := NamesOfKind(listing, File);
    var sortedFolders := Sorting.SortItems(folders, config);
    var sortedFiles := Sorting.SortItems(files, FileOrder(config));
    NamesInConcat(Nodes(sortedFolders, Collapsed), Nodes(sortedFiles, Leaf), Collapsed);
    NamesInConcat(Nodes(sortedFolders, Collapsed), Nodes(sortedFiles, Leaf), Leaf);
    NamesInNodes(sortedFolders, Collapsed, Leaf);
    NamesInNodes(sortedFiles, Leaf, Collapsed);
  }

  /** Without a `default` member, and so for every array-shaped
      configuration, files come out in plain name order whatever ranks the
      folders. */
  lemma UnconfiguredFilesAreAlphabetical(listing: seq<DirEntry>, config: Config)
    requires !(config.Members? && "default" in config.fields)
    ensures forall i, j :: 0 <= i < j < |NamesIn(FilesAndFolders(listing, config), Leaf)| ==>
      Strings.LexLe(NamesIn(FilesAndFolders(listing, config), Leaf)[i],
                    NamesIn(FilesAndFolders(listing, config), Leaf)[j])
  {
    var folders := NamesOfKind(listing, Directory);
    var files := NamesOfKind(listing, File);
    var sortedFolders := Sorting.SortItems(folders, config);
    var sortedFiles := Sorting.SortItems(files, FileOrder(config));
    NamesInConcat(Nodes(sortedFolders, Collapsed), Nodes(sortedFiles, Leaf), Leaf);
    NamesInNodes(sortedFolders, Collapsed, Leaf);
    NamesInNodes(sortedFiles, Leaf, Collapsed);
  }

  /** `getChildren(element)`: without a workspace folder, nothing; for the
      root, the listing under the whole configuration; for a directory
      below it, the listing under the configuration resolved from its path
      relative to the workspace root. */
  function GetChildren(hasWorkspace: bool, element: Option<string>, root: Config,
                       listing: seq<DirEntry>): (r: seq<TreeNode>)
    ensures !hasWorkspace ==> r == []
    ensures hasWorkspace && element.None? ==> r == FilesAndFolders(listing, root)
    ensures hasWorkspace && element.Some? && !root.OrderList? ==> r == FilesAndFolders(listing, NoConfig)
    ensures hasWorkspace && element.Some? && Resolve(root, Segments(element.value)).NoConfig? ==>
      r == FilesAndFolders(listing, NoConfig)
  {
    if !hasWorkspace then []
    else
      match element
      case None => FilesAndFolders(listing, root)
      case Some(relativePath) => FilesAndFolders(listing, ResolveSubConfig(root, relativePath))
  }

  /** A directory below the root, given by separator-free path segments,
      is listed under the configuration its segments resolve to, whichever
      separator the host writes the relative path with. */
  lemma SubdirectoryChildren(root: Config, parts: seq<string>, listing: seq<DirEntry>)
    requires |parts| >= 1
    requires forall k :: 0 <= k < |parts| ==> Strings.Slash !in parts[k] && Strings.Backslash !in parts[k]
    ensures GetChildren(true, Some(Strings.Join(parts, Strings.Slash)), root, listing)
      == FilesAndFolders(listing, Resolve(root, parts))
    ensures GetChildren(true, Some(Strings.Join(parts, Strings.Backslash)), root, listing)
      == FilesAndFolders(listing, Resolve(root, parts))
  {
    ResolveSubConfigEitherSeparator(root, parts);
  }

  /** A direct child directory of the root is listed under the list found
      under its name in the first object entry that has it, and unconfigured
      when no entry has it or the root is not an order list. */
  lemma RootChildChildren(root: Config, name: string, listing: seq<DirEntry>)
    requires Strings.Slash !in name && Strings.Backslash !in name
    ensures root.OrderList? && Descend(root.entries, name).Some? ==>
      GetChildren(true, Some(name), root, listing)
      == FilesAndFolders(listing, OrderList(Descend(root.entries, name).value))
    ensures !root.OrderList? || Descend(root.entries, name).None? ==>
      GetChildren(true, Some(name), root, listing) == FilesAndFolders(listing, NoConfig)
  {
    SubdirectoryChildren(root, [name], listing);
    assert Strings.Join([name], Strings.Slash) == name;
    assert Resolve(root, [name]) == Resolve(Step(root, name), []);
  }
}
