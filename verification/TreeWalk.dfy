/** Which files the pruned walk over the directory tree recovers. */
module TreeWalk {
  import opened DirEntries
  import opened FatChains
  import opened Options
  import opened Paths
  import opened Seqs

  const MAX_DIR_DEPTH: nat := 64
  const PATH_BUFFER: nat := 4096

  /** A file and the directory path it is recovered under. */
  datatype Found = Found(path: string, file: FileInfo)

  /** What a cluster holds when it is read as a directory. */
  type Directories = nat -> Option<seq<FileInfo>>

  /** A name as text: the conversion to the output character set is a parameter. */
  type NameText = seq<CodeUnit> -> string

  /** The path of a directory inside `path`, as snprintf leaves it in its buffer. */
  function ChildPath(path: string, name: string): string {
    Take(if path == "" then name else path + "/" + name, PATH_BUFFER - 1)
  }

  predicate IsDots(name: string) {
    name == "." || name == ".."
  }

  /** kf_fat_walk_dir: the files recovered from one listing and the directories below it. */
  ghost function Walk(dirs: Directories, text: NameText, filter: string, path: string, files: seq<FileInfo>, depth: nat)
    : seq<Found>
    decreases MAX_DIR_DEPTH + 1 - depth, |files|, 1
  {
    if depth > MAX_DIR_DEPTH || files == [] then []
    else Visit(dirs, text, filter, path, files, depth) + Walk(dirs, text, filter, path, files[1..], depth)
  }

  /** What the first file of a listing contributes. */
  ghost function Visit(dirs: Directories, text: NameText, filter: string, path: string, files: seq<FileInfo>, depth: nat)
    : seq<Found>
    requires depth <= MAX_DIR_DEPTH && files != []
    decreases MAX_DIR_DEPTH + 1 - depth, |files|, 0
  {
    var file := files[0];
    var name := text(file.name);
    if name == "" then []
    else if !file.isDirectory then if IsWithin(filter, path) then [Found(path, file)] else []
    else if IsDots(name) || file.cluster == 0 || !Related(ChildPath(path, name), filter) then []
    else match dirs(file.cluster)
      case None => []
      case Some(sub) => Walk(dirs, text, filter, ChildPath(path, name), sub, depth + 1)
  }

  /** Folders 65 levels down are not entered, and paths are cut to 4095 characters. */
  lemma LimitsOfWalk(dirs: Directories, text: NameText, filter: string, path: string, files: seq<FileInfo>, name: string)
    ensures Walk(dirs, text, filter, path, files, 65) == []
    ensures |path| + 1 + |name| > 4095 && path != "" ==> ChildPath(path, name) == (path + "/" + name)[..4095]
  {
  }

  /** The found files that lie in the filter or below it. */
  function Select(filter: string, found: seq<Found>): seq<Found> {
    if found == [] then []
    else (if IsWithin(filter, found[0].path) then [found[0]] else []) + Select(filter, found[1..])
  }

  lemma {:induction false} SelectConcat(filter: string, a: seq<Found>, b: seq<Found>)
    ensures Select(filter, a + b) == Select(filter, a) + Select(filter, b)
  {
    if a == [] {
      assert a + b == b;
    } else {
      SelectConcat(filter, a[1..], b);
      assert (a + b)[1..] == a[1..] + b;
      Associate(if IsWithin(filter, a[0].path) then [a[0]] else [], Select(filter, a[1..]), Select(filter, b));
    }
  }

  ghost predicate AllWithin(path: string, found: seq<Found>) {
    forall i :: 0 <= i < |found| ==> IsWithin(path, found[i].path)
  }

  lemma {:induction false} SelectNone(filter: string, path: string, found: seq<Found>)
    requires AllWithin(path, found) && !Related(path, filter)
    ensures Select(filter, found) == []
  {
    if found != [] {
      if IsWithin(filter, found[0].path) {
        AncestorsAreRelated(path, filter, found[0].path);
      }
      SelectNone(filter, path, found[1..]);
    }
  }

  lemma ChildIsWithin(path: string, name: string)
    requires |path| < PATH_BUFFER
    ensures IsWithin(path, ChildPath(path, name)) && |ChildPath(path, name)| < PATH_BUFFER
  {
    var c := ChildPath(path, name);
    if path != "" {
      assert c[..|path|] == path;
    }
  }

  /** Without a filter, everything found in a directory has a path inside it. */
  lemma {:induction false} FoundIsInside(dirs: Directories, text: NameText, path: string, files: seq<FileInfo>, depth: nat)
    requires |path| < PATH_BUFFER
    ensures AllWithin(path, Walk(dirs, text, "", path, files, depth))
    decreases MAX_DIR_DEPTH + 1 - depth, |files|
  {
    if depth <= MAX_DIR_DEPTH && files != [] {
      FoundIsInside(dirs, text, path, files[1..], depth);
      var name := text(files[0].name);
      var child := ChildPath(path, name);
      ChildIsWithin(path, name);
      if files[0].isDirectory && dirs(files[0].cluster).Some? {
        var sub := dirs(files[0].cluster).value;
        FoundIsInside(dirs, text, child, sub, depth + 1);
        WithinAll(path, child, Walk(dirs, text, "", child, sub, depth + 1));
      }
    }
  }

  lemma WithinAll(path: string, child: string, found: seq<Found>)
    requires IsWithin(path, child) && AllWithin(child, found)
    ensures AllWithin(path, found)
  {
    forall i | 0 <= i < |found|
      ensures IsWithin(path, found[i].path)
    {
      WithinIsTransitive(path, child, found[i].path);
    }
  }

  /**
   * Pruning is exact, on any file system, even a damaged one whose directories form a cycle: the walk with a filter
   * finds what the walk without one finds, in the same order, less the files outside the filter.
   */
  lemma {:induction false} PruningIsExact(dirs: Directories, text: NameText, filter: string, path: string,
                                          files: seq<FileInfo>, depth: nat)
    requires |path| < PATH_BUFFER
    ensures Walk(dirs, text, filter, path, files, depth) == Select(filter, Walk(dirs, text, "", path, files, depth))
    decreases MAX_DIR_DEPTH + 1 - depth, |files|, 1
  {
    if depth <= MAX_DIR_DEPTH && files != [] {
      VisitIsExact(dirs, text, filter, path, files, depth);
      PruningIsExact(dirs, text, filter, path, files[1..], depth);
      SelectConcat(filter, Visit(dirs, text, "", path, files, depth), Walk(dirs, text, "", path, files[1..], depth));
    }
  }

  lemma VisitIsExact(dirs: Directories, text: NameText, filter: string, path: string, files: seq<FileInfo>, depth: nat)
    requires |path| < PATH_BUFFER && depth <= MAX_DIR_DEPTH && files != []
    ensures Visit(dirs, text, filter, path, files, depth) == Select(filter, Visit(dirs, text, "", path, files, depth))
    decreases MAX_DIR_DEPTH + 1 - depth, |files|, 0
  {
    var file := files[0];
    var name := text(file.name);
    var child := ChildPath(path, name);
    ChildIsWithin(path, name);
    if file.isDirectory && dirs(file.cluster).Some? {
      var sub := dirs(file.cluster).value;
      if Related(child, filter) {
        PruningIsExact(dirs, text, filter, child, sub, depth + 1);
      } else {
        FoundIsInside(dirs, text, child, sub, depth + 1);
        SelectNone(filter, child, Walk(dirs, text, "", child, sub, depth + 1));
      }
    }
  }

  // ----- directory trees -----

  datatype Node =
    | Leaf(file: FileInfo)
    | Dots(file: FileInfo)
    | Folder(file: FileInfo, children: seq<Node>)

  function Listed(nodes: seq<Node>): (r: seq<FileInfo>)
    ensures |r| == |nodes| && forall i :: 0 <= i < |nodes| ==> r[i] == nodes[i].file
  {
    seq(|nodes|, i requires 0 <= i < |nodes| => nodes[i].file)
  }

  /** The directories of the file system form this tree, below the folder with these path components, within the limits. */
  ghost predicate IsTree(dirs: Directories, text: NameText, parts: seq<string>, nodes: seq<Node>)
    decreases nodes
  {
    nodes == [] || (IsTreeNode(dirs, text, parts, nodes[0]) && IsTree(dirs, text, parts, nodes[1..]))
  }

  ghost predicate IsTreeNode(dirs: Directories, text: NameText, parts: seq<string>, node: Node)
    decreases node
  {
    var name := text(node.file.name);
    match node
    case Leaf(file) => !file.isDirectory && name != ""
    case Dots(file) => file.isDirectory && IsDots(name)
    case Folder(file, children) =>
      && file.isDirectory && IsName(name) && !IsDots(name) && file.cluster != 0
      && dirs(file.cluster) == Some(Listed(children))
      && |parts| < 64 && |Join(parts + [name])| < 4096
      && IsTree(dirs, text, parts + [name], children)
  }

  /** A regular file and the components of its directory. */
  datatype Located = Located(parts: seq<string>, file: FileInfo)

  /** The regular files of a tree, in order. */
  ghost function FilesOf(text: NameText, parts: seq<string>, nodes: seq<Node>): seq<Located>
    decreases nodes
  {
    if nodes == [] then [] else FilesOfNode(text, parts, nodes[0]) + FilesOf(text, parts, nodes[1..])
  }

  ghost function FilesOfNode(text: NameText, parts: seq<string>, node: Node): seq<Located>
    decreases node
  {
    match node
    case Leaf(file) => [Located(parts, file)]
    case Dots(_) => []
    case Folder(file, children) => FilesOf(text, parts + [text(file.name)], children)
  }

  function AsFound(files: seq<Located>): (r: seq<Found>)
    ensures |r| == |files| && forall i :: 0 <= i < |files| ==> r[i] == Found(Join(files[i].parts), files[i].file)
  {
    seq(|files|, i requires 0 <= i < |files| => Found(Join(files[i].parts), files[i].file))
  }

  lemma {:induction false} JoinAppend(parts: seq<string>, name: string)
    requires AreNames(parts)
    ensures Join(parts + [name]) == if parts == [] then name else Join(parts) + "/" + name
  {
    if |parts| > 0 {
      JoinAppend(parts[1..], name);
      assert (parts + [name])[1..] == parts[1..] + [name];
    }
  }

  lemma ChildOfJoin(parts: seq<string>, name: string)
    requires AreNames(parts) && |Join(parts + [name])| < PATH_BUFFER
    ensures ChildPath(Join(parts), name) == Join(parts + [name])
  {
    JoinAppend(parts, name);
    if parts != [] {
      JoinIsNotEmpty(parts);
    }
  }

  /** Without a filter the walk finds every regular file of the tree, in its directory. */
  lemma {:induction false} WalkFindsTree(dirs: Directories, text: NameText, parts: seq<string>, nodes: seq<Node>)
    requires IsTree(dirs, text, parts, nodes) && AreNames(parts) && |parts| <= MAX_DIR_DEPTH
    ensures Walk(dirs, text, "", Join(parts), Listed(nodes), |parts|) == AsFound(FilesOf(text, parts, nodes))
    decreases nodes
  {
    if nodes != [] {
      var files := Listed(nodes);
      assert files[1..] == Listed(nodes[1..]);
      WalkFindsTree(dirs, text, parts, nodes[1..]);
      VisitFindsNode(dirs, text, parts, nodes[0], files);
    }
  }

  lemma VisitFindsNode(dirs: Directories, text: NameText, parts: seq<string>, node: Node, files: seq<FileInfo>)
    requires IsTreeNode(dirs, text, parts, node) && AreNames(parts) && |parts| <= MAX_DIR_DEPTH
    requires files != [] && files[0] == node.file
    ensures Visit(dirs, text, "", Join(parts), files, |parts|) == AsFound(FilesOfNode(text, parts, node))
    decreases node
  {
    if node.Folder? {
      hide Join, Take, ChildPath, AsFound;
      var name := text(node.file.name);
      ChildOfJoin(parts, name);
      WalkFindsTree(dirs, text, parts + [name], node.children);
    }
  }

  /** The files whose directory is the filter or lies below it, component by component. */
  ghost function InFilter(filter: seq<string>, files: seq<Located>): seq<Located> {
    if files == [] then []
    else (if IsPrefixFolded(filter, files[0].parts) then [files[0]] else []) + InFilter(filter, files[1..])
  }

  ghost predicate HaveNames(files: seq<Located>) {
    forall i :: 0 <= i < |files| ==> AreNames(files[i].parts)
  }

  lemma {:induction false} SelectByComponents(filter: seq<string>, files: seq<Located>)
    requires AreNames(filter) && HaveNames(files)
    ensures Select(Join(filter), AsFound(files)) == AsFound(InFilter(filter, files))
  {
    if files != [] {
      SelectByComponents(filter, files[1..]);
      WithinComparesComponents(filter, files[0].parts);
      assert AsFound(files)[1..] == AsFound(files[1..]);
    }
  }

  lemma {:induction false} TreeHasNames(dirs: Directories, text: NameText, parts: seq<string>, nodes: seq<Node>)
    requires IsTree(dirs, text, parts, nodes) && AreNames(parts)
    ensures HaveNames(FilesOf(text, parts, nodes))
    decreases nodes
  {
    if nodes != [] {
      TreeHasNames(dirs, text, parts, nodes[1..]);
      var node := nodes[0];
      if node.Folder? {
        TreeHasNames(dirs, text, parts + [text(node.file.name)], node.children);
      }
    }
  }

  /** The letter case of the filter does not matter. */
  lemma {:induction false} SelectInAnyCase(a: string, b: string, found: seq<Found>)
    requires SameName(a, b)
    ensures Select(a, found) == Select(b, found)
  {
    if found != [] {
      SelectInAnyCase(a, b, found[1..]);
      SameNameIsWithin(a, b, found[0].path);
    }
  }

  /** Of a directory tree, the walk recovers exactly the regular files whose directory is the filter or below it. */
  lemma WalkRecoversFilter(dirs: Directories, text: NameText, path: string, filter: seq<string>, nodes: seq<Node>)
    requires IsTree(dirs, text, [], nodes) && AreNames(filter) && SameName(path, Join(filter))
    ensures Walk(dirs, text, path, "", Listed(nodes), 0) == AsFound(InFilter(filter, FilesOf(text, [], nodes)))
  {
    PruningIsExact(dirs, text, path, "", Listed(nodes), 0);
    SelectInAnyCase(path, Join(filter), Walk(dirs, text, "", "", Listed(nodes), 0));
    WalkFindsTree(dirs, text, [], nodes);
    TreeHasNames(dirs, text, [], nodes);
    SelectByComponents(filter, FilesOf(text, [], nodes));
  }
}
