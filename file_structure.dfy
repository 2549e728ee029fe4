/** src/lib/file-structure.ts: the repository tree, its one-line-per-entry serialisation, its
    flattening to file paths, and the ignore rule of the directory walk. The walk itself reads
    the disk; here the disk is a value (`DiskEntry`) and Node's `path` helpers are parameters. */
module FileStructure {
  import opened Outcomes

  /** `FileNode`. A directory without a `children` array behaves as one with none. */
  datatype FileNode =
    | File(name: string, fullPath: string)
    | Directory(name: string, fullPath: string, children: seq<FileNode>)

  /** `" ".repeat(n)` */
  function Spaces(n: nat): (r: string)
    ensures |r| == n && forall k :: 0 <= k < n ==> r[k] == ' '
  {
    if n == 0 then "" else Spaces(n - 1) + " "
  }

  // ---------------------------------------------------------------------------------------------
  // serializeFileStructure

  /** `serializeFileStructure(node, depth)` */
  function SerializeFileStructure(node: FileNode, depth: nat): string
    decreases node, 1
  {
    match node
    case File(name, _) => Spaces(depth) + name
    case Directory(name, _, children) =>
      if |children| == 1 && children[0].File? then Spaces(depth) + "/" + name + " " + children[0].name
      else Spaces(depth) + "/" + name + SerializeChildren(children, depth + 1)
  }

  /** The child loop of `serializeFileStructure`: each child on a new line, in order. */
  function SerializeChildren(children: seq<FileNode>, depth: nat): string
    decreases children, 0
  {
    if |children| == 0 then ""
    else "\n" + SerializeFileStructure(children[0], depth) + SerializeChildren(children[1..], depth)
  }

  /** One output line: how deep it is indented and what follows the indentation. */
  datatype Line = Line(depth: nat, text: string)

  /** The serialisation as a list of lines: a file is its name; a directory holding exactly one
      file shares its line with that file; any other directory has a "/name" line followed by
      its children's lines one level deeper. */
  function Outline(node: FileNode, depth: nat): (r: seq<Line>)
    ensures |r| >= 1 && r[0].depth == depth
    ensures forall k :: 0 <= k < |r| ==> r[k].depth >= depth
    decreases node, 1
  {
    match node
    case File(name, _) => [Line(depth, name)]
    case Directory(name, _, children) =>
      if |children| == 1 && children[0].File? then [Line(depth, "/" + name + " " + children[0].name)]
      else [Line(depth, "/" + name)] + OutlineChildren(children, depth)
  }

  function OutlineChildren(children: seq<FileNode>, depth: nat): (r: seq<Line>)
    ensures forall k :: 0 <= k < |r| ==> r[k].depth > depth
    ensures |children| > 0 ==> |r| > 0
    decreases children, 0
  {
    if |children| == 0 then [] else Outline(children[0], depth + 1) + OutlineChildren(children[1..], depth)
  }

  /** Lines joined by "\n", each indented by its depth. */
  function Render(lines: seq<Line>): string
  {
    if |lines| == 0 then ""
    else if |lines| == 1 then Spaces(lines[0].depth) + lines[0].text
    else Spaces(lines[0].depth) + lines[0].text + "\n" + Render(lines[1..])
  }

  lemma {:induction false} RenderAppend(a: seq<Line>, b: seq<Line>)
    requires |a| > 0 && |b| > 0
    ensures Render(a + b) == Render(a) + "\n" + Render(b)
  {
    if |a| == 1 {
      assert (a + b)[1..] == b;
    } else {
      assert (a + b)[1..] == a[1..] + b;
      RenderAppend(a[1..], b);
    }
  }

  /** The serialisation is exactly the outline, rendered. */
  lemma {:induction false} SerializeIsRenderedOutline(node: FileNode, depth: nat)
    ensures SerializeFileStructure(node, depth) == Render(Outline(node, depth))
    decreases node, 1
  {
    match node
    case File(_, _) =>
    case Directory(name, _, children) =>
      if !(|children| == 1 && children[0].File?) && |children| > 0 {
        SerializeChildrenIsRendered(children, depth);
        RenderAppend([Line(depth, "/" + name)], OutlineChildren(children, depth));
      }
  }

  lemma {:induction false} SerializeChildrenIsRendered(children: seq<FileNode>, depth: nat)
    requires |children| > 0
    ensures SerializeChildren(children, depth + 1) == "\n" + Render(OutlineChildren(children, depth))
    decreases children, 0
  {
    SerializeIsRenderedOutline(children[0], depth + 1);
    if |children| > 1 {
      SerializeChildrenIsRendered(children[1..], depth);
      RenderAppend(Outline(children[0], depth + 1), OutlineChildren(children[1..], depth));
    } else {
      assert OutlineChildren(children, depth) == Outline(children[0], depth + 1) + [];
      assert Outline(children[0], depth + 1) + [] == Outline(children[0], depth + 1);
    }
  }

  /** Number of occurrences of c. */
  function Count(s: string, c: char): nat
  {
    if |s| == 0 then 0 else (if s[0] == c then 1 else 0) + Count(s[1..], c)
  }

  lemma {:induction false} CountAppend(a: string, b: string, c: char)
    ensures Count(a + b, c) == Count(a, c) + Count(b, c)
  {
    if |a| == 0 {
      assert a + b == b;
    } else {
      assert (a + b)[1..] == a[1..] + b;
      CountAppend(a[1..], b, c);
    }
  }

  lemma {:induction false} CountSpaces(n: nat)
    ensures Count(Spaces(n), '\n') == 0
  {
    if n > 0 {
      CountSpaces(n - 1);
      CountAppend(Spaces(n - 1), " ", '\n');
    }
  }

  /** No line of text contains a line break. */
  predicate OneLineEach(lines: seq<Line>)
  {
    forall k :: 0 <= k < |lines| ==> Count(lines[k].text, '\n') == 0
  }

  lemma {:induction false} RenderLineBreaks(lines: seq<Line>)
    requires |lines| > 0 && OneLineEach(lines)
    ensures Count(Render(lines), '\n') == |lines| - 1
  {
    CountSpaces(lines[0].depth);
    CountAppend(Spaces(lines[0].depth), lines[0].text, '\n');
    if |lines| > 1 {
      RenderLineBreaks(lines[1..]);
      CountAppend(Spaces(lines[0].depth) + lines[0].text, "\n", '\n');
      CountAppend(Spaces(lines[0].depth) + lines[0].text + "\n", Render(lines[1..]), '\n');
    }
  }

  /** When no line text holds a line break, the serialisation has one line per outline entry. */
  lemma SerializedLineCount(node: FileNode, depth: nat)
    requires OneLineEach(Outline(node, depth))
    ensures Count(SerializeFileStructure(node, depth), '\n') == |Outline(node, depth)| - 1
  {
    SerializeIsRenderedOutline(node, depth);
    RenderLineBreaks(Outline(node, depth));
  }

  // ---------------------------------------------------------------------------------------------
  // flattenFileStructureToPaths

  /** `traverse(node, currentPath)`: a file contributes the path it was reached with; a directory
      contributes its children's paths, each child reached with its own `fullPath`. */
  function Traverse(node: FileNode, currentPath: string): seq<string>
    decreases node, 1
  {
    match node
    case File(_, _) => [currentPath]
    case Directory(_, _, children) => TraverseChildren(children)
  }

  function TraverseChildren(children: seq<FileNode>): seq<string>
    decreases children, 0
  {
    if |children| == 0 then [] else Traverse(children[0], children[0].fullPath) + TraverseChildren(children[1..])
  }

  function FlattenFileStructureToPaths(fileStructure: FileNode): seq<string>
  {
    Traverse(fileStructure, fileStructure.fullPath)
  }

  /** The tree holds a file leaf with this full path. */
  predicate HasFile(node: FileNode, path: string)
    decreases node
  {
    match node
    case File(_, fullPath) => fullPath == path
    case Directory(_, _, children) => exists i :: 0 <= i < |children| && HasFile(children[i], path)
  }

  /** Number of file leaves. */
  function FileCount(node: FileNode): nat
    decreases node, 1
  {
    match node
    case File(_, _) => 1
    case Directory(_, _, children) => FileCountChildren(children)
  }

  function FileCountChildren(children: seq<FileNode>): nat
    decreases children, 0
  {
    if |children| == 0 then 0 else FileCount(children[0]) + FileCountChildren(children[1..])
  }

  /** Flattening lists every file leaf's full path once per leaf, and nothing else: no directory
      contributes an entry of its own, and a directory without children yields nothing. */
  lemma {:induction false} FlattenListsExactlyTheFiles(node: FileNode, path: string)
    ensures |FlattenFileStructureToPaths(node)| == FileCount(node)
    ensures path in FlattenFileStructureToPaths(node) <==> HasFile(node, path)
    ensures node.Directory? && node.children == [] ==> FlattenFileStructureToPaths(node) == []
    decreases node, 1
  {
    match node
    case File(_, _) =>
    case Directory(_, _, children) => TraverseChildrenListsFiles(children, path);
  }

  lemma {:induction false} TraverseChildrenListsFiles(children: seq<FileNode>, path: string)
    ensures |TraverseChildren(children)| == FileCountChildren(children)
    ensures path in TraverseChildren(children) <==> exists i :: 0 <= i < |children| && HasFile(children[i], path)
    decreases children, 0
  {
    if |children| > 0 {
      FlattenListsExactlyTheFiles(children[0], path);
      TraverseChildrenListsFiles(children[1..], path);
      if exists i :: 1 <= i < |children| && HasFile(children[i], path) {
        var i :| 1 <= i < |children| && HasFile(children[i], path);
        assert HasFile(children[1..][i - 1], path);
      }
      if exists i :: 0 <= i < |children[1..]| && HasFile(children[1..][i], path) {
        var i :| 0 <= i < |children[1..]| && HasFile(children[1..][i], path);
        assert HasFile(children[i + 1], path);
      }
    }
  }

  // ---------------------------------------------------------------------------------------------
  // the directory walk of _getFileStructure, without the disk

  /** What the disk holds: files and directories (in `readdir` order), each with its path. */
  datatype DiskEntry =
    | DiskFile(path: string)
    | DiskDirectory(path: string, entries: seq<DiskEntry>)

  /** Node's `path.relative`, `path.join` and `path.basename`. */
  datatype PathOps = PathOps(relative: (string, string) -> string, join: (string, string) -> string, basename: string -> string)

  /** The two ignore sources: the `.gitignore` matcher (`ig.ignores`) and `pathsToIgnore`. */
  datatype IgnoreRules = IgnoreRules(ignores: string -> bool, pathsToIgnore: seq<string>)

  /** The ignore check of `_getFileStructure`: the root is always kept; any other entry is dropped
      when the matcher ignores its relative path or either of its paths is listed. */
  predicate Excluded(isRoot: bool, relativePath: string, fullPath: string, rules: IgnoreRules)
  {
    !isRoot && (rules.ignores(relativePath) || relativePath in rules.pathsToIgnore || fullPath in rules.pathsToIgnore)
  }

  /** The ignore check as applied to the entry at `dirPath` under `baseDir`. */
  predicate ExcludedPath(dirPath: string, baseDir: string, ops: PathOps, rules: IgnoreRules)
  {
    var relativePath := ops.relative(baseDir, dirPath);
    Excluded(dirPath == baseDir, relativePath, ops.join(baseDir, relativePath), rules)
  }

  /** `_getFileStructure(dirPath, pathsToIgnore, baseDir, ig)` over a disk value. */
  function Walk(entry: DiskEntry, baseDir: string, ops: PathOps, rules: IgnoreRules): Option<FileNode>
    decreases entry, 1
  {
    if ExcludedPath(entry.path, baseDir, ops, rules) then None
    else
      match entry
      case DiskFile(p) => Some(File(ops.basename(p), p))
      case DiskDirectory(p, entries) => Some(Directory(ops.basename(p), p, WalkChildren(entries, baseDir, ops, rules)))
  }

  /** The children that survive the walk, in `readdir` order (`Promise.all` keeps it). */
  function WalkChildren(entries: seq<DiskEntry>, baseDir: string, ops: PathOps, rules: IgnoreRules): seq<FileNode>
    decreases entries, 0
  {
    if |entries| == 0 then []
    else
      match Walk(entries[0], baseDir, ops, rules)
      case None => WalkChildren(entries[1..], baseDir, ops, rules)
      case Some(n) => [n] + WalkChildren(entries[1..], baseDir, ops, rules)
  }

  /** The walked children of a concatenation are those of each part, in order: the `map` over
      `readdir` followed by `filter` treats each entry on its own. */
  lemma {:induction false} WalkChildrenAppend(a: seq<DiskEntry>, b: seq<DiskEntry>, baseDir: string, ops: PathOps, rules: IgnoreRules)
    ensures WalkChildren(a + b, baseDir, ops, rules) == WalkChildren(a, baseDir, ops, rules) + WalkChildren(b, baseDir, ops, rules)
  {
    if |a| == 0 {
      assert a + b == b;
    } else {
      assert (a + b)[0] == a[0];
      assert (a + b)[1..] == a[1..] + b;
      WalkChildrenAppend(a[1..], b, baseDir, ops, rules);
    }
  }

  /** An entry the ignore check drops vanishes from its parent's children together with everything
      under it, and the other children keep their order; an entry it keeps stays in its place. */
  lemma WalkChildrenSkipsExcluded(before: seq<DiskEntry>, entry: DiskEntry, after: seq<DiskEntry>,
                                  baseDir: string, ops: PathOps, rules: IgnoreRules)
    ensures ExcludedPath(entry.path, baseDir, ops, rules) ==>
      WalkChildren(before + [entry] + after, baseDir, ops, rules) == WalkChildren(before + after, baseDir, ops, rules)
    ensures !ExcludedPath(entry.path, baseDir, ops, rules) ==>
      WalkChildren(before + [entry] + after, baseDir, ops, rules)
        == WalkChildren(before, baseDir, ops, rules) + [Walk(entry, baseDir, ops, rules).value] + WalkChildren(after, baseDir, ops, rules)
  {
    WalkChildrenAppend(before + [entry], after, baseDir, ops, rules);
    WalkChildrenAppend(before, [entry], baseDir, ops, rules);
    WalkChildrenAppend(before, after, baseDir, ops, rules);
    WalkChildrenOfOne(entry, baseDir, ops, rules);
  }

  lemma WalkChildrenOfOne(entry: DiskEntry, baseDir: string, ops: PathOps, rules: IgnoreRules)
    ensures ExcludedPath(entry.path, baseDir, ops, rules) ==> WalkChildren([entry], baseDir, ops, rules) == []
    ensures !ExcludedPath(entry.path, baseDir, ops, rules) ==>
      WalkChildren([entry], baseDir, ops, rules) == [Walk(entry, baseDir, ops, rules).value]
  {
    assert [entry][1..] == [];
  }

  /** `getFileStructure(dirPath, pathsToIgnore)`: a walk whose base is the entry itself. */
  function GetFileStructure(root: DiskEntry, ops: PathOps, rules: IgnoreRules): Option<FileNode>
  {
    Walk(root, root.path, ops, rules)
  }

  /** The disk holds a file at this path. */
  predicate DiskHasFile(entry: DiskEntry, path: string)
    decreases entry
  {
    match entry
    case DiskFile(p) => p == path
    case DiskDirectory(_, entries) => exists i :: 0 <= i < |entries| && DiskHasFile(entries[i], path)
  }

  /** The walk never drops its own root, so `getFileStructure` never yields null for it. */
  lemma GetFileStructureKeepsRoot(root: DiskEntry, ops: PathOps, rules: IgnoreRules)
    ensures GetFileStructure(root, ops, rules).Some?
    ensures GetFileStructure(root, ops, rules).value.fullPath == root.path
  {
  }

  /** Every path the walked tree flattens to is a file on disk that the ignore check keeps. */
  lemma {:induction false} WalkKeepsOnlyUnignoredFiles(entry: DiskEntry, baseDir: string, ops: PathOps, rules: IgnoreRules, path: string)
    requires Walk(entry, baseDir, ops, rules).Some?
    requires path in FlattenFileStructureToPaths(Walk(entry, baseDir, ops, rules).value)
    ensures DiskHasFile(entry, path) && !ExcludedPath(path, baseDir, ops, rules)
    decreases entry, 1
  {
    match entry
    case DiskFile(p) =>
    case DiskDirectory(p, entries) =>
      WalkChildrenKeepsOnlyUnignoredFiles(entries, baseDir, ops, rules, path);
  }

  lemma {:induction false} WalkChildrenKeepsOnlyUnignoredFiles(entries: seq<DiskEntry>, baseDir: string, ops: PathOps, rules: IgnoreRules, path: string)
    requires path in TraverseChildren(WalkChildren(entries, baseDir, ops, rules))
    ensures exists i :: 0 <= i < |entries| && DiskHasFile(entries[i], path)
    ensures !ExcludedPath(path, baseDir, ops, rules)
    decreases entries, 0
  {
    var rest := WalkChildren(entries[1..], baseDir, ops, rules);
    match Walk(entries[0], baseDir, ops, rules)
    case None =>
      WalkChildrenKeepsOnlyUnignoredFiles(entries[1..], baseDir, ops, rules, path);
      var i :| 0 <= i < |entries[1..]| && DiskHasFile(entries[1..][i], path);
      assert DiskHasFile(entries[i + 1], path);
    case Some(n) =>
      var kids := [n] + rest;
      assert kids[0] == n && kids[1..] == rest;
      assert TraverseChildren(kids) == Traverse(n, n.fullPath) + TraverseChildren(rest);
      if path in Traverse(n, n.fullPath) {
        assert n.fullPath == entries[0].path;
        WalkKeepsOnlyUnignoredFiles(entries[0], baseDir, ops, rules, path);
      } else {
        WalkChildrenKeepsOnlyUnignoredFiles(entries[1..], baseDir, ops, rules, path);
        var i :| 0 <= i < |entries[1..]| && DiskHasFile(entries[1..][i], path);
        assert DiskHasFile(entries[i + 1], path);
      }
  }

  // ---------------------------------------------------------------------------------------------
  // the two getters' fallbacks

  /** `getSerializedFileStructure`: "" when there is no tree, else the tree from depth 0. */
  function SerializedOrEmpty(fileNodes: Option<FileNode>): string
  {
    match fileNodes
    case None => ""
    case Some(node) => SerializeFileStructure(node, 0)
  }

  /** `getFlattenedFileStructurePaths`: [] when there is no tree, else its file paths. */
  function FlattenedOrEmpty(fileStructure: Option<FileNode>): seq<string>
  {
    match fileStructure
    case None => []
    case Some(node) => FlattenFileStructureToPaths(node)
  }

  /** On a tree the getters produce the documented forms: the serialisation begins with the root's
      line at depth 0, and the path list holds its files; with no tree they produce "" and []. */
  lemma GettersFallBackOnNull(fileNodes: Option<FileNode>)
    ensures fileNodes.None? ==> SerializedOrEmpty(fileNodes) == "" && FlattenedOrEmpty(fileNodes) == []
    ensures fileNodes.Some? ==> SerializedOrEmpty(fileNodes) == Render(Outline(fileNodes.value, 0))
    ensures fileNodes.Some? ==> |FlattenedOrEmpty(fileNodes)| == FileCount(fileNodes.value)
  {
    if fileNodes.Some? {
      SerializeIsRenderedOutline(fileNodes.value, 0);
      FlattenListsExactlyTheFiles(fileNodes.value, "");
    }
  }
}
