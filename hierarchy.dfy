/**
 * `__build_hierarchy` and its helpers: the recursive walk that turns a
 * directory tree into folder and file nodes, skipping hidden entries,
 * excluded directories, excluded or non-`.py` files, and subfolders that end
 * up with no children; and `__analyse_file`, which never drops a file.
 */
module Hierarchy {
  import opened Wrappers
  import opened PyStr
  import opened NameOrder
  import opened SyntaxTree
  import opened LineMetrics
  import opened Glob
  import opened FileSystem

  /** A node of the report: a folder (`type="folder"`) or a file (`type="file"`). */
  datatype Node =
    | FolderNode(name: string, children: seq<Node>)
    | FileNode(name: string, language: string, lastModified: string, metrics: Metrics,
               uses: seq<string>, usedBy: seq<string>)

  /** The two exclusion lists: exact directory names, and file name patterns. */
  datatype Exclusions = Exclusions(dirs: seq<string>, patterns: seq<string>)

  const Language: string := "python"

  /** `__should_exclude_directory`: exact membership in the list. */
  function ShouldExcludeDirectory(dirName: string, excludeDirs: seq<string>): (r: bool)
    ensures r <==> dirName in excludeDirs
  {
    if excludeDirs == [] then false else dirName in excludeDirs
  }

  /** A pattern excludes a file when it matches the file's base name or its whole path. */
  predicate PatternExcludes(pattern: string, fileName: string, filePath: string)
    ensures pattern == ['*'] ==> PatternExcludes(pattern, fileName, filePath)
  {
    GlobMatch(pattern, fileName) || GlobMatch(pattern, filePath)
  }

  /** `__should_exclude_file`: some pattern matches the base name or the path. */
  function ShouldExcludeFile(filePath: string, patterns: seq<string>): (r: bool)
    ensures r <==> exists p :: p in patterns && PatternExcludes(p, Basename(filePath), filePath)
  {
    if patterns == [] then false else FirstMatch(Basename(filePath), filePath, patterns)
  }

  /** The loop of `__should_exclude_file`, returning at the first matching pattern. */
  function FirstMatch(fileName: string, filePath: string, patterns: seq<string>): (r: bool)
    ensures r <==> exists p :: p in patterns && PatternExcludes(p, fileName, filePath)
  {
    if patterns == [] then false
    else if PatternExcludes(patterns[0], fileName, filePath) then true
    else
      assert forall p :: p in patterns ==> p == patterns[0] || p in patterns[1..];
      FirstMatch(fileName, filePath, patterns[1..])
  }

  /** The file node `__analyse_file` returns for a file named `name`. */
  function FileNodeOf(name: string, data: FileData): (n: Node)
    ensures n.FileNode? && n.name == name && n.language == Language && n.uses == [] && n.usedBy == []
  {
    if data.content.None? || data.modified.None? then
      FileNode(name, Language, data.now, ZeroMetrics, [], [])
    else
      match MetricsOf(data.content.value, data.parse)
      case None => FileNode(name, Language, data.now, ZeroMetrics, [], [])
      case Some(m) => FileNode(name, Language, data.modified.value, m, [], [])
  }

  /**
   * `__analyse_file`: read, time-stamp and measure the file; when any of the
   * three raises, the file is still reported, with all four metrics zero and
   * the current time.
   */
  method AnalyseFile(data: FileData, fileName: string) returns (n: Node)
    ensures n == FileNodeOf(fileName, data)
    ensures n.FileNode? && n.name == fileName
    ensures data.content.None? || data.modified.None? || data.parse.ParserCrash?
            ==> n.metrics == ZeroMetrics && n.lastModified == data.now
    ensures data.content.Some? && data.modified.Some? && !data.parse.ParserCrash?
            ==> n.lastModified == data.modified.value
                && Some(n.metrics) == MetricsOf(data.content.value, data.parse)
  {
    if data.content.None? || data.modified.None? {
      return FileNode(fileName, Language, data.now, ZeroMetrics, [], []);
    }
    var metricsData := CalculateMetrics(data.content.value, data.parse);
    if metricsData.None? {
      return FileNode(fileName, Language, data.now, ZeroMetrics, [], []);
    }
    n := FileNode(fileName, Language, data.modified.value, metricsData.value, [], []);
  }

  /**
   * The node `__build_hierarchy(path, ...)` returns when the filesystem holds
   * `e` at `path`: a file node for a file; otherwise a folder node, whose
   * children come from the sorted listing (none when listing fails, as it
   * does for an entry that is neither a file nor a directory).
   */
  function BuildNode(path: string, e: Entry, ex: Exclusions): (n: Node)
    ensures e.File? <==> n.FileNode?
    ensures n.name == Basename(path)
    decreases e, 0, 0
  {
    match e
    case File(_, data) => FileNodeOf(Basename(path), data)
    case Dir(_, Listed(es)) =>
      SortedFrom(es);
      FolderNode(Basename(path), Collect(path, SortByName(es), ex, es))
    case Dir(_, Unlistable) => FolderNode(Basename(path), [])
    case Special(_) => FolderNode(Basename(path), [])
  }

  /** The children gathered, in order, from `items`, entries of the listing `es`. */
  function Collect(path: string, items: seq<Entry>, ex: Exclusions, ghost es: seq<Entry>): (cs: seq<Node>)
    requires forall x :: x in items ==> x in es
    ensures |cs| <= |items|
    decreases es, 1, |items|
  {
    if items == [] then []
    else
      var x := items[|items| - 1];
      assert x in items;
      assert exists j :: 0 <= j < |es| && es[j] == x;
      Collect(path, items[..|items| - 1], ex, es) + ChildOf(path, x, ex)
  }

  /**
   * What one listed entry adds to its parent's children: nothing for a hidden
   * entry, an excluded directory, a directory whose node has no children, an
   * excluded or non-`.py` file, or an entry that is neither; else its node.
   */
  function ChildOf(parent: string, x: Entry, ex: Exclusions): (r: seq<Node>)
    ensures |r| <= 1
    decreases x, 2, 0
  {
    var itemPath := JoinPath(parent, x.name);
    if StartsWith(x.name, ".") then []
    else
      match x
      case Dir(_, _) =>
        if ShouldExcludeDirectory(x.name, ex.dirs) then []
        else
          var child := BuildNode(itemPath, x, ex);
          if child.FolderNode? && child.children != [] then [child] else []
      case File(_, _) =>
        if ShouldExcludeFile(itemPath, ex.patterns) then []
        else if EndsWith(x.name, ".py") then [BuildNode(itemPath, x, ex)]
        else []
      case Special(_) => []
  }

  /**
   * `__build_hierarchy`: a file is analysed directly; a directory's sorted
   * listing is walked, each surviving entry's node appended to `children`.
   */
  method BuildHierarchy(currentPath: string, e: Entry, ex: Exclusions) returns (node: Node)
    ensures node == BuildNode(currentPath, e, ex)
    decreases e, 0, 0
  {
    var relName := Basename(currentPath);
    if e.File? {
      node := AnalyseFile(e.data, relName);
      return;
    }
    var children: seq<Node> := [];
    if e.Dir? && e.listing.Listed? {
      ghost var es := e.listing.entries;
      var items := SortByName(e.listing.entries);
      SortedFrom(es);
      for i := 0 to |items|
        invariant children == Collect(currentPath, items[..i], ex, es)
      {
        assert items[..i + 1][..i] == items[..i];
        var item := items[i];
        assert item in es;
        assert exists j :: 0 <= j < |es| && es[j] == item;
        var itemPath := JoinPath(currentPath, item.name);
        if StartsWith(item.name, ".") {
          continue;
        }
        if item.Dir? {
          if ShouldExcludeDirectory(item.name, ex.dirs) {
            continue;
          }
          var childNode := BuildHierarchy(itemPath, item, ex);
          if childNode.FolderNode? && childNode.children != [] {
            children := children + [childNode];
          }
        } else if item.File? {
          if ShouldExcludeFile(itemPath, ex.patterns) {
            continue;
          }
          if EndsWith(item.name, ".py") {
            var fileChildNode := BuildHierarchy(itemPath, item, ex);
            children := children + [fileChildNode];
          }
        }
      }
      assert items[..|items|] == items;
    }
    node := FolderNode(relName, children);
  }
}
