/**
 * What the hierarchy builder promises about the tree it returns: at every
 * level, children in name order, no hidden entry, no excluded directory or
 * file, only `.py` files, no empty subfolder; every qualifying file and every
 * non-empty qualifying directory present; the root always returned; and a
 * folder node that does not depend on the order of its own listing.
 */
module HierarchyProperties {
  import opened Wrappers
  import opened PyStr
  import opened NameOrder
  import opened LineMetrics
  import opened FileSystem
  import opened Hierarchy

  /** Entry names as `os.listdir` gives them: none contains `/`, at any depth. */
  predicate WellNamed(e: Entry)
    decreases e
  {
    match e
    case Dir(_, Listed(es)) => forall i :: 0 <= i < |es| ==> '/' !in es[i].name && WellNamed(es[i])
    case _ => true
  }

  predicate NamesSorted(cs: seq<Node>) {
    forall i, j :: 0 <= i < j < |cs| ==> NameLe(cs[i].name, cs[j].name)
  }

  /** A child node of the folder at `parent` that passed every filter of the walk. */
  predicate ChildOk(parent: string, c: Node, ex: Exclusions) {
    && !StartsWith(c.name, ".")
    && (c.FolderNode? ==> c.name !in ex.dirs && c.children != [])
    && (c.FileNode? ==> EndsWith(c.name, ".py")
                        && forall p :: p in ex.patterns ==> !PatternExcludes(p, c.name, JoinPath(parent, c.name)))
  }

  /** The node at `path` and every folder below it: sorted children that passed the filters. */
  predicate Clean(n: Node, path: string, ex: Exclusions)
    decreases n
  {
    n.FolderNode? ==>
      && NamesSorted(n.children)
      && forall c :: c in n.children ==> ChildOk(path, c, ex) && Clean(c, JoinPath(path, c.name), ex)
  }

  /**
   * The walk's main guarantee: whatever the tree, the hierarchy it builds is
   * clean at every depth.
   */
  lemma {:induction false} BuildNodeClean(path: string, e: Entry, ex: Exclusions)
    requires WellNamed(e)
    ensures Clean(BuildNode(path, e, ex), path, ex)
    decreases e, 0, 0
  {
    match e
    case Dir(_, Listed(es)) =>
      SortedFrom(es);
      var items := SortByName(es);
      forall x | x in items ensures '/' !in x.name && WellNamed(x) {
        assert x in es;
      }
      CollectClean(path, items, ex, es);
      CollectSorted(path, items, ex, es);
    case _ =>
  }

  /** Every gathered child passed the filters, and so did everything below it. */
  lemma {:induction false} CollectClean(path: string, items: seq<Entry>, ex: Exclusions, es: seq<Entry>)
    requires forall x :: x in items ==> x in es
    requires forall x :: x in items ==> '/' !in x.name && WellNamed(x)
    ensures forall c :: c in Collect(path, items, ex, es) ==>
              ChildOk(path, c, ex) && Clean(c, JoinPath(path, c.name), ex)
    decreases es, 1, |items|
  {
    if items != [] {
      var x := items[|items| - 1];
      assert x in items;
      assert exists j :: 0 <= j < |es| && es[j] == x;
      CollectClean(path, items[..|items| - 1], ex, es);
      ChildOfClean(path, x, ex);
    }
  }

  /** Each gathered child carries the name of the entry it came from. */
  lemma {:induction false} CollectNames(path: string, items: seq<Entry>, ex: Exclusions, es: seq<Entry>)
    requires forall x :: x in items ==> x in es
    requires forall x :: x in items ==> '/' !in x.name
    ensures forall c :: c in Collect(path, items, ex, es) ==> exists y :: y in items && c.name == y.name
    decreases |items|
  {
    if items != [] {
      var init := items[..|items| - 1];
      var x := items[|items| - 1];
      CollectNames(path, init, ex, es);
      ChildOfName(path, x, ex);
      assert Collect(path, items, ex, es) == Collect(path, init, ex, es) + ChildOf(path, x, ex);
      forall c | c in Collect(path, items, ex, es) ensures exists y :: y in items && c.name == y.name {
        if c in Collect(path, init, ex, es) {
          var y :| y in init && c.name == y.name;
          assert y in items;
        } else {
          assert x in items;
        }
      }
    }
  }

  lemma ChildOfName(parent: string, x: Entry, ex: Exclusions)
    requires '/' !in x.name
    ensures forall c :: c in ChildOf(parent, x, ex) ==> c.name == x.name
  {
    BasenameOfJoin(parent, x.name);
  }

  /** Walking a sorted listing yields children in name order. */
  lemma {:induction false} CollectSorted(path: string, items: seq<Entry>, ex: Exclusions, es: seq<Entry>)
    requires forall x :: x in items ==> x in es
    requires forall x :: x in items ==> '/' !in x.name
    requires SortedByName(items)
    ensures NamesSorted(Collect(path, items, ex, es))
    decreases |items|
  {
    if items != [] {
      var init := items[..|items| - 1];
      var x := items[|items| - 1];
      CollectSorted(path, init, ex, es);
      CollectNames(path, init, ex, es);
      ChildOfName(path, x, ex);
      var oldCs := Collect(path, init, ex, es);
      var tail := ChildOf(path, x, ex);
      assert Collect(path, items, ex, es) == oldCs + tail;
      forall c | c in oldCs ensures NameLe(c.name, x.name) {
        var y :| y in init && c.name == y.name;
        var j :| 0 <= j < |init| && init[j] == y;
        assert items[j] == y;
      }
      NameLeReflexive(x.name);
    }
  }

  /** An entry's child, if any, passed the filters and is clean below. */
  lemma {:induction false} ChildOfClean(parent: string, x: Entry, ex: Exclusions)
    requires '/' !in x.name && WellNamed(x)
    ensures forall c :: c in ChildOf(parent, x, ex) ==>
              && c.name == x.name
              && ChildOk(parent, c, ex)
              && Clean(c, JoinPath(parent, c.name), ex)
    decreases x, 2, 0
  {
    if x.Dir? {
      DirChildClean(parent, x, ex);
    } else if x.File? {
      FileChildClean(parent, x, ex);
    }
  }

  /** A directory's child is a non-empty, non-excluded folder that is clean below. */
  lemma {:induction false} DirChildClean(parent: string, x: Entry, ex: Exclusions)
    requires x.Dir? && '/' !in x.name && WellNamed(x)
    ensures forall c :: c in ChildOf(parent, x, ex) ==>
              && c.name == x.name
              && ChildOk(parent, c, ex)
              && Clean(c, JoinPath(parent, c.name), ex)
    decreases x, 1, 0
  {
    var itemPath := JoinPath(parent, x.name);
    BasenameOfJoin(parent, x.name);
    if !StartsWith(x.name, ".") && !ShouldExcludeDirectory(x.name, ex.dirs) {
      BuildNodeClean(itemPath, x, ex);
    }
  }

  /** A file's child is a `.py` file node that no pattern excludes. */
  lemma FileChildClean(parent: string, x: Entry, ex: Exclusions)
    requires x.File? && '/' !in x.name
    ensures forall c :: c in ChildOf(parent, x, ex) ==>
              && c.name == x.name
              && ChildOk(parent, c, ex)
              && Clean(c, JoinPath(parent, c.name), ex)
  {
    FileChildShape(parent, x, ex);
    forall c | c in ChildOf(parent, x, ex)
      ensures ChildOk(parent, c, ex) && Clean(c, JoinPath(parent, c.name), ex)
    {
      NoPatternExcludes(JoinPath(parent, c.name), c.name, ex.patterns);
      FileNodeOk(parent, c, ex);
    }
  }

  /** What a file contributes: at most a file node named after it that passed the three file tests. */
  lemma FileChildShape(parent: string, x: Entry, ex: Exclusions)
    requires x.File? && '/' !in x.name
    ensures forall c :: c in ChildOf(parent, x, ex) ==>
              && c.FileNode? && c.name == x.name
              && Basename(JoinPath(parent, c.name)) == c.name
              && !StartsWith(c.name, ".")
              && !ShouldExcludeFile(JoinPath(parent, c.name), ex.patterns)
              && EndsWith(c.name, ".py")
  {
    BasenameOfJoin(parent, x.name);
    FileChildOf(parent, x, ex);
  }

  /** `ChildOf` for a file: its node when it is visible, not excluded and `.py`, else nothing. */
  lemma FileChildOf(parent: string, x: Entry, ex: Exclusions)
    requires x.File?
    ensures var itemPath := JoinPath(parent, x.name);
            ChildOf(parent, x, ex)
              == if !StartsWith(x.name, ".") && !ShouldExcludeFile(itemPath, ex.patterns) && EndsWith(x.name, ".py")
                 then [BuildNode(itemPath, x, ex)]
                 else []
  {
  }

  /** A `.py` file node, not hidden and matched by no pattern, passes the filters and is clean. */
  lemma FileNodeOk(parent: string, c: Node, ex: Exclusions)
    requires c.FileNode? && !StartsWith(c.name, ".") && EndsWith(c.name, ".py")
    requires forall p :: p in ex.patterns ==> !PatternExcludes(p, c.name, JoinPath(parent, c.name))
    ensures ChildOk(parent, c, ex) && Clean(c, JoinPath(parent, c.name), ex)
  {
  }

  /** A file `__should_exclude_file` lets through is matched by no pattern, on name or path. */
  lemma NoPatternExcludes(filePath: string, name: string, patterns: seq<string>)
    requires Basename(filePath) == name && !ShouldExcludeFile(filePath, patterns)
    ensures forall p :: p in patterns ==> !PatternExcludes(p, name, filePath)
  {
  }

  /** Every node a listed entry contributes ends up among its parent's children. */
  lemma {:induction false} CollectKeeps(path: string, items: seq<Entry>, ex: Exclusions, es: seq<Entry>, x: Entry)
    requires forall y :: y in items ==> y in es
    requires x in items
    ensures forall c :: c in ChildOf(path, x, ex) ==> c in Collect(path, items, ex, es)
    decreases |items|
  {
    var init := items[..|items| - 1];
    if x != items[|items| - 1] {
      assert x in init by {
        var j :| 0 <= j < |items| && items[j] == x;
        assert init[j] == x;
      }
      CollectKeeps(path, init, ex, es, x);
    }
  }

  /**
   * Files are never pruned: a listed `.py` file that is not hidden and that no
   * pattern excludes is among its folder's children, as `__analyse_file`
   * reports it (zeroed metrics when it could not be read).
   */
  lemma QualifyingFileReported(path: string, name: string, es: seq<Entry>, ex: Exclusions, x: Entry)
    requires x in es && x.File? && '/' !in x.name
    requires !StartsWith(x.name, ".") && EndsWith(x.name, ".py")
    requires forall p :: p in ex.patterns ==> !PatternExcludes(p, x.name, JoinPath(path, x.name))
    ensures FileNodeOf(x.name, x.data) in BuildNode(path, Dir(name, Listed(es)), ex).children
  {
    SortedFrom(es);
    InSorted(es, x);
    var itemPath := JoinPath(path, x.name);
    BasenameOfJoin(path, x.name);
    assert !ShouldExcludeFile(itemPath, ex.patterns);
    assert BuildNode(itemPath, x, ex) == FileNodeOf(x.name, x.data);
    assert ChildOf(path, x, ex) == [FileNodeOf(x.name, x.data)];
    CollectKeeps(path, SortByName(es), ex, es, x);
  }

  /** Sorting loses no entry. */
  lemma InSorted(es: seq<Entry>, x: Entry)
    requires x in es
    ensures x in SortByName(es)
  {
    assert x in multiset(es);
    assert x in multiset(SortByName(es));
  }

  /**
   * A listed directory that is not hidden, not excluded and whose own node
   * has children is among its parent's children.
   */
  lemma QualifyingDirReported(path: string, name: string, es: seq<Entry>, ex: Exclusions, x: Entry)
    requires x in es && x.Dir?
    requires !StartsWith(x.name, ".") && x.name !in ex.dirs
    requires BuildNode(JoinPath(path, x.name), x, ex).children != []
    ensures BuildNode(JoinPath(path, x.name), x, ex) in BuildNode(path, Dir(name, Listed(es)), ex).children
  {
    SortedFrom(es);
    InSorted(es, x);
    CollectKeeps(path, SortByName(es), ex, es, x);
  }

  /** The gathered children depend only on the entries walked, not on the listing used to bound the walk. */
  lemma {:induction false} CollectIgnoresBound(path: string, items: seq<Entry>, ex: Exclusions, es1: seq<Entry>, es2: seq<Entry>)
    requires forall x :: x in items ==> x in es1
    requires forall x :: x in items ==> x in es2
    ensures Collect(path, items, ex, es1) == Collect(path, items, ex, es2)
    decreases |items|
  {
    if items != [] {
      CollectIgnoresBound(path, items[..|items| - 1], ex, es1, es2);
    }
  }

  /**
   * The hierarchy does not depend on the order in which `os.listdir` returns
   * a directory's entries.
   */
  lemma ListingOrderIrrelevant(path: string, name: string, es1: seq<Entry>, es2: seq<Entry>, ex: Exclusions)
    requires DistinctNames(es1) && multiset(es1) == multiset(es2)
    ensures BuildNode(path, Dir(name, Listed(es1)), ex) == BuildNode(path, Dir(name, Listed(es2)), ex)
  {
    SortIgnoresListingOrder(es1, es2);
    SortedFrom(es1);
    SortedFrom(es2);
    CollectIgnoresBound(path, SortByName(es1), ex, es1, es2);
  }
}
