/**
 * The result of Python's `ast.parse` as the analyser sees it, and the
 * definition counter `__count_functions_and_methods`, which walks every node
 * of the tree and counts the function definitions, synchronous or `async`.
 */
module SyntaxTree {

  /** The node classes that matter to the counter; every other class is `OtherNode`. */
  datatype NodeKind = FunctionDef | AsyncFunctionDef | ClassDef | Lambda | OtherNode

  /** A syntax tree node and its child nodes (`ast.iter_child_nodes`), in order. */
  datatype Tree = Tree(kind: NodeKind, children: seq<Tree>)

  /** What `ast.parse` does with a file's text: a tree, a `SyntaxError`, or another exception. */
  datatype ParseOutcome = Parsed(tree: Tree) | SyntaxError | ParserCrash

  /** `isinstance(node, (ast.FunctionDef, ast.AsyncFunctionDef))`. */
  predicate IsDefinition(k: NodeKind) {
    k == FunctionDef || k == AsyncFunctionDef
  }

  /** The number of nodes in a tree. */
  function Size(t: Tree): (n: nat)
    ensures n >= 1
    decreases t
  {
    1 + SizeAll(t.children)
  }

  function SizeAll(ts: seq<Tree>): nat
    decreases ts
  {
    if ts == [] then 0 else Size(ts[0]) + SizeAll(ts[1..])
  }

  /** Definitions at any depth: the node itself when it is one, plus those below it. */
  function DefCount(t: Tree): (n: nat)
    ensures n <= Size(t)
    ensures n < Size(t) || IsDefinition(t.kind)
    decreases t
  {
    (if IsDefinition(t.kind) then 1 else 0) + DefCountAll(t.children)
  }

  function DefCountAll(ts: seq<Tree>): (n: nat)
    ensures n <= SizeAll(ts)
    decreases ts
  {
    if ts == [] then 0 else DefCount(ts[0]) + DefCountAll(ts[1..])
  }

  /** Definitions and sizes add up over a concatenation of sibling lists. */
  lemma {:induction false} AllAppend(a: seq<Tree>, b: seq<Tree>)
    ensures DefCountAll(a + b) == DefCountAll(a) + DefCountAll(b)
    ensures SizeAll(a + b) == SizeAll(a) + SizeAll(b)
  {
    if a != [] {
      AllAppend(a[1..], b);
      assert (a + b)[1..] == a[1..] + b;
    } else {
      assert a + b == b;
    }
  }

  /**
   * `__count_functions_and_methods`: `ast.walk` keeps a queue of nodes still
   * to visit, takes them from the front and appends each visited node's
   * children at the back; the count goes up for every definition visited.
   */
  method CountFunctionsAndMethods(root: Tree) returns (count: nat)
    ensures count == DefCount(root)
  {
    count := 0;
    var todo := [root];
    while todo != []
      invariant count + DefCountAll(todo) == DefCount(root)
      decreases SizeAll(todo)
    {
      var node := todo[0];
      AllAppend(todo[1..], node.children);
      todo := todo[1..] + node.children;
      if IsDefinition(node.kind) {
        count := count + 1;
      }
    }
  }

  /**
   * Nested definitions all count: a function (or an `async` one) holding a
   * list of sibling subtrees adds one to what those subtrees hold.
   */
  lemma {:induction false} NestedDefinitionsCount(k: NodeKind, ts: seq<Tree>, t: Tree)
    requires IsDefinition(k)
    ensures DefCount(Tree(k, ts + [t])) == 1 + DefCountAll(ts) + DefCount(t)
  {
    AllAppend(ts, [t]);
  }
}
