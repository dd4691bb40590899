/**
 * The metrics of the small files the analyser's tests use, worked out from
 * the definitions: they pin down the trailing-newline segment, the textual
 * fallback after a syntax error, and nested definitions, async included.
 */
module MetricExamples {
  import opened Wrappers
  import opened PyStr
  import opened SyntaxTree
  import opened LineMetrics

  /** Leading whitespace is dropped one character at a time. */
  lemma SkipSpace(c: char, s: string)
    requires IsSpace(c)
    ensures Strip([c] + s) == Strip(s)
  {
    assert ([c] + s)[1..] == s;
  }

  /** Four spaces of indentation disappear under `strip()`. */
  lemma StripIndent(s: string)
    requires s != [] && !IsSpace(s[0]) && !IsSpace(s[|s| - 1])
    ensures Strip("    " + s) == s
  {
    assert "    " + s == [' '] + ("   " + s);
    assert "   " + s == [' '] + ("  " + s);
    assert "  " + s == [' '] + (" " + s);
    assert " " + s == [' '] + s;
    SkipSpace(' ', "   " + s);
    SkipSpace(' ', "  " + s);
    SkipSpace(' ', " " + s);
    SkipSpace(' ', s);
    StripFixed(s);
  }

  const PassFile: string := "def f():\n    pass\n"

  /** A module holding one function whose body is a `pass`. */
  const PassTree: Tree := Tree(OtherNode, [Tree(FunctionDef, [Tree(OtherNode, [])])])

  lemma PassFileLines()
    ensures Split(PassFile, '\n') == ["def f():", "    pass", ""]
  {
    var lines := ["def f():", "    pass", ""];
    assert Join(lines[2..], '\n') == "";
    assert Join(lines[1..], '\n') == "    pass\n";
    assert Join(lines, '\n') == PassFile;
    SplitJoin(lines, '\n');
  }

  /** Outside a block, a non-blank line not opening with `#` or a quote is code. */
  lemma CodeLine(line: string)
    requires Strip(line) != []
    requires Strip(line)[0] != '#' && Strip(line)[0] != '"' && Strip(line)[0] != '\''
    ensures Step(Normal, line) == (Normal, Code)
  {
    var s := Strip(line);
    assert !StartsWith(s, "#") && !StartsWith(s, TripleDouble) && !StartsWith(s, TripleSingle) by {
      assert s[..1][0] == s[0];
    }
  }

  /** Outside a block, a line whose stripped text opens with `#` is a comment. */
  lemma HashLine(line: string)
    requires Strip(line) != [] && Strip(line)[0] == '#'
    ensures Step(Normal, line) == (Normal, Comment)
  {
    var s := Strip(line);
    assert !StartsWith(s, TripleDouble) && !StartsWith(s, TripleSingle) by {
      assert |s| >= 3 ==> s[..3][0] == '#';
    }
    assert StartsWith(s, "#") by {
      assert s[..1] == [s[0]];
    }
  }

  /** Outside a block, an empty line is blank. */
  lemma EmptyLine()
    ensures Step(Normal, "") == (Normal, Blank)
  {
    assert Strip("") == [];
  }

  lemma KindsOfOne(a: string)
    ensures Kinds(Normal, [a]) == [Step(Normal, a).1]
    ensures Run(Normal, [a]) == Step(Normal, a).0
  {
    assert [a][..0] == [];
  }

  /** Two lines read outside any block. */
  lemma KindsOfTwo(a: string, b: string)
    requires Step(Normal, a).0 == Normal
    ensures Kinds(Normal, [a, b]) == [Step(Normal, a).1, Step(Normal, b).1]
    ensures Run(Normal, [a, b]) == Step(Normal, b).0
  {
    KindsOfOne(a);
    ScanSnoc(Normal, [a], b);
    assert [a] + [b] == [a, b];
  }

  /** Three lines read outside any block. */
  lemma KindsOfThree(a: string, b: string, c: string)
    requires Step(Normal, a).0 == Normal && Step(Normal, b).0 == Normal
    ensures Kinds(Normal, [a, b, c]) == [Step(Normal, a).1, Step(Normal, b).1, Step(Normal, c).1]
  {
    KindsOfTwo(a, b);
    ScanSnoc(Normal, [a, b], c);
    assert [a, b] + [c] == [a, b, c];
  }

  /** An unindented code line with no trailing whitespace. */
  lemma BareCodeLine(s: string)
    requires s != [] && !IsSpace(s[0]) && !IsSpace(s[|s| - 1])
    requires s[0] != '#' && s[0] != '"' && s[0] != '\''
    ensures Step(Normal, s) == (Normal, Code)
  {
    StripFixed(s);
    CodeLine(s);
  }

  lemma HeaderIsCode()
    ensures Step(Normal, "def f():") == (Normal, Code)
  {
    BareCodeLine("def f():");
  }

  lemma PassIsCode()
    ensures Step(Normal, "    pass") == (Normal, Code)
  {
    StripIndent("pass");
    CodeLine("    pass");
  }

  lemma PassFileKinds()
    ensures Kinds(Normal, ["def f():", "    pass", ""]) == [Code, Code, Blank]
  {
    HeaderIsCode();
    PassIsCode();
    EmptyLine();
    KindsOfThree("def f():", "    pass", "");
  }

  /** Counting over a three-element sequence. */
  lemma CountOfThree(k1: LineKind, k2: LineKind, k3: LineKind, k: LineKind)
    ensures CountOf([k1, k2, k3], k)
            == (if k1 == k then 1 else 0) + (if k2 == k then 1 else 0) + (if k3 == k then 1 else 0)
  {
    CountOfSnoc([], k1, k);
    CountOfSnoc([k1], k2, k);
    CountOfSnoc([k1, k2], k3, k);
    assert [] + [k1] == [k1];
    assert [k1] + [k2] == [k1, k2];
    assert [k1, k2] + [k3] == [k1, k2, k3];
  }

  /** Counting over a two-element sequence. */
  lemma CountOfTwo(k1: LineKind, k2: LineKind, k: LineKind)
    ensures CountOf([k1, k2], k) == (if k1 == k then 1 else 0) + (if k2 == k then 1 else 0)
  {
    CountOfSnoc([], k1, k);
    CountOfSnoc([k1], k2, k);
    assert [] + [k1] == [k1];
    assert [k1] + [k2] == [k1, k2];
  }

  /** The metrics of a parsed text, from its segments. */
  lemma MetricsParsed(content: string, t: Tree, lines: seq<string>)
    requires Split(content, '\n') == lines
    ensures MetricsOf(content, Parsed(t))
            == Some(Metrics(CountOf(Kinds(Normal, lines), Code), CountOf(Kinds(Normal, lines), Comment),
                            DefCount(t), |lines|))
  {
  }

  /** The metrics of a text that does not parse, from its segments. */
  lemma MetricsUnparsed(content: string, lines: seq<string>)
    requires Split(content, '\n') == lines
    ensures MetricsOf(content, SyntaxError)
            == Some(Metrics(CountOf(Kinds(Normal, lines), Code), CountOf(Kinds(Normal, lines), Comment),
                            HeuristicDefs(lines), |lines|))
  {
  }

  /** A module holding one definition, which holds one other node. */
  lemma OneDefinition(k: NodeKind)
    requires IsDefinition(k)
    ensures DefCount(Tree(OtherNode, [Tree(k, [Tree(OtherNode, [])])])) == 1
  {
    var leaf := Tree(OtherNode, []);
    assert DefCount(leaf) == 0;
    assert DefCountAll([leaf]) == 0 by { assert [leaf][1..] == []; }
    assert DefCount(Tree(k, [leaf])) == 1;
    assert DefCountAll([Tree(k, [leaf])]) == 1 by { assert [Tree(k, [leaf])][1..] == []; }
  }

  /**
   * The trailing newline ends an empty third segment: two code lines, no
   * comment, one definition, three lines in total.
   */
  lemma TrailingNewlineCounts()
    ensures MetricsOf(PassFile, Parsed(PassTree)) == Some(Metrics(2, 0, 1, 3))
  {
    PassFileLines();
    PassFileKinds();
    CountOfThree(Code, Code, Blank, Code);
    CountOfThree(Code, Code, Blank, Comment);
    OneDefinition(FunctionDef);
    MetricsParsed(PassFile, PassTree, ["def f():", "    pass", ""]);
  }

  const BrokenHead: string := "def incomplete_function("
  const BrokenComment: string := "# Missing closing parenthesis"

  /** The test's text that does not parse. */
  const BrokenFile: string := BrokenHead + "\n" + "    " + BrokenComment

  lemma BrokenFileLines()
    ensures Split(BrokenFile, '\n') == [BrokenHead, "    " + BrokenComment]
  {
    var lines := [BrokenHead, "    " + BrokenComment];
    assert Join(lines[1..], '\n') == "    " + BrokenComment;
    assert Join(lines, '\n') == BrokenFile;
    SplitJoin(lines, '\n');
  }

  lemma BrokenHeadIsCode()
    ensures Step(Normal, BrokenHead) == (Normal, Code)
  {
    BareCodeLine(BrokenHead);
  }

  lemma BrokenCommentIsComment()
    ensures Step(Normal, "    " + BrokenComment) == (Normal, Comment)
  {
    StripIndent(BrokenComment);
    HashLine("    " + BrokenComment);
  }

  lemma BrokenFileKinds()
    ensures Kinds(Normal, [BrokenHead, "    " + BrokenComment]) == [Code, Comment]
  {
    BrokenHeadIsCode();
    BrokenCommentIsComment();
    KindsOfTwo(BrokenHead, "    " + BrokenComment);
  }

  /** A line with no surrounding whitespace that does not end in `:` is no definition. */
  lemma NoColonNoDef(s: string)
    requires s != [] && !IsSpace(s[0]) && !IsSpace(s[|s| - 1]) && s[|s| - 1] != ':'
    ensures !IsDefLine(Strip(s))
  {
    StripFixed(s);
    assert s[|s| - 1..] == [s[|s| - 1]];
  }

  lemma BrokenHeadNotDef()
    ensures !IsDefLine(Strip(BrokenHead))
  {
    NoColonNoDef(BrokenHead);
  }

  lemma BrokenCommentNotDef()
    ensures !IsDefLine(Strip("    " + BrokenComment))
  {
    StripIndent(BrokenComment);
    assert BrokenComment[..4][0] == '#';
  }

  /** The fallback's count over two lines. */
  lemma HeuristicDefsOfTwo(a: string, b: string)
    ensures HeuristicDefs([a, b])
            == (if IsDefLine(Strip(a)) then 1 else 0) + (if IsDefLine(Strip(b)) then 1 else 0)
  {
    assert [a, b][..1] == [a];
    assert [a][..0] == [];
  }

  lemma BrokenFileDefs()
    ensures HeuristicDefs([BrokenHead, "    " + BrokenComment]) == 0
  {
    BrokenHeadNotDef();
    BrokenCommentNotDef();
    HeuristicDefsOfTwo(BrokenHead, "    " + BrokenComment);
  }

  /**
   * A syntax error falls back to the textual scan, which finds no line both
   * starting with `def ` and ending with `:`: no definitions, two lines.
   */
  lemma SyntaxErrorCounts()
    ensures MetricsOf(BrokenFile, SyntaxError) == Some(Metrics(1, 1, 0, 2))
  {
    BrokenFileLines();
    BrokenFileKinds();
    BrokenFileDefs();
    CodeThenComment(BrokenFile, BrokenHead, "    " + BrokenComment);
  }

  /** An unparsable text of a code line and a comment line, neither a definition. */
  lemma CodeThenComment(content: string, a: string, b: string)
    requires Split(content, '\n') == [a, b]
    requires Kinds(Normal, [a, b]) == [Code, Comment]
    requires HeuristicDefs([a, b]) == 0
    ensures MetricsOf(content, SyntaxError) == Some(Metrics(1, 1, 0, 2))
  {
    CountOfTwo(Code, Comment, Code);
    CountOfTwo(Code, Comment, Comment);
    MetricsUnparsed(content, [a, b]);
  }

  /**
   * The test module's tree: a function, and a class holding a method and an
   * async method; three definitions, the class itself not counted.
   */
  lemma AsyncMethodsCount()
    ensures var leaf := Tree(OtherNode, []);
            var cls := Tree(ClassDef, [leaf, Tree(FunctionDef, [leaf]), Tree(AsyncFunctionDef, [leaf])]);
            DefCount(Tree(OtherNode, [Tree(FunctionDef, [leaf, leaf]), cls])) == 3
  {
    var leaf := Tree(OtherNode, []);
    var f := Tree(FunctionDef, [leaf]);
    var g := Tree(AsyncFunctionDef, [leaf]);
    var h := Tree(FunctionDef, [leaf, leaf]);
    assert DefCount(leaf) == 0 && DefCountAll([leaf]) == 0 && DefCountAll([leaf, leaf]) == 0;
    assert DefCount(f) == 1 && DefCount(g) == 1 && DefCount(h) == 1;
    assert DefCountAll([g]) == 1;
    assert DefCountAll([f, g]) == 2;
    assert DefCountAll([leaf, f, g]) == 2;
    var cls := Tree(ClassDef, [leaf, f, g]);
    assert DefCount(cls) == 2;
    assert DefCountAll([cls]) == 2;
    assert DefCountAll([h, cls]) == 3;
  }
}
