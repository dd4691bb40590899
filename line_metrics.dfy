/**
 * `__calculate_metrics`: the per-file line classifier and the assembly of a
 * file's four metrics (code lines, comment lines, definitions, total lines).
 *
 * The classifier is a two-state machine run over the `"\n"`-separated
 * segments of the text, each segment looked at only after `strip()`.
 */
module LineMetrics {
  import opened Wrappers
  import opened PyStr
  import opened SyntaxTree

  const TripleDouble: string := "\"\"\""
  const TripleSingle: string := "'''"

  /** Outside a triple-quoted block, or inside one opened by `quote`. */
  datatype ScanState = Normal | InBlock(quote: string)

  /** What a line adds to: `loc`, `cloc`, or neither. */
  datatype LineKind = Code | Comment | Blank

  /** One file's metrics, in the order `loc`, `cloc`, `nom`, `tloc`. */
  datatype Metrics = Metrics(loc: nat, cloc: nat, nom: nat, tloc: nat)

  const ZeroMetrics := Metrics(0, 0, 0, 0)

  /**
   * The classifier's rule for one line in state `st`: the state for the next
   * line and the line's kind. Inside a block every line is a comment and a
   * line containing the opening marker ends the block. Outside, a line
   * opening with a triple quote is a comment, and the block stays open when
   * that marker occurs exactly once on the line; then `#` lines are comments
   * and every other non-blank line is code.
   */
  function Step(st: ScanState, line: string): (r: (ScanState, LineKind))
    ensures st.InBlock? ==> r.1 == Comment
    ensures r.0.InBlock? ==> r.1 == Comment
    ensures r.1 == Blank <==> st.Normal? && Strip(line) == []
    ensures r.1 == Code <==> st.Normal? && r.0 == Normal && Strip(line) != [] && !StartsWith(Strip(line), "#")
                             && !StartsWith(Strip(line), TripleDouble) && !StartsWith(Strip(line), TripleSingle)
  {
    var s := Strip(line);
    match st
    case InBlock(q) =>
      (if Contains(s, q) then Normal else st, Comment)
    case Normal =>
      if StartsWith(s, TripleDouble) || StartsWith(s, TripleSingle) then
        var q := s[..3];
        assert Contains(s, q);
        if Count(s, q) == 1 then (InBlock(q), Comment)
        else if Count(s, q) >= 2 then (Normal, Comment)
        else PlainLine(s)
      else
        PlainLine(s)
  }

  /** A stripped line outside a block that does not open one. */
  function PlainLine(s: string): (r: (ScanState, LineKind))
    ensures r.0 == Normal
    ensures r.1 == Blank <==> s == []
    ensures r.1 == Comment <==> StartsWith(s, "#")
  {
    if StartsWith(s, "#") then (Normal, Comment)
    else if s != [] then (Normal, Code)
    else (Normal, Blank)
  }

  /** Outside a block, or inside one opened by one of the two triple quotes. */
  predicate MarkerState(st: ScanState) {
    st.Normal? || st.quote == TripleDouble || st.quote == TripleSingle
  }

  /** The state after scanning `lines` from `st`; a block is only ever opened by a triple quote. */
  function Run(st: ScanState, lines: seq<string>): (r: ScanState)
    ensures MarkerState(st) ==> MarkerState(r)
  {
    if lines == [] then st
    else Step(Run(st, lines[..|lines| - 1]), lines[|lines| - 1]).0
  }

  /** The kind of each of `lines`, scanning from `st`. */
  function Kinds(st: ScanState, lines: seq<string>): (ks: seq<LineKind>)
    ensures |ks| == |lines|
  {
    if lines == [] then []
    else
      var init := lines[..|lines| - 1];
      Kinds(st, init) + [Step(Run(st, init), lines[|lines| - 1]).1]
  }

  /** How many of `ks` are `k`. */
  function CountOf(ks: seq<LineKind>, k: LineKind): (n: nat)
    ensures n <= |ks|
  {
    if ks == [] then 0
    else CountOf(ks[..|ks| - 1], k) + (if ks[|ks| - 1] == k then 1 else 0)
  }

  predicate AllComments(ks: seq<LineKind>) {
    forall i :: 0 <= i < |ks| ==> ks[i] == Comment
  }

  /** Each line is exactly one of code, comment or blank. */
  lemma {:induction false} KindsPartition(ks: seq<LineKind>)
    ensures CountOf(ks, Code) + CountOf(ks, Comment) + CountOf(ks, Blank) == |ks|
  {
    if ks != [] {
      KindsPartition(ks[..|ks| - 1]);
    }
  }

  /** Scanning `pre + post` ends where scanning `post` from the state `pre` leaves ends. */
  lemma {:induction false} RunAppend(st: ScanState, pre: seq<string>, post: seq<string>)
    ensures Run(st, pre + post) == Run(Run(st, pre), post)
  {
    if post == [] {
      assert pre + post == pre;
    } else {
      var init := post[..|post| - 1];
      var last := post[|post| - 1];
      RunAppend(st, pre, init);
      SnocOfAppend(pre, post);
      assert Run(st, pre + post) == Step(Run(st, pre + init), last).0;
    }
  }

  /** The kinds of `pre + post` are those of `pre`, then those of `post` scanned from where `pre` left off. */
  lemma {:induction false} KindsAppend(st: ScanState, pre: seq<string>, post: seq<string>)
    ensures Kinds(st, pre + post) == Kinds(st, pre) + Kinds(Run(st, pre), post)
  {
    if post == [] {
      assert pre + post == pre;
    } else {
      var init := post[..|post| - 1];
      var last := post[|post| - 1];
      KindsAppend(st, pre, init);
      RunAppend(st, pre, init);
      SnocOfAppend(pre, post);
      var k := Step(Run(st, pre + init), last).1;
      assert Kinds(st, pre + post) == Kinds(st, pre + init) + [k];
      assert Kinds(Run(st, pre), post) == Kinds(Run(st, pre), init) + [k];
    }
  }

  /** The last line of `pre + post` and what precedes it, for a non-empty `post`. */
  lemma SnocOfAppend(pre: seq<string>, post: seq<string>)
    requires post != []
    ensures (pre + post)[..|pre + post| - 1] == pre + post[..|post| - 1]
    ensures (pre + post)[|pre + post| - 1] == post[|post| - 1]
  {
  }

  /**
   * A block with no closing line: every line after an opening is a comment
   * and the scan stays inside the block to the end of the file.
   */
  lemma {:induction false} UnclosedBlock(q: string, lines: seq<string>)
    requires forall i :: 0 <= i < |lines| ==> !Contains(Strip(lines[i]), q)
    ensures Run(InBlock(q), lines) == InBlock(q)
    ensures AllComments(Kinds(InBlock(q), lines))
  {
    UnclosedRun(q, lines);
    UnclosedKinds(q, lines);
  }

  lemma {:induction false} UnclosedRun(q: string, lines: seq<string>)
    requires forall i :: 0 <= i < |lines| ==> !Contains(Strip(lines[i]), q)
    ensures Run(InBlock(q), lines) == InBlock(q)
  {
    if lines != [] {
      var init := lines[..|lines| - 1];
      var last := lines[|lines| - 1];
      assert forall i :: 0 <= i < |init| ==> init[i] == lines[i];
      UnclosedRun(q, init);
      StaysInBlock(q, last);
    }
  }

  lemma {:induction false} UnclosedKinds(q: string, lines: seq<string>)
    requires forall i :: 0 <= i < |lines| ==> !Contains(Strip(lines[i]), q)
    ensures AllComments(Kinds(InBlock(q), lines))
  {
    if lines != [] {
      var init := lines[..|lines| - 1];
      var last := lines[|lines| - 1];
      assert forall i :: 0 <= i < |init| ==> init[i] == lines[i];
      UnclosedKinds(q, init);
      UnclosedRun(q, init);
      StaysInBlock(q, last);
      assert Kinds(InBlock(q), lines) == Kinds(InBlock(q), init) + [Comment];
    }
  }

  /** Inside a block, a line without the marker is a comment and the block stays open. */
  lemma StaysInBlock(q: string, line: string)
    requires !Contains(Strip(line), q)
    ensures Step(InBlock(q), line) == (InBlock(q), Comment)
  {
  }

  /**
   * A block closes on the first line whose stripped text contains its marker:
   * that line and every line before it are comments, and the scan is back
   * outside the block after it.
   */
  lemma {:induction false} BlockClosesAt(q: string, lines: seq<string>, k: nat)
    requires k < |lines|
    requires forall i :: 0 <= i < k ==> !Contains(Strip(lines[i]), q)
    requires Contains(Strip(lines[k]), q)
    ensures Run(InBlock(q), lines[..k + 1]) == Normal
    ensures AllComments(Kinds(InBlock(q), lines[..k + 1]))
  {
    UnclosedBlock(q, lines[..k]);
    assert lines[..k + 1][..k] == lines[..k];
  }

  /**
   * Outside a block, a line whose stripped text starts with a triple quote is
   * one comment line; the block stays open exactly when the marker occurs
   * once on the line, so the fall-through to the `#` test is never taken.
   */
  lemma OpeningLine(line: string)
    requires StartsWith(Strip(line), TripleDouble) || StartsWith(Strip(line), TripleSingle)
    ensures Step(Normal, line).1 == Comment
    ensures var s := Strip(line);
            Step(Normal, line).0 == (if Count(s, s[..3]) == 1 then InBlock(s[..3]) else Normal)
  {
    var s := Strip(line);
    assert StartsWith(s, s[..3]);
    assert Contains(s, s[..3]);
  }

  /** The fallback's definition test: `def ` at the start and `:` at the end. */
  predicate IsDefLine(stripped: string) {
    StartsWith(stripped, "def ") && EndsWith(stripped, ":")
  }

  /**
   * A definition line, character by character: at least five characters, so
   * `def ` and `:` never overlap.
   */
  lemma DefLineShape(s: string)
    ensures IsDefLine(s) <==>
              && |s| >= 5
              && s[0] == 'd' && s[1] == 'e' && s[2] == 'f' && s[3] == ' '
              && s[|s| - 1] == ':'
  {
    if IsDefLine(s) {
      assert s[..4][0] == s[0] && s[..4][3] == s[3];
      assert s[|s| - 1..][0] == s[|s| - 1];
    } else if |s| >= 5 && s[0] == 'd' && s[1] == 'e' && s[2] == 'f' && s[3] == ' ' {
      assert s[..4] == "def ";
      assert s[|s| - 1..] == [s[|s| - 1]];
    }
  }

  /** The fallback definition count: lines whose stripped text passes `IsDefLine`. */
  function HeuristicDefs(lines: seq<string>): (n: nat)
    ensures n <= |lines|
  {
    if lines == [] then 0
    else HeuristicDefs(lines[..|lines| - 1]) + (if IsDefLine(Strip(lines[|lines| - 1])) then 1 else 0)
  }

  /**
   * The metrics of a file's text, given what `ast.parse` made of it: `None`
   * when the parser raised something other than a `SyntaxError`, which
   * `__calculate_metrics` does not catch.
   */
  function MetricsOf(content: string, parse: ParseOutcome): (m: Option<Metrics>)
    ensures m.None? <==> parse.ParserCrash?
    ensures m.Some? ==> m.value.tloc == multiset(content)['\n'] + 1
    ensures m.Some? ==> m.value.loc + m.value.cloc <= m.value.tloc
    ensures m.Some? && parse.Parsed? ==> m.value.nom == DefCount(parse.tree)
    ensures m.Some? && parse.SyntaxError? ==> m.value.nom <= m.value.tloc
  {
    var lines := Split(content, '\n');
    var ks := Kinds(Normal, lines);
    KindsPartition(ks);
    match parse
    case ParserCrash => None
    case Parsed(t) => Some(Metrics(CountOf(ks, Code), CountOf(ks, Comment), DefCount(t), |lines|))
    case SyntaxError => Some(Metrics(CountOf(ks, Code), CountOf(ks, Comment), HeuristicDefs(lines), |lines|))
  }

  /**
   * `__calculate_metrics`: one pass classifying the lines, then the
   * definition count from the tree, or from a second pass over the lines
   * when the text does not parse.
   */
  method CalculateMetrics(content: string, parse: ParseOutcome) returns (m: Option<Metrics>)
    ensures m == MetricsOf(content, parse)
  {
    var lines := Split(content, '\n');
    var totalLines := |lines|;
    var codeLines, commentLines := ClassifyLines(lines);
    var methodCount := 0;
    match parse {
      case ParserCrash =>
        return None;
      case Parsed(tree) =>
        methodCount := CountFunctionsAndMethods(tree);
      case SyntaxError =>
        methodCount := CountDefLines(lines);
    }
    m := Some(Metrics(codeLines, commentLines, methodCount, totalLines));
  }

  lemma CountOfSnoc(ks: seq<LineKind>, k: LineKind, counted: LineKind)
    ensures CountOf(ks + [k], counted) == CountOf(ks, counted) + (if k == counted then 1 else 0)
  {
    assert (ks + [k])[..|ks|] == ks;
  }

  /** Scanning one more line applies `Step` to it, from the state reached so far. */
  lemma ScanSnoc(st: ScanState, pre: seq<string>, line: string)
    ensures Run(st, pre + [line]) == Step(Run(st, pre), line).0
    ensures Kinds(st, pre + [line]) == Kinds(st, pre) + [Step(Run(st, pre), line).1]
  {
    assert (pre + [line])[..|pre|] == pre;
  }

  /** The loop's step: line `i` moves the state by `Step` and adds its kind to one count. */
  lemma ClassifyNext(lines: seq<string>, i: nat)
    requires i < |lines|
    ensures var r := Step(Run(Normal, lines[..i]), lines[i]);
            && Run(Normal, lines[..i + 1]) == r.0
            && CountOf(Kinds(Normal, lines[..i + 1]), Code) == CountOf(Kinds(Normal, lines[..i]), Code) + (if r.1 == Code then 1 else 0)
            && CountOf(Kinds(Normal, lines[..i + 1]), Comment) == CountOf(Kinds(Normal, lines[..i]), Comment) + (if r.1 == Comment then 1 else 0)
  {
    var r := Step(Run(Normal, lines[..i]), lines[i]);
    assert lines[..i + 1] == lines[..i] + [lines[i]];
    ScanSnoc(Normal, lines[..i], lines[i]);
    CountOfSnoc(Kinds(Normal, lines[..i]), r.1, Code);
    CountOfSnoc(Kinds(Normal, lines[..i]), r.1, Comment);
  }

  /** The classifying loop of `__calculate_metrics`, with its four variables. */
  method ClassifyLines(lines: seq<string>) returns (codeLines: nat, commentLines: nat)
    ensures codeLines == CountOf(Kinds(Normal, lines), Code)
    ensures commentLines == CountOf(Kinds(Normal, lines), Comment)
  {
    commentLines, codeLines := 0, 0;
    var inMultilineString := false;
    var multilineQuote: Option<string> := None;

    for i := 0 to |lines|
      invariant inMultilineString <==> Run(Normal, lines[..i]).InBlock?
      invariant inMultilineString ==> multilineQuote == Some(Run(Normal, lines[..i]).quote)
      invariant codeLines == CountOf(Kinds(Normal, lines[..i]), Code)
      invariant commentLines == CountOf(Kinds(Normal, lines[..i]), Comment)
    {
      ghost var st := Run(Normal, lines[..i]);
      ghost var r := Step(st, lines[i]);
      ClassifyNext(lines, i);
      var stripped := Strip(lines[i]);
      if !inMultilineString {
        if StartsWith(stripped, TripleDouble) || StartsWith(stripped, TripleSingle) {
          multilineQuote := Some(stripped[..3]);
          if Count(stripped, stripped[..3]) == 1 {
            assert r == (InBlock(stripped[..3]), Comment);
            inMultilineString := true;
            commentLines := commentLines + 1;
            continue;
          }
          if Count(stripped, stripped[..3]) >= 2 {
            assert r == (Normal, Comment);
            commentLines := commentLines + 1;
            continue;
          }
        }
        assert r == PlainLine(stripped);
      } else {
        assert r.1 == Comment && (r.0 == Normal <==> Contains(stripped, st.quote));
        commentLines := commentLines + 1;
        if Contains(stripped, multilineQuote.value) {
          inMultilineString := false;
          multilineQuote := None;
        }
        continue;
      }

      if StartsWith(stripped, "#") {
        commentLines := commentLines + 1;
      } else if stripped != [] && !inMultilineString {
        codeLines := codeLines + 1;
      }
    }
    assert lines[..|lines|] == lines;
  }

  /** The fallback loop of `__calculate_metrics`, run when the text does not parse. */
  method CountDefLines(lines: seq<string>) returns (methodCount: nat)
    ensures methodCount == HeuristicDefs(lines)
  {
    methodCount := 0;
    for i := 0 to |lines|
      invariant methodCount == HeuristicDefs(lines[..i])
    {
      assert lines[..i + 1][..i] == lines[..i];
      var stripped := Strip(lines[i]);
      if StartsWith(stripped, "def ") && EndsWith(stripped, ":") {
        methodCount := methodCount + 1;
      }
    }
    assert lines[..|lines|] == lines;
  }
}
