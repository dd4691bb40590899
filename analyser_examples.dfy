/**
 * The parameter handling of `analyse` on the inputs the analyser's tests
 * use: a two-metric request, a request naming no known metric, an empty
 * directory, and a custom title with no description.
 */
module AnalyserExamples {
  import opened Wrappers
  import opened PyStr
  import opened FileSystem
  import opened Hierarchy
  import opened Analyser

  /** An item made of letters only is already clean. */
  lemma LettersClean(x: string)
    requires x != [] && forall i :: 0 <= i < |x| ==> 'a' <= x[i] <= 'z'
    ensures CleanItem(x) && ',' !in x
  {
  }

  /** Two clean items joined by a comma parse back to the two items. */
  lemma ParseTwo(a: string, b: string)
    requires CleanItem(a) && ',' !in a && CleanItem(b) && ',' !in b
    ensures ParseCsvParam(a + "," + b) == [a, b]
  {
    CsvRoundTrip([a, b]);
    assert [a, b][1..] == [b];
    assert Join([a, b], ',') == a + "," + b;
  }

  /** `metrics="loc,nom"` parses to the two ids, in order. */
  lemma TwoIdsParse()
    ensures ParseCsvParam("loc,nom") == ["loc", "nom"]
  {
    LettersClean("loc");
    LettersClean("nom");
    assert "loc,nom" == "loc" + "," + "nom";
    ParseTwo("loc", "nom");
  }

  lemma TwoIdsKnown()
    ensures KnownMetrics(["loc", "nom"]) == [LocDef, NomDef]
  {
    assert ["loc", "nom"][..1] == ["loc"];
    assert ["loc"][..0] == [];
  }

  /** Asking for `loc` and `nom` selects exactly those two definitions. */
  lemma TwoMetricsSelected()
    ensures SelectMetrics(ParseCsvParam("loc,nom")) == Ok([LocDef, NomDef])
  {
    TwoIdsParse();
    TwoIdsKnown();
  }

  /** `metrics="invalid,nonexistent"` parses to the two ids, in order. */
  lemma UnknownIdsParse()
    ensures ParseCsvParam("invalid,nonexistent") == ["invalid", "nonexistent"]
  {
    LettersClean("invalid");
    LettersClean("nonexistent");
    assert "invalid,nonexistent" == "invalid" + "," + "nonexistent";
    ParseTwo("invalid", "nonexistent");
  }

  lemma UnknownIdsUnknown()
    ensures SelectMetrics(["invalid", "nonexistent"]) == Err(NoValidMetrics(["invalid", "nonexistent"]))
  {
    assert "invalid" !in CatalogIds;
    assert "nonexistent" !in CatalogIds;
  }

  /** `metrics="invalid,nonexistent"` names no known metric, so it is an error. */
  lemma UnknownMetricsRejected()
    ensures SelectMetrics(ParseCsvParam("invalid,nonexistent")) == Err(NoValidMetrics(["invalid", "nonexistent"]))
  {
    UnknownIdsParse();
    UnknownIdsUnknown();
  }

  /**
   * An existing empty directory, analysed with no parameters: all four
   * metrics, the root folder with no children, and the defaults for title and
   * description.
   */
  lemma EmptyDirectory(inputDir: string, name: string, baseName: string)
    ensures var req := Request(inputDir, None, None, "", "", "");
            var r := AnalysisOf(req, Some(Dir(name, Listed([]))), baseName);
            && r.Ok?
            && r.value.metrics == Catalog
            && r.value.hierarchy == FolderNode(Basename(inputDir), [])
            && r.value.title == baseName
            && r.value.description == "Analysis of " + baseName
  {
    var req := Request(inputDir, None, None, "", "", "");
    assert ParseCsvParam("") == [];
    assert SelectMetrics([]) == Ok(Catalog);
    assert SortByName([]) == [];
    var ex := ExclusionsOf(req);
    assert Collect(inputDir, [], ex, []) == [];
    assert BuildNode(inputDir, Dir(name, Listed([])), ex) == FolderNode(Basename(inputDir), []);
  }

  /** A given title and description are used as they are. */
  lemma CustomTitle(req: Request, root: Entry, baseName: string)
    requires req.title == Some("Custom Project") && req.description == Some("Custom description")
    requires req.metrics == ""
    ensures var r := AnalysisOf(req, Some(root), baseName);
            r.Ok? && r.value.title == "Custom Project" && r.value.description == "Custom description"
  {
  }
}
