/**
 * `PythonAnalyser.analyse` apart from the walk itself: the comma-separated
 * parameters, the four-entry metric catalog and the choice of metrics from
 * it, the default title and description, and the order in which the two
 * `ValueError`s can arise.
 */
module Analyser {
  import opened Wrappers
  import opened PyStr
  import opened FileSystem
  import opened Hierarchy

  /** A metric's description in the report. */
  datatype MetricDef = MetricDef(id: string, name: string, description: string,
                                 valueType: string, aggregate: string, propagate: bool)

  const LocDef: MetricDef :=
    MetricDef("loc", "Lines of Code", "Number of non-empty, non-comment lines", "number", "sum", true)
  const ClocDef: MetricDef :=
    MetricDef("cloc", "Comment Lines", "Number of comment lines", "number", "sum", true)
  const NomDef: MetricDef :=
    MetricDef("nom", "Method Count", "Number of methods and functions", "number", "sum", true)
  const TlocDef: MetricDef :=
    MetricDef("tloc", "Total Lines", "Total number of lines in file", "number", "sum", true)

  /** `all_metrics`, in its insertion order. */
  const Catalog: seq<MetricDef> := [LocDef, ClocDef, NomDef, TlocDef]

  /** The keys of `all_metrics`. */
  const CatalogIds: seq<string> := ["loc", "cloc", "nom", "tloc"]

  /** `all_metrics[id]` when `id in all_metrics`. */
  function Lookup(id: string): (r: Option<MetricDef>)
    ensures r.Some? <==> id in CatalogIds
    ensures r.Some? ==> r.value.id == id && r.value in Catalog
  {
    if id == "loc" then Some(LocDef)
    else if id == "cloc" then Some(ClocDef)
    else if id == "nom" then Some(NomDef)
    else if id == "tloc" then Some(TlocDef)
    else None
  }

  /** The catalog entry for each id is the one with that id. */
  lemma CatalogConsistent()
    ensures |Catalog| == |CatalogIds|
    ensures forall i :: 0 <= i < |Catalog| ==> Catalog[i].id == CatalogIds[i] && Lookup(CatalogIds[i]) == Some(Catalog[i])
  {
  }

  // ---------------------------------------------------------------- CSV

  /** A non-empty item with no surrounding whitespace. */
  predicate CleanItem(x: string) {
    x != [] && !IsSpace(x[0]) && !IsSpace(x[|x| - 1])
  }

  /**
   * The comprehension of `__parse_csv_param`: each piece stripped, the empty
   * ones dropped, the rest kept in order.
   */
  function StrippedItems(items: seq<string>): (r: seq<string>)
    ensures |r| <= |items|
    ensures forall i :: 0 <= i < |r| ==> CleanItem(r[i])
  {
    if items == [] then []
    else
      var rest := StrippedItems(items[..|items| - 1]);
      var s := Strip(items[|items| - 1]);
      if s == [] then rest else rest + [s]
  }

  /** Stripping adds no character, so items free of `sep` give items free of `sep`. */
  lemma {:induction false} StrippedItemsAvoid(items: seq<string>, sep: char)
    requires forall j :: 0 <= j < |items| ==> sep !in items[j]
    ensures forall i :: 0 <= i < |StrippedItems(items)| ==> sep !in StrippedItems(items)[i]
  {
    if items != [] {
      StrippedItemsAvoid(items[..|items| - 1], sep);
      StripWithin(items[|items| - 1]);
    }
  }

  /** `__parse_csv_param`: the non-blank, stripped, comma-separated items of `param`. */
  function ParseCsvParam(param: string): (r: seq<string>)
    ensures AllSpace(param) ==> r == []
    ensures forall i :: 0 <= i < |r| ==> CleanItem(r[i]) && ',' !in r[i]
  {
    if param == [] || Strip(param) == [] then []
    else
      StrippedItemsAvoid(Split(param, ','), ',');
      StrippedItems(Split(param, ','))
  }

  /** Blank items all disappear. */
  lemma {:induction false} StrippedBlank(items: seq<string>)
    requires forall j :: 0 <= j < |items| ==> AllSpace(items[j])
    ensures StrippedItems(items) == []
  {
    if items != [] {
      StrippedBlank(items[..|items| - 1]);
    }
  }

  /** Every piece of an all-whitespace text is all whitespace. */
  lemma BlankPieces(param: string)
    requires AllSpace(param)
    ensures StrippedItems(Split(param, ',')) == []
  {
    var pieces := Split(param, ',');
    SplitFrom(param, ',');
    forall j | 0 <= j < |pieces| ensures AllSpace(pieces[j]) {
      forall k | 0 <= k < |pieces[j]| ensures IsSpace(pieces[j][k]) {
        var i :| 0 <= i < |param| && param[i] == pieces[j][k];
      }
    }
    StrippedBlank(pieces);
  }

  /** The blank-input guard changes nothing: the result is always the comprehension's. */
  lemma CsvGuardRedundant(param: string)
    ensures ParseCsvParam(param) == StrippedItems(Split(param, ','))
  {
    if param == [] || Strip(param) == [] {
      BlankPieces(param);
    }
  }

  /** Items that are already clean are kept one for one. */
  lemma {:induction false} StrippedClean(xs: seq<string>)
    requires forall i :: 0 <= i < |xs| ==> CleanItem(xs[i])
    ensures StrippedItems(xs) == xs
  {
    if xs != [] {
      var init := xs[..|xs| - 1];
      var last := xs[|xs| - 1];
      assert forall i :: 0 <= i < |init| ==> init[i] == xs[i];
      StrippedClean(init);
      StripFixed(last);
      assert StrippedItems(xs) == StrippedItems(init) + [last];
      assert init + [last] == xs;
    }
  }

  /**
   * The parser is the partner of `",".join`: a list of non-empty, stripped,
   * comma-free items comes back unchanged.
   */
  lemma CsvRoundTrip(xs: seq<string>)
    requires forall i :: 0 <= i < |xs| ==> CleanItem(xs[i]) && ',' !in xs[i]
    ensures ParseCsvParam(Join(xs, ',')) == xs
  {
    if xs != [] {
      SplitJoin(xs, ',');
      StrippedClean(xs);
      CsvGuardRedundant(Join(xs, ','));
    }
  }

  /** Parsing an already parsed and re-joined parameter changes nothing. */
  lemma CsvIdempotent(param: string)
    ensures ParseCsvParam(Join(ParseCsvParam(param), ',')) == ParseCsvParam(param)
  {
    CsvRoundTrip(ParseCsvParam(param));
  }

  // ---------------------------------------------------------------- metrics

  /** The comprehension over the requested ids: known ones, in request order. */
  function KnownMetrics(ids: seq<string>): (r: seq<MetricDef>)
    ensures |r| <= |ids|
    ensures forall m :: m in r ==> m in Catalog && m.id in ids
    ensures r == [] <==> forall i :: 0 <= i < |ids| ==> ids[i] !in CatalogIds
  {
    if ids == [] then []
    else
      var init := ids[..|ids| - 1];
      var id := ids[|ids| - 1];
      assert forall i :: 0 <= i < |init| ==> init[i] == ids[i];
      assert forall x :: x in init ==> x in ids;
      var rest := KnownMetrics(init);
      match Lookup(id)
      case Some(m) => rest + [m]
      case None => rest
  }

  /** Filtering distributes over concatenation, so request order is kept. */
  lemma {:induction false} KnownMetricsAppend(a: seq<string>, b: seq<string>)
    ensures KnownMetrics(a + b) == KnownMetrics(a) + KnownMetrics(b)
    decreases |b|
  {
    if b == [] {
      assert a + b == a;
    } else {
      var b0 := b[..|b| - 1];
      var last := b[|b| - 1];
      var tail := match Lookup(last) case Some(m) => [m] case None => [];
      KnownMetricsAppend(a, b0);
      assert (a + b)[..|a + b| - 1] == a + b0 && (a + b)[|a + b| - 1] == last;
      assert KnownMetrics(a + b) == KnownMetrics(a + b0) + tail;
      assert KnownMetrics(b) == KnownMetrics(b0) + tail;
    }
  }

  /** One requested id contributes its catalog entry, or nothing when it is unknown. */
  lemma KnownMetricsSingle(id: string)
    ensures id in CatalogIds ==> KnownMetrics([id]) == [Lookup(id).value]
    ensures id !in CatalogIds ==> KnownMetrics([id]) == []
  {
    assert [id][..0] == [];
  }

  /** Requesting every catalog id, in catalog order, gives the whole catalog. */
  lemma KnownMetricsOfCatalog()
    ensures KnownMetrics(CatalogIds) == Catalog
  {
    KnownMetricsOfFirstThree();
    assert CatalogIds[..3] == ["loc", "cloc", "nom"];
  }

  lemma KnownMetricsOfFirstThree()
    ensures KnownMetrics(["loc", "cloc", "nom"]) == [LocDef, ClocDef, NomDef]
  {
    KnownMetricsOfFirstTwo();
    assert ["loc", "cloc", "nom"][..2] == ["loc", "cloc"];
  }

  lemma KnownMetricsOfFirstTwo()
    ensures KnownMetrics(["loc", "cloc"]) == [LocDef, ClocDef]
  {
    assert ["loc", "cloc"][..1] == ["loc"];
    assert ["loc"][..0] == [];
  }

  /** The two `ValueError`s of `analyse`. */
  datatype AnalysisError =
    | InputDirMissing(path: string)
    | NoValidMetrics(requested: seq<string>)

  /** The metric-selection step of `analyse`. */
  function SelectMetrics(requested: seq<string>): (r: Result<seq<MetricDef>, AnalysisError>)
    ensures requested == [] ==> r == Ok(Catalog)
    ensures requested != [] ==>
              (r.Err? <==> forall i :: 0 <= i < |requested| ==> requested[i] !in CatalogIds)
    ensures r.Err? ==> r.error == NoValidMetrics(requested)
    ensures r.Ok? ==> r.value != [] && forall m :: m in r.value ==> m in Catalog
    ensures r.Ok? && requested != [] ==> r.value == KnownMetrics(requested)
  {
    if requested != [] then
      var chosen := KnownMetrics(requested);
      if chosen == [] then Err(NoValidMetrics(requested)) else Ok(chosen)
    else
      Ok(Catalog)
  }

  // ---------------------------------------------------------------- analyse

  /** Python's `title or fallback`: an absent or empty title falls back. */
  function OrElse(value: Option<string>, fallback: string): (r: string)
    ensures value.Some? && value.value != [] ==> r == value.value
    ensures value.None? || value.value == [] ==> r == fallback
  {
    match value
    case Some(v) => if v != [] then v else fallback
    case None => fallback
  }

  datatype ProjectData = ProjectData(version: string, title: string, description: string,
                                     metrics: seq<MetricDef>, hierarchy: Node)

  /** The arguments of `analyse`, with `**kwargs` made explicit. */
  datatype Request = Request(
    inputDir: string,
    title: Option<string>,
    description: Option<string>,
    excludeDirectories: string,
    excludeFilenames: string,
    metrics: string)

  /** The exclusions `analyse` passes to the walk. */
  function ExclusionsOf(req: Request): (ex: Exclusions)
    ensures forall i :: 0 <= i < |ex.dirs| ==> CleanItem(ex.dirs[i]) && ',' !in ex.dirs[i]
    ensures forall i :: 0 <= i < |ex.patterns| ==> CleanItem(ex.patterns[i]) && ',' !in ex.patterns[i]
    ensures AllSpace(req.excludeDirectories) ==> ex.dirs == []
    ensures AllSpace(req.excludeFilenames) ==> ex.patterns == []
  {
    Exclusions(ParseCsvParam(req.excludeDirectories), ParseCsvParam(req.excludeFilenames))
  }

  /**
   * What `analyse` returns or raises when the filesystem holds `root` at the
   * input path (`None`: nothing there) and the input path's absolute form has
   * base name `baseName`.
   */
  function AnalysisOf(req: Request, root: Option<Entry>, baseName: string): (r: Result<ProjectData, AnalysisError>)
    ensures root.None? <==> r == Err(InputDirMissing(req.inputDir))
    ensures root.Some? ==>
              (r.Err? <==> SelectMetrics(ParseCsvParam(req.metrics)).Err?)
    ensures r.Ok? ==>
              && root.Some?
              && r.value.version == "1.0"
              && r.value.title == OrElse(req.title, baseName)
              && r.value.description == OrElse(req.description, "Analysis of " + r.value.title)
              && Ok(r.value.metrics) == SelectMetrics(ParseCsvParam(req.metrics))
              && r.value.hierarchy == BuildNode(req.inputDir, root.value, ExclusionsOf(req))
  {
    if root.None? then Err(InputDirMissing(req.inputDir))
    else
      match SelectMetrics(ParseCsvParam(req.metrics))
      case Err(e) => Err(e)
      case Ok(chosen) =>
        var title := OrElse(req.title, baseName);
        Ok(ProjectData("1.0", title, OrElse(req.description, "Analysis of " + title),
                       chosen, BuildNode(req.inputDir, root.value, ExclusionsOf(req))))
  }

  /** `analyse`: check the input exists, resolve the parameters, walk, assemble. */
  method Analyse(req: Request, root: Option<Entry>, baseName: string) returns (r: Result<ProjectData, AnalysisError>)
    ensures r == AnalysisOf(req, root, baseName)
  {
    if root.None? {
      return Err(InputDirMissing(req.inputDir));
    }
    var excludeDirsList := ParseCsvParam(req.excludeDirectories);
    var excludeFilesList := ParseCsvParam(req.excludeFilenames);
    var requestedMetricIds := ParseCsvParam(req.metrics);
    var metricsToCompute: seq<MetricDef>;
    if requestedMetricIds != [] {
      metricsToCompute := KnownMetrics(requestedMetricIds);
      if metricsToCompute == [] {
        return Err(NoValidMetrics(requestedMetricIds));
      }
    } else {
      metricsToCompute := Catalog;
    }
    var hierarchy := BuildHierarchy(req.inputDir, root.value, Exclusions(excludeDirsList, excludeFilesList));
    var projectTitle := OrElse(req.title, baseName);
    var projectDescription := OrElse(req.description, "Analysis of " + projectTitle);
    r := Ok(ProjectData("1.0", projectTitle, projectDescription, metricsToCompute, hierarchy));
  }
}
