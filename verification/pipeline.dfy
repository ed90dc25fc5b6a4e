/**
 * The three stages chained as `main` chains them (main.py), with the rows
 * already read, and the facts that only hold across stages.
 */
module Pipeline {
  import opened Results
  import opened Dicts
  import opened Records
  import opened Averages
  import opened SampleIndexer
  import opened ExpressionAggregator
  import opened StructureClassifier
  import opened FindingsReport
  import opened AggregatorProperties

  /** The exception that ends a run, by the stage that raises it. */
  datatype PipelineError =
    | SampleFailed(sample: IndexError)
    | AggregateFailed(aggregate: AggregateError)
    | ClassifyFailed(classify: ClassifyError)
    | ReportFailed(report: ReportError)

  /** `get_sample_index` raises: structures are requested and some sample row is short. */
  predicate SampleStageRaises(sampleRows: seq<seq<string>>, structures: seq<string>) {
    |structures| > 0 && exists i :: 0 <= i < |sampleRows| && IsShort(sampleRows[i])
  }

  /**
   * `sample_indices.values()` when `get_sample_index` succeeds: for each
   * distinct requested structure, in order, its recorded positions.
   */
  function SampleColumns(sampleRows: seq<seq<string>>, structures: seq<string>): (columns: seq<seq<int>>)
    ensures |columns| == |Dedup(structures)| <= |structures|
  {
    var keys := Dedup(structures);
    seq(|keys|, i requires 0 <= i < |keys| => Positions(sampleRows, keys[i], Count(structures, keys[i])))
  }

  /**
   * `get_sample_index`, `analyze_microarray`, `find_uniques_shared` and
   * `print_findings` with GENE_SYMBOL, one after the other. Each stage raises
   * exactly when its own condition holds on what the earlier stages
   * computed; neither the IndexError of `structures[index]` nor the KeyError
   * of the report can end a run. A run that gets through prints the
   * classification of the genes `Fold` keeps, and logs every mismatched row.
   */
  method RunAnalysis(sampleRows: seq<seq<string>>, structures: seq<string>, micro: seq<MicroRow>,
                     probeRows: seq<Probe>, threshold: real)
    returns (r: Result<Report, PipelineError>, mismatches: seq<nat>)
    ensures (r.Failure? && r.error.SampleFailed?) <==> SampleStageRaises(sampleRows, structures)
    ensures r.Failure? && r.error.SampleFailed? ==> mismatches == []
    ensures (r.Failure? && r.error.AggregateFailed?) <==>
      !SampleStageRaises(sampleRows, structures)
      && !AllRowsOk(Zip(micro, probeRows), SampleColumns(sampleRows, structures))
    ensures r.Failure? && r.error.AggregateFailed? ==>
      var pairs, columns, k := Zip(micro, probeRows), SampleColumns(sampleRows, structures), r.error.aggregate.row;
      && k < |pairs| && !RowOk(pairs[k], columns) && AllRowsOk(pairs[..k], columns)
      && r.error.aggregate == RowFailure(pairs[k], columns, k)
      && mismatches == Mismatches(pairs[..k + 1])
    ensures (r.Failure? && r.error.ClassifyFailed?) <==>
      var pairs, columns := Zip(micro, probeRows), SampleColumns(sampleRows, structures);
      && !SampleStageRaises(sampleRows, structures) && AllRowsOk(pairs, columns)
      && !AllRouted(Fold(pairs, columns, threshold).valueArray.Items(), structures, threshold)
    ensures r.Failure? && r.error.ClassifyFailed? ==>
      r.error.classify.NoExpressedStructure? && mismatches == Mismatches(Zip(micro, probeRows))
    ensures r.Failure? ==> !r.error.ReportFailed?
    ensures r.Success? ==>
      var pairs, columns := Zip(micro, probeRows), SampleColumns(sampleRows, structures);
      && !SampleStageRaises(sampleRows, structures) && AllRowsOk(pairs, columns)
      && mismatches == Mismatches(pairs)
      && var st := Fold(pairs, columns, threshold);
         && AllRouted(st.valueArray.Items(), structures, threshold)
         && exists c :: && Classified(c, st.valueArray.Items(), structures, threshold)
                        && Reports(r.value, st.probes, c.unique, c.shared, GeneSymbol)
  {
    mismatches := [];
    var samples := GetSampleIndex(sampleRows, structures);
    if samples.Failure? {
      return Failure(SampleFailed(samples.error)), mismatches;
    }
    var columns := samples.value.Values();
    SampleIndexGivesColumns(sampleRows, structures, samples.value);
    var analysis;
    analysis, mismatches := AnalyzeMicroarray(micro, probeRows, samples.value, threshold);
    if analysis.Failure? {
      return Failure(AggregateFailed(analysis.error)), mismatches;
    }
    ghost var st := Fold(Zip(micro, probeRows), columns, threshold);
    var classification := FindUniquesShared(analysis.value.valueArray, structures, threshold);
    if classification.Failure? {
      ghost var items := st.valueArray.Items();
      ghost var k :| && 0 <= k < |items| && AllRouted(items[..k], structures, threshold)
               && RouteOf(items[k], structures, threshold) == Failure(classification.error);
      ClassifierStaysInRange(st, columns, structures, threshold, k);
      return Failure(ClassifyFailed(classification.error)), mismatches;
    }
    ReportFindsEveryGene(st, columns, structures, threshold, classification.value);
    var report := PrintFindings(analysis.value.probes, classification.value.unique, classification.value.shared,
                                GeneSymbol);
    if report.Failure? {
      assert false;
    }
    r := Success(report.value);
  }

  /** The values of a successful `get_sample_index` are `SampleColumns`. */
  lemma SampleIndexGivesColumns(sampleRows: seq<seq<string>>, structures: seq<string>, index: Dict<string, seq<int>>)
    requires index.Valid() && index.order == Dedup(structures)
    requires forall s :: s in index.entries ==> index.entries[s] == Positions(sampleRows, s, Count(structures, s))
    ensures index.Values() == SampleColumns(sampleRows, structures)
  {
    var columns := SampleColumns(sampleRows, structures);
    forall i | 0 <= i < |columns|
      ensures index.Values()[i] == columns[i]
    {
      assert index.order[i] in index.entries;
    }
  }

  /**
   * A kept gene has one group per structure key, and there are no more keys
   * than requested structures, so `structures[index]` never raises.
   */
  lemma ClassifierStaysInRange(st: Tables, columns: seq<seq<int>>, structures: seq<string>, threshold: real, k: int)
    requires st.Valid(columns) && |columns| <= |structures|
    requires 0 <= k < |st.valueArray.Items()|
    ensures RouteOf(st.valueArray.Items()[k], structures, threshold).Failure? ==>
      RouteOf(st.valueArray.Items()[k], structures, threshold).error.NoExpressedStructure?
  {
    var item := st.valueArray.Items()[k];
    assert item.1 == st.valueArray.entries[st.valueArray.order[k]];
    RouteDecides(item.0, item.1, structures, threshold);
  }

  /** Every gene the classifier lists has a probe, so the report raises no KeyError. */
  lemma ReportFindsEveryGene(st: Tables, columns: seq<seq<int>>, structures: seq<string>, threshold: real,
                             c: Classification)
    requires st.Valid(columns) && AllRouted(st.valueArray.Items(), structures, threshold)
    requires Classified(c, st.valueArray.Items(), structures, threshold)
    ensures forall s :: s in c.unique.entries ==> AllKnown(st.probes, c.unique.entries[s])
    ensures AllKnown(st.probes, c.shared)
  {
    var items := st.valueArray.Items();
    forall d: Destination, g | g in RoutedTo(items, structures, threshold, d)
      ensures g in st.probes.entries
    {
      RoutedToMembers(items, structures, threshold, d, g);
      var i :| 0 <= i < |items| && items[i].0 == g && RouteOf(items[i], structures, threshold) == Success(d);
      assert st.probes.order[i] == g;
    }
    forall s | s in c.unique.entries
      ensures AllKnown(st.probes, c.unique.entries[s])
    {
      assert c.unique.entries[s] == RoutedTo(items, structures, threshold, UniqueList(s));
    }
  }

  /**
   * The asymmetric rule lets a gene be admitted by one row and then replaced
   * by a later row with a higher average and no value at the threshold; the
   * classifier then raises ValueError for that gene.
   */
  lemma BelowThresholdReplacementRaises(admitting: RowPair, replacing: RowPair, columns: seq<seq<int>>,
                                        structures: seq<string>, threshold: real)
    requires RowOk(admitting, columns) && RowOk(replacing, columns) && |columns| > 0
    requires GeneOf(admitting) == GeneOf(replacing)
    requires AnyAtLeast(GroupsOf(admitting, columns), threshold)
    requires AverageOf(admitting) < AverageOf(replacing)
    requires !AnyAtLeast(GroupsOf(replacing, columns), threshold)
    ensures AllRowsOk([admitting, replacing], columns)
    ensures var st := Fold([admitting, replacing], columns, threshold);
      && GeneOf(admitting) in st.valueArray.entries
      && Route(GeneOf(admitting), st.valueArray.entries[GeneOf(admitting)], structures, threshold)
         == Failure(NoExpressedStructure(GeneOf(admitting)))
  {
    var pairs := [admitting, replacing];
    assert AllRowsOk(pairs, columns);
    FoldLast(pairs, columns, threshold);
    assert pairs[..1] == [admitting] && [admitting][..0] == [];
    StepNewGene(EmptyTables(), admitting, columns, threshold);
    StepKnownGene(Fold([admitting], columns, threshold), replacing, columns, threshold);
    var regions := GroupsOf(replacing, columns);
    RouteDecides(GeneOf(admitting), regions, structures, threshold);
  }

  /**
   * Rows that meet the conditions above: with the threshold 5.0, a first row
   * [0.0, 6.0] (average 3.0) and a second row [4.0, 4.0] (average 4.0) of
   * the same gene, one structure reading the last sample and one the first.
   */
  lemma ReplacementExample()
    ensures var columns := [[-1], [0]];
      var admitting := RowPair(MicroRow("p1", [0.0, 6.0]), Probe("p1", "n1", "g", "G", "gene", "1", "1"));
      var replacing := RowPair(MicroRow("p2", [4.0, 4.0]), Probe("p2", "n2", "g", "G", "gene", "1", "1"));
      && RowOk(admitting, columns) && RowOk(replacing, columns)
      && GeneOf(admitting) == GeneOf(replacing)
      && AnyAtLeast(GroupsOf(admitting, columns), 5.0)
      && AverageOf(admitting) == 3.0 && AverageOf(replacing) == 4.0
      && !AnyAtLeast(GroupsOf(replacing, columns), 5.0)
  {
    var columns := [[-1], [0]];
    var low, high := [0.0, 6.0], [4.0, 4.0];
    assert low[..1] == [0.0] && high[..1] == [4.0] && [0.0][..0] == [] && [4.0][..0] == [];
    assert Sum(low) == 6.0 && Sum(high) == 8.0;
    assert Groups(low, columns)[0][0] == 6.0;
    var groups := Groups(high, columns);
    assert groups[0] == [4.0] && groups[1] == [4.0];
  }

  /**
   * A structure matched by the first sample row records position -1, so its
   * group starts with the last value of every expression row.
   */
  lemma FirstSampleRowReadsLastValue(rows: seq<seq<string>>, structure: string, c: nat, values: seq<real>)
    requires c > 0 && |rows| > 0 && Matches(rows[0], structure) && |values| > 0
    requires Fits(values, [Positions(rows, structure, c)])
    ensures |Groups(values, [Positions(rows, structure, c)])[0]| > 0
    ensures Groups(values, [Positions(rows, structure, c)])[0][0] == values[|values| - 1]
  {
    FirstRowRecordsMinusOne(rows, structure, c);
  }

  /**
   * With one expression value per sample row, the corrected positions make a
   * structure's group read exactly the values of the samples annotated with
   * it, starting with the first data row's own value.
   */
  lemma SamplePositionsReadOwnSamples(rows: seq<seq<string>>, structure: string, values: seq<real>)
    requires |values| == |rows|
    ensures Fits(values, [SamplePositions(rows, structure)])
    ensures var ps := SamplePositions(rows, structure);
      forall m :: 0 <= m < |ps| ==>
        && 0 <= ps[m] < |rows| && Matches(rows[ps[m]], structure)
        && Groups(values, [ps])[0][m] == values[ps[m]]
    ensures |rows| > 0 && Matches(rows[0], structure) ==> values[0] in Groups(values, [SamplePositions(rows, structure)])[0]
  {
    var ps := SamplePositions(rows, structure);
    forall m | 0 <= m < |ps|
      ensures 0 <= ps[m] < |rows| && Matches(rows[ps[m]], structure)
    {
      assert ps[m] in ps;
    }
    if |rows| > 0 && Matches(rows[0], structure) {
      var m :| 0 <= m < |ps| && ps[m] == 0;
      assert Groups(values, [ps])[0][m] == values[0];
    }
  }
}
