/**
 * `analyze_microarray` (main.py): walk the expression matrix and the probe
 * table in lockstep and keep, per gene, the probe with the highest average
 * together with that probe's values grouped by structure.
 */
module ExpressionAggregator {
  import opened Results
  import opened Dicts
  import opened Records
  import opened Averages

  /** One row of the expression matrix: the leading probe id, then one value per sample. */
  datatype MicroRow = MicroRow(probeId: string, values: seq<real>)

  /** The two rows that `zip` hands to one iteration. */
  datatype RowPair = RowPair(micro: MicroRow, probe: Probe)

  /** `zip(micro_csv, probes_csv)`: pairs up to the shorter of the two. */
  function Zip(micro: seq<MicroRow>, probes: seq<Probe>): (pairs: seq<RowPair>)
    ensures |pairs| == if |micro| <= |probes| then |micro| else |probes|
    ensures forall i :: 0 <= i < |pairs| ==> pairs[i].micro == micro[i] && pairs[i].probe == probes[i]
  {
    var n := if |micro| <= |probes| then |micro| else |probes|;
    seq(n, i requires 0 <= i < n => RowPair(micro[i], probes[i]))
  }

  /** Python accepts an index from -len to len - 1; a negative one counts from the end. */
  predicate InRange(values: seq<real>, i: int) {
    -|values| <= i < |values|
  }

  /** `values[i]` */
  function At(values: seq<real>, i: int): (v: real)
    requires InRange(values, i)
    ensures v in values
    ensures i == -1 ==> v == values[|values| - 1]
  {
    if i >= 0 then values[i] else values[|values| + i]
  }

  /** Every recorded position can index `values`. */
  predicate Fits(values: seq<real>, columns: seq<seq<int>>) {
    forall k, m :: 0 <= k < |columns| && 0 <= m < |columns[k]| ==> InRange(values, columns[k][m])
  }

  /** One group per structure, each as long as that structure's position list. */
  predicate Shaped(groups: seq<seq<real>>, columns: seq<seq<int>>) {
    |groups| == |columns| && forall k :: 0 <= k < |groups| ==> |groups[k]| == |columns[k]|
  }

  /** `[[micro_values[index] for index in indices] for indices in sample_indices.values()]` */
  function Groups(values: seq<real>, columns: seq<seq<int>>): (groups: seq<seq<real>>)
    requires Fits(values, columns)
    ensures Shaped(groups, columns)
    ensures forall k, m :: 0 <= k < |columns| && 0 <= m < |columns[k]| ==>
      groups[k][m] == At(values, columns[k][m])
  {
    seq(|columns|, k requires 0 <= k < |columns| =>
      seq(|columns[k]|, m requires 0 <= m < |columns[k]| => At(values, columns[k][m])))
  }

  /** `any(value >= threshold for value in itertools.chain(*groups))` */
  predicate AnyAtLeast(groups: seq<seq<real>>, threshold: real) {
    exists k, m :: 0 <= k < |groups| && 0 <= m < |groups[k]| && groups[k][m] >= threshold
  }

  /** An iteration raises unless the row has values and every position fits it. */
  predicate RowOk(pair: RowPair, columns: seq<seq<int>>) {
    |pair.micro.values| > 0 && Fits(pair.micro.values, columns)
  }

  predicate AllRowsOk(pairs: seq<RowPair>, columns: seq<seq<int>>) {
    forall i :: 0 <= i < |pairs| ==> RowOk(pairs[i], columns)
  }

  /** ZeroDivisionError in `calc_average`, or IndexError while grouping the values. */
  datatype AggregateError = EmptyExpressionRow(row: nat) | SampleIndexOutOfRange(row: nat)

  function RowFailure(pair: RowPair, columns: seq<seq<int>>, row: nat): AggregateError
    requires !RowOk(pair, columns)
  {
    if |pair.micro.values| == 0 then EmptyExpressionRow(row) else SampleIndexOutOfRange(row)
  }

  function GeneOf(pair: RowPair): string {
    pair.probe.geneId
  }

  function AverageOf(pair: RowPair): real
    requires |pair.micro.values| > 0
  {
    Mean(pair.micro.values)
  }

  function GroupsOf(pair: RowPair, columns: seq<seq<int>>): seq<seq<real>>
    requires Fits(pair.micro.values, columns)
  {
    Groups(pair.micro.values, columns)
  }

  /** The row positions whose two leading identifiers differ: the rows `logging.error` reports. */
  function Mismatches(pairs: seq<RowPair>): (rows: seq<nat>)
    ensures forall k :: k in rows <==> 0 <= k < |pairs| && pairs[k].micro.probeId != pairs[k].probe.probeId
    ensures forall i, j :: 0 <= i < j < |rows| ==> rows[i] < rows[j]
  {
    if pairs == [] then []
    else
      var n := |pairs|;
      var before := Mismatches(pairs[..n - 1]);
      assert forall i :: 0 <= i < |before| ==> before[i] in before;
      if pairs[n - 1].micro.probeId != pairs[n - 1].probe.probeId then before + [n - 1] else before
  }

  /** The three dicts `averages`, `probes` and `array` (here `valueArray`), keyed by gene id. */
  datatype Tables = Tables(
    averages: Dict<string, real>,
    probes: Dict<string, Probe>,
    valueArray: Dict<string, seq<seq<real>>>)
  {
    /** The dicts share their keys, in the same order; each probe sits under its own gene id. */
    predicate Valid(columns: seq<seq<int>>) {
      && averages.Valid() && probes.Valid() && valueArray.Valid()
      && probes.order == averages.order && valueArray.order == averages.order
      && (forall g :: g in probes.entries ==> probes.entries[g].geneId == g)
      && (forall g :: g in valueArray.entries ==> Shaped(valueArray.entries[g], columns))
    }

    /** Store one row's probe, average and groups under its gene in all three dicts. */
    function Record(probe: Probe, average: real, groups: seq<seq<real>>, columns: seq<seq<int>>): (r: Tables)
      requires Valid(columns) && Shaped(groups, columns)
      ensures r.Valid(columns)
      ensures r.averages.entries == averages.entries[probe.geneId := average]
      ensures r.probes.entries == probes.entries[probe.geneId := probe]
      ensures r.valueArray.entries == valueArray.entries[probe.geneId := groups]
    {
      var p := probes.Put(probe.geneId, probe);
      var v := valueArray.Put(probe.geneId, groups);
      assert forall g :: g in p.entries ==> p.entries[g].geneId == g;
      assert forall g :: g in v.entries ==> Shaped(v.entries[g], columns);
      Tables(averages.Put(probe.geneId, average), p, v)
    }
  }

  function EmptyTables(): (st: Tables)
    ensures forall columns :: st.Valid(columns)
  {
    Tables(Dict([], map[]), Dict([], map[]), Dict([], map[]))
  }

  /**
   * One iteration of the loop. A gene seen for the first time is admitted
   * only if some grouped value reaches the threshold; a gene already kept is
   * replaced only by a row with a strictly higher average, whatever its
   * values.
   */
  function Step(st: Tables, probe: Probe, values: seq<real>, columns: seq<seq<int>>, threshold: real): (r: Tables)
    requires st.Valid(columns) && |values| > 0 && Fits(values, columns)
    ensures r.Valid(columns)
    ensures r == st || r == st.Record(probe, Mean(values), Groups(values, columns), columns)
    ensures probe.geneId !in st.probes.entries ==>
      (probe.geneId in r.probes.entries <==> AnyAtLeast(Groups(values, columns), threshold))
    ensures probe.geneId in st.probes.entries ==>
      (r != st <==> st.averages.entries[probe.geneId] < Mean(values))
  {
    var average := Mean(values);
    var groups := Groups(values, columns);
    var gene := probe.geneId;
    if gene in st.probes.entries then
      var highest := Max(st.averages.entries[gene], average);
      if st.averages.entries[gene] < highest then st.Record(probe, highest, groups, columns) else st
    else if AnyAtLeast(groups, threshold) then
      st.Record(probe, average, groups, columns)
    else
      st
  }

  /** The dicts after the loop has run over `pairs`. */
  function Fold(pairs: seq<RowPair>, columns: seq<seq<int>>, threshold: real): (st: Tables)
    requires AllRowsOk(pairs, columns)
    ensures st.Valid(columns)
  {
    if pairs == [] then EmptyTables()
    else
      var n := |pairs|;
      assert AllRowsOk(pairs[..n - 1], columns);
      Step(Fold(pairs[..n - 1], columns, threshold), pairs[n - 1].probe, pairs[n - 1].micro.values, columns, threshold)
  }

  /** What `analyze_microarray` returns: `probes` and `array` (here `valueArray`). */
  datatype Analysis = Analysis(probes: Dict<string, Probe>, valueArray: Dict<string, seq<seq<real>>>)

  method AnalyzeMicroarray(micro: seq<MicroRow>, probeRows: seq<Probe>, sampleIndices: Dict<string, seq<int>>,
                           threshold: real)
    returns (r: Result<Analysis, AggregateError>, mismatches: seq<nat>)
    requires sampleIndices.Valid()
    ensures r.Success? <==> AllRowsOk(Zip(micro, probeRows), sampleIndices.Values())
    ensures r.Success? ==>
      var st := Fold(Zip(micro, probeRows), sampleIndices.Values(), threshold);
      r.value == Analysis(st.probes, st.valueArray) && mismatches == Mismatches(Zip(micro, probeRows))
    ensures r.Failure? ==>
      var pairs, columns, k := Zip(micro, probeRows), sampleIndices.Values(), r.error.row;
      && k < |pairs| && !RowOk(pairs[k], columns) && AllRowsOk(pairs[..k], columns)
      && r.error == RowFailure(pairs[k], columns, k)
      && mismatches == Mismatches(pairs[..k + 1])
  {
    var columns := sampleIndices.Values();
    var pairs := Zip(micro, probeRows);
    var tables;
    tables, mismatches := ScanPairs(pairs, columns, threshold);
    if tables.Failure? {
      return Failure(tables.error), mismatches;
    }
    r := Success(Analysis(tables.value.probes, tables.value.valueArray));
  }

  /**
   * The loop over the zipped rows: log a row whose two identifiers differ,
   * then process it; the first row that raises ends the loop.
   */
  method ScanPairs(pairs: seq<RowPair>, columns: seq<seq<int>>, threshold: real)
    returns (r: Result<Tables, AggregateError>, mismatches: seq<nat>)
    ensures r.Success? <==> AllRowsOk(pairs, columns)
    ensures r.Success? ==> r.value == Fold(pairs, columns, threshold) && mismatches == Mismatches(pairs)
    ensures r.Failure? ==>
      var k := r.error.row;
      && k < |pairs| && !RowOk(pairs[k], columns) && AllRowsOk(pairs[..k], columns)
      && r.error == RowFailure(pairs[k], columns, k)
      && mismatches == Mismatches(pairs[..k + 1])
  {
    var averages: Dict<string, real> := Dict([], map[]);
    var probes: Dict<string, Probe> := Dict([], map[]);
    var valueArray: Dict<string, seq<seq<real>>> := Dict([], map[]);
    mismatches := [];
    var i := 0;
    while i < |pairs|
      invariant 0 <= i <= |pairs|
      invariant AllRowsOk(pairs[..i], columns)
      invariant Tables(averages, probes, valueArray) == Fold(pairs[..i], columns, threshold)
      invariant mismatches == Mismatches(pairs[..i])
    {
      var pair := pairs[i];
      MismatchesSnoc(pairs, i);
      if pair.micro.probeId != pair.probe.probeId {
        mismatches := mismatches + [i];
      }
      var next := ProcessRow(Tables(averages, probes, valueArray), pair, columns, threshold, i);
      if next.Failure? {
        return Failure(next.error), mismatches;
      }
      averages, probes, valueArray := next.value.averages, next.value.probes, next.value.valueArray;
      FoldSnoc(pairs, i, columns, threshold);
      i := i + 1;
    }
    assert pairs[..i] == pairs;
    r := Success(Tables(averages, probes, valueArray));
  }

  /**
   * The body of the loop after the identifier check: average the row, group
   * its values, then admit the gene or replace its probe, updating the three
   * dicts together.
   */
  method ProcessRow(st: Tables, pair: RowPair, columns: seq<seq<int>>, threshold: real, row: nat)
    returns (r: Result<Tables, AggregateError>)
    requires st.Valid(columns)
    ensures r.Failure? <==> !RowOk(pair, columns)
    ensures r.Failure? ==> r.error == RowFailure(pair, columns, row)
    ensures r.Success? ==> r.value == Step(st, pair.probe, pair.micro.values, columns, threshold)
  {
    var probe, microValues := pair.probe, pair.micro.values;
    if |microValues| == 0 {
      return Failure(EmptyExpressionRow(row));
    }
    var average := Mean(microValues);
    if !Fits(microValues, columns) {
      return Failure(SampleIndexOutOfRange(row));
    }
    var regionValues := Groups(microValues, columns);
    var gene := probe.geneId;
    var averages, probes, valueArray := st.averages, st.probes, st.valueArray;
    if gene in probes.entries {
      var highest := Max(averages.entries[gene], average);
      if averages.entries[gene] < highest {
        probes := probes.Put(gene, probe);
        averages := averages.Put(gene, highest);
        valueArray := valueArray.Put(gene, Groups(microValues, columns));
      }
    } else if AnyAtLeast(regionValues, threshold) {
      probes := probes.Put(gene, probe);
      averages := averages.Put(gene, average);
      valueArray := valueArray.Put(gene, Groups(microValues, columns));
    }
    return Success(Tables(averages, probes, valueArray));
  }

  lemma AllRowsOkSnoc(pairs: seq<RowPair>, i: nat, columns: seq<seq<int>>)
    requires i < |pairs| && AllRowsOk(pairs[..i], columns) && RowOk(pairs[i], columns)
    ensures AllRowsOk(pairs[..i + 1], columns)
  {
    assert pairs[..i + 1] == pairs[..i] + [pairs[i]];
  }

  lemma FoldSnoc(pairs: seq<RowPair>, i: nat, columns: seq<seq<int>>, threshold: real)
    requires i < |pairs| && AllRowsOk(pairs[..i], columns) && RowOk(pairs[i], columns)
    ensures AllRowsOk(pairs[..i + 1], columns)
    ensures Fold(pairs[..i + 1], columns, threshold)
      == Step(Fold(pairs[..i], columns, threshold), pairs[i].probe, pairs[i].micro.values, columns, threshold)
  {
    AllRowsOkSnoc(pairs, i, columns);
    assert pairs[..i + 1][..i] == pairs[..i];
  }

  lemma MismatchesSnoc(pairs: seq<RowPair>, i: nat)
    requires i < |pairs|
    ensures Mismatches(pairs[..i + 1]) == Mismatches(pairs[..i])
      + if pairs[i].micro.probeId != pairs[i].probe.probeId then [i] else []
  {
    assert pairs[..i + 1][..i] == pairs[..i];
  }
}
