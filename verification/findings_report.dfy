/**
 * `print_findings` (main.py): for each structure, the number of its unique
 * genes and the chosen field of each gene's probe; then the same field for
 * the shared genes. The text layout of the printed lines is not modelled,
 * only what each line reports.
 */
module FindingsReport {
  import opened Results
  import opened Dicts
  import opened Records

  /** KeyError from `probes[gene_id]`. */
  datatype ReportError = MissingGene(gene: string)

  /** What one `For <structure>, ...` line reports. */
  datatype StructureLine = StructureLine(structure: string, count: nat, labels: seq<string>)

  /** Everything `print_findings` prints, line by line. */
  datatype Report = Report(uniqueLines: seq<StructureLine>, sharedLabels: seq<string>)

  /** Every gene of `genes` has a probe. */
  predicate AllKnown(probes: Dict<string, Probe>, genes: seq<string>) {
    forall g :: g in genes ==> g in probes.entries
  }

  /**
   * `labels` shows, gene by gene, the field at position `filter.Value()` of
   * each gene's probe, as `probes[gene_id][probe_filter.value]` indexes it.
   */
  predicate Shows(labels: seq<string>, probes: Dict<string, Probe>, genes: seq<string>, filter: ProbeFilter)
    requires AllKnown(probes, genes)
  {
    |labels| == |genes| && forall j :: 0 <= j < |genes| ==> labels[j] == Field(probes.entries[genes[j]], filter.Value())
  }

  /**
   * What the labels mean: every filter but ENTREZ_ID shows the field it is
   * named after, while ENTREZ_ID shows each probe's gene name.
   */
  lemma ShownFields(labels: seq<string>, probes: Dict<string, Probe>, genes: seq<string>, filter: ProbeFilter)
    requires AllKnown(probes, genes) && Shows(labels, probes, genes, filter)
    ensures filter != EntrezId ==>
      forall j :: 0 <= j < |genes| ==> labels[j] == filter.Named(probes.entries[genes[j]])
    ensures filter == EntrezId ==>
      forall j :: 0 <= j < |genes| ==> labels[j] == probes.entries[genes[j]].geneName
  {
    if filter != EntrezId {
      forall j | 0 <= j < |genes|
        ensures labels[j] == filter.Named(probes.entries[genes[j]])
      {
        assert labels[j] == Field(probes.entries[genes[j]], filter.Column());
      }
    }
  }

  /** A one-gene report under ENTREZ_ID lists the gene's name where its Entrez id was meant. */
  lemma EntrezIdLabelIsGeneName()
    ensures var p := Probe("1058685", "A_23_P20713", "729", "C8G", "complement component 8, gamma polypeptide", "733", "9");
      && Labels(Dict(["729"], map["729" := p]), ["729"], EntrezId) == Success([p.geneName])
      && p.geneName != p.entrezId
  {
    var p := Probe("1058685", "A_23_P20713", "729", "C8G", "complement component 8, gamma polypeptide", "733", "9");
    var probes := Dict(["729"], map["729" := p]);
    var genes := ["729"];
    assert AllKnown(probes, genes);
    var r := Labels(probes, genes, EntrezId);
    assert r.value[0] == Field(probes.entries[genes[0]], EntrezId.Value()) == p.geneName;
    assert r.value == [p.geneName];
  }

  /** `[probes[gene_id][probe_filter.value] for gene_id in genes]`; the first gene without a probe raises. */
  function Labels(probes: Dict<string, Probe>, genes: seq<string>, filter: ProbeFilter)
    : (r: Result<seq<string>, ReportError>)
    ensures r.Success? <==> AllKnown(probes, genes)
    ensures r.Success? ==> Shows(r.value, probes, genes, filter)
    ensures r.Failure? ==>
      exists i :: && 0 <= i < |genes| && genes[i] !in probes.entries && r.error == MissingGene(genes[i])
                  && forall k :: 0 <= k < i ==> genes[k] in probes.entries
  {
    if genes == [] then Success([])
    else if genes[0] !in probes.entries then Failure(MissingGene(genes[0]))
    else
      var rest := Labels(probes, genes[1..], filter);
      if rest.Failure? then
        assert forall k :: 1 <= k < |genes| ==> genes[k] == genes[1..][k - 1];
        rest
      else
        Success([Field(probes.entries[genes[0]], filter.Value())] + rest.value)
  }

  /** Every structure of `keys` before the `i`th lists only genes with a probe. */
  predicate KnownUpTo(probes: Dict<string, Probe>, uniques: Dict<string, seq<string>>, keys: seq<string>, i: nat)
    requires i <= |keys| && forall s :: s in keys ==> s in uniques.entries
  {
    forall j :: 0 <= j < i ==> AllKnown(probes, uniques.entries[keys[j]])
  }

  /** The line of each structure of `keys`, in order; the first line that raises ends the report. */
  function UniqueLines(probes: Dict<string, Probe>, uniques: Dict<string, seq<string>>, keys: seq<string>,
                       filter: ProbeFilter)
    : (r: Result<seq<StructureLine>, ReportError>)
    requires forall s :: s in keys ==> s in uniques.entries
    ensures r.Success? <==> forall s :: s in keys ==> AllKnown(probes, uniques.entries[s])
    ensures r.Success? ==> |r.value| == |keys|
    ensures r.Success? ==> forall i :: 0 <= i < |keys| ==>
      var genes := uniques.entries[keys[i]];
      && AllKnown(probes, genes)
      && r.value[i].structure == keys[i] && r.value[i].count == |genes|
      && Shows(r.value[i].labels, probes, genes, filter)
    ensures r.Failure? ==>
      exists i :: && 0 <= i < |keys| && KnownUpTo(probes, uniques, keys, i)
                  && Labels(probes, uniques.entries[keys[i]], filter) == Failure(r.error)
  {
    if keys == [] then Success([])
    else
      var genes := uniques.entries[keys[0]];
      var labels := Labels(probes, genes, filter);
      if labels.Failure? then Failure(labels.error)
      else
        var rest := UniqueLines(probes, uniques, keys[1..], filter);
        if rest.Failure? then
          assert forall j :: 0 <= j < |keys| - 1 ==> keys[1..][j] == keys[j + 1];
          rest
        else Success([StructureLine(keys[0], |genes|, labels.value)] + rest.value)
  }

  /**
   * `report` is what `print_findings` prints: one line per structure key, in
   * key order, with its number of unique genes and their labels; then the
   * labels of the shared genes.
   */
  predicate Reports(report: Report, probes: Dict<string, Probe>, uniques: Dict<string, seq<string>>,
                    shared: seq<string>, filter: ProbeFilter)
    requires uniques.Valid()
  {
    && |report.uniqueLines| == |uniques.order|
    && (forall i :: 0 <= i < |uniques.order| ==>
          var genes := uniques.entries[uniques.order[i]];
          && AllKnown(probes, genes)
          && report.uniqueLines[i].structure == uniques.order[i] && report.uniqueLines[i].count == |genes|
          && Shows(report.uniqueLines[i].labels, probes, genes, filter))
    && AllKnown(probes, shared) && Shows(report.sharedLabels, probes, shared, filter)
  }

  method PrintFindings(probes: Dict<string, Probe>, uniques: Dict<string, seq<string>>, shared: seq<string>,
                       filter: ProbeFilter)
    returns (r: Result<Report, ReportError>)
    requires uniques.Valid()
    ensures r.Success? <==>
      (forall s :: s in uniques.entries ==> AllKnown(probes, uniques.entries[s])) && AllKnown(probes, shared)
    ensures r.Success? ==> Reports(r.value, probes, uniques, shared, filter)
    ensures r.Failure? && !KnownUpTo(probes, uniques, uniques.order, |uniques.order|) ==>
      exists i :: && 0 <= i < |uniques.order| && KnownUpTo(probes, uniques, uniques.order, i)
                  && Labels(probes, uniques.entries[uniques.order[i]], filter) == Failure(r.error)
    ensures r.Failure? && KnownUpTo(probes, uniques, uniques.order, |uniques.order|) ==>
      Labels(probes, shared, filter) == Failure(r.error)
  {
    var lines := UniqueLines(probes, uniques, uniques.order, filter);
    if lines.Failure? {
      return Failure(lines.error);
    }
    var sharedLabels := Labels(probes, shared, filter);
    if sharedLabels.Failure? {
      return Failure(sharedLabels.error);
    }
    r := Success(Report(lines.value, sharedLabels.value));
  }
}
