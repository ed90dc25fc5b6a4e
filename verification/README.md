# Brain microarray gene analysis, modelled in Dafny

`main.py` reads three tables from an Allen Brain Atlas microarray download:
- the sample annotation, one row per sample
- the probe table, one row per probe
- the expression matrix, one row per probe and one value per sample

It then runs four steps:
1. `get_sample_index` records, for each of the two requested brain structures, the index of each matching data row minus one (main.py:90). A structure matched by the first data row therefore reads the last expression value, and every other match reads the value of the sample before it (see Findings).
2. `analyze_microarray` walks the probe table and the expression matrix in lockstep. It keeps, per gene, the probe with the highest average together with that probe's values grouped by structure. A gene is admitted only once one of its rows reaches the threshold. After that a row replaces it only when its average is strictly higher, with no threshold check.
3. `find_uniques_shared` splits the kept genes into:
   - the genes expressed in every structure
   - per structure, the genes whose first expressed group is that structure's
4. `print_findings` reports one chosen probe field per gene.

The model takes the tables as already-parsed rows. Values and averages are `real`.

Modules, one file each:
- `Results`: the `Result` type; an exception is a `Failure`.
- `Dicts`: Python's insertion-ordered `dict`. Assigning to an existing key keeps its place. It also provides `{k: v for k in keys}`, `values()` and `items()`.
- `Records`: the `Probe` record and the `ProbeFilter` and `SampleFilter` enumerations.
- `Averages`: `calc_average` and `max`.
- `SampleIndexer`: `get_sample_index`. It is a method with the source's two nested loops. The loops are proved against `Positions`, a specification function.
- `ExpressionAggregator`: `analyze_microarray`. The loop and its body are methods that update the three dicts `averages`, `probes` and `array`. They are proved equal to `Fold`, a fold of the one-row function `Step`.
- `AggregatorProperties`: what `Fold` leaves in the dicts, stated over the whole input:
  - which genes are kept
  - which row each kept gene holds
  - the order in which the genes are listed
- `StructureClassifier`: `find_uniques_shared`. It is a method with the source's loop, proved against `RoutedTo`, a filter function, with lemmas about that filter.
- `FindingsReport`: what `print_findings` reports, as values. Probes are indexed with `probe_filter.value` as written, so ENTREZ_ID shows gene names (see Findings).
- `Pipeline`: the stages chained as `main` chains them, and the facts that only hold across stages.

Two behaviours of the code that are easy to miss:
- A gene for which no group passes the threshold makes `find_uniques_shared` raise `ValueError` (`condition.index(True)`); the gene is not dropped. The model returns `NoExpressedStructure`.
- A kept gene does not hold the highest-average probe over all of its rows. It holds the highest average over its rows from its admission row on (`FoldKeepsBestRow`).
- Such a replacement can leave a kept gene with no group at the threshold. `Pipeline.BelowThresholdReplacementRaises` shows that the classifier then raises.

## Model

| member | source | states |
|---|---|---|
| Averages.Mean | main.py:59-65 | `sum(values) / len(values)` over a non-empty argument list lies between the least and the greatest value |
| Averages.SumBetween | main.py:65 | a sum of values in [lo, hi] lies between n·lo and n·hi |
| Averages.Max | main.py:140 | `max(a, b)` is one of its arguments and no smaller than either |
| Dicts.Dict.Put | main.py:142-144 | `d[k] = v` maps k to v, keeps an existing key in its place and appends a new key at the end |
| Dicts.FromKeys | main.py:84 | `{s: [] for s in structures}` has exactly the requested keys, each once, in order of first occurrence, all mapped to the value given |
| Dicts.Dict.Values | main.py:144-145 | `d.values()` lists the values in key order |
| Dicts.Dict.Items | main.py:168 | `d.items()` lists the key-value pairs in key order |
| Dicts.Dedup | main.py:84 | the keys of `{s: [] for s in structures}`: each once, exactly the list's members, the list itself when it has no repeats |
| Dicts.DedupKeepsFirstOccurrenceOrder | main.py:84 | the keys follow first occurrence: of two keys, the earlier one occurs in the list before the later one first does |
| Records.ProbeFilter.Value | main.py:28-37 | the number of each member; every member except ENTREZ_ID gives the position of the field it names |
| Records.ProbeFilter.Column | main.py:24-37 | the corrected column of each member: the field at that position of a `Probe` is the field the member names |
| Records.EntrezIdValueSelectsGeneName | main.py:24-36 | indexing a `Probe` with ENTREZ_ID's value 4 yields `gene_name`, which differs from `entrez_id` whenever the two fields differ |
| Records.EntrezIdValueMissesEntrezId | main.py:36 | some probe gives a different field at ENTREZ_ID's value than its Entrez id |
| Records.SampleFilter.Value | main.py:40-56 | the thirteen column numbers of the sample annotation, each a valid column |
| SampleIndexer.Count | main.py:88 | how often a structure is requested: zero exactly when it is not requested, once when the list has no repeats |
| SampleIndexer.GetSampleIndex | main.py:68-92 | raises IndexError exactly when structures are requested and some sample row has no acronym column, and reports the first such row; otherwise returns one key per distinct requested structure, in order, each mapped to the positions `Positions` describes |
| SampleIndexer.ScanRow | main.py:87-90 | one row of the outer loop: raises on a short row when structures are requested, else extends each requested structure's positions by this row |
| SampleIndexer.VisitStructure | main.py:88-90 | one step of the inner loop appends `line_index - 1` to the matching structure and changes nothing else |
| SampleIndexer.PositionsMembers | main.py:87-90 | a position p is recorded for a structure exactly when data row p + 1 matches it: every position is the row index minus one |
| SampleIndexer.PositionsInFileOrder | main.py:87-90 | recorded positions follow file order, strictly increasing for a structure requested once |
| SampleIndexer.FirstRowRecordsMinusOne | main.py:87-90 | a structure matched by the first data row records -1 first |
| SampleIndexer.UnmatchedStructureHasNoPositions | main.py:84-90 | a structure no row matches keeps its empty list |
| SampleIndexer.SamplePositions | main.py:87-90 | the positions the scan evidently means to record, `line_index` itself: p is listed exactly when data row p matches the structure |
| ExpressionAggregator.Zip | main.py:125 | `zip` pairs rows up to the shorter of the two inputs, position by position |
| ExpressionAggregator.At | main.py:135-145 | Python indexing: the value belongs to the row, and index -1 reads the last value |
| ExpressionAggregator.Groups | main.py:135-145 | one group per structure, each as long as that structure's position list, element m of group k being `values[columns[k][m]]` |
| ExpressionAggregator.Mismatches | main.py:126-127 | the logged rows are exactly the rows whose two leading identifiers differ, in increasing order |
| ExpressionAggregator.Tables.Record | main.py:142-152 | writing a row under its gene in all three dicts keeps them sharing keys and order, with probes under their own gene id and groups shaped like the columns |
| ExpressionAggregator.Step | main.py:129-152 | one iteration keeps the three dicts consistent; it either changes nothing or records the row; a new gene is admitted exactly when some grouped value reaches the threshold; a kept gene changes exactly when the row's average is strictly higher |
| ExpressionAggregator.Fold | main.py:109-152 | the dicts after the loop are consistent |
| ExpressionAggregator.AnalyzeMicroarray | main.py:95-154 | succeeds exactly when every zipped row has values and every position fits it, returning the `probes` and `array` of `Fold` and logging the mismatched rows; otherwise reports the first failing row with ZeroDivisionError or IndexError, and logs only up to that row |
| ExpressionAggregator.ScanPairs | main.py:125-152 | the loop over zipped rows computes `Fold`, or stops at the first failing row with that row's error |
| ExpressionAggregator.ProcessRow | main.py:129-152 | the loop body raises exactly for a row without values or with a position out of range, and otherwise performs `Step` |
| ExpressionAggregator.FoldSnoc | main.py:125-152 | one more row of input is one more `Step` |
| ExpressionAggregator.MismatchesSnoc | main.py:126-127 | one more row logs its position exactly when its identifiers differ |
| AggregatorProperties.StepOtherGene | main.py:139-152 | an iteration leaves every other gene's entries as they were |
| AggregatorProperties.StepNewGene | main.py:147-152 | a first-seen gene is inserted with the row's average, probe and groups exactly when some group value reaches the threshold; otherwise all three dicts are unchanged |
| AggregatorProperties.StepKnownGene | main.py:139-145 | a kept gene takes the row's average, probe and groups when the average is strictly higher; a tie or a lower average changes nothing; no threshold applies |
| AggregatorProperties.StepOrder | main.py:142-152 | an iteration appends its gene to the key order exactly when it admits a new gene |
| AggregatorProperties.FoldLast | main.py:125-152 | the dicts after a non-empty input are one more iteration after the dicts before its last row |
| AggregatorProperties.FoldLastRowKeeps | main.py:139-152 | a gene is kept after the last row exactly when it was kept before or the last row admits it |
| AggregatorProperties.SomeRowPassesAt | main.py:147-148 | the recursive "some row of g passes" agrees with its positional form |
| AggregatorProperties.FoldKeepsGenesThatPass | main.py:139-152 | the fold keeps a gene exactly when some row of it passes the threshold |
| AggregatorProperties.FoldKeepsExactlyPassingGenes | main.py:139-152 | a gene is kept exactly when one of its rows has a grouped value at or above the threshold |
| AggregatorProperties.FirstPassingRow | main.py:147-152 | a gene with a passing row has a first passing row, where it is admitted |
| AggregatorProperties.AdmissionIsUnique | main.py:147-152 | a gene has one admission row |
| AggregatorProperties.AdmittedInPrefix | main.py:147-152 | admission before the last row is the same in the prefix and in the whole input |
| AggregatorProperties.FoldKeepsBestRow | main.py:139-152 | a kept gene holds the average, probe and groups of its highest-average row from its admission row on, the earliest such row on a tie |
| AggregatorProperties.BestRowAtAdmission | main.py:147-152 | a gene admitted by the last row holds that row |
| AggregatorProperties.AdmittedLast | main.py:147-152 | a gene admitted by the last row had no passing row before it |
| AggregatorProperties.BestRowAfterAdmission | main.py:139-145 | after admission, the last row replaces the held row exactly when its average is higher |
| AggregatorProperties.BestFromExtends | main.py:139-145 | a held best row stays best when the next row is not higher |
| AggregatorProperties.BestFromReplaced | main.py:139-145 | a strictly higher last row becomes the best row |
| AggregatorProperties.AdmissionOrderMembers | main.py:147-152 | the admission order lists exactly the kept genes |
| AggregatorProperties.FoldOrderIsAdmissionOrder | main.py:109-152 | the dicts' key order is the order in which genes were admitted |
| AggregatorProperties.AdmissionOrderIncreases | main.py:147-152 | genes earlier in the admission order were admitted at earlier rows |
| AggregatorProperties.AdmittedEarlier | main.py:147-152 | a gene listed before the last row's turn was admitted before the last row |
| AggregatorProperties.AdmittedLatest | main.py:147-152 | a gene listed by the last row was admitted by that row |
| AggregatorProperties.AdmittedBeforeLastRow | main.py:147-152 | a gene with a passing row before the last row was admitted there |
| AggregatorProperties.FoldListsGenesInAdmissionOrder | main.py:139-152 | the dicts list genes in admission order: replacements keep the gene's first place |
| AggregatorProperties.FoldIgnoresIdentifiers | main.py:125-129 | the expression row's leading identifier has no effect on the dicts: a mismatch only logs |
| StructureClassifier.Condition | main.py:169 | one flag per group, true exactly when the group has a value at or above the threshold |
| StructureClassifier.FirstTrue | main.py:173 | `condition.index(True)` is the first true flag |
| StructureClassifier.Route | main.py:169-174 | an error names the gene whose iteration raised |
| StructureClassifier.RouteDecides | main.py:169-174 | a gene is shared exactly when every group is expressed; ValueError exactly when it has groups and none is expressed; otherwise it goes to the structure of its first expressed group, or IndexError when there is none at that position |
| StructureClassifier.RoutedTo | main.py:168-174 | a list never holds more genes than the input |
| StructureClassifier.FindUniquesShared | main.py:157-176 | succeeds exactly when no gene raises, then `unique` has one key per distinct requested structure in order and every list holds the genes routed to it in input order; otherwise the error is the route of the first gene that raises |
| StructureClassifier.FileGene | main.py:170-174 | the loop body appends the gene to the list its route names |
| StructureClassifier.RoutedToSnoc | main.py:168-174 | one more gene extends exactly the list it is routed to |
| StructureClassifier.ItemsHaveDistinctGenes | main.py:168 | `array.items()` lists each gene once |
| StructureClassifier.SentSnoc | main.py:168-174 | some gene of a longer input is routed to a list exactly when one was before or the new gene is |
| StructureClassifier.RoutedToMembers | main.py:168-174 | a list holds exactly the genes routed to it |
| StructureClassifier.EachGeneLandsOnce | main.py:170-174 | each gene is in the list its route names and in no other |
| StructureClassifier.RoutedToKeepsOrder | main.py:168-174 | within a list, genes keep their input order |
| StructureClassifier.RoutedEarlier | main.py:168-174 | a list entry present before the last gene belongs to an earlier gene |
| StructureClassifier.RoutedLatest | main.py:168-174 | a list entry the last gene added is that gene |
| StructureClassifier.ClassificationIsPartition | main.py:166-176 | `unique` and `shared` partition the genes: shared exactly when the route says so, under a structure exactly when the route names it, and that structure is a key of `unique` |
| FindingsReport.Labels | main.py:192-193 | the comprehension succeeds exactly when every gene has a probe, showing, gene by gene, the probe's field at position `probe_filter.value`; otherwise KeyError names the first gene without one |
| FindingsReport.ShownFields | main.py:28-37 | each label is the field the filter is named after, except under ENTREZ_ID, where it is the probe's gene name |
| FindingsReport.EntrezIdLabelIsGeneName | main.py:192-193 | a one-gene report under ENTREZ_ID lists the gene name, which differs from the Entrez id |
| FindingsReport.UniqueLines | main.py:189-192 | one line per structure: its name, its gene count and its labels at position `probe_filter.value`; a KeyError is the error of the first structure's line, in key order, whose labels raise, all earlier lines having succeeded |
| FindingsReport.PrintFindings | main.py:179-193 | the report succeeds exactly when every listed gene has a probe, with one line per structure in key order and the shared genes' labels, each at position `probe_filter.value`; otherwise the error is the first failing unique line's, in key order, or, when every unique line succeeds, the shared labels' error: the first missing gene in print order |
| Pipeline.RunAnalysis | main.py:211-215 | the sample stage raises exactly when structures are requested and a sample row is short, logging nothing; the aggregate stage raises exactly when a zipped row fails against the sample columns, naming the first such row and logging up to it; the classifier raises exactly when some gene kept by `Fold` has no route, and then only ValueError; the report's KeyError never ends a run; a successful run logs every mismatched row and prints the `Classified` lists of the genes `Fold` keeps, labelled by gene symbol |
| Pipeline.SampleColumns | main.py:84-90 | `sample_indices.values()`: one position list per distinct requested structure |
| Pipeline.SampleIndexGivesColumns | main.py:84-125 | the values of a successful sample index are exactly `SampleColumns`, in key order |
| Pipeline.ClassifierStaysInRange | main.py:173-174 | with no more structure keys than requested structures, `structures[index]` never raises |
| Pipeline.ReportFindsEveryGene | main.py:166-193 | every gene the classifier lists has a probe |
| Pipeline.BelowThresholdReplacementRaises | main.py:139-173 | a gene admitted by a passing row and replaced by a higher-average row with no value at the threshold makes the classifier raise ValueError |
| Pipeline.ReplacementExample | main.py:139-152 | concrete rows meet those conditions |
| Pipeline.FirstSampleRowReadsLastValue | main.py:90-136 | a structure matched by the first sample row reads the last expression value first |
| Pipeline.SamplePositionsReadOwnSamples | main.py:87-136 | with one value per sample row and the corrected positions, a structure's group reads exactly the values of the samples annotated with it, the first data row reading its own value |

## Left out

- `main`'s command line: docopt parsing, `Path` construction and the progress prints (main.py:196-216). `Pipeline.RunAnalysis` takes the parsed rows and fixes the filter to GENE_SYMBOL, as `main` does.
- Opening files, `csv.reader`, skipping header rows with `next(...)`, and `float(...)` parsing. The model receives parsed rows without headers. A malformed number therefore cannot be represented.
- `Probe(*probes_line)` raising TypeError on a row with the wrong number of fields. A probe row is a `Probe` record.
- `logging.error` output. It is modelled as the list of logged row positions.
- IEEE floating-point rounding in `calc_average`, and the non-finite values `nan` and `inf` that `float(...)` accepts. The model uses exact `real`, so it does not capture, for instance, that a NaN average once stored is never replaced (`max(nan, x)` is nan and `nan < nan` is false).
- `print_findings`' text formatting. The model reports what each printed line contains.
- Partial output. Lines printed before a KeyError, and rows processed before an exception, leave no trace beyond the error value.
- SampleIndexer.ScanRow raises on a short row before its inner loop rather than at its first comparison. This is equivalent: no append happens before the first comparison, and the error ends the scan.
- The default `threshold: float = 5.0` of `analyze_microarray` (main.py:96). `main` always passes the threshold it parsed, so every call in the model takes it explicitly.
- The pandas pipeline in old/main.py and the inspection scripts in old/untils.py. They are not part of this model.

## Findings

| source | as written | input that shows it | evidently intended | confidence | as-written member | corrected member |
|---|---|---|---|---|---|---|
| main.py:36 | `ENTREZ_ID = 4`, and `probes[gene_id][probe_filter.value]` indexes the `Probe` tuple, whose field 4 is `gene_name` | a probe with gene_name "complement component 8, gamma polypeptide" and entrez_id "733": ENTREZ_ID shows the gene name | `ENTREZ_ID = 5`, the position of `entrez_id` in `Probe` | medium, not executed | FindingsReport.EntrezIdLabelIsGeneName | Records.ProbeFilter.Column |
| main.py:90 | `append(line_index - 1)`, where `line_index` counts data rows from 0 after the header, while each expression row's values are `micro_line[1:]`, one per sample row in the same order | a structure matched by the first data row of a two-sample annotation, with values [1.0, 9.0]: its group reads 9.0, the other sample's value | `append(line_index)`, so data row p reads value p | medium, not executed | Pipeline.FirstSampleRowReadsLastValue | SampleIndexer.SamplePositions |

The stages and `Pipeline.RunAnalysis` keep both behaviours as written, since that is what the program prints; each corrected member is proved on its own.
