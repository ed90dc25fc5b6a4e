/**
 * What the aggregator's loop leaves in its dicts, stated over the whole
 * input rather than row by row: which genes are kept, which row each kept
 * gene's probe comes from, and in which order the genes are listed.
 */
module AggregatorProperties {
  import opened Dicts
  import opened Averages
  import opened ExpressionAggregator

  /** Row `j` is a row of gene `g` with a grouped value at or above the threshold. */
  ghost predicate PassesAt(pairs: seq<RowPair>, columns: seq<seq<int>>, threshold: real, g: string, j: int)
    requires AllRowsOk(pairs, columns)
  {
    0 <= j < |pairs| && GeneOf(pairs[j]) == g && AnyAtLeast(GroupsOf(pairs[j], columns), threshold)
  }

  /** Row `a` is where gene `g` is admitted: its first row that passes the threshold. */
  ghost predicate AdmittedAt(pairs: seq<RowPair>, columns: seq<seq<int>>, threshold: real, g: string, a: int)
    requires AllRowsOk(pairs, columns)
  {
    PassesAt(pairs, columns, threshold, g, a)
    && forall j :: 0 <= j < a ==> !PassesAt(pairs, columns, threshold, g, j)
  }

  /**
   * Row `w` is the row of gene `g` with the highest average among the rows
   * of `g` from row `a` on, and the earliest such row when several share it.
   */
  ghost predicate BestFrom(pairs: seq<RowPair>, columns: seq<seq<int>>, g: string, a: int, w: int)
    requires AllRowsOk(pairs, columns)
  {
    && 0 <= a <= w < |pairs| && GeneOf(pairs[w]) == g
    && (forall k :: a <= k < |pairs| && GeneOf(pairs[k]) == g ==> AverageOf(pairs[k]) <= AverageOf(pairs[w]))
    && (forall k :: a <= k < w && GeneOf(pairs[k]) == g ==> AverageOf(pairs[k]) < AverageOf(pairs[w]))
  }

  /** The three dicts hold `pair`'s average, probe and groups under gene `g`. */
  ghost predicate HoldsRow(st: Tables, g: string, pair: RowPair, columns: seq<seq<int>>)
    requires RowOk(pair, columns)
  {
    && g in st.averages.entries && g in st.probes.entries && g in st.valueArray.entries
    && st.averages.entries[g] == AverageOf(pair)
    && st.probes.entries[g] == pair.probe
    && st.valueArray.entries[g] == GroupsOf(pair, columns)
  }

  /** The fold over a non-empty input is one more iteration after the fold over all but its last row. */
  lemma FoldLast(pairs: seq<RowPair>, columns: seq<seq<int>>, threshold: real)
    requires |pairs| > 0 && AllRowsOk(pairs, columns)
    ensures AllRowsOk(pairs[..|pairs| - 1], columns)
    ensures Fold(pairs, columns, threshold)
      == Step(Fold(pairs[..|pairs| - 1], columns, threshold), pairs[|pairs| - 1].probe,
              pairs[|pairs| - 1].micro.values, columns, threshold)
  {
    var pre := pairs[..|pairs| - 1];
    assert AllRowsOk(pre, columns) by {
      forall i | 0 <= i < |pre| ensures RowOk(pre[i], columns) {
        assert pre[i] == pairs[i];
      }
    }
  }

  /** An iteration leaves the entries of every other gene as they were. */
  lemma StepOtherGene(st: Tables, pair: RowPair, columns: seq<seq<int>>, threshold: real, g: string)
    requires st.Valid(columns) && RowOk(pair, columns) && GeneOf(pair) != g
    ensures var r := Step(st, pair.probe, pair.micro.values, columns, threshold);
      && (g in r.probes.entries <==> g in st.probes.entries)
      && (g in st.probes.entries ==>
            && g in st.averages.entries && g in st.valueArray.entries
            && r.averages.entries[g] == st.averages.entries[g]
            && r.probes.entries[g] == st.probes.entries[g]
            && r.valueArray.entries[g] == st.valueArray.entries[g])
  {
    var r := Step(st, pair.probe, pair.micro.values, columns, threshold);
    if r != st {
      var rec := st.Record(pair.probe, Mean(pair.micro.values), Groups(pair.micro.values, columns), columns);
      assert r == rec;
    }
  }

  /** A gene seen for the first time is kept, with this row, exactly when a grouped value reaches the threshold. */
  lemma StepNewGene(st: Tables, pair: RowPair, columns: seq<seq<int>>, threshold: real)
    requires st.Valid(columns) && RowOk(pair, columns) && GeneOf(pair) !in st.probes.entries
    ensures var r := Step(st, pair.probe, pair.micro.values, columns, threshold);
      && (GeneOf(pair) in r.probes.entries <==> AnyAtLeast(GroupsOf(pair, columns), threshold))
      && (GeneOf(pair) in r.probes.entries ==> HoldsRow(r, GeneOf(pair), pair, columns))
      && (GeneOf(pair) !in r.probes.entries ==> r == st)
  {
  }

  /** A kept gene takes this row exactly when the row's average is strictly higher; otherwise nothing changes. */
  lemma StepKnownGene(st: Tables, pair: RowPair, columns: seq<seq<int>>, threshold: real)
    requires st.Valid(columns) && RowOk(pair, columns) && GeneOf(pair) in st.probes.entries
    ensures GeneOf(pair) in st.averages.entries
    ensures var r := Step(st, pair.probe, pair.micro.values, columns, threshold);
      && (st.averages.entries[GeneOf(pair)] < AverageOf(pair) ==> HoldsRow(r, GeneOf(pair), pair, columns))
      && (AverageOf(pair) <= st.averages.entries[GeneOf(pair)] ==> r == st)
  {
  }

  /** An iteration appends its gene to the order exactly when it admits a gene not yet kept. */
  lemma StepOrder(st: Tables, pair: RowPair, columns: seq<seq<int>>, threshold: real)
    requires st.Valid(columns) && RowOk(pair, columns)
    ensures Step(st, pair.probe, pair.micro.values, columns, threshold).probes.order
      == st.probes.order
         + if GeneOf(pair) !in st.probes.entries && AnyAtLeast(GroupsOf(pair, columns), threshold) then [GeneOf(pair)] else []
  {
  }

  /** A gene is kept after the last row when it was kept before or the last row admits it. */
  lemma FoldLastRowKeeps(pairs: seq<RowPair>, columns: seq<seq<int>>, threshold: real, g: string)
    requires |pairs| > 0 && AllRowsOk(pairs, columns)
    ensures AllRowsOk(pairs[..|pairs| - 1], columns)
    ensures g in Fold(pairs, columns, threshold).probes.entries
      <==> g in Fold(pairs[..|pairs| - 1], columns, threshold).probes.entries
           || (GeneOf(pairs[|pairs| - 1]) == g && AnyAtLeast(GroupsOf(pairs[|pairs| - 1], columns), threshold))
  {
    FoldLast(pairs, columns, threshold);
    var stp, last := Fold(pairs[..|pairs| - 1], columns, threshold), pairs[|pairs| - 1];
    if GeneOf(last) != g {
      StepOtherGene(stp, last, columns, threshold, g);
    } else if g in stp.probes.entries {
      StepKnownGene(stp, last, columns, threshold);
    } else {
      StepNewGene(stp, last, columns, threshold);
    }
  }

  /** Some row of gene `g` among `pairs` reaches the threshold, read from the last row backwards. */
  ghost predicate SomeRowPasses(pairs: seq<RowPair>, columns: seq<seq<int>>, threshold: real, g: string)
    requires AllRowsOk(pairs, columns)
  {
    && pairs != []
    && var n := |pairs|;
       assert AllRowsOk(pairs[..n - 1], columns);
       || SomeRowPasses(pairs[..n - 1], columns, threshold, g)
       || (GeneOf(pairs[n - 1]) == g && AnyAtLeast(GroupsOf(pairs[n - 1], columns), threshold))
  }

  lemma {:induction false} SomeRowPassesAt(pairs: seq<RowPair>, columns: seq<seq<int>>, threshold: real, g: string)
    requires AllRowsOk(pairs, columns)
    ensures SomeRowPasses(pairs, columns, threshold, g) <==> exists j :: PassesAt(pairs, columns, threshold, g, j)
  {
    if pairs != [] {
      var n := |pairs|;
      var pre := pairs[..n - 1];
      assert AllRowsOk(pre, columns);
      SomeRowPassesAt(pre, columns, threshold, g);
      if SomeRowPasses(pre, columns, threshold, g) {
        var j :| PassesAt(pre, columns, threshold, g, j);
        assert pre[j] == pairs[j];
        assert PassesAt(pairs, columns, threshold, g, j);
      } else if GeneOf(pairs[n - 1]) == g && AnyAtLeast(GroupsOf(pairs[n - 1], columns), threshold) {
        assert PassesAt(pairs, columns, threshold, g, n - 1);
      } else {
        forall j | 0 <= j < n - 1 ensures !PassesAt(pairs, columns, threshold, g, j) {
          assert pre[j] == pairs[j];
          assert !PassesAt(pre, columns, threshold, g, j);
        }
        assert !PassesAt(pairs, columns, threshold, g, n - 1);
      }
    }
  }

  lemma {:induction false} FoldKeepsGenesThatPass(pairs: seq<RowPair>, columns: seq<seq<int>>, threshold: real, g: string)
    requires AllRowsOk(pairs, columns)
    ensures g in Fold(pairs, columns, threshold).probes.entries <==> SomeRowPasses(pairs, columns, threshold, g)
  {
    if pairs != [] {
      FoldLastRowKeeps(pairs, columns, threshold, g);
      FoldKeepsGenesThatPass(pairs[..|pairs| - 1], columns, threshold, g);
    }
  }

  /** A gene is kept exactly when one of its rows reaches the threshold in some group. */
  lemma FoldKeepsExactlyPassingGenes(pairs: seq<RowPair>, columns: seq<seq<int>>, threshold: real, g: string)
    requires AllRowsOk(pairs, columns)
    ensures g in Fold(pairs, columns, threshold).probes.entries
      <==> exists j :: PassesAt(pairs, columns, threshold, g, j)
  {
    FoldKeepsGenesThatPass(pairs, columns, threshold, g);
    SomeRowPassesAt(pairs, columns, threshold, g);
  }

  /** The first passing row of a gene exists once some row passes. */
  lemma {:induction false} FirstPassingRow(pairs: seq<RowPair>, columns: seq<seq<int>>, threshold: real, g: string, j: int)
    returns (a: int)
    requires AllRowsOk(pairs, columns) && PassesAt(pairs, columns, threshold, g, j)
    ensures a <= j && AdmittedAt(pairs, columns, threshold, g, a)
    decreases j
  {
    if forall i :: 0 <= i < j ==> !PassesAt(pairs, columns, threshold, g, i) {
      a := j;
    } else {
      var i :| 0 <= i < j && PassesAt(pairs, columns, threshold, g, i);
      a := FirstPassingRow(pairs, columns, threshold, g, i);
    }
  }

  lemma AdmissionIsUnique(pairs: seq<RowPair>, columns: seq<seq<int>>, threshold: real, g: string, a: int, b: int)
    requires AllRowsOk(pairs, columns)
    requires AdmittedAt(pairs, columns, threshold, g, a) && AdmittedAt(pairs, columns, threshold, g, b)
    ensures a == b
  {
  }

  /** Admission in a prefix is admission in the whole input. */
  lemma AdmittedInPrefix(pairs: seq<RowPair>, columns: seq<seq<int>>, threshold: real, g: string, a: int)
    requires |pairs| > 0 && AllRowsOk(pairs, columns) && 0 <= a < |pairs| - 1
    ensures AllRowsOk(pairs[..|pairs| - 1], columns)
    ensures AdmittedAt(pairs[..|pairs| - 1], columns, threshold, g, a) <==> AdmittedAt(pairs, columns, threshold, g, a)
  {
    var pre := pairs[..|pairs| - 1];
    assert AllRowsOk(pre, columns);
    forall j | 0 <= j <= a
      ensures PassesAt(pre, columns, threshold, g, j) <==> PassesAt(pairs, columns, threshold, g, j)
    {
      assert pre[j] == pairs[j];
    }
  }

  /**
   * The kept probe, average and groups of an admitted gene all come from
   * one row: the row with the highest average among the gene's rows from
   * its admission on, the earliest one on a tie. Rows of the gene before its
   * admission play no part, and no threshold applies after admission.
   */
  lemma {:induction false} FoldKeepsBestRow(pairs: seq<RowPair>, columns: seq<seq<int>>, threshold: real, g: string, a: int)
    returns (w: int)
    requires AllRowsOk(pairs, columns) && AdmittedAt(pairs, columns, threshold, g, a)
    ensures BestFrom(pairs, columns, g, a, w)
    ensures HoldsRow(Fold(pairs, columns, threshold), g, pairs[w], columns)
  {
    var n := |pairs|;
    if a == n - 1 {
      w := n - 1;
      BestRowAtAdmission(pairs, columns, threshold, g);
    } else {
      AdmittedInPrefix(pairs, columns, threshold, g, a);
      var v := FoldKeepsBestRow(pairs[..n - 1], columns, threshold, g, a);
      w := BestRowAfterAdmission(pairs, columns, threshold, g, a, v);
    }
  }

  /** A gene admitted by the last row is kept with that row. */
  lemma BestRowAtAdmission(pairs: seq<RowPair>, columns: seq<seq<int>>, threshold: real, g: string)
    requires |pairs| > 0 && AllRowsOk(pairs, columns) && AdmittedAt(pairs, columns, threshold, g, |pairs| - 1)
    ensures BestFrom(pairs, columns, g, |pairs| - 1, |pairs| - 1)
    ensures HoldsRow(Fold(pairs, columns, threshold), g, pairs[|pairs| - 1], columns)
  {
    var pre := pairs[..|pairs| - 1];
    FoldLast(pairs, columns, threshold);
    AdmittedLast(pairs, columns, threshold, g);
    FoldKeepsGenesThatPass(pre, columns, threshold, g);
    StepNewGene(Fold(pre, columns, threshold), pairs[|pairs| - 1], columns, threshold);
  }

  /** A gene admitted by the last row has no passing row before it. */
  lemma AdmittedLast(pairs: seq<RowPair>, columns: seq<seq<int>>, threshold: real, g: string)
    requires |pairs| > 0 && AllRowsOk(pairs, columns) && AdmittedAt(pairs, columns, threshold, g, |pairs| - 1)
    ensures AllRowsOk(pairs[..|pairs| - 1], columns)
    ensures !SomeRowPasses(pairs[..|pairs| - 1], columns, threshold, g)
    ensures GeneOf(pairs[|pairs| - 1]) == g && AnyAtLeast(GroupsOf(pairs[|pairs| - 1], columns), threshold)
  {
    var n := |pairs|;
    var pre := pairs[..n - 1];
    assert AllRowsOk(pre, columns);
    forall j | 0 <= j < n - 1 ensures !PassesAt(pre, columns, threshold, g, j) {
      assert pre[j] == pairs[j];
      assert !PassesAt(pairs, columns, threshold, g, j);
    }
    SomeRowPassesAt(pre, columns, threshold, g);
  }

  /** Once a gene is kept, the last row either leaves its best row in place or becomes it. */
  lemma BestRowAfterAdmission(pairs: seq<RowPair>, columns: seq<seq<int>>, threshold: real, g: string, a: int, v: int)
    returns (w: int)
    requires |pairs| > 0 && AllRowsOk(pairs, columns)
    requires AllRowsOk(pairs[..|pairs| - 1], columns)
    requires BestFrom(pairs[..|pairs| - 1], columns, g, a, v)
    requires HoldsRow(Fold(pairs[..|pairs| - 1], columns, threshold), g, pairs[v], columns)
    ensures BestFrom(pairs, columns, g, a, w)
    ensures HoldsRow(Fold(pairs, columns, threshold), g, pairs[w], columns)
  {
    var n := |pairs|;
    var last := pairs[n - 1];
    FoldLast(pairs, columns, threshold);
    var stp := Fold(pairs[..n - 1], columns, threshold);
    if GeneOf(last) != g {
      StepOtherGene(stp, last, columns, threshold, g);
      w := v;
      BestFromExtends(pairs, columns, g, a, v);
    } else {
      StepKnownGene(stp, last, columns, threshold);
      if stp.averages.entries[g] < AverageOf(last) {
        w := n - 1;
        BestFromReplaced(pairs, columns, g, a, v);
      } else {
        w := v;
        BestFromExtends(pairs, columns, g, a, v);
      }
    }
  }

  /** The best row of the prefix stays best when the last row does not beat it. */
  lemma BestFromExtends(pairs: seq<RowPair>, columns: seq<seq<int>>, g: string, a: int, v: int)
    requires |pairs| > 0 && AllRowsOk(pairs, columns)
    requires BestFrom(pairs[..|pairs| - 1], columns, g, a, v)
    requires GeneOf(pairs[|pairs| - 1]) == g ==> AverageOf(pairs[|pairs| - 1]) <= AverageOf(pairs[v])
    ensures BestFrom(pairs, columns, g, a, v)
  {
    var pre := pairs[..|pairs| - 1];
    forall k | 0 <= k < |pre| ensures pre[k] == pairs[k] { }
  }

  /** A last row that beats the best row of the prefix is the new best row. */
  lemma BestFromReplaced(pairs: seq<RowPair>, columns: seq<seq<int>>, g: string, a: int, v: int)
    requires |pairs| > 0 && AllRowsOk(pairs, columns)
    requires BestFrom(pairs[..|pairs| - 1], columns, g, a, v)
    requires GeneOf(pairs[|pairs| - 1]) == g && AverageOf(pairs[v]) < AverageOf(pairs[|pairs| - 1])
    ensures BestFrom(pairs, columns, g, a, |pairs| - 1)
  {
    var pre := pairs[..|pairs| - 1];
    forall k | 0 <= k < |pre| ensures pre[k] == pairs[k] { }
  }

  /** The genes of `pairs` in the order of their admission rows. */
  ghost function AdmissionOrder(pairs: seq<RowPair>, columns: seq<seq<int>>, threshold: real): seq<string>
    requires AllRowsOk(pairs, columns)
  {
    if pairs == [] then []
    else
      var n := |pairs|;
      assert AllRowsOk(pairs[..n - 1], columns);
      var g := GeneOf(pairs[n - 1]);
      AdmissionOrder(pairs[..n - 1], columns, threshold)
      + if AnyAtLeast(GroupsOf(pairs[n - 1], columns), threshold) && !SomeRowPasses(pairs[..n - 1], columns, threshold, g)
        then [g] else []
  }

  lemma {:induction false} AdmissionOrderMembers(pairs: seq<RowPair>, columns: seq<seq<int>>, threshold: real, g: string)
    requires AllRowsOk(pairs, columns)
    ensures g in AdmissionOrder(pairs, columns, threshold) <==> SomeRowPasses(pairs, columns, threshold, g)
  {
    if pairs != [] {
      assert AllRowsOk(pairs[..|pairs| - 1], columns);
      AdmissionOrderMembers(pairs[..|pairs| - 1], columns, threshold, g);
    }
  }

  /** The dicts list the kept genes in the order of their admission rows. */
  lemma {:induction false} FoldOrderIsAdmissionOrder(pairs: seq<RowPair>, columns: seq<seq<int>>, threshold: real)
    requires AllRowsOk(pairs, columns)
    ensures Fold(pairs, columns, threshold).probes.order == AdmissionOrder(pairs, columns, threshold)
  {
    if pairs != [] {
      var n := |pairs|;
      var pre, last := pairs[..n - 1], pairs[n - 1];
      FoldLast(pairs, columns, threshold);
      FoldOrderIsAdmissionOrder(pre, columns, threshold);
      FoldKeepsGenesThatPass(pre, columns, threshold, GeneOf(last));
      StepOrder(Fold(pre, columns, threshold), last, columns, threshold);
    }
  }

  /** Admission rows increase along the admission order. */
  lemma {:induction false} AdmissionOrderIncreases(pairs: seq<RowPair>, columns: seq<seq<int>>, threshold: real,
                                                   i: int, j: int, ai: int, aj: int)
    requires AllRowsOk(pairs, columns)
    requires 0 <= i < j < |AdmissionOrder(pairs, columns, threshold)|
    requires AdmittedAt(pairs, columns, threshold, AdmissionOrder(pairs, columns, threshold)[i], ai)
    requires AdmittedAt(pairs, columns, threshold, AdmissionOrder(pairs, columns, threshold)[j], aj)
    ensures ai < aj
  {
    var n := |pairs|;
    AdmittedEarlier(pairs, columns, threshold, i, ai);
    if j < |AdmissionOrder(pairs[..n - 1], columns, threshold)| {
      AdmittedEarlier(pairs, columns, threshold, j, aj);
      AdmissionOrderIncreases(pairs[..n - 1], columns, threshold, i, j, ai, aj);
    } else {
      AdmittedLatest(pairs, columns, threshold, j, aj);
    }
  }

  /** A gene listed before the last row's turn was admitted before the last row. */
  lemma AdmittedEarlier(pairs: seq<RowPair>, columns: seq<seq<int>>, threshold: real, k: int, a: int)
    requires |pairs| > 0 && AllRowsOk(pairs, columns)
    requires AllRowsOk(pairs[..|pairs| - 1], columns)
    requires 0 <= k < |AdmissionOrder(pairs[..|pairs| - 1], columns, threshold)|
    requires AdmittedAt(pairs, columns, threshold, AdmissionOrder(pairs, columns, threshold)[k], a)
    ensures a < |pairs| - 1
    ensures AdmittedAt(pairs[..|pairs| - 1], columns, threshold, AdmissionOrder(pairs[..|pairs| - 1], columns, threshold)[k], a)
  {
    var pre := pairs[..|pairs| - 1];
    var g := AdmissionOrder(pre, columns, threshold)[k];
    assert AdmissionOrder(pairs, columns, threshold)[k] == g;
    AdmissionOrderMembers(pre, columns, threshold, g);
    AdmittedBeforeLastRow(pairs, columns, threshold, g, a);
  }

  /** A gene listed by the last row was admitted by the last row. */
  lemma AdmittedLatest(pairs: seq<RowPair>, columns: seq<seq<int>>, threshold: real, k: int, a: int)
    requires |pairs| > 0 && AllRowsOk(pairs, columns)
    requires AllRowsOk(pairs[..|pairs| - 1], columns)
    requires |AdmissionOrder(pairs[..|pairs| - 1], columns, threshold)| <= k < |AdmissionOrder(pairs, columns, threshold)|
    requires AdmittedAt(pairs, columns, threshold, AdmissionOrder(pairs, columns, threshold)[k], a)
    ensures a == |pairs| - 1
  {
    var n := |pairs|;
    var pre := pairs[..n - 1];
    var g := AdmissionOrder(pairs, columns, threshold)[k];
    assert !SomeRowPasses(pre, columns, threshold, g) && g == GeneOf(pairs[n - 1]);
    if a < n - 1 {
      AdmittedInPrefix(pairs, columns, threshold, g, a);
      SomeRowPassesAt(pre, columns, threshold, g);
    }
  }

  /**
   * The dicts list their genes in order of admission: a replacement keeps
   * the gene where it was first inserted.
   */
  lemma FoldListsGenesInAdmissionOrder(pairs: seq<RowPair>, columns: seq<seq<int>>, threshold: real,
                                       i: int, j: int, ai: int, aj: int)
    requires AllRowsOk(pairs, columns)
    requires 0 <= i < j < |Fold(pairs, columns, threshold).probes.order|
    requires AdmittedAt(pairs, columns, threshold, Fold(pairs, columns, threshold).probes.order[i], ai)
    requires AdmittedAt(pairs, columns, threshold, Fold(pairs, columns, threshold).probes.order[j], aj)
    ensures ai < aj
  {
    FoldOrderIsAdmissionOrder(pairs, columns, threshold);
    AdmissionOrderIncreases(pairs, columns, threshold, i, j, ai, aj);
  }

  /** A gene with a passing row before the last row was admitted before it. */
  lemma AdmittedBeforeLastRow(pairs: seq<RowPair>, columns: seq<seq<int>>, threshold: real, g: string, a: int)
    requires |pairs| > 0 && AllRowsOk(pairs, columns)
    requires AllRowsOk(pairs[..|pairs| - 1], columns)
    requires SomeRowPasses(pairs[..|pairs| - 1], columns, threshold, g)
    requires AdmittedAt(pairs, columns, threshold, g, a)
    ensures a < |pairs| - 1 && AdmittedAt(pairs[..|pairs| - 1], columns, threshold, g, a)
  {
    var pre := pairs[..|pairs| - 1];
    SomeRowPassesAt(pre, columns, threshold, g);
    var p :| PassesAt(pre, columns, threshold, g, p);
    var a' := FirstPassingRow(pre, columns, threshold, g, p);
    AdmittedInPrefix(pairs, columns, threshold, g, a');
    AdmissionIsUnique(pairs, columns, threshold, g, a, a');
  }

  /**
   * The loop never looks at the expression row's leading identifier: a
   * mismatch is only logged, and the row is processed as usual.
   */
  lemma {:induction false} FoldIgnoresIdentifiers(pairs: seq<RowPair>, others: seq<RowPair>, columns: seq<seq<int>>, threshold: real)
    requires AllRowsOk(pairs, columns) && |others| == |pairs|
    requires forall i :: 0 <= i < |pairs| ==>
      others[i].probe == pairs[i].probe && others[i].micro.values == pairs[i].micro.values
    ensures AllRowsOk(others, columns)
    ensures Fold(others, columns, threshold) == Fold(pairs, columns, threshold)
  {
    if pairs != [] {
      var n := |pairs|;
      assert AllRowsOk(pairs[..n - 1], columns);
      FoldIgnoresIdentifiers(pairs[..n - 1], others[..n - 1], columns, threshold);
    }
  }
}
