/**
 * `get_sample_index` (main.py): for each requested brain structure, the
 * positions of the sample rows whose structure acronym matches it. The
 * sample-annotation table arrives as parsed rows, header already dropped.
 */
module SampleIndexer {
  import opened Results
  import opened Dicts
  import opened Records

  /** The column of a sample row that holds the structure acronym. */
  const AcronymColumn: nat := StructureAcronym.Value()

  /** Structure name -> recorded positions, keys in the order of the requested structures. */
  type StructureIndex = Dict<string, seq<int>>

  /** The source raises IndexError on a row with no acronym column. */
  datatype IndexError = ShortSampleRow(row: nat)

  predicate IsShort(row: seq<string>) {
    |row| <= AcronymColumn
  }

  predicate Matches(row: seq<string>, structure: string) {
    |row| > AcronymColumn && row[AcronymColumn] == structure
  }

  /** How often `x` occurs in `xs`. */
  function Count<T(==)>(xs: seq<T>, x: T): (c: nat)
    ensures c > 0 <==> x in xs
    ensures Distinct(xs) && x in xs ==> c == 1
  {
    if xs == [] then 0
    else
      var prefix := xs[..|xs| - 1];
      assert xs == prefix + [xs[|xs| - 1]];
      Count(prefix, x) + (if xs[|xs| - 1] == x then 1 else 0)
  }

  function Repeat(x: int, c: nat): (r: seq<int>)
    ensures |r| == c
    ensures forall i :: 0 <= i < c ==> r[i] == x
  {
    seq(c, _ => x)
  }

  /**
   * What the scan records for `structure` once it has seen `rows`, when the
   * structure is requested `c` times: row `i` contributes `i - 1` once per
   * request.
   */
  function Positions(rows: seq<seq<string>>, structure: string, c: nat): seq<int>
  {
    if rows == [] then []
    else
      Positions(rows[..|rows| - 1], structure, c)
      + (if Matches(rows[|rows| - 1], structure) then Repeat(|rows| - 2, c) else [])
  }

  method GetSampleIndex(rows: seq<seq<string>>, structures: seq<string>)
    returns (r: Result<StructureIndex, IndexError>)
    ensures r.Failure? <==> |structures| > 0 && exists i :: 0 <= i < |rows| && IsShort(rows[i])
    ensures r.Failure? ==>
      && r.error.row < |rows| && IsShort(rows[r.error.row])
      && forall i :: 0 <= i < r.error.row ==> !IsShort(rows[i])
    ensures r.Success? ==> r.value.Valid() && r.value.order == Dedup(structures)
    ensures r.Success? ==> forall s :: s in r.value.entries <==> s in structures
    ensures r.Success? ==>
      forall s :: s in r.value.entries ==> r.value.entries[s] == Positions(rows, s, Count(structures, s))
  {
    var index: StructureIndex := FromKeys(structures, []);
    var lineIndex := 0;
    while lineIndex < |rows|
      invariant 0 <= lineIndex <= |rows|
      invariant index.order == Dedup(structures)
      invariant RowsScanned(rows, lineIndex, structures, index)
      invariant |structures| > 0 ==> forall i :: 0 <= i < lineIndex ==> !IsShort(rows[i])
    {
      var scanned := ScanRow(rows, lineIndex, structures, index);
      if scanned.Failure? {
        return Failure(scanned.error);
      }
      index := scanned.value;
      lineIndex := lineIndex + 1;
    }
    assert rows[..lineIndex] == rows;
    return Success(index);
  }

  /** The body of the row loop: compare each requested structure with the row's acronym. */
  method ScanRow(rows: seq<seq<string>>, lineIndex: nat, structures: seq<string>, index: StructureIndex)
    returns (r: Result<StructureIndex, IndexError>)
    requires lineIndex < |rows| && RowsScanned(rows, lineIndex, structures, index)
    ensures r.Failure? <==> |structures| > 0 && IsShort(rows[lineIndex])
    ensures r.Failure? ==> r.error == ShortSampleRow(lineIndex)
    ensures r.Success? ==> r.value.order == index.order && RowsScanned(rows, lineIndex + 1, structures, r.value)
  {
    var row := rows[lineIndex];
    var current := index;
    RowStarted(rows, lineIndex, structures, current);
    // The acronym column is read on the first pass of the inner loop, before
    // anything is appended: a short row fails there or, with no structures, never.
    if |structures| > 0 && IsShort(row) {
      return Failure(ShortSampleRow(lineIndex));
    }
    var j := 0;
    while j < |structures|
      invariant 0 <= j <= |structures|
      invariant j > 0 ==> !IsShort(row)
      invariant current.order == index.order
      invariant ScannedUpTo(rows, lineIndex, structures, j, current)
    {
      current := VisitStructure(rows, lineIndex, structures, j, current);
      j := j + 1;
    }
    RowFinished(rows, lineIndex, structures, current);
    return Success(current);
  }

  /** One pass of the inner loop: append the shifted row position when the structure matches. */
  method VisitStructure(rows: seq<seq<string>>, lineIndex: nat, structures: seq<string>, j: nat, current: StructureIndex)
    returns (next: StructureIndex)
    requires lineIndex < |rows| && j < |structures| && !IsShort(rows[lineIndex])
    requires ScannedUpTo(rows, lineIndex, structures, j, current)
    ensures next.order == current.order
    ensures ScannedUpTo(rows, lineIndex, structures, j + 1, next)
  {
    var structure := structures[j];
    next := current;
    if structure == rows[lineIndex][AcronymColumn] {
      next := current.Put(structure, current.entries[structure] + [lineIndex - 1]);
    }
    ScanStep(rows, lineIndex, structures, j, current, next);
  }

  /** The scan has seen the first `lineIndex` rows. */
  ghost predicate RowsScanned(rows: seq<seq<string>>, lineIndex: nat, structures: seq<string>, index: StructureIndex)
    requires lineIndex <= |rows|
  {
    && index.Valid()
    && (forall s :: s in index.entries <==> s in structures)
    && forall s :: s in index.entries ==>
      index.entries[s] == Positions(rows[..lineIndex], s, Count(structures, s))
  }

  lemma RowStarted(rows: seq<seq<string>>, lineIndex: nat, structures: seq<string>, index: StructureIndex)
    requires lineIndex < |rows| && RowsScanned(rows, lineIndex, structures, index)
    ensures ScannedUpTo(rows, lineIndex, structures, 0, index)
  {
    forall s | s in index.entries
      ensures Count(structures[..0], s) == 0 && Repeat(lineIndex - 1, 0) == []
    {
      assert structures[..0] == [];
    }
  }

  lemma RowFinished(rows: seq<seq<string>>, lineIndex: nat, structures: seq<string>, index: StructureIndex)
    requires lineIndex < |rows| && ScannedUpTo(rows, lineIndex, structures, |structures|, index)
    ensures RowsScanned(rows, lineIndex + 1, structures, index)
  {
    assert structures[..|structures|] == structures;
    forall s | s in index.entries
      ensures index.entries[s] == Positions(rows[..lineIndex + 1], s, Count(structures, s))
    {
      PositionsSnoc(rows, lineIndex, s, Count(structures, s));
    }
  }

  /** Progress of the scan of row `lineIndex` after the first `j` requested structures. */
  ghost predicate ScannedUpTo(rows: seq<seq<string>>, lineIndex: nat, structures: seq<string>, j: nat, index: StructureIndex)
    requires lineIndex < |rows| && j <= |structures|
  {
    && index.Valid()
    && (forall s :: s in index.entries <==> s in structures)
    && forall s :: s in index.entries ==>
      index.entries[s] == Positions(rows[..lineIndex], s, Count(structures, s))
        + (if Matches(rows[lineIndex], s) then Repeat(lineIndex - 1, Count(structures[..j], s)) else [])
  }

  /** One iteration of the inner loop of the scan keeps `ScannedUpTo`. */
  lemma ScanStep(rows: seq<seq<string>>, lineIndex: nat, structures: seq<string>, j: nat,
                 before: StructureIndex, after: StructureIndex)
    requires lineIndex < |rows| && j < |structures| && !IsShort(rows[lineIndex])
    requires ScannedUpTo(rows, lineIndex, structures, j, before)
    requires after == if structures[j] == rows[lineIndex][AcronymColumn]
      then before.Put(structures[j], before.entries[structures[j]] + [lineIndex - 1])
      else before
    ensures ScannedUpTo(rows, lineIndex, structures, j + 1, after)
    ensures after.order == before.order
  {
    forall s | s in after.entries
      ensures after.entries[s] == Positions(rows[..lineIndex], s, Count(structures, s))
        + (if Matches(rows[lineIndex], s) then Repeat(lineIndex - 1, Count(structures[..j + 1], s)) else [])
    {
      assert s in before.entries;
      ScanStepAt(rows, lineIndex, structures, j, before.entries[s], after.entries[s], s);
    }
  }

  lemma ScanStepAt(rows: seq<seq<string>>, lineIndex: nat, structures: seq<string>, j: nat,
                   before: seq<int>, after: seq<int>, s: string)
    requires lineIndex < |rows| && j < |structures| && !IsShort(rows[lineIndex])
    requires before == Positions(rows[..lineIndex], s, Count(structures, s))
      + (if Matches(rows[lineIndex], s) then Repeat(lineIndex - 1, Count(structures[..j], s)) else [])
    requires after == if structures[j] == s && Matches(rows[lineIndex], s) then before + [lineIndex - 1] else before
    ensures after == Positions(rows[..lineIndex], s, Count(structures, s))
      + (if Matches(rows[lineIndex], s) then Repeat(lineIndex - 1, Count(structures[..j + 1], s)) else [])
  {
    var positions := Positions(rows[..lineIndex], s, Count(structures, s));
    var cj := Count(structures[..j], s);
    CountSnoc(structures, j, s);
    if structures[j] == s && Matches(rows[lineIndex], s) {
      RepeatSnoc(lineIndex - 1, cj);
      assert positions + Repeat(lineIndex - 1, cj) + [lineIndex - 1]
        == positions + Repeat(lineIndex - 1, cj + 1);
    }
  }

  lemma CountSnoc<T>(xs: seq<T>, j: nat, x: T)
    requires j < |xs|
    ensures Count(xs[..j + 1], x) == Count(xs[..j], x) + (if xs[j] == x then 1 else 0)
  {
    assert xs[..j + 1][..j] == xs[..j];
  }

  lemma RepeatSnoc(x: int, c: nat)
    ensures Repeat(x, c) + [x] == Repeat(x, c + 1)
  {
  }

  lemma PositionsSnoc(rows: seq<seq<string>>, l: nat, structure: string, c: nat)
    requires l < |rows|
    ensures Positions(rows[..l + 1], structure, c)
      == Positions(rows[..l], structure, c) + (if Matches(rows[l], structure) then Repeat(l - 1, c) else [])
  {
    assert rows[..l + 1][..l] == rows[..l];
  }

  /** A position is recorded exactly for the rows (shifted down by one) whose acronym matches. */
  lemma {:induction false} PositionsMembers(rows: seq<seq<string>>, structure: string, c: nat, p: int)
    ensures p in Positions(rows, structure, c) <==>
      c > 0 && 0 <= p + 1 < |rows| && Matches(rows[p + 1], structure)
  {
    if rows != [] {
      var n := |rows|;
      var prefix := rows[..n - 1];
      PositionsMembers(prefix, structure, c, p);
      var last := if Matches(rows[n - 1], structure) then Repeat(n - 2, c) else [];
      assert c > 0 ==> Repeat(n - 2, c)[0] == n - 2;
      assert p in last <==> c > 0 && p == n - 2 && Matches(rows[n - 1], structure);
      assert 0 <= p + 1 < n - 1 ==> prefix[p + 1] == rows[p + 1];
    }
  }

  /** Positions follow file order; a structure requested once gets strictly increasing positions. */
  lemma {:induction false} PositionsInFileOrder(rows: seq<seq<string>>, structure: string, c: nat)
    ensures forall i, j :: 0 <= i < j < |Positions(rows, structure, c)| ==>
      Positions(rows, structure, c)[i] <= Positions(rows, structure, c)[j]
    ensures c == 1 ==> forall i, j :: 0 <= i < j < |Positions(rows, structure, c)| ==>
      Positions(rows, structure, c)[i] < Positions(rows, structure, c)[j]
  {
    if rows != [] {
      var prefix := rows[..|rows| - 1];
      var before := Positions(prefix, structure, c);
      PositionsInFileOrder(prefix, structure, c);
      forall i | 0 <= i < |before| ensures before[i] < |rows| - 2 {
        PositionsMembers(prefix, structure, c, before[i]);
      }
    }
  }

  /** A structure matched by the first data row records -1 before any other position. */
  lemma FirstRowRecordsMinusOne(rows: seq<seq<string>>, structure: string, c: nat)
    requires c > 0 && |rows| > 0 && Matches(rows[0], structure)
    ensures |Positions(rows, structure, c)| > 0 && Positions(rows, structure, c)[0] == -1
  {
    var ps := Positions(rows, structure, c);
    PositionsMembers(rows, structure, c, -1);
    var k :| 0 <= k < |ps| && ps[k] == -1;
    PositionsInFileOrder(rows, structure, c);
    PositionsMembers(rows, structure, c, ps[0]);
  }

  /** A structure that no row names gets an empty list. */
  lemma UnmatchedStructureHasNoPositions(rows: seq<seq<string>>, structure: string, c: nat)
    requires forall i :: 0 <= i < |rows| ==> !Matches(rows[i], structure)
    ensures Positions(rows, structure, c) == []
  {
    var ps := Positions(rows, structure, c);
    if ps != [] {
      PositionsMembers(rows, structure, c, ps[0]);
    }
  }

  /**
   * The positions the scan evidently means to record: data row `p` is the
   * sample whose expression value is `micro_line[1:][p]`, so a match would
   * record `line_index` itself, not `line_index - 1`.
   */
  function SamplePositions(rows: seq<seq<string>>, structure: string): (ps: seq<int>)
    ensures forall p :: p in ps <==> 0 <= p < |rows| && Matches(rows[p], structure)
  {
    if rows == [] then []
    else
      var n := |rows|;
      var prefix := rows[..n - 1];
      assert forall p :: 0 <= p < n - 1 ==> prefix[p] == rows[p];
      SamplePositions(prefix, structure) + if Matches(rows[n - 1], structure) then [n - 1] else []
  }
}
