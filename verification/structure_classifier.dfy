/**
 * `find_uniques_shared` (main.py): sort the kept genes into the genes
 * expressed in every structure and, per structure, the genes expressed
 * first in that one.
 */
module StructureClassifier {
  import opened Results
  import opened Dicts

  /** `any(value >= threshold for value in values)` */
  predicate Expressed(values: seq<real>, threshold: real) {
    exists m :: 0 <= m < |values| && values[m] >= threshold
  }

  /** `condition`: one flag per group of a gene. */
  function Condition(regions: seq<seq<real>>, threshold: real): (c: seq<bool>)
    ensures |c| == |regions|
    ensures forall k :: 0 <= k < |c| ==> (c[k] <==> Expressed(regions[k], threshold))
  {
    seq(|regions|, k requires 0 <= k < |regions| => Expressed(regions[k], threshold))
  }

  /** `condition.index(True)`; the caller has ruled out the ValueError. */
  function FirstTrue(c: seq<bool>): (i: nat)
    requires true in c
    ensures i < |c| && c[i]
    ensures forall k :: 0 <= k < i ==> !c[k]
  {
    if c[0] then 0 else 1 + FirstTrue(c[1..])
  }

  /** The list a gene is appended to. */
  datatype Destination = SharedList | UniqueList(structure: string)

  /** ValueError from `condition.index(True)`, IndexError from `structures[index]`. */
  datatype ClassifyError = NoExpressedStructure(gene: string) | StructureOutOfRange(gene: string)

  /** Where one gene goes, or why its iteration raises. */
  function Route(gene: string, regions: seq<seq<real>>, structures: seq<string>, threshold: real)
    : (r: Result<Destination, ClassifyError>)
    ensures r.Failure? ==> r.error.gene == gene
  {
    var condition := Condition(regions, threshold);
    if forall k :: 0 <= k < |condition| ==> condition[k] then
      Success(SharedList)
    else if true !in condition then
      Failure(NoExpressedStructure(gene))
    else
      var index := FirstTrue(condition);
      if index < |structures| then Success(UniqueList(structures[index]))
      else Failure(StructureOutOfRange(gene))
  }

  /**
   * A gene is shared exactly when every group is expressed; it raises
   * ValueError exactly when it has groups and none is expressed; otherwise
   * it goes to the structure of its first expressed group, or raises
   * IndexError when there is no such structure.
   */
  lemma RouteDecides(gene: string, regions: seq<seq<real>>, structures: seq<string>, threshold: real)
    ensures var r := Route(gene, regions, structures, threshold);
      && (r == Success(SharedList) <==> forall k :: 0 <= k < |regions| ==> Expressed(regions[k], threshold))
      && (r == Failure(NoExpressedStructure(gene)) <==>
            |regions| > 0 && forall k :: 0 <= k < |regions| ==> !Expressed(regions[k], threshold))
      && (r.Success? && r.value.UniqueList? ==>
            exists i :: && 0 <= i < |regions| && i < |structures| && r.value == UniqueList(structures[i])
                        && Expressed(regions[i], threshold)
                        && forall k :: 0 <= k < i ==> !Expressed(regions[k], threshold))
      && (r == Failure(StructureOutOfRange(gene)) ==>
            exists i :: && |structures| <= i < |regions| && Expressed(regions[i], threshold)
                        && forall k :: 0 <= k < i ==> !Expressed(regions[k], threshold))
  {
    var condition := Condition(regions, threshold);
    if forall k :: 0 <= k < |condition| ==> condition[k] {
      assert |regions| > 0 ==> condition[0];
    }
  }

  /** One entry of `array.items()`: a gene and its groups. */
  type Item = (string, seq<seq<real>>)

  function RouteOf(item: Item, structures: seq<string>, threshold: real): Result<Destination, ClassifyError> {
    Route(item.0, item.1, structures, threshold)
  }

  /** No iteration over `items` raises. */
  predicate AllRouted(items: seq<Item>, structures: seq<string>, threshold: real) {
    forall i :: 0 <= i < |items| ==> RouteOf(items[i], structures, threshold).Success?
  }

  /** The genes of `items` sent to `d`, in the order they come. */
  function RoutedTo(items: seq<Item>, structures: seq<string>, threshold: real, d: Destination): (genes: seq<string>)
    requires AllRouted(items, structures, threshold)
    ensures |genes| <= |items|
  {
    if items == [] then []
    else
      var n := |items|;
      assert AllRouted(items[..n - 1], structures, threshold);
      RoutedTo(items[..n - 1], structures, threshold, d)
        + if RouteOf(items[n - 1], structures, threshold).value == d then [items[n - 1].0] else []
  }

  /** What `find_uniques_shared` returns: `unique` and `shared`. */
  datatype Classification = Classification(unique: Dict<string, seq<string>>, shared: seq<string>)

  /** `c` lists exactly the genes of `items` each destination receives, one list per requested structure. */
  ghost predicate Classified(c: Classification, items: seq<Item>, structures: seq<string>, threshold: real)
    requires AllRouted(items, structures, threshold)
  {
    && c.unique.Valid() && c.unique.order == Dedup(structures)
    && (forall s :: s in c.unique.entries <==> s in structures)
    && (forall s :: s in c.unique.entries ==>
          c.unique.entries[s] == RoutedTo(items, structures, threshold, UniqueList(s)))
    && c.shared == RoutedTo(items, structures, threshold, SharedList)
  }

  method FindUniquesShared(valueArray: Dict<string, seq<seq<real>>>, structures: seq<string>, threshold: real)
    returns (r: Result<Classification, ClassifyError>)
    requires valueArray.Valid()
    ensures r.Success? <==> AllRouted(valueArray.Items(), structures, threshold)
    ensures r.Success? ==> Classified(r.value, valueArray.Items(), structures, threshold)
    ensures r.Failure? ==>
      var items := valueArray.Items();
      exists k :: && 0 <= k < |items| && AllRouted(items[..k], structures, threshold)
                  && RouteOf(items[k], structures, threshold) == Failure(r.error)
  {
    var items := valueArray.Items();
    var shared: seq<string> := [];
    var unique: Dict<string, seq<string>> := FromKeys(structures, []);
    var i := 0;
    while i < |items| && RouteOf(items[i], structures, threshold).Success?
      invariant 0 <= i <= |items|
      invariant AllRouted(items[..i], structures, threshold)
      invariant Classified(Classification(unique, shared), items[..i], structures, threshold)
    {
      unique, shared := FileGene(items, i, structures, threshold, unique, shared);
      i := i + 1;
    }
    if i < |items| {
      return Failure(RouteOf(items[i], structures, threshold).error);
    }
    assert items[..i] == items;
    r := Success(Classification(unique, shared));
  }

  /** The body of the loop for a gene whose iteration does not raise: append it to its list. */
  method FileGene(items: seq<Item>, i: nat, structures: seq<string>, threshold: real,
                  unique: Dict<string, seq<string>>, shared: seq<string>)
    returns (unique': Dict<string, seq<string>>, shared': seq<string>)
    requires i < |items| && AllRouted(items[..i], structures, threshold)
    requires RouteOf(items[i], structures, threshold).Success?
    requires Classified(Classification(unique, shared), items[..i], structures, threshold)
    ensures AllRouted(items[..i + 1], structures, threshold)
    ensures Classified(Classification(unique', shared'), items[..i + 1], structures, threshold)
  {
    var route := RouteOf(items[i], structures, threshold);
    RoutedToSnoc(items, i, structures, threshold);
    unique', shared' := unique, shared;
    if route.value.SharedList? {
      shared' := shared + [items[i].0];
    } else {
      var structure := route.value.structure;
      RouteDecides(items[i].0, items[i].1, structures, threshold);
      unique' := unique.Put(structure, unique.entries[structure] + [items[i].0]);
    }
  }

  lemma RoutedToSnoc(items: seq<Item>, i: nat, structures: seq<string>, threshold: real)
    requires i < |items| && AllRouted(items[..i], structures, threshold)
    requires RouteOf(items[i], structures, threshold).Success?
    ensures AllRouted(items[..i + 1], structures, threshold)
    ensures forall d ::
      RoutedTo(items[..i + 1], structures, threshold, d)
        == RoutedTo(items[..i], structures, threshold, d)
           + (if RouteOf(items[i], structures, threshold).value == d then [items[i].0] else [])
  {
    assert items[..i + 1][..i] == items[..i];
  }

  /** Genes are the keys of a dict, so each occurs once. */
  predicate DistinctGenes(items: seq<Item>) {
    forall i, j :: 0 <= i < j < |items| ==> items[i].0 != items[j].0
  }

  lemma ItemsHaveDistinctGenes(d: Dict<string, seq<seq<real>>>)
    requires d.Valid()
    ensures DistinctGenes(d.Items())
  {
    var items := d.Items();
    forall i, j | 0 <= i < j < |items| ensures items[i].0 != items[j].0 {
      assert items[i].0 == d.order[i] && items[j].0 == d.order[j];
    }
  }

  /** Some item of `items` has gene `g` and is routed to `d`. */
  ghost predicate Sent(items: seq<Item>, structures: seq<string>, threshold: real, d: Destination, g: string) {
    exists i :: 0 <= i < |items| && items[i].0 == g && RouteOf(items[i], structures, threshold) == Success(d)
  }

  lemma SentSnoc(items: seq<Item>, structures: seq<string>, threshold: real, d: Destination, g: string)
    requires |items| > 0
    ensures Sent(items, structures, threshold, d, g) <==>
      || Sent(items[..|items| - 1], structures, threshold, d, g)
      || (items[|items| - 1].0 == g && RouteOf(items[|items| - 1], structures, threshold) == Success(d))
  {
    var n := |items|;
    var pre := items[..n - 1];
    if Sent(pre, structures, threshold, d, g) {
      var i :| 0 <= i < |pre| && pre[i].0 == g && RouteOf(pre[i], structures, threshold) == Success(d);
      assert items[i] == pre[i];
      assert Sent(items, structures, threshold, d, g);
    }
    if items[n - 1].0 == g && RouteOf(items[n - 1], structures, threshold) == Success(d) {
      assert Sent(items, structures, threshold, d, g);
    }
    if Sent(items, structures, threshold, d, g) {
      var i :| 0 <= i < n && items[i].0 == g && RouteOf(items[i], structures, threshold) == Success(d);
      if i < n - 1 {
        assert pre[i] == items[i];
        assert Sent(pre, structures, threshold, d, g);
      }
    }
  }

  /** A list holds exactly the genes of `items` routed to it. */
  lemma {:induction false} RoutedToMembers(items: seq<Item>, structures: seq<string>, threshold: real,
                                           d: Destination, g: string)
    requires AllRouted(items, structures, threshold)
    ensures g in RoutedTo(items, structures, threshold, d) <==> Sent(items, structures, threshold, d, g)
  {
    if items != [] {
      var pre := items[..|items| - 1];
      assert AllRouted(pre, structures, threshold);
      RoutedToMembers(pre, structures, threshold, d, g);
      SentSnoc(items, structures, threshold, d, g);
    }
  }

  /** Each gene lands in the list its route names and in no other. */
  lemma EachGeneLandsOnce(items: seq<Item>, structures: seq<string>, threshold: real, i: int, d: Destination)
    requires AllRouted(items, structures, threshold) && DistinctGenes(items)
    requires 0 <= i < |items|
    ensures items[i].0 in RoutedTo(items, structures, threshold, d) <==> RouteOf(items[i], structures, threshold) == Success(d)
  {
    RoutedToMembers(items, structures, threshold, d, items[i].0);
  }

  /** Within a list, genes keep the order of `items`. */
  lemma {:induction false} RoutedToKeepsOrder(items: seq<Item>, structures: seq<string>, threshold: real,
                                              d: Destination, x: int, y: int, i: int, j: int)
    requires AllRouted(items, structures, threshold) && DistinctGenes(items)
    requires 0 <= x < y < |RoutedTo(items, structures, threshold, d)|
    requires 0 <= i < |items| && items[i].0 == RoutedTo(items, structures, threshold, d)[x]
    requires 0 <= j < |items| && items[j].0 == RoutedTo(items, structures, threshold, d)[y]
    ensures i < j
  {
    var pre := items[..|items| - 1];
    assert AllRouted(pre, structures, threshold) && DistinctGenes(pre);
    RoutedEarlier(items, structures, threshold, d, x, i);
    if y < |RoutedTo(pre, structures, threshold, d)| {
      RoutedEarlier(items, structures, threshold, d, y, j);
      RoutedToKeepsOrder(pre, structures, threshold, d, x, y, i, j);
    } else {
      RoutedLatest(items, structures, threshold, d, y, j);
    }
  }

  /** An entry the list had before the last item is the gene of an earlier item. */
  lemma RoutedEarlier(items: seq<Item>, structures: seq<string>, threshold: real, d: Destination, x: int, i: int)
    requires AllRouted(items, structures, threshold) && DistinctGenes(items) && |items| > 0
    requires AllRouted(items[..|items| - 1], structures, threshold)
    requires 0 <= x < |RoutedTo(items[..|items| - 1], structures, threshold, d)|
    requires 0 <= i < |items| && items[i].0 == RoutedTo(items, structures, threshold, d)[x]
    ensures i < |items| - 1
    ensures items[..|items| - 1][i].0 == RoutedTo(items[..|items| - 1], structures, threshold, d)[x]
  {
    var pre := items[..|items| - 1];
    var g := RoutedTo(pre, structures, threshold, d)[x];
    assert RoutedTo(items, structures, threshold, d)[x] == g;
    RoutedToMembers(pre, structures, threshold, d, g);
    assert Sent(pre, structures, threshold, d, g);
    var k :| 0 <= k < |pre| && pre[k].0 == g && RouteOf(pre[k], structures, threshold) == Success(d);
    assert items[k] == pre[k];
  }

  /** An entry the last item added is the last item's gene. */
  lemma RoutedLatest(items: seq<Item>, structures: seq<string>, threshold: real, d: Destination, y: int, j: int)
    requires AllRouted(items, structures, threshold) && DistinctGenes(items) && |items| > 0
    requires AllRouted(items[..|items| - 1], structures, threshold)
    requires |RoutedTo(items[..|items| - 1], structures, threshold, d)| <= y < |RoutedTo(items, structures, threshold, d)|
    requires 0 <= j < |items| && items[j].0 == RoutedTo(items, structures, threshold, d)[y]
    ensures j == |items| - 1
  {
    assert RoutedTo(items, structures, threshold, d)[y] == items[|items| - 1].0;
  }

  /**
   * `unique` and `shared` partition the genes: a gene is shared exactly when
   * its route says so, listed under a structure exactly when its route names
   * that structure, and that structure is always one of `unique`'s keys.
   */
  lemma ClassificationIsPartition(c: Classification, items: seq<Item>, structures: seq<string>, threshold: real,
                                  i: int)
    requires AllRouted(items, structures, threshold) && DistinctGenes(items)
    requires Classified(c, items, structures, threshold)
    requires 0 <= i < |items|
    ensures items[i].0 in c.shared <==> RouteOf(items[i], structures, threshold) == Success(SharedList)
    ensures forall s :: s in c.unique.entries ==>
      (items[i].0 in c.unique.entries[s] <==> RouteOf(items[i], structures, threshold) == Success(UniqueList(s)))
    ensures RouteOf(items[i], structures, threshold).value.UniqueList? ==>
      RouteOf(items[i], structures, threshold).value.structure in c.unique.entries
  {
    EachGeneLandsOnce(items, structures, threshold, i, SharedList);
    forall s | s in c.unique.entries
      ensures items[i].0 in c.unique.entries[s] <==> RouteOf(items[i], structures, threshold) == Success(UniqueList(s))
    {
      EachGeneLandsOnce(items, structures, threshold, i, UniqueList(s));
    }
  }
}
