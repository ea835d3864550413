/**
 Restoring the base lists of unchanged classes on an incremental run (codebase_rag/graph_updater.py,
 _rehydrated_bases_by_child).
 */
module Rehydration {
  import opened Options
  import opened Orders

  // An INHERITS row; a part that has not the type the code asks for is None.
  datatype Row = Row(child: Option<string>, base: Option<string>, index: Option<int>)

  datatype Base = Base(index: Option<int>, name: string)

  type Collection = map<string, seq<Base>>

  predicate Counts(row: Row, existing: set<string>, child: string) {
    row.child == Some(child) && row.base.Some? && child !in existing
  }

  // The rows of one class, in the order they came.
  function Collected(rows: seq<Row>, existing: set<string>, child: string): seq<Base> {
    if rows == [] then []
    else
      var row := rows[|rows| - 1];
      Collected(rows[..|rows| - 1], existing, child)
      + if Counts(row, existing, child) then [Base(row.index, row.base.value)] else []
  }

  // A row counts for its class, if it has one and a base and the class was not parsed in this run, and the rows of a
  // list count in turn.
  lemma {:induction false} CollectedIs(a: seq<Row>, b: seq<Row>, existing: set<string>, child: string)
    ensures Collected(a + b, existing, child) == Collected(a, existing, child) + Collected(b, existing, child)
    ensures |b| == 1 ==>
              Collected(b, existing, child) ==
              (if b[0].child == Some(child) && b[0].base.Some? && child !in existing
                then [Base(b[0].index, b[0].base.value)] else [])
    ensures child in existing ==> Collected(b, existing, child) == []
  {
    if b == [] {
      assert a + b == a;
    } else {
      var front, last := b[..|b| - 1], b[|b| - 1];
      assert (a + b)[..|a + b| - 1] == a + front && (a + b)[|a + b| - 1] == last;
      CollectedIs(a, front, existing, child);
    }
  }

  // collected.get(child, [])
  function BasesOf(collected: Collection, child: string): seq<Base> {
    if child in collected then collected[child] else []
  }

  ghost predicate Collects(rows: seq<Row>, existing: set<string>, collected: Collection) {
    && (forall child :: BasesOf(collected, child) == Collected(rows, existing, child))
    && forall child :: child in collected ==> collected[child] != []
  }

  method CollectBases(rows: seq<Row>, existing: set<string>) returns (collected: Collection)
    ensures Collects(rows, existing, collected)
  {
    collected := map[];
    for i := 0 to |rows|
      invariant Collects(rows[..i], existing, collected)
    {
      assert rows[..i + 1][..i] == rows[..i];
      var row := rows[i];
      if row.child.Some? && row.base.Some? && row.child.value !in existing {
        var child := row.child.value;
        collected := collected[child := BasesOf(collected, child) + [Base(row.index, row.base.value)]];
      }
    }
    assert rows[..|rows|] == rows;
  }

  // The sort key (index is None, index or 0).
  predicate IndexLe(a: Base, b: Base) {
    match (a.index, b.index)
    case (None, _) => b.index.None?
    case (Some(_), None) => true
    case (Some(i), Some(j)) => i <= j
  }

  // The order of several bases can be trusted only if every one has its index.
  predicate Trusted(bases: seq<Base>) {
    bases != [] && (|bases| > 1 ==> forall b :: b in bases ==> b.index.Some?)
  }

  function Names(bases: seq<Base>): (names: seq<string>)
    ensures |names| == |bases| && forall i :: 0 <= i < |bases| ==> names[i] == bases[i].name
  {
    seq(|bases|, i requires 0 <= i < |bases| => bases[i].name)
  }

  // The bases of several rows come back by index, rows with equal indices in their order, and none is lost or added.
  lemma RestoredOrder(bases: seq<Base>, e: Base)
    requires Trusted(bases) && |bases| > 1
    ensures var sorted := Sort(bases, IndexLe);
            && multiset(sorted) == multiset(bases) && (forall b :: b in sorted ==> b.index.Some?)
            && (forall i, j :: 0 <= i < j < |sorted| ==>
                  sorted[i] in sorted && sorted[j] in sorted && sorted[i].index.value <= sorted[j].index.value)
            && Ties(sorted, e, IndexLe) == Ties(bases, e, IndexLe)
  {
    var sorted := Sort(bases, IndexLe);
    SortPermutes(bases, IndexLe);
    SameElements(sorted, bases);
    SortOrdered(bases, IndexLe);
    SortStable(bases, e, IndexLe);
    forall i, j | 0 <= i < j < |sorted| ensures sorted[i].index.Some? && sorted[j].index.Some? {
      assert sorted[i] in sorted && sorted[j] in sorted;
    }
  }

  // A class is restored exactly when it has rows, was not parsed in this run, and its order can be trusted.
  method RehydratedBases(rows: seq<Row>, existing: set<string>) returns (result: map<string, seq<string>>)
    ensures forall child :: child in result <==> Trusted(Collected(rows, existing, child))
    ensures forall child :: child in result ==> child !in existing
    ensures forall child :: child in result ==>
              result[child] == Names(Sort(Collected(rows, existing, child), IndexLe))
  {
    var collected := CollectBases(rows, existing);
    result := map[];
    var children := collected.Keys;
    while children != {}
      invariant children <= collected.Keys
      invariant forall child :: child in result <==>
                  child in collected && child !in children && Trusted(collected[child])
      invariant forall child :: child in result ==> result[child] == Names(Sort(collected[child], IndexLe))
    {
      var child :| child in children;
      children := children - {child};
      if !(|collected[child]| > 1 && exists b :: b in collected[child] && b.index.None?) {
        result := result[child := Names(Sort(collected[child], IndexLe))];
      }
    }
    assert forall child :: child in collected ==> BasesOf(collected, child) == collected[child];
    forall child | child in existing ensures Collected(rows, existing, child) == [] {
      CollectedIs([], rows, existing, child);
    }
  }

  // Every base has its index, and the indices ascend.
  ghost predicate Ascends(kept: seq<Base>) {
    && (forall i :: 0 <= i < |kept| ==> kept[i].index.Some?)
    && forall i, j :: 0 <= i < j < |kept| ==> kept[i].index.value < kept[j].index.value
  }

  lemma AscendsOrdered(kept: seq<Base>)
    requires Ascends(kept)
    ensures Ordered(kept, IndexLe)
    ensures forall x, y :: x in kept && y in kept && IndexLe(x, y) && IndexLe(y, x) ==> x == y
  {
    forall x, y | x in kept && y in kept && IndexLe(x, y) && IndexLe(y, x) ensures x == y {
      var i :| 0 <= i < |kept| && kept[i] == x;
      var j :| 0 <= j < |kept| && kept[j] == y;
    }
  }

  lemma AllIndexed(found: seq<Base>, kept: seq<Base>)
    requires kept != [] && Ascends(kept) && multiset(found) == multiset(kept)
    ensures Trusted(found)
  {
    SameElements(found, kept);
    forall b | b in found ensures b.index.Some? {
      assert b in kept;
    }
  }

  // Bases with ascending indices come back in that order, however the rows of the graph are ordered, and whatever gaps
  // there are between the indices.
  lemma IndexedComeBack(rows: seq<Row>, existing: set<string>, child: string, kept: seq<Base>)
    requires kept != [] && Ascends(kept) && multiset(Collected(rows, existing, child)) == multiset(kept)
    ensures Trusted(Collected(rows, existing, child))
    ensures Names(Sort(Collected(rows, existing, child), IndexLe)) == Names(kept)
  {
    AllIndexed(Collected(rows, existing, child), kept);
    AscendsOrdered(kept);
    SortRestores(Collected(rows, existing, child), kept, IndexLe);
  }

  // What indexing a class stores: of the bases it is written with, those that could be resolved, with their positions.
  function Stored(written: seq<Option<string>>): (stored: seq<Base>)
    ensures forall i :: 0 <= i < |stored| ==> stored[i].index.Some? && 0 <= stored[i].index.value < |written|
  {
    if written == [] then []
    else
      var last := |written| - 1;
      Stored(written[..last]) + if written[last].Some? then [Base(Some(last), written[last].value)] else []
  }

  function Resolved(written: seq<Option<string>>): seq<string> {
    if written == [] then []
    else
      var last := |written| - 1;
      Resolved(written[..last]) + if written[last].Some? then [written[last].value] else []
  }

  lemma {:induction false} StoredAscends(written: seq<Option<string>>)
    ensures Ascends(Stored(written)) && Names(Stored(written)) == Resolved(written)
  {
    if written != [] {
      var before := written[..|written| - 1];
      StoredAscends(before);
      var stored := Stored(before);
      assert forall i :: 0 <= i < |stored| ==> stored[i].index.value < |before|;
      assert |Names(Stored(written))| == |Resolved(written)|;
    }
  }

  // The resolved bases of an indexed class come back in source order.
  lemma StoredComesBack(rows: seq<Row>, existing: set<string>, child: string, written: seq<Option<string>>)
    requires Stored(written) != [] && multiset(Collected(rows, existing, child)) == multiset(Stored(written))
    ensures Trusted(Collected(rows, existing, child))
    ensures Names(Sort(Collected(rows, existing, child), IndexLe)) == Resolved(written)
  {
    StoredAscends(written);
    IndexedComeBack(rows, existing, child, Stored(written));
  }

  // A class with one base needs no index.
  lemma SingleBaseComesBack(rows: seq<Row>, existing: set<string>, child: string, b: Base)
    requires Collected(rows, existing, child) == [b]
    ensures Trusted(Collected(rows, existing, child))
    ensures Names(Sort(Collected(rows, existing, child), IndexLe)) == [b.name]
  {
    assert [b][1..] == [];
    assert Sort([b], IndexLe) == [b];
  }

  // Rows of one class are not mixed up with those of another: leaving the others out changes nothing.
  lemma {:induction false} OthersIrrelevant(rows: seq<Row>, existing: set<string>, child: string)
    ensures Collected(rows, existing, child) == Collected(Own(rows, child), existing, child)
  {
    if rows != [] {
      var front, last := rows[..|rows| - 1], rows[|rows| - 1];
      OthersIrrelevant(front, existing, child);
      if last.child == Some(child) {
        assert (Own(front, child) + [last])[..|Own(front, child)|] == Own(front, child);
      } else {
        assert Own(front, child) + [] == Own(front, child);
      }
    }
  }

  function Own(rows: seq<Row>, child: string): seq<Row> {
    if rows == [] then []
    else
      var last := rows[|rows| - 1];
      Own(rows[..|rows| - 1], child) + if last.child == Some(child) then [last] else []
  }
}
