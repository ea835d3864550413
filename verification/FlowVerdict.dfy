/**
 Three-verdict flow reachability (codebase_rag/flow_verdict.py): a breadth-first search that answers with a shortest
 path of at least one edge, and the verdict built on it.
 */
module FlowVerdict {
  import opened Options
  import opened Orders

  type Edges = map<string, seq<string>>

  ghost predicate Edge(e: Edges, x: string, y: string) {
    x in e && y in e[x]
  }

  // A walk along edges, given by the nodes it visits.
  ghost predicate Walk(e: Edges, w: seq<string>) {
    w != [] && forall i :: 0 <= i < |w| - 1 ==> Edge(e, w[i], w[i + 1])
  }

  // A walk of at least one edge.
  ghost predicate Flow(e: Edges, source: string, sink: string, w: seq<string>) {
    Walk(e, w) && |w| > 1 && w[0] == source && w[|w| - 1] == sink
  }

  function Targets(e: Edges): set<string> {
    set x, y | x in e && y in e[x] :: y
  }

  function TargetsOf(e: Edges, x: string): seq<string> {
    if x in e then e[x] else []
  }

  // ----- the search state -----

  // parent points one level up, along an edge, and leads to the source.
  ghost predicate SearchTree(e: Edges, source: string, parent: map<string, string>, depth: map<string, nat>) {
    && source in depth && depth[source] == 0
    && parent.Keys == depth.Keys - {source}
    && forall x :: x in parent ==>
         parent[x] in depth && depth[x] == depth[parent[x]] + 1 && Edge(e, parent[x], x)
  }

  // Every edge out of x has been followed, and none of them ends at the sink.
  ghost predicate Settled(e: Edges, sink: string, depth: map<string, nat>, x: string)
    requires x in depth
  {
    forall y :: Edge(e, x, y) ==> y != sink && y in depth && depth[y] <= depth[x] + 1
  }

  // The queue holds nodes of two neighbouring levels, the lower one first.
  ghost predicate Levelled(depth: map<string, nat>, queue: seq<string>, level: nat) {
    && (forall i :: 0 <= i < |queue| ==> queue[i] in depth && level <= depth[queue[i]] <= level + 1)
    && forall i, j :: 0 <= i < j < |queue| ==> depth[queue[i]] <= depth[queue[j]]
  }

  // All levels below `level` are settled, so a walk of up to `level` edges ends where the search has been, no deeper.
  lemma {:induction false} WalkSeen(e: Edges, source: string, sink: string, parent: map<string, string>,
                                    depth: map<string, nat>, level: nat, w: seq<string>)
    requires SearchTree(e, source, parent, depth)
    requires forall x :: x in depth && depth[x] < level ==> Settled(e, sink, depth, x)
    requires Walk(e, w) && w[0] == source && |w| - 1 <= level
    ensures w[|w| - 1] in depth && depth[w[|w| - 1]] <= |w| - 1
  {
    var n := |w| - 1;
    if n > 0 {
      WalkSeen(e, source, sink, parent, depth, level, w[..n]);
      assert Edge(e, w[n - 1], w[n]);
    }
  }

  // No flow is shorter than the level of the node the sink was found from.
  lemma NoShorterFlow(e: Edges, source: string, sink: string, parent: map<string, string>, depth: map<string, nat>,
                      level: nat, w: seq<string>)
    requires SearchTree(e, source, parent, depth)
    requires forall x :: x in depth && depth[x] < level ==> Settled(e, sink, depth, x)
    requires Flow(e, source, sink, w)
    ensures |w| - 1 > level
  {
    var n := |w| - 1;
    if n <= level {
      WalkSeen(e, source, sink, parent, depth, level, w[..n]);
      assert false;
    }
  }

  // When every node reached is settled there is no flow at all.
  lemma NoFlow(e: Edges, source: string, sink: string, parent: map<string, string>, depth: map<string, nat>,
               w: seq<string>)
    requires SearchTree(e, source, parent, depth)
    requires forall x :: x in depth ==> Settled(e, sink, depth, x)
    ensures !Flow(e, source, sink, w)
  {
    if Flow(e, source, sink, w) {
      NoShorterFlow(e, source, sink, parent, depth, |w|, w);
    }
  }

  // ----- the path back to the source -----

  method Chain(ghost e: Edges, source: string, parent: map<string, string>, ghost depth: map<string, nat>,
               current: string)
    returns (path: seq<string>)
    requires SearchTree(e, source, parent, depth) && current in depth
    ensures Walk(e, path) && path[0] == source && path[|path| - 1] == current && |path| == depth[current] + 1
  {
    var chain := [current];
    while chain[|chain| - 1] != source
      invariant chain != [] && chain[0] == current
      invariant forall i :: 0 <= i < |chain| ==> chain[i] in depth && depth[chain[i]] == depth[current] - i
      invariant forall i :: 0 <= i < |chain| - 1 ==> Edge(e, chain[i + 1], chain[i])
      decreases depth[chain[|chain| - 1]]
    {
      chain := chain + [parent[chain[|chain| - 1]]];
    }
    path := Reversed(chain);
    forall i | 0 <= i < |path| - 1 ensures Edge(e, path[i], path[i + 1]) {
      assert Edge(e, chain[|chain| - 2 - i + 1], chain[|chain| - 2 - i]);
    }
  }

  // ----- the search -----

  // Between two nodes of the queue.
  ghost predicate Searching(e: Edges, source: string, sink: string, parent: map<string, string>, queue: seq<string>,
                            depth: map<string, nat>, level: nat) {
    && SearchTree(e, source, parent, depth)
    && Levelled(depth, queue, level)
    && (forall x :: x in depth ==> depth[x] <= level + 1)
    && forall x :: x in depth && x !in queue ==> Settled(e, sink, depth, x)
  }

  // Between two edges out of `current`: its first targets have been followed.
  ghost predicate Following(e: Edges, source: string, sink: string, parent: map<string, string>, queue: seq<string>,
                            depth: map<string, nat>, current: string, followed: seq<string>) {
    && SearchTree(e, source, parent, depth)
    && current in depth && Levelled(depth, queue, depth[current])
    && (forall x :: x in depth ==> depth[x] <= depth[current] + 1)
    && (forall x :: x in depth && x !in queue && x != current ==> Settled(e, sink, depth, x))
    && forall y :: y in followed ==> y != sink && y in depth
  }

  lemma FollowEdge(e: Edges, source: string, sink: string, parent: map<string, string>, queue: seq<string>,
                   depth: map<string, nat>, current: string, followed: seq<string>, target: string)
    requires Following(e, source, sink, parent, queue, depth, current, followed)
    requires Edge(e, current, target) && target != sink && target !in depth
    ensures Following(e, source, sink, parent[target := current], queue + [target],
                      depth[target := depth[current] + 1], current, followed + [target])
  {
    var depth' := depth[target := depth[current] + 1];
    forall x | x in depth' && x !in queue + [target] && x != current ensures Settled(e, sink, depth', x) {
      assert Settled(e, sink, depth, x);
    }
  }

  lemma SkipEdge(e: Edges, source: string, sink: string, parent: map<string, string>, queue: seq<string>,
                 depth: map<string, nat>, current: string, followed: seq<string>, target: string)
    requires Following(e, source, sink, parent, queue, depth, current, followed)
    requires target != sink && target in depth
    ensures Following(e, source, sink, parent, queue, depth, current, followed + [target])
  {
  }

  // Taking the next node off the queue.
  lemma TakeNext(e: Edges, source: string, sink: string, parent: map<string, string>, queue: seq<string>,
                 depth: map<string, nat>, level: nat)
    requires queue != [] && Searching(e, source, sink, parent, queue, depth, level)
    ensures Following(e, source, sink, parent, queue[1..], depth, queue[0], [])
  {
    forall x | x in depth && x !in queue[1..] && x != queue[0] ensures Settled(e, sink, depth, x) {
      assert queue == [queue[0]] + queue[1..];
    }
  }

  // All edges out of the current node have been followed.
  lemma DoneFollowing(e: Edges, source: string, sink: string, parent: map<string, string>, queue: seq<string>,
                      depth: map<string, nat>, current: string)
    requires Following(e, source, sink, parent, queue, depth, current, TargetsOf(e, current))
    ensures Searching(e, source, sink, parent, queue, depth, depth[current])
  {
  }

  lemma FoundFrom(e: Edges, source: string, sink: string, parent: map<string, string>, queue: seq<string>,
                  depth: map<string, nat>, current: string, followed: seq<string>, path: seq<string>)
    requires Following(e, source, sink, parent, queue, depth, current, followed) && Edge(e, current, sink)
    requires Walk(e, path) && path[0] == source && path[|path| - 1] == current && |path| == depth[current] + 1
    ensures Flow(e, source, sink, path + [sink])
    ensures forall w :: Flow(e, source, sink, w) ==> |path + [sink]| <= |w|
  {
    forall w | Flow(e, source, sink, w) ensures |path| + 1 <= |w| {
      NoShorterFlow(e, source, sink, parent, depth, depth[current], w);
    }
  }

  // The edges out of one node, the body of the search loop.
  method FollowAll(e: Edges, source: string, sink: string, parent0: map<string, string>, queue0: seq<string>,
                   seen0: set<string>, ghost depth0: map<string, nat>, current: string)
    returns (path: Option<seq<string>>, parent: map<string, string>, queue: seq<string>, seen: set<string>,
             ghost depth: map<string, nat>)
    requires seen0 == depth0.Keys && seen0 <= {source} + Targets(e)
    requires Following(e, source, sink, parent0, queue0, depth0, current, [])
    ensures seen0 <= seen == depth.Keys && seen <= {source} + Targets(e)
    ensures seen == seen0 ==> queue == queue0
    ensures path.None? ==> current in depth && Searching(e, source, sink, parent, queue, depth, depth[current])
    ensures path.Some? ==> Flow(e, source, sink, path.value)
    ensures path.Some? ==> forall w :: Flow(e, source, sink, w) ==> |path.value| <= |w|
  {
    parent, queue, seen, depth := parent0, queue0, seen0, depth0;
    var targets := TargetsOf(e, current);
    for j := 0 to |targets|
      invariant seen0 <= seen == depth.Keys && seen <= {source} + Targets(e)
      invariant seen == seen0 ==> queue == queue0
      invariant Following(e, source, sink, parent, queue, depth, current, targets[..j])
    {
      var target := targets[j];
      assert Edge(e, current, target);
      if target == sink {
        var chain := Chain(e, source, parent, depth, current);
        FoundFrom(e, source, sink, parent, queue, depth, current, targets[..j], chain);
        path := Some(chain + [target]);
        return;
      }
      assert targets[..j + 1] == targets[..j] + [target];
      if target !in seen {
        FollowEdge(e, source, sink, parent, queue, depth, current, targets[..j], target);
        parent := parent[target := current];
        depth := depth[target := depth[current] + 1];
        seen := seen + {target};
        queue := queue + [target];
      } else {
        SkipEdge(e, source, sink, parent, queue, depth, current, targets[..j], target);
      }
    }
    assert targets[..|targets|] == targets;
    DoneFollowing(e, source, sink, parent, queue, depth, current);
    path := None;
  }

  ghost predicate Known(e: Edges, source: string, seen: set<string>, depth: map<string, nat>) {
    seen == depth.Keys && seen <= {source} + Targets(e)
  }

  ghost function Unseen(e: Edges, source: string, seen: set<string>): nat {
    |{source} + Targets(e) - seen|
  }

  lemma FewerUnseen(e: Edges, source: string, seen: set<string>, seen': set<string>)
    requires seen <= seen' <= {source} + Targets(e)
    ensures Unseen(e, source, seen') < Unseen(e, source, seen) || seen' == seen
  {
    UnseenShrinks({source} + Targets(e), seen, seen');
  }

  lemma NoFlows(e: Edges, source: string, sink: string, parent: map<string, string>, depth: map<string, nat>,
                level: nat)
    requires Searching(e, source, sink, parent, [], depth, level)
    ensures forall w :: !Flow(e, source, sink, w)
  {
    forall w ensures !Flow(e, source, sink, w) {
      NoFlow(e, source, sink, parent, depth, w);
    }
  }

  // A shortest flow, or none when there is none.  A source that is its own sink needs a cycle like any other pair.
  method BfsPath(e: Edges, source: string, sink: string) returns (path: Option<seq<string>>)
    ensures path.Some? ==> Flow(e, source, sink, path.value)
    ensures path.Some? ==> forall w :: Flow(e, source, sink, w) ==> |path.value| <= |w|
    ensures path.None? ==> forall w :: !Flow(e, source, sink, w)
  {
    var parent: map<string, string> := map[];
    var queue, seen := [source], {source};
    ghost var depth: map<string, nat> := map[source := 0];
    ghost var level := 0;
    while queue != []
      invariant Known(e, source, seen, depth) && Searching(e, source, sink, parent, queue, depth, level)
      decreases Unseen(e, source, seen), |queue|
    {
      var current := queue[0];
      TakeNext(e, source, sink, parent, queue, depth, level);
      ghost var seen0 := seen;
      path, parent, queue, seen, depth := FollowAll(e, source, sink, parent, queue[1..], seen, depth, current);
      if path.Some? {
        return;
      }
      level := depth[current];
      FewerUnseen(e, source, seen0, seen);
    }
    NoFlows(e, source, sink, parent, depth, level);
    return None;
  }

  // ----- the verdict -----

  datatype Row = Row(source: Option<string>, target: Option<string>)

  datatype Verdict = Found(path: seq<string>) | NoFlowVerdict | Unknown(gaps: seq<string>)

  // An edge row counts when both its ends are strings.
  ghost predicate RowEdge(rows: seq<Row>, x: string, y: string) {
    Row(Some(x), Some(y)) in rows
  }

  function AddEdge(e: Edges, x: string, y: string): Edges {
    e[x := TargetsOf(e, x) + [y]]
  }

  method CollectEdges(rows: seq<Row>) returns (e: Edges)
    ensures forall x, y :: Edge(e, x, y) <==> RowEdge(rows, x, y)
  {
    e := map[];
    for i := 0 to |rows|
      invariant forall x, y :: Edge(e, x, y) <==> RowEdge(rows[..i], x, y)
    {
      assert rows[..i + 1] == rows[..i] + [rows[i]];
      if rows[i].source.Some? && rows[i].target.Some? {
        ghost var before := e;
        e := AddEdge(e, rows[i].source.value, rows[i].target.value);
        forall x, y
          ensures Edge(e, x, y) <==> Edge(before, x, y) || rows[i] == Row(Some(x), Some(y))
        {
        }
      }
    }
    assert rows[..|rows|] == rows;
  }

  function Strings(values: seq<Option<string>>): (s: seq<string>)
    ensures forall x :: x in s <==> Some(x) in values
  {
    if values == [] then []
    else (if values[0].Some? then [values[0].value] else []) + Strings(values[1..])
  }

  // Each string as often as it is among the values.
  lemma {:induction false} StringsCount(values: seq<Option<string>>, x: string)
    ensures multiset(Strings(values))[x] == multiset(values)[Some(x)]
  {
    if values != [] {
      var head := if values[0].Some? then [values[0].value] else [];
      StringsCount(values[1..], x);
      assert values == [values[0]] + values[1..];
      assert multiset(head + Strings(values[1..]))[x] == multiset(head)[x] + multiset(Strings(values[1..]))[x];
    }
  }

  ghost predicate RowFlow(rows: seq<Row>, source: string, sink: string, w: seq<string>) {
    && |w| > 1 && w[0] == source && w[|w| - 1] == sink
    && forall i :: 0 <= i < |w| - 1 ==> RowEdge(rows, w[i], w[i + 1])
  }

  // FOUND carries a shortest flow; UNKNOWN means there is none but part of the project is not covered, and names the
  // gaps; NO_FLOW means there is none and no gap.
  method FlowReachability(rows: seq<Row>, gapRows: seq<Option<string>>, source: string, sink: string)
    returns (verdict: Verdict)
    ensures verdict.Found? <==> exists w :: RowFlow(rows, source, sink, w)
    ensures verdict.Found? ==> RowFlow(rows, source, sink, verdict.path)
    ensures verdict.Found? ==> forall w :: RowFlow(rows, source, sink, w) ==> |verdict.path| <= |w|
    ensures verdict.NoFlowVerdict? <==>
              (forall w :: !RowFlow(rows, source, sink, w)) && forall gap :: Some(gap) !in gapRows
    ensures verdict.Unknown? ==> Ordered(verdict.gaps, NameLe)
    ensures verdict.Unknown? ==> forall gap :: gap in verdict.gaps <==> Some(gap) in gapRows
    ensures verdict.Unknown? ==> forall gap :: multiset(verdict.gaps)[gap] == multiset(gapRows)[Some(gap)]
  {
    var e := CollectEdges(rows);
    forall w ensures RowFlow(rows, source, sink, w) <==> Flow(e, source, sink, w) {
    }
    var path := BfsPath(e, source, sink);
    if path.Some? && path.value != [] {
      return Found(path.value);
    }
    var gaps := Sort(Strings(gapRows), NameLe);
    SortElements(Strings(gapRows), NameLe);
    NameLeTotalOrder();
    SortOrdered(Strings(gapRows), NameLe);
    if gaps != [] {
      assert gaps[0] in gaps;
      forall gap {
        StringsCount(gapRows, gap);
      }
      SortPermutes(Strings(gapRows), NameLe);
      return Unknown(gaps);
    }
    return NoFlowVerdict;
  }
}
