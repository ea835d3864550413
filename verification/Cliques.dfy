/**
 Maximal-clique enumeration over the threshold graph: Bron-Kerbosch with pivoting and a cap
 (codebase_rag/duplicates.py, _maximal_cliques).

 A vertex is the position of an entry; the graph maps each vertex to its neighbours.
 */
module Cliques {
  import opened Orders

  type Graph = map<int, set<int>>

  ghost predicate SimpleGraph(g: Graph) {
    && (forall u, v :: u in g && v in g[u] ==> v in g && u in g[v])
    && (forall u :: u in g ==> u !in g[u])
  }

  ghost predicate Clique(g: Graph, c: set<int>) {
    && c <= g.Keys
    && forall u, v :: u in c && v in c && u != v ==> v in g[u]
  }

  // No strictly larger clique contains c.
  ghost predicate Maximal(g: Graph, c: set<int>) {
    && Clique(g, c)
    && forall d: set<int> :: Clique(g, d) && c <= d ==> c == d
  }

  // What the duplicate report is about: the maximal cliques with at least two entries.
  ghost function MaximalCliques(g: Graph): set<set<int>> {
    set c: set<int> | c <= g.Keys && Maximal(g, c) && |c| > 1
  }

  // Every clique grows into a maximal one.
  lemma {:induction false} GrowClique(g: Graph, c: set<int>) returns (d: set<int>)
    requires SimpleGraph(g) && Clique(g, c)
    ensures Maximal(g, d) && c <= d
    decreases |g.Keys - c|
  {
    if w :| w in g && w !in c && Clique(g, c + {w}) {
      SubsetCount(g.Keys - (c + {w}), g.Keys - c);
      assert w in g.Keys - c && w !in g.Keys - (c + {w});
      d := GrowClique(g, c + {w});
    } else {
      d := c;
      forall e: set<int> | Clique(g, e) && c <= e ensures c == e {
        forall w | w in e ensures w in c {
          assert c + {w} <= e;
          assert Clique(g, c + {w});
        }
      }
    }
  }

  // No edge is left out: some maximal clique contains both its ends.
  lemma EdgeInMaximalClique(g: Graph, u: int, v: int) returns (c: set<int>)
    requires SimpleGraph(g) && u in g && v in g[u]
    ensures c in MaximalCliques(g) && u in c && v in c
  {
    c := GrowClique(g, {u, v});
    SubsetCount({u, v}, c);
  }

  // ----- the recursion tree -----

  // The part of the answers below one node of the recursion.
  ghost predicate InRegion(answers: set<set<int>>, c: set<int>, taken: set<int>, excluded: set<int>) {
    c in answers && taken <= c && c !! excluded
  }

  // Cliques of one region, none of them twice.
  ghost predicate Reports(answers: set<set<int>>, found: seq<set<int>>, taken: set<int>, excluded: set<int>) {
    && (forall c :: c in found ==> InRegion(answers, c, taken, excluded))
    && NoDuplicates(found)
  }

  // Every clique of the region that meets `done` has been found, and no other one has.
  ghost predicate Covers(answers: set<set<int>>, found: seq<set<int>>, taken: set<int>, excluded: set<int>,
                         done: set<int>) {
    forall c :: c in found <==> InRegion(answers, c, taken, excluded) && !(c !! done)
  }

  // The state the recursion keeps: what is taken is a clique, and the vertices joined to all of it are exactly the
  // candidates and the excluded ones.
  ghost predicate Node(g: Graph, taken: set<int>, candidates: set<int>, excluded: set<int>) {
    && SimpleGraph(g)
    && Clique(g, taken)
    && candidates !! excluded
    && forall w :: w in candidates || w in excluded <==> w in g && taken <= g[w]
  }

  // A vertex joined to all of a maximal clique would make it larger.
  lemma MaximalHasNoJoined(g: Graph, c: set<int>, w: int)
    requires SimpleGraph(g) && Maximal(g, c) && w in g
    ensures exists u :: u in c && u !in g[w]
  {
    if forall u :: u in c ==> u in g[w] {
      assert w !in c && Clique(g, c + {w});
      assert false;
    }
  }

  // Members of a region beyond the taken vertices are candidates.
  lemma RegionWithinCandidates(g: Graph, c: set<int>, taken: set<int>, candidates: set<int>, excluded: set<int>)
    requires Node(g, taken, candidates, excluded) && Clique(g, c) && taken <= c && c !! excluded
    ensures c <= taken + candidates
  {
    forall w | w in c && w !in taken ensures w in candidates {
      assert forall t :: t in taken ==> t in c && t in g[w];
    }
  }

  // Pivoting loses nothing: every clique of the region uses a candidate that is not a neighbour of the pivot.
  lemma PivotMet(g: Graph, c: set<int>, taken: set<int>, candidates: set<int>, excluded: set<int>, pivot: int)
    requires Node(g, taken, candidates, excluded) && InRegion(MaximalCliques(g), c, taken, excluded)
    requires pivot in candidates || pivot in excluded
    ensures !(c !! candidates - g[pivot])
  {
    assert pivot in g && taken <= g[pivot];
    MaximalHasNoJoined(g, c, pivot);
    var w :| w in c && w !in g[pivot];
    RegionWithinCandidates(g, c, taken, candidates, excluded);
    assert w in candidates - g[pivot];
  }

  lemma PivotCovers(g: Graph, taken: set<int>, candidates: set<int>, excluded: set<int>, pivot: int,
                    found: seq<set<int>>)
    requires Node(g, taken, candidates, excluded) && (pivot in candidates || pivot in excluded)
    requires pivot in g
    requires Covers(MaximalCliques(g), found, taken, excluded, candidates - g[pivot])
    ensures forall c :: c in found <==> InRegion(MaximalCliques(g), c, taken, excluded)
  {
    forall c | InRegion(MaximalCliques(g), c, taken, excluded) ensures c in found {
      PivotMet(g, c, taken, candidates, excluded, pivot);
    }
  }

  // Where nothing is left to add, the region is the taken clique alone.
  lemma LeafRegion(g: Graph, taken: set<int>, c: set<int>)
    requires Node(g, taken, {}, {})
    ensures InRegion(MaximalCliques(g), c, taken, {}) <==> c == taken && |taken| > 1
  {
    forall d: set<int> | Clique(g, d) && taken <= d ensures d == taken {
      RegionWithinCandidates(g, d, taken, {}, {});
    }
    assert Maximal(g, taken);
  }

  // Taking a candidate v leads to a node of the recursion again.
  lemma ChildNode(g: Graph, taken: set<int>, candidates: set<int>, excluded: set<int>, v: int)
    requires Node(g, taken, candidates, excluded) && v in candidates
    ensures v in g && v !in g[v] && Node(g, taken + {v}, candidates * g[v], excluded * g[v])
  {
    forall w
      ensures w in candidates * g[v] || w in excluded * g[v] <==> w in g && taken + {v} <= g[w]
    {
      assert w in g && v in g[w] <==> w in g[v];
    }
  }

  // A maximal clique through v avoids the excluded vertices as soon as it avoids the excluded neighbours of v.
  lemma ChildRegion(g: Graph, c: set<int>, taken: set<int>, excluded: set<int>, v: int)
    requires SimpleGraph(g) && v in g && v !in excluded
    ensures InRegion(MaximalCliques(g), c, taken + {v}, excluded * g[v])
       <==> InRegion(MaximalCliques(g), c, taken, excluded) && v in c
  {
    if c in MaximalCliques(g) && taken + {v} <= c && c !! excluded * g[v] {
      assert Clique(g, c) && v in c;
      forall w | w in c ensures w !in excluded {
        assert w == v || w in g[v];
      }
    }
  }

  lemma MoveToExcluded(g: Graph, taken: set<int>, candidates: set<int>, excluded: set<int>, v: int)
    requires Node(g, taken, candidates, excluded) && v in candidates
    ensures Node(g, taken, candidates - {v}, excluded + {v})
  {
  }

  // One branch of the recursion adds exactly the cliques of the region that use v and none of the vertices branched
  // on before it, so nothing is reported twice.
  lemma BranchReported(g: Graph, earlier: seq<set<int>>, later: seq<set<int>>, taken: set<int>, excluded: set<int>,
                       done: set<int>, v: int)
    requires SimpleGraph(g) && v in g && v !in done && v !in excluded
    requires Reports(MaximalCliques(g), earlier, taken, excluded)
    requires Covers(MaximalCliques(g), earlier, taken, excluded, done)
    requires Reports(MaximalCliques(g), later, taken + {v}, (excluded + done) * g[v])
    ensures Reports(MaximalCliques(g), earlier + later, taken, excluded)
    ensures (forall c :: c in later <==> InRegion(MaximalCliques(g), c, taken + {v}, (excluded + done) * g[v]))
        ==> Covers(MaximalCliques(g), earlier + later, taken, excluded, done + {v})
  {
    var answers := MaximalCliques(g);
    forall c
      ensures InRegion(answers, c, taken + {v}, (excluded + done) * g[v])
         <==> InRegion(answers, c, taken, excluded) && c !! done && v in c
    {
      ChildRegion(g, c, taken, excluded + done, v);
    }
    BranchReportedIn(answers, earlier, later, taken, excluded, done, v, (excluded + done) * g[v]);
  }

  lemma BranchReportedIn(answers: set<set<int>>, earlier: seq<set<int>>, later: seq<set<int>>, taken: set<int>,
                         excluded: set<int>, done: set<int>, v: int, barred: set<int>)
    requires Reports(answers, earlier, taken, excluded) && Covers(answers, earlier, taken, excluded, done)
    requires Reports(answers, later, taken + {v}, barred)
    requires forall c :: InRegion(answers, c, taken + {v}, barred)
                    <==> InRegion(answers, c, taken, excluded) && c !! done && v in c
    ensures Reports(answers, earlier + later, taken, excluded)
    ensures (forall c :: c in later <==> InRegion(answers, c, taken + {v}, barred))
        ==> Covers(answers, earlier + later, taken, excluded, done + {v})
  {
    forall i, j | 0 <= i < j < |earlier + later| ensures (earlier + later)[i] != (earlier + later)[j] {
      if i < |earlier| <= j {
        assert earlier[i] in earlier && later[j - |earlier|] in later;
      }
    }
    assert forall c :: c in earlier + later <==> c in earlier || c in later;
  }

  // A list without repetitions can be counted against the set of all answers.
  lemma ReportSize(answers: set<set<int>>, found: seq<set<int>>)
    requires NoDuplicates(found) && forall c :: c in found ==> c in answers
    ensures |found| <= |answers|
    ensures |found| == |answers| <==> Elements(found) == answers
  {
    DistinctCount(found);
    SubsetCount(Elements(found), answers);
  }

  lemma AppendedTail<T>(before: seq<T>, after: seq<T>, base: nat)
    requires base <= |before| && before <= after
    ensures after[base..] == before[base..] + after[|before|..]
  {
  }

  // ----- the enumeration -----

  function Listing(found: seq<set<int>>): seq<seq<int>> {
    seq(|found|, i requires 0 <= i < |found| => Ascending(found[i], IntLe))
  }

  function Score(g: Graph, candidates: set<int>, w: int): nat {
    if w in g then |g[w] * candidates| else 0
  }

  // max(vertices, key=...): the first of the vertices with the most candidate neighbours.
  method BestPivot(g: Graph, candidates: set<int>, vertices: seq<int>) returns (pivot: int)
    requires vertices != [] && Ordered(vertices, IntLe) && forall w :: w in vertices ==> w in g
    ensures pivot in vertices
    ensures forall w :: w in vertices ==>
              |g[w] * candidates| < |g[pivot] * candidates|
              || (|g[w] * candidates| == |g[pivot] * candidates| && pivot <= w)
  {
    pivot := vertices[0];
    for i := 1 to |vertices|
      invariant pivot in vertices[..i]
      invariant forall j :: 0 <= j < i ==> Score(g, candidates, vertices[j]) <= Score(g, candidates, pivot)
      invariant forall j :: 0 <= j < i && Score(g, candidates, vertices[j]) == Score(g, candidates, pivot)
                  ==> pivot <= vertices[j]
    {
      if Score(g, candidates, vertices[i]) > Score(g, candidates, pivot) {
        pivot := vertices[i];
      } else {
        assert exists j :: 0 <= j < i && pivot == vertices[j];
        assert IntLe(pivot, vertices[i]);
      }
    }
  }

  class Enumeration {
    const adjacency: Graph
    const budget: int
    var cliques: seq<seq<int>>
    ghost var found: seq<set<int>>

    ghost predicate Valid()
      reads this
    {
      SimpleGraph(adjacency) && cliques == Listing(found)
    }

    constructor (adjacency: Graph, cap: int)
      requires SimpleGraph(adjacency)
      ensures Valid() && this.adjacency == adjacency && budget == cap + 1 && found == []
    {
      this.adjacency := adjacency;
      budget := cap + 1;
      cliques, found := [], [];
    }

    method Expand(taken: set<int>, candidates: set<int>, excluded: set<int>) returns (more: bool)
      requires Valid() && Node(adjacency, taken, candidates, excluded)
      modifies this
      decreases |candidates|, 2
      ensures Valid() && old(found) <= found
      ensures Reports(MaximalCliques(adjacency), found[|old(found)|..], taken, excluded)
      ensures more <==> |found| < budget
      ensures |found| <= budget || found == old(found)
      ensures more ==> forall c :: c in found[|old(found)|..]
                              <==> InRegion(MaximalCliques(adjacency), c, taken, excluded)
    {
      if |cliques| >= budget {
        return false;
      }
      if candidates == {} && excluded == {} {
        forall c ensures InRegion(MaximalCliques(adjacency), c, taken, {}) <==> c == taken && |taken| > 1 {
          LeafRegion(adjacency, taken, c);
        }
        if |taken| > 1 {
          cliques, found := cliques + [Ascending(taken, IntLe)], found + [taken];
        }
        return |cliques| < budget;
      }
      var pivot := BestPivot(adjacency, candidates, SortedVertices(candidates + excluded));
      more := Branch(taken, candidates, excluded, pivot);
    }

    // The loop over the candidates that are not neighbours of the pivot.
    method Branch(taken: set<int>, candidates: set<int>, excluded: set<int>, pivot: int) returns (more: bool)
      requires Valid() && Node(adjacency, taken, candidates, excluded) && |found| < budget
      requires pivot in adjacency && (pivot in candidates || pivot in excluded)
      modifies this
      decreases |candidates|, 1
      ensures Valid() && old(found) <= found && |found| <= budget
      ensures Reports(MaximalCliques(adjacency), found[|old(found)|..], taken, excluded)
      ensures more <==> |found| < budget
      ensures more ==> forall c :: c in found[|old(found)|..]
                              <==> InRegion(MaximalCliques(adjacency), c, taken, excluded)
    {
      var todo := SortedVertices(candidates - adjacency[pivot]);
      var remaining, barred := candidates, excluded;
      ghost var done: set<int> := {};
      for i := 0 to |todo|
        invariant old(found) <= found
        invariant done == Elements(todo[..i])
        invariant remaining == candidates - done && barred == excluded + done
        invariant Progress(|old(found)|, taken, candidates, excluded, done)
      {
        ElementsOfPrefix(todo, i);
        more := Descend(|old(found)|, taken, remaining, barred, todo[i], done, candidates, excluded);
        if !more {
          return false;
        }
        remaining, barred, done := remaining - {todo[i]}, barred + {todo[i]}, done + {todo[i]};
      }
      ElementsOfPrefix(todo, |todo|);
      PivotCovers(adjacency, taken, candidates, excluded, pivot, found[|old(found)|..]);
      return true;
    }

    // Between two iterations of the loop: `done` has been branched on, and exactly the cliques of the region that
    // meet it have been listed since `base`.
    ghost predicate Progress(base: nat, taken: set<int>, candidates: set<int>, excluded: set<int>, done: set<int>)
      reads this
    {
      && Valid() && base <= |found| < budget
      && Node(adjacency, taken, candidates - done, excluded + done)
      && Reports(MaximalCliques(adjacency), found[base..], taken, excluded)
      && Covers(MaximalCliques(adjacency), found[base..], taken, excluded, done)
    }

    // One iteration of the loop: the recursive call for one vertex.
    method Descend(ghost base: nat, taken: set<int>, candidates: set<int>, excluded: set<int>, vertex: int,
                   ghost done: set<int>, ghost all: set<int>, ghost none: set<int>) returns (more: bool)
      requires Progress(base, taken, all, none, done) && vertex in all - done
      requires candidates == all - done && excluded == none + done
      modifies this
      decreases |all|, 0
      ensures old(found) <= found && |found| <= budget
      ensures more <==> |found| < budget
      ensures Valid() && Reports(MaximalCliques(adjacency), found[base..], taken, none)
      ensures more ==> Progress(base, taken, all, none, done + {vertex})
      ensures candidates - {vertex} == all - (done + {vertex}) && excluded + {vertex} == none + (done + {vertex})
    {
      ghost var before := found;
      ChildNode(adjacency, taken, candidates, excluded, vertex);
      MoveToExcluded(adjacency, taken, candidates, excluded, vertex);
      SubsetCount(candidates * adjacency[vertex], all);
      assert vertex !in candidates * adjacency[vertex];
      more := Expand(taken + {vertex}, candidates * adjacency[vertex], excluded * adjacency[vertex]);
      BranchReported(adjacency, before[base..], found[|before|..], taken, none, done, vertex);
      AppendedTail(before, found, base);
      assert candidates - {vertex} == all - (done + {vertex});
      assert excluded + {vertex} == none + (done + {vertex});
    }
  }

  function SortedVertices(s: set<int>): (vertices: seq<int>)
    ensures Ordered(vertices, IntLe) && NoDuplicates(vertices)
    ensures forall v :: v in vertices <==> v in s
    ensures s != {} ==> vertices != []
  {
    AscendingOrdered(s, IntLe);
    Ascending(s, IntLe)
  }

  ghost function CliquesOf(cliques: seq<seq<int>>): set<set<int>> {
    set k | k in cliques :: Elements(k)
  }

  // A list of cliques as it is handed out: ascending positions inside a clique, cliques in list order, no repetition,
  // every one of them a maximal clique.
  ghost predicate CliqueList(g: Graph, cliques: seq<seq<int>>) {
    && (forall k :: k in cliques ==> Elements(k) in MaximalCliques(g) && k == SortedVertices(Elements(k)))
    && NoDuplicates(cliques)
  }

  lemma ListingReports(g: Graph, found: seq<set<int>>)
    requires Reports(MaximalCliques(g), found, {}, {})
    ensures CliqueList(g, Listing(found)) && CliquesOf(Listing(found)) == Elements(found)
  {
    var cliques := Listing(found);
    forall i | 0 <= i < |found| ensures Elements(cliques[i]) == found[i] && found[i] in MaximalCliques(g) {
      assert found[i] in found;
    }
    forall c | c in found ensures c in CliquesOf(cliques) {
      var i :| 0 <= i < |found| && c == found[i];
      assert cliques[i] in cliques;
    }
    forall i, j | 0 <= i < j < |cliques| ensures cliques[i] != cliques[j] {
      assert Elements(cliques[i]) != Elements(cliques[j]);
    }
  }

  lemma KeptCliques(g: Graph, cliques: seq<seq<int>>, cap: int)
    requires CliqueList(g, cliques)
    ensures CliqueList(g, SliceTo(cliques, cap))
  {
    forall k | k in SliceTo(cliques, cap) ensures k in cliques {
    }
  }

  // Sorting a clique list keeps it a list of the same cliques.
  lemma SortedCliques(g: Graph, cliques: seq<seq<int>>, sorted: seq<seq<int>>)
    requires CliqueList(g, cliques) && multiset(cliques) == multiset(sorted)
    ensures CliqueList(g, sorted) && CliquesOf(sorted) == CliquesOf(cliques)
  {
    forall k: seq<int> ensures k in cliques <==> k in sorted {
      assert k in cliques <==> k in multiset(cliques);
      assert k in sorted <==> k in multiset(sorted);
    }
    DuplicateFree(cliques, sorted);
  }

  // The maximal cliques of the graph, listed once each; when there are more than `cap`, exactly `cap` of them, and
  // the list is marked truncated in that case only.
  method MaximalCliqueList(adjacency: Graph, cap: int) returns (cliques: seq<seq<int>>, truncated: bool)
    requires SimpleGraph(adjacency)
    ensures CliqueList(adjacency, cliques) && Ordered(cliques, PositionsLe)
    ensures truncated <==> |MaximalCliques(adjacency)| > cap
    ensures truncated && cap >= 0 ==> |cliques| == cap
    ensures !truncated ==> CliquesOf(cliques) == MaximalCliques(adjacency)
  {
    var run := new Enumeration(adjacency, cap);
    var more := run.Expand({}, adjacency.Keys, {});
    ghost var found := run.found;
    assert found[0..] == found;
    ReportSize(MaximalCliques(adjacency), found);
    ListingReports(adjacency, found);
    truncated := |run.cliques| > cap;
    assert more ==> Elements(found) == MaximalCliques(adjacency) by {
      if more {
        forall c ensures c in found <==> c in MaximalCliques(adjacency) {
          assert c in found <==> InRegion(MaximalCliques(adjacency), c, {}, {});
        }
      }
    }
    var kept := SliceTo(run.cliques, cap);
    KeptCliques(adjacency, run.cliques, cap);
    PositionsLeTotalOrder();
    cliques := Sort(kept, PositionsLe);
    SortPermutes(kept, PositionsLe);
    SortOrdered(kept, PositionsLe);
    SortedCliques(adjacency, kept, cliques);
  }
}
